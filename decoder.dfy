/**
 * `TemporalGraph._json_to_graph` (main.py): a snapshot document becomes a
 * `DiGraph` or a `Graph`. Node records are zipped against the field names of
 * their type and keyed by their last value; relationship records of a known
 * type are zipped against that type's names (position 0, the type name,
 * included) and join their last two values; a record of an unknown type
 * joins its first two values without attributes.
 *
 * `Decode` states the decoding as a fold over the records, `JsonToGraph` is the
 * imperative decoder with the source's nested loops, proved equal to it, and
 * the lemmas characterise the decoded graph by the records alone.
 */
module Decoder {
  import opened Json
  import opened Graphs

  // ---------------------------------------------------------------------
  // The decoder as a fold over the records
  // ---------------------------------------------------------------------

  /** Keyword arguments that `add_node(self, node_for_adding, **attr)` binds
      itself: a field of either name gets two values, a TypeError. */
  predicate NodeClash(a: Attrs)
  {
    "self" in a || "node_for_adding" in a
  }

  /** The same for `add_edge(self, u_of_edge, v_of_edge, **attr)`. */
  predicate EdgeClash(a: Attrs)
  {
    "self" in a || "u_of_edge" in a || "v_of_edge" in a
  }

  /** One node record: `node[-1]`, then `data["node_types"][node_type]`,
      then `add_node`. */
  function NodeStep(g: Graph, nodeTypes: map<string, seq<string>>, typeName: string, rec: Record): Result<Graph>
  {
    if |rec| == 0 then Err(IndexError)
    else if typeName !in nodeTypes then Err(KeyError)
    else if NodeClash(Zip(nodeTypes[typeName], rec)) then Err(TypeError)
    else g.AddNode(rec[|rec| - 1], Zip(nodeTypes[typeName], rec))
  }

  function NodeRecords(g: Graph, nodeTypes: map<string, seq<string>>, typeName: string, recs: seq<Record>): Result<Graph>
    decreases |recs|
  {
    if |recs| == 0 then Ok(g)
    else match NodeStep(g, nodeTypes, typeName, recs[0])
      case Err(e) => Err(e)
      case Ok(g1) => NodeRecords(g1, nodeTypes, typeName, recs[1..])
  }

  function NodeBuckets(g: Graph, nodeTypes: map<string, seq<string>>, buckets: seq<(string, seq<Record>)>): Result<Graph>
    decreases |buckets|
  {
    if |buckets| == 0 then Ok(g)
    else match NodeRecords(g, nodeTypes, buckets[0].0, buckets[0].1)
      case Err(e) => Err(e)
      case Ok(g1) => NodeBuckets(g1, nodeTypes, buckets[1..])
  }

  /** One relationship record. For a known type, `range(len(i) - 2)` indexes
      the type's names (IndexError once they run out), `i[-2]` fails on a
      one-element record and a field named after a parameter of `add_edge`
      raises TypeError; for an unknown type `i[1]` fails on a one-element
      record. */
  function EdgeStep(g: Graph, relTypes: map<string, seq<string>>, rec: Record): Result<Graph>
  {
    if |rec| == 0 then Err(IndexError)
    else match KeyIn(rec[0], relTypes)
      case Err(e) => Err(e)
      case Ok(known) =>
        if known then
          var names := relTypes[rec[0].s];
          if |rec| < 2 || |names| < |rec| - 2 then Err(IndexError)
          else if EdgeClash(ZipUpTo(names, rec, |rec| - 2)) then Err(TypeError)
          else g.AddEdge(rec[|rec| - 2], rec[|rec| - 1], ZipUpTo(names, rec, |rec| - 2))
        else if |rec| < 2 then Err(IndexError)
        else g.AddEdge(rec[0], rec[1], map[])
  }

  function EdgeRecords(g: Graph, relTypes: map<string, seq<string>>, recs: seq<Record>): Result<Graph>
    decreases |recs|
  {
    if |recs| == 0 then Ok(g)
    else match EdgeStep(g, relTypes, recs[0])
      case Err(e) => Err(e)
      case Ok(g1) => EdgeRecords(g1, relTypes, recs[1..])
  }

  /** The rest of the decoding once the node buckets before `b` are done. */
  function FinishNodes(g: Graph, doc: Document, b: nat): Result<Graph>
    requires b <= |doc.nodeValues|
  {
    match NodeBuckets(g, doc.nodeTypes, doc.nodeValues[b..])
    case Err(e) => Err(e)
    case Ok(h) => EdgeRecords(h, doc.relTypes, doc.relValues)
  }

  /** `_json_to_graph(data)`. */
  function Decode(doc: Document): Result<Graph>
  {
    FinishNodes(Empty(doc.directed), doc, 0)
  }

  // ---------------------------------------------------------------------
  // The imperative decoder
  // ---------------------------------------------------------------------

  /** The rest of the decoding once the first `i` records of bucket `b` are done. */
  function FinishBucket(g: Graph, doc: Document, b: nat, i: nat): Result<Graph>
    requires b < |doc.nodeValues| && i <= |doc.nodeValues[b].1|
  {
    match NodeRecords(g, doc.nodeTypes, doc.nodeValues[b].0, doc.nodeValues[b].1[i..])
    case Err(e) => Err(e)
    case Ok(h) => FinishNodes(h, doc, b + 1)
  }

  /** The body of the relationship loop for one record. */
  method AddRelationship(graph: Graph, allEdgeTypes: map<string, seq<string>>, i: Record) returns (added: Result<Graph>)
    ensures added == EdgeStep(graph, allEdgeTypes, i)
  {
    if |i| == 0 {
      return Err(IndexError);
    }
    var known := KeyIn(i[0], allEdgeTypes);
    if known.Err? {
      return Err(known.fault);
    }
    if known.value {
      var names := allEdgeTypes[i[0].s];
      var attributes: Attrs := map[];
      var j := 0;
      while j < |i| - 2
        invariant 0 <= j <= |i| && j <= |names|
        invariant |i| >= 2 ==> j <= |i| - 2
        invariant attributes == ZipUpTo(names, i, j)
      {
        if j >= |names| {
          return Err(IndexError);
        }
        attributes := attributes[names[j] := i[j]];
        j := j + 1;
      }
      if |i| < 2 {
        return Err(IndexError);
      }
      if EdgeClash(attributes) {
        return Err(TypeError);
      }
      added := graph.AddEdge(i[|i| - 2], i[|i| - 1], attributes);
    } else {
      if |i| < 2 {
        return Err(IndexError);
      }
      added := graph.AddEdge(i[0], i[1], map[]);
    }
  }

  method JsonToGraph(data: Document) returns (r: Result<Graph>)
    ensures r == Decode(data)
  {
    var graph := Empty(data.directed);
    var b := 0;
    while b < |data.nodeValues|
      invariant 0 <= b <= |data.nodeValues|
      invariant FinishNodes(graph, data, b) == Decode(data)
    {
      var nodeType := data.nodeValues[b].0;
      var nodes := data.nodeValues[b].1;
      assert data.nodeValues[b..][1..] == data.nodeValues[b + 1..];
      var i := 0;
      while i < |nodes|
        invariant 0 <= i <= |nodes|
        invariant FinishBucket(graph, data, b, i) == Decode(data)
      {
        assert nodes[i..][1..] == nodes[i + 1..];
        var node := nodes[i];
        if |node| == 0 {
          return Err(IndexError);
        }
        var nodeId := node[|node| - 1];
        if nodeType !in data.nodeTypes {
          return Err(KeyError);
        }
        var nodeAttributes := Zip(data.nodeTypes[nodeType], node);
        if NodeClash(nodeAttributes) {
          return Err(TypeError);
        }
        var added := graph.AddNode(nodeId, nodeAttributes);
        if added.Err? {
          return Err(added.fault);
        }
        graph := added.value;
        i := i + 1;
      }
      b := b + 1;
    }
    assert EdgeRecords(graph, data.relTypes, data.relValues[0..]) == Decode(data) by {
      assert data.relValues[0..] == data.relValues;
    }

    var allEdgeTypes := data.relTypes;
    var k := 0;
    while k < |data.relValues|
      invariant 0 <= k <= |data.relValues|
      invariant EdgeRecords(graph, allEdgeTypes, data.relValues[k..]) == Decode(data)
    {
      assert data.relValues[k..][1..] == data.relValues[k + 1..];
      var added := AddRelationship(graph, allEdgeTypes, data.relValues[k]);
      if added.Err? {
        return Err(added.fault);
      }
      graph := added.value;
      k := k + 1;
    }
    r := Ok(graph);
  }

  // ---------------------------------------------------------------------
  // Which records decode, and what each one contributes
  // ---------------------------------------------------------------------

  /** The field names declared for a node type, none when it is undeclared. */
  function TypeNames(nodeTypes: map<string, seq<string>>, typeName: string): seq<string>
  {
    if typeName in nodeTypes then nodeTypes[typeName] else []
  }

  /** A node record that decodes: it has a last value, its type is declared,
      no field is named after a parameter of `add_node`, and the last value
      can be a vertex. */
  predicate NodeRecordOk(nodeTypes: map<string, seq<string>>, typeName: string, rec: Record)
  {
    && |rec| > 0 && typeName in nodeTypes && !NodeClash(Zip(nodeTypes[typeName], rec))
    && !rec[|rec| - 1].List? && !rec[|rec| - 1].Null?
  }

  /** Whether a relationship record names a declared relationship type. */
  predicate Known(relTypes: map<string, seq<string>>, rec: Record)
    requires |rec| > 0
  {
    rec[0].Str? && rec[0].s in relTypes
  }

  /** A relationship record whose endpoints and attributes can be read. */
  predicate EdgeShapeOk(relTypes: map<string, seq<string>>, rec: Record)
  {
    && |rec| >= 2
    && !rec[0].List?
    && (Known(relTypes, rec) ==> |relTypes[rec[0].s]| >= |rec| - 2)
  }

  /** The edge a readable relationship record asks for: source, target and
      attributes. */
  function EdgeEntry(relTypes: map<string, seq<string>>, rec: Record): (e: (Value, Value, Attrs))
    requires EdgeShapeOk(relTypes, rec)
  {
    if Known(relTypes, rec) then (rec[|rec| - 2], rec[|rec| - 1], ZipUpTo(relTypes[rec[0].s], rec, |rec| - 2))
    else (rec[0], rec[1], map[])
  }

  /** A relationship record that decodes: readable, no field named after a
      parameter of `add_edge`, and endpoints that can be vertices. */
  predicate EdgeRecordOk(relTypes: map<string, seq<string>>, rec: Record)
  {
    && EdgeShapeOk(relTypes, rec)
    && var e := EdgeEntry(relTypes, rec);
    && !EdgeClash(e.2)
    && !e.0.List? && !e.0.Null? && !e.1.List? && !e.1.Null?
  }

  /** The (identifier, attributes) entries of one bucket, in record order. */
  function BucketEntries(names: seq<string>, recs: seq<Record>): seq<(Value, Attrs)>
  {
    if |recs| == 0 then []
    else (if |recs[0]| == 0 then [] else [(recs[0][|recs[0]| - 1], Zip(names, recs[0]))]) + BucketEntries(names, recs[1..])
  }

  /** The node entries of all buckets, in bucket order. */
  function NodeEntries(nodeTypes: map<string, seq<string>>, buckets: seq<(string, seq<Record>)>): seq<(Value, Attrs)>
  {
    if |buckets| == 0 then []
    else BucketEntries(TypeNames(nodeTypes, buckets[0].0), buckets[0].1) + NodeEntries(nodeTypes, buckets[1..])
  }

  /** The edge entries of the readable relationship records, in record order. */
  function EdgeEntries(relTypes: map<string, seq<string>>, recs: seq<Record>): seq<(Value, Value, Attrs)>
  {
    if |recs| == 0 then []
    else (if EdgeShapeOk(relTypes, recs[0]) then [EdgeEntry(relTypes, recs[0])] else []) + EdgeEntries(relTypes, recs[1..])
  }

  function Ids(es: seq<(Value, Attrs)>): set<Value>
  {
    if |es| == 0 then {} else {es[0].0} + Ids(es[1..])
  }

  function Ends(es: seq<(Value, Value, Attrs)>): set<Value>
  {
    if |es| == 0 then {} else {es[0].0, es[0].1} + Ends(es[1..])
  }

  /** Some entry asks for the stored pair `(x, w)`. */
  predicate Touched(es: seq<(Value, Value, Attrs)>, directed: bool, x: Value, w: Value)
  {
    |es| > 0 && (SamePair(directed, x, w, es[0].0, es[0].1) || Touched(es[1..], directed, x, w))
  }

  /** `base` with the attributes of every entry for `id` merged in, in order,
      later keys winning: the reference meaning of repeated `add_node`. */
  function MergeNode(base: Attrs, es: seq<(Value, Attrs)>, id: Value): Attrs
    decreases |es|
  {
    if |es| == 0 then base
    else MergeNode(if es[0].0 == id then base + es[0].1 else base, es[1..], id)
  }

  /** `base` with the attributes of every entry for the stored pair `(x, w)`
      merged in, in order: the reference meaning of repeated `add_edge`. */
  function MergeEdge(base: Attrs, es: seq<(Value, Value, Attrs)>, directed: bool, x: Value, w: Value): Attrs
    decreases |es|
  {
    if |es| == 0 then base
    else MergeEdge(if SamePair(directed, x, w, es[0].0, es[0].1) then base + es[0].2 else base, es[1..], directed, x, w)
  }

  // ---------------------------------------------------------------------
  // One record at a time
  // ---------------------------------------------------------------------

  lemma NodeStepSpec(g: Graph, nodeTypes: map<string, seq<string>>, typeName: string, rec: Record)
    requires g.KeysOk()
    ensures NodeStep(g, nodeTypes, typeName, rec).Ok? <==> NodeRecordOk(nodeTypes, typeName, rec)
  {
  }

  lemma EdgeStepSpec(g: Graph, relTypes: map<string, seq<string>>, rec: Record)
    requires g.KeysOk()
    ensures EdgeStep(g, relTypes, rec).Ok? <==> EdgeRecordOk(relTypes, rec)
    ensures EdgeStep(g, relTypes, rec).Ok? ==>
      var e := EdgeEntry(relTypes, rec);
      EdgeStep(g, relTypes, rec) == g.AddEdge(e.0, e.1, e.2)
  {
    if EdgeShapeOk(relTypes, rec) {
      var e := EdgeEntry(relTypes, rec);
      AddEdgeShape(g, e.0, e.1, e.2);
    }
  }

  /** What one `add_edge` does to a stored pair's dictionary. */
  lemma AddEdgeBase(g: Graph, u: Value, v: Value, a: Attrs)
    requires g.Valid() && g.AddEdge(u, v, a).Ok?
    ensures var h := g.AddEdge(u, v, a).value;
      forall x, w :: EdgeBase(h, x, w) == if SamePair(g.directed, x, w, u, v) then EdgeBase(g, x, w) + a else EdgeBase(g, x, w)
  {
    AddEdgeMerges(g, u, v, a);
    var h := g.AddEdge(u, v, a).value;
    forall x, w
      ensures EdgeBase(h, x, w) == if SamePair(g.directed, x, w, u, v) then EdgeBase(g, x, w) + a else EdgeBase(g, x, w)
    {
      if SamePair(g.directed, x, w, u, v) && (x, w) != (u, v) {
        assert (v, u) in g.edgeAttrs <==> (u, v) in g.edgeAttrs;
      }
    }
  }

  // ---------------------------------------------------------------------
  // Whole phases
  // ---------------------------------------------------------------------

  lemma {:induction false} NodeRecordsOk(g: Graph, nodeTypes: map<string, seq<string>>, typeName: string, recs: seq<Record>)
    requires g.KeysOk()
    ensures NodeRecords(g, nodeTypes, typeName, recs).Ok? <==>
      forall i :: 0 <= i < |recs| ==> NodeRecordOk(nodeTypes, typeName, recs[i])
    decreases |recs|
  {
    if |recs| > 0 {
      NodeStepSpec(g, nodeTypes, typeName, recs[0]);
      if NodeRecordOk(nodeTypes, typeName, recs[0]) {
        var g1 := NodeStep(g, nodeTypes, typeName, recs[0]).value;
        assert g1.KeysOk();
        NodeRecordsOk(g1, nodeTypes, typeName, recs[1..]);
        forall i | 1 <= i < |recs| ensures recs[i] == recs[1..][i - 1] {}
      }
    }
  }

  /** The first record of a bucket that decodes, taken off on its own. */
  lemma NodeRecordsFirst(g: Graph, nodeTypes: map<string, seq<string>>, typeName: string, recs: seq<Record>) returns (g1: Graph)
    requires g.Valid() && |recs| > 0 && NodeRecords(g, nodeTypes, typeName, recs).Ok?
    ensures g1.Valid() && g1.directed == g.directed && g1.edgeAttrs == g.edgeAttrs
    ensures NodeRecords(g, nodeTypes, typeName, recs) == NodeRecords(g1, nodeTypes, typeName, recs[1..])
  {
    g1 := NodeStep(g, nodeTypes, typeName, recs[0]).value;
    NodeStepValid(g, nodeTypes, typeName, recs[0]);
  }

  lemma NodeStepValid(g: Graph, nodeTypes: map<string, seq<string>>, typeName: string, rec: Record)
    requires g.Valid() && NodeStep(g, nodeTypes, typeName, rec).Ok?
    ensures var g1 := NodeStep(g, nodeTypes, typeName, rec).value;
      g1.Valid() && g1.directed == g.directed && g1.edgeAttrs == g.edgeAttrs
  {
    AddNodeValid(g, rec[|rec| - 1], Zip(nodeTypes[typeName], rec));
  }

  lemma {:induction false} NodeRecordsShape(g: Graph, nodeTypes: map<string, seq<string>>, typeName: string, recs: seq<Record>)
    requires g.Valid() && NodeRecords(g, nodeTypes, typeName, recs).Ok?
    ensures var h := NodeRecords(g, nodeTypes, typeName, recs).value;
      h.Valid() && h.directed == g.directed && h.edgeAttrs == g.edgeAttrs
    decreases |recs|
  {
    if |recs| > 0 {
      var g1 := NodeRecordsFirst(g, nodeTypes, typeName, recs);
      NodeRecordsShape(g1, nodeTypes, typeName, recs[1..]);
    }
  }

  lemma {:induction false} NodeRecordsVertices(g: Graph, nodeTypes: map<string, seq<string>>, typeName: string, recs: seq<Record>)
    requires NodeRecords(g, nodeTypes, typeName, recs).Ok?
    ensures var h := NodeRecords(g, nodeTypes, typeName, recs).value;
      h.attrs.Keys == g.attrs.Keys + Ids(BucketEntries(TypeNames(nodeTypes, typeName), recs))
    decreases |recs|
  {
    if |recs| > 0 {
      var rec := recs[0];
      NodeRecordsVertices(NodeStep(g, nodeTypes, typeName, rec).value, nodeTypes, typeName, recs[1..]);
      var rest := BucketEntries(TypeNames(nodeTypes, typeName), recs[1..]);
      var es := BucketEntries(TypeNames(nodeTypes, typeName), recs);
      assert es == [(rec[|rec| - 1], Zip(TypeNames(nodeTypes, typeName), rec))] + rest;
      assert es[1..] == rest;
    }
  }

  lemma {:induction false} NodeRecordsAttrs(g: Graph, nodeTypes: map<string, seq<string>>, typeName: string, recs: seq<Record>)
    requires g.KeysOk() && NodeRecords(g, nodeTypes, typeName, recs).Ok?
    ensures var h := NodeRecords(g, nodeTypes, typeName, recs).value;
      forall x :: AttrsOf(h, x) == MergeNode(AttrsOf(g, x), BucketEntries(TypeNames(nodeTypes, typeName), recs), x)
    decreases |recs|
  {
    if |recs| > 0 {
      var rec := recs[0];
      var g1 := NodeStep(g, nodeTypes, typeName, rec).value;
      AddNodeAttrs(g, rec[|rec| - 1], Zip(nodeTypes[typeName], rec));
      NodeRecordsAttrs(g1, nodeTypes, typeName, recs[1..]);
    }
  }

  lemma {:induction false} IdsAppend(a: seq<(Value, Attrs)>, b: seq<(Value, Attrs)>)
    ensures Ids(a + b) == Ids(a) + Ids(b)
  {
    if |a| > 0 {
      IdsAppend(a[1..], b);
      assert (a + b)[0] == a[0];
      assert (a + b)[1..] == a[1..] + b;
    } else {
      assert a + b == b;
    }
  }

  lemma {:induction false} MergeNodeAppend(base: Attrs, a: seq<(Value, Attrs)>, b: seq<(Value, Attrs)>, id: Value)
    ensures MergeNode(base, a + b, id) == MergeNode(MergeNode(base, a, id), b, id)
    decreases |a|
  {
    if |a| > 0 {
      assert (a + b)[1..] == a[1..] + b;
      MergeNodeAppend(if a[0].0 == id then base + a[0].1 else base, a[1..], b, id);
    } else {
      assert a + b == b;
    }
  }

  lemma {:induction false} NodeBucketsOk(g: Graph, nodeTypes: map<string, seq<string>>, buckets: seq<(string, seq<Record>)>)
    requires g.KeysOk()
    ensures NodeBuckets(g, nodeTypes, buckets).Ok? <==>
      forall b, i :: 0 <= b < |buckets| && 0 <= i < |buckets[b].1| ==> NodeRecordOk(nodeTypes, buckets[b].0, buckets[b].1[i])
    decreases |buckets|
  {
    if |buckets| > 0 {
      var (name, recs) := buckets[0];
      NodeRecordsOk(g, nodeTypes, name, recs);
      if NodeRecords(g, nodeTypes, name, recs).Ok? {
        var g1 := NodeRecords(g, nodeTypes, name, recs).value;
        NodeRecordsKeys(g, nodeTypes, name, recs);
        NodeBucketsOk(g1, nodeTypes, buckets[1..]);
        forall b | 1 <= b < |buckets| ensures buckets[b] == buckets[1..][b - 1] {}
      } else {
        var i :| 0 <= i < |recs| && !NodeRecordOk(nodeTypes, name, recs[i]);
        assert buckets[0].1[i] == recs[i];
      }
    }
  }

  /** Node records never bring in `None` or a list as a vertex. */
  lemma {:induction false} NodeRecordsKeys(g: Graph, nodeTypes: map<string, seq<string>>, typeName: string, recs: seq<Record>)
    requires g.KeysOk() && NodeRecords(g, nodeTypes, typeName, recs).Ok?
    ensures NodeRecords(g, nodeTypes, typeName, recs).value.KeysOk()
    decreases |recs|
  {
    if |recs| > 0 {
      var g1 := NodeStep(g, nodeTypes, typeName, recs[0]).value;
      assert g1.KeysOk();
      NodeRecordsKeys(g1, nodeTypes, typeName, recs[1..]);
    }
  }

  /** The first bucket of a document that decodes, taken off on its own. */
  lemma NodeBucketsFirst(g: Graph, nodeTypes: map<string, seq<string>>, buckets: seq<(string, seq<Record>)>) returns (g1: Graph)
    requires g.Valid() && |buckets| > 0 && NodeBuckets(g, nodeTypes, buckets).Ok?
    ensures g1.Valid() && g1.directed == g.directed && g1.edgeAttrs == g.edgeAttrs
    ensures g1.attrs.Keys == g.attrs.Keys + Ids(BucketEntries(TypeNames(nodeTypes, buckets[0].0), buckets[0].1))
    ensures NodeBuckets(g, nodeTypes, buckets) == NodeBuckets(g1, nodeTypes, buckets[1..])
  {
    g1 := NodeRecords(g, nodeTypes, buckets[0].0, buckets[0].1).value;
    NodeRecordsShape(g, nodeTypes, buckets[0].0, buckets[0].1);
    NodeRecordsVertices(g, nodeTypes, buckets[0].0, buckets[0].1);
  }

  lemma {:induction false} NodeBucketsShape(g: Graph, nodeTypes: map<string, seq<string>>, buckets: seq<(string, seq<Record>)>)
    requires g.Valid() && NodeBuckets(g, nodeTypes, buckets).Ok?
    ensures var h := NodeBuckets(g, nodeTypes, buckets).value;
      && h.Valid() && h.directed == g.directed && h.edgeAttrs == g.edgeAttrs
      && h.attrs.Keys == g.attrs.Keys + Ids(NodeEntries(nodeTypes, buckets))
    decreases |buckets|
  {
    if |buckets| > 0 {
      var g1 := NodeBucketsFirst(g, nodeTypes, buckets);
      NodeBucketsShape(g1, nodeTypes, buckets[1..]);
      IdsAppend(BucketEntries(TypeNames(nodeTypes, buckets[0].0), buckets[0].1), NodeEntries(nodeTypes, buckets[1..]));
    }
  }

  lemma {:induction false} NodeBucketsAttrs(g: Graph, nodeTypes: map<string, seq<string>>, buckets: seq<(string, seq<Record>)>)
    requires g.KeysOk() && NodeBuckets(g, nodeTypes, buckets).Ok?
    ensures var h := NodeBuckets(g, nodeTypes, buckets).value;
      forall x :: AttrsOf(h, x) == MergeNode(AttrsOf(g, x), NodeEntries(nodeTypes, buckets), x)
    decreases |buckets|
  {
    if |buckets| > 0 {
      var (name, recs) := buckets[0];
      var g1 := NodeRecords(g, nodeTypes, name, recs).value;
      NodeRecordsAttrs(g, nodeTypes, name, recs);
      NodeRecordsKeys(g, nodeTypes, name, recs);
      NodeBucketsAttrs(g1, nodeTypes, buckets[1..]);
      var e1 := BucketEntries(TypeNames(nodeTypes, name), recs);
      var e2 := NodeEntries(nodeTypes, buckets[1..]);
      forall x ensures MergeNode(AttrsOf(g, x), e1 + e2, x) == MergeNode(MergeNode(AttrsOf(g, x), e1, x), e2, x) {
        MergeNodeAppend(AttrsOf(g, x), e1, e2, x);
      }
    }
  }

  /** The first relationship record, taken off on its own: one `add_edge`
      with the entry the record asks for, seen from its vertices. */
  lemma EdgeRecordsFirst(g: Graph, relTypes: map<string, seq<string>>, recs: seq<Record>) returns (g1: Graph)
    requires g.KeysOk() && |recs| > 0 && EdgeStep(g, relTypes, recs[0]).Ok?
    ensures EdgeRecordOk(relTypes, recs[0])
    ensures var e := EdgeEntry(relTypes, recs[0]);
      && g1.KeysOk() && g1.directed == g.directed
      && g1.attrs.Keys == g.attrs.Keys + {e.0, e.1}
      && (forall x :: x in g.attrs ==> g1.attrs[x] == g.attrs[x])
      && (forall x :: x in g1.attrs && x !in g.attrs ==> g1.attrs[x] == map[])
    ensures EdgeRecords(g, relTypes, recs) == EdgeRecords(g1, relTypes, recs[1..])
    ensures var e := EdgeEntry(relTypes, recs[0]);
      Ends(EdgeEntries(relTypes, recs)) == {e.0, e.1} + Ends(EdgeEntries(relTypes, recs[1..]))
  {
    EdgeStepSpec(g, relTypes, recs[0]);
    var e := EdgeEntry(relTypes, recs[0]);
    g1 := g.AddEdge(e.0, e.1, e.2).value;
    AddEdgeVertices(g, e.0, e.1, e.2);
    assert EdgeEntries(relTypes, recs) == [e] + EdgeEntries(relTypes, recs[1..]);
    assert ([e] + EdgeEntries(relTypes, recs[1..]))[1..] == EdgeEntries(relTypes, recs[1..]);
  }

  /** The first relationship record, seen from the edges. */
  lemma EdgeRecordsFirstEdges(g: Graph, relTypes: map<string, seq<string>>, recs: seq<Record>) returns (g1: Graph)
    requires g.Valid() && |recs| > 0 && EdgeStep(g, relTypes, recs[0]).Ok?
    ensures var e := EdgeEntry(relTypes, recs[0]);
      && EdgeRecordOk(relTypes, recs[0])
      && g1.Valid() && g1.directed == g.directed
      && (forall x, w :: (x, w) in g1.edgeAttrs <==> (x, w) in g.edgeAttrs || SamePair(g.directed, x, w, e.0, e.1))
      && (forall x, w :: EdgeBase(g1, x, w) == if SamePair(g.directed, x, w, e.0, e.1) then EdgeBase(g, x, w) + e.2 else EdgeBase(g, x, w))
    ensures EdgeRecords(g, relTypes, recs) == EdgeRecords(g1, relTypes, recs[1..])
    ensures EdgeEntries(relTypes, recs) == [EdgeEntry(relTypes, recs[0])] + EdgeEntries(relTypes, recs[1..])
  {
    EdgeStepSpec(g, relTypes, recs[0]);
    var e := EdgeEntry(relTypes, recs[0]);
    g1 := g.AddEdge(e.0, e.1, e.2).value;
    AddEdgeValid(g, e.0, e.1, e.2);
    AddEdgeMerges(g, e.0, e.1, e.2);
    AddEdgeBase(g, e.0, e.1, e.2);
  }

  lemma {:induction false} EdgeRecordsOk(g: Graph, relTypes: map<string, seq<string>>, recs: seq<Record>)
    requires g.Valid()
    ensures EdgeRecords(g, relTypes, recs).Ok? <==> forall k :: 0 <= k < |recs| ==> EdgeRecordOk(relTypes, recs[k])
    decreases |recs|
  {
    if |recs| > 0 {
      EdgeStepSpec(g, relTypes, recs[0]);
      if EdgeRecordOk(relTypes, recs[0]) {
        var g1 := EdgeRecordsFirstEdges(g, relTypes, recs);
        EdgeRecordsOk(g1, relTypes, recs[1..]);
        forall k | 1 <= k < |recs| ensures recs[k] == recs[1..][k - 1] {}
      }
    }
  }

  lemma EdgeStepValid(g: Graph, relTypes: map<string, seq<string>>, rec: Record)
    requires g.Valid() && EdgeStep(g, relTypes, rec).Ok?
    ensures EdgeStep(g, relTypes, rec).value.Valid()
  {
    EdgeStepSpec(g, relTypes, rec);
    var e := EdgeEntry(relTypes, rec);
    AddEdgeValid(g, e.0, e.1, e.2);
  }

  lemma {:induction false} EdgeRecordsValid(g: Graph, relTypes: map<string, seq<string>>, recs: seq<Record>, h: Graph)
    requires g.Valid() && EdgeRecords(g, relTypes, recs) == Ok(h)
    ensures h.Valid()
    decreases |recs|
  {
    if |recs| > 0 {
      EdgeStepValid(g, relTypes, recs[0]);
      EdgeRecordsValid(EdgeStep(g, relTypes, recs[0]).value, relTypes, recs[1..], h);
    }
  }

  lemma {:induction false} EdgeRecordsShape(g: Graph, relTypes: map<string, seq<string>>, recs: seq<Record>, h: Graph)
    requires g.KeysOk() && EdgeRecords(g, relTypes, recs) == Ok(h)
    ensures h.directed == g.directed
    ensures h.attrs.Keys == g.attrs.Keys + Ends(EdgeEntries(relTypes, recs))
    ensures forall x :: x in g.attrs ==> h.attrs[x] == g.attrs[x]
    ensures forall x :: x in h.attrs && x !in g.attrs ==> h.attrs[x] == map[]
    decreases |recs|
  {
    if |recs| > 0 {
      var g1 := EdgeRecordsFirst(g, relTypes, recs);
      EdgeRecordsShape(g1, relTypes, recs[1..], h);
    }
  }

  lemma {:induction false} EdgeRecordsEdges(g: Graph, relTypes: map<string, seq<string>>, recs: seq<Record>)
    requires g.Valid() && EdgeRecords(g, relTypes, recs).Ok?
    ensures var h := EdgeRecords(g, relTypes, recs).value;
      var es := EdgeEntries(relTypes, recs);
      && (forall x, w :: (x, w) in h.edgeAttrs <==> (x, w) in g.edgeAttrs || Touched(es, g.directed, x, w))
      && (forall x, w :: EdgeBase(h, x, w) == MergeEdge(EdgeBase(g, x, w), es, g.directed, x, w))
    decreases |recs|
  {
    if |recs| > 0 {
      var g1 := EdgeRecordsFirstEdges(g, relTypes, recs);
      EdgeRecordsEdges(g1, relTypes, recs[1..]);
    }
  }

  // ---------------------------------------------------------------------
  // The decoded graph, by the records alone
  // ---------------------------------------------------------------------

  /** Every node record of the document decodes. */
  ghost predicate NodesOk(doc: Document)
  {
    forall b, i :: 0 <= b < |doc.nodeValues| && 0 <= i < |doc.nodeValues[b].1| ==>
      NodeRecordOk(doc.nodeTypes, doc.nodeValues[b].0, doc.nodeValues[b].1[i])
  }

  /** Every relationship record of the document decodes. */
  ghost predicate EdgesOk(doc: Document)
  {
    forall k :: 0 <= k < |doc.relValues| ==> EdgeRecordOk(doc.relTypes, doc.relValues[k])
  }

  /** Decoding succeeds exactly when every record decodes; the result is then
      a well-formed graph, directed as the document says, whose vertices are
      the node identifiers and the edge endpoints, whose vertex attributes
      are the merge of that identifier's node records (none for a vertex only
      an edge names), and whose edges and edge attributes are the merge of
      the relationship records on that pair. */
  lemma DecodeSpec(doc: Document)
    ensures Decode(doc).Ok? <==> NodesOk(doc) && EdgesOk(doc)
    ensures Decode(doc).Ok? ==>
      var g := Decode(doc).value;
      var ns := NodeEntries(doc.nodeTypes, doc.nodeValues);
      var es := EdgeEntries(doc.relTypes, doc.relValues);
      && g.Valid()
      && g.directed == doc.directed
      && g.attrs.Keys == Ids(ns) + Ends(es)
      && (forall x :: x in g.attrs ==> g.attrs[x] == MergeNode(map[], ns, x))
      && (forall x, w :: (x, w) in g.edgeAttrs <==> Touched(es, doc.directed, x, w))
      && (forall x, w :: (x, w) in g.edgeAttrs ==> g.edgeAttrs[(x, w)] == MergeEdge(map[], es, doc.directed, x, w))
  {
    var g0 := Empty(doc.directed);
    assert doc.nodeValues[0..] == doc.nodeValues;
    NodeBucketsOk(g0, doc.nodeTypes, doc.nodeValues);
    if NodeBuckets(g0, doc.nodeTypes, doc.nodeValues).Ok? {
      var g1 := NodeBuckets(g0, doc.nodeTypes, doc.nodeValues).value;
      NodeBucketsShape(g0, doc.nodeTypes, doc.nodeValues);
      NodeBucketsAttrs(g0, doc.nodeTypes, doc.nodeValues);
      EdgeRecordsOk(g1, doc.relTypes, doc.relValues);
      if Decode(doc).Ok? {
        EdgeRecordsShape(g1, doc.relTypes, doc.relValues, Decode(doc).value);
        EdgeRecordsValid(g1, doc.relTypes, doc.relValues, Decode(doc).value);
        EdgeRecordsEdges(g1, doc.relTypes, doc.relValues);
        DecodeContents(g1, Decode(doc).value, NodeEntries(doc.nodeTypes, doc.nodeValues), EdgeEntries(doc.relTypes, doc.relValues));
      }
    }
  }

  /** The node phase and the relationship phase put together. */
  lemma DecodeContents(g1: Graph, g: Graph, ns: seq<(Value, Attrs)>, es: seq<(Value, Value, Attrs)>)
    requires g1.edgeAttrs == map[] && g1.attrs.Keys == Ids(ns)
    requires forall x :: AttrsOf(g1, x) == MergeNode(AttrsOf(Empty(g1.directed), x), ns, x)
    requires g1.attrs.Keys <= g.attrs.Keys
    requires forall x :: x in g1.attrs ==> g.attrs[x] == g1.attrs[x]
    requires forall x :: x in g.attrs && x !in g1.attrs ==> g.attrs[x] == map[]
    requires forall x, w :: (x, w) in g.edgeAttrs <==> (x, w) in g1.edgeAttrs || Touched(es, g1.directed, x, w)
    requires forall x, w :: EdgeBase(g, x, w) == MergeEdge(EdgeBase(g1, x, w), es, g1.directed, x, w)
    ensures forall x :: x in g.attrs ==> g.attrs[x] == MergeNode(map[], ns, x)
    ensures forall x, w :: (x, w) in g.edgeAttrs <==> Touched(es, g1.directed, x, w)
    ensures forall x, w :: (x, w) in g.edgeAttrs ==> g.edgeAttrs[(x, w)] == MergeEdge(map[], es, g1.directed, x, w)
  {
    forall x | x in g.attrs ensures g.attrs[x] == MergeNode(map[], ns, x) {
      assert AttrsOf(g1, x) == MergeNode(AttrsOf(Empty(g1.directed), x), ns, x);
      if x !in g1.attrs {
        IdsSpec(ns);
        MergeNodeAbsent(map[], ns, x);
      }
    }
    forall x, w | (x, w) in g.edgeAttrs
      ensures g.edgeAttrs[(x, w)] == MergeEdge(map[], es, g1.directed, x, w)
    {
      assert EdgeBase(g, x, w) == g.edgeAttrs[(x, w)];
    }
  }


  // ---------------------------------------------------------------------
  // Merging: later writes win, other keys are kept
  // ---------------------------------------------------------------------

  /** After merging, a key holds the value of the last entry for `id` that
      writes it. */
  lemma {:induction false} MergeNodeLater(base: Attrs, es: seq<(Value, Attrs)>, id: Value, j: nat, key: string)
    requires j < |es| && es[j].0 == id && key in es[j].1
    requires forall j' :: j < j' < |es| && es[j'].0 == id ==> key !in es[j'].1
    ensures key in MergeNode(base, es, id) && MergeNode(base, es, id)[key] == es[j].1[key]
    decreases |es|
  {
    var base' := if es[0].0 == id then base + es[0].1 else base;
    if j == 0 {
      MergeNodeKeeps(base', es[1..], id, key);
    } else {
      MergeNodeLater(base', es[1..], id, j - 1, key);
    }
  }

  /** A key no entry for `id` writes keeps its value from `base`. */
  lemma {:induction false} MergeNodeKeeps(base: Attrs, es: seq<(Value, Attrs)>, id: Value, key: string)
    requires key in base
    requires forall j :: 0 <= j < |es| && es[j].0 == id ==> key !in es[j].1
    ensures key in MergeNode(base, es, id) && MergeNode(base, es, id)[key] == base[key]
    decreases |es|
  {
    if |es| > 0 {
      var base' := if es[0].0 == id then base + es[0].1 else base;
      MergeNodeKeeps(base', es[1..], id, key);
    }
  }

  /** The merged attributes hold exactly the keys of `base` and of the
      entries for `id`. */
  lemma {:induction false} MergeNodeKeys(base: Attrs, es: seq<(Value, Attrs)>, id: Value)
    ensures forall key :: key in MergeNode(base, es, id) <==>
      key in base || exists j :: 0 <= j < |es| && es[j].0 == id && key in es[j].1
    decreases |es|
  {
    if |es| > 0 {
      var base' := if es[0].0 == id then base + es[0].1 else base;
      MergeNodeKeys(base', es[1..], id);
      forall key | exists j :: 0 <= j < |es| && es[j].0 == id && key in es[j].1
        ensures key in MergeNode(base, es, id)
      {
        var j :| 0 <= j < |es| && es[j].0 == id && key in es[j].1;
        if j > 0 {
          assert es[1..][j - 1] == es[j];
        }
      }
    }
  }

  /** An identifier with a single node entry carries exactly that entry's
      attributes on top of `base`. */
  lemma {:induction false} MergeNodeSingle(base: Attrs, es: seq<(Value, Attrs)>, id: Value, j: nat)
    requires j < |es| && es[j].0 == id
    requires forall j' :: 0 <= j' < |es| && j' != j ==> es[j'].0 != id
    ensures MergeNode(base, es, id) == base + es[j].1
    decreases |es|
  {
    if j == 0 {
      MergeNodeAbsent(base + es[0].1, es[1..], id);
    } else {
      MergeNodeSingle(base, es[1..], id, j - 1);
    }
  }

  lemma {:induction false} MergeNodeAbsent(base: Attrs, es: seq<(Value, Attrs)>, id: Value)
    requires forall j :: 0 <= j < |es| ==> es[j].0 != id
    ensures MergeNode(base, es, id) == base
    decreases |es|
  {
    if |es| > 0 {
      MergeNodeAbsent(base, es[1..], id);
    }
  }

  /** After merging, a key of an edge holds the value of the last entry on
      that pair that writes it. */
  lemma {:induction false} MergeEdgeLater(base: Attrs, es: seq<(Value, Value, Attrs)>, directed: bool, x: Value, w: Value, j: nat, key: string)
    requires j < |es| && SamePair(directed, x, w, es[j].0, es[j].1) && key in es[j].2
    requires forall j' :: j < j' < |es| && SamePair(directed, x, w, es[j'].0, es[j'].1) ==> key !in es[j'].2
    ensures key in MergeEdge(base, es, directed, x, w) && MergeEdge(base, es, directed, x, w)[key] == es[j].2[key]
    decreases |es|
  {
    var base' := if SamePair(directed, x, w, es[0].0, es[0].1) then base + es[0].2 else base;
    if j == 0 {
      MergeEdgeKeeps(base', es[1..], directed, x, w, key);
    } else {
      MergeEdgeLater(base', es[1..], directed, x, w, j - 1, key);
    }
  }

  lemma {:induction false} MergeEdgeKeeps(base: Attrs, es: seq<(Value, Value, Attrs)>, directed: bool, x: Value, w: Value, key: string)
    requires key in base
    requires forall j :: 0 <= j < |es| && SamePair(directed, x, w, es[j].0, es[j].1) ==> key !in es[j].2
    ensures key in MergeEdge(base, es, directed, x, w) && MergeEdge(base, es, directed, x, w)[key] == base[key]
    decreases |es|
  {
    if |es| > 0 {
      var base' := if SamePair(directed, x, w, es[0].0, es[0].1) then base + es[0].2 else base;
      MergeEdgeKeeps(base', es[1..], directed, x, w, key);
    }
  }

  // ---------------------------------------------------------------------
  // Every record is accounted for
  // ---------------------------------------------------------------------

  lemma {:induction false} IdsSpec(es: seq<(Value, Attrs)>)
    ensures forall x :: x in Ids(es) <==> exists j :: 0 <= j < |es| && es[j].0 == x
    decreases |es|
  {
    if |es| > 0 {
      IdsSpec(es[1..]);
      forall x | exists j :: 0 <= j < |es| && es[j].0 == x
        ensures x in Ids(es)
      {
        var j :| 0 <= j < |es| && es[j].0 == x;
        if j > 0 {
          assert es[1..][j - 1] == es[j];
        }
      }
    }
  }

  lemma {:induction false} TouchedSpec(es: seq<(Value, Value, Attrs)>, directed: bool, x: Value, w: Value)
    ensures Touched(es, directed, x, w) <==> exists j :: 0 <= j < |es| && SamePair(directed, x, w, es[j].0, es[j].1)
    decreases |es|
  {
    if |es| > 0 {
      TouchedSpec(es[1..], directed, x, w);
      if exists j :: 0 <= j < |es| && SamePair(directed, x, w, es[j].0, es[j].1) {
        var j :| 0 <= j < |es| && SamePair(directed, x, w, es[j].0, es[j].1);
        if j > 0 {
          assert es[1..][j - 1] == es[j];
        }
      }
    }
  }

  lemma {:induction false} BucketEntriesHas(names: seq<string>, recs: seq<Record>, i: nat)
    requires i < |recs| && |recs[i]| > 0
    ensures (recs[i][|recs[i]| - 1], Zip(names, recs[i])) in BucketEntries(names, recs)
    decreases |recs|
  {
    if i > 0 {
      BucketEntriesHas(names, recs[1..], i - 1);
    }
  }

  lemma {:induction false} NodeEntriesHas(nodeTypes: map<string, seq<string>>, buckets: seq<(string, seq<Record>)>, b: nat, i: nat)
    requires b < |buckets| && i < |buckets[b].1| && |buckets[b].1[i]| > 0
    ensures var rec := buckets[b].1[i];
      (rec[|rec| - 1], Zip(TypeNames(nodeTypes, buckets[b].0), rec)) in NodeEntries(nodeTypes, buckets)
    decreases |buckets|
  {
    if b == 0 {
      BucketEntriesHas(TypeNames(nodeTypes, buckets[0].0), buckets[0].1, i);
    } else {
      NodeEntriesHas(nodeTypes, buckets[1..], b - 1, i);
    }
  }

  lemma {:induction false} EdgeEntriesHas(relTypes: map<string, seq<string>>, recs: seq<Record>, k: nat)
    requires k < |recs| && EdgeShapeOk(relTypes, recs[k])
    ensures EdgeEntry(relTypes, recs[k]) in EdgeEntries(relTypes, recs)
    decreases |recs|
  {
    if k > 0 {
      EdgeEntriesHas(relTypes, recs[1..], k - 1);
    }
  }

  /** A known relationship record's attributes zip its type's names with
      its values up to the two endpoints, position 0 (the type name)
      included. */
  lemma EdgeEntryAttrs(relTypes: map<string, seq<string>>, rec: Record, k: nat)
    requires EdgeShapeOk(relTypes, rec) && Known(relTypes, rec)
    requires LastAt(relTypes[rec[0].s], k, |rec| - 2)
    ensures var e := EdgeEntry(relTypes, rec);
      && e.0 == rec[|rec| - 2] && e.1 == rec[|rec| - 1]
      && relTypes[rec[0].s][k] in e.2 && e.2[relTypes[rec[0].s][k]] == rec[k]
  {
    ZipUpToValues(relTypes[rec[0].s], rec, |rec| - 2);
  }

  /** Every node record of a document that decodes yields a vertex keyed by
      its last value. */
  lemma DecodeNodeRecord(doc: Document, b: nat, i: nat)
    requires Decode(doc).Ok? && b < |doc.nodeValues| && i < |doc.nodeValues[b].1|
    ensures var rec := doc.nodeValues[b].1[i];
      |rec| > 0 && Decode(doc).value.HasNode(rec[|rec| - 1])
  {
    DecodeSpec(doc);
    var rec := doc.nodeValues[b].1[i];
    var ns := NodeEntries(doc.nodeTypes, doc.nodeValues);
    NodeEntriesHas(doc.nodeTypes, doc.nodeValues, b, i);
    IdsSpec(ns);
    var j :| 0 <= j < |ns| && ns[j] == (rec[|rec| - 1], Zip(TypeNames(doc.nodeTypes, doc.nodeValues[b].0), rec));
  }

  /** A vertex declared by exactly one node entry carries exactly that
      record's fields: `names[k]` is `rec[k]` for every position below both
      lengths whose name is not repeated later, and no other key. */
  lemma DecodeSingleNode(doc: Document, j: nat)
    requires Decode(doc).Ok?
    requires var ns := NodeEntries(doc.nodeTypes, doc.nodeValues);
      j < |ns| && forall j' :: 0 <= j' < |ns| && j' != j ==> ns[j'].0 != ns[j].0
    ensures var ns := NodeEntries(doc.nodeTypes, doc.nodeValues);
      var g := Decode(doc).value;
      ns[j].0 in g.attrs && g.attrs[ns[j].0] == ns[j].1
  {
    DecodeSpec(doc);
    var ns := NodeEntries(doc.nodeTypes, doc.nodeValues);
    IdsSpec(ns);
    MergeNodeSingle(map[], ns, ns[j].0, j);
    assert map[] + ns[j].1 == ns[j].1;
  }

  /** Every relationship record of a document that decodes yields its edge:
      the last two values for a known type, the first two otherwise, and
      both endpoints are vertices. */
  lemma DecodeEdgeRecord(doc: Document, k: nat)
    requires Decode(doc).Ok? && k < |doc.relValues|
    ensures var rec := doc.relValues[k];
      var g := Decode(doc).value;
      && |rec| >= 2
      && (Known(doc.relTypes, rec) ==>
            && |doc.relTypes[rec[0].s]| >= |rec| - 2
            && g.HasEdge(rec[|rec| - 2], rec[|rec| - 1]))
      && (!Known(doc.relTypes, rec) ==> g.HasEdge(rec[0], rec[1]) && g.HasNode(rec[0]))
  {
    DecodeSpec(doc);
    var rec := doc.relValues[k];
    var es := EdgeEntries(doc.relTypes, doc.relValues);
    var e := EdgeEntry(doc.relTypes, rec);
    EdgeEntriesHas(doc.relTypes, doc.relValues, k);
    var j :| 0 <= j < |es| && es[j] == e;
    TouchedSpec(es, doc.directed, e.0, e.1);
    EndsHas(es, j);
  }

  lemma {:induction false} EndsHas(es: seq<(Value, Value, Attrs)>, j: nat)
    requires j < |es|
    ensures es[j].0 in Ends(es) && es[j].1 in Ends(es)
    decreases |es|
  {
    if j > 0 {
      EndsHas(es[1..], j - 1);
    }
  }

  /** When every relationship record is readable, there is one entry per
      record, in record order. */
  lemma {:induction false} EdgeEntriesAll(relTypes: map<string, seq<string>>, recs: seq<Record>)
    requires forall k :: 0 <= k < |recs| ==> EdgeShapeOk(relTypes, recs[k])
    ensures |EdgeEntries(relTypes, recs)| == |recs|
    ensures forall k :: 0 <= k < |recs| ==> EdgeEntries(relTypes, recs)[k] == EdgeEntry(relTypes, recs[k])
    decreases |recs|
  {
    if |recs| > 0 {
      EdgeEntriesAll(relTypes, recs[1..]);
    }
  }

  /** Every entry of a bucket comes from one of its non-empty records. */
  lemma {:induction false} BucketEntriesFrom(names: seq<string>, recs: seq<Record>)
    ensures forall e :: e in BucketEntries(names, recs) ==>
      exists i :: 0 <= i < |recs| && |recs[i]| > 0 && e == (recs[i][|recs[i]| - 1], Zip(names, recs[i]))
    decreases |recs|
  {
    if |recs| > 0 {
      BucketEntriesFrom(names, recs[1..]);
      forall e | e in BucketEntries(names, recs)
        ensures exists i :: 0 <= i < |recs| && |recs[i]| > 0 && e == (recs[i][|recs[i]| - 1], Zip(names, recs[i]))
      {
        if e in BucketEntries(names, recs[1..]) {
          var i :| 0 <= i < |recs[1..]| && |recs[1..][i]| > 0 && e == (recs[1..][i][|recs[1..][i]| - 1], Zip(names, recs[1..][i]));
          assert recs[1..][i] == recs[i + 1];
        }
      }
    }
  }

  /** Entry `e` is the one record `i` of bucket `b` yields. */
  predicate FromRecord(nodeTypes: map<string, seq<string>>, buckets: seq<(string, seq<Record>)>, b: int, i: int, e: (Value, Attrs))
  {
    && 0 <= b < |buckets| && 0 <= i < |buckets[b].1| && |buckets[b].1[i]| > 0
    && e == (buckets[b].1[i][|buckets[b].1[i]| - 1], Zip(TypeNames(nodeTypes, buckets[b].0), buckets[b].1[i]))
  }

  /** Every node entry comes from a non-empty record of some bucket. */
  lemma {:induction false} NodeEntriesFrom(nodeTypes: map<string, seq<string>>, buckets: seq<(string, seq<Record>)>)
    ensures forall e :: e in NodeEntries(nodeTypes, buckets) ==> exists b, i :: FromRecord(nodeTypes, buckets, b, i, e)
    decreases |buckets|
  {
    if |buckets| > 0 {
      NodeEntriesFrom(nodeTypes, buckets[1..]);
      BucketEntriesFrom(TypeNames(nodeTypes, buckets[0].0), buckets[0].1);
      forall e | e in NodeEntries(nodeTypes, buckets)
        ensures exists b, i :: FromRecord(nodeTypes, buckets, b, i, e)
      {
        if e !in BucketEntries(TypeNames(nodeTypes, buckets[0].0), buckets[0].1) {
          assert e in NodeEntries(nodeTypes, buckets[1..]);
          var b, i :| FromRecord(nodeTypes, buckets[1..], b, i, e);
          assert buckets[1..][b] == buckets[b + 1];
          assert FromRecord(nodeTypes, buckets, b + 1, i, e);
        } else {
          var i :| 0 <= i < |buckets[0].1| && |buckets[0].1[i]| > 0 &&
            e == (buckets[0].1[i][|buckets[0].1[i]| - 1], Zip(TypeNames(nodeTypes, buckets[0].0), buckets[0].1[i]));
          assert FromRecord(nodeTypes, buckets, 0, i, e);
        }
      }
    }
  }

  /** Entries for `id` that all carry the same attributes merge to those
      attributes on top of `base`, however many there are. */
  lemma {:induction false} MergeNodeSame(base: Attrs, es: seq<(Value, Attrs)>, id: Value, a: Attrs)
    requires forall j :: 0 <= j < |es| && es[j].0 == id ==> es[j].1 == a
    ensures MergeNode(base + a, es, id) == base + a
    ensures (exists j :: 0 <= j < |es| && es[j].0 == id) ==> MergeNode(base, es, id) == base + a
    decreases |es|
  {
    if |es| > 0 {
      MergeNodeSame(base, es[1..], id, a);
      if es[0].0 == id {
        assert base + a + a == base + a;
      } else if exists j :: 0 <= j < |es| && es[j].0 == id {
        var j :| 0 <= j < |es| && es[j].0 == id;
        assert es[1..][j - 1] == es[j];
      }
    }
  }

  /** A record whose last value ends no other node record. */
  ghost predicate SoleRecord(doc: Document, b: nat, i: nat)
  {
    && b < |doc.nodeValues| && i < |doc.nodeValues[b].1| && |doc.nodeValues[b].1[i]| > 0
    && var rec := doc.nodeValues[b].1[i];
    && forall b', i' ::
        (0 <= b' < |doc.nodeValues| && 0 <= i' < |doc.nodeValues[b'].1| && (b', i') != (b, i) && |doc.nodeValues[b'].1[i']| > 0) ==>
        doc.nodeValues[b'].1[i'][|doc.nodeValues[b'].1[i']| - 1] != rec[|rec| - 1]
  }

  /** The node entries for the identifier of a sole record are that
      record's entry. */
  lemma SoleEntries(doc: Document, b: nat, i: nat)
    requires SoleRecord(doc, b, i)
    ensures var rec := doc.nodeValues[b].1[i];
      var ns := NodeEntries(doc.nodeTypes, doc.nodeValues);
      && (forall j :: 0 <= j < |ns| && ns[j].0 == rec[|rec| - 1] ==> ns[j].1 == Zip(TypeNames(doc.nodeTypes, doc.nodeValues[b].0), rec))
      && (exists j :: 0 <= j < |ns| && ns[j].0 == rec[|rec| - 1])
  {
    var rec := doc.nodeValues[b].1[i];
    var ns := NodeEntries(doc.nodeTypes, doc.nodeValues);
    NodeEntriesHas(doc.nodeTypes, doc.nodeValues, b, i);
    NodeEntriesFrom(doc.nodeTypes, doc.nodeValues);
    forall j | 0 <= j < |ns| && ns[j].0 == rec[|rec| - 1]
      ensures ns[j].1 == Zip(TypeNames(doc.nodeTypes, doc.nodeValues[b].0), rec)
    {
      assert ns[j] in ns;
      var b', i' :| FromRecord(doc.nodeTypes, doc.nodeValues, b', i', ns[j]);
    }
  }

  /** A vertex whose identifier ends exactly one node record of a document
      that decodes carries that record's fields zipped with its type's field
      names; relationship records add no vertex attributes. */
  lemma DecodeUniqueNode(doc: Document, b: nat, i: nat)
    requires Decode(doc).Ok? && SoleRecord(doc, b, i)
    ensures var rec := doc.nodeValues[b].1[i];
      && Decode(doc).value.HasNode(rec[|rec| - 1])
      && Decode(doc).value.attrs[rec[|rec| - 1]] == Zip(TypeNames(doc.nodeTypes, doc.nodeValues[b].0), rec)
  {
    var rec := doc.nodeValues[b].1[i];
    var a := Zip(TypeNames(doc.nodeTypes, doc.nodeValues[b].0), rec);
    DecodeNodeRecord(doc, b, i);
    SoleEntries(doc, b, i);
    DecodeSpec(doc);
    MergeNodeSame(map[], NodeEntries(doc.nodeTypes, doc.nodeValues), rec[|rec| - 1], a);
    assert map[] + a == a;
  }

  /** A node type declaring a field `self`: `add_node` is handed that name
      twice, so decoding raises TypeError although the record is otherwise
      well formed. */
  lemma ReservedFieldRaises()
    ensures Decode(Document(true, map["Supplier" := ["self", "id"]], [("Supplier", [[Str("x"), Str("S1")]])], map[], [])) == Err(TypeError)
  {
    var doc := Document(true, map["Supplier" := ["self", "id"]], [("Supplier", [[Str("x"), Str("S1")]])], map[], []);
    var rec := doc.nodeValues[0].1[0];
    ZipUpToKeys(doc.nodeTypes["Supplier"], rec, 2);
    assert NodeStep(Empty(true), doc.nodeTypes, "Supplier", rec) == Err(TypeError);
    assert doc.nodeValues[0..] == doc.nodeValues;
    assert doc.nodeValues[0].1[1..] == [];
  }
}
