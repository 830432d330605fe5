/**
 * The supplier queries of pages/Type1.py, each written against the decoded
 * graph and (`_json`) against the raw document. pages/Supplier.py carries
 * the same reliability and supplied-part-type queries, line for line.
 */
module SupplierQueries {
  import opened Json
  import opened Graphs
  import opened Decoder
  import opened ProductOffering
  import opened Type2

  // ---------------------------------------------------------------------
  // supplier_reliability_costing_temporal
  // ---------------------------------------------------------------------

  /** `data.get("transportation_cost", 0)`. */
  function Cost(d: Attrs): Value
  {
    Get(d, "transportation_cost", Num(0.0))
  }

  /** `graph.nodes[u].get("reliability", 0)`. */
  function Reliability(a: Attrs): Value
  {
    Get(a, "reliability", Num(0.0))
  }

  /** A SupplierToWarehouse edge the query reports: its cost (0 when
      missing) is at least `costMin` and its source's reliability (0 when
      missing) is at most `relMax`. The cost bound is a lower bound, whatever
      the parameter's name says. */
  predicate Qualifies(g: Graph, u: Value, v: Value, relMax: real, costMin: real)
  {
    var d := EdgeBase(g, u, v);
    && Get(d, "relationship_type", Null) == Str(SupplierToWarehouse)
    && Cost(d).Num? && Cost(d).n >= costMin
    && Reliability(AttrsOf(g, u)).Num? && Reliability(AttrsOf(g, u)).n <= relMax
  }

  /** What the loop body does with one edge. Comparing a non-number raises
      TypeError: a cost that is not a number, or a reliability that is not a
      number once the cost has passed. */
  function EdgeRow(g: Graph, e: (Value, Value), relMax: real, costMin: real): (r: Result<Option<Row>>)
    ensures var d := EdgeBase(g, e.0, e.1);
      r.Err? <==> (Get(d, "relationship_type", Null) == Str(SupplierToWarehouse) &&
        (!Cost(d).Num? || (Cost(d).n >= costMin && !Reliability(AttrsOf(g, e.0)).Num?)))
    ensures r.Err? ==> r.fault == TypeError
    ensures r.Ok? && r.value.Some? <==> Qualifies(g, e.0, e.1, relMax, costMin)
    ensures r.Ok? && r.value.Some? ==>
      r.value.value == (e.0, Reliability(AttrsOf(g, e.0)), Cost(EdgeBase(g, e.0, e.1)))
  {
    var d := EdgeBase(g, e.0, e.1);
    if Get(d, "relationship_type", Null) != Str(SupplierToWarehouse) then Ok(None)
    else match AtLeast(Cost(d), costMin)
      case Err(f) => Err(f)
      case Ok(high) =>
        if !high then Ok(None)
        else match AtMost(Reliability(AttrsOf(g, e.0)), relMax)
          case Err(f) => Err(f)
          case Ok(low) => if low then Ok(Some((e.0, Reliability(AttrsOf(g, e.0)), Cost(d)))) else Ok(None)
  }

  /** `rows` followed by the rows of the edges `es`, stopping at the first
      exception. */
  function EdgeRows(rows: seq<Row>, g: Graph, es: seq<(Value, Value)>, relMax: real, costMin: real): Result<seq<Row>>
    decreases |es|
  {
    if |es| == 0 then Ok(rows)
    else match EdgeRow(g, es[0], relMax, costMin)
      case Err(f) => Err(f)
      case Ok(row) => EdgeRows(if row.Some? then rows + [row.value] else rows, g, es[1..], relMax, costMin)
  }

  /** `supplier_reliability_costing_temporal`: the edges in `G.edges()`
      order. */
  method ReliabilityCosting(g: Graph, relMax: real, costMin: real) returns (r: Result<seq<Row>>)
    ensures r == EdgeRows([], g, g.EdgeList(), relMax, costMin)
  {
    var es := g.EdgeList();
    var suppliers: seq<Row> := [];
    for i := 0 to |es|
      invariant EdgeRows(suppliers, g, es[i..], relMax, costMin) == EdgeRows([], g, es, relMax, costMin)
    {
      assert es[i..][1..] == es[i + 1..];
      var row := EdgeRow(g, es[i], relMax, costMin);
      if row.Err? {
        return Err(row.fault);
      }
      if row.value.Some? {
        suppliers := suppliers + [row.value.value];
      }
    }
    assert es[|es|..] == [];
    return Ok(suppliers);
  }

  /** The fold keeps the rows it starts from, adds at most one row per edge,
      fails exactly when some edge raises, and adds exactly the rows of the
      qualifying edges. */
  lemma {:induction false} EdgeRowsSpec(rows: seq<Row>, g: Graph, es: seq<(Value, Value)>, relMax: real, costMin: real)
    ensures var r := EdgeRows(rows, g, es, relMax, costMin);
      && (r.Ok? <==> forall i :: 0 <= i < |es| ==> EdgeRow(g, es[i], relMax, costMin).Ok?)
      && (r.Ok? ==> |rows| <= |r.value| <= |rows| + |es| && r.value[..|rows|] == rows)
      && (r.Ok? ==> forall row :: row in r.value <==> (row in rows ||
            exists i :: 0 <= i < |es| && Qualifies(g, es[i].0, es[i].1, relMax, costMin) &&
              row == (es[i].0, Reliability(AttrsOf(g, es[i].0)), Cost(EdgeBase(g, es[i].0, es[i].1)))))
    decreases |es|
  {
    if |es| > 0 {
      var first := EdgeRow(g, es[0], relMax, costMin);
      assert forall i :: 1 <= i < |es| ==> es[i] == es[1..][i - 1];
      if first.Ok? {
        var rows' := if first.value.Some? then rows + [first.value.value] else rows;
        EdgeRowsSpec(rows', g, es[1..], relMax, costMin);
        var r := EdgeRows(rows, g, es, relMax, costMin);
        if r.Ok? {
          assert r.value[..|rows'|] == rows';
          assert r.value[..|rows|] == rows'[..|rows|];
          forall row | row in r.value ensures row in rows ||
            exists i :: 0 <= i < |es| && Qualifies(g, es[i].0, es[i].1, relMax, costMin) &&
              row == (es[i].0, Reliability(AttrsOf(g, es[i].0)), Cost(EdgeBase(g, es[i].0, es[i].1)))
          {
            if row !in rows' {
              var i :| 0 <= i < |es[1..]| && Qualifies(g, es[1..][i].0, es[1..][i].1, relMax, costMin) &&
                row == (es[1..][i].0, Reliability(AttrsOf(g, es[1..][i].0)), Cost(EdgeBase(g, es[1..][i].0, es[1..][i].1)));
              assert es[1..][i] == es[i + 1];
            }
          }
          forall i | 0 <= i < |es| && Qualifies(g, es[i].0, es[i].1, relMax, costMin)
            ensures (es[i].0, Reliability(AttrsOf(g, es[i].0)), Cost(EdgeBase(g, es[i].0, es[i].1))) in r.value
          {
            if i > 0 {
              assert es[1..][i - 1] == es[i];
            }
          }
        }
      }
    }
  }

  /** Every reported row is a supplier with a qualifying SupplierToWarehouse
      edge, its reliability and that edge's cost; on a directed graph every
      qualifying edge is reported (one row per edge, so a supplier with two
      warehouses appears twice). */
  lemma ReliabilityCostingSpec(g: Graph, relMax: real, costMin: real)
    requires g.Valid()
    ensures var r := EdgeRows([], g, g.EdgeList(), relMax, costMin);
      && (r.Err? ==> r.fault == TypeError)
      && (r.Ok? ==> |r.value| <= |g.EdgeList()|)
      && (r.Ok? ==> forall row :: row in r.value ==> exists v ::
            && Linked(g, row.0, v, SupplierToWarehouse) && Qualifies(g, row.0, v, relMax, costMin)
            && row.1 == Reliability(AttrsOf(g, row.0)) && row.2 == Cost(g.edgeAttrs[(row.0, v)]))
      && (r.Ok? && g.directed ==> forall u, v :: g.HasEdge(u, v) && Qualifies(g, u, v, relMax, costMin) ==>
            (u, Reliability(AttrsOf(g, u)), Cost(g.edgeAttrs[(u, v)])) in r.value)
  {
    var es := g.EdgeList();
    EdgeRowsSpec([], g, es, relMax, costMin);
    EdgeListSpec(g);
    var r := EdgeRows([], g, es, relMax, costMin);
    if r.Err? {
      EdgeRowsFault([], g, es, relMax, costMin);
    }
    if r.Ok? {
      forall row | row in r.value ensures exists v ::
        && Linked(g, row.0, v, SupplierToWarehouse) && Qualifies(g, row.0, v, relMax, costMin)
        && row.1 == Reliability(AttrsOf(g, row.0)) && row.2 == Cost(g.edgeAttrs[(row.0, v)])
      {
        var i :| 0 <= i < |es| && Qualifies(g, es[i].0, es[i].1, relMax, costMin) &&
          row == (es[i].0, Reliability(AttrsOf(g, es[i].0)), Cost(EdgeBase(g, es[i].0, es[i].1)));
        assert es[i] in es;
        assert g.HasEdge(es[i].0, es[i].1);
      }
      if g.directed {
        ReliabilityCostingComplete(g, relMax, costMin);
      }
    }
  }

  /** On a directed graph every qualifying SupplierToWarehouse edge gives a
      row. */
  lemma ReliabilityCostingComplete(g: Graph, relMax: real, costMin: real)
    requires g.Valid() && g.directed
    ensures var r := EdgeRows([], g, g.EdgeList(), relMax, costMin);
      r.Ok? ==> forall u, v :: g.HasEdge(u, v) && Qualifies(g, u, v, relMax, costMin) ==>
        (u, Reliability(AttrsOf(g, u)), Cost(g.edgeAttrs[(u, v)])) in r.value
  {
    var es := g.EdgeList();
    EdgeRowsSpec([], g, es, relMax, costMin);
    EdgeListSpec(g);
    var r := EdgeRows([], g, es, relMax, costMin);
    if r.Ok? {
      forall u, v | g.HasEdge(u, v) && Qualifies(g, u, v, relMax, costMin)
        ensures (u, Reliability(AttrsOf(g, u)), Cost(g.edgeAttrs[(u, v)])) in r.value
      {
        var i :| 0 <= i < |es| && es[i] == (u, v);
      }
    }
  }

  /** The graph query raises nothing but TypeError. */
  lemma {:induction false} EdgeRowsFault(rows: seq<Row>, g: Graph, es: seq<(Value, Value)>, relMax: real, costMin: real)
    ensures EdgeRows(rows, g, es, relMax, costMin).Err? ==> EdgeRows(rows, g, es, relMax, costMin).fault == TypeError
    decreases |es|
  {
    if |es| > 0 {
      var first := EdgeRow(g, es[0], relMax, costMin);
      if first.Ok? {
        EdgeRowsFault(if first.value.Some? then rows + [first.value.value] else rows, g, es[1..], relMax, costMin);
      }
    }
  }

  // ---------------------------------------------------------------------
  // supplier_reliability_costing_json
  // ---------------------------------------------------------------------

  /** No record before index `n` is empty or ends in `id`. */
  predicate Unmatched(nodes: seq<Record>, id: Value, n: nat)
    requires n <= |nodes|
  {
    forall j :: 0 <= j < n ==> |nodes[j]| > 0 && nodes[j][|nodes[j]| - 1] != id
  }

  /** Record `i` is the first whose last value is `id`, and it has a fourth
      value. */
  predicate Holds(nodes: seq<Record>, id: Value, i: nat)
  {
    && i < |nodes| && |nodes[i]| >= 4 && nodes[i][|nodes[i]| - 1] == id && Unmatched(nodes, id, i)
  }

  /** The inner search: `nodes[3]` of the first Supplier record whose last
      value is `id`, `None` when no record matches. An empty record raises
      IndexError at `nodes[-1]`, a matching one shorter than four values at
      `nodes[3]`. */
  function FirstReliability(nodes: seq<Record>, id: Value): (r: Result<Option<Value>>)
    ensures r.Err? ==> r.fault == IndexError
    decreases |nodes|
  {
    if |nodes| == 0 then Ok(None)
    else if |nodes[0]| == 0 then Err(IndexError)
    else if nodes[0][|nodes[0]| - 1] == id then
      (if |nodes[0]| < 4 then Err(IndexError) else Ok(Some(nodes[0][3])))
    else FirstReliability(nodes[1..], id)
  }

  /** The search finds nothing exactly when every record ends in another
      identifier, and what it finds is field 3 of the first record ending in
      `id`. */
  lemma {:induction false} FirstReliabilitySpec(nodes: seq<Record>, id: Value)
    ensures var r := FirstReliability(nodes, id);
      && (r == Ok(None) <==> Unmatched(nodes, id, |nodes|))
      && (r.Ok? && r.value.Some? ==> exists i :: 0 <= i < |nodes| && Holds(nodes, id, i) && r.value.value == nodes[i][3])
    decreases |nodes|
  {
    if |nodes| > 0 {
      UnmatchedTail(nodes, id, |nodes|);
      if |nodes[0]| > 0 && nodes[0][|nodes[0]| - 1] != id {
        FirstReliabilitySpec(nodes[1..], id);
        var r := FirstReliability(nodes, id);
        if r.Ok? && r.value.Some? {
          var i :| 0 <= i < |nodes| - 1 && Holds(nodes[1..], id, i) && r.value.value == nodes[1..][i][3];
          UnmatchedTail(nodes, id, i + 1);
          assert Holds(nodes, id, i + 1);
        }
      } else if |nodes[0]| >= 4 {
        assert Holds(nodes, id, 0);
      }
    }
  }

  /** `Unmatched` one record at a time. */
  lemma UnmatchedTail(nodes: seq<Record>, id: Value, n: nat)
    requires 0 < n <= |nodes|
    ensures Unmatched(nodes, id, n) <==>
      |nodes[0]| > 0 && nodes[0][|nodes[0]| - 1] != id && Unmatched(nodes[1..], id, n - 1)
  {
    assert forall j :: 0 <= j < n - 1 ==> nodes[1..][j] == nodes[j + 1];
  }

  /** The reliability an edge row uses. As written, a supplier without a
      record keeps the `reliability` left over from an earlier edge
      (`carried`), and there is none before the first match; corrected, it
      falls back to 0 as the graph version does. */
  function Fallback(found: Option<Value>, carried: Option<Value>, corrected: bool): Option<Value>
  {
    if found.Some? then found else if corrected then Some(Num(0.0)) else carried
  }

  /** One iteration of the outer loop: the new `reliability` and the row,
      if any. */
  function JsonStep(doc: Document, rec: Record, relMax: real, costMin: real, carried: Option<Value>, corrected: bool)
    : (r: Result<(Option<Value>, Option<Row>)>)
    ensures corrected && r.Err? ==> r.fault != UnboundLocalError
    ensures r.Ok? && r.value.1.Some? ==> r.value.0 == Some(r.value.1.value.1)
  {
    if |rec| == 0 then Err(IndexError)
    else if rec[0] != Str(SupplierToWarehouse) then Ok((carried, None))
    else if |rec| < 2 then Err(IndexError)
    else match AtLeast(rec[1], costMin)
      case Err(f) => Err(f)
      case Ok(high) =>
        if !high then Ok((carried, None))
        else
          var id := rec[|rec| - 2];
          match Bucket(doc.nodeValues, "Supplier")
          case Err(f) => Err(f)
          case Ok(nodes) =>
            match FirstReliability(nodes, id)
            case Err(f) => Err(f)
            case Ok(found) =>
              var rel := Fallback(found, carried, corrected);
              if rel.None? then Err(UnboundLocalError)
              else match AtMost(rel.value, relMax)
                case Err(f) => Err(f)
                case Ok(low) => Ok((rel, if low then Some((id, rel.value, rec[1])) else None))
  }

  /** `rows` followed by the rows of the records `recs`, threading
      `reliability` from one record to the next. */
  function JsonRows(rows: seq<Row>, carried: Option<Value>, doc: Document, recs: seq<Record>, relMax: real, costMin: real, corrected: bool)
    : Result<seq<Row>>
    decreases |recs|
  {
    if |recs| == 0 then Ok(rows)
    else match JsonStep(doc, recs[0], relMax, costMin, carried, corrected)
      case Err(f) => Err(f)
      case Ok(step) =>
        JsonRows(if step.1.Some? then rows + [step.1.value] else rows, step.0, doc, recs[1..], relMax, costMin, corrected)
  }

  /** The inner loop: the first Supplier record whose last value is `id`
      sets `reliability` and ends the search; without one, `reliability` is
      left as it was (`None` here). */
  method SearchReliability(nodes: seq<Record>, id: Value) returns (found: Result<Option<Value>>)
    ensures found == FirstReliability(nodes, id)
  {
    var j := 0;
    while j < |nodes|
      invariant 0 <= j <= |nodes|
      invariant FirstReliability(nodes[j..], id) == FirstReliability(nodes, id)
    {
      assert nodes[j..][1..] == nodes[j + 1..];
      if |nodes[j]| == 0 {
        return Err(IndexError);
      }
      if nodes[j][|nodes[j]| - 1] == id {
        if |nodes[j]| < 4 {
          return Err(IndexError);
        }
        return Ok(Some(nodes[j][3]));
      }
      j := j + 1;
    }
    assert nodes[|nodes|..] == [];
    return Ok(None);
  }

  /** `supplier_reliability_costing_json` as written. */
  method ReliabilityCostingJson(doc: Document, relMax: real, costMin: real) returns (r: Result<seq<Row>>)
    ensures r == JsonRows([], None, doc, doc.relValues, relMax, costMin, false)
  {
    var recs := doc.relValues;
    var suppliers: seq<Row> := [];
    var reliability: Option<Value> := None;
    for i := 0 to |recs|
      invariant JsonRows(suppliers, reliability, doc, recs[i..], relMax, costMin, false) ==
        JsonRows([], None, doc, recs, relMax, costMin, false)
    {
      assert recs[i..][1..] == recs[i + 1..];
      var rec := recs[i];
      if |rec| == 0 {
        return Err(IndexError);
      }
      if rec[0] == Str(SupplierToWarehouse) {
        if |rec| < 2 {
          return Err(IndexError);
        }
        var cost := rec[1];
        var high := AtLeast(cost, costMin);
        if high.Err? {
          return Err(high.fault);
        }
        if high.value {
          var supplierId := rec[|rec| - 2];
          var bucket := Bucket(doc.nodeValues, "Supplier");
          if bucket.Err? {
            return Err(bucket.fault);
          }
          var nodes := bucket.value;
          var found := SearchReliability(nodes, supplierId);
          if found.Err? {
            return Err(found.fault);
          }
          if found.value.Some? {
            reliability := found.value;
          }
          if reliability.None? {
            return Err(UnboundLocalError);
          }
          var low := AtMost(reliability.value, relMax);
          if low.Err? {
            return Err(low.fault);
          }
          if low.value {
            suppliers := suppliers + [(supplierId, reliability.value, cost)];
          }
        }
      }
    }
    assert recs[|recs|..] == [];
    return Ok(suppliers);
  }

  /** The evidently intended raw query: each edge reads its own supplier's
      reliability, 0 when the supplier has no record. */
  function ReliabilityCostingJsonCorrected(doc: Document, relMax: real, costMin: real): Result<seq<Row>>
  {
    JsonRows([], None, doc, doc.relValues, relMax, costMin, true)
  }

  /** The Supplier records, none when the document has no Supplier bucket
      (the query then raises before it reads one). */
  function SupplierRecords(doc: Document): seq<Record>
  {
    match Bucket(doc.nodeValues, "Supplier")
    case Ok(nodes) => nodes
    case Err(_) => []
  }

  /** The reliability the corrected query gives supplier `id`. */
  function OwnReliability(nodes: seq<Record>, id: Value): Value
  {
    match FirstReliability(nodes, id)
    case Ok(Some(v)) => v
    case _ => Num(0.0)
  }

  /** A SupplierToWarehouse record the corrected raw query reports. */
  predicate JsonQualifies(nodes: seq<Record>, rec: Record, relMax: real, costMin: real)
  {
    && |rec| >= 2 && rec[0] == Str(SupplierToWarehouse)
    && rec[1].Num? && rec[1].n >= costMin
    && OwnReliability(nodes, rec[|rec| - 2]).Num? && OwnReliability(nodes, rec[|rec| - 2]).n <= relMax
  }

  /** A record on which the corrected query raises: an empty record
      (`edge[0]`); a SupplierToWarehouse record without a cost (`edge[1]`)
      or with a cost that is not a number; and, once the cost passes, no
      Supplier bucket, a Supplier search that raises, or a reliability
      that is not a number. */
  predicate CorrectedRaises(doc: Document, rec: Record, costMin: real)
  {
    || |rec| == 0
    || (&& rec[0] == Str(SupplierToWarehouse)
        && (|| |rec| < 2
            || !rec[1].Num?
            || (&& rec[1].n >= costMin
                && (|| Bucket(doc.nodeValues, "Supplier").Err?
                    || FirstReliability(SupplierRecords(doc), rec[|rec| - 2]).Err?
                    || !OwnReliability(SupplierRecords(doc), rec[|rec| - 2]).Num?))))
  }

  /** Corrected, one record raises exactly when `CorrectedRaises` says so,
      never with UnboundLocalError; otherwise it reports a row exactly when
      it qualifies, and the row is its supplier, that supplier's own
      reliability and its cost. */
  lemma CorrectedStep(doc: Document, rec: Record, relMax: real, costMin: real, carried: Option<Value>)
    ensures var step := JsonStep(doc, rec, relMax, costMin, carried, true);
      && (step.Err? <==> CorrectedRaises(doc, rec, costMin))
      && (step.Err? ==> step.fault == IndexError || step.fault == TypeError || step.fault == KeyError)
    ensures var step := JsonStep(doc, rec, relMax, costMin, carried, true);
      step.Ok? ==> (step.value.1.Some? <==> JsonQualifies(SupplierRecords(doc), rec, relMax, costMin))
    ensures var step := JsonStep(doc, rec, relMax, costMin, carried, true);
      step.Ok? && step.value.1.Some? ==>
        step.value.1.value == (rec[|rec| - 2], OwnReliability(SupplierRecords(doc), rec[|rec| - 2]), rec[1])
  {
  }

  /** Corrected, the raw query raises exactly when some record raises, and
      only IndexError, TypeError or KeyError. */
  lemma {:induction false} CorrectedRowsOk(rows: seq<Row>, carried: Option<Value>, doc: Document, recs: seq<Record>,
      relMax: real, costMin: real)
    ensures var r := JsonRows(rows, carried, doc, recs, relMax, costMin, true);
      && (r.Err? <==> exists i :: 0 <= i < |recs| && CorrectedRaises(doc, recs[i], costMin))
      && (r.Err? ==> r.fault == IndexError || r.fault == TypeError || r.fault == KeyError)
    decreases |recs|
  {
    if |recs| > 0 {
      var step := JsonStep(doc, recs[0], relMax, costMin, carried, true);
      CorrectedStep(doc, recs[0], relMax, costMin, carried);
      assert forall i :: 1 <= i < |recs| ==> recs[i] == recs[1..][i - 1];
      if step.Ok? {
        var rows' := if step.value.1.Some? then rows + [step.value.1.value] else rows;
        CorrectedRowsOk(rows', step.value.0, doc, recs[1..], relMax, costMin);
        if exists i :: 0 <= i < |recs| && CorrectedRaises(doc, recs[i], costMin) {
          var i :| 0 <= i < |recs| && CorrectedRaises(doc, recs[i], costMin);
          assert i > 0 && CorrectedRaises(doc, recs[1..][i - 1], costMin);
        }
      }
    }
  }

  /** Corrected, a successful query keeps the rows it starts from and adds
      at most one row per record. */
  lemma {:induction false} CorrectedRowsPrefix(rows: seq<Row>, carried: Option<Value>, doc: Document, recs: seq<Record>,
      relMax: real, costMin: real)
    ensures var r := JsonRows(rows, carried, doc, recs, relMax, costMin, true);
      r.Ok? ==> |rows| <= |r.value| <= |rows| + |recs| && r.value[..|rows|] == rows
    decreases |recs|
  {
    if |recs| > 0 {
      var step := JsonStep(doc, recs[0], relMax, costMin, carried, true);
      if step.Ok? {
        var rows' := if step.value.1.Some? then rows + [step.value.1.value] else rows;
        CorrectedRowsPrefix(rows', step.value.0, doc, recs[1..], relMax, costMin);
        var r := JsonRows(rows, carried, doc, recs, relMax, costMin, true);
        if r.Ok? {
          assert r.value[..|rows'|] == rows';
          assert r.value[..|rows|] == rows'[..|rows|];
        }
      }
    }
  }

  /** Corrected, every row reported is a qualifying record's supplier with
      that supplier's own reliability and the record's cost. */
  lemma {:induction false} CorrectedRowsSpec(rows: seq<Row>, carried: Option<Value>, doc: Document, recs: seq<Record>,
      relMax: real, costMin: real)
    ensures var r := JsonRows(rows, carried, doc, recs, relMax, costMin, true);
      var nodes := SupplierRecords(doc);
      r.Ok? ==> forall row :: row in r.value ==> row in rows || exists i ::
        (0 <= i < |recs| && JsonQualifies(nodes, recs[i], relMax, costMin) &&
         row == (recs[i][|recs[i]| - 2], OwnReliability(nodes, recs[i][|recs[i]| - 2]), recs[i][1]))
    decreases |recs|
  {
    if |recs| > 0 {
      var nodes := SupplierRecords(doc);
      var step := JsonStep(doc, recs[0], relMax, costMin, carried, true);
      assert forall i :: 1 <= i < |recs| ==> recs[i] == recs[1..][i - 1];
      CorrectedStep(doc, recs[0], relMax, costMin, carried);
      if step.Ok? {
        var rows' := if step.value.1.Some? then rows + [step.value.1.value] else rows;
        CorrectedRowsSpec(rows', step.value.0, doc, recs[1..], relMax, costMin);
        var r := JsonRows(rows, carried, doc, recs, relMax, costMin, true);
        if r.Ok? {
          forall row | row in r.value ensures row in rows || exists i ::
            (0 <= i < |recs| && JsonQualifies(nodes, recs[i], relMax, costMin) &&
             row == (recs[i][|recs[i]| - 2], OwnReliability(nodes, recs[i][|recs[i]| - 2]), recs[i][1]))
          {
            if row !in rows' {
              var i :| 0 <= i < |recs[1..]| && JsonQualifies(nodes, recs[1..][i], relMax, costMin) &&
                row == (recs[1..][i][|recs[1..][i]| - 2], OwnReliability(nodes, recs[1..][i][|recs[1..][i]| - 2]), recs[1..][i][1]);
              assert recs[1..][i] == recs[i + 1];
            }
          }
        }
      }
    }
  }

  /** Corrected, every qualifying record has its row in a successful query. */
  lemma {:induction false} CorrectedRowsComplete(rows: seq<Row>, carried: Option<Value>, doc: Document, recs: seq<Record>,
      relMax: real, costMin: real)
    ensures var r := JsonRows(rows, carried, doc, recs, relMax, costMin, true);
      var nodes := SupplierRecords(doc);
      r.Ok? ==> forall i :: 0 <= i < |recs| && JsonQualifies(nodes, recs[i], relMax, costMin) ==>
        (recs[i][|recs[i]| - 2], OwnReliability(nodes, recs[i][|recs[i]| - 2]), recs[i][1]) in r.value
    decreases |recs|
  {
    if |recs| > 0 {
      var nodes := SupplierRecords(doc);
      var step := JsonStep(doc, recs[0], relMax, costMin, carried, true);
      CorrectedStep(doc, recs[0], relMax, costMin, carried);
      if step.Ok? {
        var rows' := if step.value.1.Some? then rows + [step.value.1.value] else rows;
        CorrectedRowsComplete(rows', step.value.0, doc, recs[1..], relMax, costMin);
        CorrectedRowsPrefix(rows', step.value.0, doc, recs[1..], relMax, costMin);
        var r := JsonRows(rows, carried, doc, recs, relMax, costMin, true);
        if r.Ok? {
          forall i | 0 <= i < |recs| && JsonQualifies(nodes, recs[i], relMax, costMin)
            ensures (recs[i][|recs[i]| - 2], OwnReliability(nodes, recs[i][|recs[i]| - 2]), recs[i][1]) in r.value
          {
            if i == 0 {
              assert rows'[|rows'| - 1] == r.value[..|rows'|][|rows'| - 1];
            } else {
              assert recs[1..][i - 1] == recs[i];
            }
          }
        }
      }
    }
  }

  /** The corrected raw query on a whole snapshot: it raises exactly when
      some relationship record raises, with IndexError, TypeError or
      KeyError; otherwise it has at most one row per record, and its rows
      are exactly the qualifying records' supplier, that supplier's own
      reliability (0 without a Supplier record) and the record's cost. */
  lemma CorrectedQuerySpec(doc: Document, relMax: real, costMin: real)
    ensures var r := ReliabilityCostingJsonCorrected(doc, relMax, costMin);
      && (r.Err? <==> exists i :: 0 <= i < |doc.relValues| && CorrectedRaises(doc, doc.relValues[i], costMin))
      && (r.Err? ==> r.fault == IndexError || r.fault == TypeError || r.fault == KeyError)
    ensures var r := ReliabilityCostingJsonCorrected(doc, relMax, costMin);
      var nodes := SupplierRecords(doc);
      var recs := doc.relValues;
      r.Ok? ==> && |r.value| <= |recs|
                && forall row :: row in r.value <==> exists i ::
                     (0 <= i < |recs| && JsonQualifies(nodes, recs[i], relMax, costMin) &&
                      row == (recs[i][|recs[i]| - 2], OwnReliability(nodes, recs[i][|recs[i]| - 2]), recs[i][1]))
  {
    CorrectedRowsOk([], None, doc, doc.relValues, relMax, costMin);
    CorrectedRowsPrefix([], None, doc, doc.relValues, relMax, costMin);
    CorrectedRowsSpec([], None, doc, doc.relValues, relMax, costMin);
    CorrectedRowsComplete([], None, doc, doc.relValues, relMax, costMin);
  }

  /** Every qualifying record's supplier is found: `reliability` is then
      set afresh on every edge that reads it. */
  ghost predicate AllFound(doc: Document, recs: seq<Record>, costMin: real)
  {
    forall i ::
      (0 <= i < |recs| && |recs[i]| >= 2 && recs[i][0] == Str(SupplierToWarehouse) &&
       recs[i][1].Num? && recs[i][1].n >= costMin && Bucket(doc.nodeValues, "Supplier").Ok?) ==>
      FirstReliability(Bucket(doc.nodeValues, "Supplier").value, recs[i][|recs[i]| - 2]) != Ok(None)
  }

  /** When every supplier a qualifying record names has a record, the query
      as written and the corrected one agree, whatever reliability is left
      over. */
  lemma {:induction false} AsWrittenAgrees(rows: seq<Row>, carried: Option<Value>, carried': Option<Value>, doc: Document,
      recs: seq<Record>, relMax: real, costMin: real)
    requires AllFound(doc, recs, costMin)
    ensures JsonRows(rows, carried, doc, recs, relMax, costMin, false) == JsonRows(rows, carried', doc, recs, relMax, costMin, true)
    decreases |recs|
  {
    if |recs| > 0 {
      assert forall i :: 1 <= i < |recs| ==> recs[i] == recs[1..][i - 1];
      var a := JsonStep(doc, recs[0], relMax, costMin, carried, false);
      var b := JsonStep(doc, recs[0], relMax, costMin, carried', true);
      StepAgrees(doc, recs[0], relMax, costMin, carried, carried');
      assert AllFound(doc, recs[1..], costMin);
      if a.Ok? {
        AsWrittenAgrees(if a.value.1.Some? then rows + [a.value.1.value] else rows, a.value.0, b.value.0, doc, recs[1..], relMax, costMin);
      }
    }
  }

  /** One record whose supplier, if it is read, is found: both versions
      raise alike or report alike. */
  lemma StepAgrees(doc: Document, rec: Record, relMax: real, costMin: real, carried: Option<Value>, carried': Option<Value>)
    requires (|rec| >= 2 && rec[0] == Str(SupplierToWarehouse) && rec[1].Num? && rec[1].n >= costMin &&
      Bucket(doc.nodeValues, "Supplier").Ok?) ==>
      FirstReliability(Bucket(doc.nodeValues, "Supplier").value, rec[|rec| - 2]) != Ok(None)
    ensures var a := JsonStep(doc, rec, relMax, costMin, carried, false);
      var b := JsonStep(doc, rec, relMax, costMin, carried', true);
      && (a.Err? <==> b.Err?)
      && (a.Err? ==> a == b)
      && (a.Ok? ==> a.value.1 == b.value.1)
  {
  }

  /** Supplier S1 has reliability 0.5; S2 has no Supplier record. */
  function StaleReliability(): Document
  {
    Document(
      true, map[],
      [("Supplier", [[Str("Supplier"), Str("Acme"), Str("bolts"), Num(0.5), Str("S1")]])],
      map[],
      [ [Str(SupplierToWarehouse), Num(900.0), Num(3.0), Str("S1"), Str("W1")],
        [Str(SupplierToWarehouse), Num(900.0), Num(3.0), Str("S2"), Str("W1")] ])
  }

  /** As written, S2 is reported with S1's reliability; corrected, with 0. */
  lemma StaleReliabilityReported()
    ensures JsonRows([], None, StaleReliability(), StaleReliability().relValues, 0.8, 800.0, false) ==
      Ok([(Str("S1"), Num(0.5), Num(900.0)), (Str("S2"), Num(0.5), Num(900.0))])
    ensures ReliabilityCostingJsonCorrected(StaleReliability(), 0.8, 800.0) ==
      Ok([(Str("S1"), Num(0.5), Num(900.0)), (Str("S2"), Num(0.0), Num(900.0))])
  {
    var doc := StaleReliability();
    var recs := doc.relValues;
    var nodes := doc.nodeValues[0].1;
    assert Bucket(doc.nodeValues, "Supplier") == Ok(nodes);
    assert FirstReliability(nodes, Str("S1")) == Ok(Some(Num(0.5)));
    assert FirstReliability(nodes[1..], Str("S2")) == Ok(None);
    assert FirstReliability(nodes, Str("S2")) == Ok(None);
    assert recs[1..][1..] == [];
    assert JsonStep(doc, recs[0], 0.8, 800.0, None, false) == Ok((Some(Num(0.5)), Some((Str("S1"), Num(0.5), Num(900.0)))));
    assert JsonStep(doc, recs[1], 0.8, 800.0, Some(Num(0.5)), false) == Ok((Some(Num(0.5)), Some((Str("S2"), Num(0.5), Num(900.0)))));
    assert JsonStep(doc, recs[0], 0.8, 800.0, None, true) == Ok((Some(Num(0.5)), Some((Str("S1"), Num(0.5), Num(900.0)))));
    assert JsonStep(doc, recs[1], 0.8, 800.0, Some(Num(0.5)), true) == Ok((Some(Num(0.0)), Some((Str("S2"), Num(0.0), Num(900.0)))));
    var first := (Str("S1"), Num(0.5), Num(900.0));
    assert [] + [first] == [first];
    assert recs[1..][0] == recs[1];
    assert [first] + [(Str("S2"), Num(0.5), Num(900.0))] == [first, (Str("S2"), Num(0.5), Num(900.0))];
    assert [first] + [(Str("S2"), Num(0.0), Num(900.0))] == [first, (Str("S2"), Num(0.0), Num(900.0))];
    assert JsonRows([], None, doc, recs, 0.8, 800.0, false) == JsonRows([first], Some(Num(0.5)), doc, recs[1..], 0.8, 800.0, false);
    assert JsonRows([first], Some(Num(0.5)), doc, recs[1..], 0.8, 800.0, false) ==
      JsonRows([first, (Str("S2"), Num(0.5), Num(900.0))], Some(Num(0.5)), doc, [], 0.8, 800.0, false);
    assert JsonRows([], None, doc, recs, 0.8, 800.0, true) == JsonRows([first], Some(Num(0.5)), doc, recs[1..], 0.8, 800.0, true);
    assert JsonRows([first], Some(Num(0.5)), doc, recs[1..], 0.8, 800.0, true) ==
      JsonRows([first, (Str("S2"), Num(0.0), Num(900.0))], Some(Num(0.0)), doc, [], 0.8, 800.0, true);
  }

  /** As written, a first qualifying edge whose supplier has no record
      raises UnboundLocalError; corrected, it is reported with 0. */
  lemma UnboundReliability()
    ensures JsonRows([], None, StaleReliability(), StaleReliability().relValues[1..], 0.8, 800.0, false) == Err(UnboundLocalError)
    ensures JsonRows([], None, StaleReliability(), StaleReliability().relValues[1..], 0.8, 800.0, true) ==
      Ok([(Str("S2"), Num(0.0), Num(900.0))])
  {
    var doc := StaleReliability();
    var recs := doc.relValues[1..];
    var nodes := doc.nodeValues[0].1;
    assert Bucket(doc.nodeValues, "Supplier") == Ok(nodes);
    assert FirstReliability(nodes[1..], Str("S2")) == Ok(None);
    assert FirstReliability(nodes, Str("S2")) == Ok(None);
    assert recs[1..] == [];
    assert JsonStep(doc, recs[0], 0.8, 800.0, None, false) == Err(UnboundLocalError);
    assert JsonStep(doc, recs[0], 0.8, 800.0, None, true) == Ok((Some(Num(0.0)), Some((Str("S2"), Num(0.0), Num(900.0)))));
    assert [] + [(Str("S2"), Num(0.0), Num(900.0))] == [(Str("S2"), Num(0.0), Num(900.0))];
  }

  // ---------------------------------------------------------------------
  // query_supplied_part_types_for_supplier
  // ---------------------------------------------------------------------

  /** `query_supplied_part_types_for_supplier`: the attribute of a vertex of
      type Supplier, `None` for any other identifier. */
  function SuppliedPartTypes(g: Graph, id: string): Value
  {
    if g.HasNode(Str(id)) && IsA(g, Str(id), "Supplier") then Get(g.attrs[Str(id)], "supplied_part_types", Null) else Null
  }

  /** The raw scan: `nodes[-2]` of the first Supplier record whose last
      value is `id`. */
  function FirstPartTypes(nodes: seq<Record>, id: Value): Result<Value>
    decreases |nodes|
  {
    if |nodes| == 0 then Ok(Null)
    else if |nodes[0]| == 0 then Err(IndexError)
    else if nodes[0][|nodes[0]| - 1] == id then Sub(nodes[0], -2)
    else FirstPartTypes(nodes[1..], id)
  }

  /** `query_supplied_part_types_for_supplier_json`. */
  method SuppliedPartTypesJson(doc: Document, id: string) returns (r: Result<Value>)
    ensures Bucket(doc.nodeValues, "Supplier").Err? ==> r == Err(KeyError)
    ensures Bucket(doc.nodeValues, "Supplier").Ok? ==> r == FirstPartTypes(Bucket(doc.nodeValues, "Supplier").value, Str(id))
  {
    var bucket := Bucket(doc.nodeValues, "Supplier");
    if bucket.Err? {
      return Err(bucket.fault);
    }
    var nodes := bucket.value;
    for i := 0 to |nodes|
      invariant FirstPartTypes(nodes[i..], Str(id)) == FirstPartTypes(nodes, Str(id))
    {
      assert nodes[i..][1..] == nodes[i + 1..];
      if |nodes[i]| == 0 {
        return Err(IndexError);
      }
      if nodes[i][|nodes[i]| - 1] == Str(id) {
        return Sub(nodes[i], -2);
      }
    }
    assert nodes[|nodes|..] == [];
    return Ok(Null);
  }

  /** The raw scan returns the second-to-last value of the first record
      with that identifier, and `None` when no record has it. */
  lemma {:induction false} FirstPartTypesSpec(nodes: seq<Record>, id: Value)
    ensures Unmatched(nodes, id, |nodes|) ==> FirstPartTypes(nodes, id) == Ok(Null)
    ensures forall i :: 0 <= i < |nodes| && |nodes[i]| >= 2 && nodes[i][|nodes[i]| - 1] == id && Unmatched(nodes, id, i) ==>
      FirstPartTypes(nodes, id) == Ok(nodes[i][|nodes[i]| - 2])
    decreases |nodes|
  {
    if |nodes| > 0 && Unmatched(nodes, id, |nodes|) {
      assert Unmatched(nodes[1..], id, |nodes| - 1) by {
        forall j | 0 <= j < |nodes| - 1 ensures |nodes[1..][j]| > 0 && nodes[1..][j][|nodes[1..][j]| - 1] != id {
          assert nodes[1..][j] == nodes[j + 1];
        }
      }
      FirstPartTypesSpec(nodes[1..], id);
    }
    forall i | 0 <= i < |nodes| && |nodes[i]| >= 2 && nodes[i][|nodes[i]| - 1] == id && Unmatched(nodes, id, i)
      ensures FirstPartTypes(nodes, id) == Ok(nodes[i][|nodes[i]| - 2])
    {
      PartTypesAt(nodes, id, i);
    }
  }

  /** The step for one record index: the scan stops at the first record
      ending in the identifier. */
  lemma {:induction false} PartTypesAt(nodes: seq<Record>, id: Value, i: nat)
    requires i < |nodes| && |nodes[i]| >= 2 && nodes[i][|nodes[i]| - 1] == id && Unmatched(nodes, id, i)
    ensures FirstPartTypes(nodes, id) == Ok(nodes[i][|nodes[i]| - 2])
    decreases i
  {
    if i > 0 {
      assert nodes[1..][i - 1] == nodes[i];
      assert Unmatched(nodes[1..], id, i - 1) by {
        forall j | 0 <= j < i - 1 ensures |nodes[1..][j]| > 0 && nodes[1..][j][|nodes[1..][j]| - 1] != id {
          assert nodes[1..][j] == nodes[j + 1];
        }
      }
      PartTypesAt(nodes[1..], id, i - 1);
    }
  }

  /** A Supplier record the two versions read alike: its type's field
      names put "node_type" at `m` (holding "Supplier") and
      "supplied_part_types" second to last, neither name repeated later. */
  ghost predicate PartTypesSchema(names: seq<string>, rec: Record, m: nat)
  {
    && |rec| >= 2
    && var k := |rec| - 2;
    && LastAt(names, m, ZipLen(names, rec)) && LastAt(names, k, ZipLen(names, rec))
    && m != k && names[m] == "node_type" && rec[m] == Str("Supplier")
    && names[k] == "supplied_part_types"
  }

  /** Every record of a document that decodes is non-empty. */
  lemma DecodedRecords(doc: Document)
    requires Decode(doc).Ok?
    ensures forall b, i :: 0 <= b < |doc.nodeValues| && 0 <= i < |doc.nodeValues[b].1| ==> |doc.nodeValues[b].1[i]| > 0
  {
    DecodeSpec(doc);
  }

  /** The graph version reads the sole record's "supplied_part_types" by
      name. */
  lemma PartTypesGraph(doc: Document, id: string, b: nat, i: nat, m: nat)
    requires Decode(doc).Ok? && SoleRecord(doc, b, i) && doc.nodeValues[b].0 == "Supplier"
    requires var rec := doc.nodeValues[b].1[i];
      rec[|rec| - 1] == Str(id) && PartTypesSchema(TypeNames(doc.nodeTypes, "Supplier"), rec, m)
    ensures var rec := doc.nodeValues[b].1[i];
      SuppliedPartTypes(Decode(doc).value, id) == rec[|rec| - 2]
  {
    var rec := doc.nodeValues[b].1[i];
    DecodeUniqueNode(doc, b, i);
    ZipSpec(TypeNames(doc.nodeTypes, "Supplier"), rec);
  }

  /** The raw version reads the second-to-last value of the first record
      with the identifier. */
  lemma PartTypesRaw(nodes: seq<Record>, id: Value, i: nat)
    requires i < |nodes| && |nodes[i]| >= 2 && nodes[i][|nodes[i]| - 1] == id
    requires forall j :: 0 <= j < i ==> |nodes[j]| > 0 && nodes[j][|nodes[j]| - 1] != id
    ensures FirstPartTypes(nodes, id) == Ok(nodes[i][|nodes[i]| - 2])
  {
    PartTypesAt(nodes, id, i);
  }

  /** For a supplier with exactly one node record, the graph version (by
      name) and the raw version (by position) return the same value when
      the field names put "supplied_part_types" second to last. */
  lemma PartTypesAgree(doc: Document, id: string, b: nat, i: nat, m: nat)
    requires Decode(doc).Ok? && SoleRecord(doc, b, i)
    requires doc.nodeValues[b].0 == "Supplier" && Bucket(doc.nodeValues, "Supplier") == Ok(doc.nodeValues[b].1)
    requires var rec := doc.nodeValues[b].1[i];
      rec[|rec| - 1] == Str(id) && PartTypesSchema(TypeNames(doc.nodeTypes, "Supplier"), rec, m)
    ensures var rec := doc.nodeValues[b].1[i];
      && SuppliedPartTypes(Decode(doc).value, id) == rec[|rec| - 2]
      && FirstPartTypes(doc.nodeValues[b].1, Str(id)) == Ok(rec[|rec| - 2])
  {
    PartTypesGraph(doc, id, b, i, m);
    DecodedRecords(doc);
    var nodes := doc.nodeValues[b].1;
    forall j | 0 <= j < i
      ensures |nodes[j]| > 0 && nodes[j][|nodes[j]| - 1] != Str(id)
    {
      assert (b, j) != (b, i);
    }
    PartTypesRaw(nodes, Str(id), i);
  }

  /** A Supplier type whose field names put the part types first and end
      with the identifier. */
  function PositionalMismatch(): Document
  {
    Document(
      true,
      map["Supplier" := ["supplied_part_types", "node_type", "reliability", "id"]],
      [("Supplier", [[Str("bolts"), Str("Supplier"), Num(0.9), Str("S1")]])],
      map[], [])
  }

  lemma PositionalMismatchDecodes()
    ensures Decode(PositionalMismatch()).Ok? && SoleRecord(PositionalMismatch(), 0, 0)
  {
    var doc := PositionalMismatch();
    assert NodesOk(doc) && EdgesOk(doc);
    DecodeSpec(doc);
  }

  /** With that schema the graph version returns the part types and the raw
      version, reading by position, the reliability. */
  lemma PartTypesDiverge()
    ensures Decode(PositionalMismatch()).Ok?
    ensures SuppliedPartTypes(Decode(PositionalMismatch()).value, "S1") == Str("bolts")
    ensures FirstPartTypes(PositionalMismatch().nodeValues[0].1, Str("S1")) == Ok(Num(0.9))
  {
    var doc := PositionalMismatch();
    var rec := doc.nodeValues[0].1[0];
    var names := doc.nodeTypes["Supplier"];
    PositionalMismatchDecodes();
    DecodeUniqueNode(doc, 0, 0);
    ZipSpec(names, rec);
    assert names[0][0] == 's' && names[1][0] == 'n' && names[2][0] == 'r' && names[3][0] == 'i';
    assert LastAt(names, 0, 4) && LastAt(names, 1, 4);
    assert doc.nodeValues[0].1[1..] == [];
  }

  // ---------------------------------------------------------------------
  // query_lead_time_supplier_to_warehouse (Type1.py only)
  // ---------------------------------------------------------------------

  /** `query_lead_time_supplier_to_warehouse`. */
  function LeadTime(g: Graph, s: string, w: string): Value
  {
    EdgeField(g, s, w, "lead_time")
  }

  /** `query_lead_time_supplier_to_warehouse_json`: `edge[2]` of the first
      matching record. */
  method LeadTimeJson(doc: Document, s: string, w: string) returns (r: Result<Value>)
    ensures r == FirstRoute(doc.relValues, s, w, 2)
  {
    r := ScanRoutes(doc.relValues, s, w, 2);
  }

  /** On a route one record describes, with "lead_time" at position 2 of
      the field names, both versions return that record's lead time. */
  lemma LeadTimeAgrees(doc: Document, s: string, w: string, i: nat)
    requires Decode(doc).Ok? && i < |doc.relValues|
    requires IsRoute(doc.relValues[i], s, w)
    requires RouteSchema(doc.relTypes, |doc.relValues[i]|, 2, "lead_time")
    requires forall j :: 0 <= j < |doc.relValues| && j != i && EdgeShapeOk(doc.relTypes, doc.relValues[j]) ==>
      !SamePair(doc.directed, Str(s), Str(w), EdgeEntry(doc.relTypes, doc.relValues[j]).0, EdgeEntry(doc.relTypes, doc.relValues[j]).1)
    ensures LeadTime(Decode(doc).value, s, w) == doc.relValues[i][2]
    ensures FirstRoute(doc.relValues, s, w, 2) == Ok(doc.relValues[i][2])
  {
    EdgeFieldAgrees(doc, s, w, i, 2, "lead_time");
  }
}
