/**
 * The supply-chain queries of pages/Type2.py, each written twice: once
 * against the decoded graph and once (`_json`) against the raw document
 * arrays. The graph versions read named attributes; the raw versions read
 * record positions and scan records in file order.
 */
module Type2 {
  import opened Json
  import opened Graphs
  import opened Decoder
  import opened ProductOffering

  // ---------------------------------------------------------------------
  // query_transportation_cost_for_supplier_and_warehouse
  // ---------------------------------------------------------------------

  const SupplierToWarehouse: string := "SupplierToWarehouse"

  /** A field of the SupplierToWarehouse edge from `s` to `w`:
      `G[s][w].get(field)` when that edge exists with that relationship
      type, `None` otherwise. */
  function EdgeField(g: Graph, s: string, w: string, field: string): (r: Value)
    ensures !Linked(g, Str(s), Str(w), SupplierToWarehouse) ==> r == Null
    ensures Linked(g, Str(s), Str(w), SupplierToWarehouse) ==> r == Get(g.edgeAttrs[(Str(s), Str(w))], field, Null)
  {
    if Linked(g, Str(s), Str(w), SupplierToWarehouse) then Get(g.edgeAttrs[(Str(s), Str(w))], field, Null) else Null
  }

  /** `query_transportation_cost_for_supplier_and_warehouse`. */
  function TransportCost(g: Graph, s: string, w: string): Value
  {
    EdgeField(g, s, w, "transportation_cost")
  }

  /** `edge[0] == "SupplierToWarehouse" and edge[-2] == s and edge[-1] == w`,
      evaluated left to right: an empty record fails at `edge[0]`, a record of
      one value of that type at `edge[-2]`. */
  function RouteMatch(rec: Record, s: string, w: string): (r: Result<bool>)
    ensures r.Err? <==> |rec| == 0 || (rec[0] == Str(SupplierToWarehouse) && |rec| < 2)
    ensures r.Err? ==> r.fault == IndexError
    ensures r == Ok(true) <==> IsRoute(rec, s, w)
  {
    if |rec| == 0 then Err(IndexError)
    else if rec[0] != Str(SupplierToWarehouse) then Ok(false)
    else if |rec| < 2 then Err(IndexError)
    else Ok(rec[|rec| - 2] == Str(s) && rec[|rec| - 1] == Str(w))
  }

  /** A SupplierToWarehouse record from `s` to `w`. */
  predicate IsRoute(rec: Record, s: string, w: string)
  {
    |rec| >= 2 && rec[0] == Str(SupplierToWarehouse) && rec[|rec| - 2] == Str(s) && rec[|rec| - 1] == Str(w)
  }

  /** The scan of the raw versions: `edge[k]` of the first SupplierToWarehouse
      record from `s` to `w`, `None` when there is none. */
  function FirstRoute(recs: seq<Record>, s: string, w: string, k: nat): Result<Value>
  {
    if |recs| == 0 then Ok(Null)
    else match RouteMatch(recs[0], s, w)
      case Err(e) => Err(e)
      case Ok(found) => if found then Sub(recs[0], k) else FirstRoute(recs[1..], s, w, k)
  }

  /** The early-return loop of the raw lookups. */
  method ScanRoutes(recs: seq<Record>, s: string, w: string, k: nat) returns (r: Result<Value>)
    ensures r == FirstRoute(recs, s, w, k)
  {
    for i := 0 to |recs|
      invariant FirstRoute(recs[i..], s, w, k) == FirstRoute(recs, s, w, k)
    {
      assert recs[i..][1..] == recs[i + 1..];
      var edge := recs[i];
      var found := RouteMatch(edge, s, w);
      if found.Err? {
        return Err(found.fault);
      }
      if found.value {
        return Sub(edge, k);
      }
    }
    assert recs[|recs|..] == [];
    return Ok(Null);
  }

  /** `query_transportation_cost_for_supplier_and_warehouse_json`. */
  method TransportCostJson(doc: Document, s: string, w: string) returns (r: Result<Value>)
    ensures r == FirstRoute(doc.relValues, s, w, 1)
  {
    r := ScanRoutes(doc.relValues, s, w, 1);
  }

  /** The scan returns the field of the first matching record when no
      earlier record fails, and `None` when no record matches. */
  lemma {:induction false} FirstRouteSpec(recs: seq<Record>, s: string, w: string, k: nat)
    ensures (forall j :: 0 <= j < |recs| ==> RouteMatch(recs[j], s, w) == Ok(false)) ==>
      FirstRoute(recs, s, w, k) == Ok(Null)
    ensures forall i :: (0 <= i < |recs| && IsRoute(recs[i], s, w) &&
      (forall j :: 0 <= j < i ==> RouteMatch(recs[j], s, w) == Ok(false))) ==>
      FirstRoute(recs, s, w, k) == Sub(recs[i], k)
    decreases |recs|
  {
    if |recs| > 0 {
      FirstRouteSpec(recs[1..], s, w, k);
      forall i | 0 < i < |recs| && IsRoute(recs[i], s, w) &&
        (forall j :: 0 <= j < i ==> RouteMatch(recs[j], s, w) == Ok(false))
        ensures FirstRoute(recs, s, w, k) == Sub(recs[i], k)
      {
        assert recs[1..][i - 1] == recs[i];
        assert forall j :: 0 <= j < i - 1 ==> RouteMatch(recs[1..][j], s, w) == Ok(false) by {
          forall j | 0 <= j < i - 1 ensures RouteMatch(recs[1..][j], s, w) == Ok(false) {
            assert recs[1..][j] == recs[j + 1];
          }
        }
      }
    }
  }

  /** Field names under which a SupplierToWarehouse record of length `n`
      carries its relationship type at position 0 and `field` at position
      `k`, neither name repeated later among the zipped positions. */
  ghost predicate RouteSchema(relTypes: map<string, seq<string>>, n: nat, k: nat, field: string)
  {
    && SupplierToWarehouse in relTypes
    && var names := relTypes[SupplierToWarehouse];
    && 1 <= k && k + 2 < n && n - 2 <= |names|
    && names[0] == "relationship_type" && names[k] == field
    && LastAt(names, 0, n - 2) && LastAt(names, k, n - 2)
  }

  /** The edge entry a SupplierToWarehouse record of a decodable document
      contributes: its route, its relationship type and the field at `k`. */
  lemma RouteEntry(doc: Document, s: string, w: string, i: nat, k: nat, field: string)
    requires Decode(doc).Ok? && i < |doc.relValues|
    requires IsRoute(doc.relValues[i], s, w)
    requires RouteSchema(doc.relTypes, |doc.relValues[i]|, k, field)
    ensures forall j :: 0 <= j < |doc.relValues| ==> EdgeShapeOk(doc.relTypes, doc.relValues[j])
    ensures var es := EdgeEntries(doc.relTypes, doc.relValues);
      && |es| == |doc.relValues|
      && (forall j :: 0 <= j < |es| ==> es[j] == EdgeEntry(doc.relTypes, doc.relValues[j]))
      && SamePair(doc.directed, Str(s), Str(w), es[i].0, es[i].1)
      && "relationship_type" in es[i].2 && es[i].2["relationship_type"] == Str(SupplierToWarehouse)
      && field in es[i].2 && es[i].2[field] == doc.relValues[i][k]
  {
    var recs := doc.relValues;
    var rec := recs[i];
    DecodeSpec(doc);
    assert forall j :: 0 <= j < |recs| ==> EdgeShapeOk(doc.relTypes, recs[j]) by {
      forall j | 0 <= j < |recs| ensures EdgeShapeOk(doc.relTypes, recs[j]) {
        assert EdgeRecordOk(doc.relTypes, recs[j]);
      }
    }
    EdgeEntriesAll(doc.relTypes, recs);
    EdgeEntryAttrs(doc.relTypes, rec, 0);
    EdgeEntryAttrs(doc.relTypes, rec, k);
  }

  /** The graph keeps the field of the last record for a route: `add_edge`
      merges each record's attributes over those of earlier ones. */
  lemma LastRouteField(doc: Document, s: string, w: string, i: nat, k: nat, field: string)
    requires Decode(doc).Ok? && i < |doc.relValues|
    requires IsRoute(doc.relValues[i], s, w)
    requires RouteSchema(doc.relTypes, |doc.relValues[i]|, k, field)
    requires forall j :: i < j < |doc.relValues| && EdgeShapeOk(doc.relTypes, doc.relValues[j]) ==>
      !SamePair(doc.directed, Str(s), Str(w), EdgeEntry(doc.relTypes, doc.relValues[j]).0, EdgeEntry(doc.relTypes, doc.relValues[j]).1)
    ensures EdgeField(Decode(doc).value, s, w, field) == doc.relValues[i][k]
  {
    RouteEntry(doc, s, w, i, k, field);
    var es := EdgeEntries(doc.relTypes, doc.relValues);
    DecodeSpec(doc);
    EdgeMerged(Decode(doc).value, es, doc.directed, Str(s), Str(w), i, "relationship_type");
    EdgeMerged(Decode(doc).value, es, doc.directed, Str(s), Str(w), i, field);
  }

  /** In a graph whose edges are the merge of the entries `es`, the value a
      key has on an edge is the one the last entry for that edge gives it. */
  lemma EdgeMerged(g: Graph, es: seq<(Value, Value, Attrs)>, directed: bool, x: Value, w: Value, i: nat, key: string)
    requires forall a, b :: (a, b) in g.edgeAttrs <==> Touched(es, directed, a, b)
    requires forall a, b :: (a, b) in g.edgeAttrs ==> g.edgeAttrs[(a, b)] == MergeEdge(map[], es, directed, a, b)
    requires i < |es| && SamePair(directed, x, w, es[i].0, es[i].1) && key in es[i].2
    requires forall j :: i < j < |es| ==> !SamePair(directed, x, w, es[j].0, es[j].1)
    ensures g.HasEdge(x, w) && key in g.edgeAttrs[(x, w)] && g.edgeAttrs[(x, w)][key] == es[i].2[key]
  {
    TouchedSpec(es, directed, x, w);
    MergeEdgeLater(map[], es, directed, x, w, i, key);
  }

  /** The raw scan reads the first record for a route, once every record
      before it is long enough to be checked. */
  lemma FirstRouteField(doc: Document, s: string, w: string, i: nat, k: nat)
    requires i < |doc.relValues| && IsRoute(doc.relValues[i], s, w)
    requires forall j :: 0 <= j < i ==> |doc.relValues[j]| >= 2 && !IsRoute(doc.relValues[j], s, w)
    ensures FirstRoute(doc.relValues, s, w, k) == Sub(doc.relValues[i], k)
  {
    FirstRouteSpec(doc.relValues, s, w, k);
  }

  /** The two versions agree on a route that exactly one relationship record
      describes: the graph reads the field by name and the raw scan by
      position, and both find the value at position `k` of that record. */
  lemma EdgeFieldAgrees(doc: Document, s: string, w: string, i: nat, k: nat, field: string)
    requires Decode(doc).Ok? && i < |doc.relValues|
    requires IsRoute(doc.relValues[i], s, w)
    requires RouteSchema(doc.relTypes, |doc.relValues[i]|, k, field)
    requires forall j :: 0 <= j < |doc.relValues| && j != i && EdgeShapeOk(doc.relTypes, doc.relValues[j]) ==>
      !SamePair(doc.directed, Str(s), Str(w), EdgeEntry(doc.relTypes, doc.relValues[j]).0, EdgeEntry(doc.relTypes, doc.relValues[j]).1)
    ensures EdgeField(Decode(doc).value, s, w, field) == doc.relValues[i][k]
    ensures FirstRoute(doc.relValues, s, w, k) == Ok(doc.relValues[i][k])
  {
    var recs := doc.relValues;
    LastRouteField(doc, s, w, i, k, field);
    RouteEntry(doc, s, w, i, k, field);
    assert forall j :: 0 <= j < i ==> |recs[j]| >= 2 && !IsRoute(recs[j], s, w);
    FirstRouteField(doc, s, w, i, k);
  }

  /** Two records for the same route: the raw scan reports the first one's
      cost, the graph the last one's, because `add_edge` merges later
      attributes over earlier ones. */
  function DuplicateRoute(): Document
  {
    Document(
      true, map[], [],
      map[SupplierToWarehouse := ["relationship_type", "transportation_cost", "lead_time"]],
      [ [Str(SupplierToWarehouse), Num(5.0), Num(1.0), Str("S1"), Str("W1")],
        [Str(SupplierToWarehouse), Num(7.0), Num(2.0), Str("S1"), Str("W1")] ])
  }

  lemma TransportCostDiverges()
    ensures Decode(DuplicateRoute()).Ok?
    ensures TransportCost(Decode(DuplicateRoute()).value, "S1", "W1") == Num(7.0)
    ensures FirstRoute(DuplicateRoute().relValues, "S1", "W1", 1) == Ok(Num(5.0))
  {
    var doc := DuplicateRoute();
    DuplicateRouteDecodes();
    LastRouteField(doc, "S1", "W1", 1, 1, "transportation_cost");
    FirstRouteField(doc, "S1", "W1", 0, 1);
  }

  lemma DuplicateRouteDecodes()
    ensures Decode(DuplicateRoute()).Ok?
    ensures RouteSchema(DuplicateRoute().relTypes, 5, 1, "transportation_cost")
  {
    var doc := DuplicateRoute();
    var recs := doc.relValues;
    assert NodesOk(doc);
    var names := doc.relTypes[SupplierToWarehouse];
    assert names[0][0] == 'r' && names[1][0] == 't' && names[2][0] == 'l';
    ZipUpToKeys(names, recs[0], 3);
    ZipUpToKeys(names, recs[1], 3);
    assert EdgeRecordOk(doc.relTypes, recs[0]) && EdgeRecordOk(doc.relTypes, recs[1]);
    assert EdgesOk(doc);
    DecodeSpec(doc);
    CostSchema();
  }

  lemma CostSchema()
    ensures RouteSchema(DuplicateRoute().relTypes, 5, 1, "transportation_cost")
  {
    var names := DuplicateRoute().relTypes[SupplierToWarehouse];
    assert names[1][0] == 't' && names[2][0] == 'l' && names[0][0] == 'r';
  }

  // ---------------------------------------------------------------------
  // query_parts_for_product_offering_json and
  // query_suppliers_for_part_via_warehouse_json: two joined scans
  // ---------------------------------------------------------------------

  /** A record of relationship type `rel` whose last value is `target`. */
  predicate IsLink(rec: Record, rel: string, target: Value)
  {
    |rec| >= 2 && rec[0] == Str(rel) && rec[|rec| - 1] == target
  }

  /** `rec[0] == rel and rec[-1] == target`, and then `rec[-2]`: the other
      end of a matching record, `None` for a record that does not match. */
  function Hit(rec: Record, rel: string, target: Value): (r: Result<Option<Value>>)
    ensures r.Err? <==> |rec| == 0 || (|rec| == 1 && rec[0] == Str(rel) && rec[0] == target)
    ensures r.Err? ==> r.fault == IndexError
    ensures r.Ok? && r.value.Some? <==> IsLink(rec, rel, target)
    ensures IsLink(rec, rel, target) ==> r == Ok(Some(rec[|rec| - 2]))
  {
    if |rec| == 0 then Err(IndexError)
    else if rec[0] == Str(rel) && rec[|rec| - 1] == target then
      (if |rec| < 2 then Err(IndexError) else Ok(Some(rec[|rec| - 2])))
    else Ok(None)
  }

  /** The inner scan: `acc` with the other end of every record of type `rel`
      that ends at `target` added, stopping at the first exception. */
  function Gather(acc: set<Value>, recs: seq<Record>, rel: string, target: Value): Result<set<Value>>
    decreases |recs|
  {
    if |recs| == 0 then Ok(acc)
    else match Hit(recs[0], rel, target)
      case Err(e) => Err(e)
      case Ok(hit) =>
        if hit.None? then Gather(acc, recs[1..], rel, target)
        else match SetAdd(acc, hit.value)
          case Err(e) => Err(e)
          case Ok(acc') => Gather(acc', recs[1..], rel, target)
  }

  /** The outer scan: for each record of type `rel1` ending at `target`,
      the inner scan over all of `recs` from that record's other end. */
  function Join(acc: set<Value>, outer: seq<Record>, recs: seq<Record>, rel1: string, target: Value, rel2: string): Result<set<Value>>
    decreases |outer|
  {
    if |outer| == 0 then Ok(acc)
    else match Hit(outer[0], rel1, target)
      case Err(e) => Err(e)
      case Ok(hit) =>
        if hit.None? then Join(acc, outer[1..], recs, rel1, target, rel2)
        else match Gather(acc, recs, rel2, hit.value)
          case Err(e) => Err(e)
          case Ok(acc') => Join(acc', outer[1..], recs, rel1, target, rel2)
  }

  /** The nested loop both raw two-hop queries share. */
  method TwoHop(recs: seq<Record>, rel1: string, target: Value, rel2: string) returns (r: Result<set<Value>>)
    ensures r == Join({}, recs, recs, rel1, target, rel2)
  {
    var found: set<Value> := {};
    for i := 0 to |recs|
      invariant Join(found, recs[i..], recs, rel1, target, rel2) == Join({}, recs, recs, rel1, target, rel2)
    {
      assert recs[i..][1..] == recs[i + 1..];
      var hit := Hit(recs[i], rel1, target);
      if hit.Err? {
        return Err(hit.fault);
      }
      if hit.value.Some? {
        var middle := hit.value.value;
        ghost var before := found;
        for j := 0 to |recs|
          invariant Gather(found, recs[j..], rel2, middle) == Gather(before, recs, rel2, middle)
        {
          assert recs[j..][1..] == recs[j + 1..];
          var next := Hit(recs[j], rel2, middle);
          if next.Err? {
            return Err(next.fault);
          }
          if next.value.Some? {
            var added := SetAdd(found, next.value.value);
            if added.Err? {
              return Err(added.fault);
            }
            found := added.value;
          }
        }
        assert recs[|recs|..] == [];
      }
    }
    assert recs[|recs|..] == [];
    return Ok(found);
  }

  /** `query_parts_for_product_offering_json`: the parts of every
      PartsToFacility record into a facility of a FacilityToProductOfferings
      record into the offering. */
  method PartsJson(doc: Document, po: string) returns (r: Result<set<Value>>)
    ensures r == Join({}, doc.relValues, doc.relValues, "FacilityToProductOfferings", Str(po), "PartsToFacility")
  {
    r := TwoHop(doc.relValues, "FacilityToProductOfferings", Str(po), "PartsToFacility");
  }

  /** `query_suppliers_for_part_via_warehouse_json`: the suppliers of every
      SupplierToWarehouse record into a warehouse of a WarehouseToParts record
      into the part. */
  method SuppliersJson(doc: Document, part: string) returns (r: Result<set<Value>>)
    ensures r == Join({}, doc.relValues, doc.relValues, "WarehouseToParts", Str(part), SupplierToWarehouse)
  {
    r := TwoHop(doc.relValues, "WarehouseToParts", Str(part), SupplierToWarehouse);
  }

  /** A record the scans can always read: two values at least, the
      second-to-last one hashable. */
  predicate Readable(rec: Record)
  {
    |rec| >= 2 && Hashable(rec[|rec| - 2])
  }

  /** `x` is the other end of some record of type `rel` ending at `target`. */
  predicate Gathered(recs: seq<Record>, rel: string, target: Value, x: Value)
  {
    exists j :: 0 <= j < |recs| && IsLink(recs[j], rel, target) && x == recs[j][|recs[j]| - 2]
  }

  /** `x` is gathered from the other end of some record of type `rel1`
      ending at `target`. */
  predicate Joined(outer: seq<Record>, recs: seq<Record>, rel1: string, target: Value, rel2: string, x: Value)
  {
    exists i :: 0 <= i < |outer| && IsLink(outer[i], rel1, target) && Gathered(recs, rel2, outer[i][|outer[i]| - 2], x)
  }

  /** The inner scan adds exactly the other ends of the matching records,
      fails only with IndexError or TypeError, and cannot fail on readable
      records. */
  lemma {:induction false} GatherSpec(acc: set<Value>, recs: seq<Record>, rel: string, target: Value)
    ensures var r := Gather(acc, recs, rel, target);
      && (r.Err? ==> r.fault == IndexError || r.fault == TypeError)
      && ((forall j :: 0 <= j < |recs| ==> Readable(recs[j])) ==> r.Ok?)
      && (r.Ok? ==> forall x :: x in r.value <==> x in acc || Gathered(recs, rel, target, x))
    decreases |recs|
  {
    if |recs| > 0 {
      var hit := Hit(recs[0], rel, target);
      if hit.Ok? {
        var acc' := if hit.value.Some? && SetAdd(acc, hit.value.value).Ok? then acc + {hit.value.value} else acc;
        GatherSpec(acc', recs[1..], rel, target);
        assert forall j :: 1 <= j < |recs| ==> recs[j] == recs[1..][j - 1];
        var r := Gather(acc, recs, rel, target);
        if r.Ok? {
          forall x | x in r.value ensures x in acc || Gathered(recs, rel, target, x) {
            if x !in acc' {
              var j :| 0 <= j < |recs[1..]| && IsLink(recs[1..][j], rel, target) && x == recs[1..][j][|recs[1..][j]| - 2];
              assert recs[1..][j] == recs[j + 1];
            }
          }
          forall x | Gathered(recs, rel, target, x) ensures x in r.value {
            var j :| 0 <= j < |recs| && IsLink(recs[j], rel, target) && x == recs[j][|recs[j]| - 2];
            if j > 0 {
              assert recs[1..][j - 1] == recs[j];
            }
          }
        }
      }
    }
  }

  /** The two-hop scan: its result is the other ends of the second-hop
      records that end where some first-hop record starts; it fails only with
      IndexError or TypeError and cannot fail when every record is
      readable. */
  lemma {:induction false} JoinSpec(acc: set<Value>, outer: seq<Record>, recs: seq<Record>, rel1: string, target: Value, rel2: string)
    ensures var r := Join(acc, outer, recs, rel1, target, rel2);
      && (r.Err? ==> r.fault == IndexError || r.fault == TypeError)
      && ((forall j :: 0 <= j < |outer| ==> Readable(outer[j])) && (forall j :: 0 <= j < |recs| ==> Readable(recs[j])) ==> r.Ok?)
      && (r.Ok? ==> forall x :: x in r.value <==> x in acc || Joined(outer, recs, rel1, target, rel2, x))
    decreases |outer|
  {
    if |outer| > 0 {
      var hit := Hit(outer[0], rel1, target);
      assert forall i :: 1 <= i < |outer| ==> outer[i] == outer[1..][i - 1];
      if hit.Ok? {
        var acc' := acc;
        if hit.value.Some? {
          GatherSpec(acc, recs, rel2, hit.value.value);
          if Gather(acc, recs, rel2, hit.value.value).Ok? {
            acc' := Gather(acc, recs, rel2, hit.value.value).value;
          }
        }
        JoinSpec(acc', outer[1..], recs, rel1, target, rel2);
        var r := Join(acc, outer, recs, rel1, target, rel2);
        if r.Ok? {
          assert r == Join(acc', outer[1..], recs, rel1, target, rel2);
          forall x | x in r.value ensures x in acc || Joined(outer, recs, rel1, target, rel2, x) {
            if x !in acc' {
              var i :| 0 <= i < |outer[1..]| && IsLink(outer[1..][i], rel1, target) &&
                Gathered(recs, rel2, outer[1..][i][|outer[1..][i]| - 2], x);
              assert outer[i + 1] == outer[1..][i];
            }
          }
          forall x | Joined(outer, recs, rel1, target, rel2, x) ensures x in r.value {
            var i :| 0 <= i < |outer| && IsLink(outer[i], rel1, target) && Gathered(recs, rel2, outer[i][|outer[i]| - 2], x);
            if i > 0 {
              assert outer[1..][i - 1] == outer[i];
            }
          }
        }
      }
    }
  }

  // ---------------------------------------------------------------------
  // query_profitable_products_json
  // ---------------------------------------------------------------------

  /** What the loop body does with one ProductOffering record: identifier
      last, cost at position 2, demand at position 3. */
  function OfferingRow(node: Record, costMax: real, demandMin: real): (r: Result<Option<Row>>)
    ensures r.Err? <==> |node| < 4 || !node[2].Num? || (node[2].n <= costMax && !node[3].Num?)
    ensures r.Err? ==> r.fault == (if |node| < 4 then IndexError else TypeError)
    ensures r.Ok? && r.value.Some? <==>
      |node| >= 4 && node[2].Num? && node[2].n <= costMax && node[3].Num? && node[3].n >= demandMin
    ensures r.Ok? && r.value.Some? ==> r.value.value == (node[|node| - 1], node[2], node[3])
  {
    if |node| < 4 then Err(IndexError)
    else match AtMost(node[2], costMax)
      case Err(e) => Err(e)
      case Ok(cheap) =>
        if !cheap then Ok(None)
        else match AtLeast(node[3], demandMin)
          case Err(e) => Err(e)
          case Ok(wanted) => if wanted then Ok(Some((node[|node| - 1], node[2], node[3]))) else Ok(None)
  }

  /** `rows` followed by the rows of the selected records, stopping at the
      first exception. */
  function OfferingRows(rows: seq<Row>, nodes: seq<Record>, costMax: real, demandMin: real): Result<seq<Row>>
    decreases |nodes|
  {
    if |nodes| == 0 then Ok(rows)
    else match OfferingRow(nodes[0], costMax, demandMin)
      case Err(e) => Err(e)
      case Ok(row) => OfferingRows(if row.Some? then rows + [row.value] else rows, nodes[1..], costMax, demandMin)
  }

  /** `query_profitable_products_json`. */
  method ProfitableJson(doc: Document, costMax: real, demandMin: real) returns (r: Result<seq<Row>>)
    ensures Bucket(doc.nodeValues, "ProductOffering").Err? ==> r == Err(KeyError)
    ensures Bucket(doc.nodeValues, "ProductOffering").Ok? ==>
      r == OfferingRows([], Bucket(doc.nodeValues, "ProductOffering").value, costMax, demandMin)
  {
    var bucket := Bucket(doc.nodeValues, "ProductOffering");
    if bucket.Err? {
      return Err(bucket.fault);
    }
    var nodes := bucket.value;
    var rows: seq<Row> := [];
    for i := 0 to |nodes|
      invariant OfferingRows(rows, nodes[i..], costMax, demandMin) == OfferingRows([], nodes, costMax, demandMin)
    {
      assert nodes[i..][1..] == nodes[i + 1..];
      var row := OfferingRow(nodes[i], costMax, demandMin);
      if row.Err? {
        return Err(row.fault);
      }
      if row.value.Some? {
        rows := rows + [row.value.value];
      }
    }
    assert nodes[|nodes|..] == [];
    return Ok(rows);
  }

  /** A ProductOffering record the raw query selects. */
  predicate OfferingSelected(node: Record, costMax: real, demandMin: real)
  {
    |node| >= 4 && node[2].Num? && node[2].n <= costMax && node[3].Num? && node[3].n >= demandMin
  }

  /** The raw query fails exactly when some record is too short or compares
      a non-number, and otherwise lists the rows of the selected records in
      record order after those already collected. */
  lemma {:induction false} OfferingRowsSpec(rows: seq<Row>, nodes: seq<Record>, costMax: real, demandMin: real)
    ensures var r := OfferingRows(rows, nodes, costMax, demandMin);
      && (r.Ok? <==> forall i :: 0 <= i < |nodes| ==> OfferingRow(nodes[i], costMax, demandMin).Ok?)
      && (r.Ok? ==> |rows| <= |r.value| <= |rows| + |nodes| && r.value[..|rows|] == rows)
      && (r.Ok? ==> forall row :: row in r.value <==> (row in rows ||
            exists i :: 0 <= i < |nodes| && OfferingSelected(nodes[i], costMax, demandMin) &&
              row == (nodes[i][|nodes[i]| - 1], nodes[i][2], nodes[i][3])))
    decreases |nodes|
  {
    if |nodes| > 0 {
      var first := OfferingRow(nodes[0], costMax, demandMin);
      assert forall i :: 1 <= i < |nodes| ==> nodes[i] == nodes[1..][i - 1];
      if first.Ok? {
        var rows' := if first.value.Some? then rows + [first.value.value] else rows;
        OfferingRowsSpec(rows', nodes[1..], costMax, demandMin);
        var r := OfferingRows(rows, nodes, costMax, demandMin);
        if r.Ok? {
          assert r.value[..|rows'|] == rows';
          assert r.value[..|rows|] == rows'[..|rows|];
          forall row | row in r.value ensures row in rows ||
            exists i :: 0 <= i < |nodes| && OfferingSelected(nodes[i], costMax, demandMin) &&
              row == (nodes[i][|nodes[i]| - 1], nodes[i][2], nodes[i][3])
          {
            if row !in rows' {
              var i :| 0 <= i < |nodes[1..]| && OfferingSelected(nodes[1..][i], costMax, demandMin) &&
                row == (nodes[1..][i][|nodes[1..][i]| - 1], nodes[1..][i][2], nodes[1..][i][3]);
              assert nodes[1..][i] == nodes[i + 1];
            }
          }
          forall i | 0 <= i < |nodes| && OfferingSelected(nodes[i], costMax, demandMin)
            ensures (nodes[i][|nodes[i]| - 1], nodes[i][2], nodes[i][3]) in r.value
          {
            if i > 0 {
              assert nodes[1..][i - 1] == nodes[i];
            }
          }
        }
      }
    }
  }

  // ---------------------------------------------------------------------
  // query_high_operating_cost_nodes and its raw version
  // ---------------------------------------------------------------------

  /** One result pair `[node, value]`. */
  type Pair = (Value, Value)

  /** The operating cost the filter reads: `attrs.get("operating_cost", 0)`. */
  function OperatingCost(a: Attrs): Value
  {
    Get(a, "operating_cost", Num(0.0))
  }

  /** A Facility vertex whose operating cost exceeds the threshold. */
  predicate HighCost(g: Graph, v: Value, t: real)
  {
    IsA(g, v, "Facility") && OperatingCost(AttrsOf(g, v)).Num? && OperatingCost(AttrsOf(g, v)).n > t
  }

  /** One step of the comprehension: the filter, then the pair whose second
      value is `attrs.get(key, default)`. A non-numeric operating cost of a
      Facility raises TypeError. */
  function FacilityPair(g: Graph, v: Value, t: real, key: string, default: Value): (r: Result<Option<Pair>>)
    ensures r.Err? <==> IsA(g, v, "Facility") && !OperatingCost(AttrsOf(g, v)).Num?
    ensures r.Err? ==> r.fault == TypeError
    ensures r.Ok? && r.value.Some? <==> HighCost(g, v, t)
    ensures r.Ok? && r.value.Some? ==> r.value.value == (v, Get(AttrsOf(g, v), key, default))
  {
    var a := AttrsOf(g, v);
    if !IsA(g, v, "Facility") then Ok(None)
    else match Above(OperatingCost(a), t)
      case Err(e) => Err(e)
      case Ok(high) => if high then Ok(Some((v, Get(a, key, default)))) else Ok(None)
  }

  /** The comprehension over the vertices `vs`, in order. */
  function FacilityPairs(g: Graph, vs: seq<Value>, t: real, key: string, default: Value): Result<seq<Pair>>
    decreases |vs|
  {
    if |vs| == 0 then Ok([])
    else match FacilityPair(g, vs[0], t, key, default)
      case Err(e) => Err(e)
      case Ok(p) =>
        match FacilityPairs(g, vs[1..], t, key, default)
        case Err(e) => Err(e)
        case Ok(rest) => Ok(if p.Some? then [p.value] + rest else rest)
  }

  /** The comprehension fails exactly when some Facility has a non-numeric
      operating cost, and otherwise pairs each high-cost Facility with the
      value it reads under `key`, in vertex order. */
  lemma {:induction false} FacilityPairsSpec(g: Graph, vs: seq<Value>, t: real, key: string, default: Value)
    ensures var r := FacilityPairs(g, vs, t, key, default);
      && (r.Ok? <==> forall i :: 0 <= i < |vs| ==> !(IsA(g, vs[i], "Facility") && !OperatingCost(AttrsOf(g, vs[i])).Num?))
      && (r.Err? ==> r.fault == TypeError)
      && (r.Ok? ==> |r.value| <= |vs|)
      && (r.Ok? ==> forall p :: p in r.value <==>
            exists i :: 0 <= i < |vs| && HighCost(g, vs[i], t) && p == (vs[i], Get(AttrsOf(g, vs[i]), key, default)))
    decreases |vs|
  {
    if |vs| > 0 {
      FacilityPairsSpec(g, vs[1..], t, key, default);
      assert forall i :: 1 <= i < |vs| ==> vs[i] == vs[1..][i - 1];
      var r := FacilityPairs(g, vs, t, key, default);
      if r.Ok? {
        forall p | p in r.value
          ensures exists i :: 0 <= i < |vs| && HighCost(g, vs[i], t) && p == (vs[i], Get(AttrsOf(g, vs[i]), key, default))
        {
          if p != (vs[0], Get(AttrsOf(g, vs[0]), key, default)) || !HighCost(g, vs[0], t) {
            var i :| 0 <= i < |vs[1..]| && HighCost(g, vs[1..][i], t) && p == (vs[1..][i], Get(AttrsOf(g, vs[1..][i]), key, default));
            assert vs[1..][i] == vs[i + 1];
          }
        }
        forall i | 0 <= i < |vs| && HighCost(g, vs[i], t)
          ensures (vs[i], Get(AttrsOf(g, vs[i]), key, default)) in r.value
        {
          if i > 0 {
            assert vs[1..][i - 1] == vs[i];
          }
        }
      }
    }
  }

  /** `query_high_operating_cost_nodes` as written: the pair's second value
      is read under the key `"operating_cost,0"`, which no Facility record
      declares, so it is `None`. */
  function HighCostNodes(g: Graph, t: real): Result<seq<Pair>>
  {
    FacilityPairs(g, g.order, t, "operating_cost,0", Null)
  }

  /** The evidently intended query: `[node, attrs.get("operating_cost", 0)]`. */
  function HighCostNodesCorrected(g: Graph, t: real): Result<seq<Pair>>
  {
    FacilityPairs(g, g.order, t, "operating_cost", Num(0.0))
  }

  /** As written, every pair carries whatever the vertex stores under the
      key "operating_cost,0", and `None` when (as in every decoded
      Facility whose type does not declare that field) there is none. */
  lemma HighCostNodesAsWritten(g: Graph, t: real)
    ensures var r := HighCostNodes(g, t);
      r.Ok? ==> forall p :: p in r.value ==>
        HighCost(g, p.0, t) && ("operating_cost,0" !in AttrsOf(g, p.0) ==> p.1 == Null)
  {
    FacilityPairsSpec(g, g.order, t, "operating_cost,0", Null);
  }

  /** Corrected, every pair is a high-cost Facility with its operating cost,
      a number above the threshold; the two versions fail on the same
      graphs and select the same vertices. */
  lemma HighCostNodesCorrectedSpec(g: Graph, t: real)
    ensures var r := HighCostNodesCorrected(g, t);
      && (r.Ok? <==> HighCostNodes(g, t).Ok?)
      && (r.Ok? ==> forall p :: p in r.value ==> HighCost(g, p.0, t) && p.1.Num? && p.1.n > t && p.1 == OperatingCost(AttrsOf(g, p.0)))
      && (r.Ok? ==> forall v :: (exists p :: p in r.value && p.0 == v) <==> v in g.order && HighCost(g, v, t))
  {
    FacilityPairsSpec(g, g.order, t, "operating_cost", Num(0.0));
    FacilityPairsSpec(g, g.order, t, "operating_cost,0", Null);
    var r := HighCostNodesCorrected(g, t);
    if r.Ok? {
      forall v | v in g.order && HighCost(g, v, t) ensures exists p :: p in r.value && p.0 == v {
        var i :| 0 <= i < |g.order| && g.order[i] == v;
        assert (v, OperatingCost(AttrsOf(g, v))) in r.value;
      }
    }
  }

  /** One Facility with operating cost 6000 against a threshold of 5000. */
  function OneFacility(): Graph
  {
    Graph(true, [Str("F1")],
      map[Str("F1") := map["node_type" := Str("Facility"), "operating_cost" := Num(6000.0)]],
      map[Str("F1") := []], map[])
  }

  /** The query as written reports the facility without its cost. */
  lemma HighCostNodesLosesCost()
    ensures HighCostNodes(OneFacility(), 5000.0) == Ok([(Str("F1"), Null)])
    ensures HighCostNodesCorrected(OneFacility(), 5000.0) == Ok([(Str("F1"), Num(6000.0))])
  {
    var g := OneFacility();
    var a := AttrsOf(g, Str("F1"));
    assert a == map["node_type" := Str("Facility"), "operating_cost" := Num(6000.0)];
    assert "operating_cost,0" !in a by {
      assert |"operating_cost,0"| != |"node_type"| && |"operating_cost,0"| != |"operating_cost"|;
    }
    assert IsA(g, Str("F1"), "Facility");
    assert OperatingCost(a) == Num(6000.0);
    assert FacilityPair(g, Str("F1"), 5000.0, "operating_cost,0", Null) == Ok(Some((Str("F1"), Null)));
    assert FacilityPair(g, Str("F1"), 5000.0, "operating_cost", Num(0.0)) == Ok(Some((Str("F1"), Num(6000.0))));
    var vs := g.order;
    assert vs[0] == Str("F1") && vs[1..] == [];
    assert FacilityPairs(g, vs[1..], 5000.0, "operating_cost,0", Null) == Ok([]);
    assert FacilityPairs(g, vs[1..], 5000.0, "operating_cost", Num(0.0)) == Ok([]);
    assert FacilityPairs(g, vs, 5000.0, "operating_cost,0", Null) == Ok([(Str("F1"), Null)] + []);
    assert FacilityPairs(g, vs, 5000.0, "operating_cost", Num(0.0)) == Ok([(Str("F1"), Num(6000.0))] + []);
    assert [(Str("F1"), Null)] + [] == [(Str("F1"), Null)];
    assert [(Str("F1"), Num(6000.0))] + [] == [(Str("F1"), Num(6000.0))];
    assert HighCostNodes(g, 5000.0) == FacilityPairs(g, vs, 5000.0, "operating_cost,0", Null);
    assert HighCostNodesCorrected(g, 5000.0) == FacilityPairs(g, vs, 5000.0, "operating_cost", Num(0.0));
  }

  /** A Facility record whose second-to-last value is a number above the
      threshold. */
  predicate RecordAbove(node: Record, t: real)
  {
    |node| >= 2 && node[|node| - 2].Num? && node[|node| - 2].n > t
  }

  /** `[node[-1], node[-2]]`. */
  function RecordPair(node: Record): Pair
    requires |node| >= 2
  {
    (node[|node| - 1], node[|node| - 2])
  }

  /** `query_high_operating_cost_nodes_json`: the Facility records whose
      second-to-last value exceeds the threshold, paired with their last. */
  function FacilityRecordPairs(nodes: seq<Record>, t: real): Result<seq<Pair>>
    decreases |nodes|
  {
    if |nodes| == 0 then Ok([])
    else match Sub(nodes[0], -2)
      case Err(e) => Err(e)
      case Ok(cost) =>
        match Above(cost, t)
        case Err(e) => Err(e)
        case Ok(high) =>
          match FacilityRecordPairs(nodes[1..], t)
          case Err(e) => Err(e)
          case Ok(rest) => Ok(if high then [RecordPair(nodes[0])] + rest else rest)
  }

  function HighCostJson(doc: Document, t: real): Result<seq<Pair>>
  {
    match Bucket(doc.nodeValues, "Facility")
    case Err(e) => Err(e)
    case Ok(nodes) => FacilityRecordPairs(nodes, t)
  }

  /** The raw version fails with IndexError or TypeError on a record that is
      too short or whose cost is not a number, and otherwise pairs each
      record above the threshold with its identifier, so every reported cost
      is a number above the threshold. */
  lemma {:induction false} FacilityRecordPairsSpec(nodes: seq<Record>, t: real)
    ensures var r := FacilityRecordPairs(nodes, t);
      && (r.Ok? <==> forall i :: 0 <= i < |nodes| ==> |nodes[i]| >= 2 && nodes[i][|nodes[i]| - 2].Num?)
      && (r.Err? ==> r.fault == IndexError || r.fault == TypeError)
      && (r.Ok? ==> forall p :: p in r.value <==>
            exists i :: 0 <= i < |nodes| && RecordAbove(nodes[i], t) && p == RecordPair(nodes[i]))
      && (r.Ok? ==> forall p :: p in r.value ==> p.1.Num? && p.1.n > t)
    decreases |nodes|
  {
    if |nodes| > 0 {
      FacilityRecordPairsSpec(nodes[1..], t);
      assert forall i :: 1 <= i < |nodes| ==> nodes[i] == nodes[1..][i - 1];
      var r := FacilityRecordPairs(nodes, t);
      if r.Ok? {
        FacilityRecordPairsMembers(nodes, t, r.value);
      }
    }
  }

  /** The membership step of FacilityRecordPairsSpec. */
  lemma FacilityRecordPairsMembers(nodes: seq<Record>, t: real, rows: seq<Pair>)
    requires |nodes| > 0 && FacilityRecordPairs(nodes, t) == Ok(rows)
    requires var rest := FacilityRecordPairs(nodes[1..], t);
      rest.Ok? && forall p :: p in rest.value <==>
        exists i :: 0 <= i < |nodes[1..]| && RecordAbove(nodes[1..][i], t) && p == RecordPair(nodes[1..][i])
    ensures forall p :: p in rows <==> exists i :: 0 <= i < |nodes| && RecordAbove(nodes[i], t) && p == RecordPair(nodes[i])
  {
    var rest := FacilityRecordPairs(nodes[1..], t).value;
    assert rows == if RecordAbove(nodes[0], t) then [RecordPair(nodes[0])] + rest else rest;
    forall p | p in rows ensures exists i :: 0 <= i < |nodes| && RecordAbove(nodes[i], t) && p == RecordPair(nodes[i]) {
      if p in rest {
        var i :| 0 <= i < |nodes[1..]| && RecordAbove(nodes[1..][i], t) && p == RecordPair(nodes[1..][i]);
        assert nodes[1..][i] == nodes[i + 1];
      }
    }
    forall i | 0 <= i < |nodes| && RecordAbove(nodes[i], t) ensures RecordPair(nodes[i]) in rows {
      if i > 0 {
        assert nodes[1..][i - 1] == nodes[i];
      }
    }
  }

  // ---------------------------------------------------------------------
  // query_suppliers_for_part_via_warehouse
  // ---------------------------------------------------------------------

  /** The vertices `G.in_edges(part)` starts from: the part itself when it
      is a vertex; otherwise networkx iterates the string and keeps each
      character that is a vertex. */
  function Bunch(g: Graph, part: string): (b: set<Value>)
    ensures forall v :: v in b ==> g.HasNode(v)
    ensures g.HasNode(Str(part)) ==> b == {Str(part)}
  {
    if g.HasNode(Str(part)) then {Str(part)}
    else set i | 0 <= i < |part| && g.HasNode(Str([part[i]])) :: Str([part[i]])
  }

  /** The warehouses with a WarehouseToParts in-edge into the bunch. */
  function Warehouses(g: Graph, part: string): set<Value>
  {
    set t, u | t in Bunch(g, part) && u in g.Preds(t) && Get(EdgeBase(g, u, t), "relationship_type", Null) == Str("WarehouseToParts") :: u
  }

  /** `query_suppliers_for_part_via_warehouse`: an undirected graph has no
      `in_edges` (AttributeError). */
  function SuppliersGraph(g: Graph, part: string): Result<set<Value>>
  {
    if !g.directed then Err(AttributeError)
    else Ok(set w, s | w in Warehouses(g, part) && s in g.Preds(w) &&
      Get(EdgeBase(g, s, w), "relationship_type", Null) == Str(SupplierToWarehouse) :: s)
  }

  /** On a directed graph and a part that is a vertex, the suppliers are
      exactly the vertices with a SupplierToWarehouse edge into a vertex that
      has a WarehouseToParts edge into the part. */
  lemma SuppliersGraphSpec(g: Graph, part: string)
    requires g.Valid()
    ensures !g.directed <==> SuppliersGraph(g, part) == Err(AttributeError)
    ensures g.directed && g.HasNode(Str(part)) ==> forall s :: s in SuppliersGraph(g, part).value <==>
      exists w :: Linked(g, w, Str(part), "WarehouseToParts") && Linked(g, s, w, SupplierToWarehouse)
  {
    if g.directed && g.HasNode(Str(part)) {
      var r := SuppliersGraph(g, part).value;
      forall s ensures s in r <==> exists w :: Linked(g, w, Str(part), "WarehouseToParts") && Linked(g, s, w, SupplierToWarehouse) {
        if s in r {
          SupplierHasRoute(g, part, s);
        }
        if exists w :: Linked(g, w, Str(part), "WarehouseToParts") && Linked(g, s, w, SupplierToWarehouse) {
          var w :| Linked(g, w, Str(part), "WarehouseToParts") && Linked(g, s, w, SupplierToWarehouse);
          RouteHasSupplier(g, part, s, w);
        }
      }
    }
  }

  /** A supplier found has its route: a SupplierToWarehouse edge into a
      warehouse with a WarehouseToParts edge into the part. */
  lemma SupplierHasRoute(g: Graph, part: string, s: Value)
    requires g.Valid() && g.directed && g.HasNode(Str(part)) && s in SuppliersGraph(g, part).value
    ensures exists w :: Linked(g, w, Str(part), "WarehouseToParts") && Linked(g, s, w, SupplierToWarehouse)
  {
    var w, s' :| w in Warehouses(g, part) && s' in g.Preds(w) &&
      Get(EdgeBase(g, s', w), "relationship_type", Null) == Str(SupplierToWarehouse) && s' == s;
    var t, u :| t in Bunch(g, part) && u in g.Preds(t) &&
      Get(EdgeBase(g, u, t), "relationship_type", Null) == Str("WarehouseToParts") && u == w;
    assert t == Str(part);
    assert Linked(g, w, Str(part), "WarehouseToParts");
    assert Linked(g, s, w, SupplierToWarehouse);
  }

  /** Each route gives its supplier. */
  lemma RouteHasSupplier(g: Graph, part: string, s: Value, w: Value)
    requires g.Valid() && g.directed && g.HasNode(Str(part))
    requires Linked(g, w, Str(part), "WarehouseToParts") && Linked(g, s, w, SupplierToWarehouse)
    ensures s in SuppliersGraph(g, part).value
  {
    assert Str(part) in Bunch(g, part) && w in g.Preds(Str(part));
    assert w in Warehouses(g, part);
    assert s in g.Preds(w);
  }

  /** A part that is not a vertex, no character of which is a vertex
      either, has no suppliers. */
  lemma NoSuppliersForMissingPart(g: Graph, part: string)
    requires g.directed && !g.HasNode(Str(part))
    requires forall i :: 0 <= i < |part| ==> !g.HasNode(Str([part[i]]))
    ensures SuppliersGraph(g, part) == Ok({})
  {
    assert Bunch(g, part) == {};
    assert Warehouses(g, part) == {};
    var r := SuppliersGraph(g, part).value;
    assert forall x :: x !in r;
    assert r == {};
  }

  // ---------------------------------------------------------------------
  // The raw joins against the graph queries
  // ---------------------------------------------------------------------

  /** A relationship record of a declared type whose field names carry
      `relationship_type` at position 0 and at no other zipped position,
      with at least one value before the two endpoints. */
  ghost predicate PlainRecord(relTypes: map<string, seq<string>>, rec: Record)
  {
    && |rec| >= 3 && rec[0].Str? && rec[0].s in relTypes
    && LastAt(relTypes[rec[0].s], 0, |rec| - 2)
    && relTypes[rec[0].s][0] == "relationship_type"
  }

  /** No two records run between the same (source, target) pair. */
  ghost predicate DistinctEnds(recs: seq<Record>)
  {
    forall i, j :: 0 <= i < j < |recs| && |recs[i]| >= 2 && |recs[j]| >= 2 ==>
      (recs[i][|recs[i]| - 2], recs[i][|recs[i]| - 1]) != (recs[j][|recs[j]| - 2], recs[j][|recs[j]| - 1])
  }

  /** Snapshots on which the raw joins can be set against the graph
      queries: directed and decodable, every relationship record plain, and
      no two records on the same (source, target) pair, so no `add_edge`
      overwrites the relationship type another record wrote. */
  ghost predicate Comparable(doc: Document)
  {
    && doc.directed && Decode(doc).Ok?
    && (forall j :: 0 <= j < |doc.relValues| ==> PlainRecord(doc.relTypes, doc.relValues[j]))
    && DistinctEnds(doc.relValues)
  }

  /** The sources of every record of type `rel` are vertices of node type
      `kind`. */
  ghost predicate SourcesAre(g: Graph, recs: seq<Record>, rel: string, kind: string)
  {
    forall j :: 0 <= j < |recs| && |recs[j]| >= 2 && recs[j][0] == Str(rel) ==> IsA(g, recs[j][|recs[j]| - 2], kind)
  }

  /** The edges and edge attributes of `g` are the merge of the directed
      entries `es`. */
  ghost predicate MergedFrom(g: Graph, es: seq<(Value, Value, Attrs)>)
  {
    && (forall x, w :: (x, w) in g.edgeAttrs <==> Touched(es, true, x, w))
    && (forall x, w :: (x, w) in g.edgeAttrs ==> g.edgeAttrs[(x, w)] == MergeEdge(map[], es, true, x, w))
  }

  /** `es` holds one entry per record: its source, its target, and its
      first value as `relationship_type`. */
  ghost predicate EntriesOf(es: seq<(Value, Value, Attrs)>, recs: seq<Record>)
  {
    && |es| == |recs|
    && forall j :: 0 <= j < |es| ==>
         && |recs[j]| >= 2 && es[j].0 == recs[j][|recs[j]| - 2] && es[j].1 == recs[j][|recs[j]| - 1]
         && "relationship_type" in es[j].2 && es[j].2["relationship_type"] == recs[j][0]
  }

  /** The edge a plain record asks for runs from its second-to-last value to
      its last, and carries its first value as `relationship_type`. */
  lemma PlainEntry(relTypes: map<string, seq<string>>, rec: Record)
    requires EdgeShapeOk(relTypes, rec) && PlainRecord(relTypes, rec)
    ensures var e := EdgeEntry(relTypes, rec);
      && e.0 == rec[|rec| - 2] && e.1 == rec[|rec| - 1]
      && "relationship_type" in e.2 && e.2["relationship_type"] == rec[0]
  {
    EdgeEntryAttrs(relTypes, rec, 0);
  }

  /** A comparable snapshot decodes to a well-formed graph whose edges are
      merged from one entry per record, and its records are readable. */
  lemma ComparableMerged(doc: Document)
    requires Comparable(doc)
    ensures Decode(doc).value.Valid() && Decode(doc).value.directed
    ensures MergedFrom(Decode(doc).value, EdgeEntries(doc.relTypes, doc.relValues))
    ensures EntriesOf(EdgeEntries(doc.relTypes, doc.relValues), doc.relValues)
    ensures forall j :: 0 <= j < |doc.relValues| ==> Readable(doc.relValues[j])
  {
    var recs := doc.relValues;
    DecodeSpec(doc);
    forall j | 0 <= j < |recs|
      ensures EdgeShapeOk(doc.relTypes, recs[j]) && Readable(recs[j])
      ensures var e := EdgeEntry(doc.relTypes, recs[j]);
        && e.0 == recs[j][|recs[j]| - 2] && e.1 == recs[j][|recs[j]| - 1]
        && "relationship_type" in e.2 && e.2["relationship_type"] == recs[j][0]
    {
      assert EdgeRecordOk(doc.relTypes, recs[j]);
      PlainEntry(doc.relTypes, recs[j]);
    }
    EdgeEntriesAll(doc.relTypes, recs);
  }

  /** A record of type `rel` gives the graph an edge of that type from its
      source to its target. */
  lemma RecordLinks(g: Graph, es: seq<(Value, Value, Attrs)>, recs: seq<Record>, j: nat, rel: string, v: Value)
    requires MergedFrom(g, es) && EntriesOf(es, recs) && DistinctEnds(recs)
    requires j < |recs| && IsLink(recs[j], rel, v)
    ensures Linked(g, recs[j][|recs[j]| - 2], v, rel)
  {
    var u := recs[j][|recs[j]| - 2];
    assert forall j' :: j < j' < |es| ==> !SamePair(true, u, v, es[j'].0, es[j'].1);
    EdgeMerged(g, es, true, u, v, j, "relationship_type");
  }

  /** An edge of type `rel` in the graph comes from a record of that type
      with the same source and target. */
  lemma LinkHasRecord(g: Graph, es: seq<(Value, Value, Attrs)>, recs: seq<Record>, u: Value, v: Value, rel: string)
    requires MergedFrom(g, es) && EntriesOf(es, recs) && DistinctEnds(recs)
    requires Linked(g, u, v, rel)
    ensures exists j :: 0 <= j < |recs| && IsLink(recs[j], rel, v) && recs[j][|recs[j]| - 2] == u
  {
    TouchedSpec(es, true, u, v);
    var j :| 0 <= j < |es| && SamePair(true, u, v, es[j].0, es[j].1);
    assert forall j' :: j < j' < |es| ==> !SamePair(true, u, v, es[j'].0, es[j'].1);
    EdgeMerged(g, es, true, u, v, j, "relationship_type");
    assert IsLink(recs[j], rel, v);
  }

  /** On a comparable snapshot, the graph has an edge of type `rel` from
      `u` to `v` exactly when some record of that type runs from `u` to
      `v`. */
  lemma LinkedRecords(doc: Document, u: Value, v: Value, rel: string)
    requires Comparable(doc)
    ensures Linked(Decode(doc).value, u, v, rel) <==>
      exists j :: 0 <= j < |doc.relValues| && IsLink(doc.relValues[j], rel, v) && doc.relValues[j][|doc.relValues[j]| - 2] == u
  {
    var recs := doc.relValues;
    var g := Decode(doc).value;
    var es := EdgeEntries(doc.relTypes, recs);
    ComparableMerged(doc);
    if Linked(g, u, v, rel) {
      LinkHasRecord(g, es, recs, u, v, rel);
    }
    if exists j :: 0 <= j < |recs| && IsLink(recs[j], rel, v) && recs[j][|recs[j]| - 2] == u {
      var j :| 0 <= j < |recs| && IsLink(recs[j], rel, v) && recs[j][|recs[j]| - 2] == u;
      RecordLinks(g, es, recs, j, rel, v);
    }
  }

  /** An edge's endpoints are listed vertices. */
  lemma LinkedListed(g: Graph, u: Value, v: Value, rel: string)
    requires g.Valid() && Linked(g, u, v, rel)
    ensures u in g.order && v in g.order
  {
  }

  /** A supplier the raw join finds has its route in the graph. */
  lemma JoinedSupplier(g: Graph, es: seq<(Value, Value, Attrs)>, recs: seq<Record>, part: string, s: Value)
    requires MergedFrom(g, es) && EntriesOf(es, recs) && DistinctEnds(recs)
    requires Joined(recs, recs, "WarehouseToParts", Str(part), SupplierToWarehouse, s)
    ensures exists w :: (Linked(g, w, Str(part), "WarehouseToParts") && Linked(g, s, w, SupplierToWarehouse))
  {
    var i :| 0 <= i < |recs| && IsLink(recs[i], "WarehouseToParts", Str(part)) &&
      Gathered(recs, SupplierToWarehouse, recs[i][|recs[i]| - 2], s);
    var w := recs[i][|recs[i]| - 2];
    assert Gathered(recs, SupplierToWarehouse, w, s);
    var j :| 0 <= j < |recs| && IsLink(recs[j], SupplierToWarehouse, w) && s == recs[j][|recs[j]| - 2];
    RecordLinks(g, es, recs, i, "WarehouseToParts", Str(part));
    RecordLinks(g, es, recs, j, SupplierToWarehouse, w);
  }

  /** A route in the graph is found by the raw join. */
  lemma SupplierJoined(g: Graph, es: seq<(Value, Value, Attrs)>, recs: seq<Record>, part: string, s: Value, w: Value)
    requires MergedFrom(g, es) && EntriesOf(es, recs) && DistinctEnds(recs)
    requires Linked(g, w, Str(part), "WarehouseToParts") && Linked(g, s, w, SupplierToWarehouse)
    ensures Joined(recs, recs, "WarehouseToParts", Str(part), SupplierToWarehouse, s)
  {
    LinkHasRecord(g, es, recs, w, Str(part), "WarehouseToParts");
    LinkHasRecord(g, es, recs, s, w, SupplierToWarehouse);
    var i :| 0 <= i < |recs| && IsLink(recs[i], "WarehouseToParts", Str(part)) && recs[i][|recs[i]| - 2] == w;
    assert Gathered(recs, SupplierToWarehouse, recs[i][|recs[i]| - 2], s);
  }

  /** On a comparable snapshot containing the part, the raw suppliers query
      succeeds and returns exactly what the graph query returns. */
  lemma SuppliersAgree(doc: Document, part: string)
    requires Comparable(doc) && Decode(doc).value.HasNode(Str(part))
    ensures Join({}, doc.relValues, doc.relValues, "WarehouseToParts", Str(part), SupplierToWarehouse) ==
      SuppliersGraph(Decode(doc).value, part)
  {
    var recs := doc.relValues;
    var g := Decode(doc).value;
    var es := EdgeEntries(doc.relTypes, recs);
    ComparableMerged(doc);
    JoinSpec({}, recs, recs, "WarehouseToParts", Str(part), SupplierToWarehouse);
    SuppliersGraphSpec(g, part);
    var a := Join({}, recs, recs, "WarehouseToParts", Str(part), SupplierToWarehouse).value;
    var b := SuppliersGraph(g, part).value;
    forall s ensures s in a <==> s in b {
      if s in a {
        JoinedSupplier(g, es, recs, part, s);
      }
      if s in b {
        var w :| Linked(g, w, Str(part), "WarehouseToParts") && Linked(g, s, w, SupplierToWarehouse);
        SupplierJoined(g, es, recs, part, s, w);
      }
    }
    assert a == b;
  }

  /** A part the raw join finds goes into a facility making the offering. */
  lemma JoinedPart(g: Graph, es: seq<(Value, Value, Attrs)>, recs: seq<Record>, po: string, p: Value)
    requires MergedFrom(g, es) && EntriesOf(es, recs) && DistinctEnds(recs) && g.Valid()
    requires SourcesAre(g, recs, "FacilityToProductOfferings", "Facility") && SourcesAre(g, recs, "PartsToFacility", "Parts")
    requires Joined(recs, recs, "FacilityToProductOfferings", Str(po), "PartsToFacility", p)
    ensures p in g.order && exists f :: f in g.order && Makes(g, f, po) && Feeds(g, p, f)
  {
    var i :| 0 <= i < |recs| && IsLink(recs[i], "FacilityToProductOfferings", Str(po)) &&
      Gathered(recs, "PartsToFacility", recs[i][|recs[i]| - 2], p);
    var f := recs[i][|recs[i]| - 2];
    assert Gathered(recs, "PartsToFacility", f, p);
    var j :| 0 <= j < |recs| && IsLink(recs[j], "PartsToFacility", f) && p == recs[j][|recs[j]| - 2];
    RecordLinks(g, es, recs, i, "FacilityToProductOfferings", Str(po));
    RecordLinks(g, es, recs, j, "PartsToFacility", f);
    LinkedListed(g, f, Str(po), "FacilityToProductOfferings");
    LinkedListed(g, p, f, "PartsToFacility");
    assert Makes(g, f, po) && Feeds(g, p, f);
  }

  /** A part going into a facility that makes the offering is found by the
      raw join. */
  lemma PartJoined(g: Graph, es: seq<(Value, Value, Attrs)>, recs: seq<Record>, po: string, p: Value, f: Value)
    requires MergedFrom(g, es) && EntriesOf(es, recs) && DistinctEnds(recs)
    requires Makes(g, f, po) && Feeds(g, p, f)
    ensures Joined(recs, recs, "FacilityToProductOfferings", Str(po), "PartsToFacility", p)
  {
    LinkHasRecord(g, es, recs, f, Str(po), "FacilityToProductOfferings");
    LinkHasRecord(g, es, recs, p, f, "PartsToFacility");
    var i :| 0 <= i < |recs| && IsLink(recs[i], "FacilityToProductOfferings", Str(po)) && recs[i][|recs[i]| - 2] == f;
    assert Gathered(recs, "PartsToFacility", recs[i][|recs[i]| - 2], p);
  }

  /** On a comparable snapshot whose FacilityToProductOfferings records start
      at Facility vertices and whose PartsToFacility records start at Parts
      vertices, the raw parts query succeeds and returns exactly the parts
      the graph query finds. */
  lemma PartsAgree(doc: Document, po: string)
    requires Comparable(doc)
    requires SourcesAre(Decode(doc).value, doc.relValues, "FacilityToProductOfferings", "Facility")
    requires SourcesAre(Decode(doc).value, doc.relValues, "PartsToFacility", "Parts")
    ensures var r := Join({}, doc.relValues, doc.relValues, "FacilityToProductOfferings", Str(po), "PartsToFacility");
      var g := Decode(doc).value;
      r.Ok? && forall p :: p in r.value <==> p in g.order && exists f :: f in g.order && Makes(g, f, po) && Feeds(g, p, f)
  {
    var recs := doc.relValues;
    var g := Decode(doc).value;
    var es := EdgeEntries(doc.relTypes, recs);
    ComparableMerged(doc);
    JoinSpec({}, recs, recs, "FacilityToProductOfferings", Str(po), "PartsToFacility");
    var a := Join({}, recs, recs, "FacilityToProductOfferings", Str(po), "PartsToFacility").value;
    forall p ensures p in a <==> p in g.order && exists f :: f in g.order && Makes(g, f, po) && Feeds(g, p, f) {
      if p in a {
        JoinedPart(g, es, recs, po, p);
      }
      if p in g.order && exists f :: f in g.order && Makes(g, f, po) && Feeds(g, p, f) {
        var f :| f in g.order && Makes(g, f, po) && Feeds(g, p, f);
        PartJoined(g, es, recs, po, p, f);
      }
    }
  }
}
