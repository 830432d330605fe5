/**
 * The product-offering queries over a decoded snapshot
 * (product_offering_queries.py; pages/Type2.py carries identical copies):
 * the parts that feed a facility making a product offering, and the
 * product offerings that are cheap enough to make and in enough demand.
 */
module ProductOffering {
  import opened Json
  import opened Graphs

  /** `attrs.get("node_type") == kind`. */
  predicate IsA(g: Graph, v: Value, kind: string)
  {
    Get(AttrsOf(g, v), "node_type", Null) == Str(kind)
  }

  /** `graph.has_edge(u, v)` and `graph[u][v].get("relationship_type") == rel`. */
  predicate Linked(g: Graph, u: Value, v: Value, rel: string)
  {
    g.HasEdge(u, v) && Get(g.edgeAttrs[(u, v)], "relationship_type", Null) == Str(rel)
  }

  /** A facility that makes the product offering. */
  predicate Makes(g: Graph, f: Value, po: string)
  {
    IsA(g, f, "Facility") && Linked(g, f, Str(po), "FacilityToProductOfferings")
  }

  /** A part that goes into the facility. */
  predicate Feeds(g: Graph, p: Value, f: Value)
  {
    IsA(g, p, "Parts") && Linked(g, p, f, "PartsToFacility")
  }

  // ---------------------------------------------------------------------
  // query_parts_for_product_offering
  // ---------------------------------------------------------------------

  /** `query_parts_for_product_offering`: the vertices of type Parts with a
      PartsToFacility edge into some vertex of type Facility that has a
      FacilityToProductOfferings edge into the product offering; each part
      once. */
  method PartsForOffering(g: Graph, po: string) returns (parts: set<Value>)
    ensures forall p :: p in parts <==>
      p in g.order && exists f :: f in g.order && Makes(g, f, po) && Feeds(g, p, f)
  {
    parts := {};
    for i := 0 to |g.order|
      invariant forall p :: p in parts <==>
        p in g.order && exists k :: 0 <= k < i && Makes(g, g.order[k], po) && Feeds(g, p, g.order[k])
    {
      var facility := g.order[i];
      if IsA(g, facility, "Facility") && g.HasEdge(facility, Str(po)) {
        if Get(g.edgeAttrs[(facility, Str(po))], "relationship_type", Null) == Str("FacilityToProductOfferings") {
          ghost var before := parts;
          for j := 0 to |g.order|
            invariant forall p :: p in parts <==>
              p in before || exists m :: 0 <= m < j && g.order[m] == p && Feeds(g, p, facility)
          {
            var part := g.order[j];
            if IsA(g, part, "Parts") && g.HasEdge(part, facility) {
              if Get(g.edgeAttrs[(part, facility)], "relationship_type", Null) == Str("PartsToFacility") {
                parts := parts + {part};
              }
            }
          }
        }
      }
    }
    forall p | p in g.order && exists f :: f in g.order && Makes(g, f, po) && Feeds(g, p, f)
      ensures p in parts
    {
      var f :| f in g.order && Makes(g, f, po) && Feeds(g, p, f);
      var k :| 0 <= k < |g.order| && g.order[k] == f;
    }
  }

  /** A product offering that is not a vertex has no facility making it, so
      its parts list is empty. */
  lemma NoPartsForMissingOffering(g: Graph, po: string)
    requires g.Valid() && !g.HasNode(Str(po))
    ensures forall f :: !Makes(g, f, po)
  {
  }

  // ---------------------------------------------------------------------
  // query_profitable_products
  // ---------------------------------------------------------------------

  /** One result tuple: `(node, making_cost, demand)`. */
  type Row = (Value, Value, Value)

  /** The demand the query reads: `attrs.get("demand", 0)`. */
  function Demand(a: Attrs): Value
  {
    Get(a, "demand", Num(0.0))
  }

  /** A product offering the query selects: it has a numeric cost within the
      ceiling and a numeric demand (0 when missing) at least the floor; a
      missing cost counts as infinite and is never within the ceiling. */
  predicate Profitable(g: Graph, v: Value, costMax: real, demandMin: real)
  {
    var a := AttrsOf(g, v);
    && IsA(g, v, "ProductOffering")
    && "cost" in a && a["cost"].Num? && a["cost"].n <= costMax
    && Demand(a).Num? && Demand(a).n >= demandMin
  }

  /** Comparing a non-number with a threshold raises TypeError: a cost that
      is present but not a number, or a demand that is not a number once the
      cost has passed. */
  predicate Raises(g: Graph, v: Value, costMax: real)
  {
    var a := AttrsOf(g, v);
    && IsA(g, v, "ProductOffering")
    && "cost" in a
    && (!a["cost"].Num? || (a["cost"].n <= costMax && !Demand(a).Num?))
  }

  /** What the loop body does with one vertex. */
  function Visit(g: Graph, v: Value, costMax: real, demandMin: real): (r: Result<Option<Row>>)
    ensures r.Err? <==> Raises(g, v, costMax)
    ensures r.Err? ==> r.fault == TypeError
    ensures r.Ok? && r.value.Some? <==> Profitable(g, v, costMax, demandMin)
    ensures r.Ok? && r.value.Some? ==> r.value.value == (v, AttrsOf(g, v)["cost"], Demand(AttrsOf(g, v)))
  {
    var a := AttrsOf(g, v);
    if !IsA(g, v, "ProductOffering") || "cost" !in a then Ok(None)
    else match AtMost(a["cost"], costMax)
      case Err(e) => Err(e)
      case Ok(cheap) =>
        if !cheap then Ok(None)
        else match AtLeast(Demand(a), demandMin)
          case Err(e) => Err(e)
          case Ok(wanted) => if wanted then Ok(Some((v, a["cost"], Demand(a)))) else Ok(None)
  }

  /** The rows the loop has collected after visiting `vs`. */
  function Collect(g: Graph, vs: seq<Value>, costMax: real, demandMin: real): Result<seq<Row>>
  {
    if |vs| == 0 then Ok([])
    else match Collect(g, vs[..|vs| - 1], costMax, demandMin)
      case Err(e) => Err(e)
      case Ok(rows) =>
        match Visit(g, vs[|vs| - 1], costMax, demandMin)
        case Err(e) => Err(e)
        case Ok(row) => Ok(if row.Some? then rows + [row.value] else rows)
  }

  /** `query_profitable_products`: the vertices in vertex order. */
  method ProfitableProducts(g: Graph, costMax: real, demandMin: real) returns (r: Result<seq<Row>>)
    ensures r == Collect(g, g.order, costMax, demandMin)
  {
    var rows: seq<Row> := [];
    for i := 0 to |g.order|
      invariant Collect(g, g.order[..i], costMax, demandMin) == Ok(rows)
    {
      assert g.order[..i + 1][..i] == g.order[..i];
      var node := g.order[i];
      var visit := Visit(g, node, costMax, demandMin);
      if visit.Err? {
        CollectStops(g, g.order, i + 1, costMax, demandMin);
        return Err(visit.fault);
      }
      if visit.value.Some? {
        rows := rows + [visit.value.value];
      }
    }
    assert g.order[..|g.order|] == g.order;
    return Ok(rows);
  }

  /** Once a vertex raises, the rest of the vertices are not visited. */
  lemma {:induction false} CollectStops(g: Graph, vs: seq<Value>, n: nat, costMax: real, demandMin: real)
    requires n <= |vs| && Collect(g, vs[..n], costMax, demandMin).Err?
    ensures Collect(g, vs, costMax, demandMin) == Collect(g, vs[..n], costMax, demandMin)
    decreases |vs|
  {
    if n < |vs| {
      assert vs[..|vs| - 1][..n] == vs[..n];
      CollectStops(g, vs[..|vs| - 1], n, costMax, demandMin);
    } else {
      assert vs[..n] == vs;
    }
  }

  /** The query fails exactly when some vertex raises, and otherwise returns
      one row `(v, cost, demand)` for each selected vertex and nothing else;
      a vertex listed once appears at most once. */
  lemma {:induction false} CollectSpec(g: Graph, vs: seq<Value>, costMax: real, demandMin: real)
    ensures var r := Collect(g, vs, costMax, demandMin);
      && (r.Ok? <==> forall i :: 0 <= i < |vs| ==> !Raises(g, vs[i], costMax))
      && (r.Err? ==> r.fault == TypeError)
      && (r.Ok? ==> forall row :: row in r.value <==>
            exists i :: 0 <= i < |vs| && Profitable(g, vs[i], costMax, demandMin) &&
              row == (vs[i], AttrsOf(g, vs[i])["cost"], Demand(AttrsOf(g, vs[i]))))
      && (r.Ok? && NoDup(vs) ==> forall i, j :: 0 <= i < j < |r.value| ==> r.value[i].0 != r.value[j].0)
  {
    if |vs| > 0 {
      var init, v := vs[..|vs| - 1], vs[|vs| - 1];
      CollectSpec(g, init, costMax, demandMin);
      var r := Collect(g, vs, costMax, demandMin);
      if r.Ok? {
        var rows := Collect(g, init, costMax, demandMin).value;
        forall row | row in rows ensures row.0 in init {
        }
        forall row ensures row in r.value <==>
          exists i :: 0 <= i < |vs| && Profitable(g, vs[i], costMax, demandMin) &&
            row == (vs[i], AttrsOf(g, vs[i])["cost"], Demand(AttrsOf(g, vs[i])))
        {
          if row in rows {
            var i :| 0 <= i < |init| && Profitable(g, init[i], costMax, demandMin) &&
              row == (init[i], AttrsOf(g, init[i])["cost"], Demand(AttrsOf(g, init[i])));
            assert vs[i] == init[i];
          }
        }
      }
    }
  }
}
