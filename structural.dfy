/**
 * The structural queries (structural_queries.py): the ego graph of a
 * vertex, its attributes, its incident edges, a shortest path, and its
 * ancestors and descendants. networkx answers these by breadth-first
 * search; here the vertices within `k` steps are defined level by level
 * and related to walks, which is what the queries promise.
 */
module Structural {
  import opened Json
  import opened Graphs
  import opened Decoder

  // ---------------------------------------------------------------------
  // Reachability
  // ---------------------------------------------------------------------

  /** One step from `u`: to its successors (its neighbours when the graph is
      undirected), or, going backward, to its predecessors. */
  function Step(g: Graph, fwd: bool, u: Value): set<Value>
  {
    if fwd then g.Succ(u) else g.Preds(u)
  }

  /** Everything one step from some vertex of `vs`. */
  function Next(g: Graph, fwd: bool, vs: set<Value>): set<Value>
  {
    set u, v | u in vs && v in Step(g, fwd, u) :: v
  }

  /** The vertices at most `k` steps from `s`: the levels of a breadth-first
      search cut off at `k`. */
  function Hops(g: Graph, fwd: bool, s: Value, k: nat): set<Value>
  {
    if k == 0 then {s} else Hops(g, fwd, s, k - 1) + Next(g, fwd, Hops(g, fwd, s, k - 1))
  }

  /** A walk: every vertex is one step from the one before it. */
  predicate IsWalk(g: Graph, fwd: bool, w: seq<Value>)
  {
    |w| > 0 && forall i :: 0 <= i < |w| - 1 ==> w[i + 1] in Step(g, fwd, w[i])
  }

  /** A walk from `s` to `v`. */
  predicate WalkFromTo(g: Graph, fwd: bool, w: seq<Value>, s: Value, v: Value)
  {
    IsWalk(g, fwd, w) && w[0] == s && w[|w| - 1] == v
  }

  lemma {:induction false} HopsGrow(g: Graph, fwd: bool, s: Value, j: nat, k: nat)
    requires j <= k
    ensures Hops(g, fwd, s, j) <= Hops(g, fwd, s, k)
    decreases k
  {
    if j < k {
      HopsGrow(g, fwd, s, j, k - 1);
    }
  }

  /** Every vertex within `k` steps is the end of a walk with at most `k`
      steps. */
  lemma {:induction false} HopsWalk(g: Graph, fwd: bool, s: Value, k: nat, v: Value) returns (w: seq<Value>)
    requires v in Hops(g, fwd, s, k)
    ensures WalkFromTo(g, fwd, w, s, v) && |w| <= k + 1
  {
    if k == 0 {
      w := [s];
    } else if v in Hops(g, fwd, s, k - 1) {
      w := HopsWalk(g, fwd, s, k - 1, v);
    } else {
      var u :| u in Hops(g, fwd, s, k - 1) && v in Step(g, fwd, u);
      var w0 := HopsWalk(g, fwd, s, k - 1, u);
      w := w0 + [v];
    }
  }

  /** The end of a walk with at most `k` steps is within `k` steps. */
  lemma {:induction false} WalkHops(g: Graph, fwd: bool, w: seq<Value>, k: nat)
    requires IsWalk(g, fwd, w) && |w| <= k + 1
    ensures w[|w| - 1] in Hops(g, fwd, w[0], k)
    decreases |w|
  {
    if |w| == 1 {
      HopsGrow(g, fwd, w[0], 0, k);
    } else {
      var w0 := w[..|w| - 1];
      assert IsWalk(g, fwd, w0);
      WalkHops(g, fwd, w0, k - 1);
      assert w[|w| - 1] in Step(g, fwd, w0[|w0| - 1]);
    }
  }

  /** The levels mean what they should: `v` is within `k` steps of `s`
      exactly when some walk of at most `k` steps leads from `s` to `v`. */
  lemma HopsSpec(g: Graph, fwd: bool, s: Value, k: nat, v: Value)
    ensures v in Hops(g, fwd, s, k) <==> exists w :: WalkFromTo(g, fwd, w, s, v) && |w| <= k + 1
  {
    if v in Hops(g, fwd, s, k) {
      var w := HopsWalk(g, fwd, s, k, v);
    }
    if w :| WalkFromTo(g, fwd, w, s, v) && |w| <= k + 1 {
      WalkHops(g, fwd, w, k);
    }
  }

  /** One step never leaves the vertices of a well-formed graph. */
  lemma StepInside(g: Graph, fwd: bool, u: Value)
    requires g.Valid()
    ensures Step(g, fwd, u) <= g.attrs.Keys
  {
  }

  lemma {:induction false} HopsInside(g: Graph, fwd: bool, s: Value, k: nat)
    requires g.Valid() && s in g.attrs
    ensures Hops(g, fwd, s, k) <= g.attrs.Keys
  {
    if k > 0 {
      HopsInside(g, fwd, s, k - 1);
      forall v | v in Next(g, fwd, Hops(g, fwd, s, k - 1)) ensures v in g.attrs {
        var u :| u in Hops(g, fwd, s, k - 1) && v in Step(g, fwd, u);
        StepInside(g, fwd, u);
      }
    }
  }

  /** Once a level adds nothing, no later level does. */
  lemma {:induction false} HopsStable(g: Graph, fwd: bool, s: Value, j: nat, k: nat)
    requires j <= k && Hops(g, fwd, s, j + 1) == Hops(g, fwd, s, j)
    ensures Hops(g, fwd, s, k) == Hops(g, fwd, s, j)
    decreases k
  {
    if j < k {
      HopsStable(g, fwd, s, j, k - 1);
    }
  }

  /** Up to level `m`, either every level grew or some level stood still. */
  lemma {:induction false} HopsCount(g: Graph, fwd: bool, s: Value, m: nat) returns (stable: bool, j: nat)
    ensures stable ==> j < m && Hops(g, fwd, s, j + 1) == Hops(g, fwd, s, j)
    ensures !stable ==> |Hops(g, fwd, s, m)| >= m + 1
  {
    if m == 0 {
      stable, j := false, 0;
    } else {
      stable, j := HopsCount(g, fwd, s, m - 1);
      if !stable {
        var a, b := Hops(g, fwd, s, m - 1), Hops(g, fwd, s, m);
        if b == a {
          stable, j := true, m - 1;
          assert Hops(g, fwd, s, j + 1) == b;
        } else {
          HopsGrow(g, fwd, s, m - 1, m);
          SubsetCard(a, b);
        }
      }
    }
  }

  lemma SubsetCard(a: set<Value>, b: set<Value>)
    requires a <= b
    ensures |a| <= |b| && (a != b ==> |a| < |b|)
  {
    assert b == a + (b - a);
    if a != b {
      var x :| x in b && x !in a;
      assert x in b - a;
    }
  }

  lemma {:induction false} DistinctCard(s: seq<Value>)
    requires NoDup(s)
    ensures |set x | x in s| == |s|
  {
    if |s| > 0 {
      var init := s[..|s| - 1];
      DistinctCard(init);
      assert (set x | x in s) == (set x | x in init) + {s[|s| - 1]};
    }
  }

  /** How many levels a search needs: one per vertex. */
  function Bound(g: Graph): nat
  {
    |g.order|
  }

  /** No walk, however long, reaches beyond the first `Bound(g)` levels. */
  lemma Saturate(g: Graph, fwd: bool, s: Value, k: nat)
    requires g.Valid() && s in g.attrs
    ensures Hops(g, fwd, s, k) <= Hops(g, fwd, s, Bound(g))
  {
    var n := Bound(g);
    if k <= n {
      HopsGrow(g, fwd, s, k, n);
    } else {
      var stable, j := HopsCount(g, fwd, s, n);
      if stable {
        HopsStable(g, fwd, s, j, k);
        HopsStable(g, fwd, s, j, n);
      } else {
        HopsInside(g, fwd, s, n);
        DistinctCard(g.order);
        assert g.attrs.Keys == set x | x in g.order;
        SubsetCard(Hops(g, fwd, s, n), g.attrs.Keys);
      }
    }
  }

  /** Everything reachable from `s`. */
  function Reach(g: Graph, fwd: bool, s: Value): set<Value>
  {
    Hops(g, fwd, s, Bound(g))
  }

  /** `v` is reachable exactly when a walk of any length leads there. */
  lemma ReachSpec(g: Graph, fwd: bool, s: Value, v: Value)
    requires g.Valid() && s in g.attrs
    ensures v in Reach(g, fwd, s) <==> exists w :: WalkFromTo(g, fwd, w, s, v)
  {
    if v in Reach(g, fwd, s) {
      var w := HopsWalk(g, fwd, s, Bound(g), v);
    }
    if w :| WalkFromTo(g, fwd, w, s, v) {
      WalkHops(g, fwd, w, |w| - 1);
      Saturate(g, fwd, s, |w| - 1);
    }
  }

  // ---------------------------------------------------------------------
  // ego_graph_query
  // ---------------------------------------------------------------------

  /** The elements of `s` that lie in `vs`, in order. */
  function Keep(s: seq<Value>, vs: set<Value>): (r: seq<Value>)
    ensures forall x :: x in r <==> x in s && x in vs
    ensures NoDup(s) ==> NoDup(r)
  {
    if |s| == 0 then []
    else
      var rest := Keep(s[1..], vs);
      assert NoDup(s) ==> s[0] !in s[1..];
      (if s[0] in vs then [s[0]] else []) + rest
  }

  /** `G.subgraph(vs).copy()`: the vertices of `vs`, their attributes, and
      every edge between two of them with its attributes. Vertices and
      neighbours keep the graph's order; networkx's subgraph view iterates
      the kept set instead when it holds fewer than half the vertices, so
      its copy may list them in another order. */
  function Induced(g: Graph, vs: set<Value>): Graph
  {
    Graph(
      g.directed,
      Keep(g.order, vs),
      map x | x in g.attrs && x in vs :: g.attrs[x],
      map x | x in g.adj && x in vs :: Keep(g.adj[x], vs),
      map e | e in g.edgeAttrs && e.0 in vs && e.1 in vs :: g.edgeAttrs[e])
  }

  lemma InducedValid(g: Graph, vs: set<Value>)
    requires g.Valid()
    ensures Induced(g, vs).Valid()
  {
    var h := Induced(g, vs);
    assert h.OrderOk();
    assert h.AdjOk();
    forall u, w ensures (u, w) in h.edgeAttrs <==> u in h.adj && w in h.adj[u] {
    }
  }

  /** The radius networkx effectively uses: a negative cutoff still yields
      the centre. */
  function Radius(radius: int): nat
  {
    if radius < 0 then 0 else radius
  }

  /** `ego_graph_query`: `nx.ego_graph(graph, node_id, radius)`, which
      follows edge direction. */
  function EgoGraph(g: Graph, id: string, radius: int): Result<Graph>
  {
    if Str(id) !in g.attrs then Err(NodeNotFound)
    else Ok(Induced(g, Hops(g, true, Str(id), Radius(radius))))
  }

  /** The ego graph holds exactly the vertices reachable from the centre in
      at most `radius` steps along edge direction, with their attributes,
      and every edge of the graph between two of them, with its attributes;
      a missing centre is NodeNotFound. */
  lemma EgoGraphSpec(g: Graph, id: string, radius: int)
    requires g.Valid()
    ensures EgoGraph(g, id, radius).Ok? <==> g.HasNode(Str(id))
    ensures EgoGraph(g, id, radius).Err? ==> EgoGraph(g, id, radius).fault == NodeNotFound
    ensures EgoGraph(g, id, radius).Ok? ==>
      var h := EgoGraph(g, id, radius).value;
      && h.Valid()
      && h.directed == g.directed
      && h.HasNode(Str(id))
      && (forall x :: h.HasNode(x) <==>
            exists w :: WalkFromTo(g, true, w, Str(id), x) && |w| <= Radius(radius) + 1)
      && (forall x :: x in h.attrs ==> h.attrs[x] == g.attrs[x])
      && (forall x, y :: h.HasEdge(x, y) <==> g.HasEdge(x, y) && h.HasNode(x) && h.HasNode(y))
      && (forall x, y :: h.HasEdge(x, y) ==> h.edgeAttrs[(x, y)] == g.edgeAttrs[(x, y)])
  {
    if g.HasNode(Str(id)) {
      var ball := Hops(g, true, Str(id), Radius(radius));
      var h := Induced(g, ball);
      InducedValid(g, ball);
      HopsGrow(g, true, Str(id), 0, Radius(radius));
      HopsInside(g, true, Str(id), Radius(radius));
      InducedSpec(g, ball);
      forall x ensures h.HasNode(x) <==>
        exists w :: WalkFromTo(g, true, w, Str(id), x) && |w| <= Radius(radius) + 1
      {
        HopsSpec(g, true, Str(id), Radius(radius), x);
      }
    }
  }

  lemma InducedSpec(g: Graph, vs: set<Value>)
    requires vs <= g.attrs.Keys
    ensures var h := Induced(g, vs);
      && h.directed == g.directed
      && h.attrs.Keys == vs
      && (forall x :: x in h.attrs ==> h.attrs[x] == g.attrs[x])
      && (forall x, y :: h.HasEdge(x, y) <==> g.HasEdge(x, y) && h.HasNode(x) && h.HasNode(y))
      && (forall x, y :: h.HasEdge(x, y) ==> h.edgeAttrs[(x, y)] == g.edgeAttrs[(x, y)])
  {
  }

  /** With a radius of zero or less the ego graph is the centre alone. */
  lemma EgoGraphCentre(g: Graph, id: string, radius: int)
    requires radius <= 0 && g.HasNode(Str(id))
    ensures EgoGraph(g, id, radius).Ok? && EgoGraph(g, id, radius).value.attrs.Keys == {Str(id)}
  {
  }

  // ---------------------------------------------------------------------
  // node_details_query
  // ---------------------------------------------------------------------

  /** `graph.nodes[node_id]`: the attribute dictionary, KeyError when
      absent. */
  function NodeDetails(g: Graph, id: string): (r: Result<Attrs>)
    ensures r.Ok? <==> g.HasNode(Str(id))
    ensures r.Err? ==> r.fault == KeyError
  {
    if Str(id) in g.attrs then Ok(g.attrs[Str(id)]) else Err(KeyError)
  }

  /** On a decoded snapshot, the details of a vertex are the fields of all
      its node records merged in order, later ones winning; an identifier
      that no record names is a KeyError. */
  lemma NodeDetailsDecoded(doc: Document, id: string)
    requires Decode(doc).Ok?
    ensures var ns := NodeEntries(doc.nodeTypes, doc.nodeValues);
      var es := EdgeEntries(doc.relTypes, doc.relValues);
      var r := NodeDetails(Decode(doc).value, id);
      && (r.Ok? <==> Str(id) in Ids(ns) + Ends(es))
      && (r.Ok? ==> r.value == MergeNode(map[], ns, Str(id)))
  {
    DecodeSpec(doc);
  }

  // ---------------------------------------------------------------------
  // retrieve_edge_attributes
  // ---------------------------------------------------------------------

  /** One entry of the result: `{"from": .., "to": .., "attributes": ..}`. */
  datatype EdgeInfo = EdgeInfo(source: Value, target: Value, attributes: Attrs)

  /** `retrieve_edge_attributes`: one entry per neighbour (successor when
      directed) of the vertex, in adjacency order; `graph.neighbors` of a
      missing vertex raises NetworkXError. */
  method RetrieveEdgeAttributes(g: Graph, id: string) returns (r: Result<seq<EdgeInfo>>)
    ensures r.Err? <==> Str(id) !in g.adj
    ensures r.Err? ==> r.fault == NetworkXError
    ensures r.Ok? ==> forall e :: e in r.value ==>
      e.source == Str(id) && g.HasEdge(e.source, e.target) && e.attributes == g.edgeAttrs[(e.source, e.target)]
    ensures r.Ok? && g.EdgesOk() ==>
      var nbrs := g.adj[Str(id)];
      |r.value| == |nbrs| && forall i :: 0 <= i < |nbrs| ==> r.value[i].target == nbrs[i]
  {
    var n := Str(id);
    if n !in g.adj {
      return Err(NetworkXError);
    }
    var nbrs := g.adj[n];
    var edges: seq<EdgeInfo> := [];
    for i := 0 to |nbrs|
      invariant forall e :: e in edges ==>
        e.source == n && g.HasEdge(e.source, e.target) && e.attributes == g.edgeAttrs[(e.source, e.target)]
      invariant g.EdgesOk() ==> |edges| == i && forall k :: 0 <= k < i ==> edges[k].target == nbrs[k]
    {
      var neighbor := nbrs[i];
      if g.HasEdge(n, neighbor) {
        edges := edges + [EdgeInfo(n, neighbor, g.edgeAttrs[(n, neighbor)])];
      }
    }
    return Ok(edges);
  }

  // ---------------------------------------------------------------------
  // find_shortest_path
  // ---------------------------------------------------------------------

  /** The first vertex, in vertex order from `i` on, that lies in `vs` and
      has `t` one step on. */
  function Back(g: Graph, vs: set<Value>, t: Value, i: nat): (r: Option<Value>)
    ensures r.Some? ==> r.value in vs && t in g.Succ(r.value)
    ensures r.None? ==> forall k :: i <= k < |g.order| ==> !(g.order[k] in vs && t in g.Succ(g.order[k]))
    decreases |g.order| - i
  {
    if i >= |g.order| then None
    else if g.order[i] in vs && t in g.Succ(g.order[i]) then Some(g.order[i])
    else Back(g, vs, t, i + 1)
  }

  /** A walk of exactly `k` steps from `s` to a vertex first reached at
      level `k`. */
  function PathTo(g: Graph, s: Value, t: Value, k: nat): (p: seq<Value>)
    requires g.OrderOk() && g.adj.Keys == g.attrs.Keys
    requires t in Hops(g, true, s, k) && (k > 0 ==> t !in Hops(g, true, s, k - 1))
    ensures WalkFromTo(g, true, p, s, t) && |p| == k + 1
    decreases k
  {
    if k == 0 then [s]
    else
      BackFound(g, s, t, k);
      var b := Back(g, Hops(g, true, s, k - 1), t, 0).value;
      var p := PathTo(g, s, b, k - 1);
      WalkAppend(g, true, p, t);
      p + [t]
  }

  /** A vertex one step on from a level is in the next level. */
  lemma NotEarlier(g: Graph, before: set<Value>, b: Value, t: Value)
    requires t in Step(g, true, b)
    ensures b in before ==> t in before + Next(g, true, before)
  {
  }

  lemma WalkAppend(g: Graph, fwd: bool, p: seq<Value>, t: Value)
    requires IsWalk(g, fwd, p) && t in Step(g, fwd, p[|p| - 1])
    ensures IsWalk(g, fwd, p + [t]) && (p + [t])[0] == p[0]
  {
  }

  /** A vertex first reached at level `k` has a predecessor first reached at
      level `k - 1`, and the search in vertex order finds one. */
  lemma BackFound(g: Graph, s: Value, t: Value, k: nat)
    requires g.OrderOk() && g.adj.Keys == g.attrs.Keys && k > 0
    requires t in Hops(g, true, s, k) && t !in Hops(g, true, s, k - 1)
    ensures var b := Back(g, Hops(g, true, s, k - 1), t, 0);
      && b.Some? && b.value in Hops(g, true, s, k - 1)
      && (k - 1 > 0 ==> b.value !in Hops(g, true, s, k - 2))
  {
    var prev := Hops(g, true, s, k - 1);
    assert t in Next(g, true, prev);
    var u :| u in prev && t in Step(g, true, u);
    assert u in g.adj;
    var i :| 0 <= i < |g.order| && g.order[i] == u;
    var b := Back(g, prev, t, 0);
    assert b.Some?;
    if k - 1 > 0 {
      NotEarlier(g, Hops(g, true, s, k - 2), b.value, t);
    }
  }

  /** The first level from `k` on that contains `t`, searching up to
      `Bound(g)`. */
  function Level(g: Graph, s: Value, t: Value, k: nat): (r: Option<nat>)
    requires k <= Bound(g)
    ensures r.Some? ==> k <= r.value && t in Hops(g, true, s, r.value) && forall j :: k <= j < r.value ==> t !in Hops(g, true, s, j)
    ensures r.None? ==> forall j :: k <= j <= Bound(g) ==> t !in Hops(g, true, s, j)
    decreases Bound(g) - k
  {
    if t in Hops(g, true, s, k) then Some(k)
    else if k == Bound(g) then None
    else Level(g, s, t, k + 1)
  }

  /** The outcome of `find_shortest_path`: a path and its length, no path
      (`(None, None, None)`), or a missing endpoint (the error text). */
  datatype PathResult = Path(path: seq<Value>, length: nat) | NoPath | NodeMissing

  /** `find_shortest_path`: `nx.shortest_path` and `nx.shortest_path_length`
      from `source` to `destination`, every edge counting 1. */
  function ShortestPath(g: Graph, source: string, destination: string): PathResult
    requires g.Valid()
  {
    var s, t := Str(source), Str(destination);
    if s !in g.attrs || t !in g.attrs then NodeMissing
    else
      match Level(g, s, t, 0)
      case None => NoPath
      case Some(k) => Path(PathTo(g, s, t, k), k)
  }

  /** A path found is a walk from source to destination with `length`
      steps, and no walk between them is shorter; no path means no walk
      at all; a missing endpoint is reported as such. */
  lemma ShortestPathSpec(g: Graph, source: string, destination: string)
    requires g.Valid()
    ensures var r := ShortestPath(g, source, destination);
      var s, t := Str(source), Str(destination);
      && (r.NodeMissing? <==> !g.HasNode(s) || !g.HasNode(t))
      && (r.Path? ==>
            && WalkFromTo(g, true, r.path, s, t) && |r.path| == r.length + 1
            && forall w :: WalkFromTo(g, true, w, s, t) ==> |w| - 1 >= r.length)
      && (r.NoPath? ==> forall w :: !WalkFromTo(g, true, w, s, t))
  {
    var r := ShortestPath(g, source, destination);
    var s, t := Str(source), Str(destination);
    if r.Path? {
      forall w | WalkFromTo(g, true, w, s, t) ensures |w| - 1 >= r.length {
        WalkHops(g, true, w, |w| - 1);
      }
    }
    if r.NoPath? {
      forall w | WalkFromTo(g, true, w, s, t) ensures false {
        WalkHops(g, true, w, |w| - 1);
        Saturate(g, true, s, |w| - 1);
      }
    }
  }

  // ---------------------------------------------------------------------
  // get_ancestors_descendants
  // ---------------------------------------------------------------------

  /** `get_ancestors_descendants`: TypeError on an undirected graph, then
      ValueError for a missing vertex; otherwise the vertices with a path
      into it and the vertices with a path from it, itself excluded. */
  function AncestorsDescendants(g: Graph, id: string): (r: Result<(set<Value>, set<Value>)>)
    ensures r.Err? <==> !g.directed || !g.HasNode(Str(id))
    ensures r.Err? ==> r.fault == if !g.directed then TypeError else ValueError
  {
    if !g.directed then Err(TypeError)
    else if Str(id) !in g.attrs then Err(ValueError)
    else Ok((Reach(g, false, Str(id)) - {Str(id)}, Reach(g, true, Str(id)) - {Str(id)}))
  }

  /** A walk read backwards. */
  function Reverse(w: seq<Value>): (r: seq<Value>)
    ensures |r| == |w| && forall i :: 0 <= i < |w| ==> r[i] == w[|w| - 1 - i]
  {
    if |w| == 0 then [] else [w[|w| - 1]] + Reverse(w[..|w| - 1])
  }

  /** A forward walk read backwards is a backward walk. */
  lemma ReverseWalk(g: Graph, w: seq<Value>)
    requires IsWalk(g, true, w)
    ensures IsWalk(g, false, Reverse(w))
  {
    var r := Reverse(w);
    forall i | 0 <= i < |r| - 1 ensures r[i + 1] in Step(g, false, r[i]) {
      var k := |w| - 2 - i;
      assert w[k + 1] in Step(g, true, w[k]);
    }
  }

  lemma UnreverseWalk(g: Graph, w: seq<Value>)
    requires IsWalk(g, false, w)
    ensures IsWalk(g, true, Reverse(w))
  {
    var r := Reverse(w);
    forall i | 0 <= i < |r| - 1 ensures r[i + 1] in Step(g, true, r[i]) {
      var k := |w| - 2 - i;
      assert w[k + 1] in Step(g, false, w[k]);
    }
  }

  /** Descendants are the ends of non-trivial forward walks, ancestors the
      starts of walks into the vertex; the vertex is in neither. */
  lemma AncestorsDescendantsSpec(g: Graph, id: string)
    requires g.Valid() && g.directed && g.HasNode(Str(id))
    ensures var r := AncestorsDescendants(g, id).value;
      var n := Str(id);
      && n !in r.0 && n !in r.1
      && (forall y :: y in r.1 <==> y != n && exists w :: WalkFromTo(g, true, w, n, y))
      && (forall x :: x in r.0 <==> x != n && exists w :: WalkFromTo(g, true, w, x, n))
  {
    var n := Str(id);
    var r := AncestorsDescendants(g, id).value;
    forall y ensures y in r.1 <==> y != n && exists w :: WalkFromTo(g, true, w, n, y) {
      ReachSpec(g, true, n, y);
    }
    forall x ensures x in r.0 <==> x != n && exists w :: WalkFromTo(g, true, w, x, n) {
      ReachSpec(g, false, n, x);
      if w :| WalkFromTo(g, false, w, n, x) {
        UnreverseWalk(g, w);
        assert WalkFromTo(g, true, Reverse(w), x, n);
      }
      if w :| WalkFromTo(g, true, w, x, n) {
        ReverseWalk(g, w);
        assert WalkFromTo(g, false, Reverse(w), n, x);
      }
    }
  }

  /** `y` is a descendant of `x` exactly when `x` is an ancestor of `y`. */
  lemma AncestorsDescendantsDual(g: Graph, x: string, y: string)
    requires g.Valid() && g.directed && g.HasNode(Str(x)) && g.HasNode(Str(y))
    ensures Str(y) in AncestorsDescendants(g, x).value.1 <==> Str(x) in AncestorsDescendants(g, y).value.0
  {
    AncestorsDescendantsSpec(g, x);
    AncestorsDescendantsSpec(g, y);
  }
}
