/**
 * The attributed graph that decoding produces: the observable behaviour of a
 * networkx `Graph` or `DiGraph` as the core uses it. Vertices keep their
 * insertion order, each vertex's neighbours (successors when directed) keep
 * theirs, and edge attribute dictionaries are keyed by the ordered endpoint
 * pair; an undirected edge is stored under both orientations with one
 * shared dictionary, as networkx shares one dictionary between `G[u][v]`
 * and `G[v][u]`.
 */
module Graphs {
  import opened Json

  predicate NoDup<T(==)>(s: seq<T>)
  {
    forall i, j :: 0 <= i < j < |s| ==> s[i] != s[j]
  }

  /** `nbrs[x] = ...` on an insertion-ordered dictionary: a new key goes last,
      an existing key keeps its place. */
  function Append(s: seq<Value>, x: Value): (r: seq<Value>)
    ensures x in r && forall y :: y in r <==> y in s || y == x
    ensures NoDup(s) ==> NoDup(r)
  {
    if x in s then s else s + [x]
  }

  datatype Graph = Graph(
    directed: bool,
    order: seq<Value>,
    attrs: map<Value, Attrs>,
    adj: map<Value, seq<Value>>,
    edgeAttrs: map<(Value, Value), Attrs>)
  {
    /** The shape every networkx graph has. */
    ghost predicate Valid()
    {
      OrderOk() && AdjOk() && EdgesOk() && KeysOk()
    }

    /** Vertices are listed once each, in insertion order. */
    ghost predicate OrderOk()
    {
      NoDup(order) && forall v :: v in attrs <==> v in order
    }

    /** Every vertex has an adjacency list without repeats, naming vertices. */
    ghost predicate AdjOk()
    {
      && adj.Keys == attrs.Keys
      && (forall u :: u in adj ==> NoDup(adj[u]))
      && (forall u, w :: u in adj && w in adj[u] ==> w in attrs)
    }

    /** The edge dictionaries are exactly the adjacency entries, shared by both
        orientations when undirected. */
    ghost predicate EdgesOk()
    {
      && (forall u, w :: (u, w) in edgeAttrs <==> u in adj && w in adj[u])
      && (!directed ==> forall u, w :: (u, w) in edgeAttrs ==> (w, u) in edgeAttrs && edgeAttrs[(w, u)] == edgeAttrs[(u, w)])
    }

    /** No vertex is `None` or unhashable. */
    ghost predicate KeysOk()
    {
      forall v :: v in attrs ==> !v.Null? && !v.List?
    }

    /** `v in G`. */
    predicate HasNode(v: Value)
    {
      v in attrs
    }

    /** `G.has_edge(u, v)`. */
    predicate HasEdge(u: Value, v: Value)
    {
      (u, v) in edgeAttrs
    }

    /** The vertices one step away from `u`: successors, or neighbours when
        the graph is undirected. */
    function Succ(u: Value): set<Value>
    {
      if u in adj then set w | w in adj[u] else {}
    }

    /** The vertices one step before `v`. */
    function Preds(v: Value): set<Value>
    {
      set u | u in adj && v in adj[u]
    }

    /** `G.add_node(id, **a)`: a new vertex goes last with attributes `a`; an
        existing vertex has `a` merged into its attributes, later keys winning.
        A list is unhashable and `None` cannot be a node. */
    function AddNode(id: Value, a: Attrs): Result<Graph>
    {
      if id.List? then Err(TypeError)
      else if id in attrs then Ok(this.(attrs := attrs[id := attrs[id] + a]))
      else if id.Null? then Err(ValueError)
      else Ok(this.(order := order + [id], attrs := attrs[id := a], adj := adj[id := []]))
    }

    /** The edge insertion of `add_edge` once both endpoints exist. */
    function Link(u: Value, v: Value, a: Attrs): Graph
    {
      var d := (if (u, v) in edgeAttrs then edgeAttrs[(u, v)] else map[]) + a;
      var g1 := this.(adj := adj[u := Append(Nbrs(u), v)], edgeAttrs := edgeAttrs[(u, v) := d]);
      if directed then g1
      else g1.(adj := g1.adj[v := Append(g1.Nbrs(v), u)], edgeAttrs := g1.edgeAttrs[(v, u) := d])
    }

    /** `G[u]` in insertion order; empty for a missing vertex. */
    function Nbrs(u: Value): seq<Value>
    {
      if u in adj then adj[u] else []
    }

    /** `G.add_edge(u, v, **a)`: missing endpoints become bare vertices, then
        `a` is merged into the edge's attributes, later keys winning. */
    function AddEdge(u: Value, v: Value, a: Attrs): Result<Graph>
    {
      match AddNode(u, map[])
      case Err(e) => Err(e)
      case Ok(g1) =>
        match g1.AddNode(v, map[])
        case Err(e) => Err(e)
        case Ok(g2) => Ok(g2.Link(u, v, a))
    }

    /** `G.edges()`: for each vertex in order, its successors in order; an
        undirected edge is reported once, from the endpoint seen first. */
    function EdgeList(): seq<(Value, Value)>
    {
      EdgesFrom(0)
    }

    function EdgesFrom(i: nat): seq<(Value, Value)>
      decreases |order| - i
    {
      if i >= |order| then []
      else
        var n := order[i];
        OutPairs(n, Nbrs(n), order[..i]) + EdgesFrom(i + 1)
    }

    function OutPairs(n: Value, nbrs: seq<Value>, seen: seq<Value>): seq<(Value, Value)>
    {
      if |nbrs| == 0 then []
      else (if directed || nbrs[0] !in seen then [(n, nbrs[0])] else []) + OutPairs(n, nbrs[1..], seen)
    }
  }

  /** `nx.DiGraph()` or `nx.Graph()`. */
  function Empty(directed: bool): (g: Graph)
    ensures g.Valid() && g.directed == directed && g.order == []
  {
    Graph(directed, [], map[], map[], map[])
  }

  /** Adding a vertex keeps the graph well formed. */
  lemma AddNodeValid(g: Graph, id: Value, a: Attrs)
    requires g.Valid()
    ensures g.AddNode(id, a).Ok? ==> g.AddNode(id, a).value.Valid()
  {
    if !id.List? && id !in g.attrs && !id.Null? {
      NewNodeValid(g, id, a);
    }
  }

  lemma NewNodeValid(g: Graph, id: Value, a: Attrs)
    requires g.Valid() && !id.List? && id !in g.attrs && !id.Null?
    ensures g.AddNode(id, a).Ok? && g.AddNode(id, a).value.Valid()
  {
    var h := g.AddNode(id, a).value;
    assert h == g.(order := g.order + [id], attrs := g.attrs[id := a], adj := g.adj[id := []]);
    NewNodeOrderOk(g, id, a);
    assert h.AdjOk();
    NewNodeEdgesOk(g, id, a);
  }

  lemma NewNodeOrderOk(g: Graph, id: Value, a: Attrs)
    requires g.OrderOk() && id !in g.attrs
    ensures g.(order := g.order + [id], attrs := g.attrs[id := a]).OrderOk()
  {
    var h := g.(order := g.order + [id], attrs := g.attrs[id := a]);
    forall v ensures v in h.attrs <==> v in h.order {
      assert v in h.order <==> v in g.order || v == id;
    }
  }

  lemma NewNodeEdgesOk(g: Graph, id: Value, a: Attrs)
    requires g.EdgesOk() && g.adj.Keys == g.attrs.Keys && id !in g.attrs
    ensures g.(adj := g.adj[id := []]).EdgesOk()
  {
  }

  /** The attributes of vertex `x`, none when it is absent. */
  function AttrsOf(g: Graph, x: Value): Attrs
  {
    if x in g.attrs then g.attrs[x] else map[]
  }

  /** `add_node` fails exactly for a list or `None`; otherwise it merges `a`
      into the vertex's attributes, later keys winning and an absent vertex
      counting as one without attributes, and leaves every other vertex and
      every edge alone. */
  lemma AddNodeAttrs(g: Graph, id: Value, a: Attrs)
    requires g.KeysOk()
    ensures g.AddNode(id, a).Ok? <==> !id.List? && !id.Null?
    ensures g.AddNode(id, a).Ok? ==>
      var h := g.AddNode(id, a).value;
      && h.KeysOk()
      && h.attrs.Keys == g.attrs.Keys + {id}
      && (forall x :: AttrsOf(h, x) == if x == id then AttrsOf(g, x) + a else AttrsOf(g, x))
      && h.edgeAttrs == g.edgeAttrs && h.directed == g.directed
  {
    if !id.List? && !id.Null? {
      var h := g.AddNode(id, a).value;
      if id in g.attrs {
        assert h == g.(attrs := g.attrs[id := g.attrs[id] + a]);
      } else {
        assert h == g.(order := g.order + [id], attrs := g.attrs[id := a], adj := g.adj[id := []]);
      }
      forall x ensures AttrsOf(h, x) == if x == id then AttrsOf(g, x) + a else AttrsOf(g, x) {
        if x == id && id !in g.attrs {
          assert map[] + a == a;
        }
      }
    }
  }

  /** Linking two existing vertices keeps the graph well formed. */
  lemma LinkValid(g: Graph, u: Value, v: Value, a: Attrs)
    requires g.Valid() && u in g.adj && v in g.adj
    ensures g.Link(u, v, a).Valid()
  {
    var d := (if (u, v) in g.edgeAttrs then g.edgeAttrs[(u, v)] else map[]) + a;
    var g1 := g.(adj := g.adj[u := Append(g.adj[u], v)], edgeAttrs := g.edgeAttrs[(u, v) := d]);
    LinkOneWay(g, u, v, d);
    if g.directed {
      assert g.Link(u, v, a) == g1;
    } else {
      var h := g1.(adj := g1.adj[v := Append(g1.adj[v], u)], edgeAttrs := g1.edgeAttrs[(v, u) := d]);
      assert g.Link(u, v, a) == h;
      LinkOneWay(g1, v, u, d);
      LinkSymmetric(g, u, v, d);
    }
  }

  /** Recording one orientation keeps the adjacency and the edge keys in step. */
  lemma LinkOneWay(g: Graph, u: Value, v: Value, d: Attrs)
    requires g.AdjOk() && u in g.adj && v in g.adj
    requires forall x, w :: (x, w) in g.edgeAttrs <==> x in g.adj && w in g.adj[x]
    ensures var h := g.(adj := g.adj[u := Append(g.adj[u], v)], edgeAttrs := g.edgeAttrs[(u, v) := d]);
      && h.AdjOk()
      && forall x, w :: (x, w) in h.edgeAttrs <==> x in h.adj && w in h.adj[x]
  {
    var h := g.(adj := g.adj[u := Append(g.adj[u], v)], edgeAttrs := g.edgeAttrs[(u, v) := d]);
    forall x, w
      ensures (x, w) in h.edgeAttrs <==> x in h.adj && w in h.adj[x]
    {
      if x == u {
        assert w in h.adj[x] <==> w in g.adj[u] || w == v;
      } else if x in g.adj {
        assert h.adj[x] == g.adj[x];
      }
    }
  }

  /** Both orientations of an undirected edge share one dictionary. */
  lemma LinkSymmetric(g: Graph, u: Value, v: Value, d: Attrs)
    requires !g.directed
    requires forall x, w :: (x, w) in g.edgeAttrs ==> (w, x) in g.edgeAttrs && g.edgeAttrs[(w, x)] == g.edgeAttrs[(x, w)]
    ensures var e := g.edgeAttrs[(u, v) := d][(v, u) := d];
      forall x, w :: (x, w) in e ==> (w, x) in e && e[(w, x)] == e[(x, w)]
  {
    var e := g.edgeAttrs[(u, v) := d][(v, u) := d];
    forall x, w | (x, w) in e
      ensures (w, x) in e && e[(w, x)] == e[(x, w)]
    {
      if (x, w) == (u, v) || (x, w) == (v, u) {
      } else {
        assert (x, w) in g.edgeAttrs;
      }
    }
  }

  /** Adding an edge keeps the graph well formed. */
  lemma AddEdgeValid(g: Graph, u: Value, v: Value, a: Attrs)
    requires g.Valid()
    ensures g.AddEdge(u, v, a).Ok? ==> g.AddEdge(u, v, a).value.Valid()
  {
    AddEdgeShape(g, u, v, a);
    if g.AddEdge(u, v, a).Ok? {
      GrowValid(g, u);
      GrowValid(Grow(g, u), v);
      LinkValid(Grow(Grow(g, u), v), u, v, a);
    }
  }

  /** Adding a bare vertex that can be one keeps the graph well formed. */
  lemma GrowValid(g: Graph, x: Value)
    requires g.Valid() && !x.Null? && !x.List?
    ensures Grow(g, x).Valid() && x in Grow(g, x).attrs
  {
    if x !in g.attrs {
      NewNodeValid(g, x, map[]);
    }
  }

  /** The attributes of the edge `u`-`v` before an insertion. */
  function EdgeBase(g: Graph, u: Value, v: Value): Attrs
  {
    if (u, v) in g.edgeAttrs then g.edgeAttrs[(u, v)] else map[]
  }

  /** Whether the stored pair `(x, w)` is the edge `u`-`v`: the ordered pair
      when directed, either orientation when undirected. */
  predicate SamePair(directed: bool, x: Value, w: Value, u: Value, v: Value)
  {
    (x, w) == (u, v) || (!directed && (x, w) == (v, u))
  }

  /** `g` with `x` present: unchanged if it is a vertex already, else with a
      new bare vertex `x` at the end. */
  function Grow(g: Graph, x: Value): Graph
  {
    if x in g.attrs then g else g.(order := g.order + [x], attrs := g.attrs[x := map[]], adj := g.adj[x := []])
  }

  /** Adding a bare vertex is `Grow`. */
  lemma AddBareNode(g: Graph, x: Value)
    requires !x.List? && (x in g.attrs || !x.Null?)
    ensures g.AddNode(x, map[]) == Ok(Grow(g, x))
  {
    if x in g.attrs {
      assert g.attrs[x] + map[] == g.attrs[x];
      assert g.attrs[x := g.attrs[x]] == g.attrs;
    }
  }

  lemma AddEdgeShape(g: Graph, u: Value, v: Value, a: Attrs)
    requires g.KeysOk()
    ensures g.AddEdge(u, v, a).Ok? <==> !u.List? && !u.Null? && !v.List? && !v.Null?
    ensures g.AddEdge(u, v, a).Ok? ==> g.AddEdge(u, v, a).value == Grow(Grow(g, u), v).Link(u, v, a)
  {
    if !u.List? && !u.Null? && !v.List? && !v.Null? {
      AddBareNode(g, u);
      AddBareNode(Grow(g, u), v);
    }
  }

  /** Adding an edge creates missing endpoints as bare vertices and leaves the
      attributes of existing vertices alone; it fails exactly when an
      endpoint is a list or `None`. */
  lemma AddEdgeVertices(g: Graph, u: Value, v: Value, a: Attrs)
    requires g.KeysOk()
    ensures g.AddEdge(u, v, a).Ok? <==> !u.List? && !u.Null? && !v.List? && !v.Null?
    ensures g.AddEdge(u, v, a).Ok? ==>
      var h := g.AddEdge(u, v, a).value;
      && h.KeysOk()
      && h.directed == g.directed
      && h.attrs.Keys == g.attrs.Keys + {u, v}
      && (forall x :: x in g.attrs ==> h.attrs[x] == g.attrs[x])
      && (forall x :: x in h.attrs && x !in g.attrs ==> h.attrs[x] == map[])
  {
    AddEdgeShape(g, u, v, a);
    if g.AddEdge(u, v, a).Ok? {
      GrowTwice(g, u, v);
      LinkVertices(Grow(Grow(g, u), v), u, v, a);
    }
  }

  lemma GrowTwice(g: Graph, u: Value, v: Value)
    ensures var h := Grow(Grow(g, u), v);
      && h.directed == g.directed
      && h.attrs.Keys == g.attrs.Keys + {u, v}
      && (forall x :: x in g.attrs ==> h.attrs[x] == g.attrs[x])
      && (forall x :: x in h.attrs && x !in g.attrs ==> h.attrs[x] == map[])
  {
    GrowAttrs(g, u);
    GrowAttrs(Grow(g, u), v);
  }

  /** Linking changes no vertex and not the kind of graph. */
  lemma LinkVertices(g: Graph, u: Value, v: Value, a: Attrs)
    ensures g.Link(u, v, a).attrs == g.attrs && g.Link(u, v, a).directed == g.directed
  {
  }

  lemma GrowAttrs(g: Graph, x: Value)
    ensures Grow(g, x).attrs.Keys == g.attrs.Keys + {x}
    ensures forall y :: y in g.attrs ==> Grow(g, x).attrs[y] == g.attrs[y]
    ensures x !in g.attrs ==> Grow(g, x).attrs[x] == map[]
    ensures Grow(g, x).edgeAttrs == g.edgeAttrs && Grow(g, x).directed == g.directed
  {
  }

  /** Adding an edge merges `a` into that edge's dictionary (both
      orientations when undirected), later keys winning, and leaves every
      other edge untouched. */
  lemma AddEdgeMerges(g: Graph, u: Value, v: Value, a: Attrs)
    requires g.Valid()
    requires g.AddEdge(u, v, a).Ok?
    ensures var h := g.AddEdge(u, v, a).value;
      && (forall x, w :: (x, w) in h.edgeAttrs <==> (x, w) in g.edgeAttrs || SamePair(g.directed, x, w, u, v))
      && (forall x, w :: SamePair(g.directed, x, w, u, v) ==> h.edgeAttrs[(x, w)] == EdgeBase(g, u, v) + a)
      && (forall x, w :: (x, w) in g.edgeAttrs && !SamePair(g.directed, x, w, u, v) ==> h.edgeAttrs[(x, w)] == g.edgeAttrs[(x, w)])
  {
    AddEdgeShape(g, u, v, a);
    var g2 := Grow(Grow(g, u), v);
    GrowAttrs(g, u);
    GrowAttrs(Grow(g, u), v);
    assert g.AddEdge(u, v, a).value.edgeAttrs == g2.Link(u, v, a).edgeAttrs;
    if !g.directed && (u, v) in g.edgeAttrs {
      assert g.edgeAttrs[(v, u)] == g.edgeAttrs[(u, v)];
    }
    LinkEdges(g2, u, v, a);
  }

  /** What `Link` does to the edge dictionaries. */
  lemma LinkEdges(g: Graph, u: Value, v: Value, a: Attrs)
    requires !g.directed && (u, v) in g.edgeAttrs ==> (v, u) in g.edgeAttrs && g.edgeAttrs[(v, u)] == g.edgeAttrs[(u, v)]
    ensures var e := g.Link(u, v, a).edgeAttrs;
      && (forall x, w :: (x, w) in e <==> (x, w) in g.edgeAttrs || SamePair(g.directed, x, w, u, v))
      && (forall x, w :: SamePair(g.directed, x, w, u, v) ==> e[(x, w)] == EdgeBase(g, u, v) + a)
      && (forall x, w :: (x, w) in g.edgeAttrs && !SamePair(g.directed, x, w, u, v) ==> e[(x, w)] == g.edgeAttrs[(x, w)])
  {
  }

  /** The pairs one vertex contributes to `G.edges()`: its neighbours, less
      those already seen when undirected. */
  lemma {:induction false} OutPairsSpec(g: Graph, n: Value, nbrs: seq<Value>, seen: seq<Value>)
    ensures forall p :: p in g.OutPairs(n, nbrs, seen) <==> p.0 == n && p.1 in nbrs && (g.directed || p.1 !in seen)
    decreases |nbrs|
  {
    if |nbrs| > 0 {
      OutPairsSpec(g, n, nbrs[1..], seen);
      assert forall w :: w in nbrs <==> w == nbrs[0] || w in nbrs[1..];
    }
  }

  lemma {:induction false} EdgesFromSpec(g: Graph, i: nat)
    ensures forall p :: p in g.EdgesFrom(i) <==>
      exists k :: i <= k < |g.order| && p.0 == g.order[k] && p.1 in g.Nbrs(g.order[k]) && (g.directed || p.1 !in g.order[..k])
    decreases |g.order| - i
  {
    if i < |g.order| {
      EdgesFromSpec(g, i + 1);
      OutPairsSpec(g, g.order[i], g.Nbrs(g.order[i]), g.order[..i]);
    }
  }

  /** `G.edges()` of a well-formed graph: every reported pair is an edge;
      a directed graph reports every edge; an undirected one reports every
      edge in one orientation or the other. */
  lemma EdgeListSpec(g: Graph)
    requires g.Valid()
    ensures forall u, v :: (u, v) in g.EdgeList() ==> g.HasEdge(u, v)
    ensures g.directed ==> forall u, v :: g.HasEdge(u, v) ==> (u, v) in g.EdgeList()
    ensures !g.directed ==> forall u, v :: g.HasEdge(u, v) ==> (u, v) in g.EdgeList() || (v, u) in g.EdgeList()
  {
    EdgesFromSpec(g, 0);
    forall u, v | g.HasEdge(u, v) ensures (u, v) in g.EdgeList() || (!g.directed && (v, u) in g.EdgeList()) {
      var k :| 0 <= k < |g.order| && g.order[k] == u;
      var m :| 0 <= m < |g.order| && g.order[m] == v;
      if g.directed || v !in g.order[..k] {
        assert (u, v).1 in g.Nbrs(g.order[k]);
      } else {
        assert (v, u) in g.edgeAttrs;
        assert m < k;
        assert (v, u).1 in g.Nbrs(g.order[m]);
      }
    }
  }
}
