/**
 * `TemporalGraph.load_graph_at_timestamp` (main.py): the graph of the
 * snapshot at a timestamp, behind `functools.lru_cache(maxsize=10)`. A hit
 * returns the stored graph without reading or decoding the file again and
 * makes that entry the most recently used; a miss reads and decodes the
 * file, and a successful result is stored, evicting the least recently used
 * entry when ten are already held. Exceptions are not cached.
 */
module SnapshotCache {
  import opened Json
  import opened Graphs
  import opened Decoder

  const MaxSize: nat := 10

  /** The list position `self.files[t]` reads: a negative timestamp counts
      from the end. */
  function FileIndex(n: nat, t: int): (i: Option<nat>)
    ensures i.Some? <==> 0 <= t + n && t < n
    ensures i.Some? ==> i.value < n && (t >= 0 ==> i.value == t) && (t < 0 ==> i.value == n + t)
  {
    if 0 <= t < n then Some(t) else if 0 <= t + n && t < 0 then Some(n + t) else None
  }

  /** What the undecorated method returns for `t`: IndexError for a
      timestamp outside the file list, otherwise the decoded document. */
  function LoadSpec(files: seq<Document>, t: int): (r: Result<Graph>)
    ensures FileIndex(|files|, t).None? ==> r == Err(IndexError)
    ensures FileIndex(|files|, t).Some? ==> r == Decode(files[FileIndex(|files|, t).value])
  {
    match FileIndex(|files|, t)
    case None => Err(IndexError)
    case Some(i) => Decode(files[i])
  }

  /** The position of key `t` in the cache, if it is there. */
  function Find(cache: seq<(int, Graph)>, t: int): (r: Option<nat>)
    ensures r.Some? ==> r.value < |cache| && cache[r.value].0 == t
    ensures r.None? ==> forall i :: 0 <= i < |cache| ==> cache[i].0 != t
  {
    if |cache| == 0 then None
    else if cache[|cache| - 1].0 == t then Some(|cache| - 1)
    else Find(cache[..|cache| - 1], t)
  }

  /** The cache without its entry at position `i`. */
  function Without(cache: seq<(int, Graph)>, i: nat): seq<(int, Graph)>
    requires i < |cache|
  {
    cache[..i] + cache[i + 1..]
  }

  /** The shape `TemporalGraph.Valid` asks of a cache. */
  ghost predicate Consistent(files: seq<Document>, cache: seq<(int, Graph)>)
  {
    && |cache| <= MaxSize
    && (forall i, j :: 0 <= i < j < |cache| ==> cache[i].0 != cache[j].0)
    && (forall i :: 0 <= i < |cache| ==> LoadSpec(files, cache[i].0) == Ok(cache[i].1))
  }

  /** Moving an entry to the most recently used end keeps the cache
      consistent. */
  lemma WithoutValid(files: seq<Document>, cache: seq<(int, Graph)>, i: nat)
    requires Consistent(files, cache) && i < |cache|
    ensures Consistent(files, Without(cache, i) + [cache[i]])
  {
    var c := Without(cache, i) + [cache[i]];
    forall a | 0 <= a < |c| ensures c[a] == cache[Moved(a, i, |c|)] {
    }
    forall a, b | 0 <= a < b < |c| ensures c[a].0 != c[b].0 {
      assert Moved(a, i, |c|) != Moved(b, i, |c|);
    }
    forall a | 0 <= a < |c| ensures LoadSpec(files, c[a].0) == Ok(c[a].1) {
      assert c[a] == cache[Moved(a, i, |c|)];
    }
  }

  /** Where the entry at position `a` of a cache of length `n` whose entry
      `i` moved to the end came from. */
  function Moved(a: nat, i: nat, n: nat): (k: nat)
    requires a < n && i < n
    ensures k < n
    ensures a < n - 1 ==> k != i
    ensures a == n - 1 ==> k == i
  {
    if a < i then a else if a < n - 1 then a + 1 else i
  }

  /** Storing a fresh result, after evicting the least recently used entry
      when the cache is full, keeps the cache consistent. */
  lemma StoreValid(files: seq<Document>, cache: seq<(int, Graph)>, t: int, g: Graph)
    requires Consistent(files, cache) && Find(cache, t).None? && LoadSpec(files, t) == Ok(g)
    ensures var c := (if |cache| == MaxSize then cache[1..] else cache) + [(t, g)];
      Consistent(files, c) && Find(c, t).Some?
  {
    var off := if |cache| == MaxSize then 1 else 0;
    var kept := cache[off..];
    var c := kept + [(t, g)];
    assert c == (if |cache| == MaxSize then cache[1..] else cache) + [(t, g)];
    forall a | 0 <= a < |c| - 1 ensures c[a] == cache[a + off] && c[a].0 != t {
    }
    forall a, b | 0 <= a < b < |c| ensures c[a].0 != c[b].0 {
      if b < |c| - 1 {
        assert c[b] == cache[b + off];
      }
    }
  }

  class TemporalGraph {
    /** The snapshot documents, in the order of the file list. */
    const files: seq<Document>
    /** The cached results, least recently used first. */
    var cache: seq<(int, Graph)>
    /** How many times the undecorated method has run. */
    var calls: nat

    /** The cache holds at most ten entries, one per timestamp, each the
        graph that timestamp's file decodes to. */
    ghost predicate Valid()
      reads this
    {
      Consistent(files, cache)
    }

    constructor(files: seq<Document>)
      ensures Valid()
      ensures this.files == files && cache == [] && calls == 0
    {
      this.files := files;
      cache := [];
      calls := 0;
    }

    /** `load_graph_at_timestamp(t)`. */
    method Load(t: int) returns (r: Result<Graph>)
      requires Valid()
      modifies this
      ensures Valid()
      ensures r == LoadSpec(files, t)
      ensures r.Ok? ==> |cache| > 0 && cache[|cache| - 1] == (t, r.value) && Find(cache, t).Some?
      ensures Find(old(cache), t).Some? ==>
        var i := Find(old(cache), t).value;
        && r == Ok(old(cache)[i].1)
        && calls == old(calls)
        && cache == Without(old(cache), i) + [old(cache)[i]]
      ensures Find(old(cache), t).None? ==>
        && calls == old(calls) + 1
        && (r.Err? ==> cache == old(cache))
        && (r.Ok? ==> cache == (if |old(cache)| == MaxSize then old(cache)[1..] else old(cache)) + [(t, r.value)])
    {
      match Find(cache, t)
      case Some(i) =>
        var hit := cache[i];
        WithoutValid(files, cache, i);
        cache := Without(cache, i) + [hit];
        r := Ok(hit.1);
      case None =>
        calls := calls + 1;
        r := LoadSpec(files, t);
        if r.Ok? {
          StoreValid(files, cache, t, r.value);
          if |cache| == MaxSize {
            cache := cache[1..];
          }
          cache := cache + [(t, r.value)];
        }
    }
  }
}
