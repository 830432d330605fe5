/**
 * `natural_sort` (main.py): snapshot file names ordered by the number that
 * follows the first `timestamp_` in them, ties keeping their input order
 * (Python's `sorted` is stable). A name without such a number makes
 * `re.search` return `None`, and `.group(1)` on it raises AttributeError.
 */
module NaturalSort {
  import opened Json

  const Prefix: string := "timestamp_"

  predicate IsDigit(c: char)
  {
    '0' <= c <= '9'
  }

  /** The regular expression `timestamp_(\d+)` can start matching at `p`. */
  predicate MatchAt(s: string, p: nat)
  {
    p + |Prefix| < |s| && s[p..p + |Prefix|] == Prefix && IsDigit(s[p + |Prefix|])
  }

  /** `re.search`: the leftmost position from `p` on where a match starts. */
  function Search(s: string, p: nat): (r: Option<nat>)
    ensures r.Some? ==> p <= r.value && MatchAt(s, r.value) && forall q :: p <= q < r.value ==> !MatchAt(s, q)
    ensures r.None? ==> forall q :: p <= q ==> !MatchAt(s, q)
    decreases |s| - p
  {
    if p + |Prefix| >= |s| then None
    else if MatchAt(s, p) then Some(p)
    else Search(s, p + 1)
  }

  /** How many digits follow position `i`: the greedy `\d+`. */
  function DigitRun(s: string, i: nat): (n: nat)
    requires i <= |s|
    ensures i + n <= |s|
    ensures forall k :: i <= k < i + n ==> IsDigit(s[k])
    ensures i + n == |s| || !IsDigit(s[i + n])
    decreases |s| - i
  {
    if i < |s| && IsDigit(s[i]) then 1 + DigitRun(s, i + 1) else 0
  }

  function DigitValue(c: char): nat
    requires IsDigit(c)
  {
    (c as int - '0' as int) as nat
  }

  /** `int(ds)` for a string of decimal digits. */
  function DigitsValue(ds: string): nat
    requires forall k :: 0 <= k < |ds| ==> IsDigit(ds[k])
  {
    if |ds| == 0 then 0 else 10 * DigitsValue(ds[..|ds| - 1]) + DigitValue(ds[|ds| - 1])
  }

  /** The key `int(re.search(r'timestamp_(\d+)', name).group(1))`, or `None`
      where `re.search` finds nothing. */
  function TimestampKey(name: string): (k: Option<nat>)
    ensures k.Some? <==> exists p :: MatchAt(name, p)
  {
    match Search(name, 0)
    case None => None
    case Some(p) =>
      var start := p + |Prefix|;
      Some(DigitsValue(name[start..start + DigitRun(name, start)]))
  }

  /** The decimal numeral of `n`, without leading zeros. */
  function Decimal(n: nat): (ds: string)
    ensures |ds| > 0 && forall k :: 0 <= k < |ds| ==> IsDigit(ds[k])
  {
    if n < 10 then ['0' + n as char] else Decimal(n / 10) + ['0' + (n % 10) as char]
  }

  lemma {:induction false} DecimalValue(n: nat)
    ensures DigitsValue(Decimal(n)) == n
  {
    if n >= 10 {
      DecimalValue(n / 10);
      assert Decimal(n)[..|Decimal(n)| - 1] == Decimal(n / 10);
    }
  }

  /** A file named `timestamp_<n>` followed by anything that does not start
      with a digit has key `n`. */
  lemma FileNameKey(n: nat, rest: string)
    requires |rest| == 0 || !IsDigit(rest[0])
    ensures TimestampKey(Prefix + Decimal(n) + rest) == Some(n)
  {
    var s := Prefix + Decimal(n) + rest;
    var ds := Decimal(n);
    assert s[..|Prefix|] == Prefix;
    assert s[|Prefix|] == ds[0];
    assert MatchAt(s, 0);
    assert DigitRun(s, |Prefix|) == |ds| by {
      DigitRunOver(s, |Prefix|, |ds|);
    }
    assert s[|Prefix|..|Prefix| + |ds|] == ds;
    DecimalValue(n);
  }

  lemma {:induction false} DigitRunOver(s: string, i: nat, n: nat)
    requires i + n <= |s|
    requires forall k :: i <= k < i + n ==> IsDigit(s[k])
    requires i + n == |s| || !IsDigit(s[i + n])
    ensures DigitRun(s, i) == n
    decreases n
  {
    if n > 0 {
      DigitRunOver(s, i + 1, n - 1);
    }
  }

  // ---------------------------------------------------------------------
  // Sorting
  // ---------------------------------------------------------------------

  /** Every name has a key. */
  predicate AllKeyed(names: seq<string>)
  {
    forall i :: 0 <= i < |names| ==> TimestampKey(names[i]).Some?
  }

  function Key(name: string): nat
    requires TimestampKey(name).Some?
  {
    TimestampKey(name).value
  }

  /** A name paired with its key, as `sorted` pairs each item with `key(item)`
      before comparing. */
  type Keyed = (nat, string)

  /** Each name paired with its key. */
  function Decorate(names: seq<string>): (ps: seq<Keyed>)
    requires AllKeyed(names)
    ensures |ps| == |names| && forall i :: 0 <= i < |names| ==> ps[i] == (Key(names[i]), names[i])
  {
    if |names| == 0 then [] else Decorate(names[..|names| - 1]) + [(Key(names[|names| - 1]), names[|names| - 1])]
  }

  function Names(ps: seq<Keyed>): (names: seq<string>)
    ensures |names| == |ps| && forall i :: 0 <= i < |ps| ==> names[i] == ps[i].1
  {
    if |ps| == 0 then [] else Names(ps[..|ps| - 1]) + [ps[|ps| - 1].1]
  }

  /** `sorted` places a pair after every earlier pair whose key is not larger. */
  function Insert(sorted: seq<Keyed>, p: Keyed): (r: seq<Keyed>)
    ensures multiset(r) == multiset(sorted) + multiset{p}
  {
    if |sorted| == 0 then [p]
    else if sorted[|sorted| - 1].0 <= p.0 then sorted + [p]
    else
      assert sorted == sorted[..|sorted| - 1] + [sorted[|sorted| - 1]];
      Insert(sorted[..|sorted| - 1], p) + [sorted[|sorted| - 1]]
  }

  function SortPairs(ps: seq<Keyed>): (r: seq<Keyed>)
    ensures multiset(r) == multiset(ps)
  {
    if |ps| == 0 then []
    else
      assert ps == ps[..|ps| - 1] + [ps[|ps| - 1]];
      Insert(SortPairs(ps[..|ps| - 1]), ps[|ps| - 1])
  }

  /** `natural_sort(files)`: every key is computed first, so one name without
      a key fails the whole call. */
  function NaturalSortFiles(files: seq<string>): (r: Result<seq<string>>)
    ensures r.Err? <==> !AllKeyed(files)
    ensures r.Err? ==> r.fault == AttributeError
  {
    if AllKeyed(files) then Ok(Names(SortPairs(Decorate(files)))) else Err(AttributeError)
  }

  ghost predicate KeyOrdered(ps: seq<Keyed>)
  {
    forall i, j :: 0 <= i < j < |ps| ==> ps[i].0 <= ps[j].0
  }

  /** The pairs with key `n`, in order. */
  function WithKey(ps: seq<Keyed>, n: nat): seq<Keyed>
  {
    if |ps| == 0 then []
    else WithKey(ps[..|ps| - 1], n) + (if ps[|ps| - 1].0 == n then [ps[|ps| - 1]] else [])
  }

  lemma {:induction false} WithKeyAppend(a: seq<Keyed>, b: seq<Keyed>, n: nat)
    ensures WithKey(a + b, n) == WithKey(a, n) + WithKey(b, n)
    decreases |b|
  {
    if |b| > 0 {
      assert (a + b)[..|a + b| - 1] == a + b[..|b| - 1];
      WithKeyAppend(a, b[..|b| - 1], n);
    } else {
      assert a + b == a;
    }
  }

  lemma {:induction false} InsertOrdered(sorted: seq<Keyed>, p: Keyed)
    requires KeyOrdered(sorted)
    ensures KeyOrdered(Insert(sorted, p))
    decreases |sorted|
  {
    if |sorted| > 0 && sorted[|sorted| - 1].0 > p.0 {
      var init := sorted[..|sorted| - 1];
      var last := sorted[|sorted| - 1];
      InsertOrdered(init, p);
      var r := Insert(init, p);
      forall i | 0 <= i < |r| ensures r[i].0 <= last.0 {
        assert r[i] in multiset(r);
        if r[i] != p {
          assert r[i] in multiset(init);
        }
      }
    }
  }

  lemma {:induction false} InsertStable(sorted: seq<Keyed>, p: Keyed, n: nat)
    ensures WithKey(Insert(sorted, p), n) == WithKey(sorted, n) + WithKey([p], n)
    decreases |sorted|
  {
    assert WithKey([p], n) == WithKey([], n) + (if p.0 == n then [p] else []);
    if |sorted| > 0 && sorted[|sorted| - 1].0 > p.0 {
      var init := sorted[..|sorted| - 1];
      var last := sorted[|sorted| - 1];
      assert sorted == init + [last];
      InsertStable(init, p, n);
      WithKeyAppend(Insert(init, p), [last], n);
      WithKeyAppend(init, [last], n);
    } else if |sorted| > 0 {
      WithKeyAppend(sorted, [p], n);
    }
  }

  /** Sorting the pairs permutes them, orders them by key, and keeps pairs
      with equal keys in their input order. */
  lemma {:induction false} SortPairsSpec(ps: seq<Keyed>)
    ensures KeyOrdered(SortPairs(ps))
    ensures forall n :: WithKey(SortPairs(ps), n) == WithKey(ps, n)
    decreases |ps|
  {
    if |ps| > 0 {
      var init := ps[..|ps| - 1];
      var last := ps[|ps| - 1];
      assert ps == init + [last];
      SortPairsSpec(init);
      InsertOrdered(SortPairs(init), last);
      forall n ensures WithKey(SortPairs(ps), n) == WithKey(ps, n) {
        InsertStable(SortPairs(init), last, n);
        WithKeyAppend(init, [last], n);
      }
    }
  }

  lemma NamesAppend(a: seq<Keyed>, b: seq<Keyed>)
    ensures Names(a + b) == Names(a) + Names(b)
  {
  }

  /** Pairs that are a permutation of each other carry a permutation of names. */
  lemma {:induction false} NamesPermutation(ps: seq<Keyed>, qs: seq<Keyed>)
    requires multiset(ps) == multiset(qs)
    ensures multiset(Names(ps)) == multiset(Names(qs))
    decreases |ps|
  {
    if |ps| == 0 {
      assert |qs| == |multiset(qs)| == 0;
    } else {
      var init, p := ps[..|ps| - 1], ps[|ps| - 1];
      assert ps == init + [p];
      assert multiset(ps) == multiset(init) + multiset{p};
      assert p in multiset(qs);
      var k :| 0 <= k < |qs| && qs[k] == p;
      var rest := RemoveAt(qs, k);
      NamesPermutation(init, rest);
      NamesAppend(init, [p]);
    }
  }

  /** `qs` without position `k`: one `qs[k]` fewer among the pairs and one
      `qs[k].1` fewer among the names. */
  lemma RemoveAt(qs: seq<Keyed>, k: nat) returns (rest: seq<Keyed>)
    requires k < |qs|
    ensures multiset(rest) == multiset(qs) - multiset{qs[k]}
    ensures multiset(Names(qs)) == multiset(Names(rest)) + multiset{qs[k].1}
    ensures |rest| == |qs| - 1
  {
    rest := qs[..k] + qs[k + 1..];
    assert qs == qs[..k] + [qs[k]] + qs[k + 1..];
    assert multiset(qs) == multiset(qs[..k]) + multiset{qs[k]} + multiset(qs[k + 1..]);
    NamesAppend(qs[..k] + [qs[k]], qs[k + 1..]);
    NamesAppend(qs[..k], [qs[k]]);
    NamesAppend(qs[..k], qs[k + 1..]);
  }

  lemma DecorateNames(files: seq<string>)
    requires AllKeyed(files)
    ensures Names(Decorate(files)) == files
  {
  }

  /** Every pair holds a name and that name's key. */
  ghost predicate Consistent(ps: seq<Keyed>)
  {
    forall i :: 0 <= i < |ps| ==> TimestampKey(ps[i].1) == Some(ps[i].0)
  }

  lemma DecorateConsistent(files: seq<string>)
    requires AllKeyed(files)
    ensures Consistent(Decorate(files))
  {
  }

  lemma PermutationConsistent(ps: seq<Keyed>, qs: seq<Keyed>)
    requires Consistent(ps) && multiset(ps) == multiset(qs)
    ensures Consistent(qs)
  {
    forall i | 0 <= i < |qs| ensures TimestampKey(qs[i].1) == Some(qs[i].0) {
      assert qs[i] in multiset(ps);
      var j :| 0 <= j < |ps| && ps[j] == qs[i];
    }
  }

  lemma ConsistentDecorated(ps: seq<Keyed>)
    requires Consistent(ps)
    ensures AllKeyed(Names(ps)) && Decorate(Names(ps)) == ps
  {
  }

  /** The sorted pairs are the decorated sorted names. */
  lemma SortedDecorated(files: seq<string>)
    requires AllKeyed(files)
    ensures AllKeyed(Names(SortPairs(Decorate(files))))
    ensures Decorate(Names(SortPairs(Decorate(files)))) == SortPairs(Decorate(files))
  {
    DecorateConsistent(files);
    PermutationConsistent(Decorate(files), SortPairs(Decorate(files)));
    ConsistentDecorated(SortPairs(Decorate(files)));
  }

  /** `natural_sort` returns its input reordered: the same names, each as
      often, in order of their keys, names with equal keys keeping their
      input order. */
  lemma NaturalSortSpec(files: seq<string>)
    requires AllKeyed(files)
    ensures var r := NaturalSortFiles(files).value;
      && multiset(r) == multiset(files)
      && AllKeyed(r)
      && (forall i, j :: 0 <= i < j < |r| ==> Key(r[i]) <= Key(r[j]))
      && forall n :: Names(WithKey(Decorate(r), n)) == Names(WithKey(Decorate(files), n))
  {
    var ps := Decorate(files);
    var sp := SortPairs(ps);
    SortPairsSpec(ps);
    SortedDecorated(files);
    DecorateNames(files);
    NamesPermutation(sp, ps);
  }
}
