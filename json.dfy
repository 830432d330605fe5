/**
 * Snapshot documents as the Python side sees them after `json.load`, and the
 * handful of Python operations on them whose edge cases the queries depend on:
 * list subscripts with negative indices, `dict.get`, `list.index`, `in`,
 * ordering comparisons against a numeric threshold, `sum`, and the
 * exceptions these raise.
 */
module Json {

  /** A JSON value inside a record. JSON `true`/`false` are carried as
      `Num(1)`/`Num(0)`: Python compares, hashes and adds `bool` as the
      integers 1 and 0, which is all the core ever does with them. `Null`
      also stands for Python's `None` where a lookup returns it. */
  datatype Value = Str(s: string) | Num(n: real) | Null | List(items: seq<Value>)

  /** One node or relationship record: a positional list of values. */
  type Record = seq<Value>

  /** The attribute dictionary of a vertex or an edge. */
  type Attrs = map<string, Value>

  datatype Option<+T> = None | Some(value: T)

  /** The Python exceptions the core can raise. */
  datatype Fault =
    | IndexError
    | KeyError
    | TypeError
    | ValueError
    | AttributeError
    | UnboundLocalError
    | NetworkXError
    | NodeNotFound

  datatype Result<+T> = Ok(value: T) | Err(fault: Fault)

  /** One snapshot document with its five top-level keys. `nodeValues` keeps
      the key order of the JSON object, because decoding and the temporal
      scans visit the node buckets in that order. */
  datatype Document = Document(
    directed: bool,
    nodeTypes: map<string, seq<string>>,
    nodeValues: seq<(string, seq<Record>)>,
    relTypes: map<string, seq<string>>,
    relValues: seq<Record>)

  /** `data["node_values"][name]`: the first bucket with that name, or a KeyError. */
  function Bucket(buckets: seq<(string, seq<Record>)>, name: string): (r: Result<seq<Record>>)
    ensures r.Err? <==> forall i :: 0 <= i < |buckets| ==> buckets[i].0 != name
    ensures r.Err? ==> r.fault == KeyError
    ensures r.Ok? ==> exists i :: 0 <= i < |buckets| && buckets[i] == (name, r.value)
  {
    if |buckets| == 0 then Err(KeyError)
    else if buckets[0].0 == name then Ok(buckets[0].1)
    else Bucket(buckets[1..], name)
  }

  /** Python subscript `r[i]`; a negative `i` counts from the end. */
  function At(r: seq<Value>, i: int): (v: Option<Value>)
    ensures v.Some? <==> -|r| <= i < |r|
  {
    if 0 <= i < |r| then Some(r[i])
    else if -|r| <= i < 0 then Some(r[|r| + i])
    else None
  }

  /** `r[i]` where an out-of-range subscript raises IndexError. */
  function Sub(r: seq<Value>, i: int): (v: Result<Value>)
    ensures v.Ok? <==> -|r| <= i < |r|
    ensures v.Err? ==> v.fault == IndexError
  {
    match At(r, i)
    case Some(x) => Ok(x)
    case None => Err(IndexError)
  }

  /** `d.get(key, default)`. */
  function Get(d: Attrs, key: string, default: Value): Value
  {
    if key in d then d[key] else default
  }

  /** `key in d` for a string-keyed dictionary and a key taken from a
      record: a list is unhashable (TypeError); a non-string is never a key. */
  function KeyIn<T>(key: Value, d: map<string, T>): (r: Result<bool>)
    ensures r.Err? <==> key.List?
    ensures r == Ok(true) <==> key.Str? && key.s in d
  {
    match key
    case Str(s) => Ok(s in d)
    case List(_) => Err(TypeError)
    case _ => Ok(false)
  }

  /** A value Python can put into a set or use as a dictionary key. */
  predicate Hashable(v: Value)
  {
    !v.List?
  }

  /** `s.add(v)` on a Python set. */
  function SetAdd(s: set<Value>, v: Value): (r: Result<set<Value>>)
    ensures r.Ok? <==> Hashable(v)
    ensures r.Ok? ==> r.value == s + {v}
    ensures r.Err? ==> r.fault == TypeError
  {
    if Hashable(v) then Ok(s + {v}) else Err(TypeError)
  }

  /** `v <= t` against a numeric threshold. */
  function AtMost(v: Value, t: real): (r: Result<bool>)
    ensures r.Err? <==> !v.Num?
    ensures r == Ok(true) <==> v.Num? && v.n <= t
  {
    if v.Num? then Ok(v.n <= t) else Err(TypeError)
  }

  /** `v >= t` against a numeric threshold. */
  function AtLeast(v: Value, t: real): (r: Result<bool>)
    ensures r.Err? <==> !v.Num?
    ensures r == Ok(true) <==> v.Num? && v.n >= t
  {
    if v.Num? then Ok(v.n >= t) else Err(TypeError)
  }

  /** `v > t` against a numeric threshold. */
  function Above(v: Value, t: real): (r: Result<bool>)
    ensures r.Err? <==> !v.Num?
    ensures r == Ok(true) <==> v.Num? && v.n > t
  {
    if v.Num? then Ok(v.n > t) else Err(TypeError)
  }

  /** The sum of the numbers in `xs`. */
  function SumReals(xs: seq<real>): real
  {
    if |xs| == 0 then 0.0 else SumReals(xs[..|xs| - 1]) + xs[|xs| - 1]
  }

  /** `sum(values)`: starts from 0 and raises TypeError at a non-number. */
  function Sum(vs: seq<Value>): (r: Result<real>)
    ensures r.Ok? <==> forall i :: 0 <= i < |vs| ==> vs[i].Num?
    ensures r.Err? ==> r.fault == TypeError
  {
    if |vs| == 0 then Ok(0.0)
    else match Sum(vs[..|vs| - 1])
      case Err(e) => Err(e)
      case Ok(t) => if vs[|vs| - 1].Num? then Ok(t + vs[|vs| - 1].n) else Err(TypeError)
  }

  /** The numbers inside an all-numeric list of values. */
  function Numbers(vs: seq<Value>): (xs: seq<real>)
    requires forall i :: 0 <= i < |vs| ==> vs[i].Num?
    ensures |xs| == |vs| && forall i :: 0 <= i < |vs| ==> xs[i] == vs[i].n
  {
    if |vs| == 0 then [] else Numbers(vs[..|vs| - 1]) + [vs[|vs| - 1].n]
  }

  lemma {:induction false} SumIsSumOfNumbers(vs: seq<Value>)
    requires forall i :: 0 <= i < |vs| ==> vs[i].Num?
    ensures Sum(vs) == Ok(SumReals(Numbers(vs)))
  {
    if |vs| > 0 {
      SumIsSumOfNumbers(vs[..|vs| - 1]);
      assert Numbers(vs)[..|vs| - 1] == Numbers(vs[..|vs| - 1]);
    }
  }

  /** `names.index(x)`: the first position of `x`. */
  function IndexOf(names: seq<string>, x: string): (k: nat)
    requires x in names
    ensures k < |names| && names[k] == x
    ensures forall i :: 0 <= i < k ==> names[i] != x
  {
    if names[0] == x then 0 else 1 + IndexOf(names[1..], x)
  }

  /** `dict(zip(names, values))` restricted to the first `n` pairs; a name that
      occurs twice keeps its later value. */
  function ZipUpTo(names: seq<string>, values: seq<Value>, n: nat): Attrs
    requires n <= |names| && n <= |values|
  {
    if n == 0 then map[] else ZipUpTo(names, values, n - 1)[names[n - 1] := values[n - 1]]
  }

  /** `dict(zip(names, values))`: surplus names or values are dropped. */
  function Zip(names: seq<string>, values: seq<Value>): Attrs
  {
    ZipUpTo(names, values, ZipLen(names, values))
  }

  /** How many pairs `zip` produces. */
  function ZipLen(names: seq<string>, values: seq<Value>): (n: nat)
    ensures n <= |names| && n <= |values|
  {
    if |names| <= |values| then |names| else |values|
  }

  /** The dictionary built by zipping holds exactly the names of the zipped
      prefix, each bound to the value at its last occurrence. */
  lemma {:induction false} ZipUpToKeys(names: seq<string>, values: seq<Value>, n: nat)
    requires n <= |names| && n <= |values|
    ensures forall key :: key in ZipUpTo(names, values, n) <==> key in names[..n]
  {
    if n > 0 {
      ZipUpToKeys(names, values, n - 1);
      assert names[..n] == names[..n - 1] + [names[n - 1]];
    }
  }

  lemma {:induction false} ZipUpToValues(names: seq<string>, values: seq<Value>, n: nat)
    requires n <= |names| && n <= |values|
    ensures forall k :: 0 <= k < n && LastAt(names, k, n) ==>
      names[k] in ZipUpTo(names, values, n) && ZipUpTo(names, values, n)[names[k]] == values[k]
  {
    if n > 0 {
      ZipUpToValues(names, values, n - 1);
      ZipUpToKeys(names, values, n - 1);
      forall k | 0 <= k < n - 1 && LastAt(names, k, n)
        ensures names[k] in ZipUpTo(names, values, n) && ZipUpTo(names, values, n)[names[k]] == values[k]
      {
        assert LastAt(names, k, n - 1);
      }
    }
  }

  /** No later position below `n` repeats the name at position `k`. */
  ghost predicate LastAt(names: seq<string>, k: nat, n: nat)
  {
    k < n <= |names| && forall k' :: k < k' < n ==> names[k'] != names[k]
  }

  /** Zipping agrees with the positional record: every name that occurs once
      in the zipped part maps to the value at its own position. */
  lemma ZipSpec(names: seq<string>, values: seq<Value>)
    ensures forall key :: key in Zip(names, values) <==>
      exists k :: 0 <= k < |names| && k < |values| && names[k] == key
    ensures forall k :: 0 <= k < ZipLen(names, values) && LastAt(names, k, ZipLen(names, values)) ==>
      names[k] in Zip(names, values) && Zip(names, values)[names[k]] == values[k]
  {
    var n := ZipLen(names, values);
    ZipUpToKeys(names, values, n);
    ZipUpToValues(names, values, n);
    forall key | key in Zip(names, values)
      ensures exists k :: 0 <= k < |names| && k < |values| && names[k] == key
    {
      var k :| 0 <= k < n && names[..n][k] == key;
      assert names[k] == key;
    }
    forall key | exists k :: 0 <= k < |names| && k < |values| && names[k] == key
      ensures key in Zip(names, values)
    {
      var k :| 0 <= k < |names| && k < |values| && names[k] == key;
      assert names[..n][k] == key;
    }
  }
}
