/**
 * The series behind the trend charts of pages/AcrossTime.py. Each query
 * visits the snapshot documents in timestamp order (the documents are
 * parameters; opening and parsing the files is not modelled) and collects
 * points `(timestamp, value)`; the charts drawn from them are not modelled.
 */
module AcrossTime {
  import opened Json

  /** A point of an averaged series: the timestamp and the mean. */
  type Point = (nat, real)

  /** What a trend averages: one attribute of the records of a node type, or
      of the relationship records of a relationship type. */
  datatype Query =
    | NodeQuery(nodeType: string, attribute: string)
    | EdgeQuery(edgeType: string, attribute: string)

  /** `data["node_types"][node_type]`, absent when the type is not declared. */
  function Names(types: map<string, seq<string>>, name: string): Option<seq<string>>
  {
    if name in types then Some(types[name]) else None
  }

  // ---------------------------------------------------------------------
  // The per-snapshot comprehensions
  // ---------------------------------------------------------------------

  /** `[node[names.index(attribute)] for node in nodes if attribute in
      names]`. Looking the field names up raises KeyError at the first
      record when the type is not declared; a record too short for the
      position raises IndexError. */
  function NodeColumn(recs: seq<Record>, names: Option<seq<string>>, attribute: string): (r: Result<seq<Value>>)
    ensures r.Err? <==> (|recs| > 0 && (names.None? ||
      (attribute in names.value && exists i :: 0 <= i < |recs| && |recs[i]| <= IndexOf(names.value, attribute))))
    ensures r.Err? ==> r.fault == (if names.None? then KeyError else IndexError)
    ensures r.Ok? && (names.None? || attribute !in names.value) ==> r.value == []
    ensures r.Ok? && names.Some? && attribute in names.value ==>
      |r.value| == |recs| && forall i :: 0 <= i < |recs| ==> r.value[i] == recs[i][IndexOf(names.value, attribute)]
    decreases |recs|
  {
    if |recs| == 0 then Ok([])
    else if names.None? then Err(KeyError)
    else if attribute !in names.value then Ok([])
    else
      var k := IndexOf(names.value, attribute);
      if |recs[0]| <= k then Err(IndexError)
      else match NodeColumn(recs[1..], names, attribute)
        case Err(f) => Err(f)
        case Ok(rest) =>
          assert forall i :: 1 <= i < |recs| ==> recs[i] == recs[1..][i - 1];
          Ok([recs[0][k]] + rest)
  }

  /** A relationship record the edge trend reads: its first value is the
      relationship type and the type's field names hold the attribute. */
  predicate Selected(rec: Record, edgeType: string, names: seq<string>, attribute: string)
  {
    |rec| > 0 && rec[0] == Str(edgeType) && attribute in names
  }

  /** `[edge[names.index(attribute)] for edge in relationship_values if
      edge[0] == edge_type and attribute in names]`. Every record is read at
      position 0, so an empty record raises IndexError; a selected record
      too short for the position raises IndexError too. The position counts
      from the start of the whole record. */
  function EdgeColumn(recs: seq<Record>, edgeType: string, names: seq<string>, attribute: string): (r: Result<seq<Value>>)
    ensures r.Err? <==> exists i ::
      (0 <= i < |recs| && (|recs[i]| == 0 || (Selected(recs[i], edgeType, names, attribute) && |recs[i]| <= IndexOf(names, attribute))))
    ensures r.Err? ==> r.fault == IndexError
    ensures r.Ok? ==> |r.value| <= |recs|
    ensures r.Ok? && attribute !in names ==> r.value == []
    ensures r.Ok? ==> forall v :: v in r.value <==> exists i ::
      (0 <= i < |recs| && Selected(recs[i], edgeType, names, attribute) && v == recs[i][IndexOf(names, attribute)])
    decreases |recs|
  {
    if |recs| == 0 then Ok([])
    else if |recs[0]| == 0 then Err(IndexError)
    else
      assert forall i :: 1 <= i < |recs| ==> recs[i] == recs[1..][i - 1];
      if !Selected(recs[0], edgeType, names, attribute) then EdgeColumn(recs[1..], edgeType, names, attribute)
      else if |recs[0]| <= IndexOf(names, attribute) then Err(IndexError)
      else match EdgeColumn(recs[1..], edgeType, names, attribute)
        case Err(f) => Err(f)
        case Ok(rest) => Ok([recs[0][IndexOf(names, attribute)]] + rest)
  }

  /** Record positions, each shifted one place on. */
  function Shifted(idx: seq<nat>): (r: seq<nat>)
    ensures |r| == |idx| && forall j :: 0 <= j < |idx| ==> r[j] == idx[j] + 1
  {
    seq(|idx|, j requires 0 <= j < |idx| => idx[j] + 1)
  }

  /** `idx` lists, in increasing order, the positions of exactly the
      records `recs` selects, and `vs` holds their values one for one. */
  ghost predicate Positions(recs: seq<Record>, edgeType: string, names: seq<string>, attribute: string,
      vs: seq<Value>, idx: seq<nat>)
  {
    && attribute in names
    && PositionsRead(recs, edgeType, names, attribute, vs, idx)
    && (forall j, j' :: 0 <= j < j' < |idx| ==> idx[j] < idx[j'])
    && (forall i :: 0 <= i < |recs| && Selected(recs[i], edgeType, names, attribute) ==> i in idx)
  }

  /** Each position in `idx` is a selected record whose value sits in `vs`
      at the same place. */
  ghost predicate PositionsRead(recs: seq<Record>, edgeType: string, names: seq<string>, attribute: string,
      vs: seq<Value>, idx: seq<nat>)
    requires attribute in names
  {
    && |idx| == |vs|
    && forall j :: 0 <= j < |idx| ==>
         && idx[j] < |recs| && Selected(recs[idx[j]], edgeType, names, attribute)
         && IndexOf(names, attribute) < |recs[idx[j]]| && vs[j] == recs[idx[j]][IndexOf(names, attribute)]
  }

  /** The edge column holds one value per selected record, in record order,
      so the mean is taken over the selected records, a value counted as
      often as records carry it. */
  lemma {:induction false} EdgeColumnPositions(recs: seq<Record>, edgeType: string, names: seq<string>, attribute: string)
      returns (idx: seq<nat>)
    requires attribute in names
    requires EdgeColumn(recs, edgeType, names, attribute).Ok?
    ensures Positions(recs, edgeType, names, attribute, EdgeColumn(recs, edgeType, names, attribute).value, idx)
    decreases |recs|
  {
    if |recs| == 0 {
      idx := [];
    } else {
      var rest := EdgeColumnPositions(recs[1..], edgeType, names, attribute);
      var vs := EdgeColumn(recs[1..], edgeType, names, attribute).value;
      if Selected(recs[0], edgeType, names, attribute) {
        idx := PositionsSelected(recs, edgeType, names, attribute, vs, rest);
      } else {
        idx := PositionsSkipped(recs, edgeType, names, attribute, vs, rest);
      }
    }
  }

  /** A selected record in front: its position comes first and the others
      move one place on. */
  lemma PositionsSelected(recs: seq<Record>, edgeType: string, names: seq<string>, attribute: string,
      vs: seq<Value>, rest: seq<nat>) returns (idx: seq<nat>)
    requires |recs| > 0 && Positions(recs[1..], edgeType, names, attribute, vs, rest)
    requires Selected(recs[0], edgeType, names, attribute) && IndexOf(names, attribute) < |recs[0]|
    ensures Positions(recs, edgeType, names, attribute, [recs[0][IndexOf(names, attribute)]] + vs, idx)
  {
    var k := IndexOf(names, attribute);
    var tail := Shifted(rest);
    idx := [0] + tail;
    var out := [recs[0][k]] + vs;
    forall j | 0 <= j < |idx|
      ensures idx[j] < |recs| && Selected(recs[idx[j]], edgeType, names, attribute)
      ensures k < |recs[idx[j]]| && out[j] == recs[idx[j]][k]
    {
      if j > 0 {
        assert idx[j] == rest[j - 1] + 1 && out[j] == vs[j - 1];
        assert recs[idx[j]] == recs[1..][rest[j - 1]];
      }
    }
    assert PositionsRead(recs, edgeType, names, attribute, out, idx);
    forall j, j' | 0 <= j < j' < |idx| ensures idx[j] < idx[j'] {
      assert idx[j'] == rest[j' - 1] + 1;
      if j > 0 {
        assert idx[j] == rest[j - 1] + 1;
      }
    }
    forall i | 0 <= i < |recs| && Selected(recs[i], edgeType, names, attribute) ensures i in idx {
      if i > 0 {
        assert recs[1..][i - 1] == recs[i];
        var j :| 0 <= j < |rest| && rest[j] == i - 1;
        assert idx[j + 1] == i;
      } else {
        assert idx[0] == 0;
      }
    }
  }

  /** A record in front that is not selected: the others move one place on. */
  lemma PositionsSkipped(recs: seq<Record>, edgeType: string, names: seq<string>, attribute: string,
      vs: seq<Value>, rest: seq<nat>) returns (idx: seq<nat>)
    requires |recs| > 0 && Positions(recs[1..], edgeType, names, attribute, vs, rest)
    requires !Selected(recs[0], edgeType, names, attribute)
    ensures Positions(recs, edgeType, names, attribute, vs, idx)
  {
    var k := IndexOf(names, attribute);
    idx := Shifted(rest);
    forall j | 0 <= j < |idx|
      ensures idx[j] < |recs| && Selected(recs[idx[j]], edgeType, names, attribute)
      ensures k < |recs[idx[j]]| && vs[j] == recs[idx[j]][k]
    {
      assert recs[idx[j]] == recs[1..][rest[j]];
    }
    assert PositionsRead(recs, edgeType, names, attribute, vs, idx);
    forall j, j' | 0 <= j < j' < |idx| ensures idx[j] < idx[j'] {
      assert idx[j] == rest[j] + 1 && idx[j'] == rest[j'] + 1;
    }
    forall i | 0 <= i < |recs| && Selected(recs[i], edgeType, names, attribute) ensures i in idx {
      assert i > 0;
      assert recs[1..][i - 1] == recs[i];
      var j :| 0 <= j < |rest| && rest[j] == i - 1;
      assert idx[j] == i;
    }
  }

  /** `sum(values) / len(values)` when `values` is not empty: the
      arithmetic mean, TypeError at a value that is not a number. */
  function Mean(vs: seq<Value>): (r: Result<Option<real>>)
    ensures r == Ok(None) <==> |vs| == 0
    ensures r.Err? <==> |vs| > 0 && exists i :: 0 <= i < |vs| && !vs[i].Num?
    ensures r.Err? ==> r.fault == TypeError
    ensures r.Ok? && r.value.Some? ==> r.value.value == SumReals(Numbers(vs)) / (|vs| as real)
  {
    if |vs| == 0 then Ok(None)
    else match Sum(vs)
      case Err(f) => Err(f)
      case Ok(total) =>
        SumIsSumOfNumbers(vs);
        Ok(Some(total / (|vs| as real)))
  }

  /** The mean one snapshot contributes, `None` when the timestamp is
      skipped. */
  function Step(doc: Document, q: Query): (r: Result<Option<real>>)
    ensures q.NodeQuery? && Bucket(doc.nodeValues, q.nodeType).Err? ==> r == Ok(None)
    ensures q.NodeQuery? && q.nodeType in doc.nodeTypes && q.attribute !in doc.nodeTypes[q.nodeType] ==> r == Ok(None)
    ensures q.EdgeQuery? && q.edgeType !in doc.relTypes ==> r == Ok(None)
    ensures q.EdgeQuery? && q.edgeType in doc.relTypes && q.attribute !in doc.relTypes[q.edgeType] ==>
      r == if forall i :: 0 <= i < |doc.relValues| ==> |doc.relValues[i]| > 0 then Ok(None) else Err(IndexError)
    ensures r.Err? ==> r.fault == KeyError || r.fault == IndexError || r.fault == TypeError
  {
    match q
    case NodeQuery(nodeType, attribute) =>
      (match Bucket(doc.nodeValues, nodeType)
       case Err(_) => Ok(None)
       case Ok(recs) =>
         match NodeColumn(recs, Names(doc.nodeTypes, nodeType), attribute)
         case Err(f) => Err(f)
         case Ok(vs) => Mean(vs))
    case EdgeQuery(edgeType, attribute) =>
      if edgeType !in doc.relTypes then Ok(None)
      else match EdgeColumn(doc.relValues, edgeType, doc.relTypes[edgeType], attribute)
        case Err(f) => Err(f)
        case Ok(vs) => Mean(vs)
  }

  // ---------------------------------------------------------------------
  // track_attribute_over_time and track_edge_attribute_over_time_streamlit
  // ---------------------------------------------------------------------

  /** `series` followed by the points of the snapshots from timestamp `t`
      on; the first exception ends the scan. */
  function Trend(series: seq<Point>, docs: seq<Document>, t: nat, q: Query): Result<seq<Point>>
    decreases |docs| - t
  {
    if t >= |docs| then Ok(series)
    else match Step(docs[t], q)
      case Err(f) => Err(f)
      case Ok(m) => Trend(if m.Some? then series + [(t, m.value)] else series, docs, t + 1, q)
  }

  /** `track_attribute_over_time`: the timestamps and means it plots. */
  method NodeTrend(docs: seq<Document>, nodeType: string, attribute: string) returns (r: Result<seq<Point>>)
    ensures r == Trend([], docs, 0, NodeQuery(nodeType, attribute))
  {
    var q := NodeQuery(nodeType, attribute);
    var series: seq<Point> := [];
    for t := 0 to |docs|
      invariant Trend(series, docs, t, q) == Trend([], docs, 0, q)
    {
      var data := docs[t];
      var bucket := Bucket(data.nodeValues, nodeType);
      if bucket.Ok? {
        var values := NodeColumn(bucket.value, Names(data.nodeTypes, nodeType), attribute);
        if values.Err? {
          return Err(values.fault);
        }
        if |values.value| > 0 {
          var total := Sum(values.value);
          if total.Err? {
            return Err(total.fault);
          }
          SumIsSumOfNumbers(values.value);
          series := series + [(t, total.value / (|values.value| as real))];
        }
      }
    }
    return Ok(series);
  }

  /** `track_edge_attribute_over_time_streamlit`: `None` stands for the
      "no data found" message, shown instead of a chart when no timestamp
      has values. */
  method EdgeTrend(docs: seq<Document>, edgeType: string, attribute: string) returns (r: Result<Option<seq<Point>>>)
    ensures Trend([], docs, 0, EdgeQuery(edgeType, attribute)).Err? ==> r == Err(Trend([], docs, 0, EdgeQuery(edgeType, attribute)).fault)
    ensures Trend([], docs, 0, EdgeQuery(edgeType, attribute)).Ok? ==>
      var series := Trend([], docs, 0, EdgeQuery(edgeType, attribute)).value;
      r == Ok(if |series| == 0 then None else Some(series))
  {
    var q := EdgeQuery(edgeType, attribute);
    var series: seq<Point> := [];
    for t := 0 to |docs|
      invariant Trend(series, docs, t, q) == Trend([], docs, 0, q)
    {
      var data := docs[t];
      if edgeType in data.relTypes {
        var values := EdgeColumn(data.relValues, edgeType, data.relTypes[edgeType], attribute);
        if values.Err? {
          return Err(values.fault);
        }
        if |values.value| > 0 {
          var total := Sum(values.value);
          if total.Err? {
            return Err(total.fault);
          }
          SumIsSumOfNumbers(values.value);
          series := series + [(t, total.value / (|values.value| as real))];
        }
      }
    }
    if |series| == 0 {
      return Ok(None);
    }
    return Ok(Some(series));
  }

  /** Strictly increasing timestamps. */
  predicate Increasing(series: seq<Point>)
  {
    forall i, j :: 0 <= i < j < |series| ==> series[i].0 < series[j].0
  }

  /** Snapshot `u` gives mean `m`. */
  predicate Gives(docs: seq<Document>, u: nat, q: Query, m: real)
  {
    u < |docs| && Step(docs[u], q) == Ok(Some(m))
  }

  /** The scan fails exactly when some snapshot from `t` on raises. */
  lemma {:induction false} TrendOk(series: seq<Point>, docs: seq<Document>, t: nat, q: Query)
    requires t <= |docs|
    ensures Trend(series, docs, t, q).Ok? <==> forall u :: t <= u < |docs| ==> Step(docs[u], q).Ok?
    decreases |docs| - t
  {
    if t < |docs| {
      var step := Step(docs[t], q);
      if step.Ok? {
        var series' := if step.value.Some? then series + [(t, step.value.value)] else series;
        assert Trend(series, docs, t, q) == Trend(series', docs, t + 1, q);
        TrendOk(series', docs, t + 1, q);
      }
    }
  }

  /** A scan that succeeds keeps the points it starts from and adds at most
      one per snapshot. */
  lemma {:induction false} TrendPrefix(series: seq<Point>, docs: seq<Document>, t: nat, q: Query)
    requires t <= |docs|
    ensures var r := Trend(series, docs, t, q);
      r.Ok? ==> |series| <= |r.value| <= |series| + |docs| - t && r.value[..|series|] == series
    decreases |docs| - t
  {
    if t < |docs| {
      var step := Step(docs[t], q);
      if step.Ok? {
        var series' := if step.value.Some? then series + [(t, step.value.value)] else series;
        var r := Trend(series, docs, t, q);
        assert r == Trend(series', docs, t + 1, q);
        TrendPrefix(series', docs, t + 1, q);
        if r.Ok? {
          var out := r.value;
          assert |series| <= |series'| <= |series| + 1;
          assert out[..|series'|] == series';
          assert out[..|series|] == series by {
            forall k | 0 <= k < |series| ensures out[k] == series[k] {
              assert out[k] == out[..|series'|][k] == series'[k];
            }
          }
        }
      }
    } else {
      assert series[..|series|] == series;
    }
  }

  /** Every point the scan adds is `(u, m)` for a snapshot `u` from `t` on
      that gives mean `m`. */
  lemma {:induction false} TrendSound(series: seq<Point>, docs: seq<Document>, t: nat, q: Query)
    requires t <= |docs|
    ensures var r := Trend(series, docs, t, q);
      r.Ok? ==> forall i :: |series| <= i < |r.value| ==> t <= r.value[i].0 && Gives(docs, r.value[i].0, q, r.value[i].1)
    decreases |docs| - t
  {
    TrendPrefix(series, docs, t, q);
    if t < |docs| {
      var step := Step(docs[t], q);
      if step.Ok? {
        var series' := if step.value.Some? then series + [(t, step.value.value)] else series;
        TrendSound(series', docs, t + 1, q);
        TrendPrefix(series', docs, t + 1, q);
        var r := Trend(series, docs, t, q);
        if r.Ok? && step.value.Some? {
          assert r.value[|series|] == r.value[..|series'|][|series|];
        }
      }
    }
  }

  /** Every snapshot from `t` on that gives a mean has its point. */
  lemma TrendComplete(series: seq<Point>, docs: seq<Document>, t: nat, q: Query)
    requires t <= |docs|
    ensures var r := Trend(series, docs, t, q);
      r.Ok? ==> forall u, m :: t <= u && Gives(docs, u, q, m) ==> (u, m) in r.value
  {
    forall u, m | t <= u && Gives(docs, u, q, m)
      ensures Trend(series, docs, t, q).Ok? ==> (u, m) in Trend(series, docs, t, q).value
    {
      TrendHas(series, docs, t, q, u, m);
    }
  }

  /** One snapshot at a time: the point of snapshot `u` is in the scan from
      any `t` up to `u`. */
  lemma {:induction false} TrendHas(series: seq<Point>, docs: seq<Document>, t: nat, q: Query, u: nat, m: real)
    requires t <= u && Gives(docs, u, q, m)
    ensures Trend(series, docs, t, q).Ok? ==> (u, m) in Trend(series, docs, t, q).value
    decreases u - t
  {
    var step := Step(docs[t], q);
    if step.Ok? {
      var series' := if step.value.Some? then series + [(t, step.value.value)] else series;
      assert Trend(series, docs, t, q) == Trend(series', docs, t + 1, q);
      if t < u {
        TrendHas(series', docs, t + 1, q, u, m);
      } else {
        TrendPrefix(series', docs, t + 1, q);
        var r := Trend(series', docs, t + 1, q);
        if r.Ok? {
          assert r.value[..|series'|][|series|] == series'[|series|] == (u, m);
        }
      }
    }
  }

  /** Starting from strictly increasing points all before `t`, the series
      stays strictly increasing. */
  lemma {:induction false} TrendIncreasing(series: seq<Point>, docs: seq<Document>, t: nat, q: Query)
    requires t <= |docs| && Increasing(series) && forall i :: 0 <= i < |series| ==> series[i].0 < t
    ensures Trend(series, docs, t, q).Ok? ==> Increasing(Trend(series, docs, t, q).value)
    decreases |docs| - t
  {
    if t < |docs| {
      var step := Step(docs[t], q);
      if step.Ok? {
        var series' := if step.value.Some? then series + [(t, step.value.value)] else series;
        TrendIncreasing(series', docs, t + 1, q);
      }
    }
  }

  /** The whole series: points in strictly increasing timestamp order, each
      timestamp a position in the document list, each mean the one that
      snapshot gives, and every snapshot that gives a mean represented. */
  lemma TrendSeries(docs: seq<Document>, q: Query)
    ensures var r := Trend([], docs, 0, q);
      && (r.Ok? <==> forall u :: 0 <= u < |docs| ==> Step(docs[u], q).Ok?)
      && (r.Ok? ==> Increasing(r.value) && |r.value| <= |docs|)
      && (r.Ok? ==> forall p: Point :: p in r.value <==> Gives(docs, p.0, q, p.1))
  {
    TrendOk([], docs, 0, q);
    TrendPrefix([], docs, 0, q);
    TrendSound([], docs, 0, q);
    TrendComplete([], docs, 0, q);
    TrendIncreasing([], docs, 0, q);
    var r := Trend([], docs, 0, q);
    if r.Ok? {
      forall p: Point | p in r.value ensures Gives(docs, p.0, q, p.1) {
        var i :| 0 <= i < |r.value| && r.value[i] == p;
      }
    }
  }

  // ---------------------------------------------------------------------
  // plot_attribute_for_node_streamlit
  // ---------------------------------------------------------------------

  /** A point of the single-node series: the timestamp and the raw value. */
  type Sample = (nat, Value)

  /** The position of the first record from `from` on that holds the
      identifier among its values, at any position. */
  function FirstHolding(recs: seq<Record>, id: string, from: nat): (r: Option<nat>)
    ensures r.Some? ==> (from <= r.value < |recs| && Str(id) in recs[r.value] &&
      forall j :: from <= j < r.value ==> Str(id) !in recs[j])
    ensures r.None? ==> forall j :: from <= j < |recs| ==> Str(id) !in recs[j]
    decreases |recs| - from
  {
    if from >= |recs| then None
    else if Str(id) in recs[from] then Some(from)
    else FirstHolding(recs, id, from + 1)
  }

  /** What bucket `b` of a snapshot contributes: the attribute of its first
      record holding the identifier, if the type's field names hold the
      attribute. Finding a record looks the type's field names up (KeyError
      when the type is not declared); later records of the bucket are not
      examined. */
  function BucketSample(doc: Document, b: nat, id: string, attribute: string): (r: Result<Option<Value>>)
    requires b < |doc.nodeValues|
    ensures FirstHolding(doc.nodeValues[b].1, id, 0).None? ==> r == Ok(None)
    ensures FirstHolding(doc.nodeValues[b].1, id, 0).Some? && doc.nodeValues[b].0 !in doc.nodeTypes ==> r == Err(KeyError)
    ensures (FirstHolding(doc.nodeValues[b].1, id, 0).Some? && doc.nodeValues[b].0 in doc.nodeTypes &&
      attribute !in doc.nodeTypes[doc.nodeValues[b].0]) ==> r == Ok(None)
    ensures var recs := doc.nodeValues[b].1; var i := FirstHolding(recs, id, 0);
      (i.Some? && doc.nodeValues[b].0 in doc.nodeTypes && attribute in doc.nodeTypes[doc.nodeValues[b].0] &&
       |recs[i.value]| <= IndexOf(doc.nodeTypes[doc.nodeValues[b].0], attribute)) ==> r == Err(IndexError)
    ensures r.Err? ==> r.fault == KeyError || r.fault == IndexError
    ensures r.Ok? && r.value.Some? ==>
      var recs := doc.nodeValues[b].1;
      var i := FirstHolding(recs, id, 0).value;
      && doc.nodeValues[b].0 in doc.nodeTypes
      && var names := doc.nodeTypes[doc.nodeValues[b].0];
      && attribute in names
      && IndexOf(names, attribute) < |recs[i]| && r.value.value == recs[i][IndexOf(names, attribute)]
  {
    var (typeName, recs) := doc.nodeValues[b];
    match FirstHolding(recs, id, 0)
    case None => Ok(None)
    case Some(i) =>
      if typeName !in doc.nodeTypes then Err(KeyError)
      else if attribute !in doc.nodeTypes[typeName] then Ok(None)
      else
        var k := IndexOf(doc.nodeTypes[typeName], attribute);
        if k < |recs[i]| then Ok(Some(recs[i][k])) else Err(IndexError)
  }

  /** The samples of value `v`, if any, at timestamp `t`. */
  function Emit(t: nat, v: Option<Value>): seq<Sample>
  {
    if v.Some? then [(t, v.value)] else []
  }

  /** `samples` followed by what buckets `b` onwards of a snapshot
      contribute at timestamp `t`. */
  function BucketSamples(samples: seq<Sample>, t: nat, doc: Document, b: nat, id: string, attribute: string): Result<seq<Sample>>
    decreases |doc.nodeValues| - b
  {
    if b >= |doc.nodeValues| then Ok(samples)
    else match BucketSample(doc, b, id, attribute)
      case Err(f) => Err(f)
      case Ok(v) => BucketSamples(samples + Emit(t, v), t, doc, b + 1, id, attribute)
  }

  /** `samples` followed by what the snapshots from timestamp `t` on
      contribute. */
  function Samples(samples: seq<Sample>, docs: seq<Document>, t: nat, id: string, attribute: string): Result<seq<Sample>>
    decreases |docs| - t
  {
    if t >= |docs| then Ok(samples)
    else match BucketSamples(samples, t, docs[t], 0, id, attribute)
      case Err(f) => Err(f)
      case Ok(more) => Samples(more, docs, t + 1, id, attribute)
  }

  /** The outcome of the single-node trend: `None` stands for the "not
      found" message, shown when no snapshot gave a value. */
  function History(docs: seq<Document>, id: string, attribute: string): Result<Option<seq<Sample>>>
  {
    match Samples([], docs, 0, id, attribute)
    case Err(f) => Err(f)
    case Ok(samples) => Ok(if |samples| == 0 then None else Some(samples))
  }

  /** `plot_attribute_for_node_streamlit`: the samples it plots. The
      `break` leaves the scan of one bucket only, so every bucket of every
      snapshot is visited. `nodes.index(subnode)` finds the record at hand
      or an equal one, so the value is read from the record at hand. */
  method NodeHistory(docs: seq<Document>, id: string, attribute: string) returns (r: Result<Option<seq<Sample>>>)
    ensures r == History(docs, id, attribute)
  {
    var samples: seq<Sample> := [];
    var found := false;
    for t := 0 to |docs|
      invariant found <==> |samples| > 0
      invariant Samples(samples, docs, t, id, attribute) == Samples([], docs, 0, id, attribute)
    {
      var data := docs[t];
      ghost var before := samples;
      for b := 0 to |data.nodeValues|
        invariant found <==> |samples| > 0
        invariant BucketSamples(samples, t, data, b, id, attribute) == BucketSamples(before, t, data, 0, id, attribute)
      {
        var (typeName, nodes) := data.nodeValues[b];
        ghost var start := samples;
        ghost var done := false;
        var j: nat := 0;
        while j < |nodes|
          invariant 0 <= j <= |nodes|
          invariant found <==> |samples| > 0
          invariant samples == start && FirstHolding(nodes, id, j) == FirstHolding(nodes, id, 0)
        {
          if Str(id) in nodes[j] {
            if typeName !in data.nodeTypes {
              return Err(KeyError);
            }
            var names := data.nodeTypes[typeName];
            if attribute in names {
              found := true;
              var k := IndexOf(names, attribute);
              if |nodes[j]| <= k {
                return Err(IndexError);
              }
              samples := samples + [(t, nodes[j][k])];
            }
            done := true;
            break;
          }
          j := j + 1;
        }
        if !done {
          assert FirstHolding(nodes, id, j) == None;
          assert start + Emit(t, None) == start;
        }
        assert BucketSample(data, b, id, attribute).Ok?;
        assert samples == start + Emit(t, BucketSample(data, b, id, attribute).value);
        assert BucketSamples(start, t, data, b, id, attribute) == BucketSamples(samples, t, data, b + 1, id, attribute);
      }
    }
    if !found {
      return Ok(None);
    }
    return Ok(Some(samples));
  }

  /** Non-decreasing timestamps. */
  predicate Ordered(samples: seq<Sample>)
  {
    forall i, j :: 0 <= i < j < |samples| ==> samples[i].0 <= samples[j].0
  }

  /** Bucket `c` of a snapshot gives value `v`. */
  predicate BucketGives(doc: Document, c: nat, id: string, attribute: string, v: Value)
  {
    c < |doc.nodeValues| && BucketSample(doc, c, id, attribute) == Ok(Some(v))
  }

  /** Some bucket of snapshot `t` gives value `v`. */
  ghost predicate SampledAt(docs: seq<Document>, t: nat, id: string, attribute: string, v: Value)
  {
    t < |docs| && exists c: nat :: BucketGives(docs[t], c, id, attribute, v)
  }

  /** Over the buckets of one snapshot from `b` on: the scan fails exactly
      when some bucket raises, and otherwise keeps the samples it starts
      from. */
  lemma {:induction false} BucketSamplesPrefix(samples: seq<Sample>, t: nat, doc: Document, b: nat, id: string, attribute: string)
    requires b <= |doc.nodeValues|
    ensures var r := BucketSamples(samples, t, doc, b, id, attribute);
      && (r.Ok? <==> forall c :: b <= c < |doc.nodeValues| ==> BucketSample(doc, c, id, attribute).Ok?)
      && (r.Ok? ==> |samples| <= |r.value| && r.value[..|samples|] == samples)
    decreases |doc.nodeValues| - b
  {
    if b < |doc.nodeValues| {
      var step := BucketSample(doc, b, id, attribute);
      if step.Ok? {
        var samples' := samples + Emit(t, step.value);
        BucketSamplesPrefix(samples', t, doc, b + 1, id, attribute);
        var r := BucketSamples(samples, t, doc, b, id, attribute);
        if r.Ok? {
          assert r.value[..|samples|] == samples'[..|samples|];
        }
      }
    }
  }

  /** From position `from` on, every sample of `out` is `(t, v)` for a
      bucket from `b` on that gives `v`. */
  ghost predicate EmittedFrom(out: seq<Sample>, from: nat, t: nat, doc: Document, b: nat, id: string, attribute: string)
  {
    forall i :: from <= i < |out| ==>
      (out[i].0 == t && exists c: nat :: b <= c && BucketGives(doc, c, id, attribute, out[i].1))
  }

  /** Every sample the bucket scan adds is `(t, v)` for a bucket from `b` on
      that gives `v`. */
  lemma {:induction false} BucketSamplesSound(samples: seq<Sample>, t: nat, doc: Document, b: nat, id: string, attribute: string)
    requires b <= |doc.nodeValues|
    ensures var r := BucketSamples(samples, t, doc, b, id, attribute);
      r.Ok? ==> EmittedFrom(r.value, |samples|, t, doc, b, id, attribute)
    decreases |doc.nodeValues| - b
  {
    if b < |doc.nodeValues| {
      var step := BucketSample(doc, b, id, attribute);
      if step.Ok? {
        var samples' := samples + Emit(t, step.value);
        var r' := BucketSamples(samples', t, doc, b + 1, id, attribute);
        BucketSamplesPrefix(samples', t, doc, b + 1, id, attribute);
        BucketSamplesSound(samples', t, doc, b + 1, id, attribute);
        if r'.Ok? {
          assert |samples'| <= |r'.value| && r'.value[..|samples'|] == samples';
          SoundCons(samples, r'.value, t, doc, b, id, attribute, step.value);
        }
        assert BucketSamples(samples, t, doc, b, id, attribute) == r';
      }
    }
  }

  /** The soundness of the bucket scan, one bucket further back: what bucket
      `b` emits is what it gives. */
  lemma SoundCons(samples: seq<Sample>, out: seq<Sample>, t: nat, doc: Document, b: nat, id: string, attribute: string,
      v: Option<Value>)
    requires b < |doc.nodeValues| && BucketSample(doc, b, id, attribute) == Ok(v)
    requires |samples + Emit(t, v)| <= |out| && out[..|samples + Emit(t, v)|] == samples + Emit(t, v)
    requires EmittedFrom(out, |samples + Emit(t, v)|, t, doc, b + 1, id, attribute)
    ensures EmittedFrom(out, |samples|, t, doc, b, id, attribute)
  {
    var samples' := samples + Emit(t, v);
    forall i | |samples| <= i < |out|
      ensures out[i].0 == t && exists c: nat :: b <= c && BucketGives(doc, c, id, attribute, out[i].1)
    {
      if i < |samples'| {
        assert out[i] == out[..|samples'|][i];
        assert v.Some? && out[i] == (t, v.value);
        assert BucketGives(doc, b, id, attribute, out[i].1);
      }
    }
  }

  /** Every value a bucket from `b` on gives is sampled at `t`. */
  lemma {:induction false} BucketSamplesComplete(samples: seq<Sample>, t: nat, doc: Document, b: nat, id: string, attribute: string)
    requires b <= |doc.nodeValues|
    ensures var r := BucketSamples(samples, t, doc, b, id, attribute);
      r.Ok? ==> forall c, v :: b <= c && BucketGives(doc, c, id, attribute, v) ==> (t, v) in r.value
    decreases |doc.nodeValues| - b
  {
    if b < |doc.nodeValues| {
      var step := BucketSample(doc, b, id, attribute);
      if step.Ok? {
        var samples' := samples + Emit(t, step.value);
        BucketSamplesPrefix(samples', t, doc, b + 1, id, attribute);
        BucketSamplesComplete(samples', t, doc, b + 1, id, attribute);
        var r := BucketSamples(samples, t, doc, b, id, attribute);
        if r.Ok? && step.value.Some? {
          assert r.value[..|samples'|] == samples';
          assert r.value[|samples|] == (t, step.value.value);
        }
      }
    }
  }

  /** Over the snapshots from `t` on: the scan fails exactly when some
      bucket raises, and otherwise keeps the samples it starts from. */
  lemma {:induction false} SamplesPrefix(samples: seq<Sample>, docs: seq<Document>, t: nat, id: string, attribute: string)
    requires t <= |docs|
    ensures var r := Samples(samples, docs, t, id, attribute);
      && (r.Ok? <==> forall u, c :: t <= u < |docs| && 0 <= c < |docs[u].nodeValues| ==> BucketSample(docs[u], c, id, attribute).Ok?)
      && (r.Ok? ==> |samples| <= |r.value| && r.value[..|samples|] == samples)
    decreases |docs| - t
  {
    if t < |docs| {
      BucketSamplesPrefix(samples, t, docs[t], 0, id, attribute);
      var step := BucketSamples(samples, t, docs[t], 0, id, attribute);
      if step.Ok? {
        SamplesPrefix(step.value, docs, t + 1, id, attribute);
        var r := Samples(samples, docs, t, id, attribute);
        if r.Ok? {
          assert r.value[..|samples|] == r.value[..|step.value|][..|samples|];
        }
      }
    }
  }

  /** Every sample the scan adds is a value some bucket of its snapshot
      gives. */
  lemma {:induction false} SamplesSound(samples: seq<Sample>, docs: seq<Document>, t: nat, id: string, attribute: string)
    requires t <= |docs|
    ensures var r := Samples(samples, docs, t, id, attribute);
      r.Ok? ==> forall i :: |samples| <= i < |r.value| ==> t <= r.value[i].0 && SampledAt(docs, r.value[i].0, id, attribute, r.value[i].1)
    decreases |docs| - t
  {
    if t < |docs| {
      BucketSamplesPrefix(samples, t, docs[t], 0, id, attribute);
      BucketSamplesSound(samples, t, docs[t], 0, id, attribute);
      var step := BucketSamples(samples, t, docs[t], 0, id, attribute);
      if step.Ok? {
        var more := step.value;
        SamplesSound(more, docs, t + 1, id, attribute);
        SamplesPrefix(more, docs, t + 1, id, attribute);
        var r := Samples(samples, docs, t, id, attribute);
        if r.Ok? {
          forall i | |samples| <= i < |more|
            ensures r.value[i].0 == t && SampledAt(docs, t, id, attribute, r.value[i].1)
          {
            assert r.value[i] == r.value[..|more|][i];
          }
        }
      }
    }
  }

  /** Every value a bucket of a snapshot from `t` on gives is there. */
  lemma {:induction false} SamplesComplete(samples: seq<Sample>, docs: seq<Document>, t: nat, id: string, attribute: string)
    requires t <= |docs|
    ensures var r := Samples(samples, docs, t, id, attribute);
      r.Ok? ==> forall u, v :: t <= u && SampledAt(docs, u, id, attribute, v) ==> (u, v) in r.value
    decreases |docs| - t
  {
    if t < |docs| {
      BucketSamplesPrefix(samples, t, docs[t], 0, id, attribute);
      BucketSamplesComplete(samples, t, docs[t], 0, id, attribute);
      var step := BucketSamples(samples, t, docs[t], 0, id, attribute);
      if step.Ok? {
        var more := step.value;
        SamplesComplete(more, docs, t + 1, id, attribute);
        SamplesPrefix(more, docs, t + 1, id, attribute);
        var r := Samples(samples, docs, t, id, attribute);
        if r.Ok? {
          forall v | SampledAt(docs, t, id, attribute, v) ensures (t, v) in r.value {
            var c :| BucketGives(docs[t], c, id, attribute, v);
            var i :| 0 <= i < |more| && more[i] == (t, v);
            assert r.value[..|more|][i] == (t, v);
          }
        }
      }
    }
  }

  /** Starting from ordered samples none after `t`, the samples stay in
      non-decreasing timestamp order. */
  lemma {:induction false} SamplesOrdered(samples: seq<Sample>, docs: seq<Document>, t: nat, id: string, attribute: string)
    requires t <= |docs| && Ordered(samples) && forall i :: 0 <= i < |samples| ==> samples[i].0 <= t
    ensures Samples(samples, docs, t, id, attribute).Ok? ==> Ordered(Samples(samples, docs, t, id, attribute).value)
    decreases |docs| - t
  {
    if t < |docs| {
      BucketSamplesPrefix(samples, t, docs[t], 0, id, attribute);
      BucketSamplesSound(samples, t, docs[t], 0, id, attribute);
      var step := BucketSamples(samples, t, docs[t], 0, id, attribute);
      if step.Ok? {
        var more := step.value;
        assert forall i :: 0 <= i < |samples| ==> more[i] == samples[i];
        assert forall i :: |samples| <= i < |more| ==> more[i].0 == t;
        SamplesOrdered(more, docs, t + 1, id, attribute);
      }
    }
  }

  /** The single-node trend reports "not found" exactly when no bucket of
      any snapshot gives a value; otherwise its samples come in
      non-decreasing timestamp order and are exactly the values the buckets
      give. */
  lemma HistorySpec(docs: seq<Document>, id: string, attribute: string)
    ensures var r := History(docs, id, attribute);
      && (r.Ok? <==> forall u, c :: 0 <= u < |docs| && 0 <= c < |docs[u].nodeValues| ==> BucketSample(docs[u], c, id, attribute).Ok?)
      && (r == Ok(None) <==> r.Ok? && forall u, v :: !SampledAt(docs, u, id, attribute, v))
      && (r.Ok? && r.value.Some? ==> (Ordered(r.value.value) &&
            forall s: Sample :: s in r.value.value <==> SampledAt(docs, s.0, id, attribute, s.1)))
  {
    SamplesPrefix([], docs, 0, id, attribute);
    SamplesSound([], docs, 0, id, attribute);
    SamplesComplete([], docs, 0, id, attribute);
    SamplesOrdered([], docs, 0, id, attribute);
    var r := Samples([], docs, 0, id, attribute);
    if r.Ok? {
      forall s: Sample | s in r.value ensures SampledAt(docs, s.0, id, attribute, s.1) {
        var i :| 0 <= i < |r.value| && r.value[i] == s;
      }
      if |r.value| > 0 {
        assert SampledAt(docs, r.value[0].0, id, attribute, r.value[0].1);
      }
    }
  }

  /** A snapshot with a Supplier record "S1" and a Parts record that names
      "S1" as its supplier. */
  function SharedIdentifier(): Document
  {
    Document(
      true,
      map["Supplier" := ["node_type", "reliability", "id"], "Parts" := ["node_type", "supplier", "id"]],
      [ ("Supplier", [[Str("Supplier"), Num(0.9), Str("S1")]]),
        ("Parts", [[Str("Parts"), Str("S1"), Str("P1")]]) ],
      map[], [])
  }

  /** A record matches wherever the identifier occurs in it, so the Parts
      record joins in and timestamp 0 appears twice. */
  lemma SharedIdentifierRepeats()
    ensures History([SharedIdentifier()], "S1", "node_type") == Ok(Some([(0, Str("Supplier")), (0, Str("Parts"))]))
  {
    var doc := SharedIdentifier();
    var a := (0, Str("Supplier"));
    var p := (0, Str("Parts"));
    assert doc.nodeValues[0].1[0][2] == Str("S1");
    assert doc.nodeValues[1].1[0][1] == Str("S1");
    assert FirstHolding(doc.nodeValues[0].1, "S1", 0) == Some(0);
    assert FirstHolding(doc.nodeValues[1].1, "S1", 0) == Some(0);
    assert IndexOf(doc.nodeTypes["Supplier"], "node_type") == 0;
    assert IndexOf(doc.nodeTypes["Parts"], "node_type") == 0;
    assert BucketSample(doc, 0, "S1", "node_type") == Ok(Some(Str("Supplier")));
    assert BucketSample(doc, 1, "S1", "node_type") == Ok(Some(Str("Parts")));
    assert [] + [a] == [a];
    assert [a] + [p] == [a, p];
    assert BucketSamples([], 0, doc, 0, "S1", "node_type") == Ok([a, p]);
    assert Samples([], [doc], 0, "S1", "node_type") == Samples([a, p], [doc], 1, "S1", "node_type");
  }
}
