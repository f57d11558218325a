/** The merge engine (`merge_gcp_data`), identical in both scripts.

    Control points are put in a dict keyed by `ID`. Each marker, in order,
    either consumes the control point with its `MarkerID` (an `Integrated`
    record) or stands alone (`MarkerOnly`). The control points left in the dict
    follow, in dict order, as `ControlPointOnly`. */
module MergeEngine {
  import opened Wrappers
  import opened OrderedDict
  import opened Records

  /** The working dict `cp_dict`. */
  type Pending = Dict<Option<string>, ControlPoint>

  /** The `(cp['ID'], cp)` pairs, in input order. */
  function IdPairs(cps: seq<ControlPoint>): (ps: seq<(Option<string>, ControlPoint)>)
    ensures |ps| == |cps|
    ensures forall i :: 0 <= i < |cps| ==> ps[i] == (cps[i].id, cps[i])
  {
    seq(|cps|, i requires 0 <= i < |cps| => (cps[i].id, cps[i]))
  }

  /** `cp_dict = {cp['ID']: cp for cp in control_points}`. */
  function ControlPointDict(cps: seq<ControlPoint>): Pending {
    FromPairs(IdPairs(cps))
  }

  /** The final loop over `cp_dict.items()`. */
  function Leftovers<M>(pending: Pending): seq<Merged<M>> {
    seq(|pending|, i requires 0 <= i < |pending| => ControlPointOnly(pending[i].1))
  }

  /** The loop over the markers, from a given state of `cp_dict`. */
  function MergeFrom<M>(markers: seq<Marker<M>>, pending: Pending): seq<Merged<M>>
    decreases |markers|
  {
    if |markers| == 0 then Leftovers(pending)
    else
      var m := markers[0];
      match Get(pending, m.markerId)
      case Some(cp) => [Integrated(cp, m)] + MergeFrom(markers[1..], Remove(pending, m.markerId))
      case None => [MarkerOnly(m)] + MergeFrom(markers[1..], pending)
  }

  /** `merge_gcp_data(control_points, markers)`. */
  function MergeGcpData<M>(cps: seq<ControlPoint>, markers: seq<Marker<M>>): seq<Merged<M>> {
    MergeFrom(markers, ControlPointDict(cps))
  }

  /** The `MarkerID`s of the markers. */
  function MarkerIds<M>(markers: seq<Marker<M>>): set<Option<string>> {
    if |markers| == 0 then {} else {markers[0].markerId} + MarkerIds(markers[1..])
  }

  /** No earlier marker has the `MarkerID` of marker `i`. */
  predicate FirstWithId<M>(markers: seq<Marker<M>>, i: int)
    requires 0 <= i < |markers|
  {
    forall j :: 0 <= j < i ==> markers[j].markerId != markers[i].markerId
  }

  /** Marker `i` finds its control point still in the dict: the id was there to
      begin with and no earlier marker has consumed it. */
  predicate Claims<M>(markers: seq<Marker<M>>, i: int, pending: Pending)
    requires 0 <= i < |markers|
  {
    markers[i].markerId in Keys(pending) && FirstWithId(markers, i)
  }

  /** The control points the records carry, in record order. */
  function ControlPointsOf<M>(rs: seq<Merged<M>>): seq<ControlPoint> {
    if |rs| == 0 then []
    else (if rs[0].HasControlPoint() then [rs[0].cp] else []) + ControlPointsOf(rs[1..])
  }

  /** The markers the records carry, in record order. */
  function MarkersOf<M>(rs: seq<Merged<M>>): seq<Marker<M>> {
    if |rs| == 0 then []
    else (if rs[0].HasMarker() then [rs[0].marker] else []) + MarkersOf(rs[1..])
  }

  /** The number of `Integrated` records. */
  function IntegratedCount<M>(rs: seq<Merged<M>>): nat {
    if |rs| == 0 then 0
    else (if rs[0].Integrated? then 1 else 0) + IntegratedCount(rs[1..])
  }

  lemma {:induction false} Shift<M>(markers: seq<Marker<M>>, i: int, pending: Pending, pending': Pending)
    requires 0 < i < |markers|
    requires forall k :: k != markers[0].markerId ==> (k in Keys(pending') <==> k in Keys(pending))
    requires markers[0].markerId !in Keys(pending')
    ensures Claims(markers, i, pending) <==> Claims(markers[1..], i - 1, pending')
  {
    var tail := markers[1..];
    assert markers[i] == tail[i - 1];
    if FirstWithId(markers, i) {
      assert FirstWithId(tail, i - 1) by {
        assert forall j :: 0 <= j < i - 1 ==> tail[j] == markers[j + 1];
      }
    }
    if FirstWithId(tail, i - 1) && markers[i].markerId != markers[0].markerId {
      assert forall j :: 0 < j < i ==> markers[j] == tail[j - 1];
    }
  }

  /** The marker side of one merge loop: record `i` is the `Integrated` record
      of marker `i` and the control point it claims, or marker `i` alone; the
      control points no marker names follow in dict order. */
  lemma {:induction false} MergeFromSpec<M>(markers: seq<Marker<M>>, pending: Pending)
    requires DistinctKeys(pending)
    ensures |MergeFrom(markers, pending)| == |markers| + |Without(pending, MarkerIds(markers))|
    ensures forall i :: 0 <= i < |markers| ==>
              MergeFrom(markers, pending)[i] == Expected(markers, i, pending)
    ensures MergeFrom(markers, pending)[|markers|..] == Leftovers(Without(pending, MarkerIds(markers)))
  {
    if |markers| == 0 {
      WithoutNothing(pending);
    } else {
      var m := markers[0];
      match Get(pending, m.markerId)
      case Some(cp) =>
        var pending' := Remove(pending, m.markerId);
        WithoutDistinct(pending, {m.markerId});
        WithoutKeys(pending, {m.markerId});
        MergeFromSpec(markers[1..], pending');
        MergeFromClaimed(markers, pending, cp);
      case None =>
        MergeFromSpec(markers[1..], pending);
        MergeFromUnclaimed(markers, pending);
    }
  }

  /** What the marker loop makes of marker `i`. */
  function Expected<M>(markers: seq<Marker<M>>, i: int, pending: Pending): Merged<M>
    requires 0 <= i < |markers|
  {
    if Claims(markers, i, pending) then Integrated(Get(pending, markers[i].markerId).value, markers[i])
    else MarkerOnly(markers[i])
  }

  /** The step of `MergeFromSpec` where the first marker consumes a control point. */
  lemma MergeFromClaimed<M>(markers: seq<Marker<M>>, pending: Pending, cp: ControlPoint)
    requires |markers| > 0
    requires Get(pending, markers[0].markerId) == Some(cp)
    requires forall k :: k in Keys(Remove(pending, markers[0].markerId)) <==> k in Keys(pending) && k !in {markers[0].markerId}
    requires var pending' := Remove(pending, markers[0].markerId);
             var tail := markers[1..];
             && |MergeFrom(tail, pending')| == |tail| + |Without(pending', MarkerIds(tail))|
             && (forall i :: 0 <= i < |tail| ==> MergeFrom(tail, pending')[i] == Expected(tail, i, pending'))
             && MergeFrom(tail, pending')[|tail|..] == Leftovers(Without(pending', MarkerIds(tail)))
    ensures |MergeFrom(markers, pending)| == |markers| + |Without(pending, MarkerIds(markers))|
    ensures forall i :: 0 <= i < |markers| ==> MergeFrom(markers, pending)[i] == Expected(markers, i, pending)
    ensures MergeFrom(markers, pending)[|markers|..] == Leftovers(Without(pending, MarkerIds(markers)))
  {
    var m := markers[0];
    var tail := markers[1..];
    var pending' := Remove(pending, m.markerId);
    var r := MergeFrom(markers, pending);
    var r' := MergeFrom(tail, pending');
    assert MarkerIds(markers) == {m.markerId} + MarkerIds(tail);
    assert r == [Integrated(cp, m)] + r';
    forall k ensures k != m.markerId ==> Get(pending', k) == Get(pending, k) {
      WithoutGet(pending, {m.markerId}, k);
    }
    ExpectedShift(markers, pending, pending', r, r');
    WithoutTwice(pending, {m.markerId}, MarkerIds(tail));
    assert r[|markers|..] == r'[|tail|..];
  }

  /** The step of `MergeFromSpec` where the first marker finds no control point. */
  lemma MergeFromUnclaimed<M>(markers: seq<Marker<M>>, pending: Pending)
    requires |markers| > 0
    requires Get(pending, markers[0].markerId).None?
    requires var tail := markers[1..];
             && |MergeFrom(tail, pending)| == |tail| + |Without(pending, MarkerIds(tail))|
             && (forall i :: 0 <= i < |tail| ==> MergeFrom(tail, pending)[i] == Expected(tail, i, pending))
             && MergeFrom(tail, pending)[|tail|..] == Leftovers(Without(pending, MarkerIds(tail)))
    ensures |MergeFrom(markers, pending)| == |markers| + |Without(pending, MarkerIds(markers))|
    ensures forall i :: 0 <= i < |markers| ==> MergeFrom(markers, pending)[i] == Expected(markers, i, pending)
    ensures MergeFrom(markers, pending)[|markers|..] == Leftovers(Without(pending, MarkerIds(markers)))
  {
    var m := markers[0];
    var tail := markers[1..];
    var r := MergeFrom(markers, pending);
    var r' := MergeFrom(tail, pending);
    assert r == [MarkerOnly(m)] + r';
    ExpectedShift(markers, pending, pending, r, r');
    WithoutAbsent(pending, MarkerIds(tail), m.markerId);
    assert MarkerIds(tail) + {m.markerId} == MarkerIds(markers);
    assert r[|markers|..] == r'[|tail|..];
  }

  /** Records `1..` of a merge from `pending` are the records of the rest of
      the markers merged from `pending'`, the dict after the first marker. */
  lemma ExpectedShift<M>(markers: seq<Marker<M>>, pending: Pending, pending': Pending, r: seq<Merged<M>>, r': seq<Merged<M>>)
    requires |markers| > 0 && |r| == |r'| + 1 && |r'| >= |markers| - 1
    requires r[0] == Expected(markers, 0, pending) && r[1..] == r'
    requires markers[0].markerId !in Keys(pending')
    requires forall k :: k != markers[0].markerId ==> Get(pending', k) == Get(pending, k)
    requires forall i :: 0 <= i < |markers| - 1 ==> r'[i] == Expected(markers[1..], i, pending')
    ensures forall i :: 0 <= i < |markers| ==> r[i] == Expected(markers, i, pending)
  {
    forall k | k != markers[0].markerId ensures k in Keys(pending') <==> k in Keys(pending) {
      assert Get(pending', k) == Get(pending, k);
    }
    forall i | 0 < i < |markers| ensures r[i] == Expected(markers, i, pending) {
      var tail := markers[1..];
      Shift(markers, i, pending, pending');
      assert tail[i - 1] == markers[i];
      assert r[i] == r'[i - 1] == Expected(tail, i - 1, pending');
      if markers[i].markerId != markers[0].markerId {
        assert Get(pending', markers[i].markerId) == Get(pending, markers[i].markerId);
      }
    }
  }

  /** The three record projections distribute over concatenation. */
  lemma ControlPointsOfAppend<M>(a: seq<Merged<M>>, b: seq<Merged<M>>)
    ensures ControlPointsOf(a + b) == ControlPointsOf(a) + ControlPointsOf(b)
    ensures MarkersOf(a + b) == MarkersOf(a) + MarkersOf(b)
    ensures IntegratedCount(a + b) == IntegratedCount(a) + IntegratedCount(b)
  {
    CarriedPointsAppend(a, b);
    CarriedMarkersAppend(a, b);
    IntegratedCountAppend(a, b);
  }

  lemma {:induction false} CarriedPointsAppend<M>(a: seq<Merged<M>>, b: seq<Merged<M>>)
    ensures ControlPointsOf(a + b) == ControlPointsOf(a) + ControlPointsOf(b)
  {
    if |a| == 0 {
      assert a + b == b;
    } else {
      var head := if a[0].HasControlPoint() then [a[0].cp] else [];
      assert (a + b)[0] == a[0] && (a + b)[1..] == a[1..] + b;
      assert ControlPointsOf(a + b) == head + ControlPointsOf(a[1..] + b);
      CarriedPointsAppend(a[1..], b);
      assert head + (ControlPointsOf(a[1..]) + ControlPointsOf(b)) == (head + ControlPointsOf(a[1..])) + ControlPointsOf(b);
    }
  }

  lemma {:induction false} CarriedMarkersAppend<M>(a: seq<Merged<M>>, b: seq<Merged<M>>)
    ensures MarkersOf(a + b) == MarkersOf(a) + MarkersOf(b)
  {
    if |a| == 0 {
      assert a + b == b;
    } else {
      var head := if a[0].HasMarker() then [a[0].marker] else [];
      assert (a + b)[0] == a[0] && (a + b)[1..] == a[1..] + b;
      assert MarkersOf(a + b) == head + MarkersOf(a[1..] + b);
      CarriedMarkersAppend(a[1..], b);
      assert head + (MarkersOf(a[1..]) + MarkersOf(b)) == (head + MarkersOf(a[1..])) + MarkersOf(b);
    }
  }

  lemma {:induction false} IntegratedCountAppend<M>(a: seq<Merged<M>>, b: seq<Merged<M>>)
    ensures IntegratedCount(a + b) == IntegratedCount(a) + IntegratedCount(b)
  {
    if |a| == 0 {
      assert a + b == b;
    } else {
      assert (a + b)[1..] == a[1..] + b;
      IntegratedCountAppend(a[1..], b);
    }
  }

  lemma {:induction false} LeftoversCarry<M>(pending: Pending)
    ensures ControlPointsOf(Leftovers<M>(pending)) == Values(pending)
    ensures MarkersOf(Leftovers<M>(pending)) == []
    ensures IntegratedCount(Leftovers<M>(pending)) == 0
  {
    if |pending| > 0 {
      LeftoversCarry<M>(pending[1..]);
      assert Leftovers<M>(pending) == [ControlPointOnly(pending[0].1)] + Leftovers<M>(pending[1..]);
      assert Values(pending) == [pending[0].1] + Values(pending[1..]);
    }
  }

  /** One merge loop emits every marker once, in order, and every control point
      of the dict once: the carried control points are a permutation of the dict's values. */
  lemma {:induction false} MergeFromCarries<M>(markers: seq<Marker<M>>, pending: Pending)
    requires DistinctKeys(pending)
    ensures MarkersOf(MergeFrom(markers, pending)) == markers
    ensures multiset(ControlPointsOf(MergeFrom(markers, pending))) == multiset(Values(pending))
  {
    if |markers| == 0 {
      LeftoversCarry<M>(pending);
    } else {
      var m := markers[0];
      match Get(pending, m.markerId)
      case Some(cp) =>
        var pending' := Remove(pending, m.markerId);
        var r' := MergeFrom(markers[1..], pending');
        WithoutDistinct(pending, {m.markerId});
        MergeFromCarries(markers[1..], pending');
        assert MergeFrom(markers, pending) == [Integrated(cp, m)] + r';
        ControlPointsOfAppend([Integrated(cp, m)], r');
        assert ControlPointsOf([Integrated(cp, m)]) == [cp] && MarkersOf([Integrated(cp, m)]) == [m];
        RemoveValues(pending, m.markerId);
        assert multiset([cp] + ControlPointsOf(r')) == multiset{cp} + multiset(ControlPointsOf(r'));
        assert markers == [m] + markers[1..];
      case None =>
        var r' := MergeFrom(markers[1..], pending);
        MergeFromCarries(markers[1..], pending);
        assert MergeFrom(markers, pending) == [MarkerOnly(m)] + r';
        ControlPointsOfAppend([MarkerOnly(m)], r');
        assert ControlPointsOf([MarkerOnly(m)]) == [] && MarkersOf([MarkerOnly(m)]) == [m];
        assert [] + ControlPointsOf(r') == ControlPointsOf(r');
        assert markers == [m] + markers[1..];
    }
  }

  /** Each record carries a marker, a control point, or both (`Integrated`). */
  lemma {:induction false} RecordCount<M>(rs: seq<Merged<M>>)
    ensures |rs| + IntegratedCount(rs) == |MarkersOf(rs)| + |ControlPointsOf(rs)|
  {
    if |rs| > 0 {
      RecordCount(rs[1..]);
    }
  }

  // ----- the merge as called: from the dict of all control points -----

  /** Some control point has this `ID`. */
  predicate HasId(cps: seq<ControlPoint>, id: Option<string>) {
    exists j :: 0 <= j < |cps| && cps[j].id == id
  }

  /** Marker side: record `i` belongs to marker `i`. It is `Integrated` exactly
      when some control point has the marker's id and no earlier marker has that
      id; it then carries the last control point with that id. Otherwise it is
      `MarkerOnly`. */
  lemma MergeMarkerSide<M>(cps: seq<ControlPoint>, markers: seq<Marker<M>>, i: nat)
    requires i < |markers|
    ensures i < |MergeGcpData(cps, markers)|
    ensures HasId(cps, markers[i].markerId) && FirstWithId(markers, i) ==>
              LastValue(IdPairs(cps), markers[i].markerId).Some? &&
              MergeGcpData(cps, markers)[i] == Integrated(LastValue(IdPairs(cps), markers[i].markerId).value, markers[i])
    ensures !(HasId(cps, markers[i].markerId) && FirstWithId(markers, i)) ==>
              MergeGcpData(cps, markers)[i] == MarkerOnly(markers[i])
  {
    var d := ControlPointDict(cps);
    FromPairsSpec(IdPairs(cps));
    MergeFromSpec(markers, d);
    var k := markers[i].markerId;
    assert k in Keys(d) <==> HasId(cps, k) by {
      assert k in Keys(IdPairs(cps)) <==> HasId(cps, k) by {
        if HasId(cps, k) {
          var j :| 0 <= j < |cps| && cps[j].id == k;
          assert Keys(IdPairs(cps))[j] == k;
        }
      }
    }
  }

  /** Control-point side: after the marker records come, in dict order, the
      control points whose id no marker names, unchanged and tagged
      `ControlPointOnly`; so there are |markers| + |unmatched| records. */
  lemma MergeLeftovers<M>(cps: seq<ControlPoint>, markers: seq<Marker<M>>)
    ensures |MergeGcpData(cps, markers)| == |markers| + |Without(ControlPointDict(cps), MarkerIds(markers))|
    ensures MergeGcpData(cps, markers)[|markers|..] == Leftovers(Without(ControlPointDict(cps), MarkerIds(markers)))
  {
    FromPairsSpec(IdPairs(cps));
    MergeFromSpec(markers, ControlPointDict(cps));
  }

  /** A control point is consumed at most once: of several markers with the
      same id only the first is `Integrated`. */
  lemma MergeConsumesOnce<M>(cps: seq<ControlPoint>, markers: seq<Marker<M>>, i: nat, j: nat)
    requires i < j < |markers|
    ensures j < |MergeGcpData(cps, markers)|
    ensures (MergeGcpData(cps, markers)[i].Integrated? && MergeGcpData(cps, markers)[j].Integrated?)
              ==> markers[i].markerId != markers[j].markerId
  {
    FromPairsSpec(IdPairs(cps));
    MergeFromSpec(markers, ControlPointDict(cps));
  }

  /** A consumed control point is not left over: the records after the marker
      records are `ControlPointOnly` and none has the id of an `Integrated` one. */
  lemma MergeConsumedNotLeftOver<M>(cps: seq<ControlPoint>, markers: seq<Marker<M>>, i: nat, k: nat)
    requires i < |markers| <= k < |MergeGcpData(cps, markers)|
    ensures MergeGcpData(cps, markers)[k].ControlPointOnly?
    ensures MergeGcpData(cps, markers)[i].Integrated? ==> MergeGcpData(cps, markers)[k].cp.id != markers[i].markerId
  {
    var d := ControlPointDict(cps);
    var r := MergeGcpData(cps, markers);
    FromPairsSpec(IdPairs(cps));
    MergeFromSpec(markers, d);
    var rest := Without(d, MarkerIds(markers));
    assert r[k] == r[|markers|..][k - |markers|] == Leftovers(rest)[k - |markers|];
    var e := rest[k - |markers|];
    MarkerIdsHas(markers, i);
    assert e in d && e.0 !in MarkerIds(markers);
    var j :| 0 <= j < |d| && d[j] == e;
    GetEntry(d, j);
    assert LastValue(IdPairs(cps), e.0) == Some(e.1);
    var p :| 0 <= p < |IdPairs(cps)| && IdPairs(cps)[p] == (e.0, e.1) && IsLastWithKey(IdPairs(cps), p);
    assert e.1.id == e.0;
  }

  lemma MarkerIdsHas<M>(markers: seq<Marker<M>>, i: nat)
    requires i < |markers|
    ensures markers[i].markerId in MarkerIds(markers)
  {
    if i > 0 {
      MarkerIdsHas(markers[1..], i - 1);
    }
  }

  /** Every marker appears in exactly one record, in order; every control point
      kept in the dict appears in exactly one record; so
      |records| + #Integrated == |markers| + |dict|. Each carried control point
      is the last input with its id: earlier duplicates vanish. */
  lemma MergeCarries<M>(cps: seq<ControlPoint>, markers: seq<Marker<M>>)
    ensures MarkersOf(MergeGcpData(cps, markers)) == markers
    ensures multiset(ControlPointsOf(MergeGcpData(cps, markers))) == multiset(Values(ControlPointDict(cps)))
    ensures |MergeGcpData(cps, markers)| + IntegratedCount(MergeGcpData(cps, markers)) == |markers| + |ControlPointDict(cps)|
    ensures forall c :: c in ControlPointsOf(MergeGcpData(cps, markers)) ==> LastValue(IdPairs(cps), c.id) == Some(c)
  {
    var d := ControlPointDict(cps);
    var r := MergeGcpData(cps, markers);
    FromPairsSpec(IdPairs(cps));
    MergeFromCarries(markers, d);
    RecordCount(r);
    assert |multiset(ControlPointsOf(r))| == |ControlPointsOf(r)|;
    forall c | c in ControlPointsOf(r) ensures LastValue(IdPairs(cps), c.id) == Some(c) {
      assert c in multiset(Values(d));
      var j :| 0 <= j < |d| && Values(d)[j] == c;
      GetEntry(d, j);
      var p :| 0 <= p < |IdPairs(cps)| && IdPairs(cps)[p] == (d[j].0, c) && IsLastWithKey(IdPairs(cps), p);
    }
  }

  /** With unique control-point ids every input control point appears in
      exactly one record. */
  lemma MergeUniqueIds<M>(cps: seq<ControlPoint>, markers: seq<Marker<M>>)
    requires DistinctKeys(IdPairs(cps))
    ensures multiset(ControlPointsOf(MergeGcpData(cps, markers))) == multiset(cps)
    ensures |MergeGcpData(cps, markers)| == |markers| + |Without(IdPairs(cps), MarkerIds(markers))|
  {
    FromDistinctPairs(IdPairs(cps));
    assert Values(IdPairs(cps)) == cps;
    MergeCarries(cps, markers);
    MergeLeftovers(cps, markers);
  }

  /** With unique control-point ids the dict is the input list itself, so the
      leftovers are the unmatched control points in input order. */
  lemma MergeUniqueLeftovers<M>(cps: seq<ControlPoint>, markers: seq<Marker<M>>)
    requires DistinctKeys(IdPairs(cps))
    ensures |markers| <= |MergeGcpData(cps, markers)|
    ensures MergeGcpData(cps, markers)[|markers|..] == Leftovers(Without(IdPairs(cps), MarkerIds(markers)))
  {
    FromDistinctPairs(IdPairs(cps));
    MergeLeftovers(cps, markers);
  }
}
