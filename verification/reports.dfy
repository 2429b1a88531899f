/** The KPI report folds of backend/server.js: average speed, max speed,
    average fuel, active devices, total distance and maintenance efficiency.

    The trip reports first turn the pool's `[id, trips]` pairs into a
    `Map`, which keeps one entry per id (at the id's first position, with
    its last list). Every numeric field is seen after `Number()`. */
module Reports {
  import opened Common

  /** A trip record with the fields the reports read. */
  datatype Trip<Id> = Trip(
    averageSpeed: JsNumber,
    maxSpeed: JsNumber,
    spentFuel: JsNumber,
    distance: JsNumber,
    distanceKm: JsNumber,
    deviceId: Option<Id>,
    deviceName: Option<string>,
    startTime: string,
    endTime: string)

  // ---------------------------------------------------------------------
  // `new Map(entries)`
  // ---------------------------------------------------------------------

  /** `map.set(k, v)` on an insertion-ordered map. */
  function Put<K(==), V>(es: seq<(K, V)>, k: K, v: V): (r: seq<(K, V)>)
    ensures |r| == |es| || |r| == |es| + 1
  {
    if |es| == 0 then [(k, v)]
    else if es[0].0 == k then [(k, v)] + es[1..]
    else [es[0]] + Put(es[1..], k, v)
  }

  function NewMap<K(==), V>(entries: seq<(K, V)>): seq<(K, V)>
  {
    if |entries| == 0 then []
    else
      var e := entries[|entries| - 1];
      Put(NewMap(entries[..|entries| - 1]), e.0, e.1)
  }

  ghost predicate DistinctKeys<K, V>(es: seq<(K, V)>)
  {
    forall i, j :: 0 <= i < j < |es| ==> es[i].0 != es[j].0
  }

  ghost predicate HasKey<K, V>(es: seq<(K, V)>, k: K)
  {
    exists i :: 0 <= i < |es| && es[i].0 == k
  }

  /** `set` stores the new pair. */
  lemma {:induction false} PutStores<K, V>(es: seq<(K, V)>, k: K, v: V)
    ensures (k, v) in Put(es, k, v)
    decreases |es|
  {
    if |es| > 0 && es[0].0 != k {
      PutStores(es[1..], k, v);
    }
  }

  /** Every other pair of the result was there before. */
  lemma {:induction false} PutFrom<K, V>(es: seq<(K, V)>, k: K, v: V, x: (K, V))
    requires x in Put(es, k, v) && x.0 != k
    ensures x in es
    decreases |es|
  {
    if |es| > 0 && es[0].0 != k && x != es[0] {
      PutFrom(es[1..], k, v, x);
    }
  }

  /** Every pair under another key survives. */
  lemma {:induction false} PutKeeps<K, V>(es: seq<(K, V)>, k: K, v: V, x: (K, V))
    requires x in es && x.0 != k
    ensures x in Put(es, k, v)
    decreases |es|
  {
    if x != es[0] {
      PutKeeps(es[1..], k, v, x);
    }
  }

  lemma {:induction false} PutDistinct<K, V>(es: seq<(K, V)>, k: K, v: V)
    requires DistinctKeys(es)
    ensures DistinctKeys(Put(es, k, v))
    decreases |es|
  {
    if |es| > 0 && es[0].0 != k {
      var t := Put(es[1..], k, v);
      PutDistinct(es[1..], k, v);
      forall j | 0 <= j < |t|
        ensures t[j].0 != es[0].0
      {
        if t[j].0 != k {
          PutFrom(es[1..], k, v, t[j]);
        }
      }
    }
  }

  /** The map holds each id once. */
  lemma {:induction false} NewMapDistinct<K, V>(entries: seq<(K, V)>)
    ensures DistinctKeys(NewMap(entries))
    decreases |entries|
  {
    if |entries| > 0 {
      var e := entries[|entries| - 1];
      NewMapDistinct(entries[..|entries| - 1]);
      PutDistinct(NewMap(entries[..|entries| - 1]), e.0, e.1);
    }
  }

  /** Every id of the entries is in the map. */
  lemma {:induction false} NewMapHasKeys<K, V>(entries: seq<(K, V)>)
    ensures forall i :: 0 <= i < |entries| ==> HasKey(NewMap(entries), entries[i].0)
    decreases |entries|
  {
    if |entries| > 0 {
      var init := entries[..|entries| - 1];
      var e := entries[|entries| - 1];
      var m := NewMap(init);
      var r := NewMap(entries);
      NewMapHasKeys(init);
      PutStores(m, e.0, e.1);
      forall i | 0 <= i < |entries|
        ensures HasKey(r, entries[i].0)
      {
        if entries[i].0 == e.0 {
          var j :| 0 <= j < |r| && r[j] == e;
        } else {
          assert init[i] == entries[i];
          var j :| 0 <= j < |m| && m[j].0 == entries[i].0;
          PutKeeps(m, e.0, e.1, m[j]);
          var j' :| 0 <= j' < |r| && r[j'] == m[j];
        }
      }
    }
  }

  /** `entries[i]` is the last entry for its id: the one `new Map` keeps. */
  ghost predicate IsLastFor<K, V>(entries: seq<(K, V)>, i: int)
  {
    0 <= i < |entries| && forall i' :: i < i' < |entries| ==> entries[i'].0 != entries[i].0
  }

  /** Each pair of the map is the last entry for its id. */
  lemma {:induction false} NewMapLastValue<K, V>(entries: seq<(K, V)>, x: (K, V))
    requires x in NewMap(entries)
    ensures exists i :: IsLastFor(entries, i) && entries[i] == x
    decreases |entries|
  {
    if |entries| > 0 {
      var init := entries[..|entries| - 1];
      var e := entries[|entries| - 1];
      var m := NewMap(init);
      if x.0 == e.0 {
        NewMapDistinct(entries);
        PutStores(m, e.0, e.1);
        LastPairUnique(NewMap(entries), e, x);
        assert IsLastFor(entries, |entries| - 1);
      } else {
        PutFrom(m, e.0, e.1, x);
        NewMapLastValue(init, x);
        var i :| IsLastFor(init, i) && init[i] == x;
        assert entries[i] == x;
        assert IsLastFor(entries, i);
      }
    }
  }

  lemma LastPairUnique<K, V>(r: seq<(K, V)>, e: (K, V), x: (K, V))
    requires DistinctKeys(r) && e in r && x in r && x.0 == e.0
    ensures x == e
  {
    var j :| 0 <= j < |r| && r[j] == x;
    var j' :| 0 <= j' < |r| && r[j'] == e;
    assert !(j < j') && !(j' < j);
  }

  // ---------------------------------------------------------------------
  // The per-device fold and its flat reference
  // ---------------------------------------------------------------------

  /** The finite values a projection yields on a list of trips, in order. */
  function Values<Id>(ts: seq<Trip<Id>>, f: Trip<Id> -> Option<real>): seq<real>
  {
    if |ts| == 0 then []
    else
      var x := f(ts[|ts| - 1]);
      Values(ts[..|ts| - 1], f) + (if x.Some? then [x.value] else [])
  }

  /** All those values across the devices, device by device. */
  function AllValues<Id>(devs: seq<(Id, seq<Trip<Id>>)>, f: Trip<Id> -> Option<real>): seq<real>
  {
    if |devs| == 0 then []
    else AllValues(devs[..|devs| - 1], f) + Values(devs[|devs| - 1].1, f)
  }

  datatype Acc = Acc(sum: real, count: nat, used: nat)

  /** The loop of the average-speed report: a device contributes its local
      sum and count, and is counted as used, only when it has at least one
      finite value. */
  function Fold<Id>(devs: seq<(Id, seq<Trip<Id>>)>, f: Trip<Id> -> Option<real>): Acc
  {
    if |devs| == 0 then Acc(0.0, 0, 0)
    else
      var a := Fold(devs[..|devs| - 1], f);
      var local := Values(devs[|devs| - 1].1, f);
      if |local| > 0 then Acc(a.sum + Sum(local), a.count + |local|, a.used + 1) else a
  }

  /** A device with at least one finite value. */
  predicate Contributes<Id>(f: Trip<Id> -> Option<real>, d: (Id, seq<Trip<Id>>))
  {
    |Values(d.1, f)| > 0
  }

  /** The fold adds up exactly the flat list of finite values, counts them,
      and counts the devices that contribute one. */
  lemma {:induction false} FoldIsFlat<Id>(devs: seq<(Id, seq<Trip<Id>>)>, f: Trip<Id> -> Option<real>)
    ensures Fold(devs, f).sum == Sum(AllValues(devs, f))
    ensures Fold(devs, f).count == |AllValues(devs, f)|
    ensures Fold(devs, f).used == |Filter(devs, d => Contributes(f, d))|
    decreases |devs|
  {
    if |devs| > 0 {
      var init := devs[..|devs| - 1];
      var last := devs[|devs| - 1];
      FoldIsFlat(init, f);
      SumConcat(AllValues(init, f), Values(last.1, f));
      assert init + [last] == devs;
      FilterSnoc(init, last, d => Contributes(f, d));
    }
  }

  // ---------------------------------------------------------------------
  // Average speed
  // ---------------------------------------------------------------------

  function SpeedOf<Id>(t: Trip<Id>): Option<real> { t.averageSpeed.AsFinite() }

  datatype AvgSpeedReport = AvgSpeedReport(averageSpeed: real, tripsCount: nat, devicesCountUsed: nat)

  /** `POST /api/reports/average-speed`: the mean of every finite
      `averageSpeed` (0 when there is none), the number of those values and
      the number of devices that have one. */
  function AverageSpeed<Id(==)>(entries: seq<(Id, seq<Trip<Id>>)>): (r: AvgSpeedReport)
    ensures var vs := AllValues(NewMap(entries), SpeedOf);
            && r.tripsCount == |vs|
            && (|vs| > 0 ==> r.averageSpeed == Sum(vs) / |vs| as real)
            && (|vs| == 0 ==> r.averageSpeed == 0.0)
    ensures r.devicesCountUsed == |Filter(NewMap(entries), d => Contributes(SpeedOf, d))|
  {
    var devs := NewMap(entries);
    FoldIsFlat(devs, SpeedOf);
    var a := Fold(devs, SpeedOf);
    AvgSpeedReport(if a.count > 0 then a.sum / a.count as real else 0.0, a.count, a.used)
  }

  /** The average lies between the smallest and largest finite speed. */
  lemma AverageSpeedBounds<Id>(entries: seq<(Id, seq<Trip<Id>>)>, lo: real, hi: real)
    requires var vs := AllValues(NewMap(entries), SpeedOf);
             |vs| > 0 && forall i :: 0 <= i < |vs| ==> lo <= vs[i] <= hi
    ensures lo <= AverageSpeed(entries).averageSpeed <= hi
  {
    MeanBounds(AllValues(NewMap(entries), SpeedOf), lo, hi);
  }

  // ---------------------------------------------------------------------
  // Max speed
  // ---------------------------------------------------------------------

  /** A device's trips, each tagged with its id. */
  function Tag<Id>(id: Id, ts: seq<Trip<Id>>): seq<(Id, Trip<Id>)>
  {
    seq(|ts|, i requires 0 <= i < |ts| => (id, ts[i]))
  }

  /** Every trip tagged with its device id, device by device. */
  function Flatten<Id>(devs: seq<(Id, seq<Trip<Id>>)>): (ps: seq<(Id, Trip<Id>)>)
  {
    if |devs| == 0 then []
    else
      var d := devs[|devs| - 1];
      Flatten(devs[..|devs| - 1]) + Tag(d.0, d.1)
  }

  function MaxSpeedOf<Id>(t: Trip<Id>): Option<real> { t.maxSpeed.AsFinite() }

  /** The trip behind the maximum, as reported. */
  datatype Meta<Id> = Meta(deviceId: Id, deviceName: string, startTime: Option<string>, endTime: Option<string>)

  /** `deviceId ?? id`, `deviceName ?? String(id)`, `startTime || null`,
      `endTime || null`. */
  function Describe<Id>(p: (Id, Trip<Id>), idText: Id -> string): Meta<Id>
  {
    var (id, t) := p;
    Meta(
      if t.deviceId.Some? then t.deviceId.value else id,
      if t.deviceName.Some? then t.deviceName.value else idText(id),
      if t.startTime == "" then None else Some(t.startTime),
      if t.endTime == "" then None else Some(t.endTime))
  }

  datatype MaxSpeedReport<Id> = MaxSpeedReport(maxSpeed: real, tripsCount: nat, devicesCountUsed: nat, meta: Option<Meta<Id>>)

  /** Trip `w` is the first whose finite max speed reaches `m`. */
  ghost predicate FirstReaching<Id>(ps: seq<(Id, Trip<Id>)>, w: int, m: real)
  {
    && 0 <= w < |ps|
    && ps[w].1.maxSpeed == Finite(m)
    && forall u :: 0 <= u < w ==> !(ps[u].1.maxSpeed.Finite? && ps[u].1.maxSpeed.v >= m)
  }

  /** The finite max speeds of tagged trips, in order. */
  function PairValues<Id>(ps: seq<(Id, Trip<Id>)>): seq<real>
  {
    if |ps| == 0 then []
    else
      var x := MaxSpeedOf(ps[|ps| - 1].1);
      PairValues(ps[..|ps| - 1]) + (if x.Some? then [x.value] else [])
  }

  /** `POST /api/reports/max-speed`: starting from 0, a finite speed
      replaces the maximum only when strictly greater. */
  method MaxSpeed<Id(==)>(entries: seq<(Id, seq<Trip<Id>>)>, idText: Id -> string) returns (r: MaxSpeedReport<Id>)
    ensures var ps := Flatten(NewMap(entries));
            && r.maxSpeed >= 0.0
            && (forall u :: 0 <= u < |ps| && ps[u].1.maxSpeed.Finite? ==> ps[u].1.maxSpeed.v <= r.maxSpeed)
            && (r.meta.None? <==> forall u :: 0 <= u < |ps| && ps[u].1.maxSpeed.Finite? ==> ps[u].1.maxSpeed.v <= 0.0)
            && (r.meta.None? ==> r.maxSpeed == 0.0)
            && (r.meta.Some? ==> exists w :: FirstReaching(ps, w, r.maxSpeed) && r.meta.value == Describe(ps[w], idText))
            && r.tripsCount == |PairValues(ps)|
    ensures r.devicesCountUsed == |NewMap(entries)|
  {
    var devs := NewMap(entries);
    var ps := Flatten(devs);
    var max := 0.0;
    var meta: Option<Meta<Id>> := None;
    var count := 0;
    ghost var w := 0;
    for i := 0 to |ps|
      invariant max >= 0.0
      invariant count == |PairValues(ps[..i])|
      invariant forall u :: 0 <= u < i && ps[u].1.maxSpeed.Finite? ==> ps[u].1.maxSpeed.v <= max
      invariant meta.None? ==> max == 0.0
      invariant meta.Some? ==> max > 0.0 && w < i && FirstReaching(ps, w, max) && meta.value == Describe(ps[w], idText)
    {
      assert ps[..i + 1][..i] == ps[..i];
      var v := ps[i].1.maxSpeed;
      if v.Finite? {
        count := count + 1;
        if v.v > max {
          max := v.v;
          meta := Some(Describe(ps[i], idText));
          w := i;
        }
      }
    }
    assert ps[..|ps|] == ps;
    r := MaxSpeedReport(max, count, |devs|, meta);
  }

  lemma {:induction false} PairValuesConcat<Id>(a: seq<(Id, Trip<Id>)>, b: seq<(Id, Trip<Id>)>)
    ensures PairValues(a + b) == PairValues(a) + PairValues(b)
    decreases |b|
  {
    if |b| == 0 {
      assert a + b == a;
    } else {
      assert (a + b)[..|a + b| - 1] == a + b[..|b| - 1];
      PairValuesConcat(a, b[..|b| - 1]);
    }
  }

  lemma {:induction false} PairValuesTag<Id>(id: Id, ts: seq<Trip<Id>>)
    ensures PairValues(Tag(id, ts)) == Values(ts, MaxSpeedOf)
    decreases |ts|
  {
    if |ts| > 0 {
      var init := ts[..|ts| - 1];
      assert Tag(id, ts)[..|ts| - 1] == Tag(id, init);
      PairValuesTag(id, init);
    }
  }

  /** The trip count of the max-speed report is the number of finite max
      speeds over all devices, as the other reports count theirs. */
  lemma {:induction false} MaxSpeedCountIsFlat<Id>(devs: seq<(Id, seq<Trip<Id>>)>)
    ensures PairValues(Flatten(devs)) == AllValues(devs, MaxSpeedOf)
    decreases |devs|
  {
    if |devs| > 0 {
      var d := devs[|devs| - 1];
      MaxSpeedCountIsFlat(devs[..|devs| - 1]);
      PairValuesConcat(Flatten(devs[..|devs| - 1]), Tag(d.0, d.1));
      PairValuesTag(d.0, d.1);
    }
  }

  // ---------------------------------------------------------------------
  // Average fuel and active devices
  // ---------------------------------------------------------------------

  /** The per-record clamp: a finite value, negatives raised to 0. */
  function FuelOf<Id>(t: Trip<Id>): (r: Option<real>)
    ensures r.Some? <==> t.spentFuel.Finite?
    ensures r.Some? ==> r.value >= 0.0 && (t.spentFuel.v >= 0.0 ==> r.value == t.spentFuel.v)
  {
    match t.spentFuel
    case Finite(v) => Some(if v < 0.0 then 0.0 else v)
    case _ => None
  }

  /** A device is active when its trip list is non-empty. */
  predicate IsActiveDevice<Id>(d: (Id, seq<Trip<Id>>))
  {
    |d.1| > 0
  }

  function Keys<K, V>(es: seq<(K, V)>): (ks: seq<K>)
    ensures |ks| == |es| && forall i :: 0 <= i < |es| ==> ks[i] == es[i].0
  {
    seq(|es|, i requires 0 <= i < |es| => es[i].0)
  }

  datatype ActiveReport<Id> = ActiveReport(activeDeviceIds: seq<Id>, count: nat)

  /** `POST /api/reports/active-devices`: the ids whose trip list is
      non-empty, each once, in map order. */
  function ActiveDevices<Id(==)>(entries: seq<(Id, seq<Trip<Id>>)>): (r: ActiveReport<Id>)
    ensures r.count == |r.activeDeviceIds|
  {
    var ks := Keys(Filter(NewMap(entries), IsActiveDevice));
    ActiveReport(ks, |ks|)
  }

  /** The active ids are distinct, and an id is among them exactly when
      the last trip list given for it, the one the `Map` keeps, is
      non-empty. */
  lemma ActiveDevicesSound<Id>(entries: seq<(Id, seq<Trip<Id>>)>, k: Id)
    ensures var ids := ActiveDevices(entries).activeDeviceIds;
            && (forall i, j :: 0 <= i < j < |ids| ==> ids[i] != ids[j])
            && (k in ids <==> exists i :: IsLastFor(entries, i) && entries[i].0 == k && |entries[i].1| > 0)
  {
    ActiveIdsDistinct(entries);
    if k in ActiveDevices(entries).activeDeviceIds {
      ActiveOnlyIfLast(entries, k);
    }
    if exists i :: IsLastFor(entries, i) && entries[i].0 == k && |entries[i].1| > 0 {
      var i :| IsLastFor(entries, i) && entries[i].0 == k && |entries[i].1| > 0;
      ActiveIfLast(entries, i);
    }
  }

  lemma ActiveIdsDistinct<Id>(entries: seq<(Id, seq<Trip<Id>>)>)
    ensures var ids := ActiveDevices(entries).activeDeviceIds;
            forall i, j :: 0 <= i < j < |ids| ==> ids[i] != ids[j]
  {
    var devs := NewMap(entries);
    var act := Filter(devs, IsActiveDevice);
    NewMapDistinct(entries);
    FilterIsSublist(devs, IsActiveDevice);
    SublistKeepsDistinct(act, devs);
  }

  lemma ActiveOnlyIfLast<Id>(entries: seq<(Id, seq<Trip<Id>>)>, k: Id)
    requires k in ActiveDevices(entries).activeDeviceIds
    ensures exists i :: IsLastFor(entries, i) && entries[i].0 == k && |entries[i].1| > 0
  {
    var act := Filter(NewMap(entries), IsActiveDevice);
    var ks := Keys(act);
    var j :| 0 <= j < |ks| && ks[j] == k;
    assert act[j] in NewMap(entries);
    NewMapLastValue(entries, act[j]);
  }

  lemma ActiveIfLast<Id>(entries: seq<(Id, seq<Trip<Id>>)>, i: int)
    requires IsLastFor(entries, i) && |entries[i].1| > 0
    ensures entries[i].0 in ActiveDevices(entries).activeDeviceIds
  {
    var act := Filter(NewMap(entries), IsActiveDevice);
    var ks := Keys(act);
    NewMapKeepsLast(entries, i);
    var j :| 0 <= j < |act| && act[j] == entries[i];
    assert ks[j] == entries[i].0;
  }

  /** The map keeps the last entry for each id. */
  lemma NewMapKeepsLast<K, V>(entries: seq<(K, V)>, i: int)
    requires IsLastFor(entries, i)
    ensures entries[i] in NewMap(entries)
  {
    var devs := NewMap(entries);
    NewMapHasKeys(entries);
    assert HasKey(devs, entries[i].0);
    var m :| 0 <= m < |devs| && devs[m].0 == entries[i].0;
    NewMapLastValue(entries, devs[m]);
    var i0 :| IsLastFor(entries, i0) && entries[i0] == devs[m];
    assert i0 == i;
  }

  lemma {:induction false} SublistKeepsDistinct<K, V>(a: seq<(K, V)>, b: seq<(K, V)>)
    requires DistinctKeys(b)
    requires Sublist(a, b)
    ensures DistinctKeys(a)
    decreases |b|
  {
    if |a| > 0 && |b| > 0 {
      if a[0] == b[0] && Sublist(a[1..], b[1..]) {
        SublistKeepsDistinct(a[1..], b[1..]);
        forall j | 0 < j < |a|
          ensures a[0].0 != a[j].0
        {
          SublistMember(a[1..], b[1..], j - 1);
          var j' :| 0 <= j' < |b[1..]| && b[1..][j'] == a[j];
          assert b[j' + 1] == a[j];
        }
      } else {
        SublistKeepsDistinct(a, b[1..]);
      }
    }
  }

  lemma {:induction false} SublistMember<T>(a: seq<T>, b: seq<T>, i: int)
    requires Sublist(a, b) && 0 <= i < |a|
    ensures exists j :: 0 <= j < |b| && b[j] == a[i]
    decreases |b|
  {
    if a[0] == b[0] && Sublist(a[1..], b[1..]) {
      if i == 0 {
        assert b[0] == a[0];
      } else {
        SublistMember(a[1..], b[1..], i - 1);
        var j :| 0 <= j < |b[1..]| && b[1..][j] == a[1..][i - 1];
        assert b[j + 1] == a[i];
      }
    } else {
      SublistMember(a, b[1..], i);
      var j :| 0 <= j < |b[1..]| && b[1..][j] == a[i];
      assert b[j + 1] == a[i];
    }
  }

  datatype AvgFuelReport = AvgFuelReport(averageFuel: real, totalFuel: real, tripsCount: nat, devicesCountUsed: nat)

  /** `POST /api/reports/avg-fuel`. */
  function AverageFuel<Id(==)>(entries: seq<(Id, seq<Trip<Id>>)>): (r: AvgFuelReport)
    ensures var vs := AllValues(NewMap(entries), FuelOf);
            && r.tripsCount == |vs|
            && r.totalFuel == Sum(vs)
            && (|vs| > 0 ==> r.averageFuel == Sum(vs) / |vs| as real)
            && (|vs| == 0 ==> r.averageFuel == 0.0)
    ensures r.totalFuel >= 0.0 && r.averageFuel >= 0.0
    ensures r.devicesCountUsed == ActiveDevices(entries).count
  {
    var devs := NewMap(entries);
    FoldIsFlat(devs, FuelOf);
    var a := Fold(devs, FuelOf);
    var used := |Keys(Filter(devs, IsActiveDevice))|;
    var sumFuel := if a.sum < 0.0 then 0.0 else a.sum;
    FuelSumNonNegative(devs);
    QuotientNonNegative(sumFuel, a.count);
    AvgFuelReport(if a.count > 0 then sumFuel / a.count as real else 0.0, sumFuel, a.count, used)
  }

  lemma QuotientNonNegative(a: real, n: nat)
    requires a >= 0.0
    ensures n > 0 ==> a / n as real >= 0.0
  {
  }

  /** Every clamped value is non-negative, so the final `if (sumFuel < 0)`
      never fires. */
  lemma FuelSumNonNegative<Id>(devs: seq<(Id, seq<Trip<Id>>)>)
    ensures Sum(AllValues(devs, FuelOf)) >= 0.0
  {
    AllValuesBounded(devs, FuelOf);
    SumNonNegative(AllValues(devs, FuelOf));
  }

  lemma {:induction false} ValuesNonNegative<Id>(ts: seq<Trip<Id>>)
    ensures forall i :: 0 <= i < |Values(ts, FuelOf)| ==> Values(ts, FuelOf)[i] >= 0.0
    decreases |ts|
  {
    if |ts| > 0 {
      ValuesNonNegative(ts[..|ts| - 1]);
    }
  }

  lemma {:induction false} AllValuesBounded<Id>(devs: seq<(Id, seq<Trip<Id>>)>, f: Trip<Id> -> Option<real>)
    requires f == FuelOf
    ensures forall i :: 0 <= i < |AllValues(devs, f)| ==> AllValues(devs, f)[i] >= 0.0
    decreases |devs|
  {
    if |devs| > 0 {
      AllValuesBounded(devs[..|devs| - 1], f);
      ValuesNonNegative(devs[|devs| - 1].1);
    }
  }

  // ---------------------------------------------------------------------
  // Total distance
  // ---------------------------------------------------------------------

  /** The meter field in kilometres when finite, else a finite kilometre
      field, else nothing. */
  function DistanceOf<Id>(t: Trip<Id>): (r: Option<real>)
    ensures t.distance.Finite? ==> r == Some(t.distance.v / 1000.0)
    ensures !t.distance.Finite? && t.distanceKm.Finite? ==> r == Some(t.distanceKm.v)
    ensures r.None? <==> !t.distance.Finite? && !t.distanceKm.Finite?
  {
    if t.distance.Finite? then Some(t.distance.v / 1000.0)
    else if t.distanceKm.Finite? then Some(t.distanceKm.v)
    else None
  }

  /** `POST /api/reports/total-distance`: the sum of the per-trip
      kilometres, floored at 0. */
  function TotalDistance<Id(==)>(entries: seq<(Id, seq<Trip<Id>>)>): (km: real)
    ensures km >= 0.0
    ensures km == Max(0.0, Sum(AllValues(NewMap(entries), DistanceOf)))
  {
    var devs := NewMap(entries);
    FoldIsFlat(devs, DistanceOf);
    Max(0.0, Fold(devs, DistanceOf).sum)
  }

  /** One trip of 1000 m and one without a meter field but with 5 km give
      6 km. */
  lemma TotalDistanceExample()
    ensures
      var t1 := Trip(NaN, NaN, NaN, Finite(1000.0), NaN, None, None, "", "");
      var t2 := Trip(NaN, NaN, NaN, NaN, Finite(5.0), None, None, "", "");
      TotalDistance([(1, [t1, t2])]) == 6.0
  {
    var t1 := Trip(NaN, NaN, NaN, Finite(1000.0), NaN, None, None, "", "");
    var t2 := Trip(NaN, NaN, NaN, NaN, Finite(5.0), None, None, "", "");
    var ts := [t1, t2];
    assert [(1, ts)][..0] == [];
    assert NewMap([(1, ts)]) == [(1, ts)];
    assert ts[..1] == [t1];
    assert [t1][..0] == [];
    assert DistanceOf(t1) == Some(1.0);
    assert Values([t1], DistanceOf) == [1.0];
    assert Values(ts, DistanceOf) == [1.0, 5.0];
    assert AllValues([(1, ts)], DistanceOf) == [1.0, 5.0];
    assert [1.0, 5.0][..1] == [1.0];
    assert [1.0][..0] == [];
    assert Sum([1.0, 5.0]) == 6.0;
  }

  // ---------------------------------------------------------------------
  // Maintenance efficiency
  // ---------------------------------------------------------------------

  /** `Number(due) <= 0`: false for NaN, true for minus infinity. */
  predicate DueReached(due: JsNumber)
  {
    (due.Finite? && due.v <= 0.0) || due.NegInf?
  }

  /** Some maintenance record of the device is overdue. */
  predicate Overdue<Id>(d: (Id, seq<JsNumber>))
  {
    exists i :: 0 <= i < |d.1| && DueReached(d.1[i])
  }

  predicate UpToDate<Id>(d: (Id, seq<JsNumber>))
  {
    !Overdue(d)
  }

  function CountUpToDate<Id>(lists: seq<(Id, seq<JsNumber>)>): nat
  {
    if |lists| == 0 then 0
    else CountUpToDate(lists[..|lists| - 1]) + (if Overdue(lists[|lists| - 1]) then 0 else 1)
  }

  datatype MaintReport = MaintReport(efficiency: real, total: nat, upToDate: nat)

  /** The maintenance fold. The pool's pairs are used as they are, without
      a `Map`: a repeated id counts twice. */
  function MaintenanceEfficiency<Id>(lists: seq<(Id, seq<JsNumber>)>): (r: MaintReport)
    ensures r.total == |lists|
    ensures r.upToDate == |Filter(lists, UpToDate)|
    ensures 0.0 <= r.efficiency <= 100.0
    ensures r.total > 0 ==> r.efficiency == r.upToDate as real / r.total as real * 100.0
    ensures r.total == 0 ==> r.efficiency == 0.0
  {
    var ok := CountUpToDate(lists);
    CountUpToDateIsFilter(lists);
    RatioBounds(ok, |lists|);
    MaintReport(if |lists| > 0 then ok as real / |lists| as real * 100.0 else 0.0, |lists|, ok)
  }

  lemma RatioBounds(a: nat, b: nat)
    requires a <= b
    ensures b > 0 ==> 0.0 <= a as real / b as real * 100.0 <= 100.0
  {
    if b > 0 {
      assert a as real / b as real <= 1.0;
    }
  }

  lemma {:induction false} CountUpToDateIsFilter<Id>(lists: seq<(Id, seq<JsNumber>)>)
    ensures CountUpToDate(lists) == |Filter(lists, UpToDate)|
    decreases |lists|
  {
    if |lists| > 0 {
      var init := lists[..|lists| - 1];
      CountUpToDateIsFilter(init);
      FilterSnoc(init, lists[|lists| - 1], UpToDate);
      assert init + [lists[|lists| - 1]] == lists;
    }
  }

  /** A JSON value of the response literal. */
  datatype Json = JBool(b: bool) | JNum(n: real)

  /** An object literal: a later property with the same name overwrites an
      earlier one. */
  function ObjectLiteral(props: seq<(string, Json)>): map<string, Json>
  {
    if |props| == 0 then map[]
    else ObjectLiteral(props[..|props| - 1])[props[|props| - 1].0 := props[|props| - 1].1]
  }

  /** `{ ok: true, efficiency, total, ok }` */
  function MaintResponse(r: MaintReport): map<string, Json>
  {
    ObjectLiteral([("ok", JBool(true)), ("efficiency", JNum(r.efficiency)), ("total", JNum(r.total as real)), ("ok", JNum(r.upToDate as real))])
  }

  /** The response's `ok` is the number of up-to-date devices, never the
      success flag: with three devices of which one is overdue it is 2. */
  lemma MaintResponseOkIsCount<Id>(lists: seq<(Id, seq<JsNumber>)>)
    ensures MaintResponse(MaintenanceEfficiency(lists))["ok"] == JNum(|Filter(lists, UpToDate)| as real)
    ensures |lists| == 3 && !Overdue(lists[0]) && Overdue(lists[1]) && !Overdue(lists[2]) ==>
              MaintResponse(MaintenanceEfficiency(lists))["ok"] == JNum(2.0)
  {
    if |lists| == 3 && !Overdue(lists[0]) && Overdue(lists[1]) && !Overdue(lists[2]) {
      assert lists[..2][..1] == lists[..1];
      assert lists[..1][..0] == [];
      assert CountUpToDate(lists) == 2;
      CountUpToDateIsFilter(lists);
    }
  }
}
