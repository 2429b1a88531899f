/** The comparison block (src/components/FilterComparisonBlock.tsx): which
    devices a comparison covers, and the per-device row (consumption in
    L/100 km and a heuristic efficiency score). The per-device requests run
    through the error-swallowing pool modelled in `Pool`; the numbers they
    return are parameters here. */
module Comparison {
  import opened Common

  /** `a ?? b ?? …`: the first value that is neither `null` nor
      `undefined`. */
  function Coalesce(xs: seq<Option<string>>): (r: Option<string>)
    ensures r.None? <==> forall i :: 0 <= i < |xs| ==> xs[i].None?
    ensures r.Some? ==> exists i :: 0 <= i < |xs| && xs[i] == r && forall j :: 0 <= j < i ==> xs[j].None?
  {
    if |xs| == 0 then None
    else if xs[0].Some? then xs[0]
    else
      var r := Coalesce(xs[1..]);
      assert r.Some? ==> exists i :: 0 <= i < |xs| && xs[i] == r && forall j :: 0 <= j < i ==> xs[j].None? by {
        if r.Some? {
          var i :| 0 <= i < |xs[1..]| && xs[1..][i] == r && forall j :: 0 <= j < i ==> xs[1..][j].None?;
          assert xs[i + 1] == r;
          assert forall j :: 0 <= j < i + 1 ==> xs[j].None? by {
            forall j | 0 <= j < i + 1 ensures xs[j].None? {
              if j > 0 { assert xs[j] == xs[1..][j - 1]; }
            }
          }
        }
      }
      r
  }

  /** The last operand of a `??` chain is passed on as it is, so for it
      `null` and a missing field differ. */
  datatype JsField = Missing | Null | Text(value: string)

  /** A device as the block reads it; each field is its `String(...)` text,
      or `None` when the field is `null` or missing. `uuid` is the last
      operand of the key's `??` chain and keeps the difference. */
  datatype Device = Device(
    id: Option<string>, idUpper: Option<string>, uuid: JsField,
    groupId: Option<string>, groupIdSnake: Option<string>, groupObjectId: Option<string>, attributesGroupId: Option<string>,
    name: string)

  /** `String(d?.id ?? d?.ID ?? d?.uuid)`: the first of `id` and `ID` that
      is present, else `uuid` as it is, which `String` turns into `"null"`
      or `"undefined"` when it is not a text. */
  function DeviceKey(d: Device): (k: string)
    ensures d.id.Some? ==> k == d.id.value
    ensures d.id.None? && d.idUpper.Some? ==> k == d.idUpper.value
    ensures d.id.None? && d.idUpper.None? && d.uuid.Text? ==> k == d.uuid.value
    ensures d.id.None? && d.idUpper.None? && d.uuid.Null? ==> k == "null"
    ensures d.id.None? && d.idUpper.None? && d.uuid.Missing? ==> k == "undefined"
  {
    CoalesceCons(d.id, [d.idUpper]);
    CoalesceCons(d.idUpper, []);
    var k := Coalesce([d.id, d.idUpper]);
    if k.Some? then k.value
    else match d.uuid
      case Text(v) => v
      case Null => "null"
      case Missing => "undefined"
  }

  /** A device whose only key field is a `null` uuid and a device with no
      key field at all get different keys, so selecting one does not
      select the other. */
  lemma NullUuidIsItsOwnKey(a: Device, b: Device)
    requires a.id.None? && a.idUpper.None? && a.uuid.Null?
    requires b.id.None? && b.idUpper.None? && b.uuid.Missing?
    ensures DeviceKey(a) != DeviceKey(b)
  {
  }

  /** `getGroupIdFromDevice`: the first present of `groupId`, `group_id`,
      `group.id`, `attributes.groupId`, or `null`. */
  function GroupIdOf(d: Device): (g: Option<string>)
    ensures g.None? <==> d.groupId.None? && d.groupIdSnake.None? && d.groupObjectId.None? && d.attributesGroupId.None?
    ensures d.groupId.Some? ==> g == d.groupId
    ensures d.groupId.None? && d.groupIdSnake.Some? ==> g == d.groupIdSnake
    ensures d.groupId.None? && d.groupIdSnake.None? && d.groupObjectId.Some? ==> g == d.groupObjectId
    ensures d.groupId.None? && d.groupIdSnake.None? && d.groupObjectId.None? ==> g == d.attributesGroupId
  {
    CoalesceCons(d.groupId, [d.groupIdSnake, d.groupObjectId, d.attributesGroupId]);
    CoalesceCons(d.groupIdSnake, [d.groupObjectId, d.attributesGroupId]);
    CoalesceCons(d.groupObjectId, [d.attributesGroupId]);
    CoalesceCons(d.attributesGroupId, []);
    Coalesce([d.groupId, d.groupIdSnake, d.groupObjectId, d.attributesGroupId])
  }

  lemma CoalesceCons(x: Option<string>, rest: seq<Option<string>>)
    ensures Coalesce([x] + rest) == if x.Some? then x else Coalesce(rest)
  {
    assert ([x] + rest)[1..] == rest;
  }

  /** Whether a device belongs to one of the wanted groups; an empty group
      id never does (`gid && …`). */
  predicate InWantedGroup(d: Device, groups: seq<string>)
  {
    var g := GroupIdOf(d);
    g.Some? && g.value != "" && g.value in groups
  }

  /** `selectedDeviceSet`: an explicit device selection wins; otherwise a
      group selection keeps the devices of the selected groups; otherwise
      every device. */
  function SelectedDeviceSet(devices: seq<Device>, selectedDevices: seq<string>, selectedGroups: seq<string>): (s: set<string>)
    ensures |selectedDevices| > 0 ==> forall k :: k in s <==> k in selectedDevices
    ensures |selectedDevices| == 0 && |selectedGroups| > 0 ==>
              forall k :: k in s <==> exists d :: d in devices && InWantedGroup(d, selectedGroups) && DeviceKey(d) == k
    ensures |selectedDevices| == 0 && |selectedGroups| == 0 ==>
              forall k :: k in s <==> exists d :: d in devices && DeviceKey(d) == k
  {
    if |selectedDevices| > 0 then set k | k in selectedDevices
    else if |selectedGroups| > 0 then set d | d in devices && InWantedGroup(d, selectedGroups) :: DeviceKey(d)
    else set d | d in devices :: DeviceKey(d)
  }

  /** A group selection narrows the fleet, and a device selection ignores
      the groups altogether. */
  lemma SelectionPrecedence(devices: seq<Device>, selectedDevices: seq<string>, g1: seq<string>, g2: seq<string>)
    ensures |selectedDevices| == 0 ==> SelectedDeviceSet(devices, [], g1) <= SelectedDeviceSet(devices, [], [])
    ensures |selectedDevices| > 0 ==> SelectedDeviceSet(devices, selectedDevices, g1) == SelectedDeviceSet(devices, selectedDevices, g2)
  {
  }

  // ---------------------------------------------------------------------
  // One row
  // ---------------------------------------------------------------------

  /** `km > 0 ? totalFuel / km * 100 : 0`. */
  function LitersPer100(totalFuel: real, km: real): (r: real)
    ensures km <= 0.0 ==> r == 0.0
    ensures km > 0.0 ==> r * km == totalFuel * 100.0
  {
    if km > 0.0 then totalFuel / km * 100.0 else 0.0
  }

  /** `Math.min(30, alerts * 5)`. */
  function AlertPenalty(alerts: real): (p: real)
    ensures p <= 30.0 && p <= alerts * 5.0
    ensures alerts * 5.0 <= 30.0 ==> p == alerts * 5.0
    ensures alerts * 5.0 >= 30.0 ==> p == 30.0
  {
    Min(30.0, alerts * 5.0)
  }

  function Clamp(x: real): (r: real)
    ensures 0.0 <= r <= 100.0
    ensures 0.0 <= x <= 100.0 ==> r == x
  {
    Max(0.0, Min(100.0, x))
  }

  /** The efficiency score: 100, less 40 above 30 L/100 km or 20 above 20,
      less the alert penalty, less 30 with no distance, clamped. */
  function Efficiency(lper100: real, alerts: real, km: real): (e: real)
    ensures 0.0 <= e <= 100.0
  {
    var s0 := 100.0;
    var s1 := if lper100 > 30.0 then s0 - 40.0 else if lper100 > 20.0 then s0 - 20.0 else s0;
    var s2 := s1 - AlertPenalty(alerts);
    var s3 := if km == 0.0 then s2 - 30.0 else s2;
    Clamp(s3)
  }

  /** More alerts never raise the score; a vehicle that drove with low
      consumption and no alert scores 100, and alerts alone never take it
      below 70. */
  lemma EfficiencyFacts(lper100: real, a1: real, a2: real, km: real)
    ensures a1 <= a2 ==> Efficiency(lper100, a2, km) <= Efficiency(lper100, a1, km)
    ensures km != 0.0 && lper100 <= 20.0 && a1 == 0.0 ==> Efficiency(lper100, a1, km) == 100.0
    ensures lper100 <= 20.0 && km != 0.0 && 0.0 <= a1 ==> Efficiency(lper100, a1, km) >= 70.0
  {
  }

  /** The alert count the block keeps per device from the vehicle-alerts
      rows (`Number(alertCount) || 0`; a later row for the same device
      overwrites an earlier one); 0 when no row names the device. */
  function AlertsFor(rows: seq<(int, real)>, id: int): (n: real)
    ensures (forall i :: 0 <= i < |rows| ==> rows[i].0 != id) ==> n == 0.0
    ensures forall i :: 0 <= i < |rows| && rows[i].0 == id && (forall j :: i < j < |rows| ==> rows[j].0 != id) ==>
              n == rows[i].1
  {
    if |rows| == 0 then 0.0
    else if rows[|rows| - 1].0 == id then rows[|rows| - 1].1
    else
      var init := rows[..|rows| - 1];
      assert forall i :: 0 <= i < |init| ==> init[i] == rows[i];
      AlertsFor(init, id)
  }

  datatype Row = Row(id: int, name: string, consumption: real, alerts: real, distanceKm: real, efficiencyPct: real)

  /** The row of one device, from its distance and fuel totals, its alert
      count and its display name. */
  function MakeRow(id: int, name: string, km: real, totalFuel: real, alerts: real): (r: Row)
    ensures r.id == id && r.name == name
    ensures r.consumption == LitersPer100(totalFuel, km) && r.distanceKm == km && r.alerts == alerts
    ensures r.efficiencyPct == Efficiency(r.consumption, alerts, km)
    ensures 0.0 <= r.efficiencyPct <= 100.0
    ensures km <= 0.0 ==> r.consumption == 0.0
  {
    var l := LitersPer100(totalFuel, km);
    Row(id, name, l, alerts, km, Efficiency(l, alerts, km))
  }

  /** The score's facts, read on rows: for one device's distance and fuel,
      more alerts never raise the row's efficiency, and a vehicle that
      drove at most 20 L/100 km with no alert scores 100. */
  lemma RowEfficiencyFacts(id: int, name: string, km: real, totalFuel: real, a1: real, a2: real)
    ensures a1 <= a2 ==> MakeRow(id, name, km, totalFuel, a2).efficiencyPct <= MakeRow(id, name, km, totalFuel, a1).efficiencyPct
    ensures km > 0.0 && totalFuel * 100.0 <= 20.0 * km && a1 == 0.0 ==> MakeRow(id, name, km, totalFuel, a1).efficiencyPct == 100.0
  {
    var l := LitersPer100(totalFuel, km);
    EfficiencyFacts(l, a1, a2, km);
    if km > 0.0 && totalFuel * 100.0 <= 20.0 * km {
      assert l * km <= 20.0 * km;
      assert l <= 20.0;
    }
  }
}
