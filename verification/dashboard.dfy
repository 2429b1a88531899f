/** The Dashboard's client-side counting (src/pages/Dashboard.tsx): the
    classification of alert labels and of row states, the fallback status
    and violation counters built from the vehicle-alerts rows, the two pie
    charts, and the top consumers bar chart built from the error-swallowing
    pool. */
module Dashboard {
  import opened Common
  import Sorting
  import Pool
  import VehicleAlerts

  // ---------------------------------------------------------------------
  // Classification
  // ---------------------------------------------------------------------

  datatype Violation = Speed | Stop | Brake | Other

  predicate SpeedWord(l: string)
  {
    Contains(l, "speed") || Contains(l, "vitesse") || Contains(l, "overspeed") || Contains(l, "excès")
  }

  predicate StopWord(l: string)
  {
    Contains(l, "idle") || Contains(l, "arrêt") || Contains(l, "arret") || Contains(l, "stop")
  }

  predicate BrakeWord(l: string)
  {
    Contains(l, "brak") || Contains(l, "frein")
  }

  /** `classifyAlert`: speed words first, then stop words, then brake
      words, otherwise `other`. */
  function ClassifyAlert(name: string): (v: Violation)
    ensures var l := Lower(name);
            (v == Speed <==> SpeedWord(l))
            && (v == Stop <==> !SpeedWord(l) && StopWord(l))
            && (v == Brake <==> !SpeedWord(l) && !StopWord(l) && BrakeWord(l))
  {
    var l := Lower(name);
    if SpeedWord(l) then Speed
    else if StopWord(l) then Stop
    else if BrakeWord(l) then Brake
    else Other
  }

  /** The classification ignores case. */
  lemma ClassifyIgnoresCase(name: string)
    ensures ClassifyAlert(Lower(name)) == ClassifyAlert(name)
  {
    LowerIdempotent(name);
  }

  datatype Bucket = Service | Attente | Maintenance | HorsLigne

  /** `stateKeyToBucket`; a missing state is the empty string. */
  function StateKeyToBucket(state: string): (b: Bucket)
    ensures b == Service <==> Lower(state) == "en_service" || Lower(state) == "service" || Lower(state) == "running"
    ensures b == Attente <==> Lower(state) == "idle"
    ensures b == Maintenance <==> Lower(state) == "maintenance"
  {
    var k := Lower(state);
    if k == "en_service" || k == "service" || k == "running" then Service
    else if k == "idle" then Attente
    else if k == "maintenance" then Maintenance
    else HorsLigne
  }

  /** The states the vehicle-alerts report emits land in the intended
      buckets: running in `service`, idle in `attente`, stopped and
      out-of-service in `horsLigne`; none lands in `maintenance`. */
  lemma ServerStatesBucket(s: VehicleAlerts.VState)
    ensures StateKeyToBucket(VehicleAlerts.StateKey(s)) ==
              match s
              case EnService => Service
              case Idle => Attente
              case Arret => HorsLigne
              case HorsService => HorsLigne
  {
    LowerFixed(VehicleAlerts.StateKey(s));
  }

  // ---------------------------------------------------------------------
  // Fallback counters
  // ---------------------------------------------------------------------

  /** A row as the fallback reads it: its `state` ("" when missing), the
      finite value of `Number(alertCount)` (`None` for NaN) and its alert
      labels (`[]` when not an array). */
  datatype DashRow = DashRow(state: string, alertCount: Option<real>, labels: seq<string>)

  datatype StatusCounts = StatusCounts(service: nat, attente: nat, maintenance: nat, horsLigne: nat)

  function Bump(c: StatusCounts, b: Bucket): StatusCounts
  {
    match b
    case Service => c.(service := c.service + 1)
    case Attente => c.(attente := c.attente + 1)
    case Maintenance => c.(maintenance := c.maintenance + 1)
    case HorsLigne => c.(horsLigne := c.horsLigne + 1)
  }

  function InBucket(rows: seq<DashRow>, b: Bucket): nat
  {
    |Filter(rows, (r: DashRow) => StateKeyToBucket(r.state) == b)|
  }

  /** Each row increments exactly one status bucket: every counter is the
      number of rows in its bucket, and the counters sum to the number of
      rows. */
  function CountStatuses(rows: seq<DashRow>): (c: StatusCounts)
    ensures c.service == InBucket(rows, Service) && c.attente == InBucket(rows, Attente)
    ensures c.maintenance == InBucket(rows, Maintenance) && c.horsLigne == InBucket(rows, HorsLigne)
    ensures c.service + c.attente + c.maintenance + c.horsLigne == |rows|
  {
    if |rows| == 0 then StatusCounts(0, 0, 0, 0)
    else Bump(CountStatuses(rows[1..]), StateKeyToBucket(rows[0].state))
  }

  datatype ViolationCounts = ViolationCounts(speed: real, stop: real, brake: real, other: real)

  function Total(c: ViolationCounts): real
  {
    c.speed + c.stop + c.brake + c.other
  }

  /** The counter of one class. */
  function Get(c: ViolationCounts, v: Violation): real
  {
    match v
    case Speed => c.speed
    case Stop => c.stop
    case Brake => c.brake
    case Other => c.other
  }

  /** `cat[v] += w`: class `v` grows by `w` and every other class keeps
      its value. */
  function AddTo(c: ViolationCounts, v: Violation, w: real): (r: ViolationCounts)
    ensures forall u :: Get(r, u) == Get(c, u) + (if u == v then w else 0.0)
    ensures Total(r) == Total(c) + w
  {
    match v
    case Speed => c.(speed := c.speed + w)
    case Stop => c.(stop := c.stop + w)
    case Brake => c.(brake := c.brake + w)
    case Other => c.(other := c.other + w)
  }

  /** `Number(r?.alertCount) || 1`. */
  function Weight(r: DashRow): (w: real)
    ensures w != 0.0
    ensures r.alertCount.Some? && r.alertCount.value != 0.0 ==> w == r.alertCount.value
    ensures r.alertCount.None? || r.alertCount.value == 0.0 ==> w == 1.0
  {
    if r.alertCount.Some? && r.alertCount.value != 0.0 then r.alertCount.value else 1.0
  }

  /** The number of labels of class `v`. */
  function InClass(labels: seq<string>, v: Violation): nat
  {
    |Filter(labels, (l: string) => ClassifyAlert(l) == v)|
  }

  lemma InClassCons(labels: seq<string>, v: Violation)
    requires |labels| > 0
    ensures InClass(labels, v) == (if ClassifyAlert(labels[0]) == v then 1 else 0) + InClass(labels[1..], v)
  {
  }

  /** Every label falls in exactly one class: the per-class counts add up
      to the number of labels. */
  lemma {:induction false} ClassesPartitionLabels(labels: seq<string>)
    ensures InClass(labels, Speed) + InClass(labels, Stop) + InClass(labels, Brake) + InClass(labels, Other) == |labels|
    decreases |labels|
  {
    if |labels| > 0 {
      ClassesPartitionLabels(labels[1..]);
      InClassCons(labels, Speed);
      InClassCons(labels, Stop);
      InClassCons(labels, Brake);
      InClassCons(labels, Other);
    }
  }

  /** One per label, into the label's class: each class grows by the
      number of labels of that class. */
  function CountLabels(c: ViolationCounts, labels: seq<string>): (r: ViolationCounts)
    ensures forall v :: Get(r, v) == Get(c, v) + InClass(labels, v) as real
    ensures Total(r) == Total(c) + |labels| as real
    decreases |labels|
  {
    if |labels| == 0 then c
    else
      var c1 := AddTo(c, ClassifyAlert(labels[0]), 1.0);
      var r := CountLabels(c1, labels[1..]);
      assert forall v :: InClass(labels, v) == (if ClassifyAlert(labels[0]) == v then 1 else 0) + InClass(labels[1..], v) by {
        forall v { InClassCons(labels, v); }
      }
      r
  }

  /** What a row adds to the violation counters in all. */
  function RowShare(r: DashRow): real
  {
    if |r.labels| == 0 then Weight(r) else |r.labels| as real
  }

  function Shares(rows: seq<DashRow>): real
  {
    if |rows| == 0 then 0.0 else RowShare(rows[0]) + Shares(rows[1..])
  }

  /** What a row adds to class `v`: its weight to `other` when it has no
      labels, otherwise the number of its labels of class `v`. */
  function RowShareIn(r: DashRow, v: Violation): real
  {
    if |r.labels| == 0 then (if v == Other then Weight(r) else 0.0)
    else InClass(r.labels, v) as real
  }

  function SharesIn(rows: seq<DashRow>, v: Violation): real
  {
    if |rows| == 0 then 0.0 else RowShareIn(rows[0], v) + SharesIn(rows[1..], v)
  }

  /** The violation counters: a row without labels adds its weight to
      `other`, a row with labels adds 1 per label to that label's class.
      Each class grows by exactly the rows' shares in that class, and the
      counters in all by the rows' shares. */
  function CountViolations(c: ViolationCounts, rows: seq<DashRow>): (r: ViolationCounts)
    ensures forall v :: Get(r, v) == Get(c, v) + SharesIn(rows, v)
    ensures Total(r) == Total(c) + Shares(rows)
    decreases |rows|
  {
    if |rows| == 0 then c
    else
      var r0 := rows[0];
      var c1 := if |r0.labels| == 0 then AddTo(c, Other, Weight(r0)) else CountLabels(c, r0.labels);
      assert forall v :: Get(c1, v) == Get(c, v) + RowShareIn(r0, v);
      CountViolations(c1, rows[1..])
  }

  /** A labelled row's alert count plays no part: only its labels do. */
  lemma {:induction false} LabelsIgnoreWeight(c: ViolationCounts, r: DashRow, n: Option<real>)
    requires |r.labels| > 0
    ensures CountViolations(c, [r]) == CountViolations(c, [r.(alertCount := n)])
  {
    assert [r][1..] == [];
    assert [r.(alertCount := n)][1..] == [];
  }

  /** The alert total: `Number(r?.alertCount) || 0` summed. */
  function TotalAlerts(rows: seq<DashRow>): real
  {
    if |rows| == 0 then 0.0
    else (if rows[0].alertCount.Some? then rows[0].alertCount.value else 0.0) + TotalAlerts(rows[1..])
  }

  /** When no row has labels and every count is a non-zero number, the
      `other` counter is exactly the alert total. */
  lemma {:induction false} UnlabelledRowsOtherIsTotal(c: ViolationCounts, rows: seq<DashRow>)
    requires forall i :: 0 <= i < |rows| ==> |rows[i].labels| == 0 && rows[i].alertCount.Some? && rows[i].alertCount.value != 0.0
    ensures var r := CountViolations(c, rows);
            r.other == c.other + TotalAlerts(rows)
            && r.speed == c.speed && r.stop == c.stop && r.brake == c.brake
    decreases |rows|
  {
    if |rows| > 0 {
      var c1 := AddTo(c, Other, Weight(rows[0]));
      UnlabelledRowsOtherIsTotal(c1, rows[1..]);
    }
  }

  // ---------------------------------------------------------------------
  // Pie charts
  // ---------------------------------------------------------------------

  datatype Slice = Slice(name: string, value: nat)

  /** The status pie as written: the `En Service` slice shows the
      `horsLigne` counter and the `Hors Ligne` slice the `service`
      counter. */
  function StatusPieAsWritten(c: StatusCounts): (p: seq<Slice>)
    ensures |p| == 4 && p[0].name == "En Service" && p[3].name == "Hors Ligne"
    ensures p[0].value == c.horsLigne && p[3].value == c.service
    ensures p[1] == Slice("En Attente", c.attente) && p[2] == Slice("Maintenance", c.maintenance)
  {
    [Slice("En Service", c.horsLigne), Slice("En Attente", c.attente),
     Slice("Maintenance", c.maintenance), Slice("Hors Ligne", c.service)]
  }

  /** A fleet with a single running vehicle shows an empty `En Service`
      slice and one vehicle `Hors Ligne`. */
  lemma StatusPieSwapped()
    ensures var c := CountStatuses([DashRow("en_service", None, [])]);
            StatusPieAsWritten(c)[0] == Slice("En Service", 0)
            && StatusPieAsWritten(c)[3] == Slice("Hors Ligne", 1)
  {
    var rows := [DashRow("en_service", None, [])];
    LowerFixed("en_service");
    assert StateKeyToBucket(rows[0].state) == Service;
    assert rows[1..] == [];
  }

  /** The status pie with each slice showing its own counter. */
  function StatusPie(c: StatusCounts): (p: seq<Slice>)
    ensures |p| == 4
    ensures p[0] == Slice("En Service", c.service) && p[1] == Slice("En Attente", c.attente)
    ensures p[2] == Slice("Maintenance", c.maintenance) && p[3] == Slice("Hors Ligne", c.horsLigne)
    ensures p[0].value + p[1].value + p[2].value + p[3].value == c.service + c.attente + c.maintenance + c.horsLigne
  {
    [Slice("En Service", c.service), Slice("En Attente", c.attente),
     Slice("Maintenance", c.maintenance), Slice("Hors Ligne", c.horsLigne)]
  }

  /** Each slice of the corrected pie counts the rows of its bucket, and
      the slices cover every row. */
  lemma StatusPieCountsBuckets(rows: seq<DashRow>)
    ensures var p := StatusPie(CountStatuses(rows));
            p[0].value == InBucket(rows, Service) && p[1].value == InBucket(rows, Attente)
            && p[2].value == InBucket(rows, Maintenance) && p[3].value == InBucket(rows, HorsLigne)
            && p[0].value + p[1].value + p[2].value + p[3].value == |rows|
  {
  }

  // ---------------------------------------------------------------------
  // Top consumers
  // ---------------------------------------------------------------------

  /** A job's result: a device id and its `totalFuel`. */
  datatype DevFuel = DevFuel(id: int, totalFuel: real)

  datatype Bar = Bar(name: string, fuel: real)

  const TopN := 6

  /** The descending comparator as an ascending key. */
  function FuelKey(d: DevFuel): real
  {
    -d.totalFuel
  }

  /** Names longer than 12 characters are cut to their last 6. */
  function ShortName(name: string): (r: string)
    ensures |r| <= 12
    ensures |name| <= 12 ==> r == name
    ensures |name| > 12 ==> |r| == 6 && name == name[..|name| - 6] + r
  {
    if |name| > 12 then name[|name| - 6..] else name
  }

  /** The device ranking: successes ordered by fuel, largest first, equal
      fuel in job order. */
  function Ranked(perDev: seq<Pool.Slot<DevFuel>>): (r: seq<DevFuel>)
    ensures multiset(r) == multiset(Pool.Compact(perDev))
    ensures forall i, j :: 0 <= i < j < |r| ==> r[i].totalFuel >= r[j].totalFuel
  {
    var r := Sorting.SortBy(Pool.Compact(perDev), FuelKey);
    assert forall i, j :: 0 <= i < j < |r| ==> FuelKey(r[i]) <= FuelKey(r[j]);
    r
  }

  /** Devices with equal fuel keep their job order in the ranking. */
  lemma RankedStable(perDev: seq<Pool.Slot<DevFuel>>, k: real)
    ensures Filter(Ranked(perDev), Sorting.WithKey(FuelKey, k)) == Filter(Pool.Compact(perDev), Sorting.WithKey(FuelKey, k))
  {
    Sorting.SortStable(Pool.Compact(perDev), FuelKey, k);
  }

  /** The devices that get a bar. */
  function Top(perDev: seq<Pool.Slot<DevFuel>>): (t: seq<DevFuel>)
    ensures |t| == MinInt(TopN, |Pool.Compact(perDev)|)
    ensures forall i, j :: 0 <= i < j < |t| ==> t[i].totalFuel >= t[j].totalFuel
  {
    var r := Ranked(perDev);
    assert |r| == |multiset(r)| == |Pool.Compact(perDev)|;
    r[..MinInt(TopN, |r|)]
  }

  /** The bars: at most `TopN`, one per device of `Top`, its name (the
      device's friendly name, or its id as text) shortened. */
  function FuelBars(perDev: seq<Pool.Slot<DevFuel>>, nameOf: int -> string, idText: int -> string): (bars: seq<Bar>)
    ensures |bars| == MinInt(TopN, |Pool.Compact(perDev)|) && |bars| <= TopN
    ensures forall i, j :: 0 <= i < j < |bars| ==> bars[i].fuel >= bars[j].fuel
    ensures forall i :: 0 <= i < |bars| ==> |bars[i].name| <= 12
  {
    var t := Top(perDev);
    var bars := seq(|t|, i requires 0 <= i < |t| => BarOf(t[i], nameOf, idText));
    assert forall i :: 0 <= i < |t| ==> bars[i].fuel == t[i].totalFuel;
    bars
  }

  function BarOf(d: DevFuel, nameOf: int -> string, idText: int -> string): (b: Bar)
    ensures b.fuel == d.totalFuel && |b.name| <= 12
  {
    Bar(ShortName(if nameOf(d.id) != "" then nameOf(d.id) else idText(d.id)), d.totalFuel)
  }

  /** The devices with a bar are the first ones of the ranking, a
      permutation of the successes, and every device after them consumes
      no more than any device with a bar. */
  lemma TopIsTop(perDev: seq<Pool.Slot<DevFuel>>)
    ensures var r := Ranked(perDev);
            var t := Top(perDev);
            multiset(r) == multiset(Pool.Compact(perDev)) && |t| <= |r| && t == r[..|t|]
            && forall i, j :: 0 <= i < |t| <= j < |r| ==> t[i].totalFuel >= r[j].totalFuel
  {
    var r := Ranked(perDev);
    assert |r| == |multiset(r)| == |Pool.Compact(perDev)|;
  }

  /** The bars are built from the successful jobs only, in the same way
      whichever jobs failed and however the pool recorded them. */
  lemma BarsFromSuccesses(jobs: seq<Option<DevFuel>>)
    ensures Pool.Compact(Pool.TrimHoles(Pool.ExpectedAll(Pool.SkipHole, jobs))) == Pool.Successes(jobs)
  {
    Pool.CompactTrimHoles(Pool.ExpectedAll(Pool.SkipHole, jobs));
    Pool.CompactExpected(Pool.SkipHole, jobs);
  }
}
