/** The alert workflow of the Alerts page (src/pages/Alerts.tsx): turning
    the server's vehicle-alert rows into alert cards, merging the persisted
    per-alert state, the search filter and the counters, and the edits
    (take in charge, toggle a step, add a step, mark resolved) seen as
    transformers of the alert list. React state, storage, the clock and
    `crypto.randomUUID` are left out: fresh ids and times are parameters. */
module AlertsPage {
  import opened Common
  import Company

  datatype AlertType = Critical | Warning | Success
  datatype AlertStatus = New | InProgress | Resolved

  /** A step of an action plan; `name` is the source's `label`. */
  datatype Step = Step(id: string, name: string, done: bool)
  datatype Comment = Comment(id: string, text: string, author: string, date: string)

  datatype Alert = Alert(
    id: string,
    alertType: AlertType,
    title: string,
    description: string,
    time: string,
    date: string,
    location: string,
    vehicle: string,
    driver: string,
    status: AlertStatus,
    comments: seq<Comment>,
    actionPlan: seq<Step>)

  const MaxActions := 10

  // ---------------------------------------------------------------------
  // Label classification
  // ---------------------------------------------------------------------

  /** `labelToType`: speed/overspeed/alarm first, then
      fuel/idle/zone/geofence, otherwise `success`. */
  function LabelToType(name: string): (t: AlertType)
    ensures var l := Lower(name);
            (t == Critical <==> Contains(l, "speed") || Contains(l, "overspeed") || Contains(l, "alarm"))
            && (t == Warning <==> !(Contains(l, "speed") || Contains(l, "overspeed") || Contains(l, "alarm"))
                                  && (Contains(l, "fuel") || Contains(l, "idle") || Contains(l, "zone") || Contains(l, "geofence")))
  {
    var l := Lower(name);
    if Contains(l, "speed") || Contains(l, "overspeed") || Contains(l, "alarm") then Critical
    else if Contains(l, "fuel") || Contains(l, "idle") || Contains(l, "zone") || Contains(l, "geofence") then Warning
    else Success
  }

  /** The classification ignores case. */
  lemma LabelToTypeIgnoresCase(name: string)
    ensures LabelToType(Lower(name)) == LabelToType(name)
  {
    LowerIdempotent(name);
  }

  /** A string that includes `a + b` includes `b`. */
  lemma ContainsSuffix(s: string, a: string, b: string)
    requires Contains(s, a + b)
    ensures Contains(s, b)
  {
    ContainsIff(s, a + b);
    var i :| OccursAt(s, a + b, i);
    assert s[i + |a|..i + |a| + |b|] == (a + b)[|a|..];
    assert OccursAt(s, b, i + |a|);
    OccursAtContains(s, b, i + |a|);
  }

  /** The `overspeed` test adds nothing: every label it catches contains
      `speed` already. */
  lemma OverspeedIsSpeed(name: string)
    ensures Contains(Lower(name), "overspeed") ==> Contains(Lower(name), "speed")
  {
    if Contains(Lower(name), "overspeed") {
      assert "overspeed" == "over" + "speed";
      ContainsSuffix(Lower(name), "over", "speed");
    }
  }

  // ---------------------------------------------------------------------
  // Alert cards from the server rows
  // ---------------------------------------------------------------------

  /** A row of the vehicle-alerts report as the page reads it: the device id
      as text, its alert labels and its geofence names. */
  datatype SourceRow = SourceRow(deviceId: string, labels: seq<string>, geofences: seq<string>)

  /** `${r.deviceId}::${slug(label)}`. */
  function StableId(nfkd: string -> string, deviceId: string, name: string): (id: string)
    ensures IsPrefix(deviceId + "::", id)
  {
    deviceId + "::" + Company.Slug(nfkd, name)
  }

  /** The card of one label of a row: a new alert with no comments and no
      plan, typed by `LabelToType`, located at the first geofence when that
      is a non-empty name. */
  function Card(nfkd: string -> string, vehicle: string, r: SourceRow, name: string, time: string, date: string): (a: Alert)
    ensures a.id == StableId(nfkd, r.deviceId, name) && a.title == name
    ensures a.alertType == LabelToType(name) && a.status == New
    ensures a.comments == [] && a.actionPlan == [] && a.driver == "—"
    ensures a.location == (if |r.geofences| > 0 && r.geofences[0] != "" then r.geofences[0] else "—")
  {
    Alert(StableId(nfkd, r.deviceId, name), LabelToType(name), name,
          "Événement \"" + name + "\" détecté sur la période.", time, date,
          if |r.geofences| > 0 && r.geofences[0] != "" then r.geofences[0] else "—",
          vehicle, "—", New, [], [])
  }

  function RowCards(nfkd: string -> string, vehicle: string, r: SourceRow, labels: seq<string>, time: string, date: string): (cs: seq<Alert>)
    ensures |cs| == |labels|
    ensures forall i :: 0 <= i < |labels| ==> cs[i] == Card(nfkd, vehicle, r, labels[i], time, date)
  {
    seq(|labels|, i requires 0 <= i < |labels| => Card(nfkd, vehicle, r, labels[i], time, date))
  }

  /** The labels of all rows, rows in order, labels in order. */
  function AllLabels(rows: seq<SourceRow>): seq<string>
  {
    if |rows| == 0 then [] else rows[0].labels + AllLabels(rows[1..])
  }

  /** Cards titled, position by position, with the given labels. */
  predicate TitledBy(cs: seq<Alert>, labels: seq<string>)
  {
    |cs| == |labels| && forall i :: 0 <= i < |cs| ==> cs[i].title == labels[i]
  }

  /** A card as synthesised: new, with no plan and no comments, typed by its
      title. */
  predicate IsFreshCard(a: Alert)
  {
    a.status == New && a.actionPlan == [] && a.comments == [] && a.alertType == LabelToType(a.title)
  }

  /** The synthetic cards: one per label, rows in order, labels in order;
      `vehicle` gives a row's vehicle label. The card at position i is
      titled with the i-th label overall. */
  function Synthesize(nfkd: string -> string, vehicle: string -> string, rows: seq<SourceRow>, time: string, date: string): (cs: seq<Alert>)
    ensures TitledBy(cs, AllLabels(rows))
    ensures forall a :: a in cs ==> IsFreshCard(a)
  {
    if |rows| == 0 then []
    else
      var head := RowCards(nfkd, vehicle(rows[0].deviceId), rows[0], rows[0].labels, time, date);
      var tail := Synthesize(nfkd, vehicle, rows[1..], time, date);
      TitledConcat(head, tail, rows[0].labels, AllLabels(rows[1..]));
      head + tail
  }

  lemma TitledConcat(c1: seq<Alert>, c2: seq<Alert>, l1: seq<string>, l2: seq<string>)
    requires TitledBy(c1, l1) && TitledBy(c2, l2)
    ensures TitledBy(c1 + c2, l1 + l2)
  {
    forall i | 0 <= i < |c1 + c2| ensures (c1 + c2)[i].title == (l1 + l2)[i] {
      if i >= |c1| {
        assert (c1 + c2)[i] == c2[i - |c1|];
        assert (l1 + l2)[i] == l2[i - |l1|];
      }
    }
  }

  /** The loop over the rows: one more row appends that row's cards, each
      the card of its own label, after the cards of the rows before it. */
  lemma {:induction false} SynthesizeSnoc(nfkd: string -> string, vehicle: string -> string, rows: seq<SourceRow>, r: SourceRow, time: string, date: string)
    ensures Synthesize(nfkd, vehicle, rows + [r], time, date)
         == Synthesize(nfkd, vehicle, rows, time, date) + RowCards(nfkd, vehicle(r.deviceId), r, r.labels, time, date)
    decreases |rows|
  {
    var last := RowCards(nfkd, vehicle(r.deviceId), r, r.labels, time, date);
    if |rows| == 0 {
      assert [r][1..] == [];
      assert Synthesize(nfkd, vehicle, [r], time, date) == last + [];
    } else {
      assert (rows + [r])[0] == rows[0];
      assert (rows + [r])[1..] == rows[1..] + [r];
      SynthesizeSnoc(nfkd, vehicle, rows[1..], r, time, date);
      var head := RowCards(nfkd, vehicle(rows[0].deviceId), rows[0], rows[0].labels, time, date);
      ConcatAssoc(head, Synthesize(nfkd, vehicle, rows[1..], time, date), last);
    }
  }

  // ---------------------------------------------------------------------
  // Merge with the persisted state
  // ---------------------------------------------------------------------

  /** A persisted record as the page reads it: a falsy status or type is
      `None`, and so is a plan or comment list that is not an array. */
  datatype Persisted = Persisted(
    status: Option<AlertStatus>,
    alertType: Option<AlertType>,
    actionPlan: Option<seq<Step>>,
    comments: Option<seq<Comment>>)

  /** One card merged with its persisted record: status and type only from
      truthy values, the plan only from a non-empty array, the comments from
      any array (an empty one included). */
  function MergeOne(a: Alert, p: Persisted): (r: Alert)
    ensures r.status == (if p.status.Some? then p.status.value else a.status)
    ensures r.alertType == (if p.alertType.Some? then p.alertType.value else a.alertType)
    ensures r.actionPlan == (if p.actionPlan.Some? && |p.actionPlan.value| > 0 then p.actionPlan.value else a.actionPlan)
    ensures r.comments == (if p.comments.Some? then p.comments.value else a.comments)
    ensures r.(status := a.status, alertType := a.alertType, actionPlan := a.actionPlan, comments := a.comments) == a
  {
    a.(status := if p.status.Some? then p.status.value else a.status,
       actionPlan := if p.actionPlan.Some? && |p.actionPlan.value| > 0 then p.actionPlan.value else a.actionPlan,
       comments := if p.comments.Some? then p.comments.value else a.comments,
       alertType := if p.alertType.Some? then p.alertType.value else a.alertType)
  }

  /** Every card looks up its own id; cards without a record are kept. */
  function MergePersisted(alerts: seq<Alert>, persisted: map<string, Persisted>): (r: seq<Alert>)
    ensures |r| == |alerts|
    ensures forall i :: 0 <= i < |alerts| ==>
              r[i] == (if alerts[i].id in persisted then MergeOne(alerts[i], persisted[alerts[i].id]) else alerts[i])
  {
    seq(|alerts|, i requires 0 <= i < |alerts| =>
      if alerts[i].id in persisted then MergeOne(alerts[i], persisted[alerts[i].id]) else alerts[i])
  }

  /** An empty persisted plan never erases a card's plan, while an empty
      persisted comment list does erase its comments. */
  lemma EmptyPersistedLists(a: Alert, p: Persisted)
    requires p.actionPlan == Some([]) && p.comments == Some([])
    ensures MergeOne(a, p).actionPlan == a.actionPlan
    ensures MergeOne(a, p).comments == []
  {
  }

  /** Merging the same record twice is merging it once. */
  lemma MergeIdempotent(alerts: seq<Alert>, persisted: map<string, Persisted>)
    ensures MergePersisted(MergePersisted(alerts, persisted), persisted) == MergePersisted(alerts, persisted)
  {
    var m1 := MergePersisted(alerts, persisted);
    var m2 := MergePersisted(m1, persisted);
    forall i | 0 <= i < |alerts|
      ensures m2[i] == m1[i]
    {
      assert m1[i].id == alerts[i].id;
    }
  }

  // ---------------------------------------------------------------------
  // Filter and counters
  // ---------------------------------------------------------------------

  datatype TypeFilter = AllTypes | Only(t: AlertType)

  /** The `filteredAlerts` predicate: the lower-cased query (not trimmed)
      in the title, location, driver or vehicle; the type filter; and, when
      only active alerts are shown, not resolved. */
  predicate Matches(a: Alert, search: string, ft: TypeFilter, activeOnly: bool)
  {
    var q := Lower(search);
    (Contains(Lower(a.title), q) || Contains(Lower(a.location), q)
     || Contains(Lower(a.driver), q) || Contains(Lower(a.vehicle), q))
    && (ft.AllTypes? || a.alertType == ft.t)
    && (!activeOnly || a.status != Resolved)
  }

  function FilteredAlerts(alerts: seq<Alert>, search: string, ft: TypeFilter, activeOnly: bool): (r: seq<Alert>)
    ensures forall a :: a in r ==> a in alerts && Matches(a, search, ft, activeOnly)
    ensures forall a :: a in alerts && Matches(a, search, ft, activeOnly) ==> a in r
  {
    Filter(alerts, a => Matches(a, search, ft, activeOnly))
  }

  /** The filter keeps the list's order, and with an empty query, every
      type and resolved alerts shown it keeps the whole list. */
  lemma FilterOrderAndIdentity(alerts: seq<Alert>, search: string, ft: TypeFilter, activeOnly: bool)
    ensures Sublist(FilteredAlerts(alerts, search, ft, activeOnly), alerts)
    ensures search == "" && ft.AllTypes? && !activeOnly ==> FilteredAlerts(alerts, search, ft, activeOnly) == alerts
  {
    FilterIsSublist(alerts, a => Matches(a, search, ft, activeOnly));
    if search == "" && ft.AllTypes? && !activeOnly {
      forall i | 0 <= i < |alerts|
        ensures Matches(alerts[i], search, ft, activeOnly)
      {
        ContainsEmpty(Lower(alerts[i].title));
      }
      FilterAll(alerts, a => Matches(a, search, ft, activeOnly));
    }
  }

  /** A resolved alert disappears from the active-only view. */
  lemma ResolvedHiddenWhenActiveOnly(alerts: seq<Alert>, search: string, ft: TypeFilter, a: Alert)
    requires a.status == Resolved
    ensures a !in FilteredAlerts(alerts, search, ft, true)
  {
  }

  function CountStatus(alerts: seq<Alert>, s: AlertStatus): (n: nat)
    ensures n <= |alerts|
  {
    |Filter(alerts, (a: Alert) => a.status == s)|
  }

  /** The three status counters split the list. */
  lemma {:induction false} StatusCountsSum(alerts: seq<Alert>)
    ensures CountStatus(alerts, New) + CountStatus(alerts, InProgress) + CountStatus(alerts, Resolved) == |alerts|
    decreases |alerts|
  {
    if |alerts| > 0 {
      StatusCountsSum(alerts[1..]);
    }
  }

  /** `Math.round(part / total * 100)` guarded by a zero total, on exact
      rationals; `Math.round` rounds halves up, so the result is the one
      integer in (exact - 0.5, exact + 0.5]. */
  function Percent(part: nat, total: nat): (r: int)
    ensures total == 0 ==> r == 0
    ensures total > 0 ==> -0.5 < r as real - (part as real) * 100.0 / (total as real) <= 0.5
  {
    if total == 0 then 0 else ((part as real) * 100.0 / (total as real) + 0.5).Floor
  }

  lemma PercentBounds(part: nat, total: nat)
    requires part <= total
    ensures 0 <= Percent(part, total) <= 100
    ensures total > 0 && part == total ==> Percent(part, total) == 100
    ensures part == 0 ==> Percent(part, total) == 0
  {
    if total > 0 {
      var x := (part as real) * 100.0 / (total as real);
      assert (part as real) * 100.0 <= (total as real) * 100.0;
      assert 0.0 <= x <= 100.0;
      if part == total {
        assert x == 100.0;
      }
    }
  }

  /** `treatmentRate`: the percentage of resolved alerts. */
  function TreatmentRate(alerts: seq<Alert>): (r: int)
    ensures 0 <= r <= 100
    ensures |alerts| == 0 ==> r == 0
  {
    PercentBounds(CountStatus(alerts, Resolved), |alerts|);
    Percent(CountStatus(alerts, Resolved), |alerts|)
  }

  function CountDone(plan: seq<Step>): (n: nat)
    ensures n <= |plan|
  {
    |Filter(plan, (s: Step) => s.done)|
  }

  /** `getProgress`: 0 for an empty plan, otherwise the rounded percentage
      of steps done. */
  function Progress(a: Alert): (r: int)
    ensures 0 <= r <= 100
    ensures a.actionPlan == [] ==> r == 0
    ensures CountDone(a.actionPlan) == |a.actionPlan| && |a.actionPlan| > 0 ==> r == 100
    ensures CountDone(a.actionPlan) == 0 ==> r == 0
    ensures |a.actionPlan| > 0 ==>
              -0.5 < r as real - (CountDone(a.actionPlan) as real) * 100.0 / (|a.actionPlan| as real) <= 0.5
  {
    PercentBounds(CountDone(a.actionPlan), |a.actionPlan|);
    Percent(CountDone(a.actionPlan), |a.actionPlan|)
  }

  // ---------------------------------------------------------------------
  // Edits
  // ---------------------------------------------------------------------

  function DefaultLabels(t: AlertType): (ls: seq<string>)
    ensures 0 < |ls| <= MaxActions
  {
    match t
    case Critical => ["Contacter le conducteur", "Vérifier la limite de vitesse/zone", "Analyser la trajectoire (±15 min)", "Rédiger un avertissement"]
    case Warning => ["Diagnostiquer la cause", "Notifier le conducteur/chef d'équipe", "Planifier un suivi"]
    case Success => ["Documenter et archiver"]
  }

  function Labels(plan: seq<Step>): (ls: seq<string>)
    ensures |ls| == |plan| && forall i :: 0 <= i < |plan| ==> ls[i] == plan[i].name
  {
    seq(|plan|, i requires 0 <= i < |plan| => plan[i].name)
  }

  /** `injectDefaultPlan`: an alert with no plan gets its type's default
      steps, all undone; step `i` takes the fresh id `uuid(i)`. */
  function InjectDefaultPlan(a: Alert, uuid: nat -> string): (r: Alert)
    ensures |a.actionPlan| > 0 ==> r == a
    ensures |a.actionPlan| == 0 ==>
              r == a.(actionPlan := r.actionPlan)
              && Labels(r.actionPlan) == DefaultLabels(a.alertType)
              && forall i :: 0 <= i < |r.actionPlan| ==> r.actionPlan[i] == Step(uuid(i), DefaultLabels(a.alertType)[i], false)
  {
    if |a.actionPlan| > 0 then a
    else
      var ls := DefaultLabels(a.alertType);
      var plan := seq(|ls|, i requires 0 <= i < |ls| => Step(uuid(i), ls[i], false));
      assert Labels(plan) == ls;
      a.(actionPlan := plan)
  }

  /** Injecting twice is injecting once, whatever ids the second call
      would draw. */
  lemma InjectIdempotent(a: Alert, u1: nat -> string, u2: nat -> string)
    ensures InjectDefaultPlan(InjectDefaultPlan(a, u1), u2) == InjectDefaultPlan(a, u1)
  {
  }

  /** `takeInCharge`: the matching alert gets the default plan if it had
      none, status `in_progress` and one more comment by the user (or
      `Admin`); every other alert is unchanged. The page draws a fresh
      `randomUUID` per default step and per comment inside the `map`
      callback, so the alert at index `i` takes the step ids `uuid(i, j)`
      and the comment id `commentId(i)`. */
  function TakeInCharge(alerts: seq<Alert>, id: string, uuid: (nat, nat) -> string, commentId: nat -> string,
                        username: string, date: string): (r: seq<Alert>)
    ensures |r| == |alerts|
    ensures forall i :: 0 <= i < |alerts| && alerts[i].id != id ==> r[i] == alerts[i]
    ensures forall i :: 0 <= i < |alerts| && alerts[i].id == id ==>
              r[i] == alerts[i].(status := InProgress, actionPlan := r[i].actionPlan, comments := r[i].comments)
              && r[i].comments == alerts[i].comments
                                  + [Comment(commentId(i), "Alerte prise en charge", if username != "" then username else "Admin", date)]
              && (|alerts[i].actionPlan| > 0 ==> r[i].actionPlan == alerts[i].actionPlan)
              && (|alerts[i].actionPlan| == 0 ==>
                    Labels(r[i].actionPlan) == DefaultLabels(alerts[i].alertType)
                    && forall j :: 0 <= j < |r[i].actionPlan| ==> r[i].actionPlan[j] == Step(uuid(i, j), DefaultLabels(alerts[i].alertType)[j], false))
  {
    seq(|alerts|, i requires 0 <= i < |alerts| =>
      if alerts[i].id != id then alerts[i] else TakeOne(alerts[i], i, uuid, commentId, username, date))
  }

  /** The alert at index `i` once taken in charge. */
  function TakeOne(a: Alert, i: nat, uuid: (nat, nat) -> string, commentId: nat -> string,
                   username: string, date: string): (r: Alert)
    ensures r == a.(status := InProgress, actionPlan := r.actionPlan, comments := r.comments)
    ensures r.comments == a.comments + [Comment(commentId(i), "Alerte prise en charge", if username != "" then username else "Admin", date)]
    ensures |a.actionPlan| > 0 ==> r.actionPlan == a.actionPlan
    ensures |a.actionPlan| == 0 ==>
              Labels(r.actionPlan) == DefaultLabels(a.alertType)
              && forall j :: 0 <= j < |r.actionPlan| ==> r.actionPlan[j] == Step(uuid(i, j), DefaultLabels(a.alertType)[j], false)
  {
    var p := InjectDefaultPlan(a, (j: nat) => uuid(i, j));
    p.(status := InProgress,
       comments := a.comments + [Comment(commentId(i), "Alerte prise en charge", if username != "" then username else "Admin", date)])
  }

  /** With an injective id source, no two alerts taken in charge together
      share a step id or a comment id, even when their alert ids repeat. */
  lemma TakeInChargeFreshIds(alerts: seq<Alert>, id: string, uuid: (nat, nat) -> string, commentId: nat -> string,
                             username: string, date: string, i: nat, k: nat)
    requires forall a, b, c, d :: uuid(a, b) == uuid(c, d) ==> a == c && b == d
    requires forall a, b :: commentId(a) == commentId(b) ==> a == b
    requires i < k < |alerts| && alerts[i].id == id && alerts[k].id == id
    ensures var r := TakeInCharge(alerts, id, uuid, commentId, username, date);
            r[i].comments[|r[i].comments| - 1].id != r[k].comments[|r[k].comments| - 1].id
            && (|alerts[i].actionPlan| == 0 && |alerts[k].actionPlan| == 0 ==>
                  forall j, l :: 0 <= j < |r[i].actionPlan| && 0 <= l < |r[k].actionPlan| ==>
                    r[i].actionPlan[j].id != r[k].actionPlan[l].id)
  {
    var r := TakeInCharge(alerts, id, uuid, commentId, username, date);
    if |alerts[i].actionPlan| == 0 && |alerts[k].actionPlan| == 0 {
      forall j, l | 0 <= j < |r[i].actionPlan| && 0 <= l < |r[k].actionPlan|
        ensures r[i].actionPlan[j].id != r[k].actionPlan[l].id
      {
        assert r[i].actionPlan[j].id == uuid(i, j);
        assert r[k].actionPlan[l].id == uuid(k, l);
      }
    }
  }

  /** Flips `done` on the steps with the given id. */
  function ToggleIn(plan: seq<Step>, stepId: string): (r: seq<Step>)
    ensures |r| == |plan|
    ensures forall i :: 0 <= i < |plan| ==>
              r[i].id == plan[i].id && r[i].name == plan[i].name
              && r[i].done == (if plan[i].id == stepId then !plan[i].done else plan[i].done)
  {
    seq(|plan|, i requires 0 <= i < |plan| =>
      if plan[i].id == stepId then plan[i].(done := !plan[i].done) else plan[i])
  }

  /** `toggleStep` on the list. */
  function ToggleStep(alerts: seq<Alert>, alertId: string, stepId: string): (r: seq<Alert>)
    ensures |r| == |alerts|
    ensures forall i :: 0 <= i < |alerts| && alerts[i].id != alertId ==> r[i] == alerts[i]
    ensures forall i :: 0 <= i < |alerts| && alerts[i].id == alertId ==>
              r[i] == alerts[i].(actionPlan := ToggleIn(alerts[i].actionPlan, stepId))
  {
    seq(|alerts|, i requires 0 <= i < |alerts| =>
      if alerts[i].id != alertId then alerts[i]
      else alerts[i].(actionPlan := ToggleIn(alerts[i].actionPlan, stepId)))
  }

  /** Toggling the same step twice restores the list. */
  lemma ToggleTwice(alerts: seq<Alert>, alertId: string, stepId: string)
    ensures ToggleStep(ToggleStep(alerts, alertId, stepId), alertId, stepId) == alerts
  {
    var t1 := ToggleStep(alerts, alertId, stepId);
    var t2 := ToggleStep(t1, alertId, stepId);
    forall i | 0 <= i < |alerts|
      ensures t2[i] == alerts[i]
    {
      if alerts[i].id == alertId {
        var p := alerts[i].actionPlan;
        var p2 := ToggleIn(ToggleIn(p, stepId), stepId);
        assert p2 == p by {
          forall j | 0 <= j < |p|
            ensures p2[j] == p[j]
          {
          }
        }
      }
    }
  }

  /** What `addStep` decides for one alert with a non-blank label. */
  datatype AddVerdict = Append | LimitReached | AlreadyThere

  function AddVerdictFor(plan: seq<Step>, trimmed: string): (v: AddVerdict)
    ensures v == LimitReached <==> |plan| >= MaxActions
    ensures v == AlreadyThere <==>
              |plan| < MaxActions && exists j :: 0 <= j < |plan| && Lower(plan[j].name) == Lower(trimmed)
  {
    if |plan| >= MaxActions then LimitReached
    else if exists j :: 0 <= j < |plan| && Lower(plan[j].name) == Lower(trimmed) then AlreadyThere
    else Append
  }

  /** `addStep` on the list: the label is trimmed and a blank one changes
      nothing; each matching alert gets one more undone step unless its
      plan is full or already has the label up to case. The page draws a
      fresh `randomUUID` inside the `map` callback, so the alert at index
      `i` takes the step id `newId(i)`. */
  function AddStep(alerts: seq<Alert>, alertId: string, name: string, newId: nat -> string): (r: seq<Alert>)
    ensures |r| == |alerts|
    ensures Trim(name) == "" ==> r == alerts
    ensures forall i :: 0 <= i < |alerts| && alerts[i].id != alertId ==> r[i] == alerts[i]
    ensures forall i :: 0 <= i < |alerts| && alerts[i].id == alertId && Trim(name) != "" ==>
              if AddVerdictFor(alerts[i].actionPlan, Trim(name)) == Append
              then r[i] == alerts[i].(actionPlan := alerts[i].actionPlan + [Step(newId(i), Trim(name), false)])
              else r[i] == alerts[i]
  {
    var t := Trim(name);
    if t == "" then alerts
    else
      seq(|alerts|, i requires 0 <= i < |alerts| =>
        var a := alerts[i];
        if a.id != alertId || AddVerdictFor(a.actionPlan, t) != Append then a
        else a.(actionPlan := a.actionPlan + [Step(newId(i), t, false)]))
  }

  /** No two steps of a plan share a label up to case. */
  predicate DistinctLabels(plan: seq<Step>)
  {
    forall j, k :: 0 <= j < k < |plan| ==> Lower(plan[j].name) != Lower(plan[k].name)
  }

  /** `addStep` keeps every plan within `MaxActions` steps and its labels
      distinct up to case. */
  lemma AddStepKeepsPlansValid(alerts: seq<Alert>, alertId: string, name: string, newId: nat -> string)
    requires forall i :: 0 <= i < |alerts| ==> |alerts[i].actionPlan| <= MaxActions && DistinctLabels(alerts[i].actionPlan)
    ensures var r := AddStep(alerts, alertId, name, newId);
            forall i :: 0 <= i < |r| ==> |r[i].actionPlan| <= MaxActions && DistinctLabels(r[i].actionPlan)
  {
    var r := AddStep(alerts, alertId, name, newId);
    forall i | 0 <= i < |r|
      ensures |r[i].actionPlan| <= MaxActions && DistinctLabels(r[i].actionPlan)
    {
      if alerts[i].id == alertId && Trim(name) != "" && AddVerdictFor(alerts[i].actionPlan, Trim(name)) == Append {
        var p := alerts[i].actionPlan;
        var q := r[i].actionPlan;
        assert q == p + [Step(newId(i), Trim(name), false)];
        forall j, k | 0 <= j < k < |q|
          ensures Lower(q[j].name) != Lower(q[k].name)
        {
          if k == |p| {
            assert q[k].name == Trim(name);
            assert q[j] == p[j];
          } else {
            assert q[j] == p[j] && q[k] == p[k];
          }
        }
      }
    }
  }

  /** A plan that already has `MaxActions` steps never grows. */
  lemma AddStepRespectsLimit(alerts: seq<Alert>, alertId: string, name: string, newId: nat -> string, i: int)
    requires 0 <= i < |alerts| && |alerts[i].actionPlan| >= MaxActions
    ensures AddStep(alerts, alertId, name, newId)[i] == alerts[i]
  {
  }

  /** `markResolved`: the matching alert becomes resolved and of type
      `success`; every other alert is unchanged. */
  function MarkResolved(alerts: seq<Alert>, id: string): (r: seq<Alert>)
    ensures |r| == |alerts|
    ensures forall i :: 0 <= i < |alerts| && alerts[i].id != id ==> r[i] == alerts[i]
    ensures forall i :: 0 <= i < |alerts| && alerts[i].id == id ==>
              r[i] == alerts[i].(status := Resolved, alertType := Success)
  {
    seq(|alerts|, i requires 0 <= i < |alerts| =>
      if alerts[i].id == id then alerts[i].(status := Resolved, alertType := Success) else alerts[i])
  }

  /** Resolving twice is resolving once, and the resolved alert leaves the
      active-only view. */
  lemma MarkResolvedIdempotent(alerts: seq<Alert>, id: string, search: string, ft: TypeFilter)
    ensures MarkResolved(MarkResolved(alerts, id), id) == MarkResolved(alerts, id)
    ensures forall a :: a in FilteredAlerts(MarkResolved(alerts, id), search, ft, true) ==> a.id != id
  {
  }

  // ---------------------------------------------------------------------
  // Period
  // ---------------------------------------------------------------------

  /** The outcome of `applyRange`; a date is `None` when it does not
      parse. */
  datatype RangeCheck = InvalidDates | StartNotBeforeEnd | Accepted(from: int, to: int)

  /** The range check of `applyRange`, the same on the alerts page
      (src/pages/Alerts.tsx:147-156) and the resolved-alerts page
      (src/pages/ResolvedAlerts.tsx:116-121): unparsable dates first, then
      a start that is not before the end. */
  function ApplyRange(f: Option<int>, t: Option<int>): (r: RangeCheck)
    ensures r.Accepted? <==> f.Some? && t.Some? && f.value < t.value
    ensures r.Accepted? ==> r.from == f.value && r.to == t.value
    ensures r == InvalidDates <==> f.None? || t.None?
  {
    if f.None? || t.None? then InvalidDates
    else if f.value >= t.value then StartNotBeforeEnd
    else Accepted(f.value, t.value)
  }
}
