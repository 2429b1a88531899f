/** The resolved-alerts history (src/pages/ResolvedAlerts.tsx): the ids of
    the alerts marked done in the period, one row per id built from its
    stored state with defaults for every missing field, and the search and
    type filter. Date formatting is left out: a row keeps the timestamp it
    would format. */
module ResolvedAlerts {
  import opened Common
  import AlertsPage

  /** `String(r.alert_id)` of one done row; a missing id is the text
      `"undefined"`. */
  function IdText(alertId: Option<string>): string
  {
    if alertId.Some? then alertId.value else "undefined"
  }

  /** The ids: every row's id text, empty ones dropped, order kept. */
  function Ids(doneRows: seq<Option<string>>): (ids: seq<string>)
    ensures forall i :: 0 <= i < |ids| ==> ids[i] != ""
    ensures |ids| <= |doneRows|
  {
    if |doneRows| == 0 then []
    else (if IdText(doneRows[0]) != "" then [IdText(doneRows[0])] else []) + Ids(doneRows[1..])
  }

  /** A stored state as the page reads it (`labelText` is its `label`):
      `None` for a missing field, a falsy type, or a plan or comment list
      that is not an array. */
  datatype StoredState = StoredState(
    alertType: Option<AlertsPage.AlertType>,
    title: Option<string>,
    labelText: Option<string>,
    vehicle: Option<string>,
    driver: Option<string>,
    location: Option<string>,
    takenBy: Option<string>,
    takenAt: Option<string>,
    updatedAt: Option<string>,
    actionPlan: Option<seq<AlertsPage.Step>>,
    comments: Option<seq<AlertsPage.Comment>>)

  const Missing := StoredState(None, None, None, None, None, None, None, None, None, None, None)

  /** A present, non-empty text. */
  predicate Truthy(s: Option<string>)
  {
    s.Some? && s.value != ""
  }

  /** `a || b` on texts. */
  function OrElse(a: Option<string>, b: string): (r: string)
    ensures Truthy(a) ==> r == a.value
    ensures !Truthy(a) ==> r == b
  {
    if Truthy(a) then a.value else b
  }

  /** `a || null`. */
  function OrNull(a: Option<string>): (r: Option<string>)
    ensures r.Some? <==> Truthy(a)
    ensures r.Some? ==> r == a
  {
    if Truthy(a) then a else None
  }

  datatype Details = Details(
    alertType: AlertsPage.AlertType,
    takenBy: Option<string>,
    takenAt: Option<string>,
    updatedAt: Option<string>,
    actionPlan: seq<AlertsPage.Step>,
    comments: seq<AlertsPage.Comment>)

  /** A row; `stamp` is the timestamp its date and time are formatted
      from. */
  datatype ResolvedAlert = ResolvedAlert(
    id: string,
    alertType: AlertsPage.AlertType,
    title: string,
    stamp: string,
    vehicle: string,
    driver: string,
    location: string,
    details: Details)

  /** The row of one id. */
  function MakeRow(id: string, s: StoredState, now: string): (a: ResolvedAlert)
    ensures a.id == id
    ensures a.alertType == (if s.alertType.Some? then s.alertType.value else AlertsPage.Success) == a.details.alertType
    ensures a.title == (if Truthy(s.title) then s.title.value else if Truthy(s.labelText) then s.labelText.value else "Alerte")
    ensures a.stamp == (if Truthy(s.updatedAt) then s.updatedAt.value else if Truthy(s.takenAt) then s.takenAt.value else now)
    ensures a.vehicle == OrElse(s.vehicle, "—") && a.driver == OrElse(s.driver, "—") && a.location == OrElse(s.location, "—")
    ensures a.details.actionPlan == (if s.actionPlan.Some? then s.actionPlan.value else [])
    ensures a.details.comments == (if s.comments.Some? then s.comments.value else [])
  {
    var t := if s.alertType.Some? then s.alertType.value else AlertsPage.Success;
    ResolvedAlert(
      id, t,
      OrElse(s.title, OrElse(s.labelText, "Alerte")),
      OrElse(s.updatedAt, OrElse(s.takenAt, now)),
      OrElse(s.vehicle, "—"), OrElse(s.driver, "—"), OrElse(s.location, "—"),
      Details(t, OrNull(s.takenBy), OrNull(s.takenAt), OrNull(s.updatedAt),
              if s.actionPlan.Some? then s.actionPlan.value else [],
              if s.comments.Some? then s.comments.value else []))
  }

  /** One row per id, in id order; an id without a stored state gets the
      defaults. */
  function MapRows(ids: seq<string>, states: map<string, StoredState>, now: string): (out: seq<ResolvedAlert>)
    ensures |out| == |ids|
    ensures forall i :: 0 <= i < |ids| ==> out[i] == MakeRow(ids[i], if ids[i] in states then states[ids[i]] else Missing, now)
  {
    seq(|ids|, i requires 0 <= i < |ids| => MakeRow(ids[i], if ids[i] in states then states[ids[i]] else Missing, now))
  }

  /** A row without a stored state: a `success` titled `Alerte`, dashes for
      vehicle, driver and location, no plan, no comments, stamped now. */
  lemma MissingStateDefaults(id: string, now: string)
    ensures var a := MakeRow(id, Missing, now);
            a.alertType == AlertsPage.Success && a.title == "Alerte" && a.stamp == now
            && a.vehicle == "—" && a.driver == "—" && a.location == "—"
            && a.details.actionPlan == [] && a.details.comments == []
            && a.details.takenBy.None? && a.details.takenAt.None? && a.details.updatedAt.None?
  {
  }

  /** What `refresh` does after reading the done list: with no id it
      clears the list and makes no state lookup. */
  datatype Refresh = Cleared | Lookup(ids: seq<string>)

  function RefreshPlan(doneRows: seq<Option<string>>): (r: Refresh)
    ensures r == Cleared <==> Ids(doneRows) == []
    ensures r.Lookup? ==> r.ids == Ids(doneRows)
  {
    var ids := Ids(doneRows);
    if |ids| == 0 then Cleared else Lookup(ids)
  }

  /** The list the page shows after a refresh: the mapped rows of the ids
      it looked up, or nothing. */
  function Refreshed(doneRows: seq<Option<string>>, states: map<string, StoredState>, now: string): (out: seq<ResolvedAlert>)
    ensures |out| == |Ids(doneRows)|
    ensures RefreshPlan(doneRows) == Cleared ==> out == []
  {
    match RefreshPlan(doneRows)
    case Cleared => []
    case Lookup(ids) => MapRows(ids, states, now)
  }

  /** Every row shown comes from a done row, in the done list's order. */
  lemma IdsAreDoneRows(doneRows: seq<Option<string>>)
    ensures Sublist(Ids(doneRows), seq(|doneRows|, i requires 0 <= i < |doneRows| => IdText(doneRows[i])))
  {
    var texts := seq(|doneRows|, i requires 0 <= i < |doneRows| => IdText(doneRows[i]));
    assert Ids(doneRows) == Filter(texts, (s: string) => s != "") by {
      IdsAreFilter(doneRows);
    }
    FilterIsSublist(texts, (s: string) => s != "");
  }

  lemma {:induction false} IdsAreFilter(doneRows: seq<Option<string>>)
    ensures Ids(doneRows) == Filter(seq(|doneRows|, i requires 0 <= i < |doneRows| => IdText(doneRows[i])), (s: string) => s != "")
    decreases |doneRows|
  {
    if |doneRows| > 0 {
      IdsAreFilter(doneRows[1..]);
      var texts := seq(|doneRows|, i requires 0 <= i < |doneRows| => IdText(doneRows[i]));
      assert texts[1..] == seq(|doneRows[1..]|, i requires 0 <= i < |doneRows[1..]| => IdText(doneRows[1..][i]));
    }
  }

  // ---------------------------------------------------------------------
  // Filter
  // ---------------------------------------------------------------------

  /** The `filtered` predicate: a blank trimmed query matches everything;
      otherwise the lower-cased query must occur in the id, title, vehicle,
      driver or location; and the type filter. */
  predicate Matches(a: ResolvedAlert, query: string, ft: AlertsPage.TypeFilter)
  {
    var q := Lower(Trim(query));
    (q == "" || Contains(Lower(a.id), q) || Contains(Lower(a.title), q) || Contains(Lower(a.vehicle), q)
     || Contains(Lower(a.driver), q) || Contains(Lower(a.location), q))
    && (ft.AllTypes? || a.alertType == ft.t)
  }

  function Filtered(list: seq<ResolvedAlert>, query: string, ft: AlertsPage.TypeFilter): (r: seq<ResolvedAlert>)
    ensures forall a :: a in r <==> a in list && Matches(a, query, ft)
  {
    Filter(list, a => Matches(a, query, ft))
  }

  /** The filter keeps the list's order, and a blank query with every type
      keeps the whole list. */
  lemma FilteredOrderAndIdentity(list: seq<ResolvedAlert>, query: string, ft: AlertsPage.TypeFilter)
    ensures Sublist(Filtered(list, query, ft), list)
    ensures Trim(query) == "" && ft.AllTypes? ==> Filtered(list, query, ft) == list
  {
    FilterIsSublist(list, a => Matches(a, query, ft));
    if Trim(query) == "" && ft.AllTypes? {
      FilterAll(list, a => Matches(a, query, ft));
    }
  }
}
