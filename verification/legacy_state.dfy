/** The legacy shared alert state (`/api/alerts/state/patch` in
    backend/server.js): one JSON object per company, mapping an alert id to
    a record. A request carries a list of patches; each patch with a
    non-blank id is spread over the stored record, after which the server
    sets `updatedAt`, `updatedBy`, `takenBy` and `takenAt` itself. Loading
    and saving the object upstream is left out: the model starts from the
    loaded state and ends with the state that would be saved. */
module LegacyState {
  import opened Common

  /** A JSON value as far as the merge looks at it; arrays and nested
      objects are `Composite` (truthy, never inspected). */
  datatype Val = Str(s: string) | Num(n: real) | Bool(b: bool) | Null | Composite

  type Fields = map<string, Val>

  /** What the state holds under an alert id: an object, or something else
      (which the merge treats as the empty object). */
  datatype Stored = Record(fields: Fields) | Scalar(v: Val)

  type State = map<string, Stored>

  /** One element of `patches`: its id after `String(p?.id || "")`, and its
      `patch` when that is an object. */
  datatype PatchItem = PatchItem(id: string, patch: Option<Fields>)

  const UpdatedAt := "updatedAt"
  const UpdatedBy := "updatedBy"
  const TakenBy := "takenBy"
  const TakenAt := "takenAt"
  const Status := "status"
  const InProgress := "in_progress"

  /** The fields the server writes itself. */
  predicate ServerField(k: string)
  {
    k == UpdatedAt || k == UpdatedBy || k == TakenBy || k == TakenAt
  }

  function Get(m: Fields, k: string): Option<Val>
  {
    if k in m then Some(m[k]) else None
  }

  /** JavaScript truthiness; a missing field is `undefined`. */
  predicate Truthy(v: Option<Val>)
  {
    match v
    case None => false
    case Some(Str(s)) => s != ""
    case Some(Num(n)) => n != 0.0
    case Some(Bool(b)) => b
    case Some(Null) => false
    case Some(Composite) => true
  }

  /** `username || null`. */
  function UserVal(username: string): Val
  {
    if username == "" then Null else Str(username)
  }

  /** `patch.status === "in_progress"`. */
  predicate StartsWork(patch: Fields)
  {
    Get(patch, Status) == Some(Str(InProgress))
  }

  /** The record the patch is spread over. */
  function Prev(state: State, aid: string): Fields
  {
    if aid in state && state[aid].Record? then state[aid].fields else map[]
  }

  function PatchOf(p: PatchItem): Fields
  {
    if p.patch.Some? then p.patch.value else map[]
  }

  /** The new record: `{...prev, ...patch}` with the four server fields. A
      truthy `takenBy` or `takenAt` is kept; otherwise it is set only by an
      `in_progress` patch, and is `null` after any other patch. */
  function Merge(prev: Fields, patch: Fields, username: string, now: string): (r: Fields)
    ensures forall k :: !ServerField(k) ==> (k in r <==> k in prev || k in patch)
    ensures forall k :: !ServerField(k) && k in patch ==> r[k] == patch[k]
    ensures forall k :: !ServerField(k) && k in prev && k !in patch ==> r[k] == prev[k]
    ensures Get(r, UpdatedAt) == Some(Str(now))
    ensures Get(r, UpdatedBy) == Some(if username != "" then Str(username)
                                      else if Truthy(Get(prev, UpdatedBy)) then prev[UpdatedBy]
                                      else Null)
    ensures Truthy(Get(prev, TakenBy)) ==> Get(r, TakenBy) == Get(prev, TakenBy)
    ensures Truthy(Get(prev, TakenAt)) ==> Get(r, TakenAt) == Get(prev, TakenAt)
    ensures !Truthy(Get(prev, TakenBy)) ==>
              Get(r, TakenBy) == Some(if StartsWork(patch) then UserVal(username) else Null)
    ensures !Truthy(Get(prev, TakenAt)) ==>
              Get(r, TakenAt) == Some(if StartsWork(patch) then Str(now) else Null)
  {
    var spread := prev + patch;
    var updatedBy := if username != "" then Str(username) else if Truthy(Get(prev, UpdatedBy)) then prev[UpdatedBy] else Null;
    var takenBy := if Truthy(Get(prev, TakenBy)) then prev[TakenBy] else if StartsWork(patch) then UserVal(username) else Null;
    var takenAt := if Truthy(Get(prev, TakenAt)) then prev[TakenAt] else if StartsWork(patch) then Str(now) else Null;
    spread[UpdatedAt := Str(now)][UpdatedBy := updatedBy][TakenBy := takenBy][TakenAt := takenAt]
  }

  /** One patch: a blank id (after trimming) is skipped; otherwise the
      trimmed id gets the merged object and every other id keeps its entry
      or stays absent. */
  function ApplyOne(state: State, p: PatchItem, username: string, now: string): (r: State)
    ensures Trim(p.id) == "" ==> r == state
    ensures Trim(p.id) != "" ==>
              (Trim(p.id) in r && r[Trim(p.id)] == Record(Merge(Prev(state, Trim(p.id)), PatchOf(p), username, now)))
    ensures forall k :: k != Trim(p.id) ==> (k in r <==> k in state)
    ensures forall k :: k != Trim(p.id) && k in state ==> r[k] == state[k]
  {
    var aid := Trim(p.id);
    if aid == "" then state
    else state[aid := Record(Merge(Prev(state, aid), PatchOf(p), username, now))]
  }

  /** The loop over `asArr(patches)`, all with the same `now`. Afterwards the
      state holds exactly the ids it held before plus the non-blank ids the
      patches name, every named id holds an object, and every id no patch
      names keeps its entry. */
  function ApplyAll(state: State, ps: seq<PatchItem>, username: string, now: string): (r: State)
    ensures forall k :: k in r <==> k in state || (k != "" && Targets(ps, k))
    ensures forall k :: k != "" && Targets(ps, k) ==> r[k].Record?
    ensures forall k :: !Targets(ps, k) && k in state ==> r[k] == state[k]
    decreases |ps|
  {
    if |ps| == 0 then state
    else
      var s1 := ApplyOne(state, ps[0], username, now);
      var r := ApplyAll(s1, ps[1..], username, now);
      ApplyAllStep(state, s1, r, ps);
      r
  }

  /** The inductive step of `ApplyAll`, on plain states: `s1` is the state
      after the first patch, `r` the state after the others. */
  lemma ApplyAllStep(state: State, s1: State, r: State, ps: seq<PatchItem>)
    requires |ps| > 0
    requires Trim(ps[0].id) == "" ==> s1 == state
    requires Trim(ps[0].id) != "" ==> Trim(ps[0].id) in s1 && s1[Trim(ps[0].id)].Record?
    requires forall k :: k != Trim(ps[0].id) ==> (k in s1 <==> k in state)
    requires forall k :: k != Trim(ps[0].id) && k in state ==> s1[k] == state[k]
    requires forall k :: k in r <==> k in s1 || (k != "" && Targets(ps[1..], k))
    requires forall k :: k != "" && Targets(ps[1..], k) ==> r[k].Record?
    requires forall k :: !Targets(ps[1..], k) && k in s1 ==> r[k] == s1[k]
    ensures forall k :: k in r <==> k in state || (k != "" && Targets(ps, k))
    ensures forall k :: k != "" && Targets(ps, k) ==> r[k].Record?
    ensures forall k :: !Targets(ps, k) && k in state ==> r[k] == state[k]
  {
    forall k ensures Targets(ps, k) <==> Trim(ps[0].id) == k || Targets(ps[1..], k) {
      TargetsCons(ps, k);
    }
  }

  /** Whether some patch of the list targets `aid`. */
  predicate Targets(ps: seq<PatchItem>, aid: string)
  {
    exists i :: 0 <= i < |ps| && Trim(ps[i].id) == aid
  }

  lemma TargetsCons(ps: seq<PatchItem>, k: string)
    requires |ps| > 0
    ensures Targets(ps, k) <==> Trim(ps[0].id) == k || Targets(ps[1..], k)
  {
    if Targets(ps, k) && Trim(ps[0].id) != k {
      var i :| 0 <= i < |ps| && Trim(ps[i].id) == k;
      assert ps[1..][i - 1] == ps[i];
    }
    if Targets(ps[1..], k) {
      var i :| 0 <= i < |ps[1..]| && Trim(ps[1..][i].id) == k;
      assert ps[i + 1] == ps[1..][i];
    }
  }

  /** A patch whose id is blank changes nothing. */
  lemma BlankIdSkipped(state: State, p: PatchItem, username: string, now: string)
    requires Trim(p.id) == ""
    ensures ApplyOne(state, p, username, now) == state
  {
  }

  /** The claim is first-write-wins: a record whose `takenBy` and `takenAt`
      are truthy keeps both, whatever later patches say (including patches
      that carry their own `takenBy`). */
  lemma {:induction false} ClaimIsFirstWriteWins(state: State, ps: seq<PatchItem>, username: string, now: string, aid: string)
    requires aid in state && state[aid].Record?
    requires Truthy(Get(state[aid].fields, TakenBy)) && Truthy(Get(state[aid].fields, TakenAt))
    ensures var r := ApplyAll(state, ps, username, now);
            aid in r && r[aid].Record?
            && Get(r[aid].fields, TakenBy) == Get(state[aid].fields, TakenBy)
            && Get(r[aid].fields, TakenAt) == Get(state[aid].fields, TakenAt)
    decreases |ps|
  {
    if |ps| > 0 {
      var s1 := ApplyOne(state, ps[0], username, now);
      assert aid in s1 && s1[aid].Record?;
      assert Get(s1[aid].fields, TakenBy) == Get(state[aid].fields, TakenBy);
      assert Get(s1[aid].fields, TakenAt) == Get(state[aid].fields, TakenAt);
      ClaimIsFirstWriteWins(s1, ps[1..], username, now, aid);
    }
  }

  /** The first `in_progress` patch by a named user on an unclaimed record
      claims it for that user at `now`. */
  lemma ClaimedByFirstInProgress(state: State, p: PatchItem, username: string, now: string)
    requires Trim(p.id) != "" && username != "" && now != ""
    requires StartsWork(PatchOf(p))
    requires !Truthy(Get(Prev(state, Trim(p.id)), TakenBy))
    requires !Truthy(Get(Prev(state, Trim(p.id)), TakenAt))
    ensures var r := ApplyOne(state, p, username, now);
            var aid := Trim(p.id);
            aid in r && r[aid].Record?
            && Get(r[aid].fields, TakenBy) == Some(Str(username))
            && Get(r[aid].fields, TakenAt) == Some(Str(now))
            && Truthy(Get(r[aid].fields, TakenBy)) && Truthy(Get(r[aid].fields, TakenAt))
  {
  }

  /** Every patched id ends up as an object stamped with this request's
      time. */
  lemma {:induction false} PatchedIdsStamped(state: State, ps: seq<PatchItem>, username: string, now: string, i: int, aid: string)
    requires 0 <= i < |ps| && Trim(ps[i].id) == aid && aid != ""
    ensures Stamped(ApplyAll(state, ps, username, now), aid, now)
    decreases |ps|
  {
    var s1 := ApplyOne(state, ps[0], username, now);
    var tail := ps[1..];
    if i == 0 {
      StampedByOne(state, ps[0], username, now, aid);
      StampKept(s1, tail, username, now, aid);
    } else {
      assert tail[i - 1] == ps[i];
      PatchedIdsStamped(s1, tail, username, now, i - 1, aid);
    }
    ApplyAllCons(state, ps, username, now);
  }

  lemma ApplyAllCons(state: State, ps: seq<PatchItem>, username: string, now: string)
    requires |ps| > 0
    ensures ApplyAll(state, ps, username, now) == ApplyAll(ApplyOne(state, ps[0], username, now), ps[1..], username, now)
  {
  }

  /** `aid` holds an object stamped with `now`. */
  predicate Stamped(state: State, aid: string, now: string)
  {
    aid in state && state[aid].Record? && Get(state[aid].fields, UpdatedAt) == Some(Str(now))
  }

  /** One patch stamps its own id and keeps every stamp of this request. */
  lemma StampedByOne(state: State, p: PatchItem, username: string, now: string, aid: string)
    requires Trim(p.id) == aid != "" || Stamped(state, aid, now)
    ensures Stamped(ApplyOne(state, p, username, now), aid, now)
  {
    var t := Trim(p.id);
    if t != "" {
      var m := Merge(Prev(state, t), PatchOf(p), username, now);
      assert ApplyOne(state, p, username, now) == state[t := Record(m)];
    }
  }

  lemma {:induction false} StampKept(state: State, ps: seq<PatchItem>, username: string, now: string, aid: string)
    requires Stamped(state, aid, now)
    ensures Stamped(ApplyAll(state, ps, username, now), aid, now)
    decreases |ps|
  {
    if |ps| > 0 {
      StampedByOne(state, ps[0], username, now, aid);
      StampKept(ApplyOne(state, ps[0], username, now), ps[1..], username, now, aid);
    }
  }

  /** Re-sending the same patch within the same request changes nothing
      more: the merge is idempotent. */
  lemma MergeIdempotent(prev: Fields, patch: Fields, username: string, now: string)
    ensures Merge(Merge(prev, patch, username, now), patch, username, now) == Merge(prev, patch, username, now)
  {
    var m1 := Merge(prev, patch, username, now);
    var m2 := Merge(m1, patch, username, now);
    assert forall k :: k in m2 <==> k in m1;
    forall k | k in m2
      ensures m2[k] == m1[k]
    {
      if !ServerField(k) {
        assert k in patch ==> m2[k] == patch[k] == m1[k];
      } else if k == UpdatedBy {
        assert Get(m2, k) == Get(m1, k);
      } else if k == TakenBy {
        assert Get(m2, k) == Get(m1, k);
      } else if k == TakenAt {
        assert Get(m2, k) == Get(m1, k);
      } else {
        assert Get(m2, k) == Get(m1, k);
      }
    }
  }
}
