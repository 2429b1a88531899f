/** The vehicle-alerts report (`POST /api/reports/vehicle-alerts` in
    backend/server.js): per device, the alert labels seen in its events,
    the number of alert occurrences, the geofences it touched, and a final
    state inferred from the events in time order.

    Record fields are seen after the conversions the code applies: text
    fields as strings (`""` when missing or falsy), numeric fields after
    `Number()`, and `serverTime` after `Date.parse` (`None` for an
    unparsable time). `Number()` on a token and the decimal rendering of a
    number are parameters. */
module VehicleAlerts {
  import opened Common
  import Sorting

  /** A notification definition: its id and the three candidate labels. */
  datatype Notification = Notification(id: JsNumber, name: string, alarms: string, notifType: string)

  datatype Geofence = Geofence(id: JsNumber, name: string)

  /** An event: its type, the `alarm` attribute, the `notifications` and
      `notificationId` attributes, the geofence id and the parsed time. */
  datatype Event = Event(
    evType: string,
    alarm: string,
    notifications: string,
    notificationId: string,
    geofenceId: JsNumber,
    serverTime: Option<int>)

  // ---------------------------------------------------------------------
  // Lookup tables
  // ---------------------------------------------------------------------

  /** `attributes.name || attributes.alarms || type || "notif:" + id` */
  function NotifLabel(n: Notification, numText: real -> string): (l: string)
    ensures n.name != "" ==> l == n.name
    ensures n.name == "" && n.alarms != "" ==> l == n.alarms
    ensures n.name == "" && n.alarms == "" && n.notifType != "" ==> l == n.notifType
    ensures n.name == "" && n.alarms == "" && n.notifType == "" && n.id.Finite? ==> l == "notif:" + numText(n.id.v)
  {
    if n.name != "" then n.name
    else if n.alarms != "" then n.alarms
    else if n.notifType != "" then n.notifType
    else "notif:" + (if n.id.Finite? then numText(n.id.v) else "NaN")
  }

  /** The notification map: finite ids only, a later definition replacing
      an earlier one. */
  function NotifMap(ns: seq<Notification>, numText: real -> string): (m: map<real, string>)
    ensures forall i :: 0 <= i < |ns| && ns[i].id.Finite? ==> ns[i].id.v in m
    ensures forall k :: k in m ==> exists i :: 0 <= i < |ns| && ns[i].id == Finite(k) && m[k] == NotifLabel(ns[i], numText)
  {
    if |ns| == 0 then map[]
    else
      var init := ns[..|ns| - 1];
      var m := NotifMap(init, numText);
      var n := ns[|ns| - 1];
      assert forall i :: 0 <= i < |init| ==> init[i] == ns[i];
      if n.id.Finite? then m[n.id.v := NotifLabel(n, numText)] else m
  }

  /** The map holds exactly the finite ids of the definitions. */
  lemma {:induction false} NotifMapKeys(ns: seq<Notification>, numText: real -> string, k: real)
    ensures k in NotifMap(ns, numText) <==> exists i :: 0 <= i < |ns| && ns[i].id == Finite(k)
    decreases |ns|
  {
    if |ns| > 0 {
      var init := ns[..|ns| - 1];
      NotifMapKeys(init, numText, k);
      if exists i :: 0 <= i < |init| && init[i].id == Finite(k) {
        var i :| 0 <= i < |init| && init[i].id == Finite(k);
        assert ns[i] == init[i];
      }
      if exists i :: 0 <= i < |ns| && ns[i].id == Finite(k) {
        var i :| 0 <= i < |ns| && ns[i].id == Finite(k);
        if i < |init| {
          assert init[i] == ns[i];
        }
      }
    }
  }

  /** The label the map holds for an id is that of the id's last
      definition. */
  lemma {:induction false} NotifMapLastWins(ns: seq<Notification>, numText: real -> string, i: int)
    requires 0 <= i < |ns| && ns[i].id.Finite?
    requires forall j :: i < j < |ns| ==> ns[j].id != ns[i].id
    ensures ns[i].id.v in NotifMap(ns, numText)
    ensures NotifMap(ns, numText)[ns[i].id.v] == NotifLabel(ns[i], numText)
    decreases |ns|
  {
    if i < |ns| - 1 {
      NotifMapLastWins(ns[..|ns| - 1], numText, i);
    }
  }

  function GeofenceName(g: Geofence, numText: real -> string): string
  {
    if g.name != "" then g.name else "geofence:" + (if g.id.Finite? then numText(g.id.v) else "NaN")
  }

  /** The geofence map: finite ids only, a later definition replacing an
      earlier one. */
  function GeofenceMap(gs: seq<Geofence>, numText: real -> string): (m: map<real, string>)
    ensures forall i :: 0 <= i < |gs| && gs[i].id.Finite? ==> gs[i].id.v in m
    ensures forall k :: k in m ==> exists i :: 0 <= i < |gs| && gs[i].id == Finite(k) && m[k] == GeofenceName(gs[i], numText)
  {
    if |gs| == 0 then map[]
    else
      var init := gs[..|gs| - 1];
      var m := GeofenceMap(init, numText);
      var g := gs[|gs| - 1];
      assert forall i :: 0 <= i < |init| ==> init[i] == gs[i];
      if g.id.Finite? then m[g.id.v := GeofenceName(g, numText)] else m
  }

  /** The name the geofence map holds for an id is that of the id's last
      definition. */
  lemma {:induction false} GeofenceMapLastWins(gs: seq<Geofence>, numText: real -> string, i: int)
    requires 0 <= i < |gs| && gs[i].id.Finite?
    requires forall j :: i < j < |gs| ==> gs[j].id != gs[i].id
    ensures gs[i].id.v in GeofenceMap(gs, numText)
    ensures GeofenceMap(gs, numText)[gs[i].id.v] == GeofenceName(gs[i], numText)
    decreases |gs|
  {
    if i < |gs| - 1 {
      GeofenceMapLastWins(gs[..|gs| - 1], numText, i);
    }
  }

  // ---------------------------------------------------------------------
  // parseNotifIds
  // ---------------------------------------------------------------------

  /** A character of the class `[,\s]`. */
  predicate IsSep(c: char)
  {
    c == ',' || IsSpace(c)
  }

  /** The length of the leading run of non-separators. */
  function TokenLen(s: string): (n: nat)
    ensures n <= |s|
    ensures n < |s| ==> IsSep(s[n])
  {
    if |s| == 0 || IsSep(s[0]) then 0 else 1 + TokenLen(s[1..])
  }

  /** The leading run `TokenLen` measures holds no separator. */
  lemma {:induction false} TokenLenNoSeps(s: string)
    ensures forall i :: 0 <= i < TokenLen(s) ==> !IsSep(s[i])
    decreases |s|
  {
    if |s| > 0 && !IsSep(s[0]) {
      TokenLenNoSeps(s[1..]);
      assert forall i :: 1 <= i < TokenLen(s) ==> s[i] == s[1..][i - 1];
    }
  }

  /** Drops the run of separators at the front. */
  function SkipSeps(s: string): (r: string)
    ensures |r| <= |s|
    ensures |r| > 0 ==> !IsSep(r[0])
  {
    if |s| > 0 && IsSep(s[0]) then SkipSeps(s[1..]) else s
  }

  /** Everything `SkipSeps` drops is a separator. */
  lemma {:induction false} SkipSepsDropsSeps(s: string)
    ensures forall i :: 0 <= i < |s| - |SkipSeps(s)| ==> IsSep(s[i])
    decreases |s|
  {
    if |s| > 0 && IsSep(s[0]) {
      SkipSepsDropsSeps(s[1..]);
      assert forall i :: 1 <= i < |s| - |SkipSeps(s)| ==> s[i] == s[1..][i - 1];
    }
  }

  /** What `SkipSeps` leaves is a suffix of its input. */
  lemma {:induction false} SkipSepsIsSuffix(s: string)
    ensures SkipSeps(s) == s[|s| - |SkipSeps(s)|..]
    decreases |s|
  {
    if |s| > 0 && IsSep(s[0]) {
      SkipSepsIsSuffix(s[1..]);
      SuffixOfSuffix(s, 1, SkipSeps(s[1..]));
    }
  }

  /** `s.split(/[,\s]+/)`: the pieces between maximal runs of separators;
      a leading or trailing run yields an empty piece. */
  function Split(s: string): (r: seq<string>)
    ensures |r| > 0
    ensures forall t, i :: t in r && 0 <= i < |t| ==> !IsSep(t[i])
    decreases |s|
  {
    var n := TokenLen(s);
    TokenLenNoSeps(s);
    if n == |s| then [s]
    else [s[..n]] + Split(SkipSeps(s[n + 1..]))
  }

  /** A non-empty run of separators. */
  predicate IsSepRun(r: string)
  {
    |r| > 0 && forall i :: 0 <= i < |r| ==> IsSep(r[i])
  }

  /** `p0 + r0 + p1 + r1 + … + pk`. */
  function Interleave(ps: seq<string>, rs: seq<string>): string
    requires |ps| == |rs| + 1
    decreases |rs|
  {
    if |rs| == 0 then ps[0] else ps[0] + rs[0] + Interleave(ps[1..], rs[1..])
  }

  /** The separator runs the split cuts at, in order. The split cuts the
      input exactly there: the pieces, which hold no separator,
      interleaved with these non-empty runs of separators give back the
      input. */
  function SepRuns(s: string): (rs: seq<string>)
    ensures |rs| == |Split(s)| - 1
    ensures forall k :: 0 <= k < |rs| ==> IsSepRun(rs[k])
    ensures s == Interleave(Split(s), rs)
    decreases |s|
  {
    var n := TokenLen(s);
    if n == |s| then
      SepRunsWhole(s);
      []
    else
      var tail := SkipSeps(s[n + 1..]);
      var rest := SepRuns(tail);
      CutAfterPiece(s, n, tail);
      SepRunsCons(s, n, |s| - |tail|, Split(tail), rest, Split(s));
      [s[n..|s| - |tail|]] + rest
  }

  /** No separator: one piece and no run. */
  lemma SepRunsWhole(s: string)
    requires TokenLen(s) == |s|
    ensures Split(s) == [s] && s == Interleave([s], [])
  {
    assert s[..TokenLen(s)] == s;
  }

  /** Where the split cuts after its first piece: the separator run that
      follows the piece, and the suffix the rest of the split works on. */
  lemma CutAfterPiece(s: string, n: nat, tail: string)
    requires n == TokenLen(s) && n < |s| && tail == SkipSeps(s[n + 1..])
    ensures n <= |s| - |tail|
    ensures IsSepRun(s[n..|s| - |tail|])
    ensures tail == s[|s| - |tail|..]
    ensures Split(s) == [s[..n]] + Split(tail)
  {
    SepRunAt(s, n, tail);
    SplitStep(s);
    SkipSepsSuffix(s, n);
  }

  /** A separator and the run `SkipSeps` drops after it form one run. */
  lemma SepRunAt(s: string, n: nat, t: string)
    requires n < |s| && IsSep(s[n]) && t == SkipSeps(s[n + 1..])
    ensures |t| <= |s| - n - 1
    ensures IsSepRun(s[n..|s| - |t|])
  {
    var x := s[n + 1..];
    var run := s[n..|s| - |t|];
    SkipSepsDropsSeps(x);
    forall i | 0 <= i < |run| ensures IsSep(run[i]) {
      if i > 0 {
        assert run[i] == x[i - 1];
      }
    }
  }

  /** A piece and a separator run in front of a decomposition of the rest
      give a decomposition of the whole. */
  lemma SepRunsCons(s: string, a: nat, b: nat, ps: seq<string>, rs: seq<string>, whole: seq<string>)
    requires a <= b <= |s| && |rs| == |ps| - 1
    requires IsSepRun(s[a..b]) && forall k :: 0 <= k < |rs| ==> IsSepRun(rs[k])
    requires Interleave(ps, rs) == s[b..]
    requires whole == [s[..a]] + ps
    ensures |[s[a..b]] + rs| == |whole| - 1
    ensures forall k :: 0 <= k < |[s[a..b]] + rs| ==> IsSepRun(([s[a..b]] + rs)[k])
    ensures s == Interleave(whole, [s[a..b]] + rs)
  {
    InterleaveStep(s, a, b, ps, rs);
    forall k | 0 <= k < |[s[a..b]] + rs| ensures IsSepRun(([s[a..b]] + rs)[k]) {
      if k > 0 {
        assert ([s[a..b]] + rs)[k] == rs[k - 1];
      }
    }
  }

  /** A cut of `s` at `a` and `b` in front of a decomposition of `s[b..]`
      is a decomposition of `s`. */
  lemma InterleaveStep(s: string, a: nat, b: nat, ps: seq<string>, rs: seq<string>)
    requires a <= b <= |s| && |ps| == |rs| + 1
    requires Interleave(ps, rs) == s[b..]
    ensures Interleave([s[..a]] + ps, [s[a..b]] + rs) == s
  {
    InterleaveCons(s[..a], ps, s[a..b], rs);
    ThreeCut(s, a, b);
  }

  lemma InterleaveCons(p: string, ps: seq<string>, r: string, rs: seq<string>)
    requires |ps| == |rs| + 1
    ensures Interleave([p] + ps, [r] + rs) == p + r + Interleave(ps, rs)
  {
    assert ([p] + ps)[1..] == ps;
    assert ([r] + rs)[1..] == rs;
  }

  lemma ThreeCut(s: string, a: nat, b: nat)
    requires a <= b <= |s|
    ensures s == s[..a] + s[a..b] + s[b..]
  {
  }

  /** What `SkipSeps` leaves after position `n` is a suffix of `s`. */
  lemma SkipSepsSuffix(s: string, n: nat)
    requires n < |s|
    ensures SkipSeps(s[n + 1..]) == s[|s| - |SkipSeps(s[n + 1..])|..]
  {
    var x := s[n + 1..];
    var t := SkipSeps(x);
    SkipSepsIsSuffix(x);
    SuffixOfSuffix(s, n + 1, t);
  }

  lemma SuffixOfSuffix<T>(s: seq<T>, k: nat, t: seq<T>)
    requires k <= |s| && |t| <= |s| - k && t == s[k..][|s| - k - |t|..]
    ensures t == s[|s| - |t|..]
  {
    assert s[k..][|s| - k - |t|..] == s[|s| - |t|..];
  }

  function Concat(ts: seq<string>): string
  {
    if |ts| == 0 then "" else ts[0] + Concat(ts[1..])
  }

  function NonSeps(s: string): string
  {
    if |s| == 0 then "" else (if IsSep(s[0]) then "" else [s[0]]) + NonSeps(s[1..])
  }

  lemma {:induction false} NonSepsConcat(a: string, b: string)
    ensures NonSeps(a + b) == NonSeps(a) + NonSeps(b)
    decreases |a|
  {
    if |a| == 0 {
      assert a + b == b;
    } else {
      assert (a + b)[1..] == a[1..] + b;
      NonSepsConcat(a[1..], b);
    }
  }

  lemma {:induction false} NonSepsOfToken(s: string)
    requires forall i :: 0 <= i < |s| ==> !IsSep(s[i])
    ensures NonSeps(s) == s
    decreases |s|
  {
    if |s| > 0 {
      NonSepsOfToken(s[1..]);
    }
  }

  lemma {:induction false} NonSepsOfSeps(s: string)
    requires forall i :: 0 <= i < |s| ==> IsSep(s[i])
    ensures NonSeps(s) == ""
    decreases |s|
  {
    if |s| > 0 {
      NonSepsOfSeps(s[1..]);
    }
  }

  lemma {:induction false} NonSepsSkip(x: string)
    ensures NonSeps(SkipSeps(x)) == NonSeps(x)
    decreases |x|
  {
    if |x| > 0 && IsSep(x[0]) {
      NonSepsSkip(x[1..]);
    }
  }

  lemma {:induction false} NonSepsPrefix(s: string, n: nat)
    requires n <= |s|
    requires forall i :: 0 <= i < n ==> !IsSep(s[i])
    ensures NonSeps(s) == s[..n] + NonSeps(s[n..])
    decreases n
  {
    if n > 0 {
      NonSepsPrefix(s[1..], n - 1);
      assert s[1..][n - 1..] == s[n..];
      assert s[..n] == [s[0]] + s[1..][..n - 1];
    }
  }

  /** Splitting loses only the separators: the pieces put back together are
      the input without its separator characters. */
  lemma {:induction false} SplitKeepsContent(s: string)
    ensures Concat(Split(s)) == NonSeps(s)
    decreases |s|
  {
    var n := TokenLen(s);
    TokenLenNoSeps(s);
    NonSepsPrefix(s, n);
    if n == |s| {
      assert s[..n] == s;
      assert s[n..] == "";
      assert Concat([s]) == s + Concat([]);
    } else {
      var tail := SkipSeps(s[n + 1..]);
      SplitKeepsContent(tail);
      NonSepsSkip(s[n + 1..]);
      assert s[n..][1..] == s[n + 1..];
      assert NonSeps(s[n..]) == NonSeps(s[n + 1..]);
      var r := Split(s);
      assert r == [s[..n]] + Split(tail);
      assert r[1..] == Split(tail);
    }
  }

  /** `Number()` on a token is a parameter of the model; `Number("")` is 0. */
  predicate NumberOfEmptyIsZero(num: string -> JsNumber)
  {
    num("") == Finite(0.0)
  }

  predicate IsFiniteNumber(x: JsNumber)
  {
    x.Finite?
  }

  /** `.filter(Number.isFinite)`: the values of the finite numbers, in
      order. */
  function FiniteParts(xs: seq<JsNumber>): (r: seq<real>)
    ensures |r| == |Filter(xs, IsFiniteNumber)|
    ensures forall i :: 0 <= i < |r| ==> Filter(xs, IsFiniteNumber)[i] == Finite(r[i])
  {
    if |xs| == 0 then []
    else
      var rest := FiniteParts(xs[1..]);
      var f := Filter(xs, IsFiniteNumber);
      assert f == (if xs[0].Finite? then [xs[0]] else []) + Filter(xs[1..], IsFiniteNumber);
      (if xs[0].Finite? then [xs[0].v] else []) + rest
  }

  function NumberAll(toks: seq<string>, num: string -> JsNumber): (xs: seq<JsNumber>)
    ensures |xs| == |toks| && forall i :: 0 <= i < |toks| ==> xs[i] == num(toks[i])
  {
    if |toks| == 0 then [] else [num(toks[0])] + NumberAll(toks[1..], num)
  }

  /** The pieces whose `Number()` is finite. */
  function NumFinite(num: string -> JsNumber): string -> bool
  {
    t => num(t).Finite?
  }

  /** `v ? String(v).split(/[,\s]+/).map(Number).filter(Number.isFinite) : []`:
      the values of the pieces whose number is finite, in order. */
  function ParseNotifIds(v: string, num: string -> JsNumber): (ids: seq<real>)
    ensures v == "" ==> ids == []
    ensures v != "" ==> |ids| == |Filter(Split(v), NumFinite(num))|
    ensures v != "" ==> forall i :: 0 <= i < |ids| ==> num(Filter(Split(v), NumFinite(num))[i]) == Finite(ids[i])
  {
    if v == "" then []
    else
      NumberedFinite(Split(v), num);
      FiniteParts(NumberAll(Split(v), num))
  }

  lemma {:induction false} NumberedFinite(toks: seq<string>, num: string -> JsNumber)
    ensures var r := FiniteParts(NumberAll(toks, num));
            var f := Filter(toks, NumFinite(num));
            |r| == |f| && forall i :: 0 <= i < |r| ==> num(f[i]) == Finite(r[i])
    decreases |toks|
  {
    if |toks| > 0 {
      NumberedFinite(toks[1..], num);
      NumberAllCons(toks, num);
      var xs := NumberAll(toks, num);
      var rest := FiniteParts(NumberAll(toks[1..], num));
      var r := FiniteParts(xs);
      var f' := Filter(toks[1..], NumFinite(num));
      var f := Filter(toks, NumFinite(num));
      var fin := num(toks[0]).Finite?;
      assert r == (if fin then [num(toks[0]).v] else []) + rest;
      assert f == (if fin then [toks[0]] else []) + f';
      NumberedCons(num, toks[0], fin, rest, f');
    }
  }

  /** Putting a piece in front of both lists keeps them paired. */
  lemma NumberedCons(num: string -> JsNumber, t: string, fin: bool, rest: seq<real>, f: seq<string>)
    requires fin == num(t).Finite?
    requires |rest| == |f| && forall i :: 0 <= i < |rest| ==> num(f[i]) == Finite(rest[i])
    ensures var r := (if fin then [num(t).v] else []) + rest;
            var g := (if fin then [t] else []) + f;
            |r| == |g| && forall i :: 0 <= i < |r| ==> num(g[i]) == Finite(r[i])
  {
    var r := (if fin then [num(t).v] else []) + rest;
    var g := (if fin then [t] else []) + f;
    forall i | 0 <= i < |r| ensures num(g[i]) == Finite(r[i]) {
      if fin {
        if i > 0 {
          assert r[i] == rest[i - 1] && g[i] == f[i - 1];
        }
      } else {
        assert r[i] == rest[i] && g[i] == f[i];
      }
    }
  }

  lemma NumberAllCons(toks: seq<string>, num: string -> JsNumber)
    requires |toks| > 0
    ensures NumberAll(toks, num)[0] == num(toks[0])
    ensures NumberAll(toks, num)[1..] == NumberAll(toks[1..], num)
  {
  }

  lemma {:induction false} TokenLenOfToken(t: string, rest: string)
    requires forall i :: 0 <= i < |t| ==> !IsSep(t[i])
    requires |rest| > 0 && IsSep(rest[0])
    ensures TokenLen(t + rest) == |t|
    decreases |t|
  {
    if |t| > 0 {
      assert (t + rest)[1..] == t[1..] + rest;
      TokenLenOfToken(t[1..], rest);
    } else {
      assert t + rest == rest;
    }
  }

  /** A piece followed by one comma splits into the piece and an empty
      piece, and the empty piece becomes notification id 0: `"5,"` gives
      `[5, 0]`. */
  lemma TrailingSeparatorGivesZero(t: string, num: string -> JsNumber)
    requires NumberOfEmptyIsZero(num)
    requires |t| > 0 && forall i :: 0 <= i < |t| ==> !IsSep(t[i])
    requires num(t).Finite?
    ensures Split(t + ",") == [t, ""]
    ensures ParseNotifIds(t + ",", num) == [num(t).v, 0.0]
  {
    SplitTrailing(t);
    NumberPair(t, "", num);
  }

  lemma SplitTrailing(t: string)
    requires forall i :: 0 <= i < |t| ==> !IsSep(t[i])
    ensures Split(t + ",") == [t, ""]
  {
    var s := t + ",";
    TokenLenOfToken(t, ",");
    SplitStep(s);
    assert s[..|t|] == t;
    assert s[|t| + 1..] == "";
    SplitNothing();
    assert Split(s) == [t] + [""];
    PairConcat(t, "");
  }

  lemma PairConcat(a: string, b: string)
    ensures [a] + [b] == [a, b]
  {
  }

  lemma SplitStep(s: string)
    requires TokenLen(s) < |s|
    ensures Split(s) == [s[..TokenLen(s)]] + Split(SkipSeps(s[TokenLen(s) + 1..]))
  {
  }

  lemma SplitNothing()
    ensures Split(SkipSeps("")) == [""]
  {
    assert SkipSeps("") == "";
  }

  lemma NumberPair(a: string, b: string, num: string -> JsNumber)
    requires num(a).Finite? && num(b).Finite?
    ensures FiniteParts(NumberAll([a, b], num)) == [num(a).v, num(b).v]
  {
    var xs := NumberAll([a, b], num);
    assert xs == [num(a), num(b)];
    assert xs[1..][1..] == [];
    assert FiniteParts(xs[1..]) == [num(b).v];
  }

  // ---------------------------------------------------------------------
  // State inference
  // ---------------------------------------------------------------------

  datatype VState = EnService | Arret | Idle | HorsService

  /** The ids an event refers to: `notifications || notificationId`. */
  function EventIds(ev: Event, num: string -> JsNumber): seq<real>
  {
    ParseNotifIds(if ev.notifications != "" then ev.notifications else ev.notificationId, num)
  }

  /** The words that mean the engine is stopped. */
  predicate StopWord(lbl: string)
  {
    Contains(lbl, "engineoff") || Contains(lbl, "engine off") || Contains(lbl, "arrêt") || Contains(lbl, "arret")
  }

  /** What a notification label says about the state, if anything: `idle`
      wins over the stop words. */
  function LabelState(lbl: string): (r: Option<VState>)
    ensures r == Some(Idle) <==> Contains(lbl, "idle")
    ensures r == Some(Arret) <==> !Contains(lbl, "idle") && StopWord(lbl)
    ensures r == None <==> !Contains(lbl, "idle") && !StopWord(lbl)
  {
    if Contains(lbl, "idle") then Some(Idle)
    else if StopWord(lbl) then Some(Arret)
    else None
  }

  /** `(notifMap.get(id) || "").toLowerCase()` */
  function LabelOf(m: map<real, string>, id: real): string
  {
    Lower(if id in m then m[id] else "")
  }

  /** The label of `id` says something about the state. */
  predicate Decides(m: map<real, string>, id: real)
  {
    LabelState(LabelOf(m, id)).Some?
  }

  /** `ids[i]` is the first id whose label decides. */
  predicate FirstDecider(ids: seq<real>, m: map<real, string>, i: int)
  {
    0 <= i < |ids| && Decides(m, ids[i]) && forall j :: 0 <= j < i ==> !Decides(m, ids[j])
  }

  /** The loop over the ids: the first id whose label decides gives the
      state; with no such id there is none. */
  function IdsState(ids: seq<real>, m: map<real, string>): (r: Option<VState>)
    ensures r.None? <==> forall i :: 0 <= i < |ids| ==> !Decides(m, ids[i])
    ensures forall i :: FirstDecider(ids, m, i) ==> r == LabelState(LabelOf(m, ids[i]))
  {
    if |ids| == 0 then None
    else
      var st := LabelState(LabelOf(m, ids[0]));
      if st.Some? then st
      else
        var r := IdsState(ids[1..], m);
        assert forall i :: 1 <= i < |ids| ==> ids[i] == ids[1..][i - 1];
        assert forall i :: FirstDecider(ids, m, i) ==> i > 0 && FirstDecider(ids[1..], m, i - 1);
        r
  }

  /** The event's own type decides: ignition on or off, or an idle alarm. */
  predicate TypeDecides(ev: Event)
  {
    var t := Lower(ev.evType);
    t == "ignitionon" || t == "ignitionoff" || (t == "alarm" && Contains(Lower(ev.alarm), "idle"))
  }

  /** `inferStateFromEvent`: the event's type first; otherwise the label of
      the first notification id that decides; otherwise none. */
  function InferState(ev: Event, m: map<real, string>, num: string -> JsNumber): (r: Option<VState>)
    ensures Lower(ev.evType) == "ignitionon" ==> r == Some(EnService)
    ensures Lower(ev.evType) == "ignitionoff" ==> r == Some(Arret)
    ensures Lower(ev.evType) == "alarm" && Contains(Lower(ev.alarm), "idle") ==> r == Some(Idle)
    ensures !TypeDecides(ev) ==>
              (r.None? <==> forall i :: 0 <= i < |EventIds(ev, num)| ==> !Decides(m, EventIds(ev, num)[i]))
    ensures !TypeDecides(ev) ==>
              forall i :: FirstDecider(EventIds(ev, num), m, i) ==> r == LabelState(LabelOf(m, EventIds(ev, num)[i]))
    ensures r != Some(HorsService)
  {
    var t := Lower(ev.evType);
    if t == "ignitionon" then Some(EnService)
    else if t == "ignitionoff" then Some(Arret)
    else if t == "alarm" && Contains(Lower(ev.alarm), "idle") then Some(Idle)
    else IdsStateNotHors(EventIds(ev, num), m); IdsState(EventIds(ev, num), m)
  }

  lemma {:induction false} IdsStateNotHors(ids: seq<real>, m: map<real, string>)
    ensures IdsState(ids, m) != Some(HorsService) && IdsState(ids, m) != Some(EnService)
    decreases |ids|
  {
    if |ids| > 0 {
      IdsStateNotHors(ids[1..], m);
    }
  }

  /** `Date.parse(serverTime) || 0` */
  function Ts(ev: Event): int
  {
    if ev.serverTime.Some? then ev.serverTime.value else 0
  }

  function TimeKey(ev: Event): real { Ts(ev) as real }

  /** What the loop sees of an event: its inferred state and its time. */
  type Obs = (Option<VState>, int)

  function Observe(evs: seq<Event>, m: map<real, string>, num: string -> JsNumber): (o: seq<Obs>)
    ensures |o| == |evs|
    ensures forall i :: 0 <= i < |evs| ==> o[i] == (InferState(evs[i], m, num), Ts(evs[i]))
  {
    seq(|evs|, i requires 0 <= i < |evs| => (InferState(evs[i], m, num), Ts(evs[i])))
  }

  /** The loop's state update: an inferred state is taken when its time is
      not earlier than the last one taken (which starts at 0). */
  function Track(obs: seq<Obs>): (r: (Option<VState>, int))
    ensures r == (None, 0) || (r in obs && Decisive(r))
  {
    if |obs| == 0 then (None, 0)
    else
      var (st, lastTs) := Track(obs[..|obs| - 1]);
      var o := obs[|obs| - 1];
      if o.0.Some? && o.1 >= lastTs then o else (st, lastTs)
  }

  predicate TimeOrdered(obs: seq<Obs>)
  {
    forall i, j :: 0 <= i < j < |obs| ==> obs[i].1 <= obs[j].1
  }

  /** An observation with a state and a time not before 1970. */
  predicate Decisive(o: Obs)
  {
    o.0.Some? && o.1 >= 0
  }

  /** Observation `i` is the last decisive one. */
  predicate LastDecisive(obs: seq<Obs>, i: int)
  {
    0 <= i < |obs| && Decisive(obs[i]) && forall j :: i < j < |obs| ==> !Decisive(obs[j])
  }

  /** An observation that is not decisive leaves the tracked state alone. */
  lemma TrackSkipsLast(obs: seq<Obs>)
    requires |obs| > 0 && !Decisive(obs[|obs| - 1])
    ensures Track(obs) == Track(obs[..|obs| - 1])
  {
  }

  /** In time order, a decisive last observation is always taken. */
  lemma TrackTakesLast(obs: seq<Obs>)
    requires TimeOrdered(obs)
    requires |obs| > 0 && Decisive(obs[|obs| - 1])
    ensures Track(obs) == obs[|obs| - 1]
  {
    var init := obs[..|obs| - 1];
    var t := Track(init);
    if t != (None, 0) {
      assert t in init;
      var k :| 0 <= k < |init| && init[k] == t;
      assert obs[k] == t;
    }
  }

  /** The last decisive observation of a sequence whose final element is not
      decisive is the last decisive observation of the rest. */
  lemma LastDecisiveInit(obs: seq<Obs>, i: int)
    requires |obs| > 0 && LastDecisive(obs, i) && i < |obs| - 1
    ensures LastDecisive(obs[..|obs| - 1], i)
  {
    var init := obs[..|obs| - 1];
    forall j | i < j < |init| ensures !Decisive(init[j]) {
      assert init[j] == obs[j];
    }
  }

  /** In time order, the tracked state is that of the last decisive
      observation, and none when there is no decisive observation. */
  lemma {:induction false} TrackIsLastDecisive(obs: seq<Obs>)
    requires TimeOrdered(obs)
    ensures (forall i :: 0 <= i < |obs| ==> !Decisive(obs[i])) ==> Track(obs) == (None, 0)
    ensures forall i :: LastDecisive(obs, i) ==> Track(obs) == obs[i]
    decreases |obs|
  {
    if |obs| > 0 {
      var last := |obs| - 1;
      var init := obs[..last];
      assert TimeOrdered(init) by {
        forall i, j | 0 <= i < j < |init| ensures init[i].1 <= init[j].1 {
          assert init[i] == obs[i] && init[j] == obs[j];
        }
      }
      TrackIsLastDecisive(init);
      if Decisive(obs[last]) {
        TrackTakesLast(obs);
      } else {
        TrackSkipsLast(obs);
        forall i | LastDecisive(obs, i) ensures Track(obs) == obs[i] {
          LastDecisiveInit(obs, i);
          assert init[i] == obs[i];
        }
        if forall i :: 0 <= i < |obs| ==> !Decisive(obs[i]) {
          forall i | 0 <= i < |init| ensures !Decisive(init[i]) {
            assert init[i] == obs[i];
          }
        }
      }
    }
  }

  lemma {:induction false} LastDecisiveExists(obs: seq<Obs>)
    requires exists i :: 0 <= i < |obs| && Decisive(obs[i])
    ensures exists i :: LastDecisive(obs, i)
    decreases |obs|
  {
    var last := |obs| - 1;
    if !Decisive(obs[last]) {
      var init := obs[..last];
      var i0 :| 0 <= i0 < |obs| && Decisive(obs[i0]);
      assert init[i0] == obs[i0];
      LastDecisiveExists(init);
      var i :| LastDecisive(init, i);
      forall j | i < j < |obs| ensures !Decisive(obs[j]) {
        if j < last { assert init[j] == obs[j]; }
      }
      assert LastDecisive(obs, i);
    } else {
      assert LastDecisive(obs, last);
    }
  }

  /** The `state` key a row carries. */
  function StateKey(s: VState): string
  {
    match s
    case EnService => "en_service"
    case Arret => "arret"
    case Idle => "idle"
    case HorsService => "hors_service"
  }

  /** `stateLabel` */
  function StateLabel(s: VState): string
  {
    match s
    case EnService => "En service"
    case Arret => "Arrêt"
    case Idle => "Idle"
    case HorsService => "Hors service"
  }

  /** Distinct states get distinct labels. */
  lemma StateLabelInjective(a: VState, b: VState)
    ensures StateLabel(a) == StateLabel(b) <==> a == b
  {
  }

  // ---------------------------------------------------------------------
  // One row
  // ---------------------------------------------------------------------

  /** The occurrences one event adds: 1 for a typed non-alarm event; for an
      alarm, the number of notification ids it carries, at least 1. */
  function Occurrences(ev: Event, num: string -> JsNumber): nat
  {
    (if ev.evType != "" && ev.evType != "alarm" then 1 else 0)
    + (if ev.evType == "alarm" then (var n := |EventIds(ev, num)|; if n > 0 then n else 1) else 0)
  }

  /** The row's `alertCount`: every typed event adds at least one, an
      untyped one adds none. */
  function TotalOccurrences(evs: seq<Event>, num: string -> JsNumber): (n: nat)
    ensures n == 0 <==> forall i :: 0 <= i < |evs| ==> evs[i].evType == ""
  {
    if |evs| == 0 then 0
    else
      var init := evs[..|evs| - 1];
      OccurrencesOfOne(evs[|evs| - 1], num);
      assert forall i :: 0 <= i < |init| ==> init[i] == evs[i];
      TotalOccurrences(init, num) + Occurrences(evs[|evs| - 1], num)
  }

  /** `notifMap.get(nid) || \`notif:${nid}\``: a missing or empty label
      falls back to the id. */
  function NotifName(m: map<real, string>, id: real, numText: real -> string): string
  {
    if id in m && m[id] != "" then m[id] else "notif:" + numText(id)
  }

  /** `geofenceMap.get(gid) || \`geofence:${gid}\`` */
  function GeoName(g: map<real, string>, id: real, numText: real -> string): string
  {
    if id in g && g[id] != "" then g[id] else "geofence:" + numText(id)
  }

  /** The labels one event contributes to the alert set. */
  function EventAlerts(ev: Event, m: map<real, string>, num: string -> JsNumber, numText: real -> string): set<string>
  {
    var ids := EventIds(ev, num);
    (if ev.evType != "" && ev.evType != "alarm" then {ev.evType} else {})
    + (if ev.evType == "alarm" && ev.alarm != "" then {ev.alarm} else {})
    + set i | 0 <= i < |ids| :: NotifName(m, ids[i], numText)
  }

  /** The geofence one event contributes: its name when its id is finite
      and positive. */
  function EventGeofences(ev: Event, g: map<real, string>, numText: real -> string): set<string>
  {
    if ev.geofenceId.Finite? && ev.geofenceId.v > 0.0 then {GeoName(g, ev.geofenceId.v, numText)} else {}
  }

  /** A `Set` filled by `add` over the events in order. */
  function UnionOf(evs: seq<Event>, f: Event -> set<string>): set<string>
  {
    if |evs| == 0 then {} else UnionOf(evs[..|evs| - 1], f) + f(evs[|evs| - 1])
  }

  /** A value is in the set exactly when some event contributed it. */
  lemma {:induction false} UnionOfIff(evs: seq<Event>, f: Event -> set<string>, x: string)
    ensures x in UnionOf(evs, f) <==> exists i :: 0 <= i < |evs| && x in f(evs[i])
    decreases |evs|
  {
    if |evs| > 0 {
      var init := evs[..|evs| - 1];
      UnionOfIff(init, f, x);
      if exists i :: 0 <= i < |init| && x in f(init[i]) {
        var i :| 0 <= i < |init| && x in f(init[i]);
        assert evs[i] == init[i];
      }
      if exists i :: 0 <= i < |evs| && x in f(evs[i]) {
        var i :| 0 <= i < |evs| && x in f(evs[i]);
        if i < |init| {
          assert init[i] == evs[i];
        }
      }
    }
  }

  function AlertSet(evs: seq<Event>, m: map<real, string>, num: string -> JsNumber, numText: real -> string): set<string>
  {
    UnionOf(evs, ev => EventAlerts(ev, m, num, numText))
  }

  function GeoSet(evs: seq<Event>, g: map<real, string>, numText: real -> string): set<string>
  {
    UnionOf(evs, ev => EventGeofences(ev, g, numText))
  }

  /** A label is among a device's alerts exactly when some event is typed
      with it (other than `alarm`), is an alarm naming it, or carries a
      notification id whose label or fallback it is. */
  lemma AlertSetIff(evs: seq<Event>, m: map<real, string>, num: string -> JsNumber, numText: real -> string, a: string)
    ensures a in AlertSet(evs, m, num, numText) <==>
              exists i :: 0 <= i < |evs| &&
                ((evs[i].evType != "" && evs[i].evType != "alarm" && a == evs[i].evType)
                 || (evs[i].evType == "alarm" && evs[i].alarm != "" && a == evs[i].alarm)
                 || exists j :: 0 <= j < |EventIds(evs[i], num)| && a == NotifName(m, EventIds(evs[i], num)[j], numText))
  {
    UnionOfIff(evs, ev => EventAlerts(ev, m, num, numText), a);
    forall i | 0 <= i < |evs|
      ensures a in EventAlerts(evs[i], m, num, numText) <==> RaisesAlert(evs[i], m, num, numText, a)
    {
      EventAlertsIff(evs[i], m, num, numText, a);
    }
  }

  /** The ways one event raises alert `a`. */
  predicate RaisesAlert(ev: Event, m: map<real, string>, num: string -> JsNumber, numText: real -> string, a: string)
  {
    (ev.evType != "" && ev.evType != "alarm" && a == ev.evType)
    || (ev.evType == "alarm" && ev.alarm != "" && a == ev.alarm)
    || exists j :: 0 <= j < |EventIds(ev, num)| && a == NotifName(m, EventIds(ev, num)[j], numText)
  }

  lemma EventAlertsIff(ev: Event, m: map<real, string>, num: string -> JsNumber, numText: real -> string, a: string)
    ensures a in EventAlerts(ev, m, num, numText) <==> RaisesAlert(ev, m, num, numText, a)
  {
  }

  datatype Row<Id> = Row(
    deviceId: Id,
    alerts: set<string>,
    geofences: set<string>,
    alertCount: nat,
    geofenceCount: nat,
    state: VState,
    stateLabel: string)

  /** The row of one device. `alerts` and `geofences` are the sets before
      they are sorted for display. */
  function DeviceRow<Id>(id: Id, events: seq<Event>, m: map<real, string>, g: map<real, string>,
                         num: string -> JsNumber, numText: real -> string): (r: Row<Id>)
    ensures r.geofenceCount == |r.geofences|
    ensures r.stateLabel == StateLabel(r.state)
  {
    var arr := Sorting.SortBy(events, TimeKey);
    var (st, _) := Track(Observe(arr, m, num));
    var state := if st.Some? then st.value else if |arr| > 0 then EnService else HorsService;
    var geos := GeoSet(arr, g, numText);
    Row(id, AlertSet(arr, m, num, numText), geos, TotalOccurrences(arr, num), |geos|, state, StateLabel(state))
  }

  /** After the ascending sort by time, the state is the inferred state of
      the last event that has one (and a time not before 1970); with no
      such event it is `en_service` when there are events and
      `hors_service` otherwise. */
  lemma FinalState<Id>(id: Id, events: seq<Event>, m: map<real, string>, g: map<real, string>,
                       num: string -> JsNumber, numText: real -> string)
    ensures var arr := Sorting.SortBy(events, TimeKey);
            var obs := Observe(arr, m, num);
            var r := DeviceRow(id, events, m, g, num, numText);
            && (r.state == HorsService <==> |events| == 0)
            && (forall i :: LastDecisive(obs, i) ==> Some(r.state) == InferState(arr[i], m, num))
            && (|events| > 0 && (forall i :: 0 <= i < |obs| ==> !Decisive(obs[i])) ==> r.state == EnService)
  {
    var arr := Sorting.SortBy(events, TimeKey);
    var obs := Observe(arr, m, num);
    assert TimeOrdered(obs) by {
      forall i, j | 0 <= i < j < |obs| ensures obs[i].1 <= obs[j].1 {
        assert TimeKey(arr[i]) <= TimeKey(arr[j]);
      }
    }
    TrackIsLastDecisive(obs);
    if Track(obs).0.Some? {
      TrackStateIsInferred(obs);
    }
  }

  /** A tracked state is always an inferred one, so never `hors_service`. */
  lemma {:induction false} TrackStateIsInferred(obs: seq<Obs>)
    requires forall i :: 0 <= i < |obs| ==> obs[i].0 != Some(HorsService)
    ensures Track(obs).0 != Some(HorsService)
    decreases |obs|
  {
    if |obs| > 0 {
      TrackStateIsInferred(obs[..|obs| - 1]);
    }
  }

  /** Every event with a type adds at least one occurrence, and an untyped
      event adds none: the count is 0 exactly when no event has a type. */
  lemma {:induction false} OccurrencesCountTypedEvents(evs: seq<Event>, num: string -> JsNumber)
    ensures TotalOccurrences(evs, num) == 0 <==> forall i :: 0 <= i < |evs| ==> evs[i].evType == ""
    ensures TotalOccurrences(evs, num) >= |TypedIndices(evs)|
    decreases |evs|
  {
    if |evs| > 0 {
      var init := evs[..|evs| - 1];
      var last := evs[|evs| - 1];
      OccurrencesCountTypedEvents(init, num);
      OccurrencesOfOne(last, num);
      TypedIndicesSnoc(evs);
      assert forall i :: 0 <= i < |init| ==> init[i] == evs[i];
    }
  }

  /** The positions of the events that have a type. */
  function TypedIndices(evs: seq<Event>): set<int>
  {
    set i | 0 <= i < |evs| && evs[i].evType != ""
  }

  lemma OccurrencesOfOne(ev: Event, num: string -> JsNumber)
    ensures ev.evType == "" ==> Occurrences(ev, num) == 0
    ensures ev.evType != "" ==> Occurrences(ev, num) >= 1
  {
  }

  lemma TypedIndicesSnoc(evs: seq<Event>)
    requires |evs| > 0
    ensures TypedIndices(evs) == TypedIndices(evs[..|evs| - 1]) + (if evs[|evs| - 1].evType != "" then {|evs| - 1} else {})
    ensures |TypedIndices(evs)| <= |TypedIndices(evs[..|evs| - 1])| + 1
  {
    var init := evs[..|evs| - 1];
    assert forall i :: 0 <= i < |init| ==> init[i] == evs[i];
  }

  /** A geofence is named in a row exactly when some event has a finite,
      positive geofence id whose name, or fallback, it is. */
  lemma GeofencesFromPositiveIds(evs: seq<Event>, g: map<real, string>, numText: real -> string, name: string)
    ensures name in GeoSet(evs, g, numText) <==>
              exists i :: 0 <= i < |evs| && evs[i].geofenceId.Finite? && evs[i].geofenceId.v > 0.0
                          && name == GeoName(g, evs[i].geofenceId.v, numText)
  {
    UnionOfIff(evs, ev => EventGeofences(ev, g, numText), name);
  }

  /** The report: one row per pool entry (no `Map` here, so a repeated
      device id gives a repeated row). */
  function Report<Id>(lists: seq<(Id, seq<Event>)>, notifs: seq<Notification>, geofences: seq<Geofence>,
                      num: string -> JsNumber, numText: real -> string): (rows: seq<Row<Id>>)
    ensures |rows| == |lists|
    ensures forall i :: 0 <= i < |lists| ==> rows[i].deviceId == lists[i].0
  {
    var m := NotifMap(notifs, numText);
    var g := GeofenceMap(geofences, numText);
    seq(|lists|, i requires 0 <= i < |lists| => DeviceRow(lists[i].0, lists[i].1, m, g, num, numText))
  }
}
