/** The company slug: `companyFromUsername` in backend/server.js (and its
    twin in src/pages/Alerts.tsx) and the page's `slug` helper. The pipeline
    is NFKD normalisation, every run of characters outside `\w` replaced by
    one `-`, one leading and one trailing `-` removed, lower-casing, and (for
    the company) `"default"` when nothing is left. Unicode normalisation is
    a parameter `nfkd` of the model. */
module Company {
  import opened Common

  /** The regular-expression class `\w`. */
  predicate IsWord(c: char)
  {
    'A' <= c <= 'Z' || 'a' <= c <= 'z' || '0' <= c <= '9' || c == '_'
  }

  /** What a slug may contain: lower-case `\w` characters and `-`. */
  predicate IsSlugChar(c: char)
  {
    'a' <= c <= 'z' || '0' <= c <= '9' || c == '_' || c == '-'
  }

  /** Only `\w` characters and single dashes. */
  predicate Clean(s: string)
  {
    (forall i :: 0 <= i < |s| ==> IsWord(s[i]) || s[i] == '-')
    && (forall i :: 0 <= i < |s| - 1 ==> s[i] == '-' ==> s[i + 1] != '-')
  }

  predicate NoEdgeDash(s: string)
  {
    |s| > 0 ==> s[0] != '-' && s[|s| - 1] != '-'
  }

  /** The `\w` characters of a string, in order. */
  function Words(s: string): string
  {
    Filter(s, IsWord)
  }

  /** Drops the run of non-`\w` characters at the front. */
  function SkipNonWord(s: string): (r: string)
    ensures |r| <= |s|
    ensures |r| > 0 ==> IsWord(r[0])
    ensures Words(r) == Words(s)
  {
    if |s| == 0 || IsWord(s[0]) then s else SkipNonWord(s[1..])
  }

  /** `SkipNonWord` keeps a suffix and drops only non-`\w` characters. */
  lemma {:induction false} SkipNonWordDrops(s: string)
    ensures SkipNonWord(s) == s[|s| - |SkipNonWord(s)|..]
    ensures forall i :: 0 <= i < |s| - |SkipNonWord(s)| ==> !IsWord(s[i])
    decreases |s|
  {
    if |s| > 0 && !IsWord(s[0]) {
      var r := SkipNonWord(s);
      SkipNonWordDrops(s[1..]);
      assert s[1..][|s| - 1 - |r|..] == s[|s| - |r|..];
      assert forall i :: 1 <= i < |s| - |r| ==> s[i] == s[1..][i - 1];
    }
  }

  /** The length of the leading run of `\w` characters. */
  function WordLen(s: string): (n: nat)
    ensures n <= |s|
    ensures forall i :: 0 <= i < n ==> IsWord(s[i])
    ensures n < |s| ==> !IsWord(s[n])
  {
    if |s| == 0 || !IsWord(s[0]) then 0 else 1 + WordLen(s[1..])
  }

  /** A non-empty run of `\w` characters. */
  predicate WordRun(w: string)
  {
    |w| > 0 && forall i :: 0 <= i < |w| ==> IsWord(w[i])
  }

  /** The maximal runs of `\w` characters, in order. */
  function WordRuns(s: string): (ws: seq<string>)
    ensures forall k :: 0 <= k < |ws| ==> WordRun(ws[k])
    decreases |s|
  {
    var t := SkipNonWord(s);
    if |t| == 0 then []
    else
      var n := WordLen(t);
      var rest := WordRuns(t[n..]);
      LeadingRun(t);
      ConsRuns(t[..n], rest);
      [t[..n]] + rest
  }

  lemma LeadingRun(t: string)
    requires |t| > 0 && IsWord(t[0])
    ensures WordRun(t[..WordLen(t)])
  {
    var w := t[..WordLen(t)];
    forall i | 0 <= i < |w| ensures IsWord(w[i]) {
      assert w[i] == t[i];
    }
  }

  lemma ConsRuns(w: string, ws: seq<string>)
    requires WordRun(w) && forall k :: 0 <= k < |ws| ==> WordRun(ws[k])
    ensures forall k :: 0 <= k < |[w] + ws| ==> WordRun(([w] + ws)[k])
  {
    forall k | 0 <= k < |[w] + ws| ensures WordRun(([w] + ws)[k]) {
      if k > 0 {
        assert ([w] + ws)[k] == ws[k - 1];
      }
    }
  }

  /** `ws.join("-")` */
  function JoinDash(ws: seq<string>): string
  {
    if |ws| == 0 then "" else if |ws| == 1 then ws[0] else ws[0] + "-" + JoinDash(ws[1..])
  }

  /** `.replace(/[^\w]+/g, "-")`: every maximal run of non-`\w`
      characters becomes one dash. */
  function Collapse(s: string): string
    decreases |s|
  {
    if |s| == 0 then ""
    else if IsWord(s[0]) then [s[0]] + Collapse(s[1..])
    else "-" + Collapse(SkipNonWord(s[1..]))
  }

  /** The replacement leaves only word characters and single dashes, keeps
      every word character in order, and keeps a leading word character in
      front. */
  lemma {:induction false} CollapseClean(s: string)
    ensures Clean(Collapse(s))
    ensures |s| > 0 && IsWord(s[0]) ==> |Collapse(s)| > 0 && Collapse(s)[0] == s[0]
    ensures Words(Collapse(s)) == Words(s)
    decreases |s|
  {
    if |s| > 0 {
      if IsWord(s[0]) {
        CollapseWordStep(s);
        CollapseClean(s[1..]);
        CleanConsWord(s[0], Collapse(s[1..]));
        WordsCons(s[0], Collapse(s[1..]));
        WordsCons(s[0], s[1..]);
        assert s == [s[0]] + s[1..];
      } else {
        var u := SkipNonWord(s[1..]);
        CollapseNonWordStep(s);
        CollapseClean(u);
        CleanConsDash(Collapse(u));
        WordsCons('-', Collapse(u));
        WordsCons(s[0], s[1..]);
        assert s == [s[0]] + s[1..];
      }
    }
  }

  lemma CleanConsWord(c: char, r: string)
    requires IsWord(c) && Clean(r)
    ensures Clean([c] + r)
  {
    assert forall i :: 1 <= i < |[c] + r| ==> ([c] + r)[i] == r[i - 1];
  }

  lemma CleanConsDash(r: string)
    requires Clean(r) && (|r| == 0 || IsWord(r[0]))
    ensures Clean("-" + r)
  {
    assert forall i :: 1 <= i < |"-" + r| ==> ("-" + r)[i] == r[i - 1];
  }

  predicate EndsNonWord(s: string)
  {
    |s| > 0 && !IsWord(s[|s| - 1])
  }

  /** A leading run of word characters is copied as it is. */
  lemma {:induction false} CollapseWordPrefix(s: string, n: nat)
    requires n <= |s| && forall i :: 0 <= i < n ==> IsWord(s[i])
    ensures Collapse(s) == s[..n] + Collapse(s[n..])
    decreases n
  {
    if n == 0 {
      assert s[..0] + Collapse(s[0..]) == Collapse(s);
    } else {
      CollapseWordStep(s);
      assert forall i :: 0 <= i < n - 1 ==> s[1..][i] == s[i + 1];
      CollapseWordPrefix(s[1..], n - 1);
      ConsSlices(s, n);
      ConcatAssoc([s[0]], s[1..][..n - 1], Collapse(s[n..]));
    }
  }

  lemma ConsSlices<T>(s: seq<T>, n: nat)
    requires 1 <= n <= |s|
    ensures s[1..][n - 1..] == s[n..]
    ensures [s[0]] + s[1..][..n - 1] == s[..n]
  {
  }

  lemma SliceOfSlice<T>(s: seq<T>, n: nat)
    requires n < |s|
    ensures s[n..][1..] == s[n + 1..]
  {
  }

  lemma Assoc4<T>(a: seq<T>, b: seq<T>, c: seq<T>, d: seq<T>)
    ensures a + (b + (c + d)) == a + b + c + d
  {
  }

  lemma CollapseWordStep(s: string)
    requires |s| > 0 && IsWord(s[0])
    ensures Collapse(s) == [s[0]] + Collapse(s[1..])
  {
  }

  lemma CollapseNonWordStep(s: string)
    requires |s| > 0 && !IsWord(s[0])
    ensures Collapse(s) == "-" + Collapse(SkipNonWord(s[1..]))
  {
  }

  /** Skipping the leading non-word characters does not change the runs. */
  lemma WordRunsSkip(s: string)
    ensures WordRuns(SkipNonWord(s)) == WordRuns(s)
  {
    var t := SkipNonWord(s);
    assert SkipNonWord(t) == t;
  }

  lemma JoinDashCons(w: string, ws: seq<string>)
    requires |ws| > 0
    ensures JoinDash([w] + ws) == w + "-" + JoinDash(ws)
  {
    assert ([w] + ws)[1..] == ws;
  }

  /** A dash-join of word runs starts and ends with a word character. */
  lemma {:induction false} JoinDashEnds(ws: seq<string>)
    requires |ws| > 0 && forall k :: 0 <= k < |ws| ==> WordRun(ws[k])
    ensures |JoinDash(ws)| > 0 && IsWord(JoinDash(ws)[0]) && IsWord(JoinDash(ws)[|JoinDash(ws)| - 1])
    decreases |ws|
  {
    if |ws| > 1 {
      assert forall k :: 0 <= k < |ws[1..]| ==> ws[1..][k] == ws[k + 1];
      JoinDashEnds(ws[1..]);
      var j := JoinDash(ws);
      assert j == ws[0] + "-" + JoinDash(ws[1..]);
      assert j[0] == ws[0][0];
      assert j[|j| - 1] == JoinDash(ws[1..])[|JoinDash(ws[1..])| - 1];
    }
  }

  lemma WordRunsEmpty()
    ensures WordRuns("") == [] && Collapse("") == ""
  {
    assert SkipNonWord("") == "";
  }

  lemma WordRunsWordStart(s: string)
    requires |s| > 0 && IsWord(s[0])
    ensures WordRuns(s) == [s[..WordLen(s)]] + WordRuns(s[WordLen(s)..])
  {
    assert SkipNonWord(s) == s;
  }

  lemma WordRunsNonWordStart(x: string)
    requires |x| > 0 && !IsWord(x[0])
    ensures WordRuns(x) == WordRuns(SkipNonWord(x[1..]))
  {
    assert SkipNonWord(x) == SkipNonWord(x[1..]);
    WordRunsSkip(x);
  }

  /** A string that starts with a word character has at least one run. */
  lemma WordRunsNonEmpty(u: string)
    requires |u| > 0 && IsWord(u[0])
    ensures WordRuns(u) != []
  {
    WordRunsWordStart(u);
  }

  /** When nothing is left after the non-word run that follows position
      `n`, the string ends with a non-word character; otherwise what is
      left ends as the string does. */
  lemma TailAfterRun(s: string, n: nat)
    requires n < |s| && !IsWord(s[n])
    ensures var u := SkipNonWord(s[n + 1..]);
            (|u| == 0 ==> EndsNonWord(s)) && (|u| > 0 ==> (EndsNonWord(u) <==> EndsNonWord(s)))
  {
    var x := s[n + 1..];
    var u := SkipNonWord(x);
    SkipNonWordDrops(x);
    if |u| == 0 {
      if |s| - 1 > n {
        assert s[|s| - 1] == x[|x| - 1];
      }
    } else {
      assert u[|u| - 1] == x[|x| - 1] == s[|s| - 1];
    }
  }

  /** Collapsing a string that starts with a word character (or is empty)
      gives its word runs joined with single dashes, plus one dash when it
      ends with a non-word character. */
  lemma {:induction false} CollapseRuns(s: string)
    requires |s| == 0 || IsWord(s[0])
    ensures Collapse(s) == JoinDash(WordRuns(s)) + (if EndsNonWord(s) then "-" else "")
    decreases |s|, 1
  {
    if |s| == 0 {
      WordRunsEmpty();
    } else if WordLen(s) == |s| {
      var n := WordLen(s);
      WordRunsWordStart(s);
      CollapseWordPrefix(s, n);
      WordRunsEmpty();
      assert s[n..] == "" && s[..n] == s;
      assert IsWord(s[|s| - 1]);
      SingleRun(Collapse(s), s, Collapse(s[n..]), WordRuns(s), WordRuns(s[n..]));
    } else {
      CollapseRunsAfterWord(s, WordLen(s));
    }
  }

  /** The inductive step of `CollapseRuns`: a run of word characters
      followed by at least one non-word character. */
  lemma {:induction false} CollapseRunsAfterWord(s: string, n: nat)
    requires |s| > 0 && IsWord(s[0]) && n == WordLen(s) && n < |s|
    ensures Collapse(s) == JoinDash(WordRuns(s)) + (if EndsNonWord(s) then "-" else "")
    decreases |s|, 0
  {
    var u := SkipNonWord(s[n + 1..]);
    AfterWordFacts(s, n);
    CollapseRuns(u);
    TailAfterRun(s, n);
    if |u| > 0 {
      WordRunsNonEmpty(u);
    } else {
      WordRunsEmpty();
    }
    CombineRuns(Collapse(s), s[..n], Collapse(s[n..]), Collapse(u), WordRuns(u), WordRuns(s),
                if EndsNonWord(u) then "-" else "", if EndsNonWord(s) then "-" else "");
  }

  /** One word run, then the non-word run after it. */
  lemma AfterWordFacts(s: string, n: nat)
    requires |s| > 0 && IsWord(s[0]) && n == WordLen(s) && n < |s|
    ensures var u := SkipNonWord(s[n + 1..]);
            && Collapse(s) == s[..n] + Collapse(s[n..])
            && Collapse(s[n..]) == "-" + Collapse(u)
            && WordRuns(s) == [s[..n]] + WordRuns(u)
            && (|u| == 0 || IsWord(u[0]))
            && |u| < |s|
  {
    var x := s[n..];
    WordRunsWordStart(s);
    CollapseWordPrefix(s, n);
    SliceOfSlice(s, n);
    CollapseNonWordStep(x);
    WordRunsNonWordStart(x);
  }

  lemma SingleRun(cs: string, w: string, cx: string, ws: seq<string>, xs: seq<string>)
    requires cs == w + cx && cx == "" && ws == [w] + xs && xs == []
    ensures cs == JoinDash(ws) + ""
  {
    assert ws == [w];
    assert w + "" == w;
  }

  /** The last step of `CollapseRuns`, on plain strings: a run, a dash and
      the collapse of the rest. */
  lemma CombineRuns(cs: string, w: string, cx: string, cu: string, us: seq<string>, ws: seq<string>, du: string, ds: string)
    requires cs == w + cx && cx == "-" + cu && cu == JoinDash(us) + du
    requires ws == [w] + us
    requires us == [] ==> cu == "" && ds == "-"
    requires us != [] ==> du == ds
    ensures cs == JoinDash(ws) + ds
  {
    if us == [] {
      assert ws == [w];
    } else {
      JoinDashCons(w, us);
      Assoc4(w, "-", JoinDash(us), ds);
    }
  }

  lemma StripJoin(j: string, d: string)
    requires j == "" || (IsWord(j[0]) && IsWord(j[|j| - 1]))
    requires d == "" || d == "-"
    requires j == "" ==> d == ""
    ensures StripEdgeDashes(j + d) == j
    ensures StripEdgeDashes("-" + (j + d)) == j
  {
    if d == "-" {
      assert (j + d)[..|j + d| - 1] == j;
      assert ("-" + (j + d))[1..] == j + d;
    } else {
      assert j + d == j;
      assert ("-" + j)[1..] == j;
    }
  }

  /** The replacement and the edge strip together: the result is the
      maximal word runs of the input joined with single dashes, so
      `jean.dupont` becomes `jean-dupont`, `jeandupont` stays as it is, and
      leading or trailing punctuation leaves no dash. */
  lemma StripCollapseIsJoinedRuns(s: string)
    ensures StripEdgeDashes(Collapse(s)) == JoinDash(WordRuns(s))
  {
    if |s| == 0 || IsWord(s[0]) {
      CollapseRunsEdges(s);
      StripJoin(JoinDash(WordRuns(s)), if EndsNonWord(s) then "-" else "");
    } else {
      var u := SkipNonWord(s[1..]);
      CollapseNonWordStep(s);
      WordRunsNonWordStart(s);
      CollapseRunsEdges(u);
      StripJoin(JoinDash(WordRuns(u)), if EndsNonWord(u) then "-" else "");
    }
  }

  /** `CollapseRuns`, with what the edge strip needs to know about the
      joined runs. */
  lemma CollapseRunsEdges(u: string)
    requires |u| == 0 || IsWord(u[0])
    ensures var j := JoinDash(WordRuns(u));
            var d := if EndsNonWord(u) then "-" else "";
            && Collapse(u) == j + d
            && (j == "" || (IsWord(j[0]) && IsWord(j[|j| - 1])))
            && (j == "" ==> d == "")
  {
    CollapseRuns(u);
    if |u| > 0 {
      WordRunsNonEmpty(u);
      JoinDashEnds(WordRuns(u));
    } else {
      WordRunsEmpty();
    }
  }

  /** `.replace(/(^-|-$)/g, "")`: at most one dash at each end goes. */
  function StripEdgeDashes(s: string): (r: string)
  {
    var t := if |s| > 0 && s[0] == '-' then s[1..] else s;
    if |t| > 0 && t[|t| - 1] == '-' then t[..|t| - 1] else t
  }

  lemma StripKeepsWords(s: string)
    ensures Words(StripEdgeDashes(s)) == Words(s)
  {
    var t := if |s| > 0 && s[0] == '-' then s[1..] else s;
    assert Words(t) == Words(s);
    if |t| > 0 && t[|t| - 1] == '-' {
      assert t == t[..|t| - 1] + [t[|t| - 1]];
      FilterSnoc(t[..|t| - 1], t[|t| - 1], IsWord);
    }
  }

  /** A clean string stays clean, and loses its edge dashes. */
  lemma StripClean(s: string)
    requires Clean(s)
    ensures Clean(StripEdgeDashes(s)) && NoEdgeDash(StripEdgeDashes(s))
  {
    var t := if |s| > 0 && s[0] == '-' then s[1..] else s;
    assert Clean(t);
    if |s| > 1 && s[0] == '-' {
      assert t[0] == s[1];
    }
  }

  /** Lower-casing neither makes nor unmakes a `\w` character. */
  lemma LowerCharWord(c: char)
    ensures IsWord(LowerChar(c)) == IsWord(c)
    ensures IsWord(c) ==> IsSlugChar(LowerChar(c))
  {
  }

  lemma {:induction false} LowerKeepsWords(s: string)
    ensures Words(Lower(s)) == Lower(Words(s))
    decreases |s|
  {
    if |s| > 0 {
      var c, t := s[0], s[1..];
      assert s == [c] + t;
      LowerKeepsWords(t);
      LowerCharWord(c);
      LowerCons(c, t);
      WordsCons(c, t);
      WordsCons(LowerChar(c), Lower(t));
      if IsWord(c) {
        LowerCons(c, Words(t));
      }
    }
  }

  lemma LowerCons(c: char, t: string)
    ensures Lower([c] + t) == [LowerChar(c)] + Lower(t)
  {
  }

  lemma WordsCons(c: char, t: string)
    ensures Words([c] + t) == (if IsWord(c) then [c] else []) + Words(t)
  {
    assert ([c] + t)[1..] == t;
  }

  /** Lower-casing a clean string keeps it clean and leaves only slug
      characters. */
  lemma LowerClean(s: string)
    requires Clean(s) && NoEdgeDash(s)
    ensures Clean(Lower(s)) && NoEdgeDash(Lower(s))
    ensures forall i :: 0 <= i < |s| ==> IsSlugChar(Lower(s)[i])
  {
    var l := Lower(s);
    forall i | 0 <= i < |s|
      ensures IsSlugChar(l[i]) && (IsWord(l[i]) || l[i] == '-')
      ensures l[i] == '-' <==> s[i] == '-'
    {
      LowerCharWord(s[i]);
    }
  }

  /** The page's `slug`. */
  function Slug(nfkd: string -> string, v: string): (r: string)
    ensures Clean(r) && NoEdgeDash(r)
    ensures forall i :: 0 <= i < |r| ==> IsSlugChar(r[i])
    ensures Words(r) == Lower(Words(nfkd(v)))
  {
    var c := Collapse(nfkd(v));
    CollapseClean(nfkd(v));
    var s := StripEdgeDashes(c);
    StripClean(c);
    StripKeepsWords(c);
    LowerKeepsWords(s);
    LowerClean(s);
    Lower(s)
  }

  /** The slug is the lower-cased word runs of the normalised input,
      joined with single dashes. */
  lemma SlugIsJoinedRuns(nfkd: string -> string, v: string)
    ensures Slug(nfkd, v) == Lower(JoinDash(WordRuns(nfkd(v))))
  {
    StripCollapseIsJoinedRuns(nfkd(v));
  }

  /** A slug is empty exactly when the normalised input has no `\w`
      character. */
  lemma SlugEmptyIff(nfkd: string -> string, v: string)
    ensures Slug(nfkd, v) == "" <==> Words(nfkd(v)) == ""
  {
    var r := Slug(nfkd, v);
    if r != "" {
      assert IsWord(r[0]);
      assert Words(r) != "";
    }
  }

  lemma {:induction false} CollapseFixed(s: string)
    requires Clean(s)
    ensures Collapse(s) == s
    decreases |s|
  {
    if |s| > 0 {
      assert Clean(s[1..]);
      CollapseFixed(s[1..]);
      if !IsWord(s[0]) {
        assert s[1..] == [] || IsWord(s[1]);
        assert SkipNonWord(s[1..]) == s[1..];
      }
    }
  }

  /** A string that is already a slug is its own slug, provided
      normalisation leaves it as it is. */
  lemma SlugOfSlug(nfkd: string -> string, c: string)
    requires Clean(c) && NoEdgeDash(c) && forall i :: 0 <= i < |c| ==> IsSlugChar(c[i])
    requires nfkd(c) == c
    ensures Slug(nfkd, c) == c
  {
    CollapseFixed(c);
    StripFixed(c);
    assert forall i :: 0 <= i < |c| ==> LowerChar(c[i]) == c[i];
    LowerFixed(c);
  }

  lemma StripFixed(c: string)
    requires NoEdgeDash(c)
    ensures StripEdgeDashes(c) == c
  {
  }

  /** Slugging a slug changes nothing, provided normalisation leaves the
      slug (plain ASCII) as it is. */
  lemma SlugIdempotent(nfkd: string -> string, v: string)
    requires nfkd(Slug(nfkd, v)) == Slug(nfkd, v)
    ensures Slug(nfkd, Slug(nfkd, v)) == Slug(nfkd, v)
  {
    SlugOfSlug(nfkd, Slug(nfkd, v));
  }

  /** The part of a username before its first `@` (`split("@")[0]`). */
  function BeforeAt(u: string): (r: string)
    ensures '@' !in r
    ensures |r| <= |u| && r == u[..|r|]
    ensures |r| < |u| ==> u[|r|] == '@'
  {
    if |u| == 0 || u[0] == '@' then "" else [u[0]] + BeforeAt(u[1..])
  }

  /** `companyFromUsername`: the slug of the part before `@`, or `"default"`
      when that slug is empty. The result is never empty. */
  function CompanyFromUsername(nfkd: string -> string, u: string): (r: string)
    ensures r != ""
    ensures Slug(nfkd, BeforeAt(u)) == "" ==> r == "default"
    ensures Slug(nfkd, BeforeAt(u)) != "" ==> r == Slug(nfkd, BeforeAt(u))
    ensures Clean(r) && NoEdgeDash(r) && forall i :: 0 <= i < |r| ==> IsSlugChar(r[i])
  {
    var s := Slug(nfkd, BeforeAt(u));
    DefaultIsSlug();
    if s == "" then "default" else s
  }

  lemma DefaultIsSlug()
    ensures Clean("default") && NoEdgeDash("default")
    ensures forall i :: 0 <= i < |"default"| ==> IsSlugChar("default"[i])
  {
    var d := "default";
    assert forall i :: 0 <= i < |d| ==> 'a' <= d[i] <= 'z';
  }

  /** Two usernames that share the part before `@` map to the same
      company, whatever follows it. */
  lemma DomainIgnored(nfkd: string -> string, name: string, d1: string, d2: string)
    requires '@' !in name
    ensures CompanyFromUsername(nfkd, name + "@" + d1) == CompanyFromUsername(nfkd, name + "@" + d2)
  {
    BeforeAtOf(name, d1);
    BeforeAtOf(name, d2);
  }

  lemma {:induction false} BeforeAtOf(name: string, d: string)
    requires '@' !in name
    ensures BeforeAt(name + "@" + d) == name
    decreases |name|
  {
    if |name| > 0 {
      assert (name + "@" + d)[1..] == name[1..] + "@" + d;
      BeforeAtOf(name[1..], d);
    }
  }

  /** The company of a company name is itself, provided normalisation leaves
      it as it is: deriving the company twice changes nothing. */
  lemma CompanyIdempotent(nfkd: string -> string, u: string)
    requires nfkd(CompanyFromUsername(nfkd, u)) == CompanyFromUsername(nfkd, u)
    ensures CompanyFromUsername(nfkd, CompanyFromUsername(nfkd, u)) == CompanyFromUsername(nfkd, u)
  {
    var c := CompanyFromUsername(nfkd, u);
    assert '@' !in c by {
      forall i | 0 <= i < |c| ensures c[i] != '@' { assert IsSlugChar(c[i]); }
    }
    NoAtIsWhole(c);
    SlugOfSlug(nfkd, c);
  }

  lemma NoAtIsWhole(s: string)
    requires '@' !in s
    ensures BeforeAt(s) == s
  {
  }
}
