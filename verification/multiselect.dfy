/** The selection list (src/components/MultiSelect.tsx): the search over
    the options, the "all selected" test, toggling one value, toggling all,
    and clearing, as functions from the current selection to the one handed
    to `onChange`. */
module MultiSelect {
  import opened Common

  datatype SelectOption = SelectOption(value: string, caption: string)

  /** `filtered`: the options whose lower-cased caption includes the
      trimmed, lower-cased query; all options for a blank query. */
  function Filtered(options: seq<SelectOption>, q: string): (r: seq<SelectOption>)
    ensures Lower(Trim(q)) == "" ==> r == options
    ensures Lower(Trim(q)) != "" ==> forall o :: o in r <==> o in options && Contains(Lower(o.caption), Lower(Trim(q)))
  {
    var s := Lower(Trim(q));
    if s == "" then options else Filter(options, (o: SelectOption) => Contains(Lower(o.caption), s))
  }

  /** The search keeps the options' order. */
  lemma FilteredIsSublist(options: seq<SelectOption>, q: string)
    ensures Sublist(Filtered(options, q), options)
  {
    var s := Lower(Trim(q));
    if s == "" {
      SublistRefl(options);
    } else {
      FilterIsSublist(options, (o: SelectOption) => Contains(Lower(o.caption), s));
    }
  }

  /** Lower-casing keeps a blank query blank and a non-blank one
      non-blank: `filtered` returns everything exactly when the trimmed
      query is empty. */
  lemma BlankQueryIffTrimmedEmpty(q: string)
    ensures Lower(Trim(q)) == "" <==> Trim(q) == ""
  {
  }

  /** `allSelected`: a length test, not a membership test. */
  predicate AllSelected(value: seq<string>, options: seq<SelectOption>)
  {
    |value| > 0 && |value| == |options|
  }

  function Values(options: seq<SelectOption>): (vs: seq<string>)
    ensures |vs| == |options| && forall i :: 0 <= i < |options| ==> vs[i] == options[i].value
  {
    seq(|options|, i requires 0 <= i < |options| => options[i].value)
  }

  /** `toggle`: a selected value is removed (every copy of it), any other
      is appended. */
  function Toggle(value: seq<string>, v: string): (r: seq<string>)
    ensures v in r <==> v !in value
    ensures forall x :: x != v ==> (x in r <==> x in value)
    ensures v !in value ==> r == value + [v]
  {
    if v in value then Filter(value, (x: string) => x != v) else value + [v]
  }

  /** Toggling twice restores membership. */
  lemma ToggleTwice(value: seq<string>, v: string)
    ensures forall x :: x in Toggle(Toggle(value, v), v) <==> x in value
  {
  }

  /** `toggleAll`: clear when all are selected, else every option value in
      option order. */
  function ToggleAll(value: seq<string>, options: seq<SelectOption>): (r: seq<string>)
    ensures AllSelected(value, options) ==> r == []
    ensures !AllSelected(value, options) ==> r == Values(options)
  {
    if AllSelected(value, options) then [] else Values(options)
  }

  /** The "clear" button. */
  function Clear(value: seq<string>): (r: seq<string>)
    ensures |r| == 0
  {
    []
  }

  predicate Distinct(xs: seq<string>)
  {
    forall i, j :: 0 <= i < j < |xs| ==> xs[i] != xs[j]
  }

  /** A selection the component itself could have produced: no value twice,
      and only option values. */
  predicate Valid(value: seq<string>, options: seq<SelectOption>)
  {
    Distinct(value) && forall x :: x in value ==> x in Values(options)
  }

  /** The length test can claim everything is selected when it is not: a
      selection holding a value that is no longer an option. */
  lemma AllSelectedIsLengthTest()
    ensures var options := [SelectOption("a", "A"), SelectOption("b", "B")];
            var value := ["a", "c"];
            AllSelected(value, options) && "b" !in value
  {
  }

  /** Toggling an option's value keeps a valid selection valid. */
  lemma ToggleKeepsValid(value: seq<string>, options: seq<SelectOption>, v: string)
    requires Valid(value, options) && v in Values(options)
    ensures Valid(Toggle(value, v), options)
  {
    var r := Toggle(value, v);
    if v in value {
      FilterKeepsDistinct(value, (x: string) => x != v);
    } else {
      forall i, j | 0 <= i < j < |r|
        ensures r[i] != r[j]
      {
        if j == |value| {
          assert r[i] == value[i] && r[j] == v;
        } else {
          assert r[i] == value[i] && r[j] == value[j];
        }
      }
    }
  }

  lemma {:induction false} FilterKeepsDistinct(xs: seq<string>, p: string -> bool)
    requires Distinct(xs)
    ensures Distinct(Filter(xs, p))
    decreases |xs|
  {
    if |xs| > 0 {
      assert Distinct(xs[1..]) by {
        forall i, j | 0 <= i < j < |xs[1..]|
          ensures xs[1..][i] != xs[1..][j]
        {
          assert xs[1..][i] == xs[i + 1] && xs[1..][j] == xs[j + 1];
        }
      }
      FilterKeepsDistinct(xs[1..], p);
      var rest := Filter(xs[1..], p);
      if p(xs[0]) {
        assert xs[0] !in xs[1..] by {
          forall k | 0 <= k < |xs[1..]|
            ensures xs[1..][k] != xs[0]
          {
            assert xs[1..][k] == xs[k + 1];
          }
        }
        assert xs[0] !in rest;
        var r := [xs[0]] + rest;
        forall i, j | 0 <= i < j < |r|
          ensures r[i] != r[j]
        {
          if i == 0 {
            assert r[j] == rest[j - 1];
          } else {
            assert r[i] == rest[i - 1] && r[j] == rest[j - 1];
          }
        }
      }
    }
  }

  /** Toggling all keeps a valid selection valid when option values are
      distinct. */
  lemma ToggleAllKeepsValid(value: seq<string>, options: seq<SelectOption>)
    requires Distinct(Values(options))
    ensures Valid(ToggleAll(value, options), options)
  {
  }

  lemma {:induction false} DistinctCard(xs: seq<string>)
    requires Distinct(xs)
    ensures |(set x | x in xs)| == |xs|
    decreases |xs|
  {
    if |xs| > 0 {
      var tail := xs[1..];
      assert Distinct(tail) by {
        forall i, j | 0 <= i < j < |tail|
          ensures tail[i] != tail[j]
        {
          assert tail[i] == xs[i + 1] && tail[j] == xs[j + 1];
        }
      }
      DistinctCard(tail);
      assert xs[0] !in tail by {
        forall k | 0 <= k < |tail|
          ensures tail[k] != xs[0]
        {
          assert tail[k] == xs[k + 1];
        }
      }
      assert (set x | x in xs) == {xs[0]} + (set x | x in tail);
    }
  }

  /** For a valid selection over options with distinct values, the length
      test is exact: it holds iff there are options and each is
      selected. */
  lemma AllSelectedIffEverySelected(value: seq<string>, options: seq<SelectOption>)
    requires Valid(value, options) && Distinct(Values(options))
    ensures AllSelected(value, options) <==> |options| > 0 && forall o :: o in options ==> o.value in value
  {
    var a := set x | x in value;
    var b := set x | x in Values(options);
    DistinctCard(value);
    DistinctCard(Values(options));
    assert a <= b;
    if AllSelected(value, options) {
      assert |a| == |b|;
      assert |b - a| == |b| - |a|;
      assert b - a == {};
      forall o | o in options
        ensures o.value in value
      {
        var i :| 0 <= i < |options| && options[i] == o;
        assert Values(options)[i] == o.value;
        assert o.value in b;
      }
    }
    if |options| > 0 && forall o :: o in options ==> o.value in value {
      assert b <= a by {
        forall x | x in b
          ensures x in a
        {
          var i :| 0 <= i < |options| && Values(options)[i] == x;
          assert options[i] in options;
        }
      }
      assert a == b;
    }
  }
}
