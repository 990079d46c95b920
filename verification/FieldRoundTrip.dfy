/** Parsing the canonical text of a set of values gives that set back, for every field kind, with
    numbers and with names; the canonical text lists the maximal runs of the set. */
module FieldRoundTrip {
  import opened Wrappers
  import opened FieldText

  // ----- The runs

  /** Runs lists the maximal runs of the members of values between lo and hi, in ascending order. */
  ghost predicate AreMaximalRuns(runs: seq<Run>, values: set<int>, lo: int, hi: int) {
    && (forall i | 0 <= i < |runs| :: lo <= runs[i].first <= runs[i].last <= hi)
    && (forall i | 0 <= i < |runs| :: runs[i].Values() <= values)
    && (forall i, j | 0 <= i < j < |runs| :: runs[i].last + 1 < runs[j].first)
    && (forall v <- values :: lo <= v <= hi ==> exists i :: 0 <= i < |runs| && v in runs[i].Values())
  }

  lemma {:induction false} RunsAreMaximal(values: set<int>, v: int, max: int)
    ensures AreMaximalRuns(RunsFrom(values, v, max), values, v, max)
    decreases max - v
  {
    if v > max {
      NoRunsBeyond(values, v, max);
    } else if v !in values {
      RunsAreMaximal(values, v + 1, max);
      var rest := RunsFrom(values, v + 1, max);
      assert RunsFrom(values, v, max) == rest;
      MaximalFromEarlier(RunsFrom(values, v, max), values, v, max);
    } else {
      var last := RunEnd(values, v, max);
      RunsAreMaximal(values, last + 1, max);
      var rest := RunsFrom(values, last + 1, max);
      RunsFromMember(values, v, max);
      PrependRun(Run(v, last), rest, RunsFrom(values, v, max), values, max);
    }
  }

  lemma RunsFromMember(values: set<int>, v: int, max: int)
    requires v in values && v <= max
    ensures var last := RunEnd(values, v, max);
            RunsFrom(values, v, max) == [Run(v, last)] + RunsFrom(values, last + 1, max)
  {
  }

  lemma NoRunsBeyond(values: set<int>, lo: int, hi: int)
    requires lo > hi
    ensures AreMaximalRuns([], values, lo, hi)
  {
  }

  lemma MaximalFromEarlier(runs: seq<Run>, values: set<int>, lo: int, hi: int)
    requires AreMaximalRuns(runs, values, lo + 1, hi) && lo !in values
    ensures AreMaximalRuns(runs, values, lo, hi)
  {
  }

  lemma PrependRun(run: Run, rest: seq<Run>, runs: seq<Run>, values: set<int>, hi: int)
    requires runs == [run] + rest
    requires run.first <= run.last <= hi && run.Values() <= values
    requires run.last < hi ==> run.last + 1 !in values
    requires AreMaximalRuns(rest, values, run.last + 1, hi)
    ensures AreMaximalRuns(runs, values, run.first, hi)
  {
    forall i | 0 <= i < |rest| ensures run.last + 1 < rest[i].first {
      assert rest[i].first in rest[i].Values();
    }
    forall u <- values | run.first <= u <= hi ensures exists i :: 0 <= i < |runs| && u in runs[i].Values() {
      if u <= run.last {
        assert u in runs[0].Values();
      } else {
        var i :| 0 <= i < |rest| && u in rest[i].Values();
        assert u in runs[i + 1].Values();
      }
    }
  }

  /** The maximal runs of a set are unique, so the text of a field depends on its values only. */
  lemma {:induction false} MaximalRunsAreUnique(a: seq<Run>, b: seq<Run>, values: set<int>, lo: int, hi: int)
    requires AreMaximalRuns(a, values, lo, hi) && AreMaximalRuns(b, values, lo, hi)
    ensures a == b
    decreases |a|
  {
    EmptyTogether(a, b, values, lo, hi);
    if a != [] {
      FirstRunsAgree(a, b, values, lo, hi);
      TailRuns(a, values, lo, hi);
      TailRuns(b, values, lo, hi);
      MaximalRunsAreUnique(a[1..], b[1..], values, a[0].last + 1, hi);
      assert a == [a[0]] + a[1..] && b == [b[0]] + b[1..];
    }
  }

  lemma EmptyTogether(a: seq<Run>, b: seq<Run>, values: set<int>, lo: int, hi: int)
    requires AreMaximalRuns(a, values, lo, hi) && AreMaximalRuns(b, values, lo, hi)
    ensures a == [] <==> b == []
    ensures a != [] ==> lo <= a[0].first <= a[0].last
  {
    assert a != [] ==> a[0].first in a[0].Values();
    assert b != [] ==> b[0].first in b[0].Values();
  }

  lemma TailRuns(a: seq<Run>, values: set<int>, lo: int, hi: int)
    requires a != [] && AreMaximalRuns(a, values, lo, hi)
    ensures AreMaximalRuns(a[1..], values, a[0].last + 1, hi)
  {
    forall v <- values | a[0].last + 1 <= v <= hi
      ensures exists i :: 0 <= i < |a[1..]| && v in a[1..][i].Values()
    {
      var i :| 0 <= i < |a| && v in a[i].Values();
      assert i > 0 && a[1..][i - 1] == a[i];
    }
  }

  lemma FirstRunsAgree(a: seq<Run>, b: seq<Run>, values: set<int>, lo: int, hi: int)
    requires a != [] && b != []
    requires AreMaximalRuns(a, values, lo, hi) && AreMaximalRuns(b, values, lo, hi)
    ensures a[0] == b[0]
  {
    FirstRunCovers(a, b, values, lo, hi);
    FirstRunCovers(b, a, values, lo, hi);
  }

  /** The first run of one list lies within the first run of the other. */
  lemma FirstRunCovers(a: seq<Run>, b: seq<Run>, values: set<int>, lo: int, hi: int)
    requires a != [] && b != []
    requires AreMaximalRuns(a, values, lo, hi) && AreMaximalRuns(b, values, lo, hi)
    ensures b[0].first <= a[0].first && a[0].last <= b[0].last
  {
    FirstIsLeast(a, values, lo, hi);
    FirstIsLeast(b, values, lo, hi);
    AfterFirstRun(b, values, lo, hi);
    assert forall v | a[0].first <= v <= a[0].last :: v in a[0].Values();
  }

  lemma FirstIsLeast(a: seq<Run>, values: set<int>, lo: int, hi: int)
    requires a != [] && AreMaximalRuns(a, values, lo, hi)
    ensures a[0].first in values && forall v <- values :: lo <= v <= hi ==> a[0].first <= v
  {
    assert a[0].first in a[0].Values();
  }

  lemma AfterFirstRun(b: seq<Run>, values: set<int>, lo: int, hi: int)
    requires b != [] && AreMaximalRuns(b, values, lo, hi)
    ensures b[0].last < hi ==> b[0].last + 1 !in values
  {
    assert forall i | 0 <= i < |b| :: b[0].last + 1 !in b[i].Values();
  }

  // ----- One value

  /** A text of letters and digits only, so that no separator of the grammar occurs in it. */
  predicate Plain(s: string) {
    s != "" && forall c <- s :: IsDigit(c) || 'A' <= c <= 'Z' || 'a' <= c <= 'z'
  }

  lemma NumberRoundTrip(v: int)
    requires 0 <= v < 100
    ensures Plain(NumberText(v)) && IsDigit(NumberText(v)[0]) && ParseInt32(NumberText(v)) == Some(v)
  {
    var s := NumberText(v);
    assert SkipWhite(s) == s;
    if v < 10 {
      assert DigitCount(s) == 1 by { assert s[1..] == ""; }
      assert s[..1] == s && s[1..] == "";
      assert DigitsValue(s) == v by { assert s[..0] == ""; }
    } else {
      assert DigitCount(s) == 2 by { assert s[1..] == [s[1]] && s[1..][1..] == ""; }
      assert s[..2] == s && s[2..] == "";
      assert DigitsValue(s[..1]) == v / 10 by { assert s[..1] == [s[0]] && s[..1][..0] == ""; }
      assert DigitsValue(s) == v;
    }
  }

  lemma NameIsPlain(kind: Kind, i: int)
    requires 0 <= i < |kind.Names()|
    ensures Plain(kind.Names()[i]) && !IsDigit(kind.Names()[i][0])
  {
  }

  /** Every full name abbreviates no earlier name. */
  lemma NameIsFirst(kind: Kind, i: int)
    requires 0 <= i < |kind.Names()|
    ensures NameIndex(kind.Names(), kind.Names()[i]) == Some(i)
  {
    forall j | 0 <= j < i ensures !IsPrefixIgnoringCase(kind.Names()[i], kind.Names()[j]) {
      NamesDiffer(kind, j, i);
    }
    FirstPrefix(kind.Names(), kind.Names()[i], i);
  }

  lemma FirstPrefix(names: seq<string>, s: string, i: nat)
    requires i < |names| && IsPrefixIgnoringCase(s, names[i])
    requires forall j | 0 <= j < i :: !IsPrefixIgnoringCase(s, names[j])
    ensures NameIndex(names, s) == Some(i)
  {
  }

  lemma NamesDiffer(kind: Kind, j: int, i: int)
    requires 0 <= j < i < |kind.Names()|
    ensures !IsPrefixIgnoringCase(kind.Names()[i], kind.Names()[j])
  {
    var a, b := kind.Names()[i], kind.Names()[j];
    assert |a| > |b| || Lower(a[0]) != Lower(b[0]) || Lower(a[1]) != Lower(b[1]) || Lower(a[2]) != Lower(b[2]);
  }

  lemma ValueRoundTrip(kind: Kind, v: int, noNames: bool)
    requires kind.Min() <= v <= kind.Max()
    ensures Plain(ValueText(kind, v, noNames)) && ValueMeaning(kind, ValueText(kind, v, noNames)) == Some(v)
  {
    if noNames || kind.Names() == [] {
      NumberRoundTrip(v);
    } else {
      NameIsPlain(kind, v - kind.Min());
      NameIsFirst(kind, v - kind.Min());
    }
  }

  // ----- One run

  lemma AbsentMeansNoIndex(s: string, c: char)
    requires c !in s
    ensures IndexOf(s, c) == -1
  {
  }

  lemma UnitStep(kind: Kind, run: Run)
    requires RunInRange(kind, run)
    ensures RangeMeaning(kind, run.first, run.last, 1) == Some(run.Values())
  {
    assert Progression(run.first, run.last, 1) == run.Values();
  }

  lemma PlainHasNoSeparators(s: string)
    requires Plain(s)
    ensures '-' !in s && '/' !in s && ',' !in s && ' ' !in s && '*' !in s
  {
  }

  lemma DashText(a: string, b: string)
    requires Plain(a) && Plain(b)
    ensures var text := a + "-" + b;
            && IndexOf(text, '/') == -1 && IndexOf(text, '-') == |a| && text[..|a|] == a && text[|a| + 1..] == b
            && text != "" && text != "*" && ',' !in text && ' ' !in text
  {
    var text := a + "-" + b;
    PlainHasNoSeparators(a);
    PlainHasNoSeparators(b);
    AbsentMeansNoIndex(text, '/');
    IndexOfIs(text, '-', |a|);
  }

  /** A token without a slash is a value, or two values joined by a dash. */
  lemma DashToken(kind: Kind, a: string, b: string, first: int, last: int)
    requires Plain(a) && Plain(b) && ValueMeaning(kind, a) == Some(first) && ValueMeaning(kind, b) == Some(last)
    ensures TokenMeaning(kind, a + "-" + b) == RangeMeaning(kind, first, last, 1)
  {
    DashText(a, b);
    assert TokenMeaning(kind, a + "-" + b) == BodyMeaning(kind, a + "-" + b, 1);
  }

  lemma ValueToken(kind: Kind, a: string, v: int)
    requires Plain(a) && ValueMeaning(kind, a) == Some(v)
    ensures TokenMeaning(kind, a) == RangeMeaning(kind, v, v, 1)
    ensures a != "" && ',' !in a && ' ' !in a
  {
    PlainHasNoSeparators(a);
    AbsentMeansNoIndex(a, '/');
    AbsentMeansNoIndex(a, '-');
    assert a[0] != '*';
  }

  /** The text of a run, whatever texts its two bounds have. */
  function BoundsText(run: Run, a: string, b: string): string {
    if run.first == run.last then a else a + "-" + b
  }

  lemma BoundsRoundTrip(kind: Kind, run: Run, a: string, b: string)
    requires RunInRange(kind, run) && Plain(a) && Plain(b)
    requires ValueMeaning(kind, a) == Some(run.first) && ValueMeaning(kind, b) == Some(run.last)
    ensures var text := BoundsText(run, a, b);
            && text != "" && ',' !in text && ' ' !in text
            && TokenMeaning(kind, text) == Some(run.Values())
  {
    UnitStep(kind, run);
    if run.first == run.last {
      ValueToken(kind, a, run.first);
    } else {
      DashText(a, b);
      DashToken(kind, a, b, run.first, run.last);
    }
  }

  lemma RunRoundTrip(kind: Kind, run: Run, noNames: bool)
    requires RunInRange(kind, run)
    ensures var text := RunText(kind, run, noNames);
            && text != "" && ',' !in text && ' ' !in text
            && TokenMeaning(kind, text) == Some(run.Values())
  {
    var a := ValueText(kind, run.first, noNames);
    var b := ValueText(kind, run.last, noNames);
    ValueRoundTrip(kind, run.first, noNames);
    ValueRoundTrip(kind, run.last, noNames);
    BoundsRoundTrip(kind, run, a, b);
    assert RunText(kind, run, noNames) == BoundsText(run, a, b);
  }

  // ----- The whole field

  /** The meanings of the run texts are the runs, and their union is the set that they are the runs of. */
  lemma RunMeanings(kind: Kind, runs: seq<Run>, values: set<int>, noNames: bool)
    requires values <= kind.Range() && AreMaximalRuns(runs, values, kind.Min(), kind.Max())
    requires forall r <- runs :: RunInRange(kind, r)
    ensures UnionAll(Meanings(kind, RunTexts(kind, runs, noNames))) == Some(values)
  {
    var meanings := Meanings(kind, RunTexts(kind, runs, noNames));
    forall i | 0 <= i < |runs| ensures meanings[i] == Some(runs[i].Values()) {
      RunRoundTrip(kind, runs[i], noNames);
    }
    UnionOfRuns(runs, meanings, values, kind.Min(), kind.Max());
  }

  lemma UnionOfRuns(runs: seq<Run>, meanings: seq<Option<set<int>>>, values: set<int>, lo: int, hi: int)
    requires |meanings| == |runs| && forall i | 0 <= i < |runs| :: meanings[i] == Some(runs[i].Values())
    requires AreMaximalRuns(runs, values, lo, hi) && values <= Interval(lo, hi)
    ensures UnionAll(meanings) == Some(values)
  {
    UnionAllMembers(meanings);
    assert forall m <- meanings :: m.Some?;
    forall v ensures v in UnionAll(meanings).value <==> v in values {
      SomeRunHas(runs, meanings, values, lo, hi, v);
    }
    assert UnionAll(meanings).value == values;
  }

  lemma SomeRunHas(runs: seq<Run>, meanings: seq<Option<set<int>>>, values: set<int>, lo: int, hi: int, v: int)
    requires |meanings| == |runs| && forall i | 0 <= i < |runs| :: meanings[i] == Some(runs[i].Values())
    requires AreMaximalRuns(runs, values, lo, hi) && values <= Interval(lo, hi)
    ensures v in values <==> exists m :: m in meanings && m.Some? && v in m.value
  {
    if v in values {
      var i :| 0 <= i < |runs| && v in runs[i].Values();
      assert meanings[i] in meanings;
    }
  }

  lemma JoinedTokens(kind: Kind, tokens: seq<string>)
    requires tokens != [] && forall t <- tokens :: t != "" && ',' !in t
    requires UnionAll(Meanings(kind, tokens)).Some?
    ensures Join(tokens, ',') != ""
    ensures ExpressionMeaning(kind, Join(tokens, ',')) == UnionAll(Meanings(kind, tokens))
  {
    var text := Join(tokens, ',');
    if |tokens| == 1 {
      AbsentMeansNoIndex(text, ',');
      UnionOfOne(Meanings(kind, tokens));
    } else {
      assert text[..|tokens[0]|] == tokens[0];
      IndexOfIs(text, ',', |tokens[0]|);
      SplitJoin(tokens, ',');
    }
  }

  lemma UnionOfOne(meanings: seq<Option<set<int>>>)
    requires |meanings| == 1
    ensures UnionAll(meanings) == meanings[0]
  {
    assert UnionAll(meanings[..0]) == Some({});
    assert meanings[0].Some? ==> {} + meanings[0].value == meanings[0].value;
  }

  lemma JoinedRunsRoundTrip(kind: Kind, runs: seq<Run>, values: set<int>, noNames: bool)
    requires runs != [] && forall r <- runs :: RunInRange(kind, r)
    requires values <= kind.Range() && AreMaximalRuns(runs, values, kind.Min(), kind.Max())
    ensures var text := Join(RunTexts(kind, runs, noNames), ',');
            && text != "" && ' ' !in text && ExpressionMeaning(kind, text) == Some(values)
  {
    var texts := RunTexts(kind, runs, noNames);
    RunMeanings(kind, runs, values, noNames);
    forall i | 0 <= i < |texts| ensures texts[i] != "" && ',' !in texts[i] && ' ' !in texts[i] {
      RunRoundTrip(kind, runs[i], noNames);
    }
    JoinedTokens(kind, texts);
    JoinHasNo(texts, ',', ' ');
  }

  /** For every set of values in range, in numeric form and in name form, the canonical text parses
      back to exactly that set. */
  lemma FieldTextRoundTrip(kind: Kind, values: set<int>, noNames: bool)
    requires values <= kind.Range()
    ensures FieldMeaning(kind, SetText(kind, values, noNames)) == Some(values)
    ensures ' ' !in SetText(kind, values, noNames)
    ensures SetText(kind, values, noNames) == "" <==> values == {}
  {
    RunsInRange(kind, values, kind.Min());
    RunsAreMaximal(values, kind.Min(), kind.Max());
    TextOfRuns(kind, RunsFrom(values, kind.Min(), kind.Max()), values, noNames, SetText(kind, values, noNames));
  }

  lemma TextOfRuns(kind: Kind, runs: seq<Run>, values: set<int>, noNames: bool, text: string)
    requires forall r <- runs :: RunInRange(kind, r)
    requires values <= kind.Range() && AreMaximalRuns(runs, values, kind.Min(), kind.Max())
    requires text == if runs == [Run(kind.Min(), kind.Max())] then "*" else Join(RunTexts(kind, runs, noNames), ',')
    ensures FieldMeaning(kind, text) == Some(values) && ' ' !in text
    ensures text == "" <==> values == {}
  {
    RunsOfRangeAndOfNothing(kind, runs, values);
    if runs == [Run(kind.Min(), kind.Max())] {
      StarMeansRange(kind);
    } else if runs != [] {
      JoinedRunsRoundTrip(kind, runs, values, noNames);
    }
  }

  lemma RunsOfRangeAndOfNothing(kind: Kind, runs: seq<Run>, values: set<int>)
    requires values <= kind.Range() && AreMaximalRuns(runs, values, kind.Min(), kind.Max())
    ensures runs == [Run(kind.Min(), kind.Max())] ==> values == kind.Range()
    ensures runs == [] <==> values == {}
  {
    assert runs != [] ==> runs[0].first in runs[0].Values();
  }

  lemma StarMeansRange(kind: Kind)
    ensures ExpressionMeaning(kind, "*") == Some(kind.Range())
  {
    AbsentMeansNoIndex("*", ',');
    AbsentMeansNoIndex("*", '/');
    assert Progression(kind.Min(), kind.Max(), 1) == kind.Range();
  }

  lemma {:induction false} JoinHasNo(pieces: seq<string>, c: char, other: char)
    requires other != c && forall p <- pieces :: other !in p
    ensures other !in Join(pieces, c)
  {
    if |pieces| > 1 {
      JoinHasNo(pieces[1..], c, other);
    }
  }

  // ----- A value with a step

  lemma SlashText(a: string, b: string)
    requires Plain(a)
    ensures var text := a + "/" + b;
            && text != "" && IndexOf(text, '/') == |a| && text[..|a|] == a && text[|a| + 1..] == b
  {
    PlainHasNoSeparators(a);
    IndexOfIs(a + "/" + b, '/', |a|);
  }

  lemma PlainBody(kind: Kind, a: string, v: int, every: int)
    requires Plain(a) && ValueMeaning(kind, a) == Some(v)
    ensures BodyMeaning(kind, a, every) == RangeMeaning(kind, v, if every == 1 then v else kind.Max(), every)
  {
    PlainHasNoSeparators(a);
    AbsentMeansNoIndex(a, '-');
    assert a[0] != '*';
  }

  /** A value with a step, whatever text the two have, runs on to the maximum of the field; but with step 1 it is the
      value alone, although a step below 1 means every value from there on. It is refused if stepping on from the
      last value overflows 32 bits. */
  lemma SteppedValueMeans(kind: Kind, a: string, b: string, v: int, n: int)
    requires Plain(a) && ValueMeaning(kind, a) == Some(v) && kind.Min() <= v <= kind.Max()
    requires ParseInt32(b) == Some(n)
    ensures var step := if n < 1 then 1 else n;
            TokenMeaning(kind, a + "/" + b) ==
              if n == 1 then Some({v})
              else if LastMember(v, kind.Max(), step) - kind.Min() + step > INT_MAX then None
              else Some(Progression(v, kind.Max(), step))
  {
    StepToken(kind, a, b, v, n);
    StepRange(kind, v, n);
  }

  lemma StepToken(kind: Kind, a: string, b: string, v: int, n: int)
    requires Plain(a) && ValueMeaning(kind, a) == Some(v) && ParseInt32(b) == Some(n)
    ensures TokenMeaning(kind, a + "/" + b) == RangeMeaning(kind, v, if n == 1 then v else kind.Max(), n)
  {
    SlashText(a, b);
    PlainBody(kind, a, v, n);
  }

  lemma StepRange(kind: Kind, v: int, n: int)
    requires kind.Min() <= v <= kind.Max()
    ensures var step := if n < 1 then 1 else n;
            RangeMeaning(kind, v, if n == 1 then v else kind.Max(), n) ==
              if n == 1 then Some({v})
              else if LastMember(v, kind.Max(), step) - kind.Min() + step > INT_MAX then None
              else Some(Progression(v, kind.Max(), step))
  {
    assert Progression(v, v, 1) == {v};
  }

  /** Numbers of two digits are such texts, and such a step is never refused. */
  lemma SteppedNumberMeans(kind: Kind, v: int, n: int)
    requires kind.Min() <= v <= kind.Max() && 0 <= n < 100
    ensures TokenMeaning(kind, NumberText(v) + "/" + NumberText(n)) ==
            Some(if n == 1 then {v} else Progression(v, kind.Max(), if n == 0 then 1 else n))
  {
    ValueRoundTrip(kind, v, true);
    NumberRoundTrip(n);
    StepToken(kind, NumberText(v), NumberText(n), v, n);
    SmallStep(kind, v, n);
  }

  lemma SmallStep(kind: Kind, v: int, n: int)
    requires kind.Min() <= v <= kind.Max() && 0 <= n < 100
    ensures RangeMeaning(kind, v, if n == 1 then v else kind.Max(), n) ==
            Some(if n == 1 then {v} else Progression(v, kind.Max(), if n == 0 then 1 else n))
  {
    StepRange(kind, v, n);
    StepsFit(kind.Max() - v, if n < 1 then 1 else n);
  }

  lemma StepsFit(distance: nat, step: int)
    requires step >= 1
    ensures 0 <= distance / step * step <= distance
  {
  }
}
