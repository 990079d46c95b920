/** The text of a whole schedule: how many fields it has, which is which, and how it is printed. */
module ScheduleLaws {
  import opened Wrappers
  import opened Occurrence
  import opened FieldText
  import opened FieldRoundTrip
  import opened FieldLaws
  import opened ScheduleTexts

  /** The fields of a text: what blanks separate. */
  function Words(text: string): seq<string> {
    NonEmpty(Split(text, ' '))
  }

  /** A text that does not have five fields is refused. */
  lemma FiveFields(words: seq<string>)
    requires words != [] && forall w <- words :: IsWord(w)
    ensures ScheduleMeaning(Join(words, ' ')).Some? ==> |words| == 5
  {
    SplitWords(words);
  }

  /** The first field is the minutes, and then come hours, days, months and days of the week; a text is accepted
      exactly if all five fields are. */
  lemma FieldsInOrder(a: string, b: string, c: string, d: string, e: string, s: Schedule)
    requires IsWord(a) && IsWord(b) && IsWord(c) && IsWord(d) && IsWord(e)
    ensures ScheduleMeaning(Spaced(a, b, c, d, e)) == Some(s) <==>
            && FieldMeaning(Kind.Minute, a) == Some(s.minutes) && FieldMeaning(Kind.Hour, b) == Some(s.hours)
            && FieldMeaning(Kind.Day, c) == Some(s.days) && FieldMeaning(Kind.Month, d) == Some(s.months)
            && FieldMeaning(Kind.DayOfWeek, e) == Some(s.daysOfWeek)
    ensures ScheduleMeaning(Spaced(a, b, c, d, e)).Some? <==>
            && FieldMeaning(Kind.Minute, a).Some? && FieldMeaning(Kind.Hour, b).Some?
            && FieldMeaning(Kind.Day, c).Some? && FieldMeaning(Kind.Month, d).Some?
            && FieldMeaning(Kind.DayOfWeek, e).Some?
  {
    SpacedMeaning(a, b, c, d, e);
  }

  // ----- Blanks

  lemma SplitAt(text: string, c: char, i: nat)
    requires i < |text| && text[i] == c && c !in text[..i]
    ensures Split(text, c) == [text[..i]] + Split(text[i + 1..], c)
  {
    IndexOfIs(text, c, i);
  }

  lemma CutInFirst(a: string, b: string, c: char, i: nat)
    requires i < |a|
    ensures (a + [c] + b)[..i] == a[..i] && (a + [c] + b)[i] == a[i] && (a + [c] + b)[i + 1..] == a[i + 1..] + [c] + b
  {
  }

  lemma CutBetween(a: string, b: string, c: char)
    ensures (a + [c] + b)[..|a|] == a && (a + [c] + b)[|a|] == c && (a + [c] + b)[|a| + 1..] == b
  {
  }

  lemma Associative(a: seq<string>, b: seq<string>, c: seq<string>)
    ensures a + b + c == a + (b + c)
  {
  }

  lemma {:induction false} SplitSum(a: string, b: string, c: char)
    ensures Split(a + [c] + b, c) == Split(a, c) + Split(b, c)
    decreases |a|
  {
    var i := IndexOf(a, c);
    if i == -1 {
      CutBetween(a, b, c);
      SplitAt(a + [c] + b, c, |a|);
    } else {
      CutInFirst(a, b, c, i);
      SplitAt(a + [c] + b, c, i);
      SplitAt(a, c, i);
      SplitSum(a[i + 1..], b, c);
      Associative([a[..i]], Split(a[i + 1..], c), Split(b, c));
    }
  }

  lemma {:induction false} NonEmptySum(a: seq<string>, b: seq<string>)
    ensures NonEmpty(a + b) == NonEmpty(a) + NonEmpty(b)
  {
    if a == [] {
      assert a + b == b;
    } else {
      assert (a + b)[1..] == a[1..] + b;
      NonEmptySum(a[1..], b);
    }
  }

  lemma WordsSum(a: string, b: string)
    ensures Words(a + " " + b) == Words(a) + Words(b)
  {
    SplitSum(a, b, ' ');
    NonEmptySum(Split(a, ' '), Split(b, ' '));
  }

  lemma SameWordsSameMeaning(a: string, b: string)
    requires Words(a) == Words(b)
    ensures ScheduleMeaning(a) == ScheduleMeaning(b)
  {
  }

  lemma NoWords()
    ensures Words("") == []
  {
  }

  lemma LeadingBlank(a: string)
    ensures Words(" " + a) == Words(a)
  {
    NoWords();
    WordsSum("", a);
    assert "" + " " + a == " " + a && [] + Words(a) == Words(a);
  }

  lemma TrailingBlank(a: string)
    ensures Words(a + " ") == Words(a)
  {
    NoWords();
    WordsSum(a, "");
    assert a + " " + "" == a + " " && Words(a) + [] == Words(a);
  }

  /** Blanks before, after and between the fields, as many as there are, do not matter. */
  lemma BlanksDoNotMatter(a: string, b: string)
    ensures ScheduleMeaning(" " + a) == ScheduleMeaning(a) == ScheduleMeaning(a + " ")
    ensures ScheduleMeaning(a + " " + " " + b) == ScheduleMeaning(a + " " + b)
  {
    LeadingBlank(a);
    TrailingBlank(a);
    SameWordsSameMeaning(" " + a, a);
    SameWordsSameMeaning(a + " ", a);
    WordsSum(a, b);
    WordsSum(a + " ", b);
    SameWordsSameMeaning(a + " " + " " + b, a + " " + b);
  }

  // ----- What is printed

  /** The canonical text of one field, with numbers: a star for all values, or the maximal runs in ascending order. */
  ghost predicate PrintsField(kind: Kind, text: string, values: set<int>) {
    && (text == "*" <==> values == kind.Range())
    && (values != kind.Range() ==> exists runs ::
          && AreMaximalRuns(runs, values, kind.Min(), kind.Max())
          && |Split(text, ',')| == |runs|
          && forall i | 0 <= i < |runs| :: Prints(kind, Split(text, ',')[i], runs[i], true))
  }

  /** A schedule is printed as its five fields in order, with one blank between each two. */
  lemma ScheduleIsPrinted(s: Schedule)
    returns (minutes: string, hours: string, days: string, months: string, daysOfWeek: string)
    requires s.Valid()
    ensures Split(ScheduleText(s), ' ') == [minutes, hours, days, months, daysOfWeek]
    ensures PrintsField(Kind.Minute, minutes, s.minutes) && PrintsField(Kind.Hour, hours, s.hours)
    ensures PrintsField(Kind.Day, days, s.days) && PrintsField(Kind.Month, months, s.months)
    ensures PrintsField(Kind.DayOfWeek, daysOfWeek, s.daysOfWeek)
  {
    ValidMeansInRange(s);
    minutes := FieldIsPrinted(Kind.Minute, s.minutes);
    hours := FieldIsPrinted(Kind.Hour, s.hours);
    days := FieldIsPrinted(Kind.Day, s.days);
    months := FieldIsPrinted(Kind.Month, s.months);
    daysOfWeek := FieldIsPrinted(Kind.DayOfWeek, s.daysOfWeek);
    SplitSpaced(minutes, hours, days, months, daysOfWeek);
  }

  lemma FieldIsPrinted(kind: Kind, values: set<int>) returns (text: string)
    requires values <= kind.Range() && exists v :: v in values
    ensures text == SetText(kind, values, true) && IsWord(text) && PrintsField(kind, text, values)
  {
    text := SetText(kind, values, true);
    TextOfField(kind, values);
    var runs := TextListsRuns(kind, values, true);
  }

  lemma SplitSpaced(a: string, b: string, c: string, d: string, e: string)
    requires IsWord(a) && IsWord(b) && IsWord(c) && IsWord(d) && IsWord(e)
    ensures Split(Spaced(a, b, c, d, e), ' ') == [a, b, c, d, e]
  {
    JoinFive(a, b, c, d, e);
    SplitJoin([a, b, c, d, e], ' ');
  }
}
