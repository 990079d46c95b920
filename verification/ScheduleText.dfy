/** The text of a whole schedule: five fields separated by blanks. */
module ScheduleTexts {
  import opened Wrappers
  import opened Occurrence
  import opened FieldText
  import opened FieldRoundTrip

  function NonEmpty(pieces: seq<string>): (r: seq<string>)
    ensures forall p <- r :: p != ""
  {
    if pieces == [] then []
    else if pieces[0] == "" then NonEmpty(pieces[1..])
    else [pieces[0]] + NonEmpty(pieces[1..])
  }

  function FieldsMeaning(a: string, b: string, c: string, d: string, e: string): Option<Schedule> {
    match (FieldMeaning(Kind.Minute, a), FieldMeaning(Kind.Hour, b), FieldMeaning(Kind.Day, c),
           FieldMeaning(Kind.Month, d), FieldMeaning(Kind.DayOfWeek, e))
    case (Some(minutes), Some(hours), Some(days), Some(months), Some(daysOfWeek)) =>
      Some(Schedule(minutes, hours, days, months, daysOfWeek))
    case _ => None
  }

  /** The five value sets that an expression denotes, or None where parsing throws. */
  function ScheduleMeaning(expression: string): Option<Schedule> {
    var fields := NonEmpty(Split(expression, ' '));
    if |fields| != 5 then None
    else FieldsMeaning(fields[0], fields[1], fields[2], fields[3], fields[4])
  }

  /** Five texts separated by single blanks. */
  function Spaced(a: string, b: string, c: string, d: string, e: string): string {
    a + " " + b + " " + c + " " + d + " " + e
  }

  function ScheduleText(s: Schedule): string {
    Spaced(SetText(Kind.Minute, s.minutes, true), SetText(Kind.Hour, s.hours, true),
           SetText(Kind.Day, s.days, true), SetText(Kind.Month, s.months, true),
           SetText(Kind.DayOfWeek, s.daysOfWeek, true))
  }

  // ----- Parsed schedules are valid

  lemma RangeMeaningIsProper(kind: Kind, start: int, end: int, interval: int)
    requires start == end == -1 || (0 <= start && 0 <= end)
    requires RangeMeaning(kind, start, end, interval).Some?
    ensures var values := RangeMeaning(kind, start, end, interval).value;
            values <= kind.Range() && exists v :: v in values
  {
    var low := if start <= end then start else end;
    var lo := if low < 0 then kind.Min() else low;
    assert lo in RangeMeaning(kind, start, end, interval).value;
  }

  lemma ParsedDigitsAreNatural(s: string)
    requires s != "" && IsDigit(s[0]) && ParseInt32(s).Some?
    ensures ParseInt32(s).value >= 0
  {
    assert SkipWhite(s) == s;
  }

  lemma ValueMeaningIsNatural(kind: Kind, s: string)
    requires ValueMeaning(kind, s).Some?
    ensures ValueMeaning(kind, s).value >= 0
  {
    if IsDigit(s[0]) {
      ParsedDigitsAreNatural(s);
    }
  }

  lemma BodyMeaningIsProper(kind: Kind, body: string, every: int)
    requires BodyMeaning(kind, body, every).Some?
    ensures BodyMeaning(kind, body, every).value <= kind.Range()
    ensures exists v :: v in BodyMeaning(kind, body, every).value
  {
    if body == "*" {
      RangeMeaningIsProper(kind, -1, -1, every);
    } else {
      var dash := IndexOf(body, '-');
      if dash > 0 {
        var first, last := ValueMeaning(kind, body[..dash]), ValueMeaning(kind, body[dash + 1..]);
        ValueMeaningIsNatural(kind, body[..dash]);
        ValueMeaningIsNatural(kind, body[dash + 1..]);
        RangeMeaningIsProper(kind, first.value, last.value, every);
      } else {
        var v := ValueMeaning(kind, body);
        ValueMeaningIsNatural(kind, body);
        RangeMeaningIsProper(kind, v.value, if every == 1 then v.value else kind.Max(), every);
      }
    }
  }

  lemma TokenMeaningIsProper(kind: Kind, token: string)
    requires TokenMeaning(kind, token).Some?
    ensures TokenMeaning(kind, token).value <= kind.Range()
    ensures exists v :: v in TokenMeaning(kind, token).value
  {
    var slash := IndexOf(token, '/');
    if slash <= 0 {
      BodyMeaningIsProper(kind, token, 1);
    } else {
      BodyMeaningIsProper(kind, token[..slash], ParseInt32(token[slash + 1..]).value);
    }
  }

  lemma UnionIsProper(kind: Kind, tokens: seq<string>)
    requires tokens != [] && UnionAll(Meanings(kind, tokens)).Some?
    ensures UnionAll(Meanings(kind, tokens)).value <= kind.Range()
    ensures exists v :: v in UnionAll(Meanings(kind, tokens)).value
  {
    var meanings := Meanings(kind, tokens);
    UnionAllMembers(meanings);
    forall i | 0 <= i < |tokens|
      ensures meanings[i].Some? && meanings[i].value <= kind.Range() && exists v :: v in meanings[i].value
    {
      assert meanings[i] in meanings;
      TokenMeaningIsProper(kind, tokens[i]);
    }
    var v :| v in meanings[0].value;
    assert v in UnionAll(meanings).value;
  }

  /** A non-empty field text that is accepted denotes a non-empty set of values in range. */
  lemma FieldMeaningIsProper(kind: Kind, text: string)
    requires text != "" && FieldMeaning(kind, text).Some?
    ensures FieldMeaning(kind, text).value <= kind.Range()
    ensures exists v :: v in FieldMeaning(kind, text).value
  {
    if IndexOf(text, ',') > 0 {
      UnionIsProper(kind, Split(text, ','));
    } else {
      TokenMeaningIsProper(kind, text);
    }
  }

  lemma ParsedFieldsAreValid(a: string, b: string, c: string, d: string, e: string)
    requires a != "" && b != "" && c != "" && d != "" && e != ""
    requires FieldsMeaning(a, b, c, d, e).Some?
    ensures FieldsMeaning(a, b, c, d, e).value.Valid()
  {
    FieldMeaningIsProper(Kind.Minute, a);
    FieldMeaningIsProper(Kind.Hour, b);
    FieldMeaningIsProper(Kind.Day, c);
    FieldMeaningIsProper(Kind.Month, d);
    FieldMeaningIsProper(Kind.DayOfWeek, e);
  }

  /** Every accepted expression denotes five non-empty sets in range. */
  lemma ParsedScheduleIsValid(expression: string)
    requires ScheduleMeaning(expression).Some?
    ensures ScheduleMeaning(expression).value.Valid()
  {
    var fields := NonEmpty(Split(expression, ' '));
    assert forall i | 0 <= i < 5 :: fields[i] in fields;
    ParsedFieldsAreValid(fields[0], fields[1], fields[2], fields[3], fields[4]);
  }

  // ----- The round trip

  lemma {:induction false} NonEmptyKeepsAll(pieces: seq<string>)
    requires forall p <- pieces :: p != ""
    ensures NonEmpty(pieces) == pieces
  {
    if pieces != [] {
      assert pieces[0] in pieces && forall p <- pieces[1..] :: p in pieces;
      NonEmptyKeepsAll(pieces[1..]);
    }
  }

  /** A text that Split does not cut and NonEmpty does not drop. */
  predicate IsWord(s: string) {
    s != "" && ' ' !in s
  }

  lemma JoinFive(a: string, b: string, c: string, d: string, e: string)
    ensures Join([a, b, c, d, e], ' ') == Spaced(a, b, c, d, e)
  {
    JoinMore([a], b);
    JoinMore([a, b], c);
    JoinMore([a, b, c], d);
    JoinMore([a, b, c, d], e);
    assert [a] + [b] == [a, b];
    assert [a, b] + [c] == [a, b, c];
    assert [a, b, c] + [d] == [a, b, c, d];
    assert [a, b, c, d] + [e] == [a, b, c, d, e];
  }

  lemma JoinMore(words: seq<string>, w: string)
    requires words != []
    ensures Join(words + [w], ' ') == Join(words, ' ') + " " + w
  {
    JoinAppend(words, w, ' ');
  }

  lemma SplitWords(words: seq<string>)
    requires words != [] && forall w <- words :: IsWord(w)
    ensures NonEmpty(Split(Join(words, ' '), ' ')) == words
  {
    SplitJoin(words, ' ');
    NonEmptyKeepsAll(words);
  }

  lemma SplitFive(a: string, b: string, c: string, d: string, e: string)
    requires IsWord(a) && IsWord(b) && IsWord(c) && IsWord(d) && IsWord(e)
    ensures NonEmpty(Split(Spaced(a, b, c, d, e), ' ')) == [a, b, c, d, e]
  {
    JoinFive(a, b, c, d, e);
    SplitWords([a, b, c, d, e]);
  }

  lemma SpacedMeaning(a: string, b: string, c: string, d: string, e: string)
    requires IsWord(a) && IsWord(b) && IsWord(c) && IsWord(d) && IsWord(e)
    ensures ScheduleMeaning(Spaced(a, b, c, d, e)) == FieldsMeaning(a, b, c, d, e)
  {
    SplitFive(a, b, c, d, e);
  }

  lemma TextOfField(kind: Kind, values: set<int>)
    requires values <= kind.Range() && exists v :: v in values
    ensures IsWord(SetText(kind, values, true)) && FieldMeaning(kind, SetText(kind, values, true)) == Some(values)
  {
    FieldTextRoundTrip(kind, values, true);
  }

  lemma ValidMeansInRange(s: Schedule)
    requires s.Valid()
    ensures s.minutes <= Kind.Minute.Range() && s.hours <= Kind.Hour.Range() && s.days <= Kind.Day.Range()
    ensures s.months <= Kind.Month.Range() && s.daysOfWeek <= Kind.DayOfWeek.Range()
  {
  }

  lemma FieldsMeaningIs(s: Schedule, a: string, b: string, c: string, d: string, e: string)
    requires FieldMeaning(Kind.Minute, a) == Some(s.minutes) && FieldMeaning(Kind.Hour, b) == Some(s.hours)
    requires FieldMeaning(Kind.Day, c) == Some(s.days) && FieldMeaning(Kind.Month, d) == Some(s.months)
    requires FieldMeaning(Kind.DayOfWeek, e) == Some(s.daysOfWeek)
    ensures FieldsMeaning(a, b, c, d, e) == Some(s)
  {
  }

  /** Parsing the text of a schedule gives back the same five value sets, and so the same occurrences. */
  lemma ScheduleTextRoundTrip(s: Schedule)
    requires s.Valid()
    ensures ScheduleMeaning(ScheduleText(s)) == Some(s)
  {
    ValidMeansInRange(s);
    TextOfField(Kind.Minute, s.minutes);
    TextOfField(Kind.Hour, s.hours);
    TextOfField(Kind.Day, s.days);
    TextOfField(Kind.Month, s.months);
    TextOfField(Kind.DayOfWeek, s.daysOfWeek);
    FieldsMeaningIs(s, SetText(Kind.Minute, s.minutes, true), SetText(Kind.Hour, s.hours, true),
                    SetText(Kind.Day, s.days, true), SetText(Kind.Month, s.months, true),
                    SetText(Kind.DayOfWeek, s.daysOfWeek, true));
    SpacedMeaning(SetText(Kind.Minute, s.minutes, true), SetText(Kind.Hour, s.hours, true),
                  SetText(Kind.Day, s.days, true), SetText(Kind.Month, s.months, true),
                  SetText(Kind.DayOfWeek, s.daysOfWeek, true));
  }
}
