/** The grammar of one crontab field: what each form of token means, that there is no other form, and what the
    canonical text looks like. */
module FieldLaws {
  import opened Wrappers
  import opened FieldText
  import opened FieldRoundTrip
  import opened IntegerText

  // ----- Sets of steps

  /** A value is in a progression exactly if it is a whole number of steps from the start and not past the end. */
  lemma ProgressionIs(lo: int, hi: int, step: int, v: int)
    requires step >= 1
    ensures v in Progression(lo, hi, step) <==> v <= hi && exists k: nat :: v == lo + StepsOf(k, step)
  {
    if v in Progression(lo, hi, step) {
      var k := (v - lo) / step;
      WholeSteps(v - lo, step);
      assert k >= 0 && v == lo + StepsOf(k, step);
    }
    if v <= hi && exists k: nat :: v == lo + StepsOf(k, step) {
      var k: nat :| v == lo + StepsOf(k, step);
      MultipleIsOnStep(k, step);
    }
  }

  function StepsOf(k: nat, step: int): int {
    k * step
  }

  lemma WholeSteps(distance: int, step: int)
    requires step >= 1 && distance >= 0 && distance % step == 0
    ensures distance / step >= 0 && StepsOf(distance / step, step) == distance
  {
    assert distance / step >= 0;
    assert distance == step * (distance / step) + distance % step;
    assert step * (distance / step) == distance / step * step;
  }

  lemma MultipleIsOnStep(k: nat, step: int)
    requires step >= 1
    ensures StepsOf(k, step) >= 0 && StepsOf(k, step) % step == 0
  {
    var x, q := k * step, k * step / step;
    var d := k - q;
    assert d * step == k * step - q * step && x == q * step + x % step;
    assert d >= 1 ==> d * step >= step;
    assert d <= -1 ==> d * step <= -step;
  }

  /** The values from lo to hi by n, where a step below 1 is 1; or a refusal, where a bound is not in the field or
      stepping on from the last value overflows 32 bits. */
  function Steps(kind: Kind, lo: int, hi: int, n: int): Option<set<int>> {
    var step := if n < 1 then 1 else n;
    if lo < kind.Min() || hi > kind.Max() || LastMember(lo, hi, step) - kind.Min() + step > INT_MAX then None
    else Some(Progression(lo, hi, step))
  }

  /** Within range, a step is refused only if it is among the 59 greatest 32-bit integers. */
  lemma StepsAccepted(kind: Kind, lo: int, hi: int, n: int)
    requires kind.Min() <= lo <= hi <= kind.Max() && n <= INT_MAX - 59
    ensures Steps(kind, lo, hi, n).Some?
  {
    StepsFit(hi - lo, if n < 1 then 1 else n);
  }

  /** A step beyond the last value is from the first value to nowhere, or refused. */
  lemma BigStep(kind: Kind, lo: int, hi: int, n: int)
    requires kind.Min() <= lo <= hi <= kind.Max() && hi - lo < n
    ensures Steps(kind, lo, hi, n) == if lo - kind.Min() + n > INT_MAX then None else Some({lo})
  {
    SmallDistance(hi - lo, n);
    forall v | lo <= v <= hi ensures OnStep(lo, v, n) <==> v == lo {
      SmallDistance(v - lo, n);
    }
    assert Progression(lo, hi, n) == {lo};
  }

  lemma SmallDistance(distance: nat, n: int)
    requires distance < n
    ensures distance / n == 0 && distance % n == distance
  {
  }

  lemma StepOneIsAll(kind: Kind, lo: int, hi: int)
    requires kind.Min() <= lo <= hi <= kind.Max()
    ensures Steps(kind, lo, hi, 1) == Some(Interval(lo, hi))
  {
    assert Progression(lo, hi, 1) == Interval(lo, hi);
  }

  function Lesser(a: int, b: int): int {
    if a <= b then a else b
  }

  function Greater(a: int, b: int): int {
    if a <= b then b else a
  }

  lemma RangeIsSteps(kind: Kind, a: int, b: int, n: int)
    requires a >= 0 && b >= 0
    ensures RangeMeaning(kind, a, b, n) == Steps(kind, Lesser(a, b), Greater(a, b), n)
  {
  }

  lemma WholeRangeIsSteps(kind: Kind, n: int)
    ensures RangeMeaning(kind, -1, -1, n) == Steps(kind, kind.Min(), kind.Max(), n)
  {
  }

  // ----- Tokens

  /** A text for a value: no separator of the grammar occurs in it. */
  predicate Atom(s: string) {
    s != "" && s != "*" && '-' !in s && '/' !in s && ',' !in s
  }

  datatype Body = Star | Value(a: string) | Dash(a: string, c: string)

  function BodyText(body: Body): string {
    match body
    case Star => "*"
    case Value(a) => a
    case Dash(a, c) => a + "-" + c
  }

  predicate IsBody(kind: Kind, body: Body) {
    match body
    case Star => true
    case Value(a) => Atom(a) && ValueMeaning(kind, a).Some?
    case Dash(a, c) => Atom(a) && Atom(c) && ValueMeaning(kind, a).Some? && ValueMeaning(kind, c).Some?
  }

  /** A body by a step: a star is the whole range, two values are a range in either order, and one value runs on to
      the maximum of the field, except with step 1, which is no step. */
  function BodySteps(kind: Kind, body: Body, n: int): Option<set<int>>
    requires IsBody(kind, body)
  {
    match body
    case Star => Steps(kind, kind.Min(), kind.Max(), n)
    case Value(a) =>
      var v := ValueMeaning(kind, a).value;
      var w := if n == 1 then v else kind.Max();
      Steps(kind, Lesser(v, w), Greater(v, w), n)
    case Dash(a, c) =>
      var v, w := ValueMeaning(kind, a).value, ValueMeaning(kind, c).value;
      Steps(kind, Lesser(v, w), Greater(v, w), n)
  }

  lemma BodyMeans(kind: Kind, body: Body, n: int)
    requires IsBody(kind, body)
    ensures BodyMeaning(kind, BodyText(body), n) == BodySteps(kind, body, n)
  {
    match body {
      case Star => WholeRangeIsSteps(kind, n);
      case Value(a) => ValueMeans(kind, a, n);
      case Dash(a, c) => DashMeans(kind, a, c, n);
    }
  }

  lemma ValueMeans(kind: Kind, a: string, n: int)
    requires Atom(a) && ValueMeaning(kind, a).Some?
    ensures BodyMeaning(kind, a, n) == BodySteps(kind, Value(a), n)
  {
    AbsentMeansNoIndex(a, '-');
    ValueIsNatural(kind, a);
    RangeIsSteps(kind, ValueMeaning(kind, a).value, if n == 1 then ValueMeaning(kind, a).value else kind.Max(), n);
  }

  lemma DashMeans(kind: Kind, a: string, c: string, n: int)
    requires Atom(a) && Atom(c) && ValueMeaning(kind, a).Some? && ValueMeaning(kind, c).Some?
    ensures BodyMeaning(kind, a + "-" + c, n) == BodySteps(kind, Dash(a, c), n)
  {
    DashSplits(a, c);
    ValueIsNatural(kind, a);
    ValueIsNatural(kind, c);
    RangeIsSteps(kind, ValueMeaning(kind, a).value, ValueMeaning(kind, c).value, n);
  }

  lemma DashSplits(a: string, c: string)
    requires Atom(a)
    ensures var text := a + "-" + c;
            text != "*" && IndexOf(text, '-') == |a| && text[..|a|] == a && text[|a| + 1..] == c
  {
    IndexOfIs(a + "-" + c, '-', |a|);
  }

  lemma ValueIsNatural(kind: Kind, s: string)
    requires ValueMeaning(kind, s).Some?
    ensures ValueMeaning(kind, s).value >= 0
  {
    if IsDigit(s[0]) {
      var white, sign, digits, after, nuls := IntegerShape(s);
      assert white == "" && sign == "";
      IntegerMeans(white, sign, digits, after, nuls);
    }
  }

  /** A token without a step is its body by step 1. */
  lemma TokenMeans(kind: Kind, body: Body)
    requires IsBody(kind, body)
    ensures TokenMeaning(kind, BodyText(body)) == BodySteps(kind, body, 1)
  {
    BodyHasNoSlash(body, kind);
    AbsentMeansNoIndex(BodyText(body), '/');
    BodyMeans(kind, body, 1);
  }

  /** A token with a step is its body by that step, which may be any text of an integer. */
  lemma SteppedTokenMeans(kind: Kind, body: Body, step: string, n: int)
    requires IsBody(kind, body) && ParseInt32(step) == Some(n)
    ensures TokenMeaning(kind, BodyText(body) + "/" + step) == BodySteps(kind, body, n)
  {
    BodyHasNoSlash(body, kind);
    SlashSplits(BodyText(body), step);
    BodyMeans(kind, body, n);
  }

  lemma BodyHasNoSlash(body: Body, kind: Kind)
    requires IsBody(kind, body)
    ensures BodyText(body) != "" && '/' !in BodyText(body)
  {
  }

  lemma SlashSplits(text: string, step: string)
    requires text != "" && '/' !in text
    ensures var token := text + "/" + step;
            IndexOf(token, '/') == |text| && token[..|text|] == text && token[|text| + 1..] == step
  {
    IndexOfIs(text + "/" + step, '/', |text|);
  }

  /** A star by a step beyond the maximum is the minimum alone. */
  lemma BigStarStep(kind: Kind, step: string, n: int)
    requires ParseInt32(step) == Some(n) && kind.Max() - kind.Min() < n
    ensures TokenMeaning(kind, BodyText(Star) + "/" + step) == Some({kind.Min()})
  {
    SteppedTokenMeans(kind, Star, step, n);
    BigStep(kind, kind.Min(), kind.Max(), n);
  }

  /** A value by a step beyond the maximum is the value alone, or refused if the sum overflows 32 bits. */
  lemma BigValueStep(kind: Kind, a: string, v: int, step: string, n: int)
    requires Atom(a) && ValueMeaning(kind, a) == Some(v) && kind.Min() <= v <= kind.Max()
    requires ParseInt32(step) == Some(n) && kind.Max() - v < n && n != 1
    ensures TokenMeaning(kind, BodyText(Value(a)) + "/" + step) ==
            if v - kind.Min() + n > INT_MAX then None else Some({v})
  {
    SteppedTokenMeans(kind, Value(a), step, n);
    BigStep(kind, v, kind.Max(), n);
  }

  // ----- There is no other token

  /** A text that is a value is an atom, if it has neither slash nor comma. */
  lemma ValueIsAtom(kind: Kind, s: string)
    requires ValueMeaning(kind, s).Some? && '/' !in s && ',' !in s
    ensures Atom(s)
  {
    if IsDigit(s[0]) {
      DigitFirst(s);
    } else {
      NameLetters(kind, s);
    }
    NoDashNoStar(s);
  }

  lemma NoDashNoStar(s: string)
    requires forall c <- s :: IsDigit(c) || IsWhite(c) || c == '\0' || 'A' <= c <= 'Z' || 'a' <= c <= 'z'
    ensures '-' !in s && s != "*"
  {
    assert !IsDigit('-') && !IsWhite('-');
    assert s == "*" ==> '*' in s;
  }

  /** What abbreviates a name consists of letters, as the name does. */
  lemma NameLetters(kind: Kind, s: string)
    requires s != "" && NameIndex(kind.Names(), s).Some?
    ensures forall c <- s :: 'A' <= c <= 'Z' || 'a' <= c <= 'z'
  {
    var i := NameIndex(kind.Names(), s).value;
    var name := kind.Names()[i];
    NameIsLetters(kind, i);
    forall c <- s ensures 'A' <= c <= 'Z' || 'a' <= c <= 'z' {
      var k :| 0 <= k < |s| && s[k] == c;
      assert name[k] in name && Lower(s[k]) == Lower(name[k]);
    }
  }

  lemma NameIsLetters(kind: Kind, i: int)
    requires 0 <= i < |kind.Names()|
    ensures forall c <- kind.Names()[i] :: 'A' <= c <= 'Z' || 'a' <= c <= 'z'
  {
  }

  /** What starts with a separator is not a value. */
  lemma SeparatorIsNoValue(kind: Kind, s: string)
    requires s != "" && s[0] in "*-/,"
    ensures ValueMeaning(kind, s).None?
  {
    assert s[0] in s;
    if NameIndex(kind.Names(), s).Some? {
      NameLetters(kind, s);
    }
  }

  lemma BodyShape(kind: Kind, text: string, n: int) returns (body: Body)
    requires BodyMeaning(kind, text, n).Some? && '/' !in text && ',' !in text
    ensures IsBody(kind, body) && BodyText(body) == text
  {
    var dash := IndexOf(text, '-');
    if text == "*" {
      body := Star;
    } else if dash > 0 {
      body := DashShape(kind, text, dash, n);
    } else {
      ValueIsAtom(kind, text);
      body := Value(text);
    }
  }

  lemma DashShape(kind: Kind, text: string, dash: nat, n: int) returns (body: Body)
    requires BodyMeaning(kind, text, n).Some? && '/' !in text && ',' !in text && text != "*"
    requires IndexOf(text, '-') == dash && 0 < dash < |text|
    ensures IsBody(kind, body) && BodyText(body) == text
  {
    var a, c := text[..dash], text[dash + 1..];
    Recombined(text, dash, "-");
    NotInParts(text, dash, '/');
    NotInParts(text, dash, ',');
    DashedValues(kind, text, dash, n);
    ValueIsAtom(kind, a);
    ValueIsAtom(kind, c);
    body := Dash(a, c);
  }

  lemma DashedValues(kind: Kind, text: string, dash: nat, n: int)
    requires BodyMeaning(kind, text, n).Some? && text != "*" && IndexOf(text, '-') == dash && 0 < dash < |text|
    ensures ValueMeaning(kind, text[..dash]).Some? && ValueMeaning(kind, text[dash + 1..]).Some?
  {
  }

  lemma Recombined(s: string, i: nat, separator: string)
    requires i < |s| && separator == [s[i]]
    ensures s == s[..i] + separator + s[i + 1..]
  {
  }

  lemma NotInParts(s: string, i: nat, c: char)
    requires i < |s| && c !in s
    ensures c !in s[..i] && c !in s[i + 1..]
  {
  }

  /** Every accepted token of a list is a star, a value or two values, by an integer or by nothing. */
  lemma TokenShape(kind: Kind, token: string) returns (body: Body, step: Option<string>)
    requires TokenMeaning(kind, token).Some? && ',' !in token
    ensures IsBody(kind, body)
    ensures match step
            case None => token == BodyText(body)
            case Some(b) => ParseInt32(b).Some? && token == BodyText(body) + "/" + b
  {
    var slash := IndexOf(token, '/');
    if slash > 0 {
      var text, b, n := SteppedToken(kind, token, slash);
      body := BodyShape(kind, text, n);
      step := Some(b);
    } else {
      UnsteppedToken(kind, token);
      body := BodyShape(kind, token, 1);
      step := None;
    }
  }

  lemma SteppedToken(kind: Kind, token: string, slash: nat) returns (text: string, b: string, n: int)
    requires TokenMeaning(kind, token).Some? && ',' !in token && IndexOf(token, '/') == slash > 0
    ensures token == text + "/" + b && ParseInt32(b) == Some(n)
    ensures BodyMeaning(kind, text, n).Some? && '/' !in text && ',' !in text
  {
    text, b := token[..slash], token[slash + 1..];
    Recombined(token, slash, "/");
    NotInParts(token, slash, ',');
    SlashedParts(kind, token, slash);
    n := ParseInt32(b).value;
  }

  lemma SlashedParts(kind: Kind, token: string, slash: nat)
    requires TokenMeaning(kind, token).Some? && IndexOf(token, '/') == slash && 0 < slash < |token|
    ensures var step := ParseInt32(token[slash + 1..]);
            step.Some? && BodyMeaning(kind, token[..slash], step.value).Some?
  {
  }

  lemma UnsteppedToken(kind: Kind, token: string)
    requires TokenMeaning(kind, token).Some? && ',' !in token && IndexOf(token, '/') <= 0
    ensures BodyMeaning(kind, token, 1).Some? && '/' !in token
  {
    if IndexOf(token, '/') == 0 {
      LeadingSeparatorIsRefused(kind, token, 1);
    }
  }

  /** A body that starts with a separator other than the star is refused, and so is a star before a value. */
  lemma LeadingSeparatorIsRefused(kind: Kind, text: string, n: int)
    requires text != "" && text != "*" && text[0] in "*-/,"
    ensures BodyMeaning(kind, text, n).None?
  {
    SeparatorIsNoValue(kind, text);
    var dash := IndexOf(text, '-');
    if dash > 0 {
      SeparatorIsNoValue(kind, text[..dash]);
    }
  }

  // ----- Lists

  /** Joining at the separator undoes splitting at it. */
  lemma {:induction false} JoinSplit(s: string, c: char)
    ensures Join(Split(s, c), c) == s
    decreases |s|
  {
    var i := IndexOf(s, c);
    if i != -1 {
      JoinSplit(s[i + 1..], c);
      assert s == s[..i] + [c] + s[i + 1..];
    }
  }

  /** A text that starts with a comma is not a token. */
  lemma LeadingCommaIsRefused(kind: Kind, text: string)
    requires text != "" && text[0] == ','
    ensures TokenMeaning(kind, text).None?
  {
    var slash := IndexOf(text, '/');
    if slash <= 0 {
      LeadingSeparatorIsRefused(kind, text, 1);
    } else {
      var step := ParseInt32(text[slash + 1..]);
      LeadingSeparatorIsRefused(kind, text[..slash], if step.Some? then step.value else 1);
    }
  }

  /** A list of tokens denotes the union of what they denote, and is refused if one of them is, an empty one
      included. */
  lemma ListIsUnion(kind: Kind, tokens: seq<string>)
    requires tokens != [] && forall t <- tokens :: ',' !in t
    ensures ExpressionMeaning(kind, Join(tokens, ',')) == UnionAll(Meanings(kind, tokens))
  {
    var text := Join(tokens, ',');
    if |tokens| == 1 {
      AbsentMeansNoIndex(text, ',');
      UnionOfOne(Meanings(kind, tokens));
    } else {
      assert text[..|tokens[0]|] == tokens[0];
      IndexOfIs(text, ',', |tokens[0]|);
      if tokens[0] == "" {
        LeadingCommaIsRefused(kind, text);
        UnionAllMembers(Meanings(kind, tokens));
        assert Meanings(kind, tokens)[0] in Meanings(kind, tokens);
      } else {
        SplitJoin(tokens, ',');
      }
    }
  }

  // ----- Names

  /** Two texts that differ in the case of their letters only name the same value. */
  lemma CaseDoesNotMatter(kind: Kind, s: string, t: string)
    requires s != "" && |s| == |t| && !IsDigit(s[0]) && forall i | 0 <= i < |s| :: Lower(s[i]) == Lower(t[i])
    ensures ValueMeaning(kind, s) == ValueMeaning(kind, t)
  {
    assert !IsDigit(t[0]);
    forall name <- kind.Names() ensures IsPrefixIgnoringCase(s, name) <==> IsPrefixIgnoringCase(t, name) {
    }
    SameIndex(kind.Names(), s, t);
  }

  lemma {:induction false} SameIndex(names: seq<string>, s: string, t: string)
    requires forall name <- names :: IsPrefixIgnoringCase(s, name) <==> IsPrefixIgnoringCase(t, name)
    ensures NameIndex(names, s) == NameIndex(names, t)
  {
    if names != [] {
      assert names[0] in names && forall name <- names[1..] :: name in names;
      SameIndex(names[1..], s, t);
    }
  }

  /** The first three letters of a name, in any case, name its value. */
  lemma AbbreviationMeans(kind: Kind, i: int, s: string)
    requires 0 <= i < |kind.Names()| && |s| == 3 && IsPrefixIgnoringCase(s, kind.Names()[i])
    ensures ValueMeaning(kind, s) == Some(i + kind.Min())
  {
    forall j | 0 <= j < i ensures !IsPrefixIgnoringCase(s, kind.Names()[j]) {
      FirstThreeDiffer(kind, j, i);
      ThreeLetters(s, kind.Names()[i], kind.Names()[j]);
    }
    FirstPrefix(kind.Names(), s, i);
    NameLetters(kind, s);
    assert s[0] in s;
  }

  lemma ThreeLetters(s: string, a: string, b: string)
    requires |s| == 3 && |a| >= 3 && |b| >= 3 && IsPrefixIgnoringCase(s, a)
    requires Lower(a[0]) != Lower(b[0]) || Lower(a[1]) != Lower(b[1]) || Lower(a[2]) != Lower(b[2])
    ensures !IsPrefixIgnoringCase(s, b)
  {
    assert Lower(s[0]) == Lower(a[0]) && Lower(s[1]) == Lower(a[1]) && Lower(s[2]) == Lower(a[2]);
  }

  lemma FirstThreeDiffer(kind: Kind, j: int, i: int)
    requires 0 <= j < i < |kind.Names()|
    ensures var a, b := kind.Names()[i], kind.Names()[j];
            && |a| >= 3 && |b| >= 3
            && (Lower(a[0]) != Lower(b[0]) || Lower(a[1]) != Lower(b[1]) || Lower(a[2]) != Lower(b[2]))
  {
  }

  /** The months are 1 to 12, from January on. */
  lemma KnownMonths(i: nat)
    requires i < 12
    ensures ValueMeaning(Kind.Month, ["jan", "feb", "mar", "apr", "may", "jun",
                                      "jul", "aug", "sep", "oct", "nov", "dec"][i]) == Some(i + 1)
  {
    var months := ["jan", "feb", "mar", "apr", "may", "jun", "jul", "aug", "sep", "oct", "nov", "dec"];
    MonthLetters(i);
    AbbreviationMeans(Kind.Month, i, months[i]);
  }

  lemma MonthLetters(i: nat)
    requires i < 12
    ensures IsPrefixIgnoringCase(["jan", "feb", "mar", "apr", "may", "jun",
                                  "jul", "aug", "sep", "oct", "nov", "dec"][i], Kind.Month.Names()[i])
  {
  }

  /** The days of the week are 0 to 6, from Sunday on. */
  lemma KnownDays(i: nat)
    requires i < 7
    ensures ValueMeaning(Kind.DayOfWeek, ["SUN", "MON", "TUE", "WED", "THU", "FRI", "SAT"][i]) == Some(i)
  {
    var days := ["SUN", "MON", "TUE", "WED", "THU", "FRI", "SAT"];
    DayLetters(i);
    AbbreviationMeans(Kind.DayOfWeek, i, days[i]);
  }

  lemma DayLetters(i: nat)
    requires i < 7
    ensures IsPrefixIgnoringCase(["SUN", "MON", "TUE", "WED", "THU", "FRI", "SAT"][i], Kind.DayOfWeek.Names()[i])
  {
  }

  /** The other fields have no names. */
  lemma NoNames(kind: Kind, s: string)
    requires !kind.Month? && !kind.DayOfWeek? && s != "" && !IsDigit(s[0])
    ensures ValueMeaning(kind, s).None?
  {
  }

  // ----- The canonical text

  /** A value is printed as its decimal digits or as its full name, and means itself. */
  predicate PrintsValue(kind: Kind, text: string, v: int, noNames: bool) {
    && v >= 0 && ValueMeaning(kind, text) == Some(v)
    && if noNames || kind.Names() == [] then text == Decimal(v) else text in kind.Names()
  }

  /** How the text of one run reads: one value, or the first and the last with a dash between them. */
  predicate Prints(kind: Kind, piece: string, run: Run, noNames: bool) {
    if run.first == run.last then '-' !in piece && PrintsValue(kind, piece, run.first, noNames)
    else
      var dash := IndexOf(piece, '-');
      && dash > 0
      && PrintsValue(kind, piece[..dash], run.first, noNames)
      && PrintsValue(kind, piece[dash + 1..], run.last, noNames)
  }

  lemma ValueTextPrints(kind: Kind, v: int, noNames: bool)
    requires kind.Min() <= v <= kind.Max()
    ensures Plain(ValueText(kind, v, noNames)) && PrintsValue(kind, ValueText(kind, v, noNames), v, noNames)
  {
    ValueRoundTrip(kind, v, noNames);
    if noNames || kind.Names() == [] {
      NumberTextIsDecimal(v);
    }
  }

  lemma RunTextPrints(kind: Kind, run: Run, noNames: bool)
    requires RunInRange(kind, run)
    ensures Prints(kind, RunText(kind, run, noNames), run, noNames)
  {
    ValueTextPrints(kind, run.first, noNames);
    ValueTextPrints(kind, run.last, noNames);
    var a, c := ValueText(kind, run.first, noNames), ValueText(kind, run.last, noNames);
    PlainHasNoSeparators(a);
    DashText(a, c);
  }

  /** The canonical text of a set is a star for the whole range; otherwise its pieces are the maximal runs of the
      set, in ascending order. */
  lemma TextListsRuns(kind: Kind, values: set<int>, noNames: bool) returns (runs: seq<Run>)
    requires values <= kind.Range() && values != {}
    ensures AreMaximalRuns(runs, values, kind.Min(), kind.Max())
    ensures SetText(kind, values, noNames) == "*" <==> values == kind.Range()
    ensures values != kind.Range() ==>
      var pieces := Split(SetText(kind, values, noNames), ',');
      |pieces| == |runs| && forall i | 0 <= i < |runs| :: Prints(kind, pieces[i], runs[i], noNames)
  {
    runs := RunsFrom(values, kind.Min(), kind.Max());
    RunsInRange(kind, values, kind.Min());
    RunsAreMaximal(values, kind.Min(), kind.Max());
    RunsOfRangeAndOfNothing(kind, runs, values);
    if runs != [Run(kind.Min(), kind.Max())] {
      PiecesAreRuns(kind, runs, noNames);
      if values == kind.Range() {
        RangeIsOneRun(kind, runs, values);
      }
    }
  }

  lemma PiecesAreRuns(kind: Kind, runs: seq<Run>, noNames: bool)
    requires runs != [] && forall r <- runs :: RunInRange(kind, r)
    ensures var pieces := Split(Join(RunTexts(kind, runs, noNames), ','), ',');
            |pieces| == |runs| && forall i | 0 <= i < |runs| :: Prints(kind, pieces[i], runs[i], noNames)
    ensures Join(RunTexts(kind, runs, noNames), ',') != "*"
  {
    var texts := RunTexts(kind, runs, noNames);
    forall i | 0 <= i < |texts|
      ensures ',' !in texts[i] && texts[i] != "*" && Prints(kind, texts[i], runs[i], noNames)
    {
      RunRoundTrip(kind, runs[i], noNames);
      RunTextPrints(kind, runs[i], noNames);
      PrintedIsNoStar(kind, texts[i], runs[i], noNames);
    }
    SplitJoin(texts, ',');
    AbsentMeansNoIndex("*", ',');
    assert texts[0] != "*";
  }

  lemma PrintedIsNoStar(kind: Kind, piece: string, run: Run, noNames: bool)
    requires Prints(kind, piece, run, noNames)
    ensures piece != "*"
  {
    if piece == "*" {
      AbsentMeansNoIndex("*", '-');
      SeparatorIsNoValue(kind, "*");
    }
  }

  lemma RangeIsOneRun(kind: Kind, runs: seq<Run>, values: set<int>)
    requires AreMaximalRuns(runs, values, kind.Min(), kind.Max()) && values == kind.Range()
    ensures runs == [Run(kind.Min(), kind.Max())]
  {
    var one := [Run(kind.Min(), kind.Max())];
    assert forall v <- values :: v in one[0].Values();
    MaximalRunsAreUnique(runs, one, values, kind.Min(), kind.Max());
  }

  lemma IntervalIsOneRun(first: int, last: int, lo: int, hi: int)
    requires lo <= first <= last <= hi
    ensures AreMaximalRuns([Run(first, last)], Interval(first, last), lo, hi)
    ensures RunsFrom(Interval(first, last), lo, hi) == [Run(first, last)]
  {
    var values, one := Interval(first, last), [Run(first, last)];
    assert forall v <- values :: v in one[0].Values();
    RunsAreMaximal(values, lo, hi);
    MaximalRunsAreUnique(RunsFrom(values, lo, hi), one, values, lo, hi);
  }

  /** An interval of values is printed from its first to its last value. */
  lemma IntervalText(kind: Kind, first: int, last: int, noNames: bool)
    requires kind.Min() <= first <= last <= kind.Max() && Interval(first, last) != kind.Range()
    ensures SetText(kind, Interval(first, last), noNames) == RunText(kind, Run(first, last), noNames)
  {
    IntervalIsOneRun(first, last, kind.Min(), kind.Max());
    var texts := RunTexts(kind, [Run(first, last)], noNames);
    assert texts == [RunText(kind, Run(first, last), noNames)];
  }

  lemma RangeText(kind: Kind, noNames: bool)
    ensures SetText(kind, kind.Range(), noNames) == "*"
  {
    assert kind.Min() in kind.Range();
    var runs := TextListsRuns(kind, kind.Range(), noNames);
  }
}
