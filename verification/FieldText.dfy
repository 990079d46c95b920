/** The text of one crontab field: what a text means as a set of values, and the canonical text of a
    set. CrontabField parses and prints by loops that are proved against these definitions. */
module FieldText {
  import opened Wrappers

  const INT_MIN := -0x8000_0000
  const INT_MAX := 0x7fff_ffff

  predicate Between(lo: int, v: int, hi: int) {
    lo <= v <= hi
  }

  function Interval(lo: int, hi: int): set<int> {
    set v | lo <= v <= hi && Between(lo, v, hi)
  }

  /** r is the least member of values. */
  ghost predicate IsFirst(values: set<int>, r: int) {
    r in values && forall v <- values :: r <= v
  }

  /** r is the least member of values that is not before start, or -1 if there is none. */
  ghost predicate IsNext(values: set<int>, start: int, r: int) {
    if r == -1 then forall v <- values :: v < start
    else r in values && start <= r && forall v <- values :: start <= v ==> r <= v
  }

  /** What is visited by searching from the first member, and then again from just after each one found. */
  ghost predicate IsWalk(values: set<int>, visited: seq<int>) {
    var n := |visited|;
    && n > 0
    && if n == 1 then IsFirst(values, visited[0])
       else
         && IsWalk(values, visited[..n - 1])
         && visited[n - 1] != -1 && IsNext(values, visited[n - 2] + 1, visited[n - 1])
  }

  /** A walk is ascending, and when nothing more is found it has visited every member. */
  lemma {:induction false} WalkVisitsAll(values: set<int>, visited: seq<int>)
    requires IsWalk(values, visited)
    ensures forall i, j | 0 <= i < j < |visited| :: visited[i] < visited[j]
    ensures forall v <- visited :: v in values && v <= visited[|visited| - 1]
    ensures forall v <- values :: v <= visited[|visited| - 1] ==> v in visited
    ensures IsNext(values, visited[|visited| - 1] + 1, -1) ==> forall v :: v in values <==> v in visited
  {
    var n := |visited|;
    if n > 1 {
      var earlier, last := visited[..n - 1], visited[n - 1];
      WalkVisitsAll(values, earlier);
      assert visited == earlier + [last];
      assert earlier[n - 2] == visited[n - 2];
      assert forall i | 0 <= i < n - 1 :: visited[i] in earlier;
    }
  }

  datatype Kind = Minute | Hour | Day | Month | DayOfWeek {
    function Min(): int {
      if Day? || Month? then 1 else 0
    }

    function Max(): int {
      match this
      case Minute => 59
      case Hour => 23
      case Day => 31
      case Month => 12
      case DayOfWeek => 6
    }

    function Count(): int {
      Max() - Min() + 1
    }

    /** The names of the values in order, or no names at all. */
    function Names(): seq<string> {
      match this
      case Month => ["January", "February", "March", "April", "May", "June",
                     "July", "August", "September", "October", "November", "December"]
      case DayOfWeek => ["Sunday", "Monday", "Tuesday", "Wednesday", "Thursday", "Friday", "Saturday"]
      case _ => []
    }

    function Range(): set<int> {
      Interval(Min(), Max())
    }
  }

  // ----- Strings

  function IndexOf(s: string, c: char): (i: int)
    ensures i == -1 ==> c !in s
    ensures i != -1 ==> 0 <= i < |s| && s[i] == c && c !in s[..i]
  {
    if s == "" then -1
    else if s[0] == c then 0
    else
      var i := IndexOf(s[1..], c);
      if i == -1 then -1 else assert s[..i + 1] == [s[0]] + s[1..][..i]; i + 1
  }

  lemma IndexOfIs(s: string, c: char, i: nat)
    requires i < |s| && s[i] == c && c !in s[..i]
    ensures IndexOf(s, c) == i
  {
    var j := IndexOf(s, c);
    assert j != -1;
    assert forall k | 0 <= k < i :: s[k] in s[..i];
    assert forall k | 0 <= k < j :: s[k] in s[..j];
  }

  /** The pieces between the occurrences of c; there is always at least one. */
  function Split(s: string, c: char): (pieces: seq<string>)
    ensures pieces != []
    ensures forall p <- pieces :: c !in p && |p| <= |s|
    ensures c in s ==> forall p <- pieces :: |p| < |s|
    decreases |s|
  {
    var i := IndexOf(s, c);
    if i == -1 then [s] else [s[..i]] + Split(s[i + 1..], c)
  }

  function Join(pieces: seq<string>, c: char): string {
    if pieces == [] then ""
    else if |pieces| == 1 then pieces[0]
    else pieces[0] + [c] + Join(pieces[1..], c)
  }

  /** Splitting at the separator undoes joining with it. */
  lemma {:induction false} SplitJoin(pieces: seq<string>, c: char)
    requires pieces != [] && forall p <- pieces :: c !in p
    ensures Split(Join(pieces, c), c) == pieces
  {
    var s := Join(pieces, c);
    if |pieces| > 1 {
      var head := pieces[0];
      assert s[..|head|] == head && s[|head| + 1..] == Join(pieces[1..], c);
      IndexOfIs(s, c, |head|);
      SplitJoin(pieces[1..], c);
    }
  }

  lemma {:induction false} JoinAppend(pieces: seq<string>, p: string, c: char)
    requires pieces != []
    ensures Join(pieces + [p], c) == Join(pieces, c) + [c] + p
  {
    if |pieces| > 1 {
      JoinAppend(pieces[1..], p, c);
      assert (pieces + [p])[1..] == pieces[1..] + [p];
    }
  }

  // ----- Integers as .NET's int.Parse reads them in the invariant culture

  predicate IsDigit(c: char) {
    '0' <= c <= '9'
  }

  predicate IsWhite(c: char) {
    '\t' <= c <= '\r' || c == ' '
  }

  function SkipWhite(s: string): string {
    if s != "" && IsWhite(s[0]) then SkipWhite(s[1..]) else s
  }

  function DigitCount(s: string): (n: nat)
    ensures n <= |s| && forall i | 0 <= i < n :: IsDigit(s[i])
  {
    if s != "" && IsDigit(s[0]) then 1 + DigitCount(s[1..]) else 0
  }

  function DigitsValue(s: string): nat
    requires forall c <- s :: IsDigit(c)
  {
    if s == "" then 0
    else
      var last := s[|s| - 1];
      assert IsDigit(last);
      10 * DigitsValue(s[..|s| - 1]) + (last as int - '0' as int)
  }

  /** White space, a sign, digits, white space and then NUL characters, with a 32-bit value;
      None where int.Parse throws. */
  function ParseInt32(s: string): (r: Option<int>)
    ensures r.Some? ==> INT_MIN <= r.value <= INT_MAX
  {
    var body := SkipWhite(s);
    var signed := body != "" && (body[0] == '-' || body[0] == '+');
    var digits := if signed then body[1..] else body;
    var n := DigitCount(digits);
    if n == 0 || exists c <- SkipWhite(digits[n..]) :: c != '\0' then None
    else
      var magnitude: int := DigitsValue(digits[..n]);
      var value := if signed && body[0] == '-' then -magnitude else magnitude;
      if INT_MIN <= value <= INT_MAX then Some(value) else None
  }

  // ----- Values

  function Lower(c: char): char {
    if 'A' <= c <= 'Z' then (c as int + 32) as char else c
  }

  predicate IsPrefixIgnoringCase(s: string, name: string) {
    |s| <= |name| && forall i | 0 <= i < |s| :: Lower(s[i]) == Lower(name[i])
  }

  /** The index of the first name that s abbreviates. */
  function NameIndex(names: seq<string>, s: string): (i: Option<int>)
    ensures i.Some? ==> 0 <= i.value < |names| && IsPrefixIgnoringCase(s, names[i.value])
    ensures i.Some? ==> forall j | 0 <= j < i.value :: !IsPrefixIgnoringCase(s, names[j])
    ensures i.None? ==> forall j | 0 <= j < |names| :: !IsPrefixIgnoringCase(s, names[j])
  {
    if names == [] then None
    else if IsPrefixIgnoringCase(s, names[0]) then Some(0)
    else
      match NameIndex(names[1..], s)
      case Some(i) => Some(i + 1)
      case None => None
  }

  function ValueMeaning(kind: Kind, s: string): Option<int> {
    if s == "" then None
    else if IsDigit(s[0]) then ParseInt32(s)
    else
      match NameIndex(kind.Names(), s)
      case Some(i) => Some(i + kind.Min())
      case None => None
  }

  // ----- Ranges and tokens

  predicate OnStep(lo: int, v: int, step: int)
    requires step >= 1
  {
    (v - lo) % step == 0
  }

  /** lo, lo + step, lo + 2 * step and so on, as far as hi. */
  function Progression(lo: int, hi: int, step: int): set<int>
    requires step >= 1
  {
    set v | lo <= v <= hi && OnStep(lo, v, step)
  }

  function LastMember(lo: int, hi: int, step: int): int
    requires step >= 1
  {
    lo + (hi - lo) / step * step
  }

  /** The values from start to end by interval: the bounds in either order, a negative bound standing for
      the end of the range, and an interval below 1 for 1. None where the bounds are out of range, or
      where stepping past the last value overflows 32 bits, which leads to a negative bit index. */
  function RangeMeaning(kind: Kind, start: int, end: int, interval: int): Option<set<int>> {
    var low := if start <= end then start else end;
    var high := if start <= end then end else start;
    var lo := if low < 0 then kind.Min() else low;
    var hi := if high < 0 then kind.Max() else high;
    var step := if interval < 1 then 1 else interval;
    if lo < kind.Min() || hi > kind.Max() then None
    else if LastMember(lo, hi, step) - kind.Min() + step > INT_MAX then None
    else Some(Progression(lo, hi, step))
  }

  /** A token without its step: a star, a range of two values, or one value. */
  function BodyMeaning(kind: Kind, body: string, every: int): Option<set<int>> {
    if body == "*" then RangeMeaning(kind, -1, -1, every)
    else
      var dash := IndexOf(body, '-');
      if dash > 0 then
        match (ValueMeaning(kind, body[..dash]), ValueMeaning(kind, body[dash + 1..]))
        case (Some(first), Some(last)) => RangeMeaning(kind, first, last, every)
        case _ => None
      else
        match ValueMeaning(kind, body)
        case Some(v) => RangeMeaning(kind, v, if every == 1 then v else kind.Max(), every)
        case None => None
  }

  function TokenMeaning(kind: Kind, token: string): Option<set<int>> {
    var slash := IndexOf(token, '/');
    if token == "" then None
    else if slash <= 0 then BodyMeaning(kind, token, 1)
    else
      match ParseInt32(token[slash + 1..])
      case Some(every) => BodyMeaning(kind, token[..slash], every)
      case None => None
  }

  function Meanings(kind: Kind, tokens: seq<string>): (meanings: seq<Option<set<int>>>)
    ensures |meanings| == |tokens| && forall i | 0 <= i < |tokens| :: meanings[i] == TokenMeaning(kind, tokens[i])
  {
    seq(|tokens|, i requires 0 <= i < |tokens| => TokenMeaning(kind, tokens[i]))
  }

  /** The union of the sets, if they are all there. */
  function UnionAll(meanings: seq<Option<set<int>>>): Option<set<int>> {
    if meanings == [] then Some({})
    else
      match (UnionAll(meanings[..|meanings| - 1]), meanings[|meanings| - 1])
      case (Some(a), Some(b)) => Some(a + b)
      case _ => None
  }

  lemma {:induction false} UnionAllMembers(meanings: seq<Option<set<int>>>)
    ensures UnionAll(meanings).Some? <==> forall m <- meanings :: m.Some?
    ensures UnionAll(meanings).Some? ==>
      forall v :: v in UnionAll(meanings).value <==> exists m :: m in meanings && m.Some? && v in m.value
  {
    if meanings != [] {
      var rest, last := meanings[..|meanings| - 1], meanings[|meanings| - 1];
      assert meanings == rest + [last];
      UnionAllMembers(rest);
    }
  }

  /** The set of values that a non-empty field text denotes, or None where parsing throws. */
  function ExpressionMeaning(kind: Kind, text: string): Option<set<int>> {
    if IndexOf(text, ',') > 0 then UnionAll(Meanings(kind, Split(text, ','))) else TokenMeaning(kind, text)
  }

  /** The same, with an empty text accepted as the empty field. */
  function FieldMeaning(kind: Kind, text: string): Option<set<int>> {
    if text == "" then Some({}) else ExpressionMeaning(kind, text)
  }

  // ----- Canonical text

  datatype Run = Run(first: int, last: int) {
    function Values(): set<int> {
      Interval(first, last)
    }
  }

  /** The last value of the run of consecutive members that v is in. */
  function RunEnd(values: set<int>, v: int, max: int): (last: int)
    requires v in values && v <= max
    ensures v <= last <= max && (forall u | v <= u <= last :: u in values)
    ensures last < max ==> last + 1 !in values
    decreases max - v
  {
    if v < max && v + 1 in values then RunEnd(values, v + 1, max) else v
  }

  /** The maximal runs of the members from v to max, in ascending order. */
  function RunsFrom(values: set<int>, v: int, max: int): seq<Run>
    decreases max - v
  {
    if v > max then []
    else if v !in values then RunsFrom(values, v + 1, max)
    else var last := RunEnd(values, v, max); [Run(v, last)] + RunsFrom(values, last + 1, max)
  }

  function DigitChar(d: int): char
    requires 0 <= d <= 9
  {
    ('0' as int + d) as char
  }

  function NumberText(v: int): string
    requires 0 <= v < 100
  {
    if v >= 10 then [DigitChar(v / 10), DigitChar(v % 10)] else [DigitChar(v)]
  }

  function ValueText(kind: Kind, v: int, noNames: bool): string
    requires kind.Min() <= v <= kind.Max()
  {
    if noNames || kind.Names() == [] then NumberText(v) else kind.Names()[v - kind.Min()]
  }

  predicate RunInRange(kind: Kind, run: Run) {
    kind.Min() <= run.first <= run.last <= kind.Max()
  }

  function RunText(kind: Kind, run: Run, noNames: bool): string
    requires RunInRange(kind, run)
  {
    if run.first == run.last then ValueText(kind, run.first, noNames)
    else ValueText(kind, run.first, noNames) + "-" + ValueText(kind, run.last, noNames)
  }

  function RunTexts(kind: Kind, runs: seq<Run>, noNames: bool): (texts: seq<string>)
    requires forall r <- runs :: RunInRange(kind, r)
    ensures |texts| == |runs| && forall i | 0 <= i < |runs| :: texts[i] == RunText(kind, runs[i], noNames)
  {
    seq(|runs|, i requires 0 <= i < |runs| => RunText(kind, runs[i], noNames))
  }

  lemma {:induction false} RunsInRange(kind: Kind, values: set<int>, v: int)
    requires kind.Min() <= v
    ensures forall r <- RunsFrom(values, v, kind.Max()) :: RunInRange(kind, r)
    decreases kind.Max() - v
  {
    if v <= kind.Max() {
      if v !in values {
        RunsInRange(kind, values, v + 1);
      } else {
        RunsInRange(kind, values, RunEnd(values, v, kind.Max()) + 1);
      }
    }
  }

  /** The canonical text of a set of values: a star for the whole range, or the maximal runs. */
  function SetText(kind: Kind, values: set<int>, noNames: bool): string {
    var runs := RunsFrom(values, kind.Min(), kind.Max());
    RunsInRange(kind, values, kind.Min());
    if runs == [Run(kind.Min(), kind.Max())] then "*" else Join(RunTexts(kind, runs, noNames), ',')
  }
}
