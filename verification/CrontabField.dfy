/** One parsed crontab field: a bit per value, with the least and greatest set values cached. */
module CrontabFields {
  import opened Wrappers
  import opened FieldText

  class CrontabField {
    const kind: Kind
    const bits: array<bool>
    var minValueSet: int
    var maxValueSet: int

    ghost predicate HasBits() {
      bits.Length == kind.Count()
    }

    /** The values whose bits are set. */
    ghost function Values(): (values: set<int>)
      requires HasBits()
      reads bits
      ensures values <= kind.Range()
    {
      set v | kind.Min() <= v <= kind.Max() && HasValue(v)
    }

    predicate HasValue(v: int)
      requires HasBits() && kind.Min() <= v <= kind.Max()
      reads bits
    {
      bits[v - kind.Min()]
    }

    /** The cached bounds are exactly the least and the greatest value, or the sentinels of an empty field. */
    ghost predicate Valid()
      reads this, bits
    {
      && HasBits()
      && (if Values() == {}
          then minValueSet == INT_MAX && maxValueSet == -1
          else
            && minValueSet in Values() && maxValueSet in Values()
            && forall v <- Values() :: minValueSet <= v <= maxValueSet)
    }

    constructor (kind: Kind)
      ensures Valid() && Values() == {} && this.kind == kind && fresh(bits)
    {
      this.kind := kind;
      bits := new bool[kind.Count()](_ => false);
      minValueSet := INT_MAX;
      maxValueSet := -1;
    }

    /** The first value of the field or -1. */
    method GetFirst() returns (first: int)
      requires Valid()
      ensures if Values() == {} then first == -1 else IsFirst(Values(), first)
    {
      first := if minValueSet < INT_MAX then minValueSet else -1;
    }

    /** The least value that is not before start, or -1; an empty field answers its sentinel instead. */
    method Next(start: int) returns (next: int)
      requires Valid() && INT_MIN <= start <= INT_MAX
      ensures Values() != {} ==> IsNext(Values(), start, next)
      ensures Values() == {} ==> next == if start < INT_MAX then INT_MAX else -1
    {
      if start < minValueSet {
        return minValueSet;
      }
      var startIndex := start - kind.Min();
      var lastIndex := maxValueSet - kind.Min();
      var i := startIndex;
      while i <= lastIndex
        invariant startIndex <= i
        invariant forall v <- Values() :: start <= v ==> i <= v - kind.Min()
      {
        if bits[i] {
          return i + kind.Min();
        }
        i := i + 1;
      }
      return -1;
    }

    /** Whether a value is in the field; None where the bit array would throw. */
    method Contains(value: int) returns (r: Option<bool>)
      requires Valid()
      ensures r == if value in kind.Range() then Some(value in Values()) else None
    {
      if kind.Min() <= value <= kind.Max() {
        r := Some(bits[value - kind.Min()]);
      } else {
        r := None;
      }
    }

    /** Adds the values from start to end by interval. The callers pass -1 for both bounds, or two values
        as parsed. False is an exception: a bound out of range, or a bit index made negative by the
        32-bit overflow of the loop counter. */
    method Accumulate(start: int, end: int, interval: int) returns (ok: bool)
      requires Valid()
      requires start == end == -1 || (0 <= start <= INT_MAX && 0 <= end <= INT_MAX)
      requires INT_MIN <= interval <= INT_MAX
      modifies this`minValueSet, this`maxValueSet, bits
      ensures ok <==> RangeMeaning(kind, start, end, interval).Some?
      ensures ok ==> Valid() && Values() == old(Values()) + RangeMeaning(kind, start, end, interval).value
    {
      var minValue, maxValue := kind.Min(), kind.Max();
      var start, end, interval := start, end, interval;

      if start == end {
        if start < 0 {
          if interval <= 1 {
            SetAll();
            WholeRange(kind);
            return true;
          }
          start := minValue;
          end := maxValue;
        } else {
          if start < minValue {
            return false;
          }
          if start > maxValue {
            return false;
          }
        }
      } else {
        if start > end {
          start, end := XorSwap(start, end);
        }
        if start < 0 {
          start := minValue;
        } else if start < minValue {
          return false;
        }
        if end < 0 {
          end := maxValue;
        } else if end > maxValue {
          return false;
        }
      }

      if interval < 1 {
        interval := 1;
      }

      ok := Populate(start, end, interval);
    }

    /** The part of Accumulate for a star without a step. */
    method SetAll()
      requires HasBits()
      modifies this`minValueSet, this`maxValueSet, bits
      ensures Valid() && Values() == kind.Range()
    {
      minValueSet := kind.Min();
      maxValueSet := kind.Max();
      forall k | 0 <= k < bits.Length {
        bits[k] := true;
      }
      assert kind.Min() in kind.Range() && kind.Max() in kind.Range();
      assert Values() == kind.Range();
    }

    /** The end of Accumulate: sets the bits from start to end by interval and keeps the cached bounds. */
    method Populate(start: int, end: int, interval: int) returns (ok: bool)
      requires Valid() && kind.Min() <= start <= end <= kind.Max() && 1 <= interval <= INT_MAX
      modifies this`minValueSet, this`maxValueSet, bits
      ensures ok <==> LastMember(start, end, interval) - kind.Min() + interval <= INT_MAX
      ensures ok ==> Valid() && Values() == old(Values()) + Progression(start, end, interval)
    {
      var i := SetBits(start, end, interval);
      if i < 0 {
        return false;
      }
      ProgressionBounds(start, end, interval);

      if minValueSet > start {
        minValueSet := start;
      }
      i := i + (kind.Min() - interval);
      if maxValueSet < i {
        maxValueSet := i;
      }
      return true;
    }

    /** The loop of Populate: i is the first index past the end, or -1 if an index went negative. */
    method SetBits(start: int, end: int, interval: int) returns (i: int)
      requires HasBits() && kind.Min() <= start <= end <= kind.Max() && 1 <= interval <= INT_MAX
      modifies bits
      ensures i < 0 ==> LastMember(start, end, interval) - kind.Min() + interval > INT_MAX
      ensures i >= 0 ==> i == LastMember(start, end, interval) - kind.Min() + interval <= INT_MAX
      ensures i >= 0 ==> Values() == old(Values()) + Progression(start, end, interval)
    {
      var minValue := kind.Min();
      ghost var values := Values();
      ghost var last, done := start - interval, {};
      i := start - minValue;
      while i <= end - minValue
        invariant i == Wrap32(last + interval - minValue) && (i < 0 ==> last <= end)
        invariant forall v | minValue <= v <= kind.Max() :: HasValue(v) <==> v in values || v in done
        invariant Visited(start, interval, last, done) && last <= end
        decreases i >= 0, end - minValue - i
      {
        if i < 0 {
          LastVisit(start, end, interval, last, done);
          return -1;
        }
        bits[i] := true;
        NextVisit(start, interval, last, done);
        last, done := last + interval, done + {last + interval};
        i := Wrap32(i + interval);
      }
      LastVisit(start, end, interval, last, done);
      assert Values() == values + done;
    }

    /** Parses a field text into a new field; None is an exception. */
    static method Parse(kind: Kind, expression: string) returns (r: Option<CrontabField>)
      ensures r.Some? <==> FieldMeaning(kind, expression).Some?
      ensures r.Some? ==> fresh(r.value) && fresh(r.value.bits) && r.value.Valid() && r.value.kind == kind
      ensures r.Some? ==> r.value.Values() == FieldMeaning(kind, expression).value
    {
      var field := new CrontabField(kind);
      if expression != "" {
        var ok := field.InternalParse(expression);
        if !ok {
          return None;
        }
      }
      return Some(field);
    }

    /** Adds the values that a non-empty text denotes; false is an exception. */
    method InternalParse(str: string) returns (ok: bool)
      requires Valid()
      modifies this`minValueSet, this`maxValueSet, bits
      ensures ok <==> ExpressionMeaning(kind, str).Some?
      ensures ok ==> Valid() && Values() == old(Values()) + ExpressionMeaning(kind, str).value
      decreases |str|, 1
    {
      if str == "" {
        return false;
      }
      if IndexOf(str, ',') > 0 {
        ok := ParseList(Split(str, ','), |str|);
      } else {
        ok := ParseToken(str);
      }
    }

    /** The branch of InternalParse for a list of texts, each shorter than the list. */
    method ParseList(tokens: seq<string>, ghost length: nat) returns (ok: bool)
      requires Valid() && forall t <- tokens :: ',' !in t && |t| < length
      modifies this`minValueSet, this`maxValueSet, bits
      ensures ok <==> UnionAll(Meanings(kind, tokens)).Some?
      ensures ok ==> Valid() && Values() == old(Values()) + UnionAll(Meanings(kind, tokens)).value
      decreases length, 0
    {
      ghost var meanings, union: set<int> := Meanings(kind, tokens), {};
      for k := 0 to |tokens|
        invariant Valid() && UnionAll(meanings[..k]) == Some(union)
        invariant Values() == old(Values()) + union
      {
        TokenIsExpression(kind, tokens[k]);
        UnionStep(meanings, k, union);
        var tokenOk := InternalParse(tokens[k]);
        if !tokenOk {
          return false;
        }
        union := union + meanings[k].value;
      }
      assert meanings[..|tokens|] == meanings;
      return true;
    }

    /** The branch of InternalParse for a text that is not a list. */
    method ParseToken(token: string) returns (ok: bool)
      requires Valid() && token != ""
      modifies this`minValueSet, this`maxValueSet, bits
      ensures ok <==> TokenMeaning(kind, token).Some?
      ensures ok ==> Valid() && Values() == old(Values()) + TokenMeaning(kind, token).value
    {
      var str, every := token, 1;

      var slashIndex := IndexOf(str, '/');
      if slashIndex > 0 {
        match ParseInt32(str[slashIndex + 1..]) {
          case None => return false;
          case Some(n) => every := n;
        }
        str := str[..slashIndex];
      }

      if |str| == 1 && str[0] == '*' {
        assert str == "*";
        ok := Accumulate(-1, -1, every);
        return;
      }

      var dashIndex := IndexOf(str, '-');
      if dashIndex > 0 {
        var first := ParseValue(kind, str[..dashIndex]);
        if first.None? {
          return false;
        }
        var last := ParseValue(kind, str[dashIndex + 1..]);
        if last.None? {
          return false;
        }
        ok := Accumulate(first.value, last.value, every);
        return;
      }

      var value := ParseValue(kind, str);
      if value.None? {
        return false;
      }
      if every == 1 {
        ok := Accumulate(value.value, value.value, 1);
      } else {
        ok := Accumulate(value.value, kind.Max(), every);
      }
    }

    /** The canonical text of the field, with numbers or with full names. */
    method Format(noNames: bool) returns (text: string)
      requires Valid()
      ensures text == SetText(kind, Values(), noNames)
    {
      text := "";
      var next := GetFirst();
      var count := 0;
      ghost var values, runs: seq<Run> := Values(), [];
      RunsSkip(values, kind.Min(), if next == -1 then kind.Max() + 1 else next, kind.Max());
      RunsInRange(kind, values, kind.Min());

      while next != -1
        invariant next == -1 || (next in values && kind.Min() <= next <= kind.Max())
        invariant |runs| == count && forall r <- runs :: RunInRange(kind, r)
        invariant RunsFrom(values, kind.Min(), kind.Max()) == runs + RunsAt(values, next, kind.Max())
        invariant text == Join(RunTexts(kind, runs, noNames), ',')
        invariant runs != [Run(kind.Min(), kind.Max())]
        decreases next != -1, kind.Max() - next
      {
        var first := next;
        var last;
        last, next := EndOfRun(first);
        PrependedRuns(runs, Run(first, last), RunsAt(values, next, kind.Max()));

        if count == 0 && first == kind.Min() && last == kind.Max() {
          text := text + "*";
          return;
        }
        if count > 0 {
          text := text + ",";
        }
        var run := FormatRun(kind, first, last, noNames);
        text := text + run;
        JoinRunText(kind, runs, Run(first, last), noNames);
        runs := runs + [Run(first, last)];
        count := count + 1;
      }
      assert RunsFrom(values, kind.Min(), kind.Max()) == runs;
    }

    /** The inner loop of Format: the last value of the run that starts at first, and the next value after it. */
    method EndOfRun(first: int) returns (last: int, next: int)
      requires Valid() && first in Values()
      ensures first <= last <= kind.Max() && (next == -1 || (next in Values() && last < next <= kind.Max()))
      ensures RunsAt(Values(), first, kind.Max()) == [Run(first, last)] + RunsAt(Values(), next, kind.Max())
    {
      last := first;
      next := Next(last + 1);
      while next - last == 1
        invariant first <= last <= kind.Max() && forall v | first <= v <= last :: v in Values()
        invariant IsNext(Values(), last + 1, next)
        decreases kind.Max() - last
      {
        last := next;
        next := Next(last + 1);
      }
      RunsStep(Values(), first, last, next, kind.Max());
    }
  }

  method FormatRun(kind: Kind, first: int, last: int, noNames: bool) returns (text: string)
    requires RunInRange(kind, Run(first, last))
    ensures text == RunText(kind, Run(first, last), noNames)
  {
    text := FormatValue(kind, first, noNames);
    if first != last {
      var s := FormatValue(kind, last, noNames);
      text := text + "-" + s;
    }
  }

  /** The runs that are left when the next value to print is known; -1 means none. */
  function RunsAt(values: set<int>, next: int, max: int): seq<Run> {
    if next == -1 then [] else RunsFrom(values, next, max)
  }

  lemma RunsStep(values: set<int>, first: int, last: int, next: int, max: int)
    requires 0 <= first <= last <= max && forall v | first <= v <= last :: v in values
    requires IsNext(values, last + 1, next) && last + 1 != next <= max
    ensures RunsAt(values, first, max) == [Run(first, last)] + RunsAt(values, next, max)
  {
    RunEndIs(values, first, last, max);
    RunsSkip(values, last + 1, if next == -1 then max + 1 else next, max);
  }

  lemma PrependedRuns(runs: seq<Run>, run: Run, rest: seq<Run>)
    ensures runs + ([run] + rest) == runs + [run] + rest
    ensures runs == [] ==> (runs + [run] + rest)[0] == run
  {
  }

  /** Numbers below 100 are written digit by digit; names are written in full. */
  method FormatValue(kind: Kind, value: int, noNames: bool) returns (text: string)
    requires kind.Min() <= value <= kind.Max()
    ensures text == ValueText(kind, value, noNames)
  {
    if noNames || kind.Names() == [] {
      if value >= 10 {
        text := [DigitChar(value / 10)] + [DigitChar(value % 10)];
      } else {
        text := [DigitChar(value)];
      }
    } else {
      text := kind.Names()[value - kind.Min()];
    }
  }

  /** A number, or the first name that the text abbreviates; None is an exception. */
  method ParseValue(kind: Kind, str: string) returns (value: Option<int>)
    ensures value == ValueMeaning(kind, str)
    ensures value.Some? ==> 0 <= value.value <= INT_MAX
  {
    if str == "" {
      return None;
    }
    if IsDigit(str[0]) {
      return ParseInt32(str);
    }
    var i := FindName(kind.Names(), str);
    if i == -1 {
      return None;
    }
    return Some(i + kind.Min());
  }

  /** The loop of ParseValue: the index of the first name that the text abbreviates, or -1. */
  method FindName(names: seq<string>, str: string) returns (i: int)
    ensures if i == -1 then NameIndex(names, str).None? else NameIndex(names, str) == Some(i)
    ensures i < |names|
  {
    for k := 0 to |names|
      invariant forall j | 0 <= j < k :: !IsPrefixIgnoringCase(str, names[j])
    {
      if IsPrefixIgnoringCase(str, names[k]) {
        return k;
      }
    }
    return -1;
  }

  /** A piece of a list has no comma, so it is read as a token. */
  lemma TokenIsExpression(kind: Kind, token: string)
    requires ',' !in token
    ensures ExpressionMeaning(kind, token) == TokenMeaning(kind, token)
  {
  }

  lemma UnionStep(meanings: seq<Option<set<int>>>, k: nat, union: set<int>)
    requires k < |meanings| && UnionAll(meanings[..k]) == Some(union)
    ensures meanings[k].None? ==> UnionAll(meanings).None?
    ensures meanings[k].Some? ==> UnionAll(meanings[..k + 1]) == Some(union + meanings[k].value)
  {
    UnionAllMembers(meanings);
    assert meanings[k] in meanings && meanings[..k + 1][..k] == meanings[..k];
  }

  lemma {:induction false} RunsSkip(values: set<int>, v: int, next: int, max: int)
    requires v <= next <= max + 1 && forall u | v <= u < next :: u !in values
    ensures RunsFrom(values, v, max) == RunsFrom(values, next, max)
    decreases next - v
  {
    if v < next {
      RunsSkip(values, v + 1, next, max);
    }
  }

  lemma {:induction false} RunEndIs(values: set<int>, first: int, last: int, max: int)
    requires first <= last <= max && forall v | first <= v <= last :: v in values
    requires last < max ==> last + 1 !in values
    ensures RunEnd(values, first, max) == last
    decreases last - first
  {
    if first < last {
      RunEndIs(values, first + 1, last, max);
    }
  }

  lemma JoinRunText(kind: Kind, runs: seq<Run>, run: Run, noNames: bool)
    requires RunInRange(kind, run) && forall r <- runs :: RunInRange(kind, r)
    ensures Join(RunTexts(kind, runs + [run], noNames), ',') ==
            Join(RunTexts(kind, runs, noNames), ',') + (if runs == [] then "" else ",") + RunText(kind, run, noNames)
  {
    var texts := RunTexts(kind, runs, noNames);
    assert RunTexts(kind, runs + [run], noNames) == texts + [RunText(kind, run, noNames)];
    if runs != [] {
      JoinAppend(texts, RunText(kind, run, noNames), ',');
    }
  }

  /** The loop has visited the progression up to last; at first last is one step before the start. */
  ghost predicate Visited(lo: int, step: int, last: int, done: set<int>)
    requires step >= 1
  {
    || (last == lo - step && done == {})
    || (lo <= last && OnStep(lo, last, step) && done == Progression(lo, last, step))
  }

  lemma NextVisit(lo: int, step: int, last: int, done: set<int>)
    requires step >= 1 && Visited(lo, step, last, done)
    ensures Visited(lo, step, last + step, done + {last + step})
  {
    if last < lo {
      assert Progression(lo, lo, step) == {lo};
    } else {
      BetweenSteps(lo, last, step);
      assert Progression(lo, last + step, step) == done + {last + step};
    }
  }

  lemma LastVisit(lo: int, hi: int, step: int, last: int, done: set<int>)
    requires step >= 1 && lo <= hi && Visited(lo, step, last, done) && last <= hi < last + step
    ensures last == LastMember(lo, hi, step) && done == Progression(lo, hi, step)
  {
    assert lo <= last;
    LastStep(lo, hi, step, last);
    BetweenSteps(lo, last, step);
    assert Progression(lo, hi, step) == Progression(lo, last, step);
  }

  lemma ProgressionBounds(lo: int, hi: int, step: int)
    requires step >= 1 && lo <= hi
    ensures var last := LastMember(lo, hi, step);
            && lo in Progression(lo, hi, step) && last in Progression(lo, hi, step)
            && forall v <- Progression(lo, hi, step) :: lo <= v <= last
  {
    var q := (hi - lo) / step;
    var last := LastMember(lo, hi, step);
    assert hi - lo == q * step + (hi - lo) % step;
    assert q * step >= 0;
    ModOfMultiple(q, 0, step);
    assert OnStep(lo, last, step);
    BetweenSteps(lo, last, step);
  }

  /** The sum of two non-negative 32-bit integers as a 32-bit integer. */
  function Wrap32(x: int): int {
    if x > INT_MAX then x - 0x1_0000_0000 else x
  }

  /** Past a value on the progression, the next one is exactly one step further. */
  lemma BetweenSteps(lo: int, v: int, step: int)
    requires step >= 1 && OnStep(lo, v, step)
    ensures OnStep(lo, v + step, step)
    ensures forall u | v < u < v + step :: !OnStep(lo, u, step)
  {
    var q := (v - lo) / step;
    assert v - lo == q * step;
    assert (q + 1) * step == q * step + step;
    ModOfMultiple(q + 1, 0, step);
    forall u | v < u < v + step ensures !OnStep(lo, u, step) {
      ModOfMultiple(q, u - v, step);
    }
  }

  lemma ModOfMultiple(q: int, r: int, step: int)
    requires 0 <= r < step
    ensures (q * step + r) % step == r && (q * step + r) / step == q
  {
    var x := q * step + r;
    var d := q - x / step;
    assert d * step == x % step - r by {
      assert x == x / step * step + x % step;
      assert d * step == q * step - x / step * step;
    }
    assert d >= 1 ==> d * step >= step;
    assert d <= -1 ==> d * step <= -step;
  }

  /** A value on the progression that is less than a step before the bound is the last one. */
  lemma LastStep(lo: int, hi: int, step: int, v: int)
    requires step >= 1 && lo <= v <= hi < v + step && OnStep(lo, v, step)
    ensures v == LastMember(lo, hi, step)
  {
    var q := (v - lo) / step;
    assert v - lo == q * step;
    ModOfMultiple(q, hi - v, step);
    assert hi - lo == q * step + (hi - v);
  }

  lemma WholeRange(kind: Kind)
    ensures RangeMeaning(kind, -1, -1, 1) == Some(kind.Range())
  {
    assert Progression(kind.Min(), kind.Max(), 1) == kind.Range();
  }

  /** Bitwise exclusive or of two non-negative integers. */
  function Xor(a: nat, b: nat): nat
    decreases a + b
  {
    if a == 0 && b == 0 then 0 else (a + b) % 2 + 2 * Xor(a / 2, b / 2)
  }

  lemma {:induction false} XorCommutes(a: nat, b: nat)
    ensures Xor(a, b) == Xor(b, a)
    decreases a + b
  {
    if a != 0 || b != 0 {
      XorCommutes(a / 2, b / 2);
    }
  }

  /** Exclusive or with the same value twice cancels out. */
  lemma {:induction false} XorCancels(a: nat, b: nat)
    ensures Xor(Xor(a, b), b) == a
    decreases a + b
  {
    if a != 0 || b != 0 {
      var y := Xor(a / 2, b / 2);
      XorCancels(a / 2, b / 2);
      XorBit(y, b, (a + b) % 2);
      AddTwice(a, b);
    }
  }

  lemma AddTwice(a: nat, b: nat)
    ensures ((a + b) % 2 + b) % 2 == a % 2
  {
    var p, q := a / 2, b / 2;
    var r, t := a % 2, b % 2;
    assert a == 2 * p + r && b == 2 * q + t;
    assert (a + b) % 2 == (r + t) % 2;
    assert ((r + t) % 2 + b) % 2 == ((r + t) % 2 + t) % 2;
  }

  lemma XorBit(y: nat, b: nat, bit: nat)
    requires bit <= 1
    ensures Xor(bit + 2 * y, b) == (bit + b) % 2 + 2 * Xor(y, b / 2)
  {
    var x := bit + 2 * y;
    assert x / 2 == y && (x + b) % 2 == (bit + b) % 2;
  }

  /** Exchanges two values by three exclusive-or assignments. */
  method XorSwap(start: nat, end: nat) returns (start': nat, end': nat)
    ensures start' == end && end' == start
  {
    start', end' := start, end;
    end' := Xor(end', start');
    XorCancels(end, start);
    XorCommutes(start, end');
    start' := Xor(start', end');
    XorCommutes(end, start);
    XorCancels(start, end);
    end' := Xor(end', start');
  }
}
