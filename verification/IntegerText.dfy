/** Which texts int.Parse reads as an integer, and as which one. */
module IntegerText {
  import opened Wrappers
  import opened FieldText

  /** The decimal digits of a number, without leading zeros. */
  function Decimal(n: nat): string {
    if n < 10 then [DigitChar(n)] else Decimal(n / 10) + [DigitChar(n % 10)]
  }

  predicate AllDigits(s: string) {
    forall c <- s :: IsDigit(c)
  }

  predicate AllWhite(s: string) {
    forall c <- s :: IsWhite(c)
  }

  predicate AllNul(s: string) {
    forall c <- s :: c == '\0'
  }

  lemma {:induction false} DecimalValue(n: nat)
    ensures Decimal(n) != "" && AllDigits(Decimal(n)) && DigitsValue(Decimal(n)) == n
    ensures n > 0 ==> Decimal(n)[0] != '0'
  {
    var s := Decimal(n);
    if n < 10 {
      assert s[..0] == "" && DigitsValue("") == 0;
    } else {
      DecimalValue(n / 10);
      assert s[..|s| - 1] == Decimal(n / 10);
    }
  }

  /** Leading zeros do not matter. */
  lemma {:induction false} LeadingZero(s: string)
    requires AllDigits(s)
    ensures AllDigits("0" + s) && DigitsValue("0" + s) == DigitsValue(s)
  {
    var t := "0" + s;
    if s == "" {
      assert t[..0] == "" && DigitsValue("") == 0;
    } else {
      LeadingZero(s[..|s| - 1]);
      assert t[..|t| - 1] == "0" + s[..|s| - 1];
    }
  }

  lemma {:induction false} SkipsWhite(white: string, rest: string)
    requires AllWhite(white) && (rest != "" ==> !IsWhite(rest[0]))
    ensures SkipWhite(white + rest) == rest
  {
    if white == "" {
      assert white + rest == rest;
    } else {
      assert (white + rest)[1..] == white[1..] + rest;
      SkipsWhite(white[1..], rest);
    }
  }

  lemma {:induction false} CountsDigits(digits: string, rest: string)
    requires AllDigits(digits) && (rest != "" ==> !IsDigit(rest[0]))
    ensures DigitCount(digits + rest) == |digits|
  {
    if digits == "" {
      assert digits + rest == rest;
    } else {
      assert (digits + rest)[1..] == digits[1..] + rest;
      CountsDigits(digits[1..], rest);
    }
  }

  /** The 32-bit integer of a sign and a magnitude, if it is one. */
  function Signed(negative: bool, magnitude: nat): Option<int> {
    var size: int := magnitude;
    var value := if negative then -size else size;
    if INT_MIN <= value <= INT_MAX then Some(value) else None
  }

  /** White space, a sign, digits, white space and NUL characters are the integer of the sign and the digits, if
      that has 32 bits. */
  lemma IntegerMeans(white: string, sign: string, digits: string, after: string, nuls: string)
    requires AllWhite(white) && AllWhite(after) && AllNul(nuls) && sign in ["", "-", "+"]
    requires digits != "" && AllDigits(digits)
    ensures ParseInt32(white + sign + digits + after + nuls) == Signed(sign == "-", DigitsValue(digits))
  {
    var tail := after + nuls;
    var body := sign + (digits + tail);
    Regroup(white, sign, digits, after, nuls);
    assert digits[0] in digits && (after != "" ==> after[0] in after) && (nuls != "" ==> nuls[0] in nuls);
    assert tail != "" ==> tail[0] == if after != "" then after[0] else nuls[0];
    SkipsWhite(white, body);
    CountsDigits(digits, tail);
    SkipsWhite(after, nuls);
    assert (digits + tail)[..|digits|] == digits && (digits + tail)[|digits|..] == tail;
    SignedBody(body, sign, digits, tail);
    ParsedIs(white + sign + digits + after + nuls, body, digits, tail);
  }

  /** The decimal digits of a number are that number, as far as 32 bits go. */
  lemma DecimalRoundTrip(n: nat)
    ensures ParseInt32(Decimal(n)) == if n <= INT_MAX then Some(n) else None
  {
    var d := Decimal(n);
    DecimalValue(n);
    IntegerMeans("", "", d, "", "");
    assert "" + "" + d + "" + "" == d;
  }

  function Unsigned(body: string): string {
    if body != "" && (body[0] == '-' || body[0] == '+') then body[1..] else body
  }

  lemma SignedBody(body: string, sign: string, digits: string, tail: string)
    requires sign in ["", "-", "+"] && digits != "" && AllDigits(digits) && body == sign + (digits + tail)
    ensures body != "" && Unsigned(body) == digits + tail && (body[0] == '-' <==> sign == "-")
  {
    assert IsDigit(digits[0]);
  }

  lemma ParsedIs(s: string, body: string, digits: string, tail: string)
    requires SkipWhite(s) == body && body != "" && Unsigned(body) == digits + tail
    requires digits != "" && AllDigits(digits) && DigitCount(digits + tail) == |digits|
    requires (digits + tail)[..|digits|] == digits && (digits + tail)[|digits|..] == tail && AllNul(SkipWhite(tail))
    ensures ParseInt32(s) == Signed(body[0] == '-', DigitsValue(digits))
  {
  }

  /** Nothing else is an integer. */
  lemma IntegerShape(s: string) returns (white: string, sign: string, digits: string, after: string, nuls: string)
    requires ParseInt32(s).Some?
    ensures s == white + sign + digits + after + nuls
    ensures AllWhite(white) && AllWhite(after) && AllNul(nuls) && sign in ["", "-", "+"]
    ensures digits != "" && AllDigits(digits)
  {
    var rest;
    ParsedHasMagnitude(s);
    white := WhitePrefix(s);
    sign, rest := SignPrefix(SkipWhite(s));
    digits, after, nuls := DigitPrefix(rest);
    assert SkipWhite(s) == sign + rest && rest == digits + (after + nuls);
    Regroup(white, sign, digits, after, nuls);
  }

  lemma Regroup(a: string, b: string, c: string, d: string, e: string)
    ensures a + (b + (c + (d + e))) == a + b + c + d + e
  {
    assert a + b + c + d + e == a + b + c + (d + e);
    assert a + b + c + (d + e) == a + b + (c + (d + e));
    assert a + b + (c + (d + e)) == a + (b + (c + (d + e)));
  }

  /** What int.Parse requires after white space and sign. */
  predicate IsMagnitude(rest: string) {
    var n := DigitCount(rest);
    n > 0 && forall c <- SkipWhite(rest[n..]) :: c == '\0'
  }

  lemma ParsedHasMagnitude(s: string)
    requires ParseInt32(s).Some?
    ensures IsMagnitude(Unsigned(SkipWhite(s)))
  {
  }

  lemma SignPrefix(body: string) returns (sign: string, rest: string)
    ensures body == sign + rest && sign in ["", "-", "+"] && rest == Unsigned(body)
  {
    sign, rest := "", body;
    if body != "" && (body[0] == '-' || body[0] == '+') {
      sign, rest := [body[0]], body[1..];
      assert sign == if body[0] == '-' then "-" else "+";
    }
  }

  lemma DigitPrefix(rest: string) returns (digits: string, after: string, nuls: string)
    requires IsMagnitude(rest)
    ensures rest == digits + (after + nuls)
    ensures digits != "" && AllDigits(digits) && AllWhite(after) && AllNul(nuls)
  {
    var n := DigitCount(rest);
    digits, nuls := rest[..n], SkipWhite(rest[n..]);
    after := WhitePrefix(rest[n..]);
    forall c <- digits ensures IsDigit(c) {
      var i :| 0 <= i < n && digits[i] == c;
    }
  }

  lemma {:induction false} WhitePrefix(s: string) returns (white: string)
    ensures s == white + SkipWhite(s) && AllWhite(white)
  {
    white := "";
    if s != "" && IsWhite(s[0]) {
      var rest := WhitePrefix(s[1..]);
      white := [s[0]] + rest;
    }
  }

  /** A text that starts with a digit and is an integer has no sign and no separator in it. */
  lemma DigitFirst(s: string)
    requires s != "" && IsDigit(s[0]) && ParseInt32(s).Some?
    ensures forall c <- s :: IsDigit(c) || IsWhite(c) || c == '\0'
  {
    var white, sign, digits, after, nuls := IntegerShape(s);
    assert white == "" && sign == "";
  }

  /** A number is printed as its decimal digits. */
  lemma NumberTextIsDecimal(v: int)
    requires 0 <= v < 100
    ensures NumberText(v) == Decimal(v)
  {
  }
}
