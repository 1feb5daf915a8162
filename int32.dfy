/**
 * The C# `int` as the configuration helper uses it: the 32-bit range,
 * unchecked arithmetic that wraps modulo 2^32, and int.Parse(string) with
 * its default number style (surrounding white space, an optional leading
 * sign, decimal digits) under the invariant culture's '+' and '-' signs.
 */
module Int32 {
  import opened Utilities

  const Modulus: int := 0x1_0000_0000
  const MinValue: int := -0x8000_0000
  const MaxValue: int := 0x7FFF_FFFF

  predicate InRange(x: int) {
    MinValue <= x <= MaxValue
  }

  /** x and y are equal modulo 2^32. */
  predicate Congruent(x: int, y: int) {
    (x - y) % Modulus == 0
  }

  /** Unchecked conversion of an exact result back into an int. */
  function Wrap(x: int): (r: int)
    ensures InRange(r) && Congruent(x, r)
    ensures InRange(x) ==> r == x
  {
    var m := x % Modulus;
    assert x - m == (x / Modulus) * Modulus;
    MultipleIsCongruent(x / Modulus);
    if m <= MaxValue then m
    else
      MultipleIsCongruent(x / Modulus + 1);
      m - Modulus
  }

  lemma MultipleIsCongruent(q: int)
    ensures (q * Modulus) % Modulus == 0
  {
  }

  /** Congruence survives multiplying by a constant and adding a congruent pair. */
  lemma CongruentScaleAdd(a: int, a': int, k: int, b: int, b': int)
    requires Congruent(a, a') && Congruent(b, b')
    ensures Congruent(k * a + b, k * a' + b')
  {
    var qa, qb := (a - a') / Modulus, (b - b') / Modulus;
    assert a - a' == qa * Modulus;
    assert b - b' == qb * Modulus;
    assert (k * a + b) - (k * a' + b') == (k * qa + qb) * Modulus;
    MultipleIsCongruent(k * qa + qb);
  }

  lemma CongruentTransitive(x: int, y: int, z: int)
    requires Congruent(x, y) && Congruent(y, z)
    ensures Congruent(x, z)
  {
    CongruentScaleAdd(x, y, 1, y, z);
    assert (1 * x + y) - (1 * y + z) == x - z;
  }

  /** Two values of the int range that are congruent modulo 2^32 are equal. */
  lemma CongruentInRangeEqual(x: int, y: int)
    requires InRange(x) && InRange(y) && Congruent(x, y)
    ensures x == y
  {
    var q := (x - y) / Modulus;
    assert x - y == q * Modulus;
    assert -Modulus < q * Modulus < Modulus;
  }

  predicate IsWhite(c: char) {
    c == ' ' || '\t' <= c <= '\r'
  }

  predicate IsDigit(c: char) {
    '0' <= c <= '9'
  }

  predicate AllDigits(s: string) {
    forall k :: 0 <= k < |s| ==> IsDigit(s[k])
  }

  predicate AllWhite(s: string) {
    forall k :: 0 <= k < |s| ==> IsWhite(s[k])
  }

  /** No sign, or a single '+' or '-'. */
  predicate IsSign(sign: string) {
    |sign| <= 1 && (|sign| == 1 ==> sign[0] == '+' || sign[0] == '-')
  }

  predicate IsMinus(sign: string) {
    |sign| == 1 && sign[0] == '-'
  }

  /**
   * s is what NumberStyles.Integer accepts, cut into its parts: leading
   * white space, an optional sign, one or more decimal digits, trailing
   * white space.
   */
  ghost predicate NumericParts(s: string, lead: string, sign: string, digits: string, trail: string) {
    && s == lead + sign + digits + trail
    && AllWhite(lead) && IsSign(sign) && digits != [] && AllDigits(digits) && AllWhite(trail)
  }

  ghost predicate Numeric(s: string) {
    exists lead, sign, digits, trail :: NumericParts(s, lead, sign, digits, trail)
  }

  /** The index of the first character at or after i that is not white space, |s| if there is none. */
  function ContentStart(s: string, i: nat): (k: nat)
    requires i <= |s|
    ensures i <= k <= |s| && (k == |s| || !IsWhite(s[k]))
    ensures forall m :: i <= m < k ==> IsWhite(s[m])
    decreases |s| - i
  {
    if i < |s| && IsWhite(s[i]) then ContentStart(s, i + 1) else i
  }

  /** The index just past the last character before j that is not white space, 0 if there is none. */
  function ContentEnd(s: string, j: nat): (k: nat)
    requires j <= |s|
    ensures k <= j && (k == 0 || !IsWhite(s[k - 1]))
    ensures forall m :: k <= m < j ==> IsWhite(s[m])
  {
    if j > 0 && IsWhite(s[j - 1]) then ContentEnd(s, j - 1) else j
  }

  /** Removes leading white space. */
  function TrimStartWhite(s: string): (r: string)
    ensures |r| <= |s| && r == s[|s| - |r|..]
    ensures r == [] || !IsWhite(r[0])
    ensures s != [] && !IsWhite(s[0]) ==> r == s
  {
    s[ContentStart(s, 0)..]
  }

  /** Removes trailing white space. */
  function TrimEndWhite(s: string): (r: string)
    ensures |r| <= |s| && r == s[..|r|]
    ensures r == [] || !IsWhite(r[|r| - 1])
    ensures s != [] && !IsWhite(s[|s| - 1]) ==> r == s
  {
    s[..ContentEnd(s, |s|)]
  }

  /** The value of a string of decimal digits, most significant first. */
  function DigitsValue(d: string): nat
    requires AllDigits(d)
  {
    if |d| == 0 then 0 else DigitsValue(d[..|d| - 1]) * 10 + (d[|d| - 1] as int - '0' as int)
  }

  function DigitChar(n: nat): (c: char)
    requires n < 10
    ensures IsDigit(c) && c as int - '0' as int == n
  {
    ('0' as int + n) as char
  }

  /** The decimal representation of n, as int.ToString() writes it. */
  function Decimal(n: nat): (d: string)
    ensures |d| > 0 && AllDigits(d)
  {
    if n < 10 then [DigitChar(n)] else Decimal(n / 10) + [DigitChar(n % 10)]
  }

  lemma {:induction false} DecimalRoundTrip(n: nat)
    ensures DigitsValue(Decimal(n)) == n
  {
    if n >= 10 {
      var d := Decimal(n);
      assert d[..|d| - 1] == Decimal(n / 10);
      DecimalRoundTrip(n / 10);
    }
  }

  /** The value a sign and a run of digits denote. */
  function SignedValue(sign: string, digits: string): int
    requires AllDigits(digits)
  {
    var magnitude: int := DigitsValue(digits);
    if IsMinus(sign) then -magnitude else magnitude
  }

  /** The sign and digits int.Parse reads once surrounding white space is removed. */
  function SignAndDigits(t: string): (bool, string) {
    if |t| > 0 && t[0] == '-' then (true, t[1..])
    else if |t| > 0 && t[0] == '+' then (false, t[1..])
    else (false, t)
  }

  /** White space in front of a part that does not start with white space is cut off exactly. */
  lemma TrimStartWhiteLead(lead: string, x: string)
    requires AllWhite(lead) && (x == [] || !IsWhite(x[0]))
    ensures TrimStartWhite(lead + x) == x
  {
    var w := lead + x;
    var k := ContentStart(w, 0);
    assert forall m :: 0 <= m < |lead| ==> w[m] == lead[m];
    assert x != [] ==> w[|lead|] == x[0];
    assert k == |lead|;
    assert w[|lead|..] == x;
  }

  /** White space after a part that does not end in white space is cut off exactly. */
  lemma TrimEndWhiteTrail(x: string, trail: string)
    requires AllWhite(trail) && (x == [] || !IsWhite(x[|x| - 1]))
    ensures TrimEndWhite(x + trail) == x
  {
    var w := x + trail;
    var k := ContentEnd(w, |w|);
    assert forall m :: |x| <= m < |w| ==> w[m] == trail[m - |x|];
    assert x != [] ==> w[|x| - 1] == x[|x| - 1];
    assert k == |x|;
    assert w[..|x|] == x;
  }

  /** An optional sign followed by digits reads as that sign and those digits. */
  lemma SignThenDigits(sign: string, digits: string)
    requires IsSign(sign) && digits != [] && AllDigits(digits)
    ensures SignAndDigits(sign + digits) == (IsMinus(sign), digits)
  {
    var t := sign + digits;
    if sign == [] {
      assert t == digits && IsDigit(t[0]);
    } else {
      assert t[0] == sign[0] && t[1..] == digits;
    }
  }

  /** However a numeric string is cut into parts, int.Parse reads the same sign and digits. */
  lemma PartsAreRead(s: string, lead: string, sign: string, digits: string, trail: string)
    requires NumericParts(s, lead, sign, digits, trail)
    ensures SignAndDigits(TrimEndWhite(TrimStartWhite(s))) == (IsMinus(sign), digits)
  {
    var t := sign + digits;
    var x := t + trail;
    assert s == lead + x;
    assert !IsWhite(x[0]) by {
      if sign == [] { assert x[0] == digits[0]; } else { assert x[0] == sign[0]; }
    }
    TrimStartWhiteLead(lead, x);
    assert !IsWhite(t[|t| - 1]) by {
      assert t[|t| - 1] == digits[|digits| - 1];
    }
    TrimEndWhiteTrail(t, trail);
    SignThenDigits(sign, digits);
  }

  /** What SignAndDigits reads is an optional sign followed by the rest. */
  lemma SignAndDigitsSplit(t: string)
    ensures var d := SignAndDigits(t).1;
      && |d| <= |t| && t == t[..|t| - |d|] + d && IsSign(t[..|t| - |d|])
      && SignAndDigits(t).0 == IsMinus(t[..|t| - |d|])
  {
    var d := SignAndDigits(t).1;
    if |d| < |t| {
      assert t[..1] == [t[0]];
    }
    assert t == t[..|t| - |d|] + d;
  }

  /** What TrimStartWhite cuts off is white space. */
  lemma LeadIsWhite(s: string)
    ensures AllWhite(s[..|s| - |TrimStartWhite(s)|])
  {
    var k := ContentStart(s, 0);
    assert |s| - |TrimStartWhite(s)| == k;
    forall m | 0 <= m < k ensures IsWhite(s[..k][m]) {
      assert s[..k][m] == s[m];
    }
  }

  /** What TrimEndWhite cuts off is white space. */
  lemma TrailIsWhite(u: string)
    ensures AllWhite(u[|TrimEndWhite(u)|..])
  {
    var k := ContentEnd(u, |u|);
    assert |TrimEndWhite(u)| == k;
    forall m | 0 <= m < |u| - k ensures IsWhite(u[k..][m]) {
      assert u[k..][m] == u[k + m];
    }
  }

  lemma PartsAreNumeric(s: string, lead: string, sign: string, digits: string, trail: string)
    requires NumericParts(s, lead, sign, digits, trail)
    ensures Numeric(s)
  {
  }

  /** A string is its part before index a followed by its part from a. */
  lemma SplitAt(s: string, a: nat)
    requires a <= |s|
    ensures s == s[..a] + s[a..]
  {
  }

  /** Four parts joined step by step are the four parts joined left to right. */
  lemma JoinFour(s: string, lead: string, u: string, t: string, trail: string, sign: string, digits: string)
    requires s == lead + u && u == t + trail && t == sign + digits
    ensures s == lead + sign + digits + trail
  {
  }

  /** White space, then an optional sign and digits, then white space, is numeric. */
  lemma NumericFromCuts(s: string, u: string, t: string, digits: string)
    requires |u| <= |s| && u == s[|s| - |u|..] && AllWhite(s[..|s| - |u|])
    requires |t| <= |u| && t == u[..|t|] && AllWhite(u[|t|..])
    requires |digits| <= |t| && t == t[..|t| - |digits|] + digits && IsSign(t[..|t| - |digits|])
    requires digits != [] && AllDigits(digits)
    ensures Numeric(s)
  {
    var lead, sign, trail := s[..|s| - |u|], t[..|t| - |digits|], u[|t|..];
    SplitAt(s, |s| - |u|);
    SplitAt(u, |t|);
    JoinFour(s, lead, u, t, trail, sign, digits);
    PartsAreNumeric(s, lead, sign, digits, trail);
  }

  /** When int.Parse finds digits after trimming and the sign, its input is numeric. */
  lemma ReadIsNumeric(s: string)
    requires var digits := SignAndDigits(TrimEndWhite(TrimStartWhite(s))).1;
      digits != [] && AllDigits(digits)
    ensures Numeric(s)
  {
    var u := TrimStartWhite(s);
    var t := TrimEndWhite(u);
    LeadIsWhite(s);
    TrailIsWhite(u);
    SignAndDigitsSplit(t);
    NumericFromCuts(s, u, t, SignAndDigits(t).1);
  }

  datatype ParseError = ArgumentNull | FormatError | OverflowError

  /**
   * int.Parse(s): ArgumentNullException on null, FormatException when s is
   * not white space, an optional sign and at least one digit, white space,
   * and OverflowException when the value does not fit in an int.
   */
  function Parse(s: Option<string>): (r: Result<int, ParseError>)
    ensures r == Err(ArgumentNull) <==> s.None?
    ensures s.Some? && !Numeric(s.value) ==> r == Err(FormatError)
    ensures r.Ok? ==> InRange(r.value)
  {
    if s.None? then Err(ArgumentNull)
    else
      var t := TrimEndWhite(TrimStartWhite(s.value));
      var (negative, digits) := SignAndDigits(t);
      if digits == [] || !AllDigits(digits) then Err(FormatError)
      else
        ReadIsNumeric(s.value);
        var magnitude: int := DigitsValue(digits);
        var v := if negative then -magnitude else magnitude;
        if InRange(v) then Ok(v) else Err(OverflowError)
  }

  /** What Parse makes of the sign and digits it reads. */
  lemma ParseOfRead(s: string, negative: bool, digits: string)
    requires SignAndDigits(TrimEndWhite(TrimStartWhite(s))) == (negative, digits)
    requires digits != [] && AllDigits(digits)
    ensures var magnitude: int := DigitsValue(digits);
      var v := if negative then -magnitude else magnitude;
      Parse(Some(s)) == if InRange(v) then Ok(v) else Err(OverflowError)
  {
  }

  /**
   * However a numeric string is cut into white space, sign, digits and white
   * space, int.Parse yields the value of that sign and those digits, or
   * OverflowException when it is not an int.
   */
  lemma ParseNumeric(s: string, lead: string, sign: string, digits: string, trail: string)
    requires NumericParts(s, lead, sign, digits, trail)
    ensures Parse(Some(s)) ==
      (if InRange(SignedValue(sign, digits)) then Ok(SignedValue(sign, digits)) else Err(OverflowError))
  {
    PartsAreRead(s, lead, sign, digits, trail);
    ParseOfRead(s, IsMinus(sign), digits);
  }

  /** A numeric string holds a digit. */
  lemma NumericHasDigit(s: string)
    requires Numeric(s)
    ensures exists k :: 0 <= k < |s| && IsDigit(s[k])
  {
    var lead, sign, digits, trail :| NumericParts(s, lead, sign, digits, trail);
    assert s[|lead| + |sign|] == digits[0];
  }

  /** A count followed by a unit is not a number to int.Parse. */
  lemma ParseRejectsUnit()
    ensures Parse(Some("20MB")) == Err(FormatError)
  {
    var s := "20MB";
    assert TrimStartWhite(s) == s;
    assert TrimEndWhite(s) == s;
    assert SignAndDigits(s).1 == s && !IsDigit(s[2]);
  }

  /** A count followed by a unit is outside the grammar int.Parse accepts. */
  lemma UnitNotNumeric()
    ensures !Numeric("20MB")
  {
    ParseRejectsUnit();
    if Numeric("20MB") {
      var lead, sign, digits, trail :| NumericParts("20MB", lead, sign, digits, trail);
      ParseNumeric("20MB", lead, sign, digits, trail);
      assert false;
    }
  }

  /** int.ToString() under the invariant culture. */
  function Format(n: int): (s: string) {
    if n < 0 then "-" + Decimal(-n) else Decimal(n)
  }

  /** Format writes no surrounding white space, then the sign, then the digits. */
  lemma FormatShape(n: int)
    ensures TrimEndWhite(TrimStartWhite(Format(n))) == Format(n)
    ensures SignAndDigits(Format(n)) == (n < 0, Decimal(if n < 0 then -n else n))
  {
    var s := Format(n);
    var d := Decimal(if n < 0 then -n else n);
    assert s[|s| - 1] == d[|d| - 1];
    assert !IsWhite(s[0]) && !IsWhite(s[|s| - 1]);
    if n < 0 {
      assert s[1..] == d;
    }
  }

  /** Every int survives being written out and parsed back. */
  lemma ParseFormat(n: int)
    requires InRange(n)
    ensures Parse(Some(Format(n))) == Ok(n)
  {
    var m: nat := if n < 0 then -n else n;
    var s := Format(n);
    FormatShape(n);
    DecimalRoundTrip(m);
    var p := SignAndDigits(TrimEndWhite(TrimStartWhite(s)));
    assert p == (n < 0, Decimal(m));
    assert p.1 != [] && AllDigits(p.1) && DigitsValue(p.1) == m;
  }
}
