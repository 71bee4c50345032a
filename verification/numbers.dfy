/** Python's `int(str)` and `float(str)` as partial parsers. A float is kept as
    the exact value its literal denotes (no IEEE rounding), or as one of the
    two infinities or NaN. */
module PyNum {
  import opened Wrappers
  import opened PyStr

  datatype Float = Finite(value: real) | Infinite(negative: bool) | NaN

  predicate IsDigit(c: char)
  {
    '0' <= c <= '9'
  }

  predicate AllDigits(s: string)
  {
    forall i :: 0 <= i < |s| ==> IsDigit(s[i])
  }

  /** The number a run of decimal digits denotes. */
  function DigitsValue(s: string): nat
    requires AllDigits(s)
  {
    if |s| == 0 then 0
    else 10 * DigitsValue(s[..|s| - 1]) + (s[|s| - 1] as int - '0' as int)
  }

  function Pow10(e: nat): (p: nat)
    ensures p >= 1
  {
    if e == 0 then 1 else 10 * Pow10(e - 1)
  }

  /** Decimal digits of `n` without leading zeros (`str(n)` for `n >= 0`). */
  function NatToDigits(n: nat): (s: string)
    ensures |s| >= 1 && AllDigits(s)
    ensures DigitsValue(s) == n
  {
    var last := ['0' + (n % 10) as char];
    if n < 10 then last
    else
      var s := NatToDigits(n / 10) + last;
      assert s[..|s| - 1] == NatToDigits(n / 10);
      s
  }

  /** `str(n)`. */
  function IntToString(n: int): string
  {
    if n < 0 then "-" + NatToDigits(-n) else NatToDigits(n)
  }

  /** An optional leading sign: whether it is `-`, and the rest. */
  function Sign(t: string): (r: (bool, string))
    ensures r.1 == t || (|t| > 0 && (t[0] == '+' || t[0] == '-') && r.1 == t[1..])
  {
    if |t| > 0 && (t[0] == '+' || t[0] == '-') then (t[0] == '-', t[1..]) else (false, t)
  }

  /** What is left once `strip()` and a leading sign are removed lies in the
      string, and a minus sign removed was the string's. */
  lemma SignedBodyIn(s: string)
    ensures var (negative, body) := Sign(Strip(s));
      (forall c :: c in body ==> c in s) && (negative ==> '-' in s)
  {
    StripSpec(s);
    var t := Strip(s);
    var i := |s| - |LStrip(s, IsSpace)|;
    assert s[i..i + |t|] == t;
    forall c | c in t ensures c in s {
      var j :| 0 <= j < |t| && t[j] == c;
      assert s[i + j] == c;
    }
  }

  /** `int(s)`: surrounding whitespace, an optional sign, then at least one
      decimal digit and nothing else. */
  function ParseInt(s: string): (r: Option<int>)
    ensures r.Some? ==> exists i :: 0 <= i < |s| && IsDigit(s[i])
    ensures r.Some? && r.value < 0 ==> '-' in s
  {
    SignedBodyIn(s);
    var (negative, body) := Sign(Strip(s));
    if |body| > 0 && AllDigits(body) then
      var v: int := DigitsValue(body);
      assert body[0] in body && IsDigit(body[0]);
      Some(if negative then -v else v)
    else None
  }

  /** `int(str(n)) == n`. */
  lemma ParseIntOfString(n: int)
    ensures ParseInt(IntToString(n)) == Some(n)
  {
    var m: nat := if n < 0 then -n else n;
    var d := NatToDigits(m);
    var s := IntToString(n);
    assert s == (if n < 0 then "-" else "") + d;
    DigitsHaveNoSpace(s);
    assert Sign(s) == (n < 0, d);
  }

  /** A signed digit string is left alone by `strip()`. */
  lemma DigitsHaveNoSpace(s: string)
    requires |s| > 0 && (IsDigit(s[0]) || s[0] == '-') && IsDigit(s[|s| - 1])
    ensures Strip(s) == s
  {
    var c, d := s[0], s[|s| - 1];
    assert '0' <= d <= '9';
    assert !IsSpace(d);
    assert !IsSpace(c);
    StripUnspaced(s);
  }

  /** End of the run of digits starting at `i`. */
  function SpanDigits(s: string, i: nat): (j: nat)
    requires i <= |s|
    ensures i <= j <= |s| && AllDigits(s[i..j])
    ensures j == |s| || !IsDigit(s[j])
    decreases |s| - i
  {
    if i < |s| && IsDigit(s[i]) then
      SpanDigits(s, i + 1)
    else i
  }

  function ToLower(c: char): char
  {
    if 'A' <= c <= 'Z' then (c as int + 32) as char else c
  }

  /** `s.lower() == word` for a lower-case ASCII `word`. */
  predicate EqualsIgnoringCase(s: string, word: string)
  {
    |s| == |word| && forall i :: 0 <= i < |s| ==> ToLower(s[i]) == word[i]
  }

  /** `m * 10^e` for a possibly negative exponent. */
  function Scale(m: nat, e: int): real
  {
    if e >= 0 then (m * Pow10(e)) as real else m as real / Pow10(-e) as real
  }

  /** An unsigned decimal literal: digits with an optional fraction (at least
      one digit in all) and an optional exponent. */
  function ParseDecimal(b: string): (r: Option<real>)
    ensures r.Some? ==> exists i :: 0 <= i < |b| && IsDigit(b[i])
  {
    var a := SpanDigits(b, 0);
    var fracEnd := if a < |b| && b[a] == '.' then SpanDigits(b, a + 1) else a;
    var frac := if a < |b| && b[a] == '.' then b[a + 1..fracEnd] else "";
    var mantissa := b[..a] + frac;
    var rest := b[fracEnd..];
    if |mantissa| == 0 then None
    else if |rest| == 0 then Some(Scale(DigitsValue(mantissa), -|frac|))
    else if rest[0] == 'e' || rest[0] == 'E' then
      var (negative, digits) := Sign(rest[1..]);
      if |digits| > 0 && AllDigits(digits) then
        var v: int := DigitsValue(digits);
        var e := if negative then -v else v;
        Some(Scale(DigitsValue(mantissa), e - |frac|))
      else None
    else None
  }

  /** `float(s)`: surrounding whitespace, an optional sign, then `inf`,
      `infinity` or `nan` in any case, or a decimal literal. */
  function ParseFloat(s: string): (r: Option<Float>)
    ensures r.Some? && r.value.Finite? ==> exists i :: 0 <= i < |s| && IsDigit(s[i])
  {
    SignedBodyIn(s);
    var (negative, body) := Sign(Strip(s));
    if EqualsIgnoringCase(body, "inf") || EqualsIgnoringCase(body, "infinity") then Some(Infinite(negative))
    else if EqualsIgnoringCase(body, "nan") then Some(NaN)
    else match ParseDecimal(body)
      case None => None
      case Some(v) =>
        assert forall i :: 0 <= i < |body| ==> body[i] in body;
        Some(Finite(if negative then -v else v))
  }

  /** The two conversions the transcoder applies to cells, as values: the
      transcoder is stated for any pair of partial parsers, and `get_data`
      uses Python's. */
  datatype Parsers = Parsers(toInt: string -> Option<int>, toFloat: string -> Option<Float>)

  /** Python's `int()` and `float()`. */
  const Builtin: Parsers := Parsers(ParseInt, ParseFloat)

  /** Every literal `int()` accepts, `float()` accepts with the same value. */
  lemma IntLiteralIsFloat(s: string, n: int)
    requires ParseInt(s) == Some(n)
    ensures ParseFloat(s) == Some(Finite(n as real))
  {
    var (negative, body) := Sign(Strip(s));
    assert |body| > 0 && IsDigit(body[0]);
    assert !EqualsIgnoringCase(body, "inf") && !EqualsIgnoringCase(body, "infinity");
    assert !EqualsIgnoringCase(body, "nan");
    assert SpanDigits(body, 0) == |body|;
    assert body[..|body|] + "" == body;
    assert ParseDecimal(body) == Some(DigitsValue(body) as real);
  }

  /** A cell holding nothing, or only the ':' Eurostat writes for a missing
      observation, is not a number. */
  lemma EmptyAndColonAreNotNumbers()
    ensures ParseFloat("") == None && ParseFloat(":") == None
    ensures ParseInt("") == None
  {
    StripUnspaced(":");
    assert Sign(":") == (false, ":");
    assert SpanDigits(":", 0) == 0;
  }
}
