/**
 * Decimal text for integers and floating-point numbers: the part of Python's
 * `int(s)`, `float(s)`, `str(i)` and `str(x)` that the scripted steps use.
 *
 * A float is kept as a normalized decimal `mant / 10^exp` (no trailing zero in
 * the fraction), so that it can be printed the way Python prints it ("5.0",
 * "12.5", "-0.05") and compared as an exact `real`.
 */
module Numbers {
  import opened Wrappers
  import Text

  predicate IsDigit(c: char) {
    '0' <= c <= '9'
  }

  predicate AllDigits(s: string) {
    forall k :: 0 <= k < |s| ==> IsDigit(s[k])
  }

  /** The digit's value; other characters are never read as digits (callers check `AllDigits`). */
  function DigitValue(c: char): (d: nat)
    ensures d < 10
  {
    if IsDigit(c) then c as int - '0' as int else 0
  }

  function DigitChar(d: nat): (c: char)
    requires d < 10
    ensures IsDigit(c) && DigitValue(c) == d
  {
    ('0' as int + d) as char
  }

  function Pow10(n: nat): (p: nat)
    ensures p >= 1
  {
    if n == 0 then 1 else 10 * Pow10(n - 1)
  }

  /** The number a string of decimal digits denotes, most significant digit first. */
  function DigitsValue(s: string): nat {
    if s == [] then 0 else DigitsValue(s[..|s| - 1]) * 10 + DigitValue(s[|s| - 1])
  }

  /** `str(n)` for a non-negative integer: its digits, no leading zero. */
  function NatToString(n: nat): (s: string)
    ensures |s| >= 1 && AllDigits(s)
    ensures DigitsValue(s) == n
    ensures |s| > 1 ==> s[0] != '0'
  {
    if n < 10 then [DigitChar(n)]
    else
      var s := NatToString(n / 10) + [DigitChar(n % 10)];
      assert s[..|s| - 1] == NatToString(n / 10);
      s
  }

  lemma {:induction false} NatToStringLength(n: nat, k: nat)
    requires 1 <= k && n < Pow10(k)
    ensures |NatToString(n)| <= k
  {
    if n >= 10 {
      assert n / 10 < Pow10(k - 1);
      NatToStringLength(n / 10, k - 1);
    }
  }

  lemma AllDigitsConcat(a: string, b: string)
    requires AllDigits(a) && AllDigits(b)
    ensures AllDigits(a + b)
  {
    forall k | 0 <= k < |a + b| ensures IsDigit((a + b)[k]) {
      if k < |a| { assert (a + b)[k] == a[k]; } else { assert (a + b)[k] == b[k - |a|]; }
    }
  }

  lemma ShiftDigit(x: int, p: int, y: int, d: int)
    ensures (x * p + y) * 10 + d == x * (10 * p) + (y * 10 + d)
  {
  }

  lemma {:induction false} DigitsValueConcat(a: string, b: string)
    ensures DigitsValue(a + b) == DigitsValue(a) * Pow10(|b|) + DigitsValue(b)
    decreases |b|
  {
    if b == [] {
      assert a + b == a;
    } else {
      var b' := b[..|b| - 1];
      assert (a + b)[..|a + b| - 1] == a + b';
      assert (a + b)[|a + b| - 1] == b[|b| - 1];
      DigitsValueConcat(a, b');
      ShiftDigit(DigitsValue(a), Pow10(|b'|), DigitsValue(b'), DigitValue(b[|b| - 1]));
    }
  }

  function Zeros(n: nat): (z: string)
    ensures |z| == n && AllDigits(z) && DigitsValue(z) == 0
  {
    if n == 0 then ""
    else
      var z := Zeros(n - 1) + "0";
      assert z[..|z| - 1] == Zeros(n - 1);
      z
  }

  /** `s` left-padded with zeros to at least `width` digits. */
  function PadZeros(s: string, width: nat): (r: string)
    requires AllDigits(s)
    ensures AllDigits(r) && DigitsValue(r) == DigitsValue(s)
    ensures |r| == if |s| < width then width else |s|
  {
    var r := Zeros(if |s| < width then width - |s| else 0) + s;
    DigitsValueConcat(Zeros(if |s| < width then width - |s| else 0), s);
    r
  }

  /** `str(i)` */
  function IntToString(i: int): string {
    if i < 0 then "-" + NatToString(-i) else NatToString(i)
  }

  /** Splits an optional leading sign off: the sign's factor and the rest. */
  function SplitSign(s: string): (int, string) {
    if |s| > 0 && s[0] == '-' then (-1, s[1..])
    else if |s| > 0 && s[0] == '+' then (1, s[1..])
    else (1, s)
  }

  /**
   * `int(s)` on the decimal subset `[+-]?[0-9]+`; `None` where Python raises
   * `ValueError`.
   */
  function ParseInt(s: string): (r: Option<int>)
    ensures r.Some? <==>
      (|s| >= 1 && AllDigits(s)) || (|s| >= 2 && (s[0] == '+' || s[0] == '-') && AllDigits(s[1..]))
    ensures r.Some? && AllDigits(s) ==> r.value == DigitsValue(s)
    ensures r.Some? && s[0] == '+' ==> r.value == DigitsValue(s[1..])
    ensures r.Some? && s[0] == '-' ==> r.value == -(DigitsValue(s[1..]) as int)
  {
    var (sign, body) := SplitSign(s);
    if body != [] && AllDigits(body) then Some(sign * DigitsValue(body)) else None
  }

  lemma ParseIntOfIntToString(i: int)
    ensures ParseInt(IntToString(i)) == Some(i)
  {
    if i < 0 {
      assert ("-" + NatToString(-i))[1..] == NatToString(-i);
    }
  }

  datatype Decimal = Decimal(mant: int, exp: nat)

  /** No zero at the end of the fraction: each float has exactly one such form. */
  predicate Normalized(d: Decimal) {
    d.exp == 0 || d.mant % 10 != 0
  }

  /** The exact value `mant / 10^exp`. */
  function ToReal(d: Decimal): real {
    d.mant as real / Pow10(d.exp) as real
  }

  lemma Pow10Add(m: nat, n: nat)
    ensures Pow10(m + n) == Pow10(m) * Pow10(n)
  {
    if n > 0 {
      Pow10Add(m, n - 1);
    }
  }

  /** A value has one normalized form: two normalized decimals with the same value are the same. */
  lemma NormalizedUnique(x: Decimal, y: Decimal)
    requires Normalized(x) && Normalized(y) && ToReal(x) == ToReal(y)
    ensures x == y
  {
    if x.exp <= y.exp {
      NormalizedUniqueOrdered(x, y);
    } else {
      NormalizedUniqueOrdered(y, x);
    }
  }

  lemma NormalizedUniqueOrdered(x: Decimal, y: Decimal)
    requires Normalized(y) && ToReal(x) == ToReal(y) && x.exp <= y.exp
    ensures x == y
  {
    var e: nat := y.exp - x.exp;
    var px, pe := Pow10(x.exp), Pow10(e);
    Pow10Add(x.exp, e);
    assert Pow10(y.exp) == px * pe;
    CrossMultiply(x.mant, y.mant, px, pe);
    if e > 0 {
      TimesPowerOfTen(x.mant, e);
      assert false;
    }
  }

  lemma TimesPowerOfTen(a: int, e: nat)
    requires e >= 1
    ensures (a * Pow10(e)) % 10 == 0
  {
    assert Pow10(e) == 10 * Pow10(e - 1);
    TimesTen(a, Pow10(e - 1));
  }

  lemma TimesTen(a: int, q: int)
    ensures (a * (10 * q)) % 10 == 0
  {
    assert a * (10 * q) == (a * q) * 10;
  }

  /** `a / p == b / (p * q)` over the reals makes `b` equal to `a * q`. */
  lemma CrossMultiply(a: int, b: int, p: nat, q: nat)
    requires p >= 1 && q >= 1 && a as real / p as real == b as real / (p * q) as real
    ensures b == a * q
  {
    var rp, rq := p as real, q as real;
    assert (p * q) as real == rp * rq;
    assert b as real == (a as real / rp) * (rp * rq);
    assert b as real == a as real * rq;
    assert (a * q) as real == a as real * rq;
  }

  function Normalize(d: Decimal): (r: Decimal)
    ensures Normalized(r) && ToReal(r) == ToReal(d)
    decreases d.exp
  {
    if d.exp > 0 && d.mant % 10 == 0 then
      var q := d.mant / 10;
      assert d.mant == 10 * q;
      assert Pow10(d.exp) == 10 * Pow10(d.exp - 1);
      assert ToReal(Decimal(q, d.exp - 1)) == ToReal(d) by {
        var p := Pow10(d.exp - 1) as real;
        assert (10 * q) as real / (10.0 * p) == q as real / p;
      }
      Normalize(Decimal(q, d.exp - 1))
    else d
  }

  /** The digits of `s` as `mant / 10^exp`, before trailing fraction zeros are dropped. */
  function DecimalDigits(s: string): Option<Decimal> {
    var (sign, body) := SplitSign(s);
    var (whole, frac) := SplitPoint(body);
    if AllDigits(whole) && AllDigits(frac) && |whole| + |frac| >= 1 then
      Some(Decimal(sign * DigitsValue(whole + frac), |frac|))
    else None
  }

  /** The text before and after the first '.', or all of it and "" when there is none. */
  function SplitPoint(body: string): (string, string) {
    match Text.Find(body, ".", 0)
    case None => (body, "")
    case Some(k) => (body[..k], body[k + 1..])
  }

  /**
   * `float(s)` on the decimal subset `[+-]?([0-9]+(\.[0-9]*)?|\.[0-9]+)`;
   * `None` where Python raises `ValueError`.
   */
  function ParseDecimal(s: string): (r: Option<Decimal>)
    ensures r.Some? ==> Normalized(r.value)
    ensures r.Some? <==> DecimalDigits(s).Some?
    ensures r.Some? ==> ToReal(r.value) == ToReal(DecimalDigits(s).value)
  {
    match DecimalDigits(s)
    case None => None
    case Some(d) => Some(Normalize(d))
  }

  /** A string of digits without a sign or point denotes the float with that integer value. */
  lemma ParseDecimalOfDigits(s: string)
    requires |s| >= 1 && AllDigits(s)
    ensures ParseDecimal(s) == Some(Decimal(DigitsValue(s), 0))
  {
    assert IsDigit(s[0]);
    assert SplitSign(s) == (1, s);
    forall j | 0 <= j ensures !Text.OccursAt(s, ".", j) {
      if j + 1 <= |s| { assert s[j..j + 1] == [s[j]]; }
    }
    assert SplitPoint(s) == (s, "");
    assert s + "" == s;
  }

  /** Text that starts with neither a digit, a sign nor a point is not a float. */
  lemma ParseDecimalOfNonNumeric(s: string)
    requires |s| >= 1 && !IsDigit(s[0]) && s[0] != '+' && s[0] != '-' && s[0] != '.'
    ensures ParseDecimal(s) == None
  {
    assert SplitSign(s) == (1, s);
    match Text.Find(s, ".", 0)
    case None =>
      assert SplitPoint(s) == (s, "");
    case Some(k) =>
      assert SplitPoint(s).0 == s[..k] && s[..k][0] == s[0];
  }

  /** `str(x)` for a float in positional notation (see README for its range). */
  function ShowDecimal(d: Decimal): (r: string)
    ensures |r| >= 3
    ensures r[0] == '-' <==> d.mant < 0
  {
    if d.exp == 0 then IntToString(d.mant) + ".0"
    else (if d.mant < 0 then "-" else "") + Positional(if d.mant < 0 then -d.mant else d.mant, Pow10(d.exp), d.exp)
  }

  /** `a / p` written with `width` digits after the point, where `p` is `10^width`. */
  function Positional(a: nat, p: nat, width: nat): string
    requires p >= 1
  {
    NatToString(a / p) + "." + PadZeros(NatToString(a % p), width)
  }

  lemma SplitPointAfterDigits(digits: string, rest: string)
    requires AllDigits(digits)
    ensures SplitPoint(digits + "." + rest) == (digits, rest)
  {
    var s := digits + "." + rest;
    assert Text.OccursAt(s, ".", |digits|) by { assert s[|digits|..|digits| + 1] == "."; }
    forall j | 0 <= j < |digits| ensures !Text.OccursAt(s, ".", j) {
      assert s[j..j + 1] == [digits[j]];
    }
    assert Text.Find(s, ".", 0) == Some(|digits|);
    assert s[..|digits|] == digits && s[|digits| + 1..] == rest;
  }

  /** Reading `sign whole . frac` back: the digits on both sides of the point, as one number. */
  lemma ParseDecimalParts(negative: bool, whole: string, frac: string)
    requires AllDigits(whole) && AllDigits(frac) && |whole| >= 1
    ensures AllDigits(whole + frac)
    ensures DecimalDigits((if negative then "-" else "") + whole + "." + frac) ==
      Some(Decimal((if negative then -1 else 1) * DigitsValue(whole + frac), |frac|))
  {
    var body := whole + "." + frac;
    var s := (if negative then "-" else "") + whole + "." + frac;
    assert SplitSign(s) == (if negative then -1 else 1, body) by {
      if negative { assert s[1..] == body; } else { assert s == body; }
    }
    SplitPointAfterDigits(whole, frac);
    AllDigitsConcat(whole, frac);
  }

  /** Printing a float and reading it back gives the same float. */
  lemma ParseDecimalOfShowDecimal(d: Decimal)
    requires Normalized(d)
    ensures ParseDecimal(ShowDecimal(d)) == Some(d)
  {
    var negative := d.mant < 0;
    var a: nat := if negative then -d.mant else d.mant;
    assert d.mant == (if negative then -1 else 1) * a;
    if d.exp == 0 {
      assert ShowDecimal(d) == (if negative then "-" else "") + NatToString(a) + "." + "0" by {
        if negative { assert IntToString(d.mant) == "-" + NatToString(a); }
      }
      IntegralParts(negative, a);
    } else {
      var p := Pow10(d.exp);
      assert ShowDecimal(d) == (if negative then "-" else "") + Positional(a, p, d.exp);
      PositionalParts(negative, a, p, d.exp);
    }
  }

  lemma IntegralParts(negative: bool, a: nat)
    ensures ParseDecimal((if negative then "-" else "") + NatToString(a) + "." + "0") ==
            Some(Decimal((if negative then -1 else 1) * a, 0))
  {
    var whole := NatToString(a);
    ParseDecimalParts(negative, whole, "0");
    DigitsValueConcat(whole, "0");
    assert DigitsValue(whole + "0") == a * 10;
    var m := (if negative then -1 else 1) * (a * 10);
    assert m % 10 == 0 && m / 10 == (if negative then -1 else 1) * a;
    assert Normalize(Decimal(m, 1)) == Normalize(Decimal(m / 10, 0)) == Decimal(m / 10, 0);
  }

  lemma PositionalSplit(a: nat, p: nat, width: nat) returns (q: nat, r: nat)
    requires p >= 1
    ensures a == q * p + r && r < p
    ensures Positional(a, p, width) == NatToString(q) + "." + PadZeros(NatToString(r), width)
  {
    q, r := a / p, a % p;
  }

  lemma PositionalParts(negative: bool, a: nat, p: nat, width: nat)
    requires width >= 1 && p == Pow10(width)
    requires Normalized(Decimal((if negative then -1 else 1) * a, width))
    ensures ParseDecimal((if negative then "-" else "") + Positional(a, p, width)) ==
            Some(Decimal((if negative then -1 else 1) * a, width))
  {
    var q, r := PositionalSplit(a, p, width);
    var whole := NatToString(q);
    var frac := PadZeros(NatToString(r), width);
    FractionDigits(q, r, p, width);
    assert Positional(a, p, width) == whole + "." + frac;
    SignedParts(negative, whole, frac, a, width);
  }

  /** `sign whole . frac` reads as the signed value of all its digits, over `10^|frac|`. */
  lemma SignedParts(negative: bool, whole: string, frac: string, a: nat, width: nat)
    requires AllDigits(whole) && AllDigits(frac) && |whole| >= 1 && |frac| == width
    requires DigitsValue(whole + frac) == a
    requires Normalized(Decimal((if negative then -1 else 1) * a, width))
    ensures ParseDecimal((if negative then "-" else "") + (whole + "." + frac)) ==
            Some(Decimal((if negative then -1 else 1) * a, width))
  {
    var s := (if negative then "-" else "") + (whole + "." + frac);
    assert s == (if negative then "-" else "") + whole + "." + frac;
    ParseDecimalParts(negative, whole, frac);
    ParseNormalized(s, Decimal((if negative then -1 else 1) * a, width));
  }

  /** The digits of `q` and of `r` padded to `width` denote `q * 10^width + r`. */
  lemma FractionDigits(q: nat, r: nat, p: nat, width: nat)
    requires width >= 1 && p == Pow10(width) && r < p
    ensures |PadZeros(NatToString(r), width)| == width
    ensures DigitsValue(NatToString(q) + PadZeros(NatToString(r), width)) == q * p + r
  {
    NatToStringLength(r, width);
    DigitsValueConcat(NatToString(q), PadZeros(NatToString(r), width));
  }

  /** Digits already in normalized form are read as they are. */
  lemma ParseNormalized(s: string, d: Decimal)
    requires DecimalDigits(s) == Some(d) && Normalized(d)
    ensures ParseDecimal(s) == Some(d)
  {
  }

}
