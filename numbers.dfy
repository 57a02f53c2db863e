/**
 * Bare numeric tokens and their scaling to pixels, as used by the spacing
 * middlewares and the `gap` of the stack and inline at-rules:
 * `/^-?\d*\.?\d+$/.test(t) ? `${parseFloat(t) * base}px` : t`.
 *
 * A token is read as an exact decimal (digits, and a scale counting the
 * digits after the point); the product with an integer base is then written
 * the way JavaScript writes a number whose value it holds exactly: integer
 * part, then `.` and the fraction without trailing zeros if it is not whole.
 */
module Numbers {
  import opened Text

  /** `\d*\.\d+` with the point at index i. */
  predicate PointAt(t: string, i: int) {
    0 <= i < |t| - 1 && t[i] == '.' && AllDigits(t[..i]) && AllDigits(t[i + 1..])
  }

  /** `^-?\d*\.?\d+$` without the sign: digits, at most one point, and a digit last. */
  predicate IsUnsignedNumber(t: string) {
    (t != [] && AllDigits(t)) || (exists i :: 0 <= i < |t| && PointAt(t, i))
  }

  /** The point of a `\d*\.\d+` token is its first point. */
  lemma PointIsFirst(t: string, i: int)
    requires PointAt(t, i)
    ensures IndexOf(t, '.') == i
  {
    forall j | 0 <= j < i ensures IsDigit(t[j]) {
      assert t[j] == t[..i][j];
    }
  }

  /** `^-?\d*\.?\d+$` */
  predicate IsSignedNumber(t: string) {
    IsUnsignedNumber(t) || (t != [] && t[0] == '-' && IsUnsignedNumber(t[1..]))
  }

  /** The `\d*\.\d+` alternative of the earlier pattern, with the point at index i. */
  predicate LegacyPointAt(t: string, i: int) {
    0 <= i < |t| && t[i] == '.' && AllDigits(t[..i]) && |t[i + 1..]| >= 1 && AllDigits(t[i + 1..])
  }

  /** `^(\d+|\d*\.\d+)$`, the pattern of the earlier spacing middleware, read alternative by alternative. */
  predicate IsLegacyNumber(t: string) {
    (|t| >= 1 && AllDigits(t)) || (exists i :: 0 <= i < |t| && LegacyPointAt(t, i))
  }

  /** The two patterns accept the same unsigned tokens. */
  lemma LegacyPatternIsUnsigned(t: string)
    ensures IsLegacyNumber(t) <==> IsUnsignedNumber(t)
  {
    if IsLegacyNumber(t) && !(|t| >= 1 && AllDigits(t)) {
      var i :| 0 <= i < |t| && LegacyPointAt(t, i);
      assert PointAt(t, i);
    }
    if IsUnsignedNumber(t) && !(t != [] && AllDigits(t)) {
      var i :| 0 <= i < |t| && PointAt(t, i);
      assert LegacyPointAt(t, i);
    }
  }

  /** Only the optional leading `-` of the newer pattern differs from the earlier one. */
  lemma SignedPatternIsLegacyWithSign(t: string)
    ensures IsSignedNumber(t) <==> IsLegacyNumber(t) || (t != [] && t[0] == '-' && IsLegacyNumber(t[1..]))
  {
    LegacyPatternIsUnsigned(t);
    if t != [] {
      LegacyPatternIsUnsigned(t[1..]);
    }
  }

  /** A digit run is a run of radix-10 digits. */
  lemma DigitsAreRadix10(s: string)
    requires AllDigits(s)
    ensures forall i :: 0 <= i < |s| ==> IsRadixDigit(s[i], 10)
  {
    forall i | 0 <= i < |s| ensures IsRadixDigit(s[i], 10) {
      assert IsDigit(s[i]);
    }
  }

  /** The digits of a digit run, as a number. */
  function DigitsValue(s: string): nat
    requires AllDigits(s)
  {
    DigitsAreRadix10(s);
    ParseRadix(s, 10)
  }

  /** A decimal number: (-1)^negative * mantissa / 10^scale. */
  datatype Decimal = Decimal(negative: bool, mantissa: nat, scale: nat)

  /** The exact value of an unsigned token. */
  function ParseUnsigned(t: string): (d: Decimal)
    requires IsUnsignedNumber(t)
    ensures !d.negative
  {
    if t != [] && AllDigits(t) then Decimal(false, DigitsValue(t), 0)
    else
      var i := IndexOf(t, '.');
      assert PointAt(t, i) by {
        var j :| 0 <= j < |t| && PointAt(t, j);
        PointIsFirst(t, j);
      }
      assert AllDigits(t[..i] + t[i + 1..]);
      Decimal(false, DigitsValue(t[..i] + t[i + 1..]), |t| - i - 1)
  }

  /** `parseFloat(t)` for a token of the pattern, as an exact decimal. */
  function ParseNumber(t: string): (d: Decimal)
    requires IsSignedNumber(t)
  {
    if IsUnsignedNumber(t) then ParseUnsigned(t)
    else ParseUnsigned(t[1..]).(negative := true)
  }

  /** The string of n '0' characters. */
  function Zeros(n: nat): (r: string)
    ensures |r| == n && AllDigits(r)
    ensures forall i :: 0 <= i < n ==> r[i] == '0'
  {
    if n == 0 then "" else "0" + Zeros(n - 1)
  }

  /** s without its trailing '0' characters. */
  function TrimZeros(s: string): (r: string)
    ensures |r| <= |s| && r == s[..|r|]
    ensures r == [] || r[|r| - 1] != '0'
    ensures forall i :: |r| <= i < |s| ==> s[i] == '0'
  {
    if s == [] || s[|s| - 1] != '0' then s else TrimZeros(s[..|s| - 1])
  }

  /** The digits after the point of frac / 10^k, for 0 < frac < 10^k: padded to k digits, trailing zeros dropped. */
  function FractionDigits(frac: nat, k: nat): string {
    var digits := NatToString(frac);
    TrimZeros(if |digits| < k then Zeros(k - |digits|) + digits else digits)
  }

  /** How JavaScript writes the non-negative number a / 10^k: the integer part, then the fraction if it is not whole. */
  function FormatUnsigned(a: nat, k: nat): (r: string)
    ensures |r| >= 1
  {
    var p := Pow(10, k);
    var whole: nat := a / p;
    var frac: nat := a % p;
    if frac == 0 then NatToString(whole)
    else NatToString(whole) + "." + FractionDigits(frac, k)
  }

  /** How JavaScript writes the number n / 10^k (`String(x)` for an x it holds exactly). */
  function FormatScaled(n: int, k: nat): (r: string)
    ensures |r| >= 1
  {
    var a: nat := if n < 0 then -n else n;
    (if n < 0 then "-" else "") + FormatUnsigned(a, k)
  }

  /** `${parseFloat(t) * base}px` */
  function ScaledPx(t: string, base: int): string
    requires IsSignedNumber(t)
  {
    var d := ParseNumber(t);
    FormatScaled((if d.negative then -1 else 1) * d.mantissa * base, d.scale) + "px"
  }

  // ---------------------------------------------------------------------------
  // properties

  /** With no fractional digits the formatted number is the integer's own string. */
  lemma FormatWhole(n: int)
    ensures FormatScaled(n, 0) == IntToString(n)
  {
    assert Pow(10, 0) == 1;
  }

  /** The decimal string of a number is a token of the pattern and parses back to that number. */
  lemma ParseNatToString(n: nat)
    ensures IsUnsignedNumber(NatToString(n)) && IsSignedNumber(NatToString(n))
    ensures ParseNumber(NatToString(n)) == Decimal(false, n, 0)
  {
    RadixRoundTrip(n, 10);
  }

  /** An integer token is scaled to the integer product followed by `px`: `2` with base 8 gives `16px`. */
  lemma ScaleInteger(n: nat, base: int)
    ensures ScaledPx(NatToString(n), base) == IntToString(n * base) + "px"
  {
    ParseNatToString(n);
    FormatWhole(n * base);
  }

  /** A negative integer token is scaled likewise: `-2` with base 8 gives `-16px`. */
  lemma ScaleNegativeInteger(n: nat, base: int)
    ensures IsSignedNumber("-" + NatToString(n))
    ensures ScaledPx("-" + NatToString(n), base) == IntToString(-(n * base)) + "px"
  {
    var t := "-" + NatToString(n);
    ParseNatToString(n);
    assert t[1..] == NatToString(n);
    assert !IsDigit(t[0]);
    forall i | 0 <= i < |t| ensures !PointAt(t, i) {
      if i > 0 {
        assert t[..i][0] == '-';
      }
    }
    assert !AllDigits(t);
    assert !IsUnsignedNumber(t);
    assert ParseUnsigned(t[1..]) == Decimal(false, n, 0);
    assert ParseNumber(t) == Decimal(true, n, 0);
    var m := -1 * n * base;
    assert m == -(n * base);
    FormatWhole(m);
  }

  /** A token whose only point is before its last digit keeps the digits after the point as scale: `1.5` with base 8 gives `12px`. */
  lemma OneAndAHalfTimesEight()
    ensures IsSignedNumber("1.5") && ScaledPx("1.5", 8) == "12px"
  {
    var t := "1.5";
    assert PointAt(t, 1);
    assert !AllDigits(t) by { assert !IsDigit(t[1]); }
    assert t[..1] + t[2..] == "15";
    assert DigitsValue("15") == 15 by {
      assert "15" == "1" + ['5'];
      ParseRadixSnoc("1", '5', 10);
      assert "1" == [] + ['1'];
      ParseRadixSnoc([], '1', 10);
    }
    PointIsFirst(t, 1);
    assert ParseNumber(t) == Decimal(false, 15, 1);
    assert Pow(10, 1) == 10;
    assert FormatScaled(120, 1) == NatToString(12);
    assert NatToString(12) == "12" by {
      assert NatToRadix(12, 10) == NatToRadix(1, 10) + [DigitChar(2)];
    }
  }

  // ---------------------------------------------------------------------------
  // the gap of the stack and inline at-rules

  /**
   * `isNumber ? `${parseFloat(args[0]) * base}px` : args`: a numeric first
   * argument is scaled; otherwise the whole argument list is written, as a
   * JavaScript array is, with `,` between its elements.
   */
  function Gap(args: seq<string>, base: int): (r: string)
    requires |args| >= 1
  {
    if IsSignedNumber(args[0]) then ScaledPx(args[0], base) else Join(args, ",")
  }

  /** An integer first argument gives the integer product in pixels, whatever follows it. */
  lemma GapOfInteger(n: nat, rest: seq<string>, base: int)
    ensures Gap([NatToString(n)] + rest, base) == IntToString(n * base) + "px"
  {
    ParseNatToString(n);
    ScaleInteger(n, base);
  }

  /** A single non-numeric argument, such as `12px`, is written unchanged. */
  lemma GapPassesUnitsThrough(arg: string, base: int)
    requires !IsSignedNumber(arg)
    ensures Gap([arg], base) == arg
  {
  }

  /** `0.5` with base 8 gives `4px`. */
  lemma HalfTimesEight()
    ensures IsSignedNumber("0.5") && ScaledPx("0.5", 8) == "4px"
  {
    var t := "0.5";
    assert PointAt(t, 1);
    assert !AllDigits(t) by { assert !IsDigit(t[1]); }
    assert t[..1] + t[2..] == "05";
    assert DigitsValue("05") == 5 by {
      assert "05" == "0" + ['5'];
      ParseRadixSnoc("0", '5', 10);
      assert "0" == [] + ['0'];
      ParseRadixSnoc([], '0', 10);
    }
    PointIsFirst(t, 1);
    assert ParseNumber(t) == Decimal(false, 5, 1);
    assert Pow(10, 1) == 10;
    assert FormatScaled(40, 1) == NatToString(4);
  }

  /** `12px` is not a bare number: it is written as it is. */
  lemma TwelvePxIsNotANumber()
    ensures !IsSignedNumber("12px")
  {
    var t := "12px";
    assert !IsDigit(t[2]);
    forall i | 0 <= i < |t| ensures !PointAt(t, i) {
      assert t[i] != '.';
    }
    assert t[0] != '-';
  }

  // ---------------------------------------------------------------------------
  // the value a token denotes, and the value a formatted number denotes

  /** The signed mantissa of a decimal: the decimal is this over 10^scale. */
  function Signed(d: Decimal): int {
    if d.negative then -(d.mantissa as int) else d.mantissa
  }

  lemma {:induction false} PowAdd(a: nat, b: nat)
    ensures Pow(10, a + b) == Pow(10, a) * Pow(10, b)
    decreases a
  {
    if a > 0 {
      PowAdd(a - 1, b);
      assert Pow(10, a + b) == 10 * Pow(10, a - 1 + b);
      assert Pow(10, a) == 10 * Pow(10, a - 1);
    }
  }

  /** One more digit: the value is shifted by one place and the digit added. */
  lemma DigitsSnoc(s: string, c: char)
    requires AllDigits(s) && IsDigit(c)
    ensures AllDigits(s + [c])
    ensures DigitsValue(s + [c]) == DigitsValue(s) * 10 + DigitValue(c)
  {
    assert forall i :: 0 <= i < |s| ==> (s + [c])[i] == s[i];
    DigitsAreRadix10(s);
    assert IsRadixDigit(c, 10);
    ParseRadixSnoc(s, c, 10);
  }

  /** The digits of a + b denote a's value shifted by |b| places, plus b's value. */
  lemma {:induction false} DigitsAppend(a: string, b: string)
    requires AllDigits(a) && AllDigits(b)
    ensures AllDigits(a + b)
    ensures DigitsValue(a + b) == DigitsValue(a) * Pow(10, |b|) + DigitsValue(b)
    decreases |b|
  {
    assert forall i :: 0 <= i < |a| ==> (a + b)[i] == a[i];
    assert forall i :: |a| <= i < |a + b| ==> (a + b)[i] == b[i - |a|];
    if b == [] {
      assert a + b == a;
    } else {
      var b', c := b[..|b| - 1], b[|b| - 1];
      assert forall i :: 0 <= i < |b'| ==> b'[i] == b[i];
      assert b == b' + [c] && a + b == (a + b') + [c];
      DigitsAppend(a, b');
      DigitsSnoc(a + b', c);
      DigitsSnoc(b', c);
      assert Pow(10, |b|) == 10 * Pow(10, |b'|);
      ShiftDigit(DigitsValue(a), DigitsValue(b'), Pow(10, |b'|), DigitValue(c));
    }
  }

  /** Appending a digit to both sides of `va * p + vb` multiplies p by ten. */
  lemma ShiftDigit(va: nat, vb: nat, p: nat, c: nat)
    ensures (va * p + vb) * 10 + c == va * (10 * p) + (vb * 10 + c)
  {
    calc {
      (va * p + vb) * 10 + c;
      va * p * 10 + vb * 10 + c;
      va * (10 * p) + (vb * 10 + c);
    }
  }

  /** A run of zeros denotes 0. */
  lemma {:induction false} ZerosValue(n: nat)
    ensures DigitsValue(Zeros(n)) == 0
  {
    if n > 0 {
      ZerosValue(n - 1);
      DigitsAppend("0", Zeros(n - 1));
      assert DigitsValue("0") == 0 by {
        assert "0" == [] + ['0'];
        DigitsSnoc([], '0');
      }
    }
  }

  /** Trimming drops only zeros: s is its trimmed form followed by the zeros that were removed. */
  lemma TrimZerosSplit(s: string)
    ensures s == TrimZeros(s) + Zeros(|s| - |TrimZeros(s)|)
  {
    var t := TrimZeros(s);
    var z := Zeros(|s| - |t|);
    assert forall i :: 0 <= i < |t| ==> s[i] == t[i];
    assert forall i :: |t| <= i < |s| ==> s[i] == z[i - |t|];
  }

  /** The decimal string of n, read as digits, is n; below 10^k it has at most k digits. */
  lemma NatDigits(n: nat, k: nat)
    requires k >= 1 && n < Pow(10, k)
    ensures DigitsValue(NatToString(n)) == n && |NatToString(n)| <= k
  {
    RadixLength(n, 10, k);
    RadixRoundTrip(n, 10);
  }

  /** Dropping trailing zeros divides the value by 10 once per zero dropped. */
  lemma TrimmedValue(s: string)
    requires AllDigits(s)
    ensures AllDigits(TrimZeros(s))
    ensures DigitsValue(TrimZeros(s)) * Pow(10, |s| - |TrimZeros(s)|) == DigitsValue(s)
  {
    var t := TrimZeros(s);
    TrimZerosSplit(s);
    assert AllDigits(t) by {
      forall i | 0 <= i < |t| ensures IsDigit(t[i]) {
        assert t[i] == s[i];
      }
    }
    DigitsAppend(t, Zeros(|s| - |t|));
    ZerosValue(|s| - |t|);
  }

  /** frac padded with leading zeros to k digits: k digits that denote frac. */
  lemma PaddedValue(frac: nat, k: nat)
    requires k >= 1 && frac < Pow(10, k)
    ensures var d := NatToString(frac);
      var padded := if |d| < k then Zeros(k - |d|) + d else d;
      |padded| == k && AllDigits(padded) && DigitsValue(padded) == frac
  {
    var d := NatToString(frac);
    NatDigits(frac, k);
    if |d| < k {
      LeadingZeros(k - |d|, d);
    }
  }

  /** Leading zeros do not change the value of a digit run. */
  lemma LeadingZeros(n: nat, d: string)
    requires AllDigits(d)
    ensures AllDigits(Zeros(n) + d) && DigitsValue(Zeros(n) + d) == DigitsValue(d)
  {
    DigitsAppend(Zeros(n), d);
    ZerosValue(n);
    assert 0 * Pow(10, |d|) == 0;
  }

  lemma PositiveFactor(v: nat, p: nat)
    requires v * p > 0
    ensures v > 0
  {
  }

  /** A digit run with a positive value keeps a digit when its trailing zeros are dropped. */
  lemma TrimmedPositive(s: string, x: nat)
    requires AllDigits(s) && DigitsValue(s) == x && x > 0
    ensures var f := TrimZeros(s);
      f != [] && AllDigits(f) && DigitsValue(f) * Pow(10, |s| - |f|) == x
  {
    var f := TrimZeros(s);
    TrimmedValue(s);
    PositiveFactor(DigitsValue(f), Pow(10, |s| - |f|));
    assert DigitsValue([]) == 0;
  }

  /**
   * The fraction of a number that is not whole: non-empty digits, at most k of
   * them, that denote frac once the dropped zeros are put back.
   */
  lemma FractionValue(frac: nat, k: nat)
    requires 0 < frac < Pow(10, k)
    ensures var f := FractionDigits(frac, k);
      && f != [] && AllDigits(f) && |f| <= k
      && DigitsValue(f) * Pow(10, k - |f|) == frac
  {
    assert Pow(10, 0) == 1;
    var d := NatToString(frac);
    var padded := if |d| < k then Zeros(k - |d|) + d else d;
    PaddedValue(frac, k);
    TrimmedPositive(padded, frac);
    assert FractionDigits(frac, k) == TrimZeros(padded);
  }

  /** `W.F` with digit runs W and F is a token of the pattern, read as the digits of W and F over 10^|F|. */
  lemma PointToken(w: string, f: string)
    requires w != [] && AllDigits(w) && f != [] && AllDigits(f)
    ensures IsUnsignedNumber(w + "." + f)
    ensures ParseUnsigned(w + "." + f) == Decimal(false, DigitsValue(w + f), |f|)
  {
    var t := w + "." + f;
    var i := |w|;
    assert t[..i] == w && t[i + 1..] == f && t[i] == '.';
    assert PointAt(t, i);
    assert !AllDigits(t) by { assert !IsDigit(t[i]); }
    PointIsFirst(t, i);
    assert t[..i] + t[i + 1..] == w + f;
  }

  /** `-t` is a token exactly as t is, and denotes t's value negated. */
  lemma NegatedToken(t: string)
    requires IsUnsignedNumber(t)
    ensures IsSignedNumber("-" + t)
    ensures ParseNumber("-" + t) == ParseUnsigned(t).(negative := true)
  {
    var s := "-" + t;
    assert s[1..] == t;
    assert !IsDigit(s[0]);
    forall i | 0 <= i < |s| ensures !PointAt(s, i) {
      if i > 0 {
        assert s[..i][0] == '-';
      }
    }
    assert !AllDigits(s);
  }

  /**
   * The digits `W.F` denote (whole * pf + v) / pf, and whole + frac / pk is
   * (whole * pk + frac) / pk: the same number when frac == v * pj and pk == pj * pf.
   */
  lemma CrossMultiply(m: nat, whole: nat, v: nat, frac: nat, pf: nat, pj: nat, pk: nat)
    requires m == whole * pf + v && frac == v * pj && pk == pj * pf
    ensures m * pk == (whole * pk + frac) * pf
  {
    calc {
      m * pk;
      (whole * pf + v) * pk;
      whole * pf * pk + v * (pj * pf);
      whole * pk * pf + v * pj * pf;
      (whole * pk + frac) * pf;
    }
  }

  /** A whole number is written as its integer string, which denotes it. */
  lemma WholeValue(whole: nat, k: nat)
    ensures var w := NatToString(whole);
      IsUnsignedNumber(w) && ParseUnsigned(w) == Decimal(false, whole, 0)
      && whole * Pow(10, k) == (whole * Pow(10, k) + 0) * Pow(10, 0)
  {
    ParseNatToString(whole);
    assert Pow(10, 0) == 1;
  }

  /** A number that is not whole is written `W.F`, which denotes whole + frac / 10^k. */
  lemma PointValue(whole: nat, frac: nat, k: nat)
    requires 0 < frac < Pow(10, k)
    ensures var u := NatToString(whole) + "." + FractionDigits(frac, k);
      IsUnsignedNumber(u)
      && ParseUnsigned(u).mantissa * Pow(10, k) == (whole * Pow(10, k) + frac) * Pow(10, ParseUnsigned(u).scale)
  {
    var w, f := NatToString(whole), FractionDigits(frac, k);
    FractionValue(frac, k);
    assert DigitsValue(w) == whole by {
      RadixRoundTrip(whole, 10);
    }
    DigitsPointValue(w, f, whole, frac, k);
  }

  /** `W.F` denotes whole + frac / 10^k when W denotes whole and F, padded with zeros to k digits, denotes frac. */
  lemma DigitsPointValue(w: string, f: string, whole: nat, frac: nat, k: nat)
    requires w != [] && AllDigits(w) && DigitsValue(w) == whole
    requires f != [] && AllDigits(f) && |f| <= k && DigitsValue(f) * Pow(10, k - |f|) == frac
    ensures IsUnsignedNumber(w + "." + f)
    ensures ParseUnsigned(w + "." + f).mantissa * Pow(10, k) == (whole * Pow(10, k) + frac) * Pow(10, ParseUnsigned(w + "." + f).scale)
  {
    var u := w + "." + f;
    assert AllDigits(w + f) && DigitsValue(w + f) == whole * Pow(10, |f|) + DigitsValue(f) by {
      DigitsAppend(w, f);
    }
    var m, v := DigitsValue(w + f), DigitsValue(f);
    var j := k - |f|;
    var pf, pj, pk := Pow(10, |f|), Pow(10, j), Pow(10, k);
    assert pk == pj * pf by {
      PowSplit(k, j, |f|);
    }
    CrossMultiply(m, whole, v, frac, pf, pj, pk);
    assert IsUnsignedNumber(u) && ParseUnsigned(u) == Decimal(false, m, |f|) by {
      PointToken(w, f);
    }
  }

  lemma PowSplit(k: nat, j: nat, m: nat)
    requires k == j + m
    ensures Pow(10, k) == Pow(10, j) * Pow(10, m)
  {
    PowAdd(j, m);
  }

  /** The unsigned text of a / 10^k is a token of the pattern, and it denotes a / 10^k. */
  lemma FormatUnsignedValue(a: nat, k: nat)
    ensures IsUnsignedNumber(FormatUnsigned(a, k))
    ensures var d := ParseUnsigned(FormatUnsigned(a, k));
      !d.negative && d.mantissa * Pow(10, k) == a * Pow(10, d.scale)
  {
    var p := Pow(10, k);
    var whole: nat, frac: nat := a / p, a % p;
    assert a == whole * p + frac && frac < p by {
      DivMod(a, p);
    }
    if frac == 0 {
      WholeValue(whole, k);
      assert FormatUnsigned(a, k) == NatToString(whole);
    } else {
      PointValue(whole, frac, k);
      assert FormatUnsigned(a, k) == NatToString(whole) + "." + FractionDigits(frac, k);
    }
  }

  /**
   * The formatted text of n / 10^k is a token of the pattern, and reading it
   * back gives n / 10^k, sign included (stated by cross-multiplication).
   */
  lemma FormatScaledRoundTrip(n: int, k: nat)
    ensures IsSignedNumber(FormatScaled(n, k))
    ensures var d := ParseNumber(FormatScaled(n, k));
      Signed(d) * Pow(10, k) == n * Pow(10, d.scale)
  {
    var a: nat := if n < 0 then -n else n;
    FormatUnsignedValue(a, k);
    SignedValue(FormatUnsigned(a, k), a, k, n);
  }

  /** An optional `-` before an unsigned token of a / 10^k gives a token of n / 10^k, n being a with that sign. */
  lemma SignedValue(u: string, a: nat, k: nat, n: int)
    requires IsUnsignedNumber(u)
    requires ParseUnsigned(u).mantissa * Pow(10, k) == a * Pow(10, ParseUnsigned(u).scale)
    requires a == if n < 0 then -n else n
    ensures var t := (if n < 0 then "-" else "") + u;
      IsSignedNumber(t) && Signed(ParseNumber(t)) * Pow(10, k) == n * Pow(10, ParseNumber(t).scale)
  {
    var pu := ParseUnsigned(u);
    if n < 0 {
      NegatedToken(u);
      assert ParseNumber("-" + u) == pu.(negative := true);
      NegatedProduct(pu.mantissa, Pow(10, k), a, Pow(10, pu.scale));
    } else {
      assert "" + u == u;
    }
  }

  lemma NegatedProduct(m: int, pk: int, a: int, ps: int)
    requires m * pk == a * ps
    ensures (-m) * pk == -a * ps
  {
  }

  /** A token with a point denotes its integer digits followed by its fraction digits, over 10^(number of fraction digits). */
  lemma ParseUnsignedValue(t: string, i: nat)
    requires PointAt(t, i)
    ensures IsUnsignedNumber(t)
    ensures ParseUnsigned(t).scale == |t| - i - 1
    ensures ParseUnsigned(t).mantissa == DigitsValue(t[..i]) * Pow(10, |t| - i - 1) + DigitsValue(t[i + 1..])
  {
    assert t[i] == '.';
    assert !AllDigits(t) by { assert !IsDigit(t[i]); }
    PointIsFirst(t, i);
    DigitsAppend(t[..i], t[i + 1..]);
  }

  /**
   * `${parseFloat(t) * base}px`: the text before `px` is a token of the
   * pattern, and it denotes the token's value times base.
   */
  lemma ScaledPxValue(t: string, base: int)
    requires IsSignedNumber(t)
    ensures var d, x := ParseNumber(t), FormatScaled(Signed(ParseNumber(t)) * base, ParseNumber(t).scale);
      && ScaledPx(t, base) == x + "px"
      && IsSignedNumber(x)
      && Signed(ParseNumber(x)) * Pow(10, d.scale) == Signed(d) * base * Pow(10, ParseNumber(x).scale)
  {
    var d := ParseNumber(t);
    var n := Signed(d) * base;
    assert (if d.negative then -1 else 1) * d.mantissa * base == n;
    FormatScaledRoundTrip(n, d.scale);
  }
}
