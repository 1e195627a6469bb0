/** Numbers as exact decimals: what `input >> value` reads and what `stream << value` prints
    under a given `std::setprecision`. */
module JsonNumber {
  import opened Text

  /** m * 10^e. Kept canonical, so that equal numbers are equal values. */
  datatype Decimal = Dec(m: int, e: int) {
    predicate Canonical() {
      if m == 0 then e == 0 else m % 10 != 0
    }
  }

  type Number = d: Decimal | d.Canonical() witness Dec(0, 0)

  function Abs(i: int): nat { if i < 0 then -i else i }

  /** Number of significant digits; 1 for zero. */
  function Digits(d: Number): nat { |NatText(Abs(d.m))| }

  /** The canonical form of m * 10^e. */
  function Canon(m: int, e: int): (d: Number)
    decreases Abs(m)
  {
    if m == 0 then Dec(0, 0)
    else if m % 10 == 0 then Canon(m / 10, e + 1)
    else Dec(m, e)
  }

  lemma CanonTen(x: int, e: int)
    requires x != 0
    ensures Canon(10 * x, e) == Canon(x, e + 1)
  {
    assert (10 * x) % 10 == 0 && (10 * x) / 10 == x;
  }

  lemma {:induction false} CanonScale(m: int, k: nat, e: int)
    ensures Canon(m * Pow10(k), e) == Canon(m, e + k)
    decreases k
  {
    hide Canon;
    if m == 0 {
      assert Canon(0, e) == Dec(0, 0) == Canon(0, e + k) by { CanonZero(e); CanonZero(e + k); }
    } else if k > 0 {
      var p := Pow10(k - 1);
      CanonTen(m * p, e);
      CanonScale(m, k - 1, e + 1);
    }
  }

  lemma CanonZero(e: int)
    ensures Canon(0, e) == Dec(0, 0)
  {
  }

  /** Two decimals with one canonical form denote one number: scaled to a common exponent they agree. */
  lemma {:induction false} CanonKeepsValue(m: int, e: int)
    ensures var d := Canon(m, e);
            m != 0 ==> d.e >= e && m == d.m * Pow10(d.e - e)
    ensures m == 0 <==> Canon(m, e).m == 0
    decreases Abs(m)
  {
    if m != 0 && m % 10 == 0 {
      CanonKeepsValue(m / 10, e + 1);
      var d := Canon(m, e);
      assert m == 10 * (d.m * Pow10(d.e - e - 1)) == d.m * Pow10(d.e - e);
    }
  }

  // ---------------------------------------------------------------- reading

  datatype Sign = Unsigned | Plus | Minus

  function SignText(s: Sign): string {
    match s case Unsigned => "" case Plus => "+" case Minus => "-"
  }

  function Signed(s: Sign, n: nat): int { if s.Minus? then 0 - n else n }

  datatype Exponent = NoExponent | Exponent(mark: char, sign: Sign, digits: string)

  /** The characters a number conversion has accumulated: sign, integer part, fraction, exponent. */
  datatype Literal = Literal(sign: Sign, whole: string, point: bool, fraction: string, exponent: Exponent)

  function ExponentText(x: Exponent): string {
    match x
    case NoExponent => ""
    case Exponent(mark, sign, digits) => [mark] + SignText(sign) + digits
  }

  function LiteralText(l: Literal): string {
    SignText(l.sign) + l.whole + (if l.point then "." else "") + l.fraction + ExponentText(l.exponent)
  }

  /** What `strtold` accepts in full, among the accumulated shapes. */
  predicate ValidLiteral(l: Literal) {
    && AllDigits(l.whole) && AllDigits(l.fraction) && (!l.point ==> l.fraction == "")
    && l.whole + l.fraction != ""
    && (l.exponent.Exponent? ==>
          l.exponent.mark in "eE" && l.exponent.digits != "" && AllDigits(l.exponent.digits))
  }

  function LiteralValue(l: Literal): Number
    requires ValidLiteral(l)
  {
    var x := if l.exponent.NoExponent? then 0 else Signed(l.exponent.sign, DigitsValue(l.exponent.digits));
    assert AllDigits(l.whole + l.fraction);
    Canon(Signed(l.sign, DigitsValue(l.whole + l.fraction)), x - |l.fraction|)
  }

  function TakeSign(s: string): (r: (Sign, string))
    ensures SignText(r.0) + r.1 == s
  {
    if s != "" && s[0] == '+' then (Plus, s[1..])
    else if s != "" && s[0] == '-' then (Minus, s[1..])
    else (Unsigned, s)
  }

  function TakeDigits(s: string): (r: (string, string))
    ensures AllDigits(r.0) && r.0 + r.1 == s
    ensures r.1 != "" ==> !IsDigit(r.1[0])
  {
    if s != "" && IsDigit(s[0]) then
      var (ds, rest) := TakeDigits(s[1..]);
      assert [s[0]] + s[1..] == s;
      ([s[0]] + ds, rest)
    else ("", s)
  }

  function TakeExponent(s: string): (r: (Exponent, string))
    ensures ExponentText(r.0) + r.1 == s
  {
    if s != "" && s[0] in "eE" then
      var (sign, t) := TakeSign(s[1..]);
      var (digits, rest) := TakeDigits(t);
      assert s == [s[0]] + (SignText(sign) + (digits + rest));
      (Exponent(s[0], sign, digits), rest)
    else (NoExponent, s)
  }

  function TakeFraction(s: string): (r: (bool, string, string))
    ensures (if r.0 then "." else "") + (r.1 + r.2) == s
    ensures AllDigits(r.1) && (!r.0 ==> r.1 == "")
  {
    if s != "" && s[0] == '.' then
      var (digits, rest) := TakeDigits(s[1..]);
      (true, digits, rest)
    else
      assert "" + ("" + s) == s;
      (false, "", s)
  }

  /** `num_get`'s greedy accumulation: an exponent mark counts only after a mantissa digit. */
  function TakeLiteral(s: string): (r: (Literal, string))
    ensures |r.1| <= |s|
  {
    var (sign, s1) := TakeSign(s);
    var (whole, s2) := TakeDigits(s1);
    var (point, fraction, s3) := TakeFraction(s2);
    var (exponent, s4) := if whole + fraction != "" then TakeExponent(s3) else (NoExponent, s3);
    (Literal(sign, whole, point, fraction, exponent), s4)
  }

  /** Accumulation splits the input: nothing is lost or reordered. */
  lemma TakeLiteralSplits(s: string)
    ensures LiteralText(TakeLiteral(s).0) + TakeLiteral(s).1 == s
  {
    var (sign, s1) := TakeSign(s);
    var (whole, s2) := TakeDigits(s1);
    var (point, fraction, s3) := TakeFraction(s2);
    var (exponent, s4) := if whole + fraction != "" then TakeExponent(s3) else (NoExponent, s3);
    Concat5(SignText(sign), whole, if point then "." else "", fraction, ExponentText(exponent), s4);
    assert ExponentText(exponent) + s4 == s3;
  }

  lemma Concat5(a: string, b: string, c: string, d: string, e: string, f: string)
    ensures a + b + c + d + e + f == a + (b + (c + (d + (e + f))))
  {
  }

  function Follows(rest: string): bool {
    rest == "" || !(IsDigit(rest[0]) || rest[0] in ".eE")
  }

  lemma {:induction false} TakeDigitsExact(ds: string, rest: string)
    requires AllDigits(ds) && (rest != "" ==> !IsDigit(rest[0]))
    ensures TakeDigits(ds + rest) == (ds, rest)
    decreases |ds|
  {
    if ds == "" {
      assert ds + rest == rest;
    } else {
      TakeDigitsExact(ds[1..], rest);
      assert (ds + rest)[1..] == ds[1..] + rest;
      assert [ds[0]] + ds[1..] == ds;
    }
  }

  lemma TakeSignExact(s: Sign, rest: string)
    requires rest != "" && rest[0] != '+' && rest[0] != '-'
    ensures TakeSign(SignText(s) + rest) == (s, rest)
  {
    if s.Unsigned? { assert SignText(s) + rest == rest; }
  }

  lemma TakeExponentExact(x: Exponent, rest: string)
    requires x.Exponent? ==> x.mark in "eE" && x.digits != "" && AllDigits(x.digits)
    requires Follows(rest)
    ensures TakeExponent(ExponentText(x) + rest) == (x, rest)
  {
    match x
    case NoExponent =>
      assert ExponentText(x) + rest == rest;
    case Exponent(mark, sign, digits) =>
      var s := ExponentText(x) + rest;
      assert s[1..] == SignText(sign) + (digits + rest);
      assert (digits + rest)[0] == digits[0] && digits[0] in digits;
      TakeSignExact(sign, digits + rest);
      TakeDigitsExact(digits, rest);
  }

  lemma TakeFractionExact(point: bool, digits: string, rest: string)
    requires AllDigits(digits) && (!point ==> digits == "")
    requires rest != "" ==> !IsDigit(rest[0]) && rest[0] != '.'
    ensures TakeFraction((if point then "." else "") + (digits + rest)) == (point, digits, rest)
  {
    var s := (if point then "." else "") + (digits + rest);
    TakeDigitsExact(digits, rest);
    if point { assert s[1..] == digits + rest; } else { assert s == rest; }
  }

  /** A valid numeral is read back whole, whatever it is followed by short of more numeral. */
  lemma TakeLiteralExact(l: Literal, rest: string)
    requires ValidLiteral(l) && Follows(rest)
    ensures TakeLiteral(LiteralText(l) + rest) == (l, rest)
  {
    var x := ExponentText(l.exponent) + rest;
    TakeExponentExact(l.exponent, rest);
    assert x != "" ==> !IsDigit(x[0]) && x[0] != '.' by {
      if l.exponent.NoExponent? { assert x == rest; } else { assert x[0] == l.exponent.mark; }
    }
    var f := (if l.point then "." else "") + (l.fraction + x);
    TakeFractionExact(l.point, l.fraction, x);
    assert f != "" ==> !IsDigit(f[0]) by { if !l.point { assert f == x; } else { assert f[0] == '.'; } }
    TakeDigitsExact(l.whole, f);
    var m := l.whole + f;
    MantissaStart(l.whole, l.point, l.fraction, x);
    TakeSignExact(l.sign, m);
    Concat5(SignText(l.sign), l.whole, if l.point then "." else "", l.fraction, ExponentText(l.exponent), rest);
  }

  lemma MantissaStart(whole: string, point: bool, fraction: string, x: string)
    requires AllDigits(whole) && AllDigits(fraction) && (!point ==> fraction == "") && whole + fraction != ""
    ensures var m := whole + ((if point then "." else "") + (fraction + x));
            m != "" && (IsDigit(m[0]) || m[0] == '.')
  {
    if whole != "" { assert whole[0] in whole; }
  }

  // ---------------------------------------------------------------- printing

  /** Quotient rounded to nearest, ties to even. */
  function RoundHalfEven(n: nat, unit: nat): nat
    requires unit > 0
  {
    var q, r := n / unit, n % unit;
    if 2 * r < unit || (2 * r == unit && q % 2 == 0) then q else q + 1
  }

  /** `d` rounded to `precision` significant digits. */
  function Rounded(d: Number, precision: nat): Number
    requires precision >= 1
  {
    var n := Digits(d);
    if n <= precision then d
    else
      var q := RoundHalfEven(Abs(d.m), Pow10(n - precision));
      Canon(if d.m < 0 then -(q as int) else q, d.e + n - precision)
  }

  lemma NotTenfold(m: int, p: nat)
    requires m % 10 != 0
    ensures Abs(m) != 10 * p
  {
    assert (10 * p) % 10 == 0 && (10 * (0 - p)) % 10 == 0;
  }

  lemma {:induction false} CanonDigits(m: int, e: int, k: nat)
    requires k >= 1 && Abs(m) <= Pow10(k)
    ensures Digits(Canon(m, e)) <= k
    decreases Abs(m)
  {
    hide NatText, DigitsValue;
    if m == 0 {
      CanonZero(e);
      NatTextLength(0, k);
    } else if m % 10 == 0 {
      CanonDigits(m / 10, e + 1, k);
    } else {
      NotTenfold(m, Pow10(k - 1));
      NatTextLength(Abs(m), k);
    }
  }

  lemma QuotientBelow(a: nat, unit: nat, bound: nat)
    requires unit > 0 && a < bound * unit
    ensures a / unit < bound
  {
    var q := a / unit;
    assert q * unit <= a;
    assert q >= bound ==> q * unit >= bound * unit;
  }

  lemma RoundHalfEvenNear(a: nat, unit: nat)
    requires unit > 0
    ensures 2 * Abs(RoundHalfEven(a, unit) * unit - a) <= unit
    ensures a / unit <= RoundHalfEven(a, unit) <= a / unit + 1
    ensures 2 * Abs(RoundHalfEven(a, unit) * unit - a) == unit ==> RoundHalfEven(a, unit) % 2 == 0
  {
    var q, r := a / unit, a % unit;
    assert a == q * unit + r;
    assert (q + 1) * unit == q * unit + unit;
  }

  /** Rounding leaves at most `precision` digits and is within half a unit of the last kept place, and at exactly half
      a unit the last kept digit is even. */
  lemma RoundedProperties(d: Number, precision: nat)
    requires precision >= 1
    ensures Digits(Rounded(d, precision)) <= precision
    ensures Digits(d) > precision ==>
              var unit := Pow10(Digits(d) - precision);
              var q := RoundHalfEven(Abs(d.m), unit);
              && Rounded(d, precision) == Canon(Signed(if d.m < 0 then Minus else Plus, q), d.e + Digits(d) - precision)
              && 2 * Abs(q * unit - Abs(d.m)) <= unit && (2 * Abs(q * unit - Abs(d.m)) == unit ==> q % 2 == 0)
  {
    hide NatText, DigitsValue, Canon, RoundHalfEven;
    var n := Digits(d);
    if n > precision {
      var unit := Pow10(n - precision);
      NatTextLength(Abs(d.m), n);
      Pow10Sum(precision, n - precision);
      QuotientBelow(Abs(d.m), unit, Pow10(precision));
      RoundHalfEvenNear(Abs(d.m), unit);
      var q := RoundHalfEven(Abs(d.m), unit);
      CanonDigits(if d.m < 0 then -(q as int) else q, d.e + n - precision, precision);
    }
  }

  /** Printing keeps a number exactly when it has no more digits than the precision; printing twice rounds once. */
  lemma RoundedExact(d: Number, precision: nat)
    requires precision >= 1
    ensures Rounded(d, precision) == d <==> Digits(d) <= precision
    ensures Rounded(Rounded(d, precision), precision) == Rounded(d, precision)
  {
    RoundedProperties(d, precision);
  }

  function ExponentSuffix(x: int): Exponent {
    var t := NatText(Abs(x));
    Exponent('e', if x < 0 then Minus else Plus, if |t| < 2 then "0" + t else t)
  }

  function SignOf(d: Number): Sign { if d.m < 0 then Minus else Unsigned }

  function FixedLiteral(d: Number): Literal
    requires d.m != 0
  {
    var ds := NatText(Abs(d.m));
    var x := |ds| - 1 + d.e;
    if d.e >= 0 then Literal(SignOf(d), ds + Zeros(d.e), false, "", NoExponent)
    else if x >= 0 then Literal(SignOf(d), ds[..x + 1], true, ds[x + 1..], NoExponent)
    else Literal(SignOf(d), "0", true, Zeros(-x - 1) + ds, NoExponent)
  }

  function ScientificLiteral(d: Number): Literal
    requires d.m != 0
  {
    var ds := NatText(Abs(d.m));
    Literal(SignOf(d), ds[..1], |ds| > 1, ds[1..], ExponentSuffix(|ds| - 1 + d.e))
  }

  /** `%g` of a number that already has at most `precision` digits. */
  function GeneralLiteral(d: Number, precision: nat): Literal
    requires precision >= 1
  {
    if d.m == 0 then Literal(Unsigned, "0", false, "", NoExponent)
    else if -4 <= |NatText(Abs(d.m))| - 1 + d.e < precision then FixedLiteral(d)
    else ScientificLiteral(d)
  }

  /** `stream << std::setprecision(precision) << d`. */
  function NumberText(d: Number, precision: nat): string
    requires precision >= 1
  {
    LiteralText(GeneralLiteral(Rounded(d, precision), precision))
  }

  lemma FixedWholeValue(sign: Sign, ds: string, k: nat, d: Number)
    requires AllDigits(ds) && ds != "" && d.m == Signed(sign, DigitsValue(ds)) && d.e == k
    ensures ValidLiteral(Literal(sign, ds + Zeros(k), false, "", NoExponent))
    ensures LiteralValue(Literal(sign, ds + Zeros(k), false, "", NoExponent)) == d
  {
    ZerosAround(k, ds);
    assert (ds + Zeros(k)) + "" == ds + Zeros(k);
    CanonScale(d.m, k, 0);
    SignedScale(sign, DigitsValue(ds), Pow10(k));
  }

  lemma SignedScale(sign: Sign, n: nat, p: nat)
    ensures Signed(sign, n * p) == Signed(sign, n) * p
  {
  }

  lemma FractionValue(sign: Sign, whole: string, point: bool, fraction: string, exponent: Exponent, ds: string, d: Number)
    requires AllDigits(ds) && AllDigits(whole) && AllDigits(fraction)
    requires AllDigits(whole + fraction) && DigitsValue(whole + fraction) == DigitsValue(ds)
    requires whole + fraction != "" && d.m == Signed(sign, DigitsValue(ds))
    requires exponent.Exponent? ==> exponent.mark in "eE" && exponent.digits != "" && AllDigits(exponent.digits)
    requires d.e == (if exponent.NoExponent? then 0 else Signed(exponent.sign, DigitsValue(exponent.digits))) - |fraction|
    requires point || fraction == ""
    ensures ValidLiteral(Literal(sign, whole, point, fraction, exponent))
    ensures LiteralValue(Literal(sign, whole, point, fraction, exponent)) == d
  {
    var l := Literal(sign, whole, point, fraction, exponent);
    assert LiteralValue(l) == Canon(d.m, d.e);
  }

  lemma ExponentSuffixValue(x: int)
    ensures var s := ExponentSuffix(x); AllDigits(s.digits) && Signed(s.sign, DigitsValue(s.digits)) == x
  {
    var t := NatText(Abs(x));
    assert "0" == Zeros(1);
    ZerosAround(1, t);
  }

  lemma FixedValue(d: Number)
    requires d.m != 0 && -5 < |NatText(Abs(d.m))| - 1 + d.e
    ensures ValidLiteral(FixedLiteral(d)) && LiteralValue(FixedLiteral(d)) == d
  {
    hide NatText, DigitsValue, Canon, LiteralValue, ValidLiteral;
    var sign := SignOf(d);
    var ds := NatText(Abs(d.m));
    var x := |ds| - 1 + d.e;
    if d.e >= 0 {
      FixedWholeValue(sign, ds, d.e, d);
    } else if x >= 0 {
      assert ds[..x + 1] + ds[x + 1..] == ds;
      FractionValue(sign, ds[..x + 1], true, ds[x + 1..], NoExponent, ds, d);
    } else {
      assert "0" + (Zeros(-x - 1) + ds) == Zeros(-x) + ds;
      ZerosAround(-x, ds);
      ZerosAround(-x - 1, ds);
      FractionValue(sign, "0", true, Zeros(-x - 1) + ds, NoExponent, ds, d);
    }
  }

  lemma ScientificValue(d: Number)
    requires d.m != 0
    ensures ValidLiteral(ScientificLiteral(d)) && LiteralValue(ScientificLiteral(d)) == d
  {
    var ds := NatText(Abs(d.m));
    var x := |ds| - 1 + d.e;
    assert ds[..1] + ds[1..] == ds;
    ExponentSuffixValue(x);
    FractionValue(SignOf(d), ds[..1], |ds| > 1, ds[1..], ExponentSuffix(x), ds, d);
  }

  /** In both layouts of `%g` the printed text denotes the number printed. */
  lemma GeneralLiteralValue(d: Number, precision: nat)
    requires precision >= 1
    ensures ValidLiteral(GeneralLiteral(d, precision))
    ensures LiteralValue(GeneralLiteral(d, precision)) == d
  {
    if d.m == 0 {
      assert Zeros(1) == "0";
      ZerosValue(1);
      FractionValue(Unsigned, "0", false, "", NoExponent, "0", d);
    } else if -4 <= |NatText(Abs(d.m))| - 1 + d.e < precision {
      FixedValue(d);
    } else {
      ScientificValue(d);
    }
  }

  /** `input >> value` reads back what `stream << d` printed: the number rounded to the precision,
      and the rest of the input untouched. */
  lemma NumberRoundTrip(d: Number, precision: nat, rest: string)
    requires precision >= 1 && Follows(rest)
    ensures var (l, r) := TakeLiteral(NumberText(d, precision) + rest);
            ValidLiteral(l) && LiteralValue(l) == Rounded(d, precision) && r == rest
  {
    var d' := Rounded(d, precision);
    GeneralLiteralValue(d', precision);
    TakeLiteralExact(GeneralLiteral(d', precision), rest);
  }
}
