/** The text of a printed number: which layout, which digits. */
module JsonLayout {
  import opened Text
  import opened JsonNumber

  // ---------------------------------------------------------------- decimal digits

  lemma DigitExact(d: nat)
    requires d < 10
    ensures DigitChar(d) == "0123456789"[d] && (DigitChar(d) == '0' ==> d == 0)
  {
    assert "0123456789"[d] as int == 48 + d;
  }

  /** Decimal text is the usual one: each digit by its own character, most significant first, and no leading zero. */
  lemma {:induction false} NatTextExact(n: nat)
    ensures NatText(n) == (if n < 10 then "" else NatText(n / 10)) + ["0123456789"[n % 10]]
    ensures NatText(n)[0] == '0' ==> n == 0
    decreases n
  {
    hide DigitChar, DigitsValue;
    DigitExact(n % 10);
    if n >= 10 { NatTextExact(n / 10); }
  }

  lemma {:induction false} TrailingZeros(m: nat, k: nat)
    requires m > 0
    ensures NatText(m * Pow10(k)) == NatText(m) + Zeros(k)
    decreases k
  {
    hide NatText, DigitsValue;
    if k > 0 {
      var x := m * Pow10(k - 1);
      assert m * Pow10(k) == 10 * x && x >= 1 by { Tenfold(m, Pow10(k - 1)); }
      TrailingZeros(m, k - 1);
      NatTextExact(10 * x);
      assert (10 * x) / 10 == x && (10 * x) % 10 == 0;
      assert Zeros(k) == Zeros(k - 1) + "0";
      Assoc(NatText(m), Zeros(k - 1), "0");
    }
  }

  lemma Tenfold(m: nat, p: nat)
    requires m > 0 && p > 0
    ensures m * (10 * p) == 10 * (m * p) && m * p >= 1
  {
  }

  // ---------------------------------------------------------------- layouts

  /** |d| < 10^k. */
  predicate Below(d: Number, k: int) { d.e <= k && Abs(d.m) < Pow10(k - d.e) }

  lemma {:induction false} LastDigit(n: nat)
    requires n % 10 != 0
    ensures NatText(n)[|NatText(n)| - 1] != '0'
  {
    NatTextExact(n);
  }

  lemma BelowExactly(d: Number, k: int)
    requires d.m != 0
    ensures Below(d, k) <==> |NatText(Abs(d.m))| - 1 + d.e < k
  {
    if d.e < k { NatTextLength(Abs(d.m), k - d.e); }
  }

  /** A number is printed without an exponent if and only if it is less than the precision's power of ten and not less
      than 0.0001. */
  lemma LayoutExactly(d: Number, precision: nat)
    requires precision >= 1 && d.m != 0
    ensures GeneralLiteral(d, precision).exponent.NoExponent? <==> Below(d, precision) && !Below(d, -4)
  {
    BelowExactly(d, precision);
    BelowExactly(d, -4);
  }

  /** No digit to spare: no zero in front but the one before the point of a fraction, none at the end of a fraction, no
      point without a fraction; with an exponent there is one digit before the point, and the exponent has a sign and
      at least two digits, no more than it needs. */
  predicate Plain(l: Literal) {
    && l.whole != "" && (l.whole[0] == '0' ==> l.whole == "0" && l.exponent.NoExponent?)
    && (l.point <==> l.fraction != "")
    && (l.fraction != "" ==> l.fraction[|l.fraction| - 1] != '0')
    && (l.exponent.Exponent? ==>
          var x := l.exponent;
          |l.whole| == 1 && x.mark == 'e' && !x.sign.Unsigned? && |x.digits| >= 2 && (|x.digits| > 2 ==> x.digits[0] != '0'))
  }

  lemma NothingToSpare(d: Number, precision: nat)
    requires precision >= 1
    ensures Plain(GeneralLiteral(d, precision))
    ensures GeneralLiteral(d, precision).sign == if d.m < 0 then Minus else Unsigned
  {
    hide NatText, DigitsValue;
    if d.m != 0 {
      var n := Abs(d.m);
      NatTextExact(n);
      NotTenfold(d.m, n / 10);
      LastDigit(n);
      if |NatText(n)| - 1 + d.e >= -4 { PlainFixed(d); }
      PlainScientific(d);
    }
  }

  lemma PlainFixed(d: Number)
    requires d.m != 0 && NatText(Abs(d.m))[0] != '0' && NatText(Abs(d.m))[|NatText(Abs(d.m))| - 1] != '0'
    requires |NatText(Abs(d.m))| - 1 + d.e >= -4
    ensures Plain(FixedLiteral(d))
  {
    hide NatText, DigitsValue;
  }

  lemma PlainScientific(d: Number)
    requires d.m != 0 && NatText(Abs(d.m))[0] != '0' && NatText(Abs(d.m))[|NatText(Abs(d.m))| - 1] != '0'
    ensures Plain(ScientificLiteral(d))
  {
    NatTextExact(Abs(|NatText(Abs(d.m))| - 1 + d.e));
    hide NatText, DigitsValue;
  }

  /** An integer below the precision's power of ten is printed as its plain digits. */
  lemma IntegerText(n: int, precision: nat)
    requires precision >= 1 && Abs(n) < Pow10(precision)
    ensures NumberText(Canon(n, 0), precision) == (if n < 0 then "-" else "") + NatText(Abs(n))
  {
    hide NatText, Canon, DigitsValue;
    var d := Canon(n, 0);
    CanonKeepsValue(n, 0);
    if n == 0 {
      CanonZero(0);
      NatTextExact(0);
      RoundedExact(d, precision);
      NatTextLength(0, precision);
    } else {
      ScaledSize(d.m, Pow10(d.e), n);
      TrailingZeros(Abs(d.m), d.e);
      NatTextLength(Abs(n), precision);
      RoundedExact(d, precision);
    }
  }

  lemma ScaledSize(m: int, p: nat, n: int)
    requires p > 0 && n == m * p && n != 0
    ensures Abs(n) == Abs(m) * p && Abs(m) > 0 && Abs(m) <= Abs(n) && (m < 0 <==> n < 0)
  {
    if m < 0 { assert (-m) * p == -n; }
  }

  /** The pieces of a numeral in their order, and the number it denotes. */
  lemma NumeralExample()
    ensures LiteralText(Literal(Minus, "12", true, "5", Exponent('e', Plus, "3"))) == "-12.5e+3"
    ensures ValidLiteral(Literal(Minus, "12", true, "5", Exponent('e', Plus, "3")))
    ensures LiteralValue(Literal(Minus, "12", true, "5", Exponent('e', Plus, "3"))) == Dec(-125, 2)
  {
    assert "12" + "5" == "125";
    assert "125"[..2] == "12" && "12"[..1] == "1" && "1"[..0] == "" && "3"[..0] == "";
    assert DigitsValue("12") == 12 by { assert DigitsValue("1") == 1; }
    assert DigitsValue("125") == 125 && DigitsValue("3") == 3;
  }
}
