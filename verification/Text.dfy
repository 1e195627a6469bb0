/** Character classes and decimal digits of the C library, shared by the JSON and the HTTP code. */
module Text {

  /** `isspace` and `std::ws` in the classic locale. */
  predicate IsSpace(c: char) {
    c == ' ' || c == '\t' || c == '\n' || c == '\U{0b}' || c == '\U{0c}' || c == '\r'
  }

  predicate IsDigit(c: char) {
    '0' <= c <= '9'
  }

  predicate AllDigits(s: string) {
    forall c :: c in s ==> IsDigit(c)
  }

  function DigitChar(d: nat): (c: char)
    requires d < 10
    ensures IsDigit(c) && DigitValue(c) == d
  {
    ('0' as int + d) as char
  }

  function DigitValue(c: char): (d: nat)
    requires IsDigit(c)
    ensures d < 10
  {
    c as int - '0' as int
  }

  function Pow10(n: nat): (p: nat)
    ensures p >= 1
  {
    if n == 0 then 1 else 10 * Pow10(n - 1)
  }

  /** The number a string of digits denotes, leading zeros allowed. */
  function DigitsValue(s: string): nat
    requires AllDigits(s)
  {
    if s == "" then 0
    else DigitsValue(s[..|s| - 1]) * 10 + DigitValue(s[|s| - 1])
  }

  /** `printf("%zd")`: shortest decimal text. */
  function NatText(n: nat): (s: string)
    ensures s != "" && AllDigits(s) && DigitsValue(s) == n
  {
    if n < 10 then
      var s := [DigitChar(n)];
      assert s[..|s| - 1] == "";
      s
    else
      var s := NatText(n / 10) + [DigitChar(n % 10)];
      assert s[..|s| - 1] == NatText(n / 10);
      s
  }

  function Zeros(n: nat): (s: string)
    ensures |s| == n && AllDigits(s) && forall c :: c in s ==> c == '0'
  {
    seq(n, _ => '0')
  }

  lemma Pow10Sum(a: nat, b: nat)
    ensures Pow10(a + b) == Pow10(a) * Pow10(b)
  {
    if b == 0 {
    } else {
      Pow10Sum(a, b - 1);
      assert Pow10(a + b) == 10 * Pow10(a + (b - 1));
    }
  }

  lemma Shift(a: nat, p: nat, b: nat)
    ensures (a * p + b) * 10 == a * (10 * p) + b * 10
  {
  }

  lemma {:induction false} DigitsValueConcat(a: string, b: string)
    requires AllDigits(a) && AllDigits(b)
    ensures AllDigits(a + b)
    ensures DigitsValue(a + b) == DigitsValue(a) * Pow10(|b|) + DigitsValue(b)
    decreases |b|
  {
    if b == "" {
      assert a + b == a;
    } else {
      var b' := b[..|b| - 1];
      DigitsValueConcat(a, b');
      assert (a + b)[..|a + b| - 1] == a + b';
      assert DigitsValue(a + b) == DigitsValue(a + b') * 10 + DigitValue(b[|b| - 1]);
      Shift(DigitsValue(a), Pow10(|b'|), DigitsValue(b'));
    }
  }

  lemma {:induction false} ZerosValue(n: nat)
    ensures DigitsValue(Zeros(n)) == 0
  {
    if n > 0 {
      assert Zeros(n)[..n - 1] == Zeros(n - 1);
      ZerosValue(n - 1);
    }
  }

  /** Zeros before a numeral change nothing; zeros after it multiply by a power of ten. */
  lemma ZerosAround(k: nat, s: string)
    requires AllDigits(s)
    ensures AllDigits(Zeros(k) + s) && DigitsValue(Zeros(k) + s) == DigitsValue(s)
    ensures AllDigits(s + Zeros(k)) && DigitsValue(s + Zeros(k)) == DigitsValue(s) * Pow10(k)
  {
    ZerosValue(k);
    DigitsValueConcat(Zeros(k), s);
    DigitsValueConcat(s, Zeros(k));
  }

  /** A number below 10^k has at most k digits, and only such a number. */
  lemma {:induction false} NatTextLength(n: nat, k: nat)
    requires k >= 1
    ensures |NatText(n)| <= k <==> n < Pow10(k)
  {
    if n < 10 {
      assert Pow10(k) >= 10 by { if k > 1 { assert Pow10(k) == 10 * Pow10(k - 1); } else { assert Pow10(1) == 10 * Pow10(0); } }
    } else if k == 1 {
      assert Pow10(1) == 10 * Pow10(0);
    } else {
      NatTextLength(n / 10, k - 1);
      assert Pow10(k) == 10 * Pow10(k - 1);
    }
  }

  lemma Assoc(a: string, b: string, c: string)
    ensures a + b + c == a + (b + c)
  {
  }

  /** `std::less<std::string>`: lexicographic by character. */
  predicate Before(a: string, b: string) {
    b != "" && (a == "" || a[0] < b[0] || (a[0] == b[0] && Before(a[1..], b[1..])))
  }

  lemma {:induction false} BeforeTotal(a: string, b: string)
    ensures a == b || Before(a, b) || Before(b, a)
  {
    if a != "" && b != "" && a[0] == b[0] {
      BeforeTotal(a[1..], b[1..]);
      assert a == [a[0]] + a[1..] && b == [b[0]] + b[1..];
    }
  }

  lemma {:induction false} BeforeStrict(a: string, b: string)
    ensures !(Before(a, b) && Before(b, a)) && !Before(a, a)
  {
    if a != "" {
      if b != "" { BeforeStrict(a[1..], b[1..]); } else { BeforeStrict(a[1..], a[1..]); }
    }
  }

  lemma {:induction false} BeforeTransitive(a: string, b: string, c: string)
    requires Before(a, b) && Before(b, c)
    ensures Before(a, c)
  {
    if a != "" && a[0] == b[0] == c[0] {
      BeforeTransitive(a[1..], b[1..], c[1..]);
    }
  }

  predicate IsFirst(k: string, ks: set<string>) {
    k in ks && forall j :: j in ks && j != k ==> Before(k, j)
  }

  lemma {:induction false} FirstExists(ks: set<string>)
    requires ks != {}
    ensures exists k :: IsFirst(k, ks)
    decreases |ks|
  {
    var x :| x in ks;
    var rest := ks - {x};
    if rest == {} {
      assert ks == {x};
      assert IsFirst(x, ks);
    } else {
      FirstExists(rest);
      var y :| IsFirst(y, rest);
      BeforeTotal(x, y);
      if Before(x, y) {
        forall j | j in ks && j != x ensures Before(x, j) {
          if j != y { BeforeTransitive(x, y, j); }
        }
        assert IsFirst(x, ks);
      } else {
        assert IsFirst(y, ks);
      }
    }
  }

  ghost predicate Ascending(ks: seq<string>) {
    forall i, j :: 0 <= i < j < |ks| ==> Before(ks[i], ks[j])
  }

  /** The keys of a `std::map<string, ...>` in iteration order. */
  ghost function SortedKeys(ks: set<string>): (r: seq<string>)
    ensures forall k :: k in r <==> k in ks
    ensures Ascending(r)
    ensures |r| == |ks|
    decreases |ks|
  {
    if ks == {} then []
    else
      FirstExists(ks);
      var k :| IsFirst(k, ks);
      var rest := SortedKeys(ks - {k});
      assert forall j :: j in rest ==> j in ks && j != k && Before(k, j);
      [k] + rest
  }

  /** Iteration takes the first key, then goes on with the others. */
  lemma SortedKeysStep(ks: set<string>, k: string)
    requires IsFirst(k, ks)
    ensures SortedKeys(ks) == [k] + SortedKeys(ks - {k})
  {
    forall j | IsFirst(j, ks) ensures j == k {
      if j != k { BeforeStrict(j, k); }
    }
  }

  lemma TwoKeys(j: string, k: string)
    requires Before(j, k)
    ensures SortedKeys({j, k}) == [j, k]
  {
    BeforeStrict(j, k);
    assert IsFirst(j, {j, k});
    SortedKeysStep({j, k}, j);
    assert {j, k} - {j} == {k};
    OneKey(k);
  }

  lemma OneKey(k: string)
    ensures SortedKeys({k}) == [k]
  {
    assert SortedKeys({k})[0] in {k};
  }
}
