/** The characters of JSON tokens one by one: blanks, digits, escapes, the order of names. */
module JsonTokens {
  import opened Text
  import opened JsonNumber
  import opened JsonParser
  import opened JsonText
  import opened JsonPrinter
  import opened JsonRoundTrip

  /** The blanks of the classic locale are the codes 9 to 13 and 32; a comment ends at code 10 or 13. */
  lemma ClassesExactly(c: char)
    ensures IsSpace(c) <==> 9 <= c as int <= 13 || c as int == 32
    ensures IsLineEnd(c) <==> c as int == 10 || c as int == 13
    ensures IsDigit(c) <==> c in "0123456789"
  {
    if IsDigit(c) { assert c == "0123456789"[c as int - 48]; }
  }

  // ---------------------------------------------------------------- hexadecimal

  /** A hexadecimal digit is read by its place, in either case; no other character is one. */
  lemma HexDigitsExactly(c: char, i: nat)
    requires i < 16
    ensures HexValue(c) == i <==> c == "0123456789abcdef"[i] || c == "0123456789ABCDEF"[i]
    ensures HexDigit(i) == "0123456789abcdef"[i]
    ensures HexValue(c) >= 0 ==> HexValue(c) < 16
  {
    if i < 10 {
      assert "0123456789abcdef"[i] as int == 48 + i == "0123456789ABCDEF"[i] as int;
    } else {
      assert "0123456789abcdef"[i] as int == 87 + i && "0123456789ABCDEF"[i] as int == 55 + i;
    }
  }

  predicate IsHex(c: char, i: nat)
    requires i < 16
  {
    c == "0123456789abcdef"[i] || c == "0123456789ABCDEF"[i]
  }

  lemma HexRead(c: char, i: nat)
    requires i < 16 && IsHex(c, i)
    ensures HexValue(c) == i
  {
    HexDigitsExactly(c, i);
  }

  /** What a Unicode escape stands for: the low byte of its four hexadecimal digits, upper or lower case, most significant
      first. */
  lemma UnicodeExactly(a: char, b: char, c: char, d: char, i: nat, j: nat, k: nat, l: nat)
    requires i < 16 && j < 16 && k < 16 && l < 16 && IsHex(a, i) && IsHex(b, j) && IsHex(c, k) && IsHex(d, l)
    ensures UnicodePiece([a, b, c, d]) == [(16 * k + l) as char]
  {
    HexRead(a, i);
    HexRead(b, j);
    HexRead(c, k);
    HexRead(d, l);
    hide HexValue, HexStart, HexPrefix, IsHex;
    var h := [a, b, c, d];
    HexPrefixFour(h);
    PlainStart(h);
    LowByte(i, j, k, l);
  }

  lemma PlainStart(h: string)
    requires |h| == 4 && HexValue(h[0]) >= 0 && HexValue(h[1]) >= 0
    ensures HexStart(h) == (false, h)
  {
  }

  lemma LowByte(i: nat, j: nat, k: nat, l: nat)
    requires i < 16 && j < 16 && k < 16 && l < 16
    ensures (((i * 16 + j) * 16 + k) * 16 + l) % 256 == 16 * k + l
  {
    assert ((i * 16 + j) * 16 + k) * 16 + l == 256 * (i * 16 + j) + (16 * k + l);
  }

  /** Only the digits up to the first other character count. */
  lemma UnicodeShort(a: char, b: char, c: char, d: char, i: nat, j: nat)
    requires i < 16 && j < 16 && IsHex(a, i) && IsHex(b, j) && c !in "0123456789abcdefABCDEF"
    ensures UnicodePiece([a, b, c, d]) == [(16 * i + j) as char]
  {
    HexRead(a, i);
    HexRead(b, j);
    if HexValue(c) >= 0 { HexIsKnown(c); }
    hide HexValue, IsHex;
    var h := [a, b, c, d];
    PlainStart(h);
    assert h[1..] == [b, c, d] && [b, c, d][1..] == [c, d];
    assert HexPrefix(h, 0) == HexPrefix([b, c, d], i) == HexPrefix([c, d], 16 * i + j) == 16 * i + j;
  }

  /** Four characters without a hexadecimal digit to begin with contribute nothing. */
  lemma NoHexDigits(h: string)
    requires |h| == 4 && !IsSpace(h[0]) && h[0] !in "+-" && h[0] !in "0123456789abcdefABCDEF"
    ensures UnicodePiece(h) == ""
  {
    assert HexValue(h[0]) < 0 by { if HexValue(h[0]) >= 0 { HexIsKnown(h[0]); } }
    assert HexStart(h) == (false, h);
  }

  lemma HexIsKnown(c: char)
    requires HexValue(c) >= 0
    ensures c in "0123456789abcdefABCDEF"
  {
    var n := c as int;
    var i := if n <= 57 then n - 48 else if n >= 97 then n - 87 else n - 49;
    assert "0123456789abcdefABCDEF"[i] == c;
  }

  // ---------------------------------------------------------------- escapes

  /** Behind a backslash: seven characters stand for one each; the delimiter stands for itself; anything else keeps its
      backslash. */
  lemma EscapesExactly(delimiter: char, c: char)
    requires delimiter in "\"'"
    ensures forall i :: 0 <= i < 7 && c == "\\/bfnrt"[i] ==> PieceMeaning(delimiter, Escaped(c)) == ["\\/\U{08}\U{0c}\n\r\t"[i]]
    ensures c == delimiter ==> PieceMeaning(delimiter, Escaped(c)) == [delimiter]
    ensures c !in "\\/bfnrt" && c != delimiter ==> PieceMeaning(delimiter, Escaped(c)) == ['\\', c]
  {
    if c !in "\\/bfnrt" {
      assert '\\' == "\\/bfnrt"[0] && '/' == "\\/bfnrt"[1] && 'b' == "\\/bfnrt"[2] && 'f' == "\\/bfnrt"[3];
      assert 'n' == "\\/bfnrt"[4] && 'r' == "\\/bfnrt"[5] && 't' == "\\/bfnrt"[6];
    }
  }

  lemma HexByteExactly(n: nat)
    requires n < 256
    ensures HexByte(n) == ["0123456789abcdef"[n / 16], "0123456789abcdef"[n % 16]]
  {
    HexDigitsExactly('0', n / 16);
    HexDigitsExactly('0', n % 16);
  }

  /** What `json()` writes for one byte: a quote, a backslash or a slash behind a backslash, a control character by its
      letter or its two lower-case hexadecimal digits, and everything else as it is. */
  lemma EscapeCharExactly(c: char)
    ensures c in "\"\\/" ==> EscapeChar(c) == ['\\', c]
    ensures c as int < 32 && c as int !in [8, 9, 10, 12, 13] ==>
              EscapeChar(c) == "\\u00" + ["0123456789abcdef"[c as int / 16], "0123456789abcdef"[c as int % 16]]
    ensures c as int in [8, 9, 10, 12, 13] ==> EscapeChar(c) == ['\\', "btn.fr"[c as int - 8]]
    ensures c !in "\"\\/" && c as int >= 32 ==> EscapeChar(c) == [c]
  {
    hide HexByte;
    assert '"' == "\"\\/"[0] && '\\' == "\"\\/"[1] && '/' == "\"\\/"[2];
    if c as int < 32 { HexByteExactly(c as int); }
    if c as int == 8 { assert c == '\U{08}'; }
    if c as int == 12 { assert c == '\U{0c}'; }
  }

  // ---------------------------------------------------------------- order

  /** At the first place where they differ the first has the lesser character, or it ends there. */
  predicate FirstDifference(a: string, b: string, k: nat) {
    k <= |a| && k < |b| && a[..k] == b[..k] && (k == |a| || a[k] < b[k])
  }

  lemma {:induction false} BeforeExactly(a: string, b: string)
    ensures Before(a, b) <==> exists k: nat :: FirstDifference(a, b, k)
    decreases |a|
  {
    if b == "" || a == "" || a[0] != b[0] {
      if Before(a, b) { assert FirstDifference(a, b, 0); }
      forall k: nat | FirstDifference(a, b, k) ensures Before(a, b) {
        if k > 0 { DifferenceShares(a, b, k); }
      }
    } else {
      BeforeExactly(a[1..], b[1..]);
      if Before(a, b) {
        var k :| FirstDifference(a[1..], b[1..], k);
        DifferenceOn(a, b, k);
      }
      forall k: nat | FirstDifference(a, b, k) ensures Before(a, b) {
        DifferenceOff(a, b, k);
      }
    }
  }

  lemma DifferenceShares(a: string, b: string, k: nat)
    requires FirstDifference(a, b, k) && k > 0
    ensures a != "" && a[0] == b[0]
  {
    assert a[..k][0] == b[..k][0];
  }

  lemma DifferenceOn(a: string, b: string, k: nat)
    requires a != "" && b != "" && a[0] == b[0] && FirstDifference(a[1..], b[1..], k)
    ensures FirstDifference(a, b, k + 1)
  {
    assert a[..k + 1] == [a[0]] + a[1..][..k] && b[..k + 1] == [b[0]] + b[1..][..k];
  }

  lemma DifferenceOff(a: string, b: string, k: nat)
    requires a != "" && b != "" && a[0] == b[0] && FirstDifference(a, b, k)
    ensures k > 0 && FirstDifference(a[1..], b[1..], k - 1)
  {
    assert k > 0;
    assert a[1..][..k - 1] == a[..k][1..] && b[1..][..k - 1] == b[..k][1..];
  }
}
