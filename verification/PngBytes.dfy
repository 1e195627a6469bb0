/** The fixed bytes of a PNG file, and both checksums against their published definitions and check values. */
module PngBytes {
  import opened CrcRegister
  import opened PngChecksum
  import opened PngFormat

  // ---------------------------------------------------------------- CRC-32

  /** Two lookups take the register from c to d. */
  lemma Goes(s: seq<Byte>, u: Byte, c: bv32, d: bv32) returns (t: seq<Byte>)
    requires CrcRun(0xffffffff, s) == c
    requires NibbleStep(NibbleStep(c ^ (u as bv32))) == d
    ensures t == s + [u] && CrcRun(0xffffffff, t) == d
  {
    t := s + [u];
    CrcRunSnoc(0xffffffff, s, u);
    var r := TwoLookups(c, u);
  }

  lemma Starts()
    ensures CrcRun(0xffffffff, []) == 0xffffffff
  {
  }

  lemma Register1()
    ensures NibbleStep(NibbleStep(0xffffffff ^ (0x49 as bv32))) == 0x22fde946
  {
  }

  lemma Register2()
    ensures NibbleStep(NibbleStep(0x22fde946 ^ (0x45 as bv32))) == 0x992bac53
  {
  }

  lemma Register3()
    ensures NibbleStep(NibbleStep(0x992bac53 ^ (0x4e as bv32))) == 0x639f4775
  {
  }

  lemma Register4()
    ensures NibbleStep(NibbleStep(0x639f4775 ^ (0x44 as bv32))) == 0x51bd9f7d
  {
  }

  /** The CRC of the type of the last chunk, which carries no data. */
  lemma CrcOfEnd()
    ensures Crc(IEND) == 0xae426082
  {
    hide CrcRun, NibbleStep;
    Starts();
    Register1();
    Register2();
    Register3();
    Register4();
    var t := Goes([], 0x49, 0xffffffff, 0x22fde946);
    t := Goes(t, 0x45, 0x22fde946, 0x992bac53);
    t := Goes(t, 0x4e, 0x992bac53, 0x639f4775);
    t := Goes(t, 0x44, 0x639f4775, 0x51bd9f7d);
    assert t == IEND;
  }

  /** The last twelve bytes of every file: an empty chunk of type IEND with its CRC. */
  lemma EndChunkBytes()
    ensures ChunkBytes(0, IEND, []) == [0, 0, 0, 0, 0x49, 0x45, 0x4e, 0x44, 0xae, 0x42, 0x60, 0x82]
  {
    hide Crc;
    CrcOfEnd();
    assert IEND + [] == IEND;
    assert RegisterBytes(0xae426082) == [0xae, 0x42, 0x60, 0x82];
  }

  // ---------------------------------------------------------------- Adler-32

  /** n * first + (n - 1) * second + ... + last. */
  function Weighted(s: seq<Byte>): nat { if s == [] then 0 else |s| * s[0] + Weighted(s[1..]) }

  function Total(s: seq<Byte>): nat { if s == [] then 0 else s[0] + Total(s[1..]) }

  lemma {:induction false} TotalSnoc(s: seq<Byte>, u: Byte)
    ensures Total(s + [u]) == Total(s) + u
    ensures Weighted(s + [u]) == Weighted(s) + Total(s) + u
    decreases |s|
  {
    if s == [] {
      assert s + [u] == [u] && [u][1..] == [];
      assert Weighted([u]) == 1 * u + Weighted([]);
    } else {
      assert (s + [u])[0] == s[0] && (s + [u])[1..] == s[1..] + [u];
      TotalSnoc(s[1..], u);
      assert (|s| + 1) * s[0] == |s| * s[0] + s[0];
    }
  }

  /** The closed form of the Adler-32 of n bytes D1 to Dn: the low half is 1 + D1 + ... + Dn, the high half
      n * D1 + (n - 1) * D2 + ... + Dn + n, both modulo 65521. */
  lemma AdlerExactly(s: seq<Byte>)
    ensures Adler(s) == (Weighted(s) + |s|) % 65521 * 65536 + (1 + Total(s)) % 65521
  {
    SumsClosed(s);
  }

  lemma {:induction false} SumsClosed(s: seq<Byte>)
    ensures Sum(s) == Total(s) && PrefixSums(s) == Weighted(s) + |s|
  {
    if s != [] {
      var n := |s| - 1;
      SumsClosed(s[..n]);
      TotalSnoc(s[..n], s[n]);
      assert s[..n] + [s[n]] == s;
    }
  }

  // ---------------------------------------------------------------- byte order and layout

  /** A number of 32 bits is written highest byte first. */
  lemma HighestFirst(a: Byte, b: Byte, c: Byte, d: Byte)
    ensures BigEndian(((a * 256 + b) * 256 + c) * 256 + d) == [a, b, c, d]
    ensures FromBigEndian([a, b, c, d]) == ((a * 256 + b) * 256 + c) * 256 + d
  {
    var n2 := a * 256 + b;
    var n1 := n2 * 256 + c;
    var n := n1 * 256 + d;
    NestedDivision(n);
    DivisionUnique(n, 256, n1, d);
    DivisionUnique(n1, 256, n2, c);
    DivisionUnique(n2, 256, a, b);
  }

  /** The first 33 bytes but the CRC: the signature, a header chunk of thirteen bytes with the two dimensions, a depth of 8,
      colour type 2 or 6, and three zeros. */
  lemma FileStart(w: nat, h: nat, alpha: bool, img: Bytes)
    requires |img| == h * (w * Channels(alpha) % WORD)
    ensures var f := File(w, h, alpha, img);
            && |f| >= 33
            && f[..16] == [0x89, 0x50, 0x4e, 0x47, 0x0d, 0x0a, 0x1a, 0x0a, 0, 0, 0, 13, 0x49, 0x48, 0x44, 0x52]
            && f[16..20] == BigEndian(w) && f[20..24] == BigEndian(h)
            && f[24..29] == [8, if alpha then 6 else 2, 0, 0, 0]
  {
    hide ImageData, RegisterBytes, Crc, BigEndian;
    var header := HeaderData(w, h, alpha);
    var crc := RegisterBytes(Crc(IHDR + header));
    var f := File(w, h, alpha, img);
    Thirteen();
    var start := SIGNATURE + [0, 0, 0, 13] + IHDR;
    var rest := f[33..];
    assert f == start + header + crc + rest;
    assert f[16..29] == header;
    assert header == BigEndian(w) + BigEndian(h) + [8, if alpha then 6 else 2, 0, 0, 0];
  }

  lemma Thirteen()
    ensures BigEndian(13) == [0, 0, 0, 13]
  {
  }

  /** Behind the header stands the data chunk, whose zlib stream begins with 0x78 0x01, and the file ends with the end
      chunk. */
  lemma FileRest(w: nat, h: nat, alpha: bool, img: Bytes)
    requires |img| == h * (w * Channels(alpha) % WORD)
    ensures var f := File(w, h, alpha, img);
            && |f| >= 33 + 14 + 12
            && f[37..41] == [0x49, 0x44, 0x41, 0x54] && f[41..43] == [0x78, 0x01]
            && f[|f| - 12..] == [0, 0, 0, 0, 0x49, 0x45, 0x4e, 0x44, 0xae, 0x42, 0x60, 0x82]
  {
    hide RegisterBytes, Crc, BigEndian, RowBlocks, Adler, Filtered;
    EndChunkBytes();
    var width := w * Channels(alpha) % WORD;
    var pitch := (w * Channels(alpha) + 1) % WORD;
    var length := (2 + h * (5 + pitch) + 4) % WORD;
    var data := ImageData(h, width, pitch, img);
    var header := ChunkBytes(13, IHDR, HeaderData(w, h, alpha));
    var end := ChunkBytes(0, IEND, []);
    var f := File(w, h, alpha, img);
    var more := data[2..];
    assert |header| == 25 && data == [0x78, 0x01] + more;
    var crc := RegisterBytes(Crc(IDAT + data));
    assert f == SIGNATURE + header + BigEndian(length) + IDAT + [0x78, 0x01] + more + crc + end;
  }
}
