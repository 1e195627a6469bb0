/** The two checksums of a PNG file: CRC-32 of each chunk and Adler-32 of the uncompressed image data. */
module PngChecksum {
  import opened CrcRegister

  type Byte = i: int | 0 <= i < 256

  /** The definition: a byte enters at the low end, then eight bits are shifted out. */
  function CrcByte(c: bv32, u: Byte): bv32 {
    FourBits(FourBits(c ^ (u as bv32)))
  }

  function CrcRun(c: bv32, s: seq<Byte>): bv32 {
    if s == [] then c else CrcByte(CrcRun(c, s[..|s| - 1]), s[|s| - 1])
  }

  function Crc(s: seq<Byte>): bv32 { !CrcRun(0xffffffff, s) }

  /** The encoder's two lookups per byte are the bit-serial CRC. */
  function TwoLookups(c: bv32, u: Byte): (r: bv32)
    ensures r == CrcByte(c, u)
  {
    var x := c ^ (u as bv32);
    NibbleIsFourBits(x);
    NibbleIsFourBits(NibbleStep(x));
    NibbleStep(NibbleStep(x))
  }

  lemma CrcRunSnoc(c: bv32, s: seq<Byte>, u: Byte)
    ensures CrcRun(c, s + [u]) == CrcByte(CrcRun(c, s), u)
  {
    assert (s + [u])[..|s|] == s;
  }

  // ---------------------------------------------------------------- Adler-32

  const BASE: nat := 65521

  function Sum(s: seq<Byte>): nat {
    if s == [] then 0 else Sum(s[..|s| - 1]) + s[|s| - 1]
  }

  /** Over all non-empty prefixes, one more than the prefix's sum. */
  function PrefixSums(s: seq<Byte>): nat {
    if s == [] then 0 else PrefixSums(s[..|s| - 1]) + 1 + Sum(s)
  }

  /** RFC 1950, section 2.2: both sums taken modulo 65521 at the end. */
  function Adler(s: seq<Byte>): nat { PrefixSums(s) % BASE * 65536 + (1 + Sum(s)) % BASE }

  /** Reducing at every byte gives the same two sums. */
  lemma AdlerStep(s: seq<Byte>, u: Byte, a: nat, b: nat)
    requires a == (1 + Sum(s)) % BASE && b == PrefixSums(s) % BASE
    ensures (a + u) % BASE == (1 + Sum(s + [u])) % BASE
    ensures (b + (a + u) % BASE) % BASE == PrefixSums(s + [u]) % BASE
  {
    assert (s + [u])[..|s|] == s;
    ModAdd(1 + Sum(s), u);
    ModAdd2(PrefixSums(s), 1 + Sum(s + [u]));
  }

  lemma ModAdd(x: nat, y: nat)
    ensures (x % BASE + y) % BASE == (x + y) % BASE
  {
    var q := x / BASE;
    assert x == BASE * q + x % BASE;
  }

  lemma ModAdd2(x: nat, y: nat)
    ensures (x % BASE + y % BASE) % BASE == (x + y) % BASE
  {
    ModAdd(x, y % BASE);
    ModAdd(y, x);
  }

  // ---------------------------------------------------------------- byte order

  function BigEndian(n: nat): (s: seq<Byte>)
    ensures |s| == 4
  {
    [n / 0x1000000 % 256, n / 0x10000 % 256, n / 0x100 % 256, n % 256]
  }

  function FromBigEndian(s: seq<Byte>): (n: nat)
    requires |s| == 4
    ensures n < 0x1_0000_0000
  {
    s[0] as int * 0x1000000 + s[1] as int * 0x10000 + s[2] as int * 0x100 + s[3] as int
  }

  lemma NestedDivision(n: nat)
    ensures n / 0x10000 == n / 0x100 / 256 && n / 0x1000000 == n / 0x10000 / 256
  {
  }

  lemma DivisionUnique(n: nat, d: nat, q: nat, r: nat)
    requires d > 0 && n == d * q + r && r < d
    ensures n / d == q && n % d == r
  {
    SplitUnique(d, q, r, n / d, n % d);
  }

  lemma SplitUnique(d: nat, q: nat, r: nat, q': nat, r': nat)
    requires d * q + r == d * q' + r' && r < d && r' < d
    ensures q == q' && r == r'
  {
    if q > q' { Apart(d, q, q'); }
    if q < q' { Apart(d, q', q); }
  }

  lemma Distribute(d: nat, a: nat, b: nat)
    ensures d * (a + b) == d * a + d * b
  {
  }

  lemma Apart(d: nat, q: nat, q': nat)
    requires q > q'
    ensures d * q >= d * q' + d
  {
    Distribute(d, q', q - q');
    Distribute(d, q - q' - 1, 1);
  }

  lemma BigEndianExact(n: nat)
    ensures FromBigEndian(BigEndian(n)) == n % 0x1_0000_0000
  {
    var n1 := n / 0x100; var n2 := n / 0x10000; var n3 := n / 0x1000000; var n4 := n3 / 256;
    NestedDivision(n);
    DivisionUnique(n, 0x1_0000_0000, n4, (n3 % 256) * 0x1000000 + (n2 % 256) * 0x10000 + (n1 % 256) * 0x100 + n % 256);
  }

  function RegisterBytes(c: bv32): (s: seq<Byte>)
    ensures |s| == 4
  {
    [(c >> 24) as bv8 as int, ((c >> 16) & 255) as bv8 as int, ((c >> 8) & 255) as bv8 as int, (c & 255) as bv8 as int]
  }
}
