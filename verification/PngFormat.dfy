/** The bytes of a PNG file as this encoder lays them out, and a reference decoder written from the standards:
    RFC 2083 (sections 3.1, 3.2, 3.4), RFC 1950 (section 2.2), RFC 1951 (section 3.2.4, stored blocks). */
module PngFormat {
  import opened Options
  import opened PngChecksum

  type Bytes = seq<Byte>

  const SIGNATURE: Bytes := [0x89, 0x50, 0x4e, 0x47, 0x0d, 0x0a, 0x1a, 0x0a]
  const IHDR: Bytes := [0x49, 0x48, 0x44, 0x52]
  const IDAT: Bytes := [0x49, 0x44, 0x41, 0x54]
  const IEND: Bytes := [0x49, 0x45, 0x4e, 0x44]

  const WORD: nat := 0x1_0000_0000

  function Channels(alpha: bool): nat { if alpha then 4 else 3 }

  // ---------------------------------------------------------------- what is written

  /** A chunk that declares `length` bytes and carries `data`. */
  function ChunkBytes(length: nat, tag: Bytes, data: Bytes): Bytes {
    BigEndian(length) + tag + data + RegisterBytes(Crc(tag + data))
  }

  function HeaderData(w: nat, h: nat, alpha: bool): (d: Bytes)
    ensures |d| == 13
  {
    BigEndian(w) + BigEndian(h) + [8, if alpha then 6 else 2] + [0, 0, 0]
  }

  /** A 16-bit number and its complement, low byte first. */
  function LittleEndian(p: nat): (s: Bytes)
    ensures |s| == 2
  {
    [p % 256, p / 256 % 256]
  }

  function Complement(p: nat): (s: Bytes)
    ensures |s| == 2
  {
    [255 - p % 256, 255 - p / 256 % 256]
  }

  /** One row as a stored block: final flag, pitch, its complement, the filter type, the pixels. */
  function RowBlock(last: bool, pitch: nat, row: Bytes): Bytes {
    [if last then 1 else 0] + LittleEndian(pitch) + Complement(pitch) + ([0] + row)
  }

  /** Rows `y` to `h`, taken from `img`. */
  function RowBlocks(y: nat, h: nat, width: nat, pitch: nat, img: Bytes): Bytes
    requires y <= h && |img| == (h - y) * width
    decreases h - y
  {
    if y == h then []
    else
      RowFits(h - y, width);
      RowBlock(y == h - 1, pitch, img[..width]) + RowBlocks(y + 1, h, width, pitch, img[width..])
  }

  /** The filtered image: every row behind a zero byte. */
  function Filtered(rows: nat, width: nat, img: Bytes): (f: Bytes)
    requires |img| == rows * width
    ensures |f| == rows * (1 + width)
    decreases rows
  {
    if rows == 0 then []
    else
      RowFits(rows, width);
      [0] + img[..width] + Filtered(rows - 1, width, img[width..])
  }

  lemma RowFits(rows: nat, width: nat)
    requires rows > 0
    ensures rows * width == width + (rows - 1) * width
    ensures width <= rows * width
    ensures rows * (1 + width) == 1 + width + (rows - 1) * (1 + width)
  {
  }

  function ImageData(h: nat, width: nat, pitch: nat, img: Bytes): Bytes
    requires |img| == h * width
  {
    [0x78, 1] + RowBlocks(0, h, width, pitch, img) + BigEndian(Adler(Filtered(h, width, img)))
  }

  /** The whole file. The pitch and the declared length are 32-bit unsigned; only `width` bytes a row are written. */
  function File(w: nat, h: nat, alpha: bool, img: Bytes): Bytes
    requires |img| == h * (w * Channels(alpha) % WORD)
  {
    var width := w * Channels(alpha) % WORD;
    var pitch := (w * Channels(alpha) + 1) % WORD;
    SIGNATURE
    + (ChunkBytes(13, IHDR, HeaderData(w, h, alpha))
    + (ChunkBytes((2 + h * (5 + pitch) + 4) % WORD, IDAT, ImageData(h, width, pitch, img))
    + ChunkBytes(0, IEND, [])))
  }

  // ---------------------------------------------------------------- the reference decoder

  datatype Image = Image(w: nat, h: nat, alpha: bool, pixels: Bytes)

  datatype Chunk = Chunk(tag: Bytes, data: Bytes, rest: Bytes)

  /** RFC 2083, sections 3.2 and 4.1.1: neither a chunk's length nor a dimension may be greater. */
  const MAX_LENGTH: nat := 0x7fff_ffff

  /** Length, type, data, and a CRC over type and data that must match. */
  function ReadChunk(s: Bytes): Option<Chunk> {
    if |s| < 12 then None
    else
      var n := FromBigEndian(s[..4]);
      if n > MAX_LENGTH || |s| < 12 + n then None
      else
        var tag, data := s[4..8], s[8..8 + n];
        if s[8 + n..12 + n] != RegisterBytes(Crc(tag + data)) then None
        else Some(Chunk(tag, data, s[12 + n..]))
  }

  datatype Stored = Stored(data: Bytes, rest: Bytes)

  /** A run of stored blocks up to and including the final one. */
  function Inflate(s: Bytes): Option<Stored>
    decreases |s|
  {
    if |s| < 5 || s[0] / 2 % 4 != 0 then None
    else
      var n := s[1] as int + 256 * s[2] as int;
      if s[3] as int + 256 * s[4] as int != 0xffff - n || |s| < 5 + n then None
      else if s[0] % 2 == 1 then Some(Stored(s[5..5 + n], s[5 + n..]))
      else
        var more := Inflate(s[5 + n..]);
        if more.None? then None else Some(Stored(s[5..5 + n] + more.value.data, more.value.rest))
  }

  /** A zlib stream: two header bytes, deflate data, the Adler-32 of what it inflates to, and nothing more. */
  function Unzip(s: Bytes): Option<Bytes> {
    if |s| < 2 || s[0] % 16 != 8 || s[0] / 16 > 7 || (s[0] as int * 256 + s[1] as int) % 31 != 0 || s[1] / 32 % 2 != 0 then None
    else
      var r := Inflate(s[2..]);
      if r.None? || |r.value.rest| != 4 || FromBigEndian(r.value.rest) != Adler(r.value.data) then None
      else Some(r.value.data)
  }

  /** Removes the filter byte of every row; only filter type 0 is known. */
  function Unfilter(rows: nat, width: nat, s: Bytes): Option<Bytes>
    requires |s| == rows * (1 + width)
    decreases rows
  {
    if rows == 0 then Some([])
    else
      RowFits(rows, width);
      if s[0] != 0 then None
      else
        var more := Unfilter(rows - 1, width, s[1 + width..]);
        if more.None? then None else Some(s[1..1 + width] + more.value)
  }

  function ReadHeader(d: Bytes): Option<(nat, nat, bool)>
    requires |d| == 13
  {
    var w, h := FromBigEndian(d[..4]), FromBigEndian(d[4..8]);
    if w == 0 || h == 0 || w > MAX_LENGTH || h > MAX_LENGTH || d[8] != 8 || (d[9] != 2 && d[9] != 6) || d[10..] != [0, 0, 0] then None
    else Some((w, h, d[9] == 6))
  }

  /** A file of exactly one header, one data and one end chunk. */
  function Decode(file: Bytes): Option<Image> {
    if |file| < 8 || file[..8] != SIGNATURE then None
    else
      var header := ReadChunk(file[8..]);
      if header.None? || header.value.tag != IHDR || |header.value.data| != 13 then None
      else
        var dims := ReadHeader(header.value.data);
        var body := ReadChunk(header.value.rest);
        if dims.None? || body.None? || body.value.tag != IDAT then None
        else
          var end := ReadChunk(body.value.rest);
          if end.None? || end.value.tag != IEND || end.value.data != [] || end.value.rest != [] then None
          else DecodeData(dims.value.0, dims.value.1, dims.value.2, body.value.data)
  }

  function DecodeData(w: nat, h: nat, alpha: bool, data: Bytes): Option<Image> {
    var raw := Unzip(data);
    if raw.None? || |raw.value| != h * (1 + w * Channels(alpha)) then None
    else
      var pixels := Unfilter(h, w * Channels(alpha), raw.value);
      if pixels.None? then None else Some(Image(w, h, alpha, pixels.value))
  }
}
