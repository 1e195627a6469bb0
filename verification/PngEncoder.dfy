/** The encoder as it runs: nested loops that emit bytes while keeping the two checksums, and the image object
    whose `save` packs its pixels in place and calls it. */
module PngEncoder {
  import opened Options
  import opened PngChecksum
  import opened PngFormat
  import opened PngRoundTrip

  /** The output file with the encoder's running checksums: `c` over the current chunk, `a` and `b` over the image. */
  class Emitter {
    var out: Bytes
    var c: bv32
    var a: nat
    var b: nat
    /** What was written before the current chunk's type, the chunk from its type on, and the image data so far. */
    ghost var base: Bytes
    ghost var chunk: Bytes
    ghost var raw: Bytes

    ghost predicate Valid()
      reads this
    {
      && out == base + chunk
      && c == CrcRun(0xffffffff, chunk)
      && a == (1 + Sum(raw)) % BASE && b == PrefixSums(raw) % BASE
    }

    /** SVPNG_U8A for the magic number: outside any chunk. */
    constructor (magic: Bytes)
      ensures Valid() && out == magic == base && chunk == [] && raw == []
    {
      out, c, a, b := magic, 0xffffffff, 1, 0;
      base, chunk, raw := magic, [], [];
    }

    /** SVPNG_U8C: the byte is written and enters the chunk's CRC by two table lookups. */
    method PutC(u: Byte)
      requires Valid()
      modifies this`out, this`c, this`chunk
      ensures Valid() && chunk == old(chunk) + [u]
    {
      hide CrcByte, CrcRun, TwoLookups, Sum, PrefixSums;
      CrcRunSnoc(0xffffffff, chunk, u);
      assert base + (chunk + [u]) == base + chunk + [u];
      out := out + [u];
      c := TwoLookups(c, u);
      chunk := chunk + [u];
    }

    /** SVPNG_U8AC. */
    method PutAllC(s: Bytes)
      requires Valid()
      modifies this`out, this`c, this`chunk
      ensures Valid() && chunk == old(chunk) + s
    {
      hide CrcRun;
      for i := 0 to |s|
        invariant Valid() && chunk == old(chunk) + s[..i]
      {
        assert s[..i + 1] == s[..i] + [s[i]];
        PutC(s[i]);
      }
    }

    /** SVPNG_U8ADLER. */
    method PutAdler(u: Byte)
      requires Valid()
      modifies this`out, this`c, this`chunk, this`a, this`b, this`raw
      ensures Valid() && chunk == old(chunk) + [u] && raw == old(raw) + [u]
    {
      hide CrcRun, Sum, PrefixSums;
      AdlerStep(raw, u, a, b);
      PutC(u);
      a := (a + u) % BASE;
      b := (b + a) % BASE;
      raw := raw + [u];
    }

    /** SVPNG_BEGIN. */
    method Begin(length: nat, tag: Bytes)
      requires Valid()
      modifies this`out, this`c, this`chunk, this`base
      ensures Valid() && base == old(out) + BigEndian(length) && chunk == tag
    {
      out := out + BigEndian(length);
      c := 0xffffffff;
      base, chunk := out, [];
      assert base + chunk == out;
      PutAllC(tag);
      assert [] + tag == tag;
    }

    /** SVPNG_END. */
    method End()
      requires Valid()
      modifies this`out, this`c, this`chunk, this`base
      ensures Valid() && out == base == old(base) + old(chunk) + RegisterBytes(Crc(old(chunk)))
    {
      out := out + RegisterBytes(!c);
      c, base, chunk := 0xffffffff, out, [];
      assert base + chunk == out;
    }

    /** One row: a stored block whose data, filter byte first, enters both checksums. */
    method PutRow(last: bool, pitch: nat, img: Bytes, from: nat, width: nat)
      requires Valid() && from + width <= |img|
      modifies this`out, this`c, this`chunk, this`a, this`b, this`raw
      ensures Valid()
      ensures chunk == old(chunk) + RowBlock(last, pitch, img[from..from + width])
      ensures raw == old(raw) + ([0] + img[from..from + width])
    {
      hide CrcRun, Sum, PrefixSums, LittleEndian, Complement;
      PutC(if last then 1 else 0);
      PutAllC(LittleEndian(pitch));
      PutAllC(Complement(pitch));
      ghost var head := chunk;
      PutAdler(0);
      for x := 0 to width
        invariant Valid()
        invariant chunk == head + ([0] + img[from..from + x])
        invariant raw == old(raw) + ([0] + img[from..from + x])
      {
        assert img[from..from + (x + 1)] == img[from..from + x] + [img[from + x]];
        PutAdler(img[from + x]);
      }
    }
  }

  function DeclaredLengthOf(h: nat, pitch: nat): nat { (2 + h * (5 + pitch) + 4) % WORD }

  method PutHeader(fp: Emitter, w: nat, h: nat, alpha: bool)
    requires fp.Valid() && fp.raw == []
    modifies fp
    ensures fp.Valid() && fp.raw == []
    ensures fp.out == old(fp.out) + ChunkBytes(13, IHDR, HeaderData(w, h, alpha))
  {
    hide CrcRun, Sum, PrefixSums, BigEndian, RegisterBytes, Crc;
    fp.Begin(13, IHDR);
    fp.PutAllC(BigEndian(w));
    fp.PutAllC(BigEndian(h));
    fp.PutAllC([8, if alpha then 6 else 2]);
    fp.PutAllC([0, 0, 0]);
    HeaderConcat(BigEndian(w), BigEndian(h), [8, if alpha then 6 else 2], [0, 0, 0]);
    fp.End();
    ChunkConcat(old(fp.out), BigEndian(13), IHDR, HeaderData(w, h, alpha), RegisterBytes(Crc(IHDR + HeaderData(w, h, alpha))));
  }

  lemma HeaderConcat(w: Bytes, h: Bytes, x: Bytes, y: Bytes)
    ensures IHDR + w + h + x + y == IHDR + (w + h + x + y)
  {
  }

  lemma ChunkConcat(before: Bytes, length: Bytes, tag: Bytes, data: Bytes, crc: Bytes)
    ensures before + length + (tag + data) + crc == before + (length + tag + data + crc)
  {
  }

  /** The loop over rows: after it the chunk holds every row block, and both sums cover the filtered image. */
  method PutRows(fp: Emitter, h: nat, width: nat, pitch: nat, img: Bytes)
    requires fp.Valid() && fp.raw == [] && |img| == h * width
    modifies fp
    ensures fp.Valid() && fp.base == old(fp.base)
    ensures fp.chunk == old(fp.chunk) + RowBlocks(0, h, width, pitch, img) && fp.raw == Filtered(h, width, img)
  {
    hide CrcRun, Sum, PrefixSums, RowBlock, Filtered, RowBlocks;
    EmptyPrefix(h, width, pitch, img);
    ghost var blocks := RowBlocks(0, h, width, pitch, img);
    for y := 0 to h
      invariant fp.Valid() && fp.base == old(fp.base)
      invariant y * width <= |img| && |img[y * width..]| == (h - y) * width
      invariant fp.chunk + RowBlocks(y, h, width, pitch, img[y * width..]) == old(fp.chunk) + blocks
      invariant fp.raw + Filtered(h - y, width, img[y * width..]) == Filtered(h, width, img)
    {
      RowUnfold(y, h, width, pitch, img[y * width..]);
      assert img[y * width..][..width] == img[y * width..y * width + width];
      assert img[y * width..][width..] == img[(y + 1) * width..];
      ghost var chunk, raw := fp.chunk, fp.raw;
      fp.PutRow(y == h - 1, pitch, img, y * width, width);
      Join(chunk, RowBlock(y == h - 1, pitch, img[y * width..y * width + width]), RowBlocks(y + 1, h, width, pitch, img[(y + 1) * width..]));
      Join(raw, [0] + img[y * width..y * width + width], Filtered(h - y - 1, width, img[(y + 1) * width..]));
    }
    AllDone(h, width, pitch, img[h * width..]);
  }

  method PutImage(fp: Emitter, h: nat, width: nat, pitch: nat, img: Bytes)
    requires fp.Valid() && fp.raw == [] && |img| == h * width
    modifies fp
    ensures fp.Valid()
    ensures fp.out == old(fp.out) + ChunkBytes(DeclaredLengthOf(h, pitch), IDAT, ImageData(h, width, pitch, img))
  {
    hide CrcRun, Sum, PrefixSums, BigEndian, RegisterBytes, Crc, Filtered, RowBlocks, Adler;
    fp.Begin(DeclaredLengthOf(h, pitch), IDAT);
    fp.PutAllC([0x78, 1]);
    PutRows(fp, h, width, pitch, img);
    AdlerOf(fp.raw);
    fp.PutAllC(BigEndian(fp.b * 65536 + fp.a));
    DataConcat([0x78, 1], RowBlocks(0, h, width, pitch, img), BigEndian(Adler(Filtered(h, width, img))));
    fp.End();
    ghost var data := ImageData(h, width, pitch, img);
    ChunkConcat(old(fp.out), BigEndian(DeclaredLengthOf(h, pitch)), IDAT, data, RegisterBytes(Crc(IDAT + data)));
  }

  lemma DataConcat(a: Bytes, b: Bytes, c: Bytes)
    ensures IDAT + a + b + c == IDAT + (a + b + c)
  {
  }

  /** `svpng`, writing to an empty file. Widths and lengths are 32-bit unsigned. */
  method SvPng(w: nat, h: nat, img: Bytes, alpha: bool) returns (out: Bytes)
    requires w < WORD && h < WORD && |img| == h * (w * Channels(alpha) % WORD)
    ensures out == File(w, h, alpha, img)
  {
    hide ChunkBytes, HeaderData, ImageData;
    var width := w * Channels(alpha) % WORD;
    var pitch := (w * Channels(alpha) + 1) % WORD;
    var fp := new Emitter(SIGNATURE);
    PutHeader(fp, w, h, alpha);
    PutImage(fp, h, width, pitch, img);
    ghost var before := fp.out;
    fp.Begin(0, IEND);
    fp.End();
    EndConcat(before);
    out := fp.out;
    FileConcat(SIGNATURE, ChunkBytes(13, IHDR, HeaderData(w, h, alpha)),
               ChunkBytes(DeclaredLengthOf(h, pitch), IDAT, ImageData(h, width, pitch, img)), ChunkBytes(0, IEND, []));
  }

  lemma EndConcat(before: Bytes)
    ensures before + BigEndian(0) + IEND + RegisterBytes(Crc(IEND)) == before + ChunkBytes(0, IEND, [])
  {
    hide Crc, BigEndian, RegisterBytes;
    assert IEND + [] == IEND;
    ChunkConcat(before, BigEndian(0), IEND, [], RegisterBytes(Crc(IEND)));
  }

  lemma FileConcat(a: Bytes, b: Bytes, c: Bytes, d: Bytes)
    ensures a + b + c + d == a + (b + (c + d))
  {
  }

  lemma EmptyPrefix(h: nat, width: nat, pitch: nat, img: Bytes)
    requires |img| == h * width
    ensures 0 * width == 0 && img[0..] == img && [] + Filtered(h, width, img) == Filtered(h, width, img)
  {
  }

  lemma RowUnfold(y: nat, h: nat, width: nat, pitch: nat, img: Bytes)
    requires y < h && |img| == (h - y) * width
    ensures width <= |img| && |img[width..]| == (h - y - 1) * width
    ensures RowBlocks(y, h, width, pitch, img) == RowBlock(y == h - 1, pitch, img[..width]) + RowBlocks(y + 1, h, width, pitch, img[width..])
    ensures Filtered(h - y, width, img) == [0] + img[..width] + Filtered(h - y - 1, width, img[width..])
  {
    RowFits(h - y, width);
  }

  lemma AllDone(h: nat, width: nat, pitch: nat, img: Bytes)
    requires |img| == 0
    ensures RowBlocks(h, h, width, pitch, img) == [] && Filtered(0, width, img) == []
  {
  }

  lemma AdlerOf(raw: Bytes)
    ensures (PrefixSums(raw) % BASE) * 65536 + (1 + Sum(raw)) % BASE == Adler(raw)
  {
  }

  // ---------------------------------------------------------------- the image object

  datatype Color = Color(r: Byte, g: Byte, b: Byte, a: Byte)

  function Packed(colors: seq<Color>, alpha: bool): (s: Bytes)
    ensures |s| == |colors| * Channels(alpha)
  {
    if colors == [] then []
    else
      var p := colors[|colors| - 1];
      Packed(colors[..|colors| - 1], alpha) + (if alpha then [p.r, p.g, p.b, p.a] else [p.r, p.g, p.b])
  }

  /** Pixel i's channel j is byte i * channels + j. */
  lemma {:induction false} PackedAt(colors: seq<Color>, alpha: bool, i: nat, j: nat)
    requires i < |colors| && j < Channels(alpha)
    ensures i * Channels(alpha) + j < |Packed(colors, alpha)|
    ensures Packed(colors, alpha)[i * Channels(alpha) + j] == [colors[i].r, colors[i].g, colors[i].b, colors[i].a][j]
  {
    var n := |colors| - 1;
    if i < n {
      PackedAt(colors[..n], alpha, i, j);
    }
  }

  class Imagepng {
    const alpha: bool
    const width: nat
    const height: nat
    const color: array<Color>
    const rgb: array<Byte>
    const rgba: array<Byte>
    /** Everything written to the image's file. */
    var file: Bytes

    ghost predicate Valid() {
      && width < WORD && height < WORD && width * 4 < WORD
      && color.Length == width * height && rgb.Length == width * height * 3 && rgba.Length == width * height * 4
      && rgb != rgba
    }

    /** All channels of all pixels start at 255. */
    constructor (alpha: bool, width: nat, height: nat)
      requires width < WORD && height < WORD && width * 4 < WORD
      ensures Valid() && this.alpha == alpha && this.width == width && this.height == height && file == []
      ensures fresh(color) && fresh(rgb) && fresh(rgba)
      ensures forall i :: 0 <= i < color.Length ==> color[i] == Color(255, 255, 255, 255)
    {
      this.alpha, this.width, this.height := alpha, width, height;
      color := new Color[width * height](_ => Color(255, 255, 255, 255));
      rgb := new Byte[width * height * 3];
      rgba := new Byte[width * height * 4];
      file := [];
    }

    /** `save`: the pixels are packed in place, then encoded. */
    method Save()
      requires Valid()
      modifies this, rgb, rgba
      ensures Valid() && color[..] == old(color[..])
      ensures file == old(file) + File(width, height, alpha, PixelBytes(width, height, alpha, color[..]))
    {
      hide File;
      Pack();
      Sizes(width, height, alpha);
      var png := SvPng(width, height, if alpha then rgba[..] else rgb[..], alpha);
      file := file + png;
    }

    method Pack()
      requires Valid()
      modifies rgb, rgba
      ensures (if alpha then rgba[..] else rgb[..]) == Packed(color[..], alpha)
    {
      if !alpha {
        for i := 0 to width * height
          invariant rgb[..3 * i] == Packed(color[..i], false)
        {
          ghost var before := rgb[..3 * i];
          rgb[3 * i], rgb[3 * i + 1], rgb[3 * i + 2] := color[i].r, color[i].g, color[i].b;
          assert rgb[..3 * (i + 1)] == before + [color[i].r, color[i].g, color[i].b];
          assert color[..i + 1][..i] == color[..i];
        }
        assert color[..width * height] == color[..] && rgb[..3 * (width * height)] == rgb[..];
      } else {
        for i := 0 to width * height
          invariant rgba[..4 * i] == Packed(color[..i], true)
        {
          ghost var before := rgba[..4 * i];
          rgba[4 * i], rgba[4 * i + 1], rgba[4 * i + 2], rgba[4 * i + 3] := color[i].r, color[i].g, color[i].b, color[i].a;
          assert rgba[..4 * (i + 1)] == before + [color[i].r, color[i].g, color[i].b, color[i].a];
          assert color[..i + 1][..i] == color[..i];
        }
        assert color[..width * height] == color[..] && rgba[..4 * (width * height)] == rgba[..];
      }
    }
  }

  lemma Sizes(w: nat, h: nat, alpha: bool)
    requires w * 4 < WORD
    ensures w * h * Channels(alpha) == h * (w * Channels(alpha) % WORD)
  {
    SmallWord(w * Channels(alpha));
    Rearrange(w, h, Channels(alpha));
  }

  lemma Rearrange(a: nat, b: nat, c: nat)
    ensures a * b * c == b * (a * c)
  {
  }

  function PixelBytes(w: nat, h: nat, alpha: bool, colors: seq<Color>): (s: Bytes)
    requires |colors| == w * h && w * 4 < WORD
    ensures |s| == h * (w * Channels(alpha) % WORD)
  {
    Sizes(w, h, alpha);
    Packed(colors, alpha)
  }

  /** A saved image decodes to its pixels exactly when a row of w * channels + 1 bytes fits one stored block and
      the data chunk is no longer than a chunk may be. */
  lemma SavedImageDecodes(w: nat, h: nat, alpha: bool, colors: seq<Color>)
    requires |colors| == w * h && w * 4 < WORD && h < WORD
    ensures Decode(File(w, h, alpha, PixelBytes(w, h, alpha, colors))) == Some(Image(w, h, alpha, Packed(colors, alpha)))
            <==> Fits(w, h, alpha)
  {
    DecodesExactlyWhenItFits(w, h, alpha, PixelBytes(w, h, alpha, colors));
  }
}
