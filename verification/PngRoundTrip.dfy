/** The reference decoder on the encoder's files: it accepts one exactly when every row fits a stored block and
    the data chunk's length fits its field, and then it returns the very image. */
module PngRoundTrip {
  import opened Options
  import opened PngChecksum
  import opened PngFormat

  lemma ChunkSlices(len4: Bytes, tag: Bytes, data: Bytes, crc: Bytes, rest: Bytes)
    requires |len4| == |tag| == |crc| == 4
    ensures var s := len4 + tag + data + crc + rest; var n := |data|;
            && |s| == 12 + n + |rest|
            && s[..4] == len4 && s[4..8] == tag && s[8..8 + n] == data && s[8 + n..12 + n] == crc && s[12 + n..] == rest
  {
    var s := len4 + tag + data + crc + rest;
    assert s == len4 + tag + data + (crc + rest);
    assert s[8 + |data|..] == crc + rest;
    assert s[8 + |data|..12 + |data|] == crc;
  }

  lemma ReadChunkExact(length: nat, tag: Bytes, data: Bytes, rest: Bytes)
    requires |tag| == 4 && |data| == length <= MAX_LENGTH
    ensures ReadChunk(ChunkBytes(length, tag, data) + rest) == Some(Chunk(tag, data, rest))
  {
    hide RegisterBytes, Crc, BigEndian, FromBigEndian;
    ChunkSlices(BigEndian(length), tag, data, RegisterBytes(Crc(tag + data)), rest);
    BigEndianExact(length);
  }

  /** The length of the data chunk's content. */
  lemma {:induction false} RowBlocksLength(y: nat, h: nat, width: nat, pitch: nat, img: Bytes)
    requires y <= h && |img| == (h - y) * width
    ensures |RowBlocks(y, h, width, pitch, img)| == (h - y) * (6 + width)
    decreases h - y
  {
    if y < h {
      RowFits(h - y, width);
      RowBlocksLength(y + 1, h, width, pitch, img[width..]);
      Distribute(6 + width, h - y - 1, 1);
    }
  }

  lemma StoredHeader(p: nat)
    requires p <= 65535
    ensures LittleEndian(p)[0] as int + 256 * LittleEndian(p)[1] as int == p
    ensures Complement(p)[0] as int + 256 * Complement(p)[1] as int == 0xffff - p
  {
  }

  lemma RowBlockSlices(last: bool, pitch: nat, row: Bytes, rest: Bytes)
    ensures var s := RowBlock(last, pitch, row) + rest;
            && |s| == 6 + |row| + |rest|
            && s[0] == (if last then 1 else 0)
            && s[1] == LittleEndian(pitch)[0] && s[2] == LittleEndian(pitch)[1]
            && s[3] == Complement(pitch)[0] && s[4] == Complement(pitch)[1]
            && s[5..6 + |row|] == [0] + row && s[6 + |row|..] == rest
  {
  }

  /** One step of inflation over a well-formed block. */
  lemma InflateBlock(last: bool, pitch: nat, row: Bytes, rest: Bytes)
    requires pitch == 1 + |row| <= 65535
    ensures var s := RowBlock(last, pitch, row) + rest;
            if last then Inflate(s) == Some(Stored([0] + row, rest))
            else Inflate(rest).Some? ==>
              Inflate(s) == Some(Stored([0] + row + Inflate(rest).value.data, Inflate(rest).value.rest))
  {
    RowBlockSlices(last, pitch, row, rest);
    StoredHeader(pitch);
    hide LittleEndian, Complement, RowBlock;
    var s := RowBlock(last, pitch, row) + rest;
    assert s[5..5 + pitch] == [0] + row && s[5 + pitch..] == rest;
  }

  /** Inflating the row blocks gives the filtered image. */
  lemma {:induction false} InflateRows(y: nat, h: nat, width: nat, img: Bytes, rest: Bytes)
    requires y < h && |img| == (h - y) * width && width + 1 <= 65535
    ensures Inflate(RowBlocks(y, h, width, width + 1, img) + rest) == Some(Stored(Filtered(h - y, width, img), rest))
    decreases h - y
  {
    hide Inflate, RowBlock;
    RowFits(h - y, width);
    var row, more := img[..width], img[width..];
    var tail := RowBlocks(y + 1, h, width, width + 1, more) + rest;
    var last := y == h - 1;
    Join(RowBlock(last, width + 1, row), RowBlocks(y + 1, h, width, width + 1, more), rest);
    InflateBlock(last, width + 1, row, tail);
    if last {
      assert more == [] && RowBlocks(h, h, width, width + 1, more) == [] && tail == rest;
      assert Filtered(0, width, more) == [];
      assert Filtered(1, width, img) == [0] + row;
    } else {
      InflateRows(y + 1, h, width, more, rest);
    }
  }

  lemma Join(a: Bytes, b: Bytes, c: Bytes)
    ensures a + b + c == a + (b + c)
  {
  }

  lemma {:induction false} UnfilterExact(rows: nat, width: nat, img: Bytes)
    requires |img| == rows * width
    ensures Unfilter(rows, width, Filtered(rows, width, img)) == Some(img)
    decreases rows
  {
    if rows > 0 {
      RowFits(rows, width);
      var f := Filtered(rows, width, img);
      assert f[0] == 0 && f[1..1 + width] == img[..width] && f[1 + width..] == Filtered(rows - 1, width, img[width..]);
      UnfilterExact(rows - 1, width, img[width..]);
      assert img == img[..width] + img[width..];
    }
  }

  lemma AdlerFits(s: Bytes)
    ensures FromBigEndian(BigEndian(Adler(s))) == Adler(s)
  {
    BigEndianExact(Adler(s));
  }

  /** Every dimension is positive, a row is one stored block, and the data chunk is no longer than a chunk may be. */
  predicate Fits(w: nat, h: nat, alpha: bool) {
    && 0 < w && 0 < h
    && w * Channels(alpha) + 1 <= 65535
    && 2 + h * (6 + w * Channels(alpha)) + 4 <= MAX_LENGTH
  }

  lemma FileChunks(w: nat, h: nat, alpha: bool, img: Bytes)
    requires w < WORD && h < WORD && |img| == h * (w * Channels(alpha) % WORD)
    ensures var width := w * Channels(alpha) % WORD;
            var pitch := (w * Channels(alpha) + 1) % WORD;
            var declared := (2 + h * (5 + pitch) + 4) % WORD;
            var f := File(w, h, alpha, img);
            && |f| >= 8 && f[..8] == SIGNATURE
            && ReadChunk(f[8..]) == Some(Chunk(IHDR, HeaderData(w, h, alpha),
                 ChunkBytes(declared, IDAT, ImageData(h, width, pitch, img)) + ChunkBytes(0, IEND, [])))
  {
    hide ReadChunk, HeaderData, ImageData, ChunkBytes;
    var width := w * Channels(alpha) % WORD;
    var pitch := (w * Channels(alpha) + 1) % WORD;
    var tail := ChunkBytes((2 + h * (5 + pitch) + 4) % WORD, IDAT, ImageData(h, width, pitch, img)) + ChunkBytes(0, IEND, []);
    ReadChunkExact(13, IHDR, HeaderData(w, h, alpha), tail);
    var rest := ChunkBytes(13, IHDR, HeaderData(w, h, alpha)) + tail;
    assert (SIGNATURE + rest)[8..] == rest && (SIGNATURE + rest)[..8] == SIGNATURE;
  }

  lemma HeaderExact(w: nat, h: nat, alpha: bool)
    requires w < WORD && h < WORD
    ensures ReadHeader(HeaderData(w, h, alpha))
         == if w == 0 || h == 0 || w > MAX_LENGTH || h > MAX_LENGTH then None else Some((w, h, alpha))
  {
    var d := HeaderData(w, h, alpha);
    BigEndianExact(w);
    BigEndianExact(h);
    hide BigEndian, FromBigEndian;
    assert d[..4] == BigEndian(w) && d[4..8] == BigEndian(h) && d[10..] == [0, 0, 0];
    assert d[8] == 8 && d[9] == if alpha then 6 else 2;
  }

  lemma EndChunk()
    ensures ReadChunk(ChunkBytes(0, IEND, [])) == Some(Chunk(IEND, [], []))
  {
    ReadChunkExact(0, IEND, [], []);
    assert ChunkBytes(0, IEND, []) + [] == ChunkBytes(0, IEND, []);
  }

  lemma UnzipExact(h: nat, width: nat, img: Bytes)
    requires 0 < h && |img| == h * width && width + 1 <= 65535
    ensures Unzip(ImageData(h, width, width + 1, img)) == Some(Filtered(h, width, img))
  {
    hide Inflate, RowBlocks, Filtered, Adler;
    var f := Filtered(h, width, img);
    var blocks := RowBlocks(0, h, width, width + 1, img);
    var d := ImageData(h, width, width + 1, img);
    InflateRows(0, h, width, img, BigEndian(Adler(f)));
    AdlerFits(f);
    assert d[2..] == blocks + BigEndian(Adler(f)) && d[0] == 0x78 && d[1] == 1;
  }

  /** When the sizes fit, nothing wraps. */
  lemma NothingWraps(w: nat, h: nat, alpha: bool)
    requires Fits(w, h, alpha)
    ensures var width := w * Channels(alpha);
            && width % WORD == width && (width + 1) % WORD == width + 1
            && (2 + h * (5 + (width + 1)) + 4) % WORD == 2 + h * (6 + width) + 4 <= MAX_LENGTH
            && w <= MAX_LENGTH && h <= MAX_LENGTH
  {
    var width := w * Channels(alpha);
    SmallWord(width);
    SmallWord(width + 1);
    SmallWord(2 + h * (5 + (width + 1)) + 4);
    Larger(h, 6 + width, 1);
  }

  lemma ImageDataLength(h: nat, width: nat, pitch: nat, img: Bytes)
    requires |img| == h * width
    ensures |ImageData(h, width, pitch, img)| == 2 + h * (6 + width) + 4
  {
    RowBlocksLength(0, h, width, pitch, img);
  }

  /** Decoding an encoded image gives back its size, its colour type and every pixel. */
  lemma DecodeExact(w: nat, h: nat, alpha: bool, img: Bytes)
    requires Fits(w, h, alpha) && w < WORD && h < WORD && |img| == h * (w * Channels(alpha))
    ensures w * Channels(alpha) % WORD == w * Channels(alpha)
    ensures Decode(File(w, h, alpha, img)) == Some(Image(w, h, alpha, img))
  {
    hide ImageData, File, ReadChunk, ReadHeader, HeaderData, Filtered, Unfilter, Unzip, ChunkBytes;
    NothingWraps(w, h, alpha);
    var width := w * Channels(alpha);
    var data := ImageData(h, width, width + 1, img);
    ImageDataLength(h, width, width + 1, img);
    FileChunks(w, h, alpha, img);
    HeaderExact(w, h, alpha);
    ReadChunkExact(|data|, IDAT, data, ChunkBytes(0, IEND, []));
    EndChunk();
    UnzipExact(h, width, img);
    UnfilterExact(h, width, img);
  }

  lemma SmallWord(n: nat)
    requires n < WORD
    ensures n % WORD == n
  {
  }

  // ---------------------------------------------------------------- the converse

  /** Stored blocks cost five bytes each and carry at most 65535. */
  lemma {:induction false} InflateLength(s: Bytes) returns (blocks: nat)
    requires Inflate(s).Some?
    ensures blocks >= 1
    ensures |s| == 5 * blocks + |Inflate(s).value.data| + |Inflate(s).value.rest|
    ensures |Inflate(s).value.data| <= 65535 * blocks
    decreases |s|
  {
    var n := s[1] as int + 256 * s[2] as int;
    if s[0] % 2 == 1 {
      blocks := 1;
    } else {
      var more := InflateLength(s[5 + n..]);
      blocks := more + 1;
    }
  }

  /** If the file is accepted, the declared length was the length actually written. */
  lemma DeclaredLength(declared: nat, data: Bytes)
    requires declared < WORD
    requires var body := ReadChunk(ChunkBytes(declared, IDAT, data) + ChunkBytes(0, IEND, []));
             && body.Some?
             && var end := ReadChunk(body.value.rest);
             end.Some? && end.value.data == [] && end.value.rest == []
    ensures declared == |data| <= MAX_LENGTH
  {
    hide Crc, BigEndian, FromBigEndian, RegisterBytes;
    var file := ChunkBytes(declared, IDAT, data) + ChunkBytes(0, IEND, []);
    BigEndianExact(declared);
    assert file[..4] == BigEndian(declared);
    assert |file| == 24 + |data|;
  }

  /** Enough blocks for h rows exist only if a row fits a block and no width wrapped. */
  lemma RowsFit(h: nat, full: nat, width: nat, blocks: nat)
    requires 0 < h && width == full % WORD && blocks >= 1
    requires h * (6 + width) == 5 * blocks + h * (1 + full)
    requires h * (1 + full) <= 65535 * blocks
    ensures width == full && full + 1 <= 65535
  {
    if width != full {
      assert full >= width + WORD;
      Larger(h, 1 + full, 6 + width);
    } else {
      Distribute(h, 1 + full, 5);
      assert blocks == h;
    }
  }

  lemma Larger(h: nat, a: nat, b: nat)
    requires a >= b
    ensures h * a >= h * b
  {
  }

  lemma AcceptedFits(w: nat, h: nat, alpha: bool, img: Bytes)
    requires w < WORD && h < WORD && |img| == h * (w * Channels(alpha) % WORD)
    requires Decode(File(w, h, alpha, img)).Some?
    ensures Fits(w, h, alpha)
  {
    hide File, ReadChunk, HeaderData, ReadHeader, ChunkBytes, Inflate, RowBlocks, Filtered, Unfilter, Adler, Crc;
    var full := w * Channels(alpha);
    var width := full % WORD;
    var pitch := (full + 1) % WORD;
    var declared := (2 + h * (5 + pitch) + 4) % WORD;
    FileChunks(w, h, alpha, img);
    HeaderExact(w, h, alpha);
    var data := ImageData(h, width, pitch, img);
    DeclaredLength(declared, data);
    ReadChunkExact(|data|, IDAT, data, ChunkBytes(0, IEND, []));
    ImageDataLength(h, width, pitch, img);
    var blocks := InflateLength(data[2..]);
    RowsFit(h, full, width, blocks);
  }

  /** The encoder's file decodes to the image it was made from exactly when the sizes fit. */
  lemma DecodesExactlyWhenItFits(w: nat, h: nat, alpha: bool, img: Bytes)
    requires w < WORD && h < WORD && |img| == h * (w * Channels(alpha) % WORD)
    ensures Decode(File(w, h, alpha, img)) == Some(Image(w, h, alpha, img)) <==> Fits(w, h, alpha)
    ensures Decode(File(w, h, alpha, img)) == None <==> !Fits(w, h, alpha)
  {
    hide Decode, File;
    if Decode(File(w, h, alpha, img)).Some? { AcceptedFits(w, h, alpha, img); }
    if Fits(w, h, alpha) {
      SmallWord(w * Channels(alpha));
      DecodeExact(w, h, alpha, img);
    }
  }

  /** One row of 21845 RGB pixels is already a byte too long for its stored block. */
  lemma WideRowIsRejected(img: Bytes)
    requires |img| == 65535
    ensures Decode(File(21845, 1, false, img)) == None
  {
    hide File, Decode;
    DecodesExactlyWhenItFits(21845, 1, false, img);
  }

  /** A column of three hundred million RGB pixels fits one block a row, and 32 bits, and is too long for a chunk. */
  lemma TallImageIsRejected(img: Bytes)
    requires |img| == 900000000
    ensures Decode(File(1, 300000000, false, img)) == None
  {
    hide File, Decode;
    DecodesExactlyWhenItFits(1, 300000000, false, img);
  }
}
