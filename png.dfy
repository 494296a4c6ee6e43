/** PNG serialisation of a decoded RGBA texture (`codec/bntx/png.py`): the
    signature, chunk framing and IHDR layout of sections 3.1, 3.2 and 4.1.1 of
    RFC 2083, and the raw scanline stream of its section 6 (filter type 0 before
    every row). zlib compression is a foreign library: it is a parameter. */
module Png {
  import opened Bytes
  import opened Wrappers
  import Checksums

  /** `I1(value)`: `struct.pack("!B", value & 0xFF)`. Python's `&` on a
      negative int keeps the low bits of its two's complement, which is the
      non-negative remainder that Dafny's `%` gives. */
  function I1(value: int): (r: seq<byte>)
    ensures |r| == 1 && r[0] as int == value % 0x100
  {
    [ToByte(value % 0x100)]
  }

  /** `I4(value)`: `struct.pack("!I", value & 0xFFFFFFFF)`, four big-endian bytes. */
  function I4(value: int): (r: seq<byte>)
    ensures |r| == 4
  {
    var v := value % 0x1_0000_0000;
    [ToByte(v / 0x100_0000), ToByte(v / 0x1_0000 % 0x100), ToByte(v / 0x100 % 0x100), ToByte(v % 0x100)]
  }

  /** The four bytes of `I4(value)` read back big-endian are `value & 0xFFFFFFFF`. */
  lemma I4Value(value: int)
    ensures U32BE(I4(value), 0) == value % 0x1_0000_0000
  {
    var v := value % 0x1_0000_0000;
    var r := I4(value);
    assert U16BE(r, 0) == v / 0x1_0000;
    assert U16BE(r, 2) == v % 0x1_0000;
  }

  /** `PNG.ColorType.TRUE_COLOR_ALPHA`, `CompressionType.ZLIB`, `FilterType.ADAPTIVE`. */
  const TRUE_COLOR_ALPHA := 6
  const ZLIB := 0
  const ADAPTIVE := 0

  /** A `PNG` object: its fields are set by the constructor and never change. */
  datatype Png = Png(pixels: seq<byte>, width: int, height: int, bpp: int,
                     colorType: int, compressionType: int, filterType: int, interlaced: bool)

  /** `PNG(pixels, width=1, height=1, bpp=8)`: RGBA colour, zlib, filter
      method 0, not interlaced. */
  function NewPng(pixels: seq<byte>, width: int := 1, height: int := 1, bpp: int := 8): (p: Png)
    ensures p.pixels == pixels && p.width == width && p.height == height && p.bpp == bpp
    ensures p.colorType == 6 && p.compressionType == 0 && p.filterType == 0 && !p.interlaced
  {
    Png(pixels, width, height, bpp, TRUE_COLOR_ALPHA, ZLIB, ADAPTIVE, false)
  }

  /** The eight signature bytes `writeMagic` writes. */
  const SIGNATURE: seq<byte> := [0x89, 0x50, 0x4E, 0x47, 0x0D, 0x0A, 0x1A, 0x0A]

  /** The chunk types the writer uses, as the ASCII bytes `name.encode('ascii')` gives. */
  const IHDR: seq<byte> := [0x49, 0x48, 0x44, 0x52]
  const IDAT: seq<byte> := [0x49, 0x44, 0x41, 0x54]
  const IEND: seq<byte> := [0x49, 0x45, 0x4E, 0x44]

  lemma ChunkTypeNames()
    ensures IHDR == Ascii("IHDR") && IDAT == Ascii("IDAT") && IEND == Ascii("IEND")
  {
  }

  /** zlib's `crc32`: a foreign library function, so a parameter here;
      `Checksums.Crc` is the CRC-32 it computes (see `IendBlock`). */
  type Checksum = seq<byte> -> bv32

  /** `makeBlock(name, data)` with `kind` the encoded name: the data's length,
      the chunk type, the data, and the CRC-32 of type and data. */
  function MakeBlock(kind: seq<byte>, data: seq<byte>, crc32: Checksum): seq<byte>
  {
    var block := kind + data;
    I4(|data|) + block + I4(crc32(block) as int)
  }

  // ---------------------------------------------------------------------------
  // Reading a chunk back

  datatype Chunk = Chunk(kind: seq<byte>, data: seq<byte>)

  /** A chunk as section 3.2 of RFC 2083 lays it out: a big-endian length, a
      4-byte type, that many data bytes, and a CRC over type and data; `None`
      when the bytes run out or the CRC does not match. Also returns the rest. */
  function ParseChunk(b: seq<byte>, crc32: Checksum): (r: Option<(Chunk, seq<byte>)>)
    ensures r.Some? ==> |r.value.1| < |b|
  {
    if |b| < 12 then None
    else
      var len := U32BE(b, 0);
      if 12 + len > |b| then None
      else
        var kind := b[4..8];
        var data := b[8..8 + len];
        if U32BE(b, 8 + len) != crc32(kind + data) as int then None
        else Some((Chunk(kind, data), b[12 + len..]))
  }

  /** A 32-bit big-endian field read back from where it was written. */
  lemma U32BEAt(s: seq<byte>, i: nat, v: int)
    requires i + 4 <= |s| && s[i..i + 4] == I4(v)
    ensures U32BE(s, i) == v % 0x1_0000_0000
  {
    var w := I4(v);
    I4Value(v);
    assert s[i] == w[0] && s[i + 1] == w[1] && s[i + 2] == w[2] && s[i + 3] == w[3];
  }

  /** A block followed by more bytes: length, name, data, CRC, the rest. */
  lemma BlockPieces(kind: seq<byte>, data: seq<byte>, crc32: Checksum, rest: seq<byte>)
    ensures MakeBlock(kind, data, crc32) + rest
            == I4(|data|) + (kind + (data + (I4(crc32(kind + data) as int) + rest)))
  {
    Assoc(I4(|data|), kind, data, I4(crc32(kind + data) as int), rest);
  }

  /** Five pieces laid end to end, the first, second and fourth four bytes long. */
  lemma Fields(a: seq<byte>, b: seq<byte>, c: seq<byte>, d: seq<byte>, e: seq<byte>)
    requires |a| == 4 && |b| == 4 && |d| == 4
    ensures var s := a + (b + (c + (d + e)));
            var n := |c|;
            |s| == 12 + n + |e| && s[..4] == a && s[4..8] == b && s[8..8 + n] == c
            && s[8 + n..12 + n] == d && s[12 + n..] == e
  {
    var s := a + (b + (c + (d + e)));
    Split(a, b + (c + (d + e)));
    Split(b, c + (d + e));
    Split(c, d + e);
    Split(d, e);
    Suffix(s, 4, 4);
    Suffix(s, 8, |c|);
    Suffix(s, 8 + |c|, 4);
  }

  lemma Assoc(a: seq<byte>, b: seq<byte>, c: seq<byte>, d: seq<byte>, e: seq<byte>)
    ensures a + (b + c) + d + e == a + (b + (c + (d + e)))
  {
  }

  lemma ModBelow(x: int, m: int)
    requires 0 <= x < m
    ensures x % m == x
  {
  }

  lemma Split(x: seq<byte>, y: seq<byte>)
    ensures (x + y)[..|x|] == x && (x + y)[|x|..] == y
  {
  }

  lemma Suffix(s: seq<byte>, i: nat, k: nat)
    requires i + k <= |s|
    ensures s[i..][..k] == s[i..i + k] && s[i..][k..] == s[i + k..]
  {
  }

  /** Every block `makeBlock` builds with a 4-byte type and fewer than 2^32
      bytes of data reads back as that type and data, whatever follows. */
  lemma ChunkRoundTrip(kind: seq<byte>, data: seq<byte>, crc32: Checksum, rest: seq<byte>)
    requires |kind| == 4 && |data| < 0x1_0000_0000
    ensures var r := ParseChunk(MakeBlock(kind, data, crc32) + rest, crc32);
            r.Some? && r.value.0 == Chunk(kind, data) && r.value.1 == rest
  {
    var crc := crc32(kind + data) as int;
    BlockPieces(kind, data, crc32, rest);
    assert MakeBlock(kind, data, crc32) + rest == I4(|data|) + (kind + (data + (I4(crc) + rest)));
    ParseBlock(kind, data, crc32, crc, rest);
  }

  /** Length, type, data, CRC and whatever follows, laid end to end, parse
      back when the CRC is that of type and data. */
  lemma ParseBlock(kind: seq<byte>, data: seq<byte>, crc32: Checksum, crc: int, rest: seq<byte>)
    requires |kind| == 4 && |data| < 0x1_0000_0000 && 0 <= crc < 0x1_0000_0000
    requires crc == crc32(kind + data) as int
    ensures ParseChunk(I4(|data|) + (kind + (data + (I4(crc) + rest))), crc32)
            == Some((Chunk(kind, data), rest))
  {
    var b := I4(|data|) + (kind + (data + (I4(crc) + rest)));
    var n := |data|;
    BlockRead(kind, data, crc, rest);
    assert b[4..8] + b[8..8 + n] == kind + data;
    ParseChunkFields(b, n, crc32);
  }

  /** What the fields of such a block read as. */
  lemma BlockRead(kind: seq<byte>, data: seq<byte>, crc: int, rest: seq<byte>)
    requires |kind| == 4 && |data| < 0x1_0000_0000 && 0 <= crc < 0x1_0000_0000
    ensures var b := I4(|data|) + (kind + (data + (I4(crc) + rest)));
            var n := |data|;
            |b| == 12 + n + |rest| && U32BE(b, 0) == n && b[4..8] == kind && b[8..8 + n] == data
            && U32BE(b, 8 + n) == crc && b[12 + n..] == rest
  {
    var b := I4(|data|) + (kind + (data + (I4(crc) + rest)));
    var n := |data|;
    Fields(I4(n), kind, data, I4(crc), rest);
    U32BEAt(b, 0, n);
    ModBelow(n, 0x1_0000_0000);
    U32BEAt(b, 8 + n, crc);
    ModBelow(crc, 0x1_0000_0000);
  }

  /** A chunk whose length and CRC fields agree with its contents parses. */
  lemma ParseChunkFields(b: seq<byte>, n: nat, crc32: Checksum)
    requires |b| >= 12 + n && U32BE(b, 0) == n && U32BE(b, 8 + n) == crc32(b[4..8] + b[8..8 + n]) as int
    ensures ParseChunk(b, crc32) == Some((Chunk(b[4..8], b[8..8 + n]), b[12 + n..]))
  {
  }

  // ---------------------------------------------------------------------------
  // IHDR

  /** The 13-byte IHDR payload `writeIHDR` builds. */
  function IhdrPayload(p: Png): (r: seq<byte>)
    ensures |r| == 13
  {
    I4(p.width) + I4(p.height) + I1(p.bpp) + I1(p.colorType) + I1(p.compressionType)
      + I1(p.filterType) + I1(if p.interlaced then 1 else 0)
  }

  /** The fields of section 4.1.1 of RFC 2083: width and height as big-endian
      32-bit values (modulo 2^32), then bit depth, colour type, compression,
      filter and interlace method one byte each. */
  lemma IhdrFields(p: Png)
    ensures var r := IhdrPayload(p);
            U32BE(r, 0) == p.width % 0x1_0000_0000 && U32BE(r, 4) == p.height % 0x1_0000_0000
            && r[8] as int == p.bpp % 0x100 && r[9] as int == p.colorType % 0x100
            && r[10] as int == p.compressionType % 0x100 && r[11] as int == p.filterType % 0x100
            && r[12] == (if p.interlaced then 1 else 0)
  {
    var r := IhdrPayload(p);
    var w, h := I4(p.width), I4(p.height);
    HeaderPieces(w, h, I1(p.bpp), I1(p.colorType), I1(p.compressionType),
                 I1(p.filterType), I1(if p.interlaced then 1 else 0));
    U32BEAt(r, 0, p.width);
    U32BEAt(r, 4, p.height);
  }

  /** Two four-byte fields and five one-byte fields laid end to end. */
  lemma HeaderPieces(a: seq<byte>, b: seq<byte>, c: seq<byte>, d: seq<byte>, e: seq<byte>,
                     f: seq<byte>, g: seq<byte>)
    requires |a| == 4 && |b| == 4 && |c| == 1 && |d| == 1 && |e| == 1 && |f| == 1 && |g| == 1
    ensures var r := a + b + c + d + e + f + g;
            |r| == 13 && r[0..4] == a && r[4..8] == b
            && r[8] == c[0] && r[9] == d[0] && r[10] == e[0] && r[11] == f[0] && r[12] == g[0]
  {
  }

  /** For a texture built by the constructor the IHDR says RGBA (colour type
      6), compression 0, filter method 0 and no interlace. */
  lemma NewPngHeader(pixels: seq<byte>, width: int, height: int, bpp: int)
    ensures var r := IhdrPayload(NewPng(pixels, width, height, bpp));
            r[9] == 6 && r[10] == 0 && r[11] == 0 && r[12] == 0
  {
    IhdrFields(NewPng(pixels, width, height, bpp));
  }

  // ---------------------------------------------------------------------------
  // The scanlines of IDAT

  /** `pixels[i:j]` for `0 <= i <= j`: both bounds are clamped to the length. */
  function PySlice(s: seq<byte>, i: nat, j: nat): (r: seq<byte>)
    requires i <= j
    ensures j <= |s| ==> r == s[i..j]
    ensures |r| <= j - i
  {
    var a := if i < |s| then i else |s|;
    var b := if j < |s| then j else |s|;
    s[a..b]
  }

  /** The pixel data `writeIDAT` reads: padded with zero bytes up to
      `width * height * 4` when shorter, unchanged (excess included) otherwise. */
  function Padded(p: Png): seq<byte>
  {
    var pad := p.width * p.height * 4 - |p.pixels|;
    if pad > 0 then p.pixels + Zeros(pad) else p.pixels
  }

  /** The pixels are kept at the front, followed by zero bytes. */
  lemma PaddedShape(p: Png)
    ensures var d := Padded(p);
            |d| >= |p.pixels| && |d| >= p.width * p.height * 4 && d[..|p.pixels|] == p.pixels
            && (forall i :: |p.pixels| <= i < |d| ==> d[i] == 0)
            && (p.width * p.height * 4 >= |p.pixels| ==> |d| == p.width * p.height * 4)
  {
  }

  /** `range(n)` is empty for `n <= 0`. */
  function Count(n: int): nat
  {
    if n > 0 then n else 0
  }

  /** `n` pixels of four bytes each, starting at byte `idx`, one slice per
      pixel as the inner loop takes them. */
  function Texels(data: seq<byte>, idx: nat, n: nat): seq<byte>
    decreases n
  {
    if n == 0 then [] else Texels(data, idx, n - 1) + PySlice(data, idx + 4 * (n - 1), idx + 4 * n)
  }

  /** Scanline `y`: the filter-type byte 0, then the row's pixels. */
  function Row(data: seq<byte>, cols: nat, y: nat): seq<byte>
  {
    [0] + Texels(data, 4 * cols * y, cols)
  }

  /** The first `y` scanlines. */
  function Rows(data: seq<byte>, cols: nat, y: nat): seq<byte>
    decreases y
  {
    if y == 0 then [] else Rows(data, cols, y - 1) + Row(data, cols, y - 1)
  }

  /** The raw (uncompressed) IDAT stream. */
  function Raw(p: Png): seq<byte>
  {
    Rows(Padded(p), Count(p.width), Count(p.height))
  }

  /** Inside the data, the pixels of a row are one contiguous slice. */
  lemma {:induction false} TexelsInside(data: seq<byte>, idx: nat, n: nat)
    requires idx + 4 * n <= |data|
    ensures Texels(data, idx, n) == data[idx..idx + 4 * n]
    decreases n
  {
    if n > 0 {
      TexelsInside(data, idx, n - 1);
      assert data[idx..idx + 4 * n] == data[idx..idx + 4 * (n - 1)] + data[idx + 4 * (n - 1)..idx + 4 * n];
    }
  }

  lemma MulStep(a: nat, y: nat)
    ensures a * (y + 1) == a * y + a && (y + 1) * a == y * a + a && 0 <= a * y
  {
  }

  lemma MulBelow(a: nat, r: nat, y: nat)
    requires r < y
    ensures 0 <= a * r && a * r + a <= a * y
  {
    var k := y - r - 1;
    assert y == r + 1 + k;
    assert a * y == a * r + a + a * k;
  }

  /** Scanline `r` of the first `y`: `1 + 4 * cols` bytes at `r * (1 + 4 * cols)`,
      the filter byte 0 then pixel bytes `4 * cols * r` up to the next row's. */
  lemma {:induction false} RowAt(data: seq<byte>, cols: nat, y: nat, r: nat)
    requires r < y && 4 * cols * y <= |data|
    ensures var w := 1 + 4 * cols;
            var s := Rows(data, cols, y);
            |s| == y * w && r * w + w <= |s| && 4 * cols * r + 4 * cols <= |data|
            && s[r * w..r * w + w] == [0] + data[4 * cols * r..4 * cols * r + 4 * cols]
            && s[r * w] == 0 && s[r * w + 1..r * w + w] == data[4 * cols * r..4 * cols * r + 4 * cols]
  {
    var w := 1 + 4 * cols;
    var s := Rows(data, cols, y);
    RowBounds(data, cols, y, r);
    RowSlice(data, cols, y, r);
    var row := [0] + data[4 * cols * r..4 * cols * r + 4 * cols];
    assert s[r * w] == row[0];
    assert s[r * w + 1..r * w + w] == row[1..];
  }

  /** The first `y` scanlines fill `y * (1 + 4 * cols)` bytes, and row `r < y`
      and its pixel bytes lie inside them. */
  lemma RowBounds(data: seq<byte>, cols: nat, y: nat, r: nat)
    requires r < y && 4 * cols * y <= |data|
    ensures var w := 1 + 4 * cols;
            |Rows(data, cols, y)| == y * w && r * w + w <= y * w && 4 * cols * r + 4 * cols <= |data|
  {
    MulBelow(4 * cols, r, y);
    MulBelow(1 + 4 * cols, r, y);
    RowsLength(data, cols, y);
  }

  /** Scanline `r` of the first `y` sits after the first `r`. */
  lemma RowSlice(data: seq<byte>, cols: nat, y: nat, r: nat)
    requires r < y && 4 * cols * y <= |data|
    ensures var w := 1 + 4 * cols;
            var s := Rows(data, cols, y);
            r * w + w <= |s| && 4 * cols * r + 4 * cols <= |data|
            && s[r * w..r * w + w] == [0] + data[4 * cols * r..4 * cols * r + 4 * cols]
  {
    var w := 1 + 4 * cols;
    var s := Rows(data, cols, y);
    var pre := Rows(data, cols, r);
    var row := Row(data, cols, r);
    RowBounds(data, cols, y, r);
    RowsLength(data, cols, r);
    RowIs(data, cols, r);
    RowsPrefix(data, cols, r + 1, y);
    assert Rows(data, cols, r + 1) == pre + row;
    PrefixSlice(s, pre, row);
  }

  /** Scanline `r`, when its pixels are inside the data: the filter byte 0
      and then those pixels. */
  lemma RowIs(data: seq<byte>, cols: nat, r: nat)
    requires 4 * cols * r + 4 * cols <= |data|
    ensures Row(data, cols, r) == [0] + data[4 * cols * r..4 * cols * r + 4 * cols]
    ensures |Row(data, cols, r)| == 1 + 4 * cols
  {
    TexelsInside(data, 4 * cols * r, cols);
  }

  /** Where a sequence starts with `pre + mid`, `mid` follows `pre`. */
  lemma PrefixSlice(s: seq<byte>, pre: seq<byte>, mid: seq<byte>)
    requires |pre| + |mid| <= |s| && s[..|pre| + |mid|] == pre + mid
    ensures s[|pre|..|pre| + |mid|] == mid
  {
    assert s[|pre|..|pre| + |mid|] == s[..|pre| + |mid|][|pre|..];
  }

  /** Each scanline inside the data is `1 + 4 * cols` bytes long. */
  lemma {:induction false} RowsLength(data: seq<byte>, cols: nat, y: nat)
    requires 4 * cols * y <= |data|
    ensures |Rows(data, cols, y)| == y * (1 + 4 * cols)
    decreases y
  {
    if y > 0 {
      var p := y - 1;
      MulStep(4 * cols, p);
      MulStep(1 + 4 * cols, p);
      RowsLength(data, cols, p);
      TexelsInside(data, 4 * cols * p, cols);
      assert |Row(data, cols, p)| == 1 + 4 * cols;
    }
  }

  /** The first `r` scanlines start the first `y`. */
  lemma {:induction false} RowsPrefix(data: seq<byte>, cols: nat, r: nat, y: nat)
    requires r <= y
    ensures |Rows(data, cols, r)| <= |Rows(data, cols, y)|
    ensures Rows(data, cols, y)[..|Rows(data, cols, r)|] == Rows(data, cols, r)
    decreases y
  {
    if r < y {
      RowsPrefix(data, cols, r, y - 1);
    }
  }

  /** The raw stream of section 6 of RFC 2083 as `writeIDAT` builds it:
      `height` rows of `1 + 4 * width` bytes, each the filter byte 0 followed by
      the row's pixels, padding zeros included and excess pixels left out. */
  lemma RawLayout(p: Png, r: nat)
    requires p.width >= 0 && r < p.height
    ensures var w := 1 + 4 * p.width;
            var raw := Raw(p);
            var d := Padded(p);
            |raw| == p.height * w && r * w + w <= |raw| && 4 * p.width * r + 4 * p.width <= |d|
            && raw[r * w] == 0
            && raw[r * w + 1..r * w + w] == d[4 * p.width * r..4 * p.width * r + 4 * p.width]
  {
    PaddedCovers(p);
    RowAt(Padded(p), p.width, p.height, r);
  }

  /** The padded pixels hold every row the scanline loop reads. */
  lemma PaddedCovers(p: Png)
    requires p.width >= 0 && p.height >= 0
    ensures 4 * p.width * p.height <= |Padded(p)|
  {
    PaddedShape(p);
    Reorder(p.width, p.height);
  }

  lemma Reorder(a: int, b: int)
    ensures a * b * 4 == 4 * a * b
  {
  }

  // ---------------------------------------------------------------------------
  // Writing

  /** The file object `writeToFile` writes to: bytes are appended in order. */
  class Sink {
    var written: seq<byte>

    constructor ()
      ensures written == []
    {
      written := [];
    }

    method Write(b: seq<byte>)
      modifies this
      ensures written == old(written) + b
    {
      written := written + b;
    }
  }

  /** `writeIDAT`'s loops: the running `idx` advances four bytes a pixel while
      `raw` collects the filter byte and the pixels of each row. */
  method Scanlines(p: Png) returns (raw: seq<byte>)
    ensures raw == Raw(p)
  {
    var data := p.pixels;
    var pad := p.width * p.height * 4 - |data|;
    if pad > 0 {
      data := p.pixels + Zeros(pad);
    }
    assert data == Padded(p);
    var cols := Count(p.width);
    var idx := 0;
    raw := [];
    var y := 0;
    while y < p.height
      invariant 0 <= y && (p.height > 0 ==> y <= p.height)
      invariant p.height <= 0 ==> y == 0
      invariant idx == 4 * cols * y && raw == Rows(data, cols, y)
    {
      ghost var before := raw;
      raw := raw + [0];
      var row;
      row, idx := RowTexels(data, idx, p.width);
      assert Row(data, cols, y) == [0] + row;
      raw := raw + row;
      assert raw == before + Row(data, cols, y);
      MulStep(4 * cols, y);
      y := y + 1;
    }
    assert y == Count(p.height);
  }

  /** `writeIDAT`'s inner loop over the `width` pixels of one row, from byte `start`. */
  method RowTexels(data: seq<byte>, start: nat, width: int) returns (row: seq<byte>, idx: nat)
    ensures idx == start + 4 * Count(width) && row == Texels(data, start, Count(width))
  {
    idx := start;
    row := [];
    var x := 0;
    while x < width
      invariant 0 <= x && (width > 0 ==> x <= width) && (width <= 0 ==> x == 0)
      invariant idx == start + 4 * x && row == Texels(data, start, x)
    {
      var c := PySlice(data, idx, idx + 4);
      row := row + c;
      idx := idx + 4;
      x := x + 1;
    }
  }

  /** `buf.write(makeBlock(name, data))`. */
  method WriteBlock(buf: Sink, kind: seq<byte>, data: seq<byte>, crc32: Checksum)
    modifies buf
    ensures buf.written == old(buf.written) + MakeBlock(kind, data, crc32)
  {
    buf.Write(MakeBlock(kind, data, crc32));
  }

  /** Writes the signature. */
  method WriteMagic(buf: Sink)
    modifies buf
    ensures buf.written == old(buf.written) + SIGNATURE
  {
    buf.Write(SIGNATURE);
  }

  method WriteIhdr(p: Png, crc32: Checksum, buf: Sink)
    modifies buf
    ensures buf.written == old(buf.written) + MakeBlock(IHDR, IhdrPayload(p), crc32)
  {
    var ihdr := I4(p.width) + I4(p.height) + I1(p.bpp);
    ihdr := ihdr + I1(p.colorType) + I1(p.compressionType);
    ihdr := ihdr + I1(p.filterType) + I1(if p.interlaced then 1 else 0);
    WriteBlock(buf, IHDR, ihdr, crc32);
  }

  /** `compress` stands for zlib's compressor over the whole raw stream. */
  method WriteIdat(p: Png, compress: seq<byte> -> seq<byte>, crc32: Checksum, buf: Sink)
    modifies buf
    ensures buf.written == old(buf.written) + MakeBlock(IDAT, compress(Raw(p)), crc32)
  {
    var raw := Scanlines(p);
    WriteBlock(buf, IDAT, compress(raw), crc32);
  }

  method WriteIend(crc32: Checksum, buf: Sink)
    modifies buf
    ensures buf.written == old(buf.written) + MakeBlock(IEND, [], crc32)
  {
    WriteBlock(buf, IEND, [], crc32);
  }

  /** The whole file: signature, IHDR, IDAT, IEND. */
  function File(p: Png, compress: seq<byte> -> seq<byte>, crc32: Checksum): seq<byte>
  {
    SIGNATURE + MakeBlock(IHDR, IhdrPayload(p), crc32) + MakeBlock(IDAT, compress(Raw(p)), crc32) + MakeBlock(IEND, [], crc32)
  }

  /** `writeToFile`. */
  method WriteToFile(p: Png, compress: seq<byte> -> seq<byte>, crc32: Checksum, buf: Sink)
    modifies buf
    ensures buf.written == old(buf.written) + File(p, compress, crc32)
  {
    ghost var before := buf.written;
    ghost var ihdr, idat, iend := MakeBlock(IHDR, IhdrPayload(p), crc32), MakeBlock(IDAT, compress(Raw(p)), crc32), MakeBlock(IEND, [], crc32);
    WriteMagic(buf);
    WriteIhdr(p, crc32, buf);
    assert buf.written == before + SIGNATURE + ihdr;
    WriteIdat(p, compress, crc32, buf);
    assert buf.written == before + SIGNATURE + ihdr + idat;
    WriteIend(crc32, buf);
    assert buf.written == before + SIGNATURE + ihdr + idat + iend;
    Appended(before, SIGNATURE, ihdr, idat, iend);
    assert File(p, compress, crc32) == SIGNATURE + ihdr + idat + iend;
  }

  lemma Appended(s: seq<byte>, a: seq<byte>, b: seq<byte>, c: seq<byte>, d: seq<byte>)
    ensures s + a + b + c + d == s + (a + b + c + d)
  {
  }

  /** A file read back chunk by chunk after the signature: IHDR with the
      header payload, IDAT with the compressed scanlines, and an empty IEND that
      ends the file. */
  lemma FileChunks(p: Png, compress: seq<byte> -> seq<byte>, crc32: Checksum)
    requires |compress(Raw(p))| < 0x1_0000_0000
    ensures var f := File(p, compress, crc32);
            |f| >= 8 && f[..8] == SIGNATURE
            && var c1 := ParseChunk(f[8..], crc32);
            c1.Some? && c1.value.0 == Chunk(IHDR, IhdrPayload(p))
            && var c2 := ParseChunk(c1.value.1, crc32);
            c2.Some? && c2.value.0 == Chunk(IDAT, compress(Raw(p)))
            && var c3 := ParseChunk(c2.value.1, crc32);
            c3.Some? && c3.value.0 == Chunk(IEND, []) && c3.value.1 == []
  {
    var ihdr := MakeBlock(IHDR, IhdrPayload(p), crc32);
    var idat := MakeBlock(IDAT, compress(Raw(p)), crc32);
    var iend := MakeBlock(IEND, [], crc32);
    var f := File(p, compress, crc32);
    assert f == SIGNATURE + (ihdr + idat + iend);
    Split(SIGNATURE, ihdr + idat + iend);
    ChunkSequence(IHDR, IhdrPayload(p), IDAT, compress(Raw(p)), IEND, [], crc32);
  }

  /** Three blocks in a row parse back, one after the other, to their names and
      data, and nothing is left after the third. */
  lemma ChunkSequence(k1: seq<byte>, d1: seq<byte>, k2: seq<byte>, d2: seq<byte>,
                      k3: seq<byte>, d3: seq<byte>, crc32: Checksum)
    requires |k1| == 4 && |k2| == 4 && |k3| == 4
    requires |d1| < 0x1_0000_0000 && |d2| < 0x1_0000_0000 && |d3| < 0x1_0000_0000
    ensures var b2, b3 := MakeBlock(k2, d2, crc32), MakeBlock(k3, d3, crc32);
            ParseChunk(MakeBlock(k1, d1, crc32) + b2 + b3, crc32) == Some((Chunk(k1, d1), b2 + b3))
            && ParseChunk(b2 + b3, crc32) == Some((Chunk(k2, d2), b3))
            && ParseChunk(b3, crc32) == Some((Chunk(k3, d3), []))
  {
    var b1, b2, b3 := MakeBlock(k1, d1, crc32), MakeBlock(k2, d2, crc32), MakeBlock(k3, d3, crc32);
    assert b1 + b2 + b3 == b1 + (b2 + b3);
    ChunkRoundTrip(k1, d1, crc32, b2 + b3);
    ChunkRoundTrip(k2, d2, crc32, b3);
    assert b3 + [] == b3;
    ChunkRoundTrip(k3, d3, crc32, []);
  }

  // With zlib's `crc32` the CRC-32 of section 8 of RFC 1952, every IEND chunk
  // is the same twelve bytes. Each lemma below takes the register over one
  // letter of the chunk name.

  lemma IendCrcStep1()
    ensures Checksums.Update(Checksums.Table(), 0xFFFF_FFFF, 0x49) == 0x22FD_E946
  {
    assert Checksums.Table()[0xB6] == Checksums.Entry(0xB6);
    assert Checksums.Entry(0xB6) == 0x2202_16B9;
  }

  lemma IendCrcStep2()
    ensures Checksums.Update(Checksums.Table(), 0x22FD_E946, 0x45) == 0x992B_AC53
  {
    assert Checksums.Table()[0x03] == Checksums.Entry(0x03);
    assert Checksums.Entry(0x03) == 0x9909_51BA;
  }

  lemma IendCrcStep3()
    ensures Checksums.Update(Checksums.Table(), 0x992B_AC53, 0x4E) == 0x639F_4775
  {
    assert Checksums.Table()[0x1D] == Checksums.Entry(0x1D);
    assert Checksums.Entry(0x1D) == 0x6306_6CD9;
  }

  lemma IendCrcStep4()
    ensures Checksums.Update(Checksums.Table(), 0x639F_4775, 0x44) == 0x51BD_9F7D
  {
    assert Checksums.Table()[0x31] == Checksums.Entry(0x31);
    assert Checksums.Entry(0x31) == 0x51DE_003A;
  }

  /** The CRC-32 of the name `IEND` is 0xAE426082. */
  lemma IendCrc(block: seq<byte>)
    requires block == IEND
    ensures Checksums.Crc(block) == 0xAE42_6082
  {
    var t := Checksums.Table();
    assert block[0..] == block;
    Checksums.RegisterStep(t, 0xFFFF_FFFF, block, 0);
    IendCrcStep1();
    Checksums.RegisterStep(t, 0x22FD_E946, block, 1);
    IendCrcStep2();
    Checksums.RegisterStep(t, 0x992B_AC53, block, 2);
    IendCrcStep3();
    Checksums.RegisterStep(t, 0x639F_4775, block, 3);
    IendCrcStep4();
    assert block[4..] == [];
  }

  /** `makeBlock('IEND', b'')` with the standard CRC-32: a zero length, the
      name, and the CRC bytes AE 42 60 82. */
  lemma IendBlock()
    ensures MakeBlock(IEND, [], Checksums.Crc) == [0, 0, 0, 0] + IEND + [0xAE, 0x42, 0x60, 0x82]
  {
    var block: seq<byte> := IEND + [];
    assert block == IEND;
    IendCrc(block);
    I4Bytes(Checksums.Crc(block) as int, 0xAE, 0x42, 0x60, 0x82);
    var none: seq<byte> := [];
    I4Bytes(|none|, 0, 0, 0, 0);
  }

  /** The four bytes `I4` packs a 32-bit value into, given that value's base-256 digits. */
  lemma I4Bytes(v: int, a: nat, b: nat, c: nat, d: nat)
    requires a < 0x100 && b < 0x100 && c < 0x100 && d < 0x100
    requires v == 0x100_0000 * a + 0x1_0000 * b + 0x100 * c + d
    ensures I4(v) == [ToByte(a), ToByte(b), ToByte(c), ToByte(d)]
  {
    var hi3 := 0x1_0000 * a + 0x100 * b + c;
    var hi2 := 0x100 * a + b;
    ModBelow(v, 0x1_0000_0000);
    ModUnique(v, 0x100, hi3, d);
    ModUnique(v, 0x1_0000, hi2, 0x100 * c + d);
    ModUnique(v, 0x100_0000, a, 0x1_0000 * b + 0x100 * c + d);
    ModUnique(hi3, 0x100, hi2, c);
    ModUnique(hi2, 0x100, a, b);
  }
}
