/** `BC1.decode` and `BC2.decode` in `pixelfmt/bc.py`: every 4x4 tile of a
    block-compressed texture is decoded and its 16 texels are copied into a
    row-major RGBA buffer. The buffer is a `bytearray`, so a slice assignment
    at or past its end appends instead of failing, while an item assignment
    past its end raises `IndexError`. */
module BcnImage {
  import opened Bytes
  import opened Wrappers
  import opened Bcn

  /** The two block formats with a `decode` method. BC2 carries a mode: as
      written, or with its alpha word read unsigned and its output buffer sized
      for four bytes per texel. */
  datatype Format = Bc1 | Bc2(mode: Mode)

  /** A decoded 4x4 tile: 16 texels of four bytes. */
  type TileBytes = t: seq<byte> | |t| == 64 witness Zeros(64)

  /** The 16 alpha bytes of a decoded tile. */
  type AlphaBytes = a: seq<byte> | |a| == 16 witness Zeros(16)

  /** A texture being decoded: its format, its data, the swizzle's tile offset
      (`tex.swizzle.getOffset`), the number of tiles per row, and the decoded
      tile and the widened BC2 alphas at each offset. */
  datatype Blocks = Blocks(format: Format, data: seq<byte>, offset: (nat, nat) -> nat, across: nat,
                           tile: nat -> TileBytes, alphas: nat -> AlphaBytes)

  /** BC1 overrides `calcCLUT2`/`calcCLUT3`; BC2 keeps the base ones. */
  function RampOf(f: Format): Ramp
  {
    if f == Bc1 then Bc1Ramp else Thirds
  }

  /** `int((n + 3) / 4)`: the number of tiles that cover `n` pixels. */
  function Tiles(n: nat): (t: nat)
    ensures n <= 4 * t < n + 4
  {
    (n + 3) / 4
  }

  /** The size of the `bytearray` `decode` allocates for `tiles` tiles: 64 bytes
      a tile for BC1; `depth >> 3` a tile for BC2 as written; 64 a tile for BC2
      corrected. */
  function BufferSize(f: Format, tiles: nat, depth: nat): nat
  {
    if f == Bc2(AsWritten) then tiles * (depth / 8) else tiles * 64
  }

  /** `(x*4 + tx + (y*4 + ty) * across * 4) * 4` with `tx, ty` the column and row
      of texel `k` inside the tile: where texel `k` of tile `(x, y)` goes. */
  function Place(across: nat, x: nat, y: nat, k: nat): nat
  {
    (x * 4 + k % 4 + (y * 4 + k / 4) * across * 4) * 4
  }

  /** `p[i:i + n] = t` on a `bytearray`: both slice bounds are clamped to the
      length, so at or past the end the bytes are appended. */
  function SliceSet(p: seq<byte>, i: nat, n: nat, t: seq<byte>): seq<byte>
  {
    var a := if i < |p| then i else |p|;
    var b := if i + n < |p| then i + n else |p|;
    p[..a] + t + p[b..]
  }

  /** `p[i] = v` on a `bytearray`: `IndexError` past the end. */
  function ItemSet(p: seq<byte>, i: nat, v: byte): Result<seq<byte>>
  {
    if i < |p| then Ok(p[i := v]) else Err(IndexError)
  }

  /** A slice assignment inside the buffer replaces those `n` bytes by `t`,
      keeping everything around them; at or past the end it appends `t`. */
  lemma SliceSetClamps(p: seq<byte>, i: nat, n: nat, t: seq<byte>)
    ensures var r := SliceSet(p, i, n, t);
            (i + n <= |p| ==> |r| == |p| - n + |t| && r[..i] == p[..i] && r[i..i + |t|] == t && r[i + |t|..] == p[i + n..])
            && (i >= |p| ==> r == p + t)
  {
  }

  /** An item assignment succeeds exactly inside the buffer, where it changes
      that one byte and nothing else. */
  lemma ItemSetInside(p: seq<byte>, i: nat, v: byte)
    ensures var r := ItemSet(p, i, v);
            (r.Ok? <==> i < |p|) && (r.Err? ==> r.error == IndexError)
            && (r.Ok? ==> |r.value| == |p| && r.value[i] == v
                          && forall j :: 0 <= j < |p| && j != i ==> r.value[j] == p[j])
  {
  }

  /** `decodeTile(data, offs)`; where fewer than 8 bytes are left it raises
      instead, and `TileDone` never looks at this value. */
  function DecodedTile(f: Format, data: seq<byte>, offs: nat): TileBytes
  {
    if offs + 8 <= |data| then Tile(RedHigh, RampOf(f), data, offs).value else Zeros(64)
  }

  /** The bit-packed alphas of a BC2 block (unused for BC1). */
  function WordOf(f: Format, data: seq<byte>, offs: nat): int
  {
    if f.Bc2? && offs + 8 <= |data| then AlphaWord(f.mode, data, offs) else 0
  }

  /** BC2's alphas `a | (a << 4)` with `a = (alphaCh >> (16 * ty + 4 * tx)) & 0xF`
      for texel `k = 4 * ty + tx`. */
  function Alphas(word: int): AlphaBytes
  {
    seq(16, k requires 0 <= k < 16 => AlphaOf(word, k))
  }

  /** The widened alpha of texel `k`. */
  function AlphaOf(word: int, k: nat): byte
  {
    WideAlpha(Nibble(word, 4 * k))
  }

  /** `alphas` are the widened alphas of `word`; the quantifier is only
      instantiated where a texel's alpha is named. */
  ghost predicate AlphasOf(alphas: seq<byte>, word: int)
  {
    |alphas| == TEXELS && forall k: nat {:trigger AlphaOf(word, k)} :: k < TEXELS ==> alphas[k] == AlphaOf(word, k)
  }

  /** The texture `decode` walks. */
  function BlocksOf(f: Format, data: seq<byte>, offset: (nat, nat) -> nat, across: nat): Blocks
  {
    Blocks(f, data, offset, across, (offs: nat) => DecodedTile(f, data, offs), (offs: nat) => Alphas(WordOf(f, data, offs)))
  }

  /** One pass of the inner loop: texel `k` of the decoded tile copied to its
      place; BC2 copies three colour bytes and then sets the alpha byte. */
  function WriteTexel(f: Format, tile: seq<byte>, alphas: seq<byte>, across: nat, x: nat, y: nat, k: nat, p: seq<byte>): Result<seq<byte>>
    requires |tile| == 64 && |alphas| == TEXELS && k < TEXELS
  {
    var out := Place(across, x, y, k);
    if f == Bc1 then Ok(SliceSet(p, out, 4, tile[4 * k..4 * k + 4]))
    else ItemSet(SliceSet(p, out, 3, tile[4 * k..4 * k + 3]), out + 3, alphas[k])
  }

  /** The buffer after the first `k` texels of tile `(x, y)`. */
  function TexelsDone(f: Format, tile: seq<byte>, alphas: seq<byte>, across: nat, x: nat, y: nat, p: seq<byte>, k: nat): Result<seq<byte>>
    requires |tile| == 64 && |alphas| == TEXELS && k <= TEXELS
  {
    if k == 0 then Ok(p)
    else match TexelsDone(f, tile, alphas, across, x, y, p, k - 1)
      case Err(e) => Err(e)
      case Ok(q) => WriteTexel(f, tile, alphas, across, x, y, k - 1, q)
  }

  /** One pass of the `x` loop: decode the tile at the swizzled offset (a
      `struct.error` when fewer than 8 bytes are left there) and copy it. */
  function TileDone(b: Blocks, x: nat, y: nat, p: seq<byte>): Result<seq<byte>>
  {
    var offs := b.offset(x, y);
    if offs + 8 > |b.data| then Err(StructError)
    else TexelsDone(b.format, b.tile(offs), b.alphas(offs), b.across, x, y, p, TEXELS)
  }

  /** The buffer after every tile of the rows before `y` and the first `x`
      tiles of row `y`. */
  function Painted(b: Blocks, init: seq<byte>, y: nat, x: nat): Result<seq<byte>>
    requires x <= b.across
    decreases y, x
  {
    if x == 0 then (if y == 0 then Ok(init) else Painted(b, init, y - 1, b.across))
    else match Painted(b, init, y, x - 1)
      case Err(e) => Err(e)
      case Ok(p) => TileDone(b, x - 1, y, p)
  }

  /** What `decode` returns for a `width` x `height` texture with `depth` bits
      a pixel (the depth it also returns is left out). */
  function Image(f: Format, data: seq<byte>, offset: (nat, nat) -> nat, width: nat, height: nat, depth: nat): Result<seq<byte>>
  {
    var across := Tiles(width);
    var down := Tiles(height);
    Painted(BlocksOf(f, data, offset, across), Zeros(BufferSize(f, across * down, depth)), down, 0)
  }

  // ---------------------------------------------------------------------------
  // Where the texels go

  /** `4k + r` splits back into `k` and `r`. */
  lemma QuotRem(k: nat, q: nat, r: nat, m: nat)
    requires 0 <= r < m && k == m * q + r
    ensures k / m == q && k % m == r
  {
    ModUnique(k, m, q, r);
  }

  /** The pixel a texel lands on, as a column and a row of the image. */
  lemma PlacePixel(across: nat, x: nat, y: nat, k: nat)
    requires x < across && k < TEXELS
    ensures var col := 4 * x + k % 4;
            var row := 4 * y + k / 4;
            col < 4 * across && Place(across, x, y, k) == 4 * (col + row * (4 * across))
  {
  }

  /** Distinct pixels of a row-major image of width `w` have distinct indices. */
  lemma PixelApart(w: nat, col: nat, row: nat, col': nat, row': nat)
    requires col < w && col' < w && (col != col' || row != row')
    ensures col + row * w != col' + row' * w
  {
    if col + row * w == col' + row' * w {
      QuotRem(col + row * w, row, col, w);
      QuotRem(col' + row' * w, row', col', w);
    }
  }

  /** A tile coordinate and a texel coordinate inside it give distinct pixel
      coordinates. */
  lemma CoordApart(x: nat, t: nat, x': nat, t': nat)
    requires t < 4 && t' < 4 && (x != x' || t != t')
    ensures 4 * x + t != 4 * x' + t'
  {
  }

  /** Texel `k` sits at column `k % 4` and row `k / 4` of its tile, and those
      two name it. */
  lemma TexelCoord(k: nat, k': nat)
    requires k < TEXELS && k' < TEXELS && k != k'
    ensures k % 4 != k' % 4 || k / 4 != k' / 4
  {
  }

  /** Different texels of different tiles never share a byte. */
  lemma PlaceApart(across: nat, x: nat, y: nat, k: nat, x': nat, y': nat, k': nat)
    requires x < across && x' < across && k < TEXELS && k' < TEXELS
    requires x != x' || y != y' || k != k'
    ensures Place(across, x, y, k) + 4 <= Place(across, x', y', k') || Place(across, x', y', k') + 4 <= Place(across, x, y, k)
  {
    PlacePixel(across, x, y, k);
    PlacePixel(across, x', y', k');
    if k != k' {
      TexelCoord(k, k');
    }
    var col, row := 4 * x + k % 4, 4 * y + k / 4;
    var col', row' := 4 * x' + k' % 4, 4 * y' + k' / 4;
    assert col != col' || row != row' by {
      if x != x' || k % 4 != k' % 4 {
        CoordApart(x, k % 4, x', k' % 4);
      } else {
        CoordApart(y, k / 4, y', k' / 4);
      }
    }
    PixelApart(4 * across, col, row, col', row');
  }

  /** Every texel of the `across` x `down` tiles lies inside `64 * across * down` bytes. */
  lemma PlaceFits(across: nat, down: nat, x: nat, y: nat, k: nat)
    requires x < across && y < down && k < TEXELS
    ensures Place(across, x, y, k) + 4 <= 64 * (across * down)
  {
    PlacePixel(across, x, y, k);
    var col, row := 4 * x + k % 4, 4 * y + k / 4;
    GridFits(col, row, 4 * across, 4 * down);
    assert (4 * across) * (4 * down) == 16 * (across * down);
  }

  /** A cell of a `w` x `h` row-major grid lies inside it. */
  lemma GridFits(col: nat, row: nat, w: nat, h: nat)
    requires col < w && row < h
    ensures col + row * w < w * h
  {
    MulMono(row + 1, h, w);
  }

  /** Every pixel `(col, row)` of the image is the place of exactly the texel
      this names: texel `4 * (row % 4) + col % 4` of tile `(col / 4, row / 4)`. */
  lemma PlaceCovers(across: nat, down: nat, col: nat, row: nat)
    requires col < 4 * across && row < 4 * down
    ensures var x, y, k := col / 4, row / 4, 4 * (row % 4) + col % 4;
            x < across && y < down && k < TEXELS
            && Place(across, x, y, k) == 4 * (col + row * (4 * across))
  {
    var x, y, k := col / 4, row / 4, 4 * (row % 4) + col % 4;
    QuotRem(k, row % 4, col % 4, 4);
    PlacePixel(across, x, y, k);
  }

  // ---------------------------------------------------------------------------
  // Writing one texel in place

  /** The four bytes texel `k` of a decoded tile becomes: its RGBA bytes for
      BC1; its RGB bytes and the widened 4-bit alpha for BC2. */
  function Texel(f: Format, tile: seq<byte>, alphas: seq<byte>, k: nat): (t: seq<byte>)
    requires |tile| == 64 && |alphas| == TEXELS && k < TEXELS
    ensures |t| == 4
  {
    if f == Bc1 then tile[4 * k..4 * k + 4]
    else tile[4 * k..4 * k + 3] + [alphas[k]]
  }

  /** `p` with the four bytes at `out` replaced. */
  function Splice(p: seq<byte>, out: nat, t: seq<byte>): seq<byte>
    requires out + 4 <= |p| && |t| == 4
  {
    p[..out] + t + p[out + 4..]
  }

  /** Inside the buffer, writing a texel splices its four bytes in. */
  lemma WriteInPlace(f: Format, tile: seq<byte>, alphas: seq<byte>, across: nat, x: nat, y: nat, k: nat, p: seq<byte>)
    requires |tile| == 64 && |alphas| == TEXELS && k < TEXELS && Place(across, x, y, k) + 4 <= |p|
    ensures WriteTexel(f, tile, alphas, across, x, y, k, p) == Ok(Splice(p, Place(across, x, y, k), Texel(f, tile, alphas, k)))
  {
    var out := Place(across, x, y, k);
    if f != Bc1 {
      var q := SliceSet(p, out, 3, tile[4 * k..4 * k + 3]);
      assert q == p[..out] + tile[4 * k..4 * k + 3] + p[out + 3..];
      assert q[out + 3 := alphas[k]] == Splice(p, out, Texel(f, tile, alphas, k));
    }
  }

  /** A splice keeps the length, puts its bytes at `out` and leaves every
      four-byte window apart from it alone. */
  lemma SpliceWindows(p: seq<byte>, out: nat, t: seq<byte>, a: nat)
    requires out + 4 <= |p| && |t| == 4 && a + 4 <= |p|
    requires a + 4 <= out || out + 4 <= a || a == out
    ensures |Splice(p, out, t)| == |p|
    ensures Splice(p, out, t)[a..a + 4] == if a == out then t else p[a..a + 4]
  {
  }

  // ---------------------------------------------------------------------------
  // Which texels are in place

  /** Every tile lies inside the data at its swizzled offset. */
  ghost predicate AllFit(b: Blocks, down: nat)
  {
    forall x: nat, y: nat :: x < b.across && y < down ==> b.offset(x, y) + 8 <= |b.data|
  }

  /** Texel `k` of tile `(x, y)` sits in `p` at its place. */
  ghost predicate Holds(b: Blocks, p: seq<byte>, x: nat, y: nat, k: nat)
  {
    var offs := b.offset(x, y);
    offs + 8 <= |b.data| && k < TEXELS && Place(b.across, x, y, k) + 4 <= |p|
    && p[Place(b.across, x, y, k)..Place(b.across, x, y, k) + 4]
       == Texel(b.format, b.tile(offs), b.alphas(offs), k)
  }

  /** Texel `k'` of tile `(x', y')` comes before texel `k` of tile `(x, y)`. */
  predicate Before(across: nat, x': nat, y': nat, k': nat, x: nat, y: nat, k: nat)
  {
    x' < across && k' < TEXELS && (y' < y || (y' == y && (x' < x || (x' == x && k' < k))))
  }

  /** Every texel before texel `k` of tile `(x, y)` is in place in `p`. */
  ghost predicate InPlace(b: Blocks, p: seq<byte>, x: nat, y: nat, k: nat)
  {
    forall x': nat, y': nat, k': nat :: Before(b.across, x', y', k', x, y, k) ==> Holds(b, p, x', y', k')
  }

  /** Splicing texel `k` in at its place extends what is in place by one texel. */
  lemma SpliceStep(b: Blocks, down: nat, p: seq<byte>, x: nat, y: nat, k: nat)
    requires x < b.across && y < down && k < TEXELS && AllFit(b, down)
    requires |p| == 64 * (b.across * down) && InPlace(b, p, x, y, k) && Place(b.across, x, y, k) + 4 <= |p|
    ensures var offs := b.offset(x, y);
            InPlace(b, Splice(p, Place(b.across, x, y, k), Texel(b.format, b.tile(offs), b.alphas(offs), k)), x, y, k + 1)
  {
    var offs := b.offset(x, y);
    var out := Place(b.across, x, y, k);
    var t := Texel(b.format, b.tile(offs), b.alphas(offs), k);
    forall x': nat, y': nat, k': nat | Before(b.across, x', y', k', x, y, k + 1)
      ensures Holds(b, Splice(p, out, t), x', y', k')
    {
      if x' != x || y' != y || k' != k {
        PlaceApart(b.across, x, y, k, x', y', k');
        SpliceKeeps(b, p, out, t, x', y', k');
      } else {
        SpliceHolds(b, p, x, y, k);
      }
    }
  }

  /** Copying texels `0..k` of one tile into a buffer of the full size puts each
      where it belongs and keeps every earlier texel. */
  lemma {:induction false} TexelsContent(b: Blocks, down: nat, x: nat, y: nat, p0: seq<byte>, k: nat)
    requires x < b.across && y < down && k <= TEXELS && AllFit(b, down)
    requires |p0| == 64 * (b.across * down) && InPlace(b, p0, x, y, 0)
    ensures var offs := b.offset(x, y);
            var r := TexelsDone(b.format, b.tile(offs), b.alphas(offs), b.across, x, y, p0, k);
            r.Ok? && |r.value| == |p0| && InPlace(b, r.value, x, y, k)
  {
    if k > 0 {
      var offs := b.offset(x, y);
      TexelsContent(b, down, x, y, p0, k - 1);
      var p := TexelsDone(b.format, b.tile(offs), b.alphas(offs), b.across, x, y, p0, k - 1).value;
      PlaceFits(b.across, down, x, y, k - 1);
      WriteInPlace(b.format, b.tile(offs), b.alphas(offs), b.across, x, y, k - 1, p);
      SpliceStep(b, down, p, x, y, k - 1);
    }
  }

  /** Splicing a texel in leaves a texel elsewhere in place. */
  lemma SpliceKeeps(b: Blocks, p: seq<byte>, out: nat, t: seq<byte>, x: nat, y: nat, k: nat)
    requires out + 4 <= |p| && |t| == 4 && Holds(b, p, x, y, k)
    requires Place(b.across, x, y, k) + 4 <= out || out + 4 <= Place(b.across, x, y, k)
    ensures Holds(b, Splice(p, out, t), x, y, k)
  {
    SpliceWindows(p, out, t, Place(b.across, x, y, k));
  }

  /** Splicing a texel in at its place puts it in place. */
  lemma SpliceHolds(b: Blocks, p: seq<byte>, x: nat, y: nat, k: nat)
    requires b.offset(x, y) + 8 <= |b.data| && k < TEXELS && Place(b.across, x, y, k) + 4 <= |p|
    ensures var offs := b.offset(x, y);
            Holds(b, Splice(p, Place(b.across, x, y, k), Texel(b.format, b.tile(offs), b.alphas(offs), k)), x, y, k)
  {
    var out := Place(b.across, x, y, k);
    var offs := b.offset(x, y);
    SpliceWindows(p, out, Texel(b.format, b.tile(offs), b.alphas(offs), k), out);
  }

  /** Painting the tiles before `(x, y)` into a buffer of the full size puts
      every texel of them where it belongs. */
  lemma {:induction false} PaintedContent(b: Blocks, down: nat, init: seq<byte>, y: nat, x: nat)
    requires x <= b.across && (y < down || (y == down && x == 0)) && AllFit(b, down)
    requires |init| == 64 * (b.across * down)
    ensures var r := Painted(b, init, y, x);
            r.Ok? && |r.value| == |init| && InPlace(b, r.value, x, y, 0)
    decreases y, x
  {
    if x == 0 {
      if y > 0 {
        PaintedContent(b, down, init, y - 1, b.across);
        NextRow(b, Painted(b, init, y - 1, b.across).value, y - 1);
      }
    } else {
      PaintedContent(b, down, init, y, x - 1);
      var p := Painted(b, init, y, x - 1).value;
      TexelsContent(b, down, x - 1, y, p, TEXELS);
      NextTile(b, TileDone(b, x - 1, y, p).value, x - 1, y);
    }
  }

  /** All texels of tile `x` in place is tile `x + 1` ready. */
  lemma NextTile(b: Blocks, p: seq<byte>, x: nat, y: nat)
    requires InPlace(b, p, x, y, TEXELS)
    ensures InPlace(b, p, x + 1, y, 0)
  {
  }

  /** A whole row in place is the next row ready. */
  lemma NextRow(b: Blocks, p: seq<byte>, y: nat)
    requires InPlace(b, p, b.across, y, 0)
    ensures InPlace(b, p, 0, y + 1, 0)
  {
  }

  /** With a buffer of four bytes a texel and every tile inside the data,
      `decode` succeeds, returns exactly the buffer's size and puts texel `k` of
      tile `(x, y)` at its place: for BC1 the tile's RGBA bytes, for BC2 its
      RGB bytes and the widened alpha of nibble `k` of the alpha word. */
  lemma ImageContent(f: Format, data: seq<byte>, offset: (nat, nat) -> nat, width: nat, height: nat, depth: nat)
    requires f != Bc2(AsWritten)
    requires forall x: nat, y: nat :: x < Tiles(width) && y < Tiles(height) ==> offset(x, y) + 8 <= |data|
    ensures var across, down := Tiles(width), Tiles(height);
            var r := Image(f, data, offset, width, height, depth);
            r.Ok? && |r.value| == 64 * (across * down)
            && forall x: nat, y: nat, k: nat :: x < across && 0 <= y < down && 0 <= k < TEXELS ==>
                 Place(across, x, y, k) + 4 <= |r.value|
                 && r.value[Place(across, x, y, k)..Place(across, x, y, k) + 4]
                    == Texel(f, Tile(RedHigh, RampOf(f), data, offset(x, y)).value, Alphas(WordOf(f, data, offset(x, y))), k)
  {
    var across, down := Tiles(width), Tiles(height);
    var b := BlocksOf(f, data, offset, across);
    var init := Zeros(BufferSize(f, across * down, depth));
    assert AllFit(b, down);
    PaintedContent(b, down, init, down, 0);
    var p := Painted(b, init, down, 0).value;
    forall x: nat, y: nat, k: nat | x < across && 0 <= y < down && 0 <= k < TEXELS
      ensures Place(across, x, y, k) + 4 <= |p|
              && p[Place(across, x, y, k)..Place(across, x, y, k) + 4]
                 == Texel(f, Tile(RedHigh, RampOf(f), data, offset(x, y)).value, Alphas(WordOf(f, data, offset(x, y))), k)
    {
      assert Before(across, x, y, k, 0, down, 0);
      assert Holds(b, p, x, y, k);
      assert b.tile(offset(x, y)) == Tile(RedHigh, RampOf(f), data, offset(x, y)).value;
      assert b.alphas(offset(x, y)) == Alphas(WordOf(f, data, offset(x, y)));
    }
  }

  // ---------------------------------------------------------------------------
  // Errors

  /** Once a texel fails, the rest of the tile leaves the failure as it is. */
  lemma {:induction false} TexelsErrStays(f: Format, tile: seq<byte>, alphas: seq<byte>, across: nat, x: nat, y: nat, p: seq<byte>, k: nat, k': nat)
    requires |tile| == 64 && |alphas| == TEXELS && k <= k' <= TEXELS
    requires TexelsDone(f, tile, alphas, across, x, y, p, k).Err?
    ensures TexelsDone(f, tile, alphas, across, x, y, p, k') == TexelsDone(f, tile, alphas, across, x, y, p, k)
    decreases k'
  {
    if k' > k {
      TexelsErrStays(f, tile, alphas, across, x, y, p, k, k' - 1);
    }
  }

  /** Once a tile fails, every later tile leaves the failure as it is. */
  lemma {:induction false} PaintedErrStays(b: Blocks, init: seq<byte>, y: nat, x: nat, y': nat, x': nat)
    requires x <= b.across && x' <= b.across && (y < y' || (y == y' && x <= x'))
    requires Painted(b, init, y, x).Err?
    ensures Painted(b, init, y', x') == Painted(b, init, y, x)
    decreases y', x'
  {
    if y != y' || x != x' {
      if x' == 0 {
        PaintedErrStays(b, init, y, x, y' - 1, b.across);
      } else {
        PaintedErrStays(b, init, y, x, y', x' - 1);
      }
    }
  }

  /** A successful paint up to `(x, y)` read every tile before it from inside
      the data. */
  lemma {:induction false} PaintedNeedsTiles(b: Blocks, init: seq<byte>, y: nat, x: nat)
    requires x <= b.across && Painted(b, init, y, x).Ok?
    ensures forall x': nat, y': nat :: x' < b.across && (y' < y || (y' == y && x' < x)) ==> b.offset(x', y') + 8 <= |b.data|
    decreases y, x
  {
    if x == 0 {
      if y > 0 {
        PaintedNeedsTiles(b, init, y - 1, b.across);
      }
    } else {
      PaintedNeedsTiles(b, init, y, x - 1);
    }
  }

  /** `decode` succeeds only when every tile lies inside the data; otherwise the
      `struct.error` of the first tile that does not propagates. */
  lemma ImageNeedsTiles(f: Format, data: seq<byte>, offset: (nat, nat) -> nat, width: nat, height: nat, depth: nat)
    requires Image(f, data, offset, width, height, depth).Ok?
    ensures forall x: nat, y: nat :: x < Tiles(width) && y < Tiles(height) ==> offset(x, y) + 8 <= |data|
  {
    var across, down := Tiles(width), Tiles(height);
    PaintedNeedsTiles(BlocksOf(f, data, offset, across), Zeros(BufferSize(f, across * down, depth)), down, 0);
  }

  /** In a one-tile-wide image the texels of the first row lie four bytes apart. */
  lemma FirstRowPlace(k: nat)
    requires k < 4
    ensures Place(1, 0, 0, k) == 4 * k
  {
  }

  /** In a four-byte buffer the first BC2 texel of a one-tile-wide image fits
      and leaves the buffer four bytes long. */
  lemma FirstTexelFits(mode: Mode, tile: seq<byte>, alphas: seq<byte>, p: seq<byte>)
    requires |tile| == 64 && |alphas| == TEXELS && |p| == 4
    ensures var r := WriteTexel(Bc2(mode), tile, alphas, 1, 0, 0, 0, p);
            r.Ok? && |r.value| == 4
  {
    TexelInside(Bc2(mode), tile, alphas, 1, 0, 0, 0, p);
  }

  /** A texel whose four bytes lie inside the buffer is written in place,
      keeping the buffer's length. */
  lemma TexelInside(f: Format, tile: seq<byte>, alphas: seq<byte>, across: nat, x: nat, y: nat, k: nat, p: seq<byte>)
    requires |tile| == 64 && |alphas| == TEXELS && k < TEXELS
    requires Place(across, x, y, k) + 4 <= |p|
    ensures var r := WriteTexel(f, tile, alphas, across, x, y, k, p);
            r.Ok? && |r.value| == |p|
  {
    var out := Place(across, x, y, k);
    if f == Bc1 {
      SliceSetClamps(p, out, 4, tile[4 * k..4 * k + 4]);
    } else {
      SliceSetClamps(p, out, 3, tile[4 * k..4 * k + 3]);
      ItemSetInside(SliceSet(p, out, 3, tile[4 * k..4 * k + 3]), out + 3, alphas[k]);
    }
  }

  /** In a four-byte buffer the second BC2 texel, at byte 4, does not fit: its
      colour slice is appended and its alpha index is past the end. */
  lemma SecondTexelOverflows(mode: Mode, tile: seq<byte>, alphas: seq<byte>, p: seq<byte>)
    requires |tile| == 64 && |alphas| == TEXELS && |p| == 4
    ensures var r := WriteTexel(Bc2(mode), tile, alphas, 1, 0, 0, 1, p);
            r.Err? && r.error == IndexError
  {
    var second := SliceSet(p, 4, 3, tile[4..7]);
    assert WriteTexel(Bc2(mode), tile, alphas, 1, 0, 0, 1, p) == ItemSet(second, 7, alphas[1]) by {
      FirstRowPlace(1);
    }
    assert |second| == 7 by {
      SliceSetClamps(p, 4, 3, tile[4..7]);
    }
  }

  /** As written, BC2 allocates `depth >> 3` bytes a tile, 4 for a 32-bit
      texture, where its texels need 64: the second texel's colour slice is
      appended past the end, and setting its alpha raises `IndexError`. */
  lemma Bc2BufferTooSmall(data: seq<byte>, offset: (nat, nat) -> nat, width: nat, height: nat)
    requires 1 <= width <= 4 && 1 <= height <= 4 && offset(0, 0) + 8 <= |data|
    ensures Image(Bc2(AsWritten), data, offset, width, height, 32) == Err(IndexError)
  {
    var f := Bc2(AsWritten);
    var b := BlocksOf(f, data, offset, 1);
    var init := Zeros(4);
    var offs := offset(0, 0);
    var tile := Tile(RedHigh, Thirds, data, offs).value;
    var alphas := Alphas(WordOf(f, data, offs));
    FirstTexelFits(AsWritten, tile, alphas, init);
    TexelsNext(f, tile, alphas, 1, 0, 0, init, 0, init);
    var q := WriteTexel(f, tile, alphas, 1, 0, 0, 0, init).value;
    SecondTexelOverflows(AsWritten, tile, alphas, q);
    TexelsNext(f, tile, alphas, 1, 0, 0, init, 1, q);
    TexelsErrStays(f, tile, alphas, 1, 0, 0, init, 2, TEXELS);
    BlocksOfDescribes(f, data, offset, 1);
    TileDoneIs(b, f, data, offset, 1, 0, 0, init);
    PaintedNext(b, init, 0, 0, init);
    PaintedErrStays(b, init, 0, 1, 1, 0);
    assert Tiles(width) == 1 && Tiles(height) == 1 && BufferSize(f, 1 * 1, 32) == 4;
  }

  // ---------------------------------------------------------------------------
  // The loops

  /** The body of the `tx` loop: texel `(tx, ty)` of the decoded tile, at
      `toffs`, copied to its place in `pixels`. */
  method PutTexel(f: Format, tile: seq<byte>, word: int, ghost alphas: seq<byte>, across: nat, x: nat, y: nat, tx: nat, ty: nat, toffs: nat, pixels: seq<byte>)
    returns (r: Result<seq<byte>>)
    requires |tile| == 64 && AlphasOf(alphas, word) && tx < 4 && ty < 4 && toffs == 4 * (4 * ty + tx)
    ensures r == WriteTexel(f, tile, alphas, across, x, y, 4 * ty + tx, pixels)
  {
    QuotRem(4 * ty + tx, ty, tx, 4);
    var out := (x * 4 + tx + (y * 4 + ty) * across * 4) * 4;
    assert out == Place(across, x, y, 4 * ty + tx);
    if f == Bc1 {
      r := Ok(SliceSet(pixels, out, 4, tile[toffs..toffs + 4]));
    } else {
      var alpha := Nibble(word, ty * 16 + tx * 4);
      assert WideAlpha(alpha) == AlphaOf(word, 4 * ty + tx);
      var colour := SliceSet(pixels, out, 3, tile[toffs..toffs + 3]);
      ghost var expected := WriteTexel(f, tile, alphas, across, x, y, 4 * ty + tx, pixels);
      assert expected == ItemSet(colour, out + 3, alphas[4 * ty + tx]);
      if out + 3 >= |colour| {
        return Err(IndexError);
      }
      r := Ok(colour[out + 3 := WideAlpha(alpha)]);
    }
  }

  /** One more texel of the tile is that texel written over the ones before. */
  lemma TexelsNext(f: Format, tile: seq<byte>, alphas: seq<byte>, across: nat, x: nat, y: nat, p0: seq<byte>, k: nat, p: seq<byte>)
    requires |tile| == 64 && |alphas| == TEXELS && k < TEXELS && TexelsDone(f, tile, alphas, across, x, y, p0, k).Ok? && TexelsDone(f, tile, alphas, across, x, y, p0, k).value == p
    ensures TexelsDone(f, tile, alphas, across, x, y, p0, k + 1) == WriteTexel(f, tile, alphas, across, x, y, k, p)
  {
  }

  /** A texel that fails fails the whole tile. */
  lemma TexelsFail(f: Format, tile: seq<byte>, alphas: seq<byte>, across: nat, x: nat, y: nat, p0: seq<byte>, k: nat, p: seq<byte>)
    requires |tile| == 64 && |alphas| == TEXELS && k < TEXELS && TexelsDone(f, tile, alphas, across, x, y, p0, k).Ok? && TexelsDone(f, tile, alphas, across, x, y, p0, k).value == p
    requires WriteTexel(f, tile, alphas, across, x, y, k, p).Err?
    ensures TexelsDone(f, tile, alphas, across, x, y, p0, TEXELS) == WriteTexel(f, tile, alphas, across, x, y, k, p)
  {
    TexelsNext(f, tile, alphas, across, x, y, p0, k, p);
    TexelsErrStays(f, tile, alphas, across, x, y, p0, k + 1, TEXELS);
  }

  /** The `tx` loop of `decode` for texel row `ty` of one decoded tile, with
      the running `toffs` position in the tile. */
  method PaintTexelRow(f: Format, tile: seq<byte>, word: int, ghost alphas: seq<byte>, across: nat, x: nat, y: nat, ty: nat, ghost p0: seq<byte>, pixels: seq<byte>)
    returns (r: Result<seq<byte>>)
    requires |tile| == 64 && AlphasOf(alphas, word) && ty < 4
    requires TexelsDone(f, tile, alphas, across, x, y, p0, 4 * ty).Ok? && TexelsDone(f, tile, alphas, across, x, y, p0, 4 * ty).value == pixels
    ensures r.Ok? ==> TexelsDone(f, tile, alphas, across, x, y, p0, 4 * ty + 4) == r
    ensures r.Err? ==> TexelsDone(f, tile, alphas, across, x, y, p0, TEXELS) == r
  {
    var current := pixels;
    var toffs := 16 * ty;
    var tx := 0;
    while tx < 4
      invariant 0 <= tx <= 4 && toffs == 4 * (4 * ty + tx)
      invariant TexelsDone(f, tile, alphas, across, x, y, p0, 4 * ty + tx).Ok? && TexelsDone(f, tile, alphas, across, x, y, p0, 4 * ty + tx).value == current
    {
      ghost var k := 4 * ty + tx;
      var written := PutTexel(f, tile, word, alphas, across, x, y, tx, ty, toffs, current);
      if written.Err? {
        TexelsFail(f, tile, alphas, across, x, y, p0, k, current);
        return written;
      }
      TexelsNext(f, tile, alphas, across, x, y, p0, k, current);
      current := written.value;
      toffs := toffs + 4;
      tx := tx + 1;
    }
    r := Ok(current);
  }

  /** The `ty`/`tx` loops of `decode` for one decoded tile. */
  method PaintTile(f: Format, tile: seq<byte>, word: int, ghost alphas: seq<byte>, across: nat, x: nat, y: nat, p0: seq<byte>) returns (r: Result<seq<byte>>)
    requires |tile| == 64 && AlphasOf(alphas, word)
    ensures r == TexelsDone(f, tile, alphas, across, x, y, p0, TEXELS)
  {
    var pixels := p0;
    var ty := 0;
    while ty < 4
      invariant 0 <= ty <= 4
      invariant TexelsDone(f, tile, alphas, across, x, y, p0, 4 * ty).Ok? && TexelsDone(f, tile, alphas, across, x, y, p0, 4 * ty).value == pixels
    {
      var row := PaintTexelRow(f, tile, word, alphas, across, x, y, ty, p0, pixels);
      if row.Err? {
        return row;
      }
      pixels := row.value;
      ty := ty + 1;
    }
    r := Ok(pixels);
  }

  /** `b` is the texture `decode` walks over `data`: the tile and alphas at an
      offset are the ones decoded there. The quantifier is only instantiated
      where a decoded tile is named, so the loops below reason about `b`
      without unfolding the decoder. */
  ghost predicate Describes(b: Blocks, f: Format, data: seq<byte>, offset: (nat, nat) -> nat, across: nat)
  {
    b.format == f && b.data == data && b.offset == offset && b.across == across
    && forall offs: nat {:trigger DecodedTile(f, data, offs)} ::
         b.tile(offs) == DecodedTile(f, data, offs) && b.alphas(offs) == Alphas(WordOf(f, data, offs))
  }

  /** The texture of `Image` is described by its data. */
  lemma BlocksOfDescribes(f: Format, data: seq<byte>, offset: (nat, nat) -> nat, across: nat)
    ensures Describes(BlocksOf(f, data, offset, across), f, data, offset, across)
  {
  }

  /** A described texture that paints like the one of `Image`. */
  lemma DescribedBlocks(f: Format, data: seq<byte>, offset: (nat, nat) -> nat, across: nat, init: seq<byte>, down: nat)
    returns (b: Blocks)
    ensures Describes(b, f, data, offset, across)
    ensures Painted(b, init, down, 0) == Painted(BlocksOf(f, data, offset, across), init, down, 0)
  {
    b := BlocksOf(f, data, offset, across);
    BlocksOfDescribes(f, data, offset, across);
  }

  /** One tile of a described texture: a `struct.error` outside the data,
      otherwise its 16 texels. */
  lemma TileDoneIs(b: Blocks, f: Format, data: seq<byte>, offset: (nat, nat) -> nat, across: nat, x: nat, y: nat, p: seq<byte>)
    requires Describes(b, f, data, offset, across)
    ensures var offs := offset(x, y);
            TileDone(b, x, y, p)
              == if offs + 8 > |data| then Err(StructError)
                 else TexelsDone(f, Tile(RedHigh, RampOf(f), data, offs).value, Alphas(WordOf(f, data, offs)), across, x, y, p, TEXELS)
  {
    var offs := offset(x, y);
    assert b.tile(offs) == DecodedTile(f, data, offs);
  }

  /** One more tile is that tile painted over the ones before. */
  lemma PaintedNext(b: Blocks, init: seq<byte>, y: nat, x: nat, p: seq<byte>)
    requires x < b.across && Painted(b, init, y, x) == Ok(p)
    ensures Painted(b, init, y, x + 1) == TileDone(b, x, y, p)
  {
  }

  /** The body of the `x` loop: decode the tile at the swizzled offset, read
      BC2's alpha word there, and copy the tile's texels into `pixels`. */
  method PaintAt(f: Format, data: seq<byte>, offset: (nat, nat) -> nat, across: nat, x: nat, y: nat, ghost b: Blocks, pixels: seq<byte>)
    returns (painted: Result<seq<byte>>)
    requires Describes(b, f, data, offset, across)
    ensures painted == TileDone(b, x, y, pixels)
  {
    var offs := offset(x, y);
    var tile := DecodeTile(RedHigh, RampOf(f), data, offs);
    TileDoneIs(b, f, data, offset, across, x, y, pixels);
    if tile.Err? {
      return Err(tile.error);
    }
    var word := 0;
    if f.Bc2? {
      word := AlphaWord(f.mode, data, offs);
    }
    assert word == WordOf(f, data, offs);
    painted := PaintTile(f, tile.value, word, Alphas(word), across, x, y, pixels);
  }

  /** The `x` loop of `decode` for row `y` of tiles: every tile of the row
      painted over `pixels`, stopping at the first that fails. */
  method PaintRow(f: Format, data: seq<byte>, offset: (nat, nat) -> nat, across: nat, y: nat, ghost b: Blocks, ghost init: seq<byte>, pixels: seq<byte>)
    returns (r: Result<seq<byte>>)
    requires Describes(b, f, data, offset, across) && Painted(b, init, y, 0) == Ok(pixels)
    ensures r == Painted(b, init, y, across)
  {
    var current := pixels;
    var x := 0;
    while x < across
      invariant 0 <= x <= across && Painted(b, init, y, x) == Ok(current)
    {
      var painted := PaintNext(f, data, offset, across, x, y, b, init, current);
      if painted.Err? {
        return painted;
      }
      current := painted.value;
      x := x + 1;
    }
    r := Ok(current);
  }

  /** One pass of the `x` loop: tile `x` painted over the tiles before it; a
      failure is the failure of the whole row. */
  method PaintNext(f: Format, data: seq<byte>, offset: (nat, nat) -> nat, across: nat, x: nat, y: nat, ghost b: Blocks, ghost init: seq<byte>, current: seq<byte>)
    returns (painted: Result<seq<byte>>)
    requires Describes(b, f, data, offset, across) && x < across && Painted(b, init, y, x) == Ok(current)
    ensures painted.Ok? ==> Painted(b, init, y, x + 1) == painted
    ensures painted.Err? ==> Painted(b, init, y, across) == painted
  {
    painted := PaintAt(f, data, offset, across, x, y, b, current);
    PaintedNext(b, init, y, x, current);
    if painted.Err? {
      PaintedErrStays(b, init, y, x + 1, y, across);
    }
  }

  /** `BC1.decode` / `BC2.decode`: the `y`/`x` loops over the tiles. */
  method Decode(f: Format, data: seq<byte>, offset: (nat, nat) -> nat, width: nat, height: nat, depth: nat) returns (r: Result<seq<byte>>)
    ensures r == Image(f, data, offset, width, height, depth)
  {
    var across := Tiles(width);
    var down := Tiles(height);
    var pixels := Zeros(BufferSize(f, across * down, depth));
    ghost var init := pixels;
    ghost var b := DescribedBlocks(f, data, offset, across, init, down);
    var y := 0;
    while y < down
      invariant 0 <= y <= down && Painted(b, init, y, 0) == Ok(pixels)
    {
      var row := PaintRow(f, data, offset, across, y, b, init, pixels);
      if row.Err? {
        PaintedErrStays(b, init, y, across, down, 0);
        return row;
      }
      assert Painted(b, init, y + 1, 0) == Ok(row.value);
      pixels := row.value;
      y := y + 1;
    }
    r := Ok(pixels);
  }
}
