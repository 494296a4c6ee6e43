/** Block-compressed (BCn) texture decoding from the BNTX pixel formats: RGB565
    endpoint colours, the four-entry colour palette, the 2-bit texel indices,
    BC2's 4-bit alphas, the 8-entry alpha ramp and the placement of a 4x4 tile's
    texels in the row-major RGBA output.

    Two source files define the same helpers: `pixelfmt/bc.py` (used by BC1 and
    BC2) puts red in the high five bits of an RGB565 word, `pixelfmt/bc/base.py`
    puts it in the low five bits; `Layout` selects between them. The tile offset
    of the swizzle (`tex.swizzle.getOffset`) is supplied as a function. */
module Bcn {
  import opened Bytes
  import opened Wrappers

  /** Where red sits in an RGB565 word: the high bits (`pixelfmt/bc.py`) or the
      low bits (`pixelfmt/bc/base.py`). */
  datatype Layout = RedHigh | RedLow

  /** Which `calcCLUT2`/`calcCLUT3` pair builds palette entries 2 and 3: the base
      `BCn` one (two thirds of the way for both) or `BC1`'s override. */
  datatype Ramp = Thirds | Bc1Ramp

  /** The code as written, or with the defects that `AlphaRampAsWritten` and
      `Bc2AlphaAsWritten` exhibit corrected. */
  datatype Mode = AsWritten | Corrected

  /** A palette entry, the 4-tuple of ints the Python code builds. */
  datatype Color = Color(r: nat, g: nat, b: nat, a: nat)

  /** Every channel fits in a byte, so a bytearray accepts the tuple. */
  predicate IsPixel(c: Color)
  {
    c.r < 0x100 && c.g < 0x100 && c.b < 0x100 && c.a < 0x100
  }

  function Min(x: nat, y: nat): nat { if x <= y then x else y }
  function Max(x: nat, y: nat): nat { if x <= y then y else x }

  /** `unpackRGB565(pixel)`: the 5-6-5 fields shifted up to 8 bits, alpha 0xFF.
      Masks `& (2^k - 1)` are written as `% 2^k`, shifts `>> k` as `/ 2^k`. */
  function Unpack565(layout: Layout, p: nat): (c: Color)
    requires p < 0x1_0000
    ensures IsPixel(c) && c.a == 0xFF
    ensures c.r % 8 == 0 && c.g % 4 == 0 && c.b % 8 == 0
  {
    var low := (p % 0x20) * 8;
    var mid := ((p / 0x20) % 0x40) * 4;
    var high := ((p / 0x800) % 0x20) * 8;
    if layout == RedHigh then Color(high, mid, low, 0xFF) else Color(low, mid, high, 0xFF)
  }

  /** The inverse of `Unpack565`: the RGB565 word a colour with zero low bits comes from. */
  function Pack565(layout: Layout, c: Color): nat
  {
    var (high, low) := if layout == RedHigh then (c.r, c.b) else (c.b, c.r);
    (high / 8) * 0x800 + (c.g / 4) * 0x20 + low / 8
  }

  /** The three RGB565 fields of a word, and the word they make up. */
  lemma Fields565(p: nat)
    requires p < 0x1_0000
    ensures p / 0x800 < 0x20 && (p / 0x800) % 0x20 == p / 0x800
    ensures p == (p / 0x800) * 0x800 + ((p / 0x20) % 0x40) * 0x20 + p % 0x20
  {
    var m := (p / 0x20) % 0x40;
    var l := p % 0x20;
    assert p == 0x20 * (p / 0x20) + l;
    assert p / 0x20 == 0x40 * ((p / 0x20) / 0x40) + m;
    ModUnique(p, 0x800, (p / 0x20) / 0x40, m * 0x20 + l);
  }

  /** Fields below their widths are read back from the word they make up. */
  lemma Join565(h: nat, m: nat, l: nat)
    requires h < 0x20 && m < 0x40 && l < 0x20
    ensures var q := h * 0x800 + m * 0x20 + l;
            q < 0x1_0000 && q % 0x20 == l && (q / 0x20) % 0x40 == m && (q / 0x800) % 0x20 == h
  {
    var q := h * 0x800 + m * 0x20 + l;
    ModUnique(q, 0x20, h * 0x40 + m, l);
    ModUnique(h * 0x40 + m, 0x40, h, m);
    ModUnique(q, 0x800, h, m * 0x20 + l);
  }

  /** Every 16-bit word unpacks to a colour that packs back to the same word, and
      every opaque colour with zero low bits is the unpacking of its packing: the
      two are inverse bijections. */
  lemma Unpack565RoundTrip(layout: Layout, p: nat, c: Color)
    requires p < 0x1_0000
    ensures Pack565(layout, Unpack565(layout, p)) == p
    ensures IsPixel(c) && c.a == 0xFF && c.r % 8 == 0 && c.g % 4 == 0 && c.b % 8 == 0 ==>
              Pack565(layout, c) < 0x1_0000 && Unpack565(layout, Pack565(layout, c)) == c
  {
    Fields565(p);
    if IsPixel(c) && c.a == 0xFF && c.r % 8 == 0 && c.g % 4 == 0 && c.b % 8 == 0 {
      if layout == RedHigh {
        Join565(c.r / 8, c.g / 4, c.b / 8);
      } else {
        Join565(c.b / 8, c.g / 4, c.r / 8);
      }
    }
  }

  /** The two source files read the same word with red and blue exchanged. */
  lemma LayoutsSwapRedBlue(p: nat)
    requires p < 0x1_0000
    ensures var h := Unpack565(RedHigh, p); var l := Unpack565(RedLow, p);
            l.r == h.b && l.b == h.r && l.g == h.g && l.a == h.a
  {
  }

  /** `int((2 * x0 + x1) / 3)`: a third of the way from `x0` to `x1`. The
      operands are small non-negative integers, so the float division truncated
      by `int` is the floor. */
  function Third(x0: nat, x1: nat): (v: nat)
    ensures Min(x0, x1) <= v <= Max(x0, x1)
  {
    (2 * x0 + x1) / 3
  }

  /** `(x0 + x1) >> 1`: the midpoint, rounded down. */
  function Half(x0: nat, x1: nat): (v: nat)
    ensures Min(x0, x1) <= v <= Max(x0, x1)
  {
    (x0 + x1) / 2
  }

  /** `calcCLUT2`: palette entry 2 from the endpoint colours and words. */
  function Clut2(ramp: Ramp, l0: Color, l1: Color, c0: nat, c1: nat): Color
  {
    if ramp == Bc1Ramp && c0 <= c1 then Color(Half(l0.r, l1.r), Half(l0.g, l1.g), Half(l0.b, l1.b), 0xFF)
    else Color(Third(l0.r, l1.r), Third(l0.g, l1.g), Third(l0.b, l1.b), 0xFF)
  }

  /** `calcCLUT3`: palette entry 3; BC1 makes it transparent black when `c0 <= c1`. */
  function Clut3(ramp: Ramp, l0: Color, l1: Color, c0: nat, c1: nat): Color
  {
    if ramp == Bc1Ramp && c0 <= c1 then Color(0, 0, 0, 0)
    else Color(Third(l0.r, l1.r), Third(l0.g, l1.g), Third(l0.b, l1.b), 0xFF)
  }

  /** The `clut` list `decodeTile` builds from the two endpoint words. */
  function Palette(layout: Layout, ramp: Ramp, c0: nat, c1: nat): (pal: seq<Color>)
    requires c0 < 0x1_0000 && c1 < 0x1_0000
    ensures |pal| == 4 && forall i :: 0 <= i < 4 ==> IsPixel(pal[i])
  {
    var l0 := Unpack565(layout, c0);
    var l1 := Unpack565(layout, c1);
    [l0, l1, Clut2(ramp, l0, l1, c0, c1), Clut3(ramp, l0, l1, c0, c1)]
  }

  /** Each channel of `m` lies between the same channel of `a` and of `b`. */
  predicate Between(m: Color, a: Color, b: Color)
  {
    Min(a.r, b.r) <= m.r <= Max(a.r, b.r) && Min(a.g, b.g) <= m.g <= Max(a.g, b.g)
    && Min(a.b, b.b) <= m.b <= Max(a.b, b.b)
  }

  /** Entries 0 and 1 are the endpoints, and every opaque interpolated entry lies
      between them. The base ramp makes entries 2 and 3 equal; BC1 does so when
      `c0 > c1` and otherwise takes the midpoint and a transparent black, so entry
      3 is transparent exactly for BC1 with `c0 <= c1`. */
  lemma PaletteInterpolates(layout: Layout, ramp: Ramp, c0: nat, c1: nat)
    requires c0 < 0x1_0000 && c1 < 0x1_0000
    ensures var pal := Palette(layout, ramp, c0, c1);
            pal[0] == Unpack565(layout, c0) && pal[1] == Unpack565(layout, c1)
            && Between(pal[2], pal[0], pal[1]) && pal[2].a == 0xFF
            && (pal[3].a == 0 <==> ramp == Bc1Ramp && c0 <= c1)
            && (pal[3].a != 0 ==> pal[3] == pal[2] && pal[3].a == 0xFF)
            && (pal[3].a == 0 ==>
                  pal[3] == Color(0, 0, 0, 0)
                  && pal[2] == Color(Half(pal[0].r, pal[1].r), Half(pal[0].g, pal[1].g), Half(pal[0].b, pal[1].b), 0xFF))
  {
  }

  /** The four bytes a bytearray slice receives from a palette entry. */
  function Rgba(c: Color): (t: seq<byte>)
    requires IsPixel(c)
    ensures |t| == 4
    ensures t[0] as nat == c.r && t[1] as nat == c.g && t[2] as nat == c.b && t[3] as nat == c.a
  {
    [ToByte(c.r), ToByte(c.g), ToByte(c.b), ToByte(c.a)]
  }

  /** The number of texels in a 4x4 tile. */
  const TEXELS: nat := 16

  /** A palette as the four 4-byte slices a tile's texels copy. */
  predicate IsClut(clut: seq<seq<byte>>)
  {
    |clut| == 4 && forall i :: 0 <= i < 4 ==> |clut[i]| == 4
  }

  /** The palette's entries as bytes. */
  function Clut(pal: seq<Color>): (clut: seq<seq<byte>>)
    requires |pal| == 4 && forall i :: 0 <= i < 4 ==> IsPixel(pal[i])
    ensures IsClut(clut) && forall i :: 0 <= i < 4 ==> clut[i] == Rgba(pal[i])
  {
    seq(4, i requires 0 <= i < 4 => Rgba(pal[i]))
  }

  /** `(idxs >> shift) & 3`: the 2-bit palette index at bit `shift`. */
  function Index(idxs: nat, shift: nat): (i: nat)
    ensures i < 4
  {
    (idxs / Pow2(shift)) % 4
  }

  /** The first `k` texels of a tile, four bytes each: texel `j` is the palette
      entry at the 2-bit index starting at bit `2j` of `idxs`. */
  function TexelsUpTo(clut: seq<seq<byte>>, idxs: nat, k: nat): (t: seq<byte>)
    requires IsClut(clut)
    ensures |t| == 4 * k
  {
    if k == 0 then [] else TexelsUpTo(clut, idxs, k - 1) + clut[Index(idxs, 2 * (k - 1))]
  }

  /** `x * m` grows with `x`. */
  lemma MulMono(x: nat, y: nat, m: nat)
    requires x <= y
    ensures x * m <= y * m
  {
    assert y * m == x * m + (y - x) * m;
  }

  /** `x % (a * b)` from the remainder by `a` and the next digit in base `b`. */
  lemma ModSplit(x: nat, a: nat, b: nat)
    requires a > 0 && b > 0
    ensures x % (a * b) == x % a + ((x / a) % b) * a
  {
    var q := (x / a) / b;
    var d := (x / a) % b;
    assert x == a * (x / a) + x % a;
    assert x / a == b * q + d;
    assert a * (x / a) == (a * b) * q + d * a by {
      assert a * (b * q + d) == (a * b) * q + d * a;
    }
    MulMono(d, b - 1, a);
    assert (b - 1) * a == a * b - a;
    ModUnique(x, a * b, q, x % a + d * a);
  }

  /** `(x >> (width * k)) & (2^width - 1)`: digit `k` of `x` in base `2^width`. */
  function Digit(x: nat, width: nat, k: nat): nat
  {
    (x / Pow2(width * k)) % Pow2(width)
  }

  /** The number the first `n` digits of `x` in base `2^width` make up. */
  function Rebuild(x: nat, width: nat, n: nat): nat
  {
    if n == 0 then 0 else Rebuild(x, width, n - 1) + Digit(x, width, n - 1) * Pow2(width * (n - 1))
  }

  /** The first `n` digits make up the low `width * n` bits. */
  lemma {:induction false} RebuildLow(x: nat, width: nat, n: nat)
    ensures Rebuild(x, width, n) == x % Pow2(width * n)
  {
    if n > 0 {
      RebuildLow(x, width, n - 1);
      assert width * n == width * (n - 1) + width;
      Pow2Add(width * (n - 1), width);
      ModSplit(x, Pow2(width * (n - 1)), Pow2(width));
    }
  }

  /** The 16 texel indices read with shifts 0, 2, ..., 30 are the base-4 digits
      of the index word, and together they make it up again: every bit of the
      word is read by exactly one texel. */
  lemma IndicesAreTheWord(idxs: nat)
    requires idxs < 0x1_0000_0000
    ensures forall k :: 0 <= k < TEXELS ==> Index(idxs, 2 * k) == Digit(idxs, 2, k)
    ensures Rebuild(idxs, 2, TEXELS) == idxs
  {
    assert Pow2(2) == 4;
    RebuildLow(idxs, 2, TEXELS);
    Pow2Known();
  }

  /** A weighted sum of two byte values is at most the sum of the weights times 255. */
  lemma WeightedBound(w0: nat, w1: nat, x: nat, y: nat)
    requires x < 0x100 && y < 0x100
    ensures w0 * x + w1 * y <= (w0 + w1) * 0xFF
  {
    MulMono(x, 0xFF, w0);
    MulMono(y, 0xFF, w1);
  }

  /** Bounds on `n` by multiples of `s` carry over to the floor quotient `n / s`. */
  lemma DivBetween(n: nat, s: nat, lo: nat, hi: nat)
    requires s > 0 && lo * s <= n <= hi * s
    ensures lo <= n / s <= hi
  {
    assert n == s * (n / s) + n % s;
    if n / s < lo {
      MulMono(n / s + 1, lo, s);
    }
    if n / s > hi {
      MulMono(hi + 1, n / s, s);
    }
  }

  /** A floor-divided weighted average lies between the two values. */
  lemma Interpolate(w0: nat, w1: nat, x: nat, y: nat)
    requires w0 + w1 > 0
    ensures Min(x, y) <= (w0 * x + w1 * y) / (w0 + w1) <= Max(x, y)
  {
    var lo := Min(x, y);
    var hi := Max(x, y);
    MulMono(lo, x, w0);
    MulMono(lo, y, w1);
    MulMono(x, hi, w0);
    MulMono(y, hi, w1);
    assert lo * (w0 + w1) == lo * w0 + lo * w1;
    assert hi * (w0 + w1) == hi * w0 + hi * w1;
    DivBetween(w0 * x + w1 * y, w0 + w1, lo, hi);
  }

  /** Entry `i`, for `i` in 2..5, of the alpha ramp `calcAlpha` builds from the two
      endpoint alphas. With `a0 <= a1` the code as written divides by 7; the
      corrected ramp divides by 5, as the six-value alpha mode of BC3/BC4 blocks
      does (the weights `6 - i` and `i - 1` already sum to 5). */
  function AlphaRampEntry(mode: Mode, a0: nat, a1: nat, i: nat): (v: nat)
    requires 2 <= i <= 5 && a0 < 0x100 && a1 < 0x100
    ensures v < 0x100
  {
    if a0 > a1 then
      WeightedBound(8 - i, i - 1, a0, a1);
      ((8 - i) * a0 + (i - 1) * a1) / 7
    else
      WeightedBound(6 - i, i - 1, a0, a1);
      ((6 - i) * a0 + (i - 1) * a1) / (if mode == AsWritten then 7 else 5)
  }

  /** Entry `j` of the table `calcAlpha` returns: the endpoints, the ramp, then
      fully transparent and fully opaque. */
  function AlphaAt(mode: Mode, a0: byte, a1: byte, j: nat): byte
    requires j < 8
  {
    if j == 0 then a0
    else if j == 1 then a1
    else if j == 6 then 0
    else if j == 7 then 0xFF
    else ToByte(AlphaRampEntry(mode, a0 as nat, a1 as nat, j))
  }

  /** The 8-byte table `calcAlpha` returns, from the first two bytes of `alpha`;
      an input shorter than two bytes fails with `IndexError`. */
  function AlphaTable(mode: Mode, alpha: seq<byte>): (r: Result<seq<byte>>)
    ensures r.Ok? <==> |alpha| >= 2
    ensures r.Ok? ==> |r.value| == 8
  {
    if |alpha| < 2 then Err(IndexError)
    else Ok(seq(8, j requires 0 <= j < 8 => AlphaAt(mode, alpha[0], alpha[1], j)))
  }

  /** `calcAlpha(alpha)`: an input shorter than two bytes fails on `alpha[1]`. */
  method CalcAlpha(mode: Mode, alpha: seq<byte>) returns (r: Result<seq<byte>>)
    ensures r == AlphaTable(mode, alpha)
  {
    if |alpha| < 2 {
      return Err(IndexError);
    }
    var table := FillAlpha(mode, alpha[0], alpha[1]);
    assert table == AlphaTable(mode, alpha).value;
    r := Ok(table);
  }

  /** The table starts as (a0, a1, 0, 0, 0, 0, 0, 0xFF) and the loop over `i` in
      2..5 overwrites the ramp entries. */
  method FillAlpha(mode: Mode, a0: byte, a1: byte) returns (t: seq<byte>)
    ensures |t| == 8 && forall j :: 0 <= j < 8 ==> t[j] == AlphaAt(mode, a0, a1, j)
  {
    var table := new byte[8];
    table[0] := a0;
    table[1] := a1;
    table[6] := 0;
    table[7] := 0xFF;
    var i := 2;
    while i < 6
      invariant 2 <= i <= 6
      invariant table[0] == a0 && table[1] == a1 && table[6] == 0 && table[7] == 0xFF
      invariant forall j :: 2 <= j < i ==> table[j] == AlphaAt(mode, a0, a1, j)
    {
      table[i] := AlphaAt(mode, a0, a1, i);
      i := i + 1;
    }
    t := table[..];
  }

  /** Entries 0 and 1 of the table are the endpoints, 6 is fully transparent
      and 7 fully opaque; entries 2..5 are the ramp. */
  lemma AlphaTableEntries(mode: Mode, alpha: seq<byte>, i: nat)
    requires |alpha| >= 2 && 2 <= i <= 5
    ensures var t := AlphaTable(mode, alpha).value;
            t[0] == alpha[0] && t[1] == alpha[1] && t[6] == 0 && t[7] == 0xFF
            && t[i] as nat == AlphaRampEntry(mode, alpha[0] as nat, alpha[1] as nat, i)
  {
  }

  /** When `a0 > a1` the ramp runs from `a0` down towards `a1`: every entry lies
      in `[a1, a0]` and none exceeds the one before. */
  lemma AlphaRampDescends(mode: Mode, a0: nat, a1: nat, i: nat)
    requires a0 < 0x100 && a1 < 0x100 && a0 > a1 && 2 <= i <= 5
    ensures a1 <= AlphaRampEntry(mode, a0, a1, i) <= a0
    ensures i < 5 ==> AlphaRampEntry(mode, a0, a1, i + 1) <= AlphaRampEntry(mode, a0, a1, i)
  {
    Interpolate(8 - i, i - 1, a0, a1);
    if i < 5 {
      var n := (8 - i) * a0 + (i - 1) * a1;
      assert (8 - (i + 1)) * a0 + (i + 1 - 1) * a1 == n - (a0 - a1);
    }
  }

  /** Corrected, the ramp stays between the endpoints whatever their order. */
  lemma AlphaRampCorrected(a0: nat, a1: nat, i: nat)
    requires a0 < 0x100 && a1 < 0x100 && 2 <= i <= 5
    ensures Min(a0, a1) <= AlphaRampEntry(Corrected, a0, a1, i) <= Max(a0, a1)
  {
    if a0 > a1 {
      Interpolate(8 - i, i - 1, a0, a1);
    } else {
      Interpolate(6 - i, i - 1, a0, a1);
    }
  }

  /** As written, equal endpoints of 255 give a ramp entry of 182: below both
      endpoints, because the weights `(6 - i) + (i - 1) == 5` are divided by 7. */
  lemma AlphaRampAsWritten(alpha: seq<byte>)
    requires alpha == [0xFF, 0xFF]
    ensures AlphaTable(AsWritten, alpha).value[2] == 182
    ensures AlphaTable(Corrected, alpha).value[2] == 0xFF
  {
    assert AlphaTable(AsWritten, alpha).value[2] == AlphaAt(AsWritten, 0xFF, 0xFF, 2);
    assert AlphaTable(Corrected, alpha).value[2] == AlphaAt(Corrected, 0xFF, 0xFF, 2);
  }

  function Abs(x: int): nat { if x < 0 then -x else x }

  /** Python's `|` on integers of either sign: two's complement with infinitely
      many sign bits. Dafny's `/ 2` and `% 2` are the floor ones, as Python's. */
  function PyOr(a: int, b: int): int
    decreases Abs(a) + Abs(b)
  {
    if a == 0 || b == -1 then b
    else if b == 0 || a == -1 then a
    else 2 * PyOr(a / 2, b / 2) + (if a % 2 == 1 || b % 2 == 1 then 1 else 0)
  }

  /** On non-negative integers Python's `|` is the bitwise or of `Bytes.BitOr`. */
  lemma {:induction false} PyOrNatural(a: nat, b: nat)
    ensures PyOr(a, b) == BitOr(a, b)
    decreases a + b
  {
    if a != 0 && b != 0 {
      PyOrNatural(a / 2, b / 2);
    }
  }

  /** Or-ing a value below `2^k` in magnitude with a multiple of `2^k`: a
      non-negative value fills the low bits, a negative one has every bit from
      `k` upwards set and so absorbs the other operand. */
  lemma {:induction false} OrLowBits(lo: int, h: int, k: nat)
    requires -(Pow2(k) as int) <= lo < Pow2(k)
    ensures PyOr(lo, h * Pow2(k)) == if lo >= 0 then lo + h * Pow2(k) else lo
    decreases k
  {
    var b := h * Pow2(k);
    if k == 0 {
    } else if lo == 0 || lo == -1 || h == 0 {
    } else {
      var p := Pow2(k - 1);
      assert Pow2(k) == 2 * p;
      EvenMultiple(h, p);
      OrLowBits(lo / 2, h, k - 1);
    }
  }

  /** `h * 2p` is even, twice `h * p`, and non-zero when `h` and `p` are. */
  lemma EvenMultiple(h: int, p: nat)
    requires p > 0
    ensures var b := h * (2 * p);
            b / 2 == h * p && b % 2 == 0 && b != -1 && (h != 0 ==> b != 0)
  {
    assert h * (2 * p) == 2 * (h * p);
  }

  /** `(v >> s) & 0xF`: the four bits of `v` from bit `s` up. For a negative `v`
      Python's shift floors and `& 0xF` keeps the low bits of the two's
      complement, which are Dafny's floor division and non-negative remainder. */
  function Nibble(v: int, s: nat): (n: nat)
    ensures n < 16
  {
    (v / Pow2(s)) % 16
  }

  /** Adding `t` multiples of `P` adds `t` to the quotient and keeps the remainder. */
  lemma DivAddMultiple(v: int, P: int, t: int)
    requires P > 0
    ensures (v + P * t) / P == v / P + t && (v + P * t) % P == v % P
  {
    assert v == P * (v / P) + v % P;
    assert v + P * t == P * (v / P + t) + v % P;
    ModUnique(v + P * t, P, v / P + t, v % P);
  }

  /** `2^n` is `2^s` times a multiple of 16 when `s + 4 <= n`. */
  lemma Pow2Split(s: nat, n: nat)
    requires s + 4 <= n
    ensures Pow2(n) == Pow2(s) * (16 * Pow2(n - s - 4))
  {
    Pow2Add(s, n - s);
    Pow2Add(4, n - s - 4);
    assert Pow2(4) == 16;
  }

  /** Adding a multiple of `2^n` leaves the nibbles below bit `n` alone. */
  lemma NibbleShift(v: int, m: int, n: nat, s: nat)
    requires s + 4 <= n
    ensures Nibble(v + m * Pow2(n), s) == Nibble(v, s)
  {
    var P := Pow2(s);
    var R := Pow2(n - s - 4);
    Pow2Split(s, n);
    Regroup(m, P, R);
    NibbleOfSum(v, P, m * R);
  }

  lemma Regroup(m: int, P: int, R: int)
    ensures m * (P * (16 * R)) == P * (16 * (m * R))
  {
  }

  /** Adding a multiple of `16 * P` leaves digit `v / P % 16` alone. */
  lemma NibbleOfSum(v: int, P: int, t: int)
    requires P > 0
    ensures ((v + P * (16 * t)) / P) % 16 == (v / P) % 16
  {
    DivAddMultiple(v, P, 16 * t);
    DivAddMultiple(v / P, 16, t);
  }

  /** A value in `[-2^t, 0)` has every bit from `t` upwards set. */
  lemma NibbleSignFill(v: int, s: nat, t: nat)
    requires -(Pow2(t) as int) <= v < 0 && s >= t
    ensures Nibble(v, s) == 15
  {
    var P := Pow2(s);
    assert P >= Pow2(t) by {
      Pow2Add(t, s - t);
      MulAtLeast(Pow2(t), Pow2(s - t));
    }
    assert v / P == -1 by {
      ModUnique(v, P, -1, v + P);
    }
  }

  /** The 64 alpha bits of a BC2 block at `offs`. As written they are
      `alphaLo | (alphaHi << 32)` with both words unpacked signed ('ii');
      corrected, the block's unsigned little-endian 64-bit word. */
  function AlphaWord(mode: Mode, data: seq<byte>, offs: nat): int
    requires offs + 8 <= |data|
  {
    Pow2Known();
    if mode == AsWritten then
      PyOr(Signed(U32LE(data, offs), 32), Signed(U32LE(data, offs + 4), 32) * 0x1_0000_0000)
    else U64LE(data, offs)
  }

  /** BC2's 8-bit alpha from a 4-bit one: `alpha | (alpha << 4)`; the two
      nibbles do not overlap, so the or adds them. */
  function WideAlpha(n: nat): (b: byte)
    requires n < 16
    ensures b as nat == 17 * n
  {
    ToByte(n + 16 * n)
  }

  /** `lo | (hi << n)` for two `n`-bit words unpacked signed: the `2n`-bit
      word modulo `2^2n` when the low word is non-negative, the low word
      itself otherwise. */
  lemma SignedWordsOr(lo: nat, hi: nat, n: nat)
    requires n >= 1 && lo < Pow2(n) && hi < Pow2(n)
    ensures var w := PyOr(Signed(lo, n), Signed(hi, n) * Pow2(n));
            if lo < Pow2(n - 1) then w == lo + hi * Pow2(n) || w == lo + hi * Pow2(n) + (-1) * Pow2(n + n)
            else w == lo + (-1) * Pow2(n) && w < 0 && -(Pow2(n - 1) as int) <= w
  {
    var sl := Signed(lo, n);
    var sh := Signed(hi, n);
    assert Pow2(n) == 2 * Pow2(n - 1);
    OrLowBits(sl, sh, n);
    if sh != hi {
      Pow2Add(n, n);
      WrapTimes(hi, Pow2(n));
    }
  }

  /** Scaling a word taken back by one modulus. */
  lemma WrapTimes(h: int, P: int)
    ensures (h - P) * P == h * P + (-1) * (P * P)
  {
  }

  /** The nibbles of `lo | (hi << n)` for two `n`-bit words unpacked signed,
      against those of the unsigned `2n`-bit word `lo + hi * 2^n`: they agree
      except above bit `n` when the low word is negative, where all read 15. */
  lemma SignedWordsNibble(lo: nat, hi: nat, k: nat, n: nat)
    requires n >= 4 && n % 4 == 0 && lo < Pow2(n) && hi < Pow2(n) && 4 * k + 4 <= n + n
    ensures Nibble(PyOr(Signed(lo, n), Signed(hi, n) * Pow2(n)), 4 * k)
            == if 4 * k >= n && lo >= Pow2(n - 1) then 15 else Nibble(lo + hi * Pow2(n), 4 * k)
  {
    var w := PyOr(Signed(lo, n), Signed(hi, n) * Pow2(n));
    SignedWordsOr(lo, hi, n);
    if lo < Pow2(n - 1) {
      NibbleModWrap(lo + hi * Pow2(n), w, n + n, 4 * k);
    } else if 4 * k < n {
      NibbleNegativeLow(lo, hi, w, n, 4 * k);
    } else {
      NibbleSignFill(w, 4 * k, n - 1);
    }
  }

  /** A value taken back by `2^N` keeps its nibbles below bit `N`. */
  lemma NibbleModWrap(u: int, w: int, N: nat, s: nat)
    requires s + 4 <= N && (w == u || w == u + (-1) * Pow2(N))
    ensures Nibble(w, s) == Nibble(u, s)
  {
    if w != u {
      NibbleShift(u, -1, N, s);
    }
  }

  /** Below bit `n`, a negative low word and the unsigned word share nibbles. */
  lemma NibbleNegativeLow(lo: nat, hi: nat, w: int, n: nat, s: nat)
    requires s + 4 <= n && w == lo + (-1) * Pow2(n)
    ensures Nibble(w, s) == Nibble(lo + hi * Pow2(n), s)
  {
    NibbleShift(lo, -1, n, s);
    NibbleShift(lo, hi, n, s);
  }

  /** As written, the first two rows of a BC2 block take their alphas from the
      block's unsigned 64-bit word, but when the top bit of the low word is set
      every alpha of rows 2 and 3 reads all ones. */
  lemma Bc2AlphaAsWritten(data: seq<byte>, offs: nat, k: nat)
    requires offs + 8 <= |data| && k < TEXELS
    ensures var lowSigned := U32LE(data, offs) >= 0x8000_0000;
            Nibble(AlphaWord(AsWritten, data, offs), 4 * k)
              == if k >= 8 && lowSigned then 15 else Nibble(U64LE(data, offs), 4 * k)
  {
    Pow2Known();
    assert Pow2(31) == 0x8000_0000 by {
      assert Pow2(32) == 2 * Pow2(31);
    }
    SignedWordsNibble(U32LE(data, offs), U32LE(data, offs + 4), k, 32);
    assert 4 * k >= 32 <==> k >= 8;
  }

  /** A nibble at bit `4k` is base-16 digit `k`. */
  lemma NibbleIsDigit(x: nat, k: nat)
    ensures Nibble(x, 4 * k) == Digit(x, 4, k)
  {
    assert Pow2(4) == 16;
  }

  /** A 64-bit word is its own low `4 * n` bits when `n` is 16. */
  lemma WordBelow(u: nat, n: nat)
    requires u < 0x1_0000_0000_0000_0000 && n == TEXELS
    ensures u % Pow2(4 * n) == u
  {
    Pow2Known();
    Pow2Add(32, 32);
    ModUnique(u, Pow2(4 * n), 0, u);
  }

  /** Corrected, the 16 alphas are the base-16 digits of the block's 64-bit word
      and together make it up again. */
  lemma Bc2AlphaCorrected(data: seq<byte>, offs: nat, n: nat)
    requires offs + 8 <= |data| && n == TEXELS
    ensures forall k :: 0 <= k < n ==> Nibble(AlphaWord(Corrected, data, offs), 4 * k) == Digit(U64LE(data, offs), 4, k)
    ensures Rebuild(U64LE(data, offs), 4, n) == U64LE(data, offs)
  {
    var u := U64LE(data, offs);
    assert AlphaWord(Corrected, data, offs) == u;
    forall k | 0 <= k < n
      ensures Nibble(u, 4 * k) == Digit(u, 4, k)
    {
      NibbleIsDigit(u, k);
    }
    RebuildLow(u, 4, n);
    WordBelow(u, n);
  }

  /** A block whose low alpha word has its top bit set: as written, texel 8 (row
      2) is fully opaque although its nibble is 0. */
  lemma Bc2SignedAlphaQuirk(data: seq<byte>)
    requires data == [0, 0, 0, 0x80, 0, 0, 0, 0]
    ensures WideAlpha(Nibble(AlphaWord(AsWritten, data, 0), 32)) == 0xFF
    ensures WideAlpha(Nibble(AlphaWord(Corrected, data, 0), 32)) == 0
  {
    assert U32LE(data, 0) == 0x8000_0000;
    Bc2AlphaAsWritten(data, 0, 8);
    assert U64LE(data, 0) == 0x8000_0000;
    Pow2Known();
    assert Nibble(0x8000_0000, 32) == 0;
  }

  /** `decodeTile(data, offs)`: the 64-byte RGBA tile of the 8-byte block at
      `offs` (words c0, c1 and the index word, little-endian), or the
      `struct.error` of `unpack_from` when the block runs past the data. */
  function Tile(layout: Layout, ramp: Ramp, data: seq<byte>, offs: nat): (r: Result<seq<byte>>)
    ensures r.Ok? <==> offs + 8 <= |data|
    ensures r.Ok? ==> |r.value| == 64
    ensures r.Err? ==> r.error == StructError
  {
    if offs + 8 > |data| then Err(StructError)
    else Ok(TexelsUpTo(Clut(Palette(layout, ramp, U16LE(data, offs), U16LE(data, offs + 2))), U32LE(data, offs + 4), TEXELS))
  }

  /** Texel `k` of a tile is the palette entry its 2-bit index selects. */
  lemma {:induction false} TexelAt(clut: seq<seq<byte>>, idxs: nat, n: nat, k: nat)
    requires IsClut(clut) && k < n
    ensures TexelsUpTo(clut, idxs, n)[4 * k..4 * k + 4] == clut[Index(idxs, 2 * k)]
  {
    var t := TexelsUpTo(clut, idxs, n);
    var p := TexelsUpTo(clut, idxs, n - 1);
    assert t == p + clut[Index(idxs, 2 * (n - 1))];
    if k < n - 1 {
      TexelAt(clut, idxs, n - 1, k);
      assert t[4 * k..4 * k + 4] == p[4 * k..4 * k + 4];
    } else {
      assert t[4 * k..4 * k + 4] == t[|p|..];
    }
  }

  /** Texel `4 * ty + tx` of a decoded tile is palette entry `(idxs >> 2k) & 3`. */
  lemma TileTexel(layout: Layout, ramp: Ramp, data: seq<byte>, offs: nat, k: nat)
    requires offs + 8 <= |data| && k < 16
    ensures var pal := Palette(layout, ramp, U16LE(data, offs), U16LE(data, offs + 2));
            Tile(layout, ramp, data, offs).value[4 * k..4 * k + 4] == Rgba(pal[Index(U32LE(data, offs + 4), 2 * k)])
  {
    TexelAt(Clut(Palette(layout, ramp, U16LE(data, offs), U16LE(data, offs + 2))), U32LE(data, offs + 4), TEXELS, k);
  }

  /** `decodeTile`: fills a 64-byte buffer texel by texel, the index shift and
      the output position advancing together. */
  method DecodeTile(layout: Layout, ramp: Ramp, data: seq<byte>, offs: nat) returns (r: Result<seq<byte>>)
    ensures r == Tile(layout, ramp, data, offs)
  {
    if offs + 8 > |data| {
      return Err(StructError);
    }
    var c0 := U16LE(data, offs);
    var c1 := U16LE(data, offs + 2);
    var idxs := U32LE(data, offs + 4);
    var clut := Clut(Palette(layout, ramp, c0, c1));
    var tile := FillTile(clut, idxs);
    r := Ok(tile);
  }

  /** The texel loop of `decodeTile`: the index shift and the output position
      advance together over the 4x4 texels. */
  method FillTile(clut: seq<seq<byte>>, idxs: nat) returns (t: seq<byte>)
    requires IsClut(clut)
    ensures t == TexelsUpTo(clut, idxs, TEXELS)
  {
    var output := new byte[64];
    ghost var tile := TexelsUpTo(clut, idxs, TEXELS);
    var idxshift := 0;
    var out := 0;
    var ty := 0;
    while ty < 4
      invariant 0 <= ty <= 4
      invariant out == 16 * ty && idxshift == 2 * (4 * ty)
      invariant forall j :: 0 <= j < out ==> output[j] == tile[j]
    {
      var tx := 0;
      while tx < 4
        invariant 0 <= tx <= 4
        invariant out == 4 * (4 * ty + tx) && idxshift == 2 * (4 * ty + tx)
        invariant forall j :: 0 <= j < out ==> output[j] == tile[j]
      {
        var i := Index(idxs, idxshift);
        var texel := clut[i];
        TexelAt(clut, idxs, TEXELS, 4 * ty + tx);
        PutTexel(output, out, tile, texel);
        idxshift := idxshift + 2;
        out := out + 4;
        tx := tx + 1;
      }
      ty := ty + 1;
    }
    assert output[..] == tile;
    t := output[..];
  }

  /** One texel's bytes written after a prefix of `tile` that is already in place. */
  method PutTexel(a: array<byte>, at: nat, ghost tile: seq<byte>, texel: seq<byte>)
    requires at + 4 <= a.Length && at + 4 <= |tile| && tile[at..at + 4] == texel
    requires forall j :: 0 <= j < at ==> a[j] == tile[j]
    modifies a
    ensures forall j :: 0 <= j < at + 4 ==> a[j] == tile[j]
  {
    Put(a, at, texel);
    forall j | at <= j < at + 4
      ensures a[j] == tile[j]
    {
      assert a[j] == a[at..at + 4][j - at];
      assert tile[j] == tile[at..at + 4][j - at];
    }
  }

  /** `a[at:at + |t|] = t` on a bytearray slice that lies inside it. */
  method Put(a: array<byte>, at: nat, t: seq<byte>)
    requires at + |t| <= a.Length
    modifies a
    ensures a[at..at + |t|] == t
    ensures forall j :: 0 <= j < a.Length && !(at <= j < at + |t|) ==> a[j] == old(a[j])
  {
    var k := 0;
    while k < |t|
      invariant 0 <= k <= |t|
      invariant a[at..at + k] == t[..k]
      invariant forall j :: 0 <= j < a.Length && !(at <= j < at + k) ==> a[j] == old(a[j])
    {
      a[at + k] := t[k];
      k := k + 1;
    }
  }
}
