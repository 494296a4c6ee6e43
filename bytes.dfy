/** Byte sequences, fixed-width integers read from them, and the small
    integer and text helpers every format uses. */
module Bytes {

  /** A byte: an integer in [0, 256). */
  newtype byte = x: int | 0 <= x < 0x100

  function Pow2(k: nat): (r: nat)
    ensures r >= 1
  {
    if k == 0 then 1 else 2 * Pow2(k - 1)
  }

  lemma {:induction false} Pow2Add(a: nat, b: nat)
    ensures Pow2(a + b) == Pow2(a) * Pow2(b)
  {
    if a > 0 {
      Pow2Add(a - 1, b);
      assert Pow2(a + b) == 2 * Pow2(a - 1 + b);
    }
  }

  lemma Pow2Known()
    ensures Pow2(4) == 16 && Pow2(8) == 0x100 && Pow2(16) == 0x1_0000 && Pow2(32) == 0x1_0000_0000
  {
    assert Pow2(4) == 16;
    Pow2Add(4, 4);
    assert Pow2(8) == 0x100;
    Pow2Add(8, 8);
    assert Pow2(16) == 0x1_0000;
    Pow2Add(16, 16);
  }

  /** Unsigned little-endian integers, as struct's '<B', '<H', '<I', '<Q'. */

  function U8(s: seq<byte>, i: nat): (r: nat)
    requires i < |s|
    ensures r < 0x100
  {
    s[i] as nat
  }

  function U16LE(s: seq<byte>, i: nat): (r: nat)
    requires i + 2 <= |s|
    ensures r < 0x1_0000
  {
    s[i] as nat + 0x100 * (s[i + 1] as nat)
  }

  function U32LE(s: seq<byte>, i: nat): (r: nat)
    requires i + 4 <= |s|
    ensures r < 0x1_0000_0000
  {
    U16LE(s, i) + 0x1_0000 * U16LE(s, i + 2)
  }

  function U64LE(s: seq<byte>, i: nat): (r: nat)
    requires i + 8 <= |s|
    ensures r < 0x1_0000_0000_0000_0000
  {
    U32LE(s, i) + 0x1_0000_0000 * U32LE(s, i + 4)
  }

  /** Unsigned big-endian integers, as struct's '>H', '>I'. */
  function U16BE(s: seq<byte>, i: nat): (r: nat)
    requires i + 2 <= |s|
    ensures r < 0x1_0000
  {
    0x100 * (s[i] as nat) + s[i + 1] as nat
  }

  function U32BE(s: seq<byte>, i: nat): (r: nat)
    requires i + 4 <= |s|
    ensures r < 0x1_0000_0000
  {
    0x1_0000 * U16BE(s, i) + U16BE(s, i + 2)
  }

  /** Two's-complement reinterpretation of an unsigned value of `bits` bits. */
  function Signed(u: nat, bits: nat): (r: int)
    requires bits >= 1 && u < Pow2(bits)
    ensures -(Pow2(bits - 1) as int) <= r < Pow2(bits - 1)
    ensures r >= 0 <==> u < Pow2(bits - 1)
    ensures r == u || r == u - Pow2(bits)
  {
    assert Pow2(bits) == 2 * Pow2(bits - 1);
    if u < Pow2(bits - 1) then u else u - Pow2(bits)
  }

  /** Python's `&` on non-negative integers. */
  function BitAnd(a: nat, b: nat): (r: nat)
    ensures r <= a && r <= b
  {
    if a == 0 || b == 0 then 0 else 2 * BitAnd(a / 2, b / 2) + (a % 2) * (b % 2)
  }

  /** Python's `|` on non-negative integers. */
  function BitOr(a: nat, b: nat): (r: nat)
    ensures r >= a && r >= b
    ensures r <= a + b
  {
    if a == 0 then b else if b == 0 then a
    else 2 * BitOr(a / 2, b / 2) + (if a % 2 == 1 || b % 2 == 1 then 1 else 0)
  }

  /** A mask with every bit of `a` set keeps `a`; a zero mask keeps nothing. */
  lemma {:induction false} BitAndSelf(a: nat)
    ensures BitAnd(a, a) == a
    ensures BitAnd(a, 0) == 0
  {
    if a != 0 {
      BitAndSelf(a / 2);
    }
  }

  /** `a & (2^k - 1)` keeps the low `k` bits of `a`. */
  lemma {:induction false} LowMask(a: nat, k: nat)
    ensures BitAnd(a, Pow2(k) - 1) == a % Pow2(k)
    decreases k
  {
    if k == 0 {
      LowMaskNone(a);
    } else if a == 0 {
      LowMaskOfZero(Pow2(k));
    } else {
      LowMask(a / 2, k - 1);
      LowMaskStep(a, k);
    }
  }

  lemma LowMaskNone(a: nat)
    ensures BitAnd(a, Pow2(0) - 1) == a % Pow2(0)
  {
    assert Pow2(0) == 1;
  }

  lemma LowMaskOfZero(m: nat)
    requires m >= 1
    ensures BitAnd(0, m - 1) == 0 % m
  {
  }

  /** The low `k` bits from the low `k - 1` bits of the half. */
  lemma LowMaskStep(a: nat, k: nat)
    requires k > 0 && a != 0
    requires BitAnd(a / 2, Pow2(k - 1) - 1) == (a / 2) % Pow2(k - 1)
    ensures BitAnd(a, Pow2(k) - 1) == a % Pow2(k)
  {
    var p := Pow2(k - 1);
    var m := Pow2(k) - 1;
    assert m == 2 * p - 1;
    var low := BitAnd(a / 2, p - 1);
    OddHalf(p);
    BitAndOdd(a, m);
    assert BitAnd(a, m) == 2 * low + a % 2;
    ModOfDouble(a, p);
  }

  /** One bit of `&` with an odd mask: the lowest bit of `a`, the rest shifted down. */
  lemma BitAndOdd(a: nat, b: nat)
    requires a != 0 && b % 2 == 1
    ensures BitAnd(a, b) == 2 * BitAnd(a / 2, b / 2) + a % 2
  {
  }

  /** Halving the odd number `2p - 1`. */
  lemma OddHalf(p: nat)
    requires p >= 1
    ensures (2 * p - 1) / 2 == p - 1 && (2 * p - 1) % 2 == 1
  {
  }

  /** The remainder by `2p` from the remainder of the half by `p`. */
  lemma ModOfDouble(a: nat, p: nat)
    requires p >= 1
    ensures a % (2 * p) == 2 * ((a / 2) % p) + a % 2
  {
    var h := a / 2;
    var q := h / p;
    var r := 2 * (h % p) + a % 2;
    assert a == 2 * h + a % 2;
    assert h == p * q + h % p;
    assert a == (2 * p) * q + r;
    ModUnique(a, 2 * p, q, r);
  }

  /** Quotient and remainder are the only ones with `a == m * q + r`, `0 <= r < m`. */
  lemma ModUnique(a: int, m: int, q: int, r: int)
    requires m > 0 && 0 <= r < m && a == m * q + r
    ensures a % m == r && a / m == q
  {
    var q0 := a / m;
    var r0 := a % m;
    assert a == m * q0 + r0;
    assert m * (q - q0) == r0 - r;
    if q > q0 {
      MulAtLeast(m, q - q0);
    } else if q < q0 {
      MulAtMost(m, q - q0);
    }
  }

  lemma MulAtLeast(m: nat, k: int)
    requires k >= 1
    ensures m * k >= m
  {
    assert m * k == m + m * (k - 1);
  }

  lemma MulAtMost(m: nat, k: int)
    requires k <= -1
    ensures m * k + m <= 0
  {
    MulAtLeast(m, -k);
    assert m * k == -(m * -k);
  }

  /** `n` zero bytes: `bytearray(n)`, or a run of NUL bytes. */
  function Zeros(n: nat): (z: seq<byte>)
    ensures |z| == n && forall i :: 0 <= i < n ==> z[i] == 0
  {
    seq(n, i => 0)
  }

  /** The byte whose value is `x`. */
  function ToByte(x: nat): (b: byte)
    requires x < 0x100
    ensures b as int == x
  {
    x as byte
  }

  /** The two bytes of `n` in little-endian order, as struct's '<H' packs them. */
  function LE16(n: nat): (r: seq<byte>)
    requires n < 0x1_0000
    ensures |r| == 2 && U16LE(r, 0) == n
  {
    assert n % 0x100 + 0x100 * (n / 0x100) == n;
    [ToByte(n % 0x100), ToByte(n / 0x100)]
  }

  /** The four bytes of `n` in little-endian order, as struct's '<I' packs them. */
  function LE32(n: nat): (r: seq<byte>)
    requires n < 0x1_0000_0000
    ensures |r| == 4 && U32LE(r, 0) == n
  {
    var r := LE16(n % 0x1_0000) + LE16(n / 0x1_0000);
    assert U16LE(r, 0) == n % 0x1_0000 && U16LE(r, 2) == n / 0x1_0000;
    r
  }

  /** The last field of a record is found right after the ones before it. */
  lemma LastField(pre: seq<byte>, x: seq<byte>)
    ensures (pre + x)[|pre|..|pre| + |x|] == x
  {
  }

  /** A 16-bit field read back from where it was written. */
  lemma U16At(s: seq<byte>, i: nat, n: nat)
    requires n < 0x1_0000 && i + 2 <= |s| && s[i..i + 2] == LE16(n)
    ensures U16LE(s, i) == n
  {
    assert s[i] == s[i..i + 2][0] && s[i + 1] == s[i..i + 2][1];
  }

  /** A 32-bit field read back from where it was written. */
  lemma U32At(s: seq<byte>, i: nat, n: nat)
    requires n < 0x1_0000_0000 && i + 4 <= |s| && s[i..i + 4] == LE32(n)
    ensures U32LE(s, i) == n
  {
    var w := LE32(n);
    assert s[i..i + 2] == w[0..2] && s[i + 2..i + 4] == w[2..4];
    assert w[0..2] == LE16(n % 0x1_0000) && w[2..4] == LE16(n / 0x1_0000);
    U16At(s, i, n % 0x1_0000);
    U16At(s, i + 2, n / 0x1_0000);
  }

  /** The two bytes of `n` in big-endian order. */
  function BE16(n: nat): (r: seq<byte>)
    requires n < 0x1_0000
    ensures |r| == 2 && U16BE(r, 0) == n
  {
    assert 0x100 * (n / 0x100) + n % 0x100 == n;
    [ToByte(n / 0x100), ToByte(n % 0x100)]
  }

  /** The four bytes of `n` in big-endian order, as struct's '>I' packs them. */
  function BE32(n: nat): (r: seq<byte>)
    requires n < 0x1_0000_0000
    ensures |r| == 4 && U32BE(r, 0) == n
  {
    var r := BE16(n / 0x1_0000) + BE16(n % 0x1_0000);
    assert U16BE(r, 0) == n / 0x1_0000 && U16BE(r, 2) == n % 0x1_0000;
    r
  }

  /** Bytes of an ASCII text, one byte per character. */
  function Ascii(s: string): (r: seq<byte>)
    requires forall i :: 0 <= i < |s| ==> s[i] as int < 0x80
    ensures |r| == |s|
    ensures forall i :: 0 <= i < |s| ==> r[i] as int == s[i] as int
  {
    if s == [] then [] else [ToByte(s[0] as int)] + Ascii(s[1..])
  }

  /** Characters of a byte string read as Latin-1 (each byte its own code point). */
  function Chars(b: seq<byte>): (r: string)
    ensures |r| == |b|
    ensures forall i :: 0 <= i < |b| ==> r[i] as int == b[i] as int
  {
    if b == [] then [] else [(b[0] as int) as char] + Chars(b[1..])
  }

  function DigitChar(d: nat): (c: char)
    requires d < 16
    ensures '0' <= c <= '9' || 'A' <= c <= 'F'
    ensures d < 10 <==> '0' <= c <= '9'
  {
    if d < 10 then ('0' as int + d) as char else ('A' as int + d - 10) as char
  }

  function DigitValue(c: char): nat
  {
    if '0' <= c <= '9' then c as int - '0' as int
    else if 'A' <= c <= 'F' then c as int - 'A' as int + 10
    else 0
  }

  /** `str(n)` for a natural number: its decimal digits, no leading zero. */
  function Decimal(n: nat): (s: string)
    ensures 1 <= |s|
    ensures forall i :: 0 <= i < |s| ==> '0' <= s[i] <= '9'
    ensures n >= 10 ==> s[0] != '0'
  {
    if n < 10 then [DigitChar(n)] else Decimal(n / 10) + [DigitChar(n % 10)]
  }

  /** The number a string of decimal digits denotes. */
  function ParseDecimal(s: string): nat
  {
    if s == [] then 0 else 10 * ParseDecimal(s[..|s| - 1]) + DigitValue(s[|s| - 1])
  }

  lemma {:induction false} DecimalRoundTrip(n: nat)
    ensures ParseDecimal(Decimal(n)) == n
  {
    var s := Decimal(n);
    if n >= 10 {
      DecimalRoundTrip(n / 10);
      assert s[..|s| - 1] == Decimal(n / 10);
    }
  }

  /** Different numbers print differently, so `str` is injective on naturals. */
  lemma DecimalInjective(m: nat, n: nat)
    requires Decimal(m) == Decimal(n)
    ensures m == n
  {
    DecimalRoundTrip(m);
    DecimalRoundTrip(n);
  }

  /** `'%0*X' % (width, n)`: upper-case hexadecimal, zero-padded to `width` digits
      (wider when `n` needs more). */
  function Hex(n: nat, width: nat): (s: string)
    ensures |s| >= width && |s| >= 1
    decreases n + width
  {
    if n < 16 && width <= 1 then [DigitChar(n)]
    else Hex(n / 16, if width > 0 then width - 1 else 0) + [DigitChar(n % 16)]
  }

  /** Beyond one digit, `Hex` is the higher digits followed by the lowest. */
  lemma HexStep(n: nat, width: nat)
    requires !(n < 16 && width <= 1)
    ensures Hex(n, width) == Hex(n / 16, if width > 0 then width - 1 else 0) + [DigitChar(n % 16)]
  {
  }

  /** An upper-case hexadecimal digit. */
  predicate IsHexDigit(c: char)
  {
    '0' <= c <= '9' || 'A' <= c <= 'F'
  }

  /** `Hex` writes upper-case hexadecimal digits only. */
  lemma {:induction false} HexDigitsOnly(n: nat, width: nat)
    ensures forall i :: 0 <= i < |Hex(n, width)| ==> IsHexDigit(Hex(n, width)[i])
    decreases n + width
  {
    if !(n < 16 && width <= 1) {
      var w := if width > 0 then width - 1 else 0;
      HexStep(n, width);
      HexDigitsOnly(n / 16, w);
      var t := Hex(n / 16, w);
      var s := Hex(n, width);
      forall i | 0 <= i < |s|
        ensures IsHexDigit(s[i])
      {
        if i < |t| {
          assert s[i] == t[i];
        } else {
          assert s[i] == DigitChar(n % 16);
        }
      }
    }
  }

  /** The number a string of upper-case hexadecimal digits denotes. */
  function ParseHex(s: string): nat
  {
    if s == [] then 0 else 16 * ParseHex(s[..|s| - 1]) + DigitValue(s[|s| - 1])
  }

  lemma {:induction false} HexRoundTrip(n: nat, width: nat)
    ensures ParseHex(Hex(n, width)) == n
    decreases n + width
  {
    var s := Hex(n, width);
    if !(n < 16 && width <= 1) {
      var w := if width > 0 then width - 1 else 0;
      var t := Hex(n / 16, w);
      HexStep(n, width);
      HexRoundTrip(n / 16, w);
      assert s[..|s| - 1] == t;
      assert s[|s| - 1] == DigitChar(n % 16);
      assert DigitValue(DigitChar(n % 16)) == n % 16;
    } else {
      assert s[..|s| - 1] == [];
      assert DigitValue(DigitChar(n)) == n;
    }
  }

  /** A value below 16^width prints in exactly `width` digits. */
  lemma {:induction false} HexWidth(n: nat, width: nat)
    requires 1 <= width && n < Pow2(4 * width)
    ensures |Hex(n, width)| == width
    decreases width
  {
    if width > 1 {
      Pow2Add(4, 4 * (width - 1));
      assert Pow2(4) == 16;
      HexWidth(n / 16, width - 1);
      if !(n < 16 && width <= 1) {
        HexStep(n, width);
      }
    } else {
      assert Pow2(4) == 16;
    }
  }

  /** `'%*d' % (width, n)`: right-aligned in `width` columns with spaces. */
  function PadLeft(s: string, width: nat): (r: string)
    ensures |r| == if |s| >= width then |s| else width
    ensures r[|r| - |s|..] == s
    ensures forall i :: 0 <= i < |r| - |s| ==> r[i] == ' '
  {
    if |s| >= width then s else seq(width - |s|, _ => ' ') + s
  }

  /** `str(n)` for any integer. */
  function SignedDecimal(n: int): (s: string)
    ensures |s| >= 1
    ensures n >= 0 ==> s == Decimal(n)
    ensures n < 0 ==> s == "-" + Decimal(-n)
  {
    if n >= 0 then Decimal(n) else "-" + Decimal(-n)
  }

  /** `'%*d' % (width, n)`. */
  function PercentD(n: int, width: nat): (s: string)
    ensures |s| >= width
  {
    PadLeft(SignedDecimal(n), width)
  }

  /** `'%0*X' % (width, n)` for any integer: a negative number prints its
      magnitude after a minus sign, the sign counting towards the width. */
  function PercentX(n: int, width: nat): (s: string)
    ensures |s| >= 1
    ensures n >= 0 ==> s == Hex(n, width)
  {
    if n >= 0 then Hex(n, width) else "-" + Hex(-n, if width > 0 then width - 1 else 0)
  }

  /** `PercentX` writes hexadecimal digits and at most a leading minus sign. */
  lemma PercentXDigits(n: int, width: nat)
    ensures var s := PercentX(n, width);
      forall i :: 0 <= i < |s| ==> IsHexDigit(s[i]) || (i == 0 && s[i] == '-' && n < 0)
  {
    var s := PercentX(n, width);
    var w := if n >= 0 then width else if width > 0 then width - 1 else 0;
    var h := Hex(if n >= 0 then n else -n, w);
    HexDigitsOnly(if n >= 0 then n else -n, w);
    forall i | 0 <= i < |s|
      ensures IsHexDigit(s[i]) || (i == 0 && s[i] == '-' && n < 0)
    {
      if n >= 0 {
        assert s[i] == h[i];
      } else if i > 0 {
        assert s == "-" + h;
        assert s[i] == h[i - 1];
      }
    }
  }

  /** The integer an optionally signed upper-case hexadecimal string denotes. */
  function ParseSignedHex(s: string): int
  {
    if s != [] && s[0] == '-' then 0 - ParseHex(s[1..]) else ParseHex(s)
  }

  lemma PercentXRoundTrip(n: int, width: nat)
    ensures ParseSignedHex(PercentX(n, width)) == n
  {
    if n >= 0 {
      HexRoundTrip(n, width);
      HexDigitsOnly(n, width);
      assert Hex(n, width)[0] != '-';
    } else {
      var w := if width > 0 then width - 1 else 0;
      HexRoundTrip(-n, w);
      assert ("-" + Hex(-n, w))[1..] == Hex(-n, w);
    }
  }

  /** `'%0*x' % (width, n)`: lower-case hexadecimal. */
  function LowerHex(n: nat, width: nat): (s: string)
    ensures |s| >= width && |s| >= 1
    ensures forall i :: 0 <= i < |s| ==> '0' <= s[i] <= '9' || 'a' <= s[i] <= 'f'
    decreases n + width
  {
    var d := n % 16;
    var c := if d < 10 then ('0' as int + d) as char else ('a' as int + d - 10) as char;
    if n < 16 && width <= 1 then [c]
    else LowerHex(n / 16, if width > 0 then width - 1 else 0) + [c]
  }
}
