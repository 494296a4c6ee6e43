/** UTF-8, as section 3 of RFC 3629 defines it: what `bytes(s, 'utf-8')` makes
    of a str. A Dafny `char` is a Unicode scalar value (never a surrogate), so
    every character has an encoding. */
module Unicode {
  import opened Bytes

  /** The byte values encoding code point `n`: one byte below 0x80, otherwise a
      lead byte announcing the length followed by continuation bytes of six
      bits each. */
  function Units(n: nat): (u: seq<nat>)
    requires n < 0x11_0000
    ensures 1 <= |u| <= 4
    ensures |u| == 1 <==> n < 0x80
    ensures |u| == 2 <==> 0x80 <= n < 0x800
    ensures |u| == 3 <==> 0x800 <= n < 0x1_0000
    ensures |u| == 1 ==> u[0] < 0x80
    ensures |u| == 2 ==> 0xC0 <= u[0] < 0xE0
    ensures |u| == 3 ==> 0xE0 <= u[0] < 0xF0
    ensures |u| == 4 ==> 0xF0 <= u[0] < 0xF8
    ensures forall k :: 1 <= k < |u| ==> 0x80 <= u[k] < 0xC0
    ensures DecodeUnits(u) == n
  {
    if n < 0x80 then
      [n]
    else if n < 0x800 then
      assert n == (n / 0x40) * 0x40 + n % 0x40;
      [0xC0 + n / 0x40, 0x80 + n % 0x40]
    else if n < 0x1_0000 then
      SixBits(n);
      [0xE0 + n / 0x1000, 0x80 + (n / 0x40) % 0x40, 0x80 + n % 0x40]
    else
      SixBits(n);
      [0xF0 + n / 0x4_0000, 0x80 + (n / 0x1000) % 0x40, 0x80 + (n / 0x40) % 0x40, 0x80 + n % 0x40]
  }

  /** The code point that one to four byte values stand for, read as a lead
      byte and continuation bytes. */
  function DecodeUnits(u: seq<nat>): int
    requires 1 <= |u| <= 4
  {
    if |u| == 1 then u[0]
    else if |u| == 2 then (u[0] as int - 0xC0) * 0x40 + (u[1] as int - 0x80)
    else if |u| == 3 then (u[0] as int - 0xE0) * 0x1000 + (u[1] as int - 0x80) * 0x40 + (u[2] as int - 0x80)
    else (u[0] as int - 0xF0) * 0x4_0000 + (u[1] as int - 0x80) * 0x1000 + (u[2] as int - 0x80) * 0x40 + (u[3] as int - 0x80)
  }

  /** `n` as a leading part and groups of six bits. */
  lemma SixBits(n: nat)
    ensures n == (n / 0x1000) * 0x1000 + ((n / 0x40) % 0x40) * 0x40 + n % 0x40
    ensures n == (n / 0x4_0000) * 0x4_0000 + ((n / 0x1000) % 0x40) * 0x1000
                 + ((n / 0x40) % 0x40) * 0x40 + n % 0x40
  {
    var a := n / 0x40;
    assert n == a * 0x40 + n % 0x40;
    var b := a / 0x40;
    assert a == b * 0x40 + a % 0x40;
    assert b == n / 0x1000;
    var c := b / 0x40;
    assert b == c * 0x40 + b % 0x40;
    assert c == n / 0x4_0000;
  }

  /** Byte values as bytes. */
  function ToBytes(u: seq<nat>): (r: seq<byte>)
    requires forall k :: 0 <= k < |u| ==> u[k] < 0x100
    ensures |r| == |u|
    ensures forall k :: 0 <= k < |u| ==> r[k] as int == u[k]
  {
    if u == [] then [] else [ToByte(u[0])] + ToBytes(u[1..])
  }

  /** The UTF-8 encoding of one character. */
  function EncodeChar(c: char): (r: seq<byte>)
    ensures 1 <= |r| <= 4
  {
    ToBytes(Units(c as int))
  }

  /** `bytes(s, 'utf-8')`: the encodings of the characters, concatenated. */
  function Utf8(s: string): (r: seq<byte>)
    ensures |r| >= |s|
  {
    if s == [] then [] else EncodeChar(s[0]) + Utf8(s[1..])
  }

  /** Each character's bytes are its code units: the lead byte gives the length,
      the rest are continuation bytes, and together they decode back to the
      character. */
  lemma EncodeCharMeaning(c: char)
    ensures var r := EncodeChar(c);
      |r| == |Units(c as int)|
      && (forall k :: 0 <= k < |r| ==> r[k] as int == Units(c as int)[k])
      && DecodeUnits(Units(c as int)) == c as int
  {
  }

  /** Encoding a concatenation concatenates the encodings. */
  lemma {:induction false} Utf8Append(s: string, t: string)
    ensures Utf8(s + t) == Utf8(s) + Utf8(t)
    decreases |s|
  {
    if s == [] {
      assert s + t == t;
    } else {
      var u := s + t;
      assert u[0] == s[0] && u[1..] == s[1..] + t;
      assert Utf8(u) == EncodeChar(s[0]) + Utf8(s[1..] + t);
      Utf8Append(s[1..], t);
    }
  }

  /** An ASCII text encodes to its own bytes, one per character. */
  lemma {:induction false} AsciiUtf8(s: string)
    requires forall i :: 0 <= i < |s| ==> s[i] as int < 0x80
    ensures Utf8(s) == Ascii(s)
    decreases |s|
  {
    if s != [] {
      assert EncodeChar(s[0]) == [ToByte(s[0] as int)];
      AsciiUtf8(s[1..]);
    }
  }
}
