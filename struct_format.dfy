/** The part of Python's `struct` module the readers rely on: format strings,
    their sizes (`calcsize`) and unpacking (`unpack`, `unpack_from`).
    Formats without a byte-order prefix use the host's order, taken here to be
    little-endian; standard sizes are used and native alignment padding is not. */
module StructFormat {
  import opened Wrappers
  import opened Bytes

  datatype Order = Little | Big

  /** One format item: a repeat count and a type code ('4s' is Item(4, 's')). */
  datatype Item = Item(count: nat, code: char)

  datatype Format = Format(order: Order, items: seq<Item>)

  /** A decoded field value. Floating-point codes keep their raw bytes. */
  datatype Value =
    | Int(i: int)
    | Bool(b: bool)
    | Str(s: seq<byte>)
    | RawFloat(bits: seq<byte>)

  /** The type codes modelled: x c b B ? h H i I l L q Q e f d s. */
  predicate IsCode(c: char)
  {
    CodeSize(c) > 0
  }

  /** Bytes taken by one repetition of a code (for 's' the count is the length);
      0 for a character that is not a code. */
  function CodeSize(c: char): nat
  {
    match c
    case 'x' => 1 case 'c' => 1 case 'b' => 1 case 'B' => 1 case '?' => 1 case 's' => 1
    case 'h' => 2 case 'H' => 2 case 'e' => 2
    case 'i' => 4 case 'I' => 4 case 'l' => 4 case 'L' => 4 case 'f' => 4
    case 'q' => 8 case 'Q' => 8 case 'd' => 8
    case _ => 0
  }

  function ItemsSize(items: seq<Item>): nat
  {
    if items == [] then 0 else items[0].count * CodeSize(items[0].code) + ItemsSize(items[1..])
  }

  /** `struct.calcsize`. */
  function CalcSize(f: Format): nat
  {
    ItemsSize(f.items)
  }

  /** How many values one item unpacks to: a string is one value, padding none. */
  function ItemValues(it: Item): nat
  {
    if it.code == 's' then 1 else if it.code == 'x' then 0 else it.count
  }

  function NumValues(items: seq<Item>): nat
  {
    if items == [] then 0 else ItemValues(items[0]) + NumValues(items[1..])
  }

  predicate IsDigit(c: char) { '0' <= c <= '9' }

  /** Leading decimal digits of `s` and the rest. */
  function SplitCount(s: string): (r: (string, string))
    ensures r.0 + r.1 == s
    ensures forall i :: 0 <= i < |r.0| ==> IsDigit(r.0[i])
    ensures r.1 != [] ==> !IsDigit(r.1[0])
  {
    if s != [] && IsDigit(s[0]) then
      var (d, rest) := SplitCount(s[1..]);
      assert s == [s[0]] + s[1..];
      ([s[0]] + d, rest)
    else ([], s)
  }

  function ParseItems(s: string): (r: Result<seq<Item>>)
    ensures r.Ok? ==> forall i :: 0 <= i < |r.value| ==> IsCode(r.value[i].code)
    decreases |s|
  {
    if s == [] then Ok([])
    else if s[0] == ' ' then ParseItems(s[1..])
    else
      var (digits, rest) := SplitCount(s);
      if rest == [] || !IsCode(rest[0]) then Err(StructError)
      else
        var count := if digits == [] then 1 else ParseDecimal(digits);
        var tail :- ParseItems(rest[1..]);
        Ok([Item(count, rest[0])] + tail)
  }

  /** Parse a format string; a bad code or a dangling count is `struct.error`. */
  function ParseFormat(fmt: string): (r: Result<Format>)
    ensures r.Ok? ==> ValidCodes(r.value)
  {
    if fmt != [] && (fmt[0] == '@' || fmt[0] == '=' || fmt[0] == '<' || fmt[0] == '>' || fmt[0] == '!') then
      var items :- ParseItems(fmt[1..]);
      Ok(Format(if fmt[0] == '>' || fmt[0] == '!' then Big else Little, items))
    else
      var items :- ParseItems(fmt);
      Ok(Format(Little, items))
  }

  function LittleEndian(b: seq<byte>): nat
  {
    if b == [] then 0 else b[0] as nat + 0x100 * LittleEndian(b[1..])
  }

  function BigEndian(b: seq<byte>): nat
  {
    if b == [] then 0 else 0x100 * BigEndian(b[..|b| - 1]) + b[|b| - 1] as nat
  }

  lemma {:induction false} LittleEndianBound(b: seq<byte>)
    ensures LittleEndian(b) < Pow2(8 * |b|)
  {
    if b != [] {
      LittleEndianBound(b[1..]);
      Pow2Add(8, 8 * (|b| - 1));
      assert Pow2(8) == 0x100;
    }
  }

  lemma {:induction false} BigEndianBound(b: seq<byte>)
    ensures BigEndian(b) < Pow2(8 * |b|)
  {
    if b != [] {
      BigEndianBound(b[..|b| - 1]);
      Pow2Add(8, 8 * (|b| - 1));
      assert Pow2(8) == 0x100;
    }
  }

  function Unsigned(b: seq<byte>, order: Order): (r: nat)
    ensures r < Pow2(8 * |b|)
  {
    if order == Little then LittleEndianBound(b); LittleEndian(b)
    else BigEndianBound(b); BigEndian(b)
  }

  /** One value of a (non-string, non-padding) code from exactly CodeSize bytes. */
  function DecodeOne(code: char, b: seq<byte>, order: Order): Value
    requires |b| == CodeSize(code) && |b| >= 1
  {
    var u := Unsigned(b, order);
    if code == '?' then Bool(u != 0)
    else if code == 'c' then Str(b)
    else if code == 'e' || code == 'f' || code == 'd' then RawFloat(b)
    else if code == 'b' || code == 'h' || code == 'i' || code == 'l' || code == 'q' then Int(Signed(u, 8 * |b|))
    else Int(u)
  }

  function DecodeRepeated(code: char, b: seq<byte>, n: nat, order: Order): (r: seq<Value>)
    requires IsCode(code) && |b| == n * CodeSize(code)
    ensures |r| == n
  {
    if n == 0 then []
    else
      var k := CodeSize(code);
      [DecodeOne(code, b[..k], order)] + DecodeRepeated(code, b[k..], n - 1, order)
  }

  function DecodeItems(items: seq<Item>, b: seq<byte>, order: Order): (r: seq<Value>)
    requires forall i :: 0 <= i < |items| ==> IsCode(items[i].code)
    requires |b| == ItemsSize(items)
    ensures |r| == NumValues(items)
  {
    if items == [] then []
    else
      var it := items[0];
      var k := it.count * CodeSize(it.code);
      var here :=
        if it.code == 's' then [Str(b[..k])]
        else if it.code == 'x' then []
        else DecodeRepeated(it.code, b[..k], it.count, order);
      here + DecodeItems(items[1..], b[k..], order)
  }

  predicate ValidCodes(f: Format)
  {
    forall i :: 0 <= i < |f.items| ==> IsCode(f.items[i].code)
  }

  /** `struct.unpack_from(f, buf, offset)`: struct.error when the buffer is short. */
  function UnpackFrom(f: Format, buf: seq<byte>, offset: nat): (r: Result<seq<Value>>)
    requires ValidCodes(f)
    ensures r.Ok? <==> offset + CalcSize(f) <= |buf|
    ensures r.Ok? ==> |r.value| == NumValues(f.items)
  {
    if offset + CalcSize(f) <= |buf| then
      Ok(DecodeItems(f.items, buf[offset..offset + CalcSize(f)], f.order))
    else Err(StructError)
  }

  /** `struct.unpack(f, data)`: the data must be exactly `calcsize(f)` bytes long. */
  function Unpack(f: Format, data: seq<byte>): (r: Result<seq<Value>>)
    requires ValidCodes(f)
    ensures r.Ok? <==> |data| == CalcSize(f)
    ensures r.Ok? ==> |r.value| == NumValues(f.items)
  {
    if |data| == CalcSize(f) then UnpackFrom(f, data, 0) else Err(StructError)
  }

  lemma LittleEndianStep(b: seq<byte>)
    requires b != []
    ensures LittleEndian(b) == b[0] as nat + 0x100 * LittleEndian(b[1..])
  {
  }

  /** A format of one code with no count parses to that single item. */
  lemma ParseSingle(fmt: string, c: char)
    requires IsCode(c) && !IsDigit(c) && c != ' '
    requires fmt == [c] || fmt == ['<', c]
    ensures ParseFormat(fmt) == Ok(Format(Little, [Item(1, c)]))
  {
    var body := [c];
    assert body[1..] == [];
    assert SplitCount(body) == ([], body);
    assert body[0] == c && !IsDigit(body[0]);
    assert ParseItems(body[1..]) == Ok([]);
    assert [Item(1, c)] + [] == [Item(1, c)];
    assert ParseItems(body) == Ok([Item(1, c)]);
    if fmt == ['<', c] {
      assert fmt[1..] == body;
    }
  }

  /** One unsigned code of `n` bytes unpacks to the little-endian value of its bytes. */
  lemma UnpackSingle(c: char, buf: seq<byte>, offset: nat)
    requires c == 'B' || c == 'H' || c == 'I' || c == 'L' || c == 'Q'
    requires offset + CodeSize(c) <= |buf|
    ensures CalcSize(Format(Little, [Item(1, c)])) == CodeSize(c)
    ensures var r := UnpackFrom(Format(Little, [Item(1, c)]), buf, offset);
      r.Ok? && r.value == [Int(LittleEndian(buf[offset..offset + CodeSize(c)]))]
  {
    var items := [Item(1, c)];
    assert items[1..] == [];
    assert ItemsSize(items) == CodeSize(c);
    DecodeSingle(c, buf[offset..offset + CodeSize(c)]);
  }

  /** A code that is none of the signed, boolean, character or float codes
      decodes to the unsigned little-endian value of its bytes. */
  lemma DecodeUnsigned(c: char, b: seq<byte>)
    requires |b| == CodeSize(c) && |b| >= 1
    requires c != '?' && c != 'c' && c != 'e' && c != 'f' && c != 'd'
    requires c != 'b' && c != 'h' && c != 'i' && c != 'l' && c != 'q'
    ensures DecodeOne(c, b, Little) == Int(LittleEndian(b))
  {
  }

  /** The bytes of one unsigned code decode to their little-endian value. */
  lemma DecodeSingle(c: char, b: seq<byte>)
    requires IsCode(c) && c != 's' && c != 'x'
    requires c != '?' && c != 'c' && c != 'e' && c != 'f' && c != 'd'
    requires c != 'b' && c != 'h' && c != 'i' && c != 'l' && c != 'q'
    requires |b| == CodeSize(c)
    ensures ItemsSize([Item(1, c)]) == CodeSize(c)
    ensures DecodeItems([Item(1, c)], b, Little) == [Int(LittleEndian(b))]
  {
    var items := [Item(1, c)];
    var k := CodeSize(c);
    assert items[1..] == [];
    assert b[..k] == b && b[k..] == [];
    assert DecodeItems(items[1..], b[k..], Little) == [];
    assert DecodeRepeated(c, b[k..], 0, Little) == [];
    DecodeUnsigned(c, b);
    assert DecodeRepeated(c, b, 1, Little) == [DecodeOne(c, b, Little)];
  }

  /** `"<H"` (and `"H"`) is one little-endian unsigned 16-bit value. */
  lemma UnpackU16(fmt: string, buf: seq<byte>, offset: nat)
    requires fmt == "<H" || fmt == "H"
    requires offset + 2 <= |buf|
    ensures ParseFormat(fmt) == Ok(Format(Little, [Item(1, 'H')]))
    ensures UnpackFrom(Format(Little, [Item(1, 'H')]), buf, offset) == Ok([Int(U16LE(buf, offset))])
  {
    ParseSingle(fmt, 'H');
    UnpackSingle('H', buf, offset);
    var b := buf[offset..offset + 2];
    LittleEndianStep(b);
    LittleEndianStep(b[1..]);
    assert b[1..][1..] == [];
  }

  /** `"<I"` (and `"I"`) is one little-endian unsigned 32-bit value. */
  lemma UnpackU32(fmt: string, buf: seq<byte>, offset: nat)
    requires fmt == "<I" || fmt == "I"
    requires offset + 4 <= |buf|
    ensures ParseFormat(fmt) == Ok(Format(Little, [Item(1, 'I')]))
    ensures UnpackFrom(Format(Little, [Item(1, 'I')]), buf, offset) == Ok([Int(U32LE(buf, offset))])
  {
    ParseSingle(fmt, 'I');
    UnpackSingle('I', buf, offset);
    var b := buf[offset..offset + 4];
    LittleEndianStep(b);
    LittleEndianStep(b[1..]);
    LittleEndianStep(b[1..][1..]);
    LittleEndianStep(b[1..][1..][1..]);
    assert b[1..][1..][1..][1..] == [];
  }
}
