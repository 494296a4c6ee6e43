/** The CRC-32 used to hash AAMP parameter names: the table-driven algorithm of
    section 8 of RFC 1952 (reflected polynomial 0xEDB88320, register preset to
    all ones, result complemented). The Python code works on unbounded ints and
    masks with 0xFFFFFFFF; every value it produces is below 2^32, so the register
    and the table entries are `bv32` here and that bound is a fact of their type. */
module Checksums {
  import opened Bytes
  import opened Unicode

  /** The reflected CRC-32 polynomial. */
  const POLY: bv32 := 0xEDB8_8320

  /** One step of the table construction: shift right, xor in the polynomial
      when the bit shifted out was set. */
  function Shift(t: bv32): bv32
  {
    if t & 1 == 1 then (t >> 1) ^ POLY else t >> 1
  }

  /** `n` steps of `Shift` applied to `t`. */
  function Shifts(t: bv32, n: nat): bv32
    decreases n
  {
    if n == 0 then t else Shifts(Shift(t), n - 1)
  }

  /** The table index `i` as a register value. */
  function Seed(i: int): bv32
    requires 0 <= i < 256
  {
    (i as bv8) as bv32
  }

  /** Table entry `i`: `i` after eight shift/xor steps. */
  function Entry(i: int): bv32
    requires 0 <= i < 256
  {
    Shifts(Seed(i), 8)
  }

  /** The table, entries 0 to 255. */
  function Table(): (t: seq<bv32>)
    ensures |t| == 256
  {
    seq(256, i requires 0 <= i < 256 => Entry(i))
  }

  /** The table index the low byte of the register and the next byte select. */
  function Index(crc: bv32, b: byte): bv8
  {
    ((crc & 0xFF) as bv8) ^ (b as bv8)
  }

  /** The register after one more byte, looked up in `table`. */
  function Update(table: seq<bv32>, crc: bv32, b: byte): bv32
    requires |table| == 256
  {
    (crc >> 8) ^ table[Index(crc, b) as int]
  }

  /** The register after a whole byte string, starting from `crc`. */
  function Register(table: seq<bv32>, crc: bv32, data: seq<byte>): bv32
    requires |table| == 256
    decreases |data|
  {
    if data == [] then crc else Register(table, Update(table, crc, data[0]), data[1..])
  }

  /** The CRC-32 of a byte string. */
  function Crc(data: seq<byte>): bv32
  {
    !Register(Table(), 0xFFFF_FFFF, data)
  }

  /** Builds the 256-entry table, each entry by eight shift/xor steps; the
      source's `genTable` is a generator whose output it keeps as a list. */
  method GenTable() returns (table: seq<bv32>)
    ensures table == Table()
  {
    table := [];
    var i := 0;
    while i < 256
      invariant 0 <= i <= 256
      invariant table == Table()[..i]
    {
      var temp := Seed(i);
      var j := 8;
      while j > 0
        invariant 0 <= j <= 8
        invariant Shifts(temp, j) == Entry(i)
      {
        temp := Shift(temp);
        j := j - 1;
      }
      TableGrows(i, temp);
      table := table + [temp];
      i := i + 1;
    }
  }

  /** The entry the inner loop of `GenTable` computed is the next entry of the table. */
  lemma TableGrows(i: int, temp: bv32)
    requires 0 <= i < 256
    requires Shifts(temp, 0) == Entry(i)
    ensures Table()[..i + 1] == Table()[..i] + [temp]
  {
    var t := Table();
    assert t[i] == Entry(i);
    assert temp == t[i];
    Snoc(t, i);
  }

  lemma Snoc<T>(s: seq<T>, i: nat)
    requires i < |s|
    ensures s[..i + 1] == s[..i] + [s[i]]
  {
  }

  /** What `crc32` accepts: bytes, or a str that it encodes as UTF-8 first. */
  datatype Data = Raw(bytes: seq<byte>) | Str(text: string)

  /** The bytes that are hashed. */
  function Encoded(d: Data): seq<byte>
  {
    match d
    case Raw(b) => b
    case Str(s) => Utf8(s)
  }

  /** `crc32(data)`: the register starts at all ones, takes one table step per
      byte and is complemented at the end; `table` is the module's table. */
  method Crc32(table: seq<bv32>, data: Data) returns (r: bv32)
    requires table == Table()
    ensures r == Crc(Encoded(data))
  {
    var bytes := if data.Str? then Utf8(data.text) else data.bytes;
    var crc: bv32 := 0xFFFF_FFFF;
    var k := 0;
    while k < |bytes|
      invariant 0 <= k <= |bytes|
      invariant Register(table, 0xFFFF_FFFF, bytes) == Register(table, crc, bytes[k..])
    {
      RegisterStep(table, crc, bytes, k);
      crc := Update(table, crc, bytes[k]);
      k := k + 1;
    }
    assert bytes[k..] == [];
    r := !crc;
  }

  /** Taking one byte off the front of the remaining input. */
  lemma RegisterStep(table: seq<bv32>, crc: bv32, data: seq<byte>, k: nat)
    requires |table| == 256
    requires k < |data|
    ensures Register(table, crc, data[k..]) == Register(table, Update(table, crc, data[k]), data[k + 1..])
  {
    assert data[k..][1..] == data[k + 1..];
  }

  /** The CRC of empty input is 0: the preset register complemented. */
  lemma EmptyCrc()
    ensures Crc([]) == 0
    ensures forall t: bv32 :: Register(Table(), t, []) == t
  {
  }

  /** The register after `a + b` is the register after `a` continued over `b`. */
  lemma {:induction false} RegisterAppend(table: seq<bv32>, crc: bv32, a: seq<byte>, b: seq<byte>)
    requires |table| == 256
    ensures Register(table, crc, a + b) == Register(table, Register(table, crc, a), b)
    decreases |a|
  {
    if a == [] {
      assert a + b == b;
    } else {
      assert (a + b)[1..] == a[1..] + b;
      RegisterAppend(table, Update(table, crc, a[0]), a[1..], b);
    }
  }

  /** A str is hashed as its UTF-8 bytes, so a str and its encoding agree. */
  lemma StrIsItsEncoding(s: string)
    ensures Crc(Encoded(Str(s))) == Crc(Encoded(Raw(Utf8(s))))
    ensures (forall i :: 0 <= i < |s| ==> s[i] as int < 0x80) ==> Encoded(Str(s)) == Ascii(s)
  {
    if forall i :: 0 <= i < |s| ==> s[i] as int < 0x80 {
      AsciiUtf8(s);
    }
  }

  // The standard check value: the nine digits "123456789" hash to 0xCBF43926.
  // Each lemma below takes the register over one digit.

  lemma CheckStep1()
    ensures Update(Table(), 0xFFFF_FFFF, 0x31) == 0x7C23_1048
  {
    assert Table()[0xCE] == Entry(0xCE);
    assert Entry(0xCE) == 0x7CDC_EFB7;
  }

  lemma CheckStep2()
    ensures Update(Table(), 0x7C23_1048, 0x32) == 0xB0AC_BB32
  {
    assert Table()[0x7A] == Entry(0x7A);
    assert Entry(0x7A) == 0xB0D0_9822;
  }

  lemma CheckStep3()
    ensures Update(Table(), 0xB0AC_BB32, 0x33) == 0x77B7_9C2D
  {
    assert Table()[0x01] == Entry(0x01);
    assert Entry(0x01) == 0x7707_3096;
  }

  lemma CheckStep4()
    ensures Update(Table(), 0x77B7_9C2D, 0x34) == 0x641C_1F5C
  {
    assert Table()[0x19] == Entry(0x19);
    assert Entry(0x19) == 0x646B_A8C0;
  }

  lemma CheckStep5()
    ensures Update(Table(), 0x641C_1F5C, 0x35) == 0x340A_C5E3
  {
    assert Table()[0x69] == Entry(0x69);
    assert Entry(0x69) == 0x346E_D9FC;
  }

  lemma CheckStep6()
    ensures Update(Table(), 0x340A_C5E3, 0x36) == 0xF68D_2C9E
  {
    assert Table()[0xD5] == Entry(0xD5);
    assert Entry(0xD5) == 0xF6B9_265B;
  }

  lemma CheckStep7()
    ensures Update(Table(), 0xF68D_2C9E, 0x37) == 0xAFFC_9660
  {
    assert Table()[0xA9] == Entry(0xA9);
    assert Entry(0xA9) == 0xAF0A_1B4C;
  }

  lemma CheckStep8()
    ensures Update(Table(), 0xAFFC_9660, 0x38) == 0x651F_2550
  {
    assert Table()[0x58] == Entry(0x58);
    assert Entry(0x58) == 0x65B0_D9C6;
  }

  lemma CheckStep9()
    ensures Update(Table(), 0x651F_2550, 0x39) == 0x340B_C6D9
  {
    assert Table()[0x69] == Entry(0x69);
    assert Entry(0x69) == 0x346E_D9FC;
  }

  /** crc32(b'123456789') == 0xCBF43926, the check value of the standard CRC-32. */
  lemma CheckValue(data: seq<byte>)
    requires data == [0x31, 0x32, 0x33, 0x34, 0x35, 0x36, 0x37, 0x38, 0x39]
    ensures Crc(data) == 0xCBF4_3926
  {
    var t := Table();
    assert data[0..] == data;
    RegisterStep(t, 0xFFFF_FFFF, data, 0);
    CheckStep1();
    RegisterStep(t, 0x7C23_1048, data, 1);
    CheckStep2();
    RegisterStep(t, 0xB0AC_BB32, data, 2);
    CheckStep3();
    RegisterStep(t, 0x77B7_9C2D, data, 3);
    CheckStep4();
    RegisterStep(t, 0x641C_1F5C, data, 4);
    CheckStep5();
    RegisterStep(t, 0x340A_C5E3, data, 5);
    CheckStep6();
    RegisterStep(t, 0xF68D_2C9E, data, 6);
    CheckStep7();
    RegisterStep(t, 0xAFFC_9660, data, 7);
    CheckStep8();
    RegisterStep(t, 0x651F_2550, data, 8);
    CheckStep9();
    assert data[9..] == [];
  }

  /** The str "123456789" is ASCII, so it hashes like its bytes. */
  lemma CheckValueStr(s: string)
    requires s == "123456789"
    ensures Crc(Encoded(Str(s))) == 0xCBF4_3926
  {
    AsciiUtf8(s);
    var data := Ascii(s);
    assert data == [0x31, 0x32, 0x33, 0x34, 0x35, 0x36, 0x37, 0x38, 0x39];
    CheckValue(data);
  }
}
