/** The field types of the binary-resource records: offsets, offsets to
    strings, padding and bit flags. Two copies of these types exist, a general
    one and one for the FRES model format; they differ in that the FRES copy has
    no `tostring` and its padding check refers to a logger it never defines. */
module FieldTypes {
  import opened Wrappers
  import opened Bytes
  import opened StructFormat
  import opened ByteSource
  import FileReaders
  import StructReaders
  import BinaryObjects

  // ---------------------------------------------------------------------------
  // Offsets

  /** `Offset` (a 32-bit offset) and `Offset64`. */
  datatype OffsetKind = Offset32 | Offset64

  /** The class's `fmt`. */
  function OffsetFormat(k: OffsetKind): string
  {
    if k.Offset32? then "I" else "Q"
  }

  /** The class's `size`. */
  function OffsetSize(k: OffsetKind): nat
  {
    if k.Offset32? then 4 else 8
  }

  /** The declared size of each offset type is the size of its format. */
  lemma OffsetSizeAgrees(k: OffsetKind)
    ensures ParseFormat(OffsetFormat(k)).Ok?
    ensures CalcSize(ParseFormat(OffsetFormat(k)).value) == OffsetSize(k)
  {
    var c := if k.Offset32? then 'I' else 'Q';
    ParseSingle(OffsetFormat(k), c);
    var items := [Item(1, c)];
    assert items[1..] == [];
    assert ItemsSize(items) == CodeSize(c) + ItemsSize(items[1..]);
  }

  /** `BaseType.read`: `struct.unpack_from(fmt, buffer, offset)`. An offset is
      the little-endian unsigned integer in the `size` bytes at `offset`; a
      short buffer is a struct.error. */
  function ReadOffset(k: OffsetKind, buf: seq<byte>, offset: nat): (r: Result<seq<Value>>)
    ensures r.Ok? <==> offset + OffsetSize(k) <= |buf|
    ensures r.Ok? ==> r.value == [Int(LittleEndian(buf[offset..offset + OffsetSize(k)]))]
    ensures r.Ok? && k.Offset32? ==> r.value == [Int(U32LE(buf, offset))]
  {
    OffsetSizeAgrees(k);
    OffsetUnpacks(k, buf, offset);
    UnpackFrom(ParseFormat(OffsetFormat(k)).value, buf, offset)
  }

  lemma OffsetUnpacks(k: OffsetKind, buf: seq<byte>, offset: nat)
    ensures ParseFormat(OffsetFormat(k)).Ok?
    ensures var c := if k.Offset32? then 'I' else 'Q';
      ParseFormat(OffsetFormat(k)) == Ok(Format(Little, [Item(1, c)])) &&
      (offset + OffsetSize(k) <= |buf| ==>
        UnpackFrom(Format(Little, [Item(1, c)]), buf, offset) ==
          Ok([Int(LittleEndian(buf[offset..offset + OffsetSize(k)]))]))
    ensures k.Offset32? && offset + 4 <= |buf| ==>
      UnpackFrom(Format(Little, [Item(1, 'I')]), buf, offset) == Ok([Int(U32LE(buf, offset))])
  {
    var c := if k.Offset32? then 'I' else 'Q';
    ParseSingle(OffsetFormat(k), c);
    if offset + OffsetSize(k) <= |buf| {
      UnpackSingle(c, buf, offset);
      if k.Offset32? {
        UnpackU32("I", buf, offset);
      }
    }
  }

  /** `Offset.tostring`: `'%10d (%08X)' % (val, val)`, the same text as a
      32-bit field's display. `Offset64` inherits it. */
  function OffsetText(v: int): string
  {
    BinaryObjects.Render(BinaryObjects.Word, v)
  }

  /** Both numbers in an offset's text denote the offset: the text is a
      decimal right-aligned in ten columns, then a hexadecimal of at least
      eight digits in parentheses. */
  lemma OffsetTextShowsValue(v: nat)
    ensures var p := PercentD(v, 10); var h := Hex(v, 8);
      OffsetText(v) == p + " (" + h + ")" && |p| >= 10 && |h| >= 8 &&
      ShowsDecimal(p, v) && ParseHex(h) == v
  {
    PercentDShowsValue(v, 10);
    HexRoundTrip(v, 8);
  }

  /** `p` is `str(v)` right-aligned with spaces. */
  predicate ShowsDecimal(p: string, v: nat)
  {
    |p| >= |Decimal(v)| && ParseDecimal(p[|p| - |Decimal(v)|..]) == v &&
    forall i :: 0 <= i < |p| - |Decimal(v)| ==> p[i] == ' '
  }

  lemma PercentDShowsValue(v: nat, width: nat)
    ensures ShowsDecimal(PercentD(v, width), v)
  {
    DecimalRoundTrip(v);
    var d := Decimal(v);
    var p := PercentD(v, width);
    assert p == PadLeft(d, width);
    assert p[|p| - |d|..] == d;
  }

  /** What a `StrOffs` field holds when shown: the string it was replaced with,
      the raw offset, or undecoded bytes (when the field has no encoding). */
  datatype Shown = ResolvedText(text: string) | RawOffset(n: int) | Undecoded(bytes: seq<byte>)

  /** `StrOffs.tostring`: a resolved string in double quotes, otherwise the
      offset text. Undecoded bytes reach `'%10d'`, which is a TypeError. */
  function StrOffsText(v: Shown): (r: Result<string>)
    ensures r.Err? <==> v.Undecoded?
    ensures r.Err? ==> r.error == TypeError
    ensures v.ResolvedText? ==> (|r.value| == |v.text| + 2 && r.value[0] == '"' &&
      r.value[|r.value| - 1] == '"' && r.value[1..|r.value| - 1] == v.text)
    ensures v.RawOffset? ==> r.value == OffsetText(v.n)
  {
    match v
    case ResolvedText(t) =>
      var q := "\"" + t + "\"";
      assert q[1..|q| - 1] == t;
      Ok(q)
    case RawOffset(n) => Ok(OffsetText(n))
    case Undecoded(_) => Err(TypeError)
  }

  // ---------------------------------------------------------------------------
  // Offsets to strings

  /** How the string an offset points to is delimited: by a NUL, by a fixed
      length, or by a length read with a struct format before it. */
  datatype Length = NulTerminated | FixedLength(n: int) | LengthPrefixed(fmt: string)

  /** A `StrOffs` field: its name, how its string is delimited and the
      encoding the bytes are decoded with (none keeps the bytes). */
  datatype StrOffs = StrOffs(name: string, length: Length, encoding: Option<string>)

  /** `StrOffs(name)` with the defaults: a little-endian 16-bit length prefix and
      shift-jis. */
  function DefaultStrOffs(name: string): (s: StrOffs)
    ensures s.name == name && s.length == LengthPrefixed("<H") && s.encoding == Some("shift-jis")
  {
    StrOffs(name, LengthPrefixed("<H"), Some("shift-jis"))
  }

  /** A string read by `readStr`: the bytes, and the encoding they are decoded
      with when there is one. The decoding itself is not modelled. */
  datatype Text = RawText(bytes: seq<byte>) | Decoded(bytes: seq<byte>, encoding: string)

  /** The bytes the string reading of `readStr` finds at `start`, and where it
      leaves the file. */
  function StringAt(data: seq<byte>, start: nat, length: Length): (Result<seq<byte>>, nat)
  {
    match length
    case NulTerminated =>
      (match CString(data, start)
       case Ok(s) => (Ok(s), start + |s| + 1)
       case Err(e) => (Err(e), if start < |data| then |data| else start))
    case FixedLength(n) => (Ok(ReadSlice(data, start, n)), Advance(data, start, n))
    case LengthPrefixed(fmt) => StructReaders.WithLengthSpec(data, start, fmt, None)
  }

  /** `readStr(file, offset)` on a file positioned at `pos`: remember the
      position, seek to `offset`, read the string, decode it when the field has
      an encoding, and seek back. When it succeeds the position is where it was
      on entry; a failure leaves it wherever the failing step did. */
  function ReadStrSpec(data: seq<byte>, pos: nat, s: StrOffs, offset: int): (r: (Result<Text>, nat))
    ensures r.0.Ok? ==> r.1 == pos
    ensures r.0.Ok? <==> offset >= 0 && StringAt(data, offset, s.length).0.Ok?
    ensures r.0.Ok? ==> r.0.value.bytes == StringAt(data, offset, s.length).0.value
    ensures r.0.Ok? ==> (r.0.value.Decoded? <==> s.encoding.Some?)
    ensures r.0.Ok? && s.encoding.Some? ==> r.0.value.encoding == s.encoding.value
  {
    var sought := SeekTarget(|data|, pos, offset, Code(0));
    if sought.Err? then (Err(sought.error), pos)
    else
      var (raw, after) := StringAt(data, sought.value, s.length);
      if raw.Err? then (Err(raw.error), after)
      else
        var text := if s.encoding.Some? then Decoded(raw.value, s.encoding.value) else RawText(raw.value);
        (Ok(text), pos)
  }

  /** A NUL-terminated field reads the bytes up to the first NUL after the
      offset, which must exist. */
  lemma NulTerminatedField(data: seq<byte>, pos: nat, name: string, offset: nat)
    ensures var r := ReadStrSpec(data, pos, StrOffs(name, NulTerminated, None), offset);
      (r.0.Ok? <==> exists k :: offset <= k < |data| && data[k] == 0) &&
      (r.0.Ok? ==> r.0.value == RawText(CString(data, offset).value))
  {
    CStringShape(data, offset);
  }

  /** With the default delimiting, the string is the `n` bytes after a
      little-endian 16-bit length `n` at the offset, decoded as shift-jis, and
      the file position is unchanged. */
  lemma DefaultReadsCountedString(data: seq<byte>, pos: nat, name: string, offset: nat)
    requires offset + 2 <= |data| && offset + 2 + U16LE(data, offset) <= |data|
    ensures ReadStrSpec(data, pos, DefaultStrOffs(name), offset) ==
      (Ok(Decoded(data[offset + 2..offset + 2 + U16LE(data, offset)], "shift-jis")), pos)
  {
    StructReaders.WithLengthU16(data, offset);
  }

  /** One `file.read(n)` on a `FileReader`: the bytes `read(n)` of the
      underlying file returns. */
  lemma SingleRawRead(data: seq<byte>, pos: nat, n: int)
    ensures FileReaders.ReadSpec(data, pos, FileReaders.Count(n), None, 1) ==
      (Ok(FileReaders.One(FileReaders.Raw(ReadSlice(data, pos, n)))), Advance(data, pos, n))
  {
    var it := FileReaders.Raw(ReadSlice(data, pos, n));
    assert [it] + [] == [it];
  }

  /** `StrOffs.readStr(file, offset)` on a `FileReader`. */
  method ReadStr(file: FileReaders.FileReader, s: StrOffs, offset: int) returns (r: Result<Text>)
    modifies file
    ensures (r, file.pos) == ReadStrSpec(file.data, old(file.pos), s, offset)
  {
    var pos := file.Tell();
    var sought := file.Seek(offset, Code(0));
    if sought.Err? {
      return Err(sought.error);
    }
    var raw: seq<byte>;
    match s.length {
      case NulTerminated =>
        var str := file.ReadUntilNul();
        if str.Err? {
          return Err(str.error);
        }
        raw := str.value;
      case FixedLength(n) =>
        SingleRawRead(file.data, file.pos, n);
        var got := file.Read(FileReaders.Count(n), None, 1);
        raw := got.value.item.bytes;
      case LengthPrefixed(fmt) =>
        var str := StructReaders.ReadStringWithLength(file, fmt, None);
        if str.Err? {
          return Err(str.error);
        }
        raw := str.value;
    }
    var text := if s.encoding.Some? then Decoded(raw, s.encoding.value) else RawText(raw);
    var back := file.Seek(pos, Code(0));
    return Ok(text);
  }

  // ---------------------------------------------------------------------------
  // Padding

  /** A padding field: a name unique to the instance, its size, and the
      format `'%dB' % size`. */
  datatype Padding = Padding(name: string, size: int, fmt: string)

  /** `Padding(size)` for an instance whose identity is `id`. */
  function NewPadding(size: int, id: nat): (p: Padding)
    ensures p.size == size
  {
    Padding("padding_" + Decimal(id), size, SignedDecimal(size) + "B")
  }

  /** Two padding instances never share a name. */
  lemma PaddingNamesUnique(size1: int, id1: nat, size2: int, id2: nat)
    requires id1 != id2
    ensures NewPadding(size1, id1).name != NewPadding(size2, id2).name
  {
    var a := NewPadding(size1, id1).name;
    var b := NewPadding(size2, id2).name;
    if a == b {
      assert a[8..] == Decimal(id1) && b[8..] == Decimal(id2);
      DecimalInjective(id1, id2);
    }
  }

  /** A padding field's format covers exactly `size` bytes. */
  lemma PaddingFormatSize(size: nat, id: nat)
    ensures ParseFormat(NewPadding(size, id).fmt) == Ok(Format(Little, [Item(size, 'B')]))
    ensures CalcSize(Format(Little, [Item(size, 'B')])) == size
  {
    var fmt := NewPadding(size, id).fmt;
    assert fmt == Decimal(size) + ['B'];
    CountedItem(size, 'B');
    assert '0' <= fmt[0] <= '9';
    var items := [Item(size, 'B')];
    assert items[1..] == [];
    assert ItemsSize(items) == size * CodeSize('B') + ItemsSize([]);
  }

  /** A decimal count followed by a type code parses to one counted item. */
  lemma CountedItem(n: nat, c: char)
    requires IsCode(c) && !IsDigit(c)
    ensures ParseItems(Decimal(n) + [c]) == Ok([Item(n, c)])
  {
    var d := Decimal(n);
    var s := d + [c];
    BinaryObjects.CountSplit(s, |d|);
    assert s[..|d|] == d && s[|d|..] == [c];
    DecimalRoundTrip(n);
    assert s[0] == d[0];
    LastItem(s, d, c);
  }

  /** A format that is a count and then its last type code parses to that one item. */
  lemma LastItem(s: string, digits: string, c: char)
    requires s != [] && s[0] != ' ' && digits != [] && SplitCount(s) == (digits, [c]) && IsCode(c)
    ensures ParseItems(s) == Ok([Item(ParseDecimal(digits), c)])
  {
    assert [c][1..] == [];
    assert [Item(ParseDecimal(digits), c)] + [] == [Item(ParseDecimal(digits), c)];
  }

  /** One logged non-zero padding byte: its index within the padding (not its
      offset in the buffer) and its value. */
  datatype Logged = Logged(index: nat, value: byte)

  /** What `Padding.read` logs from index `i` on: every non-zero byte, in
      order. An index past the buffer is an IndexError. */
  function PaddingLog(buf: seq<byte>, offset: nat, size: int, i: nat): Result<seq<Logged>>
    decreases size - i
  {
    if i >= size then Ok([])
    else if offset + i >= |buf| then Err(IndexError)
    else
      var rest :- PaddingLog(buf, offset, size, i + 1);
      if buf[offset + i] != 0 then Ok([Logged(i, buf[offset + i])] + rest) else Ok(rest)
  }

  /** `log` names, in increasing order, exactly the non-zero bytes among indices
      `i` up to `size` of the padding at `offset`. */
  ghost predicate LogsNonZero(buf: seq<byte>, offset: nat, size: int, i: nat, log: seq<Logged>)
  {
    offset + size <= |buf| &&
    (forall k :: 0 <= k < |log| ==> i <= log[k].index < size && log[k].value == buf[offset + log[k].index]) &&
    (forall k, m :: 0 <= k < m < |log| ==> log[k].index < log[m].index) &&
    (forall j :: i <= j < size ==> (j in LoggedAt(log) <==> buf[offset + j] != 0))
  }

  /** The indices a log names. */
  function LoggedAt(log: seq<Logged>): set<nat>
  {
    set k | 0 <= k < |log| :: log[k].index
  }

  /** The padding check fails only by running off the buffer. */
  lemma {:induction false} PaddingLogOk(buf: seq<byte>, offset: nat, size: int, i: nat)
    ensures PaddingLog(buf, offset, size, i).Ok? <==> i >= size || offset + size <= |buf|
    decreases size - i
  {
    if i < size && offset + i < |buf| {
      PaddingLogOk(buf, offset, size, i + 1);
    }
  }

  /** It logs exactly the non-zero bytes, in order. */
  lemma {:induction false} PaddingLogExact(buf: seq<byte>, offset: nat, size: int, i: nat)
    requires i < size && PaddingLog(buf, offset, size, i).Ok?
    ensures LogsNonZero(buf, offset, size, i, PaddingLog(buf, offset, size, i).value)
    decreases size - i
  {
    PaddingLogOk(buf, offset, size, i);
    var rest := PaddingLog(buf, offset, size, i + 1).value;
    if i + 1 < size {
      PaddingLogExact(buf, offset, size, i + 1);
    } else {
      assert rest == [] && LoggedAt(rest) == {};
    }
    if buf[offset + i] != 0 {
      LogNonZero(buf, offset, size, i, rest);
    } else {
      LogZero(buf, offset, size, i, rest);
    }
  }

  /** The scan's step over a non-zero byte: it is logged before the rest. */
  lemma LogNonZero(buf: seq<byte>, offset: nat, size: int, i: nat, rest: seq<Logged>)
    requires i < size && offset + size <= |buf| && buf[offset + i] != 0
    requires LogsNonZero(buf, offset, size, i + 1, rest) || (i + 1 == size && rest == [])
    ensures LogsNonZero(buf, offset, size, i, [Logged(i, buf[offset + i])] + rest)
  {
    var log := [Logged(i, buf[offset + i])] + rest;
    LoggedAtCons(Logged(i, buf[offset + i]), rest);
    assert forall k :: 1 <= k < |log| ==> log[k] == rest[k - 1];
  }

  /** The scan's step over a zero byte: nothing is logged for it. */
  lemma LogZero(buf: seq<byte>, offset: nat, size: int, i: nat, rest: seq<Logged>)
    requires i < size && offset + size <= |buf| && buf[offset + i] == 0
    requires LogsNonZero(buf, offset, size, i + 1, rest) || (i + 1 == size && rest == [])
    ensures LogsNonZero(buf, offset, size, i, rest)
  {
    assert i !in LoggedAt(rest);
  }

  lemma LoggedAtCons(e: Logged, rest: seq<Logged>)
    ensures LoggedAt([e] + rest) == {e.index} + LoggedAt(rest)
    ensures forall k :: 1 <= k < |rest| + 1 ==> ([e] + rest)[k] == rest[k - 1]
  {
    var log := [e] + rest;
    forall j | j in LoggedAt(log) ensures j in {e.index} + LoggedAt(rest) {
      var k :| 0 <= k < |log| && log[k].index == j;
      if k > 0 {
        assert rest[k - 1].index == j;
      }
    }
    forall j | j in LoggedAt(rest) ensures j in LoggedAt(log) {
      var k :| 0 <= k < |rest| && rest[k].index == j;
      assert log[k + 1].index == j;
    }
    assert log[0].index == e.index;
  }

  /** `log` with the outcome of the rest of the scan. */
  function AppendLog(log: seq<Logged>, rest: Result<seq<Logged>>): Result<seq<Logged>>
  {
    if rest.Ok? then Ok(log + rest.value) else rest
  }

  /** `Padding.read(buffer, offset)` of the general field types: inspect each
      byte and log the non-zero ones; the field's value is None. The messages
      logged are returned. */
  method ReadPadding(buf: seq<byte>, offset: nat, size: int) returns (r: Result<seq<Logged>>)
    ensures r == PaddingLog(buf, offset, size, 0)
  {
    var log: seq<Logged> := [];
    var i: nat := 0;
    assert AppendLog([], PaddingLog(buf, offset, size, 0)) == PaddingLog(buf, offset, size, 0) by {
      if PaddingLog(buf, offset, size, 0).Ok? {
        assert [] + PaddingLog(buf, offset, size, 0).value == PaddingLog(buf, offset, size, 0).value;
      }
    }
    while i < size
      invariant PaddingLog(buf, offset, size, 0) == AppendLog(log, PaddingLog(buf, offset, size, i))
      decreases size - i
    {
      if offset + i >= |buf| {
        return Err(IndexError);
      }
      var rest := PaddingLog(buf, offset, size, i + 1);
      if buf[offset + i] != 0 {
        if rest.Ok? {
          assert log + ([Logged(i, buf[offset + i])] + rest.value) == (log + [Logged(i, buf[offset + i])]) + rest.value;
        }
        log := log + [Logged(i, buf[offset + i])];
      }
      i := i + 1;
    }
    assert log + [] == log;
    return Ok(log);
  }

  /** The FRES copy of `Padding.read`: the first non-zero byte reaches the
      undefined logger, a NameError. */
  function FresPaddingCheck(buf: seq<byte>, offset: nat, size: int, i: nat): Result<()>
    decreases size - i
  {
    if i >= size then Ok(())
    else if offset + i >= |buf| then Err(IndexError)
    else if buf[offset + i] != 0 then Err(NameError)
    else FresPaddingCheck(buf, offset, size, i + 1)
  }

  /** The FRES padding check passes exactly when the general one logs nothing,
      and a logged byte there is a NameError here. */
  lemma {:induction false} FresPaddingAgrees(buf: seq<byte>, offset: nat, size: int, i: nat)
    ensures FresPaddingCheck(buf, offset, size, i).Ok? <==> PaddingLog(buf, offset, size, i) == Ok([])
    ensures PaddingLog(buf, offset, size, i).Ok? && PaddingLog(buf, offset, size, i).value != [] ==>
      FresPaddingCheck(buf, offset, size, i) == Err(NameError)
    decreases size - i
  {
    if i < size && offset + i < |buf| {
      FresPaddingAgrees(buf, offset, size, i + 1);
      var rest := PaddingLog(buf, offset, size, i + 1);
      if buf[offset + i] != 0 && rest.Ok? {
        assert PaddingLog(buf, offset, size, i).value[0] == Logged(i, buf[offset + i]);
      }
    }
  }

  /** `Padding.read` of the FRES field types. */
  method ReadFresPadding(buf: seq<byte>, offset: nat, size: int) returns (r: Result<()>)
    ensures r == FresPaddingCheck(buf, offset, size, 0)
  {
    var i: nat := 0;
    while i < size
      invariant FresPaddingCheck(buf, offset, size, 0) == FresPaddingCheck(buf, offset, size, i)
      decreases size - i
    {
      if offset + i >= |buf| {
        return Err(IndexError);
      }
      if buf[offset + i] != 0 {
        return Err(NameError);
      }
      i := i + 1;
    }
    return Ok(());
  }

  // ---------------------------------------------------------------------------
  // Flags

  /** Python's `a & m` for an integer `a` and a non-negative mask `m`: only the
      bits of `m` matter, and `a` agrees with `a % 2^m` on all of them. */
  function IntAnd(a: int, m: nat): (r: nat)
    ensures r <= m
  {
    if a >= 0 then BitAnd(a, m) else BitAnd(a % Pow2(m), m)
  }

  /** The entries of a `Flags` result: the raw value, or whether a flag is set. */
  datatype FlagValue = RawValue(v: Value) | IsSet(on: bool)

  /** The integer `&` sees for an unpacked value; bytes and floats have none. */
  function AsInt(v: Value): Option<int>
  {
    match v
    case Int(i) => Some(i)
    case Bool(b) => Some(if b then 1 else 0)
    case _ => None
  }

  /** The first value `struct.unpack_from(fmt, buf, offset)` yields, if it yields one. */
  function FirstValue(fmt: string, buf: seq<byte>, offset: nat): Option<Value>
  {
    var f := ParseFormat(fmt);
    if f.Err? then None
    else
      var vs := UnpackFrom(f.value, buf, offset);
      if vs.Err? || |vs.value| == 0 then None else Some(vs.value[0])
  }

  /** The dict `Flags.read` builds from the unpacked value `raw`: `_raw` maps to
      `raw` and every flag name to whether all the bits of its mask are set in
      it. A flag named `_raw` replaces the raw value. */
  function FlagMap(raw: Value, flags: map<string, nat>): (m: map<string, FlagValue>)
    requires |flags| > 0 ==> AsInt(raw).Some?
    ensures m.Keys == flags.Keys + {"_raw"}
    ensures forall name :: name in flags ==>
      m[name] == IsSet(IntAnd(AsInt(raw).value, flags[name]) == flags[name])
    ensures "_raw" !in flags ==> m["_raw"] == RawValue(raw)
  {
    if |flags| == 0 then map["_raw" := RawValue(raw)]
    else map["_raw" := RawValue(raw)] + FlagsSet(AsInt(raw).value, flags)
  }

  /** Every flag name mapped to whether all the bits of its mask are set in `val`. */
  function FlagsSet(val: int, flags: map<string, nat>): (m: map<string, FlagValue>)
    ensures m.Keys == flags.Keys
    ensures forall name :: name in flags ==> m[name] == IsSet(IntAnd(val, flags[name]) == flags[name])
  {
    map name | name in flags :: IsSet(IntAnd(val, flags[name]) == flags[name])
  }

  /** `Flags.read`: unpack the first value of `fmt` at `offset` and build the
      flag dict from it. A format without values is an IndexError; `&` on a
      value that is not an integer is a TypeError, raised only when there is a
      flag to test. */
  function ReadFlags(fmt: string, flags: map<string, nat>, buf: seq<byte>, offset: nat)
    : (r: Result<map<string, FlagValue>>)
    ensures r.Ok? <==> (FirstValue(fmt, buf, offset).Some?
                        && (|flags| > 0 ==> AsInt(FirstValue(fmt, buf, offset).value).Some?))
    ensures r.Ok? ==> r.value == FlagMap(FirstValue(fmt, buf, offset).value, flags)
  {
    var f :- ParseFormat(fmt);
    var vs :- UnpackFrom(f, buf, offset);
    if |vs| == 0 then Err(IndexError)
    else if |flags| > 0 && AsInt(vs[0]).None? then Err(TypeError)
    else Ok(FlagMap(vs[0], flags))
  }

  /** A flag whose mask is zero is always set. */
  lemma ZeroMaskIsSet(a: int)
    ensures IntAnd(a, 0) == 0
  {
  }

  /** Bit `k` of a non-negative integer, counting from the least significant. */
  function Bit(v: nat, k: nat): (b: nat)
    ensures b <= 1
  {
    if k == 0 then v % 2 else Bit(v / 2, k - 1)
  }

  /** `v & 2^k` keeps bit `k` of `v` and clears the rest. */
  lemma {:induction false} SingleBitMask(v: nat, k: nat)
    ensures BitAnd(v, Pow2(k)) == Pow2(k) * Bit(v, k)
    decreases k
  {
    if k == 0 {
      if v != 0 {
        assert BitAnd(v / 2, 0) == 0;
      }
    } else {
      SingleBitMask(v / 2, k - 1);
      var p := Pow2(k - 1);
      var b := Bit(v / 2, k - 1);
      assert Pow2(k) == 2 * p;
      assert (2 * p) / 2 == p && (2 * p) % 2 == 0;
      assert BitAnd(v, 2 * p) == 2 * BitAnd(v / 2, p);
      assert Bit(v, k) == b;
      assert 2 * (p * b) == (2 * p) * b;
    }
  }

  /** A flag with mask `2^k` reports bit `k` of a non-negative value. */
  lemma SingleBitFlag(v: nat, k: nat)
    ensures IntAnd(v, Pow2(k)) == Pow2(k) <==> Bit(v, k) == 1
  {
    SingleBitMask(v, k);
  }
}
