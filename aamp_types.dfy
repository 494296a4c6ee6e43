/** The AAMP value types (`codec/aamp/aamp/types.py`, with an identical
    registry in `aamp2xml/aamp/types.py`): a global table from type id to a
    name and a reader, filled by `defType`, and the readers it holds. */
module AampTypes {
  import opened Wrappers
  import opened Bytes
  import opened ByteSource
  import StructFormat

  /** The reader functions the module defines: `Bool`, `String` and the
      closure `VecF(n)`. */
  datatype Callable = BoolFn | StringFn | VecFn(n: nat)

  /** The `fmt` argument of `defType`: a struct format string, a callable, or
      anything else. */
  datatype TypeArg = FormatArg(fmt: string) | CallableArg(fn: Callable) | Uncallable

  /** How a registered type reads: unpacking one struct format, or calling a
      reader function. */
  datatype Reader = Unpacker(f: StructFormat.Format) | Call(fn: Callable)

  datatype TypeDef = TypeDef(name: string, read: Reader)

  /** A value read from a file. Floating-point values keep their raw bytes and
      strings stay undecoded. */
  datatype Data =
    | Scalar(value: StructFormat.Value)
    | Flag(b: bool)
    | Text(bytes: seq<byte>)
    | Floats(bits: seq<byte>)

  /** What `defType(id, fmt, name)` stores for `fmt`: a format string is
      measured with `calcsize`, which raises struct.error for a bad one; an
      argument that is neither a string nor callable is a TypeError. */
  function ReaderFor(fmt: TypeArg): (r: Result<Reader>)
    ensures fmt.Uncallable? ==> r == Err(TypeError)
    ensures fmt.CallableArg? ==> r == Ok(Call(fmt.fn))
    ensures fmt.FormatArg? ==> (r.Ok? <==> StructFormat.ParseFormat(fmt.fmt).Ok?)
  {
    match fmt
    case FormatArg(s) =>
      var f :- StructFormat.ParseFormat(s);
      Ok(Unpacker(f))
    case CallableArg(fn) => Ok(Call(fn))
    case Uncallable => Err(TypeError)
  }

  /** The module-level `aamp_data_type` dict. */
  class Registry {
    var types: map<nat, TypeDef>

    constructor()
      ensures types == map[]
    {
      types := map[];
    }

    /** `defType(id, fmt, name)`: register (or re-register) a type; a rejected
        `fmt` leaves the table as it was. */
    method DefType(id: nat, fmt: TypeArg, name: string) returns (r: Result<()>)
      modifies this
      ensures r.Ok? <==> ReaderFor(fmt).Ok?
      ensures r.Err? ==> r.error == ReaderFor(fmt).error && types == old(types)
      ensures r.Ok? ==> types == old(types)[id := TypeDef(name, ReaderFor(fmt).value)]
    {
      var read := ReaderFor(fmt);
      if read.Err? {
        return Err(read.error);
      }
      types := types[id := TypeDef(name, read.value)];
      r := Ok(());
    }
  }

  const FLOAT: StructFormat.Format := StructFormat.Format(StructFormat.Little, [StructFormat.Item(1, 'f')])
  const INT: StructFormat.Format := StructFormat.Format(StructFormat.Little, [StructFormat.Item(1, 'I')])

  /** The table once the module has been imported. */
  function Builtin(): map<nat, TypeDef>
  {
    map[0x00 := TypeDef("bool", Call(BoolFn)),
        0x01 := TypeDef("float", Unpacker(FLOAT)),
        0x02 := TypeDef("int", Unpacker(INT)),
        0x03 := TypeDef("Vec2f", Call(VecFn(2))),
        0x04 := TypeDef("Vec3f", Call(VecFn(3))),
        0x06 := TypeDef("Vec4f", Call(VecFn(4))),
        0x07 := TypeDef("string", Call(StringFn)),
        0x08 := TypeDef("actor", Call(StringFn)),
        0x14 := TypeDef("string2", Call(StringFn))]
  }

  /** The registered ids are exactly 0x00-0x04, 0x06-0x08 and 0x14; 0x05 is not
      one of them. */
  lemma BuiltinIds()
    ensures Builtin().Keys == {0x00, 0x01, 0x02, 0x03, 0x04, 0x06, 0x07, 0x08, 0x14}
    ensures 0x05 !in Builtin()
  {
  }

  /** The `defType` calls run at import time. */
  method InitRegistry() returns (reg: Registry)
    ensures fresh(reg)
    ensures reg.types == Builtin()
  {
    reg := new Registry();
    StructFormat.ParseSingle("f", 'f');
    StructFormat.ParseSingle("I", 'I');
    var r;
    r := reg.DefType(0x00, CallableArg(BoolFn), "bool");
    r := reg.DefType(0x01, FormatArg("f"), "float");
    r := reg.DefType(0x02, FormatArg("I"), "int");
    r := reg.DefType(0x03, CallableArg(VecFn(2)), "Vec2f");
    r := reg.DefType(0x04, CallableArg(VecFn(3)), "Vec3f");
    r := reg.DefType(0x06, CallableArg(VecFn(4)), "Vec4f");
    r := reg.DefType(0x07, CallableArg(StringFn), "string");
    r := reg.DefType(0x08, CallableArg(StringFn), "actor");
    r := reg.DefType(0x14, CallableArg(StringFn), "string2");
  }

  /** One read by `reader` at `pos`, and the position after it. */
  function Read(reader: Reader, data: seq<byte>, pos: nat): (r: (Result<Data>, nat))
  {
    match reader
    case Unpacker(f) =>
      var b := ReadSlice(data, pos, StructFormat.CalcSize(f));
      if !StructFormat.ValidCodes(f) then (Err(StructError), pos + |b|)
      else
        var vs := StructFormat.Unpack(f, b);
        if vs.Err? then (Err(vs.error), pos + |b|)
        else if |vs.value| == 0 then (Err(IndexError), pos + |b|)
        else (Ok(Scalar(vs.value[0])), pos + |b|)
    case Call(BoolFn) =>
      var b := ReadSlice(data, pos, 4);
      (Ok(Flag(b != [0, 0, 0, 0])), pos + |b|)
    case Call(StringFn) =>
      var s := CString(data, pos);
      if s.Err? then (Err(s.error), pos) else (Ok(Text(s.value)), pos + |s.value| + 1)
    case Call(VecFn(n)) =>
      var b := ReadSlice(data, pos, 4 * n);
      if |b| == 4 * n then (Ok(Floats(b)), pos + |b|) else (Err(StructError), pos + |b|)
  }

  /** `read_aamp_type(file, typ)`: an id that is not registered is a TypeError. */
  function ReadType(types: map<nat, TypeDef>, data: seq<byte>, pos: nat, typ: nat): (r: (Result<Data>, nat))
    ensures typ !in types ==> r.0 == Err(TypeError)
    ensures typ in types ==> r == Read(types[typ].read, data, pos)
  {
    if typ !in types then (Err(TypeError), pos) else Read(types[typ].read, data, pos)
  }

  /** `get_type_name(typ)`. */
  function TypeName(types: map<nat, TypeDef>, typ: nat): (r: Result<string>)
    ensures r.Ok? <==> typ in types
    ensures r.Ok? ==> r.value == types[typ].name
    ensures r.Err? ==> r.error == TypeError
  {
    if typ !in types then Err(TypeError) else Ok(types[typ].name)
  }

  /** Both lookups reject the same ids: exactly those never registered. */
  lemma UnknownIdRejected(types: map<nat, TypeDef>, data: seq<byte>, pos: nat, typ: nat)
    ensures ReadType(types, data, pos, typ).0 == Err(TypeError) <==> TypeName(types, typ).Err?
  {
    if typ in types {
      ReadErrors(types[typ].read, data, pos);
    }
  }

  /** No reader fails with TypeError. */
  lemma ReadErrors(reader: Reader, data: seq<byte>, pos: nat)
    ensures Read(reader, data, pos).0.Err? ==> Read(reader, data, pos).0.error != TypeError
  {
    if reader.Unpacker? && StructFormat.ValidCodes(reader.f) {
      var b := ReadSlice(data, pos, StructFormat.CalcSize(reader.f));
      if StructFormat.Unpack(reader.f, b).Err? {
        UnpackError(reader.f, b);
      }
    } else if reader == Call(StringFn) {
      CStringError(data, pos);
    }
  }

  lemma UnpackError(f: StructFormat.Format, b: seq<byte>)
    requires StructFormat.ValidCodes(f) && StructFormat.Unpack(f, b).Err?
    ensures StructFormat.Unpack(f, b).error == StructError
  {
  }

  lemma {:induction false} CStringError(data: seq<byte>, pos: nat)
    ensures CString(data, pos).Err? ==> CString(data, pos).error == NoTerminator
    decreases |data| - pos
  {
    if pos < |data| && data[pos] != 0 {
      CStringError(data, pos + 1);
    }
  }

  /** `Bool` consumes four bytes and is true unless all four are zero; at the
      end of the file fewer come back, which also counts as true. */
  lemma BoolRead(data: seq<byte>, pos: nat)
    ensures var (r, after) := Read(Call(BoolFn), data, pos);
      r.Ok? && r.value.Flag? &&
      (r.value.b <==> pos + 4 > |data| || exists i :: pos <= i < pos + 4 && data[i] != 0) &&
      (pos + 4 <= |data| ==> after == pos + 4)
  {
    var b := ReadSlice(data, pos, 4);
    if pos + 4 <= |data| {
      assert b == data[pos..pos + 4];
      if b != [0, 0, 0, 0] {
        var i :| 0 <= i < 4 && b[i] != 0;
        assert data[pos + i] == b[i];
      } else {
        forall i | pos <= i < pos + 4 ensures data[i] == 0 {
          assert data[i] == b[i - pos];
        }
      }
    }
  }

  /** `String` returns the bytes before the first NUL and leaves the file just
      past that NUL; with no NUL left it never returns. */
  lemma StringRead(data: seq<byte>, pos: nat)
    ensures Read(Call(StringFn), data, pos).0.Ok? <==> exists k :: pos <= k < |data| && data[k] == 0
    ensures Read(Call(StringFn), data, pos).0.Err? ==> Read(Call(StringFn), data, pos).0.error == NoTerminator
    ensures Read(Call(StringFn), data, pos).0.Ok? ==>
      var s := Read(Call(StringFn), data, pos).0.value.bytes;
      var after := Read(Call(StringFn), data, pos).1;
      after == pos + |s| + 1 && after <= |data| && data[after - 1] == 0 && s == data[pos..after - 1] &&
      (forall i :: 0 <= i < |s| ==> s[i] != 0)
  {
    CStringShape(data, pos);
    CStringError(data, pos);
  }

  /** Type 0x02 reads one little-endian u32, or fails with struct.error when
      fewer than four bytes are left. */
  lemma IntRead(data: seq<byte>, pos: nat)
    ensures ReadType(Builtin(), data, pos, 0x02).0.Ok? <==> pos + 4 <= |data|
    ensures ReadType(Builtin(), data, pos, 0x02).0.Err? ==> ReadType(Builtin(), data, pos, 0x02).0.error == StructError
    ensures pos + 4 <= |data| ==>
      ReadType(Builtin(), data, pos, 0x02) == (Ok(Scalar(StructFormat.Int(U32LE(data, pos)))), pos + 4)
  {
    assert Builtin()[0x02].read == Unpacker(INT);
    assert StructFormat.CalcSize(INT) == 4 by {
      assert INT.items[1..] == [];
    }
    var b := ReadSlice(data, pos, 4);
    if pos + 4 <= |data| {
      assert b == data[pos..pos + 4];
      StructFormat.UnpackU32("I", b, 0);
      assert U32LE(b, 0) == U32LE(data, pos);
    }
  }

  /** `String` on a file object: read one byte at a time until a NUL. At the
      end of the file `read(1)` returns b'' and the loop would never stop. */
  method ReadString(file: BinFile) returns (r: Result<seq<byte>>)
    modifies file
    ensures r == CString(file.data, old(file.pos))
    ensures r.Ok? ==> file.pos == old(file.pos) + |r.value| + 1
  {
    var res: seq<byte> := [];
    ghost var start := file.pos;
    PrefixedEmpty(CString(file.data, start));
    while true
      invariant file.pos == start + |res|
      invariant CString(file.data, start) == Prefixed(res, CString(file.data, file.pos))
      decreases if file.pos <= |file.data| then |file.data| - file.pos else 0
    {
      ghost var at := file.pos;
      var b := file.Read(1);
      if b == [] {
        assert at >= |file.data|;
        return Err(NoTerminator);
      }
      assert b == [file.data[at]];
      if b == [0] {
        assert res + [] == res;
        break;
      }
      assert CString(file.data, at) == Prefixed(b, CString(file.data, file.pos));
      PrefixedAppend(res, b, CString(file.data, file.pos));
      res := res + b;
    }
    r := Ok(res);
  }

  lemma PrefixedEmpty(r: Result<seq<byte>>)
    ensures Prefixed([], r) == r
  {
    if r.Ok? {
      assert [] + r.value == r.value;
    }
  }

  lemma PrefixedAppend(p: seq<byte>, q: seq<byte>, r: Result<seq<byte>>)
    ensures Prefixed(p, Prefixed(q, r)) == Prefixed(p + q, r)
  {
    if r.Ok? {
      assert p + (q + r.value) == (p + q) + r.value;
    }
  }

  /** `prefix` in front of a successful read. */
  function Prefixed(prefix: seq<byte>, r: Result<seq<byte>>): Result<seq<byte>>
  {
    if r.Ok? then Ok(prefix + r.value) else r
  }

  /** `read_aamp_type(file, typ)` on a file object. */
  method ReadAampType(file: BinFile, reg: Registry, typ: nat) returns (r: Result<Data>)
    modifies file
    ensures r == ReadType(reg.types, file.data, old(file.pos), typ).0
    ensures r.Ok? ==> file.pos == ReadType(reg.types, file.data, old(file.pos), typ).1
  {
    if typ !in reg.types {
      return Err(TypeError);
    }
    match reg.types[typ].read
    case Unpacker(f) =>
      var b := file.Read(StructFormat.CalcSize(f));
      if !StructFormat.ValidCodes(f) {
        return Err(StructError);
      }
      var vs := StructFormat.Unpack(f, b);
      if vs.Err? {
        return Err(vs.error);
      }
      if |vs.value| == 0 {
        return Err(IndexError);
      }
      r := Ok(Scalar(vs.value[0]));
    case Call(BoolFn) =>
      var b := file.Read(4);
      r := Ok(Flag(b != [0, 0, 0, 0]));
    case Call(StringFn) =>
      var s := ReadString(file);
      if s.Err? {
        return Err(s.error);
      }
      r := Ok(Text(s.value));
    case Call(VecFn(n)) =>
      var b := file.Read(4 * n);
      if |b| != 4 * n {
        return Err(StructError);
      }
      r := Ok(Floats(b));
  }
}
