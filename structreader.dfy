/** Named binary records (structreader/__init__.py): a field table whose offsets
    are the running sum of the field sizes, unpacking a record from a buffer or
    a file, and the two string readers built on a file. */
module StructReaders {
  import opened Wrappers
  import opened Bytes
  import opened StructFormat
  import opened ByteSource
  import FileReaders
  import CodecFileReaders

  /** A field's type: a struct format string, or a type object carrying a `fmt`. */
  datatype FieldType = Packed(fmt: string) | Delegate(fmt: string)

  /** One `(format, name)` pair of a record definition. */
  datatype FieldDef = FieldDef(typ: FieldType, name: string)

  /** An entry of the field table: name, size, offset and type. */
  datatype Field = Field(name: string, size: nat, offset: nat, typ: FieldType)

  /** `struct.calcsize` of the field's format. */
  function FieldSize(t: FieldType): (r: Result<nat>)
    ensures r.Ok? <==> ParseFormat(t.fmt).Ok?
    ensures r.Ok? ==> r.value == CalcSize(ParseFormat(t.fmt).value)
  {
    var f :- ParseFormat(t.fmt);
    Ok(CalcSize(f))
  }

  function DuplicateMessage(name: string): string
  {
    "Duplicate field name '" + name + "'"
  }

  /** The constructor's loop from `defs` on, at running offset `offset`, with the
      names in `seen` already taken, where `size` gives a field type's size:
      the size is computed first (a bad format is a struct.error), then a taken
      name fails the assertion. */
  function LayoutWith(defs: seq<FieldDef>, size: FieldType -> Result<nat>, offset: nat, seen: set<string>)
    : Result<seq<Field>>
    decreases |defs|
  {
    if defs == [] then Ok([])
    else
      var n :- size(defs[0].typ);
      if defs[0].name in seen then Err(AssertionFailed(DuplicateMessage(defs[0].name)))
      else
        var rest :- LayoutWith(defs[1..], size, offset + n, seen + {defs[0].name});
        Ok([Field(defs[0].name, n, offset, defs[0].typ)] + rest)
  }

  /** The field table of a record definition. */
  function Layout(defs: seq<FieldDef>): Result<seq<Field>>
  {
    LayoutWith(defs, FieldSize, 0, {})
  }

  /** The sum of the field sizes. */
  function TotalSize(fields: seq<Field>): nat
  {
    if fields == [] then 0 else TotalSize(fields[..|fields| - 1]) + fields[|fields| - 1].size
  }

  predicate NamesDistinct(defs: seq<FieldDef>)
  {
    forall i, j :: 0 <= i < j < |defs| ==> defs[i].name != defs[j].name
  }

  predicate Sizable(defs: seq<FieldDef>, size: FieldType -> Result<nat>)
  {
    forall i :: 0 <= i < |defs| ==> size(defs[i].typ).Ok?
  }

  /** Field `i` of the table describes definition `i`, at `base` plus the sizes
      of the fields before it. */
  predicate Describes(fields: seq<Field>, defs: seq<FieldDef>, size: FieldType -> Result<nat>, base: nat)
  {
    |fields| == |defs| &&
    forall i :: 0 <= i < |fields| ==>
      fields[i].name == defs[i].name && fields[i].typ == defs[i].typ &&
      size(defs[i].typ) == Ok(fields[i].size) &&
      fields[i].offset == base + TotalSize(fields[..i])
  }

  lemma TotalSizeCons(f: Field, rest: seq<Field>)
    ensures TotalSize([f] + rest) == f.size + TotalSize(rest)
    decreases |rest|
  {
    if rest != [] {
      assert ([f] + rest)[..|rest|] == [f] + rest[..|rest| - 1];
      TotalSizeCons(f, rest[..|rest| - 1]);
    }
  }

  /** The names a loop round may still add: none repeats, and none is taken. */
  predicate Fresh(defs: seq<FieldDef>, seen: set<string>)
  {
    NamesDistinct(defs) && forall i :: 0 <= i < |defs| ==> defs[i].name !in seen
  }

  lemma FreshCons(defs: seq<FieldDef>, seen: set<string>)
    requires defs != []
    ensures Fresh(defs, seen) <==> defs[0].name !in seen && Fresh(defs[1..], seen + {defs[0].name})
  {
    if defs[0].name !in seen && Fresh(defs[1..], seen + {defs[0].name}) {
      forall i, j | 0 <= i < j < |defs| ensures defs[i].name != defs[j].name {
        if i > 0 {
          assert defs[i].name == defs[1..][i - 1].name && defs[j].name == defs[1..][j - 1].name;
        } else {
          assert defs[j].name == defs[1..][j - 1].name;
        }
      }
    }
    if Fresh(defs, seen) {
      forall i | 0 <= i < |defs[1..]| ensures defs[1..][i].name !in seen + {defs[0].name} {
        assert defs[1..][i] == defs[i + 1];
      }
    }
  }

  lemma SizableCons(defs: seq<FieldDef>, size: FieldType -> Result<nat>)
    requires defs != []
    ensures Sizable(defs, size) <==> size(defs[0].typ).Ok? && Sizable(defs[1..], size)
  {
    if size(defs[0].typ).Ok? && Sizable(defs[1..], size) {
      forall i | 0 < i < |defs| ensures size(defs[i].typ).Ok? {
        assert defs[i] == defs[1..][i - 1];
      }
    }
  }

  /** The table exists exactly when every size is defined and no name repeats
      or is already taken. */
  lemma {:induction false} LayoutWithOk(defs: seq<FieldDef>, size: FieldType -> Result<nat>, offset: nat,
                                        seen: set<string>)
    ensures LayoutWith(defs, size, offset, seen).Ok? <==> Sizable(defs, size) && Fresh(defs, seen)
    decreases |defs|
  {
    if defs != [] {
      var d := defs[0];
      FreshCons(defs, seen);
      SizableCons(defs, size);
      if size(d.typ).Ok? && d.name !in seen {
        LayoutWithOk(defs[1..], size, offset + size(d.typ).value, seen + {d.name});
      }
    }
  }

  /** Field `i` of the table describes definition `i`, its offset the running
      sum of the sizes before it. */
  lemma {:induction false} LayoutWithDescribes(defs: seq<FieldDef>, size: FieldType -> Result<nat>,
                                               offset: nat, seen: set<string>)
    requires LayoutWith(defs, size, offset, seen).Ok?
    ensures Describes(LayoutWith(defs, size, offset, seen).value, defs, size, offset)
    decreases |defs|
  {
    if defs != [] {
      var d := defs[0];
      var n := size(d.typ).value;
      var r := LayoutWith(defs[1..], size, offset + n, seen + {d.name}).value;
      LayoutWithDescribes(defs[1..], size, offset + n, seen + {d.name});
      var f := Field(d.name, n, offset, d.typ);
      var all := [f] + r;
      assert all == LayoutWith(defs, size, offset, seen).value;
      forall i | 0 <= i < |all|
        ensures all[i].name == defs[i].name && all[i].typ == defs[i].typ
        ensures size(defs[i].typ) == Ok(all[i].size)
        ensures all[i].offset == offset + TotalSize(all[..i])
      {
        if i > 0 {
          assert all[i] == r[i - 1] && defs[i] == defs[1..][i - 1];
          assert all[..i] == [f] + r[..i - 1];
          TotalSizeCons(f, r[..i - 1]);
        }
      }
    }
  }

  /** A record definition has a field table exactly when every format is a
      valid struct format and no two fields share a name. */
  lemma LayoutOk(defs: seq<FieldDef>)
    ensures Layout(defs).Ok? <==>
      (forall i :: 0 <= i < |defs| ==> ParseFormat(defs[i].typ.fmt).Ok?) && NamesDistinct(defs)
  {
    LayoutWithOk(defs, FieldSize, 0, {});
  }

  /** Each entry of the table holds its field's name, type and `calcsize`, and
      its offset is the sum of the sizes of the fields before it. */
  lemma LayoutDescribes(defs: seq<FieldDef>)
    requires Layout(defs).Ok?
    ensures |Layout(defs).value| == |defs|
    ensures forall i :: 0 <= i < |defs| ==>
      var f := Layout(defs).value[i];
      f.name == defs[i].name && f.typ == defs[i].typ &&
      ParseFormat(defs[i].typ.fmt).Ok? && f.size == CalcSize(ParseFormat(defs[i].typ.fmt).value) &&
      f.offset == TotalSize(Layout(defs).value[..i])
  {
    LayoutWithDescribes(defs, FieldSize, 0, {});
  }

  /** One round of the constructor's loop. */
  lemma LayoutStep(defs: seq<FieldDef>, size: FieldType -> Result<nat>, offset: nat, seen: set<string>)
    requires defs != []
    ensures size(defs[0].typ).Err? ==> LayoutWith(defs, size, offset, seen) == Err(size(defs[0].typ).error)
    ensures size(defs[0].typ).Ok? && defs[0].name in seen ==>
      LayoutWith(defs, size, offset, seen) == Err(AssertionFailed(DuplicateMessage(defs[0].name)))
    ensures size(defs[0].typ).Ok? && defs[0].name !in seen ==>
      LayoutWith(defs, size, offset, seen) ==
      Prefixed([Field(defs[0].name, size(defs[0].typ).value, offset, defs[0].typ)],
               LayoutWith(defs[1..], size, offset + size(defs[0].typ).value, seen + {defs[0].name}))
  {
  }

  /** The constructor's loop invariant carries over a round that adds a field. */
  lemma AddFieldStep(defs: seq<FieldDef>, size: FieldType -> Result<nat>, i: nat, ordered: seq<Field>,
                     offset: nat, table: map<string, Field>, field: Field)
    requires i < |defs| && defs[i].name !in table
    requires size(defs[i].typ) == Ok(field.size) && field == Field(defs[i].name, field.size, offset, defs[i].typ)
    ensures Prefixed(ordered, LayoutWith(defs[i..], size, offset, table.Keys)) ==
      Prefixed(ordered + [field], LayoutWith(defs[i + 1..], size, offset + field.size, table[field.name := field].Keys))
  {
    var name := defs[i].name;
    assert defs[i..][1..] == defs[i + 1..] && defs[i..][0] == defs[i];
    var later := LayoutWith(defs[i + 1..], size, offset + field.size, table.Keys + {name});
    LayoutStep(defs[i..], size, offset, table.Keys);
    PrefixedTwice(ordered, [field], later);
    assert table[name := field].Keys == table.Keys + {name};
  }

  /** Adding a field to the end of the table. */
  lemma AppendField(ordered: seq<Field>, field: Field)
    ensures FieldMap(ordered + [field]) == FieldMap(ordered)[field.name := field]
    ensures TotalSize(ordered + [field]) == TotalSize(ordered) + field.size
  {
    assert (ordered + [field])[..|ordered|] == ordered;
  }

  /** The field table keyed by name, later fields added last. */
  function FieldMap(fields: seq<Field>): map<string, Field>
  {
    if fields == [] then map[]
    else FieldMap(fields[..|fields| - 1])[fields[|fields| - 1].name := fields[|fields| - 1]]
  }

  lemma {:induction false} FieldMapKeys(fields: seq<Field>)
    ensures FieldMap(fields).Keys == set f | f in fields :: f.name
    decreases |fields|
  {
    if fields != [] {
      var init := fields[..|fields| - 1];
      FieldMapKeys(init);
      assert fields == init + [fields[|fields| - 1]];
    }
  }

  /** The value of one field at `offset`: a one-value format unpacks to a
      scalar, a longer one to a tuple; a delegate type is a NameError, as it is
      called with the unbound name `file`. */
  function FieldValue(f: Field, buf: seq<byte>, offset: nat): (r: Result<FileReaders.Item>)
    ensures f.typ.Delegate? ==> r == Err(NameError)
  {
    match f.typ
    case Delegate(_) => Err(NameError)
    case Packed(fmt) =>
      var fm :- ParseFormat(fmt);
      var vs :- UnpackFrom(fm, buf, offset);
      Ok(FileReaders.Unwrap(vs))
  }

  /** `_unpack` from field `fields[0]` on at running offset `offset`, where
      `value` reads one field, with the values found so far in `acc`. */
  function UnpackWith(fields: seq<Field>, value: (Field, nat) -> Result<FileReaders.Item>, offset: nat,
                      acc: map<string, FileReaders.Item>): Result<map<string, FileReaders.Item>>
    decreases |fields|
  {
    if fields == [] then Ok(acc)
    else
      var v :- value(fields[0], offset);
      UnpackWith(fields[1..], value, offset + fields[0].size, acc[fields[0].name := v])
  }

  /** Reading fields from `buf`. */
  function FromBuffer(buf: seq<byte>): (Field, nat) -> Result<FileReaders.Item>
  {
    (f: Field, o: nat) => FieldValue(f, buf, o)
  }

  /** `_unpack(buf, offset)`. */
  function UnpackFields(fields: seq<Field>, buf: seq<byte>, offset: nat, acc: map<string, FileReaders.Item>)
    : Result<map<string, FileReaders.Item>>
  {
    UnpackWith(fields, FromBuffer(buf), offset, acc)
  }

  /** Every field's format is valid and its size is that format's size. */
  predicate Sized(fields: seq<Field>)
  {
    forall i :: 0 <= i < |fields| ==> FieldSize(fields[i].typ) == Ok(fields[i].size)
  }

  predicate AllPacked(fields: seq<Field>)
  {
    forall i :: 0 <= i < |fields| ==> fields[i].typ.Packed?
  }

  /** `value` reads a field exactly when it is packed and ends by `limit`. */
  ghost predicate ReadsWithin(fields: seq<Field>, value: (Field, nat) -> Result<FileReaders.Item>, limit: nat)
  {
    forall i, o: nat :: 0 <= i < |fields| ==>
      (value(fields[i], o).Ok? <==> fields[i].typ.Packed? && o + fields[i].size <= limit)
  }

  lemma ReadsWithinCons(fields: seq<Field>, value: (Field, nat) -> Result<FileReaders.Item>, limit: nat)
    requires fields != []
    ensures ReadsWithin(fields, value, limit) ==> ReadsWithin(fields[1..], value, limit)
    ensures AllPacked(fields) <==> fields[0].typ.Packed? && AllPacked(fields[1..])
  {
    if fields[0].typ.Packed? && AllPacked(fields[1..]) {
      forall i | 0 < i < |fields| ensures fields[i].typ.Packed? {
        assert fields[i] == fields[1..][i - 1];
      }
    }
    if ReadsWithin(fields, value, limit) {
      forall i, o: nat | 0 <= i < |fields[1..]|
        ensures value(fields[1..][i], o).Ok? <==> fields[1..][i].typ.Packed? && o + fields[1..][i].size <= limit
      {
        assert fields[1..][i] == fields[i + 1];
      }
    }
  }

  lemma {:induction false} UnpackWithOk(fields: seq<Field>, value: (Field, nat) -> Result<FileReaders.Item>,
                                        limit: nat, offset: nat, acc: map<string, FileReaders.Item>)
    requires ReadsWithin(fields, value, limit)
    ensures UnpackWith(fields, value, offset, acc).Ok? <==>
      AllPacked(fields) && (fields == [] || offset + TotalSize(fields) <= limit)
    decreases |fields|
  {
    if fields != [] {
      var f := fields[0];
      var rest := fields[1..];
      ReadsWithinCons(fields, value, limit);
      assert fields == [f] + rest;
      TotalSizeCons(f, rest);
      assert value(fields[0], offset).Ok? <==> f.typ.Packed? && offset + f.size <= limit;
      if value(f, offset).Ok? {
        UnpackWithOk(rest, value, limit, offset + f.size, acc[f.name := value(f, offset).value]);
      }
    }
  }

  /** An unpacked record has a value for every field of its table. */
  lemma {:induction false} UnpackWithKeys(fields: seq<Field>, value: (Field, nat) -> Result<FileReaders.Item>,
                                          offset: nat, acc: map<string, FileReaders.Item>)
    requires UnpackWith(fields, value, offset, acc).Ok?
    ensures UnpackWith(fields, value, offset, acc).value.Keys == acc.Keys + set f | f in fields :: f.name
    decreases |fields|
  {
    if fields != [] {
      var f := fields[0];
      UnpackWithKeys(fields[1..], value, offset + f.size, acc[f.name := value(f, offset).value]);
      assert fields == [f] + fields[1..];
      assert (set g | g in fields :: g.name) == {f.name} + set g | g in fields[1..] :: g.name;
    }
  }

  /** A packed field reads exactly when the buffer holds it from `offset`. */
  lemma FieldValueOk(f: Field, buf: seq<byte>, offset: nat)
    requires FieldSize(f.typ) == Ok(f.size)
    ensures FieldValue(f, buf, offset).Ok? <==> f.typ.Packed? && offset + f.size <= |buf|
  {
  }

  /** A record unpacks from `buf` exactly when it has no delegate field and the
      buffer holds all of it from `offset`; it then has every field's name. */
  lemma UnpackFieldsOk(fields: seq<Field>, buf: seq<byte>, offset: nat)
    requires Sized(fields)
    ensures UnpackFields(fields, buf, offset, map[]).Ok? <==>
      AllPacked(fields) && (fields == [] || offset + TotalSize(fields) <= |buf|)
    ensures UnpackFields(fields, buf, offset, map[]).Ok? ==>
      UnpackFields(fields, buf, offset, map[]).value.Keys == set f | f in fields :: f.name
  {
    forall i, o: nat | 0 <= i < |fields|
      ensures FromBuffer(buf)(fields[i], o).Ok? <==> fields[i].typ.Packed? && o + fields[i].size <= |buf|
    {
      FieldValueOk(fields[i], buf, o);
    }
    UnpackWithOk(fields, FromBuffer(buf), |buf|, offset, map[]);
    if UnpackFields(fields, buf, offset, map[]).Ok? {
      UnpackWithKeys(fields, FromBuffer(buf), offset, map[]);
    }
  }

  /** `StructReader`: the definition, the table by name and in order, and the
      record size. */
  class StructReader {
    const structDef: seq<FieldDef>
    const fields: map<string, Field>
    const orderedFields: seq<Field>
    const dataSize: nat

    constructor FromTable(defs: seq<FieldDef>, table: map<string, Field>, ordered: seq<Field>, size: nat)
      ensures structDef == defs && fields == table && orderedFields == ordered && dataSize == size
    {
      structDef := defs;
      fields := table;
      orderedFields := ordered;
      dataSize := size;
    }

    /** `StructReader(*structDef)`. */
    static method New(defs: seq<FieldDef>) returns (r: Result<StructReader>)
      ensures r.Ok? <==> Layout(defs).Ok?
      ensures r.Err? ==> r.error == Layout(defs).error
      ensures r.Ok? ==> fresh(r.value) && r.value.structDef == defs
      ensures r.Ok? ==> r.value.orderedFields == Layout(defs).value
      ensures r.Ok? ==> r.value.fields == FieldMap(r.value.orderedFields)
      ensures r.Ok? ==> r.value.dataSize == TotalSize(r.value.orderedFields)
    {
      r := Build(defs, FieldSize);
    }

    /** The constructor's loop, with `size` computing each field's size: walk
        the definition with a running offset. */
    static method Build(defs: seq<FieldDef>, size: FieldType -> Result<nat>) returns (r: Result<StructReader>)
      ensures r.Ok? <==> LayoutWith(defs, size, 0, {}).Ok?
      ensures r.Err? ==> r.error == LayoutWith(defs, size, 0, {}).error
      ensures r.Ok? ==> fresh(r.value) && r.value.structDef == defs
      ensures r.Ok? ==> r.value.orderedFields == LayoutWith(defs, size, 0, {}).value
      ensures r.Ok? ==> r.value.fields == FieldMap(r.value.orderedFields)
      ensures r.Ok? ==> r.value.dataSize == TotalSize(r.value.orderedFields)
    {
      var table: map<string, Field> := map[];
      var ordered: seq<Field> := [];
      var offset: nat := 0;
      var i := 0;
      ghost var whole := LayoutWith(defs, size, 0, {});
      assert defs[0..] == defs && table.Keys == {};
      if whole.Ok? {
        assert [] + whole.value == whole.value;
      }
      while i < |defs|
        invariant 0 <= i <= |defs|
        invariant table == FieldMap(ordered) && offset == TotalSize(ordered)
        invariant whole == Prefixed(ordered, LayoutWith(defs[i..], size, offset, table.Keys))
      {
        var n := size(defs[i].typ);
        assert defs[i..][0] == defs[i];
        LayoutStep(defs[i..], size, offset, table.Keys);
        if n.Err? {
          return Err(n.error);
        }
        var name := defs[i].name;
        if name in table {
          return Err(AssertionFailed(DuplicateMessage(name)));
        }
        var field := Field(name, n.value, offset, defs[i].typ);
        AddFieldStep(defs, size, i, ordered, offset, table, field);
        AppendField(ordered, field);
        table := table[name := field];
        ordered := ordered + [field];
        offset := offset + n.value;
        i := i + 1;
      }
      assert ordered + [] == ordered;
      var reader := new StructReader.FromTable(defs, table, ordered, offset);
      r := Ok(reader);
    }

    /** `_unpack(buf, offset)`: every field in order, the offset advancing by
        each field's size. */
    method Unpack(buf: seq<byte>, offset: nat) returns (r: Result<map<string, FileReaders.Item>>)
      ensures r == UnpackFields(orderedFields, buf, offset, map[])
    {
      var res: map<string, FileReaders.Item> := map[];
      var off: nat := offset;
      var i := 0;
      while i < |orderedFields|
        invariant 0 <= i <= |orderedFields|
        invariant UnpackFields(orderedFields, buf, offset, map[]) == UnpackWith(orderedFields[i..], FromBuffer(buf), off, res)
      {
        var f := orderedFields[i];
        assert orderedFields[i..] == [f] + orderedFields[i + 1..];
        var v := FieldValue(f, buf, off);
        if v.Err? {
          return Err(v.error);
        }
        res := res[f.name := v.value];
        off := off + f.size;
        i := i + 1;
      }
      return Ok(res);
    }

    /** `_unpackFromFile(file)`: read `_dataSize` bytes and unpack them. */
    method UnpackFromFile(file: BinFile) returns (r: Result<map<string, FileReaders.Item>>)
      modifies file
      ensures r == UnpackFields(orderedFields, ReadSlice(file.data, old(file.pos), dataSize), 0, map[])
      ensures file.pos == old(file.pos) + |ReadSlice(file.data, old(file.pos), dataSize)|
    {
      var buf := file.Read(dataSize);
      r := Unpack(buf, 0);
    }
  }

  /** `done` followed by what the rest of a loop produces. */
  function Prefixed(done: seq<Field>, rest: Result<seq<Field>>): Result<seq<Field>>
  {
    if rest.Err? then rest else Ok(done + rest.value)
  }

  lemma PrefixedTwice(a: seq<Field>, b: seq<Field>, rest: Result<seq<Field>>)
    ensures Prefixed(a, Prefixed(b, rest)) == Prefixed(a + b, rest)
  {
    if rest.Ok? {
      assert a + (b + rest.value) == (a + b) + rest.value;
    }
  }

  /** A record read from a file at `pos` whose table is `fields` and size
      `size`: the record's offset and its values, and where the file is left. */
  function RecordSpec(data: seq<byte>, pos: nat, fields: seq<Field>, size: nat, offset: Option<int>)
    : (Result<(nat, map<string, FileReaders.Item>)>, nat)
  {
    var sought := if offset.Some? then SeekTarget(|data|, pos, offset.value, Code(0)) else Ok(pos);
    if sought.Err? then (Err(sought.error), pos)
    else
      var start := sought.value;
      var buf := ReadSlice(data, start, size);
      var values := UnpackFields(fields, buf, 0, map[]);
      (if values.Err? then Err(values.error) else Ok((start, values.value)), start + |buf|)
  }

  /** `BinaryObject.readFromFile(file, offset, reader)`: seek when an offset is
      given, note the position, unpack the record there. The base `validate`
      accepts everything; each record type adds its own checks. */
  method ReadFromFile(file: BinFile, reader: StructReader, offset: Option<int>)
    returns (r: Result<(nat, map<string, FileReaders.Item>)>)
    modifies file
    ensures (r, file.pos) == RecordSpec(file.data, old(file.pos), reader.orderedFields, reader.dataSize, offset)
  {
    ghost var pos0 := file.pos;
    ghost var sought := if offset.Some? then SeekTarget(|file.data|, file.pos, offset.value, Code(0)) else Ok(file.pos);
    if offset.Some? {
      var s := file.Seek(offset.value, 0);
      if s.Err? {
        return Err(s.error);
      }
    }
    var start := file.Tell();
    assert sought == Ok(start);
    RecordSpecAt(file.data, pos0, reader.orderedFields, reader.dataSize, offset, start);
    var values := reader.UnpackFromFile(file);
    r := if values.Err? then Err(values.error) else Ok((start, values.value));
  }

  /** The record read once the seek has landed at `start`. */
  lemma RecordSpecAt(data: seq<byte>, pos: nat, fields: seq<Field>, size: nat, offset: Option<int>, start: nat)
    requires (if offset.Some? then SeekTarget(|data|, pos, offset.value, Code(0)) else Ok(pos)) == Ok(start)
    ensures RecordSpec(data, pos, fields, size, offset) ==
      (var values := UnpackFields(fields, ReadSlice(data, start, size), 0, map[]);
       (if values.Err? then Err(values.error) else Ok((start, values.value)), start + |ReadSlice(data, start, size)|))
  {
  }

  /** A record read from a file that holds all of it has every field of its table. */
  lemma RecordComplete(data: seq<byte>, pos: nat, defs: seq<FieldDef>)
    requires Layout(defs).Ok?
    requires forall i :: 0 <= i < |defs| ==> defs[i].typ.Packed?
    requires pos + TotalSize(Layout(defs).value) <= |data|
    ensures RecordSpec(data, pos, Layout(defs).value, TotalSize(Layout(defs).value), None).0.Ok?
    ensures RecordSpec(data, pos, Layout(defs).value, TotalSize(Layout(defs).value), None).0.value.0 == pos
    ensures RecordSpec(data, pos, Layout(defs).value, TotalSize(Layout(defs).value), None).1
      == pos + TotalSize(Layout(defs).value)
    ensures RecordSpec(data, pos, Layout(defs).value, TotalSize(Layout(defs).value), None).0.value.1.Keys
      == set i | 0 <= i < |defs| :: defs[i].name
  {
    var fields := Layout(defs).value;
    var size := TotalSize(fields);
    LayoutWithDescribes(defs, FieldSize, 0, {});
    assert Sized(fields) && AllPacked(fields);
    var buf := ReadSlice(data, pos, size);
    assert |buf| == size;
    UnpackFieldsOk(fields, buf, 0);
    NamesOfTable(fields, defs);
  }

  lemma NamesOfTable(fields: seq<Field>, defs: seq<FieldDef>)
    requires |fields| == |defs| && forall i :: 0 <= i < |fields| ==> fields[i].name == defs[i].name
    ensures (set f | f in fields :: f.name) == set i | 0 <= i < |defs| :: defs[i].name
  {
    var names := set f | f in fields :: f.name;
    forall n | n in names ensures n in set i | 0 <= i < |defs| :: defs[i].name {
      var k :| 0 <= k < |fields| && fields[k].name == n;
      assert defs[k].name == n;
    }
    forall i | 0 <= i < |defs| ensures defs[i].name in names {
      assert fields[i] in fields;
    }
  }

  /** `readString(file, maxlen)` on a file object: one byte per round; a NUL
      ends the string and is consumed; with no limit the loop never ends at
      the end of the file. */
  method ReadString(file: BinFile, maxlen: Option<int>) returns (r: Result<seq<byte>>)
    modifies file
    ensures (r, file.pos) == CodecFileReaders.ReadStringSpec(file.data, old(file.pos), None, maxlen)
  {
    if maxlen.Some? {
      var s := ReadBounded(file, maxlen.value);
      return Ok(s);
    }
    r := ReadUntilNul(file);
  }

  method ReadBounded(file: BinFile, m: int) returns (s: seq<byte>)
    modifies file
    ensures (s, file.pos) == CodecFileReaders.Bounded(file.data, old(file.pos), m)
  {
    ghost var start := file.pos;
    s := [];
    var rounds := 0;
    assert [] + CodecFileReaders.Bounded(file.data, file.pos, m).0 == CodecFileReaders.Bounded(file.data, file.pos, m).0;
    while rounds < m
      invariant CodecFileReaders.Bounded(file.data, start, m) ==
        (s + CodecFileReaders.Bounded(file.data, file.pos, m - rounds).0,
         CodecFileReaders.Bounded(file.data, file.pos, m - rounds).1)
      decreases m - rounds
    {
      ghost var here := file.pos;
      var b := file.Read(1);
      if b == [] {
        rounds := rounds + 1;
      } else if b[0] == 0 {
        assert s + [] == s;
        return;
      } else {
        var rest := CodecFileReaders.Bounded(file.data, here + 1, m - rounds - 1);
        assert s + ([b[0]] + rest.0) == (s + [b[0]]) + rest.0;
        s := s + [b[0]];
        rounds := rounds + 1;
      }
    }
    assert s + [] == s;
  }

  method ReadUntilNul(file: BinFile) returns (r: Result<seq<byte>>)
    modifies file
    ensures r == CString(file.data, old(file.pos))
    ensures r.Ok? ==> file.pos == old(file.pos) + |r.value| + 1
    ensures r.Err? ==> file.pos == if old(file.pos) < |file.data| then |file.data| else old(file.pos)
  {
    ghost var start := file.pos;
    var s: seq<byte> := [];
    if CString(file.data, file.pos).Ok? {
      assert [] + CString(file.data, file.pos).value == CString(file.data, file.pos).value;
    }
    while true
      invariant file.pos == start + |s|
      invariant start <= |file.data| ==> file.pos <= |file.data|
      invariant start > |file.data| ==> file.pos == start
      invariant CString(file.data, start) == CodecFileReaders.CStringFrom(file.data, s, file.pos)
      decreases |file.data| - file.pos + 1
    {
      if file.pos >= |file.data| {
        return Err(NoTerminator);
      }
      ghost var here := file.pos;
      var b := file.Read(1);
      if b[0] == 0 {
        assert s + [] == s;
        return Ok(s);
      }
      CodecFileReaders.CStringFromStep(file.data, s, here);
      s := s + [b[0]];
    }
  }

  /** `readStringWithLength(file, fmt, offset)` without decoding: seek when an
      offset is given, read the length with `fmt`, then that many bytes. A
      short prefix is a struct.error; a length that is not an integer makes
      the second read a TypeError. */
  function WithLengthSpec(data: seq<byte>, pos: nat, fmt: string, offset: Option<int>)
    : (Result<seq<byte>>, nat)
  {
    var sought := if offset.Some? then SeekTarget(|data|, pos, offset.value, Code(0)) else Ok(pos);
    if sought.Err? then (Err(sought.error), pos)
    else
      var (prefix, after) := FileReaders.ReadSpec(data, sought.value, FileReaders.Fmt(fmt), None, 1);
      if prefix.Err? then (Err(prefix.error), after)
      else
        match FileReaders.LengthOf(prefix.value.item)
        case Err(e) => (Err(e), after)
        case Ok(n) => (Ok(ReadSlice(data, after, n)), Advance(data, after, n))
  }

  method ReadStringWithLength(file: FileReaders.FileReader, fmt: string, offset: Option<int>)
    returns (r: Result<seq<byte>>)
    modifies file
    ensures (r, file.pos) == WithLengthSpec(file.data, old(file.pos), fmt, offset)
  {
    if offset.Some? {
      var s := file.Seek(offset.value, Code(0));
      if s.Err? {
        return Err(s.error);
      }
    }
    var prefix := file.Read(FileReaders.Fmt(fmt), None, 1);
    if prefix.Err? {
      return Err(prefix.error);
    }
    var n := FileReaders.LengthOf(prefix.value.item);
    if n.Err? {
      return Err(n.error);
    }
    var s := file.Read(FileReaders.Count(n.value), None, 1);
    r := Ok(s.value.item.bytes);
  }

  /** A single record read of format `f` is its unpacked values. */
  lemma FormatReadOnce(data: seq<byte>, pos: nat, f: Format)
    requires ValidCodes(f) && Unpack(f, ReadSlice(data, pos, CalcSize(f))).Ok?
    ensures FileReaders.FormatReads(data, pos, f, 1) ==
      (Ok([FileReaders.Unwrap(Unpack(f, ReadSlice(data, pos, CalcSize(f))).value)]), Advance(data, pos, CalcSize(f)))
  {
    var it := FileReaders.Unwrap(Unpack(f, ReadSlice(data, pos, CalcSize(f))).value);
    assert [it] + [] == [it];
  }

  /** Reading `"<H"` from a file gives the little-endian 16-bit value there. */
  lemma ReadU16(data: seq<byte>, pos: nat)
    requires pos + 2 <= |data|
    ensures FileReaders.ReadSpec(data, pos, FileReaders.Fmt("<H"), None, 1) ==
      (Ok(FileReaders.One(FileReaders.Scalar(Int(U16LE(data, pos))))), pos + 2)
  {
    var n := U16LE(data, pos);
    var f := Format(Little, [Item(1, 'H')]);
    var chunk := ReadSlice(data, pos, 2);
    assert chunk == data[pos..pos + 2];
    UnpackU16("<H", chunk, 0);
    UnpackSingle('H', chunk, 0);
    assert U16LE(chunk, 0) == n;
    assert Unpack(f, chunk) == Ok([Int(n)]);
    FormatReadOnce(data, pos, f);
  }

  /** With a little-endian 16-bit prefix, the string is the `n` bytes after the
      prefix, where `n` is the prefix's value, and the file is left after them. */
  lemma WithLengthU16(data: seq<byte>, pos: nat)
    requires pos + 2 <= |data| && pos + 2 + U16LE(data, pos) <= |data|
    ensures WithLengthSpec(data, pos, "<H", None) ==
      (Ok(data[pos + 2..pos + 2 + U16LE(data, pos)]), pos + 2 + U16LE(data, pos))
  {
    var n := U16LE(data, pos);
    var fmt := "<H";
    ReadU16(data, pos);
    WithLengthAfterPrefix(data, pos, fmt, FileReaders.Scalar(Int(n)), pos + 2, n);
    assert WithLengthSpec(data, pos, fmt, None) == (Ok(data[pos + 2..pos + 2 + n]), pos + 2 + n);
  }

  /** Once the prefix has been read as one integer `n` that the file holds
      after it, the string is the next `n` bytes. */
  lemma WithLengthAfterPrefix(data: seq<byte>, pos: nat, fmt: string, it: FileReaders.Item, after: nat, n: nat)
    requires FileReaders.ReadSpec(data, pos, FileReaders.Fmt(fmt), None, 1) == (Ok(FileReaders.One(it)), after)
    requires FileReaders.LengthOf(it) == Ok(n) && after + n <= |data|
    ensures WithLengthSpec(data, pos, fmt, None) == (Ok(data[after..after + n]), after + n)
  {
    assert ReadSlice(data, after, n) == data[after..after + n];
  }

  /** `readStringWithLength(file, '<H', offset)` in plain terms: a 16-bit
      little-endian length at `offset`, then at most that many bytes; fewer
      than two bytes left for the length is a struct.error. */
  function String16(data: seq<byte>, offset: nat): (Result<seq<byte>>, nat)
  {
    if offset + 2 > |data| then (Err(StructError), Advance(data, offset, 2))
    else
      var n := U16LE(data, offset);
      (Ok(ReadSlice(data, offset + 2, n)), Advance(data, offset + 2, n))
  }

  /** The general reader with the `'<H'` format and an offset is `String16`. */
  lemma String16Agrees(data: seq<byte>, pos: nat, offset: nat)
    ensures WithLengthSpec(data, pos, "<H", Some(offset)) == String16(data, offset)
  {
    assert SeekTarget(|data|, pos, offset, Code(0)) == Ok(offset);
    if offset + 2 <= |data| {
      ReadU16(data, offset);
    } else {
      var f := Format(Little, [Item(1, 'H')]);
      ParseSingle("<H", 'H');
      assert CalcSize(f) == 2;
      assert FileReaders.UnpackWith(f)(ReadSlice(data, offset, 2)) == Err(StructError);
      assert FileReaders.ReadSpec(data, offset, FileReaders.Fmt("<H"), None, 1) == (Err(StructError), Advance(data, offset, 2));
    }
  }

  /** `readStringWithLength(file, '<H', offset)`. */
  method ReadString16(file: FileReaders.FileReader, offset: nat) returns (r: Result<seq<byte>>)
    modifies file
    ensures (r, file.pos) == String16(file.data, offset)
  {
    String16Agrees(file.data, file.pos, offset);
    r := ReadStringWithLength(file, "<H", Some(offset));
  }
}
