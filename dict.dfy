/** `Dict`, the name dictionary of FRES files: an 8-byte header (`unk00`,
    `numItems`) followed by 16-byte items, each naming a string with a 16-bit
    length. The loop visits at most `numItems + 1` item slots, the root slot
    included, and stops at the first item whose name offset is 0.
    As for the string table, codec/base/dict.py uses a reader with `size=`,
    padding fields, `unpackFromFile` and `_file`, which the reader of
    structreader/__init__.py it imports does not have; the model follows the
    reader the code is written for. */
module NameDicts {
  import opened Wrappers
  import opened Bytes
  import opened ByteSource
  import FileReaders
  import StructReaders

  /** The size of the header record. */
  const HEADER_SIZE: nat := 8
  /** The size of one item record. */
  const ITEM_SIZE: nat := 0x10

  /** The header's fields, both struct 'i'. */
  datatype Header = Header(unk00: int, numItems: int)

  /** An item record: i32 search, i16 left, i16 right, u32 name offset, then
      four bytes of padding. */
  datatype Record = Record(search: int, left: int, right: int, nameOffs: nat)

  /** A kept item: its record's fields and the name read at its name offset. */
  datatype Item = Item(search: int, left: int, right: int, nameOffs: nat, name: seq<byte>)

  /** A dictionary read from a file: where it starts, its header and its items. */
  datatype Dict = Dict(start: nat, header: Header, items: seq<Item>)

  // ---------------------------------------------------------------- records

  /** struct's 'i': a little-endian two's-complement 32-bit integer. */
  function I32(b: seq<byte>, i: nat): (r: int)
    requires i + 4 <= |b|
    ensures -0x8000_0000 <= r < 0x8000_0000
    ensures r >= 0 <==> U32LE(b, i) < 0x8000_0000
    ensures r % 0x1_0000_0000 == U32LE(b, i)
  {
    var u := U32LE(b, i);
    if u < 0x8000_0000 then u else u - 0x1_0000_0000
  }

  /** struct's 'h': a little-endian two's-complement 16-bit integer. */
  function I16(b: seq<byte>, i: nat): (r: int)
    requires i + 2 <= |b|
    ensures -0x8000 <= r < 0x8000
    ensures r >= 0 <==> U16LE(b, i) < 0x8000
    ensures r % 0x1_0000 == U16LE(b, i)
  {
    var u := U16LE(b, i);
    if u < 0x8000 then u else u - 0x1_0000
  }

  function DecodeHeader(b: seq<byte>): (h: Header)
    requires |b| == HEADER_SIZE
    ensures -0x8000_0000 <= h.numItems < 0x8000_0000
  {
    Header(I32(b, 0), I32(b, 4))
  }

  function DecodeRecord(b: seq<byte>): (r: Record)
    requires |b| == ITEM_SIZE
    ensures RecordFits(r)
  {
    Record(I32(b, 0), I16(b, 4), I16(b, 6), U32LE(b, 8))
  }

  predicate RecordFits(r: Record)
  {
    -0x8000_0000 <= r.search < 0x8000_0000 && -0x8000 <= r.left < 0x8000 &&
    -0x8000 <= r.right < 0x8000 && r.nameOffs < 0x1_0000_0000
  }

  /** An item record as written, with zero padding. */
  function EncodeRecord(r: Record): (b: seq<byte>)
    requires RecordFits(r)
    ensures |b| == ITEM_SIZE
  {
    LE32(r.search % 0x1_0000_0000) + LE16(r.left % 0x1_0000) + LE16(r.right % 0x1_0000) +
    LE32(r.nameOffs) + Zeros(4)
  }

  /** Signed fields come back with their sign. */
  lemma RecordRoundTrip(r: Record)
    requires RecordFits(r)
    ensures DecodeRecord(EncodeRecord(r)) == r
  {
    Wrap(r.search, 0x1_0000_0000);
    Wrap(r.left, 0x1_0000);
    Wrap(r.right, 0x1_0000);
    var search, left, right := r.search % 0x1_0000_0000, r.left % 0x1_0000, r.right % 0x1_0000;
    var b := EncodeRecord(r);
    RecordFields(LE32(search), LE16(left), LE16(right), LE32(r.nameOffs), Zeros(4));
    U32At(b, 0, search);
    U16At(b, 4, left);
    U16At(b, 6, right);
    U32At(b, 8, r.nameOffs);
  }

  /** The bit pattern of a signed value in range, as struct packs it. */
  lemma Wrap(x: int, m: nat)
    requires m > 0 && -(m as int) <= 2 * x < m
    ensures x >= 0 ==> x % m == x
    ensures x < 0 ==> x % m == x + m
  {
    if x < 0 {
      ModUnique(x, m, -1, x + m);
    } else {
      ModUnique(x, m, 0, x);
    }
  }

  /** Where the fields of an item record lie. */
  lemma RecordFields(a: seq<byte>, b: seq<byte>, c: seq<byte>, d: seq<byte>, e: seq<byte>)
    requires |a| == 4 && |b| == 2 && |c| == 2 && |d| == 4
    ensures var s := a + b + c + d + e;
      s[0..4] == a && s[4..6] == b && s[6..8] == c && s[8..12] == d
  {
  }

  // ---------------------------------------------------------------- the loop

  /** `range(numItems + 1)`: the number of slots the loop visits, none when
      `numItems` is below -1. */
  function Slots(h: Header): nat
  {
    if h.numItems + 1 < 0 then 0 else h.numItems + 1
  }

  /** Where slot `i` of a dictionary starting at `start` lies. */
  function SlotPos(start: nat, i: nat): nat
  {
    start + HEADER_SIZE + 16 * i
  }

  /** One turn of the loop: the record at slot `i` (a short one is a
      struct.error), `None` when its name offset is 0 (the loop stops), else
      the item with the name read at its name offset. */
  function SlotAt(data: seq<byte>, start: nat, i: nat): Result<Option<Item>>
  {
    var b := ReadSlice(data, SlotPos(start, i), ITEM_SIZE);
    if |b| < ITEM_SIZE then Err(StructError)
    else
      var rec := DecodeRecord(b);
      if rec.nameOffs == 0 then Ok(None)
      else
        var name := StructReaders.String16(data, rec.nameOffs).0;
        if name.Err? then Err(name.error)
        else Ok(Some(Item(rec.search, rec.left, rec.right, rec.nameOffs, name.value)))
  }

  /** A slot that yields an item names it by a nonzero offset where its name
      is found. */
  lemma SlotNamed(data: seq<byte>, start: nat, i: nat)
    requires SlotAt(data, start, i).Ok? && SlotAt(data, start, i).value.Some?
    ensures var it := SlotAt(data, start, i).value.value;
      it.nameOffs != 0 && StructReaders.String16(data, it.nameOffs).0 == Ok(it.name)
  {
  }

  /** What one turn of the loop gives at each slot. */
  type SlotRead = nat -> Result<Option<Item>>

  /** `SlotAt` for the dictionary at `start`. */
  function Slot(data: seq<byte>, start: nat): SlotRead
  {
    (i: nat) => SlotAt(data, start, i)
  }

  /** The items the loop keeps from slot `i` on, with `n` slots in all: it ends
      at the first failing slot with its error, and at the first slot without
      a name. */
  function ItemsFrom(slot: SlotRead, i: nat, n: nat): Result<seq<Item>>
    decreases n - i
  {
    if i >= n then Ok([])
    else if slot(i).Err? then Err(slot(i).error)
    else if slot(i).value.None? then Ok([])
    else Joined([slot(i).value.value], ItemsFrom(slot, i + 1, n))
  }

  function Joined(done: seq<Item>, rest: Result<seq<Item>>): Result<seq<Item>>
  {
    if rest.Err? then rest else Ok(done + rest.value)
  }

  lemma JoinedEmpty(rest: Result<seq<Item>>)
    ensures Joined([], rest) == rest
  {
    if rest.Ok? {
      assert [] + rest.value == rest.value;
    }
  }

  lemma JoinedTwice(a: seq<Item>, b: seq<Item>, rest: Result<seq<Item>>)
    ensures Joined(a, Joined(b, rest)) == Joined(a + b, rest)
  {
    if rest.Ok? {
      assert a + (b + rest.value) == (a + b) + rest.value;
    }
  }

  /** One turn of the item loop, with `done` kept so far and slot `i` giving `s`. */
  lemma ItemsStep(slot: SlotRead, i: nat, n: nat, done: seq<Item>, s: Result<Option<Item>>)
    requires i < n && slot(i) == s
    requires ItemsFrom(slot, 0, n) == Joined(done, ItemsFrom(slot, i, n))
    ensures s.Err? ==> ItemsFrom(slot, 0, n) == Err(s.error)
    ensures s == Ok(None) ==> ItemsFrom(slot, 0, n) == Ok(done)
    ensures s.Ok? && s.value.Some? ==> ItemsFrom(slot, 0, n) == Joined(done + [s.value.value], ItemsFrom(slot, i + 1, n))
  {
    if s == Ok(None) {
      assert done + [] == done;
    } else if s.Ok? {
      JoinedTwice(done, [s.value.value], ItemsFrom(slot, i + 1, n));
    }
  }

  /** A successful loop keeps exactly the items of the slots before the first
      one without a name (or of all `n - i` slots when there is none). */
  lemma {:induction false} ItemsExact(slot: SlotRead, i: nat, n: nat)
    requires i <= n && ItemsFrom(slot, i, n).Ok?
    ensures var xs := ItemsFrom(slot, i, n).value;
      i + |xs| <= n &&
      (forall j :: 0 <= j < |xs| ==> slot(i + j) == Ok(Some(xs[j]))) &&
      (i + |xs| < n ==> slot(i + |xs|) == Ok(None))
    decreases n - i
  {
    if i < n && slot(i) != Ok(None) {
      var x := slot(i).value.value;
      ItemsExact(slot, i + 1, n);
      var rest := ItemsFrom(slot, i + 1, n).value;
      var xs := ItemsFrom(slot, i, n).value;
      assert xs == [x] + rest;
      assert i + |xs| == (i + 1) + |rest|;
      forall j | 0 <= j < |xs|
        ensures slot(i + j) == Ok(Some(xs[j]))
      {
        if j > 0 {
          assert xs[j] == rest[j - 1];
          assert i + j == (i + 1) + (j - 1);
        }
      }
    }
  }

  /** The loop keeps the items of consecutive named slots, stopping at an
      unnamed one or after `n` slots. */
  lemma {:induction false} ItemsOfSlots(slot: SlotRead, i: nat, n: nat, xs: seq<Item>)
    requires i + |xs| <= n
    requires forall j :: 0 <= j < |xs| ==> slot(i + j) == Ok(Some(xs[j]))
    requires i + |xs| < n ==> slot(i + |xs|) == Ok(None)
    ensures ItemsFrom(slot, i, n) == Ok(xs)
    decreases |xs|
  {
    if xs != [] {
      assert slot(i + 0) == Ok(Some(xs[0]));
      forall j | 0 <= j < |xs[1..]|
        ensures slot((i + 1) + j) == Ok(Some(xs[1..][j]))
      {
        assert slot(i + (j + 1)) == Ok(Some(xs[j + 1]));
      }
      ItemsOfSlots(slot, i + 1, n, xs[1..]);
      assert [xs[0]] + xs[1..] == xs;
    }
  }

  /** `readFromFile(file, offset)`: seek when an offset is given, read the
      header (a short one is a struct.error), then the items. */
  function DictAt(data: seq<byte>, pos: nat, offset: Option<int>): (r: Result<Dict>)
    ensures r.Ok? ==> r.value.start + HEADER_SIZE <= |data|
    ensures r.Ok? && offset.None? ==> r.value.start == pos
  {
    var sought := if offset.Some? then SeekTarget(|data|, pos, offset.value, Code(0)) else Ok(pos);
    if sought.Err? then Err(sought.error)
    else
      var start := sought.value;
      var b := ReadSlice(data, start, HEADER_SIZE);
      if |b| < HEADER_SIZE then Err(StructError)
      else
        var h := DecodeHeader(b);
        var items := ItemsFrom(Slot(data, start), 0, Slots(h));
        if items.Err? then Err(items.error) else Ok(Dict(start, h, items.value))
  }

  /** A read dictionary has at most `numItems + 1` items, each with a nonzero
      name offset and the name found there. */
  lemma DictItems(data: seq<byte>, pos: nat, offset: Option<int>)
    requires DictAt(data, pos, offset).Ok?
    ensures var d := DictAt(data, pos, offset).value;
      |d.items| <= Slots(d.header) &&
      forall k :: 0 <= k < |d.items| ==>
        d.items[k].nameOffs != 0 && StructReaders.String16(data, d.items[k].nameOffs).0 == Ok(d.items[k].name)
  {
    var d := DictAt(data, pos, offset).value;
    var slot := Slot(data, d.start);
    assert ItemsFrom(slot, 0, Slots(d.header)) == Ok(d.items);
    ItemsNamed(data, d.start, Slots(d.header), d.items);
  }

  lemma ItemsNamed(data: seq<byte>, start: nat, n: nat, xs: seq<Item>)
    requires ItemsFrom(Slot(data, start), 0, n) == Ok(xs)
    ensures |xs| <= n
    ensures forall k :: 0 <= k < |xs| ==>
      xs[k].nameOffs != 0 && StructReaders.String16(data, xs[k].nameOffs).0 == Ok(xs[k].name)
  {
    var slot := Slot(data, start);
    ItemsExact(slot, 0, n);
    forall k | 0 <= k < |xs|
      ensures xs[k].nameOffs != 0 && StructReaders.String16(data, xs[k].nameOffs).0 == Ok(xs[k].name)
    {
      assert slot(0 + k) == Ok(Some(xs[k]));
      SlotNamed(data, start, k);
    }
  }

  /** A name written with its 16-bit length at `o` is read back from there. */
  lemma NameAt(data: seq<byte>, o: nat, name: seq<byte>)
    requires |name| < 0x1_0000
    requires o + 2 + |name| <= |data| && data[o..o + 2 + |name|] == LE16(|name|) + name
    ensures StructReaders.String16(data, o).0 == Ok(name)
  {
    assert data[o..o + 2] == (LE16(|name|) + name)[0..2];
    assert data[o + 2..o + 2 + |name|] == (LE16(|name|) + name)[2..];
    U16At(data, o, |name|);
  }

  /** A record written at a slot, with its name written at its name offset, is
      read back as that item. */
  lemma SlotRoundTrip(data: seq<byte>, start: nat, i: nat, r: Record, name: seq<byte>)
    requires RecordFits(r) && |name| < 0x1_0000 && r.nameOffs != 0
    requires SlotPos(start, i) + ITEM_SIZE <= |data| && data[SlotPos(start, i)..SlotPos(start, i) + ITEM_SIZE] == EncodeRecord(r)
    requires r.nameOffs + 2 + |name| <= |data| && data[r.nameOffs..r.nameOffs + 2 + |name|] == LE16(|name|) + name
    ensures SlotAt(data, start, i) == Ok(Some(Item(r.search, r.left, r.right, r.nameOffs, name)))
  {
    assert DecodeRecord(ReadSlice(data, SlotPos(start, i), ITEM_SIZE)) == r by {
      RecordRoundTrip(r);
    }
    NameAt(data, r.nameOffs, name);
  }

  /** A record written at a slot with name offset 0 ends the loop there. */
  lemma UnnamedSlotEnds(data: seq<byte>, start: nat, i: nat, r: Record)
    requires RecordFits(r) && r.nameOffs == 0
    requires SlotPos(start, i) + ITEM_SIZE <= |data| && data[SlotPos(start, i)..SlotPos(start, i) + ITEM_SIZE] == EncodeRecord(r)
    ensures SlotAt(data, start, i) == Ok(None)
  {
    assert DecodeRecord(ReadSlice(data, SlotPos(start, i), ITEM_SIZE)) == r by {
      RecordRoundTrip(r);
    }
  }

  // ---------------------------------------------------------------- the object

  /** The item loop of `_unpackFromData` over `n` slots of the dictionary at
      `start`: each slot is sought, its record read, and, unless its name offset
      is 0, its name read at that offset. */
  method ReadItems(file: FileReaders.FileReader, start: nat, n: nat) returns (r: Result<seq<Item>>)
    modifies file
    ensures r == ItemsFrom(Slot(file.data, start), 0, n)
  {
    ghost var slot := Slot(file.data, start);
    var items: seq<Item> := [];
    var i := 0;
    JoinedEmpty(ItemsFrom(slot, 0, n));
    while i < n
      invariant i <= n
      invariant ItemsFrom(slot, 0, n) == Joined(items, ItemsFrom(slot, i, n))
    {
      var s := ReadSlot(file, start, i);
      ItemsStep(slot, i, n, items, s);
      if s.Err? {
        return Err(s.error);
      }
      if s.value.None? {
        return Ok(items);
      }
      items := items + [s.value.value];
      i := i + 1;
    }
    assert items + [] == items;
    r := Ok(items);
  }

  /** One turn of the item loop: seek to slot `i`, read its record and, unless
      its name offset is 0, the name at that offset. */
  method ReadSlot(file: FileReaders.FileReader, start: nat, i: nat) returns (s: Result<Option<Item>>)
    modifies file
    ensures s == SlotAt(file.data, start, i)
  {
    var _ := file.Seek(start + HEADER_SIZE + 16 * i, Code(0));
    assert file.pos == SlotPos(start, i);
    var b := FileReaders.ReadBytes(file, ITEM_SIZE);
    if |b| < ITEM_SIZE {
      return Err(StructError);
    }
    var rec := DecodeRecord(b);
    if rec.nameOffs == 0 {
      return Ok(None);
    }
    var name := StructReaders.ReadString16(file, rec.nameOffs);
    if name.Err? {
      return Err(name.error);
    }
    s := Ok(Some(Item(rec.search, rec.left, rec.right, rec.nameOffs, name.value)));
  }

  class NameDict {
    var fileOffset: nat
    var header: Header
    var items: seq<Item>

    constructor()
      ensures fileOffset == 0 && items == []
    {
      fileOffset := 0;
      header := Header(0, 0);
      items := [];
    }

    /** `readFromFile`: on success the object holds the dictionary found at the
        (sought) position. */
    method ReadFromFile(file: FileReaders.FileReader, offset: Option<int>) returns (r: Result<()>)
      modifies this, file
      ensures var d := DictAt(file.data, old(file.pos), offset);
        r.Ok? == d.Ok? && (r.Err? ==> r.error == d.error) &&
        (r.Ok? ==> Dict(fileOffset, header, items) == d.value)
    {
      if offset.Some? {
        var s := file.Seek(offset.value, Code(0));
        if s.Err? {
          return Err(s.error);
        }
      }
      var start := file.Tell();
      fileOffset := start;
      var b := FileReaders.ReadBytes(file, HEADER_SIZE);
      if |b| < HEADER_SIZE {
        return Err(StructError);
      }
      var h := DecodeHeader(b);
      header := h;
      var n := if h.numItems + 1 < 0 then 0 else h.numItems + 1;
      var xs := ReadItems(file, start, n);
      if xs.Err? {
        return Err(xs.error);
      }
      items := xs.value;
      r := Ok(());
    }
  }
}
