/** The fixed-size records of a SARC archive (the archive header, the SFAT
    header, an SFAT node and the SFNT name-table header), their validity checks,
    and one archive entry with its ranged read. Every record is a
    struct-reader record of unprefixed formats, read in little-endian order
    with no padding between fields. */
module SarcRecords {
  import opened Wrappers
  import opened Bytes
  import opened ByteSource
  import opened FieldTypes

  /** A message `validate` logs without failing. */
  datatype Warning = Warning(message: string)

  /** `_unpackFromFile`: read `size` bytes at `pos`; fewer than `size` left
      makes `struct.unpack` raise. The position moves past what was read. */
  function RecordAt(data: seq<byte>, pos: nat, size: nat): (r: (Result<seq<byte>>, nat))
    requires size > 0
    ensures r.0.Ok? <==> pos + size <= |data|
    ensures r.0.Ok? ==> r.0.value == data[pos..pos + size] && r.1 == pos + size
    ensures r.0.Err? ==> r.0.error == StructError && r.1 == (if pos < |data| then |data| else pos)
  {
    var b := ReadSlice(data, pos, size);
    (if |b| == size then Ok(b) else Err(StructError), pos + |b|)
  }

  /** Reads one record's bytes from an open file. */
  method ReadRecord(file: BinFile, size: nat) returns (r: Result<seq<byte>>)
    requires size > 0
    modifies file
    ensures (r, file.pos) == RecordAt(file.data, old(file.pos), size)
  {
    var b := file.Read(size);
    if |b| == size {
      r := Ok(b);
    } else {
      r := Err(StructError);
    }
  }

  // ---------------------------------------------------------------- header

  const SARC_MAGIC: seq<byte> := [0x53, 0x41, 0x52, 0x43]
  const HEADER_SIZE: nat := 0x14

  /** The archive header: magic, u16 header_len, u16 byte_order, u32 file_size,
      u32 data_offset, u16 version, u16 reserved12. */
  datatype Header = Header(magic: seq<byte>, headerLen: nat, byteOrder: nat, fileSize: nat,
                           dataOffset: nat, version: nat, reserved12: nat)

  /** Values each field's width can hold. */
  predicate HeaderFits(h: Header)
  {
    |h.magic| == 4 && h.headerLen < 0x1_0000 && h.byteOrder < 0x1_0000 && h.fileSize < 0x1_0000_0000
    && h.dataOffset < 0x1_0000_0000 && h.version < 0x1_0000 && h.reserved12 < 0x1_0000
  }

  function DecodeHeader(b: seq<byte>): (h: Header)
    requires |b| == HEADER_SIZE
    ensures HeaderFits(h)
  {
    Header(b[0..4], U16LE(b, 4), U16LE(b, 6), U32LE(b, 8), U32LE(b, 12), U16LE(b, 16), U16LE(b, 18))
  }

  /** The bytes a header is stored as. */
  function EncodeHeader(h: Header): (b: seq<byte>)
    requires HeaderFits(h)
    ensures |b| == HEADER_SIZE
  {
    h.magic + LE16(h.headerLen) + LE16(h.byteOrder) + LE32(h.fileSize) + LE32(h.dataOffset)
    + LE16(h.version) + LE16(h.reserved12)
  }

  /** Every field is read back from the offset it is stored at. */
  lemma HeaderRoundTrip(h: Header)
    requires HeaderFits(h)
    ensures DecodeHeader(EncodeHeader(h)) == h
  {
    var b := EncodeHeader(h);
    assert b[0..4] == h.magic;
    assert b[4..6] == LE16(h.headerLen);
    assert b[6..8] == LE16(h.byteOrder);
    assert b[8..12] == LE32(h.fileSize);
    assert b[12..16] == LE32(h.dataOffset);
    assert b[16..18] == LE16(h.version);
    LastField(h.magic + LE16(h.headerLen) + LE16(h.byteOrder) + LE32(h.fileSize) + LE32(h.dataOffset)
      + LE16(h.version), LE16(h.reserved12));
    U16At(b, 4, h.headerLen);
    U16At(b, 6, h.byteOrder);
    U32At(b, 8, h.fileSize);
    U32At(b, 12, h.dataOffset);
    U16At(b, 16, h.version);
    U16At(b, 18, h.reserved12);
  }

  /** `Header.validate`: the magic, the version and the byte-order mark are
      asserted, in that order; an unusual header length or reserved field is
      only logged. `Ok` holds the logged warnings. */
  function ValidateHeader(h: Header): (r: Result<seq<Warning>>)
    ensures r.Ok? <==> h.magic == SARC_MAGIC && h.version == 0x0100 && h.byteOrder in {0xFEFF, 0xFFFE}
    ensures h.magic != SARC_MAGIC ==> r == Err(AssertionFailed("Not a SARC file"))
    ensures h.magic == SARC_MAGIC && h.version != 0x0100 ==>
      r == Err(AssertionFailed("Unsupported version: " + Decimal(h.version)))
    ensures h.magic == SARC_MAGIC && h.version == 0x0100 && h.byteOrder !in {0xFEFF, 0xFFFE} ==>
      r == Err(AssertionFailed("Invalid byte order mark: 0x" + Hex(h.byteOrder, 4)))
    ensures r.Ok? ==> (r.value == [] <==> h.headerLen == 0x14 && h.reserved12 == 0)
    ensures r.Ok? ==> |r.value| == (if h.headerLen != 0x14 then 1 else 0) + (if h.reserved12 != 0 then 1 else 0)
  {
    if h.magic != SARC_MAGIC then Err(AssertionFailed("Not a SARC file"))
    else if h.version != 0x0100 then Err(AssertionFailed("Unsupported version: " + Decimal(h.version)))
    else if h.byteOrder != 0xFEFF && h.byteOrder != 0xFFFE then
      Err(AssertionFailed("Invalid byte order mark: 0x" + Hex(h.byteOrder, 4)))
    else
      var w1 := if h.headerLen != 0x14
        then [Warning("SARC header length is " + Decimal(h.headerLen) + ", should be 20")] else [];
      var w2 := if h.reserved12 != 0
        then [Warning("SARC reserved field 0x12 is " + Decimal(h.reserved12) + ", should be 0")] else [];
      Ok(w1 + w2)
  }

  /** `Header().readFromFile(file)`: read, decode, validate. */
  function HeaderAt(data: seq<byte>, pos: nat): (r: (Result<Header>, nat))
    ensures r.0.Ok? ==> pos + HEADER_SIZE <= |data| && r.1 == pos + HEADER_SIZE
    ensures r.0.Ok? ==> r.0.value == DecodeHeader(data[pos..pos + HEADER_SIZE])
    ensures r.0.Ok? ==> ValidateHeader(r.0.value).Ok?
  {
    var (b, p) := RecordAt(data, pos, HEADER_SIZE);
    if b.Err? then (Err(b.error), p)
    else
      var h := DecodeHeader(b.value);
      var v := ValidateHeader(h);
      if v.Err? then (Err(v.error), p) else (Ok(h), p)
  }

  method ReadHeader(file: BinFile) returns (r: Result<Header>)
    modifies file
    ensures (r, file.pos) == HeaderAt(file.data, old(file.pos))
  {
    var b := ReadRecord(file, HEADER_SIZE);
    if b.Err? {
      return Err(b.error);
    }
    var h := DecodeHeader(b.value);
    var v := ValidateHeader(h);
    if v.Err? {
      return Err(v.error);
    }
    r := Ok(h);
  }

  // ------------------------------------------------------------ SFAT header

  const SFAT_MAGIC: seq<byte> := [0x53, 0x46, 0x41, 0x54]
  const SFAT_HEADER_SIZE: nat := 0x0C

  /** The SFAT header: magic, u16 header_len, u16 node_count, u32 hash_key. */
  datatype SfatHeader = SfatHeader(magic: seq<byte>, headerLen: nat, nodeCount: nat, hashKey: nat)

  predicate SfatHeaderFits(h: SfatHeader)
  {
    |h.magic| == 4 && h.headerLen < 0x1_0000 && h.nodeCount < 0x1_0000 && h.hashKey < 0x1_0000_0000
  }

  /** node_count is a u16, so an archive has at most 65535 nodes. */
  function DecodeSfatHeader(b: seq<byte>): (h: SfatHeader)
    requires |b| == SFAT_HEADER_SIZE
    ensures SfatHeaderFits(h) && h.nodeCount <= 65535
  {
    SfatHeader(b[0..4], U16LE(b, 4), U16LE(b, 6), U32LE(b, 8))
  }

  function EncodeSfatHeader(h: SfatHeader): (b: seq<byte>)
    requires SfatHeaderFits(h)
    ensures |b| == SFAT_HEADER_SIZE
  {
    h.magic + LE16(h.headerLen) + LE16(h.nodeCount) + LE32(h.hashKey)
  }

  lemma SfatHeaderRoundTrip(h: SfatHeader)
    requires SfatHeaderFits(h)
    ensures DecodeSfatHeader(EncodeSfatHeader(h)) == h
  {
    var b := EncodeSfatHeader(h);
    assert b[0..4] == h.magic;
    assert b[4..6] == LE16(h.headerLen);
    assert b[6..8] == LE16(h.nodeCount);
    LastField(h.magic + LE16(h.headerLen) + LE16(h.nodeCount), LE32(h.hashKey));
    U16At(b, 4, h.headerLen);
    U16At(b, 6, h.nodeCount);
    U32At(b, 8, h.hashKey);
  }

  /** `SFATHeader.validate`: only the magic is asserted; the header length and
      the hash key are only logged. */
  function ValidateSfatHeader(h: SfatHeader): (r: Result<seq<Warning>>)
    ensures r.Ok? <==> h.magic == SFAT_MAGIC
    ensures r.Err? ==> r.error == AssertionFailed("Not a SFAT header")
    ensures r.Ok? ==> (r.value == [] <==> h.headerLen == 0x0C && h.hashKey == 0x65)
    ensures r.Ok? ==> |r.value| == (if h.headerLen != 0x0C then 1 else 0) + (if h.hashKey != 0x65 then 1 else 0)
  {
    if h.magic != SFAT_MAGIC then Err(AssertionFailed("Not a SFAT header"))
    else
      var w1 := if h.headerLen != 0x0C
        then [Warning("SFAT header length is " + Decimal(h.headerLen) + ", should be 12")] else [];
      var w2 := if h.hashKey != 0x65
        then [Warning("SFAT hash_key is 0x" + Hex(h.hashKey, 0) + ", should be 0x65")] else [];
      Ok(w1 + w2)
  }

  function SfatHeaderAt(data: seq<byte>, pos: nat): (r: (Result<SfatHeader>, nat))
    ensures r.0.Ok? ==> pos + SFAT_HEADER_SIZE <= |data| && r.1 == pos + SFAT_HEADER_SIZE
    ensures r.0.Ok? ==> r.0.value == DecodeSfatHeader(data[pos..pos + SFAT_HEADER_SIZE])
    ensures r.0.Ok? ==> r.0.value.magic == SFAT_MAGIC
  {
    var (b, p) := RecordAt(data, pos, SFAT_HEADER_SIZE);
    if b.Err? then (Err(b.error), p)
    else
      var h := DecodeSfatHeader(b.value);
      var v := ValidateSfatHeader(h);
      if v.Err? then (Err(v.error), p) else (Ok(h), p)
  }

  method ReadSfatHeader(file: BinFile) returns (r: Result<SfatHeader>)
    modifies file
    ensures (r, file.pos) == SfatHeaderAt(file.data, old(file.pos))
  {
    var b := ReadRecord(file, SFAT_HEADER_SIZE);
    if b.Err? {
      return Err(b.error);
    }
    var h := DecodeSfatHeader(b.value);
    var v := ValidateSfatHeader(h);
    if v.Err? {
      return Err(v.error);
    }
    r := Ok(h);
  }

  // --------------------------------------------------------------- SFAT node

  const NODE_SIZE: nat := 0x10

  /** An SFAT node: four u32 fields, plus the name offset derived from the
      attributes once the node is read. */
  datatype Node = Node(nameHash: nat, attrs: nat, dataStart: nat, dataEnd: nat, nameOffset: Option<nat>)

  /** `file_attrs & 0x01000000` selects a stored name, found at
      `(file_attrs & 0xFFFF) * 4` in the name table. */
  function NameOffset(attrs: nat): (r: Option<nat>)
    ensures r.Some? <==> Bit(attrs, 24) == 1
    ensures r.Some? ==> r.value == (attrs % 0x1_0000) * 4
    ensures r.Some? ==> r.value % 4 == 0 && r.value < 0x4_0000
  {
    AttrMasks(attrs);
    var low := BitAnd(attrs, 0xFFFF);
    assert low * 4 % 4 == 0 && low * 4 < 0x4_0000;
    if BitAnd(attrs, 0x0100_0000) != 0 then Some(low * 4) else None
  }

  /** The two masks `NameOffset` applies, as a bit and a remainder. */
  lemma AttrMasks(attrs: nat)
    ensures BitAnd(attrs, 0x0100_0000) == 0x0100_0000 * Bit(attrs, 24)
    ensures BitAnd(attrs, 0xFFFF) == attrs % 0x1_0000
  {
    Pow2Known();
    Pow2Add(16, 8);
    SingleBitMask(attrs, 24);
    LowMask(attrs, 16);
  }

  /** The attribute bits other than bit 24 and the low 16 do not matter. */
  lemma NameOffsetIgnoresMiddleBits(a: nat, b: nat)
    requires Bit(a, 24) == Bit(b, 24) && a % 0x1_0000 == b % 0x1_0000
    ensures NameOffset(a) == NameOffset(b)
  {
  }

  /** The node as `SFATNode.readFromFile` leaves it: the fields, then the name
      offset. */
  function DecodeNode(b: seq<byte>): (n: Node)
    requires |b| == NODE_SIZE
    ensures n.nameHash < 0x1_0000_0000 && n.attrs < 0x1_0000_0000
    ensures n.dataStart < 0x1_0000_0000 && n.dataEnd < 0x1_0000_0000
    ensures n.nameOffset == NameOffset(n.attrs)
  {
    var attrs := U32LE(b, 4);
    Node(U32LE(b, 0), attrs, U32LE(b, 8), U32LE(b, 12), NameOffset(attrs))
  }

  function EncodeNode(n: Node): (b: seq<byte>)
    requires n.nameHash < 0x1_0000_0000 && n.attrs < 0x1_0000_0000
    requires n.dataStart < 0x1_0000_0000 && n.dataEnd < 0x1_0000_0000
    ensures |b| == NODE_SIZE
  {
    LE32(n.nameHash) + LE32(n.attrs) + LE32(n.dataStart) + LE32(n.dataEnd)
  }

  /** The four fields read back; the name offset is the one the attributes give. */
  lemma NodeRoundTrip(n: Node)
    requires n.nameHash < 0x1_0000_0000 && n.attrs < 0x1_0000_0000
    requires n.dataStart < 0x1_0000_0000 && n.dataEnd < 0x1_0000_0000
    requires n.nameOffset == NameOffset(n.attrs)
    ensures DecodeNode(EncodeNode(n)) == n
  {
    var b := EncodeNode(n);
    assert b[0..4] == LE32(n.nameHash);
    assert b[4..8] == LE32(n.attrs);
    assert b[8..12] == LE32(n.dataStart);
    LastField(LE32(n.nameHash) + LE32(n.attrs) + LE32(n.dataStart), LE32(n.dataEnd));
    U32At(b, 0, n.nameHash);
    U32At(b, 4, n.attrs);
    U32At(b, 8, n.dataStart);
    U32At(b, 12, n.dataEnd);
  }

  /** `SFATNode.validate`: a node whose data ends before it starts is refused. */
  function ValidateNode(n: Node): (r: Result<seq<Warning>>)
    ensures r.Ok? <==> n.dataStart <= n.dataEnd
    ensures r.Ok? ==> r.value == []
    ensures r.Err? ==> r.error == AssertionFailed("File size is negative")
  {
    if n.dataStart <= n.dataEnd then Ok([]) else Err(AssertionFailed("File size is negative"))
  }

  function NodeAt(data: seq<byte>, pos: nat): (r: (Result<Node>, nat))
    ensures r.0.Ok? ==> pos + NODE_SIZE <= |data| && r.1 == pos + NODE_SIZE
    ensures r.0.Ok? ==> r.0.value == DecodeNode(data[pos..pos + NODE_SIZE])
    ensures r.0.Ok? ==> r.0.value.dataStart <= r.0.value.dataEnd
  {
    var (b, p) := RecordAt(data, pos, NODE_SIZE);
    if b.Err? then (Err(b.error), p)
    else
      var n := DecodeNode(b.value);
      var v := ValidateNode(n);
      if v.Err? then (Err(v.error), p) else (Ok(n), p)
  }

  method ReadNode(file: BinFile) returns (r: Result<Node>)
    modifies file
    ensures (r, file.pos) == NodeAt(file.data, old(file.pos))
  {
    var b := ReadRecord(file, NODE_SIZE);
    if b.Err? {
      return Err(b.error);
    }
    var n := DecodeNode(b.value);
    var v := ValidateNode(n);
    if v.Err? {
      return Err(v.error);
    }
    r := Ok(n);
  }

  // ------------------------------------------------------ SFNT header

  const SFNT_MAGIC: seq<byte> := [0x53, 0x46, 0x4E, 0x54]
  const NAME_TABLE_HEADER_SIZE: nat := 8

  /** The name-table header: magic, u16 header_len, u16 reserved06. */
  datatype NameTableHeader = NameTableHeader(magic: seq<byte>, headerLen: nat, reserved06: nat)

  predicate NameTableHeaderFits(h: NameTableHeader)
  {
    |h.magic| == 4 && h.headerLen < 0x1_0000 && h.reserved06 < 0x1_0000
  }

  function DecodeNameTableHeader(b: seq<byte>): (h: NameTableHeader)
    requires |b| == NAME_TABLE_HEADER_SIZE
    ensures NameTableHeaderFits(h)
  {
    NameTableHeader(b[0..4], U16LE(b, 4), U16LE(b, 6))
  }

  function EncodeNameTableHeader(h: NameTableHeader): (b: seq<byte>)
    requires NameTableHeaderFits(h)
    ensures |b| == NAME_TABLE_HEADER_SIZE
  {
    h.magic + LE16(h.headerLen) + LE16(h.reserved06)
  }

  lemma NameTableHeaderRoundTrip(h: NameTableHeader)
    requires NameTableHeaderFits(h)
    ensures DecodeNameTableHeader(EncodeNameTableHeader(h)) == h
  {
    var b := EncodeNameTableHeader(h);
    assert b[0..4] == h.magic;
    assert b[4..6] == LE16(h.headerLen);
    LastField(h.magic + LE16(h.headerLen), LE16(h.reserved06));
    U16At(b, 4, h.headerLen);
    U16At(b, 6, h.reserved06);
  }

  /** `NameTableHeader.validate`: the magic is asserted; the field compared
      with 8 is reserved06, and a mismatch is only logged; header_len is never
      looked at. */
  function ValidateNameTableHeader(h: NameTableHeader): (r: Result<seq<Warning>>)
    ensures r.Ok? <==> h.magic == SFNT_MAGIC
    ensures r.Err? ==> r.error == AssertionFailed("Not an SFNT object")
    ensures r.Ok? ==> (r.value == [] <==> h.reserved06 == 8)
  {
    if h.magic != SFNT_MAGIC then Err(AssertionFailed("Not an SFNT object"))
    else if h.reserved06 != 8 then Ok([Warning("SFNT reserved06 is " + Decimal(h.reserved06) + ", should be 8")])
    else Ok([])
  }

  /** header_len plays no part in the check. */
  lemma NameTableHeaderLenIgnored(h: NameTableHeader, len: nat)
    ensures ValidateNameTableHeader(h.(headerLen := len)) == ValidateNameTableHeader(h)
  {
  }

  function NameTableHeaderAt(data: seq<byte>, pos: nat): (r: (Result<NameTableHeader>, nat))
    ensures r.0.Ok? ==> pos + NAME_TABLE_HEADER_SIZE <= |data| && r.1 == pos + NAME_TABLE_HEADER_SIZE
    ensures r.0.Ok? ==> r.0.value == DecodeNameTableHeader(data[pos..pos + NAME_TABLE_HEADER_SIZE])
    ensures r.0.Ok? ==> r.0.value.magic == SFNT_MAGIC
  {
    var (b, p) := RecordAt(data, pos, NAME_TABLE_HEADER_SIZE);
    if b.Err? then (Err(b.error), p)
    else
      var h := DecodeNameTableHeader(b.value);
      var v := ValidateNameTableHeader(h);
      if v.Err? then (Err(v.error), p) else (Ok(h), p)
  }

  method ReadNameTableHeader(file: BinFile) returns (r: Result<NameTableHeader>)
    modifies file
    ensures (r, file.pos) == NameTableHeaderAt(file.data, old(file.pos))
  {
    var b := ReadRecord(file, NAME_TABLE_HEADER_SIZE);
    if b.Err? {
      return Err(b.error);
    }
    var h := DecodeNameTableHeader(b.value);
    var v := ValidateNameTableHeader(h);
    if v.Err? {
      return Err(v.error);
    }
    r := Ok(h);
  }

  // ------------------------------------------------------------------ entries

  /** An entry's name: `'file' + str(i)`, or the string stored in the name
      table, kept as its bytes. */
  datatype Name = Numbered(index: nat) | Stored(bytes: seq<byte>)

  function NameText(n: Name): (s: string)
    ensures n.Numbered? ==> |s| > 4 && s[..4] == "file"
    ensures n.Stored? ==> |s| == |n.bytes|
  {
    match n
    case Numbered(i) => "file" + Decimal(i)
    case Stored(b) => Chars(b)
  }

  /** A file of the archive: name, hash, attributes and data bounds. */
  datatype Entry = Entry(name: Name, nameHash: nat, attrs: nat, dataStart: nat, dataEnd: nat)
  {
    function Size(): int
    {
      dataEnd - dataStart
    }
  }

  /** `File(arc, node, name)`: the node's fields are copied. */
  function MakeEntry(node: Node, name: Name): (e: Entry)
    ensures e.name == name && e.nameHash == node.nameHash && e.attrs == node.attrs
    ensures e.dataStart == node.dataStart && e.dataEnd == node.dataEnd
    ensures ValidateNode(node).Ok? ==> e.Size() >= 0
  {
    Entry(name, node.nameHash, node.attrs, node.dataStart, node.dataEnd)
  }

  /** `File.read(size, offset)` on the archive file positioned at `pos`, with
      `dataOffset` the header's data offset. A negative size means the rest of
      the entry from `offset`; an offset at or past the entry's size reads
      nothing and leaves the file alone. */
  function EntryRead(data: seq<byte>, pos: nat, e: Entry, dataOffset: nat, size: int, offset: int)
    : (r: (Result<seq<byte>>, nat))
    ensures offset >= e.Size() ==> r == (Ok([]), pos)
  {
    var n := if size < 0 then e.Size() - offset else size;
    if offset >= e.Size() then (Ok([]), pos)
    else
      match SeekTarget(|data|, pos, e.dataStart + dataOffset + offset, Code(0))
      case Err(err) => (Err(err), pos)
      case Ok(p) => (Ok(ReadSlice(data, p, n)), p + |ReadSlice(data, p, n)|)
  }

  /** With the default arguments, an entry reads the archive bytes
      `[dataOffset + dataStart, dataOffset + dataEnd)`. */
  lemma DefaultRead(data: seq<byte>, pos: nat, e: Entry, dataOffset: nat)
    requires e.dataStart <= e.dataEnd && dataOffset + e.dataEnd <= |data|
    ensures EntryRead(data, pos, e, dataOffset, -1, 0).0 == Ok(data[dataOffset + e.dataStart..dataOffset + e.dataEnd])
  {
    if e.dataStart == e.dataEnd {
      assert data[dataOffset + e.dataStart..dataOffset + e.dataEnd] == [];
    }
  }

  /** A negative size reads `size - offset` bytes: the rest of the entry. */
  lemma NegativeSizeReadsRest(data: seq<byte>, pos: nat, e: Entry, dataOffset: nat, size: int, offset: int)
    requires size < 0 && 0 <= offset < e.Size() && dataOffset + e.dataEnd <= |data|
    ensures EntryRead(data, pos, e, dataOffset, size, offset).0
      == Ok(data[dataOffset + e.dataStart + offset..dataOffset + e.dataEnd])
  {
  }

  /** A non-negative size is not clamped to the entry: the read may run on
      into whatever follows it in the archive. */
  lemma SizeNotClamped(data: seq<byte>, pos: nat, e: Entry, dataOffset: nat, size: nat, offset: int)
    requires 0 <= offset < e.Size()
    requires dataOffset + e.dataStart + offset + size <= |data|
    ensures EntryRead(data, pos, e, dataOffset, size, offset).0
      == Ok(data[dataOffset + e.dataStart + offset..dataOffset + e.dataStart + offset + size])
    ensures EntryRead(data, pos, e, dataOffset, size, offset).1 == dataOffset + e.dataStart + offset + size
  {
  }

  /** An offset far enough before the entry makes the seek target negative,
      which `seek` refuses. */
  lemma NegativeTargetFails(data: seq<byte>, pos: nat, e: Entry, dataOffset: nat, size: int, offset: int)
    requires offset < e.Size() && e.dataStart + dataOffset + offset < 0
    ensures EntryRead(data, pos, e, dataOffset, size, offset) == (Err(ValueError), pos)
  {
  }
}
