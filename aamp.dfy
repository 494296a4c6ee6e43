/** The AAMP parameter-tree container as read by `codec/aamp/aamp` and by the
    stand-alone `aamp2xml/aamp` package: the 52-byte header, the 8-byte node
    record, the two 12-byte root records, the recursive tree read in which a
    node's children or payload sit at `node_start + 4*data_offset`, and the
    string renderer of `aamp2xml`. */
module Aamp {
  import opened Wrappers
  import opened Bytes
  import opened ByteSource
  import SarcRecords
  import AampTypes

  /** The two packages that read AAMP files. */
  datatype Package = CodecPackage | Aamp2Xml

  /** A condition `validate` logs without failing. */
  datatype Warning = XmlString(found: seq<byte>) | RootCount(count: nat) | RootId(id: nat)

  // --------------------------------------------------------------- u32 runs

  predicate AllU32(ws: seq<nat>)
  {
    forall i :: 0 <= i < |ws| ==> ws[i] < 0x1_0000_0000
  }

  /** Consecutive little-endian u32 fields. */
  function LE32s(ws: seq<nat>): (b: seq<byte>)
    requires AllU32(ws)
    ensures |b| == 4 * |ws|
  {
    if ws == [] then [] else LE32(ws[0]) + LE32s(ws[1..])
  }

  /** The u32 fields a run of bytes holds. */
  function Words32(b: seq<byte>): (ws: seq<nat>)
    requires |b| % 4 == 0
    ensures |ws| == |b| / 4 && AllU32(ws)
    decreases |b|
  {
    if b == [] then [] else [U32LE(b, 0)] + Words32(b[4..])
  }

  lemma {:induction false} WordsRoundTrip(ws: seq<nat>)
    requires AllU32(ws)
    ensures Words32(LE32s(ws)) == ws
  {
    if ws != [] {
      var b := LE32s(ws);
      assert b[0..4] == LE32(ws[0]);
      U32At(b, 0, ws[0]);
      assert b[4..] == LE32s(ws[1..]);
      WordsRoundTrip(ws[1..]);
    }
  }

  // ----------------------------------------------------------------- header

  const AAMP_MAGIC: seq<byte> := [0x41, 0x41, 0x4D, 0x50]
  /** b'xml\0' */
  const XML_TAG: seq<byte> := [0x78, 0x6D, 0x6C, 0x00]
  const HEADER_SIZE: nat := 52

  /** The header: a 4-byte magic, eleven u32 fields and the 4-byte `str_xml`. */
  datatype Header = Header(magic: seq<byte>, version: nat, unk08: nat, fileSize: nat, unk10: nat,
                           xmlStrLen: nat, numRootNodes: nat, numChildren: nat, totalNodes: nat,
                           dataBufSize: nat, strBufSize: nat, unk2C: nat, strXml: seq<byte>)

  /** The eleven u32 fields in stored order. */
  function Words(h: Header): (ws: seq<nat>)
    ensures |ws| == 11
  {
    [h.version, h.unk08, h.fileSize, h.unk10, h.xmlStrLen, h.numRootNodes, h.numChildren,
     h.totalNodes, h.dataBufSize, h.strBufSize, h.unk2C]
  }

  predicate HeaderFits(h: Header)
  {
    |h.magic| == 4 && |h.strXml| == 4 && AllU32(Words(h))
  }

  function DecodeHeader(b: seq<byte>): (h: Header)
    requires |b| == HEADER_SIZE
    ensures HeaderFits(h)
  {
    var w := Words32(b[4..48]);
    var h := Header(b[0..4], w[0], w[1], w[2], w[3], w[4], w[5], w[6], w[7], w[8], w[9], w[10], b[48..52]);
    assert Words(h) == w;
    h
  }

  function EncodeHeader(h: Header): (b: seq<byte>)
    requires HeaderFits(h)
    ensures |b| == HEADER_SIZE
  {
    h.magic + LE32s(Words(h)) + h.strXml
  }

  /** Every header field is read back from where it is stored. */
  lemma HeaderRoundTrip(h: Header)
    requires HeaderFits(h)
    ensures DecodeHeader(EncodeHeader(h)) == h
  {
    var b := EncodeHeader(h);
    assert b[0..4] == h.magic;
    assert b[4..48] == LE32s(Words(h));
    assert b[48..52] == h.strXml;
    WordsRoundTrip(Words(h));
  }

  /** `Header.validate` of either package: the magic and then the version are
      asserted. The XML string is only logged, and the codec package also logs
      a root count other than one, which `aamp2xml` does not check. `Ok` holds
      the logged warnings. */
  function ValidateHeader(pkg: Package, h: Header): (r: Result<seq<Warning>>)
    ensures r.Ok? <==> h.magic == AAMP_MAGIC && h.version == 2
    ensures h.magic != AAMP_MAGIC ==> r == Err(AssertionFailed("Not an AAMP file"))
    ensures h.magic == AAMP_MAGIC && h.version != 2 ==>
      r == Err(AssertionFailed("Unsupported version: " + Decimal(h.version)))
    ensures r.Ok? ==> (XmlString(h.strXml) in r.value <==> h.strXml != XML_TAG)
    ensures r.Ok? ==> (RootCount(h.numRootNodes) in r.value <==> pkg == CodecPackage && h.numRootNodes != 1)
    ensures r.Ok? ==> (|r.value| ==
      (if h.strXml != XML_TAG then 1 else 0) + (if pkg == CodecPackage && h.numRootNodes != 1 then 1 else 0))
  {
    if h.magic != AAMP_MAGIC then Err(AssertionFailed("Not an AAMP file"))
    else if h.version != 2 then Err(AssertionFailed("Unsupported version: " + Decimal(h.version)))
    else
      var w1 := if h.strXml != XML_TAG then [XmlString(h.strXml)] else [];
      var w2 := if pkg == CodecPackage && h.numRootNodes != 1 then [RootCount(h.numRootNodes)] else [];
      Ok(w1 + w2)
  }

  /** The two packages accept and reject the same headers with the same
      message; the codec package logs at most one warning more, about the root
      count. */
  lemma HeaderChecksAgree(h: Header)
    ensures ValidateHeader(CodecPackage, h).Err? <==> ValidateHeader(Aamp2Xml, h).Err?
    ensures ValidateHeader(CodecPackage, h).Err? ==>
      ValidateHeader(CodecPackage, h).error == ValidateHeader(Aamp2Xml, h).error
    ensures ValidateHeader(CodecPackage, h).Ok? ==>
      ValidateHeader(CodecPackage, h).value ==
        ValidateHeader(Aamp2Xml, h).value + (if h.numRootNodes != 1 then [RootCount(h.numRootNodes)] else [])
  {
  }

  /** `Header().readFromFile(file)`: read the record, decode it and validate it. */
  function HeaderAt(pkg: Package, data: seq<byte>, pos: nat): (r: (Result<(Header, seq<Warning>)>, nat))
    ensures r.0.Ok? <==> pos + HEADER_SIZE <= |data| && ValidateHeader(pkg, DecodeHeader(data[pos..pos + HEADER_SIZE])).Ok?
    ensures r.0.Ok? ==> r.1 == pos + HEADER_SIZE && r.0.value.0 == DecodeHeader(data[pos..pos + HEADER_SIZE])
    ensures r.0.Ok? ==> r.0.value.1 == ValidateHeader(pkg, r.0.value.0).value
  {
    var (b, p) := SarcRecords.RecordAt(data, pos, HEADER_SIZE);
    if b.Err? then (Err(b.error), p)
    else
      var h := DecodeHeader(b.value);
      var v := ValidateHeader(pkg, h);
      if v.Err? then (Err(v.error), p) else (Ok((h, v.value)), p)
  }

  method ReadHeader(pkg: Package, file: BinFile) returns (r: Result<(Header, seq<Warning>)>)
    modifies file
    ensures (r, file.pos) == HeaderAt(pkg, file.data, old(file.pos))
  {
    var b := SarcRecords.ReadRecord(file, HEADER_SIZE);
    if b.Err? {
      return Err(b.error);
    }
    var h := DecodeHeader(b.value);
    var v := ValidateHeader(pkg, h);
    if v.Err? {
      return Err(v.error);
    }
    r := Ok((h, v.value));
  }

  // ---------------------------------------------------------------- records

  const NODE_SIZE: nat := 8
  const ROOT_SIZE: nat := 12
  /** The hash of `param_root`. */
  const ROOT_ID: nat := 0xA4F6CB6C

  /** A node record: u32 name hash, u16 data_offset, u8 num_children, u8
      data_type. */
  datatype NodeRecord = NodeRecord(nameHash: nat, dataOffset: nat, numChildren: nat, dataType: nat)

  predicate NodeFits(n: NodeRecord)
  {
    n.nameHash < 0x1_0000_0000 && n.dataOffset < 0x1_0000 && n.numChildren < 0x100 && n.dataType < 0x100
  }

  function DecodeNode(b: seq<byte>): (n: NodeRecord)
    requires |b| == NODE_SIZE
    ensures NodeFits(n)
  {
    NodeRecord(U32LE(b, 0), U16LE(b, 4), b[6] as nat, b[7] as nat)
  }

  function EncodeNode(n: NodeRecord): (b: seq<byte>)
    requires NodeFits(n)
    ensures |b| == NODE_SIZE
  {
    LE32(n.nameHash) + LE16(n.dataOffset) + [ToByte(n.numChildren), ToByte(n.dataType)]
  }

  lemma NodeRoundTrip(n: NodeRecord)
    requires NodeFits(n)
    ensures DecodeNode(EncodeNode(n)) == n
  {
    var b := EncodeNode(n);
    assert b[0..4] == LE32(n.nameHash);
    assert b[4..6] == LE16(n.dataOffset);
    U32At(b, 0, n.nameHash);
    U16At(b, 4, n.dataOffset);
  }

  /** The codec package's root record: u32 name hash, u16 unk04, u16 unk06, u16
      data_offset, u16 num_children. It has no data_type field. */
  datatype RootRecord = RootRecord(nameHash: nat, unk04: nat, unk06: nat, dataOffset: nat, numChildren: nat)

  predicate RootFits(r: RootRecord)
  {
    r.nameHash < 0x1_0000_0000 && r.unk04 < 0x1_0000 && r.unk06 < 0x1_0000 && r.dataOffset < 0x1_0000
    && r.numChildren < 0x1_0000
  }

  function DecodeRoot(b: seq<byte>): (r: RootRecord)
    requires |b| == ROOT_SIZE
    ensures RootFits(r)
  {
    RootRecord(U32LE(b, 0), U16LE(b, 4), U16LE(b, 6), U16LE(b, 8), U16LE(b, 10))
  }

  function EncodeRoot(r: RootRecord): (b: seq<byte>)
    requires RootFits(r)
    ensures |b| == ROOT_SIZE
  {
    LE32(r.nameHash) + LE16(r.unk04) + LE16(r.unk06) + LE16(r.dataOffset) + LE16(r.numChildren)
  }

  lemma RootRoundTrip(r: RootRecord)
    requires RootFits(r)
    ensures DecodeRoot(EncodeRoot(r)) == r
  {
    var b := EncodeRoot(r);
    assert b[0..4] == LE32(r.nameHash);
    assert b[4..6] == LE16(r.unk04);
    assert b[6..8] == LE16(r.unk06);
    assert b[8..10] == LE16(r.dataOffset);
    LastField(LE32(r.nameHash) + LE16(r.unk04) + LE16(r.unk06) + LE16(r.dataOffset), LE16(r.numChildren));
    U32At(b, 0, r.nameHash);
    U16At(b, 4, r.unk04);
    U16At(b, 6, r.unk06);
    U16At(b, 8, r.dataOffset);
    U16At(b, 10, r.numChildren);
  }

  /** The `aamp2xml` root record: u32 node id, u32 unk04, u16 data_offset, u16
      num_children. */
  datatype RootRecord2 = RootRecord2(nodeId: nat, unk04: nat, dataOffset: nat, numChildren: nat)

  predicate Root2Fits(r: RootRecord2)
  {
    r.nodeId < 0x1_0000_0000 && r.unk04 < 0x1_0000_0000 && r.dataOffset < 0x1_0000 && r.numChildren < 0x1_0000
  }

  function DecodeRoot2(b: seq<byte>): (r: RootRecord2)
    requires |b| == ROOT_SIZE
    ensures Root2Fits(r)
  {
    RootRecord2(U32LE(b, 0), U32LE(b, 4), U16LE(b, 8), U16LE(b, 10))
  }

  function EncodeRoot2(r: RootRecord2): (b: seq<byte>)
    requires Root2Fits(r)
    ensures |b| == ROOT_SIZE
  {
    LE32(r.nodeId) + LE32(r.unk04) + LE16(r.dataOffset) + LE16(r.numChildren)
  }

  lemma Root2RoundTrip(r: RootRecord2)
    requires Root2Fits(r)
    ensures DecodeRoot2(EncodeRoot2(r)) == r
  {
    var b := EncodeRoot2(r);
    assert b[0..4] == LE32(r.nodeId);
    assert b[4..8] == LE32(r.unk04);
    assert b[8..10] == LE16(r.dataOffset);
    LastField(LE32(r.nodeId) + LE32(r.unk04) + LE16(r.dataOffset), LE16(r.numChildren));
    U32At(b, 0, r.nodeId);
    U32At(b, 4, r.unk04);
    U16At(b, 8, r.dataOffset);
    U16At(b, 10, r.numChildren);
  }

  /** `RootNode.validate` of `aamp2xml`: an id other than `param_root` is only
      logged. (The codec package's check is commented out.) */
  function RootWarnings(r: RootRecord2): (w: seq<Warning>)
    ensures w == [] <==> r.nodeId == ROOT_ID
    ensures w != [] ==> w == [RootId(r.nodeId)]
  {
    if r.nodeId != ROOT_ID then [RootId(r.nodeId)] else []
  }

  /** An inner node holds at most 255 children, a root up to 65535. */
  lemma ChildLimits(b: seq<byte>)
    requires |b| == ROOT_SIZE
    ensures DecodeNode(b[..NODE_SIZE]).numChildren < 0x100
    ensures DecodeRoot(b).numChildren < 0x1_0000 && DecodeRoot2(b).numChildren < 0x1_0000
    ensures exists c: RootRecord :: RootFits(c) && c.numChildren == 0xFFFF
  {
    assert RootFits(RootRecord(0, 0, 0, 0, 0xFFFF));
  }

  // ------------------------------------------------------------- node tree

  /** How a childless node's payload is read: `read_aamp_type` at a position
      for a type id. */
  type LeafReader = (nat, nat) -> Result<AampTypes.Data>

  /** The payload reader of a file holding `data`, with the registry `types`. */
  function Leaves(types: map<nat, AampTypes.TypeDef>, data: seq<byte>): (f: LeafReader)
  {
    (p: nat, t: nat) => AampTypes.ReadType(types, data, p, t).0
  }

  /** A node once read: its name, its hash, its children in order, and for a
      childless node the payload read by its type (none for a root). */
  datatype Tree = Tree(name: string, nameHash: nat, children: seq<Tree>,
                       data: Option<AampTypes.Data>, dataType: Option<nat>)

  /** `Node(file)`, reading at `pos` with the record size the struct reader
      computes. `names` is the name-hash lookup; `fuel` is how many more nested
      reads Python's recursion limit allows. The position afterwards is
      `pos + NODE_SIZE` whatever was read beneath the node. */
  function NodeAt(data: seq<byte>, pos: nat, leaf: LeafReader, names: nat -> string, fuel: nat)
    : (r: Result<Tree>)
    ensures r.Ok? ==> fuel > 0 && pos + NODE_SIZE <= |data|
    decreases fuel, 2
  {
    if fuel == 0 then Err(RecursionLimit)
    else
      var (b, _) := SarcRecords.RecordAt(data, pos, NODE_SIZE);
      if b.Err? then Err(b.error)
      else
        var n := DecodeNode(b.value);
        Body(data, pos, n.nameHash, n.dataOffset, n.numChildren, Some(n.dataType), leaf, names, fuel)
  }

  /** What `readFromFile` does after the record of a node starting at `start`:
      children, else a typed payload, else nothing, all at `start +
      4*dataOffset`. */
  function Body(data: seq<byte>, start: nat, hash: nat, dataOffset: nat, numChildren: nat, dataType: Option<nat>,
                leaf: LeafReader, names: nat -> string, fuel: nat): (r: Result<Tree>)
    requires fuel > 0
    ensures r.Ok? ==> r.value.name == names(hash) && r.value.nameHash == hash && r.value.dataType == dataType
    ensures r.Ok? ==> |r.value.children| == numChildren
    decreases fuel, 1
  {
    var payload := start + 4 * dataOffset;
    if numChildren > 0 then
      var cs := ChildrenAt(data, payload, numChildren, leaf, names, fuel - 1);
      if cs.Err? then Err(cs.error) else Ok(Tree(names(hash), hash, cs.value, None, dataType))
    else if dataType.Some? then
      var d := leaf(payload, dataType.value);
      if d.Err? then Err(d.error) else Ok(Tree(names(hash), hash, [], Some(d.value), dataType))
    else
      Ok(Tree(names(hash), hash, [], None, None))
  }

  /** `n` node records read one after the other from `start`. */
  function ChildrenAt(data: seq<byte>, start: nat, n: nat, leaf: LeafReader,
                      names: nat -> string, fuel: nat): (r: Result<seq<Tree>>)
    ensures r.Ok? ==> |r.value| == n
    decreases fuel, 4
  {
    Records(ChildReader(data, leaf, names, fuel), start, n)
  }

  /** `Node(file)` as a function of the position it starts at. */
  function ChildReader(data: seq<byte>, leaf: LeafReader, names: nat -> string, fuel: nat): (f: nat -> Result<Tree>)
    decreases fuel, 3
  {
    (p: nat) => NodeAt(data, p, leaf, names, fuel)
  }

  /** `n` reads by `f` at `start`, `start + 8`, ..., stopping at the first
      failure. */
  function Records<T>(f: nat -> Result<T>, start: nat, n: nat): (r: Result<seq<T>>)
    ensures r.Ok? ==> |r.value| == n
    decreases n
  {
    if n == 0 then Ok([])
    else
      var c := f(start);
      if c.Err? then Err(c.error)
      else
        var rest := Records(f, start + NODE_SIZE, n - 1);
        if rest.Err? then rest else Ok([c.value] + rest.value)
  }

  lemma {:induction false} RecordAt<T>(f: nat -> Result<T>, start: nat, n: nat, i: nat)
    requires Records(f, start, n).Ok? && i < n
    ensures f(start + 8 * i) == Ok(Records(f, start, n).value[i])
    decreases i
  {
    RecordsUnfold(f, start, n);
    if i > 0 {
      RecordAt(f, start + NODE_SIZE, n - 1, i - 1);
      assert start + NODE_SIZE + 8 * (i - 1) == start + 8 * i;
    }
  }

  lemma RecordsUnfold<T>(f: nat -> Result<T>, start: nat, n: nat)
    requires n > 0 && Records(f, start, n).Ok?
    ensures f(start) == Ok(Records(f, start, n).value[0])
    ensures Records(f, start + NODE_SIZE, n - 1) == Ok(Records(f, start, n).value[1..])
  {
    var rest := Records(f, start + NODE_SIZE, n - 1).value;
    assert ([f(start).value] + rest)[1..] == rest;
  }

  /** One more successful read moves from the remaining reads to the ones
      collected so far. */
  lemma RecordsStep<T>(f: nat -> Result<T>, at: nat, k: nat, cs: seq<T>)
    requires k > 0 && f(at).Ok?
    ensures Prefixed(cs, Records(f, at, k)) == Prefixed(cs + [f(at).value], Records(f, at + NODE_SIZE, k - 1))
  {
    var rest := Records(f, at + NODE_SIZE, k - 1);
    if rest.Ok? {
      assert cs + ([f(at).value] + rest.value) == (cs + [f(at).value]) + rest.value;
    }
  }

  /** The record fields of the node stored at `pos`. */
  function RecordOf(data: seq<byte>, pos: nat): (n: NodeRecord)
    requires pos + NODE_SIZE <= |data|
    ensures n == DecodeNode(data[pos..pos + NODE_SIZE])
  {
    DecodeNode(data[pos..pos + NODE_SIZE])
  }

  /** A node read is its record's name and child count; a childless node
      carries what its type reads at `pos + 4*data_offset`. */
  lemma NodeShape(data: seq<byte>, pos: nat, leaf: LeafReader, names: nat -> string, fuel: nat)
    requires NodeAt(data, pos, leaf, names, fuel).Ok?
    ensures var t := NodeAt(data, pos, leaf, names, fuel).value;
      var n := RecordOf(data, pos);
      t.name == names(n.nameHash) && t.nameHash == n.nameHash && t.dataType == Some(n.dataType) &&
      |t.children| == n.numChildren &&
      (n.numChildren == 0 ==>
        t.data.Some? && leaf(pos + 4 * n.dataOffset, n.dataType) == Ok(t.data.value))
  {
    assert SarcRecords.RecordAt(data, pos, NODE_SIZE).0 == Ok(data[pos..pos + NODE_SIZE]);
  }

  /** The children are the consecutive records starting at the payload: child
      `i` is the node read at `start + 8*i`. */
  lemma ChildrenLayout(data: seq<byte>, start: nat, n: nat, leaf: LeafReader,
                       names: nat -> string, fuel: nat)
    requires ChildrenAt(data, start, n, leaf, names, fuel).Ok?
    ensures forall i :: 0 <= i < n ==>
      NodeAt(data, start + 8 * i, leaf, names, fuel) == Ok(ChildrenAt(data, start, n, leaf, names, fuel).value[i])
  {
    var f := ChildReader(data, leaf, names, fuel);
    forall i | 0 <= i < n
      ensures NodeAt(data, start + 8 * i, leaf, names, fuel) == Ok(ChildrenAt(data, start, n, leaf, names, fuel).value[i])
    {
      RecordAt(f, start, n, i);
    }
  }

  /** A node with children and data_offset 0 reads itself as its own first
      child, so the read only ends when the recursion limit is hit. */
  lemma {:induction false} SelfLoop(data: seq<byte>, pos: nat, leaf: LeafReader,
                                    names: nat -> string, fuel: nat)
    requires pos + NODE_SIZE <= |data|
    requires RecordOf(data, pos).dataOffset == 0 && RecordOf(data, pos).numChildren > 0
    ensures NodeAt(data, pos, leaf, names, fuel) == Err(RecursionLimit)
    decreases fuel
  {
    if fuel > 0 {
      var n := RecordOf(data, pos);
      assert SarcRecords.RecordAt(data, pos, NODE_SIZE).0 == Ok(data[pos..pos + NODE_SIZE]);
      SelfLoop(data, pos, leaf, names, fuel - 1);
      var f := ChildReader(data, leaf, names, fuel - 1);
      assert f(pos) == Err(RecursionLimit);
      assert pos + 4 * n.dataOffset == pos;
      assert ChildrenAt(data, pos, n.numChildren, leaf, names, fuel - 1) == Err(RecursionLimit);
    }
  }

  /** The codec package's `RootNode(file)`: the 12-byte root record, then the
      same body as a node, without a data type. */
  function RootAt(data: seq<byte>, pos: nat, leaf: LeafReader, names: nat -> string, fuel: nat)
    : (r: Result<Tree>)
    ensures r.Ok? ==> fuel > 0 && pos + ROOT_SIZE <= |data| && r.value.dataType.None?
  {
    if fuel == 0 then Err(RecursionLimit)
    else
      var (b, _) := SarcRecords.RecordAt(data, pos, ROOT_SIZE);
      if b.Err? then Err(b.error)
      else
        var n := DecodeRoot(b.value);
        Body(data, pos, n.nameHash, n.dataOffset, n.numChildren, None, leaf, names, fuel)
  }

  /** The `aamp2xml` `RootNode(file)`: a childless root asks for its data_type,
      which the root record does not have. */
  function Root2At(data: seq<byte>, pos: nat, leaf: LeafReader, names: nat -> string, fuel: nat)
    : (r: Result<(Tree, seq<Warning>)>)
    ensures r.Ok? ==> fuel > 0 && pos + ROOT_SIZE <= |data| && |r.value.0.children| > 0
  {
    if fuel == 0 then Err(RecursionLimit)
    else
      var (b, _) := SarcRecords.RecordAt(data, pos, ROOT_SIZE);
      if b.Err? then Err(b.error)
      else
        var n := DecodeRoot2(b.value);
        if n.numChildren == 0 then Err(AttributeError)
        else
          var t :- Body(data, pos, n.nodeId, n.dataOffset, n.numChildren, None, leaf, names, fuel);
          Ok((t, RootWarnings(n)))
  }

  /** A childless root: the codec package keeps no data, `aamp2xml` fails. */
  lemma ChildlessRoot(data: seq<byte>, pos: nat, leaf: LeafReader, names: nat -> string, fuel: nat)
    requires fuel > 0 && pos + ROOT_SIZE <= |data|
    requires data[pos + 10] == 0 && data[pos + 11] == 0
    ensures var n := DecodeRoot(data[pos..pos + ROOT_SIZE]);
      RootAt(data, pos, leaf, names, fuel) == Ok(Tree(names(n.nameHash), n.nameHash, [], None, None))
    ensures Root2At(data, pos, leaf, names, fuel) == Err(AttributeError)
  {
    var b := data[pos..pos + ROOT_SIZE];
    assert b[10] == 0 && b[11] == 0;
  }

  /** Both packages read a root's children as the consecutive node records at
      `root_start + 4*data_offset`. */
  lemma RootChildren(data: seq<byte>, pos: nat, leaf: LeafReader, names: nat -> string, fuel: nat)
    requires RootAt(data, pos, leaf, names, fuel).Ok?
    ensures var n := DecodeRoot(data[pos..pos + ROOT_SIZE]);
      n.numChildren > 0 ==>
      Ok(RootAt(data, pos, leaf, names, fuel).value.children) ==
        ChildrenAt(data, pos + 4 * n.dataOffset, n.numChildren, leaf, names, fuel - 1)
  {
  }

  lemma Root2Children(data: seq<byte>, pos: nat, leaf: LeafReader, names: nat -> string, fuel: nat)
    requires Root2At(data, pos, leaf, names, fuel).Ok?
    ensures var n := DecodeRoot2(data[pos..pos + ROOT_SIZE]);
      Ok(Root2At(data, pos, leaf, names, fuel).value.0.children) ==
        ChildrenAt(data, pos + 4 * n.dataOffset, n.numChildren, leaf, names, fuel - 1) &&
      Root2At(data, pos, leaf, names, fuel).value.1 == RootWarnings(n)
  {
  }

  // ----------------------------------------------------- reading from a file

  /** `Node(file)` on a file object. */
  method ReadNode(file: BinFile, reg: AampTypes.Registry, names: nat -> string, fuel: nat) returns (r: Result<Tree>)
    modifies file
    ensures r == NodeAt(file.data, old(file.pos), Leaves(reg.types, file.data), names, fuel)
    ensures r.Ok? ==> file.pos == old(file.pos) + NODE_SIZE
    decreases fuel, 2
  {
    if fuel == 0 {
      return Err(RecursionLimit);
    }
    var start := file.Tell();
    var b := SarcRecords.ReadRecord(file, NODE_SIZE);
    if b.Err? {
      return Err(b.error);
    }
    var n := DecodeNode(b.value);
    r := ReadBody(file, start, NODE_SIZE, n.nameHash, n.dataOffset, n.numChildren, Some(n.dataType), reg, names, fuel);
  }

  /** The codec package's `RootNode(file)` on a file object. */
  method ReadRoot(file: BinFile, reg: AampTypes.Registry, names: nat -> string, fuel: nat) returns (r: Result<Tree>)
    modifies file
    ensures r == RootAt(file.data, old(file.pos), Leaves(reg.types, file.data), names, fuel)
    ensures r.Ok? ==> file.pos == old(file.pos) + ROOT_SIZE
  {
    if fuel == 0 {
      return Err(RecursionLimit);
    }
    var start := file.Tell();
    var b := SarcRecords.ReadRecord(file, ROOT_SIZE);
    if b.Err? {
      return Err(b.error);
    }
    var n := DecodeRoot(b.value);
    r := ReadBody(file, start, ROOT_SIZE, n.nameHash, n.dataOffset, n.numChildren, None, reg, names, fuel);
  }

  /** Seek to the payload relative to the end of the record, read it, and put
      the position back. */
  method ReadBody(file: BinFile, start: nat, size: nat, hash: nat, dataOffset: nat, numChildren: nat,
                  dataType: Option<nat>, reg: AampTypes.Registry, names: nat -> string, fuel: nat)
    returns (r: Result<Tree>)
    requires fuel > 0 && file.pos == start + size
    modifies file
    ensures r == Body(file.data, start, hash, dataOffset, numChildren, dataType, Leaves(reg.types, file.data), names, fuel)
    ensures r.Ok? ==> file.pos == old(file.pos)
    decreases fuel, 1
  {
    var cur := file.Tell();
    var _ := file.Seek(dataOffset * 4 - size, 1);
    if numChildren > 0 {
      var cs := ReadChildren(file, numChildren, reg, names, fuel - 1);
      if cs.Err? {
        return Err(cs.error);
      }
      r := Ok(Tree(names(hash), hash, cs.value, None, dataType));
    } else if dataType.Some? {
      var d := AampTypes.ReadAampType(file, reg, dataType.value);
      if d.Err? {
        return Err(d.error);
      }
      r := Ok(Tree(names(hash), hash, [], Some(d.value), dataType));
    } else {
      r := Ok(Tree(names(hash), hash, [], None, None));
    }
    var _ := file.Seek(cur, 0);
  }

  function Prefixed<T>(p: seq<T>, r: Result<seq<T>>): Result<seq<T>>
  {
    if r.Ok? then Ok(p + r.value) else r
  }

  lemma PrefixedEmpty<T>(r: Result<seq<T>>)
    ensures Prefixed([], r) == r
  {
    if r.Ok? {
      assert [] + r.value == r.value;
    }
  }

  /** The `for` loop appending `Node(file)` children. */
  method ReadChildren(file: BinFile, n: nat, reg: AampTypes.Registry, names: nat -> string, fuel: nat)
    returns (r: Result<seq<Tree>>)
    modifies file
    ensures r == ChildrenAt(file.data, old(file.pos), n, Leaves(reg.types, file.data), names, fuel)
    ensures r.Ok? ==> file.pos == old(file.pos) + 8 * n
    decreases fuel, 4
  {
    ghost var f := ChildReader(file.data, Leaves(reg.types, file.data), names, fuel);
    var start := file.pos;
    var cs: seq<Tree> := [];
    var i := 0;
    PrefixedEmpty(Records(f, start, n));
    while i < n
      invariant 0 <= i <= n
      invariant file.pos == start + 8 * i
      invariant Records(f, start, n) == Prefixed(cs, Records(f, start + 8 * i, n - i))
    {
      var c := ReadNode(file, reg, names, fuel);
      if c.Err? {
        return Err(c.error);
      }
      RecordsStep(f, start + 8 * i, n - i, cs);
      cs := cs + [c.value];
      i := i + 1;
    }
    assert cs + [] == cs;
    r := Ok(cs);
  }

  // ------------------------------------------------- the code as written

  /** The codec package's `Node.readFromFile` as written: the record is read,
      then `self._reader.size` is looked up, and the struct reader has no such
      attribute (it keeps the size in `_dataSize`). The root inherits the same
      method. */
  function NodeAtAsWritten(data: seq<byte>, pos: nat, size: nat): (r: Result<Tree>)
    requires size > 0
  {
    var (b, _) := SarcRecords.RecordAt(data, pos, size);
    if b.Err? then Err(b.error) else Err(AttributeError)
  }

  /** As written, no node or root is ever read: a full record ends in
      AttributeError, a short one in struct.error. */
  lemma AsWrittenNeverReads(data: seq<byte>, pos: nat)
    ensures NodeAtAsWritten(data, pos, NODE_SIZE).Err? && NodeAtAsWritten(data, pos, ROOT_SIZE).Err?
    ensures pos + NODE_SIZE <= |data| ==> NodeAtAsWritten(data, pos, NODE_SIZE) == Err(AttributeError)
    ensures pos + ROOT_SIZE <= |data| ==> NodeAtAsWritten(data, pos, ROOT_SIZE) == Err(AttributeError)
  {
  }

  /** A single boolean node: hash 0, payload one word further on, no children, type 0 (bool). */
  const BOOL_NODE: seq<byte> := [0, 0, 0, 0, 2, 0, 0, 0, 1, 0, 0, 0]

  lemma BoolNodeRecord()
    ensures SarcRecords.RecordAt(BOOL_NODE, 0, NODE_SIZE).0 == Ok(BOOL_NODE[0..8])
    ensures DecodeNode(BOOL_NODE[0..8]) == NodeRecord(0, 2, 0, 0)
  {
  }

  lemma BoolNodeLeaf()
    ensures Leaves(AampTypes.Builtin(), BOOL_NODE)(8, 0) == Ok(AampTypes.Flag(true))
  {
    assert AampTypes.Builtin()[0].read == AampTypes.Call(AampTypes.BoolFn);
    assert ReadSlice(BOOL_NODE, 8, 4) == [1, 0, 0, 0];
  }

  /** A bool leaf whose payload follows its record: the corrected read returns
      it, the code as written does not (`BoolNodeAsWritten`). */
  lemma BoolLeafExample(names: nat -> string)
    ensures NodeAt(BOOL_NODE, 0, Leaves(AampTypes.Builtin(), BOOL_NODE), names, 1)
              == Ok(Tree(names(0), 0, [], Some(AampTypes.Flag(true)), Some(0)))
  {
    BoolNodeRecord();
    BoolNodeLeaf();
    LeafNodeAt(BOOL_NODE, Leaves(AampTypes.Builtin(), BOOL_NODE), names, AampTypes.Flag(true));
  }

  /** A record with hash 0, offset 2, no children and type 0 makes a leaf of what its payload reads as. */
  lemma LeafNodeAt(data: seq<byte>, leaf: LeafReader, names: nat -> string, d: AampTypes.Data)
    requires NODE_SIZE <= |data| && DecodeNode(data[0..8]) == NodeRecord(0, 2, 0, 0)
    requires leaf(8, 0) == Ok(d)
    ensures NodeAt(data, 0, leaf, names, 1) == Ok(Tree(names(0), 0, [], Some(d), Some(0)))
  {
    NodeUnfold(data, 0, leaf, names, 1);
    LeafBody(data, 0, 0, 2, 0, leaf, names, 1);
  }

  /** A childless node with a type is the leaf its payload reads as. */
  lemma LeafBody(data: seq<byte>, start: nat, hash: nat, dataOffset: nat, dataType: nat,
                 leaf: LeafReader, names: nat -> string, fuel: nat)
    requires fuel > 0 && leaf(start + 4 * dataOffset, dataType).Ok?
    ensures Body(data, start, hash, dataOffset, 0, Some(dataType), leaf, names, fuel)
              == Ok(Tree(names(hash), hash, [], Some(leaf(start + 4 * dataOffset, dataType).value), Some(dataType)))
  {
  }

  /** With fuel and a whole record, a node is the body its record describes. */
  lemma NodeUnfold(data: seq<byte>, pos: nat, leaf: LeafReader, names: nat -> string, fuel: nat)
    requires fuel > 0 && pos + NODE_SIZE <= |data|
    ensures var n := DecodeNode(data[pos..pos + 8]);
      NodeAt(data, pos, leaf, names, fuel)
        == Body(data, pos, n.nameHash, n.dataOffset, n.numChildren, Some(n.dataType), leaf, names, fuel)
  {
    assert SarcRecords.RecordAt(data, pos, NODE_SIZE).0 == Ok(data[pos..pos + 8]);
  }

  lemma BoolNodeAsWritten()
    ensures NodeAtAsWritten(BOOL_NODE, 0, NODE_SIZE) == Err(AttributeError)
  {
    BoolNodeRecord();
  }


  // -------------------------------------------------- aamp2xml rendering

  function Spaces(n: nat): (s: string)
    ensures |s| == n && forall i :: 0 <= i < n ==> s[i] == ' '
  {
    seq(n, _ => ' ')
  }

  /** `Node.toXML(_depth)` of `aamp2xml`: a node with children gives its open
      tag, its children one level deeper and its close tag, each line indented
      by `depth` spaces; a leaf gives one line with its type name and
      `show(data)`, unescaped. `show` stands for Python's `str`. */
  function Render(t: Tree, depth: nat, types: map<nat, AampTypes.TypeDef>, show: AampTypes.Data -> string)
    : (r: Result<string>)
    decreases t, 1
  {
    var pad := Spaces(depth);
    if |t.children| > 0 then
      var inner := RenderFrom(t, 0, depth + 1, types, show);
      if inner.Err? then inner
      else Ok(pad + "<" + t.name + ">\n" + inner.value + pad + "</" + t.name + ">\n")
    else if t.dataType.None? then Err(AttributeError)
    else
      var typ := AampTypes.TypeName(types, t.dataType.value);
      if typ.Err? then Err(typ.error)
      else
        var text := if t.data.Some? then show(t.data.value) else "None";
        Ok(pad + "<" + t.name + " type=\"" + typ.value + "\">" + text + "</" + t.name + ">\n")
  }

  /** The children of `t` from the `i`-th on, rendered and joined. */
  function RenderFrom(t: Tree, i: nat, depth: nat, types: map<nat, AampTypes.TypeDef>, show: AampTypes.Data -> string)
    : (r: Result<string>)
    requires i <= |t.children|
    decreases t, 0, |t.children| - i
  {
    if i == |t.children| then Ok("")
    else
      var c := Render(t.children[i], depth, types, show);
      if c.Err? then c
      else
        var rest := RenderFrom(t, i + 1, depth, types, show);
        if rest.Err? then rest else Ok(c.value + rest.value)
  }

  function Newlines(s: string): nat
  {
    if s == [] then 0 else (if s[0] == '\n' then 1 else 0) + Newlines(s[1..])
  }

  lemma {:induction false} NewlinesAppend(a: string, b: string)
    ensures Newlines(a + b) == Newlines(a) + Newlines(b)
  {
    if a != [] {
      assert (a + b)[1..] == a[1..] + b;
      NewlinesAppend(a[1..], b);
    } else {
      assert a + b == b;
    }
  }

  lemma {:induction false} NoNewlines(s: string)
    requires '\n' !in s
    ensures Newlines(s) == 0
  {
    if s != [] {
      NoNewlines(s[1..]);
    }
  }

  /** The lines a rendering takes: two per node with children, one per leaf. */
  function Lines(t: Tree): nat
    decreases t, 1
  {
    if |t.children| > 0 then 2 + LinesFrom(t, 0) else 1
  }

  function LinesFrom(t: Tree, i: nat): nat
    requires i <= |t.children|
    decreases t, 0, |t.children| - i
  {
    if i == |t.children| then 0 else Lines(t.children[i]) + LinesFrom(t, i + 1)
  }

  /** No name in the tree holds a line break. */
  predicate PlainNames(t: Tree)
    decreases t
  {
    '\n' !in t.name && forall i :: 0 <= i < |t.children| ==> PlainNames(t.children[i])
  }

  /** With no line break in the names, type names or shown values, each node
      with children renders as two lines around its children's lines and each
      leaf as one line. */
  lemma {:induction false} RenderLines(t: Tree, depth: nat, types: map<nat, AampTypes.TypeDef>,
                                       show: AampTypes.Data -> string)
    requires PlainNames(t)
    requires forall id :: id in types ==> '\n' !in types[id].name
    requires forall d :: '\n' !in show(d)
    requires Render(t, depth, types, show).Ok?
    ensures Newlines(Render(t, depth, types, show).value) == Lines(t)
    decreases t, 1
  {
    var pad := Spaces(depth);
    if |t.children| > 0 {
      var inner := RenderFrom(t, 0, depth + 1, types, show).value;
      RenderFromLines(t, 0, depth + 1, types, show);
      NestedLines(pad, t.name, inner);
    } else {
      var typ := AampTypes.TypeName(types, t.dataType.value).value;
      var text := if t.data.Some? then show(t.data.value) else "None";
      LeafLine(pad, t.name, typ, text);
    }
  }

  /** An element with children spends a line on each of its tags. */
  lemma NestedLines(pad: string, name: string, inner: string)
    requires '\n' !in pad && '\n' !in name
    ensures Newlines(pad + "<" + name + ">\n" + inner + pad + "</" + name + ">\n") == 2 + Newlines(inner)
  {
    var open := pad + "<" + name + ">";
    var close := pad + "</" + name + ">";
    assert pad + "<" + name + ">\n" + inner + pad + "</" + name + ">\n" == open + "\n" + inner + close + "\n";
    LineBreaks(open, inner, close);
  }

  /** A leaf element is written on one line. */
  lemma LeafLine(pad: string, name: string, typ: string, text: string)
    requires '\n' !in pad && '\n' !in name && '\n' !in typ && '\n' !in text
    ensures Newlines(pad + "<" + name + " type=\"" + typ + "\">" + text + "</" + name + ">\n") == 1
  {
    CloseTagLine();
    Unbroken(pad, "<", name, " type=\"", typ, "\">", text, "</", name, ">\n");
  }

  lemma CloseTagLine()
    ensures Newlines(">\n") == 1
  {
    assert ">\n"[1..] == "\n";
    assert "\n"[1..] == [];
  }

  /** Parts free of line breaks add none to what follows them. */
  lemma Unbroken(a: string, b: string, c: string, d: string, e: string, f: string, g: string, h: string,
                 i: string, last: string)
    requires '\n' !in a && '\n' !in b && '\n' !in c && '\n' !in d && '\n' !in e
    requires '\n' !in f && '\n' !in g && '\n' !in h && '\n' !in i
    ensures Newlines(a + b + c + d + e + f + g + h + i + last) == Newlines(last)
  {
    NoNewlines(a);
    NoNewlines(b);
    NoNewlines(c);
    NoNewlines(d);
    NoNewlines(e);
    NoNewlines(f);
    NoNewlines(g);
    NoNewlines(h);
    NoNewlines(i);
    NewlinesAppend(a, b);
    NewlinesAppend(a + b, c);
    NewlinesAppend(a + b + c, d);
    NewlinesAppend(a + b + c + d, e);
    NewlinesAppend(a + b + c + d + e, f);
    NewlinesAppend(a + b + c + d + e + f, g);
    NewlinesAppend(a + b + c + d + e + f + g, h);
    NewlinesAppend(a + b + c + d + e + f + g + h, i);
    NewlinesAppend(a + b + c + d + e + f + g + h + i, last);
  }

  /** The line count of an open tag, the children and a close tag. */
  lemma LineBreaks(open: string, inner: string, close: string)
    requires '\n' !in open && '\n' !in close
    ensures Newlines(open + "\n" + inner + close + "\n") == 2 + Newlines(inner)
  {
    NoNewlines(open);
    NoNewlines(close);
    NewlinesAppend(open, "\n");
    NewlinesAppend(open + "\n", inner);
    NewlinesAppend(open + "\n" + inner, close);
    NewlinesAppend(open + "\n" + inner + close, "\n");
  }

  lemma {:induction false} RenderFromLines(t: Tree, i: nat, depth: nat, types: map<nat, AampTypes.TypeDef>,
                                           show: AampTypes.Data -> string)
    requires i <= |t.children|
    requires PlainNames(t)
    requires forall id :: id in types ==> '\n' !in types[id].name
    requires forall d :: '\n' !in show(d)
    requires RenderFrom(t, i, depth, types, show).Ok?
    ensures Newlines(RenderFrom(t, i, depth, types, show).value) == LinesFrom(t, i)
    decreases t, 0, |t.children| - i
  {
    if i < |t.children| {
      var c := Render(t.children[i], depth, types, show).value;
      var rest := RenderFrom(t, i + 1, depth, types, show).value;
      RenderLines(t.children[i], depth, types, show);
      RenderFromLines(t, i + 1, depth, types, show);
      NewlinesAppend(c, rest);
    }
  }
}
