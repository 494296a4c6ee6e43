/** The SARC archive reader and its decoder: the header, the SFAT header, the
    node table and the SFNT header are read in sequence from the current file
    position, then every node becomes a named entry. */
module Sarc {
  import opened Wrappers
  import opened Bytes
  import opened ByteSource
  import opened SarcRecords
  import CodecFileReaders
  import StructReaders

  const LITTLE_ENDIAN_MESSAGE: string := "little endian support not implemented yet, sorry"

  /** What a `SARC` object holds; an attribute that was never assigned is `None`. */
  datatype State = State(header: Option<Header>, fatHeader: Option<SfatHeader>, nodes: seq<Node>,
                         nametable: Option<NameTableHeader>, nametableOffset: Option<nat>,
                         files: seq<Entry>)

  /** A new `SARC()`: empty node and file lists. */
  function Empty(): State
  {
    State(None, None, [], None, None, [])
  }

  /** Puts already-read items in front of the rest of a partial read. */
  function Glue<T>(done: seq<T>, rest: (seq<T>, Option<Error>, nat)): (seq<T>, Option<Error>, nat)
  {
    (done + rest.0, rest.1, rest.2)
  }

  /** `Glue` of two prefixes is `Glue` of their concatenation. */
  lemma GlueGlue<T>(a: seq<T>, b: seq<T>, rest: (seq<T>, Option<Error>, nat))
    ensures Glue(a, Glue(b, rest)) == Glue(a + b, rest)
  {
    assert a + (b + rest.0) == (a + b) + rest.0;
  }

  /** `count` records read one after the other by `read` from `pos`; reading
      stops at the first record that fails, with what was read before it kept. */
  function Repeat<T>(read: nat -> (Result<T>, nat), pos: nat, count: nat): (r: (seq<T>, Option<Error>, nat))
    ensures |r.0| <= count
    ensures r.1.None? ==> |r.0| == count
    decreases count
  {
    if count == 0 then ([], None, pos)
    else
      var (x, p) := read(pos);
      if x.Err? then ([], Some(x.error), p)
      else Glue([x.value], Repeat(read, p, count - 1))
  }

  /** `read` takes `size` bytes whenever it succeeds. */
  ghost predicate FixedSize<T>(read: nat -> (Result<T>, nat), size: nat)
  {
    forall p: nat {:trigger read(p)} :: read(p).0.Ok? ==> read(p).1 == p + size
  }

  /** With records of a fixed size, record `k` is the one at `pos + size * k`
      and a complete read ends `count` records after `pos`. */
  lemma {:induction false} RepeatFixed<T>(read: nat -> (Result<T>, nat), size: nat, pos: nat, count: nat, k: nat, at: nat)
    requires FixedSize(read, size)
    requires k < |Repeat(read, pos, count).0| && at == pos + size * k
    ensures read(at).0.Ok? && Repeat(read, pos, count).0[k] == read(at).0.value
    decreases count
  {
    var first := read(pos);
    if first.0.Ok? {
      var rest := Repeat(read, pos + size, count - 1);
      assert Repeat(read, pos, count).0 == [first.0.value] + rest.0;
      if k == 0 {
        assert at == pos;
      } else {
        assert at == pos + size + size * (k - 1);
        RepeatFixed(read, size, pos + size, count - 1, k - 1, at);
      }
    }
  }

  /** A complete read of fixed-size records ends `count` records after `pos`. */
  lemma {:induction false} RepeatEnd<T>(read: nat -> (Result<T>, nat), size: nat, pos: nat, count: nat)
    requires FixedSize(read, size)
    ensures Repeat(read, pos, count).1.None? ==> Repeat(read, pos, count).2 == pos + size * count
    decreases count
  {
    if count > 0 && read(pos).0.Ok? {
      RepeatEnd(read, size, pos + size, count - 1);
      assert pos + size + size * (count - 1) == pos + size * count;
    }
  }

  /** The readers `SARC.readFromFile` uses, each taking the file position and
      giving the record read and the position after it: the four fixed-size
      records, and the name of a node (name table offset, node, node index). */
  datatype Readers = Readers(
    header: nat -> (Result<Header>, nat),
    fatHeader: nat -> (Result<SfatHeader>, nat),
    node: nat -> (Result<Node>, nat),
    nameTable: nat -> (Result<NameTableHeader>, nat),
    name: (nat, Node, nat, nat) -> (Result<Name>, nat))

  /** Every record reader takes its record's size whenever it succeeds. */
  ghost predicate Sized(rd: Readers)
  {
    && FixedSize(rd.header, HEADER_SIZE)
    && FixedSize(rd.fatHeader, SFAT_HEADER_SIZE)
    && FixedSize(rd.node, NODE_SIZE)
    && FixedSize(rd.nameTable, NAME_TABLE_HEADER_SIZE)
  }

  /** The entries for nodes `i` onwards, stopping at the first name that
      cannot be read. */
  function Files(name: (nat, Node, nat, nat) -> (Result<Name>, nat), ntOff: nat, nodes: seq<Node>, i: nat, pos: nat)
    : (r: (seq<Entry>, Option<Error>, nat))
    requires i <= |nodes|
    ensures |r.0| <= |nodes| - i
    ensures r.1.None? ==> |r.0| == |nodes| - i
    decreases |nodes| - i
  {
    if i == |nodes| then ([], None, pos)
    else
      var (nm, p) := name(ntOff, nodes[i], i, pos);
      if nm.Err? then ([], Some(nm.error), p)
      else Glue([MakeEntry(nodes[i], nm.value)], Files(name, ntOff, nodes, i + 1, p))
  }

  /** Entry `k` copies node `i + k` and carries the name read for that node
      (at some file position `q`). */
  lemma {:induction false} FileAt(name: (nat, Node, nat, nat) -> (Result<Name>, nat), ntOff: nat, nodes: seq<Node>,
                                  i: nat, pos: nat, k: nat) returns (q: nat)
    requires i <= |nodes| && k < |Files(name, ntOff, nodes, i, pos).0|
    ensures name(ntOff, nodes[i + k], i + k, q).0.Ok?
    ensures Files(name, ntOff, nodes, i, pos).0[k] == MakeEntry(nodes[i + k], name(ntOff, nodes[i + k], i + k, q).0.value)
    decreases |nodes| - i
  {
    var (nm, p) := name(ntOff, nodes[i], i, pos);
    if nm.Ok? {
      var rest := Files(name, ntOff, nodes, i + 1, p);
      assert Files(name, ntOff, nodes, i, pos).0 == [MakeEntry(nodes[i], nm.value)] + rest.0;
      if k == 0 {
        q := pos;
      } else {
        q := FileAt(name, ntOff, nodes, i + 1, p, k - 1);
        assert i + 1 + (k - 1) == i + k;
      }
    }
  }

  /** `SARC.readFromFile(file)` at position `pos` on an object in state `s`,
      over the readers `rd`: the outcome, the new state and the new file
      position. Each attribute is assigned only once its record has been read
      and validated; nodes and files are appended, so whatever a failed loop
      had read is kept. */
  function Parse(rd: Readers, pos: nat, s: State): (r: (Result<()>, State, nat))
    ensures r.0.Ok? ==> r.1.header.Some? && r.1.fatHeader.Some? && r.1.nametableOffset.Some?
  {
    var (h, p1) := rd.header(pos);
    if h.Err? then (Err(h.error), s, p1)
    else AfterHeader(rd, p1, s.(header := Some(h.value)))
  }

  /** `readFromFile` once the header is in: the SFAT header, the byte-order
      check and the node loop. */
  function AfterHeader(rd: Readers, pos: nat, s: State): (r: (Result<()>, State, nat))
    requires s.header.Some?
    ensures r.1.header == s.header
    ensures r.0.Ok? ==> r.1.fatHeader.Some? && r.1.nametableOffset.Some?
  {
    var (f, p2) := rd.fatHeader(pos);
    if f.Err? then (Err(f.error), s, p2)
    else
      var s2 := s.(fatHeader := Some(f.value));
      if s.header.value.byteOrder != 0xFEFF then (Err(AssertionFailed(LITTLE_ENDIAN_MESSAGE)), s2, p2)
      else
        var (ns, e, p3) := Repeat(rd.node, p2, f.value.nodeCount);
        var s3 := s2.(nodes := s2.nodes + ns);
        if e.Some? then (Err(e.value), s3, p3)
        else AfterNodes(rd, p3, s3)
  }

  /** `readFromFile` once the nodes are in: the SFNT header, then one entry
      per node, named from the name table that starts right after it. */
  function AfterNodes(rd: Readers, pos: nat, s: State): (r: (Result<()>, State, nat))
    ensures r.1.header == s.header && r.1.fatHeader == s.fatHeader && r.1.nodes == s.nodes
    ensures r.0.Ok? ==> r.1.nametableOffset.Some?
  {
    var (t, p4) := rd.nameTable(pos);
    if t.Err? then (Err(t.error), s, p4)
    else
      var (es, e, p5) := Files(rd.name, p4, s.nodes, 0, p4);
      (if e.Some? then Err(e.value) else Ok(()),
       s.(nametable := Some(t.value), nametableOffset := Some(p4), files := s.files + es), p5)
  }

  /** A successful parse read the header at `pos` and the SFAT header right
      after it, and the byte-order mark is big-endian. */
  lemma ParseHead(rd: Readers, pos: nat, s: State)
    requires Sized(rd) && Parse(rd, pos, s).0.Ok?
    ensures rd.header(pos).0.Ok? && rd.fatHeader(pos + 0x14).0.Ok?
    ensures var t := Parse(rd, pos, s).1;
      && t.header == Some(rd.header(pos).0.value)
      && t.fatHeader == Some(rd.fatHeader(pos + 0x14).0.value)
      && t.header.value.byteOrder == 0xFEFF
  {
  }

  /** A successful parse appended `node_count` nodes, read from just after
      the SFAT header. */
  lemma ParseNodes(rd: Readers, pos: nat, s: State)
    requires Sized(rd) && Parse(rd, pos, s).0.Ok?
    ensures var t := Parse(rd, pos, s).1;
      var n := t.fatHeader.value.nodeCount;
      && Repeat(rd.node, pos + 0x20, n).1.None?
      && t.nodes == s.nodes + Repeat(rd.node, pos + 0x20, n).0
      && |t.nodes| == |s.nodes| + n
  {
    ParseHead(rd, pos, s);
  }

  /** Node `k` of a successful parse is the record `k` places after the
      SFAT header. */
  lemma ParseNodeAt(rd: Readers, pos: nat, s: State, k: nat)
    requires Sized(rd) && Parse(rd, pos, s).0.Ok?
    requires k < Parse(rd, pos, s).1.fatHeader.value.nodeCount
    ensures rd.node(pos + 0x20 + 16 * k).0.Ok?
    ensures var t := Parse(rd, pos, s).1;
      |s.nodes| + k < |t.nodes| && t.nodes[|s.nodes| + k] == rd.node(pos + 0x20 + 16 * k).0.value
  {
    ParseNodes(rd, pos, s);
    var n := Parse(rd, pos, s).1.fatHeader.value.nodeCount;
    RepeatFixed(rd.node, NODE_SIZE, pos + 0x20, n, k, pos + 0x20 + 16 * k);
  }

  /** A successful parse read the SFNT header after the nodes, took the
      position after it as the name table offset, and appended one entry per
      node. */
  lemma ParseNames(rd: Readers, pos: nat, s: State)
    requires Sized(rd) && Parse(rd, pos, s).0.Ok?
    ensures var t := Parse(rd, pos, s).1;
      var at := pos + 0x20 + 16 * t.fatHeader.value.nodeCount;
      && rd.nameTable(at).0.Ok?
      && t.nametable == Some(rd.nameTable(at).0.value)
      && t.nametableOffset == Some(at + 8)
      && Files(rd.name, at + 8, t.nodes, 0, at + 8).1.None?
      && t.files == s.files + Files(rd.name, at + 8, t.nodes, 0, at + 8).0
      && |t.files| == |s.files| + |t.nodes|
  {
    ParseHead(rd, pos, s);
    var n := rd.fatHeader(pos + 0x14).0.value.nodeCount;
    RepeatEnd(rd.node, NODE_SIZE, pos + 0x20, n);
  }

  /** A parse only appends to the nodes and files it started with. */
  lemma ParseKeeps(rd: Readers, pos: nat, s: State)
    ensures var t := Parse(rd, pos, s).1;
      && |s.nodes| <= |t.nodes| && t.nodes[..|s.nodes|] == s.nodes
      && |s.files| <= |t.files| && t.files[..|s.files|] == s.files
  {
    var (h, p1) := rd.header(pos);
    if h.Ok? {
      var s1 := s.(header := Some(h.value));
      var (f, p2) := rd.fatHeader(p1);
      if f.Ok? && h.value.byteOrder == 0xFEFF {
        var (ns, e, p3) := Repeat(rd.node, p2, f.value.nodeCount);
        assert (s.nodes + ns)[..|s.nodes|] == s.nodes;
        var s3 := s1.(fatHeader := Some(f.value), nodes := s.nodes + ns);
        if e.None? {
          var (t, p4) := rd.nameTable(p3);
          if t.Ok? {
            var es := Files(rd.name, p4, s3.nodes, 0, p4).0;
            assert (s.files + es)[..|s.files|] == s.files;
          }
        }
      }
    }
  }

  /** Entry `k` of a successful parse copies node `k` and carries the name
      read for it from the name table. */
  lemma ParseFileAt(rd: Readers, pos: nat, s: State, k: nat) returns (q: nat)
    requires Sized(rd) && Parse(rd, pos, s).0.Ok?
    requires k < |Parse(rd, pos, s).1.nodes|
    ensures var t := Parse(rd, pos, s).1;
      && |s.files| + k < |t.files|
      && rd.name(t.nametableOffset.value, t.nodes[k], k, q).0.Ok?
      && t.files[|s.files| + k] == MakeEntry(t.nodes[k], rd.name(t.nametableOffset.value, t.nodes[k], k, q).0.value)
  {
    ParseNames(rd, pos, s);
    var t := Parse(rd, pos, s).1;
    var ntOff := t.nametableOffset.value;
    q := FileAt(rd.name, ntOff, t.nodes, 0, ntOff, k);
  }

  /** `Header().readFromFile(file)` on a file holding `data`. */
  function HeaderReader(data: seq<byte>): (read: nat -> (Result<Header>, nat))
    ensures FixedSize(read, HEADER_SIZE)
  {
    p => HeaderAt(data, p)
  }

  /** `SFATHeader().readFromFile(file)` on a file holding `data`. */
  function SfatHeaderReader(data: seq<byte>): (read: nat -> (Result<SfatHeader>, nat))
    ensures FixedSize(read, SFAT_HEADER_SIZE)
  {
    p => SfatHeaderAt(data, p)
  }

  /** `SFATNode().readFromFile(file)` on a file holding `data`. */
  function NodeReader(data: seq<byte>): (read: nat -> (Result<Node>, nat))
    ensures FixedSize(read, NODE_SIZE)
  {
    p => NodeAt(data, p)
  }

  /** `NameTableHeader().readFromFile(file)` on a file holding `data`. */
  function NameTableReader(data: seq<byte>): (read: nat -> (Result<NameTableHeader>, nat))
    ensures FixedSize(read, NAME_TABLE_HEADER_SIZE)
  {
    p => NameTableHeaderAt(data, p)
  }

  /** `count` nodes read one after the other from `pos`. */
  function NodesFrom(data: seq<byte>, pos: nat, count: nat): (r: (seq<Node>, Option<Error>, nat))
    ensures |r.0| <= count
    ensures r.1.None? ==> |r.0| == count && r.2 == pos + NODE_SIZE * count
  {
    RepeatEnd(NodeReader(data), NODE_SIZE, pos, count);
    Repeat(NodeReader(data), pos, count)
  }

  /** One step of `NodesFrom`: the first node, then the rest after it. */
  lemma NodesFromStep(data: seq<byte>, pos: nat, count: nat)
    requires count > 0
    ensures var (n, p) := NodeAt(data, pos);
      NodesFrom(data, pos, count) == if n.Err? then ([], Some(n.error), p) else Glue([n.value], NodesFrom(data, p, count - 1))
  {
    assert NodeReader(data)(pos) == NodeAt(data, pos);
  }

  /** The naming rule on a file holding `data`. */
  function NameReader(data: seq<byte>): (name: (nat, Node, nat, nat) -> (Result<Name>, nat))
  {
    (o, n, i, p) => NameAt(data, o, n, i, p)
  }

  /** The readers of a file holding `data`. */
  function ArchiveReaders(data: seq<byte>): Readers
  {
    Readers(HeaderReader(data), SfatHeaderReader(data), NodeReader(data), NameTableReader(data), NameReader(data))
  }

  lemma ArchiveSized(data: seq<byte>)
    ensures Sized(ArchiveReaders(data))
  {
  }

  lemma ArchiveReadersAt(data: seq<byte>, p: nat)
    ensures ArchiveReaders(data).header(p) == HeaderAt(data, p)
    ensures ArchiveReaders(data).fatHeader(p) == SfatHeaderAt(data, p)
    ensures ArchiveReaders(data).node(p) == NodeAt(data, p)
    ensures ArchiveReaders(data).nameTable(p) == NameTableHeaderAt(data, p)
  {
  }

  lemma NodesRead(data: seq<byte>)
    ensures forall p: nat :: ArchiveReaders(data).node(p) == NodeAt(data, p)
  {
  }

  lemma TablesRead(data: seq<byte>)
    ensures forall p: nat :: ArchiveReaders(data).nameTable(p) == NameTableHeaderAt(data, p)
  {
  }

  lemma ArchiveNameAt(data: seq<byte>, ntOff: nat, node: Node, i: nat, p: nat)
    ensures ArchiveReaders(data).name(ntOff, node, i, p) == NameAt(data, ntOff, node, i, p)
  {
  }

  /** The naming rule for node `i`: `'file' + str(i)` without a name offset,
      otherwise the NUL-terminated string at the name table offset plus the
      node's name offset. */
  predicate NamedAs(data: seq<byte>, ntOff: nat, node: Node, i: nat, name: Name)
  {
    if node.nameOffset.None? then name == Numbered(i)
    else name.Stored? && CString(data, ntOff + node.nameOffset.value) == Ok(name.bytes)
  }

  /** The name `readFromFile` gives node `i`, and the file position after it;
      `_readName` seeks to the name and reads it. */
  function NameAt(data: seq<byte>, ntOff: nat, node: Node, i: nat, pos: nat): (r: (Result<Name>, nat))
    ensures r.0.Ok? ==> NamedAs(data, ntOff, node, i, r.0.value)
    ensures r.0.Err? <==> node.nameOffset.Some? && CString(data, ntOff + node.nameOffset.value).Err?
    ensures node.nameOffset.None? ==> r.1 == pos
  {
    if node.nameOffset.None? then (Ok(Numbered(i)), pos)
    else
      var (s, p) := CodecFileReaders.ReadStringSpec(data, ntOff + node.nameOffset.value, None, None);
      if s.Err? then (Err(s.error), p) else (Ok(Stored(s.value)), p)
  }

  /** `SARC.readFromFile(file)` on a file holding `data`. */
  function ReadArchive(data: seq<byte>, pos: nat, s: State): (r: (Result<()>, State, nat))
    ensures r.0.Ok? ==> r.1.header.Some? && r.1.fatHeader.Some? && r.1.nametableOffset.Some?
  {
    Parse(ArchiveReaders(data), pos, s)
  }

  /** A `SARC` object. `file` is the archive file once `readFromFile` has
      been called. */
  class Archive {
    var file: BinFile?
    var header: Option<Header>
    var fatHeader: Option<SfatHeader>
    var nodes: seq<Node>
    var nametable: Option<NameTableHeader>
    var nametableOffset: Option<nat>
    var files: seq<Entry>

    function Current(): State
      reads this
    {
      State(header, fatHeader, nodes, nametable, nametableOffset, files)
    }

    constructor()
      ensures file == null && Current() == Empty()
    {
      file := null;
      header := None;
      fatHeader := None;
      nodes := [];
      nametable := None;
      nametableOffset := None;
      files := [];
    }

    /** `_readName(file, offs)`: seek into the name table, read a NUL-terminated string. */
    method ReadName(f: BinFile, offs: nat) returns (r: Result<seq<byte>>)
      requires nametableOffset.Some?
      modifies f
      ensures (r, f.pos) == CodecFileReaders.ReadStringSpec(f.data, nametableOffset.value + offs, None, None)
    {
      var s := f.Seek(nametableOffset.value + offs, 0);
      r := StructReaders.ReadString(f, None);
    }

    /** The node loop of `readFromFile`: `count` nodes appended one by one. */
    method ReadNodes(f: BinFile, count: nat) returns (e: Option<Error>)
      modifies this, f
      ensures file == old(file) && Current() == old(Current()).(nodes := nodes)
      ensures (nodes, e, f.pos) == Glue(old(nodes), NodesFrom(f.data, old(f.pos), count))
    {
      var i := 0;
      while i < count
        invariant 0 <= i <= count
        invariant file == old(file) && Current() == old(Current()).(nodes := nodes)
        invariant Glue(old(nodes), NodesFrom(f.data, old(f.pos), count)) == Glue(nodes, NodesFrom(f.data, f.pos, count - i))
      {
        NodesFromStep(f.data, f.pos, count - i);
        var n := ReadNode(f);
        if n.Err? {
          assert nodes + [] == nodes;
          return Some(n.error);
        }
        GlueGlue(nodes, [n.value], NodesFrom(f.data, f.pos, count - i - 1));
        nodes := nodes + [n.value];
        i := i + 1;
      }
      assert nodes + [] == nodes;
      e := None;
    }

    /** The naming loop of `readFromFile`: one entry per node, in node order. */
    method NameFiles(f: BinFile) returns (e: Option<Error>)
      requires nametableOffset.Some?
      modifies this, f
      ensures file == old(file) && Current() == old(Current()).(files := files)
      ensures (files, e, f.pos) == Glue(old(files), Files(NameReader(f.data), nametableOffset.value, nodes, 0, old(f.pos)))
    {
      ghost var name := NameReader(f.data);
      var j := 0;
      while j < |nodes|
        invariant 0 <= j <= |nodes|
        invariant file == old(file) && Current() == old(Current()).(files := files)
        invariant Glue(old(files), Files(name, nametableOffset.value, nodes, 0, old(f.pos)))
          == Glue(files, Files(name, nametableOffset.value, nodes, j, f.pos))
      {
        var node := nodes[j];
        ghost var p := f.pos;
        assert name(nametableOffset.value, node, j, p) == NameAt(f.data, nametableOffset.value, node, j, p);
        var nm: Name;
        if node.nameOffset.None? {
          nm := Numbered(j);
        } else {
          var text := ReadName(f, node.nameOffset.value);
          if text.Err? {
            assert files + [] == files;
            return Some(text.error);
          }
          nm := Stored(text.value);
        }
        GlueGlue(files, [MakeEntry(node, nm)], Files(name, nametableOffset.value, nodes, j + 1, f.pos));
        files := files + [MakeEntry(node, nm)];
        j := j + 1;
      }
      assert files + [] == files;
      e := None;
    }

    /** `readFromFile(file)`. */
    method ReadFromFile(f: BinFile) returns (r: Result<()>)
      modifies this, f
      ensures file == f
      ensures (r, Current(), f.pos) == ReadArchive(f.data, old(f.pos), old(Current()))
    {
      file := f;
      ghost var p := f.pos;
      var h := ReadHeader(f);
      assert ArchiveReaders(f.data).header(p) == HeaderAt(f.data, p);
      if h.Err? {
        return Err(h.error);
      }
      header := Some(h.value);
      r := ReadTables(f);
    }

    /** `readFromFile` after the header: the SFAT header, the byte-order
        check, the nodes, then the names. */
    method ReadTables(f: BinFile) returns (r: Result<()>)
      requires header.Some?
      modifies this, f
      ensures file == old(file)
      ensures (r, Current(), f.pos) == AfterHeader(ArchiveReaders(f.data), old(f.pos), old(Current()))
    {
      ghost var p := f.pos;
      var fh := ReadSfatHeader(f);
      assert ArchiveReaders(f.data).fatHeader(p) == SfatHeaderAt(f.data, p);
      if fh.Err? {
        return Err(fh.error);
      }
      fatHeader := Some(fh.value);
      if header.value.byteOrder != 0xFEFF {
        return Err(AssertionFailed(LITTLE_ENDIAN_MESSAGE));
      }
      assert Repeat(ArchiveReaders(f.data).node, f.pos, fh.value.nodeCount) == NodesFrom(f.data, f.pos, fh.value.nodeCount);
      var e := ReadNodes(f, fh.value.nodeCount);
      if e.Some? {
        return Err(e.value);
      }
      r := ReadNames(f);
    }

    /** `readFromFile` after the nodes: the SFNT header, whose end is the
        name table offset, then one entry per node. */
    method ReadNames(f: BinFile) returns (r: Result<()>)
      modifies this, f
      ensures file == old(file)
      ensures (r, Current(), f.pos) == AfterNodes(ArchiveReaders(f.data), old(f.pos), old(Current()))
    {
      ghost var p := f.pos;
      var t := ReadNameTableHeader(f);
      assert ArchiveReaders(f.data).nameTable(p) == NameTableHeaderAt(f.data, p);
      assert ArchiveReaders(f.data).name == NameReader(f.data);
      if t.Err? {
        return Err(t.error);
      }
      nametable := Some(t.value);
      var ntOff := f.Tell();
      nametableOffset := Some(ntOff);
      var e := NameFiles(f);
      r := if e.Some? then Err(e.value) else Ok(());
    }

    /** `File.read(size, offset)` for an entry of this archive: a `File`
        exists only once `readFromFile` has set the file and the header. */
    method ReadEntry(e: Entry, size: int, offset: int) returns (r: Result<seq<byte>>)
      requires file != null && header.Some?
      modifies file
      ensures (r, file.pos) == EntryRead(file.data, old(file.pos), e, header.value.dataOffset, size, offset)
    {
      var n := if size < 0 then e.Size() - offset else size;
      if offset >= e.Size() {
        return Ok([]);
      }
      var p := file.Seek(e.dataStart + header.value.dataOffset + offset, 0);
      if p.Err? {
        return Err(p.error);
      }
      var b := file.Read(n);
      r := Ok(b);
    }
  }

  // ------------------------------------------------------------- properties

  /** A successful read consumed the header, the SFAT header, `node_count`
      nodes and the SFNT header, in that order, from `pos`; the name table
      starts right after them. */
  lemma ReadLayout(data: seq<byte>, pos: nat, s: State)
    requires ReadArchive(data, pos, s).0.Ok?
    ensures var t := ReadArchive(data, pos, s).1;
      && t.header == Some(DecodeHeader(data[pos..pos + 0x14]))
      && t.fatHeader == Some(DecodeSfatHeader(data[pos + 0x14..pos + 0x20]))
      && t.header.value.byteOrder == 0xFEFF
      && |t.nodes| == |s.nodes| + t.fatHeader.value.nodeCount
      && t.nametableOffset.Some? && t.nametableOffset.value == pos + 0x20 + 16 * t.fatHeader.value.nodeCount + 8
      && pos + 0x20 + 16 * t.fatHeader.value.nodeCount + 8 <= |data|
  {
    ReadHead(data, pos, s);
    ReadCounts(data, pos, s);
    ReadTableOffset(data, pos, s);
  }

  lemma ReadHead(data: seq<byte>, pos: nat, s: State)
    requires ReadArchive(data, pos, s).0.Ok?
    ensures var t := ReadArchive(data, pos, s).1;
      && t.header == Some(DecodeHeader(data[pos..pos + 0x14]))
      && t.fatHeader == Some(DecodeSfatHeader(data[pos + 0x14..pos + 0x20]))
      && t.header.value.byteOrder == 0xFEFF
  {
    var rd := ArchiveReaders(data);
    ArchiveSized(data);
    ParseHead(rd, pos, s);
    ArchiveReadersAt(data, pos);
    ArchiveReadersAt(data, pos + 0x14);
  }

  lemma ReadCounts(data: seq<byte>, pos: nat, s: State)
    requires ReadArchive(data, pos, s).0.Ok?
    ensures var t := ReadArchive(data, pos, s).1;
      && |t.nodes| == |s.nodes| + t.fatHeader.value.nodeCount
      && |t.files| == |s.files| + |t.nodes|
  {
    ArchiveSized(data);
    ParseNodes(ArchiveReaders(data), pos, s);
    ParseNames(ArchiveReaders(data), pos, s);
  }

  lemma ReadTableOffset(data: seq<byte>, pos: nat, s: State)
    requires ReadArchive(data, pos, s).0.Ok?
    ensures var t := ReadArchive(data, pos, s).1;
      && t.nametableOffset.Some? && t.nametableOffset.value == pos + 0x20 + 16 * t.fatHeader.value.nodeCount + 8
      && pos + 0x20 + 16 * t.fatHeader.value.nodeCount + 8 <= |data|
  {
    ArchiveSized(data);
    TablesRead(data);
    ParseTableIn(ArchiveReaders(data), data, pos, s);
  }

  /** `ParseNames` for a name table reader that reads the records of `data`. */
  lemma ParseTableIn(rd: Readers, data: seq<byte>, pos: nat, s: State)
    requires Sized(rd) && Parse(rd, pos, s).0.Ok?
    requires forall p: nat :: rd.nameTable(p) == NameTableHeaderAt(data, p)
    ensures var t := Parse(rd, pos, s).1;
      && t.nametableOffset.Some? && t.nametableOffset.value == pos + 0x20 + 16 * t.fatHeader.value.nodeCount + 8
      && pos + 0x20 + 16 * t.fatHeader.value.nodeCount + 8 <= |data|
  {
    ParseNames(rd, pos, s);
    var at := pos + 0x20 + 16 * Parse(rd, pos, s).1.fatHeader.value.nodeCount;
    TableFits(data, at);
  }

  lemma TableFits(data: seq<byte>, at: nat)
    requires NameTableHeaderAt(data, at).0.Ok?
    ensures at + 8 <= |data|
  {
  }

  /** The nodes read by a successful call are the records right after the
      SFAT header, appended in order. */
  lemma ReadNodes(data: seq<byte>, pos: nat, s: State, k: nat)
    requires ReadArchive(data, pos, s).0.Ok?
    requires k < ReadArchive(data, pos, s).1.fatHeader.value.nodeCount
    ensures var t := ReadArchive(data, pos, s).1;
      var at := pos + 0x20 + 16 * k;
      && |s.nodes| + k < |t.nodes|
      && at + 16 <= |data| && t.nodes[|s.nodes| + k] == DecodeNode(data[at..at + 16])
      && t.nodes[|s.nodes| + k].dataStart <= t.nodes[|s.nodes| + k].dataEnd
  {
    ArchiveNode(data, pos, s, k);
    NodeFits(data, pos + 0x20 + 16 * k);
  }

  lemma ArchiveNode(data: seq<byte>, pos: nat, s: State, k: nat)
    requires ReadArchive(data, pos, s).0.Ok?
    requires k < ReadArchive(data, pos, s).1.fatHeader.value.nodeCount
    ensures NodeAt(data, pos + 0x20 + 16 * k).0.Ok?
    ensures var t := ReadArchive(data, pos, s).1;
      |s.nodes| + k < |t.nodes| && t.nodes[|s.nodes| + k] == NodeAt(data, pos + 0x20 + 16 * k).0.value
  {
    ArchiveSized(data);
    NodesRead(data);
    ParseNodeIn(ArchiveReaders(data), data, pos, s, k);
  }

  /** `ParseNodeAt` for a node reader that reads the records of `data`. */
  lemma ParseNodeIn(rd: Readers, data: seq<byte>, pos: nat, s: State, k: nat)
    requires Sized(rd) && Parse(rd, pos, s).0.Ok?
    requires k < Parse(rd, pos, s).1.fatHeader.value.nodeCount
    requires forall p: nat :: rd.node(p) == NodeAt(data, p)
    ensures NodeAt(data, pos + 0x20 + 16 * k).0.Ok?
    ensures var t := Parse(rd, pos, s).1;
      |s.nodes| + k < |t.nodes| && t.nodes[|s.nodes| + k] == NodeAt(data, pos + 0x20 + 16 * k).0.value
  {
    ParseNodeAt(rd, pos, s, k);
  }

  lemma NodeFits(data: seq<byte>, at: nat)
    requires NodeAt(data, at).0.Ok?
    ensures at + 16 <= |data| && NodeAt(data, at).0.value == DecodeNode(data[at..at + 16])
    ensures NodeAt(data, at).0.value.dataStart <= NodeAt(data, at).0.value.dataEnd
  {
  }

  /** Every node, old or new, gets one entry, in node order: the entries
      copy their nodes and follow the naming rule with the node's index. */
  lemma ReadFiles(data: seq<byte>, pos: nat, s: State)
    requires ReadArchive(data, pos, s).0.Ok?
    ensures var t := ReadArchive(data, pos, s).1;
      && |t.files| == |s.files| + |t.nodes|
      && t.files[..|s.files|] == s.files
      && (forall k :: 0 <= k < |t.nodes| ==> t.files[|s.files| + k] == MakeEntry(t.nodes[k], t.files[|s.files| + k].name))
      && (forall k :: 0 <= k < |t.nodes| ==>
            NamedAs(data, t.nametableOffset.value, t.nodes[k], k, t.files[|s.files| + k].name))
  {
    ReadCounts(data, pos, s);
    ParseKeeps(ArchiveReaders(data), pos, s);
    var t := ReadArchive(data, pos, s).1;
    forall k | 0 <= k < |t.nodes|
      ensures t.files[|s.files| + k] == MakeEntry(t.nodes[k], t.files[|s.files| + k].name)
      ensures NamedAs(data, t.nametableOffset.value, t.nodes[k], k, t.files[|s.files| + k].name)
    {
      var q := ArchiveFile(data, pos, s, k);
    }
  }

  lemma ArchiveFile(data: seq<byte>, pos: nat, s: State, k: nat) returns (q: nat)
    requires ReadArchive(data, pos, s).0.Ok?
    requires k < |ReadArchive(data, pos, s).1.nodes|
    ensures var t := ReadArchive(data, pos, s).1;
      && |s.files| + k < |t.files|
      && NameAt(data, t.nametableOffset.value, t.nodes[k], k, q).0.Ok?
      && t.files[|s.files| + k] == MakeEntry(t.nodes[k], NameAt(data, t.nametableOffset.value, t.nodes[k], k, q).0.value)
  {
    var rd := ArchiveReaders(data);
    ArchiveSized(data);
    q := ParseFileAt(rd, pos, s, k);
    var t := ReadArchive(data, pos, s).1;
    ArchiveNameAt(data, t.nametableOffset.value, t.nodes[k], k, q);
  }

  /** On a new `SARC()` object a successful read yields exactly `node_count`
      files, file `k` made from node `k`, none of negative size. */
  lemma FreshRead(data: seq<byte>, pos: nat)
    requires ReadArchive(data, pos, Empty()).0.Ok?
    ensures var t := ReadArchive(data, pos, Empty()).1;
      && |t.files| == |t.nodes| == t.fatHeader.value.nodeCount
      && (forall k :: 0 <= k < |t.files| ==> t.files[k] == MakeEntry(t.nodes[k], t.files[k].name))
      && (forall k :: 0 <= k < |t.files| ==> t.files[k].Size() >= 0)
  {
    ArchiveSized(data);
    NodesRead(data);
    ParseFresh(ArchiveReaders(data), data, pos);
  }

  /** `FreshRead` for a node reader that reads the records of `data`. */
  lemma ParseFresh(rd: Readers, data: seq<byte>, pos: nat)
    requires Sized(rd) && Parse(rd, pos, Empty()).0.Ok?
    requires forall p: nat :: rd.node(p) == NodeAt(data, p)
    ensures var t := Parse(rd, pos, Empty()).1;
      && |t.files| == |t.nodes| == t.fatHeader.value.nodeCount
      && (forall k :: 0 <= k < |t.files| ==> t.files[k] == MakeEntry(t.nodes[k], t.files[k].name))
      && (forall k :: 0 <= k < |t.files| ==> t.files[k].Size() >= 0)
  {
    ParseNodes(rd, pos, Empty());
    ParseNames(rd, pos, Empty());
    var t := Parse(rd, pos, Empty()).1;
    forall k | 0 <= k < |t.files|
      ensures t.files[k] == MakeEntry(t.nodes[k], t.files[k].name)
      ensures t.files[k].Size() >= 0
    {
      ParseFreshAt(rd, data, pos, k);
    }
  }

  /** File `k` of a fresh parse copies node `k`, whose size is not negative. */
  lemma ParseFreshAt(rd: Readers, data: seq<byte>, pos: nat, k: nat)
    requires Sized(rd) && Parse(rd, pos, Empty()).0.Ok?
    requires forall p: nat :: rd.node(p) == NodeAt(data, p)
    requires k < |Parse(rd, pos, Empty()).1.files| == |Parse(rd, pos, Empty()).1.nodes| == Parse(rd, pos, Empty()).1.fatHeader.value.nodeCount
    ensures var t := Parse(rd, pos, Empty()).1;
      t.files[k] == MakeEntry(t.nodes[k], t.files[k].name) && t.files[k].Size() >= 0
  {
    FreshFileAt(rd, pos, k);
    FreshNodeAt(rd, data, pos, k);
  }

  lemma FreshFileAt(rd: Readers, pos: nat, k: nat)
    requires Sized(rd) && Parse(rd, pos, Empty()).0.Ok?
    requires k < |Parse(rd, pos, Empty()).1.nodes|
    ensures var t := Parse(rd, pos, Empty()).1;
      k < |t.files| && t.files[k] == MakeEntry(t.nodes[k], t.files[k].name)
  {
    var q := ParseFileAt(rd, pos, Empty(), k);
  }

  lemma FreshNodeAt(rd: Readers, data: seq<byte>, pos: nat, k: nat)
    requires Sized(rd) && Parse(rd, pos, Empty()).0.Ok?
    requires forall p: nat :: rd.node(p) == NodeAt(data, p)
    requires k < Parse(rd, pos, Empty()).1.fatHeader.value.nodeCount
    ensures var t := Parse(rd, pos, Empty()).1;
      k < |t.nodes| && t.nodes[k].dataStart <= t.nodes[k].dataEnd
  {
    ParseNodeIn(rd, data, pos, Empty(), k);
  }

  /** Reading again on the same object appends: the second call names every
      node read so far, so it adds as many files as there are nodes in total. */
  lemma ReadTwice(data: seq<byte>, pos: nat, pos2: nat, t1: State, t2: State)
    requires ReadArchive(data, pos, Empty()).0.Ok? && t1 == ReadArchive(data, pos, Empty()).1
    requires ReadArchive(data, pos2, t1).0.Ok? && t2 == ReadArchive(data, pos2, t1).1
    ensures |t2.files| == 2 * t1.fatHeader.value.nodeCount + t2.fatHeader.value.nodeCount
  {
    FreshRead(data, pos);
    ReadFiles(data, pos2, t1);
    ReadLayout(data, pos2, t1);
  }

  /** A header whose byte-order mark is 0xFFFE passes `Header.validate` but
      the archive is still refused. */
  lemma LittleEndianRefused(data: seq<byte>, pos: nat, s: State)
    requires HeaderAt(data, pos).0.Ok? && HeaderAt(data, pos).0.value.byteOrder == 0xFFFE
    requires SfatHeaderAt(data, pos + HEADER_SIZE).0.Ok?
    ensures ReadArchive(data, pos, s).0 == Err(AssertionFailed(LITTLE_ENDIAN_MESSAGE))
  {
    var rd := ArchiveReaders(data);
    assert rd.header(pos) == HeaderAt(data, pos);
    assert rd.fatHeader(pos + HEADER_SIZE) == SfatHeaderAt(data, pos + HEADER_SIZE);
  }

  // ------------------------------------------------------------------ decoder

  /** `SarcDecoder(input)`: constructing the decoder reads the whole table. */
  method OpenDecoder(input: BinFile) returns (r: Result<Archive>)
    modifies input
    ensures ReadArchive(input.data, old(input.pos), Empty()).0.Ok? <==> r.Ok?
    ensures r.Ok? ==> fresh(r.value) && r.value.file == input
    ensures r.Ok? ==> r.value.Current() == ReadArchive(input.data, old(input.pos), Empty()).1
  {
    var a := new Archive();
    var res := a.ReadFromFile(input);
    if res.Err? {
      return Err(res.error);
    }
    r := Ok(a);
  }

  /** `numObjects`: the SFAT node count. */
  function NumObjects(s: State): nat
    requires s.fatHeader.Some?
  {
    s.fatHeader.value.nodeCount
  }

  /** `objects`: the files, in table order. */
  function Objects(s: State): seq<Entry>
  {
    s.files
  }

  /** The decoder's object count is the number of objects it yields. */
  lemma CountMatchesObjects(data: seq<byte>, pos: nat)
    requires ReadArchive(data, pos, Empty()).0.Ok?
    ensures |Objects(ReadArchive(data, pos, Empty()).1)| == NumObjects(ReadArchive(data, pos, Empty()).1)
  {
    FreshRead(data, pos);
  }

  /** One `"%08X %9d %s"` line: hash, size, name. */
  function ListLine(e: Entry): (line: string)
    requires e.nameHash < 0x1_0000_0000
    ensures |line| > 8 && line[..8] == Hex(e.nameHash, 8) && line[8] == ' '
  {
    Pow2Known();
    HexWidth(e.nameHash, 8);
    var hash := Hex(e.nameHash, 8);
    var rest := " " + PercentD(e.Size(), 9) + " " + NameText(e.name);
    assert (hash + rest)[..8] == hash;
    hash + rest
  }

  /** `printList`: a count line, a column header, then one line per entry. */
  function PrintList(s: State): (lines: seq<string>)
    requires s.fatHeader.Some?
    requires forall e :: e in s.files ==> e.nameHash < 0x1_0000_0000
    ensures |lines| == 2 + |s.files|
    ensures lines[0] == "Files: " + Decimal(NumObjects(s)) && lines[1] == "NameHash  FileSize Name"
    ensures forall k :: 0 <= k < |s.files| ==> lines[k + 2] == ListLine(s.files[k])
  {
    ["Files: " + Decimal(NumObjects(s)), "NameHash  FileSize Name"]
    + seq(|s.files|, k requires 0 <= k < |s.files| => ListLine(s.files[k]))
  }

  /** The first column of each listed line gives back the entry's hash. */
  lemma ListedHash(e: Entry)
    requires e.nameHash < 0x1_0000_0000
    ensures |Hex(e.nameHash, 8)| == 8
    ensures ParseHex(ListLine(e)[..8]) == e.nameHash
  {
    Pow2Known();
    HexWidth(e.nameHash, 8);
    HexRoundTrip(e.nameHash, 8);
  }

  /** `toString`: the object count, readable back from the text. */
  function Describe(s: State): (text: string)
    requires s.fatHeader.Some?
    ensures |text| > 30 && text[..24] == "SARC archive containing " && text[|text| - 6..] == " files"
    ensures ParseDecimal(text[24..|text| - 6]) == NumObjects(s)
  {
    var digits := Decimal(NumObjects(s));
    DecimalRoundTrip(NumObjects(s));
    var text := "SARC archive containing " + digits + " files";
    assert text[24..|text| - 6] == digits;
    text
  }
}
