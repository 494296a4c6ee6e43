/** `IndexGroup`, the index-group trees of FRES files: a header (u32 length,
    u32 count), `count + 1` sixteen-byte entries (the first is the root), and
    the tree that `mkNode` builds from them by following each entry's left and
    right links, at most nine levels deep. */
module IndexGroups {
  import opened Wrappers
  import opened Bytes
  import opened ByteSource
  import opened StructFormat
  import FileReaders
  import StructReaders

  /** The size of the header ('II'). */
  const HEADER_SIZE: nat := 8
  /** The size of one entry ('IHHII'). */
  const ENTRY_SIZE: nat := 0x10
  /** `mkNode` gives up below this depth. */
  const MAX_DEPTH: nat := 8

  /** One entry as the list `nodes` keeps it: name, data offset, search value
      and the indices of its left and right links. The name is absent when the
      file ends before its length. */
  datatype Entry = Entry(name: Option<seq<byte>>, dataOffs: nat, search: nat, left: nat, right: nat)

  /** A `Node` of the tree. */
  datatype Tree = Node(index: nat, name: Option<seq<byte>>, dataOffs: nat, search: nat,
                       left: Option<Tree>, right: Option<Tree>)

  /** What `readFromFile` finds: the header's fields, the entries and the tree. */
  datatype Group = Group(length: nat, count: nat, entries: seq<Entry>, root: Option<Tree>)

  // ---------------------------------------------------------------- entries

  /** `file.readString(noff, '<H')`: a 16-bit little-endian length at `noff`,
      then at most that many bytes; nothing when fewer than two bytes are left
      for the length. */
  function Name16(data: seq<byte>, noff: nat): Option<seq<byte>>
  {
    if noff + 2 > |data| then None else Some(ReadSlice(data, noff + 2, U16LE(data, noff)))
  }

  /** The file reader's general `readString` with an offset and the `'<H'`
      prefix is `Name16`. */
  lemma NameAgrees(data: seq<byte>, pos: nat, noff: nat)
    ensures FileReaders.ReadStringSpec(data, pos, Some(noff), FileReaders.Prefixed("<H")).0 == Ok(Name16(data, noff))
  {
    assert SeekTarget(|data|, pos, noff, Code(0)) == Ok(noff);
    if noff + 2 <= |data| {
      StructReaders.ReadU16(data, noff);
    } else {
      var f := Format(Little, [Item(1, 'H')]);
      ParseSingle("<H", 'H');
      assert CalcSize(f) == 2;
      assert FileReaders.UnpackWith(f)(ReadSlice(data, noff, 2)) == Err(StructError);
      assert FileReaders.ReadSpec(data, noff, FileReaders.Fmt("<H"), None, 1).0 == Err(StructError);
    }
  }

  /** Where entry `i` of a group starting at `start` lies. */
  function EntryPos(start: nat, i: nat): nat
  {
    start + HEADER_SIZE + 16 * i
  }

  /** The entry at `p`: srch, lidx, ridx, noff, doff (a short record is a
      struct.error), with the name read at noff. */
  function EntryAt(data: seq<byte>, p: nat): Result<Entry>
  {
    var b := ReadSlice(data, p, ENTRY_SIZE);
    if |b| < ENTRY_SIZE then Err(StructError)
    else Ok(Entry(Name16(data, U32LE(b, 8)), U32LE(b, 12), U32LE(b, 0), U16LE(b, 4), U16LE(b, 6)))
  }

  /** What reading each entry gives. */
  type EntryRead = nat -> Result<Entry>

  /** `EntryAt` for entry `i` of the group at `start`. */
  function Entries(data: seq<byte>, start: nat): EntryRead
  {
    (i: nat) => EntryAt(data, EntryPos(start, i))
  }

  /** The entries of the loop from entry `i` on, with `n` in all; the first
      failing read ends it with its error. */
  function EntriesFrom(entry: EntryRead, i: nat, n: nat): Result<seq<Entry>>
    decreases n - i
  {
    if i >= n then Ok([])
    else if entry(i).Err? then Err(entry(i).error)
    else Joined([entry(i).value], EntriesFrom(entry, i + 1, n))
  }

  function Joined(done: seq<Entry>, rest: Result<seq<Entry>>): Result<seq<Entry>>
  {
    if rest.Err? then rest else Ok(done + rest.value)
  }

  lemma JoinedEmpty(rest: Result<seq<Entry>>)
    ensures Joined([], rest) == rest
  {
    if rest.Ok? {
      assert [] + rest.value == rest.value;
    }
  }

  /** One turn of the entry loop, with `done` read so far and entry `i` giving `e`. */
  lemma EntriesStep(entry: EntryRead, i: nat, n: nat, done: seq<Entry>, e: Result<Entry>)
    requires i < n && entry(i) == e
    requires EntriesFrom(entry, 0, n) == Joined(done, EntriesFrom(entry, i, n))
    ensures e.Err? ==> EntriesFrom(entry, 0, n) == Err(e.error)
    ensures e.Ok? ==> EntriesFrom(entry, 0, n) == Joined(done + [e.value], EntriesFrom(entry, i + 1, n))
  {
    if e.Ok? {
      var rest := EntriesFrom(entry, i + 1, n);
      if rest.Ok? {
        assert done + ([e.value] + rest.value) == (done + [e.value]) + rest.value;
      }
    }
  }

  /** A successful loop reads exactly the `n - i` entries, in order. */
  lemma {:induction false} EntriesExact(entry: EntryRead, i: nat, n: nat)
    requires i <= n && EntriesFrom(entry, i, n).Ok?
    ensures var es := EntriesFrom(entry, i, n).value;
      |es| == n - i && forall j :: 0 <= j < |es| ==> entry(i + j) == Ok(es[j])
    decreases n - i
  {
    if i < n {
      EntriesExact(entry, i + 1, n);
      var rest := EntriesFrom(entry, i + 1, n).value;
      var es := EntriesFrom(entry, i, n).value;
      assert es == [entry(i).value] + rest;
      forall j | 0 <= j < |es|
        ensures entry(i + j) == Ok(es[j])
      {
        if j > 0 {
          assert es[j] == rest[j - 1];
          assert i + j == (i + 1) + (j - 1);
        }
      }
    }
  }

  /** An entry as written: srch, lidx, ridx, noff, doff. */
  function EncodeEntry(search: nat, left: nat, right: nat, noff: nat, doff: nat): (b: seq<byte>)
    requires search < 0x1_0000_0000 && left < 0x1_0000 && right < 0x1_0000
    requires noff < 0x1_0000_0000 && doff < 0x1_0000_0000
    ensures |b| == ENTRY_SIZE
  {
    LE32(search) + LE16(left) + LE16(right) + LE32(noff) + LE32(doff)
  }

  /** Where the fields of an entry lie. */
  lemma EntryFields(a: seq<byte>, b: seq<byte>, c: seq<byte>, d: seq<byte>, e: seq<byte>)
    requires |a| == 4 && |b| == 2 && |c| == 2 && |d| == 4 && |e| == 4
    ensures var s := a + b + c + d + e;
      s[0..4] == a && s[4..6] == b && s[6..8] == c && s[8..12] == d && s[12..16] == e
  {
  }

  /** An entry written at `p`, with its name written at its name offset, is
      read back with that name. */
  lemma EntryRoundTrip(data: seq<byte>, p: nat, search: nat, left: nat, right: nat, noff: nat, doff: nat, name: seq<byte>)
    requires search < 0x1_0000_0000 && left < 0x1_0000 && right < 0x1_0000
    requires noff < 0x1_0000_0000 && doff < 0x1_0000_0000 && |name| < 0x1_0000
    requires p + ENTRY_SIZE <= |data| && data[p..p + ENTRY_SIZE] == EncodeEntry(search, left, right, noff, doff)
    requires noff + 2 + |name| <= |data| && data[noff..noff + 2 + |name|] == LE16(|name|) + name
    ensures EntryAt(data, p) == Ok(Entry(Some(name), doff, search, left, right))
  {
    var b := ReadSlice(data, p, ENTRY_SIZE);
    assert b == EncodeEntry(search, left, right, noff, doff);
    EntryFields(LE32(search), LE16(left), LE16(right), LE32(noff), LE32(doff));
    U32At(b, 0, search);
    U16At(b, 4, left);
    U16At(b, 6, right);
    U32At(b, 8, noff);
    U32At(b, 12, doff);
    assert Name16(data, noff) == Some(name) by {
      assert data[noff..noff + 2] == (LE16(|name|) + name)[0..2];
      assert data[noff + 2..noff + 2 + |name|] == (LE16(|name|) + name)[2..];
      U16At(data, noff, |name|);
    }
  }

  // ---------------------------------------------------------------- the tree

  /** `mkNode(idx, _depth)`: nothing below depth 8 or for index 0 below the
      root; an index past the list is an IndexError; a link equal to the
      node's own index is not followed. */
  function MkNode(nodes: seq<Entry>, idx: nat, depth: nat): Result<Option<Tree>>
    decreases MAX_DEPTH + 1 - depth
  {
    if depth > MAX_DEPTH then Ok(None)
    else if idx == 0 && depth > 0 then Ok(None)
    else if idx >= |nodes| then Err(IndexError)
    else
      var e := nodes[idx];
      var left := if e.left != idx then MkNode(nodes, e.left, depth + 1) else Ok(None);
      if left.Err? then Err(left.error)
      else
        var right := if e.right != idx then MkNode(nodes, e.right, depth + 1) else Ok(None);
        if right.Err? then Err(right.error)
        else Ok(Some(Node(idx, e.name, e.dataOffs, e.search, left.value, right.value)))
  }

  /** The number of levels of a tree. */
  function Height(t: Tree): nat
  {
    1 + Max(if t.left.Some? then Height(t.left.value) else 0,
            if t.right.Some? then Height(t.right.value) else 0)
  }

  function Max(a: nat, b: nat): nat
  {
    if a < b then b else a
  }

  /** Every index in a tree. */
  function Indices(t: Tree): set<nat>
  {
    {t.index} + (if t.left.Some? then Indices(t.left.value) else {})
      + (if t.right.Some? then Indices(t.right.value) else {})
  }

  /** Each node of `t` is the entry at its index, and its children are the
      entries its links name, except that a link to itself is absent. */
  predicate Faithful(t: Tree, nodes: seq<Entry>)
  {
    t.index < |nodes| &&
    var e := nodes[t.index];
    t.name == e.name && t.dataOffs == e.dataOffs && t.search == e.search &&
    (e.left == t.index ==> t.left.None?) && (e.right == t.index ==> t.right.None?) &&
    (t.left.Some? ==> t.left.value.index == e.left && Faithful(t.left.value, nodes)) &&
    (t.right.Some? ==> t.right.value.index == e.right && Faithful(t.right.value, nodes))
  }

  /** A built node stands for the index it was built from and is faithful to
      the entries; below the root no node has index 0; a node built at `depth`
      has at most `9 - depth` levels. */
  lemma {:induction false} MkNodeShape(nodes: seq<Entry>, idx: nat, depth: nat)
    requires MkNode(nodes, idx, depth).Ok? && MkNode(nodes, idx, depth).value.Some?
    ensures var t := MkNode(nodes, idx, depth).value.value;
      t.index == idx && Faithful(t, nodes) && Height(t) <= MAX_DEPTH + 1 - depth &&
      (depth > 0 ==> 0 !in Indices(t))
    decreases MAX_DEPTH + 1 - depth
  {
    var e := nodes[idx];
    var t := MkNode(nodes, idx, depth).value.value;
    if t.left.Some? {
      MkNodeShape(nodes, e.left, depth + 1);
    }
    if t.right.Some? {
      MkNodeShape(nodes, e.right, depth + 1);
    }
  }

  /** The whole tree has at most nine levels, and index 0 only at its root. */
  lemma RootShape(nodes: seq<Entry>)
    requires MkNode(nodes, 0, 0).Ok? && MkNode(nodes, 0, 0).value.Some?
    ensures var t := MkNode(nodes, 0, 0).value.value;
      t.index == 0 && Faithful(t, nodes) && Height(t) <= 9 &&
      (t.left.Some? ==> 0 !in Indices(t.left.value)) && (t.right.Some? ==> 0 !in Indices(t.right.value))
  {
    var t := MkNode(nodes, 0, 0).value.value;
    MkNodeShape(nodes, 0, 0);
    if t.left.Some? {
      MkNodeShape(nodes, nodes[0].left, 1);
    }
    if t.right.Some? {
      MkNodeShape(nodes, nodes[0].right, 1);
    }
  }

  /** Every link names an entry of the list. */
  predicate Linked(nodes: seq<Entry>)
  {
    forall k :: 0 <= k < |nodes| ==> nodes[k].left < |nodes| && nodes[k].right < |nodes|
  }

  /** With every link in range the tree is always built; an index past the
      list (reached within the depth limit) is an IndexError, the only error
      `mkNode` raises. */
  lemma {:induction false} MkNodeTotal(nodes: seq<Entry>, idx: nat, depth: nat)
    ensures Linked(nodes) && idx < |nodes| ==> MkNode(nodes, idx, depth).Ok?
    ensures depth <= MAX_DEPTH && (idx != 0 || depth == 0) && idx >= |nodes| ==>
      MkNode(nodes, idx, depth) == Err(IndexError)
    ensures MkNode(nodes, idx, depth).Err? ==> MkNode(nodes, idx, depth).error == IndexError
    decreases MAX_DEPTH + 1 - depth
  {
    if depth <= MAX_DEPTH && !(idx == 0 && depth > 0) && idx < |nodes| {
      MkNodeTotal(nodes, nodes[idx].left, depth + 1);
      MkNodeTotal(nodes, nodes[idx].right, depth + 1);
    }
  }

  // ---------------------------------------------------------------- the file

  /** `readFromFile(file, offset)`: seek when an offset is given, then read
      the group found there. */
  function GroupAt(data: seq<byte>, pos: nat, offset: Option<int>): Result<Group>
  {
    var sought := if offset.Some? then SeekTarget(|data|, pos, offset.value, Code(0)) else Ok(pos);
    if sought.Err? then Err(sought.error) else GroupFrom(data, sought.value)
  }

  /** The group at `start`: the header (a short one is a struct.error),
      `count + 1` entries right after it, and the tree built from entry 0. */
  function GroupFrom(data: seq<byte>, start: nat): Result<Group>
  {
    var b := ReadSlice(data, start, HEADER_SIZE);
    if |b| < HEADER_SIZE then Err(StructError)
    else
      var count := U32LE(b, 4);
      var es := EntriesFrom(Entries(data, start), 0, count + 1);
      if es.Err? then Err(es.error)
      else
        var root := MkNode(es.value, 0, 0);
        if root.Err? then Err(root.error)
        else Ok(Group(U32LE(b, 0), count, es.value, root.value))
  }

  /** The pieces of a read group. */
  lemma GroupParts(data: seq<byte>, start: nat)
    requires GroupFrom(data, start).Ok?
    ensures var g := GroupFrom(data, start).value;
      EntriesFrom(Entries(data, start), 0, g.count + 1) == Ok(g.entries) && Ok(g.root) == MkNode(g.entries, 0, 0)
  {
  }

  /** Each entry a successful loop reads is the record at its place. */
  lemma EntriesAt(data: seq<byte>, start: nat, n: nat, es: seq<Entry>)
    requires EntriesFrom(Entries(data, start), 0, n) == Ok(es)
    ensures |es| == n && forall i :: 0 <= i < |es| ==> EntryAt(data, EntryPos(start, i)) == Ok(es[i])
  {
    var entry := Entries(data, start);
    EntriesExact(entry, 0, n);
    forall i | 0 <= i < |es|
      ensures EntryAt(data, EntryPos(start, i)) == Ok(es[i])
    {
      assert entry(0 + i) == Ok(es[i]);
    }
  }

  /** A read group has `count + 1` entries, the one at position `i` being
      the `i`-th record after the header, and its root is the tree built
      from them. */
  lemma GroupEntries(data: seq<byte>, start: nat)
    requires GroupFrom(data, start).Ok?
    ensures var g := GroupFrom(data, start).value;
      |g.entries| == g.count + 1 && Ok(g.root) == MkNode(g.entries, 0, 0) &&
      forall i :: 0 <= i < |g.entries| ==> EntryAt(data, EntryPos(start, i)) == Ok(g.entries[i])
  {
    var g := GroupFrom(data, start).value;
    GroupParts(data, start);
    EntriesAt(data, start, g.count + 1, g.entries);
  }

  /** One turn of the entry loop: read the record at the position, remember
      the position, read the name at noff and seek back. */
  method ReadEntry(file: FileReaders.FileReader) returns (e: Result<Entry>)
    modifies file
    ensures e == EntryAt(file.data, old(file.pos))
    ensures e.Ok? ==> file.pos == old(file.pos) + ENTRY_SIZE
  {
    var b := FileReaders.ReadBytes(file, ENTRY_SIZE);
    if |b| < ENTRY_SIZE {
      return Err(StructError);
    }
    var srch, lidx, ridx, noff, doff := U32LE(b, 0), U16LE(b, 4), U16LE(b, 6), U32LE(b, 8), U32LE(b, 12);
    var pos := file.Tell();
    NameAgrees(file.data, pos, noff);
    var name := file.ReadString(Some(noff), FileReaders.Prefixed("<H"));
    var _ := file.Seek(pos, Code(0));
    e := Ok(Entry(name.value, doff, srch, lidx, ridx));
  }

  /** The entry loop: `n` entries from the file's position, one after another. */
  method ReadEntries(file: FileReaders.FileReader, start: nat, n: nat) returns (r: Result<seq<Entry>>)
    requires file.pos == EntryPos(start, 0)
    modifies file
    ensures r == EntriesFrom(Entries(file.data, start), 0, n)
  {
    ghost var entry := Entries(file.data, start);
    var nodes: seq<Entry> := [];
    var i := 0;
    JoinedEmpty(EntriesFrom(entry, 0, n));
    while i < n
      invariant i <= n && file.pos == EntryPos(start, i)
      invariant EntriesFrom(entry, 0, n) == Joined(nodes, EntriesFrom(entry, i, n))
    {
      var e := ReadEntry(file);
      EntriesStep(entry, i, n, nodes, e);
      if e.Err? {
        return Err(e.error);
      }
      nodes := nodes + [e.value];
      i := i + 1;
    }
    assert nodes + [] == nodes;
    r := Ok(nodes);
  }

  class IndexGroup {
    var root: Option<Tree>

    constructor()
      ensures root == None
    {
      root := None;
    }

    /** `readFromFile`: on success the object holds the tree built from the
        group found at the (sought) position. */
    method ReadFromFile(file: FileReaders.FileReader, offset: Option<int>) returns (r: Result<()>)
      modifies this, file
      ensures var g := GroupAt(file.data, old(file.pos), offset);
        r.Ok? == g.Ok? && (r.Err? ==> r.error == g.error) && (r.Ok? ==> root == g.value.root)
    {
      if offset.Some? {
        var s := file.Seek(offset.value, Code(0));
        if s.Err? {
          return Err(s.error);
        }
      }
      var start := file.Tell();
      var b := FileReaders.ReadBytes(file, HEADER_SIZE);
      if |b| < HEADER_SIZE {
        return Err(StructError);
      }
      var count := U32LE(b, 4);
      var nodes := ReadEntries(file, start, count + 1);
      if nodes.Err? {
        return Err(nodes.error);
      }
      var t := MkNode(nodes.value, 0, 0);
      if t.Err? {
        return Err(t.error);
      }
      root := t.value;
      r := Ok(());
    }
  }
}
