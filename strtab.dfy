/** The `_STR` string table of FRES files: a 0x18-byte header and `num_strs`
    strings, each a 16-bit length and that many bytes, each starting at an even
    position.
    codec/base/strtab.py imports its reader from structreader/__init__.py, whose
    `StructReader` takes no `size=` and no bare padding fields, and whose
    `BinaryObject` keeps no `_file` and checks no `_magic`: with it the class
    body already fails. The model follows the reader the code is written for:
    a header record of `size` bytes read with `unpackFromFile`, and the
    `_file` and `_magic` handling of structreader/binaryobject.py. */
module StringTables {
  import opened Wrappers
  import opened Bytes
  import opened ByteSource
  import FileReaders
  import StructReaders

  /** `b'_STR'`. */
  const STR_MAGIC: seq<byte> := [0x5F, 0x53, 0x54, 0x52]
  /** The size of the header record. */
  const HEADER_SIZE: nat := 0x18

  /** The header's fields: magic, padding, u32 size, padding, u32 num_strs, padding. */
  datatype Header = Header(magic: seq<byte>, size: nat, numStrs: nat)

  /** A table read from a file: where it starts, its header and its strings. */
  datatype Table = Table(start: nat, header: Header, strings: seq<seq<byte>>)

  predicate HeaderFits(h: Header)
  {
    |h.magic| == 4 && h.size < 0x1_0000_0000 && h.numStrs < 0x1_0000_0000
  }

  function DecodeHeader(b: seq<byte>): (h: Header)
    requires |b| == HEADER_SIZE
    ensures HeaderFits(h)
  {
    Header(b[0..4], U32LE(b, 8), U32LE(b, 16))
  }

  /** The header as written, with zero padding. */
  function EncodeHeader(h: Header): (b: seq<byte>)
    requires HeaderFits(h)
    ensures |b| == HEADER_SIZE
  {
    h.magic + Zeros(4) + LE32(h.size) + Zeros(4) + LE32(h.numStrs) + Zeros(4)
  }

  lemma HeaderRoundTrip(h: Header)
    requires HeaderFits(h)
    ensures DecodeHeader(EncodeHeader(h)) == h
  {
    var b := EncodeHeader(h);
    assert b[0..4] == h.magic;
    assert b[8..12] == LE32(h.size);
    assert b[16..20] == LE32(h.numStrs);
    U32At(b, 8, h.size);
    U32At(b, 16, h.numStrs);
  }

  /** `offs += offs & 1`: the position rounded up to the next even one. */
  function Aligned(p: nat): (q: nat)
    ensures q % 2 == 0 && p <= q <= p + 1
  {
    p + p % 2
  }

  /** One string of the loop from position `p`: `readStringWithLength(file,
      '<H', offs)` at the aligned position, and where the file is left. */
  function NextString(data: seq<byte>, p: nat): (Result<seq<byte>>, nat)
  {
    StructReaders.String16(data, Aligned(p))
  }

  /** The loop of `_unpackFromData` from `pos` with `n` strings left, where
      each string is read by `NextString`: the next one starts where the last ended, and
      the first failing read ends the loop with its error. */
  function StringsFrom(data: seq<byte>, pos: nat, n: nat): (Result<seq<seq<byte>>>, nat)
    decreases n
  {
    if n == 0 then (Ok([]), pos)
    else
      var (s, after) := NextString(data, pos);
      if s.Err? then (Err(s.error), after)
      else Prefixed([s.value], StringsFrom(data, after, n - 1))
  }

  function Prefixed(done: seq<seq<byte>>, rest: (Result<seq<seq<byte>>>, nat)): (Result<seq<seq<byte>>>, nat)
  {
    (if rest.0.Err? then rest.0 else Ok(done + rest.0.value), rest.1)
  }

  lemma PrefixedEmpty(rest: (Result<seq<seq<byte>>>, nat))
    ensures Prefixed([], rest) == rest
  {
    if rest.0.Ok? {
      assert [] + rest.0.value == rest.0.value;
    }
  }

  lemma PrefixedTwice(a: seq<seq<byte>>, b: seq<seq<byte>>, rest: (Result<seq<seq<byte>>>, nat))
    ensures Prefixed(a, Prefixed(b, rest)) == Prefixed(a + b, rest)
  {
    if rest.0.Ok? {
      assert a + (b + rest.0.value) == (a + b) + rest.0.value;
    }
  }

  lemma StringsStep(data: seq<byte>, pos: nat, n: nat)
    requires n > 0
    ensures NextString(data, pos).0.Err? ==> StringsFrom(data, pos, n) == (Err(NextString(data, pos).0.error), NextString(data, pos).1)
    ensures NextString(data, pos).0.Ok? ==> StringsFrom(data, pos, n) == Prefixed([NextString(data, pos).0.value], StringsFrom(data, NextString(data, pos).1, n - 1))
  {
  }

  /** One turn of the string loop, with `done` read so far and the next string
      read at `here`. */
  lemma LoopStep(data: seq<byte>, first: nat, n: nat, i: nat, done: seq<seq<byte>>, here: nat, s: Result<seq<byte>>, after: nat)
    requires i < n
    requires StringsFrom(data, first, n) == Prefixed(done, StringsFrom(data, here, n - i))
    requires NextString(data, here) == (s, after)
    ensures s.Err? ==> StringsFrom(data, first, n) == (Err(s.error), after)
    ensures s.Ok? ==> StringsFrom(data, first, n) == Prefixed(done + [s.value], StringsFrom(data, after, n - i - 1))
  {
    StringsStep(data, here, n - i);
    if s.Ok? {
      PrefixedTwice(done, [s.value], StringsFrom(data, after, n - i - 1));
    }
  }

  /** Exactly `n` strings come back when the loop completes. */
  lemma {:induction false} StringsCount(data: seq<byte>, pos: nat, n: nat)
    ensures StringsFrom(data, pos, n).0.Ok? ==> |StringsFrom(data, pos, n).0.value| == n
    decreases n
  {
    if n > 0 {
      StringsCount(data, NextString(data, pos).1, n - 1);
    }
  }

  /** `readFromFile(file, offset)`: seek when an offset is given, read the
      header (a short one is a struct.error, a magic other than `_STR` a
      TypeError), then `num_strs` strings from the end of the header. */
  function TableAt(data: seq<byte>, pos: nat, offset: Option<int>): (Result<Table>, nat)
  {
    var sought := if offset.Some? then SeekTarget(|data|, pos, offset.value, Code(0)) else Ok(pos);
    if sought.Err? then (Err(sought.error), pos)
    else TableFrom(data, sought.value)
  }

  /** The table read from `start`, once the seek (if any) has been made. */
  function TableFrom(data: seq<byte>, start: nat): (r: (Result<Table>, nat))
    ensures r.0.Ok? ==> start + HEADER_SIZE <= |data| && r.0.value.start == start && r.0.value.header.magic == STR_MAGIC
  {
    var b := ReadSlice(data, start, HEADER_SIZE);
    if |b| < HEADER_SIZE then (Err(StructError), start + |b|)
    else
      var h := DecodeHeader(b);
      if h.magic != STR_MAGIC then (Err(TypeError), start + HEADER_SIZE)
      else
        var (ss, end) := StringsFrom(data, start + HEADER_SIZE, h.numStrs);
        (if ss.Err? then Err(ss.error) else Ok(Table(start, h, ss.value)), end)
  }

  // ---------------------------------------------------------------- writing

  predicate Short(ss: seq<seq<byte>>)
  {
    forall i :: 0 <= i < |ss| ==> |ss[i]| < 0x1_0000
  }

  /** The strings laid out from position `pos`: a zero byte where the position
      is odd, then the 16-bit length and the bytes of each. */
  function EncodeStrings(ss: seq<seq<byte>>, pos: nat): (b: seq<byte>)
    requires Short(ss)
    decreases |ss|
  {
    if ss == [] then []
    else
      var first := (if pos % 2 == 1 then [0 as byte] else []) + LE16(|ss[0]|) + ss[0];
      first + EncodeStrings(ss[1..], pos + |first|)
  }

  /** A whole table with its strings, to be placed at `start`. */
  function EncodeTable(size: nat, ss: seq<seq<byte>>, start: nat): (b: seq<byte>)
    requires size < 0x1_0000_0000 && |ss| < 0x1_0000_0000 && Short(ss)
  {
    EncodeHeader(Header(STR_MAGIC, size, |ss|)) + EncodeStrings(ss, start + HEADER_SIZE)
  }

  /** `data` holds `e` at `pos`. */
  predicate Within(data: seq<byte>, pos: nat, e: seq<byte>)
  {
    pos + |e| <= |data| && data[pos..pos + |e|] == e
  }

  lemma WithinSplit(data: seq<byte>, pos: nat, a: seq<byte>, b: seq<byte>)
    requires Within(data, pos, a + b)
    ensures Within(data, pos, a) && Within(data, pos + |a|, b)
  {
    assert data[pos..pos + |a|] == (a + b)[..|a|];
    assert data[pos + |a|..pos + |a| + |b|] == (a + b)[|a|..];
  }

  /** Where the string after `s`, read at `pos`, begins. */
  function After(pos: nat, s: seq<byte>): nat
  {
    Aligned(pos) + 2 + |s|
  }

  function Pad(pos: nat): (b: seq<byte>)
    ensures pos + |b| == Aligned(pos)
  {
    if pos % 2 == 1 then [0 as byte] else []
  }

  lemma EncodeFirst(ss: seq<seq<byte>>, pos: nat)
    requires Short(ss) && ss != []
    ensures EncodeStrings(ss, pos) == Pad(pos) + LE16(|ss[0]|) + ss[0] + EncodeStrings(ss[1..], After(pos, ss[0]))
  {
  }

  lemma ConsHead<T>(s: seq<T>)
    requires s != []
    ensures [s[0]] + s[1..] == s
  {
  }

  /** The first string read, then the rest. */
  lemma StringsCons(data: seq<byte>, pos: nat, x: seq<byte>, rest: seq<seq<byte>>, q: nat, end: nat)
    requires NextString(data, pos) == (Ok(x), q) && StringsFrom(data, q, |rest|) == (Ok(rest), end)
    ensures StringsFrom(data, pos, |rest| + 1) == (Ok([x] + rest), end)
  {
  }

  /** `ss` is what `NextString` gives, one string after another, from `pos`. */
  predicate Chain(data: seq<byte>, pos: nat, ss: seq<seq<byte>>)
    decreases |ss|
  {
    ss == [] || (NextString(data, pos).0 == Ok(ss[0]) && Chain(data, NextString(data, pos).1, ss[1..]))
  }

  /** Where the file stands after the strings of a chain. */
  function ChainEnd(data: seq<byte>, pos: nat, ss: seq<seq<byte>>): nat
    requires Chain(data, pos, ss)
    decreases |ss|
  {
    if ss == [] then pos else ChainEnd(data, NextString(data, pos).1, ss[1..])
  }

  /** The loop reads a chain back whole. */
  lemma {:induction false} ChainRead(data: seq<byte>, pos: nat, ss: seq<seq<byte>>, end: nat)
    requires Chain(data, pos, ss) && ChainEnd(data, pos, ss) == end
    ensures StringsFrom(data, pos, |ss|) == (Ok(ss), end)
    decreases |ss|
  {
    if ss != [] {
      var q := NextString(data, pos).1;
      ChainRead(data, q, ss[1..], end);
      StringsCons(data, pos, ss[0], ss[1..], q, end);
      ConsHead(ss);
    }
  }

  /** A length-prefixed string laid out at `pos` (after its pad byte) is read
      back, and what follows it begins right after it. */
  lemma FirstBytes(data: seq<byte>, pos: nat, x: seq<byte>, rest: seq<byte>)
    requires |x| < 0x1_0000
    requires Within(data, pos, Pad(pos) + LE16(|x|) + x + rest)
    ensures NextString(data, pos) == (Ok(x), After(pos, x))
    ensures Within(data, After(pos, x), rest)
  {
    var a := Aligned(pos);
    WithinSplit(data, pos, Pad(pos) + LE16(|x|) + x, rest);
    WithinSplit(data, pos, Pad(pos) + LE16(|x|), x);
    WithinSplit(data, pos, Pad(pos), LE16(|x|));
    U16At(data, a, |x|);
  }

  /** Laid-out strings form a chain of `NextString` reads ending where the layout ends. */
  lemma {:induction false} EncodedChain(data: seq<byte>, pos: nat, ss: seq<seq<byte>>)
    requires Short(ss)
    requires Within(data, pos, EncodeStrings(ss, pos))
    ensures Chain(data, pos, ss)
    ensures ChainEnd(data, pos, ss) == pos + |EncodeStrings(ss, pos)|
    decreases |ss|
  {
    if ss != [] {
      var q := After(pos, ss[0]);
      EncodeFirst(ss, pos);
      FirstBytes(data, pos, ss[0], EncodeStrings(ss[1..], q));
      EncodedChain(data, q, ss[1..]);
    }
  }

  /** A table laid out at `start` is read back from there: its header and all
      its strings. */
  lemma TableRoundTrip(data: seq<byte>, start: nat, size: nat, ss: seq<seq<byte>>)
    requires size < 0x1_0000_0000 && |ss| < 0x1_0000_0000 && Short(ss)
    requires Within(data, start, EncodeTable(size, ss, start))
    ensures TableAt(data, start, None).0 == Ok(Table(start, Header(STR_MAGIC, size, |ss|), ss))
  {
    var h := Header(STR_MAGIC, size, |ss|);
    var e := EncodeTable(size, ss, start);
    WithinSplit(data, start, EncodeHeader(h), EncodeStrings(ss, start + HEADER_SIZE));
    assert ReadSlice(data, start, HEADER_SIZE) == EncodeHeader(h);
    HeaderRoundTrip(h);
    EncodedChain(data, start + HEADER_SIZE, ss);
    ChainRead(data, start + HEADER_SIZE, ss, ChainEnd(data, start + HEADER_SIZE, ss));
  }

  /** A whole header with another magic is rejected. */
  lemma WrongMagic(data: seq<byte>, start: nat)
    requires start + HEADER_SIZE <= |data| && data[start..start + 4] != STR_MAGIC
    ensures TableAt(data, start, None) == (Err(TypeError), start + HEADER_SIZE)
  {
    assert ReadSlice(data, start, HEADER_SIZE)[0..4] == data[start..start + 4];
  }

  // ---------------------------------------------------------------- the object

  class StringTable {
    var fileOffset: nat
    var header: Header
    var strings: seq<seq<byte>>

    constructor()
      ensures fileOffset == 0 && strings == []
    {
      fileOffset := 0;
      header := Header(STR_MAGIC, 0, 0);
      strings := [];
    }

    /** `readFromFile`: on success the object holds the table found at the
        (sought) position and the file stands after its last string. */
    method ReadFromFile(file: FileReaders.FileReader, offset: Option<int>) returns (r: Result<()>)
      modifies this, file
      ensures var (t, end) := TableAt(file.data, old(file.pos), offset);
        file.pos == end && r.Ok? == t.Ok? && (r.Err? ==> r.error == t.error) &&
        (r.Ok? ==> Table(fileOffset, header, strings) == t.value)
    {
      if offset.Some? {
        var s := file.Seek(offset.value, Code(0));
        if s.Err? {
          return Err(s.error);
        }
      }
      r := ReadHere(file);
    }

    /** `_unpackFromData` and the string loop, from the file's position. */
    method ReadHere(file: FileReaders.FileReader) returns (r: Result<()>)
      modifies this, file
      ensures var (t, end) := TableFrom(file.data, old(file.pos));
        file.pos == end && r.Ok? == t.Ok? && (r.Err? ==> r.error == t.error) &&
        (r.Ok? ==> Table(fileOffset, header, strings) == t.value)
    {
      ghost var data := file.data;
      var start := file.Tell();
      fileOffset := start;
      var b := FileReaders.ReadBytes(file, HEADER_SIZE);
      if |b| < HEADER_SIZE {
        return Err(StructError);
      }
      var h := DecodeHeader(b);
      if h.magic != STR_MAGIC {
        return Err(TypeError);
      }
      header := h;
      var _ := file.Seek(start + HEADER_SIZE, Code(0));
      var ss := ReadStrings(file, h.numStrs);
      if ss.Err? {
        return Err(ss.error);
      }
      strings := ss.value;
      r := Ok(());
    }
  }

  /** The string loop of `_unpackFromData`: `n` strings from the file's
      position, each at the next even position. */
  method ReadStrings(file: FileReaders.FileReader, n: nat) returns (r: Result<seq<seq<byte>>>)
    modifies file
    ensures (r, file.pos) == StringsFrom(file.data, old(file.pos), n)
  {
    ghost var data := file.data;
    ghost var first := file.pos;
    var done: seq<seq<byte>> := [];
    var i := 0;
    PrefixedEmpty(StringsFrom(data, first, n));
    while i < n
      invariant i <= n
      invariant StringsFrom(data, first, n) == Prefixed(done, StringsFrom(data, file.pos, n - i))
    {
      var offs := file.Tell();
      ghost var here := offs;
      offs := offs + offs % 2;
      assert offs == Aligned(here);
      var s := StructReaders.ReadString16(file, offs);
      LoopStep(data, first, n, i, done, here, s, file.pos);
      if s.Err? {
        return Err(s.error);
      }
      done := done + [s.value];
      i := i + 1;
    }
    assert done + [] == done;
    r := Ok(done);
  }
}
