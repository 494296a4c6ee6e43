/** `filereader.FileReader`: a binary file with a read position, read by byte
    count or by `struct` format, a given number of times, and strings read
    NUL-terminated, by fixed length or by a length read first. */
module FileReaders {
  import opened Wrappers
  import opened Bytes
  import opened StructFormat
  import opened ByteSource

  /** The `size` argument of `read`: a byte count or a `struct` format. */
  datatype SizeArg = Count(n: int) | Fmt(fmt: string)

  /** One item of a read: raw bytes, or the unpacked values of one record
      (a single value is unwrapped, several stay a tuple). */
  datatype Item = Raw(bytes: seq<byte>) | Scalar(value: Value) | Tuple(values: seq<Value>)

  /** What `read` returns: the item itself when count is 1, else a list. */
  datatype Output = One(item: Item) | Many(items: seq<Item>)

  /** The `length` argument of `readString`. */
  datatype LengthArg = UntilNul | Fixed(n: int) | Prefixed(fmt: string)

  /** `if len(r) == 1: r = r[0]`. */
  function Unwrap(vs: seq<Value>): (r: Item)
    ensures |vs| == 1 <==> r.Scalar?
    ensures r.Scalar? ==> r.value == vs[0]
    ensures r.Tuple? ==> r.values == vs
  {
    if |vs| == 1 then Scalar(vs[0]) else Tuple(vs)
  }

  /** Prepend items already read to the outcome of the remaining reads. */
  function Prepend(done: seq<Item>, rest: (Result<seq<Item>>, nat)): (Result<seq<Item>>, nat)
  {
    (if rest.0.Ok? then Ok(done + rest.0.value) else rest.0, rest.1)
  }

  /** `count` raw reads of `n` bytes each from `pos`, and the position after them. */
  function RawReads(data: seq<byte>, pos: nat, n: int, count: nat): (Result<seq<Item>>, nat)
    decreases count
  {
    if count == 0 then (Ok([]), pos)
    else Prepend([Raw(ReadSlice(data, pos, n))], RawReads(data, Advance(data, pos, n), n, count - 1))
  }

  /** `count` records of `sz` bytes each from `pos`, each decoded by `unpack`;
      a record that does not decode is an error after the bytes it consumed. */
  function Records(data: seq<byte>, pos: nat, sz: nat, unpack: seq<byte> -> Result<seq<Value>>, count: nat)
    : (Result<seq<Item>>, nat)
    decreases count
  {
    if count == 0 then (Ok([]), pos)
    else
      match unpack(ReadSlice(data, pos, sz))
      case Err(e) => (Err(e), Advance(data, pos, sz))
      case Ok(vs) => Prepend([Unwrap(vs)], Records(data, Advance(data, pos, sz), sz, unpack, count - 1))
  }

  /** `struct.unpack(f, chunk)` as a value that can be handed on. */
  function UnpackWith(f: Format): seq<byte> -> Result<seq<Value>>
  {
    chunk => if ValidCodes(f) then Unpack(f, chunk) else Err(StructError)
  }

  /** A decoder that accepts exactly the chunks of `sz` bytes. */
  ghost predicate Sized(unpack: seq<byte> -> Result<seq<Value>>, sz: nat)
  {
    forall chunk: seq<byte> {:trigger unpack(chunk)} :: unpack(chunk).Ok? <==> |chunk| == sz
  }

  /** `count` records of format `f` from `pos`: each reads `calcsize(f)` bytes and
      unpacks them; a short read is a struct.error after the bytes it consumed. */
  function FormatReads(data: seq<byte>, pos: nat, f: Format, count: nat): (Result<seq<Item>>, nat)
    requires ValidCodes(f)
  {
    Records(data, pos, CalcSize(f), UnpackWith(f), count)
  }

  /** `struct.unpack` accepts exactly the chunks of `calcsize(f)` bytes. */
  lemma UnpackSized(f: Format)
    requires ValidCodes(f)
    ensures Sized(UnpackWith(f), CalcSize(f))
  {
    forall chunk: seq<byte>
      ensures UnpackWith(f)(chunk).Ok? <==> |chunk| == CalcSize(f)
    {
      assert UnpackWith(f)(chunk) == Unpack(f, chunk);
    }
  }

  lemma MulStep(i: nat, n: nat)
    requires i > 0
    ensures n + (i - 1) * n == i * n
    ensures (i - 1) * n >= 0
  {
  }

  lemma PrependEmpty(rest: (Result<seq<Item>>, nat))
    ensures Prepend([], rest) == rest
  {
    if rest.0.Ok? {
      assert [] + rest.0.value == rest.0.value;
    }
  }

  lemma PrependTwice(a: seq<Item>, b: seq<Item>, rest: (Result<seq<Item>>, nat))
    ensures Prepend(a, Prepend(b, rest)) == Prepend(a + b, rest)
  {
    if rest.0.Ok? {
      assert a + (b + rest.0.value) == (a + b) + rest.0.value;
    }
  }

  /** Raw reads of `n >= 0` bytes that fit in the file all succeed, return `count`
      items and leave the position `count*n` further on. */
  lemma {:induction false} RawReadsConsecutive(data: seq<byte>, pos: nat, n: nat, count: nat)
    requires pos + count * n <= |data|
    ensures RawReads(data, pos, n, count).0.Ok?
    ensures RawReads(data, pos, n, count).1 == pos + count * n
    ensures |RawReads(data, pos, n, count).0.value| == count
    decreases count
  {
    if count > 0 {
      MulStep(count, n);
      assert Advance(data, pos, n) == pos + n;
      RawReadsConsecutive(data, pos + n, n, count - 1);
    }
  }

  /** The first of several raw reads that fit: its bytes, then the others
      from `n` bytes further on. */
  lemma RawReadsHead(data: seq<byte>, pos: nat, n: nat, count: nat)
    requires pos + count * n <= |data| && count > 0
    ensures pos + n + (count - 1) * n <= |data|
    ensures RawReads(data, pos + n, n, count - 1).0.Ok?
    ensures RawReads(data, pos, n, count).0.Ok?
    ensures RawReads(data, pos, n, count).0.value
            == [Raw(ReadSlice(data, pos, n))] + RawReads(data, pos + n, n, count - 1).0.value
  {
    MulStep(count, n);
    assert Advance(data, pos, n) == pos + n;
    RawReadsConsecutive(data, pos + n, n, count - 1);
  }

  /** ... and item `i` of them is the `n` bytes at `pos + i*n`. */
  lemma {:induction false} RawReadsItem(data: seq<byte>, pos: nat, n: nat, count: nat, i: nat)
    requires pos + count * n <= |data| && i < count
    ensures RawReads(data, pos, n, count).0.Ok?
    ensures i < |RawReads(data, pos, n, count).0.value|
    ensures RawReads(data, pos, n, count).0.value[i] == Raw(ReadSlice(data, pos + i * n, n))
    decreases count
  {
    RawReadsHead(data, pos, n, count);
    if i > 0 {
      var tail := RawReads(data, pos + n, n, count - 1).0.value;
      RawReadsItem(data, pos + n, n, count - 1, i - 1);
      assert pos + n + (i - 1) * n == pos + i * n by { MulStep(i, n); }
      assert RawReads(data, pos, n, count).0.value[i] == tail[i - 1];
    } else {
      assert i * n == 0;
    }
  }

  /** Reads of non-empty records succeed exactly when all `count` records lie
      inside the file; then they return `count` items and leave the position
      `count` records further on. */
  lemma {:induction false} RecordsInBounds(data: seq<byte>, pos: nat, sz: nat, unpack: seq<byte> -> Result<seq<Value>>, count: nat)
    requires sz > 0 && Sized(unpack, sz)
    ensures Records(data, pos, sz, unpack, count).0.Ok? <==> count == 0 || pos + count * sz <= |data|
    ensures Records(data, pos, sz, unpack, count).0.Ok? ==>
      Records(data, pos, sz, unpack, count).1 == pos + count * sz &&
      |Records(data, pos, sz, unpack, count).0.value| == count
    decreases count
  {
    if count > 0 {
      MulStep(count, sz);
      var chunk := ReadSlice(data, pos, sz);
      if pos + sz <= |data| {
        assert Advance(data, pos, sz) == pos + sz;
        assert unpack(chunk).Ok?;
        RecordsInBounds(data, pos + sz, sz, unpack, count - 1);
      } else {
        assert unpack(chunk).Err?;
      }
    }
  }

  /** The first of several records that fit: it decoded, then the others from
      one record further on. */
  lemma RecordsHead(data: seq<byte>, pos: nat, sz: nat, unpack: seq<byte> -> Result<seq<Value>>, count: nat)
    requires sz > 0 && Sized(unpack, sz)
    requires pos + count * sz <= |data| && count > 0
    ensures pos + sz + (count - 1) * sz <= |data|
    ensures unpack(ReadSlice(data, pos, sz)).Ok?
    ensures Records(data, pos + sz, sz, unpack, count - 1).0.Ok?
    ensures Records(data, pos, sz, unpack, count).0.Ok?
    ensures Records(data, pos, sz, unpack, count).0.value
            == [Unwrap(unpack(ReadSlice(data, pos, sz)).value)] + Records(data, pos + sz, sz, unpack, count - 1).0.value
  {
    MulStep(count, sz);
    assert Advance(data, pos, sz) == pos + sz;
    assert |ReadSlice(data, pos, sz)| == sz;
    RecordsInBounds(data, pos + sz, sz, unpack, count - 1);
  }

  /** ... and record `i` decodes the `sz` bytes at `pos + i*sz`. */
  lemma {:induction false} RecordsItem(data: seq<byte>, pos: nat, sz: nat, unpack: seq<byte> -> Result<seq<Value>>, count: nat, i: nat)
    requires sz > 0 && Sized(unpack, sz)
    requires pos + count * sz <= |data| && i < count
    ensures Records(data, pos, sz, unpack, count).0.Ok?
    ensures i < |Records(data, pos, sz, unpack, count).0.value|
    ensures unpack(ReadSlice(data, pos + i * sz, sz)).Ok?
    ensures Records(data, pos, sz, unpack, count).0.value[i] ==
      Unwrap(unpack(ReadSlice(data, pos + i * sz, sz)).value)
    decreases count
  {
    RecordsHead(data, pos, sz, unpack, count);
    if i > 0 {
      var tail := Records(data, pos + sz, sz, unpack, count - 1).0.value;
      RecordsItem(data, pos + sz, sz, unpack, count - 1, i - 1);
      assert pos + sz + (i - 1) * sz == pos + i * sz by { MulStep(i, sz); }
      assert Records(data, pos, sz, unpack, count).0.value[i] == tail[i - 1];
    } else {
      assert i * sz == 0;
    }
  }

  /** Successful record reads return exactly `count` items. */
  lemma {:induction false} RecordsCount(data: seq<byte>, pos: nat, sz: nat, unpack: seq<byte> -> Result<seq<Value>>, count: nat)
    ensures Records(data, pos, sz, unpack, count).0.Ok? ==> |Records(data, pos, sz, unpack, count).0.value| == count
    decreases count
  {
    if count > 0 && unpack(ReadSlice(data, pos, sz)).Ok? {
      RecordsCount(data, Advance(data, pos, sz), sz, unpack, count - 1);
    }
  }

  /** Formatted reads of a non-empty format succeed exactly when all `count`
      records lie inside the file; then they return `count` items and leave the
      position `count` records further on. */
  lemma FormatReadsInBounds(data: seq<byte>, pos: nat, f: Format, count: nat)
    requires ValidCodes(f) && CalcSize(f) > 0
    ensures FormatReads(data, pos, f, count).0.Ok? <==> count == 0 || pos + count * CalcSize(f) <= |data|
    ensures FormatReads(data, pos, f, count).0.Ok? ==>
      FormatReads(data, pos, f, count).1 == pos + count * CalcSize(f) &&
      |FormatReads(data, pos, f, count).0.value| == count
  {
    UnpackSized(f);
    RecordsInBounds(data, pos, CalcSize(f), UnpackWith(f), count);
  }

  /** ... and record `i` unpacks the `calcsize(f)` bytes at `pos + i*calcsize(f)`. */
  lemma FormatReadsItem(data: seq<byte>, pos: nat, f: Format, count: nat, i: nat)
    requires ValidCodes(f) && CalcSize(f) > 0
    requires pos + count * CalcSize(f) <= |data| && i < count
    ensures FormatReads(data, pos, f, count).0.Ok?
    ensures i < |FormatReads(data, pos, f, count).0.value|
    ensures Unpack(f, ReadSlice(data, pos + i * CalcSize(f), CalcSize(f))).Ok?
    ensures FormatReads(data, pos, f, count).0.value[i] ==
      Unwrap(Unpack(f, ReadSlice(data, pos + i * CalcSize(f), CalcSize(f))).value)
  {
    var chunk := ReadSlice(data, pos + i * CalcSize(f), CalcSize(f));
    UnpackSized(f);
    RecordsItem(data, pos, CalcSize(f), UnpackWith(f), count, i);
    assert UnpackWith(f)(chunk) == Unpack(f, chunk);
  }

  /** The items `read` collects from `start`, and the position after them:
      raw reads, or a struct.error for a malformed format, or formatted reads. */
  function Items(data: seq<byte>, start: nat, size: SizeArg, count: nat): (Result<seq<Item>>, nat)
  {
    match size
    case Count(n) => RawReads(data, start, n, count)
    case Fmt(fmt) =>
      match ParseFormat(fmt)
      case Err(e) => (Err(e), start)
      case Ok(f) => FormatReads(data, start, f, count)
  }

  /** `read(size, pos, count)` on a file positioned at `pos`: what it returns and
      where it leaves the position. */
  function ReadSpec(data: seq<byte>, pos: nat, size: SizeArg, at: Option<int>, count: int): (Result<Output>, nat)
  {
    var sought := if at.Some? then SeekTarget(|data|, pos, at.value, Code(0)) else Ok(pos);
    if sought.Err? then (Err(sought.error), pos)
    else
      var start := sought.value;
      if count < 0 then (Err(ValueError), start)
      else if count == 0 then (Ok(Many([])), start)
      else
        var (items, end) := Items(data, start, size, count);
        if items.Err? then (Err(items.error), end)
        else if |items.value| != count then (Err(ValueError), end)
        else (Ok(if count == 1 then One(items.value[0]) else Many(items.value)), end)
  }

  /** `read`'s count rule: a negative count is a ValueError and a zero count is
      an empty list, neither reading anything; raw reads of several chunks that
      fit return a list of them, chunk `i` the `n` bytes `i` chunks on. */
  lemma ReadCountRule(data: seq<byte>, pos: nat, size: SizeArg, n: nat, count: int)
    ensures count < 0 ==> ReadSpec(data, pos, size, None, count) == (Err(ValueError), pos)
    ensures count == 0 ==> ReadSpec(data, pos, size, None, count) == (Ok(Many([])), pos)
    ensures count >= 2 && pos + count * n <= |data| ==>
      var (r, end) := ReadSpec(data, pos, Count(n), None, count);
      && r.Ok? && r.value.Many? && |r.value.items| == count && end == pos + count * n
      && (forall i :: 0 <= i < count ==> r.value.items[i] == Raw(ReadSlice(data, pos + i * n, n)))
  {
    if count >= 2 && pos + count * n <= |data| {
      RawReadsConsecutive(data, pos, n, count);
      forall i | 0 <= i < count
        ensures RawReads(data, pos, n, count).0.value[i] == Raw(ReadSlice(data, pos + i * n, n))
      {
        RawReadsItem(data, pos, n, count, i);
      }
    }
  }

  /** Successful raw reads return exactly `count` items. */
  lemma {:induction false} RawReadsCount(data: seq<byte>, pos: nat, n: int, count: nat)
    ensures RawReads(data, pos, n, count).0.Ok? ==> |RawReads(data, pos, n, count).0.value| == count
    decreases count
  {
    if count > 0 {
      RawReadsCount(data, Advance(data, pos, n), n, count - 1);
    }
  }

  /** Successful reads return exactly `count` items. */
  lemma ItemsCount(data: seq<byte>, start: nat, size: SizeArg, count: nat)
    ensures Items(data, start, size, count).0.Ok? ==> |Items(data, start, size, count).0.value| == count
  {
    match size
    case Count(n) => RawReadsCount(data, start, n, count);
    case Fmt(fmt) =>
      if ParseFormat(fmt).Ok? {
        var f := ParseFormat(fmt).value;
        RecordsCount(data, start, CalcSize(f), UnpackWith(f), count);
      }
  }

  /** `readString(pos, length)` on a file positioned at `pos`: what it returns and
      where it leaves the position. A NUL-terminated read consumes the NUL; one
      that reaches the end never returns. A struct.error while reading a length
      prefix gives None; a prefix that is not an integer is a TypeError. */
  function ReadStringSpec(data: seq<byte>, pos: nat, at: Option<int>, length: LengthArg)
    : (Result<Option<seq<byte>>>, nat)
  {
    var sought := if at.Some? then SeekTarget(|data|, pos, at.value, Code(0)) else Ok(pos);
    if sought.Err? then (Err(sought.error), pos)
    else
      var start := sought.value;
      match length
      case UntilNul =>
        (match CString(data, start)
         case Ok(s) => (Ok(Some(s)), start + |s| + 1)
         case Err(e) => (Err(e), if start < |data| then |data| else start))
      case Fixed(n) => (Ok(Some(ReadSlice(data, start, n))), Advance(data, start, n))
      case Prefixed(fmt) =>
        var (prefix, afterPrefix) := ReadSpec(data, start, Fmt(fmt), None, 1);
        if prefix.Err? then (Ok(None), afterPrefix)
        else
          match LengthOf(prefix.value.item)
          case Err(e) => (Err(e), afterPrefix)
          case Ok(n) => (Ok(Some(ReadSlice(data, afterPrefix, n))), Advance(data, afterPrefix, n))
  }

  class FileReader {
    /** The file's contents. */
    const data: seq<byte>
    /** `self.size`, measured once at construction. */
    const size: nat
    /** The file's read position. */
    var pos: nat

    /** Wrap a file positioned at `start`: the size is found by seeking to the end,
        and the position is then put back. */
    constructor(contents: seq<byte>, start: nat)
      ensures data == contents && size == |contents| && pos == start
    {
      data := contents;
      size := |contents|;
      pos := start;
    }

    method Seek(offset: int, whence: Whence) returns (r: Result<nat>)
      modifies this
      ensures r == SeekTarget(|data|, old(pos), offset, whence)
      ensures pos == if r.Ok? then r.value else old(pos)
    {
      r := SeekTarget(|data|, pos, offset, whence);
      if r.Ok? {
        pos := r.value;
      }
    }

    method Tell() returns (p: nat)
      ensures p == pos
    {
      p := pos;
    }

    /** The item-collecting loop of `read`, from the current position. */
    method ReadItems(size: SizeArg, count: nat) returns (r: Result<seq<Item>>)
      modifies this
      ensures (r, pos) == Items(data, old(pos), size, count)
    {
      ghost var start := pos;
      var items: seq<Item> := [];
      var i := 0;
      if size.Count? {
        PrependEmpty(RawReads(data, pos, size.n, count));
        while i < count
          invariant 0 <= i <= count
          invariant RawReads(data, start, size.n, count)
            == Prepend(items, RawReads(data, pos, size.n, count - i))
        {
          PrependTwice(items, [Raw(ReadSlice(data, pos, size.n))],
            RawReads(data, Advance(data, pos, size.n), size.n, count - i - 1));
          items := items + [Raw(ReadSlice(data, pos, size.n))];
          pos := Advance(data, pos, size.n);
          i := i + 1;
        }
        assert items + [] == items;
      } else {
        var parsed := ParseFormat(size.fmt);
        if parsed.Err? {
          return Err(parsed.error);
        }
        var f := parsed.value;
        PrependEmpty(FormatReads(data, pos, f, count));
        while i < count
          invariant 0 <= i <= count
          invariant FormatReads(data, start, f, count)
            == Prepend(items, FormatReads(data, pos, f, count - i))
        {
          var chunk := ReadSlice(data, pos, CalcSize(f));
          var vs := Unpack(f, chunk);
          assert UnpackWith(f)(chunk) == vs;
          pos := Advance(data, pos, CalcSize(f));
          if vs.Err? {
            return Err(vs.error);
          }
          PrependTwice(items, [Unwrap(vs.value)], FormatReads(data, pos, f, count - i - 1));
          items := items + [Unwrap(vs.value)];
          i := i + 1;
        }
        assert items + [] == items;
      }
      return Ok(items);
    }

    /** `read(size, pos, count)`: seek first when a position is given, reject a
        negative count, return [] for count 0, otherwise read `count` items and
        return the item itself when count is 1. */
    method Read(size: SizeArg, at: Option<int>, count: int) returns (r: Result<Output>)
      modifies this
      ensures (r, pos) == ReadSpec(data, old(pos), size, at, count)
    {
      if at.Some? {
        var s := Seek(at.value, Code(0));
        if s.Err? {
          return Err(s.error);
        }
      }
      if count < 0 {
        return Err(ValueError);
      }
      if count == 0 {
        return Ok(Many([]));
      }
      ghost var start := pos;
      var items := ReadItems(size, count);
      if items.Err? {
        return Err(items.error);
      }
      ItemsCount(data, start, size, count);
      if count == 1 {
        return Ok(One(items.value[0]));
      }
      return Ok(Many(items.value));
    }

    /** The NUL-terminated scan of `readString`, one byte at a time. */
    method ReadUntilNul() returns (r: Result<seq<byte>>)
      modifies this
      ensures r == CString(data, old(pos))
      ensures r.Ok? ==> pos == old(pos) + |r.value| + 1
      ensures r.Err? ==> pos == if old(pos) < |data| then |data| else old(pos)
    {
      var s: seq<byte> := [];
      ghost var start := pos;
      assert CStringAfter(data, s, pos) == CString(data, start) by {
        if CString(data, start).Ok? {
          assert [] + CString(data, start).value == CString(data, start).value;
        }
      }
      while pos < |data| && data[pos] != 0
        invariant pos == start + |s|
        invariant start <= |data| ==> pos <= |data|
        invariant start > |data| ==> pos == start
        invariant CString(data, start) == CStringAfter(data, s, pos)
        decreases |data| - pos
      {
        CStringStep(data, s, pos);
        s := s + [data[pos]];
        pos := pos + 1;
      }
      if pos >= |data| {
        return Err(NoTerminator);
      }
      assert s + [] == s;
      pos := pos + 1;
      return Ok(s);
    }

    /** `readString(pos, length)`, leaving the text undecoded. */
    method ReadString(at: Option<int>, length: LengthArg) returns (r: Result<Option<seq<byte>>>)
      modifies this
      ensures (r, pos) == ReadStringSpec(data, old(pos), at, length)
    {
      if at.Some? {
        var s := Seek(at.value, Code(0));
        if s.Err? {
          return Err(s.error);
        }
      }
      var n: int;
      match length {
        case UntilNul =>
          var s := ReadUntilNul();
          if s.Err? {
            return Err(s.error);
          }
          return Ok(Some(s.value));
        case Fixed(k) =>
          n := k;
        case Prefixed(fmt) =>
          var prefix := Read(Fmt(fmt), None, 1);
          if prefix.Err? {
            return Ok(None);
          }
          var len := LengthOf(prefix.value.item);
          if len.Err? {
            return Err(len.error);
          }
          n := len.value;
      }
      var s := ReadSlice(data, pos, n);
      pos := Advance(data, pos, n);
      return Ok(Some(s));
    }
  }

  /** The byte count `file.read` accepts from an unpacked length: an integer
      (a bool counts as 0 or 1); anything else is a TypeError. */
  function LengthOf(it: Item): (r: Result<int>)
    ensures r.Ok? <==> it.Scalar? && (it.value.Int? || it.value.Bool?)
    ensures r.Ok? && it.value.Int? ==> r.value == it.value.i
  {
    match it
    case Scalar(Int(i)) => Ok(i)
    case Scalar(Bool(b)) => Ok(if b then 1 else 0)
    case _ => Err(TypeError)
  }

  /** What remains of a NUL-terminated scan that has collected `s` and stands at `pos`. */
  function CStringAfter(data: seq<byte>, s: seq<byte>, pos: nat): Result<seq<byte>>
  {
    var rest :- CString(data, pos);
    Ok(s + rest)
  }

  lemma CStringStep(data: seq<byte>, s: seq<byte>, pos: nat)
    requires pos < |data| && data[pos] != 0
    ensures CStringAfter(data, s, pos) == CStringAfter(data, s + [data[pos]], pos + 1)
  {
    if CString(data, pos + 1).Ok? {
      var rest := CString(data, pos + 1).value;
      assert s + ([data[pos]] + rest) == (s + [data[pos]]) + rest;
    }
  }

  /** `read(n)` with count 1 gives the bytes at the position, as one item. */
  lemma RawOnce(data: seq<byte>, pos: nat, n: nat)
    ensures ReadSpec(data, pos, Count(n), None, 1) == (Ok(One(Raw(ReadSlice(data, pos, n)))), Advance(data, pos, n))
  {
    var item := Raw(ReadSlice(data, pos, n));
    assert RawReads(data, pos, n, 1).0 == Ok([item] + []);
  }

  /** `file.read(n)`: the bytes at the position, which then moves past them. */
  method ReadBytes(file: FileReader, n: nat) returns (b: seq<byte>)
    modifies file
    ensures b == ReadSlice(file.data, old(file.pos), n) && file.pos == Advance(file.data, old(file.pos), n)
  {
    RawOnce(file.data, file.pos, n);
    var raw := file.Read(Count(n), None, 1);
    b := raw.value.item.bytes;
  }
}
