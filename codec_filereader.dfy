/** The codecs' own `FileReader` (codec/base/filereader.py): the same seeking as
    `filereader.FileReader`, a single read per call with no unwrapping of
    unpacked tuples, and a NUL-terminated string read bounded by `maxlen`. */
module CodecFileReaders {
  import opened Wrappers
  import opened Bytes
  import opened StructFormat
  import opened ByteSource
  import FileReaders

  /** One `read(size, pos)` from `start`: raw bytes, or the whole unpacked tuple. */
  function ReadOnce(data: seq<byte>, start: nat, size: FileReaders.SizeArg): (Result<FileReaders.Item>, nat)
  {
    match size
    case Count(n) => (Ok(FileReaders.Raw(ReadSlice(data, start, n))), Advance(data, start, n))
    case Fmt(fmt) =>
      match ParseFormat(fmt)
      case Err(e) => (Err(e), start)
      case Ok(f) =>
        var chunk := ReadSlice(data, start, CalcSize(f));
        match Unpack(f, chunk)
        case Err(e) => (Err(e), Advance(data, start, CalcSize(f)))
        case Ok(vs) => (Ok(FileReaders.Tuple(vs)), Advance(data, start, CalcSize(f)))
  }

  /** A string read limited to `m` loop rounds: each round reads one byte, a NUL
      ends the string (consumed, not kept), and a round at the end of the file
      reads nothing but still counts. */
  function Bounded(data: seq<byte>, pos: nat, m: int): (seq<byte>, nat)
    decreases if m > 0 then m else 0
  {
    if m <= 0 || pos >= |data| then ([], pos)
    else if data[pos] == 0 then ([], pos + 1)
    else
      var rest := Bounded(data, pos + 1, m - 1);
      ([data[pos]] + rest.0, rest.1)
  }

  /** The bounded read returns at most `m` bytes, all of them non-NUL, taken
      in order from the file at `pos`. */
  lemma {:induction false} BoundedShape(data: seq<byte>, pos: nat, m: int)
    ensures m >= 0 ==> |Bounded(data, pos, m).0| <= m
    ensures pos <= |data| ==> pos + |Bounded(data, pos, m).0| <= |data|
    ensures pos <= |data| ==> Bounded(data, pos, m).0 == data[pos..pos + |Bounded(data, pos, m).0|]
    ensures pos > |data| ==> Bounded(data, pos, m).0 == []
    ensures forall i :: 0 <= i < |Bounded(data, pos, m).0| ==> Bounded(data, pos, m).0[i] != 0
    decreases if m > 0 then m else 0
  {
    if m > 0 && pos < |data| && data[pos] != 0 {
      var rest := Bounded(data, pos + 1, m - 1).0;
      BoundedShape(data, pos + 1, m - 1);
      assert data[pos..pos + 1 + |rest|] == [data[pos]] + data[pos + 1..pos + 1 + |rest|];
    }
  }

  /** `readString(pos, maxlen)` without decoding: no limit is the plain NUL scan,
      which never stops at the end of the file. */
  function ReadStringSpec(data: seq<byte>, pos: nat, at: Option<int>, maxlen: Option<int>)
    : (Result<seq<byte>>, nat)
  {
    var sought := if at.Some? then SeekTarget(|data|, pos, at.value, Code(0)) else Ok(pos);
    if sought.Err? then (Err(sought.error), pos)
    else
      var start := sought.value;
      if maxlen.Some? then
        var (s, end) := Bounded(data, start, maxlen.value);
        (Ok(s), end)
      else
        match CString(data, start)
        case Ok(s) => (Ok(s), start + |s| + 1)
        case Err(e) => (Err(e), if start < |data| then |data| else start)
  }

  /** One round of the bounded read on a byte that is not NUL. */
  lemma BoundedStep(data: seq<byte>, pos: nat, m: int)
    requires m > 0 && pos < |data| && data[pos] != 0
    ensures Bounded(data, pos, m) == ([data[pos]] + Bounded(data, pos + 1, m - 1).0, Bounded(data, pos + 1, m - 1).1)
  {
  }

  /** One step of the NUL scan on a byte that is not NUL. */
  lemma CStringStep(data: seq<byte>, pos: nat)
    requires pos < |data| && data[pos] != 0
    ensures CString(data, pos).Ok? <==> CString(data, pos + 1).Ok?
    ensures CString(data, pos).Ok? ==> CString(data, pos).value == [data[pos]] + CString(data, pos + 1).value
  {
  }

  /** With a limit at least as long as the string, the bounded read is the
      plain NUL-terminated read. */
  lemma {:induction false} BoundedAgreesWithCString(data: seq<byte>, pos: nat, m: int)
    requires CString(data, pos).Ok? && |CString(data, pos).value| < m
    ensures Bounded(data, pos, m) == (CString(data, pos).value, pos + |CString(data, pos).value| + 1)
    decreases |data| - pos
  {
    assert pos < |data|;
    if data[pos] != 0 {
      CStringStep(data, pos);
      BoundedAgreesWithCString(data, pos + 1, m - 1);
      BoundedStep(data, pos, m);
    }
  }

  /** The collected bytes `s` in front of what a read still to come returns. */
  function After(s: seq<byte>, rest: (seq<byte>, nat)): (seq<byte>, nat)
  {
    (s + rest.0, rest.1)
  }

  lemma AfterStep(s: seq<byte>, b: byte, rest: (seq<byte>, nat))
    ensures After(s, ([b] + rest.0, rest.1)) == After(s + [b], rest)
  {
    assert s + ([b] + rest.0) == (s + [b]) + rest.0;
  }

  class FileReader {
    const data: seq<byte>
    var pos: nat

    constructor(contents: seq<byte>, start: nat)
      ensures data == contents && pos == start
    {
      data := contents;
      pos := start;
    }

    method Seek(offset: int, whence: Whence) returns (r: Result<nat>)
      modifies this
      ensures r == SeekTarget(|data|, old(pos), offset, whence)
      ensures pos == if r.Ok? then r.value else old(pos)
    {
      r := SeekTarget(|data|, pos, offset, whence);
      if r.Ok? {
        pos := r.value;
      }
    }

    /** `read(size, pos)`: seek first when a position is given, then read once. */
    method Read(size: FileReaders.SizeArg, at: Option<int>) returns (r: Result<FileReaders.Item>)
      modifies this
      ensures at.Some? && SeekTarget(|data|, old(pos), at.value, Code(0)).Err? ==>
        r.Err? && pos == old(pos)
      ensures at.Some? && SeekTarget(|data|, old(pos), at.value, Code(0)).Ok? ==>
        (r, pos) == ReadOnce(data, at.value, size)
      ensures at.None? ==> (r, pos) == ReadOnce(data, old(pos), size)
    {
      if at.Some? {
        var s := Seek(at.value, Code(0));
        if s.Err? {
          return Err(s.error);
        }
      }
      var outcome := ReadOnce(data, pos, size);
      r := outcome.0;
      pos := outcome.1;
    }

    /** The string loop with a limit of `m` rounds, from the current position. */
    method ReadBounded(m: int) returns (s: seq<byte>)
      modifies this
      ensures (s, pos) == Bounded(data, old(pos), m)
    {
      ghost var start := pos;
      s := [];
      var rounds := 0;
      assert [] + Bounded(data, pos, m).0 == Bounded(data, pos, m).0;
      while rounds < m
        invariant Bounded(data, start, m) == After(s, Bounded(data, pos, m - rounds))
        decreases m - rounds
      {
        if pos >= |data| {
          rounds := rounds + 1;
        } else if data[pos] == 0 {
          assert s + [] == s;
          pos := pos + 1;
          return;
        } else {
          BoundedStep(data, pos, m - rounds);
          AfterStep(s, data[pos], Bounded(data, pos + 1, m - rounds - 1));
          s := s + [data[pos]];
          pos := pos + 1;
          rounds := rounds + 1;
        }
      }
      assert s + [] == s;
    }

    /** The string loop with no limit: it only ends at a NUL. */
    method ReadUntilNul() returns (r: Result<seq<byte>>)
      modifies this
      ensures r == CString(data, old(pos))
      ensures r.Ok? ==> pos == old(pos) + |r.value| + 1
      ensures r.Err? ==> pos == if old(pos) < |data| then |data| else old(pos)
    {
      ghost var start := pos;
      var s: seq<byte> := [];
      if CString(data, pos).Ok? {
        assert [] + CString(data, pos).value == CString(data, pos).value;
      }
      while true
        invariant pos == start + |s|
        invariant start <= |data| ==> pos <= |data|
        invariant start > |data| ==> pos == start
        invariant CString(data, start) == CStringFrom(data, s, pos)
        decreases |data| - pos + 1
      {
        if pos >= |data| {
          return Err(NoTerminator);
        }
        if data[pos] == 0 {
          assert s + [] == s;
          pos := pos + 1;
          return Ok(s);
        }
        CStringFromStep(data, s, pos);
        s := s + [data[pos]];
        pos := pos + 1;
      }
    }

    /** `readString(pos, maxlen, None)`: the loop runs while there is no limit or
        fewer than `maxlen` reads were collected. */
    method ReadString(at: Option<int>, maxlen: Option<int>) returns (r: Result<seq<byte>>)
      modifies this
      ensures (r, pos) == ReadStringSpec(data, old(pos), at, maxlen)
    {
      if at.Some? {
        var sought := Seek(at.value, Code(0));
        if sought.Err? {
          return Err(sought.error);
        }
      }
      if maxlen.Some? {
        var s := ReadBounded(maxlen.value);
        return Ok(s);
      }
      r := ReadUntilNul();
    }
  }

  /** The outcome of a NUL scan that has collected `s` and stands at `pos`. */
  function CStringFrom(data: seq<byte>, s: seq<byte>, pos: nat): Result<seq<byte>>
  {
    var rest :- CString(data, pos);
    Ok(s + rest)
  }

  lemma CStringFromStep(data: seq<byte>, s: seq<byte>, pos: nat)
    requires pos < |data| && data[pos] != 0
    ensures CStringFrom(data, s, pos) == CStringFrom(data, s + [data[pos]], pos + 1)
  {
    if CString(data, pos + 1).Ok? {
      var rest := CString(data, pos + 1).value;
      assert s + ([data[pos]] + rest) == (s + [data[pos]]) + rest;
    }
  }
}
