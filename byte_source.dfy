/** A binary file opened for reading, seen as its contents plus a position:
    what `file.seek`, `file.read(n)` and a NUL-terminated scan return. */
module ByteSource {
  import opened Wrappers
  import opened Bytes

  /** The `whence` argument of `seek`: a name or a number. */
  datatype Whence = Named(name: string) | Code(code: int)

  /** `_seekNames.get(whence, whence)`: the three names become 0, 1 and 2,
      anything else passes through unchanged. */
  function WhenceCode(w: Whence): (r: Whence)
    ensures w.Code? ==> r == w
    ensures w.Named? && w.name == "start" ==> r == Code(0)
    ensures w.Named? && w.name == "cur" ==> r == Code(1)
    ensures w.Named? && w.name == "end" ==> r == Code(2)
    ensures w.Named? && w.name != "start" && w.name != "cur" && w.name != "end" ==> r == w
  {
    match w
    case Code(_) => w
    case Named(n) =>
      if n == "start" then Code(0)
      else if n == "cur" then Code(1)
      else if n == "end" then Code(2)
      else w
  }

  /** Where `file.seek(offset, whence)` moves a file of `size` bytes positioned at
      `pos`. A name that is not one of the three is a TypeError, an unknown code a
      ValueError, a negative absolute offset a ValueError and a negative relative
      target an OSError. Seeking past the end is allowed. */
  function SeekTarget(size: nat, pos: nat, offset: int, whence: Whence): (r: Result<nat>)
    ensures r.Ok? ==> WhenceCode(whence).Code? && 0 <= WhenceCode(whence).code <= 2
    ensures r.Ok? && WhenceCode(whence) == Code(0) ==> r.value == offset
    ensures r.Ok? && WhenceCode(whence) == Code(1) ==> r.value == pos + offset
    ensures r.Ok? && WhenceCode(whence) == Code(2) ==> r.value == size + offset
    ensures WhenceCode(whence).Code? && 0 <= WhenceCode(whence).code <= 2 && r.Err? ==>
      (WhenceCode(whence).code == 0 && offset < 0) ||
      (WhenceCode(whence).code == 1 && pos + offset < 0) ||
      (WhenceCode(whence).code == 2 && size + offset < 0)
  {
    match WhenceCode(whence)
    case Named(_) => Err(TypeError)
    case Code(c) =>
      if c == 0 then (if offset < 0 then Err(ValueError) else Ok(offset))
      else if c == 1 || c == 2 then
        var target := (if c == 1 then pos else size) + offset;
        if target < 0 then Err(OSError) else Ok(target)
      else Err(ValueError)
  }

  /** The bytes `file.read(n)` returns at `pos`: everything left when `n` is
      negative, otherwise at most `n` bytes, and nothing at or past the end. */
  function ReadSlice(data: seq<byte>, pos: nat, n: int): (r: seq<byte>)
    ensures pos <= |data| ==> pos + |r| <= |data| && r == data[pos..pos + |r|]
    ensures pos >= |data| ==> r == []
    ensures n >= 0 ==> |r| <= n
    ensures n >= 0 && pos + n <= |data| ==> |r| == n
    ensures n < 0 && pos <= |data| ==> |r| == |data| - pos
  {
    if pos >= |data| then []
    else if n < 0 || pos + n > |data| then data[pos..]
    else data[pos..pos + n]
  }

  /** The position after `file.read(n)` at `pos`. */
  function Advance(data: seq<byte>, pos: nat, n: int): nat
  {
    pos + |ReadSlice(data, pos, n)|
  }

  /** The bytes from `pos` up to (not including) the first NUL; `NoTerminator`
      when the file ends first, since a byte-at-a-time scan then never stops. */
  function CString(data: seq<byte>, pos: nat): Result<seq<byte>>
    decreases |data| - pos
  {
    if pos >= |data| then Err(NoTerminator)
    else if data[pos] == 0 then Ok([])
    else
      var rest :- CString(data, pos + 1);
      Ok([data[pos]] + rest)
  }

  /** The scan succeeds exactly when a NUL follows `pos`; it then returns the
      bytes before the first such NUL, none of which is NUL. */
  lemma {:induction false} CStringShape(data: seq<byte>, pos: nat)
    ensures CString(data, pos).Ok? <==> exists k :: pos <= k < |data| && data[k] == 0
    ensures CString(data, pos).Ok? ==>
      pos + |CString(data, pos).value| < |data| && CString(data, pos).value == data[pos..pos + |CString(data, pos).value|]
    ensures CString(data, pos).Ok? ==> data[pos + |CString(data, pos).value|] == 0
    ensures CString(data, pos).Ok? ==> forall i :: 0 <= i < |CString(data, pos).value| ==> CString(data, pos).value[i] != 0
    decreases |data| - pos
  {
    if pos < |data| && data[pos] != 0 {
      CStringShape(data, pos + 1);
      if CString(data, pos + 1).Ok? {
        var rest := CString(data, pos + 1).value;
        assert data[pos..pos + 1 + |rest|] == [data[pos]] + data[pos + 1..pos + 1 + |rest|];
      } else {
        forall k | pos <= k < |data| ensures data[k] != 0 {
          if k > pos {
            assert !(pos + 1 <= k < |data| && data[k] == 0);
          }
        }
      }
    }
  }

  /** A NUL-terminated string ends at the first NUL: appending more bytes after
      it, or changing them, does not change what is read. */
  lemma {:induction false} CStringPrefix(data: seq<byte>, more: seq<byte>, pos: nat)
    requires CString(data, pos).Ok?
    ensures CString(data + more, pos) == CString(data, pos)
    decreases |data| - pos
  {
    if data[pos] != 0 {
      CStringPrefix(data, more, pos + 1);
    }
  }

  /** An open binary file object: its contents and its read position. */
  class BinFile {
    const data: seq<byte>
    var pos: nat

    constructor(contents: seq<byte>, start: nat)
      ensures data == contents && pos == start
    {
      data := contents;
      pos := start;
    }

    /** `file.seek(offset, whence)`; a failed seek leaves the position alone. */
    method Seek(offset: int, whence: int) returns (r: Result<nat>)
      modifies this
      ensures r == SeekTarget(|data|, old(pos), offset, Code(whence))
      ensures pos == if r.Ok? then r.value else old(pos)
    {
      r := SeekTarget(|data|, pos, offset, Code(whence));
      if r.Ok? {
        pos := r.value;
      }
    }

    method Tell() returns (p: nat)
      ensures p == pos
    {
      p := pos;
    }

    /** `file.read(n)`. */
    method Read(n: int) returns (b: seq<byte>)
      modifies this
      ensures b == ReadSlice(data, old(pos), n)
      ensures pos == old(pos) + |b|
    {
      b := ReadSlice(data, pos, n);
      pos := pos + |b|;
    }
  }
}
