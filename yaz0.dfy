/** Yaz0 decompression (codec/yaz0/decoder.py).

    A Yaz0 file is a 16-byte header (magic "Yaz0" or "Yaz1", the decompressed
    size as a big-endian u32, 8 bytes never read) followed by groups of one
    control byte and eight tokens. Control bits are taken most significant
    first: a set bit copies one input byte to the output, a clear bit is a
    back-reference of two or three bytes that copies 3..0x111 bytes, one at a
    time, from 1..0x1000 bytes back in the output.

    The reference decoder below works on the whole output produced so far;
    `Yaz0Stream` keeps only the last 0x1111 bytes and is proved to compute the
    same bytes. */
module Yaz0 {
  import opened Wrappers
  import opened Bytes

  /** The number of output bytes the stream keeps for back-references. */
  const Window: nat := 0x1111

  const MagicYaz0: seq<byte> := [0x59, 0x61, 0x7A, 0x30]
  const MagicYaz1: seq<byte> := [0x59, 0x61, 0x7A, 0x31]

  /** Where the compressed data starts, whatever the header says. */
  const DataStart: nat := 16

  /** How a back-reference reads its source byte. `AsWritten` indexes the output
      list like the source, where a position before the start of the output
      becomes a negative Python index counted from the end; `Checked` rejects it. */
  datatype Mode = AsWritten | Checked

  datatype Header = Header(magic: seq<byte>, size: nat)

  /** The header read with '>4sI' at `pos`: too few bytes is a struct.error, a
      magic other than Yaz0/Yaz1 an UnsupportedFileTypeError carrying it. */
  function ParseHeader(input: seq<byte>, pos: nat): (r: Result<Header>)
    ensures pos + 8 > |input| ==> r == Err(StructError)
    ensures r.Ok? <==>
      pos + 8 <= |input| && (input[pos..pos + 4] == MagicYaz0 || input[pos..pos + 4] == MagicYaz1)
    ensures r.Ok? ==> r.value.magic == input[pos..pos + 4] && r.value.size == U32BE(input, pos + 4)
    ensures r.Ok? ==> r.value.size < 0x1_0000_0000
    ensures pos + 8 <= |input| && r.Err? ==> r.error == UnsupportedFileType(input[pos..pos + 4])
  {
    if pos + 8 > |input| then Err(StructError)
    else
      var magic := input[pos..pos + 4];
      if magic != MagicYaz0 && magic != MagicYaz1 then Err(UnsupportedFileType(magic))
      else Ok(Header(magic, U32BE(input, pos + 4)))
  }

  /** `_nextByte` at `src`: past the end of the input, indexing b'' fails. */
  function ByteAt(input: seq<byte>, src: nat): (r: Result<byte>)
    ensures r.Ok? <==> src < |input|
    ensures r.Ok? ==> r.value == input[src]
  {
    if src < |input| then Ok(input[src]) else Err(IndexError)
  }

  /** The byte a back-reference copies from output position `from`. */
  function Fetch(out: seq<byte>, from: int, mode: Mode): (r: Result<byte>)
    ensures 0 <= from < |out| ==> r == Ok(out[from])
    ensures from >= |out| ==> r.Err?
    ensures mode == Checked ==> (r.Ok? <==> 0 <= from < |out|)
  {
    if 0 <= from < |out| then Ok(out[from])
    else if from < 0 && mode == AsWritten && |out| + from >= 0 then Ok(out[|out| + from])
    else Err(IndexError)
  }

  /** Copy `n` bytes one at a time from `from` onwards, each copy seeing the
      bytes already appended, so a run longer than its distance repeats them. */
  function CopyRun(out: seq<byte>, from: int, n: nat, mode: Mode): Result<seq<byte>>
    decreases n
  {
    if n == 0 then Ok(out)
    else
      var b :- Fetch(out, from, mode);
      CopyRun(out + [b], from + 1, n - 1, mode)
  }

  /** A run appends exactly `n` bytes and leaves what was there untouched. */
  lemma {:induction false} CopyRunShape(out: seq<byte>, from: int, n: nat, mode: Mode)
    ensures var r := CopyRun(out, from, n, mode);
      r.Ok? ==> |r.value| == |out| + n && r.value[..|out|] == out
    decreases n
  {
    if n > 0 && Fetch(out, from, mode).Ok? {
      var b := Fetch(out, from, mode).value;
      CopyRunShape(out + [b], from + 1, n - 1, mode);
      var r := CopyRun(out + [b], from + 1, n - 1, mode);
      if r.Ok? {
        assert r.value[..|out|] == (r.value[..|out| + 1])[..|out|];
      }
    }
  }

  /** One step of CopyRun: the first byte fetched, or the error that stops it. */
  lemma CopyRunStep(out: seq<byte>, from: int, n: nat, mode: Mode)
    requires n > 0
    ensures var b := Fetch(out, from, mode);
      CopyRun(out, from, n, mode) ==
        if b.Err? then Err(b.error) else CopyRun(out + [b.value], from + 1, n - 1, mode)
  {
  }

  /** The run length of a back-reference whose first byte is `b1`: the high
      nibble plus 2 when it is non-zero, else a third byte plus 0x12. Returns the
      length and where the next token starts. */
  function RunLength(input: seq<byte>, b1: byte, src: nat): (r: Result<(nat, nat)>)
    ensures r.Ok? ==> 3 <= r.value.0 <= 0x111
    ensures r.Ok? ==> r.value.1 == if b1 as nat / 16 != 0 then src else src + 1
    ensures b1 as nat / 16 != 0 ==> r.Ok?
  {
    var high := b1 as nat / 16;
    if high != 0 then Ok((high + 2, src))
    else
      var b3 :- ByteAt(input, src);
      Ok((b3 as nat + 0x12, src + 1))
  }

  /** The decoder's state between tokens: input position, the whole output so
      far, and the control byte with the number of its bits left. */
  datatype Machine = Machine(src: nat, out: seq<byte>, code: nat, codeLen: nat)

  /** Reload the control byte when no bits are left. */
  function Control(input: seq<byte>, m: Machine): (r: Result<(nat, nat, nat)>)
    ensures r.Ok? ==> r.value.1 >= 1
  {
    if m.codeLen == 0 then
      var c :- ByteAt(input, m.src);
      Ok((c as nat, 8, m.src + 1))
    else Ok((m.code, m.codeLen, m.src))
  }

  /** Whether bit 7 of the control value (`code & 0x80`) is set. */
  predicate IsLiteral(code: nat)
  {
    (code / 0x80) % 2 == 1
  }

  /** A literal token: copy the next input byte to the output. */
  function Literal(input: seq<byte>, src: nat, out: seq<byte>, code: nat, codeLen: nat): (r: Result<Machine>)
    requires codeLen >= 1
    ensures r.Ok? <==> src < |input|
    ensures r.Ok? ==> r.value == Machine(src + 1, out + [input[src]], code * 2, codeLen - 1)
  {
    var b :- ByteAt(input, src);
    Ok(Machine(src + 1, out + [b], code * 2, codeLen - 1))
  }

  /** The bytes of a back-reference at `src`: two bytes giving the distance
      minus one (their low 12 bits) and the run length, a third byte when the
      length nibble is zero. Returns the distance minus one, the length and
      where the next token starts. */
  function RefHeader(input: seq<byte>, src: nat): (r: Result<(nat, nat, nat)>)
    ensures r.Ok? ==> r.value.0 < 0x1000 && 3 <= r.value.1 <= 0x111
    ensures r.Ok? ==> src + 2 <= r.value.2 <= src + 3
    ensures r.Ok? <==> src + 1 < |input| && (input[src] as nat / 16 != 0 || src + 2 < |input|)
  {
    var b1 :- ByteAt(input, src);
    var b2 :- ByteAt(input, src + 1);
    var offs := (b1 as nat % 16) * 0x100 + b2 as nat;
    var len :- RunLength(input, b1, src + 2);
    Ok((offs % 0x1000, len.0, len.1))
  }

  /** A back-reference token: copy the run from `distance` bytes back. */
  function BackRef(input: seq<byte>, src: nat, out: seq<byte>, code: nat, codeLen: nat, mode: Mode)
    : (r: Result<Machine>)
    requires codeLen >= 1
    ensures r.Ok? ==> |out| + 3 <= |r.value.out| <= |out| + 0x111
    ensures r.Ok? ==> r.value.out[..|out|] == out
    ensures r.Ok? ==> src + 2 <= r.value.src <= src + 3
  {
    var h :- RefHeader(input, src);
    var grown :- CopyRun(out, |out| - h.0 - 1, h.1, mode);
    CopyRunShape(out, |out| - h.0 - 1, h.1, mode);
    Ok(Machine(h.2, grown, code * 2, codeLen - 1))
  }

  /** What one token of the stream leaves behind: the new control state and the
      bytes it yielded. */
  datatype Emitted = Emitted(code: nat, codeLen: nat, bytes: seq<byte>)

  /** The stream's outcome `r` of a token from input position `src` over output
      `out` is the reference outcome `spec`, the stream now at `srcNow`. */
  predicate Agrees(spec: Result<Machine>, r: Result<Emitted>, out: seq<byte>, srcNow: nat)
  {
    (r.Ok? <==> spec.Ok?) &&
    (r.Err? ==> r.error == spec.error) &&
    (r.Ok? ==> spec.value == Machine(srcNow, out + r.value.bytes, r.value.code, r.value.codeLen))
  }

  /** One token: a literal byte, or a back-reference. The control value shifts
      left and loses one bit either way. */
  function Step(input: seq<byte>, m: Machine, mode: Mode): (r: Result<Machine>)
    ensures r.Ok? ==> |m.out| < |r.value.out| <= |m.out| + 0x111
    ensures r.Ok? ==> r.value.out[..|m.out|] == m.out
    ensures r.Ok? ==> r.value.src > m.src
  {
    var ctl :- Control(input, m);
    var (code, codeLen, src) := ctl;
    if IsLiteral(code) then Literal(input, src, m.out, code, codeLen)
    else BackRef(input, src, m.out, code, codeLen, mode)
  }

  /** Decode tokens while the output is shorter than `destEnd`. The test is made
      only between tokens, so the last back-reference may overshoot. */
  function Run(input: seq<byte>, m: Machine, destEnd: nat, mode: Mode): (r: Result<seq<byte>>)
    ensures r.Ok? ==> |r.value| >= destEnd && |r.value| >= |m.out| && r.value[..|m.out|] == m.out
    ensures r.Ok? && |m.out| < destEnd ==> |r.value| <= destEnd + 0x110
    ensures r.Ok? && |m.out| >= destEnd ==> r.value == m.out
    decreases destEnd - |m.out|
  {
    if |m.out| >= destEnd then Ok(m.out)
    else
      var next :- Step(input, m, mode);
      var r :- Run(input, next, destEnd, mode);
      assert r[..|m.out|] == (r[..|next.out|])[..|m.out|];
      Ok(r)
  }

  /** The start state of a fresh stream: data from offset 16, empty output, no
      control bits. */
  function Fresh(): Machine
  {
    Machine(DataStart, [], 0, 0)
  }

  /** A whole file decompressed: the header, then tokens from offset 16 until
      the declared size is reached. */
  function Decompress(input: seq<byte>, mode: Mode): (r: Result<seq<byte>>)
    ensures r.Ok? ==> ParseHeader(input, 0).Ok?
    ensures r.Ok? ==> ParseHeader(input, 0).value.size <= |r.value|
    ensures r.Ok? ==> |r.value| <= ParseHeader(input, 0).value.size + 0x110
  {
    var h :- ParseHeader(input, 0);
    Run(input, Fresh(), h.size, mode)
  }

  /** The last '/'-separated part of a path. */
  function BaseName(path: string): string
  {
    if path == [] || path[|path| - 1] == '/' then []
    else BaseName(path[..|path| - 1]) + [path[|path| - 1]]
  }

  /** The base name is the end of the path after its last '/', and holds no '/'. */
  lemma {:induction false} BaseNameShape(path: string)
    ensures var r := BaseName(path);
      '/' !in r && |r| <= |path| && r == path[|path| - |r|..] &&
      (|r| < |path| ==> path[|path| - |r| - 1] == '/')
    decreases |path|
  {
    if path != [] && path[|path| - 1] != '/' {
      var init := path[..|path| - 1];
      var c := path[|path| - 1];
      BaseNameShape(init);
      var r := BaseName(init);
      assert BaseName(path) == r + [c];
      assert path[|path| - |r| - 1..] == init[|init| - |r|..] + [c];
      if |r| < |init| {
        assert path[|path| - |r| - 2] == init[|init| - |r| - 1];
      }
    }
  }

  /** `name + '.out'` where name is the input's base name. */
  function OutputName(fileName: string): string
  {
    BaseName(fileName) + ".out"
  }

  /** The output name is the base name followed by ".out". */
  lemma OutputNameShape(fileName: string)
    ensures var r := OutputName(fileName);
      |r| >= 4 && r[|r| - 4..] == ".out" && r[..|r| - 4] == BaseName(fileName)
  {
    var base := BaseName(fileName);
    assert (base + ".out")[..|base|] == base;
    assert (base + ".out")[|base|..] == ".out";
  }

  // ---------------------------------------------------------------------
  // An all-literal encoding and its round trip

  /** An all-literal Yaz0 body: a 0xFF control byte before every eight bytes. */
  function EncodeLiterals(p: seq<byte>): (r: seq<byte>)
    decreases |p|
  {
    if p == [] then []
    else if |p| <= 8 then [0xFF] + p
    else [0xFF] + p[..8] + EncodeLiterals(p[8..])
  }

  /** A whole Yaz0 file holding `p` as literals. */
  function LiteralFile(p: seq<byte>): (r: seq<byte>)
    requires |p| < 0x1_0000_0000
  {
    MagicYaz0 + BE32(|p|) + [0, 0, 0, 0, 0, 0, 0, 0] + EncodeLiterals(p)
  }

  /** What is left to read of an all-literal body when `left` bits of the
      current 0xFF control byte are unused: the rest of that group, then the
      following groups. */
  function LiteralTail(p: seq<byte>, left: nat): seq<byte>
  {
    if left == 0 then EncodeLiterals(p)
    else if |p| <= left then p
    else p[..left] + EncodeLiterals(p[left..])
  }

  /** The control value after `used` bits of 0xFF were shifted out. */
  function LitCode(used: nat): nat
  {
    if used == 0 then 0xFF else 2 * LitCode(used - 1)
  }

  lemma LitCodeLiteral(used: nat)
    requires used < 8
    ensures IsLiteral(LitCode(used))
  {
    assert LitCode(0) == 0xFF;
    assert LitCode(1) == 0x1FE;
    assert LitCode(2) == 0x3FC;
    assert LitCode(3) == 0x7F8;
    assert LitCode(4) == 0xFF0;
    assert LitCode(5) == 0x1FE0;
    assert LitCode(6) == 0x3FC0;
    assert LitCode(7) == 0x7F80;
  }

  lemma LiteralTailStep(p: seq<byte>, left: nat)
    requires p != [] && left <= 8
    ensures left == 0 ==>
      (|LiteralTail(p, 0)| >= 2 &&
       LiteralTail(p, 0)[0] == 0xFF && LiteralTail(p, 0)[1] == p[0] &&
       LiteralTail(p, 0)[2..] == LiteralTail(p[1..], 7))
    ensures left > 0 ==>
      (|LiteralTail(p, left)| >= 1 &&
       LiteralTail(p, left)[0] == p[0] &&
       LiteralTail(p, left)[1..] == LiteralTail(p[1..], left - 1))
  {
    if left == 0 {
      if |p| > 8 {
        assert p[1..][..7] == p[1..8];
        assert p[1..][7..] == p[8..];
        assert ([0xFF] + p[..8] + EncodeLiterals(p[8..]))[2..] == p[1..8] + EncodeLiterals(p[8..]);
      }
    } else if left == 1 {
      if |p| > 1 {
        assert (p[..1] + EncodeLiterals(p[1..]))[1..] == EncodeLiterals(p[1..]);
      }
    } else if |p| > left {
      assert p[1..][..left - 1] == p[1..left];
      assert p[1..][left - 1..] == p[left..];
      assert (p[..left] + EncodeLiterals(p[left..]))[1..] == p[1..left] + EncodeLiterals(p[left..]);
    }
  }

  /** The state after one literal of an all-literal body. */
  function NextLiteral(src: nat, out: seq<byte>, b: byte, codeLen: nat): Machine
    requires codeLen <= 8
  {
    if codeLen == 0 then Machine(src + 2, out + [b], LitCode(1), 7)
    else Machine(src + 1, out + [b], LitCode(9 - codeLen), codeLen - 1)
  }

  /** The conditions under which the rest of an all-literal body `p` lies at
      `src` with `codeLen` bits of the control byte `code` left. */
  predicate LiteralsAt(input: seq<byte>, src: nat, p: seq<byte>, code: nat, codeLen: nat)
  {
    codeLen <= 8 && (codeLen > 0 ==> code == LitCode(8 - codeLen)) &&
    src + |LiteralTail(p, codeLen)| <= |input| &&
    input[src..src + |LiteralTail(p, codeLen)|] == LiteralTail(p, codeLen)
  }

  lemma LiteralStepReload(input: seq<byte>, src: nat, out: seq<byte>, p: seq<byte>, code: nat, mode: Mode)
    requires p != [] && LiteralsAt(input, src, p, code, 0)
    ensures Step(input, Machine(src, out, code, 0), mode) == Ok(Machine(src + 2, out + [p[0]], LitCode(1), 7))
    ensures LiteralsAt(input, src + 2, p[1..], LitCode(1), 7)
  {
    var m := Machine(src, out, code, 0);
    var tail := LiteralTail(p, 0);
    LiteralTailStep(p, 0);
    assert input[src] == tail[0] == 0xFF;
    assert input[src + 1] == tail[1] == p[0];
    LitCodeLiteral(0);
    assert Control(input, m) == Ok((0xFF, 8, src + 1));
    assert Literal(input, src + 1, out, 0xFF, 8) == Ok(Machine(src + 2, out + [p[0]], LitCode(1), 7));
    assert input[src + 2..src + 2 + |LiteralTail(p[1..], 7)|] == tail[2..];
  }

  lemma LiteralStepInGroup(input: seq<byte>, src: nat, out: seq<byte>, p: seq<byte>,
                           code: nat, codeLen: nat, mode: Mode)
    requires p != [] && codeLen > 0 && LiteralsAt(input, src, p, code, codeLen)
    ensures Step(input, Machine(src, out, code, codeLen), mode) ==
      Ok(Machine(src + 1, out + [p[0]], LitCode(9 - codeLen), codeLen - 1))
    ensures LiteralsAt(input, src + 1, p[1..], LitCode(9 - codeLen), codeLen - 1)
  {
    var tail := LiteralTail(p, codeLen);
    LiteralTailStep(p, codeLen);
    assert input[src] == tail[0] == p[0];
    LitCodeLiteral(8 - codeLen);
    assert LitCode(9 - codeLen) == 2 * code;
    assert input[src + 1..src + 1 + |LiteralTail(p[1..], codeLen - 1)|] == tail[1..];
  }

  lemma LiteralStep(input: seq<byte>, src: nat, out: seq<byte>, p: seq<byte>,
                    code: nat, codeLen: nat, mode: Mode)
    requires p != [] && LiteralsAt(input, src, p, code, codeLen)
    ensures Step(input, Machine(src, out, code, codeLen), mode) == Ok(NextLiteral(src, out, p[0], codeLen))
    ensures var n := NextLiteral(src, out, p[0], codeLen);
      LiteralsAt(input, n.src, p[1..], n.code, n.codeLen)
  {
    if codeLen == 0 {
      LiteralStepReload(input, src, out, p, code, mode);
    } else {
      LiteralStepInGroup(input, src, out, p, code, codeLen, mode);
    }
  }

  /** Decoding the rest of an all-literal body appends exactly its payload. */
  lemma {:induction false} LiteralsRun(input: seq<byte>, src: nat, out: seq<byte>, p: seq<byte>,
                                      code: nat, codeLen: nat, mode: Mode)
    requires LiteralsAt(input, src, p, code, codeLen)
    ensures Run(input, Machine(src, out, code, codeLen), |out| + |p|, mode) == Ok(out + p)
    decreases |p|
  {
    if p == [] {
      assert out + [] == out;
    } else {
      var m := Machine(src, out, code, codeLen);
      LiteralStep(input, src, out, p, code, codeLen, mode);
      var next := NextLiteral(src, out, p[0], codeLen);
      LiteralsRun(input, next.src, next.out, p[1..], next.code, next.codeLen, mode);
      AppendFirst(out, p);
      RunStep(input, m, |out| + |p|, mode);
    }
  }

  lemma AppendFirst(out: seq<byte>, p: seq<byte>)
    requires p != []
    ensures (out + [p[0]]) + p[1..] == out + p
  {
    assert [p[0]] + p[1..] == p;
  }

  /** Between tokens, a decode that has not reached its size takes one step. */
  lemma RunStep(input: seq<byte>, m: Machine, destEnd: nat, mode: Mode)
    requires |m.out| < destEnd && Step(input, m, mode).Ok?
    ensures Run(input, m, destEnd, mode) == Run(input, Step(input, m, mode).value, destEnd, mode)
  {
  }

  lemma U32BESlice(s: seq<byte>, i: nat)
    requires i + 4 <= |s|
    ensures U32BE(s, i) == U32BE(s[i..i + 4], 0)
  {
  }

  /** Any payload written as literals decompresses back to itself. */
  lemma LiteralRoundTrip(p: seq<byte>, mode: Mode)
    requires |p| < 0x1_0000_0000
    ensures Decompress(LiteralFile(p), mode) == Ok(p)
  {
    var f := LiteralFile(p);
    LiteralFileHeader(p);
    LiteralFileBody(p);
    LiteralsRun(f, 16, [], p, 0, 0, mode);
    assert [] + p == p;
  }

  /** The header of an all-literal file declares the payload's size. */
  lemma LiteralFileHeader(p: seq<byte>)
    requires |p| < 0x1_0000_0000
    ensures ParseHeader(LiteralFile(p), 0) == Ok(Header(MagicYaz0, |p|))
  {
    var f := LiteralFile(p);
    assert f[0..4] == MagicYaz0;
    assert f[4..8] == BE32(|p|);
    U32BESlice(f, 4);
  }

  /** The body of an all-literal file starts at offset 16. */
  lemma LiteralFileBody(p: seq<byte>)
    requires |p| < 0x1_0000_0000
    ensures LiteralsAt(LiteralFile(p), DataStart, p, 0, 0)
  {
    var f := LiteralFile(p);
    assert f[16..16 + |EncodeLiterals(p)|] == EncodeLiterals(p);
  }

  // ---------------------------------------------------------------------
  // Bytes 8..15 of the header are never read

  /** `a` and `b` have the same length and agree from position `k` on. */
  predicate SameFrom(a: seq<byte>, b: seq<byte>, k: nat)
  {
    |a| == |b| && forall i :: k <= i < |a| ==> a[i] == b[i]
  }

  /** A back-reference header reads the input only at and after `src`. */
  lemma RefHeaderReadsFrom(a: seq<byte>, b: seq<byte>, src: nat)
    requires SameFrom(a, b, src)
    ensures RefHeader(a, src) == RefHeader(b, src)
  {
    assert ByteAt(a, src) == ByteAt(b, src);
    assert ByteAt(a, src + 1) == ByteAt(b, src + 1);
    assert ByteAt(a, src + 2) == ByteAt(b, src + 2);
    if src < |a| {
      assert RunLength(a, a[src], src + 2) == RunLength(b, a[src], src + 2);
    }
  }

  /** One token reads the input only at and after its position. */
  lemma StepReadsFrom(a: seq<byte>, b: seq<byte>, m: Machine, mode: Mode)
    requires SameFrom(a, b, m.src)
    ensures Step(a, m, mode) == Step(b, m, mode)
  {
    assert ByteAt(a, m.src) == ByteAt(b, m.src);
    assert Control(a, m) == Control(b, m);
    if Control(a, m).Ok? {
      var (code, codeLen, src) := Control(a, m).value;
      assert SameFrom(a, b, src);
      if IsLiteral(code) {
        assert ByteAt(a, src) == ByteAt(b, src);
        assert Literal(a, src, m.out, code, codeLen) == Literal(b, src, m.out, code, codeLen);
      } else {
        RefHeaderReadsFrom(a, b, src);
        assert BackRef(a, src, m.out, code, codeLen, mode) == BackRef(b, src, m.out, code, codeLen, mode);
      }
    }
  }

  /** Decoding reads the input only at and after the token position. */
  lemma {:induction false} RunReadsFrom(a: seq<byte>, b: seq<byte>, m: Machine, destEnd: nat, mode: Mode)
    requires SameFrom(a, b, m.src)
    ensures Run(a, m, destEnd, mode) == Run(b, m, destEnd, mode)
    decreases destEnd - |m.out|
  {
    if |m.out| < destEnd {
      StepReadsFrom(a, b, m, mode);
      if Step(a, m, mode).Ok? {
        RunReadsFrom(a, b, Step(a, m, mode).value, destEnd, mode);
      }
    }
  }

  /** Whatever bytes 8..15 hold, the file decompresses to the same result. */
  lemma ReservedIgnored(input: seq<byte>, junk: seq<byte>, mode: Mode)
    requires |input| >= 16 && |junk| == 8
    ensures Decompress(input[..8] + junk + input[16..], mode) == Decompress(input, mode)
  {
    var other := input[..8] + junk + input[16..];
    assert other[..8] == input[..8];
    forall i | 0 <= i < 8 ensures other[i] == input[i] {
      assert other[i] == other[..8][i];
    }
    assert other[0..4] == input[0..4];
    assert U32BE(other, 4) == U32BE(input, 4);
    assert ParseHeader(other, 0) == ParseHeader(input, 0);
    forall i | 16 <= i < |other| ensures other[i] == input[i] {
      assert other[i] == input[16..][i - 16];
    }
    assert SameFrom(other, input, 16);
    if ParseHeader(input, 0).Ok? {
      RunReadsFrom(other, input, Fresh(), ParseHeader(input, 0).value.size, mode);
    }
  }

  // ---------------------------------------------------------------------
  // Overlapping back-references, and one that reaches before the output

  /** Four bytes 'A'. */
  const FourA: seq<byte> := [0x41, 0x41, 0x41, 0x41]

  /** Copying three bytes onto a single 'A', from position `from`. */
  lemma CopyThreeA(from: int, mode: Mode)
    requires from == 0 || (from == -1 && mode == AsWritten)
    ensures CopyRun([0x41], from, 3, mode) == Ok(FourA)
  {
    var a1: seq<byte> := [0x41];
    var a2: seq<byte> := [0x41, 0x41];
    var a3: seq<byte> := [0x41, 0x41, 0x41];
    assert a1 + [0x41] == a2 && a2 + [0x41] == a3 && a3 + [0x41] == FourA;
    assert Fetch(a1, from, mode) == Ok(0x41);
    assert Fetch(a2, from + 1, mode) == Ok(0x41);
    assert Fetch(a3, from + 2, mode) == Ok(0x41);
    assert CopyRun(FourA, from + 3, 0, mode) == Ok(FourA);
    assert CopyRun(a3, from + 2, 1, mode) == Ok(FourA);
    assert CopyRun(a2, from + 1, 2, mode) == Ok(FourA);
  }

  /** The first token of such a file: the literal 'A' under control byte 0x80. */
  lemma LiteralA(f: seq<byte>, mode: Mode)
    requires |f| >= 18 && f[16] == 0x80 && f[17] == 0x41
    ensures Step(f, Fresh(), mode) == Ok(Machine(18, [0x41], 0x100, 7))
  {
    assert Control(f, Fresh()) == Ok((0x80, 8, 17));
    assert IsLiteral(0x80);
    assert [] + [f[17]] == [0x41];
  }

  /** The second token: a back-reference of length 3 reading from `from`. */
  lemma RefAfterA(f: seq<byte>, from: int, mode: Mode)
    requires |f| == 20 && f[18] == 0x10 && from == -(f[19] as int)
    requires from == 0 || (from == -1 && mode == AsWritten)
    ensures Step(f, Machine(18, [0x41], 0x100, 7), mode) == Ok(Machine(20, FourA, 0x200, 6))
  {
    var m1 := Machine(18, [0x41], 0x100, 7);
    assert Control(f, m1) == Ok((0x100, 7, 18));
    assert !IsLiteral(0x100);
    assert RefHeader(f, 18) == Ok((f[19] as nat, 3, 20));
    CopyThreeA(from, mode);
  }

  /** Decoding a 4-byte file whose body is the literal 'A' then the
      back-reference `b1`, `b2`, when that back-reference copies from `from`. */
  lemma DecodeLiteralThenRef(f: seq<byte>, from: int, mode: Mode)
    requires |f| == 20 && f[..16] == [0x59, 0x61, 0x7A, 0x30, 0, 0, 0, 4, 0, 0, 0, 0, 0, 0, 0, 0]
    requires f[16] == 0x80 && f[17] == 0x41 && f[18] == 0x10 && from == -(f[19] as int)
    requires from == 0 || (from == -1 && mode == AsWritten)
    ensures Decompress(f, mode) == Ok(FourA)
  {
    SmallHeader(f);
    var m1 := Machine(18, [0x41], 0x100, 7);
    LiteralA(f, mode);
    RefAfterA(f, from, mode);
    RunStep(f, Fresh(), 4, mode);
    RunStep(f, m1, 4, mode);
  }

  /** The header of a Yaz0 file of declared size 4. */
  lemma SmallHeader(f: seq<byte>)
    requires |f| >= 16 && f[..16] == [0x59, 0x61, 0x7A, 0x30, 0, 0, 0, 4, 0, 0, 0, 0, 0, 0, 0, 0]
    ensures ParseHeader(f, 0) == Ok(Header(MagicYaz0, 4))
  {
    assert f[0..4] == f[..16][0..4] == MagicYaz0;
    assert f[4] == 0 && f[5] == 0 && f[6] == 0 && f[7] == 4 by {
      assert f[4] == f[..16][4] && f[5] == f[..16][5] && f[6] == f[..16][6] && f[7] == f[..16][7];
    }
  }

  /** A file of size 4: the literal 'A', then a back-reference of length 3 at
      distance 1. */
  const OverlapFile: seq<byte> :=
    [0x59, 0x61, 0x7A, 0x30, 0, 0, 0, 4, 0, 0, 0, 0, 0, 0, 0, 0, 0x80, 0x41, 0x10, 0x00]

  /** A run longer than its distance repeats the bytes it has just copied. */
  lemma OverlapRepeats(mode: Mode)
    ensures Decompress(OverlapFile, mode) == Ok(FourA)
  {
    DecodeLiteralThenRef(OverlapFile, 0, mode);
  }

  /** The same file with distance 2, one byte more than has been written. */
  const WrapFile: seq<byte> :=
    [0x59, 0x61, 0x7A, 0x30, 0, 0, 0, 4, 0, 0, 0, 0, 0, 0, 0, 0, 0x80, 0x41, 0x10, 0x01]

  /** As written, the back-reference to position -1 reads the last byte of the
      output list instead of failing, and the file decodes. */
  lemma WrapAsWritten()
    ensures Decompress(WrapFile, AsWritten) == Ok(FourA)
  {
    DecodeLiteralThenRef(WrapFile, -1, AsWritten);
  }

  /** Checked, the same file is rejected. */
  lemma WrapChecked()
    ensures Decompress(WrapFile, Checked) == Err(IndexError)
  {
    RefBeforeStart(WrapFile);
  }

  /** Checked, a back-reference from the literal 'A' to distance 2 fails. */
  lemma RefBeforeStart(f: seq<byte>)
    requires |f| == 20 && f[..16] == [0x59, 0x61, 0x7A, 0x30, 0, 0, 0, 4, 0, 0, 0, 0, 0, 0, 0, 0]
    requires f[16] == 0x80 && f[17] == 0x41 && f[18] == 0x10 && f[19] == 0x01
    ensures Decompress(f, Checked) == Err(IndexError)
  {
    var a1: seq<byte> := [0x41];
    var m1 := Machine(18, a1, 0x100, 7);
    SmallHeader(f);
    LiteralA(f, Checked);
    assert Control(f, m1) == Ok((0x100, 7, 18));
    assert RefHeader(f, 18) == Ok((1, 3, 20));
    assert Fetch(a1, -1, Checked) == Err(IndexError);
    assert CopyRun(a1, -1, 3, Checked) == Err(IndexError);
    assert Step(f, m1, Checked) == Err(IndexError);
    RunStep(f, Fresh(), 4, Checked);
  }

  /** In checked mode every copied byte comes from the output itself. */
  lemma {:induction false} CopyRunChecked(out: seq<byte>, from: int, n: nat)
    requires CopyRun(out, from, n, Checked).Ok?
    ensures n > 0 ==> 0 <= from < |out|
    ensures CopyRun(out, from, n, AsWritten) == CopyRun(out, from, n, Checked)
    decreases n
  {
    if n > 0 {
      var b := Fetch(out, from, Checked).value;
      CopyRunChecked(out + [b], from + 1, n - 1);
    }
  }

  /** A back-reference that decodes checked reaches no further back than the
      start of the output. */
  lemma BackRefInRange(input: seq<byte>, src: nat, out: seq<byte>, code: nat, codeLen: nat)
    requires codeLen >= 1
    requires BackRef(input, src, out, code, codeLen, Checked).Ok?
    ensures RefHeader(input, src).Ok? && RefHeader(input, src).value.0 < |out|
    ensures BackRef(input, src, out, code, codeLen, AsWritten) == BackRef(input, src, out, code, codeLen, Checked)
  {
    var h := RefHeader(input, src).value;
    CopyRunChecked(out, |out| - h.0 - 1, h.1);
  }

  /** Where the checked decoder succeeds, the decoder as written produces the
      same bytes: the two differ only on files the checked one rejects. */
  lemma {:induction false} CheckedAgrees(input: seq<byte>, m: Machine, destEnd: nat)
    requires Run(input, m, destEnd, Checked).Ok?
    ensures Run(input, m, destEnd, AsWritten) == Run(input, m, destEnd, Checked)
    decreases destEnd - |m.out|
  {
    if |m.out| < destEnd {
      var ctl := Control(input, m).value;
      if !IsLiteral(ctl.0) {
        BackRefInRange(input, ctl.2, m.out, ctl.0, ctl.1);
      }
      assert Step(input, m, AsWritten) == Step(input, m, Checked);
      CheckedAgrees(input, Step(input, m, Checked).value, destEnd);
    }
  }

  /** `Yaz0Stream`: the input, the declared size, the read and write positions,
      and the window `output` holding the last output bytes, the first of which
      is output byte number `outputStart`. `produced` is the whole output so far,
      which the source does not keep. */
  class Yaz0Stream {
    const input: seq<byte>
    const name: string
    const magic: seq<byte>
    const destEnd: nat
    var srcPos: nat
    var destPos: nat
    var output: seq<byte>
    var outputStart: nat
    ghost var produced: seq<byte>

    /** The window is the tail of the output: all of it until it would exceed
        0x1111 bytes, then the last 0x1111. */
    ghost predicate Valid()
      reads this
    {
      destPos == |produced| &&
      outputStart == (if destPos > Window then destPos - Window else 0) &&
      output == produced[outputStart..]
    }

    constructor FromHeader(input: seq<byte>, fileName: string, h: Header)
      ensures this.input == input && name == OutputName(fileName)
      ensures magic == h.magic && destEnd == h.size
      ensures srcPos == DataStart && destPos == 0 && output == [] && outputStart == 0
      ensures produced == []
      ensures Valid()
    {
      this.input := input;
      name := OutputName(fileName);
      magic := h.magic;
      destEnd := h.size;
      srcPos := DataStart;
      destPos := 0;
      output := [];
      outputStart := 0;
      produced := [];
    }

    /** `Yaz0Stream(file)`: read the header at the file's position `pos`; the
        compressed data is then read from offset 16 regardless. */
    static method Open(input: seq<byte>, fileName: string, pos: nat) returns (r: Result<Yaz0Stream>)
      ensures r.Err? <==> ParseHeader(input, pos).Err?
      ensures r.Err? ==> r.error == ParseHeader(input, pos).error
      ensures r.Ok? ==> fresh(r.value) && r.value.Valid()
      ensures r.Ok? ==> r.value.input == input && r.value.destEnd == ParseHeader(input, pos).value.size
      ensures r.Ok? ==> r.value.srcPos == DataStart && r.value.produced == []
    {
      var h := ParseHeader(input, pos);
      if h.Err? {
        return Err(h.error);
      }
      var s := new Yaz0Stream.FromHeader(input, fileName, h.value);
      return Ok(s);
    }

    /** `_nextByte`: the byte at `src_pos`, which then advances. */
    method NextByte() returns (r: Result<byte>)
      modifies this
      ensures r == ByteAt(input, old(srcPos))
      ensures srcPos == if r.Ok? then old(srcPos) + 1 else old(srcPos)
      ensures destPos == old(destPos) && output == old(output)
      ensures outputStart == old(outputStart) && produced == old(produced)
    {
      if srcPos < |input| {
        r := Ok(input[srcPos]);
        srcPos := srcPos + 1;
      } else {
        r := Err(IndexError);
      }
    }

    /** `_outputByte`: append to the window, drop what exceeds 0x1111 bytes from
        its front, and advance `dest_pos`. */
    method OutputByte(b: byte)
      requires Valid()
      modifies this
      ensures Valid()
      ensures produced == old(produced) + [b] && destPos == old(destPos) + 1
      ensures |output| <= Window && outputStart + |output| == destPos
      ensures srcPos == old(srcPos)
    {
      output := output + [b];
      produced := produced + [b];
      var excess := |output| - Window;
      if excess > 0 {
        output := output[|output| - Window..];
        outputStart := outputStart + excess;
      }
      destPos := destPos + 1;
    }

    /** `self._output[copy_src - self._outputStart]` for a source at most 0x1000
        bytes behind the write position. */
    method WindowByte(from: int) returns (r: Result<byte>)
      requires Valid()
      requires from < destPos && destPos <= from + 0x1000
      ensures r == Fetch(produced, from, AsWritten)
    {
      var p := from - outputStart;
      if p >= 0 {
        r := Ok(output[p]);
      } else if |output| + p >= 0 {
        r := Ok(output[|output| + p]);
      } else {
        r := Err(IndexError);
      }
    }

    /** One pass of the copy loop: the window byte at `from`, written out. */
    method CopyOne(from: int, left: nat) returns (r: Result<byte>)
      requires Valid() && left > 0
      requires from < destPos && destPos <= from + 0x1000
      modifies this
      ensures Valid() && srcPos == old(srcPos)
      ensures r.Err? ==> CopyRun(old(produced), from, left, AsWritten) == Err(r.error)
      ensures r.Ok? ==> produced == old(produced) + [r.value]
      ensures r.Ok? ==> CopyRun(old(produced), from, left, AsWritten) == CopyRun(produced, from + 1, left - 1, AsWritten)
    {
      r := WindowByte(from);
      CopyRunStep(produced, from, left, AsWritten);
      if r.Ok? {
        OutputByte(r.value);
      }
    }

    /** The copy loop of a back-reference: `n` bytes from `from` on. */
    method CopyBack(from: int, n: nat) returns (r: Result<seq<byte>>)
      requires Valid()
      requires from < destPos && destPos <= from + 0x1000
      modifies this
      ensures Valid() && srcPos == old(srcPos)
      ensures CopyRun(old(produced), from, n, AsWritten).Ok? <==> r.Ok?
      ensures r.Ok? ==> produced == CopyRun(old(produced), from, n, AsWritten).value
      ensures r.Ok? ==> produced == old(produced) + r.value
      ensures r.Err? ==> r.error == CopyRun(old(produced), from, n, AsWritten).error
    {
      ghost var out0 := produced;
      var copied: seq<byte> := [];
      var i := 0;
      while i < n
        invariant 0 <= i <= n
        invariant Valid() && srcPos == old(srcPos)
        invariant produced == out0 + copied && |copied| == i && |out0| == old(destPos)
        invariant CopyRun(out0, from, n, AsWritten) == CopyRun(produced, from + i, n - i, AsWritten)
      {
        var b := CopyOne(from + i, n - i);
        if b.Err? {
          return Err(b.error);
        }
        copied := copied + [b.value];
        i := i + 1;
      }
      return Ok(copied);
    }

    /** The literal branch of the `bytes` generator. */
    method LiteralToken(code: nat, codeLen: nat) returns (r: Result<Emitted>)
      requires Valid() && codeLen >= 1
      modifies this
      ensures Valid()
      ensures Agrees(Literal(input, old(srcPos), old(produced), code, codeLen), r, old(produced), srcPos)
      ensures r.Ok? ==> produced == old(produced) + r.value.bytes
    {
      var b := NextByte();
      if b.Err? {
        return Err(b.error);
      }
      OutputByte(b.value);
      return Ok(Emitted(code * 2, codeLen - 1, [b.value]));
    }

    /** The bytes of a back-reference: distance minus one and run length. */
    method ReadRef() returns (r: Result<(nat, nat)>)
      modifies this
      ensures var spec := RefHeader(input, old(srcPos));
        (r.Ok? <==> spec.Ok?) &&
        (r.Err? ==> r.error == spec.error) &&
        (r.Ok? ==> spec.value == (r.value.0, r.value.1, srcPos))
      ensures destPos == old(destPos) && output == old(output)
      ensures outputStart == old(outputStart) && produced == old(produced)
    {
      var b1 := NextByte();
      if b1.Err? {
        return Err(b1.error);
      }
      var b2 := NextByte();
      if b2.Err? {
        return Err(b2.error);
      }
      var offs := (b1.value as nat % 16) * 0x100 + b2.value as nat;
      var n := b1.value as nat / 16;
      if n != 0 {
        n := n + 2;
      } else {
        var b3 := NextByte();
        if b3.Err? {
          return Err(b3.error);
        }
        n := b3.value as nat + 0x12;
      }
      return Ok((offs % 0x1000, n));
    }

    /** The back-reference branch of the `bytes` generator. */
    method BackRefToken(code: nat, codeLen: nat) returns (r: Result<Emitted>)
      requires Valid() && codeLen >= 1
      modifies this
      ensures Valid()
      ensures Agrees(BackRef(input, old(srcPos), old(produced), code, codeLen, AsWritten), r, old(produced), srcPos)
      ensures r.Ok? ==> produced == old(produced) + r.value.bytes
    {
      var h := ReadRef();
      if h.Err? {
        return Err(h.error);
      }
      var copied := CopyBack(destPos - h.value.0 - 1, h.value.1);
      if copied.Err? {
        return Err(copied.error);
      }
      return Ok(Emitted(code * 2, codeLen - 1, copied.value));
    }

    /** One token of the `bytes` generator with control state `code`, `codeLen`,
        reloading the control byte when no bits are left. */
    method Token(code: nat, codeLen: nat) returns (r: Result<Emitted>)
      requires Valid()
      modifies this
      ensures Valid()
      ensures Agrees(Step(input, Machine(old(srcPos), old(produced), code, codeLen), AsWritten), r, old(produced), srcPos)
      ensures r.Ok? ==> produced == old(produced) + r.value.bytes
    {
      var c, cl := code, codeLen;
      if cl == 0 {
        var ctl := NextByte();
        if ctl.Err? {
          return Err(ctl.error);
        }
        c, cl := ctl.value as nat, 8;
      }
      if IsLiteral(c) {
        r := LiteralToken(c, cl);
      } else {
        r := BackRefToken(c, cl);
      }
    }

    /** `read()` with no size (and `toData`): run a fresh `bytes()` generator to
        the end and join what it yields. */
    method Read() returns (r: Result<seq<byte>>)
      requires Valid()
      modifies this
      ensures Valid()
      ensures var spec := Run(input, Machine(old(srcPos), old(produced), 0, 0), destEnd, AsWritten);
        (r.Ok? <==> spec.Ok?) &&
        (r.Err? ==> r.error == spec.error) &&
        (r.Ok? ==> old(produced) + r.value == spec.value)
    {
      var res: seq<byte> := [];
      var code, codeLen := 0, 0;
      while destPos < destEnd
        invariant Valid()
        invariant produced == old(produced) + res
        invariant Run(input, Machine(old(srcPos), old(produced), 0, 0), destEnd, AsWritten)
          == Run(input, Machine(srcPos, produced, code, codeLen), destEnd, AsWritten)
        decreases destEnd - destPos
      {
        var t := Token(code, codeLen);
        if t.Err? {
          return Err(t.error);
        }
        code, codeLen := t.value.code, t.value.codeLen;
        res := res + t.value.bytes;
      }
      return Ok(res);
    }
  }

  /** `Yaz0Decoder`: the stream opened on the input is its only object. */
  class Yaz0Decoder {
    const stream: Yaz0Stream

    constructor(s: Yaz0Stream)
      ensures stream == s
    {
      stream := s;
    }

    method IterObjects() returns (objs: seq<Yaz0Stream>)
      ensures objs == [stream]
    {
      objs := [stream];
    }
  }
}
