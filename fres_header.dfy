/** The FRES file header: `isPowerOf2`, the two record layouts (Wii U and
    Switch), the choice between them by the first eight bytes, and the
    header's validity checks. The records are read in little-endian order
    with no padding between fields. */
module FresHeaders {
  import opened Wrappers
  import opened Bytes
  import opened ByteSource

  // ---------------------------------------------------------------- powers of two

  /** `isPowerOf2(n)`: `n` is non-zero and `n & (n - 1)` is zero. */
  function IsPowerOf2(n: nat): bool
  {
    n != 0 && BitAnd(n, n - 1) == 0
  }

  /** A power of two shares no bit with its predecessor. */
  lemma {:induction false} Pow2Clear(k: nat)
    ensures BitAnd(Pow2(k), Pow2(k) - 1) == 0
  {
    if k > 0 {
      var p := Pow2(k - 1);
      Pow2Clear(k - 1);
      OddHalf(p);
      assert Pow2(k) / 2 == p && Pow2(k) % 2 == 0;
    }
  }

  /** A non-zero number sharing no bit with its predecessor is a power of two. */
  lemma {:induction false} ClearIsPow2(n: nat)
    ensures n != 0 && BitAnd(n, n - 1) == 0 ==> exists k: nat :: n == Pow2(k)
    decreases n
  {
    if n == 1 {
      assert n == Pow2(0);
    } else if n > 1 && n % 2 == 1 {
      BitAndSelf(n / 2);
      assert (n - 1) / 2 == n / 2 && (n - 1) % 2 == 0;
      assert BitAnd(n, n - 1) == 2 * (n / 2) > 0;
    } else if n > 1 {
      var h := n / 2;
      assert (n - 1) / 2 == h - 1 && n % 2 == 0;
      assert BitAnd(n, n - 1) == 2 * BitAnd(h, h - 1);
      ClearIsPow2(h);
      if BitAnd(h, h - 1) == 0 {
        var k: nat :| h == Pow2(k);
        assert n == Pow2(k + 1);
      }
    }
  }

  /** `isPowerOf2` accepts exactly the powers of two 1, 2, 4, … */
  lemma PowerOf2Iff(n: nat)
    ensures IsPowerOf2(n) <==> exists k: nat :: n == Pow2(k)
  {
    if IsPowerOf2(n) {
      ClearIsPow2(n);
    }
    if exists k: nat :: n == Pow2(k) {
      var k: nat :| n == Pow2(k);
      Pow2Clear(k);
    }
  }

  // ---------------------------------------------------------------- records

  /** The two layouts. */
  datatype Platform = WiiU | Switch

  /** The Switch magic, "FRES" and four spaces. */
  const SWITCH_MAGIC: seq<byte> := [0x46, 0x52, 0x45, 0x53, 0x20, 0x20, 0x20, 0x20]
  /** The magic prefix both layouts share. */
  const FRES: seq<byte> := [0x46, 0x52, 0x45, 0x53]

  const WIIU_SIZE: nat := 0x6C
  const SWITCH_SIZE: nat := 0xD0
  /** The Switch record's 32-bit fields from offset 0x10 on. */
  const SWITCH_WORDS: nat := 48

  /** The fields of either record. The Wii U record has named fields and
      twelve group offsets and counts; the Switch record's fields after the
      header length are all 32-bit words and are kept in order, from offset
      0x10. */
  datatype Fields =
    | WiiUFields(magic: seq<byte>, version: nat, byteOrder: nat, headerLen: nat, fileSize: nat,
                 alignment: nat, nameOffset: nat, strTabLen: nat, strTabOffset: nat,
                 groupOffset: seq<nat>, groupNFiles: seq<nat>, userPtr: nat)
    | SwitchFields(magic: seq<byte>, version: nat, byteOrder: nat, headerLen: nat, words: seq<nat>)

  /** The record size of each layout. */
  function RecordSize(p: Platform): nat
  {
    if p == Switch then SWITCH_SIZE else WIIU_SIZE
  }

  /** `n` consecutive 32-bit little-endian words from `off`. */
  function U32s(b: seq<byte>, off: nat, n: nat): (r: seq<nat>)
    requires off + 4 * n <= |b|
    ensures |r| == n
    decreases n
  {
    if n == 0 then [] else [U32LE(b, off)] + U32s(b, off + 4, n - 1)
  }

  /** `n` consecutive 16-bit little-endian halves from `off`. */
  function U16s(b: seq<byte>, off: nat, n: nat): (r: seq<nat>)
    requires off + 2 * n <= |b|
    ensures |r| == n
    decreases n
  {
    if n == 0 then [] else [U16LE(b, off)] + U16s(b, off + 2, n - 1)
  }

  /** Word `i` of a row is the word `4 * i` bytes in. */
  lemma {:induction false} U32sAt(b: seq<byte>, off: nat, n: nat, i: nat)
    requires off + 4 * n <= |b| && i < n
    ensures U32s(b, off, n)[i] == U32LE(b, off + 4 * i)
    decreases i
  {
    var rest := U32s(b, off + 4, n - 1);
    assert U32s(b, off, n) == [U32LE(b, off)] + rest;
    if i > 0 {
      U32sAt(b, off + 4, n - 1, i - 1);
      assert off + 4 + 4 * (i - 1) == off + 4 * i;
    }
  }

  predicate Words(ws: seq<nat>)
  {
    forall i :: 0 <= i < |ws| ==> ws[i] < 0x1_0000_0000
  }

  predicate Halves(hs: seq<nat>)
  {
    forall i :: 0 <= i < |hs| ==> hs[i] < 0x1_0000
  }

  function EncodeU32s(ws: seq<nat>): (b: seq<byte>)
    requires Words(ws)
    ensures |b| == 4 * |ws|
  {
    if ws == [] then [] else LE32(ws[0]) + EncodeU32s(ws[1..])
  }

  function EncodeU16s(hs: seq<nat>): (b: seq<byte>)
    requires Halves(hs)
    ensures |b| == 2 * |hs|
  {
    if hs == [] then [] else LE16(hs[0]) + EncodeU16s(hs[1..])
  }

  /** Words written in a row are read back in order. */
  lemma {:induction false} U32sRoundTrip(b: seq<byte>, off: nat, ws: seq<nat>)
    requires Words(ws) && off + 4 * |ws| <= |b| && b[off..off + 4 * |ws|] == EncodeU32s(ws)
    ensures U32s(b, off, |ws|) == ws
    decreases |ws|
  {
    if ws != [] {
      var e := EncodeU32s(ws);
      assert b[off..off + 4] == e[0..4] == LE32(ws[0]);
      U32At(b, off, ws[0]);
      assert b[off + 4..off + 4 * |ws|] == e[4..] == EncodeU32s(ws[1..]);
      U32sRoundTrip(b, off + 4, ws[1..]);
      assert U32s(b, off, |ws|) == [ws[0]] + ws[1..];
    }
  }

  /** Halves written in a row are read back in order. */
  lemma {:induction false} U16sRoundTrip(b: seq<byte>, off: nat, hs: seq<nat>)
    requires Halves(hs) && off + 2 * |hs| <= |b| && b[off..off + 2 * |hs|] == EncodeU16s(hs)
    ensures U16s(b, off, |hs|) == hs
    decreases |hs|
  {
    if hs != [] {
      var e := EncodeU16s(hs);
      assert b[off..off + 2] == e[0..2] == LE16(hs[0]);
      U16At(b, off, hs[0]);
      assert b[off + 2..off + 2 * |hs|] == e[2..] == EncodeU16s(hs[1..]);
      U16sRoundTrip(b, off + 2, hs[1..]);
      assert U16s(b, off, |hs|) == [hs[0]] + hs[1..];
    }
  }

  /** The Wii U record: 4s magic, I version, H byte_order, H header_len,
      I file_size, I alignment, I name_offset, I str_tab_len, I str_tab_offset,
      12I group_offset, 12H group_nfiles, I user_ptr. */
  function DecodeWiiU(b: seq<byte>): Fields
    requires |b| == WIIU_SIZE
  {
    WiiUFields(b[0..4], U32LE(b, 4), U16LE(b, 8), U16LE(b, 10), U32LE(b, 12), U32LE(b, 16),
               U32LE(b, 20), U32LE(b, 24), U32LE(b, 28), U32s(b, 32, 12), U16s(b, 80, 12), U32LE(b, 104))
  }

  /** The Switch record: 8s magic, I version, H byte_order, H header_len, then
      forty-eight I fields (name_offset, unk14, rlt_offset, file_size, …). */
  function DecodeSwitch(b: seq<byte>): Fields
    requires |b| == SWITCH_SIZE
  {
    SwitchFields(b[0..8], U32LE(b, 8), U16LE(b, 12), U16LE(b, 14), U32s(b, 16, SWITCH_WORDS))
  }

  /** The Switch field stored at byte offset `o`. */
  function SwitchField(f: Fields, o: nat): nat
    requires f.SwitchFields? && |f.words| == SWITCH_WORDS && 0x10 <= o < SWITCH_SIZE && o % 4 == 0
  {
    f.words[(o - 0x10) / 4]
  }

  /** Each named Switch field is the 32-bit word at its offset: rlt_offset at
      0x18, file_size at 0x1C, fmdl_offset at 0x28, num_objects at 0xBC. */
  lemma SwitchFieldAt(b: seq<byte>, o: nat)
    requires |b| == SWITCH_SIZE && 0x10 <= o < SWITCH_SIZE && o % 4 == 0
    ensures SwitchField(DecodeSwitch(b), o) == U32LE(b, o)
  {
    var i := (o - 0x10) / 4;
    U32sAt(b, 16, SWITCH_WORDS, i);
    assert 16 + 4 * i == o;
  }

  /** Where the relocation table is read: at rlt_offset after a Switch
      header, nowhere after a Wii U one. */
  function RltOffset(f: Fields): (r: Option<nat>)
    ensures r.Some? <==> f.SwitchFields? && |f.words| == SWITCH_WORDS
  {
    if f.SwitchFields? && |f.words| == SWITCH_WORDS then Some(SwitchField(f, 0x18)) else None
  }

  /** After a Switch record the relocation table is read at the word stored
      at 0x18. */
  lemma RltOffsetAt(b: seq<byte>)
    requires |b| == SWITCH_SIZE
    ensures RltOffset(DecodeSwitch(b)) == Some(U32LE(b, 0x18))
  {
    SwitchFieldAt(b, 0x18);
  }

  predicate WiiUFits(f: Fields)
  {
    f.WiiUFields? && |f.magic| == 4 && f.version < 0x1_0000_0000 && f.byteOrder < 0x1_0000 &&
    f.headerLen < 0x1_0000 && f.fileSize < 0x1_0000_0000 && f.alignment < 0x1_0000_0000 &&
    f.nameOffset < 0x1_0000_0000 && f.strTabLen < 0x1_0000_0000 && f.strTabOffset < 0x1_0000_0000 &&
    |f.groupOffset| == 12 && Words(f.groupOffset) && |f.groupNFiles| == 12 && Halves(f.groupNFiles) &&
    f.userPtr < 0x1_0000_0000
  }

  predicate SwitchFits(f: Fields)
  {
    f.SwitchFields? && |f.magic| == 8 && f.version < 0x1_0000_0000 && f.byteOrder < 0x1_0000 &&
    f.headerLen < 0x1_0000 && |f.words| == SWITCH_WORDS && Words(f.words)
  }

  function EncodeWiiU(f: Fields): (b: seq<byte>)
    requires WiiUFits(f)
    ensures |b| == WIIU_SIZE
  {
    WiiULeadBytes(f) + EncodeU32s(f.groupOffset) + EncodeU16s(f.groupNFiles) + LE32(f.userPtr)
  }

  /** The nine fields before the group offsets. */
  function WiiULeadBytes(f: Fields): (b: seq<byte>)
    requires WiiUFits(f)
    ensures |b| == 32
  {
    f.magic + LE32(f.version) + LE16(f.byteOrder) + LE16(f.headerLen) + LE32(f.fileSize)
    + LE32(f.alignment) + LE32(f.nameOffset) + LE32(f.strTabLen) + LE32(f.strTabOffset)
  }

  function EncodeSwitch(f: Fields): (b: seq<byte>)
    requires SwitchFits(f)
    ensures |b| == SWITCH_SIZE
  {
    f.magic + LE32(f.version) + LE16(f.byteOrder) + LE16(f.headerLen) + EncodeU32s(f.words)
  }

  /** The first four fields of a Wii U record. */
  lemma WiiUFirst(f: Fields, b: seq<byte>)
    requires WiiUFits(f) && |b| == WIIU_SIZE && b[0..32] == WiiULeadBytes(f)
    ensures b[0..4] == f.magic && U32LE(b, 4) == f.version && U16LE(b, 8) == f.byteOrder
    ensures U16LE(b, 10) == f.headerLen
  {
    var lead := b[0..32];
    assert b[0..4] == lead[0..4];
    assert b[4..8] == lead[4..8] == LE32(f.version);
    assert b[8..10] == lead[8..10] == LE16(f.byteOrder);
    assert b[10..12] == lead[10..12] == LE16(f.headerLen);
    U32At(b, 4, f.version);
    U16At(b, 8, f.byteOrder);
    U16At(b, 10, f.headerLen);
  }

  /** The next five fields of a Wii U record. */
  lemma WiiUNext(f: Fields, b: seq<byte>)
    requires WiiUFits(f) && |b| == WIIU_SIZE && b[0..32] == WiiULeadBytes(f)
    ensures U32LE(b, 12) == f.fileSize && U32LE(b, 16) == f.alignment
    ensures U32LE(b, 20) == f.nameOffset && U32LE(b, 24) == f.strTabLen && U32LE(b, 28) == f.strTabOffset
  {
    var lead := b[0..32];
    var pre := f.magic + LE32(f.version) + LE16(f.byteOrder) + LE16(f.headerLen);
    assert |pre| == 12;
    assert lead[12..32] == LE32(f.fileSize) + LE32(f.alignment) + LE32(f.nameOffset) + LE32(f.strTabLen) + LE32(f.strTabOffset);
    assert b[12..16] == lead[12..16] == LE32(f.fileSize);
    assert b[16..20] == lead[16..20] == LE32(f.alignment);
    assert b[20..24] == lead[20..24] == LE32(f.nameOffset);
    assert b[24..28] == lead[24..28] == LE32(f.strTabLen);
    assert b[28..32] == lead[28..32] == LE32(f.strTabOffset);
    U32At(b, 12, f.fileSize);
    U32At(b, 16, f.alignment);
    U32At(b, 20, f.nameOffset);
    U32At(b, 24, f.strTabLen);
    U32At(b, 28, f.strTabOffset);
  }

  /** A Wii U record is read back field for field. */
  lemma WiiURoundTrip(f: Fields)
    requires WiiUFits(f)
    ensures DecodeWiiU(EncodeWiiU(f)) == f
  {
    var b := EncodeWiiU(f);
    assert b[0..32] == WiiULeadBytes(f);
    WiiUFirst(f, b);
    WiiUNext(f, b);
    assert b[32..80] == EncodeU32s(f.groupOffset);
    U32sRoundTrip(b, 32, f.groupOffset);
    assert b[80..104] == EncodeU16s(f.groupNFiles);
    U16sRoundTrip(b, 80, f.groupNFiles);
    assert b[104..108] == LE32(f.userPtr);
    U32At(b, 104, f.userPtr);
  }

  /** A Switch record is read back field for field. */
  lemma SwitchRoundTrip(f: Fields)
    requires SwitchFits(f)
    ensures DecodeSwitch(EncodeSwitch(f)) == f
  {
    var b := EncodeSwitch(f);
    var pre := f.magic + LE32(f.version) + LE16(f.byteOrder) + LE16(f.headerLen);
    assert b == pre + EncodeU32s(f.words) && |pre| == 16;
    assert b[0..8] == f.magic;
    assert b[8..12] == LE32(f.version);
    assert b[12..14] == LE16(f.byteOrder);
    assert b[14..16] == LE16(f.headerLen);
    assert 4 * |f.words| == 192;
    assert b[16..] == EncodeU32s(f.words);
    assert b[16..16 + 4 * |f.words|] == b[16..];
    U32At(b, 8, f.version);
    U16At(b, 12, f.byteOrder);
    U16At(b, 14, f.headerLen);
    U32sRoundTrip(b, 16, f.words);
  }

  // ---------------------------------------------------------------- validate

  /** What `validate` logs without failing. */
  datatype Warning = HeaderLength(found: nat, expected: nat) | UserPtr(found: nat) | Alignment(found: nat)

  /** `validate`: the magic must start with "FRES" and the byte-order mark be
      FEFF or FFFE, else an assertion fails; the rest only logs. `Ok` holds
      the warnings. */
  function Validate(f: Fields): (r: Result<seq<Warning>>)
    ensures r.Ok? <==> |f.magic| >= 4 && f.magic[0..4] == FRES && f.byteOrder in {0xFEFF, 0xFFFE}
    ensures !(|f.magic| >= 4 && f.magic[0..4] == FRES) ==> r == Err(AssertionFailed("Not a FRES file"))
    ensures |f.magic| >= 4 && f.magic[0..4] == FRES && f.byteOrder !in {0xFEFF, 0xFFFE} ==>
      r == Err(AssertionFailed("Invalid byte order mark: 0x" + Hex(f.byteOrder, 4)))
    ensures r.Ok? && f.WiiUFields? ==>
      |r.value| <= 3 &&
      (HeaderLength(f.headerLen, 0x10) in r.value <==> f.headerLen != 0x10) &&
      (UserPtr(f.userPtr) in r.value <==> f.userPtr != 0) &&
      (Alignment(f.alignment) in r.value <==> !IsPowerOf2(f.alignment))
    ensures r.Ok? && f.SwitchFields? ==>
      r.value == (if f.headerLen != 0xC then [HeaderLength(f.headerLen, 0xC)] else [])
  {
    if |f.magic| < 4 || f.magic[0..4] != FRES then Err(AssertionFailed("Not a FRES file"))
    else if f.byteOrder != 0xFEFF && f.byteOrder != 0xFFFE then
      Err(AssertionFailed("Invalid byte order mark: 0x" + Hex(f.byteOrder, 4)))
    else if f.WiiUFields? then
      var w1 := if f.headerLen != 0x10 then [HeaderLength(f.headerLen, 0x10)] else [];
      var w2 := if f.userPtr != 0 then [UserPtr(f.userPtr)] else [];
      var w3 := if !IsPowerOf2(f.alignment) then [Alignment(f.alignment)] else [];
      Ok(w1 + w2 + w3)
    else
      Ok(if f.headerLen != 0xC then [HeaderLength(f.headerLen, 0xC)] else [])
  }

  /** A Wii U header with the expected length, no user pointer and a
      power-of-two alignment gives no warnings. */
  lemma WiiUClean(f: Fields, k: nat)
    requires f.WiiUFields? && Validate(f).Ok?
    requires f.headerLen == 0x10 && f.userPtr == 0 && f.alignment == Pow2(k)
    ensures Validate(f) == Ok([])
  {
    PowerOf2Iff(f.alignment);
  }

  // ---------------------------------------------------------------- reading

  /** The layout the first eight bytes select. */
  function PlatformOf(peek: seq<byte>): (p: Platform)
    ensures p == Switch <==> peek == SWITCH_MAGIC
  {
    if peek == SWITCH_MAGIC then Switch else WiiU
  }

  /** `readFromFile` at `pos`: peek eight bytes, choose the layout, read its
      record (a short one is a struct.error) and validate it. */
  function HeaderAt(data: seq<byte>, pos: nat): (r: Result<Fields>)
    ensures r.Ok? ==> (r.value.SwitchFields? <==> PlatformOf(ReadSlice(data, pos, 8)) == Switch)
    ensures r.Ok? ==> pos + RecordSize(PlatformOf(ReadSlice(data, pos, 8))) <= |data| && Validate(r.value).Ok?
  {
    var p := PlatformOf(ReadSlice(data, pos, 8));
    RecordOf(p, ReadSlice(data, pos, RecordSize(p)))
  }

  /** The record of layout `p` from the bytes read for it. */
  function RecordOf(p: Platform, b: seq<byte>): (r: Result<Fields>)
    ensures r.Ok? ==> |b| == RecordSize(p) && (r.value.SwitchFields? <==> p == Switch) && Validate(r.value).Ok?
    ensures r.Ok? && p == WiiU ==> r.value.magic == b[0..4]
    ensures r.Ok? ==> b[0..4] == FRES
    ensures r.Ok? && p == Switch ==> |r.value.words| == SWITCH_WORDS
  {
    if |b| != RecordSize(p) then Err(StructError)
    else
      var f := if p == Switch then DecodeSwitch(b) else DecodeWiiU(b);
      var v := Validate(f);
      if v.Err? then Err(v.error) else Ok(f)
  }

  /** The first `k` bytes of a full read are the file's bytes there. */
  lemma ReadPrefix(data: seq<byte>, pos: nat, n: nat, k: nat)
    requires k <= n && pos + n <= |data|
    ensures |ReadSlice(data, pos, n)| == n && ReadSlice(data, pos, n)[0..k] == data[pos..pos + k]
  {
    var b := ReadSlice(data, pos, n);
    assert b == data[pos..pos + n];
    forall i | 0 <= i < k
      ensures b[0..k][i] == data[pos..pos + k][i]
    {
      assert b[i] == data[pos + i];
    }
  }

  /** A file starting with the Switch magic and long enough is read with the
      Switch layout, whose magic check then always passes: only the
      byte-order mark can fail. */
  lemma SwitchSelected(data: seq<byte>, pos: nat)
    requires pos + SWITCH_SIZE <= |data| && data[pos..pos + 8] == SWITCH_MAGIC
    ensures HeaderAt(data, pos).Ok? <==> U16LE(data, pos + 12) in {0xFEFF, 0xFFFE}
    ensures HeaderAt(data, pos).Ok? ==> HeaderAt(data, pos).value.SwitchFields?
  {
    var b := ReadSlice(data, pos, SWITCH_SIZE);
    ReadPrefix(data, pos, 8, 8);
    assert HeaderAt(data, pos) == RecordOf(Switch, b);
    SwitchRecord(data, pos);
    var f := DecodeSwitch(b);
    assert RecordOf(Switch, b).Ok? <==> Validate(f).Ok?;
  }

  /** The Switch record of a file starting with the Switch magic. */
  lemma SwitchRecord(data: seq<byte>, pos: nat)
    requires pos + SWITCH_SIZE <= |data| && data[pos..pos + 8] == SWITCH_MAGIC
    ensures var f := DecodeSwitch(ReadSlice(data, pos, SWITCH_SIZE));
      f.magic == SWITCH_MAGIC && f.magic[0..4] == FRES && f.byteOrder == U16LE(data, pos + 12)
  {
    var b := ReadSlice(data, pos, SWITCH_SIZE);
    ReadPrefix(data, pos, SWITCH_SIZE, 8);
    SameHalf(data, pos, SWITCH_SIZE, 12);
  }

  /** A 16-bit field of a full read is the file's field there. */
  lemma SameHalf(data: seq<byte>, pos: nat, n: nat, i: nat)
    requires i + 2 <= n && pos + n <= |data|
    ensures U16LE(ReadSlice(data, pos, n), i) == U16LE(data, pos + i)
  {
    var b := ReadSlice(data, pos, n);
    assert b == data[pos..pos + n];
    assert b[i] == data[pos + i] && b[i + 1] == data[pos + i + 1];
  }

  /** Anything else is read with the Wii U layout, whose magic must then
      start with "FRES". */
  lemma WiiUSelected(data: seq<byte>, pos: nat)
    requires ReadSlice(data, pos, 8) != SWITCH_MAGIC
    ensures HeaderAt(data, pos).Ok? ==> HeaderAt(data, pos).value.WiiUFields?
    ensures HeaderAt(data, pos).Ok? ==> pos + WIIU_SIZE <= |data| && data[pos..pos + 4] == FRES
  {
    var b := ReadSlice(data, pos, WIIU_SIZE);
    WiiURecord(data, pos);
    if RecordOf(WiiU, b).Ok? {
      ReadPrefix(data, pos, WIIU_SIZE, 4);
    }
  }

  /** What is read when the Switch magic is absent. */
  lemma WiiURecord(data: seq<byte>, pos: nat)
    requires ReadSlice(data, pos, 8) != SWITCH_MAGIC
    ensures HeaderAt(data, pos) == RecordOf(WiiU, ReadSlice(data, pos, WIIU_SIZE))
  {
  }

  /** Read eight bytes, put the position back, and choose the layout. */
  method Peek(file: BinFile) returns (p: Platform)
    modifies file
    ensures p == PlatformOf(ReadSlice(file.data, old(file.pos), 8)) && file.pos == old(file.pos)
  {
    var pos := file.Tell();
    var magic := file.Read(8);
    var _ := file.Seek(pos, 0);
    p := PlatformOf(magic);
  }

  // ---------------------------------------------------------------- relocation table

  /** The relocation table's magic, "_RLT". */
  const RLT_MAGIC: seq<byte> := [0x5F, 0x52, 0x4C, 0x54]
  /** The RLT record: 4s magic and thirteen I fields, 0x34 bytes. */
  const RLT_SIZE: nat := 0x34
  const RLT_WORDS: nat := 12

  /** The RLT record's fields: the magic, then the words unk04 … unk2C and
      data_start, in order. */
  datatype Rlt = Rlt(magic: seq<byte>, words: seq<nat>)

  /** data_start, the last word of the record, at 0x30. */
  function DataStart(t: Rlt): nat
    requires |t.words| == RLT_WORDS
  {
    t.words[RLT_WORDS - 1]
  }

  function DecodeRlt(b: seq<byte>): Rlt
    requires |b| == RLT_SIZE
  {
    Rlt(b[0..4], U32s(b, 4, RLT_WORDS))
  }

  predicate RltFits(t: Rlt)
  {
    |t.magic| == 4 && |t.words| == RLT_WORDS && Words(t.words)
  }

  function EncodeRlt(t: Rlt): (b: seq<byte>)
    requires RltFits(t)
    ensures |b| == RLT_SIZE
  {
    t.magic + EncodeU32s(t.words)
  }

  /** An RLT record written out is read back field for field. */
  lemma RltRoundTrip(t: Rlt)
    requires RltFits(t)
    ensures DecodeRlt(EncodeRlt(t)) == t
  {
    var b := EncodeRlt(t);
    assert b[0..4] == t.magic;
    assert b[4..4 + 4 * |t.words|] == EncodeU32s(t.words);
    U32sRoundTrip(b, 4, t.words);
  }

  /** `RLT` from the bytes read for it: a short record is a struct.error and
      a magic other than "_RLT" fails "Not an RLT". */
  function RltRecordOf(b: seq<byte>): (r: Result<Rlt>)
    ensures r.Ok? <==> |b| == RLT_SIZE && b[0..4] == RLT_MAGIC
    ensures |b| != RLT_SIZE ==> r == Err(StructError)
    ensures |b| == RLT_SIZE && b[0..4] != RLT_MAGIC ==> r == Err(AssertionFailed("Not an RLT"))
    ensures r.Ok? ==>
      r.value.magic == RLT_MAGIC && |r.value.words| == RLT_WORDS && DataStart(r.value) == U32LE(b, 0x30)
  {
    if |b| != RLT_SIZE then Err(StructError)
    else if b[0..4] != RLT_MAGIC then Err(AssertionFailed("Not an RLT"))
    else
      U32sAt(b, 4, RLT_WORDS, RLT_WORDS - 1);
      Ok(DecodeRlt(b))
  }

  /** `RLT().readFromFile(file, offset)`: seek to `offset` and read the record
      there. */
  function RltAt(data: seq<byte>, offset: nat): Result<Rlt>
  {
    RltRecordOf(ReadSlice(data, offset, RLT_SIZE))
  }

  /** The relocation table is read exactly when its whole record lies in the
      file and starts with "_RLT"; data_start is then the word at 0x30. */
  lemma RltAtIff(data: seq<byte>, offset: nat)
    ensures RltAt(data, offset).Ok? <==> offset + RLT_SIZE <= |data| && data[offset..offset + 4] == RLT_MAGIC
    ensures RltAt(data, offset).Ok? ==> DataStart(RltAt(data, offset).value) == U32LE(data, offset + 0x30)
  {
    if offset + RLT_SIZE <= |data| {
      ReadPrefix(data, offset, RLT_SIZE, 4);
      SameWord(data, offset, RLT_SIZE, 0x30);
    }
  }

  /** A 32-bit field of a full read is the file's field there. */
  lemma SameWord(data: seq<byte>, pos: nat, n: nat, i: nat)
    requires i + 4 <= n && pos + n <= |data|
    ensures U32LE(ReadSlice(data, pos, n), i) == U32LE(data, pos + i)
  {
    SameHalf(data, pos, n, i);
    SameHalf(data, pos, n, i + 2);
  }

  /** Seek to `offset` and read the relocation table there. */
  method ReadRlt(file: BinFile, offset: nat) returns (r: Result<Rlt>)
    modifies file
    ensures r == RltAt(file.data, offset)
    ensures file.pos == Advance(file.data, offset, RLT_SIZE)
  {
    var _ := file.Seek(offset, 0);
    var b := file.Read(RLT_SIZE);
    r := RltRecordOf(b);
  }

  // ---------------------------------------------------------------- the whole header

  /** What `readFromFile` leaves: the header record and, after a Switch
      header, the relocation table. */
  datatype Parsed = Parsed(fields: Fields, rlt: Option<Rlt>)

  /** `readFromFile` at `pos`: the header record, then for a Switch header the
      relocation table at rlt_offset; either read's failure is the result. */
  function ReadAt(data: seq<byte>, pos: nat): (r: Result<Parsed>)
    ensures HeaderAt(data, pos).Err? ==> r == Err(HeaderAt(data, pos).error)
    ensures r.Ok? ==> HeaderAt(data, pos) == Ok(r.value.fields)
    ensures r.Ok? ==> (r.value.rlt.Some? <==> r.value.fields.SwitchFields?)
  {
    var h :- HeaderAt(data, pos);
    match RltOffset(h)
    case None => Ok(Parsed(h, None))
    case Some(o) =>
      var t :- RltAt(data, o);
      Ok(Parsed(h, Some(t)))
  }

  /** A Switch header is read exactly when its record fits with a valid
      byte-order mark and the relocation table it points to, at the word
      stored 0x18 into the header, lies whole in the file and starts with
      "_RLT". */
  lemma SwitchNeedsRlt(data: seq<byte>, pos: nat)
    requires pos + SWITCH_SIZE <= |data| && data[pos..pos + 8] == SWITCH_MAGIC
    ensures var o := U32LE(data, pos + 0x18);
      ReadAt(data, pos).Ok? <==>
        U16LE(data, pos + 12) in {0xFEFF, 0xFFFE} && o + RLT_SIZE <= |data| && data[o..o + 4] == RLT_MAGIC
    ensures var o := U32LE(data, pos + 0x18);
      ReadAt(data, pos).Ok? ==> RltAt(data, o).Ok? && ReadAt(data, pos).value.rlt == Some(RltAt(data, o).value)
  {
    SwitchSelected(data, pos);
    if HeaderAt(data, pos).Ok? {
      var o := U32LE(data, pos + 0x18);
      SwitchRltOffset(data, pos);
      ReadAtRlt(data, pos, o);
      RltAtIff(data, o);
    }
  }

  /** A Switch header that is read points to its relocation table by the word
      stored 0x18 into the file's record. */
  lemma SwitchRltOffset(data: seq<byte>, pos: nat)
    requires pos + SWITCH_SIZE <= |data| && data[pos..pos + 8] == SWITCH_MAGIC
    requires HeaderAt(data, pos).Ok?
    ensures RltOffset(HeaderAt(data, pos).value) == Some(U32LE(data, pos + 0x18))
  {
    var b := ReadSlice(data, pos, SWITCH_SIZE);
    ReadPrefix(data, pos, 8, 8);
    assert HeaderAt(data, pos) == RecordOf(Switch, b);
    assert HeaderAt(data, pos).value == DecodeSwitch(b);
    RltOffsetAt(b);
    SameWord(data, pos, SWITCH_SIZE, 0x18);
  }

  /** Once the header is read, the whole read is the relocation table read at
      the header's rlt_offset. */
  lemma ReadAtRlt(data: seq<byte>, pos: nat, o: nat)
    requires HeaderAt(data, pos).Ok? && RltOffset(HeaderAt(data, pos).value) == Some(o)
    ensures ReadAt(data, pos).Ok? <==> RltAt(data, o).Ok?
    ensures ReadAt(data, pos).Ok? ==> ReadAt(data, pos).value.rlt == Some(RltAt(data, o).value)
  {
  }

  /** A Wii U header reads no relocation table: the whole read is the
      header's. */
  lemma WiiUNoRlt(data: seq<byte>, pos: nat)
    requires ReadSlice(data, pos, 8) != SWITCH_MAGIC
    ensures ReadAt(data, pos).Ok? <==> HeaderAt(data, pos).Ok?
    ensures ReadAt(data, pos).Ok? ==> ReadAt(data, pos).value.rlt == None
  {
    WiiUSelected(data, pos);
  }

  /** `Header`: the layout chosen and, once read, the record's fields and the
      relocation table read after a Switch header. */
  class Header {
    var kind: Option<Platform>
    var fields: Option<Fields>
    var rlt: Option<Rlt>

    constructor()
      ensures kind == None && fields == None && rlt == None
    {
      kind := None;
      fields := None;
      rlt := None;
    }

    /** `readFromFile`: the layout is chosen (and kept) before the record is
        read and the record's fields are kept once it validates; after a
        Switch header the relocation table is then read at rlt_offset, after
        a Wii U header there is none. */
    method ReadFromFile(file: BinFile) returns (r: Result<()>)
      modifies this, file
      ensures kind == Some(PlatformOf(ReadSlice(file.data, old(file.pos), 8)))
      ensures var h := ReadAt(file.data, old(file.pos));
        r.Ok? == h.Ok? && (r.Err? ==> r.error == h.error) &&
        (r.Ok? ==> fields == Some(h.value.fields) && rlt == h.value.rlt)
      ensures HeaderAt(file.data, old(file.pos)).Ok? ==> fields == Some(HeaderAt(file.data, old(file.pos)).value)
      ensures r.Err? ==> rlt == old(rlt)
      ensures r.Ok? && kind == Some(WiiU) ==> file.pos == old(file.pos) + WIIU_SIZE
      ensures r.Ok? && kind == Some(Switch) ==>
        file.pos == RltOffset(fields.value).value + RLT_SIZE
    {
      var pos := file.Tell();
      var p := Peek(file);
      kind := Some(p);
      var b := file.Read(RecordSize(p));
      assert HeaderAt(file.data, pos) == RecordOf(p, b);
      var rec := RecordOf(p, b);
      if rec.Err? {
        return Err(rec.error);
      }
      fields := Some(rec.value);
      var offset := RltOffset(rec.value);
      if offset.None? {
        assert ReadAt(file.data, pos) == Ok(Parsed(rec.value, None));
        rlt := None;
        return Ok(());
      }
      ReadAtRlt(file.data, pos, offset.value);
      var t := ReadRlt(file, offset.value);
      if t.Err? {
        return Err(t.error);
      }
      rlt := Some(t.value);
      r := Ok(());
    }
  }
}
