/** Choosing a codec for a file by its magic bytes (`codec/__init__.py`): the
    decoder and encoder tables and the first-match search that restores the
    file position after every probe. */
module Codecs {
  import opened Bytes
  import opened Wrappers
  import opened ByteSource

  /** The decoder classes the table refers to. */
  datatype Codec = AampDecoder | BymlDecoder | SarcDecoder | FresDecoder | Yaz0Decoder

  /** One `magic: class` pair of a table, in the dict's insertion order. */
  datatype Entry = Entry(magic: seq<byte>, codec: Codec)

  /** The magics of the decoder table: "AAMP", "BY", "SARC", "FRES", "Yaz0",
      "Yaz1" and "YB". */
  const AAMP: seq<byte> := [0x41, 0x41, 0x4D, 0x50]
  const BY: seq<byte> := [0x42, 0x59]
  const SARC: seq<byte> := [0x53, 0x41, 0x52, 0x43]
  const FRES: seq<byte> := [0x46, 0x52, 0x45, 0x53]
  const YAZ0: seq<byte> := [0x59, 0x61, 0x7A, 0x30]
  const YAZ1: seq<byte> := [0x59, 0x61, 0x7A, 0x31]
  const YB: seq<byte> := [0x59, 0x42]

  /** The `decoders` dict. */
  function Decoders(): (t: seq<Entry>)
    ensures |t| == 7
  {
    [ Entry(AAMP, AampDecoder),
      Entry(BY, BymlDecoder),
      Entry(SARC, SarcDecoder),
      Entry(FRES, FresDecoder),
      Entry(YAZ0, Yaz0Decoder),
      Entry(YAZ1, Yaz0Decoder),
      Entry(YB, BymlDecoder) ]
  }

  /** The `encoders` dict, which is empty. */
  function Encoders(): (t: seq<Entry>)
    ensures |t| == 0
  {
    []
  }

  /** The probe for `magic` succeeds: the next `len(magic)` bytes are the magic. */
  predicate Matches(data: seq<byte>, pos: nat, magic: seq<byte>)
  {
    ReadSlice(data, pos, |magic|) == magic
  }

  /** What `findClass` raises when no entry matches: the error carries the next
      four bytes, and building its message unpacks them as one 'I', which is a
      struct.error when fewer than four are left. */
  function NoMatch(data: seq<byte>, pos: nat): (r: Result<Codec>)
    ensures r.Err?
    ensures pos + 4 <= |data| ==> r == Err(UnsupportedFileType(data[pos..pos + 4]))
    ensures pos + 4 > |data| ==> r == Err(StructError)
  {
    var m := ReadSlice(data, pos, 4);
    if |m| == 4 then Err(UnsupportedFileType(m)) else Err(StructError)
  }

  /** Entry `i` is the first whose magic matches. */
  predicate IsFirstMatch(data: seq<byte>, pos: nat, table: seq<Entry>, i: nat)
  {
    i < |table| && Matches(data, pos, table[i].magic) &&
    forall j :: 0 <= j < i ==> !Matches(data, pos, table[j].magic)
  }

  /** The outcome of `findClass(file, classes)` on a file holding `data`
      positioned at `pos`: the class of the first matching entry in table order. */
  function Sniff(data: seq<byte>, pos: nat, table: seq<Entry>): (r: Result<Codec>)
    ensures r.Err? ==> r == NoMatch(data, pos)
    decreases |table|
  {
    if |table| == 0 then NoMatch(data, pos)
    else if Matches(data, pos, table[0].magic) then Ok(table[0].codec)
    else Sniff(data, pos, table[1..])
  }

  /** The first matching entry decides, whatever the later entries are. */
  lemma {:induction false} SniffFirst(data: seq<byte>, pos: nat, table: seq<Entry>, i: nat)
    requires IsFirstMatch(data, pos, table, i)
    ensures Sniff(data, pos, table) == Ok(table[i].codec)
    decreases i
  {
    if i > 0 {
      assert !Matches(data, pos, table[0].magic);
      assert forall j :: 0 <= j < i - 1 ==> table[1..][j] == table[j + 1];
      SniffFirst(data, pos, table[1..], i - 1);
    }
  }

  /** When no entry matches, the search ends in the no-match error. */
  lemma {:induction false} SniffNone(data: seq<byte>, pos: nat, table: seq<Entry>)
    requires forall j :: 0 <= j < |table| ==> !Matches(data, pos, table[j].magic)
    ensures Sniff(data, pos, table) == NoMatch(data, pos)
    decreases |table|
  {
    if |table| > 0 {
      assert !Matches(data, pos, table[0].magic);
      assert forall j :: 0 <= j < |table| - 1 ==> table[1..][j] == table[j + 1];
      SniffNone(data, pos, table[1..]);
    }
  }

  /** Conversely, a class is only returned for an entry whose magic matched and
      before which nothing matched. */
  lemma {:induction false} SniffFound(data: seq<byte>, pos: nat, table: seq<Entry>)
    requires Sniff(data, pos, table).Ok?
    ensures exists i: nat :: IsFirstMatch(data, pos, table, i) && table[i].codec == Sniff(data, pos, table).value
    decreases |table|
  {
    if !Matches(data, pos, table[0].magic) {
      SniffFound(data, pos, table[1..]);
      var i: nat :| IsFirstMatch(data, pos, table[1..], i) && table[1..][i].codec == Sniff(data, pos, table[1..]).value;
      assert table[i + 1] == table[1..][i];
      forall j | 0 <= j < i + 1
        ensures !Matches(data, pos, table[j].magic)
      {
        if j > 0 {
          assert table[j] == table[1..][j - 1];
        }
      }
      assert IsFirstMatch(data, pos, table, i + 1);
    } else {
      assert IsFirstMatch(data, pos, table, 0);
    }
  }

  /** A non-empty magic longer than what is left of the file never matches. */
  lemma ShortNoMatch(data: seq<byte>, pos: nat, magic: seq<byte>)
    requires |magic| > 0 && pos + |magic| > |data|
    ensures !Matches(data, pos, magic)
  {
  }

  /** A probe fails as soon as one byte within reach differs from the magic. */
  lemma DiffersAt(data: seq<byte>, pos: nat, magic: seq<byte>, k: nat)
    requires k < |magic| && pos + k < |data| && data[pos + k] != magic[k]
    ensures !Matches(data, pos, magic)
  {
  }

  /** `getEncoderForFile` always raises, since no encoder is registered. */
  lemma NoEncoder(data: seq<byte>, pos: nat)
    ensures Sniff(data, pos, Encoders()).Err?
    ensures Sniff(data, pos, Encoders()) == NoMatch(data, pos)
  {
  }

  /** A `Yaz1` stream is handled by the Yaz0 decoder: the probes for "AAMP",
      "BY", "SARC", "FRES" and "Yaz0" all fail on it first. */
  lemma Yaz1IsYaz0(data: seq<byte>, pos: nat)
    requires pos + 4 <= |data| && data[pos..pos + 4] == YAZ1
    ensures Sniff(data, pos, Decoders()) == Ok(Yaz0Decoder)
  {
    var t := Decoders();
    assert data[pos] == data[pos..pos + 4][0] && data[pos + 3] == data[pos..pos + 4][3];
    DiffersAt(data, pos, t[0].magic, 0);
    DiffersAt(data, pos, t[1].magic, 0);
    DiffersAt(data, pos, t[2].magic, 0);
    DiffersAt(data, pos, t[3].magic, 0);
    DiffersAt(data, pos, t[4].magic, 3);
    assert ReadSlice(data, pos, 4) == data[pos..pos + 4];
    assert IsFirstMatch(data, pos, t, 5);
    SniffFirst(data, pos, t, 5);
  }

  /** A BYML file with the big-endian magic "BY" selects the BYML decoder, which
      is the second entry. */
  lemma ByIsByml(data: seq<byte>, pos: nat)
    requires pos + 2 <= |data| && data[pos..pos + 2] == BY
    ensures Sniff(data, pos, Decoders()) == Ok(BymlDecoder)
  {
    var t := Decoders();
    assert data[pos] == data[pos..pos + 2][0];
    DiffersAt(data, pos, t[0].magic, 0);
    assert ReadSlice(data, pos, 2) == data[pos..pos + 2];
    assert IsFirstMatch(data, pos, t, 1);
    SniffFirst(data, pos, t, 1);
  }

  /** `findClass(file, classes)`: probe every magic in table order, putting the
      position back after each read, and fall back to the four-byte error. */
  method FindClass(file: BinFile, table: seq<Entry>) returns (r: Result<Codec>)
    modifies file
    ensures r == Sniff(file.data, old(file.pos), table)
    ensures file.pos == old(file.pos)
  {
    var pos := file.Tell();
    var i := 0;
    while i < |table|
      invariant 0 <= i <= |table|
      invariant file.pos == pos
      invariant Sniff(file.data, pos, table) == Sniff(file.data, pos, table[i..])
    {
      var m := file.Read(|table[i].magic|);
      var _ := file.Seek(pos, 0);
      if m == table[i].magic {
        return Ok(table[i].codec);
      }
      assert table[i..][1..] == table[i + 1..];
      i := i + 1;
    }
    var m := file.Read(4);
    var _ := file.Seek(pos, 0);
    if |m| == 4 {
      r := Err(UnsupportedFileType(m));
    } else {
      r := Err(StructError);
    }
  }

  /** `getDecoderForFile(file)`. */
  method GetDecoderForFile(file: BinFile) returns (r: Result<Codec>)
    modifies file
    ensures r == Sniff(file.data, old(file.pos), Decoders())
    ensures file.pos == old(file.pos)
  {
    r := FindClass(file, Decoders());
  }

  /** `getEncoderForFile(file)`: the encoder table is empty, so this always
      raises the no-match error. */
  method GetEncoderForFile(file: BinFile) returns (r: Result<Codec>)
    modifies file
    ensures r == NoMatch(file.data, old(file.pos)) && r.Err?
    ensures file.pos == old(file.pos)
  {
    r := FindClass(file, Encoders());
  }
}
