/** The command-line application (`app/__init__.py`, with the same logic
    repeated in `__main__.py`): the size column of listings, the recursive walk
    that names every extractable object, and the extraction loop with its dry
    run. */
module App {
  import opened Bytes
  import opened Wrappers
  import Codecs
  import FileWriters
  import ByteSource

  // ---------------------------------------------------------------------------
  // _format_size

  /** The unit letters, indexed by the unit number. */
  const UNITS: string := " KMG"

  function Pow1024(k: nat): (r: nat)
    ensures r >= 1
  {
    if k == 0 then 1 else 1024 * Pow1024(k - 1)
  }

  /** The unit the loop stops at, searching upwards from `k`: the first whose
      divided size is at most 9999, or 4 when none of the four is. */
  function UnitFrom(size: int, k: nat): (u: nat)
    requires k <= 4
    decreases 4 - k
  {
    if k < 4 && size > 9999 * Pow1024(k) then UnitFrom(size, k + 1) else k
  }

  /** `_format_size(size)`: the size in the chosen unit, rounded down and
      right-aligned in four columns, then the unit letter; indexing past the four
      letters is an IndexError. */
  function SizeText(size: int): (r: Result<string>)
    ensures r.Err? ==> r.error == IndexError
    ensures r.Err? <==> UnitFrom(size, 0) == 4
  {
    var u := UnitFrom(size, 0);
    if u >= |UNITS| then Err(IndexError)
    else Ok(PercentD(Quotient(size, Pow1024(u)), 4) + [UNITS[u]])
  }

  /** `int(size / d)`: the quotient rounded towards zero. */
  function Quotient(size: int, d: nat): int
    requires d >= 1
  {
    if size >= 0 then size / d else -((-size) / d)
  }

  /** The loop of `_format_size`, on the exact quotient. Dividing a float by
      1024 only changes its exponent, and every size that the loop does not
      reject is far below 2^53, so the float arithmetic is exact here. */
  method FormatSize(size: int) returns (r: Result<string>)
    ensures r == SizeText(size)
  {
    var s: real := size as real;
    var unit := 0;
    while s > 9999.0 && unit < |UNITS|
      invariant 0 <= unit <= 4
      invariant s == size as real / Pow1024(unit) as real
      invariant UnitFrom(size, 0) == UnitFrom(size, unit)
    {
      ScaledAbove(size, unit);
      s := s / 1024.0;
      unit := unit + 1;
    }
    if unit < 4 {
      ScaledAbove(size, unit);
    }
    if unit >= |UNITS| {
      return Err(IndexError);
    }
    FloorQuotient(size, Pow1024(unit));
    r := Ok(PercentD(s.Floor, 4) + [UNITS[unit]]);
  }

  /** Comparing the divided size with 9999 is comparing the size with 9999
      units. */
  lemma ScaledAbove(size: int, k: nat)
    ensures (size as real / Pow1024(k) as real > 9999.0) <==> size > 9999 * Pow1024(k)
  {
    var d := Pow1024(k) as real;
    DivAbove(size as real, d, 9999.0);
    assert (9999 * Pow1024(k)) as real == 9999.0 * d;
  }

  lemma DivAbove(x: real, d: real, c: real)
    requires d > 0.0
    ensures (x / d > c) <==> (x > c * d)
  {
    assert x / d * d == x;
  }

  /** Python's '%d' of a float truncates it, which for a non-negative quotient
      is integer division. */
  lemma FloorQuotient(size: int, d: nat)
    requires d >= 1 && (size >= 0 || d == 1)
    ensures (size as real / d as real).Floor == Quotient(size, d)
  {
    var q := size / d;
    var rem := size % d;
    assert size as real / d as real == q as real + rem as real / d as real;
  }

  /** The unit is the smallest one in which the size shows in four digits. */
  lemma {:induction false} UnitIsSmallest(size: int, k: nat)
    requires k <= 4
    ensures k <= UnitFrom(size, k) <= 4
    ensures UnitFrom(size, k) < 4 ==> size <= 9999 * Pow1024(UnitFrom(size, k))
    ensures forall j :: k <= j < UnitFrom(size, k) ==> size > 9999 * Pow1024(j)
    decreases 4 - k
  {
    if k < 4 && size > 9999 * Pow1024(k) {
      UnitIsSmallest(size, k + 1);
    }
  }

  /** The size column fails exactly above 9999 GiB. */
  lemma SizeTextFails(size: int)
    ensures SizeText(size).Err? <==> size > 9999 * Pow1024(3)
    ensures SizeText(size).Err? ==> SizeText(size).error == IndexError
  {
    UnitIsSmallest(size, 0);
  }

  /** For a size that can be shown, the text is five characters: the quotient
      in four columns and the letter of the smallest unit that fits. */
  lemma {:induction false} SizeTextShape(size: nat)
    requires size <= 9999 * Pow1024(3)
    ensures var u := UnitFrom(size, 0);
      u < 4 && size <= 9999 * Pow1024(u) && (u > 0 ==> size > 9999 * Pow1024(u - 1)) &&
      SizeText(size) == Ok(PadLeft(Decimal(size / Pow1024(u)), 4) + [UNITS[u]]) &&
      |SizeText(size).value| == 5
  {
    UnitIsSmallest(size, 0);
    var u := UnitFrom(size, 0);
    var q := size / Pow1024(u);
    QuotientAtMost(size, Pow1024(u), 9999);
    DecimalWidth(q);
  }

  /** A size of at most `b` units is at most `b` once divided by the unit. */
  lemma QuotientAtMost(size: nat, d: nat, b: nat)
    requires d >= 1 && size <= b * d
    ensures size / d <= b
  {
    var q := size / d;
    if q > b {
      MulAtLeast(d, q - b);
    }
  }

  /** A number up to 9999 has at most four digits. */
  lemma DecimalWidth(n: nat)
    requires n <= 9999
    ensures |Decimal(n)| <= 4
  {
    if n >= 10 {
      assert |Decimal(n)| == |Decimal(n / 10)| + 1;
      if n / 10 >= 10 {
        assert |Decimal(n / 10)| == |Decimal(n / 100)| + 1;
        if n / 100 >= 10 {
          assert n / 100 / 10 < 10;
        }
      }
    }
  }

  // ---------------------------------------------------------------------------
  // get_files

  /** A name as `get_files` carries it: the source passes the recursion depth
      where a name is expected, so a name can also be a number. */
  datatype Name = Text(text: string) | Number(n: nat)

  /** The attributes `get_files` looks at: `name`, `defaultFileExt`, the bytes
      `toData()` gives, `isListable` and `objects`. Absent attributes are
      `None`, `false` and no objects. */
  datatype Obj = Obj(name: Option<Name>, ext: Option<string>, data: Option<seq<byte>>,
                     listable: bool, objects: seq<Obj>)

  /** An entry of the result: its output name and the bytes of its temporary
      file. */
  datatype Item = Item(name: Name, data: seq<byte>)

  /** A freshly constructed decoder: no `name`, the default extension
      'extracted', no `toData` and no `isListable`. Every decoder of the table
      is such an object. */
  function DecoderObj(): (o: Obj)
    ensures o.name.None? && o.data.None? && !o.listable
  {
    Obj(None, Some("extracted"), None, false, [])
  }

  /** The size measure that orders the walk: the nested decoder of an object
      with data is smaller than that object. */
  function Rank(o: Obj): (r: nat)
    ensures r >= 1 + RankSum(o.objects)
    decreases o
  {
    1 + (if o.data.Some? then 1 else 0) + RankSum(o.objects)
  }

  function RankSum(cs: seq<Obj>): nat
    decreases cs
  {
    if |cs| == 0 then 0 else Rank(cs[0]) + RankSum(cs[1..])
  }

  /** `name = getattr(obj, 'name', name)` followed by `name += '.' + ext`;
      adding a string to a number is a TypeError. */
  function OwnName(o: Obj, inherited: Name): (r: Result<Name>)
    ensures o.ext.None? ==> r == Ok(if o.name.Some? then o.name.value else inherited)
    ensures o.ext.Some? ==> (r.Ok? <==> (if o.name.Some? then o.name.value else inherited).Text?)
    ensures o.ext.Some? && r.Ok? ==>
      r.value == Text((if o.name.Some? then o.name.value else inherited).text + "." + o.ext.value)
  {
    var name := if o.name.Some? then o.name.value else inherited;
    if o.ext.None? then Ok(name)
    else if name.Number? then Err(TypeError)
    else Ok(Text(name.text + "." + o.ext.value))
  }

  /** `get_files(obj, name, _depth)`. An object with data is sniffed: bytes no
      decoder claims give one entry, any other sniffing error propagates, and a
      decoder that opens is walked in turn, the object itself standing in when
      that walk finds nothing. An object without data that is not listable gives
      nothing; a listable one gives its children's entries in order. `open` is
      the decoder's constructor: the error it raises, if any. */
  function Walk(o: Obj, inherited: Name, depth: nat, open: (Codecs.Codec, seq<byte>) -> Option<Error>)
    : (r: Result<seq<Item>>)
    ensures r.Ok? && o.data.Some? ==> |r.value| >= 1
    ensures o.data.None? && !o.listable && OwnName(o, inherited).Ok? ==> r == Ok([])
    decreases Rank(o), 1
  {
    var name :- OwnName(o, inherited);
    if o.data.Some? then
      var d := o.data.value;
      match Codecs.Sniff(d, 0, Codecs.Decoders())
      case Err(e) =>
        if e.UnsupportedFileType? then Ok([Item(name, d)]) else Err(e)
      case Ok(c) =>
        if open(c, d).Some? then Err(open(c, d).value)
        else
          var items :- Walk(DecoderObj(), name, depth + 1, open);
          if |items| == 0 then Ok([Item(name, d)]) else Ok(items)
    else if !o.listable then Ok([])
    else WalkChildren(o.objects, depth, open)
  }

  /** `for item in obj.objects: items += get_files(item, _depth+1)`: each child
      is walked with `_depth+1` in the name position and the depth back at 0. */
  function WalkChildren(cs: seq<Obj>, depth: nat, open: (Codecs.Codec, seq<byte>) -> Option<Error>)
    : (r: Result<seq<Item>>)
    ensures r.Ok? && (forall i :: 0 <= i < |cs| ==> cs[i].data.Some?) ==> |r.value| >= |cs|
    decreases RankSum(cs), 2
  {
    if |cs| == 0 then Ok([])
    else
      var first :- Walk(cs[0], Number(depth + 1), 0, open);
      var rest :- WalkChildren(cs[1..], depth, open);
      Ok(first + rest)
  }

  /** A decoder gives no entries: it has neither data nor `isListable`. */
  lemma DecoderGivesNothing(inherited: Name, depth: nat, open: (Codecs.Codec, seq<byte>) -> Option<Error>)
    requires inherited.Text?
    ensures Walk(DecoderObj(), inherited, depth, open) == Ok([])
  {
  }

  /** Bytes that no magic matches (and that hold at least four bytes) give
      exactly one entry, under the object's own name. */
  lemma UnknownBytesGiveOne(o: Obj, inherited: Name, depth: nat, open: (Codecs.Codec, seq<byte>) -> Option<Error>)
    requires o.data.Some? && OwnName(o, inherited).Ok?
    requires forall j :: 0 <= j < 7 ==> !Codecs.Matches(o.data.value, 0, Codecs.Decoders()[j].magic)
    requires |o.data.value| >= 4
    ensures Walk(o, inherited, depth, open) == Ok([Item(OwnName(o, inherited).value, o.data.value)])
  {
    Codecs.SniffNone(o.data.value, 0, Codecs.Decoders());
  }

  /** Bytes that a decoder opens still give exactly one entry for the object
      itself: the nested walk of the decoder is always empty, so the fallback
      applies and nothing inside the nested file is listed. */
  lemma DecodedFallsBack(o: Obj, inherited: Name, depth: nat, open: (Codecs.Codec, seq<byte>) -> Option<Error>)
    requires o.data.Some? && OwnName(o, inherited).Ok? && OwnName(o, inherited).value.Text?
    requires Codecs.Sniff(o.data.value, 0, Codecs.Decoders()).Ok?
    requires open(Codecs.Sniff(o.data.value, 0, Codecs.Decoders()).value, o.data.value).None?
    ensures Walk(o, inherited, depth, open) == Ok([Item(OwnName(o, inherited).value, o.data.value)])
  {
    DecoderGivesNothing(OwnName(o, inherited).value, depth + 1, open);
  }

  /** An object known only by a number whose bytes do decode fails: the
      nested walk appends '.extracted' to that number. */
  lemma NumberedDecodedFails(o: Obj, inherited: Name, depth: nat, open: (Codecs.Codec, seq<byte>) -> Option<Error>)
    requires o.data.Some? && OwnName(o, inherited).Ok? && OwnName(o, inherited).value.Number?
    requires Codecs.Sniff(o.data.value, 0, Codecs.Decoders()).Ok?
    requires open(Codecs.Sniff(o.data.value, 0, Codecs.Decoders()).value, o.data.value).None?
    ensures Walk(o, inherited, depth, open) == Err(TypeError)
  {
  }

  /** Every object with data gives exactly one entry, with its own bytes, or an
      error: whatever the bytes hold, nothing nested is ever listed. */
  lemma DataGivesOne(o: Obj, inherited: Name, depth: nat, open: (Codecs.Codec, seq<byte>) -> Option<Error>)
    requires o.data.Some?
    ensures Walk(o, inherited, depth, open).Ok? ==>
      Walk(o, inherited, depth, open).value == [Item(OwnName(o, inherited).value, o.data.value)]
  {
    if OwnName(o, inherited).Ok? {
      var d := o.data.value;
      var s := Codecs.Sniff(d, 0, Codecs.Decoders());
      if s.Ok? && open(s.value, d).None? && OwnName(o, inherited).value.Text? {
        DecodedFallsBack(o, inherited, depth, open);
      }
    }
  }

  /** The children's entries are concatenated in order: walking `a + b` is
      walking `a`, then `b`. */
  lemma {:induction false} WalkChildrenAppend(a: seq<Obj>, b: seq<Obj>, depth: nat,
                                              open: (Codecs.Codec, seq<byte>) -> Option<Error>)
    ensures var ab := WalkChildren(a + b, depth, open);
      var wa := WalkChildren(a, depth, open);
      var wb := WalkChildren(b, depth, open);
      (ab.Ok? <==> wa.Ok? && wb.Ok?) && (ab.Ok? ==> ab.value == wa.value + wb.value)
    decreases |a|
  {
    if |a| == 0 {
      assert a + b == b;
    } else {
      assert (a + b)[0] == a[0] && (a + b)[1..] == a[1..] + b;
      WalkChildrenAppend(a[1..], b, depth, open);
      var first := Walk(a[0], Number(depth + 1), 0, open);
      if first.Ok? && WalkChildren(a[1..], depth, open).Ok? && WalkChildren(b, depth, open).Ok? {
        assert first.value + (WalkChildren(a[1..], depth, open).value + WalkChildren(b, depth, open).value)
          == first.value + WalkChildren(a[1..], depth, open).value + WalkChildren(b, depth, open).value;
      }
    }
  }

  /** A child without a name of its own inherits the number `depth + 1`; if it
      has an extension the walk fails with TypeError. */
  lemma UnnamedChildWithExt(o: Obj, depth: nat, open: (Codecs.Codec, seq<byte>) -> Option<Error>)
    requires o.listable && o.data.None? && OwnName(o, Text("x")).Ok? && o.name.Some? && o.name.value.Text?
    requires |o.objects| > 0 && o.objects[0].name.None? && o.objects[0].ext.Some?
    ensures WalkChildren(o.objects, depth, open) == Err(TypeError)
    ensures Walk(o, o.name.value, depth, open) == Err(TypeError)
  {
  }

  // ---------------------------------------------------------------------------
  // extract_recursive

  /** One output file: the path handed to `FileWriter` and the bytes written. */
  datatype Written = Written(file: string, data: seq<byte>)

  /** The files the extraction loop writes for `items`, in order: each entry
      goes to `dest + '/' + name`, and an entry named by a number stops the loop
      with TypeError. */
  function Writes(items: seq<Item>, dest: string): (r: Result<seq<Written>>)
    ensures r.Ok? ==> |r.value| == |items|
    ensures r.Ok? ==> forall i :: 0 <= i < |items| ==>
      items[i].name.Text? && r.value[i] == Written(dest + "/" + items[i].name.text, items[i].data)
    decreases |items|
  {
    if |items| == 0 then Ok([])
    else
      var init :- Writes(items[..|items| - 1], dest);
      var last := items[|items| - 1];
      if last.name.Number? then Err(TypeError)
      else Ok(init + [Written(dest + "/" + last.name.text, last.data)])
  }

  /** The directories that opening those files creates. */
  function CreatedBy(ws: seq<Written>): set<string>
    decreases |ws|
  {
    if |ws| == 0 then {} else CreatedBy(ws[..|ws| - 1]) + FileWriters.Created(ws[|ws| - 1].file)
  }

  /** The loop writes every entry, with its own bytes under its own name, exactly
      when every entry has a text name. */
  lemma {:induction false} WritesAll(items: seq<Item>, dest: string)
    ensures Writes(items, dest).Ok? <==> forall i :: 0 <= i < |items| ==> items[i].name.Text?
    ensures Writes(items, dest).Err? ==> Writes(items, dest).error == TypeError
    ensures Writes(items, dest).Ok? ==> |Writes(items, dest).value| == |items|
    ensures Writes(items, dest).Ok? ==> forall i :: 0 <= i < |items| ==>
      Writes(items, dest).value[i] == Written(dest + "/" + items[i].name.text, items[i].data)
    decreases |items|
  {
    if |items| > 0 {
      var init := items[..|items| - 1];
      WritesAll(init, dest);
      assert forall i :: 0 <= i < |init| ==> init[i] == items[i];
    }
  }

  /** One more entry with a text name adds one file, and the directories that
      opening it creates. */
  lemma WritesStep(items: seq<Item>, i: nat, dest: string, written: seq<Written>)
    requires i < |items| && items[i].name.Text? && Writes(items[..i], dest) == Ok(written)
    ensures var w := Written(dest + "/" + items[i].name.text, items[i].data);
      Writes(items[..i + 1], dest) == Ok(written + [w]) &&
      CreatedBy(written + [w]) == CreatedBy(written) + FileWriters.Created(w.file)
  {
    var w := Written(dest + "/" + items[i].name.text, items[i].data);
    assert items[..i + 1][..i] == items[..i];
    assert (written + [w])[..|written|] == written;
  }

  /** The extraction loop over `items`. A dry run only logs, so it writes
      nothing and creates no directory. */
  method ExtractItems(items: seq<Item>, dest: string, dry: bool, disk: FileWriters.Disk)
    returns (r: Result<seq<Written>>)
    modifies disk
    ensures dry ==> r == Ok([]) && disk.dirs == old(disk.dirs)
    ensures !dry ==> r == Writes(items, dest)
    ensures !dry && r.Ok? ==> disk.dirs == old(disk.dirs) + CreatedBy(r.value)
  {
    var written: seq<Written> := [];
    var i := 0;
    while i < |items|
      invariant 0 <= i <= |items|
      invariant dry ==> written == [] && disk.dirs == old(disk.dirs)
      invariant !dry ==> Writes(items[..i], dest) == Ok(written)
      invariant !dry ==> disk.dirs == old(disk.dirs) + CreatedBy(written)
    {
      if !dry {
        var name := items[i].name;
        if name.Number? {
          WritesAll(items, dest);
          return Err(TypeError);
        }
        var file := dest + "/" + name.text;
        var target := disk.Open(file);
        WritesStep(items, i, dest, written);
        written := written + [Written(file, items[i].data)];
      }
      i := i + 1;
    }
    assert items[..|items|] == items;
    r := Ok(written);
  }

  /** `extract_recursive(path, dest, dry)` on a file holding `data`: pick the
      decoder, construct it, walk it from the path, and extract the entries. The
      walk of a decoder is always empty, so nothing is ever written: the outcome
      is the sniffing or construction error, or success with no files. */
  method ExtractRecursive(data: seq<byte>, path: string, dest: string, dry: bool,
                          open: (Codecs.Codec, seq<byte>) -> Option<Error>, disk: FileWriters.Disk)
    returns (r: Result<seq<Written>>)
    modifies disk
    ensures Codecs.Sniff(data, 0, Codecs.Decoders()).Err? ==>
      r == Err(Codecs.Sniff(data, 0, Codecs.Decoders()).error)
    ensures Codecs.Sniff(data, 0, Codecs.Decoders()).Ok? ==>
      r == (var e := open(Codecs.Sniff(data, 0, Codecs.Decoders()).value, data);
            if e.Some? then Err(e.value) else Ok([]))
    ensures disk.dirs == old(disk.dirs)
  {
    var file := new ByteSource.BinFile(data, 0);
    var c := Codecs.GetDecoderForFile(file);
    if c.Err? {
      return Err(c.error);
    }
    var e := open(c.value, data);
    if e.Some? {
      return Err(e.value);
    }
    DecoderGivesNothing(Text(path), 0, open);
    var items := Walk(DecoderObj(), Text(path), 0, open);
    r := ExtractItems(items.value, dest, dry, disk);
  }
}
