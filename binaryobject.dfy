/** Debug rendering of record fields and the magic check of record objects
    (structreader/binaryobject.py). */
module BinaryObjects {
  import opened Wrappers
  import opened Bytes
  import opened StructFormat

  /** A byte as Python escapes it for display: the five named escapes, `\xHH`
      for anything else outside printable ASCII, the character itself otherwise. */
  function Escape(c: int): (r: string)
    ensures 0x20 <= c <= 0x7E && c != 0x5C ==> r == [c as char]
    ensures !(0x20 <= c <= 0x7E && c != 0x5C) ==> |r| >= 2 && r[0] == '\\'
  {
    if c == 0x00 then "\\0"
    else if c == 0x08 then "\\t"
    else if c == 0x0A then "\\n"
    else if c == 0x0D then "\\r"
    else if c == 0x5C then "\\\\"
    else if c < 0x20 || c > 0x7E then "\\x" + PercentX(c, 2)
    else [c as char]
  }

  /** An escape is printable ASCII throughout. */
  lemma EscapePrintable(c: int)
    ensures var r := Escape(c);
      forall i :: 0 <= i < |r| ==> 0x20 <= r[i] as int <= 0x7E
  {
    var r := Escape(c);
    if !(c == 0 || c == 8 || c == 0x0A || c == 0x0D || c == 0x5C) && (c < 0x20 || c > 0x7E) {
      var h := PercentX(c, 2);
      PercentXDigits(c, 2);
      assert r == "\\x" + h;
      forall i | 0 <= i < |r|
        ensures 0x20 <= r[i] as int <= 0x7E
      {
        if i >= 2 {
          assert r[i] == h[i - 2];
        }
      }
    }
  }

  /** Reads an escape back. */
  function Unescape(s: string): Option<int>
  {
    if |s| == 1 && s[0] != '\\' then Some(s[0] as int)
    else if s == "\\0" then Some(0x00)
    else if s == "\\t" then Some(0x08)
    else if s == "\\n" then Some(0x0A)
    else if s == "\\r" then Some(0x0D)
    else if s == "\\\\" then Some(0x5C)
    else if |s| >= 3 && s[..2] == "\\x" then Some(ParseSignedHex(s[2..]))
    else None
  }

  /** Escaping loses nothing: every code is recovered from its escape, so no
      two codes display alike. */
  lemma EscapeRoundTrip(c: int)
    ensures Unescape(Escape(c)) == Some(c)
  {
    var r := Escape(c);
    if !(c == 0 || c == 8 || c == 0x0A || c == 0x0D || c == 0x5C) && (c < 0x20 || c > 0x7E) {
      var h := PercentX(c, 2);
      assert r == "\\x" + h;
      assert r[..2] == "\\x" && r[2..] == h;
      PercentXRoundTrip(c, 2);
    }
  }

  /** Tab is not one of the named escapes. */
  lemma TabIsHex()
    ensures Escape(0x09) == "\\x09"
  {
    assert Hex(9, 2) == "09" by {
      assert Hex(0, 1) == "0";
    }
  }

  /** What `escape` is given: an integer, a string (passed through `ord`), or
      the bytes object a 'c' field unpacks to. */
  datatype EscapeArg = Code(n: int) | Character(s: string) | Blob(b: seq<byte>)

  /** `escape(c)`: `ord` needs a one-character string; a bytes object first
      compares unequal to every named code and then fails the `<` comparison
      with an integer. */
  function EscapeValue(a: EscapeArg): (r: Result<string>)
    ensures a.Code? ==> r == Ok(Escape(a.n))
    ensures a.Character? ==> (r.Ok? <==> |a.s| == 1)
    ensures a.Blob? ==> r == Err(TypeError)
  {
    match a
    case Code(n) => Ok(Escape(n))
    case Character(s) => if |s| == 1 then Ok(Escape(s[0] as int)) else Err(TypeError)
    case Blob(_) => Err(TypeError)
  }

  /** The escape a 'c' field was evidently meant to get: the code of its one byte. */
  function EscapeValueFixed(a: EscapeArg): (r: Result<string>)
    ensures a.Blob? ==> (r.Ok? <==> |a.b| == 1)
    ensures !a.Blob? ==> r == EscapeValue(a)
  {
    match a
    case Blob(b) => if |b| == 1 then Ok(Escape(b[0] as int)) else Err(TypeError)
    case _ => EscapeValue(a)
  }

  /** The value formatters of `_fmts`, and `str` for every other format. */
  datatype Formatter = Escaped | Byte | Half | Word | Long | Pointer | Real | Plain

  /** `_fmts.get(fmt, str)`: the lookup is on the whole format, count included. */
  function FormatterFor(fmt: string): (f: Formatter)
    ensures fmt != [] && IsDigit(fmt[0]) ==> f == Plain
    ensures |fmt| != 1 ==> f == Plain
  {
    if fmt == "c" then Escaped
    else if fmt == "b" || fmt == "B" then Byte
    else if fmt == "h" || fmt == "H" then Half
    else if fmt == "i" || fmt == "I" || fmt == "l" || fmt == "L" then Word
    else if fmt == "q" || fmt == "Q" || fmt == "n" || fmt == "N" then Long
    else if fmt == "P" then Pointer
    else if fmt == "f" || fmt == "d" then Real
    else Plain
  }

  /** `v >> 32` on a Python integer (rounds towards minus infinity). */
  function High32(v: int): int
  {
    v / 0x1_0000_0000
  }

  /** `v & 0xFFFFFFFF` on a Python integer (two's complement of any width). */
  function Low32(v: int): (r: nat)
    ensures r < 0x1_0000_0000
  {
    v % 0x1_0000_0000
  }

  /** An integer value through a formatter. `'%5.3f'` of an integer is its
      decimal with three zero decimals. */
  function Render(f: Formatter, v: int): string
  {
    match f
    case Escaped => Escape(v)
    case Byte => PercentD(v, 10) + " (      " + PercentX(v, 2) + ")"
    case Half => PercentD(v, 10) + " (    " + PercentX(v, 4) + ")"
    case Word => PercentD(v, 10) + " (" + PercentX(v, 8) + ")"
    case Long => PercentD(v, 10) + " (" + PercentX(High32(v), 8) + " " + PercentX(Low32(v), 8) + ")"
    case Pointer => "0x" + PercentX(v, 1)
    case Real => PadLeft(SignedDecimal(v) + ".000", 5)
    case Plain => SignedDecimal(v)
  }

  /** The `n` characters before the last of `p + h + [c]` are `h`. */
  lemma BeforeLast(p: string, h: string, c: char)
    ensures var s := p + h + [c];
      s[|s| - 1] == c && s[|s| - 1 - |h|..|s| - 1] == h
  {
  }

  /** A 32-bit field shows its value in exactly eight hex digits before the
      closing parenthesis, and those digits give the value back. */
  lemma WordShowsValue(v: int)
    requires 0 <= v < 0x1_0000_0000
    ensures var s := Render(Word, v);
      |s| >= 9 && s[|s| - 1] == ')' && ParseHex(s[|s| - 9..|s| - 1]) == v
  {
    Pow2Known();
    HexWidth(v, 8);
    HexRoundTrip(v, 8);
    BeforeLast(PercentD(v, 10) + " (", Hex(v, 8), ')');
  }

  lemma TwoGroups(p: string, a: string, b: string)
    requires |a| == 8 && |b| == 8
    ensures var s := p + a + " " + b + ")";
      |s| >= 18 && s[|s| - 1] == ')' && s[|s| - 10] == ' ' &&
      s[|s| - 18..|s| - 10] == a && s[|s| - 9..|s| - 1] == b
  {
  }

  lemma SplitWords(v: int)
    requires 0 <= v < 0x1_0000_0000_0000_0000
    ensures 0 <= High32(v) < 0x1_0000_0000
    ensures High32(v) * 0x1_0000_0000 + Low32(v) == v
  {
  }

  /** Two eight-digit hex groups after a prefix read back as the two words. */
  lemma TwoWordsRead(p: string, hi: nat, lo: nat)
    requires hi < 0x1_0000_0000 && lo < 0x1_0000_0000
    ensures var s := p + PercentX(hi, 8) + " " + PercentX(lo, 8) + ")";
      |s| >= 18 && s[|s| - 1] == ')' && s[|s| - 10] == ' ' &&
      ParseHex(s[|s| - 18..|s| - 10]) == hi && ParseHex(s[|s| - 9..|s| - 1]) == lo
  {
    Pow2Known();
    HexWidth(hi, 8);
    HexWidth(lo, 8);
    HexRoundTrip(hi, 8);
    HexRoundTrip(lo, 8);
    TwoGroups(p, Hex(hi, 8), Hex(lo, 8));
  }

  /** A 64-bit field shows its high and low words, which recombine to the value. */
  lemma LongShowsWords(v: int)
    requires 0 <= v < 0x1_0000_0000_0000_0000
    ensures var s := Render(Long, v);
      |s| >= 18 && s[|s| - 1] == ')' && s[|s| - 10] == ' ' &&
      ParseHex(s[|s| - 18..|s| - 10]) * 0x1_0000_0000 + ParseHex(s[|s| - 9..|s| - 1]) == v
  {
    SplitWords(v);
    TwoWordsRead(PercentD(v, 10) + " (", High32(v), Low32(v));
  }

  /** A field value as `fmtStructField` receives it. */
  datatype FieldValue = IntV(i: int) | BoolV(b: bool) | BytesV(bytes: seq<byte>)

  /** `repr` of one byte inside a bytes literal quoted with `quote`. */
  function ReprByte(b: byte, quote: char): string
  {
    if b as int == quote as int || b == 0x5C then ['\\', (b as int) as char]
    else if b == 0x09 then "\\t"
    else if b == 0x0A then "\\n"
    else if b == 0x0D then "\\r"
    else if b < 0x20 || b >= 0x7F then "\\x" + LowerHex(b as nat, 2)
    else [(b as int) as char]
  }

  function ReprBody(bs: seq<byte>, quote: char): string
  {
    if bs == [] then [] else ReprByte(bs[0], quote) + ReprBody(bs[1..], quote)
  }

  /** `str(b)` of a bytes object: `b'...'`, or `b"..."` when the bytes hold a
      single quote and no double quote. */
  function ReprBytes(bs: seq<byte>): string
  {
    var quote := if 0x27 in bs && 0x22 !in bs then '"' else '\'';
    "b" + [quote] + ReprBody(bs, quote) + [quote]
  }

  /** A value through a formatter: a bool is the integer 0 or 1 except that
      `str` names it; a bytes object only has `str`. */
  function RenderValue(f: Formatter, v: FieldValue): (r: Result<string>)
    ensures v.IntV? ==> r == Ok(Render(f, v.i))
    ensures v.BytesV? ==> (r.Ok? <==> f == Plain)
  {
    match v
    case IntV(i) => Ok(Render(f, i))
    case BoolV(b) =>
      if f == Plain then Ok(if b then "True" else "False")
      else Ok(Render(f, if b then 1 else 0))
    case BytesV(bs) =>
      if f == Escaped then EscapeValue(Blob(bs))
      else if f == Plain then Ok(ReprBytes(bs))
      else Err(TypeError)
  }

  /** `_fmtNames.get(code, code)`. */
  function TypeName(code: string): string
  {
    if code == "?" then "bool"
    else if code == "b" then " int8_t"
    else if code == "B" then "uint8_t"
    else if code == "c" then "char"
    else if code == "d" then "double"
    else if code == "f" then "float"
    else if code == "h" then " int16_t"
    else if code == "H" then "uint16_t"
    else if code == "i" then " int32_t"
    else if code == "I" then "uint32_t"
    else if code == "l" then " int32_t"
    else if code == "L" then "uint32_t"
    else if code == "n" then "ssize_t"
    else if code == "N" then " size_t"
    else if code == "P" then "void*"
    else if code == "q" then " int64_t"
    else if code == "Q" then "uint64_t"
    else if code == "s" then "char"
    else code
  }

  /** A field's declared type: a format string, or a type object with its
      class name, its `name`, and what its `tostring(val)` gives when it has one. */
  datatype FieldType = FmtString(fmt: string) | TypeObject(className: string, name: string, shown: Option<string>)

  /** The displayed value: text, or the value itself for a type object without `tostring`. */
  datatype Shown = Text(text: string) | AsIs(value: FieldValue)

  /** `fmtStructField(fmt, val)`: the formatter is chosen on the whole format,
      then the leading count is stripped (a format that is all digits runs off
      its end, an IndexError); the type gets a `[n]` suffix only for n > 1. */
  function FieldDisplay(typ: FieldType, val: FieldValue): Result<(string, Shown)>
  {
    match typ
    case TypeObject(cls, name, shown) =>
      if shown.Some? then Ok((cls, Text(shown.value))) else Ok((name, AsIs(val)))
    case FmtString(fmt) =>
      var f := FormatterFor(fmt);
      var (digits, code) := SplitCount(fmt);
      if code == [] then Err(IndexError)
      else
        var count := ParseDecimal(digits);
        var name := if count > 1 then TypeName(code) + "[" + Decimal(count) + "]" else TypeName(code);
        var text :- RenderValue(f, val);
        Ok((name, Text(text)))
  }

  /** `fmtStructField`, consuming the count digit by digit. */
  method FmtStructField(typ: FieldType, val: FieldValue) returns (r: Result<(string, Shown)>)
    ensures r == FieldDisplay(typ, val)
  {
    if typ.TypeObject? {
      if typ.shown.Some? {
        return Ok((typ.className, Text(typ.shown.value)));
      }
      return Ok((typ.name, AsIs(val)));
    }
    var fmt := typ.fmt;
    var f := FormatterFor(fmt);
    var count, i := LeadingCount(fmt);
    if i == |fmt| {
      return Err(IndexError);
    }
    var code := fmt[i..];
    var name := if count > 1 then TypeName(code) + "[" + Decimal(count) + "]" else TypeName(code);
    var text := RenderValue(f, val);
    if text.Err? {
      return Err(text.error);
    }
    return Ok((name, Text(text.value)));
  }

  /** The count at the head of a format, consumed digit by digit: it ends where
      `SplitCount` splits, and is the decimal value of the digits. */
  method LeadingCount(fmt: string) returns (count: nat, i: nat)
    ensures i <= |fmt| && SplitCount(fmt) == (fmt[..i], fmt[i..])
    ensures count == ParseDecimal(fmt[..i])
  {
    count := 0;
    i := 0;
    while i < |fmt| && IsDigit(fmt[i])
      invariant 0 <= i <= |fmt|
      invariant forall k :: 0 <= k < i ==> IsDigit(fmt[k])
      invariant count == ParseDecimal(fmt[..i])
    {
      assert fmt[..i + 1][..i] == fmt[..i];
      count := count * 10 + DigitValue(fmt[i]);
      i := i + 1;
    }
    CountSplit(fmt, i);
  }

  /** Where the leading digits end, `SplitCount` splits. */
  lemma {:induction false} CountSplit(s: string, i: nat)
    requires i <= |s| && (forall k :: 0 <= k < i ==> IsDigit(s[k])) && (i == |s| || !IsDigit(s[i]))
    ensures SplitCount(s) == (s[..i], s[i..])
    decreases i
  {
    if i > 0 {
      CountSplit(s[1..], i - 1);
      assert s[1..][..i - 1] == s[1..i] && s[..i] == [s[0]] + s[1..i];
    }
  }

  /** A counted format names the type with its count when the count exceeds
      one, and its value goes through `str`. */
  lemma CountedField(n: nat, code: char, val: FieldValue)
    requires !IsDigit(code) && !val.BoolV?
    ensures var r := FieldDisplay(FmtString(Decimal(n) + [code]), val);
      r.Ok? && r.value.0 == (if n > 1 then TypeName([code]) + "[" + Decimal(n) + "]" else TypeName([code])) &&
      r.value.1 == Text(if val.IntV? then SignedDecimal(val.i) else ReprBytes(val.bytes))
  {
    var fmt := Decimal(n) + [code];
    var d := Decimal(n);
    CountSplit(fmt, |d|);
    assert fmt[..|d|] == d && fmt[|d|..] == [code];
    DecimalRoundTrip(n);
    assert FormatterFor(fmt) == Plain;
    PlainDisplay(fmt, d, [code], val);
  }

  /** A field whose format has a type code after its count and is shown by `str`. */
  lemma PlainDisplay(fmt: string, digits: string, code: string, val: FieldValue)
    requires SplitCount(fmt) == (digits, code) && code != [] && FormatterFor(fmt) == Plain && !val.BoolV?
    ensures var count := ParseDecimal(digits);
      FieldDisplay(FmtString(fmt), val) ==
      Ok((if count > 1 then TypeName(code) + "[" + Decimal(count) + "]" else TypeName(code),
          Text(if val.IntV? then SignedDecimal(val.i) else ReprBytes(val.bytes))))
  {
  }

  /** A format made only of digits (or empty) has no type code: IndexError. */
  lemma AllDigitsFails(fmt: string, val: FieldValue)
    requires forall k :: 0 <= k < |fmt| ==> IsDigit(fmt[k])
    ensures FieldDisplay(FmtString(fmt), val) == Err(IndexError)
  {
    CountSplit(fmt, |fmt|);
  }

  /** As written, any 'c' field fails to display: its value is a one-byte
      bytes object, which `escape` cannot compare with an integer. */
  lemma CharFieldFails(b: byte)
    ensures FieldDisplay(FmtString("c"), BytesV([b])) == Err(TypeError)
  {
    CountSplit("c", 0);
  }

  /** `fmtStructField` with the corrected escape: a 'c' field shows its byte,
      printable, and the byte is recovered from the text. */
  function FieldDisplayFixed(typ: FieldType, val: FieldValue): Result<(string, Shown)>
  {
    if typ == FmtString("c") && val.BytesV? then
      var text :- EscapeValueFixed(Blob(val.bytes));
      Ok(("char", Text(text)))
    else FieldDisplay(typ, val)
  }

  lemma CharFieldFixed(b: byte)
    ensures var r := FieldDisplayFixed(FmtString("c"), BytesV([b]));
      r.Ok? && r.value.0 == "char" && r.value.1.Text? &&
      (forall i :: 0 <= i < |r.value.1.text| ==> 0x20 <= r.value.1.text[i] as int <= 0x7E) &&
      Unescape(r.value.1.text) == Some(b as int)
  {
    EscapeRoundTrip(b as int);
    EscapePrintable(b as int);
  }

  /** `_magic`: one allowed value, or a list or tuple of them. */
  datatype Allowed = Single(m: seq<byte>) | AnyOf(ms: seq<seq<byte>>)

  /** `_checkMagic`. */
  function CheckMagic(magic: seq<byte>, allowed: Allowed): (r: bool)
    ensures r <==> (allowed.Single? && magic == allowed.m) || (allowed.AnyOf? && magic in allowed.ms)
  {
    match allowed
    case Single(m) => magic == m
    case AnyOf(ms) => magic in ms
  }

  /** `BinaryObject.validate`: a class without `_magic` accepts everything; one
      with it rejects a magic that is not allowed with a TypeError. */
  function Validate(allowed: Option<Allowed>, magic: seq<byte>): (r: Result<bool>)
    ensures r.Ok? ==> r.value
    ensures r.Err? <==> allowed.Some? && !CheckMagic(magic, allowed.value)
    ensures r.Err? ==> r.error == TypeError
  {
    if allowed.Some? && !CheckMagic(magic, allowed.value) then Err(TypeError) else Ok(true)
  }
}
