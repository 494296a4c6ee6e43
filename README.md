# botwtools in Dafny

A model of the core of botwtools, a command-line toolkit that unpacks the
file formats of *The Legend of Zelda: Breath of the Wild*, with proofs about
it. The model covers:

- the Yaz0 decompressor;
- the SARC archive reader;
- the AAMP parameter-archive reader, in both of its copies;
- the FRES header, string table, name dictionary and index-group readers, and
  the COLLADA writer;
- the BCn texture decoder with its tile placement, and the PNG writer;
- the binary struct readers and the file readers they rest on;
- the XML element used for output;
- the file writer's path handling;
- the codec registry and the command-line walker.

Each module follows one group of source files. Code that works step by step
(the stream decoders, the readers' file positions, the writers, the element
and writer objects) is a class or a method with a loop. Each such method is
proved against a specification function. The pure parts are datatypes,
functions and lemmas.

Files and modules:

| file | module | source |
|---|---|---|
| wrappers.dfy | Wrappers | the Python exceptions the core raises, as error values |
| bytes.dfy | Bytes | byte and integer encodings, `str`, `'%X'` |
| byte_source.dfy | ByteSource | `BinFile`: seek, tell, read |
| struct_format.dfy | StructFormat | the `struct` format strings the core uses |
| filereader.dfy | FileReaders | filereader/__init__.py |
| codec_filereader.dfy | CodecFileReaders | codec/base/filereader.py |
| structreader.dfy | StructReaders | structreader/__init__.py |
| binaryobject.dfy | BinaryObjects | structreader/binaryobject.py |
| field_types.dfy | FieldTypes | codec/base/types.py, codec/fres/fres/types.py |
| yaz0.dfy | Yaz0 | codec/yaz0/decoder.py |
| sarc_records.dfy, sarc.dfy | SarcRecords, Sarc | codec/sarc/reader/*, codec/sarc/decoder.py |
| aamp_types.dfy, aamp.dfy | AampTypes, Aamp | codec/aamp/aamp/*, aamp2xml/aamp/* |
| crc32.dfy | Checksums | codec/aamp/aamp/crc32.py, aamp2xml/aamp/crc32.py |
| strtab.dfy | StringTables | codec/base/strtab.py |
| dict.dfy | NameDicts | codec/base/dict.py |
| idxgrp.dfy | IndexGroups | codec/fres/fres/idxgrp.py |
| fres_header.dfy | FresHeaders | codec/fres/fres/header.py, codec/fres/fres/rlt.py |
| element.dfy | XmlElements | myxml/element.py |
| collada.dfy | Collada | codec/fres/fres/fmdl/collada.py |
| bcn.dfy, bcn_image.dfy | Bcn, BcnImage | codec/bntx/pixelfmt/bc.py, codec/bntx/pixelfmt/bc/base.py |
| png.dfy | Png | codec/bntx/png.py |
| unicode.dfy | Unicode | UTF-8 encoding of names and text |
| filewriter.dfy | FileWriters | filewriter/__init__.py |
| codecs.dfy | Codecs | codec/__init__.py |
| app.dfy | App | app/__init__.py, __main__.py |

Some source files appear twice in the repository. codec/sarc/reader/__init__.py
duplicates file.py and sarc.py, __main__.py duplicates app/__init__.py, and
aamp2xml's crc32.py duplicates codec/aamp's. Each is modelled once, and its
rows below cite the copy that was modelled. The two AAMP readers differ, so
both are modelled.

Where the code and its documentation disagree, the model follows the code.
For example, the Yaz0 decoder's docstrings promise an EOF, but the source
indexes past the end of its input and fails instead. Likewise, the walker's
recursive listing would descend into archives, but as written it never does,
because no decoder object is listable.

## Model

| member | source | states |
|---|---|---|
| Yaz0.ParseHeader | codec/yaz0/decoder.py:42-44 | the '>4sI' header: a short input is a struct.error; the result is Ok exactly when the magic is Yaz0 or Yaz1; otherwise UnsupportedFileTypeError carries the magic; the size is the big-endian word after the magic |
| Yaz0.ByteAt | codec/yaz0/decoder.py:53-57 | `_nextByte` succeeds exactly when the position is inside the input, and then gives the byte there |
| Yaz0.Fetch | codec/yaz0/decoder.py:103-104 | a source position inside the output gives the byte there; one past the output fails; in checked mode, success means the position is inside |
| Yaz0.CopyRunShape | codec/yaz0/decoder.py:100-105 | a copied run appends exactly n bytes and keeps the output before it |
| Yaz0.RunLength | codec/yaz0/decoder.py:96-99 | the run length is 3 to 0x111: the high nibble plus 2, or else a third byte plus 0x12, which is read only when the nibble is zero |
| Yaz0.RefHeader | codec/yaz0/decoder.py:92-99 | a back-reference reads two or three bytes, a distance below 0x1000 and a length of 3 to 0x111, and succeeds exactly when those bytes exist |
| Yaz0.Literal | codec/yaz0/decoder.py:89-107 | a literal succeeds exactly when an input byte is left; it appends that byte and shifts the control value |
| Yaz0.BackRef | codec/yaz0/decoder.py:91-107 | a back-reference appends 3 to 0x111 bytes, keeps the earlier output and consumes two or three input bytes |
| Yaz0.Step | codec/yaz0/decoder.py:85-107 | one token appends 1 to 0x111 bytes, keeps the earlier output and advances the input |
| Yaz0.Run | codec/yaz0/decoder.py:85 | decoding stops only between tokens, so the output reaches the declared size and overshoots it by at most 0x110 bytes; it extends the output it started from |
| Yaz0.Decompress | codec/yaz0/decoder.py:42-107 | a decoded file has a valid header, and its length is between the declared size and that size plus 0x110 |
| Yaz0.BaseNameShape | codec/yaz0/decoder.py:40 | `os.path.split`'s tail is the part of the path after its last '/' and holds no '/' |
| Yaz0.OutputNameShape | codec/yaz0/decoder.py:40-41 | the stream's name is the base name followed by ".out" |
| Yaz0.LiteralRoundTrip | codec/yaz0/decoder.py:81-107 | any payload written as an all-literal Yaz0 file decompresses back to itself, in both modes |
| Yaz0.RunReadsFrom | codec/yaz0/decoder.py:53-107 | decoding never reads input before the current position |
| Yaz0.ReservedIgnored | codec/yaz0/decoder.py:42-45 | bytes 8 to 15 of the header never affect the result, because the data is read from offset 16 |
| Yaz0.OverlapRepeats | codec/yaz0/decoder.py:100-105 | a run longer than its distance repeats the bytes it has just written: 'A' followed by a length-3 copy at distance 1 decodes to "AAAA" |
| Yaz0.WrapAsWritten | codec/yaz0/decoder.py:95-104 | as written, a literal 'A' followed by a back-reference at distance 2, one byte before the output's start, decodes to "AAAA": the negative index reads the output list from its end |
| Yaz0.WrapChecked | codec/yaz0/decoder.py:95-104 | checked, the same file is an IndexError |
| Yaz0.RefBeforeStart | codec/yaz0/decoder.py:95-104 | in checked mode, a back-reference that reaches before the start of the output is an IndexError |
| Yaz0.BackRefInRange | codec/yaz0/decoder.py:95-105 | a back-reference that decodes in checked mode stays within the output, and then both modes agree on it |
| Yaz0.CheckedAgrees | codec/yaz0/decoder.py:81-107 | wherever the checked decoder succeeds, the decoder as written gives the same bytes |
| Yaz0.Yaz0Stream.Open | codec/yaz0/decoder.py:37-49 | the constructor fails exactly as the header parse does; otherwise the window invariant holds, the declared size is the header's, reading starts at offset 16 and the output is empty |
| Yaz0.Yaz0Stream.FromHeader | codec/yaz0/decoder.py:38-49 | after a parsed header the stream reads from offset 16, has output nothing, expects the header's size and is named after the input |
| Yaz0.Yaz0Stream.NextByte | codec/yaz0/decoder.py:53-57 | the byte is ByteAt at the old position, and the position advances only on success |
| Yaz0.Yaz0Stream.OutputByte | codec/yaz0/decoder.py:60-78 | the byte is appended to the output; the window keeps only the last 0x1111 bytes and stays the tail of the output |
| Yaz0.Yaz0Stream.WindowByte | codec/yaz0/decoder.py:103-104 | reading `_output[p]` from the trimmed window gives the byte that the whole output holds at that position (as written, a negative position included), because a back-reference reaches at most 0x1000 bytes back and the window keeps 0x1111 |
| Yaz0.Yaz0Stream.CopyOne | codec/yaz0/decoder.py:102-105 | one pass of the copy loop appends the byte that the run as written copies next, and the rest of the run carries on from the next position; a failure is the run's own error |
| Yaz0.Yaz0Stream.LiteralToken | codec/yaz0/decoder.py:89-90 | the literal branch agrees with Literal: the same byte, error and input position |
| Yaz0.Yaz0Stream.ReadRef | codec/yaz0/decoder.py:92-99 | reading the two or three back-reference bytes agrees with RefHeader in distance, length, error and new input position, and leaves the output alone |
| Yaz0.Yaz0Stream.BackRefToken | codec/yaz0/decoder.py:91-105 | the back-reference branch agrees with BackRef as written: the same bytes, error and input position |
| Yaz0.Yaz0Stream.CopyBack | codec/yaz0/decoder.py:100-105 | the copy loop gives exactly the specification's CopyRun as written, in its output and its errors |
| Yaz0.Yaz0Stream.Token | codec/yaz0/decoder.py:86-107 | one pass of the generator agrees with Step as written, in its bytes, its errors and its new position |
| Yaz0.Yaz0Stream.Read | codec/yaz0/decoder.py:110-122 | `read()` yields exactly what Run as written decodes from the current state, or its error |
| Yaz0.Yaz0Decoder.IterObjects | codec/yaz0/decoder.py:143-148 | the decoder holds one object, its stream |
| ByteSource.WhenceCode | filereader/__init__.py:26-58 | the names "start", "cur" and "end" become 0, 1 and 2; any other name and every number pass through unchanged |
| ByteSource.SeekTarget | filereader/__init__.py:47-59 | a seek lands at the offset from the start, the current position or the end for whence 0, 1 and 2; it fails on any other whence and on a target before the start of the file |
| ByteSource.ReadSlice | structreader/__init__.py:73 | `file.read(n)` returns the bytes at the position, at most `n` of them, exactly `n` when the file holds them, everything left for a negative `n`, and nothing at or past the end (also filereader/__init__.py:85) |
| ByteSource.CStringShape | structreader/__init__.py:101-110 | a NUL-terminated read returns exactly when a NUL follows the position (otherwise it never returns: `NoTerminator`); it returns the bytes before the first NUL, none of them NUL |
| ByteSource.CStringPrefix | structreader/__init__.py:104-107 | the string read ends at the first NUL: bytes after it have no effect |
| ByteSource.BinFile.Seek | filereader/__init__.py:58-59 | seeking moves to SeekTarget's position, and a failed seek leaves the position alone |
| ByteSource.BinFile.Tell | filereader/__init__.py:127-129 | `tell` returns the current position |
| ByteSource.BinFile.Read | structreader/__init__.py:73 | `read(n)` returns ReadSlice's bytes and moves past them (also filereader/__init__.py:85) |
| StructFormat.SplitCount | structreader/__init__.py:36-61 | the leading digits of a format item are split off as its count, the rest starts with a non-digit |
| StructFormat.ParseFormat | structreader/__init__.py:36-61 | a parsed format string holds only valid codes; anything else is a struct.error |
| StructFormat.UnpackFrom | structreader/__init__.py:61 | `struct.unpack_from` succeeds exactly when the buffer holds `calcsize` bytes from the offset, and yields one value per item |
| StructFormat.Unpack | filereader/__init__.py:80 | `struct.unpack` succeeds exactly when the data is exactly `calcsize` bytes long, and yields one value per item |
| StructFormat.ParseSingle | structreader/__init__.py:36-61 | a format of one code, with or without a '<' prefix, is one item of count 1 in little-endian order |
| StructFormat.UnpackSingle | structreader/__init__.py:61 | one unsigned code unpacks to the little-endian value of its `calcsize` bytes |
| StructFormat.DecodeUnsigned | structreader/__init__.py:61 | every code that is not signed, boolean, a character or a float decodes as an unsigned little-endian value |
| StructFormat.UnpackU16 | structreader/__init__.py:61 | "<H" and "H" unpack to the 16-bit little-endian value at the offset |
| StructFormat.UnpackU32 | structreader/__init__.py:61 | "<I" and "I" unpack to the 32-bit little-endian value at the offset |
| StructFormat.LittleEndianBound | structreader/__init__.py:61 | an unsigned little-endian value of `n` bytes is below 2^(8n) |
| StructReaders.FieldSize | structreader/__init__.py:35-38 | a field's size is `calcsize` of its format, and fails exactly when the format is invalid |
| StructReaders.LayoutWithOk | structreader/__init__.py:33-52 | the constructor's loop builds a table exactly when every size is defined and no name repeats |
| StructReaders.LayoutWithDescribes | structreader/__init__.py:39-52 | entry `i` of the table describes definition `i`, at the running offset |
| StructReaders.LayoutOk | structreader/__init__.py:27-53 | `StructReader(*structDef)` succeeds exactly when every format is a valid struct format and no two fields share a name ("Duplicate field name") |
| StructReaders.LayoutDescribes | structreader/__init__.py:39-52 | each entry holds its field's name, type and `calcsize`, and its offset is the sum of the sizes before it |
| StructReaders.FieldValue | structreader/__init__.py:60-64 | a field given by a type object fails with NameError, because `_unpack` calls it with the undefined name `file` |
| StructReaders.FieldValueOk | structreader/__init__.py:60-62 | a field given by a format string reads exactly when the buffer holds it from the offset |
| StructReaders.UnpackWithKeys | structreader/__init__.py:57-67 | an unpacked record has a value under every field's name |
| StructReaders.UnpackFieldsOk | structreader/__init__.py:55-67 | `_unpack` succeeds exactly when no field is given by a type object and the buffer holds the whole record, and then every field has a value |
| StructReaders.StructReader.New | structreader/__init__.py:27-53 | a reader exists exactly when its table does; it keeps the definition, the table in order and by name, and the record size, the sum of the field sizes |
| StructReaders.StructReader.Build | structreader/__init__.py:31-53 | the constructor's loop, with any sizing function, produces the table and size the layout function describes |
| StructReaders.StructReader.Unpack | structreader/__init__.py:55-67 | `_unpack` is the record unpacking function over the ordered fields |
| StructReaders.StructReader.UnpackFromFile | structreader/__init__.py:71-73 | `_unpackFromFile` reads `_dataSize` bytes, or what is left of them, and unpacks them |
| StructReaders.ReadFromFile | structreader/__init__.py:79-91 | `readFromFile` seeks when an offset is given, notes the position and unpacks the record there |
| StructReaders.RecordSpecAt | structreader/__init__.py:81-85 | once the seek has landed, the record is what is unpacked from the bytes read there, and the position moves past them |
| StructReaders.RecordComplete | structreader/__init__.py:79-91 | a record whose bytes are all in the file is read at the current position, leaves the position after it, and has every field |
| StructReaders.ReadString | structreader/__init__.py:101-110 | `readString` reads the byte string that the NUL-terminated reading function describes |
| StructReaders.ReadBounded | structreader/__init__.py:104-107 | with a limit, the loop reads at most that many bytes and stops at a NUL |
| StructReaders.ReadUntilNul | structreader/__init__.py:104-107 | with no limit, the loop returns the bytes before the first NUL and consumes the NUL; without a NUL it never returns, since `read(1)` gives `b''` at the end of the file (`NoTerminator`) |
| StructReaders.ReadStringWithLength | structreader/__init__.py:113-125 | `readStringWithLength` is the length-prefixed reading function |
| StructReaders.FormatReadOnce | filereader/__init__.py:76-86 | a single format read is the value unpacked from the bytes there |
| StructReaders.ReadU16 | filereader/__init__.py:76-86 | reading "<H" gives the 16-bit little-endian value and moves 2 bytes |
| StructReaders.WithLengthU16 | structreader/__init__.py:118-122 | with a "<H" prefix the string is the `n` bytes after the prefix, where `n` is the prefix's value, and the file is left after them |
| StructReaders.WithLengthAfterPrefix | structreader/__init__.py:120-122 | once the prefix has been read as `n`, the string is the next `n` bytes |
| StructReaders.String16Agrees | structreader/__init__.py:113-125 | the general reader with "<H" and an offset agrees with the 16-bit-length string reader |
| StructReaders.ReadString16 | structreader/__init__.py:113-125 | `readStringWithLength(file, '<H', offset)` is the 16-bit-length string reader |
| BinaryObjects.Escape | structreader/binaryobject.py:19-27 | printable ASCII other than the backslash shows as itself; every other code shows as an escape starting with a backslash |
| BinaryObjects.EscapePrintable | structreader/binaryobject.py:19-27 | every escape is printable ASCII throughout |
| BinaryObjects.EscapeRoundTrip | structreader/binaryobject.py:19-27 | escaping loses nothing: the code is read back from its escape, so no two codes display alike (0x08 is the one shown as `\t`) |
| BinaryObjects.TabIsHex | structreader/binaryobject.py:22-26 | tab, 0x09, is not special-cased and shows as `\x09` |
| BinaryObjects.EscapeValue | structreader/binaryobject.py:20 | an integer is escaped; a string goes through `ord` and works only with one character; a bytes object fails with TypeError |
| BinaryObjects.EscapeValueFixed | structreader/binaryobject.py:19-27 | the corrected escape accepts a one-byte bytes object and escapes its byte |
| BinaryObjects.FormatterFor | structreader/binaryobject.py:30-77 | the formatter is looked up on the whole format, so a counted or longer format always goes through `str` |
| BinaryObjects.Low32 | structreader/binaryobject.py:43-46 | `v & 0xFFFFFFFF` is below 2^32 |
| BinaryObjects.WordShowsValue | structreader/binaryobject.py:36-39 | a 32-bit field shows its value as exactly eight hex digits before the closing parenthesis, and they give the value back |
| BinaryObjects.TwoWordsRead | structreader/binaryobject.py:43-46 | two eight-digit hex groups read back as the two words |
| BinaryObjects.LongShowsWords | structreader/binaryobject.py:43-46 | a 64-bit field shows its high and low words, which recombine to the value |
| BinaryObjects.RenderValue | structreader/binaryobject.py:30-84 | an integer goes through its formatter; a bytes object is shown only by `str` and fails with any other formatter |
| BinaryObjects.FmtStructField | structreader/binaryobject.py:71-84 | `fmtStructField`, with its digit-consuming loop, gives the field display the display function defines |
| BinaryObjects.LeadingCount | structreader/binaryobject.py:78-81 | the loop consumes exactly the leading digits, and the count is their decimal value |
| BinaryObjects.CountSplit | structreader/binaryobject.py:79-82 | the loop stops where the format's leading digits end |
| BinaryObjects.CountedField | structreader/binaryobject.py:77-84 | a counted format names its type with the count in brackets only when the count exceeds one, and its value goes through `str` |
| BinaryObjects.PlainDisplay | structreader/binaryobject.py:77-84 | a field shown by `str` displays the type name (with `[n]` for a count above one) and the value's `str` |
| BinaryObjects.AllDigitsFails | structreader/binaryobject.py:79 | a format made only of digits, or empty, runs off its end: IndexError |
| BinaryObjects.CharFieldFails | structreader/binaryobject.py:26-31 | a 'c' field's value is a one-byte bytes object, which `escape` cannot compare with an integer: TypeError |
| BinaryObjects.CharFieldFixed | structreader/binaryobject.py:19-31 | with the corrected escape, a 'c' field is named "char", shown printable, and its byte is read back from the text |
| BinaryObjects.CheckMagic | structreader/binaryobject.py:126-130 | a magic passes exactly when it equals the one allowed value or is one of an allowed list or tuple |
| BinaryObjects.Validate | structreader/binaryobject.py:115-123 | a class without `_magic` accepts everything; one with it raises TypeError exactly when the magic is not allowed |
| FileReaders.Unwrap | filereader/__init__.py:81 | an unpacked record is a single value exactly when it has one value, and a tuple of all of them otherwise |
| FileReaders.UnpackSized | filereader/__init__.py:78-80 | `struct.unpack` accepts exactly the chunks of `calcsize(f)` bytes |
| FileReaders.RawReadsConsecutive | filereader/__init__.py:84-85 | raw reads of `n` bytes that fit all succeed, return `count` items and leave the position `count·n` further on |
| FileReaders.RawReadsHead | filereader/__init__.py:84-85 | the first of several raw reads is the `n` bytes at the position, and the rest follow from `n` bytes on |
| FileReaders.RawReadsItem | filereader/__init__.py:84-85 | raw item `i` is the `n` bytes at `pos + i·n` |
| FileReaders.RecordsInBounds | filereader/__init__.py:76-82 | record reads succeed exactly when all `count` records lie inside the file, and then return `count` items and move `count` records on |
| FileReaders.RecordsHead | filereader/__init__.py:79-82 | the first of several records is unpacked at the position, and the rest follow one record on |
| FileReaders.RecordsItem | filereader/__init__.py:79-82 | record `i` is unpacked from the bytes at `pos + i·size`, with a single value unwrapped |
| FileReaders.RecordsCount | filereader/__init__.py:79-82 | successful record reads return exactly `count` items |
| FileReaders.FormatReadsInBounds | filereader/__init__.py:76-82 | formatted reads succeed exactly when all `count` records of `calcsize(fmt)` bytes lie inside the file |
| FileReaders.FormatReadsItem | filereader/__init__.py:76-82 | formatted record `i` unpacks the `calcsize(fmt)` bytes at `pos + i·calcsize(fmt)` |
| FileReaders.RawReadsCount | filereader/__init__.py:84-85 | successful raw reads return exactly `count` items |
| FileReaders.ItemsCount | filereader/__init__.py:75-85 | successful reads of either kind return exactly `count` items |
| FileReaders.ReadCountRule | filereader/__init__.py:72-87 | a negative count is a ValueError and a zero count an empty list, neither reading anything; several raw reads that fit give a list with chunk `i` the `n` bytes `i` chunks on |
| FileReaders.FileReader.constructor | filereader/__init__.py:32-38 | the reader measures the size by seeking to the end and puts the position back where it was |
| FileReaders.FileReader.Seek | filereader/__init__.py:47-59 | `seek` maps the whence names to codes and moves as the file's seek does; a failed seek leaves the position alone |
| FileReaders.FileReader.Tell | filereader/__init__.py:127-129 | `tell` returns the position |
| FileReaders.FileReader.ReadItems | filereader/__init__.py:75-85 | the collecting loop returns the items the item-reading function defines and leaves the position after them |
| FileReaders.FileReader.Read | filereader/__init__.py:62-87 | `read(size, pos, count)` is the reading function: seek first when a position is given, reject a negative count, an empty list for zero, the item itself for one and a list otherwise |
| FileReaders.FileReader.ReadUntilNul | filereader/__init__.py:112-117 | the scan returns the bytes before the first NUL and consumes it; with no NUL it never returns, since `read(1)` gives `b''` at the end of the file (`NoTerminator`) |
| FileReaders.FileReader.ReadString | filereader/__init__.py:90-124 | `readString` is the string-reading function: up to a NUL, a fixed number of bytes, or a length read first; a struct.error on the length gives None |
| FileReaders.LengthOf | filereader/__init__.py:111-119 | a length read with a format is usable exactly when it is a single integer (or bool) |
| FileReaders.RawOnce | filereader/__init__.py:84-86 | `read(n)` with count 1 gives the bytes at the position as one item |
| FileReaders.ReadBytes | filereader/__init__.py:84-86 | a raw read returns the bytes at the position and moves past them |
| CodecFileReaders.BoundedShape | codec/base/filereader.py:73-77 | the bounded loop returns at most `maxlen` bytes, none of them NUL, taken in order from the position |
| CodecFileReaders.BoundedAgreesWithCString | codec/base/filereader.py:73-77 | with a limit longer than the string, the bounded loop is the plain NUL-terminated read |
| CodecFileReaders.FileReader.Seek | codec/base/filereader.py:31-43 | `seek` maps the whence names to codes and moves as the file's seek does |
| CodecFileReaders.FileReader.Read | codec/base/filereader.py:46-58 | `read(size, pos)` seeks when a position is given, then reads once; a format read returns the whole unpacked tuple, never unwrapped |
| CodecFileReaders.FileReader.ReadBounded | codec/base/filereader.py:74-77 | the loop with a limit is the bounded reading function |
| CodecFileReaders.FileReader.ReadUntilNul | codec/base/filereader.py:74-77 | the loop with no limit returns the bytes before the first NUL; with no NUL it never returns, since `read(1)` gives `b''` at the end of the file (`NoTerminator`) |
| CodecFileReaders.FileReader.ReadString | codec/base/filereader.py:61-81 | `readString(pos, maxlen)` is the string-reading function, left undecoded |
| FieldTypes.OffsetSizeAgrees | codec/base/types.py:42-55 | the declared size of Offset (4) and Offset64 (8) is `calcsize` of its format 'I' or 'Q' (also codec/fres/fres/types.py:27-36) |
| FieldTypes.ReadOffset | codec/base/types.py:38-39 | an offset is read exactly when the buffer holds its bytes, and is their unsigned little-endian value; a short buffer is a struct.error (also codec/fres/fres/types.py:23-24) |
| FieldTypes.OffsetUnpacks | codec/base/types.py:38-55 | 'I' and 'Q' parse as single unsigned codes and unpack to the little-endian value at the offset |
| FieldTypes.OffsetTextShowsValue | codec/base/types.py:47-48 | an offset's text is a decimal in ten columns and a hexadecimal of at least eight digits in parentheses, and both give the offset back |
| FieldTypes.StrOffsText | codec/base/types.py:95-99 | a resolved string is shown in double quotes, an unresolved field as its offset text; undecoded bytes fail with TypeError |
| FieldTypes.DefaultStrOffs | codec/base/types.py:66-69 | `StrOffs(name)` defaults to a '<H' length prefix and shift-jis (also codec/fres/fres/types.py:48-51) |
| FieldTypes.ReadStrSpec | codec/base/types.py:77-93 | `readStr` succeeds exactly when the offset is not negative and the string there can be read; it then returns those bytes, marked decoded exactly when the field has an encoding, and puts the file position back (also codec/fres/fres/types.py:59-75) |
| FieldTypes.NulTerminatedField | codec/base/types.py:81-82 | a NUL-terminated field reads when a NUL follows the offset, and gives the bytes up to it; without one the read never returns (`NoTerminator`) |
| FieldTypes.DefaultReadsCountedString | codec/base/types.py:85-90 | with the defaults, the string is the `n` bytes after a 16-bit little-endian length `n`, decoded as shift-jis, and the position is unchanged |
| FieldTypes.SingleRawRead | codec/base/types.py:83-84 | a fixed-length field's `file.read(n)` on a FileReader gives the raw bytes at the position |
| FieldTypes.ReadStr | codec/base/types.py:77-93 | `readStr` on a FileReader is the string-field reading function |
| FieldTypes.NewPadding | codec/base/types.py:104-107 | a padding field has the size it was given |
| FieldTypes.PaddingNamesUnique | codec/base/types.py:105 | two padding instances never share a name |
| FieldTypes.PaddingFormatSize | codec/base/types.py:107 | a padding field's format '%dB' covers exactly its size |
| FieldTypes.PaddingLogOk | codec/base/types.py:109-115 | the padding check fails only by running off the buffer |
| FieldTypes.PaddingLogExact | codec/base/types.py:110-114 | the padding check logs exactly the non-zero bytes, in order, each with its index |
| FieldTypes.ReadPadding | codec/base/types.py:109-115 | the padding loop returns the messages the padding-check function defines and the field's value is None |
| FieldTypes.FresPaddingAgrees | codec/fres/fres/types.py:93-99 | the FRES padding check passes exactly when the general one logs nothing; a byte the general one would log is a NameError there, as `log` is undefined |
| FieldTypes.ReadFresPadding | codec/fres/fres/types.py:93-99 | the FRES padding loop is the FRES check function |
| FieldTypes.IntAnd | codec/base/types.py:130 | `a & m` with a non-negative mask never exceeds the mask |
| FieldTypes.FlagMap | codec/base/types.py:128-131 | the flag dict has `_raw` and every flag name, each flag true exactly when all the bits of its mask are set; a flag named `_raw` replaces the raw value |
| FieldTypes.FlagsSet | codec/base/types.py:129-130 | each flag is true exactly when all the bits of its mask are set |
| FieldTypes.ReadFlags | codec/base/types.py:126-131 | `Flags.read` succeeds exactly when the format yields a first value, and that value is an integer whenever there is a flag to test; it then builds the flag dict from it |
| FieldTypes.ZeroMaskIsSet | codec/base/types.py:130 | a flag whose mask is zero is always set |
| FieldTypes.SingleBitMask | codec/base/types.py:130 | `v & 2^k` keeps bit `k` of `v` and clears the rest |
| FieldTypes.SingleBitFlag | codec/base/types.py:130 | a flag with mask 2^k reports bit `k` |
| SarcRecords.RecordAt | structreader/__init__.py:71-73 | `_unpackFromFile` succeeds exactly when the record's bytes are all there, and then moves past them; a short read is a struct.error that leaves the position at the end of the data |
| SarcRecords.ReadRecord | structreader/__init__.py:71-73 | reading a record from the open file gives RecordAt's result and position |
| SarcRecords.HeaderRoundTrip | codec/sarc/reader/header.py:21-29 | every SARC header field is read back from the offset and width it is stored at |
| SarcRecords.ValidateHeader | codec/sarc/reader/header.py:31-45 | the header passes exactly when the magic is SARC, the version is 0x0100 and the byte-order mark is FEFF or FFFE; the three asserts fail in that order, each with its own message; one warning each is logged for a header length other than 0x14 and a non-zero reserved field |
| SarcRecords.HeaderAt | structreader/__init__.py:79-91 | a header that is read was fully present, was decoded from its bytes, passed validation and leaves the position after it |
| SarcRecords.ReadHeader | structreader/__init__.py:79-91 | `Header().readFromFile(file)` gives HeaderAt's result and position |
| SarcRecords.SfatHeaderRoundTrip | codec/sarc/reader/sfatheader.py:21-26 | every SFAT header field is read back from where it is stored; node_count is a u16 |
| SarcRecords.ValidateSfatHeader | codec/sarc/reader/sfatheader.py:28-38 | only the SFAT magic is asserted; a header length other than 0xC and a hash key other than 0x65 are only logged |
| SarcRecords.SfatHeaderAt | codec/sarc/reader/sfatheader.py:19-38 | an SFAT header that is read was present, decoded from its bytes, has the SFAT magic and leaves the position after it |
| SarcRecords.ReadSfatHeader | codec/sarc/reader/sfatheader.py:19-38 | `SFATHeader().readFromFile(file)` gives SfatHeaderAt's result and position |
| SarcRecords.NameOffset | codec/sarc/reader/sfatnode.py:31-34 | a node has a stored name exactly when attribute bit 24 is set; its offset is the low 16 bits times 4, a multiple of 4 below 0x40000 |
| SarcRecords.AttrMasks | codec/sarc/reader/sfatnode.py:31-32 | `attrs & 0x01000000` is bit 24 and `attrs & 0xFFFF` is the low 16 bits |
| SarcRecords.NameOffsetIgnoresMiddleBits | codec/sarc/reader/sfatnode.py:31-34 | attribute bits other than bit 24 and the low 16 do not affect the name offset |
| SarcRecords.NodeRoundTrip | codec/sarc/reader/sfatnode.py:21-35 | the four node fields read back, and the name offset is the one the attributes give |
| SarcRecords.ValidateNode | codec/sarc/reader/sfatnode.py:38-41 | a node is accepted exactly when its data does not end before it starts; otherwise the assert fails with "File size is negative" |
| SarcRecords.NodeAt | codec/sarc/reader/sfatnode.py:28-35 | a node that is read was present, was decoded from its bytes, has a non-negative size and leaves the position after it |
| SarcRecords.ReadNode | codec/sarc/reader/sfatnode.py:28-35 | `SFATNode().readFromFile(file)` gives NodeAt's result and position |
| SarcRecords.NameTableHeaderRoundTrip | codec/sarc/reader/nametblhdr.py:21-25 | every SFNT header field is read back from where it is stored |
| SarcRecords.ValidateNameTableHeader | codec/sarc/reader/nametblhdr.py:27-32 | only the SFNT magic is asserted; the field compared with 8 is reserved06, and a mismatch is only logged |
| SarcRecords.NameTableHeaderLenIgnored | codec/sarc/reader/nametblhdr.py:27-32 | header_len plays no part in validation |
| SarcRecords.NameTableHeaderAt | codec/sarc/reader/nametblhdr.py:19-32 | a name-table header that is read was present, has the SFNT magic and leaves the position after it |
| SarcRecords.ReadNameTableHeader | codec/sarc/reader/nametblhdr.py:19-32 | `NameTableHeader().readFromFile(file)` gives NameTableHeaderAt's result and position |
| SarcRecords.NameText | codec/sarc/reader/sarc.py:55-57 | a numbered name starts with "file"; a stored name has one character per byte |
| SarcRecords.MakeEntry | codec/sarc/reader/file.py:18-25 | a File copies the node's hash, attributes and data bounds and keeps its name; a validated node gives a non-negative size |
| SarcRecords.EntryRead | codec/sarc/reader/file.py:27-33 | an offset at or past the entry's size reads nothing and leaves the file position alone |
| SarcRecords.DefaultRead | codec/sarc/reader/file.py:27-33 | with the default arguments an entry reads exactly the archive bytes from data_offset + data_start to data_offset + data_end |
| SarcRecords.NegativeSizeReadsRest | codec/sarc/reader/file.py:29-33 | a negative size reads the rest of the entry from the offset |
| SarcRecords.SizeNotClamped | codec/sarc/reader/file.py:29-33 | a non-negative size is not clamped to the entry, so the read may run into whatever follows it |
| SarcRecords.NegativeTargetFails | codec/sarc/reader/file.py:32 | an offset far enough before the entry gives a negative seek target, which `seek` refuses with ValueError |
| Sarc.Repeat | codec/sarc/reader/sarc.py:46-47 | a loop of `count` reads yields at most `count` records, and exactly `count` when none of them fails |
| Sarc.RepeatFixed | codec/sarc/reader/sarc.py:46-47 | with records of one fixed size, record `k` of the loop is the one stored `k` records after the start |
| Sarc.Files | codec/sarc/reader/sarc.py:54-58 | the naming loop yields at most one entry per remaining node, and exactly one each when no name read fails |
| Sarc.FileAt | codec/sarc/reader/sarc.py:54-58 | entry `k` is made from node `k` and the name read for that node's index |
| Sarc.ParseHead | codec/sarc/reader/sarc.py:32-43 | a successful read took the header at the start, the SFAT header 0x14 bytes later, and the archive is big-endian |
| Sarc.ParseNodes | codec/sarc/reader/sarc.py:46-47 | a successful read appended exactly `node_count` nodes to those already there |
| Sarc.ParseNodeAt | codec/sarc/reader/sarc.py:46-47 | node `k` of a successful read is the record 0x20 + 16·k bytes after the start |
| Sarc.ParseNames | codec/sarc/reader/sarc.py:50-58 | the SFNT header follows the nodes, the name table starts right after it, and one entry is appended per node |
| Sarc.ParseKeeps | codec/sarc/reader/sarc.py:26-58 | a read, successful or not, only appends to the node and file lists |
| Sarc.ParseFileAt | codec/sarc/reader/sarc.py:54-58 | entry `k` of a successful read copies node `k` and carries the name read for it from the name table |
| Sarc.NameAt | codec/sarc/reader/sarc.py:55-67 | a node without a stored name is called "file" followed by its index and moves nothing; a stored name is the NUL-terminated string at the name table offset plus the node's offset, and is missing only when no NUL follows, where the source never returns (`NoTerminator`) |
| Sarc.Archive.ReadName | codec/sarc/reader/sarc.py:62-67 | `_readName` seeks to the name table offset plus `offs` and reads a NUL-terminated string from there |
| Sarc.Archive.ReadNodes | codec/sarc/reader/sarc.py:46-47 | the node loop appends the nodes read one after another from the file position and changes nothing else |
| Sarc.Archive.NameFiles | codec/sarc/reader/sarc.py:54-58 | the naming loop appends one entry per node, in node order, and changes nothing else |
| Sarc.Archive.ReadFromFile | codec/sarc/reader/sarc.py:30-60 | `readFromFile` sets the file, and its outcome, new attributes and file position are those of the reading function |
| Sarc.Archive.ReadTables | codec/sarc/reader/sarc.py:34-58 | after the header: the SFAT header, the byte-order assert, the nodes and the names, as the reading function says |
| Sarc.Archive.ReadNames | codec/sarc/reader/sarc.py:50-58 | after the nodes: the SFNT header, whose end is the name table offset, then the entries |
| Sarc.Archive.ReadEntry | codec/sarc/reader/file.py:27-33 | reading an entry reads from the archive's own file, relative to the header's data offset |
| Sarc.ReadLayout | codec/sarc/reader/sarc.py:30-51 | a successful read consumed, in order, a 0x14-byte header, a 0xC-byte SFAT header, `node_count` 16-byte nodes and an 8-byte SFNT header, all inside the data; the name table starts after them |
| Sarc.ReadNodes | codec/sarc/reader/sarc.py:46-47 | node `k` is decoded from the 16 bytes at 0x20 + 16·k and its data does not end before it starts (also codec/sarc/reader/sfatnode.py:38-41) |
| Sarc.ReadFiles | codec/sarc/reader/sarc.py:54-58 | every node, including any from an earlier read, gets one entry in node order, which copies the node and is named by the naming rule with the node's index |
| Sarc.FreshRead | codec/sarc/reader/sarc.py:26-60 | on a new `SARC()` a successful read gives exactly `node_count` files, file `k` made from node `k`, none of negative size |
| Sarc.ReadTwice | codec/sarc/reader/sarc.py:47-58 | reading twice into the same object names the first read's nodes again, so the file count becomes twice the first count plus the second |
| Sarc.LittleEndianRefused | codec/sarc/reader/header.py:35-36 | a 0xFFFE byte-order mark passes header validation, but the archive read then fails with "little endian support not implemented yet, sorry" (also codec/sarc/reader/sarc.py:42-43) |
| Sarc.OpenDecoder | codec/sarc/decoder.py:28-30 | the decoder opens exactly when the archive reads, and then holds the archive read from its input |
| Sarc.CountMatchesObjects | codec/sarc/decoder.py:32-41 | after a read into a new archive, the object count (`node_count`) equals the number of objects iterated |
| Sarc.ListLine | codec/sarc/decoder.py:48 | a listing line starts with the hash as 8 hex digits followed by a space |
| Sarc.PrintList | codec/sarc/decoder.py:43-48 | the listing is a count line, the column header, then one line per entry in order |
| Sarc.ListedHash | codec/sarc/decoder.py:48 | the hash is read back from the first 8 characters of its line |
| Sarc.Describe | codec/sarc/decoder.py:50-52 | the description is "SARC archive containing N files", and N reads back as the object count |
| AampTypes.ReaderFor | codec/aamp/aamp/types.py:73-79 | a format string becomes a one-value unpacking reader and must be a valid format (else struct.error); a callable is used as it is; anything else is a TypeError |
| AampTypes.Registry.DefType | codec/aamp/aamp/types.py:66-84 | `defType` registers or overwrites the id with its name and reader exactly when the argument is accepted, and leaves the table as it was otherwise |
| AampTypes.BuiltinIds | codec/aamp/aamp/types.py:86-96 | the registered ids are exactly 0x00-0x04, 0x06-0x08 and 0x14; 0x05 is absent |
| AampTypes.InitRegistry | codec/aamp/aamp/types.py:86-96 | the import-time `defType` calls build exactly the built-in table |
| AampTypes.ReadType | codec/aamp/aamp/types.py:19-24 | an unregistered id is a TypeError; a registered one reads with its reader |
| AampTypes.TypeName | codec/aamp/aamp/types.py:26-31 | the name is found exactly for a registered id; otherwise TypeError |
| AampTypes.UnknownIdRejected | codec/aamp/aamp/types.py:19-31 | both lookups reject exactly the same ids |
| AampTypes.ReadErrors | codec/aamp/aamp/types.py:19-63 | a TypeError from `read_aamp_type` only ever means an unknown id: no reader raises it |
| AampTypes.BoolRead | codec/aamp/aamp/types.py:51-53 | `Bool` consumes four bytes and is true unless all four are zero; a short read at the end of the file also counts as true |
| AampTypes.StringRead | codec/aamp/aamp/types.py:34-41 | `String` returns the bytes before the first NUL, none of them NUL, and leaves the file just past it; with no NUL left it never returns |
| AampTypes.IntRead | codec/aamp/aamp/types.py:75-88 | type 0x02 reads one little-endian u32 and moves four bytes, or fails with struct.error when fewer are left |
| AampTypes.ReadString | codec/aamp/aamp/types.py:34-41 | the byte loop returns the bytes before the first NUL and leaves the file after it |
| AampTypes.ReadAampType | codec/aamp/aamp/types.py:19-24 | `read_aamp_type` on a file object is the type-reading function |
| Aamp.LE32s | codec/aamp/aamp/header.py:21-35 | u32 fields take four bytes each |
| Aamp.Words32 | codec/aamp/aamp/header.py:21-35 | a run of `4k` bytes holds `k` u32 fields |
| Aamp.WordsRoundTrip | codec/aamp/aamp/header.py:21-35 | u32 fields are read back from their bytes |
| Aamp.HeaderRoundTrip | codec/aamp/aamp/header.py:21-35 | every field of the 52-byte header (magic, eleven u32 fields, `str_xml`) is read back from where it is stored |
| Aamp.ValidateHeader | codec/aamp/aamp/header.py:37-47 | a header passes exactly when the magic is AAMP and the version is 2, asserted in that order with their messages; a `str_xml` other than "xml\0" is only warned about, and so, in the codec package only, is a root count other than 1 |
| Aamp.HeaderChecksAgree | codec/aamp/aamp/header.py:37-47 | both packages accept and reject the same headers with the same message; the codec package warns at most once more, about the root count |
| Aamp.HeaderAt | structreader/__init__.py:79-91 | a header is read exactly when its 52 bytes are there and it validates; it is decoded from them and the position moves past it (also codec/aamp/aamp/header.py:19-47) |
| Aamp.ReadHeader | structreader/__init__.py:79-91 | `Header().readFromFile(file)` gives HeaderAt's result and position |
| Aamp.NodeRoundTrip | codec/aamp/aamp/node.py:33-38 | the 8-byte node record (u32 hash, u16 data offset, u8 child count, u8 type) is read back from its bytes |
| Aamp.RootRoundTrip | codec/aamp/aamp/rootnode.py:24-30 | the codec package's 12-byte root record (u32 hash, four u16 fields) is read back from its bytes |
| Aamp.Root2RoundTrip | aamp2xml/aamp/rootnode.py:8-13 | the `aamp2xml` root record (u32 id, u32 unk04, u16 data offset, u16 child count) is read back from its bytes |
| Aamp.RootWarnings | aamp2xml/aamp/rootnode.py:15-21 | a root id other than 0xA4F6CB6C is warned about, and nothing else |
| Aamp.ChildLimits | codec/aamp/aamp/node.py:36 | an inner node holds at most 255 children and a root at most 65535, a bound that is reached (also codec/aamp/aamp/rootnode.py:29) |
| Aamp.NodeAt | codec/aamp/aamp/node.py:40-67 | a node is read only with recursion depth left and a whole record at the position |
| Aamp.Body | codec/aamp/aamp/node.py:54-67 | what follows the record keeps the node's hash, its name, its type, and exactly `num_children` children |
| Aamp.ChildrenAt | codec/aamp/aamp/node.py:58-60 | the child loop yields exactly `num_children` nodes |
| Aamp.Records | codec/aamp/aamp/node.py:58-60 | `n` consecutive record reads yield `n` results |
| Aamp.RecordsStep | codec/aamp/aamp/node.py:59-60 | one more child read moves from the children still to read to those appended |
| Aamp.NodeShape | codec/aamp/aamp/node.py:54-67 | a node read has its record's name and hash, type and child count; a childless node carries what its type reads at `start + 4·data_offset` |
| Aamp.ChildrenLayout | codec/aamp/aamp/node.py:55-60 | child `i` is the node read at `start + 8·i`, the children being consecutive records from the payload |
| Aamp.SelfLoop | codec/aamp/aamp/node.py:55-60 | a node with children and data offset 0 reads itself as its first child, so the read only ends at the recursion limit |
| Aamp.RootAt | codec/aamp/aamp/rootnode.py:22-30 | the codec package's root has no data type, so it never carries data (also codec/aamp/aamp/node.py:61-64) |
| Aamp.Root2At | aamp2xml/aamp/node.py:33-37 | an `aamp2xml` root is read only when it has children (also aamp2xml/aamp/rootnode.py:6-13) |
| Aamp.ChildlessRoot | codec/aamp/aamp/node.py:61-64 | a childless root is an empty node with no data in the codec package and an AttributeError in `aamp2xml` |
| Aamp.RootChildren | codec/aamp/aamp/rootnode.py:28 | a root's children are the consecutive node records at `root_start + 4·data_offset` (also codec/aamp/aamp/node.py:55-60) |
| Aamp.Root2Children | aamp2xml/aamp/node.py:29-35 | the same in `aamp2xml`, whose root also carries its id warning (also aamp2xml/aamp/rootnode.py:15-21) |
| Aamp.ReadNode | codec/aamp/aamp/node.py:40-67 | `Node(file)` on a file object is the node-reading function, and leaves the position just past the node's own record |
| Aamp.ReadRoot | codec/aamp/aamp/rootnode.py:22-38 | `RootNode(file)` is the root-reading function, and leaves the position just past the 12-byte record |
| Aamp.ReadBody | codec/aamp/aamp/node.py:54-66 | the seek to the payload, the read and the seek back give the body function and restore the position |
| Aamp.ReadChildren | codec/aamp/aamp/node.py:58-60 | the appending loop reads the child function's nodes and moves 8 bytes per child |
| Aamp.AsWrittenNeverReads | codec/aamp/aamp/node.py:55 | as written against the `StructReader` of structreader/__init__.py, which keeps its size in `_dataSize` and has no `size`, no node or root record is ever read: a whole record ends in AttributeError and a short one in struct.error |
| Aamp.BoolNodeAsWritten | codec/aamp/aamp/node.py:52-55 | a well-formed bool node fails with AttributeError as written |
| Aamp.BoolLeafExample | codec/aamp/aamp/node.py:50-67 | with the size the struct reader keeps, the same bool node reads as a leaf holding true |
| Aamp.LeafNodeAt | codec/aamp/aamp/node.py:54-67 | a record with offset 2, no children and type 0 is the leaf its payload 8 bytes on reads as |
| Aamp.LeafBody | codec/aamp/aamp/node.py:61-62 | a childless node with a type is the leaf its payload reads as |
| Aamp.NodeUnfold | codec/aamp/aamp/node.py:52-67 | with depth left and a whole record, a node is the body its record describes |
| Aamp.RenderLines | aamp2xml/aamp/node.py:43-58 | with no line break in names, type names or values, a node with children renders as two lines around its children's lines and a leaf as one line |
| Aamp.NestedLines | aamp2xml/aamp/node.py:48-53 | a node with children spends one line on each tag |
| Aamp.LeafLine | aamp2xml/aamp/node.py:55-58 | a leaf is written on one line |
| Aamp.LineBreaks | aamp2xml/aamp/node.py:49-52 | an open tag, the children and a close tag add two lines to the children's |
| Aamp.RenderFromLines | aamp2xml/aamp/node.py:50-51 | the rendered children have as many lines as their trees call for |
| Checksums.Table | codec/aamp/aamp/crc32.py:20-31 | the table has 256 entries of 32 bits |
| Checksums.GenTable | codec/aamp/aamp/crc32.py:20-31 | the nested loops build the table: entry `i` is `i` after eight reflected shift/xor steps with 0xEDB88320 |
| Checksums.TableGrows | codec/aamp/aamp/crc32.py:24-30 | each inner loop computes the next table entry |
| Checksums.Crc32 | codec/aamp/aamp/crc32.py:34-41 | `crc32` (a str first UTF-8 encoded) is the CRC of its bytes: the register preset to all ones, one table step per byte, complemented at the end |
| Checksums.RegisterStep | codec/aamp/aamp/crc32.py:38-40 | one loop turn takes one byte off the front of the remaining input |
| Checksums.EmptyCrc | codec/aamp/aamp/crc32.py:37-41 | the CRC of empty input is 0 |
| Checksums.RegisterAppend | codec/aamp/aamp/crc32.py:38-40 | the register after `a + b` is the register after `a` continued over `b` |
| Checksums.StrIsItsEncoding | codec/aamp/aamp/crc32.py:36 | a str hashes as its UTF-8 bytes; an ASCII str as its own codes |
| Checksums.CheckValue | codec/aamp/aamp/crc32.py:20-41 | the CRC of "123456789" is 0xCBF43926, the published check value of the standard CRC-32 |
| Checksums.CheckValueStr | codec/aamp/aamp/crc32.py:36-41 | the str "123456789" gives the same check value |
| StringTables.DecodeHeader | codec/base/strtab.py:22-28 | the 0x18-byte header decodes to a magic and two u32 fields |
| StringTables.EncodeHeader | codec/base/strtab.py:22-28 | a header is written in 0x18 bytes |
| StringTables.HeaderRoundTrip | codec/base/strtab.py:22-28 | the header's magic, size and string count are read back from where they are stored |
| StringTables.Aligned | codec/base/strtab.py:37 | `offs += offs & 1` rounds the position up to the next even one, moving at most one byte |
| StringTables.LoopStep | codec/base/strtab.py:35-38 | one turn of the string loop: a failed read ends the loop with its error, a successful one is appended |
| StringTables.StringsCount | codec/base/strtab.py:35-38 | a completed loop returns exactly `num_strs` strings |
| StringTables.StringsCons | codec/base/strtab.py:35-38 | the loop returns the first string read, then the rest from where it ended |
| StringTables.ChainRead | codec/base/strtab.py:35-38 | strings stored one after the other, each at an even position after its predecessor, are read back whole |
| StringTables.FirstBytes | codec/base/strtab.py:36-38 | a string with its u16 length laid out after an optional pad byte is read back, and the next begins right after it |
| StringTables.EncodedChain | codec/base/strtab.py:35-38 | laid-out strings form a chain of reads ending where the layout ends |
| StringTables.TableRoundTrip | codec/base/strtab.py:20-40 | a string table laid out at a position is read back from there: its header and all its strings, in order |
| StringTables.WrongMagic | structreader/binaryobject.py:115-123 | with the reader the string table is written for, whose `validate` checks `_magic`, a whole header with a magic other than `_STR` (codec/base/strtab.py:22) is rejected with TypeError; the `BinaryObject` of structreader/__init__.py, which strtab.py imports, would accept any magic |
| StringTables.TableFrom | codec/base/strtab.py:30-40 | the table read from a position (after the seek): a read table starts there, its whole 0x18-byte header lies in the file and its magic is `_STR` |
| StringTables.StringTable.ReadFromFile | codec/base/strtab.py:30-40 | on success the object holds the table found at the (sought) position and the file stands after its last string; on failure the error is the reading function's |
| StringTables.StringTable.ReadHere | codec/base/strtab.py:30-40 | from the position the seek left, the object holds the header and the strings read there on success (its `_file_offset` being that position), and the error and the file position are those of the reading function |
| StringTables.ReadStrings | codec/base/strtab.py:35-38 | the string loop is the string-list function from the file position |
| NameDicts.I32 | codec/base/dict.py:24-29 | struct's 'i' is the two's-complement reading of the u32 at that position |
| NameDicts.I16 | codec/base/dict.py:30-31 | struct's 'h' is the two's-complement reading of the u16 at that position |
| NameDicts.DecodeRecord | codec/base/dict.py:28-34 | an item record decodes to fields in range |
| NameDicts.EncodeRecord | codec/base/dict.py:28-34 | an item record is written in 16 bytes |
| NameDicts.RecordRoundTrip | codec/base/dict.py:28-34 | an item record's fields, signed ones with their sign, are read back |
| NameDicts.SlotNamed | codec/base/dict.py:43-48 | a slot that yields an item has a nonzero name offset, where its name is found |
| NameDicts.ItemsStep | codec/base/dict.py:40-48 | one turn of the item loop: an error ends it, an unnamed slot stops it, a named one is appended |
| NameDicts.ItemsExact | codec/base/dict.py:40-48 | a successful loop keeps exactly the items of the slots before the first unnamed one, or of all slots when there is none |
| NameDicts.ItemsOfSlots | codec/base/dict.py:40-48 | consecutive named slots followed by an unnamed one, or by the end, are exactly what the loop keeps |
| NameDicts.DictItems | codec/base/dict.py:36-49 | a dictionary read has at most `numItems + 1` items, each with a nonzero name offset and the name found there |
| NameDicts.DictAt | codec/base/dict.py:36-49 | `readFromFile` of a dictionary: a read dictionary's 8-byte header lies whole in the file, at the position itself when no offset is given |
| NameDicts.ItemsNamed | codec/base/dict.py:40-48 | the same for the item loop alone |
| NameDicts.NameAt | codec/base/dict.py:46-47 | a name written with its u16 length at an offset is read back from there |
| NameDicts.SlotRoundTrip | codec/base/dict.py:41-48 | a record written at slot `i`, 8 + 16·i bytes after the start, with its name at its name offset, is read back as that item |
| NameDicts.UnnamedSlotEnds | codec/base/dict.py:44 | a record with name offset 0 ends the loop there, and is not kept |
| NameDicts.ReadItems | codec/base/dict.py:40-48 | the item loop is the item-list function over the dictionary's slots |
| NameDicts.ReadSlot | codec/base/dict.py:41-47 | one turn seeks to slot `i`, reads its record and, unless its name offset is 0, the name at that offset |
| NameDicts.NameDict.ReadFromFile | codec/base/dict.py:36-49 | on success the object holds the dictionary found at the (sought) position; on failure the error is the reading function's |
| IndexGroups.NameAgrees | codec/fres/fres/idxgrp.py:43 | an entry's name read with `readString(noff, '<H')` is a u16 little-endian length at `noff` followed by at most that many bytes (also filereader/__init__.py:90-124) |
| IndexGroups.EntriesStep | codec/fres/fres/idxgrp.py:39-46 | one turn of the entry loop: a failed read ends the whole read with its error, a successful one is appended |
| IndexGroups.EntriesExact | codec/fres/fres/idxgrp.py:39-46 | a completed loop holds exactly one entry per turn, entry `j` being the `j`-th read |
| IndexGroups.EncodeEntry | codec/fres/fres/idxgrp.py:40 | an entry record ('IHHII') is written in 16 bytes |
| IndexGroups.EntryRoundTrip | codec/fres/fres/idxgrp.py:40-46 | an entry record written at a position, with its name written at its name offset, reads back as that entry with that name |
| IndexGroups.MkNodeShape | codec/fres/fres/idxgrp.py:48-55 | a built node carries the index it was built from, every node holds the fields of the entry at its index and its children follow the entry's links except self-links, index 0 never appears below the root, and a node built at depth `d` has at most `9 - d` levels |
| IndexGroups.RootShape | codec/fres/fres/idxgrp.py:48-57 | the whole tree has at most nine levels and entry 0 appears only as its root |
| IndexGroups.MkNodeTotal | codec/fres/fres/idxgrp.py:49-54 | when every link names an entry the tree is always built; an index past the list reached within the depth limit is an IndexError, and IndexError is the only error mkNode raises |
| IndexGroups.GroupParts | codec/fres/fres/idxgrp.py:36-57 | a read group's entries are what the entry loop read for `count + 1` turns, and its root is mkNode(0) over them |
| IndexGroups.EntriesAt | codec/fres/fres/idxgrp.py:39-46 | each entry a completed loop read is the record at its own place, 8 + 16·i bytes after the start |
| IndexGroups.GroupEntries | codec/fres/fres/idxgrp.py:34-57 | a read group has `count + 1` entries, the `i`-th being the record 8 + 16·i bytes after the start, and its root is the tree built from them |
| IndexGroups.ReadEntry | codec/fres/fres/idxgrp.py:40-46 | one turn reads the record at the position, reads the name at its offset and comes back to just after the record |
| IndexGroups.ReadEntries | codec/fres/fres/idxgrp.py:39-46 | the loop returns the entry-list function over the records from the file position |
| IndexGroups.IndexGroup.ReadFromFile | codec/fres/fres/idxgrp.py:34-62 | on success the object's root is the tree of the group at the (sought) position; it fails exactly when that read fails, with the same error |
| FresHeaders.Pow2Clear | codec/fres/fres/header.py:20-21 | a power of two shares no bit with its predecessor, so `isPowerOf2` accepts it |
| FresHeaders.ClearIsPow2 | codec/fres/fres/header.py:20-21 | a non-zero number sharing no bit with its predecessor is a power of two |
| FresHeaders.PowerOf2Iff | codec/fres/fres/header.py:20-21 | `isPowerOf2(n)` holds exactly when `n` is 1, 2, 4, 8, … |
| FresHeaders.U32s | codec/fres/fres/header.py:35 | a '12I' field reads as many words as its count |
| FresHeaders.U16s | codec/fres/fres/header.py:36 | a '12H' field reads as many halves as its count |
| FresHeaders.U32sAt | codec/fres/fres/header.py:35 | word `i` of a repeated field is the little-endian word `4·i` bytes into it |
| FresHeaders.U32sRoundTrip | codec/fres/fres/header.py:35 | words written in a row are read back in order |
| FresHeaders.U16sRoundTrip | codec/fres/fres/header.py:36 | halves written in a row are read back in order |
| FresHeaders.EncodeWiiU | codec/fres/fres/header.py:25-39 | a Wii U header is written in 0x6C bytes |
| FresHeaders.WiiULeadBytes | codec/fres/fres/header.py:26-34 | the nine fields before the group offsets take 32 bytes |
| FresHeaders.EncodeSwitch | codec/fres/fres/header.py:41-107 | a Switch header is written in 0xD0 bytes |
| FresHeaders.WiiUFirst | codec/fres/fres/header.py:26-29 | magic, version, byte-order mark and header length lie at 0, 4, 8 and 10 |
| FresHeaders.WiiUNext | codec/fres/fres/header.py:30-34 | file size, alignment, name offset and the string table's length and offset lie at 12, 16, 20, 24 and 28 |
| FresHeaders.WiiURoundTrip | codec/fres/fres/header.py:25-39 | a Wii U header written out is read back field for field |
| FresHeaders.SwitchRoundTrip | codec/fres/fres/header.py:41-107 | a Switch header written out is read back field for field |
| FresHeaders.SwitchFieldAt | codec/fres/fres/header.py:47-100 | rlt_offset, file_size, fmdl_offset and num_objects are the words at 0x18, 0x1C, 0x28 and 0xBC of the Switch header |
| FresHeaders.RltOffset | codec/fres/fres/header.py:124-129 | a relocation table is read after a Switch header and never after a Wii U one |
| FresHeaders.RltOffsetAt | codec/fres/fres/header.py:49-125 | after a Switch header the relocation table is read at the word stored at 0x18 |
| FresHeaders.Validate | codec/fres/fres/header.py:134-170 | validation passes exactly when the magic starts with "FRES" and the byte-order mark is FEFF or FFFE, failing with the source's assertion message otherwise; a Wii U header warns exactly for a header length other than 0x10, a non-zero user pointer and an alignment that is not a power of two, a Switch header exactly for a header length other than 0xC |
| FresHeaders.WiiUClean | codec/fres/fres/header.py:148-159 | a Wii U header with length 0x10, no user pointer and a power-of-two alignment raises no warning |
| FresHeaders.PlatformOf | codec/fres/fres/header.py:114-121 | the Switch layout is chosen exactly when the first eight bytes are "FRES" and four spaces |
| FresHeaders.HeaderAt | codec/fres/fres/header.py:109-122 | a header read succeeds only when the whole record of the chosen layout fits and validates, and it is a Switch header exactly when the Switch magic was peeked (also structreader/binaryobject.py:94-124) |
| FresHeaders.RecordOf | codec/fres/fres/header.py:122-146 | a record accepted for a layout has that layout's size and platform, begins with "FRES" and validates |
| FresHeaders.SwitchSelected | codec/fres/fres/header.py:114-146 | a file starting with the Switch magic is read as a Switch header, which then fails only on its byte-order mark |
| FresHeaders.SwitchRecord | codec/fres/fres/header.py:42-118 | the Switch record of such a file has the Switch magic and the file's byte-order mark |
| FresHeaders.WiiUSelected | codec/fres/fres/header.py:119-144 | anything else is read as a Wii U header and must start with "FRES" |
| FresHeaders.WiiURecord | codec/fres/fres/header.py:119-122 | without the Switch magic the header is the Wii U record at the position |
| FresHeaders.Peek | codec/fres/fres/header.py:113-121 | peeking reads eight bytes, puts the position back and chooses the layout from them |
| FresHeaders.EncodeRlt | codec/fres/fres/rlt.py:21-38 | an RLT record ('4s' and twelve 'I') is written in 0x34 bytes |
| FresHeaders.RltRoundTrip | codec/fres/fres/rlt.py:21-38 | an RLT record written out is read back field for field |
| FresHeaders.RltRecordOf | codec/fres/fres/rlt.py:21-44 | the RLT is read exactly when its 0x34 bytes are all there and the magic is "_RLT"; a short read is a struct.error and another magic fails "Not an RLT"; data_start is the word at 0x30 (also structreader/__init__.py:71-91) |
| FresHeaders.RltAtIff | codec/fres/fres/rlt.py:21-44 | `RLT().readFromFile(file, offset)` succeeds exactly when the whole record lies in the file from `offset` and starts with "_RLT", and data_start is the file's word at offset + 0x30 (also structreader/__init__.py:79-91) |
| FresHeaders.ReadRlt | codec/fres/fres/header.py:125 | the method seeks to the offset and reads the RLT there, leaving the file after what was read (also structreader/__init__.py:79-85) |
| FresHeaders.ReadAt | codec/fres/fres/header.py:109-131 | a header that fails to read is the whole read's error; a successful read holds the header and carries a relocation table exactly when the header is a Switch one |
| FresHeaders.ReadAtRlt | codec/fres/fres/header.py:124-125 | once a Switch header is read, the whole read succeeds exactly when the RLT at its rlt_offset is read, and holds that RLT |
| FresHeaders.SwitchNeedsRlt | codec/fres/fres/header.py:109-127 | a file starting with the Switch magic is read exactly when its byte-order mark is valid and the RLT at the word stored 0x18 into the header lies whole in the file and starts with "_RLT"; the object then holds that RLT (also codec/fres/fres/rlt.py:42-43) |
| FresHeaders.WiiUNoRlt | codec/fres/fres/header.py:128-129 | a Wii U header reads no RLT: the whole read succeeds exactly when the header does |
| FresHeaders.Header.ReadFromFile | codec/fres/fres/header.py:109-131 | the layout is chosen before the record is read; the header's fields are kept once the record validates, even if the RLT read then fails; the call succeeds exactly when `ReadAt` does, with its error otherwise, and the object then holds the header and, after a Switch header, the RLT read at rlt_offset; the file then stands right after the Wii U record or right after the RLT |
| XmlElements.TextAfterTwice | myxml/element.py:49-51 | appending two strings one after the other leaves the same text as appending their concatenation |
| XmlElements.TextAfterExtends | myxml/element.py:49-51 | after appending a string there is text, it ends with that string and begins with the earlier text |
| XmlElements.LookupAfterSet | myxml/element.py:64-72 | `get` after `set(name, v)` returns `v`, and every other name reads as before |
| XmlElements.LookupAfterMerge | myxml/element.py:64-70 | after `set(dict)` every key of the dict reads its new value and every other key its old one |
| XmlElements.ColonAt | myxml/element.py:78-79 | finds the first ':' of a key exactly when there is one |
| XmlElements.CloseAt | myxml/element.py:83 | finds the first '}' of a rewritten name |
| XmlElements.CloseAfter | myxml/element.py:83 | in `{uri}key` with no '}' in the URI, the first '}' ends the URI |
| XmlElements.ColonAfter | myxml/element.py:79 | `split(':', maxsplit=1)` of `ns:key` with no ':' in `ns` splits right after `ns`, so the key keeps any further colons |
| XmlElements.QualifiedRoundTrip | myxml/element.py:77-84 | a `ns:key` attribute of a defined namespace is written under a name from which the namespace's URI and the key are read back |
| XmlElements.QualifiedKeyCases | myxml/element.py:78-84 | a namespace the document does not define is a KeyError, and a key without a colon is written as it is |
| XmlElements.Element.constructor | myxml/element.py:20-25 | a new element has its name, attributes and children, no text and no parent |
| XmlElements.Element.Append | myxml/element.py:48-61 | a string is added to the text; an element becomes the last child and gets this element as its parent, an earlier parent only being warned about; anything else is a TypeError that changes nothing; name and attributes never change |
| XmlElements.Element.Child | myxml/element.py:28-31 | a new element with the given name, children and attributes is appended as the last child, with this element as its parent, and returned |
| XmlElements.Element.SetText | myxml/element.py:38-40 | the text is replaced outright and nothing else changes |
| XmlElements.Element.Set | myxml/element.py:68-72 | `set(name, v, …)` stores the first value under the name; with no value it is an IndexError that changes nothing |
| XmlElements.Element.SetAll | myxml/element.py:69-70 | `set(dict)` stores every pair of the dict over the existing attributes |
| Collada.FixedStep | codec/fres/fres/fmdl/collada.py:261-262 | one turn of the loop keeps the first three items of the group of four starting at `i` (fewer at the end) and moves four items on |
| Collada.FixBufferForBlender | codec/fres/fres/fmdl/collada.py:254-263 | the loop returns the buffer with every fourth item removed |
| Collada.FixedLength | codec/fres/fres/fmdl/collada.py:254-263 | three of every four items survive, plus up to three of a last short group |
| Collada.FixedShort | codec/fres/fres/fmdl/collada.py:261-262 | a buffer of fewer than four items is kept whole |
| Collada.FixedAt | codec/fres/fres/fmdl/collada.py:254-263 | item `j` of the result is input item `4·(j / 3) + j % 3`, never an item at an index 3 (mod 4): order is kept and no W comes back |
| Collada.FixedKeeps | codec/fres/fres/fmdl/collada.py:254-263 | every item at an index other than 3 (mod 4) is kept, at position `3·(i / 4) + i % 4` |
| Collada.PlistTag | codec/fres/fres/fmdl/collada.py:176-183 | a polygon list is made exactly for the formats triangles, line_strip and line_loop, and it is always a `triangles` element |
| Collada.SizesSum | codec/fres/fres/fmdl/collada.py:193-197 | there is one size per face and the sizes add up to the length of the flattened list, so `vcount` accounts for all of `p` |
| Collada.FlattenAt | codec/fres/fres/fmdl/collada.py:195-197 | face `k` sits in the flattened list right after the faces before it |
| Collada.FaceLists | codec/fres/fres/fmdl/collada.py:193-197 | the loop gathers the face sizes and the faces one after another |
| Collada.LastSpace | codec/fres/fres/fmdl/collada.py:200-202 | the last space of a written list lies inside it |
| Collada.SpacedRoundTrip | codec/fres/fres/fmdl/collada.py:200-202 | `' '.join(map(str, ns))` reads back as the numbers it was made from |
| Collada.MakePlist | codec/fres/fres/fmdl/collada.py:173-204 | nothing for an unsupported format; otherwise a new `triangles` element counting the faces, whose children are an `input` referring to the vertices, a `vcount` holding the face sizes and a `p` holding the flattened faces, both of those with the list as parent |
| Collada.NumberedInjective | codec/fres/fres/fmdl/collada.py:80-140 | a prefix followed by a decimal number names that number alone |
| Collada.IdsDistinct | codec/fres/fres/fmdl/collada.py:80-139 | geometries, vertex lists, materials and scenes numbered by different counts get different ids |
| Collada.MakeAccessor | codec/fres/fres/fmdl/collada.py:277-292 | nothing for an attribute outside `attr_types`; otherwise a `technique_common` holding one accessor with stride the number of parameters and one float `param` child per parameter, in order |
| Collada.Supported | codec/fres/fres/fmdl/collada.py:132-134 | the levels of detail that get a polygon list are levels of the shape with a supported format |
| Collada.AttachOne | codec/fres/fres/fmdl/collada.py:133-134 | one turn appends the polygon list of a supported level as the mesh's last child, with the mesh as parent, and changes nothing for an unsupported one |
| Collada.AttachPlists | codec/fres/fres/fmdl/collada.py:132-134 | the mesh's earlier children are kept and the polygon lists of the supported levels follow them, in order |
| Collada.AppendNode | codec/fres/fres/fmdl/collada.py:85-90 | a geometry with an id gets a node named after it referring to it by `#id`; one without is a TypeError that appends nothing |
| Collada.FillScene | codec/fres/fres/fmdl/collada.py:84-90 | the scene gets one node per geometry, in order, until a geometry without an id stops it |
| Collada.ColladaWriter.constructor | codec/fres/fres/fmdl/collada.py:67-75 | every list starts empty |
| Collada.ColladaWriter.AddFVTX | codec/fres/fres/fmdl/collada.py:93-108 | a geometry numbered by the geometries so far, named `name` or else its id, holding a mesh that holds a vertices element numbered alike, is appended with its mesh and vertices; the other lists do not change |
| Collada.ColladaWriter.AddFSHP | codec/fres/fres/fmdl/collada.py:118-134 | with no mesh, or no vertices, nothing changes; otherwise the last mesh keeps its children and gets the polygon list of each supported level, in order, each referring to the last vertices element's id |
| Collada.ColladaWriter.AddFMAT | codec/fres/fres/fmdl/collada.py:137-145 | a material numbered by the materials so far, named after the FMAT, holding an `instance_effect` that refers to the effect numbered by the effects so far; no other list changes, so the effect list stays empty |
| Collada.ColladaWriter.AddScene | codec/fres/fres/fmdl/collada.py:78-90 | a scene numbered by the scenes so far and named `untitled` is appended, holding one node per geometry in order; it succeeds exactly when every geometry has an id |
| Bcn.Unpack565 | codec/bntx/pixelfmt/bc.py:21-25 | an RGB565 word unpacks to an opaque colour whose channels are bytes with their low bits (3, 2, 3) clear (also codec/bntx/pixelfmt/bc/base.py:6-10) |
| Bcn.Fields565 | codec/bntx/pixelfmt/bc.py:22-24 | the three fields of a 16-bit word are in range and make the word up again |
| Bcn.Join565 | codec/bntx/pixelfmt/bc.py:22-24 | fields below their widths are read back from the word they make up |
| Bcn.Unpack565RoundTrip | codec/bntx/pixelfmt/bc.py:21-25 | unpacking is a bijection between 16-bit words and opaque colours with those low bits clear: packing the unpacked colour gives the word back, and unpacking the packed colour gives the colour back (also codec/bntx/pixelfmt/bc/base.py:6-10) |
| Bcn.LayoutsSwapRedBlue | codec/bntx/pixelfmt/bc.py:21-25 | the two definitions of `unpackRGB565` read the same word with red and blue exchanged and green and alpha equal (also codec/bntx/pixelfmt/bc/base.py:6-10) |
| Bcn.Third | codec/bntx/pixelfmt/bc.py:49-51 | `int((2·x0 + x1) / 3)` lies between the two endpoints |
| Bcn.Half | codec/bntx/pixelfmt/bc.py:99-101 | `(x0 + x1) >> 1` lies between the two endpoints |
| Bcn.Palette | codec/bntx/pixelfmt/bc.py:30-35 | the palette has four entries, all of whose channels fit in a byte |
| Bcn.PaletteInterpolates | codec/bntx/pixelfmt/bc.py:32-111 | entries 0 and 1 are the unpacked endpoints; entry 2 is opaque and lies between them; entry 3 is transparent exactly for BC1 with `c0 <= c1`, where it is transparent black and entry 2 is the midpoint; otherwise entry 3 equals entry 2 (also codec/bntx/pixelfmt/bc/base.py:23-26,39-49) |
| Bcn.Rgba | codec/bntx/pixelfmt/bc.py:43 | the four bytes a palette entry writes are its red, green, blue and alpha |
| Bcn.Clut | codec/bntx/pixelfmt/bc.py:43 | each palette entry becomes its four bytes |
| Bcn.Index | codec/bntx/pixelfmt/bc.py:42 | `(idxs >> shift) & 3` is a palette index, below 4 |
| Bcn.TexelsUpTo | codec/bntx/pixelfmt/bc.py:40-45 | the first `k` texels fill `4·k` bytes |
| Bcn.IndicesAreTheWord | codec/bntx/pixelfmt/bc.py:40-44 | the 16 indices read with shifts 0, 2, …, 30 are the base-4 digits of the index word and make it up again: every bit is read by exactly one texel |
| Bcn.AlphaRampEntry | codec/bntx/pixelfmt/bc/base.py:56-60 | each ramp entry fits in a byte |
| Bcn.AlphaTable | codec/bntx/pixelfmt/bc/base.py:51-61 | `calcAlpha` returns 8 bytes exactly when its input has at least two, and an IndexError otherwise |
| Bcn.CalcAlpha | codec/bntx/pixelfmt/bc/base.py:51-61 | the method computes the alpha table |
| Bcn.FillAlpha | codec/bntx/pixelfmt/bc/base.py:54-60 | the loop leaves every entry of the table the one the ramp defines |
| Bcn.AlphaTableEntries | codec/bntx/pixelfmt/bc/base.py:53-60 | entries 0 and 1 are the endpoints, 6 is 0 and 7 is 0xFF, and 2..5 are the ramp |
| Bcn.AlphaRampDescends | codec/bntx/pixelfmt/bc/base.py:57-58 | with `a0 > a1` the ramp lies between the endpoints and never rises |
| Bcn.AlphaRampCorrected | codec/bntx/pixelfmt/bc/base.py:59-60 | the corrected six-value ramp, dividing by 5, lies between the endpoints whatever their order |
| Bcn.AlphaRampAsWritten | codec/bntx/pixelfmt/bc/base.py:59-60 | as written, endpoints 0xFF, 0xFF give entry 2 the value 182, where the corrected ramp gives 0xFF |
| Bcn.PyOrNatural | codec/bntx/pixelfmt/bc.py:131 | on non-negative integers Python's `\|` is the bitwise or |
| Bcn.OrLowBits | codec/bntx/pixelfmt/bc.py:131 | or-ing a signed value below `2^k` with a multiple of `2^k` adds them when the value is non-negative and gives the value itself when it is negative |
| Bcn.Nibble | codec/bntx/pixelfmt/bc.py:137 | `(v >> s) & 0xF` is below 16, for negative `v` too |
| Bcn.WideAlpha | codec/bntx/pixelfmt/bc.py:140 | `alpha \| (alpha << 4)` is `17·alpha`, so 0 stays 0 and 15 becomes 0xFF |
| Bcn.SignedWordsOr | codec/bntx/pixelfmt/bc.py:130-131 | `lo \| (hi << 32)` over words unpacked with 'ii' is the unsigned 64-bit word (possibly less `2^64`) when the low word's top bit is clear, and the negative low word alone when it is set |
| Bcn.SignedWordsNibble | codec/bntx/pixelfmt/bc.py:130-137 | each nibble of that value equals the unsigned word's nibble, except above the low word when the low word's top bit is set, where it is 15 |
| Bcn.Bc2AlphaAsWritten | codec/bntx/pixelfmt/bc.py:130-140 | as written, the 4-bit alphas of rows 0 and 1 are the nibbles of the block's unsigned 64-bit word, and those of rows 2 and 3 are all 15 whenever the low word's top bit is set |
| Bcn.Bc2AlphaCorrected | codec/bntx/pixelfmt/bc.py:130-137 | read as one unsigned 64-bit word, the 16 alphas are its base-16 digits and make it up again |
| Bcn.Bc2SignedAlphaQuirk | codec/bntx/pixelfmt/bc.py:130-140 | the block 00 00 00 80 00 00 00 00 gives texel 8 alpha 0xFF as written, where its nibble, and the corrected alpha, is 0 |
| Bcn.Tile | codec/bntx/pixelfmt/bc.py:29-46 | `decodeTile` returns 64 bytes exactly when the 8-byte block lies inside the data, and otherwise the `struct.error` of `unpack_from` |
| Bcn.TexelAt | codec/bntx/pixelfmt/bc.py:40-45 | texel `k` is the palette entry its 2-bit index selects |
| Bcn.TileTexel | codec/bntx/pixelfmt/bc.py:29-46 | texel `k` of a decoded tile is the palette entry `(idxs >> 2k) & 3` of the block's endpoints |
| Bcn.DecodeTile | codec/bntx/pixelfmt/bc.py:29-46 | the method returns the tile function's result |
| Bcn.FillTile | codec/bntx/pixelfmt/bc.py:37-45 | the texel loop, the index shift and the output position advancing together, fills every texel with its palette entry |
| Bcn.PutTexel | codec/bntx/pixelfmt/bc.py:43 | writing one texel extends the part of the buffer already in place by four bytes |
| Bcn.Put | codec/bntx/pixelfmt/bc.py:43-88 | a bytearray slice assignment puts the bytes there and leaves every other byte alone |
| BcnImage.Tiles | codec/bntx/pixelfmt/bc.py:70-122 | `int((n + 3) / 4)` tiles of four pixels cover `n` pixels with fewer than four to spare |
| BcnImage.SliceSetClamps | codec/bntx/pixelfmt/bc.py:88-139 | a bytearray slice assignment inside the buffer replaces those bytes and keeps everything around them; at or past the end it appends |
| BcnImage.ItemSetInside | codec/bntx/pixelfmt/bc.py:140 | a bytearray item assignment succeeds exactly inside the buffer, changing that byte alone, and is an IndexError past its end |
| BcnImage.PlacePixel | codec/bntx/pixelfmt/bc.py:87-138 | texel `k` of tile `(x, y)` goes to pixel column `4x + k % 4` and row `4y + k / 4` of the row-major image |
| BcnImage.PixelApart | codec/bntx/pixelfmt/bc.py:87 | distinct pixels of a row-major image have distinct indices |
| BcnImage.PlaceApart | codec/bntx/pixelfmt/bc.py:79-89 | different texels, of the same or different tiles, never share a byte of the output |
| BcnImage.PlaceFits | codec/bntx/pixelfmt/bc.py:72-87 | every texel of the tiles lies inside the `width·height·64` bytes BC1 allocates |
| BcnImage.PlaceCovers | codec/bntx/pixelfmt/bc.py:79-89 | every pixel of the tiled image is the place of exactly the texel `4·(row % 4) + col % 4` of tile `(col / 4, row / 4)` |
| BcnImage.Texel | codec/bntx/pixelfmt/bc.py:88-140 | each texel writes four bytes |
| BcnImage.WriteInPlace | codec/bntx/pixelfmt/bc.py:88-140 | a texel whose place lies inside the buffer is spliced in there |
| BcnImage.SpliceWindows | codec/bntx/pixelfmt/bc.py:88 | a splice keeps the buffer's length, puts its bytes at its place and leaves every other texel's window alone |
| BcnImage.TexelsContent | codec/bntx/pixelfmt/bc.py:84-89 | copying the first `k` texels of a tile into a buffer of full size succeeds, keeps its length, puts each texel at its place and keeps every texel placed before |
| BcnImage.PaintedContent | codec/bntx/pixelfmt/bc.py:79-89 | painting the tiles before `(x, y)` into a buffer of full size succeeds and puts every texel of them at its place |
| BcnImage.ImageContent | codec/bntx/pixelfmt/bc.py:66-143 | with every tile inside the data, BC1 and the corrected BC2 succeed, return a buffer of `64·across·down` bytes, and put texel `k` of tile `(x, y)` at its place: BC1 the decoded RGBA bytes, BC2 the decoded RGB bytes and the widened alpha |
| BcnImage.TexelsErrStays | codec/bntx/pixelfmt/bc.py:85-89 | once a texel fails the exception ends the tile |
| BcnImage.PaintedErrStays | codec/bntx/pixelfmt/bc.py:79-82 | once a tile fails the exception ends the decode |
| BcnImage.PaintedNeedsTiles | codec/bntx/pixelfmt/bc.py:81-82 | a successful paint up to a tile read every earlier tile from inside the data |
| BcnImage.ImageNeedsTiles | codec/bntx/pixelfmt/bc.py:79-129 | decode succeeds only when every tile's block lies inside the data |
| BcnImage.SecondTexelOverflows | codec/bntx/pixelfmt/bc.py:138-140 | in a four-byte buffer the second BC2 texel's colour slice is appended and its alpha assignment is an IndexError |
| BcnImage.Bc2BufferTooSmall | codec/bntx/pixelfmt/bc.py:123-140 | as written, BC2 of a texture of one tile with `depth` 32 allocates 4 bytes and fails with IndexError; this depends on the format's `depth` being 32, a value this model takes as a parameter |
| BcnImage.PutTexel | codec/bntx/pixelfmt/bc.py:137-141 | the `tx` loop body writes texel `(tx, ty)` at its place |
| BcnImage.PaintTexelRow | codec/bntx/pixelfmt/bc.py:86-141 | the `tx` loop writes the four texels of a row of the tile, or ends with the tile's failure |
| BcnImage.PaintTile | codec/bntx/pixelfmt/bc.py:84-141 | the `ty`/`tx` loops copy the whole tile |
| BcnImage.PaintAt | codec/bntx/pixelfmt/bc.py:81-141 | the `x` loop body decodes the tile at the swizzled offset, reads BC2's alpha word and copies the tile |
| BcnImage.PaintRow | codec/bntx/pixelfmt/bc.py:80-141 | the `x` loop paints every tile of a row, stopping at the first that fails |
| BcnImage.PaintNext | codec/bntx/pixelfmt/bc.py:80-89 | one pass of the `x` loop paints tile `x` over the tiles before it, and a failure is the failure of the whole row |
| BcnImage.Decode | codec/bntx/pixelfmt/bc.py:66-143 | the loops over the tiles compute the image function, whose content the lemmas above state |
| Png.I1 | codec/bntx/png.py:10-11 | `I1` packs one byte, `value & 0xFF`, negative values included |
| Png.I4Value | codec/bntx/png.py:12-13 | the four bytes of `I4(value)` read back big-endian are `value & 0xFFFFFFFF` |
| Png.NewPng | codec/bntx/png.py:29-37 | a new PNG keeps its pixels and sizes, with colour type 6 (RGBA), zlib compression, filter method 0 and no interlacing |
| Png.ChunkRoundTrip | codec/bntx/png.py:48-50 | every block `makeBlock` builds with a 4-byte name and fewer than 2^32 data bytes parses back, as section 3.2 of RFC 2083 lays a chunk out, to that name and data, whatever follows |
| Png.ParseBlock | codec/bntx/png.py:48-50 | length, name, data, CRC of name and data, and anything after, laid end to end, parse back to the chunk and the rest |
| Png.ParseChunkFields | codec/bntx/png.py:48-50 | bytes whose length and CRC fields agree with their contents parse as a chunk |
| Png.IhdrPayload | codec/bntx/png.py:52-55 | the IHDR payload is 13 bytes |
| Png.IhdrFields | codec/bntx/png.py:52-55 | the payload holds width and height as big-endian 32-bit values, then bit depth, colour type, compression, filter and interlace method one byte each, as section 4.1.1 of RFC 2083 lays them out |
| Png.NewPngHeader | codec/bntx/png.py:29-55 | for a PNG built by the constructor the IHDR says colour type 6, compression 0, filter method 0 and no interlace |
| Png.PySlice | codec/bntx/png.py:68 | `data[idx:idx+4]` is the plain slice inside the data and never longer than four bytes |
| Png.PaddedShape | codec/bntx/png.py:59-62 | the padded data starts with the pixels, continues with zero bytes and covers `width·height·4` bytes, exactly so when the pixels were short |
| Png.RowAt | codec/bntx/png.py:65-70 | scanline `r` is `1 + 4·width` bytes at `r·(1 + 4·width)`: the filter byte 0, then the row's pixel bytes |
| Png.RowsLength | codec/bntx/png.py:65-70 | each row inside the data adds `1 + 4·width` bytes |
| Png.RawLayout | codec/bntx/png.py:58-70 | the raw stream is `height` rows of `1 + 4·width` bytes, each the filter byte 0 followed by that row of the padded pixels, as section 6 of RFC 2083 requires for filter type 0 |
| Png.PaddedCovers | codec/bntx/png.py:59-62 | the padded pixels hold every row the loop reads |
| Png.Sink.Write | codec/bntx/png.py:46-79 | a write appends its bytes to what the file holds |
| Png.Scanlines | codec/bntx/png.py:63-70 | the loops compute the raw stream |
| Png.RowTexels | codec/bntx/png.py:67-70 | the inner loop appends the row's pixels and advances `idx` four bytes a pixel |
| Png.WriteBlock | codec/bntx/png.py:48-50 | the file gets the block `makeBlock` builds |
| Png.WriteMagic | codec/bntx/png.py:45-46 | the file gets the eight signature bytes of section 3.1 of RFC 2083 |
| Png.WriteIhdr | codec/bntx/png.py:52-56 | the file gets the IHDR block of the header payload |
| Png.WriteIdat | codec/bntx/png.py:58-76 | the file gets the IDAT block of the compressed raw stream |
| Png.WriteIend | codec/bntx/png.py:78-79 | the file gets an empty IEND block |
| Png.WriteToFile | codec/bntx/png.py:39-43 | the file gets signature, IHDR, IDAT and IEND in order |
| Png.FileChunks | codec/bntx/png.py:39-79 | the file written reads back as the signature, then the IHDR chunk with the header payload, the IDAT chunk with the compressed stream and an empty IEND chunk, with nothing after it |
| Png.ChunkSequence | codec/bntx/png.py:48-50 | three blocks in a row parse back one after the other, and nothing is left after the third |
| Png.IendCrc | codec/bntx/png.py:50-79 | the CRC-32 of the name IEND is 0xAE426082 |
| Png.IendBlock | codec/bntx/png.py:48-79 | with the CRC-32 of section 8 of RFC 1952, `makeBlock('IEND', b'')` is a zero length, the name and the bytes AE 42 60 82 |
| Unicode.Units | codec/aamp/aamp/crc32.py:36 | the UTF-8 code units of a code point: one byte below 0x80, two below 0x800, three below 0x10000, otherwise four; the lead byte announces the length, the others are continuation bytes, and together they decode back to the code point |
| Unicode.ToBytes | codec/aamp/aamp/crc32.py:36 | byte values become bytes of the same values |
| Unicode.EncodeChar | codec/aamp/aamp/crc32.py:36 | a character encodes to one to four bytes |
| Unicode.Utf8 | codec/aamp/aamp/crc32.py:36 | `bytes(s, 'utf-8')` has at least one byte per character |
| Unicode.EncodeCharMeaning | codec/aamp/aamp/crc32.py:36 | each character's bytes are its code units, which decode back to the character |
| Unicode.Utf8Append | codec/aamp/aamp/crc32.py:36 | encoding a concatenation concatenates the encodings |
| Unicode.AsciiUtf8 | codec/aamp/aamp/crc32.py:36 | an ASCII text encodes to its own codes, one byte per character |
| FileWriters.FirstSlash | filewriter/__init__.py:25 | finds the first '/' of a string that has one |
| FileWriters.Split | filewriter/__init__.py:25-50 | `s.split('/')` has at least one piece, and no piece holds a '/' |
| FileWriters.JoinSplit | filewriter/__init__.py:25-33 | joining the pieces of a split with '/' gives the string back |
| FileWriters.SplitJoin | filewriter/__init__.py:33-50 | splitting a join of slash-free pieces gives the pieces back |
| FileWriters.SplitCount | filewriter/__init__.py:25 | a path splits into one more component than it has slashes |
| FileWriters.SanitizeComponent | filewriter/__init__.py:28-29 | a component starting with '.' other than '.' itself gets 'data' in front, any other is kept; the result is never such a hidden name |
| FileWriters.SanitizeAll | filewriter/__init__.py:27-32 | every component is sanitised, in order, none dropped |
| FileWriters.SanitizePath | filewriter/__init__.py:24-36 | the loop returns the sanitised path, and warns exactly when it differs from the input |
| FileWriters.SanitizedComponents | filewriter/__init__.py:25-33 | the components of the sanitised path are those of the input, each sanitised, so their count is kept and empty ones stay |
| FileWriters.SanitizeIdempotent | filewriter/__init__.py:28-29 | a sanitised path sanitises to itself |
| FileWriters.SanitizedUnchanged | filewriter/__init__.py:33-35 | the path comes back unchanged exactly when none of its components is a hidden name |
| FileWriters.Prefixes | filewriter/__init__.py:51-53 | every directory `mkdir` tries is non-empty |
| FileWriters.PrefixesStep | filewriter/__init__.py:51-53 | the directories from component `i` on are the join of the first `i + 1` components, unless empty, then the rest |
| FileWriters.PrefixesOrdered | filewriter/__init__.py:51-56 | every directory tried is a proper prefix of the next, so a parent is created before its child |
| FileWriters.PrefixesEndWithPath | filewriter/__init__.py:48-56 | for a non-empty path the last directory tried is the whole path |
| FileWriters.JoinPrefix | filewriter/__init__.py:52 | a join of fewer leading components is a proper prefix of a join of more |
| FileWriters.Disk.Mkdir | filewriter/__init__.py:39-57 | `mkdir` returns the sanitised path, tries every non-empty prefix of it shortest first (none for an empty path), and afterwards those directories exist, existing ones being no error |
| FileWriters.PathSplit | filewriter/__init__.py:77 | `os.path.split` gives a name without '/' that ends the path and a head that starts it |
| FileWriters.TargetParent | filewriter/__init__.py:78-80 | the file's directory is never empty, so nothing is opened at the root, and ends with '/' |
| FileWriters.Redirected | filewriter/__init__.py:80-84 | the file is opened as `name` inside its directory, and one level further, as `name/name`, exactly when `dir/name` is an existing directory |
| FileWriters.Disk.Open | filewriter/__init__.py:76-85 | `_open` writes to the redirected path of the sanitised name, after creating that name's directories |
| FileWriters.StaticOpen | filewriter/__init__.py:88-90 | the static `open` always raises NameError, since it passes the unbound name `file` |
| Codecs.Decoders | codec/__init__.py:28-36 | the decoder table has seven entries: AAMP, BY, SARC, FRES, Yaz0, Yaz1 and YB, in that order |
| Codecs.Encoders | codec/__init__.py:24-25 | the encoder table is empty |
| Codecs.NoMatch | codec/__init__.py:52-54 | with no match the error is always raised: UnsupportedFileTypeError with the next four bytes, or a struct.error from building its message when fewer than four bytes are left (also codec/base/exceptions.py:20-23) |
| Codecs.Sniff | codec/__init__.py:47-54 | `findClass` on the file's bytes, first match in table order: its only failure is the no-match error, the 4 bytes at the position or struct.error when fewer remain |
| Codecs.SniffFirst | codec/__init__.py:48-51 | the first entry in table order whose magic equals the next bytes decides, whatever the later entries are |
| Codecs.SniffNone | codec/__init__.py:48-54 | when no magic matches, the search ends in the no-match error |
| Codecs.SniffFound | codec/__init__.py:48-51 | a class is returned only for an entry whose magic matched with no earlier entry matching |
| Codecs.ShortNoMatch | codec/__init__.py:49-51 | a magic longer than what is left of the file is simply no match |
| Codecs.DiffersAt | codec/__init__.py:49-51 | a probe fails as soon as one byte within reach differs from the magic |
| Codecs.NoEncoder | codec/__init__.py:24-62 | `getEncoderForFile` always raises, since no encoder is registered |
| Codecs.Yaz1IsYaz0 | codec/__init__.py:28-36 | a Yaz1 stream gets the Yaz0 decoder, the earlier probes all failing on it |
| Codecs.ByIsByml | codec/__init__.py:30 | a file starting with BY gets the BYML decoder |
| Codecs.FindClass | codec/__init__.py:38-54 | `findClass` returns the first-match result and leaves the read position where it was, after every probe and after the fallback read |
| Codecs.GetDecoderForFile | codec/__init__.py:65-70 | sniffing against the decoder table, the position restored |
| Codecs.GetEncoderForFile | codec/__init__.py:57-62 | always the no-match error, the position restored |
| App.Pow1024 | app/__init__.py:30-31 | the divisor after `k` divisions by 1024 is at least 1 |
| App.SizeText | app/__init__.py:27-33 | `_format_size` as a function: its only failure is an IndexError, which happens exactly when the unit search runs past 'G' |
| App.FormatSize | app/__init__.py:27-33 | the loop of `_format_size` computes the size text |
| App.ScaledAbove | app/__init__.py:30-31 | comparing the size divided `k` times by 1024 with 9999 is comparing the size with `9999·1024^k`, exactly |
| App.FloorQuotient | app/__init__.py:33 | `'%4d'` of the divided size is the integer quotient of size by the unit |
| App.UnitIsSmallest | app/__init__.py:28-32 | the unit chosen is the smallest `k` with `size <= 9999·1024^k`, or 4 when none of 0..3 is |
| App.SizeTextFails | app/__init__.py:30-33 | the size text fails exactly above `9999·1024^3` bytes, with IndexError from `units[4]` |
| App.SizeTextShape | app/__init__.py:27-33 | any smaller size shows as five characters: the quotient by the smallest fitting unit right-aligned in four columns, then ' ', 'K', 'M' or 'G' |
| App.DecoderObj | codec/base/decoder.py:35 | a freshly constructed decoder has the extension 'extracted' but no name, no data and no `isListable` (also app/__init__.py:76) |
| App.Walk | app/__init__.py:59-91 | `get_files`: an object with data gives at least one entry whenever the walk succeeds, and an object with neither data nor `isListable` gives none |
| App.WalkChildren | app/__init__.py:88-90 | the loop over `objects`: children that all have data give at least one entry each |
| App.Rank | app/__init__.py:76-90 | an object ranks above all its children together, so the walk terminates |
| App.OwnName | app/__init__.py:60-62 | the object's own name, else the inherited one, with '.' and the extension appended whenever there is an extension, which is a TypeError when the name is a number |
| App.DecoderGivesNothing | app/__init__.py:83-86 | walking a decoder gives no entries |
| App.UnknownBytesGiveOne | app/__init__.py:64-74 | an object whose bytes (at least four) match no magic gives exactly one entry, under its own name, with its bytes |
| App.DecodedFallsBack | app/__init__.py:71-81 | an object whose bytes a decoder opens still gives exactly one entry for itself, since the nested walk is always empty |
| App.NumberedDecodedFails | app/__init__.py:62-90 | an object known only by a number whose bytes decode fails with TypeError, the nested walk appending '.extracted' to that number |
| App.DataGivesOne | app/__init__.py:64-82 | every object with data gives one entry, for itself with its own bytes, or an error: nothing nested is ever listed |
| App.WalkChildrenAppend | app/__init__.py:89-90 | the children's entries are concatenated in order, and the walk fails exactly when one child's does |
| App.UnnamedChildWithExt | app/__init__.py:60-90 | a child without a name of its own inherits the number `_depth + 1`, and with an extension its walk, and its parent's, fails with TypeError |
| App.Writes | app/__init__.py:99-105 | the extraction loop as a function: on success there is one file per entry, in order, holding that entry's bytes at `dest/name`, and every name is text |
| App.WritesAll | app/__init__.py:99-105 | the extraction loop writes every entry, with its own bytes to `dest/name`, exactly when every entry's name is text; otherwise it is a TypeError |
| App.WritesStep | app/__init__.py:99-105 | one more entry with a text name adds one file and the directories that opening it creates |
| App.ExtractItems | app/__init__.py:99-107 | a dry run writes nothing and creates no directory; otherwise the loop writes the entries and creates exactly the directories their files need |
| App.ExtractRecursive | app/__init__.py:94-107 | the sniffing error of the input, if any, or the error its decoder raises on construction, is the result; otherwise the walk of the decoder is empty, so nothing is written and no directory is created, dry run or not |

## Left out

- StructFormat: formats without a byte-order prefix use the host's order; the model takes the host to be little-endian, uses the standard sizes and adds no native alignment padding. No format of the modelled core uses a native `l`/`L` or a layout that native alignment would pad, so the results are the same.
- Sarc.Archive.ReadName: returns the name's bytes, and SarcRecords.NameText shows them one character per byte (Latin-1). The source decodes UTF-8 here (structreader/__init__.py:101-110), so a name that is not valid UTF-8 does not fail in the model the way it fails in the source. Text decoding is not modelled anywhere.
- StructReaders.ReadString: returns the bytes read. The source then calls `s.decode()` (UTF-8, whatever `encoding` names), and that decode and its UnicodeDecodeError are not modelled.
- StructReaders.ReadStringWithLength: returns the bytes read, without the final `decode(encoding)`.
- FileReaders.FileReader.ReadString: leaves the text undecoded. The shift-jis decode and the logged UnicodeDecodeError (filereader/__init__.py:119-123) are not modelled. CodecFileReaders.FileReader.ReadString does the same.
- FieldTypes.ReadStr: records which encoding the text would be decoded with (`Decoded(bytes, encoding)`) but does not decode it.
- AampTypes.ReadString: keeps the string as bytes. The shift-jis decode, its UTF-8 fallback and a LookupError are not modelled (codec/aamp/aamp/types.py:42-47). Aamp.Render takes `str()` of a value as a parameter for the same reason.
- Png.WriteIdat: zlib's `compress` is a parameter. It is a foreign library function, so the model says nothing about the compressed bytes beyond where they go.
- Png.WriteToFile: zlib's `crc32` is a parameter (`Checksum`) as well. `IendBlock` instantiates it with Checksums.Crc, the CRC-32 that function computes.
- BcnImage.Decode: the swizzle's `getOffset` and the texture format's `depth` are parameters, because the swizzle and format classes are not part of this model. The depth the source returns alongside the pixels is left out.
- Logging: warnings are kept only where they change a result, as flags or lists of warnings (FileWriters.SanitizePath's `warned`, the messages the padding checks of FieldTypes log, the header validators' warning lists). Log output, `dumpToDebugLog`/`dumpOffsets` and the index-group print dump (codec/fres/fres/idxgrp.py:58-60) are not modelled.
- FileWriters.Disk: directories are kept as a set of path strings. Paths are not normalised, so `a/./b`, `a//b` and `a/b/` are not the directory `a/b`, as they are to `os.path.isdir`. Failures of `mkdir` and `open` in the operating system (permissions, a path component that is a file) are not modelled.
- FileWriters: the writer's `write`, `seek` and `tell` pass straight through to the opened file, and are not modelled. Neither is `DummyFileWriter`, which writes to the null device.
- App: the temporary files that `get_files` extracts into are not modelled; each object's bytes are given directly.
- Aamp.NodeAt: recursion is bounded by `fuel`, and RecursionLimit stands for Python's recursion limit. `names` stands for the name-hash table (names.py), which is read from a text file. Aamp.NodeAtAsWritten is bounded the same way.
- App.Walk: `open` stands for a decoder's constructor, so the bytes of each format are not decoded inside the walker. App.ExtractRecursive takes the same parameter.
- Files and I/O: real files, standard output and `open` are replaced by byte sequences (ByteSource.BinFile) and by the `Png.Sink` and `FileWriters.Disk` objects.
- Floating point: the AAMP float and vector types keep their raw bytes. The COLLADA writer's `_serializeAttribute` and `_makeArrayForAttribute` (codec/fres/fres/fmdl/collada.py:207-274) and the x3d and vmath modules are not modelled.
- Collada: `toXML` and the lxml serialisation are not modelled. Neither is the effect subtree of `addFMAT` (codec/fres/fres/fmdl/collada.py:147-170), which is built, named by `id(fmat)` and then dropped, nor the attribute loop of `addFVTX` (codec/fres/fres/fmdl/collada.py:112-115). Attribute values are kept as their `str()` text.
- Collada.MakeAccessor: its `arrayId` parameter stands for `id(attr)`, an object address.
- XmlElements.Element.Get: takes at most one default. Python's `get` with two or more defaults raises TypeError, and that call is not modelled.
- FresHeaders.Header.ReadFromFile: a header record that fails validation still leaves its fields on the object in the source (they are set before `validate` runs); the model keeps the fields only once they validate.
- FresHeaders: the RLT's words other than its magic and data_start are kept but not named, and the debug log line is not modelled. The `log.error` branch for an unknown type (codec/fres/fres/header.py:166-167) cannot be reached and is not modelled.
- StringTables, NameDicts: codec/base/strtab.py and codec/base/dict.py import `StructReader` and `BinaryObject` from structreader/__init__.py, but use a reader that module does not have: `size=` and bare `Padding` fields in the constructor, `.size`, `unpackFromFile`, `self._file` and a `validate` that checks `_magic`. With that module's reader the class bodies raise TypeError on import. Both are modelled against the reader they are written for: a record of `size` bytes read with `unpackFromFile`, and the `BinaryObject` of structreader/binaryobject.py, which keeps `_file` and checks `_magic`. That reader is not part of this model beyond what these modules use. The assumed reader yields a field with a single value as a scalar, so `item['nameoffs']` is the integer offset (NameDicts.SlotAt, NameDicts.ReadSlot), as codec/fres/fres/fresobject.py:27-30 also needs when it hands a `StrOffs` field's value straight to `readStr`, which seeks to it; the `BaseType.read` of codec/base/types.py:38-39 alone would give a one-element tuple (FieldTypes.ReadOffset).
- StringTables, NameDicts: the partly filled list that an exception leaves behind, and the file position after the dictionary's loop, are not modelled.
- StructReaders.FieldValue: a field whose type is a reader class calls `typ.read(file)` with an unbound `file`, and the model makes that a NameError. `_unpack` walks the field definitions in order; the model uses the ordered field list, which is the same whenever the names are distinct, as `Layout` requires.
- App: `list_codecs`, `_list_recursive` and `list_file` only print, and are not modelled.
- Sarc.PrintList, Sarc.Describe: the lines and the description are modelled as text; writing them to standard output is not.
- StructReaders.ReadUntilNul, FileReaders.FileReader.ReadUntilNul, CodecFileReaders.FileReader.ReadUntilNul: with no limit and no NUL left, the source's loop never ends, because `file.read(1)` returns `b''` at the end of the file and that is never `b'\0'`. The model returns `Err(NoTerminator)` in its place. Everything built on these scans inherits it: Sarc.NameAt, FieldTypes.NulTerminatedField, AampTypes.StringRead and ByteSource.CString.
- Yaz0.Yaz0Stream.Read: only `read()` with no size limit is modelled. `read(size)` stops after `size` bytes, and each call restarts the token counters (codec/yaz0/decoder.py:83-84, 110-115), so only a single full decode is modelled.
- Container and object-graph code: the FRES model objects (fmdl, fshp, fskl, fvtx, fmat and the rest), the BNTX loaders (bntx.py, brti.py, nx.py), `pixelfmt/format.py`, the base decoder's `mkdir`/`mkfile`/`writeFile` and the archive decoder are not part of this model. These are file-format scaffolding around the readers above, or they refer to names that do not exist.
- Dead code: codec/sarc.py and codec/base/encoder.py are not part of this model. The first refers to undefined names; the second is an empty stub. `__main__.py`'s argument parsing and `main`, which calls an undefined `extract_file`, are left out too.
- BYML and XML documents: codec/byml/decoder.py and myxml/document.py depend on modules that are not part of this model.

## Findings

| source | as written | input that shows it | evidently intended | confidence | as-written member | corrected member |
|---|---|---|---|---|---|---|
| codec/yaz0/decoder.py:95-104 | a back-reference's source `dest_pos - distance - 1` is never checked against the start of the output, and a negative index reads the output list from its end | a Yaz0 file of declared size 4 holding a literal 'A' and then a back-reference of distance 2 and length 3: it decodes to "AAAA" | a back-reference before the start of the output is an error | not executed | Yaz0.WrapAsWritten | Yaz0.WrapChecked (the checked decoder; Yaz0.CheckedAgrees proves both decoders give the same bytes wherever the checked one succeeds) |
| codec/bntx/pixelfmt/bc/base.py:57-60 | in the four-value alpha mode (`a0 <= a1`) the weights add up to 5, yet the sum is divided by 7 | alpha endpoints 0xFF and 0xFF: entry 2 of the table is 182 | divide by 5, so that every entry lies between the endpoints | not executed | Bcn.AlphaRampAsWritten | Bcn.AlphaRampCorrected |
| codec/bntx/pixelfmt/bc.py:130-131 | the block's alpha words are unpacked as signed (`'ii'`), so a low word with its top bit set makes `alphaLo \| (alphaHi << 32)` negative and every alpha of rows 2 and 3 reads 15 | alpha bytes 00 00 00 80 00 00 00 00: texel 8 is 0xFF instead of 0 | unpack the words unsigned (`'II'` or one `'Q'`), so the 16 alphas are the base-16 digits of the 64-bit word | not executed | Bcn.Bc2SignedAlphaQuirk (with Bcn.Bc2AlphaAsWritten for every block) | Bcn.Bc2AlphaCorrected |
| codec/bntx/pixelfmt/bc.py:123-140 | the BC2 buffer holds `depth >> 3` bytes a tile, where BC1 uses 64; this depends on the format's `depth`, which is defined outside this model, being 32 | a BC2 texture of one tile (width and height 1 to 4) with `depth` 32: the buffer has 4 bytes, and setting the second texel's alpha raises IndexError | 64 bytes a tile, as BC1 allocates | not executed | BcnImage.Bc2BufferTooSmall | BcnImage.ImageContent |
| structreader/binaryobject.py:19-31 | a 'c' field unpacks to a one-byte `bytes` object, `escape` turns only a `str` into an integer, and then compares the bytes with integers: `c < 0x20` raises TypeError | any struct with a 'c' field, for example the byte 0x41 | escape the field's single byte | not executed | BinaryObjects.CharFieldFails | BinaryObjects.CharFieldFixed |
| filewriter/__init__.py:88-90 | the static `open(path, mode)` passes the unbound name `file` instead of `path` | any call, for example `FileWriter.open('out.bin')`: NameError | `FileWriter(path, mode)` | not executed | FileWriters.StaticOpen | FileWriters.Disk.Open |
| codec/aamp/aamp/node.py:55 | with the `StructReader` of structreader/__init__.py, which node.py imports: `readFromFile` subtracts `self._reader.size`, but that reader keeps its size in `_dataSize`, so every node and root read ends in AttributeError | a single bool node (hash 0, payload offset 2, no children, type 0) followed by its payload | subtract the record size, so the payload is read at `4 * data_offset` from the record's start | low, not executed: codec/base/strtab.py and dict.py import the same module but use `size=` and `.size`, so the code was probably written against a newer reader that has `size`, against which this line is correct | Aamp.BoolNodeAsWritten (with Aamp.AsWrittenNeverReads for every record) | Aamp.BoolLeafExample (with Aamp.NodeAt for every node) |
