# ConditionsTextRepository snapshot codec, in Dafny

DD4hep's `dd4hep::cond::ConditionsTextRepository` saves condition references as a snapshot file and loads them back. Each reference is an entry `{key, name, address}` with a 64-bit key. `save` walks the conditions manager and collects every condition into a `std::map` keyed by the condition key. It then writes the map in the format the output name selects:

- XML, one `ref` element per entry, for a name containing `.xml`;
- fixed-column text for `.txt` or `.daf`;
- `;`-separated text for `.csv`.

`load` picks the reader the same way and appends the entries it reads to the caller's vector.

This project models all of that:

- the map and the pool traversal, on sequences;
- the text writer, as functions plus the imperative sizing and writing passes;
- the text reader, imperatively. It works on a reused `char` buffer of 2·PATH_MAX+64 bytes and writes NULs into it in place, exactly at the offsets the source uses. The entry is carried from line to line, and `size_t` wrap-around is modelled in the consistency checks;
- the XML writer and reader, over a document reduced to its root's children;
- the caller's entry vector, as a class whose capacity grows by 500.

It proves the following:

- The collection holds one entry per key, in ascending key order, and each entry is the last condition met with its key.
- Dispatch on the name is consistent between `save` and `load`.
- The header sizes are the maxima the format claims.
- Every key survives the XML round trip.
- The text formats round-trip, field by field as C strings, once the key column is as wide as the reader assumes.
- As written, the text formats do not round-trip (see Findings).
- As written, a fixed-column file whose columns fill the buffer to its last character loses its keys (see Findings).

Files:

- `options.dfy`: the `Option` type.
- `ctext.dfy`: C strings, `find`, padding, white space.
- `numerals.dfy`: `%X`/`<<` numerals and their `sscanf`/`>>` readers.
- `conditions.dfy`: entries, the key-ordered collection, the entry vector.
- `text_format.dfy`: `createText`.
- `text_reader.dfy`: `readText`.
- `text_roundtrip.dfy`: text round trips with the 8-wide key column.
- `text_findings.dfy`: the as-written 16-wide key column.
- `xml_format.dfy`: `createXML`/`readXML`.
- `repository.dfy`: `save`/`load`.

## Model

| member | source | states |
|---|---|---|
| CText.IndexOf | DDCond/src/ConditionsTextRepository.cpp:177 | `find`: the first position of the character, every earlier one differs, and it is the length exactly when the character is absent |
| CText.CStr | DDCond/src/ConditionsTextRepository.cpp:175-176 | a string taken from `text+i` is the prefix up to the first NUL, holds no NUL, and a NUL follows it when the buffer goes on |
| CText.CutAt | DDCond/src/ConditionsTextRepository.cpp:177-180 | `s[s.find(c)]=0` keeps the length, puts NUL at the first `c` and keeps every other character before and after it; nothing changes when there is no `c` |
| CText.CStrOfCut | DDCond/src/ConditionsTextRepository.cpp:187-188 | a word followed by the cut character reads back as the word |
| CText.SkipWsPadding | DDCond/src/ConditionsTextRepository.cpp:193 | leading blanks before a non-blank are skipped by a `%X` conversion, and nothing more is |
| Numerals.ValueOfNumeral | DDCond/src/ConditionsTextRepository.cpp:133-136 | the decimal or hex numeral of n denotes n |
| Numerals.HexLength | DDCond/src/ConditionsTextRepository.cpp:63 | every 64-bit key has at most 16 hex digits, one below 2^32 at most 8 |
| Numerals.ScanHex | DDCond/src/ConditionsTextRepository.cpp:193 | `sscanf("%16llX")` succeeds exactly when a hex digit follows the white space |
| Numerals.ParseSize | DDCond/src/ConditionsTextRepository.cpp:154-157 | `>> siz` of a `size_t`: skip white space, read the decimal digits that follow as a number, and fail when there is none or the value does not fit in 64 bits |
| Numerals.ScanHexOfNumeral | DDCond/src/ConditionsTextRepository.cpp:139-193 | a key printed with `%<w>llX` after any padding, followed by a non-digit, scans back to that key |
| Numerals.ParseSizeOfNumeral | DDCond/src/ConditionsTextRepository.cpp:154-157 | a size printed with `<<` reads back with `>>`, leaving what follows |
| Conditions.Lookup | DDCond/src/ConditionsTextRepository.cpp:37 | the entry a key maps to is in the collection and has that key; none exactly when no entry has the key |
| Conditions.Put | DDCond/src/ConditionsTextRepository.cpp:215 | `all[c.key()] = c`: afterwards the key maps to `c`, every other key is unchanged, nothing else is added, and ascending order is kept |
| Conditions.Collected | DDCond/src/ConditionsTextRepository.cpp:205-219 | the map after the conditions met so far: each condition put in turn, a later one replacing an earlier one with the same key (its properties are `CollectedIsLastByKey`) |
| Conditions.CollectedIsLastByKey | DDCond/src/ConditionsTextRepository.cpp:205-219 | the map after all conditions is ascending by key, maps each key to the last condition met with it, and holds only conditions met |
| Conditions.Data.Append | DDCond/src/ConditionsTextRepository.cpp:192-195 | one entry is appended after the earlier ones; capacity grows by 500 exactly when the vector was full |
| TextFormat.WidthsAreMaxima | DDCond/src/ConditionsTextRepository.cpp:122-129 | `siz_nam`, `siz_add` and the pair width bound every entry and are reached by some entry; all 0 for no entries |
| TextFormat.HeaderLine | DDCond/src/ConditionsTextRepository.cpp:133-136 | the header line: `dd4hep.`, the separator or '-', then the three sizes in decimal, separated by '.' |
| TextFormat.KeyField | DDCond/src/ConditionsTextRepository.cpp:119-131 | the `%16llX` key column: the key's upper-case hex numeral right-justified with blanks in a column `w` wide (16 as written), wider only when the numeral is |
| TextFormat.FixedRecord | DDCond/src/ConditionsTextRepository.cpp:131-139 | a fixed-column record: the key right-justified in a column `w` wide (16 as written), a blank, the name up to its first NUL padded to `siz_nam`, a blank, the address up to its first NUL padded to `siz_add` |
| TextFormat.DelimRecord | DDCond/src/ConditionsTextRepository.cpp:119-139 | a separated record: the key right-justified in a column `w` wide (16 as written), then the name and the address, each up to its first NUL and followed by the separator |
| TextFormat.TextFile | DDCond/src/ConditionsTextRepository.cpp:104-145 | the whole text file: the header line, a newline, then one truncated record line and newline per entry; nothing in the minimal build |
| TextFormat.PairWidthBelowSum | DDCond/src/ConditionsTextRepository.cpp:128 | the longest name plus address of one entry is at most `siz_nam + siz_add` |
| TextFormat.PairWidthCanBeLess | DDCond/src/ConditionsTextRepository.cpp:128-130 | names and addresses 3+0 and 0+4 give `siz_tot` 15, not `siz_nam + siz_add + 11` = 18 |
| TextFormat.ColumnSizes | DDCond/src/ConditionsTextRepository.cpp:122-130 | the sizing loop ends with the maximum name, the maximum address, and the maximum pair plus 8+2+1 |
| TextFormat.WriteRecords | DDCond/src/ConditionsTextRepository.cpp:137-141 | the writing loop emits one line per entry, in collection order, each followed by a newline |
| TextFormat.CreateText | DDCond/src/ConditionsTextRepository.cpp:104-145 | `createText` writes the header with the three sizes and then the records; the minimal build writes an empty file |
| TextFormat.Truncated | DDCond/src/ConditionsTextRepository.cpp:139 | `snprintf` into `text` keeps a prefix of at most BufSize - 1 characters, all of a shorter line |
| TextFormat.EmptyCollectionHeader | DDCond/src/ConditionsTextRepository.cpp:130-136 | with no entries the fixed-column file is exactly `dd4hep.-.0.0.11` and a newline |
| TextFormat.DelimitedHeader | DDCond/src/ConditionsTextRepository.cpp:118-136 | with a separator the header carries it and all three sizes are 0 |
| TextFormat.FixedRecordsEquallyLong | DDCond/src/ConditionsTextRepository.cpp:131-140 | every fixed-column record line has length w + 2 + `siz_nam` + `siz_add`, which is 18 + `siz_nam` + `siz_add` for the 16-wide column |
| TextFormat.ScanKeyField | DDCond/src/ConditionsTextRepository.cpp:119-193 | a key printed right-justified in any width scans back with `%16llX` |
| TextReader.Getline | DDCond/src/ConditionsTextRepository.cpp:159-163 | `getline` leaves the stream good exactly when a newline comes within BufSize - 1 characters; the line holds no newline and the stream goes on after it |
| TextReader.Store | DDCond/src/ConditionsTextRepository.cpp:161-162 | the buffer after `getline` stores a line: the line, a NUL, then the bytes the buffer held before, BufSize in all |
| TextReader.ReadChar | DDCond/src/ConditionsTextRepository.cpp:154 | `>> c` into a `char`: skip white space and take one character; fail at the end of the stream |
| TextReader.SkipChars | DDCond/src/ConditionsTextRepository.cpp:154 | `n` extractions `>> c` whose characters are not looked at; fail when one of them fails |
| TextReader.ReadSize | DDCond/src/ConditionsTextRepository.cpp:154-157 | `>> c >> siz`: one character skipped, then a `size_t` |
| TextReader.ParseHeader | DDCond/src/ConditionsTextRepository.cpp:154-157 | the header extractions: seven characters skipped unchecked, the separator slot, then three sizes each after one skipped character; nothing once an extraction fails |
| TextReader.GetlineInto | DDCond/src/ConditionsTextRepository.cpp:161-163 | the line is copied into the buffer and NUL-ended, and the bytes after it keep their old contents |
| TextReader.StoreOverwritesFirst | DDCond/src/ConditionsTextRepository.cpp:161-162 | `text[0] = 0` before `getline` makes no difference once the line is stored |
| TextReader.WrapIsModulo | DDCond/src/ConditionsTextRepository.cpp:164-171 | `size_t` sums are taken modulo 2^64 |
| TextReader.Consistent | DDCond/src/ConditionsTextRepository.cpp:166-171 | the two checks before a line is cut: 9+`siz_nam` and 10+`siz_nam`+`siz_add`, each wrapped to `size_t`, below BufSize; a good line that fails them raises |
| TextReader.NamOffset | DDCond/src/ConditionsTextRepository.cpp:164 | `idx_nam` lies inside the buffer; it is 9+`siz_nam` when that is below BufSize - 1, and 0 when 9+`siz_nam` (wrapped) is BufSize - 1 or more |
| TextReader.AddOffset | DDCond/src/ConditionsTextRepository.cpp:165 | `idx_add` lies inside the buffer; it is 10+`siz_nam`+`siz_add` when that is below BufSize - 1, and 0 when 10+`siz_nam`+`siz_add` (wrapped) is BufSize - 1 or more, even though the check at line 169 lets BufSize - 1 through |
| TextReader.FixedFields | DDCond/src/ConditionsTextRepository.cpp:164-181 | the fixed branch on the buffer: NULs at `idx_add`, `idx_nam` and 8, the name from 9 and the address from `idx_nam`+1, each cut at its first blank; the buffer keeps its length |
| TextReader.DelimFields | DDCond/src/ConditionsTextRepository.cpp:182-191 | the separated branch on the buffer: the name from 9 cut at its first separator, the address after it, or the previous address when there is none, cut at its separator, else at its newline; the buffer keeps its length |
| TextReader.AddressCut | DDCond/src/ConditionsTextRepository.cpp:188-191 | the address of a separated line cut at its first separator, else at its first newline, else left whole |
| TextReader.Record | DDCond/src/ConditionsTextRepository.cpp:172-193 | one record: the branch chosen by `siz_tot`, then the key scanned from the buffer's C string, the previous key kept when the scan fails; the buffer keeps its length |
| TextReader.DecodeLines | DDCond/src/ConditionsTextRepository.cpp:160-197 | the reading loop: stop at the first line that is not good, raise on a good line when the sizes fail the checks, otherwise append the record and go on with the buffer and entry it left |
| TextReader.DecodeText | DDCond/src/ConditionsTextRepository.cpp:148-200 | `readText`: parse the header, skip the rest of its line, then the reading loop from a fresh entry; nothing loaded when the header or its line is not read |
| TextReader.FixedFieldsInRange | DDCond/src/ConditionsTextRepository.cpp:172-181 | with in-range sizes the fixed branch writes NUL at 8, 9+`siz_nam` and 10+`siz_nam`+`siz_add`, and takes the name from 9 and the address from 10+`siz_nam`, each cut at its first blank |
| TextReader.CutFixed | DDCond/src/ConditionsTextRepository.cpp:172-181 | the fixed branch, in place on the buffer, leaves the buffer, name and address that the fixed-field cut describes |
| TextReader.CutDelimited | DDCond/src/ConditionsTextRepository.cpp:182-191 | the separated branch, in place, cuts the name at its first separator and keeps the previous address when there is none; the address is cut at its separator, else at its newline |
| TextReader.CutRecord | DDCond/src/ConditionsTextRepository.cpp:172-193 | one loop body: the branch chosen by `siz_tot`, then the key scanned from the buffer's C string, the previous key kept when the scan fails |
| TextReader.ReadRecords | DDCond/src/ConditionsTextRepository.cpp:160-197 | the reading loop appends exactly the decoded entries after the vector's earlier entries, and returns 1 or raises as the decoding says |
| TextReader.ReadText | DDCond/src/ConditionsTextRepository.cpp:148-200 | `readText` appends exactly what decoding the file gives, keeps earlier entries, and returns 1 unless it raises |
| TextReader.SkipCharsOf | DDCond/src/ConditionsTextRepository.cpp:154 | the seven `>> c` reads take the seven non-blank characters `dd4hep.` |
| TextReader.HeaderRoundTrip | DDCond/src/ConditionsTextRepository.cpp:133-157 | the header `createText` writes parses back to its separator slot ('-' for fixed columns) and its three sizes, with the newline still ahead |
| TextReader.DecodeTextOfHeader | DDCond/src/ConditionsTextRepository.cpp:154-162 | after a written header the loop starts on the next line, with a NUL at the buffer's front and a fresh entry |
| TextReader.DecodeLinesFailure | DDCond/src/ConditionsTextRepository.cpp:163-171 | the loop raises exactly when the sizes fail the checks and a good line is there; it then appends nothing and names the three sizes |
| TextReader.ConsistentSizes | DDCond/src/ConditionsTextRepository.cpp:166-169 | without wrap-around the checks are 9+`siz_nam` < BufSize and 10+`siz_nam`+`siz_add` < BufSize |
| TextReader.WrappedSizesPass | DDCond/src/ConditionsTextRepository.cpp:164-171 | a header with `siz_nam` = 2^64 - 9 passes both checks, because the sums wrap |
| TextReader.IntendedChecks | DDCond/src/ConditionsTextRepository.cpp:164-171 | checks tightened to the offsets' bound pass exactly when the checks pass and neither offset falls back to 0; without wrap-around they are 10+`siz_nam`+`siz_add` < BufSize - 1 |
| TextRoundTrip.FixedFieldsOfLine | DDCond/src/ConditionsTextRepository.cpp:172-181 | cutting a fixed line gives the key column as the C string at 0, and the name and address back from their padded columns |
| TextRoundTrip.DelimFieldsOfLine | DDCond/src/ConditionsTextRepository.cpp:182-191 | cutting a separated line gives the name up to the first separator and the address up to the next; the key is scanned from the key column, separator and name |
| TextRoundTrip.FixedRecordOfLine | DDCond/src/ConditionsTextRepository.cpp:131-193 | a fixed line with the 8-wide key column is a good line and reads back as its entry, as C strings |
| TextRoundTrip.DelimRecordOfLine | DDCond/src/ConditionsTextRepository.cpp:119-193 | a separated line with the 8-wide key column is a good line and reads back as its entry, as C strings |
| TextRoundTrip.LinesRoundTrip | DDCond/src/ConditionsTextRepository.cpp:137-197 | if every line reads back as its entry whatever the buffer and previous entry, the loop reads back all entries with no error |
| TextRoundTrip.FixedRoundTrip | DDCond/src/ConditionsTextRepository.cpp:106-200 | a fixed-column file written with the 8-wide key column reads back every entry, in order, with no error, its fields equal as C strings; for keys below 2^32, fields without blank, NUL or newline, and 10+`siz_nam`+`siz_add` below BufSize - 1, the bound below which `idx_add` does not fall back to 0 (`BoundaryKeyLost`) |
| TextRoundTrip.DelimRoundTrip | DDCond/src/ConditionsTextRepository.cpp:106-200 | a separated file written with the 8-wide key column reads back every entry, in order, with no error, its fields equal as C strings; for keys below 2^32 and fields without the separator, NUL or newline |
| TextFindings.AsWrittenKeysLost | DDCond/src/ConditionsTextRepository.cpp:131-193 | a fixed-column file as written, with the 16-wide key column, reads back as many entries with no error, but every key below 2^32 comes back 0, so the collection differs whenever a key is nonzero; names and addresses are taken from the wrong columns too, which this lemma does not state |
| TextFindings.AsWrittenDelimShifted | DDCond/src/ConditionsTextRepository.cpp:119-193 | a separated file as written reads back each entry with its key, the key column's last seven characters as its name, and its name as its address |
| TextFindings.CsvExample | DDCond/src/ConditionsTextRepository.cpp:119-193 | the `.csv` file for {0x2A, "foo", "bar"} as written loads as {0x2A, "     2A", "foo"} |
| TextFindings.CsvExampleCorrected | DDCond/src/ConditionsTextRepository.cpp:119-193 | with the 8-wide key column the same file loads as {0x2A, "foo", "bar"}, as C strings |
| TextFindings.BoundaryKeyLost | DDCond/src/ConditionsTextRepository.cpp:164-193 | with 10+`siz_nam`+`siz_add` = BufSize - 1 both checks pass and a line of BufSize - 1 characters is good, but `idx_add` is 0, `text[0]` is zeroed and the entry keeps the previous line's key |
| XmlFormat.XmlKeyFits | DDCond/src/ConditionsTextRepository.cpp:50-63 | `"0x%16llX"` always prints 18 characters, so the 32-byte buffer never cuts a key |
| XmlFormat.XmlKey | DDCond/src/ConditionsTextRepository.cpp:63 | the `"0x%16llX"` key attribute: `0x`, then the key's upper-case hex numeral right-justified with blanks in 16 columns |
| XmlFormat.ScanXmlKey | DDCond/src/ConditionsTextRepository.cpp:90 | `sscanf(key, "0x%16llX")` succeeds only after the literal `0x` |
| XmlFormat.XmlKeyRoundTrip | DDCond/src/ConditionsTextRepository.cpp:63-90 | every 64-bit key written with `"0x%16llX"` reads back with the same format |
| XmlFormat.RefElement | DDCond/src/ConditionsTextRepository.cpp:64-69 | the `ref` element carries `key` and the name up to its first NUL, and carries `ref` (the address up to its first NUL) exactly when the build is not minimal |
| XmlFormat.Refs | DDCond/src/ConditionsTextRepository.cpp:62-70 | one element per condition, in collection order |
| XmlFormat.CreateXML | DDCond/src/ConditionsTextRepository.cpp:49-76 | `createXML` builds the `collection` document of those elements, and returns the writer's code when a name is given, else 1 |
| XmlFormat.MissingAttr | DDCond/src/ConditionsTextRepository.cpp:87-92 | an element is read without an exception exactly when it has `key`, `name` and `ref` |
| XmlFormat.RefEntry | DDCond/src/ConditionsTextRepository.cpp:87-94 | the entry of a complete `ref` element: its key scanned with `0x%16llX` (the fresh key when that fails), its `name` and its `ref` |
| XmlFormat.ReadRefs | DDCond/src/ConditionsTextRepository.cpp:86-99 | the callback over the root's children: non-`ref` elements skipped, the first `ref` element lacking an attribute raises after the entries before it, every other one appends its entry |
| XmlFormat.RefChildren | DDCond/src/ConditionsTextRepository.cpp:99 | the elements visited are exactly the root's children tagged `ref`, no more of them than children |
| XmlFormat.RefChildrenAppend | DDCond/src/ConditionsTextRepository.cpp:99 | the `ref` children are visited in document order: those of a first run of children, then those of the rest |
| XmlFormat.ReadRefsFailure | DDCond/src/ConditionsTextRepository.cpp:86-99 | non-`ref` children are skipped; the load raises exactly when a `ref` element lacks an attribute, and otherwise appends one entry per `ref` element |
| XmlFormat.XmlRoundTrip | DDCond/src/ConditionsTextRepository.cpp:62-99 | reading the elements `createXML` writes gives back every condition as C strings, in order, with no error; exactly the conditions whose name and address hold no NUL |
| XmlFormat.MinimalXmlLoadFails | DDCond/src/ConditionsTextRepository.cpp:67-92 | in the minimal build a non-empty XML snapshot raises on loading, for want of the `ref` attribute |
| XmlFormat.ReadXML | DDCond/src/ConditionsTextRepository.cpp:79-101 | `readXML` appends exactly the entries read, after the earlier ones, and returns 1 unless an element raises |
| Repository.Contains | DDCond/src/ConditionsTextRepository.cpp:221 | `find(pat) != npos` exactly when `pat` occurs at some position |
| Repository.SaveFormatOf | DDCond/src/ConditionsTextRepository.cpp:221-237 | the writer `save` picks: XML for `.xml`, else fixed records for `.txt` or `.daf`, else ';'-separated records for `.csv`, else none |
| Repository.LoadFormatOf | DDCond/src/ConditionsTextRepository.cpp:241-254 | the reader `load` picks: XML for `.xml`, else text for `.txt`, `.daf` or `.csv`, else none |
| Repository.Saved | DDCond/src/ConditionsTextRepository.cpp:204-238 | what `save` writes for the collection under a name: the `collection` document of `ref` elements for XML, the text file with its separator for text, nothing for other names |
| Repository.Loaded | DDCond/src/ConditionsTextRepository.cpp:241-254 | what `load` reads from an input: the `ref` entries of the document for XML, the decoded text file for text, nothing for other names |
| Repository.LoadMatchesSave | DDCond/src/ConditionsTextRepository.cpp:221-254 | `load` picks XML or text for a name exactly as `save` does; `.xml` wins; `.csv` means ';' only when no other extension occurs |
| Repository.XmlWinsOverCsv | DDCond/src/ConditionsTextRepository.cpp:221-236 | "run.csv.xml" is saved as XML |
| Repository.Collect | DDCond/src/ConditionsTextRepository.cpp:205-219 | the nested loops build the map of all conditions: ascending by key, the last condition per key, only conditions met |
| Repository.Save | DDCond/src/ConditionsTextRepository.cpp:204-238 | `save` writes the collection in the chosen format, text keys in a column `w` wide (16, `WrittenKeyWidth`, as written); it returns the XML writer's code, 1 for text, and 0 with nothing written for other names |
| Repository.Load | DDCond/src/ConditionsTextRepository.cpp:241-255 | `load` appends what the chosen reader reads and returns its result, or returns 0 with nothing appended for other names |
| Repository.SaveThenLoad | DDCond/src/ConditionsTextRepository.cpp:204-255 | with the 8-wide key column the reader assumes, saving under a known name and loading that file gives back the collection `save` built, as C strings, in every format (for keys below 2^32 and fields free of NUL, blank, ';' and newline) |
| Repository.SaveAsWrittenThenLoad | DDCond/src/ConditionsTextRepository.cpp:119-255 | `save` as written, then `load`: XML gives the collection back exactly; fixed records load as many entries, all with key 0, so a collection with a non-zero key is lost (the names and addresses are misread too, not stated here); `.csv` records load with each name replaced by the key column's tail and each address by the name |
| Repository.MinimalSaveThenLoad | DDCond/src/ConditionsTextRepository.cpp:204-255 | in the minimal build text snapshots load nothing, and a non-empty XML snapshot raises for want of `ref` |

## Left out

- File streams, `errno`/`strerror` and the open-failure exception are not modelled. A file is its characters (text) or its parsed document (XML).
- The XML library is not modelled:
  - document creation, parsing and output;
  - attribute escaping, assumed lossless;
  - the banner comment.
  - `Repository.Save` and `XmlFormat.CreateXML` take the writer's return code `outputRc` as a parameter.
  - `Repository.Load` takes the parsed document as a parameter.
- The `ConditionsManager` IOV-type and pool traversal and `select_all` are not modelled. `Repository.Collect` takes the conditions each pool selects as a sequence of sequences; null types and pools are not represented.
- `printout` logging is not modelled.
- `Numerals.ScanHex`: does not model the optional sign and `0x`/`0X` prefix that `%llX` also accepts. The writers never produce them in front of a key. A separated file whose separator is 'x' or 'X' could (a zero key followed by the separator and a name starting with a hex digit), so `TextRoundTrip.ValidSep` leaves those two separators out; `save` only uses ';' and the fixed layout.
- `Numerals.ParseSize`: does not model a sign before a size read with `>>`.
- `TextReader.GetlineInto`: a `getline` that fails stores part of a long line in the buffer. That state is left unspecified, because the loop ends right after it.
- `TextReader.FreshEntry` and `XmlFormat.FreshKey`: the default key of `ConditionsTextRepository::Entry` is taken to be 0. The header that declares it is not part of this model.
- `TextRoundTrip.FixedRoundTrip`, `TextRoundTrip.DelimRoundTrip`, `TextFindings.CsvExampleCorrected`, `Repository.SaveThenLoad`: entries come back equal as C strings (`Conditions.Views`), not as `std::string`s. A name or address read from a text file keeps the NUL written into it and the rest of its column: a fixed-column name "foo" in a 7-wide column loads as the 7 characters `foo`, NUL, three blanks, and a separated address "bar" as `bar` and NUL.
- `Repository.SaveThenLoad`: proved for the 8-wide key column only. `save` as written does not round-trip in the text formats (`Repository.SaveAsWrittenThenLoad`).
- `CText.CStr`: a buffer with no NUL is read up to its end. C would read past it.
- The model keeps integers unbounded except where `size_t` wrap-around changes a branch (the two consistency checks and the two offsets).

## Findings

| source | as written | input that shows it | evidently intended | confidence | as-written member | corrected member |
|---|---|---|---|---|---|---|
| DDCond/src/ConditionsTextRepository.cpp:131 | fixed-column records print the key with `%16llX`, but the reader ends the key column with `text[8]=0` (line 174) and takes the name from offset 9 | a `.txt` snapshot of {0x2A, "foo", "bar"}: the first 8 characters of the key column are blanks, so the key scans as nothing and stays 0 | a key column 8 wide, the width the reader's offsets and `siz_tot += 8+2+1` assume; with it every entry whose key is below 2^32 comes back, as C strings (a 64-bit key wider than 8 digits still does not fit) | not executed | TextFindings.AsWrittenKeysLost | TextRoundTrip.FixedRoundTrip |
| DDCond/src/ConditionsTextRepository.cpp:119 | separated records print the key with `%16llX<sep>`, but the reader takes the name from offset 9 (line 184) | a `.csv` snapshot of {0x2A, "foo", "bar"} loads as {0x2A, "     2A", "foo"} | a key column 8 wide, so that the name starts at offset 9; this holds keys below 2^32 only | not executed | TextFindings.CsvExample | TextFindings.CsvExampleCorrected |
| DDCond/src/ConditionsTextRepository.cpp:165 | `idx_add` falls back to 0 unless 10+`siz_nam`+`siz_add` < `sizeof(text)-1`, but the check at line 169 only rejects 10+`siz_nam`+`siz_add` >= `sizeof(text)` | a fixed-column file with `siz_nam`+`siz_add` = BufSize - 11: every record line is BufSize - 1 characters, `getline` reads it, line 174 zeroes `text[0]` and the key scan fails, so each entry keeps the previous key | checks and offsets with the same bound, so a header that passes puts every NUL where the check measured; the round trip then holds for every size below that bound | not executed | TextFindings.BoundaryKeyLost | TextReader.IntendedChecks |

`Repository.Save` and `TextFormat.CreateText` take the key width as a parameter: `TextFormat.WrittenKeyWidth` (16) is the code as written, `TextFormat.KeyWidth` (8) the width the reader assumes. The round trips use the 8-wide column, and `TextFindings.AsWrittenKeysLost`, `TextFindings.AsWrittenDelimShifted` and `Repository.SaveAsWrittenThenLoad` read what the 16-wide column gives. The reader keeps the offsets as written, and `TextRoundTrip.FixedRoundTrip` asks for sizes below the bound of `TextReader.IntendedChecks`.

Further notes on what the code does:

- `siz_tot` is the longest name and address of one entry together, plus 11. It is not `siz_nam + siz_add + 11` (`TextFormat.PairWidthCanBeLess`).
- The XML key is padded with blanks, not zeros.
- A `ref` element without a `ref` attribute raises. It does not load with an empty address.
- A header that does not parse loads nothing and returns 1. It raises no error.
- Lines shorter than their columns are not rejected; they are read with the stale bytes the buffer still holds.
- Empty lines are read as records too.
- The consistency checks wrap around (`TextReader.WrappedSizesPass`).
