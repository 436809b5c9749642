/**
 * What `readText` recovers from what `createText` wrote: the record lines
 * cut field by field, and whole files read back. With the key column 8 wide,
 * as the reader's offsets assume, every entry comes back; with the 16-wide
 * column the writer uses, keys (fixed records) or names and addresses
 * (separated records) are lost.
 */
module TextRoundTrip {
  import opened Options
  import opened CText
  import opened Numerals
  import opened Conditions
  import opened TextFormat
  import opened TextReader

  /** A C string of `w` at offset `i`, ended by a NUL right after it. */
  lemma CStrAt(b: seq<char>, i: nat, w: string)
    requires i + |w| < |b| && b[i..i + |w|] == w && b[i + |w|] == NUL && NUL !in w
    ensures CStr(b[i..]) == w
  {
    forall m | i <= m < i + |w|
      ensures b[m] != NUL
    {
      assert b[m] == b[i..i + |w|][m - i];
    }
    CStrUpTo(b, i, i + |w|);
  }

  /** A padded field cut at its first blank reads back as the word it padded. */
  lemma CutPadded(w: string, m: nat)
    requires NUL !in w && ' ' !in w
    ensures CStr(CutAt(w + Spaces(m), ' ')) == w
  {
    if m == 0 {
      assert w + Spaces(0) == w;
    } else {
      assert w + Spaces(m) == w + [' '] + Spaces(m - 1);
      CStrOfCut(w, ' ', Spaces(m - 1));
    }
  }

  lemma NoneInSpaces(c: char, n: nat)
    requires c != ' '
    ensures c !in Spaces(n)
  {
  }

  /** The characters of a key column: blanks and hex digits. */
  predicate KeyChar(c: char) {
    c == ' ' || IsDigit(c, 16)
  }

  lemma KeyFieldChars(k: U64, w: nat)
    ensures forall c :: c in KeyField(k, w) ==> KeyChar(c)
  {
    var n := Numeral(k, 16);
    var f := KeyField(k, w);
    assert f == Spaces(|f| - |n|) + n;
    forall c | c in f
      ensures KeyChar(c)
    {
      var i :| 0 <= i < |f| && f[i] == c;
      if i >= |f| - |n| {
        assert c == n[i - (|f| - |n|)];
      }
    }
  }

  /** A character that is neither blank nor hex digit never occurs in a key column. */
  lemma NotInKeyField(k: U64, w: nat, c: char)
    requires !KeyChar(c)
    ensures c !in KeyField(k, w)
  {
    KeyFieldChars(k, w);
  }

  /** A fixed-record line holds a newline only if its key, name or address does. */
  lemma FixedLineNoNewline(key: string, name: string, address: string, nam: nat, add: nat)
    requires '\n' !in key && '\n' !in name && '\n' !in address
    ensures '\n' !in FixedLine(key, name, address, nam, add)
  {
    NoneInSpaces('\n', |PadRight(name, nam)| - |name|);
    NoneInSpaces('\n', |PadRight(address, add)| - |address|);
  }

  /** A key below 2^32 fills the 8-wide column exactly: blanks, then its digits. */
  lemma KeyField8(k: U64)
    requires k < 0x1_0000_0000
    ensures |KeyField(k, KeyWidth)| == KeyWidth
    ensures KeyField(k, KeyWidth) == Spaces(KeyWidth - |Numeral(k, 16)|) + Numeral(k, 16)
  {
    HexLength(k);
  }

  /** `getline` leaves the line's characters in the buffer. */
  lemma StoredSlice(buf: seq<char>, line: string, i: nat, j: nat)
    requires |buf| == BufSize && |line| <= BufSize - 1 && i <= j <= |line|
    ensures Store(buf, line)[i..j] == line[i..j]
  {
  }

  /** NULs written outside `[i, j)` leave that part of the buffer as it was. */
  lemma ThreeNulsOutside(b: seq<char>, p: nat, q: nat, r: nat, i: nat, j: nat)
    requires p < |b| && q < |b| && r < |b| && i <= j <= |b|
    requires !(i <= p < j) && !(i <= q < j) && !(i <= r < j)
    ensures b[p := NUL][q := NUL][r := NUL][i..j] == b[i..j]
  {
  }

  /** A fixed-record line: the key column, a blank, the padded name, a blank, the padded address. */
  function FixedLine(key: string, name: string, address: string, nam: nat, add: nat): (line: string)
    ensures |line| == |key| + 2 + |PadRight(name, nam)| + |PadRight(address, add)|
  {
    key + " " + PadRight(name, nam) + " " + PadRight(address, add)
  }

  /** The buffer after the three NULs of fixed-record mode, with the offsets in range. */
  function FixedCut(buf: seq<char>, line: string, nam: nat, add: nat): seq<char>
    requires |buf| == BufSize && |line| <= BufSize - 1 && 10 + nam + add < BufSize - 1
  {
    Store(buf, line)[10 + nam + add := NUL][9 + nam := NUL][8 := NUL]
  }

  /** Where the parts of a fixed-record line lie, with the name and address no wider than their columns. */
  lemma FixedLineParts(key: string, name: string, address: string, nam: nat, add: nat)
    requires |name| <= nam && |address| <= add
    ensures var line := FixedLine(key, name, address, nam, add);
            var w := |key|;
            |line| == w + 2 + nam + add && line[..w] == key
            && line[w + 1..w + 1 + nam] == PadRight(name, nam)
            && line[w + 2 + nam..] == PadRight(address, add)
  {
    var pn, pa := PadRight(name, nam), PadRight(address, add);
    var line := FixedLine(key, name, address, nam, add);
    assert line == key + (" " + (pn + (" " + pa)));
  }

  /** The buffer after the three NULs holds the line wherever no NUL was written. */
  lemma FixedCutSlice(buf: seq<char>, line: string, nam: nat, add: nat, i: nat, j: nat)
    requires |buf| == BufSize && |line| <= BufSize - 1 && 10 + nam + add < BufSize - 1
    requires i <= j <= |line|
    requires !(i <= 8 < j) && !(i <= 9 + nam < j) && !(i <= 10 + nam + add < j)
    ensures FixedCut(buf, line, nam, add)[i..j] == line[i..j]
    ensures FixedCut(buf, line, nam, add)[8] == NUL && FixedCut(buf, line, nam, add)[9 + nam] == NUL
    ensures FixedCut(buf, line, nam, add)[10 + nam + add] == NUL
  {
    StoredSlice(buf, line, i, j);
    ThreeNulsOutside(Store(buf, line), 10 + nam + add, 9 + nam, 8, i, j);
  }

  /** At `i` the buffer holds `word` padded to `width`, then a NUL; the word has no NUL and no blank. */
  predicate PaddedAt(b: seq<char>, i: nat, word: string, width: nat) {
    i + width < |b| && |word| <= width && NUL !in word && ' ' !in word
    && b[i..i + width] == PadRight(word, width) && b[i + width] == NUL
  }

  /** A padded field NUL-ended in a buffer, read as a C string and cut at its first blank, is the word it padded. */
  lemma PaddedFieldAt(b: seq<char>, i: nat, word: string, width: nat)
    requires PaddedAt(b, i, word, width)
    ensures CStr(CutAt(CStr(b[i..]), ' ')) == word
  {
    NoneInSpaces(NUL, width - |word|);
    CStrAt(b, i, PadRight(word, width));
    CutPadded(word, width - |word|);
  }

  /** The key column keeps its eight characters, ended by the NUL at 8. */
  lemma FixedCutKey(buf: seq<char>, key: string, name: string, address: string, nam: U64, add: U64)
    requires |buf| == BufSize && |key| == 8
    requires |name| <= nam && |address| <= add && 10 + nam + add < BufSize - 1
    ensures var b1 := FixedCut(buf, FixedLine(key, name, address, nam, add), nam, add);
            b1[0..8] == key && b1[8] == NUL
  {
    var line := FixedLine(key, name, address, nam, add);
    FixedLineParts(key, name, address, nam, add);
    FixedCutSlice(buf, line, nam, add, 0, 8);
    assert line[0..8] == key;
  }

  /** The padded name lies at 9, ended by the NUL at 9+siz_nam. */
  lemma FixedCutName(buf: seq<char>, key: string, name: string, address: string, nam: U64, add: U64)
    requires |buf| == BufSize && |key| == 8
    requires |name| <= nam && |address| <= add && 10 + nam + add < BufSize - 1
    ensures var b1 := FixedCut(buf, FixedLine(key, name, address, nam, add), nam, add);
            b1[9..9 + nam] == PadRight(name, nam) && b1[9 + nam] == NUL
  {
    var line := FixedLine(key, name, address, nam, add);
    FixedLineParts(key, name, address, nam, add);
    FixedCutSlice(buf, line, nam, add, 9, 9 + nam);
  }

  /** The padded address lies at 10+siz_nam, ended by the NUL at 10+siz_nam+siz_add. */
  lemma FixedCutAddress(buf: seq<char>, key: string, name: string, address: string, nam: U64, add: U64)
    requires |buf| == BufSize && |key| == 8
    requires |name| <= nam && |address| <= add && 10 + nam + add < BufSize - 1
    ensures var b1 := FixedCut(buf, FixedLine(key, name, address, nam, add), nam, add);
            b1[10 + nam..10 + nam + add] == PadRight(address, add) && b1[10 + nam + add] == NUL
  {
    var line := FixedLine(key, name, address, nam, add);
    var len := 10 + nam + add;
    FixedLineParts(key, name, address, nam, add);
    FixedCutSlice(buf, line, nam, add, 10 + nam, len);
    assert line[10 + nam..len] == line[10 + nam..];
  }

  /**
   * Cutting a fixed-record line: the key column is the C string the key is
   * scanned from, and the padded name and address read back as themselves.
   */
  lemma FixedFieldsOfLine(buf: seq<char>, key: string, name: string, address: string, nam: U64, add: U64)
    requires |buf| == BufSize && |key| == 8 && NUL !in key
    requires NUL !in name && ' ' !in name && NUL !in address && ' ' !in address
    requires |name| <= nam && |address| <= add && 10 + nam + add < BufSize - 1
    ensures var r := FixedFields(Store(buf, FixedLine(key, name, address, nam, add)), nam, add);
            CStr(r.0) == key && CStr(r.1) == name && CStr(r.2) == address
  {
    var line := FixedLine(key, name, address, nam, add);
    FixedFieldsInRange(Store(buf, line), nam, add);
    FixedCutKey(buf, key, name, address, nam, add);
    FixedCutName(buf, key, name, address, nam, add);
    FixedCutAddress(buf, key, name, address, nam, add);
    FixedFieldsOfCut(FixedCut(buf, line, nam, add), key, name, address, nam, add);
  }

  /** The three fields read from a buffer holding them NUL-ended at 8, 9+siz_nam and 10+siz_nam+siz_add. */
  lemma FixedFieldsOfCut(b1: seq<char>, key: string, name: string, address: string, nam: nat, add: nat)
    requires |b1| == BufSize && |key| == 8 && NUL !in key && b1[0..8] == key && b1[8] == NUL
    requires PaddedAt(b1, 9, name, nam) && PaddedAt(b1, 10 + nam, address, add)
    ensures CStr(b1) == key
    ensures CStr(CutAt(CStr(b1[9..]), ' ')) == name
    ensures CStr(CutAt(CStr(b1[10 + nam..]), ' ')) == address
  {
    CStrAt(b1, 0, key);
    assert b1[0..] == b1;
    PaddedFieldAt(b1, 9, name, nam);
    PaddedFieldAt(b1, 10 + nam, address, add);
  }

  /** The buffer after the separator that ends the name is written over with NUL. */
  function DelimCut(buf: seq<char>, line: string, mid: string): seq<char>
    requires |buf| == BufSize && |line| <= BufSize - 1 && 9 + |mid| < BufSize
  {
    Store(buf, line)[9 + |mid| := NUL]
  }

  /** Before the cut, the C string at 9 runs to the end of the line, and its first separator ends `mid`. */
  lemma DelimNameBeforeCut(buf: seq<char>, pre: string, mid: string, sep: char, rest: string)
    requires |buf| == BufSize && |pre| == 9
    requires NUL !in mid && NUL !in rest && sep !in mid && sep != NUL
    requires |pre| + |mid| + 1 + |rest| <= BufSize - 1
    ensures var name0 := CStr(Store(buf, pre + mid + [sep] + rest)[9..]);
            name0 == mid + [sep] + rest && IndexOf(name0, sep) == |mid|
  {
    var line := pre + mid + [sep] + rest;
    var tail := mid + [sep] + rest;
    assert line[9..|line|] == tail;
    StoredSlice(buf, line, 9, |line|);
    CStrAt(Store(buf, line), 9, tail);
    IndexOfAfter(mid, sep, rest);
  }

  /** After the cut, the key is scanned from `pre + mid`. */
  lemma DelimKeyPart(buf: seq<char>, pre: string, mid: string, sep: char, rest: string)
    requires |buf| == BufSize && |pre| == 9 && NUL !in pre && NUL !in mid
    requires |pre| + |mid| + 1 + |rest| <= BufSize - 1
    ensures CStr(DelimCut(buf, pre + mid + [sep] + rest, mid)) == pre + mid
  {
    var line := pre + mid + [sep] + rest;
    var b1 := DelimCut(buf, line, mid);
    assert line[0..9 + |mid|] == pre + mid;
    StoredSlice(buf, line, 0, 9 + |mid|);
    assert b1[0..9 + |mid|] == Store(buf, line)[0..9 + |mid|];
    CStrAt(b1, 0, pre + mid);
    assert b1[0..] == b1;
  }

  /** After the cut, the C string at 9 is `mid`. */
  lemma DelimNamePart(buf: seq<char>, pre: string, mid: string, sep: char, rest: string)
    requires |buf| == BufSize && |pre| == 9 && NUL !in mid
    requires |pre| + |mid| + 1 + |rest| <= BufSize - 1
    ensures CStr(DelimCut(buf, pre + mid + [sep] + rest, mid)[9..]) == mid
  {
    var line := pre + mid + [sep] + rest;
    var b1 := DelimCut(buf, line, mid);
    assert line[9..9 + |mid|] == mid;
    StoredSlice(buf, line, 9, 9 + |mid|);
    assert b1[9..9 + |mid|] == Store(buf, line)[9..9 + |mid|];
    CStrAt(b1, 9, mid);
  }

  /** After the cut, the C string after the separator is `rest`. */
  lemma DelimAddressPart(buf: seq<char>, pre: string, mid: string, sep: char, rest: string)
    requires |buf| == BufSize && |pre| == 9 && NUL !in rest
    requires |pre| + |mid| + 1 + |rest| <= BufSize - 1
    ensures CStr(DelimCut(buf, pre + mid + [sep] + rest, mid)[|mid| + 10..]) == rest
  {
    var line := pre + mid + [sep] + rest;
    var b1 := DelimCut(buf, line, mid);
    var len := |line|;
    assert line[|mid| + 10..len] == rest;
    StoredSlice(buf, line, |mid| + 10, len);
    assert b1[|mid| + 10..len] == Store(buf, line)[|mid| + 10..len];
    CStrAt(b1, |mid| + 10, rest);
  }

  /**
   * Cutting a separated line `pre + mid + sep + rest` whose first nine
   * characters are `pre`: the name is `mid`, the address is `rest` cut at its
   * first separator (or newline), and the key is scanned from `pre + mid`.
   */
  lemma DelimFieldsOfLine(buf: seq<char>, pre: string, mid: string, sep: char, rest: string, prevAddress: string)
    requires |buf| == BufSize && |pre| == 9 && sep != NUL
    requires NUL !in pre && NUL !in mid && NUL !in rest && sep !in mid
    requires |pre| + |mid| + 1 + |rest| <= BufSize - 1
    ensures var r := DelimFields(Store(buf, pre + mid + [sep] + rest), sep, prevAddress);
            CStr(r.0) == pre + mid && r.1 == mid && r.2 == AddressCut(rest, sep)
  {
    var line := pre + mid + [sep] + rest;
    DelimNameBeforeCut(buf, pre, mid, sep, rest);
    DelimKeyPart(buf, pre, mid, sep, rest);
    DelimNamePart(buf, pre, mid, sep, rest);
    DelimAddressPart(buf, pre, mid, sep, rest);
    var b1 := DelimCut(buf, line, mid);
    assert DelimFields(Store(buf, line), sep, prevAddress)
        == (b1, CStr(b1[9..]), AddressCut(CStr(b1[|mid| + 10..]), sep));
  }

  /** Entries a fixed-record file carries back: keys of at most 8 hex digits, fields free of NUL, blank and newline. */
  predicate FixedSafe(e: Entry) {
    e.key < 0x1_0000_0000
    && NUL !in e.name && ' ' !in e.name && '\n' !in e.name
    && NUL !in e.address && ' ' !in e.address && '\n' !in e.address
  }

  /**
   * Separators a separated file can use: no NUL, no white space, no hex
   * digit, and not 'x' or 'X', which `%llX` would read as part of a `0x`
   * prefix when the name is cut right after a zero key.
   */
  predicate ValidSep(sep: char) {
    sep != NUL && !IsSpace(sep) && !IsDigit(sep, 16) && sep != 'x' && sep != 'X'
  }

  /** The separator of `.csv` snapshots. */
  lemma SemicolonIsValidSep()
    ensures ValidSep(';')
  {
    assert DigitValue(';', 16).None?;
  }

  /** Entries a separated file carries back: keys of at most 8 hex digits, fields free of NUL, `sep` and newline. */
  predicate DelimSafe(e: Entry, sep: char) {
    e.key < 0x1_0000_0000 && DelimFieldsSafe(e, sep)
  }

  /** Fields a separated line keeps apart: no NUL, `sep` or newline in them. */
  predicate DelimFieldsSafe(e: Entry, sep: char) {
    NUL !in e.name && sep !in e.name && '\n' !in e.name
    && NUL !in e.address && sep !in e.address && '\n' !in e.address
  }

  /** A key printed with `%8llX` scans back with `%16llX`, whatever non-digit follows it. */
  lemma ScanKeyField8(k: U64, rest: seq<char>)
    requires k < 0x1_0000_0000 && (rest == [] || !IsDigit(rest[0], 16))
    ensures ScanHex(KeyField(k, KeyWidth) + rest) == Some(k)
  {
    KeyField8(k);
    var n := Numeral(k, 16);
    ScanHexOfNumeral(k, KeyWidth - |n|, rest);
  }

  /** A fixed-record line with the 8-wide key column: the key column, then the padded fields; no newline, and it fits the buffer. */
  lemma FixedLineShape(e: Entry, nam: U64, add: U64)
    requires FixedSafe(e) && |e.name| <= nam && |e.address| <= add && 10 + nam + add < BufSize - 1
    ensures var key := KeyField(e.key, KeyWidth);
            var line := RecordLine(e, NUL, nam, add, KeyWidth);
            |key| == 8 && NUL !in key
            && line == FixedLine(key, e.name, e.address, nam, add)
            && '\n' !in line && |line| <= BufSize - 1
  {
    KeyField8(e.key);
    var key := KeyField(e.key, KeyWidth);
    var line := FixedLine(key, e.name, e.address, nam, add);
    CStrOfPlain(e.name);
    CStrOfPlain(e.address);
    assert FixedRecord(e, nam, add, KeyWidth) == line;
    assert !KeyChar(NUL) && !KeyChar('\n');
    NotInKeyField(e.key, KeyWidth, NUL);
    NotInKeyField(e.key, KeyWidth, '\n');
    FixedLineNoNewline(key, e.name, e.address, nam, add);
  }

  /** One fixed-record line, 8-wide key column: it is read as a good line and gives the entry back. */
  lemma FixedRecordOfLine(buf: seq<char>, e: Entry, prev: Entry, h: Header)
    requires |buf| == BufSize && FixedSafe(e) && h.tot != 0
    requires |e.name| <= h.nam && |e.address| <= h.add && 10 + h.nam + h.add < BufSize - 1
    ensures var line := RecordLine(e, NUL, h.nam, h.add, KeyWidth);
            '\n' !in line && |line| <= BufSize - 1
            && View(Record(Store(buf, line), h, prev).1) == e
  {
    var key := KeyField(e.key, KeyWidth);
    FixedLineShape(e, h.nam, h.add);
    assert key + [] == key;
    ScanKeyField8(e.key, []);
    FixedLineRecord(buf, key, e, prev, h);
  }

  /** A fixed line built from an 8-character key column that scans to the key gives the entry back. */
  lemma FixedLineRecord(buf: seq<char>, key: string, e: Entry, prev: Entry, h: Header)
    requires |buf| == BufSize && FixedSafe(e) && h.tot != 0
    requires |key| == 8 && NUL !in key && ScanHex(key) == Some(e.key)
    requires |e.name| <= h.nam && |e.address| <= h.add && 10 + h.nam + h.add < BufSize - 1
    ensures View(Record(Store(buf, FixedLine(key, e.name, e.address, h.nam, h.add)), h, prev).1) == e
  {
    FixedFieldsOfLine(buf, key, e.name, e.address, h.nam, h.add);
    FixedRecordOfFields(Store(buf, FixedLine(key, e.name, e.address, h.nam, h.add)), h, prev, e);
  }

  /** In fixed-record mode the entry is the key scanned from the key column and the two fields. */
  lemma FixedRecordOfFields(b: seq<char>, h: Header, prev: Entry, e: Entry)
    requires |b| == BufSize && h.tot != 0
    requires var r := FixedFields(b, h.nam, h.add);
             ScanHex(CStr(r.0)) == Some(e.key) && CStr(r.1) == e.name && CStr(r.2) == e.address
    ensures View(Record(b, h, prev).1) == e
  {
  }

  /** A separated line with the 8-wide key column: the key column and separator, the name, a separator, the address and a separator. */
  lemma DelimLineShape(e: Entry, sep: char)
    requires ValidSep(sep) && DelimSafe(e, sep) && 11 + |e.name| + |e.address| <= BufSize - 1
    ensures var line := RecordLine(e, sep, 0, 0, KeyWidth);
            line == (KeyField(e.key, KeyWidth) + [sep]) + e.name + [sep] + (e.address + [sep])
            && '\n' !in line && |line| <= BufSize - 1 && |KeyField(e.key, KeyWidth) + [sep]| == 9
  {
    KeyField8(e.key);
    var key := KeyField(e.key, KeyWidth);
    var line := (key + [sep]) + e.name + [sep] + (e.address + [sep]);
    CStrOfPlain(e.name);
    CStrOfPlain(e.address);
    assert DelimRecord(e, sep, KeyWidth) == line;
    assert !KeyChar('\n');
    NotInKeyField(e.key, KeyWidth, '\n');
  }

  /** One separated line, 8-wide key column: it is read as a good line and gives the entry back. */
  lemma DelimRecordOfLine(buf: seq<char>, e: Entry, prev: Entry, h: Header)
    requires |buf| == BufSize && ValidSep(h.sep) && DelimSafe(e, h.sep) && h.tot == 0
    requires 11 + |e.name| + |e.address| <= BufSize - 1
    ensures var line := RecordLine(e, h.sep, h.nam, h.add, KeyWidth);
            '\n' !in line && |line| <= BufSize - 1
            && View(Record(Store(buf, line), h, prev).1) == e
  {
    var sep := h.sep;
    var key := KeyField(e.key, KeyWidth);
    var pre, rest := key + [sep], e.address + [sep];
    DelimLineShape(e, sep);
    assert RecordLine(e, sep, h.nam, h.add, KeyWidth) == RecordLine(e, sep, 0, 0, KeyWidth);
    assert !KeyChar(NUL);
    NotInKeyField(e.key, KeyWidth, NUL);
    DelimFieldsOfLine(buf, pre, e.name, sep, rest, prev.address);
    DelimEntryOf(e, sep, prev.key);
  }

  /** The fields cut from a separated line make up the entry again. */
  lemma DelimEntryOf(e: Entry, sep: char, prevKey: U64)
    requires ValidSep(sep) && DelimSafe(e, sep)
    ensures var key := ScanHex(KeyField(e.key, KeyWidth) + [sep] + e.name).GetOr(prevKey);
            View(Entry(key, e.name, AddressCut(e.address + [sep], sep))) == e
  {
    DelimKeyScan(e, sep);
    assert e.address + [sep] == e.address + [sep] + [];
    CStrOfCut(e.address, sep, []);
    CStrOfPlain(e.name);
  }

  /** The key is scanned back from the key column, the separator and the name. */
  lemma DelimKeyScan(e: Entry, sep: char)
    requires ValidSep(sep) && e.key < 0x1_0000_0000
    ensures ScanHex(KeyField(e.key, KeyWidth) + [sep] + e.name) == Some(e.key)
  {
    var key := KeyField(e.key, KeyWidth);
    assert key + [sep] + e.name == key + ([sep] + e.name);
    ScanKeyField8(e.key, [sep] + e.name);
  }

  /** The loop over joined lines takes the first line, cuts it, and goes on with the rest. */
  lemma DecodeJoinedCons(lines: seq<string>, buf: seq<char>, prev: Entry, h: Header)
    requires |buf| == BufSize && lines != [] && Consistent(h)
    requires '\n' !in lines[0] && |lines[0]| <= BufSize - 1
    ensures var r := Record(Store(buf, lines[0]), h, prev);
            var d := DecodeLines(Joined(lines[1..]), r.0, r.1, h);
            DecodeLines(Joined(lines), buf, prev, h) == Decoded([r.1] + d.entries, d.failure)
  {
    JoinedCons(lines);
    GetlineOf(lines[0], Joined(lines[1..]));
    DecodeLinesStep(Joined(lines), buf, prev, h);
  }

  /** A line `getline` takes whole, and whose cut gives `e` back whatever the buffer and the previous entry. */
  ghost predicate GivesBack(line: string, h: Header, e: Entry) {
    '\n' !in line && |line| <= BufSize - 1
    && forall buf, prev :: |buf| == BufSize ==> View(Record(Store(buf, line), h, prev).1) == e
  }

  /** Reading joined lines, each of which gives its entry back, gives every entry back, in order, with no error. */
  lemma {:induction false} LinesRoundTrip(lines: seq<string>, all: seq<Entry>, buf: seq<char>, prev: Entry, h: Header)
    requires |buf| == BufSize && Consistent(h) && |lines| == |all|
    requires forall i :: 0 <= i < |all| ==> GivesBack(lines[i], h, all[i])
    ensures var d := DecodeLines(Joined(lines), buf, prev, h);
            d.failure == None && Views(d.entries) == all
    decreases |all|
  {
    if all == [] {
      assert Joined(lines) == [];
    } else {
      assert GivesBack(lines[0], h, all[0]);
      DecodeJoinedCons(lines, buf, prev, h);
      var r := Record(Store(buf, lines[0]), h, prev);
      forall i | 0 <= i < |all[1..]|
        ensures GivesBack(lines[1..][i], h, all[1..][i])
      {
        assert lines[1..][i] == lines[i + 1] && all[1..][i] == all[i + 1];
      }
      LinesRoundTrip(lines[1..], all[1..], r.0, r.1, h);
      ViewsCons(all, r.1, DecodeLines(Joined(lines[1..]), r.0, r.1, h).entries);
    }
  }

  /** Every fixed-record line with the 8-wide key column gives its entry back. */
  lemma FixedLinesGiveBack(all: seq<Entry>, h: Header)
    requires h.tot != 0 && 10 + h.nam + h.add < BufSize - 1
    requires forall e :: e in all ==> FixedSafe(e) && |e.name| <= h.nam && |e.address| <= h.add
    ensures var lines := RecordLines(all, NUL, h.nam, h.add, KeyWidth);
            forall i :: 0 <= i < |all| ==> GivesBack(lines[i], h, all[i])
  {
    var lines := RecordLines(all, NUL, h.nam, h.add, KeyWidth);
    forall i | 0 <= i < |all|
      ensures GivesBack(lines[i], h, all[i])
    {
      assert all[i] in all;
      forall buf, prev | |buf| == BufSize
        ensures View(Record(Store(buf, lines[i]), h, prev).1) == all[i]
      {
        FixedRecordOfLine(buf, all[i], prev, h);
      }
      FixedRecordOfLine(seq(BufSize, _ => NUL), all[i], FreshEntry, h);
    }
  }

  /** Every separated line with the 8-wide key column gives its entry back. */
  lemma DelimLinesGiveBack(all: seq<Entry>, h: Header)
    requires h.tot == 0 && ValidSep(h.sep)
    requires forall e :: e in all ==> DelimSafe(e, h.sep) && 11 + |e.name| + |e.address| <= BufSize - 1
    ensures var lines := RecordLines(all, h.sep, h.nam, h.add, KeyWidth);
            forall i :: 0 <= i < |all| ==> GivesBack(lines[i], h, all[i])
  {
    var lines := RecordLines(all, h.sep, h.nam, h.add, KeyWidth);
    forall i | 0 <= i < |all|
      ensures GivesBack(lines[i], h, all[i])
    {
      assert all[i] in all;
      forall buf, prev | |buf| == BufSize
        ensures View(Record(Store(buf, lines[i]), h, prev).1) == all[i]
      {
        DelimRecordOfLine(buf, all[i], prev, h);
      }
      DelimRecordOfLine(seq(BufSize, _ => NUL), all[i], FreshEntry, h);
    }
  }

  /**
   * Fixed-record round trip with the 8-wide key column the reader assumes:
   * `readText` of what `createText` writes gives back every entry, in order,
   * as C strings, when keys fit 8 hex digits, fields hold no NUL, blank or
   * newline, and the widest name and address leave the line below
   * BufSize - 1: at BufSize - 1 `idx_add` falls back to 0 and the keys are
   * lost (TextFindings.BoundaryKeyLost).
   */
  lemma FixedRoundTrip(all: seq<Entry>, stale: seq<char>)
    requires |stale| == BufSize
    requires forall e :: e in all ==> FixedSafe(e)
    requires 10 + NameWidth(all) + AddressWidth(all) < BufSize - 1
    ensures var d := DecodeText(TextFile(all, NUL, false, KeyWidth), stale);
            d.failure == None && Views(d.entries) == all
  {
    var nam, add := NameWidth(all), AddressWidth(all);
    PairWidthBelowSum(all);
    ColumnsBound(all);
    FixedTextFile(all, KeyWidth);
    var tot := PairWidth(all) + 8 + 2 + 1;
    FixedFileRoundTrip(all, nam, add, tot, stale);
  }

  /** The fixed-record file with given header sizes that bound every entry reads back whole. */
  lemma FixedFileRoundTrip(all: seq<Entry>, nam: U64, add: U64, tot: U64, stale: seq<char>)
    requires |stale| == BufSize && tot != 0 && 10 + nam + add < BufSize - 1
    requires forall e :: e in all ==> FixedSafe(e) && |e.name| <= nam && |e.address| <= add
    ensures var d := DecodeText(HeaderLine(NUL, nam, add, tot) + "\n" + Records(all, NUL, nam, add, KeyWidth), stale);
            d.failure == None && Views(d.entries) == all
  {
    var h := Header('-', nam, add, tot);
    var lines := RecordLines(all, NUL, nam, add, KeyWidth);
    DecodeTextOfHeader(NUL, nam, add, tot, Joined(lines), stale);
    FixedLinesGiveBack(all, h);
    ConsistentSizes(h);
    LinesRoundTrip(lines, all, Store(stale, []), FreshEntry, h);
  }

  /**
   * Separated round trip with the 8-wide key column: `readText` of what
   * `createText` writes with separator `sep` gives back every entry, in order,
   * when keys fit 8 hex digits, fields hold no NUL, `sep` or newline, and
   * every line stays below BufSize - 1.
   */
  lemma DelimRoundTrip(all: seq<Entry>, sep: char, stale: seq<char>)
    requires |stale| == BufSize && ValidSep(sep)
    requires forall e :: e in all ==> DelimSafe(e, sep) && 11 + |e.name| + |e.address| <= BufSize - 1
    ensures var d := DecodeText(TextFile(all, sep, false, KeyWidth), stale);
            d.failure == None && Views(d.entries) == all
  {
    var h := Header(sep, 0, 0, 0);
    var lines := RecordLines(all, sep, 0, 0, KeyWidth);
    assert TextFile(all, sep, false, KeyWidth) == HeaderLine(sep, 0, 0, 0) + "\n" + Joined(lines);
    DecodeTextOfHeader(sep, 0, 0, 0, Joined(lines), stale);
    DelimLinesGiveBack(all, h);
    ConsistentSizes(h);
    LinesRoundTrip(lines, all, Store(stale, []), FreshEntry, h);
  }
}
