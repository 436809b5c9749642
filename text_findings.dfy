/**
 * `createText` prints the key with `%16llX`, a 16-wide column, but
 * `readText` cuts the key column at offset 8 and starts the name at offset 9.
 * These lemmas read back what the writer as written produces: in
 * fixed-record mode every key is lost (the first eight columns are blanks),
 * in separated mode the name slot receives the tail of the key column and
 * the address slot receives the name.
 */
module TextFindings {
  import opened Options
  import opened CText
  import opened Numerals
  import opened Conditions
  import opened TextFormat
  import opened TextReader
  import opened TextRoundTrip

  /** A key below 2^32 in the 16-wide column: its first eight columns are blanks. */
  lemma KeyField16(k: U64)
    requires k < 0x1_0000_0000
    ensures |KeyField(k, WrittenKeyWidth)| == WrittenKeyWidth
    ensures KeyField(k, WrittenKeyWidth)[..8] == Spaces(8)
  {
    HexLength(k);
    var n := Numeral(k, 16);
    var key := KeyField(k, WrittenKeyWidth);
    assert key == Spaces(16 - |n|) + n;
    assert forall i :: 0 <= i < 8 ==> key[i] == ' ';
  }

  /** Eight blanks hold no hex digit: `%16llX` fails and leaves the key as it was. */
  lemma ScanBlanks()
    ensures ScanHex(Spaces(8)) == None
  {
    SkipWsPadding(8, []);
    assert Spaces(8) + [] == Spaces(8);
  }

  /** The key column of a fixed-record line whose first eight columns are blanks reads as eight blanks. */
  lemma BlankKeyColumn(buf: seq<char>, key: string, name: string, address: string, nam: U64, add: U64)
    requires |buf| == BufSize && |key| == 16 && key[..8] == Spaces(8)
    requires |name| <= nam && |address| <= add && 10 + nam + add < BufSize - 1
    requires |FixedLine(key, name, address, nam, add)| <= BufSize - 1
    ensures CStr(FixedCut(buf, FixedLine(key, name, address, nam, add), nam, add)) == Spaces(8)
  {
    var line := FixedLine(key, name, address, nam, add);
    var b1 := FixedCut(buf, line, nam, add);
    assert line[0..8] == Spaces(8);
    StoredSlice(buf, line, 0, 8);
    ThreeNulsOutside(Store(buf, line), 10 + nam + add, 9 + nam, 8, 0, 8);
    CStrAt(b1, 0, Spaces(8));
    assert b1[0..] == b1;
  }

  /**
   * One fixed-record line as written (16-wide key column), key below 2^32: it
   * is read as a good line, and the entry keeps the key of the entry before.
   */
  lemma AsWrittenFixedLine(buf: seq<char>, e: Entry, prev: Entry, h: Header)
    requires |buf| == BufSize && e.key < 0x1_0000_0000 && '\n' !in e.name && '\n' !in e.address
    requires h.tot != 0 && |e.name| <= h.nam && |e.address| <= h.add && 18 + h.nam + h.add <= BufSize - 1
    ensures var line := RecordLine(e, NUL, h.nam, h.add, WrittenKeyWidth);
            '\n' !in line && |line| <= BufSize - 1
            && Record(Store(buf, line), h, prev).1.key == prev.key
  {
    KeyField16(e.key);
    var key := KeyField(e.key, WrittenKeyWidth);
    var name, address := CStr(e.name), CStr(e.address);
    assert '\n' !in name && '\n' !in address by {
      PrefixAvoids(name, e.name, '\n');
      PrefixAvoids(address, e.address, '\n');
    }
    var line := FixedLine(key, name, address, h.nam, h.add);
    assert FixedRecord(e, h.nam, h.add, WrittenKeyWidth) == line;
    assert RecordLine(e, NUL, h.nam, h.add, WrittenKeyWidth) == line;
    assert !KeyChar('\n');
    NotInKeyField(e.key, WrittenKeyWidth, '\n');
    FixedLineNoNewline(key, name, address, h.nam, h.add);
    FixedFieldsInRange(Store(buf, line), h.nam, h.add);
    BlankKeyColumn(buf, key, name, address, h.nam, h.add);
    ScanBlanks();
  }

  /** A prefix of a string without `c` has no `c` either. */
  lemma PrefixAvoids(p: string, s: string, c: char)
    requires p <= s && c !in s
    ensures c !in p
  {
  }

  /** A line `getline` takes whole, whose cut keeps the key of the entry before. */
  ghost predicate KeepsKey(line: string, h: Header) {
    '\n' !in line && |line| <= BufSize - 1
    && forall buf, prev :: |buf| == BufSize ==> Record(Store(buf, line), h, prev).1.key == prev.key
  }

  /** Reading joined lines that each keep the key: one entry per line, all with the key the loop started from. */
  lemma {:induction false} LinesKeepKey(lines: seq<string>, buf: seq<char>, prev: Entry, h: Header)
    requires |buf| == BufSize && Consistent(h)
    requires forall i :: 0 <= i < |lines| ==> KeepsKey(lines[i], h)
    ensures var d := DecodeLines(Joined(lines), buf, prev, h);
            d.failure == None && |d.entries| == |lines|
            && forall i :: 0 <= i < |lines| ==> d.entries[i].key == prev.key
    decreases |lines|
  {
    if lines == [] {
      assert Joined(lines) == [];
    } else {
      assert KeepsKey(lines[0], h);
      DecodeJoinedCons(lines, buf, prev, h);
      var r := Record(Store(buf, lines[0]), h, prev);
      forall i | 0 <= i < |lines[1..]|
        ensures KeepsKey(lines[1..][i], h)
      {
        assert lines[1..][i] == lines[i + 1];
      }
      assert r.1.key == prev.key;
      LinesKeepKey(lines[1..], r.0, r.1, h);
      SameKeys(r.1, DecodeLines(Joined(lines[1..]), r.0, r.1, h).entries, prev.key);
    }
  }

  lemma SameKeys(x: Entry, rest: seq<Entry>, k: U64)
    requires x.key == k && forall i :: 0 <= i < |rest| ==> rest[i].key == k
    ensures forall i :: 0 <= i < 1 + |rest| ==> ([x] + rest)[i].key == k
  {
    forall i | 0 < i < 1 + |rest|
      ensures ([x] + rest)[i].key == k
    {
      assert ([x] + rest)[i] == rest[i - 1];
    }
  }

  /** Every fixed-record line as written, keys below 2^32, keeps the key of the entry before. */
  lemma AsWrittenFixedLinesKeep(all: seq<Entry>, h: Header)
    requires h.tot != 0 && 18 + h.nam + h.add <= BufSize - 1
    requires forall e :: e in all ==>
      e.key < 0x1_0000_0000 && '\n' !in e.name && '\n' !in e.address && |e.name| <= h.nam && |e.address| <= h.add
    ensures var lines := RecordLines(all, NUL, h.nam, h.add, WrittenKeyWidth);
            forall i :: 0 <= i < |lines| ==> KeepsKey(lines[i], h)
  {
    var lines := RecordLines(all, NUL, h.nam, h.add, WrittenKeyWidth);
    forall i | 0 <= i < |lines|
      ensures KeepsKey(lines[i], h)
    {
      assert all[i] in all;
      forall buf, prev | |buf| == BufSize
        ensures Record(Store(buf, lines[i]), h, prev).1.key == prev.key
      {
        AsWrittenFixedLine(buf, all[i], prev, h);
      }
      AsWrittenFixedLine(seq(BufSize, _ => NUL), all[i], FreshEntry, h);
    }
  }

  /** The fixed-record file as written, with header sizes that bound every entry, reads back with every key 0. */
  lemma AsWrittenFixedFile(all: seq<Entry>, nam: U64, add: U64, tot: U64, stale: seq<char>)
    requires |stale| == BufSize && tot != 0 && 18 + nam + add <= BufSize - 1
    requires forall e :: e in all ==>
      e.key < 0x1_0000_0000 && '\n' !in e.name && '\n' !in e.address && |e.name| <= nam && |e.address| <= add
    ensures var d := DecodeText(HeaderLine(NUL, nam, add, tot) + "\n" + Records(all, NUL, nam, add, WrittenKeyWidth), stale);
            d.failure == None && |d.entries| == |all| && forall i :: 0 <= i < |all| ==> d.entries[i].key == 0
  {
    var h := Header('-', nam, add, tot);
    var lines := RecordLines(all, NUL, nam, add, WrittenKeyWidth);
    DecodeTextOfHeader(NUL, nam, add, tot, Joined(lines), stale);
    AsWrittenFixedLinesKeep(all, h);
    ConsistentSizes(h);
    LinesKeepKey(lines, Store(stale, []), FreshEntry, h);
  }

  /**
   * Fixed-record mode as written: every line is read, but no key survives;
   * each entry gets the key 0 of the entry declared before the loop, so any
   * collection holding a non-zero key (below 2^32) does not come back.
   */
  lemma AsWrittenKeysLost(all: seq<Entry>, stale: seq<char>)
    requires |stale| == BufSize
    requires forall e :: e in all ==> e.key < 0x1_0000_0000 && '\n' !in e.name && '\n' !in e.address
    requires 18 + NameWidth(all) + AddressWidth(all) <= BufSize - 1
    ensures var d := DecodeText(TextFile(all, NUL, false, WrittenKeyWidth), stale);
            d.failure == None && |d.entries| == |all| && forall i :: 0 <= i < |all| ==> d.entries[i].key == 0
    ensures (exists e :: e in all && e.key != 0) ==>
      Views(DecodeText(TextFile(all, NUL, false, WrittenKeyWidth), stale).entries) != all
  {
    var nam, add := NameWidth(all), AddressWidth(all);
    PairWidthBelowSum(all);
    ColumnsBound(all);
    FixedTextFile(all, WrittenKeyWidth);
    AsWrittenFixedFile(all, nam, add, PairWidth(all) + 8 + 2 + 1, stale);
    ZeroKeysDiffer(all, DecodeText(TextFile(all, NUL, false, WrittenKeyWidth), stale).entries);
  }

  /**
   * At the edge of the checks: with 10+siz_nam+siz_add == BufSize - 1 both
   * checks pass and a line of that length is a good line, but `idx_add`
   * falls back to 0, `text[0]` is zeroed and the key scan fails, so the
   * entry keeps the key of the line before, whatever the line holds.
   */
  lemma BoundaryKeyLost(line: string, more: seq<char>, buf: seq<char>, prev: Entry, h: Header)
    requires |buf| == BufSize && h.tot != 0 && 10 + h.nam + h.add == BufSize - 1
    requires |line| == BufSize - 1 && '\n' !in line
    ensures Consistent(h) && !IntendedConsistent(h) && AddOffset(h.nam, h.add) == 0
    ensures var d := DecodeLines(line + "\n" + more, buf, prev, h);
            d.entries != [] && d.entries[0].key == prev.key
  {
    IntendedChecks(h);
    GetlineOf(line, more);
    BoundaryRecordKeyLost(Store(buf, line), h, prev);
    DecodeLinesStep(line + "\n" + more, buf, prev, h);
  }

  /** With 10+siz_nam+siz_add == BufSize - 1 the fixed branch zeroes `text[0]`, so the key scan fails. */
  lemma BoundaryRecordKeyLost(b: seq<char>, h: Header, prev: Entry)
    requires |b| == BufSize && h.tot != 0 && 10 + h.nam + h.add == BufSize - 1
    ensures Record(b, h, prev).1.key == prev.key
  {
    assert Wrap(10 + h.nam + h.add) == BufSize - 1;
    var b1 := FixedFields(b, h.nam, h.add).0;
    assert b1[0] == NUL;
    assert CStr(b1) == [];
  }

  /** Entries whose keys are all 0 do not view as a collection holding a non-zero key. */
  lemma ZeroKeysDiffer(all: seq<Entry>, entries: seq<Entry>)
    requires |entries| == |all| && forall i :: 0 <= i < |all| ==> entries[i].key == 0
    ensures (exists e :: e in all && e.key != 0) ==> Views(entries) != all
  {
    if e :| e in all && e.key != 0 {
      var i :| 0 <= i < |all| && all[i] == e;
      assert Views(entries)[i].key == 0;
    }
  }

  /** What the reader makes of a separated line as written: the key, the key column's tail as name, the name as address. */
  function Shifted(e: Entry): (r: Entry)
    ensures r.key == e.key && r.address == e.name
  {
    Entry(e.key, KeyField(e.key, WrittenKeyWidth)[9..], e.name)
  }

  function ShiftedAll(all: seq<Entry>): (r: seq<Entry>)
    ensures |r| == |all| && forall i :: 0 <= i < |all| ==> r[i] == Shifted(all[i])
  {
    seq(|all|, i requires 0 <= i < |all| => Shifted(all[i]))
  }

  /** A separated line as written: nine columns of the key, its last seven, the separator, then name and address. */
  lemma AsWrittenDelimShape(e: Entry, sep: char)
    requires ValidSep(sep) && DelimFieldsSafe(e, sep) && 19 + |e.name| + |e.address| <= BufSize - 1
    ensures var key := KeyField(e.key, WrittenKeyWidth);
            var line := RecordLine(e, sep, 0, 0, WrittenKeyWidth);
            |key| == 16 && NUL !in key && sep !in key
            && line == key[..9] + key[9..] + [sep] + (e.name + [sep] + (e.address + [sep]))
            && '\n' !in line && |line| <= BufSize - 1
  {
    HexLength(e.key);
    var key := KeyField(e.key, WrittenKeyWidth);
    assert key == key[..9] + key[9..];
    var line := key[..9] + key[9..] + [sep] + (e.name + [sep] + (e.address + [sep]));
    CStrOfPlain(e.name);
    CStrOfPlain(e.address);
    assert DelimRecord(e, sep, WrittenKeyWidth) == line;
    assert !KeyChar('\n') && !KeyChar(NUL) && !KeyChar(sep);
    NotInKeyField(e.key, WrittenKeyWidth, '\n');
    NotInKeyField(e.key, WrittenKeyWidth, NUL);
    NotInKeyField(e.key, WrittenKeyWidth, sep);
  }

  /** One separated line as written: it is read as a good line and gives back the shifted entry. */
  lemma AsWrittenDelimLine(buf: seq<char>, e: Entry, prev: Entry, h: Header)
    requires |buf| == BufSize && ValidSep(h.sep) && h.tot == 0
    requires DelimFieldsSafe(e, h.sep) && 19 + |e.name| + |e.address| <= BufSize - 1
    ensures var line := RecordLine(e, h.sep, h.nam, h.add, WrittenKeyWidth);
            '\n' !in line && |line| <= BufSize - 1
            && View(Record(Store(buf, line), h, prev).1) == Shifted(e)
  {
    var sep := h.sep;
    var key := KeyField(e.key, WrittenKeyWidth);
    var pre, mid, rest := key[..9], key[9..], e.name + [sep] + (e.address + [sep]);
    AsWrittenDelimShape(e, sep);
    assert RecordLine(e, sep, h.nam, h.add, WrittenKeyWidth) == RecordLine(e, sep, 0, 0, WrittenKeyWidth);
    assert NUL !in pre && NUL !in mid && sep !in mid by {
      assert key == pre + mid;
    }
    DelimFieldsOfLine(buf, pre, mid, sep, rest, prev.address);
    assert pre + mid == key;
    CStrOfCut(e.name, sep, e.address + [sep]);
    CStrOfPlain(mid);
    ScanKeyField(e.key, WrittenKeyWidth);
  }

  /** Every separated line as written gives back its shifted entry. */
  lemma AsWrittenDelimLinesGiveBack(all: seq<Entry>, h: Header)
    requires h.tot == 0 && ValidSep(h.sep)
    requires forall e :: e in all ==> DelimFieldsSafe(e, h.sep) && 19 + |e.name| + |e.address| <= BufSize - 1
    ensures var lines := RecordLines(all, h.sep, h.nam, h.add, WrittenKeyWidth);
            forall i :: 0 <= i < |all| ==> GivesBack(lines[i], h, ShiftedAll(all)[i])
  {
    var lines := RecordLines(all, h.sep, h.nam, h.add, WrittenKeyWidth);
    forall i | 0 <= i < |all|
      ensures GivesBack(lines[i], h, ShiftedAll(all)[i])
    {
      assert all[i] in all;
      forall buf, prev | |buf| == BufSize
        ensures View(Record(Store(buf, lines[i]), h, prev).1) == Shifted(all[i])
      {
        AsWrittenDelimLine(buf, all[i], prev, h);
      }
      AsWrittenDelimLine(seq(BufSize, _ => NUL), all[i], FreshEntry, h);
    }
  }

  /**
   * Separated mode as written: every line is read with no error and every key
   * comes back, but each entry's name is the tail of its key column and its
   * address is its name.
   */
  lemma AsWrittenDelimShifted(all: seq<Entry>, sep: char, stale: seq<char>)
    requires |stale| == BufSize && ValidSep(sep)
    requires forall e :: e in all ==> DelimFieldsSafe(e, sep) && 19 + |e.name| + |e.address| <= BufSize - 1
    ensures var d := DecodeText(TextFile(all, sep, false, WrittenKeyWidth), stale);
            d.failure == None && Views(d.entries) == ShiftedAll(all)
  {
    var h := Header(sep, 0, 0, 0);
    var lines := RecordLines(all, sep, 0, 0, WrittenKeyWidth);
    assert TextFile(all, sep, false, WrittenKeyWidth) == HeaderLine(sep, 0, 0, 0) + "\n" + Joined(lines);
    DecodeTextOfHeader(sep, 0, 0, 0, Joined(lines), stale);
    AsWrittenDelimLinesGiveBack(all, h);
    ConsistentSizes(h);
    LinesRoundTrip(lines, ShiftedAll(all), Store(stale, []), FreshEntry, h);
  }

  /** The key column of 0x2A as written: fourteen blanks and "2A"; the name slot reads its last seven columns. */
  lemma KeyColumnOf2A()
    ensures KeyField(0x2A, WrittenKeyWidth)[9..] == "     2A"
  {
    assert Numeral(0x2A, 16) == "2A";
  }

  lemma ShiftedOf2A(e: Entry)
    requires e == Entry(0x2A, "foo", "bar")
    ensures Shifted(e) == Entry(0x2A, "     2A", "foo")
  {
    KeyColumnOf2A();
  }

  /**
   * The `.csv` snapshot of one condition, key 0x2A, name "foo", address "bar",
   * as written loads as key 0x2A, name "     2A", address "foo".
   */
  lemma CsvExample(all: seq<Entry>, stale: seq<char>)
    requires |stale| == BufSize && all == [Entry(0x2A, "foo", "bar")]
    ensures Views(DecodeText(TextFile(all, ';', false, WrittenKeyWidth), stale).entries)
         == [Entry(0x2A, "     2A", "foo")]
  {
    var e := all[0];
    SemicolonIsValidSep();
    CsvEntrySafe(e);
    OneShifted(e, ';', stale);
    ShiftedOf2A(e);
  }

  /** The condition of the example is safe to write with ';'. */
  lemma CsvEntrySafe(e: Entry)
    requires e == Entry(0x2A, "foo", "bar")
    ensures DelimSafe(e, ';') && |e.name| + |e.address| == 6
  {
  }

  /** A one-entry separated snapshot, as written, loads as the entry shifted. */
  lemma OneShifted(e: Entry, sep: char, stale: seq<char>)
    requires |stale| == BufSize && ValidSep(sep)
    requires DelimFieldsSafe(e, sep) && 19 + |e.name| + |e.address| <= BufSize - 1
    ensures Views(DecodeText(TextFile([e], sep, false, WrittenKeyWidth), stale).entries) == [Shifted(e)]
  {
    AsWrittenDelimShifted([e], sep, stale);
    assert ShiftedAll([e]) == [Shifted(e)];
  }

  /** With the 8-wide key column the same snapshot loads as it was saved. */
  lemma CsvExampleCorrected(all: seq<Entry>, stale: seq<char>)
    requires |stale| == BufSize && all == [Entry(0x2A, "foo", "bar")]
    ensures Views(DecodeText(TextFile(all, ';', false, KeyWidth), stale).entries)
         == [Entry(0x2A, "foo", "bar")]
  {
    var e := all[0];
    SemicolonIsValidSep();
    CsvEntrySafe(e);
    OneRoundTrip(e, ';', stale);
  }

  /** A one-entry separated snapshot with the 8-wide key column loads as the entry. */
  lemma OneRoundTrip(e: Entry, sep: char, stale: seq<char>)
    requires |stale| == BufSize && ValidSep(sep)
    requires DelimSafe(e, sep) && 11 + |e.name| + |e.address| <= BufSize - 1
    ensures Views(DecodeText(TextFile([e], sep, false, KeyWidth), stale).entries) == [e]
  {
    DelimRoundTrip([e], sep, stale);
  }
}
