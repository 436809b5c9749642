/**
 * The text snapshot as `createText` writes it: a header line
 * `dd4hep.<sep>.<siz_nam>.<siz_add>.<siz_tot>` and one record line per
 * entry, either in fixed columns (separator 0) or separated by `sep`.
 */
module TextFormat {
  import opened Options
  import opened CText
  import opened Numerals
  import opened Conditions

  /** PATH_MAX on Linux. */
  const PathMax: nat := 4096

  /** The size of the `char text[2*PATH_MAX+64]` buffers of both text functions. */
  const BufSize: nat := 2 * PathMax + 64

  /** The key column the reader assumes: key in bytes [0, 8), a blank at 8, the name from 9. */
  const KeyWidth: nat := 8

  /** The key column the writer's `%16llX` fills. */
  const WrittenKeyWidth: nat := 16

  /** The header line; the separator slot holds '-' in fixed-column mode. */
  function HeaderLine(sep: char, nam: nat, add: nat, tot: nat): string {
    "dd4hep." + [if sep != NUL then sep else '-'] + "." + Numeral(nam, 10)
      + "." + Numeral(add, 10) + "." + Numeral(tot, 10)
  }

  function Max(a: nat, b: nat): nat {
    if a < b then b else a
  }

  /** `siz_nam`: the longest name. */
  function NameWidth(all: seq<Entry>): nat {
    if all == [] then 0 else Max(NameWidth(all[..|all| - 1]), |all[|all| - 1].name|)
  }

  /** `siz_add`: the longest address. */
  function AddressWidth(all: seq<Entry>): nat {
    if all == [] then 0 else Max(AddressWidth(all[..|all| - 1]), |all[|all| - 1].address|)
  }

  /** `siz_tot` before the 8+2+1 is added: the longest name and address of one entry together. */
  function PairWidth(all: seq<Entry>): nat {
    if all == [] then 0
    else Max(PairWidth(all[..|all| - 1]), |all[|all| - 1].name| + |all[|all| - 1].address|)
  }

  /** The three header sizes are maxima over the entries: bounds that some entry reaches. */
  lemma WidthsAreMaxima(all: seq<Entry>)
    ensures forall e :: e in all ==>
      (|e.name| <= NameWidth(all) && |e.address| <= AddressWidth(all) && |e.name| + |e.address| <= PairWidth(all))
    ensures all == [] ==> NameWidth(all) == 0 && AddressWidth(all) == 0 && PairWidth(all) == 0
    ensures all != [] ==> exists e :: e in all && |e.name| == NameWidth(all)
    ensures all != [] ==> exists e :: e in all && |e.address| == AddressWidth(all)
    ensures all != [] ==> exists e :: e in all && |e.name| + |e.address| == PairWidth(all)
  {
    NameWidthIsMax(all);
    AddressWidthIsMax(all);
    PairWidthIsMax(all);
  }

  /** `siz_nam` bounds every name and some name reaches it. */
  lemma {:induction false} NameWidthIsMax(all: seq<Entry>)
    ensures forall e :: e in all ==> |e.name| <= NameWidth(all)
    ensures all == [] ==> NameWidth(all) == 0
    ensures all != [] ==> exists e :: e in all && |e.name| == NameWidth(all)
  {
    if all != [] {
      var init, last := all[..|all| - 1], all[|all| - 1];
      NameWidthIsMax(init);
      assert all == init + [last];
      assert last in all;
      if init != [] {
        var n :| n in init && |n.name| == NameWidth(init);
        assert n in all;
      }
    }
  }

  /** `siz_add` bounds every address and some address reaches it. */
  lemma {:induction false} AddressWidthIsMax(all: seq<Entry>)
    ensures forall e :: e in all ==> |e.address| <= AddressWidth(all)
    ensures all == [] ==> AddressWidth(all) == 0
    ensures all != [] ==> exists e :: e in all && |e.address| == AddressWidth(all)
  {
    if all != [] {
      var init, last := all[..|all| - 1], all[|all| - 1];
      AddressWidthIsMax(init);
      assert all == init + [last];
      assert last in all;
      if init != [] {
        var a :| a in init && |a.address| == AddressWidth(init);
        assert a in all;
      }
    }
  }

  /** The pair width bounds every name and address of one entry together, and some entry reaches it. */
  lemma {:induction false} PairWidthIsMax(all: seq<Entry>)
    ensures forall e :: e in all ==> |e.name| + |e.address| <= PairWidth(all)
    ensures all == [] ==> PairWidth(all) == 0
    ensures all != [] ==> exists e :: e in all && |e.name| + |e.address| == PairWidth(all)
  {
    if all != [] {
      var init, last := all[..|all| - 1], all[|all| - 1];
      PairWidthIsMax(init);
      assert all == init + [last];
      assert last in all;
      if init != [] {
        var p :| p in init && |p.name| + |p.address| == PairWidth(init);
        assert p in all;
      }
    }
  }

  /** Every name and address fits its column. */
  lemma ColumnsBound(all: seq<Entry>)
    ensures forall e :: e in all ==> |e.name| <= NameWidth(all) && |e.address| <= AddressWidth(all)
  {
    WidthsAreMaxima(all);
  }

  /** The pair width never exceeds the two column widths together. */
  lemma PairWidthBelowSum(all: seq<Entry>)
    ensures PairWidth(all) <= NameWidth(all) + AddressWidth(all)
  {
    WidthsAreMaxima(all);
    if all != [] {
      var p :| p in all && |p.name| + |p.address| == PairWidth(all);
    }
  }

  /** A long name and a long address in different entries: siz_tot is 4+11, not 3+4+11. */
  lemma PairWidthCanBeLess()
    ensures var all := [Entry(1, "abc", ""), Entry(2, "", "defg")];
            PairWidth(all) + 8 + 2 + 1 == 15 && NameWidth(all) + AddressWidth(all) + 8 + 2 + 1 == 18
  {
    var all := [Entry(1, "abc", ""), Entry(2, "", "defg")];
    assert all[..1] == [Entry(1, "abc", "")];
    assert all[..1][..0] == [];
  }

  /** The key as `%<w>llX` prints it: upper-case hex, right-justified in `w` columns with blanks. */
  function KeyField(k: U64, w: nat): string {
    PadLeft(Numeral(k, 16), w)
  }

  /** A key printed with `%<w>llX` scans back with `%16llX`. */
  lemma ScanKeyField(k: U64, w: nat)
    ensures ScanHex(KeyField(k, w)) == Some(k)
  {
    var n := Numeral(k, 16);
    var key := KeyField(k, w);
    assert key == Spaces(|key| - |n|) + n + [];
    ScanHexOfNumeral(k, |key| - |n|, []);
  }

  /**
   * `%16llX %-<nam>s %-<add>s`, with the key column `w` wide; `%s` is handed
   * `name()` and `address().c_str()`, so each field is written up to its
   * first NUL (padded to the width its whole `std::string` set).
   */
  function FixedRecord(e: Entry, nam: nat, add: nat, w: nat): string {
    KeyField(e.key, w) + " " + PadRight(CStr(e.name), nam) + " " + PadRight(CStr(e.address), add)
  }

  /** `%16llX<sep>%s<sep>%s<sep>`, with the key column `w` wide; each field up to its first NUL. */
  function DelimRecord(e: Entry, sep: char, w: nat): string {
    KeyField(e.key, w) + [sep] + CStr(e.name) + [sep] + CStr(e.address) + [sep]
  }

  /** `snprintf` into the `text` buffer keeps at most BufSize - 1 characters. */
  function Truncated(s: string): (r: string)
    ensures |r| <= BufSize - 1 && r <= s
    ensures |s| <= BufSize - 1 ==> r == s
  {
    if |s| <= BufSize - 1 then s else s[..BufSize - 1]
  }

  function RecordLine(e: Entry, sep: char, nam: nat, add: nat, w: nat): string {
    Truncated(if sep != NUL then DelimRecord(e, sep, w) else FixedRecord(e, nam, add, w))
  }

  /** Lines as a stream writes them, each followed by the newline of `std::endl`. */
  function Joined(lines: seq<string>): seq<char> {
    if lines == [] then [] else Joined(lines[..|lines| - 1]) + lines[|lines| - 1] + "\n"
  }

  lemma Assoc(a: seq<char>, b: seq<char>, c: seq<char>)
    ensures a + (b + c) == a + b + c
  {
  }

  /** A joined stream read front to back: the first line, then the rest. */
  lemma {:induction false} JoinedCons(lines: seq<string>)
    requires lines != []
    ensures Joined(lines) == lines[0] + "\n" + Joined(lines[1..])
  {
    if |lines| == 1 {
      assert lines[..0] == [] && lines[1..] == [];
    } else {
      var init, last := lines[..|lines| - 1], lines[|lines| - 1];
      var head := lines[0] + "\n";
      JoinedCons(init);
      assert init[0] == lines[0] && init[1..] == lines[1..][..|lines[1..]| - 1];
      assert lines[1..][|lines[1..]| - 1] == last;
      assert Joined(lines[1..]) == Joined(init[1..]) + last + "\n";
      Assoc(head, Joined(init[1..]), last);
      Assoc(head, Joined(init[1..]) + last, "\n");
    }
  }

  function RecordLines(all: seq<Entry>, sep: char, nam: nat, add: nat, w: nat): (r: seq<string>)
    ensures |r| == |all| && forall i :: 0 <= i < |all| ==> r[i] == RecordLine(all[i], sep, nam, add, w)
  {
    seq(|all|, i requires 0 <= i < |all| => RecordLine(all[i], sep, nam, add, w))
  }

  /** The record part of the file. */
  function Records(all: seq<Entry>, sep: char, nam: nat, add: nat, w: nat): seq<char> {
    Joined(RecordLines(all, sep, nam, add, w))
  }

  /** `siz_nam`, `siz_add`, `siz_tot` as the header states them: all 0 with a separator. */
  function Sizes(all: seq<Entry>, sep: char): (nat, nat, nat) {
    if sep != NUL then (0, 0, 0)
    else (NameWidth(all), AddressWidth(all), PairWidth(all) + 8 + 2 + 1)
  }

  /**
   * The file `createText` leaves: empty in the minimal build (the stream is
   * opened and closed), else the header and the records in collection order.
   */
  function TextFile(all: seq<Entry>, sep: char, minimal: bool, w: nat): seq<char> {
    if minimal then []
    else
      var (nam, add, tot) := Sizes(all, sep);
      HeaderLine(sep, nam, add, tot) + "\n" + Records(all, sep, nam, add, w)
  }

  /** A fixed-record file: the header with the column widths, then the padded records. */
  lemma FixedTextFile(all: seq<Entry>, w: nat)
    ensures TextFile(all, NUL, false, w)
         == HeaderLine(NUL, NameWidth(all), AddressWidth(all), PairWidth(all) + 8 + 2 + 1) + "\n"
            + Records(all, NUL, NameWidth(all), AddressWidth(all), w)
  {
  }

  /**
   * The sizing pass of `createText` in fixed-column mode: the longest name,
   * the longest address and the longest name and address of one entry, plus
   * 8+2+1 for the key column and the two blanks.
   */
  method ColumnSizes(all: seq<Entry>) returns (sizNam: nat, sizAdd: nat, sizTot: nat)
    ensures (sizNam, sizAdd, sizTot) == Sizes(all, NUL)
  {
    sizNam, sizAdd, sizTot := 0, 0, 0;
    var i := 0;
    while i < |all|
      invariant 0 <= i <= |all|
      invariant sizNam == NameWidth(all[..i]) && sizAdd == AddressWidth(all[..i])
      invariant sizTot == PairWidth(all[..i])
    {
      var sizN, sizA := |all[i].name|, |all[i].address|;
      assert all[..i + 1][..i] == all[..i];
      if sizAdd < sizA { sizAdd := sizA; }
      if sizNam < sizN { sizNam := sizN; }
      if sizTot < sizN + sizA { sizTot := sizN + sizA; }
      i := i + 1;
    }
    assert all[..|all|] == all;
    sizTot := sizTot + 8 + 2 + 1;
  }

  /** `createText`: size the columns, then write the header and one line per entry. */
  method CreateText(all: seq<Entry>, sep: char, minimal: bool, w: nat) returns (out: seq<char>)
    ensures out == TextFile(all, sep, minimal, w)
  {
    if minimal {
      return [];
    }
    var sizNam, sizAdd, sizTot := 0, 0, 0;
    if sep == NUL {
      sizNam, sizAdd, sizTot := ColumnSizes(all);
    }
    var records := WriteRecords(all, sep, sizNam, sizAdd, w);
    out := HeaderLine(sep, sizNam, sizAdd, sizTot) + "\n" + records;
  }

  /** The writing pass of `createText`: one line per entry, in collection order. */
  method WriteRecords(all: seq<Entry>, sep: char, nam: nat, add: nat, w: nat) returns (out: seq<char>)
    ensures out == Records(all, sep, nam, add, w)
  {
    ghost var lines := RecordLines(all, sep, nam, add, w);
    out := [];
    var i := 0;
    while i < |all|
      invariant 0 <= i <= |all|
      invariant out == Joined(lines[..i])
    {
      JoinedSnoc(lines, i);
      out := out + RecordLine(all[i], sep, nam, add, w) + "\n";
      i := i + 1;
    }
    assert lines[..|all|] == lines;
  }

  /** Joining one more line appends it and its newline. */
  lemma JoinedSnoc(lines: seq<string>, i: nat)
    requires i < |lines|
    ensures Joined(lines[..i + 1]) == Joined(lines[..i]) + lines[i] + "\n"
  {
    assert lines[..i + 1][..i] == lines[..i];
  }

  /** An empty collection still gets a header: `dd4hep.-.0.0.11`. */
  lemma EmptyCollectionHeader(w: nat)
    ensures TextFile([], NUL, false, w) == "dd4hep.-.0.0.11\n"
  {
    assert Numeral(11, 10) == "11";
  }

  /** With a separator the header carries it and all three sizes are 0. */
  lemma DelimitedHeader(all: seq<Entry>, sep: char, w: nat)
    requires sep != NUL
    ensures TextFile(all, sep, false, w) == "dd4hep." + [sep] + ".0.0.0\n" + Records(all, sep, 0, 0, w)
  {
  }

  /**
   * In fixed-column mode every record line is equally long, w + 2 + siz_nam
   * + siz_add (18 + siz_nam + siz_add with the 16-wide key column), when each
   * key fits its column and each line fits the buffer.
   */
  lemma FixedRecordsEquallyLong(all: seq<Entry>, w: nat)
    requires forall e :: e in all ==> |Numeral(e.key, 16)| <= w
    requires w + 2 + NameWidth(all) + AddressWidth(all) <= BufSize - 1
    ensures forall e :: e in all ==>
      |RecordLine(e, NUL, NameWidth(all), AddressWidth(all), w)| == w + 2 + NameWidth(all) + AddressWidth(all)
  {
    WidthsAreMaxima(all);
  }
}
