/**
 * `readText`: parse the header with `>>`, then read the file line by line
 * into one reused `char text[]` buffer, cut the fields out of it by writing
 * NULs in place (fixed offsets when `siz_tot != 0`, the separator otherwise),
 * scan the key as hex and append the entry to the caller's vector.
 */
module TextReader {
  import opened Options
  import opened CText
  import opened Numerals
  import opened Conditions
  import opened TextFormat

  /** The header as `>>` reads it: the separator slot and the three sizes. */
  datatype Header = Header(sep: char, nam: U64, add: U64, tot: U64)

  /** `>> c` into a `char`: skip white space, take one character; the stream fails at its end. */
  function ReadChar(s: seq<char>): (r: Option<(char, seq<char>)>)
    ensures r.Some? ==> |r.value.1| < |s|
  {
    var t := SkipWs(s);
    if t == [] then None else Some((t[0], t[1..]))
  }

  /** `n` reads of `>> c` whose characters are not looked at. */
  function SkipChars(n: nat, s: seq<char>): Option<seq<char>> {
    if n == 0 then Some(s)
    else
      var p :- ReadChar(s);
      SkipChars(n - 1, p.1)
  }

  /**
   * `in >> c >> c >> c >> c >> c >> c >> c >> sep >> c >> siz_nam >> c >> siz_add
   * >> c >> siz_tot`: the "dd4hep" prefix is skipped, not checked; once one
   * extraction fails, the stream stays failed and nothing is loaded.
   */
  function ParseHeader(s: seq<char>): Option<(Header, seq<char>)> {
    var r0 :- SkipChars(7, s);
    var sp :- ReadChar(r0);
    var nam :- ReadSize(sp.1);
    var add :- ReadSize(nam.1);
    var tot :- ReadSize(add.1);
    Some((Header(sp.0, nam.0, add.0, tot.0), tot.1))
  }

  /** `>> c >> siz`: one character not looked at, then a `size_t`. */
  function ReadSize(s: seq<char>): Option<(U64, seq<char>)> {
    var r :- SkipChars(1, s);
    ParseSize(r)
  }

  /**
   * `getline(text, sizeof(text), '\n')` that leaves the stream good: a line
   * ended by a newline and holding at most BufSize - 1 characters. A longer
   * line sets failbit and a last line with no newline sets eofbit; either
   * ends the reading loop.
   */
  function Getline(s: seq<char>): (r: Option<(string, seq<char>)>)
    ensures r.Some? <==> '\n' in s && IndexOf(s, '\n') <= BufSize - 1
    ensures r.Some? ==> s == r.value.0 + "\n" + r.value.1 && '\n' !in r.value.0
    ensures r.Some? ==> |r.value.0| <= BufSize - 1
  {
    var j := IndexOf(s, '\n');
    if j < |s| && j <= BufSize - 1 then Some((s[..j], s[j + 1..])) else None
  }

  /** The buffer after `getline` stored `line`: the line, its NUL, then what was there before. */
  function Store(buf: seq<char>, line: string): (r: seq<char>)
    requires |buf| == BufSize && |line| <= BufSize - 1
    ensures |r| == BufSize
  {
    line + [NUL] + buf[|line| + 1..]
  }

  /** `size_t` arithmetic: a sum wraps around to below 2^64. */
  function Wrap(x: nat): U64 {
    if x < U64Range then x else Wrap(x - U64Range)
  }

  /** The wrapped sum is the sum modulo 2^64. */
  lemma {:induction false} WrapIsModulo(x: nat)
    ensures Wrap(x) == x % U64Range
  {
    if x >= U64Range {
      WrapIsModulo(x - U64Range);
    }
  }

  /** The two checks before a line is cut: 9+siz_nam and 10+siz_nam+siz_add below sizeof(text). */
  predicate Consistent(h: Header) {
    Wrap(9 + h.nam) < BufSize && Wrap(10 + h.nam + h.add) < BufSize
  }

  /**
   * Fixed-record mode: NULs at `idx_add`, `idx_nam` and 8 (an offset that does
   * not lie below BufSize - 1 becomes 0); the name is the C string at 9 and
   * the address the one after `idx_nam`, each cut at its first blank.
   * Returns the buffer as left, the name and the address.
   */
  function FixedFields(b: seq<char>, nam: U64, add: U64): (r: (seq<char>, string, string))
    requires |b| == BufSize
    ensures |r.0| == BufSize
  {
    var b1 := b[AddOffset(nam, add) := NUL][NamOffset(nam) := NUL][8 := NUL];
    (b1, CutAt(CStr(b1[9..]), ' '), CutAt(CStr(b1[NamOffset(nam) + 1..]), ' '))
  }

  /** `idx_nam`: 9+siz_nam (wrapped) when it lies below BufSize - 1, else 0. */
  function NamOffset(nam: U64): (r: nat)
    ensures r < BufSize - 1
    ensures 9 + nam < BufSize - 1 ==> r == 9 + nam
    ensures Wrap(9 + nam) >= BufSize - 1 ==> r == 0
  {
    if Wrap(9 + nam) < BufSize - 1 then Wrap(9 + nam) else 0
  }

  /** `idx_add`: 10+siz_nam+siz_add (wrapped) when it lies below BufSize - 1, else 0. */
  function AddOffset(nam: U64, add: U64): (r: nat)
    ensures r < BufSize - 1
    ensures 10 + nam + add < BufSize - 1 ==> r == 10 + nam + add
    ensures Wrap(10 + nam + add) >= BufSize - 1 ==> r == 0
  {
    if Wrap(10 + nam + add) < BufSize - 1 then Wrap(10 + nam + add) else 0
  }

  /**
   * The checks tightened to the offsets' own bound: 9+siz_nam and
   * 10+siz_nam+siz_add (wrapped) below BufSize - 1 rather than below BufSize.
   */
  predicate IntendedConsistent(h: Header) {
    Wrap(9 + h.nam) < BufSize - 1 && Wrap(10 + h.nam + h.add) < BufSize - 1
  }

  /**
   * The tightened checks pass exactly when the checks pass and neither offset
   * falls back to 0; without wrap-around they are the bound the fixed-record
   * round trip asks of the column sizes.
   */
  lemma IntendedChecks(h: Header)
    ensures IntendedConsistent(h)
        <==> Consistent(h) && NamOffset(h.nam) == Wrap(9 + h.nam) && AddOffset(h.nam, h.add) == Wrap(10 + h.nam + h.add)
    ensures 10 + h.nam + h.add < U64Range ==> (IntendedConsistent(h) <==> 10 + h.nam + h.add < BufSize - 1)
  {
    if 10 + h.nam + h.add < U64Range {
      assert Wrap(9 + h.nam) == 9 + h.nam;
      assert Wrap(10 + h.nam + h.add) == 10 + h.nam + h.add;
    }
  }

  /** When 10+siz_nam+siz_add lies below BufSize - 1 the NULs go to 8, 9+siz_nam and 10+siz_nam+siz_add. */
  lemma FixedFieldsInRange(b: seq<char>, nam: U64, add: U64)
    requires |b| == BufSize && 10 + nam + add < BufSize - 1
    ensures var b1 := b[10 + nam + add := NUL][9 + nam := NUL][8 := NUL];
            FixedFields(b, nam, add) == (b1, CutAt(CStr(b1[9..]), ' '), CutAt(CStr(b1[10 + nam..]), ' '))
  {
    assert NamOffset(nam) == 9 + nam && AddOffset(nam, add) == 10 + nam + add;
  }

  /** The address as the separated branch cuts it: at its first separator, else at its first newline. */
  function AddressCut(address0: string, sep: char): string {
    if sep in address0 then CutAt(address0, sep) else CutAt(address0, '\n')
  }

  /**
   * Variable-record mode: the name is the C string at 9 up to its first
   * `sep`, written over with NUL; the address starts after it. When the name
   * holds no `sep` the address of the previous line is kept (the entry is
   * reused). The address is then cut at its first `sep`, or else at its
   * first newline.
   */
  function DelimFields(b: seq<char>, sep: char, prevAddress: string): (r: (seq<char>, string, string))
    requires |b| == BufSize
    ensures |r.0| == BufSize
  {
    var name0 := CStr(b[9..]);
    var idx := IndexOf(name0, sep);
    var (b1, name, address0) :=
      if idx < |name0| && idx + 10 < BufSize then
        var b1 := b[9 + idx := NUL];
        (b1, CStr(b1[9..]), CStr(b1[idx + 10..]))
      else
        (b, name0, prevAddress);
    (b1, name, AddressCut(address0, sep))
  }

  /**
   * One record line in the buffer: cut the fields, then `sscanf(text, "%16llX")`
   * the key from what the buffer holds as a C string; a failed scan leaves
   * the key of the previous line. Returns the buffer as left and the entry.
   */
  function Record(b: seq<char>, h: Header, prev: Entry): (r: (seq<char>, Entry))
    requires |b| == BufSize
    ensures |r.0| == BufSize
  {
    var (b1, name, address) :=
      if h.tot != 0 then FixedFields(b, h.nam, h.add) else DelimFields(b, h.sep, prev.address);
    (b1, Entry(ScanHex(CStr(b1)).GetOr(prev.key), name, address))
  }

  /** The reading loop from the first record line on, with the buffer and entry it starts from. */
  function DecodeLines(s: seq<char>, buf: seq<char>, prev: Entry, h: Header): Decoded
    requires |buf| == BufSize
    decreases |s|
  {
    match Getline(s)
    case None => Decoded([], None)
    case Some((line, more)) =>
      if !Consistent(h) then Decoded([], Some(Inconsistent(h.nam, h.add, h.tot)))
      else
        var (b1, e) := Record(Store(buf, line), h, prev);
        var d := DecodeLines(more, b1, e, h);
        Decoded([e] + d.entries, d.failure)
  }

  /** The entry `readText` declares before its loop. */
  const FreshEntry := Entry(0, "", "")

  /**
   * `readText` on the stream `s`, with `stale` the bytes the uninitialised
   * `text` buffer holds: the header, the rest of its line, then the records.
   */
  function DecodeText(s: seq<char>, stale: seq<char>): Decoded
    requires |stale| == BufSize
  {
    match ParseHeader(s)
    case None => Decoded([], None)
    case Some((h, more)) =>
      match Getline(more)
      case None => Decoded([], None)
      case Some((rest, records)) => DecodeLines(records, Store(stale, rest), FreshEntry, h)
  }

  /** Writing NUL into `text[0]` before `getline` changes nothing that `getline` leaves. */
  lemma StoreOverwritesFirst(buf: seq<char>, line: string)
    requires |buf| == BufSize && |line| <= BufSize - 1
    ensures Store(buf[0 := NUL], line) == Store(buf, line)
  {
    assert buf[0 := NUL][|line| + 1..] == buf[|line| + 1..];
  }

  /** `in.getline(text, sizeof(text), '\n')`: copy the line into the buffer and end it with NUL. */
  method GetlineInto(text: array<char>, s: seq<char>) returns (good: bool, more: seq<char>)
    requires text.Length == BufSize
    modifies text
    ensures good <==> Getline(s).Some?
    ensures good ==> more == Getline(s).value.1 && text[..] == Store(old(text[..]), Getline(s).value.0)
  {
    var g := Getline(s);
    if g.None? {
      return false, s;
    }
    var line := g.value.0;
    forall i | 0 <= i < |line| {
      text[i] := line[i];
    }
    text[|line|] := NUL;
    good, more := true, g.value.1;
    assert text[..] == Store(old(text[..]), line);
  }

  /** The fixed-record branch of the loop body, in place on `text`. */
  method CutFixed(text: array<char>, nam: U64, add: U64) returns (name: string, address: string)
    requires text.Length == BufSize
    modifies text
    ensures (text[..], name, address) == FixedFields(old(text[..]), nam, add)
  {
    var idxNam, idxAdd := NamOffset(nam), AddOffset(nam, add);
    text[idxAdd] := NUL;
    text[idxNam] := NUL;
    text[8] := NUL;
    name := CStr(text[9..]);
    address := CStr(text[idxNam + 1..]);
    var idx := IndexOf(name, ' ');
    if idx < |name| {
      name := name[idx := NUL];
    }
    idx := IndexOf(address, ' ');
    if idx < |address| {
      address := address[idx := NUL];
    }
  }

  /** The variable-record branch of the loop body, in place on `text`; `address` is the reused one. */
  method CutDelimited(text: array<char>, sep: char, prevAddress: string) returns (name: string, address: string)
    requires text.Length == BufSize
    modifies text
    ensures (text[..], name, address) == DelimFields(old(text[..]), sep, prevAddress)
  {
    address := prevAddress;
    name := CStr(text[9..]);
    var idx := IndexOf(name, sep);
    if idx < |name| && idx + 10 < BufSize {
      text[9 + idx] := NUL;
      address := CStr(text[idx + 10..]);
      name := CStr(text[9..]);
    }
    idx := IndexOf(address, sep);
    if idx < |address| {
      address := address[idx := NUL];
    } else {
      idx := IndexOf(address, '\n');
      if idx < |address| {
        address := address[idx := NUL];
      }
    }
  }

  /** One pass of the loop body once the line is in `text` and the sizes passed the checks. */
  method CutRecord(text: array<char>, h: Header, e: Entry) returns (next: Entry)
    requires text.Length == BufSize
    modifies text
    ensures (text[..], next) == Record(old(text[..]), h, e)
  {
    var name, address;
    if h.tot != 0 {
      name, address := CutFixed(text, h.nam, h.add);
    } else {
      name, address := CutDelimited(text, h.sep, e.address);
    }
    var key := ScanHex(CStr(text[..]));
    next := Entry(if key.Some? then key.value else e.key, name, address);
  }

  /** The loop ends without an error when no good line is left. */
  lemma DecodeLinesStop(s: seq<char>, buf: seq<char>, prev: Entry, h: Header)
    requires |buf| == BufSize && Getline(s).None?
    ensures DecodeLines(s, buf, prev, h) == Decoded([], None)
  {
  }

  /** A good line with sizes that fail the checks raises "Inconsistent input data". */
  lemma DecodeLinesRaise(s: seq<char>, buf: seq<char>, prev: Entry, h: Header)
    requires |buf| == BufSize && Getline(s).Some? && !Consistent(h)
    ensures DecodeLines(s, buf, prev, h) == Decoded([], Some(Inconsistent(h.nam, h.add, h.tot)))
  {
  }

  /** A good line with consistent sizes yields its record, then the rest of the loop. */
  lemma DecodeLinesStep(s: seq<char>, buf: seq<char>, prev: Entry, h: Header)
    requires |buf| == BufSize && Getline(s).Some? && Consistent(h)
    ensures var r := Record(Store(buf, Getline(s).value.0), h, prev);
            var d := DecodeLines(Getline(s).value.1, r.0, r.1, h);
            DecodeLines(s, buf, prev, h) == Decoded([r.1] + d.entries, d.failure)
  {
  }

  /**
   * The `do { ... } while (in.good() && !in.eof())` loop of `readText` over the
   * stream from the first record line on, with the buffer and the reused
   * entry as the header line left them.
   */
  method ReadRecords(text: array<char>, s: seq<char>, e0: Entry, h: Header, data: Data) returns (outcome: Outcome)
    requires text.Length == BufSize && data.Valid()
    modifies text, data
    ensures data.Valid()
    ensures data.entries == old(data.entries) + DecodeLines(s, old(text[..]), e0, h).entries
    ensures outcome == LoaderOutcome(DecodeLines(s, old(text[..]), e0, h))
  {
    ghost var total := DecodeLines(s, text[..], e0, h);
    var rest, e := s, e0;
    while true
      invariant data.Valid()
      invariant old(data.entries) + total.entries == data.entries + DecodeLines(rest, text[..], e, h).entries
      invariant total.failure == DecodeLines(rest, text[..], e, h).failure
      decreases |rest|
    {
      ghost var buf := text[..];
      text[0] := NUL;
      var good, more := GetlineInto(text, rest);
      if !good {
        DecodeLinesStop(rest, buf, e, h);
        return Returned(1);
      }
      ghost var line := Getline(rest).value.0;
      StoreOverwritesFirst(buf, line);
      if !Consistent(h) {
        DecodeLinesRaise(rest, buf, e, h);
        return Raised(Inconsistent(h.nam, h.add, h.tot));
      }
      DecodeLinesStep(rest, buf, e, h);
      ghost var prev, before := e, data.entries;
      assert text[..] == Store(buf, line);
      e := CutRecord(text, h, e);
      ghost var d := DecodeLines(more, text[..], e, h);
      assert DecodeLines(rest, buf, prev, h) == Decoded([e] + d.entries, d.failure);
      data.Append(e);
      AppendOne(before, e, d.entries);
      rest := more;
    }
  }

  /**
   * `readText`: the entries it appends to `data` and the way it ends are those
   * of `DecodeText`; the entries `data` held before stay as they were.
   */
  method ReadText(s: seq<char>, data: Data, stale: seq<char>) returns (outcome: Outcome)
    requires data.Valid() && |stale| == BufSize
    modifies data
    ensures data.Valid()
    ensures data.entries == old(data.entries) + DecodeText(s, stale).entries
    ensures outcome == LoaderOutcome(DecodeText(s, stale))
  {
    var text := new char[BufSize](i requires 0 <= i < BufSize => stale[i]);
    assert text[..] == stale;
    var header := ParseHeader(s);
    if header.None? {
      return Returned(1);
    }
    var h, rest := header.value.0, header.value.1;
    text[0] := NUL;
    var good, more := GetlineInto(text, rest);
    if !good {
      return Returned(1);
    }
    StoreOverwritesFirst(stale, Getline(rest).value.0);
    outcome := ReadRecords(text, more, FreshEntry, h, data);
  }

  /** A line with no newline that fits the buffer is what `getline` returns, and the stream goes on after it. */
  lemma GetlineOf(line: string, rest: seq<char>)
    requires '\n' !in line && |line| <= BufSize - 1
    ensures Getline(line + "\n" + rest) == Some((line, rest))
  {
    IndexOfAfter(line, '\n', rest);
    var s := line + "\n" + rest;
    assert s[..|line|] == line && s[|line| + 1..] == rest;
  }

  /** `n` reads of `>> c` over characters that are no white space take exactly those characters. */
  lemma {:induction false} SkipCharsOf(p: seq<char>, x: seq<char>)
    requires forall i :: 0 <= i < |p| ==> !IsSpace(p[i])
    ensures SkipChars(|p|, p + x) == Some(x)
  {
    if p != [] {
      assert (p + x)[0] == p[0] && (p + x)[1..] == p[1..] + x;
      assert ReadChar(p + x) == Some((p[0], p[1..] + x));
      SkipCharsOf(p[1..], x);
    } else {
      assert p + x == x;
    }
  }

  /**
   * The header `createText` writes reads back with `>>`: the separator slot
   * ('-' in fixed-record mode) and the three sizes, the newline still ahead.
   */
  lemma HeaderRoundTrip(sep: char, nam: U64, add: U64, tot: U64, rest: seq<char>)
    requires !IsSpace(sep)
    ensures ParseHeader(HeaderLine(sep, nam, add, tot) + "\n" + rest)
         == Some((Header(if sep != NUL then sep else '-', nam, add, tot), "\n" + rest))
  {
    var slot := if sep != NUL then sep else '-';
    HeaderLineShape(sep, nam, add, tot, rest);
    ParseHeaderOf(slot, nam, add, tot, "\n" + rest);
  }

  /** The header line, its newline and what follows, as the reader takes them apart. */
  lemma HeaderLineShape(sep: char, nam: U64, add: U64, tot: U64, rest: seq<char>)
    ensures HeaderLine(sep, nam, add, tot) + "\n" + rest
         == "dd4hep." + ([if sep != NUL then sep else '-']
              + ("." + Numeral(nam, 10) + ("." + Numeral(add, 10) + ("." + Numeral(tot, 10) + ("\n" + rest)))))
  {
  }

  /** The prefix, a separator slot that is no white space, and three sizes read back. */
  lemma ParseHeaderOf(slot: char, nam: U64, add: U64, tot: U64, rest: seq<char>)
    requires !IsSpace(slot) && rest != [] && rest[0] == '\n'
    ensures ParseHeader("dd4hep." + ([slot] + ("." + Numeral(nam, 10) + ("." + Numeral(add, 10) + ("." + Numeral(tot, 10) + rest)))))
         == Some((Header(slot, nam, add, tot), rest))
  {
    var u3 := "." + Numeral(tot, 10) + rest;
    var u2 := "." + Numeral(add, 10) + u3;
    var u1 := "." + Numeral(nam, 10) + u2;
    var t := [slot] + u1;
    SkipCharsOf("dd4hep.", t);
    assert ReadChar(t) == Some((slot, u1));
    SizesOf(nam, add, tot, rest);
  }

  /** The three sizes, each after its '.', read back with `>> c >> siz` in turn. */
  lemma SizesOf(nam: U64, add: U64, tot: U64, rest: seq<char>)
    requires rest != [] && rest[0] == '\n'
    ensures var u3 := "." + Numeral(tot, 10) + rest;
            var u2 := "." + Numeral(add, 10) + u3;
            ReadSize("." + Numeral(nam, 10) + u2) == Some((nam, u2))
            && ReadSize(u2) == Some((add, u3)) && ReadSize(u3) == Some((tot, rest))
  {
    var u3 := "." + Numeral(tot, 10) + rest;
    var u2 := "." + Numeral(add, 10) + u3;
    assert u2[0] == '.' && u3[0] == '.';
    ReadSizeOf(nam, u2);
    ReadSizeOf(add, u3);
    ReadSizeOf(tot, rest);
  }

  /** A size written after its '.' reads back with `>> c >> siz`. */
  lemma ReadSizeOf(n: U64, rest: seq<char>)
    requires rest == [] || !IsDigit(rest[0], 10)
    ensures ReadSize("." + Numeral(n, 10) + rest) == Some((n, rest))
  {
    var d := Numeral(n, 10) + rest;
    assert "." + Numeral(n, 10) + rest == "." + d;
    SkipCharsOf(".", d);
    ParseSizeOfNumeral(n, rest);
  }

  /** After a header `createText` wrote, `readText` goes on with the records, a cleared buffer and a fresh entry. */
  lemma DecodeTextOfHeader(sep: char, nam: U64, add: U64, tot: U64, records: seq<char>, stale: seq<char>)
    requires |stale| == BufSize && !IsSpace(sep)
    ensures DecodeText(HeaderLine(sep, nam, add, tot) + "\n" + records, stale)
         == DecodeLines(records, Store(stale, []), FreshEntry, Header(if sep != NUL then sep else '-', nam, add, tot))
  {
    var h := Header(if sep != NUL then sep else '-', nam, add, tot);
    HeaderRoundTrip(sep, nam, add, tot, records);
    DecodeAfterHeader(HeaderLine(sep, nam, add, tot) + "\n" + records, stale, h, records);
  }

  /** A header that parses and ends its line: the records follow with a cleared buffer. */
  lemma DecodeAfterHeader(s: seq<char>, stale: seq<char>, h: Header, records: seq<char>)
    requires |stale| == BufSize && ParseHeader(s) == Some((h, "\n" + records))
    ensures DecodeText(s, stale) == DecodeLines(records, Store(stale, []), FreshEntry, h)
  {
    GetlineOf([], records);
    assert [] + "\n" + records == "\n" + records;
    DecodeTextStep(s, stale, h, "\n" + records, [], records);
  }

  /** A header that parses, then a good line, then the records. */
  lemma DecodeTextStep(s: seq<char>, stale: seq<char>, h: Header, more: seq<char>, rest: string, records: seq<char>)
    requires |stale| == BufSize && ParseHeader(s) == Some((h, more)) && Getline(more) == Some((rest, records))
    ensures DecodeText(s, stale) == DecodeLines(records, Store(stale, rest), FreshEntry, h)
  {
  }

  /**
   * The loop raises exactly when the header sizes fail the checks and a good
   * line is there to cut; it raises before appending anything, and the
   * error names the three header sizes.
   */
  lemma {:induction false} DecodeLinesFailure(s: seq<char>, buf: seq<char>, prev: Entry, h: Header)
    requires |buf| == BufSize
    ensures var d := DecodeLines(s, buf, prev, h);
            d.failure.Some? <==> !Consistent(h) && Getline(s).Some?
    ensures var d := DecodeLines(s, buf, prev, h);
            d.failure.Some? ==> d.failure.value == Inconsistent(h.nam, h.add, h.tot)
    ensures !Consistent(h) ==> DecodeLines(s, buf, prev, h).entries == []
    decreases |s|
  {
    if Getline(s).Some? && Consistent(h) {
      var r := Record(Store(buf, Getline(s).value.0), h, prev);
      DecodeLinesFailure(Getline(s).value.1, r.0, r.1, h);
    }
  }

  /**
   * Without wrap-around the checks are the plain inequalities
   * 9+siz_nam < sizeof(text) and 10+siz_nam+siz_add < sizeof(text).
   */
  lemma ConsistentSizes(h: Header)
    requires 10 + h.nam + h.add < U64Range
    ensures Consistent(h) <==> 9 + h.nam < BufSize && 10 + h.nam + h.add < BufSize
  {
  }

  /** With `size_t` wrap-around a header naming a huge `siz_nam` passes both checks. */
  lemma WrappedSizesPass()
    ensures Consistent(Header('-', U64Range - 9, 0, 1))
  {
    assert Wrap(9 + (U64Range - 9)) == 0;
    assert Wrap(10 + (U64Range - 9) + 0) == 1;
  }
}
