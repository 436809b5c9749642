/**
 * `ConditionsTextRepository::save` and `::load`: save collects every
 * condition of the manager into a key-ordered map and writes it in the
 * format the output name selects; load reads the input in the format its
 * name selects and appends the entries to the caller's vector.
 */
module Repository {
  import opened Options
  import opened CText
  import opened Numerals
  import opened Conditions
  import opened TextFormat
  import opened TextReader
  import opened TextRoundTrip
  import opened XmlFormat
  import opened TextFindings

  /** `pat` occurs in `name` at position `i`. */
  predicate OccursAt(name: string, pat: string, i: int) {
    0 <= i && i + |pat| <= |name| && name[i..i + |pat|] == pat
  }

  /** `name.find(pat) != std::string::npos`. */
  function Contains(name: string, pat: string): (r: bool)
    ensures r <==> exists i :: OccursAt(name, pat, i)
    decreases |name|
  {
    if |name| < |pat| then false
    else if name[..|pat|] == pat then
      assert OccursAt(name, pat, 0);
      true
    else
      var r := Contains(name[1..], pat);
      assert r ==> exists i :: OccursAt(name, pat, i) by {
        if r {
          var i :| OccursAt(name[1..], pat, i);
          assert name[1..][i..i + |pat|] == name[i + 1..i + 1 + |pat|];
          assert OccursAt(name, pat, i + 1);
        }
      }
      assert (exists i :: OccursAt(name, pat, i)) ==> r by {
        if i :| OccursAt(name, pat, i) {
          assert i != 0;
          assert name[1..][i - 1..i - 1 + |pat|] == name[i..i + |pat|];
          assert OccursAt(name[1..], pat, i - 1);
        }
      }
      r
  }

  /** What `save` writes: XML, or text with a separator (NUL for fixed records). */
  datatype SaveFormat = SaveXml | SaveText(sep: char)

  /** What `load` reads: XML or text (the text header says which kind of records). */
  datatype LoadFormat = LoadXml | LoadText

  /** The format `save` picks from the output name, the first match of .xml, .txt, .daf, .csv winning. */
  function SaveFormatOf(output: string): Option<SaveFormat> {
    if Contains(output, ".xml") then Some(SaveXml)
    else if Contains(output, ".txt") then Some(SaveText(NUL))
    else if Contains(output, ".daf") then Some(SaveText(NUL))
    else if Contains(output, ".csv") then Some(SaveText(';'))
    else None
  }

  /** The format `load` picks from the input name, in the same order. */
  function LoadFormatOf(input: string): Option<LoadFormat> {
    if Contains(input, ".xml") then Some(LoadXml)
    else if Contains(input, ".txt") || Contains(input, ".daf") || Contains(input, ".csv") then Some(LoadText)
    else None
  }

  /**
   * A name selects the same kind of file for loading as for saving, and
   * which writer it selects: XML whenever ".xml" occurs in it, else fixed
   * records for ".txt" and ".daf", else ';'-separated records for ".csv".
   */
  lemma LoadMatchesSave(name: string)
    ensures LoadFormatOf(name) == match SaveFormatOf(name)
      case None => None
      case Some(SaveXml) => Some(LoadXml)
      case Some(SaveText(_)) => Some(LoadText)
    ensures SaveFormatOf(name) == Some(SaveXml) <==> Contains(name, ".xml")
    ensures SaveFormatOf(name) == Some(SaveText(';'))
        <==> Contains(name, ".csv") && !Contains(name, ".xml") && !Contains(name, ".txt") && !Contains(name, ".daf")
    ensures SaveFormatOf(name).None? <==>
      !Contains(name, ".xml") && !Contains(name, ".txt") && !Contains(name, ".daf") && !Contains(name, ".csv")
  {
  }

  /** A ".csv" name that also holds ".xml" is saved as XML. */
  lemma XmlWinsOverCsv()
    ensures SaveFormatOf("run.csv.xml") == Some(SaveXml)
  {
    assert "run.csv.xml"[7..11] == ".xml";
  }

  /**
   * The loops of `save`: every condition each pool selects, met in turn, is
   * put into the key-ordered map, a later one replacing an earlier one with
   * the same key.
   */
  method Collect(selections: seq<seq<Entry>>) returns (all: seq<Entry>)
    ensures all == Collected(Flatten(selections))
    ensures Ascending(all)
    ensures forall k :: Lookup(all, k) == LastWithKey(Flatten(selections), k)
    ensures forall e :: e in all ==> e in Flatten(selections)
  {
    all := [];
    var i := 0;
    while i < |selections|
      invariant 0 <= i <= |selections|
      invariant all == Collected(Flatten(selections[..i]))
    {
      var rc := selections[i];
      ghost var before := Flatten(selections[..i]);
      var j := 0;
      assert before + rc[..0] == before;
      while j < |rc|
        invariant 0 <= j <= |rc|
        invariant all == Collected(before + rc[..j])
      {
        CollectedStep(before, rc, j);
        all := Put(all, rc[j]);
        j := j + 1;
      }
      FlattenSnoc(selections, i);
      assert rc[..|rc|] == rc;
      i := i + 1;
    }
    assert selections[..|selections|] == selections;
    CollectedIsLastByKey(Flatten(selections));
  }

  /** Putting the `j`-th condition of a pool after those met before it. */
  lemma CollectedStep(before: seq<Entry>, rc: seq<Entry>, j: nat)
    requires j < |rc|
    ensures Collected(before + rc[..j + 1]) == Put(Collected(before + rc[..j]), rc[j])
  {
    assert before + rc[..j + 1] == (before + rc[..j]) + [rc[j]];
    CollectedSnoc(before + rc[..j], rc[j]);
  }

  /** The file `save` leaves, as the XML document or the characters of the text file. */
  datatype Written = NothingWritten | XmlWritten(doc: XmlDoc) | TextWritten(text: seq<char>)

  /**
   * What `save` writes for the collection `all` under the name `output`,
   * with text keys in a column `w` wide: `save` as written is `w` ==
   * WrittenKeyWidth, the width its reader assumes is KeyWidth.
   */
  function Saved(all: seq<Entry>, output: string, minimal: bool, w: nat): Written {
    match SaveFormatOf(output)
    case None => NothingWritten
    case Some(SaveXml) => XmlWritten(XmlDoc("collection", Refs(all, minimal)))
    case Some(SaveText(sep)) => TextWritten(TextFile(all, sep, minimal, w))
  }

  /**
   * `save`: collect the conditions, then dispatch on the output name. XML
   * returns the document writer's code `outputRc`, text returns 1, and a
   * name with none of the four extensions writes nothing and returns 0.
   * Text keys go in a column `w` wide (WrittenKeyWidth as written).
   */
  method Save(selections: seq<seq<Entry>>, output: string, minimal: bool, outputRc: int, w: nat)
    returns (rc: int, written: Written)
    ensures written == Saved(Collected(Flatten(selections)), output, minimal, w)
    ensures rc == match SaveFormatOf(output)
      case None => 0
      case Some(SaveXml) => outputRc
      case Some(SaveText(_)) => 1
  {
    var all := Collect(selections);
    var format := SaveFormatOf(output);
    if format == Some(SaveXml) {
      var doc;
      rc, doc := CreateXML(all, output, minimal, outputRc);
      written := XmlWritten(doc);
    } else if format.Some? {
      var text := CreateText(all, format.value.sep, minimal, w);
      rc, written := 1, TextWritten(text);
    } else {
      rc, written := 0, NothingWritten;
    }
  }

  /** What `load` appends from the input named `input`, given its XML and text readings. */
  function Loaded(input: string, doc: XmlDoc, text: seq<char>, stale: seq<char>): Decoded
    requires |stale| == BufSize
  {
    match LoadFormatOf(input)
    case None => Decoded([], None)
    case Some(LoadXml) => ReadRefs(doc.children)
    case Some(LoadText) => DecodeText(text, stale)
  }

  /**
   * `load`: dispatch on the input name. The XML reader sees the parsed
   * document `doc`, the text reader the characters `text`; a name with none
   * of the four extensions appends nothing and returns 0.
   */
  method Load(input: string, doc: XmlDoc, text: seq<char>, data: Data, stale: seq<char>) returns (outcome: Outcome)
    requires data.Valid() && |stale| == BufSize
    modifies data
    ensures data.Valid()
    ensures data.entries == old(data.entries) + Loaded(input, doc, text, stale).entries
    ensures outcome == if LoadFormatOf(input).None? then Returned(0) else LoaderOutcome(Loaded(input, doc, text, stale))
  {
    var format := LoadFormatOf(input);
    if format == Some(LoadXml) {
      outcome := ReadXML(doc, data);
    } else if format == Some(LoadText) {
      outcome := ReadText(text, data, stale);
    } else {
      outcome := Returned(0);
    }
  }

  /** The document a written file parses to (an empty one for a text file or none). */
  function DocOf(w: Written): XmlDoc {
    if w.XmlWritten? then w.doc else XmlDoc("collection", [])
  }

  /** The characters of a written file (none for an XML file or none). */
  function TextOf(w: Written): seq<char> {
    if w.TextWritten? then w.text else []
  }

  /** Conditions every format carries back: keys of at most 8 hex digits, short fields free of NUL, blank, ';' and newline. */
  predicate Portable(e: Entry) {
    FixedSafe(e) && DelimSafe(e, ';') && |e.name| < PathMax && |e.address| < PathMax
  }

  /** Fields free of NUL read as themselves. */
  lemma {:induction false} ViewsOfPlain(all: seq<Entry>)
    requires forall e :: e in all ==> NUL !in e.name && NUL !in e.address
    ensures Views(all) == all
  {
    forall i | 0 <= i < |all|
      ensures Views(all)[i] == all[i]
    {
      assert all[i] in all;
      CStrOfPlain(all[i].name);
      CStrOfPlain(all[i].address);
    }
  }

  /** Column widths stay below a bound every field respects. */
  lemma WidthsBelow(all: seq<Entry>, m: nat)
    requires forall e :: e in all ==> |e.name| <= m && |e.address| <= m
    ensures NameWidth(all) <= m && AddressWidth(all) <= m
  {
    WidthsAreMaxima(all);
    if all != [] {
      var n :| n in all && |n.name| == NameWidth(all);
      var a :| a in all && |a.address| == AddressWidth(all);
    }
  }

  /**
   * Saving under a name with one of the four extensions, with the key
   * column as wide as the reader assumes, then loading that file under the
   * same name, gives back the collection `save` built (its fields as C
   * strings): one entry per key, ascending, each the last condition met
   * with its key.
   */
  lemma SaveThenLoad(selections: seq<seq<Entry>>, name: string, stale: seq<char>)
    requires |stale| == BufSize && SaveFormatOf(name).Some?
    requires forall e :: e in Flatten(selections) ==> Portable(e)
    ensures var all := Collected(Flatten(selections));
            var w := Saved(all, name, false, KeyWidth);
            var d := Loaded(name, DocOf(w), TextOf(w), stale);
            d.failure == None && Views(d.entries) == all
  {
    var all := Collected(Flatten(selections));
    CollectedIsLastByKey(Flatten(selections));
    assert forall e :: e in all ==> Portable(e);
    LoadMatchesSave(name);
    match SaveFormatOf(name)
    case Some(SaveXml) =>
      XmlRoundTrip(all);
      ViewsOfPlain(all);
    case Some(SaveText(sep)) =>
      if sep == NUL {
        WidthsBelow(all, PathMax - 1);
        FixedRoundTrip(all, stale);
      } else {
        SemicolonIsValidSep();
        assert sep == ';';
        DelimRoundTrip(all, ';', stale);
      }
  }

  /**
   * In the minimal build the text formats write an empty file, which loads
   * nothing, and the XML format writes elements without `ref`, which raise
   * on loading as soon as there is one.
   */
  lemma MinimalSaveThenLoad(selections: seq<seq<Entry>>, name: string, stale: seq<char>, width: nat)
    requires |stale| == BufSize && SaveFormatOf(name).Some?
    ensures var all := Collected(Flatten(selections));
            var w := Saved(all, name, true, width);
            var d := Loaded(name, DocOf(w), TextOf(w), stale);
            d == if SaveFormatOf(name) == Some(SaveXml) && all != []
                 then Decoded([], Some(MissingAttribute("ref")))
                 else Decoded([], None)
  {
    var all := Collected(Flatten(selections));
    LoadMatchesSave(name);
    if SaveFormatOf(name) == Some(SaveXml) && all != [] {
      MinimalXmlLoadFails(all);
    }
  }

  /**
   * `save` as written, then `load`: XML gives back the collection exactly;
   * fixed records come back as many entries with no error, every key 0, so
   * the collection is lost whenever it holds a non-zero key; ';'-separated
   * records come back each with its key, the tail of its key column as its
   * name and its name as its address.
   */
  lemma SaveAsWrittenThenLoad(selections: seq<seq<Entry>>, name: string, stale: seq<char>)
    requires |stale| == BufSize && SaveFormatOf(name).Some?
    requires forall e :: e in Flatten(selections) ==> Portable(e)
    ensures var all := Collected(Flatten(selections));
            var w := Saved(all, name, false, WrittenKeyWidth);
            var d := Loaded(name, DocOf(w), TextOf(w), stale);
            d.failure == None
            && (SaveFormatOf(name) == Some(SaveXml) ==> d.entries == all)
            && (SaveFormatOf(name) == Some(SaveText(NUL)) ==>
                  |d.entries| == |all| && (forall i :: 0 <= i < |all| ==> d.entries[i].key == 0)
                  && ((exists e :: e in all && e.key != 0) ==> Views(d.entries) != all))
            && (SaveFormatOf(name) == Some(SaveText(';')) ==> Views(d.entries) == ShiftedAll(all))
  {
    var all := Collected(Flatten(selections));
    CollectedIsLastByKey(Flatten(selections));
    assert forall e :: e in all ==> Portable(e);
    LoadMatchesSave(name);
    match SaveFormatOf(name)
    case Some(SaveXml) =>
      XmlRoundTrip(all);
      ViewsOfPlain(all);
    case Some(SaveText(sep)) =>
      if sep == NUL {
        WidthsBelow(all, PathMax - 1);
        AsWrittenKeysLost(all, stale);
      } else {
        SemicolonIsValidSep();
        assert sep == ';';
        AsWrittenDelimShifted(all, ';', stale);
      }
  }
}
