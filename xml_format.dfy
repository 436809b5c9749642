/**
 * The XML snapshot: `createXML` writes one `ref` element per condition under
 * the `collection` root, with the attributes `key` ("0x%16llX"), `name` and,
 * unless the minimal build leaves it out, `ref` (the address); `readXML`
 * visits the root's `ref` children and appends one entry per element.
 */
module XmlFormat {
  import opened Options
  import opened CText
  import opened Numerals
  import opened Conditions
  import opened TextFormat

  /** An element as the document handler holds it: its tag and its attributes. */
  datatype Element = Element(tag: string, attrs: map<string, string>)

  /** A document: the root's tag and the root's children in order. */
  datatype XmlDoc = XmlDoc(root: string, children: seq<Element>)

  /** The `char text[32]` the key is printed into. */
  const KeyBufSize: nat := 32

  /** `"0x%16llX"`: "0x", then the key in upper-case hex right-justified with blanks in 16 columns. */
  function XmlKey(k: U64): (r: string)
    ensures |r| >= 18 && r[..2] == "0x"
  {
    "0x" + KeyField(k, WrittenKeyWidth)
  }

  /** Every key prints in 18 characters, so `snprintf` into the 32-byte buffer never cuts it. */
  lemma XmlKeyFits(k: U64)
    ensures |XmlKey(k)| == 18 && |XmlKey(k)| <= KeyBufSize - 1
  {
    HexLength(k);
  }

  /**
   * `sscanf(key, "0x%16llX", ...)`: the literal "0x", then white space and at
   * most 16 hex digits; `None` when either fails (the key is left as it was).
   */
  function ScanXmlKey(s: string): (r: Option<U64>)
    ensures r.Some? ==> |s| >= 2 && s[..2] == "0x"
  {
    if |s| >= 2 && s[..2] == "0x" then ScanHex(s[2..]) else None
  }

  /** Every key `createXML` writes is read back by `readXML`. */
  lemma XmlKeyRoundTrip(k: U64)
    ensures ScanXmlKey(XmlKey(k)) == Some(k)
  {
    ScanKeyField(k, WrittenKeyWidth);
    assert XmlKey(k)[2..] == KeyField(k, WrittenKeyWidth);
  }

  /**
   * The `ref` element of one condition; `setAttr` is handed `name()` and
   * `address()` as C strings, so each value stops at its first NUL. The
   * minimal build writes no `ref` attribute.
   */
  function RefElement(e: Entry, minimal: bool): (r: Element)
    ensures r.tag == "ref" && "key" in r.attrs && "name" in r.attrs
    ensures r.attrs["key"] == XmlKey(e.key) && r.attrs["name"] == CStr(e.name)
    ensures "ref" in r.attrs <==> !minimal
    ensures !minimal ==> r.attrs["ref"] == CStr(e.address)
  {
    var attrs := map["key" := XmlKey(e.key), "name" := CStr(e.name)];
    Element("ref", if minimal then attrs else attrs["ref" := CStr(e.address)])
  }

  /** The root's children: one `ref` element per condition, in collection order. */
  function Refs(all: seq<Entry>, minimal: bool): (r: seq<Element>)
    ensures |r| == |all| && forall i :: 0 <= i < |all| ==> r[i] == RefElement(all[i], minimal)
  {
    seq(|all|, i requires 0 <= i < |all| => RefElement(all[i], minimal))
  }

  /**
   * `createXML`: build the document, one element per condition. With an output
   * name the document is written and `DocumentHandler::output`'s return code
   * (`outputRc`) is returned; with an empty name nothing is written and the
   * result is 1.
   */
  method CreateXML(all: seq<Entry>, output: string, minimal: bool, outputRc: int)
    returns (rc: int, doc: XmlDoc)
    ensures doc == XmlDoc("collection", Refs(all, minimal))
    ensures rc == if output != [] then outputRc else 1
  {
    var children: seq<Element> := [];
    var i := 0;
    while i < |all|
      invariant 0 <= i <= |all|
      invariant children == Refs(all[..i], minimal)
    {
      children := children + [RefElement(all[i], minimal)];
      i := i + 1;
    }
    assert all[..|all|] == all;
    doc := XmlDoc("collection", children);
    rc := if output != [] then outputRc else 1;
  }

  /** The first attribute `readXML` asks for and does not find: key, then name, then ref. */
  function MissingAttr(el: Element): (r: Option<string>)
    ensures r.None? <==> "key" in el.attrs && "name" in el.attrs && "ref" in el.attrs
  {
    if "key" !in el.attrs then Some("key")
    else if "name" !in el.attrs then Some("name")
    else if "ref" !in el.attrs then Some("ref")
    else None
  }

  /** The key an entry declared fresh holds when `sscanf` does not set it. */
  const FreshKey: U64 := 0

  /** The entry the callback appends for a `ref` element that has all three attributes. */
  function RefEntry(el: Element): Entry
    requires MissingAttr(el).None?
  {
    Entry(ScanXmlKey(el.attrs["key"]).GetOr(FreshKey), el.attrs["name"], el.attrs["ref"])
  }

  /**
   * `readXML` over the root's children: elements other than `ref` are not
   * visited; the first `ref` element lacking an attribute raises, and the
   * entries appended before it stay.
   */
  function ReadRefs(children: seq<Element>): Decoded {
    if children == [] then Decoded([], None)
    else
      var el := children[0];
      if el.tag != "ref" then ReadRefs(children[1..])
      else match MissingAttr(el)
        case Some(a) => Decoded([], Some(MissingAttribute(a)))
        case None =>
          var d := ReadRefs(children[1..]);
          Decoded([RefEntry(el)] + d.entries, d.failure)
  }

  /** The `ref` children of the root, in order. */
  function RefChildren(children: seq<Element>): (r: seq<Element>)
    ensures forall el :: el in r <==> el in children && el.tag == "ref"
    ensures |r| <= |children|
  {
    if children == [] then []
    else if children[0].tag == "ref" then [children[0]] + RefChildren(children[1..])
    else RefChildren(children[1..])
  }

  /** The `ref` children of two runs of children are those of the first run, then those of the second. */
  lemma {:induction false} RefChildrenAppend(a: seq<Element>, b: seq<Element>)
    ensures RefChildren(a + b) == RefChildren(a) + RefChildren(b)
  {
    if a == [] {
      assert a + b == b;
    } else {
      assert (a + b)[0] == a[0] && (a + b)[1..] == a[1..] + b;
      RefChildrenAppend(a[1..], b);
    }
  }

  /**
   * Only `ref` children count; the load raises exactly when one of them lacks
   * an attribute, and names the first attribute missing from the first such element.
   */
  lemma {:induction false} ReadRefsFailure(children: seq<Element>)
    ensures ReadRefs(children) == ReadRefs(RefChildren(children))
    ensures ReadRefs(children).failure.Some?
        <==> exists el :: el in RefChildren(children) && MissingAttr(el).Some?
    ensures ReadRefs(children).failure.None? ==> |ReadRefs(children).entries| == |RefChildren(children)|
  {
    if children != [] {
      var el, rest := children[0], children[1..];
      ReadRefsFailure(rest);
      if el.tag == "ref" {
        var rs := RefChildren(children);
        assert rs == [el] + RefChildren(rest);
        assert rs[1..] == RefChildren(rest);
        if MissingAttr(el).None? {
          forall x | x in rs && MissingAttr(x).Some?
            ensures x in RefChildren(rest)
          {
          }
        }
      }
    }
  }

  /** A `ref` element with every attribute: its entry, then the rest. */
  lemma ReadRefsStep(children: seq<Element>)
    requires children != [] && children[0].tag == "ref" && MissingAttr(children[0]).None?
    ensures var d := ReadRefs(children[1..]);
            ReadRefs(children) == Decoded([RefEntry(children[0])] + d.entries, d.failure)
  {
  }

  /** The element of a condition, read back, is that condition as C strings. */
  lemma RefEntryOf(e: Entry)
    ensures MissingAttr(RefElement(e, false)).None? && RefEntry(RefElement(e, false)) == View(e)
  {
    XmlKeyRoundTrip(e.key);
  }

  /**
   * `readXML` of what `createXML` writes gives back every condition, in
   * order, with no error, its name and address as C strings: exactly the
   * conditions whose fields hold no NUL.
   */
  lemma {:induction false} XmlRoundTrip(all: seq<Entry>)
    ensures ReadRefs(Refs(all, false)) == Decoded(Views(all), None)
  {
    if all != [] {
      RefsStep(all);
      XmlRoundTrip(all[1..]);
      assert Views(all[1..]) == Views(all)[1..];
      assert [View(all[0])] + Views(all)[1..] == Views(all);
    }
  }

  /** Reading the elements of a collection: the first condition, then the elements of the rest. */
  lemma RefsStep(all: seq<Entry>)
    requires all != []
    ensures var d := ReadRefs(Refs(all[1..], false));
            ReadRefs(Refs(all, false)) == Decoded([View(all[0])] + d.entries, d.failure)
  {
    var refs := Refs(all, false);
    assert refs[0] == RefElement(all[0], false);
    assert refs[1..] == Refs(all[1..], false);
    RefEntryOf(all[0]);
    ReadRefsStep(refs);
  }

  /** A minimal-build snapshot of a non-empty collection raises at its first element, for want of `ref`. */
  lemma MinimalXmlLoadFails(all: seq<Entry>)
    requires all != []
    ensures ReadRefs(Refs(all, true)) == Decoded([], Some(MissingAttribute("ref")))
  {
    var refs := Refs(all, true);
    assert refs[0] == RefElement(all[0], true);
  }

  /**
   * `readXML`: visit the `ref` children of the root and append one entry per
   * element; the first element lacking an attribute raises.
   */
  method ReadXML(doc: XmlDoc, data: Data) returns (outcome: Outcome)
    requires data.Valid()
    modifies data
    ensures data.Valid()
    ensures data.entries == old(data.entries) + ReadRefs(doc.children).entries
    ensures outcome == LoaderOutcome(ReadRefs(doc.children))
  {
    var children := doc.children;
    ghost var total := ReadRefs(children);
    var i := 0;
    while i < |children|
      invariant 0 <= i <= |children| && data.Valid()
      invariant old(data.entries) + total.entries == data.entries + ReadRefs(children[i..]).entries
      invariant total.failure == ReadRefs(children[i..]).failure
      decreases |children| - i
    {
      var el := children[i];
      assert children[i..][1..] == children[i + 1..];
      if el.tag == "ref" {
        var missing := MissingAttr(el);
        if missing.Some? {
          return Raised(MissingAttribute(missing.value));
        }
        var e := RefEntry(el);
        data.Append(e);
        AppendOne(data.entries[..|data.entries| - 1], e, ReadRefs(children[i + 1..]).entries);
      }
      i := i + 1;
    }
    return Returned(1);
  }
}
