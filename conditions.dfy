/**
 * The record the repository saves and loads, the key-ordered collection
 * that `save` builds (a std::map from key to condition) and the entry
 * vector that `load` fills.
 */
module Conditions {
  import opened Options
  import opened CText
  import opened Numerals

  /** One persisted condition: its 64-bit key, its name and its address. */
  datatype Entry = Entry(key: U64, name: string, address: string)

  /** Why a load stops before the end of its input. */
  datatype LoadError =
    | Inconsistent(nam: U64, add: U64, tot: U64)  // "Inconsistent input data" with the header sizes
    | MissingAttribute(attr: string)              // an XML `ref` element lacks an attribute

  /** What a loader appends, and the error that stopped it, if any. */
  datatype Decoded = Decoded(entries: seq<Entry>, failure: Option<LoadError>)

  /** How a call ends: with a return code, or with the exception it raises. */
  datatype Outcome = Returned(rc: int) | Raised(error: LoadError)

  /** The outcome of a loader that returns 1 unless it raised. */
  function LoaderOutcome(d: Decoded): Outcome {
    if d.failure.Some? then Raised(d.failure.value) else Returned(1)
  }

  /** The entry as C strings read it: name and address up to their first NUL. */
  function View(e: Entry): Entry {
    Entry(e.key, CStr(e.name), CStr(e.address))
  }

  function Views(es: seq<Entry>): (r: seq<Entry>)
    ensures |r| == |es| && forall i :: 0 <= i < |es| ==> r[i] == View(es[i])
  {
    seq(|es|, i requires 0 <= i < |es| => View(es[i]))
  }

  /** Views taken entry by entry: the first, then the rest. */
  lemma ViewsCons(all: seq<Entry>, x: Entry, rest: seq<Entry>)
    requires all != [] && View(x) == all[0] && Views(rest) == all[1..]
    ensures Views([x] + rest) == all
  {
    var v := Views([x] + rest);
    forall i | 0 <= i < |all|
      ensures v[i] == all[i]
    {
      if i > 0 {
        assert ([x] + rest)[i] == rest[i - 1];
        assert Views(rest)[i - 1] == all[1..][i - 1];
      }
    }
  }

  /** Keys strictly ascending: the iteration order of a std::map keyed by the condition key. */
  predicate Ascending(all: seq<Entry>) {
    forall i, j :: 0 <= i < j < |all| ==> all[i].key < all[j].key
  }

  /** The entry a key-sorted collection holds for `k`, if any (the first one with that key). */
  function Lookup(all: seq<Entry>, k: U64): (r: Option<Entry>)
    ensures r.Some? ==> r.value in all && r.value.key == k
    ensures r.None? <==> forall e :: e in all ==> e.key != k
  {
    if all == [] then None else if all[0].key == k then Some(all[0]) else Lookup(all[1..], k)
  }

  /**
   * `all[c.key()] = c` on the std::map: insert `c` at its place in key order,
   * replacing an entry that has the same key.
   */
  function Put(all: seq<Entry>, c: Entry): (r: seq<Entry>)
    ensures forall e :: e in r ==> e == c || e in all
    ensures forall k :: Lookup(r, k) == if k == c.key then Some(c) else Lookup(all, k)
    ensures Ascending(all) ==> Ascending(r)
  {
    if all == [] then [c]
    else if c.key < all[0].key then [c] + all
    else if c.key == all[0].key then [c] + all[1..]
    else
      var rest := Put(all[1..], c);
      assert Ascending(all) ==> Ascending([all[0]] + rest) by {
        if Ascending(all) {
          HeadBelow(all);
          AscendingCons(all[0], rest);
        }
      }
      [all[0]] + rest
  }

  /** In ascending order the first key is below every later one. */
  lemma HeadBelow(all: seq<Entry>)
    requires all != [] && Ascending(all)
    ensures Ascending(all[1..]) && forall e :: e in all[1..] ==> all[0].key < e.key
  {
    forall e | e in all[1..]
      ensures all[0].key < e.key
    {
      var i :| 0 <= i < |all[1..]| && all[1..][i] == e;
      assert all[i + 1] == e;
    }
  }

  /** A key below every key of an ascending sequence can go in front. */
  lemma AscendingCons(x: Entry, rest: seq<Entry>)
    requires Ascending(rest) && forall e :: e in rest ==> x.key < e.key
    ensures Ascending([x] + rest)
  {
    var all := [x] + rest;
    forall i, j | 0 <= i < j < |all|
      ensures all[i].key < all[j].key
    {
      assert all[j] == rest[j - 1];
      if i > 0 {
        assert all[i] == rest[i - 1];
      } else {
        assert rest[j - 1] in rest;
      }
    }
  }

  /** The map after one more condition. */
  lemma CollectedSnoc(cs: seq<Entry>, c: Entry)
    ensures Collected(cs + [c]) == Put(Collected(cs), c)
  {
    assert (cs + [c])[..|cs|] == cs;
  }

  /** Reference meaning of "the later one wins": the last of `cs` with key `k`. */
  function LastWithKey(cs: seq<Entry>, k: U64): (r: Option<Entry>)
    ensures r.Some? ==> r.value in cs && r.value.key == k
    ensures r.None? <==> forall e :: e in cs ==> e.key != k
  {
    if cs == [] then None
    else if cs[|cs| - 1].key == k then Some(cs[|cs| - 1])
    else LastWithKey(cs[..|cs| - 1], k)
  }

  /** The map `save` builds from conditions met in the order `cs` lists them. */
  function Collected(cs: seq<Entry>): seq<Entry> {
    if cs == [] then [] else Put(Collected(cs[..|cs| - 1]), cs[|cs| - 1])
  }

  /**
   * What `save` writes holds one entry per key, in ascending key order, and
   * for each key it is the last condition with that key.
   */
  lemma {:induction false} CollectedIsLastByKey(cs: seq<Entry>)
    ensures Ascending(Collected(cs))
    ensures forall k :: Lookup(Collected(cs), k) == LastWithKey(cs, k)
    ensures forall e :: e in Collected(cs) ==> e in cs
  {
    if cs != [] {
      CollectedIsLastByKey(cs[..|cs| - 1]);
      forall e | e in Collected(cs)
        ensures e in cs
      {
        if e != cs[|cs| - 1] {
          assert e in cs[..|cs| - 1];
        }
      }
    }
  }

  /** Appending one entry, then the rest, is appending both. */
  lemma AppendOne(a: seq<Entry>, e: Entry, rest: seq<Entry>)
    ensures a + ([e] + rest) == a + [e] + rest
  {
  }

  /** Concatenation of the condition lists met one after the other. */
  function Flatten(sel: seq<seq<Entry>>): seq<Entry> {
    if sel == [] then [] else Flatten(sel[..|sel| - 1]) + sel[|sel| - 1]
  }

  /** The lists met up to the `i`-th one, that one included. */
  lemma FlattenSnoc(sel: seq<seq<Entry>>, i: nat)
    requires i < |sel|
    ensures Flatten(sel[..i + 1]) == Flatten(sel[..i]) + sel[i]
  {
    assert sel[..i + 1][..i] == sel[..i];
  }

  /**
   * The caller's entry vector (`ConditionsTextRepository::Data`, a
   * std::vector of entries) that the loaders append to.
   */
  class Data {
    var entries: seq<Entry>
    var capacity: nat

    ghost predicate Valid()
      reads this
    {
      |entries| <= capacity
    }

    constructor ()
      ensures Valid() && entries == [] && capacity == 0
    {
      entries := [];
      capacity := 0;
    }

    /**
     * The loaders' append: when the vector is full, reserve 500 more places,
     * then `emplace_back`; earlier entries stay as they are.
     */
    method Append(e: Entry)
      requires Valid()
      modifies this
      ensures Valid()
      ensures entries == old(entries) + [e]
      ensures capacity == if old(|entries|) == old(capacity) then old(capacity) + 500 else old(capacity)
    {
      if |entries| == capacity {
        capacity := capacity + 500;
      }
      entries := entries + [e];
    }
  }
}
