/**
 * Characters, C strings and printf-style padding as the repository's text
 * code uses them: a `char` buffer holds C strings that end at the first NUL,
 * `std::string::find` gives the first position of a character, and `%16s` /
 * `%-16s` pad with spaces.
 */
module CText {

  const NUL: char := '\0'

  /** Position of the first `c` in `s`, or |s| when there is none (`find` with `npos` as |s|). */
  function IndexOf(s: seq<char>, c: char): (r: nat)
    ensures r <= |s|
    ensures r < |s| ==> s[r] == c
    ensures forall i :: 0 <= i < r ==> s[i] != c
    ensures r == |s| <==> c !in s
  {
    if s == [] then 0 else if s[0] == c then 0 else 1 + IndexOf(s[1..], c)
  }

  /** The first `c` of `p + [c] + q` is the one after `p` when `p` holds none. */
  lemma IndexOfAfter(p: seq<char>, c: char, q: seq<char>)
    requires c !in p
    ensures IndexOf(p + [c] + q, c) == |p|
  {
    var s := p + [c] + q;
    var r := IndexOf(s, c);
    assert s[|p|] == c;
  }

  /**
   * The C string that starts at `s[0]`: everything before the first NUL, or
   * all of `s` when the buffer holds no NUL (the model stops at its end).
   */
  function CStr(s: seq<char>): (r: string)
    ensures NUL !in r && r <= s
    ensures |r| < |s| ==> s[|r|] == NUL
  {
    s[..IndexOf(s, NUL)]
  }

  /** A C string read at position `i` of a buffer whose first NUL from `i` on is at `j`. */
  lemma CStrUpTo(s: seq<char>, i: nat, j: nat)
    requires i <= j < |s| && s[j] == NUL
    requires forall m :: i <= m < j ==> s[m] != NUL
    ensures CStr(s[i..]) == s[i..j]
  {
    var t := s[i..];
    var r := IndexOf(t, NUL);
    assert t[j - i] == NUL;
  }

  /** A C string with no NUL in it reads back as itself. */
  lemma CStrOfPlain(s: string)
    requires NUL !in s
    ensures CStr(s) == s
  {
  }

  /**
   * `str[str.find(c)] = 0` on a std::string: the first `c` becomes NUL and the
   * length stays, so the string reads as a C string only up to that place.
   */
  function CutAt(s: string, c: char): (r: string)
    ensures |r| == |s|
    ensures c !in s ==> r == s
    ensures c in s ==> r[..IndexOf(s, c)] == s[..IndexOf(s, c)] && r[IndexOf(s, c)] == NUL
    ensures c in s ==> r[IndexOf(s, c) + 1..] == s[IndexOf(s, c) + 1..]
  {
    var i := IndexOf(s, c);
    if i < |s| then s[i := NUL] else s
  }

  /** Cutting a word followed by `c` leaves the word as the C string. */
  lemma CStrOfCut(w: string, c: char, tail: string)
    requires NUL !in w && c !in w && c != NUL
    ensures CStr(CutAt(w + [c] + tail, c)) == w
  {
    IndexOfAfter(w, c, tail);
    var r := CutAt(w + [c] + tail, c);
    assert r[|w|] == NUL;
    CStrUpTo(r, 0, |w|);
    assert r[0..] == r;
  }

  function Spaces(n: nat): (r: string)
    ensures |r| == n && forall i :: 0 <= i < n ==> r[i] == ' '
  {
    seq(n, _ => ' ')
  }

  /** printf `%<w>s`: right-justified in `w` columns, never cut. */
  function PadLeft(s: string, w: nat): (r: string)
    ensures |r| == if |s| < w then w else |s|
    ensures r == Spaces(|r| - |s|) + s
  {
    if |s| < w then Spaces(w - |s|) + s else s
  }

  /** printf `%-<w>s`: left-justified in `w` columns, never cut. */
  function PadRight(s: string, w: nat): (r: string)
    ensures |r| == if |s| < w then w else |s|
    ensures r == s + Spaces(|r| - |s|)
  {
    if |s| < w then s + Spaces(w - |s|) else s
  }

  /** `isspace` in the "C" locale. */
  predicate IsSpace(c: char) {
    c == ' ' || ('\t' <= c <= '\r')
  }

  /** What remains after the leading white space that `>>` and `%X` skip. */
  function SkipWs(s: seq<char>): (r: seq<char>)
    ensures |r| <= |s| && r == s[|s| - |r|..]
    ensures r == [] || !IsSpace(r[0])
    ensures forall i :: 0 <= i < |s| - |r| ==> IsSpace(s[i])
  {
    if s != [] && IsSpace(s[0]) then SkipWs(s[1..]) else s
  }

  /** Spaces in front of text that starts with no white space are skipped and nothing more. */
  lemma SkipWsPadding(n: nat, s: seq<char>)
    requires s == [] || !IsSpace(s[0])
    ensures SkipWs(Spaces(n) + s) == s
  {
    var t := Spaces(n) + s;
    var r := SkipWs(t);
    var k := |t| - |r|;
    assert s != [] ==> t[n] == s[0];
    assert r != [] ==> r[0] == t[k];
    assert k == n;
    assert t[n..] == s;
  }
}
