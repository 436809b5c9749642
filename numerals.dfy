/**
 * Unsigned numbers as text: `%llX` renders a key in upper-case hexadecimal,
 * `<<` renders a size in decimal; `%16llX` in `sscanf` reads at most 16 hex
 * digits back and `>>` reads a `size_t`.
 */
module Numerals {
  import opened Options
  import opened CText

  /** 2^64: the range of `unsigned long long` and of `size_t`. */
  const U64Range: nat := 0x1_0000_0000_0000_0000

  type U64 = n: nat | n < U64Range

  predicate IsBase(base: nat) {
    base == 10 || base == 16
  }

  function Pow(b: nat, n: nat): nat {
    if n == 0 then 1 else b * Pow(b, n - 1)
  }

  /** The digit `c` stands for in `base`; base 16 takes both cases of 'A'-'F', as `%X` does. */
  function DigitValue(c: char, base: nat): (r: Option<nat>)
    ensures r.Some? ==> r.value < base
  {
    if '0' <= c <= '9' && (c as int - '0' as int) < base then Some(c as int - '0' as int)
    else if base == 16 && 'A' <= c <= 'F' then Some(c as int - 'A' as int + 10)
    else if base == 16 && 'a' <= c <= 'f' then Some(c as int - 'a' as int + 10)
    else None
  }

  predicate IsDigit(c: char, base: nat) {
    DigitValue(c, base).Some?
  }

  lemma DigitIsNoSpace(c: char, base: nat)
    requires IsDigit(c, base)
    ensures !IsSpace(c) && c != NUL
  {
  }

  /** The upper-case digit that `%X` prints for `d`. */
  function DigitChar(d: nat): (c: char)
    requires d < 16
    ensures !IsSpace(c) && c != NUL
    ensures forall base :: IsBase(base) && d < base ==> DigitValue(c, base) == Some(d)
  {
    if d < 10 then ('0' as int + d) as char else ('A' as int + d - 10) as char
  }

  /** The numeral of `n` in `base`, with no leading zeros (zero is "0"). */
  function Numeral(n: nat, base: nat): (r: string)
    requires IsBase(base)
    ensures |r| >= 1
    ensures forall i :: 0 <= i < |r| ==> IsDigit(r[i], base)
  {
    if n < base then [DigitChar(n)] else Numeral(n / base, base) + [DigitChar(n % base)]
  }

  /** The number a string of digits denotes, most significant first. */
  function ValueOf(ds: string, base: nat): nat
    requires IsBase(base)
    requires forall i :: 0 <= i < |ds| ==> IsDigit(ds[i], base)
  {
    if ds == [] then 0
    else
      assert IsDigit(ds[|ds| - 1], base);
      ValueOf(ds[..|ds| - 1], base) * base + DigitValue(ds[|ds| - 1], base).value
  }

  lemma {:induction false} ValueOfNumeral(n: nat, base: nat)
    requires IsBase(base)
    ensures ValueOf(Numeral(n, base), base) == n
  {
    if n >= base {
      var p := Numeral(n / base, base);
      assert (p + [DigitChar(n % base)])[..|p|] == p;
      ValueOfNumeral(n / base, base);
    }
  }

  lemma {:induction false} PowMonotone(b: nat, m: nat, n: nat)
    requires b >= 1 && m <= n
    ensures Pow(b, m) <= Pow(b, n)
  {
    if m < n {
      PowMonotone(b, m, n - 1);
      MulAtLeast(b, Pow(b, n - 1));
    }
  }

  lemma MulAtLeast(b: nat, p: nat)
    requires b >= 1
    ensures p <= b * p
  {
    assert b * p == p + (b - 1) * p;
  }

  /** `m` digits denote less than base^m. */
  lemma {:induction false} ValueOfBound(ds: string, base: nat)
    requires IsBase(base)
    requires forall i :: 0 <= i < |ds| ==> IsDigit(ds[i], base)
    ensures ValueOf(ds, base) < Pow(base, |ds|)
  {
    if ds != [] {
      var p := ds[..|ds| - 1];
      ValueOfBound(p, base);
      var v, d := ValueOf(p, base), DigitValue(ds[|ds| - 1], base).value;
      assert v <= Pow(base, |p|) - 1;
      assert v * base <= (Pow(base, |p|) - 1) * base;
      assert d <= base - 1;
    }
  }

  /** A number below base^m takes at most `m` digits. */
  lemma {:induction false} NumeralLength(n: nat, base: nat, m: nat)
    requires IsBase(base) && m >= 1 && n < Pow(base, m)
    ensures |Numeral(n, base)| <= m
  {
    if n >= base {
      NumeralLength(n / base, base, m - 1);
    }
  }

  lemma PowersOf16()
    ensures Pow(16, 8) == 0x1_0000_0000 && Pow(16, 16) == U64Range
  {
    assert Pow(16, 2) == 0x100;
    assert Pow(16, 4) == 0x1_0000;
    assert Pow(16, 6) == 0x100_0000;
    assert Pow(16, 8) == 0x1_0000_0000;
    assert Pow(16, 10) == 0x100_0000_0000;
    assert Pow(16, 12) == 0x1_0000_0000_0000;
    assert Pow(16, 14) == 0x100_0000_0000_0000;
  }

  /** Every 64-bit number has at most 16 hex digits, one below 2^32 at most 8. */
  lemma HexLength(n: U64)
    ensures |Numeral(n, 16)| <= 16
    ensures n < 0x1_0000_0000 ==> |Numeral(n, 16)| <= 8
  {
    PowersOf16();
    NumeralLength(n, 16, 16);
    if n < 0x1_0000_0000 {
      NumeralLength(n, 16, 8);
    }
  }

  /** How many digits of `base` lead `s`, reading at most `max` (the field width). */
  function DigitRun(s: seq<char>, base: nat, max: nat): (r: nat)
    ensures r <= |s| && r <= max
    ensures forall i :: 0 <= i < r ==> IsDigit(s[i], base)
    ensures r < |s| && r < max ==> !IsDigit(s[r], base)
  {
    if max == 0 || s == [] || !IsDigit(s[0], base) then 0 else 1 + DigitRun(s[1..], base, max - 1)
  }

  /** A run of digits stops at the first character that is no digit. */
  lemma {:induction false} DigitRunOf(ds: string, rest: seq<char>, base: nat, max: nat)
    requires forall i :: 0 <= i < |ds| ==> IsDigit(ds[i], base)
    requires |ds| <= max
    requires rest == [] || !IsDigit(rest[0], base)
    ensures DigitRun(ds + rest, base, max) == |ds|
  {
    if ds != [] {
      assert (ds + rest)[1..] == ds[1..] + rest;
      DigitRunOf(ds[1..], rest, base, max - 1);
    }
  }

  /**
   * The `%16llX` conversion of `sscanf`: skip white space, then read at most 16
   * hex digits; `None` when there is none (the target is left as it was).
   */
  function ScanHex(s: seq<char>): (r: Option<U64>)
    ensures r.Some? <==> DigitRun(SkipWs(s), 16, 16) > 0
  {
    var t := SkipWs(s);
    var n := DigitRun(t, 16, 16);
    if n == 0 then None
    else
      ValueOfBound(t[..n], 16);
      PowMonotone(16, n, 16);
      PowersOf16();
      Some(ValueOf(t[..n], 16))
  }

  /** Blanks before the text `%llX` reads are skipped. */
  lemma ScanHexPadded(pad: nat, t: seq<char>)
    requires t != [] && !IsSpace(t[0])
    ensures ScanHex(Spaces(pad) + t) == ScanHex(t)
  {
    SkipWsPadding(pad, t);
    SkipWsPadding(0, t);
    assert Spaces(0) + t == t;
  }

  /** A key printed with `%<w>llX` scans back, whatever padding precedes it and non-digit follows it. */
  lemma ScanHexOfNumeral(k: U64, pad: nat, rest: seq<char>)
    requires rest == [] || !IsDigit(rest[0], 16)
    ensures ScanHex(Spaces(pad) + Numeral(k, 16) + rest) == Some(k)
  {
    var h := Numeral(k, 16);
    var t := h + rest;
    assert Spaces(pad) + h + rest == Spaces(pad) + t;
    assert t[0] == h[0];
    DigitIsNoSpace(h[0], 16);
    ScanHexPadded(pad, t);
    ScanHexOfDigits(k, rest);
  }

  lemma ScanHexOfDigits(k: U64, rest: seq<char>)
    requires rest == [] || !IsDigit(rest[0], 16)
    ensures ScanHex(Numeral(k, 16) + rest) == Some(k)
  {
    var h := Numeral(k, 16);
    var t := h + rest;
    HexLength(k);
    assert t[0] == h[0];
    DigitIsNoSpace(h[0], 16);
    SkipWsPadding(0, t);
    assert Spaces(0) + t == t;
    DigitRunOf(h, rest, 16, 16);
    assert t[..|h|] == h;
    ValueOfNumeral(k, 16);
  }

  /**
   * `>>` into a `size_t`: skip white space, read every decimal digit; `None`
   * (the stream fails) when there is no digit or the value does not fit.
   */
  function ParseSize(s: seq<char>): (r: Option<(U64, seq<char>)>)
    ensures r.Some? ==> |r.value.1| < |s|
  {
    var t := SkipWs(s);
    var n := DigitRun(t, 10, |t|);
    if n == 0 then None
    else
      var v := ValueOf(t[..n], 10);
      if v < U64Range then Some((v, t[n..])) else None
  }

  /** A size printed with `<<` reads back with `>>`. */
  lemma ParseSizeOfNumeral(n: U64, rest: seq<char>)
    requires rest == [] || !IsDigit(rest[0], 10)
    ensures ParseSize(Numeral(n, 10) + rest) == Some((n, rest))
  {
    var d := Numeral(n, 10);
    assert d[0] == (d + rest)[0];
    DigitIsNoSpace(d[0], 10);
    DigitRunOf(d, rest, 10, |d + rest|);
    assert (d + rest)[..|d|] == d;
    assert (d + rest)[|d|..] == rest;
    ValueOfNumeral(n, 10);
  }
}
