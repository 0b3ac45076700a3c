/**
 * Character and string helpers shared by the modules below: the "C" locale
 * tolower, std::string::find / find_last_of, unpadded lowercase hexadecimal
 * (std::hex) and decimal (operator<< on int) formatting.
 *
 * A std::string is modelled as a Dafny string whose characters stand for
 * its bytes; every rule in this project that looks at a character only
 * distinguishes ASCII characters.
 */
module Text {
  import opened Wrappers

  // ---------------------------------------------------------------- case

  predicate IsAsciiUpper(c: char) {
    'A' <= c <= 'Z'
  }

  /** tolower in the "C" locale: only 'A'..'Z' change. */
  function LowerChar(c: char): (r: char)
    ensures !IsAsciiUpper(r)
    ensures IsAsciiUpper(c) ==> r as int == c as int + 32
    ensures !IsAsciiUpper(c) ==> r == c
  {
    if IsAsciiUpper(c) then (c as int + 32) as char else c
  }

  /** The copy that `for (auto &c : m) c = tolower(c)` leaves behind. */
  function Lower(s: string): (r: string)
    ensures |r| == |s|
    ensures forall i :: 0 <= i < |s| ==> r[i] == LowerChar(s[i])
  {
    if s == [] then [] else [LowerChar(s[0])] + Lower(s[1..])
  }

  // ------------------------------------------------------------ affixes

  predicate StartsWith(s: string, prefix: string) {
    |prefix| <= |s| && s[..|prefix|] == prefix
  }

  predicate EndsWith(s: string, suffix: string) {
    |suffix| <= |s| && s[|s| - |suffix|..] == suffix
  }

  /** `pat` occurs in `s` starting at index `k`. */
  predicate OccursAt(s: string, pat: string, k: nat) {
    k + |pat| <= |s| && s[k..k + |pat|] == pat
  }

  ghost predicate Contains(s: string, pat: string) {
    exists k: nat :: OccursAt(s, pat, k)
  }

  /** No string occurs twice in `xs`. */
  predicate NoDuplicates(xs: seq<string>) {
    forall i, j :: 0 <= i < j < |xs| ==> xs[i] != xs[j]
  }

  // --------------------------------------------------------------- find

  /**
   * std::string::find(pat, from): the first occurrence of `pat` at or
   * after `from`, or None for npos.
   */
  function Find(s: string, pat: string, from: nat): (r: Option<nat>)
    ensures r.Some? ==> from <= r.value && OccursAt(s, pat, r.value)
    ensures r.Some? ==> forall k: nat :: from <= k < r.value ==> !OccursAt(s, pat, k)
    ensures r.None? ==> forall k: nat :: from <= k ==> !OccursAt(s, pat, k)
    decreases |s| - from
  {
    if from + |pat| > |s| then None
    else if s[from..from + |pat|] == pat then Some(from)
    else Find(s, pat, from + 1)
  }

  /** std::string::find(c, from) for a single character. */
  function FindChar(s: string, c: char, from: nat): (r: Option<nat>)
    ensures r.Some? ==> from <= r.value < |s| && s[r.value] == c
    ensures r.Some? ==> forall k :: from <= k < r.value ==> s[k] != c
    ensures r.None? ==> forall k :: from <= k < |s| ==> s[k] != c
    decreases |s| - from
  {
    if from >= |s| then None
    else if s[from] == c then Some(from)
    else FindChar(s, c, from + 1)
  }

  /** std::string::find_last_of(c): the last index holding `c`. */
  function FindLast(s: string, c: char): (r: Option<nat>)
    ensures r.Some? ==> r.value < |s| && s[r.value] == c
    ensures r.Some? ==> forall k :: r.value < k < |s| ==> s[k] != c
    ensures r.None? ==> forall k :: 0 <= k < |s| ==> s[k] != c
  {
    if s == [] then None
    else if s[|s| - 1] == c then Some(|s| - 1)
    else FindLast(s[..|s| - 1], c)
  }

  // --------------------------------------------------------------- hex

  /** A lowercase hexadecimal digit, as std::hex prints them. */
  predicate IsHexChar(c: char) {
    '0' <= c <= '9' || 'a' <= c <= 'f'
  }

  function HexDigit(d: nat): (c: char)
    requires d < 16
    ensures IsHexChar(c)
  {
    if d < 10 then ('0' as int + d) as char else ('a' as int + d - 10) as char
  }

  /** The inverse of HexDigit. */
  function DigitValue(c: char): (d: nat)
    requires IsHexChar(c)
    ensures d < 16 && HexDigit(d) == c
  {
    if '0' <= c <= '9' then c as int - '0' as int else c as int - 'a' as int + 10
  }

  lemma DigitValueOfHexDigit(d: nat)
    requires d < 16
    ensures DigitValue(HexDigit(d)) == d
  {
  }

  predicate IsHexText(s: string) {
    forall i :: 0 <= i < |s| ==> IsHexChar(s[i])
  }

  /** `std::hex << n` for an unsigned value: lowercase, no padding. */
  function Hex(n: nat): (r: string)
    ensures 1 <= |r|
    ensures IsHexText(r)
    decreases n
  {
    if n < 16 then [HexDigit(n)] else Hex(n / 16) + [HexDigit(n % 16)]
  }

  /** The value of a string of lowercase hexadecimal digits. */
  function HexValue(s: string): nat
    requires IsHexText(s)
  {
    if s == [] then 0 else 16 * HexValue(s[..|s| - 1]) + DigitValue(s[|s| - 1])
  }

  function Pow(b: nat, e: nat): (r: nat)
    ensures b >= 1 ==> r >= 1
  {
    if e == 0 then 1 else b * Pow(b, e - 1)
  }

  /** Reading Hex(n) back gives n. */
  lemma {:induction false} HexRoundTrip(n: nat)
    ensures HexValue(Hex(n)) == n
    decreases n
  {
    if n < 16 {
      assert Hex(n)[..0] == [];
    } else {
      HexRoundTrip(n / 16);
      var h := Hex(n);
      assert h[..|h| - 1] == Hex(n / 16);
      DigitValueOfHexDigit(n % 16);
      assert HexValue(h) == 16 * (n / 16) + n % 16;
    }
  }

  /** Hex(n) has no superfluous leading zero. */
  lemma {:induction false} HexCanonical(n: nat)
    ensures |Hex(n)| > 1 ==> Hex(n)[0] != '0'
    ensures n > 0 ==> Hex(n)[0] != '0'
    decreases n
  {
    if n >= 16 {
      HexCanonical(n / 16);
      assert Hex(n)[0] == Hex(n / 16)[0];
    }
  }

  /** A value below 16^k takes at most k digits. */
  lemma {:induction false} HexWidth(n: nat, k: nat)
    requires 1 <= k && n < Pow(16, k)
    ensures |Hex(n)| <= k
    decreases k
  {
    if n >= 16 {
      assert k != 1;
      assert n / 16 < Pow(16, k - 1);
      HexWidth(n / 16, k - 1);
    }
  }

  // ----------------------------------------------------------- decimal

  predicate IsDigit(c: char) {
    '0' <= c <= '9'
  }

  function DecimalDigit(d: nat): (c: char)
    requires d < 10
    ensures IsDigit(c) && c as int - '0' as int == d
  {
    ('0' as int + d) as char
  }

  function NatDecimal(n: nat): (r: string)
    ensures 1 <= |r|
    ensures forall i :: 0 <= i < |r| ==> IsDigit(r[i])
    decreases n
  {
    if n < 10 then [DecimalDigit(n)] else NatDecimal(n / 10) + [DecimalDigit(n % 10)]
  }

  /** `operator<<` on an int: an optional '-' followed by the digits. */
  function Decimal(n: int): string {
    if n < 0 then "-" + NatDecimal(-n) else NatDecimal(n)
  }

  /** The value of a string of decimal digits. */
  function DecValue(s: string): nat
    requires forall i :: 0 <= i < |s| ==> IsDigit(s[i])
  {
    if s == [] then 0 else 10 * DecValue(s[..|s| - 1]) + DigitOf(s[|s| - 1])
  }

  function DigitOf(c: char): (d: nat)
    requires IsDigit(c)
    ensures d < 10 && DecimalDigit(d) == c
  {
    c as int - '0' as int
  }

  /** The length of the run of digits that `t` starts with. */
  function DigitRun(t: string): (k: nat)
    ensures k <= |t|
    ensures forall i :: 0 <= i < k ==> IsDigit(t[i])
    ensures k < |t| ==> !IsDigit(t[k])
  {
    if t != [] && IsDigit(t[0]) then 1 + DigitRun(t[1..]) else 0
  }

  /** Reads an int as operator<< writes it; returns it and what follows. */
  function ReadInt(t: string): Option<(int, string)> {
    if t != [] && t[0] == '-' then
      var u := t[1..];
      var k := DigitRun(u);
      var v: int := 0 - DecValue(u[..k]) as int;
      if k == 0 then None else Some((v, u[k..]))
    else
      var k := DigitRun(t);
      if k == 0 then None else Some((DecValue(t[..k]), t[k..]))
  }

  lemma {:induction false} NatDecimalRoundTrip(n: nat)
    ensures DecValue(NatDecimal(n)) == n
    decreases n
  {
    if n < 10 {
      assert NatDecimal(n)[..0] == [];
    } else {
      NatDecimalRoundTrip(n / 10);
      var d := NatDecimal(n);
      assert d[..|d| - 1] == NatDecimal(n / 10);
      assert DigitOf(d[|d| - 1]) == n % 10;
    }
  }

  lemma {:induction false} DigitRunOver(d: string, rest: string)
    requires forall i :: 0 <= i < |d| ==> IsDigit(d[i])
    requires rest == [] || !IsDigit(rest[0])
    ensures DigitRun(d + rest) == |d|
    decreases |d|
  {
    if d != [] {
      assert (d + rest)[1..] == d[1..] + rest;
      DigitRunOver(d[1..], rest);
    } else {
      assert d + rest == rest;
    }
  }

  /** The digits of `m` followed by `rest` are read as `m` and `rest`. */
  lemma ReadDigits(m: nat, rest: string, t: string)
    requires rest == [] || !IsDigit(rest[0])
    requires t == NatDecimal(m) + rest
    ensures DigitRun(t) == |NatDecimal(m)| && t[..DigitRun(t)] == NatDecimal(m) && t[DigitRun(t)..] == rest
    ensures DecValue(t[..DigitRun(t)]) == m
  {
    var d := NatDecimal(m);
    NatDecimalRoundTrip(m);
    DigitRunOver(d, rest);
    assert t[..|d|] == d && t[|d|..] == rest;
  }

  lemma ReadNonNegative(m: nat, rest: string)
    requires rest == [] || !IsDigit(rest[0])
    ensures ReadInt(NatDecimal(m) + rest) == Some((m as int, rest))
  {
    var t := NatDecimal(m) + rest;
    ReadDigits(m, rest, t);
    assert t[0] == NatDecimal(m)[0];
  }

  lemma ReadNegative(m: nat, rest: string)
    requires rest == [] || !IsDigit(rest[0])
    ensures ReadInt("-" + NatDecimal(m) + rest) == Some((0 - m, rest))
  {
    var t := NatDecimal(m) + rest;
    var s := "-" + NatDecimal(m) + rest;
    assert s == "-" + t;
    assert s[0] == '-' && s[1..] == t;
    ReadDigits(m, rest, t);
    var k := DigitRun(t);
    assert k == |NatDecimal(m)| > 0;
    assert ReadInt(s) == Some((0 - DecValue(t[..k]) as int, t[k..]));
  }

  /** Reading back what Decimal wrote gives the number and the rest. */
  lemma ReadDecimal(n: int, rest: string)
    requires rest == [] || !IsDigit(rest[0])
    ensures ReadInt(Decimal(n) + rest) == Some((n, rest))
  {
    if n < 0 {
      ReadNegative(-n, rest);
    } else {
      ReadNonNegative(n, rest);
    }
  }
}
