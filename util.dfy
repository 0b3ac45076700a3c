/**
 * The path and MIME helpers of util.cpp: guess_mime, join_path and the
 * formatting half of uuid4, whose two random 64-bit words are inputs here.
 */
module Util {
  import opened Text

  // ---------------------------------------------------------- guess_mime

  const HtmlMime: string := "text/html; charset=utf-8"
  const JsMime: string := "application/javascript; charset=utf-8"
  const CssMime: string := "text/css; charset=utf-8"
  const PngMime: string := "image/png"
  const JpegMime: string := "image/jpeg"
  const OctetStream: string := "application/octet-stream"

  /**
   * guess_mime: the MIME type of a path from its suffix, compared on a
   * lowered copy; every other path is application/octet-stream.
   */
  function GuessMime(path: string): (r: string)
    ensures r in {HtmlMime, JsMime, CssMime, PngMime, JpegMime, OctetStream}
    ensures r == HtmlMime <==> EndsWith(Lower(path), ".html")
    ensures r == JsMime <==> EndsWith(Lower(path), ".js")
    ensures r == CssMime <==> EndsWith(Lower(path), ".css")
    ensures r == PngMime <==> EndsWith(Lower(path), ".png")
    ensures r == JpegMime <==> EndsWith(Lower(path), ".jpg") || EndsWith(Lower(path), ".jpeg")
  {
    var lower := Lower(path);
    SuffixesExclusive(lower);
    if EndsWith(lower, ".html") then HtmlMime
    else if EndsWith(lower, ".js") then JsMime
    else if EndsWith(lower, ".css") then CssMime
    else if EndsWith(lower, ".png") then PngMime
    else if EndsWith(lower, ".jpg") then JpegMime
    else if EndsWith(lower, ".jpeg") then JpegMime
    else OctetStream
  }

  /** A string ends with at most one of the recognised suffixes. */
  lemma SuffixesExclusive(s: string)
    ensures EndsWith(s, ".html") ==>
      (!EndsWith(s, ".js") && !EndsWith(s, ".css") && !EndsWith(s, ".png") && !EndsWith(s, ".jpg") && !EndsWith(s, ".jpeg"))
    ensures EndsWith(s, ".js") ==>
      (!EndsWith(s, ".css") && !EndsWith(s, ".png") && !EndsWith(s, ".jpg") && !EndsWith(s, ".jpeg"))
    ensures EndsWith(s, ".css") ==> !EndsWith(s, ".png") && !EndsWith(s, ".jpg") && !EndsWith(s, ".jpeg")
    ensures EndsWith(s, ".png") ==> !EndsWith(s, ".jpg") && !EndsWith(s, ".jpeg")
    ensures EndsWith(s, ".jpg") ==> !EndsWith(s, ".jpeg")
  {
    LastThree(s, ".html");
    LastThree(s, ".js");
    LastThree(s, ".css");
    LastThree(s, ".png");
    LastThree(s, ".jpg");
    LastThree(s, ".jpeg");
  }

  /** A suffix fixes the last three characters: "tml", ".js", "css", "png", "jpg" and "peg" all differ. */
  lemma LastThree(s: string, suffix: string)
    requires |suffix| >= 3
    ensures EndsWith(s, suffix) ==> s[|s| - 3..] == suffix[|suffix| - 3..]
  {
    if EndsWith(s, suffix) {
      assert s[|s| - 3..] == s[|s| - |suffix|..][|suffix| - 3..];
    }
  }

  /** A path shorter than every suffix is application/octet-stream. */
  lemma GuessMimeShort(path: string)
    requires |path| < 3
    ensures GuessMime(path) == OctetStream
  {
  }

  /** The suffix match ignores ASCII case. */
  lemma GuessMimeIgnoresCase(a: string, b: string)
    requires Lower(a) == Lower(b)
    ensures GuessMime(a) == GuessMime(b)
  {
  }

  // ----------------------------------------------------------- join_path

  /** join_path: `b` after `a`, with one '/' between them unless `a` is empty or already ends in one. */
  function JoinPath(a: string, b: string): (r: string)
    ensures a == [] ==> r == b
    ensures EndsWith(r, b)
    ensures a != [] ==> StartsWith(r, a) && |r| >= |b| + 1 && r[|r| - |b| - 1] == '/'
    ensures a != [] && a[|a| - 1] == '/' ==> |r| == |a| + |b|
    ensures a != [] && a[|a| - 1] != '/' ==> |r| == |a| + 1 + |b|
  {
    if a == [] then b
    else if a[|a| - 1] == '/' then
      assert (a + b)[..|a|] == a && (a + b)[|a|..] == b;
      a + b
    else
      assert (a + "/" + b)[..|a|] == a && (a + "/" + b)[|a| + 1..] == b;
      a + "/" + b
  }

  /** With `a` non-empty, the parts can be read back: `a` is the prefix and `b` follows a single '/'. */
  lemma JoinPathSplit(a: string, b: string)
    requires a != []
    ensures var r := JoinPath(a, b); r[..|a|] == a && r[|r| - |b|..] == b
    ensures var r := JoinPath(a, b); r == r[..|r| - |b| - 1] + "/" + b
  {
    var r := JoinPath(a, b);
    assert r == r[..|r| - |b| - 1] + [r[|r| - |b| - 1]] + r[|r| - |b|..];
  }

  // --------------------------------------------------------------- uuid4

  type u64 = x: int | 0 <= x < 0x1_0000_0000_0000_0000

  /** The five numbers uuid4 prints: a>>32, (a>>16)&0xFFFF, a&0xFFFF, b>>48, b&0xFFFFFFFFFFFF. */
  function Groups(a: u64, b: u64): seq<nat> {
    [a / 0x1_0000_0000, (a / 0x1_0000) % 0x1_0000, a % 0x1_0000, b / 0x1_0000_0000_0000, b % 0x1_0000_0000_0000]
  }

  /** The formatting half of uuid4: the five groups in unpadded lowercase hex, joined by '-'. */
  function Uuid(a: u64, b: u64): string {
    var g := Groups(a, b);
    Hex(g[0]) + "-" + Hex(g[1]) + "-" + Hex(g[2]) + "-" + Hex(g[3]) + "-" + Hex(g[4])
  }

  /** The pieces of `s` between the occurrences of `c`. */
  function Split(s: string, c: char): (r: seq<string>)
    ensures |r| >= 1
  {
    if s == [] then [[]]
    else if s[0] == c then [[]] + Split(s[1..], c)
    else var rest := Split(s[1..], c); [[s[0]] + rest[0]] + rest[1..]
  }

  lemma {:induction false} SplitPlain(seg: string, c: char)
    requires forall i :: 0 <= i < |seg| ==> seg[i] != c
    ensures Split(seg, c) == [seg]
    decreases |seg|
  {
    if seg != [] {
      SplitPlain(seg[1..], c);
      assert [seg[0]] + seg[1..] == seg;
    }
  }

  lemma {:induction false} SplitAt(seg: string, c: char, t: string)
    requires forall i :: 0 <= i < |seg| ==> seg[i] != c
    ensures Split(seg + [c] + t, c) == [seg] + Split(t, c)
    decreases |seg|
  {
    if seg == [] {
      assert seg + [c] + t == [c] + t;
      assert ([c] + t)[1..] == t;
    } else {
      assert (seg + [c] + t)[1..] == seg[1..] + [c] + t;
      SplitAt(seg[1..], c, t);
      assert [seg[0]] + seg[1..] == seg;
    }
  }

  lemma HexHasNoDash(n: nat)
    ensures forall i :: 0 <= i < |Hex(n)| ==> Hex(n)[i] != '-'
  {
    assert IsHexText(Hex(n));
  }

  /**
   * The id is five hex groups separated by exactly four '-': splitting it
   * at '-' gives back the five printed groups.
   */
  lemma UuidSplits(a: u64, b: u64)
    ensures var g := Groups(a, b); Split(Uuid(a, b), '-') == [Hex(g[0]), Hex(g[1]), Hex(g[2]), Hex(g[3]), Hex(g[4])]
  {
    var g := Groups(a, b);
    var h0, h1, h2, h3, h4 := Hex(g[0]), Hex(g[1]), Hex(g[2]), Hex(g[3]), Hex(g[4]);
    HexHasNoDash(g[0]);
    HexHasNoDash(g[1]);
    HexHasNoDash(g[2]);
    HexHasNoDash(g[3]);
    HexHasNoDash(g[4]);
    var t3 := h4;
    var t2 := h3 + ['-'] + t3;
    var t1 := h2 + ['-'] + t2;
    var t0 := h1 + ['-'] + t1;
    assert Uuid(a, b) == h0 + ['-'] + t0;
    SplitPlain(h4, '-');
    SplitAt(h3, '-', t3);
    SplitAt(h2, '-', t2);
    SplitAt(h1, '-', t1);
    SplitAt(h0, '-', t0);
  }

  lemma PowersOfSixteen()
    ensures Pow(16, 4) == 0x1_0000 && Pow(16, 8) == 0x1_0000_0000 && Pow(16, 12) == 0x1_0000_0000_0000
  {
    assert Pow(16, 2) == 0x100;
    assert Pow(16, 4) == 0x1_0000;
    assert Pow(16, 6) == 0x100_0000;
    assert Pow(16, 8) == 0x1_0000_0000;
    assert Pow(16, 10) == 0x100_0000_0000;
  }

  /** Unpadded, the groups take at most 8, 4, 4, 4 and 12 digits. */
  lemma UuidWidths(a: u64, b: u64)
    ensures var g := Groups(a, b);
      |Hex(g[0])| <= 8 && |Hex(g[1])| <= 4 && |Hex(g[2])| <= 4 && |Hex(g[3])| <= 4 && |Hex(g[4])| <= 12
  {
    var g := Groups(a, b);
    PowersOfSixteen();
    HexWidth(g[0], 8);
    HexWidth(g[1], 4);
    HexWidth(g[2], 4);
    HexWidth(g[3], 4);
    HexWidth(g[4], 12);
  }

  /** The division identities behind the groups: they add back up to the two words. */
  lemma GroupsAddUp(a: u64, b: u64)
    ensures var g := Groups(a, b);
      a == g[0] * 0x1_0000_0000 + g[1] * 0x1_0000 + g[2] && b == g[3] * 0x1_0000_0000_0000 + g[4]
  {
    var q := a / 0x1_0000;
    assert a == q * 0x1_0000 + a % 0x1_0000;
    assert q / 0x1_0000 == a / 0x1_0000_0000;
    assert q == (a / 0x1_0000_0000) * 0x1_0000 + q % 0x1_0000;
    assert b == (b / 0x1_0000_0000_0000) * 0x1_0000_0000_0000 + b % 0x1_0000_0000_0000;
  }

  /** The groups hold all 128 bits: different words never print the same id. */
  lemma UuidInjective(a: u64, b: u64, a2: u64, b2: u64)
    requires Uuid(a, b) == Uuid(a2, b2)
    ensures a == a2 && b == b2
  {
    UuidSplits(a, b);
    UuidSplits(a2, b2);
    var g, g2 := Groups(a, b), Groups(a2, b2);
    forall i | 0 <= i < 5
      ensures g[i] == g2[i]
    {
      assert Hex(g[i]) == Hex(g2[i]);
      HexRoundTrip(g[i]);
      HexRoundTrip(g2[i]);
    }
    GroupsAddUp(a, b);
    GroupsAddUp(a2, b2);
  }
}
