/**
 * b64_value and base64_decode of http_server.cpp: a streaming decoder of
 * the base64 alphabet of section 4 of RFC 4648 that stops at the first
 * '=' and skips every byte outside the alphabet.
 *
 * `Sextets` and `DecodeSextets` specify the decoder; `Encode`, the padded
 * encoding of section 4 of RFC 4648, is its inverse.
 */
module Base64 {
  import opened Wrappers
  import opened Text

  type byte = x: int | 0 <= x < 256

  type sextet = x: int | 0 <= x < 64

  /** b64_value: the value of an alphabet character, -1 for any other byte. */
  function B64Value(c: char): (v: int)
    ensures -1 <= v < 64
    ensures v >= 0 ==> EncodeChar(v) == c
  {
    if 'A' <= c <= 'Z' then c as int - 'A' as int
    else if 'a' <= c <= 'z' then c as int - 'a' as int + 26
    else if '0' <= c <= '9' then c as int - '0' as int + 52
    else if c == '+' then 62
    else if c == '/' then 63
    else -1
  }

  /** The alphabet character of a value: Table 1 of RFC 4648, A-Z, a-z, 0-9, '+', '/'. */
  function EncodeChar(x: sextet): (c: char)
    ensures c != '='
  {
    if x < 26 then ('A' as int + x) as char
    else if x < 52 then ('a' as int + x - 26) as char
    else if x < 62 then ('0' as int + x - 52) as char
    else if x == 62 then '+'
    else '/'
  }

  lemma B64ValueOfEncodeChar(x: sextet)
    ensures B64Value(EncodeChar(x)) == x
  {
  }

  /** Exactly the alphabet characters have a value. */
  lemma B64ValueNegative(c: char)
    ensures B64Value(c) == -1 <==> forall x: sextet :: EncodeChar(x) != c
  {
    if B64Value(c) == -1 {
      forall x: sextet ensures EncodeChar(x) != c {
        B64ValueOfEncodeChar(x);
      }
    }
  }

  // ------------------------------------------------------ specification

  /** The values of the alphabet characters before the first '='. */
  function Sextets(s: string): seq<sextet> {
    if s == [] || s[0] == '=' then []
    else if B64Value(s[0]) < 0 then Sextets(s[1..])
    else [B64Value(s[0]) as sextet] + Sextets(s[1..])
  }

  function Byte0(a: sextet, b: sextet): byte { a * 4 + b / 16 }
  function Byte1(b: sextet, c: sextet): byte { (b % 16) * 16 + c / 4 }
  function Byte2(c: sextet, d: sextet): byte { (c % 4) * 64 + d }

  /** Groups of four values give three bytes; a tail of two or three gives one or two. */
  function DecodeSextets(vs: seq<sextet>): seq<byte> {
    if |vs| >= 4 then [Byte0(vs[0], vs[1]), Byte1(vs[1], vs[2]), Byte2(vs[2], vs[3])] + DecodeSextets(vs[4..])
    else if |vs| == 3 then [Byte0(vs[0], vs[1]), Byte1(vs[1], vs[2])]
    else if |vs| == 2 then [Byte0(vs[0], vs[1])]
    else []
  }

  /** The input's output length is floor(6n/8) for n values consumed. */
  lemma {:induction false} DecodeLength(vs: seq<sextet>)
    ensures |DecodeSextets(vs)| == 6 * |vs| / 8
    decreases |vs|
  {
    if |vs| >= 4 {
      DecodeLength(vs[4..]);
    }
  }

  /** What one more value adds to the output. */
  function Extra(vs: seq<sextet>, v: sextet): seq<byte>
    requires vs != []
  {
    var x := vs[|vs| - 1];
    if |vs| % 4 == 1 then [Byte0(x, v)]
    else if |vs| % 4 == 2 then [Byte1(x, v)]
    else if |vs| % 4 == 3 then [Byte2(x, v)]
    else []
  }

  lemma {:induction false} DecodeSnoc(vs: seq<sextet>, v: sextet)
    ensures DecodeSextets(vs + [v]) == DecodeSextets(vs) + (if vs == [] then [] else Extra(vs, v))
    decreases |vs|
  {
    var w := vs + [v];
    if |vs| >= 4 {
      var head := [Byte0(vs[0], vs[1]), Byte1(vs[1], vs[2]), Byte2(vs[2], vs[3])];
      assert DecodeSextets(w) == head + DecodeSextets(w[4..]);
      assert DecodeSextets(vs) == head + DecodeSextets(vs[4..]);
      assert w[4..] == vs[4..] + [v];
      DecodeSnoc(vs[4..], v);
      if |vs| > 4 {
        ExtraDrop(vs, v);
      }
    } else if |vs| == 3 {
      assert DecodeSextets(w) == [Byte0(vs[0], vs[1]), Byte1(vs[1], vs[2]), Byte2(vs[2], v)] + DecodeSextets(w[4..]);
      assert w[4..] == [];
    } else if |vs| == 2 {
      assert DecodeSextets(w) == [Byte0(vs[0], vs[1]), Byte1(vs[1], v)];
    } else if |vs| == 1 {
      assert DecodeSextets(w) == [Byte0(vs[0], v)];
    }
  }

  lemma ExtraDrop(vs: seq<sextet>, v: sextet)
    requires |vs| > 4
    ensures Extra(vs[4..], v) == Extra(vs, v)
  {
    var t := vs[4..];
    assert t[|t| - 1] == vs[|vs| - 1];
    assert |t| % 4 == |vs| % 4;
  }

  /** Before the first '=', the values of a concatenation are the concatenation of the values. */
  lemma {:induction false} SextetsConcat(p: string, q: string)
    requires forall k :: 0 <= k < |p| ==> p[k] != '='
    ensures Sextets(p + q) == Sextets(p) + Sextets(q)
    decreases |p|
  {
    if p == [] {
      assert p + q == q;
    } else {
      assert (p + q)[0] == p[0];
      assert (p + q)[1..] == p[1..] + q;
      SextetsConcat(p[1..], q);
    }
  }

  // ---------------------------------------------------------- the loop

  /** The low twelve bits of `val` after the values `vs`: all that is ever read. */
  function Low12(vs: seq<sextet>): nat {
    if |vs| == 0 then 0
    else if |vs| == 1 then vs[0] as nat
    else vs[|vs| - 2] as nat * 64 + vs[|vs| - 1] as nat
  }

  lemma Low12Snoc(vs: seq<sextet>, v: sextet)
    ensures Low12(vs + [v]) == (Low12(vs) * 64 + v) % 4096
    ensures vs != [] ==> Low12(vs + [v]) == vs[|vs| - 1] * 64 + v
  {
    var w := vs + [v];
    if |vs| >= 2 {
      var a, b := vs[|vs| - 2], vs[|vs| - 1];
      assert w[|w| - 2] == b;
      assert (a * 64 + b) * 64 + v == a * 4096 + (b * 64 + v);
      assert b * 64 + v < 4096;
    }
  }

  /** Quotient and remainder by the shift widths used here are unique. */
  lemma DivUnique(w: int, d: int, q: int, r: int)
    requires d == 1 || d == 4 || d == 16 || d == 256
    requires 0 <= r < d && w == d * q + r
    ensures w / d == q && w % d == r
  {
    if d == 1 {
    } else if d == 4 {
    } else if d == 16 {
    } else {
    }
  }

  lemma PowersOfTwo()
    ensures Pow(2, 0) == 1 && Pow(2, 2) == 4 && Pow(2, 4) == 16
  {
    assert Pow(2, 1) == 2;
    assert Pow(2, 3) == 8;
  }

  /** The byte `(val >> valb) & 0xFF` the loop emits, with val kept modulo 4096. */
  lemma EmittedByte(vs: seq<sextet>, v: sextet, valb: int)
    requires vs != [] && valb == (6 * |vs|) % 8 - 2 && valb >= 0
    ensures (Low12(vs + [v]) / Pow(2, valb)) % 256 == Extra(vs, v)[0]
  {
    Low12Snoc(vs, v);
    PowersOfTwo();
    var x := vs[|vs| - 1];
    var w := x * 64 + v;
    if |vs| % 4 == 1 {
      assert valb == 4;
      DivUnique(w, 16, x * 4 + v / 16, v % 16);
      DivUnique(x * 4 + v / 16, 256, 0, x * 4 + v / 16);
    } else if |vs| % 4 == 2 {
      assert valb == 2;
      DivUnique(w, 4, x * 16 + v / 4, v % 4);
      DivUnique(x * 16 + v / 4, 256, x / 16, (x % 16) * 16 + v / 4);
    } else {
      assert |vs| % 4 == 3;
      assert valb == 0;
      DivUnique(w, 1, w, 0);
      DivUnique(w, 256, x / 4, (x % 4) * 64 + v);
    }
  }

  /** How `valb` moves: a byte is due exactly when the new value completes one. */
  lemma ValbStep(vs: seq<sextet>, v: sextet, valb: int)
    requires valb == (6 * |vs|) % 8 - 8
    ensures valb + 6 >= 0 <==> vs != [] && |Extra(vs, v)| == 1
    ensures valb + 6 >= 0 ==> valb + 6 == (6 * |vs|) % 8 - 2 && valb - 2 == (6 * (|vs| + 1)) % 8 - 8
    ensures valb + 6 < 0 ==> valb + 6 == (6 * (|vs| + 1)) % 8 - 8
  {
    var n := |vs|;
    var k := n / 4;
    if n % 4 == 0 {
      Mod8(3 * k, 0);
      Mod8(3 * k, 6);
    } else if n % 4 == 1 {
      Mod8(3 * k, 6);
      Mod8(3 * k + 1, 4);
    } else if n % 4 == 2 {
      Mod8(3 * k + 1, 4);
      Mod8(3 * k + 2, 2);
    } else {
      Mod8(3 * k + 2, 2);
      Mod8(3 * k + 3, 0);
    }
  }

  lemma Mod8(m: int, c: int)
    requires 0 <= c < 8
    ensures (8 * m + c) % 8 == c
  {
  }

  /**
   * base64_decode: the bytes the values before the first '=' stand for.
   * It always succeeds, so the caller's "decode failed" branch never runs.
   */
  method Base64Decode(input: string) returns (r: Option<seq<byte>>)
    ensures r == Some(DecodeSextets(Sextets(input)))
  {
    var out: seq<byte> := [];
    var val := 0;
    var valb := -8;
    var i := 0;
    ghost var vs: seq<sextet> := [];
    while i < |input|
      invariant 0 <= i <= |input|
      invariant forall k :: 0 <= k < i ==> input[k] != '='
      invariant vs == Sextets(input[..i])
      invariant out == DecodeSextets(vs)
      invariant val == Low12(vs)
      invariant valb == (6 * |vs|) % 8 - 8
    {
      var c := input[i];
      if c == '=' {
        SextetsConcat(input[..i], input[i..]);
        assert input[..i] + input[i..] == input;
        assert Sextets(input[i..]) == [];
        assert vs == Sextets(input);
        break;
      }
      SextetsConcat(input[..i], [c]);
      assert input[..i + 1] == input[..i] + [c];
      var v := B64Value(c);
      if v < 0 {
        i := i + 1;
        continue;
      }
      Low12Snoc(vs, v);
      DecodeSnoc(vs, v);
      ValbStep(vs, v, valb);
      val := (val * 64 + v) % 4096;
      valb := valb + 6;
      if valb >= 0 {
        EmittedByte(vs, v, valb);
        out := out + [(val / Pow(2, valb)) % 256];
        valb := valb - 8;
      }
      vs := vs + [v];
      i := i + 1;
    }
    if i == |input| {
      assert input[..i] == input;
    }
    assert vs == Sextets(input);
    r := Some(out);
  }

  // ----------------------------------------------------------- encoding

  /** The values of the padded encoding, before the padding. */
  function EncodeSextets(b: seq<byte>): seq<sextet> {
    if |b| >= 3 then
      [b[0] / 4, (b[0] % 4) * 16 + b[1] / 16, (b[1] % 16) * 4 + b[2] / 64, b[2] % 64] + EncodeSextets(b[3..])
    else if |b| == 2 then [b[0] / 4, (b[0] % 4) * 16 + b[1] / 16, (b[1] % 16) * 4]
    else if |b| == 1 then [b[0] / 4, (b[0] % 4) * 16]
    else []
  }

  function Chars(vs: seq<sextet>): (s: string)
    ensures |s| == |vs|
    ensures forall i :: 0 <= i < |s| ==> s[i] == EncodeChar(vs[i])
  {
    if vs == [] then [] else [EncodeChar(vs[0])] + Chars(vs[1..])
  }

  /** The padded base64 encoding of section 4 of RFC 4648. */
  function Encode(b: seq<byte>): string {
    Chars(EncodeSextets(b)) + (if |b| % 3 == 1 then "==" else if |b| % 3 == 2 then "=" else "")
  }

  lemma {:induction false} SextetsOfChars(vs: seq<sextet>, rest: string)
    requires rest == [] || rest[0] == '='
    ensures Sextets(Chars(vs) + rest) == vs
    decreases |vs|
  {
    if vs == [] {
      assert Chars(vs) + rest == rest;
    } else {
      B64ValueOfEncodeChar(vs[0]);
      assert (Chars(vs) + rest)[1..] == Chars(vs[1..]) + rest;
      SextetsOfChars(vs[1..], rest);
    }
  }

  lemma DecodeGroup(x: byte, y: byte, z: byte)
    ensures Byte0(x / 4, (x % 4) * 16 + y / 16) == x
    ensures Byte1((x % 4) * 16 + y / 16, (y % 16) * 4 + z / 64) == y
    ensures Byte2((y % 16) * 4 + z / 64, z % 64) == z
  {
    assert ((x % 4) * 16 + y / 16) / 16 == x % 4;
    assert ((x % 4) * 16 + y / 16) % 16 == y / 16;
    assert ((y % 16) * 4 + z / 64) / 4 == y % 16;
    assert ((y % 16) * 4 + z / 64) % 4 == z / 64;
  }

  lemma {:induction false} DecodeEncodeSextets(b: seq<byte>)
    ensures DecodeSextets(EncodeSextets(b)) == b
    decreases |b|
  {
    if |b| >= 3 {
      DecodeGroup(b[0], b[1], b[2]);
      DecodeEncodeSextets(b[3..]);
      var e := EncodeSextets(b);
      assert e[4..] == EncodeSextets(b[3..]);
      assert b == [b[0], b[1], b[2]] + b[3..];
    } else if |b| == 2 {
      DecodeGroup(b[0], b[1], 0);
    } else if |b| == 1 {
      DecodeGroup(b[0], 0, 0);
    }
  }

  /** Decoding the padded encoding of any bytes gives those bytes back. */
  lemma DecodeEncode(b: seq<byte>)
    ensures DecodeSextets(Sextets(Encode(b))) == b
  {
    SextetsOfChars(EncodeSextets(b),
      if |b| % 3 == 1 then "==" else if |b| % 3 == 2 then "=" else "");
    DecodeEncodeSextets(b);
  }
}
