/** The standard base64 encoding with padding (section 4 of RFC 4648), over octets written as characters. */
module Base64 {
  import opened Options

  type Octet = c: char | c as int < 256 witness 'A'
  type Text = seq<Octet>

  predicate Digit(c: char) {
    'A' <= c <= 'Z' || 'a' <= c <= 'z' || '0' <= c <= '9' || c == '+' || c == '/'
  }

  function ValueOf(c: char): (v: nat)
    requires Digit(c)
    ensures v < 64
  {
    if 'A' <= c <= 'Z' then (c - 'A') as int
    else if 'a' <= c <= 'z' then 26 + (c - 'a') as int
    else if '0' <= c <= '9' then 52 + (c - '0') as int
    else if c == '+' then 62 else 63
  }

  function DigitOf(v: nat): (c: Octet)
    requires v < 64
    ensures Digit(c) && ValueOf(c) == v
  {
    if v < 26 then 'A' + v as char
    else if v < 52 then 'a' + (v - 26) as char
    else if v < 62 then '0' + (v - 52) as char
    else if v == 62 then '+' else '/'
  }

  /** Four digits for the 24 bits of three octets. */
  function Quad(n: nat): (q: Text)
    requires n < 0x100_0000
    ensures |q| == 4 && forall i :: 0 <= i < 4 ==> Digit(q[i])
  {
    [DigitOf(n / 0x4_0000), DigitOf(n / 0x1000 % 64), DigitOf(n / 64 % 64), DigitOf(n % 64)]
  }

  function Bits(a: Octet, b: Octet, c: Octet): (n: nat)
    ensures n < 0x100_0000
  {
    a as int * 0x1_0000 + b as int * 0x100 + c as int
  }

  function Encode(v: Text): Text {
    if v == [] then []
    else if |v| == 1 then Quad(Bits(v[0], '\0', '\0'))[..2] + ['=', '=']
    else if |v| == 2 then Quad(Bits(v[0], v[1], '\0'))[..3] + ['=']
    else Quad(Bits(v[0], v[1], v[2])) + Encode(v[3..])
  }

  function OctetOf(n: nat): Octet { (n % 256) as char }

  /** Quads of digits; padding only at the very end; what the unused bits are does not matter. */
  function DecodeQuads(s: Text): Option<Text> {
    if s == [] then Some([])
    else if |s| < 4 || !Digit(s[0]) || !Digit(s[1]) then None
    else
      var n := ValueOf(s[0]) * 0x4_0000 + ValueOf(s[1]) * 0x1000;
      if s[2] == '=' then
        if s[3] == '=' && |s| == 4 then Some([OctetOf(n / 0x1_0000)]) else None
      else if !Digit(s[2]) then None
      else
        var m := n + ValueOf(s[2]) * 64;
        if s[3] == '=' then
          if |s| == 4 then Some([OctetOf(m / 0x1_0000), OctetOf(m / 0x100)]) else None
        else if !Digit(s[3]) then None
        else
          var k := m + ValueOf(s[3]);
          var rest := DecodeQuads(s[4..]);
          if rest.None? then None
          else Some([OctetOf(k / 0x1_0000), OctetOf(k / 0x100), OctetOf(k)] + rest.value)
  }

  function WithoutLineBreaks(s: Text): Text {
    if s == [] then []
    else (if s[0] == '\r' || s[0] == '\n' then [] else [s[0]]) + WithoutLineBreaks(s[1..])
  }

  /** The decoder skips line breaks anywhere. */
  function Decode(s: Text): Option<Text> { DecodeQuads(WithoutLineBreaks(s)) }

  lemma SextetsOf(n: nat)
    requires n < 0x100_0000
    ensures n == n / 0x4_0000 * 0x4_0000 + n / 0x1000 % 64 * 0x1000 + n / 64 % 64 * 64 + n % 64
    ensures n / 0x4_0000 < 64
  {
  }

  lemma OctetsOf(a: Octet, b: Octet, c: Octet)
    ensures var n := Bits(a, b, c);
      OctetOf(n / 0x1_0000) == a && OctetOf(n / 0x100) == b && OctetOf(n) == c
  {
    var n := Bits(a, b, c);
    assert n / 0x1_0000 == a as int;
    assert n / 0x100 == a as int * 256 + b as int;
  }

  lemma {:induction false} EncodedShape(v: Text)
    ensures forall i :: 0 <= i < |Encode(v)| ==> Digit(Encode(v)[i]) || Encode(v)[i] == '='
  {
    if |v| > 2 {
      EncodedShape(v[3..]);
    }
  }

  lemma {:induction false} NoLineBreaks(s: Text)
    requires forall i :: 0 <= i < |s| ==> s[i] != '\r' && s[i] != '\n'
    ensures WithoutLineBreaks(s) == s
  {
    if s != [] {
      NoLineBreaks(s[1..]);
    }
  }

  function Value24(q: Text): nat
    requires |q| == 4 && forall i :: 0 <= i < 4 ==> Digit(q[i])
  {
    ValueOf(q[0]) * 0x4_0000 + ValueOf(q[1]) * 0x1000 + ValueOf(q[2]) * 64 + ValueOf(q[3])
  }

  lemma QuadValue(n: nat)
    requires n < 0x100_0000
    ensures Value24(Quad(n)) == n
  {
    SextetsOf(n);
  }

  lemma DecodeOneQuad(q: Text, rest: Text)
    requires |q| == 4 && forall i :: 0 <= i < 4 ==> Digit(q[i])
    requires DecodeQuads(rest).Some?
    ensures var n := Value24(q);
      DecodeQuads(q + rest) == Some([OctetOf(n / 0x1_0000), OctetOf(n / 0x100), OctetOf(n)] + DecodeQuads(rest).value)
  {
    var s := q + rest;
    assert s[4..] == rest && s[0] == q[0] && s[1] == q[1] && s[2] == q[2] && s[3] == q[3];
    assert q[2] != '=' && q[3] != '=';
    hide ValueOf, OctetOf, Digit;
  }

  lemma DecodeLastQuad(q: Text)
    requires |q| == 4 && forall i :: 0 <= i < 4 ==> Digit(q[i])
    ensures ValueOf(q[2]) == ValueOf(q[3]) == 0 ==>
      DecodeQuads(q[..2] + ['=', '=']) == Some([OctetOf(Value24(q) / 0x1_0000)])
    ensures ValueOf(q[3]) == 0 ==>
      DecodeQuads(q[..3] + ['=']) == Some([OctetOf(Value24(q) / 0x1_0000), OctetOf(Value24(q) / 0x100)])
  {
    hide ValueOf, OctetOf;
  }

  lemma {:induction false} QuadsRoundTrip(v: Text)
    ensures DecodeQuads(Encode(v)) == Some(v)
  {
    hide ValueOf, OctetOf, DecodeQuads, Value24, Bits;
    if v == [] {
      DecodeNothing();
    } else {
      var a, b, c := v[0], if |v| > 1 then v[1] else '\0', if |v| > 2 then v[2] else '\0';
      var q := Quad(Bits(a, b, c));
      QuadValue(Bits(a, b, c));
      OctetsOf(a, b, c);
      if |v| <= 2 {
        ZeroDigits(a, b);
        DecodeLastQuad(q);
        assert v == if |v| == 1 then [a] else [a, b];
      } else {
        QuadsRoundTrip(v[3..]);
        DecodeOneQuad(q, Encode(v[3..]));
        assert v == [a, b, c] + v[3..];
      }
    }
  }

  lemma DecodeNothing()
    ensures DecodeQuads([]) == Some([])
  {
  }

  lemma ZeroDigits(a: Octet, b: Octet)
    ensures ValueOf(Quad(Bits(a, b, '\0'))[3]) == 0
    ensures ValueOf(Quad(Bits(a, '\0', '\0'))[2]) == 0 && ValueOf(Quad(Bits(a, '\0', '\0'))[3]) == 0
  {
    hide ValueOf, DigitOf, Quad;
    QuadDigits(Bits(a, b, '\0'));
    QuadDigits(Bits(a, '\0', '\0'));
    LowBits(a as int * 256 + b as int);
    LowBits(a as int * 256);
  }

  lemma QuadDigits(n: nat)
    requires n < 0x100_0000
    ensures ValueOf(Quad(n)[2]) == n / 64 % 64 && ValueOf(Quad(n)[3]) == n % 64
  {
    hide ValueOf, DigitOf;
  }

  lemma LowBits(n: nat)
    ensures n * 256 % 64 == 0
    ensures n % 256 == 0 ==> n * 256 / 64 % 64 == 0
  {
    assert n * 256 == 64 * (n * 4);
    if n % 256 == 0 {
      assert n * 256 / 64 == n * 4 == 64 * (n / 256 * 16);
    }
  }

  /** Decoding gives back every sequence of octets. */
  lemma RoundTrip(v: Text)
    ensures Decode(Encode(v)) == Some(v)
  {
    EncodedShape(v);
    NoLineBreaks(Encode(v));
    QuadsRoundTrip(v);
  }

  /** The alphabet of section 4 of RFC 4648: four runs of characters, where each begins and ends. */
  lemma Alphabet(v: nat)
    requires v < 63
    ensures DigitOf(0) == 'A' && DigitOf(25) == 'Z' && DigitOf(26) == 'a' && DigitOf(51) == 'z'
    ensures DigitOf(52) == '0' && DigitOf(61) == '9' && DigitOf(62) == '+' && DigitOf(63) == '/'
    ensures v !in {25, 51, 61, 62} ==> DigitOf(v + 1) as int == DigitOf(v) as int + 1
  {
  }

  /** Test vectors of section 10 of RFC 4648. */
  lemma TestVectors()
    ensures Encode("") == "" && Encode("f") == "Zg==" && Encode("fo") == "Zm8=" && Encode("foo") == "Zm9v"
    ensures Encode("foobar") == "Zm9vYmFy"
  {
    QuadsOfVectors();
    hide DigitOf, Quad;
    assert Bits('f', '\0', '\0') == 0x66_0000 && Bits('f', 'o', '\0') == 0x66_6f00;
    assert Bits('f', 'o', 'o') == 0x66_6f6f && Bits('b', 'a', 'r') == 0x62_6172;
    assert "foo"[3..] == "" && "bar"[3..] == "" && "foobar"[3..] == "bar";
    assert Encode("bar") == Quad(0x62_6172) + Encode("");
    assert Encode("foobar") == Quad(0x66_6f6f) + Encode("bar");
  }

  lemma QuadsOfVectors()
    ensures Quad(0x66_0000)[..2] == ['Z', 'g'] && Quad(0x66_6f00)[..3] == ['Z', 'm', '8']
    ensures Quad(0x66_6f6f) == ['Z', 'm', '9', 'v'] && Quad(0x62_6172) == ['Y', 'm', 'F', 'y']
  {
    assert DigitOf(25) == 'Z' && DigitOf(32) == 'g' && DigitOf(38) == 'm' && DigitOf(60) == '8';
    assert DigitOf(61) == '9' && DigitOf(47) == 'v' && DigitOf(24) == 'Y' && DigitOf(5) == 'F' && DigitOf(50) == 'y';
    hide DigitOf;
    assert 0x66_0000 / 0x4_0000 == 25 && 0x66_0000 / 0x1000 % 64 == 32;
  }
}
