/** The pixel format announced by the RFB server and the decoding of one pixel. */
module PixelFormat {
  import opened Arith

  type Byte = b: int | 0 <= b < 256

  /** One pixel of the client's framebuffer, which is always four bytes of RGBA. */
  datatype Color = Color(r: Byte, g: Byte, b: Byte, a: Byte)

  datatype FormatData = FormatData(
    bpp: nat, bigEnd: bool,
    rShift: nat, gShift: nat, bShift: nat,
    rMax: nat, gMax: nat, bMax: nat)

  /** What the handshake guarantees: one to four bytes per pixel. */
  type Format = f: FormatData | 1 <= f.bpp <= 4 witness FormatData(4, false, 16, 8, 0, 255, 255, 255)

  /** Bitwise conjunction of two unsigned numbers. */
  function BitAnd(a: nat, b: nat): (c: nat)
    ensures c <= b
  {
    if a == 0 || b == 0 then 0 else 2 * BitAnd(a / 2, b / 2) + (if a % 2 == 1 && b % 2 == 1 then 1 else 0)
  }

  /** px >> n */
  function ShiftRight(px: nat, n: nat): nat {
    if n == 0 then px else ShiftRight(px / 2, n - 1)
  }

  function BigEndian(data: seq<Byte>): nat {
    if data == [] then 0 else BigEndian(data[..|data| - 1]) * 256 + data[|data| - 1]
  }

  lemma {:induction false} BigEndianBound(data: seq<Byte>)
    ensures BigEndian(data) < Pow2(8 * |data|)
  {
    if data != [] {
      BigEndianBound(data[..|data| - 1]);
      Pow2Plus8(8 * (|data| - 1));
    }
  }

  lemma Pow2Plus8(n: nat)
    ensures Pow2(n + 8) == 256 * Pow2(n)
  {
    assert Pow2(n + 8) == 2 * Pow2(n + 7) == 4 * Pow2(n + 6) == 8 * Pow2(n + 5);
    assert Pow2(n + 5) == 2 * Pow2(n + 4) == 4 * Pow2(n + 3) == 8 * Pow2(n + 2);
    assert Pow2(n + 2) == 2 * Pow2(n + 1) == 4 * Pow2(n);
  }

  function Reverse(s: seq<Byte>): (r: seq<Byte>)
    ensures |r| == |s| && forall i :: 0 <= i < |s| ==> r[i] == s[|s| - 1 - i]
  {
    if s == [] then [] else Reverse(s[1..]) + [s[0]]
  }

  /** The pixel value of a byte group, shifted in from the front or from the back. */
  function Word(f: Format, data: seq<Byte>): nat {
    BigEndian(if f.bigEnd then data else Reverse(data))
  }

  /** Stretches a channel value onto 0..255; the conversion to a byte keeps the low eight bits. */
  function ScaleColor(v: Byte, max: nat): Byte {
    if max == 0 || max == 255 then v else (v * 255 / max) % 256
  }

  function Channel(px: nat, shift: nat, max: nat): Byte {
    ScaleColor(BitAnd(ShiftRight(px, shift), max) % 256, max)
  }

  function Decode(f: Format, data: seq<Byte>): Color {
    var px := Word(f, data);
    Color(Channel(px, f.rShift, f.rMax), Channel(px, f.gShift, f.gMax), Channel(px, f.bShift, f.bMax), 255)
  }

  /** What the tile decoders need of a format: the size of a pixel and how to decode one. */
  datatype CodecData = CodecData(bpp: nat, decode: seq<Byte> -> Color)

  type Codec = k: CodecData | 1 <= k.bpp <= 4 ghost witness CodecData(1, _ => Color(0, 0, 0, 255))

  function CodecOf(f: Format): Codec {
    CodecData(f.bpp, data => Decode(f, data))
  }

  /** Decoding of consecutive pixels; a last incomplete group of bytes is ignored. */
  function DecodeAll(k: Codec, data: seq<Byte>): seq<Color> {
    if |data| < k.bpp then [] else [k.decode(data[..k.bpp])] + DecodeAll(k, data[k.bpp..])
  }

  /** A buffer of n pixels decodes to n colours. */
  lemma {:induction false} DecodeAllLength(k: Codec, data: seq<Byte>, n: nat)
    requires |data| == n * k.bpp
    ensures |DecodeAll(k, data)| == n
  {
    if n > 0 {
      assert |data| - k.bpp == (n - 1) * k.bpp;
      MulNonNegative(n - 1, k.bpp);
      DecodeAllLength(k, data[k.bpp..], n - 1);
    }
  }

  /** The i-th colour comes from the i-th group of bytes. */
  lemma {:induction false} DecodeAllAt(k: Codec, data: seq<Byte>, i: nat, at: nat)
    requires at == i * k.bpp && at + k.bpp <= |data|
    ensures i < |DecodeAll(k, data)| && DecodeAll(k, data)[i] == k.decode(data[at..at + k.bpp])
  {
    if i == 0 {
      assert at == 0;
    } else {
      assert at == (i - 1) * k.bpp + k.bpp;
      DecodeAllAt(k, data[k.bpp..], i - 1, at - k.bpp);
      assert data[k.bpp..][at - k.bpp..at] == data[at..at + k.bpp];
    }
  }

  /** In a buffer of `total` pixels the bytes of pixel n are there, and decode to the n-th colour. */
  lemma GroupDecoded(k: Codec, data: seq<Byte>, n: nat, total: nat, idx: nat)
    requires n < total && |data| == total * k.bpp && idx == Strides(n, k.bpp)
    ensures idx + k.bpp <= |data|
    ensures n < |DecodeAll(k, data)| && k.decode(data[idx..idx + k.bpp]) == DecodeAll(k, data)[n]
  {
    StrideInside(n, k.bpp, total);
    StridesIsProduct(n, k.bpp);
    DecodeAllAt(k, data, n, idx);
  }

  /** A mask of the form 2^k - 1 extracts exactly the low k bits. */
  lemma {:induction false} MaskIsRemainder(a: nat, k: nat)
    ensures BitAnd(a, Pow2(k) - 1) == a % Pow2(k)
  {
    if k > 0 {
      var p := Pow2(k - 1);
      MaskIsRemainder(a / 2, k - 1);
      HalfRemainder(a, p);
      assert (2 * p - 1) / 2 == p - 1 && (2 * p - 1) % 2 == 1;
    }
  }

  lemma HalfRemainder(a: nat, p: nat)
    requires p >= 1
    ensures a % (2 * p) == 2 * ((a / 2) % p) + a % 2
  {
    var q, r := a / 2 / p, a / 2 % p;
    assert a / 2 == q * p + r;
    assert a == q * (2 * p) + (2 * r + a % 2);
    DivModOf(q, 2 * r + a % 2, 2 * p);
  }

  /** Shifting right by n is dividing by 2^n. */
  lemma {:induction false} ShiftIsQuotient(px: nat, n: nat)
    ensures ShiftRight(px, n) == px / Pow2(n)
  {
    if n > 0 {
      ShiftIsQuotient(px / 2, n - 1);
      DivTwice(px, 2, Pow2(n - 1));
    }
  }

  /** The part of the pixel value that a channel of k bits at the given shift occupies. */
  function Field(px: nat, shift: nat, k: nat): (v: nat)
    ensures v < Pow2(k)
  {
    px / Pow2(shift) % Pow2(k)
  }

  lemma ChannelOfField(px: nat, shift: nat, k: nat)
    requires 1 <= k <= 8
    ensures Field(px, shift, k) < 256
    ensures Channel(px, shift, Pow2(k) - 1) == ScaleColor(Field(px, shift, k), Pow2(k) - 1)
  {
    hide BitAnd, ShiftRight, ScaleColor, Pow2;
    ShiftIsQuotient(px, shift);
    MaskIsRemainder(ShiftRight(px, shift), k);
    MaskBounds(k);
  }

  /**
   * For a true-colour format whose masks are 2^k - 1 (k <= 8) a channel is a field of k bits of the
   * pixel value, stretched so that the darkest value is 0 and the brightest 255, with no truncation.
   */
  lemma ChannelIsScaledField(px: nat, shift: nat, k: nat)
    requires 1 <= k <= 8
    ensures Pow2(k) >= 2
    ensures Channel(px, shift, Pow2(k) - 1) == Field(px, shift, k) * 255 / (Pow2(k) - 1)
    ensures Field(px, shift, k) == Pow2(k) - 1 ==> Channel(px, shift, Pow2(k) - 1) == 255
  {
    hide Channel, ScaleColor, Pow2, Field;
    MaskBounds(k);
    ChannelOfField(px, shift, k);
    ScaleIsStretch(Field(px, shift, k), Pow2(k) - 1);
  }

  lemma ScaleIsStretch(v: nat, m: nat)
    requires v <= m && 1 <= m <= 255
    ensures ScaleColor(v, m) == v * 255 / m
    ensures v == m ==> ScaleColor(v, m) == 255
  {
    ScaleInRange(v, m);
  }

  lemma MaskBounds(k: nat)
    requires 1 <= k <= 8
    ensures 1 <= Pow2(k) - 1 <= 255
  {
    assert Pow2(3) == 8 && Pow2(6) == 8 * Pow2(3);
  }

  lemma ScaleInRange(v: nat, m: nat)
    requires v <= m && 1 <= m <= 255
    ensures 0 <= v * 255 / m <= 255
    ensures v == m ==> v * 255 / m == 255
  {
    if v == m {
      DivModOf(255, 0, m);
    } else {
      var q, r := v * 255 / m, v * 255 % m;
      assert v * 255 == q * m + r;
      assert 255 * m == v * 255 + (m - v) * 255;
      RasterOrder(q, r, 256, 0, m);
    }
  }

  // ----- Which bytes and which bits make up a colour -----

  lemma ByteAbove(n: nat, b: Byte, i: nat)
    requires i > 0
    ensures (n * 256 + b) / Pow2(8 * i) == n / Pow2(8 * (i - 1))
  {
    hide Pow2;
    Pow2Plus8(8 * (i - 1));
    DivTwice(n * 256 + b, 256, Pow2(8 * (i - 1)));
    assert (n * 256 + b) / 256 == n;
  }

  lemma {:induction false} BigEndianByte(data: seq<Byte>, i: nat)
    requires i < |data|
    ensures BigEndian(data) / Pow2(8 * i) % 256 == data[|data| - 1 - i]
  {
    hide Pow2;
    var n := |data| - 1;
    var front := BigEndian(data[..n]);
    assert BigEndian(data) == front * 256 + data[n];
    if i == 0 {
      assert Pow2(8 * 0) == 1 by { Pow2OfZero(); }
      assert BigEndian(data) / 1 == BigEndian(data);
    } else {
      ByteAbove(front, data[n], i);
      BigEndianByte(data[..n], i - 1);
    }
  }

  lemma Pow2OfZero()
    ensures Pow2(0) == 1
  {
  }

  /** The byte order: byte i of the pixel value, from the lowest, is byte i of the data or byte i from its end. */
  lemma WordBytes(f: Format, data: seq<Byte>, i: nat)
    requires i < |data|
    ensures Word(f, data) / Pow2(8 * i) % 256 == data[if f.bigEnd then |data| - 1 - i else i]
    ensures Word(f, data) < Pow2(8 * |data|)
  {
    hide Pow2, BigEndian;
    var ordered := if f.bigEnd then data else Reverse(data);
    BigEndianByte(ordered, i);
    BigEndianBound(ordered);
  }

  /** Two numbers of n bytes with the same bytes are the same. */
  lemma {:induction false} BytesDetermine(x: nat, y: nat, n: nat)
    requires x < Pow2(8 * n) && y < Pow2(8 * n)
    requires forall i :: 0 <= i < n ==> x / Pow2(8 * i) % 256 == y / Pow2(8 * i) % 256
    ensures x == y
  {
    Pow2OfZero();
    if n > 0 {
      hide Pow2;
      Pow2Plus8(8 * (n - 1));
      assert x / Pow2(8 * 0) % 256 == y / Pow2(8 * 0) % 256;
      assert x == x / 256 * 256 + x % 256 && y == y / 256 * 256 + y % 256;
      forall i | 0 <= i < n - 1 ensures x / 256 / Pow2(8 * i) % 256 == y / 256 / Pow2(8 * i) % 256 {
        ByteAbove(x / 256, x % 256, i + 1);
        ByteAbove(y / 256, y % 256, i + 1);
        assert x / Pow2(8 * (i + 1)) % 256 == y / Pow2(8 * (i + 1)) % 256;
      }
      BytesDetermine(x / 256, y / 256, n - 1);
    }
  }

  /** px is the number whose bytes, from the lowest, are the data in the byte order of the format. */
  predicate ReadsAs(f: Format, data: seq<Byte>, px: nat) {
    && px < Pow2(8 * |data|)
    && forall i :: 0 <= i < |data| ==> px / Pow2(8 * i) % 256 == data[if f.bigEnd then |data| - 1 - i else i]
  }

  /**
   * What a group of bytes decodes to, for masks of 1 to 8 ones: red, green and blue are the bits of the
   * pixel value at their own shifts, stretched onto 0..255, and the pixel is opaque.
   */
  lemma DecodeMeans(f: Format, data: seq<Byte>, px: nat, kr: nat, kg: nat, kb: nat)
    requires ReadsAs(f, data, px)
    requires 1 <= kr <= 8 && 1 <= kg <= 8 && 1 <= kb <= 8
    requires f.rMax == Pow2(kr) - 1 && f.gMax == Pow2(kg) - 1 && f.bMax == Pow2(kb) - 1
    ensures Pow2(kr) > 1 && Pow2(kg) > 1 && Pow2(kb) > 1
    ensures Decode(f, data).r == px / Pow2(f.rShift) % Pow2(kr) * 255 / (Pow2(kr) - 1)
    ensures Decode(f, data).g == px / Pow2(f.gShift) % Pow2(kg) * 255 / (Pow2(kg) - 1)
    ensures Decode(f, data).b == px / Pow2(f.bShift) % Pow2(kb) * 255 / (Pow2(kb) - 1)
    ensures Decode(f, data).a == 255
  {
    hide Pow2, Word, Channel;
    WordReadsAs(f, data);
    BytesDetermine(px, Word(f, data), |data|);
    ChannelIsScaledField(px, f.rShift, kr);
    ChannelIsScaledField(px, f.gShift, kg);
    ChannelIsScaledField(px, f.bShift, kb);
  }

  /** There is such a pixel value for any data. */
  lemma WordReadsAs(f: Format, data: seq<Byte>)
    ensures ReadsAs(f, data, Word(f, data))
  {
    hide Pow2, Word;
    forall i | 0 <= i < |data|
      ensures Word(f, data) / Pow2(8 * i) % 256 == data[if f.bigEnd then |data| - 1 - i else i]
    {
      WordBytes(f, data, i);
    }
    if |data| > 0 {
      WordBytes(f, data, 0);
    } else {
      EmptyWord(f);
    }
  }

  lemma EmptyWord(f: Format)
    ensures Word(f, []) == 0 && Pow2(8 * 0) == 1
  {
  }

  /** The usual format, red in the third byte: the bytes of a pixel are blue, green, red and padding. */
  lemma UsualFormat(r: Byte, g: Byte, b: Byte, pad: Byte)
    ensures Decode(FormatData(4, false, 16, 8, 0, 255, 255, 255), [b, g, r, pad]) == Color(r, g, b, 255)
    ensures Decode(FormatData(4, true, 16, 8, 0, 255, 255, 255), [pad, r, g, b]) == Color(r, g, b, 255)
  {
    var px := FourBytes(r, g, b, pad);
    UsualDecode(false, [b, g, r, pad], px, r, g, b, pad);
    UsualDecode(true, [pad, r, g, b], px, r, g, b, pad);
  }

  lemma FourBytes(r: Byte, g: Byte, b: Byte, pad: Byte) returns (px: nat)
    ensures px < 0x1_0000_0000 && px % 256 == b && px / 0x100 % 256 == g
    ensures px / 0x1_0000 % 256 == r && px / 0x100_0000 % 256 == pad
  {
    px := ((pad * 256 + r) * 256 + g) * 256 + b;
    assert px / 0x100 == (pad * 256 + r) * 256 + g;
    assert px / 0x1_0000 == pad * 256 + r;
    assert px / 0x100_0000 == pad;
  }

  lemma UsualReadsAs(f: Format, data: seq<Byte>, px: nat)
    requires |data| == 4 && px < 0x1_0000_0000
    requires px % 256 == data[if f.bigEnd then 3 else 0] && px / 0x100 % 256 == data[if f.bigEnd then 2 else 1]
    requires px / 0x1_0000 % 256 == data[if f.bigEnd then 1 else 2]
    requires px / 0x100_0000 % 256 == data[if f.bigEnd then 0 else 3]
    ensures ReadsAs(f, data, px)
  {
    PowersOfEight();
    hide Pow2;
    forall i | 0 <= i < 4 ensures px / Pow2(8 * i) % 256 == data[if f.bigEnd then 3 - i else i] {
      assert Pow2(8 * i) == (if i == 0 then 1 else if i == 1 then 0x100 else if i == 2 then 0x1_0000 else 0x100_0000);
    }
  }

  lemma TimesOver(x: nat)
    ensures x * 255 / 255 == x
  {
    DivModOf(x, 0, 255);
  }

  lemma UsualDecode(bigEnd: bool, data: seq<Byte>, px: nat, r: Byte, g: Byte, b: Byte, pad: Byte)
    requires data == if bigEnd then [pad, r, g, b] else [b, g, r, pad]
    requires px < 0x1_0000_0000 && px % 256 == b && px / 0x100 % 256 == g
    requires px / 0x1_0000 % 256 == r && px / 0x100_0000 % 256 == pad
    ensures Decode(FormatData(4, bigEnd, 16, 8, 0, 255, 255, 255), data) == Color(r, g, b, 255)
  {
    var f: Format := FormatData(4, bigEnd, 16, 8, 0, 255, 255, 255);
    UsualReadsAs(f, data, px);
    PowersOfEight();
    hide Pow2, Decode, ReadsAs;
    DecodeMeans(f, data, px, 8, 8, 8);
    var c := Decode(f, data);
    assert c.r == px / 0x1_0000 % 256 * 255 / 255 && c.g == px / 0x100 % 256 * 255 / 255;
    assert c.b == px / 1 % 256 * 255 / 255;
    TimesOver(r);
    TimesOver(g);
    TimesOver(b);
  }

  lemma PowersOfEight()
    ensures Pow2(0) == 1 && Pow2(8) == 256 && Pow2(16) == 0x1_0000 && Pow2(24) == 0x100_0000
    ensures Pow2(32) == 0x1_0000_0000
  {
    Pow2Plus8(0);
    Pow2Plus8(8);
    Pow2Plus8(16);
    Pow2Plus8(24);
  }
}
