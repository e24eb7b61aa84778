/** The RFB client: it decodes rectangles from the byte stream into its framebuffer, in place. */
module VncClient {
  import opened Arith
  import opened Options
  import opened PixelFormat
  import opened Raster
  import opened Hextile
  import Rle

  /** The framebuffer bytes as pixels. */
  function Pixels(bytes: seq<Byte>): (img: Image)
    ensures |img| == |bytes| / 4
  {
    seq(|bytes| / 4, k requires 0 <= k < |bytes| / 4 =>
      Color(bytes[4 * k], bytes[4 * k + 1], bytes[4 * k + 2], bytes[4 * k + 3]))
  }

  /** Four bytes per pixel lose nothing: the pixels determine the buffer. */
  lemma PixelsDetermineBytes(a: seq<Byte>, b: seq<Byte>)
    requires |a| == |b| && |a| % 4 == 0 && Pixels(a) == Pixels(b)
    ensures a == b
  {
    forall i | 0 <= i < |a| ensures a[i] == b[i] {
      var k := i / 4;
      assert Pixels(a)[k] == Pixels(b)[k];
      assert i == 4 * k || i == 4 * k + 1 || i == 4 * k + 2 || i == 4 * k + 3;
    }
  }

  class Client {
    const width: nat
    const height: nat
    const format: Format
    const fb: array<Byte>
    var input: seq<Byte>  // what the server has sent and the client has not read

    ghost predicate Valid()
    {
      fb.Length == 4 * (width * height)
    }

    ghost function Picture(): (img: Image)
      requires Valid()
      reads fb
      ensures |img| == width * height
    {
      Pixels(fb[..])
    }

    constructor (width: nat, height: nat, format: Format, input: seq<Byte>)
      ensures Valid() && this.width == width && this.height == height && this.format == format
      ensures this.input == input && fresh(fb)
      ensures forall k :: 0 <= k < width * height ==> Picture()[k] == Color(0, 0, 0, 0)
    {
      this.width, this.height, this.format, this.input := width, height, format, input;
      MulNonNegative(width, height);
      fb := new Byte[4 * (width * height)](_ => 0);
    }

    /** ReadFull: all of the next n bytes, or an error if the stream ends before. */
    method ReadFull(n: nat) returns (out: Option<seq<Byte>>)
      modifies `input
      ensures out.Some? <==> |old(input)| >= n
      ensures out.Some? ==> out.value == old(input)[..n] && input == old(input)[n..]
    {
      if |input| < n {
        input := [];
        return None;
      }
      out := Some(input[..n]);
      input := input[n..];
    }

    /** decodePixel, with the byte loop in the order that the format asks for. */
    method DecodePixel(data: seq<Byte>) returns (c: Color)
      requires |data| == format.bpp
      ensures c == Decode(format, data)
    {
      var px := 0;
      if format.bigEnd {
        for i := 0 to |data|
          invariant px == BigEndian(data[..i])
        {
          assert data[..i + 1][..i] == data[..i];
          BigEndianBound(data[..i]);
          px := Shifted(px, data[i], i);
        }
        assert data[..|data|] == data;
      } else {
        var i := |data|;
        while i > 0
          invariant 0 <= i <= |data| && px == BigEndian(Reverse(data)[..|data| - i])
        {
          i := i - 1;
          var n := |data| - i;
          assert Reverse(data)[..n][..n - 1] == Reverse(data)[..n - 1];
          BigEndianBound(Reverse(data)[..n - 1]);
          px := Shifted(px, data[i], n - 1);
        }
        assert Reverse(data)[..|data|] == Reverse(data);
      }
      c := Color(Channel(px, format.rShift, format.rMax), Channel(px, format.gShift, format.gMax),
                 Channel(px, format.bShift, format.bMax), 255);
    }

    /** (px << 8) | b in 32 bits; at most three bytes went before, so no bit is shifted out. */
    function Shifted(px: nat, b: Byte, i: nat): (v: nat)
      requires i < 4 && px < Pow2(8 * i)
      ensures v == px * 256 + b
    {
      Pow2At24(i);
      (px * 256) % 0x1_0000_0000 + b
    }

    lemma Pow2At24(i: nat)
      requires i < 4
      ensures Pow2(8 * i) * 256 <= 0x1_0000_0000
    {
      Pow2Plus8(0);
      Pow2Plus8(8);
      Pow2Plus8(16);
    }

    /** Writes one pixel at pixel index k, that is at byte offset 4 * k. */
    method SetPixel(k: nat, c: Color)
      requires Valid() && k < width * height
      modifies fb
      ensures Picture() == old(Picture())[k := c]
      ensures fb[4 * k] == c.r && fb[4 * k + 1] == c.g && fb[4 * k + 2] == c.b && fb[4 * k + 3] == c.a
    {
      var off := k * 4;
      fb[off], fb[off + 1], fb[off + 2], fb[off + 3] := c.r, c.g, c.b, c.a;
    }

    /** Paints the pixel of a rectangle that comes next in raster order. */
    method PaintNext(r: Rect, xx: nat, yy: nat, c: Color, ghost base: Image, ghost cols: seq<Color>)
      requires Valid() && Inside(r, width, height) && xx < r.w && yy < r.h
      requires |base| == width * height && |cols| == yy * r.w + xx
      requires Picture() == Paint(base, width, r, cols)
      modifies fb
      ensures Picture() == Paint(base, width, r, cols + [c])
    {
      IndexBelow(yy, xx, r.w, r.h);
      PaintOneMore(base, width, height, r, cols, c);
      DivModOf(yy, xx, r.w);
      SetPixel((r.y + yy) * width + (r.x + xx), c);
    }

    method FillSolid(r: Rect, color: seq<Byte>)
      requires Valid() && Inside(r, width, height) && |color| == format.bpp
      modifies fb
      ensures Picture() == Paint(old(Picture()), width, r, Repeat(Decode(format, color), r.w * r.h))
    {
      var c := DecodePixel(color);
      ghost var base, n := Picture(), 0;
      PaintNothing(base, width, r);
      for yy := 0 to r.h
        invariant n == Strides(yy, r.w)
        invariant Picture() == Paint(base, width, r, Repeat(c, n))
      {
        FillSolidRow(r, yy, c, base, n);
        n := n + r.w;
      }
      StridesIsProduct(r.h, r.w);
    }

    /** The inner loop of fillSolid. */
    method FillSolidRow(r: Rect, yy: nat, c: Color, ghost base: Image, ghost n: nat)
      requires Valid() && Inside(r, width, height) && yy < r.h && n == Strides(yy, r.w)
      requires |base| == width * height && Picture() == Paint(base, width, r, Repeat(c, n))
      modifies fb
      ensures Picture() == Paint(base, width, r, Repeat(c, n + r.w))
    {
      StridesIsProduct(yy, r.w);
      for xx := 0 to r.w
        invariant Picture() == Paint(base, width, r, Repeat(c, n + xx))
      {
        PaintNext(r, xx, yy, c, base, Repeat(c, n + xx));
        assert Repeat(c, n + xx) + [c] == Repeat(c, n + xx + 1);
      }
    }

    method FillRaw(r: Rect, data: seq<Byte>)
      requires Valid() && Inside(r, width, height) && |data| == r.w * r.h * format.bpp
      modifies fb
      ensures Picture() == Paint(old(Picture()), width, r, DecodeAll(CodecOf(format), data))
    {
      hide DecodeAll, Decode, Paint, Inside, Picture;
      var idx := 0;
      ghost var k := CodecOf(format);
      ghost var base, all, n := Picture(), DecodeAll(k, data), 0;
      DecodeAllLength(k, data, r.w * r.h);
      PaintNothing(base, width, r);
      for yy := 0 to r.h
        invariant n == Strides(yy, r.w) && n <= |all| && idx == Strides(n, format.bpp)
        invariant Picture() == Paint(base, width, r, all[..n])
      {
        StrideInside(yy, r.w, r.h);
        idx := FillRawRow(r, yy, data, idx, base, n, all);
        n := n + r.w;
      }
      StridesIsProduct(r.h, r.w);
      assert all[..n] == all;
    }

    lemma PrefixGrows(all: seq<Color>, n: nat)
      requires n < |all|
      ensures all[..n] + [all[n]] == all[..n + 1]
    {
    }

    /** The inner loop of fillRaw. */
    method FillRawRow(
        r: Rect, yy: nat, data: seq<Byte>, start: nat, ghost base: Image, ghost n: nat, ghost all: seq<Color>)
      returns (idx: nat)
      requires Valid() && Inside(r, width, height) && |data| == r.w * r.h * format.bpp
      requires yy < r.h && n == Strides(yy, r.w) && n + r.w <= |all| == r.w * r.h
      requires start == Strides(n, format.bpp) && all == DecodeAll(CodecOf(format), data)
      requires |base| == width * height && Picture() == Paint(base, width, r, all[..n])
      modifies fb
      ensures idx == Strides(n + r.w, format.bpp)
      ensures Picture() == Paint(base, width, r, all[..n + r.w])
    {
      hide DecodeAll, Decode, Paint, Inside;
      idx := start;
      for xx := 0 to r.w
        invariant idx == Strides(n + xx, format.bpp)
        invariant Picture() == Paint(base, width, r, all[..n + xx])
      {
        GroupDecoded(CodecOf(format), data, n + xx, r.w * r.h, idx);
        var c := DecodePixel(data[idx..idx + format.bpp]);
        idx := idx + format.bpp;
        StridesIsProduct(yy, r.w);
        PaintNext(r, xx, yy, c, base, all[..n + xx]);
        PrefixGrows(all, n + xx);
      }
    }

    method CopyRect(r: Rect, sx: nat, sy: nat)
      requires Valid() && Inside(r, width, height) && Inside(Rect(sx, sy, r.w, r.h), width, height)
      modifies fb
      ensures Picture() == CopySteps(old(Picture()), width, height, r, sx, sy, r.w * r.h)
      ensures CopySafe(r, sx, sy) ==> Picture() == CopyAtOnce(old(Picture()), width, height, r, sx, sy)
    {
      ghost var base, n := Picture(), 0;
      for yy := 0 to r.h
        invariant n == Strides(yy, r.w) && n <= r.w * r.h
        invariant Picture() == CopySteps(base, width, height, r, sx, sy, n)
      {
        StrideInside(yy, r.w, r.h);
        CopyRow(r, sx, sy, yy, base, n);
        n := n + r.w;
      }
      StridesIsProduct(r.h, r.w);
      SafeCopyIsAtOnce(base, width, height, r, sx, sy);
    }

    /** The inner loop of copyRect. */
    method CopyRow(r: Rect, sx: nat, sy: nat, yy: nat, ghost base: Image, ghost n: nat)
      requires Valid() && Inside(r, width, height) && Inside(Rect(sx, sy, r.w, r.h), width, height)
      requires yy < r.h && n == Strides(yy, r.w) && n + r.w <= r.w * r.h
      requires |base| == width * height && Picture() == CopySteps(base, width, height, r, sx, sy, n)
      modifies fb
      ensures Picture() == CopySteps(base, width, height, r, sx, sy, n + r.w)
    {
      StridesIsProduct(yy, r.w);
      for xx := 0 to r.w
        invariant Picture() == CopySteps(base, width, height, r, sx, sy, n + xx)
      {
        CopyPixel(r, sx, sy, xx, yy, base, n + xx);
      }
    }

    /** One step of the copy. */
    method CopyPixel(r: Rect, sx: nat, sy: nat, xx: nat, yy: nat, ghost base: Image, ghost n: nat)
      requires Valid() && Inside(r, width, height) && Inside(Rect(sx, sy, r.w, r.h), width, height)
      requires xx < r.w && yy < r.h && n == yy * r.w + xx < r.w * r.h
      requires |base| == width * height && Picture() == CopySteps(base, width, height, r, sx, sy, n)
      modifies fb
      ensures Picture() == CopySteps(base, width, height, r, sx, sy, n + 1)
    {
      DivModOf(yy, xx, r.w);
      AtIsCovered(r, width, height, n);
      AtIsCovered(Rect(sx, sy, r.w, r.h), width, height, n);
      var src, dst := (sy + yy) * width + (sx + xx), (r.y + yy) * width + (r.x + xx);
      var c := Color(fb[4 * src], fb[4 * src + 1], fb[4 * src + 2], fb[4 * src + 3]);
      assert c == Picture()[src];
      SetPixel(dst, c);
    }

    // ----- Hextile -----

    ghost predicate CarryOk(c: Carry) {
      (c.bg == [] || |c.bg| == format.bpp) && (c.fg == [] || |c.fg| == format.bpp)
    }

    /** One subrectangle record of the tile that occupies `tile`. */
    method ReadSub(tile: Rect, coloured: bool, fg: seq<Byte>) returns (ok: bool, ghost sub: Sub)
      requires Valid() && Inside(tile, width, height) && (fg == [] || |fg| == format.bpp)
      modifies fb, `input
      ensures ParseSub(CodecOf(format), old(input), coloured, fg, Size(tile.w, tile.h))
           == if ok then Some((sub, input)) else None
      ensures !ok ==> Picture() == old(Picture())
      ensures ok ==> Fits(sub, tile.w, tile.h)
      ensures ok ==>
        Picture() == Paint(old(Picture()), width, SubRect(tile, sub), SubColors(sub))
    {
      var color := fg;
      if coloured {
        var given := ReadFull(format.bpp);
        if given.None? { return false, NO_SUB; }
        color := given.value;
      }
      var pos := ReadFull(1);
      if pos.None? { return false, NO_SUB; }
      var size := ReadFull(1);
      if size.None? { return false, NO_SUB; }
      sub := ClipSub(CodecOf(format), pos.value[0], size.value[0], color, Size(tile.w, tile.h));
      DrawSub(tile, color, pos.value[0], size.value[0]);
      return true, sub;
    }

    /** Clips a subrectangle to its tile and fills it if anything is left and a colour is known. */
    method DrawSub(tile: Rect, color: seq<Byte>, pos: Byte, size: Byte)
      requires Valid() && Inside(tile, width, height) && (color == [] || |color| == format.bpp)
      modifies fb
      ensures var sub := ClipSub(CodecOf(format), pos, size, color, Size(tile.w, tile.h));
        Picture() == Paint(old(Picture()), width, SubRect(tile, sub), SubColors(sub))
    {
      hide Decode, Paint;
      var sx, sy := pos / 16 % 16, pos % 16;
      var sw, sh := size / 16 % 16 + 1, size % 16 + 1;
      if sx + sw > tile.w { sw := tile.w - sx; }
      if sy + sh > tile.h { sh := tile.h - sy; }
      ghost var sub := ClipSub(CodecOf(format), pos, size, color, Size(tile.w, tile.h));
      if |color| > 0 && sw > 0 && sh > 0 {
        assert sub == Sub(sx, sy, sw, sh, Decode(format, color));
        hide ClipSub, Repeat, Picture;
        FillSolid(Rect(tile.x + sx, tile.y + sy, sw, sh), color);
      } else {
        assert sub == NO_SUB;
        hide ClipSub, Repeat, Picture;
        PaintNothing(Picture(), width, SubRect(tile, sub));
        assert SubColors(sub) == [];
      }
    }

    /** The n subrectangles of a tile whose background has been painted. */
    method ReadSubs(tile: Rect, n: nat, coloured: bool, fg: seq<Byte>, ghost base: Image, ghost bg: Option<Color>)
      returns (ok: bool, ghost subs: seq<Sub>)
      requires Valid() && Inside(tile, width, height) && (fg == [] || |fg| == format.bpp)
      requires |base| == width * height && Picture() == PaintTile(base, width, tile, PlainTile(bg, []))
      modifies fb, `input
      ensures Chain(SubStep(CodecOf(format), coloured, fg), old(input), (), Repeat(Size(tile.w, tile.h), n))
           == if ok then Some((subs, (), input)) else None
      ensures Picture() == PaintTile(base, width, tile, PlainTile(bg, subs))
    {
      hide Chain, SubStep, Repeat, ParseSub, PaintTile, Paint, CodecOf;
      ghost var k, z, s := CodecOf(format), Size(tile.w, tile.h), input;
      subs := [];
      var i := 0;
      NoSubsRead(k, coloured, fg, s, z);
      while i < n
        invariant 0 <= i <= n
        invariant Chain(SubStep(k, coloured, fg), s, (), Repeat(z, i)) == Some((subs, (), input))
        invariant Picture() == PaintTile(base, width, tile, PlainTile(bg, subs))
      {
        OneMoreSubRead(k, coloured, fg, s, z, i, n, subs, input);
        ghost var sub;
        ok, sub := ReadSub(tile, coloured, fg);
        if !ok { return; }
        PaintOneMoreSub(base, width, tile, bg, subs, sub);
        subs := subs + [sub];
        i := i + 1;
      }
      ok := true;
    }

    /** Everything outside a rectangle is as it was. */
    ghost predicate SameOutside(a: Image, b: Image, r: Rect)
      requires |a| == |b|
    {
      forall k: nat :: k < |a| && !Covers(r, width, k) ==> a[k] == b[k]
    }

    /** One tile: its flag byte, then raw pixels or a background, a foreground and subrectangles. */
    method ReadTile(tile: Rect, c: Carry) returns (ok: bool, c': Carry, ghost t: Tile)
      requires Valid() && Inside(tile, width, height) && CarryOk(c)
      modifies fb, `input
      ensures ParseTile(CodecOf(format), old(input), c, Size(tile.w, tile.h))
           == if ok then Some((t, c', input)) else None
      ensures CarryOk(c')
      ensures ok ==> Picture() == PaintTile(old(Picture()), width, tile, t)
      ensures SameOutside(old(Picture()), Picture(), tile)
    {
      c', t := c, RawTile([]);
      var sub := ReadFull(1);
      if sub.None? { return false, c', t; }
      var flag := sub.value[0];
      if Raw(flag) {
        var data := ReadFull(tile.w * tile.h * format.bpp);
        if data.None? { return false, c', t; }
        t := RawTile(DecodeAll(CodecOf(format), data.value));
        DecodeAllLength(CodecOf(format), data.value, tile.w * tile.h);
        PaintRawTile(Picture(), width, tile, t.pixels);
        FillRaw(tile, data.value);
        return true, c', t;
      }
      ok, c', t := ReadPlain(tile, c, BackgroundSpecified(flag), ForegroundSpecified(flag),
                             AnySubrects(flag), SubrectsColoured(flag));
    }

    /** The part of the loop body for a tile that is not raw. */
    method ReadPlain(tile: Rect, c: Carry, hasBg: bool, hasFg: bool, hasSubs: bool, coloured: bool)
      returns (ok: bool, c': Carry, ghost t: Tile)
      requires Valid() && Inside(tile, width, height) && CarryOk(c)
      modifies fb, `input
      ensures ParsePlain(CodecOf(format), hasBg, hasFg, hasSubs, coloured, old(input), c, Size(tile.w, tile.h))
           == if ok then Some((t, c', input)) else None
      ensures CarryOk(c')
      ensures ok ==> Picture() == PaintTile(old(Picture()), width, tile, t)
      ensures SameOutside(old(Picture()), Picture(), tile)
    {
      hide Chain, SubStep, Repeat, Paint;
      c', t := c, RawTile([]);
      ghost var base := Picture();
      if hasBg {
        var bg := ReadFull(format.bpp);
        if bg.None? { return false, c', t; }
        c' := c'.(bg := bg.value);
      }
      ghost var background := if |c'.bg| > 0 then Some(CodecOf(format).decode(c'.bg)) else None;
      PaintBackground(base, width, tile, background);
      if |c'.bg| > 0 {
        FillSolid(tile, c'.bg);
      }
      t := PlainTile(background, []);
      if hasFg {
        var fg := ReadFull(format.bpp);
        if fg.None? { return false, c', t; }
        c' := c'.(fg := fg.value);
      }
      if hasSubs {
        var nb := ReadFull(1);
        if nb.None? { return false, c', t; }
        ghost var subs;
        ok, subs := ReadSubs(tile, nb.value[0], coloured, c'.fg, base, background);
        return ok, c', PlainTile(background, subs);
      }
      return true, c', t;
    }

    /** readHextile: all tiles of a rectangle, row by row. */
    method ReadHextile(r: Rect) returns (ok: bool, ghost tiles: seq<Tile>)
      requires Valid() && Inside(r, width, height)
      modifies fb, `input
      ensures ok <==> ParseTiles(CodecOf(format), old(input), TileSizes(r)).Some?
      ensures ok ==>
        var (tiles, _, rest) := ParseTiles(CodecOf(format), old(input), TileSizes(r)).value;
        input == rest && Picture() == HexImage(old(Picture()), width, r, tiles)
      ensures SameOutside(old(Picture()), Picture(), r)
    {
      hide ParseTiles, CodecOf, HexImage, SameOutside, TileRect, Picture, TileSizes, Inside;
      var c := NO_CARRY;
      ghost var base, s, sizes, row := Picture(), input, TileSizes(r), 0;
      tiles := [];
      NoTilesYet(base, s, r);
      AllTiles(r);
      var ty := 0;
      while ty < r.h
        invariant ty == 16 * row && row <= Columns(r.h) && |tiles| == Strides(row, Columns(r.w)) <= |sizes|
        invariant CarryOk(c)
        invariant ParseTiles(CodecOf(format), s, sizes[..|tiles|]) == Some((tiles, c, input))
        invariant Picture() == HexImage(base, width, r, tiles)
        decreases r.h - ty
      {
        StrideInside(row, Columns(r.w), Columns(r.h));
        ok, c, tiles := ReadTileRow(r, ty, row, c, base, s, sizes, tiles);
        if !ok { return; }
        row := row + 1;
        ty := ty + 16;
      }
      assert sizes[..|tiles|] == sizes;
      HexImageOutside(base, r, tiles);
      ok := true;
    }

    lemma AllTiles(r: Rect)
      ensures |TileSizes(r)| == TileCount(r.w, r.h) == Columns(r.h) * Columns(r.w)
      ensures Strides(Columns(r.h), Columns(r.w)) == |TileSizes(r)|
    {
      StridesIsProduct(Columns(r.h), Columns(r.w));
    }

    /** Before the first tile nothing is read and nothing painted. */
    lemma NoTilesYet(base: Image, s: seq<Byte>, r: Rect)
      ensures ParseTiles(CodecOf(format), s, TileSizes(r)[..0]) == Some(([], NO_CARRY, s))
      ensures HexImage(base, width, r, []) == base && SameOutside(base, base, r)
    {
    }

    /** Painting tiles of a rectangle changes nothing outside of it. */
    lemma HexImageOutside(base: Image, r: Rect, tiles: seq<Tile>)
      requires |tiles| <= TileCount(r.w, r.h)
      ensures SameOutside(base, HexImage(base, width, r, tiles), r)
    {
    }

    /** The inner loop of readHextile: the tiles of one row. */
    method ReadTileRow(r: Rect, ty: nat, ghost row: nat, c: Carry,
                       ghost base: Image, ghost s: seq<Byte>, ghost sizes: seq<Size>, ghost before: seq<Tile>)
      returns (ok: bool, c': Carry, ghost tiles: seq<Tile>)
      requires Valid() && Inside(r, width, height) && sizes == TileSizes(r) && |base| == width * height
      requires ty < r.h && ty == 16 * row && CarryOk(c)
      requires |before| == Strides(row, Columns(r.w)) && |before| + Columns(r.w) <= |sizes|
      requires ParseTiles(CodecOf(format), s, sizes[..|before|]) == Some((before, c, input))
      requires Picture() == HexImage(base, width, r, before)
      modifies fb, `input
      ensures !ok ==> ParseTiles(CodecOf(format), s, sizes).None?
      ensures ok ==>
        && CarryOk(c') && |tiles| == |before| + Columns(r.w)
        && ParseTiles(CodecOf(format), s, sizes[..|tiles|]) == Some((tiles, c', input))
        && Picture() == HexImage(base, width, r, tiles)
      ensures SameOutside(base, Picture(), r)
    {
      hide ParseTile, ParseTiles, CodecOf, HexImage, PaintTile, SameOutside, TileRect, Picture;
      c', tiles := c, before;
      ghost var col := 0;
      var tx := 0;
      while tx < r.w
        invariant tx == 16 * col && col <= Columns(r.w) && CarryOk(c')
        invariant |tiles| == |before| + col
        invariant ParseTiles(CodecOf(format), s, sizes[..|tiles|]) == Some((tiles, c', input))
        invariant Picture() == HexImage(base, width, r, tiles)
        decreases r.w - tx
      {
        var tw, th := 16, 16;
        if tx + tw > r.w { tw := r.w - tx; }
        if ty + th > r.h { th := r.h - ty; }
        ghost var t := |tiles|;
        TileAt(r, col, row, t);
        OneMoreTile(CodecOf(format), s, sizes, t, tiles, c', input);
        ghost var tile;
        ok, c', tile := ReadTile(Rect(r.x + tx, r.y + ty, tw, th), c');
        InnerOutside(base, Picture(), r, tiles, t);
        if !ok { return; }
        HexImageOneMore(base, width, r, tiles, tile);
        tiles := tiles + [tile];
        col := col + 1;
        tx := tx + 16;
      }
      HexImageOutside(base, r, tiles);
      ok := true;
    }

    /** The loop's corner is that of tile number t. */
    lemma TileAt(r: Rect, col: nat, row: nat, t: nat)
      requires 16 * col < r.w && 16 * row < r.h && t < TileCount(r.w, r.h)
      requires t == Strides(row, Columns(r.w)) + col
      ensures TileRect(r, t)
           == Rect(r.x + 16 * col, r.y + 16 * row, Least(16, r.w - 16 * col), Least(16, r.h - 16 * row))
      ensures TileSizes(r)[t] == Size(Least(16, r.w - 16 * col), Least(16, r.h - 16 * row))
    {
      StridesIsProduct(row, Columns(r.w));
      DivModOf(row, col, Columns(r.w));
    }

    /** What changed only inside a tile changed only inside the rectangle. */
    lemma InnerOutside(base: Image, after: Image, r: Rect, tiles: seq<Tile>, t: nat)
      requires |base| == |after| && t < TileCount(r.w, r.h) && |tiles| <= TileCount(r.w, r.h)
      requires SameOutside(HexImage(base, width, r, tiles), after, TileRect(r, t))
      ensures SameOutside(base, after, r)
    {
      forall k: nat | k < |base| && !Covers(r, width, k) ensures base[k] == after[k] {
        TilesPartition(r, width, k, t);
        assert HexImage(base, width, r, tiles)[k] == base[k];
      }
    }

    // ----- Plain RLE tiles of ZRLE -----

    /** One run: a colour, then length bytes up to the first that is not 255. */
    method ReadRun() returns (ok: bool, color: seq<Byte>, run: nat)
      requires Valid()
      modifies `input
      ensures ok <==> Rle.ParseRun(CodecOf(format), old(input)).Some?
      ensures ok ==>
        && |color| == format.bpp && run >= 1 && |input| < |old(input)|
        && Rle.ParseRun(CodecOf(format), old(input)) == Some((Rle.Run(CodecOf(format).decode(color), run), input))
    {
      color, run := [], 1;
      var c := ReadFull(format.bpp);
      if c.None? { return false, color, run; }
      color := c.value;
      ghost var s := input;
      while true
        invariant run >= 1 && |input| <= |s|
        invariant Rle.ParseLength(s) ==
          (var more := Rle.ParseLength(input);
           if more.None? then None else Some((run - 1 + more.value.0, more.value.1)))
        decreases |input|
      {
        var b := ReadFull(1);
        if b.None? { return false, color, run; }
        run := run + b.value[0];
        if b.value[0] != 255 { return true, color, run; }
      }
    }

    /**
     * Where row and column stand once n pixels are counted. The column goes back to 0 only
     * when a further pixel has to be placed, so the row passes the last one only when n exceeds the tile.
     */
    ghost predicate Placed(r: Rect, xx: nat, yy: nat, n: nat) {
      if n <= r.w * r.h then yy < r.h && xx <= r.w && n == yy * r.w + xx else yy == r.h
    }

    /** The plain RLE branch of zrleTile. */
    method ReadPlainRle(r: Rect) returns (ok: bool, ghost runs: seq<Rle.Run>)
      requires Valid() && Inside(r, width, height) && r.w > 0 && r.h > 0
      modifies fb, `input
      ensures Rle.ParseRuns(CodecOf(format), old(input), 0, r.w * r.h) == if ok then Some((runs, input)) else None
      ensures ok ==> |Rle.Expand(runs)| > r.w * r.h
      ensures ok ==> Picture() == Paint(old(Picture()), width, r, Rle.Expand(runs)[..r.w * r.h])
      ensures SameOutside(old(Picture()), Picture(), r)
    {
      hide Decode, Paint, CodecOf, Picture, SameOutside, Inside, Rle.ParseRun;
      ghost var base, s, pix, cols := Picture(), input, r.w * r.h, [];
      var yy: nat, xx: nat := 0, 0;
      runs := [];
      PaintNothing(base, width, r);
      Rle.AfterNothing(Rle.ParseRuns(CodecOf(format), s, 0, pix));
      while yy < r.h
        invariant Placed(r, xx, yy, |cols|) && cols == Rle.Expand(runs)
        invariant Picture() == Paint(base, width, r, Capped(cols, pix))
        invariant Rle.ParseRuns(CodecOf(format), s, 0, pix)
          == Rle.After(runs, Rle.ParseRuns(CodecOf(format), input, |cols|, pix))
        decreases |input|
      {
        Rle.TakeOneRun(CodecOf(format), input, |cols|, pix, runs);
        var color, run;
        ok, color, run := ReadRun();
        if !ok {
          PaintOutside(base, r, Capped(cols, pix));
          return;
        }
        xx, yy := PaintRun(r, xx, yy, color, run, base, cols);
        ghost var item := Rle.Run(CodecOf(format).decode(color), run);
        Rle.ExpandOneMore(runs, item);
        runs, cols := runs + [item], cols + Repeat(item.color, run);
      }
      PaintOutside(base, r, Capped(cols, pix));
      assert runs + [] == runs;
      ok := true;
    }

    /** Paints the pixels of one run, wrapping at the right edge and stopping below the last row. */
    method PaintRun(r: Rect, x0: nat, y0: nat, color: seq<Byte>, run: nat, ghost base: Image, ghost cols: seq<Color>)
      returns (xx: nat, yy: nat)
      requires Valid() && Inside(r, width, height) && r.w > 0 && |color| == format.bpp
      requires y0 < r.h && Placed(r, x0, y0, |cols|) && |cols| <= r.w * r.h
      requires |base| == width * height && Picture() == Paint(base, width, r, Capped(cols, r.w * r.h))
      modifies fb
      ensures var all := cols + Repeat(CodecOf(format).decode(color), run);
        Placed(r, xx, yy, |all|) && Picture() == Paint(base, width, r, Capped(all, r.w * r.h))
    {
      hide Decode, Paint, CodecOf, Picture, Inside;
      ghost var c := CodecOf(format).decode(color);
      xx, yy := x0, y0;
      assert cols + Repeat(c, 0) == cols;
      for i := 0 to run
        invariant yy < r.h && xx <= r.w && |cols| + i == yy * r.w + xx <= r.w * r.h
        invariant Picture() == Paint(base, width, r, cols + Repeat(c, i))
      {
        if xx >= r.w {
          assert (yy + 1) * r.w == yy * r.w + r.w;
          xx, yy := 0, yy + 1;
          if yy >= r.h {
            assert (cols + Repeat(c, run))[..r.w * r.h] == cols + Repeat(c, i);
            break;
          }
        }
        IndexBelow(yy, xx, r.w, r.h);
        PaintRunPixel(r, xx, yy, color, base, cols + Repeat(c, i));
        assert cols + Repeat(c, i) + [c] == cols + Repeat(c, i + 1);
        xx := xx + 1;
      }
    }

    /** fillSolid on a single pixel. */
    method PaintRunPixel(r: Rect, xx: nat, yy: nat, color: seq<Byte>, ghost base: Image, ghost cols: seq<Color>)
      requires Valid() && Inside(r, width, height) && xx < r.w && yy < r.h && |color| == format.bpp
      requires |base| == width * height && |cols| == yy * r.w + xx
      requires Picture() == Paint(base, width, r, cols)
      modifies fb
      ensures Picture() == Paint(base, width, r, cols + [CodecOf(format).decode(color)])
    {
      hide Decode, Paint;
      ghost var c, before := CodecOf(format).decode(color), Picture();
      IndexBelow(yy, xx, r.w, r.h);
      DivModOf(yy, xx, r.w);
      PaintOneMore(base, width, height, r, cols, c);
      PaintOnePixel(before, width, height, r.x + xx, r.y + yy, c);
      FillSolid(Rect(r.x + xx, r.y + yy, 1, 1), color);
    }

    lemma PaintOutside(base: Image, r: Rect, cols: seq<Color>)
      ensures SameOutside(base, Paint(base, width, r, cols), r)
    {
    }
  }
}
