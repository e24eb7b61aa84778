/**
 * Hextile rectangles (section 7.7.4 of RFC 6143): the wire format of a tile, the meaning of a tile
 * pixel by pixel, and the picture that a whole rectangle of tiles denotes.
 */
module Hextile {
  import opened Arith
  import opened Options
  import opened PixelFormat
  import opened Raster

  /** A subrectangle, clipped to its tile and placed relative to the tile's corner. */
  datatype Sub = Sub(x: nat, y: nat, w: nat, h: nat, color: Color)

  datatype Tile = RawTile(pixels: seq<Color>) | PlainTile(background: Option<Color>, subs: seq<Sub>)

  /** Raw background and foreground bytes carried from tile to tile; [] until first given. */
  datatype Carry = Carry(bg: seq<Byte>, fg: seq<Byte>)

  const NO_CARRY := Carry([], [])

  // ----- The meaning of a tile -----

  /** The colour of the last subrectangle over a position, or `base` if there is none. */
  function LastPainter(subs: seq<Sub>, dx: nat, dy: nat, base: Color): Color {
    if subs == [] then base else
      var s := subs[|subs| - 1];
      if s.x <= dx < s.x + s.w && s.y <= dy < s.y + s.h then s.color
      else LastPainter(subs[..|subs| - 1], dx, dy, base)
  }

  /** The colour a tile of width `tw` gives to position (dx, dy), which was `was` before. */
  function TilePixel(tile: Tile, tw: nat, dx: nat, dy: nat, was: Color): Color {
    match tile
    case RawTile(pixels) => if dy * tw + dx < |pixels| then pixels[dy * tw + dx] else was
    case PlainTile(bg, subs) => LastPainter(subs, dx, dy, if bg.Some? then bg.value else was)
  }

  /** Replaces the pixels of a tile's rectangle by what the tile gives them; nothing else changes. */
  function PaintTile(img: Image, width: nat, r: Rect, tile: Tile): (out: Image)
    ensures |out| == |img|
  {
    seq(|img|, k requires 0 <= k < |img| =>
      if Covers(r, width, k) then TilePixel(tile, r.w, k % width - r.x, k / width - r.y, img[k]) else img[k])
  }

  lemma PaintRawTile(img: Image, width: nat, r: Rect, pixels: seq<Color>)
    requires |pixels| == r.w * r.h
    ensures PaintTile(img, width, r, RawTile(pixels)) == Paint(img, width, r, pixels)
  {
    forall k | 0 <= k < |img| && Covers(r, width, k)
      ensures PaintTile(img, width, r, RawTile(pixels))[k] == Paint(img, width, r, pixels)[k]
    {
      assert Rank(r, width, k) == (k / width - r.y) * r.w + (k % width - r.x);
    }
  }

  lemma PaintBackground(img: Image, width: nat, r: Rect, bg: Option<Color>)
    ensures PaintTile(img, width, r, PlainTile(bg, []))
         == if bg.Some? then Paint(img, width, r, Repeat(bg.value, r.w * r.h)) else img
  {
  }

  function SubRect(r: Rect, s: Sub): Rect { Rect(r.x + s.x, r.y + s.y, s.w, s.h) }

  function SubColors(s: Sub): seq<Color> { Repeat(s.color, s.w * s.h) }

  predicate Fits(s: Sub, w: nat, h: nat) { s.x + s.w <= w && s.y + s.h <= h }

  /** One more subrectangle is one more solid fill on top. */
  lemma PaintOneMoreSub(img: Image, width: nat, r: Rect, bg: Option<Color>, subs: seq<Sub>, s: Sub)
    requires Fits(s, r.w, r.h)
    ensures PaintTile(img, width, r, PlainTile(bg, subs + [s]))
         == Paint(PaintTile(img, width, r, PlainTile(bg, subs)), width, SubRect(r, s), SubColors(s))
  {
    assert (subs + [s])[..|subs|] == subs;
  }

  // ----- The tiles of a rectangle -----

  function Columns(w: nat): nat { (w + 15) / 16 }

  function TileCount(w: nat, h: nat): nat { Columns(h) * Columns(w) }

  function Least(a: int, b: int): int { if a < b then a else b }

  /** The t-th tile of the rectangle, row by row, cut off at the right and bottom edges. */
  function TileRect(r: Rect, t: nat): Rect
    requires t < TileCount(r.w, r.h)
  {
    RowBelow(t, Columns(r.w), Columns(r.h));
    var tx, ty := 16 * (t % Columns(r.w)), 16 * (t / Columns(r.w));
    Rect(r.x + tx, r.y + ty, Least(16, r.w - tx), Least(16, r.h - ty))
  }

  datatype Size = Size(w: nat, h: nat)

  /** The sizes of the rectangle's tiles, in the order in which they are sent. */
  function TileSizes(r: Rect): seq<Size> {
    seq(TileCount(r.w, r.h), t requires 0 <= t < TileCount(r.w, r.h) => Size(TileRect(r, t).w, TileRect(r, t).h))
  }

  function TileIndex(r: Rect, width: nat, k: nat): nat
    requires Covers(r, width, k)
  {
    ((k / width - r.y) / 16) * Columns(r.w) + (k % width - r.x) / 16
  }

  lemma TileIndexBelow(r: Rect, width: nat, k: nat)
    requires Covers(r, width, k)
    ensures TileIndex(r, width, k) < TileCount(r.w, r.h)
  {
    var dx, dy := k % width - r.x, k / width - r.y;
    IndexBelow(dy / 16, dx / 16, Columns(r.w), Columns(r.h));
  }

  /** The tiles partition the rectangle: every pixel has a tile index, and lies in tile t exactly if that is t. */
  lemma TilesPartition(r: Rect, width: nat, k: nat, t: nat)
    requires t < TileCount(r.w, r.h)
    ensures Covers(TileRect(r, t), width, k) <==> Covers(r, width, k) && TileIndex(r, width, k) == t
    ensures Covers(r, width, k) ==> TileIndex(r, width, k) < TileCount(r.w, r.h)
    ensures Covers(TileRect(r, t), width, k) ==>
      && (k % width - r.x) % 16 == k % width - TileRect(r, t).x
      && (k / width - r.y) % 16 == k / width - TileRect(r, t).y
  {
    RowBelow(t, Columns(r.w), Columns(r.h));
    if Covers(r, width, k) {
      TileIndexBelow(r, width, k);
      var dx, dy := k % width - r.x, k / width - r.y;
      DivModOf(dy / 16, dx / 16, Columns(r.w));
    }
  }

  /** The picture after the first |tiles| tiles: each pixel is decided by its own tile alone. */
  function HexImage(img: Image, width: nat, r: Rect, tiles: seq<Tile>): (out: Image)
    requires |tiles| <= TileCount(r.w, r.h)
    ensures |out| == |img|
  {
    seq(|img|, k requires 0 <= k < |img| =>
      if Covers(r, width, k) && TileIndex(r, width, k) < |tiles| then
        var t := TileIndex(r, width, k);
        TilePixel(tiles[t], TileRect(r, t).w, (k % width - r.x) % 16, (k / width - r.y) % 16, img[k])
      else img[k])
  }

  lemma HexImageOneMore(img: Image, width: nat, r: Rect, tiles: seq<Tile>, tile: Tile)
    requires |tiles| < TileCount(r.w, r.h)
    ensures HexImage(img, width, r, tiles + [tile])
         == PaintTile(HexImage(img, width, r, tiles), width, TileRect(r, |tiles|), tile)
  {
    var t := |tiles|;
    var more := HexImage(img, width, r, tiles + [tile]);
    var step := PaintTile(HexImage(img, width, r, tiles), width, TileRect(r, t), tile);
    forall k | 0 <= k < |img| ensures more[k] == step[k] {
      TilesPartition(r, width, k, t);
    }
  }

  // ----- The wire format -----

  // The bits of a tile's flag byte.
  predicate Raw(flag: Byte) { flag % 2 == 1 }
  predicate BackgroundSpecified(flag: Byte) { flag / 2 % 2 == 1 }
  predicate ForegroundSpecified(flag: Byte) { flag / 4 % 2 == 1 }
  predicate AnySubrects(flag: Byte) { flag / 8 % 2 == 1 }
  predicate SubrectsColoured(flag: Byte) { flag / 16 % 2 == 1 }

  function TakeColor(k: Codec, s: seq<Byte>, given: bool, current: seq<Byte>): Option<(seq<Byte>, seq<Byte>)> {
    if !given then Some((current, s))
    else if |s| < k.bpp then None
    else Some((s[..k.bpp], s[k.bpp..]))
  }

  const BLACK := Color(0, 0, 0, 255)

  const NO_SUB := Sub(0, 0, 0, 0, BLACK)

  /** The subrectangle of a position byte and a size byte; empty if clipped away or without a colour. */
  function ClipSub(k: Codec, pos: Byte, size: Byte, color: seq<Byte>, z: Size): (s: Sub)
    ensures Fits(s, z.w, z.h)
  {
    var sx, sy := pos / 16, pos % 16;
    var sw, sh := Least(size / 16 + 1, z.w - sx), Least(size % 16 + 1, z.h - sy);
    if |color| > 0 && sw > 0 && sh > 0 then Sub(sx, sy, sw, sh, k.decode(color)) else NO_SUB
  }

  /** One subrectangle record of a tile of size z. */
  function ParseSub(k: Codec, s: seq<Byte>, coloured: bool, fg: seq<Byte>, z: Size): (p: Option<(Sub, seq<Byte>)>)
    ensures p.Some? ==> Fits(p.value.0, z.w, z.h)
  {
    var (color, s1) :- TakeColor(k, s, coloured, fg);
    if |s1| < 2 then None else Some((ClipSub(k, s1[0], s1[1], color, z), s1[2..]))
  }

  function SubStep(k: Codec, coloured: bool, fg: seq<Byte>): (seq<Byte>, (), Size) -> Option<(Sub, (), seq<Byte>)> {
    (s: seq<Byte>, u: (), z: Size) =>
      var p := ParseSub(k, s, coloured, fg, z);
      if p.None? then None else Some((p.value.0, (), p.value.1))
  }

  /** Reads one item after another, handing a state along. */
  function Chain<A, Z, T>(step: (seq<Byte>, A, Z) -> Option<(T, A, seq<Byte>)>, s: seq<Byte>, a: A, zs: seq<Z>)
    : (p: Option<(seq<T>, A, seq<Byte>)>)
    ensures p.Some? ==> |p.value.0| == |zs|
  {
    if zs == [] then Some(([], a, s)) else
      var n := |zs| - 1;
      var (items, a1, s1) :- Chain(step, s, a, zs[..n]);
      var (item, a2, s2) :- step(s1, a1, zs[n]);
      Some((items + [item], a2, s2))
  }

  lemma {:induction false} ChainStaysFailed<A, Z, T>(
      step: (seq<Byte>, A, Z) -> Option<(T, A, seq<Byte>)>, s: seq<Byte>, a: A, zs: seq<Z>, m: nat)
    requires m <= |zs| && Chain(step, s, a, zs[..m]).None?
    ensures Chain(step, s, a, zs).None?
  {
    var n := |zs| - 1;
    if m <= n {
      assert zs[..n][..m] == zs[..m];
      ChainStaysFailed(step, s, a, zs[..n], m);
    } else {
      assert zs[..m] == zs;
    }
  }

  /** Reading one more subrectangle after i of n, and what its failure means for all n. */
  lemma OneMoreSubRead(
      k: Codec, coloured: bool, fg: seq<Byte>, s: seq<Byte>, z: Size, i: nat, n: nat, subs: seq<Sub>, s': seq<Byte>)
    requires i < n && Chain(SubStep(k, coloured, fg), s, (), Repeat(z, i)) == Some((subs, (), s'))
    ensures var p := ParseSub(k, s', coloured, fg, z);
      && (p.Some? ==>
            Chain(SubStep(k, coloured, fg), s, (), Repeat(z, i + 1)) == Some((subs + [p.value.0], (), p.value.1)))
      && (p.None? ==> Chain(SubStep(k, coloured, fg), s, (), Repeat(z, n)).None?)
  {
    hide ParseSub;
    assert Repeat(z, i + 1)[..i] == Repeat(z, i);
    if ParseSub(k, s', coloured, fg, z).None? {
      assert Repeat(z, n)[..i + 1] == Repeat(z, i + 1);
      ChainStaysFailed(SubStep(k, coloured, fg), s, (), Repeat(z, n), i + 1);
    }
  }

  lemma NoSubsRead(k: Codec, coloured: bool, fg: seq<Byte>, s: seq<Byte>, z: Size)
    ensures Chain(SubStep(k, coloured, fg), s, (), Repeat(z, 0)) == Some(([], (), s))
  {
  }

  function Concat(parts: seq<seq<Byte>>): seq<Byte> {
    if parts == [] then [] else Concat(parts[..|parts| - 1]) + parts[|parts| - 1]
  }

  /** Item i reads part i of the input, and nothing of what follows it. */
  ghost predicate Reads<A(!new), Z(!new), T(!new)>(
      step: (seq<Byte>, A, Z) -> Option<(T, A, seq<Byte>)>,
      part: seq<Byte>, a: A, z: Z, item: T, b: A)
  {
    forall rest: seq<Byte> :: step(part + rest, a, z) == Some((item, b, rest))
  }

  /** If every item reads exactly its own part, the chain reads exactly the concatenation. */
  lemma {:induction false} ChainReads<A(!new), Z(!new), T(!new)>(
      step: (seq<Byte>, A, Z) -> Option<(T, A, seq<Byte>)>,
      parts: seq<seq<Byte>>, states: seq<A>, zs: seq<Z>, items: seq<T>, rest: seq<Byte>)
    requires |parts| == |zs| == |items| && |states| == |zs| + 1
    requires forall i :: 0 <= i < |zs| ==> Reads(step, parts[i], states[i], zs[i], items[i], states[i + 1])
    ensures Chain(step, Concat(parts) + rest, states[0], zs) == Some((items, states[|zs|], rest))
  {
    if zs == [] {
      assert Concat(parts) + rest == rest;
    } else {
      var n := |zs| - 1;
      ChainReads(step, parts[..n], states[..n + 1], zs[..n], items[..n], parts[n] + rest);
      assert Concat(parts) + rest == Concat(parts[..n]) + (parts[n] + rest);
      assert Reads(step, parts[n], states[n], zs[n], items[n], states[n + 1]);
      assert items == items[..n] + [items[n]];
    }
  }

  /** The rest of a plain tile, given its flags. */
  function ParsePlain(
      k: Codec, hasBg: bool, hasFg: bool, hasSubs: bool, coloured: bool, s: seq<Byte>, c: Carry, z: Size)
    : Option<(Tile, Carry, seq<Byte>)>
  {
    var (bg, s1) :- TakeColor(k, s, hasBg, c.bg);
    var (fg, s2) :- TakeColor(k, s1, hasFg, c.fg);
    var background := if |bg| > 0 then Some(k.decode(bg)) else None;
    if !hasSubs then Some((PlainTile(background, []), Carry(bg, fg), s2))
    else if |s2| < 1 then None
    else
      var (subs, _, s3) :- Chain(SubStep(k, coloured, fg), s2[1..], (), Repeat(z, s2[0]));
      Some((PlainTile(background, subs), Carry(bg, fg), s3))
  }

  function ParseTile(k: Codec, s: seq<Byte>, c: Carry, z: Size): Option<(Tile, Carry, seq<Byte>)> {
    if |s| < 1 then None else
      var flag, s0 := s[0], s[1..];
      if Raw(flag) then
        var n := z.w * z.h * k.bpp;
        if |s0| < n then None else Some((RawTile(DecodeAll(k, s0[..n])), c, s0[n..]))
      else ParsePlain(k, BackgroundSpecified(flag), ForegroundSpecified(flag),
                      AnySubrects(flag), SubrectsColoured(flag), s0, c, z)
  }

  /** Tiles of the given sizes, one after another, with background and foreground carried along. */
  function ParseTiles(k: Codec, s: seq<Byte>, sizes: seq<Size>): (p: Option<(seq<Tile>, Carry, seq<Byte>)>)
    ensures p.Some? ==> |p.value.0| == |sizes|
  {
    Chain(TileStep(k), s, NO_CARRY, sizes)
  }

  lemma OneMoreTile(k: Codec, s: seq<Byte>, sizes: seq<Size>, t: nat, tiles: seq<Tile>, c: Carry, s1: seq<Byte>)
    requires t < |sizes| && ParseTiles(k, s, sizes[..t]) == Some((tiles, c, s1))
    ensures ParseTile(k, s1, c, sizes[t]).None? ==> ParseTiles(k, s, sizes).None?
    ensures ParseTile(k, s1, c, sizes[t]).Some? ==>
      var (tile, c', s2) := ParseTile(k, s1, c, sizes[t]).value;
      ParseTiles(k, s, sizes[..t + 1]) == Some((tiles + [tile], c', s2))
  {
    assert sizes[..t + 1][..t] == sizes[..t];
    if ParseTile(k, s1, c, sizes[t]).None? {
      ChainStaysFailed(TileStep(k), s, NO_CARRY, sizes, t + 1);
    }
  }

  function TileStep(k: Codec): (seq<Byte>, Carry, Size) -> Option<(Tile, Carry, seq<Byte>)> {
    (s: seq<Byte>, c: Carry, z: Size) => ParseTile(k, s, c, z)
  }

  // ----- What single bytes mean -----

  /** Clipping: a pixel of the tile is covered exactly if the subrectangle that the two bytes name covers it. */
  lemma ClipCoversExactly(k: Codec, pos: Byte, size: Byte, color: seq<Byte>, z: Size, dx: nat, dy: nat)
    requires dx < z.w && dy < z.h
    ensures var s := ClipSub(k, pos, size, color, z);
      && (s.x <= dx < s.x + s.w && s.y <= dy < s.y + s.h <==>
            color != [] && pos / 16 <= dx <= pos / 16 + size / 16 && pos % 16 <= dy <= pos % 16 + size % 16)
      && (s.w > 0 ==> s.color == k.decode(color))
  {
  }

  /** A raw tile, and one of which nothing is specified, which shows the current background. */
  lemma SimplestTiles(k: Codec, a: Byte, b: Byte, c: Carry, rest: seq<Byte>)
    requires k.bpp == 1
    ensures ParseTile(k, [1, a, b] + rest, c, Size(2, 1)) == Some((RawTile([k.decode([a]), k.decode([b])]), c, rest))
    ensures ParseTile(k, [0] + rest, c, Size(2, 1))
         == Some((PlainTile(if c.bg == [] then None else Some(k.decode(c.bg)), []), c, rest))
  {
    var s := [1, a, b] + rest;
    assert s[1..] == [a, b] + rest && s[1..][..2] == [a, b] && s[1..][2..] == rest;
    assert [a, b][1..] == [b] && [a, b][..1] == [a];
    OneByteDecoded(k, b);
    assert DecodeAll(k, [a, b]) == [k.decode([a])] + DecodeAll(k, [b]);
    assert [k.decode([a])] + [k.decode([b])] == [k.decode([a]), k.decode([b])];
    assert ([0] + rest)[1..] == rest;
  }

  lemma OneByteDecoded(k: Codec, a: Byte)
    requires k.bpp == 1
    ensures DecodeAll(k, [a]) == [k.decode([a])]
  {
    assert [a][..1] == [a] && [a][1..] == [];
    assert DecodeAll(k, []) == [];
  }

  /**
   * A tile with a background, a foreground and one subrectangle of its own colour, two wide and one high
   * at column 1 of row 2; and one whose subrectangle has the foreground.
   */
  lemma TilesWithSubrectangle(k: Codec, bg: Byte, fg: Byte, own: Byte, c: Carry, rest: seq<Byte>)
    requires k.bpp == 1
    ensures ParseTile(k, [30] + ([bg, fg, 1] + ([own, 0x12, 0x10] + rest)), c, Size(4, 3))
         == Some((PlainTile(Some(k.decode([bg])), [Sub(1, 2, 2, 1, k.decode([own]))]), Carry([bg], [fg]), rest))
    ensures ParseTile(k, [14] + ([bg, fg, 1] + ([0x12, 0x10] + rest)), c, Size(4, 3))
         == Some((PlainTile(Some(k.decode([bg])), [Sub(1, 2, 2, 1, k.decode([fg]))]), Carry([bg], [fg]), rest))
  {
    PlainBytes(k, true, bg, fg, [own, 0x12, 0x10] + rest, c, Size(4, 3));
    PlainBytes(k, false, bg, fg, [0x12, 0x10] + rest, c, Size(4, 3));
    OneRecord(k, fg, own, rest);
    hide ParsePlain, ParseSub;
    var s, t := [bg, fg, 1] + ([own, 0x12, 0x10] + rest), [bg, fg, 1] + ([0x12, 0x10] + rest);
    assert ([30] + s)[0] == 30 && ([30] + s)[1..] == s;
    assert ([14] + t)[0] == 14 && ([14] + t)[1..] == t;
  }

  lemma OneRecord(k: Codec, fg: Byte, own: Byte, rest: seq<Byte>)
    requires k.bpp == 1
    ensures ParseSub(k, [own, 0x12, 0x10] + rest, true, [fg], Size(4, 3))
         == Some((Sub(1, 2, 2, 1, k.decode([own])), rest))
    ensures ParseSub(k, [0x12, 0x10] + rest, false, [fg], Size(4, 3)) == Some((Sub(1, 2, 2, 1, k.decode([fg])), rest))
  {
    var three := [own, 0x12, 0x10] + rest;
    assert three[1..] == [0x12, 0x10] + rest && three[..1] == [own] && ([0x12, 0x10] + rest)[2..] == rest;
  }

  lemma PlainBytes(k: Codec, coloured: bool, bg: Byte, fg: Byte, s: seq<Byte>, c: Carry, z: Size)
    requires k.bpp == 1
    ensures var p := ParseSub(k, s, coloured, [fg], z);
      ParsePlain(k, true, true, true, coloured, [bg, fg, 1] + s, c, z)
      == if p.None? then None
         else Some((PlainTile(Some(k.decode([bg])), [p.value.0]), Carry([bg], [fg]), p.value.1))
  {
    hide Chain, ParseSub;
    OneSubrectangle(k, coloured, [fg], s, z);
    var all := [bg, fg, 1] + s;
    assert all[..1] == [bg] && all[1..] == [fg, 1] + s;
    assert all[1..][..1] == [fg] && all[1..][1..] == [1] + s && all[1..][1..][1..] == s;
  }

  lemma OneSubrectangle(k: Codec, coloured: bool, fg: seq<Byte>, s: seq<Byte>, z: Size)
    ensures var p := ParseSub(k, s, coloured, fg, z);
      Chain(SubStep(k, coloured, fg), s, (), Repeat(z, 1))
      == if p.None? then None else Some(([p.value.0], (), p.value.1))
  {
    NoSubsRead(k, coloured, fg, s, z);
    OneMoreSubRead(k, coloured, fg, s, z, 0, 1, [], s);
    var p := ParseSub(k, s, coloured, fg, z);
    assert p.Some? ==> [] + [p.value.0] == [p.value.0];
  }

  /** The first tile has no background to fall back on; later ones have that of the last tile that gave one. */
  lemma BackgroundIsCarried(k: Codec, bg: Byte, a: Byte)
    requires k.bpp == 1
    ensures var z, back := Size(1, 1), Some(k.decode([bg]));
      && ParseTiles(k, [0], [z]) == Some(([PlainTile(None, [])], Carry([], []), []))
      && ParseTiles(k, [2, bg, 1, a, 0], [z, z, z])
         == Some(([PlainTile(back, []), RawTile([k.decode([a])]), PlainTile(back, [])], Carry([bg], []), []))
  {
    var z, back := Size(1, 1), Some(k.decode([bg]));
    var s, zs := [2, bg, 1, a, 0], [z, z, z];
    assert [0][1..] == [];
    assert [z][..0] == [] && ParseTiles(k, [0], [z][..0]) == Some(([], NO_CARRY, [0]));
    OneMoreTile(k, [0], [z], 0, [], NO_CARRY, [0]);
    assert [z][..1] == [z] && [] + [PlainTile(None, [])] == [PlainTile(None, [])];
    assert s[1..] == [bg, 1, a, 0] && s[1..][..1] == [bg] && s[1..][1..] == [1, a, 0];
    assert [1, a, 0][1..] == [a, 0] && [a, 0][..1] == [a] && [a, 0][1..] == [0] && [a][1..] == [] && [a][..1] == [a];
    OneByteDecoded(k, a);
    var c := Carry([bg], []);
    assert ParseTile(k, s, NO_CARRY, z) == Some((PlainTile(back, []), c, [1, a, 0]));
    assert ParseTile(k, [1, a, 0], c, z) == Some((RawTile([k.decode([a])]), c, [0]));
    assert ParseTile(k, [0], c, z) == Some((PlainTile(back, []), c, []));
    hide ParseTile, DecodeAll;
    var one, two, three: Tile := PlainTile(back, []), RawTile([k.decode([a])]), PlainTile(back, []);
    assert zs[..0] == [] && ParseTiles(k, s, zs[..0]) == Some(([], NO_CARRY, s));
    OneMoreTile(k, s, zs, 0, [], NO_CARRY, s);
    assert [] + [one] == [one];
    OneMoreTile(k, s, zs, 1, [one], c, [1, a, 0]);
    assert [one] + [two] == [one, two];
    OneMoreTile(k, s, zs, 2, [one, two], c, [0]);
    assert [one, two] + [three] == [one, two, three];
    assert zs[..3] == zs;
  }

  // ----- A server's encoding, and the round trip -----

  datatype SubCode = SubCode(color: seq<Byte>, x: nat, y: nat, w: nat, h: nat)

  datatype TileCode =
    | CodeRaw(data: seq<Byte>)
    | CodePlain(bg: Option<seq<Byte>>, fg: Option<seq<Byte>>, subs: seq<SubCode>, coloured: bool)

  /** What section 7.7.4 of RFC 6143 lets a server send for a tile. */
  predicate Sendable(k: Codec, t: TileCode, z: Size) {
    match t
    case CodeRaw(data) => |data| == z.w * z.h * k.bpp
    case CodePlain(bg, fg, subs, coloured) =>
      && (bg.Some? ==> |bg.value| == k.bpp)
      && (fg.Some? ==> |fg.value| == k.bpp)
      && |subs| < 256
      && forall i :: 0 <= i < |subs| ==> SubSendable(k, subs[i], coloured, z)
  }

  predicate SubSendable(k: Codec, s: SubCode, coloured: bool, z: Size) {
    && (coloured ==> |s.color| == k.bpp)
    && 1 <= s.w <= 16 && 1 <= s.h <= 16 && s.x < 16 && s.y < 16
    && s.x + s.w <= z.w && s.y + s.h <= z.h
  }

  function PosByte(s: SubCode): Byte { s.x % 16 * 16 + s.y % 16 }

  function SizeByte(s: SubCode): Byte { (s.w + 15) % 16 * 16 + (s.h + 15) % 16 }

  function EncodeSub(s: SubCode, coloured: bool): seq<Byte> {
    (if coloured then s.color else []) + [PosByte(s), SizeByte(s)]
  }

  function EncodeSubs(subs: seq<SubCode>, coloured: bool): seq<seq<Byte>> {
    seq(|subs|, i requires 0 <= i < |subs| => EncodeSub(subs[i], coloured))
  }

  function FlagIf(b: bool, n: nat): nat { if b then n else 0 }

  function Given(color: Option<seq<Byte>>, current: seq<Byte>): seq<Byte> {
    if color.Some? then color.value else current
  }

  function EncodeTile(k: Codec, t: TileCode, z: Size): seq<Byte>
    requires Sendable(k, t, z)
  {
    match t
    case CodeRaw(data) => [1] + data
    case CodePlain(bg, fg, subs, coloured) =>
      [FlagIf(bg.Some?, 2) + FlagIf(fg.Some?, 4) + FlagIf(subs != [], 8) + FlagIf(coloured, 16)]
      + Given(bg, []) + Given(fg, [])
      + EncodeTail(subs, coloured)
  }

  /** The subrectangle that a record stands for; without any colour yet it draws nothing. */
  function SubOf(k: Codec, s: SubCode, coloured: bool, fg: seq<Byte>): Sub {
    var color := if coloured then s.color else fg;
    if |color| > 0 then Sub(s.x, s.y, s.w, s.h, k.decode(color)) else NO_SUB
  }

  function SubsOf(k: Codec, subs: seq<SubCode>, coloured: bool, fg: seq<Byte>): (out: seq<Sub>)
    ensures |out| == |subs| && forall i :: 0 <= i < |subs| ==> out[i] == SubOf(k, subs[i], coloured, fg)
  {
    seq(|subs|, i requires 0 <= i < |subs| => SubOf(k, subs[i], coloured, fg))
  }

  function CarryOf(t: TileCode, c: Carry): Carry {
    match t
    case CodeRaw(_) => c
    case CodePlain(bg, fg, _, _) => Carry(Given(bg, c.bg), Given(fg, c.fg))
  }

  function TileOf(k: Codec, t: TileCode, c: Carry): Tile {
    match t
    case CodeRaw(data) => RawTile(DecodeAll(k, data))
    case CodePlain(bg, fg, subs, coloured) =>
      var c' := CarryOf(t, c);
      PlainTile(if |c'.bg| > 0 then Some(k.decode(c'.bg)) else None, SubsOf(k, subs, coloured, c'.fg))
  }

  lemma PackedBytes(s: SubCode)
    requires 1 <= s.w <= 16 && 1 <= s.h <= 16 && s.x < 16 && s.y < 16
    ensures PosByte(s) / 16 == s.x && PosByte(s) % 16 == s.y
    ensures SizeByte(s) / 16 + 1 == s.w && SizeByte(s) % 16 + 1 == s.h
  {
    assert s.x % 16 == s.x && s.y % 16 == s.y;
    assert (s.w + 15) % 16 == s.w - 1 && (s.h + 15) % 16 == s.h - 1;
  }

  lemma ClipEncodedSub(k: Codec, s: SubCode, coloured: bool, fg: seq<Byte>, z: Size)
    requires SubSendable(k, s, coloured, z)
    ensures ClipSub(k, PosByte(s), SizeByte(s), if coloured then s.color else fg, z) == SubOf(k, s, coloured, fg)
  {
    PackedBytes(s);
  }

  lemma TakeGivenColor(k: Codec, col: Option<seq<Byte>>, current: seq<Byte>, rest: seq<Byte>)
    requires col.Some? ==> |col.value| == k.bpp
    ensures TakeColor(k, Given(col, []) + rest, col.Some?, current) == Some((Given(col, current), rest))
  {
    if col.Some? {
      assert (col.value + rest)[..k.bpp] == col.value && (col.value + rest)[k.bpp..] == rest;
    } else {
      assert [] + rest == rest;
    }
  }

  lemma ParseEncodedSub(k: Codec, s: SubCode, coloured: bool, fg: seq<Byte>, z: Size)
    requires SubSendable(k, s, coloured, z)
    ensures Reads(SubStep(k, coloured, fg), EncodeSub(s, coloured), (), z, SubOf(k, s, coloured, fg), ())
  {
    ClipEncodedSub(k, s, coloured, fg, z);
    forall rest: seq<Byte>
      ensures SubStep(k, coloured, fg)(EncodeSub(s, coloured) + rest, (), z)
        == Some((SubOf(k, s, coloured, fg), (), rest))
    {
      var last := [PosByte(s), SizeByte(s)] + rest;
      var color := if coloured then Some(s.color) else None;
      assert EncodeSub(s, coloured) + rest == Given(color, []) + last;
      TakeGivenColor(k, color, fg, last);
      assert last[2..] == rest;
    }
  }

  lemma ParseEncodedSubs(k: Codec, subs: seq<SubCode>, coloured: bool, fg: seq<Byte>, z: Size, rest: seq<Byte>)
    requires forall i :: 0 <= i < |subs| ==> SubSendable(k, subs[i], coloured, z)
    ensures Chain(SubStep(k, coloured, fg), Concat(EncodeSubs(subs, coloured)) + rest, (), Repeat(z, |subs|))
         == Some((SubsOf(k, subs, coloured, fg), (), rest))
  {
    var step, parts, items := SubStep(k, coloured, fg), EncodeSubs(subs, coloured), SubsOf(k, subs, coloured, fg);
    var zs, states := Repeat(z, |subs|), seq(|subs| + 1, _ => ());
    forall i | 0 <= i < |subs| ensures Reads(step, parts[i], states[i], zs[i], items[i], states[i + 1]) {
      ParseEncodedSub(k, subs[i], coloured, fg, z);
    }
    ChainReads(step, parts, states, zs, items, rest);
  }

  lemma FlagBits(b: bool, g: bool, s: bool, c: bool)
    ensures var flag := FlagIf(b, 2) + FlagIf(g, 4) + FlagIf(s, 8) + FlagIf(c, 16);
      && flag < 256 && !Raw(flag)
      && BackgroundSpecified(flag) == b && ForegroundSpecified(flag) == g
      && AnySubrects(flag) == s && SubrectsColoured(flag) == c
  {
  }

  function EncodeTail(subs: seq<SubCode>, coloured: bool): seq<Byte>
    requires |subs| < 256
  {
    if subs != [] then [|subs|] + Concat(EncodeSubs(subs, coloured)) else []
  }

  lemma FirstAndRest(b: Byte, s: seq<Byte>, rest: seq<Byte>)
    ensures (([b] + s) + rest)[0] == b && (([b] + s) + rest)[1..] == s + rest
  {
  }

  lemma ParseEncodedPlain(k: Codec, t: TileCode, c: Carry, z: Size, rest: seq<Byte>)
    requires t.CodePlain? && Sendable(k, t, z)
    ensures ParsePlain(k, t.bg.Some?, t.fg.Some?, t.subs != [], t.coloured,
                       Given(t.bg, []) + (Given(t.fg, []) + (EncodeTail(t.subs, t.coloured) + rest)), c, z)
         == Some((TileOf(k, t, c), CarryOf(t, c), rest))
  {
    var CodePlain(bg, fg, subs, coloured) := t;
    var tail := EncodeTail(subs, coloured) + rest;
    TakeGivenColor(k, bg, c.bg, Given(fg, []) + tail);
    TakeGivenColor(k, fg, c.fg, tail);
    if subs == [] {
      assert tail == rest;
    } else {
      FirstAndRest(|subs|, Concat(EncodeSubs(subs, coloured)), rest);
      ParseEncodedSubs(k, subs, coloured, Given(fg, c.fg), z, rest);
    }
  }

  lemma ParseTileOfPlain(k: Codec, flag: Byte, tail: seq<Byte>, c: Carry, z: Size)
    requires !Raw(flag)
    ensures ParseTile(k, [flag] + tail, c, z)
         == ParsePlain(k, BackgroundSpecified(flag), ForegroundSpecified(flag),
                       AnySubrects(flag), SubrectsColoured(flag),
                       tail, c, z)
  {
    assert ([flag] + tail)[1..] == tail;
  }

  lemma ParseEncodedTileThen(k: Codec, t: TileCode, c: Carry, z: Size, rest: seq<Byte>)
    requires Sendable(k, t, z)
    ensures ParseTile(k, EncodeTile(k, t, z) + rest, c, z) == Some((TileOf(k, t, c), CarryOf(t, c), rest))
  {
    hide ParsePlain, DecodeAll, FlagIf, EncodeTail, Given;
    match t
    case CodeRaw(data) =>
      FirstAndRest(1, data, rest);
      assert (data + rest)[..|data|] == data && (data + rest)[|data|..] == rest;
    case CodePlain(bg, fg, subs, coloured) =>
      ParseEncodedPlain(k, t, c, z, rest);
      FlagBits(bg.Some?, fg.Some?, subs != [], coloured);
      var flag := FlagIf(bg.Some?, 2) + FlagIf(fg.Some?, 4) + FlagIf(subs != [], 8) + FlagIf(coloured, 16);
      Regroup([flag], Given(bg, []), Given(fg, []), EncodeTail(subs, coloured), rest);
      ParseTileOfPlain(k, flag, Given(bg, []) + (Given(fg, []) + (EncodeTail(subs, coloured) + rest)), c, z);
  }

  lemma Regroup(a: seq<Byte>, b: seq<Byte>, c: seq<Byte>, d: seq<Byte>, e: seq<Byte>)
    ensures a + b + c + d + e == a + (b + (c + (d + e)))
  {
  }

  /** Parsing what a server sends gives back the tile it meant and the new carry, and reads nothing more. */
  lemma ParseEncodedTile(k: Codec, t: TileCode, c: Carry, z: Size)
    requires Sendable(k, t, z)
    ensures Reads(TileStep(k), EncodeTile(k, t, z), c, z, TileOf(k, t, c), CarryOf(t, c))
  {
    forall rest: seq<Byte>
      ensures TileStep(k)(EncodeTile(k, t, z) + rest, c, z) == Some((TileOf(k, t, c), CarryOf(t, c), rest))
    {
      ParseEncodedTileThen(k, t, c, z, rest);
    }
  }

  predicate AllSendable(k: Codec, codes: seq<TileCode>, sizes: seq<Size>) {
    |codes| == |sizes| && forall t :: 0 <= t < |codes| ==> Sendable(k, codes[t], sizes[t])
  }

  function EncodeTiles(k: Codec, codes: seq<TileCode>, sizes: seq<Size>): (parts: seq<seq<Byte>>)
    requires AllSendable(k, codes, sizes)
    ensures |parts| == |codes| && forall t :: 0 <= t < |codes| ==> parts[t] == EncodeTile(k, codes[t], sizes[t])
  {
    seq(|codes|, t requires 0 <= t < |codes| => EncodeTile(k, codes[t], sizes[t]))
  }

  /** The colours in force before each tile, and after the last one. */
  function Carries(codes: seq<TileCode>): (cs: seq<Carry>)
    ensures |cs| == |codes| + 1
    ensures cs[0] == NO_CARRY && forall t :: 0 <= t < |codes| ==> cs[t + 1] == CarryOf(codes[t], cs[t])
  {
    if codes == [] then [NO_CARRY] else
      var n := |codes| - 1;
      var before := Carries(codes[..n]);
      before + [CarryOf(codes[n], before[n])]
  }

  /** The tiles meant by a sequence of codes, with background and foreground carried along. */
  function TilesOf(k: Codec, codes: seq<TileCode>): (tiles: seq<Tile>)
    ensures |tiles| == |codes| && forall t :: 0 <= t < |codes| ==> tiles[t] == TileOf(k, codes[t], Carries(codes)[t])
  {
    seq(|codes|, t requires 0 <= t < |codes| => TileOf(k, codes[t], Carries(codes)[t]))
  }

  /** The round trip for a whole rectangle. */
  lemma ParseEncodedTiles(k: Codec, codes: seq<TileCode>, sizes: seq<Size>, rest: seq<Byte>)
    requires AllSendable(k, codes, sizes)
    ensures ParseTiles(k, Concat(EncodeTiles(k, codes, sizes)) + rest, sizes)
         == Some((TilesOf(k, codes), Carries(codes)[|codes|], rest))
  {
    var parts, cs, tiles := EncodeTiles(k, codes, sizes), Carries(codes), TilesOf(k, codes);
    forall t | 0 <= t < |codes| ensures Reads(TileStep(k), parts[t], cs[t], sizes[t], tiles[t], cs[t + 1]) {
      ParseEncodedTile(k, codes[t], cs[t], sizes[t]);
    }
    ChainReads(TileStep(k), parts, cs, sizes, tiles, rest);
  }
}
