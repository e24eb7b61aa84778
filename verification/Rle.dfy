/** Plain run-length tiles: the run coding of section 7.7.6 of RFC 6143 as the client reads it. */
module Rle {
  import opened Arith
  import opened Options
  import opened PixelFormat
  import opened Raster

  datatype Run = Run(color: Color, len: nat)

  /** The colours of the runs laid out one after another. */
  function Expand(runs: seq<Run>): seq<Color> {
    if runs == [] then [] else
      var n := |runs| - 1;
      Expand(runs[..n]) + Repeat(runs[n].color, runs[n].len)
  }

  /** Sum of length bytes up to and including the first that is not 255. */
  function ParseLength(s: seq<Byte>): (p: Option<(nat, seq<Byte>)>)
    ensures p.Some? ==> |p.value.1| < |s|
  {
    if |s| < 1 then None
    else if s[0] != 255 then Some((s[0], s[1..]))
    else
      var (n, rest) :- ParseLength(s[1..]);
      Some((255 + n, rest))
  }

  function ParseRun(k: Codec, s: seq<Byte>): (p: Option<(Run, seq<Byte>)>)
    ensures p.Some? ==> |p.value.1| < |s| && p.value.0.len >= 1
  {
    if |s| < k.bpp then None else
      var (n, rest) :- ParseLength(s[k.bpp..]);
      Some((Run(k.decode(s[..k.bpp]), 1 + n), rest))
  }

  /** Runs are read as long as at most `pix` pixels have been counted, as the loop does. */
  function ParseRuns(k: Codec, s: seq<Byte>, counted: nat, pix: nat): (p: Option<(seq<Run>, seq<Byte>)>)
    decreases |s|
  {
    if counted > pix then Some(([], s)) else
      var (run, s1) :- ParseRun(k, s);
      var (runs, s2) :- ParseRuns(k, s1, counted + run.len, pix);
      Some(([run] + runs, s2))
  }

  /** The result of parsing on, after some runs already read. */
  function After(runs: seq<Run>, p: Option<(seq<Run>, seq<Byte>)>): Option<(seq<Run>, seq<Byte>)> {
    if p.None? then None else Some((runs + p.value.0, p.value.1))
  }

  lemma AfterNothing(p: Option<(seq<Run>, seq<Byte>)>)
    ensures After([], p) == p
  {
    if p.Some? {
      assert [] + p.value.0 == p.value.0;
    }
  }

  lemma TakeOneRun(k: Codec, s: seq<Byte>, counted: nat, pix: nat, runs: seq<Run>)
    requires counted <= pix
    ensures ParseRun(k, s).None? ==> ParseRuns(k, s, counted, pix).None?
    ensures ParseRun(k, s).Some? ==>
      var (run, rest) := ParseRun(k, s).value;
      After(runs, ParseRuns(k, s, counted, pix)) == After(runs + [run], ParseRuns(k, rest, counted + run.len, pix))
  {
    if ParseRun(k, s).Some? {
      var (run, rest) := ParseRun(k, s).value;
      var p := ParseRuns(k, rest, counted + run.len, pix);
      if p.Some? {
        assert runs + ([run] + p.value.0) == runs + [run] + p.value.0;
      }
    }
  }

  lemma ExpandOneMore(runs: seq<Run>, run: Run)
    ensures Expand(runs + [run]) == Expand(runs) + Repeat(run.color, run.len)
  {
    assert (runs + [run])[..|runs|] == runs;
  }

  /** All the complete runs at the front of the data. */
  function AllRuns(k: Codec, s: seq<Byte>): seq<Run>
    decreases |s|
  {
    var p := ParseRun(k, s);
    if p.None? then [] else [p.value.0] + AllRuns(k, p.value.1)
  }

  function Total(runs: seq<Run>): nat {
    if runs == [] then 0 else runs[0].len + Total(runs[1..])
  }

  // ----- What a run list paints -----

  lemma {:induction false} TotalOfPrefix(runs: seq<Run>)
    requires runs != []
    ensures Total(runs) == Total(runs[..|runs| - 1]) + runs[|runs| - 1].len
  {
    if |runs| > 1 {
      TotalOfPrefix(runs[1..]);
      assert runs[1..][..|runs| - 2] == runs[..|runs| - 1][1..];
    }
  }

  lemma {:induction false} ExpandLength(runs: seq<Run>)
    ensures |Expand(runs)| == Total(runs)
  {
    if runs != [] {
      ExpandLength(runs[..|runs| - 1]);
      TotalOfPrefix(runs);
    }
  }

  /** Pixel i has the colour of the run whose range of cumulative lengths contains i. */
  lemma {:induction false} ExpandAt(runs: seq<Run>, j: nat, i: nat)
    requires j < |runs| && Total(runs[..j]) <= i < Total(runs[..j + 1])
    ensures i < |Expand(runs)| && Expand(runs)[i] == runs[j].color
  {
    var n := |runs| - 1;
    ExpandLength(runs);
    ExpandLength(runs[..n]);
    TotalOfPrefix(runs[..j + 1]);
    assert runs[..j + 1][..j] == runs[..j];
    if j == n {
      assert runs[..j + 1] == runs;
    } else {
      assert runs[..n][..j] == runs[..j] && runs[..n][..j + 1] == runs[..j + 1];
      ExpandAt(runs[..n], j, i);
    }
  }

  // ----- When decoding succeeds -----

  /** Decoding succeeds exactly if the complete runs in the data cover more than the tile. */
  lemma {:induction false} SucceedsExactly(k: Codec, s: seq<Byte>, counted: nat, pix: nat)
    ensures ParseRuns(k, s, counted, pix).Some? <==> counted + Total(AllRuns(k, s)) > pix
    decreases |s|
  {
    var p := ParseRun(k, s);
    if p.Some? {
      assert AllRuns(k, s)[1..] == AllRuns(k, p.value.1);
      if counted <= pix {
        SucceedsExactly(k, p.value.1, counted + p.value.0.len, pix);
      }
    }
  }

  /** On success the runs read count more pixels than the tile has, and all but the last at most as many. */
  lemma {:induction false} RunsReadCoverTile(k: Codec, s: seq<Byte>, counted: nat, pix: nat)
    requires ParseRuns(k, s, counted, pix).Some?
    ensures var runs := ParseRuns(k, s, counted, pix).value.0;
            && counted + Total(runs) > pix
            && (runs != [] ==> counted + Total(runs[..|runs| - 1]) <= pix)
    decreases |s|
  {
    if counted <= pix {
      var (run, s1) := ParseRun(k, s).value;
      RunsReadCoverTile(k, s1, counted + run.len, pix);
      var more := ParseRuns(k, s1, counted + run.len, pix).value.0;
      var runs := [run] + more;
      assert runs[1..] == more;
      if more != [] {
        assert runs[..|runs| - 1] == [run] + more[..|more| - 1];
        assert runs[..|runs| - 1][1..] == more[..|more| - 1];
      }
    }
  }

  // ----- The encoding a server sends -----

  datatype RunCode = RunCode(color: seq<Byte>, len: nat)

  ghost predicate Sendable(k: Codec, codes: seq<RunCode>) {
    forall i :: 0 <= i < |codes| ==> |codes[i].color| == k.bpp && codes[i].len >= 1
  }

  function EncodeLength(n: nat): seq<Byte> {
    if n < 255 then [n] else [255] + EncodeLength(n - 255)
  }

  function EncodeRuns(codes: seq<RunCode>): seq<Byte>
    requires forall i :: 0 <= i < |codes| ==> codes[i].len >= 1
  {
    if codes == [] then [] else codes[0].color + EncodeLength(codes[0].len - 1) + EncodeRuns(codes[1..])
  }

  function RunsOf(k: Codec, codes: seq<RunCode>): (runs: seq<Run>)
    ensures |runs| == |codes| && forall i :: 0 <= i < |codes| ==> runs[i] == Run(k.decode(codes[i].color), codes[i].len)
  {
    seq(|codes|, i requires 0 <= i < |codes| => Run(k.decode(codes[i].color), codes[i].len))
  }

  lemma {:induction false} ParseEncodedLength(n: nat, rest: seq<Byte>)
    ensures ParseLength(EncodeLength(n) + rest) == Some((n, rest))
  {
    var s := EncodeLength(n) + rest;
    if n < 255 {
      assert s[1..] == rest;
    } else {
      ParseEncodedLength(n - 255, rest);
      assert s[1..] == EncodeLength(n - 255) + rest;
    }
  }

  lemma ParseEncodedRun(k: Codec, c: RunCode, rest: seq<Byte>)
    requires |c.color| == k.bpp && c.len >= 1
    ensures ParseRun(k, c.color + EncodeLength(c.len - 1) + rest) == Some((Run(k.decode(c.color), c.len), rest))
  {
    var s := c.color + EncodeLength(c.len - 1) + rest;
    ParseEncodedLength(c.len - 1, rest);
    assert s[..k.bpp] == c.color && s[k.bpp..] == EncodeLength(c.len - 1) + rest;
  }

  /** Followed by no complete run, the encoding of some runs parses into exactly those runs. */
  lemma {:induction false} AllRunsOfEncoding(k: Codec, codes: seq<RunCode>, rest: seq<Byte>)
    requires Sendable(k, codes) && ParseRun(k, rest).None?
    ensures AllRuns(k, EncodeRuns(codes) + rest) == RunsOf(k, codes)
  {
    if codes == [] {
      assert EncodeRuns(codes) + rest == rest;
    } else {
      var more := EncodeRuns(codes[1..]) + rest;
      assert EncodeRuns(codes) + rest == codes[0].color + EncodeLength(codes[0].len - 1) + more;
      ParseEncodedRun(k, codes[0], more);
      AllRunsOfEncoding(k, codes[1..], rest);
      assert RunsOf(k, codes) == [RunsOf(k, codes)[0]] + RunsOf(k, codes[1..]);
    }
  }

  /**
   * The last tile of a rectangle, encoded as the standard prescribes (runs covering exactly the tile,
   * nothing after them), is always refused: the loop asks for one more run after the tile is full.
   */
  lemma ExactFillIsRefused(k: Codec, codes: seq<RunCode>, pix: nat)
    requires Sendable(k, codes) && Total(RunsOf(k, codes)) == pix
    ensures ParseRuns(k, EncodeRuns(codes), 0, pix).None?
  {
    AllRunsOfEncoding(k, codes, []);
    assert EncodeRuns(codes) + [] == EncodeRuns(codes);
    SucceedsExactly(k, EncodeRuns(codes), 0, pix);
  }

  /** For instance a tile of one pixel. */
  lemma OnePixelTileIsRefused(k: Codec)
    requires k.bpp == 1
    ensures ParseRuns(k, [7, 0], 0, 1).None? && AllRuns(k, [7, 0]) == [Run(k.decode([7]), 1)]
  {
    var code := [RunCode([7], 1)];
    assert EncodeRuns(code) == [7, 0] by {
      assert EncodeLength(0) == [0];
    }
    assert EncodeRuns(code) + [] == EncodeRuns(code);
    AllRunsOfEncoding(k, code, []);
    ExactFillIsRefused(k, code, 1);
  }

  /** With a further run behind it a full tile is accepted, at the price of swallowing that run. */
  lemma {:induction false} FullTileAndOneMoreRun(
      k: Codec, codes: seq<RunCode>, next: RunCode, counted: nat, pix: nat, rest: seq<Byte>)
    requires Sendable(k, codes + [next]) && counted + Total(RunsOf(k, codes)) == pix
    ensures ParseRuns(k, EncodeRuns(codes + [next]) + rest, counted, pix) == Some((RunsOf(k, codes + [next]), rest))
    decreases |codes|
  {
    var all := codes + [next];
    var more := EncodeRuns(all[1..]) + rest;
    assert EncodeRuns(all) + rest == all[0].color + EncodeLength(all[0].len - 1) + more;
    ParseEncodedRun(k, all[0], more);
    assert RunsOf(k, all) == [RunsOf(k, all)[0]] + RunsOf(k, all[1..]);
    if codes == [] {
      assert more == rest;
    } else {
      assert all[1..] == codes[1..] + [next];
      assert RunsOf(k, codes)[1..] == RunsOf(k, codes[1..]);
      FullTileAndOneMoreRun(k, codes[1..], next, counted + codes[0].len, pix, rest);
    }
  }

  /** Two runs byte by byte: length bytes 255 and 3 make 259 pixels, and a single 0 makes one. */
  lemma TwoRuns(k: Codec, a: Byte, b: Byte)
    requires k.bpp == 1
    ensures AllRuns(k, [a, 255, 3, b, 0]) == [Run(k.decode([a]), 259), Run(k.decode([b]), 1)]
    ensures Expand([Run(k.decode([a]), 2), Run(k.decode([b]), 1)]) == [k.decode([a]), k.decode([a]), k.decode([b])]
  {
    var codes := [RunCode([a], 259), RunCode([b], 1)];
    assert EncodeLength(3) == [3] && EncodeLength(258) == [255] + EncodeLength(3) && EncodeLength(0) == [0];
    assert codes[1..] == [RunCode([b], 1)] && [RunCode([b], 1)][1..] == [];
    assert EncodeRuns(codes[1..]) == [b] + [0] + [];
    assert EncodeRuns(codes) == [a] + [255, 3] + [b, 0];
    assert EncodeRuns(codes) + [] == [a, 255, 3, b, 0];
    AllRunsOfEncoding(k, codes, []);
    var runs := [Run(k.decode([a]), 2), Run(k.decode([b]), 1)];
    assert runs[..1] == [Run(k.decode([a]), 2)] && runs[..1][..0] == [];
    assert Expand(runs[..1]) == Expand([]) + Repeat(k.decode([a]), 2);
  }
}
