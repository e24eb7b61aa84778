/** Trimming, and where an element first occurs. */
module Sequences {

  function FirstAt<T(==)>(input: seq<T>, x: T): (i: nat)
    ensures i <= |input| && (x in input ==> i < |input| && input[i] == x)
    ensures forall j :: 0 <= j < i ==> input[j] != x
  {
    if input == [] || input[0] == x then 0 else 1 + FirstAt(input[1..], x)
  }

  lemma {:induction false} FirstAtIs<T>(input: seq<T>, i: nat)
    requires i < |input| && input[i] !in input[..i]
    ensures FirstAt(input, input[i]) == i
  {
    if i > 0 {
      assert input[..i] == [input[0]] + input[1..][..i - 1];
      FirstAtIs(input[1..], i - 1);
    }
  }

  lemma {:induction false} NowhereAt<T>(input: seq<T>, x: T)
    requires x !in input
    ensures FirstAt(input, x) == |input|
  {
    if input != [] {
      NowhereAt(input[1..], x);
    }
  }

  /** White space as Unicode defines it. */
  predicate Space(c: char) {
    c in {' ', '\U{85}', '\U{A0}', '\U{1680}', '\U{2028}', '\U{2029}', '\U{202F}', '\U{205F}', '\U{3000}'}
    || '\t' <= c <= '\r' || '\U{2000}' <= c <= '\U{200A}'
  }

  function TrimLeft<T>(v: seq<T>, blank: T -> bool): seq<T> {
    if v != [] && blank(v[0]) then TrimLeft(v[1..], blank) else v
  }

  function TrimRight<T>(v: seq<T>, blank: T -> bool): seq<T> {
    if v != [] && blank(v[|v| - 1]) then TrimRight(v[..|v| - 1], blank) else v
  }

  function Trim<T>(v: seq<T>, blank: T -> bool): seq<T> { TrimRight(TrimLeft(v, blank), blank) }

  predicate OuterBlank<T>(v: seq<T>, blank: T -> bool) { |v| > 0 && (blank(v[0]) || blank(v[|v| - 1])) }

  lemma {:induction false} TrimLeftShortens<T>(v: seq<T>, blank: T -> bool)
    ensures |TrimLeft(v, blank)| <= |v| && (|TrimLeft(v, blank)| == |v| ==> TrimLeft(v, blank) == v)
    ensures |TrimLeft(v, blank)| == |v| <==> (v == [] || !blank(v[0]))
    ensures TrimLeft(v, blank) != [] ==> !blank(TrimLeft(v, blank)[0])
  {
    if v != [] && blank(v[0]) {
      TrimLeftShortens(v[1..], blank);
    }
  }

  lemma {:induction false} TrimRightShortens<T>(v: seq<T>, blank: T -> bool)
    ensures |TrimRight(v, blank)| <= |v| && (|TrimRight(v, blank)| == |v| ==> TrimRight(v, blank) == v)
    ensures |TrimRight(v, blank)| == |v| <==> (v == [] || !blank(v[|v| - 1]))
    ensures TrimRight(v, blank) != [] ==>
      TrimRight(v, blank)[0] == v[0] && !blank(TrimRight(v, blank)[|TrimRight(v, blank)| - 1])
  {
    if v != [] && blank(v[|v| - 1]) {
      TrimRightShortens(v[..|v| - 1], blank);
    }
  }

  /** Trimming changes exactly what has blanks on the outside, and afterwards there are none. */
  lemma TrimKeepsExactly<T>(v: seq<T>, blank: T -> bool)
    ensures Trim(v, blank) == v <==> !OuterBlank(v, blank)
    ensures !OuterBlank(Trim(v, blank), blank)
  {
    TrimLeftShortens(v, blank);
    TrimRightShortens(TrimLeft(v, blank), blank);
  }

  /** Trimming drops the blanks at both ends, all of them, and nothing else. */
  lemma TrimExactly<T>(v: seq<T>, blank: T -> bool) returns (i: nat, j: nat)
    ensures i <= j <= |v| && Trim(v, blank) == v[i..j]
    ensures forall k :: 0 <= k < i || j <= k < |v| ==> blank(v[k])
    ensures i < j ==> !blank(v[i]) && !blank(v[j - 1])
  {
    i := TrimLeftDrops(v, blank);
    var w := v[i..];
    var n := TrimRightDrops(w, blank);
    j := i + n;
    assert w[..n] == v[i..j];
    TrimKeepsExactly(v, blank);
    assert forall k :: j <= k < |v| ==> v[k] == w[k - i];
  }

  lemma {:induction false} TrimLeftDrops<T>(v: seq<T>, blank: T -> bool) returns (i: nat)
    ensures i <= |v| && TrimLeft(v, blank) == v[i..] && forall k :: 0 <= k < i ==> blank(v[k])
  {
    i := 0;
    if v != [] && blank(v[0]) {
      var n := TrimLeftDrops(v[1..], blank);
      i := n + 1;
      assert forall k :: 0 < k < i ==> v[k] == v[1..][k - 1];
    }
  }

  lemma {:induction false} TrimRightDrops<T>(v: seq<T>, blank: T -> bool) returns (j: nat)
    ensures j <= |v| && TrimRight(v, blank) == v[..j] && forall k :: j <= k < |v| ==> blank(v[k])
  {
    j := |v|;
    if v != [] && blank(v[|v| - 1]) {
      var n := TrimRightDrops(v[..|v| - 1], blank);
      j := n;
      assert forall k :: 0 <= k < |v| - 1 ==> v[k] == v[..|v| - 1][k];
    }
  }
}
