/** Cutting data into pieces of bounded length and joining them again. */
module Chunks {
  import opened Bytes

  /** s from index i on, n bytes at a time. */
  function Pieces(s: seq<bv8>, i: nat, n: nat): (r: seq<seq<bv8>>)
    requires 0 < n && i <= |s|
    decreases |s| - i
  {
    if i == |s| then [] else [s[i..Min(i + n, |s|)]] + Pieces(s, Min(i + n, |s|), n)
  }

  /** uploader.__split_len */
  function SplitLen(s: seq<bv8>, n: nat): seq<seq<bv8>>
    requires 0 < n
  {
    Pieces(s, 0, n)
  }

  function Flatten(p: seq<seq<bv8>>): seq<bv8>
    decreases |p|
  {
    if p == [] then [] else p[0] + Flatten(p[1..])
  }

  lemma {:induction false} PiecesJoin(s: seq<bv8>, i: nat, n: nat)
    requires 0 < n && i <= |s|
    ensures Flatten(Pieces(s, i, n)) == s[i..]
    decreases |s| - i
  {
    if i < |s| {
      var j := Min(i + n, |s|);
      PiecesJoin(s, j, n);
      assert Pieces(s, i, n)[1..] == Pieces(s, j, n);
      assert s[i..j] + s[j..] == s[i..];
    }
  }

  lemma FourDivides(a: nat, b: nat)
    requires a % 4 == 0 && b % 4 == 0
    ensures (a + b) % 4 == 0 && (a >= b ==> (a - b) % 4 == 0)
  {
  }

  lemma {:induction false} PieceSizes(s: seq<bv8>, i: nat, n: nat, k: nat)
    requires 0 < n && i <= |s| && k < |Pieces(s, i, n)|
    ensures 0 < |Pieces(s, i, n)[k]| <= n && (k + 1 < |Pieces(s, i, n)| ==> |Pieces(s, i, n)[k]| == n)
    ensures n % 4 == 0 && i % 4 == 0 && |s| % 4 == 0 ==> |Pieces(s, i, n)[k]| % 4 == 0
    decreases |s| - i
  {
    var j := Min(i + n, |s|);
    if n % 4 == 0 && i % 4 == 0 && |s| % 4 == 0 {
      FourDivides(i, n);
      FourDivides(j, i);
    }
    if k > 0 {
      PieceSizes(s, j, n, k - 1);
    }
  }

  lemma {:induction false} FlattenAppend(p: seq<seq<bv8>>, q: seq<seq<bv8>>)
    ensures Flatten(p + q) == Flatten(p) + Flatten(q)
    decreases |p|
  {
    if p == [] {
      assert p + q == q;
    } else {
      assert (p + q)[1..] == p[1..] + q;
      FlattenAppend(p[1..], q);
    }
  }

  lemma FlattenNext(p: seq<seq<bv8>>, k: nat)
    requires k < |p|
    ensures Flatten(p[..k + 1]) == Flatten(p[..k]) + p[k]
  {
    assert p[..k + 1] == p[..k] + [p[k]];
    FlattenAppend(p[..k], [p[k]]);
    FlattenOne(p[k]);
  }

  lemma FlattenOne(b: seq<bv8>)
    ensures Flatten([b]) == b
  {
  }
}
