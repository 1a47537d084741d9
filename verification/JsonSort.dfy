/** In-place mergesort of a doubly linked list of JSON members. */
module JsonSort {
  import opened Bytes

  // ---------------------------------------------------------------- comparing keys

  type Text = s: seq<byte> | 0 !in s

  function ToLower(c: byte): (r: byte)
    ensures r == 0 <==> c == 0
  {
    if 'A' as byte <= c <= 'Z' as byte then c + 32 else c
  }

  function Fold(c: byte, caseSensitive: bool): byte { if caseSensitive then c else ToLower(c) }

  /** Character i, or the terminating NUL. */
  function CharAt(s: seq<byte>, i: nat): byte { if i < |s| then s[i] else 0 }

  /** Difference at the first position from i on where the (folded) strings differ, 0 if there is none. */
  function Compare(a: Text, b: Text, caseSensitive: bool, i: nat): int
    requires i <= |a| && i <= |b|
    decreases |a| - i
  {
    var x, y := Fold(CharAt(a, i), caseSensitive), Fold(CharAt(b, i), caseSensitive);
    if x != y then x as int - y as int
    else if i == |a| then 0
    else Compare(a, b, caseSensitive, i + 1)
  }

  /** compare_strings: missing keys are never equal. */
  function CompareKeys(a: Option<Text>, b: Option<Text>, caseSensitive: bool): int {
    if a.None? || b.None? then 1 else Compare(a.value, b.value, caseSensitive, 0)
  }

  // ---------------------------------------------------------------- the order of keys

  /** The letters 'A' (65) to 'Z' (90) are folded to 'a' (97) and on, and every other character to itself. */
  lemma FoldsLetters(c: byte)
    ensures Fold(c, true) == c
    ensures Fold(c, false) == if 65 <= c <= 90 then 97 + (c - 65) else c
  {
  }

  /** Text as it counts. */
  function Folded(s: seq<byte>, caseSensitive: bool): (r: seq<byte>)
    ensures |r| == |s|
  {
    seq(|s|, i requires 0 <= i < |s| => Fold(s[i], caseSensitive))
  }

  /** Comparing from the first position where keys can differ orders them like a dictionary. */
  lemma {:induction false} CompareOrdersFrom(a: Text, b: Text, cs: bool, i: nat)
    requires i <= |a| && i <= |b| && Folded(a, cs)[..i] == Folded(b, cs)[..i]
    ensures Compare(a, b, cs, i) < 0 <==> Precedes(Folded(a, cs), Folded(b, cs))
    ensures Compare(a, b, cs, i) == 0 <==> Folded(a, cs) == Folded(b, cs)
    decreases |a| - i
  {
    var x, y := Folded(a, cs), Folded(b, cs);
    if i == |a| {
      assert x == x[..i];
      if i == |b| {
        assert y == y[..i];
        NotAfter(x, y);
      } else {
        assert x < y;
      }
    } else if i == |b| {
      assert y == y[..i];
      NotAfter(x, y);
    } else if x[i] != y[i] {
      FirstDifference(x, y, i);
    } else {
      assert x[..i + 1] == x[..i] + [x[i]] && y[..i + 1] == y[..i] + [y[i]];
      CompareOrdersFrom(a, b, cs, i + 1);
    }
  }

  /** Keys are compared as a dictionary orders them, by their bytes or by their lower-case letters. */
  lemma CompareOrders(a: Text, b: Text, cs: bool)
    ensures Compare(a, b, cs, 0) < 0 <==> Precedes(Folded(a, cs), Folded(b, cs))
    ensures Compare(a, b, cs, 0) == 0 <==> Folded(a, cs) == Folded(b, cs)
    ensures Folded(a, true) == a
  {
    CompareOrdersFrom(a, b, cs, 0);
  }

  method CompareStrings(a: Option<Text>, b: Option<Text>, caseSensitive: bool) returns (r: int)
    ensures r == CompareKeys(a, b, caseSensitive)
    ensures a.None? || b.None? ==> r == 1
    ensures a.Some? && b.Some? ==>
              && (r < 0 <==> Precedes(Folded(a.value, caseSensitive), Folded(b.value, caseSensitive)))
              && (r == 0 <==> Folded(a.value, caseSensitive) == Folded(b.value, caseSensitive))
  {
    if a.None? || b.None? {
      return 1;
    }
    CompareOrders(a.value, b.value, caseSensitive);
    var i := 0;
    while Fold(CharAt(a.value, i), caseSensitive) == Fold(CharAt(b.value, i), caseSensitive)
      invariant i <= |a.value| && i <= |b.value|
      invariant CompareKeys(a, b, caseSensitive) == Compare(a.value, b.value, caseSensitive, i)
      decreases |a.value| - i
    {
      if CharAt(a.value, i) == 0 {
        return 0;
      }
      i := i + 1;
    }
    r := Fold(CharAt(a.value, i), caseSensitive) as int - Fold(CharAt(b.value, i), caseSensitive) as int;
  }

  lemma {:induction false} CompareFlips(a: Text, b: Text, cs: bool, i: nat)
    requires i <= |a| && i <= |b|
    ensures Compare(a, b, cs, i) == -Compare(b, a, cs, i)
    decreases |a| - i
  {
    if Fold(CharAt(a, i), cs) == Fold(CharAt(b, i), cs) && i < |a| {
      CompareFlips(a, b, cs, i + 1);
    }
  }

  lemma {:induction false} CompareTransitive(a: Text, b: Text, c: Text, cs: bool, i: nat)
    requires i <= |a| && i <= |b| && i <= |c|
    requires Compare(a, b, cs, i) <= 0 && Compare(b, c, cs, i) <= 0
    ensures Compare(a, c, cs, i) <= 0
    decreases |a| - i
  {
    if i < |a| && Fold(CharAt(a, i), cs) == Fold(CharAt(b, i), cs) == Fold(CharAt(c, i), cs) {
      CompareTransitive(a, b, c, cs, i + 1);
    }
  }

  // ---------------------------------------------------------------- sorting sequences of members

  class Item {
    var next: Item?
    var prev: Item?
    const key: Option<Text>  // the member's `string`

    constructor (key: Option<Text>)
      ensures this.key == key && next == null && prev == null
    {
      this.key := key;
      next, prev := null, null;
    }
  }

  predicate Less(x: Item, y: Item, cs: bool) { CompareKeys(x.key, y.key, cs) < 0 }

  predicate Leq(x: Item, y: Item, cs: bool) { CompareKeys(x.key, y.key, cs) <= 0 }

  predicate Increasing(s: seq<Item>, cs: bool) { forall i :: 0 < i < |s| ==> Less(s[i - 1], s[i], cs) }

  ghost predicate Sorted(s: seq<Item>, cs: bool) { forall i, j :: 0 <= i < j < |s| ==> Leq(s[i], s[j], cs) }

  ghost predicate Keyed(s: seq<Item>) { forall i :: 0 <= i < |s| ==> s[i].key.Some? }

  ghost predicate Distinct(s: seq<Item>) { forall i, j :: 0 <= i < j < |s| ==> s[i] != s[j] }

  function Merge(a: seq<Item>, b: seq<Item>, cs: bool): (r: seq<Item>)
    ensures |r| == |a| + |b|
  {
    if a == [] then b
    else if b == [] then a
    else if Less(a[0], b[0], cs) then [a[0]] + Merge(a[1..], b, cs)
    else [b[0]] + Merge(a, b[1..], cs)
  }

  function SortSeq(s: seq<Item>, cs: bool): (r: seq<Item>)
    ensures |r| == |s|
    decreases |s|
  {
    if |s| <= 1 || Increasing(s, cs) then s
    else
      var mid := (|s| + 1) / 2;
      Merge(SortSeq(s[..mid], cs), SortSeq(s[mid..], cs), cs)
  }

  lemma Front(s: seq<Item>)
    requires s != []
    ensures multiset(s) == multiset{s[0]} + multiset(s[1..])
  {
    assert s == [s[0]] + s[1..];
  }

  lemma {:induction false} MergePermutes(a: seq<Item>, b: seq<Item>, cs: bool)
    ensures multiset(Merge(a, b, cs)) == multiset(a) + multiset(b)
    decreases |a| + |b|
  {
    if a != [] && b != [] {
      if Less(a[0], b[0], cs) {
        MergePermutes(a[1..], b, cs);
        Front(a);
      } else {
        MergePermutes(a, b[1..], cs);
        Front(b);
      }
    }
  }

  lemma Halves(s: seq<Item>, mid: nat)
    requires mid <= |s|
    ensures multiset(s[..mid]) + multiset(s[mid..]) == multiset(s)
  {
    assert s == s[..mid] + s[mid..];
  }

  lemma {:induction false} SortPermutes(s: seq<Item>, cs: bool)
    ensures multiset(SortSeq(s, cs)) == multiset(s)
    decreases |s|
  {
    if !(|s| <= 1 || Increasing(s, cs)) {
      var mid := (|s| + 1) / 2;
      SortPermutes(s[..mid], cs);
      SortPermutes(s[mid..], cs);
      MergePermutes(SortSeq(s[..mid], cs), SortSeq(s[mid..], cs), cs);
      Halves(s, mid);
    }
  }

  lemma LeqTransitive(x: Item, y: Item, z: Item, cs: bool)
    requires x.key.Some? && y.key.Some? && z.key.Some? && Leq(x, y, cs) && Leq(y, z, cs)
    ensures Leq(x, z, cs)
  {
    CompareTransitive(x.key.value, y.key.value, z.key.value, cs, 0);
  }

  lemma LessOrLeq(x: Item, y: Item, cs: bool)
    requires x.key.Some? && y.key.Some?
    ensures Less(x, y, cs) || Leq(y, x, cs)
  {
    CompareFlips(x.key.value, y.key.value, cs, 0);
  }

  lemma {:induction false} IncreasingSorted(s: seq<Item>, cs: bool, i: nat, j: nat)
    requires Increasing(s, cs) && Keyed(s) && i < j < |s|
    ensures Leq(s[i], s[j], cs)
    decreases j - i
  {
    assert Less(s[j - 1], s[j], cs);
    if i < j - 1 {
      IncreasingSorted(s, cs, i, j - 1);
      LeqTransitive(s[i], s[j - 1], s[j], cs);
    }
  }

  /** A lower bound of both inputs is a lower bound of the merged sequence. */
  lemma {:induction false} MergeBound(x: Item, a: seq<Item>, b: seq<Item>, cs: bool)
    requires forall i :: 0 <= i < |a| ==> Leq(x, a[i], cs)
    requires forall i :: 0 <= i < |b| ==> Leq(x, b[i], cs)
    ensures forall i :: 0 <= i < |a| + |b| ==> Leq(x, Merge(a, b, cs)[i], cs)
    decreases |a| + |b|
  {
    if a != [] && b != [] {
      if Less(a[0], b[0], cs) {
        MergeBound(x, a[1..], b, cs);
      } else {
        MergeBound(x, a, b[1..], cs);
      }
    }
  }

  lemma SortedCons(x: Item, s: seq<Item>, cs: bool)
    requires Sorted(s, cs) && forall i :: 0 <= i < |s| ==> Leq(x, s[i], cs)
    ensures Sorted([x] + s, cs)
  {
  }

  lemma {:induction false} MergeSorts(a: seq<Item>, b: seq<Item>, cs: bool)
    requires Keyed(a) && Keyed(b) && Sorted(a, cs) && Sorted(b, cs)
    ensures Sorted(Merge(a, b, cs), cs)
    decreases |a| + |b|
  {
    if a != [] && b != [] {
      LessOrLeq(a[0], b[0], cs);
      if Less(a[0], b[0], cs) {
        MergeSorts(a[1..], b, cs);
        HeadBound(a[0], b, cs);
        MergeBound(a[0], a[1..], b, cs);
        SortedCons(a[0], Merge(a[1..], b, cs), cs);
      } else {
        MergeSorts(a, b[1..], cs);
        HeadBound(b[0], a, cs);
        MergeBound(b[0], a, b[1..], cs);
        SortedCons(b[0], Merge(a, b[1..], cs), cs);
      }
    }
  }

  lemma HeadBound(x: Item, s: seq<Item>, cs: bool)
    requires x.key.Some? && Keyed(s) && Sorted(s, cs) && s != [] && Leq(x, s[0], cs)
    ensures forall i :: 0 <= i < |s| ==> Leq(x, s[i], cs)
  {
    forall i | 0 < i < |s| ensures Leq(x, s[i], cs) {
      LeqTransitive(x, s[0], s[i], cs);
    }
  }

  lemma KeyedPart(s: seq<Item>, t: seq<Item>)
    requires Keyed(s) && multiset(t) == multiset(s)
    ensures Keyed(t)
  {
    forall i | 0 <= i < |t| ensures t[i].key.Some? {
      assert t[i] in multiset(s);
    }
  }

  /** All keys are there, and none precedes an earlier one. */
  ghost predicate InOrder(s: seq<Item>, cs: bool) {
    Keyed(s) && forall i, j :: 0 <= i < j < |s| ==> !Precedes(Folded(s[j].key.value, cs), Folded(s[i].key.value, cs))
  }

  lemma SortedInOrder(s: seq<Item>, cs: bool)
    requires Keyed(s)
    ensures Sorted(s, cs) <==> InOrder(s, cs)
  {
    forall i, j | 0 <= i < j < |s|
      ensures Leq(s[i], s[j], cs) <==> !Precedes(Folded(s[j].key.value, cs), Folded(s[i].key.value, cs))
    {
      CompareFlips(s[i].key.value, s[j].key.value, cs, 0);
      CompareOrders(s[j].key.value, s[i].key.value, cs);
    }
  }

  /** The result is in dictionary order. */
  lemma SortsKeys(s: seq<Item>, cs: bool)
    requires Keyed(s)
    ensures InOrder(SortSeq(s, cs), cs)
  {
    SortSorts(s, cs);
    SortPermutes(s, cs);
    KeyedPart(s, SortSeq(s, cs));
    SortedInOrder(SortSeq(s, cs), cs);
  }

  /** The result is nondecreasing under compare_strings. */
  lemma {:induction false} SortSorts(s: seq<Item>, cs: bool)
    requires Keyed(s)
    ensures Sorted(SortSeq(s, cs), cs)
    decreases |s|
  {
    if |s| <= 1 {
    } else if Increasing(s, cs) {
      forall i, j | 0 <= i < j < |s| ensures Leq(s[i], s[j], cs) {
        IncreasingSorted(s, cs, i, j);
      }
    } else {
      var mid := (|s| + 1) / 2;
      SortSorts(s[..mid], cs);
      SortSorts(s[mid..], cs);
      SortPermutes(s[..mid], cs);
      SortPermutes(s[mid..], cs);
      KeyedPart(s[..mid], SortSeq(s[..mid], cs));
      KeyedPart(s[mid..], SortSeq(s[mid..], cs));
      MergeSorts(SortSeq(s[..mid], cs), SortSeq(s[mid..], cs), cs);
    }
  }

  /** A missing key is out of order with everything, so that is exactly when the result is not sorted. */
  lemma SortedExactly(s: seq<Item>, cs: bool)
    requires |s| > 1
    ensures Sorted(SortSeq(s, cs), cs) <==> Keyed(s)
  {
    var r := SortSeq(s, cs);
    if Keyed(s) {
      SortSorts(s, cs);
    } else {
      var k :| 0 <= k < |s| && s[k].key.None?;
      SortPermutes(s, cs);
      assert s[k] in multiset(r);
      var i :| 0 <= i < |r| && r[i] == s[k];
      if i == 0 {
        assert !Leq(r[0], r[1], cs);
      } else {
        assert !Leq(r[0], r[i], cs);
      }
    }
  }

  // ---------------------------------------------------------------- linked lists

  /** The chain from head runs through s and ends in NULL; every prev link but the head's is right. */
  ghost predicate IsList(head: Item?, s: seq<Item>)
    reads s
  {
    && Distinct(s) && head == NodeAt(s, 0)
    && forall i :: 0 <= i < |s| ==> s[i].next == NodeAt(s, i + 1) && (i > 0 ==> s[i].prev == s[i - 1])
  }

  function NodeAt(s: seq<Item>, i: nat): Item? { if i < |s| then s[i] else null }

  lemma {:induction false} MergeMembers(a: seq<Item>, b: seq<Item>, cs: bool, x: Item)
    ensures x in Merge(a, b, cs) <==> x in a || x in b
    decreases |a| + |b|
  {
    if a != [] && b != [] {
      if Less(a[0], b[0], cs) {
        MergeMembers(a[1..], b, cs, x);
        assert a == [a[0]] + a[1..];
      } else {
        MergeMembers(a, b[1..], cs, x);
        assert b == [b[0]] + b[1..];
      }
    }
  }

  lemma {:induction false} MergeDistinct(a: seq<Item>, b: seq<Item>, cs: bool)
    requires Distinct(a) && Distinct(b) && forall x :: x in a ==> x !in b
    ensures Distinct(Merge(a, b, cs))
    decreases |a| + |b|
  {
    if a != [] && b != [] {
      if Less(a[0], b[0], cs) {
        MergeDistinct(a[1..], b, cs);
        MergeMembers(a[1..], b, cs, a[0]);
      } else {
        MergeDistinct(a, b[1..], cs);
        MergeMembers(a, b[1..], cs, b[0]);
      }
    }
  }

  /** After i nodes of a and j of b have gone to the front of m, no node that is left is already there. */
  ghost predicate Apart(a: seq<Item>, b: seq<Item>, m: seq<Item>, i: nat, j: nat) {
    && i <= |a| && j <= |b| && |m| == |a| + |b| && Distinct(a) && Distinct(b) && Distinct(m)
    && (forall x, y :: i <= x < |a| && j <= y < |b| ==> a[x] != b[y])
    && (forall x, y :: i <= x < |a| && 0 <= y < i + j ==> a[x] != m[y])
    && (forall x, y :: j <= x < |b| && 0 <= y < i + j ==> b[x] != m[y])
  }

  /** ... and the rest of m is the merge of what is left. */
  ghost predicate Cut(a: seq<Item>, b: seq<Item>, m: seq<Item>, i: nat, j: nat, cs: bool) {
    Apart(a, b, m, i, j) && m[i + j..] == Merge(a[i..], b[j..], cs)
  }

  lemma CutStart(a: seq<Item>, b: seq<Item>, cs: bool)
    requires Distinct(a) && Distinct(b) && forall x :: x in a ==> x !in b
    ensures Cut(a, b, Merge(a, b, cs), 0, 0, cs)
  {
    MergeDistinct(a, b, cs);
    var m := Merge(a, b, cs);
    assert a[0..] == a && b[0..] == b && m[0..] == m;
    forall x, y | 0 <= x < |a| && 0 <= y < |b| ensures a[x] != b[y] {
      assert a[x] in a;
    }
  }

  lemma CutStep(a: seq<Item>, b: seq<Item>, m: seq<Item>, i: nat, j: nat, i': nat, j': nat, cs: bool)
    requires Cut(a, b, m, i, j, cs) && i < |a| && j < |b|
    requires if Less(a[i], b[j], cs) then i' == i + 1 && j' == j else i' == i && j' == j + 1
    ensures m[i + j] == if Less(a[i], b[j], cs) then a[i] else b[j]
    ensures Cut(a, b, m, i', j', cs)
  {
    var r := m[i + j..];
    assert r[0] == m[i + j] && r[1..] == m[i + j + 1..];
    assert a[i..][0] == a[i] && b[j..][0] == b[j] && a[i..][1..] == a[i + 1..] && b[j..][1..] == b[j + 1..];
    var fromA := Less(a[i], b[j], cs);
    assert r[0] == (if fromA then a[i] else b[j]);
    assert r[1..] == Merge(a[i'..], b[j'..], cs);
  }

  /** The links while merging: both rests are lists, and the front of m is linked in both directions. */
  ghost predicate Links(a: seq<Item>, b: seq<Item>, m: seq<Item>, i: nat, j: nat)
    requires |m| == |a| + |b| && i <= |a| && j <= |b|
    reads a, b, m
  {
    && (forall x :: i <= x < |a| ==> a[x].next == NodeAt(a, x + 1) && (x > i ==> a[x].prev == a[x - 1]))
    && (forall x :: j <= x < |b| ==> b[x].next == NodeAt(b, x + 1) && (x > j ==> b[x].prev == b[x - 1]))
    && (forall x :: 0 < x < i + j ==> m[x].prev == m[x - 1])
    && (forall x :: 0 <= x < i + j - 1 ==> m[x].next == m[x + 1])
  }

  /** Appends the next node of m behind tail. */
  method Attach(tail: Item, node: Item, ghost a: seq<Item>, ghost b: seq<Item>, ghost m: seq<Item>,
                ghost i: nat, ghost j: nat, ghost i': nat, ghost j': nat)
    requires Apart(a, b, m, i, j) && Apart(a, b, m, i', j') && Links(a, b, m, i, j)
    requires 0 < i + j && i' + j' == i + j + 1 && i <= i' && j <= j' && tail == m[i + j - 1] && node == m[i + j]
    requires node == if i' > i then a[i] else b[j]
    modifies tail`next, node`prev
    ensures Links(a, b, m, i', j')
  {
    tail.next := node;
    node.prev := tail;
  }

  /** The first r nodes of m are linked, and so are the others, but the two parts are not. */
  ghost predicate TwoParts(m: seq<Item>, r: nat)
    reads m
  {
    && Distinct(m) && 0 < r < |m|
    && (forall x :: 0 < x < r ==> m[x].prev == m[x - 1])
    && (forall x :: 0 <= x < r - 1 ==> m[x].next == m[x + 1])
    && (forall x :: r <= x < |m| ==> m[x].next == NodeAt(m, x + 1) && (x > r ==> m[x].prev == m[x - 1]))
  }

  /** Appends the rest of one list, m[r..], behind tail. */
  method AppendRest(tail: Item, node: Item, ghost m: seq<Item>, ghost r: nat)
    requires TwoParts(m, r) && tail == m[r - 1] && node == m[r]
    modifies tail`next, node`prev
    ensures IsList(m[0], m)
  {
    tail.next := node;
    node.prev := tail;
  }

  lemma RestOfA(a: seq<Item>, b: seq<Item>, m: seq<Item>, i: nat, cs: bool)
    requires Cut(a, b, m, i, |b|, cs)
    ensures forall x :: i + |b| <= x < |m| ==> m[x] == a[x - |b|]
  {
    var r := i + |b|;
    assert m[r..] == a[i..];
    forall x | r <= x < |m| ensures m[x] == a[x - |b|] {
      assert m[r..][x - r] == a[i..][x - r];
    }
  }

  lemma RestOfB(a: seq<Item>, b: seq<Item>, m: seq<Item>, j: nat, cs: bool)
    requires Cut(a, b, m, |a|, j, cs)
    ensures forall x :: |a| + j <= x < |m| ==> m[x] == b[x - |a|]
  {
    var r := |a| + j;
    assert m[r..] == b[j..];
    forall x | r <= x < |m| ensures m[x] == b[x - |a|] {
      assert m[r..][x - r] == b[j..][x - r];
    }
  }

  lemma PartsOfA(a: seq<Item>, b: seq<Item>, m: seq<Item>, i: nat, cs: bool)
    requires Cut(a, b, m, i, |b|, cs) && Links(a, b, m, i, |b|) && i < |a| && i + |b| > 0
    ensures TwoParts(m, i + |b|) && m[i + |b|] == a[i]
  {
    RestOfA(a, b, m, i, cs);
    forall x | i + |b| <= x < |m|
      ensures m[x].next == NodeAt(m, x + 1) && (x > i + |b| ==> m[x].prev == m[x - 1])
    {
      assert m[x] == a[x - |b|];
    }
  }

  lemma PartsOfB(a: seq<Item>, b: seq<Item>, m: seq<Item>, j: nat, cs: bool)
    requires Cut(a, b, m, |a|, j, cs) && Links(a, b, m, |a|, j) && j < |b| && |a| + j > 0
    ensures TwoParts(m, |a| + j) && m[|a| + j] == b[j]
  {
    RestOfB(a, b, m, j, cs);
    forall x | |a| + j <= x < |m|
      ensures m[x].next == NodeAt(m, x + 1) && (x > |a| + j ==> m[x].prev == m[x - 1])
    {
      assert m[x] == b[x - |a|];
    }
  }

  /** Every node of the merge is one of the lists'. */
  lemma MergedNode(a: seq<Item>, b: seq<Item>, cs: bool, x: nat)
    requires x < |a| + |b|
    ensures Merge(a, b, cs)[x] in a || Merge(a, b, cs)[x] in b
  {
    assert Merge(a, b, cs)[x] in Merge(a, b, cs);
    MergeMembers(a, b, cs, Merge(a, b, cs)[x]);
  }

  /** Links the rest of one list behind the merged front. */
  method Append(tail: Item, node: Item, ghost m: seq<Item>, ghost r: nat, ghost a: seq<Item>, ghost b: seq<Item>,
                cs: bool)
    requires m == Merge(a, b, cs) && TwoParts(m, r) && tail == m[r - 1] && node == m[r]
    modifies a, b
    ensures IsList(m[0], m)
  {
    MergedNode(a, b, cs, r - 1);
    MergedNode(a, b, cs, r);
    AppendRest(tail, node, m, r);
  }

  /** The cursors stand at i in a and at j in b, and i + j nodes are linked behind head. */
  ghost predicate Merging(a: seq<Item>, b: seq<Item>, m: seq<Item>, i: nat, j: nat, cs: bool,
                          first: Item?, second: Item?, head: Item?, tail: Item?)
    reads a, b, m
  {
    && Cut(a, b, m, i, j, cs) && Links(a, b, m, i, j)
    && first == NodeAt(a, i) && second == NodeAt(b, j) && (i + j < |a| + |b| || |a| + |b| == 0)
    && if i + j == 0 then head == null && tail == null else head == m[0] && tail == m[i + j - 1]
  }

  /** One list is used up: the rest of the other goes behind the merged front, or is the whole result. */
  method FinishMerge(head: Item?, tail: Item?, first: Item?, second: Item?, cs: bool, ghost a: seq<Item>,
                     ghost b: seq<Item>, ghost m: seq<Item>, ghost i: nat, ghost j: nat)
    returns (result: Item?)
    requires m == Merge(a, b, cs) && Merging(a, b, m, i, j, cs, first, second, head, tail)
    requires first == null || second == null
    modifies a, b
    ensures IsList(result, m)
  {
    if first != null {
      result := FinishFirst(head, tail, first, cs, a, b, m, i);
    } else if second != null {
      result := FinishSecond(head, tail, second, cs, a, b, m, j);
    } else {
      result := head;
    }
  }

  /** The second list is used up. */
  method FinishFirst(head: Item?, tail: Item?, first: Item, cs: bool, ghost a: seq<Item>, ghost b: seq<Item>,
                     ghost m: seq<Item>, ghost i: nat)
    returns (result: Item?)
    requires m == Merge(a, b, cs) && Merging(a, b, m, i, |b|, cs, first, null, head, tail)
    modifies a, b
    ensures IsList(result, m)
  {
    if head == null {
      assert m == a;
      return first;
    }
    PartsOfA(a, b, m, i, cs);
    Append(tail, first, m, i + |b|, a, b, cs);
    return head;
  }

  /** The first list is used up. */
  method FinishSecond(head: Item?, tail: Item?, second: Item, cs: bool, ghost a: seq<Item>, ghost b: seq<Item>,
                      ghost m: seq<Item>, ghost j: nat)
    returns (result: Item?)
    requires m == Merge(a, b, cs) && Merging(a, b, m, |a|, j, cs, null, second, head, tail)
    modifies a, b
    ensures IsList(result, m)
  {
    if head == null {
      assert m == b;
      return second;
    }
    PartsOfB(a, b, m, j, cs);
    Append(tail, second, m, |a| + j, a, b, cs);
    return head;
  }

  /** Moves the smaller of the two nodes behind tail. */
  method MoveSmaller(first: Item, second: Item, head: Item?, tail: Item?, cs: bool, ghost a: seq<Item>,
                     ghost b: seq<Item>, ghost m: seq<Item>, ghost i: nat, ghost j: nat)
    returns (first': Item?, second': Item?, head': Item?, tail': Item?)
    requires m == Merge(a, b, cs) && Merging(a, b, m, i, j, cs, first, second, head, tail)
    modifies a, b
    ensures var less := CompareKeys(first.key, second.key, cs) < 0;
            Merging(a, b, m, if less then i + 1 else i, if less then j else j + 1, cs, first', second', head', tail')
  {
    var c := CompareKeys(first.key, second.key, cs);
    var smaller := if c < 0 then first else second;
    ghost var i', j' := if c < 0 then i + 1 else i, if c < 0 then j else j + 1;
    CutStep(a, b, m, i, j, i', j', cs);
    head' := head;
    if head == null {
      head' := smaller;
    } else {
      MergeMembers(a, b, cs, tail);
      assert tail in m;
      Attach(tail, smaller, a, b, m, i, j, i', j');
    }
    tail' := smaller;
    first', second' := first, second;
    if first == smaller {
      first' := first.next;
    } else {
      second' := second.next;
    }
  }

  /** Merges two lists by relinking their nodes. */
  method MergeLists(first0: Item?, second0: Item?, cs: bool, ghost a: seq<Item>, ghost b: seq<Item>)
    returns (result: Item?)
    requires IsList(first0, a) && IsList(second0, b) && forall x :: x in a ==> x !in b
    modifies a, b
    ensures IsList(result, Merge(a, b, cs))
  {
    ghost var m := Merge(a, b, cs);
    CutStart(a, b, cs);
    var first, second, tail: Item? := first0, second0, null;
    result := null;
    ghost var i, j := 0, 0;
    while first != null && second != null
      invariant Merging(a, b, m, i, j, cs, first, second, result, tail)
      decreases |a| + |b| - i - j
    {
      ghost var less := CompareKeys(first.key, second.key, cs) < 0;
      first, second, result, tail := MoveSmaller(first, second, result, tail, cs, a, b, m, i, j);
      i, j := if less then i + 1 else i, if less then j else j + 1;
    }
    result := FinishMerge(result, tail, first, second, cs, a, b, m, i, j);
  }

  /** Where the walk with two pointers, one twice as fast, leaves the slow one. */
  method FindMiddle(list: Item, ghost s: seq<Item>) returns (second: Item)
    requires IsList(list, s) && |s| >= 2
    ensures second == s[(|s| + 1) / 2]
  {
    var slow: Item?, current: Item? := list, list;
    ghost var k := 0;
    while current != null
      invariant 0 <= k <= (|s| + 1) / 2 && slow == NodeAt(s, k)
      invariant current == NodeAt(s, 2 * k) && (current == null ==> k == (|s| + 1) / 2)
      decreases |s| - k
    {
      slow := slow.next;
      current := current.next;
      if current != null {
        current := current.next;
      }
      k := k + 1;
    }
    second := slow;
  }

  /** Whether the keys are strictly increasing along the list. */
  method TestIncreasing(list: Item, cs: bool, ghost s: seq<Item>) returns (r: bool)
    requires IsList(list, s) && s != []
    ensures r == Increasing(s, cs)
  {
    var current := list;
    ghost var k := 0;
    while current.next != null && CompareKeys(current.key, current.next.key, cs) < 0
      invariant k < |s| && current == s[k] && forall i :: 0 < i <= k ==> Less(s[i - 1], s[i], cs)
      decreases |s| - k
    {
      current := current.next;
      k := k + 1;
    }
    r := current.next == null;
    if !r {
      assert !Less(s[k], s[k + 1], cs);
      assert !Less(s[k + 1 - 1], s[k + 1], cs);
    }
  }

  lemma SameMembers(r: seq<Item>, s: seq<Item>)
    requires multiset(r) == multiset(s)
    ensures (forall x :: x in r <==> x in s) && forall i :: 0 <= i < |r| ==> r[i] in s
  {
    forall x: Item ensures x in r <==> x in s {
      assert x in r <==> x in multiset(r);
    }
  }

  lemma SortedMembers(s: seq<Item>, cs: bool)
    ensures forall x :: x in SortSeq(s, cs) <==> x in s
    ensures forall i :: 0 <= i < |s| ==> SortSeq(s, cs)[i] in s
  {
    SortPermutes(s, cs);
    SameMembers(SortSeq(s, cs), s);
  }

  lemma HalvesApart(s: seq<Item>, mid: nat)
    requires Distinct(s) && mid <= |s|
    ensures (forall x :: x in s[..mid] ==> x in s && x !in s[mid..]) && (forall x :: x in s[mid..] ==> x in s)
  {
  }

  lemma SortsHalves(s: seq<Item>, cs: bool)
    requires |s| > 1 && !Increasing(s, cs)
    ensures var mid := (|s| + 1) / 2;
            SortSeq(s, cs) == Merge(SortSeq(s[..mid], cs), SortSeq(s[mid..], cs), cs)
  {
  }

  /** Cuts the list before its middle node. */
  method Split(list: Item, second: Item, ghost s: seq<Item>, ghost mid: nat)
    requires IsList(list, s) && 0 < mid < |s| && second == s[mid]
    modifies s
    ensures IsList(list, s[..mid]) && IsList(second, s[mid..])
  {
    if second.prev != null {
      assert second.prev == s[mid - 1];
      second.prev.next := null;
      second.prev := null;
    }
  }

  /** Sorts the list in place: the result is a NULL-terminated chain of the same nodes, in the order of SortSeq. */
  method SortList(list: Item?, cs: bool, ghost s: seq<Item>) returns (result: Item?)
    requires IsList(list, s)
    modifies s
    ensures IsList(result, SortSeq(s, cs)) && multiset(SortSeq(s, cs)) == multiset(s)
    ensures Keyed(s) ==> InOrder(SortSeq(s, cs), cs)
    decreases |s|, 3
  {
    SortPermutes(s, cs);
    if Keyed(s) {
      SortsKeys(s, cs);
    }
    result := list;
    if list == null || list.next == null {
      return;
    }
    var increasing := TestIncreasing(list, cs, s);
    if !increasing {
      SortsHalves(s, cs);
      result := SplitAndSort(list, cs, s);
    }
  }

  method SplitAndSort(list: Item, cs: bool, ghost s: seq<Item>) returns (result: Item?)
    requires IsList(list, s) && |s| >= 2
    modifies s
    ensures var mid := (|s| + 1) / 2;
            IsList(result, Merge(SortSeq(s[..mid], cs), SortSeq(s[mid..], cs), cs))
    decreases |s|, 2
  {
    var second := FindMiddle(list, s);
    result := SortSplit(list, second, cs, s, (|s| + 1) / 2);
  }

  method SortSplit(list: Item, second: Item, cs: bool, ghost s: seq<Item>, ghost mid: nat) returns (result: Item?)
    requires IsList(list, s) && 0 < mid < |s| && second == s[mid]
    modifies s
    ensures IsList(result, Merge(SortSeq(s[..mid], cs), SortSeq(s[mid..], cs), cs))
    decreases |s|, 1
  {
    Split(list, second, s, mid);
    HalvesApart(s, mid);
    ghost var a, b := s[..mid], s[mid..];
    result := SortHalves(list, second, cs, a, b);
  }

  lemma Separate(a: seq<Item>, b: seq<Item>)
    requires forall x :: x in a ==> x !in b
    ensures forall i :: 0 <= i < |a| ==> a[i] !in b
    ensures forall i :: 0 <= i < |b| ==> b[i] !in a
  {
  }

  /** Sorts one list while another stands by. */
  method SortBeside(list: Item?, cs: bool, ghost b: seq<Item>, ghost head: Item?, ghost sa: seq<Item>)
    returns (result: Item?)
    requires IsList(list, b) && IsList(head, sa) && forall i :: 0 <= i < |sa| ==> sa[i] !in b
    modifies b
    ensures IsList(result, SortSeq(b, cs)) && IsList(head, sa)
    decreases |b|, 4
  {
    result := SortList(list, cs, b);
    forall i | 0 <= i < |sa| ensures sa[i].next == old(sa[i].next) && sa[i].prev == old(sa[i].prev) {
    }
  }

  method SortHalves(list: Item, second: Item, cs: bool, ghost a: seq<Item>, ghost b: seq<Item>) returns (result: Item?)
    requires IsList(list, a) && IsList(second, b) && forall x :: x in a ==> x !in b
    modifies a, b
    ensures IsList(result, Merge(SortSeq(a, cs), SortSeq(b, cs), cs))
    decreases |a| + |b|, 0
  {
    SortedMembers(a, cs);
    SortedMembers(b, cs);
    Separate(a, b);
    var head := SortBeside(list, cs, a, second, b);
    var rest := SortBeside(second, cs, b, head, SortSeq(a, cs));
    result := MergeLists(head, rest, cs, SortSeq(a, cs), SortSeq(b, cs));
  }
}
