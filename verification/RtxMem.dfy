/** The pool allocator over raw memory: a word array at a base address, with addresses as pointers. */
module RtxMem {
  import opened Bytes
  import opened RtxPool

  // ---------------------------------------------------------------- how memory represents a state

  /** Index of the word at address a. */
  function At(base: nat, a: nat): nat
    requires base <= a
  {
    (a - base) / 4
  }

  /** Element i is linked to its successor and carries its info word. */
  ghost predicate Linked(m: seq<int>, s: State, i: nat)
    requires i < |s.list| && s.base + s.size >= 8
  {
    var a := s.list[i].addr;
    && s.base <= a && At(s.base, a) + 1 < |m|
    && m[At(s.base, a)] == NextAddr(s.list, s.End(), i) && m[At(s.base, a) + 1] == s.list[i].Info()
  }

  ghost predicate Represents(m: seq<int>, s: State) {
    && Inv(s) && s.size <= 4 * |m| && m[0] == s.size && m[1] == s.used
    && m[At(s.base, s.End())] == 0 && m[At(s.base, s.End()) + 1] == s.peak
    && forall i :: 0 <= i < |s.list| ==> Linked(m, s, i)
  }

  /** w is the index of a payload word of b. */
  ghost predicate Payload(base: nat, b: Block, w: nat) {
    b.addr + 8 <= base + 4 * w < b.addr + b.len
  }

  /** No payload word of a block of s differs between m and m'. */
  ghost predicate PayloadsKept(s: State, m: seq<int>, m': seq<int>) {
    |m'| == |m| &&
    forall i, w: nat :: 0 <= i < |s.list| && w < |m| && Payload(s.base, s.list[i], w) ==> m'[w] == m[w]
  }

  lemma Apart(base: nat, a: nat, b: nat)
    requires base <= a < b && base % 8 == 0 && a % 8 == 0 && b % 8 == 0
    ensures At(base, a) + 2 <= At(base, b)
  {
  }

  /** Header words lie behind the pool header and before the sentinel. */
  lemma HeaderWords(s: State, i: nat)
    requires Inv(s) && i < |s.list|
    ensures s.base + 8 <= s.list[i].addr && s.list[i].addr % 8 == 0
    ensures 2 <= At(s.base, s.list[i].addr) && At(s.base, s.list[i].addr) + 2 <= At(s.base, s.End())
  {
    InPool(s.list, s.base, s.End(), i);
    assert BlockOk(s.list, s.End(), i);
    Apart(s.base, s.list[i].addr, s.End());
  }

  /** The word pair behind element k is inside the pool. */
  lemma HoleWords(s: State, k: nat)
    requires Inv(s) && k < |s.list|
    ensures var a := s.list[k].addr + s.list[k].len;
            s.base + 8 <= a <= s.End() && At(s.base, a) <= At(s.base, s.End()) && At(s.base, s.End()) + 2 == s.size / 4
  {
    InPool(s.list, s.base, s.End(), k);
  }

  /** Masking the info word with MB_INFO_LEN_MASK gives the length. */
  lemma MaskedLength(s: State, i: nat)
    requires Inv(s) && i < |s.list|
    ensures s.list[i].Info() / 4 * 4 == s.list[i].len
  {
    assert BlockOk(s.list, s.End(), i);
    var q := s.list[i].len / 8;
    assert s.list[i].Info() == 4 * (2 * q) + s.list[i].kind;
  }

  lemma HeadersApart(s: State, i: nat, j: nat)
    requires Inv(s) && i < j < |s.list|
    ensures s.base <= s.list[i].addr < s.list[j].addr
    ensures At(s.base, s.list[i].addr) + 2 <= At(s.base, s.list[j].addr)
  {
    Ordered(s.list, s.base, s.End(), i, j);
    HeaderWords(s, i);
    HeaderWords(s, j);
    Apart(s.base, s.list[i].addr, s.list[j].addr);
  }

  // ---------------------------------------------------------------- what the writes do to the representation

  /** m' differs from m only in the given words. */
  ghost predicate Writes(m: seq<int>, m': seq<int>, ws: set<int>) {
    |m'| == |m| && forall w :: 0 <= w < |m| && w !in ws ==> m'[w] == m[w]
  }

  /** Filling in or emptying the first element, with both counters. */
  lemma SetFirst(m: seq<int>, m': seq<int>, s: State, t: State)
    requires Represents(m, s) && Inv(t) && t.base == s.base && t.size == s.size
    requires t.list == s.list[0 := t.list[0]] && t.list[0].addr == s.list[0].addr
    requires var p, e := At(s.base, s.list[0].addr), At(s.base, s.End());
             Writes(m, m', {1, p + 1, e + 1}) && m'[1] == t.used && m'[e + 1] == t.peak &&
             p + 1 < |m| && m'[p + 1] == t.list[0].Info()
    ensures Represents(m', t)
  {
    HeaderWords(s, 0);
    forall i | 0 <= i < |t.list| ensures Linked(m', t, i) {
      assert Linked(m, s, i);
      HeaderWords(s, i);
      if i > 0 {
        HeadersApart(s, 0, i);
      }
    }
  }

  lemma ElementWords(s: State, i: nat)
    requires Inv(s) && i <= |s.list|
    ensures var a := if i < |s.list| then s.list[i].addr else s.End();
            && s.base + 8 <= a && 2 <= At(s.base, a) <= At(s.base, s.End())
            && (i < |s.list| ==> At(s.base, a) + 2 <= At(s.base, s.End()))
  {
    if i < |s.list| {
      HeaderWords(s, i);
    }
  }

  /** Linking a new element in behind k. */
  lemma LinkIn(m: seq<int>, m': seq<int>, s: State, t: State, k: nat, b: Block)
    requires Represents(m, s) && Inv(t) && t.base == s.base && t.size == s.size && k < |s.list|
    requires t.list == s.list[..k + 1] + [b] + s.list[k + 1..] && s.base <= s.list[k].addr && s.base <= b.addr
    requires var p, q, e := At(s.base, s.list[k].addr), At(s.base, b.addr), At(s.base, s.End());
             Writes(m, m', {1, e + 1, p, q, q + 1}) && m'[1] == t.used && m'[e + 1] == t.peak &&
             p < |m| && q + 1 < |m| && m'[p] == b.addr && m'[q] == NextAddr(s.list, s.End(), k) && m'[q + 1] == b.Info()
    ensures Represents(m', t)
  {
    assert t.list[k + 1] == b && t.list[k] == s.list[k];
    HeaderWords(t, k + 1);
    HeaderWords(t, k);
    forall i | 0 <= i < |t.list| ensures Linked(m', t, i) {
      HeaderWords(t, i);
      if i <= k {
        assert t.list[i] == s.list[i] && Linked(m, s, i);
        HeadersApart(t, i, k + 1);
        if i < k {
          HeadersApart(t, i, k);
        }
      } else if i > k + 1 {
        LinkedBehind(m, m', s, t, k, b, i);
      }
    }
  }

  lemma LinkedBehind(m: seq<int>, m': seq<int>, s: State, t: State, k: nat, b: Block, i: nat)
    requires Inv(s) && Inv(t) && t.base == s.base && t.size == s.size && k < |s.list| && k + 1 < i < |t.list|
    requires t.list == s.list[..k + 1] + [b] + s.list[k + 1..] && s.base <= s.list[k].addr && s.base <= b.addr
    requires var p, q, e := At(s.base, s.list[k].addr), At(s.base, b.addr), At(s.base, s.End());
             Writes(m, m', {1, e + 1, p, q, q + 1})
    requires Linked(m, s, i - 1)
    ensures Linked(m', t, i)
  {
    assert t.list[i] == s.list[i - 1] && t.list[k + 1] == b && t.list[k] == s.list[k];
    HeaderWords(t, i);
    HeadersApart(t, k + 1, i);
    HeadersApart(t, k, i);
  }

  /** Unlinking element k, which is not the first. */
  lemma Unlink(m: seq<int>, m': seq<int>, s: State, t: State, k: nat)
    requires Represents(m, s) && Inv(t) && t.base == s.base && t.size == s.size && 0 < k < |s.list|
    requires t.list == s.list[..k] + s.list[k + 1..] && t.peak == s.peak && s.base <= s.list[k - 1].addr
    requires var p := At(s.base, s.list[k - 1].addr);
             Writes(m, m', {1, p}) && p < |m| && m'[1] == t.used && m'[p] == NextAddr(s.list, s.End(), k)
    ensures Represents(m', t)
  {
    HeaderWords(s, k - 1);
    forall i | 0 <= i < |t.list| ensures Linked(m', t, i) {
      HeaderWords(t, i);
      var j := if i < k then i else i + 1;
      assert t.list[i] == s.list[j] && Linked(m, s, j);
      if j < k - 1 {
        HeadersApart(s, j, k - 1);
      } else if j > k - 1 {
        HeadersApart(s, k - 1, j);
      }
    }
  }

  lemma Quarter(z: nat)
    ensures 8 * z / 4 == 2 * z
  {
  }

  lemma AtExact(base: nat, a: nat)
    requires base <= a && base % 8 == 0 && a % 8 == 0
    ensures base + 4 * At(base, a) == a
  {
    var z := a / 8 - base / 8;
    assert a - base == 8 * z;
    Quarter(z);
  }

  /** A word that starts before address a, or eight bytes behind it or later, is none of the two words there. */
  lemma OffHeader(base: nat, a: nat, w: nat)
    requires base <= a && base % 8 == 0 && a % 8 == 0 && (base + 4 * w < a || a + 8 <= base + 4 * w)
    ensures w != At(base, a) && w != At(base, a) + 1 && (base + 4 * w < a ==> w < At(base, a))
  {
    AtExact(base, a);
  }

  lemma PayloadBeside(s: State, i: nat, j: nat, w: nat)
    requires Inv(s) && i < |s.list| && j < |s.list| && Payload(s.base, s.list[i], w)
    ensures s.base + 4 * w < s.list[j].addr || s.list[j].addr + 8 <= s.base + 4 * w
  {
    if i < j {
      Ordered(s.list, s.base, s.End(), i, j);
    } else if j < i {
      Ordered(s.list, s.base, s.End(), j, i);
    }
  }

  lemma PayloadOff(s: State, i: nat, j: nat, w: nat)
    requires Inv(s) && i < |s.list| && j < |s.list| && Payload(s.base, s.list[i], w)
    ensures s.base <= s.list[j].addr && w != At(s.base, s.list[j].addr) && w != At(s.base, s.list[j].addr) + 1
  {
    HeaderWords(s, j);
    PayloadBeside(s, i, j, w);
    OffHeader(s.base, s.list[j].addr, w);
  }

  lemma PayloadInside(s: State, i: nat, w: nat)
    requires Inv(s) && i < |s.list| && Payload(s.base, s.list[i], w)
    ensures 1 < w < At(s.base, s.End())
  {
    InPool(s.list, s.base, s.End(), i);
    OffHeader(s.base, s.End(), w);
  }

  /** No word that Alloc or Free writes is a payload word of a block that stays live. */
  lemma PayloadApart(s: State, i: nat, w: nat)
    requires Inv(s) && i < |s.list| && Payload(s.base, s.list[i], w)
    ensures 1 < w < At(s.base, s.End())
    ensures forall j :: 0 <= j < |s.list| ==>
              s.base <= s.list[j].addr && w != At(s.base, s.list[j].addr) && w != At(s.base, s.list[j].addr) + 1
  {
    PayloadInside(s, i, w);
    forall j | 0 <= j < |s.list|
      ensures s.base <= s.list[j].addr && w != At(s.base, s.list[j].addr) && w != At(s.base, s.list[j].addr) + 1
    {
      PayloadOff(s, i, j, w);
    }
  }

  lemma SetFirstKeeps(m: seq<int>, m': seq<int>, s: State)
    requires Inv(s) && s.base <= s.list[0].addr
    requires Writes(m, m', {1, At(s.base, s.list[0].addr) + 1, At(s.base, s.End()) + 1})
    ensures PayloadsKept(s, m, m')
  {
    forall i, w: nat | 0 <= i < |s.list| && w < |m| && Payload(s.base, s.list[i], w) ensures m'[w] == m[w] {
      PayloadApart(s, i, w);
    }
  }

  lemma PayloadBehind(s: State, k: nat, i: nat, w: nat)
    requires Inv(s) && k < |s.list| && i < |s.list| && Payload(s.base, s.list[i], w)
    ensures var a := s.list[k].addr + s.list[k].len; s.base + 4 * w < a || a + 8 <= s.base + 4 * w
  {
    if i < k {
      Ordered(s.list, s.base, s.End(), i, k);
    } else if k < i {
      Ordered(s.list, s.base, s.End(), k, i);
    }
  }

  lemma BehindAligned(s: State, k: nat)
    requires Inv(s) && k < |s.list|
    ensures s.base <= s.list[k].addr + s.list[k].len && (s.list[k].addr + s.list[k].len) % 8 == 0
  {
    assert BlockOk(s.list, s.End(), k);
    AlignedSum(s.list[k].addr, s.list[k].len);
    HoleWords(s, k);
  }

  /** The header words right behind element k, in the hole or of the next element, are no payload. */
  lemma BehindApart(s: State, k: nat, i: nat, w: nat)
    requires Inv(s) && k < |s.list| && i < |s.list| && Payload(s.base, s.list[i], w)
    ensures var a := s.list[k].addr + s.list[k].len;
            s.base <= a && w != At(s.base, a) && w != At(s.base, a) + 1
  {
    PayloadBehind(s, k, i, w);
    BehindAligned(s, k);
    OffHeader(s.base, s.list[k].addr + s.list[k].len, w);
  }

  lemma TakenKeeps(m: seq<int>, m': seq<int>, s: State, k: nat)
    requires Inv(s) && k < |s.list| && s.base <= s.list[k].addr
    requires var p, q := At(s.base, s.list[k].addr), At(s.base, s.list[k].addr + s.list[k].len);
             Writes(m, m', {1, At(s.base, s.End()) + 1, p, p + 1, q, q + 1})
    ensures PayloadsKept(s, m, m')
  {
    forall i, w: nat | 0 <= i < |s.list| && w < |m| && Payload(s.base, s.list[i], w) ensures m'[w] == m[w] {
      PayloadApart(s, i, w);
      BehindApart(s, k, i, w);
    }
  }

  // ---------------------------------------------------------------- what an allocation writes

  /** The counters after an allocation of n bytes. */
  ghost predicate Tallied(m: seq<int>, m': seq<int>, s: State, n: nat)
    requires Inv(s)
  {
    var e := At(s.base, s.End());
    && e + 1 < |m| && Writes(m, m', {1, e + 1}) && (s.used + n < U32 ==> m'[1] == s.used + n)
    && m'[e + 1] == if s.peak < m'[1] then m'[1] else s.peak
  }

  lemma Recounted(m: seq<int>, m': seq<int>, s: State, k: nat, n: nat)
    requires Represents(m, s) && k < |s.list| && Tallied(m, m', s, n)
    ensures Linked(m', s, k)
  {
    assert Linked(m, s, k);
    HeaderWords(s, k);
  }

  /** The element words after the counters: the empty first element is filled in, or a new one is linked in. */
  ghost predicate Entered(m: seq<int>, m': seq<int>, s: State, k: nat, info: int)
    requires Inv(s) && k < |s.list| && s.base <= s.list[k].addr
  {
    var a := s.list[k].addr + s.list[k].len;
    var p, q := At(s.base, s.list[k].addr), At(s.base, a);
    && p + 1 < |m| && q + 1 < |m|
    && if s.list[k].Info() == 0 then Writes(m, m', {p + 1}) && m'[p + 1] == info
       else Writes(m, m', {p, q, q + 1}) && m'[p] == a && m'[q] == NextAddr(s.list, s.End(), k) && m'[q + 1] == info
  }

  lemma EnteredKeeps(m0: seq<int>, m1: seq<int>, m2: seq<int>, s: State, k: nat, n: nat, info: int)
    requires Inv(s) && k < |s.list| && s.base <= s.list[k].addr && Tallied(m0, m1, s, n) && Entered(m1, m2, s, k, info)
    ensures PayloadsKept(s, m0, m2)
  {
    TakenKeeps(m0, m2, s, k);
  }

  /** Filling in the first element represents the state with it. */
  lemma EnteredFirst(m0: seq<int>, m1: seq<int>, m2: seq<int>, s: State, k: nat, n: nat, kind: nat)
    requires Represents(m0, s) && k < |s.list| && s.base <= s.list[k].addr && s.list[k].Info() == 0
    requires Tallied(m0, m1, s, n) && Entered(m1, m2, s, k, n + kind) && Inv(Taken(s, k, n, kind))
    ensures Represents(m2, Taken(s, k, n, kind))
  {
    assert BlockOk(s.list, s.End(), k);
    HeaderWords(s, k);
    SetFirst(m0, m2, s, Taken(s, k, n, kind));
  }

  /** Linking an element in represents the state with it. */
  lemma EnteredBehind(m0: seq<int>, m1: seq<int>, m2: seq<int>, s: State, k: nat, n: nat, kind: nat)
    requires Represents(m0, s) && k < |s.list| && s.base <= s.list[k].addr && s.list[k].Info() != 0
    requires Tallied(m0, m1, s, n) && Entered(m1, m2, s, k, n + kind) && Inv(Taken(s, k, n, kind))
    ensures Represents(m2, Taken(s, k, n, kind))
  {
    var t, b := Taken(s, k, n, kind), Block(s.list[k].addr + s.list[k].len, n, kind);
    assert t.list[k + 1] == b && t.list[k] == s.list[k];
    HeaderWords(t, k);
    HeaderWords(t, k + 1);
    LinkIn(m0, m2, s, t, k, b);
  }

  /** Up to element k the chain is as it was, and the element entered there has the given info word. */
  ghost predicate Stunted(m: seq<int>, s: State, k: nat, info: int)
    requires Inv(s) && k < |s.list| && s.base <= s.list[k].addr
  {
    var a := s.list[k].addr + s.list[k].len;
    var p, q := At(s.base, s.list[k].addr), At(s.base, a);
    && Chained(m, s, k) && p + 1 < |m| && q + 1 < |m|
    && if s.list[k].Info() == 0 then m[p + 1] == info
       else m[p] == a && m[q] == NextAddr(s.list, s.End(), k) && m[q + 1] == info
  }

  lemma EnteredStunted(m0: seq<int>, m1: seq<int>, m2: seq<int>, s: State, k: nat, n: nat, info: int)
    requires Represents(m0, s) && k < |s.list| && s.base <= s.list[k].addr
    requires Tallied(m0, m1, s, n) && Entered(m1, m2, s, k, info)
    ensures Stunted(m2, s, k, info)
  {
    HeaderWords(s, k);
    HoleWords(s, k);
    forall j | 0 <= j < k ensures Onward(m2, s, j) {
      assert Linked(m0, s, j);
      HeaderWords(s, j);
      HeadersApart(s, j, k);
    }
  }

  lemma EnteredInv(m0: seq<int>, m1: seq<int>, m2: seq<int>, s: State, k: nat, n: nat, kind: nat)
    requires Represents(m0, s) && k < |s.list| && s.base <= s.list[k].addr
    requires Tallied(m0, m1, s, n) && Entered(m1, m2, s, k, n + kind) && Inv(Taken(s, k, n, kind))
    ensures Represents(m2, Taken(s, k, n, kind))
  {
    if s.list[k].Info() == 0 {
      EnteredFirst(m0, m1, m2, s, k, n, kind);
    } else {
      EnteredBehind(m0, m1, m2, s, k, n, kind);
    }
  }

  lemma NoOverflow(s: State, k: nat, n: nat, kind: nat)
    requires Inv(s) && k < |s.list| && Hole(s.list, s.End(), k) >= n && kind < 4
    ensures n + kind < U32
  {
    InPool(s.list, s.base, s.End(), k);
    if k + 1 < |s.list| {
      InPool(s.list, s.base, s.End(), k + 1);
    }
  }

  // ---------------------------------------------------------------- broken chains

  /** The next word of element j, which is not the last, leads to its successor. */
  ghost predicate Onward(m: seq<int>, s: State, j: nat)
    requires j + 1 < |s.list|
  {
    var a := s.list[j].addr;
    s.base <= a && At(s.base, a) < |m| && m[At(s.base, a)] == s.list[j + 1].addr
  }

  /** The size word and the chain up to element k are those of s. */
  ghost predicate Chained(m: seq<int>, s: State, k: nat)
    requires k < |s.list|
  {
    |m| > 0 && m[0] == s.size && forall j :: 0 <= j < k ==> Onward(m, s, j)
  }

  /** Memory at this base represents some state of the pool. */
  ghost predicate Usable(m: seq<int>, base: nat) {
    exists t: State :: t.base == base && Represents(m, t)
  }

  /** The chain determines the addresses of any state that memory represents. */
  lemma {:induction false} ChainFollows(m: seq<int>, s: State, t: State, i: nat)
    requires Inv(s) && Represents(m, t) && t.base == s.base && i < |s.list| && Chained(m, s, i)
    ensures t.size == s.size && i < |t.list| && t.list[i].addr == s.list[i].addr
    decreases i
  {
    if i > 0 {
      ChainFollows(m, s, t, i - 1);
      assert Onward(m, s, i - 1) && Linked(m, t, i - 1);
      HeaderWords(s, i);
    }
  }

  /** What freeing the sentinel does: the chain ends at the last block. */
  ghost predicate Severed(s: State, m: seq<int>) {
    && |s.list| > 0 && Chained(m, s, |s.list| - 1)
    && var a := s.list[|s.list| - 1].addr;
       s.base <= a && At(s.base, a) < |m| && m[At(s.base, a)] == 0
  }

  lemma NextWord(m: seq<int>, t: State, i: nat)
    requires Represents(m, t) && i < |t.list|
    ensures t.base <= t.list[i].addr
    ensures var p := At(t.base, t.list[i].addr);
            p + 1 < |m| && m[p] == NextAddr(t.list, t.End(), i) && m[p] > 0
  {
    assert Linked(m, t, i) && BlockOk(t.list, t.End(), i);
  }

  lemma InfoWord(m: seq<int>, t: State, i: nat)
    requires Represents(m, t) && i < |t.list|
    ensures t.base <= t.list[i].addr
    ensures var p := At(t.base, t.list[i].addr);
            p + 1 < |m| && (m[p + 1] >= 16 || (i == 0 && m[p + 1] == 0))
  {
    assert Linked(m, t, i) && BlockOk(t.list, t.End(), i);
  }

  /** Memory so cut represents no state of the pool. */
  lemma SeveredIsBroken(s: State, m: seq<int>, t: State)
    requires Inv(s) && Severed(s, m) && t.base == s.base
    ensures !Represents(m, t)
  {
    if Represents(m, t) {
      ChainFollows(m, s, t, |s.list| - 1);
      NextWord(m, t, |s.list| - 1);
    }
  }

  /** A header that counts as a block of less than 16 bytes is none that any state has. */
  lemma StuntedIsBroken(s: State, m: seq<int>, k: nat, info: int, t: State)
    requires Inv(s) && k < |s.list| && s.base <= s.list[k].addr && Stunted(m, s, k, info) && 0 <= info < 16
    requires (s.list[k].Info() == 0 ==> k == 0 && info != 0) && t.base == s.base
    ensures !Represents(m, t)
  {
    if Represents(m, t) {
      ChainFollows(m, s, t, k);
      NextWord(m, t, k);
      if s.list[k].Info() == 0 {
        InfoWord(m, t, k);
      } else if k + 1 < |t.list| {
        InfoWord(m, t, k + 1);
      } else {
        NextPositive(s, k);
      }
    }
  }

  lemma NextPositive(s: State, k: nat)
    requires Inv(s) && k < |s.list|
    ensures NextAddr(s.list, s.End(), k) > 0
  {
    assert BlockOk(s.list, s.End(), k);
  }

  /** The bytes taken make a block that a state can have: at least a header with payload, or nothing at all, put into
      the empty first element. */
  predicate Whole(s: State, k: nat, n: nat, kind: nat)
    requires k < |s.list|
  {
    n >= 16 || (n == 0 && kind == 0 && s.list[k].Info() == 0)
  }

  lemma WholeTaken(s: State, n: word, kind: word, k: nat)
    requires Inv(s) && n % 8 == 0 && kind < 4 && k == FirstFit(s.list, s.End(), n, 0) < |s.list| && Whole(s, k, n, kind)
    ensures Inv(Taken(s, k, n, kind))
  {
    if n >= 16 {
      AllocKeeps(s, n, kind);
    } else {
      assert s.list[k] == Block(s.list[k].addr, 0, 0);
      assert s.list[k := s.list[k]] == s.list;
    }
  }

  /** What an allocation leaves in memory. */
  lemma Outcome(m0: seq<int>, m1: seq<int>, m2: seq<int>, s: State, k: nat, n: word, kind: word)
    requires Represents(m0, s) && n % 8 == 0 && kind < 4 && k == FirstFit(s.list, s.End(), n, 0) < |s.list|
    requires s.base <= s.list[k].addr && Tallied(m0, m1, s, n) && Entered(m1, m2, s, k, n + kind)
    ensures PayloadsKept(s, m0, m2) && (Whole(s, k, n, kind) ==> Represents(m2, Taken(s, k, n, kind)))
    ensures Usable(m2, s.base) <==> Whole(s, k, n, kind)
  {
    EnteredKeeps(m0, m1, m2, s, k, n, n + kind);
    if Whole(s, k, n, kind) {
      WholeTaken(s, n, kind, k);
      EnteredInv(m0, m1, m2, s, k, n, kind);
    } else {
      assert BlockOk(s.list, s.End(), k);
      EnteredStunted(m0, m1, m2, s, k, n, n + kind);
      forall t: State | t.base == s.base ensures !Represents(m2, t) {
        StuntedIsBroken(s, m2, k, n + kind, t);
      }
    }
  }

  lemma UnlinkKeeps(m: seq<int>, m': seq<int>, s: State, k: nat)
    requires Inv(s) && k < |s.list| && s.base <= s.list[k].addr && Writes(m, m', {1, At(s.base, s.list[k].addr)})
    ensures PayloadsKept(s, m, m')
  {
    forall i, w: nat | 0 <= i < |s.list| && w < |m| && Payload(s.base, s.list[i], w) ensures m'[w] == m[w] {
      PayloadApart(s, i, w);
    }
  }

  lemma Emptied(m: seq<int>, m': seq<int>, s: State, t: State)
    requires Represents(m, s) && Inv(t) && t == Dropped(s, 0) && s.base <= s.list[0].addr
    requires var p := At(s.base, s.list[0].addr);
             Writes(m, m', {1, p + 1}) && m'[1] == t.used && p + 1 < |m| && m'[p + 1] == 0
    ensures Represents(m', t) && PayloadsKept(s, m, m')
  {
    HeaderWords(s, 0);
    SetFirst(m, m', s, t);
    SetFirstKeeps(m, m', s);
  }

  lemma Unlinked(m: seq<int>, m': seq<int>, s: State, t: State, k: nat)
    requires Represents(m, s) && 0 < k < |s.list| && Inv(t) && t == Dropped(s, k) && s.base <= s.list[k - 1].addr
    requires var p := At(s.base, s.list[k - 1].addr);
             Writes(m, m', {1, p}) && p < |m| && m'[1] == t.used && m'[p] == NextAddr(s.list, s.End(), k)
    ensures Represents(m', t) && PayloadsKept(s, m, m')
  {
    Unlink(m, m', s, t, k);
    UnlinkKeeps(m, m', s, k - 1);
  }

  // ---------------------------------------------------------------- what a release writes

  /** Address of element i, where element |list| is the sentinel. */
  function Element(s: State, i: nat): int
    requires i <= |s.list|
  {
    if i < |s.list| then s.list[i].addr else s.End()
  }

  /** The words a release of element k changes. */
  ghost predicate Removed(m: seq<int>, m': seq<int>, s: State, k: nat)
    requires Inv(s) && k <= |s.list|
  {
    ElementWords(s, k);
    ElementWords(s, if k == 0 then 0 else k - 1);
    var i := At(s.base, Element(s, k));
    && i + 1 < |m| && |m'| == |m| && m'[1] == (m[1] + U32 - m[i + 1] / 4 * 4) % U32
    && if k == 0 then Writes(m, m', {1, i + 1}) && m'[i + 1] == 0
       else var j := At(s.base, Element(s, k - 1)); Writes(m, m', {1, j}) && j < |m| && m'[j] == m[i]
  }

  lemma RemovedUsed(m: seq<int>, m': seq<int>, s: State, k: nat)
    requires Represents(m, s) && k < |s.list| && Removed(m, m', s, k) && forall w :: 0 <= w < |m| ==> 0 <= m[w] < U32
    ensures Inv(Dropped(s, k)) && m'[1] == Dropped(s, k).used
  {
    assert Linked(m, s, k);
    MaskedLength(s, k);
    DroppedKeeps(s, k);
    Sub32(s.used, s.list[k].len);
  }

  lemma RemovedBlock(m: seq<int>, m': seq<int>, s: State, k: nat)
    requires Represents(m, s) && k < |s.list| && Removed(m, m', s, k) && forall w :: 0 <= w < |m| ==> 0 <= m[w] < U32
    ensures Inv(Dropped(s, k)) && Represents(m', Dropped(s, k)) && PayloadsKept(s, m, m')
  {
    RemovedUsed(m, m', s, k);
    HeaderWords(s, k);
    assert Linked(m, s, k);
    if k == 0 {
      Emptied(m, m', s, Dropped(s, 0));
    } else {
      HeaderWords(s, k - 1);
      Unlinked(m, m', s, Dropped(s, k), k);
    }
  }

  lemma RemovedSentinel(m: seq<int>, m': seq<int>, s: State)
    requires Represents(m, s) && Removed(m, m', s, |s.list|)
    ensures Severed(s, m')
  {
    var n := |s.list| - 1;
    HeaderWords(s, n);
    forall j | 0 <= j < n ensures Onward(m', s, j) {
      assert Linked(m, s, j);
      HeaderWords(s, j);
      HeadersApart(s, j, n);
    }
  }

  lemma Sub32(a: word, b: word)
    ensures b <= a ==> (a + U32 - b) % U32 == a - b
  {
  }

  /** The walk stops at the block that Find names, or at the sentinel. */
  lemma Located(s: State, h: word, k: nat)
    requires Inv(s) && k <= |s.list| + 1 && (k <= |s.list| ==> Element(s, k) == h)
    requires forall j :: 0 <= j < k && j <= |s.list| ==> Element(s, j) != h
    ensures Find(s.list, h, 0) == if k < |s.list| then k else |s.list|
    ensures k == |s.list| <==> h == s.End()
  {
    var f := Find(s.list, h, 0);
    if f < |s.list| {
      assert Element(s, f) == h;
      HeaderWords(s, f);
    }
    assert Element(s, |s.list|) == s.End();
    if k < |s.list| {
      HeaderWords(s, k);
      FindOnly(s.list, s.base, s.End(), k);
    }
  }

  lemma EndHeader(s: State, block: word)
    requires Inv(s) && block != 0
    ensures HeaderOf(block) == s.End() <==> block == s.base + s.size
  {
  }

  // ---------------------------------------------------------------- the allocator

  /** Adds the block header and rounds up to 8, in 32-bit arithmetic. */
  method Round(size: word) returns (n: word)
    ensures n == Rounded(size) && n % 8 == 0
    ensures 0 < size ==> (n >= size + 8 <==> size <= U32 - 16) && (n >= 16 <==> size <= U32 - 16)
  {
    n := (size + 8) % U32;
    n := (n + 7) % U32 / 8 * 8;
    if size > 0 {
      RoundedCovers(size);
    }
  }

  class Pool {
    const base: nat         // (uint32_t)mem
    const mem: array<word>  // the words from base on
    ghost var st: State

    constructor (base: nat, mem: array<word>)
      ensures this.base == base && this.mem == mem
    {
      this.base, this.mem := base, mem;
      st := Initial(base, 24);
    }

    ghost predicate Valid()
      reads this, mem
    {
      st.base == base && Represents(mem[..], st)
    }

    method Init(size: word) returns (r: word)
      requires size <= 4 * mem.Length && base + size <= U32
      modifies this, mem
      ensures r == if base == 0 || base % 8 != 0 || size % 8 != 0 || size < 24 then 0 else 1
      ensures r == 0 ==> mem[..] == old(mem[..]) && st == old(st)
      ensures r == 1 ==> Valid() && st == Initial(base, size)
      // the pool header, then the empty first element, linked to the sentinel
      ensures r == 1 ==>
                && mem[0] == size && mem[1] == 16
                && mem[2] == base + size - 8 && mem[3] == 0
                && mem[(size - 8) / 4] == 0 && mem[(size - 8) / 4 + 1] == 16
    {
      if base == 0 || base % 8 != 0 || size % 8 != 0 || size < 24 {
        return 0;
      }
      mem[0], mem[1] := size, 16;
      var ptr, last := base + 8, base + size - 8;
      mem[At(base, ptr)] := last;
      mem[At(base, last)] := 0;
      mem[At(base, last) + 1] := 16;
      mem[At(base, ptr) + 1] := 0;
      st := Initial(base, size);
      InitialOk(base, size);
      assert Linked(mem[..], st, 0);
      r := 1;
    }

    method Used() returns (r: word)
      requires Valid()
      ensures r == 16 + Total(st.list)
    {
      r := mem[1];
    }

    /** Walks the list to the first hole of n bytes; p is 0 if there is none. */
    method Search(n: word) returns (p: nat, ghost k: nat)
      requires Valid()
      ensures k == FirstFit(st.list, st.End(), n, 0)
      ensures p == if k < |st.list| then st.list[k].addr else 0
    {
      p, k := base + 8, 0;
      while true
        invariant k < |st.list| && p == st.list[k].addr
        invariant FirstFit(st.list, st.End(), n, 0) == FirstFit(st.list, st.End(), n, k)
        decreases |st.list| - k
      {
        HeaderWords(st, k);
        assert Linked(mem[..], st, k) && BlockOk(st.list, st.End(), k);
        MaskedLength(st, k);
        var hole := mem[At(base, p)] - p;
        hole := hole - mem[At(base, p) + 1] / 4 * 4;
        if hole >= n {
          return;
        }
        p := mem[At(base, p)];
        k := k + 1;
        if k < |st.list| {
          HeaderWords(st, k);
          assert Linked(mem[..], st, k) && BlockOk(st.list, st.End(), k);
        }
        if mem[At(base, p)] == 0 {
          return 0, k;
        }
      }
    }

    /** Whether the pool is still one after the request: rounding did not wrap, nothing was granted, or a block of no
        bytes went into the empty first element. */
    ghost predicate Survives(s: State, size: word, kind: word)
      requires Inv(s)
    {
      size <= U32 - 16 || Granted(s, size, kind) == 0 || (Rounded(size) == 0 && kind == 0 && s.list[0].Info() == 0)
    }

    method Alloc(size: word, kind: word) returns (ptr: nat)
      requires Valid()
      modifies this, mem
      ensures ptr == Granted(old(st), size, kind) && PayloadsKept(old(st), old(mem[..]), mem[..])
      ensures Survives(old(st), size, kind) ==> Valid() && st == Step(old(st), RtxPool.Alloc(size, kind))
      ensures Usable(mem[..], base) <==> Survives(old(st), size, kind)
    {
      if size == 0 || kind >= 4 {
        return 0;
      }
      var n := Round(size);
      var p;
      ghost var k;
      p, k := Search(n);
      if k < |st.list| {
        HeaderWords(st, k);
      }
      if p == 0 {
        return 0;
      }
      WholeMeans(st, size, kind, k);
      ptr := Commit(p, n, kind, k);
    }

    lemma WholeMeans(s: State, size: word, kind: word, k: nat)
      requires Inv(s) && 0 < size && kind < 4 && k == FirstFit(s.list, s.End(), Rounded(size), 0) < |s.list|
      requires 0 < s.list[k].addr
      ensures Survives(s, size, kind) <==> Whole(s, k, Rounded(size), kind)
      ensures Step(s, RtxPool.Alloc(size, kind)) == Taken(s, k, Rounded(size), kind)
    {
      RoundedCovers(size);
      assert BlockOk(s.list, s.End(), 0) && BlockOk(s.list, s.End(), k);
    }

    /** Books n bytes behind the element at p. */
    method Commit(p: nat, n: word, kind: word, ghost k: nat) returns (ptr: nat)
      requires Valid() && kind < 4 && n % 8 == 0 && k == FirstFit(st.list, st.End(), n, 0) < |st.list|
      requires p == st.list[k].addr && base + 8 <= p
      modifies this, mem
      ensures ptr == p + old(st).list[k].len + 8 && PayloadsKept(old(st), old(mem[..]), mem[..])
      ensures Whole(old(st), k, n, kind) ==> Valid() && st == Taken(old(st), k, n, kind)
      ensures Usable(mem[..], base) <==> Whole(old(st), k, n, kind)
    {
      ghost var s, m := st, mem[..];
      ghost var m1;
      HeaderWords(st, k);
      NoOverflow(st, k, n, kind);
      ptr, m1 := Book(p, n, n + kind, k);
      ghost var m2 := mem[..];
      assert Tallied(m, m1, s, n) && Entered(m1, m2, s, k, n + kind);
      Outcome(m, m1, m2, s, k, n, kind);
      st := Taken(s, k, n, kind);
    }

    /** Updates the counters, giving memory m1, and then the list. */
    method Book(p: nat, n: word, info: word, ghost k: nat) returns (ptr: nat, ghost m1: seq<int>)
      requires Valid() && k < |st.list| && p == st.list[k].addr && base + 8 <= p
      modifies mem
      ensures ptr == p + st.list[k].len + 8
      ensures Tallied(old(mem[..]), m1, st, n) && Entered(m1, mem[..], st, k, info)
    {
      Count(n);
      m1 := mem[..];
      Recounted(old(mem[..]), m1, st, k, n);
      ptr := Enter(p, info, k);
    }

    /** Fills in the empty first element, or links a new one in behind the one at p. */
    method Enter(p: nat, info: word, ghost k: nat) returns (ptr: nat)
      requires Inv(st) && st.base == base && st.size <= 4 * mem.Length && k < |st.list| && p == st.list[k].addr
      requires base + 8 <= p && Linked(mem[..], st, k)
      modifies mem
      ensures ptr == p + st.list[k].len + 8 && Entered(old(mem[..]), mem[..], st, k, info)
    {
      assert BlockOk(st.list, st.End(), k);
      HeaderWords(st, k);
      HoleWords(st, k);
      if mem[At(base, p) + 1] == 0 {
        mem[At(base, p) + 1] := info;
        ptr := p + 8;
      } else {
        ptr := Insert(p, info, k);
      }
    }

    /** Adds n to `used` and raises the high-water mark in the sentinel. */
    method Count(n: word)
      requires Valid()
      modifies mem
      ensures Tallied(old(mem[..]), mem[..], st, n)
    {
      mem[1] := (mem[1] + n) % U32;
      var e := At(base, base + mem[0] - 8);
      if mem[e + 1] < mem[1] {
        mem[e + 1] := mem[1];
      }
    }

    /** Links a new element in behind the one at p. */
    method Insert(p: nat, info: word, ghost k: nat) returns (ptr: nat)
      requires Inv(st) && st.base == base && st.size <= 4 * mem.Length && k < |st.list| && p == st.list[k].addr
      requires Linked(mem[..], st, k) && st.list[k].Info() != 0
      modifies mem
      ensures ptr == p + st.list[k].len + 8
      ensures var i, j := At(base, p), At(base, ptr - 8);
              && Writes(old(mem[..]), mem[..], {i, j, j + 1}) && i < j && j + 1 < mem.Length
              && mem[i] == ptr - 8 && mem[j] == NextAddr(st.list, st.End(), k) && mem[j + 1] == info
    {
      HeaderWords(st, k);
      HoleWords(st, k);
      assert BlockOk(st.list, st.End(), k);
      MaskedLength(st, k);
      AlignedSum(p, st.list[k].len);
      var i := At(base, p);
      var q := p + mem[i + 1] / 4 * 4;
      Apart(base, p, q);
      var j := At(base, q);
      mem[j] := mem[i];
      mem[j + 1] := info;
      mem[i] := q;
      ptr := q + 8;
    }
  
    /** Walks the list to the header at h; i is |list| + 1 when there is none, |list| for the sentinel. */
    method Locate(h: word) returns (prev: nat, p: nat, ghost i: nat)
      requires Valid()
      ensures i <= |st.list| + 1 && forall j :: 0 <= j < i && j <= |st.list| ==> Element(st, j) != h
      ensures i <= |st.list| ==> p == h == Element(st, i)
      ensures i == |st.list| + 1 <==> p == 0
      ensures prev == if i == 0 then 0 else Element(st, i - 1)
    {
      prev, p, i := 0, base + 8, 0;
      while p != h
        invariant i <= |st.list| && p == Element(st, i) && forall j :: 0 <= j < i ==> Element(st, j) != h
        invariant prev == if i == 0 then 0 else Element(st, i - 1)
        invariant p > 0
        decreases |st.list| - i
      {
        if i < |st.list| {
          HeaderWords(st, i);
          assert Linked(mem[..], st, i);
        }
        prev := p;
        p := mem[At(base, p)];
        i := i + 1;
        if i < |st.list| {
          HeaderWords(st, i);
        }
        if p == 0 {
          return;
        }
      }
    }

    /** A live block is released and other pointers are refused, with one exception: the address behind the sentinel
        unlinks the sentinel, after which memory is no pool any more. */
    method Free(block: word) returns (r: word)
      requires Valid()
      modifies this, mem
      ensures block != base + old(st).size ==>
                && Valid() && st == Step(old(st), RtxPool.Free(block))
                && PayloadsKept(old(st), old(mem[..]), mem[..])
                && r == if block == 0 || Find(old(st).list, HeaderOf(block), 0) == |old(st).list| then 0 else 1
      ensures block == base + old(st).size ==> r == 1 && Severed(old(st), mem[..])
      ensures Usable(mem[..], base) <==> block != base + old(st).size
    {
      if block == 0 {
        return 0;
      }
      var h := (block + U32 - 8) % U32;
      EndHeader(st, block);
      var prev, p;
      ghost var k;
      prev, p, k := Locate(h);
      Located(st, h, k);
      if p == 0 {
        return 0;
      }
      r := 1;
      Release(prev, p, k);
    }

    /** Takes the element at p out of the list and its length off `used`. */
    method Release(prev: nat, p: nat, ghost k: nat)
      requires Valid() && k <= |st.list| && p == Element(st, k) && prev == if k == 0 then 0 else Element(st, k - 1)
      modifies this, mem
      ensures k < |old(st).list| ==>
                Valid() && st == Dropped(old(st), k) && PayloadsKept(old(st), old(mem[..]), mem[..])
      ensures k == |old(st).list| ==> Severed(old(st), mem[..])
      ensures Usable(mem[..], base) <==> k < |old(st).list|
    {
      ghost var s, m := st, mem[..];
      Unhook(prev, p, k);
      if k < |s.list| {
        RemovedBlock(m, mem[..], s, k);
        st := Dropped(s, k);
      } else {
        RemovedSentinel(m, mem[..], s);
        forall t: State | t.base == base ensures !Represents(mem[..], t) {
          SeveredIsBroken(s, mem[..], t);
        }
      }
    }

    method Unhook(prev: nat, p: nat, ghost k: nat)
      requires Valid() && k <= |st.list| && p == Element(st, k) && prev == if k == 0 then 0 else Element(st, k - 1)
      modifies mem
      ensures Removed(old(mem[..]), mem[..], st, k)
    {
      ElementWords(st, k);
      ElementWords(st, if k == 0 then 0 else k - 1);
      var i := At(base, p);
      mem[1] := (mem[1] + U32 - mem[i + 1] / 4 * 4) % U32;
      if prev == 0 {
        mem[i + 1] := 0;
      } else {
        mem[At(base, prev)] := mem[i];
      }
    }

    /** The owner of a live block may write its payload: the allocator's state does not depend on it. */
    method Store(w: nat, x: word, ghost i: nat)
      requires Valid() && i < |st.list| && Payload(base, st.list[i], w) && w < mem.Length
      modifies mem
      ensures Valid() && mem[..] == old(mem[..])[w := x]
    {
      PayloadApart(st, i, w);
      mem[w] := x;
      forall j | 0 <= j < |st.list| ensures Linked(mem[..], st, j) {
        assert Linked(old(mem[..]), st, j);
      }
    }
  }
}
