/** The first-fit pool allocator, seen as an address-ordered list of blocks. */
module RtxPool {
  import opened Bytes

  type word = x: int | 0 <= x < U32

  /** A list element: header address, and the length and type packed in its info word. */
  datatype Block = Block(addr: nat, len: nat, kind: nat) {
    function Info(): nat { len + kind }
  }

  /** Request size plus header, rounded up to 8, in 32-bit arithmetic. */
  function Rounded(size: word): (n: word) {
    ((size + 8) % U32 + 7) % U32 / 8 * 8
  }

  /** Address of the element after i; the sentinel at `end` closes the list. */
  function NextAddr(list: seq<Block>, end: nat, i: nat): nat
    requires i < |list|
  {
    if i + 1 < |list| then list[i + 1].addr else end
  }

  predicate BlockOk(list: seq<Block>, end: nat, i: nat)
    requires i < |list|
  {
    var b := list[i];
    && b.addr % 8 == 0 && b.len % 8 == 0 && b.kind < 4 && b.Info() < U32
    && (b.len >= 16 || (i == 0 && b.Info() == 0))
    && b.addr < NextAddr(list, end, i) && b.addr + b.len <= NextAddr(list, end, i)
  }

  /** Elements are aligned and in address order from the first block to the sentinel, and none reaches into the
      next; only the first may be empty. */
  predicate WellFormed(list: seq<Block>, base: nat, end: nat) {
    && |list| > 0 && list[0].addr == base + 8 && end % 8 == 0
    && forall i :: 0 <= i < |list| ==> BlockOk(list, end, i)
  }

  function Hole(list: seq<Block>, end: nat, i: nat): nat
    requires i < |list| && BlockOk(list, end, i)
  {
    NextAddr(list, end, i) - list[i].addr - list[i].len
  }

  /** The first element from lo on with a hole of n bytes behind it, or |list|. */
  function FirstFit(list: seq<Block>, end: nat, n: nat, lo: nat): (k: nat)
    requires lo <= |list| && forall i :: 0 <= i < |list| ==> BlockOk(list, end, i)
    ensures lo <= k <= |list|
    ensures k < |list| ==> Hole(list, end, k) >= n
    ensures forall i :: lo <= i < k ==> Hole(list, end, i) < n
    decreases |list| - lo
  {
    if lo == |list| || Hole(list, end, lo) >= n then lo else FirstFit(list, end, n, lo + 1)
  }

  /** Takes n bytes behind element k: an empty first element is filled in, otherwise a new one is linked in. */
  function Take(list: seq<Block>, k: nat, n: nat, kind: nat): seq<Block>
    requires k < |list|
  {
    if list[k].Info() == 0 then list[k := Block(list[k].addr, n, kind)]
    else list[..k + 1] + [Block(list[k].addr + list[k].len, n, kind)] + list[k + 1..]
  }

  function Drop(list: seq<Block>, k: nat): seq<Block>
    requires k < |list|
  {
    if k == 0 then list[0 := Block(list[0].addr, 0, 0)] else list[..k] + list[k + 1..]
  }

  function Total(list: seq<Block>): nat {
    if list == [] then 0 else list[0].len + Total(list[1..])
  }

  // ---------------------------------------------------------------- order and extents

  lemma {:induction false} Ordered(list: seq<Block>, base: nat, end: nat, i: nat, j: nat)
    requires WellFormed(list, base, end) && i < j < |list|
    ensures list[i].addr < list[j].addr && list[i].addr + list[i].len <= list[j].addr
    ensures list[j].addr + list[j].len <= end
    decreases |list| - i
  {
    assert BlockOk(list, end, i) && BlockOk(list, end, j);
    if i + 1 < j {
      Ordered(list, base, end, i + 1, j);
      assert BlockOk(list, end, i + 1);
    } else if j + 1 < |list| {
      InPool(list, base, end, j);
    }
  }

  lemma {:induction false} InPool(list: seq<Block>, base: nat, end: nat, i: nat)
    requires WellFormed(list, base, end) && i < |list|
    ensures base + 8 <= list[i].addr < end && list[i].addr + list[i].len <= end
    decreases |list| - i
  {
    InPoolUp(list, base, end, i);
    InPoolDown(list, base, end, i);
  }

  lemma {:induction false} InPoolUp(list: seq<Block>, base: nat, end: nat, i: nat)
    requires WellFormed(list, base, end) && i < |list|
    ensures list[i].addr < end && list[i].addr + list[i].len <= end
    decreases |list| - i
  {
    assert BlockOk(list, end, i);
    if i + 1 < |list| {
      InPoolUp(list, base, end, i + 1);
    }
  }

  lemma {:induction false} InPoolDown(list: seq<Block>, base: nat, end: nat, i: nat)
    requires WellFormed(list, base, end) && i < |list|
    ensures base + 8 <= list[i].addr
    decreases i
  {
    if i > 0 {
      InPoolDown(list, base, end, i - 1);
      assert BlockOk(list, end, i - 1);
    }
  }

  // ---------------------------------------------------------------- what the operations keep

  lemma AlignedSum(a: nat, b: nat)
    requires a % 8 == 0 && b % 8 == 0
    ensures (a + b) % 8 == 0
  {
  }

  lemma TakeKeeps(list: seq<Block>, base: nat, end: nat, k: nat, n: nat, kind: nat)
    requires WellFormed(list, base, end) && k < |list| && Hole(list, end, k) >= n
    requires n % 8 == 0 && n >= 16 && kind < 4 && n + kind < U32
    ensures WellFormed(Take(list, k, n, kind), base, end)
  {
    var r := Take(list, k, n, kind);
    assert BlockOk(list, end, k);
    AlignedSum(list[k].addr, list[k].len);
    forall i | 0 <= i < |r| ensures BlockOk(r, end, i) {
      if list[k].Info() == 0 || i <= k {
        assert BlockOk(list, end, i);
      } else if i > k + 1 {
        assert BlockOk(list, end, i - 1);
      }
    }
  }

  lemma DropKeeps(list: seq<Block>, base: nat, end: nat, k: nat)
    requires WellFormed(list, base, end) && k < |list|
    ensures WellFormed(Drop(list, k), base, end)
  {
    var r := Drop(list, k);
    assert BlockOk(list, end, k);
    forall i | 0 <= i < |r| ensures BlockOk(r, end, i) {
      assert BlockOk(list, end, if k == 0 || i < k then i else i + 1);
    }
  }

  /** Freeing what was just allocated restores the list. */
  lemma DropTaken(list: seq<Block>, k: nat, n: nat, kind: nat)
    requires k < |list| && (list[k].Info() == 0 ==> k == 0)
    ensures Drop(Take(list, k, n, kind), if list[k].Info() == 0 then k else k + 1) == list
  {
  }

  lemma {:induction false} TotalSum(a: seq<Block>, b: seq<Block>)
    ensures Total(a + b) == Total(a) + Total(b)
    decreases |a|
  {
    if a == [] {
      assert a + b == b;
    } else {
      assert (a + b)[1..] == a[1..] + b;
      TotalSum(a[1..], b);
    }
  }

  lemma {:induction false} TotalAt(list: seq<Block>, k: nat)
    requires k < |list|
    ensures Total(list) == Total(list[..k]) + list[k].len + Total(list[k + 1..])
    decreases k
  {
    if k == 0 {
      assert list[..0] == [];
    } else {
      TotalAt(list[1..], k - 1);
      assert list[..k][1..] == list[1..][..k - 1] && list[1..][k..] == list[k + 1..];
    }
  }

  lemma TotalCons(b: Block, rest: seq<Block>)
    ensures Total([b] + rest) == b.len + Total(rest)
  {
    assert ([b] + rest)[1..] == rest;
  }

  lemma TotalUpdate(list: seq<Block>, k: nat, b: Block)
    requires k < |list|
    ensures Total(list[k := b]) == Total(list) - list[k].len + b.len
  {
    var r := list[k := b];
    TotalAt(list, k);
    TotalAt(r, k);
    assert r[..k] == list[..k] && r[k + 1..] == list[k + 1..];
  }

  lemma TotalInsert(list: seq<Block>, k: nat, b: Block)
    requires k <= |list|
    ensures Total(list[..k] + [b] + list[k..]) == Total(list) + b.len
  {
    assert list[..k] + [b] + list[k..] == list[..k] + ([b] + list[k..]) && list[..k] + list[k..] == list;
    TotalSum(list[..k], [b] + list[k..]);
    TotalSum(list[..k], list[k..]);
    TotalCons(b, list[k..]);
  }

  lemma TotalTake(list: seq<Block>, k: nat, n: nat, kind: nat)
    requires k < |list|
    ensures Total(Take(list, k, n, kind)) == Total(list) + n
  {
    if list[k].Info() == 0 {
      TotalUpdate(list, k, Block(list[k].addr, n, kind));
    } else {
      TotalInsert(list, k + 1, Block(list[k].addr + list[k].len, n, kind));
    }
  }

  lemma TotalDrop(list: seq<Block>, k: nat)
    requires k < |list|
    ensures Total(Drop(list, k)) == Total(list) - list[k].len
  {
    if k == 0 {
      TotalUpdate(list, 0, Block(list[0].addr, 0, 0));
    } else {
      TotalAt(list, k);
      TotalSum(list[..k], list[k + 1..]);
    }
  }

  /** The blocks fit between the first header and the sentinel. */
  lemma {:induction false} TotalFits(list: seq<Block>, base: nat, end: nat, i: nat)
    requires WellFormed(list, base, end) && i < |list|
    ensures list[i].addr + Total(list[i..]) <= end
    decreases |list| - i
  {
    assert BlockOk(list, end, i);
    assert list[i..][1..] == list[i + 1..];
    if i + 1 < |list| {
      TotalFits(list, base, end, i + 1);
    }
  }

  // ---------------------------------------------------------------- first fit

  /** No byte of [x, x + n) belongs to a block, and all of them lie between the pool header and the sentinel. */
  ghost predicate FreeRun(list: seq<Block>, base: nat, end: nat, x: nat, n: nat) {
    && base + 8 <= x && x + n <= end
    && forall i :: 0 <= i < |list| ==> x + n <= list[i].addr || list[i].addr + list[i].len <= x || list[i].len == 0
  }

  /** Every free run lies in one hole, however its bytes came to be free. */
  lemma {:induction false} RunInHole(list: seq<Block>, base: nat, end: nat, x: nat, n: nat, j: nat) returns (i: nat)
    requires WellFormed(list, base, end) && FreeRun(list, base, end, x, n) && n > 0
    requires j < |list| && list[j].addr <= x
    ensures i < |list| && list[i].addr + list[i].len <= x && x + n <= NextAddr(list, end, i)
    decreases |list| - j
  {
    assert BlockOk(list, end, j);
    if j + 1 < |list| && list[j + 1].addr <= x {
      i := RunInHole(list, base, end, x, n, j + 1);
    } else {
      i := j;
      if j + 1 < |list| {
        assert BlockOk(list, end, j + 1);
      }
    }
  }

  /** A hole is a free run. */
  lemma HoleIsFree(list: seq<Block>, base: nat, end: nat, k: nat, n: nat)
    requires WellFormed(list, base, end) && k < |list| && Hole(list, end, k) >= n
    ensures FreeRun(list, base, end, list[k].addr + list[k].len, n)
  {
    var x := list[k].addr + list[k].len;
    InPool(list, base, end, k);
    assert BlockOk(list, end, k);
    if k + 1 < |list| {
      InPool(list, base, end, k + 1);
    }
    forall i | 0 <= i < |list|
      ensures x + n <= list[i].addr || list[i].addr + list[i].len <= x || list[i].len == 0
    {
      if i < k {
        Ordered(list, base, end, i, k);
      } else if i > k + 1 {
        Ordered(list, base, end, k + 1, i);
      }
    }
  }

  /** First fit fails exactly when the pool has no free run of n bytes, and otherwise finds the lowest one. */
  lemma FirstFitIsLowest(list: seq<Block>, base: nat, end: nat, n: nat)
    requires WellFormed(list, base, end) && n > 0
    ensures var k := FirstFit(list, end, n, 0);
            && (k == |list| <==> forall x :: !FreeRun(list, base, end, x, n))
            && (k < |list| ==> FreeRun(list, base, end, list[k].addr + list[k].len, n))
            && (k < |list| ==> forall x :: FreeRun(list, base, end, x, n) ==> list[k].addr + list[k].len <= x)
  {
    var k := FirstFit(list, end, n, 0);
    if k < |list| {
      HoleIsFree(list, base, end, k, n);
    }
    forall x | FreeRun(list, base, end, x, n) ensures k < |list| && list[k].addr + list[k].len <= x {
      var i := RunInHole(list, base, end, x, n, 0);
      assert BlockOk(list, end, i) && Hole(list, end, i) >= n;
      assert k <= i;
      if k < i {
        Ordered(list, base, end, k, i);
      }
    }
  }

  // ---------------------------------------------------------------- runs of the allocator

  datatype State = State(base: nat, size: nat, list: seq<Block>, used: nat, peak: nat) {
    function End(): int { base + size - 8 }
  }

  datatype Op = Alloc(size: word, kind: word) | Free(block: word)

  ghost predicate Inv(s: State) {
    && 0 < s.base && s.base % 8 == 0 && s.size % 8 == 0 && 24 <= s.size && s.base + s.size <= U32
    && WellFormed(s.list, s.base, s.End()) && s.used == 16 + Total(s.list) && s.used <= s.peak <= s.size
  }

  /** The element whose header is at addr, or |list|. */
  function Find(list: seq<Block>, addr: nat, lo: nat): (k: nat)
    requires lo <= |list|
    ensures lo <= k <= |list| && (k < |list| ==> list[k].addr == addr)
    ensures forall i :: lo <= i < k ==> list[i].addr != addr
    decreases |list| - lo
  {
    if lo == |list| || list[lo].addr == addr then lo else Find(list, addr, lo + 1)
  }

  function HeaderOf(block: word): word { (block + U32 - 8) % U32 }

  function Taken(s: State, k: nat, n: nat, kind: nat): State
    requires k < |s.list|
  {
    s.(list := Take(s.list, k, n, kind), used := s.used + n,
       peak := if s.peak < s.used + n then s.used + n else s.peak)
  }

  function Dropped(s: State, k: nat): State
    requires Inv(s) && k < |s.list|
  {
    TotalAt(s.list, k);
    s.(list := Drop(s.list, k), used := s.used - s.list[k].len)
  }

  function Step(s: State, op: Op): State
    requires Inv(s)
  {
    match op
    case Alloc(size, kind) =>
      if size == 0 || kind >= 4 then s
      else
        var n := Rounded(size);
        var k := FirstFit(s.list, s.End(), n, 0);
        if k == |s.list| then s else Taken(s, k, n, kind)
    case Free(block) =>
      var k := Find(s.list, HeaderOf(block), 0);
      if block == 0 || k == |s.list| then s else Dropped(s, k)
  }

  /** Requests whose rounding does not wrap, and frees of anything but the sentinel's payload address. */
  predicate Sound(top: nat, op: Op) {
    match op
    case Alloc(size, _) => size <= U32 - 16
    case Free(block) => block != top
  }

  ghost predicate AllSound(top: nat, ops: seq<Op>) {
    forall i :: 0 <= i < |ops| ==> Sound(top, ops[i])
  }

  /** The rounded size covers header and request exactly up to 2^32 - 16. */
  lemma RoundedCovers(size: word)
    requires size > 0
    ensures Rounded(size) >= size + 8 <==> size <= U32 - 16
    ensures size <= U32 - 16 ==> 16 <= Rounded(size) < size + 16
    ensures size > U32 - 16 ==> Rounded(size) <= 8
    ensures Rounded(size) % 8 == 0
  {
  }

  /** The largest 15 requests wrap: one such "block" is granted no bytes at all, another only its header. */
  lemma RoundedWraps()
    ensures Rounded(U32 - 15) == 0 && Rounded(U32 - 1) == 8
  {
  }

  lemma StepKeeps(s: State, op: Op)
    requires Inv(s) && Sound(s.base + s.size, op)
    ensures Inv(Step(s, op)) && Step(s, op).used <= Step(s, op).peak
    ensures Step(s, op).base == s.base && Step(s, op).size == s.size
    ensures Step(s, op).peak == if Step(s, op).used > s.peak then Step(s, op).used else s.peak
  {
    match op
    case Alloc(size, kind) =>
      if 0 < size && kind < 4 {
        RoundedCovers(size);
        AllocKeeps(s, Rounded(size), kind);
      }
    case Free(block) =>
      var k := Find(s.list, HeaderOf(block), 0);
      if k < |s.list| {
        DroppedKeeps(s, k);
      }
  }

  lemma DroppedKeeps(s: State, k: nat)
    requires Inv(s) && k < |s.list|
    ensures Inv(Dropped(s, k)) && s.list[k].len <= s.used
  {
    TotalAt(s.list, k);
    DropKeeps(s.list, s.base, s.End(), k);
    TotalDrop(s.list, k);
  }

  lemma AllocFits(s: State, n: word, kind: word)
    requires Inv(s) && n >= 16 && n % 8 == 0 && kind < 4
    ensures var k := FirstFit(s.list, s.End(), n, 0);
            k < |s.list| ==>
              var list := Take(s.list, k, n, kind);
              WellFormed(list, s.base, s.End()) && Total(list) == Total(s.list) + n && 16 + Total(list) <= s.size
  {
    var k := FirstFit(s.list, s.End(), n, 0);
    if k < |s.list| {
      TakeKeeps(s.list, s.base, s.End(), k, n, kind);
      TotalTake(s.list, k, n, kind);
      var list := Take(s.list, k, n, kind);
      TotalFits(list, s.base, s.End(), 0);
      assert list[0..] == list;
    }
  }

  lemma AllocKeeps(s: State, n: word, kind: word)
    requires Inv(s) && n >= 16 && n % 8 == 0 && kind < 4
    ensures var k := FirstFit(s.list, s.End(), n, 0);
            k < |s.list| ==> Inv(Taken(s, k, n, kind))
  {
    AllocFits(s, n, kind);
  }

  function Initial(base: nat, size: nat): State {
    State(base, size, [Block(base + 8, 0, 0)], 16, 16)
  }

  /** The blocks that are allocated. */
  function Live(s: State): set<Block> { set b | b in s.list && b.len > 0 }

  /** A fresh pool has no blocks: all of it, but for the pool header and the sentinel, is one free run. */
  lemma InitialOk(base: nat, size: nat)
    requires 0 < base && base % 8 == 0 && size % 8 == 0 && 24 <= size && base + size <= U32
    ensures var s := Initial(base, size);
            && Inv(s) && s.used == s.peak == 16 && Live(s) == {}
            && FreeRun(s.list, base, s.End(), base + 8, size - 16)
  {
    var s := Initial(base, size);
    AlignedSum(base, 8);
    AlignedSum(base, size - 8);
    assert BlockOk(s.list, s.End(), 0);
    assert s.list[1..] == [] && Total([]) == 0;
  }

  /** The pointer an allocation returns; 0 is NULL. */
  function Granted(s: State, size: word, kind: word): nat
    requires Inv(s)
  {
    var k := FirstFit(s.list, s.End(), Rounded(size), 0);
    if size == 0 || kind >= 4 || k == |s.list| then 0 else s.list[k].addr + s.list[k].len + 8
  }

  /** NULL exactly when no contiguous free run of the rounded size exists anywhere in the pool; otherwise the
      lowest such run is used, and the new live block has room for the request behind its header. */
  lemma GrantedIsLowestRun(s: State, size: word, kind: word)
    requires Inv(s) && 0 < size <= U32 - 16 && kind < 4
    ensures var r, n := Granted(s, size, kind), Rounded(size);
            && (r == 0 <==> forall x :: !FreeRun(s.list, s.base, s.End(), x, n))
            && (r != 0 ==> r > 8 && r % 8 == 0 && FreeRun(s.list, s.base, s.End(), r - 8, n))
            && (r != 0 ==> forall x :: FreeRun(s.list, s.base, s.End(), x, n) ==> r - 8 <= x)
            && (r != 0 ==> Block(r - 8, n, kind) in Step(s, Alloc(size, kind)).list && r + size <= r - 8 + n)
  {
    RoundedCovers(size);
    LowestRun(s, Rounded(size), kind);
    LowestBlock(s, Rounded(size), kind);
  }

  lemma LowestRun(s: State, n: word, kind: word)
    requires Inv(s) && n >= 16 && kind < 4 && n % 8 == 0
    ensures var k := FirstFit(s.list, s.End(), n, 0);
            var r := if k == |s.list| then 0 else s.list[k].addr + s.list[k].len + 8;
            && (r == 0 <==> forall x :: !FreeRun(s.list, s.base, s.End(), x, n))
            && (r != 0 ==> r > 8 && FreeRun(s.list, s.base, s.End(), r - 8, n))
            && (r != 0 ==> forall x :: FreeRun(s.list, s.base, s.End(), x, n) ==> r - 8 <= x)
  {
    FirstFitIsLowest(s.list, s.base, s.End(), n);
  }

  lemma LowestBlock(s: State, n: word, kind: word)
    requires Inv(s) && n >= 16 && kind < 4 && n % 8 == 0
    ensures var k := FirstFit(s.list, s.End(), n, 0);
            k < |s.list| ==>
              var r := s.list[k].addr + s.list[k].len + 8;
              r % 8 == 0 && Block(r - 8, n, kind) in Taken(s, k, n, kind).list
  {
    var k := FirstFit(s.list, s.End(), n, 0);
    if k < |s.list| {
      assert BlockOk(s.list, s.End(), k);
      AlignedSum(s.list[k].addr, s.list[k].len);
      AlignedSum(s.list[k].addr + s.list[k].len, 8);
      GrantedBlock(s.list, k, n, kind);
    }
  }

  lemma GrantedBlock(list: seq<Block>, k: nat, n: nat, kind: nat)
    requires k < |list|
    ensures Block(list[k].addr + list[k].len, n, kind) in Take(list, k, n, kind)
  {
    var r := Take(list, k, n, kind);
    assert r[if list[k].Info() == 0 then k else k + 1] == Block(list[k].addr + list[k].len, n, kind);
  }

  function Run(s: State, ops: seq<Op>): (r: State)
    requires Inv(s) && AllSound(s.base + s.size, ops)
    ensures Inv(r) && r.base == s.base && r.size == s.size
    decreases |ops|
  {
    if ops == [] then s
    else
      var r := Run(s, ops[..|ops| - 1]);
      StepKeeps(r, ops[|ops| - 1]);
      Step(r, ops[|ops| - 1])
  }

  /** The greatest `used` over all the states a run passes through. */
  function MaxUsed(s: State, ops: seq<Op>): nat
    requires Inv(s) && AllSound(s.base + s.size, ops)
    decreases |ops|
  {
    if ops == [] then s.used
    else
      var before, now := MaxUsed(s, ops[..|ops| - 1]), Run(s, ops).used;
      if before < now then now else before
  }

  /** In every reachable state the sentinel's info, the high-water mark, is the greatest `used` so far. */
  lemma {:induction false} PeakIsMaximum(s: State, ops: seq<Op>)
    requires Inv(s) && s.peak == s.used && AllSound(s.base + s.size, ops)
    ensures Run(s, ops).peak == MaxUsed(s, ops)
    decreases |ops|
  {
    if ops != [] {
      PeakIsMaximum(s, ops[..|ops| - 1]);
      StepKeeps(Run(s, ops[..|ops| - 1]), ops[|ops| - 1]);
    }
  }

  /** From a fresh pool on, the high-water mark is the greatest `used` of every run. */
  lemma PeakFromInit(base: nat, size: nat, ops: seq<Op>)
    requires 0 < base && base % 8 == 0 && size % 8 == 0 && 24 <= size && base + size <= U32
    requires AllSound(base + size, ops)
    ensures Inv(Initial(base, size)) && Run(Initial(base, size), ops).peak == MaxUsed(Initial(base, size), ops)
  {
    InitialOk(base, size);
    PeakIsMaximum(Initial(base, size), ops);
  }

  /** An allocation that is granted adds the one block, and one that is not adds none. */
  lemma AllocAdds(s: State, size: word, kind: word)
    requires Inv(s) && 0 < size <= U32 - 16 && kind < 4
    ensures var r := Granted(s, size, kind);
            Live(Step(s, Alloc(size, kind))) == Live(s) + if r == 0 then {} else {Block(r - 8, Rounded(size), kind)}
  {
    var n := Rounded(size);
    var k := FirstFit(s.list, s.End(), n, 0);
    RoundedCovers(size);
    if k < |s.list| {
      assert BlockOk(s.list, s.End(), k);
      TakeAdds(s.list, k, n, kind);
    }
  }

  lemma TakeAdds(list: seq<Block>, k: nat, n: nat, kind: nat)
    requires k < |list| && n > 0
    ensures var r := Take(list, k, n, kind);
            forall b: Block :: b.len > 0 ==> (b in r <==> b in list || b == Block(list[k].addr + list[k].len, n, kind))
  {
    var r, added := Take(list, k, n, kind), Block(list[k].addr + list[k].len, n, kind);
    if list[k].Info() == 0 {
      assert r[k] == added;
      assert forall i :: 0 <= i < |list| && i != k ==> r[i] == list[i];
    } else {
      assert list == list[..k + 1] + list[k + 1..];
    }
  }

  /** A release of a live block's pointer removes that block, and any other pointer removes nothing. */
  lemma FreeRemoves(s: State, block: word)
    requires Inv(s) && block != s.base + s.size
    ensures Live(Step(s, Free(block))) == set b | b in Live(s) && b.addr + 8 != block
  {
    var k := Find(s.list, HeaderOf(block), 0);
    forall b | b in s.list ensures b.addr + 8 == block <==> b.addr == HeaderOf(block) {
      var i :| 0 <= i < |s.list| && s.list[i] == b;
      InPool(s.list, s.base, s.End(), i);
      HeaderOnly(b.addr, block);
    }
    if k < |s.list| {
      forall i | 0 <= i < |s.list| && i != k ensures s.list[i].addr != s.list[k].addr {
        FindOnly(s.list, s.base, s.End(), i);
      }
      DropRemoves(s.list, k);
    }
  }

  lemma HeaderOnly(a: nat, block: word)
    requires 8 <= a < U32 - 8
    ensures a + 8 == block <==> a == HeaderOf(block)
  {
  }

  lemma DropRemoves(list: seq<Block>, k: nat)
    requires k < |list| && forall i :: 0 <= i < |list| && i != k ==> list[i] != list[k]
    ensures forall b: Block :: b.len > 0 ==> (b in Drop(list, k) <==> b in list && b != list[k])
  {
    var r := Drop(list, k);
    if k == 0 {
      assert forall i :: 0 < i < |list| ==> r[i] == list[i];
      assert r[0].len == 0;
    } else {
      assert list == list[..k] + [list[k]] + list[k + 1..];
    }
  }

  /** Releasing the element just taken. */
  lemma DroppedTaken(s: State, t: State, k: nat, n: nat, kind: nat, j: nat)
    requires k < |s.list| && Inv(t) && t == Taken(s, k, n, kind) && (s.list[k].Info() == 0 ==> k == 0)
    requires j == if s.list[k].Info() == 0 then k else k + 1
    ensures j < |t.list| && Dropped(t, j) == s.(peak := t.peak)
  {
    DropTaken(s.list, k, n, kind);
  }

  lemma FindTaken(s: State, t: State, k: nat, n: nat, kind: nat, j: nat)
    requires k < |s.list| && Inv(t) && t == Taken(s, k, n, kind) && (s.list[k].Info() == 0 ==> k == 0)
    requires j == if s.list[k].Info() == 0 then k else k + 1
    ensures var a := s.list[k].addr + s.list[k].len;
            a + 8 < U32 && Find(t.list, HeaderOf(a + 8), 0) == j < |t.list|
  {
    var a := s.list[k].addr + s.list[k].len;
    assert t.list[j] == Block(a, n, kind);
    InPool(t.list, t.base, t.End(), j);
    FindOnly(t.list, t.base, t.End(), j);
    HeaderBack(a);
  }

  lemma HeaderBack(a: nat)
    requires a + 8 < U32
    ensures HeaderOf(a + 8) == a
  {
  }

  /** Freeing the pointer an allocation just returned restores the list and `used`. */
  lemma FreeUndoesAlloc(s: State, size: word, kind: word)
    requires Inv(s) && 0 < size <= U32 - 16 && kind < 4
    requires FirstFit(s.list, s.End(), Rounded(size), 0) < |s.list|
    ensures var k := FirstFit(s.list, s.End(), Rounded(size), 0);
            var t, a := Step(s, Alloc(size, kind)), s.list[k].addr + s.list[k].len;
            Inv(t) && a + 8 < U32 && Step(t, Free(a + 8)) == s.(peak := t.peak)
  {
    var n := Rounded(size);
    var k := FirstFit(s.list, s.End(), n, 0);
    RoundedCovers(size);
    UndoTake(s, n, kind, k);
    AllocTakes(s, size, kind, n, k);
    FreeDrops(Taken(s, k, n, kind), s.list[k].addr + s.list[k].len + 8);
  }

  lemma AllocTakes(s: State, size: word, kind: word, n: word, k: nat)
    requires Inv(s) && size > 0 && kind < 4 && n == Rounded(size) && k == FirstFit(s.list, s.End(), n, 0) < |s.list|
    ensures Step(s, Alloc(size, kind)) == Taken(s, k, n, kind)
  {
  }

  lemma FreeDrops(t: State, block: word)
    requires Inv(t) && block > 0 && Find(t.list, HeaderOf(block), 0) < |t.list|
    ensures Step(t, Free(block)) == Dropped(t, Find(t.list, HeaderOf(block), 0))
  {
  }

  lemma UndoTake(s: State, n: word, kind: word, k: nat)
    requires Inv(s) && n >= 16 && n % 8 == 0 && kind < 4 && k == FirstFit(s.list, s.End(), n, 0) < |s.list|
    ensures var t, a := Taken(s, k, n, kind), s.list[k].addr + s.list[k].len;
            && Inv(t) && a + 8 < U32
            && var j := Find(t.list, HeaderOf(a + 8), 0); j < |t.list| && Dropped(t, j) == s.(peak := t.peak)
  {
    AllocKeeps(s, n, kind);
    assert BlockOk(s.list, s.End(), k);
    var t, j := Taken(s, k, n, kind), if s.list[k].Info() == 0 then k else k + 1;
    DroppedTaken(s, t, k, n, kind, j);
    FindTaken(s, t, k, n, kind, j);
  }

  lemma FindOnly(list: seq<Block>, base: nat, end: nat, j: nat)
    requires WellFormed(list, base, end) && j < |list|
    ensures Find(list, list[j].addr, 0) == j
  {
    var k := Find(list, list[j].addr, 0);
    if k < j {
      Ordered(list, base, end, k, j);
    }
  }

  /** In every reachable state live blocks are 8-aligned, inside the pool and pairwise disjoint, and `used` is the pool
      header, the sentinel and their lengths. */
  lemma LiveBlocksDisjoint(s: State, ops: seq<Op>, i: nat, j: nat)
    requires Inv(s) && AllSound(s.base + s.size, ops)
    requires var r := Run(s, ops); i < |r.list| && j < |r.list|
    ensures var r := Run(s, ops);
            && r.used == 16 + Total(r.list) && r.used <= r.size
            && r.list[i].addr % 8 == 0 && r.base + 8 <= r.list[i].addr && r.list[i].addr + r.list[i].len <= r.End()
            && (i < j ==> r.list[i].addr < r.list[j].addr && r.list[i].addr + r.list[i].len <= r.list[j].addr)
  {
    var r := Run(s, ops);
    assert BlockOk(r.list, r.End(), i);
    InPool(r.list, r.base, r.End(), i);
    if i < j {
      Ordered(r.list, r.base, r.End(), i, j);
    }
  }
}
