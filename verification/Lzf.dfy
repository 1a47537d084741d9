/** The LZF block compressor of the CROMFS image generator. */
module Lzf {
  import opened Bytes

  const BUFSIZE: nat := 512
  const HSIZE: nat := 8192
  const MAX_LIT: nat := 32
  const MAX_OFF: nat := 8192
  const MAX_REF: nat := 264
  const HDR0: nat := 5
  const HDR1: nat := 7
  const RESULT_SIZE: nat := 535  // union lzf_result_u: a 7-byte header and 512 + 16 payload bytes

  // ---------------------------------------------------------------- the format

  /** One instruction of a compressed payload, and the bytes it takes up. */
  datatype Token = Literal(count: nat) | Copy(size: nat, dist: nat, count: nat)

  function NextToken(z: seq<byte>): (r: Option<Token>)
    ensures r.Some? && r.value.Literal? ==> r.value.count + 1 <= |z|
    ensures r.Some? && r.value.Copy? ==> 2 <= r.value.size <= |z| && 1 <= r.value.dist
  {
    if z == [] then None
    else
      var c := z[0] as int;
      if c < 32 then
        if |z| < c + 2 then None else Some(Literal(c + 1))
      else if c < 224 then
        if |z| < 2 then None else Some(Copy(2, c % 32 * 256 + z[1] as int + 1, c / 32 + 2))
      else
        if |z| < 3 then None else Some(Copy(3, c % 32 * 256 + z[2] as int + 1, z[1] as int + 9))
  }

  /** Appends n bytes, each copied from dist bytes before the current end, so a copy may overlap itself. */
  function CopyBack(out: seq<byte>, dist: nat, n: nat): (r: seq<byte>)
    requires 1 <= dist <= |out|
    ensures |r| == |out| + n
    decreases n
  {
    if n == 0 then out else CopyBack(out + [out[|out| - dist]], dist, n - 1)
  }

  /** Reference decoder: expands payload z, given that `out` has already been produced. */
  function Expand(z: seq<byte>, out: seq<byte>): (r: Option<seq<byte>>)
    decreases |z|
  {
    if z == [] then Some(out)
    else
      match NextToken(z)
      case None => None
      case Some(Literal(n)) => Expand(z[n + 1..], out + z[1..n + 1])
      case Some(Copy(k, dist, n)) => if dist > |out| then None else Expand(z[k..], CopyBack(out, dist, n))
  }

  /** The number of bytes the block starting at b occupies, from its own header. */
  function BlockLength(b: seq<byte>): (r: Option<nat>)
    ensures r.Some? ==> |b| >= HDR0 && r.value >= HDR0 && (b[2] == 1 ==> r.value >= HDR1)
  {
    if |b| < HDR0 || b[0] != 'Z' as byte || b[1] != 'V' as byte then None
    else if b[2] == 0 then Some(HDR0 + b[3] as int * 256 + b[4] as int)
    else if b[2] == 1 then Some(HDR1 + b[3] as int * 256 + b[4] as int)
    else None
  }

  /** Decodes the block at the start of b; later bytes are ignored. */
  function DecodeBlock(b: seq<byte>): (r: Option<seq<byte>>)
  {
    var n := BlockLength(b);
    if n.None? || |b| < n.value then None
    else if b[2] == 0 then Some(b[HDR0..n.value])
    else
      var d := Expand(b[HDR1..n.value], []);
      if d.Some? && |d.value| == b[5] as int * 256 + b[6] as int then d else None
  }

  lemma SameToken(a: seq<byte>, b: seq<byte>)
    requires NextToken(a).Some?
    ensures NextToken(a + b) == NextToken(a)
  {
  }

  lemma CutAppend(a: seq<byte>, b: seq<byte>, i: nat, k: nat)
    requires i <= k <= |a|
    ensures (a + b)[k..] == a[k..] + b && (a + b)[i..k] == a[i..k]
  {
  }

  lemma {:induction false} ExpandAppend(a: seq<byte>, b: seq<byte>, x: seq<byte>, y: seq<byte>)
    requires Expand(a, x) == Some(y)
    ensures Expand(a + b, x) == Expand(b, y)
    decreases |a|
  {
    if a == [] {
      assert a + b == b;
    } else {
      SameToken(a, b);
      match NextToken(a)
      case Some(Literal(n)) =>
        CutAppend(a, b, 1, n + 1);
        ExpandAppend(a[n + 1..], b, x + a[1..n + 1], y);
      case Some(Copy(k, dist, n)) =>
        CutAppend(a, b, 0, k);
        ExpandAppend(a[k..], b, CopyBack(x, dist, n), y);
    }
  }

  /** A back reference to equal bytes reproduces the input, even when source and target overlap. */
  lemma {:induction false} CopyBackMatches(s: seq<byte>, ref: nat, i: nat, n: nat)
    requires ref < i && i + n <= |s|
    requires s[ref..ref + n] == s[i..i + n]
    ensures CopyBack(s[..i], i - ref, n) == s[..i + n]
    decreases n
  {
    if n > 0 {
      assert s[ref] == s[ref..ref + n][0] == s[i..i + n][0] == s[i];
      assert s[..i] + [s[..i][ref]] == s[..i + 1];
      assert s[ref + 1..ref + n] == s[ref..ref + n][1..] == s[i..i + n][1..] == s[i + 1..i + n];
      CopyBackMatches(s, ref + 1, i + 1, n - 1);
    }
  }

  // ---------------------------------------------------------------- what each encoder step keeps

  const END: nat := HDR1 + BUFSIZE

  /** Every output byte before the open run is paid for: at most 33 bytes of output per 32 of input. */
  ghost predicate Thrifty(o: nat, i: nat, lit: nat) {
    32 * (o - lit - 1 - HDR1) <= 33 * (i - lit)
  }

  /** What the payload written up to o decodes to. */
  ghost function Output(r: seq<byte>, o: nat): Option<seq<byte>>
    requires HDR1 <= o <= |r|
  {
    Expand(r[HDR1..o], [])
  }

  /** Output up to o encodes exactly the first i input bytes. */
  ghost predicate Encodes(r: seq<byte>, o: nat, s: seq<byte>, i: nat) {
    HDR1 <= o <= |r| && i <= |s| && Output(r, o) == Some(s[..i])
  }

  /** With the write position at o and an open run of lit literals, everything before the run's length byte
      encodes the input before the run, and the run's bytes are the last lit bytes consumed. */
  ghost predicate Progress(r: seq<byte>, o: nat, s: seq<byte>, i: nat, lit: nat) {
    && lit <= i <= |s| && lit <= MAX_LIT && HDR1 + 1 + lit <= o
    && o - 1 <= |r| && (lit > 0 ==> o <= |r|)
    && Encodes(r, o - lit - 1, s, i - lit)
    && (lit > 0 ==> r[o - lit..o] == s[i - lit..i])
  }

  lemma Snoc(s: seq<byte>, a: nat, b: nat)
    requires a <= b < |s|
    ensures s[a..b + 1] == s[a..b] + [s[b]]
  {
  }

  lemma TakeLiteral(r: seq<byte>, o: nat, s: seq<byte>, i: nat, lit: nat)
    requires Progress(r, o, s, i, lit) && i < |s| && lit < MAX_LIT && o < |r|
    ensures Progress(r[o := s[i]], o + 1, s, i + 1, lit + 1)
  {
    var r' := r[o := s[i]];
    assert r'[HDR1..o - lit - 1] == r[HDR1..o - lit - 1];
    assert lit > 0 ==> r'[o - lit..o] == r[o - lit..o];
    Snoc(r', o - lit, o);
    Snoc(s, i - lit, i);
  }

  lemma ExpandRun(z: seq<byte>, x: seq<byte>)
    requires 2 <= |z| <= MAX_LIT + 1 && z[0] as int == |z| - 2
    ensures Expand(z, x) == Some(x + z[1..])
  {
    assert z[1..|z|] == z[1..] && z[|z|..] == [];
  }

  /** Patching the length byte closes a non-empty run. */
  lemma StopRun(r: seq<byte>, o: nat, s: seq<byte>, i: nat, lit: nat)
    requires Progress(r, o, s, i, lit) && lit > 0
    ensures Encodes(r[o - lit - 1 := (lit - 1) as byte], o, s, i)
  {
    var h := o - lit - 1;
    var z := r[h := (lit - 1) as byte][h..o];
    PatchedRun(r, h, o, (lit - 1) as byte);
    ExpandAppend(r[HDR1..h], z, [], s[..i - lit]);
    ExpandRun(z, s[..i - lit]);
    assert s[..i - lit] + s[i - lit..i] == s[..i];
  }

  lemma PatchedRun(r: seq<byte>, h: nat, o: nat, b: byte)
    requires HDR1 <= h < o <= |r|
    ensures var z := r[h := b][h..o];
            r[h := b][HDR1..o] == r[HDR1..h] + z && z[0] == b && z[1..] == r[h + 1..o]
  {
  }

  /** lit - 1 converted to uint8_t; for an empty run this is 255, stored in a byte that is then withdrawn. */
  function RunByte(lit: nat): byte
    requires lit <= MAX_LIT
  {
    if lit == 0 then 255 else (lit - 1) as byte
  }

  lemma CloseRun(r: seq<byte>, o: nat, s: seq<byte>, i: nat, lit: nat)
    requires Progress(r, o, s, i, lit) && o <= |r|
    ensures Encodes(r[o - lit - 1 := RunByte(lit)], if lit == 0 then o - 1 else o, s, i)
  {
    if lit > 0 {
      StopRun(r, o, s, i, lit);
    } else {
      assert r[o - 1 := 255][HDR1..o - 1] == r[HDR1..o - 1];
    }
  }

  /** The two or three bytes written for a match of n bytes at distance off + 1. */
  function Reference(off: nat, n: nat): (r: seq<byte>)
    requires off < MAX_OFF && 3 <= n <= MAX_REF
    ensures |r| == if n < 9 then 2 else 3
    ensures NextToken(r) == Some(Copy(|r|, off + 1, n))
  {
    if n - 2 < 7 then [(off / 256 + (n - 2) * 32) as byte, (off % 256) as byte]
    else [(off / 256 + 7 * 32) as byte, (n - 2 - 7) as byte, (off % 256) as byte]
  }

  lemma Appended(r: seq<byte>, r': seq<byte>, o: nat, z: seq<byte>)
    requires HDR1 <= o && o + |z| <= |r'| == |r| && r'[..o] == r[..o] && r'[o..o + |z|] == z
    ensures r'[HDR1..o + |z|] == r[HDR1..o] + z
  {
    assert r'[HDR1..o] == r'[..o][HDR1..] == r[HDR1..o];
    assert r'[HDR1..o + |z|] == r'[HDR1..o] + r'[o..o + |z|];
  }

  lemma EmitReference(r: seq<byte>, r': seq<byte>, o: nat, s: seq<byte>, i: nat, ref: nat, n: nat)
    requires Encodes(r, o, s, i) && ref < i && i + n <= |s| && 3 <= n <= MAX_REF && i - ref - 1 < MAX_OFF
    requires s[ref..ref + n] == s[i..i + n]
    requires var z := Reference(i - ref - 1, n);
             o + |z| <= |r'| == |r| && r'[..o] == r[..o] && r'[o..o + |z|] == z
    ensures Encodes(r', o + |Reference(i - ref - 1, n)|, s, i + n)
  {
    var z := Reference(i - ref - 1, n);
    Appended(r, r', o, z);
    ExpandAppend(r[HDR1..o], z, [], s[..i]);
    CopyBackMatches(s, ref, i, n);
    assert z[|z|..] == [];
  }

  // ---------------------------------------------------------------- the compressor

  /** LZF_NEXT, in 32-bit arithmetic. */
  function NextHash(h: nat, b: byte): nat { (h * 256 + b as nat) % U32 }

  /** Bitwise exclusive or. */
  function Xor(x: nat, y: nat): nat
    decreases x + y
  {
    if x == 0 && y == 0 then 0 else (if x % 2 != y % 2 then 1 else 0) + 2 * Xor(x / 2, y / 2)
  }

  /** LZF_NDX; the difference is taken modulo the table's size. */
  function HashIndex(h: nat): (r: nat)
    ensures r < HSIZE
  {
    (Xor(h, h * 32 % U32) / 2048 - h * 5) % HSIZE
  }

  ghost predicate Agree(s: seq<byte>, ref: nat, i: nat, n: nat) {
    ref <= i && i + n <= |s| && s[ref..ref + n] == s[i..i + n]
  }

  lemma AgreeOn(s: seq<byte>, ref: nat, i: nat, n: nat)
    requires Agree(s, ref, i, n) && i + n < |s| && s[ref + n] == s[i + n]
    ensures Agree(s, ref, i, n + 1)
  {
    Snoc(s, ref, ref + n);
    Snoc(s, i, i + n);
  }

  lemma ThreeBytes(s: seq<byte>, ref: nat, i: nat)
    requires ref < i && i + 3 <= |s|
    ensures Agree(s, ref, i, 3) <==>
            s[ref + 2] == s[i + 2] && s[ref + 1] as int * 256 + s[ref] as int == s[i + 1] as int * 256 + s[i] as int
  {
    assert s[ref..ref + 3] == [s[ref], s[ref + 1], s[ref + 2]];
    assert s[i..i + 3] == [s[i], s[i + 1], s[i + 2]];
  }

  /** Length of the match between ref and i, three bytes of which are known to agree. */
  method MatchLength(input: array<byte>, inlen: nat, ref: nat, i: nat) returns (len: nat)
    requires 0 < ref < i && i + 2 < inlen <= input.Length && Agree(input[..], ref, i, 3)
    ensures 3 <= len <= MAX_REF && i + len <= inlen && Agree(input[..], ref, i, len)
    ensures len < inlen - i - 2 && len < MAX_REF ==> input[ref + len] != input[i + len]
  {
    len := 2;
    var maxlen := inlen - i - len;
    maxlen := if maxlen > MAX_REF then MAX_REF else maxlen;
    if maxlen > 16 {
      while len < 18
        invariant 2 <= len <= 18 && Agree(input[..], ref, i, len + 1)
      {
        len := len + 1;
        if input[ref + len] != input[i + len] {
          return;
        }
        AgreeOn(input[..], ref, i, len);
      }
    }
    len := len + 1;
    while len < maxlen && input[ref + len] == input[i + len]
      invariant 3 <= len <= MAX_REF && i + len <= inlen && Agree(input[..], ref, i, len)
    {
      AgreeOn(input[..], ref, i, len);
      len := len + 1;
    }
  }

  /** Stores the length byte of the open run, or withdraws the byte reserved for it if the run is empty. */
  method EndRun(result: array<byte>, o: nat, lit: nat, ghost s: seq<byte>, ghost i: nat) returns (o': nat)
    requires Progress(result[..], o, s, i, lit) && o <= END <= result.Length
    modifies result
    ensures o' == if lit == 0 then o - 1 else o
    ensures Encodes(result[..], o', s, i) && result[END..] == old(result[END..])
  {
    var h := o - lit - 1;
    result[h] := RunByte(lit);
    o' := if lit == 0 then o - 1 else o;
    assert result[..] == old(result[..])[h := RunByte(lit)];
    CloseRun(old(result[..]), o, s, i, lit);
  }

  lemma Matched(r: seq<byte>, r': seq<byte>, o: nat, o': nat, input: seq<byte>, s: seq<byte>, i: nat, ref: nat, n: nat)
    requires Encodes(r, o, s, i) && Agree(input, ref, i, n) && i + n <= |s| <= |input| && s == input[..|s|]
    requires ref < i && 3 <= n <= MAX_REF && i - ref - 1 < MAX_OFF
    requires o' == o + |Reference(i - ref - 1, n)| <= |r'| == |r|
    requires r'[..o] == r[..o] && r'[o..o'] == Reference(i - ref - 1, n)
    ensures Progress(r', o' + 1, s, i + n, 0)
  {
    assert s[ref..ref + n] == input[ref..ref + n] == input[i..i + n] == s[i..i + n];
    EmitReference(r, r', o, s, i, ref, n);
  }

  /** The bytes of a reference, in its short or its long form. */
  method StoreReference(result: array<byte>, o: nat, off: nat, len: nat) returns (o': nat)
    requires off < MAX_OFF && 1 <= len <= MAX_REF - 2 && o + 3 < END <= result.Length
    modifies result
    ensures o' == o + |Reference(off, len + 2)| < END && result[..][o..o'] == Reference(off, len + 2)
    ensures result[..o] == old(result[..o]) && result[END..] == old(result[END..])
  {
    o' := o;
    if len < 7 {
      result[o'] := (off / 256 + len * 32) as byte;
      o' := o' + 1;
    } else {
      result[o'] := (off / 256 + 7 * 32) as byte;
      o' := o' + 1;
      result[o'] := (len - 7) as byte;
      o' := o' + 1;
    }
    result[o'] := (off % 256) as byte;
    o' := o' + 1;
  }

  /** Stores a reference for a match of len + 2 bytes at distance off + 1. */
  method PutReference(result: array<byte>, o: nat, off: nat, len: nat,
                      ghost input: seq<byte>, ghost s: seq<byte>, ghost i: nat)
    returns (o': nat)
    requires off < MAX_OFF && 1 <= len <= MAX_REF - 2 && o + 3 < END <= result.Length && off < i
    requires Agree(input, i - off - 1, i, len + 2) && i + len + 2 <= |s| <= |input| && s == input[..|s|]
    requires Encodes(result[..], o, s, i) && 32 * (o - HDR1) <= 33 * i + 32
    modifies result
    ensures o' < END && o' <= o + 3 && result[END..] == old(result[END..])
    ensures Progress(result[..], o' + 1, s, i + len + 2, 0) && Thrifty(o' + 1, i + len + 2, 0)
  {
    o' := StoreReference(result, o, off, len);
    assert result[..][..o] == result[..o] && old(result[..])[..o] == old(result[..o]);
    Matched(old(result[..]), result[..], o, o', input, s, i, i - off - 1, len + 2);
  }

  /** What holds between two rounds of the encoder's loops. */
  ghost predicate Between(r: seq<byte>, o: nat, s: seq<byte>, i: nat, lit: nat) {
    && Progress(r, o, s, i, lit) && Thrifty(o, i, lit)
    && lit < MAX_LIT && o <= END + 1 && (lit > 0 ==> o <= END)
  }

  /** Copies one input byte into the open run, and closes the run when it is full. */
  method PutLiteral(input: array<byte>, result: array<byte>, o: nat, lit: nat, i: nat, ghost s: seq<byte>)
    returns (o': nat, lit': nat)
    requires i < |s| <= input.Length && s == input[..|s|] && result != input
    requires lit < MAX_LIT && o < END <= result.Length && Progress(result[..], o, s, i, lit) && Thrifty(o, i, lit)
    modifies result
    ensures Between(result[..], o', s, i + 1, lit')
    ensures if lit + 1 == MAX_LIT then lit' == 0 && o' == o + 2 else lit' == lit + 1 && o' == o + 1
    ensures result[END..] == old(result[END..])
  {
    TakeLiteral(result[..], o, s, i, lit);
    ghost var r := result[..];
    lit' := lit + 1;
    result[o] := input[i];
    assert result[..] == r[o := s[i]];
    o' := o + 1;
    if lit' == MAX_LIT {
      o' := EndRun(result, o', lit', s, i + 1);
      lit' := 0;
      o' := o' + 1;
    }
  }

  /** Ends the open run and stores a reference to ref; len is the match length minus 2. */
  method PutMatch(input: array<byte>, inlen: nat, result: array<byte>, o: nat, lit: nat, ref: nat, i: nat,
                  ghost s: seq<byte>)
    returns (o': nat, len: nat)
    requires 0 < ref < i && i + 2 < inlen <= input.Length && s == input[..inlen] && result != input
    requires i - ref - 1 < MAX_OFF && Agree(input[..], ref, i, 3)
    requires o - (if lit == 0 then 1 else 0) + 3 < END <= result.Length
    requires Progress(result[..], o, s, i, lit) && Thrifty(o, i, lit)
    modifies result
    ensures 1 <= len && i + len + 2 <= inlen
    ensures i + len + 4 < inlen && len + 2 < MAX_REF ==> input[ref + len + 2] != input[i + len + 2]
    ensures o' + 1 <= END && o' <= o - (if lit == 0 then 1 else 0) + 3 && result[END..] == old(result[END..])
    ensures Progress(result[..], o' + 1, s, i + len + 2, 0) && Thrifty(o' + 1, i + len + 2, 0)
  {
    var off := i - ref - 1;
    o' := EndRun(result, o, lit, s, i);
    len := MatchLength(input, inlen, ref, i);
    len := len - 2;
    o' := PutReference(result, o', off, len, input[..], s, i);
  }

  /** The output has room for the bytes from p on; a run that stays below 32 is just longer. */
  ghost predicate Ending(o: nat, lit: nat, i: nat, inlen: nat, o': nat, n: nat, p: nat) {
    && i <= p <= inlen <= p + 2
    && o' + (inlen - p) + (if n + (inlen - p) < MAX_LIT then 0 else 1) <= END
    && (lit + 2 < MAX_LIT ==> n == lit + (p - i) && o' == o + (p - i))
  }

  /** Copies the last bytes as literals. */
  method CopyRest(input: array<byte>, inlen: nat, result: array<byte>, o: nat, lit: nat, i: nat, ghost s: seq<byte>)
    returns (o': nat, n: nat)
    requires inlen <= input.Length && s == input[..inlen] && result.Length == RESULT_SIZE && result != input
    requires i <= inlen <= i + 2 && o + 3 <= END && Between(result[..], o, s, i, lit)
    modifies result
    ensures Between(result[..], o', s, inlen, n) && Ending(o, lit, i, inlen, o', n, inlen)
    ensures result[END..] == old(result[END..])
  {
    var p: nat := i;
    o', n := o, lit;
    while p < inlen
      invariant Between(result[..], o', s, p, n) && Ending(o, lit, i, inlen, o', n, p)
      invariant result[END..] == old(result[END..])
    {
      o', n := PutLiteral(input, result, o', n, p, s);
      p := p + 1;
    }
  }

  /** Copies the last bytes and ends the run. */
  method Finish(input: array<byte>, inlen: nat, result: array<byte>, o: nat, lit: nat, i: nat, ghost s: seq<byte>)
    returns (o': nat)
    requires inlen <= input.Length && s == input[..inlen] && result.Length == RESULT_SIZE && result != input
    requires i <= inlen <= i + 2 && o + 3 <= END && Between(result[..], o, s, i, lit)
    modifies result
    ensures HDR1 <= o' <= END && o' - HDR1 <= inlen + inlen / 32 + 1
    ensures lit + 2 < MAX_LIT ==> o' <= o + (inlen - i)
    ensures Encodes(result[..], o', s, inlen) && result[END..] == old(result[END..])
  {
    var n;
    o', n := CopyRest(input, inlen, result, o, lit, i, s);
    o' := EndRun(result, o', n, s, inlen);
  }

  /** A block header of each type in front of its data makes a block that decodes to that data. */
  lemma HighLow(x: nat)
    requires x <= BUFSIZE
    ensures x / 256 < 256 && x / 256 * 256 + x % 256 == x
  {
  }

  /** A type-1 block whose header gives the length of its payload and of what that expands to. */
  lemma Type1Block(c: seq<byte>, cs: nat, s: seq<byte>)
    requires |c| == HDR1 + cs && c[0] == 'Z' as byte && c[1] == 'V' as byte && c[2] == 1
    requires c[3] as int * 256 + c[4] as int == cs && c[5] as int * 256 + c[6] as int == |s|
    requires Expand(c[HDR1..], []) == Some(s)
    ensures BlockLength(c) == Some(HDR1 + cs) && DecodeBlock(c) == Some(s)
  {
    assert c[HDR1..HDR1 + cs] == c[HDR1..];
  }

  lemma CompressedBlock(b: seq<byte>, r: seq<byte>, cs: nat, s: seq<byte>)
    requires cs <= BUFSIZE && |s| <= BUFSIZE && |b| == |r| && HDR1 + cs <= |r|
    requires b[..HDR1] == ['Z' as byte, 'V' as byte, 1, (cs / 256) as byte, (cs % 256) as byte,
                           (|s| / 256) as byte, (|s| % 256) as byte]
    requires b[HDR1..] == r[HDR1..] && Encodes(r, HDR1 + cs, s, |s|)
    ensures BlockLength(b[..HDR1 + cs]) == Some(HDR1 + cs) && DecodeBlock(b[..HDR1 + cs]) == Some(s)
  {
    var c := b[..HDR1 + cs];
    assert forall k :: 0 <= k < HDR1 ==> c[k] == b[..HDR1][k];
    assert c[HDR1..] == b[HDR1..][..cs] == r[HDR1..][..cs] == r[HDR1..HDR1 + cs];
    assert s[..|s|] == s;
    HighLow(cs);
    HighLow(|s|);
    Type1Block(c, cs, s);
  }

  lemma RawBlock(b: seq<byte>, s: seq<byte>)
    requires |s| <= BUFSIZE && HDR0 + |s| <= |b|
    requires b[..HDR0] == ['Z' as byte, 'V' as byte, 0, (|s| / 256) as byte, (|s| % 256) as byte]
    requires b[HDR0..HDR0 + |s|] == s
    ensures BlockLength(b[..HDR0 + |s|]) == Some(HDR0 + |s|) && DecodeBlock(b[..HDR0 + |s|]) == Some(s)
  {
    var c := b[..HDR0 + |s|];
    assert forall k :: 0 <= k < HDR0 ==> c[k] == b[..HDR0][k];
    assert c[HDR0..HDR0 + |s|] == b[HDR0..HDR0 + |s|];
  }

  /** Puts the header of a type-1 block in front of a payload of cs bytes. */
  method PutHeader(result: array<byte>, cs: nat, s: seq<byte>) returns (retlen: nat)
    requires result.Length == RESULT_SIZE && cs <= BUFSIZE && |s| <= BUFSIZE
    requires Encodes(result[..], HDR1 + cs, s, |s|)
    modifies result
    ensures retlen == cs + HDR1 && result[2] == 1 && result[END..] == old(result[END..])
    ensures BlockLength(result[..retlen]) == Some(retlen) && DecodeBlock(result[..retlen]) == Some(s)
  {
    result[0], result[1], result[2] := 'Z' as byte, 'V' as byte, 1;
    result[3], result[4] := (cs / 256) as byte, (cs % 256) as byte;
    result[5], result[6] := (|s| / 256) as byte, (|s| % 256) as byte;
    retlen := cs + HDR1;
    assert result[HDR1..] == old(result[HDR1..]);
    CompressedBlock(result[..], old(result[..]), cs, s);
    assert result[..][..retlen] == result[..retlen];
  }

  /** Builds a type-0 block holding the input itself. */
  method PutRaw(input: array<byte>, inlen: nat, result: array<byte>) returns (retlen: nat)
    requires inlen <= input.Length && inlen <= BUFSIZE && result.Length == RESULT_SIZE && result != input
    modifies result
    ensures retlen == inlen + HDR0 && result[2] == 0 && result[END..] == old(result[END..])
    ensures BlockLength(result[..retlen]) == Some(retlen) && DecodeBlock(result[..retlen]) == Some(input[..inlen])
  {
    result[0], result[1], result[2] := 'Z' as byte, 'V' as byte, 0;
    result[3], result[4] := (inlen / 256) as byte, (inlen % 256) as byte;
    forall k | 0 <= k < inlen { result[HDR0 + k] := input[k]; }
    retlen := inlen + HDR0;
    RawBlock(result[..], input[..inlen]);
    assert result[..][..retlen] == result[..retlen];
  }

  // ---------------------------------------------------------------- runs of one byte

  ghost predicate Uniform(s: seq<byte>, b: byte) { forall k :: 0 <= k < |s| ==> s[k] == b }

  /** The hash value of n times b; from four bytes on it stays the same. */
  function HashOf(b: byte, n: nat): nat { if n == 0 then 0 else NextHash(HashOf(b, n - 1), b) }

  lemma HashStays(b: byte)
    ensures NextHash(HashOf(b, 4), b) == HashOf(b, 4)
  {
    var c := b as nat;
    assert HashOf(b, 0) == 0 && HashOf(b, 1) == c && HashOf(b, 2) == c * 257;
    assert HashOf(b, 3) == c * 65793 && HashOf(b, 4) == c * 16843009;
    assert c * 16843009 * 256 + c == c * U32 + c * 16843009;
  }

  /** The hash table in front of position i of a run: from the third position on, it leads to the one before. */
  ghost predicate Rolling(tab: seq<int>, i: nat, h: nat, b: byte) {
    && |tab| == HSIZE
    && if i < 2 then h == HashOf(b, i + 2) && forall k :: 0 <= k < HSIZE ==> tab[k] <= 0
       else h == HashOf(b, 4) && tab[HashIndex(h)] == i - 1
  }

  /** What a run has cost so far: two literals, then a reference for up to 264 bytes at a time. */
  ghost predicate Small(i: nat, o: nat, lit: nat, inlen: nat) {
    if i <= 2 then o == HDR1 + 1 + i && lit == i
    else lit == 0 && ((o <= HDR1 + 7 && (i >= 266 || i + 2 >= inlen)) || (o <= HDR1 + 10 && i + 2 >= inlen))
  }

  /** What a lookup in a run finds: a hit from the third position on. */
  ghost predicate Probed(tab: seq<int>, i: nat, h: nat, tab': seq<int>, h': nat, hit: bool, s: seq<byte>, b: byte) {
    Uniform(s, b) && Rolling(tab, i, h, b) ==>
      (hit <==> i >= 2) && if i < 2 then Rolling(tab', i + 1, h', b) else h' == HashOf(b, 4)
  }

  /** A match in a run is as long as matches get or reaches the end. */
  ghost predicate Took(i: nat, h: nat, i': nat, tab: seq<int>, h': nat, s: seq<byte>, b: byte) {
    && (i' >= i + 264 || i' + 2 >= |s|)
    && (h == HashOf(b, 4) && i' + 2 < |s| ==> Rolling(tab, i', h', b))
  }

  /** Where the encoder stands between two rounds of its main loop. */
  datatype Point = Point(tab: seq<int>, i: nat, h: nat, o: nat, lit: nat)

  /** What a round does in a run: a literal at the first two positions, then matches. */
  ghost predicate Turn(p: Point, q: Point, s: seq<byte>, b: byte) {
    p.i + 2 < |s| && Uniform(s, b) && Rolling(p.tab, p.i, p.h, b) ==>
      if p.i < 2 then
        q.i == p.i + 1 && Rolling(q.tab, q.i, q.h, b) && (p.lit < 2 ==> q.o == p.o + 1 && q.lit == p.lit + 1)
      else
        && q.lit == 0 && q.o <= p.o - (if p.lit == 0 then 1 else 0) + 4 && p.i < q.i <= |s|
        && (q.i >= p.i + 264 || q.i + 2 >= |s|) && (q.i + 2 < |s| ==> Rolling(q.tab, q.i, q.h, b))
  }

  lemma LiteralTurn(p: Point, q: Point, s: seq<byte>, b: byte)
    requires Probed(p.tab, p.i, p.h, q.tab, q.h, false, s, b)
    requires q.i == p.i + 1 && (p.lit < 2 ==> q.o == p.o + 1 && q.lit == p.lit + 1)
    ensures Turn(p, q, s, b)
  {
  }

  lemma MatchTurn(p: Point, tab: seq<int>, h: nat, q: Point, s: seq<byte>, b: byte)
    requires Probed(p.tab, p.i, p.h, tab, h, true, s, b) && (Uniform(s, b) ==> Took(p.i, h, q.i, q.tab, q.h, s, b))
    requires p.i < q.i <= |s| && q.lit == 0 && q.o <= p.o - (if p.lit == 0 then 1 else 0) + 4
    ensures Turn(p, q, s, b)
  {
  }

  /** The encoder came to the last point from the start of the input. */
  ghost predicate Came(path: seq<Point>, s: seq<byte>, b: byte) {
    && path != [] && path[0].i == 0 && path[0].o == HDR1 + 1 && path[0].lit == 0
    && (Uniform(s, b) && |s| > 2 ==> Rolling(path[0].tab, 0, path[0].h, b))
    && forall k :: 0 < k < |path| ==> Link(path, k, s, b)
  }

  ghost predicate Link(path: seq<Point>, k: nat, s: seq<byte>, b: byte)
    requires 0 < k < |path|
  {
    path[k - 1].i + 2 < |s| && Turn(path[k - 1], path[k], s, b)
  }

  lemma CameOn(path: seq<Point>, q: Point, s: seq<byte>, b: byte)
    requires Came(path, s, b) && path[|path| - 1].i + 2 < |s| && Turn(path[|path| - 1], q, s, b)
    ensures Came(path + [q], s, b)
  {
    forall k | 0 < k < |path + [q]| ensures Link(path + [q], k, s, b) {
      assert k < |path| ==> Link(path, k, s, b);
    }
  }

  /** A run costs little all the way. */
  lemma {:induction false} RunCosts(path: seq<Point>, s: seq<byte>, b: byte, k: nat)
    requires Came(path, s, b) && Uniform(s, b) && |s| <= BUFSIZE && k < |path|
    ensures Small(path[k].i, path[k].o, path[k].lit, |s|)
    ensures path[k].i + 2 < |s| ==> Rolling(path[k].tab, path[k].i, path[k].h, b)
    decreases k
  {
    if k > 0 {
      RunCosts(path, s, b, k - 1);
      assert Link(path, k, s, b);
    }
  }

  /** In a run the output never comes near its end, nor the open run near 32. */
  lemma RoomInRun(path: seq<Point>, q: Point, s: seq<byte>, b: byte)
    requires Came(path, s, b) && |s| <= BUFSIZE && q == path[|path| - 1]
    ensures Uniform(s, b) ==> q.o <= HDR1 + 10 && q.lit <= 2
  {
    if Uniform(s, b) {
      RunCosts(path, s, b, |path| - 1);
    }
  }

  lemma RunStarts(tab: seq<int>, s: seq<byte>, b: byte, c: byte, h: nat)
    requires |tab| == HSIZE && (forall k :: 0 <= k < HSIZE ==> tab[k] == -1) && h == NextHash(b as nat, c)
    requires |s| > 0 && s[0] == b && (|s| > 1 ==> s[1] == c)
    ensures Uniform(s, b) && |s| > 2 ==> Rolling(tab, 0, h, b)
  {
    assert NextHash(0, b) == b as nat;
    assert HashOf(b, 1) == NextHash(HashOf(b, 0), b);
  }

  /** A lookup in a run: none of the first two positions finds an earlier one, and all others find the one before. */
  lemma RunLooksBack(tab: seq<int>, s: seq<byte>, i: nat, h: nat, h': nat, slot: nat, input: seq<byte>, b: byte)
    requires |tab| == HSIZE && i + 2 < |s| <= |input| && s == input[..|s|]
    requires h' == NextHash(h, input[i + 2]) && slot == HashIndex(h')
    ensures Uniform(s, b) && Rolling(tab, i, h, b) ==>
              if i < 2 then tab[slot] <= 0 && Rolling(tab[slot := i], i + 1, h', b)
              else h' == HashOf(b, 4) && tab[slot] == i - 1 && Agree(input, i - 1, i, 3)
  {
    if Uniform(s, b) && Rolling(tab, i, h, b) {
      assert input[i + 2] == s[i + 2] == b;
      HashStays(b);
      assert forall k :: 0 <= k < |s| ==> input[k] == s[k] == b;
    }
  }

  class Compressor {
    const hashtab: array<int>  // input positions; -1 stands for the null pointer

    ghost predicate Valid() { hashtab.Length == HSIZE }

    constructor ()
      ensures Valid() && fresh(hashtab)
    {
      hashtab := new int[HSIZE](_ => -1);
    }

    /** Enters the positions skipped by a match into the hash table. */
    method Rehash(input: array<byte>, i: nat, len: nat, h: nat, ghost s: seq<byte>, ghost b: byte) returns (h': nat)
      requires Valid() && i + len + 2 < |s| <= input.Length && s == input[..|s|] && 0 < i
      modifies hashtab
      ensures Uniform(s, b) && h == HashOf(b, 4) ==> Rolling(hashtab[..], i + len + 1, h', b)
    {
      var p, n := i, len + 1;
      h' := h;
      HashStays(b);
      while n > 0
        invariant p + n == i + len + 1 && i <= p && n >= 0
        invariant Uniform(s, b) && h == HashOf(b, 4) ==> h' == h && (p > i ==> hashtab[HashIndex(h)] == p - 1)
      {
        assert s[p + 2] == input[p + 2];
        h' := NextHash(h', input[p + 2]);
        hashtab[HashIndex(h')] := p;
        p, n := p + 1, n - 1;
      }
      assert hashtab[..][HashIndex(h')] == hashtab[HashIndex(h')];
    }

    /** The hash value of the three bytes at position i, and its slot. */
    method Hash(input: array<byte>, i: nat, h: nat) returns (h': nat, slot: nat)
      requires i + 2 < input.Length
      ensures h' == NextHash(h, input[i + 2]) && slot == HashIndex(h')
    {
      h' := NextHash(h, input[i + 2]);
      slot := HashIndex(h');
    }

    /** Enters position i into its slot of the hash table and tests the position it replaces. */
    method Lookup(input: array<byte>, inlen: nat, i: nat, slot: nat) returns (hit: bool, ref: int)
      requires Valid() && i + 2 < inlen <= input.Length && slot < HSIZE
      modifies hashtab
      ensures ref == old(hashtab[slot]) && hashtab[..] == old(hashtab[..])[slot := i]
      ensures hit <==> 0 < ref < i && i - ref - 1 < MAX_OFF && Agree(input[..], ref, i, 3)
    {
      ref := hashtab[slot];
      hashtab[slot] := i;
      hit := ref < i && i - ref - 1 < MAX_OFF && ref > 0 && input[ref + 2] == input[i + 2]
             && input[ref + 1] as int * 256 + input[ref] as int == input[i + 1] as int * 256 + input[i] as int;
      if 0 < ref < i {
        ThreeBytes(input[..], ref, i);
      }
    }

    /** Hashes the three bytes at position i and looks them up. */
    method Probe(input: array<byte>, inlen: nat, i: nat, h: nat, ghost s: seq<byte>, ghost b: byte)
      returns (h': nat, hit: bool, ref: int)
      requires Valid() && i + 2 < inlen <= input.Length && s == input[..inlen]
      modifies hashtab
      ensures hit ==> 0 < ref < i && i - ref - 1 < MAX_OFF && Agree(input[..], ref, i, 3)
      ensures Probed(old(hashtab[..]), i, h, hashtab[..], h', hit, s, b)
    {
      var slot;
      h', slot := Hash(input, i, h);
      hit, ref := Lookup(input, inlen, i, slot);
      RunLooksBack(old(hashtab[..]), s, i, h, h', slot, input[..], b);
    }

    /** Puts a match and enters the hashes of the bytes it covers. */
    method TakeMatch(input: array<byte>, inlen: nat, result: array<byte>, i: nat, o: nat, lit: nat, ref: nat, h: nat,
                     ghost s: seq<byte>, ghost b: byte)
      returns (i': nat, o': nat, h': nat)
      requires Valid() && 0 < ref < i && i + 2 < inlen <= input.Length && s == input[..inlen]
      requires i - ref - 1 < MAX_OFF && Agree(input[..], ref, i, 3)
      requires result.Length == RESULT_SIZE && result != input && o - (if lit == 0 then 1 else 0) + 3 < END
      requires Between(result[..], o, s, i, lit)
      modifies result, hashtab
      ensures result[END..] == old(result[END..])
      ensures i < i' <= inlen && Between(result[..], o', s, i', 0) && o' <= o - (if lit == 0 then 1 else 0) + 4
      ensures Uniform(s, b) ==> Took(i, h, i', hashtab[..], h', s, b)
    {
      var len;
      o', len := PutMatch(input, inlen, result, o, lit, ref, i, s);
      o', h' := o' + 1, h;
      i' := i + 1;
      i' := i' + len + 1;
      if i' + 2 < inlen {
        ghost var r := result[..];
        assert i' + 2 < |s| && s[ref + len + 2] == input[ref + len + 2] && s[i + len + 2] == input[i + len + 2];
        h' := Rehash(input, i' - (len + 1), len, h', s, b);
        assert result[..] == r;
      }
    }

    /** One round that found a match; tab and h0 are the hash table and value in front of it. */
    method MatchRound(input: array<byte>, inlen: nat, result: array<byte>, i: nat, o: nat, lit: nat, ref: nat, h: nat,
                      ghost s: seq<byte>, ghost b: byte, ghost p: Point)
      returns (full: bool, i': nat, o': nat, h': nat)
      requires Valid() && 0 < ref < i && i + 2 < inlen <= input.Length && s == input[..inlen]
      requires i - ref - 1 < MAX_OFF && Agree(input[..], ref, i, 3)
      requires result.Length == RESULT_SIZE && result != input && Between(result[..], o, s, i, lit)
      requires p.i == i && p.o == o && p.lit == lit && Probed(p.tab, i, p.h, hashtab[..], h, true, s, b)
      modifies result, hashtab
      ensures result[END..] == old(result[END..])
      ensures if full then o + 4 >= END else i < i' <= inlen && Between(result[..], o', s, i', 0)
      ensures !full ==> Turn(p, Point(hashtab[..], i', h', o', 0), s, b)
    {
      full, i', o', h' := false, i, o, h;
      if o + 3 + 1 >= END {
        if o - (if lit == 0 then 1 else 0) + 3 + 1 >= END {
          full := true;
          return;
        }
      }
      i', o', h' := TakeMatch(input, inlen, result, i, o, lit, ref, h, s, b);
      MatchTurn(p, old(hashtab[..]), h, Point(hashtab[..], i', h', o', 0), s, b);
    }

    /** One round that found no match. */
    method LiteralRound(input: array<byte>, inlen: nat, result: array<byte>, i: nat, o: nat, lit: nat, ghost h: nat,
                        ghost s: seq<byte>, ghost b: byte, ghost p: Point)
      returns (full: bool, o': nat, lit': nat)
      requires Valid() && i + 2 < inlen <= input.Length && s == input[..inlen]
      requires result.Length == RESULT_SIZE && result != input && Between(result[..], o, s, i, lit)
      requires p.i == i && p.o == o && p.lit == lit && Probed(p.tab, i, p.h, hashtab[..], h, false, s, b)
      modifies result
      ensures result[END..] == old(result[END..])
      ensures if full then o + 4 >= END else Between(result[..], o', s, i + 1, lit')
      ensures !full ==> Turn(p, Point(hashtab[..], i + 1, h, o', lit'), s, b)
    {
      full, o', lit' := o >= END, o, lit;
      if full {
        return;
      }
      ghost var tab' := hashtab[..];
      o', lit' := PutLiteral(input, result, o, lit, i, s);
      LiteralTurn(p, Point(tab', i + 1, h, o', lit'), s, b);
      assert hashtab[..] == tab';
    }

    /** One round of the main loop: a match or a literal; full is true when the output has no room for it. */
    method Advance(input: array<byte>, inlen: nat, result: array<byte>, i: nat, o: nat, lit: nat, h: nat,
                   ghost s: seq<byte>, ghost b: byte)
      returns (full: bool, i': nat, o': nat, lit': nat, h': nat)
      requires Valid() && i + 2 < inlen <= input.Length && s == input[..inlen]
      requires result.Length == RESULT_SIZE && result != input
      requires Between(result[..], o, s, i, lit)
      modifies result, hashtab
      ensures result[END..] == old(result[END..])
      ensures if full then o + 4 >= END else i < i' <= inlen && Between(result[..], o', s, i', lit')
      // in a run of one byte, every position but the first two starts a match
      ensures !full ==> Turn(Point(old(hashtab[..]), i, h, o, lit), Point(hashtab[..], i', h', o', lit'), s, b)
    {
      ghost var p := Point(hashtab[..], i, h, o, lit);
      var hit, ref;
      h', hit, ref := Probe(input, inlen, i, h, s, b);
      assert result[..] == old(result[..]) && input[..inlen] == s;
      if hit {
        full, i', o', h' := MatchRound(input, inlen, result, i, o, lit, ref, h', s, b, p);
        lit' := 0;
      } else {
        full, o', lit' := LiteralRound(input, inlen, result, i, o, lit, h', s, b, p);
        i' := i + 1;
      }
    }

    /** The main loop, from an empty hash table on; full is true when the output had no room. */
    method Rounds(input: array<byte>, inlen: nat, result: array<byte>, ghost s: seq<byte>)
      returns (full: bool, i: nat, o: nat, lit: nat)
      requires Valid() && input.Length == BUFSIZE && 0 < inlen <= BUFSIZE && s == input[..inlen]
      requires result.Length == RESULT_SIZE && result != input && forall k :: 0 <= k < HSIZE ==> hashtab[k] == -1
      modifies result, hashtab
      ensures result[END..] == old(result[END..])
      ensures if full then inlen > 493 else i <= inlen <= i + 2 && Between(result[..], o, s, i, lit)
      ensures Uniform(s, input[0]) ==> !full && o <= HDR1 + 10 && lit <= 2
    {
      full, i, o, lit := false, 0, HDR1 + 1, 0;
      var hval := NextHash(input[0] as nat, input[1]);
      RunStarts(hashtab[..], s, input[0], input[1], hval);
      ghost var b, path := input[0], [Point(hashtab[..], i, hval, o, lit)];
      while i + 2 < inlen
        invariant i <= inlen && Between(result[..], o, s, i, lit) && input[..inlen] == s && input[0] == b
        invariant Came(path, s, b) && path[|path| - 1] == Point(hashtab[..], i, hval, o, lit)
        invariant result[END..] == old(result[END..])
        decreases inlen - i
      {
        RoomInRun(path, path[|path| - 1], s, b);
        full, i, o, lit, hval := Advance(input, inlen, result, i, o, lit, hval, s, b);
        if full {
          return;
        }
        CameOn(path, Point(hashtab[..], i, hval, o, lit), s, b);
        path := path + [Point(hashtab[..], i, hval, o, lit)];
      }
      RoomInRun(path, path[|path| - 1], s, b);
    }

    /** The payload of a type-1 block, or 0 when it does not fit. */
    method Encode(input: array<byte>, inlen: nat, result: array<byte>) returns (cs: nat)
      requires Valid() && input.Length == BUFSIZE && 0 < inlen <= BUFSIZE
      requires result.Length == RESULT_SIZE && result != input
      modifies result, hashtab
      ensures cs <= BUFSIZE && cs <= inlen + inlen / 32 + 1
      ensures cs > 0 ==> Encodes(result[..], HDR1 + cs, input[..inlen], inlen)
      ensures inlen <= 493 ==> cs > 0
      ensures Uniform(input[..inlen], input[0]) ==> 0 < cs <= 12
      ensures result[END..] == old(result[END..])
    {
      ghost var s := input[..inlen];
      forall k | 0 <= k < HSIZE { hashtab[k] := -1; }
      var full, i, o, lit := Rounds(input, inlen, result, s);
      if full || o + 3 > END {
        return 0;
      }
      o := Finish(input, inlen, result, o, lit, i, s);
      cs := o - HDR1;
    }

    /** Compresses inlen bytes into a complete block in result, raw when the payload would not fit. */
    method Compress(input: array<byte>, inlen: nat, result: array<byte>) returns (retlen: nat)
      requires Valid() && input.Length == BUFSIZE && inlen <= BUFSIZE
      requires result.Length == RESULT_SIZE && result != input
      modifies result, hashtab
      ensures retlen <= RESULT_SIZE && BlockLength(result[..retlen]) == Some(retlen)
      ensures DecodeBlock(result[..retlen]) == Some(input[..inlen])
      ensures result[2] == 1 ==> HDR1 < retlen <= HDR1 + BUFSIZE && retlen - HDR1 <= inlen + inlen / 32 + 1
      ensures result[2] != 1 ==> retlen == HDR0 + inlen
      ensures 0 < inlen <= 493 ==> result[2] == 1
      ensures 0 < inlen && Uniform(input[..inlen], input[0]) ==> result[2] == 1 && retlen <= HDR1 + 12
      ensures result[END..] == old(result[END..])
    {
      var cs := 0;
      if inlen > 0 {
        cs := Encode(input, inlen, result);
      }
      if cs > 0 {
        retlen := PutHeader(result, cs, input[..inlen]);
      } else {
        retlen := PutRaw(input, inlen, result);
      }
    }
  }
}
