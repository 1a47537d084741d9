/** The CRC of gpm/tools/ym_uploader.py: the register loop, and the polynomial division that it carries out. */
module Crc16 {

  // ---------------------------------------------------------------- the register

  function Shift(c: bv16): bv16 { if c & 0x8000 != 0 then (c << 1) ^ 0x1021 else c << 1 }

  function ShiftN(c: bv16, n: nat): bv16
    decreases n, c
  {
    if n == 0 then c else ShiftN(Shift(c), n - 1)
  }

  function Feed(c: bv16, b: bv8): bv16 { c ^ ((b as bv16) << 8) }

  /** calculate_crc16, continued from register c. */
  function Crc(c: bv16, data: seq<bv8>): bv16
    decreases |data|
  {
    if data == [] then c else Crc(ShiftN(Feed(c, data[0]), 8), data[1..])
  }

  lemma {:induction false} CrcAppend(c: bv16, a: seq<bv8>, b: seq<bv8>)
    ensures Crc(c, a + b) == Crc(Crc(c, a), b)
    decreases |a|
  {
    if a == [] {
      assert a + b == b;
    } else {
      assert (a + b)[1..] == a[1..] + b;
      CrcAppend(ShiftN(Feed(c, a[0]), 8), a[1..], b);
    }
  }

  // ---------------------------------------------------------------- polynomials over the two-element field

  /** Coefficients, the highest power first. */
  type Polynomial = seq<bool>

  /** x^16 + x^12 + x^5 + 1 */
  function Generator(): Polynomial { seq(17, i requires 0 <= i < 17 => 16 - i in {16, 12, 5, 0}) }

  /** b taken from the leading coefficients of a. */
  function Minus(a: Polynomial, b: Polynomial): (r: Polynomial)
    requires |b| <= |a|
    ensures |r| == |a|
  {
    seq(|a|, i requires 0 <= i < |a| => if i < |b| then a[i] != b[i] else a[i])
  }

  /** Long division: what is left once only powers below the divisor's are. */
  function Remainder(p: Polynomial, g: Polynomial): Polynomial
    requires |g| > 0
    decreases |p|
  {
    if |p| < |g| then p else Remainder((if p[0] then Minus(p, g) else p)[1..], g)
  }

  function Zeros(n: nat): (r: Polynomial)
    ensures |r| == n
  {
    seq(n, _ => false)
  }

  /** The first n bits of a byte, the highest first. */
  function ByteBits(b: bv8, n: nat): (r: Polynomial)
    ensures |r| == n
    decreases n, b
  {
    if n == 0 then [] else [b & 0x80 != 0] + ByteBits(b << 1, n - 1)
  }

  predicate Top(c: bv16) { c & 0x8000 != 0 }

  /** The first n bits of a register, the highest first. */
  function WordBits(c: bv16, n: nat): (r: Polynomial)
    ensures |r| == n
    decreases n, c
  {
    if n == 0 then [] else [Top(c)] + WordBits(c << 1, n - 1)
  }

  /** A message as a polynomial. */
  function MessageBits(data: seq<bv8>): Polynomial {
    if data == [] then [] else ByteBits(data[0], 8) + MessageBits(data[1..])
  }

  // ---------------------------------------------------------------- the register divides

  lemma TopXor(a: bv16, b: bv16)
    ensures Top(a ^ b) == (Top(a) != Top(b))
    ensures (a ^ b) << 1 == (a << 1) ^ (b << 1)
  {
  }

  /** Registers are added and subtracted bit by bit. */
  lemma {:induction false} XorBits(a: bv16, b: bv16, n: nat)
    ensures WordBits(a ^ b, n) == Minus(WordBits(a, n), WordBits(b, n))
    decreases n
  {
    if n > 0 {
      TopXor(a, b);
      XorBits(a << 1, b << 1, n - 1);
      NextBits(a ^ b, n);
      NextBits(a, n);
      NextBits(b, n);
      MinusCons(Top(a), WordBits(a << 1, n - 1), Top(b), WordBits(b << 1, n - 1));
    }
  }

  lemma NextBits(c: bv16, n: nat)
    requires n > 0
    ensures WordBits(c, n) == [Top(c)] + WordBits(c << 1, n - 1)
  {
  }

  lemma MinusCons(x: bool, a: Polynomial, y: bool, b: Polynomial)
    requires |a| == |b|
    ensures Minus([x] + a, [y] + b) == [x != y] + Minus(a, b)
  {
  }

  lemma {:induction false} ZeroBits(n: nat)
    ensures WordBits(0, n) == Zeros(n)
    decreases n
  {
    if n > 0 {
      assert 0 as bv16 << 1 == 0;
      ZeroBits(n - 1);
    }
  }

  lemma FourBits(c: bv16, n: nat)
    ensures WordBits(c, n + 4) ==
            [c & 0x8000 != 0, c & 0x4000 != 0, c & 0x2000 != 0, c & 0x1000 != 0] + WordBits(c << 4, n)
  {
    var d, e, f := c << 1, c << 1 << 1, c << 1 << 1 << 1;
    assert f << 1 == c << 4;
    assert (d & 0x8000 != 0) == (c & 0x4000 != 0) && (e & 0x8000 != 0) == (c & 0x2000 != 0);
    assert (f & 0x8000 != 0) == (c & 0x1000 != 0);
    assert WordBits(f, n + 1) == [f & 0x8000 != 0] + WordBits(c << 4, n);
    assert WordBits(e, n + 2) == [e & 0x8000 != 0] + WordBits(f, n + 1);
    assert WordBits(d, n + 3) == [d & 0x8000 != 0] + WordBits(e, n + 2);
  }

  lemma GeneratorBits()
    ensures WordBits(0x1021, 16) == Generator()[1..]
  {
    FourBits(0x1021, 12);
    FourBits(0x0210, 8);
    FourBits(0x2100, 4);
    FourBits(0x1000, 0);
  }

  function Shl(c: bv16, n: nat): bv16
    decreases n, c
  {
    if n == 0 then c else Shl(c << 1, n - 1)
  }

  lemma {:induction false} SplitBits(c: bv16, m: nat, n: nat)
    ensures WordBits(c, m + n) == WordBits(c, m) + WordBits(Shl(c, m), n)
    decreases m
  {
    if m > 0 {
      SplitBits(c << 1, m - 1, n);
    }
  }

  lemma FourLeft(c: bv16, n: nat)
    ensures Shl(c, n + 4) == Shl(c << 4, n)
  {
    assert Shl(c, n + 4) == Shl(c << 1, n + 3) == Shl(c << 1 << 1, n + 2) == Shl(c << 1 << 1 << 1, n + 1);
    assert c << 1 << 1 << 1 << 1 == c << 4;
  }

  lemma EightLeft(c: bv16)
    ensures Shl(c, 8) == c << 8
  {
    FourLeft(c, 4);
    FourLeft(c << 4, 0);
    assert c << 4 << 4 == c << 8;
  }

  lemma AllLeft(c: bv16)
    ensures Shl(c << 1, 15) == 0
  {
    FourLeft(c, 12);
    FourLeft(c << 4, 8);
    EightLeft(c << 4 << 4);
    assert c << 4 << 4 << 8 == 0;
  }

  /** Shifting brings in a zero. */
  lemma ShiftedBits(c: bv16)
    ensures WordBits(c << 1, 16) == WordBits(c, 16)[1..] + [false]
  {
    SplitBits(c << 1, 15, 1);
    AllLeft(c);
    ZeroBits(1);
  }

  lemma ShiftBits(c: bv16)
    ensures var w := WordBits(c, 16);
            WordBits(Shift(c), 16) == if w[0] then Minus(w[1..] + [false], Generator()[1..]) else w[1..] + [false]
  {
    ShiftedBits(c);
    XorBits(c << 1, 0x1021, 16);
    GeneratorBits();
  }

  /** One turn of the division, when the divisor is taken from a window of as many coefficients as it has. */
  lemma Turn(w: Polynomial, v: Polynomial, t: Polynomial, g: Polynomial)
    requires |w| == |v| == 16 && |g| == 17 && g[0] && |t| >= 16
    requires v == if w[0] then Minus(w[1..] + [false], g[1..]) else w[1..] + [false]
    ensures Remainder(Minus([false] + t, w), g) == Remainder(Minus(t, v), g)
  {
    var p := Minus([false] + t, w);
    var q := (if p[0] then Minus(p, g) else p)[1..];
    assert q == Minus(t, v) by {
      forall i | 0 <= i < |t| ensures q[i] == Minus(t, v)[i] {
        assert i < 16 ==> v[i] == ((w[1..] + [false])[i] != (w[0] && g[i + 1]));
      }
    }
  }

  /** One turn of the register is one turn of the division. */
  lemma ShiftDivides(c: bv16, t: Polynomial)
    requires |t| >= 16
    ensures Remainder(Minus([false] + t, WordBits(c, 16)), Generator()) ==
            Remainder(Minus(t, WordBits(Shift(c), 16)), Generator())
  {
    ShiftBits(c);
    Turn(WordBits(c, 16), WordBits(Shift(c), 16), t, Generator());
  }

  lemma {:induction false} ShiftsDivide(c: bv16, n: nat, t: Polynomial)
    requires |t| >= 16
    ensures Remainder(Minus(Zeros(n) + t, WordBits(c, 16)), Generator()) ==
            Remainder(Minus(t, WordBits(ShiftN(c, n), 16)), Generator())
    decreases n
  {
    if n == 0 {
      assert Zeros(n) + t == t;
    } else {
      assert Zeros(n) + t == [false] + (Zeros(n - 1) + t);
      ShiftDivides(c, Zeros(n - 1) + t);
      ShiftsDivide(Shift(c), n - 1, t);
    }
  }

  lemma ByteTop(b: bv8)
    ensures (((b as bv16) << 8) & 0x8000 != 0) == (b & 0x80 != 0)
    ensures (b as bv16) << 8 << 1 == ((b << 1) as bv16) << 8
  {
  }

  lemma {:induction false} HighBits(b: bv8, n: nat)
    ensures WordBits((b as bv16) << 8, n) == ByteBits(b, n)
    decreases n
  {
    if n > 0 {
      ByteTop(b);
      HighBits(b << 1, n - 1);
    }
  }

  lemma FeedBits(c: bv16, b: bv8)
    ensures WordBits(Feed(c, b), 16) == Minus(WordBits(c, 16), ByteBits(b, 8) + Zeros(8))
  {
    XorBits(c, (b as bv16) << 8, 16);
    HighHalf(b);
  }

  lemma MovesOver(w: Polynomial, x: Polynomial, t: Polynomial)
    requires |w| == 16 && |x| == 8 && |t| >= 16
    ensures Minus(x + t, w) == Minus(Zeros(8) + t, Minus(w, x + Zeros(8)))
  {
  }

  lemma {:induction false} RegisterDivides(c: bv16, data: seq<bv8>)
    ensures WordBits(Crc(c, data), 16) ==
            Remainder(Minus(MessageBits(data) + Zeros(16), WordBits(c, 16)), Generator())
    decreases |data|
  {
    if data == [] {
      assert Minus(Zeros(16), WordBits(c, 16)) == WordBits(c, 16);
      assert MessageBits(data) + Zeros(16) == Zeros(16);
    } else {
      var t, d := MessageBits(data[1..]) + Zeros(16), Feed(c, data[0]);
      FeedBits(c, data[0]);
      assert MessageBits(data) + Zeros(16) == ByteBits(data[0], 8) + t;
      MovesOver(WordBits(c, 16), ByteBits(data[0], 8), t);
      ShiftsDivide(d, 8, t);
      RegisterDivides(ShiftN(d, 8), data[1..]);
    }
  }

  lemma Nothing(p: Polynomial)
    requires |p| >= 16
    ensures Minus(p, Zeros(16)) == p
  {
  }

  /** The CRC of a message is the remainder of the message times x^16. */
  lemma CrcIsRemainder(data: seq<bv8>)
    ensures WordBits(Crc(0, data), 16) == Remainder(MessageBits(data) + Zeros(16), Generator())
  {
    RegisterDivides(0, data);
    ZeroBits(16);
    Nothing(MessageBits(data) + Zeros(16));
  }

  /** calculate_crc16; the source masks the register to 16 bits after every shift. */
  method CalculateCrc16(data: seq<bv8>) returns (crc: bv16)
    ensures crc == Crc(0, data)
    ensures WordBits(crc, 16) == Remainder(MessageBits(data) + Zeros(16), Generator())
  {
    crc := 0;
    for i := 0 to |data|
      invariant Crc(crc, data[i..]) == Crc(0, data)
    {
      ghost var whole := ShiftN(Feed(crc, data[i]), 8);
      assert data[i..][1..] == data[i + 1..];
      crc := Feed(crc, data[i]);
      for k := 0 to 8
        invariant ShiftN(crc, 8 - k) == whole
      {
        crc := if crc & 0x8000 != 0 then (crc << 1) ^ 0x1021 else crc << 1;
      }
    }
    CrcIsRemainder(data);
  }

  // ---------------------------------------------------------------- check bytes

  function High(c: bv16): bv8 { (c >> 8) as bv8 }

  function Low(c: bv16): bv8 { (c & 0xff) as bv8 }

  function Shift8(c: bv16): bv16 { Shift(Shift(Shift(Shift(Shift(Shift(Shift(Shift(c)))))))) }

  lemma FourShifts(c: bv16, n: nat)
    ensures ShiftN(c, n + 4) == ShiftN(Shift(Shift(Shift(Shift(c)))), n)
  {
    assert ShiftN(c, n + 4) == ShiftN(Shift(c), n + 3);
    assert ShiftN(Shift(c), n + 3) == ShiftN(Shift(Shift(c)), n + 2);
    assert ShiftN(Shift(Shift(c)), n + 2) == ShiftN(Shift(Shift(Shift(c))), n + 1);
  }

  lemma EightShifts(c: bv16)
    ensures ShiftN(c, 8) == Shift8(c)
  {
    FourShifts(c, 4);
    FourShifts(Shift(Shift(Shift(Shift(c)))), 0);
  }

  lemma LowShifts(c: bv16)
    ensures Shift8(c & 0xff) == (c & 0xff) << 8
  {
  }

  lemma HighCancels(c: bv16)
    ensures Feed(c, High(c)) == c & 0xff
  {
  }

  lemma LowCancels(c: bv16)
    ensures Feed((c & 0xff) << 8, Low(c)) == 0
  {
  }

  lemma ZeroShifts()
    ensures Shift8(0) == 0
  {
  }

  /** Two checksum bytes, high byte first, bring the register to zero. */
  lemma Residue(c: bv16)
    ensures Crc(c, [High(c), Low(c)]) == 0
  {
    HighCancels(c);
    EightShifts(c & 0xff);
    LowShifts(c);
    LowCancels(c);
    EightShifts(0);
    ZeroShifts();
    CrcTwo(c, High(c), Low(c));
  }

  lemma Halves(c: bv16)
    ensures c == ((High(c) as bv16) << 8) ^ (Low(c) as bv16)
  {
  }

  lemma LowHalf(b: bv8)
    ensures WordBits(b as bv16, 16) == Zeros(8) + ByteBits(b, 8)
  {
    var x := b as bv16;
    SplitBits(x, 8, 8);
    EightLeft(x);
    HighBits(b, 8);
    FourBits(x, 4);
    FourBits(x << 4, 0);
    assert x & 0x8000 == 0 && x & 0x4000 == 0 && x & 0x2000 == 0 && x & 0x1000 == 0;
    assert (x << 4) & 0x8000 == 0 && (x << 4) & 0x4000 == 0 && (x << 4) & 0x2000 == 0 && (x << 4) & 0x1000 == 0;
  }

  lemma HighHalf(b: bv8)
    ensures WordBits((b as bv16) << 8, 16) == ByteBits(b, 8) + Zeros(8)
  {
    var x := (b as bv16) << 8;
    SplitBits(x, 8, 8);
    EightLeft(x);
    assert (b as bv16) << 8 << 8 == 0;
    HighBits(b, 8);
    ZeroBits(8);
  }

  lemma TwoBytes(h: bv8, l: bv8)
    ensures WordBits(((h as bv16) << 8) ^ (l as bv16), 16) == ByteBits(h, 8) + ByteBits(l, 8)
  {
    XorBits((h as bv16) << 8, l as bv16, 16);
    HighHalf(h);
    LowHalf(l);
    Joined(ByteBits(h, 8), ByteBits(l, 8));
  }

  /** The two check bytes hold the register, its high byte first. */
  lemma CheckBytes(c: bv16)
    ensures ByteBits(High(c), 8) + ByteBits(Low(c), 8) == WordBits(c, 16)
  {
    Halves(c);
    TwoBytes(High(c), Low(c));
  }

  lemma Joined(a: Polynomial, b: Polynomial)
    requires |a| == |b| == 8
    ensures Minus(a + Zeros(8), Zeros(8) + b) == a + b
  {
  }

  // ---------------------------------------------------------------- detection

  /** The registers agree where mask m has bits. */
  predicate Agree(x: bv16, y: bv16, m: bv16) { (x ^ y) & m == 0 }

  lemma SameTop(x: bv16, y: bv16)
    requires Agree(Shift(x), Shift(y), 1)
    ensures Top(x) == Top(y)
  {
  }

  lemma SameTops(x: bv16, y: bv16)
    requires Top(x) == Top(y)
    ensures Shift(x) ^ Shift(y) == (x ^ y) << 1 && (x ^ y) & 0x8000 == 0
  {
    Cancels(x, y);
    if Top(x) {
      assert Shift(x) == (x << 1) ^ 0x1021 && Shift(y) == (y << 1) ^ 0x1021;
    } else {
      assert Shift(x) == x << 1 && Shift(y) == y << 1;
    }
    TopXor(x, y);
  }

  lemma Cancels(x: bv16, y: bv16)
    ensures ((x << 1) ^ 0x1021) ^ ((y << 1) ^ 0x1021) == (x ^ y) << 1 && (x << 1) ^ (y << 1) == (x ^ y) << 1
  {
  }

  lemma AgreeSelf(z: bv16, m: bv16)
    ensures Agree(z, z, m) && z ^ z == 0
  {
  }

  lemma Unshift(d: bv16, m: bv16)
    requires (d << 1) & m == 0 && d & 0x8000 == 0
    ensures d & ((m >> 1) | 0x8000) == 0
  {
  }

  lemma OneBit(x: bv16, y: bv16, m: bv16)
    requires Agree(x, y, m) && m & 1 == 1
    ensures Agree(x, y, 1)
  {
  }

  /** Registers that agree after a shift, on the lowest bit and others, agreed before it on the highest and those. */
  lemma ShiftBack(x: bv16, y: bv16, m: bv16)
    requires Agree(Shift(x), Shift(y), m) && m & 1 == 1
    ensures Agree(x, y, (m >> 1) | 0x8000)
  {
    OneBit(Shift(x), Shift(y), m);
    SameTop(x, y);
    SameTops(x, y);
    Unshift(x ^ y, m);
  }

  /** The bits on which registers agree n shifts before they agree on the low byte. */
  function Mask(n: nat): bv16 {
    if n == 0 then 0x00ff else if n == 1 then 0x807f else if n == 2 then 0xc03f else if n == 3 then 0xe01f else
    if n == 4 then 0xf00f else if n == 5 then 0xf807 else if n == 6 then 0xfc03 else if n == 7 then 0xfe01 else 0xff00
  }

  lemma MaskStep(n: nat)
    requires 0 < n <= 8
    ensures Mask(n - 1) & 1 == 1 && Mask(n) == (Mask(n - 1) >> 1) | 0x8000
  {
  }

  lemma {:induction false} ShiftsBack(x: bv16, y: bv16, n: nat)
    requires n <= 8 && Agree(ShiftN(x, n), ShiftN(y, n), 0xff)
    ensures Agree(x, y, Mask(n))
    decreases n
  {
    if n > 0 {
      ShiftsBack(Shift(x), Shift(y), n - 1);
      MaskStep(n);
      ShiftBack(x, y, Mask(n - 1));
    }
  }

  /** Undoes a shift: the lowest bit tells what the highest was. */
  function Back(r: bv16): bv16 { if r & 1 != 0 then ((r ^ 0x1021) >> 1) | 0x8000 else r >> 1 }

  lemma BackSet(x: bv16)
    requires x & 0x8000 != 0
    ensures Back((x << 1) ^ 0x1021) == x
  {
  }

  lemma BackClear(x: bv16)
    requires x & 0x8000 == 0
    ensures Back(x << 1) == x
  {
  }

  lemma BackAgain(x: bv16)
    ensures Back(Shift(x)) == x
  {
    if x & 0x8000 != 0 {
      BackSet(x);
    } else {
      BackClear(x);
    }
  }

  lemma ShiftInjective(x: bv16, y: bv16)
    requires Shift(x) == Shift(y)
    ensures x == y
  {
    BackAgain(x);
    BackAgain(y);
  }

  lemma {:induction false} ShiftsInjective(x: bv16, y: bv16, n: nat)
    requires ShiftN(x, n) == ShiftN(y, n)
    ensures x == y
    decreases n
  {
    if n > 0 {
      ShiftsInjective(Shift(x), Shift(y), n - 1);
      ShiftInjective(x, y);
    }
  }

  lemma FeedInjective(x: bv16, y: bv16, b: bv8)
    requires Feed(x, b) == Feed(y, b)
    ensures x == y
  {
  }

  lemma FedLow(x: bv16, b: bv8, y: bv16, c: bv8)
    requires Feed(x, b) == Feed(y, c)
    ensures Agree(x, y, 0xff)
  {
  }

  lemma FedHigh(x: bv16, b: bv8, c: bv8)
    requires Agree(Feed(x, b), Feed(x, c), 0xff00)
    ensures b == c
  {
  }

  /** Equal data keeps different registers different. */
  lemma {:induction false} CrcInjective(x: bv16, y: bv16, data: seq<bv8>)
    requires Crc(x, data) == Crc(y, data)
    ensures x == y
    decreases |data|
  {
    if data != [] {
      CrcInjective(ShiftN(Feed(x, data[0]), 8), ShiftN(Feed(y, data[0]), 8), data[1..]);
      ShiftsInjective(Feed(x, data[0]), Feed(y, data[0]), 8);
      FeedInjective(x, y, data[0]);
    }
  }

  lemma CrcOne(c: bv16, b: bv8)
    ensures Crc(c, [b]) == ShiftN(Feed(c, b), 8)
  {
    assert [b][1..] == [];
  }

  lemma CrcTwo(c: bv16, a: bv8, b: bv8)
    ensures Crc(c, [a, b]) == ShiftN(Feed(ShiftN(Feed(c, a), 8), b), 8)
  {
    assert [a, b][1..] == [b];
    CrcOne(ShiftN(Feed(c, a), 8), b);
  }

  lemma OneStep(c: bv16, b: bv8, b': bv8)
    requires ShiftN(Feed(c, b), 8) == ShiftN(Feed(c, b'), 8)
    ensures b == b'
  {
    ShiftsInjective(Feed(c, b), Feed(c, b'), 8);
    FedHigh(c, b, b');
  }

  /** One or two bytes are told apart from any register. */
  lemma TwoSteps(c: bv16, u: seq<bv8>, v: seq<bv8>)
    requires |u| == |v| <= 2 && Crc(c, u) == Crc(c, v)
    ensures u == v
  {
    if |u| == 1 {
      CrcOne(c, u[0]);
      CrcOne(c, v[0]);
      assert u == [u[0]] && v == [v[0]];
      OneStep(c, u[0], v[0]);
    } else if |u| == 2 {
      CrcTwo(c, u[0], u[1]);
      CrcTwo(c, v[0], v[1]);
      assert u == [u[0], u[1]] && v == [v[0], v[1]];
      var x, y := ShiftN(Feed(c, u[0]), 8), ShiftN(Feed(c, v[0]), 8);
      ShiftsInjective(Feed(x, u[1]), Feed(y, v[1]), 8);
      FedLow(x, u[1], y, v[1]);
      ShiftsBack(Feed(c, u[0]), Feed(c, v[0]), 8);
      FedHigh(c, u[0], v[0]);
      OneStep(x, u[1], v[1]);
    }
  }

  /** A change confined to two consecutive bytes always changes the CRC. */
  lemma BurstDetected(c: bv16, x: seq<bv8>, y: seq<bv8>, k: nat, n: nat)
    requires |x| == |y| && n <= 2 && k + n <= |x| && x != y
    requires x[..k] == y[..k] && x[k + n..] == y[k + n..]
    ensures Crc(c, x) != Crc(c, y)
  {
    var p, u, v, q := x[..k], x[k..k + n], y[k..k + n], x[k + n..];
    assert x == p + (u + q) && y == p + (v + q);
    var r := Crc(c, p);
    CrcAppend(c, p, u + q);
    CrcAppend(c, p, v + q);
    CrcAppend(r, u, q);
    CrcAppend(r, v, q);
    if Crc(c, x) == Crc(c, y) {
      CrcInjective(Crc(r, u), Crc(r, v), q);
      TwoSteps(r, u, v);
    }
  }
}
