/** JSON Pointer (RFC 6901): building a pointer to a node and following it back. Strings end where their sequence
    does; a NUL never occurs inside. */
module JsonPointer {
  import opened Bytes
  import opened JsonSort

  const SLASH: byte := '/' as byte
  const TILDE: byte := '~' as byte
  const ZERO: byte := '0' as byte
  const ONE: byte := '1' as byte

  // ---------------------------------------------------------------- reference tokens

  function EncodeChar(c: byte): seq<byte> {
    if c == SLASH then [TILDE, ONE] else if c == TILDE then [TILDE, ZERO] else [c]
  }

  /** The key with '~' and '/' escaped (section 3 of RFC 6901). */
  function Encode(k: seq<byte>): seq<byte>
    decreases |k|
  {
    if k == [] then [] else EncodeChar(k[0]) + Encode(k[1..])
  }

  /** The text up to the next '/' or the end. */
  function Token(p: seq<byte>): (r: seq<byte>)
    ensures r <= p
    decreases |p|
  {
    if p == [] || p[0] == SLASH then [] else [p[0]] + Token(p[1..])
  }

  /** What follows the token. */
  function Rest(p: seq<byte>): (r: seq<byte>)
    ensures |r| <= |p|
  {
    p[|Token(p)|..]
  }

  /** The token at the head of p encodes the key, up to case when case does not matter. */
  predicate Names(key: seq<byte>, p: seq<byte>, cs: bool) { Folded(Token(p), cs) == Encode(Folded(key, cs)) }

  /** Every '~' that d follows, and d with it, replaced by c. */
  function Replaced(t: seq<byte>, d: byte, c: byte): seq<byte>
    decreases |t|
  {
    if t == [] then []
    else if |t| > 1 && t[0] == '~' as byte && t[1] == d then [c] + Replaced(t[2..], d, c)
    else [t[0]] + Replaced(t[1..], d, c)
  }

  /** The key that a token stands for (section 4 of RFC 6901): "~1" is replaced first, then "~0". */
  function Decode(t: seq<byte>): seq<byte> { Replaced(Replaced(t, '1' as byte, '/' as byte), '0' as byte, '~' as byte) }

  /** A key with only '~' escaped. */
  function HalfEncode(k: seq<byte>): seq<byte>
    decreases |k|
  {
    if k == [] then [] else (if k[0] == TILDE then [TILDE, ZERO] else [k[0]]) + HalfEncode(k[1..])
  }

  lemma ReplacedOne(x: byte, t: seq<byte>, d: byte, c: byte)
    requires x != TILDE
    ensures Replaced([x] + t, d, c) == [x] + Replaced(t, d, c)
  {
    assert ([x] + t)[1..] == t;
  }

  lemma ReplacedTwo(x: byte, t: seq<byte>, d: byte, c: byte)
    requires x != TILDE
    ensures Replaced([TILDE, x] + t, d, c) == if x == d then [c] + Replaced(t, d, c) else [TILDE, x] + Replaced(t, d, c)
  {
    var s := [TILDE, x] + t;
    assert s[2..] == t && s[1..] == [x] + t;
    ReplacedOne(x, t, d, c);
    assert [TILDE] + ([x] + Replaced(t, d, c)) == [TILDE, x] + Replaced(t, d, c);
  }

  lemma {:induction false} SlashesBack(k: seq<byte>)
    ensures Replaced(Encode(k), ONE, SLASH) == HalfEncode(k)
    decreases |k|
  {
    if k != [] {
      SlashesBack(k[1..]);
      if k[0] == SLASH {
        ReplacedTwo(ONE, Encode(k[1..]), ONE, SLASH);
      } else if k[0] == TILDE {
        ReplacedTwo(ZERO, Encode(k[1..]), ONE, SLASH);
      } else {
        ReplacedOne(k[0], Encode(k[1..]), ONE, SLASH);
      }
    }
  }

  lemma {:induction false} TildesBack(k: seq<byte>)
    ensures Replaced(HalfEncode(k), ZERO, TILDE) == k
    decreases |k|
  {
    if k != [] {
      TildesBack(k[1..]);
      if k[0] == TILDE {
        ReplacedTwo(ZERO, HalfEncode(k[1..]), ZERO, TILDE);
      } else {
        ReplacedOne(k[0], HalfEncode(k[1..]), ZERO, TILDE);
      }
      assert k == [k[0]] + k[1..];
    }
  }

  /** The token of a key decodes to it. */
  lemma EncodeDecodes(k: seq<byte>)
    ensures Decode(Encode(k)) == k
  {
    SlashesBack(k);
    TildesBack(k);
  }

  lemma FoldChar(c: byte, cs: bool)
    ensures Fold(c, cs) == SLASH <==> c == SLASH
    ensures Fold(c, cs) == TILDE <==> c == TILDE
    ensures c == ZERO || c == ONE ==> Fold(c, cs) == c
    ensures Fold(c, cs) == ZERO <==> c == ZERO
    ensures Fold(c, cs) == ONE <==> c == ONE
  {
  }

  lemma FoldCons(c: byte, s: seq<byte>, cs: bool)
    ensures Folded([c] + s, cs) == [Fold(c, cs)] + Folded(s, cs)
  {
  }

  lemma ConsEqual(c: byte, s: seq<byte>, d: byte, t: seq<byte>)
    ensures [c] + s == [d] + t <==> c == d && s == t
  {
    assert ([c] + s)[1..] == s && ([d] + t)[1..] == t && ([c] + s)[0] == c && ([d] + t)[0] == d;
  }

  lemma EncodeCons(c: byte, k: seq<byte>)
    ensures Encode([c] + k) == EncodeChar(c) + Encode(k)
  {
    assert ([c] + k)[1..] == k;
  }

  lemma TokenCons(c: byte, p: seq<byte>)
    ensures Token([c] + p) == if c == SLASH then [] else [c] + Token(p)
  {
    assert ([c] + p)[1..] == p;
  }

  /** The encoding of a key, first character first. */
  lemma EncodedHead(n: byte, key: seq<byte>, cs: bool)
    ensures var e := Encode(Folded(key, cs));
            Encode(Folded([n] + key, cs)) ==
            if n == SLASH then [TILDE] + ([ONE] + e)
            else if n == TILDE then [TILDE] + ([ZERO] + e)
            else [Fold(n, cs)] + e
  {
    FoldCons(n, key, cs);
    EncodeCons(Fold(n, cs), Folded(key, cs));
    FoldChar(n, cs);
    var e := Encode(Folded(key, cs));
    assert [TILDE, ONE] + e == [TILDE] + ([ONE] + e);
    assert [TILDE, ZERO] + e == [TILDE] + ([ZERO] + e);
  }

  lemma TokenHead(c: byte, p: seq<byte>, cs: bool, x: byte, e: seq<byte>)
    ensures Folded(Token([c] + p), cs) == [x] + e <==> c != SLASH && Fold(c, cs) == x && Folded(Token(p), cs) == e
  {
    TokenCons(c, p);
    if c != SLASH {
      FoldCons(c, Token(p), cs);
      ConsEqual(Fold(c, cs), Folded(Token(p), cs), x, e);
    }
  }

  /** A character of the key against one that is not escaped. */
  lemma NamesPlain(n: byte, key: seq<byte>, c: byte, p: seq<byte>, cs: bool)
    requires c != SLASH && c != TILDE
    ensures Names([n] + key, [c] + p, cs) <==> Fold(n, cs) == Fold(c, cs) && Names(key, p, cs)
  {
    FoldChar(n, cs);
    FoldChar(c, cs);
    EncodedHead(n, key, cs);
    var e := Encode(Folded(key, cs));
    var x := if n == SLASH || n == TILDE then TILDE else Fold(n, cs);
    var y := if n == SLASH then [ONE] + e else if n == TILDE then [ZERO] + e else e;
    TokenHead(c, p, cs, x, y);
  }

  /** A character of the key against an escape. */
  lemma NamesEscape(n: byte, key: seq<byte>, d: byte, p: seq<byte>, cs: bool)
    ensures Names([n] + key, [TILDE] + ([d] + p), cs) <==>
            ((d == ZERO && n == TILDE) || (d == ONE && n == SLASH)) && Names(key, p, cs)
  {
    FoldChar(n, cs);
    FoldChar(d, cs);
    FoldChar(TILDE, cs);
    EncodedHead(n, key, cs);
    var e := Encode(Folded(key, cs));
    var x := if n == SLASH || n == TILDE then TILDE else Fold(n, cs);
    var z := if n == SLASH then ONE else ZERO;
    var y := if n == SLASH || n == TILDE then [z] + e else e;
    TokenHead(TILDE, [d] + p, cs, x, y);
    TokenHead(d, p, cs, z, e);
  }

  /** A lone '~' at the end names nothing. */
  lemma NamesCut(n: byte, key: seq<byte>, cs: bool)
    ensures !Names([n] + key, [TILDE], cs)
  {
    FoldCons(n, key, cs);
    EncodeCons(Fold(n, cs), Folded(key, cs));
    FoldChar(n, cs);
    FoldChar(TILDE, cs);
    assert Token([TILDE]) == [TILDE];
    assert Folded([TILDE], cs) == [TILDE];
  }

  lemma NamesEnd(key: seq<byte>, p: seq<byte>, cs: bool)
    requires key == [] || p == [] || p[0] == SLASH
    ensures Names(key, p, cs) <==> key == [] && (p == [] || p[0] == SLASH)
  {
    if key != [] {
      assert Folded(key, cs) != [];
    } else {
      assert Folded(key, cs) == [];
    }
  }

  /** compare_pointers: a token is accepted exactly when it encodes the key. */
  method ComparePointers(name: Option<seq<byte>>, pointer: Option<seq<byte>>, cs: bool) returns (r: bool)
    ensures r <==> name.Some? && pointer.Some? && Names(name.value, pointer.value, cs)
  {
    if name.None? || pointer.None? {
      return false;
    }
    var n, p := name.value, pointer.value;
    while n != [] && p != [] && p[0] != SLASH
      invariant Names(n, p, cs) == Names(name.value, pointer.value, cs)
      decreases |n|
    {
      Heads(n, p);
      if p[0] == TILDE {
        if |p| == 1 {
          NamesCut(n[0], n[1..], cs);
          return false;
        }
        NamesEscape(n[0], n[1..], p[1], p[2..], cs);
        if (p[1] != ZERO || n[0] != TILDE) && (p[1] != ONE || n[0] != SLASH) {
          return false;
        }
        p := p[1..];
      } else {
        NamesPlain(n[0], n[1..], p[0], p[1..], cs);
        if Fold(n[0], cs) != Fold(p[0], cs) {
          return false;
        }
      }
      n, p := n[1..], p[1..];
    }
    NamesEnd(n, p, cs);
    return (p != [] && p[0] != SLASH) == (n != []);
  }

  lemma Heads(n: seq<byte>, p: seq<byte>)
    requires n != [] && p != []
    ensures n == [n[0]] + n[1..] && p == [p[0]] + p[1..]
    ensures |p| > 1 ==> p == [p[0]] + ([p[1]] + p[2..]) && p[1..][1..] == p[2..]
    ensures |p| == 1 ==> p == [p[0]]
  {
  }

  /** pointer_encoded_length */
  method EncodedLength(k: seq<byte>) returns (length: nat)
    ensures length == |Encode(k)|
  {
    length := 0;
    for i := 0 to |k|
      invariant length + |Encode(k[i..])| == |Encode(k)|
    {
      assert k[i..][1..] == k[i + 1..];
      if k[i] == TILDE || k[i] == SLASH {
        length := length + 1;
      }
      length := length + 1;
    }
  }

  lemma Associates(a: seq<byte>, b: seq<byte>, c: seq<byte>)
    ensures a + b + c == a + (b + c)
  {
  }

  lemma EncodeNext(k: seq<byte>, i: nat, done: seq<byte>)
    requires i < |k| && done + Encode(k[i..]) == Encode(k)
    ensures done + EncodeChar(k[i]) + Encode(k[i + 1..]) == Encode(k)
  {
    assert k[i..] == [k[i]] + k[i + 1..];
    EncodeCons(k[i], k[i + 1..]);
    Associates(done, EncodeChar(k[i]), Encode(k[i + 1..]));
  }

  /** The text was with its part after index at overwritten by done. */
  function Over(was: seq<byte>, at: nat, done: seq<byte>): seq<byte>
    requires at + |done| <= |was|
  {
    was[..at] + done + was[at + |done|..]
  }

  lemma OverMore(was: seq<byte>, at: nat, done: seq<byte>, more: seq<byte>)
    requires at + |done| + |more| <= |was|
    ensures Over(Over(was, at, done), at + |done|, more) == Over(was, at, done + more)
  {
  }

  lemma OverFront(was: seq<byte>, at: nat, done: seq<byte>)
    requires at + |done| < |was|
    ensures Over(was, at, done + [0])[..at + |done|] == was[..at] + done
  {
  }

  method PutChar(buffer: array<byte>, d: nat, c: byte) returns (e: nat)
    requires d + |EncodeChar(c)| <= buffer.Length
    modifies buffer
    ensures e == d + |EncodeChar(c)| && buffer[..] == Over(old(buffer[..]), d, EncodeChar(c))
  {
    e := d;
    if c == SLASH {
      buffer[e], buffer[e + 1] := TILDE, ONE;
      e := e + 1;
    } else if c == TILDE {
      buffer[e], buffer[e + 1] := TILDE, ZERO;
      e := e + 1;
    } else {
      buffer[e] := c;
    }
    e := e + 1;
  }

  method Terminate(buffer: array<byte>, d: nat)
    requires d < buffer.Length
    modifies buffer
    ensures buffer[..] == Over(old(buffer[..]), d, [0])
  {
    buffer[d] := 0;
  }

  /** encode_string_as_pointer, writing from index `at` of the buffer on. */
  method EncodeString(buffer: array<byte>, at: nat, k: seq<byte>)
    requires at + |Encode(k)| < buffer.Length
    modifies buffer
    ensures buffer[..] == Over(old(buffer[..]), at, Encode(k) + [0])
  {
    ghost var was, done := buffer[..], [];
    var d := at;
    for i := 0 to |k|
      invariant d == at + |done| && done + Encode(k[i..]) == Encode(k)
      invariant buffer[..] == Over(was, at, done)
    {
      EncodeNext(k, i, done);
      OverMore(was, at, done, EncodeChar(k[i]));
      d := PutChar(buffer, d, k[i]);
      done := done + EncodeChar(k[i]);
    }
    assert done == Encode(k);
    OverMore(was, at, done, [0]);
    Terminate(buffer, d);
  }

  // ---------------------------------------------------------------- array indices

  /** size_t and unsigned long of the 32-bit target. */
  const SIZE_MODULUS: nat := 0x1_0000_0000

  /** Arithmetic in a size_t. */
  function ToSize(v: nat): (r: nat)
    ensures v < SIZE_MODULUS ==> r == v
  {
    v % SIZE_MODULUS
  }

  predicate Digit(c: byte) { ZERO <= c <= '9' as byte }

  function DigitValue(c: byte): nat
    requires Digit(c)
  {
    (c - ZERO) as nat
  }

  /** n as "%lu" prints it. */
  function Decimal(n: nat): (r: seq<byte>)
    ensures r != [] && forall i :: 0 <= i < |r| ==> Digit(r[i])
  {
    if n < 10 then [ZERO + n as byte] else Decimal(n / 10) + [ZERO + (n % 10) as byte]
  }

  predicate AllDigits(t: seq<byte>) { forall i :: 0 <= i < |t| ==> Digit(t[i]) }

  /** The number that digits denote. */
  function DigitsValue(t: seq<byte>): nat
    requires AllDigits(t)
    decreases |t|
  {
    if t == [] then 0 else 10 * DigitsValue(t[..|t| - 1]) + DigitValue(t[|t| - 1])
  }

  /** What decode_array_index_from_pointer makes of a token: nothing but digits, no leading zero, reduced to a size_t.
      An empty token passes as 0. */
  function IndexOf(t: seq<byte>): Option<nat> {
    if (|t| > 1 && t[0] == ZERO) || !AllDigits(t) then None else Some(ToSize(DigitsValue(t)))
  }

  lemma LastDigit(a: nat, d: nat)
    requires d < 10
    ensures (10 * a + d) / 10 == a && (10 * a + d) % 10 == d
  {
  }

  lemma {:induction false} DecimalValue(n: nat)
    ensures DigitsValue(Decimal(n)) == n && (n > 0 ==> Decimal(n)[0] != ZERO)
    decreases n
  {
    var t := Decimal(n);
    if n >= 10 {
      DecimalValue(n / 10);
      assert t[..|t| - 1] == Decimal(n / 10) && t[0] == Decimal(n / 10)[0];
    } else {
      assert t[..|t| - 1] == [];
    }
  }

  lemma {:induction false} ValueDecimal(t: seq<byte>)
    requires AllDigits(t) && t != [] && (|t| > 1 ==> t[0] != ZERO)
    ensures Decimal(DigitsValue(t)) == t && (t[0] != ZERO ==> DigitsValue(t) > 0)
    decreases |t|
  {
    var u, d := t[..|t| - 1], DigitValue(t[|t| - 1]);
    if |t| > 1 {
      ValueDecimal(u);
      LastDigit(DigitsValue(u), d);
      assert t == u + [t[|t| - 1]] && t[0] == u[0];
    } else {
      assert u == [] && t == [t[0]];
    }
  }

  /** Tokens that are accepted although no index prints as them: the empty one, and numbers that a size_t cannot
      hold. */
  predicate Misread(t: seq<byte>) {
    t == [] || (AllDigits(t) && t[0] != ZERO && DigitsValue(t) >= SIZE_MODULUS)
  }

  lemma OneDigit(t: seq<byte>)
    requires AllDigits(t) && |t| == 1
    ensures DigitsValue(t) < 10
  {
    assert t[..0] == [];
  }

  lemma PrintedParses(i: nat)
    requires i < SIZE_MODULUS
    ensures IndexOf(Decimal(i)) == Some(i)
  {
    DecimalValue(i);
    assert i == 0 ==> |Decimal(i)| == 1;
  }

  /** A token is accepted as i exactly when it is i printed, or is misread and i is its value in size_t arithmetic. */
  lemma IndexExactly(t: seq<byte>, i: nat)
    ensures IndexOf(t) == Some(i) <==>
            (i < SIZE_MODULUS && t == Decimal(i)) || (Misread(t) && i == ToSize(DigitsValue(t)))
  {
    if IndexOf(t) == Some(i) && t != [] {
      ValueDecimal(t);
      if |t| == 1 {
        OneDigit(t);
      }
    }
    if i < SIZE_MODULUS && t == Decimal(i) {
      PrintedParses(i);
    }
  }

  /** Hence the accepted tokens that do not print the index they are taken for are exactly the misread ones. */
  lemma MisreadExactly(t: seq<byte>)
    ensures (exists i: nat :: IndexOf(t) == Some(i) && t != Decimal(i)) <==> Misread(t)
  {
    if Misread(t) {
      var i := ToSize(DigitsValue(t));
      IndexExactly(t, i);
      DecimalValue(i);
      assert IndexOf(t) == Some(i) && t != Decimal(i);
    } else {
      forall i: nat ensures !(IndexOf(t) == Some(i) && t != Decimal(i)) {
        IndexExactly(t, i);
      }
    }
  }

  /** The standard has no empty index; the code takes it for 0. */
  lemma EmptyIndex()
    ensures IndexOf([]) == Some(0)
  {
  }

  /** Five more digits. */
  lemma FiveDigits(t: seq<byte>, k: nat, v: nat, a: nat, b: nat, c: nat, d: nat, e: nat)
    requires AllDigits(t) && k + 5 <= |t| && DigitsValue(t[..k]) == v
    requires DigitValue(t[k]) == a && DigitValue(t[k + 1]) == b && DigitValue(t[k + 2]) == c
    requires DigitValue(t[k + 3]) == d && DigitValue(t[k + 4]) == e
    ensures DigitsValue(t[..k + 5]) == 100000 * v + 10000 * a + 1000 * b + 100 * c + 10 * d + e
  {
    DigitsNext(t, k);
    DigitsNext(t, k + 1);
    DigitsNext(t, k + 2);
    DigitsNext(t, k + 3);
    DigitsNext(t, k + 4);
  }

  /** "4294967296" is taken for 0 as well. */
  lemma WrappedIndex(t: seq<byte>)
    requires t == ['4' as byte, '2' as byte, '9' as byte, '4' as byte, '9' as byte,
                   '6' as byte, '7' as byte, '2' as byte, '9' as byte, '6' as byte]
    ensures IndexOf(t) == Some(0)
  {
    assert t[..0] == [] && t[..10] == t;
    FiveDigits(t, 0, 0, 4, 2, 9, 4, 9);
    FiveDigits(t, 5, 42949, 6, 7, 2, 9, 6);
  }

  lemma DigitsNext(p: seq<byte>, k: nat)
    requires k < |p| && AllDigits(p[..k]) && Digit(p[k])
    ensures AllDigits(p[..k + 1]) && DigitsValue(p[..k + 1]) == 10 * DigitsValue(p[..k]) + DigitValue(p[k])
  {
    assert p[..k + 1][..k] == p[..k];
  }

  lemma Reduced(v: nat, d: nat)
    ensures ToSize(10 * ToSize(v) + d) == ToSize(10 * v + d)
  {
    var q := v / SIZE_MODULUS;
    assert 10 * v + d == 10 * (v % SIZE_MODULUS) + d + (10 * q) * SIZE_MODULUS;
    ModShift(10 * (v % SIZE_MODULUS) + d, 10 * q);
  }

  lemma {:induction false} ModShift(a: nat, q: nat)
    ensures (a + q * SIZE_MODULUS) % SIZE_MODULUS == a % SIZE_MODULUS
    decreases q
  {
    if q > 0 {
      ModShift(a, q - 1);
      assert a + q * SIZE_MODULUS == (a + (q - 1) * SIZE_MODULUS) + SIZE_MODULUS;
    }
  }

  lemma {:induction false} TokenEnds(p: seq<byte>, k: nat)
    requires k <= |p| && (forall i :: 0 <= i < k ==> p[i] != SLASH)
    ensures p[..k] <= Token(p) && (k == |p| || p[k] == SLASH ==> Token(p) == p[..k])
    decreases k
  {
    if k > 0 {
      TokenEnds(p[1..], k - 1);
      assert p[..k] == [p[0]] + p[1..][..k - 1];
    }
  }

  /** decode_array_index_from_pointer */
  method DecodeIndex(p: seq<byte>) returns (r: Option<nat>)
    ensures r == IndexOf(Token(p))
  {
    if |p| > 0 && p[0] == ZERO && |p| > 1 && p[1] != SLASH {
      TokenEnds(p, 2);
      return None;
    }
    var parsed, k := 0, 0;
    while k < |p| && Digit(p[k])
      invariant k <= |p| && AllDigits(p[..k]) && parsed == ToSize(DigitsValue(p[..k]))
      invariant forall i :: 0 <= i < k ==> p[i] != SLASH
    {
      DigitsNext(p, k);
      Reduced(DigitsValue(p[..k]), DigitValue(p[k]));
      parsed := ToSize(10 * parsed + (p[k] - ZERO) as nat);
      k := k + 1;
    }
    TokenEnds(p, k);
    if k < |p| && p[k] != SLASH {
      TokenEnds(p, k + 1);
      assert Token(p)[k] == p[k];
      return None;
    }
    return Some(parsed);
  }

  // ---------------------------------------------------------------- trees

  datatype Kind = Leaf | ArrayNode | ObjectNode

  /** A node; its id stands for its address. */
  datatype Node = Node(id: nat, key: Option<seq<byte>>, kind: Kind, children: seq<Node>)

  /** Members have keys, arrays have indices that a size_t can hold, and nothing else has children. */
  ghost predicate WellFormed(n: Node) {
    && (n.kind.Leaf? ==> n.children == [])
    && (n.kind.ArrayNode? ==> |n.children| <= SIZE_MODULUS)
    && (n.kind.ObjectNode? ==> Keyed(n.children))
    && forall i :: 0 <= i < |n.children| ==> WellFormed(n.children[i])
  }

  ghost predicate Keyed(c: seq<Node>) { forall i :: 0 <= i < |c| ==> c[i].key.Some? }

  /** The id belongs to the node or to one below it. */
  ghost predicate Has(n: Node, id: nat) {
    n.id == id || exists i :: 0 <= i < |n.children| && Has(n.children[i], id)
  }

  /** The token for child i. */
  function Step(n: Node, i: nat): Option<seq<byte>>
    requires i < |n.children|
  {
    match n.kind
    case Leaf => None
    case ArrayNode => Some(Decimal(i))
    case ObjectNode => if n.children[i].key.Some? then Some(Encode(n.children[i].key.value)) else None
  }

  /** cJSONUtils_FindPointerFromObjectTo */
  function FindPointer(n: Node, target: nat): Option<seq<byte>>
    decreases n, |n.children| + 1
  {
    if n.id == target then Some([]) else FindBelow(n, 0, target)
  }

  /** The search from child i on. */
  function FindBelow(n: Node, i: nat, target: nat): Option<seq<byte>>
    requires i <= |n.children|
    decreases n, |n.children| - i
  {
    if i == |n.children| then None
    else
      var p := FindPointer(n.children[i], target);
      if p.None? then FindBelow(n, i + 1, target)
      else if Step(n, i).None? then None
      else Some([SLASH] + Step(n, i).value + p.value)
  }

  /** Where following the token at the head of q leads. */
  function Child(n: Node, q: seq<byte>, cs: bool): Option<Node> {
    match n.kind
    case Leaf => None
    case ArrayNode =>
      var i := IndexOf(Token(q));
      if i.Some? && i.value < |n.children| then Some(n.children[i.value]) else None
    case ObjectNode => FirstNamed(n.children, 0, q, cs)
  }

  function FirstNamed(c: seq<Node>, i: nat, q: seq<byte>, cs: bool): Option<Node>
    requires i <= |c|
    decreases |c| - i
  {
    if i == |c| then None
    else if c[i].key.Some? && Names(c[i].key.value, q, cs) then Some(c[i])
    else FirstNamed(c, i + 1, q, cs)
  }

  /** Evaluation (section 4 of RFC 6901), as far as the pointer goes on with a '/'. */
  function Eval(n: Option<Node>, p: seq<byte>, cs: bool): Option<Node>
    decreases |p|
  {
    if n.None? || p == [] || p[0] != SLASH then n
    else Eval(Child(n.value, p[1..], cs), Rest(p[1..]), cs)
  }

  /** The token stands for child i: of an array, by its index or by a token misread as it; of an object, by its
      key, which no earlier member has. */
  ghost predicate Reaches(n: Node, t: seq<byte>, i: nat, cs: bool)
    requires i < |n.children|
  {
    match n.kind
    case Leaf => false
    case ArrayNode => (i < SIZE_MODULUS && t == Decimal(i)) || (Misread(t) && i == DigitsValue(t) % SIZE_MODULUS)
    case ObjectNode => KeyOf(n.children[i], t, cs) && forall j :: 0 <= j < i ==> !KeyOf(n.children[j], t, cs)
  }

  /** The token is the node's key encoded, up to case when case does not matter. */
  ghost predicate KeyOf(n: Node, t: seq<byte>, cs: bool) {
    n.key.Some? && Folded(t, cs) == Encode(Folded(n.key.value, cs))
  }

  /** The pointer leads from n to m: each of its tokens, between one '/' and the next, stands for a child. */
  ghost predicate Leads(n: Node, p: seq<byte>, m: Node, cs: bool)
    decreases |p|
  {
    if p == [] || p[0] != SLASH then m == n
    else exists k, i ::
      && 1 <= k <= |p| && Slashless(p[1..k]) && Follows(p[k..])
      && 0 <= i < |n.children| && Reaches(n, p[1..k], i, cs) && Leads(n.children[i], p[k..], m, cs)
  }

  lemma {:induction false} FirstExactly(c: seq<Node>, i: nat, q: seq<byte>, cs: bool) returns (l: nat)
    requires i <= |c|
    ensures i <= l <= |c| && forall j :: i <= j < l ==> !KeyOf(c[j], Token(q), cs)
    ensures FirstNamed(c, i, q, cs) == if l < |c| then Some(c[l]) else None
    ensures l < |c| ==> KeyOf(c[l], Token(q), cs)
    decreases |c| - i
  {
    if i == |c| || KeyOf(c[i], Token(q), cs) {
      l := i;
    } else {
      l := FirstExactly(c, i + 1, q, cs);
    }
  }

  /** A step goes to the one child that the token stands for, and fails when it stands for none. */
  lemma ChildExactly(n: Node, q: seq<byte>, cs: bool)
    ensures forall i :: 0 <= i < |n.children| && Reaches(n, Token(q), i, cs) ==> Child(n, q, cs) == Some(n.children[i])
    ensures Child(n, q, cs).Some? ==>
              exists i :: 0 <= i < |n.children| && Reaches(n, Token(q), i, cs) && Child(n, q, cs).value == n.children[i]
  {
    match n.kind
    case Leaf =>
    case ArrayNode =>
      forall i | 0 <= i < |n.children| ensures Reaches(n, Token(q), i, cs) <==> IndexOf(Token(q)) == Some(i) {
        IndexExactly(Token(q), i);
      }
    case ObjectNode =>
      var l := FirstExactly(n.children, 0, q, cs);
      assert l < |n.children| ==> Reaches(n, Token(q), l, cs);
  }

  lemma TokenAt(p: seq<byte>, k: nat)
    requires p != [] && 1 <= k <= |p| && Slashless(p[1..k]) && Follows(p[k..])
    ensures p[1..k] == Token(p[1..]) && p[k..] == Rest(p[1..])
  {
    assert p[1..] == p[1..k] + p[k..];
    TokenOf(p[1..k], p[k..]);
  }

  lemma TokenThere(p: seq<byte>)
    requires p != []
    ensures var k := 1 + |Token(p[1..])|;
            k <= |p| && p[1..k] == Token(p[1..]) && Slashless(p[1..k]) && p[k..] == Rest(p[1..]) && Follows(p[k..])
  {
    TokenSplits(p[1..]);
  }

  lemma {:induction false} TokenSplits(q: seq<byte>)
    ensures Slashless(Token(q)) && Follows(Rest(q))
    decreases |q|
  {
    if q != [] && q[0] != SLASH {
      TokenSplits(q[1..]);
    }
  }

  /** Evaluation returns the node that the pointer leads to, and NULL when it leads nowhere. */
  lemma {:induction false} EvalExactly(n: Node, p: seq<byte>, m: Node, cs: bool)
    ensures Eval(Some(n), p, cs) == Some(m) <==> Leads(n, p, m, cs)
    decreases |p|
  {
    if p != [] && p[0] == SLASH {
      var c := Child(n, p[1..], cs);
      ChildExactly(n, p[1..], cs);
      if c.Some? {
        EvalExactly(c.value, Rest(p[1..]), m, cs);
        TokenThere(p);
      }
      if Leads(n, p, m, cs) {
        var k, i :| && 1 <= k <= |p| && Slashless(p[1..k]) && Follows(p[k..])
                    && 0 <= i < |n.children| && Reaches(n, p[1..k], i, cs) && Leads(n.children[i], p[k..], m, cs);
        TokenAt(p, k);
      }
    }
  }

  /** The buffer that the source allocates, holding '/' and the encoded key, with room for more. */
  method StartPath(key: seq<byte>, more: nat) returns (buffer: array<byte>, end: nat)
    ensures fresh(buffer) && end == 1 + |Encode(key)| && buffer.Length == end + more + 1
    ensures buffer[..end] == [SLASH] + Encode(key)
  {
    var length := EncodedLength(key);
    buffer := new byte[more + length + 2];
    end := 1 + length;
    buffer[0] := SLASH;
    ghost var was := buffer[..];
    OverFront(was, 1, Encode(key));
    EncodeString(buffer, 1, key);
    assert buffer[..end] == buffer[..][..end] == was[..1] + Encode(key);
    assert was[..1] == [SLASH];
  }

  /** The pointer through a keyed child. */
  method ThroughKey(key: seq<byte>, p: seq<byte>) returns (full: seq<byte>)
    ensures full == [SLASH] + Encode(key) + p
  {
    var buffer, end := StartPath(key, |p|);
    Concatenate(buffer, end, p);
    full := buffer[..end + |p|];
  }

  /** strcat onto the text that ends at index `at`. */
  method Concatenate(buffer: array<byte>, at: nat, p: seq<byte>)
    requires at + |p| < buffer.Length
    modifies buffer
    ensures buffer[..at + |p|] == old(buffer[..at]) + p && buffer[at + |p|] == 0
  {
    forall i | 0 <= i < |p| {
      buffer[at + i] := p[i];
    }
    buffer[at + |p|] := 0;
  }

  function Power10(k: nat): nat { if k == 0 then 1 else 10 * Power10(k - 1) }

  lemma {:induction false} DecimalLength(n: nat, k: nat)
    requires k > 0 && n < Power10(k)
    ensures |Decimal(n)| <= k
    decreases k
  {
    if n >= 10 {
      DecimalLength(n / 10, k - 1);
    }
  }

  /** An index fits the twenty characters that the source reserves for it. */
  lemma IndexFits(n: nat)
    requires n < SIZE_MODULUS
    ensures |Decimal(n)| <= 20
  {
    assert Power10(10) == 10_000_000_000;
    DecimalLength(n, 10);
  }

  /** cJSONUtils_FindPointerFromObjectTo */
  method Find(n: Node, target: nat) returns (r: Option<seq<byte>>)
    ensures r == FindPointer(n, target)
    decreases n
  {
    if n.id == target {
      return Some([]);
    }
    for i := 0 to |n.children|
      invariant FindBelow(n, i, target) == FindPointer(n, target)
    {
      var p := Find(n.children[i], target);
      if p.Some? {
        if n.kind.ArrayNode? {
          return Some([SLASH] + Decimal(i) + p.value);
        }
        if n.kind.ObjectNode? && n.children[i].key.Some? {
          var full := ThroughKey(n.children[i].key.value, p.value);
          return Some(full);
        }
        return None;
      }
    }
    return None;
  }

  /** get_array_item */
  method GetArrayItem(c: seq<Node>, index: nat) returns (r: Option<Node>)
    ensures r == if index < |c| then Some(c[index]) else None
  {
    var k, item := 0, index;
    while k < |c| && item > 0
      invariant k <= |c| && k + item == index
    {
      k, item := k + 1, item - 1;
    }
    return if k < |c| then Some(c[k]) else None;
  }

  /** get_item_from_pointer */
  method GetItem(root: Option<Node>, pointer: seq<byte>, cs: bool) returns (r: Option<Node>)
    ensures r == Eval(root, pointer, cs)
    ensures forall m :: r == Some(m) <==> root.Some? && Leads(root.value, pointer, m, cs)
  {
    forall m ensures Eval(root, pointer, cs) == Some(m) <==> root.Some? && Leads(root.value, pointer, m, cs) {
      if root.Some? {
        EvalExactly(root.value, pointer, m, cs);
      }
    }
    var current, p := root, pointer;
    while p != [] && p[0] == SLASH && current.Some?
      invariant Eval(current, p, cs) == Eval(root, pointer, cs)
      decreases |p|
    {
      p := p[1..];
      match current.value.kind {
        case ArrayNode =>
          var index := DecodeIndex(p);
          if index.None? {
            return None;
          }
          current := GetArrayItem(current.value.children, index.value);
        case ObjectNode =>
          current := GetNamed(current.value.children, p, cs);
        case Leaf =>
          return None;
      }
      p := SkipToken(p);
    }
    return current;
  }

  /** The search for the child that the token names. */
  method GetNamed(c: seq<Node>, p: seq<byte>, cs: bool) returns (r: Option<Node>)
    ensures r == FirstNamed(c, 0, p, cs)
  {
    var k := 0;
    while k < |c|
      invariant k <= |c| && FirstNamed(c, k, p, cs) == FirstNamed(c, 0, p, cs)
    {
      var named := ComparePointers(c[k].key, Some(p), cs);
      if named {
        return Some(c[k]);
      }
      k := k + 1;
    }
    return None;
  }

  method SkipToken(q: seq<byte>) returns (p: seq<byte>)
    ensures p == Rest(q)
  {
    var k := 0;
    while k < |q| && q[k] != SLASH
      invariant k <= |q| && forall i :: 0 <= i < k ==> q[i] != SLASH
    {
      k := k + 1;
    }
    TokenEnds(q, k);
    return q[k..];
  }

  // ---------------------------------------------------------------- there and back

  /** Text that a token may be followed by. */
  predicate Follows(p: seq<byte>) { p == [] || p[0] == SLASH }

  lemma {:induction false} FindFollows(n: Node, target: nat)
    requires FindPointer(n, target).Some?
    ensures Follows(FindPointer(n, target).value)
  {
    if n.id != target {
      BelowFollows(n, 0, target);
    }
  }

  lemma {:induction false} BelowFollows(n: Node, i: nat, target: nat)
    requires i <= |n.children| && FindBelow(n, i, target).Some?
    ensures Follows(FindBelow(n, i, target).value)
    decreases |n.children| - i
  {
    if FindPointer(n.children[i], target).None? {
      BelowFollows(n, i + 1, target);
    }
  }

  /** No '/' inside. */
  predicate Slashless(t: seq<byte>) { forall i :: 0 <= i < |t| ==> t[i] != SLASH }

  lemma {:induction false} EncodeSlashless(k: seq<byte>)
    ensures Slashless(Encode(k))
    decreases |k|
  {
    if k != [] {
      EncodeSlashless(k[1..]);
    }
  }

  lemma TokenOf(t: seq<byte>, rest: seq<byte>)
    requires Slashless(t) && Follows(rest)
    ensures Token(t + rest) == t && Rest(t + rest) == rest
  {
    assert forall i :: 0 <= i < |t| ==> (t + rest)[i] == t[i];
    TokenEnds(t + rest, |t|);
    assert (t + rest)[..|t|] == t;
  }

  lemma {:induction false} FoldEncode(k: seq<byte>, cs: bool)
    ensures Folded(Encode(k), cs) == Encode(Folded(k, cs))
    decreases |k|
  {
    if k != [] {
      var r := Encode(k[1..]);
      FoldEncode(k[1..], cs);
      FoldChar(k[0], cs);
      assert k == [k[0]] + k[1..];
      FoldCons(k[0], k[1..], cs);
      EncodeCons(Fold(k[0], cs), Folded(k[1..], cs));
      assert Folded(EncodeChar(k[0]) + r, cs) == Folded(EncodeChar(k[0]), cs) + Folded(r, cs);
      assert Folded(EncodeChar(k[0]), cs) == EncodeChar(Fold(k[0], cs));
    } else {
      assert Folded(k, cs) == [];
    }
  }

  /** Different keys have different encodings. */
  lemma {:induction false} EncodeInjective(a: seq<byte>, b: seq<byte>)
    requires Encode(a) == Encode(b)
    ensures a == b
    decreases |a|
  {
    if a != [] && b != [] {
      assert Encode(a)[0] == EncodeChar(a[0])[0] && Encode(b)[0] == EncodeChar(b[0])[0];
      assert |EncodeChar(a[0])| == 2 ==> Encode(a)[1] == EncodeChar(a[0])[1];
      assert |EncodeChar(b[0])| == 2 ==> Encode(b)[1] == EncodeChar(b[0])[1];
      assert a[0] == b[0];
      assert Encode(a)[|EncodeChar(a[0])|..] == Encode(a[1..]);
      assert Encode(b)[|EncodeChar(a[0])|..] == Encode(b[1..]);
      EncodeInjective(a[1..], b[1..]);
      assert a == [a[0]] + a[1..] && b == [b[0]] + b[1..];
    }
  }

  /** The token of one key names another only when they are the same up to case. */
  lemma NamesEncoded(key: seq<byte>, other: seq<byte>, rest: seq<byte>, cs: bool)
    requires Follows(rest)
    ensures Names(other, Encode(key) + rest, cs) <==> Folded(key, cs) == Folded(other, cs)
  {
    EncodeSlashless(key);
    TokenOf(Encode(key), rest);
    FoldEncode(key, cs);
    if Names(other, Encode(key) + rest, cs) {
      EncodeInjective(Folded(key, cs), Folded(other, cs));
    }
  }

  /** No earlier sibling's key is child j's, up to case when case is ignored. */
  ghost predicate Foremost(c: seq<Node>, j: nat, cs: bool)
    requires j < |c| && Keyed(c)
  {
    forall i :: 0 <= i < j ==> Folded(c[i].key.value, cs) != Folded(c[j].key.value, cs)
  }

  lemma {:induction false} FirstIs(c: seq<Node>, i: nat, j: nat, rest: seq<byte>, cs: bool) returns (l: nat)
    requires Keyed(c) && i <= j < |c| && Follows(rest)
    ensures i <= l <= j && FirstNamed(c, i, Encode(c[j].key.value) + rest, cs) == Some(c[l])
    ensures Folded(c[l].key.value, cs) == Folded(c[j].key.value, cs)
    ensures forall h :: i <= h < l ==> Folded(c[h].key.value, cs) != Folded(c[j].key.value, cs)
    decreases j - i
  {
    NamesEncoded(c[j].key.value, c[i].key.value, rest, cs);
    if Folded(c[i].key.value, cs) == Folded(c[j].key.value, cs) {
      l := i;
    } else {
      l := FirstIs(c, i + 1, j, rest, cs);
    }
  }

  /** The token for a child leads to it, or to an earlier sibling exactly when one has its key. */
  lemma StepLeads(n: Node, j: nat, rest: seq<byte>, cs: bool)
    requires WellFormed(n) && j < |n.children| && Follows(rest)
    ensures Step(n, j).Some? && Rest(Step(n, j).value + rest) == rest
    ensures if n.kind.ObjectNode? && !Foremost(n.children, j, cs)
            then exists i :: 0 <= i < j && Child(n, Step(n, j).value + rest, cs) == Some(n.children[i])
            else Child(n, Step(n, j).value + rest, cs) == Some(n.children[j])
  {
    if n.kind.ArrayNode? {
      TokenOf(Decimal(j), rest);
      IndexExactly(Decimal(j), j);
    } else {
      EncodeSlashless(n.children[j].key.value);
      TokenOf(Encode(n.children[j].key.value), rest);
      var l := FirstIs(n.children, 0, j, rest, cs);
      assert Foremost(n.children, j, cs) <==> l == j;
    }
  }

  /** On the way to the first node with the id, every object is left through the foremost member of its key. */
  ghost predicate Clear(n: Node, target: nat, cs: bool)
    requires WellFormed(n)
    decreases n, |n.children| + 1
  {
    n.id == target || ClearBelow(n, 0, target, cs)
  }

  ghost predicate ClearBelow(n: Node, i: nat, target: nat, cs: bool)
    requires WellFormed(n) && i <= |n.children|
    decreases n, |n.children| - i
  {
    if i == |n.children| then true
    else if Has(n.children[i], target) then
      (n.kind.ObjectNode? ==> Foremost(n.children, i, cs)) && Clear(n.children[i], target, cs)
    else ClearBelow(n, i + 1, target, cs)
  }

  lemma ChildInside(n: Node, q: seq<byte>, cs: bool)
    ensures Child(n, q, cs).Some? ==> Child(n, q, cs).value in n.children
  {
    NamedInside(n.children, 0, q, cs);
  }

  lemma {:induction false} NamedInside(c: seq<Node>, i: nat, q: seq<byte>, cs: bool)
    requires i <= |c|
    ensures FirstNamed(c, i, q, cs).Some? ==> FirstNamed(c, i, q, cs).value in c
    decreases |c| - i
  {
    if i < |c| {
      NamedInside(c, i + 1, q, cs);
    }
  }

  /** Evaluation stays in the tree. */
  lemma {:induction false} EvalInside(n: Node, p: seq<byte>, cs: bool)
    ensures var r := Eval(Some(n), p, cs); r.Some? ==> Has(n, r.value.id)
    decreases |p|
  {
    if p != [] && p[0] == SLASH {
      ChildInside(n, p[1..], cs);
      var c := Child(n, p[1..], cs);
      if c.Some? {
        EvalInside(c.value, Rest(p[1..]), cs);
        var i :| 0 <= i < |n.children| && n.children[i] == c.value;
      }
    }
  }

  ghost predicate Arrives(n: Node, p: seq<byte>, target: nat, cs: bool) {
    var r := Eval(Some(n), p, cs);
    r.Some? && r.value.id == target
  }

  lemma {:induction false} NowhereElse(n: Node, p: seq<byte>, target: nat, cs: bool)
    requires !Has(n, target)
    ensures !Arrives(n, p, target, cs)
  {
    EvalInside(n, p, cs);
  }

  lemma EvalStep(n: Node, t: seq<byte>, p: seq<byte>, m: Node, cs: bool)
    requires Rest(t + p) == p && Child(n, t + p, cs) == Some(m)
    ensures Eval(Some(n), [SLASH] + t + p, cs) == Eval(Some(m), p, cs)
  {
    var q := t + p;
    assert [SLASH] + t + p == [SLASH] + q;
    assert ([SLASH] + q)[1..] == q;
  }

  /** An index past the end of an array leads nowhere. */
  lemma PastTheEnd(n: Node, i: nat, rest: seq<byte>, cs: bool)
    requires n.kind.ArrayNode? && |n.children| <= i < SIZE_MODULUS && Follows(rest)
    ensures Eval(Some(n), [SLASH] + Decimal(i) + rest, cs) == None
  {
    var q := Decimal(i) + rest;
    TokenOf(Decimal(i), rest);
    IndexExactly(Decimal(i), i);
    assert [SLASH] + Decimal(i) + rest == [SLASH] + q && ([SLASH] + q)[1..] == q;
    assert Child(n, q, cs) == None;
  }

  /** A pointer is found exactly for the nodes in the tree, and it evaluates to the node it was made for exactly when
      the way there is clear. */
  lemma {:induction false} FindThenGet(n: Node, target: nat, cs: bool)
    requires WellFormed(n)
    ensures FindPointer(n, target).Some? <==> Has(n, target)
    ensures FindPointer(n, target).Some? ==>
              (Arrives(n, FindPointer(n, target).value, target, cs) <==> Clear(n, target, cs))
    decreases n, |n.children| + 1
  {
    if n.id != target {
      FindBelowThenGet(n, 0, target, cs);
    }
  }

  lemma {:induction false} FindBelowThenGet(n: Node, i: nat, target: nat, cs: bool)
    requires WellFormed(n) && i <= |n.children| && forall j :: 0 <= j < i ==> !Has(n.children[j], target)
    ensures FindBelow(n, i, target).Some? <==> exists j :: i <= j < |n.children| && Has(n.children[j], target)
    ensures FindBelow(n, i, target).Some? ==>
              (Arrives(n, FindBelow(n, i, target).value, target, cs) <==> ClearBelow(n, i, target, cs))
    decreases n, |n.children| - i
  {
    if i < |n.children| {
      FindThenGet(n.children[i], target, cs);
      var p := FindPointer(n.children[i], target);
      if p.Some? {
        FindFollows(n.children[i], target);
        StepLeads(n, i, p.value, cs);
        var t := Step(n, i).value;
        if n.kind.ObjectNode? && !Foremost(n.children, i, cs) {
          var l :| 0 <= l < i && Child(n, t + p.value, cs) == Some(n.children[l]);
          EvalStep(n, t, p.value, n.children[l], cs);
          NowhereElse(n.children[l], p.value, target, cs);
        } else {
          EvalStep(n, t, p.value, n.children[i], cs);
        }
      } else {
        FindBelowThenGet(n, i + 1, target, cs);
      }
    }
  }

  /** Keys are unique among siblings, up to case when case is ignored. */
  ghost predicate UniqueKeys(n: Node, cs: bool)
    requires WellFormed(n)
  {
    && (n.kind.ObjectNode? ==> forall j :: 0 <= j < |n.children| ==> Foremost(n.children, j, cs))
    && forall i :: 0 <= i < |n.children| ==> UniqueKeys(n.children[i], cs)
  }

  /** With unique keys every way is clear. */
  lemma {:induction false} UniqueClear(n: Node, target: nat, cs: bool)
    requires WellFormed(n) && UniqueKeys(n, cs)
    ensures Clear(n, target, cs)
    decreases n, |n.children| + 1
  {
    UniqueClearBelow(n, 0, target, cs);
  }

  lemma {:induction false} UniqueClearBelow(n: Node, i: nat, target: nat, cs: bool)
    requires WellFormed(n) && UniqueKeys(n, cs) && i <= |n.children|
    ensures ClearBelow(n, i, target, cs)
    decreases n, |n.children| - i
  {
    if i < |n.children| {
      UniqueClear(n.children[i], target, cs);
      UniqueClearBelow(n, i + 1, target, cs);
    }
  }

  /** On {"a": 1, "A": 2} the pointer to the second member is "/A", which leads to the first when case is ignored. */
  lemma TwinMissed(a: seq<byte>, A: seq<byte>)
    requires a == ['a' as byte] && A == ['A' as byte]
    ensures var n := Node(0, None, ObjectNode, [Node(1, Some(a), Leaf, []), Node(2, Some(A), Leaf, [])]);
            && FindPointer(n, 2) == Some([SLASH] + A)
            && Eval(Some(n), [SLASH] + A, false) == Some(n.children[0])
            && Eval(Some(n), [SLASH] + A, true) == Some(n.children[1])
  {
    var n := Node(0, None, ObjectNode, [Node(1, Some(a), Leaf, []), Node(2, Some(A), Leaf, [])]);
    assert A[1..] == [] && Encode(A) == A;
    assert Folded(a, false) == Folded(A, false) == a && Folded(a, true) == a && Folded(A, true) == A;
    assert FindPointer(n.children[1], 2) == Some([]) && FindPointer(n.children[0], 2).None?;
    assert FindPointer(n, 2) == FindBelow(n, 0, 2) == FindBelow(n, 1, 2) == Some([SLASH] + A + []);
    assert [SLASH] + A + [] == [SLASH] + A;
    NamesEncoded(A, a, [], false);
    NamesEncoded(A, a, [], true);
    NamesEncoded(A, A, [], true);
    EncodeSlashless(A);
    TokenOf(A, []);
    assert A + [] == A && ([SLASH] + A)[1..] == A;
    assert FirstNamed(n.children, 0, A, true) == FirstNamed(n.children, 1, A, true);
  }
}
