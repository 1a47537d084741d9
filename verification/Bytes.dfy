/** Bytes, little-endian fields, strings in images, and the option type. */
module Bytes {

  newtype byte = x: int | 0 <= x < 0x100

  datatype Option<+T> = None | Some(value: T)

  const U16: nat := 0x1_0000
  const U32: nat := 0x1_0000_0000

  function Min(a: nat, b: nat): nat { if a < b then a else b }

  /** img holds s from index off on. */
  ghost predicate Holds(img: seq<byte>, off: nat, s: seq<byte>) {
    off + |s| <= |img| && img[off..off + |s|] == s
  }

  /** The NUL-terminated string at off. */
  function ReadName(img: seq<byte>, off: nat): Option<seq<byte>>
    decreases |img| - off
  {
    if off >= |img| then None
    else if img[off] == 0 then Some([])
    else
      var rest := ReadName(img, off + 1);
      if rest.None? then None else Some([img[off]] + rest.value)
  }

  /** The n low-order bytes of x, least significant first; a wider x is truncated as by a C conversion. */
  function LeBytes(x: nat, n: nat): (r: seq<byte>)
    ensures |r| == n
    decreases n, x
  {
    if n == 0 then [] else [(x % 256) as byte] + LeBytes(x / 256, n - 1)
  }

  function LeValue(s: seq<byte>): nat
  {
    if s == [] then 0 else s[0] as nat + 256 * LeValue(s[1..])
  }

  function Pow256(n: nat): (r: nat)
    ensures r > 0
  {
    if n == 0 then 1 else 256 * Pow256(n - 1)
  }

  lemma {:induction false} LeRoundTrip(x: nat, n: nat)
    ensures LeValue(LeBytes(x, n)) == x % Pow256(n)
    decreases n
  {
    if n > 0 {
      LeRoundTrip(x / 256, n - 1);
      assert LeBytes(x, n)[1..] == LeBytes(x / 256, n - 1);
      ModStep(x, Pow256(n - 1));
    }
  }

  lemma ModStep(x: nat, m: nat)
    requires m > 0
    ensures x % (256 * m) == x % 256 + 256 * (x / 256 % m)
  {
    var q, a := x / 256, x / 256 % m;
    assert q == m * (q / m) + a;
    assert x == 256 * m * (q / m) + (x % 256 + 256 * a);
    assert 256 * a <= 256 * (m - 1);
    DivUnique(x, 256 * m, q / m, x % 256 + 256 * a);
  }

  lemma DivUnique(x: nat, m: nat, q: nat, r: nat)
    requires m > 0 && x == m * q + r && r < m
    ensures x % m == r
  {
    var d := x / m - q;
    assert m * d == r - x % m;
    Multiple(m, d);
  }

  lemma Multiple(m: nat, d: int)
    requires m > 0 && 0 - m < m * d < m
    ensures d == 0
  {
  }

  function Le32(x: nat): (r: seq<byte>)
    ensures |r| == 4
  {
    LeBytes(x, 4)
  }

  function Le16(x: nat): (r: seq<byte>)
    ensures |r| == 2
  {
    LeBytes(x, 2)
  }

  lemma Le32Value(x: nat)
    ensures LeValue(Le32(x)) == x % U32
  {
    LeRoundTrip(x, 4);
    assert Pow256(4) == U32;
  }

  lemma Le16Value(x: nat)
    ensures LeValue(Le16(x)) == x % U16
  {
    LeRoundTrip(x, 2);
    assert Pow256(2) == U16;
  }

  /** The bytes of a 32-bit field, the lowest first. */
  lemma Le32Bytes(x: nat)
    ensures Le32(x) == [(x % 256) as byte, (x / 0x100 % 256) as byte, (x / 0x1_0000 % 256) as byte,
                        (x / 0x100_0000 % 256) as byte]
  {
    var y, z := x / 256, x / 256 / 256;
    assert z == x / 0x1_0000 && z / 256 == x / 0x100_0000;
    assert LeBytes(z / 256, 1) == [(z / 256 % 256) as byte];
    assert LeBytes(z, 2) == [(z % 256) as byte] + LeBytes(z / 256, 1);
    assert LeBytes(y, 3) == [(y % 256) as byte] + LeBytes(z, 2);
  }

  /** The bytes of a 16-bit field, the lowest first. */
  lemma Le16Bytes(x: nat)
    ensures Le16(x) == [(x % 256) as byte, (x / 0x100 % 256) as byte]
  {
    assert LeBytes(x / 256, 1) == [(x / 256 % 256) as byte];
  }

  /** Dictionary order: a is the beginning of b, or has the smaller character where they first differ. */
  ghost predicate Precedes(a: seq<byte>, b: seq<byte>) {
    a < b || exists i :: 0 <= i < |a| && i < |b| && a[..i] == b[..i] && a[i] < b[i]
  }

  lemma FirstDifference(a: seq<byte>, b: seq<byte>, i: nat)
    requires i < |a| && i < |b| && a[..i] == b[..i] && a[i] != b[i]
    ensures Precedes(a, b) <==> a[i] < b[i]
  {
    forall j | 0 <= j < i ensures a[j] == b[j] {
      assert a[j] == a[..i][j] == b[..i][j] == b[j];
    }
    forall j | i < j <= |a| && j <= |b| ensures a[..j] != b[..j] {
      assert a[..j][i] == a[i] && b[..j][i] == b[i];
    }
  }

  lemma NotAfter(a: seq<byte>, b: seq<byte>)
    requires b <= a
    ensures !Precedes(a, b)
  {
    assert forall i :: 0 <= i < |b| ==> a[i] == b[i];
  }
}
