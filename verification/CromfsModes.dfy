/** What the mode words of an image say, bit by bit. */
module CromfsModes {
  import opened CromfsFormat

  /** A mode word says: one type bit, the read and execute permissions of the host mode, and nothing else. */
  ghost predicate ModeShows(word: nat, kind: nat, host: nat) {
    forall k: nat :: HasBit(word, k) <==> k == kind || (k in {0, 2, 3, 5, 6, 8} && HasBit(host, k))
  }

  /** The number with the given bits, the lowest first. */
  function FromBits(bits: seq<bool>): nat {
    if bits == [] then 0 else (if bits[0] then 1 else 0) + 2 * FromBits(bits[1..])
  }

  lemma {:induction false} BitsOf(bits: seq<bool>, k: nat)
    ensures HasBit(FromBits(bits), k) <==> k < |bits| && bits[k]
    decreases k, |bits|
  {
    if bits == [] {
      NoBits(k);
    } else if k > 0 {
      assert FromBits(bits) / 2 == FromBits(bits[1..]);
      BitsOf(bits[1..], k - 1);
    }
  }

  lemma {:induction false} NoBits(k: nat)
    ensures !HasBit(0, k)
    decreases k
  {
    if k > 0 {
      NoBits(k - 1);
    }
  }

  function Quad(a: bool, b: bool, c: bool, d: bool): (r: seq<bool>)
    ensures |r| == 4
  {
    [a, b, c, d]
  }

  lemma FourBits(a: bool, b: bool, c: bool, d: bool, rest: seq<bool>)
    ensures FromBits(Quad(a, b, c, d) + rest) == (if a then 1 else 0) + (if b then 2 else 0) + (if c then 4 else 0)
                                             + (if d then 8 else 0) + 16 * FromBits(rest)
  {
    assert Quad(a, b, c, d) + rest == [a] + ([b] + ([c] + ([d] + rest)));
    NextBit(a, [b] + ([c] + ([d] + rest)));
    NextBit(b, [c] + ([d] + rest));
    NextBit(c, [d] + rest);
    NextBit(d, rest);
  }

  lemma NextBit(a: bool, rest: seq<bool>)
    ensures FromBits([a] + rest) == (if a then 1 else 0) + 2 * FromBits(rest)
  {
    assert ([a] + rest)[1..] == rest;
  }

  function ModeBits(file: bool, host: nat): seq<bool> {
    Quad(HasBit(host, 0), false, HasBit(host, 2), HasBit(host, 3))
      + (Quad(false, HasBit(host, 5), HasBit(host, 6), false)
         + (Quad(HasBit(host, 8), false, false, false) + (Quad(false, false, !file, file) + [])))
  }

  lemma LowByte(host: nat, c: seq<bool>)
    ensures FromBits(Quad(HasBit(host, 0), false, HasBit(host, 2), HasBit(host, 3))
                     + (Quad(false, HasBit(host, 5), HasBit(host, 6), false) + c)) ==
            (if HasBit(host, 0) then 1 else 0) + (if HasBit(host, 2) then 4 else 0)
            + (if HasBit(host, 3) then 8 else 0) + (if HasBit(host, 5) then 32 else 0)
            + (if HasBit(host, 6) then 64 else 0) + 256 * FromBits(c)
  {
    FourBits(HasBit(host, 0), false, HasBit(host, 2), HasBit(host, 3),
             Quad(false, HasBit(host, 5), HasBit(host, 6), false) + c);
    FourBits(false, HasBit(host, 5), HasBit(host, 6), false, c);
  }

  lemma HighByte(file: bool, bit: bool)
    ensures FromBits(Quad(bit, false, false, false) + (Quad(false, false, !file, file) + [])) ==
            (if bit then 1 else 0) + (if file then 128 else 64)
  {
    FourBits(bit, false, false, false, Quad(false, false, !file, file) + []);
    FourBits(false, false, !file, file, []);
  }

  lemma ModeValue(file: bool, host: nat)
    ensures FromBits(ModeBits(file, host)) == (if file then IFREG else IFDIR) + Permissions(host)
  {
    LowByte(host, Quad(HasBit(host, 8), false, false, false) + (Quad(false, false, !file, file) + []));
    HighByte(file, HasBit(host, 8));
  }

  lemma ModeBit(file: bool, host: nat, k: nat)
    ensures |ModeBits(file, host)| == 16
    ensures k < 16 ==> (ModeBits(file, host)[k] <==>
              k == (if file then 15 else 14) || (k in {0, 2, 3, 5, 6, 8} && HasBit(host, k)))
  {
  }

  /** The mode words that are written. */
  lemma ModeStored(file: bool, host: nat)
    ensures ModeShows((if file then IFREG else IFDIR) + Permissions(host), if file then 15 else 14, host)
  {
    ModeValue(file, host);
    forall k: nat ensures HasBit(FromBits(ModeBits(file, host)), k) <==>
                          k == (if file then 15 else 14) || (k in {0, 2, 3, 5, 6, 8} && HasBit(host, k)) {
      BitsOf(ModeBits(file, host), k);
      ModeBit(file, host, k);
    }
  }

  lemma {:induction false} SameBits(x: nat, y: nat)
    requires forall k: nat :: HasBit(x, k) <==> HasBit(y, k)
    ensures x == y
    decreases x + y
  {
    assert HasBit(x, 0) <==> HasBit(y, 0);
    if x > 0 || y > 0 {
      forall k: nat ensures HasBit(x / 2, k) <==> HasBit(y / 2, k) {
        assert HasBit(x, k + 1) <==> HasBit(y, k + 1);
      }
      SameBits(x / 2, y / 2);
    }
  }

  /** What is shown fixes the word. */
  lemma OneMode(x: nat, y: nat, kind: nat, host: nat)
    requires ModeShows(x, kind, host) && ModeShows(y, kind, host)
    ensures x == y
  {
    SameBits(x, y);
  }

  /** The mode word of "." and "..": a link that everyone may read and execute. */
  lemma LinkMode(k: nat)
    ensures HasBit(DIRLINK, k) <==> k in {15, 13, 0, 2, 3, 5, 6, 8}
  {
    var d, t, f := Quad(false, true, false, true) + [], true, false;
    var c := Quad(t, f, f, f) + d;
    var b := Quad(f, t, t, f) + c;
    FourBits(t, f, t, t, b);
    FourBits(f, t, t, f, c);
    FourBits(t, f, f, f, d);
    FourBits(f, t, f, t, []);
    BitsOf(Quad(t, f, t, t) + b, k);
  }
}
