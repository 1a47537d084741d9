/** The firmware upload run of tools/px_uploader.py against a bootloader whose replies and failures are arbitrary. */
module Uploader {
  import opened Bytes
  import opened Crc32
  import opened Chunks

  // ---------------------------------------------------------------- the padded image

  /** n bytes of erased flash. */
  function Filler(n: nat): (r: seq<bv8>)
    ensures |r| == n && forall i :: 0 <= i < n ==> r[i] == 0xff
  {
    seq(n, _ => 0xff)
  }

  lemma FillerAdd(a: nat, b: nat)
    ensures Filler(a) + Filler(b) == Filler(a + b)
  {
  }

  /** The image padding of firmware.__init__. */
  method PadImage(data: seq<bv8>) returns (image: seq<bv8>)
    ensures |image| % 4 == 0 && |data| <= |image| < |data| + 4
    ensures image == data + Filler(|image| - |data|)
  {
    image := data;
    ghost var n := 0;
    while |image| % 4 != 0
      invariant n < 4 && image == data + Filler(n)
      invariant n > 0 ==> (|data| + n - 1) % 4 != 0
      invariant n > 1 ==> (|data| + n - 2) % 4 != 0
      invariant n > 2 ==> (|data| + n - 3) % 4 != 0
      decreases 4 - n
    {
      FillerAdd(n, 1);
      image := image + [0xff];
      n := n + 1;
    }
  }

  /** How many four-byte pads firmware.crc feeds: the length of range(len, padlen - 1, 4). */
  function Pads(len: nat, padlen: nat): nat
    decreases padlen - len
  {
    if len < padlen - 1 then 1 + Pads(len + 4, padlen) else 0
  }

  /** What firmware.crc(padlen) covers. */
  function Covered(image: seq<bv8>, padlen: nat): seq<bv8> {
    image + Filler(4 * Pads(|image|, padlen))
  }

  lemma {:induction false} PadsReach(len: nat, padlen: nat)
    requires len % 4 == 0
    ensures len + 4 * Pads(len, padlen) == padlen <==> padlen % 4 == 0 && len <= padlen
    decreases padlen - len
  {
    if len < padlen - 1 {
      FourMore(len);
      PadsReach(len + 4, padlen);
      if padlen % 4 == 0 {
        FourApart(len, padlen);
      }
    }
  }

  lemma FourMore(a: nat)
    requires a % 4 == 0
    ensures (a + 4) % 4 == 0
  {
  }

  lemma FourApart(a: nat, b: nat)
    requires a % 4 == 0 && b % 4 == 0 && a < b
    ensures a + 4 <= b
  {
  }

  /** The checksum covers exactly padlen bytes just when padlen is a multiple of four that holds the image. */
  lemma CoveredExactly(image: seq<bv8>, padlen: nat)
    requires |image| % 4 == 0
    ensures |Covered(image, padlen)| == padlen <==> padlen % 4 == 0 && |image| <= padlen
  {
    PadsReach(|image|, padlen);
  }

  ghost function FilledCrc(image: seq<bv8>, n: nat): bv32 {
    Crc(CrcTab, 0, image + Filler(n))
  }

  lemma CrcFiller(image: seq<bv8>, n: nat)
    ensures Crc(CrcTab, FilledCrc(image, n), Filler(4)) == FilledCrc(image, n + 4)
  {
    CrcAppend(CrcTab, 0, image + Filler(n), Filler(4));
    FillerAdd(n, 4);
    assert image + Filler(n) + Filler(4) == image + Filler(n + 4);
  }

  /** One firmware.crcpad. */
  method FeedPad(image: seq<bv8>, ghost n: nat, state: bv32) returns (s: bv32)
    requires state == FilledCrc(image, n)
    ensures s == FilledCrc(image, n + 4)
  {
    CrcFiller(image, n);
    s := ComputeCrc(CrcTab, Filler(4), state);
  }

  method FeedImage(image: seq<bv8>) returns (s: bv32)
    ensures s == FilledCrc(image, 0)
  {
    s := ComputeCrc(CrcTab, image, 0);
    assert image + Filler(0) == image;
  }

  lemma FirmwareCrcSerial(image: seq<bv8>, padlen: nat)
    ensures FilledCrc(image, 4 * Pads(|image|, padlen)) == SerialCrc(0, Covered(image, padlen))
  {
    CrcTabIsGood();
    CrcIsSerial(CrcTab, 0, Covered(image, padlen));
  }

  /** firmware.crc */
  method FirmwareCrc(image: seq<bv8>, padlen: nat) returns (state: bv32)
    ensures state == SerialCrc(0, Covered(image, padlen))
  {
    state := FeedImage(image);
    var i := |image|;
    ghost var n := 0;
    while i < padlen - 1
      invariant i == |image| + 4 * n && n + Pads(i, padlen) == Pads(|image|, padlen)
      invariant state == FilledCrc(image, 4 * n)
    {
      state := FeedPad(image, 4 * n, state);
      i, n := i + 4, n + 1;
    }
    FirmwareCrcSerial(image, padlen);
  }

  // ---------------------------------------------------------------- blocks

  const PROG_MULTI_MAX: nat := 252
  const READ_MULTI_MAX: nat := 252

  /** Splitting loses nothing, and every block of a padded image is a whole number of words that fits one command. */
  lemma Blocks(image: seq<bv8>)
    requires |image| % 4 == 0
    ensures Flatten(SplitLen(image, PROG_MULTI_MAX)) == image
    ensures var p := SplitLen(image, PROG_MULTI_MAX);
            forall k :: 0 <= k < |p| ==>
              0 < |p[k]| <= 252 && |p[k]| % 4 == 0 && (k + 1 < |p| ==> |p[k]| == 252)
  {
    PiecesJoin(image, 0, PROG_MULTI_MAX);
    var p := SplitLen(image, PROG_MULTI_MAX);
    forall k | 0 <= k < |p|
      ensures 0 < |p[k]| <= 252 && |p[k]| % 4 == 0 && (k + 1 < |p| ==> |p[k]| == 252)
    {
      PieceSizes(image, 0, PROG_MULTI_MAX, k);
    }
  }

  // ---------------------------------------------------------------- the bootloader

  datatype Command = ChipErase | ProgMulti(data: seq<bv8>) | ChipVerify | ReadMulti(count: nat) | GetCrc
                   | SetBootDelay(delay: int) | Reboot
                   | GetOtp(at: nat) | GetSn(at: nat) | GetChip | GetChipDes

  /** The byte after INSYNC, or the ways in which there is none. */
  datatype Reply = Okay | Failed | Invalid | BadSilicon | Garbage | Silence

  /** What the bootloader really did: the command, nothing, or a write of other bytes. */
  datatype Effect = Done | Skipped | Corrupted(stored: seq<bv8>)

  /** One command with what became of it: the effect, and the reply found by each successive wait. */
  datatype Exchange = Exchange(command: Command, effect: Effect, replies: seq<Reply>)

  type Run = seq<Exchange>

  /** Flash, where the next block goes, and where the next read starts. */
  datatype Device = Device(flash: seq<bv8>, at: nat, readAt: nat)

  /** data written over flash from index at on; what would pass the end is dropped. */
  function Write(flash: seq<bv8>, at: nat, data: seq<bv8>): (r: seq<bv8>)
    ensures |r| == |flash|
  {
    seq(|flash|, i requires 0 <= i < |flash| => if at <= i < at + |data| then data[i - at] else flash[i])
  }

  function Apply(d: Device, x: Exchange): Device {
    match x.effect
    case Skipped => d
    case Corrupted(stored) =>
      if x.command.ProgMulti? then d.(flash := Write(d.flash, d.at, stored), at := d.at + |x.command.data|) else d
    case Done =>
      match x.command
      case ChipErase => Device(Filler(|d.flash|), 0, 0)
      case ProgMulti(data) => d.(flash := Write(d.flash, d.at, data), at := d.at + |data|)
      case ChipVerify => d.(readAt := 0)
      case ReadMulti(count) => d.(readAt := d.readAt + count)
      case _ => d
  }

  function Replay(d: Device, run: Run): (r: Device)
    ensures |r.flash| == |d.flash|
    decreases |run|
  {
    if run == [] then d else Apply(Replay(d, run[..|run| - 1]), run[|run| - 1])
  }

  function FirstReply(x: Exchange): Reply {
    if x.replies == [] then Silence else x.replies[0]
  }

  /** uploader.__erase: polls until OK, at most patience times, unless the silicon is refused. */
  function EraseAccepted(replies: seq<Reply>, patience: nat): bool
    decreases patience
  {
    patience > 0 && replies != [] && replies[0] != BadSilicon
      && (replies[0] == Okay || EraseAccepted(replies[1..], patience - 1))
  }

  /** The erase is accepted at the first OK, if it comes in time and no refusal of the silicon before it. */
  lemma {:induction false} EraseExactly(replies: seq<Reply>, patience: nat)
    ensures EraseAccepted(replies, patience) <==>
            exists k :: 0 <= k < |replies| && k < patience && replies[k] == Okay && NoRefusal(replies[..k])
    decreases patience
  {
    if patience > 0 && replies != [] {
      var rest := replies[1..];
      EraseExactly(rest, patience - 1);
      if replies[0] == Okay {
        assert replies[0] == Okay && NoRefusal(replies[..0]);
      } else {
        forall k | 0 < k < |replies|
          ensures NoRefusal(replies[..k]) <==> replies[0] != BadSilicon && NoRefusal(rest[..k - 1])
        {
          assert replies[..k] == [replies[0]] + rest[..k - 1];
        }
        if k :| 0 <= k < |rest| && k < patience - 1 && rest[k] == Okay && NoRefusal(rest[..k]) {
          assert replies[k + 1] == Okay;
        }
        if k :| 0 <= k < |replies| && k < patience && replies[k] == Okay && NoRefusal(replies[..k]) {
          assert rest[k - 1] == Okay;
        }
      }
    }
  }

  ghost predicate NoRefusal(replies: seq<Reply>) { BadSilicon !in replies }

  /** The command's wait ended in INSYNC, OK. */
  predicate Acked(x: Exchange, patience: nat) {
    if x.command.ChipErase? then EraseAccepted(x.replies, patience) else FirstReply(x) == Okay
  }

  /** An acknowledged command was carried out. */
  ghost predicate Honest(run: Run, patience: nat) {
    forall x <- run :: Acked(x, patience) ==> x.effect.Done?
  }

  // ---------------------------------------------------------------- runs

  function Commands(run: Run): (r: seq<Command>)
    ensures |r| == |run|
  {
    seq(|run|, i requires 0 <= i < |run| => run[i].command)
  }

  /** The run issued the commands of the script in order, each only once the one before it was acknowledged; when it
      went through, it issued them all, and all were acknowledged. */
  ghost predicate Ran(run: Run, script: seq<Command>, patience: nat, through: bool) {
    && Commands(run) <= script
    && (forall i :: 0 <= i < |run| - 1 ==> Acked(run[i], patience))
    && (through ==> Commands(run) == script && forall i :: 0 <= i < |run| ==> Acked(run[i], patience))
  }

  lemma RanThen(a: Run, s: seq<Command>, b: Run, t: seq<Command>, patience: nat, through: bool)
    requires Ran(a, s, patience, true) && Ran(b, t, patience, through)
    ensures Ran(a + b, s + t, patience, through)
  {
    assert Commands(a + b) == s + Commands(b);
  }

  lemma RanShort(a: Run, s: seq<Command>, t: seq<Command>, patience: nat)
    requires Ran(a, s, patience, false)
    ensures Ran(a, s + t, patience, false)
  {
  }

  function Programs(p: seq<seq<bv8>>): (r: seq<Command>)
    ensures |r| == |p|
  {
    seq(|p|, i requires 0 <= i < |p| => ProgMulti(p[i]))
  }

  function Reads(p: seq<seq<bv8>>): (r: seq<Command>)
    ensures |r| == |p|
  {
    seq(|p|, i requires 0 <= i < |p| => ReadMulti(|p[i]|))
  }

  // ---------------------------------------------------------------- what a run leaves in flash

  lemma {:induction false} ReplayAppend(d: Device, a: Run, b: Run)
    ensures Replay(d, a + b) == Replay(Replay(d, a), b)
    decreases |b|
  {
    if b == [] {
      assert a + b == a;
    } else {
      assert (a + b)[..|a + b| - 1] == a + b[..|b| - 1];
      ReplayAppend(d, a, b[..|b| - 1]);
    }
  }

  ghost predicate AllDone(run: Run) {
    forall i :: 0 <= i < |run| ==> run[i].effect.Done?
  }

  lemma WriteNext(done: seq<bv8>, data: seq<bv8>, size: nat)
    requires |done| + |data| <= size
    ensures Write(done + Filler(size - |done|), |done|, data) == done + data + Filler(size - |done| - |data|)
  {
  }

  /** Blocks carried out on erased flash land one after the other. */
  lemma {:induction false} ProgramsAppend(d: Device, run: Run, p: seq<seq<bv8>>)
    requires Commands(run) == Programs(p) && AllDone(run) && |Flatten(p)| <= |d.flash|
    requires d.flash == Filler(|d.flash|) && d.at == 0
    ensures Replay(d, run).at == |Flatten(p)|
    ensures Replay(d, run).flash == Flatten(p) + Filler(|d.flash| - |Flatten(p)|)
    decreases |p|
  {
    if p != [] {
      var n := |p| - 1;
      FlattenNext(p, n);
      assert Commands(run)[n] == Programs(p)[n];
      assert p[..n + 1] == p;
      assert Commands(run[..n]) == Programs(p[..n]) by {
        assert Commands(run[..n]) == Commands(run)[..n];
      }
      ProgramsAppend(d, run[..n], p[..n]);
      WriteNext(Flatten(p[..n]), p[n], |d.flash|);
    }
  }

  /** Commands that leave flash alone. */
  predicate Harmless(c: Command) { !c.ChipErase? && !c.ProgMulti? }

  lemma {:induction false} HarmlessKeeps(d: Device, run: Run)
    requires forall i :: 0 <= i < |run| ==> Harmless(run[i].command)
    ensures Replay(d, run).flash == d.flash
    decreases |run|
  {
    if run != [] {
      HarmlessKeeps(d, run[..|run| - 1]);
    }
  }

  // ---------------------------------------------------------------- the script of an upload

  datatype Firmware = Firmware(image: seq<bv8>, boardId: int, imageSize: int, imageMaxsize: int)

  /** The commands up to and including the last block. */
  function Flashing(image: seq<bv8>): seq<Command> {
    [ChipErase] + Programs(SplitLen(image, PROG_MULTI_MAX))
  }

  function Verifying(image: seq<bv8>, rev: int): seq<Command> {
    if rev == 2 then [ChipVerify] + Reads(SplitLen(image, READ_MULTI_MAX)) else [GetCrc]
  }

  function Delaying(delay: Option<int>): seq<Command> {
    if delay.Some? then [SetBootDelay(delay.value)] else []
  }

  /** Everything an upload that goes well sends. */
  function Script(image: seq<bv8>, rev: int, delay: Option<int>): seq<Command> {
    Flashing(image) + (Verifying(image, rev) + Delaying(delay)) + [Reboot]
  }

  /** The bytes that commands program, in order. */
  function Programmed(s: seq<Command>): seq<bv8>
    decreases |s|
  {
    if s == [] then [] else (if s[0].ProgMulti? then s[0].data else []) + Programmed(s[1..])
  }

  /** How many bytes commands read back. */
  function ReadBytes(s: seq<Command>): nat
    decreases |s|
  {
    if s == [] then 0 else (if s[0].ReadMulti? then s[0].count else 0) + ReadBytes(s[1..])
  }

  lemma {:induction false} Totals(a: seq<Command>, b: seq<Command>)
    ensures Programmed(a + b) == Programmed(a) + Programmed(b) && ReadBytes(a + b) == ReadBytes(a) + ReadBytes(b)
    decreases |a|
  {
    if a == [] {
      assert a + b == b;
    } else {
      assert (a + b)[1..] == a[1..] + b;
      Totals(a[1..], b);
    }
  }

  lemma {:induction false} TotalsOf(p: seq<seq<bv8>>)
    ensures Programmed(Programs(p)) == Flatten(p) && ReadBytes(Programs(p)) == 0
    ensures Programmed(Reads(p)) == [] && ReadBytes(Reads(p)) == |Flatten(p)|
    decreases |p|
  {
    if p != [] {
      TotalsOf(p[1..]);
      assert Programs(p)[1..] == Programs(p[1..]) && Reads(p)[1..] == Reads(p[1..]);
    }
  }

  lemma TotalsOne(c: Command)
    ensures Programmed([c]) == (if c.ProgMulti? then c.data else [])
    ensures ReadBytes([c]) == if c.ReadMulti? then c.count else 0
  {
  }

  lemma FlashingSays(image: seq<bv8>)
    ensures Programmed(Flashing(image)) == image && ReadBytes(Flashing(image)) == 0
    ensures Flashing(image)[0] == ChipErase && forall i :: 0 < i < |Flashing(image)| ==> Flashing(image)[i].ProgMulti?
  {
    var p := SplitLen(image, PROG_MULTI_MAX);
    PiecesJoin(image, 0, PROG_MULTI_MAX);
    TotalsOf(p);
    TotalsOne(ChipErase);
    Totals([ChipErase], Programs(p));
    assert image[0..] == image;
  }

  lemma VerifyingSays(image: seq<bv8>, rev: int)
    ensures Programmed(Verifying(image, rev)) == []
    ensures Verifying(image, rev)[0] == if rev == 2 then ChipVerify else GetCrc
    ensures ReadBytes(Verifying(image, rev)) == if rev == 2 then |image| else 0
  {
    var p := SplitLen(image, READ_MULTI_MAX);
    PiecesJoin(image, 0, READ_MULTI_MAX);
    TotalsOf(p);
    TotalsOne(ChipVerify);
    TotalsOne(GetCrc);
    Totals([ChipVerify], Reads(p));
    assert image[0..] == image;
  }

  lemma EndingSays(delay: Option<int>)
    ensures var t := Delaying(delay) + [Reboot];
            && Programmed(t) == [] && ReadBytes(t) == 0 && t[|t| - 1] == Reboot
            && (if delay.Some? then |t| == 2 && t[0] == SetBootDelay(delay.value) else |t| == 1)
  {
    TotalsOne(Reboot);
    if delay.Some? {
      TotalsOne(SetBootDelay(delay.value));
      Totals([SetBootDelay(delay.value)], [Reboot]);
    } else {
      assert [] + [Reboot] == [Reboot];
    }
  }

  /** An upload erases first, then programs exactly the image, then verifies, by reading all of it back in revision 2
      and by the CRC in others, then sets the boot delay if there is one, and reboots last. */
  lemma ScriptSays(image: seq<bv8>, rev: int, delay: Option<int>)
    ensures var s, v, e := Script(image, rev, delay), |Flashing(image)|, if delay.Some? then 2 else 1;
            && Programmed(s) == image && ReadBytes(s) == (if rev == 2 then |image| else 0)
            && 0 < v < |s| - e && s[0] == ChipErase && (forall i :: 0 < i < v ==> s[i].ProgMulti?)
            && s[v] == (if rev == 2 then ChipVerify else GetCrc)
            && (delay.Some? ==> s[|s| - 2] == SetBootDelay(delay.value)) && s[|s| - 1] == Reboot
  {
    var f, w, t := Flashing(image), Verifying(image, rev), Delaying(delay) + [Reboot];
    assert Script(image, rev, delay) == f + (w + t);
    FlashingSays(image);
    VerifyingSays(image, rev);
    EndingSays(delay);
    Totals(f, w + t);
    Totals(w, t);
  }

  /** An image flashed by acknowledged commands, each carried out, is followed by erased flash only. */
  lemma FlashedExactly(d: Device, run: Run, image: seq<bv8>, patience: nat)
    requires Ran(run, Flashing(image), patience, true) && Honest(run, patience) && |image| <= |d.flash|
    ensures Replay(d, run).flash == image + Filler(|d.flash| - |image|)
  {
    var p := SplitLen(image, PROG_MULTI_MAX);
    PiecesJoin(image, 0, PROG_MULTI_MAX);
    assert run[0].command == Commands(run)[0] == ChipErase;
    assert run == [run[0]] + run[1..];
    ReplayAppend(d, [run[0]], run[1..]);
    assert Commands(run[1..]) == Commands(run)[1..] == Programs(p);
    assert AllDone(run[1..]);
    ProgramsAppend(Replay(d, [run[0]]), run[1..], p);
  }
}
