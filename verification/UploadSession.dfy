/** The upload itself: the uploader object driving its port. */
module UploadSession {
  import opened Bytes
  import opened Crc32
  import opened Chunks
  import opened Uploader

  /** What the bootloader will do with the next command. */
  datatype Fate = Fate(effect: Effect, replies: seq<Reply>)

  datatype Outcome = Completed | Refused | Aborted

  /** The first guards of uploader.upload. */
  predicate Unsuitable(fw: Firmware, boardType: int, maxsize: nat, force: bool) {
    (boardType != fw.boardId && !force) || maxsize < fw.imageSize
  }

  /** The guards behind the queries. `described` says that a rev 5 chip description had two parts. */
  predicate Unsafe(fw: Firmware, rev: int, maxsize: nat, described: bool, force: bool) {
    if rev >= 5 then described && maxsize > fw.imageMaxsize && !force
    else fw.boardId == 9 && fw.imageSize > 1032192 && !force
  }

  predicate Refuses(fw: Firmware, rev: int, boardType: int, maxsize: nat, described: bool, force: bool) {
    Unsuitable(fw, boardType, maxsize, force) || Unsafe(fw, rev, maxsize, described, force)
  }

  // ---------------------------------------------------------------- queries

  predicate Query(c: Command) { c.GetOtp? || c.GetSn? || c.GetChip? || c.GetChipDes? }

  function OtpQueries(rev: int): seq<Command> {
    if rev >= 4 then seq(48, i requires 0 <= i < 48 => GetOtp(4 * i)) else []
  }

  /** From revision 4 on, every one of the 192 bytes of the OTP area is asked for once, four at a time. */
  lemma OtpCovered(rev: int, x: nat)
    ensures rev < 4 ==> OtpQueries(rev) == []
    ensures rev >= 4 ==> |OtpQueries(rev)| == 192 / 4
    ensures rev >= 4 && x < 192 ==> OtpQueries(rev)[x / 4] == GetOtp(x - x % 4)
  {
  }

  /** Failures among these are ignored. */
  function SnQueries(rev: int): seq<Command> { if rev >= 4 then [GetSn(0), GetSn(4), GetSn(8), GetChip] else [] }

  function ChipQueries(rev: int): seq<Command> { if rev >= 5 then [GetChipDes] else [] }

  ghost predicate OnlyQueries(run: Run) { forall i :: 0 <= i < |run| ==> Query(run[i].command) }

  ghost predicate AllQueries(script: seq<Command>) { forall i :: 0 <= i < |script| ==> Query(script[i]) }

  /** One more query: nothing changes on the board. */
  lemma OneQuery(d: Device, before: Run, n: nat, x: Exchange)
    requires Query(x.command) && n <= |before| && OnlyQueries(before[n..])
    ensures Apply(d, x) == d && OnlyQueries((before + [x])[n..])
  {
    assert (before + [x])[n..] == before[n..] + [x];
  }

  /** The queries were made in order, and those that must be answered were. */
  ghost predicate Asked(run: Run, rev: int, patience: nat) {
    exists i, j :: 0 <= i <= j <= |run| && AskedAt(run, i, j, rev, patience)
  }

  ghost predicate AskedAt(run: Run, i: nat, j: nat, rev: int, patience: nat)
    requires i <= j <= |run|
  {
    && Ran(run[..i], OtpQueries(rev), patience, true) && Commands(run[i..j]) <= SnQueries(rev)
    && Ran(run[j..], ChipQueries(rev), patience, true)
  }

  /** The verification of either revision passed on this flash. */
  ghost predicate Verified(flash: seq<bv8>, image: seq<bv8>, rev: int, maxsize: nat) {
    if rev == 2 then image <= flash else SerialCrc(0, flash) == SerialCrc(0, Covered(image, maxsize))
  }

  /** An acknowledged CHIP_VERIFY really started the read-back over. */
  ghost predicate Rewinds(run: Run, patience: nat) {
    forall x <- run :: x.command.ChipVerify? && Acked(x, patience) ==> x.effect.Done?
  }

  predicate Packable(delay: Option<int>) { delay.Some? ==> -128 <= delay.value < 128 }

  /** What flash should hold. */
  function Expected(image: seq<bv8>, size: nat): seq<bv8>
    requires |image| <= size
  {
    image + Filler(size - |image|)
  }

  lemma CoveredIs(image: seq<bv8>, size: nat)
    requires |image| % 4 == 0 && size % 4 == 0 && |image| <= size
    ensures Covered(image, size) == Expected(image, size)
  {
    CoveredExactly(image, size);
  }

  lemma SerialBurst(flash: seq<bv8>, want: seq<bv8>, k: nat, n: nat)
    requires |flash| == |want| && n <= 4 && k + n <= |flash|
    requires flash[..k] == want[..k] && flash[k + n..] == want[k + n..]
    requires SerialCrc(0, flash) == SerialCrc(0, want)
    ensures flash == want
  {
    CrcTabIsGood();
    GoodIsInjective(CrcTab);
    CrcIsSerial(CrcTab, 0, flash);
    CrcIsSerial(CrcTab, 0, want);
    if flash != want {
      BurstDetected(CrcTab, 0, flash, want, k, n);
    }
  }

  lemma CoveredChange(a: seq<bv8>, b: seq<bv8>, padlen: nat, k: nat, n: nat)
    requires |a| == |b| && k + n <= |a| && a[..k] == b[..k] && a[k + n..] == b[k + n..]
    ensures var x, y := Covered(a, padlen), Covered(b, padlen);
            |x| == |y| >= k + n && x[..k] == y[..k] && x[k + n..] == y[k + n..] && (x == y ==> a == b)
  {
    var x, y := Covered(a, padlen), Covered(b, padlen);
    var f := Filler(4 * Pads(|a|, padlen));
    assert x[k + n..] == a[k + n..] + f && y[k + n..] == b[k + n..] + f;
    assert x[..|a|] == a && y[..|a|] == b;
  }

  /** Images that differ only within four consecutive bytes have different checksums, whatever the padding. */
  lemma ImagesTold(a: seq<bv8>, b: seq<bv8>, padlen: nat, k: nat, n: nat)
    requires |a| == |b| && a != b && n <= 4 && k + n <= |a| && a[..k] == b[..k] && a[k + n..] == b[k + n..]
    ensures SerialCrc(0, Covered(a, padlen)) != SerialCrc(0, Covered(b, padlen))
  {
    CoveredChange(a, b, padlen, k, n);
    if SerialCrc(0, Covered(a, padlen)) == SerialCrc(0, Covered(b, padlen)) {
      SerialBurst(Covered(a, padlen), Covered(b, padlen), k, n);
    }
  }

  /** When the revision 3 verification passes, flash that is right but for at most four consecutive bytes is right. */
  lemma CorruptionCaught(flash: seq<bv8>, image: seq<bv8>, rev: int, k: nat, n: nat)
    requires |image| % 4 == 0 && |flash| % 4 == 0 && |image| <= |flash| && n <= 4 && k + n <= |flash|
    requires flash[..k] == Expected(image, |flash|)[..k] && flash[k + n..] == Expected(image, |flash|)[k + n..]
    requires rev != 2 && Verified(flash, image, rev, |flash|)
    ensures flash == Expected(image, |flash|)
  {
    CoveredIs(image, |flash|);
    SerialBurst(flash, Expected(image, |flash|), k, n);
  }

  /** Correct flash passes the verification of every revision. */
  lemma CorrectPasses(flash: seq<bv8>, image: seq<bv8>, rev: int, maxsize: nat)
    requires |image| % 4 == 0 && |image| <= |flash| == maxsize && (rev != 2 ==> maxsize % 4 == 0)
    requires flash == Expected(image, |flash|)
    ensures Verified(flash, image, rev, maxsize)
  {
    if rev != 2 {
      CoveredIs(image, |flash|);
    }
  }

  lemma OneMore(run: Run, n: nat, x: Exchange, script: seq<Command>, k: nat, patience: nat)
    requires n <= |run| && k == |run| - n && k < |script| && x.command == script[k]
    requires Ran(run[n..], script[..k], patience, true)
    ensures Ran((run + [x])[n..], script, patience, false)
    ensures Acked(x, patience) ==> Ran((run + [x])[n..], script[..k + 1], patience, true)
    ensures AllDone(run[n..]) && x.effect.Done? ==> AllDone((run + [x])[n..])
  {
    assert (run + [x])[n..] == run[n..] + [x];
    assert Commands(run[n..] + [x]) == script[..k] + [x.command] == script[..k + 1];
  }

  /** flash holds data from index at on. */
  predicate Window(flash: seq<bv8>, at: nat, data: seq<bv8>) {
    at + |data| <= |flash| && flash[at..at + |data|] == data
  }

  lemma WindowAdd(flash: seq<bv8>, at: nat, a: seq<bv8>, b: seq<bv8>)
    ensures Window(flash, at, a + b) <==> Window(flash, at, a) && Window(flash, at + |a|, b)
  {
    if at + |a| + |b| <= |flash| {
      var w := flash[at..at + |a| + |b|];
      assert w[..|a|] == flash[at..at + |a|] && w[|a|..] == flash[at + |a|..at + |a| + |b|];
      assert w == w[..|a|] + w[|a|..];
      assert (a + b)[..|a|] == a && (a + b)[|a|..] == b;
    }
  }

  /** The first k pieces joined. */
  ghost function Head(p: seq<seq<bv8>>, k: nat): seq<bv8>
    requires k <= |p|
  {
    Flatten(p[..k])
  }

  lemma HeadEnds(p: seq<seq<bv8>>)
    ensures Head(p, 0) == [] && Head(p, |p|) == Flatten(p)
  {
    assert p[..|p|] == p;
  }

  lemma WindowNext(flash: seq<bv8>, p: seq<seq<bv8>>, k: nat)
    requires k < |p|
    ensures |Head(p, k + 1)| == |Head(p, k)| + |p[k]|
    ensures Window(flash, 0, Head(p, k + 1)) <==> Window(flash, 0, Head(p, k)) && Window(flash, |Head(p, k)|, p[k])
    ensures Window(flash, 0, Flatten(p)) ==> Window(flash, 0, Head(p, k + 1))
  {
    FlattenNext(p, k);
    WindowAdd(flash, 0, Flatten(p[..k]), p[k]);
    assert p == p[..k + 1] + p[k + 1..];
    FlattenAppend(p[..k + 1], p[k + 1..]);
    WindowAdd(flash, 0, Flatten(p[..k + 1]), Flatten(p[k + 1..]));
  }

  /** Two consecutive stages. */
  lemma Then(prev: Run, run: Run, n: nat, s: seq<Command>, t: seq<Command>, patience: nat, through: bool)
    requires prev <= run && n <= |prev|
    requires Ran(prev[n..], s, patience, true) && Ran(run[|prev|..], t, patience, through)
    ensures Ran(run[n..], s + t, patience, through)
    ensures AllDone(prev[n..]) && AllDone(run[|prev|..]) ==> AllDone(run[n..])
  {
    assert run[n..] == prev[n..] + run[|prev|..];
    RanThen(prev[n..], s, run[|prev|..], t, patience, through);
  }

  function Finishing(delay: Option<int>): seq<Command> { Delaying(delay) + [Reboot] }

  /** All but the reboot. */
  function Preparing(image: seq<bv8>, rev: int): seq<Command> { Flashing(image) + Verifying(image, rev) }

  /** A run that stopped before its last stage sent no reboot. */
  lemma NoReboot(run: Run, image: seq<bv8>, rev: int, patience: nat)
    requires Ran(run, Preparing(image, rev), patience, false)
    ensures Reboot !in Commands(run)
  {
    assert forall i :: 0 <= i < |Preparing(image, rev)| ==> Preparing(image, rev)[i] != Reboot;
  }

  /** A run that sent the reboot sent the whole script. */
  lemma RebootIsLast(run: Run, image: seq<bv8>, rev: int, delay: Option<int>)
    requires Commands(run) <= Script(image, rev, delay) && Reboot in Commands(run)
    ensures Commands(run) == Script(image, rev, delay)
  {
    var s := Script(image, rev, delay);
    assert forall i :: 0 <= i < |s| - 1 ==> s[i] != Reboot;
  }

  lemma ScriptIs(image: seq<bv8>, rev: int, delay: Option<int>)
    ensures Script(image, rev, delay) == Preparing(image, rev) + Finishing(delay)
    ensures Script(image, rev, delay) == Flashing(image) + (Verifying(image, rev) + Finishing(delay))
  {
  }

  /** Flash after an acknowledged erase, program and verify run: verified, and exact when acknowledgements are true. */
  ghost predicate Prepared(run: Run, flash: seq<bv8>, image: seq<bv8>, rev: int, maxsize: nat, patience: nat) {
    && ((rev == 2 ==> Rewinds(run, patience)) ==> Verified(flash, image, rev, maxsize))
    && (Honest(run, patience) && |image| <= |flash| ==> flash == Expected(image, |flash|))
  }

  lemma DoneIsHonest(run: Run, patience: nat)
    requires AllDone(run)
    ensures Honest(run, patience)
  {
  }

  /** What holds of all exchanges of a run holds of its stages. */
  lemma Portions(prev: Run, run: Run, n: nat, patience: nat)
    requires prev <= run && n <= |prev|
    ensures Honest(run[n..], patience) ==> Honest(prev[n..], patience)
    ensures Rewinds(run[n..], patience) ==> Rewinds(prev[n..], patience) && Rewinds(run[|prev|..], patience)
  {
    assert run[n..] == prev[n..] + run[|prev|..];
  }

  lemma PreparedMore(prev: Run, run: Run, n: nat, flash: seq<bv8>, image: seq<bv8>, rev: int, maxsize: nat,
                     patience: nat)
    requires prev <= run && n <= |prev| && Prepared(prev[n..], flash, image, rev, maxsize, patience)
    ensures Prepared(run[n..], flash, image, rev, maxsize, patience)
  {
    Portions(prev, run, n, patience);
  }

  /** The last stage completes the script. */
  lemma Conclude(prev: Run, run: Run, n: nat, image: seq<bv8>, rev: int, delay: Option<int>, patience: nat, ok: bool)
    requires prev <= run && n <= |prev| && Ran(prev[n..], Preparing(image, rev), patience, true)
    requires Ran(run[|prev|..], Finishing(delay), patience, ok && rev >= 3)
    requires ok ==> Commands(run[|prev|..]) == Finishing(delay)
    ensures Ran(run[n..], Script(image, rev, delay), patience, ok && rev >= 3)
    ensures ok ==> Reboot in Commands(run[n..])
    ensures Reboot in Commands(run[n..]) ==> Commands(run[n..]) == Script(image, rev, delay)
  {
    ScriptIs(image, rev, delay);
    Then(prev, run, n, Preparing(image, rev), Finishing(delay), patience, ok && rev >= 3);
    if Reboot in Commands(run[n..]) {
      RebootIsLast(run[n..], image, rev, delay);
    }
    if ok {
      LastReboot(run, n, |prev|, delay);
    }
  }

  lemma LastReboot(run: Run, n: nat, m: nat, delay: Option<int>)
    requires n <= m <= |run| && Commands(run[m..]) == Finishing(delay)
    ensures Reboot in Commands(run[n..])
  {
    var f := Finishing(delay);
    assert f[|f| - 1] == Reboot && run[|run| - 1] == run[m..][|f| - 1];
    assert Commands(run[n..])[|run| - n - 1] == run[|run| - 1].command;
  }

  lemma Rebooting(prev: Run, n: nat, x: Exchange, delay: Option<int>, patience: nat, acked: bool)
    requires n <= |prev| && Ran(prev[n..], Delaying(delay), patience, true)
    requires x.command == Reboot && (acked ==> Acked(x, patience))
    ensures Ran((prev + [x])[n..], Finishing(delay), patience, acked)
    ensures Commands((prev + [x])[n..]) == Finishing(delay)
  {
    var run := prev + [x];
    assert run[|prev|..] == [x] && Commands([x]) == [Reboot];
    assert run[n..] == prev[n..] + [x];
    RanThen(prev[n..], Delaying(delay), [x], [Reboot], patience, acked);
    assert Commands(prev[n..] + [x]) == Delaying(delay) + [Reboot];
  }

  /** Verified flash that the flashing stage left exact. */
  lemma Prepares(prev: Run, run: Run, n: nat, flash: seq<bv8>, image: seq<bv8>, rev: int, maxsize: nat, patience: nat)
    requires prev <= run && n <= |prev|
    requires Honest(prev[n..], patience) && |image| <= |flash| ==> flash == Expected(image, |flash|)
    requires Rewinds(run[|prev|..], patience) ==> Verified(flash, image, rev, maxsize)
    requires rev != 2 ==> Verified(flash, image, rev, maxsize)
    ensures Prepared(run[n..], flash, image, rev, maxsize, patience)
  {
    Portions(prev, run, n, patience);
  }

  /** What the changing stages did: commands are the script's, in order, none before the one ahead of it was
      acknowledged; a board told to reboot had everything else acknowledged and holds verified flash. */
  ghost predicate Installed(run: Run, flash: seq<bv8>, image: seq<bv8>, rev: int, maxsize: nat, patience: nat,
                            delay: Option<int>, ok: bool) {
    && Ran(run, Script(image, rev, delay), patience, ok && rev >= 3)
    && (ok ==> Reboot in Commands(run))
    && (Reboot in Commands(run)
        ==> Commands(run) == Script(image, rev, delay) && Prepared(run, flash, image, rev, maxsize, patience))
  }

  lemma NothingInstalled(flash: seq<bv8>, image: seq<bv8>, rev: int, maxsize: nat, patience: nat, delay: Option<int>)
    ensures Installed([], flash, image, rev, maxsize, patience, delay, false)
  {
  }

  /** The three groups of queries. */
  lemma Together(first: Run, second: Run, run: Run, n: nat, rev: int, patience: nat, ok: bool)
    requires n <= |first| && first <= second <= run
    requires Ran(first[n..], OtpQueries(rev), patience, true) && OnlyQueries(first[n..])
    requires Commands(second[|first|..]) <= SnQueries(rev) && OnlyQueries(second[|first|..])
    requires Ran(run[|second|..], ChipQueries(rev), patience, ok) && OnlyQueries(run[|second|..])
    ensures OnlyQueries(run[n..]) && (ok ==> Asked(run[n..], rev, patience))
  {
    var q, i, j := run[n..], |first| - n, |second| - n;
    assert q[..i] == first[n..] && q[i..j] == second[|first|..] && q[j..] == run[|second|..];
    assert q == q[..i] + q[i..j] + q[j..];
    if ok {
      assert AskedAt(q, i, j, rev, patience);
    }
  }

  class Uploading {
    const rev: int
    const boardType: int
    const maxsize: nat
    const patience: nat
    const world: nat -> Fate
    const start: Device
    var device: Device
    var run: Run

    ghost predicate Valid()
      reads this
    {
      device == Replay(start, run)
    }

    /** The exchanges after the first n. */
    ghost function Since(n: nat): Run
      reads this
      requires n <= |run|
    {
      run[n..]
    }

    /** A bootloader that carries out and acknowledges everything. */
    ghost predicate Obliging() {
      patience > 0 && forall i: nat :: world(i) == Fate(Done, [Okay])
    }

    constructor (rev: int, boardType: int, maxsize: nat, patience: nat, world: nat -> Fate, start: Device)
      ensures Valid() && run == [] && device == start
      ensures this.rev == rev && this.boardType == boardType && this.maxsize == maxsize
      ensures this.patience == patience && this.world == world && this.start == start
    {
      this.rev, this.boardType, this.maxsize, this.patience := rev, boardType, maxsize, patience;
      this.world, this.start, this.device, this.run := world, start, start, [];
    }

    /** Writes one command to the port; the bootloader does with it what it will. */
    method Send(c: Command) returns (x: Exchange)
      requires Valid()
      modifies this
      ensures Valid() && run == old(run) + [x] && x.command == c
      ensures device == Apply(old(device), x)
      ensures Obliging() ==> x.effect == Done && x.replies == [Okay]
    {
      var fate := world(|run|);
      x := Exchange(c, fate.effect, fate.replies);
      device := Apply(device, x);
      run := run + [x];
      assert run[..|run| - 1] == old(run);
    }

    /** uploader.__getSync after a command. */
    method Command(c: Command) returns (ok: bool)
      requires Valid() && !c.ChipErase?
      modifies this
      ensures Valid() && |run| == |old(run)| + 1 && old(run) <= run
      ensures run[|old(run)|].command == c
      ensures device == Apply(old(device), run[|old(run)|])
      ensures ok == Acked(run[|old(run)|], patience)
      ensures Obliging() ==> ok && run[|old(run)|].effect == Done
    {
      var x := Send(c);
      ok := x.replies != [] && x.replies[0] == Okay;
    }

    /** uploader.__erase */
    method Erase() returns (ok: bool)
      requires Valid()
      modifies this
      ensures Valid() && |run| == |old(run)| + 1 && old(run) <= run
      ensures run[|old(run)|].command == ChipErase
      ensures ok == Acked(run[|old(run)|], patience)
      ensures Obliging() ==> ok && run[|old(run)|].effect == Done
    {
      var x := Send(ChipErase);
      var tries, waiting := patience, x.replies;
      while tries > 0
        invariant 0 <= tries <= patience && EraseAccepted(x.replies, patience) == EraseAccepted(waiting, tries)
      {
        if waiting == [] || waiting[0] == BadSilicon {
          return false;
        }
        if waiting[0] == Okay {
          return true;
        }
        waiting, tries := waiting[1..], tries - 1;
      }
      return false;
    }

    /** uploader.__program */
    method Program(image: seq<bv8>) returns (ok: bool)
      requires Valid()
      modifies this
      ensures Valid() && old(run) <= run
      ensures Ran(Since(|old(run)|), Programs(SplitLen(image, PROG_MULTI_MAX)), patience, ok)
      ensures Obliging() ==> ok && AllDone(Since(|old(run)|))
    {
      var groups := SplitLen(image, PROG_MULTI_MAX);
      ghost var n := |run|;
      ghost var script := Programs(groups);
      for k := 0 to |groups|
        invariant Valid() && old(run) <= run && |run| == n + k
        invariant Ran(run[n..], script[..k], patience, true)
        invariant Obliging() ==> AllDone(run[n..])
      {
        ghost var before := run;
        var acked := Command(ProgMulti(groups[k]));
        OneMore(before, n, run[n + k], script, k, patience);
        assert run == before + [run[n + k]];
        if !acked {
          return false;
        }
      }
      assert script[..|groups|] == script;
      return true;
    }

    /** The erase and program stages of uploader.upload; the progress bar divides by the number of blocks. */
    method Flash(image: seq<bv8>) returns (ok: bool)
      requires Valid()
      modifies this
      ensures Valid() && old(run) <= run
      ensures Ran(Since(|old(run)|), Flashing(image), patience, ok) && |old(run)| < |run|
      ensures ok ==> image != []
      ensures ok && Honest(Since(|old(run)|), patience) && |image| <= |device.flash|
              ==> device.flash == Expected(image, |device.flash|)
      ensures Obliging() && image != [] ==> ok && AllDone(Since(|old(run)|))
    {
      ghost var n := |run|;
      ok := Erase();
      ghost var prev := run;
      ghost var rest := Programs(SplitLen(image, PROG_MULTI_MAX));
      assert Commands(prev[n..]) == [ChipErase];
      if !ok || |SplitLen(image, PROG_MULTI_MAX)| == 0 {
        return false;
      }
      ok := Program(image);
      Then(prev, run, n, [ChipErase], rest, patience, ok);
      assert run == old(run) + run[n..];
      ReplayAppend(start, old(run), run[n..]);
      if ok && Honest(Since(n), patience) && |image| <= |device.flash| {
        FlashedExactly(old(device), run[n..], image, patience);
      }
    }

    /** uploader.__verify_v3 */
    method VerifyV3(image: seq<bv8>) returns (ok: bool)
      requires Valid() && rev != 2
      modifies this
      ensures Valid() && old(run) <= run && device.flash == old(device.flash)
      ensures Ran(Since(|old(run)|), [GetCrc], patience, ok)
      ensures ok ==> Verified(device.flash, image, rev, maxsize)
      ensures Obliging() && Verified(device.flash, image, rev, maxsize) ==> ok && AllDone(Since(|old(run)|))
    {
      var expected := FirmwareCrc(image, maxsize);
      ghost var n := |run|;
      var x := Send(GetCrc);
      assert run[n..] == [x] && Commands([x]) == [GetCrc];
      // no checksum arrives unless the bootloader computed it
      ok := x.effect.Done? && FirstReply(x) == Okay && SerialCrc(0, device.flash) == expected;
    }

    /** uploader.__verify_multi */
    method VerifyMulti(data: seq<bv8>) returns (ok: bool)
      requires Valid()
      modifies this
      ensures Valid() && |run| == |old(run)| + 1 && old(run) <= run
      ensures run[|old(run)|].command == ReadMulti(|data|) && device.flash == old(device.flash)
      ensures ok ==> Acked(run[|old(run)|], patience) && device.readAt == old(device.readAt) + |data|
      ensures ok ==> Window(device.flash, old(device.readAt), data)
      ensures Obliging() ==> run[|old(run)|].effect.Done?
      ensures Obliging() && Window(device.flash, old(device.readAt), data) ==> ok
    {
      var from := device.readAt;
      var x := Send(ReadMulti(|data|));
      // no data arrives unless the bootloader read it, and less arrives at the end of flash
      ok := x.effect.Done? && from + |data| <= |device.flash| && device.flash[from..from + |data|] == data
        && FirstReply(x) == Okay;
    }

    /** The read-back loop of uploader.__verify_v2. */
    method ReadBack(groups: seq<seq<bv8>>) returns (ok: bool)
      requires Valid()
      modifies this
      ensures Valid() && old(run) <= run && device.flash == old(device.flash)
      ensures Ran(Since(|old(run)|), Reads(groups), patience, ok)
      ensures ok && old(device.readAt) == 0 ==> Window(device.flash, 0, Flatten(groups))
      ensures Obliging() && old(device.readAt) == 0 && Window(device.flash, 0, Flatten(groups))
              ==> ok && AllDone(Since(|old(run)|))
    {
      ghost var n, script := |run|, Reads(groups);
      HeadEnds(groups);
      for k := 0 to |groups|
        invariant Valid() && old(run) <= run && |run| == n + k && device.flash == old(device.flash)
        invariant Ran(run[n..], script[..k], patience, true)
        invariant device.readAt == old(device.readAt) + |Head(groups, k)|
        invariant old(device.readAt) == 0 ==> Window(device.flash, 0, Head(groups, k))
        invariant Obliging() ==> AllDone(run[n..])
      {
        ghost var before := run;
        WindowNext(device.flash, groups, k);
        var good := VerifyMulti(groups[k]);
        OneMore(before, n, run[n + k], script, k, patience);
        assert run == before + [run[n + k]];
        if !good {
          return false;
        }
      }
      assert script[..|groups|] == script;
      return true;
    }

    /** uploader.__verify_v2 */
    method VerifyV2(image: seq<bv8>) returns (ok: bool)
      requires Valid() && rev == 2
      modifies this
      ensures Valid() && old(run) <= run && device.flash == old(device.flash)
      ensures Ran(Since(|old(run)|), Verifying(image, rev), patience, ok)
      ensures ok && Rewinds(Since(|old(run)|), patience) ==> Verified(device.flash, image, rev, maxsize)
      ensures Obliging() && Verified(device.flash, image, rev, maxsize) ==> ok && AllDone(Since(|old(run)|))
    {
      var groups := SplitLen(image, READ_MULTI_MAX);
      ghost var n := |run|;
      ok := Command(ChipVerify);
      ghost var prev := run;
      assert Commands(prev[n..]) == [ChipVerify];
      if ok {
        ok := ReadBack(groups);
        Then(prev, run, n, [ChipVerify], Reads(groups), patience, ok);
        PiecesJoin(image, 0, READ_MULTI_MAX);
        assert run[n..][0] == prev[n];
      }
    }

    method Verify(image: seq<bv8>) returns (ok: bool)
      requires Valid()
      modifies this
      ensures Valid() && old(run) <= run && device.flash == old(device.flash)
      ensures Ran(Since(|old(run)|), Verifying(image, rev), patience, ok)
      ensures ok && (rev != 2 || Rewinds(Since(|old(run)|), patience)) ==> Verified(device.flash, image, rev, maxsize)
      ensures Obliging() && Verified(device.flash, image, rev, maxsize) ==> ok
    {
      if rev == 2 {
        ok := VerifyV2(image);
      } else {
        ok := VerifyV3(image);
      }
    }

    /** uploader.__set_boot_delay, when a delay is asked for; packing it as a signed byte may fail. */
    method Delay(delay: Option<int>) returns (ok: bool)
      requires Valid()
      modifies this
      ensures Valid() && old(run) <= run && device.flash == old(device.flash)
      ensures Ran(Since(|old(run)|), Delaying(delay), patience, ok)
      ensures Obliging() && Packable(delay) ==> ok
    {
      ghost var n := |run|;
      if delay.None? {
        return true;
      }
      if !(-128 <= delay.value < 128) {
        return false;
      }
      ok := Command(SetBootDelay(delay.value));
      assert Commands(run[n..]) == Delaying(delay);
    }

    /** The boot delay and uploader.__reboot. */
    method Finish(delay: Option<int>) returns (ok: bool)
      requires Valid()
      modifies this
      ensures Valid() && old(run) <= run && device.flash == old(device.flash)
      ensures Ran(Since(|old(run)|), Finishing(delay), patience, ok && rev >= 3)
      ensures ok ==> Commands(Since(|old(run)|)) == Finishing(delay)
      ensures Obliging() && Packable(delay) ==> ok
    {
      ghost var n := |run|;
      ok := Delay(delay);
      if !ok {
        return;
      }
      ghost var prev := run;
      var x := Send(Reboot);
      ok := rev < 3 || FirstReply(x) == Okay;
      Rebooting(prev, n, x, delay, patience, ok && rev >= 3);
    }

    /** The conditions under which a bootloader that obeys lets the verification pass. */
    ghost predicate Sound(image: seq<bv8>)
      reads this
    {
      && image != [] && |image| <= |device.flash| == maxsize
      && (rev != 2 ==> maxsize % 4 == 0)
    }

    /** The stages up to the verification. */
    method Prepare(image: seq<bv8>) returns (ok: bool)
      requires Valid() && |image| % 4 == 0
      modifies this
      ensures Valid() && old(run) <= run && |device.flash| == |old(device.flash)|
      ensures Ran(Since(|old(run)|), Preparing(image, rev), patience, ok) && |old(run)| < |run|
      ensures ok ==> Prepared(Since(|old(run)|), device.flash, image, rev, maxsize, patience)
      ensures Obliging() && old(Sound(image)) ==> ok
    {
      ghost var n := |run|;
      ok := Flash(image);
      ghost var prev := run;
      if !ok {
        RanShort(prev[n..], Flashing(image), Verifying(image, rev), patience);
        return;
      }
      if Obliging() && old(Sound(image)) {
        DoneIsHonest(prev[n..], patience);
        CorrectPasses(device.flash, image, rev, maxsize);
      }
      ok := Verify(image);
      Then(prev, run, n, Flashing(image), Verifying(image, rev), patience, ok);
      if ok {
        Prepares(prev, run, n, device.flash, image, rev, maxsize, patience);
      }
    }

    /** Sends queries until one fails. */
    method Ask(script: seq<Uploader.Command>) returns (ok: bool)
      requires Valid() && AllQueries(script)
      modifies this
      ensures Valid() && old(run) <= run && device == old(device)
      ensures Ran(Since(|old(run)|), script, patience, ok) && OnlyQueries(Since(|old(run)|))
      ensures Obliging() ==> ok
    {
      ghost var n := |run|;
      for k := 0 to |script|
        invariant Valid() && old(run) <= run && |run| == n + k && device == old(device)
        invariant Ran(run[n..], script[..k], patience, true) && OnlyQueries(run[n..])
      {
        ghost var before := run;
        ghost var d := device;
        var acked := Command(script[k]);
        assert run == before + [run[n + k]];
        OneQuery(d, before, n, run[n + k]);
        OneMore(before, n, run[n + k], script, k, patience);
        if !acked {
          return false;
        }
      }
      assert script[..|script|] == script;
      return true;
    }

    /** The OTP, serial number and chip queries of uploader.upload. */
    method Inquire() returns (ok: bool)
      requires Valid()
      modifies this
      ensures Valid() && old(run) <= run && device == old(device)
      ensures OnlyQueries(Since(|old(run)|)) && (ok ==> Asked(Since(|old(run)|), rev, patience))
      ensures Obliging() ==> ok
    {
      ghost var n := |run|;
      ok := Ask(OtpQueries(rev));
      if !ok {
        return;
      }
      ghost var first := run;
      var ignored := Ask(SnQueries(rev));
      ghost var second := run;
      ok := Ask(ChipQueries(rev));
      Together(first, second, run, n, rev, patience, ok);
    }

    /** The guards of uploader.upload, before and behind the queries. */
    method CheckBoard(fw: Firmware, force: bool) returns (refused: bool)
      ensures refused <==> Unsuitable(fw, boardType, maxsize, force)
    {
      if boardType != fw.boardId && !force {
        return true;
      }
      if maxsize < fw.imageSize {
        return true;
      }
      return false;
    }

    method CheckChip(fw: Firmware, described: bool, force: bool) returns (refused: bool)
      ensures refused <==> Unsafe(fw, rev, maxsize, described, force)
    {
      if rev >= 5 {
        if described && maxsize > fw.imageMaxsize && !force {
          return true;
        }
      } else if fw.boardId == 9 && fw.imageSize > 1032192 && !force {
        return true;
      }
      return false;
    }

    /** Everything before the erase: guards and queries. */
    method Clear(fw: Firmware, described: bool, force: bool) returns (go: bool, refused: bool, ghost queries: Run)
      requires Valid()
      modifies this
      ensures Valid() && run == old(run) + queries && device == old(device) && OnlyQueries(queries)
      ensures go ==> Asked(queries, rev, patience) && !refused
      ensures go ==> !Refuses(fw, rev, boardType, maxsize, described, force)
      ensures refused ==> Refuses(fw, rev, boardType, maxsize, described, force)
      ensures Unsuitable(fw, boardType, maxsize, force) ==> refused && queries == []
      ensures Obliging() ==> go || refused
    {
      go, queries := false, [];
      refused := CheckBoard(fw, force);
      if refused {
        return;
      }
      go := Inquire();
      queries := run[|old(run)|..];
      if go {
        refused := CheckChip(fw, described, force);
        go := !refused;
      }
    }

    /** The stages that change the board: erase, program, verify, delay and reboot. */
    method Install(image: seq<bv8>, delay: Option<int>) returns (ok: bool, ghost stages: Run)
      requires Valid() && |image| % 4 == 0
      modifies this
      ensures Valid() && run == old(run) + stages && stages != [] && |device.flash| == |old(device.flash)|
      ensures Installed(stages, device.flash, image, rev, maxsize, patience, delay, ok)
      ensures Obliging() && old(Sound(image)) && Packable(delay) ==> ok
    {
      ghost var n := |run|;
      ok := Prepare(image);
      ghost var prev := run;
      stages := run[n..];
      if !ok {
        NoReboot(prev[n..], image, rev, patience);
        ScriptIs(image, rev, delay);
        RanShort(prev[n..], Preparing(image, rev), Finishing(delay), patience);
        return;
      }
      ok := Finish(delay);
      Conclude(prev, run, n, image, rev, delay, patience, ok);
      PreparedMore(prev, run, n, device.flash, image, rev, maxsize, patience);
      stages := run[n..];
    }

    /** uploader.upload: queries first, then the stages that change the board. */
    method Upload(fw: Firmware, described: bool, force: bool, delay: Option<int>)
      returns (outcome: Outcome, ghost queries: Run, ghost stages: Run)
      requires Valid() && |fw.image| % 4 == 0
      modifies this
      ensures Valid() && run == old(run) + queries + stages && |device.flash| == |old(device.flash)|
      ensures OnlyQueries(queries)
      // nothing is changed unless queries and guards let it through
      ensures stages != [] ==>
                Asked(queries, rev, patience) && !Refuses(fw, rev, boardType, maxsize, described, force)
      ensures stages == [] ==> device == old(device) && !outcome.Completed?
      ensures outcome.Refused? ==> Refuses(fw, rev, boardType, maxsize, described, force)
      // not a single command goes to another board without force, nor for an image larger than flash
      ensures (boardType != fw.boardId && !force) || fw.imageSize > maxsize ==> outcome.Refused? && run == old(run)
      // nor is anything changed on a larger chip than the image is for, or with 1 MB and more on an old bootloader
      ensures stages != [] && !force && rev >= 5 && described ==> maxsize <= fw.imageMaxsize
      ensures stages != [] && !force && rev < 5 && fw.boardId == 9 ==> fw.imageSize <= 1032192
      // the board reboots only after everything else was acknowledged, with verified flash
      ensures Installed(stages, device.flash, fw.image, rev, maxsize, patience, delay, outcome.Completed?)
      // and an obedient board gets there
      ensures Obliging() && old(Sound(fw.image)) && Packable(delay) ==>
                outcome == if Refuses(fw, rev, boardType, maxsize, described, force) then Refused else Completed
    {
      var go, refused;
      go, refused, queries := Clear(fw, described, force);
      if go {
        var ok;
        ok, stages := Install(fw.image, delay);
        outcome := if ok then Completed else Aborted;
      } else {
        stages := [];
        NothingInstalled(device.flash, fw.image, rev, maxsize, patience, delay);
        outcome := if refused then Refused else Aborted;
      }
    }
  }
}
