/** The YMODEM sender of gpm/tools/ym_uploader.py against a receiver behind a line that loses frames and replies. */
module Ymodem {
  import opened Bytes
  import opened Chunks
  import opened Crc16

  // ---------------------------------------------------------------- frames

  const SOH: bv8 := 0x01
  const STX: bv8 := 0x02

  function Fill(n: nat, b: bv8): (r: seq<bv8>)
    ensures |r| == n
  {
    seq(n, _ => b)
  }

  /** The length a packet's data is padded to. */
  function Room(len: nat): nat { if len > 128 then 1024 else 128 }

  function Payload(data: seq<bv8>, header: bool): seq<bv8> {
    data + (if |data| < Room(|data|) then Fill(Room(|data|) - |data|, if header then 0x00 else 0x1A) else [])
  }

  /** What send_packet writes. The packet number never leaves 0..255, so it is its own low byte. */
  function Frame(n: bv8, data: seq<bv8>, header: bool): seq<bv8> {
    var body := Payload(data, header);
    var crc := Crc(0, body);
    [if |data| > 128 then STX else SOH, n, 255 - n] + (body + [High(crc), Low(crc)])
  }

  /** What a receiver makes of a frame: its number and its data, when the check bytes agree. */
  function Parse(f: seq<bv8>): Option<(bv8, seq<bv8>)> {
    if |f| < 5 || (f[0] != SOH && f[0] != STX) || |f| != (if f[0] == STX then 1024 else 128) + 5 then None
    else if f[2] != 255 - f[1] || Crc(0, f[3..]) != 0 then None
    else Some((f[1], f[3..|f| - 2]))
  }

  /** Every frame has residue zero. */
  lemma FrameResidue(n: bv8, data: seq<bv8>, header: bool)
    ensures |Frame(n, data, header)| >= 5 && Crc(0, Frame(n, data, header)[3..]) == 0
  {
    var body := Payload(data, header);
    var crc := Crc(0, body);
    assert Frame(n, data, header)[3..] == body + [High(crc), Low(crc)];
    CrcAppend(0, body, [High(crc), Low(crc)]);
    Residue(crc);
  }

  /** Every frame with up to 1024 bytes of data is understood. */
  lemma FrameParses(n: bv8, data: seq<bv8>, header: bool)
    requires |data| <= 1024
    ensures Parse(Frame(n, data, header)) == Some((n, Payload(data, header)))
  {
    FrameResidue(n, data, header);
    var f := Frame(n, data, header);
    assert f[3..|f| - 2] == Payload(data, header);
  }

  lemma FrameBytes(n: bv8, data: seq<bv8>, header: bool)
    ensures var f := Frame(n, data, header);
            && |f| == 5 + (if |data| > 1024 then |data| else if |data| > 128 then 1024 else 128)
            && f[0] == (if |data| > 128 then 0x02 else 0x01) && f[1] == n && f[2] == 255 - n
            && f[3..|f| - 2] == Payload(data, header) && f[3..3 + |data|] == data
            && f[|f| - 2] == High(Crc(0, Payload(data, header))) && f[|f| - 1] == Low(Crc(0, Payload(data, header)))
  {
    var f, body := Frame(n, data, header), Payload(data, header);
    assert f[3..|f| - 2] == body && f[3..3 + |data|] == body[..|data|];
  }

  lemma FramePadding(n: bv8, data: seq<bv8>, header: bool, i: nat)
    requires 3 + |data| <= i < |Frame(n, data, header)| - 2
    ensures Frame(n, data, header)[i] == if header then 0x00 else 0x1A
  {
    assert Frame(n, data, header)[i] == Payload(data, header)[i - 3];
  }

  /** What goes over the wire: the start byte tells the length, the number comes with its complement, the data is padded
      with zeros in a header and with 0x1A elsewhere, and the last two bytes are the remainder, high byte first. */
  lemma FrameLayout(n: bv8, data: seq<bv8>, header: bool)
    ensures var f := Frame(n, data, header);
            && |f| == 5 + (if |data| > 1024 then |data| else if |data| > 128 then 1024 else 128)
            && f[0] == (if |data| > 128 then 0x02 else 0x01) && f[1] == n && f[2] == 255 - n
            && f[3..3 + |data|] == data
            && (forall i :: 3 + |data| <= i < |f| - 2 ==> f[i] == (if header then 0x00 else 0x1A))
            && ByteBits(f[|f| - 2], 8) + ByteBits(f[|f| - 1], 8) ==
               Remainder(MessageBits(f[3..|f| - 2]) + Zeros(16), Generator())
  {
    var f := Frame(n, data, header);
    FrameBytes(n, data, header);
    forall i | 3 + |data| <= i < |f| - 2 ensures f[i] == if header then 0x00 else 0x1A {
      FramePadding(n, data, header, i);
    }
    CheckBytes(Crc(0, Payload(data, header)));
    CrcIsRemainder(Payload(data, header));
  }

  /** A frame that differs from a sent one only within two consecutive bytes is refused, unless the damage is another
      number with its complement. */
  lemma DamageRefused(n: bv8, data: seq<bv8>, header: bool, g: seq<bv8>, k: nat)
    requires |data| <= 1024 && g != Frame(n, data, header) && |g| == |Frame(n, data, header)| && k + 2 <= |g|
    requires g[..k] == Frame(n, data, header)[..k] && g[k + 2..] == Frame(n, data, header)[k + 2..]
    ensures |g| >= 5
    ensures var f := Frame(n, data, header);
            Parse(g).Some? <==> g[0] == f[0] && g[1] != n && g[2] == 255 - g[1] && g[3..] == f[3..]
  {
    FrameBytes(n, data, header);
    FrameParses(n, data, header);
    Damaged(Frame(n, data, header), g, k);
  }

  lemma Damaged(f: seq<bv8>, g: seq<bv8>, k: nat)
    requires Parse(f).Some? && |f| == |g| && f != g && k + 2 <= |f| && f[..k] == g[..k] && f[k + 2..] == g[k + 2..]
    ensures Parse(g).Some? <==> g[0] == f[0] && g[1] != f[1] && g[2] == 255 - g[1] && g[3..] == f[3..]
  {
    if k < 2 {
      EarlyDamage(f, g, k);
    }
    if f[3..] != g[3..] {
      DataDamaged(f, g, k);
    } else {
      assert f == [f[0], f[1], f[2]] + f[3..] && g == [g[0], g[1], g[2]] + g[3..];
    }
  }

  lemma EarlyDamage(f: seq<bv8>, g: seq<bv8>, k: nat)
    requires |f| == |g| >= 5 && k < 2 && f[k + 2..] == g[k + 2..]
    ensures f[3..] == g[3..]
  {
    assert f[3..] == f[k + 2..][1 - k..] && g[3..] == g[k + 2..][1 - k..];
  }

  lemma DataDamaged(f: seq<bv8>, g: seq<bv8>, k: nat)
    requires |f| == |g| >= 5 && 2 <= k && k + 2 <= |f| && f[..k] == g[..k] && f[k + 2..] == g[k + 2..]
    requires f[3..] != g[3..]
    ensures Crc(0, f[3..]) != Crc(0, g[3..])
  {
    var x, y := f[3..], g[3..];
    if k >= 3 {
      assert x[..k - 3] == f[..k][3..] == g[..k][3..] == y[..k - 3];
      assert x[k - 1..] == f[k + 2..] && y[k - 1..] == g[k + 2..];
      BurstDetected(0, x, y, k - 3, 2);
    } else {
      assert x[1..] == f[4..] && y[1..] == g[4..];
      BurstDetected(0, x, y, 0, 1);
    }
  }

  method PadData(data: seq<bv8>, length: nat, header: bool) returns (body: seq<bv8>)
    requires length == Room(|data|)
    ensures body == Payload(data, header)
  {
    body := data;
    if |data| < length {
      body := body + Fill(length - |data|, if header then 0x00 else 0x1A);
    }
  }

  lemma HighByte(crc: bv16)
    ensures ((crc >> 8) & 0xff) as bv8 == High(crc)
  {
  }

  /** Building the frame step by step, as send_packet does. */
  method BuildFrame(n: bv8, data: seq<bv8>, header: bool) returns (packet: seq<bv8>)
    ensures packet == Frame(n, data, header)
  {
    var start := if |data| > 128 then STX else SOH;
    var front := [start, n, 255 - n];
    var body := PadData(data, if start == STX then 1024 else 128, header);
    packet := front + body;
    assert packet[3..] == body;
    var crc := CalculateCrc16(packet[3..]);
    HighByte(crc);
    packet := packet + [((crc >> 8) & 0xff) as bv8];
    packet := packet + [(crc & 0xff) as bv8];
    assert packet == front + (body + [High(crc), Low(crc)]);
  }

  // ---------------------------------------------------------------- the receiver

  datatype Mode = AwaitHeader | Receiving | Closing

  /** The number last accepted and the payloads stored. */
  datatype Receiver = Receiver(mode: Mode, last: bv8, held: seq<seq<bv8>>)

  datatype Answer = Ack | Nak

  /** The next number in the sender's cycle, which skips 0 after 255. */
  function Successor(n: bv8): bv8 { if n == 255 then 1 else n + 1 }

  /** Stores the packet that is next in the cycle, acknowledges the last one again without storing it, and rejects
      everything else. */
  function Accept(r: Receiver, n: bv8, payload: seq<bv8>): (Receiver, Answer) {
    match r.mode
    case AwaitHeader => if n == 0 then (Receiver(Receiving, 0, []), Ack) else (r, Nak)
    case Receiving =>
      if n == Successor(r.last) then (Receiver(Receiving, n, r.held + [payload]), Ack)
      else if n == r.last then (r, Ack)
      else (r, Nak)
    case Closing => if n == 0 then (r, Ack) else (r, Nak)
  }

  /** Frames that do not check are rejected. */
  function Receive(r: Receiver, f: seq<bv8>): (Receiver, Answer) {
    var p := Parse(f);
    if p.None? then (r, Nak) else Accept(r, p.value.0, p.value.1)
  }

  /** One packet to send. */
  datatype Packet = Packet(number: bv8, data: seq<bv8>, header: bool)

  function FrameOf(p: Packet): seq<bv8> { Frame(p.number, p.data, p.header) }

  function FramesOf(log: seq<Packet>): (r: seq<seq<bv8>>)
    ensures |r| == |log|
  {
    seq(|log|, i requires 0 <= i < |log| => FrameOf(log[i]))
  }

  /** What the receiver makes of a packet that arrives. */
  function Arrive(r: Receiver, p: Packet): (Receiver, Answer) {
    if |p.data| <= 1024 then Accept(r, p.number, Payload(p.data, p.header)) else (r, Nak)
  }

  lemma FrameTooLong(p: Packet)
    requires |p.data| > 1024
    ensures Parse(FrameOf(p)) == None
  {
    assert |FrameOf(p)| == |p.data| + 5;
  }

  /** The frame on the line carries the packet. */
  lemma FrameArrives(r: Receiver, p: Packet)
    ensures Receive(r, FrameOf(p)) == Arrive(r, p)
  {
    if |p.data| <= 1024 {
      FrameParses(p.number, p.data, p.header);
    } else {
      FrameTooLong(p);
    }
  }

  // ---------------------------------------------------------------- the file

  /** The packets' contents for the file from index i on. */
  function Payloads(file: seq<bv8>, i: nat): seq<seq<bv8>>
    requires i <= |file|
    decreases |file| - i
  {
    if i == |file| then []
    else [Payload(file[i..Min(i + 1024, |file|)], false)] + Payloads(file, Min(i + 1024, |file|))
  }

  /** Only the last packet is padded, so the packets joined and cut to the file's size are the file. */
  lemma {:induction false} Trimmed(file: seq<bv8>, i: nat)
    requires i <= |file|
    ensures file[i..] <= Flatten(Payloads(file, i))
    decreases |file| - i
  {
    if i < |file| {
      var j := Min(i + 1024, |file|);
      Trimmed(file, j);
      assert Payloads(file, i)[1..] == Payloads(file, j);
      assert file[i..j] <= Payload(file[i..j], false);
      assert file[i..] == file[i..j] + file[j..];
    }
  }

  // ---------------------------------------------------------------- the transfer

  /** What happens to one frame and to the answer. A reply is an ACK only if the receiver sent one. */
  datatype Fate = FrameLost(reply: Noise) | AnswerLost(reply: Noise) | Delivered

  /** What the sender reads when the answer does not come: nothing, a NAK, another byte, or a cancellation. */
  datatype Noise = Silence | Rejected | Other | Cancel

  /** send_packet's True, False and None. */
  datatype Result = Yes | No | Cancelled

  class Transfer {
    const world: nat -> Fate
    const signals: nat -> bool
    var receiver: Receiver
    var wire: seq<seq<bv8>>
    var waits: nat
    ghost var log: seq<Packet>

    /** What was written to the port are the frames of the packets in the log. */
    ghost predicate Valid()
      reads this
    {
      wire == FramesOf(log)
    }

    constructor (world: nat -> Fate, signals: nat -> bool, receiver: Receiver)
      ensures Valid() && log == []
      ensures this.world == world && this.signals == signals && this.receiver == receiver
    {
      this.world, this.signals, this.receiver, wire, waits, log := world, signals, receiver, [], 0, [];
    }

    /** One of the next n frames is delivered and answered before a cancellation. */
    ghost predicate Reaches(i: nat, n: nat)
      decreases n
    {
      n > 0 && (world(i).Delivered? || (world(i).reply != Cancel && Reaches(i + 1, n - 1)))
    }

    /** Nothing is lost. */
    ghost predicate Clean() {
      (forall i: nat :: world(i).Delivered?) && forall i: nat :: signals(i)
    }

    /** send_packet */
    method SendPacket(n: bv8, data: seq<bv8>, header: bool) returns (r: Result)
      requires Valid()
      modifies this`receiver, this`wire, this`log
      ensures Valid() && log == old(log) + [Packet(n, data, header)]
      ensures receiver == old(receiver) || receiver == Arrive(old(receiver), Packet(n, data, header)).0
      ensures r == Yes <==> world(|old(log)|).Delivered? && Arrive(old(receiver), Packet(n, data, header)).1 == Ack
      ensures r == Yes ==> receiver == Arrive(old(receiver), Packet(n, data, header)).0
      ensures r == Cancelled <==> !world(|old(log)|).Delivered? && world(|old(log)|).reply == Cancel
    {
      var frame := BuildFrame(n, data, header);
      var fate := world(|wire|);
      wire := wire + [frame];
      log := log + [Packet(n, data, header)];
      if fate.FrameLost? {
        return if fate.reply == Cancel then Cancelled else No;
      }
      FrameArrives(receiver, Packet(n, data, header));
      var result := Receive(receiver, frame);
      receiver := result.0;
      if fate.AnswerLost? {
        return if fate.reply == Cancel then Cancelled else No;
      }
      return if result.1 == Ack then Yes else No;
    }

    /** The retry loop of send_file for one data packet, numbered next after the last accepted one. */
    method SendData(n: bv8, data: seq<bv8>) returns (ok: bool, ghost count: nat)
      requires Valid() && |data| <= 1024 && receiver.mode == Receiving && n == Successor(receiver.last)
      modifies this`receiver, this`wire, this`log
      ensures Valid() && (receiver == old(receiver) || receiver == Stored(old(receiver), n, data))
      ensures ok ==> receiver == Stored(old(receiver), n, data)
      ensures ok <==> Reaches(|old(log)|, 5)
      ensures 1 <= count <= 5 && log == old(log) + Copies(Packet(n, data, false), count)
    {
      ghost var w := |log|;
      StoredOnce(receiver, n, data);
      ok := false;
      var retry := 0;
      while retry < 5 && !ok
        invariant Valid() && 0 <= retry <= 5 && log == old(log) + Copies(Packet(n, data, false), retry)
        invariant receiver == old(receiver) || receiver == Stored(old(receiver), n, data)
        invariant ok ==> retry > 0 && receiver == Stored(old(receiver), n, data)
        invariant Reaches(w, 5) <==> ok || Reaches(w + retry, 5 - retry)
      {
        var result := SendPacket(n, data, false);
        CopiesMore(Packet(n, data, false), retry);
        retry := retry + 1;
        if result == Yes {
          ok := true;
        } else if result == Cancelled {
          break;
        }
      }
      count := retry;
    }

    /** wait_for_signal: whether the expected byte comes in time. */
    method WaitForSignal() returns (seen: bool)
      modifies this`waits
      ensures Clean() ==> seen
    {
      seen := signals(waits);
      waits := waits + 1;
    }

    /** The read loop of send_file; packet k was written tries[k] times. */
    method SendContents(file: seq<bv8>) returns (ok: bool, ghost tries: seq<nat>)
      requires Valid() && receiver.mode == Receiving && receiver.last == 0 && receiver.held == []
      modifies this`receiver, this`wire, this`log
      ensures Valid() && receiver.mode == Receiving
      ensures receiver.held <= Payloads(file, 0) && (ok ==> receiver.held == Payloads(file, 0))
      ensures Few(tries) && log == old(log) + DataPackets(file, tries)
      ensures |tries| <= |Payloads(file, 0)| && (ok ==> |tries| == |Payloads(file, 0)|)
      ensures Clean() ==> ok
    {
      tries := [];
      var n: bv8, pos := 1, 0;
      while pos < |file|
        invariant Sending(receiver, n, file, pos, tries)
        invariant Valid() && Few(tries) && log == old(log) + DataPackets(file, tries)
        decreases |file| - pos
      {
        var data := file[pos..Min(pos + 1024, |file|)];
        var sent;
        ghost var count;
        SendingStep(receiver, n, file, pos, tries, data);
        sent, count := SendData(n, data);
        DataPacketsMore(old(log), file, tries, count, data);
        tries := tries + [count];
        if !sent {
          return false, tries;
        }
        n := if n == 255 then 1 else n + 1;
        pos := Min(pos + 1024, |file|);
      }
      SentAll(receiver, n, file, tries);
      return true, tries;
    }

    /** send_file, for a file that exists; None is Python's None, when the last packet is not acknowledged. */
    method SendFile(header: seq<bv8>, file: seq<bv8>)
      returns (r: Option<bool>, ghost begun: bool, ghost tries: seq<nat>, ghost closed: bool)
      requires Valid() && receiver.mode == AwaitHeader && receiver.held == []
      modifies this
      ensures Valid()
      // the receiver holds the first packets of the file, whatever happened
      ensures receiver.held <= Payloads(file, 0)
      // and all of them, hence the file, when the sender reports success
      ensures r == Some(true) ==> receiver.held == Payloads(file, 0) && file <= Flatten(receiver.held) && closed
      // written are the header, then each packet in order up to five times, then the empty packet
      ensures log == old(log) + Packets(begun, header, file, tries, closed) && Few(tries)
      ensures |tries| <= |Payloads(file, 0)| && (!begun ==> tries == []) && (closed ==> |tries| == |Payloads(file, 0)|)
      ensures Clean() && |header| <= 1024 ==> r == Some(true)
    {
      begun, tries, closed := false, [], false;
      var seen := WaitForSignal();
      if !seen {
        r := Some(false);
        return;
      }
      var answer := SendPacket(0, header, true);
      begun := true;
      if answer != Yes {
        r := Some(false);
        return;
      }
      seen := WaitForSignal();
      if !seen {
        r := Some(false);
        return;
      }
      var ok;
      ok, tries := SendContents(file);
      PacketsJoin(old(log), header, file, tries);
      if !ok {
        r := Some(false);
        return;
      }
      r, closed := Close(file);
    }

    /** The end of send_file: two EOTs, their answers, and the empty packet. */
    method Close(ghost file: seq<bv8>) returns (r: Option<bool>, ghost closed: bool)
      requires Valid() && receiver.mode == Receiving && receiver.held == Payloads(file, 0)
      modifies this`receiver, this`wire, this`waits, this`log
      ensures Valid() && receiver.held == Payloads(file, 0)
      ensures log == if closed then old(log) + [Packet(0, Fill(128, 0), false)] else old(log)
      ensures r == Some(true) ==> closed && file <= Flatten(receiver.held)
      ensures Clean() ==> r == Some(true)
    {
      closed := false;
      var nak := WaitForSignal();
      if !nak {
        return Some(false), false;
      }
      var ack := WaitForSignal();
      if !ack {
        return Some(false), false;
      }
      receiver := receiver.(mode := Closing);
      var more := WaitForSignal();
      if !more {
        return Some(false), false;
      }
      var result := SendPacket(0, Fill(128, 0), false);
      Trimmed(file, 0);
      assert file[0..] == file;
      return match result case Yes => Some(true) case Cancelled => Some(false) case No => None, true;
    }
  }

  // ---------------------------------------------------------------- what is on the wire

  function Copies(p: Packet, n: nat): (r: seq<Packet>)
    ensures |r| == n
  {
    seq(n, _ => p)
  }

  lemma CopiesMore(p: Packet, n: nat)
    ensures Copies(p, n + 1) == Copies(p, n) + [p]
  {
  }

  /** The number of data packet k. */
  function NumberOf(k: nat): bv8 {
    if k == 0 then 1 else Successor(NumberOf(k - 1))
  }

  /** Packet numbers count from 1 to 255 and start again at 1. */
  lemma {:induction false} NumbersCycle(k: nat)
    ensures NumberOf(k) as int == k % 255 + 1
    decreases k
  {
    if k > 0 {
      NumbersCycle(k - 1);
      SuccessorValue(NumberOf(k - 1));
      NextInCycle(k - 1);
    }
  }

  lemma NextInCycle(k: nat)
    ensures (k + 1) % 255 == if k % 255 == 254 then 0 else k % 255 + 1
  {
  }

  lemma SuccessorValue(n: bv8)
    ensures Successor(n) as int == if n as int == 255 then 1 else n as int + 1
  {
  }

  /** The contents of data packet k. */
  function Chunk(file: seq<bv8>, k: nat): seq<bv8> { file[Min(1024 * k, |file|)..Min(1024 * k + 1024, |file|)] }

  /** The first data packets, in order, packet k as often as tries says. */
  function DataPackets(file: seq<bv8>, tries: seq<nat>): seq<Packet>
    decreases |tries|
  {
    if tries == [] then []
    else
      var k := |tries| - 1;
      DataPackets(file, tries[..k]) + Copies(Packet(NumberOf(k), Chunk(file, k), false), tries[k])
  }

  lemma DataPacketsMore(before: seq<Packet>, file: seq<bv8>, tries: seq<nat>, count: nat, data: seq<bv8>)
    requires data == Chunk(file, |tries|)
    ensures before + DataPackets(file, tries + [count]) ==
            before + DataPackets(file, tries) + Copies(Packet(NumberOf(|tries|), data, false), count)
  {
    assert (tries + [count])[..|tries|] == tries;
  }

  /** Everything that one call of send_file sends. */
  function Packets(begun: bool, header: seq<bv8>, file: seq<bv8>, tries: seq<nat>, closed: bool): seq<Packet> {
    (if begun then [Packet(0, header, true)] else []) + DataPackets(file, tries)
      + (if closed then [Packet(0, Fill(128, 0), false)] else [])
  }

  lemma PacketsJoin(before: seq<Packet>, header: seq<bv8>, file: seq<bv8>, tries: seq<nat>)
    ensures before + [Packet(0, header, true)] + DataPackets(file, tries)
            == before + Packets(true, header, file, tries, false)
    ensures before + [Packet(0, header, true)] + DataPackets(file, tries) + [Packet(0, Fill(128, 0), false)]
            == before + Packets(true, header, file, tries, true)
  {
  }

  /** Every frame on the wire has residue zero. */
  lemma WireChecked(log: seq<Packet>, k: nat)
    requires k < |log|
    ensures |FramesOf(log)[k]| >= 5 && Crc(0, FramesOf(log)[k][3..]) == 0
  {
    FrameResidue(log[k].number, log[k].data, log[k].header);
  }

  /** Every data packet was written at most five times. */
  ghost predicate Few(tries: seq<nat>) { forall k :: 0 <= k < |tries| ==> 1 <= tries[k] <= 5 }

  /** The packets before index pos of the file are stored, and n is the number the receiver expects next. */
  ghost predicate Sending(r: Receiver, n: bv8, file: seq<bv8>, pos: nat, tries: seq<nat>) {
    && pos == Min(1024 * |tries|, |file|) && n == NumberOf(|tries|) && |tries| == |r.held|
    && r.mode == Receiving && n == Successor(r.last) && r.held + Payloads(file, pos) == Payloads(file, 0)
  }

  ghost predicate HoldsPrefix(r: Receiver, file: seq<bv8>) { r.mode == Receiving && r.held <= Payloads(file, 0) }

  /** What is held, and held with the next packet, are first packets of the file. */
  lemma PrefixStep(held: seq<seq<bv8>>, file: seq<bv8>, pos: nat)
    requires pos < |file| && held + Payloads(file, pos) == Payloads(file, 0)
    ensures var j := Min(pos + 1024, |file|);
            var more := held + [Payload(file[pos..j], false)];
            held <= Payloads(file, 0) && more <= Payloads(file, 0) && more + Payloads(file, j) == Payloads(file, 0)
  {
    var j := Min(pos + 1024, |file|);
    var x, rest := [Payload(file[pos..j], false)], Payloads(file, j);
    assert Payloads(file, pos) == x + rest;
    OneMore(held, x, rest, Payloads(file, 0));
  }

  lemma OneMore(held: seq<seq<bv8>>, x: seq<seq<bv8>>, rest: seq<seq<bv8>>, all: seq<seq<bv8>>)
    requires held + (x + rest) == all
    ensures held <= all && held + x <= all && (held + x) + rest == all
  {
  }

  /** Whether or not the next packet is stored, a prefix is held; and once it is, the one after it is next. */
  lemma SendingStep(r: Receiver, n: bv8, file: seq<bv8>, pos: nat, tries: seq<nat>, data: seq<bv8>)
    requires Sending(r, n, file, pos, tries) && pos < |file| && data == file[pos..Min(pos + 1024, |file|)]
    ensures |data| <= 1024 && data == Chunk(file, |tries|) && |tries| < |Payloads(file, 0)|
    ensures HoldsPrefix(r, file) && HoldsPrefix(Stored(r, n, data), file)
    ensures forall count: nat ::
              Sending(Stored(r, n, data), Successor(n), file, Min(pos + 1024, |file|), tries + [count])
  {
    PrefixStep(r.held, file, pos);
  }

  lemma SentAll(r: Receiver, n: bv8, file: seq<bv8>, tries: seq<nat>)
    requires Sending(r, n, file, |file|, tries)
    ensures HoldsPrefix(r, file) && r.held == Payloads(file, 0) && |tries| == |Payloads(file, 0)|
  {
  }

  /** The next packet is stored once, however often it arrives. */
  lemma StoredOnce(r: Receiver, n: bv8, data: seq<bv8>)
    requires |data| <= 1024 && r.mode == Receiving && n == Successor(r.last)
    ensures Arrive(r, Packet(n, data, false)) == (Stored(r, n, data), Ack)
    ensures Arrive(Stored(r, n, data), Packet(n, data, false)) == (Stored(r, n, data), Ack)
  {
  }

  /** The receiver with one packet more. */
  function Stored(r: Receiver, n: bv8, data: seq<bv8>): Receiver {
    Receiver(Receiving, n, r.held + [Payload(data, false)])
  }
}
