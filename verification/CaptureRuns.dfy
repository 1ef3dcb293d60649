/** What every run of the capture writer keeps, for any interleaving of packets, key lines,
    room changes, drain ticks and Close, and any pattern of failing block writes. */
module CaptureRuns {
  import opened Wrappers
  import opened Pcapng
  import opened CaptureSpec

  // ----- The queue -----

  predicate SortedByArrival(held: seq<Packet>) {
    forall i, j :: 0 <= i < j < |held| ==> held[i].at <= held[j].at
  }

  /** The cap releases the least number of oldest packets that brings the queue back under it. */
  lemma {:induction false} ReleaseIsLeast(held: seq<Packet>)
    ensures DataBytes(held[Release(held)..]) <= MAX_HELD_BYTES
    ensures forall m :: 0 <= m < Release(held) ==> DataBytes(held[m..]) > MAX_HELD_BYTES
  {
    if DataBytes(held) <= MAX_HELD_BYTES {
      assert held[0..] == held;
    } else {
      var tail := held[1..];
      ReleaseIsLeast(tail);
      assert held[Release(held)..] == tail[Release(tail)..];
      forall m | 0 <= m < Release(held) ensures DataBytes(held[m..]) > MAX_HELD_BYTES {
        if m == 0 {
          assert held[0..] == held;
        } else {
          assert held[m..] == tail[m - 1..];
        }
      }
    }
  }

  /** The packets whose hold window has ended by the cutoff, and the rest, by plain filtering. */
  function DuePackets(held: seq<Packet>, cutoff: int): seq<Packet> {
    if held == [] then []
    else (if held[0].at <= cutoff then [held[0]] else []) + DuePackets(held[1..], cutoff)
  }

  function WaitingPackets(held: seq<Packet>, cutoff: int): seq<Packet> {
    if held == [] then []
    else (if held[0].at <= cutoff then [] else [held[0]]) + WaitingPackets(held[1..], cutoff)
  }

  lemma {:induction false} AllWaiting(held: seq<Packet>, cutoff: int)
    requires forall i :: 0 <= i < |held| ==> held[i].at > cutoff
    ensures DuePackets(held, cutoff) == [] && WaitingPackets(held, cutoff) == held
  {
    if held != [] {
      AllWaiting(held[1..], cutoff);
    }
  }

  /** On a queue sorted by arrival, stopping the scan at the first packet still inside its
      window loses nothing: it splits the queue just as a full filter would. */
  lemma {:induction false} FrontScanIsFilter(held: seq<Packet>, cutoff: int)
    requires SortedByArrival(held)
    ensures held[..DueCount(held, cutoff)] == DuePackets(held, cutoff)
    ensures held[DueCount(held, cutoff)..] == WaitingPackets(held, cutoff)
  {
    if held == [] {
    } else if held[0].at > cutoff {
      AllWaiting(held, cutoff);
    } else {
      FrontScanIsFilter(held[1..], cutoff);
      var n := DueCount(held[1..], cutoff);
      assert held[..n + 1] == [held[0]] + held[1..][..n];
    }
  }

  /** What the pcapng library accepts: the file's only interface, a captured length that is
      the data's and no more than the original length, and a timestamp. */
  predicate IsWritable(info: CaptureInfo, size: nat) {
    info.interfaceIndex == 0 && info.captureLength == size <= info.length && info.timestamp.Some?
  }

  /** Whatever interface a packet came from, and with either length or the timestamp left
      out, what is queued is writable and keeps the timestamp and the original length it had. */
  lemma StampedIsWritable(info: CaptureInfo, size: nat, now: int)
    requires info.captureLength == 0 || info.captureLength == size
    requires info.length == 0 || info.length >= size
    ensures IsWritable(StampInfo(info, size, now), size)
    ensures info.timestamp.Some? ==> StampInfo(info, size, now).timestamp == info.timestamp
    ensures info.timestamp.None? ==> StampInfo(info, size, now).timestamp == Some(now)
    ensures StampInfo(info, size, now).length == if info.length == 0 then size else info.length
  {
  }

  // ----- The invariant -----

  /** The queue: its byte count is exact, it is sorted by arrival, and every packet carries
      a timestamp and the file's only interface. */
  ghost predicate QueueShape(w: Writer) {
    && w.heldBytes == DataBytes(w.held)
    && SortedByArrival(w.held)
    && (forall i :: 0 <= i < |w.held| ==>
          && w.held[i].at <= w.clock
          && w.held[i].info.timestamp.Some? && w.held[i].info.interfaceIndex == 0)
  }

  ghost predicate QueueInv(w: Writer) {
    QueueShape(w) && w.heldBytes <= MAX_HELD_BYTES
  }

  /** The file, the pending lines and the held packets all fit in what was admitted. */
  ghost predicate SizeInv(w: Writer) {
    FileBytes(w) + LineBytes(w.pending) + FrameBytes(w.held) <= w.admitted
  }

  /** The file is closed at most once, and only with the drain goroutine gone. */
  ghost predicate CloseInv(w: Writer) {
    && w.closed == !w.open
    && w.closes == (if w.closed then 1 else 0)
    && (w.closed ==> !w.draining)
    && (!w.draining && !w.closed ==> w.stopping)
  }

  /** A packet leaves the queue of an open file only because its window ended or the cap
      forced it out. */
  ghost predicate CauseOk(w: Writer, a: Attempt) {
    a.block.Frame? ==>
      match a.cause
      case Due(tick) => a.block.packet.at <= tick - HOLD_WINDOW && tick <= w.clock
      case Forced => true
      case Final => w.closed
  }

  ghost predicate CauseInv(w: Writer) {
    forall i :: 0 <= i < |w.log| ==> CauseOk(w, w.log[i])
  }

  ghost predicate Inv(w: Writer) {
    QueueInv(w) && SizeInv(w) && CloseInv(w) && CauseInv(w)
  }

  lemma InitInv(path: string, header: nat, room: int, now: int)
    ensures Inv(Init(path, header, room, now))
  {
    assert LineBytes([]) == 0 && FrameBytes([]) == 0 && DataBytes([]) == 0;
  }

  lemma WriteHeldQueue(w: Writer, n: nat, io: nat -> bool, cause: Cause)
    requires n <= |w.held| && QueueShape(w)
    ensures var v := WriteHeld(w, n, io, cause);
            QueueShape(v) && v.heldBytes == DataBytes(w.held[n..]) <= w.heldBytes
  {
    assert w.held == w.held[..n] + w.held[n..];
    DataBytesConcat(w.held[..n], w.held[n..]);
  }

  lemma EnqueueQueue(w: Writer, info: CaptureInfo, data: string, now: int)
    requires QueueShape(w) && now >= w.clock
    ensures QueueShape(Enqueue(w, info, data, now))
  {
    var p := Packet(StampInfo(info, |data|, now), data, now);
    DataBytesConcat(w.held, [p]);
    assert DataBytes([p]) == |data| by { assert [p][1..] == []; }
  }

  lemma WriteHeldSize(w: Writer, n: nat, io: nat -> bool, cause: Cause)
    requires n <= |w.held| && SizeInv(w)
    ensures SizeInv(WriteHeld(w, n, io, cause))
  {
    WriteHeldCost(w, n, io, cause);
  }

  /** Every frame the call logs is one of the n oldest held, logged with the call's cause. */
  lemma WriteHeldCauses(w: Writer, n: nat, io: nat -> bool, cause: Cause)
    requires n <= |w.held| && CauseInv(w)
    requires forall j :: 0 <= j < n ==> CauseOk(w, Attempt(Frame(w.held[j]), false, cause))
    ensures CauseInv(WriteHeld(w, n, io, cause))
  {
    var v := WriteHeld(w, n, io, cause);
    var s := |w.log| + |SecretsAttempts(w.pending, w.open, io, cause)|;
    forall i | 0 <= i < |v.log| ensures CauseOk(v, v.log[i]) {
      if i < |w.log| {
        assert CauseOk(w, w.log[i]);
      } else if s <= i {
        assert CauseOk(w, Attempt(Frame(w.held[i - s]), false, cause));
      }
    }
  }

  lemma LaterKeepsCauses(w: Writer, v: Writer)
    requires CauseInv(w) && v.log == w.log && v.clock >= w.clock && (w.closed ==> v.closed)
    ensures CauseInv(v)
  {
    forall i | 0 <= i < |v.log| ensures CauseOk(v, v.log[i]) {
      assert CauseOk(w, w.log[i]);
    }
  }

  lemma {:induction false} DueCountIsDue(held: seq<Packet>, cutoff: int)
    ensures forall j :: 0 <= j < DueCount(held, cutoff) ==> held[j].at <= cutoff
  {
    if held != [] && held[0].at <= cutoff {
      DueCountIsDue(held[1..], cutoff);
    }
  }

  lemma TrimQueue(q: Writer, io: nat -> bool)
    requires QueueShape(q)
    ensures QueueInv(Trim(q, io))
  {
    var n := Release(q.held);
    ReleaseIsLeast(q.held);
    assert q.held[0..] == q.held;
    WriteHeldQueue(q, n, io, Forced);
  }

  lemma SameQueueShape(w: Writer, v: Writer)
    requires QueueShape(w) && v.held == w.held && v.heldBytes == w.heldBytes && v.clock == w.clock
    ensures QueueShape(v)
  {
  }

  /** An admitted packet is queued last; over the cap, the oldest go at once. */
  lemma PacketKeepsQueue(w: Writer, info: CaptureInfo, data: string, now: int, io: nat -> bool)
    requires QueueInv(w) && now >= w.clock
    ensures QueueInv(WritePacket(w, info, data, now, io).w)
  {
    var a := Admit(w, EpbSize(|data|));
    SameQueueShape(w, a.w);
    if a.ok {
      var q := Enqueue(a.w, info, data, now);
      EnqueueQueue(a.w, info, data, now);
      TrimQueue(q, io);
    }
  }

  lemma EnqueueSize(w: Writer, info: CaptureInfo, data: string, now: int)
    ensures FrameBytes(Enqueue(w, info, data, now).held) == FrameBytes(w.held) + EpbSize(|data|)
  {
    var p := Packet(StampInfo(info, |data|, now), data, now);
    FrameBytesConcat(w.held, [p]);
    assert FrameBytes([p]) == EpbSize(|data|) by { assert [p][1..] == []; }
  }

  lemma PacketKeepsSize(w: Writer, info: CaptureInfo, data: string, now: int, io: nat -> bool)
    requires SizeInv(w)
    ensures SizeInv(WritePacket(w, info, data, now, io).w)
  {
    var a := Admit(w, EpbSize(|data|));
    if a.ok {
      var q := Enqueue(a.w, info, data, now);
      assert SizeInv(q) by { EnqueueSize(a.w, info, data, now); }
      WriteHeldSize(q, Release(q.held), io, Forced);
    }
  }

  lemma PacketKeepsCauses(w: Writer, info: CaptureInfo, data: string, now: int, io: nat -> bool)
    requires CauseInv(w) && now >= w.clock
    ensures CauseInv(WritePacket(w, info, data, now, io).w)
  {
    var a := Admit(w, EpbSize(|data|));
    LaterKeepsCauses(w, a.w);
    if a.ok {
      var q := Enqueue(a.w, info, data, now);
      LaterKeepsCauses(w, q);
      WriteHeldCauses(q, Release(q.held), io, Forced);
    }
  }

  lemma PacketKeepsClose(w: Writer, info: CaptureInfo, data: string, now: int, io: nat -> bool)
    requires CloseInv(w)
    ensures CloseInv(WritePacket(w, info, data, now, io).w)
  {
  }

  lemma PacketKeepsInv(w: Writer, info: CaptureInfo, data: string, now: int, io: nat -> bool)
    requires Inv(w) && now >= w.clock
    ensures Inv(WritePacket(w, info, data, now, io).w)
  {
    PacketKeepsQueue(w, info, data, now, io);
    PacketKeepsSize(w, info, data, now, io);
    PacketKeepsCauses(w, info, data, now, io);
    PacketKeepsClose(w, info, data, now, io);
  }

  lemma QueuedLineKeepsSize(w: Writer, v: Writer, line: string)
    requires SizeInv(w)
    requires v == w.(admitted := w.admitted + DsbSize(|line| + 1), pending := w.pending + [line])
    ensures SizeInv(v)
  {
    LineBytesConcat(w.pending, [line]);
    assert LineBytes([line]) == DsbSize(|line| + 1) by { assert [line][1..] == []; }
  }

  lemma QueuedLineKeepsInv(w: Writer, v: Writer, line: string)
    requires Inv(w)
    requires v == w.(admitted := w.admitted + DsbSize(|line| + 1), pending := w.pending + [line])
    ensures Inv(v)
  {
    SameQueueShape(w, v);
    QueuedLineKeepsSize(w, v, line);
    LaterKeepsCauses(w, v);
  }

  lemma SecretOutcome(w: Writer, line: string)
    ensures var a := AddSecret(w, line);
            if a.ok then a.w == w.(admitted := w.admitted + DsbSize(|line| + 1), pending := w.pending + [line])
            else a.w == w || a.w == w.(stopped := true)
  {
  }

  lemma SecretKeepsInv(w: Writer, line: string)
    requires Inv(w)
    ensures Inv(AddSecret(w, line).w)
  {
    SecretOutcome(w, line);
    if AddSecret(w, line).ok {
      QueuedLineKeepsInv(w, AddSecret(w, line).w, line);
    } else if AddSecret(w, line).w != w {
      FlagsKeepInv(w, w.(stopped := true));
    }
  }

  /** Changes that touch neither the queues nor the file. */
  lemma FlagsKeepInv(w: Writer, v: Writer)
    requires Inv(w) && CloseInv(v)
    requires v.log == w.log && v.held == w.held && v.pending == w.pending && v.heldBytes == w.heldBytes
    requires v.admitted == w.admitted && v.header == w.header && v.clock == w.clock && (w.closed ==> v.closed)
    ensures Inv(v)
  {
    LaterKeepsCauses(w, v);
  }

  lemma DrainKeepsCauses(w: Writer, now: int, io: nat -> bool)
    requires CauseInv(w) && now >= w.clock
    ensures CauseInv(Drain(w, now, io))
  {
    var c := w.(clock := now);
    DueCountIsDue(w.held, now - HOLD_WINDOW);
    LaterKeepsCauses(w, c);
    WriteHeldCauses(c, DueCount(w.held, now - HOLD_WINDOW), io, Due(now));
  }

  lemma DrainKeepsQueue(w: Writer, now: int, io: nat -> bool)
    requires QueueInv(w) && now >= w.clock
    ensures QueueInv(Drain(w, now, io))
  {
    WriteHeldQueue(w.(clock := now), DueCount(w.held, now - HOLD_WINDOW), io, Due(now));
  }

  lemma DrainKeepsSize(w: Writer, now: int, io: nat -> bool)
    requires SizeInv(w)
    ensures SizeInv(Drain(w, now, io))
  {
    WriteHeldSize(w.(clock := now), DueCount(w.held, now - HOLD_WINDOW), io, Due(now));
  }

  lemma DrainKeepsInv(w: Writer, now: int, io: nat -> bool)
    requires Inv(w) && now >= w.clock
    ensures Inv(Drain(w, now, io))
  {
    DrainKeepsQueue(w, now, io);
    DrainKeepsSize(w, now, io);
    DrainKeepsCauses(w, now, io);
    assert CloseInv(Drain(w, now, io));
  }

  lemma CloseEndKeepsInv(w: Writer, io: nat -> bool)
    requires Inv(w) && !w.draining
    ensures Inv(FinishClose(w, io))
  {
    if !w.closed {
      var c := w.(closed := true);
      WriteHeldQueue(w, |w.held|, io, Final);
      WriteHeldSize(w, |w.held|, io, Final);
      LaterKeepsCauses(w, c);
      WriteHeldCauses(c, |w.held|, io, Final);
      LaterKeepsCauses(WriteHeld(c, |w.held|, io, Final), FinishClose(w, io));
    }
  }

  lemma StepKeepsInv(w: Writer, e: Event)
    requires Inv(w) && Enabled(w, e)
    ensures Inv(Next(w, e))
  {
    match e
    case PacketIn(info, data, now, io) => PacketKeepsInv(w, info, data, now, io);
    case SecretIn(line) => SecretKeepsInv(w, line);
    case TickAt(now, io) =>
      DrainKeepsInv(w, now, io);
      FlagsKeepInv(Drain(w, now, io), Tick(w, now, io));
    case CloseEnd(io) => CloseEndKeepsInv(w, io);
    case RoomIn(_) => FlagsKeepInv(w, Next(w, e));
    case CloseBegin => FlagsKeepInv(w, Next(w, e));
    case DrainExit => FlagsKeepInv(w, Next(w, e));
  }

  /** Every state of every run keeps the invariant. */
  lemma {:induction false} RunKeepsInv(w: Writer, es: seq<Event>)
    requires Inv(w) && Runs(w, es)
    ensures Inv(Run(w, es))
    decreases |es|
  {
    if es != [] {
      StepKeepsInv(w, es[0]);
      RunKeepsInv(Next(w, es[0]), es[1..]);
    }
  }
}
