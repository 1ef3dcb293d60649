/** The main results about whole runs of the capture writer. */
module CaptureTheorems {
  import opened Wrappers
  import opened Pcapng
  import opened CaptureSpec
  import opened CaptureRuns

  // ----- Nothing admitted is lost or reordered -----

  lemma EnqueueAdmits(w: Writer, info: CaptureInfo, data: string, now: int)
    ensures AdmittedLines(Enqueue(w, info, data, now)) == AdmittedLines(w)
    ensures AdmittedPackets(Enqueue(w, info, data, now))
            == AdmittedPackets(w) + [Packet(StampInfo(info, |data|, now), data, now)]
  {
    var p := Packet(StampInfo(info, |data|, now), data, now);
    assert PacketsIn(Blocks(w.log)) + (w.held + [p]) == PacketsIn(Blocks(w.log)) + w.held + [p];
  }

  /** The queues and the log, which other events leave alone. */
  ghost predicate SameQueues(w: Writer, v: Writer) {
    v.log == w.log && v.pending == w.pending && v.held == w.held
  }

  lemma SameQueuesAdmit(w: Writer, v: Writer)
    requires SameQueues(w, v)
    ensures AdmittedLines(v) == AdmittedLines(w) && AdmittedPackets(v) == AdmittedPackets(w)
  {
  }

  lemma TrimAdmits(q: Writer, io: nat -> bool)
    ensures AdmittedLines(Trim(q, io)) == AdmittedLines(q) && AdmittedPackets(Trim(q, io)) == AdmittedPackets(q)
  {
    WriteHeldKeepsAdmitted(q, Release(q.held), io, Forced);
  }

  lemma PacketAdmits(w: Writer, info: CaptureInfo, data: string, now: int, io: nat -> bool)
    requires WritePacket(w, info, data, now, io).ok
    ensures var v := WritePacket(w, info, data, now, io).w;
            AdmittedLines(v) == AdmittedLines(w)
            && AdmittedPackets(v) == AdmittedPackets(w) + [Packet(StampInfo(info, |data|, now), data, now)]
  {
    var a := Admit(w, EpbSize(|data|));
    var q := Enqueue(a.w, info, data, now);
    EnqueueAdmits(a.w, info, data, now);
    SameQueuesAdmit(w, a.w);
    TrimAdmits(q, io);
  }

  lemma SecretAdmits(w: Writer, line: string)
    requires AddSecret(w, line).ok
    ensures var v := AddSecret(w, line).w;
            AdmittedLines(v) == AdmittedLines(w) + [line] && AdmittedPackets(v) == AdmittedPackets(w)
  {
    var p := LinesIn(Blocks(w.log));
    assert p + (w.pending + [line]) == p + w.pending + [line];
  }

  lemma TickAdmits(w: Writer, now: int, io: nat -> bool)
    ensures var v := Tick(w, now, io);
            AdmittedLines(v) == AdmittedLines(w) && AdmittedPackets(v) == AdmittedPackets(w)
  {
    WriteHeldKeepsAdmitted(w.(clock := now), DueCount(w.held, now - HOLD_WINDOW), io, Due(now));
    SameQueuesAdmit(w, w.(clock := now));
    SameQueuesAdmit(Drain(w, now, io), Tick(w, now, io));
  }

  lemma CloseEndAdmits(w: Writer, io: nat -> bool)
    ensures var v := FinishClose(w, io);
            AdmittedLines(v) == AdmittedLines(w) && AdmittedPackets(v) == AdmittedPackets(w)
  {
    if !w.closed {
      WriteHeldKeepsAdmitted(w, |w.held|, io, Final);
      SameQueuesAdmit(WriteHeld(w, |w.held|, io, Final), FinishClose(w, io));
    }
  }

  lemma StepAdmits(w: Writer, e: Event)
    ensures AdmittedLines(Next(w, e)) == AdmittedLines(w) + AcceptedLine(w, e)
    ensures AdmittedPackets(Next(w, e)) == AdmittedPackets(w) + AcceptedPacket(w, e)
  {
    if e.PacketIn? && Outcome(w, e).ok {
      PacketAdmits(w, e.info, e.data, e.now, e.io);
    } else if e.SecretIn? && Outcome(w, e).ok {
      SecretAdmits(w, e.line);
    } else if e.TickAt? {
      TickAdmits(w, e.now, e.io);
    } else if e.CloseEnd? {
      CloseEndAdmits(w, e.io);
    } else {
      SameQueuesAdmit(w, Next(w, e));
    }
  }

  /** What the writer has admitted is what its callers handed over and were not refused, in
      their order. */
  lemma {:induction false} RunAdmits(w: Writer, es: seq<Event>)
    ensures AdmittedLines(Run(w, es)) == AdmittedLines(w) + AcceptedLines(w, es)
    ensures AdmittedPackets(Run(w, es)) == AdmittedPackets(w) + AcceptedPackets(w, es)
    decreases |es|
  {
    if es != [] {
      StepAdmits(w, es[0]);
      var v := Next(w, es[0]);
      RunAdmits(v, es[1..]);
      Associative(AdmittedLines(w), AcceptedLine(w, es[0]), AcceptedLines(v, es[1..]));
      Associative(AdmittedPackets(w), AcceptedPacket(w, es[0]), AcceptedPackets(v, es[1..]));
    }
  }

  // ----- Keys ahead of packets -----

  /** From position `base` on, every packet comes after the k-th line. */
  ghost predicate Leads(log: seq<Attempt>, base: nat, k: nat) {
    forall q :: base <= q < |log| && log[q].block.Frame? ==> k < |LinesIn(Blocks(log[..q]))|
  }

  /** Up to one of the packets it writes, a call's log is that of a call that writes fewer. */
  lemma WriteHeldPrefix(w: Writer, n: nat, io: nat -> bool, cause: Cause, m: nat)
    requires m <= n <= |w.held|
    ensures var q := |w.log| + |SecretsAttempts(w.pending, w.open, io, cause)| + m;
            q <= |WriteHeld(w, n, io, cause).log|
            && WriteHeld(w, n, io, cause).log[..q] == WriteHeld(w, m, io, cause).log
  {
    assert w.held[..n][..m] == w.held[..m];
  }

  /** All admitted lines come before any of the packets it writes. */
  lemma LinesBefore(w: Writer, n: nat, io: nat -> bool, cause: Cause, m: nat)
    requires m <= n <= |w.held|
    ensures var q := |w.log| + |SecretsAttempts(w.pending, w.open, io, cause)| + m;
            q <= |WriteHeld(w, n, io, cause).log|
            && LinesIn(Blocks(WriteHeld(w, n, io, cause).log[..q])) == AdmittedLines(w)
  {
    WriteHeldPrefix(w, n, io, cause, m);
    WriteHeldCarriesLines(w, m, io, cause);
  }

  lemma WriteHeldLeads(w: Writer, n: nat, io: nat -> bool, cause: Cause, base: nat, k: nat)
    requires n <= |w.held| && base <= |w.log|
    requires Leads(w.log, base, k) && k < |AdmittedLines(w)|
    ensures Leads(WriteHeld(w, n, io, cause).log, base, k)
  {
    var log := WriteHeld(w, n, io, cause).log;
    var s := |w.log| + |SecretsAttempts(w.pending, w.open, io, cause)|;
    forall q | base <= q < |log| && log[q].block.Frame? ensures k < |LinesIn(Blocks(log[..q]))| {
      if q < |w.log| {
        assert log[..q] == w.log[..q];
      } else {
        assert q >= s;
        LinesBefore(w, n, io, cause, q - s);
      }
    }
  }

  ghost predicate Extends(log: seq<Attempt>, longer: seq<Attempt>) {
    |log| <= |longer| && longer[..|log|] == log
  }

  lemma WriteHeldExtends(w: Writer, n: nat, io: nat -> bool, cause: Cause)
    requires n <= |w.held|
    ensures Extends(w.log, WriteHeld(w, n, io, cause).log)
  {
  }

  lemma TrimLeads(q: Writer, io: nat -> bool, base: nat, k: nat)
    requires base <= |q.log| && Leads(q.log, base, k) && k < |AdmittedLines(q)|
    ensures Leads(Trim(q, io).log, base, k) && Extends(q.log, Trim(q, io).log)
  {
    WriteHeldLeads(q, Release(q.held), io, Forced, base, k);
    WriteHeldExtends(q, Release(q.held), io, Forced);
  }

  lemma PacketLeads(w: Writer, info: CaptureInfo, data: string, now: int, io: nat -> bool, base: nat, k: nat)
    requires base <= |w.log| && Leads(w.log, base, k) && k < |AdmittedLines(w)|
    requires WritePacket(w, info, data, now, io).ok
    ensures var v := WritePacket(w, info, data, now, io).w; Leads(v.log, base, k) && Extends(w.log, v.log)
  {
    var q := Enqueue(Admit(w, EpbSize(|data|)).w, info, data, now);
    assert q.log == w.log && q.pending == w.pending;
    TrimLeads(q, io, base, k);
  }

  lemma TickLeads(w: Writer, now: int, io: nat -> bool, base: nat, k: nat)
    requires base <= |w.log| && Leads(w.log, base, k) && k < |AdmittedLines(w)|
    ensures var v := Tick(w, now, io); Leads(v.log, base, k) && Extends(w.log, v.log)
  {
    var c, n := w.(clock := now), DueCount(w.held, now - HOLD_WINDOW);
    assert AdmittedLines(c) == AdmittedLines(w);
    WriteHeldLeads(c, n, io, Due(now), base, k);
    WriteHeldExtends(c, n, io, Due(now));
    assert Tick(w, now, io).log == WriteHeld(c, n, io, Due(now)).log;
  }

  lemma CloseEndLeads(w: Writer, io: nat -> bool, base: nat, k: nat)
    requires base <= |w.log| && Leads(w.log, base, k) && k < |AdmittedLines(w)|
    ensures var v := FinishClose(w, io); Leads(v.log, base, k) && Extends(w.log, v.log)
  {
    WriteHeldLeads(w, |w.held|, io, Final, base, k);
    WriteHeldExtends(w, |w.held|, io, Final);
  }

  lemma StepLeads(w: Writer, e: Event, base: nat, k: nat)
    requires base <= |w.log| && Leads(w.log, base, k) && k < |AdmittedLines(w)|
    ensures Leads(Next(w, e).log, base, k) && Extends(w.log, Next(w, e).log)
  {
    if e.PacketIn? && Outcome(w, e).ok {
      PacketLeads(w, e.info, e.data, e.now, e.io, base, k);
    } else if e.TickAt? {
      TickLeads(w, e.now, e.io, base, k);
    } else if e.CloseEnd? {
      CloseEndLeads(w, e.io, base, k);
    } else {
      assert Next(w, e).log == w.log;
    }
  }

  lemma {:induction false} RunLeads(w: Writer, es: seq<Event>, base: nat, k: nat)
    requires base <= |w.log| && Leads(w.log, base, k) && k < |AdmittedLines(w)|
    ensures Leads(Run(w, es).log, base, k) && Extends(w.log, Run(w, es).log)
    decreases |es|
  {
    if es != [] {
      StepLeads(w, es[0], base, k);
      StepAdmits(w, es[0]);
      RunLeads(Next(w, es[0]), es[1..], base, k);
    }
  }

  /** The block that holds the k-th line. */
  lemma {:induction false} FindLine(blocks: seq<Block>, k: nat) returns (d: nat)
    requires k < |LinesIn(blocks)|
    ensures d < |blocks| && blocks[d].Secrets?
    ensures |LinesIn(blocks[..d])| <= k < |LinesIn(blocks[..d + 1])|
    ensures LinesIn(blocks)[k] in blocks[d].lines
  {
    var n := |blocks| - 1;
    assert blocks == blocks[..n] + [blocks[n]];
    LinesInConcat(blocks[..n], [blocks[n]]);
    if k < |LinesIn(blocks[..n])| {
      d := FindLine(blocks[..n], k);
      assert blocks[..n][..d] == blocks[..d] && blocks[..n][..d + 1] == blocks[..d + 1];
    } else {
      d := n;
      assert blocks[..n + 1] == blocks;
      var lines := LinesIn([blocks[n]]);
      assert LinesIn([blocks[n]][1..]) == [];
      assert LinesIn(blocks)[k] == lines[k - |LinesIn(blocks[..n])|];
    }
  }

  /** An admitted line is in a secrets block that comes before every packet block logged from
      then on: ahead of every packet still held when it arrived and of every later one. */
  lemma KeyLeadsLaterPackets(w: Writer, line: string, es: seq<Event>, q: nat) returns (d: nat)
    requires AddSecret(w, line).ok
    requires var v := Run(AddSecret(w, line).w, es); |w.log| <= q < |v.log| && v.log[q].block.Frame?
    ensures var v := Run(AddSecret(w, line).w, es);
            |w.log| <= d < q && v.log[d].block.Secrets? && line in v.log[d].block.lines
  {
    var a := AddSecret(w, line).w;
    var v := Run(a, es);
    var k := |AdmittedLines(w)|;
    SecretAdmits(w, line);
    RunLeads(a, es, |w.log|, k);
    RunAdmits(a, es);
    var front := Blocks(v.log[..q]);
    d := FindLine(front, k);
    assert LinesIn(front)[k] == line by {
      LogPrefixLines(v.log, q);
      assert AdmittedLines(v)[k] == line;
    }
    LaterBlock(w.log, v.log, q, d, k);
  }

  /** A block whose lines reach past the shorter log's is not in the shorter log. */
  lemma LaterBlock(log: seq<Attempt>, longer: seq<Attempt>, q: nat, d: nat, k: nat)
    requires Extends(log, longer) && |log| <= q <= |longer| && d < q
    requires |LinesIn(Blocks(log))| <= k < |LinesIn(Blocks(longer[..q])[..d + 1])|
    ensures |log| <= d
  {
    if d < |log| {
      assert Blocks(longer[..q])[..d + 1] == Blocks(log[..d + 1]);
      LogPrefixLines(log, d + 1);
    }
  }

  lemma LogPrefixLines(log: seq<Attempt>, q: nat)
    requires q <= |log|
    ensures |LinesIn(Blocks(log[..q]))| <= |LinesIn(Blocks(log))|
    ensures LinesIn(Blocks(log))[..|LinesIn(Blocks(log[..q]))|] == LinesIn(Blocks(log[..q]))
  {
    assert Blocks(log) == Blocks(log[..q]) + Blocks(log[q..]);
    LinesInConcat(Blocks(log[..q]), Blocks(log[q..]));
  }

  /** Every packet already written when a line arrives at time t was received at least a hold
      window earlier or was forced out by the cap, as long as the file is open. */
  lemma WrittenPacketsAreOld(w: Writer, t: int, q: nat)
    requires Inv(w) && !w.closed && w.clock <= t
    requires q < |w.log| && w.log[q].block.Frame?
    ensures w.log[q].block.packet.at <= t - HOLD_WINDOW || w.log[q].cause == Forced
  {
    assert CauseOk(w, w.log[q]);
  }

  /** Log order is file order: of two blocks that reached the file, the one logged first
      comes first. */
  lemma LogOrderIsFileOrder(log: seq<Attempt>, d: nat, q: nat)
    requires d < q < |log| && log[d].ok && log[q].ok
    ensures var i, j := |Written(log[..d])|, |Written(log[..q])|;
            i < j < |Written(log)| && Written(log)[i] == log[d].block && Written(log)[j] == log[q].block
  {
    WrittenAt(log, d);
    WrittenAt(log, q);
    WrittenAt(log[..q], d);
    assert log[..q][..d] == log[..d];
  }

  lemma WrittenAt(log: seq<Attempt>, d: nat)
    requires d < |log| && log[d].ok
    ensures var i := |Written(log[..d])|; i < |Written(log)| && Written(log)[i] == log[d].block
  {
    assert log == log[..d] + log[d..];
    WrittenConcat(log[..d], log[d..]);
    assert Written(log[d..])[0] == log[d].block;
  }

  /** In any run, a line admitted at time t while the file is open precedes, in the log
      of writes and in the file itself, every packet received less than a hold window before t that the cap had not
      already forced out, and every later packet. */
  lemma KeyLeadsRecentPackets(path: string, header: nat, room: int, start: int,
                              before: seq<Event>, line: string, t: int, after: seq<Event>, q: nat)
    returns (d: nat)
    requires Runs(Init(path, header, room, start), before)
    requires var w := Run(Init(path, header, room, start), before);
             && !w.closed && w.clock <= t && AddSecret(w, line).ok
             && var v := Run(AddSecret(w, line).w, after);
                && q < |v.log| && v.log[q].block.Frame?
                && v.log[q].block.packet.at > t - HOLD_WINDOW
                && !(q < |w.log| && v.log[q].cause == Forced)
    ensures var w := Run(Init(path, header, room, start), before);
            var v := Run(AddSecret(w, line).w, after);
            && d < q && v.log[d].block.Secrets? && line in v.log[d].block.lines
            && (v.log[d].ok && v.log[q].ok ==>
                  var i, j := |Written(v.log[..d])|, |Written(v.log[..q])|;
                  && i < j < |Written(v.log)|
                  && Written(v.log)[i] == v.log[d].block && Written(v.log)[j] == v.log[q].block)
  {
    var w := Run(Init(path, header, room, start), before);
    InitInv(path, header, room, start);
    RunKeepsInv(Init(path, header, room, start), before);
    if q < |w.log| {
      SecretAdmits(w, line);
      RunLeads(AddSecret(w, line).w, after, |w.log|, |AdmittedLines(w)|);
      WrittenPacketsAreOld(w, t, q);
    }
    d := KeyLeadsLaterPackets(w, line, after, q);
    var log := Run(AddSecret(w, line).w, after).log;
    if log[d].ok && log[q].ok {
      LogOrderIsFileOrder(log, d, q);
    }
  }

  // ----- Stopping -----

  /** Nothing is admitted, refused or stopped. */
  ghost predicate Quiet(w: Writer, a: Admission) {
    && a.w.stopped == w.stopped && a.w.admitted == w.admitted && a.w.limited == w.limited
    && a.stop.None? && !a.ok
  }

  /** Ticks, room changes and the parts of Close are quiet. */
  lemma QuietStep(w: Writer, e: Event)
    requires !e.PacketIn? && !e.SecretIn?
    ensures Quiet(w, Outcome(w, e)) && (!e.RoomIn? ==> Next(w, e).room == w.room)
  {
    match e
    case TickAt(now, io) => assert Quiet(w, Outcome(w, e)) && Next(w, e).room == w.room;
    case CloseEnd(io) => assert Quiet(w, Outcome(w, e)) && Next(w, e).room == w.room;
    case RoomIn(_) => assert Quiet(w, Outcome(w, e));
    case CloseBegin => assert Quiet(w, Outcome(w, e));
    case DrainExit => assert Quiet(w, Outcome(w, e));
  }

  lemma PacketStop(w: Writer, info: CaptureInfo, data: string, now: int, io: nat -> bool)
    ensures var a := WritePacket(w, info, data, now, io); var n := EpbSize(|data|);
            a.ok == Admit(w, n).ok && a.stop == Admit(w, n).stop
            && a.w.stopped == Admit(w, n).w.stopped && a.w.admitted == Admit(w, n).w.admitted
            && a.w.limited == w.limited && a.w.room == w.room
  {
  }

  lemma StepFromStopped(w: Writer, e: Event)
    requires w.stopped
    ensures Next(w, e).stopped && Next(w, e).admitted == w.admitted
    ensures Outcome(w, e).stop.None? && AcceptedLine(w, e) == [] && AcceptedPacket(w, e) == []
  {
    if e.PacketIn? {
      PacketStop(w, e.info, e.data, e.now, e.io);
    } else if !e.SecretIn? {
      QuietStep(w, e);
    }
  }

  lemma StepFromRunning(w: Writer, e: Event)
    requires !w.stopped
    ensures Outcome(w, e).stop.Some? <==> Next(w, e).stopped
    ensures Next(w, e).stopped ==> Outcome(w, e).stop.value == Stop(w.path, w.admitted, w.room)
                                   && Next(w, e).admitted == w.admitted
  {
    if e.PacketIn? {
      PacketStop(w, e.info, e.data, e.now, e.io);
    } else if !e.SecretIn? {
      QuietStep(w, e);
    }
  }

  /** A stop is final: from a stopped writer no run admits anything or issues another Stop. */
  lemma {:induction false} StoppedForGood(w: Writer, es: seq<Event>)
    requires w.stopped
    ensures Run(w, es).stopped && Run(w, es).admitted == w.admitted
    ensures StopsIssued(w, es) == [] && AcceptedLines(w, es) == [] && AcceptedPackets(w, es) == []
    decreases |es|
  {
    if es != [] {
      StepFromStopped(w, es[0]);
      StoppedForGood(Next(w, es[0]), es[1..]);
    }
  }

  /** A stop is unique: a run issues one Stop if it ends stopped and none otherwise, and that
      Stop bounds the file for as long as the run goes on. */
  lemma {:induction false} StopIsUnique(w: Writer, es: seq<Event>)
    requires Inv(w) && Runs(w, es) && !w.stopped
    ensures |StopsIssued(w, es)| == if Run(w, es).stopped then 1 else 0
    ensures Run(w, es).stopped ==> FileBytes(Run(w, es)) <= StopsIssued(w, es)[0].bytes == Run(w, es).admitted
    decreases |es|
  {
    if es != [] {
      StepFromRunning(w, es[0]);
      var v := Next(w, es[0]);
      StepKeepsInv(w, es[0]);
      if v.stopped {
        StoppedForGood(v, es[1..]);
        RunKeepsInv(v, es[1..]);
      } else {
        StopIsUnique(v, es[1..]);
      }
    }
  }

  /** The block an event asks to admit. */
  function AskedBytes(e: Event): nat {
    match e
    case PacketIn(_, data, _, _) => EpbSize(|data|)
    case SecretIn(line) => DsbSize(|line| + 1)
    case _ => 0
  }

  /** Exactly when a packet or a non-empty line is accepted, what is then counted for it, and
      what a refusal of a running capture reports. */
  lemma AcceptedIff(w: Writer, e: Event)
    requires e.PacketIn? || (e.SecretIn? && e.line != [])
    ensures Outcome(w, e).ok <==> !w.stopped && (w.limited ==> w.admitted + AskedBytes(e) <= w.room)
    ensures Next(w, e).admitted == w.admitted + if Outcome(w, e).ok then AskedBytes(e) else 0
    ensures !w.stopped && !Outcome(w, e).ok ==> Outcome(w, e).stop == Some(Stop(w.path, w.admitted, w.room))
  {
    if e.PacketIn? {
      PacketStop(w, e.info, e.data, e.now, e.io);
    }
  }

  /** A room given to a limited, running capture decides the next admission. */
  lemma GivenRoomDecides(w: Writer, room: int, e: Event)
    requires w.limited && !w.stopped && (e.PacketIn? || (e.SecretIn? && e.line != []))
    ensures Outcome(Next(w, RoomIn(room)), e).ok <==> w.admitted + AskedBytes(e) <= room
    ensures !Outcome(Next(w, RoomIn(room)), e).ok ==>
              Outcome(Next(w, RoomIn(room)), e).stop == Some(Stop(w.path, w.admitted, room))
  {
    AcceptedIff(Next(w, RoomIn(room)), e);
  }

  lemma StepCounts(w: Writer, e: Event)
    ensures Next(w, e).admitted == w.admitted + LineBytes(AcceptedLine(w, e)) + FrameBytes(AcceptedPacket(w, e))
  {
    if e.PacketIn? || (e.SecretIn? && e.line != []) {
      AcceptedIff(w, e);
      var lines, packets := AcceptedLine(w, e), AcceptedPacket(w, e);
      assert lines != [] ==> lines[1..] == [];
      assert packets != [] ==> packets[1..] == [];
    } else if !e.SecretIn? {
      QuietStep(w, e);
    }
  }

  /** What a run has counted against the room is what it accepted, each line as a block of its
      own. */
  lemma {:induction false} RunCounts(w: Writer, es: seq<Event>)
    ensures Run(w, es).admitted
            == w.admitted + LineBytes(AcceptedLines(w, es)) + FrameBytes(AcceptedPackets(w, es))
    decreases |es|
  {
    if es != [] {
      var v := Next(w, es[0]);
      StepCounts(w, es[0]);
      RunCounts(v, es[1..]);
      LineBytesConcat(AcceptedLine(w, es[0]), AcceptedLines(v, es[1..]));
      FrameBytesConcat(AcceptedPacket(w, es[0]), AcceptedPackets(v, es[1..]));
    }
  }

  /** The packets and the non-empty lines of a run, refused or not. */
  function OfferedPackets(es: seq<Event>): seq<Packet> {
    if es == [] then []
    else (if es[0].PacketIn?
          then [Packet(StampInfo(es[0].info, |es[0].data|, es[0].now), es[0].data, es[0].now)] else [])
         + OfferedPackets(es[1..])
  }

  function OfferedLines(es: seq<Event>): seq<string> {
    if es == [] then []
    else (if es[0].SecretIn? && es[0].line != [] then [es[0].line] else []) + OfferedLines(es[1..])
  }

  lemma UnlimitedStep(w: Writer, e: Event)
    requires !w.limited && !w.stopped
    ensures !Next(w, e).limited && !Next(w, e).stopped && Outcome(w, e).stop.None?
    ensures AcceptedPacket(w, e) == OfferedPackets([e]) && AcceptedLine(w, e) == OfferedLines([e])
  {
    assert [e][1..] == [];
    if e.PacketIn? || (e.SecretIn? && e.line != []) {
      AcceptedIff(w, e);
      StepFromRunning(w, e);
    } else if !e.SecretIn? {
      QuietStep(w, e);
    }
    if e.PacketIn? {
      PacketStop(w, e.info, e.data, e.now, e.io);
    }
  }

  /** A capture given no room, or less than none, has no limit: whatever room it is given later it
      never stops, and it accepts every packet and every non-empty line. */
  lemma {:induction false} UnlimitedNeverStops(w: Writer, es: seq<Event>)
    requires !w.limited && !w.stopped
    ensures !Run(w, es).stopped && StopsIssued(w, es) == []
    ensures AcceptedPackets(w, es) == OfferedPackets(es) && AcceptedLines(w, es) == OfferedLines(es)
    decreases |es|
  {
    if es != [] {
      UnlimitedStep(w, es[0]);
      assert [es[0]][1..] == [];
      UnlimitedNeverStops(Next(w, es[0]), es[1..]);
    }
  }

  lemma NoRoomIsNoLimit(path: string, header: nat, room: int, start: int, es: seq<Event>)
    ensures room <= 0 ==>
              var init := Init(path, header, room, start);
              && !Run(init, es).stopped
              && AcceptedPackets(init, es) == OfferedPackets(es) && AcceptedLines(init, es) == OfferedLines(es)
    ensures room > 0 ==>
              exists later :: Run(Init(path, header, room, start), later).stopped
  {
    var init := Init(path, header, room, start);
    if room <= 0 {
      UnlimitedNeverStops(init, es);
    } else {
      var e := PacketIn(CaptureInfo(None, 0, 0, 0), seq(room, _ => 'x'), start, i => true);
      AcceptedIff(init, e);
      StepFromRunning(init, e);
      assert [e][1..] == [] && Run(Next(init, e), []) == Next(init, e);
      assert Run(init, [e]).stopped;
    }
  }

  ghost predicate WithinRoom(w: Writer) { w.limited ==> w.admitted <= w.room }

  ghost predicate RoomsOnlyGrow(w: Writer, es: seq<Event>)
    decreases |es|
  {
    es == [] || ((es[0].RoomIn? ==> es[0].room >= w.room) && RoomsOnlyGrow(Next(w, es[0]), es[1..]))
  }

  lemma StepKeepsWithinRoom(w: Writer, e: Event)
    requires WithinRoom(w) && (e.RoomIn? ==> e.room >= w.room)
    ensures WithinRoom(Next(w, e))
  {
    if e.PacketIn? {
      PacketStop(w, e.info, e.data, e.now, e.io);
    } else if !e.SecretIn? {
      QuietStep(w, e);
    }
  }

  lemma StopIsTightStep(w: Writer, e: Event)
    requires WithinRoom(w) && Outcome(w, e).stop.Some?
    ensures var s := Outcome(w, e).stop.value; s.bytes <= s.room < s.bytes + AskedBytes(e)
  {
    if e.PacketIn? {
      PacketStop(w, e.info, e.data, e.now, e.io);
    } else if !e.SecretIn? {
      QuietStep(w, e);
    }
  }

  /** With a first room that covers the header and rooms that never shrink, the Stop of a run
      is issued for the block refused at i, and reports a room that what was admitted fits
      and that block would have passed. */
  lemma {:induction false} StopIsTight(w: Writer, es: seq<Event>) returns (i: nat)
    requires WithinRoom(w) && RoomsOnlyGrow(w, es) && StopsIssued(w, es) != []
    ensures i < |es|
    ensures Outcome(Run(w, es[..i]), es[i]).stop == Some(StopsIssued(w, es)[0])
    ensures var s := StopsIssued(w, es)[0]; s.bytes <= s.room < s.bytes + AskedBytes(es[i])
    decreases |es|
  {
    if Outcome(w, es[0]).stop.Some? {
      StopIsTightStep(w, es[0]);
      i := 0;
      assert es[..0] == [];
    } else {
      StepKeepsWithinRoom(w, es[0]);
      var j := StopIsTight(Next(w, es[0]), es[1..]);
      i := j + 1;
      assert es[..i][0] == es[0] && es[..i][1..] == es[1..][..j];
    }
  }

  // ----- The cap -----

  /** An accepted packet is queued last, and the least number of oldest packets that brings the
      queue to 32 MiB or less is written at once, behind every pending line; if that is none,
      nothing is written. */
  lemma PacketReleasesLeast(w: Writer, info: CaptureInfo, data: string, now: int, io: nat -> bool) returns (n: nat)
    requires WritePacket(w, info, data, now, io).ok
    ensures n <= |w.held| + 1
    ensures var queue := w.held + [Packet(StampInfo(info, |data|, now), data, now)];
            var v := WritePacket(w, info, data, now, io).w;
            && v.held == queue[n..]
            && PacketsIn(Blocks(v.log)) == PacketsIn(Blocks(w.log)) + queue[..n]
            && DataBytes(queue[n..]) <= 33_554_432
            && (forall m :: 0 <= m < n ==> DataBytes(queue[m..]) > 33_554_432)
            && (if n == 0 then v.log == w.log && v.pending == w.pending
                else v.pending == [] && LinesIn(Blocks(v.log)) == AdmittedLines(w))
  {
    var q := Enqueue(Admit(w, EpbSize(|data|)).w, info, data, now);
    assert q.log == w.log && q.pending == w.pending;
    n := TrimLeast(q, io);
  }

  lemma TrimLeast(q: Writer, io: nat -> bool) returns (n: nat)
    ensures n <= |q.held|
    ensures var v := Trim(q, io);
            && v.held == q.held[n..]
            && PacketsIn(Blocks(v.log)) == PacketsIn(Blocks(q.log)) + q.held[..n]
            && DataBytes(q.held[n..]) <= 33_554_432
            && (forall m :: 0 <= m < n ==> DataBytes(q.held[m..]) > 33_554_432)
            && (if n == 0 then v.log == q.log && v.pending == q.pending
                else v.pending == [] && LinesIn(Blocks(v.log)) == AdmittedLines(q))
  {
    n := Release(q.held);
    ReleaseIsLeast(q.held);
    WriteHeldCarriesPackets(q, n, io, Forced);
    WriteHeldCarriesLines(q, n, io, Forced);
    if n == 0 {
      assert q.held[..0] == [] && q.held[0..] == q.held;
    }
  }

  /** A packet counts as forced out only when the queue, with the one just received, was over
      32 MiB. */
  lemma ForcedMeansOverCap(w: Writer, e: Event, q: nat)
    requires |w.log| <= q < |Next(w, e).log| && Next(w, e).log[q].cause == Forced
    ensures e.PacketIn? && DataBytes(w.held) + |e.data| > 33_554_432
  {
    if e.PacketIn? {
      ForcedPacket(w, e.info, e.data, e.now, e.io);
    }
  }

  lemma ForcedPacket(w: Writer, info: CaptureInfo, data: string, now: int, io: nat -> bool)
    requires WritePacket(w, info, data, now, io).w.log != w.log
    ensures DataBytes(w.held) + |data| > 33_554_432
  {
    var p := Packet(StampInfo(info, |data|, now), data, now);
    var n := PacketReleasesLeast(w, info, data, now, io);
    assert (w.held + [p])[0..] == w.held + [p];
    DataBytesConcat(w.held, [p]);
    assert DataBytes([p]) == |data| by { assert [p][1..] == []; }
  }

  // ----- Draining -----

  /** A tick writes exactly the packets whose hold window of a second has ended and keeps the
      rest. */
  lemma TickWritesTheDue(w: Writer, now: int, io: nat -> bool)
    requires Inv(w)
    ensures var v := Tick(w, now, io); var cutoff := now - 1_000_000_000;
            && v.held == WaitingPackets(w.held, cutoff)
            && PacketsIn(Blocks(v.log)) == PacketsIn(Blocks(w.log)) + DuePackets(w.held, cutoff)
            && LinesIn(Blocks(v.log)) == AdmittedLines(w) && v.pending == []
  {
    var c, n := w.(clock := now), DueCount(w.held, now - HOLD_WINDOW);
    FrontScanIsFilter(w.held, now - HOLD_WINDOW);
    WriteHeldCarriesPackets(c, n, io, Due(now));
    WriteHeldCarriesLines(c, n, io, Due(now));
    assert SameQueues(WriteHeld(c, n, io, Due(now)), Tick(w, now, io));
    assert AdmittedLines(c) == AdmittedLines(w);
  }

  /** Once stopped, a tick after the last hold window ends empties the queue and closes the file. */
  lemma LastTickCloses(w: Writer, now: int, io: nat -> bool)
    requires Inv(w) && w.stopped && w.draining
    requires forall i :: 0 <= i < |w.held| ==> w.held[i].at + HOLD_WINDOW <= now
    ensures var v := Tick(w, now, io); v.held == [] && v.pending == [] && v.closed && !v.open && v.closes == 1
  {
    AllDue(w.held, now - HOLD_WINDOW);
    assert Drain(w, now, io).held == [];
  }

  lemma {:induction false} AllDue(held: seq<Packet>, cutoff: int)
    requires forall i :: 0 <= i < |held| ==> held[i].at <= cutoff
    ensures DueCount(held, cutoff) == |held|
  {
    if held != [] {
      AllDue(held[1..], cutoff);
    }
  }
}
