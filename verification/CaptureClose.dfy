/** What a closed or cut capture holds. */
module CaptureClose {
  import opened Wrappers
  import opened Pcapng
  import opened CaptureSpec
  import opened CaptureRuns
  import opened CaptureTheorems

  // ----- No write errors -----

  ghost predicate AllTrue(io: nat -> bool) { forall i :: io(i) }

  /** An event none of whose block writes fails. */
  ghost predicate Clean(e: Event) {
    match e
    case PacketIn(_, _, _, io) => AllTrue(io)
    case TickAt(_, io) => AllTrue(io)
    case CloseEnd(io) => AllTrue(io)
    case _ => true
  }

  ghost predicate AllClean(es: seq<Event>) { forall i :: 0 <= i < |es| ==> Clean(es[i]) }

  ghost predicate AllOk(log: seq<Attempt>) { forall i :: 0 <= i < |log| ==> log[i].ok }

  lemma {:induction false} AllOkIsWritten(log: seq<Attempt>)
    requires AllOk(log)
    ensures Written(log) == Blocks(log)
  {
    if log != [] {
      AllOkIsWritten(log[1..]);
      assert Blocks(log) == [log[0].block] + Blocks(log[1..]);
    }
  }

  lemma WriteHeldClean(w: Writer, n: nat, io: nat -> bool, cause: Cause)
    requires n <= |w.held| && w.open && AllTrue(io) && AllOk(w.log)
    ensures AllOk(WriteHeld(w, n, io, cause).log)
  {
    assert io(0);
  }

  lemma CleanPacket(w: Writer, info: CaptureInfo, data: string, now: int, io: nat -> bool)
    requires w.open && AllOk(w.log) && AllTrue(io)
    ensures AllOk(WritePacket(w, info, data, now, io).w.log)
  {
    var a := Admit(w, EpbSize(|data|));
    if a.ok {
      var q := Enqueue(a.w, info, data, now);
      WriteHeldClean(q, Release(q.held), io, Forced);
    }
  }

  lemma CleanTick(w: Writer, now: int, io: nat -> bool)
    requires w.open && AllOk(w.log) && AllTrue(io)
    ensures AllOk(Tick(w, now, io).log)
  {
    WriteHeldClean(w.(clock := now), DueCount(w.held, now - HOLD_WINDOW), io, Due(now));
  }

  lemma CleanClose(w: Writer, io: nat -> bool)
    requires w.open && AllOk(w.log) && AllTrue(io)
    ensures AllOk(FinishClose(w, io).log)
  {
    WriteHeldClean(w, |w.held|, io, Final);
  }

  lemma CleanStep(w: Writer, e: Event)
    requires w.open && !w.closed && AllOk(w.log) && Clean(e)
    ensures AllOk(Next(w, e).log)
  {
    match e
    case PacketIn(info, data, now, io) => CleanPacket(w, info, data, now, io);
    case TickAt(now, io) => CleanTick(w, now, io);
    case CloseEnd(io) => CleanClose(w, io);
    case SecretIn(_) => assert Next(w, e).log == w.log;
    case RoomIn(_) => assert Next(w, e).log == w.log;
    case CloseBegin => assert Next(w, e).log == w.log;
    case DrainExit => assert Next(w, e).log == w.log;
  }

  lemma {:induction false} CleanRun(w: Writer, es: seq<Event>)
    requires Inv(w) && Runs(w, es) && AllOk(w.log) && AllClean(es) && !Run(w, es).closed
    ensures AllOk(Run(w, es).log)
    decreases |es|
  {
    if es != [] {
      if w.closed {
        StaysClosed(w, es);
      }
      CleanStep(w, es[0]);
      StepKeepsInv(w, es[0]);
      assert AllClean(es[1..]);
      CleanRun(Next(w, es[0]), es[1..]);
    }
  }

  // ----- Closed once, for good -----

  lemma ClosedWriteHeld(w: Writer, n: nat, io: nat -> bool, cause: Cause)
    requires n <= |w.held| && !w.open
    ensures Written(WriteHeld(w, n, io, cause).log) == Written(w.log)
  {
    var s := SecretsAttempts(w.pending, false, io, cause);
    var f := FrameAttempts(w.held[..n], false, io, cause);
    WrittenConcat(w.log, s);
    WrittenConcat(w.log + s, f);
    NoneWritten(s);
    NoneWritten(f);
  }

  /** A block whose write fails is not in the file: if all of a call's do, the file stays as it
      was, though queue and pending lines are gone. */
  lemma FailedWritesAreLost(w: Writer, n: nat, io: nat -> bool, cause: Cause)
    requires n <= |w.held| && forall i :: !io(i)
    ensures var v := WriteHeld(w, n, io, cause);
            Written(v.log) == Written(w.log) && v.held == w.held[n..] && v.pending == []
  {
    var s := SecretsAttempts(w.pending, w.open, io, cause);
    var f := FrameAttempts(w.held[..n], w.open, io, cause);
    WrittenConcat(w.log, s);
    WrittenConcat(w.log + s, f);
    NoneWritten(s);
    NoneWritten(f);
  }

  lemma {:induction false} NoneWritten(log: seq<Attempt>)
    requires forall i :: 0 <= i < |log| ==> !log[i].ok
    ensures Written(log) == []
  {
    if log != [] {
      NoneWritten(log[1..]);
    }
  }

  /** The file is closed and stays as it is. */
  ghost predicate Settled(w: Writer, v: Writer) {
    v.closed && !v.open && !v.draining && v.closes == w.closes && Written(v.log) == Written(w.log)
  }

  lemma ClosedPacket(w: Writer, info: CaptureInfo, data: string, now: int, io: nat -> bool)
    requires w.closed && !w.open && !w.draining
    ensures Settled(w, WritePacket(w, info, data, now, io).w)
  {
    var a := Admit(w, EpbSize(|data|));
    if a.ok {
      var q := Enqueue(a.w, info, data, now);
      ClosedWriteHeld(q, Release(q.held), io, Forced);
    }
  }

  lemma ClosedStep(w: Writer, e: Event)
    requires w.closed && !w.open && !w.draining && Enabled(w, e)
    ensures Settled(w, Next(w, e))
  {
    match e
    case PacketIn(info, data, now, io) => ClosedPacket(w, info, data, now, io);
    case SecretIn(_) => assert Settled(w, Next(w, e));
    case RoomIn(_) => assert Settled(w, Next(w, e));
    case CloseBegin => assert Settled(w, Next(w, e));
    case CloseEnd(_) => assert Settled(w, Next(w, e));
  }

  /** Once closed, by the drain or by Close, the file is never closed again and never changes. */
  lemma {:induction false} StaysClosed(w: Writer, es: seq<Event>)
    requires CloseInv(w) && w.closed && Runs(w, es)
    ensures Settled(w, Run(w, es))
    decreases |es|
  {
    if es != [] {
      ClosedStep(w, es[0]);
      StaysClosed(Next(w, es[0]), es[1..]);
    }
  }

  // ----- Complete -----

  lemma TickCloses(w: Writer, now: int, io: nat -> bool)
    requires !w.closed && Tick(w, now, io).closed
    ensures var v := Tick(w, now, io); v.held == [] && v.pending == []
  {
  }

  /** Only a tick or the end of Close closes the file. */
  lemma WhatCloses(w: Writer, e: Event)
    requires !w.closed
    ensures Next(w, e).closed ==> e.TickAt? || e.CloseEnd?
  {
    match e
    case PacketIn(info, data, now, io) => assert !Next(w, e).closed;
    case SecretIn(_) => assert !Next(w, e).closed;
    case RoomIn(_) => assert !Next(w, e).closed;
    case _ =>
  }

  /** The event that closes the file leaves nothing behind. */
  lemma ClosingStep(w: Writer, e: Event)
    requires !w.closed && Next(w, e).closed
    ensures Next(w, e).held == [] && Next(w, e).pending == []
    ensures AcceptedLine(w, e) == [] && AcceptedPacket(w, e) == []
  {
    WhatCloses(w, e);
    if e.TickAt? {
      TickCloses(w, e.now, e.io);
    } else {
      assert Next(w, e).held == [];
    }
  }

  /** Without write errors so far, the event that closes the file leaves in it everything
      that was admitted. */
  lemma ClosingHoldsAdmitted(w: Writer, e: Event)
    requires w.open && !w.closed && Next(w, e).closed && AllOk(w.log) && Clean(e)
    ensures LinesIn(Written(Next(w, e).log)) == AdmittedLines(w)
    ensures PacketsIn(Written(Next(w, e).log)) == AdmittedPackets(w)
  {
    var c := Next(w, e);
    StepAdmits(w, e);
    ClosingStep(w, e);
    CleanStep(w, e);
    AllOkIsWritten(c.log);
    assert LinesIn(Blocks(c.log)) == AdmittedLines(c);
    assert PacketsIn(Blocks(c.log)) == AdmittedPackets(c);
  }

  /** Whichever of the drain and Close closes the file, it is closed once; without write
      errors up to then it holds every packet and every line accepted before, in order of
      arrival; and no later event changes it. */
  lemma ClosedFileIsComplete(path: string, header: nat, room: int, start: int,
                             before: seq<Event>, e: Event, after: seq<Event>)
    requires Runs(Init(path, header, room, start), before + [e] + after)
    requires AllClean(before) && Clean(e)
    requires var w := Run(Init(path, header, room, start), before); !w.closed && Next(w, e).closed
    ensures var init := Init(path, header, room, start);
            var v := Run(init, before + [e] + after);
            && PacketsIn(Written(v.log)) == AcceptedPackets(init, before)
            && LinesIn(Written(v.log)) == AcceptedLines(init, before)
            && v.closed && v.closes == 1
  {
    var init := Init(path, header, room, start);
    var w := Run(init, before);
    var c := Next(w, e);
    InitInv(path, header, room, start);
    RunConcat(init, before + [e], after);
    RunConcat(init, before, [e]);
    assert Runs(w, [e]) && Run(w, [e]) == c by { assert [e][1..] == []; assert Run(c, []) == c; }
    RunKeepsInv(init, before);
    CleanRun(init, before);
    StepKeepsInv(w, e);
    StaysClosed(c, after);
    ClosedContents(init, before, e);
  }

  lemma ClosedContents(init: Writer, before: seq<Event>, e: Event)
    requires init.log == [] && init.held == [] && init.pending == []
    requires var w := Run(init, before); w.open && !w.closed && Next(w, e).closed && AllOk(w.log) && Clean(e)
    ensures var c := Next(Run(init, before), e);
            PacketsIn(Written(c.log)) == AcceptedPackets(init, before)
            && LinesIn(Written(c.log)) == AcceptedLines(init, before)
  {
    RunAdmits(init, before);
    ClosingHoldsAdmitted(Run(init, before), e);
    assert AdmittedLines(init) == [] && AdmittedPackets(init) == [] by { assert Blocks(init.log) == []; }
  }

  // ----- Why it is closed -----

  /** Exactly which events close an open file: the end of Close, and a tick that finds the
      capture stopped and the hold window of every packet ended. */
  lemma ClosesIff(w: Writer, e: Event)
    requires !w.closed
    ensures Next(w, e).closed <==>
              || e.CloseEnd?
              || (e.TickAt? && w.stopped
                  && forall i :: 0 <= i < |w.held| ==> w.held[i].at + HOLD_WINDOW <= e.now)
  {
    WhatCloses(w, e);
    if e.TickAt? {
      var cutoff := e.now - HOLD_WINDOW;
      DueCountIsDue(w.held, cutoff);
      if forall i :: 0 <= i < |w.held| ==> w.held[i].at + HOLD_WINDOW <= e.now {
        AllDue(w.held, cutoff);
      }
      assert Drain(w, e.now, e.io).held == w.held[DueCount(w.held, cutoff)..];
    }
  }

  /** A capture that never stopped is closed by Close and by nothing else. */
  lemma {:induction false} UnstoppedIsClosedByClose(w: Writer, es: seq<Event>) returns (i: nat)
    requires !w.closed && Run(w, es).closed && !Run(w, es).stopped
    ensures i < |es| && es[i].CloseEnd? && !Run(w, es[..i]).closed
    decreases |es|
  {
    var v := Next(w, es[0]);
    if v.closed {
      ClosesIff(w, es[0]);
      if w.stopped {
        StoppedForGood(w, es);
        assert false;
      }
      i := 0;
      assert es[..0] == [];
    } else {
      var j := UnstoppedIsClosedByClose(v, es[1..]);
      i := j + 1;
      assert es[..i][0] == es[0] && es[..i][1..] == es[1..][..j];
    }
  }

  /** So the first end of Close finds the file of an unstopped capture open and leaves in it,
      absent write errors, every packet and every line accepted before. */
  lemma UnstoppedFileIsComplete(path: string, header: nat, room: int, start: int,
                                before: seq<Event>, io: nat -> bool, after: seq<Event>)
    requires Runs(Init(path, header, room, start), before + [CloseEnd(io)] + after)
    requires AllClean(before) && AllTrue(io)
    requires forall i :: 0 <= i < |before| ==> !before[i].CloseEnd?
    requires !Run(Init(path, header, room, start), before).stopped
    ensures var init := Init(path, header, room, start);
            var v := Run(init, before + [CloseEnd(io)] + after);
            && !Run(init, before).closed
            && PacketsIn(Written(v.log)) == AcceptedPackets(init, before)
            && LinesIn(Written(v.log)) == AcceptedLines(init, before)
            && v.closed && v.closes == 1
  {
    var init := Init(path, header, room, start);
    if Run(init, before).closed {
      var i := UnstoppedIsClosedByClose(init, before);
      assert false;
    }
    ClosesIff(Run(init, before), CloseEnd(io));
    ClosedFileIsComplete(path, header, room, start, before, CloseEnd(io), after);
  }

  // ----- Cut anywhere -----

  /** Every packet length the reader needs is there. */
  ghost predicate Renderable(blocks: seq<Block>) {
    forall i :: 0 <= i < |blocks| ==>
      BlockSize(blocks[i]) < TWO_32 && (blocks[i].Frame? ==> blocks[i].packet.info.length >= 0)
  }

  ghost function RenderAll(blocks: seq<Block>): (r: seq<RawBlock>)
    requires Renderable(blocks)
    ensures |r| == |blocks| && forall i :: 0 <= i < |r| ==> r[i] == Render(blocks[i])
  {
    seq(|blocks|, i requires 0 <= i < |blocks| => Render(blocks[i]))
  }

  /** The bytes of a capture: the header blocks, then what the writer wrote. */
  ghost function CaptureBytes(header: seq<RawBlock>, blocks: seq<Block>): string
    requires Renderable(blocks)
  {
    Encode(header + RenderAll(blocks))
  }

  lemma {:induction false} RenderAllSize(blocks: seq<Block>)
    requires Renderable(blocks)
    ensures |Encode(RenderAll(blocks))| == BlockBytes(blocks) && AllEncodable(RenderAll(blocks))
  {
    if blocks != [] {
      RenderAllSize(blocks[1..]);
      RenderRoundTrip(blocks[0]);
      RenderedSize(blocks[0]);
      assert RenderAll(blocks)[1..] == RenderAll(blocks[1..]);
    }
  }

  /** Cut a capture at any byte: the walk recovers a prefix of header and blocks. */
  lemma CutCaptureIsPrefix(header: seq<RawBlock>, blocks: seq<Block>, n: nat) returns (m: nat)
    requires AllEncodable(header) && Renderable(blocks)
    requires n <= |CaptureBytes(header, blocks)|
    ensures m == WholeWithin(header + RenderAll(blocks), n) <= |header| + |blocks|
    ensures Walk(CaptureBytes(header, blocks)[..n]) == (header + RenderAll(blocks))[..m]
  {
    var all := header + RenderAll(blocks);
    RenderAllSize(blocks);
    assert AllEncodable(all);
    m := WholeWithin(all, n);
    WalkSurvivesCut(all, n);
  }

  /** Every recovered block after the header reads back as what the writer wrote there. */
  lemma RecoveredBlock(header: seq<RawBlock>, blocks: seq<Block>, n: nat, i: nat)
    requires AllEncodable(header) && Renderable(blocks)
    requires n <= |CaptureBytes(header, blocks)|
    requires |header| + i < |Walk(CaptureBytes(header, blocks)[..n])|
    ensures i < |blocks|
    ensures var r := Walk(CaptureBytes(header, blocks)[..n])[|header| + i];
            && ReadSecrets(r) == (if blocks[i].Secrets? then Some(SecretsPayload(blocks[i].lines)) else None)
            && ReadFrame(r) == (if blocks[i].Frame? then Some(blocks[i].packet.data) else None)
  {
    var m := CutCaptureIsPrefix(header, blocks, n);
    assert (header + RenderAll(blocks))[..m][|header| + i] == RenderAll(blocks)[i];
    RenderRoundTrip(blocks[i]);
  }

  lemma {:induction false} EncodeConcatSize(a: seq<RawBlock>, b: seq<RawBlock>)
    ensures |Encode(a + b)| == |Encode(a)| + |Encode(b)|
  {
    if a == [] {
      assert a + b == b;
    } else {
      EncodeConcatSize(a[1..], b);
      assert (a + b)[1..] == a[1..] + b && (a + b)[0] == a[0];
    }
  }

  /** The size the writer counts is the size of the bytes. */
  lemma CaptureBytesSize(header: seq<RawBlock>, w: Writer)
    requires Renderable(Written(w.log)) && w.header == |Encode(header)|
    ensures |CaptureBytes(header, Written(w.log))| == FileBytes(w)
  {
    RenderAllSize(Written(w.log));
    EncodeConcatSize(header, RenderAll(Written(w.log)));
  }

  /** The packet logged at q is recovered from the file cut to n bytes. */
  ghost predicate IsRecovered(header: seq<RawBlock>, log: seq<Attempt>, q: nat, n: nat)
    requires q < |log|
  {
    && log[q].block.Frame? && log[q].ok
    && Renderable(Written(log)) && n <= |CaptureBytes(header, Written(log))|
    && |header| + |Written(log[..q])| < |Walk(CaptureBytes(header, Written(log))[..n])|
  }

  /** In the file cut to n bytes, the secrets logged at d read back at an earlier place than
      the packet logged at q, both as they were written. */
  ghost predicate ReadsAhead(header: seq<RawBlock>, log: seq<Attempt>, d: nat, q: nat, n: nat)
    requires d < |log| && q < |log| && IsRecovered(header, log, q, n) && log[d].block.Secrets?
  {
    var walk := Walk(CaptureBytes(header, Written(log))[..n]);
    var i, j := |header| + |Written(log[..d])|, |header| + |Written(log[..q])|;
    && i < j
    && ReadSecrets(walk[i]) == Some(SecretsPayload(log[d].block.lines))
    && ReadFrame(walk[j]) == Some(log[q].block.packet.data)
  }

  /** The order of keys and packets survives any cut: if a packet is recovered, so is, at an
      earlier place, every secrets block written before it. */
  lemma CutKeepsKeysAhead(header: seq<RawBlock>, log: seq<Attempt>, d: nat, q: nat, n: nat)
    requires AllEncodable(header) && d < q < |log| && IsRecovered(header, log, q, n)
    requires log[d].ok && log[d].block.Secrets?
    ensures ReadsAhead(header, log, d, q, n)
  {
    LogOrderIsFileOrder(log, d, q);
    RecoveredBlock(header, Written(log), n, |Written(log[..d])|);
    RecoveredBlock(header, Written(log), n, |Written(log[..q])|);
  }

  /** So in what is left of a run's capture after a kill at any byte, a packet received less
      than a hold window before a key line, and not already forced out by the cap, is
      recovered only behind a secrets block with that line, as long as that block's own write
      did not fail. */
  lemma CutKeepsRecentKeys(path: string, header: seq<RawBlock>, room: int, start: int, before: seq<Event>,
                           w: Writer, line: string, t: int, after: seq<Event>, v: Writer, q: nat, n: nat)
    returns (d: nat)
    requires AllEncodable(header) && Runs(Init(path, |Encode(header)|, room, start), before)
    requires w == Run(Init(path, |Encode(header)|, room, start), before) && !w.closed && w.clock <= t
    requires AddSecret(w, line).ok && v == Run(AddSecret(w, line).w, after)
    requires q < |v.log| && IsRecovered(header, v.log, q, n)
    requires v.log[q].block.packet.at > t - HOLD_WINDOW && !(q < |w.log| && v.log[q].cause == Forced)
    ensures d < q && v.log[d].block.Secrets? && line in v.log[d].block.lines
    ensures v.log[d].ok ==> ReadsAhead(header, v.log, d, q, n)
  {
    d := KeyLeadsRecentPackets(path, |Encode(header)|, room, start, before, line, t, after, q);
    if v.log[d].ok {
      CutKeepsKeysAhead(header, v.log, d, q, n);
    }
  }
}
