/** The capture writer as a state machine over values. One event is one critical section of
    the writer's lock, so a run is any interleaving of its callers and its drain goroutine.

    Two parts of the state are history: `log`, every block handed to the pcapng writer with
    whether it reached the file and why it was written then, and `clock`, the last clock
    reading. An `io` function says which block writes of an event succeed. */
module CaptureSpec {
  import opened Wrappers
  import opened Pcapng

  const HOLD_WINDOW: int := 1_000_000_000
  const MAX_HELD_BYTES: nat := 33_554_432

  datatype Stop = Stop(path: string, bytes: int, room: int)

  /** Why a packet was written: its hold window had ended by the tick, the queue was over its
      cap, or the capture was closing. */
  datatype Cause = Due(tick: int) | Forced | Final

  datatype Attempt = Attempt(block: Block, ok: bool, cause: Cause)

  datatype Writer = Writer(
    path: string, header: nat,
    limited: bool, room: int, admitted: int, stopped: bool,
    held: seq<Packet>, heldBytes: int, pending: seq<string>,
    log: seq<Attempt>, open: bool, closed: bool, closes: nat,
    stopping: bool, draining: bool, clock: int)

  /** A new writer: the header is written and the drain goroutine started. */
  function Init(path: string, header: nat, room: int, now: int): Writer {
    Writer(path, header, room > 0, room, header, false, [], 0, [], [], true, false, 0, false, true, now)
  }

  // ----- Admission -----

  datatype Admission = Admission(w: Writer, ok: bool, stop: Option<Stop>)

  function Admit(w: Writer, n: int): Admission {
    if w.stopped then Admission(w, false, None)
    else if w.limited && w.admitted + n > w.room then
      Admission(w.(stopped := true), false, Some(Stop(w.path, w.admitted, w.room)))
    else Admission(w.(admitted := w.admitted + n), true, None)
  }

  // ----- Writing -----

  function DataBytes(packets: seq<Packet>): nat {
    if packets == [] then 0 else |packets[0].data| + DataBytes(packets[1..])
  }

  function SecretsAttempts(pending: seq<string>, open: bool, io: nat -> bool, cause: Cause): seq<Attempt> {
    if pending == [] then [] else [Attempt(Secrets(pending), open && io(0), cause)]
  }

  function FrameAttempts(packets: seq<Packet>, open: bool, io: nat -> bool, cause: Cause): (a: seq<Attempt>)
    ensures |a| == |packets|
    ensures forall i :: 0 <= i < |a| ==> a[i] == Attempt(Frame(packets[i]), open && io(i + 1), cause)
  {
    seq(|packets|, i requires 0 <= i < |packets| => Attempt(Frame(packets[i]), open && io(i + 1), cause))
  }

  /** The pending secrets as one block, then the n oldest held packets. */
  function WriteHeld(w: Writer, n: nat, io: nat -> bool, cause: Cause): Writer
    requires n <= |w.held|
  {
    w.(log := w.log + SecretsAttempts(w.pending, w.open, io, cause) + FrameAttempts(w.held[..n], w.open, io, cause),
       pending := [],
       held := w.held[n..],
       heldBytes := w.heldBytes - DataBytes(w.held[..n]))
  }

  // ----- The two entry points -----

  function StampInfo(info: CaptureInfo, size: nat, now: int): CaptureInfo {
    CaptureInfo(
      if info.timestamp.None? then Some(now) else info.timestamp,
      if info.captureLength == 0 then size else info.captureLength,
      if info.length == 0 then size else info.length,
      0)
  }

  /** How many of the oldest packets go when the queue is over its cap. */
  function Release(held: seq<Packet>): (n: nat)
    ensures n <= |held|
  {
    if DataBytes(held) <= MAX_HELD_BYTES then 0 else 1 + Release(held[1..])
  }

  function Enqueue(w: Writer, info: CaptureInfo, data: string, now: int): Writer {
    w.(held := w.held + [Packet(StampInfo(info, |data|, now), data, now)],
       heldBytes := w.heldBytes + |data|,
       clock := now)
  }

  /** Over its cap, the queue writes its oldest packets at once. */
  function Trim(w: Writer, io: nat -> bool): Writer {
    var n := Release(w.held);
    if n == 0 then w else WriteHeld(w, n, io, Forced)
  }

  function WritePacket(w: Writer, info: CaptureInfo, data: string, now: int, io: nat -> bool): Admission {
    var a := Admit(w, EpbSize(|data|));
    if !a.ok then a else Admission(Trim(Enqueue(a.w, info, data, now), io), true, None)
  }

  function AddSecret(w: Writer, line: string): Admission {
    if line == [] then Admission(w, false, None)
    else
      var a := Admit(w, DsbSize(|line| + 1));
      if a.ok then a.(w := a.w.(pending := a.w.pending + [line])) else a
  }

  function SetRoom(w: Writer, room: int): Writer {
    if w.limited then w.(room := room) else w
  }

  // ----- Draining and closing -----

  /** How many packets at the front of the queue were received at or before the cutoff. */
  function DueCount(held: seq<Packet>, cutoff: int): (n: nat)
    ensures n <= |held|
  {
    if held == [] || held[0].at > cutoff then 0 else 1 + DueCount(held[1..], cutoff)
  }

  function Drain(w: Writer, now: int, io: nat -> bool): Writer {
    WriteHeld(w.(clock := now), DueCount(w.held, now - HOLD_WINDOW), io, Due(now))
  }

  function CloseFile(w: Writer): Writer {
    w.(open := false, closed := true, closes := w.closes + 1)
  }

  /** One tick of the drain goroutine, which exits once it has closed the file. */
  function Tick(w: Writer, now: int, io: nat -> bool): Writer {
    var d := Drain(w, now, io);
    if d.stopped && d.held == [] && d.pending == [] then CloseFile(d).(draining := false) else d
  }

  /** The locked part of Close, which runs once the drain goroutine has exited. */
  function FinishClose(w: Writer, io: nat -> bool): Writer {
    if w.closed then w else CloseFile(WriteHeld(w, |w.held|, io, Final))
  }

  // ----- Events and runs -----

  datatype Event =
    | PacketIn(info: CaptureInfo, data: string, now: int, io: nat -> bool)
    | SecretIn(line: string)
    | RoomIn(room: int)
    | TickAt(now: int, io: nat -> bool)
    | CloseBegin
    | DrainExit
    | CloseEnd(io: nat -> bool)

  /** Ticks happen while the goroutine lives, it exits early only once Close was called, and
      Close goes on once it has exited. The clock never runs backwards. */
  ghost predicate Enabled(w: Writer, e: Event) {
    match e
    case PacketIn(_, _, now, _) => now >= w.clock
    case TickAt(now, _) => w.draining && now >= w.clock
    case DrainExit => w.draining && w.stopping
    case CloseEnd(_) => !w.draining && w.stopping
    case _ => true
  }

  /** No call is ever held back: packets, lines, rooms and Close may come in any state, closed or
      stopped. */
  lemma CallsAreEnabled(w: Writer, e: Event)
    requires e.PacketIn? ==> e.now >= w.clock
    requires !e.TickAt? && !e.DrainExit? && !e.CloseEnd?
    ensures Enabled(w, e)
  {
  }

  function Outcome(w: Writer, e: Event): Admission {
    match e
    case PacketIn(info, data, now, io) => WritePacket(w, info, data, now, io)
    case SecretIn(line) => AddSecret(w, line)
    case RoomIn(room) => Admission(SetRoom(w, room), false, None)
    case TickAt(now, io) => Admission(Tick(w, now, io), false, None)
    case CloseBegin => Admission(w.(stopping := true), false, None)
    case DrainExit => Admission(w.(draining := false), false, None)
    case CloseEnd(io) => Admission(FinishClose(w, io), false, None)
  }

  function Next(w: Writer, e: Event): Writer { Outcome(w, e).w }

  function Run(w: Writer, es: seq<Event>): Writer
    decreases |es|
  {
    if es == [] then w else Run(Next(w, es[0]), es[1..])
  }

  ghost predicate Runs(w: Writer, es: seq<Event>)
    decreases |es|
  {
    es == [] || (Enabled(w, es[0]) && Runs(Next(w, es[0]), es[1..]))
  }

  lemma {:induction false} RunConcat(w: Writer, a: seq<Event>, b: seq<Event>)
    ensures Run(w, a + b) == Run(Run(w, a), b)
    ensures Runs(w, a + b) <==> Runs(w, a) && Runs(Run(w, a), b)
    decreases |a|
  {
    if a == [] {
      assert a + b == b;
    } else {
      RunConcat(Next(w, a[0]), a[1..], b);
      assert (a + b)[1..] == a[1..] + b;
    }
  }

  lemma RunCons(w: Writer, e: Event, es: seq<Event>)
    requires Enabled(w, e) && Runs(Next(w, e), es)
    ensures Runs(w, [e] + es) && Run(w, [e] + es) == Run(Next(w, e), es)
  {
    assert ([e] + es)[1..] == es;
  }

  lemma RunSnoc(w: Writer, es: seq<Event>, e: Event)
    requires Runs(w, es) && Enabled(Run(w, es), e)
    ensures Runs(w, es + [e]) && Run(w, es + [e]) == Next(Run(w, es), e)
  {
    RunConcat(w, es, [e]);
    var v := Next(Run(w, es), e);
    assert [e][1..] == [];
    assert Runs(v, []) && Run(v, []) == v;
  }

  /** The blocks attempted, and the ones that reached the file. */
  function Blocks(log: seq<Attempt>): (b: seq<Block>)
    ensures |b| == |log| && forall i :: 0 <= i < |b| ==> b[i] == log[i].block
  {
    seq(|log|, i requires 0 <= i < |log| => log[i].block)
  }

  function Written(log: seq<Attempt>): seq<Block> {
    if log == [] then []
    else (if log[0].ok then [log[0].block] else []) + Written(log[1..])
  }

  function FileBytes(w: Writer): nat {
    w.header + BlockBytes(Written(w.log))
  }

  /** Everything admitted so far, in order of arrival. */
  function AdmittedLines(w: Writer): seq<string> {
    LinesIn(Blocks(w.log)) + w.pending
  }

  function AdmittedPackets(w: Writer): seq<Packet> {
    PacketsIn(Blocks(w.log)) + w.held
  }

  /** The line or packet an event hands over and is not refused. */
  function AcceptedLine(w: Writer, e: Event): seq<string> {
    if e.SecretIn? && Outcome(w, e).ok then [e.line] else []
  }

  function AcceptedPacket(w: Writer, e: Event): seq<Packet> {
    if e.PacketIn? && Outcome(w, e).ok
    then [Packet(StampInfo(e.info, |e.data|, e.now), e.data, e.now)] else []
  }

  /** Those of a whole run, read off its events. */
  function AcceptedLines(w: Writer, es: seq<Event>): seq<string>
    decreases |es|
  {
    if es == [] then [] else AcceptedLine(w, es[0]) + AcceptedLines(Next(w, es[0]), es[1..])
  }

  function AcceptedPackets(w: Writer, es: seq<Event>): seq<Packet>
    decreases |es|
  {
    if es == [] then [] else AcceptedPacket(w, es[0]) + AcceptedPackets(Next(w, es[0]), es[1..])
  }

  /** Every Stop issued over a run. */
  function StopsIssued(w: Writer, es: seq<Event>): seq<Stop>
    decreases |es|
  {
    if es == [] then []
    else (if Outcome(w, es[0]).stop.Some? then [Outcome(w, es[0]).stop.value] else [])
         + StopsIssued(Next(w, es[0]), es[1..])
  }

  // ----- Log lemmas -----

  lemma {:induction false} WrittenConcat(a: seq<Attempt>, b: seq<Attempt>)
    ensures Written(a + b) == Written(a) + Written(b)
  {
    if a == [] {
      assert a + b == b;
    } else {
      WrittenConcat(a[1..], b);
      assert (a + b)[1..] == a[1..] + b && (a + b)[0] == a[0];
      Associative(if a[0].ok then [a[0].block] else [], Written(a[1..]), Written(b));
    }
  }

  lemma BlocksConcat(a: seq<Attempt>, b: seq<Attempt>)
    ensures Blocks(a + b) == Blocks(a) + Blocks(b)
  {
  }

  lemma {:induction false} DataBytesConcat(a: seq<Packet>, b: seq<Packet>)
    ensures DataBytes(a + b) == DataBytes(a) + DataBytes(b)
  {
    if a == [] {
      assert a + b == b;
    } else {
      DataBytesConcat(a[1..], b);
      assert (a + b)[1..] == a[1..] + b;
    }
  }

  lemma {:induction false} FrameAttemptsCarry(ps: seq<Packet>, open: bool, io: nat -> bool, cause: Cause)
    ensures var b := Blocks(FrameAttempts(ps, open, io, cause)); LinesIn(b) == [] && PacketsIn(b) == ps
  {
    var a := FrameAttempts(ps, open, io, cause);
    if ps != [] {
      var n := |ps| - 1;
      var front := FrameAttempts(ps[..n], open, io, cause);
      FrameAttemptsCarry(ps[..n], open, io, cause);
      assert Blocks(a) == Blocks(front) + [Frame(ps[n])];
      LinesInConcat(Blocks(front), [Frame(ps[n])]);
      PacketsInConcat(Blocks(front), [Frame(ps[n])]);
    }
  }

  lemma {:induction false} FrameAttemptsCost(ps: seq<Packet>, open: bool, io: nat -> bool, cause: Cause)
    ensures BlockBytes(Written(FrameAttempts(ps, open, io, cause))) <= FrameBytes(ps)
  {
    var a := FrameAttempts(ps, open, io, cause);
    if ps != [] {
      var n := |ps| - 1;
      var front := FrameAttempts(ps[..n], open, io, cause);
      FrameAttemptsCost(ps[..n], open, io, cause);
      assert a == front + [a[n]] && ps == ps[..n] + [ps[n]];
      WrittenConcat(front, [a[n]]);
      BlockBytesConcat(Written(front), Written([a[n]]));
      FrameBytesConcat(ps[..n], [ps[n]]);
    }
  }

  lemma FrameAttemptsSnoc(held: seq<Packet>, i: nat, open: bool, io: nat -> bool, cause: Cause)
    requires i < |held|
    ensures FrameAttempts(held[..i + 1], open, io, cause)
            == FrameAttempts(held[..i], open, io, cause) + [Attempt(Frame(held[i]), open && io(i + 1), cause)]
    ensures DataBytes(held[..i + 1]) == DataBytes(held[..i]) + |held[i].data|
  {
    var p := held[i];
    assert held[..i + 1] == held[..i] + [p];
    DataBytesConcat(held[..i], [p]);
    assert DataBytes([p]) == |p.data| by { assert [p][1..] == []; }
  }

  lemma SecretsAttemptsCarry(pending: seq<string>, open: bool, io: nat -> bool, cause: Cause)
    ensures var a := SecretsAttempts(pending, open, io, cause);
            LinesIn(Blocks(a)) == pending && PacketsIn(Blocks(a)) == []
            && BlockBytes(Written(a)) <= LineBytes(pending)
  {
    if pending != [] {
      BatchingIsNoLarger(pending);
    }
  }

  /** Writing moves the pending lines into the log, in order. */
  lemma WriteHeldCarriesLines(w: Writer, n: nat, io: nat -> bool, cause: Cause)
    requires n <= |w.held|
    ensures LinesIn(Blocks(WriteHeld(w, n, io, cause).log)) == AdmittedLines(w)
  {
    var s := SecretsAttempts(w.pending, w.open, io, cause);
    var f := FrameAttempts(w.held[..n], w.open, io, cause);
    SecretsAttemptsCarry(w.pending, w.open, io, cause);
    FrameAttemptsCarry(w.held[..n], w.open, io, cause);
    BlocksConcat(w.log, s);
    BlocksConcat(w.log + s, f);
    LinesInConcat(Blocks(w.log), Blocks(s));
    LinesInConcat(Blocks(w.log + s), Blocks(f));
  }

  /** Writing moves the oldest packets into the log, in order. */
  lemma WriteHeldCarriesPackets(w: Writer, n: nat, io: nat -> bool, cause: Cause)
    requires n <= |w.held|
    ensures PacketsIn(Blocks(WriteHeld(w, n, io, cause).log)) == PacketsIn(Blocks(w.log)) + w.held[..n]
  {
    var s := SecretsAttempts(w.pending, w.open, io, cause);
    var f := FrameAttempts(w.held[..n], w.open, io, cause);
    SecretsAttemptsCarry(w.pending, w.open, io, cause);
    FrameAttemptsCarry(w.held[..n], w.open, io, cause);
    BlocksConcat(w.log, s);
    BlocksConcat(w.log + s, f);
    PacketsInConcat(Blocks(w.log), Blocks(s));
    PacketsInConcat(Blocks(w.log + s), Blocks(f));
  }

  lemma WriteHeldKeepsAdmitted(w: Writer, n: nat, io: nat -> bool, cause: Cause)
    requires n <= |w.held|
    ensures var v := WriteHeld(w, n, io, cause);
            AdmittedLines(v) == AdmittedLines(w) && AdmittedPackets(v) == AdmittedPackets(w)
  {
    WriteHeldCarriesLines(w, n, io, cause);
    WriteHeldCarriesPackets(w, n, io, cause);
    var p := PacketsIn(Blocks(w.log));
    assert p + w.held[..n] + w.held[n..] == p + w.held;
  }

  /** Writing never adds more bytes to the file than were counted for what it writes. */
  lemma WriteHeldCost(w: Writer, n: nat, io: nat -> bool, cause: Cause)
    requires n <= |w.held|
    ensures FileBytes(WriteHeld(w, n, io, cause)) + FrameBytes(w.held[n..])
            <= FileBytes(w) + LineBytes(w.pending) + FrameBytes(w.held)
  {
    var s := SecretsAttempts(w.pending, w.open, io, cause);
    var f := FrameAttempts(w.held[..n], w.open, io, cause);
    SecretsAttemptsCarry(w.pending, w.open, io, cause);
    FrameAttemptsCost(w.held[..n], w.open, io, cause);
    WrittenConcat(w.log, s);
    WrittenConcat(w.log + s, f);
    BlockBytesConcat(Written(w.log), Written(s));
    BlockBytesConcat(Written(w.log + s), Written(f));
    assert w.held == w.held[..n] + w.held[n..];
    FrameBytesConcat(w.held[..n], w.held[n..]);
  }
}
