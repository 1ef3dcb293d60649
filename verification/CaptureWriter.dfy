/** The capture writer as it runs: an object whose methods are the critical sections of its
    lock, each proved to take the step the state machine takes. `io` says which block writes
    of a call succeed; a write to a closed file never does. */
module CaptureWriter {
  import opened Wrappers
  import opened Pcapng
  import Spec = CaptureSpec

  class Writer {
    const path: string
    const header: nat
    var log: seq<Spec.Attempt>  // every block handed to the pcapng writer; the file holds those with ok set
    var open: bool
    var held: seq<Packet>
    var heldBytes: int
    var pending: seq<string>
    var limited: bool
    var room: int
    var admitted: int
    var stopped: bool
    var closed: bool
    var stopping: bool
    var draining: bool
    ghost var closes: nat
    ghost var clock: int

    /** The queue's byte count is exact, and nothing drains a closed file. */
    ghost predicate Valid() reads this {
      heldBytes == Spec.DataBytes(held) && (closed ==> !draining)
    }

    ghost function State(): Spec.Writer reads this {
      Spec.Writer(path, header, limited, room, admitted, stopped, held, heldBytes, pending,
                  log, open, closed, closes, stopping, draining, clock)
    }

    /** What the file holds. */
    function Size(): (n: nat)
      reads this
      ensures n == Spec.FileBytes(State())
    {
      header + BlockBytes(Spec.Written(log))
    }

    constructor (path: string, header: nat, room: int, ghost now: int)
      ensures Valid() && State() == Spec.Init(path, header, room, now)
    {
      this.path, this.header := path, header;
      log, open, held, heldBytes, pending := [], true, [], 0, [];
      limited, this.room, admitted, stopped := room > 0, room, header, false;
      closed, stopping, draining := false, false, true;
      closes, clock := 0, now;
    }

    method Admit(n: int) returns (ok: bool, stop: Option<Spec.Stop>)
      requires Valid()
      modifies this`stopped, this`admitted
      ensures Valid() && Spec.Admission(State(), ok, stop) == Spec.Admit(old(State()), n)
    {
      if stopped {
        return false, None;
      }
      if limited && admitted + n > room {
        stopped := true;
        return false, Some(Spec.Stop(path, admitted, room));
      }
      admitted := admitted + n;
      return true, None;
    }

    /** Writes the pending lines, if any, as one block. */
    method WriteSecrets(io: nat -> bool, cause: Spec.Cause)
      modifies this`log, this`pending
      ensures pending == []
      ensures log == old(log) + Spec.SecretsAttempts(old(pending), open, io, cause)
    {
      if |pending| > 0 {
        log := log + [Spec.Attempt(Secrets(pending), open && io(0), cause)];
        pending := [];
      }
    }

    /** Writes the n oldest packets and takes them off the byte count. */
    method WriteFrames(n: nat, io: nat -> bool, cause: Spec.Cause)
      requires n <= |held|
      modifies this`log, this`heldBytes
      ensures log == old(log) + Spec.FrameAttempts(held[..n], open, io, cause)
      ensures heldBytes == old(heldBytes) - Spec.DataBytes(held[..n])
    {
      var i := 0;
      while i < n
        invariant 0 <= i <= n
        invariant log == old(log) + Spec.FrameAttempts(held[..i], open, io, cause)
        invariant heldBytes == old(heldBytes) - Spec.DataBytes(held[..i])
      {
        var p := held[i];
        log := log + [Spec.Attempt(Frame(p), open && io(i + 1), cause)];
        heldBytes := heldBytes - |p.data|;
        Spec.FrameAttemptsSnoc(held, i, open, io, cause);
        i := i + 1;
      }
    }

    /** The pending lines as one block, if there are any, then the n oldest packets. */
    method WriteBlocks(n: nat, io: nat -> bool, cause: Spec.Cause)
      requires n <= |held|
      modifies this`log, this`pending, this`heldBytes
      ensures log == old(log) + Spec.SecretsAttempts(old(pending), open, io, cause)
                     + Spec.FrameAttempts(held[..n], open, io, cause)
      ensures pending == [] && heldBytes == old(heldBytes) - Spec.DataBytes(held[..n])
    {
      WriteSecrets(io, cause);
      WriteFrames(n, io, cause);
    }

    /** The same, and takes the packets off the queue. */
    method WriteHeld(n: nat, io: nat -> bool, cause: Spec.Cause)
      requires Valid() && n <= |held|
      modifies this`log, this`pending, this`held, this`heldBytes
      ensures Valid() && State() == Spec.WriteHeld(old(State()), n, io, cause)
    {
      RestBytes(held, n);
      WriteBlocks(n, io, cause);
      held := held[n..];
    }

    /** Queues a packet behind the others. */
    method Enqueue(info: CaptureInfo, data: string, now: int)
      requires Valid()
      modifies this`held, this`heldBytes, this`clock
      ensures Valid() && State() == Spec.Enqueue(old(State()), info, data, now)
    {
      var p := Packet(Spec.StampInfo(info, |data|, now), data, now);
      Spec.DataBytesConcat(held, [p]);
      assert Spec.DataBytes([p]) == |data| by { assert [p][1..] == []; }
      held := held + [p];
      heldBytes := heldBytes + |data|;
      clock := now;
    }

    /** How many of the oldest packets must go to bring the queue under its cap. */
    method OverCap() returns (n: nat)
      requires Valid()
      ensures n == Spec.Release(held)
    {
      n := 0;
      var left := heldBytes;
      assert held[0..] == held;
      while left > Spec.MAX_HELD_BYTES
        invariant 0 <= n <= |held|
        invariant left == Spec.DataBytes(held[n..])
        invariant Spec.Release(held) == n + Spec.Release(held[n..])
        decreases |held| - n
      {
        assert held[n..][1..] == held[n + 1..];
        left := left - |held[n].data|;
        n := n + 1;
      }
    }

    /** Queues a packet and, past the cap, writes the oldest at once. Returns whether capture
        has stopped, and the Stop to report if this packet stopped it. */
    method WritePacket(info: CaptureInfo, data: string, now: int, io: nat -> bool)
      returns (refused: bool, stop: Option<Spec.Stop>)
      requires Valid()
      modifies this
      ensures Valid()
      ensures Spec.Admission(State(), !refused, stop) == Spec.WritePacket(old(State()), info, data, now, io)
    {
      var ok;
      ok, stop := Admit(EpbSize(|data|));
      if !ok {
        return true, stop;
      }
      Enqueue(info, data, now);
      var n := OverCap();
      if n > 0 {
        WriteHeld(n, io, Spec.Forced);
      }
      return false, None;
    }

    /** Queues one key line for the next secrets block. */
    method AddSecret(line: string) returns (ghost ok: bool, stop: Option<Spec.Stop>)
      requires Valid()
      modifies this`stopped, this`admitted, this`pending
      ensures Valid() && Spec.Admission(State(), ok, stop) == Spec.AddSecret(old(State()), line)
      ensures line == [] ==> State() == old(State()) && stop == None
    {
      if line == [] {
        return false, None;
      }
      var fits;
      fits, stop := Admit(DsbSize(|line| + 1));
      if fits {
        pending := pending + [line];
      }
      ok := fits;
    }

    method SetRoom(room: int)
      requires Valid()
      modifies this`room
      ensures Valid() && State() == Spec.SetRoom(old(State()), room)
    {
      if limited {
        this.room := room;
      }
    }

    /** How many packets at the front of the queue were received at or before the cutoff. */
    method CountDue(cutoff: int) returns (n: nat)
      ensures n == Spec.DueCount(held, cutoff)
    {
      n := 0;
      assert held[0..] == held;
      while n < |held| && held[n].at <= cutoff
        invariant 0 <= n <= |held|
        invariant Spec.DueCount(held, cutoff) == n + Spec.DueCount(held[n..], cutoff)
      {
        assert held[n..][1..] == held[n + 1..];
        n := n + 1;
      }
    }

    /** Writes the pending secrets and every packet held for at least the hold window. */
    method Drain(now: int, io: nat -> bool)
      requires Valid()
      modifies this`log, this`pending, this`held, this`heldBytes, this`clock
      ensures Valid() && State() == Spec.Drain(old(State()), now, io)
    {
      clock := now;
      var n := CountDue(now - Spec.HOLD_WINDOW);
      WriteHeld(n, io, Spec.Due(now));
    }

    /** One tick of the drain goroutine. */
    method Tick(now: int, io: nat -> bool) returns (exit: bool)
      requires Valid() && draining
      modifies this
      ensures Valid() && State() == Spec.Tick(old(State()), now, io)
      ensures exit == !draining
    {
      Drain(now, io);
      if stopped && |held| == 0 && |pending| == 0 {
        open, closed, closes := false, true, closes + 1;
      }
      exit := closed;
      if exit {
        draining := false;
      }
    }

    /** The locked part of Close, once the drain goroutine has exited. */
    method FinishClose(io: nat -> bool)
      requires Valid() && !draining
      modifies this
      ensures Valid() && State() == Spec.FinishClose(old(State()), io)
    {
      if closed {
        return;
      }
      closed := true;
      WriteHeld(|held|, io, Spec.Final);
      open, closes := false, closes + 1;
    }

    /** Ticks of a drain goroutine that lives on until its exit or until it is stopped. */
    method LastTicks(ticks: seq<Moment>) returns (ghost m: nat)
      requires Valid() && InOrder(ticks, clock)
      modifies this
      ensures Valid() && m <= |ticks| && stopping == old(stopping)
      ensures Spec.Runs(old(State()), TickEvents(ticks[..m]))
      ensures State() == Spec.Run(old(State()), TickEvents(ticks[..m]))
    {
      ghost var first := State();
      var i := 0;
      while i < |ticks| && draining
        invariant 0 <= i <= |ticks| && Valid() && stopping == old(stopping) && InOrder(ticks[i..], clock)
        invariant Spec.Runs(first, TickEvents(ticks[..i]))
        invariant State() == Spec.Run(first, TickEvents(ticks[..i]))
      {
        TickEventsSnoc(ticks, i);
        Spec.RunSnoc(first, TickEvents(ticks[..i]), Spec.TickAt(ticks[i].now, ticks[i].io));
        var exit := Tick(ticks[i].now, ticks[i].io);
        i := i + 1;
      }
      m := i;
    }

    /** The drain goroutine is gone, by a tick of its own or because it was asked to stop. */
    method Finish(io: nat -> bool)
      requires Valid()
      modifies this
      ensures Valid() && closed && State() == Spec.FinishClose(old(State()).(draining := false), io)
    {
      draining := false;
      FinishClose(io);
    }

    /** Close: asks the drain goroutine to stop, waits for it to exit, which may be after any
        number of further ticks, and runs the locked part. */
    method Close(ticks: seq<Moment>, io: nat -> bool) returns (ghost m: nat, ghost exits: bool)
      requires Valid() && InOrder(ticks, clock)
      modifies this
      ensures Valid() && closed && m <= |ticks|
      ensures Spec.Runs(old(State()), Closing(ticks[..m], exits, io))
      ensures State() == Spec.Run(old(State()), Closing(ticks[..m], exits, io))
    {
      ghost var first := State();
      stopping := true;
      m := LastTicks(ticks);
      exits := draining;
      ClosingRuns(first, ticks[..m], exits, io, State());
      Finish(io);
    }
  }

  lemma RestBytes(held: seq<Packet>, n: nat)
    requires n <= |held|
    ensures Spec.DataBytes(held) == Spec.DataBytes(held[..n]) + Spec.DataBytes(held[n..])
  {
    assert held == held[..n] + held[n..];
    Spec.DataBytesConcat(held[..n], held[n..]);
  }

  lemma ClosingRuns(w: Spec.Writer, ticks: seq<Moment>, exits: bool, io: nat -> bool, v: Spec.Writer)
    requires Spec.Runs(w.(stopping := true), TickEvents(ticks))
    requires v == Spec.Run(w.(stopping := true), TickEvents(ticks)) && exits == v.draining && v.stopping
    ensures Spec.Runs(w, Closing(ticks, exits, io))
    ensures Spec.Run(w, Closing(ticks, exits, io)) == Spec.FinishClose(v.(draining := false), io)
  {
    Spec.RunCons(w, Spec.CloseBegin, TickEvents(ticks));
    ClosingEnds(w, [Spec.CloseBegin] + TickEvents(ticks), exits, io, v);
  }

  lemma ClosingEnds(w: Spec.Writer, es: seq<Spec.Event>, exits: bool, io: nat -> bool, v: Spec.Writer)
    requires Spec.Runs(w, es) && v == Spec.Run(w, es) && exits == v.draining && v.stopping
    ensures var all := es + (if exits then [Spec.DrainExit] else []) + [Spec.CloseEnd(io)];
            Spec.Runs(w, all) && Spec.Run(w, all) == Spec.FinishClose(v.(draining := false), io)
  {
    if exits {
      Spec.RunSnoc(w, es, Spec.DrainExit);
      Spec.RunSnoc(w, es + [Spec.DrainExit], Spec.CloseEnd(io));
    } else {
      assert v.(draining := false) == v && es + [] == es;
      Spec.RunSnoc(w, es, Spec.CloseEnd(io));
    }
  }

  /** A tick that is still to come: its clock reading and which of its writes succeed. */
  datatype Moment = Moment(now: int, io: nat -> bool)

  ghost predicate InOrder(ticks: seq<Moment>, clock: int) {
    && (forall i :: 0 <= i < |ticks| ==> clock <= ticks[i].now)
    && forall i, j :: 0 <= i < j < |ticks| ==> ticks[i].now <= ticks[j].now
  }

  ghost function TickEvents(ticks: seq<Moment>): (es: seq<Spec.Event>)
    ensures |es| == |ticks| && forall i :: 0 <= i < |es| ==> es[i] == Spec.TickAt(ticks[i].now, ticks[i].io)
  {
    seq(|ticks|, i requires 0 <= i < |ticks| => Spec.TickAt(ticks[i].now, ticks[i].io))
  }

  lemma TickEventsSnoc(ticks: seq<Moment>, i: nat)
    requires i < |ticks|
    ensures TickEvents(ticks[..i + 1]) == TickEvents(ticks[..i]) + [Spec.TickAt(ticks[i].now, ticks[i].io)]
  {
  }

  /** The events of Close: the request, the ticks before the drain goroutine saw it, its exit
      unless one of them ended it, and the locked part. */
  ghost function Closing(ticks: seq<Moment>, exits: bool, io: nat -> bool): seq<Spec.Event> {
    [Spec.CloseBegin] + TickEvents(ticks) + (if exits then [Spec.DrainExit] else []) + [Spec.CloseEnd(io)]
  }
}
