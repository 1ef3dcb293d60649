/** The sidecar's wiring of capture and retention, proved to take only the steps of the
    budget machine. */
module App {
  import opened Wrappers
  import opened CaptureNames
  import opened Retention
  import Budget
  import CaptureWriter
  import Spec = CaptureSpec

  datatype Opening = Started | NotStarted | OpenFailed

  // ----- The budget machine's steps -----

  /** Retaining changes nothing in what is finished, expired or left. */
  lemma RetainIsAside(d: Entries, p: Policy, q: Policy, now: int)
    requires q == p.(retain := q.retain)
    ensures FinishedNames(d, p) == FinishedNames(d, q) && RoomLeft(d, p) == RoomLeft(d, q)
    ensures ExpiredNames(d, p, now) == ExpiredNames(d, q, now)
  {
    assert FinishedNames(d, p) == FinishedNames(d, q);
    assert ExpiredNames(d, p, now) == ExpiredNames(d, q, now);
  }

  /** The policy is that of the system's state. */
  ghost predicate PolicyFits(c: Budget.Config, s: Budget.Sys, p: Policy) {
    Budget.PolicyOf(c, s) == p.(retain := false)
  }

  lemma PassIsStep(c: Budget.Config, s: Budget.Sys, p: Policy, now: int, readable: bool, removable: string -> bool,
                   gone: set<string>)
    requires PolicyFits(c, s, p) && gone == Removed(s.dir, p, now, readable, removable)
    ensures Budget.Leads(c, s, [Budget.AgePass(now, gone)], s.(dir := s.dir - gone))
  {
    RetainIsAside(s.dir, p, Budget.PolicyOf(c, s), now);
    Budget.LeadsOne(c, s, Budget.AgePass(now, gone), s.(dir := s.dir - gone));
  }

  /** After the pass, an active capture is given the room left. */
  lemma RoomIsStep(c: Budget.Config, s: Budget.Sys, steps: seq<Budget.Step>, m: Budget.Sys, p: Policy, v: Spec.Writer)
    requires Budget.Leads(c, s, steps, m) && PolicyFits(c, m, p)
    requires m.phase.Live? && m.phase.measured.None? && v == Spec.SetRoom(m.phase.w, RoomLeft(m.dir, p))
    ensures Budget.Leads(c, s, steps + [Budget.Measure] + [Budget.GiveRoom], m.(phase := m.phase.(w := v)))
  {
    RetainIsAside(m.dir, p, Budget.PolicyOf(c, m), 0);
    var measured := m.(phase := m.phase.(measured := Some(RoomLeft(m.dir, p))));
    Budget.LeadsOn(c, s, steps, m, Budget.Measure, measured);
    Budget.LeadsOn(c, s, steps + [Budget.Measure], measured, Budget.GiveRoom, m.(phase := m.phase.(w := v)));
  }

  /** The file is created with the room the size check found. */
  lemma StartIsStep(c: Budget.Config, s: Budget.Sys, steps: seq<Budget.Step>, m: Budget.Sys, p: Policy,
                    name: string, header: nat, room: int, now: int)
    requires Budget.Leads(c, s, steps, m) && PolicyFits(c, m, p) && m.phase.Idle? && name !in m.dir
    requires room == RoomLeft(m.dir, p) && 0 < header && (c.maxBytes > 0 ==> header <= room)
    ensures Budget.Leads(c, s, steps + [Budget.Start(name, header, room, now)],
                         Budget.Sys(m.dir[name := Regular(header, now)],
                                    Budget.Live(name, Spec.Init(name, header, room, now), None)))
  {
    RetainIsAside(m.dir, p, Budget.PolicyOf(c, m), 0);
    Budget.LeadsOn(c, s, steps, m, Budget.Start(name, header, room, now),
                   Budget.Sys(m.dir[name := Regular(header, now)],
                              Budget.Live(name, Spec.Init(name, header, room, now), None)));
  }

  /** Creating it fails with part of the header written. */
  lemma FailureIsStep(c: Budget.Config, s: Budget.Sys, steps: seq<Budget.Step>, m: Budget.Sys, p: Policy,
                      name: string, header: nat, size: nat, now: int)
    requires Budget.Leads(c, s, steps, m) && PolicyFits(c, m, p) && m.phase.Idle? && name !in m.dir
    requires size <= header && (c.maxBytes > 0 ==> header <= RoomLeft(m.dir, p))
    ensures Budget.Leads(c, s, steps + [Budget.FailedStart(name, header, size, now)],
                         m.(dir := m.dir[name := Regular(size, now)]))
  {
    RetainIsAside(m.dir, p, Budget.PolicyOf(c, m), 0);
    Budget.LeadsOn(c, s, steps, m, Budget.FailedStart(name, header, size, now),
                   m.(dir := m.dir[name := Regular(size, now)]));
  }

  /** The writer is closed and the file kept or deleted. */
  lemma EndIsSteps(c: Budget.Config, s: Budget.Sys, es: seq<Spec.Event>, now: int, keep: bool, d: Entries)
    requires s.phase.Live? && Spec.Runs(s.phase.w, es) && es != [] && Spec.Run(s.phase.w, es).closed
    requires forall i :: 0 <= i < |es| ==> !es[i].RoomIn?
    requires d == Budget.Resized(s.dir, s.phase.name, Spec.FileBytes(Spec.Run(s.phase.w, es)), now)
    ensures Budget.Leads(c, s, Budget.Writes(s.phase.w, es, now) + [Budget.Finish(keep)],
                         Budget.Sys(if keep then d else d - {s.phase.name}, Budget.Idle))
  {
    Budget.WritesLead(c, s, es, now);
    var m := Budget.Sys(d, s.phase.(w := Spec.Run(s.phase.w, es)));
    Budget.LeadsOn(c, s, Budget.Writes(s.phase.w, es, now), m, Budget.Finish(keep),
                   Budget.Sys(if keep then d else d - {s.phase.name}, Budget.Idle));
  }

  /** No attempt leaves more than a header behind. */
  ghost predicate CutsFit(open: nat -> Open, header: nat) {
    forall n: nat :: open(n).Cut? ==> open(n).size <= header
  }

  class App {
    const template: string
    const maxBytes: int
    const maxAge: int
    const retain: bool
    const header: nat
    const dir: Directory
    var capW: CaptureWriter.Writer?
    var run: Option<string>

    constructor (template: string, maxBytes: int, maxAge: int, retain: bool, header: nat, dir: Directory)
      ensures Valid() && capW == null && run == None
      ensures this.template == template && this.maxBytes == maxBytes && this.maxAge == maxAge
      ensures this.retain == retain && this.header == header && this.dir == dir
    {
      this.template, this.maxBytes, this.maxAge, this.retain := template, maxBytes, maxAge, retain;
      this.header, this.dir, capW, run := header, dir, null, None;
    }

    ghost predicate Valid() reads this, capW {
      && (capW == null <==> run == None)
      && (capW != null ==> capW.Valid())
    }

    function Retention(): Policy reads this {
      Policy(template, run, maxBytes, maxAge, retain)
    }

    ghost function Config(): Budget.Config {
      Budget.Config(template, maxBytes, maxAge)
    }

    /** This App in the budget machine. */
    ghost function System(): Budget.Sys
      requires Valid()
      reads this, capW, dir
    {
      Budget.Sys(dir.entries,
                 if capW == null then Budget.Idle else Budget.Live(run.value, capW.State(), None))
    }

    /** One age pass, then the size check, then, with room for a header, the file: an age-pass
        step, then a start with the room found, a failed start, or nothing more. */
    method OpenCapture(second: nat, now: int, readable: bool, removable: string -> bool, open: nat -> Open)
      returns (r: Opening, ghost gone: set<string>, ghost steps: seq<Budget.Step>)
      requires Valid() && capW == null && header > 0
      modifies this, dir
      ensures Valid() && (r.Started? <==> capW != null)
      ensures gone == Removed(old(dir.entries), old(Retention()), now, readable, removable)
      ensures CutsFit(open, header) ==>
        Budget.Leads(Config(), old(System()), [Budget.AgePass(now, gone)] + steps, System())
      ensures r.Started? ==>
        var room := RoomLeft(old(dir.entries) - gone, old(Retention()));
        steps == [Budget.Start(run.value, header, room, now)] && capW.limited == (maxBytes > 0)
      ensures r.NotStarted? ==> steps == [] && maxBytes > 0 && RoomLeft(dir.entries, Retention()) < header
      ensures r.OpenFailed? ==> steps == [] || (|steps| == 1 && steps[0].FailedStart?)
      ensures r.OpenFailed? ==>
        || (maxBytes > 0 && !readable)
        || TakenBelow(old(dir.entries) - gone, template, second, MAX_SUFFIX + 1)
        || exists n: nat :: n <= MAX_SUFFIX && !open(n).Opens?
    {
      ghost var first, p := System(), Retention();
      gone := Removed(dir.entries, p, now, readable, removable);
      ghost var pass := [Budget.AgePass(now, gone)];
      PassIsStep(Config(), first, p, now, readable, removable, gone);
      steps := [];
      assert pass + [] == pass;
      Enforce(Retention(), dir, readable, now, removable);
      ghost var mid := System();
      var room := Room(Retention(), dir, readable);
      if room.Err? {
        return OpenFailed, gone, steps;
      }
      if maxBytes > 0 && room.value < header {
        return NotStarted, gone, steps;
      }
      var made := CreateRunCapture(dir, template, second, header, room.value, now, open);
      match made
      case Created(n, w) =>
        capW, run := w, Some(EntryName(template, second, n));
        StartIsStep(Config(), first, pass, mid, p, run.value, header, room.value, now);
        return Started, gone, [Budget.Start(run.value, header, room.value, now)];
      case Exhausted =>
        return OpenFailed, gone, steps;
      case Failed(n) =>
        if dir.entries != mid.dir {
          ghost var name := EntryName(template, second, n);
          if open(n).size <= header {
            FailureIsStep(Config(), first, pass, mid, p, name, header, open(n).size, now);
          }
          steps := [Budget.FailedStart(name, header, open(n).size, now)];
        }
        return OpenFailed, gone, steps;
    }

    /** A retention tick: an age pass, then the room it left for an active capture. */
    method EnforceRetention(now: int, readable: bool, removable: string -> bool)
      returns (ghost gone: set<string>, ghost steps: seq<Budget.Step>)
      requires Valid()
      modifies dir, capW
      ensures Valid() && capW == old(capW) && run == old(run)
      ensures gone == Removed(old(dir.entries), Retention(), now, readable, removable)
      ensures dir.entries == old(dir.entries) - gone
      ensures capW != null ==>
        capW.State() == (if maxBytes > 0 && !readable then old(capW.State())
                         else Spec.SetRoom(old(capW.State()), RoomLeft(dir.entries, Retention())))
      ensures Budget.Leads(Config(), old(System()), steps, System())
      ensures steps == if capW == null || (maxBytes > 0 && !readable) then [Budget.AgePass(now, gone)]
                       else [Budget.AgePass(now, gone)] + [Budget.Measure] + [Budget.GiveRoom]
    {
      ghost var first := System();
      gone := Removed(dir.entries, Retention(), now, readable, removable);
      steps := [Budget.AgePass(now, gone)];
      PassIsStep(Config(), first, Retention(), now, readable, removable, gone);
      Enforce(Retention(), dir, readable, now, removable);
      if capW == null {
        return;
      }
      ghost var mid := System();
      var room := Room(Retention(), dir, readable);
      if room.Ok? {
        capW.SetRoom(room.value);
        RoomIsStep(Config(), first, steps, mid, Retention(), capW.State());
        steps := steps + [Budget.Measure] + [Budget.GiveRoom];
      }
    }

    /** Teardown: the capture is closed, with whatever ticks come before its drain goroutine
        sees that, then deleted unless it is retained. */
    method Close(ticks: seq<CaptureWriter.Moment>, io: nat -> bool, removable: bool, now: int)
      returns (ghost es: seq<Spec.Event>, ghost steps: seq<Budget.Step>)
      requires Valid() && (capW != null ==> CaptureWriter.InOrder(ticks, capW.clock))
      modifies this, dir, capW
      ensures Valid() && capW == null && run == None
      ensures old(capW) == null ==> steps == [] && dir.entries == old(dir.entries)
      ensures old(capW) != null ==>
        && IsClosing(es, ticks, io)
        && Spec.Runs(old(capW.State()), es) && old(capW).State() == Spec.Run(old(capW.State()), es)
        && steps == Budget.Writes(old(capW.State()), es, now) + [Budget.Finish(retain || !removable)]
        && var closed := Budget.Resized(old(dir.entries), old(run).value, Spec.FileBytes(old(capW).State()), now);
           dir.entries == if retain || !removable then closed else closed - {old(run).value}
      ensures Budget.Leads(Config(), old(System()), steps, System())
    {
      ghost var first := System();
      es, steps := [], [];
      if capW == null {
        Budget.LeadsNowhere(Config(), first);
      } else {
        ghost var m, exits := capW.Close(ticks, io);
        es := CaptureWriter.Closing(ticks[..m], exits, io);
        ClosingSetsNoRoom(ticks[..m], exits, io);
        var name := run.value;
        if name in dir.entries {
          dir.entries := dir.entries[name := Regular(capW.Size(), now)];
        }
        EndIsSteps(Config(), first, es, now, retain || !removable, dir.entries);
        steps := Budget.Writes(first.phase.w, es, now) + [Budget.Finish(retain || !removable)];
      }
      Cleanup(Retention(), dir, removable);
      capW, run := null, None;
    }
  }

  /** The events of a Close with some of these ticks. */
  ghost predicate IsClosing(es: seq<Spec.Event>, ticks: seq<CaptureWriter.Moment>, io: nat -> bool) {
    exists m: nat, exits: bool :: m <= |ticks| && es == CaptureWriter.Closing(ticks[..m], exits, io)
  }

  lemma ClosingSetsNoRoom(ticks: seq<CaptureWriter.Moment>, exits: bool, io: nat -> bool)
    ensures var es := CaptureWriter.Closing(ticks, exits, io); forall i :: 0 <= i < |es| ==> !es[i].RoomIn?
  {
  }
}
