/** Any number of consecutive runs of the sidecar over one capture directory: retained,
    deleted or killed, with age passes, room measurements and capture writes interleaved as
    they happen to fall. Others may do as they like with entries the sidecar does not own, and
    may delete owned ones, but do not write them. */
module Budget {
  import opened Wrappers
  import opened CaptureNames
  import opened CaptureSpec
  import opened CaptureRuns
  import opened Retention
  import CaptureTheorems

  datatype Config = Config(template: string, maxBytes: int, maxAge: int)

  /** No capture is running, or one is: its file, its writer, and a room that was measured and
      not yet handed to it. */
  datatype Phase = Idle | Live(name: string, w: Writer, measured: Option<int>)

  datatype Sys = Sys(dir: Entries, phase: Phase)

  datatype Step =
    | AgePass(now: int, gone: set<string>)
    | Start(name: string, header: nat, room: int, now: int)
    | FailedStart(name: string, header: nat, size: nat, now: int)
    | Write(e: Event, disk: nat, now: int)
    | Measure
    | GiveRoom
    | Finish(keep: bool)
    | Kill
    | Foreign(dir: Entries)

  function PolicyFor(c: Config, run: Option<string>): Policy {
    Policy(c.template, run, c.maxBytes, c.maxAge, false)
  }

  function PolicyOf(c: Config, s: Sys): Policy {
    PolicyFor(c, if s.phase.Live? then Some(s.phase.name) else None)
  }

  /** Together, what the owned captures hold. */
  ghost function OwnedTotal(c: Config, d: Entries): nat {
    TotalSize(d, FinishedNames(d, PolicyFor(c, None)))
  }

  /** What finished captures leave of the limit. */
  ghost function Left(c: Config, s: Sys): int {
    RoomLeft(s.dir, PolicyOf(c, s))
  }

  /** A room measured before the file is created: it covers the header and, since others may
      have deleted captures in between, is at most what is left; 0 without a limit. */
  ghost predicate RoomFor(c: Config, s: Sys, header: nat, room: int) {
    0 < header && if c.maxBytes > 0 then header <= room <= Left(c, s) else room == 0
  }

  /** The directory with this run's file, if it is there, at a size. */
  function Resized(d: Entries, name: string, size: nat, now: int): Entries {
    if name in d then d[name := Regular(size, now)] else d
  }

  ghost predicate Takes(c: Config, s: Sys, step: Step, s': Sys) {
    match step
    case AgePass(now, gone) =>
      && gone <= ExpiredNames(s.dir, PolicyOf(c, s), now)
      && s' == s.(dir := s.dir - gone)
    case Start(name, header, room, now) =>
      && s.phase.Idle? && name !in s.dir && RoomFor(c, s, header, room)
      && s' == Sys(s.dir[name := Regular(header, now)], Live(name, Init(name, header, room, now), None))
    case FailedStart(name, header, size, now) =>
      && s.phase.Idle? && name !in s.dir && size <= header && (c.maxBytes > 0 ==> header <= Left(c, s))
      && s' == s.(dir := s.dir[name := Regular(size, now)])
    case Write(e, disk, now) =>
      && s.phase.Live? && Enabled(s.phase.w, e) && !e.RoomIn?
      && disk <= FileBytes(Next(s.phase.w, e))
      && s' == Sys(Resized(s.dir, s.phase.name, disk, now), s.phase.(w := Next(s.phase.w, e)))
    case Measure =>
      s.phase.Live? && s' == s.(phase := s.phase.(measured := Some(Left(c, s))))
    case GiveRoom =>
      && s.phase.Live? && s.phase.measured.Some?
      && s' == s.(phase := Live(s.phase.name, SetRoom(s.phase.w, s.phase.measured.value), None))
    case Finish(keep) =>
      s.phase.Live? && s.phase.w.closed && s' == Sys(if keep then s.dir else s.dir - {s.phase.name}, Idle)
    case Kill =>
      s' == Sys(s.dir, Idle)
    case Foreign(dir) =>
      && s' == s.(dir := dir)
      && forall n :: n in dir && IsOwned(c.template, n) ==> n in s.dir && dir[n] == s.dir[n]
  }

  /** A run of the system. */
  ghost predicate IsTrace(c: Config, ss: seq<Sys>, steps: seq<Step>) {
    |ss| == |steps| + 1 && forall i :: 0 <= i < |steps| ==> Takes(c, ss[i], steps[i], ss[i + 1])
  }

  // ----- Finished captures only shrink while a run is on -----

  /** Every finished capture of d' is one of d, unchanged. */
  ghost predicate Shrinks(d: Entries, d': Entries, p: Policy) {
    forall n :: IsFinished(d', p, n) ==> IsFinished(d, p, n) && d'[n] == d[n]
  }

  lemma ShrinkingFrees(d: Entries, d': Entries, p: Policy)
    requires Shrinks(d, d', p)
    ensures TotalSize(d', FinishedNames(d', p)) <= TotalSize(d, FinishedNames(d, p))
  {
    TotalAgrees(d, d', FinishedNames(d', p));
    TotalOfSubset(d, FinishedNames(d', p), FinishedNames(d, p));
  }

  /** Together the owned captures hold the finished ones and, at most, this run's file. */
  lemma OwnedIsFinishedPlusRun(c: Config, d: Entries, name: string)
    ensures OwnedTotal(c, d) <= TotalSize(d, FinishedNames(d, PolicyFor(c, Some(name))))
                                + if IsOwned(c.template, name) then SizeAt(d, name) else 0
  {
    var all := FinishedNames(d, PolicyFor(c, None));
    var rest := FinishedNames(d, PolicyFor(c, Some(name)));
    if name in all {
      assert all - {name} == rest;
      TotalWithout(d, all, name);
    } else {
      assert all == rest;
    }
  }

  // ----- The invariant -----

  /** What was admitted fits the room, the room any later measurement, and that fits beside
      the finished captures: rooms only grow. And
      the file on disk, which only the sidecar writes, is no larger than what was written to
      it. */
  ghost predicate LiveInv(c: Config, s: Sys) {
    s.phase.Live? ==>
      && Inv(s.phase.w) && s.phase.w.limited
      && s.phase.w.admitted <= s.phase.w.room <= Left(c, s)
      && (s.phase.measured.Some? ==> s.phase.w.room <= s.phase.measured.value <= Left(c, s))
      && (IsOwned(c.template, s.phase.name) ==> SizeAt(s.dir, s.phase.name) <= FileBytes(s.phase.w))
  }

  ghost predicate SysInv(c: Config, s: Sys) {
    OwnedTotal(c, s.dir) <= c.maxBytes && LiveInv(c, s)
  }

  /** For a live run the limit follows from the rest. */
  lemma LiveWithinBudget(c: Config, s: Sys)
    requires c.maxBytes > 0 && s.phase.Live? && LiveInv(c, s)
    ensures SysInv(c, s)
  {
    OwnedIsFinishedPlusRun(c, s.dir, s.phase.name);
  }

  lemma RoomGrows(c: Config, s: Sys, s': Sys)
    requires c.maxBytes > 0 && s'.phase.Live? == s.phase.Live? && (s.phase.Live? ==> s'.phase.name == s.phase.name)
    requires Shrinks(s.dir, s'.dir, PolicyOf(c, s))
    ensures Left(c, s) <= Left(c, s')
  {
    ShrinkingFrees(s.dir, s'.dir, PolicyOf(c, s));
  }

  /** Admission never passes the room. */
  lemma AdmittedStaysBelow(w: Writer, e: Event)
    requires w.limited && w.admitted <= w.room && !e.RoomIn?
    ensures Next(w, e).limited && Next(w, e).admitted <= Next(w, e).room == w.room
  {
    if e.PacketIn? {
      CaptureTheorems.PacketStop(w, e.info, e.data, e.now, e.io);
    } else if !e.SecretIn? {
      CaptureTheorems.QuietStep(w, e);
    }
  }

  lemma AgePassKeeps(c: Config, s: Sys, now: int, gone: set<string>, s': Sys)
    requires c.maxBytes > 0 && SysInv(c, s) && Takes(c, s, AgePass(now, gone), s')
    ensures SysInv(c, s')
  {
    RoomGrows(c, s, s');
    ShrinkingFrees(s.dir, s'.dir, PolicyFor(c, None));
    if s.phase.Live? && IsOwned(c.template, s.phase.name) {
      assert SizeAt(s'.dir, s.phase.name) <= SizeAt(s.dir, s.phase.name);
    }
  }

  lemma ForeignKeeps(c: Config, s: Sys, dir: Entries, s': Sys)
    requires c.maxBytes > 0 && SysInv(c, s) && Takes(c, s, Foreign(dir), s')
    ensures SysInv(c, s')
  {
    RoomGrows(c, s, s');
    ShrinkingFrees(s.dir, s'.dir, PolicyFor(c, None));
    if s.phase.Live? && IsOwned(c.template, s.phase.name) {
      assert SizeAt(s'.dir, s.phase.name) <= SizeAt(s.dir, s.phase.name);
    }
  }

  lemma StartKeeps(c: Config, s: Sys, name: string, header: nat, room: int, now: int, s': Sys)
    requires c.maxBytes > 0 && SysInv(c, s) && Takes(c, s, Start(name, header, room, now), s')
    ensures SysInv(c, s')
  {
    var p := PolicyFor(c, Some(name));
    assert Shrinks(s.dir, s'.dir, p);
    assert FinishedNames(s.dir, p) == FinishedNames(s.dir, PolicyFor(c, None));
    ShrinkingFrees(s.dir, s'.dir, p);
    InitInv(name, header, room, now);
    LiveWithinBudget(c, s');
  }

  lemma FailedStartKeeps(c: Config, s: Sys, name: string, header: nat, size: nat, now: int, s': Sys)
    requires c.maxBytes > 0 && SysInv(c, s) && Takes(c, s, FailedStart(name, header, size, now), s')
    ensures SysInv(c, s')
  {
    var p := PolicyFor(c, Some(name));
    assert Shrinks(s.dir, s'.dir, p);
    assert FinishedNames(s.dir, p) == FinishedNames(s.dir, PolicyFor(c, None));
    ShrinkingFrees(s.dir, s'.dir, p);
    OwnedIsFinishedPlusRun(c, s'.dir, name);
  }

  lemma ResizeShrinks(c: Config, s: Sys, disk: nat, now: int)
    requires s.phase.Live?
    ensures Shrinks(s.dir, Resized(s.dir, s.phase.name, disk, now), PolicyOf(c, s))
    ensures SizeAt(Resized(s.dir, s.phase.name, disk, now), s.phase.name) <= disk
  {
  }

  lemma WriteKeeps(c: Config, s: Sys, e: Event, disk: nat, now: int, s': Sys)
    requires c.maxBytes > 0 && SysInv(c, s) && Takes(c, s, Write(e, disk, now), s')
    ensures SysInv(c, s')
  {
    StepKeepsInv(s.phase.w, e);
    AdmittedStaysBelow(s.phase.w, e);
    ResizeShrinks(c, s, disk, now);
    RoomGrows(c, s, s');
    LiveWithinBudget(c, s');
  }

  lemma MeasureKeeps(c: Config, s: Sys, step: Step, s': Sys)
    requires c.maxBytes > 0 && SysInv(c, s) && Takes(c, s, step, s') && (step.Measure? || step.GiveRoom?)
    ensures SysInv(c, s')
  {
    RoomGrows(c, s, s');
    if step.GiveRoom? {
      StepKeepsInv(s.phase.w, RoomIn(s.phase.measured.value));
    }
  }

  lemma EndKeeps(c: Config, s: Sys, step: Step, s': Sys)
    requires c.maxBytes > 0 && SysInv(c, s) && Takes(c, s, step, s') && (step.Finish? || step.Kill?)
    ensures SysInv(c, s')
  {
    ShrinkingFrees(s.dir, s'.dir, PolicyFor(c, None));
  }

  lemma StepKeepsSysInv(c: Config, s: Sys, step: Step, s': Sys)
    requires c.maxBytes > 0 && SysInv(c, s) && Takes(c, s, step, s')
    ensures SysInv(c, s')
  {
    match step
    case AgePass(now, gone) => AgePassKeeps(c, s, now, gone, s');
    case Start(name, header, room, now) => StartKeeps(c, s, name, header, room, now, s');
    case FailedStart(name, header, size, now) => FailedStartKeeps(c, s, name, header, size, now, s');
    case Write(e, disk, now) => WriteKeeps(c, s, e, disk, now, s');
    case Measure => MeasureKeeps(c, s, step, s');
    case GiveRoom => MeasureKeeps(c, s, step, s');
    case Finish(_) => EndKeeps(c, s, step, s');
    case Kill => EndKeeps(c, s, step, s');
    case Foreign(dir) => ForeignKeeps(c, s, dir, s');
  }

  lemma TraceTakes(c: Config, ss: seq<Sys>, steps: seq<Step>, i: nat)
    requires IsTrace(c, ss, steps) && i < |steps|
    ensures Takes(c, ss[i], steps[i], ss[i + 1])
  {
  }

  lemma {:induction false} TraceKeepsSysInv(c: Config, ss: seq<Sys>, steps: seq<Step>, k: nat)
    requires c.maxBytes > 0 && IsTrace(c, ss, steps) && k < |ss| && SysInv(c, ss[0])
    ensures SysInv(c, ss[k])
  {
    if k > 0 {
      TraceKeepsSysInv(c, ss, steps, k - 1);
      TraceTakes(c, ss, steps, k - 1);
      StepKeepsSysInv(c, ss[k - 1], steps[k - 1], ss[k]);
    }
  }

  /** Over any number of runs and any interleaving, the owned captures never together exceed
      the limit, in any state on the way. */
  lemma BudgetHolds(c: Config, ss: seq<Sys>, steps: seq<Step>, k: nat)
    requires c.maxBytes > 0 && IsTrace(c, ss, steps) && k < |ss|
    requires ss[0].phase.Idle? && OwnedTotal(c, ss[0].dir) <= c.maxBytes
    ensures OwnedTotal(c, ss[k].dir) <= c.maxBytes && SysInv(c, ss[k])
  {
    TraceKeepsSysInv(c, ss, steps, k);
  }

  // ----- What a stop reports -----

  /** The owned bytes the stop's log line gives: what finished captures took of the limit when
      the room was set, plus this run's. */
  function ReportedOwned(c: Config, stop: Stop): int {
    c.maxBytes - stop.room + stop.bytes
  }

  /** In every reachable state a stop is tight and its report true to the limit: what was
      admitted fits the room, the refused block does not, and the reported owned bytes are
      within the limit and at least what the owned captures hold; they are exactly the finished
      captures and what was admitted unless room was freed since it was last given. */
  lemma StopReportIsSound(c: Config, s: Sys, e: Event, disk: nat, now: int, s': Sys)
    requires c.maxBytes > 0 && SysInv(c, s) && Takes(c, s, Write(e, disk, now), s')
    requires Outcome(s.phase.w, e).stop.Some?
    ensures var stop := Outcome(s.phase.w, e).stop.value;
            && stop.bytes <= stop.room < stop.bytes + CaptureTheorems.AskedBytes(e)
            && OwnedTotal(c, s.dir) <= ReportedOwned(c, stop) <= c.maxBytes
            && var finished := TotalSize(s.dir, FinishedNames(s.dir, PolicyOf(c, s)));
               && finished + stop.bytes <= ReportedOwned(c, stop)
               && (ReportedOwned(c, stop) == finished + stop.bytes <==> s.phase.w.room == Left(c, s))
  {
    var w := s.phase.w;
    CaptureTheorems.StopIsTightStep(w, e);
    if w.stopped {
      CaptureTheorems.StepFromStopped(w, e);
    } else {
      CaptureTheorems.StepFromRunning(w, e);
    }
    OwnedIsFinishedPlusRun(c, s.dir, s.phase.name);
  }

  // ----- What may disappear -----

  ghost predicate IsRun(s: Sys, name: string) { s.phase.Live? && s.phase.name == name }

  /** One step deletes or changes an entry that is not this run's file only by an age pass
      that found it finished, owned and past the age cap. */
  lemma StepSpares(c: Config, s: Sys, step: Step, s': Sys, n: string)
    requires Takes(c, s, step, s') && !step.Foreign? && n in s.dir && !IsRun(s, n)
    ensures (n in s'.dir && s'.dir[n] == s.dir[n] && !IsRun(s', n))
            || (step.AgePass? && c.maxAge > 0 && IsExpired(s.dir, PolicyOf(c, s), step.now, n))
  {
    match step
    case AgePass(now, gone) =>
      assert n in gone ==> n in ExpiredNames(s.dir, PolicyOf(c, s), now);
    case _ =>
  }

  ghost predicate NoForeign(steps: seq<Step>) {
    forall i :: 0 <= i < |steps| ==> !steps[i].Foreign?
  }

  /** Step i is a teardown that deletes this run's file, named n. */
  ghost predicate Deletes(ss: seq<Sys>, steps: seq<Step>, i: nat, n: string)
    requires i < |ss| && i < |steps|
  {
    steps[i] == Finish(false) && IsRun(ss[i], n)
  }

  /** Step i is an age pass that finds n finished, owned and past the age cap. */
  ghost predicate Expires(c: Config, ss: seq<Sys>, steps: seq<Step>, i: nat, n: string)
    requires i < |ss| && i < |steps|
  {
    steps[i].AgePass? && c.maxAge > 0 && IsExpired(ss[i].dir, PolicyOf(c, ss[i]), steps[i].now, n)
  }

  /** Whatever an entry is, it is still there and unchanged unless some age pass of the trace
      found it expired; this run's own file is the one exception. */
  lemma {:induction false} OnlyExpiredCapturesGo(c: Config, ss: seq<Sys>, steps: seq<Step>, n: string, k: nat)
    requires IsTrace(c, ss, steps) && k < |ss| && n in ss[0].dir && !IsRun(ss[0], n)
    requires NoForeign(steps)
    ensures || (n in ss[k].dir && ss[k].dir[n] == ss[0].dir[n] && !IsRun(ss[k], n))
            || exists i :: 0 <= i < k && Expires(c, ss, steps, i, n) && ss[i].dir[n] == ss[0].dir[n]
  {
    if k > 0 {
      OnlyExpiredCapturesGo(c, ss, steps, n, k - 1);
      assert Takes(c, ss[k - 1], steps[k - 1], ss[k]);
      if n in ss[k - 1].dir && ss[k - 1].dir[n] == ss[0].dir[n] && !IsRun(ss[k - 1], n) {
        StepSpares(c, ss[k - 1], steps[k - 1], ss[k], n);
        assert !(n in ss[k].dir && ss[k].dir[n] == ss[0].dir[n] && !IsRun(ss[k], n)) ==>
            Expires(c, ss, steps, k - 1, n);
      }
    }
  }

  /** An entry whose name is not the pattern's is never touched. */
  lemma OtherNamesStay(c: Config, ss: seq<Sys>, steps: seq<Step>, n: string, k: nat)
    requires IsTrace(c, ss, steps) && k < |ss| && n in ss[0].dir && !IsRun(ss[0], n) && NoForeign(steps)
    requires !LooksLikeCapture(c.template, n)
    ensures n in ss[k].dir && ss[k].dir[n] == ss[0].dir[n]
  {
    OwnedIff(c.template, n);
    OnlyExpiredCapturesGo(c, ss, steps, n, k);
  }

  /** Nothing else removes an entry: over any trace in which others delete nothing, whatever was
      there, this run's own file included, is still there unless a teardown that does not retain
      deleted it as its own file or an age pass found it expired, when it was no running
      capture's. */
  lemma {:induction false} RunFileStays(c: Config, ss: seq<Sys>, steps: seq<Step>, n: string, k: nat)
    requires IsTrace(c, ss, steps) && k < |ss| && n in ss[0].dir && NoForeign(steps)
    ensures n in ss[k].dir
            || exists i :: 0 <= i < k && (Deletes(ss, steps, i, n) || (Expires(c, ss, steps, i, n) && !IsRun(ss[i], n)))
  {
    if k > 0 {
      RunFileStays(c, ss, steps, n, k - 1);
      assert Takes(c, ss[k - 1], steps[k - 1], ss[k]);
      if n in ss[k - 1].dir && n !in ss[k].dir {
        StepRemoves(c, ss[k - 1], steps[k - 1], ss[k], n);
        assert Deletes(ss, steps, k - 1, n) || (Expires(c, ss, steps, k - 1, n) && !IsRun(ss[k - 1], n));
      }
    }
  }

  lemma StepRemoves(c: Config, s: Sys, step: Step, s': Sys, n: string)
    requires Takes(c, s, step, s') && !step.Foreign? && n in s.dir && n !in s'.dir
    ensures || (step == Finish(false) && IsRun(s, n))
            || (step.AgePass? && c.maxAge > 0 && IsExpired(s.dir, PolicyOf(c, s), step.now, n) && !IsRun(s, n))
  {
    match step
    case AgePass(now, gone) => assert n in ExpiredNames(s.dir, PolicyOf(c, s), now);
    case _ =>
  }

  // ----- Parts of a trace -----

  /** The steps lead from s to s'. */
  ghost predicate Leads(c: Config, s: Sys, steps: seq<Step>, s': Sys) {
    exists ss :: IsTrace(c, ss, steps) && ss[0] == s && ss[|steps|] == s'
  }

  lemma LeadsNowhere(c: Config, s: Sys)
    ensures Leads(c, s, [], s)
  {
    assert IsTrace(c, [s], []);
  }

  lemma LeadsOne(c: Config, s: Sys, step: Step, s': Sys)
    requires Takes(c, s, step, s')
    ensures Leads(c, s, [step], s')
  {
    var ss := [s, s'];
    assert IsTrace(c, ss, [step]);
  }

  lemma LeadsOn(c: Config, s: Sys, steps: seq<Step>, m: Sys, step: Step, s': Sys)
    requires Leads(c, s, steps, m) && Takes(c, m, step, s')
    ensures Leads(c, s, steps + [step], s')
  {
    var ss :| IsTrace(c, ss, steps) && ss[0] == s && ss[|steps|] == m;
    var longer := ss + [s'];
    forall i | 0 <= i < |steps + [step]| ensures Takes(c, longer[i], (steps + [step])[i], longer[i + 1]) {
      if i < |steps| {
        assert Takes(c, ss[i], steps[i], ss[i + 1]);
      }
    }
    assert IsTrace(c, longer, steps + [step]);
  }

  /** Whatever the steps, the limit and the invariant hold where they lead. */
  lemma LeadsKeepsSysInv(c: Config, s: Sys, steps: seq<Step>, s': Sys)
    requires c.maxBytes > 0 && SysInv(c, s) && Leads(c, s, steps, s')
    ensures SysInv(c, s')
  {
    var ss :| IsTrace(c, ss, steps) && ss[0] == s && ss[|steps|] == s';
    TraceKeepsSysInv(c, ss, steps, |steps|);
  }

  /** The write steps of these events, each leaving in the directory what the file then holds. */
  ghost function Writes(w: Writer, es: seq<Event>, now: int): seq<Step>
    decreases |es|
  {
    if es == [] then []
    else
      var n := |es| - 1;
      Writes(w, es[..n], now) + [Write(es[n], FileBytes(Run(w, es)), now)]
  }

  /** Every run of the writer is write steps of the system. */
  lemma {:induction false} WritesLead(c: Config, s: Sys, es: seq<Event>, now: int)
    requires s.phase.Live? && Runs(s.phase.w, es) && es != []
    requires forall i :: 0 <= i < |es| ==> !es[i].RoomIn?
    ensures var v := Run(s.phase.w, es);
            Leads(c, s, Writes(s.phase.w, es, now),
                  Sys(Resized(s.dir, s.phase.name, FileBytes(v), now), s.phase.(w := v)))
    decreases |es|
  {
    var w, n := s.phase.w, |es| - 1;
    var front, e := es[..n], es[n];
    assert es == front + [e];
    RunConcat(w, front, [e]);
    var u, v := Run(w, front), Run(w, es);
    assert Enabled(u, e) && v == Next(u, e) by { assert [e][1..] == []; assert Run(Next(u, e), []) == Next(u, e); }
    var s' := Sys(Resized(s.dir, s.phase.name, FileBytes(v), now), s.phase.(w := v));
    var step := Write(e, FileBytes(v), now);
    if front == [] {
      LeadsOne(c, s, step, s');
      assert Writes(w, es, now) == [step];
    } else {
      WritesLead(c, s, front, now);
      var m := Sys(Resized(s.dir, s.phase.name, FileBytes(u), now), s.phase.(w := u));
      assert Takes(c, m, step, s');
      LeadsOn(c, s, Writes(w, front, now), m, step, s');
    }
  }
}
