/** The keylog beside the capture. Appending a line takes three steps under the keylog's own
    lock (pass the gate, write the file, hand the line to the capture), and the gate reads the
    capture's state without the capture's lock, so anything may happen to the capture in
    between. */
module KeylogCapture {
  import opened Wrappers
  import opened Pcapng
  import opened CaptureSpec
  import opened CaptureRuns
  import opened CaptureTheorems
  import opened CaptureClose
  import Nss

  /** Where the one append that holds the keylog's lock stands. */
  datatype Stage = Free | Passed(line: string) | Logged(line: string)

  datatype Pair = Pair(lines: seq<string>, seen: set<string>, stage: Stage, w: Writer)

  datatype Action =
    | Enter(line: string)
    | LogLine(ok: bool)
    | Hand
    | Capture(e: Event)

  predicate GateOpen(w: Writer) { !w.stopped }

  ghost predicate CanAct(k: Pair, a: Action) {
    match a
    case Enter(line) => k.stage.Free? && Nss.Valid(line)
    case LogLine(_) => k.stage.Passed? && Nss.Valid(k.stage.line)
    case Hand => k.stage.Logged?
    case Capture(e) => !e.SecretIn? && Enabled(k.w, e)
  }

  function Act(k: Pair, a: Action): Pair
    requires a.Enter? ==> Nss.Valid(a.line)
    requires a.LogLine? ==> k.stage.Passed? && Nss.Valid(k.stage.line)
    requires a.Hand? ==> k.stage.Logged?
  {
    match a
    case Enter(line) =>
      if !GateOpen(k.w) || Nss.Key(line) in k.seen then k else k.(stage := Passed(line))
    case LogLine(ok) =>
      if !ok then k.(stage := Free)
      else k.(lines := k.lines + [k.stage.line], seen := k.seen + {Nss.Key(k.stage.line)},
              stage := Logged(k.stage.line))
    case Hand => k.(w := AddSecret(k.w, k.stage.line).w, stage := Free)
    case Capture(e) => k.(w := Next(k.w, e))
  }

  /** What Append does when nothing comes between its steps. */
  function AppendAtOnce(k: Pair, line: string, ok: bool): Pair
    requires k.stage.Free?
  {
    if !Nss.Valid(line) then k
    else
      var p := Act(k, Enter(line));
      if p.stage.Free? then p
      else
        var l := Act(p, LogLine(ok));
        if l.stage.Free? then l else Act(l, Hand)
  }

  lemma AppendedAtOnce(k: Pair, line: string)
    requires k.stage.Free? && GateOpen(k.w) && Nss.Valid(line) && Nss.Key(line) !in k.seen
    ensures AppendAtOnce(k, line, true)
            == Pair(k.lines + [line], k.seen + {Nss.Key(line)}, Free, AddSecret(k.w, line).w)
  {
    var p := Act(k, Enter(line));
    assert p == k.(stage := Passed(line));
    var l := Act(p, LogLine(true));
    assert l.stage == Logged(line) && l.w == k.w;
  }

  lemma NotAppendedAtOnce(k: Pair, line: string, ok: bool)
    requires k.stage.Free?
    requires !Nss.Valid(line) || !GateOpen(k.w) || Nss.Key(line) in k.seen || !ok
    ensures AppendAtOnce(k, line, ok) == k
  {
    if Nss.Valid(line) && GateOpen(k.w) && Nss.Key(line) !in k.seen {
      var p := Act(k, Enter(line));
      assert p == k.(stage := Passed(line));
      assert Act(p, LogLine(ok)) == k;
    }
  }

  ghost predicate Acts(k: Pair, acts: seq<Action>)
    decreases |acts|
  {
    acts == [] || (CanAct(k, acts[0]) && Acts(Act(k, acts[0]), acts[1..]))
  }

  ghost function ActAll(k: Pair, acts: seq<Action>): Pair
    requires Acts(k, acts)
    decreases |acts|
  {
    if acts == [] then k else ActAll(Act(k, acts[0]), acts[1..])
  }

  // ----- No triple twice -----

  /** The keys remembered are those of the lines, each once. */
  ghost predicate KeysKnown(lines: seq<string>, seen: set<string>) {
    && (forall i :: 0 <= i < |lines| ==> Nss.Valid(lines[i]) && Nss.Key(lines[i]) in seen)
    && (forall i, j :: 0 <= i < j < |lines| ==> Nss.Key(lines[i]) != Nss.Key(lines[j]))
    && (forall key :: key in seen ==> exists i :: 0 <= i < |lines| && Nss.Key(lines[i]) == key)
  }

  ghost predicate DedupInv(k: Pair) {
    && KeysKnown(k.lines, k.seen)
    && (k.stage.Passed? ==> Nss.Valid(k.stage.line) && Nss.Key(k.stage.line) !in k.seen)
  }

  /** Adding a line with a new key keeps the keys distinct and all remembered. */
  lemma NewKeyIsKnown(lines: seq<string>, seen: set<string>, line: string)
    requires KeysKnown(lines, seen) && Nss.Valid(line) && Nss.Key(line) !in seen
    ensures KeysKnown(lines + [line], seen + {Nss.Key(line)})
  {
    var longer := lines + [line];
    forall key | key in seen + {Nss.Key(line)} ensures exists i :: 0 <= i < |longer| && Nss.Key(longer[i]) == key {
      if key in seen {
        var i :| 0 <= i < |lines| && Nss.Key(lines[i]) == key;
        assert longer[i] == lines[i];
      } else {
        assert longer[|lines|] == line;
      }
    }
  }

  lemma ActKeepsDedup(k: Pair, a: Action)
    requires DedupInv(k) && CanAct(k, a)
    ensures DedupInv(Act(k, a))
  {
    if a == LogLine(true) {
      NewKeyIsKnown(k.lines, k.seen, k.stage.line);
    }
  }

  /** No two lines of the keylog hold the same label, client random and secret. */
  lemma TriplesAreDistinct(k: Pair, i: nat, j: nat)
    requires DedupInv(k) && i < j < |k.lines|
    ensures Nss.Fields(k.lines[i]) != Nss.Fields(k.lines[j])
  {
    Nss.KeyIdentifiesTriple(k.lines[i], k.lines[j]);
  }

  ghost predicate DistinctTriples(lines: seq<string>) {
    forall i, j :: 0 <= i < j < |lines| ==> Nss.Fields(lines[i]) != Nss.Fields(lines[j])
  }

  lemma DedupIsDistinct(k: Pair)
    requires DedupInv(k)
    ensures DistinctTriples(k.lines)
  {
    forall i, j | 0 <= i < j < |k.lines| ensures Nss.Fields(k.lines[i]) != Nss.Fields(k.lines[j]) {
      TriplesAreDistinct(k, i, j);
    }
  }

  /** A valid line that meets an open gate is dropped exactly when its triple is already in
      the keylog. */
  lemma DroppedIffAlreadyLogged(k: Pair, line: string)
    requires DedupInv(k) && k.stage.Free? && Nss.Valid(line) && GateOpen(k.w)
    ensures Act(k, Enter(line)).stage.Free?
            <==> exists i :: 0 <= i < |k.lines| && Nss.Fields(k.lines[i]) == Nss.Fields(line)
  {
    if Nss.Key(line) in k.seen {
      var i :| 0 <= i < |k.lines| && Nss.Key(k.lines[i]) == Nss.Key(line);
      Nss.KeyIdentifiesTriple(k.lines[i], line);
    } else {
      forall i | 0 <= i < |k.lines| ensures Nss.Fields(k.lines[i]) != Nss.Fields(line) {
        Nss.KeyIdentifiesTriple(k.lines[i], line);
      }
    }
  }

  // ----- The keylog follows the capture -----

  /** `a` is `b`, or `b` with its last line missing. */
  ghost predicate UpToLast(a: seq<string>, b: seq<string>) {
    a == b || (b != [] && a == b[..|b| - 1])
  }

  ghost predicate FollowInv(k: Pair) {
    var a := AdmittedLines(k.w);
    match k.stage
    case Logged(line) => line != [] && k.lines == a + [line]
    case Passed(_) => k.lines == a
    case Free => if k.w.stopped then UpToLast(a, k.lines) else k.lines == a
  }

  lemma ValidIsNotEmpty(line: string)
    requires Nss.Valid(line)
    ensures line != []
  {
  }

  lemma HandKeepsFollow(k: Pair)
    requires FollowInv(k) && k.stage.Logged?
    ensures FollowInv(Act(k, Hand))
  {
    var v := Act(k, Hand);
    var line := k.stage.line;
    if AddSecret(k.w, line).ok {
      SecretAdmits(k.w, line);
    } else {
      SameQueuesAdmit(k.w, v.w);
      assert v.w.stopped;
      assert k.lines[..|k.lines| - 1] == AdmittedLines(k.w);
    }
  }

  lemma CaptureKeepsFollow(k: Pair, e: Event)
    requires FollowInv(k) && !e.SecretIn?
    ensures FollowInv(Act(k, Capture(e)))
  {
    assert AdmittedLines(Next(k.w, e)) == AdmittedLines(k.w) by { StepAdmits(k.w, e); }
    assert k.w.stopped ==> Next(k.w, e).stopped by {
      if k.w.stopped {
        StepFromStopped(k.w, e);
      }
    }
  }

  lemma ActKeepsFollow(k: Pair, a: Action)
    requires FollowInv(k) && CanAct(k, a)
    ensures FollowInv(Act(k, a))
  {
    match a
    case Enter(line) => assert FollowInv(Act(k, a));
    case LogLine(_) => ValidIsNotEmpty(k.stage.line);
    case Hand => HandKeepsFollow(k);
    case Capture(e) => CaptureKeepsFollow(k, e);
  }

  lemma ActKeepsCaptureInv(k: Pair, a: Action)
    requires Inv(k.w) && CanAct(k, a)
    ensures Inv(Act(k, a).w)
  {
    match a
    case Hand => SecretKeepsInv(k.w, k.stage.line);
    case Capture(e) => StepKeepsInv(k.w, e);
    case _ =>
  }

  ghost predicate PairInv(k: Pair) { DedupInv(k) && FollowInv(k) && Inv(k.w) }

  lemma {:induction false} ActsKeepPairInv(k: Pair, acts: seq<Action>)
    requires PairInv(k) && Acts(k, acts)
    ensures PairInv(ActAll(k, acts))
    decreases |acts|
  {
    if acts != [] {
      ActKeepsDedup(k, acts[0]);
      ActKeepsFollow(k, acts[0]);
      ActKeepsCaptureInv(k, acts[0]);
      ActsKeepPairInv(Act(k, acts[0]), acts[1..]);
    }
  }

  ghost function InitPair(path: string, header: nat, room: int, start: int): Pair {
    Pair([], {}, Free, Init(path, header, room, start))
  }

  /** The lines the capture has admitted are the keylog's, in order, missing at most the last,
      which only a stop or an append under way can leave out. */
  ghost predicate Followed(k: Pair) {
    && UpToLast(AdmittedLines(k.w), k.lines)
    && (!k.w.stopped && !k.stage.Logged? ==> AdmittedLines(k.w) == k.lines)
    && DistinctTriples(k.lines)
  }

  lemma InitPairInv(path: string, header: nat, room: int, start: int)
    ensures PairInv(InitPair(path, header, room, start))
    ensures AdmittedLines(InitPair(path, header, room, start).w) == []
  {
    InitInv(path, header, room, start);
    assert Blocks(InitPair(path, header, room, start).w.log) == [];
  }

  lemma InvIsFollowed(k: Pair)
    requires PairInv(k)
    ensures Followed(k)
  {
    DedupIsDistinct(k);
    assert k.stage.Logged? ==> k.lines[..|k.lines| - 1] == AdmittedLines(k.w);
  }

  /** In every interleaving, the lines the capture has admitted are the keylog's lines, in
      order, missing at most the last; and no triple is in the keylog twice. */
  lemma KeylogFollowsCapture(path: string, header: nat, room: int, start: int, acts: seq<Action>)
    requires Acts(InitPair(path, header, room, start), acts)
    ensures Followed(ActAll(InitPair(path, header, room, start), acts))
  {
    var init := InitPair(path, header, room, start);
    var k := ActAll(init, acts);
    InitPairInv(path, header, room, start);
    ActsKeepPairInv(init, acts);
    InvIsFollowed(k);
  }

  // ----- Bytes -----

  /** The payloads of the secrets blocks, one after the other. */
  function PayloadBytes(blocks: seq<Block>): string {
    if blocks == [] then []
    else (if blocks[0].Secrets? then SecretsPayload(blocks[0].lines) else []) + PayloadBytes(blocks[1..])
  }

  ghost predicate NoEmptyBatch(blocks: seq<Block>) {
    forall i :: 0 <= i < |blocks| && blocks[i].Secrets? ==> blocks[i].lines != []
  }

  lemma {:induction false} PayloadsAreTerminatedLines(blocks: seq<Block>)
    requires NoEmptyBatch(blocks)
    ensures PayloadBytes(blocks) == Terminated(LinesIn(blocks))
  {
    if blocks != [] {
      PayloadsAreTerminatedLines(blocks[1..]);
      if blocks[0].Secrets? {
        PayloadIsTerminated(blocks[0].lines);
        TerminatedConcat(blocks[0].lines, LinesIn(blocks[1..]));
      } else {
        assert LinesIn(blocks) == LinesIn(blocks[1..]);
      }
    }
  }

  lemma WriteHeldBatches(w: Writer, n: nat, io: nat -> bool, cause: Cause)
    requires n <= |w.held| && NoEmptyBatch(Blocks(w.log))
    ensures NoEmptyBatch(Blocks(WriteHeld(w, n, io, cause).log))
  {
    BlocksConcat(w.log, SecretsAttempts(w.pending, w.open, io, cause));
  }

  lemma PacketKeepsBatches(w: Writer, info: CaptureInfo, data: string, now: int, io: nat -> bool)
    requires NoEmptyBatch(Blocks(w.log))
    ensures NoEmptyBatch(Blocks(WritePacket(w, info, data, now, io).w.log))
  {
    var a := Admit(w, EpbSize(|data|));
    if a.ok {
      var q := Enqueue(a.w, info, data, now);
      WriteHeldBatches(q, Release(q.held), io, Forced);
    }
  }

  lemma TickKeepsBatches(w: Writer, now: int, io: nat -> bool)
    requires NoEmptyBatch(Blocks(w.log))
    ensures NoEmptyBatch(Blocks(Tick(w, now, io).log))
  {
    WriteHeldBatches(w.(clock := now), DueCount(w.held, now - HOLD_WINDOW), io, Due(now));
  }

  lemma CloseKeepsBatches(w: Writer, io: nat -> bool)
    requires NoEmptyBatch(Blocks(w.log))
    ensures NoEmptyBatch(Blocks(FinishClose(w, io).log))
  {
    WriteHeldBatches(w, |w.held|, io, Final);
  }

  lemma StepKeepsBatches(w: Writer, e: Event)
    requires NoEmptyBatch(Blocks(w.log))
    ensures NoEmptyBatch(Blocks(Next(w, e).log))
  {
    match e
    case PacketIn(info, data, now, io) => PacketKeepsBatches(w, info, data, now, io);
    case TickAt(now, io) => TickKeepsBatches(w, now, io);
    case CloseEnd(io) => CloseKeepsBatches(w, io);
    case SecretIn(_) => assert Next(w, e).log == w.log;
    case RoomIn(_) => assert Next(w, e).log == w.log;
    case CloseBegin => assert Next(w, e).log == w.log;
    case DrainExit => assert Next(w, e).log == w.log;
  }

  ghost predicate CleanActs(acts: seq<Action>) {
    forall i :: 0 <= i < |acts| && acts[i].Capture? ==> Clean(acts[i].e)
  }

  /** While the file is open and no write has failed, it holds every block logged, none of
      them an empty batch. */
  ghost predicate FileInv(w: Writer) {
    NoEmptyBatch(Blocks(w.log)) && (!w.closed ==> AllOk(w.log))
  }

  lemma ActKeepsFileInv(k: Pair, a: Action)
    requires Inv(k.w) && FileInv(k.w) && CanAct(k, a) && (a.Capture? ==> Clean(a.e))
    ensures FileInv(Act(k, a).w) && (k.w.closed ==> Act(k, a).w.closed)
  {
    if a.Capture? {
      StepKeepsBatches(k.w, a.e);
      if k.w.closed {
        ClosedStep(k.w, a.e);
      } else {
        CleanStep(k.w, a.e);
      }
    } else {
      assert Act(k, a).w.log == k.w.log;
    }
  }

  lemma {:induction false} ActsKeepFileInv(k: Pair, acts: seq<Action>)
    requires Inv(k.w) && FileInv(k.w) && Acts(k, acts) && CleanActs(acts)
    ensures FileInv(ActAll(k, acts).w)
    decreases |acts|
  {
    if acts != [] {
      ActKeepsFileInv(k, acts[0]);
      ActKeepsCaptureInv(k, acts[0]);
      assert CleanActs(acts[1..]);
      ActsKeepFileInv(Act(k, acts[0]), acts[1..]);
    }
  }

  lemma UpToLastIsPrefix(a: seq<string>, b: seq<string>, front: seq<string>, back: seq<string>)
    requires UpToLast(a, b) && a == front + back
    ensures |Terminated(front)| <= |Terminated(b)| && Terminated(b)[..|Terminated(front)|] == Terminated(front)
  {
    assert b == front + b[|front|..];
    TerminatedConcat(front, b[|front|..]);
  }

  /** Before the capture is closed and absent write errors, the payload bytes of its secrets
      blocks are a prefix of the keylog file's bytes. */
  lemma PayloadsArePrefixOfKeylog(path: string, header: nat, room: int, start: int, acts: seq<Action>)
    requires Acts(InitPair(path, header, room, start), acts) && CleanActs(acts)
    requires !ActAll(InitPair(path, header, room, start), acts).w.closed
    ensures var k := ActAll(InitPair(path, header, room, start), acts);
            var payload := PayloadBytes(Written(k.w.log));
            |payload| <= |Terminated(k.lines)| && Terminated(k.lines)[..|payload|] == payload
  {
    var init := InitPair(path, header, room, start);
    var k := ActAll(init, acts);
    InitInv(path, header, room, start);
    ActsKeepFileInv(init, acts);
    KeylogFollowsCapture(path, header, room, start, acts);
    AllOkIsWritten(k.w.log);
    PayloadsAreTerminatedLines(Blocks(k.w.log));
    UpToLastIsPrefix(AdmittedLines(k.w), k.lines, LinesIn(Blocks(k.w.log)), k.w.pending);
  }

  // ----- At and after the close -----

  /** The event that closes the capture puts every line admitted so far in the file: absent
      write errors, the keylog then holds at most one line the closed capture does not. */
  lemma ClosedCaptureHoldsKeylog(path: string, header: nat, room: int, start: int, acts: seq<Action>, e: Event)
    requires Acts(InitPair(path, header, room, start), acts) && CleanActs(acts) && Clean(e)
    requires var k := ActAll(InitPair(path, header, room, start), acts);
             CanAct(k, Capture(e)) && !k.w.closed && Next(k.w, e).closed
    ensures var k := ActAll(InitPair(path, header, room, start), acts);
            UpToLast(LinesIn(Written(Next(k.w, e).log)), k.lines)
  {
    var init := InitPair(path, header, room, start);
    var k := ActAll(init, acts);
    InitInv(path, header, room, start);
    ActsKeepFileInv(init, acts);
    KeylogFollowsCapture(path, header, room, start, acts);
    ActsKeepCaptureInv(init, acts);
    ClosingHoldsAdmitted(k.w, e);
  }

  lemma {:induction false} ActsKeepCaptureInv(k: Pair, acts: seq<Action>)
    requires Inv(k.w) && Acts(k, acts)
    ensures Inv(ActAll(k, acts).w)
    decreases |acts|
  {
    if acts != [] {
      ActKeepsCaptureInv(k, acts[0]);
      ActsKeepCaptureInv(Act(k, acts[0]), acts[1..]);
    }
  }

  lemma SecretKeepsClosed(w: Writer, line: string)
    requires CloseInv(w) && w.closed
    ensures var v := AddSecret(w, line).w; CloseInv(v) && v.closed && v.log == w.log
  {
  }

  /** A line accepted after the capture is closed, while its state still reads active, is in
      the keylog and in no block of the capture, now or later. */
  lemma LateLineIsLost(k: Pair, line: string, later: seq<Event>)
    requires PairInv(k) && k.stage.Free? && k.w.closed && !k.w.stopped
    requires Nss.Valid(line) && Nss.Key(line) !in k.seen
    requires Runs(AppendAtOnce(k, line, true).w, later)
    ensures var v := AppendAtOnce(k, line, true);
            v.lines == k.lines + [line] && Written(Run(v.w, later).log) == Written(k.w.log)
  {
    var v := AppendAtOnce(k, line, true);
    AppendedAtOnce(k, line);
    SecretKeepsClosed(k.w, line);
    StaysClosed(v.w, later);
  }

  // ----- Exactly when every key is in the capture -----

  /** What the capture must look like when a line is handed over for the line to get in: still
      open, not stopped, and with room for one more block. */
  ghost predicate HandMet(k: Pair)
    requires k.stage.Logged?
  {
    && !k.w.closed && !k.w.stopped
    && (k.w.limited ==> k.w.admitted + DsbSize(|k.stage.line| + 1) <= k.w.room)
  }

  /** Every hand-over of a run met that. */
  ghost predicate AllHandsMet(k: Pair, acts: seq<Action>)
    requires Acts(k, acts)
    decreases |acts|
  {
    acts == [] || ((acts[0].Hand? ==> HandMet(k)) && AllHandsMet(Act(k, acts[0]), acts[1..]))
  }

  /** The line one step hands over, and the same if the capture takes it. */
  ghost function HandedLine(k: Pair, a: Action): seq<string>
    requires CanAct(k, a)
  {
    if a.Hand? then [k.stage.line] else []
  }

  ghost function TakenLine(k: Pair, a: Action): seq<string>
    requires CanAct(k, a)
  {
    if a.Hand? && HandMet(k) then [k.stage.line] else []
  }

  ghost function HandedLines(k: Pair, acts: seq<Action>): seq<string>
    requires Acts(k, acts)
    decreases |acts|
  {
    if acts == [] then [] else HandedLine(k, acts[0]) + HandedLines(Act(k, acts[0]), acts[1..])
  }

  ghost function TakenLines(k: Pair, acts: seq<Action>): seq<string>
    requires Acts(k, acts)
    decreases |acts|
  {
    if acts == [] then [] else TakenLine(k, acts[0]) + TakenLines(Act(k, acts[0]), acts[1..])
  }

  lemma {:induction false} AllTakenIffAllMet(k: Pair, acts: seq<Action>)
    requires Acts(k, acts)
    ensures |TakenLines(k, acts)| <= |HandedLines(k, acts)|
    ensures AllHandsMet(k, acts) ==> TakenLines(k, acts) == HandedLines(k, acts)
    ensures !AllHandsMet(k, acts) ==> |TakenLines(k, acts)| < |HandedLines(k, acts)|
    decreases |acts|
  {
    if acts != [] {
      AllTakenIffAllMet(Act(k, acts[0]), acts[1..]);
    }
  }

  /** Distinct lines that all occur in `b` are no more than `b` has. */
  lemma {:induction false} DistinctWithin(a: seq<string>, b: seq<string>)
    requires forall i, j :: 0 <= i < j < |a| ==> a[i] != a[j]
    requires forall i :: 0 <= i < |a| ==> a[i] in b
    ensures |a| <= |b|
  {
    if a != [] {
      var p :| 0 <= p < |b| && b[p] == a[0];
      var rest := b[..p] + b[p + 1..];
      forall i | 0 <= i < |a[1..]| ensures a[1..][i] in rest {
        var q :| 0 <= q < |b| && b[q] == a[i + 1];
        assert rest[if q < p then q else q - 1] == b[q];
      }
      DistinctWithin(a[1..], rest);
    }
  }

  /** The keylog without the line still to be handed over. */
  ghost function HandedPart(k: Pair): seq<string> {
    if k.stage.Logged? && k.lines != [] then k.lines[..|k.lines| - 1] else k.lines
  }

  /** The lines the capture's file holds or will hold. */
  ghost function Destined(k: Pair): seq<string> {
    if k.w.closed then LinesIn(Written(k.w.log)) else AdmittedLines(k.w)
  }

  lemma ActLogs(k: Pair, a: Action)
    requires FollowInv(k) && CanAct(k, a)
    ensures HandedPart(Act(k, a)) == HandedPart(k) + HandedLine(k, a)
  {
    match a
    case Hand => assert HandedPart(k) + [k.stage.line] == k.lines;
    case LogLine(_) => assert HandedPart(Act(k, a)) == HandedPart(k);
    case Enter(_) => assert HandedPart(Act(k, a)) == HandedPart(k);
    case Capture(_) => assert HandedPart(Act(k, a)) == HandedPart(k);
  }

  lemma HandTakes(k: Pair)
    requires k.stage.Logged? && k.stage.line != []
    ensures Destined(Act(k, Hand)) == Destined(k) + TakenLine(k, Hand)
  {
    var v := AddSecret(k.w, k.stage.line);
    if k.w.closed {
      assert v.w.log == k.w.log && v.w.closed;
    } else if v.ok {
      SecretAdmits(k.w, k.stage.line);
    } else {
      SameQueuesAdmit(k.w, v.w);
    }
  }

  lemma CaptureTakes(k: Pair, e: Event)
    requires Inv(k.w) && FileInv(k.w) && CanAct(k, Capture(e)) && Clean(e)
    ensures Destined(Act(k, Capture(e))) == Destined(k)
  {
    if k.w.closed {
      ClosedStep(k.w, e);
    } else if Next(k.w, e).closed {
      ClosingHoldsAdmitted(k.w, e);
    } else {
      StepAdmits(k.w, e);
    }
  }

  lemma ActTakes(k: Pair, a: Action)
    requires PairInv(k) && FileInv(k.w) && CanAct(k, a) && (a.Capture? ==> Clean(a.e))
    ensures Destined(Act(k, a)) == Destined(k) + TakenLine(k, a)
  {
    match a
    case Hand => HandTakes(k);
    case Capture(e) => CaptureTakes(k, e);
    case Enter(_) => assert Act(k, a).w == k.w;
    case LogLine(_) => assert Act(k, a).w == k.w;
  }

  /** Over any clean run the keylog gains the lines handed over, and the file those taken. */
  lemma {:induction false} ActsTake(k: Pair, acts: seq<Action>)
    requires PairInv(k) && FileInv(k.w) && Acts(k, acts) && CleanActs(acts)
    ensures HandedPart(ActAll(k, acts)) == HandedPart(k) + HandedLines(k, acts)
    ensures Destined(ActAll(k, acts)) == Destined(k) + TakenLines(k, acts)
    decreases |acts|
  {
    if acts != [] {
      var a, v := acts[0], Act(k, acts[0]);
      ActLogs(k, a);
      ActTakes(k, a);
      ActKeepsDedup(k, a);
      ActKeepsFollow(k, a);
      ActKeepsCaptureInv(k, a);
      ActKeepsFileInv(k, a);
      assert CleanActs(acts[1..]);
      ActsTake(v, acts[1..]);
      Associative(HandedPart(k), HandedLine(k, a), HandedLines(v, acts[1..]));
      Associative(Destined(k), TakenLine(k, a), TakenLines(v, acts[1..]));
    }
  }

  lemma HoldsTaken(init: Pair, acts: seq<Action>, k: Pair)
    requires PairInv(init) && FileInv(init.w) && Acts(init, acts) && CleanActs(acts) && k == ActAll(init, acts)
    requires init.stage.Free? && init.lines == [] && !init.w.closed && AdmittedLines(init.w) == []
    requires k.w.closed && !k.stage.Logged?
    ensures k.lines == HandedLines(init, acts) && LinesIn(Written(k.w.log)) == TakenLines(init, acts)
  {
    ActsTake(init, acts);
    assert HandedPart(k) == HandedLines(init, acts);
    assert Destined(k) == TakenLines(init, acts);
  }

  /** What the two files hold once the capture is closed, absent write errors: the keylog every
      line handed over, the capture those that found it open, unstopped and with room. */
  lemma ClosedCaptureHoldsTaken(path: string, header: nat, room: int, start: int, acts: seq<Action>)
    requires Acts(InitPair(path, header, room, start), acts) && CleanActs(acts)
    requires var k := ActAll(InitPair(path, header, room, start), acts); k.w.closed && !k.stage.Logged?
    ensures var init := InitPair(path, header, room, start);
            var k := ActAll(init, acts);
            k.lines == HandedLines(init, acts) && LinesIn(Written(k.w.log)) == TakenLines(init, acts)
  {
    var init := InitPair(path, header, room, start);
    InitPairInv(path, header, room, start);
    HoldsTaken(init, acts, ActAll(init, acts));
  }

  /** "Every key in the keylog is in the capture" holds of the closed capture exactly when every
      hand-over found the capture open, unstopped and with room; then its lines are the keylog's,
      in order. */
  lemma EveryKeyInCaptureIff(path: string, header: nat, room: int, start: int, acts: seq<Action>)
    requires Acts(InitPair(path, header, room, start), acts) && CleanActs(acts)
    requires var k := ActAll(InitPair(path, header, room, start), acts); k.w.closed && !k.stage.Logged?
    ensures var init := InitPair(path, header, room, start);
            var k := ActAll(init, acts);
            var inFile := LinesIn(Written(k.w.log));
            && (inFile == k.lines <==> AllHandsMet(init, acts))
            && ((forall i :: 0 <= i < |k.lines| ==> k.lines[i] in inFile) <==> AllHandsMet(init, acts))
  {
    var init := InitPair(path, header, room, start);
    var k := ActAll(init, acts);
    ClosedCaptureHoldsTaken(path, header, room, start, acts);
    AllTakenIffAllMet(init, acts);
    if forall i :: 0 <= i < |k.lines| ==> k.lines[i] in LinesIn(Written(k.w.log)) {
      KeylogFollowsCapture(path, header, room, start, acts);
      assert DistinctTriples(k.lines);
      DistinctWithin(k.lines, LinesIn(Written(k.w.log)));
    }
  }

  // ----- The two ways a key is lost -----

  /** The line is in the keylog and the closed capture holds no line. */
  ghost predicate LosesLine(init: Pair, acts: seq<Action>, line: string) {
    && Acts(init, acts) && CleanActs(acts)
    && var k := ActAll(init, acts);
       k.w.closed && k.stage.Free? && k.lines == [line] && LinesIn(Written(k.w.log)) == []
  }

  lemma ActFirst(k: Pair, a: Action, rest: seq<Action>)
    requires CanAct(k, a) && Acts(Act(k, a), rest)
    ensures Acts(k, [a] + rest) && ActAll(k, [a] + rest) == ActAll(Act(k, a), rest)
  {
    assert ([a] + rest)[1..] == rest;
  }

  lemma {:induction false} ActsConcat(k: Pair, a: seq<Action>, b: seq<Action>)
    requires Acts(k, a) && Acts(ActAll(k, a), b)
    ensures Acts(k, a + b) && ActAll(k, a + b) == ActAll(ActAll(k, a), b)
    decreases |a|
  {
    if a == [] {
      assert a + b == b;
    } else {
      ActsConcat(Act(k, a[0]), a[1..], b);
      ActFirst(k, a[0], a[1..] + b);
      Associative([a[0]], a[1..], b);
      assert [a[0]] + a[1..] == a;
    }
  }

  /** The whole of Close, in three steps. */
  ghost function Closing(io: nat -> bool): seq<Action> {
    [Capture(CloseBegin)] + ([Capture(DrainExit)] + ([Capture(CloseEnd(io))] + []))
  }

  lemma ClosesEmpty(k: Pair, io: nat -> bool)
    requires k.w.draining && !k.w.closed && k.w.log == [] && k.w.held == [] && k.w.pending == []
    ensures Acts(k, Closing(io))
    ensures var v := ActAll(k, Closing(io));
            v == k.(w := v.w) && v.w.closed && v.w.stopped == k.w.stopped && Written(v.w.log) == []
  {
    var b := Act(k, Capture(CloseBegin));
    var d := Act(b, Capture(DrainExit));
    var c := Act(d, Capture(CloseEnd(io)));
    assert c.w.log == [];
    ActFirst(d, Capture(CloseEnd(io)), []);
    ActFirst(b, Capture(DrainExit), [Capture(CloseEnd(io))] + []);
    ActFirst(k, Capture(CloseBegin), [Capture(DrainExit)] + ([Capture(CloseEnd(io))] + []));
  }

  /** The line is written to the keylog; `between` then happens before it is handed over. */
  lemma AppendAround(k: Pair, line: string, between: seq<Action>, p: Pair)
    requires k.stage.Free? && GateOpen(k.w) && Nss.Valid(line) && Nss.Key(line) !in k.seen
    requires p == Pair(k.lines + [line], k.seen + {Nss.Key(line)}, Logged(line), k.w)
    requires Acts(p, between) && ActAll(p, between).stage == Logged(line)
    ensures var acts := [Enter(line)] + ([LogLine(true)] + (between + ([Hand] + [])));
            Acts(k, acts) && ActAll(k, acts) == Act(ActAll(p, between), Hand)
  {
    var e := Act(k, Enter(line));
    ActFirst(ActAll(p, between), Hand, []);
    ActsConcat(p, between, [Hand] + []);
    ActFirst(e, LogLine(true), between + ([Hand] + []));
    ActFirst(k, Enter(line), [LogLine(true)] + (between + ([Hand] + [])));
  }

  lemma ClosingIsClean(io: nat -> bool)
    requires AllTrue(io)
    ensures CleanActs(Closing(io))
  {
  }

  /** A run in two parts that ends with the line lost. */
  lemma LosesInTwo(init: Pair, a: seq<Action>, v: Pair, b: seq<Action>, line: string)
    requires Acts(init, a) && CleanActs(a) && v == ActAll(init, a) && Acts(v, b) && CleanActs(b)
    requires var k := ActAll(v, b); k.w.closed && k.stage.Free? && k.lines == [line] && Written(k.w.log) == []
    ensures LosesLine(init, a + b, line)
  {
    ActsConcat(init, a, b);
  }

  lemma Refused(w: Writer, info: CaptureInfo, data: string, now: int, io: nat -> bool)
    requires !w.stopped && w.limited && w.admitted + EpbSize(|data|) > w.room
    ensures WritePacket(w, info, data, now, io).w == w.(stopped := true)
  {
  }

  lemma StoppedAppend(k: Pair, line: string, packet: Action, append: seq<Action>)
    requires k.stage.Free? && !k.w.stopped && k.lines == [] && k.seen == {} && Nss.Valid(line)
    requires packet.Capture? && packet.e.PacketIn? && CanAct(k, packet)
    requires k.w.limited && k.w.admitted + EpbSize(|packet.e.data|) > k.w.room
    requires append == [Enter(line)] + ([LogLine(true)] + ([packet] + [] + ([Hand] + [])))
    ensures Acts(k, append)
    ensures ActAll(k, append) == Pair([line], {Nss.Key(line)}, Free, k.w.(stopped := true))
  {
    var p := Pair([line], {Nss.Key(line)}, Logged(line), k.w);
    assert k.lines + [line] == p.lines && k.seen + {Nss.Key(line)} == p.seen;
    var q := p.(w := k.w.(stopped := true));
    assert Act(p, packet) == q by {
      Refused(k.w, packet.e.info, packet.e.data, packet.e.now, packet.e.io);
    }
    ActFirst(p, packet, []);
    AppendAround(k, line, [packet] + [], p);
    assert Act(q, Hand).w == q.w;
  }

  /** A packet that does not fit stops the capture between the gate and the sink: for every
      size limit and every valid line there is such a run. */
  lemma StopLosesLine(path: string, header: nat, room: int, start: int, line: string) returns (acts: seq<Action>)
    requires room > 0 && Nss.Valid(line)
    ensures LosesLine(InitPair(path, header, room, start), acts, line)
  {
    var init := InitPair(path, header, room, start);
    var io := (i: nat) => true;
    var packet := Capture(PacketIn(CaptureInfo(None, 0, 0, 0), seq(room, _ => 'x'), start, io));
    var append := [Enter(line)] + ([LogLine(true)] + ([packet] + [] + ([Hand] + [])));
    StoppedAppend(init, line, packet, append);
    var h := ActAll(init, append);
    ClosesEmpty(h, io);
    ClosingIsClean(io);
    LosesInTwo(init, append, h, Closing(io), line);
    acts := append + Closing(io);
  }

  lemma LateAppend(c: Pair, line: string, append: seq<Action>)
    requires c.w.closed && !c.w.stopped && c.stage.Free? && c.lines == [] && c.seen == {} && Nss.Valid(line)
    requires append == [Enter(line)] + ([LogLine(true)] + ([] + ([Hand] + [])))
    ensures Acts(c, append)
    ensures var v := ActAll(c, append);
            v.lines == [line] && v.stage.Free? && v.w.closed && v.w.log == c.w.log
  {
    var p := Pair([line], {Nss.Key(line)}, Logged(line), c.w);
    assert c.lines + [line] == p.lines && c.seen + {Nss.Key(line)} == p.seen;
    AppendAround(c, line, [], p);
  }

  /** A line that comes after Close, while the state still reads active: for every limit or none
      and every valid line there is such a run. */
  lemma CloseLosesLine(path: string, header: nat, room: int, start: int, line: string) returns (acts: seq<Action>)
    requires Nss.Valid(line)
    ensures LosesLine(InitPair(path, header, room, start), acts, line)
  {
    var init := InitPair(path, header, room, start);
    var io := (i: nat) => true;
    ClosesEmpty(init, io);
    var c := ActAll(init, Closing(io));
    var append := [Enter(line)] + ([LogLine(true)] + ([] + ([Hand] + [])));
    LateAppend(c, line, append);
    ClosingIsClean(io);
    LosesInTwo(init, Closing(io), c, append, line);
    acts := Closing(io) + append;
  }
}
