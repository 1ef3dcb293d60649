/** The rate limiter behind `Logger.Limited`: a fixed window that opens at the first
    record it sees, keeps `burst` records and counts the ones it drops. Times are
    integers (nanoseconds); `now` is the clock reading taken by the call. */
module LogLimiter {

  datatype Limit = Limit(interval: int, burst: int, start: int, kept: int, dropped: int)

  /** What one call answers: keep the record or not, and how many were dropped before it. */
  datatype Verdict = Verdict(keep: bool, suppressed: int)

  function Roll(l: Limit, now: int): Limit {
    if now - l.start >= l.interval then l.(start := now, kept := 0) else l
  }

  function AdmitState(l: Limit, now: int): Limit {
    var r := Roll(l, now);
    if r.kept >= r.burst then r.(dropped := r.dropped + 1)
    else r.(kept := r.kept + 1, dropped := 0)
  }

  function AdmitVerdict(l: Limit, now: int): Verdict {
    var r := Roll(l, now);
    if r.kept >= r.burst then Verdict(false, 0) else Verdict(true, r.dropped)
  }

  /** The limiter itself; each call is one critical section. */
  class Limiter {
    const interval: int
    const burst: int
    var start: int
    var kept: int
    var dropped: int

    ghost function State(): Limit reads this {
      Limit(interval, burst, start, kept, dropped)
    }

    constructor (interval: int, burst: int, zeroTime: int)
      ensures State() == Limit(interval, burst, zeroTime, 0, 0)
    {
      this.interval, this.burst, this.start, this.kept, this.dropped := interval, burst, zeroTime, 0, 0;
    }

    method Admit(now: int) returns (keep: bool, suppressed: int)
      modifies this
      ensures State() == AdmitState(old(State()), now)
      ensures Verdict(keep, suppressed) == AdmitVerdict(old(State()), now)
    {
      if now - start >= interval {
        start, kept := now, 0;
      }
      if kept >= burst {
        dropped := dropped + 1;
        return false, 0;
      }
      kept := kept + 1;
      keep, suppressed, dropped := true, dropped, 0;
    }
  }

  // ----- Whole runs -----

  /** The state after calls at `times`, in order. */
  function After(l: Limit, times: seq<int>): Limit {
    if times == [] then l else AdmitState(After(l, times[..|times|-1]), times[|times|-1])
  }

  /** The verdict of the last call of `times`. */
  function LastVerdict(l: Limit, times: seq<int>): Verdict
    requires times != []
  {
    AdmitVerdict(After(l, times[..|times|-1]), times[|times|-1])
  }

  /** How many calls in the half-open span from `lo` to `hi` were kept. */
  function KeptIn(l: Limit, times: seq<int>, lo: int, hi: int): nat {
    if times == [] then 0
    else
      var t := times[|times|-1];
      KeptIn(l, times[..|times|-1], lo, hi)
      + if lo <= t < hi && LastVerdict(l, times).keep then 1 else 0
  }

  /** How many calls were dropped. */
  function DropsIn(l: Limit, times: seq<int>): nat {
    if times == [] then 0
    else DropsIn(l, times[..|times|-1]) + if LastVerdict(l, times).keep then 0 else 1
  }

  /** The sum of every suppressed count handed out with a kept record. */
  function ReportedIn(l: Limit, times: seq<int>): int {
    if times == [] then 0
    else ReportedIn(l, times[..|times|-1]) + LastVerdict(l, times).suppressed
  }

  predicate NonDecreasing(times: seq<int>) {
    forall i, j :: 0 <= i < j < |times| ==> times[i] <= times[j]
  }

  /** A limiter as `Limited` makes it: nothing kept or dropped, and its zero start lies at
      least one interval before the first call. */
  predicate FreshFor(l: Limit, times: seq<int>) {
    && l.kept == 0 && l.dropped == 0
    && (times != [] ==> times[0] - l.start >= l.interval)
  }

  /** What the current window knows about the records kept in the span of one interval at `a`. */
  ghost predicate SpanInvariant(s: Limit, last: int, a: int, c: int) {
    && s.start <= last
    && 1 <= s.kept <= s.burst
    && (s.interval <= 0 || last < a ==> c == 0)
    && (s.start < a ==> c <= s.kept - 1)
    && (a <= s.start < a + s.interval ==> c <= s.burst - 1 + s.kept)
    && (a + s.interval <= s.start ==> c <= 2 * s.burst - 1)
  }

  lemma {:induction false} AfterKeepsSettings(l: Limit, times: seq<int>)
    ensures After(l, times).interval == l.interval && After(l, times).burst == l.burst
  {
    if times != [] {
      AfterKeepsSettings(l, times[..|times|-1]);
    }
  }

  lemma {:induction false} SpanInvariantHolds(l: Limit, times: seq<int>, a: int)
    requires NonDecreasing(times) && times != [] && FreshFor(l, times) && l.burst >= 1
    ensures SpanInvariant(After(l, times), times[|times|-1], a, KeptIn(l, times, a, a + l.interval))
  {
    var front, t := times[..|times|-1], times[|times|-1];
    AfterKeepsSettings(l, front);
    if front == [] {
      assert times == [t];
      assert KeptIn(l, front, a, a + l.interval) == 0;
    } else {
      SpanInvariantHolds(l, front, a);
    }
  }

  /** Any span of one interval keeps at most 2*burst - 1 records, one less than two full
      windows: a window opens with a record it keeps, so a span that reaches into a second
      window has missed the first record of the one before. */
  lemma SpanKeepsAtMost(l: Limit, times: seq<int>, a: int)
    requires NonDecreasing(times) && FreshFor(l, times)
    ensures KeptIn(l, times, a, a + l.interval) <= if l.burst >= 1 then 2 * l.burst - 1 else 0
  {
    if l.burst < 1 {
      NothingKept(l, times, a, a + l.interval);
    } else if times != [] {
      SpanInvariantHolds(l, times, a);
      AfterKeepsSettings(l, times);
    }
  }

  lemma {:induction false} NothingKept(l: Limit, times: seq<int>, lo: int, hi: int)
    requires l.burst < 1 && l.kept == 0
    ensures KeptIn(l, times, lo, hi) == 0 && After(l, times).kept == 0
  {
    if times != [] {
      NothingKept(l, times[..|times|-1], lo, hi);
      AfterKeepsSettings(l, times[..|times|-1]);
    }
  }

  /** Every drop is reported exactly once or still pending. */
  lemma {:induction false} DropsAreReported(l: Limit, times: seq<int>)
    requires l.dropped == 0
    ensures DropsIn(l, times) == ReportedIn(l, times) + After(l, times).dropped
  {
    if times != [] {
      DropsAreReported(l, times[..|times|-1]);
    }
  }

  /** How many of the last calls were dropped, back to the last one kept. */
  function DropsSinceKept(l: Limit, times: seq<int>): nat {
    if times == [] || LastVerdict(l, times).keep then 0 else 1 + DropsSinceKept(l, times[..|times|-1])
  }

  /** A kept record reports exactly the drops since the last kept one, a dropped one nothing. */
  lemma ReportsDropsSinceKept(l: Limit, times: seq<int>)
    requires l.dropped == 0 && times != []
    ensures var v := LastVerdict(l, times);
            v.suppressed == if v.keep then DropsSinceKept(l, times[..|times|-1]) else 0
  {
    PendingIsSinceKept(l, times[..|times|-1]);
  }

  lemma {:induction false} PendingIsSinceKept(l: Limit, times: seq<int>)
    requires l.dropped == 0
    ensures After(l, times).dropped == DropsSinceKept(l, times)
  {
    if times != [] {
      PendingIsSinceKept(l, times[..|times|-1]);
    }
  }

  /** A record is kept if and only if it opens a window or the current one has room, for a burst
      of one or more. */
  lemma KeptIff(l: Limit, times: seq<int>)
    requires l.burst >= 1 && times != []
    ensures var s := After(l, times[..|times|-1]); var t := times[|times|-1];
            LastVerdict(l, times).keep <==> t >= s.start + l.interval || s.kept < l.burst
  {
    AfterKeepsSettings(l, times[..|times|-1]);
  }

  // ----- The bound is tight -----

  function Repeat(t: int, n: nat): (r: seq<int>)
    ensures |r| == n && forall i :: 0 <= i < n ==> r[i] == t
  {
    seq(n, _ => t)
  }

  /** After `times` the window opened at `start` has kept `k` records, and the span `c`. */
  ghost predicate Stands(l: Limit, times: seq<int>, start: int, k: int, lo: int, hi: int, c: int) {
    && After(l, times).start == start && After(l, times).kept == k
    && KeptIn(l, times, lo, hi) == c
  }

  /** n calls at one instant inside the current window, with n records still free, are all kept. */
  lemma {:induction false} BurstIsKept(l: Limit, before: seq<int>, start: int, k: int, lo: int, hi: int, c: int,
                                       t: int, n: nat)
    requires Stands(l, before, start, k, lo, hi, c)
    requires lo <= t < hi && t - start < l.interval && k + n <= l.burst
    ensures Stands(l, before + Repeat(t, n), start, k + n, lo, hi, c + n)
  {
    var all := before + Repeat(t, n);
    if n == 0 {
      assert all == before;
    } else {
      BurstIsKept(l, before, start, k, lo, hi, c, t, n - 1);
      assert all[..|all|-1] == before + Repeat(t, n - 1);
      AfterKeepsSettings(l, all[..|all|-1]);
    }
  }

  /** A call an interval or more after the window's start opens a window and is kept. */
  lemma OpensWindow(l: Limit, before: seq<int>, start: int, k: int, lo: int, hi: int, c: int, t: int)
    requires Stands(l, before, start, k, lo, hi, c)
    requires t - start >= l.interval && l.burst >= 1
    ensures Stands(l, before + [t], t, 1, lo, hi, c + if lo <= t < hi then 1 else 0)
  {
    assert (before + [t])[..|before|] == before;
    AfterKeepsSettings(l, before);
  }

  /** A limiter as made: nothing kept, nothing dropped. */
  predicate IsNew(l: Limit) { l.kept == 0 && l.dropped == 0 }

  /** One record, `m` at the last tick of its window, one opening the next and `m` beside it. */
  function TwoWindows(first: int, second: int, m: nat): seq<int> {
    [first] + Repeat(second - 1, m) + [second] + Repeat(second, m)
  }

  /** For every burst and every interval of at least two ticks, one record now, burst - 1 at
      the last tick of its window and burst at the next one put 2*burst - 1 kept records in
      one span of an interval. */
  lemma SpanBoundIsReached(l: Limit) returns (times: seq<int>, a: int)
    requires IsNew(l) && l.interval >= 2 && l.burst >= 1
    ensures NonDecreasing(times) && FreshFor(l, times)
    ensures KeptIn(l, times, a, a + l.interval) == 2 * l.burst - 1
  {
    var first := l.start + l.interval;
    var second := first + l.interval;
    var m := l.burst - 1;
    a := second - 1;
    var hi := a + l.interval;
    times := TwoWindows(first, second, m);
    OpensWindow(l, [], l.start, 0, a, hi, 0, first);
    assert [] + [first] == [first];
    BurstIsKept(l, [first], first, 1, a, hi, 0, second - 1, m);
    var early := [first] + Repeat(second - 1, m);
    OpensWindow(l, early, first, 1 + m, a, hi, m, second);
    BurstIsKept(l, early + [second], second, 1, a, hi, m + 1, second, m);
  }

  // ----- When a burst per interval holds -----

  /** The window call p opens. */
  predicate Opens(l: Limit, times: seq<int>, p: nat)
    requires p < |times|
  {
    times[p] - After(l, times[..p]).start >= l.interval
  }

  /** Before a window opens, every call came earlier than its opening. */
  lemma {:induction false} CallsStayInWindow(l: Limit, times: seq<int>)
    requires NonDecreasing(times) && FreshFor(l, times) && times != [] && l.interval > 0
    ensures After(l, times).start <= times[|times| - 1] < After(l, times).start + l.interval
  {
    var front := times[..|times| - 1];
    AfterKeepsSettings(l, front);
    if front != [] {
      CallsStayInWindow(l, front);
    }
  }

  lemma {:induction false} NoneBefore(l: Limit, times: seq<int>, lo: int, hi: int)
    requires forall i :: 0 <= i < |times| ==> times[i] < lo
    ensures KeptIn(l, times, lo, hi) == 0
  {
    if times != [] {
      NoneBefore(l, times[..|times| - 1], lo, hi);
    }
  }

  /** c records were kept since a window opened at `a`: its counter says so while it is the
      current one, and once a later window is open they are at most a burst. */
  ghost predicate WindowKept(s: Limit, a: int, c: int) {
    && s.kept <= s.burst
    && ((s.start == a && c <= s.kept) || (s.start >= a + s.interval && c <= s.burst))
  }

  lemma WindowStep(s: Limit, t: int, a: int, c: int)
    requires WindowKept(s, a, c) && s.start <= t && s.burst >= 1 && s.interval > 0
    ensures WindowKept(AdmitState(s, t), a, c + if a <= t < a + s.interval && AdmitVerdict(s, t).keep then 1 else 0)
  {
  }

  lemma WindowOpens(l: Limit, front: seq<int>, a: int, start: int, k: int)
    requires NonDecreasing(front) && FreshFor(l, front) && l.burst >= 1 && l.interval > 0
    requires a - After(l, front).start >= l.interval && start == After(l, front).start && k == After(l, front).kept
    ensures Stands(l, front + [a], a, 1, a, a + l.interval, 1)
  {
    var hi := a + l.interval;
    EarlierIsBefore(l, front, a);
    NoneBefore(l, front, a, hi);
    assert Stands(l, front, start, k, a, hi, 0);
    OpensWindow(l, front, start, k, a, hi, 0, a);
    assert Stands(l, front + [a], a, 1, a, hi, 1);
  }

  lemma FrontIsFresh(l: Limit, times: seq<int>)
    requires NonDecreasing(times) && FreshFor(l, times) && times != []
    ensures NonDecreasing(times[..|times| - 1]) && FreshFor(l, times[..|times| - 1])
  {
  }

  lemma EarlierIsBefore(l: Limit, front: seq<int>, a: int)
    requires NonDecreasing(front) && FreshFor(l, front) && l.interval > 0 && a - After(l, front).start >= l.interval
    ensures forall i :: 0 <= i < |front| ==> front[i] < a
  {
    if front != [] {
      CallsStayInWindow(l, front);
      forall i | 0 <= i < |front| ensures front[i] < a {
        assert front[i] <= front[|front| - 1];
      }
    }
  }

  /** From its opening on, what the window that call p opens kept is its counter, and once a
      later window is open at most a burst. */
  lemma {:induction false} WindowCount(l: Limit, times: seq<int>, p: nat)
    requires NonDecreasing(times) && FreshFor(l, times) && l.burst >= 1 && l.interval > 0
    requires p < |times| && Opens(l, times, p)
    ensures WindowKept(After(l, times), times[p], KeptIn(l, times, times[p], times[p] + l.interval))
    decreases |times|
  {
    var n := |times| - 1;
    var front := times[..n];
    FrontIsFresh(l, times);
    if p == n {
      WindowOpens(l, front, times[n], After(l, front).start, After(l, front).kept);
      assert front + [times[n]] == times;
      AfterKeepsSettings(l, times);
    } else {
      AfterKeepsSettings(l, front);
      CallsStayInWindow(l, front);
      assert front[..p] == times[..p];
      WindowCount(l, front, p);
      assert front[n - 1] <= times[n];
      WindowStep(After(l, front), times[n], times[p], KeptIn(l, front, times[p], times[p] + l.interval));
    }
  }

  /** A window keeps at most a burst. */
  lemma WindowKeepsAtMost(l: Limit, times: seq<int>, p: nat)
    requires NonDecreasing(times) && FreshFor(l, times) && p < |times| && Opens(l, times, p)
    ensures KeptIn(l, times, times[p], times[p] + l.interval) <= if l.burst >= 1 then l.burst else 0
  {
    if l.burst < 1 || l.interval <= 0 {
      SpanKeepsAtMost(l, times, times[p]);
      EmptySpan(l, times, times[p], times[p] + l.interval);
    } else {
      WindowCount(l, times, p);
      AfterKeepsSettings(l, times);
    }
  }

  lemma {:induction false} EmptySpan(l: Limit, times: seq<int>, lo: int, hi: int)
    ensures hi <= lo ==> KeptIn(l, times, lo, hi) == 0
  {
    if times != [] {
      EmptySpan(l, times[..|times| - 1], lo, hi);
    }
  }

  /** A span of one tick lies in one window. */
  lemma {:induction false} OneTickSpan(l: Limit, times: seq<int>, a: int)
    requires NonDecreasing(times) && FreshFor(l, times) && times != [] && l.burst >= 1 && l.interval == 1
    ensures var s := After(l, times); var c := KeptIn(l, times, a, a + 1);
            && s.start == times[|times| - 1] && s.kept <= s.burst && c <= s.burst
            && (s.start == a ==> c <= s.kept) && (s.start < a ==> c == 0)
  {
    var front := times[..|times| - 1];
    AfterKeepsSettings(l, front);
    if front != [] {
      OneTickSpan(l, front, a);
    }
  }

  /** One span of one run within the burst. */
  ghost predicate WithinBurst(l: Limit, times: seq<int>, a: int) {
    NonDecreasing(times) && FreshFor(l, times) ==> KeptIn(l, times, a, a + l.interval) <= l.burst
  }

  /** "At most burst records per interval", read over every span of one interval, holds of
      every run exactly when the burst is one record or the interval a single tick or less. */
  lemma BurstPerIntervalIff(l: Limit)
    requires IsNew(l) && l.burst >= 1
    ensures (forall times, a :: WithinBurst(l, times, a)) <==> l.burst <= 1 || l.interval <= 1
  {
    if l.burst <= 1 || l.interval <= 1 {
      forall times, a ensures WithinBurst(l, times, a) {
        if NonDecreasing(times) && FreshFor(l, times) && times != [] {
          SpanKeepsAtMost(l, times, a);
          EmptySpan(l, times, a, a + l.interval);
          if l.interval == 1 {
            OneTickSpan(l, times, a);
            AfterKeepsSettings(l, times);
          }
        }
      }
    } else {
      var times, a := SpanBoundIsReached(l);
      assert !WithinBurst(l, times, a);
    }
  }
}
