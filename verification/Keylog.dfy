/** The receiving half of the key-line transport: the keylog writer and the socket server
    that feeds it. */
module Keylog {
  import opened Wrappers
  import opened KeylogCapture
  import CaptureWriter
  import Spec = CaptureSpec
  import Pcapng
  import Nss

  /** What became of one line handed to Append. */
  datatype Fate = Rejected | Gated | Duplicate | WriteFailed | Appended

  /** Appends valid lines that are not duplicates to the keylog file while the capture is
      active, and hands each to the capture. Without a capture its gate is always closed. */
  class KeylogWriter {
    var lines: seq<string>
    var seen: set<string>
    const capture: CaptureWriter.Writer?

    constructor (capture: CaptureWriter.Writer?)
      ensures lines == [] && seen == {} && this.capture == capture
    {
      lines, seen, this.capture := [], {}, capture;
    }

    ghost predicate Valid() reads this, capture {
      capture != null ==> capture.Valid()
    }

    ghost function State(): Pair
      requires capture != null
      reads this, capture
    {
      Pair(lines, seen, Free, capture.State())
    }

    /** The gate: whether this run's capture is active. */
    predicate CaptureActive() reads this, capture {
      capture != null && !capture.stopped
    }

    method Append(line: string, writes: bool) returns (fate: Fate)
      requires Valid()
      modifies this, capture
      ensures Valid()
      ensures capture != null ==> State() == AppendAtOnce(old(State()), line, writes)
      ensures lines == if fate.Appended? then old(lines) + [line] else old(lines)
      ensures fate.Rejected? <==> !Nss.Valid(line)
      ensures fate.Gated? <==> Nss.Valid(line) && !old(CaptureActive())
      ensures fate.Duplicate? <==> Nss.Valid(line) && old(CaptureActive()) && Nss.Key(line) in old(seen)
      ensures fate.WriteFailed? ==> !writes
      ensures fate.Appended? ==> writes
      ensures Nss.Valid(line) ==>
                seen == if fate.Appended? then old(seen) + {Nss.Key(line)} else old(seen)
      ensures !Nss.Valid(line) ==> seen == old(seen)
      ensures capture != null ==>
                capture.State() == if fate.Appended? then Spec.AddSecret(old(capture.State()), line).w
                                   else old(capture.State())
    {
      if !Nss.Valid(line) {
        SameState(line, writes);
        return Rejected;
      }
      var key := Nss.Key(line);
      if !CaptureActive() {
        SameState(line, writes);
        return Gated;
      }
      if key in seen {
        SameState(line, writes);
        return Duplicate;
      }
      if !writes {
        SameState(line, writes);
        return WriteFailed;
      }
      AppendedAtOnce(State(), line);
      lines := lines + [line];
      seen := seen + {key};
      ghost var ok;
      var stop;
      ok, stop := capture.AddSecret(line);
      return Appended;
    }

    lemma SameState(line: string, writes: bool)
      requires !Nss.Valid(line) || !CaptureActive() || Nss.Key(line) in seen || !writes
      ensures capture != null ==> AppendAtOnce(State(), line, writes) == State()
    {
      if capture != null {
        NotAppendedAtOnce(State(), line, writes);
      }
    }
  }

  // ----- Scanning -----

  /** Drops one carriage return at the end of a line. */
  function DropCR(s: string): (r: string)
    ensures |r| <= |s| && r == s[..|r|]
  {
    if s != [] && s[|s| - 1] == '\r' then s[..|s| - 1] else s
  }

  /** Exactly what is dropped: one carriage return, if the line ends in one. */
  lemma DropCRIff(s: string)
    ensures DropCR(s + "\r") == s
    ensures (s == [] || s[|s| - 1] != '\r') <==> DropCR(s) == s
  {
    assert (s + "\r")[..|s|] == s;
  }

  /** The index of the first newline, or the length without one. */
  function FirstNewline(s: string): (i: nat)
    ensures i <= |s|
    ensures i < |s| ==> s[i] == '\n'
    ensures forall j :: 0 <= j < i ==> s[j] != '\n'
  {
    if s == [] || s[0] == '\n' then 0 else 1 + FirstNewline(s[1..])
  }

  /** The lines of a stream; what is left without a newline at the end is a line too. */
  function Tokens(stream: string): seq<string>
    decreases |stream|
  {
    if stream == [] then []
    else
      var i := FirstNewline(stream);
      if i == |stream| then [DropCR(stream)] else [DropCR(stream[..i])] + Tokens(stream[i + 1..])
  }

  /** The lines the server looks at. */
  function NonEmptyTokens(tokens: seq<string>): seq<string> {
    if tokens == [] then []
    else
      var last := tokens[|tokens| - 1];
      NonEmptyTokens(tokens[..|tokens| - 1]) + if last == [] then [] else [last]
  }

  // ----- What became of the lines -----

  /** Those of the first n lines that were appended. */
  ghost function AppendedOf(met: seq<string>, fates: seq<Fate>, n: nat): seq<string>
    requires n <= |met| == |fates|
  {
    if n == 0 then []
    else AppendedOf(met, fates, n - 1) + if fates[n - 1].Appended? then [met[n - 1]] else []
  }

  /** A line with this key is among those of the first n that were appended. */
  ghost predicate KeyAppended(met: seq<string>, fates: seq<Fate>, n: nat, key: string)
    requires n <= |met| == |fates|
  {
    exists j :: 0 <= j < n && fates[j].Appended? && Nss.Valid(met[j]) && Nss.Key(met[j]) == key
  }

  /** What the server counts. */
  datatype Tally = Tally(rejected: nat, appended: nat, duplicates: nat, gated: nat)

  ghost function Counted(c: Tally, fate: Fate): Tally {
    match fate
    case Appended => c.(appended := c.appended + 1)
    case Duplicate => c.(duplicates := c.duplicates + 1)
    case Gated => c.(gated := c.gated + 1)
    case Rejected => c.(rejected := c.rejected + 1)
    case WriteFailed => c.(rejected := c.rejected + 1)
  }

  /** The tally with every line counted under its fate. */
  ghost function CountedAll(c: Tally, fates: seq<Fate>): Tally {
    var m := multiset(fates);
    Tally(c.rejected + m[Rejected] + m[WriteFailed], c.appended + m[Appended],
          c.duplicates + m[Duplicate], c.gated + m[Gated])
  }

  lemma CountedSnoc(c: Tally, fates: seq<Fate>, fate: Fate)
    ensures CountedAll(c, fates + [fate]) == Counted(CountedAll(c, fates), fate)
  {
    assert multiset(fates + [fate]) == multiset(fates) + multiset{fate};
  }

  lemma CountedStep(c: Tally, fates: seq<Fate>, n: nat)
    requires n < |fates|
    ensures CountedAll(c, fates[..n + 1]) == Counted(CountedAll(c, fates[..n]), fates[n])
  {
    CountedSnoc(c, fates[..n], fates[n]);
    assert fates[..n] + [fates[n]] == fates[..n + 1];
  }

  /** The keylog, the keys it remembers, the capture and the counters, as the server moves them. */
  datatype Books = Books(lines: seq<string>, seen: set<string>, capture: Option<Spec.Writer>, tally: Tally)

  ghost predicate Active(capture: Option<Spec.Writer>) {
    capture.Some? && !capture.value.stopped
  }

  /** The capture after it was handed these lines. */
  ghost function CaptureAfter(capture: Option<Spec.Writer>, lines: seq<string>): Option<Spec.Writer> {
    if capture.None? || lines == [] then capture
    else
      var n := |lines| - 1;
      var c := CaptureAfter(capture, lines[..n]);
      if c.None? then c else Some(Spec.AddSecret(c.value, lines[n]).w)
  }

  /** What becomes of a line at these books. */
  ghost function FateAt(b: Books, line: string, writes: bool): Fate {
    if !Nss.Valid(line) then Rejected
    else if !Active(b.capture) then Gated
    else if Nss.Key(line) in b.seen then Duplicate
    else if !writes then WriteFailed
    else Appended
  }

  /** One line with its fate takes the books from b to v. */
  ghost predicate LineServed(b: Books, line: string, writes: bool, fate: Fate, v: Books) {
    && fate == FateAt(b, line, writes)
    && v.lines == b.lines + (if fate.Appended? then [line] else [])
    && v.seen == (if fate.Appended? then b.seen + {Nss.Key(line)} else b.seen)
    && v.capture == (if fate.Appended? then Some(Spec.AddSecret(b.capture.value, line).w) else b.capture)
    && v.tally == Counted(b.tally, fate)
  }

  /** The books before and after every line. */
  ghost predicate IsServing(books: seq<Books>, met: seq<string>, writes: nat -> bool, fates: seq<Fate>) {
    && |books| == |met| + 1 && |fates| == |met|
    && forall i :: 0 <= i < |met| ==> LineServed(books[i], met[i], writes(i), fates[i], books[i + 1])
  }

  lemma ServingSnoc(books: seq<Books>, met: seq<string>, writes: nat -> bool, fates: seq<Fate>,
                    line: string, fate: Fate, v: Books)
    requires IsServing(books, met, writes, fates) && LineServed(books[|met|], line, writes(|met|), fate, v)
    ensures IsServing(books + [v], met + [line], writes, fates + [fate])
  {
  }

  // ----- The fates, read off the lines alone -----

  /** The gate when line i is met: whether the capture, handed the lines appended before, is
      active. */
  ghost predicate GateOpenAt(b: Books, met: seq<string>, fates: seq<Fate>, i: nat)
    requires i <= |met| == |fates|
  {
    Active(CaptureAfter(b.capture, AppendedOf(met, fates, i)))
  }

  ghost predicate KnownAt(b: Books, met: seq<string>, fates: seq<Fate>, i: nat)
    requires i < |met| == |fates| && Nss.Valid(met[i])
  {
    Nss.Key(met[i]) in b.seen || KeyAppended(met, fates, i, Nss.Key(met[i]))
  }

  /** Line i is rejected if it is invalid, gated if the gate is shut when it is met, a duplicate
      if its triple was seen or appended before, and otherwise appended or lost to a failing
      write; and in each case only then. */
  ghost predicate FateFits(b: Books, met: seq<string>, writes: nat -> bool, fates: seq<Fate>, i: nat)
    requires i < |met| == |fates|
  {
    && (fates[i].Rejected? <==> !Nss.Valid(met[i]))
    && (fates[i].Gated? <==> Nss.Valid(met[i]) && !GateOpenAt(b, met, fates, i))
    && (fates[i].Duplicate? <==> Nss.Valid(met[i]) && GateOpenAt(b, met, fates, i) && KnownAt(b, met, fates, i))
    && (fates[i].WriteFailed? ==> !writes(i))
    && (fates[i].Appended? ==> writes(i))
  }

  /** From the first gated line on every valid one is gated. */
  ghost predicate GateStaysShut(met: seq<string>, fates: seq<Fate>)
    requires |met| == |fates|
  {
    forall i, j :: 0 <= i < j < |met| && fates[i].Gated? && Nss.Valid(met[j]) ==> fates[j].Gated?
  }

  ghost predicate Explained(b: Books, met: seq<string>, writes: nat -> bool, fates: seq<Fate>) {
    && |met| == |fates|
    && (forall i :: 0 <= i < |met| ==> FateFits(b, met, writes, fates, i))
    && GateStaysShut(met, fates)
  }

  /** The lines met, with their fates, take the books from b to v. */
  ghost predicate Served(b: Books, met: seq<string>, writes: nat -> bool, fates: seq<Fate>, v: Books) {
    && Explained(b, met, writes, fates)
    && v.lines == b.lines + AppendedOf(met, fates, |met|)
    && v.capture == CaptureAfter(b.capture, AppendedOf(met, fates, |met|))
    && v.tally == CountedAll(b.tally, fates)
  }

  lemma KeyAppendedStep(met: seq<string>, fates: seq<Fate>, n: nat, key: string)
    requires n < |met| == |fates|
    ensures KeyAppended(met, fates, n + 1, key) <==>
              KeyAppended(met, fates, n, key) || (fates[n].Appended? && Nss.Valid(met[n]) && Nss.Key(met[n]) == key)
  {
  }

  ghost function NextSeen(seen: set<string>, line: string, fate: Fate): set<string> {
    if fate.Appended? && Nss.Valid(line) then seen + {Nss.Key(line)} else seen
  }

  ghost predicate SeenSteps(books: seq<Books>, met: seq<string>, fates: seq<Fate>) {
    && |books| == |met| + 1 && |fates| == |met|
    && forall i :: 0 <= i < |met| ==> books[i + 1].seen == NextSeen(books[i].seen, met[i], fates[i])
  }

  lemma {:induction false} SeenCollects(books: seq<Books>, met: seq<string>, fates: seq<Fate>, n: nat, key: string)
    requires SeenSteps(books, met, fates) && n <= |met|
    ensures key in books[n].seen <==> key in books[0].seen || KeyAppended(met, fates, n, key)
  {
    if n > 0 {
      SeenCollects(books, met, fates, n - 1, key);
      KeyAppendedStep(met, fates, n - 1, key);
      assert books[n - 1 + 1].seen == NextSeen(books[n - 1].seen, met[n - 1], fates[n - 1]);
    }
  }

  /** The keys remembered are those seen before and those appended since. */
  lemma SeenUpTo(books: seq<Books>, met: seq<string>, writes: nat -> bool, fates: seq<Fate>, n: nat, key: string)
    requires IsServing(books, met, writes, fates) && n <= |met|
    ensures key in books[n].seen <==> key in books[0].seen || KeyAppended(met, fates, n, key)
  {
    forall i | 0 <= i < |met| ensures books[i + 1].seen == NextSeen(books[i].seen, met[i], fates[i]) {
      assert LineServed(books[i], met[i], writes(i), fates[i], books[i + 1]);
    }
    SeenCollects(books, met, fates, n, key);
  }

  lemma AppendsStep(b: Books, v: Books, start: Books, lines: seq<string>, line: string, writes: bool, fate: Fate)
    requires LineServed(b, line, writes, fate, v)
    requires b.lines == start.lines + lines && b.capture == CaptureAfter(start.capture, lines)
    ensures var longer := lines + if fate.Appended? then [line] else [];
            v.lines == start.lines + longer && v.capture == CaptureAfter(start.capture, longer)
  {
    if fate.Appended? {
      assert (lines + [line])[..|lines|] == lines;
      Pcapng.Associative(start.lines, lines, [line]);
    } else {
      assert lines + [] == lines;
    }
  }

  lemma {:induction false} ServingAppends(books: seq<Books>, met: seq<string>, writes: nat -> bool,
                                          fates: seq<Fate>, n: nat)
    requires IsServing(books, met, writes, fates) && n <= |met|
    ensures books[n].lines == books[0].lines + AppendedOf(met, fates, n)
    ensures books[n].capture == CaptureAfter(books[0].capture, AppendedOf(met, fates, n))
  {
    if n > 0 {
      ServingAppends(books, met, writes, fates, n - 1);
      AppendsStep(books[n - 1], books[n], books[0], AppendedOf(met, fates, n - 1),
                  met[n - 1], writes(n - 1), fates[n - 1]);
    }
  }

  lemma ServingFits(books: seq<Books>, met: seq<string>, writes: nat -> bool, fates: seq<Fate>, i: nat)
    requires IsServing(books, met, writes, fates) && i < |met|
    ensures FateFits(books[0], met, writes, fates, i)
  {
    assert fates[i] == FateAt(books[i], met[i], writes(i)) by {
      assert LineServed(books[i], met[i], writes(i), fates[i], books[i + 1]);
    }
    ServingAppends(books, met, writes, fates, i);
    if Nss.Valid(met[i]) {
      SeenUpTo(books, met, writes, fates, i, Nss.Key(met[i]));
    }
  }

  /** A shut gate stays shut. */
  lemma {:induction false} ShutStaysShut(books: seq<Books>, met: seq<string>, writes: nat -> bool,
                                         fates: seq<Fate>, i: nat, j: nat)
    requires IsServing(books, met, writes, fates) && i <= j <= |met| && !Active(books[i].capture)
    ensures !Active(books[j].capture)
  {
    if i < j {
      ShutStaysShut(books, met, writes, fates, i, j - 1);
      assert LineServed(books[j - 1], met[j - 1], writes(j - 1), fates[j - 1], books[j]);
    }
  }

  lemma ServingGate(books: seq<Books>, met: seq<string>, writes: nat -> bool, fates: seq<Fate>)
    requires IsServing(books, met, writes, fates)
    ensures GateStaysShut(met, fates)
  {
    forall i, j | 0 <= i < j < |met| && fates[i].Gated? && Nss.Valid(met[j]) ensures fates[j].Gated? {
      assert LineServed(books[i], met[i], writes(i), fates[i], books[i + 1]);
      ShutStaysShut(books, met, writes, fates, i, j);
      assert LineServed(books[j], met[j], writes(j), fates[j], books[j + 1]);
    }
  }

  ghost predicate TalliesStep(books: seq<Books>, fates: seq<Fate>) {
    && |books| == |fates| + 1
    && forall i :: 0 <= i < |fates| ==> books[i + 1].tally == Counted(books[i].tally, fates[i])
  }

  lemma {:induction false} TalliesCount(books: seq<Books>, fates: seq<Fate>, n: nat)
    requires TalliesStep(books, fates) && n <= |fates|
    ensures books[n].tally == CountedAll(books[0].tally, fates[..n])
  {
    if n > 0 {
      TalliesCount(books, fates, n - 1);
      CountedStep(books[0].tally, fates, n - 1);
      assert books[n - 1 + 1].tally == Counted(books[n - 1].tally, fates[n - 1]);
    }
  }

  lemma ServingCounts(books: seq<Books>, met: seq<string>, writes: nat -> bool, fates: seq<Fate>)
    requires IsServing(books, met, writes, fates)
    ensures books[|met|].tally == CountedAll(books[0].tally, fates)
  {
    forall i | 0 <= i < |fates| ensures books[i + 1].tally == Counted(books[i].tally, fates[i]) {
      assert LineServed(books[i], met[i], writes(i), fates[i], books[i + 1]);
    }
    TalliesCount(books, fates, |met|);
    assert fates[..|met|] == fates;
  }

  /** Line by line gives the whole. */
  lemma ServingIsServed(books: seq<Books>, met: seq<string>, writes: nat -> bool, fates: seq<Fate>)
    requires IsServing(books, met, writes, fates)
    ensures Served(books[0], met, writes, fates, books[|met|])
  {
    forall i | 0 <= i < |met| ensures FateFits(books[0], met, writes, fates, i) {
      ServingFits(books, met, writes, fates, i);
    }
    ServingGate(books, met, writes, fates);
    ServingAppends(books, met, writes, fates, |met|);
    ServingCounts(books, met, writes, fates);
  }

  // ----- What is kept -----

  /** Every appended line is a valid one the server met. */
  lemma {:induction false} AppendedIsValid(met: seq<string>, fates: seq<Fate>, n: nat, x: nat)
    requires n <= |met| == |fates| && x < |AppendedOf(met, fates, n)|
    requires forall i :: 0 <= i < |met| && fates[i].Appended? ==> Nss.Valid(met[i])
    ensures AppendedOf(met, fates, n)[x] in met && Nss.Valid(AppendedOf(met, fates, n)[x])
  {
    var front := AppendedOf(met, fates, n - 1);
    if x < |front| {
      AppendedIsValid(met, fates, n - 1, x);
      assert AppendedOf(met, fates, n)[x] == front[x];
    } else {
      assert AppendedOf(met, fates, n)[x] == met[n - 1];
    }
  }

  lemma {:induction false} AppendedIsThere(met: seq<string>, fates: seq<Fate>, i: nat, n: nat)
    requires i < n <= |met| == |fates| && fates[i].Appended?
    ensures met[i] in AppendedOf(met, fates, n)
  {
    if i < n - 1 {
      AppendedIsThere(met, fates, i, n - 1);
    }
  }

  /** Line i is in the keylog afterwards if its triple is new, and if not its triple is. */
  ghost predicate KeptAt(b: Books, met: seq<string>, fates: seq<Fate>, i: nat)
    requires i < |met| == |fates| && Nss.Valid(met[i])
  {
    && (Nss.Key(met[i]) in b.seen || KeyAppended(met, fates, |met|, Nss.Key(met[i])))
    && (!KnownAt(b, met, fates, i) ==> met[i] in AppendedOf(met, fates, |met|))
  }

  /** A valid line that meets an open gate and a working file is kept. */
  lemma ValidLineIsKept(b: Books, met: seq<string>, writes: nat -> bool, fates: seq<Fate>, i: nat)
    requires Explained(b, met, writes, fates) && i < |met|
    requires Nss.Valid(met[i]) && GateOpenAt(b, met, fates, i) && writes(i)
    ensures KeptAt(b, met, fates, i)
  {
    assert FateFits(b, met, writes, fates, i);
    var key := Nss.Key(met[i]);
    if KnownAt(b, met, fates, i) {
      assert KeyAppended(met, fates, i, key) ==> KeyAppended(met, fates, |met|, key);
    } else {
      assert fates[i].Appended?;
      AppendedIsThere(met, fates, i, |met|);
    }
  }

  // ----- The lines the server looks at -----

  /** A non-empty token is one of them. */
  lemma {:induction false} TokenIsMet(tokens: seq<string>, k: nat) returns (i: nat)
    requires k < |tokens| && tokens[k] != []
    ensures i < |NonEmptyTokens(tokens)| && NonEmptyTokens(tokens)[i] == tokens[k]
  {
    var n := |tokens| - 1;
    if k == n {
      i := |NonEmptyTokens(tokens[..n])|;
    } else {
      i := TokenIsMet(tokens[..n], k);
    }
  }

  lemma NonEmptySnoc(tokens: seq<string>, i: nat)
    requires i < |tokens|
    ensures NonEmptyTokens(tokens[..i + 1])
            == NonEmptyTokens(tokens[..i]) + if tokens[i] == [] then [] else [tokens[i]]
  {
    assert tokens[..i + 1][..i] == tokens[..i];
  }

  lemma {:induction false} NonEmptyIsToken(tokens: seq<string>, t: string)
    requires t in NonEmptyTokens(tokens)
    ensures t in tokens
  {
    var n := |tokens| - 1;
    if t in NonEmptyTokens(tokens[..n]) {
      NonEmptyIsToken(tokens[..n], t);
    }
  }

  /** Serves interposer connections. The ghost counters count what is not rejected. */
  class SocketServer {
    const writer: KeylogWriter
    var rejected: nat
    ghost var scanned: nat
    ghost var appended: nat
    ghost var duplicates: nat
    ghost var gated: nat

    constructor (writer: KeylogWriter)
      ensures this.writer == writer && rejected == scanned == appended == duplicates == gated == 0
    {
      this.writer := writer;
      rejected, scanned, appended, duplicates, gated := 0, 0, 0, 0, 0;
    }

    /** Every non-empty line met so far was appended, a duplicate, gated or rejected. */
    ghost predicate Accounted() reads this {
      scanned == appended + duplicates + gated + rejected
    }

    ghost function State(): Books reads this, writer, writer.capture {
      Books(writer.lines, writer.seen, if writer.capture == null then None else Some(writer.capture.State()),
            Tally(rejected, appended, duplicates, gated))
    }

    method Count(fate: Fate)
      requires Accounted()
      modifies this
      ensures Accounted() && scanned == old(scanned) + 1
      ensures Tally(rejected, appended, duplicates, gated)
              == Counted(old(Tally(rejected, appended, duplicates, gated)), fate)
    {
      scanned := scanned + 1;
      match fate {
        case Appended => appended := appended + 1;
        case Duplicate => duplicates := duplicates + 1;
        case Gated => gated := gated + 1;
        case Rejected => rejected := rejected + 1;
        case WriteFailed => rejected := rejected + 1;
      }
    }

    /** Hands one non-empty line to the keylog and counts what became of it. */
    method HandleLine(line: string, writes: bool) returns (ghost fate: Fate)
      requires writer.Valid() && Accounted()
      modifies this, writer, writer.capture
      ensures writer.Valid() && Accounted() && scanned == old(scanned) + 1
      ensures LineServed(old(State()), line, writes, fate, State())
    {
      ghost var before := State();
      var f := writer.Append(line, writes);
      fate := f;
      assert fate == FateAt(before, line, writes);
      Count(f);
    }

    /** The next non-empty line of a connection. */
    method HandleNext(line: string, writes: nat -> bool, call: nat,
                      ghost books: seq<Books>, ghost met: seq<string>, ghost fates: seq<Fate>)
      returns (ghost books': seq<Books>, ghost fates': seq<Fate>)
      requires writer.Valid() && Accounted() && call == |met|
      requires IsServing(books, met, writes, fates) && books[|met|] == State()
      modifies this, writer, writer.capture
      ensures writer.Valid() && Accounted() && scanned == old(scanned) + 1
      ensures IsServing(books', met + [line], writes, fates')
      ensures books'[0] == books[0] && books'[|met| + 1] == State()
    {
      ghost var fate := HandleLine(line, writes(call));
      ServingSnoc(books, met, writes, fates, line, fate, State());
      books', fates' := books + [State()], fates + [fate];
    }

    /** Reads lines until there are no more. */
    method HandleAll(tokens: seq<string>, writes: nat -> bool)
      returns (ghost books: seq<Books>, ghost met: seq<string>, ghost fates: seq<Fate>)
      requires writer.Valid() && Accounted()
      modifies this, writer, writer.capture
      ensures writer.Valid() && Accounted()
      ensures met == NonEmptyTokens(tokens) && scanned == old(scanned) + |met|
      ensures IsServing(books, met, writes, fates) && books[0] == old(State()) && books[|met|] == State()
    {
      var i, calls := 0, 0;
      books, met, fates := [State()], [], [];
      while i < |tokens|
        invariant 0 <= i <= |tokens| && calls == |met|
        invariant writer.Valid() && Accounted()
        invariant met == NonEmptyTokens(tokens[..i]) && scanned == old(scanned) + |met|
        invariant IsServing(books, met, writes, fates) && books[0] == old(State()) && books[|met|] == State()
      {
        NonEmptySnoc(tokens, i);
        if tokens[i] != [] {
          books, fates := HandleNext(tokens[i], writes, calls, books, met, fates);
          met := met + [tokens[i]];
          calls := calls + 1;
        }
        i := i + 1;
      }
      assert tokens[..i] == tokens;
    }

    /** Reads what a connection sent, line by line, until it ends. `fates` says what became of
        each non-empty line; the keylog, the capture and the counters follow from it. `writes`
        says which of the writes to the keylog file work, by line. */
    method HandleConn(received: string, writes: nat -> bool) returns (ghost met: seq<string>, ghost fates: seq<Fate>)
      requires writer.Valid() && Accounted()
      modifies this, writer, writer.capture
      ensures writer.Valid() && Accounted()
      ensures met == NonEmptyTokens(Tokens(received)) && scanned == old(scanned) + |met|
      ensures Served(old(State()), met, writes, fates, State())
    {
      ghost var books;
      books, met, fates := HandleAll(Tokens(received), writes);
      ServingIsServed(books, met, writes, fates);
    }
  }
}
