/** The sending half of the key-line transport, the interposer inside the application, and
    what the server can read from it. */
module Transport {
  import opened Wrappers
  import opened Pcapng
  import opened Keylog
  import opened KeylogCapture
  import Nss

  const MAX_SEND_ATTEMPTS: nat := 3

  /** A connection carries whole lines, then at most the start of one. */
  ghost predicate CarriesLines(stream: string, whole: seq<string>, tail: string, handed: seq<string>) {
    && stream == Terminated(whole) + tail
    && (forall l :: l in whole ==> l in handed)
    && (tail == [] || exists l :: l in handed && tail <= l)
  }

  ghost function LineCount(whole: seq<seq<string>>): nat {
    if whole == [] then 0 else |whole[0]| + LineCount(whole[1..])
  }

  /** What connection c carried whole: nothing if it was not open yet. */
  ghost function WholeAt(whole: seq<seq<string>>, c: nat): seq<string> {
    if c < |whole| then whole[c] else []
  }

  /** From `before` to `after` connection c, if any, carries `line` more, and nothing else changes. */
  ghost predicate CarriedOn(before: seq<seq<string>>, after: seq<seq<string>>, c: Option<nat>, line: string) {
    forall i :: 0 <= i < |after| ==>
      after[i] == WholeAt(before, i) + if c == Some(i) then [line] else []
  }

  lemma CarriedOnAfterNothing(a: seq<seq<string>>, b: seq<seq<string>>, v: seq<seq<string>>,
                              c: Option<nat>, line: string)
    requires CarriedOn(a, b, None, line) && CarriedOn(b, v, c, line) && |a| <= |b|
    ensures CarriedOn(a, v, c, line)
  {
    forall i | 0 <= i < |v| ensures v[i] == WholeAt(a, i) + if c == Some(i) then [line] else [] {
      assert WholeAt(b, i) == WholeAt(a, i);
    }
  }

  lemma {:induction false} LineCountUpdate(whole: seq<seq<string>>, c: nat, lines: seq<string>)
    requires c < |whole|
    ensures LineCount(whole[c := lines]) == LineCount(whole) - |whole[c]| + |lines|
  {
    if c == 0 {
      assert whole[0 := lines][1..] == whole[1..];
    } else {
      LineCountUpdate(whole[1..], c - 1, lines);
      assert whole[c := lines][1..] == whole[1..][c - 1 := lines];
    }
  }

  lemma {:induction false} LineCountSnoc(whole: seq<seq<string>>)
    ensures LineCount(whole + [[]]) == LineCount(whole)
  {
    if whole != [] {
      LineCountSnoc(whole[1..]);
      assert (whole + [[]])[1..] == whole[1..] + [[]];
    }
  }

  lemma {:induction false} TerminatedSnoc(whole: seq<string>, l: string)
    ensures Terminated(whole + [l]) == Terminated(whole) + (l + "\n")
  {
    TerminatedConcat(whole, [l]);
    assert Terminated([l][1..]) == [];
    assert Terminated([l]) == l + "\n";
  }

  lemma CarriesOneMore(stream: string, whole: seq<string>, handed: seq<string>, line: string)
    requires CarriesLines(stream, whole, [], handed) && line in handed
    ensures CarriesLines(stream + (line + "\n"), whole + [line], [], handed)
  {
    TerminatedSnoc(whole, line);
    assert stream == Terminated(whole);
  }

  lemma CarriesStart(stream: string, whole: seq<string>, handed: seq<string>, line: string, n: nat)
    requires CarriesLines(stream, whole, [], handed) && line in handed && n <= |line|
    ensures CarriesLines(stream + (line + "\n")[..n], whole, line[..n], handed)
  {
    assert (line + "\n")[..n] == line[..n] && line[..n] <= line;
    assert stream == Terminated(whole);
  }

  /** Attempt i sends the line: a connection is there, left open before the first attempt or
      opened by this one, and takes the line and its newline whole. */
  ghost predicate AttemptWorks(open: bool, configured: bool, line: string,
                               connects: nat -> bool, written: nat -> int, i: nat)
  {
    ((i == 0 && open) || (configured && connects(i))) && written(i) == |line| + 1
  }

  ghost predicate SomeAttemptWorks(open: bool, configured: bool, line: string,
                                   connects: nat -> bool, written: nat -> int, n: nat)
  {
    exists i: nat :: i < n && AttemptWorks(open, configured, line, connects, written, i)
  }

  lemma OneMoreAttempt(open: bool, configured: bool, line: string,
                       connects: nat -> bool, written: nat -> int, n: nat)
    requires !SomeAttemptWorks(open, configured, line, connects, written, n)
    ensures SomeAttemptWorks(open, configured, line, connects, written, n + 1)
            <==> AttemptWorks(open, configured, line, connects, written, n)
    ensures forall m: nat :: n < m && AttemptWorks(open, configured, line, connects, written, n) ==>
              SomeAttemptWorks(open, configured, line, connects, written, m)
  {
  }

  /** The interposer's connection state. `streams` is what each connection it ever opened has
      carried; `whole` and `tails` split each stream into lines and a cut-off rest. */
  class Interposer {
    const configured: bool
    var conn: Option<nat>
    var streams: seq<string>
    ghost var handed: seq<string>
    ghost var whole: seq<seq<string>>
    ghost var tails: seq<string>

    constructor (configured: bool)
      ensures Valid() && handed == [] && streams == []
    {
      this.configured := configured;
      conn, streams, handed, whole, tails := None, [], [], [], [];
    }

    ghost predicate Valid() reads this {
      && |whole| == |streams| && |tails| == |streams|
      && (conn.Some? ==> conn.value < |streams| && tails[conn.value] == [])
      && forall c :: 0 <= c < |streams| ==> CarriesLines(streams[c], whole[c], tails[c], handed)
    }

    /** Opens a connection unless one is open. */
    method Connect(succeeds: bool) returns (ok: bool)
      requires Valid()
      modifies this`conn, this`streams, this`whole, this`tails
      ensures Valid() && ok == conn.Some?
      ensures ok <==> old(conn).Some? || (configured && succeeds)
      ensures conn == if old(conn).Some? then old(conn) else if ok then Some(|old(streams)|) else None
      ensures LineCount(whole) == old(LineCount(whole)) 
      ensures forall line :: CarriedOn(old(whole), whole, None, line)
      ensures old(streams) <= streams && |streams| <= |old(streams)| + 1
    {
      if conn.Some? {
        return true;
      }
      if !configured || !succeeds {
        return false;
      }
      LineCountSnoc(whole);
      streams, whole, tails := streams + [[]], whole + [[]], tails + [[]];
      conn := Some(|streams| - 1);
      return true;
    }

    /** One write of the line and its newline: all of it, or a broken connection that carried
        the first n bytes at most. */
    method WriteOnce(line: string, n: int) returns (sent: bool)
      requires Valid() && conn.Some? && line in handed && n <= |line| + 1
      modifies this`conn, this`streams, this`whole, this`tails
      ensures Valid() && sent == (n == |line| + 1)
      ensures LineCount(whole) == old(LineCount(whole)) + if sent then 1 else 0
      ensures conn == if sent then old(conn) else None
      ensures CarriedOn(old(whole), whole, conn, line)
      ensures |streams| == |old(streams)|
      ensures forall c :: 0 <= c < |streams| && Some(c) != old(conn) ==> streams[c] == old(streams[c])
    {
      var c := conn.value;
      if n == |line| + 1 {
        CarriesOneMore(streams[c], whole[c], handed, line);
        LineCountUpdate(whole, c, whole[c] + [line]);
        streams := streams[c := streams[c] + (line + "\n")];
        whole := whole[c := whole[c] + [line]];
        return true;
      }
      if n > 0 {
        CarriesStart(streams[c], whole[c], handed, line, n);
        streams := streams[c := streams[c] + (line + "\n")[..n]];
        tails := tails[c := line[..n]];
      }
      conn := None;
      return false;
    }

    /** One attempt: connect if need be, then write. */
    method Attempt(line: string, connects: bool, n: int) returns (sent: bool)
      requires Valid() && line in handed && n <= |line| + 1
      modifies this`conn, this`streams, this`whole, this`tails
      ensures Valid() && (sent ==> conn.Some?) && (!sent ==> conn == None)
      ensures sent <==> (old(conn).Some? || (configured && connects)) && n == |line| + 1
      ensures LineCount(whole) == old(LineCount(whole)) + if sent then 1 else 0
      ensures CarriedOn(old(whole), whole, if sent then conn else None, line)
      ensures |old(streams)| <= |streams| <= |old(streams)| + 1
    {
      sent := Connect(connects);
      if sent {
        ghost var before := whole;
        sent := WriteOnce(line, n);
        CarriedOnAfterNothing(old(whole), before, whole, conn, line);
      }
    }

    /** Sends one line with a bounded number of attempts, each on a fresh connection after a
        failure; then gives up. A sent line is carried whole once, by the connection then open,
        and an unsent one by none. */
    method SendLine(line: string, connects: nat -> bool, written: nat -> int) returns (sent: bool)
      requires Valid() && line in handed && forall i :: written(i) <= |line| + 1
      modifies this`conn, this`streams, this`whole, this`tails
      ensures Valid() && (sent ==> conn.Some?)
      ensures sent <==> SomeAttemptWorks(old(conn).Some?, configured, line, connects, written, 3)
      ensures LineCount(whole) == old(LineCount(whole)) + if sent then 1 else 0
      ensures CarriedOn(old(whole), whole, if sent then conn else None, line)
      ensures |old(streams)| <= |streams| <= |old(streams)| + 3
    {
      var attempt := 0;
      while attempt < MAX_SEND_ATTEMPTS
        invariant 0 <= attempt <= MAX_SEND_ATTEMPTS
        invariant Valid() && LineCount(whole) == old(LineCount(whole))
        invariant CarriedOn(old(whole), whole, None, line)
        invariant !SomeAttemptWorks(old(conn).Some?, configured, line, connects, written, attempt)
        invariant if attempt == 0 then conn == old(conn) else conn == None
        invariant |old(streams)| <= |streams| <= |old(streams)| + attempt
      {
        ghost var before := whole;
        sent := Attempt(line, connects(attempt), written(attempt));
        OneMoreAttempt(old(conn).Some?, configured, line, connects, written, attempt);
        CarriedOnAfterNothing(old(whole), before, whole, if sent then conn else None, line);
        if sent {
          return;
        }
        attempt := attempt + 1;
      }
      return false;
    }

    /** The keylog callback: forwards the line, newline-terminated. */
    method Callback(line: string, connects: nat -> bool, written: nat -> int) returns (sent: bool)
      requires Valid() && forall i :: written(i) <= |line| + 1
      modifies this
      ensures Valid() && handed == old(handed) + [line] && (sent ==> conn.Some?)
      ensures sent <==> configured
                        && SomeAttemptWorks(old(conn).Some?, true, line, connects, written, 3)
      ensures LineCount(whole) == old(LineCount(whole)) + if sent then 1 else 0
      ensures CarriedOn(old(whole), whole, if sent then conn else None, line)
    {
      handed := handed + [line];
      assert forall l :: l in old(handed) ==> l in handed;
      if !configured {
        return false;
      }
      sent := SendLine(line, connects, written);
    }
  }

  // ----- What the server scans -----

  predicate NewlineFree(lines: seq<string>) {
    forall i :: 0 <= i < |lines| ==> '\n' !in lines[i]
  }

  function DropAll(lines: seq<string>): seq<string> {
    if lines == [] then [] else [DropCR(lines[0])] + DropAll(lines[1..])
  }

  lemma FirstNewlineOf(l: string, rest: string)
    requires '\n' !in l
    ensures FirstNewline(l + "\n" + rest) == |l|
  {
    var s := l + "\n" + rest;
    assert s[|l|] == '\n';
    assert forall j :: 0 <= j < |l| ==> s[j] == l[j];
  }

  lemma TokensOfLine(l: string, tail: string)
    requires '\n' !in l
    ensures Tokens(l + "\n" + tail) == [DropCR(l)] + Tokens(tail)
  {
    var s := l + "\n" + tail;
    FirstNewlineOf(l, tail);
    assert s[..|l|] == l && s[|l| + 1..] == tail;
  }

  lemma {:induction false} TokensOfLines(lines: seq<string>, rest: string)
    requires NewlineFree(lines)
    ensures Tokens(Terminated(lines) + rest) == DropAll(lines) + Tokens(rest)
  {
    if lines == [] {
      assert Terminated(lines) + rest == rest;
    } else {
      Associative(lines[0] + "\n", Terminated(lines[1..]), rest);
      TokensOfLine(lines[0], Terminated(lines[1..]) + rest);
      TokensOfLines(lines[1..], rest);
      Associative([DropCR(lines[0])], DropAll(lines[1..]), Tokens(rest));
    }
  }

  lemma TokensOfRest(rest: string)
    requires '\n' !in rest
    ensures Tokens(rest) == if rest == [] then [] else [DropCR(rest)]
  {
  }

  /** Cutting a stream of lines anywhere leaves whole lines and the start of one more. */
  lemma {:induction false} CutLines(lines: seq<string>, tail: string, n: nat) returns (m: nat, rest: string)
    requires n <= |Terminated(lines) + tail|
    ensures m <= |lines| && (Terminated(lines) + tail)[..n] == Terminated(lines[..m]) + rest
    ensures if m < |lines| then rest <= lines[m] else rest <= tail
  {
    if lines == [] {
      m, rest := 0, tail[..n];
      assert Terminated(lines) + tail == tail;
    } else {
      var l, after := lines[0], Terminated(lines[1..]) + tail;
      assert Terminated(lines) + tail == l + "\n" + after;
      if n <= |l| {
        m, rest := 0, l[..n];
        assert (l + "\n" + after)[..n] == l[..n];
      } else {
        m, rest := CutLines(lines[1..], tail, n - |l| - 1);
        assert (l + "\n" + after)[..n] == l + "\n" + after[..n - |l| - 1];
        assert lines[..m + 1][1..] == lines[1..][..m];
        m := m + 1;
      }
    }
  }

  /** Whatever part of a connection the server gets to read, it scans the lines carried whole,
      in order, and at most one more that is the start of a line handed to the callback. */
  lemma ReceivedLines(stream: string, whole: seq<string>, tail: string, handed: seq<string>, n: nat)
    returns (m: nat, rest: string)
    requires CarriesLines(stream, whole, tail, handed) && NewlineFree(handed) && n <= |stream|
    ensures m <= |whole|
    ensures stream[..n] == Terminated(whole[..m]) + rest
    ensures if m < |whole| then rest <= whole[m] else rest <= tail
    ensures Tokens(stream[..n]) == DropAll(whole[..m]) + if rest == [] then [] else [DropCR(rest)]
    ensures rest == [] || exists l :: l in handed && rest <= l
  {
    m, rest := CutLines(whole, tail, n);
    assert NewlineFree(whole[..m]) by {
      forall i | 0 <= i < m ensures '\n' !in whole[..m][i] {
        assert whole[i] in whole && whole[i] in handed;
      }
    }
    TokensOfLines(whole[..m], rest);
    if m < |whole| {
      assert whole[m] in whole && whole[m] in handed && rest <= whole[m];
    }
    assert '\n' !in rest;
    TokensOfRest(rest);
  }

  lemma {:induction false} DropAllKeeps(lines: seq<string>)
    requires forall i :: 0 <= i < |lines| ==> lines[i] == [] || lines[i][|lines[i]| - 1] != '\r'
    ensures DropAll(lines) == lines
  {
    if lines != [] {
      DropCRIff(lines[0]);
      DropAllKeeps(lines[1..]);
    }
  }

  /** Scanning newline-terminated lines gives them back, unless one ends in a carriage return. */
  lemma ScanRoundTrip(lines: seq<string>)
    requires NewlineFree(lines)
    requires forall i :: 0 <= i < |lines| ==> lines[i] == [] || lines[i][|lines[i]| - 1] != '\r'
    ensures Tokens(Terminated(lines)) == lines
  {
    assert Terminated(lines) + [] == Terminated(lines);
    TokensOfLines(lines, []);
    DropAllKeeps(lines);
  }

  lemma {:induction false} DropAllAt(lines: seq<string>, k: nat)
    requires k < |lines|
    ensures |DropAll(lines)| == |lines| && DropAll(lines)[k] == DropCR(lines[k])
    decreases |lines|
  {
    if |lines| > 1 {
      DropAllAt(lines[1..], if k == 0 then 0 else k - 1);
    }
  }

  /** The first n bytes of the connection hold line k and its newline. */
  ghost predicate CarriedWithin(whole: seq<string>, k: nat, n: nat) {
    k < |whole| && |Terminated(whole[..k + 1])| <= n
  }

  /** A line carried whole within the bytes received is scanned, less one carriage return. */
  lemma CarriedIsScanned(stream: string, whole: seq<string>, tail: string, handed: seq<string>, n: nat, k: nat)
    requires CarriesLines(stream, whole, tail, handed) && NewlineFree(handed) && n <= |stream|
    requires CarriedWithin(whole, k, n)
    ensures k < |Tokens(stream[..n])| && Tokens(stream[..n])[k] == DropCR(whole[k])
  {
    var m, rest := ReceivedLines(stream, whole, tail, handed, n);
    if m <= k {
      TerminatedGrows(whole, m + 1, k + 1);
      assert whole[..m + 1] == whole[..m] + [whole[m]];
      TerminatedSnoc(whole[..m], whole[m]);
      assert false;
    }
    DropAllAt(whole[..m], k);
  }

  lemma TerminatedGrows(lines: seq<string>, i: nat, j: nat)
    requires i <= j <= |lines|
    ensures |Terminated(lines[..i])| <= |Terminated(lines[..j])|
  {
    assert lines[..j] == lines[..i] + lines[i..j];
    TerminatedConcat(lines[..i], lines[i..j]);
  }

  lemma {:induction false} DropAllMember(lines: seq<string>, t: string)
    requires t in DropAll(lines)
    ensures exists l :: l in lines && t <= l
  {
    if t == DropCR(lines[0]) {
      assert lines[0] in lines && t <= lines[0];
    } else {
      DropAllMember(lines[1..], t);
      var l :| l in lines[1..] && t <= l;
      assert l in lines;
    }
  }

  /** Every line scanned is a line handed to the callback, or the start of one. */
  lemma ScannedIsStartOfHanded(stream: string, whole: seq<string>, tail: string, handed: seq<string>, n: nat, t: string)
    requires CarriesLines(stream, whole, tail, handed) && NewlineFree(handed) && n <= |stream|
    requires t in Tokens(stream[..n])
    ensures exists l :: l in handed && t <= l
  {
    var m, rest := ReceivedLines(stream, whole, tail, handed, n);
    if t in DropAll(whole[..m]) {
      DropAllMember(whole[..m], t);
      var l :| l in whole[..m] && t <= l;
      assert l in whole && l in handed;
    } else {
      var l :| l in handed && rest <= l;
      assert t == DropCR(rest) && t <= rest <= l;
    }
  }

  /** t is l itself, or the one truncation of l that still validates. */
  ghost predicate SameOrShortCut(t: string, l: string) {
    || t == l
    || exists tag: string, random: string, secret: string ::
         && Nss.SingleSpaced(l, tag, random, secret) && Nss.LabelByName(tag) != Some(Nss.ClientRandom)
         && |secret| == 96 && Nss.ShortCut(tag) <= |l| && t == l[..Nss.ShortCut(tag)]
  }

  ghost predicate IsKeyLine(l: string) {
    exists tag: string, random: string, secret: string :: Nss.SingleSpaced(l, tag, random, secret)
  }

  /** A valid start t of a handed line l, whatever l is: t has l's label and client random and
      a start of its third field as secret. If l is valid, t holds l's triple or its one
      accepted truncation; if l is single-spaced too, t is l or that truncation. */
  ghost predicate ComesFrom(t: string, l: string) {
    && t <= l && Nss.KeepsTriple(t, l)
    && (Nss.Valid(l) ==> Nss.SameOrShort(t, l))
    && (IsKeyLine(l) ==> SameOrShortCut(t, l))
  }

  /** t comes from one of the handed lines. */
  ghost predicate HasSource(t: string, handed: seq<string>) {
    exists l :: l in handed && ComesFrom(t, l)
  }

  lemma KeyLineStart(t: string, l: string)
    requires t <= l && Nss.Valid(t) && IsKeyLine(l)
    ensures SameOrShortCut(t, l)
  {
    var tag, random, secret :| Nss.SingleSpaced(l, tag, random, secret);
    if |t| < |l| {
      Nss.TruncationAccepted(l, tag, random, secret, |t|);
      assert t == l[..|t|];
    }
  }

  lemma ValidStartComesFrom(t: string, l: string)
    requires t <= l && Nss.Valid(t)
    ensures ComesFrom(t, l)
  {
    Nss.ValidStartKeepsTriple(t, l);
    if Nss.Valid(l) {
      Nss.StartIsValidIff(t, l);
    }
    if IsKeyLine(l) {
      KeyLineStart(t, l);
    }
  }

  /** Every valid line the server scans, and so every line of the keylog, comes from a line the
      callback was handed, whatever else it was handed. */
  lemma ValidScannedLineIsHanded(stream: string, whole: seq<string>, tail: string, handed: seq<string>,
                                 n: nat, t: string)
    requires CarriesLines(stream, whole, tail, handed) && NewlineFree(handed) && n <= |stream|
    requires t in Tokens(stream[..n]) && Nss.Valid(t)
    ensures HasSource(t, handed)
  {
    ScannedIsStartOfHanded(stream, whole, tail, handed, n, t);
    var l :| l in handed && t <= l;
    ValidStartComesFrom(t, l);
  }

  ghost predicate AllHaveSource(lines: seq<string>, handed: seq<string>) {
    forall x :: 0 <= x < |lines| ==> HasSource(lines[x], handed)
  }

  /** The lines appended from what reached the server all come from handed lines. */
  lemma AppendedComeFrom(stream: string, whole: seq<string>, tail: string, handed: seq<string>, n: nat,
                         b: Books, met: seq<string>, writes: nat -> bool, fates: seq<Fate>)
    requires CarriesLines(stream, whole, tail, handed) && NewlineFree(handed) && n <= |stream|
    requires met == NonEmptyTokens(Tokens(stream[..n])) && Explained(b, met, writes, fates)
    ensures AllHaveSource(AppendedOf(met, fates, |met|), handed)
  {
    var lines := AppendedOf(met, fates, |met|);
    forall i | 0 <= i < |met| && fates[i].Appended? ensures Nss.Valid(met[i]) {
      assert FateFits(b, met, writes, fates, i);
    }
    forall x | 0 <= x < |lines| ensures HasSource(lines[x], handed) {
      AppendedIsValid(met, fates, |met|, x);
      NonEmptyIsToken(Tokens(stream[..n]), lines[x]);
      ValidScannedLineIsHanded(stream, whole, tail, handed, n, lines[x]);
    }
  }

  /** A valid line l reaches the server as one of the lines it meets, with l's triple; with the
      gate open and the file writable then, the keylog afterwards holds the triple, and the line
      itself if the triple is new. */
  ghost predicate Arrives(l: string, b: Books, met: seq<string>, writes: nat -> bool, fates: seq<Fate>)
    requires Nss.Valid(l) && |met| == |fates|
  {
    exists i: nat :: i < |met| && met[i] == DropCR(l) && Nss.Valid(met[i]) && Nss.Key(met[i]) == Nss.Key(l)
                     && (GateOpenAt(b, met, fates, i) && writes(i) ==> KeptAt(b, met, fates, i))
  }

  /** Dropping a carriage return keeps a line's validity and its key. */
  lemma DropKeepsTriple(l: string)
    requires Nss.Valid(l)
    ensures Nss.Valid(DropCR(l)) && Nss.Key(DropCR(l)) == Nss.Key(l) && DropCR(l) != []
  {
    if DropCR(l) != l {
      assert l == DropCR(l) + "\r";
      Nss.FieldsBeforeCR(DropCR(l));
    }
    ValidIsNotEmpty(DropCR(l));
  }

  /** Every valid line carried whole within the bytes received arrives. */
  lemma CarriedLineArrives(stream: string, whole: seq<string>, tail: string, handed: seq<string>, n: nat, k: nat,
                           b: Books, met: seq<string>, writes: nat -> bool, fates: seq<Fate>)
    requires CarriesLines(stream, whole, tail, handed) && NewlineFree(handed) && n <= |stream|
    requires met == NonEmptyTokens(Tokens(stream[..n])) && Explained(b, met, writes, fates)
    requires CarriedWithin(whole, k, n) && Nss.Valid(whole[k])
    ensures Arrives(whole[k], b, met, writes, fates)
  {
    CarriedIsScanned(stream, whole, tail, handed, n, k);
    DropKeepsTriple(whole[k]);
    var i := TokenIsMet(Tokens(stream[..n]), k);
    if GateOpenAt(b, met, fates, i) && writes(i) {
      ValidLineIsKept(b, met, writes, fates, i);
    }
  }

  ghost predicate AllArrive(whole: seq<string>, n: nat, b: Books, met: seq<string>, writes: nat -> bool,
                            fates: seq<Fate>)
  {
    |met| == |fates| && forall k: nat :: CarriedWithin(whole, k, n) && Nss.Valid(whole[k]) ==>
                          Arrives(whole[k], b, met, writes, fates)
  }

  lemma AllCarriedArrive(stream: string, whole: seq<string>, tail: string, handed: seq<string>, n: nat,
                         b: Books, met: seq<string>, writes: nat -> bool, fates: seq<Fate>)
    requires CarriesLines(stream, whole, tail, handed) && NewlineFree(handed) && n <= |stream|
    requires met == NonEmptyTokens(Tokens(stream[..n])) && Explained(b, met, writes, fates)
    ensures AllArrive(whole, n, b, met, writes, fates)
  {
    forall k: nat | CarriedWithin(whole, k, n) && Nss.Valid(whole[k]) ensures Arrives(whole[k], b, met, writes, fates) {
      CarriedLineArrives(stream, whole, tail, handed, n, k, b, met, writes, fates);
    }
  }

  /** A connection end to end, whatever part of it reaches the server: every line it adds to the
      keylog comes from a line the callback was handed, and every valid line carried whole
      within what was received arrives. */
  method Deliver(sender: Interposer, server: SocketServer, c: nat, n: nat, writes: nat -> bool)
    returns (ghost met: seq<string>, ghost fates: seq<Fate>)
    requires sender.Valid() && NewlineFree(sender.handed)
    requires server.writer.Valid() && server.Accounted()
    requires c < |sender.streams| && n <= |sender.streams[c]|
    modifies server, server.writer, server.writer.capture
    ensures server.writer.Valid() && server.Accounted() && |met| == |fates|
    ensures server.writer.lines == old(server.writer.lines) + AppendedOf(met, fates, |met|)
    ensures AllHaveSource(AppendedOf(met, fates, |met|), sender.handed)
    ensures AllArrive(sender.whole[c], n, old(server.State()), met, writes, fates)
  {
    ghost var b := server.State();
    var received := sender.streams[c][..n];
    met, fates := server.HandleConn(received, writes);
    AppendedComeFrom(sender.streams[c], sender.whole[c], sender.tails[c], sender.handed, n, b, met, writes, fates);
    AllCarriedArrive(sender.streams[c], sender.whole[c], sender.tails[c], sender.handed, n, b, met, writes, fates);
  }
}
