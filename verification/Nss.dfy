/** NSS key log lines (the SSLKEYLOGFILE format, section 2 of draft-ietf-tls-keylogfile):
    splitting a line into fields, validating it, and exactly which truncations of a valid
    line are still valid. A byte is a `char` below 256. */
module Nss {
  import opened Wrappers

  // ----- Fields -----

  predicate IsAsciiSpace(c: char) {
    c == ' ' || '\U{9}' <= c <= '\U{d}'
  }

  /** The width of the white space that starts `s`, 0 if none does: an ASCII space, or the
      UTF-8 encoding of a code point with the White_Space property. No such encoding can
      start inside another code point, so looking at every byte finds what decoding finds. */
  function SpaceWidth(s: string): (w: nat)
    ensures w <= |s|
  {
    if s == [] then 0
    else if IsAsciiSpace(s[0]) then 1
    else if |s| >= 2 && s[0] == '\U{c2}' && (s[1] == '\U{85}' || s[1] == '\U{a0}') then 2
    else if |s| >= 3 && s[0] == '\U{e1}' && s[1] == '\U{9a}' && s[2] == '\U{80}' then 3
    else if |s| >= 3 && s[0] == '\U{e2}' && s[1] == '\U{80}'
            && ('\U{80}' <= s[2] <= '\U{8a}' || s[2] == '\U{a8}' || s[2] == '\U{a9}' || s[2] == '\U{af}') then 3
    else if |s| >= 3 && s[0] == '\U{e2}' && s[1] == '\U{81}' && s[2] == '\U{9f}' then 3
    else if |s| >= 3 && s[0] == '\U{e3}' && s[1] == '\U{80}' && s[2] == '\U{80}' then 3
    else 0
  }

  /** The UTF-8 bytes of a code point of at most 16 bits. */
  function Utf8(cp: nat): string
    requires cp < 0x1_0000
  {
    if cp < 0x80 then [cp as char]
    else if cp < 0x800 then [(0xC0 + cp / 64) as char, (0x80 + cp % 64) as char]
    else [(0xE0 + cp / 4096) as char, (0x80 + cp / 64 % 64) as char, (0x80 + cp % 64) as char]
  }

  /** The code points with Unicode's White_Space property. */
  predicate IsWhiteSpace(cp: nat) {
    || 0x9 <= cp <= 0xD || cp == 0x20 || cp == 0x85 || cp == 0xA0 || cp == 0x1680
    || 0x2000 <= cp <= 0x200A || cp == 0x2028 || cp == 0x2029 || cp == 0x202F || cp == 0x205F || cp == 0x3000
  }

  /** Every white-space code point at the front of the bytes is found, with its width. */
  lemma SpaceIsFound(s: string, cp: nat)
    requires IsWhiteSpace(cp) && Utf8(cp) <= s
    ensures SpaceWidth(s) == |Utf8(cp)|
  {
    var u := Utf8(cp);
    assert forall i :: 0 <= i < |u| ==> s[i] == u[i];
  }

  /** Whatever is taken as white space is the encoding of a white-space code point. */
  lemma FoundIsSpace(s: string) returns (cp: nat)
    requires SpaceWidth(s) > 0
    ensures IsWhiteSpace(cp) && Utf8(cp) == s[..SpaceWidth(s)]
  {
    var w := SpaceWidth(s);
    if w == 1 {
      cp := s[0] as nat;
    } else if w == 2 {
      cp := s[1] as nat;
    } else {
      cp := (s[0] as nat - 0xE0) * 4096 + (s[1] as nat - 0x80) * 64 + (s[2] as nat - 0x80);
    }
  }

  /** How many bytes pass before white space or the end. */
  function WordLength(s: string): (n: nat)
    ensures n <= |s|
    ensures s != [] && SpaceWidth(s) == 0 ==> n > 0
  {
    if s == [] || SpaceWidth(s) > 0 then 0 else 1 + WordLength(s[1..])
  }

  /** `strings.Fields`. */
  function Fields(s: string): seq<string>
    decreases |s|
  {
    if s == [] then []
    else if SpaceWidth(s) > 0 then Fields(s[SpaceWidth(s)..])
    else [s[..WordLength(s)]] + Fields(s[WordLength(s)..])
  }

  // ----- Validation -----

  datatype Label =
    | ClientRandom
    | ClientHandshakeTrafficSecret
    | ServerHandshakeTrafficSecret
    | ClientTrafficSecret0
    | ServerTrafficSecret0
    | ExporterSecret

  function LabelName(l: Label): string {
    match l
    case ClientRandom => "CLIENT_RANDOM"
    case ClientHandshakeTrafficSecret => "CLIENT_HANDSHAKE_TRAFFIC_SECRET"
    case ServerHandshakeTrafficSecret => "SERVER_HANDSHAKE_TRAFFIC_SECRET"
    case ClientTrafficSecret0 => "CLIENT_TRAFFIC_SECRET_0"
    case ServerTrafficSecret0 => "SERVER_TRAFFIC_SECRET_0"
    case ExporterSecret => "EXPORTER_SECRET"
  }

  /** The reverse table, `labelByName`. */
  function LabelByName(name: string): (l: Option<Label>)
    ensures l.Some? ==> LabelName(l.value) == name
  {
    if name == "CLIENT_RANDOM" then Some(ClientRandom)
    else if name == "CLIENT_HANDSHAKE_TRAFFIC_SECRET" then Some(ClientHandshakeTrafficSecret)
    else if name == "SERVER_HANDSHAKE_TRAFFIC_SECRET" then Some(ServerHandshakeTrafficSecret)
    else if name == "CLIENT_TRAFFIC_SECRET_0" then Some(ClientTrafficSecret0)
    else if name == "SERVER_TRAFFIC_SECRET_0" then Some(ServerTrafficSecret0)
    else if name == "EXPORTER_SECRET" then Some(ExporterSecret)
    else None
  }

  /** The two tables are each other's inverse. */
  lemma LabelTablesAgree(l: Label)
    ensures LabelByName(LabelName(l)) == Some(l)
  {
    match l
    case ClientRandom =>
    case ClientHandshakeTrafficSecret =>
    case ServerHandshakeTrafficSecret =>
    case ClientTrafficSecret0 =>
    case ServerTrafficSecret0 =>
    case ExporterSecret =>
  }

  /** A plain byte: ASCII and not white space. */
  predicate Plain(c: char) {
    c < '\U{80}' && !IsAsciiSpace(c)
  }

  predicate AllPlain(s: string) {
    forall i :: 0 <= i < |s| ==> Plain(s[i])
  }

  predicate IsLabelChar(c: char) {
    'A' <= c <= 'Z' || c == '_' || c == '0'
  }

  predicate AllLabelChars(s: string) {
    forall i :: 0 <= i < |s| ==> IsLabelChar(s[i])
  }

  lemma HandshakeNameChars()
    ensures AllLabelChars("CLIENT_HANDSHAKE_TRAFFIC_SECRET") && AllLabelChars("SERVER_HANDSHAKE_TRAFFIC_SECRET")
  {
  }

  lemma TrafficNameChars()
    ensures AllLabelChars("CLIENT_TRAFFIC_SECRET_0") && AllLabelChars("SERVER_TRAFFIC_SECRET_0")
  {
  }

  lemma LabelNameChars(l: Label)
    ensures LabelName(l) != [] && AllLabelChars(LabelName(l))
  {
    match l
    case ClientRandom =>
    case ClientHandshakeTrafficSecret => HandshakeNameChars();
    case ServerHandshakeTrafficSecret => HandshakeNameChars();
    case ClientTrafficSecret0 => TrafficNameChars();
    case ServerTrafficSecret0 => TrafficNameChars();
    case ExporterSecret =>
  }

  lemma LabelNamePlain(l: Label)
    ensures AllPlain(LabelName(l)) && LabelName(l) != [] && '|' !in LabelName(l)
  {
    LabelNameChars(l);
  }

  predicate IsHexDigit(c: char) {
    '0' <= c <= '9' || 'a' <= c <= 'f' || 'A' <= c <= 'F'
  }

  predicate AllHex(s: string) {
    forall i :: 0 <= i < |s| ==> IsHexDigit(s[i])
  }

  /** How many bytes `hex.DecodeString` yields; None where it fails. */
  function DecodedLength(s: string): Option<nat> {
    if |s| % 2 == 0 && AllHex(s) then Some(|s| / 2) else None
  }

  predicate ValidSecretLength(l: Label, n: nat) {
    if l == ClientRandom then n == 48 else n == 32 || n == 48
  }

  datatype Malformed =
    | WrongFieldCount(n: nat)
    | UnknownLabel(name: string)
    | InvalidClientRandom
    | InvalidSecret(name: string)

  function ValidateLine(line: string): Result<Label, Malformed> {
    var f := Fields(line);
    if |f| != 3 then Err(WrongFieldCount(|f|))
    else
      match LabelByName(f[0])
      case None => Err(UnknownLabel(f[0]))
      case Some(tag) =>
        if DecodedLength(f[1]) != Some(32) then Err(InvalidClientRandom)
        else if DecodedLength(f[2]).None? || !ValidSecretLength(tag, DecodedLength(f[2]).value) then
          Err(InvalidSecret(f[0]))
        else Ok(tag)
  }

  predicate Valid(line: string) {
    ValidateLine(line).Ok?
  }

  // ----- Splitting what was joined -----

  /** Nothing, or white space first. */
  predicate EndsWord(rest: string) { rest == [] || SpaceWidth(rest) > 0 }

  lemma {:induction false} WordLengthOfWord(w: string, rest: string)
    requires AllPlain(w) && EndsWord(rest)
    ensures WordLength(w + rest) == |w|
  {
    if w == [] {
      assert w + rest == rest;
    } else {
      WordLengthOfWord(w[1..], rest);
      assert (w + rest)[1..] == w[1..] + rest;
      assert (w + rest)[0] == w[0];
    }
  }

  lemma FieldsOfWord(w: string, rest: string)
    requires w != [] && AllPlain(w) && EndsWord(rest)
    ensures Fields(w + rest) == [w] + Fields(rest)
  {
    WordLengthOfWord(w, rest);
    assert (w + rest)[0] == w[0];
    assert (w + rest)[..|w|] == w && (w + rest)[|w|..] == rest;
  }

  lemma FieldsOfSpace(rest: string)
    ensures Fields(" " + rest) == Fields(rest)
  {
    assert (" " + rest)[1..] == rest;
  }

  /** White space by code points. */
  ghost function Gap(cps: seq<nat>): string
    requires forall i :: 0 <= i < |cps| ==> IsWhiteSpace(cps[i])
  {
    if cps == [] then [] else assert IsWhiteSpace(cps[0]); Utf8(cps[0]) + Gap(cps[1..])
  }

  ghost predicate AreGaps(gaps: seq<seq<nat>>) {
    forall i :: 0 <= i < |gaps| ==> forall j :: 0 <= j < |gaps[i]| ==> IsWhiteSpace(gaps[i][j])
  }

  /** Words with a gap before each and one at the end. */
  ghost function Spaced(words: seq<string>, gaps: seq<seq<nat>>): string
    requires |gaps| == |words| + 1 && AreGaps(gaps)
    decreases |words|
  {
    if words == [] then Gap(gaps[0]) else Gap(gaps[0]) + (words[0] + Spaced(words[1..], gaps[1..]))
  }

  lemma {:induction false} FieldsSkipGap(cps: seq<nat>, rest: string)
    requires forall i :: 0 <= i < |cps| ==> IsWhiteSpace(cps[i])
    ensures Fields(Gap(cps) + rest) == Fields(rest)
    ensures cps != [] ==> SpaceWidth(Gap(cps) + rest) > 0
  {
    if cps == [] {
      assert Gap(cps) + rest == rest;
    } else {
      var u, after := Utf8(cps[0]), Gap(cps[1..]) + rest;
      assert Gap(cps) + rest == u + after;
      SpaceIsFound(u + after, cps[0]);
      assert (u + after)[|u|..] == after;
      FieldsSkipGap(cps[1..], rest);
    }
  }

  lemma SpacedStarts(words: seq<string>, gaps: seq<seq<nat>>)
    requires |gaps| == |words| + 1 && AreGaps(gaps) && (words != [] ==> gaps[0] != [])
    ensures EndsWord(Spaced(words, gaps))
  {
    if words == [] {
      assert Gap(gaps[0]) + [] == Gap(gaps[0]);
      FieldsSkipGap(gaps[0], []);
      if gaps[0] == [] {
        assert Gap(gaps[0]) == [];
      }
    } else {
      FieldsSkipGap(gaps[0], words[0] + Spaced(words[1..], gaps[1..]));
    }
  }

  /** `strings.Fields`: plain words come back whatever white space stands before, between and
      after them, as long as there is some between any two. */
  lemma {:induction false} FieldsOfSpaced(words: seq<string>, gaps: seq<seq<nat>>)
    requires |gaps| == |words| + 1 && AreGaps(gaps)
    requires forall i :: 0 <= i < |words| ==> words[i] != [] && AllPlain(words[i])
    requires forall i :: 0 < i < |words| ==> gaps[i] != []
    ensures Fields(Spaced(words, gaps)) == words
    decreases |words|
  {
    if words == [] {
      assert Gap(gaps[0]) + [] == Gap(gaps[0]);
      FieldsSkipGap(gaps[0], []);
    } else {
      var rest := Spaced(words[1..], gaps[1..]);
      FieldsOfSpaced(words[1..], gaps[1..]);
      SpacedStarts(words[1..], gaps[1..]);
      FieldsOfWord(words[0], rest);
      FieldsSkipGap(gaps[0], words[0] + rest);
    }
  }

  // ----- A carriage return at the end -----

  lemma {:induction false} WordLengthBeforeCR(s: string)
    ensures WordLength(s + "\r") == WordLength(s)
    ensures s != [] ==> SpaceWidth(s + "\r") == SpaceWidth(s)
  {
    if s != [] {
      assert SpaceWidth(s + "\r") == SpaceWidth(s);
      WordLengthBeforeCR(s[1..]);
      assert (s + "\r")[1..] == s[1..] + "\r";
    }
  }

  /** It changes no field. */
  lemma {:induction false} FieldsBeforeCR(s: string)
    ensures Fields(s + "\r") == Fields(s)
    decreases |s|
  {
    WordLengthBeforeCR(s);
    if s == [] {
      assert s + "\r" == "\r";
      assert Fields("\r") == [];
    } else {
      var k := if SpaceWidth(s) > 0 then SpaceWidth(s) else WordLength(s);
      FieldsBeforeCR(s[k..]);
      assert (s + "\r")[k..] == s[k..] + "\r" && (s + "\r")[..k] == s[..k];
    }
  }

  /** The line with these three parts, single spaces between them. */
  function Render(tag: string, random: string, secret: string): string {
    tag + " " + random + " " + secret
  }

  /** An empty part leaves no field. */
  function NonEmpty(s: string): seq<string> {
    if s == [] then [] else [s]
  }

  lemma FieldsOfTwo(a: string, b: string)
    requires a != [] && AllPlain(a) && AllPlain(b)
    ensures Fields(a + " " + b) == [a] + NonEmpty(b)
  {
    assert a + " " + b == a + (" " + b);
    FieldsOfWord(a, " " + b);
    FieldsOfSpace(b);
    if b != [] {
      assert b + [] == b;
      FieldsOfWord(b, []);
    }
  }

  lemma FieldsOfThree(a: string, b: string, c: string)
    requires a != [] && b != [] && AllPlain(a) && AllPlain(b) && AllPlain(c)
    ensures Fields(Render(a, b, c)) == [a, b] + NonEmpty(c)
  {
    assert Render(a, b, c) == a + (" " + (b + " " + c));
    FieldsOfWord(a, " " + (b + " " + c));
    FieldsOfSpace(b + " " + c);
    FieldsOfTwo(b, c);
  }

  // ----- Truncation -----

  /** A valid line with single spaces and nothing else around its three parts. */
  predicate SingleSpaced(line: string, tag: string, random: string, secret: string) {
    && line == Render(tag, random, secret)
    && LabelByName(tag).Some?
    && AllHex(random) && |random| == 64
    && AllHex(secret) && |secret| % 2 == 0
    && ValidSecretLength(LabelByName(tag).value, |secret| / 2)
  }

  lemma SingleSpacedParts(line: string, tag: string, random: string, secret: string)
    requires SingleSpaced(line, tag, random, secret)
    ensures AllPlain(tag) && tag != [] && AllPlain(random) && AllPlain(secret) && secret != []
  {
    LabelNamePlain(LabelByName(tag).value);
  }

  lemma SingleSpacedIsValid(line: string, tag: string, random: string, secret: string)
    requires SingleSpaced(line, tag, random, secret)
    ensures Fields(line) == [tag, random, secret] && Valid(line)
  {
    SingleSpacedParts(line, tag, random, secret);
    FieldsOfThree(tag, random, secret);
  }

  /** A line that validates: CLIENT_RANDOM with a client random and a secret of zeros. */
  lemma ZeroLineIsValid() returns (line: string)
    ensures line == Render("CLIENT_RANDOM", seq(64, _ => '0'), seq(96, _ => '0')) && Valid(line)
  {
    line := Render("CLIENT_RANDOM", seq(64, _ => '0'), seq(96, _ => '0'));
    SingleSpacedIsValid(line, "CLIENT_RANDOM", seq(64, _ => '0'), seq(96, _ => '0'));
  }

  /** Where a TLS 1.3 line with a 96-digit secret is cut to leave 64 digits. */
  function ShortCut(tag: string): nat {
    |tag| + 66 + 64
  }

  /** A cut before the secret leaves at most two fields. */
  lemma CutBeforeSecret(line: string, tag: string, random: string, secret: string, k: nat)
    requires SingleSpaced(line, tag, random, secret)
    requires k <= |tag| + 66
    ensures !Valid(line[..k])
  {
    SingleSpacedParts(line, tag, random, secret);
    if k <= |tag| {
      assert line[..k] == tag[..k];
      if k > 0 {
        assert tag[..k] + [] == tag[..k];
        FieldsOfWord(tag[..k], []);
      }
    } else if k <= |tag| + 65 {
      assert line[..k] == tag + " " + random[..k - |tag| - 1];
      FieldsOfTwo(tag, random[..k - |tag| - 1]);
    } else {
      assert line[..k] == Render(tag, random, []);
      FieldsOfThree(tag, random, []);
    }
  }

  lemma ValidOfParts(line: string, tag: string, random: string, secret: string)
    requires Fields(line) == [tag, random, secret] && LabelByName(tag).Some?
    requires AllHex(random) && |random| == 64 && AllHex(secret)
    ensures Valid(line) <==> |secret| % 2 == 0 && ValidSecretLength(LabelByName(tag).value, |secret| / 2)
  {
  }

  lemma CutFields(line: string, tag: string, random: string, secret: string, k: nat)
    requires SingleSpaced(line, tag, random, secret) && |tag| + 66 < k <= |line|
    ensures Fields(line[..k]) == [tag, random, secret[..k - |tag| - 66]]
  {
    SingleSpacedParts(line, tag, random, secret);
    var cut := secret[..k - |tag| - 66];
    assert line[..k] == Render(tag, random, cut);
    FieldsOfThree(tag, random, cut);
  }

  /** A cut inside the secret passes exactly when what is left of it has a valid length. */
  lemma CutInSecret(line: string, tag: string, random: string, secret: string, k: nat)
    requires SingleSpaced(line, tag, random, secret) && |tag| + 66 < k <= |line|
    ensures var m := k - |tag| - 66;
            Valid(line[..k]) <==> m % 2 == 0 && ValidSecretLength(LabelByName(tag).value, m / 2)
  {
    CutFields(line, tag, random, secret, k);
    ValidOfParts(line[..k], tag, random, secret[..k - |tag| - 66]);
  }

  /** Exactly which truncations pass for a line: of a TLS 1.3 line with a 96-digit secret,
      the one with 64 digits left; of every other line, none. */
  lemma TruncationAccepted(line: string, tag: string, random: string, secret: string, k: nat)
    requires SingleSpaced(line, tag, random, secret)
    requires k < |line|
    ensures Valid(line[..k])
            <==> LabelByName(tag) != Some(ClientRandom) && |secret| == 96 && k == ShortCut(tag)
  {
    assert |line| == |tag| + 66 + |secret|;
    if k <= |tag| + 66 {
      CutBeforeSecret(line, tag, random, secret, k);
    } else {
      CutInSecret(line, tag, random, secret, k);
    }
  }

  // ----- Truncation of any line -----

  /** `f` is the fields of a start of a line with fields `g`: all the same but the last, which
      may be cut short. */
  ghost predicate FieldsStart(f: seq<string>, g: seq<string>) {
    f == [] || (|f| <= |g| && f[..|f| - 1] == g[..|f| - 1] && f[|f| - 1] <= g[|f| - 1])
  }

  ghost predicate PlainFields(f: seq<string>) {
    forall i :: 0 <= i < |f| ==> AllPlain(f[i])
  }

  lemma SpaceStaysFound(s: string, z: string)
    requires SpaceWidth(s) > 0
    ensures SpaceWidth(s + z) == SpaceWidth(s)
  {
    assert forall i :: 0 <= i < |s| ==> (s + z)[i] == s[i];
  }

  lemma {:induction false} WordLengthExtends(s: string, z: string)
    requires AllPlain(s[..WordLength(s)])
    ensures WordLength(s) <= WordLength(s + z)
    ensures WordLength(s) < |s| ==> WordLength(s + z) == WordLength(s)
  {
    if s != [] {
      if SpaceWidth(s) > 0 {
        SpaceStaysFound(s, z);
      } else {
        assert s[0] == s[..WordLength(s)][0] && (s + z)[0] == s[0];
        assert s[1..][..WordLength(s[1..])] == s[..WordLength(s)][1..];
        WordLengthExtends(s[1..], z);
        assert (s + z)[1..] == s[1..] + z;
      }
    }
  }

  /** Cutting a line keeps its fields but for the last one left, as long as what is left of
      each is plain. */
  lemma {:induction false} CutKeepsFields(t: string, z: string)
    requires PlainFields(Fields(t))
    ensures FieldsStart(Fields(t), Fields(t + z))
    decreases |t|
  {
    if t != [] {
      var w := SpaceWidth(t);
      if w > 0 {
        SpaceStaysFound(t, z);
        assert (t + z)[w..] == t[w..] + z;
        CutKeepsFields(t[w..], z);
      } else {
        CutKeepsWord(t, z);
      }
    }
  }

  lemma {:induction false} CutKeepsWord(t: string, z: string)
    requires t != [] && SpaceWidth(t) == 0 && PlainFields(Fields(t))
    ensures FieldsStart(Fields(t), Fields(t + z))
    decreases |t|, 0
  {
    var n := WordLength(t);
    var word, f := t[..n], Fields(t[n..]);
    FirstFieldIsPlain(t);
    WordOfExtension(t, z);
    if n < |t| {
      CutKeepsFields(t[n..], z);
      StartAfterWord(word, f, Fields(t[n..] + z));
    } else {
      assert word == t && Fields(t) == [t];
    }
  }

  lemma FirstFieldIsPlain(t: string)
    requires t != [] && SpaceWidth(t) == 0 && PlainFields(Fields(t))
    ensures var n := WordLength(t); AllPlain(t[..n]) && PlainFields(Fields(t[n..]))
  {
    var n := WordLength(t);
    var f := Fields(t[n..]);
    assert Fields(t) == [t[..n]] + f;
    assert Fields(t)[0] == t[..n];
    forall i | 0 <= i < |f| ensures AllPlain(f[i]) {
      assert f[i] == Fields(t)[i + 1];
    }
  }

  /** The first word of a longer line: the same if white space followed, else one it starts. */
  lemma WordOfExtension(t: string, z: string)
    requires t != [] && SpaceWidth(t) == 0 && AllPlain(t[..WordLength(t)])
    ensures var n := WordLength(t);
            if n < |t| then Fields(t + z) == [t[..n]] + Fields(t[n..] + z)
            else Fields(t + z) != [] && t <= Fields(t + z)[0]
  {
    var n, m := WordLength(t), WordLength(t + z);
    WordLengthExtends(t, z);
    assert (t + z)[0] == t[0] == t[..n][0];
    assert Fields(t + z) == [(t + z)[..m]] + Fields((t + z)[m..]);
    if n < |t| {
      assert (t + z)[..n] == t[..n] && (t + z)[n..] == t[n..] + z;
    }
  }

  lemma StartAfterWord(w: string, f: seq<string>, g: seq<string>)
    requires FieldsStart(f, g)
    ensures FieldsStart([w] + f, [w] + g)
  {
    if f != [] {
      assert ([w] + f)[..|f|] == [w] + f[..|f| - 1];
      assert ([w] + g)[..|f|] == [w] + g[..|f| - 1];
    }
  }

  predicate PlainNoBar(s: string) { AllPlain(s) && '|' !in s }

  lemma HexIsPlain(s: string)
    requires AllHex(s)
    ensures PlainNoBar(s)
  {
  }

  lemma LabelIsPlain(name: string)
    requires LabelByName(name).Some?
    ensures PlainNoBar(name)
  {
    LabelNamePlain(LabelByName(name).value);
  }

  lemma ValidParts(line: string)
    requires Valid(line)
    ensures var f := Fields(line); |f| == 3 && LabelByName(f[0]).Some? && AllHex(f[1]) && AllHex(f[2])
  {
  }

  lemma ThreeArePlain(f: seq<string>)
    requires |f| == 3 && PlainNoBar(f[0]) && PlainNoBar(f[1]) && PlainNoBar(f[2])
    ensures PlainFields(f) && forall i :: 0 <= i < 3 ==> '|' !in f[i]
  {
  }

  /** The fields of a valid line hold neither white space nor bars. */
  lemma ValidFieldsArePlain(line: string)
    requires Valid(line)
    ensures PlainFields(Fields(line))
    ensures forall i :: 0 <= i < 3 ==> '|' !in Fields(line)[i]
  {
    var f := Fields(line);
    ValidParts(line);
    LabelIsPlain(f[0]);
    HexIsPlain(f[1]);
    HexIsPlain(f[2]);
    ThreeArePlain(f);
  }

  /** `t` has the label and the client random of `l`, and a start of its third field. */
  ghost predicate KeepsTriple(t: string, l: string) {
    var f, g := Fields(t), Fields(l);
    && |f| == 3 && |g| >= 3 && f[0] == g[0] && f[1] == g[1] && f[2] <= g[2]
  }

  /** Whatever the line, valid or not, a start of it that validates keeps its label and its
      client random, and a start of its third field as secret. */
  lemma ValidStartKeepsTriple(t: string, l: string)
    requires t <= l && Valid(t)
    ensures KeepsTriple(t, l)
  {
    ValidFieldsArePlain(t);
    CutKeepsFields(t, l[|t|..]);
    assert t + l[|t|..] == l;
    var f, g := Fields(t), Fields(l);
    assert f[0] == f[..2][0] && f[1] == f[..2][1] && g[0] == g[..2][0] && g[1] == g[..2][1];
  }

  /** `t` holds the same triple as `l`, or the one with 64 of the 96 secret digits of a TLS 1.3
      line. */
  predicate SameOrShort(t: string, l: string) {
    var f, g := Fields(t), Fields(l);
    && |f| == |g| == 3 && f[0] == g[0] && f[1] == g[1]
    && (f[2] == g[2] || (f[0] != "CLIENT_RANDOM" && |g[2]| == 96 && f[2] == g[2][..64]))
  }

  /** Exactly which starts of any valid line validate, whatever white space it has: those that
      hold the whole triple, and those with 64 of the 96 secret digits of a TLS 1.3 line. */
  lemma StartIsValidIff(t: string, l: string)
    requires t <= l && Valid(l)
    ensures Valid(t) <==> SameOrShort(t, l)
  {
    if Valid(t) {
      ValidStartKeepsTriple(t, l);
      SameLengthSame(Fields(t)[2], Fields(l)[2]);
    }
  }

  lemma SameLengthSame(a: string, b: string)
    requires a <= b
    ensures a == b[..|a|] && (|a| == |b| ==> a == b)
  {
  }

  // ----- Exactly which lines are valid -----

  predicate IsTls13Name(name: string) {
    || name == "CLIENT_HANDSHAKE_TRAFFIC_SECRET" || name == "SERVER_HANDSHAKE_TRAFFIC_SECRET"
    || name == "CLIENT_TRAFFIC_SECRET_0" || name == "SERVER_TRAFFIC_SECRET_0" || name == "EXPORTER_SECRET"
  }

  /** This many hex digits, in either case. */
  predicate HexDigits(s: string, n: nat) {
    |s| == n && forall i :: 0 <= i < n ==> s[i] in "0123456789abcdefABCDEF"
  }

  lemma HexDigitsIff(s: string)
    ensures HexDigits(s, |s|) <==> AllHex(s)
  {
    forall i | 0 <= i < |s| ensures s[i] in "0123456789abcdefABCDEF" <==> IsHexDigit(s[i]) {
      HexDigitIff(s[i]);
    }
  }

  lemma HexDigitIff(c: char)
    ensures c in "0123456789abcdefABCDEF" <==> IsHexDigit(c)
  {
    var digits := "0123456789abcdefABCDEF";
    if IsHexDigit(c) {
      var i := if c <= '9' then c as int - '0' as int
               else if c <= 'F' then c as int - 'A' as int + 16 else c as int - 'a' as int + 10;
      assert digits[i] == c;
    }
  }

  lemma KnownNames(name: string)
    ensures LabelByName(name).Some? <==> name == "CLIENT_RANDOM" || IsTls13Name(name)
    ensures LabelByName(name) == Some(ClientRandom) <==> name == "CLIENT_RANDOM"
  {
  }

  /** A line is valid if and only if it has three fields: CLIENT_RANDOM with a 64-digit client
      random and a 96-digit secret, or one of the five TLS 1.3 labels with a 64-digit client
      random and a secret of 64 or 96 digits. */
  lemma ValidIff(line: string)
    ensures Valid(line) <==>
              var f := Fields(line);
              && |f| == 3 && HexDigits(f[1], 64)
              && ((f[0] == "CLIENT_RANDOM" && HexDigits(f[2], 96))
                  || (IsTls13Name(f[0]) && (HexDigits(f[2], 64) || HexDigits(f[2], 96))))
  {
    var f := Fields(line);
    if |f| == 3 {
      KnownNames(f[0]);
      HexDigitsIff(f[1]);
      HexDigitsIff(f[2]);
    }
  }

  /** The same for a line as it is written, by label. */
  lemma RenderedIsValidIff(l: Label, random: string, secret: string)
    requires HexDigits(random, 64) && HexDigits(secret, |secret|)
    ensures Valid(Render(LabelName(l), random, secret))
            <==> |secret| == 96 || (l != ClientRandom && |secret| == 64)
  {
    HexDigitsIff(random);
    HexDigitsIff(secret);
    HexIsPlain(random);
    HexIsPlain(secret);
    LabelNamePlain(l);
    FieldsOfThree(LabelName(l), random, secret);
    LabelTablesAgree(l);
    KnownNames(LabelName(l));
    ValidIff(Render(LabelName(l), random, secret));
  }

  /** A TLS 1.3 line with a 48-byte secret, as a SHA-384 cipher suite gives, validates. */
  lemma LongSecretIsValid() returns (line: string)
    ensures line == Render("CLIENT_TRAFFIC_SECRET_0", seq(64, _ => 'a'), seq(96, _ => 'F')) && Valid(line)
  {
    var random, secret := seq(64, _ => 'a'), seq(96, _ => 'F');
    line := Render("CLIENT_TRAFFIC_SECRET_0", random, secret);
    assert HexDigits(random, 64) && HexDigits(secret, 96);
    RenderedIsValidIff(ClientTrafficSecret0, random, secret);
  }

  // ----- The duplicate key -----

  /** The text the keylog remembers a line by. */
  function Key(line: string): string
    requires Valid(line)
  {
    var f := Fields(line);
    f[0] + "|" + f[1] + "|" + f[2]
  }

  lemma {:induction false} BarSplitsOnce(a: string, x: string, b: string, y: string)
    requires '|' !in a && '|' !in b && a + "|" + x == b + "|" + y
    ensures a == b && x == y
  {
    var s := a + "|" + x;
    assert s[|a|] == '|' && s[|b|] == '|';
    assert s[..|a|] == a && s[..|b|] == b;
    assert s[|a|+1..] == x && s[|b|+1..] == y;
  }

  lemma BarsSplitOnce(f: seq<string>, g: seq<string>)
    requires |f| == |g| == 3
    requires forall i :: 0 <= i < 3 ==> '|' !in f[i] && '|' !in g[i]
    requires f[0] + "|" + f[1] + "|" + f[2] == g[0] + "|" + g[1] + "|" + g[2]
    ensures f == g
  {
    assert f[0] + "|" + f[1] + "|" + f[2] == f[0] + "|" + (f[1] + "|" + f[2]);
    assert g[0] + "|" + g[1] + "|" + g[2] == g[0] + "|" + (g[1] + "|" + g[2]);
    BarSplitsOnce(f[0], f[1] + "|" + f[2], g[0], g[1] + "|" + g[2]);
    BarSplitsOnce(f[1], f[2], g[1], g[2]);
  }

  /** Two valid lines share a key exactly when they share label, client random and secret. */
  lemma KeyIdentifiesTriple(a: string, b: string)
    requires Valid(a) && Valid(b)
    ensures Key(a) == Key(b) <==> Fields(a) == Fields(b)
  {
    ValidFieldsArePlain(a);
    ValidFieldsArePlain(b);
    if Key(a) == Key(b) {
      BarsSplitOnce(Fields(a), Fields(b));
    }
  }
}
