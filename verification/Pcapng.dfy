/** The pcapng side of a capture: block sizes, the bytes of each block (sections 3.1, 4.3 and
    4.8 of draft-ietf-opsawg-pcapng), and the walk that reads back whatever whole blocks a
    file holds. A byte is a `char` below 256. */
module Pcapng {
  import opened Wrappers

  datatype CaptureInfo = CaptureInfo(timestamp: Option<int>, captureLength: int, length: int, interfaceIndex: int)

  /** A captured packet and when the writer received it. */
  datatype Packet = Packet(info: CaptureInfo, data: string, at: int)

  /** What the capture writer puts in the file after its header: one Decryption Secrets Block
      for a batch of key lines, or one Enhanced Packet Block. */
  datatype Block = Secrets(lines: seq<string>) | Frame(packet: Packet)

  // ----- Sizes -----

  /** Rounds up to the 4-byte boundary by clearing the two low bits. */
  function Pad4(n: nat): (r: nat)
    ensures n <= r < n + 4 && r % 4 == 0
  {
    (n + 3) - (n + 3) % 4
  }

  /** Clearing the two low bits of a 64-bit word takes off its remainder by 4. */
  lemma ClearLowBits(x: bv64)
    ensures x & !(3 as bv64) == x - x % 4
  {
  }

  function EpbSize(n: nat): nat { 32 + Pad4(n) }

  function DsbSize(n: nat): nat { 20 + Pad4(n) }

  function Join(lines: seq<string>): string {
    if lines == [] then [] else if |lines| == 1 then lines[0] else lines[0] + "\n" + Join(lines[1..])
  }

  /** The payload of a secrets block. */
  function SecretsPayload(lines: seq<string>): string {
    Join(lines) + "\n"
  }

  /** Every line followed by a newline: what the keylog file holds after these lines. */
  function Terminated(lines: seq<string>): string {
    if lines == [] then [] else lines[0] + "\n" + Terminated(lines[1..])
  }

  lemma Associative<T>(a: seq<T>, b: seq<T>, c: seq<T>)
    ensures a + b + c == a + (b + c)
  {
  }

  lemma {:induction false} PayloadIsTerminated(lines: seq<string>)
    requires lines != []
    ensures SecretsPayload(lines) == Terminated(lines)
  {
    if |lines| == 1 {
      assert lines[1..] == [];
      assert Terminated(lines[1..]) == [];
    } else {
      PayloadIsTerminated(lines[1..]);
      assert Join(lines) + "\n" == lines[0] + "\n" + (Join(lines[1..]) + "\n");
    }
  }

  lemma {:induction false} TerminatedConcat(a: seq<string>, b: seq<string>)
    ensures Terminated(a + b) == Terminated(a) + Terminated(b)
  {
    if a == [] {
      assert a + b == b;
    } else {
      TerminatedConcat(a[1..], b);
      assert (a + b)[1..] == a[1..] + b && (a + b)[0] == a[0];
      var h := a[0] + "\n";
      assert h + (Terminated(a[1..]) + Terminated(b)) == h + Terminated(a[1..]) + Terminated(b);
    }
  }

  /** What the lines cost when each is counted as a block of its own. */
  function LineBytes(lines: seq<string>): nat {
    if lines == [] then 0 else DsbSize(|lines[0]| + 1) + LineBytes(lines[1..])
  }

  function FrameBytes(packets: seq<Packet>): nat {
    if packets == [] then 0 else EpbSize(|packets[0].data|) + FrameBytes(packets[1..])
  }

  function BlockSize(b: Block): nat {
    match b
    case Secrets(lines) => DsbSize(|SecretsPayload(lines)|)
    case Frame(p) => EpbSize(|p.data|)
  }

  function BlockBytes(blocks: seq<Block>): nat {
    if blocks == [] then 0 else BlockSize(blocks[0]) + BlockBytes(blocks[1..])
  }

  /** Batching never costs bytes: one block for a batch is no larger than a block per line. */
  lemma {:induction false} BatchingIsNoLarger(lines: seq<string>)
    requires lines != []
    ensures BlockSize(Secrets(lines)) <= LineBytes(lines)
  {
    if |lines| == 1 {
      assert lines[1..] == [] && LineBytes(lines[1..]) == 0;
    } else {
      BatchingIsNoLarger(lines[1..]);
      assert |SecretsPayload(lines)| == |lines[0]| + 1 + |SecretsPayload(lines[1..])|;
    }
  }

  lemma {:induction false} LineBytesConcat(a: seq<string>, b: seq<string>)
    ensures LineBytes(a + b) == LineBytes(a) + LineBytes(b)
  {
    if a == [] {
      assert a + b == b;
    } else {
      LineBytesConcat(a[1..], b);
      assert (a + b)[1..] == a[1..] + b;
    }
  }

  lemma {:induction false} FrameBytesConcat(a: seq<Packet>, b: seq<Packet>)
    ensures FrameBytes(a + b) == FrameBytes(a) + FrameBytes(b)
  {
    if a == [] {
      assert a + b == b;
    } else {
      FrameBytesConcat(a[1..], b);
      assert (a + b)[1..] == a[1..] + b;
    }
  }

  lemma {:induction false} BlockBytesConcat(a: seq<Block>, b: seq<Block>)
    ensures BlockBytes(a + b) == BlockBytes(a) + BlockBytes(b)
  {
    if a == [] {
      assert a + b == b;
    } else {
      BlockBytesConcat(a[1..], b);
      assert (a + b)[1..] == a[1..] + b;
    }
  }

  // ----- What a block sequence carries -----

  /** Every line of the secrets blocks, in order. */
  function LinesIn(blocks: seq<Block>): seq<string> {
    if blocks == [] then []
    else (if blocks[0].Secrets? then blocks[0].lines else []) + LinesIn(blocks[1..])
  }

  /** Every packet of the packet blocks, in order. */
  function PacketsIn(blocks: seq<Block>): seq<Packet> {
    if blocks == [] then []
    else (if blocks[0].Frame? then [blocks[0].packet] else []) + PacketsIn(blocks[1..])
  }

  lemma {:induction false} LinesInConcat(a: seq<Block>, b: seq<Block>)
    ensures LinesIn(a + b) == LinesIn(a) + LinesIn(b)
  {
    if a == [] {
      assert a + b == b;
    } else {
      LinesInConcat(a[1..], b);
      assert (a + b)[1..] == a[1..] + b && (a + b)[0] == a[0];
      var h := if a[0].Secrets? then a[0].lines else [];
      assert h + (LinesIn(a[1..]) + LinesIn(b)) == h + LinesIn(a[1..]) + LinesIn(b);
    }
  }

  lemma {:induction false} PacketsInConcat(a: seq<Block>, b: seq<Block>)
    ensures PacketsIn(a + b) == PacketsIn(a) + PacketsIn(b)
  {
    if a == [] {
      assert a + b == b;
    } else {
      PacketsInConcat(a[1..], b);
      assert (a + b)[1..] == a[1..] + b && (a + b)[0] == a[0];
      var h := if a[0].Frame? then [a[0].packet] else [];
      assert h + (PacketsIn(a[1..]) + PacketsIn(b)) == h + PacketsIn(a[1..]) + PacketsIn(b);
    }
  }

  // ----- Bytes -----

  const TWO_32: nat := 0x1_0000_0000
  const TYPE_EPB: nat := 6
  const TYPE_DSB: nat := 10
  const TLS_KEY_LOG: nat := 0x544c_534b

  /** A 32-bit word, least significant byte first. */
  function Word(n: nat): (s: string)
    ensures |s| == 4
  {
    [(n % 256) as char, (n / 256 % 256) as char, (n / 65536 % 256) as char, (n / 16777216 % 256) as char]
  }

  function ReadWord(s: string, off: nat): nat
    requires off + 4 <= |s|
  {
    s[off] as nat + 256 * (s[off + 1] as nat) + 65536 * (s[off + 2] as nat) + 16777216 * (s[off + 3] as nat)
  }

  lemma WordRoundTrip(n: nat)
    requires n < TWO_32
    ensures ReadWord(Word(n), 0) == n
  {
    var a, b, c, d := n % 256, n / 256 % 256, n / 65536 % 256, n / 16777216 % 256;
    assert n / 65536 == n / 256 / 256 && n / 16777216 == n / 65536 / 256;
    assert n == a + 256 * (b + 256 * (c + 256 * d));
  }

  /** A block as a reader sees it. */
  datatype RawBlock = RawBlock(typ: nat, body: string)

  function RawSize(b: RawBlock): nat { 12 + |b.body| }

  /** Fits the format's 32-bit type and length. */
  predicate Encodable(b: RawBlock) {
    b.typ < TWO_32 && RawSize(b) < TWO_32
  }

  predicate AllEncodable(blocks: seq<RawBlock>) {
    forall i :: 0 <= i < |blocks| ==> Encodable(blocks[i])
  }

  function EncodeBlock(b: RawBlock): (s: string)
    ensures |s| == RawSize(b)
  {
    Word(b.typ) + Word(RawSize(b)) + b.body + Word(RawSize(b))
  }

  function Encode(blocks: seq<RawBlock>): string {
    if blocks == [] then [] else EncodeBlock(blocks[0]) + Encode(blocks[1..])
  }

  /** The whole blocks at the front of `raw`. */
  function Walk(raw: string): seq<RawBlock>
    decreases |raw|
  {
    if |raw| < 8 then []
    else
      var length := ReadWord(raw, 4);
      if length < 12 || length > |raw| then []
      else [RawBlock(ReadWord(raw, 0), raw[8..length - 4])] + Walk(raw[length..])
  }

  /** One block of the walk, seen from an offset. */
  lemma WalkFrom(raw: string, off: nat)
    requires off + 8 <= |raw|
    ensures var length := ReadWord(raw, off + 4);
            Walk(raw[off..]) ==
              if length < 12 || off + length > |raw| then []
              else [RawBlock(ReadWord(raw, off), raw[off + 8..off + length - 4])] + Walk(raw[off + length..])
  {
    var rest, length := raw[off..], ReadWord(raw, off + 4);
    assert length == ReadWord(rest, 4) && ReadWord(rest, 0) == ReadWord(raw, off);
    if 12 <= length <= |rest| {
      assert rest[8..length - 4] == raw[off + 8..off + length - 4];
      assert rest[length..] == raw[off + length..];
    }
  }

  /** The blocks found up to an offset, with what the walk finds from there, are its result. */
  ghost predicate WalkedTo(raw: string, off: nat, blocks: seq<RawBlock>) {
    off <= |raw| && blocks + Walk(raw[off..]) == Walk(raw)
  }

  lemma WalkStarts(raw: string)
    ensures WalkedTo(raw, 0, [])
  {
    assert raw[0..] == raw;
  }

  lemma WalkEnds(raw: string, off: nat, blocks: seq<RawBlock>)
    requires WalkedTo(raw, off, blocks)
    requires off + 8 <= |raw| ==> ReadWord(raw, off + 4) < 12 || off + ReadWord(raw, off + 4) > |raw|
    ensures blocks == Walk(raw)
  {
    if off + 8 <= |raw| {
      WalkFrom(raw, off);
    }
    assert Walk(raw[off..]) == [];
  }

  lemma WalkAdvances(raw: string, off: nat, blocks: seq<RawBlock>, length: nat, b: RawBlock)
    requires WalkedTo(raw, off, blocks) && off + 8 <= |raw| && length == ReadWord(raw, off + 4)
    requires 12 <= length && off + length <= |raw|
    requires b == RawBlock(ReadWord(raw, off), raw[off + 8..off + length - 4])
    ensures WalkedTo(raw, off + length, blocks + [b])
  {
    WalkFrom(raw, off);
    Associative(blocks, [b], Walk(raw[off + length..]));
  }

  /** The walk as the reader runs it, by offset. */
  method CompleteBlocks(raw: string) returns (blocks: seq<RawBlock>)
    ensures blocks == Walk(raw)
  {
    blocks := [];
    var off := 0;
    WalkStarts(raw);
    while off + 8 <= |raw|
      invariant WalkedTo(raw, off, blocks)
      decreases |raw| - off
    {
      var length := ReadWord(raw, off + 4);
      if length < 12 || off + length > |raw| {
        break;
      }
      var block := RawBlock(ReadWord(raw, off), raw[off + 8..off + length - 4]);
      WalkAdvances(raw, off, blocks, length, block);
      blocks := blocks + [block];
      off := off + length;
    }
    WalkEnds(raw, off, blocks);
  }

  /** How many leading blocks lie wholly inside the first `n` bytes. */
  function WholeWithin(blocks: seq<RawBlock>, n: nat): (k: nat)
    ensures k <= |blocks|
  {
    if blocks == [] || RawSize(blocks[0]) > n then 0
    else 1 + WholeWithin(blocks[1..], n - RawSize(blocks[0]))
  }

  /** That count is the largest one that fits. */
  lemma {:induction false} WholeWithinIsLargest(blocks: seq<RawBlock>, n: nat)
    ensures var k := WholeWithin(blocks, n);
            |Encode(blocks[..k])| <= n
            && (k < |blocks| ==> |Encode(blocks[..k + 1])| > n)
  {
    var k := WholeWithin(blocks, n);
    if blocks != [] && RawSize(blocks[0]) <= n {
      WholeWithinIsLargest(blocks[1..], n - RawSize(blocks[0]));
      assert blocks[..k][1..] == blocks[1..][..k - 1];
      if k < |blocks| {
        assert blocks[..k + 1][1..] == blocks[1..][..k];
      }
    } else if blocks != [] {
      assert blocks[..1][0] == blocks[0] && blocks[..1][1..] == [];
      assert |Encode(blocks[..1])| == RawSize(blocks[0]);
    }
  }

  lemma EncodedFields(b: RawBlock, rest: string)
    requires Encodable(b)
    ensures var s := EncodeBlock(b) + rest;
            ReadWord(s, 0) == b.typ && ReadWord(s, 4) == RawSize(b)
            && s[8..RawSize(b) - 4] == b.body && s[RawSize(b)..] == rest
  {
    var s := EncodeBlock(b) + rest;
    WordRoundTrip(b.typ);
    WordRoundTrip(RawSize(b));
    assert s[0..4] == Word(b.typ) && s[4..8] == Word(RawSize(b));
    assert forall i :: 0 <= i < 4 ==> s[i] == Word(b.typ)[i] && s[4 + i] == Word(RawSize(b))[i];
    assert s[4 + 0] == s[4];
  }

  /** The length word survives any cut that keeps the first eight bytes. */
  lemma CutKeepsLength(b: RawBlock, rest: string, n: nat)
    requires Encodable(b) && 8 <= n <= RawSize(b) + |rest|
    ensures ReadWord((EncodeBlock(b) + rest)[..n], 4) == RawSize(b)
  {
    EncodedFields(b, rest);
    var s := EncodeBlock(b) + rest;
    assert s[..n][4] == s[4] && s[..n][5] == s[5] && s[..n][6] == s[6] && s[..n][7] == s[7];
  }

  lemma WalkOfEncoded(b: RawBlock, rest: string)
    requires Encodable(b)
    ensures Walk(EncodeBlock(b) + rest) == [b] + Walk(rest)
  {
    EncodedFields(b, rest);
    var s := EncodeBlock(b) + rest;
    assert |s| >= 12 && Walk(s) == [RawBlock(ReadWord(s, 0), s[8..RawSize(b) - 4])] + Walk(s[RawSize(b)..]);
  }

  lemma WalkOfCutBlock(b: RawBlock, rest: string, n: nat)
    requires Encodable(b) && n < RawSize(b)
    ensures Walk((EncodeBlock(b) + rest)[..n]) == []
  {
    if n >= 8 {
      CutKeepsLength(b, rest, n);
    }
  }

  lemma WalkOfCutAfter(b: RawBlock, rest: string, n: nat)
    requires Encodable(b) && RawSize(b) <= n <= RawSize(b) + |rest|
    ensures Walk((EncodeBlock(b) + rest)[..n]) == [b] + Walk(rest[..n - RawSize(b)])
  {
    assert (EncodeBlock(b) + rest)[..n] == EncodeBlock(b) + rest[..n - RawSize(b)];
    WalkOfEncoded(b, rest[..n - RawSize(b)]);
  }

  lemma PrefixOfCons(blocks: seq<RawBlock>, k: nat)
    requires blocks != [] && k < |blocks|
    ensures [blocks[0]] + blocks[1..][..k] == blocks[..k + 1]
  {
  }

  /** Cutting an encoded file anywhere, as a kill in the middle of a flush does, loses only
      the blocks the cut touches: the walk returns exactly those wholly inside. */
  lemma {:induction false} WalkSurvivesCut(blocks: seq<RawBlock>, n: nat)
    requires AllEncodable(blocks) && n <= |Encode(blocks)|
    ensures Walk(Encode(blocks)[..n]) == blocks[..WholeWithin(blocks, n)]
  {
    if blocks != [] {
      var b, rest := blocks[0], Encode(blocks[1..]);
      assert Encode(blocks) == EncodeBlock(b) + rest;
      if n < RawSize(b) {
        WalkOfCutBlock(b, rest, n);
      } else {
        var m := n - RawSize(b);
        WalkSurvivesCut(blocks[1..], m);
        WalkOfCutAfter(b, rest, n);
        PrefixOfCons(blocks, WholeWithin(blocks[1..], m));
      }
    }
  }

  // ----- Rendering and reading the two block kinds -----

  function Padded(s: string): (r: string)
    ensures |r| == Pad4(|s|) && r[..|s|] == s
  {
    s + seq(Pad4(|s|) - |s|, _ => '\0')
  }

  /** The body of each block: a secrets block is {type, length, payload}, a packet block
      {interface, timestamp high, timestamp low, captured length, original length, data}. */
  function Render(b: Block): RawBlock
    requires b.Frame? ==> b.packet.info.length >= 0
  {
    match b
    case Secrets(lines) =>
      var payload := SecretsPayload(lines);
      RawBlock(TYPE_DSB, Word(TLS_KEY_LOG) + Word(|payload|) + Padded(payload))
    case Frame(p) =>
      var t := if p.info.timestamp.Some? then p.info.timestamp.value else 0;
      RawBlock(TYPE_EPB, Word(0) + Word(t / TWO_32 % TWO_32) + Word(t % TWO_32)
                         + Word(|p.data|) + Word(p.info.length) + Padded(p.data))
  }

  /** A rendered block has the size the writer counted for it. */
  lemma RenderedSize(b: Block)
    requires b.Frame? ==> b.packet.info.length >= 0
    ensures RawSize(Render(b)) == BlockSize(b)
  {
  }

  /** What the reader takes as the payload of a secrets block. */
  function ReadSecrets(r: RawBlock): Option<string> {
    if r.typ == TYPE_DSB && |r.body| >= 8 && 8 + ReadWord(r.body, 4) <= |r.body| then
      Some(r.body[8..8 + ReadWord(r.body, 4)])
    else None
  }

  /** What the reader takes as the captured bytes of a packet block. */
  function ReadFrame(r: RawBlock): Option<string> {
    if r.typ == TYPE_EPB && |r.body| >= 20 && 20 + ReadWord(r.body, 12) <= |r.body| then
      Some(r.body[20..20 + ReadWord(r.body, 12)])
    else None
  }

  lemma WordAt(s: string, off: nat, n: nat)
    requires n < TWO_32 && off + 4 <= |s| && s[off..off + 4] == Word(n)
    ensures ReadWord(s, off) == n
  {
    WordRoundTrip(n);
    var w := s[off..off + 4];
    assert w[0] == s[off] && w[1] == s[off + 1] && w[2] == s[off + 2] && w[3] == s[off + 3];
  }

  lemma SecretsRoundTrip(lines: seq<string>)
    requires BlockSize(Secrets(lines)) < TWO_32
    ensures var r := Render(Secrets(lines)); ReadSecrets(r) == Some(SecretsPayload(lines)) && ReadFrame(r) == None
  {
    var payload, body := SecretsPayload(lines), Render(Secrets(lines)).body;
    assert body[4..8] == Word(|payload|);
    WordAt(body, 4, |payload|);
    assert body[8..8 + |payload|] == Padded(payload)[..|payload|];
  }

  lemma FrameRoundTrip(p: Packet)
    requires p.info.length >= 0 && BlockSize(Frame(p)) < TWO_32
    ensures var r := Render(Frame(p)); ReadFrame(r) == Some(p.data) && ReadSecrets(r) == None
  {
    var body := Render(Frame(p)).body;
    assert body[12..16] == Word(|p.data|);
    WordAt(body, 12, |p.data|);
    assert body[20..20 + |p.data|] == Padded(p.data)[..|p.data|];
  }

  /** Reading a rendered block back gives the payload or the packet bytes it was made from. */
  lemma RenderRoundTrip(b: Block)
    requires b.Frame? ==> b.packet.info.length >= 0
    requires BlockSize(b) < TWO_32
    ensures Encodable(Render(b))
    ensures ReadSecrets(Render(b)) == if b.Secrets? then Some(SecretsPayload(b.lines)) else None
    ensures ReadFrame(Render(b)) == if b.Frame? then Some(b.packet.data) else None
  {
    RenderedSize(b);
    match b
    case Secrets(lines) => SecretsRoundTrip(lines);
    case Frame(p) => FrameRoundTrip(p);
  }

  // ----- The fields around the payload -----

  /** The interface, the 64-bit timestamp and the two lengths of a packet block. */
  datatype FrameHead = FrameHead(interface: nat, timestamp: nat, captured: nat, original: nat)

  function ReadFrameHead(r: RawBlock): Option<FrameHead> {
    if r.typ == 6 && |r.body| >= 20 then
      Some(FrameHead(ReadWord(r.body, 0), ReadWord(r.body, 4) * 0x1_0000_0000 + ReadWord(r.body, 8),
                     ReadWord(r.body, 12), ReadWord(r.body, 16)))
    else None
  }

  lemma FiveWords(a: nat, b: nat, c: nat, d: nat, e: nat, rest: string, s: string)
    requires a < TWO_32 && b < TWO_32 && c < TWO_32 && d < TWO_32 && e < TWO_32
    requires s == Word(a) + Word(b) + Word(c) + Word(d) + Word(e) + rest
    ensures |s| >= 20 && ReadWord(s, 0) == a && ReadWord(s, 4) == b && ReadWord(s, 8) == c
    ensures ReadWord(s, 12) == d && ReadWord(s, 16) == e
  {
    assert s[0..4] == Word(a) && s[4..8] == Word(b) && s[8..12] == Word(c);
    assert s[12..16] == Word(d) && s[16..20] == Word(e);
    WordAt(s, 0, a);
    WordAt(s, 4, b);
    WordAt(s, 8, c);
    WordAt(s, 12, d);
    WordAt(s, 16, e);
  }

  /** A packet's interface, timestamp and lengths read back as they were queued. */
  lemma FrameHeadRoundTrip(p: Packet)
    requires p.info.timestamp.Some? && 0 <= p.info.timestamp.value < 0x1_0000_0000 * 0x1_0000_0000
    requires 0 <= p.info.length < TWO_32 && BlockSize(Frame(p)) < TWO_32
    ensures ReadFrameHead(Render(Frame(p)))
            == Some(FrameHead(0, p.info.timestamp.value, |p.data|, p.info.length))
  {
    var t := p.info.timestamp.value;
    var high, low := t / TWO_32 % TWO_32, t % TWO_32;
    var body := Render(Frame(p)).body;
    assert body == Word(0) + Word(high) + Word(low) + Word(|p.data|) + Word(p.info.length) + Padded(p.data);
    FiveWords(0, high, low, |p.data|, p.info.length, Padded(p.data), body);
    TwoWords(t);
  }

  lemma TwoWords(t: nat)
    requires t < 0x1_0000_0000 * 0x1_0000_0000
    ensures (t / TWO_32 % TWO_32) * 0x1_0000_0000 + t % TWO_32 == t
  {
    assert t / TWO_32 % TWO_32 == t / TWO_32;
  }

  /** A secrets block says that it holds a TLS key log, by the four bytes "KSLT". */
  lemma SecretsType(lines: seq<string>)
    ensures var r := Render(Secrets(lines)); r.typ == 10 && |r.body| >= 8 && ReadWord(r.body, 0) == 0x544c_534b
    ensures Render(Secrets(lines)).body[..4] == "KSLT"
  {
    var body := Render(Secrets(lines)).body;
    assert body[0..4] == Word(0x544c_534b);
    WordAt(body, 0, 0x544c_534b);
    assert Word(0x544c_534b) == "KSLT";
  }
}
