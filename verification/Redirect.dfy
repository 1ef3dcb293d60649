/** The original-destination protocol. connect4 records a redirected socket's destination by
    socket cookie, sockops moves the record to the socket's source address and port, and the
    relay looks that up for each connection it accepts. Any number of sockets; either map may
    lose any entry at any time. */
module Redirect {
  import opened Wrappers
  import opened ByteOrder

  const PROXY_UID: nat := 1337
  const PROXY_PORT: Port := 15001
  const TCP: nat := 6
  const LOOPBACK: Ip4 := Ip4(127, 0, 0, 1)

  datatype Maps = Maps(byCookie: map<nat, OrigDst>, byTuple: map<TupleKey, OrigDst>)

  predicate Redirects(protocol: nat, uid: nat, ip: Ip4) {
    protocol == TCP && uid != PROXY_UID && ip.a != 127
  }

  /** `stored` says whether a map update took; the programs do not look. */
  datatype Event =
    | Connect(cookie: nat, protocol: nat, uid: nat, ip: Ip4, port: Port, stored: bool)
    | Sockops(cookie: nat, connectCb: bool, srcIp: Ip4, srcPort: Port, stored: bool)
    | DropCookie(cookie: nat)
    | DropTuple(key: TupleKey)

  function Step(e: Endian, m: Maps, ev: Event): Maps {
    match ev
    case Connect(cookie, protocol, uid, ip, port, stored) =>
      if Redirects(protocol, uid, ip) && stored
      then m.(byCookie := m.byCookie[cookie := OrigDst(Native32(e, ip), port)]) else m
    case Sockops(cookie, connectCb, srcIp, srcPort, stored) =>
      if !connectCb || cookie !in m.byCookie then m
      else
        var key := TupleKey(Native32(e, srcIp), srcPort);
        Maps(m.byCookie - {cookie},
             if stored then m.byTuple[key := m.byCookie[cookie]] else m.byTuple)
    case DropCookie(cookie) => m.(byCookie := m.byCookie - {cookie})
    case DropTuple(key) => m.(byTuple := m.byTuple - {key})
  }

  /** The two kernel programs over their maps, on the raw context fields. */
  class Kernel {
    const endian: Endian
    var byCookie: map<nat, OrigDst>
    var byTuple: map<TupleKey, OrigDst>

    ghost function State(): Maps reads this { Maps(byCookie, byTuple) }

    constructor (endian: Endian)
      ensures this.endian == endian && State() == Maps(map[], map[])
    {
      this.endian, byCookie, byTuple := endian, map[], map[];
    }

    /** connect4: a redirected socket's context points at the relay afterwards, every other
        socket's is left alone. `userIp` and `userPort` are in network order. */
    method Connect4(protocol: nat, uidGid: nat, cookie: nat, userIp: nat, userPort: nat, stored: bool,
                    ghost ip: Ip4, ghost port: Port)
      returns (ip': nat, port': nat)
      requires userIp == Native32(endian, ip) && userPort == NetworkPort(endian, port)
      modifies this
      ensures State() == Step(endian, old(State()), Connect(cookie, protocol, uidGid % 0x1_0000_0000, ip, port, stored))
      ensures if protocol == 6 && uidGid % 0x1_0000_0000 != 1337 && ip.a != 127
              then Bytes32(endian, ip') == Ip4(127, 0, 0, 1) && SwapToHost16(endian, port') == 15001
                   && (stored ==> byCookie == old(byCookie)[cookie := OrigDst(Native32(endian, ip), port)])
              else ip' == userIp && port' == userPort && State() == old(State())
    {
      ip', port' := userIp, userPort;
      if protocol != TCP {
        return;
      }
      var uid := uidGid % 0x1_0000_0000;
      if uid == PROXY_UID {
        return;
      }
      FirstOctet(endian, ip);
      if SwapToHost32(endian, userIp) / 0x100_0000 == 127 {
        return;
      }
      var od := OrigDst(userIp, SwapToHost16(endian, userPort));
      PortRoundTrip(endian, port);
      if stored {
        byCookie := byCookie[cookie := od];
      }
      RelayAddress(endian);
      ip', port' := SwapToHost32(endian, 0x7F00_0001), SwapToHost16(endian, PROXY_PORT);
    }

    /** sockops: once the source port is known, re-keys the socket's record by its source. */
    method SockOps(connectCb: bool, cookie: nat, localIp: nat, localPort: Port, stored: bool, ghost src: Ip4)
      requires localIp == Native32(endian, src)
      modifies this
      ensures State() == Step(endian, old(State()), Sockops(cookie, connectCb, src, localPort, stored))
    {
      if !connectCb {
        return;
      }
      if cookie !in byCookie {
        return;
      }
      var od := byCookie[cookie];
      var key := TupleKey(localIp, localPort);
      if stored {
        byTuple := byTuple[key := od];
      }
      byCookie := byCookie - {cookie};
    }
  }

  /** The constants the context is rewritten to are 127.0.0.1 and the relay's port, in network
      order, on either host. */
  lemma RelayAddress(e: Endian)
    ensures Bytes32(e, SwapToHost32(e, 0x7F00_0001)) == LOOPBACK
    ensures SwapToHost16(e, SwapToHost16(e, PROXY_PORT)) == PROXY_PORT
  {
    assert Native32(Big, LOOPBACK) == 0x7F00_0001;
    HostToNetwork32(e, LOOPBACK);
    NativeRoundTrip(e, LOOPBACK);
    HostToNetwork16(e, PROXY_PORT);
    PortRoundTrip(e, PROXY_PORT);
  }

  // ----- Whole runs -----

  ghost predicate IsRun(e: Endian, ms: seq<Maps>, evs: seq<Event>) {
    |ms| == |evs| + 1 && forall i :: 0 <= i < |evs| ==> ms[i + 1] == Step(e, ms[i], evs[i])
  }

  predicate RecordsCookie(ev: Event, cookie: nat) {
    ev.Connect? && ev.cookie == cookie && Redirects(ev.protocol, ev.uid, ev.ip)
  }

  predicate UsesSource(ev: Event, ip: Ip4, port: Port) {
    ev.Sockops? && ev.connectCb && ev.srcIp == ip && ev.srcPort == port
  }

  /** No other connect records under this cookie in between: cookies are unique. */
  ghost predicate CookieUnique(evs: seq<Event>, i: nat, j: nat, cookie: nat) {
    forall x :: i < x < j && x < |evs| ==> !RecordsCookie(evs[x], cookie)
  }

  /** No other socket gets this source address and port in between. */
  ghost predicate SourceNotReused(evs: seq<Event>, j: nat, k: nat, ip: Ip4, port: Port) {
    forall x :: j < x < k && x < |evs| ==> !UsesSource(evs[x], ip, port)
  }

  /** The destination a connect dialled. */
  function Dialled(ev: Event): (Ip4, Port)
    requires ev.Connect?
  {
    (ev.ip, ev.port)
  }

  function SourceKey(e: Endian, ev: Event): TupleKey
    requires ev.Sockops?
  {
    TupleKey(Native32(e, ev.srcIp), ev.srcPort)
  }

  /** The connection dialled at i, redirected or not, got its source at j; its cookie is its own,
      and its source is not reused before k. */
  ghost predicate Opened(e: Endian, ms: seq<Maps>, evs: seq<Event>, i: nat, j: nat, k: nat) {
    && IsRun(e, ms, evs) && i < j < k < |ms|
    && evs[i].Connect? && evs[j].Sockops? && evs[j].connectCb && evs[j].cookie == evs[i].cookie
    && ((RecordsCookie(evs[i], evs[i].cookie) && evs[i].stored) || evs[i].cookie !in ms[i].byCookie)
    && CookieUnique(evs, i, j, evs[i].cookie)
    && SourceNotReused(evs, j, k, evs[j].srcIp, evs[j].srcPort)
  }

  /** The sockops callback at j moved a record to the source. */
  ghost predicate Recorded(ms: seq<Maps>, evs: seq<Event>, j: nat)
    requires j < |ms| && j < |evs| && evs[j].Sockops?
  {
    evs[j].stored && evs[j].cookie in ms[j].byCookie
  }

  /** The entry under the source of j, if one stands at k, is for what was dialled at i. */
  ghost predicate RightOrMiss(e: Endian, ms: seq<Maps>, evs: seq<Event>, i: nat, j: nat, k: nat)
    requires i < |evs| && j < |evs| && k < |ms| && evs[i].Connect? && evs[j].Sockops?
  {
    var key := EncodeTuple(e, V4(evs[j].srcIp), evs[j].srcPort).value;
    key in ms[k].byTuple ==> DecodeDst(e, ms[k].byTuple[key]) == Dialled(evs[i])
  }

  /** A cookie's record, while it is there, is the one its connect stored. */
  lemma {:induction false} CookieRecordStands(e: Endian, ms: seq<Maps>, evs: seq<Event>, i: nat, j: nat)
    requires IsRun(e, ms, evs) && i < j < |ms| && evs[i].Connect?
    requires (RecordsCookie(evs[i], evs[i].cookie) && evs[i].stored) || evs[i].cookie !in ms[i].byCookie
    requires CookieUnique(evs, i, j, evs[i].cookie)
    ensures evs[i].cookie in ms[j].byCookie ==>
              ms[j].byCookie[evs[i].cookie] == OrigDst(Native32(e, evs[i].ip), evs[i].port)
    decreases j
  {
    if j == i + 1 {
      assert ms[i + 1] == Step(e, ms[i], evs[i]);
    } else {
      CookieRecordStands(e, ms, evs, i, j - 1);
      assert ms[j] == Step(e, ms[j - 1], evs[j - 1]) && !RecordsCookie(evs[j - 1], evs[i].cookie);
    }
  }

  /** An event that is not a callback for this source leaves its entry alone or drops it. */
  lemma OtherSourceKeepsEntry(e: Endian, m: Maps, ev: Event, ip: Ip4, port: Port)
    requires !UsesSource(ev, ip, port)
    ensures var key := TupleKey(Native32(e, ip), port);
            var v := Step(e, m, ev);
            if ev == DropTuple(key) then key !in v.byTuple
            else (key in v.byTuple <==> key in m.byTuple) && (key in m.byTuple ==> v.byTuple[key] == m.byTuple[key])
  {
    if ev.Sockops? && ev.connectCb {
      NativeRoundTrip(e, ev.srcIp);
      NativeRoundTrip(e, ip);
    }
  }

  /** Once the source is settled its entry is the one that stood then, or dropped: dropped only
      by an eviction. */
  lemma {:induction false} TupleEntryStands(e: Endian, ms: seq<Maps>, evs: seq<Event>, j: nat, k: nat)
    requires IsRun(e, ms, evs) && j < k < |ms| && evs[j].Sockops?
    requires SourceNotReused(evs, j, k, evs[j].srcIp, evs[j].srcPort)
    ensures var key := SourceKey(e, evs[j]);
            && (key in ms[k].byTuple ==> key in ms[j + 1].byTuple && ms[k].byTuple[key] == ms[j + 1].byTuple[key])
            && (NotEvicted(evs, j, k, key) && key in ms[j + 1].byTuple ==> key in ms[k].byTuple)
    decreases k
  {
    if k > j + 1 {
      TupleEntryStands(e, ms, evs, j, k - 1);
      assert ms[k] == Step(e, ms[k - 1], evs[k - 1]);
      OtherSourceKeepsEntry(e, ms[k - 1], evs[k - 1], evs[j].srcIp, evs[j].srcPort);
    }
  }

  ghost predicate NotEvicted(evs: seq<Event>, j: nat, k: nat, key: TupleKey) {
    forall x :: j < x < k && x < |evs| ==> evs[x] != DropTuple(key)
  }

  /** What the callback leaves under its source: the dialled destination if it moved a record,
      otherwise whatever stood there before. */
  lemma CallbackEntry(e: Endian, ms: seq<Maps>, evs: seq<Event>, i: nat, j: nat, k: nat)
    requires Opened(e, ms, evs, i, j, k)
    ensures var key := SourceKey(e, evs[j]);
            if Recorded(ms, evs, j)
            then key in ms[j + 1].byTuple && DecodeDst(e, ms[j + 1].byTuple[key]) == Dialled(evs[i])
            else ms[j + 1].byTuple == ms[j].byTuple
  {
    assert ms[j + 1] == Step(e, ms[j], evs[j]);
    CookieRecordStands(e, ms, evs, i, j);
    NativeRoundTrip(e, evs[i].ip);
  }

  /** An event that takes away a cookie's record: its eviction, or the socket's own callback. */
  predicate Clears(ev: Event, cookie: nat) {
    ev == DropCookie(cookie) || (ev.Sockops? && ev.connectCb && ev.cookie == cookie)
  }

  /** Nothing takes the record of this cookie away in between. */
  ghost predicate NotCleared(evs: seq<Event>, i: nat, j: nat, cookie: nat) {
    forall x :: i < x < j && x < |evs| ==> !Clears(evs[x], cookie)
  }

  /** However many sockets connect at once, a cookie's record is there when its callback comes if
      and only if its connect was redirected, its update took, and nothing took it away since. */
  lemma {:induction false} RecordIsThereIff(e: Endian, ms: seq<Maps>, evs: seq<Event>, i: nat, j: nat)
    requires IsRun(e, ms, evs) && i < j < |ms| && evs[i].Connect?
    requires (RecordsCookie(evs[i], evs[i].cookie) && evs[i].stored) || evs[i].cookie !in ms[i].byCookie
    requires CookieUnique(evs, i, j, evs[i].cookie)
    ensures evs[i].cookie in ms[j].byCookie <==>
              && RecordsCookie(evs[i], evs[i].cookie) && evs[i].stored
              && NotCleared(evs, i, j, evs[i].cookie)
    decreases j
  {
    var cookie := evs[i].cookie;
    if j == i + 1 {
      assert ms[i + 1] == Step(e, ms[i], evs[i]);
    } else {
      RecordIsThereIff(e, ms, evs, i, j - 1);
      assert ms[j] == Step(e, ms[j - 1], evs[j - 1]) && !RecordsCookie(evs[j - 1], cookie);
      assert NotCleared(evs, i, j, cookie) <==> NotCleared(evs, i, j - 1, cookie) && !Clears(evs[j - 1], cookie);
    }
  }

  /** So the callback of a redirected connection moves its record, whatever other sockets do, if
      both updates take and the record is not evicted in between. */
  lemma RecordedIff(e: Endian, ms: seq<Maps>, evs: seq<Event>, i: nat, j: nat, k: nat)
    requires Opened(e, ms, evs, i, j, k)
    ensures Recorded(ms, evs, j) <==>
              && evs[j].stored && RecordsCookie(evs[i], evs[i].cookie) && evs[i].stored
              && NotCleared(evs, i, j, evs[i].cookie)
  {
    RecordIsThereIff(e, ms, evs, i, j);
  }

  /** Whatever is evicted, the relay finds exactly what was dialled or nothing, if the callback
      moved the connection's record or no other destination stood under its source then. */
  lemma LookupIsDialled(e: Endian, ms: seq<Maps>, evs: seq<Event>, i: nat, j: nat, k: nat)
    requires Opened(e, ms, evs, i, j, k)
    requires Recorded(ms, evs, j) || RightOrMiss(e, ms, evs, i, j, j)
    ensures RightOrMiss(e, ms, evs, i, j, k)
  {
    CallbackEntry(e, ms, evs, i, j, k);
    TupleEntryStands(e, ms, evs, j, k);
  }

  /** Without evictions that is exactly when it does. */
  lemma LookupIsDialledIff(e: Endian, ms: seq<Maps>, evs: seq<Event>, i: nat, j: nat, k: nat)
    requires Opened(e, ms, evs, i, j, k) && NotEvicted(evs, j, k, SourceKey(e, evs[j]))
    ensures RightOrMiss(e, ms, evs, i, j, k) <==> Recorded(ms, evs, j) || RightOrMiss(e, ms, evs, i, j, j)
  {
    CallbackEntry(e, ms, evs, i, j, k);
    TupleEntryStands(e, ms, evs, j, k);
  }

  /** With a moved record it finds it as long as the entry has not been evicted since. */
  lemma LookupFinds(e: Endian, ms: seq<Maps>, evs: seq<Event>, i: nat, j: nat, k: nat)
    requires Opened(e, ms, evs, i, j, k) && Recorded(ms, evs, j)
    requires NotEvicted(evs, j, k, SourceKey(e, evs[j]))
    ensures var key := SourceKey(e, evs[j]);
            key in ms[k].byTuple && DecodeDst(e, ms[k].byTuple[key]) == Dialled(evs[i])
  {
    CallbackEntry(e, ms, evs, i, j, k);
    TupleEntryStands(e, ms, evs, j, k);
  }

  /** Every cookie record belongs to a redirected connect whose sockops callback has not come
      yet: the callback uses the record up. */
  lemma {:induction false} RecordsAwaitSockops(e: Endian, ms: seq<Maps>, evs: seq<Event>, k: nat, cookie: nat)
    returns (i: nat)
    requires IsRun(e, ms, evs) && k < |ms| && ms[0].byCookie == map[] && cookie in ms[k].byCookie
    ensures i < k && RecordsCookie(evs[i], cookie) && evs[i].stored
    ensures ms[k].byCookie[cookie] == OrigDst(Native32(e, evs[i].ip), evs[i].port)
    ensures forall x :: i < x < k ==> !(evs[x].Sockops? && evs[x].connectCb && evs[x].cookie == cookie)
  {
    var ev := evs[k - 1];
    assert ms[k] == Step(e, ms[k - 1], ev);
    if RecordsCookie(ev, cookie) && ev.stored {
      i := k - 1;
    } else {
      i := RecordsAwaitSockops(e, ms, evs, k - 1, cookie);
    }
  }

  // ----- The resolver -----

  datatype Lookup = Found(od: OrigDst) | KeyNotExist | LookupError

  datatype Resolution = Resolved(ip: Ip4, port: Port) | NotFound | NotIPv4 | Failed

  /** The first lookup that is not a miss decides; retries + 1 misses are a definitive one. */
  function ResolveFrom(e: Endian, lookup: nat -> Lookup, attempt: nat, retries: int): Resolution
    decreases if retries >= attempt then retries - attempt else 0
  {
    match lookup(attempt)
    case Found(od) => var (ip, port) := DecodeDst(e, od); Resolved(ip, port)
    case LookupError => Failed
    case KeyNotExist => if attempt >= retries then NotFound else ResolveFrom(e, lookup, attempt + 1, retries)
  }

  /** A miss is definitive exactly when every one of the retries + 1 lookups missed. */
  lemma {:induction false} NotFoundIffAllMiss(e: Endian, lookup: nat -> Lookup, attempt: nat, retries: int)
    ensures ResolveFrom(e, lookup, attempt, retries).NotFound?
            <==> lookup(attempt).KeyNotExist? && forall a: nat :: attempt <= a <= retries ==> lookup(a).KeyNotExist?
    decreases if retries >= attempt then retries - attempt else 0
  {
    if lookup(attempt).KeyNotExist? && attempt < retries {
      NotFoundIffAllMiss(e, lookup, attempt + 1, retries);
    }
  }

  /** The first lookup that is not a miss decides, if it comes within the retries. */
  lemma {:induction false} FirstAnswerDecides(e: Endian, lookup: nat -> Lookup, attempt: nat, retries: int, a: nat)
    requires attempt <= a && (a == attempt || a <= retries) && !lookup(a).KeyNotExist?
    requires forall x: nat :: attempt <= x < a ==> lookup(x).KeyNotExist?
    ensures ResolveFrom(e, lookup, attempt, retries)
            == if lookup(a).LookupError? then Failed
               else Resolved(DecodeDst(e, lookup(a).od).0, DecodeDst(e, lookup(a).od).1)
    decreases a - attempt
  {
    if attempt < a {
      FirstAnswerDecides(e, lookup, attempt + 1, retries, a);
    }
  }

  class Resolver {
    const endian: Endian
    const retries: int
    var misses: nat

    constructor (endian: Endian, retries: int)
      ensures this.endian == endian && this.retries == retries && misses == 0
    {
      this.endian, this.retries, misses := endian, retries, 0;
    }

    /** Bounded retry; only a definitive miss is counted. `lookup` answers each attempt for
        the key of this source. */
    method Resolve(src: Address, port: Port, lookup: TupleKey -> nat -> Lookup) returns (r: Resolution)
      modifies this
      ensures r == if src.V4?
                   then ResolveFrom(endian, lookup(EncodeTuple(endian, src, port).value), 0, retries)
                   else NotIPv4
      ensures misses == old(misses) + if r.NotFound? then 1 else 0
    {
      var key := EncodeTuple(endian, src, port);
      if key.None? {
        return NotIPv4;
      }
      var attempt := 0;
      var look := lookup(key.value);
      while true
        invariant 0 <= attempt && misses == old(misses)
        invariant ResolveFrom(endian, look, attempt, retries) == ResolveFrom(endian, look, 0, retries)
        decreases if retries >= attempt then retries - attempt + 1 else 0
      {
        match look(attempt) {
          case Found(od) =>
            var (ip, p) := DecodeDst(endian, od);
            return Resolved(ip, p);
          case LookupError => return Failed;
          case KeyNotExist =>
            if attempt >= retries {
              break;
            }
        }
        attempt := attempt + 1;
      }
      misses := misses + 1;
      return NotFound;
    }
  }

  // ----- The relay's decision -----

  datatype Remote = Tcp(ip: Option<Address>, port: int) | NotTcp

  datatype Decision = Close | Reset | Dial(ip: Ip4, port: Port)

  /** An IPv4 address carried in IPv6 form is taken as IPv4. */
  function Unmap(a: Address): Address {
    if a.V6? && a.mapped.Some? then V4(a.mapped.value) else a
  }

  /** The connection comes from this IPv4 address and a port, in either form. */
  ghost predicate IsFrom(remote: Remote, ip: Ip4) {
    remote.Tcp? && 0 <= remote.port <= 0xFFFF && (remote.ip == Some(V4(ip)) || remote.ip == Some(V6(Some(ip))))
  }

  ghost function ResolvesFrom(resolver: Resolver, lookup: TupleKey -> nat -> Lookup, ip: Ip4, port: int): Resolution {
    if 0 <= port <= 0xFFFF
    then ResolveFrom(resolver.endian, lookup(EncodeTuple(resolver.endian, V4(ip), port).value), 0, resolver.retries)
    else NotIPv4
  }

  /** What the relay does with an accepted connection: dial what was resolved, or reset it;
      never a default destination. */
  method Handle(resolver: Resolver, remote: Remote, lookup: TupleKey -> nat -> Lookup) returns (d: Decision)
    modifies resolver
    ensures d.Close? <==> remote.NotTcp? || remote.ip.None? || remote.port < 0 || remote.port > 0xFFFF
    ensures d.Dial? <==>
              exists ip: Ip4 :: IsFrom(remote, ip) && ResolvesFrom(resolver, lookup, ip, remote.port).Resolved?
    ensures forall ip: Ip4 :: IsFrom(remote, ip) && d.Dial? ==>
              ResolvesFrom(resolver, lookup, ip, remote.port) == Resolved(d.ip, d.port)
  {
    if remote.NotTcp? || remote.ip.None? || remote.port < 0 || remote.port > 0xFFFF {
      return Close;
    }
    var r := resolver.Resolve(Unmap(remote.ip.value), remote.port, lookup);
    if r.Resolved? {
      ghost var src := Unmap(remote.ip.value);
      assert IsFrom(remote, src.ip) && ResolvesFrom(resolver, lookup, src.ip, remote.port) == r;
      return Dial(r.ip, r.port);
    }
    return Reset;
  }

  /** Every lookup attempt fails with an error or reads the tuple map at a state of the run. */
  ghost predicate ReadsMaps(ms: seq<Maps>, lookup: nat -> Lookup, at: nat -> nat, key: TupleKey) {
    forall a: nat :: at(a) < |ms| && (lookup(a).LookupError? ||
      lookup(a) == if key in ms[at(a)].byTuple then Found(ms[at(a)].byTuple[key]) else KeyNotExist)
  }

  ghost predicate SomeLookupFails(lookup: nat -> Lookup, attempt: nat, retries: int) {
    exists a: nat :: attempt <= a && (a == attempt || a <= retries) && lookup(a).LookupError?
  }

  /** Under the condition of LookupIsDialled, with lookups between the callback and k, a
      connection resolves to exactly the address and port it dialled, to a miss, or to an error
      some lookup gave; never to another connection's destination. */
  lemma {:induction false} ResolvesToDialledOrNotFound(e: Endian, ms: seq<Maps>, evs: seq<Event>,
                                                       i: nat, j: nat, k: nat, lookup: nat -> Lookup,
                                                       at: nat -> nat, attempt: nat, retries: int)
    requires Opened(e, ms, evs, i, j, k)
    requires Recorded(ms, evs, j) || RightOrMiss(e, ms, evs, i, j, j)
    requires ReadsMaps(ms, lookup, at, EncodeTuple(e, V4(evs[j].srcIp), evs[j].srcPort).value)
    requires forall a: nat :: j < at(a) <= k
    ensures var r := ResolveFrom(e, lookup, attempt, retries);
            || r == Resolved(evs[i].ip, evs[i].port) || r == NotFound
            || (r == Failed && SomeLookupFails(lookup, attempt, retries))
    decreases if retries >= attempt then retries - attempt else 0
  {
    assert at(attempt) < |ms| && j < at(attempt) <= k;
    assert Opened(e, ms, evs, i, j, at(attempt));
    LookupIsDialled(e, ms, evs, i, j, at(attempt));
    if lookup(attempt).KeyNotExist? && attempt < retries {
      ResolvesToDialledOrNotFound(e, ms, evs, i, j, k, lookup, at, attempt + 1, retries);
      if SomeLookupFails(lookup, attempt + 1, retries) {
        var a: nat :| attempt + 1 <= a && (a == attempt + 1 || a <= retries) && lookup(a).LookupError?;
        assert attempt <= a <= retries;
      }
    }
  }

  /** For any number of sockets: a redirected connection whose two updates took, and whose record
      and entry were not evicted, resolves to exactly what it dialled at the first lookup that
      the kernel answers. */
  lemma ResolvesToDialled(e: Endian, ms: seq<Maps>, evs: seq<Event>, i: nat, j: nat, k: nat,
                          lookup: nat -> Lookup, at: nat -> nat, retries: int)
    requires Opened(e, ms, evs, i, j, k) && RecordsCookie(evs[i], evs[i].cookie) && evs[i].stored && evs[j].stored
    requires NotCleared(evs, i, j, evs[i].cookie) && NotEvicted(evs, j, k, SourceKey(e, evs[j]))
    requires ReadsMaps(ms, lookup, at, EncodeTuple(e, V4(evs[j].srcIp), evs[j].srcPort).value)
    requires j < at(0) <= k && !lookup(0).LookupError?
    ensures ResolveFrom(e, lookup, 0, retries) == Resolved(evs[i].ip, evs[i].port)
  {
    RecordedIff(e, ms, evs, i, j, k);
    assert Opened(e, ms, evs, i, j, at(0));
    LookupFinds(e, ms, evs, i, j, at(0));
  }

  // ----- The two ways to another connection's destination -----

  /** From empty maps, the connection opened at i, with its source at j, finds at k the
      destination of the one dialled first, which is not its own. */
  ghost predicate FindsFirst(e: Endian, ms: seq<Maps>, evs: seq<Event>, i: nat, j: nat, k: nat) {
    && Opened(e, ms, evs, i, j, k) && 0 < i && ms[0] == Maps(map[], map[]) && evs[0].Connect?
    && var key := EncodeTuple(e, V4(evs[j].srcIp), evs[j].srcPort).value;
       && key in ms[k].byTuple && DecodeDst(e, ms[k].byTuple[key]) == Dialled(evs[0])
       && Dialled(evs[0]) != Dialled(evs[i])
  }

  /** The first connection of both runs leaves an entry under its source. */
  lemma LeavesEntry(e: Endian, od: OrigDst, src: Ip4, m: Maps)
    requires od == OrigDst(Native32(e, Ip4(192, 0, 2, 1)), 443)
    requires m == Maps(map[], map[TupleKey(Native32(e, src), 40000) := od])
    ensures var m1 := Step(e, Maps(map[], map[]), Connect(1, TCP, 0, Ip4(192, 0, 2, 1), 443, true));
            Step(e, m1, Sockops(1, true, src, 40000, true)) == m
    ensures DecodeDst(e, od) == (Ip4(192, 0, 2, 1), 443)
  {
    NativeRoundTrip(e, Ip4(192, 0, 2, 1));
    var m1 := Step(e, Maps(map[], map[]), Connect(1, TCP, 0, Ip4(192, 0, 2, 1), 443, true));
    assert m1.byCookie - {1} == map[];
  }

  /** A redirected connection whose record is evicted before its callback finds what an earlier
      one left under the same source. */
  lemma StaleTupleWithoutRecord(e: Endian) returns (ms: seq<Maps>, evs: seq<Event>)
    ensures FindsFirst(e, ms, evs, 2, 4, 5) && RecordsCookie(evs[2], evs[2].cookie) && evs[2].stored
  {
    var src := LOOPBACK;
    evs := [Connect(1, TCP, 0, Ip4(192, 0, 2, 1), 443, true), Sockops(1, true, src, 40000, true),
            Connect(2, TCP, 0, Ip4(192, 0, 2, 2), 443, true), DropCookie(2),
            Sockops(2, true, src, 40000, true)];
    var od := OrigDst(Native32(e, Ip4(192, 0, 2, 1)), 443);
    var m0 := Maps(map[], map[]);
    var m1 := Step(e, m0, evs[0]);
    var m2 := Maps(map[], map[TupleKey(Native32(e, src), 40000) := od]);
    LeavesEntry(e, od, src, m2);
    var m3 := Step(e, m2, evs[2]);
    assert m3.byCookie - {2} == map[];
    ms := [m0, m1, m2, m3, m2, m2];
  }

  /** So does a connection made straight to the relay's own address, which is never recorded. */
  lemma StaleTupleForDirectConnect(e: Endian) returns (ms: seq<Maps>, evs: seq<Event>)
    ensures FindsFirst(e, ms, evs, 2, 3, 4) && Dialled(evs[2]) == (LOOPBACK, PROXY_PORT)
  {
    var src := LOOPBACK;
    evs := [Connect(1, TCP, 0, Ip4(192, 0, 2, 1), 443, true), Sockops(1, true, src, 40000, true),
            Connect(2, TCP, 0, LOOPBACK, PROXY_PORT, true), Sockops(2, true, src, 40000, true)];
    var od := OrigDst(Native32(e, Ip4(192, 0, 2, 1)), 443);
    var m0 := Maps(map[], map[]);
    var m1 := Step(e, m0, evs[0]);
    var m2 := Maps(map[], map[TupleKey(Native32(e, src), 40000) := od]);
    LeavesEntry(e, od, src, m2);
    ms := [m0, m1, m2, m2, m2];
  }
}
