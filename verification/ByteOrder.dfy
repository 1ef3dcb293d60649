/** The byte-order contract between the kernel programs and the Go codec: addresses are kept
    as the integer whose native memory bytes are the network-order octets, ports in host
    order. Everything holds for either byte order of the host. */
module ByteOrder {
  import opened Wrappers

  datatype Endian = Little | Big

  type Octet = n: nat | n < 256

  datatype Ip4 = Ip4(a: Octet, b: Octet, c: Octet, d: Octet)

  type Port = n: nat | n < 65536

  /** The 32-bit integer the host reads from four bytes in memory. */
  function Native32(e: Endian, ip: Ip4): nat {
    if e.Little? then ip.a + 256 * ip.b + 65536 * ip.c + 16777216 * ip.d
    else ip.d + 256 * ip.c + 65536 * ip.b + 16777216 * ip.a
  }

  /** The four bytes the host writes for a 32-bit integer. */
  function Bytes32(e: Endian, v: nat): Ip4 {
    var w, x, y, z := v % 256, v / 256 % 256, v / 65536 % 256, v / 16777216 % 256;
    if e.Little? then Ip4(w, x, y, z) else Ip4(z, y, x, w)
  }

  lemma Digits(w: Octet, x: Octet, y: Octet, z: Octet)
    ensures var v := w + 256 * x + 65536 * y + 16777216 * z;
            v % 256 == w && v / 256 % 256 == x && v / 65536 % 256 == y && v / 16777216 % 256 == z
  {
    var v := w + 256 * x + 65536 * y + 16777216 * z;
    assert v == w + 256 * (x + 256 * (y + 256 * z));
    assert v / 256 == x + 256 * (y + 256 * z);
    assert v / 65536 == v / 256 / 256 == y + 256 * z;
    assert v / 16777216 == v / 65536 / 256 == z;
  }

  /** Writing back what was read gives the same octets. */
  lemma NativeRoundTrip(e: Endian, ip: Ip4)
    ensures Bytes32(e, Native32(e, ip)) == ip
  {
    if e.Little? {
      Digits(ip.a, ip.b, ip.c, ip.d);
    } else {
      Digits(ip.d, ip.c, ip.b, ip.a);
    }
  }

  /** `bpf_ntohl` and `bpf_htonl`: swap on a little-endian host, nothing on a big-endian one. */
  function SwapToHost32(e: Endian, v: nat): nat {
    if e.Little? then Native32(Big, Bytes32(Little, v)) else v
  }

  /** A 16-bit port as the kernel context holds it: network-order bytes read natively. */
  function NetworkPort(e: Endian, port: Port): nat {
    if e.Little? then port / 256 + 256 * (port % 256) else port
  }

  /** `bpf_ntohs` and `bpf_htons` on the low 16 bits. */
  function SwapToHost16(e: Endian, v: nat): Port {
    var low := v % 65536;
    if e.Little? then low / 256 + 256 * (low % 256) else low
  }

  lemma PortRoundTrip(e: Endian, port: Port)
    ensures SwapToHost16(e, NetworkPort(e, port)) == port
  {
    if e.Little? {
      var high, low := port / 256, port % 256;
      var v := high + 256 * low;
      assert v < 65536 && v / 256 == low && v % 256 == high;
    }
  }

  /** Shifting the host-order address right by 24 leaves its first octet. */
  lemma FirstOctet(e: Endian, ip: Ip4)
    ensures SwapToHost32(e, Native32(e, ip)) / 16777216 == ip.a
  {
    NativeRoundTrip(e, ip);
    Digits(ip.d, ip.c, ip.b, ip.a);
    assert SwapToHost32(e, Native32(e, ip)) == Native32(Big, ip);
  }

  /** Swapping the host-order integer of an address gives its network-order one. */
  lemma HostToNetwork32(e: Endian, ip: Ip4)
    ensures SwapToHost32(e, Native32(Big, ip)) == Native32(e, ip)
  {
    if e.Little? {
      var back := Ip4(ip.d, ip.c, ip.b, ip.a);
      assert Native32(Big, ip) == Native32(Little, back);
      NativeRoundTrip(Little, back);
    }
  }

  lemma HostToNetwork16(e: Endian, port: Port)
    ensures SwapToHost16(e, port) == NetworkPort(e, port)
  {
  }

  /** The octets in memory order, on either host. */
  lemma MemoryOrder(ip: Ip4)
    ensures Native32(Big, ip) == ((ip.a * 256 + ip.b) * 256 + ip.c) * 256 + ip.d
    ensures Native32(Little, ip) == ((ip.d * 256 + ip.c) * 256 + ip.b) * 256 + ip.a
  {
  }

  /** The two bytes of a port change places on a little-endian host only. */
  lemma PortOrder(high: Octet, low: Octet)
    ensures NetworkPort(Little, 256 * high + low) == 256 * low + high
    ensures NetworkPort(Big, 256 * high + low) == 256 * high + low
  {
  }

  // ----- The codec -----

  datatype Address = V4(ip: Ip4) | V6(mapped: Option<Ip4>)

  datatype TupleKey = TupleKey(ip: nat, port: Port)

  datatype OrigDst = OrigDst(ip: nat, port: Port)

  function EncodeTuple(e: Endian, src: Address, port: Port): Option<TupleKey> {
    if src.V4? then Some(TupleKey(Native32(e, src.ip), port)) else None
  }

  function EncodeDst(e: Endian, dst: Address, port: Port): Option<OrigDst> {
    if dst.V4? then Some(OrigDst(Native32(e, dst.ip), port)) else None
  }

  function DecodeDst(e: Endian, od: OrigDst): (Ip4, Port) {
    (Bytes32(e, od.ip), od.port)
  }

  /** Decoding what was encoded gives the address and port back; only IPv4 encodes. */
  lemma DstRoundTrip(e: Endian, dst: Address, port: Port)
    ensures EncodeDst(e, dst, port).Some? <==> dst.V4?
    ensures dst.V4? ==> DecodeDst(e, EncodeDst(e, dst, port).value) == (dst.ip, port)
  {
    if dst.V4? {
      NativeRoundTrip(e, dst.ip);
    }
  }

  /** Distinct sources have distinct keys. */
  lemma TupleKeyInjective(e: Endian, x: Ip4, p: Port, y: Ip4, q: Port)
    requires EncodeTuple(e, V4(x), p) == EncodeTuple(e, V4(y), q)
    ensures x == y && p == q
  {
    NativeRoundTrip(e, x);
    NativeRoundTrip(e, y);
  }
}
