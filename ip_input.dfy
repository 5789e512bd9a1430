/**
  IPv4 receive path: `ip_rcv`, which validates one received datagram and
  then forwards it or hands it to a transport protocol.

  The decision is the pure function `Classify` over the first
  `IP_HEADER_SIZE` bytes of the network header; `IpRcv` applies it to a
  socket buffer in place, updating the device's error counters and
  reporting which collaborator (`dev_queue_xmit`, `icmp_rcv`, `udp_rcv`) it
  called.
*/
module IpInput {
  import opened Bytes
  import InetChecksum

  /** Size of the fixed part of an IPv4 header (section 3.1 of RFC 791). */
  const IP_HEADER_SIZE: nat := 20
  /** Offset of the header checksum field within the header. */
  const CHECK_OFFSET: nat := 10
  /** Protocol numbers of ICMP and UDP. */
  const ICMP_PROTO_TYPE: nat := 1
  const UDP_PROTO_TYPE: nat := 17

  type Addr = nat

  // Header fields, read from the bytes as the little-endian bit-field
  // layout of `iphdr_t` places them (`ihl` in the low nibble of byte 0).

  function Ihl(h: seq<byte>): nat requires |h| == IP_HEADER_SIZE { h[0] % 16 }
  function Version(h: seq<byte>): nat requires |h| == IP_HEADER_SIZE { h[0] / 16 }
  /** `ntohs(iph->tot_len)`. */
  function TotLen(h: seq<byte>): nat requires |h| == IP_HEADER_SIZE { Be16(h[2], h[3]) }
  function Proto(h: seq<byte>): nat requires |h| == IP_HEADER_SIZE { h[9] }
  function CheckField(h: seq<byte>): nat requires |h| == IP_HEADER_SIZE { InetChecksum.WordAt(h, CHECK_OFFSET) }
  function DAddr(h: seq<byte>): Addr requires |h| == IP_HEADER_SIZE {
    Be32(h[16], h[17], h[18], h[19])
  }

  /** The header with its checksum field cleared, as `iph->check = 0` leaves it. */
  function CheckZeroed(h: seq<byte>): (z: seq<byte>)
    requires |h| == IP_HEADER_SIZE
  {
    h[CHECK_OFFSET := 0][CHECK_OFFSET + 1 := 0]
  }

  /** Step 1: header length of at least five words and version 4. */
  predicate StructureOk(h: seq<byte>) requires |h| == IP_HEADER_SIZE {
    Ihl(h) >= 5 && Version(h) == 4
  }

  /** Step 2: the stored checksum equals the checksum of the fixed
      `IP_HEADER_SIZE` bytes with the field cleared. Options beyond those
      bytes (when `ihl > 5`) are not covered. */
  predicate ChecksumOk(h: seq<byte>) requires |h| == IP_HEADER_SIZE {
    CheckField(h) == InetChecksum.Checksum(CheckZeroed(h))
  }

  /** Step 3: the total length fits in the captured buffer and covers the header. */
  predicate LengthOk(h: seq<byte>, packLen: nat) requires |h| == IP_HEADER_SIZE {
    TotLen(h) <= packLen && Ihl(h) * 4 <= TotLen(h)
  }

  /** The three validation steps together. */
  predicate Acceptable(h: seq<byte>, packLen: nat) requires |h| == IP_HEADER_SIZE {
    StructureOk(h) && ChecksumOk(h) && LengthOk(h, packLen)
  }

  /** What `ip_dev_find` and `ip_route` answer: the addresses of local
      interfaces, and the destinations for which a route exists. */
  datatype Routing = Routing(localAddrs: set<Addr>, routable: set<Addr>)

  /** The outcome of `ip_rcv` for one datagram. */
  datatype Verdict =
    | BadHeader     // dropped, rx_err counted
    | BadChecksum   // dropped, rx_crc_errors counted
    | BadLength     // dropped, rx_length_errors counted
    | Forwarded     // not local, route found: dev_queue_xmit
    | NoRoute       // not local, no route: silently dropped
    | ToIcmp        // local, ICMP: icmp_rcv
    | ToUdp         // local, UDP: udp_rcv
    | Ignored       // local, any other protocol
  {
    predicate Dropped() { BadHeader? || BadChecksum? || BadLength? }
  }

  /** The decision `ip_rcv` takes, check by check in the order of the code. */
  function Classify(h: seq<byte>, packLen: nat, net: Routing): (v: Verdict)
    requires |h| == IP_HEADER_SIZE
    ensures v == BadHeader <==> !StructureOk(h)
    ensures v == BadChecksum <==> StructureOk(h) && !ChecksumOk(h)
    ensures v == BadLength <==> StructureOk(h) && ChecksumOk(h) && !LengthOk(h, packLen)
    ensures v.Dropped() <==> !Acceptable(h, packLen)
    ensures v == Forwarded <==> Acceptable(h, packLen) && DAddr(h) !in net.localAddrs && DAddr(h) in net.routable
    ensures v == NoRoute <==> Acceptable(h, packLen) && DAddr(h) !in net.localAddrs && DAddr(h) !in net.routable
    ensures v == ToIcmp <==> Acceptable(h, packLen) && DAddr(h) in net.localAddrs && Proto(h) == ICMP_PROTO_TYPE
    ensures v == ToUdp <==> Acceptable(h, packLen) && DAddr(h) in net.localAddrs && Proto(h) == UDP_PROTO_TYPE
    ensures v == Ignored <==> Acceptable(h, packLen) && DAddr(h) in net.localAddrs
                              && Proto(h) != ICMP_PROTO_TYPE && Proto(h) != UDP_PROTO_TYPE
  {
    if Ihl(h) < 5 || Version(h) != 4 then BadHeader
    else if CheckField(h) != InetChecksum.Checksum(CheckZeroed(h)) then BadChecksum
    else if packLen < TotLen(h) || TotLen(h) < Ihl(h) * 4 then BadLength
    else if DAddr(h) !in net.localAddrs then
      (if DAddr(h) in net.routable then Forwarded else NoRoute)
    else if Proto(h) == ICMP_PROTO_TYPE then ToIcmp
    else if Proto(h) == UDP_PROTO_TYPE then ToUdp
    else Ignored
  }

  /** A collaborator `ip_rcv` hands the datagram to. */
  datatype Call = DevQueueXmit | IcmpRcv | UdpRcv

  /** The collaborator calls belonging to a verdict: at most one. */
  function CallsOf(v: Verdict): (calls: seq<Call>)
    ensures |calls| <= 1
    ensures DevQueueXmit in calls <==> v == Forwarded
    ensures IcmpRcv in calls <==> v == ToIcmp
    ensures UdpRcv in calls <==> v == ToUdp
  {
    match v
    case Forwarded => [DevQueueXmit]
    case ToIcmp => [IcmpRcv]
    case ToUdp => [UdpRcv]
    case _ => []
  }

  /** The per-device counters `ip_rcv` updates (`net_device_stats_t`). */
  class NetDeviceStats {
    var rxErr: nat
    var rxCrcErrors: nat
    var rxLengthErrors: nat

    constructor ()
      ensures rxErr == 0 && rxCrcErrors == 0 && rxLengthErrors == 0
    {
      rxErr, rxCrcErrors, rxLengthErrors := 0, 0, 0;
    }

    ghost function Total(): nat
      reads this
    {
      rxErr + rxCrcErrors + rxLengthErrors
    }
  }

  /** The parts of a socket buffer `ip_rcv` uses: its bytes, the offsets of
      the network header (`nh.raw`) and transport header (`h.raw`), and the
      captured length. */
  class SkBuff {
    var data: array<byte>
    var nh: nat
    var th: int
    var len: nat

    constructor (data: array<byte>, nh: nat, len: nat)
      ensures this.data == data && this.nh == nh && this.len == len && th == 0
    {
      this.data, this.nh, this.len, th := data, nh, len, 0;
    }

    /** The fixed header, as `ip_rcv` reads it. */
    ghost function Header(): (h: seq<byte>)
      reads this, data
      requires nh + IP_HEADER_SIZE <= data.Length
      ensures |h| == IP_HEADER_SIZE
    {
      data[nh..nh + IP_HEADER_SIZE]
    }
  }

  /** `ip_rcv`: returns -1 for a dropped datagram and 0 otherwise. The
      transport header offset is set to the fixed header size past the
      network header whatever `ihl` says; once the structural check passes,
      the checksum field is left cleared. */
  method IpRcv(pack: SkBuff, stats: NetDeviceStats, net: Routing) returns (ret: int, calls: seq<Call>)
    requires pack.nh + IP_HEADER_SIZE <= pack.data.Length
    modifies pack`th, pack.data, stats
    ensures var v := Classify(old(pack.Header()), pack.len, net);
      && ret == (if v.Dropped() then -1 else 0)
      && calls == CallsOf(v)
      && pack.th == pack.nh + IP_HEADER_SIZE
      && stats.rxErr == old(stats.rxErr) + (if v == BadHeader then 1 else 0)
      && stats.rxCrcErrors == old(stats.rxCrcErrors) + (if v == BadChecksum then 1 else 0)
      && stats.rxLengthErrors == old(stats.rxLengthErrors) + (if v == BadLength then 1 else 0)
      && stats.Total() == old(stats.Total()) + (if v.Dropped() then 1 else 0)
      && pack.data[..] == (if v == BadHeader then old(pack.data[..])
                           else old(pack.data[..])[pack.nh + CHECK_OFFSET := 0][pack.nh + CHECK_OFFSET + 1 := 0])
  {
    ghost var h := pack.Header();
    ghost var v := Classify(h, pack.len, net);
    ghost var before := pack.data[..];
    pack.th := pack.nh + IP_HEADER_SIZE;
    var nh := pack.nh;
    var ihl := pack.data[nh] % 16;
    var version := pack.data[nh] / 16;
    assert ihl == Ihl(h) && version == Version(h);
    if ihl < 5 || version != 4 {
      stats.rxErr := stats.rxErr + 1;
      return -1, [];
    }
    var tmp := Be16(pack.data[nh + CHECK_OFFSET], pack.data[nh + CHECK_OFFSET + 1]);
    assert tmp == CheckField(h);
    pack.data[nh + CHECK_OFFSET] := 0;
    pack.data[nh + CHECK_OFFSET + 1] := 0;
    assert pack.data[..] == before[nh + CHECK_OFFSET := 0][nh + CHECK_OFFSET + 1 := 0];
    assert pack.data[nh..nh + IP_HEADER_SIZE] == CheckZeroed(h);
    if tmp != InetChecksum.Checksum(pack.data[nh..nh + IP_HEADER_SIZE]) {
      stats.rxCrcErrors := stats.rxCrcErrors + 1;
      return -1, [];
    }
    var len := Be16(pack.data[nh + 2], pack.data[nh + 3]);
    assert len == TotLen(h);
    if pack.len < len || len < ihl * 4 {
      stats.rxLengthErrors := stats.rxLengthErrors + 1;
      return -1, [];
    }
    var daddr := Be32(pack.data[nh + 16], pack.data[nh + 17], pack.data[nh + 18], pack.data[nh + 19]);
    var proto := pack.data[nh + 9];
    assert daddr == DAddr(h) && proto == Proto(h);
    assert Acceptable(h, pack.len);
    if daddr !in net.localAddrs {
      if daddr in net.routable {
        calls := [DevQueueXmit];
      } else {
        calls := [];
      }
      return 0, calls;
    }
    calls := [];
    if ICMP_PROTO_TYPE == proto {
      calls := calls + [IcmpRcv];
    }
    if UDP_PROTO_TYPE == proto {
      calls := calls + [UdpRcv];
    }
    return 0, calls;
  }

  // ----- Properties of the decision -----

  /** Only the first failing check counts: the verdict is the first of
      header, checksum, length that fails. */
  lemma FirstFailureWins(h: seq<byte>, packLen: nat, net: Routing)
    requires |h| == IP_HEADER_SIZE
    ensures !StructureOk(h) ==> Classify(h, packLen, net) == BadHeader
    ensures StructureOk(h) && !ChecksumOk(h) ==> Classify(h, packLen, net) == BadChecksum
    ensures StructureOk(h) && ChecksumOk(h) && !LengthOk(h, packLen) ==> Classify(h, packLen, net) == BadLength
  {
  }

  /** Boundary acceptance: a five-word version-4 header with a correct
      checksum passes all three checks when the total length equals the
      captured length, and when it equals the header length. */
  lemma BoundaryAccepted(h: seq<byte>, packLen: nat, net: Routing)
    requires |h| == IP_HEADER_SIZE
    requires Ihl(h) == 5 && Version(h) == 4 && ChecksumOk(h)
    requires (TotLen(h) == packLen && Ihl(h) * 4 <= TotLen(h)) || (TotLen(h) == Ihl(h) * 4 && TotLen(h) <= packLen)
    ensures !Classify(h, packLen, net).Dropped()
  {
  }

  /** Writing the checksum of the cleared header into the check field makes
      any header pass the checksum step. */
  lemma {:induction false} FilledChecksumAccepted(h: seq<byte>)
    requires |h| == IP_HEADER_SIZE
    ensures var c := InetChecksum.Checksum(CheckZeroed(h));
            ChecksumOk(h[CHECK_OFFSET := c / 0x100][CHECK_OFFSET + 1 := c % 0x100])
  {
    var c := InetChecksum.Checksum(CheckZeroed(h));
    var f := h[CHECK_OFFSET := c / 0x100][CHECK_OFFSET + 1 := c % 0x100];
    assert CheckZeroed(f) == CheckZeroed(h);
  }

  /** A header that passes the checksum step also passes the receiver-side
      test of RFC 1071: its one's-complement sum is all ones. */
  lemma {:induction false} AcceptedChecksumSumsToOnes(h: seq<byte>)
    requires |h| == IP_HEADER_SIZE && ChecksumOk(h)
    ensures InetChecksum.OnesSum(h) == InetChecksum.MAX16
  {
    InetChecksum.ChecksumVerifies(h, CHECK_OFFSET);
  }

  /** A single-bit error anywhere in the fixed header outside the checksum
      field turns a header that passed the checksum step into one that fails it. */
  lemma {:induction false} CorruptedHeaderRejected(h: seq<byte>, g: seq<byte>, i: nat)
    requires |h| == IP_HEADER_SIZE && |g| == IP_HEADER_SIZE && ChecksumOk(h)
    requires i < IP_HEADER_SIZE && i != CHECK_OFFSET && i != CHECK_OFFSET + 1
    requires forall j :: 0 <= j < IP_HEADER_SIZE && j != i ==> h[j] == g[j]
    requires IsBitValue(g[i] as int - h[i] as int) || IsBitValue(h[i] as int - g[i] as int)
    ensures !ChecksumOk(g)
  {
    InetChecksum.SingleBitChangesSum(CheckZeroed(h), CheckZeroed(g), i);
    assert CheckField(g) == CheckField(h);
  }

  /** Every call changes the counters by at most one, and by exactly one when
      it drops the datagram; a drop calls no collaborator. */
  lemma DropAccounting(v: Verdict)
    ensures v.Dropped() ==> CallsOf(v) == []
    ensures (if v == BadHeader then 1 else 0) + (if v == BadChecksum then 1 else 0)
            + (if v == BadLength then 1 else 0) == (if v.Dropped() then 1 else 0)
  {
  }
}
