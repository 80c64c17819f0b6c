/** IPv4 (section 3.1 of RFC 791) and UDP (RFC 768) headers as slip_udp_serial.cpp fills and checks them. */
module UdpPacket {
  import opened Bytes
  import opened OnesComplement
  import Slip

  const IP_HEADER := 20
  const UDP_HEADER := 8
  const HEADERS := 28
  const PROTOCOL_UDP: byte := 17

  /** The payload that fits a packet of MTU octets. */
  const MAX_PAYLOAD := 1472

  datatype Endpoints = Endpoints(srcIp: uint32, dstIp: uint32, srcPort: uint16, dstPort: uint16)

  function IpHeader(totalLen: uint16, id: uint16, e: Endpoints, csum: seq<byte>): (h: seq<byte>)
    requires |csum| == 2
    ensures |h| == IP_HEADER
  {
    [0x45, 0] + (Big16(totalLen) + Big16(id)) + [0x40, 0, 64, PROTOCOL_UDP] + (csum + Big32(e.srcIp) + Big32(e.dstIp))
  }

  function UdpHeader(length: uint16, e: Endpoints): (h: seq<byte>)
    ensures |h| == UDP_HEADER
  {
    Big16(e.srcPort) + Big16(e.dstPort) + Big16(length) + [0, 0]
  }

  /** The IP header a host builds: the checksum is computed over a zeroed field and stored natively. */
  function ChecksummedIpHeader(host: Host, totalLen: uint16, id: uint16, e: Endpoints): (h: seq<byte>)
    ensures |h| == IP_HEADER
  {
    IpHeader(totalLen, id, e, Native16(host, Checksum(host, IpHeader(totalLen, id, e, [0, 0]))))
  }

  function Packet(host: Host, id: uint16, e: Endpoints, payload: seq<byte>): (r: seq<byte>)
    requires |payload| <= Slip.MTU
  {
    ChecksummedIpHeader(host, HEADERS + |payload|, id, e) + UdpHeader(UDP_HEADER + |payload|, e) + payload
  }

  // ---------- the receiver's checks ----------

  /** The IP-level checks of parse_udp_packet, in its order. */
  predicate IpAccepted(host: Host, p: seq<byte>) {
    && |p| >= HEADERS
    && p[0] / 0x10 == 4
    && p[0] % 0x10 == 5
    && Checksum(host, p[..IP_HEADER]) == 0
    && p[9] == PROTOCOL_UDP
    && |p| >= FromBig16(p, 2)
  }

  function EndpointsOf(p: seq<byte>): (r: Endpoints)
    requires |p| >= HEADERS
  {
    Endpoints(FromBig32(p, 12), FromBig32(p, 16), FromBig16(p, 20), FromBig16(p, 22))
  }

  function UdpLength(p: seq<byte>): (r: uint16)
    requires |p| >= HEADERS
  {
    FromBig16(p, 24)
  }

  predicate UdpAccepted(host: Host, p: seq<byte>) {
    IpAccepted(host, p) && UDP_HEADER <= UdpLength(p) && IP_HEADER + UdpLength(p) <= |p|
  }

  function PayloadOf(host: Host, p: seq<byte>): (r: seq<byte>)
    requires UdpAccepted(host, p)
  {
    p[HEADERS..IP_HEADER + UdpLength(p)]
  }

  // ---------- round trip ----------

  lemma IpHeaderWithChecksum(totalLen: uint16, id: uint16, e: Endpoints, csum: seq<byte>)
    requires |csum| == 2
    ensures var z := IpHeader(totalLen, id, e, [0, 0]);
      z[10] == 0 && z[11] == 0 && IpHeader(totalLen, id, e, csum) == z[..10] + csum + z[12..]
  {
    var z := IpHeader(totalLen, id, e, [0, 0]);
    var h := IpHeader(totalLen, id, e, csum);
    assert z[10..12] == [0, 0] && z[10] == z[10..12][0] && z[11] == z[10..12][1];
    assert h[..10] == z[..10] && h[10..12] == csum && h[12..] == z[12..];
    assert h == h[..10] + h[10..12] + h[12..];
  }

  /** Hosts of either byte order build the same header, and either accepts it. */
  lemma HeaderInteroperates(writer: Host, reader: Host, totalLen: uint16, id: uint16, e: Endpoints)
    ensures ChecksummedIpHeader(writer, totalLen, id, e) == ChecksummedIpHeader(reader, totalLen, id, e)
    ensures Checksum(reader, ChecksummedIpHeader(writer, totalLen, id, e)) == 0
  {
    var z := IpHeader(totalLen, id, e, [0, 0]);
    IpHeaderWithChecksum(totalLen, id, e, Native16(writer, Checksum(writer, z)));
    StoredVerifiesAnywhere(writer, reader, z, 10);
  }

  lemma Big16RoundTrip(n: uint16)
    ensures FromBig16(Big16(n), 0) == n
  {
  }

  lemma Big32RoundTrip(n: uint32)
    ensures FromBig32(Big32(n), 0) == n
  {
    var a, b, c := n / 0x100_0000, n / 0x1_0000, n / 0x100;
    assert b / 0x100 == a && c / 0x100 == b;
    assert n == 0x100 * c + n % 0x100 && c == 0x100 * b + c % 0x100 && b == 0x100 * a + b % 0x100;
  }

  /** Where each field lies in a packet. */
  lemma PacketFields(host: Host, id: uint16, e: Endpoints, payload: seq<byte>)
    requires |payload| <= Slip.MTU
    ensures var p := Packet(host, id, e, payload);
      && |p| == HEADERS + |payload|
      && p[..IP_HEADER] == ChecksummedIpHeader(host, HEADERS + |payload|, id, e)
      && p[0] == 0x45 && p[9] == PROTOCOL_UDP
      && p[2..4] == Big16(HEADERS + |payload|) && p[12..16] == Big32(e.srcIp) && p[16..20] == Big32(e.dstIp)
      && p[20..22] == Big16(e.srcPort) && p[22..24] == Big16(e.dstPort)
      && p[24..26] == Big16(UDP_HEADER + |payload|) && p[HEADERS..] == payload
  {
    var p := Packet(host, id, e, payload);
    var ip := ChecksummedIpHeader(host, HEADERS + |payload|, id, e);
    var udp := UdpHeader(UDP_HEADER + |payload|, e);
    assert p == ip + (udp + payload);
    assert p[20..28] == udp;
    forall i | 0 <= i < 20 ensures p[i] == ip[i] {}
    assert p[2..4] == ip[2..4] && p[12..16] == ip[12..16] && p[16..20] == ip[16..20];
    assert p[20..22] == udp[0..2] && p[22..24] == udp[2..4] && p[24..26] == udp[4..6];
  }

  lemma FieldsRead(p: seq<byte>, i: nat)
    ensures i + 2 <= |p| ==> FromBig16(p, i) == FromBig16(p[i..i + 2], 0)
    ensures i + 4 <= |p| ==> FromBig32(p, i) == FromBig32(p[i..i + 4], 0)
  {
  }

  /** What one host sends, a host of any byte order accepts, and reads the same addresses, ports and payload. */
  lemma PacketRoundTrip(writer: Host, reader: Host, id: uint16, e: Endpoints, payload: seq<byte>)
    requires |payload| <= Slip.MTU
    ensures var p := Packet(writer, id, e, payload);
      UdpAccepted(reader, p) && EndpointsOf(p) == e && PayloadOf(reader, p) == payload
  {
    var p := Packet(writer, id, e, payload);
    PacketFields(writer, id, e, payload);
    HeaderInteroperates(writer, reader, HEADERS + |payload|, id, e);
    FieldsRead(p, 2); FieldsRead(p, 12); FieldsRead(p, 16); FieldsRead(p, 20); FieldsRead(p, 22); FieldsRead(p, 24);
    Big16RoundTrip(HEADERS + |payload|); Big16RoundTrip(UDP_HEADER + |payload|);
    Big16RoundTrip(e.srcPort); Big16RoundTrip(e.dstPort);
    Big32RoundTrip(e.srcIp); Big32RoundTrip(e.dstIp);
  }

  // ---------- octet by octet ----------

  lemma TenWords(h: seq<byte>)
    requires |h| == IP_HEADER
    ensures WordSum(BigEndian, h) ==
      FromBig16(h, 0) + FromBig16(h, 2) + FromBig16(h, 4) + FromBig16(h, 6) + FromBig16(h, 8)
      + FromBig16(h, 10) + FromBig16(h, 12) + FromBig16(h, 14) + FromBig16(h, 16) + FromBig16(h, 18)
  {
    WordSumFrom(h, 0); WordSumFrom(h, 2); WordSumFrom(h, 4); WordSumFrom(h, 6); WordSumFrom(h, 8);
    WordSumFrom(h, 10); WordSumFrom(h, 12); WordSumFrom(h, 14); WordSumFrom(h, 16); WordSumFrom(h, 18);
    assert h[0..] == h && h[20..] == [];
  }

  lemma WordSumFrom(h: seq<byte>, i: nat)
    requires i + 1 < |h|
    ensures WordSum(BigEndian, h[i..]) == FromBig16(h, i) + WordSum(BigEndian, h[i + 2..])
  {
    assert h[i..][2..] == h[i + 2..];
  }

  function Word(hi: byte, lo: byte): (w: uint16) {
    0x100 * (hi as int) + lo
  }

  /** The sum of the ten words of an IP header. */
  function HeaderSum(p: seq<byte>): (sum: nat)
    requires |p| >= 20
  {
    Word(p[0], p[1]) + Word(p[2], p[3]) + Word(p[4], p[5]) + Word(p[6], p[7]) + Word(p[8], p[9])
    + Word(p[10], p[11]) + Word(p[12], p[13]) + Word(p[14], p[15]) + Word(p[16], p[17]) + Word(p[18], p[19])
  }

  /** A header's checksum is right on any host exactly if its words sum to a multiple of 0xFFFF, other than 0. */
  lemma ChecksumRight(host: Host, h: seq<byte>)
    requires |h| == 20
    ensures Checksum(host, h) == 0 <==> HeaderSum(h) > 0 && HeaderSum(h) % 0xFFFF == 0
  {
    hide WordSum; hide Residue;
    TenWords(h);
    ZeroOnBoth(host, h);
    ResidueFull(WordSum(BigEndian, h));
  }

  lemma ZeroOnBoth(host: Host, h: seq<byte>)
    requires |h| == 20
    ensures Checksum(host, h) == 0 <==> Checksum(BigEndian, h) == 0
  {
    hide Checksum;
    HostIndependence(h);
    hide *;
    NativeZero(host, Checksum(host, h));
    NativeZero(BigEndian, Checksum(BigEndian, h));
    NativeZero(LittleEndian, Checksum(LittleEndian, h));
  }

  lemma NativeZero(host: Host, n: uint16)
    ensures Native16(host, n) == [0, 0] <==> n == 0
  {
  }

  lemma ResidueFull(sum: nat)
    ensures Residue(sum) == 0xFFFF <==> sum > 0 && sum % 0xFFFF == 0
  {
  }

  /** Every octet of what is sent: 20 octets of IP header without options, with a time to live of 64, not to be
      fragmented, of protocol 17; 8 octets of UDP header, which bears no checksum; and the payload. */
  lemma PacketOctets(host: Host, id: uint16, e: Endpoints, payload: seq<byte>)
    requires |payload| <= 1500
    ensures var p := Packet(host, id, e, payload);
      && |p| == 28 + |payload| && p[28..] == payload
      && p[0] == 0x45 && p[1] == 0 && Word(p[2], p[3]) == 28 + |payload| && Word(p[4], p[5]) == id
      && p[6] == 0x40 && p[7] == 0 && p[8] == 64 && p[9] == 17
      && HeaderSum(p) % 0xFFFF == 0
      && 0x1_0000 * Word(p[12], p[13]) + Word(p[14], p[15]) == e.srcIp
      && 0x1_0000 * Word(p[16], p[17]) + Word(p[18], p[19]) == e.dstIp
      && Word(p[20], p[21]) == e.srcPort && Word(p[22], p[23]) == e.dstPort
      && Word(p[24], p[25]) == 8 + |payload| && p[26] == 0 && p[27] == 0
  {
    var p, n := Packet(host, id, e, payload), |payload|;
    var ip, udp := ChecksummedIpHeader(host, 28 + n, id, e), UdpHeader(8 + n, e);
    HeaderInteroperates(host, BigEndian, 28 + n, id, e);
    ChecksumRight(BigEndian, ip);
    IpOctets(28 + n, id, e, Native16(host, Checksum(host, IpHeader(28 + n, id, e, [0, 0]))));
    UdpOctets(8 + n, e);
    Joined(ip, udp, payload);
    hide Checksum; hide IpHeader; hide UdpHeader; hide HeaderSum; hide Native16;
    SameSum(ip, p);
  }

  lemma Joined(ip: seq<byte>, udp: seq<byte>, payload: seq<byte>)
    requires |ip| == 20 && |udp| == 8
    ensures var p := ip + udp + payload;
      && p[28..] == payload
      && (forall i | 0 <= i < 20 :: p[i] == ip[i]) && forall i | 20 <= i < 28 :: p[i] == udp[i - 20]
  {
  }

  lemma SameSum(h: seq<byte>, p: seq<byte>)
    requires 20 <= |h| && 20 <= |p| && forall i | 0 <= i < 20 :: p[i] == h[i]
    ensures HeaderSum(p) == HeaderSum(h)
  {
  }

  lemma IpOctets(totalLen: uint16, id: uint16, e: Endpoints, csum: seq<byte>)
    requires |csum| == 2
    ensures var h := IpHeader(totalLen, id, e, csum);
      && h[0] == 0x45 && h[1] == 0 && Word(h[2], h[3]) == totalLen && Word(h[4], h[5]) == id
      && h[6] == 0x40 && h[7] == 0 && h[8] == 64 && h[9] == 17
      && 0x1_0000 * Word(h[12], h[13]) + Word(h[14], h[15]) == e.srcIp
      && 0x1_0000 * Word(h[16], h[17]) + Word(h[18], h[19]) == e.dstIp
  {
    var h, src, dst := IpHeader(totalLen, id, e, csum), Big32(e.srcIp), Big32(e.dstIp);
    Wide(e.srcIp);
    Wide(e.dstIp);
    assert h[2..6] == Big16(totalLen) + Big16(id);
    assert h[2] == h[2..6][0] && h[3] == h[2..6][1] && h[4] == h[2..6][2] && h[5] == h[2..6][3];
    hide Big32;
    assert h[12..16] == src && h[16..20] == dst;
    assert h[12] == src[0] && h[13] == src[1] && h[14] == src[2] && h[15] == src[3];
    assert h[16] == dst[0] && h[17] == dst[1] && h[18] == dst[2] && h[19] == dst[3];
  }

  lemma UdpOctets(length: uint16, e: Endpoints)
    ensures var h := UdpHeader(length, e);
      && Word(h[0], h[1]) == e.srcPort && Word(h[2], h[3]) == e.dstPort
      && Word(h[4], h[5]) == length && h[6] == 0 && h[7] == 0
  {
  }

  lemma Wide(n: uint32)
    ensures var b := Big32(n); 0x1_0000 * Word(b[0], b[1]) + Word(b[2], b[3]) == n
  {
    Big32RoundTrip(n);
    hide Big32;
  }

  /** Exactly the packets taken: IP version 4 without options, a right header checksum, protocol 17, and both lengths
      within what was received. */
  lemma AcceptedOctets(host: Host, p: seq<byte>)
    ensures IpAccepted(host, p) <==>
      |p| >= 28 && p[0] == 0x45 && HeaderSum(p) % 0xFFFF == 0 && p[9] == 17 && Word(p[2], p[3]) <= |p|
    ensures UdpAccepted(host, p) <==> IpAccepted(host, p) && 8 <= Word(p[24], p[25]) <= |p| - 20
    ensures UdpAccepted(host, p) ==> PayloadOf(host, p) == p[28..20 + Word(p[24], p[25])]
    ensures IpAccepted(host, p) ==> var e := EndpointsOf(p);
      && 0x1_0000 * Word(p[12], p[13]) + Word(p[14], p[15]) == e.srcIp
      && 0x1_0000 * Word(p[16], p[17]) + Word(p[18], p[19]) == e.dstIp
      && Word(p[20], p[21]) == e.srcPort && Word(p[22], p[23]) == e.dstPort
  {
    hide Checksum;
    if |p| >= 28 {
      ChecksumRight(host, p[..20]);
      assert HeaderSum(p[..20]) == HeaderSum(p);
      assert p[0] == 0x45 ==> HeaderSum(p) > 0;
    }
  }

  // ---------- how long a frame gets ----------

  /** The octets that are sent as two. */
  function Escapes(s: seq<byte>): (n: nat)
    ensures n <= |s|
  {
    if s == [] then 0 else (if s[0] == Slip.END || s[0] == Slip.ESC then 1 else 0) + Escapes(s[1..])
  }

  lemma {:induction false} EncodedLength(s: seq<byte>)
    ensures |Slip.EncodeBlock(s)| == |s| + Escapes(s)
  {
    if s != [] { EncodedLength(s[1..]); }
  }

  lemma FrameLength(p: seq<byte>)
    ensures |Slip.EncodeFrame(p)| == 2 + |p| + Escapes(p)
  {
    EncodedLength(p);
  }

  lemma {:induction false} EscapesAppend(a: seq<byte>, b: seq<byte>)
    ensures Escapes(a + b) == Escapes(a) + Escapes(b)
  {
    if a == [] {
      assert a + b == b;
    } else {
      EscapesAppend(a[1..], b);
      assert (a + b)[1..] == a[1..] + b;
    }
  }

  /** The octets of the headers that may be END or ESC; those of version, service, flags, time to live, protocol and the
      UDP checksum are not. */
  lemma IpHeaderEscapes(totalLen: uint16, id: uint16, e: Endpoints, csum: seq<byte>)
    requires |csum| == 2
    ensures Escapes(IpHeader(totalLen, id, e, csum))
      == Escapes(Big16(totalLen)) + Escapes(Big16(id)) + Escapes(csum)
       + Escapes(Big32(e.srcIp)) + Escapes(Big32(e.dstIp))
  {
    var v, f: seq<byte> := [0x45, 0], [0x40, 0, 64, PROTOCOL_UDP];
    NoEscapes(v); NoEscapes(f);
    hide Escapes; hide Big16; hide Big32;
    FourParts(v, Big16(totalLen) + Big16(id), f, csum + Big32(e.srcIp) + Big32(e.dstIp));
    EscapesAppend(Big16(totalLen), Big16(id));
    EscapesAppend(csum + Big32(e.srcIp), Big32(e.dstIp));
    EscapesAppend(csum, Big32(e.srcIp));
  }

  lemma UdpHeaderEscapes(length: uint16, e: Endpoints)
    ensures Escapes(UdpHeader(length, e))
      == Escapes(Big16(e.srcPort)) + Escapes(Big16(e.dstPort)) + Escapes(Big16(length))
  {
    NoEscapes([0, 0]);
    hide Escapes; hide Big16;
    FourParts(Big16(e.srcPort), Big16(e.dstPort), Big16(length), [0, 0]);
  }

  lemma FourParts(a: seq<byte>, b: seq<byte>, c: seq<byte>, d: seq<byte>)
    ensures Escapes(a + b + c + d) == Escapes(a) + Escapes(b) + Escapes(c) + Escapes(d)
  {
    hide Escapes;
    EscapesAppend(a + b + c, d);
    EscapesAppend(a + b, c);
    EscapesAppend(a, b);
  }

  lemma {:induction false} NoEscapes(s: seq<byte>)
    requires Slip.END !in s && Slip.ESC !in s
    ensures Escapes(s) == 0
  {
    if s != [] { NoEscapes(s[1..]); }
  }

  lemma {:induction false} AllEscapes(s: seq<byte>)
    requires forall i | 0 <= i < |s| :: s[i] == Slip.END || s[i] == Slip.ESC
    ensures Escapes(s) == |s|
  {
    if s != [] { AllEscapes(s[1..]); }
  }

  /** The two length fields of a packet with n octets of payload. */
  function LengthEscapes(n: nat): (r: nat)
    requires n <= Slip.MTU
  {
    Escapes(Big16(HEADERS + n)) + Escapes(Big16(UDP_HEADER + n))
  }

  lemma PacketEscapes(host: Host, id: uint16, e: Endpoints, payload: seq<byte>)
    requires |payload| <= Slip.MTU
    ensures var csum := Native16(host, Checksum(host, IpHeader(HEADERS + |payload|, id, e, [0, 0])));
      Escapes(Packet(host, id, e, payload))
        == LengthEscapes(|payload|) + Escapes(Big16(id)) + Escapes(csum)
         + Escapes(Big32(e.srcIp)) + Escapes(Big32(e.dstIp)) + Escapes(Big16(e.srcPort)) + Escapes(Big16(e.dstPort))
         + Escapes(payload)
  {
    hide IpHeader; hide UdpHeader; hide Escapes; hide Checksum;
    var csum := Native16(host, Checksum(host, IpHeader(HEADERS + |payload|, id, e, [0, 0])));
    var ip, udp := ChecksummedIpHeader(host, HEADERS + |payload|, id, e), UdpHeader(UDP_HEADER + |payload|, e);
    IpHeaderEscapes(HEADERS + |payload|, id, e, csum);
    UdpHeaderEscapes(UDP_HEADER + |payload|, e);
    EscapesAppend(ip + udp, payload);
    EscapesAppend(ip, udp);
  }

  // ---------- what fits the transmit buffer ----------

  /** The largest payload whose frame fits the buffer of 2 * MTU octets whatever its octets and addresses are. */
  const SAFE_PAYLOAD := 1477

  /** The frame of a packet with n octets of payload always fits exactly if n is at most SAFE_PAYLOAD. */
  lemma AlwaysFits(n: nat)
    requires n <= Slip.MTU
    ensures (forall host, id: uint16, e, payload: seq<byte> | |payload| == n ::
        |Slip.EncodeFrame(Packet(host, id, e, payload))| <= 2 * Slip.MTU)
      <==> n <= SAFE_PAYLOAD
  {
    hide Packet; hide Slip.EncodeFrame;
    if n <= SAFE_PAYLOAD {
      forall host, id: uint16, e, payload: seq<byte> | |payload| == n
        ensures |Slip.EncodeFrame(Packet(host, id, e, payload))| <= 2 * Slip.MTU
      {
        FrameFits(host, id, e, payload);
      }
    } else {
      FrameOverruns(n);
    }
  }

  lemma FrameFits(host: Host, id: uint16, e: Endpoints, payload: seq<byte>)
    requires |payload| <= SAFE_PAYLOAD
    ensures |Slip.EncodeFrame(Packet(host, id, e, payload))| <= 2 * Slip.MTU
  {
    hide Packet; hide Slip.EncodeFrame; hide Escapes; hide IpHeader; hide Checksum;
    FrameLength(Packet(host, id, e, payload));
    PacketEscapes(host, id, e, payload);
    PacketLength(host, id, e, payload);
    LengthsUnescaped(|payload|);
  }

  lemma PacketLength(host: Host, id: uint16, e: Endpoints, payload: seq<byte>)
    requires |payload| <= Slip.MTU
    ensures |Packet(host, id, e, payload)| == HEADERS + |payload|
  {
  }

  lemma LengthsUnescaped(n: nat)
    requires n <= Slip.MTU
    ensures LengthEscapes(n) <= 4 && (MAX_PAYLOAD < n <= Slip.MTU ==> LengthEscapes(n) == 0 || UDP_HEADER + n == 0x5DB)
  {
    if MAX_PAYLOAD < n && UDP_HEADER + n != 0x5DB {
      NoEscapes(Big16(HEADERS + n));
      NoEscapes(Big16(UDP_HEADER + n));
    }
  }

  /** Addresses, ports and id made of ESC octets, and a payload of ENDs. At 1478 octets it takes one octet of the IP
      checksum, too. */
  const ESC_WORD: uint16 := 0xDBDB
  const WORST_ID: uint16 := 0xDBC0
  const WORST := Endpoints(0xDBDB_DBDB, 0xDBDB_DBDB, ESC_WORD, ESC_WORD)

  lemma FrameOverruns(n: nat)
    requires SAFE_PAYLOAD < n <= Slip.MTU
    ensures var payload := seq(n, _ => Slip.END);
      |Slip.EncodeFrame(Packet(BigEndian, WORST_ID, WORST, payload))| > 2 * Slip.MTU
  {
    hide Packet; hide Slip.EncodeFrame; hide IpHeader; hide Checksum; hide Escapes; hide Big16; hide Big32;
    hide LengthEscapes; hide Native16;
    var payload := seq(n, _ => Slip.END);
    FrameLength(Packet(BigEndian, WORST_ID, WORST, payload));
    PacketEscapes(BigEndian, WORST_ID, WORST, payload);
    PacketLength(BigEndian, WORST_ID, WORST, payload);
    AllEscapes(payload);
    WorstEscapes();
    if n == SAFE_PAYLOAD + 1 { WorstChecksum(); }
  }

  lemma WorstEscapes()
    ensures Escapes(Big16(WORST_ID)) == 2 && Escapes(Big16(WORST.srcPort)) == 2 && Escapes(Big16(WORST.dstPort)) == 2
    ensures Escapes(Big32(WORST.srcIp)) == 4 && Escapes(Big32(WORST.dstIp)) == 4
  {
    hide Escapes;
    AllEscapes(Big16(WORST_ID));
    AllEscapes(Big16(ESC_WORD));
    AllEscapes(Big32(WORST.srcIp));
  }

  lemma WorstChecksum()
    ensures var h := IpHeader(HEADERS + SAFE_PAYLOAD + 1, WORST_ID, WORST, [0, 0]);
      Escapes(Native16(BigEndian, Checksum(BigEndian, h))) == 1
  {
    hide IpHeader; hide WordSum; hide Escapes; hide Checksum;
    WorstHeader();
    WorstSum();
    assert Native16(BigEndian, 0xE9DB) == [0xE9, 0xDB];
    OneEscape();
  }

  lemma OneEscape()
    ensures Escapes([0xE9, 0xDB]) == 1
  {
    assert [0xE9, 0xDB][1..] == [0xDB];
  }

  const WORST_HEADER: seq<byte> :=
    [0x45, 0, 0x05, 0xE2, 0xDB, 0xC0, 0x40, 0, 64, 17, 0, 0, 0xDB, 0xDB, 0xDB, 0xDB, 0xDB, 0xDB, 0xDB, 0xDB]

  lemma WorstHeader()
    ensures IpHeader(HEADERS + SAFE_PAYLOAD + 1, WORST_ID, WORST, [0, 0]) == WORST_HEADER
  {
  }

  lemma WorstSum()
    ensures Checksum(BigEndian, WORST_HEADER) == 0xE9DB
  {
    hide WordSum;
    TenWords(WORST_HEADER);
    assert WordSum(BigEndian, WORST_HEADER) == 0x5161F;
  }
}
