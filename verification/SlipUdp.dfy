/** The serial transport class of slip_udp_serial.cpp: SLIP under IPv4 and UDP, over one line per direction. */
module SlipUdp {
  import opened Bytes
  import opened Seqs
  import opened Slip
  import opened UdpPacket
  import opened OnesComplement

  /** What became of a datagram; Overrun: its frame is longer than the transmit buffer. */
  datatype SendResult = Sent | Refused | Overrun

  class SlipUdpSerial {
    const host: Host
    const rxBuffer: array<byte>
    const txBuffer: array<byte>

    // the serial port: octets still to be read before its timeout, octets written so far
    var rxLine: seq<byte>
    var txLine: seq<byte>

    var lastSentPacketId: uint16
    var lastRemoteIp: uint32
    var lastRemotePort: uint16
    var lastDstIp: uint32
    var lastDstPort: uint16
    var lastRxData: nat // where in rxBuffer the last payload starts
    var lastRxDataLen: uint16

    ghost predicate Valid() {
      rxBuffer.Length == MTU && txBuffer.Length == 2 * MTU && rxBuffer != txBuffer
    }

    constructor (host: Host)
      ensures Valid() && fresh(rxBuffer) && fresh(txBuffer)
      ensures this.host == host && rxLine == [] && txLine == [] && lastSentPacketId == 0
    {
      this.host := host;
      rxBuffer := new byte[MTU];
      txBuffer := new byte[2 * MTU];
      rxLine, txLine := [], [];
      lastSentPacketId := 0;
    }

    // ---------- sending ----------

    method EncodeSlipByte(dest: nat, dataByte: byte) returns (len: nat)
      requires Valid() && dest + |EncodeByte(dataByte)| <= txBuffer.Length
      modifies txBuffer
      ensures len == |EncodeByte(dataByte)|
      ensures txBuffer[..dest + len] == old(txBuffer[..dest]) + EncodeByte(dataByte)
    {
      if dataByte == END {
        txBuffer[dest], txBuffer[dest + 1] := ESC, ESC_END;
        len := 2;
      } else if dataByte == ESC {
        txBuffer[dest], txBuffer[dest + 1] := ESC, ESC_ESC;
        len := 2;
      } else {
        txBuffer[dest] := dataByte;
        len := 1;
      }
      assert txBuffer[..dest] == old(txBuffer[..dest]);
      assert txBuffer[dest..dest + len] == EncodeByte(dataByte);
      assert txBuffer[..dest + len] == txBuffer[..dest] + txBuffer[dest..dest + len];
    }

    method EncodeSlipBlock(dest: nat, data: seq<byte>) returns (len: nat)
      requires Valid() && dest + |EncodeBlock(data)| <= txBuffer.Length
      modifies txBuffer
      ensures len == |EncodeBlock(data)|
      ensures txBuffer[..dest + len] == old(txBuffer[..dest]) + EncodeBlock(data)
    {
      hide EncodeBlock; hide EncodeByte;
      ghost var start := txBuffer[..dest];
      len := 0;
      assert EncodeBlock(data[..0]) == [] && data[0..] == data;
      Empty(start);
      for i := 0 to |data|
        invariant len == |EncodeBlock(data[..i])|
        invariant len + |EncodeBlock(data[i..])| == |EncodeBlock(data)|
        invariant txBuffer[..dest + len] == start + EncodeBlock(data[..i])
      {
        EncodeNext(data, i);
        Associative(start, EncodeBlock(data[..i]), EncodeByte(data[i]));
        var n := EncodeSlipByte(dest + len, data[i]);
        len := len + n;
      }
      assert data[..|data|] == data;
    }

    lemma EncodeNext(data: seq<byte>, i: nat)
      requires i < |data|
      ensures EncodeBlock(data[..i + 1]) == EncodeBlock(data[..i]) + EncodeByte(data[i])
      ensures |EncodeBlock(data[i..])| == |EncodeByte(data[i])| + |EncodeBlock(data[i + 1..])|
    {
      assert data[..i + 1] == data[..i] + [data[i]];
      EncodeBlockAppend(data[..i], [data[i]]);
      assert [data[i]][1..] == [];
      Empty(EncodeByte(data[i]));
      assert data[i..][1..] == data[i + 1..];
    }

    method EncodeSlip(headers: seq<byte>, data: seq<byte>) returns (len: nat)
      requires Valid() && |EncodeFrame(headers + data)| <= txBuffer.Length
      modifies txBuffer
      ensures len <= txBuffer.Length && txBuffer[..len] == EncodeFrame(headers + data)
    {
      EncodeBlockAppend(headers, data);
      txBuffer[0] := END;
      assert txBuffer[..1] == [END];
      var n := EncodeSlipBlock(1, headers);
      var m := EncodeSlipBlock(1 + n, data);
      Associative([END], EncodeBlock(headers), EncodeBlock(data));
      len := 1 + n + m;
      label before:
      txBuffer[len] := END;
      assert txBuffer[..len + 1] == old@before(txBuffer[..len]) + [END];
      len := len + 1;
    }

    /** Puts one datagram on the line; longer data than the MTU is refused. The source does not check that the frame
        fits the transmit buffer; where it does not, the source writes behind the buffer, and nothing is said of what
        follows. */
    method Send(e: Endpoints, data: seq<byte>) returns (r: SendResult)
      requires Valid()
      modifies txBuffer, this`txLine, this`lastSentPacketId
      ensures r.Refused? <==> |data| > MTU
      ensures r.Refused? ==> txLine == old(txLine) && lastSentPacketId == old(lastSentPacketId)
      ensures |data| <= MTU ==> lastSentPacketId == (old(lastSentPacketId) + 1) % 0x1_0000
      ensures |data| <= MTU ==>
        (r.Overrun? <==> 2 + HEADERS + |data| + Escapes(Packet(host, lastSentPacketId, e, data)) > 2 * MTU)
      ensures |data| <= SAFE_PAYLOAD ==> r.Sent?
      ensures r.Sent? ==> txLine == old(txLine) + EncodeFrame(Packet(host, lastSentPacketId, e, data))
    {
      hide Escapes;
      if |data| > MTU {
        return Refused;
      }
      lastSentPacketId := (lastSentPacketId + 1) % 0x1_0000;
      var zeroed := IpHeader(HEADERS + |data|, lastSentPacketId, e, [0, 0]);
      var csum := InternetChecksum(host, zeroed, IP_HEADER);
      assert zeroed[..IP_HEADER] == zeroed;
      var ip := IpHeader(HEADERS + |data|, lastSentPacketId, e, Native16(host, csum));
      var headers := ip + UdpHeader(UDP_HEADER + |data|, e);
      assert headers + data == Packet(host, lastSentPacketId, e, data);
      FrameLength(headers + data);
      if |data| <= SAFE_PAYLOAD { FrameFits(host, lastSentPacketId, e, data); }
      if 2 + HEADERS + |data| + Escapes(headers + data) > txBuffer.Length {
        return Overrun;
      }
      var len := EncodeSlip(headers, data);
      txLine := txLine + txBuffer[..len];
      return Sent;
    }

    /** The answer goes back to whoever sent the last datagram. */
    method SendReply(data: seq<byte>) returns (r: SendResult)
      requires Valid()
      modifies txBuffer, this`txLine, this`lastSentPacketId
      ensures r.Refused? <==> |data| > MTU
      ensures r.Refused? ==> txLine == old(txLine) && lastSentPacketId == old(lastSentPacketId)
      ensures |data| <= MTU ==> lastSentPacketId == (old(lastSentPacketId) + 1) % 0x1_0000
      ensures var e := Endpoints(lastDstIp, lastRemoteIp, lastDstPort, lastRemotePort);
        |data| <= MTU ==>
          && (r.Overrun? <==> 2 + HEADERS + |data| + Escapes(Packet(host, lastSentPacketId, e, data)) > 2 * MTU)
          && (|data| <= SAFE_PAYLOAD ==> r.Sent?)
          && (r.Sent? ==> txLine == old(txLine) + EncodeFrame(Packet(host, lastSentPacketId, e, data)))
    {
      r := Send(Endpoints(lastDstIp, lastRemoteIp, lastDstPort, lastRemotePort), data);
    }

    // ---------- receiving ----------

    method RecvDecodeSlip() returns (len: nat)
      requires Valid()
      modifies rxBuffer, this`rxLine
      ensures len <= MTU
      ensures Receive(old(rxLine), false, []) == Received(rxBuffer[..len], rxLine)
    {
      len := 0;
      var started := false;
      assert rxBuffer[..0] == [];
      while rxLine != []
        invariant len <= MTU && (!started ==> len == 0)
        invariant Receive(old(rxLine), false, []) == Receive(rxLine, started, rxBuffer[..len])
        decreases |rxLine|
      {
        var rcvByte := rxLine[0];
        rxLine := rxLine[1..];
        if rcvByte == END {
          if started && len > 0 {
            return;
          }
          started := true;
          continue;
        }
        if !started {
          continue;
        }
        if len == rxBuffer.Length {
          assert rxBuffer[..0] == [];
          return 0;
        }
        if rcvByte == ESC {
          if rxLine == [] {
            return;
          }
          rcvByte := rxLine[0];
          rxLine := rxLine[1..];
          ghost var acc := rxBuffer[..len];
          if rcvByte == ESC_END {
            rxBuffer[len] := END;
            len := len + 1;
            assert rxBuffer[..len] == acc + [END];
          } else if rcvByte == ESC_ESC {
            rxBuffer[len] := ESC;
            len := len + 1;
            assert rxBuffer[..len] == acc + [ESC];
          } else {
            assert rxBuffer[..len] == acc + [];
          }
        } else {
          ghost var acc := rxBuffer[..len];
          rxBuffer[len] := rcvByte;
          len := len + 1;
          assert rxBuffer[..len] == acc + [rcvByte];
        }
      }
    }

    /** Notes the addresses as soon as the IP header is accepted; the payload only if the UDP length is. */
    method ParseUdpPacket(len: nat) returns (dataLen: uint16)
      requires Valid() && len <= MTU
      modifies this`lastRemoteIp, this`lastRemotePort, this`lastDstIp, this`lastDstPort
      modifies this`lastRxData, this`lastRxDataLen
      ensures IpAccepted(host, rxBuffer[..len]) ==>
        Endpoints(lastRemoteIp, lastDstIp, lastRemotePort, lastDstPort) == EndpointsOf(rxBuffer[..len])
      ensures !IpAccepted(host, rxBuffer[..len]) ==>
        Endpoints(lastRemoteIp, lastDstIp, lastRemotePort, lastDstPort)
        == old(Endpoints(lastRemoteIp, lastDstIp, lastRemotePort, lastDstPort))
      ensures UdpAccepted(host, rxBuffer[..len]) ==>
        && dataLen == lastRxDataLen && lastRxData + dataLen <= len
        && rxBuffer[lastRxData..lastRxData + dataLen] == PayloadOf(host, rxBuffer[..len])
      ensures !UdpAccepted(host, rxBuffer[..len]) ==>
        dataLen == 0 && lastRxData == old(lastRxData) && lastRxDataLen == old(lastRxDataLen)
    {
      dataLen := 0;
      if len < HEADERS { return; }
      var p := rxBuffer[..len];
      if p[0] / 0x10 != 4 { return; }
      if p[0] % 0x10 != 5 { return; }
      var csum := InternetChecksum(host, p, IP_HEADER);
      if csum != 0 { return; }
      if p[9] != PROTOCOL_UDP { return; }
      if len < FromBig16(p, 2) { return; }
      lastRemoteIp, lastDstIp := FromBig32(p, 12), FromBig32(p, 16);
      lastRemotePort, lastDstPort := FromBig16(p, 20), FromBig16(p, 22);
      var udpLen := FromBig16(p, 24);
      if udpLen < UDP_HEADER { return; }
      if len < IP_HEADER + udpLen { return; }
      dataLen := udpLen - UDP_HEADER;
      lastRxData, lastRxDataLen := HEADERS, dataLen;
      assert forall i | 0 <= i < len :: p[i] == rxBuffer[i];
      assert p[HEADERS..IP_HEADER + udpLen] == rxBuffer[HEADERS..HEADERS + dataLen];
    }

    /** One datagram off the line: 0 stands for a timeout, a rejected datagram and an empty payload alike. */
    method ReceiveUdp() returns (dataLen: uint16)
      requires Valid()
      modifies rxBuffer, this`rxLine
      modifies this`lastRemoteIp, this`lastRemotePort, this`lastDstIp, this`lastDstPort
      modifies this`lastRxData, this`lastRxDataLen
      ensures rxLine == Receive(old(rxLine), false, []).rest
      ensures var p := Receive(old(rxLine), false, []).packet;
        if UdpAccepted(host, p) then
          && dataLen == |PayloadOf(host, p)| && lastRxData + dataLen <= rxBuffer.Length
          && rxBuffer[lastRxData..lastRxData + dataLen] == PayloadOf(host, p)
          && Endpoints(lastRemoteIp, lastDstIp, lastRemotePort, lastDstPort) == EndpointsOf(p)
        else dataLen == 0
    {
      var len := RecvDecodeSlip();
      if len == 0 {
        return 0;
      }
      dataLen := ParseUdpPacket(len);
    }
  }

  /** Two ends of one line: every datagram of 1 to MAX_PAYLOAD octets arrives with its addresses, ports and payload,
      whatever the byte orders of the two hosts and whatever END-free octets the line held before it. */
  method Loopback(a: SlipUdpSerial, b: SlipUdpSerial, e: Endpoints, data: seq<byte>) returns (n: uint16)
    requires a != b && a.Valid() && b.Valid() && a.txBuffer != b.rxBuffer && a.txBuffer != b.txBuffer
    requires 1 <= |data| <= 1472 && END !in b.rxLine && a.txLine == []
    modifies a, b, a.txBuffer, b.rxBuffer
    ensures n == |data| && b.rxLine == []
    ensures b.lastRxData + n <= b.rxBuffer.Length && b.rxBuffer[b.lastRxData..b.lastRxData + n] == data
    ensures Endpoints(b.lastRemoteIp, b.lastDstIp, b.lastRemotePort, b.lastDstPort) == e
  {
    var sent := a.Send(e, data);
    ghost var junk, p := b.rxLine, Packet(a.host, a.lastSentPacketId, e, data);
    Empty(EncodeFrame(p));
    b.rxLine := b.rxLine + a.txLine;
    SkipTo(junk, EncodeFrame(p));
    ReceiveFrame(p, [], false);
    PacketRoundTrip(a.host, b.host, a.lastSentPacketId, e, data);
    n := b.ReceiveUdp();
  }
}
