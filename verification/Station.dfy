/** The client's receive state as its interrupt handler and its waiting loop change it in place. */
module Station {
  import opened Bytes
  import opened DriveProto
  import opened DriveOctets
  import opened ReplyCaching
  import UdpPacket
  import opened OnesComplement
  import opened Protocol

  class Station {
    ghost var calls: seq<Call>
    ghost var active: bool
    ghost var results: map<nat, seq<byte>>
    const local: Address
    var lastSentSequence: byte
    var lastRemote: Address
    var recvDataLen: nat // 0: the buffer is free
    var recvBuff: Datagram
    var serverResponseReceived: bool

    ghost predicate Valid()
      reads this
    {
      calls != [] ==> lastRemote == calls[|calls| - 1].server
    }

    /** The state as the protocol sees it. */
    ghost function View(): (r: Client)
      reads this
    {
      Client(calls, lastSentSequence, active, if recvDataLen == 0 then Free else Full(recvBuff, recvDataLen),
             serverResponseReceived, results)
    }

    method BeginCall(s: Address, drive: byte, func: byte, extended: bool, checksums: bool, data: seq<byte>)
      returns (request: seq<byte>)
      requires Valid() && HEADER + |data| <= MAX_REQUEST
      modifies this
      ensures Valid() && View() == Begun(old(View()), s, drive, func, extended, checksums, data)
      ensures calls[|calls| - 1] == Call(s, request)
    {
      lastRemote := s;
      lastSentSequence := (lastSentSequence + 1) % 0x100;
      request := RequestPacket(lastSentSequence, drive, func, extended, checksums, data);
      serverResponseReceived := false;
      calls, active := calls + [Call(s, request)], true;
    }

    constructor (local: Address)
      ensures Valid() && View() == IDLE && this.local == local
    {
      this.local := local;
      calls, active, results := [], false, map[];
      lastSentSequence, recvDataLen, serverResponseReceived := 0, 0, false;
      lastRemote, recvBuff := local, Reply(local, local, 0, []);
    }

    /** First upcall: only a free buffer is offered, and only to a frame that fits it. Second upcall: handle_ipv4 keeps
        the frame or frees the buffer; the IP header's checksum is looked at if the drive asks for it. */
    method FrameReceived(d: Datagram, frameLen: nat, ipHeader: seq<byte>, verifyHeader: bool)
      requires Valid() && calls != [] && d.Reply? && frameLen > 0 && |ipHeader| == 20
      modifies this
      ensures Valid() && View() ==
        if ipHeader[9] != UdpPacket.PROTOCOL_UDP || d.client != local
           || (verifyHeader && Checksum(LittleEndian, ipHeader) != 0) then old(View())
        else Arrived(old(View()), d, frameLen)
      ensures recvDataLen == if old(recvDataLen) == 0 && 50 <= frameLen <= 1518 && ipHeader[9] == 17
          && d.client == local && d.server == calls[|calls| - 1].server && d.packet != [] && d.packet[0] == 1
          && (verifyHeader ==> Checksum(LittleEndian, ipHeader) == 0) then frameLen else old(recvDataLen)
    {
      if frameLen > MAX_FRAMESIZE {
        return;
      }
      if recvDataLen != 0 {
        return;
      }
      recvBuff, recvDataLen := d, frameLen;
      if ipHeader[9] != UdpPacket.PROTOCOL_UDP || d.client != local {
        recvDataLen := 0;
        return;
      }
      if d.server != lastRemote {
        recvDataLen := 0;
        return;
      }
      if recvDataLen < FRAME_HEADERS + HEADER {
        recvDataLen := 0;
        return;
      }
      if d.packet == [] || d.packet[0] != VERSION {
        recvDataLen := 0;
        return;
      }
      if verifyHeader {
        var csum := InternetChecksum(LittleEndian, ipHeader, 20);
        assert ipHeader[..20] == ipHeader;
        if csum != 0 {
          recvDataLen := 0;
          return;
        }
      }
      serverResponseReceived := true;
    }

    /** The waiting loop's checks of the buffer's contents, in its order. */
    method Validate(bytes: seq<byte>, frameLen: nat, verify: bool) returns (ok: bool)
      requires |bytes| >= frameLen >= HEADER
      ensures ok <==> ClientAccepts(frameLen, bytes, lastSentSequence, verify)
      ensures ok <==>
        var len := Word(bytes[1], bytes[2]) % 0x800;
        && 8 <= len <= frameLen && bytes[5] == lastSentSequence
        && if bytes[2] >= 0x80 then verify ==> Bsd(0, bytes[5..len]) == Word(bytes[3], bytes[4])
           else bytes[3] == 0x24 && bytes[4] == 0x95
    {
      ClientAcceptsOctets(frameLen, bytes, lastSentSequence, verify);
      var len := Length(bytes);
      if len > frameLen { return false; }
      if len < HEADER { return false; }
      if Sequence(bytes) != lastSentSequence { return false; }
      if HasChecksum(bytes) {
        if verify {
          var sum := BsdChecksum(bytes[5..len], len - 5);
          assert bytes[5..len][..len - 5] == bytes[5..len];
          if sum != FromLittle16(bytes, 3) { return false; }
        }
      } else if FromLittle16(bytes, 3) != MAGIC { return false; }
      return true;
    }

    /** One turn of send_request's waiting loop; `junk` is what lies in the receive buffer behind the packet. */
    method Poll(junk: seq<byte>, verify: bool) returns (accepted: bool)
      requires Valid() && active && calls != [] && serverResponseReceived && HoldsFrame(View().mailbox, junk)
      modifies this
      ensures Valid() && View() == Polled(old(View()), junk, verify)
      ensures accepted <==> !active
    {
      hide ClientAccepts;
      accepted := recvDataLen != 0;
      if accepted {
        accepted := Validate(recvBuff.packet + junk, recvDataLen, verify);
      }
      recvDataLen := 0;
      if accepted {
        active := false;
        results := results[|calls| := recvBuff.packet];
      }
    }

    /** The end of every request: `finish` frees the receive buffer. */
    method Finish()
      requires Valid()
      modifies this
      ensures Valid() && View() == old(View()).(active := false, mailbox := Free)
    {
      active := false;
      recvDataLen := 0;
    }
  }
}
