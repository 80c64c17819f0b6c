/** The client's file requests (READ, WRITE, CREATE and EXTENDED OPEN of handle_request_for_our_drive) with the
    read-ahead buffer all drives share, against the plain files of the servers. */
module FileIo {
  import opened Bytes
  import opened Bits
  import opened Seqs
  import opened ReadAhead
  import opened RemoteFile

  const FILE_NOT_FOUND: uint16 := 2
  const ACCESS_DENIED: uint16 := 5

  const MIN_MTU := 560
  const MAX_MTU := 1500

  /** IP, UDP and protocol headers: what a packet holds besides the request's or reply's data. */
  const PROTO_OVERHEAD := 36
  const WRITE_ARGS := 6
  const READ_ARGS := 8

  // ---------- the servers, seen through send_request ----------

  /** NetworkError: no reply came, and the request may or may not have been executed. Refused: AX was not 0. */
  datatype ReadReply = ReadLost | ReadRefused(ax: uint16) | Data(data: seq<byte>)
  datatype WriteReply = WriteLost | WriteRefused(ax: uint16) | Written(written: uint16)
  datatype OpenReply = OpenLost | OpenRefused(ax: uint16) | Opened(id: FileId, size: uint32, resultCode: uint16)

  const RESULT_OPENED: uint16 := 1
  const RESULT_CREATED: uint16 := 2
  const RESULT_TRUNCATED: uint16 := 3

  datatype OpenKind = Open | Create | ExtendedOpen

  /** What executing an open request does: nothing to the file, or empties it (creating it if it is not there). */
  datatype OpenEffect = Untouched | Emptied(id: FileId)

  /** What a READ_FILE of len octets yields. */
  ghost predicate ReadSent(files: Files, id: FileId, offset: nat, len: nat, r: ReadReply) {
    && (r.ReadRefused? ==> r.ax != 0)
    && (r.Data? ==> id in files && r.data == ReadAt(files[id], offset, len))
  }

  /** What a WRITE_FILE does, of which the file took `applied` octets: all that it acknowledges and nothing else, or
      something without acknowledging it, or nothing. */
  ghost predicate WriteSent(before: Files, id: FileId, offset: nat, data: seq<byte>, r: WriteReply, applied: nat,
          after: Files)
  {
    && applied <= |data|
    && (r.Written? ==> id in before && r.written == applied)
    && (r.WriteRefused? ==> r.ax != 0 && applied == 0 && after == before)
    && (id !in before ==> applied == 0 && after == before)
    && (id in before && data != [] ==> after == before[id := WriteAt(before[id], offset, data[..applied])])
    && (r.Written? && data == [] ==> after == before[id := Resize(before[id], offset)])
    && (r.WriteLost? && data == [] ==>
          after == before || (id in before && after == before[id := Resize(before[id], offset)]))
  }

  class Servers {
    const mtu: nat
    var files: Files

    // the replies that the client got last
    ghost var lastRead: ReadReply
    ghost var lastWrite: WriteReply
    ghost var lastOpen: OpenReply

    constructor (mtu: nat, files: Files)
      requires MIN_MTU <= mtu <= MAX_MTU
      ensures this.mtu == mtu && this.files == files
    {
      this.mtu, this.files := mtu, files;
      lastRead, lastWrite, lastOpen := ReadLost, WriteLost, OpenLost;
    }

    /** READ_FILE of len octets: both packets have to fit the interface's MTU. */
    method SendRead(id: FileId, offset: uint32, len: nat) returns (r: ReadReply)
      requires PROTO_OVERHEAD + READ_ARGS <= mtu && PROTO_OVERHEAD + len <= mtu
      modifies this`lastRead
      ensures lastRead == r && ReadSent(files, id, offset, len, r)
    {
      if * {
        r := ReadLost;
      } else if id !in files {
        r := ReadRefused(ACCESS_DENIED);
      } else if * {
        var ax: uint16 :| ax != 0;
        r := ReadRefused(ax);
      } else {
        r := Data(ReadAt(files[id], offset, len));
      }
      lastRead := r;
    }

    /** WRITE_FILE: no octets mean "resize"; a full disk may take only some of them. */
    method SendWrite(id: FileId, offset: uint32, data: seq<byte>) returns (r: WriteReply, ghost applied: nat)
      requires PROTO_OVERHEAD + WRITE_ARGS + |data| <= mtu <= MAX_MTU
      modifies this`files, this`lastWrite
      ensures lastWrite == r && WriteSent(old(files), id, offset, data, r, applied, files)
    {
      applied, r := 0, WriteLost;
      if id !in files {
        if * { r := WriteRefused(ACCESS_DENIED); }
      } else {
        assert files == files[id := WriteAt(files[id], offset, data[..0])];
        if * {
          if * { var ax: uint16 :| ax != 0; r := WriteRefused(ax); }
        } else {
          var written: nat :| written <= |data|;
          applied := written;
          var f := files[id];
          files := files[id := if data == [] then Resize(f, offset) else WriteAt(f, offset, data[..written])];
          if * { r := Written(written); }
        }
      }
      lastWrite := r;
    }

    /** OPEN, CREATE and EXTENDED_OPEN_CREATE. */
    method SendOpen(kind: OpenKind, id: FileId) returns (r: OpenReply, ghost effect: OpenEffect)
      modifies this`files, this`lastOpen
      ensures lastOpen == r
      ensures effect.Untouched? ==> files == old(files)
      ensures effect.Emptied? ==> effect.id == id && files == old(files)[id := []]
      ensures r.Opened? ==> r.id == id && id in files && r.size == |files[id]| % 0x1_0000_0000
      ensures r.Opened? && kind.Create? ==> effect.Emptied?
      ensures r.Opened? && kind.ExtendedOpen? ==>
        && r.resultCode in {RESULT_OPENED, RESULT_CREATED, RESULT_TRUNCATED}
        && (r.resultCode == RESULT_OPENED ==> effect.Untouched?)
        && (r.resultCode == RESULT_CREATED ==> effect.Emptied? && id !in old(files))
        && (r.resultCode == RESULT_TRUNCATED ==> effect.Emptied? && id in old(files))
      ensures kind.Open? ==> effect.Untouched?
      ensures r.OpenRefused? ==> r.ax != 0
      ensures r.OpenRefused? ==> effect.Untouched? || id !in old(files)
    {
      var existed := id in files;
      effect, r := Untouched, OpenLost;
      var code := RESULT_OPENED;
      var refused: bool, emptied: bool, lost: bool := *, *, *;
      if refused {
        var ax: uint16 :| ax != 0;
        r := OpenRefused(ax);
      } else if kind.Open? || (kind.ExtendedOpen? && !emptied) {
        r := if existed then Opened(id, |files[id]| % 0x1_0000_0000, code) else OpenRefused(FILE_NOT_FOUND);
      } else {
        files := files[id := []];
        effect := Emptied(id);
        code := if kind.Create? then 0 else if existed then RESULT_TRUNCATED else RESULT_CREATED;
        r := Opened(id, 0, code);
        if !existed {
          if * { r := OpenRefused(FILE_NOT_FOUND); }
        }
      }
      if lost { r := OpenLost; }
      lastOpen := r;
    }
  }

  // ---------- the client ----------

  class Sft {
    var openMode: uint16
    var startCluster: uint16
    var filePos: uint32
    var fileSize: uint32
  }

  /** r->w.ax with the carry flag (0: success), and r->w.cx. */
  datatype WriteResult = WriteResult(error: uint16, cx: uint16)

  predicate ReadLengthOk(m: byte) {
    m in {0, 1, 2, 4, 8, 16, 32, 64}
  }

  class Redirector {
    const servers: Servers
    const minServerReadLen: seq<byte> // per local drive; 0 switches read-ahead off
    const bufData: array<byte>
    var bufTimestamp: uint32
    var bufOffset: uint32
    var bufId: FileId
    var bufValid: nat

    ghost predicate Valid()
      reads this, servers
    {
      && |minServerReadLen| == 26 && (forall d | 0 <= d < 26 :: ReadLengthOk(minServerReadLen[d]))
      && bufValid <= bufData.Length == FILE_BUFFER_SIZE
      && MIN_MTU <= servers.mtu <= MAX_MTU
      && BufferShape()
    }

    /** The buffer is aligned, and no longer than its drive's read length. */
    ghost predicate BufferShape()
      reads this
      requires |minServerReadLen| == 26
    {
      bufValid > 0 ==>
        && bufId.drive < 26
        && var m := minServerReadLen[bufId.drive];
        && bufValid <= m && IsAligned(bufOffset, m)
    }

    ghost function Buf(): (r: Buffer)
      reads this, bufData
      requires bufValid <= bufData.Length
    {
      Buffer(bufId, bufOffset, bufTimestamp, bufData[..bufValid])
    }

    constructor (servers: Servers, minServerReadLen: seq<byte>)
      requires |minServerReadLen| == 26 && (forall d | 0 <= d < 26 :: ReadLengthOk(minServerReadLen[d]))
      requires MIN_MTU <= servers.mtu <= MAX_MTU
      ensures Valid() && Buf().data == [] && fresh(bufData)
      ensures this.servers == servers && this.minServerReadLen == minServerReadLen
    {
      this.servers, this.minServerReadLen := servers, minServerReadLen;
      bufData := new byte[FILE_BUFFER_SIZE];
      bufId := FileId(0, 0);
      bufTimestamp, bufOffset, bufValid := 0, 0, 0;
    }

    /** The start of every request. */
    method Enter(now: uint32)
      requires Valid()
      modifies this`bufValid
      ensures Valid() && Buf() == Expired(old(Buf()), now)
      ensures Buf().data == if (now - old(bufTimestamp)) % 0x1_0000_0000 > 90 then [] else old(Buf().data)
    {
      if bufValid > 0 && (now - bufTimestamp) % 0x1_0000_0000 > MAX_TICKS {
        bufValid := 0;
      }
    }

    // ---------- READ ----------

    /** The error of a READ is that of the last reply, and "file not found" if there was none. */
    ghost predicate Failure(error: uint16)
      reads servers
    {
      match servers.lastRead
      case ReadLost => error == FILE_NOT_FOUND
      case ReadRefused(ax) => error == ax
      case Data(_) => error == 0
    }

    /** What the buffer holds of the cx octets from pos on: none, some or all of them. */
    method TakeBuffered(id: FileId, pos: uint32, cx: uint16) returns (taken: seq<byte>)
      requires Valid() && id.drive < 26 && cx < minServerReadLen[id.drive]
      ensures taken == Taken(Buf(), id, pos, cx, minServerReadLen[id.drive])
    {
      hide IsAligned;
      taken := [];
      var bufferOffset := AlignDown(pos, minServerReadLen[id.drive]);
      if bufValid > 0 && bufId == id && bufferOffset == bufOffset {
        var dataOffset := pos - bufferOffset;
        if dataOffset < bufValid {
          var len := Min(cx, bufValid - dataOffset);
          taken := bufData[..bufValid][dataOffset..dataOffset + len];
        }
      }
    }

    /** Remembers the aligned end of what was read from readOffset on. */
    method Refill(id: FileId, bufferOffset: uint32, readOffset: uint32, reply: seq<byte>, now: uint32)
      requires Valid() && id.drive < 26
      requires var m := minServerReadLen[id.drive];
        IsAligned(bufferOffset, m) && readOffset <= bufferOffset && readOffset + |reply| <= bufferOffset + m
      modifies this, bufData
      ensures Valid()
      ensures var skip := bufferOffset - readOffset;
        Buf() == if |reply| > skip then Buffer(id, bufferOffset, now, reply[skip..]) else old(Buf())
    {
      if readOffset + |reply| > bufferOffset {
        bufId, bufOffset, bufTimestamp := id, bufferOffset, now;
        bufValid := readOffset + |reply| - bufferOffset;
        var skip := bufferOffset - readOffset;
        for i := 0 to bufValid
          modifies bufData
          invariant forall j | 0 <= j < i :: bufData[j] == reply[skip + j]
        {
          bufData[i] := reply[skip + i];
        }
        assert bufData[..bufValid] == reply[skip..];
      }
    }

    /** Which octets to ask for: up to the end of the aligned block that holds position pos + cx. */
    method PlanRead(pos: uint32, cx: nat, taken: nat, m: nat)
      returns (bufferOffset: uint32, readOffset: uint32, bytesToRead: nat)
      requires taken < cx < m <= FILE_BUFFER_SIZE && pos + cx + FILE_BUFFER_SIZE < 0x1_0000_0000
      ensures bufferOffset == AlignDown(pos + cx, m) && readOffset <= bufferOffset && readOffset <= pos + taken
      ensures readOffset + bytesToRead == bufferOffset + m && pos + cx < readOffset + bytesToRead
      ensures readOffset == Min(bufferOffset, pos + taken) && bytesToRead < 2 * FILE_BUFFER_SIZE
    {
      bufferOffset := AlignDown(pos + cx, m);
      bytesToRead, readOffset := m, bufferOffset;
      if bufferOffset > pos + taken {
        bytesToRead := bytesToRead + (bufferOffset - (pos + taken));
        readOffset := pos + taken;
      }
    }

    /** Gets from the server what the buffer did not hold of a small read, and what follows it in the aligned block. */
    method ReadRest(id: FileId, pos: uint32, cx: nat, taken: nat, now: uint32) returns (error: uint16, more: seq<byte>)
      requires Valid() && id.drive < 26 && taken < cx < minServerReadLen[id.drive]
      requires pos + cx + FILE_BUFFER_SIZE < 0x1_0000_0000
      modifies this, bufData, servers`lastRead
      ensures Valid() && Failure(error)
      ensures if error == 0 then
          && id in servers.files && more == ReadAt(servers.files[id], pos + taken, cx - taken)
          && Buf() == Refilled(old(Buf()), servers.files[id], id, pos + cx, minServerReadLen[id.drive], now)
        else Buf() == old(Buf())
    {
      hide ReadAt; hide IsAligned; hide AlignDown; hide BufferShape; hide Refilled;
      more := [];
      var bufferOffset, readOffset, bytesToRead := PlanRead(pos, cx, taken, minServerReadLen[id.drive]);
      var reply := servers.SendRead(id, readOffset, bytesToRead);
      match reply
      case ReadLost => error := FILE_NOT_FOUND;
      case ReadRefused(ax) => error := ax;
      case Data(data) =>
        error := 0;
        more := UseReply(id, pos + cx, pos + taken, cx - taken, bufferOffset, readOffset, bytesToRead, data, now);
    }

    /** Refills the buffer from a reply and takes from it the n octets at pos. */
    method UseReply(id: FileId, end: uint32, pos: uint32, n: nat, bufferOffset: uint32, readOffset: uint32, len: nat,
            data: seq<byte>, now: uint32)
      returns (more: seq<byte>)
      requires Valid() && id.drive < 26 && id in servers.files && minServerReadLen[id.drive] > 0
      requires bufferOffset == AlignDown(end, minServerReadLen[id.drive]) && readOffset <= bufferOffset
      requires readOffset + len == bufferOffset + minServerReadLen[id.drive]
      requires readOffset <= pos && pos + n <= readOffset + len
      requires data == ReadAt(servers.files[id], readOffset, len)
      modifies this, bufData
      ensures Valid() && more == ReadAt(servers.files[id], pos, n)
      ensures Buf() == Refilled(old(Buf()), servers.files[id], id, end, minServerReadLen[id.drive], now)
    {
      hide ReadAt; hide IsAligned; hide AlignDown; hide BufferShape; hide Refilled;
      RefilledFrom(Buf(), servers.files[id], id, end, minServerReadLen[id.drive], now, readOffset, len);
      RestOfRead(servers.files[id], readOffset, len, pos, n);
      Refill(id, bufferOffset, readOffset, data, now);
      var skip := pos - readOffset;
      more := if |data| > skip then data[skip..Min(|data|, skip + n)] else [];
    }

    method ReadBuffered(id: FileId, sft: Sft, cx: uint16, now: uint32) returns (r: ReadResult)
      requires Valid() && id.drive < 26 && 0 < cx < minServerReadLen[id.drive]
      requires sft.filePos + cx + FILE_BUFFER_SIZE < 0x1_0000_0000
      modifies this, bufData, sft`filePos, servers`lastRead
      ensures Valid()
      ensures r.error != 0 ==>
        Failure(r.error) && r.cx == cx
        && r.dta == Taken(old(Buf()), id, old(sft.filePos), cx, minServerReadLen[id.drive])
      ensures ReadDone(old(Buf()), servers.files, id, old(sft.filePos), cx, minServerReadLen[id.drive], now, r,
                       sft.filePos, Buf())
    {
      hide ReadAt; hide BufferShape; hide Taken; hide Refilled;
      var pos := sft.filePos;
      var taken := TakeBuffered(id, pos, cx);
      if |taken| == cx {
        sft.filePos := pos + cx;
        return ReadResult(0, cx, taken);
      }
      var error, more := ReadRest(id, pos, cx, |taken|, now);
      if error != 0 {
        return ReadResult(error, cx, taken);
      }
      sft.filePos := pos + |taken| + |more|;
      r := ReadResult(0, |taken| + |more|, taken + more);
    }

    /** Large reads go past the buffer, in pieces that fit a packet. */
    method ReadBypass(id: FileId, sft: Sft, cx: uint16) returns (r: ReadResult)
      requires Valid() && 0 < cx && sft.filePos + cx < 0x1_0000_0000
      modifies sft`filePos, servers`lastRead
      ensures r.error != 0 ==>
        Failure(r.error) && r.cx == cx
        && (r.dta != [] ==>
              id in servers.files && r.dta == ReadAt(servers.files[id], old(sft.filePos), |r.dta|))
      ensures if r.error == 0 then
          && id in servers.files && r.dta == ReadAt(servers.files[id], old(sft.filePos), cx)
          && r.cx == |r.dta| && sft.filePos == old(sft.filePos) + |r.dta|
        else sft.filePos == old(sft.filePos)
    {
      hide ReadAt;
      var pos := sft.filePos;
      var maxChunkLen := servers.mtu - PROTO_OVERHEAD;
      var total: seq<byte> := [];
      while true
        modifies servers`lastRead, sft`filePos
        invariant |total| < cx && sft.filePos == pos
        invariant total != [] ==> id in servers.files && total == ReadAt(servers.files[id], pos, |total|)
        decreases cx - |total|
      {
        var chunkLen := Min(cx - |total|, maxChunkLen);
        var reply := servers.SendRead(id, pos + |total|, chunkLen);
        match reply
        case ReadLost => return ReadResult(FILE_NOT_FOUND, cx, total);
        case ReadRefused(ax) => return ReadResult(ax, cx, total);
        case Data(data) =>
          NextChunk(servers.files[id], pos, total, chunkLen, cx);
          total := total + data;
          if |data| < chunkLen || |total| == cx {
            sft.filePos := pos + |total|;
            return ReadResult(0, |total|, total);
          }
      }
    }

    method ReadFile(drive: byte, sft: Sft, cx: uint16, now: uint32) returns (r: ReadResult)
      requires Valid() && drive < 26
      requires sft.filePos + cx + FILE_BUFFER_SIZE < 0x1_0000_0000
      modifies this, bufData, sft`filePos, servers`lastRead
      ensures Valid()
      ensures sft.openMode % 2 == 0 && r.error != 0 ==> r.cx == cx
      ensures sft.openMode % 2 == 0 && r.error != 0 ==>
        match servers.lastRead
        case ReadLost => r.error == 2
        case ReadRefused(ax) => r.error == ax
        case Data(_) => false
      ensures sft.openMode % 2 == 1 || cx == 0 ==>
        && r == (if sft.openMode % 2 == 1 then ReadResult(5, cx, []) else ReadResult(0, 0, []))
        && sft.filePos == old(sft.filePos) && Buf() == old(Buf())
      ensures sft.openMode % 2 == 0 && cx > 0 ==>
        ReadDone(old(Buf()), servers.files, FileId(drive, sft.startCluster), old(sft.filePos), cx,
                 minServerReadLen[drive], now, r, sft.filePos, Buf())
    {
      hide ReadAt; hide Refilled; hide BufferShape;
      if sft.openMode % 2 == 1 {
        return ReadResult(ACCESS_DENIED, cx, []);
      }
      if cx == 0 {
        return ReadResult(0, 0, []);
      }
      if cx < minServerReadLen[drive] {
        r := ReadBuffered(FileId(drive, sft.startCluster), sft, cx, now);
      } else {
        r := ReadBypass(FileId(drive, sft.startCluster), sft, cx);
        Empty(r.dta);
      }
    }

    // ---------- WRITE ----------

    /** Drops the buffer if the write would change what it holds. */
    method InvalidateFor(id: FileId, pos: uint32, cx: nat)
      requires Valid()
      modifies this`bufValid
      ensures Valid() && Buf() == Dropped(old(Buf()), Touches(old(Buf()), id, pos, cx))
      ensures Buf().data ==
        if bufId == id && pos < bufOffset + old(bufValid) && (cx == 0 || pos + cx > bufOffset) then []
        else old(Buf().data)
    {
      if bufValid > 0 && bufId == id {
        if pos < bufOffset + bufValid {
          if cx == 0 {
            bufValid := 0;
          } else if pos + cx > bufOffset {
            bufValid := 0;
          }
        }
      }
    }

    /** What the servers hold once the first n octets of a write at pos have been applied. */
    ghost predicate WrittenSoFar(was: Files, id: FileId, pos: nat, dta: seq<byte>, n: nat)
      requires n <= |dta|
      reads servers
    {
      servers.files == if id in was then was[id := WriteAt(was[id], pos, dta[..n])] else was
    }

    lemma NothingWritten(id: FileId, pos: nat, dta: seq<byte>)
      ensures WrittenSoFar(servers.files, id, pos, dta, 0) && ResizedTo(servers.files, id, pos, false)
    {
      if id in servers.files {
        assert servers.files[id := servers.files[id]] == servers.files;
      }
    }

    /** What the servers hold after a write of no octets that may have been executed, or certainly was. */
    ghost predicate ResizedTo(was: Files, id: FileId, pos: nat, certainly: bool)
      reads servers
    {
      (!certainly && servers.files == was) || (id in was && servers.files == was[id := Resize(was[id], pos)])
    }

    method WriteChunk(id: FileId, pos: uint32, dta: seq<byte>, total: nat, chunkLen: nat, ghost was: Files)
      returns (reply: WriteReply, ghost n: nat)
      requires Valid() && total + chunkLen <= |dta| && pos + |dta| < 0x1_0000_0000
      requires PROTO_OVERHEAD + WRITE_ARGS + chunkLen <= servers.mtu && (chunkLen == 0 ==> dta == [])
      requires WrittenSoFar(was, id, pos, dta, total)
      modifies servers`files, servers`lastWrite
      ensures n <= chunkLen && servers.lastWrite == reply
      ensures reply.Written? ==> id in was && reply.written == n
      ensures reply.WriteRefused? ==> reply.ax != 0 && n == 0
      ensures dta != [] ==> WrittenSoFar(was, id, pos, dta, total + n)
      ensures dta == [] ==> ResizedTo(was, id, pos, reply.Written?)
      ensures dta == [] && reply.WriteRefused? ==> servers.files == was
    {
      reply, n := servers.SendWrite(id, pos + total, dta[total..total + chunkLen]);
      if id in was {
        ChunkWritten(was[id], pos, dta, total, chunkLen, n);
        if dta == [] { assert was[id := was[id]] == was; }
      }
    }

    /** The loop over the chunks of a write; a write of no octets is one chunk. */
    method WriteChunks(id: FileId, sft: Sft, dta: seq<byte>)
      returns (r: WriteResult, ghost applied: nat, ghost acked: nat)
      requires Valid() && |dta| < 0x1_0000 && sft.filePos + |dta| < 0x1_0000_0000
      modifies servers`files, servers`lastWrite, sft`filePos, sft`fileSize
      ensures acked <= applied <= |dta| && sft.filePos == old(sft.filePos) + acked
      ensures dta != [] ==> WrittenSoFar(old(servers.files), id, old(sft.filePos), dta, applied)
      ensures dta == [] ==> ResizedTo(old(servers.files), id, old(sft.filePos), r.error == 0)
      ensures r.error == 0 ==> r.cx == acked == applied && id in old(servers.files)
      ensures r.error != 0 ==> r.cx == if acked == 0 then |dta| else acked
      ensures r.error != 0 ==>
        if servers.lastWrite.WriteLost? then r.error == FILE_NOT_FOUND
        else servers.lastWrite.WriteRefused? && r.error == servers.lastWrite.ax && acked == applied
      ensures sft.fileSize == old(sft.fileSize) || sft.fileSize == sft.filePos > old(sft.fileSize)
      ensures r.error == 0 ==> sft.filePos <= sft.fileSize
    {
      hide BufferShape; hide WrittenSoFar; hide ResizedTo;
      ghost var was, size := servers.files, sft.fileSize;
      var start := sft.filePos;
      applied, acked := 0, 0;
      NothingWritten(id, start, dta);
      var maxChunkLen := servers.mtu - PROTO_OVERHEAD - WRITE_ARGS;
      var total: nat, cx: uint16 := 0, |dta|;
      while true
        invariant total == acked == applied <= |dta| && (dta != [] ==> total < |dta|)
        invariant cx == if total == 0 then |dta| else total
        invariant WrittenSoFar(was, id, start, dta, total)
        invariant sft.filePos == start + total
        invariant sft.fileSize == size || sft.fileSize == sft.filePos > size
        modifies servers`files, servers`lastWrite, sft`filePos, sft`fileSize
        decreases |dta| - total
      {
        var chunkLen := Min(|dta| - total, maxChunkLen);
        var reply;
        ghost var n;
        reply, n := WriteChunk(id, start, dta, total, chunkLen, was);
        applied := total + n;
        match reply
        case WriteLost => return WriteResult(FILE_NOT_FOUND, cx), applied, acked;
        case WriteRefused(ax) => return WriteResult(ax, cx), applied, acked;
        case Written(w) =>
          total := total + w;
          acked, cx := total, total;
          sft.filePos := sft.filePos + w;
          if sft.filePos > sft.fileSize {
            sft.fileSize := sft.filePos;
          }
          if w != chunkLen || total == |dta| {
            return WriteResult(0, cx), applied, acked;
          }
      }
    }

    method WriteFile(drive: byte, sft: Sft, dta: seq<byte>)
      returns (r: WriteResult, ghost applied: nat, ghost acked: nat)
      requires Valid() && drive < 26 && |dta| < 0x1_0000
      requires sft.filePos + |dta| < 0x1_0000_0000
      modifies this`bufValid, servers`files, servers`lastWrite, sft`filePos, sft`fileSize
      ensures Valid()
      ensures sft.openMode % 4 != 0 && r.error != 0 ==> r.cx == if acked == 0 then |dta| else acked
      ensures sft.openMode % 4 != 0 && r.error != 0 ==>
        if servers.lastWrite.WriteLost? then r.error == 2
        else servers.lastWrite.WriteRefused? && r.error == servers.lastWrite.ax
      ensures Buf() == Dropped(old(Buf()),
        sft.openMode % 4 != 0 && Touches(old(Buf()), FileId(drive, sft.startCluster), old(sft.filePos), |dta|))
      ensures acked <= applied <= |dta| && sft.filePos == old(sft.filePos) + acked
      ensures sft.openMode % 4 == 0 ==> r.error == 5 && servers.files == old(servers.files)
      ensures dta != [] ==>
        WrittenSoFar(old(servers.files), FileId(drive, sft.startCluster), old(sft.filePos), dta, applied)
      ensures dta == [] ==>
        ResizedTo(old(servers.files), FileId(drive, sft.startCluster), old(sft.filePos), r.error == 0)
      ensures r.error == 0 ==> r.cx == acked == applied && FileId(drive, sft.startCluster) in old(servers.files)
      ensures r.error != 0 && r.error != FILE_NOT_FOUND ==> acked == applied
      ensures sft.fileSize == old(sft.fileSize) || sft.fileSize == sft.filePos > old(sft.fileSize)
      ensures r.error == 0 ==> sft.filePos <= sft.fileSize
    {
      hide BufferShape; hide WrittenSoFar; hide ResizedTo; hide Touches;
      var id := FileId(drive, sft.startCluster);
      if sft.openMode % 4 == 0 {
        NothingWritten(id, sft.filePos, dta);
        return WriteResult(ACCESS_DENIED, |dta|), 0, 0;
      }
      InvalidateFor(id, sft.filePos, |dta|);
      r, applied, acked := WriteChunks(id, sft, dta);
    }

    // ---------- OPEN, CREATE and EXTENDED OPEN ----------

    /** CX is the result code of an EXTENDED OPEN. The buffer is dropped if the reply says that the file was emptied. */
    method OpenFile(kind: OpenKind, id: FileId, mode: byte, sft: Sft)
      returns (error: uint16, code: uint16, ghost effect: OpenEffect, ghost lost: bool)
      requires Valid()
      modifies this`bufValid, servers`files, servers`lastOpen, sft
      ensures Valid()
      ensures match servers.lastOpen
        case OpenLost => error == 2
        case OpenRefused(ax) => error == ax
        case Opened(_, _, _) => error == 0
      ensures Buf() == Dropped(old(Buf()), error == 0 &&
        (kind.Create? || (kind.ExtendedOpen? && code == 3 && old(bufId) == id)))
      ensures servers.files == if effect.Emptied? then old(servers.files)[id := []] else old(servers.files)
      ensures lost ==> error == FILE_NOT_FOUND
      ensures kind.Open? ==> effect.Untouched?
      ensures error != 0 && !lost ==> effect.Untouched? || id !in old(servers.files)
      ensures error == 0 ==> match kind
        case Open => true
        case Create => effect.Emptied?
        case ExtendedOpen =>
          && (code == 1 ==> effect.Untouched?)
          && (code == 2 ==> effect.Emptied? && id !in old(servers.files))
          && (code == 3 ==> effect.Emptied? && id in old(servers.files))
          && code in {1, 2, 3}
      ensures if error == 0 then
        && id in servers.files && sft.startCluster == id.cluster && sft.filePos == 0
        && sft.openMode == old(sft.openMode) / 256 * 256 + mode
        && sft.fileSize == |servers.files[id]| % 0x1_0000_0000
        else unchanged(sft)
    {
      var reply;
      reply, effect := servers.SendOpen(kind, id);
      lost := reply.OpenLost?;
      code := 0;
      match reply
      case OpenLost => error := FILE_NOT_FOUND;
      case OpenRefused(ax) => error := ax;
      case Opened(file, size, resultCode) =>
        error := 0;
        if kind.Create? || (kind.ExtendedOpen? && resultCode == RESULT_TRUNCATED && bufId == file) {
          bufValid := 0;
        }
        if kind.ExtendedOpen? {
          code := resultCode;
        }
        sft.startCluster, sft.fileSize, sft.filePos := file.cluster, size, 0;
        sft.openMode := sft.openMode / 256 * 256 + mode;
    }
  }

  /** A piece of a write, added to the pieces before it. */
  lemma ChunkWritten(f: seq<byte>, pos: nat, dta: seq<byte>, total: nat, chunkLen: nat, n: nat)
    requires n <= chunkLen && total + chunkLen <= |dta|
    ensures WriteAt(WriteAt(f, pos, dta[..total]), pos + total, dta[total..total + chunkLen][..n])
      == WriteAt(f, pos, dta[..total + n])
  {
    assert dta[total..total + chunkLen][..n] == dta[total..total + n];
    assert dta[..total] + dta[total..total + n] == dta[..total + n];
    WritesCompose(f, pos, dta[..total], dta[total..total + n]);
  }

  /** A piece of a read, added to the pieces before it. */
  lemma NextChunk(f: seq<byte>, pos: nat, total: seq<byte>, chunkLen: nat, cx: nat)
    requires |total| + chunkLen <= cx && (total != [] ==> total == ReadAt(f, pos, |total|))
    ensures var data := ReadAt(f, pos + |total|, chunkLen);
      && |data| <= chunkLen
      && (|data| == chunkLen ==> total + data == ReadAt(f, pos, |total| + chunkLen))
      && (|data| < chunkLen ==> total + data == ReadAt(f, pos, cx))
  {
    var data := ReadAt(f, pos + |total|, chunkLen);
    if total != [] {
      ReadsCompose(f, pos, |total|, chunkLen);
    } else {
      Empty(data);
    }
    assert total + data == ReadAt(f, pos, |total| + chunkLen);
    if |data| < chunkLen {
      ReadToEnd(f, pos, |total| + chunkLen, cx);
    }
  }

  /** What a reply holds of the n octets at pos, if it reaches past them. */
  lemma RestOfRead(f: seq<byte>, readOffset: nat, len: nat, pos: nat, n: nat)
    requires readOffset <= pos && pos + n <= readOffset + len
    ensures var data, skip := ReadAt(f, readOffset, len), pos - readOffset;
      (if |data| > skip then data[skip..Min(|data|, skip + n)] else []) == ReadAt(f, pos, n)
  {
    ReadInside(f, readOffset, len, pos - readOffset, n);
  }

  /** The part of a reply from the aligned block on is the block. */
  lemma RefilledFrom(b: Buffer, f: seq<byte>, id: FileId, end: nat, m: nat, now: uint32, readOffset: nat, len: nat)
    requires m > 0 && readOffset <= AlignDown(end, m) && readOffset + len == AlignDown(end, m) + m
    ensures var data, skip := ReadAt(f, readOffset, len), AlignDown(end, m) - readOffset;
      Refilled(b, f, id, end, m, now) == if |data| > skip then Buffer(id, AlignDown(end, m), now, data[skip..]) else b
  {
    var data, skip := ReadAt(f, readOffset, len), AlignDown(end, m) - readOffset;
    ReadInside(f, readOffset, len, skip, m);
    if |data| > skip { assert data[skip..|data|] == data[skip..]; }
  }
}
