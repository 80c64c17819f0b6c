/** Whole histories of file requests: the client with its read-ahead buffer behaves like plain files without one, but
    for reads from a buffer whose file was emptied behind its back. */
module FileHistory {
  import opened Bytes
  import opened ReadAhead
  import opened RemoteFile
  import opened FileIo

  /** What DOS keeps of an open file (its System File Table entry). */
  datatype Handle = Handle(openMode: uint16, startCluster: uint16, filePos: uint32, fileSize: uint32)

  /** The plain system: files and open handles, and no buffer anywhere. */
  datatype Plain = Plain(files: Files, handles: seq<Handle>)

  /** Seek is DOS moving the position of a handle by itself. */
  datatype Op =
    | Read(k: nat, drive: byte, cx: uint16)
    | Write(k: nat, drive: byte, dta: seq<byte>)
    | OpenOp(k: nat, kind: OpenKind, id: FileId, mode: byte)
    | Seek(k: nat, pos: uint32)

  datatype Result =
    | ReadResultOf(r: ReadResult)
    | WriteResultOf(w: WriteResult)
    | OpenResult(error: uint16, code: uint16)
    | SeekDone

  predicate OpOk(op: Op, n: nat) {
    op.k < n && (op.Read? || op.Write? ==> op.drive < 26) && (op.Write? ==> |op.dta| < 0x1_0000)
  }

  /** The limit of the 32-bit arithmetic on positions. */
  predicate InRange(op: Op, pos: nat) {
    match op
    case Read(_, _, cx) => pos + cx + FILE_BUFFER_SIZE < 0x1_0000_0000
    case Write(_, _, dta) => pos + |dta| < 0x1_0000_0000
    case _ => true
  }

  // ---------- one request, on plain files ----------

  predicate MayRead(h: Handle) {
    h.openMode % 2 == 0
  }

  predicate MayWrite(h: Handle) {
    h.openMode % 4 != 0
  }

  ghost predicate PlainRead(files: Files, h: Handle, drive: byte, cx: uint16, r: ReadResult, h': Handle) {
    var id := FileId(drive, h.startCluster);
    && h' == h.(filePos := h'.filePos)
    && if !MayRead(h) then r.error == ACCESS_DENIED && h' == h
       else if cx == 0 then r == ReadResult(0, 0, []) && h' == h
       else if r.error == 0 then
         && id in files && r.dta == ReadAt(files[id], h.filePos, cx)
         && r.cx == |r.dta| && h'.filePos == h.filePos + |r.dta|
       else h' == h
  }

  /** The file takes a prefix of the data; a success acknowledges exactly that prefix. */
  ghost predicate PlainWrite(files: Files, h: Handle, drive: byte, dta: seq<byte>, r: WriteResult, files': Files,
          h': Handle)
  {
    var id := FileId(drive, h.startCluster);
    && h' == h.(filePos := h'.filePos, fileSize := h'.fileSize)
    && (!MayWrite(h) ==> r.error == ACCESS_DENIED && files' == files)
    && (r.error == 0 ==> id in files && h'.filePos == h.filePos + r.cx <= h'.fileSize)
    && exists n, acked :: PlainTaken(files, id, h.filePos, dta, n, acked, r, files', h'.filePos)
  }

  /** n octets reached the file, of which the client knows of the first `acked`. */
  ghost predicate PlainTaken(files: Files, id: FileId, pos: nat, dta: seq<byte>, n: nat, acked: nat, r: WriteResult,
          files': Files, pos': nat)
  {
    && acked <= n <= |dta| && pos' == pos + acked && (r.error == 0 ==> r.cx == acked == n)
    && PlainContents(files, id, pos, dta, n, r.error == 0, files')
  }

  ghost predicate PlainContents(files: Files, id: FileId, pos: nat, dta: seq<byte>, n: nat, certainly: bool,
          files': Files)
    requires n <= |dta|
  {
    if id !in files then files' == files
    else if dta != [] then files' == files[id := WriteAt(files[id], pos, dta[..n])]
    else files' == files[id := Resize(files[id], pos)] || (!certainly && files' == files)
  }

  /** Each kind of open does to the file what it is for; one that fails did nothing to an existing file, unless the
      error is that of a lost reply. */
  ghost predicate PlainOpen(files: Files, h: Handle, kind: OpenKind, id: FileId, mode: byte, error: uint16,
          code: uint16, files': Files, h': Handle)
  {
    if error == 0 then
      && id in files'
      && h' == Handle(h.openMode / 256 * 256 + mode, id.cluster, 0, |files'[id]| % 0x1_0000_0000)
      && match kind
         case Open => files' == files
         case Create => files' == files[id := []]
         case ExtendedOpen =>
           || (code == RESULT_OPENED && files' == files)
           || (code == RESULT_CREATED && id !in files && files' == files[id := []])
           || (code == RESULT_TRUNCATED && id in files && files' == files[id := []])
    else
      && h' == h
      && (files' == files
          || (!kind.Open? && files' == files[id := []] && (error == FILE_NOT_FOUND || id !in files)))
  }

  ghost predicate PlainStep(a: Plain, op: Op, res: Result, b: Plain)
    requires OpOk(op, |a.handles|)
  {
    && |b.handles| == |a.handles|
    && (forall i | 0 <= i < |a.handles| && i != op.k :: b.handles[i] == a.handles[i])
    && var h, h' := a.handles[op.k], b.handles[op.k];
    match op
    case Read(_, drive, cx) => res.ReadResultOf? && b.files == a.files && PlainRead(a.files, h, drive, cx, res.r, h')
    case Write(_, drive, dta) => res.WriteResultOf? && PlainWrite(a.files, h, drive, dta, res.w, b.files, h')
    case OpenOp(_, kind, id, mode) =>
      res.OpenResult? && PlainOpen(a.files, h, kind, id, mode, res.error, res.code, b.files, h')
    case Seek(_, pos) => res.SeekDone? && b.files == a.files && h' == h.(filePos := pos)
  }

  // ---------- the same request, with the buffer ----------

  datatype System = System(files: Files, handles: seq<Handle>, buffer: Buffer) {
    function Plainly(): (r: Plain) {
      Plain(files, handles)
    }
  }

  /** The buffer as a request finds it. */
  function OnEntry(b: Buffer, op: Op, now: uint32): (r: Buffer) {
    if op.Seek? then b else Expired(b, now)
  }

  predicate ReadLengths(minLen: seq<byte>) {
    |minLen| == 26
  }

  /** What the requests of the client do, buffer and all. */
  ghost predicate ClientStep(minLen: seq<byte>, a: System, now: uint32, op: Op, res: Result, b: System)
    requires ReadLengths(minLen) && OpOk(op, |a.handles|)
  {
    && |b.handles| == |a.handles|
    && (forall i | 0 <= i < |a.handles| && i != op.k :: b.handles[i] == a.handles[i])
    && var h, h', e := a.handles[op.k], b.handles[op.k], OnEntry(a.buffer, op, now);
    match op
    case Read(_, drive, cx) =>
      && res.ReadResultOf? && b.files == a.files
      && BufferedRead(minLen, a.files, h, e, drive, cx, now, res.r, h', b.buffer)
    case Write(_, drive, dta) =>
      && res.WriteResultOf? && PlainWrite(a.files, h, drive, dta, res.w, b.files, h')
      && b.buffer == Dropped(e, MayWrite(h) && Touches(e, FileId(drive, h.startCluster), h.filePos, |dta|))
    case OpenOp(_, kind, id, mode) =>
      && res.OpenResult? && PlainOpen(a.files, h, kind, id, mode, res.error, res.code, b.files, h')
      && b.buffer == Dropped(e, SaysEmptied(e, kind, id, res.error, res.code))
    case Seek(_, pos) => res.SeekDone? && b.files == a.files && h' == h.(filePos := pos) && b.buffer == e
  }

  ghost predicate BufferedRead(minLen: seq<byte>, files: Files, h: Handle, e: Buffer, drive: byte, cx: uint16,
          now: uint32, r: ReadResult, h': Handle, b: Buffer)
    requires ReadLengths(minLen) && drive < 26
  {
    && h' == h.(filePos := h'.filePos)
    && if !MayRead(h) then r.error == ACCESS_DENIED && h' == h && b == e
       else if cx == 0 then r == ReadResult(0, 0, []) && h' == h && b == e
       else ReadDone(e, files, FileId(drive, h.startCluster), h.filePos, cx, minLen[drive], now, r, h'.filePos, b)
  }

  /** The reply to an open tells that the file was emptied, and the buffer is that file's (or the file was created). */
  predicate SaysEmptied(e: Buffer, kind: OpenKind, id: FileId, error: uint16, code: uint16) {
    error == 0 && (kind.Create? || (kind.ExtendedOpen? && code == RESULT_TRUNCATED && e.id == id))
  }

  function HandleOf(sft: Sft): (r: Handle)
    reads sft
  {
    Handle(sft.openMode, sft.startCluster, sft.filePos, sft.fileSize)
  }

  ghost function Snapshot(client: Redirector, sfts: seq<Sft>): (s: System)
    reads client, client.bufData, client.servers, sfts
    requires client.bufValid <= client.bufData.Length
    ensures |s.handles| == |sfts|
  {
    System(client.servers.files, seq(|sfts|, i requires 0 <= i < |sfts| reads sfts => HandleOf(sfts[i])), client.Buf())
  }

  ghost predicate Distinct(sfts: seq<Sft>) {
    forall i, j | 0 <= i < j < |sfts| :: sfts[i] != sfts[j]
  }

  method StepRead(client: Redirector, sft: Sft, drive: byte, cx: uint16, now: uint32) returns (r: ReadResult)
    requires client.Valid() && drive < 26 && sft.filePos + cx + FILE_BUFFER_SIZE < 0x1_0000_0000
    modifies client, client.bufData, sft`filePos, client.servers`lastRead
    ensures client.Valid()
    ensures BufferedRead(client.minServerReadLen, client.servers.files, old(HandleOf(sft)), old(client.Buf()), drive,
                         cx, now, r, HandleOf(sft), client.Buf())
  {
    hide ReadDone;
    r := client.ReadFile(drive, sft, cx, now);
  }

  method StepWrite(client: Redirector, sft: Sft, drive: byte, dta: seq<byte>) returns (r: WriteResult)
    requires client.Valid() && drive < 26 && |dta| < 0x1_0000 && sft.filePos + |dta| < 0x1_0000_0000
    modifies client`bufValid, client.servers, sft`filePos, sft`fileSize
    ensures client.Valid()
    ensures PlainWrite(old(client.servers.files), old(HandleOf(sft)), drive, dta, r, client.servers.files,
                       HandleOf(sft))
    ensures client.Buf() == Dropped(old(client.Buf()),
      MayWrite(old(HandleOf(sft)))
      && Touches(old(client.Buf()), FileId(drive, sft.startCluster), old(sft.filePos), |dta|))
  {
    hide Redirector.BufferShape; hide Touches; hide WriteAt; hide Resize;
    ghost var n, acked;
    r, n, acked := client.WriteFile(drive, sft, dta);
    assert PlainTaken(old(client.servers.files), FileId(drive, sft.startCluster), old(sft.filePos), dta, n, acked, r,
                      client.servers.files, sft.filePos);
  }

  method StepOpen(client: Redirector, sft: Sft, kind: OpenKind, id: FileId, mode: byte)
    returns (error: uint16, code: uint16)
    requires client.Valid()
    modifies client`bufValid, client.servers, sft
    ensures client.Valid()
    ensures PlainOpen(old(client.servers.files), old(HandleOf(sft)), kind, id, mode, error, code, client.servers.files,
                      HandleOf(sft))
    ensures client.Buf() == Dropped(old(client.Buf()), SaysEmptied(old(client.Buf()), kind, id, error, code))
  {
    hide Redirector.BufferShape;
    ghost var effect, lost;
    error, code, effect, lost := client.OpenFile(kind, id, mode, sft);
  }

  /** One request at the given time. */
  method Step(client: Redirector, sfts: seq<Sft>, now: uint32, op: Op) returns (res: Result)
    requires client.Valid() && Distinct(sfts) && OpOk(op, |sfts|) && InRange(op, sfts[op.k].filePos)
    modifies client, client.bufData, client.servers, sfts
    ensures client.Valid()
    ensures ClientStep(client.minServerReadLen, old(Snapshot(client, sfts)), now, op, res, Snapshot(client, sfts))
  {
    hide Redirector.BufferShape; hide BufferedRead; hide PlainWrite; hide PlainOpen; hide Touches; hide Expired;
    hide SaysEmptied;
    hide MayWrite; hide Redirector.Buf; hide Dropped;
    var sft := sfts[op.k];
    if !op.Seek? {
      client.Enter(now);
    }
    match op
    case Read(_, drive, cx) =>
      var r := StepRead(client, sft, drive, cx, now);
      res := ReadResultOf(r);
    case Write(_, drive, dta) =>
      var r := StepWrite(client, sft, drive, dta);
      res := WriteResultOf(r);
    case OpenOp(_, kind, id, mode) =>
      var error, code := StepOpen(client, sft, kind, id, mode);
      res := OpenResult(error, code);
    case Seek(_, pos) =>
      sft.filePos := pos;
      res := SeekDone;
  }

  // ---------- histories ----------

  /** Requests, when they were made, and the system before, between and after them. */
  datatype History = History(
    minLen: seq<byte>, systems: seq<System>, ops: seq<Op>, times: seq<uint32>, results: seq<Result>) {
    ghost predicate Shaped(n: nat) {
      && ReadLengths(minLen) && |systems| == |results| + 1 && |results| <= |ops| == |times|
      && (forall i | 0 <= i < |systems| :: |systems[i].handles| == n) && (forall i | 0 <= i < |ops| :: OpOk(ops[i], n))
    }

    ghost predicate Ok(n: nat) {
      Shaped(n)
      && forall i | 0 <= i < |results| :: ClientStep(minLen, systems[i], times[i], ops[i], results[i], systems[i + 1])
    }

    ghost function Then(res: Result, after: System): (r: History) {
      this.(systems := systems + [after], results := results + [res])
    }
  }

  lemma Extend(h: History, res: Result, after: System, n: nat)
    requires h.Ok(n) && |h.results| < |h.ops| && |after.handles| == n
    requires var i := |h.results|; ClientStep(h.minLen, h.systems[i], h.times[i], h.ops[i], res, after)
    ensures h.Then(res, after).Ok(n)
  {
    hide ClientStep;
    var h' := h.Then(res, after);
    forall i | 0 <= i < |h.results|
      ensures ClientStep(h'.minLen, h'.systems[i], h'.times[i], h'.ops[i], h'.results[i], h'.systems[i + 1])
    {
      assert ClientStep(h.minLen, h.systems[i], h.times[i], h.ops[i], h.results[i], h.systems[i + 1]);
    }
  }

  /** A history, request by request. It ends early only where a position would pass 32 bits. */
  method Run(client: Redirector, sfts: seq<Sft>, ops: seq<Op>, clock: seq<uint32>)
    returns (results: seq<Result>, ghost h: History)
    requires client.Valid() && Distinct(sfts)
    requires |clock| == |ops| && forall i | 0 <= i < |ops| :: OpOk(ops[i], |sfts|)
    modifies client, client.bufData, client.servers, sfts
    ensures client.Valid() && h.ops == ops && h.times == clock && h.results == results && h.Ok(|sfts|)
    ensures h.minLen == client.minServerReadLen
    ensures h.systems[0] == old(Snapshot(client, sfts)) && h.systems[|results|] == Snapshot(client, sfts)
    ensures |results| == |ops| || !InRange(ops[|results|], sfts[ops[|results|].k].filePos)
  {
    hide ClientStep; hide Redirector.BufferShape; hide InRange; hide Snapshot; hide Redirector.Buf;
    results, h := [], History(client.minServerReadLen, [Snapshot(client, sfts)], ops, clock, []);
    while |results| < |ops| && InRange(ops[|results|], sfts[ops[|results|].k].filePos)
      invariant client.Valid() && h.ops == ops && h.times == clock && h.results == results && h.Ok(|sfts|)
      invariant h.minLen == client.minServerReadLen
      invariant h.systems[0] == old(Snapshot(client, sfts)) && h.systems[|results|] == Snapshot(client, sfts)
      decreases |ops| - |results|
    {
      var res := Step(client, sfts, clock[|results|], ops[|results|]);
      Extend(h, res, Snapshot(client, sfts), |sfts|);
      results, h := results + [res], h.Then(res, Snapshot(client, sfts));
    }
  }

  // ---------- when a request is what plain files would do ----------

  /** A READ that succeeds although it takes octets from the buffer that its file does not have there. */
  ghost predicate StaleRead(minLen: seq<byte>, a: System, now: uint32, op: Op, res: Result)
    requires ReadLengths(minLen) && OpOk(op, |a.handles|)
  {
    && op.Read? && op.cx > 0 && MayRead(a.handles[op.k]) && res.ReadResultOf? && res.r.error == 0
    && var h := a.handles[op.k];
    !TakenRight(Expired(a.buffer, now), a.files, FileId(op.drive, h.startCluster), h.filePos, op.cx, minLen[op.drive])
  }

  /** A request is a step of plain files exactly if it is not a stale read. */
  lemma StepIsPlain(minLen: seq<byte>, a: System, now: uint32, op: Op, res: Result, b: System)
    requires ReadLengths(minLen) && OpOk(op, |a.handles|) && ClientStep(minLen, a, now, op, res, b)
    ensures PlainStep(a.Plainly(), op, res, b.Plainly()) <==> !StaleRead(minLen, a, now, op, res)
  {
    hide TakenRight; hide ReadAt; hide PlainWrite; hide PlainOpen; hide Expired; hide Taken; hide Refilled;
    if op.Read? && op.cx > 0 && MayRead(a.handles[op.k]) && res.r.error == 0 {
      var h := a.handles[op.k];
      ReadPlainIff(Expired(a.buffer, now), a.files, FileId(op.drive, h.startCluster), h.filePos, op.cx,
                   minLen[op.drive], now, res.r, b.handles[op.k].filePos, b.buffer);
    }
  }

  /** An open emptied the file that the buffer holds, and its reply was lost. */
  ghost predicate LostReplace(a: System, now: uint32, op: Op, res: Result, b: System) {
    && op.OpenOp? && res.OpenResult? && res.error != 0 && b.files == a.files[op.id := []]
    && Holds(Expired(a.buffer, now), op.id)
  }

  /** A right buffer stays right, but for a lost replace of what it holds. */
  lemma StepKeepsRight(minLen: seq<byte>, a: System, now: uint32, op: Op, res: Result, b: System)
    requires ReadLengths(minLen) && OpOk(op, |a.handles|) && ClientStep(minLen, a, now, op, res, b)
    requires Right(OnEntry(a.buffer, op, now), a.files)
    ensures Right(b.buffer, b.files) <==> !LostReplace(a, now, op, res, b)
  {
    var e, h := OnEntry(a.buffer, op, now), a.handles[op.k];
    match op
    case Read(_, drive, cx) => ReadKeepsRight(minLen, a, now, op, res, b);
    case Write(_, drive, dta) => WriteKeepsRight(minLen, a, now, op, res, b);
    case OpenOp(_, kind, id, mode) =>
      EmptiedWrong(e, a.files, id);
    case Seek(_, _) =>
  }

  lemma ReadKeepsRight(minLen: seq<byte>, a: System, now: uint32, op: Op, res: Result, b: System)
    requires ReadLengths(minLen) && OpOk(op, |a.handles|) && ClientStep(minLen, a, now, op, res, b) && op.Read?
    ensures b.files == a.files && (b.buffer == OnEntry(a.buffer, op, now) || Right(b.buffer, b.files))
  {
    hide ReadAt; hide Refilled; hide Taken; hide Right;
    var h := a.handles[op.k];
    var id := FileId(op.drive, h.startCluster);
    if id in a.files && minLen[op.drive] > 0 {
      RefilledRight(OnEntry(a.buffer, op, now), a.files, id, h.filePos + op.cx, minLen[op.drive], now);
    }
  }

  lemma WriteKeepsRight(minLen: seq<byte>, a: System, now: uint32, op: Op, res: Result, b: System)
    requires ReadLengths(minLen) && OpOk(op, |a.handles|) && ClientStep(minLen, a, now, op, res, b) && op.Write?
    requires Right(OnEntry(a.buffer, op, now), a.files)
    ensures Right(b.buffer, b.files)
  {
    hide WriteAt; hide Resize; hide ReadAt; hide Touches;
    var e, h := OnEntry(a.buffer, op, now), a.handles[op.k];
    var id := FileId(op.drive, h.startCluster);
    var n, acked :| PlainTaken(a.files, id, h.filePos, op.dta, n, acked, res.w, b.files, b.handles[op.k].filePos);
    if b.files != a.files && !Touches(e, id, h.filePos, |op.dta|) {
      UntouchedRight(e, a.files, id, h.filePos, op.dta, n, b.files);
    }
  }

  /** A wrong buffer is the one the request found: what requests put there is right. */
  lemma WrongIsOld(minLen: seq<byte>, a: System, now: uint32, op: Op, res: Result, b: System)
    requires ReadLengths(minLen) && OpOk(op, |a.handles|) && ClientStep(minLen, a, now, op, res, b)
    requires !Right(b.buffer, b.files)
    ensures b.buffer == OnEntry(a.buffer, op, now) && b.buffer.data != []
  {
    hide ReadAt; hide Refilled; hide Taken; hide Touches; hide PlainWrite; hide PlainOpen; hide ReadDone;
    if op.Read? { ReadKeepsRight(minLen, a, now, op, res, b); }
  }

  // ---------- every history ----------

  /** Since request k, whose replace was lost, the buffer has held what it held then. */
  ghost predicate LostSince(h: History, n: nat, k: nat, j: nat)
    requires h.Ok(n) && k < j <= |h.results|
  {
    && LostReplace(h.systems[k], h.times[k], h.ops[k], h.results[k], h.systems[k + 1])
    && forall i | k < i <= j :: h.systems[i].buffer == Expired(h.systems[k].buffer, h.times[k])
  }

  /** A buffer is wrong only since a lost replace of the very file it holds, and has not been touched since then. */
  lemma {:induction false} WrongSince(h: History, n: nat, j: nat) returns (k: nat)
    requires h.Ok(n) && j <= |h.results| && Right(h.systems[0].buffer, h.systems[0].files)
    requires !Right(h.systems[j].buffer, h.systems[j].files)
    ensures k < j && LostSince(h, n, k, j)
  {
    hide ClientStep; hide Right; hide LostReplace;
    var i := j - 1;
    assert ClientStep(h.minLen, h.systems[i], h.times[i], h.ops[i], h.results[i], h.systems[i + 1]);
    var e := OnEntry(h.systems[i].buffer, h.ops[i], h.times[i]);
    WrongIsOld(h.minLen, h.systems[i], h.times[i], h.ops[i], h.results[i], h.systems[j]);
    if Right(e, h.systems[i].files) {
      StepKeepsRight(h.minLen, h.systems[i], h.times[i], h.ops[i], h.results[i], h.systems[j]);
      LostIsOpen(h.systems[i], h.times[i], h.ops[i], h.results[i], h.systems[j]);
      k := i;
    } else {
      k := WrongSince(h, n, i);
    }
  }

  lemma LostIsOpen(a: System, now: uint32, op: Op, res: Result, b: System)
    requires LostReplace(a, now, op, res, b)
    ensures op.OpenOp?
  {
  }

  /** Nothing that leaves the buffer as it is puts anything but zeros where the buffered octets were. */
  lemma StaysBlank(minLen: seq<byte>, a: System, now: uint32, op: Op, res: Result, b: System)
    requires ReadLengths(minLen) && OpOk(op, |a.handles|) && ClientStep(minLen, a, now, op, res, b)
    requires a.buffer == b.buffer && Holds(a.buffer, a.buffer.id)
    requires a.buffer.id in a.files && Blanked(a.buffer, a.files[a.buffer.id])
    ensures b.buffer.id in b.files && Blanked(b.buffer, b.files[b.buffer.id])
  {
    hide WriteAt; hide Resize; hide Touches; hide ReadDone; hide Blanked;
    if op.Write? {
      var id, h := FileId(op.drive, a.handles[op.k].startCluster), a.handles[op.k];
      var n, acked :| PlainTaken(a.files, id, h.filePos, op.dta, n, acked, res.w, b.files, b.handles[op.k].filePos);
      if id == a.buffer.id && b.files != a.files {
        BlankedByWrite(a.buffer, id, a.files[id], h.filePos, op.dta, n);
      }
    } else if op.OpenOp? {
      assert Blanked(a.buffer, []) by { EmptyIsBlank(a.buffer); }
    }
  }

  lemma EmptyIsBlank(b: Buffer)
    ensures Blanked(b, [])
  {
  }

  lemma {:induction false} BlankSince(h: History, n: nat, k: nat, j: nat)
    requires h.Ok(n) && k < j <= |h.results| && LostSince(h, n, k, j)
    ensures var b, files := h.systems[j].buffer, h.systems[j].files;
      h.ops[k].OpenOp? && Holds(b, h.ops[k].id) && b.id in files && Blanked(b, files[b.id])
  {
    hide ClientStep;
    if j == k + 1 {
      EmptyIsBlank(h.systems[j].buffer);
    } else {
      BlankSince(h, n, k, j - 1);
      hide LostReplace; hide Blanked;
      assert ClientStep(h.minLen, h.systems[j - 1], h.times[j - 1], h.ops[j - 1], h.results[j - 1], h.systems[j]);
      StaysBlank(h.minLen, h.systems[j - 1], h.times[j - 1], h.ops[j - 1], h.results[j - 1], h.systems[j]);
    }
  }

  /** Request j is a READ that succeeds, of the file that the lost replace k emptied, and takes octets from the buffer
      that the file does not show there: it does not reach so far, or shows zeros and not all that is taken is zero. */
  ghost predicate Strikes(h: History, n: nat, k: nat, j: nat)
    requires h.Ok(n) && k < j < |h.results|
  {
    var a, now, op, res := h.systems[j], h.times[j], h.ops[j], h.results[j];
    && LostSince(h, n, k, j)
    && op.Read? && op.cx > 0 && MayRead(a.handles[op.k]) && res.ReadResultOf? && res.r.error == 0
    && var id := FileId(op.drive, a.handles[op.k].startCluster);
    var t := Taken(Expired(a.buffer, now), id, a.handles[op.k].filePos, op.cx, h.minLen[op.drive]);
    && h.ops[k].OpenOp? && h.ops[k].id == id && id in a.files
    && t != [] && (|a.files[id]| <= a.buffer.offset || t != Zeros(|t|))
  }

  /** Every request of every history is a step of plain files, but for READs that a lost replace strikes. */
  lemma HistoryIsPlain(h: History, n: nat, j: nat)
    requires h.Ok(n) && j < |h.results| && Right(h.systems[0].buffer, h.systems[0].files)
    ensures PlainStep(h.systems[j].Plainly(), h.ops[j], h.results[j], h.systems[j + 1].Plainly())
      <==> !exists k :: 0 <= k < j && Strikes(h, n, k, j)
  {
    hide ClientStep; hide PlainStep; hide StaleRead; hide Strikes; hide Right;
    var a, op := h.systems[j], h.ops[j];
    assert ClientStep(h.minLen, a, h.times[j], op, h.results[j], h.systems[j + 1]);
    StepIsPlain(h.minLen, a, h.times[j], op, h.results[j], h.systems[j + 1]);
    if StaleRead(h.minLen, a, h.times[j], op, h.results[j]) {
      var k := StruckBy(h, n, j);
    }
    forall k | 0 <= k < j && Strikes(h, n, k, j) ensures StaleRead(h.minLen, a, h.times[j], op, h.results[j]) {
      StrikesStale(h, n, k, j);
    }
  }

  lemma StruckBy(h: History, n: nat, j: nat) returns (k: nat)
    requires h.Ok(n) && j < |h.results| && Right(h.systems[0].buffer, h.systems[0].files)
    requires StaleRead(h.minLen, h.systems[j], h.times[j], h.ops[j], h.results[j])
    ensures k < j && Strikes(h, n, k, j)
  {
    hide ClientStep; hide Right; hide LostSince; hide TakenRight; hide Taken; hide Blanked;
    var a, op := h.systems[j], h.ops[j];
    var id, pos := FileId(op.drive, a.handles[op.k].startCluster), a.handles[op.k].filePos;
    WronglyTaken(Expired(a.buffer, h.times[j]), a.files, id, pos, op.cx, h.minLen[op.drive]);
    NotExpired(a.buffer, h.times[j]);
    k := WrongSince(h, n, j);
    BlankSince(h, n, k, j);
    BlankedTaken(a.buffer, a.files, id, pos, op.cx, h.minLen[op.drive]);
  }

  lemma StrikesStale(h: History, n: nat, k: nat, j: nat)
    requires h.Ok(n) && k < j < |h.results| && Strikes(h, n, k, j)
    ensures StaleRead(h.minLen, h.systems[j], h.times[j], h.ops[j], h.results[j])
  {
    hide ClientStep; hide LostSince; hide TakenRight; hide Blanked;
    var a, op := h.systems[j], h.ops[j];
    var id, pos := FileId(op.drive, a.handles[op.k].startCluster), a.handles[op.k].filePos;
    BlankSince(h, n, k, j);
    NotExpired(a.buffer, h.times[j]);
    BlankedTaken(a.buffer, a.files, id, pos, op.cx, h.minLen[op.drive]);
  }

  /** Such a READ is a small one, of a buffer filled at most 90 ticks ago, which nothing has changed since the loss. */
  lemma StruckIsRecent(h: History, n: nat, k: nat, j: nat)
    requires h.Ok(n) && k < j < |h.results| && Strikes(h, n, k, j)
    ensures h.ops[j].cx < h.minLen[h.ops[j].drive]
    ensures (h.times[j] - h.systems[j].buffer.timestamp) % 0x1_0000_0000 <= 90
    ensures forall i | k < i <= j :: h.systems[i].buffer == h.systems[j].buffer
  {
    hide ClientStep; hide LostReplace;
    NotExpired(h.systems[j].buffer, h.times[j]);
  }

  lemma WronglyTaken(b: Buffer, files: Files, id: FileId, pos: nat, cx: nat, m: nat)
    requires !TakenRight(b, files, id, pos, cx, m)
    ensures !Right(b, files) && b.data != [] && b.id == id && cx < m
  {
    if Right(b, files) {
      RightTaken(b, files, id, pos, cx, m);
    }
  }

  lemma NotExpired(b: Buffer, now: uint32)
    requires Expired(b, now).data != []
    ensures Expired(b, now) == b && (now - b.timestamp) % 0x1_0000_0000 <= MAX_TICKS
  {
  }

  const STALE_FILE := FileId(2, 1)
  const FILLED := Buffer(STALE_FILE, 0, 10, [7, 8])

  /** One octet is asked for, two are there and go into the buffer. */
  lemma FillingRead()
    ensures ReadDone(Buffer(STALE_FILE, 0, 0, []), map[STALE_FILE := [7, 8]], STALE_FILE, 0, 1, 64, 10,
                     ReadResult(0, 1, [7]), 1, FILLED)
  {
    var f: seq<byte> := [7, 8];
    assert ReadAt(f, 0, 64) == f && ReadAt(f, 0, 1) == [7];
    assert [] + ReadAt(f, 0, 1) == [7];
    assert AlignDown(1, 64) == 0;
  }

  /** The next octet comes from the buffer, although the file is empty. */
  lemma StaleOctet()
    ensures ReadDone(FILLED, map[STALE_FILE := []], STALE_FILE, 1, 1, 64, 30, ReadResult(0, 1, [8]), 2, FILLED)
    ensures !TakenRight(FILLED, map[STALE_FILE := []], STALE_FILE, 1, 1, 64)
  {
    assert Taken(FILLED, STALE_FILE, 1, 1, 64) == [8];
  }

  /** Such reads happen: a read fills the buffer, a CREATE empties the file and its reply is lost, and the next read
      yields an octet of the old file. */
  lemma StaleReadHappens() returns (h: History)
    ensures h.Ok(1) && |h.results| == 3 && h.systems[0].buffer.data == []
    ensures StaleRead(h.minLen, h.systems[2], h.times[2], h.ops[2], h.results[2])
    ensures h.systems[2].files == map[STALE_FILE := []] && h.results[2] == ReadResultOf(ReadResult(0, 1, [8]))
  {
    hide ReadDone; hide TakenRight;
    var minLen: seq<byte> := seq(26, _ => 64);
    var full, emptied := map[STALE_FILE := [7, 8]], map[STALE_FILE := []];
    var s0 := System(full, [Handle(0, 1, 0, 2)], Buffer(STALE_FILE, 0, 0, []));
    var s1 := System(full, [Handle(0, 1, 1, 2)], FILLED);
    var s2 := System(emptied, [Handle(0, 1, 1, 2)], FILLED);
    var s3 := System(emptied, [Handle(0, 1, 2, 2)], FILLED);
    h := History(minLen, [s0, s1, s2, s3],
                 [Read(0, 2, 1), OpenOp(0, Create, STALE_FILE, 0), Read(0, 2, 1)], [10, 20, 30],
                 [ReadResultOf(ReadResult(0, 1, [7])), OpenResult(FILE_NOT_FOUND, 0),
                  ReadResultOf(ReadResult(0, 1, [8]))]);
    FillingRead();
    StaleOctet();
    assert emptied == full[STALE_FILE := []];
    assert ClientStep(minLen, s0, 10, h.ops[0], h.results[0], s1);
    assert ClientStep(minLen, s1, 20, h.ops[1], h.results[1], s2);
    assert ClientStep(minLen, s2, 30, h.ops[2], h.results[2], s3);
  }

  // ---------- what a caller relies on ----------

  /** What a write stored, a read at the same position returns, whatever the buffer held before. */
  lemma {:induction false} ReadsBackWhatWasWritten(h: History, i: nat, n: nat, k: nat, drive: byte, dta: seq<byte>,
          pos: uint32)
    requires h.Ok(n) && i + 2 < |h.results| && 0 < |dta| < 0x1_0000 && k < n && h.systems[i].handles[k].filePos == pos
    requires h.ops[i] == Write(k, drive, dta) && h.ops[i + 1] == Seek(k, pos) && h.ops[i + 2] == Read(k, drive, |dta|)
    requires h.results[i] == WriteResultOf(WriteResult(0, |dta|))
    ensures h.results[i + 2].ReadResultOf?
    ensures h.results[i + 2].r.error == 0 ==> h.results[i + 2].r.dta == dta
  {
    hide WriteAt; hide Resize; hide ReadAt; hide Refilled; hide AlignDown;
    var a, b, c, d := h.systems[i], h.systems[i + 1], h.systems[i + 2], h.systems[i + 3];
    assert ClientStep(h.minLen, a, h.times[i], h.ops[i], h.results[i], b);
    assert ClientStep(h.minLen, b, h.times[i + 1], h.ops[i + 1], h.results[i + 1], c);
    assert ClientStep(h.minLen, c, h.times[i + 2], h.ops[i + 2], h.results[i + 2], d);
    var id := FileId(drive, a.handles[k].startCluster);
    ReadBack(a.files[id], pos, dta);
    assert dta[..|dta|] == dta;
    assert Taken(Expired(c.buffer, h.times[i + 2]), id, pos, |dta|, h.minLen[drive]) == [];
  }

  lemma ReadBack(f: seq<byte>, pos: nat, data: seq<byte>)
    requires data != []
    ensures ReadAt(WriteAt(f, pos, data), pos, |data|) == data
  {
  }
}
