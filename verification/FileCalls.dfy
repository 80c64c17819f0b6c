/** File requests over the network: the calls of a client do to the files of a server what plain sends would do, each
    once and in the order of the calls, whatever the network loses, delays or repeats. */
module FileCalls {
  import opened Bytes
  import opened DriveProto
  import opened ReplyCaching
  import opened Protocol
  import opened ProtocolSafety
  import opened ProtocolTheorems
  import opened ReadAhead
  import opened RemoteFile
  import opened FileIo

  const READ_FILE: byte := 0x08
  const WRITE_FILE: byte := 0x09

  // ---------- what a packet asks for ----------

  datatype FileRequest =
    | ReadFile(id: FileId, offset: uint32, len: uint16)
    | WriteFile(id: FileId, offset: uint32, data: seq<byte>)
    | Other

  /** The server's reading of a request; the drive is that of the server. */
  function Asked(p: seq<byte>): (r: FileRequest)
    ensures r.WriteFile? ==> |r.data| < 0x800
  {
    if |p| < HEADER || Length(p) < HEADER || |p| < Length(p) then Other
    else
      var data := p[HEADER..Length(p)];
      if p[7] == READ_FILE && |data| == READ_ARGS then
        ReadFile(FileId(p[6] % 0x20, FromLittle16(data, 4)), FromLittle32(data, 0), FromLittle16(data, 6))
      else if p[7] == WRITE_FILE && |data| >= WRITE_ARGS then
        WriteFile(FileId(p[6] % 0x20, FromLittle16(data, 4)), FromLittle32(data, 0), data[WRITE_ARGS..])
      else Other
  }

  function ReadArgs(offset: uint32, cluster: uint16, len: uint16): (a: seq<byte>)
    ensures |a| == READ_ARGS
  {
    Little32(offset) + Little16(cluster) + Little16(len)
  }

  function WriteArgs(offset: uint32, cluster: uint16): (a: seq<byte>)
    ensures |a| == WRITE_ARGS
  {
    Little32(offset) + Little16(cluster)
  }

  lemma Little32Back(n: uint32, rest: seq<byte>)
    ensures FromLittle32(Little32(n) + rest, 0) == n
  {
    var b := Little32(n) + rest;
    assert b[0] == n % 0x1_0000 % 0x100 && b[1] == n % 0x1_0000 / 0x100;
    assert b[2] == n / 0x1_0000 % 0x100 && b[3] == n / 0x1_0000 / 0x100;
  }

  lemma Little16Back(front: seq<byte>, n: uint16, rest: seq<byte>)
    ensures FromLittle16(front + Little16(n) + rest, |front|) == n
  {
    var b := front + Little16(n) + rest;
    assert b[|front|] == n % 0x100 && b[|front| + 1] == n / 0x100;
  }

  lemma Little16Alone(n: uint16)
    ensures FromLittle16(Little16(n), 0) == n
  {
  }

  /** A READ reaches the server as it was meant. */
  lemma ReadAsked(sequence: byte, drive: byte, extended: bool, checksums: bool, offset: uint32, cluster: uint16,
          len: uint16)
    ensures Asked(RequestPacket(sequence, drive, 0x08, extended, checksums, ReadArgs(offset, cluster, len)))
      == ReadFile(FileId(drive % 0x20, cluster), offset, len)
  {
    var args := ReadArgs(offset, cluster, len);
    RequestAccepted(sequence, drive, READ_FILE, extended, checksums, args);
    ArgsRead(offset, cluster, Little16(len));
    Little16Back(Little32(offset) + Little16(cluster), len, []);
    assert args + [] == args;
    hide RequestPacket; hide Length; hide FromLittle16; hide FromLittle32; hide Little32; hide Little16;
    var r := RequestPacket(sequence, drive, READ_FILE, extended, checksums, args);
    assert r[HEADER..Length(r)] == r[HEADER..];
  }

  /** So does a WRITE. */
  lemma WriteAsked(sequence: byte, drive: byte, extended: bool, checksums: bool, offset: uint32, cluster: uint16,
          data: seq<byte>)
    requires HEADER + WRITE_ARGS + |data| < 0x800
    ensures Asked(RequestPacket(sequence, drive, 0x09, extended, checksums, WriteArgs(offset, cluster) + data))
      == WriteFile(FileId(drive % 0x20, cluster), offset, data)
  {
    var args := WriteArgs(offset, cluster) + data;
    RequestAccepted(sequence, drive, WRITE_FILE, extended, checksums, args);
    ArgsRead(offset, cluster, data);
    hide RequestPacket; hide Length; hide FromLittle16; hide FromLittle32; hide Little32; hide Little16;
    var r := RequestPacket(sequence, drive, WRITE_FILE, extended, checksums, args);
    assert r[HEADER..Length(r)] == r[HEADER..];
    assert args[WRITE_ARGS..] == data;
  }

  /** Other packets ask for neither: READ_FILE has exactly eight octets of data, WRITE_FILE at least six. */
  lemma AskedOnly(p: seq<byte>)
    requires |p| >= 8 && 8 <= Length(p) <= |p|
    ensures Asked(p).ReadFile? <==> p[7] == 0x08 && Length(p) == 16
    ensures Asked(p).WriteFile? <==> p[7] == 0x09 && Length(p) >= 14
  {
    hide Length;
  }

  /** With 28 octets of IP and UDP headers, requests and replies are as long as the client's file I/O reckons. */
  lemma PacketLengths(request: seq<byte>, answer: Answer, readOnly: bool, offset: uint32, cluster: uint16, len: uint16,
          data: seq<byte>)
    requires |request| >= 8 && request[0] == 1 && 8 + |answer.data| <= 1500 && 14 + |data| < 0x800
    ensures 28 + |RequestPacket(0, 0, 0x08, false, false, ReadArgs(offset, cluster, len))| == PROTO_OVERHEAD + 8
    ensures 28 + |RequestPacket(0, 0, 0x09, false, false, WriteArgs(offset, cluster) + data)|
      == PROTO_OVERHEAD + 6 + |data|
    ensures 28 + |ReplyPacket(request, answer, readOnly)| == PROTO_OVERHEAD + |answer.data|
  {
    hide RequestPacket; hide ReplyPacket;
    ReplyFields(request, answer, readOnly);
  }

  lemma ArgsRead(offset: uint32, cluster: uint16, rest: seq<byte>)
    ensures var a := Little32(offset) + Little16(cluster) + rest;
      FromLittle32(a, 0) == offset && FromLittle16(a, 4) == cluster
  {
    Little16Back(Little32(offset), cluster, rest);
    Little32Back(offset, Little16(cluster) + rest);
    assert Little32(offset) + Little16(cluster) + rest == Little32(offset) + (Little16(cluster) + rest);
  }

  // ---------- what the server does ----------

  /** A successful write of n octets; none resize the file. */
  function Stored(f: seq<byte>, offset: nat, data: seq<byte>, n: nat): (f': seq<byte>)
    requires n <= |data|
  {
    if data == [] then Resize(f, offset) else WriteAt(f, offset, data[..n])
  }

  /** process_request for READ_FILE and WRITE_FILE: what happens to the files, and the answer, if there is one. A
      request that fails changes nothing. */
  ghost predicate Processed(before: Files, p: seq<byte>, outcome: Option<Answer>, after: Files) {
    match Asked(p)
    case ReadFile(id, offset, len) =>
      && after == before
      && (outcome.Some? && outcome.value.ax == 0 ==>
            id in before && outcome.value.data == ReadAt(before[id], offset, len))
    case WriteFile(id, offset, data) =>
      if outcome.Some? && outcome.value.ax == 0 then
        exists n: nat :: n <= |data|
          && id in before && outcome.value.data == Little16(n)
          && after == before[id := Stored(before[id], offset, data, n)]
      else after == before
    case Other => true
  }

  /** The same, told by the reply's packet. */
  ghost predicate FileStep(before: Files, p: seq<byte>, reply: Option<seq<byte>>, after: Files) {
    match Asked(p)
    case ReadFile(id, offset, len) =>
      && after == before
      && (Succeeded(reply) ==> id in before && DataOf(reply.value) == ReadAt(before[id], offset, len))
    case WriteFile(id, offset, data) =>
      if Succeeded(reply) then
        exists n: nat :: n <= |data|
          && id in before && DataOf(reply.value) == Little16(n)
          && after == before[id := Stored(before[id], offset, data, n)]
      else after == before
    case Other => true
  }

  predicate Succeeded(reply: Option<seq<byte>>) {
    reply.Some? && |reply.value| >= HEADER && FromLittle16(reply.value, 6) == 0
  }

  function DataOf(packet: seq<byte>): (data: seq<byte>)
    requires |packet| >= HEADER
  {
    packet[HEADER..]
  }

  lemma ProcessedTold(before: Files, p: seq<byte>, outcome: Option<Answer>, readOnly: bool, after: Files)
    requires Processed(before, p, outcome, after) && |p| >= HEADER && p[0] == VERSION
    requires outcome.Some? ==> HEADER + |outcome.value.data| <= MAX_PACKET
    ensures var reply := if outcome.None? then None else Some(ReplyPacket(p, outcome.value, readOnly));
      FileStep(before, p, reply, after)
  {
    hide Asked; hide ReplyPacket; hide FromLittle16; hide ReadAt; hide Stored;
    if outcome.Some? { ReplyFields(p, outcome.value, readOnly); }
  }

  // ---------- runs with files ----------

  /** The step is an execution of a request at server s. */
  ghost predicate Executes(st: State, step: Step, s: Address)
    requires Enabled(st, step)
  {
    && step.ServeRequest? && step.d.server == s
    && ServedBy(st.servers[s], step.d, step.outcome, step.readOnly, step.now).executed
  }

  ghost function ExecutionBy(st: State, step: Step): (e: Execution)
    requires Enabled(st, step) && step.ServeRequest?
  {
    var d := step.d;
    Execution(d.client, d.call, ServedBy(st.servers[d.server], d, step.outcome, step.readOnly, step.now).reply)
  }

  /** Every server's files: an execution does to them what the request says, and nothing else changes them. */
  ghost predicate FilesStep(st: State, step: Step, before: map<Address, Files>, after: map<Address, Files>)
    requires Enabled(st, step) && before.Keys == st.servers.Keys
  {
    && after.Keys == before.Keys
    && forall s | s in before ::
         if Executes(st, step, s) then Processed(before[s], step.d.packet, step.outcome, after[s])
         else after[s] == before[s]
  }

  ghost predicate FileBehavior(run: seq<State>, steps: seq<Step>, files: seq<map<Address, Files>>) {
    && Behavior(run, steps) && |files| == |run|
    && (forall i | 0 <= i < |run| :: files[i].Keys == run[i].servers.Keys)
    && forall i | 0 <= i < |steps| :: FilesStep(run[i], steps[i], files[i], files[i + 1])
  }

  ghost predicate Issued(clients: map<Address, Client>, e: Execution) {
    e.client in clients && 1 <= e.call <= |clients[e.client].calls|
  }

  /** The files before, between and after the executions of a log. */
  ghost predicate Chain(clients: map<Address, Client>, log: seq<Execution>, hist: seq<Files>) {
    && |hist| == |log| + 1
    && forall j | 0 <= j < |log| ::
         && Issued(clients, log[j])
         && FileStep(hist[j], clients[log[j].client].calls[log[j].call - 1].request, log[j].reply, hist[j + 1])
  }

  /** Requests of other clients leave the files as they are. */
  ghost predicate OthersOnlyRead(log: seq<Execution>, hist: seq<Files>, c: Address) {
    |hist| == |log| + 1 && forall j | 0 <= j < |log| && log[j].client != c :: hist[j + 1] == hist[j]
  }

  lemma ChainStays(a: map<Address, Client>, b: map<Address, Client>, log: seq<Execution>, hist: seq<Files>)
    requires CallsGrow(a, b) && Chain(a, log, hist)
    ensures Chain(b, log, hist)
  {
    hide FileStep;
    forall j | 0 <= j < |log|
      ensures Issued(b, log[j])
        && FileStep(hist[j], b[log[j].client].calls[log[j].call - 1].request, log[j].reply, hist[j + 1])
    {
      assert Issued(a, log[j]) && a[log[j].client].calls <= b[log[j].client].calls;
    }
  }

  lemma ChainExtended(clients: map<Address, Client>, log: seq<Execution>, hist: seq<Files>, e: Execution, after: Files)
    requires Chain(clients, log, hist) && Issued(clients, e)
    requires FileStep(hist[|log|], clients[e.client].calls[e.call - 1].request, e.reply, after)
    ensures Chain(clients, log + [e], hist + [after])
  {
    hide FileStep;
    forall j | 0 <= j < |log| ensures (log + [e])[j] == log[j] && (hist + [after])[j] == hist[j] {}
  }

  lemma LogAfter(st: State, step: Step, s: Address)
    requires Enabled(st, step) && s in st.servers
    ensures s in Do(st, step).servers && (Executes(st, step, s) ==> step.ServeRequest?)
    ensures Do(st, step).servers[s].log
      == if Executes(st, step, s) then st.servers[s].log + [ExecutionBy(st, step)] else st.servers[s].log
  {
    hide Serve; hide ReplyOf; hide Arrived; hide Polled; hide Begun; hide ServerAccepts;
  }

  /** What the request of an execution is, and what its reply tells. */
  lemma ExecutedTold(st: State, step: Step, s: Address, before: Files, after: Files)
    requires Inv(st) && Enabled(st, step) && Executes(st, step, s)
    requires Processed(before, step.d.packet, step.outcome, after)
    ensures var e := ExecutionBy(st, step);
      && Issued(st.clients, e)
      && FileStep(before, st.clients[e.client].calls[e.call - 1].request, e.reply, after)
  {
    hide Processed; hide FileStep; hide CacheOk; hide LogOk; hide ReplyPacket; hide ReplyOk;
    var d := step.d;
    assert DatagramOk(st.clients, st.servers, d);
    HeaderLong(d.packet);
    hide Inv; hide ServerAccepts;
    ProcessedTold(before, d.packet, step.outcome, step.readOnly, after);
    if step.outcome.Some? { PacketNotEmpty(d.packet, step.outcome.value, step.readOnly); }
    ExecutedReply(st.servers[s], d, step.outcome, step.readOnly, step.now);
  }

  lemma HeaderLong(p: seq<byte>)
    requires ServerAccepts(p)
    ensures |p| >= HEADER && p[0] == VERSION
  {
  }

  lemma PacketNotEmpty(request: seq<byte>, answer: Answer, readOnly: bool)
    requires |request| >= HEADER && request[0] == VERSION && HEADER + |answer.data| <= MAX_PACKET
    ensures ReplyPacket(request, answer, readOnly) != []
  {
    ReplyFields(request, answer, readOnly);
  }

  lemma ExecutedReply(sv: Server, d: Datagram, outcome: Option<Answer>, readOnly: bool, now: int)
    requires sv.items != [] && |d.packet| >= HEADER && (outcome.Some? ==> HEADER + |outcome.value.data| <= MAX_PACKET)
    requires outcome.Some? ==> ReplyPacket(d.packet, outcome.value, readOnly) != []
    ensures var served := ServedBy(sv, d, outcome, readOnly, now);
      served.executed ==>
        served.reply == if outcome.None? then None else Some(ReplyPacket(d.packet, outcome.value, readOnly))
  {
    hide ReplyPacket; hide SlotOf;
  }

  /** What a step does to one server's log and files. */
  lemma StepChained(st: State, step: Step, before: map<Address, Files>, after: map<Address, Files>, s: Address,
          hist: seq<Files>)
    returns (hist': seq<Files>)
    requires Inv(st) && Enabled(st, step) && before.Keys == st.servers.Keys && FilesStep(st, step, before, after)
    requires s in st.servers && Chain(st.clients, st.servers[s].log, hist) && hist[|hist| - 1] == before[s]
    ensures s in Do(st, step).servers && s in after
    ensures Chain(Do(st, step).clients, Do(st, step).servers[s].log, hist')
    ensures hist' == (if Executes(st, step, s) then hist + [after[s]] else hist) && hist'[|hist'| - 1] == after[s]
  {
    hide Enabled; hide Do; hide Inv; hide Executes; hide Processed; hide ExecutionBy; hide FileStep; hide Issued;
    LogAfter(st, step, s);
    StepKeepsInv(st, step);
    assert CallsGrow(st.clients, Do(st, step).clients);
    hide Grows; hide CallsGrow;
    var log := st.servers[s].log;
    if Executes(st, step, s) {
      ExecutedTold(st, step, s, before[s], after[s]);
      ChainExtended(st.clients, log, hist, ExecutionBy(st, step), after[s]);
      hist' := hist + [after[s]];
      hide Chain;
      ChainStays(st.clients, Do(st, step).clients, log + [ExecutionBy(st, step)], hist');
    } else {
      hide Chain;
      ChainStays(st.clients, Do(st, step).clients, log, hist);
      hist' := hist;
    }
  }

  // ---------- what the client sees ----------

  predicate Whole(reply: Option<seq<byte>>) {
    reply.Some? ==> |reply.value| >= HEADER
  }

  /** The client's reading of the reply to a READ_FILE; without one, send_request reports a network error. */
  function ReadReplyOf(reply: Option<seq<byte>>): (r: ReadReply)
    requires Whole(reply)
  {
    if reply.None? then ReadLost
    else if FromLittle16(reply.value, 6) != 0 then ReadRefused(FromLittle16(reply.value, 6))
    else Data(DataOf(reply.value))
  }

  function WriteReplyOf(reply: Option<seq<byte>>): (r: WriteReply)
    requires Whole(reply)
  {
    if reply.None? then WriteLost
    else if FromLittle16(reply.value, 6) != 0 || |DataOf(reply.value)| != 2 then
      WriteRefused(FromLittle16(reply.value, 6))
    else Written(FromLittle16(DataOf(reply.value), 0))
  }

  /** One call, as the client's code expects it of send_request. */
  ghost predicate Sent(before: Files, request: seq<byte>, reply: Option<seq<byte>>, after: Files)
    requires Whole(reply)
  {
    match Asked(request)
    case ReadFile(id, offset, len) => after == before && ReadSent(before, id, offset, len, ReadReplyOf(reply))
    case WriteFile(id, offset, data) =>
      exists applied: nat :: WriteSent(before, id, offset, data, WriteReplyOf(reply), applied, after)
    case Other => true
  }

  /** A call that was executed, whether its client got the reply or not. */
  lemma ExecutedSent(before: Files, request: seq<byte>, reply: Option<seq<byte>>, got: Option<seq<byte>>, after: Files)
    requires FileStep(before, request, reply, after) && Whole(reply) && (got == reply || got == None)
    ensures Sent(before, request, got, after)
  {
    hide Asked; hide ReadAt; hide WriteAt; hide Resize; hide FromLittle16;
    match Asked(request)
    case ReadFile(id, offset, len) =>
    case WriteFile(id, offset, data) =>
      if Succeeded(reply) {
        var n: nat :| n <= |data|
          && id in before && DataOf(reply.value) == Little16(n)
          && after == before[id := Stored(before[id], offset, data, n)];
        Little16Alone(n);
        assert WriteSent(before, id, offset, data, WriteReplyOf(got), n, after);
      } else {
        NothingSent(before, id, offset, data, WriteReplyOf(got));
      }
    case Other =>
  }

  lemma NothingSent(before: Files, id: FileId, offset: nat, data: seq<byte>, r: WriteReply)
    requires r.WriteLost? || (r.WriteRefused? && r.ax != 0)
    ensures WriteSent(before, id, offset, data, r, 0, before)
  {
    if id in before {
      assert data[..0] == [] && before[id := before[id]] == before;
    }
  }

  lemma NotExecutedSent(files: Files, request: seq<byte>)
    ensures Sent(files, request, None, files)
  {
    hide Asked;
    match Asked(request)
    case ReadFile(id, offset, len) =>
    case WriteFile(id, offset, data) => NothingSent(files, id, offset, data, WriteReplyOf(None));
    case Other =>
  }

  // ---------- the files after each call ----------

  /** How much of the log it takes to hold what was executed of client c's calls up to number k. */
  function Upto(log: seq<Execution>, c: Address, k: nat): (n: nat)
    ensures n <= |log|
    ensures n > 0 ==> log[n - 1].client == c && log[n - 1].call <= k
    ensures forall j | n <= j < |log| && log[j].client == c :: log[j].call > k
  {
    if log == [] then 0
    else if log[|log| - 1].client == c && log[|log| - 1].call <= k then |log|
    else Upto(log[..|log| - 1], c, k)
  }

  ghost predicate Ordered(log: seq<Execution>, c: Address) {
    forall i, j | 0 <= i < j < |log| && log[i].client == c && log[j].client == c :: log[i].call < log[j].call
  }

  /** The log around a call that was executed as its entry i. */
  lemma UptoExecuted(log: seq<Execution>, c: Address, i: nat)
    requires Ordered(log, c) && i < |log| && log[i].client == c && log[i].call > 0
    ensures Upto(log, c, log[i].call) == i + 1 && Upto(log, c, log[i].call - 1) <= i
    ensures forall j | Upto(log, c, log[i].call - 1) <= j < i :: log[j].client != c
  {
    hide Upto;
  }

  lemma UptoNotExecuted(log: seq<Execution>, c: Address, k: nat)
    requires k > 0 && forall j | 0 <= j < |log| && log[j].client == c :: log[j].call != k
    ensures Upto(log, c, k) == Upto(log, c, k - 1)
  {
    hide Upto;
  }

  lemma {:induction false} Quiet(log: seq<Execution>, hist: seq<Files>, c: Address, a: nat, b: nat)
    requires OthersOnlyRead(log, hist, c) && a <= b <= |log| && forall j | a <= j < b :: log[j].client != c
    ensures hist[a] == hist[b]
  {
    if a < b { Quiet(log, hist, c, a, b - 1); }
  }

  ghost function FilesAfter(log: seq<Execution>, hist: seq<Files>, c: Address, k: nat): (files: Files)
    requires |hist| == |log| + 1
  {
    hist[Upto(log, c, k)]
  }

  function ResultOf(cl: Client, k: nat): (reply: Option<seq<byte>>) {
    if k in cl.results then Some(cl.results[k]) else None
  }

  /** Everything about one client's calls at one server that the theorem needs. */
  ghost predicate Orderly(st: State, s: Address, c: Address, hist: seq<Files>) {
    && s in st.servers && c in st.clients
    && var log, cl := st.servers[s].log, st.clients[c];
    && Chain(st.clients, log, hist) && OthersOnlyRead(log, hist, c) && Ordered(log, c)
    && (forall j | 0 <= j < |log| :: Whole(log[j].reply))
    && (forall j | 0 <= j < |log| && log[j].client == c :: cl.calls[log[j].call - 1].server == s)
    && (forall k | k in cl.results && 1 <= k <= |cl.calls| && cl.calls[k - 1].server == s ::
          exists j :: 0 <= j < |log| && log[j] == Execution(c, k, Some(cl.results[k])))
  }

  lemma OrderlyInv(st: State, s: Address, c: Address, hist: seq<Files>)
    requires Inv(st) && s in st.servers && c in st.clients
    requires Chain(st.clients, st.servers[s].log, hist) && OthersOnlyRead(st.servers[s].log, hist, c)
    ensures Orderly(st, s, c, hist)
  {
    hide FileStep; hide CacheOk; hide LogOk; hide ClientOk; hide MailboxOk; hide DatagramOk;
    var log, cl := st.servers[s].log, st.clients[c];
    assert LogOk(st.clients, s, log) && ResultsOk(st.servers, c, cl);
    forall i, j | 0 <= i < j < |log| && log[i].client == c && log[j].client == c ensures log[i].call < log[j].call {
      LogOrdered(st.clients, s, log, i, j);
    }
    forall j | 0 <= j < |log|
      ensures Whole(log[j].reply) && (log[j].client == c ==> cl.calls[log[j].call - 1].server == s)
    {
      LoggedIsIssued(st.clients, s, log, log[j]);
    }
    forall k | k in cl.results && 1 <= k <= |cl.calls| && cl.calls[k - 1].server == s
      ensures exists j :: 0 <= j < |log| && log[j] == Execution(c, k, Some(cl.results[k]))
    {
      assert Executed(st.servers, s, Execution(c, k, Some(cl.results[k])));
    }
  }

  /** The reply that a client has for a call is that of its execution. */
  lemma GotIt(st: State, s: Address, c: Address, hist: seq<Files>, k: nat)
    requires Orderly(st, s, c, hist) && 1 <= k <= |st.clients[c].calls| && st.clients[c].calls[k - 1].server == s
    ensures var log, got := st.servers[s].log, ResultOf(st.clients[c], k);
      && Whole(got)
      && (forall i | 0 <= i < |log| && log[i].client == c && log[i].call == k :: got == log[i].reply || got == None)
      && ((forall i | 0 <= i < |log| && log[i].client == c :: log[i].call != k) ==> got == None)
  {
    hide Chain; hide OthersOnlyRead;
    var log, cl := st.servers[s].log, st.clients[c];
    if k in cl.results {
      var j :| 0 <= j < |log| && log[j] == Execution(c, k, Some(cl.results[k]));
      assert Whole(log[j].reply);
    }
  }

  /** What call number k is for the files of s. */
  ghost predicate CallDone(st: State, s: Address, c: Address, k: nat, before: Files, after: Files)
    requires c in st.clients && 1 <= k <= |st.clients[c].calls|
  {
    var cl := st.clients[c];
    if cl.calls[k - 1].server == s then
      Whole(ResultOf(cl, k)) && Sent(before, cl.calls[k - 1].request, ResultOf(cl, k), after)
    else after == before
  }

  lemma ExecutedDone(st: State, s: Address, c: Address, hist: seq<Files>, i: nat)
    requires Orderly(st, s, c, hist) && i < |st.servers[s].log| && st.servers[s].log[i].client == c
    ensures var e := st.servers[s].log[i];
      Issued(st.clients, e) && CallDone(st, s, c, e.call, hist[i], hist[i + 1])
  {
    hide FileStep; hide Sent; hide Whole; hide OthersOnlyRead; hide Ordered;
    var log := st.servers[s].log;
    assert Issued(st.clients, log[i]);
    var k, cl := log[i].call, st.clients[c];
    GotIt(st, s, c, hist, k);
    ExecutedSent(hist[i], cl.calls[k - 1].request, log[i].reply, ResultOf(cl, k), hist[i + 1]);
  }

  lemma NotExecutedDone(st: State, s: Address, c: Address, hist: seq<Files>, k: nat, files: Files)
    requires Orderly(st, s, c, hist) && 1 <= k <= |st.clients[c].calls|
    requires var log := st.servers[s].log;
      forall j | 0 <= j < |log| && log[j].client == c :: log[j].call != k
    ensures CallDone(st, s, c, k, files, files)
  {
    hide FileStep; hide Sent; hide OthersOnlyRead; hide Ordered; hide Chain;
    if st.clients[c].calls[k - 1].server == s {
      GotIt(st, s, c, hist, k);
      NotExecutedSent(files, st.clients[c].calls[k - 1].request);
    }
  }

  lemma HistoryLength(st: State, s: Address, c: Address, hist: seq<Files>)
    requires Orderly(st, s, c, hist)
    ensures |hist| == |st.servers[s].log| + 1
  {
  }

  /** Call number k takes the files from what they were after call k - 1 to what they are after call k. */
  lemma CallSent(st: State, s: Address, c: Address, hist: seq<Files>, k: nat)
    requires Orderly(st, s, c, hist) && 1 <= k <= |st.clients[c].calls|
    ensures var log := st.servers[s].log;
      CallDone(st, s, c, k, FilesAfter(log, hist, c, k - 1), FilesAfter(log, hist, c, k))
  {
    hide Chain; hide Upto; hide CallDone; hide OthersOnlyRead; hide Ordered;
    HistoryLength(st, s, c, hist);
    var log := st.servers[s].log;
    if i :| 0 <= i < |log| && log[i].client == c && log[i].call == k {
      UptoExecuted(log, c, i);
      Quiet(log, hist, c, Upto(log, c, k - 1), i);
      ExecutedDone(st, s, c, hist, i);
    } else {
      UptoNotExecuted(log, c, k);
      NotExecutedDone(st, s, c, hist, k, FilesAfter(log, hist, c, k));
    }
  }

  lemma FirstAndLast(st: State, s: Address, c: Address, hist: seq<Files>)
    requires Orderly(st, s, c, hist)
    ensures var log := st.servers[s].log;
      && FilesAfter(log, hist, c, 0) == hist[0]
      && FilesAfter(log, hist, c, |st.clients[c].calls|) == hist[|log|]
  {
    hide FileStep; hide Upto;
    var log, n := st.servers[s].log, |st.clients[c].calls|;
    forall j | 0 <= j < |log| && log[j].client == c ensures 1 <= log[j].call <= n { assert Issued(st.clients, log[j]); }
    Quiet(log, hist, c, Upto(log, c, n), |log|);
  }

  // ---------- every run ----------

  /** Up to state i, no other client's requests changed the files of s. */
  ghost predicate OnlyWriter(steps: seq<Step>, files: seq<map<Address, Files>>, i: nat, s: Address, c: Address)
    requires i <= |steps| < |files|
  {
    forall j | 0 <= j < i && s in files[j] && s in files[j + 1] ::
      steps[j].ServeRequest? && steps[j].d.client != c ==> files[j + 1][s] == files[j][s]
  }

  lemma {:induction false} FilesChained(run: seq<State>, steps: seq<Step>, files: seq<map<Address, Files>>, i: nat,
          s: Address, c: Address)
    returns (hist: seq<Files>)
    requires FileBehavior(run, steps, files) && i < |run| && s in run[0].servers && OnlyWriter(steps, files, i, s, c)
    ensures s in run[i].servers && Chain(run[i].clients, run[i].servers[s].log, hist)
    ensures OthersOnlyRead(run[i].servers[s].log, hist, c)
    ensures hist[0] == files[0][s] && hist[|hist| - 1] == files[i][s]
  {
    hide FilesStep; hide Enabled; hide Do; hide FileStep; hide Inv; hide Executes; hide ExecutionBy;
    if i == 0 {
      hist := [files[0][s]];
    } else {
      hist := FilesChained(run, steps, files, i - 1, s, c);
      ReachableInv(run, steps, i - 1);
      assert FilesStep(run[i - 1], steps[i - 1], files[i - 1], files[i]);
      var before := run[i - 1].servers[s].log;
      LogAfter(run[i - 1], steps[i - 1], s);
      var was := hist;
      hist := StepChained(run[i - 1], steps[i - 1], files[i - 1], files[i], s, hist);
      if Executes(run[i - 1], steps[i - 1], s) { ExecutionsClient(run[i - 1], steps[i - 1], s); }
      hide Chain;
      StillOnlyRead(before, was, c, run[i].servers[s].log, hist);
    }
  }

  lemma ExecutionsClient(st: State, step: Step, s: Address)
    requires Enabled(st, step) && s in st.servers && Executes(st, step, s)
    ensures step.ServeRequest? && ExecutionBy(st, step).client == step.d.client
  {
  }

  lemma StillOnlyRead(log: seq<Execution>, hist: seq<Files>, c: Address, log': seq<Execution>, hist': seq<Files>)
    requires OthersOnlyRead(log, hist, c)
    requires (log' == log && hist' == hist)
      || (|log'| == |log| + 1 == |hist'| - 1 && log <= log' && hist <= hist'
          && (log'[|log|].client != c ==> hist'[|log| + 1] == hist[|log|]))
    ensures OthersOnlyRead(log', hist', c)
  {
  }

  /** Every run, for a server whose files no other client changed: there is a state of the files after each call, from
      the first to the present one, such that every call was a plain send. What a client got a reply for was done once
      and as the reply says; what it got none for was done once or not at all, and before all later calls; and a READ
      shows the files as all calls before it left them. */
  lemma CallsAreSends(run: seq<State>, steps: seq<Step>, files: seq<map<Address, Files>>, i: nat, s: Address,
          c: Address)
    returns (after: seq<Files>)
    requires FileBehavior(run, steps, files) && i < |run| && s in run[0].servers && c in run[i].clients
    requires OnlyWriter(steps, files, i, s, c)
    ensures |after| == |run[i].clients[c].calls| + 1 && s in files[0] && s in files[i]
    ensures after[0] == files[0][s] && after[|after| - 1] == files[i][s]
    ensures forall k | 1 <= k < |after| :: CallDone(run[i], s, c, k, after[k - 1], after[k])
  {
    hide FilesStep; hide Enabled; hide Do; hide Inv; hide Init; hide CallDone; hide Orderly; hide OnlyWriter;
    var hist := FilesChained(run, steps, files, i, s, c);
    hide Chain; hide OthersOnlyRead;
    ReachableInv(run, steps, i);
    var st := run[i];
    OrderlyInv(st, s, c, hist);
    var log, n := st.servers[s].log, |st.clients[c].calls|;
    HistoryLength(st, s, c, hist);
    after := seq(n + 1, k requires 0 <= k <= n => FilesAfter(log, hist, c, k));
    FirstAndLast(st, s, c, hist);
    hide FilesAfter;
    forall k | 1 <= k < |after| ensures CallDone(st, s, c, k, after[k - 1], after[k]) {
      CallSent(st, s, c, hist, k);
    }
  }
}
