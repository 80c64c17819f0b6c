/** Clients and servers over a network that loses, delays and repeats datagrams: the stop-and-wait calls of
    send_request, the one-slot receive buffer of pktdrv_recv and handle_ipv4, and the servers' reply caches.

    A datagram once sent stays in `net`: delivering it again is duplication, never delivering it is loss.
    Call numbers are history, not on the wire; the wire carries them modulo 256. */
module Protocol {
  import opened Bytes
  import opened DriveProto
  import opened ReplyCaching

  /** The UDP payload of an interface with the largest MTU. */
  const MAX_REQUEST := 1472

  datatype Call = Call(server: Address, request: seq<byte>)

  datatype Datagram =
    | Request(client: Address, server: Address, call: nat, packet: seq<byte>)
    | Reply(client: Address, server: Address, call: nat, packet: seq<byte>)

  /** global_recv_buff with global_recv_data_len: empty, or one frame. */
  datatype Mailbox = Free | Full(frame: Datagram, frameLen: nat)

  /** lastSeq is global_request_last_sent_seq_num; call k is calls[k - 1]; results holds the accepted replies. */
  datatype Client = Client(
    calls: seq<Call>, lastSeq: byte, active: bool, mailbox: Mailbox, responseReceived: bool,
    results: map<nat, seq<byte>>)

  datatype Execution = Execution(client: Address, call: nat, reply: Option<seq<byte>>)

  datatype Server = Server(items: seq<ReplyInfo>, log: seq<Execution>)

  datatype State = State(clients: map<Address, Client>, servers: map<Address, Server>, net: set<Datagram>)

  datatype Step =
    | BeginCall(c: Address, s: Address, drive: byte, func: byte, extended: bool, checksums: bool, data: seq<byte>)
    | SendRequest(c: Address)
    | ServeRequest(d: Datagram, outcome: Option<Answer>, readOnly: bool, now: int)
    | ReplyArrives(d: Datagram, frameLen: nat)
    | Poll(c: Address, junk: seq<byte>, verify: bool)
    | EndCall(c: Address)

  // ---------- the parties ----------

  /** send_request up to its first transmission: the flag is cleared, the receive buffer is not. */
  function Begun(cl: Client, s: Address, drive: byte, func: byte, extended: bool, checksums: bool,
          data: seq<byte>): (r: Client)
    requires HEADER + |data| <= MAX_REQUEST
  {
    var sequence := (cl.lastSeq + 1) % 0x100;
    cl.(calls := cl.calls + [Call(s, RequestPacket(sequence, drive, func, extended, checksums, data))],
      lastSeq := sequence, active := true, responseReceived := false)
  }

  /** The size of the receive buffer, Ethernet header included. */
  const MAX_FRAMESIZE := 1518

  /** The two upcalls of the packet driver for one frame: a full buffer refuses it, as it does a frame that is too long;
      handle_ipv4 drops a frame that is not from the server last called, too short or of another version. */
  function Arrived(cl: Client, d: Datagram, frameLen: nat): (r: Client) {
    if cl.mailbox.Free? && frameLen <= MAX_FRAMESIZE && cl.calls != [] && cl.calls[|cl.calls| - 1].server == d.server
       && IsReplyFrame(frameLen, d.packet)
    then cl.(mailbox := Full(d, frameLen), responseReceived := true)
    else cl
  }

  /** The receive buffer holds the whole frame: the packet, and `junk` behind it. */
  predicate HoldsFrame(m: Mailbox, junk: seq<byte>) {
    m.Full? ==> HEADER <= m.frameLen <= |m.frame.packet| + |junk|
  }

  /** One turn of the waiting loop once the flag is set: the frame is accepted and the call over, or the
      buffer is marked empty (and the flag stays set). */
  function Polled(cl: Client, junk: seq<byte>, verify: bool): (r: Client)
    requires HoldsFrame(cl.mailbox, junk)
  {
    if cl.mailbox.Full? && ClientAccepts(cl.mailbox.frameLen, cl.mailbox.frame.packet + junk, cl.lastSeq, verify)
    then cl.(results := cl.results[|cl.calls| := cl.mailbox.frame.packet], active := false, mailbox := Free)
    else cl.(mailbox := Free)
  }

  function ReplyOf(d: Datagram, outcome: Option<Answer>, readOnly: bool): (r: Option<seq<byte>>)
    requires |d.packet| >= HEADER && (outcome.Some? ==> HEADER + |outcome.value.data| <= MAX_PACKET)
  {
    if outcome.None? then None else Some(ReplyPacket(d.packet, outcome.value, readOnly))
  }

  function ServedBy(sv: Server, d: Datagram, outcome: Option<Answer>, readOnly: bool, now: int): (r: Served)
    requires sv.items != [] && |d.packet| >= HEADER && (outcome.Some? ==> HEADER + |outcome.value.data| <= MAX_PACKET)
  {
    Serve(sv.items, d.client, d.packet, ReplyOf(d, outcome, readOnly), now)
  }

  function AfterServing(sv: Server, d: Datagram, served: Served): (r: Server) {
    Server(served.items, if served.executed then sv.log + [Execution(d.client, d.call, served.reply)] else sv.log)
  }

  // ---------- what is assumed of the network ----------

  /** The most recent execution for a client. */
  function LastOf(log: seq<Execution>, c: Address): (e: Option<Execution>)
    ensures e.Some? ==> e.value in log && e.value.client == c
  {
    if log == [] then None
    else if log[|log| - 1].client == c then Some(log[|log| - 1])
    else LastOf(log[..|log| - 1], c)
  }

  /** No copy of an older request arrives after a newer one. */
  predicate InOrder(sv: Server, d: Datagram) {
    LastOf(sv.log, d.client).Some? ==> LastOf(sv.log, d.client).value.call <= d.call
  }

  /** Consecutive calls that reach one server are fewer than 256 calls apart. */
  predicate Near(sv: Server, d: Datagram) {
    LastOf(sv.log, d.client).Some? ==> d.call < LastOf(sv.log, d.client).value.call + 0x100
  }

  /** No reply outlives 255 later calls. */
  predicate Recent(cl: Client, d: Datagram) {
    |cl.calls| < d.call + 0x100
  }

  // ---------- the system ----------

  /** What the parties and the network can do at all. */
  ghost predicate Possible(st: State, step: Step) {
    match step
    case BeginCall(c, s, drive, func, extended, checksums, data) =>
      c in st.clients && s in st.servers && !st.clients[c].active && HEADER + |data| <= MAX_REQUEST
    case SendRequest(c) => c in st.clients && st.clients[c].active && st.clients[c].calls != []
    case ServeRequest(d, outcome, readOnly, now) =>
      && d in st.net && d.Request? && d.server in st.servers && st.servers[d.server].items != []
      && ServerAccepts(d.packet) && now > 0
      && (outcome.Some? ==> HEADER + |outcome.value.data| <= MAX_PACKET)
    case ReplyArrives(d, frameLen) =>
      d in st.net && d.Reply? && d.client in st.clients && frameLen >= FRAME_HEADERS + |d.packet|
    case Poll(c, junk, verify) =>
      && c in st.clients && st.clients[c].active && st.clients[c].responseReceived
      && HoldsFrame(st.clients[c].mailbox, junk)
    case EndCall(c) => c in st.clients && st.clients[c].active
  }

  ghost function Next(st: State, step: Step): (st': State)
    requires Possible(st, step)
  {
    match step
    case BeginCall(c, s, drive, func, extended, checksums, data) =>
      st.(clients := st.clients[c := Begun(st.clients[c], s, drive, func, extended, checksums, data)])
    case SendRequest(c) =>
      var n := |st.clients[c].calls|;
      var call := st.clients[c].calls[n - 1];
      st.(net := st.net + {Request(c, call.server, n, call.request)})
    case ServeRequest(d, outcome, readOnly, now) =>
      var served := ServedBy(st.servers[d.server], d, outcome, readOnly, now);
      st.(servers := st.servers[d.server := AfterServing(st.servers[d.server], d, served)],
        net := st.net + if served.reply.Some? then {Reply(d.client, d.server, d.call, served.reply.value)} else {})
    case ReplyArrives(d, frameLen) =>
      st.(clients := st.clients[d.client := Arrived(st.clients[d.client], d, frameLen)])
    case Poll(c, junk, verify) => st.(clients := st.clients[c := Polled(st.clients[c], junk, verify)])
    case EndCall(c) => st.(clients := st.clients[c := st.clients[c].(active := false, mailbox := Free)])
  }

  /** A step that the network assumptions allow. */
  ghost predicate Enabled(st: State, step: Step) {
    && Possible(st, step)
    && (step.ServeRequest? ==> InOrder(st.servers[step.d.server], step.d) && Near(st.servers[step.d.server], step.d))
    && (step.ReplyArrives? ==> Recent(st.clients[step.d.client], step.d))
  }

  ghost function Do(st: State, step: Step): (st': State)
    requires Enabled(st, step)
  {
    Next(st, step)
  }

  const IDLE := Client([], 0, false, Free, false, map[])
  const NEW_SERVER := Server(seq(REPLY_CACHE_SIZE, _ => EMPTY), [])

  ghost predicate Init(st: State) {
    && |st.clients.Keys| <= REPLY_CACHE_SIZE && UNUSED !in st.clients
    && (forall c | c in st.clients :: st.clients[c] == IDLE)
    && (forall s | s in st.servers :: st.servers[s] == Server(seq(REPLY_CACHE_SIZE, _ => EMPTY), []))
    && st.net == {}
  }

  ghost predicate Behavior(run: seq<State>, steps: seq<Step>) {
    && |run| == |steps| + 1 && Init(run[0])
    && forall i | 0 <= i < |steps| :: Enabled(run[i], steps[i]) && run[i + 1] == Do(run[i], steps[i])
  }

  /** A run over a network of which nothing is assumed. */
  ghost predicate FreeBehavior(run: seq<State>, steps: seq<Step>) {
    && |run| == |steps| + 1 && Init(run[0])
    && forall i | 0 <= i < |steps| :: Possible(run[i], steps[i]) && run[i + 1] == Next(run[i], steps[i])
  }

  // ---------- the smallest system ----------

  const CLIENT := Address(1, 1)
  const SERVER := Address(2, 2)
  const BEGIN := BeginCall(CLIENT, SERVER, 0, 0, false, false, [])

  /** One client and one server. */
  function Pair(cl: Client, sv: Server, net: set<Datagram>): (st: State) {
    State(map[CLIENT := cl], map[SERVER := sv], net)
  }

  const AT_REST := Pair(IDLE, NEW_SERVER, {})

  lemma RestIsInitial()
    ensures Init(AT_REST)
  {
    assert map[CLIENT := IDLE].Keys == {CLIENT};
  }
}
