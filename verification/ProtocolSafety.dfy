/** Safety of the protocol over every run: each call is executed at most once and in order, and an accepted
    reply is the reply of that call's one execution. */
module ProtocolSafety {
  import opened Bytes
  import opened DriveProto
  import opened ReplyCaching
  import opened Protocol

  // ---------- the invariant ----------

  predicate CallOk(call: Call, k: nat, servers: set<Address>) {
    && call.server in servers
    && |call.request| >= HEADER && call.request[0] == VERSION && Sequence(call.request) == k % 0x100
  }

  predicate ClientOk(cl: Client, servers: set<Address>) {
    && cl.lastSeq == |cl.calls| % 0x100
    && (forall i | 0 <= i < |cl.calls| :: CallOk(cl.calls[i], i + 1, servers))
    && (forall k | k in cl.results :: k <= |cl.calls|)
    && (cl.active ==> cl.calls != [] && |cl.calls| !in cl.results)
  }

  predicate Executed(servers: map<Address, Server>, s: Address, e: Execution) {
    s in servers && e in servers[s].log
  }

  ghost predicate DatagramOk(clients: map<Address, Client>, servers: map<Address, Server>, d: Datagram) {
    && d.client in clients && d.server in servers && 1 <= d.call <= |clients[d.client].calls|
    && var call := clients[d.client].calls[d.call - 1];
    && call.server == d.server
    && if d.Request? then call.request == d.packet
       else
         && ReplyOk(d.packet, d.call % 0x100)
         && Executed(servers, d.server, Execution(d.client, d.call, Some(d.packet)))
  }

  /** A frame whose arrival set the flag can only be of one of the last 255 calls. */
  predicate MailboxOk(net: set<Datagram>, c: Address, cl: Client) {
    cl.mailbox.Full? ==>
      var d := cl.mailbox.frame;
      && d in net && d.Reply? && d.client == c && (cl.responseReceived ==> Recent(cl, d))
      && FRAME_HEADERS + HEADER <= cl.mailbox.frameLen
      && FRAME_HEADERS + |d.packet| <= cl.mailbox.frameLen <= MAX_FRAMESIZE
  }

  predicate ResultsOk(servers: map<Address, Server>, c: Address, cl: Client) {
    forall k | k in cl.results ::
      && 1 <= k <= |cl.calls| && Executed(servers, cl.calls[k - 1].server, Execution(c, k, Some(cl.results[k])))
      && FRAME_HEADERS + |cl.results[k]| <= MAX_FRAMESIZE
  }

  /** A reply bears the call's sequence number, and its client accepts it. */
  ghost predicate ReplyOk(packet: seq<byte>, sequence: byte) {
    |packet| >= HEADER && Sequence(packet) == sequence && Acceptable(packet, sequence)
  }

  /** An execution is of a call addressed to s, and its reply bears the call's sequence number. */
  ghost predicate ExecutionOk(clients: map<Address, Client>, s: Address, e: Execution) {
    && e.client in clients && 1 <= e.call <= |clients[e.client].calls|
    && clients[e.client].calls[e.call - 1].server == s
    && (e.reply.Some? ==> ReplyOk(e.reply.value, e.call % 0x100))
  }

  /** Executions follow the order of the client's calls. */
  ghost predicate LogOk(clients: map<Address, Client>, s: Address, log: seq<Execution>) {
    log == [] ||
      var front, e := log[..|log| - 1], log[|log| - 1];
      && LogOk(clients, s, front)
      && ExecutionOk(clients, s, e)
      && (LastOf(front, e.client).Some? ==> LastOf(front, e.client).value.call < e.call)
  }

  ghost predicate EntryOk(clients: map<Address, Client>, log: seq<Execution>, info: ReplyInfo) {
    var last := LastOf(log, info.addr);
    && last.Some? && info.addr in clients && 1 <= last.value.call <= |clients[info.addr].calls|
    && info.recvPacket == clients[info.addr].calls[last.value.call - 1].request
    && info.sendPacket == (if last.value.reply.Some? then last.value.reply.value else [])
    && (last.value.reply.Some? ==> last.value.reply.value != [])
  }

  /** Every client that was served has one entry, which holds its last executed call. */
  ghost predicate CacheOk(clients: map<Address, Client>, sv: Server) {
    && CacheValid(sv.items, clients.Keys)
    && (forall k | 0 <= k < |sv.items| && sv.items[k] != EMPTY :: EntryOk(clients, sv.log, sv.items[k]))
    && (forall c | LastOf(sv.log, c).Some? :: c in InUse(sv.items))
  }

  ghost predicate Inv(st: State) {
    && |st.clients.Keys| <= REPLY_CACHE_SIZE && UNUSED !in st.clients
    && (forall c | c in st.clients ::
          && ClientOk(st.clients[c], st.servers.Keys)
          && MailboxOk(st.net, c, st.clients[c])
          && ResultsOk(st.servers, c, st.clients[c]))
    && (forall s | s in st.servers :: LogOk(st.clients, s, st.servers[s].log) && CacheOk(st.clients, st.servers[s]))
    && (forall d | d in st.net :: DatagramOk(st.clients, st.servers, d))
  }

  // ---------- what only grows ----------

  predicate CallsGrow(a: map<Address, Client>, b: map<Address, Client>) {
    a.Keys == b.Keys && forall c | c in a :: a[c].calls <= b[c].calls
  }

  predicate LogsGrow(a: map<Address, Server>, b: map<Address, Server>) {
    a.Keys == b.Keys && forall s | s in a :: a[s].log <= b[s].log
  }

  predicate Grows(a: State, b: State) {
    CallsGrow(a.clients, b.clients) && LogsGrow(a.servers, b.servers) && a.net <= b.net
  }

  lemma DatagramStaysOk(a: State, b: State, d: Datagram)
    requires Grows(a, b) && DatagramOk(a.clients, a.servers, d)
    ensures DatagramOk(b.clients, b.servers, d)
  {
  }

  lemma ResultsStayOk(a: map<Address, Server>, b: map<Address, Server>, c: Address, cl: Client)
    requires LogsGrow(a, b) && ResultsOk(a, c, cl)
    ensures ResultsOk(b, c, cl)
  {
    forall k | k in cl.results
      ensures 1 <= k <= |cl.calls| && Executed(b, cl.calls[k - 1].server, Execution(c, k, Some(cl.results[k])))
      ensures FRAME_HEADERS + |cl.results[k]| <= MAX_FRAMESIZE
    {
      assert Executed(a, cl.calls[k - 1].server, Execution(c, k, Some(cl.results[k])));
    }
  }

  lemma {:induction false} LogStaysOk(a: map<Address, Client>, b: map<Address, Client>, s: Address, log: seq<Execution>)
    requires CallsGrow(a, b) && LogOk(a, s, log)
    ensures LogOk(b, s, log)
  {
    if log != [] { LogStaysOk(a, b, s, log[..|log| - 1]); }
  }

  lemma CacheStaysOk(a: map<Address, Client>, b: map<Address, Client>, sv: Server)
    requires CallsGrow(a, b) && CacheOk(a, sv)
    ensures CacheOk(b, sv)
  {
    forall k | 0 <= k < |sv.items| && sv.items[k] != EMPTY ensures EntryOk(b, sv.log, sv.items[k]) {
      assert EntryOk(a, sv.log, sv.items[k]);
    }
  }

  // ---------- steps of a client ----------

  /** A step that changes one client, and perhaps adds its current request to the network. */
  lemma ClientStep(st: State, c: Address, cl: Client, added: set<Datagram>)
    requires Inv(st) && c in st.clients && st.clients[c].calls <= cl.calls
    requires ClientOk(cl, st.servers.Keys) && MailboxOk(st.net + added, c, cl) && ResultsOk(st.servers, c, cl)
    requires forall d | d in added :: DatagramOk(st.clients[c := cl], st.servers, d)
    ensures var b := st.(clients := st.clients[c := cl], net := st.net + added);
      Inv(b) && Grows(st, b)
  {
    hide CacheOk; hide LogOk; hide ClientOk; hide ResultsOk;
    var b := st.(clients := st.clients[c := cl], net := st.net + added);
    assert b.clients.Keys == st.clients.Keys;
    forall d | d in b.net ensures DatagramOk(b.clients, b.servers, d) {
      if d in st.net { DatagramStaysOk(st, b, d); }
    }
    forall s | s in b.servers ensures LogOk(b.clients, s, b.servers[s].log) && CacheOk(b.clients, b.servers[s]) {
      LogStaysOk(st.clients, b.clients, s, b.servers[s].log);
      CacheStaysOk(st.clients, b.clients, b.servers[s]);
    }
  }

  lemma CallAdded(cl: Client, servers: set<Address>, call: Call)
    requires ClientOk(cl, servers) && CallOk(call, |cl.calls| + 1, servers)
    ensures ClientOk(cl.(calls := cl.calls + [call], lastSeq := (|cl.calls| + 1) % 0x100, active := true,
                         responseReceived := false), servers)
  {
    var b := cl.(calls := cl.calls + [call], lastSeq := (|cl.calls| + 1) % 0x100, active := true,
                 responseReceived := false);
    forall i | 0 <= i < |b.calls| ensures CallOk(b.calls[i], i + 1, servers) {
      if i < |cl.calls| { assert b.calls[i] == cl.calls[i]; }
    }
  }

  lemma BegunShape(cl: Client, servers: set<Address>, s: Address, drive: byte, func: byte, extended: bool,
          checksums: bool, data: seq<byte>)
    returns (call: Call)
    requires cl.lastSeq == |cl.calls| % 0x100 && s in servers && HEADER + |data| <= MAX_REQUEST
    ensures CallOk(call, |cl.calls| + 1, servers)
    ensures Begun(cl, s, drive, func, extended, checksums, data)
         == cl.(calls := cl.calls + [call], lastSeq := (|cl.calls| + 1) % 0x100, active := true,
                responseReceived := false)
  {
    var sequence := (cl.lastSeq + 1) % 0x100;
    call := Call(s, RequestPacket(sequence, drive, func, extended, checksums, data));
    assert |call.request| >= HEADER && call.request[0] == VERSION && Sequence(call.request) == sequence by {
      RequestHeader(sequence, drive, func, extended, checksums, data);
    }
    NextSequence(cl.lastSeq, |cl.calls|);
  }

  lemma NextSequence(lastSeq: byte, n: nat)
    requires lastSeq == n % 0x100
    ensures (lastSeq + 1) % 0x100 == (n + 1) % 0x100
  {
  }

  lemma BeginWith(st: State, c: Address, call: Call)
    requires Inv(st) && c in st.clients && CallOk(call, |st.clients[c].calls| + 1, st.servers.Keys)
    ensures var cl := st.clients[c];
      var b := st.(clients := st.clients[c := cl.(calls := cl.calls + [call], lastSeq := (|cl.calls| + 1) % 0x100,
        active := true, responseReceived := false)]);
      Inv(b) && Grows(st, b)
  {
    var cl := st.clients[c];
    CallAdded(cl, st.servers.Keys, call);
    ReplaceClient(st, c, cl.(calls := cl.calls + [call], lastSeq := (|cl.calls| + 1) % 0x100,
      active := true, responseReceived := false));
  }

  lemma BeginKeepsInv(st: State, step: Step)
    requires Inv(st) && Enabled(st, step) && step.BeginCall?
    ensures Inv(Do(st, step)) && Grows(st, Do(st, step))
  {
    var call := BegunShape(st.clients[step.c], st.servers.Keys, step.s, step.drive, step.func, step.extended,
      step.checksums, step.data);
    BeginWith(st, step.c, call);
  }

  /** A client whose results are what they were. */
  lemma ReplaceClient(st: State, c: Address, cl: Client)
    requires Inv(st) && c in st.clients && ClientOk(cl, st.servers.Keys) && st.clients[c].calls <= cl.calls
    requires cl.results == st.clients[c].results && MailboxOk(st.net, c, cl)
    ensures var b := st.(clients := st.clients[c := cl]);
      Inv(b) && Grows(st, b)
  {
    hide CacheOk; hide LogOk; hide ClientOk; hide MailboxOk;
    var was := st.clients[c];
    forall k | k in cl.results ensures 1 <= k <= |cl.calls| && cl.calls[k - 1] == was.calls[k - 1] {
      assert ResultsOk(st.servers, c, was);
    }
    assert ResultsOk(st.servers, c, cl);
    assert st.net + {} == st.net;
    ClientStep(st, c, cl, {});
  }

  lemma EndKeepsInv(st: State, step: Step)
    requires Inv(st) && Enabled(st, step) && step.EndCall?
    ensures Inv(Do(st, step)) && Grows(st, Do(st, step))
  {
    ReplaceClient(st, step.c, st.clients[step.c].(active := false, mailbox := Free));
  }

  lemma SendKeepsInv(st: State, step: Step)
    requires Inv(st) && Enabled(st, step) && step.SendRequest?
    ensures Inv(Do(st, step)) && Grows(st, Do(st, step))
  {
    hide CacheOk; hide LogOk; hide ResultsOk; hide MailboxOk; hide Grows; hide CallOk;
    var c, cl := step.c, st.clients[step.c];
    var call := cl.calls[|cl.calls| - 1];
    var d := Request(c, call.server, |cl.calls|, call.request);
    assert st.clients[c := cl] == st.clients;
    CurrentRequestOk(st, c);
    StillOk(st, c, {d});
    ClientStep(st, c, cl, {d});
  }

  lemma CurrentRequestOk(st: State, c: Address)
    requires Inv(st) && c in st.clients && st.clients[c].calls != []
    ensures var cl := st.clients[c];
      var call := cl.calls[|cl.calls| - 1];
      DatagramOk(st.clients, st.servers, Request(c, call.server, |cl.calls|, call.request))
  {
    hide CacheOk; hide LogOk; hide ResultsOk; hide MailboxOk;
    var cl := st.clients[c];
    assert ClientOk(cl, st.servers.Keys) && CallOk(cl.calls[|cl.calls| - 1], |cl.calls|, st.servers.Keys);
  }

  lemma StillOk(st: State, c: Address, added: set<Datagram>)
    requires Inv(st) && c in st.clients
    ensures var cl := st.clients[c];
      ClientOk(cl, st.servers.Keys) && MailboxOk(st.net + added, c, cl) && ResultsOk(st.servers, c, cl)
  {
    hide CacheOk; hide LogOk; hide ResultsOk; hide DatagramOk; hide ClientOk;
    assert MailboxOk(st.net, c, st.clients[c]);
  }

  lemma ArrivedOk(cl: Client, servers: set<Address>, net: set<Datagram>, c: Address, d: Datagram, frameLen: nat)
    requires ClientOk(cl, servers) && MailboxOk(net, c, cl) && d in net && d.Reply? && d.client == c && Recent(cl, d)
    requires frameLen >= FRAME_HEADERS + |d.packet|
    ensures var b := Arrived(cl, d, frameLen);
      ClientOk(b, servers) && MailboxOk(net, c, b) && b.results == cl.results && b.calls == cl.calls
  {
    hide CallOk;
  }

  lemma ArriveKeepsInv(st: State, step: Step)
    requires Inv(st) && Enabled(st, step) && step.ReplyArrives?
    ensures Inv(Do(st, step)) && Grows(st, Do(st, step))
  {
    hide CacheOk; hide LogOk; hide ClientOk; hide MailboxOk; hide ResultsOk; hide DatagramOk; hide Arrived; hide Grows;
    var c := step.d.client;
    ArrivedOk(st.clients[c], st.servers.Keys, st.net, c, step.d, step.frameLen);
    ReplaceClient(st, c, Arrived(st.clients[c], step.d, step.frameLen));
  }

  /** An accepted frame answers the current call: its sequence number is that of no other call it could be from. */
  lemma AcceptedIsCurrent(st: State, c: Address, junk: seq<byte>, verify: bool)
    requires Inv(st) && c in st.clients && st.clients[c].responseReceived && st.clients[c].mailbox.Full?
    requires HoldsFrame(st.clients[c].mailbox, junk)
    requires var cl := st.clients[c];
      ClientAccepts(cl.mailbox.frameLen, cl.mailbox.frame.packet + junk, cl.lastSeq, verify)
    ensures var cl := st.clients[c];
      cl.mailbox.frame.call == |cl.calls|
      && Executed(st.servers, cl.calls[|cl.calls| - 1].server, Execution(c, |cl.calls|, Some(cl.mailbox.frame.packet)))
  {
    var cl := st.clients[c];
    var d := cl.mailbox.frame;
    assert MailboxOk(st.net, c, cl) && DatagramOk(st.clients, st.servers, d) && ClientOk(cl, st.servers.Keys);
    assert CallOk(cl.calls[|cl.calls| - 1], |cl.calls|, st.servers.Keys);
    assert Sequence(d.packet + junk) == Sequence(d.packet);
    SameResidue(|cl.calls|, d.call);
  }

  lemma SameResidue(a: nat, b: nat)
    requires a % 0x100 == b % 0x100 && b <= a < b + 0x100
    ensures a == b
  {
  }

  lemma PolledOk(cl: Client, servers: set<Address>, net: set<Datagram>, c: Address, junk: seq<byte>, verify: bool)
    requires ClientOk(cl, servers) && MailboxOk(net, c, cl) && HoldsFrame(cl.mailbox, junk)
    ensures var b := Polled(cl, junk, verify);
      && b.calls == cl.calls && b.mailbox.Free?
      && (b == cl.(mailbox := Free)
          || (cl.mailbox.Full?
              && ClientAccepts(cl.mailbox.frameLen, cl.mailbox.frame.packet + junk, cl.lastSeq, verify)
              && b == cl.(results := cl.results[|cl.calls| := cl.mailbox.frame.packet], active := false,
                          mailbox := Free)))
  {
    hide ClientAccepts;
  }

  lemma PollKeepsInv(st: State, step: Step)
    requires Inv(st) && Enabled(st, step) && step.Poll?
    ensures Inv(Do(st, step)) && Grows(st, Do(st, step))
  {
    hide CacheOk; hide LogOk; hide ResultsOk; hide DatagramOk; hide Polled; hide Grows; hide ClientAccepts; hide CallOk;
    var c, cl := step.c, st.clients[step.c];
    PolledOk(cl, st.servers.Keys, st.net, c, step.junk, step.verify);
    if Polled(cl, step.junk, step.verify) == cl.(mailbox := Free) {
      ReplaceClient(st, c, cl.(mailbox := Free));
    } else {
      AcceptedIsCurrent(st, c, step.junk, step.verify);
      ResultAdded(st, c, cl.mailbox.frame.packet);
    }
  }

  lemma ResultAdded(st: State, c: Address, packet: seq<byte>)
    requires Inv(st) && c in st.clients && st.clients[c].calls != [] && FRAME_HEADERS + |packet| <= MAX_FRAMESIZE
    requires var cl := st.clients[c];
      Executed(st.servers, cl.calls[|cl.calls| - 1].server, Execution(c, |cl.calls|, Some(packet)))
    ensures var cl := st.clients[c];
      var after := cl.(results := cl.results[|cl.calls| := packet], active := false, mailbox := Free);
      var b := st.(clients := st.clients[c := after]);
      Inv(b) && Grows(st, b)
  {
    hide CacheOk; hide LogOk;
    var cl := st.clients[c];
    var b := cl.(results := cl.results[|cl.calls| := packet], active := false, mailbox := Free);
    assert ResultsOk(st.servers, c, cl);
    assert st.net + {} == st.net;
    ClientStep(st, c, b, {});
  }

  // ---------- the step of a server ----------

  lemma {:induction false} LastIsLargest(clients: map<Address, Client>, s: Address, log: seq<Execution>, i: nat)
    requires LogOk(clients, s, log) && i < |log|
    ensures LastOf(log, log[i].client).Some? && log[i].call <= LastOf(log, log[i].client).value.call
    decreases |log|
  {
    var n := |log| - 1;
    if i < n {
      LastIsLargest(clients, s, log[..n], i);
    }
  }

  lemma {:induction false} LoggedIsIssued(clients: map<Address, Client>, s: Address, log: seq<Execution>, e: Execution)
    requires LogOk(clients, s, log) && e in log
    ensures ExecutionOk(clients, s, e)
    decreases |log|
  {
    var n := |log| - 1;
    if log[n] != e {
      assert e in log[..n];
      LoggedIsIssued(clients, s, log[..n], e);
    }
  }

  /** Equal requests of calls fewer than 256 apart are of the same call. */
  lemma SameRequestSameCall(calls: seq<Call>, servers: set<Address>, j: nat, k: nat)
    requires 1 <= j <= k <= |calls| && k < j + 0x100
    requires CallOk(calls[j - 1], j, servers) && CallOk(calls[k - 1], k, servers)
    ensures calls[j - 1].request == calls[k - 1].request ==> j == k
  {
    if calls[j - 1].request == calls[k - 1].request { SameResidue(k, j); }
  }

  /** A request on its way to server s, whose state is sv, under the assumptions on the network. */
  ghost predicate Deliverable(clients: map<Address, Client>, servers: set<Address>, s: Address, sv: Server, d: Datagram)
  {
    && d.client in clients && d.client != UNUSED && |clients.Keys| <= REPLY_CACHE_SIZE
    && ClientOk(clients[d.client], servers)
    && 1 <= d.call <= |clients[d.client].calls| && clients[d.client].calls[d.call - 1] == Call(s, d.packet)
    && LogOk(clients, s, sv.log) && CacheOk(clients, sv)
    && InOrder(sv, d) && Near(sv, d)
  }

  lemma InFlightIsDeliverable(st: State, d: Datagram)
    requires Inv(st) && d in st.net && d.Request? && d.server in st.servers
    requires InOrder(st.servers[d.server], d) && Near(st.servers[d.server], d)
    ensures Deliverable(st.clients, st.servers.Keys, d.server, st.servers[d.server], d)
  {
    assert DatagramOk(st.clients, st.servers, d);
  }

  /** A request that is the cached one is a repetition of the last executed call; any other is a later call. */
  lemma DuplicateIffLastCall(clients: map<Address, Client>, servers: set<Address>, s: Address, sv: Server, d: Datagram)
    requires Deliverable(clients, servers, s, sv, d)
    ensures var last, calls := LastOf(sv.log, d.client), clients[d.client].calls;
      last.Some? ==>
        && 1 <= last.value.call <= |calls|
        && (calls[last.value.call - 1].request == d.packet <==> last.value.call == d.call)
  {
    var last := LastOf(sv.log, d.client);
    if last.Some? {
      LoggedIsIssued(clients, s, sv.log, last.value);
      SameRequestSameCall(clients[d.client].calls, servers, last.value.call, d.call);
    }
  }

  /** The entry that answers a client is the one of its last executed call, or an empty one. */
  lemma EntryConsulted(clients: map<Address, Client>, sv: Server, c: Address)
    requires CacheOk(clients, sv) && |clients.Keys| <= REPLY_CACHE_SIZE && c in clients && c != UNUSED
    ensures var info := Reserve(sv.items, c)[SlotOf(sv.items, c)];
      if LastOf(sv.log, c).Some? then EntryOk(clients, sv.log, info) && info.addr == c
      else info.recvPacket == []
  {
    var k := ServeWritesOneEntry(sv.items, clients.Keys, c, [], None, 1);
    if c in InUse(sv.items) {
      assert EntryOk(clients, sv.log, sv.items[k]);
    }
  }

  /** The cache recognises a repetition of the client's last executed call, and nothing else. */
  lemma Recognised(clients: map<Address, Client>, servers: set<Address>, s: Address, sv: Server, d: Datagram)
    requires Deliverable(clients, servers, s, sv, d)
    ensures var last, info := LastOf(sv.log, d.client), Reserve(sv.items, d.client)[SlotOf(sv.items, d.client)];
      && (IsDuplicate(info, d.packet) <==> last.Some? && last.value.call == d.call)
      && (last.Some? ==> last.value.reply == (if info.sendPacket != [] then Some(info.sendPacket) else None))
  {
    EntryConsulted(clients, sv, d.client);
    DuplicateIffLastCall(clients, servers, s, sv, d);
  }

  /** The server executes a request exactly when its call was not executed before, and answers a repetition
      with the reply of that call's execution. */
  lemma ServedRight(clients: map<Address, Client>, servers: set<Address>, s: Address, sv: Server, d: Datagram,
          outcome: Option<seq<byte>>, now: int)
    requires Deliverable(clients, servers, s, sv, d) && (outcome.Some? ==> outcome.value != [])
    ensures var last := LastOf(sv.log, d.client);
      var served := Serve(sv.items, d.client, d.packet, outcome, now);
      && (served.executed <==> last.None? || last.value.call < d.call)
      && served.reply == (if served.executed then outcome else last.value.reply)
  {
    Recognised(clients, servers, s, sv, d);
  }

  /** The log with e added, or with e its client's last execution already. */
  function Logged(log: seq<Execution>, e: Execution, executed: bool): (r: seq<Execution>) {
    if executed then log + [e] else log
  }

  lemma LoggedOk(clients: map<Address, Client>, s: Address, log: seq<Execution>, e: Execution, executed: bool)
    requires LogOk(clients, s, log) && (executed ==> ExecutionOk(clients, s, e))
    requires var last := LastOf(log, e.client);
      if executed then last.None? || last.value.call < e.call else last == Some(e)
    ensures LogOk(clients, s, Logged(log, e, executed)) && log <= Logged(log, e, executed)
    ensures LastOf(Logged(log, e, executed), e.client) == Some(e)
  {
    assert (log + [e])[..|log|] == log;
  }

  lemma LastOfLogged(log: seq<Execution>, e: Execution, executed: bool, c: Address)
    requires c != e.client
    ensures LastOf(Logged(log, e, executed), c) == LastOf(log, c)
  {
    assert (log + [e])[..|log|] == log;
  }

  /** The written entry holds e's call and reply; the others still agree with the log. */
  lemma CacheStep(clients: map<Address, Client>, sv: Server, k: nat, info: ReplyInfo, e: Execution, executed: bool)
    requires CacheOk(clients, sv) && k < |sv.items| && info.addr == e.client && info.timestamp > 0 && info != EMPTY
    requires if e.client in InUse(sv.items) then sv.items[k] != EMPTY && sv.items[k].addr == e.client
             else sv.items[k] == EMPTY
    requires EntryOk(clients, Logged(sv.log, e, executed), info)
    ensures CacheOk(clients, Server(sv.items[k := info], Logged(sv.log, e, executed)))
  {
    assert info.addr in clients;
    hide EntryOk; hide Logged; hide LastOf;
    EntryWritten(sv.items, clients.Keys, k, info);
    var items, log := sv.items[k := info], Logged(sv.log, e, executed);
    forall j | 0 <= j < |items| && items[j] != EMPTY ensures EntryOk(clients, log, items[j]) {
      if j != k { EntryStaysOk(clients, sv.log, e, executed, items[j]); }
    }
    forall c | LastOf(log, c).Some? ensures c in InUse(items) {
      if c != e.client { LastOfLogged(sv.log, e, executed, c); }
    }
  }

  lemma EntryStaysOk(clients: map<Address, Client>, log: seq<Execution>, e: Execution, executed: bool, info: ReplyInfo)
    requires EntryOk(clients, log, info) && info.addr != e.client
    ensures EntryOk(clients, Logged(log, e, executed), info)
  {
    LastOfLogged(log, e, executed, info.addr);
  }

  /** The entry written for a request holds the request and the reply of its execution. */
  lemma EntryAfter(clients: map<Address, Client>, servers: set<Address>, s: Address, sv: Server, d: Datagram,
          outcome: Option<seq<byte>>, now: int)
    returns (k: nat)
    requires Deliverable(clients, servers, s, sv, d) && (outcome.Some? ==> outcome.value != [])
    ensures var served := Serve(sv.items, d.client, d.packet, outcome, now);
      && k < |sv.items| && served.items == sv.items[k := served.items[k]]
      && (if d.client in InUse(sv.items) then sv.items[k] != EMPTY && sv.items[k].addr == d.client
          else sv.items[k] == EMPTY)
      && served.items[k].addr == d.client && served.items[k].timestamp == now
      && served.items[k].recvPacket == d.packet
      && served.reply == if served.items[k].sendPacket == [] then None else Some(served.items[k].sendPacket)
  {
    k := ServeWritesOneEntry(sv.items, clients.Keys, d.client, d.packet, outcome, now);
  }

  /** What serving a request amounts to, for the log and for the cache. */
  ghost predicate Rightly(sv: Server, d: Datagram, served: Served, k: nat) {
    var last := LastOf(sv.log, d.client);
    && (if served.executed then last.None? || last.value.call < d.call
        else last == Some(Execution(d.client, d.call, served.reply)))
    && k < |sv.items| && |served.items| == |sv.items| && served.items == sv.items[k := served.items[k]]
    && (if d.client in InUse(sv.items) then sv.items[k] != EMPTY && sv.items[k].addr == d.client
          else sv.items[k] == EMPTY)
    && served.items[k].addr == d.client && served.items[k].timestamp > 0
    && served.items[k].recvPacket == d.packet
    && served.reply == (if served.items[k].sendPacket == [] then None else Some(served.items[k].sendPacket))
  }

  lemma ServesRightly(clients: map<Address, Client>, servers: set<Address>, s: Address, sv: Server, d: Datagram,
          outcome: Option<seq<byte>>, now: int)
    returns (k: nat)
    requires Deliverable(clients, servers, s, sv, d) && (outcome.Some? ==> outcome.value != []) && now > 0
    ensures Rightly(sv, d, Serve(sv.items, d.client, d.packet, outcome, now), k)
  {
    ServedRight(clients, servers, s, sv, d, outcome, now);
    k := EntryAfter(clients, servers, s, sv, d, outcome, now);
    LastIsLogged(clients, servers, s, sv, d);
  }

  lemma LastIsLogged(clients: map<Address, Client>, servers: set<Address>, s: Address, sv: Server, d: Datagram)
    requires Deliverable(clients, servers, s, sv, d)
    ensures var last := LastOf(sv.log, d.client);
      last.Some? ==> last.value.client == d.client && last.value.call <= d.call
  {
  }

  /** After serving a request the server's log is in order and its cache agrees with it. */
  lemma ServerStaysOk(clients: map<Address, Client>, servers: set<Address>, s: Address, sv: Server, d: Datagram,
          served: Served, k: nat)
    requires Deliverable(clients, servers, s, sv, d) && Rightly(sv, d, served, k)
    requires served.executed ==> ExecutionOk(clients, s, Execution(d.client, d.call, served.reply))
    ensures var b := AfterServing(sv, d, served);
      && LogOk(clients, s, b.log) && CacheOk(clients, b) && sv.log <= b.log
      && Execution(d.client, d.call, served.reply) in b.log
  {
    var e := Execution(d.client, d.call, served.reply);
    LoggedOk(clients, s, sv.log, e, served.executed);
    LastIsIn(sv, d, served, k);
    EntryWrittenOk(clients, servers, s, sv, d, served, k);
    hide CacheOk; hide LogOk; hide LastOf; hide EntryOk; hide ExecutionOk; hide ReplyOk; hide ServerAccepts;
    CacheStep(clients, sv, k, served.items[k], e, served.executed);
  }

  lemma EntryWrittenOk(clients: map<Address, Client>, servers: set<Address>, s: Address, sv: Server, d: Datagram,
          served: Served, k: nat)
    requires Deliverable(clients, servers, s, sv, d) && Rightly(sv, d, served, k)
    requires LastOf(Logged(sv.log, Execution(d.client, d.call, served.reply), served.executed), d.client)
      == Some(Execution(d.client, d.call, served.reply))
    ensures var e := Execution(d.client, d.call, served.reply);
      EntryOk(clients, Logged(sv.log, e, served.executed), served.items[k])
  {
    hide CacheOk; hide LogOk; hide LastOf; hide Logged; hide ReplyOk; hide ServerAccepts;
  }

  lemma LastIsIn(sv: Server, d: Datagram, served: Served, k: nat)
    requires Rightly(sv, d, served, k)
    ensures Execution(d.client, d.call, served.reply) in AfterServing(sv, d, served).log
  {
  }

  /** A step that replaces one server's state and perhaps adds one reply to the network. */
  lemma ServerStep(st: State, s: Address, b: Server, added: set<Datagram>)
    requires Inv(st) && s in st.servers && st.servers[s].log <= b.log
    requires LogOk(st.clients, s, b.log) && CacheOk(st.clients, b)
    requires forall d | d in added :: DatagramOk(st.clients, st.servers[s := b], d)
    ensures var t := st.(servers := st.servers[s := b], net := st.net + added);
      Inv(t) && Grows(st, t)
  {
    hide CacheOk; hide LogOk; hide ClientOk; hide ResultsOk;
    var t := st.(servers := st.servers[s := b], net := st.net + added);
    assert t.servers.Keys == st.servers.Keys;
    assert Grows(st, t);
    forall d | d in t.net ensures DatagramOk(t.clients, t.servers, d) {
      if d in st.net { DatagramStaysOk(st, t, d); }
    }
    forall c | c in t.clients ensures ResultsOk(t.servers, c, t.clients[c]) && MailboxOk(t.net, c, t.clients[c]) {
      ResultsStayOk(st.servers, t.servers, c, st.clients[c]);
    }
  }

  /** The reply of an execution bears the sequence number of the request. */
  lemma ReplyOfOk(d: Datagram, outcome: Option<Answer>, readOnly: bool)
    requires |d.packet| >= HEADER && d.packet[0] == VERSION
    requires outcome.Some? ==> HEADER + |outcome.value.data| <= MAX_PACKET
    ensures var r := ReplyOf(d, outcome, readOnly);
      r.Some? ==> ReplyOk(r.value, Sequence(d.packet))
  {
    if outcome.Some? {
      ReplyHeader(d.packet, outcome.value, readOnly);
      ReplyAcceptable(d.packet, outcome.value, readOnly);
    }
  }

  lemma ServeKeepsInv(st: State, step: Step)
    requires Inv(st) && Enabled(st, step) && step.ServeRequest?
    ensures Inv(Do(st, step)) && Grows(st, Do(st, step))
  {
    var d, sv := step.d, st.servers[step.d.server];
    InFlightIsDeliverable(st, d);
    var served := ServedBy(sv, d, step.outcome, step.readOnly, step.now);
    ReplyOfOk(d, step.outcome, step.readOnly);
    ServeStep(st, d, sv, ReplyOf(d, step.outcome, step.readOnly), step.now);
  }

  lemma NotEmpty(packet: seq<byte>, sequence: byte)
    requires ReplyOk(packet, sequence)
    ensures packet != []
  {
  }

  lemma IssuedOk(clients: map<Address, Client>, servers: set<Address>, s: Address, sv: Server, d: Datagram)
    requires Deliverable(clients, servers, s, sv, d) && |d.packet| >= HEADER
    ensures Sequence(d.packet) == d.call % 0x100
  {
    assert CallOk(clients[d.client].calls[d.call - 1], d.call, servers);
  }

  lemma LastReplyOk(clients: map<Address, Client>, s: Address, sv: Server, d: Datagram)
    requires LogOk(clients, s, sv.log)
    ensures var last := LastOf(sv.log, d.client); last.Some? ==> ExecutionOk(clients, s, last.value)
  {
    var last := LastOf(sv.log, d.client);
    if last.Some? { LoggedIsIssued(clients, s, sv.log, last.value); }
  }

  /** What serving a request yields, apart from how Serve computes it. */
  lemma ServeOutcome(clients: map<Address, Client>, servers: set<Address>, s: Address, sv: Server, d: Datagram,
          outcome: Option<seq<byte>>, now: int)
    returns (served: Served)
    requires sv.items != []
    requires Deliverable(clients, servers, s, sv, d) && now > 0 && |d.packet| >= HEADER
    requires outcome.Some? ==> ReplyOk(outcome.value, Sequence(d.packet))
    ensures served == Serve(sv.items, d.client, d.packet, outcome, now)
    ensures var b := AfterServing(sv, d, served);
      && LogOk(clients, s, b.log) && CacheOk(clients, b) && sv.log <= b.log
      && Execution(d.client, d.call, served.reply) in b.log
  {
    hide Serve; hide CacheOk; hide LogOk; hide Near; hide InOrder; hide LastOf; hide ClientOk; hide ReplyOk;
    served := Serve(sv.items, d.client, d.packet, outcome, now);
    if outcome.Some? { NotEmpty(outcome.value, Sequence(d.packet)); }
    ServedRight(clients, servers, s, sv, d, outcome, now);
    var k := ServesRightly(clients, servers, s, sv, d, outcome, now);
    IssuedOk(clients, servers, s, sv, d);
    LastReplyOk(clients, s, sv, d);
    ServerStaysOk(clients, servers, s, sv, d, served, k);
  }

  lemma LoggedReplyOk(clients: map<Address, Client>, servers: map<Address, Server>, s: Address, log: seq<Execution>,
          d: Datagram, reply: seq<byte>)
    requires LogOk(clients, s, log) && Execution(d.client, d.call, Some(reply)) in log
    requires s in servers && servers[s].log == log
    ensures DatagramOk(clients, servers, Reply(d.client, s, d.call, reply))
  {
    LoggedIsIssued(clients, s, log, Execution(d.client, d.call, Some(reply)));
  }

  lemma ServeStep(st: State, d: Datagram, sv: Server, outcome: Option<seq<byte>>, now: int)
    requires Inv(st) && d.server in st.servers && sv == st.servers[d.server] && now > 0 && sv.items != []
    requires Deliverable(st.clients, st.servers.Keys, d.server, sv, d) && |d.packet| >= HEADER
    requires outcome.Some? ==> ReplyOk(outcome.value, Sequence(d.packet))
    ensures var served := Serve(sv.items, d.client, d.packet, outcome, now);
      var t := st.(servers := st.servers[d.server := AfterServing(sv, d, served)],
        net := st.net + if served.reply.Some? then {Reply(d.client, d.server, d.call, served.reply.value)} else {});
      Inv(t) && Grows(st, t)
  {
    hide Serve; hide CacheOk; hide LogOk; hide Deliverable; hide Inv; hide Grows; hide DatagramOk;
    var served := ServeOutcome(st.clients, st.servers.Keys, d.server, sv, d, outcome, now);
    var b := AfterServing(sv, d, served);
    if served.reply.Some? {
      LoggedReplyOk(st.clients, st.servers[d.server := b], d.server, b.log, d, served.reply.value);
    }
    ServerStep(st, d.server, b,
               if served.reply.Some? then {Reply(d.client, d.server, d.call, served.reply.value)} else {});
  }
}
