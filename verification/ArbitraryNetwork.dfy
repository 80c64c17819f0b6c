/** What the servers do if nothing is assumed of the network, and so what the assumptions are for. */
module ArbitraryNetwork {
  import opened Bytes
  import opened DriveProto
  import opened ReplyCaching
  import opened Protocol
  import opened ProtocolSafety

  // ---------- what holds even so ----------

  ghost predicate CallsOk(cl: Client, servers: set<Address>) {
    cl.lastSeq == |cl.calls| % 0x100 && forall i | 0 <= i < |cl.calls| :: CallOk(cl.calls[i], i + 1, servers)
  }

  /** A call that was made, to this server. */
  predicate Made(clients: map<Address, Client>, c: Address, s: Address, k: nat) {
    c in clients && 1 <= k <= |clients[c].calls| && clients[c].calls[k - 1].server == s
  }

  predicate RequestMade(clients: map<Address, Client>, servers: set<Address>, d: Datagram) {
    d.Request? ==>
      && d.server in servers && Made(clients, d.client, d.server, d.call)
      && clients[d.client].calls[d.call - 1].request == d.packet
  }

  /** Only calls that were made are executed, and each client's entry holds the last one executed, in the order of
      execution. */
  ghost predicate ServerOk(clients: map<Address, Client>, s: Address, sv: Server) {
    && CacheOk(clients, sv)
    && forall i | 0 <= i < |sv.log| :: Made(clients, sv.log[i].client, s, sv.log[i].call)
  }

  ghost predicate FreeInv(st: State) {
    && |st.clients.Keys| <= REPLY_CACHE_SIZE && UNUSED !in st.clients
    && (forall c | c in st.clients :: CallsOk(st.clients[c], st.servers.Keys))
    && (forall s | s in st.servers :: ServerOk(st.clients, s, st.servers[s]))
    && (forall d | d in st.net :: RequestMade(st.clients, st.servers.Keys, d))
  }

  // ---------- steps of a client ----------

  lemma ServerStaysFine(a: map<Address, Client>, b: map<Address, Client>, s: Address, sv: Server)
    requires CallsGrow(a, b) && ServerOk(a, s, sv)
    ensures ServerOk(b, s, sv)
  {
    hide CacheOk;
    CacheStaysOk(a, b, sv);
  }

  lemma ClientChanges(st: State, c: Address, cl: Client, added: set<Datagram>)
    requires FreeInv(st) && c in st.clients && st.clients[c].calls <= cl.calls && CallsOk(cl, st.servers.Keys)
    requires forall d | d in added :: RequestMade(st.clients[c := cl], st.servers.Keys, d)
    ensures FreeInv(st.(clients := st.clients[c := cl], net := st.net + added))
  {
    hide ServerOk; hide CallsOk;
    var clients := st.clients[c := cl];
    assert clients.Keys == st.clients.Keys;
    forall s | s in st.servers ensures ServerOk(clients, s, st.servers[s]) {
      ServerStaysFine(st.clients, clients, s, st.servers[s]);
    }
  }

  lemma OneChanges(st: State, c: Address, cl: Client)
    requires FreeInv(st) && c in st.clients && st.clients[c].calls <= cl.calls && CallsOk(cl, st.servers.Keys)
    ensures FreeInv(st.(clients := st.clients[c := cl]))
  {
    hide FreeInv; hide CallsOk;
    assert st.net + {} == st.net;
    ClientChanges(st, c, cl, {});
  }

  lemma BegunOk(cl: Client, servers: set<Address>, step: Step)
    requires CallsOk(cl, servers) && step.BeginCall? && step.s in servers && HEADER + |step.data| <= MAX_REQUEST
    ensures var b := Begun(cl, step.s, step.drive, step.func, step.extended, step.checksums, step.data);
      CallsOk(b, servers) && cl.calls <= b.calls
  {
    hide CallOk;
    var call := BegunShape(cl, servers, step.s, step.drive, step.func, step.extended, step.checksums, step.data);
    forall i | 0 <= i <= |cl.calls| ensures CallOk((cl.calls + [call])[i], i + 1, servers) {
      if i < |cl.calls| { assert (cl.calls + [call])[i] == cl.calls[i]; }
    }
  }

  lemma SameCalls(cl: Client, b: Client, servers: set<Address>)
    requires CallsOk(cl, servers) && b.calls == cl.calls && b.lastSeq == cl.lastSeq
    ensures CallsOk(b, servers)
  {
  }

  lemma ClientStepFree(st: State, step: Step)
    requires FreeInv(st) && Possible(st, step) && !step.ServeRequest? && !step.SendRequest?
    ensures FreeInv(Next(st, step))
  {
    hide FreeInv; hide CallsOk; hide Arrived; hide Polled; hide Begun;
    var c := if step.ReplyArrives? then step.d.client else step.c;
    var cl := st.clients[c];
    ClientFine(st, c);
    match step
    case BeginCall(_, s, drive, func, extended, checksums, data) =>
      BegunOk(cl, st.servers.Keys, step);
      OneChanges(st, c, Begun(cl, s, drive, func, extended, checksums, data));
    case ReplyArrives(d, frameLen) =>
      ArrivedCalls(cl, d, frameLen);
      SameCalls(cl, Arrived(cl, d, frameLen), st.servers.Keys);
      OneChanges(st, c, Arrived(cl, d, frameLen));
    case Poll(_, junk, verify) =>
      PolledCalls(cl, junk, verify);
      SameCalls(cl, Polled(cl, junk, verify), st.servers.Keys);
      OneChanges(st, c, Polled(cl, junk, verify));
    case EndCall(_) =>
      SameCalls(cl, cl.(active := false, mailbox := Free), st.servers.Keys);
      OneChanges(st, c, cl.(active := false, mailbox := Free));
  }

  lemma ClientFine(st: State, c: Address)
    requires FreeInv(st) && c in st.clients
    ensures CallsOk(st.clients[c], st.servers.Keys)
  {
  }

  lemma ArrivedCalls(cl: Client, d: Datagram, frameLen: nat)
    ensures Arrived(cl, d, frameLen).calls == cl.calls && Arrived(cl, d, frameLen).lastSeq == cl.lastSeq
  {
  }

  lemma PolledCalls(cl: Client, junk: seq<byte>, verify: bool)
    requires HoldsFrame(cl.mailbox, junk)
    ensures Polled(cl, junk, verify).calls == cl.calls && Polled(cl, junk, verify).lastSeq == cl.lastSeq
  {
    hide ClientAccepts;
  }

  lemma SendFree(st: State, step: Step)
    requires FreeInv(st) && Possible(st, step) && step.SendRequest?
    ensures FreeInv(Next(st, step))
  {
    hide ServerOk; hide CallsOk;
    var c, cl := step.c, st.clients[step.c];
    var n := |cl.calls|;
    LastCallServer(cl, st.servers.Keys);
    var d := Request(c, cl.calls[n - 1].server, n, cl.calls[n - 1].request);
    assert st.clients[c := cl] == st.clients;
    ClientChanges(st, c, cl, {d});
  }

  lemma LastCallServer(cl: Client, servers: set<Address>)
    requires CallsOk(cl, servers) && cl.calls != []
    ensures cl.calls[|cl.calls| - 1].server in servers
  {
    assert CallOk(cl.calls[|cl.calls| - 1], |cl.calls|, servers);
  }

  // ---------- the step of a server ----------

  /** The server has executed another request for this client since, or none at all. */
  predicate LooksNew(clients: map<Address, Client>, log: seq<Execution>, d: Datagram) {
    var last := LastOf(log, d.client);
    last.None? || !Made(clients, d.client, d.server, last.value.call)
    || clients[d.client].calls[last.value.call - 1].request != d.packet
  }

  /** What serving d does, whatever was served before: it is executed exactly if it looks new. */
  lemma Serves(clients: map<Address, Client>, s: Address, sv: Server, d: Datagram, outcome: Option<seq<byte>>, now: int)
    returns (k: nat)
    requires ServerOk(clients, s, sv) && |clients.Keys| <= REPLY_CACHE_SIZE && UNUSED !in clients && now > 0
    requires d.Request? && d.server == s && Made(clients, d.client, s, d.call) && d.packet != []
    requires clients[d.client].calls[d.call - 1].request == d.packet && (outcome.Some? ==> outcome.value != [])
    ensures sv.items != []
    ensures var served := Serve(sv.items, d.client, d.packet, outcome, now);
      var e := Execution(d.client, d.call, served.reply);
      && (served.executed <==> LooksNew(clients, sv.log, d))
      && k < |sv.items| && served.items == sv.items[k := served.items[k]] && served.items[k].addr == d.client
      && served.items[k].timestamp > 0
      && (if d.client in InUse(sv.items) then sv.items[k] != EMPTY && sv.items[k].addr == d.client
          else sv.items[k] == EMPTY)
      && EntryOk(clients, Logged(sv.log, e, served.executed), served.items[k])
  {
    k := ServeWritesOneEntry(sv.items, clients.Keys, d.client, d.packet, outcome, now);
    EntryConsulted(clients, sv, d.client);
    LastIsMade(clients, s, sv, d.client);
    hide CacheOk; hide ServerOk;
    Decides(clients, sv, d, outcome, now);
    hide Serve; hide LooksNew; hide EntryOk; hide LastOf; hide Made;
  }

  /** The entry consulted decides, and takes down what was done. */
  lemma Decides(clients: map<Address, Client>, sv: Server, d: Datagram, outcome: Option<seq<byte>>, now: int)
    requires sv.items != [] && Made(clients, d.client, d.server, d.call) && d.packet != []
    requires clients[d.client].calls[d.call - 1].request == d.packet && (outcome.Some? ==> outcome.value != [])
    requires var info := Reserve(sv.items, d.client)[SlotOf(sv.items, d.client)];
      if LastOf(sv.log, d.client).Some? then EntryOk(clients, sv.log, info) && info.addr == d.client
      else info.recvPacket == []
    requires var last := LastOf(sv.log, d.client); last.Some? ==> Made(clients, d.client, d.server, last.value.call)
    ensures var served := Serve(sv.items, d.client, d.packet, outcome, now);
      var e := Execution(d.client, d.call, served.reply);
      && (served.executed <==> LooksNew(clients, sv.log, d))
      && |served.items| == |sv.items|
      && EntryOk(clients, Logged(sv.log, e, served.executed), served.items[SlotOf(sv.items, d.client)])
  {
    var served := Serve(sv.items, d.client, d.packet, outcome, now);
    ServeOne(sv.items, d.client, d.packet, outcome, now);
    LastLogged(sv.log, Execution(d.client, d.call, served.reply));
    hide Serve; hide Reserve; hide SlotOf; hide LastOf;
  }

  /** The decision, and the entry as it is afterwards. */
  lemma ServeOne(items: seq<ReplyInfo>, addr: Address, request: seq<byte>, outcome: Option<seq<byte>>, now: int)
    requires items != [] && request != [] && (outcome.Some? ==> outcome.value != [])
    ensures var k := SlotOf(items, addr);
      var info, served := Reserve(items, addr)[k], Serve(items, addr, request, outcome, now);
      && |served.items| == |items|
      && (served.executed <==> info.recvPacket != request)
      && served.items[k].addr == addr && served.items[k].recvPacket == request
      && served.items[k].sendPacket
        == (if !served.executed then info.sendPacket else if outcome.Some? then outcome.value else [])
      && served.reply == (if served.items[k].sendPacket != [] then Some(served.items[k].sendPacket) else None)
  {
    hide SlotOf;
  }

  lemma LastLogged(log: seq<Execution>, e: Execution)
    ensures LastOf(log + [e], e.client) == Some(e)
  {
  }

  lemma {:induction false} LastIn(log: seq<Execution>, c: Address)
    ensures LastOf(log, c).Some? ==> exists i :: 0 <= i < |log| && log[i] == LastOf(log, c).value && log[i].client == c
  {
    if log != [] && log[|log| - 1].client != c { LastIn(log[..|log| - 1], c); }
  }

  lemma LastIsMade(clients: map<Address, Client>, s: Address, sv: Server, c: Address)
    requires ServerOk(clients, s, sv)
    ensures var last := LastOf(sv.log, c); last.Some? ==> Made(clients, c, s, last.value.call)
  {
    hide CacheOk; hide LastOf;
    LastIn(sv.log, c);
  }

  lemma ServerAfter(clients: map<Address, Client>, s: Address, sv: Server, d: Datagram, outcome: Option<seq<byte>>,
          now: int)
    requires ServerOk(clients, s, sv) && |clients.Keys| <= REPLY_CACHE_SIZE && UNUSED !in clients && now > 0
    requires d.Request? && d.server == s && Made(clients, d.client, s, d.call) && d.packet != []
    requires clients[d.client].calls[d.call - 1].request == d.packet && (outcome.Some? ==> outcome.value != [])
    ensures sv.items != []
    ensures ServerOk(clients, s, AfterServing(sv, d, Serve(sv.items, d.client, d.packet, outcome, now)))
  {
    hide Serve; hide CacheOk; hide LooksNew; hide EntryOk;
    var k := Serves(clients, s, sv, d, outcome, now);
    var served := Serve(sv.items, d.client, d.packet, outcome, now);
    CacheStep(clients, sv, k, served.items[k], Execution(d.client, d.call, served.reply), served.executed);
  }

  lemma ServeFree(st: State, step: Step)
    requires FreeInv(st) && Possible(st, step) && step.ServeRequest?
    ensures FreeInv(Next(st, step))
  {
    hide CacheOk; hide CallsOk; hide Serve; hide ServerAccepts; hide ReplyPacket; hide ServerOk;
    var d, sv := step.d, st.servers[step.d.server];
    AcceptedNotEmpty(d.packet);
    assert RequestMade(st.clients, st.servers.Keys, d);
    var outcome := ReplyOf(d, step.outcome, step.readOnly);
    if step.outcome.Some? { ReplyNotEmpty(d.packet, step.outcome.value, step.readOnly); }
    ServerAfter(st.clients, d.server, sv, d, outcome, step.now);
    var b := Next(st, step);
    assert b.servers.Keys == st.servers.Keys;
  }

  lemma AcceptedNotEmpty(p: seq<byte>)
    requires ServerAccepts(p)
    ensures |p| >= HEADER && p[0] == VERSION
  {
  }

  lemma ReplyNotEmpty(request: seq<byte>, answer: Answer, readOnly: bool)
    requires |request| >= HEADER && request[0] == VERSION && HEADER + |answer.data| <= MAX_PACKET
    ensures ReplyPacket(request, answer, readOnly) != []
  {
    ReplyHeader(request, answer, readOnly);
  }

  // ---------- every run ----------

  lemma InitFree(st: State)
    requires Init(st)
    ensures FreeInv(st)
  {
    forall s | s in st.servers ensures CacheOk(st.clients, st.servers[s]) {
      assert InUse(st.servers[s].items) == {};
    }
  }

  lemma NextFree(st: State, step: Step)
    requires FreeInv(st) && Possible(st, step)
    ensures FreeInv(Next(st, step))
  {
    hide FreeInv; hide Possible; hide Next;
    if step.ServeRequest? {
      ServeFree(st, step);
    } else if step.SendRequest? {
      SendFree(st, step);
    } else {
      ClientStepFree(st, step);
    }
  }

  lemma {:induction false} ReachableFree(run: seq<State>, steps: seq<Step>, i: nat)
    requires FreeBehavior(run, steps) && i < |run|
    ensures FreeInv(run[i])
  {
    hide FreeInv; hide Possible; hide Next; hide Init;
    if i == 0 {
      InitFree(run[0]);
    } else {
      ReachableFree(run, steps, i - 1);
      assert Possible(run[i - 1], steps[i - 1]);
      NextFree(run[i - 1], steps[i - 1]);
    }
  }

  ghost predicate WasExecuted(log: seq<Execution>, d: Datagram) {
    exists i :: 0 <= i < |log| && log[i].client == d.client && log[i].call == d.call
  }

  /** Whatever the network did before: a server executes a request exactly if it differs from the last one that it
      executed for that client. So it executes a call again exactly if a different request came between; it takes a new
      call for an old one exactly if their requests are equal, and these calls are a multiple of 256 apart. */
  lemma DecisionExact(run: seq<State>, steps: seq<Step>, i: nat)
    requires FreeBehavior(run, steps) && i < |steps| && steps[i].ServeRequest?
    ensures var d, st := steps[i].d, run[i];
      && d.server in st.servers && d.server in run[i + 1].servers && d.client in st.clients
      && var log, log' := st.servers[d.server].log, run[i + 1].servers[d.server].log;
      && (if LooksNew(st.clients, log, d) then
            |log'| == |log| + 1 && log'[..|log|] == log && log'[|log|].client == d.client && log'[|log|].call == d.call
          else log' == log)
      && (!LooksNew(st.clients, log, d) ==> d.call % 0x100 == LastOf(log, d.client).value.call % 0x100)
      && (LastOf(log, d.client).None? ==> !WasExecuted(log, d))
      && (!LooksNew(st.clients, log, d) && !WasExecuted(log, d) ==> d.call != LastOf(log, d.client).value.call)
  {
    hide CacheOk; hide Serve; hide ServerAccepts; hide ReplyPacket;
    var step, st := steps[i], run[i];
    var d := step.d;
    ReachableFree(run, steps, i);
    AcceptedNotEmpty(d.packet);
    assert RequestMade(st.clients, st.servers.Keys, d);
    var outcome := ReplyOf(d, step.outcome, step.readOnly);
    if step.outcome.Some? { ReplyNotEmpty(d.packet, step.outcome.value, step.readOnly); }
    var k := Serves(st.clients, d.server, st.servers[d.server], d, outcome, step.now);
    if !LooksNew(st.clients, st.servers[d.server].log, d) { SameSequence(st, d); }
    ExecutedHasLast(st.servers[d.server].log, d);
  }

  lemma SameSequence(st: State, d: Datagram)
    requires FreeInv(st) && d in st.net && d.Request? && d.server in st.servers
    requires !LooksNew(st.clients, st.servers[d.server].log, d)
    ensures d.call % 0x100 == LastOf(st.servers[d.server].log, d.client).value.call % 0x100
  {
    hide CacheOk; hide LastOf;
    assert RequestMade(st.clients, st.servers.Keys, d) && CallsOk(st.clients[d.client], st.servers.Keys);
    var calls, k := st.clients[d.client].calls, LastOf(st.servers[d.server].log, d.client).value.call;
    assert CallOk(calls[d.call - 1], d.call, st.servers.Keys) && CallOk(calls[k - 1], k, st.servers.Keys);
  }

  lemma {:induction false} ExecutedHasLast(log: seq<Execution>, d: Datagram)
    ensures WasExecuted(log, d) ==> LastOf(log, d.client).Some?
    ensures WasExecuted(log, d) || LastOf(log, d.client).None? || LastOf(log, d.client).value.call != d.call
  {
    if log != [] && log[|log| - 1].client != d.client {
      ExecutedHasLast(log[..|log| - 1], d);
      if WasExecuted(log, d) {
        var i :| 0 <= i < |log| && log[i].client == d.client && log[i].call == d.call;
        assert log[..|log| - 1][i] == log[i];
      }
      if WasExecuted(log[..|log| - 1], d) {
        var i :| 0 <= i < |log| - 1 && log[..|log| - 1][i].client == d.client && log[..|log| - 1][i].call == d.call;
        assert log[i].client == d.client && log[i].call == d.call;
      }
    }
  }

  // ---------- a run that needs an assumption ----------

  ghost predicate Leads(a: State, step: Step, b: State) {
    Possible(a, step) && b == Next(a, step)
  }

  function Deliver(d: Datagram): (r: Step) {
    ServeRequest(d, None, false, 1)
  }

  /** A request that looks new is executed, whether or not it was before. */
  lemma Executes(cl: Client, sv: Server, net: set<Datagram>, d: Datagram) returns (sv': Server)
    requires FreeInv(Pair(cl, sv, net)) && d in net && d.Request? && d.client == CLIENT && d.server == SERVER
    requires ServerAccepts(d.packet) && LooksNew(map[CLIENT := cl], sv.log, d)
    ensures Leads(Pair(cl, sv, net), Deliver(d), Pair(cl, sv', net))
    ensures sv'.log == sv.log + [Execution(CLIENT, d.call, None)] && FreeInv(Pair(cl, sv', net))
  {
    hide CacheOk; hide CallsOk; hide Serve; hide ServerAccepts; hide LooksNew;
    var st := Pair(cl, sv, net);
    AcceptedNotEmpty(d.packet);
    assert RequestMade(st.clients, st.servers.Keys, d) && ServerOk(st.clients, SERVER, st.servers[SERVER]);
    var k := Serves(st.clients, SERVER, sv, d, None, 1);
    NoReply(sv, d);
    sv' := AfterServing(sv, d, Serve(sv.items, CLIENT, d.packet, None, 1));
    assert map[SERVER := sv][SERVER := sv'] == map[SERVER := sv'];
    assert net + {} == net;
    ServeFree(st, Deliver(d));
  }

  lemma NoReply(sv: Server, d: Datagram)
    requires sv.items != []
    ensures var served := Serve(sv.items, d.client, d.packet, None, 1); served.executed ==> served.reply == None
  {
  }

  /** The client calls; `before` is at rest. */
  lemma Calls(before: Client, sv: Server, net: set<Datagram>) returns (cl: Client)
    requires FreeInv(Pair(before, sv, net)) && !before.active
    ensures |cl.calls| == |before.calls| + 1 && cl.calls[..|before.calls|] == before.calls && cl.active
    ensures cl.calls[|before.calls|].server == SERVER && ServerAccepts(cl.calls[|before.calls|].request)
    ensures Leads(Pair(before, sv, net), BEGIN, Pair(cl, sv, net)) && FreeInv(Pair(cl, sv, net))
  {
    hide RequestPacket; hide ServerAccepts; hide FreeInv;
    RequestAccepted((before.lastSeq + 1) % 0x100, 0, 0, false, false, []);
    cl := Begun(before, SERVER, 0, 0, false, false, []);
    BeginLeads(before, sv, net);
    hide Begun; hide Possible; hide Next;
    NextFree(Pair(before, sv, net), BEGIN);
  }

  lemma BeginLeads(before: Client, sv: Server, net: set<Datagram>)
    requires !before.active
    ensures Leads(Pair(before, sv, net), BEGIN, Pair(Begun(before, SERVER, 0, 0, false, false, []), sv, net))
  {
    hide Begun;
    var cl := Begun(before, SERVER, 0, 0, false, false, []);
    assert map[CLIENT := before][CLIENT := cl] == map[CLIENT := cl];
  }

  /** The client sends the request of its call in progress. */
  lemma Sends(cl: Client, sv: Server, net: set<Datagram>, d: Datagram)
    requires FreeInv(Pair(cl, sv, net)) && cl.active && cl.calls != [] && cl.calls[|cl.calls| - 1].server == SERVER
    requires d == Request(CLIENT, SERVER, |cl.calls|, cl.calls[|cl.calls| - 1].request)
    ensures Leads(Pair(cl, sv, net), SendRequest(CLIENT), Pair(cl, sv, net + {d})) && FreeInv(Pair(cl, sv, net + {d}))
  {
    hide FreeInv;
    NextFree(Pair(cl, sv, net), SendRequest(CLIENT));
  }

  lemma GivesUp(cl: Client, sv: Server, net: set<Datagram>) returns (cl': Client)
    requires FreeInv(Pair(cl, sv, net)) && cl.active
    ensures cl'.calls == cl.calls && !cl'.active
    ensures Leads(Pair(cl, sv, net), EndCall(CLIENT), Pair(cl', sv, net)) && FreeInv(Pair(cl', sv, net))
  {
    hide FreeInv;
    cl' := cl.(active := false, mailbox := Free);
    assert map[CLIENT := cl][CLIENT := cl'] == map[CLIENT := cl'];
    NextFree(Pair(cl, sv, net), EndCall(CLIENT));
  }

  lemma TwoCallsDiffer(cl: Client, sv: Server, net: set<Datagram>)
    requires FreeInv(Pair(cl, sv, net)) && |cl.calls| == 2
    ensures cl.calls[0].request != cl.calls[1].request
  {
    hide ServerOk;
    var servers := Pair(cl, sv, net).servers.Keys;
    assert CallsOk(Pair(cl, sv, net).clients[CLIENT], servers);
    assert CallOk(cl.calls[0], 1, servers) && CallOk(cl.calls[1], 2, servers);
  }

  /** The first call: its request is executed, and the client gives up. */
  lemma FirstCall() returns (cl1: Client, d: Datagram, sv: Server, cl2: Client)
    ensures |cl1.calls| == 1 && cl2.calls == cl1.calls && !cl2.active
    ensures d == Request(CLIENT, SERVER, 1, cl1.calls[0].request) && ServerAccepts(d.packet)
    ensures sv.log == [Execution(CLIENT, 1, None)] && FreeInv(Pair(cl2, sv, {d}))
    ensures Leads(AT_REST, BEGIN, Pair(cl1, NEW_SERVER, {}))
    ensures Leads(Pair(cl1, NEW_SERVER, {}), SendRequest(CLIENT), Pair(cl1, NEW_SERVER, {d}))
    ensures Leads(Pair(cl1, NEW_SERVER, {d}), Deliver(d), Pair(cl1, sv, {d}))
    ensures Leads(Pair(cl1, sv, {d}), EndCall(CLIENT), Pair(cl2, sv, {d}))
  {
    hide FreeInv; hide Leads; hide Init; hide ServerAccepts; hide LooksNew;
    RestIsInitial();
    InitFree(AT_REST);
    cl1 := Calls(IDLE, NEW_SERVER, {});
    d := Request(CLIENT, SERVER, 1, cl1.calls[0].request);
    assert {} + {d} == {d};
    Sends(cl1, NEW_SERVER, {}, d);
    EmptyLooksNew(map[CLIENT := cl1], d);
    sv := Executes(cl1, NEW_SERVER, {d}, d);
    cl2 := GivesUp(cl1, sv, {d});
  }

  /** The second call: its request is executed, and then a copy of the first request. */
  lemma SecondCall(before: Client, sv1: Server, d1: Datagram)
    returns (cl: Client, d2: Datagram, sv2: Server, sv3: Server)
    requires |before.calls| == 1 && !before.active && d1 == Request(CLIENT, SERVER, 1, before.calls[0].request)
    requires ServerAccepts(d1.packet) && sv1.log == [Execution(CLIENT, 1, None)] && FreeInv(Pair(before, sv1, {d1}))
    ensures sv3.log == [Execution(CLIENT, 1, None), Execution(CLIENT, 2, None), Execution(CLIENT, 1, None)]
    ensures Leads(Pair(before, sv1, {d1}), BEGIN, Pair(cl, sv1, {d1}))
    ensures Leads(Pair(cl, sv1, {d1}), SendRequest(CLIENT), Pair(cl, sv1, {d1} + {d2}))
    ensures Leads(Pair(cl, sv1, {d1} + {d2}), Deliver(d2), Pair(cl, sv2, {d1} + {d2}))
    ensures Leads(Pair(cl, sv2, {d1} + {d2}), Deliver(d1), Pair(cl, sv3, {d1} + {d2}))
  {
    hide FreeInv; hide Leads; hide ServerAccepts; hide LooksNew;
    cl := Calls(before, sv1, {d1});
    d2 := Request(CLIENT, SERVER, 2, cl.calls[1].request);
    Sends(cl, sv1, {d1}, d2);
    assert cl.calls[0] == cl.calls[..1][0];
    TwoCallsDiffer(cl, sv1, {d1} + {d2});
    OtherLooksNew(cl, sv1.log, [], 1, d2);
    sv2 := Executes(cl, sv1, {d1} + {d2}, d2);
    OtherLooksNew(cl, sv2.log, sv1.log, 2, d1);
    sv3 := Executes(cl, sv2, {d1} + {d2}, d1);
  }

  /** Two calls are executed, and then a copy of the first request, which was on its way for so long, is executed again:
      a run that only the assumption of order rules out. */
  lemma LateCopyExecutedAgain() returns (run: seq<State>, steps: seq<Step>)
    ensures FreeBehavior(run, steps) && |steps| == 8 && SERVER in run[8].servers
    ensures run[8].servers[SERVER].log
      == [Execution(CLIENT, 1, None), Execution(CLIENT, 2, None), Execution(CLIENT, 1, None)]
  {
    hide FreeInv; hide Possible; hide Next; hide Init; hide ServerAccepts;
    var cl1, d1, sv1, cl2 := FirstCall();
    var cl3, d2, sv2, sv3 := SecondCall(cl2, sv1, d1);
    var net := {d1} + {d2};
    steps := [BEGIN, SendRequest(CLIENT), Deliver(d1), EndCall(CLIENT),
              BEGIN, SendRequest(CLIENT), Deliver(d2), Deliver(d1)];
    run := [AT_REST, Pair(cl1, NEW_SERVER, {}), Pair(cl1, NEW_SERVER, {d1}), Pair(cl1, sv1, {d1}), Pair(cl2, sv1, {d1}),
            Pair(cl3, sv1, {d1}), Pair(cl3, sv1, net), Pair(cl3, sv2, net), Pair(cl3, sv3, net)];
    RestIsInitial();
    forall i | 0 <= i < 8 ensures Leads(run[i], steps[i], run[i + 1]) {
      assert i == 0 || i == 1 || i == 2 || i == 3 || i == 4 || i == 5 || i == 6 || i == 7;
    }
  }

  lemma EmptyLooksNew(clients: map<Address, Client>, d: Datagram)
    ensures LooksNew(clients, [], d)
  {
  }

  lemma OtherLooksNew(cl: Client, log: seq<Execution>, front: seq<Execution>, k: nat, d: Datagram)
    requires log == front + [Execution(CLIENT, k, None)] && 1 <= k <= |cl.calls| && d.client == CLIENT
    requires cl.calls[k - 1].request != d.packet
    ensures LooksNew(map[CLIENT := cl], log, d)
  {
    assert LastOf(log, CLIENT) == Some(Execution(CLIENT, k, None));
  }
}
