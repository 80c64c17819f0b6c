/** Which calls can still get their reply: those that began with an empty receive buffer, and no others. */
module LateReplies {
  import opened Bytes
  import opened DriveProto
  import opened ReplyCaching
  import opened Protocol
  import opened ProtocolSafety
  import opened ProtocolTheorems

  /** A call in progress whose receive buffer is taken although no frame was announced to it. */
  predicate Deaf(cl: Client) {
    cl.active && cl.mailbox.Full? && !cl.responseReceived
  }

  predicate Ends(step: Step, c: Address) {
    step.EndCall? && step.c == c
  }

  predicate Begins(step: Step, c: Address) {
    step.BeginCall? && step.c == c
  }

  // ---------- deafness is decided when the call begins ----------

  lemma StaysDeaf(st: State, step: Step, c: Address)
    requires Enabled(st, step) && c in st.clients && Deaf(st.clients[c]) && !Ends(step, c)
    ensures c in Do(st, step).clients && Do(st, step).clients[c] == st.clients[c]
  {
  }

  lemma StaysHearing(st: State, step: Step, c: Address)
    requires Enabled(st, step) && c in st.clients && !Deaf(st.clients[c]) && !Begins(step, c)
    ensures c in Do(st, step).clients && !Deaf(Do(st, step).clients[c])
  {
    hide ClientAccepts;
  }

  lemma DeafAtBegin(st: State, step: Step, c: Address)
    requires Enabled(st, step) && Begins(step, c)
    ensures c in st.clients && c in Do(st, step).clients
    ensures Deaf(Do(st, step).clients[c]) <==> st.clients[c].mailbox.Full?
  {
  }

  /** From call number i's beginning until it ends, its client is deaf exactly if a frame lay in the buffer then. */
  lemma {:induction false} DeafSinceBegin(run: seq<State>, steps: seq<Step>, i: nat, j: nat, c: Address)
    requires Behavior(run, steps) && i < j < |run| && Begins(steps[i], c)
    requires forall k | i < k < j :: !Ends(steps[k], c) && !Begins(steps[k], c)
    ensures c in run[i].clients && c in run[j].clients
    ensures Deaf(run[j].clients[c]) <==> run[i].clients[c].mailbox.Full?
    decreases j
  {
    hide Enabled; hide Do; hide Init; hide Deaf;
    assert Enabled(run[j - 1], steps[j - 1]) && run[j] == Do(run[j - 1], steps[j - 1]);
    if i == j - 1 {
      DeafAtBegin(run[i], steps[i], c);
    } else {
      DeafSinceBegin(run, steps, i, j - 1, c);
      if Deaf(run[j - 1].clients[c]) {
        StaysDeaf(run[j - 1], steps[j - 1], c);
      } else {
        StaysHearing(run[j - 1], steps[j - 1], c);
      }
    }
  }

  // ---------- what deafness means ----------

  ghost predicate Path(run: seq<State>, steps: seq<Step>) {
    && |run| == |steps| + 1
    && forall i | 0 <= i < |steps| :: Enabled(run[i], steps[i]) && run[i + 1] == Do(run[i], steps[i])
  }

  /** The path ends with a reply accepted for the call that is in progress at its start, without giving the call up. */
  ghost predicate Finishes(st: State, c: Address, run: seq<State>, steps: seq<Step>) {
    && Path(run, steps) && run[0] == st && (forall i | 0 <= i < |steps| :: !Ends(steps[i], c))
    && c in st.clients && c in run[|steps|].clients && |st.clients[c].calls| in run[|steps|].clients[c].results
  }

  ghost predicate CanFinish(st: State, c: Address) {
    exists run, steps :: Finishes(st, c, run, steps)
  }

  lemma {:induction false} DeafAlong(run: seq<State>, steps: seq<Step>, c: Address, j: nat)
    requires Path(run, steps) && j <= |steps| && c in run[0].clients && Deaf(run[0].clients[c])
    requires forall i | 0 <= i < |steps| :: !Ends(steps[i], c)
    ensures c in run[j].clients && run[j].clients[c] == run[0].clients[c]
  {
    hide Enabled; hide Do; hide Deaf;
    if j > 0 {
      DeafAlong(run, steps, c, j - 1);
      assert Enabled(run[j - 1], steps[j - 1]);
      StaysDeaf(run[j - 1], steps[j - 1], c);
    }
  }

  lemma DeafCannotFinish(st: State, c: Address)
    requires Inv(st) && c in st.clients && Deaf(st.clients[c])
    ensures !CanFinish(st, c)
  {
    assert ClientOk(st.clients[c], st.servers.Keys);
    forall run, steps ensures !Finishes(st, c, run, steps) {
      if Finishes(st, c, run, steps) {
        DeafAlong(run, steps, c, |steps|);
      }
    }
  }

  /** d is a reply to the call that c has in progress. */
  predicate Answers(st: State, c: Address, d: Datagram) {
    && c in st.clients && st.clients[c].active && d in st.net && d.Reply? && d.client == c
    && d.call == |st.clients[c].calls|
  }

  lemma AnswerIsAcceptable(st: State, c: Address, d: Datagram)
    requires Inv(st) && Answers(st, c, d)
    ensures var cl := st.clients[c];
      && cl.calls != [] && cl.calls[|cl.calls| - 1].server == d.server && Acceptable(d.packet, cl.lastSeq)
      && |cl.calls| !in cl.results
  {
    assert DatagramOk(st.clients, st.servers, d) && ClientOk(st.clients[c], st.servers.Keys);
  }

  /** The frame of the reply, without padding, fits the receive buffer. */
  predicate Fits(d: Datagram) {
    FRAME_HEADERS + |d.packet| <= MAX_FRAMESIZE
  }

  const JUNK: seq<byte> := seq(FRAME_HEADERS, _ => 0)

  /** The reply arrives in a free buffer and is announced. */
  lemma ReplyTakenIn(st: State, c: Address, d: Datagram)
    requires Inv(st) && Answers(st, c, d) && c in st.clients && st.clients[c].mailbox.Free? && Fits(d)
    ensures var step := ReplyArrives(d, FRAME_HEADERS + |d.packet|);
      Enabled(st, step) && Do(st, step) == st.(clients := st.clients[c :=
        st.clients[c].(mailbox := Full(d, FRAME_HEADERS + |d.packet|), responseReceived := true)])
  {
    AnswerIsAcceptable(st, c, d);
    TakesIn(st.clients[c], d);
    hide Inv; hide ClientAccepts; hide Acceptable; hide Arrived;
  }

  lemma TakesIn(cl: Client, d: Datagram)
    requires cl.mailbox.Free? && cl.calls != [] && cl.calls[|cl.calls| - 1].server == d.server && Fits(d)
    requires Acceptable(d.packet, cl.lastSeq)
    ensures Arrived(cl, d, FRAME_HEADERS + |d.packet|)
      == cl.(mailbox := Full(d, FRAME_HEADERS + |d.packet|), responseReceived := true)
  {
    hide ClientAccepts;
  }

  /** An announced reply is looked at and accepted. */
  lemma ReplyLookedAt(st: State, c: Address, d: Datagram)
    requires c in st.clients && st.clients[c].active && st.clients[c].responseReceived
    requires st.clients[c].mailbox == Full(d, FRAME_HEADERS + |d.packet|) && Acceptable(d.packet, st.clients[c].lastSeq)
    ensures Enabled(st, Poll(c, JUNK, false))
    ensures var after := Do(st, Poll(c, JUNK, false));
      c in after.clients && |st.clients[c].calls| in after.clients[c].results
  {
    hide ClientAccepts;
    assert ClientAccepts(FRAME_HEADERS + |d.packet|, d.packet + JUNK, st.clients[c].lastSeq, false);
  }

  lemma TwoSteps(st: State, a: Step, st1: State, b: Step, c: Address)
    requires Enabled(st, a) && st1 == Do(st, a) && Enabled(st1, b) && !Ends(a, c) && !Ends(b, c)
    requires c in st.clients && c in Do(st1, b).clients && |st.clients[c].calls| in Do(st1, b).clients[c].results
    ensures CanFinish(st, c)
  {
    hide Enabled; hide Do;
    assert Finishes(st, c, [st, st1, Do(st1, b)], [a, b]);
  }

  /** With the buffer free, the reply only has to arrive and be looked at. */
  lemma FreeFinishes(st: State, c: Address, d: Datagram)
    requires Inv(st) && Answers(st, c, d) && c in st.clients && st.clients[c].mailbox.Free? && Fits(d)
    ensures CanFinish(st, c)
  {
    AnswerIsAcceptable(st, c, d);
    ReplyTakenIn(st, c, d);
    hide Inv; hide Enabled; hide Do; hide CanFinish; hide Acceptable;
    var arrives := ReplyArrives(d, FRAME_HEADERS + |d.packet|);
    var st1 := Do(st, arrives);
    ReplyLookedAt(st1, c, d);
    TwoSteps(st, arrives, st1, Poll(c, JUNK, false), c);
  }

  /** A reply too long for the buffer is never accepted: an accepted one would be the same. */
  lemma OversizeCannotFinish(st: State, c: Address, d: Datagram)
    requires Inv(st) && Answers(st, c, d) && !Fits(d)
    ensures !CanFinish(st, c)
  {
    hide Inv; hide Grows; hide Enabled; hide Do; hide Answers; hide Fits;
    forall run, steps ensures !Finishes(st, c, run, steps) {
      if Finishes(st, c, run, steps) {
        AlongKeepsInv(run, steps, |steps|);
        SameReply(st, run[|steps|], c, d);
      }
    }
  }

  lemma {:induction false} AlongKeepsInv(run: seq<State>, steps: seq<Step>, j: nat)
    requires Path(run, steps) && j <= |steps| && Inv(run[0])
    ensures Inv(run[j]) && Grows(run[0], run[j])
  {
    hide Inv; hide Enabled; hide Do; hide Grows;
    if j == 0 {
      GrowsReflexive(run[0]);
    } else {
      AlongKeepsInv(run, steps, j - 1);
      assert Enabled(run[j - 1], steps[j - 1]);
      StepKeepsInv(run[j - 1], steps[j - 1]);
      GrowsOn(run[0], run[j - 1], run[j]);
    }
  }

  lemma GrowsOn(a: State, b: State, c: State)
    requires Grows(a, b) && Grows(b, c)
    ensures Grows(a, c)
  {
  }

  /** Two replies to one call are one. */
  lemma SameReply(st: State, later: State, c: Address, d: Datagram)
    requires Inv(st) && Answers(st, c, d) && Inv(later) && Grows(st, later) && c in later.clients
    requires |st.clients[c].calls| in later.clients[c].results
    ensures later.clients[c].results[|st.clients[c].calls|] == d.packet && Fits(d)
  {
    hide CacheOk; hide LogOk; hide ClientOk; hide MailboxOk; hide ReplyOk;
    var k := |st.clients[c].calls|;
    assert DatagramOk(st.clients, st.servers, d) && ResultsOk(later.servers, c, later.clients[c]);
    var s := d.server;
    assert later.clients[c].calls[k - 1] == st.clients[c].calls[k - 1];
    var e, f := Execution(c, k, Some(d.packet)), Execution(c, k, Some(later.clients[c].results[k]));
    assert e in later.servers[s].log && f in later.servers[s].log;
    OnceInv(later);
    var i :| 0 <= i < |later.servers[s].log| && later.servers[s].log[i] == e;
    var j :| 0 <= j < |later.servers[s].log| && later.servers[s].log[j] == f;
    assert i == j;
  }

  function JunkFor(m: Mailbox): (junk: seq<byte>)
    ensures m.Full? ==> |junk| == m.frameLen
  {
    seq(if m.Full? then m.frameLen else 0, _ => 0)
  }

  /** With a frame announced, looking at it frees the buffer, if it does not end the call. */
  lemma LooksAndFrees(st: State, c: Address, d: Datagram)
    requires Inv(st) && Answers(st, c, d)
    requires c in st.clients && st.clients[c].mailbox.Full? && st.clients[c].responseReceived
    ensures var poll := Poll(c, JunkFor(st.clients[c].mailbox), false);
      && Enabled(st, poll) && !Ends(poll, c)
      && var st1 := Do(st, poll);
      && c in st1.clients && st1.clients[c].calls == st.clients[c].calls
      && (|st.clients[c].calls| in st1.clients[c].results || (Answers(st1, c, d) && st1.clients[c].mailbox.Free?))
  {
    hide Inv; hide ClientAccepts; hide Polled; hide ClientOk; hide MailboxOk;
    LookedAt(st, c);
  }

  lemma LookedAt(st: State, c: Address)
    requires Inv(st) && c in st.clients && st.clients[c].mailbox.Full?
    ensures var cl, junk := st.clients[c], JunkFor(st.clients[c].mailbox);
      && HoldsFrame(cl.mailbox, junk)
      && var b := Polled(cl, junk, false);
      && b.calls == cl.calls && b.mailbox.Free? && (b.active == cl.active || |cl.calls| in b.results)
  {
    hide CacheOk; hide LogOk; hide ResultsOk; hide DatagramOk; hide Polled; hide ClientAccepts; hide CallOk;
    var cl, junk := st.clients[c], JunkFor(st.clients[c].mailbox);
    assert MailboxOk(st.net, c, cl) && ClientOk(cl, st.servers.Keys);
    PolledOk(cl, st.servers.Keys, st.net, c, junk, false);
  }

  lemma FullFinishes(st: State, c: Address, d: Datagram)
    requires Inv(st) && Answers(st, c, d)
    requires c in st.clients && st.clients[c].mailbox.Full? && st.clients[c].responseReceived && Fits(d)
    ensures CanFinish(st, c)
  {
    hide Inv; hide Enabled; hide Do; hide Answers; hide Grows;
    LooksAndFrees(st, c, d);
    var poll := Poll(c, JunkFor(st.clients[c].mailbox), false);
    StepKeepsInv(st, poll);
    var st1 := Do(st, poll);
    if |st.clients[c].calls| in st1.clients[c].results {
      assert Finishes(st, c, [st, st1], [poll]);
    } else {
      FreeFinishes(st1, c, d);
      var run, steps :| Finishes(st1, c, run, steps);
      Prepended(st, c, poll, st1, run, steps);
    }
  }

  lemma Prepended(st: State, c: Address, step: Step, st1: State, run: seq<State>, steps: seq<Step>)
    requires Enabled(st, step) && st1 == Do(st, step) && !Ends(step, c) && Finishes(st1, c, run, steps)
    requires c in st.clients && st1.clients[c].calls == st.clients[c].calls
    ensures CanFinish(st, c)
  {
    hide Enabled; hide Do;
    var run', steps' := [st] + run, [step] + steps;
    forall i | 0 <= i < |steps'| ensures Enabled(run'[i], steps'[i]) && run'[i + 1] == Do(run'[i], steps'[i]) {
      if i > 0 { assert run'[i] == run[i - 1] && run'[i + 1] == run[i] && steps'[i] == steps[i - 1]; }
    }
    assert Finishes(st, c, run', steps');
  }

  /** A call whose reply is on the network can still finish exactly if the receive buffer was free when it began and the
      reply fits it. */
  lemma HeardIffFreeAtBegin(run: seq<State>, steps: seq<Step>, i: nat, j: nat, c: Address, d: Datagram)
    requires Behavior(run, steps) && i < j < |run| && Begins(steps[i], c)
    requires forall k | i < k < j :: !Ends(steps[k], c) && !Begins(steps[k], c)
    requires Answers(run[j], c, d)
    ensures c in run[i].clients
    ensures CanFinish(run[j], c) <==> run[i].clients[c].mailbox.Free? && 42 + |d.packet| <= 1518
  {
    hide Inv; hide Enabled; hide Do; hide Init; hide CanFinish;
    ReachableInv(run, steps, j);
    DeafSinceBegin(run, steps, i, j, c);
    if run[i].clients[c].mailbox.Full? {
      DeafCannotFinish(run[j], c);
    } else if !Fits(d) {
      OversizeCannotFinish(run[j], c, d);
    } else if run[j].clients[c].mailbox.Free? {
      FreeFinishes(run[j], c, d);
    } else {
      FullFinishes(run[j], c, d);
    }
  }

  // ---------- deaf calls happen ----------

  lemma ClientMoves(cl: Client, sv: Server, net: set<Datagram>, step: Step, cl': Client)
    requires Enabled(Pair(cl, sv, net), step)
    requires match step
      case BeginCall(c, s, drive, func, extended, checksums, data) =>
        c == CLIENT && cl' == Begun(cl, s, drive, func, extended, checksums, data)
      case ReplyArrives(d, frameLen) => d.client == CLIENT && cl' == Arrived(cl, d, frameLen)
      case Poll(c, junk, verify) => c == CLIENT && cl' == Polled(cl, junk, verify)
      case _ => false
    ensures Do(Pair(cl, sv, net), step) == Pair(cl', sv, net)
  {
    hide ClientAccepts; hide RequestPacket;
    assert map[CLIENT := cl][CLIENT := cl'] == map[CLIENT := cl'];
  }

  const DONE := Answer(0, false, [])

  /** The first request is executed and answered. */
  lemma FirstServed(cl: Client, net: set<Datagram>, request: seq<byte>) returns (sv: Server)
    requires ServerAccepts(request) && |request| >= HEADER && Request(CLIENT, SERVER, 1, request) in net
    ensures var st := Pair(cl, NEW_SERVER, net);
      var step := ServeRequest(Request(CLIENT, SERVER, 1, request), Some(DONE), false, 1);
      && Enabled(st, step)
      && Do(st, step) == Pair(cl, sv, net + {Reply(CLIENT, SERVER, 1, ReplyPacket(request, DONE, false))})
  {
    hide ServerAccepts; hide ReplyPacket;
    var d := Request(CLIENT, SERVER, 1, request);
    assert Find(NEW_SERVER.items, CLIENT, 0).None?;
    assert ReplyPacket(request, DONE, false) != [] by { PacketNotEmpty(request); }
    var served := ServedBy(NEW_SERVER, d, Some(DONE), false, 1);
    assert served.reply == Some(ReplyPacket(request, DONE, false));
    sv := AfterServing(NEW_SERVER, d, served);
    assert map[SERVER := NEW_SERVER][SERVER := sv] == map[SERVER := sv];
  }

  lemma PacketNotEmpty(request: seq<byte>)
    requires |request| >= HEADER
    ensures ReplyPacket(request, DONE, false) != []
  {
  }

  /** The first call, its reply accepted and, in a second copy, taken in again. */
  lemma ReplyTwice(request: seq<byte>, packet: seq<byte>, cl: Client) returns (cl': Client)
    requires Acceptable(packet, 1) && FRAME_HEADERS + |packet| <= MAX_FRAMESIZE
    requires cl == Client([Call(SERVER, request)], 1, true, Free, false, map[])
    ensures var d, frameLen := Reply(CLIENT, SERVER, 1, packet), FRAME_HEADERS + |packet|;
      var taken := cl.(mailbox := Full(d, frameLen), responseReceived := true);
      && Arrived(cl, d, frameLen) == taken && HoldsFrame(taken.mailbox, JUNK)
      && Polled(taken, JUNK, false) == taken.(results := map[1 := packet], active := false, mailbox := Free)
      && cl' == taken.(results := map[1 := packet], active := false)
      && Arrived(Polled(taken, JUNK, false), d, frameLen) == cl'
  {
    hide ClientAccepts;
    var d, frameLen := Reply(CLIENT, SERVER, 1, packet), FRAME_HEADERS + |packet|;
    var taken := cl.(mailbox := Full(d, frameLen), responseReceived := true);
    assert ClientAccepts(frameLen, packet + JUNK, 1, false);
    assert taken.results[1 := packet] == map[1 := packet];
    cl' := taken.(results := map[1 := packet], active := false);
  }

  /** One step of a run. */
  ghost predicate Leads(a: State, step: Step, b: State) {
    Enabled(a, step) && b == Do(a, step)
  }

  lemma FirstBegun() returns (cl: Client)
    ensures cl == Client([Call(SERVER, RequestPacket(1, 0, 0, false, false, []))], 1, true, Free, false, map[])
    ensures Leads(AT_REST, BEGIN, Pair(cl, NEW_SERVER, {}))
  {
    hide RequestPacket; hide Do;
    cl := Begun(IDLE, SERVER, 0, 0, false, false, []);
    ClientMoves(IDLE, NEW_SERVER, {}, BEGIN, cl);
  }

  /** The first call begins, is sent and served. */
  lemma FirstCall() returns (request: seq<byte>, packet: seq<byte>, cl: Client, sv: Server)
    ensures var d, reply := Request(CLIENT, SERVER, 1, request), Reply(CLIENT, SERVER, 1, packet);
      && |request| >= HEADER
      && cl == Client([Call(SERVER, request)], 1, true, Free, false, map[])
      && Acceptable(packet, 1) && FRAME_HEADERS + |packet| <= MAX_FRAMESIZE
      && Leads(AT_REST, BEGIN, Pair(cl, NEW_SERVER, {}))
      && Leads(Pair(cl, NEW_SERVER, {}), SendRequest(CLIENT), Pair(cl, NEW_SERVER, {d}))
      && Leads(Pair(cl, NEW_SERVER, {d}), ServeRequest(d, Some(DONE), false, 1), Pair(cl, sv, {d} + {reply}))
  {
    hide ServerAccepts; hide ReplyPacket; hide RequestPacket; hide Acceptable; hide Do; hide Enabled; hide Length;
    hide HasChecksum; hide Extended; hide Sealed;
    request := RequestPacket(1, 0, 0, false, false, []);
    RequestAccepted(1, 0, 0, false, false, []);
    RequestHeader(1, 0, 0, false, false, []);
    ReplyAcceptable(request, DONE, false);
    ReplyFields(request, DONE, false);
    packet := ReplyPacket(request, DONE, false);
    cl := FirstBegun();
    Sent(cl, request);
    sv := FirstServed(cl, {Request(CLIENT, SERVER, 1, request)}, request);
  }

  /** Its reply arrives, is accepted and arrives again, and the next call begins. */
  lemma SecondCall(request: seq<byte>, packet: seq<byte>, cl: Client, sv: Server, net: set<Datagram>)
    returns (cl4: Client, cl5: Client, cl6: Client, cl7: Client)
    requires cl == Client([Call(SERVER, request)], 1, true, Free, false, map[])
    requires Acceptable(packet, 1) && FRAME_HEADERS + |packet| <= MAX_FRAMESIZE
    requires Reply(CLIENT, SERVER, 1, packet) in net
    ensures var arrives := ReplyArrives(Reply(CLIENT, SERVER, 1, packet), FRAME_HEADERS + |packet|);
      && Leads(Pair(cl, sv, net), arrives, Pair(cl4, sv, net))
      && Leads(Pair(cl4, sv, net), Poll(CLIENT, JUNK, false), Pair(cl5, sv, net))
      && Leads(Pair(cl5, sv, net), arrives, Pair(cl6, sv, net))
      && Leads(Pair(cl6, sv, net), BEGIN, Pair(cl7, sv, net)) && Deaf(cl7)
  {
    hide Acceptable; hide Do; hide Polled; hide Arrived; hide RequestPacket;
    var reply := Reply(CLIENT, SERVER, 1, packet);
    var arrives := ReplyArrives(reply, FRAME_HEADERS + |packet|);
    cl6 := ReplyTwice(request, packet, cl);
    cl4 := cl.(mailbox := Full(reply, FRAME_HEADERS + |packet|), responseReceived := true);
    cl5 := cl4.(results := map[1 := packet], active := false, mailbox := Free);
    cl7 := Begun(cl6, SERVER, 0, 0, false, false, []);
    ClientMoves(cl, sv, net, arrives, cl4);
    ClientMoves(cl4, sv, net, Poll(CLIENT, JUNK, false), cl5);
    ClientMoves(cl5, sv, net, arrives, cl6);
    ClientMoves(cl6, sv, net, BEGIN, cl7);
  }

  /** A call is served, its reply accepted, and a second copy of the reply arrives before the next call: that call is
      deaf. */
  lemma DeafCallReachable() returns (run: seq<State>, steps: seq<Step>)
    ensures Behavior(run, steps) && |steps| == 7 && Begins(steps[6], CLIENT) && CLIENT in run[7].clients
    ensures Deaf(run[7].clients[CLIENT])
  {
    hide Enabled; hide Do; hide Acceptable; hide Init; hide Deaf;
    var request, packet, cl, sv := FirstCall();
    var d, reply := Request(CLIENT, SERVER, 1, request), Reply(CLIENT, SERVER, 1, packet);
    var net := {d} + {reply};
    var cl4, cl5, cl6, cl7 := SecondCall(request, packet, cl, sv, net);
    var arrives := ReplyArrives(reply, FRAME_HEADERS + |packet|);
    steps := [BEGIN, SendRequest(CLIENT), ServeRequest(d, Some(DONE), false, 1),
              arrives, Poll(CLIENT, JUNK, false), arrives, BEGIN];
    run := [AT_REST, Pair(cl, NEW_SERVER, {}), Pair(cl, NEW_SERVER, {d}), Pair(cl, sv, net),
            Pair(cl4, sv, net), Pair(cl5, sv, net), Pair(cl6, sv, net), Pair(cl7, sv, net)];
    RestIsInitial();
    forall i | 0 <= i < 7 ensures Leads(run[i], steps[i], run[i + 1]) {
      assert i == 0 || i == 1 || i == 2 || i == 3 || i == 4 || i == 5 || i == 6;
    }
  }

  lemma Sent(cl: Client, request: seq<byte>)
    requires cl == Client([Call(SERVER, request)], 1, true, Free, false, map[])
    ensures var st := Pair(cl, NEW_SERVER, {});
      && Enabled(st, SendRequest(CLIENT))
      && Do(st, SendRequest(CLIENT)) == Pair(cl, NEW_SERVER, {Request(CLIENT, SERVER, 1, request)})
  {
  }
}
