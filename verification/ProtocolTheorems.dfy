/** What every run of the protocol guarantees, and what it does not. */
module ProtocolTheorems {
  import opened Bytes
  import opened DriveProto
  import opened ReplyCaching
  import opened Protocol
  import opened ProtocolSafety

  // ---------- every reachable state ----------

  lemma InitInv(st: State)
    requires Init(st)
    ensures Inv(st)
  {
    forall s | s in st.servers ensures CacheOk(st.clients, st.servers[s]) {
      assert InUse(st.servers[s].items) == {};
    }
  }

  lemma StepKeepsInv(st: State, step: Step)
    requires Inv(st) && Enabled(st, step)
    ensures Inv(Do(st, step)) && Grows(st, Do(st, step))
  {
    hide Inv; hide Grows; hide Enabled; hide Do;
    match step
    case BeginCall(_, _, _, _, _, _, _) => BeginKeepsInv(st, step);
    case SendRequest(_) => SendKeepsInv(st, step);
    case ServeRequest(_, _, _, _) => ServeKeepsInv(st, step);
    case ReplyArrives(_, _) => ArriveKeepsInv(st, step);
    case Poll(_, _, _) => PollKeepsInv(st, step);
    case EndCall(_) => EndKeepsInv(st, step);
  }

  lemma {:induction false} ReachableInv(run: seq<State>, steps: seq<Step>, i: nat)
    requires Behavior(run, steps) && i < |run|
    ensures Inv(run[i])
  {
    hide Inv; hide Grows; hide Enabled; hide Do; hide Init;
    if i == 0 {
      InitInv(run[0]);
    } else {
      ReachableInv(run, steps, i - 1);
      StepKeepsInv(run[i - 1], steps[i - 1]);
    }
  }

  /** No call is executed twice, by one server or by two. */
  ghost predicate AtMostOnce(st: State) {
    forall s, t, i, j |
      && s in st.servers && t in st.servers && 0 <= i < |st.servers[s].log| && 0 <= j < |st.servers[t].log|
      && st.servers[s].log[i].client == st.servers[t].log[j].client
      && st.servers[s].log[i].call == st.servers[t].log[j].call
      :: s == t && i == j
  }

  /** A server executes the calls of one client in the order they were made. */
  ghost predicate InCallOrder(st: State) {
    forall s, i, j | s in st.servers && 0 <= i < j < |st.servers[s].log|
      && st.servers[s].log[i].client == st.servers[s].log[j].client
      :: st.servers[s].log[i].call < st.servers[s].log[j].call
  }

  /** A reply that a client accepted for call k is the reply of an execution of call k, by the server called. */
  ghost predicate AcceptedGenuine(st: State) {
    forall c, k | c in st.clients && k in st.clients[c].results ::
      1 <= k <= |st.clients[c].calls|
      && Executed(st.servers, st.clients[c].calls[k - 1].server, Execution(c, k, Some(st.clients[c].results[k])))
  }

  lemma {:induction false} LogOrdered(clients: map<Address, Client>, s: Address, log: seq<Execution>, i: nat, j: nat)
    requires LogOk(clients, s, log) && i < j < |log| && log[i].client == log[j].client
    ensures log[i].call < log[j].call
    decreases |log|
  {
    var front := log[..|log| - 1];
    if j < |front| {
      assert front[i] == log[i] && front[j] == log[j];
      LogOrdered(clients, s, front, i, j);
    } else {
      LastIsLargest(clients, s, front, i);
    }
  }

  lemma OrderedInv(st: State)
    requires Inv(st)
    ensures InCallOrder(st)
  {
    hide CacheOk; hide LogOk; hide ClientOk; hide MailboxOk; hide ResultsOk;
    forall s, i, j | s in st.servers && 0 <= i < j < |st.servers[s].log|
      && st.servers[s].log[i].client == st.servers[s].log[j].client
      ensures st.servers[s].log[i].call < st.servers[s].log[j].call
    {
      LogOrdered(st.clients, s, st.servers[s].log, i, j);
    }
  }

  lemma OnceInv(st: State)
    requires Inv(st)
    ensures AtMostOnce(st)
  {
    hide Inv;
    forall s, t, i, j |
      && s in st.servers && t in st.servers && 0 <= i < |st.servers[s].log| && 0 <= j < |st.servers[t].log|
      && st.servers[s].log[i].client == st.servers[t].log[j].client
      && st.servers[s].log[i].call == st.servers[t].log[j].call
      ensures s == t && i == j
    {
      SameExecution(st, s, t, i, j);
    }
  }

  lemma SameExecution(st: State, s: Address, t: Address, i: nat, j: nat)
    requires Inv(st) && s in st.servers && t in st.servers && i < |st.servers[s].log| && j < |st.servers[t].log|
    requires st.servers[s].log[i].client == st.servers[t].log[j].client
    requires st.servers[s].log[i].call == st.servers[t].log[j].call
    ensures s == t && i == j
  {
    hide CacheOk; hide LogOk; hide ClientOk; hide MailboxOk; hide ResultsOk; hide DatagramOk; hide ReplyOk;
    LoggedIsIssued(st.clients, s, st.servers[s].log, st.servers[s].log[i]);
    LoggedIsIssued(st.clients, t, st.servers[t].log, st.servers[t].log[j]);
    if i < j {
      LogOrdered(st.clients, s, st.servers[s].log, i, j);
    } else if j < i {
      LogOrdered(st.clients, s, st.servers[s].log, j, i);
    }
  }

  /** Over every run: calls are executed at most once and in order, and exactly once if their client got a reply,
      which then is the reply of that one execution. */
  lemma ExactlyOnce(run: seq<State>, steps: seq<Step>, i: nat)
    requires Behavior(run, steps) && i < |run|
    ensures AtMostOnce(run[i]) && InCallOrder(run[i]) && AcceptedGenuine(run[i])
  {
    ReachableInv(run, steps, i);
    OrderedInv(run[i]);
    OnceInv(run[i]);
    forall c | c in run[i].clients ensures ResultsOk(run[i].servers, c, run[i].clients[c]) {}
  }

  /** Entry k, and no other, is c's; it holds c's last executed call. */
  ghost predicate HoldsLast(clients: map<Address, Client>, sv: Server, c: Address, k: nat) {
    && k < |sv.items| && sv.items[k].addr == c && EntryOk(clients, sv.log, sv.items[k])
    && forall j | 0 <= j < |sv.items| && j != k && sv.items[j] != EMPTY :: sv.items[j].addr != c
  }

  lemma CacheHoldsLast(clients: map<Address, Client>, sv: Server, c: Address) returns (k: nat)
    requires CacheOk(clients, sv) && LastOf(sv.log, c).Some?
    ensures HoldsLast(clients, sv, c, k)
  {
    assert c in InUse(sv.items);
    k :| 0 <= k < |sv.items| && sv.items[k] != EMPTY && sv.items[k].addr == c;
    hide EntryOk; hide LastOf;
  }

  /** In every reachable state each client that was served has one cache entry, which holds the request and the
      reply of its last executed call: with at most 16 clients none is ever evicted. */
  lemma LastReplyKept(run: seq<State>, steps: seq<Step>, i: nat, s: Address, c: Address) returns (k: nat)
    requires Behavior(run, steps) && i < |run| && s in run[i].servers
    requires LastOf(run[i].servers[s].log, c).Some?
    ensures HoldsLast(run[i].clients, run[i].servers[s], c, k)
  {
    ReachableInv(run, steps, i);
    k := CacheHoldsLast(run[i].clients, run[i].servers[s], c);
  }

  // ---------- nothing is taken back ----------

  ghost predicate ResultsGrow(a: State, b: State) {
    && a.clients.Keys == b.clients.Keys
    && forall c, k | c in a.clients && k in a.clients[c].results ::
         k in b.clients[c].results && b.clients[c].results[k] == a.clients[c].results[k]
  }

  lemma StepKeepsResults(st: State, step: Step)
    requires Inv(st) && Enabled(st, step)
    ensures ResultsGrow(st, Do(st, step))
  {
    hide CacheOk; hide LogOk; hide MailboxOk; hide ResultsOk; hide DatagramOk;
    if step.Poll? { assert ClientOk(st.clients[step.c], st.servers.Keys); }
  }

  lemma GrowsTransitive(a: State, b: State, c: State)
    requires Grows(a, b) && Grows(b, c) && ResultsGrow(a, b) && ResultsGrow(b, c)
    ensures Grows(a, c) && ResultsGrow(a, c)
  {
  }

  /** Executions stay logged and accepted replies stay what they were. */
  lemma {:induction false} NothingTakenBack(run: seq<State>, steps: seq<Step>, i: nat, j: nat)
    requires Behavior(run, steps) && i <= j < |run|
    ensures Grows(run[i], run[j]) && ResultsGrow(run[i], run[j])
    decreases j
  {
    hide Inv; hide Enabled; hide Do; hide Init; hide Grows; hide ResultsGrow;
    if i < j {
      NothingTakenBack(run, steps, i, j - 1);
      ReachableInv(run, steps, j - 1);
      StepKeepsInv(run[j - 1], steps[j - 1]);
      StepKeepsResults(run[j - 1], steps[j - 1]);
      GrowsTransitive(run[i], run[j - 1], run[j]);
    } else {
      GrowsReflexive(run[i]);
    }
  }

  lemma GrowsReflexive(st: State)
    ensures Grows(st, st) && ResultsGrow(st, st)
  {
  }
}
