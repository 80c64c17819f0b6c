/** The server's reply cache: the last request and reply of each client, in 16 entries. */
module ReplyCaching {
  import opened Bytes
  import opened Seqs

  const REPLY_CACHE_SIZE := 16

  datatype Address = Address(ip: uint32, port: uint16)

  /** Static storage: the address of an entry no client has used yet. */
  const UNUSED := Address(0, 0)

  /** recvPacket and sendPacket are the valid parts of the two 1500-octet buffers; their lengths are
      recv_len and send_len. */
  datatype ReplyInfo = ReplyInfo(recvPacket: seq<byte>, sendPacket: seq<byte>, addr: Address, timestamp: int)

  const EMPTY := ReplyInfo([], [], UNUSED, 0)

  // ---------- choosing an entry ----------

  /** The first of the entries 0..n with the smallest timestamp. */
  function Oldest(items: seq<ReplyInfo>, n: nat): (k: nat)
    requires 1 <= n <= |items|
    ensures k < n
    ensures forall j | 0 <= j < n :: items[k].timestamp <= items[j].timestamp
  {
    if n == 1 then 0
    else
      var k := Oldest(items, n - 1);
      if items[n - 1].timestamp < items[k].timestamp then n - 1 else k
  }

  /** The first of the entries from i on that belongs to addr, if any. */
  function Find(items: seq<ReplyInfo>, addr: Address, i: nat): (k: Option<nat>)
    requires i <= |items|
    ensures k.Some? ==> i <= k.value < |items| && items[k.value].addr == addr
    ensures k.Some? ==> forall j | i <= j < k.value :: items[j].addr != addr
    ensures k.None? ==> forall j | i <= j < |items| :: items[j].addr != addr
    decreases |items| - i
  {
    if i == |items| then None
    else if items[i].addr == addr then Some(i)
    else Find(items, addr, i + 1)
  }

  function SlotOf(items: seq<ReplyInfo>, addr: Address): (k: nat)
    requires items != []
    ensures k < |items|
  {
    match Find(items, addr, 0)
    case Some(k) => k
    case None => Oldest(items, |items|)
  }

  /** The entries once addr has one: an entry taken over from another client is emptied first. */
  function Reserve(items: seq<ReplyInfo>, addr: Address): (r: seq<ReplyInfo>)
    requires items != []
    ensures |r| == |items|
  {
    var k := SlotOf(items, addr);
    if items[k].addr == addr then items else items[k := ReplyInfo([], [], addr, items[k].timestamp)]
  }

  // ---------- serving one request ----------

  datatype Served = Served(items: seq<ReplyInfo>, reply: Option<seq<byte>>, executed: bool)

  predicate IsDuplicate(info: ReplyInfo, request: seq<byte>) {
    info.recvPacket != [] && info.recvPacket == request
  }

  /** What the server does with a valid request: `outcome` is what executing it would answer, None for
      a request that gets no answer. */
  function Serve(items: seq<ReplyInfo>, addr: Address, request: seq<byte>, outcome: Option<seq<byte>>,
          now: int): (r: Served)
    requires items != []
  {
    var k := SlotOf(items, addr);
    var info := Reserve(items, addr)[k];
    if IsDuplicate(info, request) then
      Served(Reserve(items, addr)[k := info.(timestamp := now)],
        if info.sendPacket != [] then Some(info.sendPacket) else None, false)
    else
      var sent := if outcome.Some? then outcome.value else [];
      Served(Reserve(items, addr)[k := ReplyInfo(request, sent, addr, now)],
        if sent != [] then Some(sent) else None, true)
  }

  class ReplyCache {
    const items: array<ReplyInfo>

    constructor ()
      ensures fresh(items) && items.Length == 16
      ensures forall k | 0 <= k < items.Length :: items[k] == EMPTY
    {
      items := new ReplyInfo[REPLY_CACHE_SIZE](_ => EMPTY);
    }

    /** get_reply_info: one pass that finds the client's entry or else the oldest one. */
    method GetReplyInfo(addr: Address) returns (k: nat)
      requires items.Length == REPLY_CACHE_SIZE
      modifies items
      ensures k == SlotOf(old(items[..]), addr)
      ensures items[..] == Reserve(old(items[..]), addr)
    {
      var oldest := 0;
      var i := 0;
      assert items[..] == old(items[..]);
      while i < items.Length
        invariant i <= items.Length && items[..] == old(items[..])
        invariant oldest == Oldest(items[..], if i == 0 then 1 else i)
        invariant Find(items[..], addr, 0) == Find(items[..], addr, i)
      {
        if items[i].addr == addr {
          return i;
        }
        if items[i].timestamp < items[oldest].timestamp {
          oldest := i;
        }
        i := i + 1;
      }
      items[oldest] := ReplyInfo([], [], addr, items[oldest].timestamp);
      k := oldest;
    }

    /** The part of the main loop that follows the validation of a request. `outcome` is the answer the
        request's execution would give; it is used only if `executed`. */
    method HandleRequest(addr: Address, request: seq<byte>, outcome: Option<seq<byte>>, now: int)
      returns (reply: Option<seq<byte>>, executed: bool)
      requires items.Length == REPLY_CACHE_SIZE
      modifies items
      ensures Served(items[..], reply, executed) == Serve(old(items[..]), addr, request, outcome, now)
    {
      var k := GetReplyInfo(addr);
      var info := items[k];
      executed := !IsDuplicate(info, request);
      var sent := if !executed then info.sendPacket else if outcome.Some? then outcome.value else [];
      items[k] := info.(recvPacket := request, sendPacket := sent, timestamp := now);
      reply := if sent != [] then Some(sent) else None;
      assert items[..] == Reserve(old(items[..]), addr)[k := items[k]];
    }
  }

  // ---------- what the cache keeps ----------

  /** The entries in use belong to different members of `clients`, and bear the time of an answer. */
  ghost predicate CacheValid(items: seq<ReplyInfo>, clients: set<Address>) {
    && |items| == REPLY_CACHE_SIZE
    && (forall k | 0 <= k < |items| :: items[k] == EMPTY || (items[k].addr in clients && items[k].timestamp > 0))
    && (forall j, k | 0 <= j < k < |items| && items[j] != EMPTY && items[k] != EMPTY :: items[j].addr != items[k].addr)
  }

  ghost function InUse(items: seq<ReplyInfo>): (r: set<Address>) {
    set k | 0 <= k < |items| && items[k] != EMPTY :: items[k].addr
  }

  /** Pairwise different addresses are as many as their entries. */
  lemma {:induction false} DistinctCount(items: seq<ReplyInfo>)
    requires forall k | 0 <= k < |items| :: items[k] != EMPTY
    requires forall j, k | 0 <= j < k < |items| :: items[j].addr != items[k].addr
    ensures |InUse(items)| == |items|
  {
    if items == [] {
      assert InUse(items) == {};
    } else {
      var n := |items| - 1;
      var front := items[..n];
      DistinctCount(front);
      assert InUse(items) == InUse(front) + {items[n].addr} by {
        forall a | a in InUse(items) ensures a in InUse(front) + {items[n].addr} {
          var k :| 0 <= k < |items| && items[k].addr == a;
          if k < n { assert front[k] == items[k]; }
        }
        forall k | 0 <= k < n ensures items[k].addr in InUse(items) {}
        assert items[n].addr in InUse(items);
      }
      assert items[n].addr !in InUse(front);
    }
  }

  lemma {:induction false} InUseAtMost(items: seq<ReplyInfo>)
    ensures |InUse(items)| <= |items|
  {
    if items == [] {
      assert InUse(items) == {};
    } else {
      var n := |items| - 1;
      InUseAtMost(items[..n]);
      SubsetSize(InUse(items), InUse(items[..n]) + {items[n].addr}) by {
        forall a | a in InUse(items) ensures a in InUse(items[..n]) + {items[n].addr} {
          var k :| 0 <= k < |items| && items[k] != EMPTY && items[k].addr == a;
          if k < n { assert items[..n][k] == items[k]; }
        }
      }
    }
  }

  /** A newcomer is given an entry that nobody uses, and so evicts no client, exactly when one of the 16 is left. */
  lemma EvictsOnlyWhenFull(items: seq<ReplyInfo>, clients: set<Address>, addr: Address)
    requires CacheValid(items, clients) && addr != UNUSED && addr !in InUse(items)
    ensures items[SlotOf(items, addr)] == EMPTY <==> |InUse(items)| < 16
  {
    assert Find(items, addr, 0).None?;
    var k := Oldest(items, |items|);
    if items[k] != EMPTY {
      forall j | 0 <= j < |items| ensures items[j] != EMPTY {
        assert items[k].timestamp <= items[j].timestamp;
      }
      DistinctCount(items);
    } else {
      var others := items[..k] + items[k + 1..];
      InUseAtMost(others);
      SubsetSize(InUse(items), InUse(others)) by {
        forall a | a in InUse(items) ensures a in InUse(others) {
          var j :| 0 <= j < |items| && items[j] != EMPTY && items[j].addr == a;
          if j < k { assert others[j] == items[j]; } else { assert others[j - 1] == items[j]; }
        }
      }
    }
  }

  /** A newcomer, whoever else is in the cache: its request is executed and answered, and replaces the first of the
      entries that were used least recently, and no other. */
  lemma NewcomerReplacesOldest(items: seq<ReplyInfo>, addr: Address, request: seq<byte>, outcome: Option<seq<byte>>,
          now: int)
    returns (k: nat)
    requires items != [] && (forall j | 0 <= j < |items| :: items[j].addr != addr)
    requires outcome.Some? ==> outcome.value != []
    ensures k < |items|
    ensures forall j | 0 <= j < |items| :: items[k].timestamp <= items[j].timestamp
    ensures forall j | 0 <= j < k :: items[k].timestamp < items[j].timestamp
    ensures var s := Serve(items, addr, request, outcome, now);
      && s.executed && s.reply == outcome
      && s.items == items[k := ReplyInfo(request, if outcome.Some? then outcome.value else [], addr, now)]
  {
    assert Find(items, addr, 0).None?;
    k := Oldest(items, |items|);
    OldestIsFirst(items, |items|);
    hide Oldest; hide Find;
  }

  lemma {:induction false} OldestIsFirst(items: seq<ReplyInfo>, n: nat)
    requires 1 <= n <= |items|
    ensures forall j | 0 <= j < Oldest(items, n) :: items[Oldest(items, n)].timestamp < items[j].timestamp
  {
    if n > 1 { OldestIsFirst(items, n - 1); }
  }

  /** A known client's request is answered from its entry exactly if it is the one kept there, octet for octet; only
      this entry changes. */
  lemma KnownClientServed(items: seq<ReplyInfo>, addr: Address, k: nat, request: seq<byte>, outcome: Option<seq<byte>>,
          now: int)
    requires k < |items| && items[k].addr == addr && forall j | 0 <= j < k :: items[j].addr != addr
    requires request != [] && (outcome.Some? ==> outcome.value != [])
    ensures var s := Serve(items, addr, request, outcome, now);
      && (s.executed <==> items[k].recvPacket != request)
      && s.reply == (if s.executed then outcome
                     else if items[k].sendPacket == [] then None else Some(items[k].sendPacket))
      && s.items == items[k := ReplyInfo(request, if s.reply.Some? then s.reply.value else [], addr, now)]
  {
    assert Find(items, addr, 0) == Some(k);
    hide Find;
  }

  /** With at most 16 clients one is always left. */
  lemma NewcomerGetsUnused(items: seq<ReplyInfo>, clients: set<Address>, addr: Address)
    requires CacheValid(items, clients) && |clients| <= REPLY_CACHE_SIZE
    requires addr in clients && addr != UNUSED && addr !in InUse(items)
    ensures items[SlotOf(items, addr)] == EMPTY
  {
    EvictsOnlyWhenFull(items, clients, addr);
    SubsetSize(InUse(items), clients - {addr});
  }

  /** Serving a client writes one entry, which is the client's own or nobody's. */
  lemma ServeWritesOneEntry(items: seq<ReplyInfo>, clients: set<Address>, addr: Address, request: seq<byte>,
          outcome: Option<seq<byte>>, now: int)
    returns (k: nat)
    requires CacheValid(items, clients) && |clients| <= REPLY_CACHE_SIZE
    requires addr in clients && addr != UNUSED
    ensures k == SlotOf(items, addr) < |items|
    ensures if addr in InUse(items) then items[k] != EMPTY && items[k].addr == addr else items[k] == EMPTY
    ensures var s := Serve(items, addr, request, outcome, now);
      s.items == items[k := s.items[k]] && s.items[k].addr == addr && s.items[k].timestamp == now
  {
    k := SlotOf(items, addr);
    if addr !in InUse(items) {
      NewcomerGetsUnused(items, clients, addr);
    } else {
      var j :| 0 <= j < |items| && items[j] != EMPTY && items[j].addr == addr;
      assert Find(items, addr, 0).Some?;
    }
  }

  lemma EntryWritten(items: seq<ReplyInfo>, clients: set<Address>, k: nat, info: ReplyInfo)
    requires CacheValid(items, clients) && k < |items| && info != EMPTY
    requires info.addr in clients && info.timestamp > 0
    requires if info.addr in InUse(items) then items[k] != EMPTY && items[k].addr == info.addr else items[k] == EMPTY
    ensures CacheValid(items[k := info], clients)
    ensures InUse(items[k := info]) == InUse(items) + {info.addr}
    ensures forall j | 0 <= j < |items| && j != k && items[j] != EMPTY :: items[j].addr != info.addr
  {
    var after := items[k := info];
    assert info.addr in InUse(after) by { assert after[k] == info; }
    forall a | a in InUse(items) ensures a in InUse(after) {
      var j :| 0 <= j < |items| && items[j] != EMPTY && items[j].addr == a;
      assert j != k ==> after[j] == items[j];
    }
    forall a | a in InUse(after) ensures a in InUse(items) + {info.addr} {
      var j :| 0 <= j < |items| && after[j] != EMPTY && after[j].addr == a;
      assert j != k ==> after[j] == items[j];
    }
  }

  /** Serving a client keeps the cache valid, gives the client an entry and leaves all other clients' entries. */
  lemma ServeKeepsCache(items: seq<ReplyInfo>, clients: set<Address>, addr: Address, request: seq<byte>,
          outcome: Option<seq<byte>>, now: int)
    requires CacheValid(items, clients) && |clients| <= REPLY_CACHE_SIZE
    requires addr in clients && addr != UNUSED && now > 0
    ensures var s := Serve(items, addr, request, outcome, now);
      && CacheValid(s.items, clients)
      && InUse(s.items) == InUse(items) + {addr}
      && (forall k | 0 <= k < |items| && items[k] != EMPTY && items[k].addr != addr :: s.items[k] == items[k])
  {
    var k := ServeWritesOneEntry(items, clients, addr, request, outcome, now);
    EntryWritten(items, clients, k, Serve(items, addr, request, outcome, now).items[k]);
  }
}
