/** The client's four slots for IP addresses: who gets which, and the hardware address behind each. */
module IpSlots {
  import opened Bytes

  type Ip = bv32
  type Mac = bv48

  const NO_IP: Ip := 0xFFFF_FFFF
  const BROADCAST: Mac := 0xFFFF_FFFF_FFFF
  const SLOTS := 4
  const DRIVES := 26
  const NO_SLOT: byte := 0xFF

  // ---------- the slot an address gets ----------

  function FindIp(ips: seq<Ip>, ip: Ip, i: nat): (k: nat)
    requires i <= |ips|
    ensures i <= k <= |ips| && (k < |ips| ==> ips[k] == ip) && forall j | i <= j < k :: ips[j] != ip
    decreases |ips| - i
  {
    if i < |ips| && ips[i] != ip then FindIp(ips, ip, i + 1) else i
  }

  /** The last free slot of the first n. */
  function LastFree(ips: seq<Ip>, n: nat): (k: byte)
    requires n <= |ips| <= SLOTS
    ensures k == NO_SLOT || (k < n && ips[k] == NO_IP)
    ensures k == NO_SLOT <==> forall j | 0 <= j < n :: ips[j] != NO_IP
  {
    if n == 0 then NO_SLOT else if ips[n - 1] == NO_IP then n - 1 else LastFree(ips, n - 1)
  }

  predicate Reusable(drives: seq<byte>, gateway: byte, i: nat) {
    i < SLOTS && i != gateway && forall d | 0 <= d < |drives| :: drives[d] != i
  }

  function FirstReusable(drives: seq<byte>, gateway: byte, i: nat): (k: byte)
    requires i <= SLOTS
    ensures k == NO_SLOT || (i <= k && Reusable(drives, gateway, k))
    ensures k == NO_SLOT ==> forall j | i <= j < SLOTS :: !Reusable(drives, gateway, j)
    decreases SLOTS - i
  {
    if i == SLOTS then NO_SLOT else if Reusable(drives, gateway, i) then i else FirstReusable(drives, gateway, i + 1)
  }

  /** The slot that holds the address, else a free one, else one that no drive and no gateway refers to. */
  function SlotFor(ips: seq<Ip>, drives: seq<byte>, gateway: byte, ip: Ip): (k: byte)
    requires |ips| == SLOTS
    ensures k == NO_SLOT || k < SLOTS
  {
    var found := FindIp(ips, ip, 0);
    if found < SLOTS then found
    else
      var free := LastFree(ips, SLOTS);
      if free != NO_SLOT then free else FirstReusable(drives, gateway, 0)
  }

  // ---------- the slot an address deserves ----------

  /** What the slot indices tell of the drives mounted now, of those `ever` mounted, and of the gateway: memory is zero
      at first, so a drive never mounted refers to slot 0. */
  ghost predicate Tells(ips: seq<Ip>, drives: seq<byte>, gateway: byte, mounted: map<nat, Ip>, ever: set<nat>,
          gatewayIp: Option<Ip>)
  {
    && |ips| == SLOTS && |drives| == DRIVES && mounted.Keys <= ever
    && (forall d <- ever :: d < DRIVES)
    && (forall d | 0 <= d < DRIVES && d !in mounted :: drives[d] == if d in ever then NO_SLOT else 0)
    && (forall d <- mounted :: drives[d] < SLOTS && ips[drives[d]] == mounted[d] != NO_IP)
    && (gateway == NO_SLOT || gateway < SLOTS)
    && (gatewayIp == if gateway == NO_SLOT then None else Some(ips[gateway]))
    && gatewayIp != Some(NO_IP)
    && forall i, j | 0 <= i < j < SLOTS && ips[i] != NO_IP :: ips[i] != ips[j]
  }

  /** A slot whose address no mounted drive needs, nor the gateway. */
  ghost predicate Spare(ips: seq<Ip>, mounted: map<nat, Ip>, gatewayIp: Option<Ip>, i: nat) {
    i < |ips| && Some(ips[i]) != gatewayIp && forall d <- mounted :: mounted[d] != ips[i]
  }

  ghost predicate AllEver(ever: set<nat>) {
    forall d | 0 <= d < DRIVES :: d in ever
  }

  /** A finding: of the slots that nobody needs, slot 0 may be used again only once every drive was mounted. */
  lemma ReusableIff(ips: seq<Ip>, drives: seq<byte>, gateway: byte, mounted: map<nat, Ip>, ever: set<nat>,
          gatewayIp: Option<Ip>, i: nat)
    requires Tells(ips, drives, gateway, mounted, ever, gatewayIp) && i < SLOTS && ips[i] != NO_IP
    ensures Reusable(drives, gateway, i) <==> Spare(ips, mounted, gatewayIp, i) && (i != 0 || AllEver(ever))
  {
    if Spare(ips, mounted, gatewayIp, i) {
      assert i != gateway;
      assert forall d <- mounted :: drives[d] != i;
    } else if gatewayIp != Some(ips[i]) {
      var d :| d in mounted && mounted[d] == ips[i];
      assert drives[d] == i;
    }
  }

  /** An address gets a slot exactly if it has one, one is free, or one is spare; slot 0 only once every drive was
      mounted. */
  lemma SlotExists(ips: seq<Ip>, drives: seq<byte>, gateway: byte, mounted: map<nat, Ip>, ever: set<nat>,
          gatewayIp: Option<Ip>, ip: Ip)
    requires Tells(ips, drives, gateway, mounted, ever, gatewayIp)
    ensures SlotFor(ips, drives, gateway, ip) != NO_SLOT
      <==> ip in ips || NO_IP in ips || exists i :: Spare(ips, mounted, gatewayIp, i) && (i != 0 || AllEver(ever))
  {
    if NO_IP in ips {
      assert LastFree(ips, SLOTS) != NO_SLOT;
    } else if ip !in ips {
      forall i | 0 <= i < SLOTS
        ensures Reusable(drives, gateway, i) <==> Spare(ips, mounted, gatewayIp, i) && (i != 0 || AllEver(ever))
      {
        assert ips[i] in ips;
        ReusableIff(ips, drives, gateway, mounted, ever, gatewayIp, i);
      }
    }
  }

  // ---------- what the indices tell stays true ----------

  /** Giving an address its slot takes none away that is needed. */
  lemma StillTells(ips: seq<Ip>, drives: seq<byte>, gateway: byte, mounted: map<nat, Ip>, ever: set<nat>,
          gatewayIp: Option<Ip>, ip: Ip)
    requires Tells(ips, drives, gateway, mounted, ever, gatewayIp) && ip != NO_IP
    ensures var k := SlotFor(ips, drives, gateway, ip);
      && (k != NO_SLOT ==> Tells(ips[k := ip], drives, gateway, mounted, ever, gatewayIp))
      && (k != NO_SLOT && ip !in ips ==> k != gateway)
  {
    var k := SlotFor(ips, drives, gateway, ip);
    if k != NO_SLOT {
      if ip in ips {
        assert ips[k := ip] == ips;
      } else {
        assert ips[k] == NO_IP || Reusable(drives, gateway, k);
        assert forall d <- mounted :: drives[d] != k;
      }
    }
  }

  lemma SlotHolds(ips: seq<Ip>, drives: seq<byte>, gateway: byte, ip: Ip)
    requires |ips| == SLOTS && ip in ips
    ensures var k := SlotFor(ips, drives, gateway, ip); k < SLOTS && ips[k] == ip
  {
    hide LastFree; hide FirstReusable;
  }

  /** The sender of an ARP message is the gateway exactly if its slot is the gateway's. */
  lemma GatewayTold(ips: seq<Ip>, drives: seq<byte>, gateway: byte, mounted: map<nat, Ip>, ever: set<nat>,
          gatewayIp: Option<Ip>, ip: Ip)
    requires Tells(ips, drives, gateway, mounted, ever, gatewayIp)
    ensures gatewayIp == Some(ip) <==> gateway < SLOTS && ips[gateway] == ip
    ensures gatewayIp == Some(ip) ==> forall i | 0 <= i < SLOTS && ips[i] == ip :: i == gateway
  {
  }

  lemma MountTold(ips: seq<Ip>, drives: seq<byte>, gateway: byte, mounted: map<nat, Ip>, ever: set<nat>,
          gatewayIp: Option<Ip>, d: nat, k: byte)
    requires Tells(ips, drives, gateway, mounted, ever, gatewayIp) && d < DRIVES && k < SLOTS && ips[k] != NO_IP
    ensures Tells(ips, drives[d := k], gateway, mounted[d := ips[k]], ever + {d}, gatewayIp)
  {
  }

  lemma UmountTold(ips: seq<Ip>, drives: seq<byte>, gateway: byte, mounted: map<nat, Ip>, ever: set<nat>,
          gatewayIp: Option<Ip>, d: nat)
    requires Tells(ips, drives, gateway, mounted, ever, gatewayIp) && d in mounted
    ensures d < DRIVES && Tells(ips, drives[d := NO_SLOT], gateway, mounted - {d}, ever, gatewayIp)
  {
  }

  /** What mounting and unmounting do to the addresses and to the drives' slot indices. */
  datatype Indices = Indices(ips: seq<Ip>, drives: seq<byte>) {
    predicate Valid() {
      |ips| == SLOTS && |drives| == DRIVES
    }

    function AfterMount(gateway: byte, d: nat, ip: Ip): (t: Option<Indices>)
      requires Valid() && d < DRIVES
      ensures t.Some? ==> t.value.Valid()
    {
      var slot := SlotFor(ips, drives, gateway, ip);
      if slot == NO_SLOT then None else Some(Indices(ips[slot := ip], drives[d := slot]))
    }

    function AfterUmount(d: nat): (t: Indices)
      requires Valid() && d < DRIVES
      ensures t.Valid()
    {
      Indices(ips, drives[d := NO_SLOT])
    }
  }

  // ---------- the network ----------

  lemma MaskedDifference(a: Ip, b: Ip, mask: Ip)
    ensures (a & mask) ^ (b & mask) == (a ^ b) & mask
  {
  }

  lemma NoDifference(a: Ip, b: Ip)
    ensures a ^ b == 0 <==> a == b
  {
  }

  /** Some bit of the mask is set in one address and not in the other. */
  predicate DifferInMask(a: Ip, b: Ip, mask: Ip) {
    (a ^ b) & mask != 0
  }

  /** The code's test of an address: not of the network of this host. */
  predicate NotInNetwork(ip: Ip, localIp: Ip, netMask: Ip) {
    ip & netMask != localIp & netMask
  }

  lemma NetworksDiffer(a: Ip, b: Ip, mask: Ip)
    ensures NotInNetwork(a, b, mask) <==> DifferInMask(a, b, mask)
  {
    MaskedDifference(a, b, mask);
    NoDifference(a & mask, b & mask);
  }

  // ---------- the table ----------

  class IpTable {
    const localIp: Ip
    const netMask: Ip
    const ips: array<Ip>
    const macs: array<Mac>
    const drives: array<byte> // remote_ip_idx of every drive
    var gateway: byte

    ghost var mounted: map<nat, Ip> // what each mounted drive was mounted with
    ghost var ever: set<nat> // the drives that were mounted at any time
    ghost var gatewayIp: Option<Ip>
    ghost var announced: set<(Ip, Mac)> // every ARP message that was taken in

    predicate Outside(ip: Ip) {
      NotInNetwork(ip, localIp, netMask)
    }

    ghost predicate Valid()
      reads this, ips, macs, drives
    {
      && ips.Length == SLOTS && macs.Length == SLOTS && drives.Length == DRIVES
      && (gateway == NO_SLOT || gateway < SLOTS)
      && Tells(ips[..], drives[..], gateway, mounted, ever, gatewayIp)
      && (forall i | 0 <= i < SLOTS && ips[i] != NO_IP :: MacRight(i))
    }

    /** A slot's hardware address is unknown, or the address' own, or for other networks the gateway's. */
    ghost predicate MacRight(i: nat)
      requires i < ips.Length && i < macs.Length
      requires gateway == NO_SLOT || gateway < ips.Length
      reads this, ips, macs
    {
      || macs[i] == BROADCAST
      || (ips[i], macs[i]) in announced
      || (gateway != NO_SLOT && Outside(ips[i]) && (ips[gateway], macs[i]) in announced)
    }

    /** Installation: memory is zero apart from what is set here, so every drive's slot index is 0 at first. */
    constructor (localIp: Ip, netMask: Ip)
      ensures Valid() && mounted == map[] && ever == {} && gatewayIp == None && announced == {}
      ensures this.localIp == localIp && this.netMask == netMask
      ensures forall i | 0 <= i < SLOTS :: ips[i] == NO_IP
      ensures forall d | 0 <= d < DRIVES :: drives[d] == 0
      ensures fresh(ips) && fresh(macs) && fresh(drives)
    {
      this.localIp, this.netMask := localIp, netMask;
      ips, macs := new Ip[SLOTS](_ => NO_IP), new Mac[SLOTS](_ => 0);
      drives := new byte[DRIVES](_ => 0);
      gateway := NO_SLOT;
      mounted, ever, gatewayIp, announced := map[], {}, None, {};
    }

    /** The search of assign_remote_ip_addr_slot; `unused` says that the slot did not hold the address yet. */
    method FindSlot(ip: Ip) returns (slot: byte, unused: bool)
      requires ips.Length == SLOTS && drives.Length == DRIVES
      ensures slot == SlotFor(ips[..], drives[..], gateway, ip)
      ensures unused <==> slot != NO_SLOT && ip !in ips[..]
    {
      slot := NO_SLOT;
      var free := NO_SLOT;
      for i := 0 to SLOTS
        invariant slot == NO_SLOT && free == LastFree(ips[..], i) && FindIp(ips[..], ip, i) == FindIp(ips[..], ip, 0)
        invariant forall k | 0 <= k < i :: ips[k] != ip
      {
        if ips[i] == ip {
          return i, false;
        }
        if ips[i] == NO_IP {
          free := i;
        }
      }
      if free != NO_SLOT {
        return free, true;
      }
      for i := 0 to SLOTS
        invariant FirstReusable(drives[..], gateway, i) == FirstReusable(drives[..], gateway, 0)
      {
        if i == gateway {
          continue;
        }
        var d := 0;
        while d < DRIVES && drives[d] != i
          invariant d <= DRIVES && forall e | 0 <= e < d :: drives[e] != i
        {
          d := d + 1;
        }
        if d == DRIVES {
          return i, true;
        }
      }
      return NO_SLOT, false;
    }

    /** assign_remote_ip_addr_slot: no slot in use changes, and the hardware address of a new one is unknown. */
    method AssignSlot(ip: Ip) returns (slot: byte)
      requires Valid() && ip != NO_IP
      modifies ips, macs
      ensures Valid()
      ensures slot == SlotFor(old(ips[..]), drives[..], gateway, ip)
      ensures ips[..] == if slot == NO_SLOT then old(ips[..]) else old(ips[..])[slot := ip]
      ensures macs[..] ==
        if slot == NO_SLOT || ip in old(ips[..]) then old(macs[..]) else old(macs[..])[slot := 0xFFFF_FFFF_FFFF]
    {
      StillTells(ips[..], drives[..], gateway, mounted, ever, gatewayIp, ip);
      hide SlotFor; hide Outside; hide Tells;
      var unused;
      slot, unused := FindSlot(ip);
      if unused {
        ips[slot] := ip;
        macs[slot] := BROADCAST;
      } else if slot != NO_SLOT {
        SlotHolds(ips[..], drives[..], gateway, ip);
        assert ips[..][slot := ip] == ips[..];
      }
    }

    /** Mounts succeed exactly if some slot holds the server's address, is free or may be used again: slot 0 only once
        every drive was mounted. */
    method Mount(d: nat, ip: Ip) returns (ok: bool)
      requires Valid() && ip != NO_IP && d < DRIVES && d !in mounted
      modifies this`mounted, this`ever, ips, macs, drives
      ensures Valid()
      ensures mounted == if ok then old(mounted)[d := ip] else old(mounted)
      ensures ever == if ok then old(ever) + {d} else old(ever)
      ensures ok <==> old(ip in ips[..] || NO_IP in ips[..]
        || exists i :: Spare(ips[..], mounted, gatewayIp, i) && (i != 0 || AllEver(ever)))
      ensures var t := old(Indices(ips[..], drives[..])).AfterMount(gateway, d, ip);
        (ok <==> t.Some?) && Indices(ips[..], drives[..]) == if ok then t.value else old(Indices(ips[..], drives[..]))
    {
      SlotExists(ips[..], drives[..], gateway, mounted, ever, gatewayIp, ip);
      hide SlotFor; hide Outside; hide Tells; hide Spare; hide AllEver;
      var slot := AssignSlot(ip);
      if slot == NO_SLOT {
        return false;
      }
      MountTold(ips[..], drives[..], gateway, mounted, ever, gatewayIp, d, slot);
      drives[d] := slot;
      mounted, ever := mounted[d := ip], ever + {d};
      ok := true;
    }

    method Umount(d: nat)
      requires Valid() && d in mounted
      modifies this`mounted, drives
      ensures Valid() && mounted == old(mounted) - {d}
      ensures Indices(ips[..], drives[..]) == old(Indices(ips[..], drives[..])).AfterUmount(d)
    {
      UmountTold(ips[..], drives[..], gateway, mounted, ever, gatewayIp, d);
      hide Outside; hide Tells;
      drives[d] := NO_SLOT;
      mounted := mounted - {d};
    }

    /** The gateway is set during installation, before anything else happened. */
    method SetGateway(ip: Ip)
      requires Valid() && ip != NO_IP && mounted == map[] && announced == {}
      modifies this`gateway, this`gatewayIp, ips, macs
      ensures Valid() && gatewayIp == if gateway == NO_SLOT then None else Some(ip)
      ensures gateway != NO_SLOT <==> old(ip in ips[..] || NO_IP in ips[..]
        || exists i :: Spare(ips[..], mounted, gatewayIp, i) && (i != 0 || AllEver(ever)))
    {
      SlotExists(ips[..], drives[..], gateway, mounted, ever, gatewayIp, ip);
      gateway := AssignSlot(ip);
      gatewayIp := if gateway == NO_SLOT then None else Some(ip);
    }

    /** handle_arp as far as the table goes: a message over Ethernet and for this host makes known where its sender is,
        and if that is the gateway, where all addresses outside the network are sent: those that differ from the local
        one in a bit of the mask. */
    method HandleArp(hwType: uint16, targetIp: Ip, senderIp: Ip, senderMac: Mac)
      requires Valid()
      modifies this`announced, macs
      ensures Valid()
      ensures hwType != 1 || targetIp != localIp ==> announced == old(announced) && macs[..] == old(macs[..])
      ensures hwType == 1 && targetIp == localIp ==>
        && announced == old(announced) + {(senderIp, senderMac)}
        && (forall i | 0 <= i < SLOTS && ips[i] == senderIp != NO_IP :: macs[i] == senderMac)
        && (forall i | 0 <= i < SLOTS && ips[i] != senderIp && gatewayIp != Some(senderIp) :: macs[i] == old(macs[i]))
        && (forall i | 0 <= i < SLOTS && ips[i] != senderIp && gatewayIp == Some(senderIp) ::
              macs[i] == if DifferInMask(ips[i], localIp, netMask) then senderMac else old(macs[i]))
    {
      if hwType != 1 {
        return;
      }
      if targetIp != localIp {
        return;
      }
      hide NotInNetwork; hide DifferInMask; hide Tells; hide MacRight;
      TakeSender(senderIp, senderMac);
      forall i | 0 <= i < SLOTS ensures Outside(ips[i]) <==> DifferInMask(ips[i], localIp, netMask) {
        NetworksDiffer(ips[i], localIp, netMask);
      }
    }

    method TakeSender(senderIp: Ip, senderMac: Mac)
      requires Valid()
      modifies this`announced, macs
      ensures Valid() && announced == old(announced) + {(senderIp, senderMac)}
      ensures forall i | 0 <= i < SLOTS && ips[i] == senderIp != NO_IP :: macs[i] == senderMac
      ensures forall i | 0 <= i < SLOTS && ips[i] != senderIp && gatewayIp != Some(senderIp) :: macs[i] == old(macs[i])
      ensures forall i | 0 <= i < SLOTS && ips[i] != senderIp && gatewayIp == Some(senderIp) ::
        macs[i] == if Outside(ips[i]) then senderMac else old(macs[i])
    {
      GatewayTold(ips[..], drives[..], gateway, mounted, ever, gatewayIp, senderIp);
      hide Outside; hide Tells;
      announced := announced + {(senderIp, senderMac)};
      var i := SlotOf(senderIp);
      if i < SLOTS {
        macs[i] := senderMac;
        if i == gateway {
          UseGatewayMac(i, senderMac);
        }
      }
    }

    method SlotOf(ip: Ip) returns (i: nat)
      requires ips.Length == SLOTS
      ensures i <= SLOTS && (i < SLOTS ==> ips[i] == ip) && forall k | 0 <= k < i :: ips[k] != ip
    {
      i := 0;
      while i < SLOTS && ips[i] != ip
        invariant i <= SLOTS && forall k | 0 <= k < i :: ips[k] != ip
      {
        i := i + 1;
      }
    }

    /** All slots outside the network are reached through the gateway. */
    method UseGatewayMac(i: nat, mac: Mac)
      requires i < SLOTS == ips.Length == macs.Length
      modifies macs
      ensures forall k | 0 <= k < SLOTS :: macs[k] == if k != i && Outside(ips[k]) then mac else old(macs[k])
    {
      for j := 0 to SLOTS
        invariant forall k | 0 <= k < SLOTS ::
          macs[k] == if k != i && k < j && Outside(ips[k]) then mac else old(macs[k])
      {
        if j != i && Outside(ips[j]) {
          macs[j] := mac;
        }
      }
    }
  }

  /** A finding: drives that were never mounted count as users of slot 0, because their slot index starts as 0. Four
      servers are mounted as drives 0 to 3, drive 3 is unmounted again, and there is no slot for a fifth server. */
  lemma FreedSlotLost()
    ensures var t := MountAll(Indices(seq(SLOTS, _ => NO_IP), seq(DRIVES, _ => 0)), 0, [1, 2, 3, 4]);
      t.Some? && t.value.AfterUmount(3).AfterMount(NO_SLOT, 4, 5) == None
  {
    hide SlotFor;
    var t0 := Indices(seq(SLOTS, _ => NO_IP), seq(DRIVES, _ => 0));
    LastFreeFirst(t0.ips, t0.drives, 3, 1);
    var t1 := t0.AfterMount(NO_SLOT, 0, 1).value;
    LastFreeFirst(t1.ips, t1.drives, 2, 2);
    var t2 := t1.AfterMount(NO_SLOT, 1, 2).value;
    LastFreeFirst(t2.ips, t2.drives, 1, 3);
    var t3 := t2.AfterMount(NO_SLOT, 2, 3).value;
    LastFreeFirst(t3.ips, t3.drives, 0, 4);
    var t4 := t3.AfterMount(NO_SLOT, 3, 4).value;
    assert MountAll(t3, 3, [4]) == Some(t4);
    assert MountAll(t2, 2, [3, 4]) == Some(t4) by { assert [3, 4][1..] == [4]; }
    assert MountAll(t1, 1, [2, 3, 4]) == Some(t4) by { assert [2, 3, 4][1..] == [3, 4]; }
    assert MountAll(t0, 0, [1, 2, 3, 4]) == Some(t4) by { assert [1, 2, 3, 4][1..] == [2, 3, 4]; }
    var after := t4.AfterUmount(3);
    assert after.drives[0] == 3 && after.drives[1] == 2 && after.drives[2] == 1 && after.drives[25] == 0;
    NoneReusable(t4.ips, after.drives, 5);
  }

  /** Mounts servers as drives d, d + 1 and so on. */
  function MountAll(t: Indices, d: nat, servers: seq<Ip>): (t': Option<Indices>)
    requires t.Valid() && d + |servers| <= DRIVES
    ensures t'.Some? ==> t'.value.Valid()
    decreases |servers|
  {
    if servers == [] then Some(t)
    else
      match t.AfterMount(NO_SLOT, d, servers[0])
      case Some(next) => MountAll(next, d + 1, servers[1..])
      case None => None
  }

  /** Free slots are given out from the last to the first. */
  lemma LastFreeFirst(ips: seq<Ip>, drives: seq<byte>, n: nat, ip: Ip)
    requires |ips| == SLOTS && n < SLOTS && ips[n] == NO_IP && ip !in ips && forall j | n < j < SLOTS :: ips[j] != NO_IP
    ensures SlotFor(ips, drives, NO_SLOT, ip) == n
  {
    LastFreeIs(ips, n, SLOTS);
  }

  lemma {:induction false} LastFreeIs(ips: seq<Ip>, n: nat, m: nat)
    requires n < m <= |ips| == SLOTS && ips[n] == NO_IP && forall j | n < j < m :: ips[j] != NO_IP
    ensures LastFree(ips, m) == n
  {
    if m > n + 1 { LastFreeIs(ips, n, m - 1); }
  }

  lemma NoneReusable(ips: seq<Ip>, drives: seq<byte>, ip: Ip)
    requires |ips| == SLOTS && ip !in ips && NO_IP !in ips
    requires 0 in drives && 1 in drives && 2 in drives && 3 in drives
    ensures SlotFor(ips, drives, NO_SLOT, ip) == NO_SLOT
  {
    var k := FirstReusable(drives, NO_SLOT, 0);
    assert k == 0 || k == 1 || k == 2 || k == 3 || k == NO_SLOT;
  }
}
