/** The DHCP server's handler as it runs: two maps and mutable leases, updated
    in place. Every method is proved to compute the functions of LeaseTable. */
module Handler {
  import opened Bytes
  import opened Addresses
  import MacPrefixes
  import Spec = LeaseTable
  import Wire = WirePackets

  class Lease {
    var num: int
    var addr: Ip4
    var hwAddr: string
    var hostname: string
    var hostnameOverride: string
    var expiry: int

    constructor (num: int, addr: Ip4, hwAddr: string, hostname: string, expiry: int)
      ensures View() == Spec.Lease(num, addr, hwAddr, hostname, "", expiry)
    {
      this.num, this.addr, this.hwAddr := num, addr, hwAddr;
      this.hostname, this.hostnameOverride, this.expiry := hostname, "", expiry;
    }

    function View(): Spec.Lease
      reads this
    {
      Spec.Lease(num, addr, hwAddr, hostname, hostnameOverride, expiry)
    }

    predicate Expired(at: int)
      reads this
    {
      expiry != 0 && at > expiry
    }
  }

  function Views(leases: seq<Lease>): (views: seq<Spec.Lease>)
    reads leases
    ensures |views| == |leases| && forall i :: 0 <= i < |leases| ==> views[i] == leases[i].View()
  {
    if leases == [] then [] else Views(leases[..|leases| - 1]) + [leases[|leases| - 1].View()]
  }

  /** The leases behind a map of lease objects, as values. */
  ghost function IpOf(m: map<int, Lease>): map<int, Spec.Lease>
    reads m.Values
  {
    map n | n in m :: m[n].View()
  }

  lemma IpInsert(m: map<int, Lease>, n: int, l: Lease)
    ensures IpOf(m[n := l]) == IpOf(m)[n := l.View()]
    ensures m[n := l].Values <= m.Values + {l}
  {
  }

  lemma IpDelete(m: map<int, Lease>, n: int)
    ensures IpOf(m - {n}) == IpOf(m) - {n}
    ensures (m - {n}).Values <= m.Values
  {
  }

  /** Dropping slot k, if any, and filling another one. */
  lemma IpReplace(m: map<int, Lease>, k: Option<int>, n: int, l: Lease)
    ensures var kept, ip := if k.Some? then m - {k.value} else m, IpOf(m);
            && IpOf(kept[n := l]) == (if k.Some? then ip - {k.value} else ip)[n := l.View()]
            && kept[n := l].Values <= m.Values + {l}
  {
    hide IpOf;
    var kept := if k.Some? then m - {k.value} else m;
    if k.Some? { IpDelete(m, k.value); }
    IpInsert(kept, n, l);
  }

  /** Changing one object changes one entry. */
  lemma OneChanged(m: map<int, Lease>, before: map<int, Spec.Lease>, k: int)
    requires m.Keys == before.Keys && k in m
    requires forall n :: n in m && n != k ==> m[n].View() == before[n]
    ensures IpOf(m) == before[k := m[k].View()]
  {
    var ip, after := IpOf(m), before[k := m[k].View()];
    assert ip.Keys == m.Keys && after.Keys == m.Keys;
    assert forall n :: n in m ==> ip[n] == after[n];
  }

  /** The list holds, once each, the leases of the slots that are not left. */
  ghost predicate Listed(leases: seq<Spec.Lease>, ip: map<int, Spec.Lease>, left: set<int>) {
    && (forall i :: 0 <= i < |leases| ==>
          leases[i].num in ip && leases[i].num !in left && ip[leases[i].num] == leases[i])
    && (forall i, j :: 0 <= i < j < |leases| ==> leases[i].num != leases[j].num)
    && (forall n :: n in ip && n !in left ==> ip[n] in leases)
  }

  lemma ListedNone(ip: map<int, Spec.Lease>)
    ensures Listed([], ip, ip.Keys)
  {
  }

  lemma ListNext(leases: seq<Spec.Lease>, t: Spec.Table, left: set<int>, n: int)
    requires Spec.Inv(t) && Listed(leases, t.ip, left) && n in left && n in t.ip
    ensures Listed(leases + [t.ip[n]], t.ip, left - {n})
  {
    var longer := leases + [t.ip[n]];
    assert longer[|leases|] == t.ip[n] && t.ip[n].num == n;
    assert forall i :: 0 <= i < |leases| ==> longer[i] == leases[i];
    hide Spec.Inv;
  }

  lemma ListedAll(leases: seq<Spec.Lease>, t: Spec.Table)
    requires Listed(leases, t.ip, {})
    ensures Spec.Snapshot(leases, t)
  {
  }

  lemma Pick(s: set<int>)
    ensures s == {} || exists n :: n in s
  {
    if !exists n :: n in s {
      assert s == {};
    }
  }

  class Handler {
    const server: Ip4
    const start: Ip4
    const leasePeriod: int
    var leasesHW: map<string, int>
    var leasesIP: map<int, Lease>
    // the list last handed to the Leases callback, which persists it
    var published: seq<Spec.Lease>

    function Config(): (cfg: Spec.Config)
      ensures cfg.server == server && cfg.start == start
      ensures forall hwAddr :: cfg.period(hwAddr) == MacPrefixes.LeasePeriodOf(hwAddr, leasePeriod)
    {
      Spec.Config(server, start, (hwAddr: string) => MacPrefixes.LeasePeriodOf(hwAddr, leasePeriod))
    }

    /** The table the two maps and the lease objects stand for. */
    ghost function Table(): Spec.Table
      reads this, leasesIP.Values
    {
      Spec.Table(leasesHW, IpOf(leasesIP))
    }

    /** The index invariant; because slots carry their number, no object sits in two slots. */
    ghost predicate Valid()
      reads this, leasesIP.Values
    {
      start == Start(server) && Spec.Inv(Table())
    }

    constructor (server: Ip4, leasePeriod: int)
      ensures Valid() && Table() == Spec.EMPTY
      ensures this.server == server && this.leasePeriod == leasePeriod && published == []
    {
      this.server, this.leasePeriod := server, leasePeriod;
      start := Start(server);
      leasesHW, leasesIP, published := map[], map[], [];
    }

    method SetLeases(leases: seq<Lease>)
      requires start == Start(server)
      modifies this
      ensures Table() == Spec.Load(Views(leases)) && published == old(published)
      ensures Spec.Distinct(Views(leases)) ==> (Valid() <==> Spec.InRange(Views(leases)))
      ensures leasesIP.Values <= set l | l in leases
    {
      hide Spec.Load;
      hide Spec.Distinct;
      hide Spec.InRange;
      hide Spec.Inv;
      hide Views;
      Spec.LoadNothing();
      ghost var views := Views(leases);
      leasesHW, leasesIP := map[], map[];
      for i := 0 to |leases|
        invariant published == old(published) && views == Views(leases)
        invariant leasesIP.Values <= set l | l in leases
        invariant leasesHW == Spec.Load(views[..i]).hw && IpOf(leasesIP) == Spec.Load(views[..i]).ip
      {
        var l := leases[i];
        IpInsert(leasesIP, l.num, l);
        Spec.LoadNext(views, i);
        leasesHW := leasesHW[l.hwAddr := l.num];
        leasesIP := leasesIP[l.num := l];
      }
      assert views[..|leases|] == views;
      if Spec.Distinct(views) { Spec.LoadIsValid(views); }
    }

    /** Hands every lease, in whatever order the map yields them, to the callback. */
    method CallLeasesLocked()
      requires Valid()
      modifies this`published
      ensures Spec.Snapshot(published, Table())
    {
      hide Spec.Inv;
      hide Spec.Snapshot;
      hide Listed;
      ghost var t := Table();
      var leases: seq<Spec.Lease> := [];
      var left := leasesIP.Keys;
      assert t.ip.Keys == left;
      ListedNone(t.ip);
      while left != {}
        invariant left <= leasesIP.Keys && Listed(leases, t.ip, left)
        decreases left
        modifies {}
      {
        Pick(left);
        var n :| n in left;
        ListNext(leases, t, left, n);
        leases := leases + [leasesIP[n].View()];
        left := left - {n};
      }
      ListedAll(leases, t);
      published := leases;
    }

    lemma NoAliasing(k: int)
      requires Valid() && k in leasesIP
      ensures forall n :: n in leasesIP && n != k ==> leasesIP[n] != leasesIP[k]
    {
      var ip := IpOf(leasesIP);
      assert forall n :: n in ip ==> ip[n].num == n;
      assert forall n :: n in leasesIP ==> ip[n] == leasesIP[n].View();
    }

    method SetHostname(hwAddr: string, hostname: string, now: int) returns (reply: Spec.Reply)
      requires Valid()
      modifies this`published, leasesIP.Values
      ensures Valid() && leasesIP == old(leasesIP)
      ensures (Table(), reply) == Spec.Rename(old(Table()), hwAddr, hostname, now)
      ensures Spec.Publishes(reply, Table(), old(published), published)
    {
      hide Spec.Inv;
      hide Spec.Snapshot;
      Spec.RenameKeepsInv(Table(), hwAddr, hostname, now);
      var leaseNum := if hwAddr in leasesHW then leasesHW[hwAddr] else 0;
      if leaseNum !in leasesIP {
        return Spec.Crash;
      }
      var lease := leasesIP[leaseNum];
      if lease.hwAddr != hwAddr || lease.Expired(now) {
        return Spec.HostnameRefused;
      }
      NoAliasing(leaseNum);
      ghost var before := IpOf(leasesIP);
      lease.hostname := hostname;
      lease.hostnameOverride := hostname;
      OneChanged(leasesIP, before, leaseNum);
      CallLeasesLocked();
      return Spec.HostnameSet;
    }

    method FindLease(now: int, dice: Spec.Slot) returns (slot: int)
      requires Valid()
      ensures slot == Spec.FindLease(Table(), now, dice)
    {
      assert Table().ip.Keys == leasesIP.Keys;
      assert |Table().ip| == |Table().ip.Keys| && |leasesIP| == |leasesIP.Keys|;
      if |leasesIP| < LEASE_RANGE {
        if dice !in leasesIP || leasesIP[dice].Expired(now) {
          return dice;
        }
        for i := 0 to LEASE_RANGE
          invariant Spec.FirstFree(Table(), now, 0) == Spec.FirstFree(Table(), now, i)
        {
          if i !in leasesIP || leasesIP[i].Expired(now) {
            return i;
          }
        }
      }
      return -1;
    }

    method CanLease(reqIP: seq<byte>, hwAddr: string, now: int) returns (slot: int)
      requires Valid()
      ensures slot == Spec.CanLease(start, Table(), Wire.AsAddress(reqIP), hwAddr, now)
    {
      if |reqIP| != 4 || ToU32(reqIP) == 0 {
        return -1;
      }
      var leaseNum := IPRange(start, ToU32(reqIP)) - 1;
      if leaseNum < 0 || leaseNum >= LEASE_RANGE {
        return -1;
      }
      if leaseNum !in leasesIP {
        return leaseNum;
      }
      var l := leasesIP[leaseNum];
      if l.hwAddr == hwAddr {
        return leaseNum;
      }
      if l.Expired(now) {
        return leaseNum;
      }
      return -1;
    }

    method LeaseHW(hwAddr: string) returns (l: Lease?, ok: bool)
      requires Valid()
      ensures ok <==> Spec.LeaseHW(Table(), hwAddr).Some?
      ensures ok ==> l != null && l in leasesIP.Values && l.View() == Spec.LeaseHW(Table(), hwAddr).value
      ensures ok ==> l.num in leasesIP && leasesIP[l.num] == l
    {
      if hwAddr !in leasesHW {
        return null, false;
      }
      var num := leasesHW[hwAddr];
      if num !in leasesIP {
        return null, false;
      }
      assert Table().ip[num].num == num;
      return leasesIP[num], leasesIP[num].hwAddr == hwAddr;
    }

    method ExpireLease(hwAddr: string, wallClock: int) returns (expired: bool)
      requires Valid()
      modifies leasesIP.Values
      ensures Valid() && Table() == Spec.ExpireLease(old(Table()), hwAddr, wallClock)
      ensures expired <==> Spec.LeaseHW(old(Table()), hwAddr).Some?
    {
      Spec.ExpireKeepsInv(Table(), hwAddr, wallClock);
      if hwAddr !in leasesHW {
        return false;
      }
      var num := leasesHW[hwAddr];
      if num !in leasesIP {
        return false;
      }
      var l := leasesIP[num];
      if l.hwAddr != hwAddr {
        return false;
      }
      NoAliasing(num);
      ghost var before := IpOf(leasesIP);
      l.expiry := wallClock;
      OneChanged(leasesIP, before, num);
      return true;
    }

    /** The lease for an accepted request, filled in from the client's previous one. */
    method MakeLease(p: Wire.Packet, num: int, addr: Ip4, now: int, previous: Lease?) returns (lease: Lease)
      requires Valid()
      requires previous == null <==> Spec.LeaseHW(Table(), p.Client()).None?
      requires previous != null ==> previous.View() == Spec.LeaseHW(Table(), p.Client()).value
      ensures fresh(lease) && lease.View() == Spec.NewLease(Config(), Table(), p.Parse(), num, addr, now)
    {
      hide Spec.Inv;
      hide Spec.LeaseHW;
      hide MacPrefixes.LeasePeriodOf;
      hide MacPrefixes.FormatMac;
      hide IpOf;
      var period := MacPrefixes.LeasePeriodForDevice(p.Client(), leasePeriod);
      lease := new Lease(num, addr, p.Client(), p.hostname, now + period);
      if previous != null {
        if previous.expiry == 0 {
          lease.expiry := 0;
          lease.hostname := previous.hostname;
        }
        if previous.hostnameOverride != "" {
          lease.hostname := previous.hostnameOverride;
          lease.hostnameOverride := previous.hostnameOverride;
        }
        assert lease.View() ==
               Spec.Carried(Spec.Lease(num, addr, p.Client(), p.hostname, "", now + period), previous.View());
      }
    }

    /** Puts an accepted request into the table, releasing the client's old slot l if it has one. */
    method PutLease(num: int, lease: Lease, l: Lease?)
      requires Valid() && 0 <= num < LEASE_RANGE && lease.num == num
      requires l == null <==> Spec.LeaseHW(Table(), lease.hwAddr).None?
      requires l != null ==> l.View() == Spec.LeaseHW(Table(), lease.hwAddr).value
      modifies this`leasesIP, this`leasesHW
      ensures Valid() && leasesIP.Values <= old(leasesIP.Values) + {lease}
      ensures Table() == Spec.Put(old(Table()), lease.hwAddr, num, lease.View())
    {
      hide Spec.Inv;
      hide Spec.LeaseHW;
      Spec.PutKeepsInv(Table(), lease.hwAddr, num, lease.View());
      hide IpOf;
      IpReplace(leasesIP, if l != null then Some(l.num) else None, num, lease);
      if l != null {
        leasesIP := leasesIP - {l.num};
      }
      leasesIP := leasesIP[num := lease];
      leasesHW := leasesHW[lease.hwAddr := num];
    }

    /** Request: the part of serveDHCP that changes the table. */
    method HandleRequest(p: Wire.Packet, t0: int, t1: int) returns (reply: Spec.Reply)
      requires Valid()
      modifies this
      ensures Valid() && fresh(leasesIP.Values - old(leasesIP.Values))
      ensures (Table(), reply) == Spec.HandleRequest(Config(), old(Table()), p.Parse(), t0, t1)
      ensures Spec.Publishes(reply, Table(), old(published), published)
    {
      hide Spec.Inv;
      hide Spec.LeaseHW;
      hide Spec.CanLease;
      hide Spec.NewLease;
      Spec.GrantFits(Config(), Table(), p.Parse(), Spec.CanLease(start, Table(), p.Parse().asked, p.Client(), t0),
                     if p.Parse().asked.Some? then p.Parse().asked.value else 0, t1, t0);
      hide Spec.Put;
      hide Spec.Snapshot;
      hide MacPrefixes.LeasePeriodOf;
      hide MacPrefixes.FormatMac;
      hide IpOf;
      hide ToU32;
      if !p.ForServer(server) {
        return Spec.Silent;
      }
      var leaseNum := CanLease(p.RequestedIP(), p.Client(), t0);
      if leaseNum == -1 {
        return Spec.Nak;
      }
      var l, ok := LeaseHW(p.Client());
      var previous := if ok then l else null;
      var lease := MakeLease(p, leaseNum, ToU32(p.RequestedIP()), t1, previous);
      PutLease(leaseNum, lease, previous);
      CallLeasesLocked();
      var period := MacPrefixes.LeasePeriodForDevice(p.Client(), leasePeriod);
      return Spec.Ack(ToU32(p.RequestedIP()), period);
    }

    /** Discover: the slot to offer, or -1. */
    method SlotToOffer(p: Wire.Packet, dice: Spec.Slot, t0: int, t1: int, t2: int) returns (free: int)
      requires Valid()
      ensures free == Spec.OfferedSlot(Config(), Table(), p.Parse(), dice, t0, t1, t2)
    {
      hide Spec.Inv;
      hide Spec.LeaseHW;
      hide Spec.FindLease;
      hide MacPrefixes.LeasePeriodOf;
      hide MacPrefixes.FormatMac;
      free := -1;
      if To4(p.RequestedIP()) != Some(0) {
        free := CanLease(p.RequestedIP(), p.Client(), t0);
      } else {
        Wire.ZeroIsNoWish(start, Table(), p, t0);
      }
      assert free == Spec.CanLease(start, Table(), p.Parse().asked, p.Client(), t0);
      var lease, ok := LeaseHW(p.Client());
      if ok && !lease.Expired(t1) {
        return lease.num;
      }
      if free == -1 {
        free := FindLease(t2, dice);
      }
    }

    method HandleDiscover(p: Wire.Packet, dice: Spec.Slot, t0: int, t1: int, t2: int) returns (reply: Spec.Reply)
      requires Valid()
      ensures reply == Spec.Step(Config(), Table(), Spec.Event(Spec.Discover(p.Parse(), dice), t0, t1, t2)).1
      ensures !Spec.Publishing(reply)
    {
      var free := SlotToOffer(p, dice, t0, t1, t2);
      Spec.OfferedSlotInRange(Config(), Table(), p.Parse(), dice, t0, t1, t2);
      if free == -1 {
        return Spec.Silent;
      }
      var period := MacPrefixes.LeasePeriodForDevice(p.Client(), leasePeriod);
      return Spec.Offer(IPAdd(start, free), period);
    }

    /** serveDHCP and SetHostname: one call takes the table one step. */
    method Serve(msg: Wire.Message, t0: int, t1: int, t2: int) returns (reply: Spec.Reply)
      requires Valid()
      modifies this, leasesIP.Values
      ensures Valid() && fresh(leasesIP.Values - old(leasesIP.Values))
      ensures (Table(), reply) == Spec.Step(Config(), old(Table()), Spec.Event(msg.Parse(), t0, t1, t2))
      ensures Spec.Publishes(reply, Table(), old(published), published)
    {
      hide Spec.Inv;
      hide Spec.Snapshot;
      hide Spec.OfferedSlot;
      hide Spec.HandleRequest;
      hide Spec.ExpireLease;
      hide Spec.Rename;
      hide IpOf;
      match msg
      case Discover(p, dice) =>
        reply := HandleDiscover(p, dice, t0, t1, t2);
      case Request(p) =>
        reply := HandleRequest(p, t0, t1);
      case Decline(p, wallClock) =>
        var _ := ExpireLease(p.Client(), wallClock);
        reply := Spec.Silent;
      case SetHostname(hwAddr, name) =>
        reply := SetHostname(hwAddr, name, t0);
      case Unsupported =>
        reply := Spec.Silent;
    }
  }
}
