/** What each call of the DHCP server answers and does to the leases, field by
    field, in terms of the table it finds. */
module LeaseCalls {
  import opened Bytes
  import opened Addresses
  import opened LeaseTable
  import opened LeaseRuns

  /** The slot has no entry, the client's own, or one that has run out. */
  ghost predicate Obtainable(t: Table, n: int, client: string, now: int) {
    n in t.ip ==> t.ip[n].hwAddr == client || (t.ip[n].expiry != 0 && t.ip[n].expiry < now)
  }

  /** The client may have the address it asks for. */
  ghost predicate Grantable(cfg: Config, t: Table, p: Packet, now: int) {
    && p.asked.Some? && p.asked.value != 0
    && 0 <= p.asked.value - cfg.start < 230
    && Obtainable(t, p.asked.value - cfg.start, p.hwAddr, now)
  }

  /** The packet names another server. */
  ghost predicate Foreign(cfg: Config, p: Packet) {
    p.serverId.Some? && p.serverId.value != Some(cfg.server)
  }

  /** The client's new lease: the override of its previous lease is kept and is
      the hostname; otherwise a permanent lease keeps its hostname; otherwise the
      packet names it. A permanent lease stays permanent. */
  ghost predicate IsNewLease(cfg: Config, p: Packet, prior: Option<Lease>, l: Lease, n: int, now: int) {
    && l.num == n && Some(l.addr) == p.asked && l.hwAddr == p.hwAddr
    && l.hostname == (if prior.Some? && prior.value.hostnameOverride != "" then prior.value.hostnameOverride
                      else if prior.Some? && prior.value.expiry == 0 then prior.value.hostname
                      else p.hostname)
    && l.hostnameOverride == (if prior.Some? then prior.value.hostnameOverride else "")
    && l.expiry == (if prior.Some? && prior.value.expiry == 0 then 0 else now + cfg.period(p.hwAddr))
  }

  /** A request for another server is passed over. Any other is acknowledged
      exactly when the client may have the address: then its one lease is the new
      one, and the leases of the others stay, except the one that had the slot. */
  lemma RequestExactly(cfg: Config, t: Table, e: Event)
    requires Inv(t) && e.msg.Request?
    ensures var ((t', r), p) := (Step(cfg, t, e), e.msg.p);
            if Foreign(cfg, p) then t' == t && r == Silent
            else if !Grantable(cfg, t, p, e.t0) then t' == t && r == Nak
            else
              var n := p.asked.value - cfg.start;
              && r == Ack(p.asked.value, cfg.period(p.hwAddr))
              && n in t'.ip && IsNewLease(cfg, p, LeaseHW(t, p.hwAddr), t'.ip[n], n, e.t1)
              && LeaseHW(t', p.hwAddr) == Some(t'.ip[n])
              && (forall m :: m in t'.ip && m != n <==> m in t.ip && m != n && t.ip[m].hwAddr != p.hwAddr)
              && (forall m :: m in t'.ip && m != n ==> t'.ip[m] == t.ip[m])
  {
    var p := e.msg.p;
    LeaseHWIsTheSlot(t, p.hwAddr);
    StepKeepsInv(cfg, t, e);
    LeaseHWIsTheSlot(Step(cfg, t, e).0, p.hwAddr);
    if !Foreign(cfg, p) {
      GrantableExactly(cfg, t, p, e.t0);
      if Grantable(cfg, t, p, e.t0) {
        NewLeaseExactly(cfg, t, p, p.asked.value - cfg.start, p.asked.value, e.t1);
        hide NewLease;
      }
      hide CanLease;
    }
  }

  lemma GrantableExactly(cfg: Config, t: Table, p: Packet, now: int)
    ensures CanLease(cfg.start, t, p.asked, p.hwAddr, now) ==
            if Grantable(cfg, t, p, now) then p.asked.value - cfg.start else -1
  {
  }

  lemma NewLeaseExactly(cfg: Config, t: Table, p: Packet, n: int, addr: Ip4, now: int)
    requires p.asked == Some(addr)
    ensures IsNewLease(cfg, p, LeaseHW(t, p.hwAddr), NewLease(cfg, t, p, n, addr, now), n, now)
  {
    hide LeaseHW;
  }

  /** The first slot from the front that has no entry or one that has run out. */
  ghost predicate IsFirstFree(t: Table, n: int, now: int) {
    && 0 <= n < 230 && Vacant(t, n, now)
    && forall m :: 0 <= m < n ==> !Vacant(t, m, now)
  }

  ghost predicate Vacant(t: Table, n: int, now: int) {
    n in t.ip ==> t.ip[n].expiry != 0 && t.ip[n].expiry < now
  }

  /** A Discover changes nothing. It is offered the client's own lease while
      that has not run out, whatever it asks for; else what it asks for, if the
      client may have it; else, unless every slot has an entry, the random slot if
      that is vacant and otherwise the first vacant one; else nothing. */
  lemma DiscoverExactly(cfg: Config, t: Table, e: Event)
    requires Inv(t) && e.msg.Discover?
    ensures var ((t', r), p) := (Step(cfg, t, e), e.msg.p);
            var own := LeaseHW(t, p.hwAddr);
            && t' == t
            && (if own.Some? && (own.value.expiry == 0 || e.t1 <= own.value.expiry)
                then IsOffer(cfg, p, r, own.value.num)
                else if Grantable(cfg, t, p, e.t0)
                then r == Offer(p.asked.value, cfg.period(p.hwAddr))
                else if forall n :: 0 <= n < 230 ==> n in t.ip then r == Silent
                else if Vacant(t, e.msg.dice, e.t2) then IsOffer(cfg, p, r, e.msg.dice)
                else exists n: nat :: IsFirstFree(t, n, e.t2) && IsOffer(cfg, p, r, n))
  {
    var p := e.msg.p;
    LeaseHWIsTheSlot(t, p.hwAddr);
    GrantableExactly(cfg, t, p, e.t0);
    hide CanLease;
    if Grantable(cfg, t, p, e.t0) { AddressOfSlot(cfg.start, p.asked.value); }
    FreeSlotExactly(t, e.t2, e.msg.dice);
    hide FindLease;
    OffersPlainly(cfg.start);
    hide AddressOf;
  }

  ghost predicate IsOffer(cfg: Config, p: Packet, r: Reply, n: int) {
    && r.Offer? && r.period == cfg.period(p.hwAddr)
    && r.addr == if cfg.start + n < 0x1_0000_0000 then cfg.start + n else cfg.start + n - 0x1_0000_0000
  }

  lemma OffersPlainly(start: Ip4)
    ensures forall n: nat :: n < 230 ==>
              AddressOf(start, n) == if start + n < 0x1_0000_0000 then start + n else start + n - 0x1_0000_0000
  {
    forall n: nat | n < 230
      ensures AddressOf(start, n) == if start + n < 0x1_0000_0000 then start + n else start + n - 0x1_0000_0000
    {
      WrapOnce(start, n);
    }
  }

  lemma FreeSlotExactly(t: Table, now: int, dice: Slot)
    requires Inv(t)
    ensures var n := FindLease(t, now, dice);
            if forall m :: 0 <= m < 230 ==> m in t.ip then n == -1
            else if Vacant(t, dice, now) then n == dice
            else IsFirstFree(t, n, now)
  {
    FindLeaseExact(t, now, dice);
    FullByCount(t);
    FirstFreeFinds(t, now, 0);
    hide Inv;
    hide FirstFree;
    assert forall m :: 0 <= m < 230 ==> (Free(t, m, now) <==> Vacant(t, m, now));
  }

  /** A Decline is not answered; it lets the client's lease end at the wall
      clock's time and changes nothing else. Messages of other types do nothing. */
  lemma DeclineExactly(cfg: Config, t: Table, e: Event)
    requires Inv(t) && (e.msg.Decline? || e.msg.Unsupported?)
    ensures var (t', r) := Step(cfg, t, e);
            && r == Silent && t'.hw == t.hw && t'.ip.Keys == t.ip.Keys
            && forall n :: n in t.ip ==>
                             t'.ip[n] == if e.msg.Decline? && t.ip[n].hwAddr == e.msg.p.hwAddr
                                         then t.ip[n].(expiry := e.msg.wallClock) else t.ip[n]
  {
    if e.msg.Decline? { LeaseHWIsTheSlot(t, e.msg.p.hwAddr); }
  }

  // ------------------------------------------------------------------- over runs

  /** The client declines or has its hostname set. */
  predicate Interferes(c: Call, client: string) {
    c.Client() == client && (c.e.msg.Decline? || c.e.msg.SetHostname?)
  }

  /** What a permanent lease is called once its client was acknowledged again. */
  function KeptName(l: Lease): string {
    if l.hostnameOverride != "" then l.hostnameOverride else l.hostname
  }

  lemma PermanentCall(cfg: Config, c: Call, client: string)
    requires Inv(c.before) && IsCall(cfg, c) && Permanent(c.before, client) && !Interferes(c, client)
    ensures var (l, l') := (LeaseHW(c.before, client).value, LeaseHW(c.after, client));
            && l'.Some? && l'.value.expiry == 0 && l'.value.hostnameOverride == l.hostnameOverride
            && l'.value.hostname == if AckTo(c, client) then KeptName(l) else l.hostname
  {
    if c.Client() != client {
      PermanentIsNotTaken(cfg, c, client);
      OthersCall(cfg, c, client);
    } else {
      hide KeptName;
      match c.e.msg
      case Request(p) =>
        RequestExactly(cfg, c.before, c.e);
        hide Step;
      case _ =>
    }
  }

  /** A permanent lease keeps its hostname over every run in which its client
      neither declines nor has its hostname set, whatever hostnames its requests
      carry: only an override that differs from it takes over, with the first ACK. */
  lemma {:induction false} PermanentKeepsName(cfg: Config, t: Table, run: seq<Call>, client: string, j: nat)
    requires Inv(t) && IsRun(cfg, t, run) && j < |run| && Permanent(t, client)
    requires forall k :: 0 <= k <= j ==> !Interferes(run[k], client)
    ensures var (l, l') := (LeaseHW(t, client).value, LeaseHW(run[j].after, client));
            && l'.Some? && l'.value.expiry == 0 && l'.value.hostnameOverride == l.hostnameOverride
            && l'.value.hostname ==
               if exists k :: 0 <= k <= j && AckTo(run[k], client) then KeptName(l) else l.hostname
  {
    hide Step;
    hide IsRun;
    hide LeaseHW;
    hide Interferes;
    RunKeepsInv(cfg, t, run, j);
    if j > 0 {
      PermanentKeepsName(cfg, t, run, client, j - 1);
    }
    var was := LeaseHW(run[j].before, client);
    assert was.Some? && was.value.expiry == 0;
    PermanentCall(cfg, run[j], client);
  }
}
