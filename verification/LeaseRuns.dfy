/** Properties of whole runs of the DHCP server: any sequence of calls, from any
    valid table, with a clock that does not go back. */
module LeaseRuns {
  import opened Bytes
  import opened Addresses
  import opened LeaseTable

  /** One call of the server, with the table before and after it. */
  datatype Call = Call(before: Table, e: Event, reply: Reply, after: Table)
  {
    function Client(): string {
      ClientOf(e.msg)
    }
  }

  predicate IsCall(cfg: Config, c: Call) {
    (c.after, c.reply) == Step(cfg, c.before, c.e)
  }

  /** The calls of a server that starts from table t, one after the other. */
  predicate IsRun(cfg: Config, t: Table, run: seq<Call>) {
    run == [] ||
    (var n := |run| - 1;
     IsRun(cfg, t, run[..n]) && IsCall(cfg, run[n]) && run[n].before == After(t, run[..n]))
  }

  /** The table after a run from t. */
  function After(t: Table, run: seq<Call>): Table {
    if run == [] then t else run[|run| - 1].after
  }

  /** The clock does not go back, neither within a call nor between calls. */
  ghost predicate Clocked(run: seq<Call>) {
    && (forall k :: 0 <= k < |run| ==> run[k].e.t0 <= run[k].e.t1 <= run[k].e.t2)
    && (forall j, k :: 0 <= j < k < |run| ==> run[j].e.t2 <= run[k].e.t0)
  }

  /** The index invariant holds before and after every call. */
  lemma {:induction false} RunKeepsInv(cfg: Config, t: Table, run: seq<Call>, k: nat)
    requires Inv(t) && IsRun(cfg, t, run) && k < |run|
    ensures IsCall(cfg, run[k]) && Inv(run[k].before) && Inv(run[k].after)
    ensures run[k].before == if k == 0 then t else run[k - 1].after
  {
    hide IsCall;
    var n := |run| - 1;
    if k < n {
      RunKeepsInv(cfg, t, run[..n], k);
    } else {
      if n > 0 { RunKeepsInv(cfg, t, run[..n], n - 1); }
      CallKeepsInv(cfg, run[n]);
    }
  }

  lemma CallKeepsInv(cfg: Config, c: Call)
    requires Inv(c.before) && IsCall(cfg, c)
    ensures Inv(c.after)
  {
    StepKeepsInv(cfg, c.before, c.e);
    hide Step;
  }

  predicate Grants(r: Reply, x: Ip4) {
    (r.Ack? || r.Offer?) && r.addr == x
  }

  // ------------------------------------------------------------ exclusivity

  /** Slot n is client's until the given time at least. */
  predicate Held(t: Table, n: int, client: string, until: int) {
    n in t.ip && t.ip[n].hwAddr == client && (t.ip[n].expiry == 0 || t.ip[n].expiry >= until)
  }

  /** The client declines, or is given an address other than x. */
  predicate GivesUp(r: Reply, e: Event, client: string, x: Ip4) {
    ClientOf(e.msg) == client && (e.msg.Decline? || (r.Ack? && r.addr != x))
  }

  /** An acknowledged address is a pool address, and its slot is the client's for the stated period. */
  lemma AckHolds(cfg: Config, t: Table, e: Event)
    requires Inv(t) && Step(cfg, t, e).1.Ack?
    ensures var (t', r) := Step(cfg, t, e);
            var n := SlotOf(cfg.start, r.addr);
            && e.msg.Request?
            && 0 <= n < LEASE_RANGE
            && r.period == cfg.period(ClientOf(e.msg))
            && Held(t', n, ClientOf(e.msg), e.t1 + r.period)
            && t'.ip[n].addr == r.addr
            && CanLease(cfg.start, t, Some(r.addr), ClientOf(e.msg), e.t0) == n
  {
    LeaseHWIsTheSlot(t, ClientOf(e.msg));
  }

  /** A call leaves the entries of other clients alone, except one whose slot it is ACKed. */
  lemma OthersUntouched(cfg: Config, t: Table, e: Event, n: int)
    requires Inv(t) && n in t.ip && t.ip[n].hwAddr != ClientOf(e.msg)
    requires Step(cfg, t, e).1.Ack? ==> SlotOf(cfg.start, Step(cfg, t, e).1.addr) != n
    ensures var t' := Step(cfg, t, e).0; n in t'.ip && t'.ip[n] == t.ip[n]
  {
    LeaseHWIsTheSlot(t, ClientOf(e.msg));
    match e.msg
    case Request(p) =>
      if Step(cfg, t, e).1.Ack? { AckHolds(cfg, t, e); }
    case SetHostname(hwAddr, name) =>
      RenameExact(t, hwAddr, name, e.t0);
    case _ =>
  }

  /** While a slot is held no other client is ACKed it. */
  lemma OthersAreRefused(cfg: Config, t: Table, e: Event, n: int, client: string, until: int)
    requires Inv(t) && Held(t, n, client, until) && ClientOf(e.msg) != client
    requires Step(cfg, t, e).1.Ack? && SlotOf(cfg.start, Step(cfg, t, e).1.addr) == n
    ensures e.t0 > until
  {
    AckHolds(cfg, t, e);
  }

  /** While a slot is held no other client is offered it. */
  lemma OthersAreNotOffered(cfg: Config, t: Table, e: Event, n: nat, client: string, until: int)
    requires Inv(t) && Held(t, n, client, until) && ClientOf(e.msg) != client && n < LEASE_RANGE
    requires Step(cfg, t, e).1.Offer? && Step(cfg, t, e).1.addr == AddressOf(cfg.start, n) && e.t0 <= e.t1 <= e.t2
    ensures e.t2 > until
  {
    hide Step;
    hide AddressOf;
    OfferIsAvailable(cfg, t, e);
    var m: nat :| m < LEASE_RANGE && Step(cfg, t, e).1.addr == AddressOf(cfg.start, m) &&
                  Available(t, m, ClientOf(e.msg), e.t2);
    AddressOfIsInjective(cfg.start, m, n);
  }

  /** The holder's own calls keep its slot, and renewals extend it. */
  lemma OwnerKeeps(cfg: Config, t: Table, e: Event, n: int, client: string, since: int)
    requires Inv(t) && Held(t, n, client, since + cfg.period(client)) && ClientOf(e.msg) == client
    requires !e.msg.Decline? && (Step(cfg, t, e).1.Ack? ==> SlotOf(cfg.start, Step(cfg, t, e).1.addr) == n)
    requires since <= e.t1
    ensures Held(Step(cfg, t, e).0, n, client, since + cfg.period(client))
  {
    LeaseHWIsTheSlot(t, client);
    match e.msg
    case Request(p) =>
      if Step(cfg, t, e).1.Ack? { AckHolds(cfg, t, e); }
    case SetHostname(hwAddr, name) =>
      RenameExact(t, hwAddr, name, e.t0);
    case _ =>
  }

  lemma StepKeepsHeld(cfg: Config, t: Table, e: Event, x: Ip4, client: string, since: int)
    requires Inv(t) && since <= e.t0 <= e.t1 && e.t0 <= since + cfg.period(client)
    requires Held(t, SlotOf(cfg.start, x), client, since + cfg.period(client))
    requires !GivesUp(Step(cfg, t, e).1, e, client, x)
    ensures Held(Step(cfg, t, e).0, SlotOf(cfg.start, x), client, since + cfg.period(client))
  {
    hide Step;
    var n, until := SlotOf(cfg.start, x), since + cfg.period(client);
    if ClientOf(e.msg) == client {
      OwnerKeeps(cfg, t, e, n, client, since);
    } else if Step(cfg, t, e).1.Ack? && SlotOf(cfg.start, Step(cfg, t, e).1.addr) == n {
      OthersAreRefused(cfg, t, e, n, client, until);
    } else {
      OthersUntouched(cfg, t, e, n);
    }
  }

  /** From an ACK of x to a client, until the period runs out or the client gives up: x stays its own. */
  lemma {:induction false} AckedStaysHeld(cfg: Config, t: Table, run: seq<Call>, i: nat, j: nat, x: Ip4, client: string)
    requires Inv(t) && IsRun(cfg, t, run) && Clocked(run) && i <= j < |run|
    requires run[i].reply == Ack(x, cfg.period(client)) && run[i].Client() == client
    requires forall k :: i < k <= j ==> !GivesUp(run[k].reply, run[k].e, client, x)
    requires forall k :: i < k <= j ==> run[k].e.t0 <= run[i].e.t1 + cfg.period(client)
    ensures Held(run[j].after, SlotOf(cfg.start, x), client, run[i].e.t1 + cfg.period(client))
    decreases j
  {
    hide Step;
    hide IsRun;
    RunKeepsInv(cfg, t, run, j);
    if j == i {
      AckHolds(cfg, run[i].before, run[i].e);
    } else {
      AckedStaysHeld(cfg, t, run, i, j - 1, x, client);
      assert run[i].e.t2 <= run[j].e.t0;
      StepKeepsHeld(cfg, run[j].before, run[j].e, x, client, run[i].e.t1);
    }
  }

  lemma AckPeriod(cfg: Config, t: Table, run: seq<Call>, i: nat)
    requires Inv(t) && IsRun(cfg, t, run) && i < |run| && run[i].reply.Ack?
    ensures run[i].reply.period == cfg.period(run[i].Client())
    ensures 0 <= SlotOf(cfg.start, run[i].reply.addr) < LEASE_RANGE
  {
    hide Step;
    RunKeepsInv(cfg, t, run, i);
    AckHolds(cfg, run[i].before, run[i].e);
  }

  /** Before call j, an address ACKed in call i and not given up since is still held. */
  lemma HeldBefore(cfg: Config, t: Table, run: seq<Call>, i: nat, j: nat)
    requires Inv(t) && IsRun(cfg, t, run) && Clocked(run) && i < j < |run| && run[i].reply.Ack?
    requires forall k :: i < k < j ==> !GivesUp(run[k].reply, run[k].e, run[i].Client(), run[i].reply.addr)
    requires run[j].e.t0 <= run[i].e.t1 + run[i].reply.period
    ensures Inv(run[j].before) && IsCall(cfg, run[j])
    ensures Held(run[j].before, SlotOf(cfg.start, run[i].reply.addr), run[i].Client(),
                 run[i].e.t1 + run[i].reply.period)
  {
    hide Step;
    hide IsRun;
    AckPeriod(cfg, t, run, i);
    RunKeepsInv(cfg, t, run, j);
    forall k | i < k < j
      ensures run[k].e.t0 <= run[i].e.t1 + run[i].reply.period
    {
      assert run[k].e.t0 <= run[k].e.t2 <= run[j].e.t0;
    }
    AckedStaysHeld(cfg, t, run, i, j - 1, run[i].reply.addr, run[i].Client());
  }

  /** Exclusivity: once a client is ACKed address x at time t1 for a period, no
      other client is ACKed or offered x up to t1 + period, unless the client
      declined or was ACKed a different address in between. */
  lemma LeaseIsExclusive(cfg: Config, t: Table, run: seq<Call>, i: nat, j: nat)
    requires Inv(t) && IsRun(cfg, t, run) && Clocked(run) && i < j < |run| && run[i].reply.Ack?
    requires forall k :: i < k < j ==> !GivesUp(run[k].reply, run[k].e, run[i].Client(), run[i].reply.addr)
    requires run[j].Client() != run[i].Client() && Grants(run[j].reply, run[i].reply.addr)
    ensures var until := run[i].e.t1 + run[i].reply.period;
            if run[j].reply.Ack? then run[j].e.t0 > until else run[j].e.t2 > until
  {
    hide Step;
    hide IsRun;
    var x, client := run[i].reply.addr, run[i].Client();
    var n, until := SlotOf(cfg.start, x), run[i].e.t1 + run[i].reply.period;
    if run[j].e.t0 <= until {
      HeldBefore(cfg, t, run, i, j);
      AckPeriod(cfg, t, run, i);
      AddressOfSlot(cfg.start, x);
      if run[j].reply.Ack? {
        OthersAreRefused(cfg, run[j].before, run[j].e, n, client, until);
      } else {
        OthersAreNotOffered(cfg, run[j].before, run[j].e, n, client, until);
      }
    }
  }

  /** Over the same stretch the client can renew: asking this server for x again is answered with the same ACK. */
  lemma RenewalIsGranted(cfg: Config, t: Table, run: seq<Call>, i: nat, j: nat)
    requires Inv(t) && IsRun(cfg, t, run) && Clocked(run) && i < j < |run| && run[i].reply.Ack?
    requires forall k :: i < k < j ==> !GivesUp(run[k].reply, run[k].e, run[i].Client(), run[i].reply.addr)
    requires run[j].e.msg.Request? && run[j].Client() == run[i].Client()
    requires run[j].e.msg.p.ForServer(cfg.server) && run[j].e.msg.p.asked == Some(run[i].reply.addr)
    requires run[j].e.t0 <= run[i].e.t1 + run[i].reply.period
    ensures run[j].reply == run[i].reply
  {
    hide Step;
    hide IsRun;
    AckPeriod(cfg, t, run, i);
    RunKeepsInv(cfg, t, run, i);
    AckHolds(cfg, run[i].before, run[i].e);
    HeldBefore(cfg, t, run, i, j);
    RequestIsDecided(cfg, run[j].before, run[j].e, run[i].reply.addr);
  }

  lemma AckExpiry(cfg: Config, t: Table, e: Event)
    requires Inv(t) && Step(cfg, t, e).1.Ack?
    ensures var (t', r) := Step(cfg, t, e);
            var n := SlotOf(cfg.start, r.addr);
            n in t'.ip && t'.ip[n].expiry in {0, e.t1 + r.period} && LeaseHW(t', ClientOf(e.msg)) == Some(t'.ip[n])
  {
    StepKeepsInv(cfg, t, e);
    AckHolds(cfg, t, e);
    LeaseHWIsTheSlot(Step(cfg, t, e).0, ClientOf(e.msg));
  }

  /** Exclusivity ends with the period: right after it another client's request
      for the address is granted, unless the lease is a permanent one. */
  lemma ExclusivityIsTight(cfg: Config, t: Table, run: seq<Call>, i: nat)
    requires Inv(t) && IsRun(cfg, t, run) && i + 1 < |run| && run[i].reply.Ack?
    requires run[i + 1].e.msg.Request? && run[i + 1].Client() != run[i].Client()
    requires run[i + 1].e.msg.p.ForServer(cfg.server) && run[i + 1].e.msg.p.asked == Some(run[i].reply.addr)
    requires run[i + 1].e.t0 > run[i].e.t1 + run[i].reply.period
    ensures run[i + 1].reply ==
            if Permanent(run[i].after, run[i].Client()) then Nak
            else Ack(run[i].reply.addr, cfg.period(run[i + 1].Client()))
  {
    hide Step;
    hide IsRun;
    RunKeepsInv(cfg, t, run, i);
    RunKeepsInv(cfg, t, run, i + 1);
    AckHolds(cfg, run[i].before, run[i].e);
    AckExpiry(cfg, run[i].before, run[i].e);
    AckIsNotZero(cfg, run[i].before, run[i].e);
    RequestIsDecided(cfg, run[i + 1].before, run[i + 1].e, run[i].reply.addr);
  }

  lemma AckIsNotZero(cfg: Config, t: Table, e: Event)
    requires Step(cfg, t, e).1.Ack?
    ensures Step(cfg, t, e).1.addr != 0
  {
  }

  // ------------------------------------------------------------------ offers

  /** Slot n may be given to the client. */
  predicate Available(t: Table, n: int, client: string, now: int) {
    n !in t.ip || t.ip[n].hwAddr == client || t.ip[n].Expired(now)
  }

  /** Another client is ACKed x, or declines while it holds the slot of x. */
  predicate Disturbs(start: Ip4, c: Call, client: string, x: Ip4) {
    && c.Client() != client
    && (|| (c.reply.Ack? && c.reply.addr == x)
        || (c.e.msg.Decline? && LeaseHW(c.before, c.Client()).Some?
            && LeaseHW(c.before, c.Client()).value.num == SlotOf(start, x)))
  }

  lemma OfferIsAvailable(cfg: Config, t: Table, e: Event)
    requires Inv(t) && Step(cfg, t, e).1.Offer? && e.t0 <= e.t1 <= e.t2
    ensures e.msg.Discover? && Step(cfg, t, e).1.period == cfg.period(ClientOf(e.msg))
    ensures exists n: nat :: n < LEASE_RANGE && Step(cfg, t, e).1.addr == AddressOf(cfg.start, n) &&
                             Available(t, n, ClientOf(e.msg), e.t2)
  {
    var p := e.msg.p;
    LeaseHWIsTheSlot(t, p.hwAddr);
    FindLeaseExact(t, e.t2, e.msg.dice);
    var n := OfferedSlot(cfg, t, p, e.msg.dice, e.t0, e.t1, e.t2);
    assert 0 <= n < LEASE_RANGE && Available(t, n, p.hwAddr, e.t2);
  }

  lemma StaysAvailable(cfg: Config, c: Call, x: Ip4, client: string, now: int)
    requires Inv(c.before) && IsCall(cfg, c)
    requires Available(c.before, SlotOf(cfg.start, x), client, now) && 0 <= SlotOf(cfg.start, x) < LEASE_RANGE
    requires !Disturbs(cfg.start, c, client, x)
    ensures Available(c.after, SlotOf(cfg.start, x), client, now)
  {
    var t, e := c.before, c.e;
    LeaseHWIsTheSlot(t, c.Client());
    AddressOfSlot(cfg.start, x);
    match e.msg
    case Request(p) =>
      if c.reply.Ack? {
        AckHolds(cfg, t, e);
        AddressOfSlot(cfg.start, c.reply.addr);
      }
    case SetHostname(hwAddr, name) =>
      RenameExact(t, hwAddr, name, e.t0);
    case _ =>
  }

  lemma OfferPeriod(cfg: Config, t: Table, e: Event)
    requires Step(cfg, t, e).1.Offer?
    ensures Step(cfg, t, e).1.period == cfg.period(ClientOf(e.msg))
  {
  }

  lemma OfferedSlotIsAvailable(cfg: Config, t: Table, e: Event)
    requires Inv(t) && Step(cfg, t, e).1.Offer? && e.t0 <= e.t1 <= e.t2 && cfg.start <= Step(cfg, t, e).1.addr
    ensures var n := SlotOf(cfg.start, Step(cfg, t, e).1.addr);
            0 <= n < LEASE_RANGE && Available(Step(cfg, t, e).0, n, ClientOf(e.msg), e.t2)
  {
    OfferIsAvailable(cfg, t, e);
    var n: nat :| n < LEASE_RANGE && Step(cfg, t, e).1.addr == AddressOf(cfg.start, n) &&
                  Available(t, n, ClientOf(e.msg), e.t2);
    SlotOfAddress(cfg.start, n);
  }

  lemma {:induction false} OfferStaysAvailable(cfg: Config, t: Table, run: seq<Call>, i: nat, j: nat, x: Ip4,
                                                client: string)
    requires Inv(t) && IsRun(cfg, t, run) && Clocked(run) && i <= j < |run|
    requires run[i].reply.Offer? && run[i].reply.addr == x && run[i].Client() == client
    requires cfg.start <= x
    requires forall k :: i < k <= j ==> !Disturbs(cfg.start, run[k], client, x)
    ensures 0 <= SlotOf(cfg.start, x) < LEASE_RANGE
    ensures Available(run[j].after, SlotOf(cfg.start, x), client, run[i].e.t2)
    decreases j
  {
    hide Step;
    hide IsRun;
    hide Disturbs;
    RunKeepsInv(cfg, t, run, j);
    if j == i {
      OfferedSlotIsAvailable(cfg, run[i].before, run[i].e);
    } else {
      OfferStaysAvailable(cfg, t, run, i, j - 1, x, client);
      StaysAvailable(cfg, run[j], x, client, run[i].e.t2);
    }
  }

  /** A request meant for this server is ACKed exactly when its address is a
      pool address whose slot is the client's, expired or empty. */
  lemma RequestIsDecided(cfg: Config, t: Table, e: Event, x: Ip4)
    requires e.msg.Request? && e.msg.p.ForServer(cfg.server) && e.msg.p.asked == Some(x)
    ensures var n, client := SlotOf(cfg.start, x), ClientOf(e.msg);
            Step(cfg, t, e).1 == if x != 0 && 0 <= n < LEASE_RANGE && Available(t, n, client, e.t0)
                                 then Ack(x, cfg.period(client)) else Nak
  {
  }

  lemma AvailableIsGranted(cfg: Config, t: Table, e: Event, x: Ip4, since: int)
    requires e.msg.Request? && e.msg.p.ForServer(cfg.server) && e.msg.p.asked == Some(x)
    requires cfg.start <= x ==>
               && 0 <= SlotOf(cfg.start, x) < LEASE_RANGE && since <= e.t0
               && Available(t, SlotOf(cfg.start, x), ClientOf(e.msg), since)
    ensures Step(cfg, t, e).1 ==
            if cfg.start <= x && x != 0 then Ack(x, cfg.period(ClientOf(e.msg))) else Nak
  {
    RequestIsDecided(cfg, t, e, x);
    hide Step;
  }

  /** An offer is honoured: if the client asks this server for the offered
      address, and no other client took it or declined it meanwhile, it is
      ACKed. The exception is a pool that runs over the end of the address
      space or starts at 0.0.0.0: such an address is always refused. */
  lemma OfferIsHonoured(cfg: Config, t: Table, run: seq<Call>, i: nat, j: nat)
    requires Inv(t) && IsRun(cfg, t, run) && Clocked(run) && i < j < |run| && run[i].reply.Offer?
    requires forall k :: i < k < j ==> !Disturbs(cfg.start, run[k], run[i].Client(), run[i].reply.addr)
    requires run[j].e.msg.Request? && run[j].Client() == run[i].Client()
    requires run[j].e.msg.p.ForServer(cfg.server) && run[j].e.msg.p.asked == Some(run[i].reply.addr)
    ensures var Offer(x, period) := run[i].reply;
            run[j].reply == if cfg.start <= x && x != 0 then Ack(x, period) else Nak
  {
    hide Step;
    hide IsRun;
    hide Disturbs;
    hide Available;
    hide SlotOf;
    var x := run[i].reply.addr;
    RunKeepsInv(cfg, t, run, i);
    OfferPeriod(cfg, run[i].before, run[i].e);
    RunKeepsInv(cfg, t, run, j);
    if cfg.start <= x {
      OfferStaysAvailable(cfg, t, run, i, j - 1, x, run[i].Client());
    }
    assert run[i].e.t2 <= run[j].e.t0;
    AvailableIsGranted(cfg, run[j].before, run[j].e, x, run[i].e.t2);
  }

  // ----------------------------------------------------------------- restart

  /** A server that loads the leases another one published keeps the same leases
      from then on, call for call, and gives the same answers, except to a rename
      of a client without a lease that only one of the two finds an entry for. */
  lemma {:induction false} RestartIsInvisible(cfg: Config, t: Table, leases: seq<Lease>, run: seq<Call>,
                                               restarted: seq<Call>, k: nat)
    requires Inv(t) && Snapshot(leases, t)
    requires IsRun(cfg, t, run) && IsRun(cfg, Load(leases), restarted)
    requires k < |run| && k < |restarted| && forall m :: 0 <= m <= k ==> run[m].e == restarted[m].e
    ensures Inv(Load(leases)) && Load(leases).ip == t.ip
    ensures run[k].after.ip == restarted[k].after.ip
    ensures run[k].reply == restarted[k].reply <==> !IndexShows(run[k].before, restarted[k].before, run[k].e.msg)
  {
    hide Step;
    hide IsRun;
    hide IndexShows;
    ReloadRestores(leases, t);
    RunKeepsInv(cfg, t, run, k);
    RunKeepsInv(cfg, Load(leases), restarted, k);
    if k > 0 { RestartIsInvisible(cfg, t, leases, run, restarted, k - 1); }
    IndexIsInvisible(cfg, run[k].before, restarted[k].before, run[k].e);
  }

  // ------------------------------------------------------------- persistence

  /** published[k] is the list last handed to the callback before call k. */
  ghost predicate PublishedAlong(run: seq<Call>, published: seq<seq<Lease>>) {
    && |published| == |run| + 1
    && (forall k :: 0 <= k < |run| ==> Publishes(run[k].reply, run[k].after, published[k], published[k + 1]))
  }

  /** The time written by the last Decline of the client in calls i + 1 to j. */
  function LastDecline(run: seq<Call>, i: nat, j: nat, client: string): Option<int>
    requires i <= j < |run|
    decreases j
  {
    if i == j then None
    else if run[j].e.msg.Decline? && run[j].Client() == client then Some(run[j].e.msg.wallClock)
    else LastDecline(run, i, j - 1, client)
  }

  /** A lease after the Declines since call i. */
  function Declined(run: seq<Call>, i: nat, j: nat, l: Lease): Lease
    requires i <= j < |run|
  {
    match LastDecline(run, i, j, l.hwAddr)
    case None => l
    case Some(wallClock) => l.(expiry := wallClock)
  }

  lemma DeclinedIsSame(run: seq<Call>, i: nat, j: nat, l: Lease)
    requires i <= j < |run|
    ensures Declined(run, i, j, l) == l <==> LastDecline(run, i, j, l.hwAddr) in {None, Some(l.expiry)}
  {
  }

  lemma QuietCall(cfg: Config, c: Call)
    requires Inv(c.before) && IsCall(cfg, c) && !Publishing(c.reply)
    ensures c.after.ip.Keys == c.before.ip.Keys
    ensures forall n :: n in c.before.ip ==>
              c.after.ip[n] == if c.e.msg.Decline? && c.before.ip[n].hwAddr == c.Client()
                               then c.before.ip[n].(expiry := c.e.msg.wallClock) else c.before.ip[n]
  {
    LeaseHWIsTheSlot(c.before, c.Client());
    match c.e.msg
    case SetHostname(hwAddr, name) => RenameExact(c.before, hwAddr, name, c.e.t0);
    case _ =>
  }

  /** Between two publications only Declines change leases, and only their expiry. */
  lemma {:induction false} QuietRun(cfg: Config, t: Table, run: seq<Call>, i: nat, j: nat)
    requires Inv(t) && IsRun(cfg, t, run) && i <= j < |run|
    requires forall k :: i < k <= j ==> !Publishing(run[k].reply)
    ensures run[j].after.ip.Keys == run[i].after.ip.Keys
    ensures forall n :: n in run[i].after.ip ==> run[j].after.ip[n] == Declined(run, i, j, run[i].after.ip[n])
    decreases j
  {
    hide IsRun;
    hide Step;
    RunKeepsInv(cfg, t, run, j);
    if i < j {
      QuietRun(cfg, t, run, i, j - 1);
      QuietCall(cfg, run[j]);
    }
  }

  lemma {:induction false} PublishedStays(run: seq<Call>, published: seq<seq<Lease>>, i: nat, j: nat)
    requires PublishedAlong(run, published) && i <= j < |run|
    requires forall k :: i < k <= j ==> !Publishing(run[k].reply)
    ensures published[j + 1] == published[i + 1]
    decreases j
  {
    hide Snapshot;
    if i < j {
      PublishedStays(run, published, i, j - 1);
      assert Publishes(run[j].reply, run[j].after, published[j], published[j + 1]);
    }
  }

  /** After an ACK or rename in call i, and until the next one, the persisted
      list is the current table exactly as long as the last Decline of each
      lease's client, if any, wrote the expiry the lease already had. */
  lemma PublishedIsCurrent(cfg: Config, t: Table, run: seq<Call>, published: seq<seq<Lease>>, i: nat, j: nat)
    requires Inv(t) && IsRun(cfg, t, run) && PublishedAlong(run, published) && i <= j < |run|
    requires Publishing(run[i].reply) && forall k :: i < k <= j ==> !Publishing(run[k].reply)
    ensures Snapshot(published[i + 1], run[i].after)
    ensures Snapshot(published[j + 1], run[j].after) <==>
            forall n :: n in run[i].after.ip ==>
                          LastDecline(run, i, j, run[i].after.ip[n].hwAddr) in {None, Some(run[i].after.ip[n].expiry)}
  {
    hide IsRun;
    hide Step;
    hide Snapshot;
    RunKeepsInv(cfg, t, run, i);
    RunKeepsInv(cfg, t, run, j);
    QuietRun(cfg, t, run, i, j);
    PublishedStays(run, published, i, j);
    assert Publishes(run[i].reply, run[i].after, published[i], published[i + 1]);
    SnapshotDetermines(published[i + 1], run[i].after, run[j].after);
    hide LastDecline;
    var was, now := run[i].after.ip, run[j].after.ip;
    if forall n :: n in was ==> LastDecline(run, i, j, was[n].hwAddr) in {None, Some(was[n].expiry)} {
      forall n | n in was
        ensures n in now && now[n] == was[n]
      {
        DeclinedIsSame(run, i, j, was[n]);
      }
      SameLeases(run[i].after, run[j].after);
    }
    if now == was {
      forall n | n in was
        ensures LastDecline(run, i, j, was[n].hwAddr) in {None, Some(was[n].expiry)}
      {
        DeclinedIsSame(run, i, j, was[n]);
      }
    }
  }

  // ------------------------------------------- permanent leases and hostnames

  predicate Permanent(t: Table, client: string) {
    LeaseHW(t, client).Some? && LeaseHW(t, client).value.expiry == 0
  }

  /** What a client's own call keeps of the lease it holds. */
  lemma OwnCall(cfg: Config, c: Call)
    requires Inv(c.before) && IsCall(cfg, c) && LeaseHW(c.before, c.Client()).Some?
    ensures var l := LeaseHW(c.before, c.Client()).value;
            var l' := LeaseHW(c.after, c.Client());
            && l'.Some?
            && (l.expiry == 0 && !c.e.msg.Decline? ==> l'.value.expiry == 0)
            && (l.hostnameOverride != "" && !c.e.msg.SetHostname? ==>
                  && l'.value.hostnameOverride == l.hostnameOverride
                  && (l.hostname == l.hostnameOverride || c.reply.Ack? ==> l'.value.hostname == l.hostnameOverride))
  {
    var t, e, t' := c.before, c.e, c.after;
    LeaseHWIsTheSlot(t, c.Client());
    CallKeepsInv(cfg, c);
    LeaseHWIsTheSlot(t', c.Client());
    match e.msg
    case Request(p) =>
      if c.reply.Ack? {
        AckHolds(cfg, t, e);
        var n := SlotOf(cfg.start, c.reply.addr);
        assert t'.ip[n] == NewLease(cfg, t, p, n, p.asked.value, e.t1);
      }
    case Decline(p, wallClock) =>
      assert t'.ip[t.hw[c.Client()]].hwAddr == c.Client();
    case SetHostname(hwAddr, name) =>
      RenameExact(t, hwAddr, name, e.t0);
      assert LeaseHW(t, c.Client()).value.num in t'.ip;
    case _ =>
  }

  /** Another client is ACKed the slot the client holds. */
  predicate TakesOver(start: Ip4, c: Call, client: string) {
    && c.Client() != client
    && c.reply.Ack?
    && LeaseHW(c.before, client).Some?
    && SlotOf(start, c.reply.addr) == LeaseHW(c.before, client).value.num
  }

  lemma OthersCall(cfg: Config, c: Call, client: string)
    requires Inv(c.before) && IsCall(cfg, c)
    requires LeaseHW(c.before, client).Some? && c.Client() != client && !TakesOver(cfg.start, c, client)
    ensures LeaseHW(c.after, client) == LeaseHW(c.before, client)
  {
    LeaseHWIsTheSlot(c.before, client);
    OthersUntouched(cfg, c.before, c.e, LeaseHW(c.before, client).value.num);
    CallKeepsInv(cfg, c);
    LeaseHWIsTheSlot(c.after, client);
    hide Step;
  }

  lemma PermanentIsNotTaken(cfg: Config, c: Call, client: string)
    requires Inv(c.before) && IsCall(cfg, c) && Permanent(c.before, client)
    ensures !TakesOver(cfg.start, c, client)
  {
    LeaseHWIsTheSlot(c.before, client);
    if TakesOver(cfg.start, c, client) { AckHolds(cfg, c.before, c.e); }
  }

  /** A client with a permanent lease that never declines always holds exactly
      one lease, a permanent one, whatever it and the others ask for. */
  lemma {:induction false} PermanentStays(cfg: Config, t: Table, run: seq<Call>, client: string, j: nat)
    requires Inv(t) && IsRun(cfg, t, run) && j < |run| && Permanent(t, client)
    requires forall k :: 0 <= k <= j ==> !(run[k].e.msg.Decline? && run[k].Client() == client)
    ensures Permanent(run[j].after, client)
    ensures var t' := run[j].after;
            forall m, n :: m in t'.ip && n in t'.ip && t'.ip[m].hwAddr == client && t'.ip[n].hwAddr == client ==> m == n
  {
    hide Step;
    hide IsRun;
    RunKeepsInv(cfg, t, run, j);
    if j > 0 { PermanentStays(cfg, t, run, client, j - 1); }
    PermanentIsNotTaken(cfg, run[j], client);
    if run[j].Client() == client { OwnCall(cfg, run[j]); } else { OthersCall(cfg, run[j], client); }
  }

  /** The client's lease has the override name, and name is also its hostname if shown. */
  predicate Overridden(t: Table, client: string, name: string, shown: bool) {
    && LeaseHW(t, client).Some?
    && LeaseHW(t, client).value.hostnameOverride == name
    && (shown ==> LeaseHW(t, client).value.hostname == name)
  }

  /** An override survives every renewal, move and decline of its client, until
      the next SetHostname or until another client takes over the slot; and the
      hostname equals it from then on if it did before, or once an ACK of the
      client has passed. */
  lemma {:induction false} OverrideStays(cfg: Config, t: Table, run: seq<Call>, client: string, name: string,
                                          shown: bool, j: nat)
    requires Inv(t) && IsRun(cfg, t, run) && j < |run| && name != "" && Overridden(t, client, name, shown)
    requires forall k :: 0 <= k <= j ==> !(run[k].e.msg.SetHostname? && run[k].Client() == client)
    requires forall k :: 0 <= k <= j ==> !TakesOver(cfg.start, run[k], client)
    ensures Overridden(run[j].after, client, name, shown || exists k :: 0 <= k <= j && AckTo(run[k], client))
  {
    hide Step;
    hide IsRun;
    RunKeepsInv(cfg, t, run, j);
    if j > 0 { OverrideStays(cfg, t, run, client, name, shown, j - 1); }
    assert !TakesOver(cfg.start, run[j], client);
    if run[j].Client() == client { OwnCall(cfg, run[j]); } else { OthersCall(cfg, run[j], client); }
  }

  predicate AckTo(c: Call, client: string) {
    c.Client() == client && c.reply.Ack?
  }
}
