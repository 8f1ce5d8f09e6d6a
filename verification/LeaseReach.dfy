/** Tables that a DHCP server which started with an empty one comes to, and what
    the server does in them that it seems not meant to do. */
module LeaseReach {
  import opened Bytes
  import opened Addresses
  import opened LeaseTable
  import opened LeaseRuns
  import opened MacPrefixes

  /** The run leads from the empty table to t, and its clock is not past now. */
  ghost predicate Leads(cfg: Config, run: seq<Call>, t: Table, now: int) {
    && IsRun(cfg, EMPTY, run) && Clocked(run) && After(EMPTY, run) == t
    && forall k :: 0 <= k < |run| ==> run[k].e.t2 <= now
  }

  ghost predicate Reachable(cfg: Config, t: Table, now: int) {
    exists run :: Leads(cfg, run, t, now)
  }

  lemma EmptyIsReachable(cfg: Config, now: int)
    ensures Reachable(cfg, EMPTY, now)
  {
    assert Leads(cfg, [], EMPTY, now);
  }

  lemma StepReaches(cfg: Config, t: Table, now: int, e: Event)
    requires Reachable(cfg, t, now) && now <= e.t0 <= e.t1 <= e.t2
    ensures Reachable(cfg, Step(cfg, t, e).0, e.t2)
  {
    hide Step;
    var run :| Leads(cfg, run, t, now);
    var c := Call(t, e, Step(cfg, t, e).1, Step(cfg, t, e).0);
    var longer := run + [c];
    assert longer[..|run|] == run;
    assert IsCall(cfg, c);
    assert Leads(cfg, longer, Step(cfg, t, e).0, e.t2);
  }

  lemma EmptyIsValid()
    ensures Inv(EMPTY)
  {
  }

  lemma ReachableIsValid(cfg: Config, t: Table, now: int)
    requires Reachable(cfg, t, now)
    ensures Inv(t)
  {
    hide IsRun;
    hide Clocked;
    hide Inv;
    hide Step;
    EmptyIsValid();
    var run :| Leads(cfg, run, t, now);
    if run != [] { RunKeepsInv(cfg, EMPTY, run, |run| - 1); }
  }

  // ------------------------------------------------------------ asking for x

  function Asking(client: string, x: Ip4): Packet {
    Packet(client, Some(x), None, "")
  }

  function PlainLease(cfg: Config, n: int, x: Ip4, client: string, now: int): Lease {
    Lease(n, x, client, "", "", now + cfg.period(client))
  }

  /** The table after the client was given x; prior is the slot it had, if any. */
  function Given(cfg: Config, t: Table, client: string, x: Ip4, now: int): Table {
    var n := SlotOf(cfg.start, x);
    var kept := if LeaseHW(t, client).Some? then t.ip - {LeaseHW(t, client).value.num} else t.ip;
    Table(t.hw[client := n], kept[n := PlainLease(cfg, n, x, client, now)])
  }

  predicate Ordinary(l: Lease) {
    l.expiry != 0 && l.hostnameOverride == ""
  }

  predicate InPool(start: Ip4, x: Ip4) {
    x != 0 && 0 <= SlotOf(start, x) < LEASE_RANGE
  }

  /** A client whose lease, if any, is an ordinary one asks for an address it can have. */
  lemma AskReaches(cfg: Config, t: Table, was: int, client: string, x: Ip4, now: int)
    requires Reachable(cfg, t, was) && was <= now && InPool(cfg.start, x)
    requires Available(t, SlotOf(cfg.start, x), client, now)
    requires LeaseHW(t, client).Some? ==> Ordinary(LeaseHW(t, client).value)
    ensures Reachable(cfg, Given(cfg, t, client, x, now), now)
  {
    hide Reachable;
    var e := Event(Request(Asking(client, x)), now, now, now);
    StepReaches(cfg, t, was, e);
    var n := SlotOf(cfg.start, x);
    assert CanLease(cfg.start, t, Some(x), client, now) == n;
    assert NewLease(cfg, t, Asking(client, x), n, x, now) == PlainLease(cfg, n, x, client, now);
    assert Step(cfg, t, e).0 == Given(cfg, t, client, x, now);
  }

  // ---------------------------------------------------------- stale entries

  /** a was given x and let it expire, and b was given x right after. */
  function TakenOver(cfg: Config, a: string, b: string, x: Ip4): Table {
    var n, now := SlotOf(cfg.start, x), cfg.period(a) + 1;
    Table(map[a := n, b := n], map[n := PlainLease(cfg, n, x, b, now)])
  }

  lemma TakenOverIsReachable(cfg: Config, a: string, b: string, x: Ip4)
    requires a != b && cfg.period(a) > 0 && InPool(cfg.start, x)
    ensures Reachable(cfg, TakenOver(cfg, a, b, x), cfg.period(a) + 1)
    ensures Inv(TakenOver(cfg, a, b, x))
  {
    hide Reachable;
    var n := SlotOf(cfg.start, x);
    EmptyIsReachable(cfg, 0);
    AskReaches(cfg, EMPTY, 0, a, x, 0);
    var t := Table(map[a := n], map[n := PlainLease(cfg, n, x, a, 0)]);
    assert Given(cfg, EMPTY, a, x, 0) == t;
    AskReaches(cfg, t, 0, b, x, cfg.period(a) + 1);
    assert Given(cfg, t, b, x, cfg.period(a) + 1) == TakenOver(cfg, a, b, x);
    ReachableIsValid(cfg, TakenOver(cfg, a, b, x), cfg.period(a) + 1);
  }

  /** After any takeover of a slot other than 0, renaming the client that lost
      it is refused, but crashes once the server's leases were reloaded. */
  lemma RestartShows(cfg: Config, a: string, b: string, x: Ip4, e: Event)
    requires a != b && cfg.period(a) > 0 && InPool(cfg.start, x) && SlotOf(cfg.start, x) > 0
    requires e.msg.SetHostname? && e.msg.hwAddr == a
    ensures var t := TakenOver(cfg, a, b, x);
            var leases := [t.ip[SlotOf(cfg.start, x)]];
            && Reachable(cfg, t, cfg.period(a) + 1) && Snapshot(leases, t)
            && Step(cfg, t, e).1 == HostnameRefused && Step(cfg, Load(leases), e).1 == Crash
  {
    TakenOverIsReachable(cfg, a, b, x);
    hide Reachable;
    var t := TakenOver(cfg, a, b, x);
    var l := t.ip[SlotOf(cfg.start, x)];
    assert [l][..0] == [] && Load([l]) == Table(map[b := l.num], map[l.num := l]);
  }

  /** Then b moved on to y, which leaves a's entry pointing at an empty slot. */
  function MovedOn(cfg: Config, a: string, b: string, x: Ip4, y: Ip4): Table {
    var m, now := SlotOf(cfg.start, y), cfg.period(a) + 1;
    Table(map[a := SlotOf(cfg.start, x), b := m], map[m := PlainLease(cfg, m, y, b, now)])
  }

  /** Renaming a client without a lease crashes on the empty table, is refused
      once another client took over its slot, and crashes again once that one moved. */
  lemma RenameCrashes(cfg: Config, a: string, b: string, x: Ip4, y: Ip4, name: string, now: int)
    requires a != b && cfg.period(a) > 0 && cfg.period(b) > 0
    requires InPool(cfg.start, x) && InPool(cfg.start, y) && SlotOf(cfg.start, x) != SlotOf(cfg.start, y)
    ensures Rename(EMPTY, a, name, now).1 == Crash
    ensures Reachable(cfg, TakenOver(cfg, a, b, x), cfg.period(a) + 1)
    ensures Rename(TakenOver(cfg, a, b, x), a, name, now).1 == HostnameRefused
    ensures Reachable(cfg, MovedOn(cfg, a, b, x, y), cfg.period(a) + 1)
    ensures Rename(MovedOn(cfg, a, b, x, y), a, name, now).1 == Crash
  {
    hide Reachable;
    TakenOverIsReachable(cfg, a, b, x);
    var t, at := TakenOver(cfg, a, b, x), cfg.period(a) + 1;
    assert LeaseHW(t, b) == Some(PlainLease(cfg, SlotOf(cfg.start, x), x, b, at));
    AskReaches(cfg, t, at, b, y, at);
    var t', m := Given(cfg, t, b, y, at), SlotOf(cfg.start, y);
    assert t.ip - {SlotOf(cfg.start, x)} == map[];
    assert t' == MovedOn(cfg, a, b, x, y);
  }

  // ---------------------------------------------------------- outdated lists

  /** A client is given x at time 0 and declines right away, the wall clock reading as given. */
  function DeclineRun(cfg: Config, client: string, x: Ip4, wallClock: int): seq<Call> {
    var l := PlainLease(cfg, SlotOf(cfg.start, x), x, client, 0);
    var t := Table(map[client := l.num], map[l.num := l]);
    [Call(EMPTY, Event(Request(Asking(client, x)), 0, 0, 0), Ack(x, cfg.period(client)), t),
     Call(t, Event(Decline(Asking(client, x), wallClock), 0, 0, 0), Silent, ExpireLease(t, client, wallClock))]
  }

  /** The lists handed to the callback before, between and after the two calls. */
  function DeclinePublished(cfg: Config, client: string, x: Ip4): seq<seq<Lease>> {
    var l := PlainLease(cfg, SlotOf(cfg.start, x), x, client, 0);
    [[], [l], [l]]
  }

  /** Right after any grant, a Decline by the client leaves the published list out of date. */
  lemma DeclineIsNotPublished(cfg: Config, client: string, x: Ip4, wallClock: int)
    requires InPool(cfg.start, x) && wallClock != cfg.period(client)
    ensures var run, published := DeclineRun(cfg, client, x, wallClock), DeclinePublished(cfg, client, x);
            && IsRun(cfg, EMPTY, run) && Clocked(run) && PublishedAlong(run, published)
            && Snapshot(published[1], run[0].after) && !Snapshot(published[2], run[1].after)
  {
    var run, published := DeclineRun(cfg, client, x, wallClock), DeclinePublished(cfg, client, x);
    DeclineRunIsRun(cfg, client, x, wallClock);
    hide SlotOf;
    var l := PlainLease(cfg, SlotOf(cfg.start, x), x, client, 0);
    assert Snapshot([l], run[0].after);
    EmptyIsValid();
    hide IsRun;
    PublishedIsCurrent(cfg, EMPTY, run, published, 0, 1);
    assert LastDecline(run, 0, 1, client) == Some(wallClock);
    assert l.num in run[0].after.ip && run[0].after.ip[l.num] == l;
  }

  lemma DeclineRunIsRun(cfg: Config, client: string, x: Ip4, wallClock: int)
    requires InPool(cfg.start, x)
    ensures IsRun(cfg, EMPTY, DeclineRun(cfg, client, x, wallClock))
  {
    var run, n := DeclineRun(cfg, client, x, wallClock), SlotOf(cfg.start, x);
    var ask := Event(Request(Asking(client, x)), 0, 0, 0);
    assert CanLease(cfg.start, EMPTY, Some(x), client, 0) == n;
    assert Step(cfg, EMPTY, ask) == (run[0].after, run[0].reply);
    assert run[..1] == [run[0]] && run[..1][..0] == [];
    assert IsRun(cfg, EMPTY, run[..1]);
  }

  // -------------------------------------------------------------- full tables

  /** Devices with distinct hardware addresses. */
  function Device(i: nat): string
    requires i < LEASE_RANGE
  {
    FormatMac([0, 0, 0, 0, 0, i])
  }

  lemma DevicesDiffer(i: nat, j: nat)
    requires i < LEASE_RANGE && j < LEASE_RANGE && Device(i) == Device(j)
    ensures i == j
  {
    MacTextIsInjective([0, 0, 0, 0, 0, i], [0, 0, 0, 0, 0, j]);
    assert [0, 0, 0, 0, 0, i][5] == [0, 0, 0, 0, 0, j][5];
  }

  /** The first k devices each asked for an address of their own, all at time 0. */
  function Filled(cfg: Config, k: nat): Table
    requires k <= LEASE_RANGE
  {
    if k == 0 then EMPTY else Given(cfg, Filled(cfg, k - 1), Device(k - 1), AddressOf(cfg.start, k - 1), 0)
  }

  ghost predicate HoldsFirst(cfg: Config, t: Table, k: nat)
    requires k <= LEASE_RANGE
  {
    && (forall n :: n in t.ip <==> 0 <= n < k)
    && (forall n :: 0 <= n < k ==> t.ip[n] == PlainLease(cfg, n, AddressOf(cfg.start, n), Device(n), 0))
    && (forall client :: client in t.hw ==> exists n: nat :: n < k && client == Device(n))
  }

  /** A pool that neither starts at 0.0.0.0 nor runs over the end of the address space. */
  predicate Whole(start: Ip4) {
    start > 0 && start as int + LEASE_RANGE <= WRAP
  }

  lemma PoolAddress(start: Ip4, n: nat)
    requires Whole(start) && n < LEASE_RANGE
    ensures InPool(start, AddressOf(start, n)) && SlotOf(start, AddressOf(start, n)) == n
  {
    SlotOfAddress(start, n);
  }

  /** One more device finds its slot empty and gets it. */
  lemma GivenHolds(cfg: Config, t: Table, k: nat)
    requires k < LEASE_RANGE && HoldsFirst(cfg, t, k) && SlotOf(cfg.start, AddressOf(cfg.start, k)) == k
    ensures k !in t.ip && LeaseHW(t, Device(k)).None?
    ensures HoldsFirst(cfg, Given(cfg, t, Device(k), AddressOf(cfg.start, k), 0), k + 1)
  {
    hide Device;
    hide AddressOf;
    hide SlotOf;
    var client := Device(k);
    if client in t.hw {
      var n: nat :| n < k && client == Device(n);
      DevicesDiffer(n, k);
    }
  }

  /** k requests from k devices leave k leases. */
  lemma {:induction false} FilledHolds(cfg: Config, k: nat)
    requires Whole(cfg.start) && k <= LEASE_RANGE
    ensures Reachable(cfg, Filled(cfg, k), 0) && HoldsFirst(cfg, Filled(cfg, k), k)
  {
    hide Reachable;
    hide Device;
    hide AddressOf;
    hide SlotOf;
    hide Given;
    if k == 0 {
      EmptyIsReachable(cfg, 0);
    } else {
      FilledHolds(cfg, k - 1);
      var t, x := Filled(cfg, k - 1), AddressOf(cfg.start, k - 1);
      PoolAddress(cfg.start, k - 1);
      GivenHolds(cfg, t, k - 1);
      AskReaches(cfg, t, 0, Device(k - 1), x, 0);
    }
  }

  /** A full table with an expired entry is reached, and there a newcomer's
      Discover stays unanswered although its request for the expired address is granted. */
  lemma FullTableRefuses(cfg: Config, newcomer: string, now: int, dice: Slot)
    requires Whole(cfg.start) && now > cfg.period(Device(0)) > 0
    requires forall i: nat :: i < LEASE_RANGE ==> newcomer != Device(i)
    ensures var t, x := Filled(cfg, LEASE_RANGE), AddressOf(cfg.start, 0);
            && Reachable(cfg, t, 0) && Free(t, 0, now) && FindLease(t, now, dice) == -1
            && Step(cfg, t, Event(Discover(Packet(newcomer, None, None, ""), dice), now, now, now)).1 == Silent
            && Step(cfg, t, Event(Request(Asking(newcomer, x)), now, now, now)).1 == Ack(x, cfg.period(newcomer))
  {
    FilledHolds(cfg, LEASE_RANGE);
    hide Reachable;
    hide Device;
    hide AddressOf;
    hide SlotOf;
    var t, x := Filled(cfg, LEASE_RANGE), AddressOf(cfg.start, 0);
    ReachableIsValid(cfg, t, 0);
    FindLeaseMisses(t, now, dice);
    assert t.ip[0].Expired(now);
    PoolAddress(cfg.start, 0);
    LeaseHWIsTheSlot(t, newcomer);
    var discover := Event(Discover(Packet(newcomer, None, None, ""), dice), now, now, now);
    DiscoverIsSilent(cfg, t, discover);
    RequestIsDecided(cfg, t, Event(Request(Asking(newcomer, x)), now, now, now), x);
  }

  // --------------------------------------------------------- usable addresses

  predicate Usable(server: Ip4, r: Reply) {
    r.Ack? || r.Offer? ==> UsableFor(server, r.addr)
  }

  ghost predicate AllUsable(server: Ip4, run: seq<Call>) {
    forall k :: 0 <= k < |run| ==> Usable(server, run[k].reply)
  }

  /** From any valid table, what a server with a last octet of at most 24 offers
      or acknowledges is a host address of its network other than its own. */
  lemma GrantIsUsable(cfg: Config, t: Table, e: Event)
    requires Inv(t) && e.t0 <= e.t1 <= e.t2 && cfg.start == Start(cfg.server) && cfg.server % 256 <= 24
    ensures Usable(cfg.server, Step(cfg, t, e).1)
  {
    hide Step;
    hide UsableFor;
    hide AddressOf;
    hide SlotOf;
    PoolIsUsable(cfg.server);
    var r := Step(cfg, t, e).1;
    if r.Ack? {
      AckHolds(cfg, t, e);
      AddressOfSlot(cfg.start, r.addr);
    } else if r.Offer? {
      OfferIsAvailable(cfg, t, e);
    }
  }

  /** All addresses offered or acknowledged in all runs are usable exactly when
      the server's last octet is at most 24. */
  lemma GrantsAreUsable(cfg: Config)
    requires cfg.start == Start(cfg.server)
    ensures (forall run: seq<Call> :: IsRun(cfg, EMPTY, run) && Clocked(run) ==> AllUsable(cfg.server, run)) <==>
            cfg.server % 256 <= 24
  {
    hide Step;
    hide UsableFor;
    hide IsRun;
    if cfg.server % 256 <= 24 {
      forall run: seq<Call> | IsRun(cfg, EMPTY, run) && Clocked(run)
        ensures AllUsable(cfg.server, run)
      {
        forall k | 0 <= k < |run|
          ensures Usable(cfg.server, run[k].reply)
        {
          RunKeepsInv(cfg, EMPTY, run, k);
          GrantIsUsable(cfg, run[k].before, run[k].e);
        }
      }
    } else {
      PoolIsUsable(cfg.server);
      var n :| 0 <= n < LEASE_RANGE && !UsableFor(cfg.server, AddressOf(cfg.start, n));
      var run := FirstOffer(cfg, n);
      assert !Usable(cfg.server, run[0].reply);
    }
  }

  /** A first client that asks for nothing can be offered any slot. */
  lemma FirstOffer(cfg: Config, n: Slot) returns (run: seq<Call>)
    ensures IsRun(cfg, EMPTY, run) && Clocked(run) && |run| == 1
    ensures run[0].reply == Offer(AddressOf(cfg.start, n), cfg.period(""))
  {
    var e := Event(Discover(Packet("", None, None, ""), n), 0, 0, 0);
    run := [Call(EMPTY, e, Step(cfg, EMPTY, e).1, EMPTY)];
    assert run[..0] == [];
    assert IsRun(cfg, EMPTY, run[..0]);
  }
}
