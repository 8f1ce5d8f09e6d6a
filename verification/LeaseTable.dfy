/** The DHCP server's lease table as a value: what each request does to it and
    what it answers. The mutable handler is proved to compute these functions. */
module LeaseTable {
  import opened Bytes
  import opened Addresses

  // ------------------------------------------------------------------ state

  /** Times are nanoseconds; 0 is the zero time, which marks a permanent lease. */
  datatype Lease = Lease(num: int, addr: Ip4, hwAddr: string, hostname: string, hostnameOverride: string, expiry: int)
  {
    predicate Expired(at: int) {
      expiry != 0 && at > expiry
    }
  }

  /** hw points from clients into ip; an entry of hw may be stale. */
  datatype Table = Table(hw: map<string, int>, ip: map<int, Lease>)

  /** The server's address, the first address of its pool, and its lease period for each client. */
  datatype Config = Config(server: Ip4, start: Ip4, period: string -> int)

  /** What the server reads from a DHCP packet: the text of the client's hardware
      address; the address asked for, absent when it is not four bytes; the
      server identifier, if there is one, itself absent when it is no IPv4
      address; and the hostname. */
  datatype Packet = Packet(hwAddr: string, asked: Option<Ip4>, serverId: Option<Option<Ip4>>, hostname: string)
  {
    predicate ForServer(server: Ip4) {
      serverId.Some? ==> serverId.value == Some(server)
    }
  }

  type Slot = n: nat | n < LEASE_RANGE

  datatype Message =
    | Discover(p: Packet, dice: Slot)
    | Request(p: Packet)
    | Decline(p: Packet, wallClock: int)
    | SetHostname(hwAddr: string, name: string)
    | Unsupported

  /** One call of the server. t0, t1 and t2 are the successive readings of its
      clock during the call; dice is the random slot findLease tries first;
      expireLease reads the wall clock instead. */
  datatype Event = Event(msg: Message, t0: int, t1: int, t2: int)

  datatype Reply =
    | Silent
    | Offer(addr: Ip4, period: int)
    | Ack(addr: Ip4, period: int)
    | Nak
    | HostnameSet
    | HostnameRefused
    | Crash // nil dereference, caught by the HTTP server

  // ------------------------------------------------------------- operations

  predicate Free(t: Table, n: int, now: int) {
    n !in t.ip || t.ip[n].Expired(now)
  }

  function CanLease(start: Ip4, t: Table, asked: Option<Ip4>, client: string, now: int): int {
    if asked.None? || asked.value == 0 then -1
    else
      var n := SlotOf(start, asked.value);
      if n < 0 || n >= LEASE_RANGE then -1
      else if n !in t.ip || t.ip[n].hwAddr == client || t.ip[n].Expired(now) then n
      else -1
  }

  function LeaseHW(t: Table, client: string): Option<Lease> {
    if client in t.hw && t.hw[client] in t.ip && t.ip[t.hw[client]].hwAddr == client
    then Some(t.ip[t.hw[client]])
    else None
  }

  function FirstFree(t: Table, now: int, from: nat): int
    requires from <= LEASE_RANGE
    decreases LEASE_RANGE - from
  {
    if from == LEASE_RANGE then -1
    else if Free(t, from, now) then from
    else FirstFree(t, now, from + 1)
  }

  function FindLease(t: Table, now: int, dice: Slot): int {
    if |t.ip| >= LEASE_RANGE then -1
    else if Free(t, dice, now) then dice
    else FirstFree(t, now, 0)
  }

  function OfferedSlot(cfg: Config, t: Table, p: Packet, dice: Slot, t0: int, t1: int, t2: int): int {
    var wanted := CanLease(cfg.start, t, p.asked, p.hwAddr, t0);
    var previous := LeaseHW(t, p.hwAddr);
    if previous.Some? && !previous.value.Expired(t1) then previous.value.num
    else if wanted != -1 then wanted
    else FindLease(t, t2, dice)
  }

  /** A new lease with what the client's previous one carries over to it. */
  function Carried(plain: Lease, prior: Lease): Lease {
    var kept := if prior.expiry == 0 then plain.(expiry := 0, hostname := prior.hostname) else plain;
    if prior.hostnameOverride != ""
    then kept.(hostname := prior.hostnameOverride, hostnameOverride := prior.hostnameOverride)
    else kept
  }

  /** The lease a client is given for slot n, keeping what its previous lease carries over. */
  function NewLease(cfg: Config, t: Table, p: Packet, n: int, addr: Ip4, now: int): Lease {
    var plain := Lease(n, addr, p.hwAddr, p.hostname, "", now + cfg.period(p.hwAddr));
    match LeaseHW(t, p.hwAddr)
    case None => plain
    case Some(prior) => Carried(plain, prior)
  }

  /** What a granted slot and the lease made for it have in common. */
  lemma GrantFits(cfg: Config, t: Table, p: Packet, n: int, addr: Ip4, now: int, t0: int)
    ensures CanLease(cfg.start, t, p.asked, p.hwAddr, t0) != -1 ==>
              p.asked.Some? && 0 <= CanLease(cfg.start, t, p.asked, p.hwAddr, t0) < LEASE_RANGE
    ensures var l := NewLease(cfg, t, p, n, addr, now); l.num == n && l.addr == addr && l.hwAddr == p.hwAddr
  {
  }

  /** Gives slot n to the client with lease l, releasing the slot it held. */
  function Put(t: Table, client: string, n: int, l: Lease): Table {
    var prior := LeaseHW(t, client);
    var kept := if prior.Some? then t.ip - {prior.value.num} else t.ip;
    Table(t.hw[client := n], kept[n := l])
  }

  function Grant(cfg: Config, t: Table, p: Packet, n: int, addr: Ip4, now: int): Table {
    Put(t, p.hwAddr, n, NewLease(cfg, t, p, n, addr, now))
  }

  function HandleRequest(cfg: Config, t: Table, p: Packet, t0: int, t1: int): (Table, Reply) {
    if !p.ForServer(cfg.server) then (t, Silent)
    else
      var n := CanLease(cfg.start, t, p.asked, p.hwAddr, t0);
      if n == -1 then (t, Nak)
      else (Grant(cfg, t, p, n, p.asked.value, t1),
            Ack(p.asked.value, cfg.period(p.hwAddr)))
  }

  function ExpireLease(t: Table, client: string, wallClock: int): Table {
    if LeaseHW(t, client).None? then t
    else t.(ip := t.ip[t.hw[client] := t.ip[t.hw[client]].(expiry := wallClock)])
  }

  /** A client without an entry is looked up in slot 0. */
  function HostnameSlot(t: Table, client: string): int {
    if client in t.hw then t.hw[client] else 0
  }

  function Rename(t: Table, client: string, name: string, now: int): (Table, Reply) {
    var n := HostnameSlot(t, client);
    if n !in t.ip then (t, Crash)
    else if t.ip[n].hwAddr != client || t.ip[n].Expired(now) then (t, HostnameRefused)
    else (t.(ip := t.ip[n := t.ip[n].(hostname := name, hostnameOverride := name)]), HostnameSet)
  }

  function Step(cfg: Config, t: Table, e: Event): (Table, Reply) {
    match e.msg
    case Discover(p, dice) =>
      var n := OfferedSlot(cfg, t, p, dice, e.t0, e.t1, e.t2);
      (t, if n < 0 then Silent else Offer(AddressOf(cfg.start, n), cfg.period(p.hwAddr)))
    case Request(p) => HandleRequest(cfg, t, p, e.t0, e.t1)
    case Decline(p, wallClock) => (ExpireLease(t, p.hwAddr, wallClock), Silent)
    case SetHostname(hwAddr, name) => Rename(t, hwAddr, name, e.t0)
    case Unsupported => (t, Silent)
  }

  /** The table of a new handler. */
  const EMPTY := Table(map[], map[])

  /** SetLeases: later entries overwrite earlier ones. */
  function Load(leases: seq<Lease>): Table {
    if leases == [] then EMPTY
    else
      var t, l := Load(leases[..|leases| - 1]), leases[|leases| - 1];
      Table(t.hw[l.hwAddr := l.num], t.ip[l.num := l])
  }

  lemma LoadNothing()
    ensures Load([]) == EMPTY
  {
  }

  lemma LoadNext(leases: seq<Lease>, i: nat)
    requires i < |leases|
    ensures var t, l := Load(leases[..i]), leases[i];
            Load(leases[..i + 1]) == Table(t.hw[l.hwAddr := l.num], t.ip[l.num := l])
  {
    assert leases[..i + 1][..i] == leases[..i];
  }

  // -------------------------------------------------------------- invariant

  /** Slots are in range and numbered, and each holder's hw entry points at its slot. */
  ghost predicate Inv(t: Table) {
    forall n :: n in t.ip ==>
                  && 0 <= n < LEASE_RANGE
                  && t.ip[n].num == n
                  && t.ip[n].hwAddr in t.hw
                  && t.hw[t.ip[n].hwAddr] == n
  }

  /** No client holds two slots, whatever stale entries hw keeps. */
  lemma OneSlotPerClient(t: Table, m: int, n: int)
    requires Inv(t) && m in t.ip && n in t.ip && t.ip[m].hwAddr == t.ip[n].hwAddr
    ensures m == n
  {
  }

  /** A client's lease is the entry of the one slot it holds, and hw does not
      matter beyond that. */
  lemma LeaseHWIsTheSlot(t: Table, client: string)
    requires Inv(t)
    ensures LeaseHW(t, client).Some? <==> exists n :: n in t.ip && t.ip[n].hwAddr == client
    ensures forall n :: n in t.ip && t.ip[n].hwAddr == client ==> LeaseHW(t, client) == Some(t.ip[n])
    ensures LeaseHW(t, client).Some? ==>
              var l := LeaseHW(t, client).value; l.num in t.ip && t.ip[l.num] == l && l.hwAddr == client
  {
    if LeaseHW(t, client).Some? {
      var n := t.hw[client];
      assert n in t.ip && t.ip[n].hwAddr == client;
    }
    if n :| n in t.ip && t.ip[n].hwAddr == client {
      assert t.hw[t.ip[n].hwAddr] == n;
    }
  }

  lemma PutKeepsInv(t: Table, client: string, n: int, l: Lease)
    requires Inv(t) && 0 <= n < LEASE_RANGE && l.num == n && l.hwAddr == client
    ensures Inv(Put(t, client, n, l))
  {
    LeaseHWIsTheSlot(t, client);
    var t' := Put(t, client, n, l);
    forall m | m in t'.ip && m != n
      ensures t'.ip[m] == t.ip[m] && t.ip[m].hwAddr != client
    {
    }
  }

  /** Every call keeps the index invariant. */
  lemma StepKeepsInv(cfg: Config, t: Table, e: Event)
    requires Inv(t)
    ensures Inv(Step(cfg, t, e).0)
  {
    match e.msg
    case Request(p) =>
      var n := CanLease(cfg.start, t, p.asked, p.hwAddr, e.t0);
      if n != -1 { PutKeepsInv(t, p.hwAddr, n, NewLease(cfg, t, p, n, p.asked.value, e.t1)); }
    case _ =>
  }

  // ------------------------------------------------------------ persistence

  /** A list in which no slot and no client occurs twice. */
  ghost predicate Distinct(leases: seq<Lease>) {
    forall i, j :: 0 <= i < j < |leases| ==> leases[i].num != leases[j].num && leases[i].hwAddr != leases[j].hwAddr
  }

  ghost predicate InRange(leases: seq<Lease>) {
    forall i :: 0 <= i < |leases| ==> 0 <= leases[i].num < LEASE_RANGE
  }

  /** The invariant without the bounds on slots. */
  ghost predicate Indexed(t: Table) {
    forall n :: n in t.ip ==> t.ip[n].num == n && t.ip[n].hwAddr in t.hw && t.hw[t.ip[n].hwAddr] == n
  }

  function Clients(leases: seq<Lease>): set<string> {
    set l | l in leases :: l.hwAddr
  }

  /** Whatever is loaded was listed. */
  lemma {:induction false} LoadOnlyListed(leases: seq<Lease>)
    ensures forall n :: n in Load(leases).ip ==> Load(leases).ip[n] in leases && Load(leases).ip[n].num == n
    ensures Load(leases).hw.Keys <= Clients(leases)
  {
    if leases != [] {
      var init, last := leases[..|leases| - 1], leases[|leases| - 1];
      LoadOnlyListed(init);
      assert leases == init + [last];
      assert Clients(leases) == Clients(init) + {last.hwAddr};
    }
  }

  ghost predicate Holds(t: Table, l: Lease) {
    l.num in t.ip && t.ip[l.num] == l
  }

  /** Loading a list without repetitions indexes and keeps every lease listed. */
  lemma {:induction false} LoadKeepsAll(leases: seq<Lease>)
    requires Distinct(leases)
    ensures Indexed(Load(leases))
    ensures forall i :: 0 <= i < |leases| ==> Holds(Load(leases), leases[i])
  {
    hide Indexed;
    hide Clients;
    hide Holds;
    NothingIndexed();
    if leases != [] {
      var init, last := leases[..|leases| - 1], leases[|leases| - 1];
      assert Distinct(init) by {
        assert forall i :: 0 <= i < |init| ==> init[i] == leases[i];
      }
      LoadKeepsAll(init);
      LoadOnlyListed(init);
      NewClient(leases);
      AddKeepsIndexed(Load(init), last);
      LastHeld(Load(init), last);
      forall i | 0 <= i < |leases|
        ensures Holds(Load(leases), leases[i])
      {
        if i < |init| {
          assert init[i] == leases[i];
          AddKeepsHeld(Load(init), last, init[i]);
        }
      }
    }
  }

  lemma NewClient(leases: seq<Lease>)
    requires Distinct(leases) && leases != []
    ensures leases[|leases| - 1].hwAddr !in Clients(leases[..|leases| - 1])
  {
  }

  lemma LastHeld(t: Table, l: Lease)
    ensures Holds(Table(t.hw[l.hwAddr := l.num], t.ip[l.num := l]), l)
  {
  }

  lemma NothingIndexed()
    ensures Indexed(EMPTY)
  {
  }

  lemma AddKeepsHeld(t: Table, l: Lease, held: Lease)
    requires Holds(t, held) && held.num != l.num
    ensures Holds(Table(t.hw[l.hwAddr := l.num], t.ip[l.num := l]), held)
  {
  }

  lemma AddKeepsIndexed(t: Table, l: Lease)
    requires Indexed(t) && l.hwAddr !in t.hw
    ensures Indexed(Table(t.hw[l.hwAddr := l.num], t.ip[l.num := l]))
  {
  }

  /** With repetitions, the last lease listed for a slot is kept, and a client
      is indexed under the last lease listed for it. */
  lemma {:induction false} LoadKeepsLast(leases: seq<Lease>, i: nat)
    requires i < |leases|
    ensures (forall j :: i < j < |leases| ==> leases[j].num != leases[i].num) ==> Holds(Load(leases), leases[i])
    ensures (forall j :: i < j < |leases| ==> leases[j].hwAddr != leases[i].hwAddr) ==>
              leases[i].hwAddr in Load(leases).hw && Load(leases).hw[leases[i].hwAddr] == leases[i].num
  {
    var n := |leases| - 1;
    LoadNext(leases, n);
    assert leases[..n + 1] == leases;
    if i < n {
      LoadKeepsLast(leases[..n], i);
      assert leases[n].num != leases[i].num || !(forall j :: i < j < |leases| ==> leases[j].num != leases[i].num);
      assert leases[n].hwAddr != leases[i].hwAddr ||
             !(forall j :: i < j < |leases| ==> leases[j].hwAddr != leases[i].hwAddr);
    }
    hide Load;
  }

  /** A list without repetitions is one the server may start from exactly when its slots are in range. */
  lemma LoadIsValid(leases: seq<Lease>)
    requires Distinct(leases)
    ensures Inv(Load(leases)) <==> InRange(leases)
    ensures forall i :: 0 <= i < |leases| ==> Holds(Load(leases), leases[i])
  {
    hide Load;
    hide Distinct;
    LoadKeepsAll(leases);
    LoadOnlyListed(leases);
    var t := Load(leases);
    if InRange(leases) {
      forall n | n in t.ip
        ensures 0 <= n < LEASE_RANGE
      {
        var i :| 0 <= i < |leases| && leases[i] == t.ip[n];
      }
    }
    if Inv(t) {
      forall i | 0 <= i < |leases|
        ensures 0 <= leases[i].num < LEASE_RANGE
      {
        assert Holds(t, leases[i]);
      }
    }
  }

  /** A snapshot of the table, in any order, as handed to the Leases callback. */
  ghost predicate Snapshot(leases: seq<Lease>, t: Table) {
    && (forall i :: 0 <= i < |leases| ==> leases[i].num in t.ip && t.ip[leases[i].num] == leases[i])
    && (forall i, j :: 0 <= i < j < |leases| ==> leases[i] != leases[j])
    && (forall n :: n in t.ip ==> t.ip[n] in leases)
  }

  /** Writing the table out and loading it again restores every lease; only stale hw entries are gone. */
  lemma ReloadRestores(leases: seq<Lease>, t: Table)
    requires Inv(t) && Snapshot(leases, t)
    ensures Inv(Load(leases)) && Load(leases).ip == t.ip
  {
    hide Load;
    forall i, j | 0 <= i < j < |leases|
      ensures leases[i].num != leases[j].num && leases[i].hwAddr != leases[j].hwAddr
    {
      if leases[i].hwAddr == leases[j].hwAddr {
        OneSlotPerClient(t, leases[i].num, leases[j].num);
      }
    }
    LoadIsValid(leases);
    LoadOnlyListed(leases);
    var t' := Load(leases);
    assert InRange(leases);
    forall n | n in t.ip
      ensures n in t'.ip && t'.ip[n] == t.ip[n]
    {
      var i :| 0 <= i < |leases| && leases[i] == t.ip[n];
      assert leases[i].num == n;
    }
    forall n | n in t'.ip
      ensures n in t.ip
    {
      var i :| 0 <= i < |leases| && leases[i] == t'.ip[n];
      assert leases[i].num == n;
    }
    assert t'.ip == t.ip;
  }

  predicate Publishing(r: Reply) {
    r.Ack? || r.HostnameSet?
  }

  /** What a call does to the list last handed to the callback: after an ACK or
      a rename it is a snapshot of the new table, otherwise it stays as it was. */
  ghost predicate Publishes(r: Reply, t: Table, was: seq<Lease>, now: seq<Lease>) {
    if Publishing(r) then Snapshot(now, t) else now == was
  }

  /** A list is a snapshot of one set of leases only. */
  lemma SnapshotDetermines(leases: seq<Lease>, t: Table, t': Table)
    requires Inv(t) && Inv(t') && Snapshot(leases, t)
    ensures Snapshot(leases, t') <==> t'.ip == t.ip
  {
    if Snapshot(leases, t') {
      SnapshotIncluded(leases, t, t');
      SnapshotIncluded(leases, t', t);
      SameLeases(t, t');
    }
  }

  lemma SameLeases(t: Table, t': Table)
    requires forall n :: n in t.ip ==> n in t'.ip && t'.ip[n] == t.ip[n]
    requires forall n :: n in t'.ip ==> n in t.ip
    ensures t.ip == t'.ip
  {
    forall n: int
      ensures n in t.ip.Keys <==> n in t'.ip.Keys
    {
    }
    forall n | n in t.ip
      ensures t.ip[n] == t'.ip[n]
    {
    }
  }

  lemma SnapshotIncluded(leases: seq<Lease>, t: Table, t': Table)
    requires Inv(t) && Snapshot(leases, t) && Snapshot(leases, t')
    ensures forall n :: n in t.ip ==> n in t'.ip && t'.ip[n] == t.ip[n]
  {
    forall n | n in t.ip
      ensures n in t'.ip && t'.ip[n] == t.ip[n]
    {
      var i :| 0 <= i < |leases| && leases[i] == t.ip[n];
      assert leases[i].num == n;
    }
  }

  /** A Decline is not handed to the callback, so the last snapshot goes out of
      date exactly when the Decline changes an expiry. */
  lemma DeclineOutdatesSnapshot(leases: seq<Lease>, t: Table, client: string, wallClock: int)
    requires Inv(t) && Snapshot(leases, t)
    ensures Snapshot(leases, ExpireLease(t, client, wallClock)) <==>
            LeaseHW(t, client).None? || LeaseHW(t, client).value.expiry == wallClock
  {
    LeaseHWIsTheSlot(t, client);
    if LeaseHW(t, client).Some? {
      var l := LeaseHW(t, client).value;
      var t' := ExpireLease(t, client, wallClock);
      var i :| 0 <= i < |leases| && leases[i] == l;
      assert t'.ip[l.num] == l.(expiry := wallClock);
      if l.expiry == wallClock { assert t'.ip == t.ip; }
    }
  }

  /** A hostname can be set exactly for a client that holds an unexpired lease.
      Without a lease the call dereferences nil exactly when the slot hw gives
      for the client, 0 if it gives none, is empty. */
  lemma RenameExact(t: Table, client: string, name: string, now: int)
    requires Inv(t)
    ensures var (t', r) := Rename(t, client, name, now);
            match LeaseHW(t, client)
            case None => t' == t && r == if HostnameSlot(t, client) in t.ip then HostnameRefused else Crash
            case Some(l) =>
              if l.Expired(now) then t' == t && r == HostnameRefused
              else r == HostnameSet && t'.hw == t.hw &&
                   t'.ip == t.ip[l.num := l.(hostname := name, hostnameOverride := name)]
    ensures Rename(t, client, name, now).1 == Crash <==> HostnameSlot(t, client) !in t.ip
  {
    LeaseHWIsTheSlot(t, client);
  }

  lemma RenameKeepsInv(t: Table, client: string, name: string, now: int)
    requires Inv(t)
    ensures Inv(Rename(t, client, name, now).0)
  {
  }

  lemma ExpireKeepsInv(t: Table, client: string, wallClock: int)
    requires Inv(t)
    ensures Inv(ExpireLease(t, client, wallClock))
  {
  }

  function ClientOf(m: Message): string {
    match m
    case Discover(p, _) => p.hwAddr
    case Request(p) => p.hwAddr
    case Decline(p, _) => p.hwAddr
    case SetHostname(hwAddr, _) => hwAddr
    case Unsupported => ""
  }

  /** Renaming a client without a lease, when one table finds an entry for it
      and the other does not. */
  predicate IndexShows(t: Table, t': Table, m: Message) {
    && m.SetHostname?
    && LeaseHW(t, m.hwAddr).None?
    && (HostnameSlot(t, m.hwAddr) in t.ip) != (HostnameSlot(t', m.hwAddr) in t'.ip)
  }

  /** Tables with the same leases keep having the same leases, and they answer
      alike except where a rename without a lease is refused by one and crashes
      in the other. */
  lemma IndexIsInvisible(cfg: Config, t: Table, t': Table, e: Event)
    requires Inv(t) && Inv(t') && t.ip == t'.ip
    ensures Step(cfg, t, e).0.ip == Step(cfg, t', e).0.ip
    ensures Step(cfg, t, e).1 == Step(cfg, t', e).1 <==> !IndexShows(t, t', e.msg)
  {
    var client := ClientOf(e.msg);
    SameLease(t, t', client);
    match e.msg
    case Discover(p, dice) => FindLeaseByLeases(t, t', e.t2, dice);
    case SetHostname(hwAddr, name) =>
      RenameExact(t, hwAddr, name, e.t0);
      RenameExact(t', hwAddr, name, e.t0);
    case Decline(p, wallClock) =>
      LeaseHWIsTheSlot(t, client);
      LeaseHWIsTheSlot(t', client);
    case _ =>
  }

  lemma SameLease(t: Table, t': Table, client: string)
    requires Inv(t) && Inv(t') && t.ip == t'.ip
    ensures LeaseHW(t, client) == LeaseHW(t', client)
  {
    LeaseHWIsTheSlot(t, client);
    LeaseHWIsTheSlot(t', client);
  }

  lemma {:induction false} FirstFreeByLeases(t: Table, t': Table, now: int, from: nat)
    requires t.ip == t'.ip && from <= LEASE_RANGE
    ensures FirstFree(t, now, from) == FirstFree(t', now, from)
    decreases LEASE_RANGE - from
  {
    if from < LEASE_RANGE { FirstFreeByLeases(t, t', now, from + 1); }
  }

  lemma FindLeaseByLeases(t: Table, t': Table, now: int, dice: Slot)
    requires t.ip == t'.ip
    ensures FindLease(t, now, dice) == FindLease(t', now, dice)
  {
    FirstFreeByLeases(t, t', now, 0);
  }

  // ------------------------------------------------------------- free slots

  function Range(n: nat): (r: set<int>)
    ensures |r| == n && forall k :: k in r <==> 0 <= k < n
  {
    if n == 0 then {} else Range(n - 1) + {n - 1}
  }

  lemma SubsetSize<T>(a: set<T>, b: set<T>)
    requires a <= b
    ensures |a| <= |b|
    ensures |a| == |b| ==> a == b
  {
    assert b == a + (b - a);
    assert |b| == |a| + |b - a|;
  }

  /** Pigeonhole: the table is full by count exactly when every slot is taken. */
  lemma FullByCount(t: Table)
    requires Inv(t)
    ensures |t.ip| >= LEASE_RANGE <==> forall n :: 0 <= n < LEASE_RANGE ==> n in t.ip
  {
    hide Range;
    var slots := Range(LEASE_RANGE);
    assert t.ip.Keys <= slots;
    hide Inv;
    SubsetSize(t.ip.Keys, slots);
    assert |t.ip| == |t.ip.Keys|;
    if forall n :: 0 <= n < LEASE_RANGE ==> n in t.ip {
      SubsetSize(slots, t.ip.Keys);
    }
  }

  lemma {:induction false} FirstFreeFinds(t: Table, now: int, from: nat)
    requires from <= LEASE_RANGE
    ensures var r := FirstFree(t, now, from);
            if r == -1 then forall n :: from <= n < LEASE_RANGE ==> !Free(t, n, now)
            else from <= r < LEASE_RANGE && Free(t, r, now) && forall n :: from <= n < r ==> !Free(t, n, now)
    decreases LEASE_RANGE - from
  {
    if from < LEASE_RANGE && !Free(t, from, now) { FirstFreeFinds(t, now, from + 1); }
  }

  /** For every random choice: a slot that is absent or expired, unless every
      slot has an entry, in which case there is none even when some have expired. */
  lemma FindLeaseExact(t: Table, now: int, dice: Slot)
    requires Inv(t)
    ensures FindLease(t, now, dice) == -1 <==> forall n :: 0 <= n < LEASE_RANGE ==> n in t.ip
    ensures FindLease(t, now, dice) != -1 ==>
              0 <= FindLease(t, now, dice) < LEASE_RANGE && Free(t, FindLease(t, now, dice), now)
  {
    FullByCount(t);
    FirstFreeFinds(t, now, 0);
    if |t.ip| < LEASE_RANGE {
      var n :| 0 <= n < LEASE_RANGE && n !in t.ip;
      assert Free(t, n, now);
    }
  }

  lemma OfferedSlotInRange(cfg: Config, t: Table, p: Packet, dice: Slot, t0: int, t1: int, t2: int)
    requires Inv(t)
    ensures -1 <= OfferedSlot(cfg, t, p, dice, t0, t1, t2) < LEASE_RANGE
  {
    FindLeaseExact(t, t2, dice);
    LeaseHWIsTheSlot(t, p.hwAddr);
  }

  /** A Discover stays unanswered exactly when the client has no unexpired lease,
      cannot have the address it asks for, and every slot has an entry. */
  lemma DiscoverIsSilent(cfg: Config, t: Table, e: Event)
    requires Inv(t) && e.msg.Discover?
    ensures var p, own := e.msg.p, LeaseHW(t, e.msg.p.hwAddr);
            Step(cfg, t, e).1 == Silent <==>
            && (own.None? || own.value.Expired(e.t1))
            && CanLease(cfg.start, t, p.asked, p.hwAddr, e.t0) == -1
            && forall n :: 0 <= n < LEASE_RANGE ==> n in t.ip
  {
    FindLeaseExact(t, e.t2, e.msg.dice);
    OfferedSlotInRange(cfg, t, e.msg.p, e.msg.dice, e.t0, e.t1, e.t2);
    LeaseHWIsTheSlot(t, e.msg.p.hwAddr);
  }

  /** Finding nothing while a slot could be had: exactly when the table is full
      and one of its entries has expired. */
  lemma FindLeaseMisses(t: Table, now: int, dice: Slot)
    requires Inv(t)
    ensures (FindLease(t, now, dice) == -1 && exists n :: 0 <= n < LEASE_RANGE && Free(t, n, now)) <==>
            ((forall n :: 0 <= n < LEASE_RANGE ==> n in t.ip) && exists n :: n in t.ip && t.ip[n].Expired(now))
  {
    FindLeaseExact(t, now, dice);
    if n :| n in t.ip && t.ip[n].Expired(now) {
      assert Free(t, n, now);
    }
  }
}
