/** A DHCP request as the server runs it: in sections that each hold the lock,
    between which hostnames may be set from outside (dhcp4d). */
module LeaseRaces {
  import opened Bytes
  import opened Addresses
  import opened LeaseTable

  /** The request packet and the readings of the clock it is handled with. */
  datatype Job = Job(cfg: Config, p: Packet, t0: int, t1: int)

  /** How far the request has come. prior is the slot of the lease object that
      leaseHW returned; lease is the new lease, not in the table yet. */
  datatype Progress =
    | Arrived
    | Checked(n: int)
    | Found(n: int, prior: Option<int>)
    | Filled(prior: Option<int>, lease: Lease)
    | Released(lease: Lease)
    | Answered(reply: Reply)

  datatype State = State(t: Table, at: Progress)

  /** The server goes on to its next section, or someone sets a hostname. */
  datatype Move = Proceed | SetName(client: string, name: string, now: int)

  function PlainLease(q: Job, n: int): Lease
    requires q.p.asked.Some?
  {
    Lease(n, q.p.asked.value, q.p.hwAddr, q.p.hostname, "", q.t1 + q.cfg.period(q.p.hwAddr))
  }

  /** The slot a lookup by client leads to. */
  function PriorSlot(t: Table, client: string): Option<int> {
    if LeaseHW(t, client).Some? then Some(t.hw[client]) else None
  }

  /** The lease as filled in from the object found before, with the names that object has by now. */
  function Fill(q: Job, t: Table, n: int, prior: Option<int>): Lease
    requires q.p.asked.Some?
  {
    if prior.Some? && prior.value in t.ip then Carried(PlainLease(q, n), t.ip[prior.value]) else PlainLease(q, n)
  }

  /** The next section of the request. */
  function Section(q: Job, t: Table, at: Progress): State {
    match at
    case Arrived =>
      if !q.p.ForServer(q.cfg.server) then State(t, Answered(Silent))
      else
        var n := CanLease(q.cfg.start, t, q.p.asked, q.p.hwAddr, q.t0);
        State(t, if n == -1 then Answered(Nak) else Checked(n))
    case Checked(n) => State(t, Found(n, PriorSlot(t, q.p.hwAddr)))
    case Found(n, prior) =>
      State(t, if q.p.asked.Some? then Filled(prior, Fill(q, t, n, prior)) else Answered(Crash))
    case Filled(prior, lease) =>
      State(if prior.Some? then t.(ip := t.ip - {prior.value}) else t, Released(lease))
    case Released(lease) =>
      State(Table(t.hw[lease.hwAddr := lease.num], t.ip[lease.num := lease]),
            Answered(Ack(lease.addr, q.cfg.period(lease.hwAddr))))
    case Answered(_) => State(t, at)
  }

  /** Until the request is answered; what comes after is another call. */
  function Next(q: Job, s: State, m: Move): State {
    if s.at.Answered? then s
    else
      match m
      case Proceed => Section(q, s.t, s.at)
      case SetName(client, name, now) => s.(t := Rename(s.t, client, name, now).0)
  }

  function Run(q: Job, t: Table, moves: seq<Move>): State {
    if moves == [] then State(t, Arrived) else Next(q, Run(q, t, moves[..|moves| - 1]), moves[|moves| - 1])
  }

  /** Whether a hostname set now is one the request takes into account: that of
      another client, or the client's own before its names were read. */
  predicate Counts(q: Job, at: Progress, client: string) {
    !at.Answered? && (client != q.p.hwAddr || !(at.Filled? || at.Released?))
  }

  /** The table with only the hostnames set that count. */
  function Shadow(q: Job, t: Table, moves: seq<Move>): Table {
    if moves == [] then t
    else
      var init, last := moves[..|moves| - 1], moves[|moves| - 1];
      var u := Shadow(q, t, init);
      if last.SetName? && Counts(q, Run(q, t, init).at, last.client) then Rename(u, last.client, last.name, last.now).0
      else u
  }

  // --------------------------------------------------------- what renaming keeps

  /** Renaming moves nothing: slots, holders, addresses and expiries stay. */
  lemma RenameMoves(t: Table, client: string, name: string, now: int)
    requires Inv(t)
    ensures var t' := Rename(t, client, name, now).0;
            && Inv(t') && t'.hw == t.hw && t'.ip.Keys == t.ip.Keys
            && (forall n :: n in t.ip ==>
                  t'.ip[n] == t.ip[n].(hostname := t'.ip[n].hostname, hostnameOverride := t'.ip[n].hostnameOverride))
            && (forall n :: n in t.ip && t.ip[n].hwAddr != client ==> t'.ip[n] == t.ip[n])
  {
    RenameKeepsInv(t, client, name, now);
    RenameExact(t, client, name, now);
    LeaseHWIsTheSlot(t, client);
  }

  lemma RenameKeepsCheck(q: Job, t: Table, client: string, name: string, now: int)
    requires Inv(t)
    ensures CanLease(q.cfg.start, Rename(t, client, name, now).0, q.p.asked, q.p.hwAddr, q.t0) ==
            CanLease(q.cfg.start, t, q.p.asked, q.p.hwAddr, q.t0)
    ensures PriorSlot(Rename(t, client, name, now).0, q.p.hwAddr) == PriorSlot(t, q.p.hwAddr)
  {
    RenameMoves(t, client, name, now);
    hide Rename;
  }

  lemma RenameOther(t: Table, client: string, other: string, name: string, now: int)
    requires Inv(t) && client != other
    ensures LeaseHW(Rename(t, other, name, now).0, client) == LeaseHW(t, client)
  {
    RenameMoves(t, other, name, now);
    hide Rename;
  }

  // ----------------------------------------------------------------- invariant

  /** The tables agree except on the client's names. */
  ghost predicate SameBut(t: Table, u: Table, client: string) {
    && t.hw == u.hw && t.ip.Keys == u.ip.Keys
    && (forall n :: n in u.ip ==> t.ip[n].hwAddr == u.ip[n].hwAddr && t.ip[n].num == u.ip[n].num)
    && (forall n :: n in u.ip && u.ip[n].hwAddr != client ==> t.ip[n] == u.ip[n])
  }

  /** The tables agree except that t lacks the client's lease. */
  ghost predicate SameWithout(t: Table, u: Table, client: string) {
    && t.hw == u.hw
    && (forall n :: n in t.ip <==> n in u.ip && u.ip[n].hwAddr != client)
    && (forall n :: n in t.ip ==> t.ip[n] == u.ip[n])
  }

  predicate Granted(q: Job, u: Table, n: int) {
    && q.p.ForServer(q.cfg.server) && q.p.asked.Some?
    && n == CanLease(q.cfg.start, u, q.p.asked, q.p.hwAddr, q.t0) && n != -1
  }

  predicate NewIn(q: Job, u: Table, lease: Lease) {
    Granted(q, u, lease.num) && lease == NewLease(q.cfg, u, q.p, lease.num, q.p.asked.value, q.t1)
  }

  /** How the table of a request on its way relates to the shadow table u. */
  ghost predicate Follows(q: Job, u: Table, s: State) {
    && Inv(u)
    && match s.at
       case Arrived => s.t == u
       case Checked(n) => s.t == u && Granted(q, u, n)
       case Found(n, prior) => s.t == u && Granted(q, u, n) && prior == PriorSlot(u, q.p.hwAddr)
       case Filled(prior, lease) =>
         SameBut(s.t, u, q.p.hwAddr) && prior == PriorSlot(u, q.p.hwAddr) && NewIn(q, u, lease)
       case Released(lease) => SameWithout(s.t, u, q.p.hwAddr) && NewIn(q, u, lease)
       case Answered(r) => (s.t, r) == HandleRequest(q.cfg, u, q.p, q.t0, q.t1)
  }

  lemma FillIsNew(q: Job, u: Table, n: int)
    requires Inv(u) && Granted(q, u, n)
    ensures NewIn(q, u, Fill(q, u, n, PriorSlot(u, q.p.hwAddr)))
  {
    LeaseHWIsTheSlot(u, q.p.hwAddr);
  }

  lemma ReleaseFollows(q: Job, t: Table, u: Table)
    requires Inv(u) && SameBut(t, u, q.p.hwAddr)
    ensures var prior := PriorSlot(u, q.p.hwAddr);
            SameWithout(if prior.Some? then t.(ip := t.ip - {prior.value}) else t, u, q.p.hwAddr)
  {
    LeaseHWIsTheSlot(u, q.p.hwAddr);
  }

  lemma StoreFollows(q: Job, t: Table, u: Table, lease: Lease)
    requires Inv(u) && SameWithout(t, u, q.p.hwAddr) && NewIn(q, u, lease)
    ensures Table(t.hw[lease.hwAddr := lease.num], t.ip[lease.num := lease]) == Put(u, q.p.hwAddr, lease.num, lease)
    ensures lease.hwAddr == q.p.hwAddr && lease.addr == q.p.asked.value
  {
    hide CanLease;
    LeaseHWIsTheSlot(u, q.p.hwAddr);
    var prior := LeaseHW(u, q.p.hwAddr);
    var kept := if prior.Some? then u.ip - {prior.value.num} else u.ip;
    forall n: int
      ensures n in t.ip.Keys <==> n in kept.Keys
    {
    }
    forall n | n in t.ip
      ensures t.ip[n] == kept[n]
    {
    }
    assert t.ip == kept;
  }

  lemma SectionFollows(q: Job, u: Table, s: State)
    requires Follows(q, u, s) && !s.at.Answered?
    ensures Follows(q, u, Section(q, s.t, s.at))
  {
    hide CanLease;
    hide Inv;
    match s.at
    case Arrived =>
      if q.p.ForServer(q.cfg.server) { GrantedAsks(q, u); }
    case Checked(n) =>
    case Found(n, prior) =>
      hide NewLease;
      FillIsNew(q, u, n);
    case Filled(prior, lease) =>
      hide NewLease;
      ReleaseFollows(q, s.t, u);
    case Released(lease) =>
      StoreFollows(q, s.t, u, lease);
      hide NewLease;
      hide SameWithout;
  }

  lemma GrantedAsks(q: Job, u: Table)
    ensures CanLease(q.cfg.start, u, q.p.asked, q.p.hwAddr, q.t0) != -1 ==> q.p.asked.Some?
  {
  }

  /** A hostname set in between is followed, if it counts, by the same one in the shadow. */
  lemma RenameFollows(q: Job, u: Table, s: State, client: string, name: string, now: int)
    requires Follows(q, u, s) && !s.at.Answered?
    ensures Follows(q, if Counts(q, s.at, client) then Rename(u, client, name, now).0 else u,
                    s.(t := Rename(s.t, client, name, now).0))
  {
    hide CanLease;
    hide NewLease;
    RenameMoves(u, client, name, now);
    RenameKeepsCheck(q, u, client, name, now);
    match s.at
    case Filled(prior, lease) => RenameFilled(q, u, s.t, client, name, now, lease);
    case Released(lease) => RenameReleased(q, u, s.t, client, name, now, lease);
    case _ =>
  }

  lemma NewStays(q: Job, u: Table, client: string, name: string, now: int, lease: Lease)
    requires Inv(u) && NewIn(q, u, lease) && client != q.p.hwAddr
    ensures NewIn(q, Rename(u, client, name, now).0, lease)
  {
    RenameKeepsCheck(q, u, client, name, now);
    RenameOther(u, q.p.hwAddr, client, name, now);
    hide Rename;
    hide CanLease;
    hide LeaseHW;
  }

  lemma RenameFilled(q: Job, u: Table, t: Table, client: string, name: string, now: int, lease: Lease)
    requires Inv(u) && SameBut(t, u, q.p.hwAddr) && NewIn(q, u, lease)
    ensures var u' := if client != q.p.hwAddr then Rename(u, client, name, now).0 else u;
            SameBut(Rename(t, client, name, now).0, u', q.p.hwAddr) && NewIn(q, u', lease)
  {
    if client != q.p.hwAddr { NewStays(q, u, client, name, now, lease); }
    hide NewIn;
  }

  lemma RenameReleased(q: Job, u: Table, t: Table, client: string, name: string, now: int, lease: Lease)
    requires Inv(u) && SameWithout(t, u, q.p.hwAddr) && NewIn(q, u, lease)
    ensures var u' := if client != q.p.hwAddr then Rename(u, client, name, now).0 else u;
            SameWithout(Rename(t, client, name, now).0, u', q.p.hwAddr) && NewIn(q, u', lease)
  {
    if client != q.p.hwAddr { NewStays(q, u, client, name, now, lease); }
    hide NewIn;
  }

  lemma {:induction false} RunFollows(q: Job, t: Table, moves: seq<Move>)
    requires Inv(t)
    ensures Follows(q, Shadow(q, t, moves), Run(q, t, moves))
  {
    hide Follows;
    hide Section;
    hide Rename;
    if moves == [] {
      StartFollows(q, t);
    } else {
      var init, m := moves[..|moves| - 1], moves[|moves| - 1];
      RunFollows(q, t, init);
      var u, s := Shadow(q, t, init), Run(q, t, init);
      if !s.at.Answered? {
        match m
        case Proceed => SectionFollows(q, u, s);
        case SetName(client, name, now) => RenameFollows(q, u, s, client, name, now);
      }
    }
  }

  lemma StartFollows(q: Job, t: Table)
    requires Inv(t)
    ensures Follows(q, t, State(t, Arrived))
  {
  }

  // ------------------------------------------------------------------ theorems

  /** However the two interleave, a request answers and changes the table as one
      undivided call would, made after the hostnames were set that count. The
      client's own hostnames set once its names were read have no effect. */
  lemma RequestIsUndivided(q: Job, t: Table, moves: seq<Move>)
    requires Inv(t) && Run(q, t, moves).at.Answered?
    ensures var s := Run(q, t, moves);
            (s.t, s.at.reply) == HandleRequest(q.cfg, Shadow(q, t, moves), q.p, q.t0, q.t1)
  {
    RunFollows(q, t, moves);
    hide HandleRequest;
    hide Inv;
  }

  predicate SetsNone(moves: seq<Move>, client: string) {
    forall i :: 0 <= i < |moves| ==> !(moves[i].SetName? && moves[i].client == client)
  }

  /** The client's lease has the override name. */
  predicate Named(t: Table, client: string, name: string) {
    LeaseHW(t, client).Some? && LeaseHW(t, client).value.hostnameOverride == name
  }

  lemma RunSplit(q: Job, t: Table, a: seq<Move>, m: Move)
    ensures Run(q, t, a + [m]) == Next(q, Run(q, t, a), m)
    ensures Shadow(q, t, a + [m]) ==
            if m.SetName? && Counts(q, Run(q, t, a).at, m.client)
            then Rename(Shadow(q, t, a), m.client, m.name, m.now).0 else Shadow(q, t, a)
  {
    assert (a + [m])[..|a|] == a;
  }

  /** A name that counted stays in the shadow. */
  lemma {:induction false} NameStays(q: Job, t: Table, a: seq<Move>, b: seq<Move>, name: string)
    requires Inv(t) && Named(Shadow(q, t, a), q.p.hwAddr, name) && SetsNone(b, q.p.hwAddr)
    ensures Named(Shadow(q, t, a + b), q.p.hwAddr, name)
  {
    hide LeaseHW;
    hide Rename;
    hide Follows;
    if b == [] {
      assert a + b == a;
    } else {
      var init, m := b[..|b| - 1], b[|b| - 1];
      assert SetsNone(init, q.p.hwAddr);
      NameStays(q, t, a, init, name);
      assert a + b == (a + init) + [m];
      RunSplit(q, t, a + init, m);
      if m.SetName? {
        ShadowValid(q, t, a + init);
        assert m.client != q.p.hwAddr;
        RenameOther(Shadow(q, t, a + init), q.p.hwAddr, m.client, m.name, m.now);
      }
    }
  }

  lemma ShadowValid(q: Job, t: Table, moves: seq<Move>)
    requires Inv(t)
    ensures Inv(Shadow(q, t, moves))
  {
    RunFollows(q, t, moves);
    hide Inv;
  }

  /** Once filled, the new lease is what ends up in the table. */
  predicate Carries(s: State, lease: Lease) {
    match s.at
    case Filled(_, l) => l == lease
    case Released(l) => l == lease
    case Answered(_) => LeaseHW(s.t, lease.hwAddr) == Some(lease)
    case _ => false
  }

  lemma {:induction false} FilledStays(q: Job, t: Table, a: seq<Move>, b: seq<Move>, lease: Lease)
    requires Carries(Run(q, t, a), lease)
    ensures Carries(Run(q, t, a + b), lease)
  {
    if b == [] {
      assert a + b == a;
    } else {
      var init, m := b[..|b| - 1], b[|b| - 1];
      FilledStays(q, t, a, init, lease);
      assert a + b == (a + init) + [m];
      RunSplit(q, t, a + init, m);
      hide Rename;
    }
  }

  lemma GrantKeepsName(q: Job, u: Table, name: string)
    requires Inv(u) && Named(u, q.p.hwAddr, name) && HandleRequest(q.cfg, u, q.p, q.t0, q.t1).1.Ack?
    ensures Named(HandleRequest(q.cfg, u, q.p, q.t0, q.t1).0, q.p.hwAddr, name)
  {
  }

  /** Setting a hostname during the client's own request, answered with success
      and not followed by another: it is the override of the lease the request
      ends with, unless the names were read already; then it is lost, the lease
      keeping the name it was filled with. */
  lemma OverrideLostExactly(q: Job, t: Table, a: seq<Move>, name: string, now: int, b: seq<Move>)
    requires Inv(t) && SetsNone(b, q.p.hwAddr)
    requires !Run(q, t, a).at.Answered? && Rename(Run(q, t, a).t, q.p.hwAddr, name, now).1 == HostnameSet
    requires var at := Run(q, t, a + [SetName(q.p.hwAddr, name, now)] + b).at; at.Answered? && at.reply.Ack?
    ensures var s, s' := Run(q, t, a), Run(q, t, a + [SetName(q.p.hwAddr, name, now)] + b);
            && LeaseHW(s'.t, q.p.hwAddr).Some?
            && (Named(s'.t, q.p.hwAddr, name) <==> (s.at.Filled? ==> s.at.lease.hostnameOverride == name))
  {
    var client, m := q.p.hwAddr, SetName(q.p.hwAddr, name, now);
    var s := Run(q, t, a);
    RunSplit(q, t, a, m);
    RunFollows(q, t, a);
    if s.at.Filled? {
      FilledStays(q, t, a + [m], b, s.at.lease);
      assert s.at.lease.hwAddr == client;
    } else {
      SuccessNeedsLease(q, Shadow(q, t, a), s, name, now);
      NamedNow(s.t, client, name, now);
      NameStays(q, t, a + [m], b, name);
      RequestIsUndivided(q, t, a + [m] + b);
      ShadowValid(q, t, a + [m] + b);
      GrantKeepsName(q, Shadow(q, t, a + [m] + b), name);
    }
  }

  /** Between release and store the client's lease is in no table, and its rename fails. */
  lemma SuccessNeedsLease(q: Job, u: Table, s: State, name: string, now: int)
    requires Follows(q, u, s) && Rename(s.t, q.p.hwAddr, name, now).1 == HostnameSet
    ensures !s.at.Released?
  {
  }

  lemma NamedNow(t: Table, client: string, name: string, now: int)
    requires Inv(t) && Rename(t, client, name, now).1 == HostnameSet
    ensures Named(Rename(t, client, name, now).0, client, name)
  {
    RenameExact(t, client, name, now);
    LeaseHWIsTheSlot(t, client);
  }

  /** Every granted request of a client with an unexpired lease can lose an
      override this way: set once the names were read, answered with success, gone after the ACK. */
  lemma OverrideCanBeLost(q: Job, t: Table, name: string, now: int)
    requires Inv(t) && HandleRequest(q.cfg, t, q.p, q.t0, q.t1).1.Ack?
    requires LeaseHW(t, q.p.hwAddr).Some? && !LeaseHW(t, q.p.hwAddr).value.Expired(now)
    requires name != LeaseHW(t, q.p.hwAddr).value.hostnameOverride
    ensures var a, b := [Proceed, Proceed, Proceed], [Proceed, Proceed];
            var s' := Run(q, t, a + [SetName(q.p.hwAddr, name, now)] + b);
            && Rename(Run(q, t, a).t, q.p.hwAddr, name, now).1 == HostnameSet
            && s'.at == Answered(HandleRequest(q.cfg, t, q.p, q.t0, q.t1).1)
            && Named(s'.t, q.p.hwAddr, LeaseHW(t, q.p.hwAddr).value.hostnameOverride)
            && !Named(s'.t, q.p.hwAddr, name)
  {
    var a: seq<Move> := [Proceed, Proceed, Proceed];
    ReadNames(q, t);
    var m := SetName(q.p.hwAddr, name, now);
    var c: seq<Move> := a + [m] + [Proceed, Proceed];
    assert c == (a + [m] + [Proceed]) + [Proceed];
    RunSplit(q, t, a, m);
    RunSplit(q, t, a + [m], Proceed);
    RunSplit(q, t, a + [m] + [Proceed], Proceed);
    RenameExact(t, q.p.hwAddr, name, now);
    RequestIsUndivided(q, t, c);
    assert Shadow(q, t, c) == t;
    GrantKeepsName(q, t, LeaseHW(t, q.p.hwAddr).value.hostnameOverride);
  }

  /** The first three sections of a granted request only read. */
  lemma FirstSections(q: Job, t: Table)
    requires HandleRequest(q.cfg, t, q.p, q.t0, q.t1).1.Ack?
    ensures var s1 := Section(q, t, Arrived);
            var s2 := Section(q, t, s1.at);
            var s3 := Section(q, t, s2.at);
            s1.t == s2.t == s3.t == t && s1.at.Checked? && s2.at.Found? && s3.at.Filled?
  {
    hide CanLease;
    hide LeaseHW;
    GrantedAsks(q, t);
  }

  lemma NoMoves(q: Job, t: Table)
    ensures Run(q, t, []) == State(t, Arrived) && Shadow(q, t, []) == t
  {
  }

  lemma ProceedOnce(q: Job, t: Table, a: seq<Move>)
    ensures Run(q, t, a + [Proceed]) == Next(q, Run(q, t, a), Proceed)
    ensures Shadow(q, t, a + [Proceed]) == Shadow(q, t, a)
  {
    RunSplit(q, t, a, Proceed);
    hide *;
  }

  lemma ReadNames(q: Job, t: Table)
    requires HandleRequest(q.cfg, t, q.p, q.t0, q.t1).1.Ack?
    ensures var s := Run(q, t, [Proceed, Proceed, Proceed]);
            s.t == t && s.at.Filled? && Shadow(q, t, [Proceed, Proceed, Proceed]) == t
  {
    FirstSections(q, t);
    NoMoves(q, t);
    hide Section;
    hide HandleRequest;
    hide Run;
    hide Shadow;
    ProceedOnce(q, t, []);
    ProceedOnce(q, t, [] + [Proceed]);
    ProceedOnce(q, t, [] + [Proceed] + [Proceed]);
    assert [] + [Proceed] + [Proceed] + [Proceed] == [Proceed, Proceed, Proceed];
  }

  // ------------------------------------------------------------------ discovers

  /** The table after hostnames were set. */
  function Renamed(t: Table, moves: seq<Move>): Table {
    if moves == [] then t
    else
      var u, m := Renamed(t, moves[..|moves| - 1]), moves[|moves| - 1];
      if m.SetName? then Rename(u, m.client, m.name, m.now).0 else u
  }

  /** The slot a Discover is offered when its three sections find the tables a, b and c. */
  function OfferedAcross(cfg: Config, a: Table, b: Table, c: Table, p: Packet, dice: Slot,
                         t0: int, t1: int, t2: int): int
  {
    var wanted := CanLease(cfg.start, a, p.asked, p.hwAddr, t0);
    var previous := LeaseHW(b, p.hwAddr);
    if previous.Some? && !previous.value.Expired(t1) then previous.value.num
    else if wanted != -1 then wanted
    else FindLease(c, t2, dice)
  }

  /** The tables have the same slots, holders and expiries. */
  ghost predicate SameSlots(t: Table, u: Table) {
    && t.hw == u.hw && t.ip.Keys == u.ip.Keys
    && (forall n :: n in u.ip ==>
          t.ip[n].hwAddr == u.ip[n].hwAddr && t.ip[n].num == u.ip[n].num && t.ip[n].expiry == u.ip[n].expiry)
  }

  lemma {:induction false} RenamedKeepsSlots(t: Table, moves: seq<Move>)
    requires Inv(t)
    ensures Inv(Renamed(t, moves)) && SameSlots(Renamed(t, moves), t)
  {
    hide Rename;
    if moves != [] {
      var u, m := Renamed(t, moves[..|moves| - 1]), moves[|moves| - 1];
      RenamedKeepsSlots(t, moves[..|moves| - 1]);
      if m.SetName? { RenameMoves(u, m.client, m.name, m.now); }
    }
  }

  lemma {:induction false} FirstFreeBySlots(t: Table, u: Table, now: int, from: nat)
    requires SameSlots(t, u) && from <= LEASE_RANGE
    ensures FirstFree(t, now, from) == FirstFree(u, now, from)
    decreases LEASE_RANGE - from
  {
    if from < LEASE_RANGE { FirstFreeBySlots(t, u, now, from + 1); }
  }

  /** Hostnames set while a Discover is handled do not change what it is offered. */
  lemma DiscoverIsUndivided(cfg: Config, t: Table, early: seq<Move>, later: seq<Move>, p: Packet, dice: Slot,
                            t0: int, t1: int, t2: int)
    requires Inv(t)
    ensures var b := Renamed(t, early);
            OfferedAcross(cfg, t, b, Renamed(b, later), p, dice, t0, t1, t2) == OfferedSlot(cfg, t, p, dice, t0, t1, t2)
  {
    var b := Renamed(t, early);
    var c := Renamed(b, later);
    RenamedKeepsSlots(t, early);
    RenamedKeepsSlots(b, later);
    hide Inv;
    hide Renamed;
    LeaseBySlots(b, t, p.hwAddr);
    SlotsTransitive(c, b, t);
    FindBySlots(c, t, t2, dice);
    hide SameSlots;
    hide FindLease;
    hide LeaseHW;
    hide CanLease;
  }

  lemma LeaseBySlots(t: Table, u: Table, client: string)
    requires SameSlots(t, u)
    ensures LeaseHW(t, client).Some? == LeaseHW(u, client).Some?
    ensures LeaseHW(t, client).Some? ==>
              && LeaseHW(t, client).value.num == LeaseHW(u, client).value.num
              && LeaseHW(t, client).value.expiry == LeaseHW(u, client).value.expiry
  {
    if client in t.hw {
      var n := t.hw[client];
      assert n in t.ip.Keys <==> n in u.ip.Keys;
      assert n in u.ip ==> t.ip[n].hwAddr == u.ip[n].hwAddr;
    }
  }

  lemma SlotsTransitive(t: Table, u: Table, v: Table)
    requires SameSlots(t, u) && SameSlots(u, v)
    ensures SameSlots(t, v)
  {
  }

  lemma FindBySlots(t: Table, u: Table, now: int, dice: Slot)
    requires SameSlots(t, u)
    ensures FindLease(t, now, dice) == FindLease(u, now, dice)
  {
    FirstFreeBySlots(t, u, now, 0);
    assert |t.ip| == |t.ip.Keys| && |u.ip| == |u.ip.Keys|;
    assert Free(t, dice, now) == Free(u, dice, now);
    hide FirstFree;
    hide Free;
  }
}
