/** Packet capture as a system of concurrent steps: packets arrive on two
    interfaces, the main program moves its copies into the ring, and SSH sessions
    open capture handles and copy the ring while they hold the ring's lock
    (cmd/captured). Packets are numbered in order of arrival. */
module CaptureSession {
  import opened PacketRing

  datatype Iface = Uplink | Lan

  datatype Phase =
    | Waiting  // for the ring's lock
    | Opening  // lock held, opening capture handles
    | Copied   // lock held, ring copied
    | Running  // lock released, sending
    | Ended    // returned with an error

  /** queues holds what each open handle has received and the session has not
      read; received and snapshot record the handles' input and the ring copied. */
  datatype Session = Session(phase: Phase, queues: map<Iface, seq<nat>>, received: map<Iface, seq<nat>>,
                             snapshot: seq<nat>, buffered: seq<nat>, sent: seq<nat>)

  /** arrivals[i] is the interface packet i arrived on. The main program's
      handles feed mainQueues, hand is the packet it is about to write, and
      written is everything it has written. */
  datatype System = System(arrivals: seq<Iface>, mainQueues: map<Iface, seq<nat>>, hand: seq<nat>, written: seq<nat>,
                           lock: set<nat>, sessions: map<nat, Session>)

  datatype Step =
    | Arrive(f: Iface, mainLoses: bool, losers: set<nat>) // the kernel may drop copies when a handle is behind
    | MainReceive(f: Iface)
    | MainWrite
    | Start(id: nat)
    | Acquire(id: nat)
    | Open(id: nat, f: Iface)
    | OpenFails(id: nat)
    | Copy(id: nat)
    | Unlock(id: nat)
    | Replay(id: nat)
    | Stream(id: nat, f: Iface)
    | Break(id: nat)

  function Get(m: map<Iface, seq<nat>>, f: Iface): seq<nat> {
    if f in m then m[f] else []
  }

  function Push(m: map<Iface, seq<nat>>, f: Iface, x: nat): map<Iface, seq<nat>> {
    m[f := Get(m, f) + [x]]
  }

  function Pop(m: map<Iface, seq<nat>>, f: Iface): map<Iface, seq<nat>>
    requires Get(m, f) != []
  {
    m[f := m[f][1..]]
  }

  function Deliver(s: Session, f: Iface, x: nat): Session {
    if f in s.queues then s.(queues := Push(s.queues, f, x), received := Push(s.received, f, x)) else s
  }

  predicate At(s: System, id: nat, phase: Phase) {
    id in s.sessions && s.sessions[id].phase == phase
  }

  /** Whether a step can happen; n is the size of the ring. */
  predicate Enabled(s: System, step: Step) {
    match step
    case Arrive(_, _, _) => true
    case MainReceive(f) => s.hand == [] && Get(s.mainQueues, f) != []
    case MainWrite => s.hand != [] && s.lock == {}
    case Start(id) => id !in s.sessions
    case Acquire(id) => At(s, id, Waiting) && s.lock == {}
    case Open(id, f) =>
      At(s, id, Opening) && f !in s.sessions[id].queues && (f.Lan? ==> Uplink in s.sessions[id].queues)
    case OpenFails(id) => At(s, id, Opening)
    case Copy(id) => At(s, id, Opening) && Uplink in s.sessions[id].queues && Lan in s.sessions[id].queues
    case Unlock(id) => At(s, id, Copied)
    case Replay(id) => At(s, id, Running) && s.sessions[id].buffered != []
    case Stream(id, f) => At(s, id, Running) && s.sessions[id].buffered == [] && Get(s.sessions[id].queues, f) != []
    case Break(id) => At(s, id, Running)
  }

  function Next(n: nat, s: System, step: Step): System
    requires Enabled(s, step)
  {
    match step
    case Arrive(f, mainLoses, losers) =>
      var x := |s.arrivals|;
      s.(arrivals := s.arrivals + [f],
         mainQueues := if mainLoses then s.mainQueues else Push(s.mainQueues, f, x),
         sessions := map id | id in s.sessions ::
                       if id in losers then s.sessions[id] else Deliver(s.sessions[id], f, x))
    case MainReceive(f) =>
      s.(hand := [s.mainQueues[f][0]], mainQueues := Pop(s.mainQueues, f))
    case MainWrite => s.(written := s.written + s.hand, hand := [])
    case Start(id) => s.(sessions := s.sessions[id := Session(Waiting, map[], map[], [], [], [])])
    case Acquire(id) => s.(lock := {id}, sessions := s.sessions[id := s.sessions[id].(phase := Opening)])
    case Open(id, f) =>
      var t := s.sessions[id];
      s.(sessions := s.sessions[id := t.(queues := t.queues[f := []], received := t.received[f := []])])
    case OpenFails(id) => s.(lock := {}, sessions := s.sessions[id := s.sessions[id].(phase := Ended)])
    case Copy(id) =>
      var ring := LastN(s.written, n);
      s.(sessions := s.sessions[id := s.sessions[id].(phase := Copied, snapshot := ring, buffered := ring)])
    case Unlock(id) => s.(lock := {}, sessions := s.sessions[id := s.sessions[id].(phase := Running)])
    case Replay(id) =>
      var t := s.sessions[id];
      s.(sessions := s.sessions[id := t.(sent := t.sent + [t.buffered[0]], buffered := t.buffered[1..])])
    case Stream(id, f) =>
      var t := s.sessions[id];
      s.(sessions := s.sessions[id := t.(sent := t.sent + [t.queues[f][0]], queues := Pop(t.queues, f))])
    case Break(id) => s.(sessions := s.sessions[id := s.sessions[id].(phase := Ended)])
  }

  const INITIAL := System([], map[], [], [], {}, map[])

  /** The state after the steps, those that are not enabled having no effect. */
  function Run(n: nat, steps: seq<Step>): System {
    if steps == [] then INITIAL
    else
      var s, step := Run(n, steps[..|steps| - 1]), steps[|steps| - 1];
      if Enabled(s, step) then Next(n, s, step) else s
  }

  // -------------------------------------------------------------- projection

  /** The packets of q that arrived on f. */
  function Of(arrivals: seq<Iface>, q: seq<nat>, f: Iface): seq<nat> {
    if q == [] then []
    else
      var x := q[|q| - 1];
      Of(arrivals, q[..|q| - 1], f) + (if x < |arrivals| && arrivals[x] == f then [x] else [])
  }

  lemma {:induction false} OfConcat(arrivals: seq<Iface>, a: seq<nat>, b: seq<nat>, f: Iface)
    ensures Of(arrivals, a + b, f) == Of(arrivals, a, f) + Of(arrivals, b, f)
  {
    if b == [] {
      assert a + b == a;
    } else {
      OfConcat(arrivals, a, b[..|b| - 1], f);
      assert (a + b)[..|a + b| - 1] == a + b[..|b| - 1];
    }
  }

  lemma OfOne(arrivals: seq<Iface>, x: nat, f: Iface)
    ensures Of(arrivals, [x], f) == if x < |arrivals| && arrivals[x] == f then [x] else []
  {
    assert [x][..0] == [];
  }

  /** A new arrival does not change what earlier ones are. */
  lemma {:induction false} OfLater(arrivals: seq<Iface>, g: Iface, q: seq<nat>, f: Iface)
    requires forall i :: 0 <= i < |q| ==> q[i] < |arrivals|
    ensures Of(arrivals + [g], q, f) == Of(arrivals, q, f)
  {
    if q != [] { OfLater(arrivals, g, q[..|q| - 1], f); }
  }

  predicate Increasing(q: seq<nat>) {
    forall i, j :: 0 <= i < j < |q| ==> q[i] < q[j]
  }

  lemma {:induction false} OfContains(arrivals: seq<Iface>, q: seq<nat>, f: Iface, x: nat)
    ensures x in Of(arrivals, q, f) <==> x in q && x < |arrivals| && arrivals[x] == f
  {
    if q != [] {
      OfContains(arrivals, q[..|q| - 1], f, x);
      assert q == q[..|q| - 1] + [q[|q| - 1]];
    }
  }

  /** When each interface's packets are in order, so are any two of one interface. */
  lemma {:induction false} OrderWithinInterface(arrivals: seq<Iface>, q: seq<nat>, a: nat, b: nat)
    requires forall i :: 0 <= i < |q| ==> q[i] < |arrivals|
    requires Increasing(Of(arrivals, q, Uplink)) && Increasing(Of(arrivals, q, Lan))
    requires a < b < |q| && arrivals[q[a]] == arrivals[q[b]]
    ensures q[a] < q[b]
  {
    hide Of;
    var init, last := q[..|q| - 1], q[|q| - 1];
    var f := arrivals[last];
    OfLast(arrivals, q, Uplink);
    OfLast(arrivals, q, Lan);
    if b < |q| - 1 {
      OrderWithinInterface(arrivals, init, a, b);
    } else {
      OfContains(arrivals, init, f, q[a]);
      assert q[a] == init[a] && q[a] in init;
      var p := Of(arrivals, init, f);
      var i :| 0 <= i < |p| && p[i] == q[a];
      assert (p + [last])[i] < (p + [last])[|p|];
    }
  }

  lemma OfLast(arrivals: seq<Iface>, q: seq<nat>, f: Iface)
    requires q != []
    ensures var init, last := q[..|q| - 1], q[|q| - 1];
            && Of(arrivals, q, f) ==
               Of(arrivals, init, f) + (if last < |arrivals| && arrivals[last] == f then [last] else [])
            && (Increasing(Of(arrivals, q, f)) ==> Increasing(Of(arrivals, init, f)))
  {
    var p := Of(arrivals, q[..|q| - 1], f);
    assert forall i :: 0 <= i < |p| ==> p[i] == Of(arrivals, q, f)[i];
  }

  // --------------------------------------------------------------- invariant

  predicate Below(q: seq<nat>, bound: nat) {
    forall i :: 0 <= i < |q| ==> q[i] < bound
  }

  /** Everything the main program holds of one interface, oldest first. */
  function Pipeline(s: System, f: Iface): seq<nat> {
    Of(s.arrivals, s.written + s.hand, f) + Get(s.mainQueues, f)
  }

  /** The main program's side of one interface. */
  predicate MainOk(s: System, f: Iface) {
    && Below(Get(s.mainQueues, f), |s.arrivals|)
    && Increasing(Pipeline(s, f))
    && Of(s.arrivals, Get(s.mainQueues, f), f) == Get(s.mainQueues, f)
  }

  predicate MainInv(s: System) {
    Below(s.written + s.hand, |s.arrivals|) && MainOk(s, Uplink) && MainOk(s, Lan)
  }

  /** What a session has sent or still has to send of one interface, in order. */
  function Delivery(arrivals: seq<Iface>, t: Session, f: Iface): seq<nat> {
    Of(arrivals, t.sent, f) + Of(arrivals, t.buffered, f) + Get(t.queues, f)
  }

  predicate Before(a: seq<nat>, b: seq<nat>) {
    forall i, j :: 0 <= i < |a| && 0 <= j < |b| ==> a[i] < b[j]
  }

  /** One interface of one session. Conservation: what it delivers is the ring
      it copied, followed by what its handle received. */
  predicate IfaceOk(arrivals: seq<Iface>, written: seq<nat>, t: Session, f: Iface) {
    var got := Get(t.received, f);
    && Below(got, |arrivals|) && Below(Get(t.queues, f), |arrivals|)
    && Increasing(got)
    && Of(arrivals, got, f) == got
    && Of(arrivals, Get(t.queues, f), f) == Get(t.queues, f)
    && Before(if t.phase == Opening then written else t.snapshot, got)
    && Increasing(Of(arrivals, t.snapshot, f))
    && Delivery(arrivals, t, f) == Of(arrivals, t.snapshot, f) + got
  }

  predicate SessionOk(arrivals: seq<Iface>, written: seq<nat>, held: bool, t: Session) {
    && t.queues.Keys == t.received.Keys
    && (held <==> t.phase in {Opening, Copied})
    && (t.phase in {Waiting, Opening} ==> t.sent == t.buffered == t.snapshot == [])
    && (t.phase == Waiting ==> t.queues == map[])
    && Below(t.sent, |arrivals|) && Below(t.buffered, |arrivals|) && Below(t.snapshot, |arrivals|)
    && IfaceOk(arrivals, written, t, Uplink) && IfaceOk(arrivals, written, t, Lan)
  }

  predicate Inv(s: System) {
    && |s.lock| <= 1 && s.lock <= s.sessions.Keys
    && MainInv(s)
    && forall id :: id in s.sessions ==> SessionOk(s.arrivals, s.written, id in s.lock, s.sessions[id])
  }

  // --------------------------------------------------- pieces of the proof

  /** A later number appended keeps every order. */
  lemma Append(q: seq<nat>, a: seq<nat>, x: nat)
    ensures Increasing(q) && Below(q, x) ==> Increasing(q + [x])
    ensures Below(q, x) ==> Below(q, x + 1) && Below(q + [x], x + 1)
    ensures Before(a, q) && Below(a, x) ==> Before(a, q + [x])
  {
  }

  lemma PushGet(m: map<Iface, seq<nat>>, f: Iface, x: nat, g: Iface)
    ensures Get(Push(m, f, x), g) == if g == f then Get(m, f) + [x] else Get(m, g)
  {
  }

  lemma OfPush(arrivals: seq<Iface>, g: Iface, q: seq<nat>, f: Iface)
    requires Below(q, |arrivals|)
    ensures Of(arrivals + [g], q, f) == Of(arrivals, q, f)
    ensures Of(arrivals + [g], q + [|arrivals|], f) == Of(arrivals, q, f) + if g == f then [|arrivals|] else []
  {
    OfLater(arrivals, g, q, f);
    OfConcat(arrivals + [g], q, [|arrivals|], f);
    OfOne(arrivals + [g], |arrivals|, f);
  }

  lemma ReceivesIface(arrivals: seq<Iface>, written: seq<nat>, t: Session, f: Iface)
    requires IfaceOk(arrivals, written, t, f) && f in t.queues && f in t.received
    requires Below(t.sent, |arrivals|) && Below(t.buffered, |arrivals|) && Below(t.snapshot, |arrivals|)
    requires Below(written, |arrivals|)
    ensures IfaceOk(arrivals + [f], written, Deliver(t, f, |arrivals|), f)
  {
    hide Of;
    hide Increasing;
    hide Below;
    hide Before;
    var x, got, q := |arrivals|, Get(t.received, f), Get(t.queues, f);
    OfPush(arrivals, f, got, f);
    OfPush(arrivals, f, q, f);
    OfPush(arrivals, f, t.sent, f);
    OfPush(arrivals, f, t.buffered, f);
    OfPush(arrivals, f, t.snapshot, f);
    PushGet(t.queues, f, x, f);
    PushGet(t.received, f, x, f);
    Append(got, if t.phase == Opening then written else t.snapshot, x);
    Append(q, [], x);
    var t' := Deliver(t, f, x);
    assert Delivery(arrivals + [f], t', f) == Delivery(arrivals, t, f) + [x];
  }

  /** An arrival that the handle of f does not receive. */
  lemma PassesIface(arrivals: seq<Iface>, written: seq<nat>, t: Session, t': Session, g: Iface, f: Iface)
    requires IfaceOk(arrivals, written, t, f)
    requires Below(t.sent, |arrivals|) && Below(t.buffered, |arrivals|) && Below(t.snapshot, |arrivals|)
    requires t'.(queues := t.queues, received := t.received) == t
    requires Get(t'.queues, f) == Get(t.queues, f) && Get(t'.received, f) == Get(t.received, f)
    ensures IfaceOk(arrivals + [g], written, t', f)
  {
    hide Of;
    hide Increasing;
    hide Below;
    hide Before;
    var got, q := Get(t.received, f), Get(t.queues, f);
    OfPush(arrivals, g, got, f);
    OfPush(arrivals, g, q, f);
    OfPush(arrivals, g, t.sent, f);
    OfPush(arrivals, g, t.buffered, f);
    OfPush(arrivals, g, t.snapshot, f);
    Append(got, [], |arrivals|);
    Append(q, [], |arrivals|);
  }

  lemma ArriveIface(arrivals: seq<Iface>, written: seq<nat>, t: Session, g: Iface, f: Iface, gets: bool)
    requires IfaceOk(arrivals, written, t, f) && t.queues.Keys == t.received.Keys
    requires Below(t.sent, |arrivals|) && Below(t.buffered, |arrivals|) && Below(t.snapshot, |arrivals|)
    requires Below(written, |arrivals|)
    ensures IfaceOk(arrivals + [g], written, if gets then Deliver(t, g, |arrivals|) else t, f)
  {
    hide IfaceOk;
    if gets && g in t.queues && g == f {
      ReceivesIface(arrivals, written, t, f);
    } else {
      PassesIface(arrivals, written, t, if gets then Deliver(t, g, |arrivals|) else t, g, f);
    }
  }

  lemma ArriveSession(arrivals: seq<Iface>, written: seq<nat>, held: bool, t: Session, g: Iface, gets: bool)
    requires SessionOk(arrivals, written, held, t) && Below(written, |arrivals|)
    ensures SessionOk(arrivals + [g], written, held, if gets then Deliver(t, g, |arrivals|) else t)
  {
    hide IfaceOk;
    ArriveIface(arrivals, written, t, g, Uplink, gets);
    ArriveIface(arrivals, written, t, g, Lan, gets);
  }

  lemma PipelineBelow(s: System, f: Iface)
    requires MainInv(s)
    ensures Below(Pipeline(s, f), |s.arrivals|)
  {
    var q := s.written + s.hand;
    forall i | 0 <= i < |Of(s.arrivals, q, f)|
      ensures Of(s.arrivals, q, f)[i] < |s.arrivals|
    {
      OfContains(s.arrivals, q, f, Of(s.arrivals, q, f)[i]);
    }
  }

  /** A queue of f grows by the newest arrival, in order behind everything older. */
  lemma QueueGrows(arrivals: seq<Iface>, front: seq<nat>, q: seq<nat>, f: Iface)
    requires Below(front, |arrivals|) && Below(q, |arrivals|) && Of(arrivals, q, f) == q
    requires Increasing(Of(arrivals, front, f) + q) && Below(Of(arrivals, front, f) + q, |arrivals|)
    ensures var q' := q + [|arrivals|];
            && Below(q', |arrivals| + 1)
            && Of(arrivals + [f], q', f) == q'
            && Increasing(Of(arrivals + [f], front, f) + q')
  {
    hide Of;
    hide Increasing;
    hide Below;
    var x, p := |arrivals|, Of(arrivals, front, f);
    OfPush(arrivals, f, front, f);
    OfPush(arrivals, f, q, f);
    Append(p + q, [], x);
    Append(q, [], x);
    assert p + q + [x] == p + (q + [x]);
  }

  lemma ArriveMainIface(s: System, s': System, g: Iface, f: Iface)
    requires MainInv(s) && MainOk(s, f)
    requires s'.arrivals == s.arrivals + [g] && s'.written == s.written && s'.hand == s.hand
    requires Get(s'.mainQueues, f) == Get(s.mainQueues, f) ||
             (f == g && Get(s'.mainQueues, f) == Get(s.mainQueues, f) + [|s.arrivals|])
    ensures MainOk(s', f)
  {
    PipelineBelow(s, f);
    hide Of;
    hide Increasing;
    hide Below;
    hide Get;
    var q := Get(s.mainQueues, f);
    if Get(s'.mainQueues, f) == q {
      OfPush(s.arrivals, g, s.written + s.hand, f);
      OfPush(s.arrivals, g, q, f);
      Append(q, [], |s.arrivals|);
    } else {
      QueueGrows(s.arrivals, s.written + s.hand, q, f);
    }
  }

  lemma ArriveMain(n: nat, s: System, f: Iface, mainLoses: bool, losers: set<nat>)
    requires MainInv(s)
    ensures MainInv(Next(n, s, Arrive(f, mainLoses, losers)))
  {
    hide MainOk;
    var s' := Next(n, s, Arrive(f, mainLoses, losers));
    PushGet(s.mainQueues, f, |s.arrivals|, Uplink);
    PushGet(s.mainQueues, f, |s.arrivals|, Lan);
    ArriveMainIface(s, s', f, Uplink);
    ArriveMainIface(s, s', f, Lan);
  }

  /** Reading the head of a queue that holds only packets of f. */
  lemma TakeHead(arrivals: seq<Iface>, q: seq<nat>, f: Iface)
    requires q != [] && Of(arrivals, q, f) == q
    ensures q[0] < |arrivals| && arrivals[q[0]] == f && Of(arrivals, q[1..], f) == q[1..]
  {
    assert q == [q[0]] + q[1..];
    OfContains(arrivals, q, f, q[0]);
    OfConcat(arrivals, [q[0]], q[1..], f);
    OfOne(arrivals, q[0], f);
  }

  lemma OfSnoc(arrivals: seq<Iface>, q: seq<nat>, x: nat, f: Iface)
    ensures Of(arrivals, q + [x], f) == Of(arrivals, q, f) + if x < |arrivals| && arrivals[x] == f then [x] else []
  {
    OfConcat(arrivals, q, [x], f);
    OfOne(arrivals, x, f);
  }

  lemma PopGet(m: map<Iface, seq<nat>>, g: Iface, f: Iface)
    requires Get(m, g) != []
    ensures g in m && m[g] == Get(m, g)
    ensures Get(Pop(m, g), f) == if f == g then Get(m, g)[1..] else Get(m, f)
  {
  }

  lemma BelowTail(q: seq<nat>, bound: nat)
    requires Below(q, bound) && q != []
    ensures q[0] < bound && Below(q[1..], bound)
  {
  }

  lemma ReceiveMainIface(s: System, s': System, g: Iface, f: Iface)
    requires MainOk(s, g) && MainOk(s, f) && s.hand == [] && Get(s.mainQueues, g) != []
    requires s' == s.(hand := [s.mainQueues[g][0]], mainQueues := Pop(s.mainQueues, g))
    ensures MainOk(s', f) && s'.hand[0] < |s.arrivals|
  {
    hide Of;
    hide Increasing;
    hide Below;
    hide Get;
    hide Pop;
    var q := Get(s.mainQueues, g);
    PopGet(s.mainQueues, g, f);
    TakeHead(s.arrivals, q, g);
    BelowTail(q, |s.arrivals|);
    OfSnoc(s.arrivals, s.written, q[0], f);
    assert s.written + s.hand == s.written;
    assert q == [q[0]] + q[1..];
    assert Pipeline(s', f) == Pipeline(s, f);
  }

  lemma ReceiveMain(n: nat, s: System, f: Iface)
    requires MainInv(s) && Enabled(s, MainReceive(f))
    ensures MainInv(Next(n, s, MainReceive(f)))
  {
    hide MainOk;
    var s' := Next(n, s, MainReceive(f));
    ReceiveMainIface(s, s', f, Uplink);
    ReceiveMainIface(s, s', f, Lan);
    assert s.written + s.hand == s.written;
  }

  lemma ReplayIface(arrivals: seq<Iface>, written: seq<nat>, t: Session, f: Iface)
    requires IfaceOk(arrivals, written, t, f) && t.buffered != [] && t.phase == Running
    ensures IfaceOk(arrivals, written, t.(sent := t.sent + [t.buffered[0]], buffered := t.buffered[1..]), f)
  {
    hide Of;
    hide Increasing;
    hide Below;
    hide Before;
    var x := t.buffered[0];
    assert t.buffered == [x] + t.buffered[1..];
    OfConcat(arrivals, [x], t.buffered[1..], f);
    OfOne(arrivals, x, f);
    OfSnoc(arrivals, t.sent, x, f);
    var t' := t.(sent := t.sent + [x], buffered := t.buffered[1..]);
    assert Delivery(arrivals, t', f) == Delivery(arrivals, t, f);
  }

  lemma StreamDelivery(arrivals: seq<Iface>, t: Session, t': Session, g: Iface, f: Iface)
    requires t.buffered == [] && Get(t.queues, g) != [] && Of(arrivals, Get(t.queues, g), g) == Get(t.queues, g)
    requires t' == t.(sent := t.sent + [Get(t.queues, g)[0]], queues := Pop(t.queues, g))
    ensures Delivery(arrivals, t', f) == Delivery(arrivals, t, f)
  {
    hide Of;
    hide Get;
    hide Pop;
    var q := Get(t.queues, g);
    PopGet(t.queues, g, f);
    TakeHead(arrivals, q, g);
    OfSnoc(arrivals, t.sent, q[0], f);
    OfEmpty(arrivals, f);
    assert q == [q[0]] + q[1..];
  }

  lemma StreamIface(arrivals: seq<Iface>, written: seq<nat>, t: Session, g: Iface, f: Iface)
    requires IfaceOk(arrivals, written, t, f) && IfaceOk(arrivals, written, t, g) && t.phase == Running
    requires t.buffered == [] && Get(t.queues, g) != []
    ensures IfaceOk(arrivals, written, t.(sent := t.sent + [t.queues[g][0]], queues := Pop(t.queues, g)), f)
  {
    hide Of;
    hide Increasing;
    hide Below;
    hide Before;
    hide Delivery;
    hide Get;
    hide Pop;
    var q := Get(t.queues, g);
    PopGet(t.queues, g, f);
    TakeHead(arrivals, q, g);
    BelowTail(q, |arrivals|);
    StreamDelivery(arrivals, t, t.(sent := t.sent + [q[0]], queues := Pop(t.queues, g)), g, f);
  }

  lemma OfEmpty(arrivals: seq<Iface>, f: Iface)
    ensures Of(arrivals, [], f) == []
  {
  }

  lemma RingBelow(n: nat, s: System)
    requires Below(s.written + s.hand, |s.arrivals|)
    ensures Below(s.written, |s.arrivals|) && Below(LastN(s.written, n), |s.arrivals|)
    ensures forall i :: 0 <= i < |LastN(s.written, n)| ==> LastN(s.written, n)[i] in s.written
  {
    assert forall i :: 0 <= i < |s.written| ==> s.written[i] == (s.written + s.hand)[i];
  }

  /** The ring is the end of what was written, so it keeps its order. */
  lemma RingInOrder(n: nat, s: System, f: Iface)
    requires MainOk(s, f)
    ensures Increasing(Of(s.arrivals, LastN(s.written, n), f))
  {
    hide Of;
    hide Increasing;
    hide Below;
    var ring := LastN(s.written, n);
    var front := s.written[..|s.written| - |ring|];
    assert s.written == front + ring;
    OfConcat(s.arrivals, s.written, s.hand, f);
    OfConcat(s.arrivals, front, ring, f);
    SuffixIncreasing(Of(s.arrivals, front, f), Of(s.arrivals, ring, f),
                     Of(s.arrivals, s.hand, f) + Get(s.mainQueues, f), Pipeline(s, f));
  }

  lemma SuffixIncreasing(a: seq<nat>, b: seq<nat>, c: seq<nat>, whole: seq<nat>)
    requires Increasing(whole) && whole == a + b + c
    ensures Increasing(b)
  {
    assert forall i :: 0 <= i < |b| ==> b[i] == whole[|a| + i];
  }

  lemma BeforeSubset(a: seq<nat>, b: seq<nat>, c: seq<nat>)
    requires Before(a, c) && forall i :: 0 <= i < |b| ==> b[i] in a
    ensures Before(b, c)
  {
  }

  lemma CopyIface(n: nat, s: System, t: Session, f: Iface)
    requires MainInv(s) && MainOk(s, f) && IfaceOk(s.arrivals, s.written, t, f)
    requires t.phase == Opening && t.sent == t.buffered == t.snapshot == []
    ensures var ring := LastN(s.written, n);
            IfaceOk(s.arrivals, s.written, t.(phase := Copied, snapshot := ring, buffered := ring), f)
  {
    hide Of;
    hide Increasing;
    hide Below;
    hide Before;
    hide LastN;
    RingInOrder(n, s, f);
    RingBelow(n, s);
    BeforeSubset(s.written, LastN(s.written, n), Get(t.received, f));
    OfEmpty(s.arrivals, f);
    assert Delivery(s.arrivals, t, f) == Get(t.queues, f);
    assert Get(t.queues, f) == Get(t.received, f);
    var t' := t.(phase := Copied, snapshot := LastN(s.written, n), buffered := LastN(s.written, n));
    assert Delivery(s.arrivals, t', f) == Of(s.arrivals, LastN(s.written, n), f) + Get(t.queues, f);
  }

  // ------------------------------------------------------------- invariance

  /** A step that leaves the main program alone and changes at most session id. */
  lemma OneSession(s: System, s': System, id: nat, t: Session)
    requires Inv(s) && s' == s.(lock := s'.lock, sessions := s.sessions[id := t])
    requires SessionOk(s.arrivals, s.written, id in s'.lock, t)
    requires |s'.lock| <= 1 && s'.lock <= s.lock + {id}
    requires forall other :: other != id && other in s.sessions ==> (other in s'.lock <==> other in s.lock)
    ensures Inv(s')
  {
    hide SessionOk;
    hide Of;
  }

  lemma ArriveKeepsInv(n: nat, s: System, f: Iface, mainLoses: bool, losers: set<nat>)
    requires Inv(s)
    ensures Inv(Next(n, s, Arrive(f, mainLoses, losers)))
  {
    hide SessionOk;
    hide MainOk;
    ArriveMain(n, s, f, mainLoses, losers);
    RingBelow(n, s);
    var s' := Next(n, s, Arrive(f, mainLoses, losers));
    forall id | id in s'.sessions
      ensures SessionOk(s'.arrivals, s'.written, id in s'.lock, s'.sessions[id])
    {
      ArriveSession(s.arrivals, s.written, id in s.lock, s.sessions[id], f, id !in losers);
    }
  }

  lemma WriteKeepsInv(n: nat, s: System)
    requires Inv(s) && Enabled(s, MainWrite)
    ensures Inv(Next(n, s, MainWrite))
  {
    hide SessionOk;
    hide Of;
    var s' := Next(n, s, MainWrite);
    assert s'.written + s'.hand == s.written + s.hand;
    assert Pipeline(s', Uplink) == Pipeline(s, Uplink) && Pipeline(s', Lan) == Pipeline(s, Lan);
    forall id | id in s'.sessions
      ensures SessionOk(s'.arrivals, s'.written, id in s'.lock, s'.sessions[id])
    {
      WrittenMatters(s.arrivals, s.written, s'.written, s.sessions[id]);
    }
  }

  /** What is written does not matter to a session that is not opening handles. */
  lemma WrittenMatters(arrivals: seq<Iface>, written: seq<nat>, written': seq<nat>, t: Session)
    requires SessionOk(arrivals, written, false, t)
    ensures SessionOk(arrivals, written', false, t)
  {
    hide Of;
  }

  lemma CopyOk(n: nat, s: System, id: nat)
    requires Inv(s) && Enabled(s, Copy(id))
    ensures SessionOk(s.arrivals, s.written, id in s.lock, Next(n, s, Copy(id)).sessions[id])
  {
    hide IfaceOk;
    hide LastN;
    CopyIface(n, s, s.sessions[id], Uplink);
    CopyIface(n, s, s.sessions[id], Lan);
    RingBelow(n, s);
  }

  lemma ReplaySession(arrivals: seq<Iface>, written: seq<nat>, t: Session)
    requires SessionOk(arrivals, written, false, t) && t.phase == Running && t.buffered != []
    ensures SessionOk(arrivals, written, false, t.(sent := t.sent + [t.buffered[0]], buffered := t.buffered[1..]))
  {
    hide IfaceOk;
    ReplayIface(arrivals, written, t, Uplink);
    ReplayIface(arrivals, written, t, Lan);
  }

  lemma HeadBelow(arrivals: seq<Iface>, written: seq<nat>, t: Session, f: Iface)
    requires SessionOk(arrivals, written, false, t) && Get(t.queues, f) != []
    ensures f in t.queues && t.queues[f] != [] && t.queues[f][0] < |arrivals|
    ensures IfaceOk(arrivals, written, t, f)
  {
    hide Of;
    assert IfaceOk(arrivals, written, t, f);
  }

  lemma SentBelow(sent: seq<nat>, x: nat, bound: nat)
    requires Below(sent, bound) && x < bound
    ensures Below(sent + [x], bound)
  {
  }

  lemma PopKeys(m: map<Iface, seq<nat>>, g: Iface)
    requires Get(m, g) != []
    ensures Pop(m, g).Keys == m.Keys
  {
  }

  lemma StreamSession(arrivals: seq<Iface>, written: seq<nat>, t: Session, f: Iface)
    requires SessionOk(arrivals, written, false, t) && t.phase == Running && t.buffered == [] && Get(t.queues, f) != []
    ensures SessionOk(arrivals, written, false, t.(sent := t.sent + [t.queues[f][0]], queues := Pop(t.queues, f)))
  {
    hide IfaceOk;
    hide Get;
    hide Pop;
    hide Below;
    HeadBelow(arrivals, written, t, f);
    PopKeys(t.queues, f);
    SentBelow(t.sent, t.queues[f][0], |arrivals|);
    StreamIface(arrivals, written, t, f, Uplink);
    StreamIface(arrivals, written, t, f, Lan);
  }

  lemma SessionHolds(s: System, id: nat)
    requires Inv(s) && id in s.sessions
    ensures SessionOk(s.arrivals, s.written, id in s.lock, s.sessions[id])
  {
    hide SessionOk;
    hide MainInv;
  }

  lemma ReplayOk(n: nat, s: System, id: nat)
    requires Inv(s) && Enabled(s, Replay(id))
    ensures SessionOk(s.arrivals, s.written, id in s.lock, Next(n, s, Replay(id)).sessions[id])
  {
    hide Inv;
    hide SessionOk;
    hide LastN;
    LockedPhases(s, id);
    SessionHolds(s, id);
    ReplaySession(s.arrivals, s.written, s.sessions[id]);
  }

  lemma StreamOk(n: nat, s: System, id: nat, f: Iface)
    requires Inv(s) && Enabled(s, Stream(id, f))
    ensures SessionOk(s.arrivals, s.written, id in s.lock, Next(n, s, Stream(id, f)).sessions[id])
  {
    hide Inv;
    hide SessionOk;
    hide LastN;
    hide Pop;
    LockedPhases(s, id);
    SessionHolds(s, id);
    StreamSession(s.arrivals, s.written, s.sessions[id], f);
  }

  lemma OpenIface(arrivals: seq<Iface>, written: seq<nat>, t: Session, g: Iface, f: Iface)
    requires IfaceOk(arrivals, written, t, f) && t.queues.Keys == t.received.Keys && g !in t.queues
    ensures IfaceOk(arrivals, written, t.(queues := t.queues[g := []], received := t.received[g := []]), f)
  {
    hide Of;
    hide Increasing;
    hide Below;
    hide Before;
    assert Get(t.queues[g := []], f) == Get(t.queues, f);
    assert Get(t.received[g := []], f) == Get(t.received, f);
  }

  lemma OpenSession(arrivals: seq<Iface>, written: seq<nat>, t: Session, f: Iface)
    requires SessionOk(arrivals, written, true, t) && t.phase == Opening && f !in t.queues
    ensures SessionOk(arrivals, written, true, t.(queues := t.queues[f := []], received := t.received[f := []]))
  {
    hide IfaceOk;
    OpenIface(arrivals, written, t, f, Uplink);
    OpenIface(arrivals, written, t, f, Lan);
  }

  lemma OpenOk(n: nat, s: System, id: nat, f: Iface)
    requires Inv(s) && Enabled(s, Open(id, f))
    ensures SessionOk(s.arrivals, s.written, id in s.lock, Next(n, s, Open(id, f)).sessions[id])
  {
    hide Inv;
    hide SessionOk;
    hide LastN;
    LockedPhases(s, id);
    SessionHolds(s, id);
    OpenSession(s.arrivals, s.written, s.sessions[id], f);
  }

  lemma IfacePhase(arrivals: seq<Iface>, written: seq<nat>, t: Session, phase: Phase, f: Iface)
    requires IfaceOk(arrivals, written, t, f)
    requires t.phase == Opening ==> t.snapshot == []
    requires phase == Opening ==> Get(t.received, f) == []
    ensures IfaceOk(arrivals, written, t.(phase := phase), f)
  {
    hide Of;
    hide Increasing;
    hide Below;
  }

  /** A session that only changes its phase. */
  lemma PhaseOk(arrivals: seq<Iface>, written: seq<nat>, held: bool, t: Session, phase: Phase)
    requires SessionOk(arrivals, written, held, t)
    requires (t.phase == Waiting && phase == Opening) || (t.phase == Opening && phase == Ended) ||
             (t.phase == Copied && phase == Running) || (t.phase == Running && phase == Ended)
    ensures SessionOk(arrivals, written, phase == Opening, t.(phase := phase))
  {
    hide IfaceOk;
    IfacePhase(arrivals, written, t, phase, Uplink);
    IfacePhase(arrivals, written, t, phase, Lan);
  }

  lemma FreshOk(arrivals: seq<Iface>, written: seq<nat>)
    ensures SessionOk(arrivals, written, false, Session(Waiting, map[], map[], [], [], []))
  {
  }

  lemma PhaseKeepsInv(n: nat, s: System, id: nat, step: Step)
    requires Inv(s) && Enabled(s, step)
    requires step == Acquire(id) || step == OpenFails(id) || step == Unlock(id) || step == Break(id)
    ensures Inv(Next(n, s, step))
  {
    hide SessionOk;
    hide MainOk;
    var s', t := Next(n, s, step), s.sessions[id];
    LockedPhases(s, id);
    PhaseOk(s.arrivals, s.written, id in s.lock, t, s'.sessions[id].phase);
    OneSession(s, s', id, s'.sessions[id]);
  }

  /** The lock is held exactly by the session that opens handles or has copied the ring. */
  lemma LockedPhases(s: System, id: nat)
    requires Inv(s) && id in s.sessions
    ensures id in s.lock <==> s.sessions[id].phase in {Opening, Copied}
    ensures id in s.lock ==> s.lock == {id}
    ensures s.sessions[id].phase == Waiting ==> s.sessions[id].queues == map[]
  {
    assert SessionOk(s.arrivals, s.written, id in s.lock, s.sessions[id]);
    if id in s.lock { SingletonLock(s.lock, id); }
  }

  lemma SingletonLock(lock: set<nat>, id: nat)
    requires id in lock && |lock| <= 1
    ensures lock == {id}
  {
    assert |lock - {id}| == 0;
  }

  /** Every step keeps the invariant. */
  lemma NextKeepsInv(n: nat, s: System, step: Step)
    requires Inv(s) && Enabled(s, step)
    ensures Inv(Next(n, s, step))
  {
    hide SessionOk;
    hide MainOk;
    var s' := Next(n, s, step);
    match step
    case Arrive(f, mainLoses, losers) => ArriveKeepsInv(n, s, f, mainLoses, losers);
    case MainReceive(f) => ReceiveMain(n, s, f);
    case MainWrite => WriteKeepsInv(n, s);
    case Start(id) =>
      FreshOk(s.arrivals, s.written);
      OneSession(s, s', id, s'.sessions[id]);
    case Open(id, f) =>
      OpenOk(n, s, id, f);
      OneSession(s, s', id, s'.sessions[id]);
    case Copy(id) =>
      CopyOk(n, s, id);
      OneSession(s, s', id, s'.sessions[id]);
    case Replay(id) =>
      ReplayOk(n, s, id);
      OneSession(s, s', id, s'.sessions[id]);
    case Stream(id, f) =>
      StreamOk(n, s, id, f);
      OneSession(s, s', id, s'.sessions[id]);
    case Acquire(id) => PhaseKeepsInv(n, s, id, step);
    case OpenFails(id) => PhaseKeepsInv(n, s, id, step);
    case Unlock(id) => PhaseKeepsInv(n, s, id, step);
    case Break(id) => PhaseKeepsInv(n, s, id, step);
  }

  lemma {:induction false} RunKeepsInv(n: nat, steps: seq<Step>)
    ensures Inv(Run(n, steps))
  {
    hide Inv;
    hide Next;
    hide Enabled;
    if steps == [] {
      InitialInv();
    } else {
      RunKeepsInv(n, steps[..|steps| - 1]);
      var s, step := Run(n, steps[..|steps| - 1]), steps[|steps| - 1];
      if Enabled(s, step) { NextKeepsInv(n, s, step); }
    }
  }

  lemma InitialInv()
    ensures Inv(INITIAL)
  {
  }

  // ---------------------------------------------------------------- theorems

  /** What a session sends and still holds of one interface is, in order, the
      ring it copied followed by what its handle received: nothing is lost,
      duplicated or reordered between the two. */
  lemma SessionConserves(n: nat, steps: seq<Step>, id: nat, f: Iface)
    requires id in Run(n, steps).sessions
    ensures var s := Run(n, steps);
            var t := s.sessions[id];
            && Of(s.arrivals, t.sent, f) + Of(s.arrivals, t.buffered, f) + Get(t.queues, f) ==
               Of(s.arrivals, t.snapshot, f) + Get(t.received, f)
            && Increasing(Of(s.arrivals, t.snapshot, f) + Get(t.received, f))
  {
    RunKeepsInv(n, steps);
    var s := Run(n, steps);
    hide Run;
    hide Of;
    var t := s.sessions[id];
    assert SessionOk(s.arrivals, s.written, id in s.lock, t);
    assert IfaceOk(s.arrivals, s.written, t, f);
    BeforeOf(s.arrivals, if t.phase == Opening then s.written else t.snapshot, t.snapshot, f, Get(t.received, f));
    JoinIncreasing(Of(s.arrivals, t.snapshot, f), Get(t.received, f));
  }

  lemma BeforeOf(arrivals: seq<Iface>, w: seq<nat>, a: seq<nat>, f: Iface, b: seq<nat>)
    requires Before(w, b) && (a == w || a == [])
    ensures Before(Of(arrivals, a, f), b)
  {
    var p := Of(arrivals, a, f);
    forall i | 0 <= i < |p|
      ensures p[i] in a
    {
      OfContains(arrivals, a, f, p[i]);
    }
  }

  lemma JoinIncreasing(a: seq<nat>, b: seq<nat>)
    requires Increasing(a) && Increasing(b) && Before(a, b)
    ensures Increasing(a + b)
  {
  }

  lemma PrefixIncreasing(a: seq<nat>, b: seq<nat>)
    requires Increasing(a + b)
    ensures Increasing(a)
  {
    assert forall i :: 0 <= i < |a| ==> a[i] == (a + b)[i];
  }

  /** In every interleaving, no packet is sent twice to a session, and two
      packets of one interface are sent in the order they arrived. */
  lemma SentOnceInOrder(n: nat, steps: seq<Step>, id: nat, a: nat, b: nat)
    requires id in Run(n, steps).sessions && a < b < |Run(n, steps).sessions[id].sent|
    ensures var s := Run(n, steps);
            var sent := s.sessions[id].sent;
            && sent[a] < |s.arrivals| && sent[b] < |s.arrivals| && sent[a] != sent[b]
            && (s.arrivals[sent[a]] == s.arrivals[sent[b]] ==> sent[a] < sent[b])
  {
    RunKeepsInv(n, steps);
    SessionConserves(n, steps, id, Uplink);
    SessionConserves(n, steps, id, Lan);
    var s := Run(n, steps);
    hide Run;
    hide Of;
    var t := s.sessions[id];
    assert SessionOk(s.arrivals, s.written, id in s.lock, t);
    SentIncreasing(s.arrivals, t, Uplink);
    SentIncreasing(s.arrivals, t, Lan);
    if s.arrivals[t.sent[a]] == s.arrivals[t.sent[b]] {
      OrderWithinInterface(s.arrivals, t.sent, a, b);
    }
  }

  lemma SentIncreasing(arrivals: seq<Iface>, t: Session, f: Iface)
    requires Increasing(Delivery(arrivals, t, f))
    ensures Increasing(Of(arrivals, t.sent, f))
  {
    hide Of;
    var p, rest := Of(arrivals, t.sent, f), Of(arrivals, t.buffered, f) + Get(t.queues, f);
    assert Delivery(arrivals, t, f) == p + rest;
    PrefixIncreasing(p, rest);
  }

  /** The packets a session sends or still holds are those in the ring it copied
      and those its handles received. */
  lemma DeliversWhatItGot(n: nat, steps: seq<Step>, id: nat, x: nat)
    requires id in Run(n, steps).sessions && x < |Run(n, steps).arrivals|
    ensures var s := Run(n, steps);
            var t, f := s.sessions[id], s.arrivals[x];
            x in t.sent || x in t.buffered || x in Get(t.queues, f) <==> x in t.snapshot || x in Get(t.received, f)
  {
    var f := Run(n, steps).arrivals[x];
    SessionConserves(n, steps, id, f);
    var s := Run(n, steps);
    hide Run;
    var t := s.sessions[id];
    OfContains(s.arrivals, t.sent, f, x);
    OfContains(s.arrivals, t.buffered, f, x);
    OfContains(s.arrivals, t.snapshot, f, x);
    hide Of;
    var left := Of(s.arrivals, t.sent, f) + Of(s.arrivals, t.buffered, f) + Get(t.queues, f);
    assert x in left <==> x in Of(s.arrivals, t.sent, f) || x in Of(s.arrivals, t.buffered, f) || x in Get(t.queues, f);
    assert x in left <==> x in Of(s.arrivals, t.snapshot, f) || x in Get(t.received, f);
  }

  // ------------------------------------------------------------- what can happen

  /** The session sent or still holds the packet. */
  predicate Has(t: Session, x: nat) {
    x in t.sent || x in t.buffered || x in Get(t.queues, Uplink) || x in Get(t.queues, Lan)
  }

  function Unsent(t: Session): nat {
    |t.buffered| + |Get(t.queues, Uplink)| + |Get(t.queues, Lan)|
  }

  lemma HeadOrRest(q: seq<nat>, x: nat)
    requires q != []
    ensures x in q <==> x == q[0] || x in q[1..]
  {
    assert q == [q[0]] + q[1..];
  }

  /** A running session that holds packets can send one. */
  lemma CanSend(n: nat, s: System, id: nat) returns (step: Step)
    requires At(s, id, Running) && Unsent(s.sessions[id]) > 0
    ensures Enabled(s, step)
    ensures var s' := Next(n, s, step);
            && s' == s.(sessions := s'.sessions) && At(s', id, Running)
            && |s'.sessions[id].sent| == |s.sessions[id].sent| + 1
            && Unsent(s'.sessions[id]) < Unsent(s.sessions[id])
            && forall x :: Has(s.sessions[id], x) ==> Has(s'.sessions[id], x)
  {
    var t := s.sessions[id];
    hide LastN;
    if t.buffered != [] {
      step := Replay(id);
      forall x | Has(t, x)
        ensures Has(Next(n, s, step).sessions[id], x)
      {
        HeadOrRest(t.buffered, x);
      }
    } else {
      var f := if Get(t.queues, Uplink) != [] then Uplink else Lan;
      step := Stream(id, f);
      PopGet(t.queues, f, Uplink);
      PopGet(t.queues, f, Lan);
      hide Get;
      hide Pop;
      forall x | Has(t, x)
        ensures Has(Next(n, s, step).sessions[id], x)
      {
        HeadOrRest(Get(t.queues, f), x);
      }
    }
  }

  /** Without anything else happening, a running session can go on to send
      everything it holds: nothing it is to deliver gets stuck. */
  lemma {:induction false} CanDrain(n: nat, steps: seq<Step>, id: nat) returns (more: seq<Step>)
    requires At(Run(n, steps), id, Running)
    ensures var s, s' := Run(n, steps), Run(n, steps + more);
            && s' == s.(sessions := s'.sessions) && At(s', id, Running)
            && Unsent(s'.sessions[id]) == 0
            && |s'.sessions[id].sent| == |s.sessions[id].sent| + |more|
            && forall x :: Has(s.sessions[id], x) ==> x in s'.sessions[id].sent
    decreases Unsent(Run(n, steps).sessions[id])
  {
    var s := Run(n, steps);
    if Unsent(s.sessions[id]) == 0 {
      more := [];
      assert steps + more == steps;
    } else {
      var step := CanSend(n, s, id);
      assert (steps + [step])[..|steps|] == steps;
      assert Run(n, steps + [step]) == Next(n, s, step);
      hide Next;
      hide Enabled;
      hide Run;
      hide Has;
      var rest := CanDrain(n, steps + [step], id);
      more := [step] + rest;
      assert steps + more == steps + [step] + rest;
    }
  }

  /** Whoever holds the ring's lock can give it up at once, and then the main
      program can write. */
  lemma LockCanBeFreed(n: nat, s: System, id: nat) returns (step: Step)
    requires Inv(s) && id in s.lock
    ensures Enabled(s, step) && Next(n, s, step).lock == {}
    ensures s.hand != [] ==> Enabled(Next(n, s, step), MainWrite)
  {
    hide Inv;
    hide LastN;
    hide Get;
    LockSessions(s, id);
    LockedPhases(s, id);
    step := if s.sessions[id].phase == Opening then OpenFails(id) else Unlock(id);
  }

  lemma LockSessions(s: System, id: nat)
    requires Inv(s) && id in s.lock
    ensures id in s.sessions
  {
    hide SessionOk;
    hide MainInv;
  }

  /** As long as the lock is free, a packet the main program was given gets into the ring. */
  lemma PendingCanBeWritten(n: nat, s: System, f: Iface)
    requires Inv(s) && s.lock == {} && s.hand == [] && Get(s.mainQueues, f) != []
    ensures Enabled(s, MainReceive(f))
    ensures var s1 := Next(n, s, MainReceive(f));
            Enabled(s1, MainWrite) && Next(n, s1, MainWrite).written == s.written + [Get(s.mainQueues, f)[0]]
  {
    hide Inv;
    hide LastN;
  }
}
