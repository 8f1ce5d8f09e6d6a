/** Which packets a capture session misses, told from the steps alone: when its
    handles were opened, what the main program had written when the ring was
    copied, and whose copies the kernel dropped (cmd/captured). */
module CaptureGaps {
  import opened Bytes
  import opened PacketRing
  import opened CaptureSession

  // ------------------------------------------------------- telling from steps

  /** The state in which the step was last taken, if ever. */
  function TakenIn(n: nat, steps: seq<Step>, step: Step): Option<System> {
    if steps == [] then None
    else
      var init, last := steps[..|steps| - 1], steps[|steps| - 1];
      if last == step && Enabled(Run(n, init), last) then Some(Run(n, init)) else TakenIn(n, init, step)
  }

  /** For every arrival, the sessions whose copy the kernel dropped. */
  function Losers(steps: seq<Step>): seq<set<nat>> {
    if steps == [] then []
    else
      var init, last := steps[..|steps| - 1], steps[|steps| - 1];
      Losers(init) + if last.Arrive? then [last.losers] else []
  }

  /** For every arrival, whether the kernel dropped the main program's copy. */
  function MainLost(steps: seq<Step>): seq<bool> {
    if steps == [] then []
    else
      var init, last := steps[..|steps| - 1], steps[|steps| - 1];
      MainLost(init) + if last.Arrive? then [last.mainLoses] else []
  }

  /** What the session sent or still holds. */
  predicate Delivered(s: System, id: nat, x: nat)
    requires id in s.sessions && x < |s.arrivals|
  {
    var t := s.sessions[id];
    x in t.sent || x in t.buffered || x in Get(t.queues, s.arrivals[x])
  }

  // ------------------------------------------------ what one step does to them

  /** What the handle of f received so far; absent while it is not open. */
  function Received(s: System, id: nat, f: Iface): Option<seq<nat>> {
    if id in s.sessions && f in s.sessions[id].received then Some(s.sessions[id].received[f]) else None
  }

  function Ring(s: System, id: nat): seq<nat> {
    if id in s.sessions then s.sessions[id].snapshot else []
  }

  /** The main program holds or has written the packet. */
  predicate InPipeline(s: System, x: nat, f: Iface) {
    x in s.written || x in s.hand || x in Get(s.mainQueues, f)
  }

  lemma HandlesOpen(s: System, id: nat, f: Iface)
    requires Inv(s)
    ensures id in s.sessions ==> (f in s.sessions[id].queues <==> Received(s, id, f).Some?)
  {
    if id in s.sessions {
      assert SessionOk(s.arrivals, s.written, id in s.lock, s.sessions[id]);
      hide SessionOk;
    }
  }

  lemma NextReceived(n: nat, s: System, step: Step, id: nat, f: Iface)
    requires Inv(s) && Enabled(s, step)
    ensures Received(Next(n, s, step), id, f) ==
            if step == Open(id, f) then Some([])
            else if step.Arrive? && step.f == f && id !in step.losers && Received(s, id, f).Some?
            then Some(Received(s, id, f).value + [|s.arrivals|])
            else Received(s, id, f)
  {
    HandlesOpen(s, id, f);
    hide Inv;
    hide LastN;
    hide Next;
    hide Enabled;
    hide Received;
    if step.Arrive? {
      ArriveReceived(n, s, step, id, f);
    } else if step.Open? {
      OpenReceived(n, s, step, id, f);
    } else {
      OtherReceived(n, s, step, id, f);
    }
  }

  lemma OpenReceived(n: nat, s: System, step: Step, id: nat, f: Iface)
    requires Enabled(s, step) && step.Open?
    ensures Received(Next(n, s, step), id, f) == if step == Open(id, f) then Some([]) else Received(s, id, f)
  {
    hide LastN;
    hide Get;
  }

  lemma ArriveReceived(n: nat, s: System, step: Step, id: nat, f: Iface)
    requires step.Arrive? && (id in s.sessions ==> (f in s.sessions[id].queues <==> Received(s, id, f).Some?))
    ensures Received(Next(n, s, step), id, f) ==
            if step.f == f && id !in step.losers && Received(s, id, f).Some?
            then Some(Received(s, id, f).value + [|s.arrivals|])
            else Received(s, id, f)
  {
    hide LastN;
    var s' := Next(n, s, step);
    assert s'.sessions.Keys == s.sessions.Keys;
    if id in s.sessions {
      assert s'.sessions[id] == if id in step.losers then s.sessions[id]
                                  else Deliver(s.sessions[id], step.f, |s.arrivals|);
    }
  }

  lemma OtherReceived(n: nat, s: System, step: Step, id: nat, f: Iface)
    requires Enabled(s, step) && !step.Arrive? && !step.Open?
    ensures Received(Next(n, s, step), id, f) == Received(s, id, f)
  {
    hide LastN;
    hide Get;
  }

  lemma NextRing(n: nat, s: System, step: Step, id: nat)
    requires Enabled(s, step)
    ensures Ring(Next(n, s, step), id) == if step == Copy(id) then LastN(s.written, n) else Ring(s, id)
  {
    hide LastN;
  }

  lemma NextArrivals(n: nat, s: System, step: Step)
    requires Enabled(s, step)
    ensures Next(n, s, step).arrivals == if step.Arrive? then s.arrivals + [step.f] else s.arrivals
    ensures Next(n, s, step).written == if step.MainWrite? then s.written + s.hand else s.written
  {
    hide LastN;
  }

  // --------------------------------------------------------------- over a run

  lemma RunNext(n: nat, steps: seq<Step>)
    requires steps != []
    ensures var s, step := Run(n, steps[..|steps| - 1]), steps[|steps| - 1];
            Run(n, steps) == if Enabled(s, step) then Next(n, s, step) else s
  {
  }

  lemma {:induction false} SameLength(n: nat, steps: seq<Step>)
    ensures |Losers(steps)| == |MainLost(steps)| == |Run(n, steps).arrivals|
  {
    if steps != [] {
      var s, step := Run(n, steps[..|steps| - 1]), steps[|steps| - 1];
      SameLength(n, steps[..|steps| - 1]);
      RunNext(n, steps);
      if Enabled(s, step) { NextArrivals(n, s, step); }
      hide Next;
    }
  }

  /** A step was taken in the state after some of the earlier steps, and arrivals only grow. */
  lemma {:induction false} TakenBefore(n: nat, steps: seq<Step>, step: Step) returns (k: nat)
    ensures k <= |steps|
    ensures TakenIn(n, steps, step).Some? ==>
              && TakenIn(n, steps, step).value == Run(n, steps[..k])
              && Run(n, steps[..k]).arrivals <= Run(n, steps).arrivals
              && Enabled(Run(n, steps[..k]), step)
  {
    k := 0;
    if TakenIn(n, steps, step).Some? {
      var init := steps[..|steps| - 1];
      RunNext(n, steps);
      if Enabled(Run(n, init), steps[|steps| - 1]) { NextArrivals(n, Run(n, init), steps[|steps| - 1]); }
      hide Next;
      hide Enabled;
      if steps[|steps| - 1] == step && Enabled(Run(n, init), step) {
        k := |init|;
      } else {
        k := TakenBefore(n, init, step);
        assert init[..k] == steps[..k];
      }
    }
  }

  /** The handle of f has received exactly the packets of f that arrived since
      it was opened and whose copy was not dropped. */
  lemma {:induction false} ReceivedSinceOpen(n: nat, steps: seq<Step>, id: nat, f: Iface, x: nat)
    ensures |Losers(steps)| == |Run(n, steps).arrivals|
    ensures var s, atOpen, got := Run(n, steps), TakenIn(n, steps, Open(id, f)), Received(Run(n, steps), id, f);
            && (atOpen.Some? <==> got.Some?)
            && (atOpen.Some? ==> (x in got.value <==> x < |s.arrivals| && s.arrivals[x] == f &&
                                                      |atOpen.value.arrivals| <= x && id !in Losers(steps)[x]))
  {
    SameLength(n, steps);
    hide Next;
    hide Enabled;
    hide Inv;
    if steps != [] {
      var init, step := steps[..|steps| - 1], steps[|steps| - 1];
      var s := Run(n, init);
      ReceivedSinceOpen(n, init, id, f, x);
      RunKeepsInv(n, init);
      RunNext(n, steps);
      if Enabled(s, step) {
        NextReceived(n, s, step, id, f);
        NextArrivals(n, s, step);
        var k := TakenBefore(n, init, Open(id, f));
      } else {
        assert step.Arrive? ==> Enabled(s, step) by { ArriveIsEnabled(s, step); }
      }
    }
  }

  lemma ArriveIsEnabled(s: System, step: Step)
    ensures step.Arrive? ==> Enabled(s, step)
  {
  }

  /** The ring copied is the end of what was written at that time. */
  lemma {:induction false} RingIsCopied(n: nat, steps: seq<Step>, id: nat)
    ensures var atCopy := TakenIn(n, steps, Copy(id));
            Ring(Run(n, steps), id) == if atCopy.Some? then LastN(atCopy.value.written, n) else []
  {
    hide Next;
    hide Enabled;
    hide LastN;
    if steps != [] {
      var init, step := steps[..|steps| - 1], steps[|steps| - 1];
      RingIsCopied(n, init, id);
      RunNext(n, steps);
      if Enabled(Run(n, init), step) { NextRing(n, Run(n, init), step, id); }
    }
  }

  // -------------------------------------------------------- the main program

  /** A step moves a packet along the main program's pipeline or leaves it where it is. */
  lemma NextPipeline(n: nat, s: System, step: Step, x: nat)
    requires Inv(s) && Enabled(s, step) && x < |s.arrivals|
    ensures InPipeline(Next(n, s, step), x, s.arrivals[x]) <==> InPipeline(s, x, s.arrivals[x])
  {
    if step.Arrive? {
      ArrivePipeline(n, s, step, x);
    } else if step.MainReceive? {
      QueuesAreOf(s, step.f);
      ReceivePipeline(n, s, step.f, x);
    } else {
      OtherPipeline(n, s, step, x);
    }
    hide *;
  }

  lemma ArrivePipeline(n: nat, s: System, step: Step, x: nat)
    requires step.Arrive? && x < |s.arrivals|
    ensures InPipeline(Next(n, s, step), x, s.arrivals[x]) <==> InPipeline(s, x, s.arrivals[x])
  {
    hide Deliver;
    hide LastN;
    PushGet(s.mainQueues, step.f, |s.arrivals|, s.arrivals[x]);
    hide Push;
    hide Get;
  }

  lemma OtherPipeline(n: nat, s: System, step: Step, x: nat)
    requires Enabled(s, step) && !step.Arrive? && !step.MainReceive? && x < |s.arrivals|
    ensures InPipeline(Next(n, s, step), x, s.arrivals[x]) <==> InPipeline(s, x, s.arrivals[x])
  {
    var s' := Next(n, s, step);
    assert s'.mainQueues == s.mainQueues && s'.written + s'.hand == s.written + s.hand by {
      hide Get;
      hide LastN;
    }
    hide Next;
    hide Enabled;
    InEither(s.written, s.hand, x);
    InEither(s'.written, s'.hand, x);
  }

  lemma InEither(a: seq<nat>, b: seq<nat>, x: nat)
    ensures x in a || x in b <==> x in a + b
  {
  }

  lemma QueuesAreOf(s: System, f: Iface)
    requires Inv(s)
    ensures Of(s.arrivals, Get(s.mainQueues, f), f) == Get(s.mainQueues, f)
    ensures Below(s.written + s.hand, |s.arrivals|) && Below(Get(s.mainQueues, f), |s.arrivals|)
    ensures Increasing(Pipeline(s, f))
  {
    hide Of;
    hide Pipeline;
    hide SessionOk;
    assert MainOk(s, Uplink) && MainOk(s, Lan);
  }

  lemma ReceiveStep(n: nat, s: System, g: Iface, f: Iface)
    requires Enabled(s, MainReceive(g))
    ensures var s', q := Next(n, s, MainReceive(g)), Get(s.mainQueues, g);
            && s.hand == [] && q != [] && s'.hand == [q[0]] && s'.written == s.written
            && Get(s'.mainQueues, f) == if f == g then q[1..] else Get(s.mainQueues, f)
  {
  }

  lemma ReceivePipeline(n: nat, s: System, g: Iface, x: nat)
    requires Of(s.arrivals, Get(s.mainQueues, g), g) == Get(s.mainQueues, g)
    requires Enabled(s, MainReceive(g)) && x < |s.arrivals|
    ensures InPipeline(Next(n, s, MainReceive(g)), x, s.arrivals[x]) <==> InPipeline(s, x, s.arrivals[x])
  {
    ReceiveStep(n, s, g, s.arrivals[x]);
    hide Enabled;
    hide Next;
    hide Get;
    var q := Get(s.mainQueues, g);
    TakeHead(s.arrivals, q, g);
    hide Of;
    InEither([q[0]], q[1..], x);
    assert q == [q[0]] + q[1..];
  }

  lemma NewInPipeline(n: nat, s: System, step: Step)
    requires Inv(s) && step.Arrive?
    ensures InPipeline(Next(n, s, step), |s.arrivals|, step.f) <==> !step.mainLoses
  {
    var x := |s.arrivals|;
    QueuesAreOf(s, step.f);
    InEither(s.written, s.hand, x);
    PushGet(s.mainQueues, step.f, x, step.f);
    hide Inv;
    hide Of;
    hide LastN;
    hide Deliver;
  }

  /** The main program holds or has written exactly the packets the kernel gave it. */
  lemma {:induction false} Accounted(n: nat, steps: seq<Step>, x: nat)
    requires x < |Run(n, steps).arrivals|
    ensures |MainLost(steps)| == |Run(n, steps).arrivals|
    ensures InPipeline(Run(n, steps), x, Run(n, steps).arrivals[x]) <==> !MainLost(steps)[x]
  {
    SameLength(n, steps);
    hide Inv;
    hide InPipeline;
    hide Next;
    hide Enabled;
    var init, step := steps[..|steps| - 1], steps[|steps| - 1];
    var s := Run(n, init);
    RunKeepsInv(n, init);
    SameLength(n, init);
    RunNext(n, steps);
    ArriveIsEnabled(s, step);
    if Enabled(s, step) { NextArrivals(n, s, step); }
    if x < |s.arrivals| {
      Accounted(n, init, x);
      if Enabled(s, step) { NextPipeline(n, s, step, x); }
    } else {
      NewInPipeline(n, s, step);
    }
  }

  lemma {:induction false} LostEarlier(steps: seq<Step>, k: nat)
    requires k <= |steps|
    ensures MainLost(steps[..k]) <= MainLost(steps)
  {
    if k < |steps| {
      LostEarlier(steps[..|steps| - 1], k);
      assert steps[..|steps| - 1][..k] == steps[..k];
    } else {
      assert steps[..k] == steps;
    }
  }

  /** What was written is no longer held. */
  lemma WrittenIsNotHeld(s: System, x: nat)
    requires Inv(s) && x < |s.arrivals| && x in s.written
    ensures !Pending(s, x)
  {
    hide Inv;
    var f := s.arrivals[x];
    QueuesAreOf(s, f);
    OfConcat(s.arrivals, s.written, s.hand, f);
    OfContains(s.arrivals, s.written, f, x);
    OfContains(s.arrivals, s.hand, f, x);
    hide Of;
    hide Below;
    hide Increasing;
    var a, b, c := Of(s.arrivals, s.written, f), Of(s.arrivals, s.hand, f), Get(s.mainQueues, f);
    assert Pipeline(s, f) == a + (b + c);
    Parted(a, b + c);
    hide Pipeline;
    hide Get;
    InEither(b, c, x);
  }

  lemma Parted(a: seq<nat>, b: seq<nat>)
    requires Increasing(a + b)
    ensures forall x :: x in a ==> x !in b
  {
    forall i, j | 0 <= i < |a| && 0 <= j < |b|
      ensures a[i] < b[j]
    {
      assert (a + b)[i] < (a + b)[|a| + j];
    }
  }

  // -------------------------------------------------------- opening and copying

  lemma NextOpening(n: nat, s: System, step: Step, id: nat)
    requires Enabled(s, step) && At(Next(n, s, step), id, Opening)
    ensures At(s, id, Opening) || At(s, id, Waiting)
  {
    hide LastN;
    hide Get;
  }

  /** Nothing is written while a session opens handles, and a session that waits has none open. */
  lemma OpeningBlocks(n: nat, s: System, step: Step, id: nat, f: Iface)
    requires Inv(s) && Enabled(s, step) && At(Next(n, s, step), id, Opening) && Received(s, id, f).Some?
    ensures At(s, id, Opening) && Next(n, s, step).written == s.written
  {
    hide Inv;
    hide Next;
    hide Received;
    NextOpening(n, s, step, id);
    NextArrivals(n, s, step);
    LockedPhases(s, id);
    HandlesOpen(s, id, f);
  }

  /** While a session opens handles it holds the lock, so nothing is written. */
  lemma {:induction false} NothingWritten(n: nat, steps: seq<Step>, id: nat, f: Iface)
    requires At(Run(n, steps), id, Opening)
    ensures var atOpen := TakenIn(n, steps, Open(id, f));
            atOpen.Some? ==> atOpen.value.written == Run(n, steps).written
  {
    hide Next;
    hide Enabled;
    hide Inv;
    hide At;
    hide Received;
    if TakenIn(n, steps, Open(id, f)).Some? {
      var init, step := steps[..|steps| - 1], steps[|steps| - 1];
      var s := Run(n, init);
      RunKeepsInv(n, init);
      RunNext(n, steps);
      ReceivedSinceOpen(n, init, id, f, 0);
      if Enabled(s, step) { NextArrivals(n, s, step); }
      if TakenIn(n, init, Open(id, f)).Some? && !(step == Open(id, f) && Enabled(s, step)) {
        if Enabled(s, step) { OpeningBlocks(n, s, step, id, f); }
        NothingWritten(n, init, id, f);
      }
    }
  }

  lemma OpenNeedsClosed(s: System, id: nat, f: Iface)
    requires Inv(s) && Enabled(s, Open(id, f))
    ensures Received(s, id, f).None?
  {
    hide Inv;
    HandlesOpen(s, id, f);
  }

  /** A handle stays open, so it is opened once. */
  lemma OpenStays(n: nat, steps: seq<Step>, id: nat, f: Iface)
    requires steps != []
    ensures var init := steps[..|steps| - 1];
            TakenIn(n, init, Open(id, f)).Some? ==> TakenIn(n, steps, Open(id, f)) == TakenIn(n, init, Open(id, f))
  {
    hide Inv;
    hide Enabled;
    hide Run;
    hide Received;
    var init := steps[..|steps| - 1];
    RunKeepsInv(n, init);
    ReceivedSinceOpen(n, init, id, f, 0);
    if Enabled(Run(n, init), Open(id, f)) { OpenNeedsClosed(Run(n, init), id, f); }
  }

  lemma CopyNeedsHandles(s: System, id: nat, f: Iface)
    requires Enabled(s, Copy(id))
    ensures At(s, id, Opening) && f in s.sessions[id].queues
  {
  }

  /** To copy the ring a session must have opened both handles. */
  lemma CopyAfterOpen(n: nat, steps: seq<Step>, id: nat, f: Iface)
    requires Enabled(Run(n, steps), Copy(id))
    ensures var atOpen := TakenIn(n, steps, Open(id, f));
            && atOpen.Some?
            && atOpen.value.arrivals <= Run(n, steps).arrivals
            && atOpen.value.written == Run(n, steps).written
  {
    RunKeepsInv(n, steps);
    HandlesOpen(Run(n, steps), id, f);
    ReceivedSinceOpen(n, steps, id, f, 0);
    CopyNeedsHandles(Run(n, steps), id, f);
    hide Enabled;
    hide Next;
    hide Inv;
    hide Run;
    hide Received;
    var _ := TakenBefore(n, steps, Open(id, f));
    NothingWritten(n, steps, id, f);
  }

  /** The handles were opened before the ring was copied, and nothing was written in between. */
  lemma {:induction false} OpenBeforeCopy(n: nat, steps: seq<Step>, id: nat, f: Iface)
    requires TakenIn(n, steps, Copy(id)).Some?
    ensures var atCopy, atOpen := TakenIn(n, steps, Copy(id)), TakenIn(n, steps, Open(id, f));
            && atOpen.Some?
            && atOpen.value.arrivals <= atCopy.value.arrivals
            && atOpen.value.written == atCopy.value.written
  {
    hide Next;
    hide Run;
    hide Enabled;
    var init, step := steps[..|steps| - 1], steps[|steps| - 1];
    OpenStays(n, steps, id, f);
    if step == Copy(id) && Enabled(Run(n, init), step) {
      CopyAfterOpen(n, init, id, f);
    } else {
      OpenBeforeCopy(n, init, id, f);
    }
  }

  // ---------------------------------------------------------------- theorems

  /** The main program has been given the packet and has not written it. */
  predicate Pending(s: System, x: nat)
    requires x < |s.arrivals|
  {
    x in s.hand || x in Get(s.mainQueues, s.arrivals[x])
  }

  /** Written, but no longer in a ring of size n. */
  predicate Evicted(n: nat, s: System, x: nat) {
    x in s.written && x !in LastN(s.written, n)
  }

  /** A packet is delivered to a session exactly when it was among the last n
      written when the ring was copied, or arrived on an interface whose handle
      was already open and was not dropped there. */
  lemma SessionMissesExactly(n: nat, steps: seq<Step>, id: nat, x: nat)
    requires id in Run(n, steps).sessions && x < |Run(n, steps).arrivals|
    ensures |Losers(steps)| == |Run(n, steps).arrivals|
    ensures var s, atCopy := Run(n, steps), TakenIn(n, steps, Copy(id));
            var atOpen := TakenIn(n, steps, Open(id, s.arrivals[x]));
            Delivered(s, id, x) <==>
            || (atCopy.Some? && x in LastN(atCopy.value.written, n))
            || (atOpen.Some? && |atOpen.value.arrivals| <= x && id !in Losers(steps)[x])
  {
    var f := Run(n, steps).arrivals[x];
    DeliversWhatItGot(n, steps, id, x);
    ReceivedSinceOpen(n, steps, id, f, x);
    RingIsCopied(n, steps, id);
    hide LastN;
    hide Run;
  }

  /** Why a packet is missed by a session that copied the ring: if it arrived
      before the handle of its interface was open, because the main program's
      copy was dropped, or was not written yet, or had left the ring; and
      otherwise because the session's own copy was dropped. */
  lemma MissedBecause(n: nat, steps: seq<Step>, id: nat, x: nat)
    requires id in Run(n, steps).sessions && x < |Run(n, steps).arrivals| && TakenIn(n, steps, Copy(id)).Some?
    ensures |Losers(steps)| == |MainLost(steps)| == |Run(n, steps).arrivals|
    ensures var s, atCopy := Run(n, steps), TakenIn(n, steps, Copy(id)).value;
            var atOpen := TakenIn(n, steps, Open(id, s.arrivals[x]));
            && atOpen.Some? && |atOpen.value.arrivals| <= |atCopy.arrivals| <= |s.arrivals|
            && (!Delivered(s, id, x) <==>
                if x < |atOpen.value.arrivals| then MainLost(steps)[x] || Pending(atCopy, x) || Evicted(n, atCopy, x)
                else id in Losers(steps)[x])
            && (x < |atCopy.arrivals| && Pending(atCopy, x) ==> !MainLost(steps)[x] && !Evicted(n, atCopy, x))
  {
    SameLength(n, steps);
    SessionMissesExactly(n, steps, id, x);
    var f := Run(n, steps).arrivals[x];
    OpenBeforeCopy(n, steps, id, f);
    var k := TakenBefore(n, steps, Copy(id));
    var j := TakenBefore(n, steps, Open(id, f));
    RunKeepsInv(n, steps[..k]);
    RunKeepsInv(n, steps[..j]);
    var atCopy, atOpen := Run(n, steps[..k]), Run(n, steps[..j]);
    RingBelow(n, atCopy);
    RingBelow(n, atOpen);
    if x < |atCopy.arrivals| {
      Accounted(n, steps[..k], x);
      LostEarlier(steps, k);
      if x in atCopy.written { WrittenIsNotHeld(atCopy, x); }
    }
    hide Inv;
    hide Delivered;
    hide LastN;
    hide Run;
    hide TakenIn;
  }

  /** The kernel gave the packet to whoever was to capture it for the session:
      the main program before the session's handle was open, then that handle. */
  predicate Handed(n: nat, steps: seq<Step>, id: nat, x: nat)
    requires |Losers(steps)| == |MainLost(steps)| == |Run(n, steps).arrivals| && x < |Run(n, steps).arrivals|
  {
    var atOpen := TakenIn(n, steps, Open(id, Run(n, steps).arrivals[x]));
    if atOpen.Some? && |atOpen.value.arrivals| <= x then id !in Losers(steps)[x] else !MainLost(steps)[x]
  }

  /** The session gets every packet of f handed over for it that the ring still
      had room for, exactly when at the time of copying the main program was not
      behind on packets of f from before the handle was open. */
  lemma NoGapExactly(n: nat, steps: seq<Step>, id: nat, f: Iface)
    requires id in Run(n, steps).sessions && TakenIn(n, steps, Copy(id)).Some?
    ensures |Losers(steps)| == |MainLost(steps)| == |Run(n, steps).arrivals|
    ensures var s, atCopy, atOpen := Run(n, steps), TakenIn(n, steps, Copy(id)).value, TakenIn(n, steps, Open(id, f));
            && atOpen.Some? && atOpen.value.arrivals <= atCopy.arrivals <= s.arrivals
            && ((forall x: nat :: x < |s.arrivals| && s.arrivals[x] == f && Handed(n, steps, id, x) ==>
                                    Delivered(s, id, x) || Evicted(n, atCopy, x)) <==>
                (forall x: nat :: x < |atOpen.value.arrivals| && s.arrivals[x] == f ==> !Pending(atCopy, x)))
  {
    SameLength(n, steps);
    OpenBeforeCopy(n, steps, id, f);
    var k := TakenBefore(n, steps, Copy(id));
    var s, atCopy, atOpen := Run(n, steps), TakenIn(n, steps, Copy(id)).value, TakenIn(n, steps, Open(id, f)).value;
    forall x: nat | x < |s.arrivals| && s.arrivals[x] == f
      ensures (Handed(n, steps, id, x) ==> Delivered(s, id, x) || Evicted(n, atCopy, x)) <==>
              (x < |atOpen.arrivals| ==> !Pending(atCopy, x))
    {
      MissedBecause(n, steps, id, x);
      GapHere(n, steps, id, x);
    }
  }

  lemma GapHere(n: nat, steps: seq<Step>, id: nat, x: nat)
    requires id in Run(n, steps).sessions && x < |Run(n, steps).arrivals| && TakenIn(n, steps, Copy(id)).Some?
    ensures |Losers(steps)| == |MainLost(steps)| == |Run(n, steps).arrivals|
    ensures var s, atCopy := Run(n, steps), TakenIn(n, steps, Copy(id)).value;
            var atOpen := TakenIn(n, steps, Open(id, s.arrivals[x]));
            && atOpen.Some? && |atOpen.value.arrivals| <= |atCopy.arrivals|
            && ((Handed(n, steps, id, x) ==> Delivered(s, id, x) || Evicted(n, atCopy, x)) <==>
                (x < |atOpen.value.arrivals| ==> !Pending(atCopy, x)))
  {
    MissedBecause(n, steps, id, x);
  }

  lemma PastOpening(n: nat, s: System, step: Step, id: nat)
    requires Enabled(s, step) && id in s.sessions
    requires s.sessions[id].phase !in {Waiting, Opening} || step == Copy(id)
    ensures id in Next(n, s, step).sessions && Next(n, s, step).sessions[id].phase !in {Waiting, Opening}
  {
    hide LastN;
    hide Get;
  }

  /** The ring is copied once. */
  lemma {:induction false} CopiedOnce(n: nat, steps: seq<Step>, id: nat)
    requires TakenIn(n, steps, Copy(id)).Some?
    ensures id in Run(n, steps).sessions && Run(n, steps).sessions[id].phase !in {Waiting, Opening}
  {
    hide Next;
    var init, step := steps[..|steps| - 1], steps[|steps| - 1];
    var s := Run(n, init);
    if !(step == Copy(id) && Enabled(s, step)) { CopiedOnce(n, init, id); }
    if Enabled(s, step) { PastOpening(n, s, step, id); }
  }

  lemma MissedNext(n: nat, steps: seq<Step>, step: Step, id: nat, x: nat)
    requires TakenIn(n, steps, Copy(id)).Some? && x < |Run(n, steps).arrivals|
    requires id in Run(n, steps).sessions && !Delivered(Run(n, steps), id, x)
    ensures var s' := Run(n, steps + [step]);
            && id in s'.sessions && x < |s'.arrivals| && !Delivered(s', id, x)
            && TakenIn(n, steps + [step], Copy(id)).Some?
  {
    hide Next;
    hide Inv;
    hide LastN;
    var more, f := steps + [step], Run(n, steps).arrivals[x];
    assert more[..|steps|] == steps;
    CopiedOnce(n, steps, id);
    CopiedOnce(n, more, id);
    OpenStays(n, more, id, f);
    OpenBeforeCopy(n, steps, id, f);
    if Enabled(Run(n, steps), step) { NextArrivals(n, Run(n, steps), step); }
    SameLength(n, steps);
    SessionMissesExactly(n, steps, id, x);
    SessionMissesExactly(n, more, id, x);
    assert Losers(more)[x] == Losers(steps)[x];
  }

  /** A packet missed once the ring was copied is never delivered later. */
  lemma {:induction false} MissedForever(n: nat, steps: seq<Step>, more: seq<Step>, id: nat, x: nat)
    requires TakenIn(n, steps, Copy(id)).Some? && x < |Run(n, steps).arrivals|
    requires id in Run(n, steps).sessions && !Delivered(Run(n, steps), id, x)
    ensures var s' := Run(n, steps + more);
            id in s'.sessions && x < |s'.arrivals| && !Delivered(s', id, x)
    decreases more
  {
    hide Run;
    hide Delivered;
    hide TakenIn;
    if more == [] {
      assert steps + more == steps;
    } else {
      MissedNext(n, steps, more[0], id, x);
      assert steps + more == steps + [more[0]] + more[1..];
      MissedForever(n, steps + [more[0]], more[1..], id, x);
    }
  }

  // ------------------------------------------------------------------- a gap

  function AfterStep(n: nat, s: System, step: Step): System {
    if Enabled(s, step) then Next(n, s, step) else s
  }

  lemma RunSnoc(n: nat, steps: seq<Step>, step: Step)
    ensures Run(n, steps + [step]) == AfterStep(n, Run(n, steps), step)
  {
    assert (steps + [step])[..|steps|] == steps;
  }

  /** A packet arrives, a session opens its handles and copies the ring, and only
      then the main program gets to write the packet. */
  const OVERTAKING: seq<Step> :=
    [Arrive(Uplink, false, {}), Start(0), Acquire(0), Open(0, Uplink), Open(0, Lan), Copy(0), Unlock(0),
     MainReceive(Uplink), MainWrite]

  /** The system while the session goes through its phases. */
  function Locked(t: Session): System {
    System([Uplink], map[Uplink := [0]], [], [], if t.phase in {Opening, Copied} then {0} else {}, map[0 := t])
  }

  const BOTH: map<Iface, seq<nat>> := map[Uplink := [], Lan := []]

  const NEITHER: map<Iface, seq<nat>> := map[]
  const ONE: map<Iface, seq<nat>> := map[Uplink := []]

  lemma FirstArrival(n: nat)
    ensures AfterStep(n, INITIAL, Arrive(Uplink, false, {})) == System([Uplink], map[Uplink := [0]], [], [], {}, map[])
  {
    var s := Next(n, INITIAL, Arrive(Uplink, false, {}));
    assert s.sessions == map[];
    assert [] + [0] == [0] && s.arrivals == [Uplink];
  }

  lemma SessionStarts(n: nat)
    ensures AfterStep(n, System([Uplink], map[Uplink := [0]], [], [], {}, map[]), Start(0)) ==
            Locked(Session(Waiting, NEITHER, NEITHER, [], [], []))
    ensures AfterStep(n, Locked(Session(Waiting, NEITHER, NEITHER, [], [], [])), Acquire(0)) ==
            Locked(Session(Opening, NEITHER, NEITHER, [], [], []))
  {
  }

  lemma HandlesOpened(n: nat)
    ensures AfterStep(n, Locked(Session(Opening, NEITHER, NEITHER, [], [], [])), Open(0, Uplink)) ==
            Locked(Session(Opening, ONE, ONE, [], [], []))
    ensures AfterStep(n, Locked(Session(Opening, ONE, ONE, [], [], [])), Open(0, Lan)) ==
            Locked(Session(Opening, BOTH, BOTH, [], [], []))
  {
  }

  lemma RingCopied(n: nat)
    ensures AfterStep(n, Locked(Session(Opening, BOTH, BOTH, [], [], [])), Copy(0)) ==
            Locked(Session(Copied, BOTH, BOTH, [], [], []))
    ensures AfterStep(n, Locked(Session(Copied, BOTH, BOTH, [], [], [])), Unlock(0)) ==
            Locked(Session(Running, BOTH, BOTH, [], [], []))
  {
  }

  lemma PacketWritten(n: nat, sessions: map<nat, Session>)
    ensures AfterStep(n, System([Uplink], map[Uplink := [0]], [], [], {}, sessions), MainReceive(Uplink)) ==
            System([Uplink], map[Uplink := []], [0], [], {}, sessions)
    ensures AfterStep(n, System([Uplink], map[Uplink := []], [0], [], {}, sessions), MainWrite) ==
            System([Uplink], map[Uplink := []], [], [0], {}, sessions)
  {
    hide LastN;
    assert [0][1..] == [];
    assert [] + [0] == [0];
  }

  lemma OvertakingSteps()
    ensures var o := OVERTAKING;
            |o| == 9 && forall k :: 0 <= k < 9 ==> o[..k + 1] == o[..k] + [o[k]]
  {
  }

  lemma Opened(n: nat)
    ensures Run(n, OVERTAKING[..5]) == Locked(Session(Opening, BOTH, BOTH, [], [], []))
  {
    var o := OVERTAKING;
    OvertakingSteps();
    assert o[..0] == [];
    assert Run(n, o[..0]) == INITIAL;
    hide Run;
    hide AfterStep;
    RunSnoc(n, o[..0], o[0]);
    FirstArrival(n);
    RunSnoc(n, o[..1], o[1]);
    RunSnoc(n, o[..2], o[2]);
    SessionStarts(n);
    RunSnoc(n, o[..3], o[3]);
    RunSnoc(n, o[..4], o[4]);
    HandlesOpened(n);
  }

  lemma Overtaken(n: nat)
    ensures Run(n, OVERTAKING) ==
            System([Uplink], map[Uplink := []], [], [0], {}, map[0 := Session(Running, BOTH, BOTH, [], [], [])])
  {
    var o := OVERTAKING;
    OvertakingSteps();
    assert o[..9] == o;
    Opened(n);
    hide Run;
    hide AfterStep;
    RunSnoc(n, o[..5], o[5]);
    RunSnoc(n, o[..6], o[6]);
    RingCopied(n);
    RunSnoc(n, o[..7], o[7]);
    RunSnoc(n, o[..8], o[8]);
    PacketWritten(n, map[0 := Session(Running, BOTH, BOTH, [], [], [])]);
  }

  /** Whatever the size of the ring and whatever happens next: the packet was
      written to the ring, and the session is never sent it. */
  lemma OvertakenIsMissed(n: nat, more: seq<Step>)
    ensures var s, s' := Run(n, OVERTAKING), Run(n, OVERTAKING + more);
            && s.arrivals == [Uplink] && s.written == [0] && At(s, 0, Running)
            && 0 in s'.sessions && |s'.arrivals| > 0 && !Delivered(s', 0, 0)
  {
    Overtaken(n);
    OvertakingCopies(n);
    hide Run;
    hide TakenIn;
    MissedForever(n, OVERTAKING, more, 0, 0);
  }

  lemma OvertakingCopies(n: nat)
    ensures TakenIn(n, OVERTAKING, Copy(0)).Some?
  {
    var o := OVERTAKING;
    assert o[..8][..7] == o[..7] && o[..7][..6] == o[..6] && o[..6][..5] == o[..5];
    Opened(n);
    assert Enabled(Run(n, o[..5]), Copy(0));
    hide Run;
    hide Enabled;
    assert TakenIn(n, o[..6], Copy(0)).Some?;
    assert TakenIn(n, o[..7], Copy(0)).Some?;
    assert TakenIn(n, o[..8], Copy(0)).Some?;
    assert o == o[..8] + [o[8]];
  }
}
