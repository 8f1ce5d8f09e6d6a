/** The ring of the most recent packets (cmd/captured). */
module PacketRing {
  import opened Bytes

  /** The last n elements of s, or all of them. */
  function LastN<P>(s: seq<P>, n: nat): seq<P> {
    if |s| <= n then s else s[|s| - n..]
  }

  /** The values present, in order. */
  function Present<P>(v: seq<Option<P>>): seq<P> {
    if v == [] then []
    else Present(v[..|v| - 1]) + (if v[|v| - 1].Some? then [v[|v| - 1].value] else [])
  }

  class PacketRingBuffer<P> {
    const slots: array<Option<P>>
    var r: nat

    ghost predicate Valid()
      reads this, slots
    {
      r < slots.Length
    }

    /** The slots in ring order from r on: the oldest first. */
    ghost function View(): seq<Option<P>>
      reads this, slots
      requires Valid()
    {
      slots[r..] + slots[..r]
    }

    constructor (size: nat)
      requires size > 0
      ensures Valid() && fresh(slots) && View() == seq(size, _ => None)
    {
      slots := new Option<P>[size](_ => None);
      r := 0;
    }

    method WritePacket(p: P)
      requires Valid()
      modifies this`r, slots
      ensures Valid() && View() == Written(old(View()), p)
    {
      slots[r] := Some(p);
      r := if r + 1 == slots.Length then 0 else r + 1;
    }

    method PacketsLocked() returns (packets: seq<P>)
      requires Valid()
      ensures packets == Present(View())
    {
      packets := [];
      var view := View();
      for i := 0 to slots.Length
        invariant packets == Present(view[..i])
      {
        var at := if r + i < slots.Length then r + i else r + i - slots.Length;
        assert view[i] == slots[at];
        assert view[..i + 1][..i] == view[..i];
        if slots[at].Some? {
          packets := packets + [slots[at].value];
        }
      }
      assert view[..slots.Length] == view;
    }
  }

  /** A write replaces the oldest slot and makes it the newest. */
  function Written<P>(v: seq<Option<P>>, p: P): seq<Option<P>>
    requires v != []
  {
    v[1..] + [Some(p)]
  }

  /** The ring after the given writes, starting from n empty slots. */
  function AfterWrites<P>(n: nat, ps: seq<P>): (v: seq<Option<P>>)
    requires n > 0
    ensures |v| == n
  {
    if ps == [] then seq(n, _ => None) else Written(AfterWrites(n, ps[..|ps| - 1]), ps[|ps| - 1])
  }

  function Somes<P>(ps: seq<P>): seq<Option<P>> {
    seq(|ps|, i requires 0 <= i < |ps| => Some(ps[i]))
  }

  function Nones<P>(n: nat): seq<Option<P>> {
    seq(n, _ => None)
  }

  /** Writing while there are empty slots, and when there are none. */
  lemma WriteShape<P>(k: nat, was: seq<P>, p: P)
    requires k + |was| > 0
    ensures Written(Nones(k) + Somes(was), p) ==
            if k > 0 then Nones(k - 1) + Somes(was + [p]) else Nones(0) + Somes(was[1..] + [p])
  {
  }

  lemma LastNMore<P>(init: seq<P>, last: P, n: nat)
    requires n > 0
    ensures var was := LastN(init, n);
            LastN(init + [last], n) == if |was| < n then was + [last] else was[1..] + [last]
  {
  }

  lemma {:induction false} RingShape<P>(n: nat, ps: seq<P>)
    requires n > 0
    ensures AfterWrites(n, ps) == Nones(n - |LastN(ps, n)|) + Somes(LastN(ps, n))
  {
    if ps == [] {
      assert AfterWrites(n, ps) == Nones<P>(n) + Somes([]);
    } else {
      var init, last := ps[..|ps| - 1], ps[|ps| - 1];
      assert ps == init + [last];
      RingShape(n, init);
      LastNMore(init, last, n);
      WriteShape(n - |LastN(init, n)|, LastN(init, n), last);
      hide Nones;
      hide Somes;
    }
  }

  lemma PresentMore<P>(v: seq<Option<P>>, o: Option<P>)
    ensures Present(v + [o]) == Present(v) + if o.Some? then [o.value] else []
  {
    assert (v + [o])[..|v|] == v;
  }

  lemma ShapeMore<P>(k: nat, init: seq<P>, last: P)
    ensures Nones(k) + Somes(init + [last]) == Nones(k) + Somes(init) + [Some(last)]
  {
  }

  lemma NoneMore<P>(k: nat)
    ensures Nones<P>(k + 1) == Nones(k) + [None]
  {
  }

  lemma {:induction false} PresentOfShape<P>(k: nat, ps: seq<P>)
    ensures Present(Nones(k) + Somes(ps)) == ps
  {
    if ps != [] {
      var init, last := ps[..|ps| - 1], ps[|ps| - 1];
      assert ps == init + [last];
      PresentOfShape(k, init);
      ShapeMore(k, init, last);
      PresentMore(Nones(k) + Somes(init), Some(last));
    } else if k > 0 {
      PresentOfShape<P>(k - 1, []);
      NoneMore<P>(k - 1);
      assert Nones<P>(k) + Somes([]) == Nones<P>(k) && Nones<P>(k - 1) + Somes([]) == Nones<P>(k - 1);
      PresentMore(Nones<P>(k - 1), None);
    }
  }

  lemma LastNAt<P>(ps: seq<P>, n: nat)
    ensures var k := if |ps| < n then |ps| else n;
            && |LastN(ps, n)| == k
            && forall i :: 0 <= i < k ==> LastN(ps, n)[i] == ps[|ps| - k + i]
  {
  }

  /** After any writes the snapshot is the last min(k, n) packets, oldest first. */
  lemma SnapshotIsLastPackets<P>(n: nat, ps: seq<P>)
    requires n > 0
    ensures Present(AfterWrites(n, ps)) == LastN(ps, n)
    ensures var k := if |ps| < n then |ps| else n;
            && |LastN(ps, n)| == k
            && forall i :: 0 <= i < k ==> LastN(ps, n)[i] == ps[|ps| - k + i]
  {
    RingShape(n, ps);
    PresentOfShape(n - |LastN(ps, n)|, LastN(ps, n));
    LastNAt(ps, n);
    hide LastN;
    hide AfterWrites;
  }
}
