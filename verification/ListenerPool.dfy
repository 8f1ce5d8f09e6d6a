/** Listening on a changing set of hosts (multilisten): the pool with its death
    goroutines as a system of steps, and the pool object, proved to take them. */
module ListenerPool {

  // ------------------------------------------------------------ runs of a pool

  /** Listeners are numbered as they are started. alive are those that were
      neither closed nor recorded as dead; doomed are the closed ones whose
      goroutine has not yet recorded it. */
  datatype State = State(pool: map<string, nat>, hostOf: map<nat, string>, next: nat, alive: set<nat>, doomed: set<nat>)

  datatype Step =
    | Serve(hosts: seq<string>)
    | RecordDeath(id: nat)

  function AddHost(s: State, h: string): State {
    if h in s.pool then s
    else s.(pool := s.pool[h := s.next], hostOf := s.hostOf[s.next := h],
            next := s.next + 1, alive := s.alive + {s.next})
  }

  function AddHosts(s: State, hosts: seq<string>): State {
    if hosts == [] then s else AddHost(AddHosts(s, hosts[..|hosts| - 1]), hosts[|hosts| - 1])
  }

  function HostSet(hosts: seq<string>): set<string> {
    set h | h in hosts
  }

  function Vanished(s: State, hosts: seq<string>): set<string> {
    set h | h in s.pool && h !in hosts
  }

  function Next(s: State, step: Step): State {
    match step
    case Serve(hosts) =>
      var gone, t := Vanished(s, hosts), AddHosts(s, hosts);
      var closed := set h | h in gone :: s.pool[h];
      t.(pool := t.pool - gone, alive := t.alive - closed, doomed := t.doomed + closed)
    case RecordDeath(id) =>
      if id in s.hostOf && (id in s.alive || id in s.doomed)
      then s.(pool := s.pool - {s.hostOf[id]}, alive := s.alive - {id}, doomed := s.doomed - {id})
      else s
  }

  /** The state before step k. */
  function At(s: State, steps: seq<Step>, k: nat): State
    requires k <= |steps|
  {
    if k == 0 then s else Next(At(s, steps, k - 1), steps[k - 1])
  }

  ghost predicate Numbered(s: State) {
    && (forall h :: h in s.pool ==> s.pool[h] in s.hostOf && s.hostOf[s.pool[h]] == h)
    && (forall id :: id in s.hostOf ==> id < s.next)
    && s.alive <= s.hostOf.Keys && s.doomed <= s.hostOf.Keys
    && s.alive !! s.doomed
  }

  /** The pool lists exactly the listeners that are alive, each under its host. */
  ghost predicate Exact(s: State) {
    && Numbered(s)
    && (forall h :: h in s.pool ==> s.pool[h] in s.alive)
    && (forall id :: id in s.alive ==> s.hostOf[id] in s.pool && s.pool[s.hostOf[id]] == id)
  }

  lemma AddHostExact(s: State, h: string)
    requires Exact(s)
    ensures Exact(AddHost(s, h)) && AddHost(s, h).pool.Keys == s.pool.Keys + {h}
  {
  }

  lemma {:induction false} AddHostsKeeps(s: State, hosts: seq<string>)
    ensures var t := AddHosts(s, hosts);
            && t.pool.Keys == s.pool.Keys + HostSet(hosts)
            && (forall h :: h in s.pool ==> t.pool[h] == s.pool[h])
  {
    if hosts != [] {
      AddHostsKeeps(s, hosts[..|hosts| - 1]);
      assert hosts == hosts[..|hosts| - 1] + [hosts[|hosts| - 1]];
    }
  }

  lemma {:induction false} AddHostsExact(s: State, hosts: seq<string>)
    requires Exact(s)
    ensures Exact(AddHosts(s, hosts)) && AddHosts(s, hosts).doomed == s.doomed
  {
    hide Exact;
    if hosts != [] {
      AddHostsExact(s, hosts[..|hosts| - 1]);
      AddHostExact(AddHosts(s, hosts[..|hosts| - 1]), hosts[|hosts| - 1]);
    }
  }

  /** The listeners closed when the hosts vanish. */
  function ClosedBy(s: State, hosts: set<string>): set<nat> {
    set h | h in hosts && h in s.pool :: s.pool[h]
  }

  function CloseHosts(s: State, hosts: set<string>): State {
    s.(pool := s.pool - hosts, alive := s.alive - ClosedBy(s, hosts), doomed := s.doomed + ClosedBy(s, hosts))
  }

  function CloseHost(s: State, h: string): State
    requires h in s.pool
  {
    s.(pool := s.pool - {h}, alive := s.alive - {s.pool[h]}, doomed := s.doomed + {s.pool[h]})
  }

  /** Serving is adding the new hosts and then closing the vanished ones. */
  lemma ServeInTwo(s: State, hosts: seq<string>)
    ensures Next(s, Serve(hosts)) == CloseHosts(AddHosts(s, hosts), s.pool.Keys - HostSet(hosts))
  {
    AddHostsKeeps(s, hosts);
    var gone := s.pool.Keys - HostSet(hosts);
    assert Vanished(s, hosts) == gone;
    assert ClosedBy(AddHosts(s, hosts), gone) == set h | h in gone :: s.pool[h];
  }

  lemma CloseHostsExact(s: State, hosts: set<string>)
    requires Exact(s)
    ensures Exact(CloseHosts(s, hosts))
  {
  }

  /** Serving a list of hosts leaves the pool listing exactly those hosts and
      the live listeners, keeping the listeners of hosts that stay. */
  lemma ServeKeepsExact(s: State, hosts: seq<string>)
    requires Exact(s)
    ensures var t := Next(s, Serve(hosts));
            && Exact(t)
            && t.pool.Keys == HostSet(hosts)
            && (forall h :: h in s.pool && h in hosts ==> t.pool[h] == s.pool[h])
            && t.doomed == s.doomed + (set h | h in s.pool && h !in hosts :: s.pool[h])
  {
    AddHostsExact(s, hosts);
    AddHostsKeeps(s, hosts);
    ServeInTwo(s, hosts);
    CloseHostsExact(AddHosts(s, hosts), s.pool.Keys - HostSet(hosts));
    hide AddHosts;
    hide Exact;
    hide Next;
    assert ClosedBy(AddHosts(s, hosts), s.pool.Keys - HostSet(hosts)) ==
           set h | h in s.pool && h !in hosts :: s.pool[h];
  }

  /** A death removes the entry of its host, whoever that is by now: the pool
      stays exact precisely when no other listener was registered for the host. */
  lemma DeathKeepsExact(s: State, id: nat)
    requires Exact(s) && (id in s.alive || id in s.doomed)
    ensures Exact(Next(s, RecordDeath(id))) <==> s.hostOf[id] !in s.pool || s.pool[s.hostOf[id]] == id
  {
    var h, t := s.hostOf[id], Next(s, RecordDeath(id));
    if h in s.pool && s.pool[h] != id {
      assert s.pool[h] in t.alive && h !in t.pool;
    }
  }

  /** A death recorded before its host is served again. */
  predicate Timely(s: State, step: Step) {
    step.RecordDeath? && step.id in s.doomed && step.id in s.hostOf ==> s.hostOf[step.id] !in s.pool
  }

  lemma StepKeepsExact(s: State, step: Step)
    requires Exact(s)
    ensures Exact(Next(s, step)) <==> Timely(s, step)
  {
    match step
    case Serve(hosts) => ServeKeepsExact(s, hosts);
    case RecordDeath(id) =>
      if id in s.alive || id in s.doomed { DeathKeepsExact(s, id); }
  }

  ghost predicate AlwaysExact(s: State, steps: seq<Step>, n: nat)
    requires n <= |steps|
  {
    forall k :: 0 <= k <= n ==> Exact(At(s, steps, k))
  }

  ghost predicate AlwaysTimely(s: State, steps: seq<Step>, n: nat)
    requires n <= |steps|
  {
    forall k :: 0 <= k < n ==> Timely(At(s, steps, k), steps[k])
  }

  lemma OneStepMore(s: State, steps: seq<Step>, n: nat)
    requires n < |steps|
    ensures AlwaysExact(s, steps, n + 1) <==> AlwaysExact(s, steps, n) && Exact(At(s, steps, n + 1))
    ensures AlwaysTimely(s, steps, n + 1) <==> AlwaysTimely(s, steps, n) && Timely(At(s, steps, n), steps[n])
    ensures AlwaysExact(s, steps, n) ==> Exact(At(s, steps, n))
  {
    hide Exact;
    hide Timely;
    hide At;
  }

  lemma StepAt(s: State, steps: seq<Step>, k: nat)
    requires k < |steps|
    ensures Exact(At(s, steps, k)) ==> (Exact(At(s, steps, k + 1)) <==> Timely(At(s, steps, k), steps[k]))
  {
    if Exact(At(s, steps, k)) { StepKeepsExact(At(s, steps, k), steps[k]); }
  }

  lemma NoSteps(s: State, steps: seq<Step>)
    requires Exact(s)
    ensures AlwaysExact(s, steps, 0) && AlwaysTimely(s, steps, 0)
  {
    hide Exact;
    assert At(s, steps, 0) == s;
  }

  /** The pool lists exactly the live listeners all along a run if and only if
      each closed listener's death is recorded before its host is served again. */
  lemma {:induction false} StaysExactWhenTimely(s: State, steps: seq<Step>, n: nat)
    requires Exact(s) && n <= |steps|
    ensures AlwaysExact(s, steps, n) <==> AlwaysTimely(s, steps, n)
  {
    hide *;
    NoSteps(s, steps);
    if n > 0 {
      StaysExactWhenTimely(s, steps, n - 1);
      OneStepMore(s, steps, n - 1);
      StepAt(s, steps, n - 1);
    }
  }

  /** Otherwise a live listener can drop out of the pool: closing the listener
      of a host and serving the host again before the death is recorded. */
  lemma LateDeathLosesListener(s: State, h: string)
    requires Exact(s) && h in s.pool
    ensures var id := s.pool[h];
            var t := Next(Next(Next(s, Serve([])), Serve([h])), RecordDeath(id));
            h !in t.pool && exists lost :: lost in t.alive && lost in t.hostOf && t.hostOf[lost] == h
  {
    var id := s.pool[h];
    ServeKeepsExact(s, []);
    var s1 := Next(s, Serve([]));
    assert id in s1.doomed && h !in s1.pool;
    ServeKeepsExact(s1, [h]);
    var s2 := Next(s1, Serve([h]));
    assert h in s2.pool && id in s2.doomed;
    assert s2.hostOf[id] == h by { HostsStay(s, []); HostsStay(s1, [h]); }
    var t := Next(s2, RecordDeath(id));
    assert s2.pool[h] in t.alive && t.hostOf[s2.pool[h]] == h;
  }

  lemma {:induction false} HostsStay(s: State, hosts: seq<string>)
    requires Numbered(s)
    ensures Numbered(AddHosts(s, hosts))
    ensures forall id :: id in s.hostOf ==>
                           id in AddHosts(s, hosts).hostOf && AddHosts(s, hosts).hostOf[id] == s.hostOf[id]
  {
    if hosts != [] { HostsStay(s, hosts[..|hosts| - 1]); }
  }

  // ---------------------------------------------------------- the pool object

  class Listener {
    const host: string
    ghost const number: nat
    var started: bool
    var closed: bool

    constructor (host: string, ghost number: nat)
      ensures this.host == host && this.number == number && !started && !closed
    {
      this.host, this.number, started, closed := host, number, false, false;
    }

    method Start()
      requires !started
      modifies this`started
      ensures started
    {
      started := true;
    }

    method Close()
      modifies this`closed
      ensures closed
    {
      closed := true;
    }
  }

  lemma CloseNext(s: State, hosts: set<string>, h: string)
    requires h in s.pool && h !in hosts
    ensures h in CloseHosts(s, hosts).pool && CloseHosts(s, hosts + {h}) == CloseHost(CloseHosts(s, hosts), h)
  {
    assert ClosedBy(s, hosts + {h}) == ClosedBy(s, hosts) + {s.pool[h]};
  }

  lemma HostsNext(hosts: seq<string>, i: nat)
    requires i < |hosts|
    ensures HostSet(hosts[..i + 1]) == HostSet(hosts[..i]) + {hosts[i]}
  {
    assert hosts[..i + 1] == hosts[..i] + [hosts[i]];
  }

  lemma HostStays(s: State, h: string)
    requires h in s.pool
    ensures AddHost(s, h) == s
  {
  }

  lemma AddHostsNext(s: State, hosts: seq<string>, i: nat)
    requires i < |hosts|
    ensures AddHosts(s, hosts[..i + 1]) == AddHost(AddHosts(s, hosts[..i]), hosts[i])
  {
    assert hosts[..i + 1][..i] == hosts[..i];
  }

  lemma NoHosts(s: State, hosts: seq<string>)
    ensures AddHosts(s, hosts[..0]) == s && HostSet(hosts[..0]) == {}
  {
  }

  /** The registered objects are those the pool in numbers stands for. */
  ghost predicate Registers(s: State, listeners: map<string, Listener>, objects: map<nat, Listener>) {
    && Numbered(s)
    && (forall h :: h in s.pool ==> s.pool[h] in s.alive)
    && objects.Keys == s.hostOf.Keys
    && (forall id :: id in objects ==> objects[id].number == id && objects[id].host == s.hostOf[id])
    && listeners.Keys == s.pool.Keys
    && (forall h :: h in listeners ==> listeners[h] == objects[s.pool[h]])
  }

  /** Live listeners are started, and exactly the doomed ones among all that still run are closed. */
  ghost predicate Flags(s: State, objects: map<nat, Listener>)
    reads objects.Values
  {
    forall id :: id in objects && id in s.alive + s.doomed ==>
                   objects[id].started && (objects[id].closed <==> id in s.doomed)
  }

  lemma AddRegisters(s: State, listeners: map<string, Listener>, objects: map<nat, Listener>, ln: Listener)
    requires Registers(s, listeners, objects) && ln.host !in listeners && ln.number == s.next
    ensures Registers(AddHost(s, ln.host), listeners[ln.host := ln], objects[s.next := ln])
    ensures s.next !in objects && s.next !in s.alive + s.doomed
  {
  }

  lemma CloseRegisters(s: State, listeners: map<string, Listener>, objects: map<nat, Listener>, h: string)
    requires Registers(s, listeners, objects) && h in listeners
    ensures h in s.pool && s.pool[h] in objects && objects[s.pool[h]] == listeners[h] && listeners[h].host == h
    ensures s.pool[h] in s.alive
    ensures Registers(CloseHost(s, h), listeners - {h}, objects)
    ensures forall id :: id in objects && objects[id] == listeners[h] ==> id == s.pool[h]
  {
  }

  lemma DeathRegisters(s: State, listeners: map<string, Listener>, objects: map<nat, Listener>, id: nat)
    requires Registers(s, listeners, objects) && id in s.alive + s.doomed
    ensures id in objects && Registers(Next(s, RecordDeath(id)), listeners - {objects[id].host}, objects)
  {
  }

  ghost predicate Kept(was: map<nat, Listener>, objects: map<nat, Listener>) {
    forall id :: id in was ==> id in objects && objects[id] == was[id]
  }

  lemma KeptAll(objects: map<nat, Listener>)
    ensures Kept(objects, objects)
  {
  }

  lemma KeptAdding(was: map<nat, Listener>, objects: map<nat, Listener>, id: nat, ln: Listener)
    requires Kept(was, objects) && id !in objects
    ensures Kept(was, objects[id := ln])
  {
  }

  /** The listeners that were there stay, and the others are the ones started, one per host. */
  ghost predicate Extends(was: map<string, Listener>, listeners: map<string, Listener>, started: seq<Listener>) {
    && (forall h :: h in was ==> h in listeners && listeners[h] == was[h])
    && (forall h :: h in listeners && h !in was ==> listeners[h] in started)
    && (forall k :: 0 <= k < |started| ==>
          started[k].host in listeners && listeners[started[k].host] == started[k] && started[k].host !in was)
    && (forall j, k :: 0 <= j < k < |started| ==> started[j].host != started[k].host)
  }

  lemma ExtendsNone(listeners: map<string, Listener>)
    ensures Extends(listeners, listeners, [])
  {
  }

  lemma OneMore(started: seq<Listener>, ln: Listener)
    ensures forall l :: l in started + [ln] <==> l in started || l == ln
    ensures (started + [ln])[|started|] == ln && forall k :: 0 <= k < |started| ==> (started + [ln])[k] == started[k]
  {
  }

  lemma ExtendsOne(was: map<string, Listener>, listeners: map<string, Listener>, started: seq<Listener>, ln: Listener)
    requires Extends(was, listeners, started) && ln.host !in listeners
    ensures Extends(was, listeners[ln.host := ln], started + [ln])
  {
    OneMore(started, ln);
  }

  class Pool {
    var listeners: map<string, Listener>
    ghost var state: State // the pool in numbers
    ghost var objects: map<nat, Listener> // every listener started so far, by its number

    ghost predicate Valid()
      reads this, objects.Values
    {
      Registers(state, listeners, objects) && Flags(state, objects)
    }

    constructor ()
      ensures Valid() && listeners == map[] && state == State(map[], map[], 0, {}, {})
    {
      listeners, state, objects := map[], State(map[], map[], 0, {}, {}), map[];
    }

    /** One Serve step. Hosts already served keep their listener, new hosts get
        one that is started once however often they are listed, and exactly the
        listeners of hosts no longer listed are closed. */
    method ListenAndServe(hosts: seq<string>) returns (started: seq<Listener>)
      requires Valid()
      modifies this, listeners.Values
      ensures Valid() && state == Next(old(state), Serve(hosts))
      ensures Kept(old(objects), objects)
      ensures listeners.Keys == HostSet(hosts)
      ensures forall h :: h in hosts && h in old(listeners) ==> listeners[h] == old(listeners)[h]
      ensures forall i :: 0 <= i < |started| ==>
                            && fresh(started[i]) && started[i].started && !started[i].closed
                            && started[i].host in hosts && started[i].host !in old(listeners)
      ensures forall i, j :: 0 <= i < j < |started| ==> started[i].host != started[j].host
      ensures forall h :: h in hosts && h !in old(listeners) ==> listeners[h] in started
      ensures forall h :: h in old(listeners) ==>
                            && old(listeners)[h].started == old(listeners[h].started)
                            && (old(listeners)[h].closed <==> old(listeners[h].closed) || h !in hosts)
    {
      hide Registers;
      hide Flags;
      hide AddHosts;
      hide CloseHosts;
      hide Next;
      ServeInTwo(state, hosts);
      ValidKeys();
      var vanished: set<string>;
      started, vanished := AddNew(hosts);
      ValidKeys();
      CloseVanished(vanished, started);
    }

    lemma ValidKeys()
      requires Valid()
      ensures listeners.Keys == state.pool.Keys && forall h :: h in listeners ==> listeners[h].host == h
    {
    }

    /** Starts a listener for a host that has none. */
    method AddListener(host: string) returns (ln: Listener)
      requires Valid() && host !in listeners
      modifies this
      ensures Valid() && fresh(ln) && ln.host == host && ln.started && !ln.closed
      ensures listeners == old(listeners)[host := ln] && state == AddHost(old(state), host)
      ensures objects == old(objects)[old(state).next := ln] && old(state).next !in old(objects)
    {
      hide Registers;
      ln := new Listener(host, state.next);
      AddRegisters(state, listeners, objects, ln);
      ln.Start();
      listeners := listeners[host := ln];
      objects := objects[state.next := ln];
      state := AddHost(state, host);
    }

    /** Starts a listener for every host that has none; the hosts found to vanish are the old ones not listed. */
    method AddNew(hosts: seq<string>) returns (started: seq<Listener>, vanished: set<string>)
      requires Valid()
      modifies this
      ensures Valid() && state == AddHosts(old(state), hosts)
      ensures Kept(old(objects), objects)
      ensures listeners.Keys == old(listeners).Keys + HostSet(hosts)
      ensures vanished == old(listeners).Keys - HostSet(hosts)
      ensures Extends(old(listeners), listeners, started)
      ensures forall k :: 0 <= k < |started| ==> fresh(started[k]) && started[k].started && !started[k].closed
    {
      hide Registers;
      hide Flags;
      hide AddHosts;
      hide HostSet;
      hide AddHost;
      hide Valid;
      hide Extends;
      hide Kept;
      NoHosts(state, hosts);
      ExtendsNone(listeners);
      KeptAll(objects);
      ghost var was := listeners;
      vanished := listeners.Keys;
      started := [];
      for i := 0 to |hosts|
        invariant Valid() && state == AddHosts(old(state), hosts[..i])
        invariant Kept(old(objects), objects)
        invariant listeners.Keys == was.Keys + HostSet(hosts[..i])
        invariant vanished == was.Keys - HostSet(hosts[..i])
        invariant Extends(was, listeners, started)
        invariant forall k :: 0 <= k < |started| ==> fresh(started[k]) && started[k].started && !started[k].closed
      {
        var host := hosts[i];
        AddHostsNext(old(state), hosts, i);
        HostsNext(hosts, i);
        ValidKeys();
        if host in listeners {
          HostStays(state, host);
          vanished := vanished - {host};
        } else {
          ghost var before, known, id := listeners, objects, state.next;
          var ln := AddListener(host);
          KeptAdding(old(objects), known, id, ln);
          ExtendsOne(was, before, started, ln);
          started := started + [ln];
        }
      }
      assert hosts[..|hosts|] == hosts;
    }

    method CloseVanished(vanished: set<string>, ghost started: seq<Listener>)
      requires Valid() && vanished <= listeners.Keys
      requires forall k :: 0 <= k < |started| ==> started[k].host !in vanished
      modifies this`listeners, this`state, (set h | h in vanished :: listeners[h])`closed
      ensures Valid() && state == CloseHosts(old(state), vanished)
      ensures listeners == old(listeners) - vanished
      ensures forall h :: h in vanished ==> old(listeners)[h].closed
    {
      hide Registers;
      hide Flags;
      hide CloseHost;
      ValidKeys();
      var left := vanished;
      ghost var s := state;
      assert s.pool - {} == s.pool && ClosedBy(s, {}) == {};
      while left != {}
        invariant left <= vanished && Valid() && state == CloseHosts(s, vanished - left)
        invariant listeners == old(listeners) - (vanished - left)
        invariant forall h :: h in vanished - left ==> old(listeners)[h].closed
        decreases left
      {
        var host :| host in left;
        assert vanished - (left - {host}) == (vanished - left) + {host};
        CloseNext(s, vanished - left, host);
        CloseListener(host, listeners[host]);
        left := left - {host};
      }
      assert vanished - {} == vanished;
    }

    method CloseListener(host: string, ln: Listener)
      requires Valid() && host in listeners && listeners[host] == ln
      modifies this`listeners, this`state, ln`closed
      ensures Valid() && listeners == old(listeners) - {host} && ln.closed
      ensures host in old(state).pool && state == CloseHost(old(state), host)
    {
      hide Registers;
      CloseRegisters(state, listeners, objects, host);
      ln.Close();
      listeners := listeners - {host};
      state := CloseHost(state, host);
    }

    /** The end of the goroutine of listener number id: one RecordDeath step. */
    method Died(ln: Listener, ghost id: nat)
      requires Valid() && id in state.alive + state.doomed && objects[id] == ln
      modifies this`listeners, this`state
      ensures Valid() && state == Next(old(state), RecordDeath(id))
      ensures listeners == old(listeners) - {ln.host}
    {
      hide Registers;
      DeathRegisters(state, listeners, objects, id);
      listeners := listeners - {ln.host};
      state := Next(state, RecordDeath(id));
    }
  }
}
