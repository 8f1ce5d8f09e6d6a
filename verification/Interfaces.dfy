/** Applying the interface configuration to the links of the system (netconfig). */
module Interfaces {
  import opened Bytes

  datatype Details = Details(hardwareAddr: string, spoofHardwareAddr: string, name: string, addr: string)

  /** A network link; hw is "" for a link without a hardware address. */
  datatype Link = Link(name: string, hw: string, up: bool, addrs: set<string>)

  /** What the libraries make of an address text: the form it is later printed
      in, or nothing when it does not parse. */
  datatype Library = Library(mac: string -> Option<string>, addr: string -> Option<string>)

  // ---------------------------------------------------------------- lookups

  function ByName(ds: seq<Details>): map<string, Details> {
    if ds == [] then map[]
    else
      var d := ds[|ds| - 1];
      ByName(ds[..|ds| - 1])[d.name := d]
  }

  function ByHardwareAddr(ds: seq<Details>): map<string, Details> {
    if ds == [] then map[]
    else
      var d := ds[|ds| - 1];
      var m := ByHardwareAddr(ds[..|ds| - 1])[d.hardwareAddr := d];
      if d.spoofHardwareAddr != "" then m[d.spoofHardwareAddr := d] else m
  }

  function Find(m: map<string, Details>, key: string): Option<Details> {
    if key in m then Some(m[key]) else None
  }

  function Lookup(ds: seq<Details>, l: Link): Option<Details> {
    var byHw := if l.hw == "" then None else Find(ByHardwareAddr(ds), l.hw);
    if byHw.Some? then byHw else Find(ByName(ds), l.name)
  }

  // ----------------------------------------------------------------- updates

  predicate Taken(links: seq<Link>, k: nat, name: string) {
    name == "" || exists j :: 0 <= j < |links| && j != k && links[j].name == name
  }

  /** One link brought to its details, as far as that succeeds. A rename fails
      when another link has the name. */
  function Configure(lib: Library, d: Details, links: seq<Link>, k: nat): (Link, bool)
    requires k < |links|
  {
    var l := links[k];
    if l.name != d.name && Taken(links, k, d.name) then (l, false)
    else
      var named := l.(name := d.name);
      var mac := lib.mac(d.spoofHardwareAddr);
      if d.spoofHardwareAddr != "" && mac.None? then (named, false)
      else
        var up := (if d.spoofHardwareAddr != "" then named.(hw := mac.value) else named).(up := true);
        if d.addr == "" then (up, true)
        else if lib.addr(d.addr).None? then (up, false)
        else (up.(addrs := up.addrs + {lib.addr(d.addr).value}), true)
  }

  /** The links from the k-th on, one after the other, up to the first failure. */
  function Apply(lib: Library, ds: seq<Details>, links: seq<Link>, k: nat): (seq<Link>, bool)
    requires k <= |links|
    decreases |links| - k
  {
    if k == |links| then (links, true)
    else
      match Lookup(ds, links[k])
      case None => Apply(lib, ds, links, k + 1)
      case Some(d) =>
        var (l, ok) := Configure(lib, d, links, k);
        if ok then Apply(lib, ds, links[k := l], k + 1) else (links[k := l], false)
  }

  class System {
    var links: seq<Link>

    /** applyInterfaces: builds both lookup maps, then updates link after link. */
    method ApplyInterfaces(lib: Library, ds: seq<Details>) returns (ok: bool)
      modifies this
      ensures (links, ok) == Apply(lib, ds, old(links), 0)
    {
      hide Configure;
      hide Find;
      var byName, byHardwareAddr := IndexDetails(ds);
      var list := links;
      for k := 0 to |list|
        invariant |links| == |list| && forall j :: k <= j < |list| ==> links[j] == list[j]
        invariant Apply(lib, ds, links, k) == Apply(lib, ds, old(links), 0)
      {
        var l := list[k];
        var details := LookUp(byName, byHardwareAddr, l, ds);
        hide Lookup;
        if details.Some? {
          ok := ConfigureLink(lib, details.value, k);
          if !ok {
            return false;
          }
        }
      }
      return true;
    }

    /** The maps by name and by hardware address, later entries overwriting earlier ones. */
    method IndexDetails(ds: seq<Details>) returns (byName: map<string, Details>, byHardwareAddr: map<string, Details>)
      ensures byName == ByName(ds) && byHardwareAddr == ByHardwareAddr(ds)
    {
      byName, byHardwareAddr := map[], map[];
      for i := 0 to |ds|
        invariant byName == ByName(ds[..i]) && byHardwareAddr == ByHardwareAddr(ds[..i])
      {
        assert ds[..i + 1][..i] == ds[..i];
        var details := ds[i];
        byHardwareAddr := byHardwareAddr[details.hardwareAddr := details];
        if details.spoofHardwareAddr != "" {
          byHardwareAddr := byHardwareAddr[details.spoofHardwareAddr := details];
        }
        byName := byName[details.name := details];
      }
      assert ds[..|ds|] == ds;
    }

    method LookUp(byName: map<string, Details>, byHardwareAddr: map<string, Details>, l: Link, ghost ds: seq<Details>)
      returns (details: Option<Details>)
      requires byName == ByName(ds) && byHardwareAddr == ByHardwareAddr(ds)
      ensures details == Lookup(ds, l)
    {
      if l.hw == "" {
        return Find(byName, l.name);
      }
      if l.hw in byHardwareAddr {
        return Some(byHardwareAddr[l.hw]);
      }
      return Find(byName, l.name);
    }

    method ConfigureLink(lib: Library, details: Details, k: nat) returns (ok: bool)
      requires k < |links|
      modifies this
      ensures |links| == |old(links)| && (links[k], ok) == Configure(lib, details, old(links), k)
      ensures links == old(links)[k := links[k]]
      ensures forall j :: 0 <= j < |links| && j != k ==> links[j] == old(links)[j]
    {
      if links[k].name != details.name {
        if Taken(links, k, details.name) {
          return false;
        }
        links := links[k := links[k].(name := details.name)];
      }
      if details.spoofHardwareAddr != "" {
        var mac := lib.mac(details.spoofHardwareAddr);
        if mac.None? {
          return false;
        }
        links := links[k := links[k].(hw := mac.value)];
      }
      links := links[k := links[k].(up := true)];
      if details.addr != "" {
        var addr := lib.addr(details.addr);
        if addr.None? {
          return false;
        }
        links := links[k := links[k].(addrs := links[k].addrs + {addr.value})];
      }
      return true;
    }
  }

  // ------------------------------------------------------- the entry of a link

  /** The entry is known by the hardware address: its own or its spoofed one. */
  predicate KnownBy(d: Details, hw: string) {
    hw == d.hardwareAddr || hw == d.spoofHardwareAddr
  }

  function LastKnownBy(ds: seq<Details>, hw: string): Option<Details> {
    if ds == [] then None
    else if KnownBy(ds[|ds| - 1], hw) then Some(ds[|ds| - 1])
    else LastKnownBy(ds[..|ds| - 1], hw)
  }

  function LastNamed(ds: seq<Details>, name: string): Option<Details> {
    if ds == [] then None
    else if ds[|ds| - 1].name == name then Some(ds[|ds| - 1])
    else LastNamed(ds[..|ds| - 1], name)
  }

  /** The entry of a link, read off the list of entries. */
  function EntryOf(ds: seq<Details>, l: Link): Option<Details> {
    if l.hw != "" && LastKnownBy(ds, l.hw).Some? then LastKnownBy(ds, l.hw) else LastNamed(ds, l.name)
  }

  lemma {:induction false} LastKnownByExactly(ds: seq<Details>, hw: string)
    ensures LastKnownBy(ds, hw).None? <==>
            forall i :: 0 <= i < |ds| ==> hw != ds[i].hardwareAddr && hw != ds[i].spoofHardwareAddr
    ensures forall i :: 0 <= i < |ds| && hw in {ds[i].hardwareAddr, ds[i].spoofHardwareAddr} ==>
                          (forall j :: i < j < |ds| ==> hw !in {ds[j].hardwareAddr, ds[j].spoofHardwareAddr}) ==>
                            LastKnownBy(ds, hw) == Some(ds[i])
  {
    if ds != [] {
      var init := ds[..|ds| - 1];
      LastKnownByExactly(init, hw);
      assert forall i :: 0 <= i < |init| ==> init[i] == ds[i];
    }
  }

  lemma {:induction false} LastNamedExactly(ds: seq<Details>, name: string)
    ensures LastNamed(ds, name).None? <==> forall i :: 0 <= i < |ds| ==> ds[i].name != name
    ensures forall i :: 0 <= i < |ds| && ds[i].name == name ==>
                          (forall j :: i < j < |ds| ==> ds[j].name != name) ==> LastNamed(ds, name) == Some(ds[i])
  {
    if ds != [] {
      var init := ds[..|ds| - 1];
      LastNamedExactly(init, name);
      assert forall i :: 0 <= i < |init| ==> init[i] == ds[i];
    }
  }

  /** Some entry has the address as its hardware or spoofed address. */
  ghost predicate Addressed(ds: seq<Details>, hw: string) {
    hw != "" && exists i :: 0 <= i < |ds| && hw in {ds[i].hardwareAddr, ds[i].spoofHardwareAddr}
  }

  lemma {:induction false} MapsAreLast(ds: seq<Details>, key: string)
    ensures key != "" ==> Find(ByHardwareAddr(ds), key) == LastKnownBy(ds, key)
    ensures Find(ByName(ds), key) == LastNamed(ds, key)
  {
    if ds != [] { MapsAreLast(ds[..|ds| - 1], key); }
  }

  /** Which entry the code finds for a link: the last one with its hardware
      address if there is any, and otherwise the last one with its name. There is
      none exactly when none has either. */
  lemma LookupExactly(ds: seq<Details>, l: Link)
    ensures Lookup(ds, l) == EntryOf(ds, l)
    ensures Lookup(ds, l).None? <==> !Addressed(ds, l.hw) && forall i :: 0 <= i < |ds| ==> ds[i].name != l.name
    ensures Addressed(ds, l.hw) ==>
              forall i :: 0 <= i < |ds| && l.hw in {ds[i].hardwareAddr, ds[i].spoofHardwareAddr} ==>
                            (forall j :: i < j < |ds| ==> l.hw !in {ds[j].hardwareAddr, ds[j].spoofHardwareAddr}) ==>
                              Lookup(ds, l) == Some(ds[i])
    ensures !Addressed(ds, l.hw) ==>
              forall i :: 0 <= i < |ds| && ds[i].name == l.name ==>
                            (forall j :: i < j < |ds| ==> ds[j].name != l.name) ==> Lookup(ds, l) == Some(ds[i])
  {
    MapsAreLast(ds, l.hw);
    MapsAreLast(ds, l.name);
    hide LastKnownBy;
    hide LastNamed;
    hide ByName;
    hide ByHardwareAddr;
    LastKnownByExactly(ds, l.hw);
    LastNamedExactly(ds, l.name);
  }

  // ------------------------------------------------------ what is achieved

  /** What the configuration asks of one link: the name, spoofed hardware address
      and IP address of its entry, and to be up; and nothing if it has no entry. */
  ghost predicate Achieved(lib: Library, ds: seq<Details>, was: Link, now: Link) {
    match EntryOf(ds, was)
    case None => now == was
    case Some(d) =>
      && now.name == d.name && now.up
      && (if d.spoofHardwareAddr == "" then now.hw == was.hw else Some(now.hw) == lib.mac(d.spoofHardwareAddr))
      && (if d.addr == "" then now.addrs == was.addrs
          else lib.addr(d.addr).Some? && now.addrs == was.addrs + {lib.addr(d.addr).value})
  }

  /** Both addresses of the entry are missing or can be parsed. */
  predicate Parses(lib: Library, d: Details) {
    && (d.spoofHardwareAddr == "" || lib.mac(d.spoofHardwareAddr).Some?)
    && (d.addr == "" || lib.addr(d.addr).Some?)
  }

  /** The name a link is to have. */
  function WantedName(ds: seq<Details>, l: Link): string {
    match EntryOf(ds, l)
    case None => l.name
    case Some(d) => d.name
  }

  /** Link k can be brought to its entry: the addresses parse, and its new name,
      if it is another one, is neither empty nor the wanted name of an earlier
      link nor the present name of a later one. */
  ghost predicate CanConfigure(lib: Library, ds: seq<Details>, links: seq<Link>, k: nat)
    requires k < |links|
  {
    match EntryOf(ds, links[k])
    case None => true
    case Some(d) =>
      Parses(lib, d) && NameFree(ds, links, k, d.name)
  }

  ghost predicate NameFree(ds: seq<Details>, links: seq<Link>, k: nat, name: string)
    requires k < |links|
  {
    || links[k].name == name
    || (&& name != ""
        && (forall j :: 0 <= j < k ==> WantedName(ds, links[j]) != name)
        && (forall j :: k < j < |links| ==> links[j].name != name))
  }

  /** How far a link got that could not be configured. */
  ghost predicate Stuck(lib: Library, ds: seq<Details>, links: seq<Link>, k: nat, now: Link)
    requires k < |links|
  {
    var was := links[k];
    match EntryOf(ds, was)
    case None => false
    case Some(d) =>
      if !NameFree(ds, links, k, d.name) then now == was
      else
        && now.name == d.name && now.addrs == was.addrs
        && if d.spoofHardwareAddr != "" && lib.mac(d.spoofHardwareAddr).None? then now.hw == was.hw && now.up == was.up
           else
             && now.up && lib.addr(d.addr).None?
             && (if d.spoofHardwareAddr == "" then now.hw == was.hw else Some(now.hw) == lib.mac(d.spoofHardwareAddr))
  }

  /** The links with the first k of them configured. */
  ghost predicate Halfway(lib: Library, ds: seq<Details>, was: seq<Link>, now: seq<Link>, k: nat) {
    && k <= |was| == |now|
    && (forall j :: 0 <= j < k ==> Achieved(lib, ds, was[j], now[j]))
    && (forall j :: k <= j < |was| ==> now[j] == was[j])
  }

  lemma ConfigureAchieves(lib: Library, ds: seq<Details>, was: seq<Link>, now: seq<Link>, k: nat, d: Details)
    requires k < |was| && Halfway(lib, ds, was, now, k) && EntryOf(ds, was[k]) == Some(d)
    ensures Configure(lib, d, now, k).1 <==> CanConfigure(lib, ds, was, k)
    ensures if Configure(lib, d, now, k).1 then Achieved(lib, ds, was[k], Configure(lib, d, now, k).0)
            else Stuck(lib, ds, was, k, Configure(lib, d, now, k).0)
  {
    assert now[k] == was[k];
    hide EntryOf;
    NamesHalfway(lib, ds, was, now, k, d.name);
    hide Taken;
    hide Halfway;
  }

  /** By then a name is taken exactly when an earlier link wants it or a later one has it. */
  lemma NamesHalfway(lib: Library, ds: seq<Details>, was: seq<Link>, now: seq<Link>, k: nat, name: string)
    requires k < |was| && Halfway(lib, ds, was, now, k)
    ensures Taken(now, k, name) <==>
            || name == ""
            || (exists j :: 0 <= j < k && WantedName(ds, was[j]) == name)
            || (exists j :: k < j < |was| && was[j].name == name)
  {
    hide EntryOf;
    assert forall j :: 0 <= j < k ==> Achieved(lib, ds, was[j], now[j]) && now[j].name == WantedName(ds, was[j]);
    if j :| 0 <= j < |now| && j != k && now[j].name == name {
      assert j < k ==> WantedName(ds, was[j]) == name;
      assert j > k ==> was[j].name == name;
    }
    if j :| 0 <= j < k && WantedName(ds, was[j]) == name { assert now[j].name == name; }
    if j :| k < j < |was| && was[j].name == name { assert now[j].name == name; }
  }

  lemma {:induction false} ApplyFrom(lib: Library, ds: seq<Details>, was: seq<Link>, now: seq<Link>, k: nat)
    returns (stop: nat)
    requires Halfway(lib, ds, was, now, k)
    ensures k <= stop <= |was| && forall j :: k <= j < stop ==> CanConfigure(lib, ds, was, j)
    ensures var (after, ok) := Apply(lib, ds, now, k);
            && (ok <==> stop == |was|)
            && (ok ==> Halfway(lib, ds, was, after, stop))
            && (!ok ==> !CanConfigure(lib, ds, was, stop) && |after| == |was| &&
                        Stuck(lib, ds, was, stop, after[stop]) &&
                        Halfway(lib, ds, was, after[stop := was[stop]], stop))
    decreases |was| - k
  {
    hide EntryOf;
    hide Configure;
    hide CanConfigure;
    hide Achieved;
    hide Stuck;
    if k == |was| {
      stop := k;
    } else {
      assert now[k] == was[k];
      LookupExactly(ds, was[k]);
      hide Lookup;
      match EntryOf(ds, was[k])
      case None =>
        SkipAchieves(lib, ds, was, k);
        stop := ApplyFrom(lib, ds, was, now, k + 1);
      case Some(d) =>
        var (l, ok) := Configure(lib, d, now, k);
        ConfigureAchieves(lib, ds, was, now, k, d);
        if ok {
          stop := ApplyFrom(lib, ds, was, now[k := l], k + 1);
        } else {
          stop := k;
          assert now[k := l][k := was[k]] == now;
        }
    }
  }

  lemma SkipAchieves(lib: Library, ds: seq<Details>, links: seq<Link>, k: nat)
    requires k < |links| && EntryOf(ds, links[k]) == None
    ensures CanConfigure(lib, ds, links, k) && Achieved(lib, ds, links[k], links[k])
  {
  }

  /** Applying a configuration succeeds exactly when every link can be
      configured, and then every link is as its entry asks and links without an
      entry are untouched. Otherwise it stops at the first link that cannot:
      the links before it are done and the links after it untouched. */
  lemma ApplyAchieves(lib: Library, ds: seq<Details>, links: seq<Link>)
    ensures var (after, ok) := Apply(lib, ds, links, 0);
            && |after| == |links|
            && (ok <==> forall k :: 0 <= k < |links| ==> CanConfigure(lib, ds, links, k))
            && (ok ==> forall k :: 0 <= k < |links| ==> Achieved(lib, ds, links[k], after[k]))
            && (!ok ==> exists stop: nat :: StopsAt(lib, ds, links, after, stop))
  {
    hide Apply;
    hide CanConfigure;
    hide Achieved;
    hide Stuck;
    var stop := ApplyFrom(lib, ds, links, links, 0);
    var (after, ok) := Apply(lib, ds, links, 0);
    if !ok {
      assert forall j :: 0 <= j < |links| && j != stop ==> after[j] == after[stop := links[stop]][j];
      assert StopsAt(lib, ds, links, after, stop);
    }
  }

  ghost predicate StopsAt(lib: Library, ds: seq<Details>, links: seq<Link>, after: seq<Link>, stop: nat) {
    && stop < |links| == |after|
    && !CanConfigure(lib, ds, links, stop) && Stuck(lib, ds, links, stop, after[stop])
    && (forall j :: 0 <= j < stop ==> CanConfigure(lib, ds, links, j) && Achieved(lib, ds, links[j], after[j]))
    && (forall j :: stop < j < |links| ==> after[j] == links[j])
  }

  /** Two links cannot swap names: the first one's new name is still taken, so
      nothing is changed. */
  lemma SwapFails(lib: Library, ds: seq<Details>, a: Link, b: Link, d: Details)
    requires EntryOf(ds, a) == Some(d) && d.name == b.name && WantedName(ds, b) == a.name && a.name != b.name
    ensures Apply(lib, ds, [a, b], 0) == ([a, b], false)
  {
    LookupExactly(ds, a);
    var links := [a, b];
    assert links[1].name == d.name;
    assert Taken(links, 0, d.name);
    assert links[0 := a] == links;
  }

  // -------------------------------------------------------------- idempotence

  /** The hardware addresses an entry is known by: the configured ones and the
      form the spoofed one is printed in once it is set. */
  function Keys(lib: Library, d: Details): set<string> {
    var mac := lib.mac(d.spoofHardwareAddr);
    ({d.hardwareAddr, d.spoofHardwareAddr} - {""}) +
    (if d.spoofHardwareAddr != "" && mac.Some? then {mac.value} else {})
  }

  ghost predicate Distinct(lib: Library, ds: seq<Details>) {
    forall i, j :: 0 <= i < j < |ds| ==> ds[i].name != ds[j].name && Keys(lib, ds[i]) !! Keys(lib, ds[j])
  }

  lemma DistinctFront(lib: Library, ds: seq<Details>)
    requires Distinct(lib, ds) && ds != []
    ensures Distinct(lib, ds[..|ds| - 1])
    ensures forall e :: e in ds[..|ds| - 1] ==> e.name != ds[|ds| - 1].name
  {
    var init := ds[..|ds| - 1];
    assert forall i :: 0 <= i < |init| ==> init[i] == ds[i] && ds[i].name != ds[|ds| - 1].name;
  }

  lemma {:induction false} ByNameFinds(lib: Library, ds: seq<Details>, key: string)
    requires Distinct(lib, ds)
    ensures match Find(ByName(ds), key)
            case Some(d) => d in ds && d.name == key && forall e :: e in ds && e.name == key ==> e == d
            case None => forall e :: e in ds ==> e.name != key
  {
    hide Distinct;
    if ds != [] {
      var init, last := ds[..|ds| - 1], ds[|ds| - 1];
      DistinctFront(lib, ds);
      ByNameFinds(lib, init, key);
      assert ds == init + [last];
    }
  }

  lemma {:induction false} ByHardwareAddrFinds(ds: seq<Details>, key: string)
    requires key != ""
    ensures match Find(ByHardwareAddr(ds), key)
            case Some(d) => d in ds && key in {d.hardwareAddr, d.spoofHardwareAddr}
            case None => forall e :: e in ds ==> key !in {e.hardwareAddr, e.spoofHardwareAddr}
  {
    if ds != [] {
      ByHardwareAddrFinds(ds[..|ds| - 1], key);
      assert ds == ds[..|ds| - 1] + [ds[|ds| - 1]];
    }
  }

  lemma OneOwner(lib: Library, ds: seq<Details>, d: Details, e: Details, key: string)
    requires Distinct(lib, ds) && d in ds && e in ds && key in Keys(lib, d) && key in Keys(lib, e)
    ensures d == e
  {
    var i :| 0 <= i < |ds| && ds[i] == d;
    var j :| 0 <= j < |ds| && ds[j] == e;
  }

  /** However far configuring a link got, the link is looked up as the same entry again. */
  lemma LookupIsStable(lib: Library, ds: seq<Details>, links: seq<Link>, k: nat, d: Details)
    requires Distinct(lib, ds) && k < |links| && Lookup(ds, links[k]) == Some(d)
    ensures Lookup(ds, Configure(lib, d, links, k).0) == Some(d)
  {
    var l, l' := links[k], Configure(lib, d, links, k).0;
    ByNameFinds(lib, ds, l.name);
    ByNameFinds(lib, ds, d.name);
    if l.hw != "" { ByHardwareAddrFinds(ds, l.hw); }
    assert d in ds && (l' == l || l'.name == d.name);
    assert Find(ByName(ds), d.name) == Some(d);
    if l'.hw != "" {
      ByHardwareAddrFinds(ds, l'.hw);
      var found := Find(ByHardwareAddr(ds), l'.hw);
      if found.Some? && d.spoofHardwareAddr != "" && l'.hw != l.hw {
        OneOwner(lib, ds, d, found.value, l'.hw);
      }
    }
  }

  /** Configuring the link again goes exactly as far and changes nothing more. */
  lemma ConfigureAgain(lib: Library, d: Details, links: seq<Link>, links': seq<Link>, k: nat)
    requires k < |links| && |links'| == |links| && links'[k] == Configure(lib, d, links, k).0
    requires !Configure(lib, d, links, k).1 ==> links' == links[k := links'[k]]
    ensures Configure(lib, d, links', k) == Configure(lib, d, links, k)
  {
    var (l', ok) := Configure(lib, d, links, k);
    if !ok {
      assert Taken(links', k, d.name) == Taken(links, k, d.name) by {
        assert forall j :: 0 <= j < |links| && j != k ==> links'[j] == links[j];
      }
    } else {
      assert l'.name == d.name;
      if d.addr != "" {
        var a := lib.addr(d.addr).value;
        assert l'.addrs + {a} == l'.addrs;
      }
    }
  }

  lemma {:induction false} ApplyKeepsEarlier(lib: Library, ds: seq<Details>, links: seq<Link>, k: nat)
    requires k <= |links|
    ensures var links' := Apply(lib, ds, links, k).0;
            |links'| == |links| && forall j :: 0 <= j < k ==> links'[j] == links[j]
    decreases |links| - k
  {
    if k < |links| {
      match Lookup(ds, links[k])
      case None => ApplyKeepsEarlier(lib, ds, links, k + 1);
      case Some(d) => ApplyKeepsEarlier(lib, ds, links[k := Configure(lib, d, links, k).0], k + 1);
    }
  }

  // ------------------------------------------------------ exactly when it holds

  /** The entries some link can be looked up as. */
  function Chosen(ds: seq<Details>): set<Details> {
    ByName(ds).Values + set k | k in ByHardwareAddr(ds) && k != "" :: ByHardwareAddr(ds)[k]
  }

  /** The entry gives its link another hardware address. */
  predicate Spoofs(lib: Library, d: Details) {
    d.spoofHardwareAddr != "" && lib.mac(d.spoofHardwareAddr).Some?
  }

  /** A link once configured as d is looked up as an entry that changes nothing
      about it and ends the same way. */
  predicate Settled(lib: Library, ds: seq<Details>, d: Details)
    requires Spoofs(lib, d)
  {
    var (l, ok) := Configure(lib, d, [Link(d.name, lib.mac(d.spoofHardwareAddr).value, true, {})], 0);
    var e := Lookup(ds, l);
    e.Some? && Configure(lib, e.value, [l], 0) == (l, ok)
  }

  ghost predicate AllSettled(lib: Library, ds: seq<Details>) {
    forall d :: d in Chosen(ds) && Spoofs(lib, d) ==> Settled(lib, ds, d)
  }

  lemma {:induction false} NamesFind(ds: seq<Details>)
    ensures forall name :: name in ByName(ds) ==> ByName(ds)[name].name == name && ByName(ds)[name] in ds
    ensures forall d :: d in ds ==> d.name in ByName(ds)
    ensures forall k :: k in ByHardwareAddr(ds) ==> ByHardwareAddr(ds)[k] in ds
  {
    if ds != [] {
      NamesFind(ds[..|ds| - 1]);
      assert ds == ds[..|ds| - 1] + [ds[|ds| - 1]];
    }
  }

  lemma LookupIsChosen(ds: seq<Details>, l: Link)
    ensures Lookup(ds, l).Some? ==> Lookup(ds, l).value in Chosen(ds)
  {
  }

  lemma ChosenIsNamed(ds: seq<Details>, d: Details)
    requires d in Chosen(ds)
    ensures d in ds && d.name in ByName(ds)
  {
    NamesFind(ds);
  }

  /** The link gets past its renaming. */
  predicate Renames(links: seq<Link>, k: nat, d: Details)
    requires k < |links|
  {
    links[k].name == d.name || !Taken(links, k, d.name)
  }

  /** Without a new hardware address the same entry is found again. */
  lemma SameEntry(lib: Library, ds: seq<Details>, links: seq<Link>, k: nat, d: Details)
    requires k < |links| && Lookup(ds, links[k]) == Some(d) && !(Spoofs(lib, d) && Renames(links, k, d))
    ensures Lookup(ds, Configure(lib, d, links, k).0) == Some(d)
  {
    NamesFind(ds);
  }

  lemma SettledAgain(lib: Library, ds: seq<Details>, links: seq<Link>, links': seq<Link>, k: nat, d: Details)
    requires k < |links| == |links'| && Renames(links, k, d) && Spoofs(lib, d) && Settled(lib, ds, d)
    requires links'[k] == Configure(lib, d, links, k).0
    ensures var e := Lookup(ds, links'[k]);
            e.Some? && Configure(lib, e.value, links', k) == Configure(lib, d, links, k)
  {
    hide Taken;
    var bare := Link(d.name, lib.mac(d.spoofHardwareAddr).value, true, {});
    var (b, ok) := Configure(lib, d, [bare], 0);
    var (l, _) := Configure(lib, d, links, k);
    assert (l.name, l.hw, l.up) == (b.name, b.hw, b.up) && b.addrs <= l.addrs;
    assert Lookup(ds, l) == Lookup(ds, b) by { hide Configure; }
    var e := Lookup(ds, b).value;
    if e.name != b.name {
      NoName([b], 0, e.name);
      NoName(links', k, e.name);
    }
  }

  lemma NoName(links: seq<Link>, k: nat, name: string)
    ensures name == "" ==> Taken(links, k, name)
    ensures |links| == 1 && k == 0 && Taken(links, k, name) ==> name == ""
  {
  }

  /** What is found for a configured link changes nothing more and ends the same way. */
  lemma FoundAgain(lib: Library, ds: seq<Details>, links: seq<Link>, links': seq<Link>, k: nat, d: Details)
    requires AllSettled(lib, ds) && k < |links| == |links'| && Lookup(ds, links[k]) == Some(d)
    requires links'[k] == Configure(lib, d, links, k).0
    requires !Configure(lib, d, links, k).1 ==> links' == links[k := links'[k]]
    ensures var e := Lookup(ds, links'[k]);
            e.Some? && Configure(lib, e.value, links', k) == Configure(lib, d, links, k)
  {
    hide Configure;
    if Spoofs(lib, d) && Renames(links, k, d) {
      LookupIsChosen(ds, links[k]);
      SettledAgain(lib, ds, links, links', k, d);
    } else {
      SameEntry(lib, ds, links, k, d);
      ConfigureAgain(lib, d, links, links', k);
    }
  }

  lemma {:induction false} ApplyAgain(lib: Library, ds: seq<Details>, links: seq<Link>, k: nat)
    requires AllSettled(lib, ds) && k <= |links|
    ensures |Apply(lib, ds, links, k).0| == |links|
    ensures Apply(lib, ds, Apply(lib, ds, links, k).0, k) == Apply(lib, ds, links, k)
    decreases |links| - k
  {
    hide Configure;
    hide Lookup;
    hide AllSettled;
    ApplyKeepsEarlier(lib, ds, links, k);
    if k < |links| {
      var once := Apply(lib, ds, links, k).0;
      match Lookup(ds, links[k])
      case None =>
        ApplyKeepsEarlier(lib, ds, links, k + 1);
        ApplyAgain(lib, ds, links, k + 1);
      case Some(d) =>
        var (l, ok) := Configure(lib, d, links, k);
        if ok {
          ApplyKeepsEarlier(lib, ds, links[k := l], k + 1);
          ApplyAgain(lib, ds, links[k := l], k + 1);
        }
        assert once[k] == l;
        FoundAgain(lib, ds, links, once, k, d);
        assert once[k := l] == once;
    }
  }

  lemma ApplyToOne(lib: Library, ds: seq<Details>, l: Link, d: Details)
    requires Lookup(ds, l) == Some(d)
    ensures Apply(lib, ds, [l], 0) == ([Configure(lib, d, [l], 0).0], Configure(lib, d, [l], 0).1)
  {
    hide Configure;
    var l' := Configure(lib, d, [l], 0).0;
    assert [l][0 := l'] == [l'];
    assert Apply(lib, ds, [l'], 1) == ([l'], true);
  }

  /** A link that is looked up as d and already has its name. */
  lemma LinkFor(ds: seq<Details>, d: Details) returns (l: Link)
    requires d in Chosen(ds)
    ensures Lookup(ds, l) == Some(d) && l.name == d.name && l.up && l.addrs == {}
  {
    NamesFind(ds);
    if d in ByName(ds).Values {
      var name :| name in ByName(ds) && ByName(ds)[name] == d;
      l := Link(name, "", true, {});
    } else {
      var k :| k in ByHardwareAddr(ds) && k != "" && ByHardwareAddr(ds)[k] == d;
      l := Link(d.name, k, true, {});
    }
  }

  /** Applying the configuration twice does what applying it once does, with the same outcome. */
  predicate TwiceIsOnce(lib: Library, ds: seq<Details>, links: seq<Link>) {
    var (once, ok) := Apply(lib, ds, links, 0);
    Apply(lib, ds, once, 0) == (once, ok)
  }

  lemma SettledIsNeeded(lib: Library, ds: seq<Details>, d: Details)
    requires forall links :: TwiceIsOnce(lib, ds, links)
    requires d in Chosen(ds) && Spoofs(lib, d)
    ensures Settled(lib, ds, d)
  {
    var l := LinkFor(ds, d);
    ChosenIsNamed(ds, d);
    ApplyToOne(lib, ds, l, d);
    var (l', ok) := Configure(lib, d, [l], 0);
    assert Configure(lib, d, [Link(d.name, lib.mac(d.spoofHardwareAddr).value, true, {})], 0) == (l', ok);
    assert l'.name == d.name;
    var e := Lookup(ds, l').value;
    ApplyToOne(lib, ds, l', e);
    hide Apply;
    hide Configure;
    assert TwiceIsOnce(lib, ds, [l]);
    assert [Configure(lib, e, [l'], 0).0][0] == [l'][0];
  }

  /** Applying a configuration twice leaves every list of links as applying it
      once did, with the same outcome, exactly when each entry with a spoofed
      address settles: the link that has its name and that address is looked up
      as an entry that changes nothing more. */
  lemma IdempotentExactly(lib: Library, ds: seq<Details>)
    ensures (forall links :: TwiceIsOnce(lib, ds, links)) <==> AllSettled(lib, ds)
  {
    if AllSettled(lib, ds) {
      forall links
        ensures TwiceIsOnce(lib, ds, links)
      {
        ApplyAgain(lib, ds, links, 0);
      }
    }
    hide TwiceIsOnce;
    hide Settled;
    hide Chosen;
    if forall links :: TwiceIsOnce(lib, ds, links) {
      forall d | d in Chosen(ds) && Spoofs(lib, d)
        ensures Settled(lib, ds, d)
      {
        SettledIsNeeded(lib, ds, d);
      }
    }
  }

  /** It settles in particular when names and hardware addresses are not shared between entries. */
  lemma ApplyIsIdempotent(lib: Library, ds: seq<Details>, links: seq<Link>)
    requires Distinct(lib, ds)
    ensures AllSettled(lib, ds) && TwiceIsOnce(lib, ds, links)
    ensures |Apply(lib, ds, links, 0).0| == |links|
  {
    forall d | d in Chosen(ds) && Spoofs(lib, d)
      ensures Settled(lib, ds, d)
    {
      DistinctSettles(lib, ds, d);
    }
    hide Settled;
    ApplyAgain(lib, ds, links, 0);
  }

  lemma DistinctSettles(lib: Library, ds: seq<Details>, d: Details)
    requires Distinct(lib, ds) && d in Chosen(ds) && Spoofs(lib, d)
    ensures Settled(lib, ds, d)
  {
    hide Distinct;
    hide Lookup;
    var l := LinkFor(ds, d);
    LookupIsStable(lib, ds, [l], 0, d);
    var l' := Configure(lib, d, [l], 0).0;
    assert [l][0 := l'] == [l'];
    ConfigureAgain(lib, d, [l], [l'], 0);
    assert Configure(lib, d, [Link(d.name, lib.mac(d.spoofHardwareAddr).value, true, {})], 0) ==
           Configure(lib, d, [l], 0);
  }

  /** Sharing can break it: when one entry's spoofed address is another entry's
      hardware address, the second run takes the link for the other one. */
  lemma SharedAddressIsNotIdempotent(lib: Library, a: string, b: string)
    requires a != "" && b != "" && a != b && lib.mac(b) == Some(b)
    ensures var ds := [Details(a, b, "lan0", ""), Details(b, "", "uplink0", "")];
            var once := Apply(lib, ds, [Link("eth0", a, true, {})], 0);
            var twice := Apply(lib, ds, once.0, 0);
            once == ([Link("lan0", b, true, {})], true) && twice == ([Link("uplink0", b, true, {})], true)
  {
    var lan, uplink := Details(a, b, "lan0", ""), Details(b, "", "uplink0", "");
    var ds := [lan, uplink];
    assert ds[..1] == [lan] && [lan][..0] == [];
    assert ByHardwareAddr([]) == map[];
    assert ByHardwareAddr([lan]) == map[a := lan, b := lan];
    assert ByHardwareAddr(ds) == map[a := lan, b := uplink];
    ApplyToOne(lib, ds, Link("eth0", a, true, {}), lan);
    ApplyToOne(lib, ds, Link("lan0", b, true, {}), uplink);
  }
}
