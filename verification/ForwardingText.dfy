/** From the text of the port forwardings to what happens to packets: which
    protocols, ports and target a written forwarding stands for (netconfig). */
module ForwardingText {
  import opened Bytes
  import opened Numerals
  import opened NetText
  import opened Addresses
  import opened PortForward
  import opened Firewall

  /** What someone means by a forwarding: protocol numbers, ports and target. */
  datatype Wish = Wish(protos: seq<byte>, min: u16, max: u16, dest: Quad, dmin: u16, dmax: u16)

  /** TCP is 6 and may be left unnamed; UDP is 17. */
  ghost predicate Names(name: string, proto: byte) {
    (proto == 6 && (name == "" || name == "tcp")) || (proto == 17 && name == "udp")
  }

  /** The names with commas between them. */
  function Join(names: seq<string>): string
    requires names != []
  {
    if |names| == 1 then names[0] else names[0] + [','] + Join(names[1..])
  }

  ghost predicate NamesAll(names: seq<string>, protos: seq<byte>) {
    |names| == |protos| && forall i :: 0 <= i < |names| ==> Names(names[i], protos[i])
  }

  /** A port or a range of ports in decimal. */
  ghost predicate WritesPorts(text: string, min: u16, max: u16) {
    text == Format(min) + "-" + Format(max) || (min == max && text == Format(min))
  }

  ghost predicate Spells(names: seq<string>, text: string, protos: seq<byte>) {
    names != [] && NamesAll(names, protos) && text == Join(names)
  }

  ghost predicate Writes(fw: Forwarding, w: Wish) {
    && (exists names :: Spells(names, fw.proto, w.protos))
    && WritesPorts(fw.port, w.min, w.max) && WritesPorts(fw.destPort, w.dmin, w.dmax)
    && fw.destAddr == Some(w.dest)
  }

  /** The packet came in through the interface, with one of the protocols and a
      destination port in the range. */
  ghost predicate Meant(w: Wish, ifname: seq<byte>, p: Packet) {
    && p.iifname == ifname && p.l4proto in w.protos
    && |p.transport| >= 4 && w.min <= 256 * p.transport[2] as int + p.transport[3] as int <= w.max
  }

  /** The target of the first forwarding that is meant for the packet. */
  ghost function FirstMeant(ws: seq<Wish>, ifname: seq<byte>, p: Packet): Option<Verdict> {
    if ws == [] then None
    else if Meant(ws[0], ifname, p) then Some(DnatTo(ws[0].dest, ws[0].dmin, ws[0].dmax))
    else FirstMeant(ws[1..], ifname, p)
  }

  // ----------------------------------------------------------------- entries

  /** One entry for each protocol, in order. */
  function EntriesFor(w: Wish): (es: seq<Entry>)
    ensures |es| == |w.protos|
    ensures forall i :: 0 <= i < |es| ==> es[i] == Entry(w.protos[i], w.min, w.max, Some(w.dest), w.dmin, w.dmax)
  {
    seq(|w.protos|, i requires 0 <= i < |w.protos| => Entry(w.protos[i], w.min, w.max, Some(w.dest), w.dmin, w.dmax))
  }

  function EntriesForAll(ws: seq<Wish>): seq<Entry> {
    if ws == [] then [] else EntriesForAll(ws[..|ws| - 1]) + EntriesFor(ws[|ws| - 1])
  }

  lemma NoComma(name: string, proto: byte)
    requires Names(name, proto)
    ensures ',' !in name
  {
  }

  lemma NamesRest(names: seq<string>, protos: seq<byte>)
    requires |names| > 1 && NamesAll(names, protos)
    ensures NamesAll(names[1..], protos[1..])
  {
    hide Names;
  }

  lemma {:induction false} SplitJoin(names: seq<string>, protos: seq<byte>)
    requires names != [] && NamesAll(names, protos)
    ensures Split(Join(names), ',') == names
  {
    hide Split;
    hide Names;
    assert Names(names[0], protos[0]);
    NoComma(names[0], protos[0]);
    if |names| == 1 {
      SplitLast(names[0], ',');
    } else {
      NamesRest(names, protos);
      SplitJoin(names[1..], protos[1..]);
      SplitFirst(names[0], ',', Join(names[1..]));
      assert names == [names[0]] + names[1..];
    }
  }

  lemma PortsRead(text: string, min: u16, max: u16)
    requires WritesPorts(text, min, max)
    ensures ParsePort(text) == Some((min, max))
  {
    hide ParsePort;
    hide Format;
    PortRoundTrip(min, max);
  }

  lemma {:induction false} ProtosRead(names: seq<string>, fw: Forwarding, w: Wish)
    requires NamesAll(names, w.protos) && fw.destAddr == Some(w.dest)
    requires ParsePort(fw.port) == Some((w.min, w.max)) && ParsePort(fw.destPort) == Some((w.dmin, w.dmax))
    ensures ParseProtos(names, fw) == Some(EntriesFor(w))
    decreases |names|
  {
    hide ParsePort;
    if names != [] {
      var n := |names| - 1;
      ProtosRead(names[..n], fw, w.(protos := w.protos[..n]));
      assert Names(names[n], w.protos[n]);
      assert EntriesFor(w) == EntriesFor(w.(protos := w.protos[..n])) + [EntriesFor(w)[n]];
    }
  }

  /** A written forwarding is read as one entry for each protocol it names, in
      order, with its ports, target address and target ports. */
  lemma ForwardingIsRead(fw: Forwarding, w: Wish)
    requires Writes(fw, w)
    ensures ParseProtos(Split(fw.proto, ','), fw) == Some(EntriesFor(w))
  {
    hide Split;
    hide ParsePort;
    hide ParseProtos;
    hide WritesPorts;
    var names :| Spells(names, fw.proto, w.protos);
    SplitJoin(names, w.protos);
    PortsRead(fw.port, w.min, w.max);
    PortsRead(fw.destPort, w.dmin, w.dmax);
    ProtosRead(names, fw, w);
  }

  ghost predicate WritesAll(cfg: seq<Forwarding>, ws: seq<Wish>) {
    |cfg| == |ws| && forall i :: 0 <= i < |cfg| ==> Writes(cfg[i], ws[i])
  }

  /** A written configuration is read entirely, in the order it is written. */
  lemma {:induction false} ConfigurationIsRead(cfg: seq<Forwarding>, ws: seq<Wish>)
    requires WritesAll(cfg, ws)
    ensures Entries(cfg) == Some(EntriesForAll(ws)) && AllTargetsValid(EntriesForAll(ws))
  {
    hide Writes;
    hide ParseProtos;
    hide Split;
    if cfg != [] {
      var n := |cfg| - 1;
      assert forall i :: 0 <= i < n ==> cfg[..n][i] == cfg[i] && ws[..n][i] == ws[i];
      ConfigurationIsRead(cfg[..n], ws[..n]);
      ForwardingIsRead(cfg[n], ws[n]);
    }
  }

  // ----------------------------------------------------------------- meaning

  lemma {:induction false} CoveringConcat(a: seq<Entry>, b: seq<Entry>, ifname: seq<byte>, p: Packet)
    ensures FirstCovering(a + b, ifname, p) ==
            if FirstCovering(a, ifname, p).Some? then FirstCovering(a, ifname, p) else FirstCovering(b, ifname, p)
  {
    hide Covers;
    if a == [] {
      assert a + b == b;
    } else {
      CoveringConcat(a[1..], b, ifname, p);
      assert (a + b)[1..] == a[1..] + b && (a + b)[0] == a[0];
    }
  }

  lemma {:induction false} CoveringFor(w: Wish, ifname: seq<byte>, p: Packet)
    ensures FirstCovering(EntriesFor(w), ifname, p) ==
            if Meant(w, ifname, p) then Some(DnatTo(w.dest, w.dmin, w.dmax)) else None
    decreases |w.protos|
  {
    if w.protos != [] {
      var rest := w.(protos := w.protos[1..]);
      CoveringFor(rest, ifname, p);
      assert EntriesFor(w)[1..] == EntriesFor(rest);
      assert p.l4proto in w.protos <==> p.l4proto == w.protos[0] || p.l4proto in rest.protos;
    }
  }

  lemma {:induction false} CoveringForAll(ws: seq<Wish>, ifname: seq<byte>, p: Packet)
    ensures FirstCovering(EntriesForAll(ws), ifname, p) == FirstMeant(ws, ifname, p)
  {
    hide FirstCovering;
    hide Meant;
    if ws == [] {
      CoveringNone(ifname, p);
    } else {
      EntriesFront(ws);
      CoveringConcat(EntriesFor(ws[0]), EntriesForAll(ws[1..]), ifname, p);
      CoveringFor(ws[0], ifname, p);
      CoveringForAll(ws[1..], ifname, p);
    }
  }

  lemma CoveringNone(ifname: seq<byte>, p: Packet)
    ensures FirstCovering([], ifname, p) == None
  {
  }

  lemma EntriesLast(ws: seq<Wish>, w: Wish)
    ensures EntriesForAll(ws + [w]) == EntriesForAll(ws) + EntriesFor(w)
  {
    assert (ws + [w])[..|ws|] == ws;
  }

  lemma {:induction false} EntriesFront(ws: seq<Wish>)
    requires ws != []
    ensures EntriesForAll(ws) == EntriesFor(ws[0]) + EntriesForAll(ws[1..])
  {
    if |ws| == 1 {
      assert ws == [] + [ws[0]] && ws[1..] == [];
      EntriesLast([], ws[0]);
    } else {
      var init, mid, last := ws[..|ws| - 1], ws[1..|ws| - 1], ws[|ws| - 1];
      hide EntriesForAll;
      hide EntriesFor;
      EntriesFront(init);
      assert init[1..] == mid && ws == init + [last] && ws[1..] == mid + [last];
      EntriesLast(init, last);
      EntriesLast(mid, last);
      Associative(EntriesFor(ws[0]), EntriesForAll(mid), EntriesFor(last));
    }
  }

  lemma Associative(a: seq<Entry>, b: seq<Entry>, c: seq<Entry>)
    ensures a + b + c == a + (b + c)
  {
  }

  /** An application of a written configuration succeeds, and from then on a
      packet goes to the target of the first forwarding meant for it: through the
      interface, with a protocol it names, to a port in its range. All other
      packets stay as they are, and what leaves through the interface is masqueraded. */
  lemma TextMeansForwarding(cfg: seq<Forwarding>, ws: seq<Wish>, ifname: seq<byte>, p: Packet)
    requires WritesAll(cfg, ws) && 0 !in ifname
    ensures Entries(cfg).Some? && AllTargetsValid(Entries(cfg).value)
    ensures var rules := Wanted(Entries(cfg).value, ifname);
            && RunChain(rules[Prerouting], p) == FirstMeant(ws, ifname, p)
            && RunChain(rules[Postrouting], p) == if p.oifname == ifname then Some(Masquerade) else None
  {
    ConfigurationIsRead(cfg, ws);
    hide WritesAll;
    hide Entries;
    FirewallMeans(EntriesForAll(ws), ifname, p);
    CoveringForAll(ws, ifname, p);
    hide RunChain;
    hide Wanted;
  }

  // ----------------------------------------------------------------- failures

  predicate Unknown(name: string) {
    name != "" && name != "tcp" && name != "udp"
  }

  /** A protocol name that is not known, or ports that cannot be read. */
  ghost predicate Unreadable(fw: Forwarding) {
    || ParsePort(fw.port).None? || ParsePort(fw.destPort).None?
    || exists name :: name in Split(fw.proto, ',') && Unknown(name)
  }

  lemma EntryFails(name: string, fw: Forwarding)
    ensures ParseEntry(name, fw).None? <==> ParsePort(fw.port).None? || ParsePort(fw.destPort).None? || Unknown(name)
  {
    hide ParsePort;
  }

  lemma UnknownMore(names: seq<string>, name: string)
    ensures (exists x :: x in names + [name] && Unknown(x)) <==> (exists x :: x in names && Unknown(x)) || Unknown(name)
  {
    hide Unknown;
    if x :| x in names && Unknown(x) { assert x in names + [name]; }
    assert name in names + [name];
  }

  lemma {:induction false} ProtosFail(names: seq<string>, fw: Forwarding)
    ensures ParseProtos(names, fw).None? <==>
            names != [] && (|| ParsePort(fw.port).None? || ParsePort(fw.destPort).None?
                            || exists name :: name in names && Unknown(name))
  {
    hide ParsePort;
    hide ParseEntry;
    hide Unknown;
    if names != [] {
      var init, last := names[..|names| - 1], names[|names| - 1];
      ProtosFail(init, fw);
      EntryFails(last, fw);
      assert names == init + [last];
      UnknownMore(init, last);
      assert ParseProtos(names, fw).None? <==> ParseProtos(init, fw).None? || ParseEntry(last, fw).None?;
      hide ParseProtos;
    }
  }

  /** Reading a configuration fails exactly when one of its forwardings cannot be read. */
  lemma {:induction false} ReadingFailsExactly(cfg: seq<Forwarding>)
    ensures Entries(cfg).None? <==> exists i :: 0 <= i < |cfg| && Unreadable(cfg[i])
  {
    hide Split;
    hide ParsePort;
    hide ParseProtos;
    if cfg != [] {
      var n := |cfg| - 1;
      ReadingFailsExactly(cfg[..n]);
      ProtosFail(Split(cfg[n].proto, ','), cfg[n]);
      assert Entries(cfg).None? <==> Entries(cfg[..n]).None? || Unreadable(cfg[n]);
      hide Entries;
      hide Unreadable;
      assert forall i :: 0 <= i < n ==> cfg[..n][i] == cfg[i];
    }
  }
}
