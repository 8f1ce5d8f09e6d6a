/** DHCP packets as they arrive, and what the server reads from them (dhcp4d). */
module WirePackets {
  import opened Bytes
  import opened Addresses
  import opened MacPrefixes
  import Spec = LeaseTable

  /** Four bytes are an address; anything else is not. */
  function AsAddress(raw: seq<byte>): Option<Ip4> {
    if |raw| == 4 then Some(ToU32(raw)) else None
  }

  /** The fields and options the server looks at; an absent option is None. */
  datatype Packet = Packet(chaddr: seq<byte>, ciaddr: Quad, requestedIP: Option<seq<byte>>,
                           serverId: Option<seq<byte>>, hostname: string)
  {
    /** The requested-address option, or else the client address field. */
    function RequestedIP(): seq<byte> {
      if requestedIP.Some? then requestedIP.value else ciaddr
    }

    function Client(): string {
      FormatMac(chaddr)
    }

    predicate ForServer(server: Ip4) {
      serverId.Some? ==> To4(serverId.value) == Some(server)
    }

    function Parse(): Spec.Packet {
      Spec.Packet(Client(), AsAddress(RequestedIP()),
                  if serverId.Some? then Some(To4(serverId.value)) else None, hostname)
    }
  }

  datatype Message =
    | Discover(p: Packet, dice: Spec.Slot)
    | Request(p: Packet)
    | Decline(p: Packet, wallClock: int)
    | SetHostname(hwAddr: string, name: string)
    | Unsupported
  {
    function Parse(): Spec.Message {
      match this
      case Discover(p, dice) => Spec.Discover(p.Parse(), dice)
      case Request(p) => Spec.Request(p.Parse())
      case Decline(p, wallClock) => Spec.Decline(p.Parse(), wallClock)
      case SetHostname(hwAddr, name) => Spec.SetHostname(hwAddr, name)
      case Unsupported => Spec.Unsupported
    }
  }

  /** Packets come from the same client exactly when they carry the same hardware address. */
  lemma DevicesAreClients(p: Packet, q: Packet)
    ensures p.Parse().hwAddr == q.Parse().hwAddr <==> p.chaddr == q.chaddr
  {
    MacRoundTrip(p.chaddr);
    MacRoundTrip(q.chaddr);
  }

  /** A packet asks for an address exactly when its requested-address option
      spells it, or, without that option, its client address field. */
  lemma AskingIsSpelling(p: Packet, raw: seq<byte>)
    requires |raw| == 4
    ensures p.Parse().asked == Some(ToU32(raw)) <==>
            if p.requestedIP.Some? then p.requestedIP.value == raw else p.ciaddr == raw
    ensures p.RequestedIP() == raw <==> p.Parse().asked == Some(ToU32(raw))
  {
    if |p.RequestedIP()| == 4 && ToU32(p.RequestedIP()) == ToU32(raw) { ToU32IsInjective(p.RequestedIP(), raw); }
  }

  /** Asking for no address in particular reserves nothing. */
  lemma ZeroIsNoWish(start: Ip4, t: Spec.Table, p: Packet, now: int)
    requires To4(p.RequestedIP()) == Some(0)
    ensures Spec.CanLease(start, t, p.Parse().asked, p.Client(), now) == -1
  {
  }

  /** A packet is for this server unless it carries a server identifier other
      than the server's four bytes, plain or as an IPv4-mapped address. */
  lemma MeantForServer(p: Packet, server: Quad)
    ensures p.Parse().ForServer(ToU32(server)) <==>
            || p.serverId.None?
            || p.serverId.value == server
            || p.serverId.value == [0, 0, 0, 0, 0, 0, 0, 0, 0, 0, 255, 255] + server
    ensures p.ForServer(ToU32(server)) <==> p.Parse().ForServer(ToU32(server))
  {
    if p.serverId.Some? {
      var id := p.serverId.value;
      var mapped := [0, 0, 0, 0, 0, 0, 0, 0, 0, 0, 255, 255] + server;
      if |id| == 4 && ToU32(id) == ToU32(server) { ToU32IsInjective(id, server); }
      if |id| == 16 {
        assert id == id[..12] + id[12..];
        assert mapped[..12] == [0, 0, 0, 0, 0, 0, 0, 0, 0, 0, 255, 255] && mapped[12..] == server;
        if ToU32(id[12..]) == ToU32(server) { ToU32IsInjective(id[12..], server); }
      }
    }
  }

  /** The client is known by the text of its hardware address; its hostname is the packet's. */
  ghost predicate SameClient(r: Spec.Packet, p: Packet) {
    r.hwAddr == FormatMac(p.chaddr) && r.hostname == p.hostname && r == p.Parse()
  }

  /** Everything else the server reads from a message is what the message says. */
  lemma ReadAsSent(m: Message)
    ensures var r := m.Parse();
            match m
            case Discover(p, dice) => r.Discover? && r.dice == dice && SameClient(r.p, p)
            case Request(p) => r.Request? && SameClient(r.p, p)
            case Decline(p, wallClock) => r.Decline? && r.wallClock == wallClock && SameClient(r.p, p)
            case SetHostname(hwAddr, name) => r.SetHostname? && r.hwAddr == hwAddr && r.name == name
            case Unsupported => r.Unsupported?
  {
  }
}
