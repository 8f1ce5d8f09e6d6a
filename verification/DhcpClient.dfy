/** The DHCPv4 client (dhcp4): obtaining, renewing and releasing a lease. */
module DhcpClient {
  import opened Bytes
  import opened Addresses
  import opened NetText

  // ----------------------------------------------------------------- packets

  datatype Opt = Opt(code: byte, data: seq<byte>)

  const OPT_MESSAGE_TYPE := 53
  const OPT_SERVER_ID := 54

  const DISCOVER := 1
  const OFFER := 2
  const REQUEST := 3
  const ACK := 5
  const NAK := 6
  const RELEASE := 7

  /** What the library extracts from the options of an ACK. */
  datatype LeaseInfo = LeaseInfo(netmask: seq<byte>, router: seq<byte>, dns: seq<seq<byte>>, renewalTime: int)

  datatype Packet = Packet(xid: u32, yourClientIP: Quad, options: seq<Opt>, lease: LeaseInfo)

  /** A mask option is there but too short for its four bytes to be printed. */
  predicate ShortMask(p: Packet) {
    0 < |p.lease.netmask| < 4
  }

  predicate HasMessageType(options: seq<Opt>, t: byte) {
    Opt(OPT_MESSAGE_TYPE, [t]) in options
  }

  /** The first server identifier option, if any. */
  function ServerID(options: seq<Opt>): seq<Opt> {
    if options == [] then []
    else if options[0].code == OPT_SERVER_ID then [options[0]]
    else ServerID(options[1..])
  }

  /** A message of the client: its type, transaction, requested address, server identifier and client address. */
  datatype Message = Message(kind: byte, xid: u32, requestIP: Option<Quad>, serverID: seq<Opt>, clientIP: Option<Quad>)

  // ------------------------------------------------------------- environment

  datatype Read =
    | NotDhcp
    | Reply(p: Packet)
    | ReadFails(timeout: bool)

  datatype Write = WriteOk | WriteFails(timeout: bool)

  /** What one call meets: a transaction id, the results of its writes, what it
      reads until the deadline, and the time at its end. */
  datatype Env = Env(xid: u32, discover: Write, request: Write, inputs: seq<Read>, now: int)

  datatype Outcome =
    | Accepted(ack: Packet)
    | Refused
    | Failed(timeout: bool)

  /** The first reply of the transaction with the given type; a NAK counts only when naks is set. */
  function Await(inputs: seq<Read>, xid: u32, t: byte, naks: bool): (Outcome, seq<Read>) {
    if inputs == [] then (Failed(true), [])
    else
      match inputs[0]
      case ReadFails(timeout) => (Failed(timeout), inputs[1..])
      case NotDhcp => Await(inputs[1..], xid, t, naks)
      case Reply(p) =>
        if p.xid == xid && HasMessageType(p.options, t) then (Accepted(p), inputs[1..])
        else if p.xid == xid && naks && HasMessageType(p.options, NAK) then (Refused, inputs[1..])
        else Await(inputs[1..], xid, t, naks)
  }

  function DiscoverMessage(xid: u32): Message {
    Message(DISCOVER, xid, None, [], None)
  }

  function RequestMessage(last: Packet): Message {
    Message(REQUEST, last.xid, Some(last.yourClientIP), ServerID(last.options), None)
  }

  /** The second half of an exchange: asking for what last holds. */
  function AskFor(last: Packet, env: Env, inputs: seq<Read>): (Outcome, seq<Message>) {
    match env.request
    case WriteFails(timeout) => (Failed(timeout), [RequestMessage(last)])
    case WriteOk => (Await(inputs, last.xid, ACK, true).0, [RequestMessage(last)])
  }

  /** One exchange: its outcome, and the messages written, in order. */
  function Exchange(ack: Option<Packet>, env: Env): (Outcome, seq<Message>) {
    match ack
    case Some(a) => AskFor(a, env, env.inputs)
    case None =>
      match env.discover
      case WriteFails(timeout) => (Failed(timeout), [DiscoverMessage(env.xid)])
      case WriteOk =>
        match Await(env.inputs, env.xid, OFFER, false)
        case (Accepted(offer), rest) =>
          var (outcome, sent) := AskFor(offer, env, rest);
          (outcome, [DiscoverMessage(env.xid)] + sent)
        case (outcome, _) => (outcome, [DiscoverMessage(env.xid)])
  }

  // ------------------------------------------------------------------- state

  datatype Config = Config(renewAfter: int, clientIP: string, subnetMask: string, router: string, dns: seq<string>)

  datatype Error = Timeout | DhcpError | SetupError

  /** text prints an address; setupFailed is the result of the one-time set-up. */
  datatype State = State(ack: Option<Packet>, cfg: Config, err: Option<Error>, setupFailed: bool,
                         text: seq<byte> -> string)

  function Texts(text: seq<byte> -> string, ips: seq<seq<byte>>): (texts: seq<string>)
    ensures |texts| == |ips| && forall i :: 0 <= i < |ips| ==> texts[i] == text(ips[i])
  {
    seq(|ips|, i requires 0 <= i < |ips| => text(ips[i]))
  }

  /** The configuration after an ACK: fields the ACK does not carry keep their value. */
  function Configured(s: State, ack: Packet, now: int): Config
    requires !ShortMask(ack)
  {
    var l := ack.lease;
    Config(now + l.renewalTime,
           s.text(ack.yourClientIP),
           if l.netmask != [] then FormatMask(l.netmask[..4]) else s.cfg.subnetMask,
           if l.router != [] then s.text(l.router) else s.cfg.router,
           if l.dns != [] then Texts(s.text, l.dns) else s.cfg.dns)
  }

  /** What a call comes back with; Crashes is a panic in the middle of it. */
  datatype Result = Returns(ok: bool) | Crashes

  function Conclude(s: State, outcome: Outcome, now: int): (State, Result) {
    match outcome
    case Accepted(ack) =>
      if ShortMask(ack)
      then (s.(ack := Some(ack), cfg := s.cfg.(clientIP := s.text(ack.yourClientIP)), err := None), Crashes)
      else (s.(ack := Some(ack), cfg := Configured(s, ack, now), err := None), Returns(true))
    case Refused => (s.(ack := None, err := Some(DhcpError)), Returns(true))
    case Failed(timeout) => (s.(err := Some(if timeout then Timeout else DhcpError)), Returns(true))
  }

  datatype Op =
    | Obtain(env: Env)
    | Release(xid: u32, write: Write)

  function ReleaseMessage(xid: u32, ack: Packet): Message {
    Message(RELEASE, xid, None, ServerID(ack.options), Some(ack.yourClientIP))
  }

  /** A call: the state after it, the messages written and what it comes back
      with. Releasing without a lease dereferences nil. */
  function Do(s: State, op: Op): (State, seq<Message>, Result) {
    match op
    case Obtain(env) =>
      if s.setupFailed then (s.(err := Some(SetupError)), [], Returns(false))
      else
        var (outcome, sent) := Exchange(s.ack, env);
        var (t, r) := Conclude(s, outcome, env.now);
        (t, sent, r)
    case Release(xid, write) =>
      if s.ack.None? then (s, [], Crashes)
      else (if write.WriteOk? then s.(ack := None) else s, [ReleaseMessage(xid, s.ack.value)], Returns(write.WriteOk?))
  }

  // --------------------------------------------------------------- the client

  class Client {
    var ack: Option<Packet>
    var cfg: Config
    var err: Option<Error>
    var sent: seq<Message> // everything written to the connection
    const setupFailed: bool
    const text: seq<byte> -> string

    function View(): State
      reads this
    {
      State(ack, cfg, err, setupFailed, text)
    }

    constructor (setupFailed: bool, text: seq<byte> -> string)
      ensures View() == State(None, Config(0, "", "", "", []), None, setupFailed, text) && sent == []
    {
      this.setupFailed, this.text := setupFailed, text;
      ack, cfg, err, sent := None, Config(0, "", "", "", []), None, [];
    }

    /** Reads until a reply to the transaction, an error or the deadline. */
    method AwaitReply(inputs: seq<Read>, xid: u32, t: byte, naks: bool) returns (outcome: Outcome, rest: seq<Read>)
      ensures (outcome, rest) == Await(inputs, xid, t, naks)
    {
      rest := inputs;
      while rest != []
        invariant Await(rest, xid, t, naks) == Await(inputs, xid, t, naks)
        decreases |rest|
      {
        var r := rest[0];
        rest := rest[1..];
        match r
        case ReadFails(timeout) => return Failed(timeout), rest;
        case NotDhcp =>
        case Reply(p) =>
          if p.xid == xid {
            if HasMessageType(p.options, t) {
              return Accepted(p), rest;
            }
            if naks && HasMessageType(p.options, NAK) {
              return Refused, rest;
            }
          }
      }
      return Failed(true), [];
    }

    method DhcpRequest(env: Env) returns (outcome: Outcome)
      modifies this`sent
      ensures outcome == Exchange(ack, env).0 && sent == old(sent) + Exchange(ack, env).1
    {
      var last: Packet;
      var inputs := env.inputs;
      if ack.Some? {
        last := ack.value;
      } else {
        sent := sent + [DiscoverMessage(env.xid)];
        if env.discover.WriteFails? {
          return Failed(env.discover.timeout);
        }
        var offer, rest := AwaitReply(inputs, env.xid, OFFER, false);
        if !offer.Accepted? {
          return offer;
        }
        last, inputs := offer.ack, rest;
      }
      sent := sent + [RequestMessage(last)];
      if env.request.WriteFails? {
        return Failed(env.request.timeout);
      }
      outcome, inputs := AwaitReply(inputs, last.xid, ACK, true);
    }

    /** Returns false on a permanent error. */
    method ObtainOrRenew(env: Env) returns (r: Result)
      modifies this
      ensures (View(), r) == (Do(old(View()), Obtain(env)).0, Do(old(View()), Obtain(env)).2)
      ensures sent == old(sent) + Do(old(View()), Obtain(env)).1
    {
      if setupFailed {
        err := Some(SetupError);
        assert sent + [] == sent;
        return Returns(false);
      }
      err := None;
      var outcome := DhcpRequest(env);
      match outcome {
        case Failed(timeout) =>
          err := Some(if timeout then Timeout else DhcpError);
        case Refused =>
          ack := None;
          err := Some(DhcpError);
        case Accepted(a) =>
          r := Store(a, env.now);
          return;
      }
      return Returns(true);
    }

    /** Stores an accepted ACK field by field, up to a mask that cannot be printed. */
    method Store(a: Packet, now: int) returns (r: Result)
      requires err.None?
      modifies this`ack, this`cfg
      ensures (View(), r) == Conclude(old(View()), Accepted(a), now)
    {
      hide FormatMask;
      hide Texts;
      ack := Some(a);
      cfg := cfg.(clientIP := text(a.yourClientIP));
      var lease := a.lease;
      if |lease.netmask| > 0 {
        if |lease.netmask| < 4 {
          return Crashes;
        }
        cfg := cfg.(subnetMask := FormatMask(lease.netmask[..4]));
      }
      if |lease.router| > 0 {
        cfg := cfg.(router := text(lease.router));
      }
      if |lease.dns| > 0 {
        cfg := cfg.(dns := Texts(text, lease.dns));
      }
      cfg := cfg.(renewAfter := now + lease.renewalTime);
      return Returns(true);
    }

    method ReleaseLease(xid: u32, write: Write) returns (r: Result)
      modifies this
      ensures (View(), r) == (Do(old(View()), Release(xid, write)).0, Do(old(View()), Release(xid, write)).2)
      ensures sent == old(sent) + Do(old(View()), Release(xid, write)).1
    {
      if ack.None? {
        assert sent + [] == sent;
        return Crashes;
      }
      sent := sent + [ReleaseMessage(xid, ack.value)];
      if write.WriteFails? {
        return Returns(false);
      }
      ack := None;
      return Returns(true);
    }
  }

  // --------------------------------------------------------------- one call

  /** What the loop passes over: other traffic, other transactions, other types. */
  predicate Ignored(r: Read, xid: u32, t: byte, naks: bool) {
    || r.NotDhcp?
    || (r.Reply? && r.p.xid != xid)
    || (r.Reply? && !HasMessageType(r.p.options, t) && !(naks && HasMessageType(r.p.options, NAK)))
  }

  /** Awaiting answers with the first read that is not ignored, or times out when all are. */
  lemma {:induction false} AwaitTakesFirst(inputs: seq<Read>, xid: u32, t: byte, naks: bool) returns (i: nat)
    ensures i <= |inputs| && forall j :: 0 <= j < i ==> Ignored(inputs[j], xid, t, naks)
    ensures i == |inputs| ==> Await(inputs, xid, t, naks) == (Failed(true), [])
    ensures i < |inputs| ==> !Ignored(inputs[i], xid, t, naks) &&
                             Answers(Await(inputs, xid, t, naks).0, inputs[i], t) &&
                             Await(inputs, xid, t, naks).1 == inputs[i + 1..]
  {
    if inputs == [] {
      i := 0;
    } else if Ignored(inputs[0], xid, t, naks) {
      i := AwaitTakesFirst(inputs[1..], xid, t, naks);
      i := i + 1;
    } else {
      i := 0;
    }
  }

  /** The outcome is what the read says. */
  ghost predicate Answers(outcome: Outcome, r: Read, t: byte) {
    match r
    case NotDhcp => false
    case ReadFails(timeout) => outcome == Failed(timeout)
    case Reply(p) => outcome == if HasMessageType(p.options, t) then Accepted(p) else Refused
  }

  lemma AwaitMatches(inputs: seq<Read>, xid: u32, t: byte, naks: bool)
    ensures var (outcome, _) := Await(inputs, xid, t, naks);
            && (outcome.Accepted? ==>
                  outcome.ack.xid == xid && HasMessageType(outcome.ack.options, t) && Reply(outcome.ack) in inputs)
            && (outcome.Refused? ==>
                  naks && exists p :: Reply(p) in inputs && p.xid == xid && HasMessageType(p.options, NAK))
  {
    var i := AwaitTakesFirst(inputs, xid, t, naks);
    if i < |inputs| && inputs[i].Reply? {
      assert Reply(inputs[i].p) in inputs;
    }
  }

  /** The i-th read is the first that matters, and it is reply p with the wanted type. */
  predicate AnsweredBy(inputs: seq<Read>, xid: u32, t: byte, naks: bool, i: nat, p: Packet) {
    && i < |inputs| && inputs[i] == Reply(p) && p.xid == xid && HasMessageType(p.options, t)
    && forall j :: 0 <= j < i ==> Ignored(inputs[j], xid, t, naks)
  }

  lemma AnswerIsUnique(inputs: seq<Read>, xid: u32, t: byte, naks: bool, i: nat, p: Packet)
    requires AnsweredBy(inputs, xid, t, naks, i, p)
    ensures Await(inputs, xid, t, naks) == (Accepted(p), inputs[i + 1..])
  {
    var k := AwaitTakesFirst(inputs, xid, t, naks);
    assert !Ignored(inputs[i], xid, t, naks);
    assert k == i;
  }

  lemma AcceptedIsAnswered(inputs: seq<Read>, xid: u32, t: byte, naks: bool) returns (i: nat)
    requires Await(inputs, xid, t, naks).0.Accepted?
    ensures AnsweredBy(inputs, xid, t, naks, i, Await(inputs, xid, t, naks).0.ack)
  {
    i := AwaitTakesFirst(inputs, xid, t, naks);
  }

  /** The reads decide the outcome: a timeout when all of them are ignored, and
      otherwise the first that is not. */
  ghost predicate Decide(inputs: seq<Read>, xid: u32, t: byte, naks: bool, outcome: Outcome) {
    && ((forall j :: 0 <= j < |inputs| ==> Ignored(inputs[j], xid, t, naks)) ==> outcome == Failed(true))
    && (forall i :: 0 <= i < |inputs| && !Ignored(inputs[i], xid, t, naks) ==>
                      (forall j :: 0 <= j < i ==> Ignored(inputs[j], xid, t, naks)) ==> Answers(outcome, inputs[i], t))
  }

  lemma AwaitDecides(inputs: seq<Read>, xid: u32, t: byte, naks: bool)
    ensures Decide(inputs, xid, t, naks, Await(inputs, xid, t, naks).0)
  {
    var k := AwaitTakesFirst(inputs, xid, t, naks);
  }

  /** ids is the first server identifier among the options, or empty when there is none. */
  ghost predicate IsServerID(ids: seq<Opt>, options: seq<Opt>) {
    && ((forall i :: 0 <= i < |options| ==> options[i].code != 54) ==> ids == [])
    && (forall i :: 0 <= i < |options| && options[i].code == 54 ==>
                      (forall j :: 0 <= j < i ==> options[j].code != 54) ==> ids == [options[i]])
  }

  lemma {:induction false} ServerIDExactly(options: seq<Opt>)
    ensures IsServerID(ServerID(options), options)
  {
    if options != [] && options[0].code != OPT_SERVER_ID {
      ServerIDExactly(options[1..]);
      assert forall i :: 1 <= i < |options| ==> options[i] == options[1..][i - 1];
      assert forall i :: 0 <= i < |options| - 1 ==> options[1..][i] == options[i + 1];
    }
  }

  ghost predicate IsDiscover(m: Message, xid: u32) {
    m.kind == 1 && m.xid == xid && m.requestIP == None && m.serverID == [] && m.clientIP == None
  }

  /** A REQUEST that repeats transaction, address and server of an offer or ACK. */
  ghost predicate IsRequestFor(m: Message, last: Packet) {
    && m.kind == 3 && m.xid == last.xid && m.requestIP == Some(last.yourClientIP) && m.clientIP == None
    && IsServerID(m.serverID, last.options)
  }

  ghost predicate IsReleaseOf(m: Message, xid: u32, ack: Packet) {
    && m.kind == 7 && m.xid == xid && m.requestIP == None && m.clientIP == Some(ack.yourClientIP)
    && IsServerID(m.serverID, ack.options)
  }

  /** What follows a REQUEST that was to be written. */
  ghost predicate Concluded(request: Write, inputs: seq<Read>, xid: u32, outcome: Outcome) {
    match request
    case WriteFails(timeout) => outcome == Failed(timeout)
    case WriteOk => Decide(inputs, xid, 5, true, outcome)
  }

  lemma AskShape(last: Packet, env: Env, inputs: seq<Read>)
    ensures var (outcome, sent) := AskFor(last, env, inputs);
            |sent| == 1 && IsRequestFor(sent[0], last) && Concluded(env.request, inputs, last.xid, outcome)
  {
    AwaitDecides(inputs, last.xid, ACK, true);
    ServerIDExactly(last.options);
    hide ServerID;
    hide Await;
    hide Decide;
    hide IsServerID;
  }

  /** The shape of an exchange. With a lease held it is one REQUEST for it, and
      the reads decide. Without one it is a DISCOVER; the offer that decides it,
      if there is one, is followed by a REQUEST for what it offers, and the reads
      after it decide. A write that fails ends the exchange. */
  lemma ExchangeShape(ack: Option<Packet>, env: Env)
    ensures var (outcome, sent) := Exchange(ack, env);
            match ack
            case Some(a) =>
              |sent| == 1 && IsRequestFor(sent[0], a) && Concluded(env.request, env.inputs, a.xid, outcome)
            case None =>
              && 1 <= |sent| <= 2 && IsDiscover(sent[0], env.xid)
              && (env.discover.WriteFails? ==> |sent| == 1 && outcome == Failed(env.discover.timeout))
              && (env.discover.WriteOk? && |sent| == 1 ==>
                    !outcome.Accepted? && Decide(env.inputs, env.xid, 2, false, outcome))
              && (|sent| == 2 ==> exists i, offer :: AnsweredBy(env.inputs, env.xid, 2, false, i, offer))
              && (env.discover.WriteOk? ==>
                    forall i, offer :: AnsweredBy(env.inputs, env.xid, 2, false, i, offer) ==>
                                         && |sent| == 2 && IsRequestFor(sent[1], offer)
                                         && Concluded(env.request, env.inputs[i + 1..], offer.xid, outcome))
  {
    match ack
    case Some(a) => AskShape(a, env, env.inputs);
    case None =>
      if env.discover.WriteOk? {
        DiscoverShape(env);
      }
  }

  lemma DiscoverShape(env: Env)
    requires env.discover.WriteOk?
    ensures var (outcome, sent) := Exchange(None, env);
            && 1 <= |sent| <= 2 && IsDiscover(sent[0], env.xid)
            && (|sent| == 1 ==> !outcome.Accepted? && Decide(env.inputs, env.xid, 2, false, outcome))
            && (|sent| == 2 ==> exists i, offer :: AnsweredBy(env.inputs, env.xid, 2, false, i, offer))
            && (forall i, offer :: AnsweredBy(env.inputs, env.xid, 2, false, i, offer) ==>
                                     && |sent| == 2 && IsRequestFor(sent[1], offer)
                                     && Concluded(env.request, env.inputs[i + 1..], offer.xid, outcome))
  {
    var (first, rest) := Await(env.inputs, env.xid, OFFER, false);
    AwaitDecides(env.inputs, env.xid, OFFER, false);
    if first.Accepted? {
      var k := AcceptedIsAnswered(env.inputs, env.xid, OFFER, false);
      AskShape(first.ack, env, rest);
    }
    hide Decide;
    hide IsRequestFor;
    hide Concluded;
    hide AskFor;
    forall i, offer | AnsweredBy(env.inputs, env.xid, 2, false, i, offer)
      ensures first == Accepted(offer) && rest == env.inputs[i + 1..]
    {
      AnswerIsUnique(env.inputs, env.xid, OFFER, false, i, offer);
    }
    hide Await;
    hide AnsweredBy;
  }

  // -------------------------------------------------------------------- runs

  /** The state after the calls. */
  function After(s: State, ops: seq<Op>): State {
    if ops == [] then s else Do(After(s, ops[..|ops| - 1]), ops[|ops| - 1]).0
  }

  /** An ACK that was accepted, and the time at the end of that call. */
  datatype Got = Got(ack: Packet, end: int)

  function AcceptedIn(s: State, op: Op): seq<Got> {
    if op.Obtain? && !s.setupFailed && Exchange(s.ack, op.env).0.Accepted?
    then [Got(Exchange(s.ack, op.env).0.ack, op.env.now)] else []
  }

  /** The ACKs accepted by the calls, oldest first. */
  function History(s: State, ops: seq<Op>): seq<Got> {
    if ops == [] then []
    else
      var init := ops[..|ops| - 1];
      History(s, init) + AcceptedIn(After(s, init), ops[|ops| - 1])
  }

  /** Without the ACKs whose mask ended the call before anything but the address was stored. */
  function Complete(h: seq<Got>): seq<Got> {
    if h == [] then []
    else Complete(h[..|h| - 1]) + if ShortMask(h[|h| - 1].ack) then [] else [h[|h| - 1]]
  }

  /** When the latest of the ACKs is to be renewed. */
  function LatestRenewal(h: seq<Got>, default: int): int {
    if h == [] then default else h[|h| - 1].end + h[|h| - 1].ack.lease.renewalTime
  }

  function LatestMask(h: seq<Got>, default: string): string {
    if h == [] then default
    else if |h[|h| - 1].ack.lease.netmask| >= 4 then FormatMask(h[|h| - 1].ack.lease.netmask[..4])
    else LatestMask(h[..|h| - 1], default)
  }

  function LatestRouter(h: seq<Got>, text: seq<byte> -> string, default: string): string {
    if h == [] then default
    else if h[|h| - 1].ack.lease.router != [] then text(h[|h| - 1].ack.lease.router)
    else LatestRouter(h[..|h| - 1], text, default)
  }

  function LatestDns(h: seq<Got>, text: seq<byte> -> string, default: seq<string>): seq<string> {
    if h == [] then default
    else if h[|h| - 1].ack.lease.dns != [] then Texts(text, h[|h| - 1].ack.lease.dns)
    else LatestDns(h[..|h| - 1], text, default)
  }

  /** State t, after the ACKs h were accepted from state s on: a lease held is
      the last one, the address is that of the last one, and, ACKs with a mask
      that is too short aside, the time to renew is that of the latest ACK, and
      mask, router and DNS servers are those of the latest ACK that carried them. */
  ghost predicate Follows(s: State, t: State, h: seq<Got>) {
    && t.text == s.text && t.setupFailed == s.setupFailed
    && (t.ack.Some? ==> h != [] && t.ack.value == h[|h| - 1].ack)
    && t.cfg.clientIP == (if h == [] then s.cfg.clientIP else s.text(h[|h| - 1].ack.yourClientIP))
    && t.cfg.renewAfter == LatestRenewal(Complete(h), s.cfg.renewAfter)
    && t.cfg.subnetMask == LatestMask(Complete(h), s.cfg.subnetMask)
    && t.cfg.router == LatestRouter(Complete(h), s.text, s.cfg.router)
    && t.cfg.dns == LatestDns(Complete(h), s.text, s.cfg.dns)
  }

  /** Over any calls and replies the configuration follows the ACKs accepted. */
  lemma {:induction false} ConfigurationFollowsAcks(s: State, ops: seq<Op>)
    requires s.ack.None?
    ensures Follows(s, After(s, ops), History(s, ops))
  {
    hide Do;
    hide AcceptedIn;
    hide Follows;
    if ops == [] {
      FollowsNone(s);
    } else {
      ConfigurationFollowsAcks(s, ops[..|ops| - 1]);
      CallFollows(s, After(s, ops[..|ops| - 1]), History(s, ops[..|ops| - 1]), ops[|ops| - 1]);
    }
  }

  lemma FollowsNone(s: State)
    requires s.ack.None?
    ensures Follows(s, s, [])
  {
  }

  lemma CallFollows(s: State, t: State, h: seq<Got>, op: Op)
    requires Follows(s, t, h)
    ensures Follows(s, Do(t, op).0, h + AcceptedIn(t, op))
  {
    hide Do;
    hide AcceptedIn;
    hide Configured;
    hide LatestMask;
    hide LatestRouter;
    hide LatestDns;
    hide LatestRenewal;
    hide Complete;
    CallConfigures(t, op);
    if AcceptedIn(t, op) == [] {
      assert h + [] == h;
    } else {
      var got := AcceptedIn(t, op)[0];
      assert AcceptedIn(t, op) == [got];
      CompleteMore(h, got);
      if !ShortMask(got.ack) { LatestOfMore(t, Complete(h), got, s.cfg); }
    }
  }

  lemma CompleteMore(h: seq<Got>, got: Got)
    ensures Complete(h + [got]) == if ShortMask(got.ack) then Complete(h) else Complete(h) + [got]
  {
    assert (h + [got])[..|h|] == h;
  }

  /** A call configures the ACK it accepts, and otherwise leaves the configuration. */
  lemma CallConfigures(s: State, op: Op)
    ensures var (t, got) := (Do(s, op).0, AcceptedIn(s, op));
            && t.text == s.text && t.setupFailed == s.setupFailed
            && (got == [] ==> t.cfg == s.cfg && (t.ack == s.ack || t.ack.None?))
            && (got != [] ==> |got| == 1 && op.Obtain? && t.ack == Some(got[0].ack) &&
                              t.cfg == if ShortMask(got[0].ack)
                                       then s.cfg.(clientIP := s.text(got[0].ack.yourClientIP))
                                       else Configured(s, got[0].ack, got[0].end))
  {
  }

  lemma LatestOfMore(s: State, h: seq<Got>, got: Got, first: Config)
    requires !ShortMask(got.ack)
    requires s.cfg.subnetMask == LatestMask(h, first.subnetMask)
    requires s.cfg.router == LatestRouter(h, s.text, first.router)
    requires s.cfg.dns == LatestDns(h, s.text, first.dns)
    ensures var c := Configured(s, got.ack, got.end);
            && c.renewAfter == LatestRenewal(h + [got], first.renewAfter)
            && c.clientIP == s.text(got.ack.yourClientIP)
            && c.subnetMask == LatestMask(h + [got], first.subnetMask)
            && c.router == LatestRouter(h + [got], s.text, first.router)
            && c.dns == LatestDns(h + [got], s.text, first.dns)
  {
    assert (h + [got])[..|h|] == h;
  }

  /** The configured mask is read back by the network configuration as the
      bytes of the latest ACK that carried one. */
  lemma MaskReachesNetconfig(s: State, ack: Packet, now: int)
    requires |ack.lease.netmask| >= 4
    ensures SubnetMaskBytes(Configured(s, ack, now).subnetMask) == Some(ack.lease.netmask[..4])
  {
    MaskRoundTrip(ack.lease.netmask[..4]);
  }

  /** What a call does to the lease, to the error and to the caller: an ACK
      replaces the lease within the same transaction; a NAK or a release drops it,
      so that the next call starts over with DISCOVER; every other error keeps it.
      Only a failed set-up is reported as permanent. */
  lemma LeaseTransitions(s: State, op: Op)
    ensures var (t, sent, r) := Do(s, op);
            && t.text == s.text && t.setupFailed == s.setupFailed
            && (op.Obtain? && s.setupFailed ==>
                  t == s.(err := Some(SetupError)) && sent == [] && r == Returns(false))
            && (op.Obtain? && !s.setupFailed ==>
                  && sent == Exchange(s.ack, op.env).1
                  && (s.ack.Some? && t.ack.Some? ==> t.ack.value.xid == s.ack.value.xid)
                  && match Exchange(s.ack, op.env).0
                     case Accepted(a) =>
                       && t.ack == Some(a) && t.err == None
                       && r == if 1 <= |a.lease.netmask| <= 3 then Crashes else Returns(true)
                     case Refused =>
                       t.ack == None && t.cfg == s.cfg && t.err == Some(DhcpError) && r == Returns(true)
                     case Failed(timeout) =>
                       && t.ack == s.ack && t.cfg == s.cfg && r == Returns(true)
                       && t.err == Some(if timeout then Timeout else DhcpError))
            && (op.Release? && s.ack.Some? ==>
                  && |sent| == 1 && IsReleaseOf(sent[0], op.xid, s.ack.value)
                  && t == (if op.write.WriteOk? then s.(ack := None) else s)
                  && r == Returns(op.write.WriteOk?))
  {
    match op
    case Release(_, _) =>
      if s.ack.Some? { ServerIDExactly(s.ack.value.options); }
    case Obtain(env) =>
      if s.ack.Some? { AwaitMatches(env.inputs, s.ack.value.xid, ACK, true); }
  }

  /** Among the reads, the reply that decides the request is an ACK with a short mask. */
  ghost predicate ShortlyAcked(inputs: seq<Read>, xid: u32) {
    exists i, p :: AnsweredBy(inputs, xid, 5, true, i, p) && 1 <= |p.lease.netmask| <= 3
  }

  /** The same after the offer that decides the DISCOVER. */
  ghost predicate OfferedThenShortlyAcked(inputs: seq<Read>, xid: u32) {
    exists i, offer :: AnsweredBy(inputs, xid, 2, false, i, offer) && ShortlyAcked(inputs[i + 1..], xid)
  }

  lemma AskShortly(last: Packet, env: Env, inputs: seq<Read>)
    ensures var outcome := AskFor(last, env, inputs).0;
            outcome.Accepted? && ShortMask(outcome.ack) <==> env.request.WriteOk? && ShortlyAcked(inputs, last.xid)
  {
    if ShortlyAcked(inputs, last.xid) {
      var i, p :| AnsweredBy(inputs, last.xid, ACK, true, i, p) && ShortMask(p);
      AnswerIsUnique(inputs, last.xid, ACK, true, i, p);
    }
    if Await(inputs, last.xid, ACK, true).0.Accepted? {
      var i := AcceptedIsAnswered(inputs, last.xid, ACK, true);
    }
  }

  lemma DiscoverShortly(env: Env)
    ensures var outcome := Exchange(None, env).0;
            outcome.Accepted? && ShortMask(outcome.ack) <==>
            env.discover.WriteOk? && env.request.WriteOk? && OfferedThenShortlyAcked(env.inputs, env.xid)
  {
    hide ShortlyAcked;
    var (offer, rest) := Await(env.inputs, env.xid, OFFER, false);
    if OfferedThenShortlyAcked(env.inputs, env.xid) {
      var i, p :| AnsweredBy(env.inputs, env.xid, OFFER, false, i, p) && ShortlyAcked(env.inputs[i + 1..], env.xid);
      AnswerIsUnique(env.inputs, env.xid, OFFER, false, i, p);
      AskShortly(p, env, rest);
    }
    if offer.Accepted? {
      var i := AcceptedIsAnswered(env.inputs, env.xid, OFFER, false);
      AnswerIsUnique(env.inputs, env.xid, OFFER, false, i, offer.ack);
      AskShortly(offer.ack, env, rest);
    }
  }

  /** A call panics exactly when there is no lease to release, or when it reads
      the reply that decides its request and that is an ACK with a mask of one to
      three bytes. The lease and its address are kept by then, and nothing else. */
  lemma CrashesExactly(s: State, op: Op)
    ensures var (t, sent, r) := Do(s, op);
            match op
            case Release(_, _) =>
              && (r == Crashes <==> s.ack.None?)
              && (r == Crashes ==> t == s && sent == [])
            case Obtain(env) =>
              && (r == Crashes <==>
                  && !s.setupFailed && env.request.WriteOk?
                  && if s.ack.Some? then ShortlyAcked(env.inputs, s.ack.value.xid)
                     else env.discover.WriteOk? && OfferedThenShortlyAcked(env.inputs, env.xid))
              && (r == Crashes ==>
                    && t.ack.Some? && AcceptedIn(s, op) == [Got(t.ack.value, env.now)] && t.err.None?
                    && t.cfg == s.cfg.(clientIP := s.text(t.ack.value.yourClientIP)))
  {
    hide ShortlyAcked;
    hide OfferedThenShortlyAcked;
    if op.Obtain? {
      DiscoverShortly(op.env);
      if s.ack.Some? { AskShortly(s.ack.value, op.env, op.env.inputs); }
    }
  }

  /** Any server can make a client without a lease panic: with an offer, and an
      ACK whose mask option has a single byte. */
  lemma OneByteMaskCrashes(s: State, env: Env, offer: Packet, ack: Packet, b: byte)
    requires !s.setupFailed && s.ack.None? && env.discover.WriteOk? && env.request.WriteOk?
    requires env.inputs == [Reply(offer), Reply(ack)] && offer.xid == ack.xid == env.xid
    requires HasMessageType(offer.options, OFFER) && HasMessageType(ack.options, ACK) && ack.lease.netmask == [b]
    ensures Do(s, Obtain(env)).2 == Crashes && Do(s, Obtain(env)).0.ack == Some(ack)
  {
    AnswerIsUnique(env.inputs, env.xid, OFFER, false, 0, offer);
    assert env.inputs[1..] == [Reply(ack)];
    AnswerIsUnique([Reply(ack)], offer.xid, ACK, true, 0, ack);
  }
}
