/** Port forwarding: the nftables register machine, the rules generated from
    the configured forwardings, and what the forwardings mean (netconfig). */
module PortForward {
  import opened Bytes
  import opened Numerals
  import opened NetText
  import opened Addresses

  // ------------------------------------------------------- register machine

  /** Contents of a register or an operand. */
  type Data = d: seq<byte> | |d| <= 16

  type Register = d: seq<byte> | |d| == 16 witness seq(16, _ => 0)

  type Regs = map<nat, Register>

  /** A device name: 1 to 15 bytes, none of them NUL. */
  type DeviceName = n: seq<byte> | 1 <= |n| <= 15 && 0 !in n witness [1]

  datatype CmpOp = Eq | Gte | Lte

  datatype Expr =
    | MetaIifname(reg: nat)
    | MetaOifname(reg: nat)
    | MetaL4proto(reg: nat)
    | Payload(reg: nat, offset: nat, len: nat) // from the transport header
    | Cmp(op: CmpOp, reg: nat, data: Data)
    | Immediate(reg: nat, data: Data)
    | Dnat(regAddrMin: nat, regProtoMin: nat, regProtoMax: nat)
    | Masq

  type Rule = seq<Expr>

  datatype Packet = Packet(iifname: DeviceName, oifname: DeviceName, l4proto: byte, transport: seq<byte>)

  datatype Verdict = DnatTo(addr: seq<byte>, min: u16, max: u16) | Masquerade

  function Zeros(n: nat): seq<byte> {
    seq(n, _ => 0)
  }

  function Read(regs: Regs, r: nat): Register {
    if r in regs then regs[r] else Zeros(16)
  }

  /** Registers are made of 4-byte words: the last word written is padded with zeros, later words keep their value. */
  function Load(regs: Regs, r: nat, d: Data): Regs {
    var written := d + Zeros((4 - |d| % 4) % 4);
    regs[r := written + Read(regs, r)[|written|..]]
  }

  /** The name as the kernel loads it: padded with NULs to 16 bytes. */
  function KernelName(n: DeviceName): Register {
    n + Zeros(16 - |n|)
  }

  predicate Satisfies(op: CmpOp, c: int) {
    match op
    case Eq => c == 0
    case Gte => c >= 0
    case Lte => c <= 0
  }

  /** Runs a rule from its i-th expression; absent when a comparison breaks it or it ends without a verdict. */
  function Exec(rule: Rule, i: nat, regs: Regs, p: Packet): Option<Verdict>
    decreases |rule| - i
  {
    if i >= |rule| then None
    else
      match rule[i]
      case MetaIifname(r) => Exec(rule, i + 1, Load(regs, r, KernelName(p.iifname)), p)
      case MetaOifname(r) => Exec(rule, i + 1, Load(regs, r, KernelName(p.oifname)), p)
      case MetaL4proto(r) => Exec(rule, i + 1, Load(regs, r, [p.l4proto]), p)
      case Payload(r, offset, len) =>
        if len <= 16 && offset + len <= |p.transport|
        then Exec(rule, i + 1, Load(regs, r, p.transport[offset..offset + len]), p)
        else None
      case Cmp(op, r, data) =>
        if Satisfies(op, Compare(Read(regs, r)[..|data|], data)) then Exec(rule, i + 1, regs, p) else None
      case Immediate(r, data) => Exec(rule, i + 1, Load(regs, r, data), p)
      case Dnat(a, min, max) =>
        var lo, hi := Read(regs, min), Read(regs, if max == 0 then min else max);
        Some(DnatTo(Read(regs, a)[..4], Be16(lo[0], lo[1]), Be16(hi[0], hi[1])))
      case Masq => Some(Masquerade)
  }

  /** The verdict of the first rule that reaches one. */
  function RunChain(rules: seq<Rule>, p: Packet): Option<Verdict> {
    if rules == [] then None
    else
      var v := Exec(rules[0], 0, map[], p);
      if v.Some? then v else RunChain(rules[1..], p)
  }

  // ---------------------------------------------------------- rule generation

  /** The name followed by NUL, cut or zero-filled to 16 bytes. */
  function NfIfname(n: seq<byte>): Register {
    seq(16, i requires 0 <= i => if i < |n| then n[i] else 0)
  }

  function PortForwardExpr(ifname: seq<byte>, proto: byte, portMin: u16, portMax: u16, dest: Data,
                           dportMin: u16, dportMax: u16): Rule {
    var cmp := if portMin == portMax then [Cmp(Eq, 1, PutBe16(portMin))]
               else [Cmp(Gte, 1, PutBe16(portMin)), Cmp(Lte, 1, PutBe16(portMax))];
    var ex := [
      MetaIifname(1),
      Cmp(Eq, 1, NfIfname(ifname)),
      MetaL4proto(1),
      Cmp(Eq, 1, [proto]),
      Payload(1, 2, 2)
    ];
    var target := if dportMin == dportMax then [Immediate(2, PutBe16(dportMin)), Dnat(1, 2, 0)]
                  else [Immediate(2, PutBe16(dportMin)), Immediate(3, PutBe16(dportMax)), Dnat(1, 2, 3)];
    ex + cmp + [Immediate(1, dest)] + target
  }

  // ------------------------------------------------------------ configuration

  /** One entry of portforwardings.json. destAddr is the address net.ParseIP
      and To4 make of the text, absent when they make none. */
  datatype Forwarding = Forwarding(proto: string, port: string, destAddr: Option<Quad>, destPort: string)

  /** One protocol of one entry, with its ports read. */
  datatype Entry = Entry(proto: byte, min: u16, max: u16, dest: Option<Quad>, dmin: u16, dmax: u16)

  function ParseProto(s: string): Option<byte> {
    if s == "" || s == "tcp" then Some(6) else if s == "udp" then Some(17) else None
  }

  function ParseEntry(proto: string, fw: Forwarding): Option<Entry> {
    match (ParseProto(proto), ParsePort(fw.port), ParsePort(fw.destPort))
    case (Some(p), Some((min, max)), Some((dmin, dmax))) => Some(Entry(p, min, max, fw.destAddr, dmin, dmax))
    case _ => None
  }

  function ParseProtos(protos: seq<string>, fw: Forwarding): Option<seq<Entry>> {
    if protos == [] then Some([])
    else
      match (ParseProtos(protos[..|protos| - 1], fw), ParseEntry(protos[|protos| - 1], fw))
      case (Some(init), Some(last)) => Some(init + [last])
      case _ => None
  }

  /** Every entry in file order, then protocol order; absent when one does not parse. */
  function Entries(cfg: seq<Forwarding>): Option<seq<Entry>> {
    if cfg == [] then Some([])
    else
      var fw := cfg[|cfg| - 1];
      match (Entries(cfg[..|cfg| - 1]), ParseProtos(Split(fw.proto, ','), fw))
      case (Some(init), Some(last)) => Some(init + last)
      case _ => None
  }

  predicate Covers(e: Entry, ifname: seq<byte>, p: Packet) {
    && p.iifname == ifname
    && p.l4proto == e.proto
    && |p.transport| >= 4
    && e.min <= Be16(p.transport[2], p.transport[3]) <= e.max
  }

  /** What the forwardings mean: the target of the first entry that covers the packet. */
  function FirstCovering(es: seq<Entry>, ifname: seq<byte>, p: Packet): Option<Verdict> {
    if es == [] then None
    else if Covers(es[0], ifname, p) && es[0].dest.Some? then Some(DnatTo(es[0].dest.value, es[0].dmin, es[0].dmax))
    else FirstCovering(es[1..], ifname, p)
  }

  function RuleOf(e: Entry, ifname: seq<byte>): Rule {
    PortForwardExpr(ifname, e.proto, e.min, e.max, if e.dest.Some? then e.dest.value else [], e.dmin, e.dmax)
  }

  function RulesOf(es: seq<Entry>, ifname: seq<byte>): seq<Rule> {
    if es == [] then [] else RulesOf(es[..|es| - 1], ifname) + [RuleOf(es[|es| - 1], ifname)]
  }

  // ------------------------------------------------------------------- proofs

  /** A configured name without NUL matches a device exactly when it is the
      device's name; names of 16 bytes or more match nothing. */
  lemma NameMatches(n: seq<byte>, d: DeviceName)
    requires 0 !in n
    ensures NfIfname(n) == KernelName(d) <==> n == d
  {
    assert forall i :: 0 <= i < |d| ==> KernelName(d)[i] == d[i] && d[i] != 0;
    assert forall i :: |d| <= i < 16 ==> KernelName(d)[i] == 0;
    assert forall i :: 0 <= i < 16 ==> NfIfname(n)[i] == if i < |n| then n[i] else 0;
    if NfIfname(n) == KernelName(d) {
      assert |n| <= |d| by { assert NfIfname(n)[|d|] == 0; }
      var k := if |n| < |d| then |n| else 0;
      assert NfIfname(n)[k] == KernelName(d)[k] == d[k];
    }
  }

  /** Longer names are told apart by their first 16 bytes only. */
  lemma LongNamesCollide(n: seq<byte>, m: seq<byte>)
    requires |n| >= 16 && |m| >= 16
    ensures NfIfname(n) == NfIfname(m) <==> n[..16] == m[..16]
  {
    assert forall i :: 0 <= i < 16 ==> NfIfname(n)[i] == n[..16][i] && NfIfname(m)[i] == m[..16][i];
  }

  lemma LoadRead(regs: Regs, r: nat, d: Data, s: nat)
    ensures Read(Load(regs, r, d), r)[..|d|] == d
    ensures s != r ==> Read(Load(regs, r, d), s) == Read(regs, s)
  {
  }

  /** Loading d into register 1 and comparing it: the rule goes on exactly when d is as wanted. */
  lemma Compares(rule: Rule, i: nat, d: Data, want: Data, regs: Regs, p: Packet)
    requires i + 1 < |rule| && rule[i + 1] == Cmp(Eq, 1, want) && |d| == |want|
    requires Exec(rule, i, regs, p) == Exec(rule, i + 1, Load(regs, 1, d), p)
    ensures Exec(rule, i, regs, p) == if d == want then Exec(rule, i + 2, Load(regs, 1, d), p) else None
  {
    hide Load;
    hide Read;
    var r := Load(regs, 1, d);
    LoadRead(regs, 1, d, 1);
    CompareEqual(d, want);
    assert Satisfies(Eq, Compare(Read(r, 1)[..|want|], want)) <==> d == want;
    hide Compare;
  }

  /** The first five expressions pass exactly the packets of the interface and
      protocol that have ports, and leave the destination port in register 1. */
  lemma Selects(rule: Rule, ifname: seq<byte>, proto: byte, p: Packet)
    requires 0 !in ifname && |rule| >= 5
    requires rule[..5] == [MetaIifname(1), Cmp(Eq, 1, NfIfname(ifname)), MetaL4proto(1), Cmp(Eq, 1, [proto]),
                           Payload(1, 2, 2)]
    ensures if p.iifname == ifname && p.l4proto == proto && |p.transport| >= 4
            then exists regs: Regs ::
                   Exec(rule, 0, map[], p) == Exec(rule, 5, regs, p) && Read(regs, 1)[..2] == p.transport[2..4]
            else Exec(rule, 0, map[], p) == None
  {
    hide Load;
    hide Read;
    hide NfIfname;
    hide KernelName;
    assert rule[0] == rule[..5][0] && rule[1] == rule[..5][1] && rule[2] == rule[..5][2];
    assert rule[3] == rule[..5][3] && rule[4] == rule[..5][4];
    NameMatches(ifname, p.iifname);
    Compares(rule, 0, KernelName(p.iifname), NfIfname(ifname), map[], p);
    var r1 := Load(map[], 1, KernelName(p.iifname));
    Compares(rule, 2, [p.l4proto], [proto], r1, p);
    var r2 := Load(r1, 1, [p.l4proto]);
    if p.iifname == ifname && p.l4proto == proto && |p.transport| >= 4 {
      var r3 := Load(r2, 1, p.transport[2..4]);
      LoadRead(r2, 1, p.transport[2..4], 1);
      assert Exec(rule, 4, r2, p) == Exec(rule, 5, r3, p);
      assert Exec(rule, 0, map[], p) == Exec(rule, 5, r3, p) && Read(r3, 1)[..2] == p.transport[2..4];
    }
  }

  /** The last expressions translate to the target, wherever they stand. */
  lemma Translates(rule: Rule, i: nat, dest: Quad, dmin: u16, dmax: u16, regs: Regs, p: Packet)
    requires i <= |rule|
    requires rule[i..] == [Immediate(1, dest)] +
                          if dmin == dmax then [Immediate(2, PutBe16(dmin)), Dnat(1, 2, 0)]
                          else [Immediate(2, PutBe16(dmin)), Immediate(3, PutBe16(dmax)), Dnat(1, 2, 3)]
    ensures Exec(rule, i, regs, p) == Some(DnatTo(dest, dmin, dmax))
  {
    assert rule[i] == rule[i..][0] && rule[i + 1] == rule[i..][1] && rule[i + 2] == rule[i..][2];
    var r1 := Load(regs, 1, dest);
    var r2 := Load(r1, 2, PutBe16(dmin));
    LoadRead(regs, 1, dest, 1);
    LoadRead(r1, 2, PutBe16(dmin), 1);
    assert Exec(rule, i, regs, p) == Exec(rule, i + 1, r1, p) == Exec(rule, i + 2, r2, p);
    assert Read(r2, 1)[..4] == dest;
    FirstTwo(Read(r2, 2), dmin);
    if dmin != dmax {
      assert rule[i + 3] == rule[i..][3];
      var r3 := Load(r2, 3, PutBe16(dmax));
      LoadRead(r2, 3, PutBe16(dmax), 1);
      LoadRead(r2, 3, PutBe16(dmax), 2);
      assert Exec(rule, i + 2, r2, p) == Exec(rule, i + 3, r3, p);
      FirstTwo(Read(r3, 3), dmax);
    }
  }

  lemma FirstTwo(r: Register, v: u16)
    requires r[..2] == PutBe16(v)
    ensures Be16(r[0], r[1]) == v
  {
    assert r[0] == r[..2][0] && r[1] == r[..2][1];
  }

  /** The port comparisons pass exactly the ports of the range. */
  lemma ComparesPort(rule: Rule, i: nat, min: u16, max: u16, port: seq<byte>, regs: Regs, p: Packet)
    requires |port| == 2 && Read(regs, 1)[..2] == port
    requires if min == max then i < |rule| && rule[i] == Cmp(Eq, 1, PutBe16(min))
             else i + 1 < |rule| && rule[i] == Cmp(Gte, 1, PutBe16(min)) && rule[i + 1] == Cmp(Lte, 1, PutBe16(max))
    ensures Exec(rule, i, regs, p) ==
            if min <= Be16(port[0], port[1]) <= max then Exec(rule, if min == max then i + 1 else i + 2, regs, p)
            else None
  {
    hide PutBe16;
    CompareBe16(port, PutBe16(min));
    CompareBe16(port, PutBe16(max));
  }

  lemma RuleShape(e: Entry, ifname: seq<byte>)
    requires e.dest.Some?
    ensures var rule, n := RuleOf(e, ifname), if e.min == e.max then 6 else 7;
            && |rule| > n
            && rule[..5] == [MetaIifname(1), Cmp(Eq, 1, NfIfname(ifname)), MetaL4proto(1), Cmp(Eq, 1, [e.proto]),
                             Payload(1, 2, 2)]
            && (if e.min == e.max then rule[5] == Cmp(Eq, 1, PutBe16(e.min))
                else rule[5] == Cmp(Gte, 1, PutBe16(e.min)) && rule[6] == Cmp(Lte, 1, PutBe16(e.max)))
            && rule[n..] == [Immediate(1, e.dest.value)] +
                            if e.dmin == e.dmax then [Immediate(2, PutBe16(e.dmin)), Dnat(1, 2, 0)]
                            else [Immediate(2, PutBe16(e.dmin)), Immediate(3, PutBe16(e.dmax)), Dnat(1, 2, 3)]
  {
    hide PutBe16;
    hide NfIfname;
  }

  /** A rule translates exactly the packets its entry covers, to its target. */
  lemma RuleMeansEntry(e: Entry, ifname: seq<byte>, p: Packet)
    requires 0 !in ifname && e.dest.Some?
    ensures Exec(RuleOf(e, ifname), 0, map[], p) ==
            if Covers(e, ifname, p) then Some(DnatTo(e.dest.value, e.dmin, e.dmax)) else None
  {
    hide PutBe16;
    hide NfIfname;
    hide PortForwardExpr;
    hide RuleOf;
    var rule := RuleOf(e, ifname);
    RuleShape(e, ifname);
    Selects(rule, ifname, e.proto, p);
    if p.iifname == ifname && p.l4proto == e.proto && |p.transport| >= 4 {
      var regs: Regs :| Exec(rule, 0, map[], p) == Exec(rule, 5, regs, p) && Read(regs, 1)[..2] == p.transport[2..4];
      ComparesPort(rule, 5, e.min, e.max, p.transport[2..4], regs, p);
      Translates(rule, if e.min == e.max then 6 else 7, e.dest.value, e.dmin, e.dmax, regs, p);
    }
  }

  lemma {:induction false} RulesFront(es: seq<Entry>, ifname: seq<byte>)
    requires es != []
    ensures RulesOf(es, ifname) == [RuleOf(es[0], ifname)] + RulesOf(es[1..], ifname)
  {
    if |es| > 1 {
      RulesFront(es[..|es| - 1], ifname);
      assert es[1..][..|es| - 2] == es[..|es| - 1][1..];
    }
  }

  /** The generated chain translates every packet to the target of the first
      configured entry that covers it, and leaves every other packet alone. */
  lemma {:induction false} ChainMeansForwardings(es: seq<Entry>, ifname: seq<byte>, p: Packet)
    requires 0 !in ifname && forall i :: 0 <= i < |es| ==> es[i].dest.Some?
    ensures RunChain(RulesOf(es, ifname), p) == FirstCovering(es, ifname, p)
  {
    if es != [] {
      RulesFront(es, ifname);
      RuleMeansEntry(es[0], ifname, p);
      ChainMeansForwardings(es[1..], ifname, p);
      assert RulesOf(es, ifname)[1..] == RulesOf(es[1..], ifname);
    }
  }
}
