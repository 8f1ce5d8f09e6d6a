/** The compiled capture filter of cmd/captured: the classic BPF machine, the
    generated program, and a compositional meaning of the expression it was
    compiled from. */
module PacketFilter {
  import opened Bytes

  // ---------------------------------------------------------------- machine

  datatype Instr = Instr(code: nat, jt: nat, jf: nat, k: nat)

  const RET := 6        // return k
  const JEQ := 21       // jump on A == k
  const LDH_ABS := 40   // A := 16 bits at k
  const LDB_ABS := 48   // A := 8 bits at k
  const JSET := 69      // jump on A & k != 0
  const LDH_IND := 72   // A := 16 bits at X + k
  const LDXB_MSH := 177 // X := 4 * (low nibble of the byte at k)

  /** Program counter, accumulator and index register. */
  datatype Cpu = Cpu(pc: nat, a: nat, x: nat)

  function BitAnd(a: nat, b: nat): nat
    decreases a
  {
    if a == 0 || b == 0 then 0
    else 2 * BitAnd(a / 2, b / 2) + (if a % 2 == 1 && b % 2 == 1 then 1 else 0)
  }

  predicate IsJump(i: Instr) {
    i.code == JEQ || i.code == JSET
  }

  predicate Sound(prog: seq<Instr>, pc: nat)
    requires pc < |prog|
  {
    && prog[pc].code in {RET, JEQ, LDH_ABS, LDB_ABS, JSET, LDH_IND, LDXB_MSH}
    && (prog[pc].code != RET ==> pc + 1 < |prog|)
    && (IsJump(prog[pc]) ==> pc + 1 + prog[pc].jt < |prog| && pc + 1 + prog[pc].jf < |prog|)
  }

  /** What the kernel asks of a program before it attaches it: known opcodes,
      forward jumps that stay inside, and no way to run off the end. */
  predicate WellFormed(prog: seq<Instr>) {
    forall pc :: 0 <= pc < |prog| ==> Sound(prog, pc)
  }

  /** The field a load into the accumulator refers to. */
  function Field(i: Instr, x: nat, p: seq<byte>): Option<nat> {
    if i.code == LDB_ABS then (if ByteAt(p, i.k).Some? then Some(p[i.k]) else None)
    else
      var at := if i.code == LDH_IND then x + i.k else i.k;
      if HalfAt(p, at).Some? then Some(HalfAt(p, at).value) else None
  }

  /** The value the program returns when started at cpu; a load outside the
      packet ends the program with 0. */
  function Run(prog: seq<Instr>, cpu: Cpu, p: seq<byte>): nat
    requires WellFormed(prog) && cpu.pc < |prog|
    decreases |prog| - cpu.pc
  {
    assert Sound(prog, cpu.pc);
    var i := prog[cpu.pc];
    var next := cpu.pc + 1;
    if i.code == RET then i.k
    else if i.code == JEQ then Run(prog, cpu.(pc := next + if cpu.a == i.k then i.jt else i.jf), p)
    else if i.code == JSET then Run(prog, cpu.(pc := next + if BitAnd(cpu.a, i.k) != 0 then i.jt else i.jf), p)
    else if i.code == LDXB_MSH then
      match ByteAt(p, i.k)
      case None => 0
      case Some(b) => Run(prog, cpu.(pc := next, x := 4 * BitAnd(b, 15)), p)
    else
      match Field(i, cpu.x, p)
      case None => 0
      case Some(v) => Run(prog, cpu.(pc := next, a := v), p)
  }

  // ---------------------------------------------------------------- program

  const PROGRAM: seq<Instr> := [
    Instr(40, 0, 0, 12),
    Instr(21, 0, 13, 34525),
    Instr(48, 0, 0, 20),
    Instr(21, 27, 0, 58),
    Instr(21, 0, 2, 44),
    Instr(48, 0, 0, 54),
    Instr(21, 24, 25, 58),
    Instr(21, 0, 24, 17),
    Instr(40, 0, 0, 54),
    Instr(21, 21, 0, 67),
    Instr(21, 20, 0, 68),
    Instr(21, 19, 0, 546),
    Instr(21, 18, 0, 547),
    Instr(40, 0, 0, 56),
    Instr(21, 16, 13, 67),
    Instr(21, 0, 16, 2048),
    Instr(48, 0, 0, 23),
    Instr(21, 0, 14, 17),
    Instr(40, 0, 0, 20),
    Instr(69, 12, 0, 8191),
    Instr(177, 0, 0, 14),
    Instr(72, 0, 0, 14),
    Instr(21, 8, 0, 67),
    Instr(21, 7, 0, 68),
    Instr(21, 6, 0, 546),
    Instr(21, 5, 0, 547),
    Instr(72, 0, 0, 16),
    Instr(21, 3, 0, 67),
    Instr(21, 2, 0, 68),
    Instr(21, 1, 0, 546),
    Instr(21, 0, 1, 547),
    Instr(6, 0, 0, 1500),
    Instr(6, 0, 0, 0)
  ]

  lemma FirstHalfSound()
    ensures |PROGRAM| == 33 && forall pc :: 0 <= pc < 16 ==> Sound(PROGRAM, pc)
  {
  }

  lemma SecondHalfSound()
    ensures |PROGRAM| == 33 && forall pc :: 16 <= pc < 33 ==> Sound(PROGRAM, pc)
  {
  }

  lemma ProgramWellFormed()
    ensures WellFormed(PROGRAM)
  {
    hide Sound;
    FirstHalfSound();
    SecondHalfSound();
  }

  // ---------------------------------------------------------------- meaning

  /** The part of the filter language the expression uses. */
  datatype Filter =
    | Icmp6
    | Udp
    | Port(port: u16)
    | And(left: Filter, right: Filter)
    | Or(left: Filter, right: Filter)

  /** icmp6 or (udp and (port 67 or port 68 or port 546 or port 547)) */
  const EXPRESSION :=
    Or(Icmp6, And(Udp, Or(Or(Or(Port(67), Port(68)), Port(546)), Port(547))))

  predicate IsIPv6(p: seq<byte>) {
    HalfAt(p, 12) == Some(0x86dd)
  }

  predicate IsIPv4(p: seq<byte>) {
    HalfAt(p, 12) == Some(0x0800)
  }

  /** The next header is proto, directly or behind one IPv6 fragment header. */
  predicate NextHeader6(p: seq<byte>, proto: byte) {
    ByteAt(p, 20) == Some(proto) || (ByteAt(p, 20) == Some(44) && ByteAt(p, 54) == Some(proto))
  }

  predicate HasPorts(proto: Option<byte>) {
    proto == Some(6) || proto == Some(17) || proto == Some(132)
  }

  predicate EitherPort(p: seq<byte>, transport: nat, port: u16) {
    HalfAt(p, transport) == Some(port) || HalfAt(p, transport + 2) == Some(port)
  }

  /** The fragment offset is the low 13 bits of the field at 20. */
  predicate FirstFragment4(p: seq<byte>) {
    HalfAt(p, 20).Some? && HalfAt(p, 20).value % 8192 == 0
  }

  /** Offset of the transport header: 14 bytes of Ethernet, then IHL words. */
  function Transport4(p: seq<byte>): nat
    requires ByteAt(p, 14).Some?
  {
    14 + 4 * (p[14] % 16)
  }

  predicate Meaning(f: Filter, p: seq<byte>) {
    match f
    case Icmp6 => IsIPv6(p) && NextHeader6(p, 58)
    case Udp => (IsIPv6(p) && NextHeader6(p, 17)) || (IsIPv4(p) && ByteAt(p, 23) == Some(17))
    case Port(port) =>
      || (IsIPv6(p) && HasPorts(ByteAt(p, 20)) && EitherPort(p, 54, port))
      || (IsIPv4(p) && HasPorts(ByteAt(p, 23)) && FirstFragment4(p) && EitherPort(p, Transport4(p), port))
    case And(l, r) => Meaning(l, p) && Meaning(r, p)
    case Or(l, r) => Meaning(l, p) || Meaning(r, p)
  }

  // ------------------------------------------------------------------ proof

  function Pow2(n: nat): nat {
    if n == 0 then 1 else 2 * Pow2(n - 1)
  }

  /** Masking with n one-bits keeps the remainder modulo 2^n. */
  lemma {:induction false} MaskIsRemainder(a: nat, n: nat)
    ensures Pow2(n) > 0 && BitAnd(a, Pow2(n) - 1) == a % Pow2(n)
  {
    if n == 0 {
    } else {
      var h := Pow2(n - 1);
      MaskIsRemainder(a / 2, n - 1);
      assert (2 * h - 1) / 2 == h - 1 && (2 * h - 1) % 2 == 1;
      RemainderOfDouble(a, h);
    }
  }

  lemma RemainderOfDouble(a: nat, h: nat)
    requires h > 0
    ensures a % (2 * h) == 2 * (a / 2 % h) + a % 2
  {
    var q, r := a / 2 / h, a / 2 % h;
    assert a / 2 == h * q + r;
    assert 2 * h * q == 2 * (h * q);
    RemainderUnique(a, 2 * h, q, 2 * r + a % 2);
  }

  lemma RemainderUnique(a: nat, d: nat, q: nat, r: nat)
    requires 0 <= r < d && a == d * q + r
    ensures a % d == r
  {
    var q' := a / d;
    assert a == d * q' + a % d;
    Multiples(d, q, q');
    Multiples(d, q', q);
  }

  lemma {:induction false} Multiples(d: nat, m: nat, n: nat)
    ensures m < n ==> d * m + d <= d * n
    decreases n
  {
    if m < n {
      assert d * n == d * (n - 1) + d;
      Multiples(d, m, n - 1);
    }
  }

  function Out(pc: nat, a: nat, x: nat, p: seq<byte>): nat
    requires pc < |PROGRAM|
  {
    ProgramWellFormed();
    Run(PROGRAM, Cpu(pc, a, x), p)
  }

  predicate Listed(v: Option<u16>) {
    v == Some(67) || v == Some(68) || v == Some(546) || v == Some(547)
  }

  function Verdict(b: bool): nat {
    if b then 1500 else 0
  }

  lemma Returns(a: nat, x: nat, p: seq<byte>)
    ensures Out(31, a, x, p) == 1500 && Out(32, a, x, p) == 0
  {
  }

  lemma RunJumps(prog: seq<Instr>, cpu: Cpu, p: seq<byte>)
    requires WellFormed(prog) && cpu.pc < |prog| && prog[cpu.pc].code == JEQ
    ensures var i := prog[cpu.pc];
            var to := cpu.pc + 1 + if cpu.a == i.k then i.jt else i.jf;
            to < |prog| && Run(prog, cpu, p) == Run(prog, cpu.(pc := to), p)
  {
    assert Sound(prog, cpu.pc);
  }

  /** One conditional jump on equality. */
  lemma Jumps(pc: nat, a: nat, x: nat, p: seq<byte>)
    requires pc < |PROGRAM| && PROGRAM[pc].code == JEQ
    requires pc + 1 + PROGRAM[pc].jt < |PROGRAM| && pc + 1 + PROGRAM[pc].jf < |PROGRAM|
    ensures Out(pc, a, x, p) == Out(pc + 1 + if a == PROGRAM[pc].k then PROGRAM[pc].jt else PROGRAM[pc].jf, a, x, p)
  {
    ProgramWellFormed();
    hide WellFormed;
    hide Run;
    RunJumps(PROGRAM, Cpu(pc, a, x), p);
  }

  /** One load into the accumulator. */
  lemma Loads(pc: nat, a: nat, x: nat, p: seq<byte>)
    requires pc + 1 < |PROGRAM| && PROGRAM[pc].code in {LDH_ABS, LDB_ABS, LDH_IND}
    ensures Out(pc, a, x, p) == match Field(PROGRAM[pc], x, p) case None => 0 case Some(v) => Out(pc + 1, v, x, p)
  {
  }

  /** Instructions 27..30: accept exactly the listed ports. */
  lemma LastPortTest(a: nat, x: nat, p: seq<byte>)
    ensures Out(27, a, x, p) == Verdict(a in {67, 68, 546, 547})
    ensures Out(28, a, x, p) == Verdict(a in {68, 546, 547})
  {
    hide Out;
    Returns(a, x, p);
    Jumps(27, a, x, p);
    Jumps(28, a, x, p);
    Jumps(29, a, x, p);
    Jumps(30, a, x, p);
  }

  /** Instructions 22..25: accept on the source port or go on. */
  lemma SourcePort4(a: nat, x: nat, p: seq<byte>)
    ensures Out(22, a, x, p) == if a in {67, 68, 546, 547} then 1500 else Out(26, a, x, p)
  {
    hide Out;
    Returns(a, x, p);
    Jumps(22, a, x, p);
    Jumps(23, a, x, p);
    Jumps(24, a, x, p);
    Jumps(25, a, x, p);
  }

  /** Instructions 9..12: the same for IPv6. */
  lemma SourcePort6(a: nat, x: nat, p: seq<byte>)
    ensures Out(9, a, x, p) == if a in {67, 68, 546, 547} then 1500 else Out(13, a, x, p)
  {
    hide Out;
    Returns(a, x, p);
    Jumps(9, a, x, p);
    Jumps(10, a, x, p);
    Jumps(11, a, x, p);
    Jumps(12, a, x, p);
  }

  /** Instruction 20 multiplies the header length out. */
  lemma HeaderLength(a: nat, x: nat, p: seq<byte>)
    requires |p| > 14
    ensures Out(20, a, x, p) == Out(21, a, 4 * (p[14] % 16), p)
  {
    MaskIsRemainder(p[14], 4);
    assert Pow2(4) == 16;
  }

  /** Instructions 20..30: an unfragmented IPv4 packet is accepted on its ports. */
  lemma Ports4(a: nat, x: nat, p: seq<byte>)
    requires |p| > 14
    ensures Out(20, a, x, p) == Verdict(Listed(HalfAt(p, Transport4(p))) || Listed(HalfAt(p, Transport4(p) + 2)))
  {
    hide Out;
    HeaderLength(a, x, p);
    var y := 4 * (p[14] % 16);
    Loads(21, a, y, p);
    if HalfAt(p, y + 14).Some? {
      var src := HalfAt(p, y + 14).value;
      SourcePort4(src, y, p);
      Loads(26, src, y, p);
      if HalfAt(p, y + 16).Some? { LastPortTest(HalfAt(p, y + 16).value, y, p); }
    }
  }

  lemma FragmentBits(frag: nat)
    ensures BitAnd(frag, 8191) == frag % 8192
  {
    MaskIsRemainder(frag, 13);
    assert Pow2(13) == 8192;
  }

  /** Instruction 19 looks at the 13 bits of the fragment offset. */
  lemma FragmentTest(frag: nat, x: nat, p: seq<byte>)
    ensures Out(19, frag, x, p) == Out(if frag % 8192 != 0 then 32 else 20, frag, x, p)
  {
    FragmentBits(frag);
  }

  predicate Accepts4(p: seq<byte>) {
    && |p| > 14
    && FirstFragment4(p)
    && (Listed(HalfAt(p, Transport4(p))) || Listed(HalfAt(p, Transport4(p) + 2)))
  }

  /** Instructions 18..30: an IPv4 packet carrying UDP is accepted on its ports
      unless it is a later fragment. */
  lemma Udp4(a: nat, x: nat, p: seq<byte>)
    ensures Out(18, a, x, p) == Verdict(Accepts4(p))
  {
    hide Out;
    Loads(18, a, x, p);
    if HalfAt(p, 20).Some? {
      var frag := HalfAt(p, 20).value;
      FragmentTest(frag, x, p);
      Returns(frag, x, p);
      Ports4(frag, x, p);
    }
  }

  /** Instructions 15..30: the IPv4 half of the program. */
  lemma Half4(x: nat, p: seq<byte>)
    requires HalfAt(p, 12).Some?
    ensures Out(15, HalfAt(p, 12).value, x, p) == Verdict(IsIPv4(p) && ByteAt(p, 23) == Some(17) && Accepts4(p))
  {
    hide Out;
    var e := HalfAt(p, 12).value;
    Jumps(15, e, x, p);
    Returns(e, x, p);
    Loads(16, e, x, p);
    if IsIPv4(p) && ByteAt(p, 23).Some? {
      var proto := p[23];
      Jumps(17, proto, x, p);
      Returns(proto, x, p);
      Udp4(proto, x, p);
    }
  }

  /** Instructions 8..14: an IPv6 packet carrying UDP directly is accepted on its ports. */
  lemma Ports6(a: nat, x: nat, p: seq<byte>)
    ensures Out(8, a, x, p) == Verdict(Listed(HalfAt(p, 54)) || Listed(HalfAt(p, 56)))
  {
    hide Out;
    Loads(8, a, x, p);
    if HalfAt(p, 54).Some? {
      var src := HalfAt(p, 54).value;
      SourcePort6(src, x, p);
      Loads(13, src, x, p);
      if HalfAt(p, 56).Some? {
        var dst := HalfAt(p, 56).value;
        Jumps(14, dst, x, p);
        Returns(dst, x, p);
        LastPortTest(dst, x, p);
      }
    }
  }

  /** Instructions 5..6: ICMPv6 behind a fragment header. */
  lemma Fragment6(a: nat, x: nat, p: seq<byte>)
    ensures Out(5, a, x, p) == Verdict(ByteAt(p, 54) == Some(58))
  {
    hide Out;
    Loads(5, a, x, p);
    if ByteAt(p, 54).Some? {
      Jumps(6, p[54], x, p);
      Returns(p[54], x, p);
    }
  }

  /** Instructions 3..14: what follows the IPv6 header decides. */
  lemma Next6(next: nat, x: nat, p: seq<byte>)
    ensures Out(3, next, x, p) == Verdict(
              || next == 58
              || (next == 44 && ByteAt(p, 54) == Some(58))
              || (next == 17 && (Listed(HalfAt(p, 54)) || Listed(HalfAt(p, 56)))))
  {
    hide Out;
    hide Listed;
    Returns(next, x, p);
    Jumps(3, next, x, p);
    Jumps(4, next, x, p);
    Jumps(7, next, x, p);
    Fragment6(next, x, p);
    Ports6(next, x, p);
  }

  /** Instructions 2..14: the IPv6 half of the program. */
  lemma Half6(a: nat, x: nat, p: seq<byte>)
    ensures Out(2, a, x, p) == Verdict(NextHeader6(p, 58) ||
      (ByteAt(p, 20) == Some(17) && (Listed(HalfAt(p, 54)) || Listed(HalfAt(p, 56)))))
  {
    hide Out;
    Loads(2, a, x, p);
    if ByteAt(p, 20).Some? {
      Next6(p[20], x, p);
    }
  }

  /** The listed ports, written out: what the four port atoms say together. */
  lemma PortAtoms(p: seq<byte>)
    ensures Meaning(EXPRESSION, p) <==>
            || Meaning(Icmp6, p)
            || (IsIPv6(p) && ByteAt(p, 20) == Some(17) && (Listed(HalfAt(p, 54)) || Listed(HalfAt(p, 56))))
            || (IsIPv4(p) && ByteAt(p, 23) == Some(17) && Accepts4(p))
  {
    var ports := Or(Or(Or(Port(67), Port(68)), Port(546)), Port(547));
    assert Meaning(EXPRESSION, p) <==> Meaning(Icmp6, p) || (Meaning(Udp, p) && Meaning(ports, p));
    assert Meaning(ports, p) <==> Meaning(ports.left, p) || Meaning(Port(547), p);
    assert Meaning(ports.left, p) <==> Meaning(ports.left.left, p) || Meaning(Port(546), p);
    assert Meaning(ports.left.left, p) <==> Meaning(Port(67), p) || Meaning(Port(68), p);
  }

  /** On every packet of every length the program returns 1500 when the
      expression holds and 0 when it does not. */
  lemma ProgramMeansExpression(p: seq<byte>)
    ensures Out(0, 0, 0, p) == if Meaning(EXPRESSION, p) then 1500 else 0
  {
    PortAtoms(p);
    IcmpAtom(p);
    hide Out;
    hide Meaning;
    hide Accepts4;
    Loads(0, 0, 0, p);
    if HalfAt(p, 12).Some? {
      var e := HalfAt(p, 12).value;
      Jumps(1, e, 0, p);
      Half6(e, 0, p);
      Half4(0, p);
    }
  }

  lemma IcmpAtom(p: seq<byte>)
    ensures Meaning(Icmp6, p) <==> IsIPv6(p) && NextHeader6(p, 58)
  {
  }

  // ---------------------------------------------------------------- frames

  /** An Ethernet frame carrying UDP over IPv4: 12 bytes of MAC addresses, then
      an IPv4 header of ihl words whose variable fields are given, then UDP. */
  function UdpFrame4(macs: seq<byte>, ihl: nat, head: seq<byte>, frag: u16, ttl: byte, tail: seq<byte>,
                     sport: u16, dport: u16, rest: seq<byte>): seq<byte>
    requires |macs| == 12 && 5 <= ihl < 16 && |head| == 5 && |tail| == 4 * ihl - 10
  {
    macs + [8, 0] + [64 + ihl] + head + PutBe16(frag) + [ttl, 17] + tail + PutBe16(sport) + PutBe16(dport) + rest
  }

  /** Such a frame is captured exactly when it is a first fragment and one of
      its ports is a DHCP port, whatever its options, addresses and payload. */
  lemma CapturesUdpFrame4(macs: seq<byte>, ihl: nat, head: seq<byte>, frag: u16, ttl: byte, tail: seq<byte>,
                          sport: u16, dport: u16, rest: seq<byte>)
    requires |macs| == 12 && 5 <= ihl < 16 && |head| == 5 && |tail| == 4 * ihl - 10
    ensures Out(0, 0, 0, UdpFrame4(macs, ihl, head, frag, ttl, tail, sport, dport, rest)) ==
            if frag % 8192 == 0 && (Listed(Some(sport)) || Listed(Some(dport))) then 1500 else 0
  {
    FrameFields(macs, ihl, head, frag, ttl, tail, sport, dport, rest);
    hide UdpFrame4;
    FieldsDecide(UdpFrame4(macs, ihl, head, frag, ttl, tail, sport, dport, rest), ihl, frag, sport, dport);
  }

  lemma FieldsDecide(p: seq<byte>, ihl: nat, frag: u16, sport: u16, dport: u16)
    requires 5 <= ihl < 16
    requires HalfAt(p, 12) == Some(0x0800) && ByteAt(p, 14) == Some(64 + ihl) && ByteAt(p, 23) == Some(17)
    requires HalfAt(p, 20) == Some(frag)
    requires HalfAt(p, 14 + 4 * ihl) == Some(sport) && HalfAt(p, 14 + 4 * ihl + 2) == Some(dport)
    ensures Out(0, 0, 0, p) == if frag % 8192 == 0 && (Listed(Some(sport)) || Listed(Some(dport))) then 1500 else 0
  {
    hide Out;
    hide HalfAt;
    ProgramMeansExpression(p);
    PortAtoms(p);
    IcmpAtom(p);
    hide Meaning;
    assert Transport4(p) == 14 + 4 * ihl;
  }

  lemma FrameFields(macs: seq<byte>, ihl: nat, head: seq<byte>, frag: u16, ttl: byte, tail: seq<byte>,
                    sport: u16, dport: u16, rest: seq<byte>)
    requires |macs| == 12 && 5 <= ihl < 16 && |head| == 5 && |tail| == 4 * ihl - 10
    ensures var p := UdpFrame4(macs, ihl, head, frag, ttl, tail, sport, dport, rest);
            && HalfAt(p, 12) == Some(0x0800) && ByteAt(p, 14) == Some(64 + ihl) && ByteAt(p, 23) == Some(17)
            && HalfAt(p, 20) == Some(frag)
            && HalfAt(p, 14 + 4 * ihl) == Some(sport) && HalfAt(p, 14 + 4 * ihl + 2) == Some(dport)
  {
    var p := UdpFrame4(macs, ihl, head, frag, ttl, tail, sport, dport, rest);
    var f, s, d := PutBe16(frag), PutBe16(sport), PutBe16(dport);
    hide PutBe16;
    var front := macs + [8, 0] + [64 + ihl] + head + f + [ttl, 17] + tail;
    assert p == front + s + d + rest && |front| == 14 + 4 * ihl;
    assert p[|front|] == s[0] && p[|front| + 1] == s[1] && p[|front| + 2] == d[0] && p[|front| + 3] == d[1];
    assert front[20] == f[0] && front[21] == f[1] && front[23] == 17;
  }

  /** An Ethernet frame carrying IPv6: MAC addresses, the first six bytes of the
      header, next header and hop limit, two addresses, and what follows. */
  function Frame6(macs: seq<byte>, head: seq<byte>, next: byte, hops: byte, addrs: seq<byte>, body: seq<byte>)
    : seq<byte>
    requires |macs| == 12 && |head| == 6 && |addrs| == 32
  {
    macs + [0x86, 0xdd] + head + [next, hops] + addrs + body
  }

  predicate DhcpPort(v: int) {
    v == 67 || v == 68 || v == 546 || v == 547
  }

  lemma FrameFields6(macs: seq<byte>, head: seq<byte>, next: byte, hops: byte, addrs: seq<byte>, body: seq<byte>)
    requires |macs| == 12 && |head| == 6 && |addrs| == 32
    ensures var p := Frame6(macs, head, next, hops, addrs, body);
            && HalfAt(p, 12) == Some(0x86dd) && ByteAt(p, 20) == Some(next)
            && ByteAt(p, 54) == (if |body| >= 1 then Some(body[0]) else None)
            && HalfAt(p, 54) == (if |body| >= 2 then Some(Be16(body[0], body[1])) else None)
            && HalfAt(p, 56) == (if |body| >= 4 then Some(Be16(body[2], body[3])) else None)
  {
    var front := macs + [0x86, 0xdd] + head + [next, hops] + addrs;
    assert Frame6(macs, head, next, hops, addrs, body) == front + body && |front| == 54;
    assert front[12] == 0x86 && front[13] == 0xdd && front[20] == next;
  }

  /** Such a frame is captured exactly when ICMPv6 follows, directly or behind a
      fragment header, or UDP from or to a DHCP port follows directly. */
  lemma CapturesFrame6(macs: seq<byte>, head: seq<byte>, next: byte, hops: byte, addrs: seq<byte>, body: seq<byte>)
    requires |macs| == 12 && |head| == 6 && |addrs| == 32
    ensures Out(0, 0, 0, Frame6(macs, head, next, hops, addrs, body)) ==
            if || next == 58
               || (next == 44 && |body| >= 1 && body[0] == 58)
               || (next == 17 && |body| >= 2 && DhcpPort(256 * body[0] as int + body[1] as int))
               || (next == 17 && |body| >= 4 && DhcpPort(256 * body[2] as int + body[3] as int))
            then 1500 else 0
  {
    FrameFields6(macs, head, next, hops, addrs, body);
    hide Frame6;
    hide Out;
    hide HalfAt;
    hide ByteAt;
    FieldsDecide6(Frame6(macs, head, next, hops, addrs, body));
  }

  lemma FieldsDecide6(p: seq<byte>)
    requires HalfAt(p, 12) == Some(0x86dd)
    ensures Out(0, 0, 0, p) ==
            Verdict(|| ByteAt(p, 20) == Some(58)
                    || (ByteAt(p, 20) == Some(44) && ByteAt(p, 54) == Some(58))
                    || (ByteAt(p, 20) == Some(17) && (Listed(HalfAt(p, 54)) || Listed(HalfAt(p, 56)))))
  {
    hide Out;
    hide HalfAt;
    hide ByteAt;
    ProgramMeansExpression(p);
    PortAtoms(p);
    IcmpAtom(p);
    hide Meaning;
    hide Accepts4;
    hide Listed;
  }
}
