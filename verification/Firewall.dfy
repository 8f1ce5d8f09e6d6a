/** Applying the firewall: commands are queued on a connection and take effect
    together when it is flushed, or not at all (netconfig). */
module Firewall {
  import opened Bytes
  import opened Numerals
  import opened NetText
  import opened PortForward

  datatype Chain = Prerouting | Postrouting

  datatype Command = FlushRuleset | AddChain(chain: Chain) | AddRule(chain: Chain, rule: Rule)

  type Ruleset = map<Chain, seq<Rule>>

  function Effect(rules: Ruleset, c: Command): Ruleset {
    match c
    case FlushRuleset => map[]
    case AddChain(chain) => if chain in rules then rules else rules[chain := []]
    case AddRule(chain, rule) => if chain in rules then rules[chain := rules[chain] + [rule]] else rules
  }

  function Commit(rules: Ruleset, batch: seq<Command>): Ruleset {
    if batch == [] then rules else Effect(Commit(rules, batch[..|batch| - 1]), batch[|batch| - 1])
  }

  /** The kernel refuses an immediate without data: what a destination that is no IPv4 address becomes. */
  predicate Acceptable(batch: seq<Command>) {
    forall i :: 0 <= i < |batch| && batch[i].AddRule? ==> WellTyped(batch[i].rule)
  }

  predicate WellTyped(rule: Rule) {
    forall k :: 0 <= k < |rule| && rule[k].Immediate? ==> rule[k].data != []
  }

  class Kernel {
    var rules: Ruleset
  }

  class Conn {
    const kernel: Kernel
    var queue: seq<Command>

    constructor (kernel: Kernel)
      ensures this.kernel == kernel && queue == []
    {
      this.kernel, queue := kernel, [];
    }

    method Add(c: Command)
      modifies this`queue
      ensures queue == old(queue) + [c]
    {
      queue := queue + [c];
    }

    method Flush() returns (ok: bool)
      modifies this`queue, kernel
      ensures queue == [] && ok == Acceptable(old(queue))
      ensures kernel.rules == if ok then Commit(old(kernel.rules), old(queue)) else old(kernel.rules)
    {
      ok := Acceptable(queue);
      if ok {
        var i, rules := 0, kernel.rules;
        while i < |queue|
          invariant 0 <= i <= |queue| && queue == old(queue)
          invariant rules == Commit(kernel.rules, queue[..i])
          invariant kernel.rules == old(kernel.rules)
        {
          assert queue[..i + 1][..i] == queue[..i];
          rules := Effect(rules, queue[i]);
          i := i + 1;
        }
        assert queue[..i] == queue;
        kernel.rules := rules;
      }
      queue := [];
    }
  }

  /** The rules of the entries, as queued commands. */
  function Queued(es: seq<Entry>, ifname: seq<byte>): seq<Command> {
    if es == [] then [] else Queued(es[..|es| - 1], ifname) + [AddRule(Prerouting, RuleOf(es[|es| - 1], ifname))]
  }

  lemma QueuedNext(es: seq<Entry>, e: Entry, ifname: seq<byte>)
    ensures Queued(es + [e], ifname) == Queued(es, ifname) + [AddRule(Prerouting, RuleOf(e, ifname))]
  {
    assert (es + [e])[..|es|] == es;
  }

  lemma {:induction false} BadProto(protos: seq<string>, fw: Forwarding, n: nat)
    requires n <= |protos| && ParseProtos(protos[..n], fw) == None
    ensures ParseProtos(protos, fw) == None
    decreases |protos| - n
  {
    if n < |protos| {
      assert protos[..n + 1][..n] == protos[..n];
      BadProto(protos, fw, n + 1);
    } else {
      assert protos[..n] == protos;
    }
  }

  lemma {:induction false} BadForwarding(cfg: seq<Forwarding>, n: nat)
    requires n <= |cfg| && Entries(cfg[..n]) == None
    ensures Entries(cfg) == None
    decreases |cfg| - n
  {
    if n < |cfg| {
      assert cfg[..n + 1][..n] == cfg[..n];
      BadForwarding(cfg, n + 1);
    } else {
      assert cfg[..n] == cfg;
    }
  }

  lemma NoProtos(protos: seq<string>, fw: Forwarding)
    ensures ParseProtos(protos[..0], fw) == Some([])
  {
  }

  lemma ProtosNext(protos: seq<string>, fw: Forwarding, j: nat)
    requires j < |protos|
    ensures ParseProtos(protos[..j + 1], fw) ==
            match (ParseProtos(protos[..j], fw), ParseEntry(protos[j], fw))
            case (Some(init), Some(last)) => Some(init + [last])
            case _ => None
  {
    hide ParseEntry;
    assert protos[..j + 1][..j] == protos[..j];
  }

  /** Queues the rules of one forwarding, protocol by protocol, up to the first that does not parse. */
  method QueueForwarding(fw: Forwarding, ifname: seq<byte>, c: Conn, ghost before: seq<Command>, ghost es: seq<Entry>)
    returns (ok: bool)
    requires c.queue == before + Queued(es, ifname)
    modifies c`queue
    ensures ok <==> ParseProtos(Split(fw.proto, ','), fw).Some?
    ensures ok ==> c.queue == before + Queued(es + ParseProtos(Split(fw.proto, ','), fw).value, ifname)
  {
    hide RuleOf;
    hide ParseEntry;
    hide ParseProtos;
    hide Queued;
    hide Split;
    var protos := Split(fw.proto, ',');
    NoProtos(protos, fw);
    ghost var done: seq<Entry> := [];
    assert es + done == es;
    for j := 0 to |protos|
      invariant ParseProtos(protos[..j], fw) == Some(done)
      invariant c.queue == before + Queued(es + done, ifname)
    {
      ProtosNext(protos, fw, j);
      var entry := ParseEntry(protos[j], fw);
      if entry.None? {
        BadProto(protos, fw, j + 1);
        return false;
      }
      var e := entry.value;
      QueuedNext(es + done, e, ifname);
      assert es + done + [e] == es + (done + [e]);
      c.Add(AddRule(Prerouting, RuleOf(e, ifname)));
      done := done + [e];
    }
    assert protos[..|protos|] == protos;
    return true;
  }

  method ApplyPortForwardings(cfg: seq<Forwarding>, ifname: seq<byte>, c: Conn) returns (ok: bool)
    modifies c`queue
    ensures ok <==> Entries(cfg).Some?
    ensures ok ==> c.queue == old(c.queue) + Queued(Entries(cfg).value, ifname)
  {
    ghost var es: seq<Entry> := [];
    for i := 0 to |cfg|
      invariant Entries(cfg[..i]) == Some(es)
      invariant c.queue == old(c.queue) + Queued(es, ifname)
    {
      assert cfg[..i + 1][..i] == cfg[..i];
      ok := QueueForwarding(cfg[i], ifname, c, old(c.queue), es);
      if !ok {
        BadForwarding(cfg, i + 1);
        return false;
      }
      es := es + ParseProtos(Split(cfg[i].proto, ','), cfg[i]).value;
    }
    assert cfg[..|cfg|] == cfg;
    return true;
  }

  function MasqueradeRule(ifname: seq<byte>): Rule {
    [MetaOifname(1), Cmp(Eq, 1, NfIfname(ifname)), Masq]
  }

  predicate AllTargetsValid(es: seq<Entry>) {
    forall i :: 0 <= i < |es| ==> es[i].dest.Some?
  }

  /** The ruleset a configuration stands for, whatever was there before. */
  function Wanted(es: seq<Entry>, ifname: seq<byte>): Ruleset {
    map[Prerouting := RulesOf(es, ifname), Postrouting := [MasqueradeRule(ifname)]]
  }

  /** All or nothing: the new ruleset is in force exactly when every forwarding
      parses and has an IPv4 destination; otherwise the old one stays as it was. */
  method ApplyFirewall(cfg: seq<Forwarding>, ifname: seq<byte>, kernel: Kernel) returns (ok: bool)
    modifies kernel
    ensures ok <==> Entries(cfg).Some? && AllTargetsValid(Entries(cfg).value)
    ensures kernel.rules == if ok then Wanted(Entries(cfg).value, ifname) else old(kernel.rules)
  {
    var c := new Conn(kernel);
    c.Add(FlushRuleset);
    c.Add(AddChain(Prerouting));
    c.Add(AddChain(Postrouting));
    c.Add(AddRule(Postrouting, MasqueradeRule(ifname)));
    assert c.queue == Preamble(ifname);
    ok := ApplyPortForwardings(cfg, ifname, c);
    if !ok {
      return false;
    }
    ghost var es := Entries(cfg).value;
    BatchAcceptable(es, ifname);
    BatchEffect(kernel.rules, es, ifname);
    ok := c.Flush();
  }

  function Preamble(ifname: seq<byte>): seq<Command> {
    [FlushRuleset, AddChain(Prerouting), AddChain(Postrouting), AddRule(Postrouting, MasqueradeRule(ifname))]
  }

  lemma RuleAcceptable(e: Entry, ifname: seq<byte>)
    ensures WellTyped(RuleOf(e, ifname)) <==> e.dest.Some?
  {
    hide NfIfname;
    var rule := RuleOf(e, ifname);
    var n := if e.min == e.max then 6 else 7;
    assert rule[n] == Immediate(1, if e.dest.Some? then e.dest.value else []);
  }

  lemma {:induction false} QueuedAcceptable(es: seq<Entry>, ifname: seq<byte>)
    ensures Acceptable(Queued(es, ifname)) <==> AllTargetsValid(es)
  {
    if es != [] {
      hide WellTyped;
      hide RuleOf;
      hide Acceptable;
      var init, last := es[..|es| - 1], es[|es| - 1];
      QueuedAcceptable(init, ifname);
      RuleAcceptable(last, ifname);
      var q := Queued(es, ifname);
      assert es == init + [last] && q == Queued(init, ifname) + [AddRule(Prerouting, RuleOf(last, ifname))];
      assert Acceptable(q) <==> Acceptable(Queued(init, ifname)) && WellTyped(RuleOf(last, ifname)) by {
        AcceptableSplit(Queued(init, ifname), AddRule(Prerouting, RuleOf(last, ifname)));
      }
      assert AllTargetsValid(es) <==> AllTargetsValid(init) && last.dest.Some? by {
        assert forall i :: 0 <= i < |init| ==> es[i] == init[i];
      }
    }
  }

  lemma AcceptableSplit(q: seq<Command>, c: Command)
    requires c.AddRule?
    ensures Acceptable(q + [c]) <==> Acceptable(q) && WellTyped(c.rule)
  {
    hide WellTyped;
    var r := q + [c];
    assert r[|q|] == c;
    assert forall i :: 0 <= i < |q| ==> r[i] == q[i];
    if Acceptable(r) {
      assert WellTyped(r[|q|].rule);
      forall i | 0 <= i < |q| && q[i].AddRule?
        ensures WellTyped(q[i].rule)
      {
        assert WellTyped(r[i].rule);
      }
    }
  }

  lemma BatchAcceptable(es: seq<Entry>, ifname: seq<byte>)
    ensures Acceptable(Preamble(ifname) + Queued(es, ifname)) <==> AllTargetsValid(es)
  {
    hide WellTyped;
    QueuedAcceptable(es, ifname);
    var pre, q := Preamble(ifname), Queued(es, ifname);
    var r := pre + q;
    assert forall i :: 0 <= i < |q| ==> r[|pre| + i] == q[i];
    assert WellTyped(MasqueradeRule(ifname)) by { MasqueradeAcceptable(ifname); }
    if Acceptable(r) {
      forall i | 0 <= i < |q| && q[i].AddRule?
        ensures WellTyped(q[i].rule)
      {
        assert WellTyped(r[|pre| + i].rule);
      }
    }
  }

  lemma MasqueradeAcceptable(ifname: seq<byte>)
    ensures WellTyped(MasqueradeRule(ifname))
  {
  }

  /** Whatever the ruleset was, the batch leaves the wanted one. */
  lemma {:induction false} BatchEffect(rules: Ruleset, es: seq<Entry>, ifname: seq<byte>)
    ensures Commit(rules, Preamble(ifname) + Queued(es, ifname)) == Wanted(es, ifname)
  {
    hide RuleOf;
    hide MasqueradeRule;
    var pre := Preamble(ifname);
    if es == [] {
      assert pre + [] == pre;
      PreambleEffect(rules, ifname);
    } else {
      var init, last := es[..|es| - 1], es[|es| - 1];
      BatchEffect(rules, init, ifname);
      var batch := pre + Queued(es, ifname);
      assert batch[..|batch| - 1] == pre + Queued(init, ifname);
    }
  }

  lemma PreambleEffect(rules: Ruleset, ifname: seq<byte>)
    ensures Commit(rules, Preamble(ifname)) == Wanted([], ifname)
  {
    var pre := Preamble(ifname);
    assert pre[..1] == [FlushRuleset] && pre[..1][..0] == [];
    assert pre[..2][..1] == pre[..1] && pre[..3][..2] == pre[..2] && pre[..3] == pre[..|pre| - 1];
    assert Commit(rules, pre[..1]) == map[];
    assert Commit(rules, pre[..2]) == map[Prerouting := []];
    assert Commit(rules, pre[..3]) == map[Prerouting := [], Postrouting := []];
    assert Commit(rules, pre) == Effect(Commit(rules, pre[..3]), pre[3]);
    assert [] + [MasqueradeRule(ifname)] == [MasqueradeRule(ifname)];
  }

  /** The masquerading rule matches exactly what leaves through the interface. */
  lemma Masquerades(ifname: seq<byte>, p: Packet)
    requires 0 !in ifname
    ensures Exec(MasqueradeRule(ifname), 0, map[], p) == if p.oifname == ifname then Some(Masquerade) else None
  {
    hide Load;
    hide Read;
    hide NfIfname;
    hide KernelName;
    var rule: Rule := MasqueradeRule(ifname);
    assert rule[0] == MetaOifname(1) && rule[1] == Cmp(Eq, 1, NfIfname(ifname)) && rule[2] == Masq;
    NameMatches(ifname, p.oifname);
    Compares(rule, 0, KernelName(p.oifname), NfIfname(ifname), map[], p);
    assert Exec(rule, 2, Load(map[], 1, KernelName(p.oifname)), p) == Some(Verdict.Masquerade);
  }

  /** What an applied configuration does to packets: translation to the first
      covering entry's target on the way in, and on the way out masquerading of
      exactly what leaves through the interface. */
  lemma FirewallMeans(es: seq<Entry>, ifname: seq<byte>, p: Packet)
    requires 0 !in ifname && AllTargetsValid(es)
    ensures RunChain(Wanted(es, ifname)[Prerouting], p) == FirstCovering(es, ifname, p)
    ensures RunChain(Wanted(es, ifname)[Postrouting], p) == if p.oifname == ifname then Some(Masquerade) else None
  {
    ChainMeansForwardings(es, ifname, p);
    Masquerades(ifname, p);
    var rule := MasqueradeRule(ifname);
    assert [rule][1..] == [];
    assert RunChain([rule][1..], p) == None;
  }
}
