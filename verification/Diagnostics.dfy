/** The diagnostics tree: probes that depend on each other (diag), and the
    first error of a result (diagd). */
module Diagnostics {
  import opened Bytes

  /** What a probe would report; its text may be empty either way. */
  datatype Probe = Good(status: string) | Bad(message: string)

  datatype Node = Node(name: string, probe: Probe, children: seq<Node>)

  datatype EvalResult = EvalResult(name: string, error: bool, status: string, children: seq<EvalResult>)

  /** A place in a tree: the child to take at each level. */
  type Path = seq<nat>

  // -------------------------------------------------------------- evaluation

  function Own(n: Node, err: string): (bool, string) {
    if err != "" then (true, err)
    else
      match n.probe
      case Good(status) => (false, status)
      case Bad(message) => (true, message)
  }

  function ChildErr(n: Node, err: string): string {
    if Own(n, err).0 then "dependency " + n.name + " failed" else ""
  }

  function Evaluate(n: Node, err: string): EvalResult
    decreases n, 1
  {
    var (error, status) := Own(n, err);
    EvalResult(n.name, error, status, EvaluateAll(n.children, ChildErr(n, err)))
  }

  function EvaluateAll(ns: seq<Node>, err: string): (rs: seq<EvalResult>)
    ensures |rs| == |ns|
    decreases ns, 0
  {
    if ns == [] then [] else EvaluateAll(ns[..|ns| - 1], err) + [Evaluate(ns[|ns| - 1], err)]
  }

  /** The probes an evaluation runs, in order, each named by its place. */
  function Probes(n: Node, err: string, at: Path): seq<Path>
    decreases n, 1
  {
    (if err == "" then [at] else []) + ProbesOfAll(n.children, ChildErr(n, err), at)
  }

  function ProbesOfAll(ns: seq<Node>, err: string, at: Path): seq<Path>
    decreases ns, 0
  {
    if ns == [] then []
    else ProbesOfAll(ns[..|ns| - 1], err, at) + Probes(ns[|ns| - 1], err, at + [|ns| - 1])
  }

  method EvaluateNode(n: Node, err: string, at: Path) returns (r: EvalResult, ran: seq<Path>)
    ensures r == Evaluate(n, err) && ran == Probes(n, err, at)
    decreases n, 1
  {
    r, ran := EvalResult(n.name, err != "", err, []), [];
    if r.status == "" {
      ran := [at];
      match n.probe
      case Bad(message) => r := r.(error := true, status := message);
      case Good(status) => r := r.(status := status);
    }
    var childErr := if r.error then "dependency " + r.name + " failed" else "";
    var children, more := EvaluateChildren(n.children, childErr, at);
    r := r.(children := children);
    ran := ran + more;
  }

  method EvaluateChildren(ns: seq<Node>, err: string, at: Path) returns (rs: seq<EvalResult>, ran: seq<Path>)
    ensures rs == EvaluateAll(ns, err) && ran == ProbesOfAll(ns, err, at)
    decreases ns, 0
  {
    rs, ran := [], [];
    for i := 0 to |ns|
      invariant rs == EvaluateAll(ns[..i], err) && ran == ProbesOfAll(ns[..i], err, at)
    {
      assert ns[..i + 1][..i] == ns[..i];
      var child, more := EvaluateNode(ns[i], err, at + [i]);
      rs := rs + [child];
      ran := ran + more;
    }
    assert ns[..|ns|] == ns;
  }

  /** Monitor.Evaluate. */
  method MonitorEvaluate(root: Node) returns (r: EvalResult, ran: seq<Path>)
    ensures r == Evaluate(root, "") && ran == Probes(root, "", [])
  {
    r, ran := EvaluateNode(root, "", []);
  }

  // ---------------------------------------------------------------- places

  predicate Valid(n: Node, p: Path)
    decreases |p|
  {
    p == [] || (p[0] < |n.children| && Valid(n.children[p[0]], p[1..]))
  }

  function NodeAt(n: Node, p: Path): Node
    requires Valid(n, p)
    decreases |p|
  {
    if p == [] then n else NodeAt(n.children[p[0]], p[1..])
  }

  predicate ValidResult(r: EvalResult, p: Path)
    decreases |p|
  {
    p == [] || (p[0] < |r.children| && ValidResult(r.children[p[0]], p[1..]))
  }

  function ResultAt(r: EvalResult, p: Path): EvalResult
    requires ValidResult(r, p)
    decreases |p|
  {
    if p == [] then r else ResultAt(r.children[p[0]], p[1..])
  }

  /** Every probe strictly above the place succeeds. */
  predicate Reached(n: Node, p: Path)
    requires Valid(n, p)
    decreases |p|
  {
    p == [] || (n.probe.Good? && Reached(n.children[p[0]], p[1..]))
  }

  lemma {:induction false} EvaluateAllAt(ns: seq<Node>, err: string, i: nat)
    requires i < |ns|
    ensures EvaluateAll(ns, err)[i] == Evaluate(ns[i], err)
  {
    if i < |ns| - 1 { EvaluateAllAt(ns[..|ns| - 1], err, i); }
  }

  /** The result at a place whose ancestors all succeeded, when nothing above
      failed either (err is empty): its own probe's. Anywhere else it is the
      failure of the parent. */
  lemma {:induction false} EvaluatePlace(n: Node, err: string, p: Path)
    requires Valid(n, p)
    ensures var r := Evaluate(n, err);
            && ValidResult(r, p)
            && var (node, found) := (NodeAt(n, p), ResultAt(r, p));
               && found.name == node.name && |found.children| == |node.children|
               && if err == "" && Reached(n, p) then
                    found.error == node.probe.Bad? &&
                    found.status == match node.probe { case Good(status) => status case Bad(message) => message }
                  else
                    found.error && found.status ==
                    if p == [] then err else "dependency " + ParentName(n, p) + " failed"
    decreases |p|
  {
    if p != [] {
      var c, childErr := n.children[p[0]], ChildErr(n, err);
      EvaluateAllAt(n.children, childErr, p[0]);
      EvaluatePlace(c, childErr, p[1..]);
      assert childErr != "" <==> Own(n, err).0 by {
        if Own(n, err).0 { assert childErr[0] == 'd'; }
      }
      if |p| > 1 {
        ParentBelow(n, p);
      } else {
        assert p[1..] == [] && ParentName(n, p) == n.name;
        assert ResultAt(Evaluate(n, err), p) == Evaluate(c, childErr);
        assert err == "" && Reached(n, p) <==> !Own(n, err).0;
      }
    }
  }

  function ParentName(n: Node, p: Path): string
    requires Valid(n, p) && p != []
    decreases |p|
  {
    if |p| == 1 then n.name else ParentName(n.children[p[0]], p[1..])
  }

  lemma ParentBelow(n: Node, p: Path)
    requires Valid(n, p) && |p| > 1
    ensures ParentName(n, p) == ParentName(n.children[p[0]], p[1..])
  {
  }

  /** A place's result is a failure exactly when its own probe or one above it fails. */
  lemma {:induction false} FailsBelowFailure(n: Node, p: Path)
    requires Valid(n, p)
    ensures ValidResult(Evaluate(n, ""), p)
    ensures ResultAt(Evaluate(n, ""), p).error <==>
            exists k :: 0 <= k <= |p| && Valid(n, p[..k]) && NodeAt(n, p[..k]).probe.Bad?
  {
    EvaluatePlace(n, "", p);
    ReachedMeansGoodAbove(n, p);
    assert p[..|p|] == p;
  }

  lemma {:induction false} ReachedMeansGoodAbove(n: Node, p: Path)
    requires Valid(n, p)
    ensures forall k :: 0 <= k <= |p| ==> Valid(n, p[..k])
    ensures Reached(n, p) <==> forall k :: 0 <= k < |p| ==> NodeAt(n, p[..k]).probe.Good?
    decreases |p|
  {
    if p != [] {
      var c, rest := n.children[p[0]], p[1..];
      ReachedMeansGoodAbove(c, rest);
      forall k | 1 <= k <= |p|
        ensures Valid(n, p[..k]) && NodeAt(n, p[..k]) == NodeAt(c, rest[..k - 1])
      {
        assert p[..k][1..] == rest[..k - 1];
      }
      assert p[..0] == [];
      assert forall k :: 0 <= k < |rest| ==> NodeAt(c, rest[..k]) == NodeAt(n, p[..k + 1]);
    }
  }

  // ------------------------------------------------------- which probes run

  predicate RunsAt(n: Node, err: string, p: Path) {
    err == "" && Valid(n, p) && Reached(n, p)
  }

  /** The probe of place q, seen from the root, runs when n is evaluated at place at. */
  predicate Hits(n: Node, err: string, at: Path, q: Path) {
    |at| <= |q| && q[..|at|] == at && RunsAt(n, err, q[|at|..])
  }

  /** The same for the nodes ns as children of place at. */
  predicate HitsBelow(ns: seq<Node>, err: string, at: Path, q: Path) {
    |at| < |q| && q[..|at|] == at && q[|at|] < |ns| && RunsAt(ns[q[|at|]], err, q[|at| + 1..])
  }

  lemma HitsSplit(n: Node, err: string, at: Path, q: Path)
    ensures Hits(n, err, at, q) <==> (err == "" && q == at) || HitsBelow(n.children, ChildErr(n, err), at, q)
  {
    if q == at {
      assert q[|at|..] == [];
    } else if |at| < |q| && q[..|at|] == at {
      var p := q[|at|..];
      assert p[0] == q[|at|] && p[1..] == q[|at| + 1..] && p != [];
    } else if |at| == |q| {
      assert q[..|at|] == q;
    }
  }

  lemma HitsLast(ns: seq<Node>, err: string, at: Path, q: Path)
    requires ns != []
    ensures var k := |ns| - 1;
            && (HitsBelow(ns, err, at, q) <==> HitsBelow(ns[..k], err, at, q) || Hits(ns[k], err, at + [k], q))
            && !(HitsBelow(ns[..k], err, at, q) && Hits(ns[k], err, at + [k], q))
  {
    hide RunsAt;
    PrefixExtends(q, at, |ns| - 1);
    assert |at + [|ns| - 1]| == |at| + 1;
  }

  lemma {:induction false} ProbesExact(n: Node, err: string, at: Path, q: Path)
    ensures q in Probes(n, err, at) <==> Hits(n, err, at, q)
    ensures multiset(Probes(n, err, at))[q] <= 1
    decreases n, 1
  {
    hide Hits;
    hide ChildErr;
    ProbesOfAllExact(n.children, ChildErr(n, err), at, q);
    HitsSplit(n, err, at, q);
    var own: seq<Path> := if err == "" then [at] else [];
    OnceInEither(own, ProbesOfAll(n.children, ChildErr(n, err), at), q);
    hide ProbesOfAll;
  }

  lemma PrefixExtends(q: Path, at: Path, k: nat)
    ensures |at| + 1 <= |q| && q[..|at| + 1] == at + [k] <==> |at| < |q| && q[..|at|] == at && q[|at|] == k
  {
    if |at| < |q| {
      assert q[..|at| + 1] == q[..|at|] + [q[|at|]];
    }
  }

  lemma {:induction false} ProbesOfAllExact(ns: seq<Node>, err: string, at: Path, q: Path)
    ensures q in ProbesOfAll(ns, err, at) <==> HitsBelow(ns, err, at, q)
    ensures multiset(ProbesOfAll(ns, err, at))[q] <= 1
    decreases ns, 0
  {
    if ns != [] {
      hide Hits;
      hide HitsBelow;
      hide Probes;
      var k := |ns| - 1;
      ProbesOfAllExact(ns[..k], err, at, q);
      ProbesExact(ns[k], err, at + [k], q);
      HitsLast(ns, err, at, q);
      OnceInEither(ProbesOfAll(ns[..k], err, at), Probes(ns[k], err, at + [k]), q);
    }
  }

  lemma OnceInEither(a: seq<Path>, b: seq<Path>, q: Path)
    ensures q in a + b <==> q in a || q in b
    ensures multiset(a + b)[q] == multiset(a)[q] + multiset(b)[q]
    ensures q !in a ==> multiset(a)[q] == 0
    ensures q !in b ==> multiset(b)[q] == 0
  {
    assert multiset(a + b) == multiset(a) + multiset(b);
  }

  /** An evaluation runs the probe of a place exactly when every probe above it succeeds, and runs none twice. */
  lemma ProbeRunsWhenReached(root: Node, p: Path)
    ensures p in Probes(root, "", []) <==> Valid(root, p) && Reached(root, p)
    ensures multiset(Probes(root, "", []))[p] <= 1
  {
    ProbesExact(root, "", [], p);
    assert p[..0] == [] && p[0..] == p;
  }

  // ------------------------------------------------------------- first error

  function Describe(r: EvalResult): string {
    r.name + ": " + r.status
  }

  function FirstErrorOf(r: EvalResult): string
    decreases r, 1
  {
    if r.error then Describe(r) else FirstErrorOfAll(r.children)
  }

  function FirstErrorOfAll(rs: seq<EvalResult>): string
    decreases rs, 0
  {
    if rs == [] then ""
    else if FirstErrorOf(rs[0]) != "" then FirstErrorOf(rs[0])
    else FirstErrorOfAll(rs[1..])
  }

  method FirstError(r: EvalResult) returns (msg: string)
    ensures msg == FirstErrorOf(r)
    decreases r
  {
    if r.error {
      return Describe(r);
    }
    for i := 0 to |r.children|
      invariant FirstErrorOfAll(r.children) == FirstErrorOfAll(r.children[i..])
    {
      msg := FirstError(r.children[i]);
      if msg != "" {
        return msg;
      }
      assert r.children[i..][0] == r.children[i] && r.children[i..][1..] == r.children[i + 1..];
    }
    return "";
  }

  /** Visiting order: parents before children, earlier children first. */
  predicate VisitedBefore(q: Path, p: Path)
    decreases |q|
  {
    if q == [] then p != []
    else p != [] && (q[0] < p[0] || (q[0] == p[0] && VisitedBefore(q[1..], p[1..])))
  }

  ghost predicate NoErrorIn(r: EvalResult) {
    forall q :: ValidResult(r, q) ==> !ResultAt(r, q).error
  }

  /** p is the first failed place of r. */
  ghost predicate FirstFailed(r: EvalResult, p: Path) {
    && ValidResult(r, p) && ResultAt(r, p).error
    && forall q :: ValidResult(r, q) && VisitedBefore(q, p) ==> !ResultAt(r, q).error
  }

  lemma {:induction false} FirstErrorFinds(r: EvalResult) returns (p: Path)
    ensures FirstErrorOf(r) == "" <==> NoErrorIn(r)
    ensures FirstErrorOf(r) != "" ==> FirstFailed(r, p) && FirstErrorOf(r) == Describe(ResultAt(r, p))
    decreases r
  {
    p := [];
    if r.error {
      assert Describe(r)[|r.name|] == ':';
      assert ValidResult(r, []) && ResultAt(r, []).error;
    } else {
      var i := 0;
      while i < |r.children| && FirstErrorOf(r.children[i]) == ""
        invariant i <= |r.children|
        invariant forall j :: 0 <= j < i ==> NoErrorIn(r.children[j])
        invariant FirstErrorOfAll(r.children) == FirstErrorOfAll(r.children[i..])
      {
        var _ := FirstErrorFinds(r.children[i]);
        assert r.children[i..][0] == r.children[i] && r.children[i..][1..] == r.children[i + 1..];
        i := i + 1;
      }
      if i < |r.children| {
        var below := FirstErrorFinds(r.children[i]);
        p := [i] + below;
        assert p[1..] == below && r.children[i..][0] == r.children[i];
        FirstFailedBelow(r, i, below);
        assert !NoErrorIn(r) by { assert ResultAt(r, p).error; }
      } else {
        assert r.children[i..] == [];
        forall q | ValidResult(r, q)
          ensures !ResultAt(r, q).error
        {
          if q != [] {
            assert NoErrorIn(r.children[q[0]]) && ResultAt(r, q) == ResultAt(r.children[q[0]], q[1..]);
          }
        }
      }
    }
  }

  lemma FirstFailedBelow(r: EvalResult, i: nat, below: Path)
    requires !r.error && i < |r.children| && FirstFailed(r.children[i], below)
    requires forall j :: 0 <= j < i ==> NoErrorIn(r.children[j])
    ensures FirstFailed(r, [i] + below)
  {
    var p := [i] + below;
    assert p[1..] == below;
    forall q | ValidResult(r, q) && VisitedBefore(q, p)
      ensures !ResultAt(r, q).error
    {
      if q != [] {
        assert ResultAt(r, q) == ResultAt(r.children[q[0]], q[1..]);
        if q[0] < i { assert NoErrorIn(r.children[q[0]]); }
      }
    }
  }

  /** Root cause: the first error is empty exactly when every probe succeeds;
      otherwise it is the name and message of the first probe in the tree that
      fails by itself, never of a node that merely depends on one. */
  lemma FirstErrorIsRootCause(root: Node) returns (p: Path)
    ensures FirstErrorOf(Evaluate(root, "")) == "" <==> forall q :: Valid(root, q) ==> NodeAt(root, q).probe.Good?
    ensures FirstErrorOf(Evaluate(root, "")) != "" ==>
              && Valid(root, p) && Reached(root, p) && NodeAt(root, p).probe.Bad?
              && FirstErrorOf(Evaluate(root, "")) == NodeAt(root, p).name + ": " + NodeAt(root, p).probe.message
              && forall q :: Valid(root, q) && VisitedBefore(q, p) ==> NodeAt(root, q).probe.Good?
  {
    var r := Evaluate(root, "");
    p := FirstErrorFinds(r);
    SamePlaces(root, "", p);
    forall q | Valid(root, q)
      ensures ValidResult(r, q) && (!ResultAt(r, q).error ==> NodeAt(root, q).probe.Good?)
    {
      EvaluatePlace(root, "", q);
    }
    if FirstErrorOf(r) == "" {
      assert NoErrorIn(r);
    } else {
      EvaluatePlace(root, "", p);
      ReachedMeansGoodAbove(root, p);
      forall k | 0 <= k < |p|
        ensures NodeAt(root, p[..k]).probe.Good?
      {
        PrefixIsVisitedBefore(p, k);
        assert Valid(root, p[..k]);
      }
    }
  }

  lemma {:induction false} PrefixIsVisitedBefore(p: Path, k: nat)
    requires k < |p|
    ensures VisitedBefore(p[..k], p)
    decreases k
  {
    if k > 0 {
      PrefixIsVisitedBefore(p[1..], k - 1);
      assert p[..k][1..] == p[1..][..k - 1];
    }
  }

  lemma {:induction false} SamePlaces(n: Node, err: string, p: Path)
    ensures ValidResult(Evaluate(n, err), p) <==> Valid(n, p)
    decreases |p|
  {
    if p != [] && p[0] < |n.children| {
      EvaluateAllAt(n.children, ChildErr(n, err), p[0]);
      SamePlaces(n.children[p[0]], ChildErr(n, err), p[1..]);
    }
  }

  // ------------------------------------------------------- the order of probes

  /** Each place before the next in the order of visiting, all below at. */
  ghost predicate InOrder(ps: seq<Path>) {
    forall i, j :: 0 <= i < j < |ps| ==> VisitedBefore(ps[i], ps[j])
  }

  lemma {:induction false} BelowOrder(at: Path, p: Path, q: Path)
    requires VisitedBefore(p, q)
    ensures VisitedBefore(at + p, at + q)
    decreases |at|
  {
    if at == [] {
      assert at + p == p && at + q == q;
    } else {
      BelowOrder(at[1..], p, q);
      assert (at + p)[1..] == at[1..] + p && (at + q)[1..] == at[1..] + q;
    }
  }

  lemma SiblingOrder(at: Path, i: nat, j: nat, p: Path, q: Path)
    requires i < j
    ensures VisitedBefore(at + [i] + p, at + [j] + q)
  {
    BelowOrder(at, [i] + p, [j] + q);
    assert at + [i] + p == at + ([i] + p) && at + [j] + q == at + ([j] + q);
  }

  lemma ChildOrder(at: Path, p: Path)
    requires p != []
    ensures VisitedBefore(at, at + p)
  {
    BelowOrder(at, [], p);
    assert at + [] == at;
  }

  lemma JoinOrder(a: seq<Path>, b: seq<Path>)
    requires InOrder(a) && InOrder(b)
    requires forall p, q :: p in a && q in b ==> VisitedBefore(p, q)
    ensures InOrder(a + b)
  {
    var c := a + b;
    forall i, j | 0 <= i < j < |c|
      ensures VisitedBefore(c[i], c[j])
    {
      if i < |a| && j >= |a| { assert c[i] in a && c[j] in b; }
    }
  }

  lemma {:induction false} ProbesInOrderBelow(n: Node, err: string, at: Path)
    ensures InOrder(Probes(n, err, at))
    decreases n, 1
  {
    var own: seq<Path> := if err == "" then [at] else [];
    var below := ProbesOfAll(n.children, ChildErr(n, err), at);
    ProbesOfAllInOrder(n.children, ChildErr(n, err), at);
    forall p, q | p in own && q in below
      ensures VisitedBefore(p, q)
    {
      ProbesOfAllExact(n.children, ChildErr(n, err), at, q);
      assert q == at + q[|at|..];
      ChildOrder(at, q[|at|..]);
    }
    hide VisitedBefore;
    JoinOrder(own, below);
  }

  lemma ChildPath(at: Path, q: Path)
    requires |at| < |q| && q[..|at|] == at
    ensures q == at + [q[|at|]] + q[|at| + 1..]
  {
  }

  lemma EarlierSibling(ns: seq<Node>, k: nat, err: string, at: Path, p: Path, q: Path)
    requires k < |ns| && HitsBelow(ns[..k], err, at, p) && Hits(ns[k], err, at + [k], q)
    ensures VisitedBefore(p, q)
  {
    hide RunsAt;
    hide VisitedBefore;
    PrefixExtends(q, at, k);
    ChildPath(at, p);
    ChildPath(at, q);
    SiblingOrder(at, p[|at|], k, p[|at| + 1..], q[|at| + 1..]);
  }

  lemma {:induction false} ProbesOfAllInOrder(ns: seq<Node>, err: string, at: Path)
    ensures InOrder(ProbesOfAll(ns, err, at))
    decreases ns, 0
  {
    if ns != [] {
      hide VisitedBefore;
      hide HitsBelow;
      hide Hits;
      hide InOrder;
      var k := |ns| - 1;
      var front, last := ProbesOfAll(ns[..k], err, at), Probes(ns[k], err, at + [k]);
      ProbesOfAllInOrder(ns[..k], err, at);
      ProbesInOrderBelow(ns[k], err, at + [k]);
      forall p, q | p in front && q in last
        ensures VisitedBefore(p, q)
      {
        ProbesOfAllExact(ns[..k], err, at, p);
        ProbesExact(ns[k], err, at + [k], q);
        EarlierSibling(ns, k, err, at, p, q);
      }
      JoinOrder(front, last);
    }
  }

  /** An evaluation runs its probes in the order of visiting: a node before the
      nodes below it, and these before its later siblings. */
  lemma ProbesInOrder(root: Node)
    ensures forall i, j :: 0 <= i < j < |Probes(root, "", [])| ==>
                             VisitedBefore(Probes(root, "", [])[i], Probes(root, "", [])[j])
  {
    ProbesInOrderBelow(root, "", []);
    hide VisitedBefore;
    hide Probes;
  }
}
