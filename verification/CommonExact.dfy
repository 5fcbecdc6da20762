/** Which nodes have one value in every evaluation: exactly those whose trees compare equal
    (src/commonExpr.cpp, the comparison against what it is for). */
module CommonExact {
  import opened BitMath
  import opened CommonExpr
  import opened CommonMatch
  import opened CommonKeys

  /** Every computed node is mergeable. */
  ghost predicate Simple(g: Graph) {
    forall n: nat :: n < |g| ==> !g[n].kind.Fixed?
  }

  // ----- equal nodes share a representative

  lemma {:induction false} TreeEqRefl(a: Expr, reps: seq<nat>)
    ensures TreeEq(a, a, reps)
    decreases a
  {
    match a {
      case Null =>
      case Op(_, args) => ArgsEqRefl(args, reps);
      case Use(_, _, args) => ArgsEqRefl(args, reps);
    }
  }

  lemma {:induction false} ArgsEqRefl(a: seq<Expr>, reps: seq<nat>)
    ensures ArgsEq(a, a, reps)
    decreases a
  {
    forall i | 0 <= i < |a| ensures TreeEq(a[i], a[i], reps) {
      TreeEqRefl(a[i], reps);
    }
  }

  /** Processing more nodes keeps a verdict. */
  lemma {:induction false} TreeEqLater(a: Expr, b: Expr, reps: seq<nat>, n: nat)
    requires n <= |reps| && TreeEq(a, b, reps[..n])
    ensures TreeEq(a, b, reps)
    decreases a
  {
    match a {
      case Null =>
      case Op(_, args) => ArgsEqLater(args, Args(b), reps, n);
      case Use(_, _, args) => ArgsEqLater(args, Args(b), reps, n);
    }
  }

  lemma {:induction false} ArgsEqLater(a: seq<Expr>, b: seq<Expr>, reps: seq<nat>, n: nat)
    requires n <= |reps| && ArgsEq(a, b, reps[..n])
    ensures ArgsEq(a, b, reps)
    decreases a
  {
    forall i | 0 <= i < |a| ensures TreeEq(a[i], b[i], reps) {
      TreeEqLater(a[i], b[i], reps, n);
    }
  }

  lemma {:induction false} SlotHas(g: Graph, key: nat, m: nat, n: nat)
    requires m < n <= |g| && g[m].Mergeable() && g[m].key == key
    ensures Slot(g, key, n) >= 1
    decreases n
  {
    if m < n - 1 {
      SlotHas(g, key, m, n - 1);
    }
  }

  lemma {:induction false} SlotShared(g: Graph, key: nat, m: nat, k: nat, n: nat)
    requires m < k < n <= |g| && g[m].Mergeable() && g[m].key == key && g[k].Mergeable() && g[k].key == key
    ensures Slot(g, key, n) > 1
    decreases n
  {
    if k < n - 1 {
      SlotShared(g, key, m, k, n - 1);
    } else {
      SlotHas(g, key, m, k);
    }
  }

  /** A node compares equal to its representative. */
  lemma EqualToRep(g: Graph, m: nat)
    requires m < |g|
    ensures NodeEq(g, m, Chosen(g, m), Reps(g, |g|))
  {
    var u := Chosen(g, m);
    ChosenMatches(g, m);
    if u == m {
      ArgsEqRefl(g[m].trees, Reps(g, |g|));
    } else {
      RepsPrefix(g, m, |g|);
      ArgsEqLater(g[m].trees, g[u].trees, Reps(g, |g|), m);
    }
  }

  /** A later node that compares equal to a representative takes it. */
  lemma TakesRep(g: Graph, n: nat, u: nat)
    requires Topological(g) && Simple(g) && LastMatchesClean(g, |g|) && KeysFollow(g) && u < n
             && EqualMergeable(g, n, u)
             && Chosen(g, u) == u
    ensures Chosen(g, n) == u
  {
    var reps := Reps(g, |g|);
    CleanOwnOnly(g, |g|);
    ArgsEqThen(g, g[n].trees, g[u].trees, n, u, reps);
    RepsPrefix(g, n, |g|);
    RepsAt(g, u, n);
    SlotShared(g, g[n].key, u, n, |g|);
    assert Matches(g, n, u);
    ChosenMatches(g, n);
    assert ChosenClean(g, n);
    AtMostOne(g, n, u, Chosen(g, n));
  }

  lemma EqualNodesShareRep(g: Graph, m: nat, n: nat)
    requires Topological(g) && Simple(g) && LastMatchesClean(g, |g|) && KeysFollow(g) && m < n
             && EqualMergeable(g, m, n)
    ensures Chosen(g, m) == Chosen(g, n)
  {
    var u, reps := Chosen(g, m), Reps(g, |g|);
    ChosenMatches(g, m);
    assert ChosenClean(g, m);
    EqualToRep(g, m);
    RepsAt(g, m, |g|);
    RepsIdempotent(g, m, |g|);
    RepsAt(g, u, |g|);
    ArgsEqTrans(g[m].trees, g[u].trees, g[n].trees, reps);
    TakesRep(g, n, u);
  }

  lemma EqualSym(g: Graph, m: nat, n: nat)
    requires EqualMergeable(g, m, n)
    ensures EqualMergeable(g, n, m)
  {
    ArgsEqRefl(g[m].trees, Reps(g, |g|));
    ArgsEqTrans(g[m].trees, g[m].trees, g[n].trees, Reps(g, |g|));
  }

  lemma EqualNodesSameRep(g: Graph, m: nat, n: nat)
    requires Topological(g) && Simple(g) && LastMatchesClean(g, |g|) && KeysFollow(g) && EqualMergeable(g, m, n)
    ensures Chosen(g, m) == Chosen(g, n)
  {
    if m < n {
      EqualNodesShareRep(g, m, n);
    } else if n < m {
      EqualSym(g, m, n);
      EqualNodesShareRep(g, n, m);
    }
  }

  // ----- an evaluation that tells all other nodes apart: values are codes of trees

  function Code(a: nat, b: nat): (r: nat)
    ensures r > 0
  {
    Pow2(a) * (2 * b + 1)
  }

  lemma {:induction false} CodeOnce(a: nat, b: nat, c: nat, d: nat)
    requires Code(a, b) == Code(c, d)
    ensures a == c && b == d
    decreases a
  {
    if a > 0 && c > 0 {
      Halve(a, b);
      Halve(c, d);
      CodeOnce(a - 1, b, c - 1, d);
    } else if a > 0 {
      Halve(a, b);
    } else if c > 0 {
      Halve(c, d);
    }
  }

  lemma Halve(a: nat, b: nat)
    requires a > 0
    ensures Code(a, b) == 2 * Code(a - 1, b)
  {
  }

  function Fold(x: int): nat {
    if x >= 0 then 2 * x else -2 * x - 1
  }

  function SeqCode(s: seq<int>): nat {
    if s == [] then 0 else Code(Fold(s[0]), SeqCode(s[1..]))
  }

  lemma {:induction false} SeqCodeOnce(s: seq<int>, t: seq<int>)
    requires SeqCode(s) == SeqCode(t)
    ensures s == t
  {
    if s != [] && t != [] {
      CodeOnce(Fold(s[0]), SeqCode(s[1..]), Fold(t[0]), SeqCode(t[1..]));
      SeqCodeOnce(s[1..], t[1..]);
      assert s == [s[0]] + s[1..] && t == [t[0]] + t[1..];
    }
  }

  /** Operators yield even numbers, references odd ones. */
  function Coding(node: seq<int> -> int): Sem {
    Sem((t: nat, a: seq<int>) => 2 * Code(t, SeqCode(a)),
        (t: nat, v: int, a: seq<int>) => 2 * Code(t, Code(Fold(v), SeqCode(a))) + 1,
        node)
  }

  /** Every node has the number of its representative. */
  function RepStore(reps: seq<nat>): Store {
    (n: nat) => if n < |reps| then reps[n] else n
  }

  lemma OpCodeOnce(t: nat, x: seq<int>, u: nat, y: seq<int>)
    requires Code(t, SeqCode(x)) == Code(u, SeqCode(y))
    ensures t == u && x == y
  {
    CodeOnce(t, SeqCode(x), u, SeqCode(y));
    SeqCodeOnce(x, y);
  }

  lemma UseCodeOnce(t: nat, v: int, x: seq<int>, u: nat, w: int, y: seq<int>)
    requires Code(t, Code(Fold(v), SeqCode(x))) == Code(u, Code(Fold(w), SeqCode(y)))
    ensures t == u && v == w && x == y
  {
    CodeOnce(t, Code(Fold(v), SeqCode(x)), u, Code(Fold(w), SeqCode(y)));
    CodeOnce(Fold(v), SeqCode(x), Fold(w), SeqCode(y));
    SeqCodeOnce(x, y);
  }

  /** Which constructor a code comes from. */
  lemma CodedHead(node: seq<int> -> int, e: Expr, st: Store)
    ensures var v := Eval(Coding(node), e, st);
            (e.Null? <==> v == 0) && (e.Op? <==> v > 0 && v % 2 == 0) && (e.Use? <==> v > 0 && v % 2 == 1)
  {
  }

  lemma {:induction false} CodedTree(node: seq<int> -> int, g: Graph, reps: seq<nat>, a: Expr, b: Expr)
    requires |reps| == |g| && RefsBelow(g, a, |g|) && RefsBelow(g, b, |g|)
    requires Eval(Coding(node), a, RepStore(reps)) == Eval(Coding(node), b, RepStore(reps))
    ensures TreeEq(a, b, reps)
    decreases a
  {
    var sem, st := Coding(node), RepStore(reps);
    CodedHead(node, a, st);
    CodedHead(node, b, st);
    match a {
      case Null =>
      case Op(t, args) =>
        OpCodeOnce(t, EvalAll(sem, args, st), b.tag, EvalAll(sem, b.args, st));
        CodedTrees(node, g, reps, args, b.args);
      case Use(t, n, args) =>
        UseCodeOnce(t, st(n), EvalAll(sem, args, st), b.tag, st(b.node), EvalAll(sem, b.args, st));
        CodedTrees(node, g, reps, args, b.args);
    }
  }

  lemma {:induction false} CodedTrees(node: seq<int> -> int, g: Graph, reps: seq<nat>, a: seq<Expr>, b: seq<Expr>)
    requires |reps| == |g| && AllRefsBelow(g, a, |g|) && AllRefsBelow(g, b, |g|)
    requires EvalAll(Coding(node), a, RepStore(reps)) == EvalAll(Coding(node), b, RepStore(reps))
    ensures ArgsEq(a, b, reps)
    decreases a
  {
    var sem, st := Coding(node), RepStore(reps);
    if a != [] {
      assert b != [];
      var x, y := EvalAll(sem, a, st), EvalAll(sem, b, st);
      assert x[0] == y[0] && x[1..] == y[1..];
      CodedTree(node, g, reps, a[0], b[0]);
      CodedTrees(node, g, reps, a[1..], b[1..]);
      forall i | 0 <= i < |a| ensures TreeEq(a[i], b[i], reps) {
        if i > 0 {
          assert TreeEq(a[1..][i - 1], b[1..][i - 1], reps);
        }
      }
    }
  }

  /** What a node computes does not enter the value of a tree. */
  lemma {:induction false} NodeUnused(n1: seq<int> -> int, n2: seq<int> -> int, e: Expr, st: Store)
    ensures Eval(Coding(n1), e, st) == Eval(Coding(n2), e, st)
    decreases e
  {
    match e {
      case Null =>
      case Op(_, args) => NodeUnusedAll(n1, n2, args, st);
      case Use(_, _, args) => NodeUnusedAll(n1, n2, args, st);
    }
  }

  lemma {:induction false} NodeUnusedAll(n1: seq<int> -> int, n2: seq<int> -> int, es: seq<Expr>, st: Store)
    ensures EvalAll(Coding(n1), es, st) == EvalAll(Coding(n2), es, st)
    decreases es
  {
    if es != [] {
      NodeUnused(n1, n2, es[0], st);
      NodeUnusedAll(n1, n2, es[1..], st);
    }
  }

  function Zero(): seq<int> -> int {
    a => 0
  }

  /** The representative of the nodes below n whose trees have these codes. */
  function Decode(g: Graph, reps: seq<nat>, vals: seq<int>, n: nat): int
    requires n <= |g| == |reps|
  {
    if n == 0 then 0
    else if g[n - 1].Mergeable() && EvalAll(Coding(Zero()), g[n - 1].trees, RepStore(reps)) == vals then reps[n - 1]
    else Decode(g, reps, vals, n - 1)
  }

  lemma {:induction false} DecodeIsRep(g: Graph, m: nat, n: nat)
    requires Topological(g) && Simple(g) && LastMatchesClean(g, |g|) && KeysFollow(g) && m < n <= |g|
             && g[m].Mergeable()
    ensures var reps := Reps(g, |g|);
            Decode(g, reps, EvalAll(Coding(Zero()), g[m].trees, RepStore(reps)), n) == reps[m]
    decreases n
  {
    var reps := Reps(g, |g|);
    var vals := EvalAll(Coding(Zero()), g[m].trees, RepStore(reps));
    var k := n - 1;
    if g[k].Mergeable() && EvalAll(Coding(Zero()), g[k].trees, RepStore(reps)) == vals {
      RefsInGraph(g, m);
      RefsInGraph(g, k);
      CodedTrees(Zero(), g, reps, g[m].trees, g[k].trees);
      EqualNodesSameRep(g, m, k);
      RepsAt(g, m, |g|);
      RepsAt(g, k, |g|);
    } else {
      assert m < k;
      DecodeIsRep(g, m, k);
    }
  }

  lemma RefsInGraph(g: Graph, n: nat)
    requires Topological(g) && n < |g|
    ensures AllRefsBelow(g, g[n].trees, |g|)
  {
    RefsWeaken(g, g[n].trees, Limit(g, n), |g|);
  }

  lemma {:induction false} RefsWeaken(g: Graph, es: seq<Expr>, n: nat, m: nat)
    requires AllRefsBelow(g, es, n) && n <= m
    ensures AllRefsBelow(g, es, m)
    decreases es
  {
    forall i | 0 <= i < |es| ensures RefsBelow(g, es[i], m) {
      assert RefsBelow(g, es[i], n);
      match es[i] {
        case Null =>
        case Op(_, args) => RefsWeaken(g, args, n, m);
        case Use(_, _, args) => RefsWeaken(g, args, n, m);
      }
    }
  }

  /** In one evaluation every node has the number of its representative as value. */
  lemma TellsApart(g: Graph) returns (sem: Sem)
    requires Topological(g) && Simple(g) && LastMatchesClean(g, |g|) && KeysFollow(g)
    ensures Solves(sem, g, RepStore(Reps(g, |g|)))
  {
    var reps := Reps(g, |g|);
    var node := (vals: seq<int>) => Decode(g, reps, vals, |g|);
    sem := Coding(node);
    forall n: nat | n < |g| && g[n].Computed()
      ensures RepStore(reps)(n) == sem.node(EvalAll(sem, g[n].trees, RepStore(reps)))
    {
      NodeUnusedAll(node, Zero(), g[n].trees, RepStore(reps));
      DecodeIsRep(g, n, |g|);
    }
  }

  /** Where keys follow the trees and last matches are right, the loop finds all nodes of one value, and no others. */
  lemma RepsAreExact(g: Graph, m: nat, n: nat)
    requires Topological(g) && Simple(g) && LastMatchesClean(g, |g|) && KeysFollow(g) && m < |g| && n < |g|
    ensures Reps(g, |g|)[m] == Reps(g, |g|)[n] <==> SameValue(g, m, n)
  {
    var reps := Reps(g, |g|);
    if reps[m] == reps[n] {
      CleanAgrees(g, |g|);
      AgreeAt(g, reps, m);
      AgreeAt(g, reps, n);
    }
    if SameValue(g, m, n) {
      var sem := TellsApart(g);
      assert RepStore(reps)(m) == RepStore(reps)(n);
    }
  }

  // ----- without keys

  /** The graphs differ at most in keys, and in which computed nodes are mergeable. */
  ghost predicate SameTrees(g: Graph, r: Graph) {
    |g| == |r| && forall n: nat :: n < |g| ==> SameNode(g[n], r[n])
  }

  ghost predicate SameNode(a: Node, b: Node) {
    a.trees == b.trees && a.sides == b.sides && (a.kind.Source? <==> b.kind.Source?) && (a.Computed() <==> b.Computed())
  }

  lemma {:induction false} SameRefs(g: Graph, r: Graph, es: seq<Expr>, n: nat)
    requires SameTrees(g, r) && AllRefsBelow(g, es, n)
    ensures AllRefsBelow(r, es, n)
    decreases es
  {
    forall i | 0 <= i < |es| ensures RefsBelow(r, es[i], n) {
      assert RefsBelow(g, es[i], n);
      match es[i] {
        case Null =>
        case Op(_, args) => SameRefs(g, r, args, n);
        case Use(_, m, args) =>
          assert SameNode(g[m], r[m]);
          SameRefs(g, r, args, n);
      }
    }
  }

  lemma SameTopological(g: Graph, r: Graph)
    requires SameTrees(g, r) && Topological(g)
    ensures Topological(r)
  {
    forall n: nat | n < |r| ensures AllRefsBelow(r, r[n].trees, Limit(r, n)) && AllRefsBelow(r, r[n].sides, |r|) {
      assert SameNode(g[n], r[n]);
      SameRefs(g, r, g[n].trees, Limit(g, n));
      SameRefs(g, r, g[n].sides, |g|);
    }
  }

  lemma SameSolves(sem: Sem, g: Graph, r: Graph, st: Store)
    requires SameTrees(g, r) && Solves(sem, g, st)
    ensures Solves(sem, r, st)
  {
    forall n: nat | n < |r| && r[n].Computed() ensures st(n) == sem.node(EvalAll(sem, r[n].trees, st)) {
      assert SameNode(g[n], r[n]);
    }
  }

  lemma SameTreesSym(g: Graph, r: Graph)
    requires SameTrees(g, r)
    ensures SameTrees(r, g)
  {
    forall n: nat | n < |g| ensures SameNode(r[n], g[n]) {
      assert SameNode(g[n], r[n]);
    }
  }

  lemma SameTreesValue(g: Graph, r: Graph, m: nat, n: nat)
    requires SameTrees(g, r) && SameValue(g, m, n)
    ensures SameValue(r, m, n)
  {
    SameTreesSym(g, r);
    forall sem: Sem, st: Store | Solves(sem, r, st) ensures st(m) == st(n) {
      SameSolves(sem, r, g, st);
    }
  }

  /** All computed nodes in one slot, every other node by itself: every computed node is
      compared with every earlier one. */
  function Unkeyed(g: Graph): (r: Graph)
    ensures |r| == |g|
  {
    seq(|g|, n requires 0 <= n < |g| =>
      if g[n].Computed() then g[n].(kind := Plain, key := 0) else g[n].(key := n + 1))
  }

  function Canon(g: Graph): (r: seq<nat>)
    ensures |r| == |g|
  {
    Reps(Unkeyed(g), |g|)
  }

  lemma UnkeyedSame(g: Graph)
    ensures SameTrees(g, Unkeyed(g)) && Simple(Unkeyed(g))
  {
    var r := Unkeyed(g);
    forall n: nat | n < |g| ensures SameNode(g[n], r[n]) && !r[n].kind.Fixed? {
    }
  }

  lemma UnkeyedIsClean(g: Graph)
    ensures LastMatchesClean(Unkeyed(g), |g|) && KeysFollow(Unkeyed(g))
  {
    var r := Unkeyed(g);
    forall n: nat, u: nat | Matches(r, n, u) ensures r[n].Computed() && r[u].Computed() {
      assert r[n].key == r[u].key && u < n;
    }
    CleanBelow(r, |g|);
  }

  /** Two nodes have one value in every evaluation if and only if comparing all computed nodes,
      without keys, gives them one representative. */
  lemma SameValueIff(g: Graph, m: nat, n: nat)
    requires Topological(g) && m < |g| && n < |g|
    ensures SameValue(g, m, n) <==> Canon(g)[m] == Canon(g)[n]
  {
    UnkeyedIsClean(g);
    UnkeyedSame(g);
    SameTopological(g, Unkeyed(g));
    RepsAreExact(Unkeyed(g), m, n);
    if SameValue(g, m, n) {
      SameTreesValue(g, Unkeyed(g), m, n);
    }
    if SameValue(Unkeyed(g), m, n) {
      SameTreesSym(g, Unkeyed(g));
      SameTreesValue(Unkeyed(g), g, m, n);
    }
  }

  /** The representative is the first node of its class. */
  lemma FirstOfClass(g: Graph, c: seq<nat>, m: nat)
    requires m < |g| == |c| && (forall k: nat :: k < |c| ==> c[k] <= k)
    requires forall k: nat :: k < |g| && Reps(g, |g|)[k] == Reps(g, |g|)[m] ==> c[k] == c[m]
    ensures c[m] <= Reps(g, |g|)[m]
  {
    RepsIdempotent(g, m, |g|);
    assert c[Reps(g, |g|)[m]] == c[m];
  }

  lemma CanonAgrees(g: Graph)
    requires Topological(g)
    ensures Agree(g, Canon(g))
  {
    forall sem: Sem, st: Store | Solves(sem, g, st) ensures AgreeIn(Canon(g), st) {
      forall m | 0 <= m < |Canon(g)| ensures st(m) == st(Canon(g)[m]) {
        RepsIdempotent(Unkeyed(g), m, |g|);
        SameValueIff(g, m, Canon(g)[m]);
      }
    }
  }

  lemma SimpleIsCanon(g: Graph, m: nat)
    requires Topological(g) && Simple(g) && LastMatchesClean(g, |g|) && KeysFollow(g) && m < |g|
    ensures Reps(g, |g|)[m] == Canon(g)[m]
  {
    forall k: nat | k < |g| ensures Reps(g, |g|)[k] == Reps(g, |g|)[m] <==> Canon(g)[k] == Canon(g)[m] {
      RepsAreExact(g, k, m);
      SameValueIff(g, k, m);
    }
    FirstOfClass(g, Canon(g), m);
    FirstOfClass(Unkeyed(g), Reps(g, |g|), m);
  }

  lemma CanonFollows(g: Graph)
    requires Topological(g) && Simple(g) && Reps(g, |g|) == Canon(g)
    ensures KeysFollow(g)
  {
    CanonAgrees(g);
    RepsShareKeys(g, |g|);
    forall m: nat, n: nat | EqualMergeable(g, m, n) ensures g[m].key == g[n].key {
      EqualNodes(g, Reps(g, |g|), m, n);
      SameValueIff(g, m, n);
    }
  }

  lemma SimpleCanonIff(g: Graph)
    requires Topological(g) && Simple(g)
    ensures Reps(g, |g|) == Canon(g) <==> LastMatchesClean(g, |g|) && KeysFollow(g)
  {
    if LastMatchesClean(g, |g|) && KeysFollow(g) {
      forall m: nat | m < |g| ensures Reps(g, |g|)[m] == Canon(g)[m] {
        SimpleIsCanon(g, m);
      }
    }
    if Reps(g, |g|) == Canon(g) {
      CanonAgrees(g);
      AgreeIff(g);
      CanonFollows(g);
    }
  }
}
