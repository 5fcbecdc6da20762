/** Merging nodes that compute the same expression (src/commonExpr.cpp). */
module CommonExpr {

  /** An expression node. The tag stands for operator, width, sign, constants and literal
      text; Use refers to a node, with its array indices as arguments. */
  datatype Expr = Null | Op(tag: nat, args: seq<Expr>) | Use(tag: nat, node: nat, args: seq<Expr>)

  /** What a node holds. Sources (inputs, register sources, memory reads) have values of their
      own; so have arrays, whose contents depend on left sides that are never compared. Fixed
      nodes (outputs, next values of registers, constants) hold what their trees compute but
      are not hashed. Plain nodes are the combinational scalars that may be merged. */
  datatype Kind = Source | Array | Fixed | Plain

  /** Nodes in processing order. The trees are the right sides; left sides and a reset tree
      stand aside: they are never compared. */
  datatype Node = Node(kind: Kind, trees: seq<Expr>, sides: seq<Expr>, key: nat, width: nat, readers: nat) {
    predicate Computed() {
      kind.Fixed? || kind.Plain?
    }

    predicate Mergeable() {
      kind.Plain?
    }
  }

  type Graph = seq<Node>

  // ----- meaning

  /** What operators, references and whole assignment lists compute. */
  datatype Sem = Sem(op: (nat, seq<int>) -> int, use: (nat, int, seq<int>) -> int, node: seq<int> -> int)

  type Store = nat -> int

  function Eval(sem: Sem, e: Expr, st: Store): int
    decreases e
  {
    match e
    case Null => 0
    case Op(t, args) => sem.op(t, EvalAll(sem, args, st))
    case Use(t, n, args) => sem.use(t, st(n), EvalAll(sem, args, st))
  }

  function EvalAll(sem: Sem, es: seq<Expr>, st: Store): (r: seq<int>)
    decreases es
  {
    if es == [] then [] else [Eval(sem, es[0], st)] + EvalAll(sem, es[1..], st)
  }

  /** The nodes an expression refers to are below n or have values of their own. */
  ghost predicate RefsBelow(g: Graph, e: Expr, n: nat)
    decreases e
  {
    match e
    case Null => true
    case Op(_, args) => AllRefsBelow(g, args, n)
    case Use(_, m, args) => m < |g| && (m < n || !g[m].Computed()) && AllRefsBelow(g, args, n)
  }

  ghost predicate AllRefsBelow(g: Graph, es: seq<Expr>, n: nat)
    decreases es
  {
    forall i :: 0 <= i < |es| ==> RefsBelow(g, es[i], n)
  }

  ghost predicate RefersTo(e: Expr, m: nat)
    decreases e
  {
    match e
    case Null => false
    case Op(_, args) => AnyRefersTo(args, m)
    case Use(_, n, args) => n == m || AnyRefersTo(args, m)
  }

  ghost predicate AnyRefersTo(es: seq<Expr>, m: nat)
    decreases es
  {
    exists i :: 0 <= i < |es| && RefersTo(es[i], m)
  }

  /** Where the trees of node n may refer to: only those of a source lie behind it. */
  function Limit(g: Graph, n: nat): nat
    requires n < |g|
  {
    if g[n].kind.Source? then |g| else n
  }

  ghost predicate Topological(g: Graph) {
    forall n: nat :: n < |g| ==> AllRefsBelow(g, g[n].trees, Limit(g, n)) && AllRefsBelow(g, g[n].sides, |g|)
  }

  /** The values are those of one evaluation: every computed node holds what it computes. */
  ghost predicate Solves(sem: Sem, g: Graph, st: Store) {
    forall n: nat :: n < |g| && g[n].Computed() ==> st(n) == sem.node(EvalAll(sem, g[n].trees, st))
  }

  // ----- comparing

  /** Two references agree: same node, or nodes already known to have one value. `reps`
      holds the representatives of the nodes processed so far. */
  predicate SameRef(m: nat, n: nat, reps: seq<nat>) {
    m == n || (m < |reps| && n < |reps| && reps[m] == reps[n])
  }

  /** checkENodeEq: everything but the arguments. */
  predicate SameHead(a: Expr, b: Expr, reps: seq<nat>) {
    match (a, b)
    case (Null, Null) => true
    case (Op(t, x), Op(u, y)) => t == u && |x| == |y|
    case (Use(t, m, x), Use(u, n, y)) => t == u && |x| == |y| && SameRef(m, n, reps)
    case _ => false
  }

  function Args(e: Expr): seq<Expr> {
    match e
    case Null => []
    case Op(_, args) => args
    case Use(_, _, args) => args
  }

  predicate TreeEq(a: Expr, b: Expr, reps: seq<nat>)
    decreases a
  {
    && SameHead(a, b, reps)
    && match a {
      case Null => true
      case Op(_, args) => ArgsEq(args, Args(b), reps)
      case Use(_, _, args) => ArgsEq(args, Args(b), reps)
    }
  }

  predicate ArgsEq(a: seq<Expr>, b: seq<Expr>, reps: seq<nat>)
    decreases a
  {
    |a| == |b| && forall i :: 0 <= i < |a| ==> TreeEq(a[i], b[i], reps)
  }

  function Size(e: Expr): nat
    decreases e
  {
    match e
    case Null => 1
    case Op(_, args) => 1 + SizeAll(args)
    case Use(_, _, args) => 1 + SizeAll(args)
  }

  function SizeAll(es: seq<Expr>): nat
    decreases es
  {
    if es == [] then 0 else SizeAll(es[..|es| - 1]) + Size(es[|es| - 1])
  }

  datatype Pair = Pair(a: Expr, b: Expr)

  function SizePairs(s: seq<Pair>): nat
    decreases |s|
  {
    if s == [] then 0 else SizePairs(s[..|s| - 1]) + Size(s[|s| - 1].a)
  }

  ghost predicate AllEq(s: seq<Pair>, reps: seq<nat>) {
    forall i :: 0 <= i < |s| ==> TreeEq(s[i].a, s[i].b, reps)
  }

  /** checkTreeEq: an explicit stack of pairs still to compare. */
  method CheckTreeEq(a: Expr, b: Expr, reps: seq<nat>) returns (eq: bool)
    ensures eq <==> TreeEq(a, b, reps)
  {
    var s := [Pair(a, b)];
    while s != []
      invariant AllEq(s, reps) <==> TreeEq(a, b, reps)
      decreases SizePairs(s)
    {
      var top := s[|s| - 1];
      var rest := s[..|s| - 1];
      var same := SameHead(top.a, top.b, reps);
      if !same {
        assert !TreeEq(top.a, top.b, reps);
        return false;
      }
      var more := PushArgs(rest, Args(top.a), Args(top.b), reps);
      assert AllEq(s, reps) <==> AllEq(rest, reps) && TreeEq(top.a, top.b, reps);
      s := more;
    }
    return true;
  }

  lemma PushPair(s: seq<Pair>, p: Pair, reps: seq<nat>)
    ensures SizePairs(s + [p]) == SizePairs(s) + Size(p.a)
    ensures AllEq(s + [p], reps) <==> AllEq(s, reps) && TreeEq(p.a, p.b, reps)
  {
    var r := s + [p];
    assert r[..|s|] == s && r[|s|] == p;
    if AllEq(r, reps) {
      forall i | 0 <= i < |s| ensures TreeEq(s[i].a, s[i].b, reps) {
        assert r[i] == s[i];
      }
    }
  }

  method PushArgs(s: seq<Pair>, x: seq<Expr>, y: seq<Expr>, ghost reps: seq<nat>) returns (r: seq<Pair>)
    requires |x| == |y|
    ensures SizePairs(r) == SizePairs(s) + SizeAll(x)
    ensures AllEq(r, reps) <==> AllEq(s, reps) && ArgsEq(x, y, reps)
  {
    r := s;
    for i := 0 to |x|
      invariant SizePairs(r) == SizePairs(s) + SizeAll(x[..i])
      invariant AllEq(r, reps) <==> AllEq(s, reps) && forall j :: 0 <= j < i ==> TreeEq(x[j], y[j], reps)
    {
      assert x[..i + 1][..i] == x[..i];
      PushPair(r, Pair(x[i], y[i]), reps);
      r := r + [Pair(x[i], y[i])];
    }
    assert x[..|x|] == x;
  }
}
