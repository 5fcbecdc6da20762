/** Which nodes the matching loop finds equal, and when that is right (src/commonExpr.cpp,
    checkNodeEq and the first half of graph::commonExpr). */
module CommonMatch {
  import opened CommonExpr

  /** How many mergeable nodes below n share the key. */
  function Slot(g: Graph, key: nat, n: nat): nat
    requires n <= |g|
    decreases n
  {
    if n == 0 then 0 else Slot(g, key, n - 1) + if g[n - 1].Mergeable() && g[n - 1].key == key then 1 else 0
  }

  predicate NodeEq(g: Graph, m: nat, n: nat, reps: seq<nat>)
    requires m < |g| && n < |g|
  {
    ArgsEq(g[m].trees, g[n].trees, reps)
  }

  // ----- equality of trees is an equivalence, and sound

  lemma {:induction false} TreeEqTrans(a: Expr, b: Expr, c: Expr, reps: seq<nat>)
    requires TreeEq(a, b, reps) && TreeEq(a, c, reps)
    ensures TreeEq(c, b, reps)
    decreases a
  {
    match a {
      case Null =>
      case Op(_, args) => ArgsEqTrans(args, Args(b), Args(c), reps);
      case Use(_, _, args) => ArgsEqTrans(args, Args(b), Args(c), reps);
    }
  }

  lemma {:induction false} ArgsEqTrans(a: seq<Expr>, b: seq<Expr>, c: seq<Expr>, reps: seq<nat>)
    requires ArgsEq(a, b, reps) && ArgsEq(a, c, reps)
    ensures ArgsEq(c, b, reps)
    decreases a
  {
    forall i | 0 <= i < |c| ensures TreeEq(c[i], b[i], reps) {
      TreeEqTrans(a[i], b[i], c[i], reps);
    }
  }

  /** In one evaluation, nodes hold the value of their representative. */
  ghost predicate AgreeIn(reps: seq<nat>, st: Store) {
    forall m :: 0 <= m < |reps| ==> st(m) == st(reps[m])
  }

  lemma {:induction false} TreeEqMeans(sem: Sem, a: Expr, b: Expr, reps: seq<nat>, st: Store)
    requires TreeEq(a, b, reps) && AgreeIn(reps, st)
    ensures Eval(sem, a, st) == Eval(sem, b, st)
    decreases a
  {
    match a {
      case Null =>
      case Op(_, args) => ArgsEqMeans(sem, args, Args(b), reps, st);
      case Use(_, m, args) =>
        assert m == b.node || st(m) == st(reps[m]) == st(b.node);
        ArgsEqMeans(sem, args, Args(b), reps, st);
    }
  }

  lemma {:induction false} ArgsEqMeans(sem: Sem, a: seq<Expr>, b: seq<Expr>, reps: seq<nat>, st: Store)
    requires ArgsEq(a, b, reps) && AgreeIn(reps, st)
    ensures EvalAll(sem, a, st) == EvalAll(sem, b, st)
    decreases a
  {
    if a != [] {
      TreeEqMeans(sem, a[0], b[0], reps, st);
      assert ArgsEq(a[1..], b[1..], reps);
      ArgsEqMeans(sem, a[1..], b[1..], reps, st);
    }
  }

  // ----- the loop as a function of the graph

  /** The test of the matching loop: node |reps|, whose predecessors have representatives
      `reps`, is compared with u and found equal. */
  predicate Guard(g: Graph, reps: seq<nat>, u: nat)
    requires |reps| < |g|
  {
    var n := |reps|;
    u < n && Slot(g, g[n].key, |g|) > 1 && g[u].key == g[n].key && reps[u] == u && NodeEq(g, n, u, reps)
  }

  /** The last node below k that passes, or the node itself. */
  function LastMatch(g: Graph, reps: seq<nat>, k: nat): (u: nat)
    requires |reps| < |g| && k <= |reps|
    ensures u == |reps| || (u < k && Guard(g, reps, u))
    ensures forall v: nat :: v < k && (u == |reps| || u < v) ==> !Guard(g, reps, v)
  {
    if k == 0 then |reps| else if Guard(g, reps, k - 1) then k - 1 else LastMatch(g, reps, k - 1)
  }

  /** The representatives the loop gives to the first n nodes. */
  function Reps(g: Graph, n: nat): (r: seq<nat>)
    requires n <= |g|
    ensures |r| == n && forall m: nat :: m < n ==> r[m] <= m
  {
    if n == 0 then [] else
      var r := Reps(g, n - 1);
      r + [LastMatch(g, r, n - 1)]
  }

  /** Node n compares equal to the earlier node u of its slot. */
  predicate Matches(g: Graph, n: nat, u: nat) {
    n < |g| && Guard(g, Reps(g, n), u)
  }

  /** No node with a value of its own compares equal to another node of a shared slot, in
      either direction. */
  ghost predicate Clean(g: Graph) {
    forall n: nat, u: nat :: Matches(g, n, u) ==> g[n].Computed() && g[u].Computed()
  }

  lemma {:induction false} RepsPrefix(g: Graph, m: nat, n: nat)
    requires m <= n <= |g|
    ensures Reps(g, n)[..m] == Reps(g, m)
    decreases n
  {
    if m < n {
      RepsPrefix(g, m, n - 1);
      assert Reps(g, n)[..m] == Reps(g, n - 1)[..m];
    }
  }

  /** The last match of m. */
  function Chosen(g: Graph, m: nat): nat
    requires m < |g|
  {
    LastMatch(g, Reps(g, m), m)
  }

  lemma ChosenMatches(g: Graph, m: nat)
    requires m < |g|
    ensures Chosen(g, m) <= m && (Chosen(g, m) != m ==> Matches(g, m, Chosen(g, m)))
    ensures forall u: nat :: Matches(g, m, u) ==> Chosen(g, m) != m && u <= Chosen(g, m)
  {
  }

  /** What the loop decided about m is the last match of m. */
  lemma RepsAt(g: Graph, m: nat, n: nat)
    requires m < n <= |g|
    ensures Reps(g, n)[m] == Chosen(g, m)
  {
    RepsPrefix(g, m + 1, n);
    assert Reps(g, n)[m] == Reps(g, n)[..m + 1][m];
  }

  /** A node that another one matches represents itself. */
  lemma MatchedIsRep(g: Graph, m: nat, u: nat, n: nat)
    requires Matches(g, m, u) && m <= n <= |g|
    ensures Reps(g, n)[u] == u
  {
    RepsPrefix(g, m, n);
    assert Reps(g, n)[u] == Reps(g, n)[..m][u];
  }

  /** Representatives represent themselves. */
  lemma RepsIdempotent(g: Graph, m: nat, n: nat)
    requires m < n <= |g|
    ensures Reps(g, n)[Reps(g, n)[m]] == Reps(g, n)[m]
  {
    RepsAt(g, m, n);
    ChosenMatches(g, m);
    if Reps(g, n)[m] != m {
      MatchedIsRep(g, m, Reps(g, n)[m], n);
    }
  }

  // ----- values

  ghost predicate Agree(g: Graph, reps: seq<nat>) {
    forall sem: Sem, st: Store :: Solves(sem, g, st) ==> AgreeIn(reps, st)
  }

  /** In every evaluation the two nodes have one value. */
  ghost predicate SameValue(g: Graph, m: nat, n: nat) {
    forall sem: Sem, st: Store :: Solves(sem, g, st) ==> st(m) == st(n)
  }

  /** Equal trees of computed nodes give equal values. */
  lemma EqualNodes(g: Graph, reps: seq<nat>, n: nat, u: nat)
    requires Agree(g, reps) && n < |g| && u < |g| && g[n].Computed() && g[u].Computed() && NodeEq(g, n, u, reps)
    ensures SameValue(g, n, u)
  {
    forall sem: Sem, st: Store | Solves(sem, g, st) ensures st(n) == st(u) {
      assert AgreeIn(reps, st);
      ArgsEqMeans(sem, g[n].trees, g[u].trees, reps, st);
    }
  }

  /** Some evaluation tells a node with a value of its own from any other node. */
  lemma ForeignIsDifferent(g: Graph, m: nat, n: nat)
    requires m < |g| && n < |g| && m != n && (!g[m].Computed() || !g[n].Computed())
    ensures !SameValue(g, m, n)
  {
    var own := if !g[m].Computed() then m else n;
    var sem := Sem((t, a) => 0, (t, v, a) => 0, a => 0);
    var st: Store := (k: nat) => if k == own then 1 else 0;
    assert Solves(sem, g, st) && st(m) != st(n);
  }

  lemma AgreeGrows(g: Graph, reps: seq<nat>, u: nat)
    requires Agree(g, reps) && |reps| < |g| && (u == |reps| || SameValue(g, |reps|, u))
    ensures Agree(g, reps + [u])
  {
    forall sem: Sem, st: Store | Solves(sem, g, st) ensures AgreeIn(reps + [u], st) {
      assert AgreeIn(reps, st);
      forall m | 0 <= m < |reps + [u]| ensures st(m) == st((reps + [u])[m]) {
      }
    }
  }

  lemma AgreeAt(g: Graph, reps: seq<nat>, m: nat)
    requires Agree(g, reps) && m < |reps|
    ensures SameValue(g, m, reps[m])
  {
    forall sem: Sem, st: Store | Solves(sem, g, st) ensures st(m) == st(reps[m]) {
      assert AgreeIn(reps, st);
    }
  }

  /** The last match of m, if any, joins two computed nodes. */
  ghost predicate ChosenClean(g: Graph, m: nat)
    requires m < |g|
  {
    var u := Chosen(g, m);
    u == m || (u < m && g[m].Computed() && g[u].Computed())
  }

  ghost predicate LastMatchesClean(g: Graph, n: nat)
    requires n <= |g|
  {
    forall m: nat :: m < n ==> ChosenClean(g, m)
  }

  lemma {:induction false} CleanAgrees(g: Graph, n: nat)
    requires n <= |g| && LastMatchesClean(g, n)
    ensures Agree(g, Reps(g, n))
  {
    if n > 0 {
      CleanAgrees(g, n - 1);
      assert ChosenClean(g, n - 1);
      ChosenMatches(g, n - 1);
      AgreesOneMore(g, Reps(g, n - 1), Chosen(g, n - 1));
    }
  }

  lemma AgreesOneMore(g: Graph, reps: seq<nat>, u: nat)
    requires |reps| < |g| && Agree(g, reps)
    requires u == |reps| || (Guard(g, reps, u) && g[|reps|].Computed() && g[u].Computed())
    ensures Agree(g, reps + [u])
  {
    if u != |reps| {
      EqualNodes(g, reps, |reps|, u);
    }
    AgreeGrows(g, reps, u);
  }

  /** The representatives have the values of their nodes, in every evaluation, if and only if
      no last match involves a node with a value of its own. */
  lemma AgreeIff(g: Graph)
    ensures Agree(g, Reps(g, |g|)) <==> LastMatchesClean(g, |g|)
  {
    if LastMatchesClean(g, |g|) {
      CleanAgrees(g, |g|);
    }
    if Agree(g, Reps(g, |g|)) {
      forall m: nat | m < |g| ensures ChosenClean(g, m) {
        RepsAt(g, m, |g|);
        ChosenMatches(g, m);
        AgreeAt(g, Reps(g, |g|), m);
        if Chosen(g, m) != m && (!g[m].Computed() || !g[Chosen(g, m)].Computed()) {
          ForeignIsDifferent(g, m, Chosen(g, m));
        }
      }
    }
  }

  /** Every match joins nodes of one value. */
  ghost predicate MatchesAgree(g: Graph) {
    forall n: nat, u: nat :: Matches(g, n, u) ==> SameValue(g, n, u)
  }

  /** All matches join nodes of one value if and only if no node with a value of its own
      takes part in one. */
  lemma MatchesAgreeIff(g: Graph)
    ensures MatchesAgree(g) <==> Clean(g)
  {
    if Clean(g) {
      forall n: nat, u: nat | Matches(g, n, u) ensures SameValue(g, n, u) {
        CleanBelow(g, n);
        CleanAgrees(g, n);
        EqualNodes(g, Reps(g, n), n, u);
      }
    }
    if MatchesAgree(g) {
      forall n: nat, u: nat | Matches(g, n, u) ensures g[n].Computed() && g[u].Computed() {
        if !g[n].Computed() || !g[u].Computed() {
          ForeignIsDifferent(g, n, u);
        }
      }
    }
  }

  lemma CleanBelow(g: Graph, n: nat)
    requires Clean(g) && n <= |g|
    ensures LastMatchesClean(g, n)
  {
    forall m: nat | m < n ensures ChosenClean(g, m) {
      ChosenMatches(g, m);
    }
  }

  // ----- at most one match

  /** Nodes with values of their own represent only themselves. */
  ghost predicate OwnOnly(g: Graph, reps: seq<nat>) {
    |reps| <= |g| && forall m: nat :: m < |reps| && reps[m] != m ==>
      g[m].Computed() && reps[m] < |g| && g[reps[m]].Computed()
  }

  lemma CleanOwnOnly(g: Graph, n: nat)
    requires n <= |g| && LastMatchesClean(g, n)
    ensures OwnOnly(g, Reps(g, n))
  {
    forall m: nat | m < n && Reps(g, n)[m] != m ensures g[m].Computed() && g[Reps(g, n)[m]].Computed() {
      RepsAt(g, m, n);
      assert ChosenClean(g, m);
    }
  }

  /** Processed nodes keep their verdict: what is equal now was equal when u was new. */
  lemma {:induction false} TreeEqThen(g: Graph, a: Expr, b: Expr, u: nat, v: nat, reps: seq<nat>)
    requires OwnOnly(g, reps) && v < u <= |reps| && RefsBelow(g, a, u) && RefsBelow(g, b, v) && TreeEq(a, b, reps)
    ensures TreeEq(a, b, reps[..u])
    decreases a
  {
    match a {
      case Null =>
      case Op(_, args) => ArgsEqThen(g, args, Args(b), u, v, reps);
      case Use(_, m, args) =>
        var n := b.node;
        assert SameRef(m, n, reps[..u]) by {
          if m != n {
            assert reps[m] == reps[n];
            assert g[m].Computed() && g[n].Computed();
          }
        }
        ArgsEqThen(g, args, Args(b), u, v, reps);
    }
  }

  lemma {:induction false} ArgsEqThen(g: Graph, a: seq<Expr>, b: seq<Expr>, u: nat, v: nat, reps: seq<nat>)
    requires OwnOnly(g, reps) && v < u <= |reps| && AllRefsBelow(g, a, u) && AllRefsBelow(g, b, v) && ArgsEq(a, b, reps)
    ensures ArgsEq(a, b, reps[..u])
    decreases a
  {
    forall i | 0 <= i < |a| ensures TreeEq(a[i], b[i], reps[..u]) {
      TreeEqThen(g, a[i], b[i], u, v, reps);
    }
  }

  /** A node compares equal to at most one earlier node that is no source, if last matches are right. */
  lemma AtMostOne(g: Graph, n: nat, u: nat, v: nat)
    requires Topological(g) && Matches(g, n, u) && Matches(g, n, v)
    requires LastMatchesClean(g, n) && !g[u].kind.Source? && !g[v].kind.Source?
    ensures u == v
  {
    if u < v {
      NotBoth(g, n, u, v);
    } else if v < u {
      NotBoth(g, n, v, u);
    }
  }

  lemma NotBoth(g: Graph, n: nat, u: nat, v: nat)
    requires Topological(g) && Matches(g, n, u) && u < v < |g|
    requires LastMatchesClean(g, n) && !g[u].kind.Source? && !g[v].kind.Source?
    ensures !Matches(g, n, v)
  {
    if Matches(g, n, v) {
      var reps := Reps(g, n);
      CleanOwnOnly(g, n);
      ArgsEqTrans(g[n].trees, g[u].trees, g[v].trees, reps);
      ArgsEqThen(g, g[v].trees, g[u].trees, v, u, reps);
      RepsPrefix(g, v, n);
      assert Reps(g, v)[u] == reps[..v][u];
      assert Matches(g, v, u);
      ChosenMatches(g, v);
      RepsAt(g, v, n);
    }
  }

  // ----- which nodes can take part

  /** A tree that is just another node. */
  predicate Bare(es: seq<Expr>) {
    |es| == 1 && es[0].Use? && es[0].args == []
  }

  /** Nodes as earlier passes leave them: ids differ; a source has no tree or refers to its next
      value; a mergeable node has a tree, and alias analysis has removed bare references. */
  ghost predicate AliasFree(g: Graph) {
    && (forall m: nat, n: nat :: m < n < |g| && !g[m].Mergeable() && !g[n].Mergeable() ==> g[m].key != g[n].key)
    && (forall n: nat :: n < |g| && g[n].kind.Source? ==> g[n].trees == [] || Bare(g[n].trees))
    && (forall n: nat :: n < |g| && g[n].Mergeable() ==> g[n].trees != [] && !Bare(g[n].trees))
  }

  lemma BareLike(a: seq<Expr>, b: seq<Expr>, reps: seq<nat>)
    requires ArgsEq(a, b, reps)
    ensures (a == [] <==> b == []) && (Bare(a) <==> Bare(b))
  {
    if |a| == 1 {
      assert TreeEq(a[0], b[0], reps);
    }
  }

  /** Then inputs and register sources match nothing. */
  lemma SourcesStayOut(g: Graph, n: nat, u: nat)
    requires AliasFree(g) && Matches(g, n, u)
    ensures !g[n].kind.Source? && !g[u].kind.Source? && (g[n].Mergeable() || g[u].Mergeable())
  {
    BareLike(g[n].trees, g[u].trees, Reps(g, n));
  }

  /** The last match is the only one, so both conditions are one: no array takes part in a
      match. */
  lemma OnlyArraysDisturb(g: Graph)
    requires Topological(g) && AliasFree(g)
    ensures Clean(g) <==> LastMatchesClean(g, |g|)
    ensures Clean(g) <==> forall n: nat, u: nat :: Matches(g, n, u) ==> !g[n].kind.Array? && !g[u].kind.Array?
  {
    if Clean(g) {
      CleanBelow(g, |g|);
    }
    forall n: nat, u: nat | Matches(g, n, u) ensures !g[n].kind.Source? && !g[u].kind.Source? {
      SourcesStayOut(g, n, u);
    }
    if LastMatchesClean(g, |g|) {
      forall n: nat, u: nat | Matches(g, n, u) ensures g[n].Computed() && g[u].Computed() {
        ChosenMatches(g, n);
        SourcesStayOut(g, n, u);
        SourcesStayOut(g, n, Chosen(g, n));
        AtMostOne(g, n, u, Chosen(g, n));
        assert ChosenClean(g, n);
      }
    }
  }
}
