/** Which nodes of one value the hashed loop finds, and which it misses (src/commonExpr.cpp,
    graph::commonExpr). */
module CommonFound {
  import opened CommonExpr
  import opened CommonMatch
  import opened CommonKeys
  import opened CommonExact

  /** The graph as the loop sees it: an output or the next value of a register is not hashed,
      so whoever reads it reads something unknown. */
  function Seen(g: Graph): (r: Graph)
    ensures |r| == |g|
  {
    seq(|g|, n requires 0 <= n < |g| => if g[n].kind.Fixed? then g[n].(kind := Array) else g[n])
  }

  lemma {:induction false} SeenRefs(g: Graph, es: seq<Expr>, n: nat)
    requires AllRefsBelow(g, es, n)
    ensures AllRefsBelow(Seen(g), es, n)
    decreases es
  {
    forall i | 0 <= i < |es| ensures RefsBelow(Seen(g), es[i], n) {
      assert RefsBelow(g, es[i], n);
      match es[i] {
        case Null =>
        case Op(_, args) => SeenRefs(g, args, n);
        case Use(_, _, args) => SeenRefs(g, args, n);
      }
    }
  }

  lemma SeenTopological(g: Graph)
    requires Topological(g)
    ensures Topological(Seen(g)) && Simple(Seen(g))
  {
    var r := Seen(g);
    forall n: nat | n < |r| ensures AllRefsBelow(r, r[n].trees, Limit(r, n)) && AllRefsBelow(r, r[n].sides, |r|) {
      SeenRefs(g, g[n].trees, Limit(g, n));
      SeenRefs(g, g[n].sides, |g|);
    }
  }

  lemma {:induction false} SeenSlot(g: Graph, key: nat, n: nat)
    requires n <= |g|
    ensures Slot(Seen(g), key, n) == Slot(g, key, n)
  {
    if n > 0 {
      SeenSlot(g, key, n - 1);
    }
  }

  lemma SeenGuard(g: Graph, reps: seq<nat>, u: nat)
    requires |reps| < |g|
    ensures Guard(Seen(g), reps, u) <==> Guard(g, reps, u)
  {
    SeenSlot(g, g[|reps|].key, |g|);
  }

  lemma {:induction false} SeenLast(g: Graph, reps: seq<nat>, k: nat)
    requires |reps| < |g| && k <= |reps|
    ensures LastMatch(Seen(g), reps, k) == LastMatch(g, reps, k)
  {
    if k > 0 {
      SeenGuard(g, reps, k - 1);
      SeenLast(g, reps, k - 1);
    }
  }

  /** The loop does not look at what it does not see. */
  lemma {:induction false} SeenReps(g: Graph, n: nat)
    requires n <= |g|
    ensures Reps(Seen(g), n) == Reps(g, n)
  {
    if n > 0 {
      SeenReps(g, n - 1);
      SeenLast(g, Reps(g, n - 1), n - 1);
    }
  }

  lemma SeenChosen(g: Graph, m: nat)
    requires m < |g|
    ensures Chosen(Seen(g), m) == Chosen(g, m)
  {
    SeenReps(g, m);
    SeenLast(g, Reps(g, m), m);
  }

  lemma SeenFollow(g: Graph)
    ensures KeysFollow(Seen(g)) <==> KeysFollow(g)
  {
    SeenReps(g, |g|);
    forall m: nat, n: nat ensures EqualMergeable(Seen(g), m, n) <==> EqualMergeable(g, m, n) {
    }
  }

  // ----- what is found

  /** Every last match joins two mergeable nodes. */
  ghost predicate LastMatchesMergeable(g: Graph) {
    forall m: nat :: m < |g| ==> ChosenMergeable(g, m)
  }

  ghost predicate ChosenMergeable(g: Graph, m: nat)
    requires m < |g|
  {
    var u := Chosen(g, m);
    u == m || (u < m && g[m].Mergeable() && g[u].Mergeable())
  }

  lemma SeenClean(g: Graph)
    ensures LastMatchesClean(Seen(g), |g|) <==> LastMatchesMergeable(g)
  {
    forall m: nat | m < |g| ensures ChosenClean(Seen(g), m) <==> ChosenMergeable(g, m) {
      SeenChosen(g, m);
      ChosenMatches(g, m);
    }
  }

  /** Hashing loses nothing: the loop finds what comparing all mergeable nodes with each other
      would find if and only if every last match joins two mergeable nodes and equal ones
      share a key. */
  lemma HashingIsExact(g: Graph)
    requires Topological(g)
    ensures Reps(g, |g|) == Canon(Seen(g)) <==> LastMatchesMergeable(g) && KeysFollow(g)
  {
    SeenTopological(g);
    SeenReps(g, |g|);
    SeenClean(g);
    SeenFollow(g);
    SimpleCanonIff(Seen(g));
  }

  /** Then two nodes get one representative if and only if they have one value in every
      evaluation, whatever outputs and next values of registers hold. */
  lemma FoundIff(g: Graph, m: nat, n: nat)
    requires Topological(g) && LastMatchesMergeable(g) && KeysFollow(g) && m < |g| && n < |g|
    ensures Reps(g, |g|)[m] == Reps(g, |g|)[n] <==> SameValue(Seen(g), m, n)
  {
    SeenTopological(g);
    SeenReps(g, |g|);
    SeenClean(g);
    SeenFollow(g);
    RepsAreExact(Seen(g), m, n);
  }

  lemma FoundIsRight(g: Graph, m: nat, n: nat)
    requires SameValue(Seen(g), m, n)
    ensures SameValue(g, m, n)
  {
    forall sem: Sem, st: Store | Solves(sem, g, st) ensures st(m) == st(n) {
      assert Solves(sem, Seen(g), st);
    }
  }

  // ----- what is missed

  /** Nodes of one value that the loop tells apart, since the equality runs through a node it
      does not see. */
  lemma MissedIff(g: Graph, m: nat, n: nat)
    requires Topological(g) && LastMatchesMergeable(g) && KeysFollow(g) && m < |g| && n < |g|
    ensures SameValue(g, m, n) && Reps(g, |g|)[m] != Reps(g, |g|)[n]
            <==> Canon(g)[m] == Canon(g)[n] && Canon(Seen(g))[m] != Canon(Seen(g))[n]
  {
    SameValueIff(g, m, n);
    FoundIff(g, m, n);
    SeenTopological(g);
    SameValueIff(Seen(g), m, n);
  }

  /** No mergeable node reads an output or the next value of a register. */
  ghost predicate ReadsNoFixed(g: Graph) {
    forall n: nat, m: nat :: n < |g| && g[n].Mergeable() && m < |g| && g[m].kind.Fixed? ==> !AnyRefersTo(g[n].trees, m)
  }

  /** The values with fixed nodes below k put to what their trees compute. */
  function Settle(sem: Sem, g: Graph, st: Store, k: nat): Store
    requires k <= |g|
  {
    if k == 0 then st
    else
      var s := Settle(sem, g, st, k - 1);
      if g[k - 1].kind.Fixed? then Put(s, k - 1, sem.node(EvalAll(sem, g[k - 1].trees, s))) else s
  }

  function Put(st: Store, n: nat, v: int): Store {
    (m: nat) => if m == n then v else st(m)
  }

  lemma {:induction false} SettleOther(sem: Sem, g: Graph, st: Store, k: nat, m: nat)
    requires k <= |g| && (m >= k || !g[m].kind.Fixed?)
    ensures Settle(sem, g, st, k)(m) == st(m)
  {
    if k > 0 {
      SettleOther(sem, g, st, k - 1, m);
    }
  }

  lemma {:induction false} SettleOnce(sem: Sem, g: Graph, st: Store, j: nat, k: nat, m: nat)
    requires m < j <= k <= |g|
    ensures Settle(sem, g, st, k)(m) == Settle(sem, g, st, j)(m)
    decreases k
  {
    if j < k {
      SettleOnce(sem, g, st, j, k - 1, m);
    }
  }

  lemma {:induction false} EvalSame(sem: Sem, e: Expr, s1: Store, s2: Store)
    requires forall m: nat :: RefersTo(e, m) ==> s1(m) == s2(m)
    ensures Eval(sem, e, s1) == Eval(sem, e, s2)
    decreases e
  {
    match e {
      case Null =>
      case Op(_, args) => EvalAllSame(sem, args, s1, s2);
      case Use(_, n, args) =>
        assert RefersTo(e, n);
        EvalAllSame(sem, args, s1, s2);
    }
  }

  lemma {:induction false} EvalAllSame(sem: Sem, es: seq<Expr>, s1: Store, s2: Store)
    requires forall m: nat :: AnyRefersTo(es, m) ==> s1(m) == s2(m)
    ensures EvalAll(sem, es, s1) == EvalAll(sem, es, s2)
    decreases es
  {
    if es != [] {
      forall m: nat | RefersTo(es[0], m) ensures s1(m) == s2(m) {
        assert AnyRefersTo(es, m);
      }
      forall m: nat | AnyRefersTo(es[1..], m) ensures s1(m) == s2(m) {
        var i :| 0 <= i < |es[1..]| && RefersTo(es[1..][i], m);
        assert RefersTo(es[i + 1], m);
      }
      EvalSame(sem, es[0], s1, s2);
      EvalAllSame(sem, es[1..], s1, s2);
    }
  }

  lemma {:induction false} ReferredBelow(g: Graph, es: seq<Expr>, n: nat, m: nat)
    requires AllRefsBelow(g, es, n) && AnyRefersTo(es, m)
    ensures m < |g| && (m < n || !g[m].Computed())
    decreases es
  {
    var i :| 0 <= i < |es| && RefersTo(es[i], m);
    assert RefsBelow(g, es[i], n);
    match es[i] {
      case Op(_, args) => ReferredBelow(g, args, n, m);
      case Use(_, k, args) =>
        if k != m {
          ReferredBelow(g, args, n, m);
        }
    }
  }

  lemma SettledFixed(sem: Sem, g: Graph, st: Store, n: nat)
    requires Topological(g) && n < |g| && g[n].kind.Fixed?
    ensures var s := Settle(sem, g, st, |g|);
            s(n) == sem.node(EvalAll(sem, g[n].trees, s))
  {
    var s, now := Settle(sem, g, st, |g|), Settle(sem, g, st, n);
    SettleOnce(sem, g, st, n + 1, |g|, n);
    forall m: nat | AnyRefersTo(g[n].trees, m) ensures s(m) == now(m) {
      ReferredBelow(g, g[n].trees, n, m);
      if m < n {
        SettleOnce(sem, g, st, n, |g|, m);
      } else {
        SettleOther(sem, g, st, |g|, m);
        SettleOther(sem, g, st, n, m);
      }
    }
    EvalAllSame(sem, g[n].trees, s, now);
  }

  lemma SettledPlain(sem: Sem, g: Graph, st: Store, n: nat)
    requires Topological(g) && ReadsNoFixed(g) && Solves(sem, Seen(g), st) && n < |g| && g[n].Mergeable()
    ensures var s := Settle(sem, g, st, |g|);
            s(n) == sem.node(EvalAll(sem, g[n].trees, s))
  {
    var s := Settle(sem, g, st, |g|);
    SettleOther(sem, g, st, |g|, n);
    forall m: nat | AnyRefersTo(g[n].trees, m) ensures s(m) == st(m) {
      ReferredBelow(g, g[n].trees, n, m);
      SettleOther(sem, g, st, |g|, m);
    }
    EvalAllSame(sem, g[n].trees, s, st);
    assert Seen(g)[n] == g[n];
  }

  lemma SettledSolves(sem: Sem, g: Graph, st: Store)
    requires Topological(g) && ReadsNoFixed(g) && Solves(sem, Seen(g), st)
    ensures Solves(sem, g, Settle(sem, g, st, |g|))
  {
    var s := Settle(sem, g, st, |g|);
    forall n: nat | n < |g| && g[n].Computed() ensures s(n) == sem.node(EvalAll(sem, g[n].trees, s)) {
      if g[n].Mergeable() {
        SettledPlain(sem, g, st, n);
      } else {
        SettledFixed(sem, g, st, n);
      }
    }
  }

  /** If no mergeable node reads an output or the next value of a register, nothing is missed. */
  lemma NothingMissed(g: Graph, m: nat, n: nat)
    requires Topological(g) && ReadsNoFixed(g) && m < |g| && n < |g| && !g[m].kind.Fixed? && !g[n].kind.Fixed?
    ensures SameValue(Seen(g), m, n) <==> SameValue(g, m, n)
  {
    if SameValue(Seen(g), m, n) {
      FoundIsRight(g, m, n);
    }
    if SameValue(g, m, n) {
      forall sem: Sem, st: Store | Solves(sem, Seen(g), st) ensures st(m) == st(n) {
        SettledSolves(sem, g, st);
        SettleOther(sem, g, st, |g|, m);
        SettleOther(sem, g, st, |g|, n);
        assert Settle(sem, g, st, |g|)(m) == Settle(sem, g, st, |g|)(n);
      }
    }
  }
}
