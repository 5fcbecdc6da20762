/** Replacing merged nodes keeps every remaining value (src/commonExpr.cpp,
    ExpTree::replace and the second half of graph::commonExpr). */
module CommonReplace {
  import opened CommonExpr
  import opened CommonMatch
  import opened CommonExact
  import opened CommonMerge

  function Target(alias: map<nat, nat>, n: nat): nat {
    if n in alias then alias[n] else n
  }

  function Replace(e: Expr, alias: map<nat, nat>): Expr
    decreases e
  {
    match e
    case Null => Null
    case Op(t, args) => Op(t, ReplaceAll(args, alias))
    case Use(t, n, args) => Use(t, Target(alias, n), ReplaceAll(args, alias))
  }

  function ReplaceAll(es: seq<Expr>, alias: map<nat, nat>): (r: seq<Expr>)
    ensures |r| == |es|
    decreases es
  {
    if es == [] then [] else [Replace(es[0], alias)] + ReplaceAll(es[1..], alias)
  }

  /** Removed nodes are left alone; in all others right sides, left sides and reset trees are
      rewritten. */
  function ReplaceGraph(g: Graph, alias: map<nat, nat>): (r: Graph)
    ensures |r| == |g|
  {
    seq(|g|, n requires 0 <= n < |g| =>
      if n in alias then g[n]
      else g[n].(trees := ReplaceAll(g[n].trees, alias), sides := ReplaceAll(g[n].sides, alias)))
  }

  /** The remaining nodes hold what their new trees compute. */
  ghost predicate SolvesRest(sem: Sem, g: Graph, alias: map<nat, nat>, st: Store) {
    forall n: nat :: n < |g| && g[n].Computed() && n !in alias ==>
      st(n) == sem.node(EvalAll(sem, ReplaceAll(g[n].trees, alias), st))
  }

  /** Every node below n, and every one with a value of its own, has its old value at the node
      that stands for it. */
  ghost predicate ServedBelow(g: Graph, alias: map<nat, nat>, st: Store, st2: Store, n: nat) {
    forall m: nat :: m < |g| && (m < n || !g[m].Computed()) ==> st2(Target(alias, m)) == st(m)
  }

  lemma {:induction false} ReplaceMeans(sem: Sem, g: Graph, e: Expr, alias: map<nat, nat>, st: Store, st2: Store,
                                        n: nat)
    requires RefsBelow(g, e, n) && ServedBelow(g, alias, st, st2, n)
    ensures Eval(sem, Replace(e, alias), st2) == Eval(sem, e, st)
    decreases e
  {
    match e {
      case Null =>
      case Op(_, args) => ReplaceAllMeans(sem, g, args, alias, st, st2, n);
      case Use(_, m, args) =>
        assert st2(Target(alias, m)) == st(m);
        ReplaceAllMeans(sem, g, args, alias, st, st2, n);
    }
  }

  lemma {:induction false} ReplaceAllMeans(sem: Sem, g: Graph, es: seq<Expr>, alias: map<nat, nat>, st: Store,
                                           st2: Store, n: nat)
    requires AllRefsBelow(g, es, n) && ServedBelow(g, alias, st, st2, n)
    ensures EvalAll(sem, ReplaceAll(es, alias), st2) == EvalAll(sem, es, st)
    decreases es
  {
    if es != [] {
      ReplaceMeans(sem, g, es[0], alias, st, st2, n);
      assert AllRefsBelow(g, es[1..], n);
      ReplaceAllMeans(sem, g, es[1..], alias, st, st2, n);
      var r := ReplaceAll(es, alias);
      assert r[0] == Replace(es[0], alias) && r[1..] == ReplaceAll(es[1..], alias);
    }
  }

  /** Targets stay: no replaced node stands for another one. */
  ghost predicate AliasFlat(g: Graph, alias: map<nat, nat>) {
    forall m: nat :: m in alias ==> alias[m] < m < |g| && alias[m] !in alias
  }

  ghost predicate AliasComputed(g: Graph, alias: map<nat, nat>) {
    forall m: nat :: m in alias ==> m < |g| && alias[m] < |g| && g[m].Computed() && g[alias[m]].Computed()
  }

  /** In every evaluation a replaced node has the value of its target. */
  ghost predicate AliasAgrees(g: Graph, alias: map<nat, nat>) {
    forall m: nat :: m in alias ==> SameValue(g, m, alias[m])
  }

  ghost predicate AliasSound(g: Graph, alias: map<nat, nat>) {
    AliasFlat(g, alias) && AliasComputed(g, alias) && AliasAgrees(g, alias)
  }

  ghost predicate SameSources(g: Graph, st: Store, st2: Store) {
    forall m: nat :: m < |g| && !g[m].Computed() ==> st2(m) == st(m)
  }

  /** Node by node, in order. */
  lemma {:induction false} ServedUpTo(sem: Sem, g: Graph, alias: map<nat, nat>, st: Store, st2: Store, n: nat)
    requires Topological(g) && AliasSound(g, alias) && n <= |g|
    requires Solves(sem, g, st) && SolvesRest(sem, g, alias, st2) && SameSources(g, st, st2)
    ensures ServedBelow(g, alias, st, st2, n)
  {
    if n == 0 {
      forall m: nat | m < |g| && !g[m].Computed() ensures st2(Target(alias, m)) == st(m) {
        assert m !in alias;
      }
    } else {
      ServedUpTo(sem, g, alias, st, st2, n - 1);
      var k := n - 1;
      if g[k].Computed() {
        if k in alias {
          var u := alias[k];
          assert u < k && u !in alias && SameValue(g, k, u);
          assert st2(Target(alias, u)) == st(u);
        } else {
          ReplaceAllMeans(sem, g, g[k].trees, alias, st, st2, k);
        }
      }
    }
  }

  /** What remains computes what it did: nodes keep their values, and so do all trees. */
  ghost predicate Survives(sem: Sem, g: Graph, alias: map<nat, nat>, st: Store, st2: Store) {
    forall n: nat :: n < |g| && n !in alias ==>
      var node := ReplaceGraph(g, alias)[n];
      && st2(n) == st(n) && EvalAll(sem, node.trees, st2) == EvalAll(sem, g[n].trees, st)
      && EvalAll(sem, node.sides, st2) == EvalAll(sem, g[n].sides, st)
  }

  /** Replacing merged nodes by their representatives keeps the value of every remaining
      node, and what every remaining tree computes. */
  lemma SurvivorsKeepValues(sem: Sem, g: Graph, alias: map<nat, nat>, st: Store, st2: Store)
    requires Topological(g) && AliasSound(g, alias)
    requires Solves(sem, g, st) && SolvesRest(sem, g, alias, st2) && SameSources(g, st, st2)
    ensures Survives(sem, g, alias, st, st2)
  {
    ServedUpTo(sem, g, alias, st, st2, |g|);
    forall n: nat | n < |g| && n !in alias
      ensures st2(n) == st(n)
      ensures EvalAll(sem, ReplaceGraph(g, alias)[n].trees, st2) == EvalAll(sem, g[n].trees, st)
      ensures EvalAll(sem, ReplaceGraph(g, alias)[n].sides, st2) == EvalAll(sem, g[n].sides, st)
    {
      assert st2(Target(alias, n)) == st(n);
      RefsInGraph(g, n);
      ReplaceAllMeans(sem, g, g[n].trees, alias, st, st2, |g|);
      ReplaceAllMeans(sem, g, g[n].sides, alias, st, st2, |g|);
    }
  }

  /** The old values still fit the new trees. */
  lemma OldValuesFit(sem: Sem, g: Graph, alias: map<nat, nat>, st: Store)
    requires Topological(g) && AliasSound(g, alias) && Solves(sem, g, st)
    ensures SolvesRest(sem, g, alias, st)
  {
    forall n: nat | n < |g| && g[n].Computed() && n !in alias
      ensures st(n) == sem.node(EvalAll(sem, ReplaceAll(g[n].trees, alias), st))
    {
      assert ServedBelow(g, alias, st, st, n);
      ReplaceAllMeans(sem, g, g[n].trees, alias, st, st, n);
    }
  }

  /** No tree refers to a removed node any more. */
  lemma {:induction false} NoDeadReference(g: Graph, alias: map<nat, nat>, es: seq<Expr>, m: nat)
    requires AliasFlat(g, alias) && m in alias
    ensures !AnyRefersTo(ReplaceAll(es, alias), m)
    decreases es
  {
    if es != [] {
      NoDeadReference(g, alias, es[1..], m);
      NoDeadReferenceIn(g, alias, es[0], m);
      var r := ReplaceAll(es, alias);
      forall i | 0 <= i < |r| ensures !RefersTo(r[i], m) {
        if i > 0 {
          assert r[i] == ReplaceAll(es[1..], alias)[i - 1];
        }
      }
    }
  }

  lemma {:induction false} NoDeadReferenceIn(g: Graph, alias: map<nat, nat>, e: Expr, m: nat)
    requires AliasFlat(g, alias) && m in alias
    ensures !RefersTo(Replace(e, alias), m)
    decreases e
  {
    match e {
      case Null =>
      case Op(_, args) => NoDeadReference(g, alias, args, m);
      case Use(_, n, args) =>
        NoDeadReference(g, alias, args, m);
    }
  }

  // ----- which replacements the loops decide on

  ghost predicate AllMatched(g: Graph, alias: map<nat, nat>) {
    forall m: nat :: m in alias ==> Matches(g, m, alias[m])
  }

  lemma DecidedMatched(g: Graph, groups: map<nat, seq<nat>>, alias: map<nat, nat>)
    requires AliasIs(g, groups, groups.Keys, alias)
    ensures AllMatched(g, alias)
  {
    forall m: nat | m in alias ensures Matches(g, m, alias[m]) {
      assert Replaces(g, groups, alias[m], m);
    }
  }

  /** Targets represent themselves, and a node that matched does not. */
  lemma MatchedIsFlat(g: Graph, alias: map<nat, nat>)
    requires AllMatched(g, alias)
    ensures AliasFlat(g, alias)
  {
    forall m: nat | m in alias ensures alias[m] < m < |g| && alias[m] !in alias {
      var u := alias[m];
      MatchIsEarlier(g, m, u);
      MatchedIsRep(g, m, u, |g|);
      if u in alias {
        MatchedIsNotRep(g, u, alias[u]);
      }
    }
  }

  lemma MatchedIsNotRep(g: Graph, m: nat, u: nat)
    requires Matches(g, m, u)
    ensures Reps(g, |g|)[m] != m
  {
    ChosenMatches(g, m);
    RepsAt(g, m, |g|);
  }

  /** In a clean graph only computed nodes are replaced, by nodes of their value. */
  lemma CleanIsSound(g: Graph, alias: map<nat, nat>)
    requires Clean(g) && AllMatched(g, alias)
    ensures AliasAgrees(g, alias)
  {
    MatchesAgreeIff(g);
  }

  /** Comparing without keys finds each replaced node equal to its target. */
  ghost predicate AliasCanon(g: Graph, alias: map<nat, nat>)
    requires AliasFlat(g, alias)
  {
    forall m: nat :: m in alias ==> Canon(g)[m] == Canon(g)[alias[m]]
  }

  /** Replacements are right if and only if comparing all computed nodes without keys finds
      them too; one that involves a node with a value of its own never is. */
  lemma AliasAgreesIff(g: Graph, alias: map<nat, nat>)
    requires Topological(g) && AliasFlat(g, alias)
    ensures AliasAgrees(g, alias) <==> AliasCanon(g, alias)
    ensures AliasAgrees(g, alias) ==> AliasComputed(g, alias)
  {
    forall m: nat | m in alias ensures SameValue(g, m, alias[m]) <==> Canon(g)[m] == Canon(g)[alias[m]] {
      SameValueIff(g, m, alias[m]);
    }
    forall m: nat | m in alias && SameValue(g, m, alias[m]) ensures g[m].Computed() && g[alias[m]].Computed() {
      if !g[m].Computed() || !g[alias[m]].Computed() {
        ForeignIsDifferent(g, m, alias[m]);
      }
    }
  }

  /** Two mergeable nodes hash to the id of m, which compares equal to the first node of a group
      worth merging. */
  ghost predicate Taken(g: Graph, groups: map<nat, seq<nat>>, m: nat) {
    m < |g| && Slot(g, g[m].key, |g|) > 1 && exists u: nat :: Replaces(g, groups, u, m)
  }

  /** When an output, the next value of a register or any other node that is not up for merging
      is removed. */
  lemma RemovedIff(g: Graph, groups: map<nat, seq<nat>>, alias: map<nat, nat>, m: nat)
    requires AliasIs(g, groups, groups.Keys, alias) && m < |g| && !g[m].Mergeable()
    ensures m in alias <==> Taken(g, groups, m)
  {
    if m in alias {
      assert Replaces(g, groups, alias[m], m);
    }
  }

  /** Replacing keeps the meaning of the graph: the old values fit, and any values that fit
      are the old ones. */
  ghost predicate KeepsValues(g: Graph, alias: map<nat, nat>) {
    && (forall sem: Sem, st: Store :: Solves(sem, g, st) ==> SolvesRest(sem, g, alias, st))
    && (forall sem: Sem, st: Store, st2: Store ::
          Solves(sem, g, st) && SolvesRest(sem, g, alias, st2) && SameSources(g, st, st2) ==>
            Survives(sem, g, alias, st, st2))
  }

  lemma SoundKeepsValues(g: Graph, alias: map<nat, nat>)
    requires Topological(g) && AliasSound(g, alias)
    ensures KeepsValues(g, alias)
  {
    forall sem: Sem, st: Store | Solves(sem, g, st) ensures SolvesRest(sem, g, alias, st) {
      OldValuesFit(sem, g, alias, st);
    }
    forall sem: Sem, st: Store, st2: Store |
      Solves(sem, g, st) && SolvesRest(sem, g, alias, st2) && SameSources(g, st, st2)
      ensures Survives(sem, g, alias, st, st2)
    {
      SurvivorsKeepValues(sem, g, alias, st, st2);
    }
  }

  /** Matching, merging and replacing. */
  method MergeCommon(g: Graph) returns (g2: Graph, alias: map<nat, nat>, ghost groups: map<nat, seq<nat>>)
    requires Topological(g)
    ensures g2 == ReplaceGraph(g, alias) && AliasFlat(g, alias)
    ensures GroupsOk(g, Reps(g, |g|), groups) && AliasIs(g, groups, groups.Keys, alias)
    ensures forall n: nat, m :: n < |g| && n !in alias && m in alias ==>
              !AnyRefersTo(g2[n].trees, m) && !AnyRefersTo(g2[n].sides, m)
    ensures forall m: nat :: m < |g| && !g[m].Mergeable() ==> (m in alias <==> Taken(g, groups, m))
    ensures AliasAgrees(g, alias) <==> AliasCanon(g, alias)
    ensures AliasAgrees(g, alias) ==> KeepsValues(g, alias)
    ensures Clean(g) ==> AliasAgrees(g, alias)
  {
    var reps, matched := MatchNodes(g);
    alias := DecideMerge(g, matched);
    groups, g2 := matched, ReplaceGraph(g, alias);
    DecidedMatched(g, groups, alias);
    MatchedIsFlat(g, alias);
    AliasAgreesIff(g, alias);
    if Clean(g) {
      CleanIsSound(g, alias);
    }
    if AliasAgrees(g, alias) {
      SoundKeepsValues(g, alias);
    }
    forall n: nat, m | n < |g| && n !in alias && m in alias
      ensures !AnyRefersTo(g2[n].trees, m) && !AnyRefersTo(g2[n].sides, m)
    {
      NoDeadReference(g, alias, g[n].trees, m);
      NoDeadReference(g, alias, g[n].sides, m);
    }
    forall m: nat | m < |g| && !g[m].Mergeable() ensures m in alias <==> Taken(g, groups, m) {
      RemovedIff(g, groups, alias, m);
    }
  }
}
