/** The whole pass: keys, matching, merging and replacing (src/commonExpr.cpp,
    graph::commonExpr), in terms of values alone. */
module CommonPass {
  import opened CommonExpr
  import opened CommonMatch
  import opened CommonKeys
  import opened CommonExact
  import opened CommonFound
  import opened CommonMerge
  import opened CommonReplace

  /** Two nodes have one value in every evaluation, whatever outputs and next values of
      registers hold. */
  ghost predicate Same(g: Graph, m: nat, n: nat) {
    SameValue(Seen(g), m, n)
  }

  /** The nodes that are the same as u. */
  ghost function ValueClass(g: Graph, u: nat): set<nat> {
    set n: nat | n < |g| && Same(g, n, u)
  }

  ghost predicate IsFirst(g: Graph, u: nat) {
    u < |g| && forall n: nat :: n < u ==> !Same(g, n, u)
  }

  /** Five nodes or more, a wide one, or one with several readers. */
  ghost predicate WorthClass(g: Graph, u: nat, c: set<nat>) {
    u < |g| && (|c| >= 5 || g[u].width > 256 || exists n: nat :: n in c && n < |g| && g[n].readers > 1)
  }

  /** Only mergeable nodes match. */
  ghost predicate Proper(g: Graph) {
    forall n: nat, u: nat :: Matches(g, n, u) ==> g[n].Mergeable() && g[u].Mergeable()
  }

  /** ... and equal ones share a key. */
  ghost predicate Regular(g: Graph) {
    Topological(g) && Proper(g) && KeysFollow(g)
  }

  lemma ProperBelow(g: Graph)
    requires Proper(g)
    ensures LastMatchesMergeable(g) && Clean(g)
  {
    forall m: nat | m < |g| ensures ChosenMergeable(g, m) {
      ChosenMatches(g, m);
    }
  }

  lemma RepIffValue(g: Graph, m: nat, n: nat)
    requires Regular(g) && m < |g| && n < |g|
    ensures Chosen(g, m) == Chosen(g, n) <==> Same(g, m, n)
  {
    ProperBelow(g);
    FoundIff(g, m, n);
    RepsAt(g, m, |g|);
    RepsAt(g, n, |g|);
  }

  lemma MatchIffChosen(g: Graph, m: nat, u: nat)
    requires Regular(g) && m < |g|
    ensures Matches(g, m, u) <==> u < m && Chosen(g, m) == u
  {
    ChosenMatches(g, m);
    if Matches(g, m, u) {
      ProperBelow(g);
      CleanBelow(g, m);
      AtMostOne(g, m, u, Chosen(g, m));
    }
  }

  lemma FirstIffChosen(g: Graph, u: nat)
    requires Regular(g) && u < |g|
    ensures IsFirst(g, u) <==> Chosen(g, u) == u
  {
    ChosenMatches(g, u);
    var c := Chosen(g, u);
    RepsAt(g, u, |g|);
    RepsIdempotent(g, u, |g|);
    RepsAt(g, c, |g|);
    RepIffValue(g, c, u);
    forall n: nat | n < u && c == u ensures !Same(g, n, u) {
      ChosenMatches(g, n);
      RepIffValue(g, n, u);
    }
  }

  /** A node matches a first node if and only if it has its value. */
  lemma MatchIffValue(g: Graph, m: nat, u: nat)
    requires Regular(g) && m < |g| && IsFirst(g, u)
    ensures m == u || Matches(g, m, u) <==> Same(g, m, u)
  {
    FirstIffChosen(g, u);
    RepIffValue(g, m, u);
    MatchIffChosen(g, m, u);
    ChosenMatches(g, m);
  }

  ghost function Members(grp: seq<nat>): set<nat> {
    set n | n in grp
  }

  lemma GroupIsClass(g: Graph, u: nat, grp: seq<nat>)
    requires Regular(g) && IsFirst(g, u) && GroupOk(g, |g|, u, grp)
    ensures Members(grp) == ValueClass(g, u) && |grp| == |ValueClass(g, u)|
  {
    forall n: nat ensures n in grp <==> n in ValueClass(g, u) {
      assert n in grp <==> n == u || (n < |g| && Matches(g, n, u));
      if n < |g| {
        MatchIffValue(g, n, u);
      }
    }
    CountDistinct(grp);
  }

  lemma {:induction false} CountDistinct(grp: seq<nat>)
    requires Ascending(grp)
    ensures |Members(grp)| == |grp|
  {
    if grp != [] {
      var k := |grp| - 1;
      var rest := grp[..k];
      assert Ascending(rest);
      CountDistinct(rest);
      LastIsNew(grp);
      assert Members(grp) == Members(rest) + {grp[k]};
    }
  }

  lemma LastIsNew(grp: seq<nat>)
    requires grp != [] && Ascending(grp)
    ensures var k := |grp| - 1;
            grp[k] !in grp[..k] && forall n :: n in grp <==> n in grp[..k] || n == grp[k]
  {
    assert grp == grp[..|grp| - 1] + [grp[|grp| - 1]];
  }

  lemma WorthIffClass(g: Graph, u: nat, grp: seq<nat>)
    requires Regular(g) && IsFirst(g, u) && GroupOk(g, |g|, u, grp) && InGraph(g, grp)
    ensures Worth(g, grp) <==> WorthClass(g, u, ValueClass(g, u))
  {
    GroupIsClass(g, u, grp);
    var c := ValueClass(g, u);
    forall i | 0 <= i < |grp| ensures grp[i] in c {
      assert grp[i] in Members(grp);
    }
    if n: nat :| n in c && n < |g| && g[n].readers > 1 {
      assert n in Members(grp);
    }
  }

  /** m is merged into u: u is the first node of m's value, and the class is worth it. */
  ghost predicate MergesInto(g: Graph, m: nat, u: nat) {
    u < m < |g| && IsFirst(g, u) && Same(g, m, u) && WorthClass(g, u, ValueClass(g, u))
  }

  lemma ReplacesIff(g: Graph, groups: map<nat, seq<nat>>, m: nat, u: nat)
    requires Regular(g) && GroupsOk(g, Reps(g, |g|), groups)
    ensures Replaces(g, groups, u, m) <==> MergesInto(g, m, u)
  {
    if u < m < |g| {
      KeyIffFirst(g, groups, u);
      if u in groups {
        GroupInGraph(g, groups, u);
        WorthIffClass(g, u, groups[u]);
        MatchIffValue(g, m, u);
      }
    } else {
      MatchIsEarlier(g, m, u);
    }
  }

  lemma KeyIffFirst(g: Graph, groups: map<nat, seq<nat>>, u: nat)
    requires Regular(g) && GroupsOk(g, Reps(g, |g|), groups) && u < |g|
    ensures u in groups <==> IsFirst(g, u)
  {
    FirstIffChosen(g, u);
    RepsAt(g, u, |g|);
  }

  /** The alias map holds exactly the merges that the values call for. */
  ghost predicate AliasExact(g: Graph, alias: map<nat, nat>) {
    forall m: nat, u: nat :: (m in alias && alias[m] == u) <==> MergesInto(g, m, u)
  }

  lemma DecidedExact(g: Graph, groups: map<nat, seq<nat>>, alias: map<nat, nat>)
    requires Regular(g) && GroupsOk(g, Reps(g, |g|), groups) && AliasIs(g, groups, groups.Keys, alias)
    ensures AliasExact(g, alias)
  {
    forall m: nat, u: nat ensures (m in alias && alias[m] == u) <==> MergesInto(g, m, u) {
      ReplacesIff(g, groups, m, u);
      if m in alias {
        ReplacesIff(g, groups, m, alias[m]);
        if MergesInto(g, m, u) {
          OneTarget(g, m, u, alias[m]);
        }
      }
    }
  }

  lemma OneTarget(g: Graph, m: nat, u: nat, v: nat)
    requires MergesInto(g, m, u) && MergesInto(g, m, v)
    ensures u == v
  {
    assert Same(g, u, v) && Same(g, v, u);
  }

  /** commonExpr, keys included. Where only mergeable nodes match and no key is zero, it merges
      exactly the nodes of one value in classes worth merging, each into the first of its class;
      where replaced nodes have their targets' values, what remains computes what it did. */
  method CommonExprPass(h: nat -> nat, g0: Graph, ids: seq<nat>) returns (g: Graph, g2: Graph, alias: map<nat, nat>)
    requires Topological(g0) && |ids| == |g0|
    requires forall n: nat, i: nat :: n < |g0| && i < |g0[n].trees| ==> !g0[n].trees[i].Null?
    ensures |g| == |g0| && Hashed(h, ids, g) && forall n: nat :: n < |g| ==> g[n] == g0[n].(key := g[n].key)
    ensures g2 == ReplaceGraph(g, alias) && AliasFlat(g, alias)
    ensures AliasAgrees(g, alias) <==> AliasCanon(g, alias)
    ensures AliasAgrees(g, alias) ==> KeepsValues(g, alias)
    ensures Clean(g) ==> AliasAgrees(g, alias)
    ensures Proper(g) && NoZeroKey(g) ==> AliasExact(g, alias)
  {
    g := AssignKeys(h, g0, ids);
    forall n: nat | n < |g| ensures SameNode(g0[n], g[n]) {
    }
    SameTopological(g0, g);
    ghost var groups;
    g2, alias, groups := MergeCommon(g);
    if Proper(g) && NoZeroKey(g) {
      HashedKeysFollow(h, ids, g);
      DecidedExact(g, groups, alias);
    }
  }

  /** If besides no mergeable node reads an output or the next value of a register, the nodes it
      merges are all there are: mergeable nodes of one value have one target. */
  lemma NothingIsMissed(g: Graph, alias: map<nat, nat>, m: nat, u: nat)
    requires Regular(g) && ReadsNoFixed(g) && AliasExact(g, alias)
    requires m < |g| && u < m && g[m].Mergeable() && g[u].Mergeable() && SameValue(g, m, u)
    requires forall n: nat :: n < u && g[n].Mergeable() ==> !SameValue(g, n, u)
    ensures m in alias && alias[m] == u <==> WorthClass(g, u, ValueClass(g, u))
  {
    NothingMissed(g, m, u);
    forall n: nat | n < u ensures !Same(g, n, u) {
      if Same(g, n, u) {
        ClassIsMergeable(g, n, u);
        NothingMissed(g, n, u);
      }
    }
    assert (m in alias && alias[m] == u) <==> MergesInto(g, m, u);
  }

  lemma ClassIsMergeable(g: Graph, n: nat, u: nat)
    requires n < |g| && u < |g| && g[u].Mergeable() && Same(g, n, u)
    ensures g[n].Mergeable()
  {
    if !g[n].Mergeable() {
      ForeignIsDifferent(Seen(g), n, u);
    }
  }
}
