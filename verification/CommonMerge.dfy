/** The matching loop, and which groups of equal nodes are merged (src/commonExpr.cpp,
    graph::commonExpr). */
module CommonMerge {
  import opened CommonExpr
  import opened CommonMatch

  method Compare(g: Graph, m: nat, n: nat, reps: seq<nat>) returns (eq: bool)
    requires m < |g| && n < |g|
    ensures eq <==> NodeEq(g, m, n, reps)
  {
    var a, b := g[m].trees, g[n].trees;
    if |a| != |b| {
      return false;
    }
    for i := 0 to |a|
      invariant forall j :: 0 <= j < i ==> TreeEq(a[j], b[j], reps)
    {
      var same := CheckTreeEq(a[i], b[i], reps);
      if !same {
        return false;
      }
    }
    return true;
  }

  // ----- the loop

  /** The nodes compared equal to u, itself first. */
  ghost predicate GroupOk(g: Graph, n: nat, u: nat, grp: seq<nat>)
    requires n <= |g|
  {
    && |grp| > 0 && grp[0] == u && (forall i, j :: 0 <= i < j < |grp| ==> grp[i] < grp[j])
    && (forall m: nat :: m in grp <==> m == u || (m < n && Matches(g, m, u)))
  }

  ghost predicate GroupsOk(g: Graph, reps: seq<nat>, groups: map<nat, seq<nat>>)
    requires |reps| <= |g|
  {
    && (forall u: nat :: u in groups <==> u < |reps| && reps[u] == u)
    && (forall u :: u in groups ==> GroupOk(g, |reps|, u, groups[u]))
  }

  function Listed(uniques: map<nat, seq<nat>>, key: nat): seq<nat> {
    if key in uniques then uniques[key] else []
  }

  /** u is a candidate of the shared slot `key`. */
  ghost predicate IsUnique(g: Graph, reps: seq<nat>, key: nat, u: nat)
    requires |reps| <= |g|
  {
    u < |reps| && g[u].key == key && Slot(g, key, |g|) > 1 && reps[u] == u
  }

  /** Lists are in processing order. */
  ghost predicate Ascending(us: seq<nat>) {
    forall i, j :: 0 <= i < j < |us| ==> us[i] < us[j]
  }

  ghost predicate ListOk(g: Graph, reps: seq<nat>, key: nat, us: seq<nat>)
    requires |reps| <= |g|
  {
    Ascending(us) && forall u: nat :: u in us <==> IsUnique(g, reps, key, u)
  }

  ghost predicate UniquesOk(g: Graph, reps: seq<nat>, uniques: map<nat, seq<nat>>)
    requires |reps| <= |g|
  {
    forall key: nat :: ListOk(g, reps, key, Listed(uniques, key))
  }

  ghost predicate MatchInv(g: Graph, reps: seq<nat>, groups: map<nat, seq<nat>>, uniques: map<nat, seq<nat>>) {
    |reps| <= |g| && reps == Reps(g, |reps|) && GroupsOk(g, reps, groups) && UniquesOk(g, reps, uniques)
  }

  lemma NothingMatched(g: Graph)
    ensures MatchInv(g, [], map[], map[])
  {
    forall key: nat ensures ListOk(g, [], key, Listed(map[], key)) {
    }
  }

  /** The first half of commonExpr. Every node gets the last earlier node of its slot that it
      compares equal to, or itself; the groups hold every match. */
  method MatchNodes(g: Graph) returns (reps: seq<nat>, groups: map<nat, seq<nat>>)
    ensures reps == Reps(g, |g|) && GroupsOk(g, reps, groups)
    ensures Agree(g, reps) <==> LastMatchesClean(g, |g|)
    ensures MatchesAgree(g) <==> Clean(g)
  {
    reps, groups := [], map[];
    var uniques: map<nat, seq<nat>> := map[];
    NothingMatched(g);
    while |reps| < |g|
      invariant MatchInv(g, reps, groups, uniques)
      decreases |g| - |reps|
    {
      reps, groups, uniques := MatchOne(g, reps, groups, uniques);
    }
    AgreeIff(g);
    MatchesAgreeIff(g);
  }

  method MatchOne(g: Graph, reps0: seq<nat>, groups0: map<nat, seq<nat>>, uniques0: map<nat, seq<nat>>)
    returns (reps: seq<nat>, groups: map<nat, seq<nat>>, uniques: map<nat, seq<nat>>)
    requires |reps0| < |g| && MatchInv(g, reps0, groups0, uniques0)
    ensures |reps| == |reps0| + 1 && MatchInv(g, reps, groups, uniques)
  {
    var n := |reps0|;
    var key := g[n].key;
    assert ListOk(g, reps0, key, Listed(uniques0, key));
    if Slot(g, key, |g|) <= 1 {
      reps, groups, uniques := reps0 + [n], groups0[n := [n]], uniques0;
    } else {
      ListedInGroups(g, reps0, groups0, Listed(uniques0, key));
      var rep, joined := TryAll(g, reps0, groups0, Listed(uniques0, key));
      reps, groups, uniques := reps0 + [rep], joined, uniques0;
      if rep == n {
        groups, uniques := joined[n := [n]], uniques0[key := Listed(uniques0, key) + [n]];
      }
    }
    assert reps[n] == LastMatch(g, reps0, n) && reps == Reps(g, n + 1);
    GroupsGrow(g, reps0, reps[n], groups0, groups);
    UniquesGrow(g, reps0, reps[n], uniques0, uniques);
  }

  lemma ListedInGroups(g: Graph, reps: seq<nat>, groups: map<nat, seq<nat>>, us: seq<nat>)
    requires |reps| < |g| && ListOk(g, reps, g[|reps|].key, us) && GroupsOk(g, reps, groups)
    ensures forall u :: u in us ==> u in groups
  {
    forall u | u in us ensures u in groups {
      assert IsUnique(g, reps, g[|reps|].key, u);
    }
  }

  /** What comparing with `seen` did to the groups, and the last of them that matched. */
  ghost predicate Tried(g: Graph, reps: seq<nat>, seen: seq<nat>, rep: nat,
                        groups0: map<nat, seq<nat>>, groups: map<nat, seq<nat>>)
    requires |reps| < |g|
  {
    && groups.Keys == groups0.Keys && (rep == |reps| || (rep in seen && Guard(g, reps, rep)))
    && (forall u :: u in seen && Guard(g, reps, u) ==> rep != |reps| && u <= rep)
    && (forall u :: u in groups0 ==>
          groups[u] == groups0[u] + if u in seen && Guard(g, reps, u) then [|reps|] else [])
  }

  /** Every candidate is compared; each match joins the group, and the last one stays. */
  method TryAll(g: Graph, reps: seq<nat>, groups0: map<nat, seq<nat>>, us: seq<nat>)
    returns (rep: nat, groups: map<nat, seq<nat>>)
    requires |reps| < |g| && Slot(g, g[|reps|].key, |g|) > 1 && ListOk(g, reps, g[|reps|].key, us)
    requires forall u :: u in us ==> u in groups0
    ensures rep == LastMatch(g, reps, |reps|) && groups.Keys == groups0.Keys
    ensures forall u :: u in groups0 ==> groups[u] == groups0[u] + if Guard(g, reps, u) then [|reps|] else []
  {
    rep, groups := |reps|, groups0;
    for i := 0 to |us|
      invariant Tried(g, reps, us[..i], rep, groups0, groups)
    {
      assert us[i] in us && us[..i + 1] == us[..i] + [us[i]];
      assert IsUnique(g, reps, g[|reps|].key, us[i]);
      rep, groups := TryOne(g, reps, us[..i], us[i], rep, groups0, groups);
    }
    TriedAll(g, reps, us, rep, groups0, groups);
  }

  method TryOne(g: Graph, reps: seq<nat>, ghost seen: seq<nat>, u: nat, rep0: nat,
                ghost start: map<nat, seq<nat>>, groups0: map<nat, seq<nat>>)
    returns (rep: nat, groups: map<nat, seq<nat>>)
    requires |reps| < |g| && IsUnique(g, reps, g[|reps|].key, u) && u in start && forall v :: v in seen ==> v < u
    requires Tried(g, reps, seen, rep0, start, groups0)
    ensures Tried(g, reps, seen + [u], rep, start, groups)
  {
    rep, groups := rep0, groups0;
    TriedOne(g, reps, seen, u, rep0, start, groups0);
    var eq := Compare(g, |reps|, u, reps);
    if eq {
      rep, groups := u, groups0[u := groups0[u] + [|reps|]];
    }
  }

  lemma TriedOne(g: Graph, reps: seq<nat>, seen: seq<nat>, u: nat, rep: nat, groups0: map<nat, seq<nat>>,
                 groups: map<nat, seq<nat>>)
    requires |reps| < |g| && u in groups0 && (forall v :: v in seen ==> v < u)
             && Tried(g, reps, seen, rep, groups0, groups)
    ensures if Guard(g, reps, u) then Tried(g, reps, seen + [u], u, groups0, groups[u := groups[u] + [|reps|]])
            else Tried(g, reps, seen + [u], rep, groups0, groups)
  {
    assert u !in seen;
    forall v ensures v in seen + [u] <==> v in seen || v == u {
    }
  }

  lemma TriedAll(g: Graph, reps: seq<nat>, us: seq<nat>, rep: nat, groups0: map<nat, seq<nat>>, groups: map<nat,
                 seq<nat>>)
    requires |reps| < |g| && ListOk(g, reps, g[|reps|].key, us) && Tried(g, reps, us[..|us|], rep, groups0, groups)
    ensures rep == LastMatch(g, reps, |reps|)
    ensures forall u :: u in groups0 ==> groups[u] == groups0[u] + if Guard(g, reps, u) then [|reps|] else []
  {
    assert us[..|us|] == us;
    forall u: nat | Guard(g, reps, u) ensures u in us {
      assert IsUnique(g, reps, g[|reps|].key, u);
    }
  }

  lemma GroupsGrow(g: Graph, reps: seq<nat>, rep: nat, groups0: map<nat, seq<nat>>, groups: map<nat, seq<nat>>)
    requires |reps| < |g| && reps == Reps(g, |reps|) && GroupsOk(g, reps, groups0)
    requires forall u: nat :: u in groups <==> u in groups0 || (u == |reps| && rep == |reps|)
    requires forall u :: u in groups0 ==> groups[u] == groups0[u] + if Guard(g, reps, u) then [|reps|] else []
    requires rep <= |reps| && (|reps| in groups ==> groups[|reps|] == [|reps|])
    ensures GroupsOk(g, reps + [rep], groups)
  {
    var n := |reps|;
    forall u | u in groups ensures GroupOk(g, n + 1, u, groups[u]) {
      if u < n {
        assert GroupOk(g, n, u, groups0[u]) && (Guard(g, reps, u) <==> Matches(g, n, u));
        GroupGrows(g, n, u, groups0[u]);
      } else {
        NewGroup(g, n);
      }
    }
  }

  lemma NewGroup(g: Graph, n: nat)
    requires n < |g|
    ensures GroupOk(g, n + 1, n, [n])
  {
    forall m: nat | m < n + 1 ensures !Matches(g, m, n) {
    }
  }

  lemma GroupGrows(g: Graph, n: nat, u: nat, grp: seq<nat>)
    requires u < n < |g| && GroupOk(g, n, u, grp)
    ensures GroupOk(g, n + 1, u, grp + if Matches(g, n, u) then [n] else [])
  {
    var more := grp + if Matches(g, n, u) then [n] else [];
    forall i | 0 <= i < |grp| ensures grp[i] < n {
      assert grp[i] in grp;
    }
    forall m: nat ensures m in more <==> m == u || (m < n + 1 && Matches(g, m, u)) {
      assert m in more <==> m in grp || (m == n && Matches(g, n, u));
    }
  }

  lemma UniquesGrow(g: Graph, reps: seq<nat>, rep: nat, uniques0: map<nat, seq<nat>>, uniques: map<nat, seq<nat>>)
    requires |reps| < |g| && UniquesOk(g, reps, uniques0)
    requires var key := g[|reps|].key;
             uniques == if rep == |reps| && Slot(g, key, |g|) > 1 then uniques0[key := Listed(uniques0, key) + [|reps|]]
                        else uniques0
    ensures UniquesOk(g, reps + [rep], uniques)
  {
    forall key: nat ensures ListOk(g, reps + [rep], key, Listed(uniques, key)) {
      ListGrows(g, reps, rep, key, Listed(uniques0, key));
    }
  }

  lemma ListGrows(g: Graph, reps: seq<nat>, rep: nat, key: nat, us: seq<nat>)
    requires |reps| < |g| && ListOk(g, reps, key, us)
    ensures var n := |reps|;
            ListOk(g, reps + [rep], key, us + if rep == n && g[n].key == key && Slot(g, key, |g|) > 1 then [n] else [])
  {
    var n := |reps|;
    var more := us + if rep == n && g[n].key == key && Slot(g, key, |g|) > 1 then [n] else [];
    forall i | 0 <= i < |us| ensures us[i] < n {
      assert us[i] in us && IsUnique(g, reps, key, us[i]);
    }
    forall u: nat ensures u in more <==> IsUnique(g, reps + [rep], key, u) {
      assert u < n ==> (reps + [rep])[u] == reps[u];
      assert u in us <==> IsUnique(g, reps, key, u);
    }
  }

  // ----- which groups are merged

  ghost predicate Worth(g: Graph, grp: seq<nat>)
    requires |grp| > 0 && forall i :: 0 <= i < |grp| ==> grp[i] < |g|
  {
    |grp| >= 5 || g[grp[0]].width > 256 || exists i :: 0 <= i < |grp| && g[grp[i]].readers > 1
  }

  method Worthwhile(g: Graph, grp: seq<nat>) returns (merge: bool)
    requires |grp| > 0 && forall i :: 0 <= i < |grp| ==> grp[i] < |g|
    ensures merge <==> Worth(g, grp)
  {
    merge := |grp| >= 5 || g[grp[0]].width > 256;
    if !merge {
      for i := 0 to |grp|
        invariant merge <==> exists j :: 0 <= j < i && g[grp[j]].readers > 1
      {
        if g[grp[i]].readers > 1 {
          merge := true;
        }
      }
    }
  }

  ghost predicate InGraph(g: Graph, grp: seq<nat>) {
    |grp| > 0 && forall i :: 0 <= i < |grp| ==> grp[i] < |g|
  }

  /** m is to be replaced by u: u's group is worth merging, and m compares equal to u. */
  ghost predicate Replaces(g: Graph, groups: map<nat, seq<nat>>, u: nat, m: nat) {
    u in groups && InGraph(g, groups[u]) && Worth(g, groups[u]) && Matches(g, m, u)
  }

  lemma GroupInGraph(g: Graph, groups: map<nat, seq<nat>>, u: nat)
    requires GroupsOk(g, Reps(g, |g|), groups) && u in groups
    ensures InGraph(g, groups[u])
  {
    assert GroupOk(g, |g|, u, groups[u]) && u < |g|;
    OneInGraph(g, u, groups[u]);
  }

  lemma OneInGraph(g: Graph, u: nat, grp: seq<nat>)
    requires u < |g| && GroupOk(g, |g|, u, grp)
    ensures InGraph(g, grp)
  {
    forall i | 0 <= i < |grp| ensures grp[i] < |g| {
      assert grp[i] in grp;
    }
  }

  /** Exactly the nodes to be replaced, each by a node it compares equal to. */
  ghost predicate AliasIs(g: Graph, groups: map<nat, seq<nat>>, done: set<nat>, alias: map<nat, nat>) {
    && (forall m: nat :: m in alias ==> alias[m] in done && Replaces(g, groups, alias[m], m))
    && (forall m: nat, u: nat :: u in done && Replaces(g, groups, u, m) ==> m in alias)
  }

  /** Groups are taken in any order: a node that matched two of them may go to either. */
  method DecideMerge(g: Graph, groups: map<nat, seq<nat>>) returns (alias: map<nat, nat>)
    requires GroupsOk(g, Reps(g, |g|), groups)
    ensures AliasIs(g, groups, groups.Keys, alias)
  {
    alias := map[];
    var todo := groups.Keys;
    while todo != {}
      invariant todo <= groups.Keys && AliasIs(g, groups, groups.Keys - todo, alias)
      decreases todo
    {
      var u :| u in todo;
      GroupInGraph(g, groups, u);
      TailMatches(g, groups, u);
      ghost var done := groups.Keys - todo;
      alias := AliasGroup(g, groups, u, done, alias);
      todo := todo - {u};
      assert groups.Keys - todo == done + {u};
    }
    assert groups.Keys - {} == groups.Keys;
  }

  method AliasGroup(g: Graph, groups: map<nat, seq<nat>>, u: nat, ghost done: set<nat>, alias0: map<nat, nat>)
    returns (alias: map<nat, nat>)
    requires u in groups && InGraph(g, groups[u]) && AliasIs(g, groups, done, alias0)
    requires forall m: nat :: m in groups[u][1..] <==> Matches(g, m, u)
    ensures AliasIs(g, groups, done + {u}, alias)
  {
    var merge := Worthwhile(g, groups[u]);
    if merge {
      alias := AddAll(groups[u], u, alias0);
      AliasGrows(g, groups, u, done, groups[u][1..], alias0, alias);
    } else {
      alias := alias0;
      assert forall m: nat :: !Replaces(g, groups, u, m);
    }
  }

  method AddAll(grp: seq<nat>, u: nat, alias0: map<nat, nat>) returns (alias: map<nat, nat>)
    requires |grp| > 0
    ensures forall m :: m in alias <==> m in alias0 || m in grp[1..]
    ensures forall m :: m in alias ==> alias[m] == if m in grp[1..] then u else alias0[m]
  {
    alias := alias0;
    for i := 1 to |grp|
      invariant forall m :: m in alias <==> m in alias0 || m in grp[1..i]
      invariant forall m :: m in alias ==> alias[m] == if m in grp[1..i] then u else alias0[m]
    {
      assert grp[1..i + 1] == grp[1..i] + [grp[i]];
      alias := alias[grp[i] := u];
    }
    assert grp[1..|grp|] == grp[1..];
  }

  lemma AliasGrows(g: Graph, groups: map<nat, seq<nat>>, u: nat, done: set<nat>, tail: seq<nat>,
                   alias0: map<nat, nat>, alias: map<nat, nat>)
    requires AliasIs(g, groups, done, alias0)
    requires forall m: nat :: m in tail <==> Replaces(g, groups, u, m)
    requires forall m :: m in alias <==> m in alias0 || m in tail
    requires forall m :: m in alias ==> alias[m] == if m in tail then u else alias0[m]
    ensures AliasIs(g, groups, done + {u}, alias)
  {
  }

  lemma TailMatches(g: Graph, groups: map<nat, seq<nat>>, u: nat)
    requires GroupsOk(g, Reps(g, |g|), groups) && u in groups
    ensures |groups[u]| > 0 && forall m: nat :: m in groups[u][1..] <==> Matches(g, m, u)
  {
    GroupTail(g, u, groups[u]);
  }

  lemma GroupTail(g: Graph, u: nat, grp: seq<nat>)
    requires GroupOk(g, |g|, u, grp)
    ensures forall m: nat :: m in grp[1..] <==> Matches(g, m, u)
  {
    forall m: nat ensures m in grp[1..] <==> Matches(g, m, u) {
      assert m in grp <==> m == u || (m < |g| && Matches(g, m, u));
      Tail(grp, m);
      MatchIsEarlier(g, m, u);
    }
  }

  lemma MatchIsEarlier(g: Graph, m: nat, u: nat)
    ensures Matches(g, m, u) ==> u < m < |g|
  {
  }

  lemma Tail(grp: seq<nat>, m: nat)
    requires |grp| > 0 && forall i, j :: 0 <= i < j < |grp| ==> grp[i] < grp[j]
    ensures m in grp[1..] <==> m in grp && m != grp[0]
  {
    assert grp == [grp[0]] + grp[1..];
  }
}
