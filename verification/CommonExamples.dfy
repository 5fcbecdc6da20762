/** Graphs in which a hash key is the id of a node that is not up for merging
    (src/commonExpr.cpp, graph::commonExpr). */
module CommonExamples {
  import opened CommonExpr
  import opened CommonMatch
  import opened CommonKeys
  import opened CommonExact
  import opened CommonFound
  import opened CommonMerge
  import opened CommonReplace

  /** Tag 1 is a one-bit complement, operator number 25; tag 3 a one-bit conjunction, number 15. */
  function Tags(): nat -> nat {
    (t: nat) => if t == 1 then 25 else if t == 3 then 15 else 0
  }

  function Complement(n: nat): Expr {
    Op(1, [Use(0, n, [])])
  }

  lemma ComplementHash(k: Keying, n: nat)
    requires k.h(1) == 25 && n < |k.keys| && n < |k.ids|
    ensures HashSum(k, [Complement(n)]) == (3075 + k.Count(n)) % Word64
  {
    var e := Complement(n);
    var u := Use(0, n, []);
    assert HashTree(k, u, 25) == (3075 + k.Count(n)) % Word64;
    assert [u][..0] == [] && HashArgs(k, [u], 25) == HashArgs(k, [], HashTree(k, u, 25));
    assert HashTree(k, e, 0) == HashArgs(k, [u], 25);
    assert [e][..0] == [];
  }

  /** Every mergeable node reads another one, as the pass demands. */
  ghost predicate MergeableRead(g: Graph) {
    forall n: nat :: n < |g| && g[n].Mergeable() ==> exists m: nat :: AnyRefersTo(g[n].trees, m)
  }

  lemma ComplementReads(n: nat)
    ensures AnyRefersTo([Complement(n)], n) && !Bare([Complement(n)]) && Args(Complement(n)) == [Use(0, n, [])]
  {
    assert AnyRefersTo([Use(0, n, [])], n) by {
      assert RefersTo([Use(0, n, [])][0], n);
    }
    assert RefersTo([Complement(n)][0], n);
  }

  // ----- a node whose id is the key of two complements

  /** An input, two complements of it, and one more node with the same right side. */
  function Twins(kind: Kind, sides: seq<Expr>, key: nat): Graph {
    var t := [Complement(0)];
    [Node(Source, [], [], 1, 1, 2), Node(Plain, t, [], key, 1, 2), Node(Plain, t, [], key, 1, 2),
     Node(kind, t, sides, 3076, 1, 1)]
  }

  lemma TwinsTopological(kind: Kind, sides: seq<Expr>, key: nat)
    requires (kind.Array? || kind.Fixed?) && AllRefsBelow(Twins(kind, sides, key), sides, 4)
    ensures Topological(Twins(kind, sides, key)) && MergeableRead(Twins(kind, sides, key))
  {
    var g := Twins(kind, sides, key);
    ComplementReads(0);
    forall n: nat | 1 <= n < 4 ensures AllRefsBelow(g, g[n].trees, n) {
      assert AllRefsBelow(g, [Use(0, 0, [])], n);
    }
  }

  lemma TwinsAliasFree(kind: Kind, sides: seq<Expr>)
    requires kind.Array? || kind.Fixed?
    ensures AliasFree(Twins(kind, sides, 3076))
  {
    var g := Twins(kind, sides, 3076);
    assert !Bare([Complement(0)]);
    assert g[0].trees == [] && g[1].trees == g[2].trees == [Complement(0)];
    assert g[0].key != g[3].key;
  }

  /** Hashing gives the complements the key 25 * 123 + 1. */
  lemma TwinsKeys(kind: Kind, sides: seq<Expr>, g: Graph)
    requires |g| == 4 && Hashed(Tags(), [1, 2, 3, 3076], g) && (kind.Array? || kind.Fixed?)
    requires forall n: nat :: n < 4 ==> g[n] == Twins(kind, sides, 0)[n].(key := g[n].key)
    requires g[0].key == 1 && g[3].key == 3076
    ensures g == Twins(kind, sides, 3076)
  {
    var k := Keying(Tags(), Keys(g), [1, 2, 3, 3076]);
    assert HashedAt(Tags(), [1, 2, 3, 3076], g, 1) && HashedAt(Tags(), [1, 2, 3, 3076], g, 2);
    ComplementHash(k, 0);
    assert k.Count(0) == 1;
    assert g[1] == Twins(kind, sides, 0)[1].(key := 3076) && g[2] == Twins(kind, sides, 0)[2].(key := 3076);
  }

  lemma TwinsSlot(kind: Kind, sides: seq<Expr>)
    requires kind.Array? || kind.Fixed?
    ensures Slot(Twins(kind, sides, 3076), 3076, 4) == 2 && Slot(Twins(kind, sides, 3076), 1, 4) == 0
  {
    var g := Twins(kind, sides, 3076);
    assert Slot(g, 3076, 1) == 0 && Slot(g, 3076, 2) == 1 && Slot(g, 3076, 3) == 2;
    assert Slot(g, 1, 1) == 0 && Slot(g, 1, 2) == 0 && Slot(g, 1, 3) == 0;
  }

  lemma TwinsReps(kind: Kind, sides: seq<Expr>)
    requires kind.Array? || kind.Fixed?
    ensures Reps(Twins(kind, sides, 3076), 4) == [0, 1, 1, 1] && Matches(Twins(kind, sides, 3076), 3, 1)
  {
    var g := Twins(kind, sides, 3076);
    TwinsSlot(kind, sides);
    var t := [Complement(0)];
    forall reps: seq<nat> ensures ArgsEq(t, t, reps) {
      ArgsEqRefl(t, reps);
    }
    assert Reps(g, 1) == [0] by {
      assert Reps(g, 0) == [] && LastMatch(g, [], 0) == 0;
    }
    assert Reps(g, 2) == [0, 1] by {
      assert !Guard(g, [0], 0);
      assert LastMatch(g, [0], 1) == 1;
    }
    assert Reps(g, 3) == [0, 1, 1] by {
      assert Guard(g, [0, 1], 1);
      assert LastMatch(g, [0, 1], 2) == 1;
    }
    assert Guard(g, [0, 1, 1], 1) && !Guard(g, [0, 1, 1], 2);
    assert LastMatch(g, [0, 1, 1], 3) == 1;
  }

  lemma TwinsDecided(kind: Kind, sides: seq<Expr>, groups: map<nat, seq<nat>>, alias: map<nat, nat>)
    requires kind.Array? || kind.Fixed?
    requires GroupsOk(Twins(kind, sides, 3076), Reps(Twins(kind, sides, 3076), 4), groups)
    requires AliasIs(Twins(kind, sides, 3076), groups, groups.Keys, alias)
    ensures 3 in alias && alias[3] == 1
  {
    var g := Twins(kind, sides, 3076);
    TwinsReps(kind, sides);
    GroupInGraph(g, groups, 1);
    assert g[groups[1][0]].readers > 1;
    assert Replaces(g, groups, 1, 3);
    assert alias[3] in groups && Replaces(g, groups, alias[3], 3);
    MatchIsEarlier(g, 3, alias[3]);
    assert Reps(g, 4)[alias[3]] == alias[3];
    assert g[alias[3]].key == g[3].key;
  }

  /** What the pass does to them, keys included. */
  method RunTwins(kind: Kind, sides: seq<Expr>)
    returns (g: Graph, reps: seq<nat>, groups: map<nat, seq<nat>>, alias: map<nat, nat>)
    requires (kind.Array? || kind.Fixed?) && AllRefsBelow(Twins(kind, sides, 0), sides, 4)
    ensures g == Twins(kind, sides, 3076) && reps == Reps(g, |g|) == [0, 1, 1, 1]
    ensures GroupsOk(g, reps, groups) && AliasIs(g, groups, groups.Keys, alias) && 3 in alias && alias[3] == 1
  {
    TwinsTopological(kind, sides, 0);
    g := AssignKeys(Tags(), Twins(kind, sides, 0), [1, 2, 3, 3076]);
    TwinsKeys(kind, sides, g);
    TwinsReps(kind, sides);
    reps, groups := MatchNodes(g);
    alias := DecideMerge(g, groups);
    TwinsDecided(kind, sides, groups, alias);
  }

  /** An array one of whose elements, chosen by the input, is set to its complement. */
  function ElementOfInput(): seq<Expr> {
    [Use(2, 3, [Use(0, 0, [])])]
  }

  lemma ElementRefs(g: Graph)
    requires |g| == 4
    ensures AllRefsBelow(g, ElementOfInput(), 4)
  {
    assert AllRefsBelow(g, [Use(0, 0, [])], 4);
  }

  /** The array is found equal to the scalar and merged into it: wrong, as its left side was
      never looked at. */
  method CollisionIsWrong() returns (g: Graph, reps: seq<nat>, alias: map<nat, nat>)
    ensures g == Twins(Array, ElementOfInput(), 3076) && AliasFree(g) && MergeableRead(g)
    ensures reps == Reps(g, |g|) && reps[3] == 1 && 3 in alias && alias[3] == 1
    ensures !Agree(g, reps) && !AliasAgrees(g, alias)
  {
    ElementRefs(Twins(Array, ElementOfInput(), 0));
    var groups;
    g, reps, groups, alias := RunTwins(Array, ElementOfInput());
    ElementRefs(g);
    TwinsTopological(Array, ElementOfInput(), 3076);
    TwinsAliasFree(Array, ElementOfInput());
    ArrayDisagrees(reps, alias);
  }

  lemma ArrayDisagrees(reps: seq<nat>, alias: map<nat, nat>)
    requires reps == [0, 1, 1, 1] && 3 in alias && alias[3] == 1
    ensures var g := Twins(Array, ElementOfInput(), 3076);
            !Agree(g, reps) && !AliasAgrees(g, alias)
  {
    var g := Twins(Array, ElementOfInput(), 3076);
    ForeignIsDifferent(g, 3, 1);
    if Agree(g, reps) {
      AgreeAt(g, reps, 3);
    }
  }

  /** An output is merged too: its value is that of the scalar, but the node is gone. */
  method OutputIsRemoved() returns (g: Graph, reps: seq<nat>, alias: map<nat, nat>)
    ensures g == Twins(Fixed, [], 3076) && AliasFree(g) && MergeableRead(g) && !g[3].Mergeable()
    ensures reps == Reps(g, |g|) && Agree(g, reps) && 3 in alias && SameValue(g, 3, alias[3])
  {
    var groups;
    g, reps, groups, alias := RunTwins(Fixed, []);
    TwinsTopological(Fixed, [], 3076);
    TwinsAliasFree(Fixed, []);
    OutputAgrees();
  }

  lemma OutputAgrees()
    ensures var g := Twins(Fixed, [], 3076);
            Agree(g, Reps(g, 4)) && SameValue(g, 3, 1) && !g[3].Mergeable()
  {
    var g := Twins(Fixed, [], 3076);
    TwinsReps(Fixed, []);
    TwinsClean();
    AgreeIff(g);
    AgreeAt(g, Reps(g, 4), 3);
  }

  lemma TwinsClean()
    ensures LastMatchesClean(Twins(Fixed, [], 3076), 4)
  {
    var g := Twins(Fixed, [], 3076);
    TwinsReps(Fixed, []);
    forall m: nat | m < 4 ensures ChosenClean(g, m) {
      RepsAt(g, m, 4);
    }
  }

  // ----- an input whose id is the key

  /** Two inputs, and two complements of the first one. */
  function Harmless(): Graph {
    var t := [Complement(0)];
    [Node(Source, [], [], 1, 1, 2), Node(Source, [], [], 3076, 1, 2), Node(Plain, t, [], 3076, 1, 2),
     Node(Plain, t, [], 3076, 1, 2)]
  }

  lemma HarmlessHashed()
    ensures Hashed(Tags(), [1, 3076, 2, 3], Harmless())
  {
    var g := Harmless();
    var k := Keying(Tags(), Keys(g), [1, 3076, 2, 3]);
    assert k.Count(0) == 1;
    ComplementHash(k, 0);
  }

  lemma HarmlessAliasFree()
    ensures AliasFree(Harmless())
  {
    var g := Harmless();
    assert !Bare([Complement(0)]);
    assert g[0].trees == [] == g[1].trees && g[2].trees == g[3].trees == [Complement(0)];
    assert g[0].key != g[1].key;
  }

  lemma HarmlessSlot()
    ensures Slot(Harmless(), 3076, 4) == 2
  {
    var g := Harmless();
    assert Slot(g, 3076, 1) == 0 && Slot(g, 3076, 2) == 0 && Slot(g, 3076, 3) == 1;
  }

  /** It has no tree, so it matches nothing. */
  lemma HarmlessIsClean()
    ensures AliasFree(Harmless()) && Hashed(Tags(), [1, 3076, 2, 3], Harmless()) && Clean(Harmless())
    ensures Slot(Harmless(), 3076, 4) > 1 && Harmless()[1].kind.Source? && Harmless()[1].key == 3076
  {
    var g := Harmless();
    HarmlessHashed();
    HarmlessAliasFree();
    HarmlessSlot();
    forall n: nat, u: nat | Matches(g, n, u) ensures g[n].Computed() && g[u].Computed() {
      SourcesStayOut(g, n, u);
    }
  }

  // ----- equal only through an output

  function And(m: nat, n: nat): Expr {
    Op(3, [Use(0, m, []), Use(0, n, [])])
  }

  lemma AndHash(k: Keying, m: nat, n: nat)
    requires k.h(3) == 15 && m < |k.keys| == |k.ids| && n < |k.keys| && k.Count(m) < 1000000 && k.Count(n) < 1000000
    ensures HashSum(k, [And(m, n)]) == 226935 + k.Count(n) * 123 + k.Count(m)
  {
    var e, a, b := And(m, n), Use(0, m, []), Use(0, n, []);
    assert HashTree(k, b, 15) == 1845 + k.Count(n);
    assert HashTree(k, a, 1845 + k.Count(n)) == 226935 + k.Count(n) * 123 + k.Count(m);
    assert [a][..0] == [] && [a, b][..1] == [a];
    assert HashArgs(k, [a], 1845 + k.Count(n)) == HashTree(k, a, 1845 + k.Count(n));
    assert HashArgs(k, [a, b], 15) == HashArgs(k, [a], HashTree(k, b, 15));
    assert HashTree(k, e, 0) == HashArgs(k, [a, b], 15);
    assert [e][..0] == [];
  }

  /** Inputs a and b, an output and a scalar that complement a, and the conjunction of b with
      each. */
  function Through(): Graph {
    [Node(Source, [], [], 1, 1, 2), Node(Source, [], [], 2, 1, 2), Node(Fixed, [Complement(0)], [], 3, 1, 1),
     Node(Plain, [Complement(0)], [], 3076, 1, 1), Node(Plain, [And(2, 1)], [], 227184, 1, 2),
     Node(Plain, [And(3, 1)], [], 230257, 1, 2)]
  }

  function ThroughKeying(): Keying {
    Keying(Tags(), [1, 2, 3, 3076, 227184, 230257], [1, 2, 3, 4, 5, 6])
  }

  lemma ThroughSums()
    ensures HashSum(ThroughKeying(), [Complement(0)]) == 3076
    ensures HashSum(ThroughKeying(), [And(2, 1)]) == 227184 && HashSum(ThroughKeying(), [And(3, 1)]) == 230257
  {
    var k := ThroughKeying();
    assert k.Count(0) == 1 && k.Count(1) == 2 && k.Count(2) == 3 && k.Count(3) == 3076;
    ComplementHash(k, 0);
    AndHash(k, 2, 1);
    AndHash(k, 3, 1);
  }

  lemma ThroughHashed()
    ensures Hashed(Tags(), [1, 2, 3, 4, 5, 6], Through()) && NoZeroKey(Through())
  {
    var g := Through();
    assert Keys(g) == ThroughKeying().keys;
    ThroughSums();
  }

  lemma {:induction false} AloneRepresents(g: Graph, n: nat)
    requires n <= |g| && forall m: nat :: m < |g| ==> Slot(g, g[m].key, |g|) <= 1
    ensures forall m: nat :: m < n ==> Reps(g, n)[m] == m
  {
    if n > 0 {
      AloneRepresents(g, n - 1);
      assert Slot(g, g[n - 1].key, |g|) <= 1;
      assert LastMatch(g, Reps(g, n - 1), n - 1) == n - 1;
    }
  }

  lemma ThroughSlots(key: nat)
    requires key == 1 || key == 2 || key == 3 || key == 3076 || key == 227184 || key == 230257
    ensures Slot(Through(), key, 6) <= 1
  {
    var g := Through();
    assert Slot(g, key, 1) == 0 && Slot(g, key, 2) == 0 && Slot(g, key, 3) == 0;
    assert Slot(g, key, 4) == (if key == 3076 then 1 else 0);
    assert Slot(g, key, 5) == (if key == 3076 || key == 227184 then 1 else 0);
  }

  /** The conjunctions always have one value, and the pass does not see it. */
  lemma EqualThroughOutput()
    ensures Hashed(Tags(), [1, 2, 3, 4, 5, 6], Through()) && NoZeroKey(Through())
    ensures SameValue(Through(), 4, 5) && Reps(Through(), 6)[4] == 4 && Reps(Through(), 6)[5] == 5
  {
    var g := Through();
    ThroughHashed();
    forall m: nat | m < 6 ensures Slot(g, g[m].key, 6) <= 1 {
      ThroughSlots(g[m].key);
    }
    AloneRepresents(g, 6);
    forall sem: Sem, st: Store | Solves(sem, g, st) ensures st(4) == st(5) {
      assert g[2].Computed() && g[3].Computed() && st(2) == st(3);
      SameAnd(sem, st);
      assert g[4].Computed() && g[5].Computed();
    }
  }

  lemma SameAnd(sem: Sem, st: Store)
    requires st(2) == st(3)
    ensures EvalAll(sem, [And(2, 1)], st) == EvalAll(sem, [And(3, 1)], st)
  {
    var x, y, b := Use(0, 2, []), Use(0, 3, []), Use(0, 1, []);
    assert Eval(sem, x, st) == Eval(sem, y, st);
    assert [x, b][1..] == [b] && [y, b][1..] == [b];
    assert EvalAll(sem, [x, b], st) == EvalAll(sem, [y, b], st);
    assert [And(2, 1)][1..] == [] && [And(3, 1)][1..] == [];
  }
}
