/** Splitting the bodies of reset supernodes: right if and only if no register that is its own
    reset is assigned ahead of a split (src/cppEmitterReset.cpp, genResetDef). */
module ResetRight {
  import ST = StmtTree
  import opened ResetChunks
  import opened ResetBody
  import opened ResetExact

  // ----- every statement appears once

  function Nums(s: ST.Stmt): multiset<nat>
    decreases s
  {
    match s
    case Assign(_, r) => multiset{r}
    case Block(items) => NumsAll(items)
    case Branch(_, a, b) => NumsAll(a) + NumsAll(b)
  }

  function NumsAll(c: seq<ST.Stmt>): multiset<nat>
    decreases c
  {
    if c == [] then multiset{} else NumsAll(c[..|c| - 1]) + Nums(c[|c| - 1])
  }

  function StrNums(insts: seq<Inst>): multiset<nat>
    decreases |insts|
  {
    if insts == [] then multiset{}
    else
      var last := insts[|insts| - 1];
      StrNums(insts[..|insts| - 1]) + if last.Str? then multiset{last.stmt} else multiset{}
  }

  lemma {:induction false} StrNumsConcat(a: seq<Inst>, b: seq<Inst>)
    ensures StrNums(a + b) == StrNums(a) + StrNums(b)
    decreases |b|
  {
    if b == [] {
      assert a + b == a;
    } else {
      var n := |b| - 1;
      assert (a + b)[..|a + b| - 1] == a + b[..n] && (a + b)[|a + b| - 1] == b[n];
      StrNumsConcat(a, b[..n]);
    }
  }

  lemma {:induction false} StrNumsMarkers(n: nat)
    ensures StrNums(Markers(n)) == multiset{}
  {
    if n > 0 {
      assert Markers(n)[..n - 1] == Markers(n - 1);
      StrNumsMarkers(n - 1);
    }
  }

  lemma StrNumsBlock(cond: nat, m: nat, body: seq<Inst>)
    ensures StrNums([If(cond)] + (Markers(m) + body + Markers(m)) + [Dedent]) == StrNums(body)
  {
    StrNumsMarkers(m);
    StrNumsConcat(Markers(m), body);
    StrNumsConcat(Markers(m) + body, Markers(m));
    StrNumsConcat([If(cond)], Markers(m) + body + Markers(m));
    StrNumsConcat([If(cond)] + (Markers(m) + body + Markers(m)), [Dedent]);
    StrNumsOne(If(cond));
    StrNumsOne(Dedent);
  }

  lemma StrNumsOne(inst: Inst)
    ensures StrNums([inst]) == if inst.Str? then multiset{inst.stmt} else multiset{}
  {
    assert [inst][..0] == [];
  }

  lemma {:induction false} LeafNums(ms: seq<Reset>, c: seq<ST.Stmt>, shown: nat -> bool)
    requires AllLeaves(ms, c)
    ensures StrNums(InstsAll(c, shown)) <= NumsAll(c)
    decreases c
  {
    if c != [] {
      var n := |c| - 1;
      LeafNums(ms, c[..n], shown);
      assert IsLeaf(ms, c[n]);
      if c[n].Block? {
        LeafNums(ms, c[n].items, shown);
      } else {
        StrNumsOne(Str(c[n].rhs));
      }
      StrNumsConcat(InstsAll(c[..n], shown), Insts(c[n], shown));
    }
  }

  lemma {:induction false} BodyNums(ms: seq<Reset>, c: seq<ST.Stmt>, shown: nat -> bool)
    requires IsBody(ms, c)
    ensures StrNums(InstsAll(c, shown)) <= NumsAll(c)
    decreases |c|
  {
    if c != [] {
      var n := |c| - 1;
      var a := c[n].onTrue;
      BodyNums(ms, c[..n], shown);
      ResetInsts(ms, c[n], shown);
      LeafNums(ms, a, shown);
      StrNumsBlock(c[n].cond, |MarksAll(a, shown)|, InstsAll(a, shown));
      StrNumsConcat(InstsAll(c[..n], shown), Insts(c[n], shown));
    }
  }

  lemma AddFront(x: multiset<nat>, a: multiset<nat>, b: multiset<nat>, d: multiset<nat>)
    requires a <= b + d
    ensures x + a <= x + b + d
  {
  }

  lemma AddBack(a: multiset<nat>, b: multiset<nat>, d: multiset<nat>, x: multiset<nat>)
    requires a <= b + d
    ensures a + x <= b + x + d
  {
  }

  lemma {:induction false} NumsUpdate(c: seq<ST.Stmt>, i: nat, s: ST.Stmt, d: multiset<nat>)
    requires i < |c| && Nums(s) <= Nums(c[i]) + d
    ensures NumsAll(c[i := s]) <= NumsAll(c) + d
    decreases |c|
  {
    var n, r := |c| - 1, c[i := s];
    if i == n {
      assert r[..n] == c[..n];
      AddFront(NumsAll(c[..n]), Nums(s), Nums(c[n]), d);
    } else {
      assert r[..n] == c[..n][i := s] && r[n] == c[n];
      NumsUpdate(c[..n], i, s, d);
      AddBack(NumsAll(r[..n]), NumsAll(c[..n]), d, Nums(c[n]));
    }
  }

  lemma NumsPush(c: seq<ST.Stmt>, s: ST.Stmt)
    ensures NumsAll(c + [s]) == NumsAll(c) + Nums(s)
  {
    assert (c + [s])[..|c|] == c;
  }

  function Drop(c: seq<ST.Stmt>, i: nat): seq<ST.Stmt>
    requires i < |c|
  {
    c[..i] + c[i + 1..]
  }

  lemma DropEarlier(c: seq<ST.Stmt>, i: nat)
    requires i < |c| - 1
    ensures Drop(c, i) == Drop(c[..|c| - 1], i) + [c[|c| - 1]]
  {
  }

  lemma {:induction false} NumsDrop(c: seq<ST.Stmt>, i: nat)
    requires i < |c|
    ensures NumsAll(Drop(c, i)) <= NumsAll(c)
    decreases |c|
  {
    var n := |c| - 1;
    if i == n {
      assert Drop(c, i) == c[..n];
    } else {
      NumsDrop(c[..n], i);
      DropEarlier(c, i);
      NumsPush(Drop(c[..n], i), c[n]);
    }
  }

  lemma {:induction false} NumsErase(c: seq<ST.Stmt>, i: nat, n: nat)
    ensures NumsAll(ST.EraseFrom(c, i, n)) <= NumsAll(c)
    decreases |c| - i
  {
    if i < |c| {
      if c[i].Assign? && c[i].node == n {
        NumsDrop(c, i);
        NumsErase(Drop(c, i), i + 1, n);
      } else {
        NumsErase(c, i + 1, n);
      }
    }
  }

  lemma NumsAppend(s: ST.Stmt, w: ST.Stmt)
    requires !s.Branch?
    ensures Nums(ST.Append(s, w)) == Nums(s) + Nums(w)
  {
    if s.Assign? {
      NumsPush([], s);
      NumsPush([s], w);
      assert [] + [s] == [s] && [s] + [w] == [s, w];
    } else {
      NumsPush(s.items, w);
    }
  }

  lemma NumsLeaf(arrays: set<nat>, ms: seq<Reset>, k: nat, c: seq<ST.Stmt>, np: seq<nat>)
    requires k < |ms|
    ensures NumsAll(ST.Merge(arrays, ms[k].node, ST.Leaf(k, ms[k].invalid), c, 2, false, [], np).stmts)
            <= NumsAll(c) + multiset{k}
  {
    var n, w := ms[k].node, ST.Assign(ms[k].node, k);
    NumsErase(c, 0, n);
    var c1 := if n !in arrays && !ms[k].invalid then ST.EraseFrom(c, 0, n) else c;
    NumsPlace(c1, w);
    var r := ST.Merge(arrays, n, ST.Leaf(k, ms[k].invalid), c, 2, false, [], np).stmts;
    var j := ST.FindPlain(c1, 0);
    assert r == if j < |c1| then c1[j := ST.Append(c1[j], w)] else c1 + [w];
    SubTrans(NumsAll(r), NumsAll(c1), NumsAll(c), multiset{k});
  }

  lemma SubTrans(a: multiset<nat>, b: multiset<nat>, c: multiset<nat>, d: multiset<nat>)
    requires a <= b + d && b <= c
    ensures a <= c + d
  {
  }

  lemma NumsPlace(c: seq<ST.Stmt>, w: ST.Stmt)
    ensures var j := ST.FindPlain(c, 0);
            NumsAll(if j < |c| then c[j := ST.Append(c[j], w)] else c + [w]) <= NumsAll(c) + Nums(w)
  {
    var j := ST.FindPlain(c, 0);
    if j < |c| {
      NumsAppend(c[j], w);
      NumsUpdate(c, j, ST.Append(c[j], w), Nums(w));
    } else {
      NumsPush(c, w);
    }
  }

  lemma NumsStep(arrays: set<nat>, ms: seq<Reset>, k: nat, c: seq<ST.Stmt>)
    requires k < |ms| && IsBody(ms, c)
    ensures NumsAll(ST.MergeTree(arrays, ms[k].node, TreeOf(ms, k), c, [], []).stmts) <= NumsAll(c) + multiset{k}
  {
    NoLimit();
    var i := ST.FindBranch(c, ms[k].cond, 0);
    var np := ST.AddDepth(ST.AddDepth([], 0, 0), 1, i);
    if i < |c| {
      assert IsReset(ms, c[i]);
      NumsLeaf(arrays, ms, k, c[i].onTrue, np);
      var m := ST.Merge(arrays, ms[k].node, ST.Leaf(k, ms[k].invalid), c[i].onTrue, 2, false, [], np);
      NumsUpdate(c, i, ST.Branch(ms[k].cond, m.stmts, []), multiset{k});
      assert ST.MergeTree(arrays, ms[k].node, TreeOf(ms, k), c, [], []).stmts
          == c[i := ST.Branch(ms[k].cond, m.stmts, [])];
    } else {
      NumsGenerate(ms, k);
      NumsPush(c, ST.Generate(ms[k].node, TreeOf(ms, k)));
    }
  }

  lemma NumsGenerate(ms: seq<Reset>, k: nat)
    requires k < |ms|
    ensures Nums(ST.Generate(ms[k].node, TreeOf(ms, k))) == multiset{k}
  {
    var w := ST.Assign(ms[k].node, k);
    NumsPush([], w);
    assert [] + [w] == [w];
    assert ST.Generate(ms[k].node, ST.Leaf(k, ms[k].invalid)) == w;
    assert ST.Generate(ms[k].node, TreeOf(ms, k)) == ST.Branch(ms[k].cond, [w], []);
  }

  /** Number i appears at most once, and only when i < k. */
  ghost predicate OnceBelow(m: multiset<nat>, k: nat) {
    forall i: nat :: m[i] <= if i < k then 1 else 0
  }

  lemma {:induction false} BodyOnce(arrays: set<nat>, ms: seq<Reset>, k: nat)
    requires k <= |ms|
    ensures OnceBelow(NumsAll(Body(arrays, ms, k)), k)
  {
    if k > 0 {
      BodyOnce(arrays, ms, k - 1);
      BodyIs(arrays, ms, k - 1);
      NumsStep(arrays, ms, k - 1, Body(arrays, ms, k - 1));
      OnceMore(NumsAll(Body(arrays, ms, k - 1)), NumsAll(Body(arrays, ms, k)), k - 1);
    }
  }

  lemma OnceMore(m: multiset<nat>, m2: multiset<nat>, k: nat)
    requires OnceBelow(m, k) && m2 <= m + multiset{k}
    ensures OnceBelow(m2, k + 1)
  {
    forall i: nat ensures m2[i] <= if i < k + 1 then 1 else 0 {
      assert m2[i] <= (m + multiset{k})[i];
    }
  }

  lemma {:induction false} StrCounted(insts: seq<Inst>, a: nat)
    requires a < |insts| && insts[a].Str?
    ensures StrNums(insts)[insts[a].stmt] >= 1
    decreases |insts|
  {
    if a < |insts| - 1 {
      StrCounted(insts[..|insts| - 1], a);
    }
  }

  lemma {:induction false} StrTwice(insts: seq<Inst>, a: nat, b: nat)
    requires a < b < |insts| && insts[a].Str? && insts[b] == insts[a]
    ensures StrNums(insts)[insts[a].stmt] >= 2
    decreases |insts|
  {
    var front := insts[..|insts| - 1];
    if b < |insts| - 1 {
      StrTwice(front, a, b);
    } else {
      StrCounted(front, a);
    }
  }

  /** No node has two resets. */
  ghost predicate NodesDiffer(ms: seq<Reset>) {
    forall i, j :: 0 <= i < j < |ms| ==> ms[i].node != ms[j].node
  }

  function NodeOf(ms: seq<Reset>): nat -> nat {
    (i: nat) => if i < |ms| then ms[i].node else 0
  }

  lemma StreamOnce(arrays: set<nat>, ms: seq<Reset>)
    ensures OnceBelow(StrNums(ResetStream(arrays, ms)), |ms|)
  {
    var c := Body(arrays, ms, |ms|);
    var outer := Markers(|MarksAll(c, Shown(ms))|);
    var body := InstsAll(c, Shown(ms));
    BodyIs(arrays, ms, |ms|);
    BodyNums(ms, c, Shown(ms));
    BodyOnce(arrays, ms, |ms|);
    StrNumsMarkers(|outer|);
    StrNumsConcat(outer, body);
    StrNumsConcat(outer + body, outer);
    OnceLess(StrNums(body), NumsAll(c), |ms|);
  }

  lemma OnceLess(m: multiset<nat>, m2: multiset<nat>, k: nat)
    requires m <= m2 && OnceBelow(m2, k)
    ensures OnceBelow(m, k)
  {
    forall i: nat ensures m[i] <= if i < k then 1 else 0 {
      assert m[i] <= m2[i];
    }
  }

  lemma StreamDistinct(arrays: set<nat>, ms: seq<Reset>)
    requires NodesDiffer(ms)
    ensures Distinct(ResetStream(arrays, ms), NodeOf(ms))
  {
    var insts := ResetStream(arrays, ms);
    StreamOnce(arrays, ms);
    forall a, b | 0 <= a < b < |insts| && insts[a].Str? && insts[b].Str?
      ensures NodeOf(ms)(insts[a].stmt) != NodeOf(ms)(insts[b].stmt)
    {
      StrCounted(insts, a);
      StrCounted(insts, b);
      if insts[a].stmt == insts[b].stmt {
        StrTwice(insts, a, b);
      }
    }
  }

  // ----- the theorem

  /** The chain of every reset body, for all values and all conditions that read v, does what
      the body does if and only if v is not assigned in a block ahead of a split that has
      another statement behind it. */
  lemma ResetRightIff(arrays: set<nat>, ms: seq<Reset>, n: nat, v: nat)
    requires NodesDiffer(ms)
    ensures var insts := ResetStream(arrays, ms);
            AlwaysRight(insts, n, NodeOf(ms), v) <==> Timely(insts, n, NodeOf(ms), v)
  {
    ResetStreamIsFlat(arrays, ms);
    StreamDistinct(arrays, ms);
    AlwaysRightIff(ResetStream(arrays, ms), n, NodeOf(ms), v);
  }

  lemma {:induction false} NeverWrote(insts: seq<Inst>, node: nat -> nat, v: nat, k: nat)
    requires k <= |insts| && forall a :: 0 <= a < |insts| && insts[a].Str? ==> node(insts[a].stmt) != v
    ensures !Wrote(insts, node, v, k)
  {
    if k > 0 {
      NeverWrote(insts, node, v, k - 1);
    }
  }

  /** In particular it does when no register is its own reset. */
  lemma OthersResetIsRight(arrays: set<nat>, ms: seq<Reset>, n: nat, v: nat)
    requires forall i :: 0 <= i < |ms| ==> ms[i].node != v
    ensures AlwaysRight(ResetStream(arrays, ms), n, NodeOf(ms), v)
  {
    var insts := ResetStream(arrays, ms);
    ResetStreamIsFlat(arrays, ms);
    StreamOnce(arrays, ms);
    forall a | 0 <= a < |insts| && insts[a].Str? ensures NodeOf(ms)(insts[a].stmt) != v {
      StrCounted(insts, a);
    }
    forall k: nat | k < |insts| ensures !LateAt(insts, n, NodeOf(ms), v, k) {
      NeverWrote(insts, NodeOf(ms), v, k);
    }
    forall sem: Sem, st: Store | Fits(sem, NodeOf(ms), v) ensures RightFrom(sem, insts, n, st) {
      TimelyIsRight(sem, insts, n, NodeOf(ms), v, st);
    }
  }

  // ----- a register that is its own reset

  /** Registers of one condition, all with text. */
  ghost predicate OneCond(ms: seq<Reset>, c: nat) {
    NodesDiffer(ms) && forall i :: 0 <= i < |ms| ==> ms[i].cond == c && ms[i].shown
  }

  function AssignsTo(ms: seq<Reset>, k: nat): (r: seq<ST.Stmt>)
    requires k <= |ms|
    ensures |r| == k
  {
    seq(k, i requires 0 <= i < k => ST.Assign(ms[i].node, i))
  }

  /** The block they are collected in. */
  function Gathered(ms: seq<Reset>, k: nat): ST.Stmt
    requires 1 <= k <= |ms|
  {
    if k == 1 then ST.Assign(ms[0].node, 0) else ST.Block(AssignsTo(ms, k))
  }

  lemma GatherOne(arrays: set<nat>, ms: seq<Reset>, c: nat, k: nat, np: seq<nat>)
    requires OneCond(ms, c) && 1 <= k < |ms|
    ensures ST.Merge(arrays, ms[k].node, ST.Leaf(k, ms[k].invalid), [Gathered(ms, k)], 2, false, [], np).stmts
            == [Gathered(ms, k + 1)]
  {
    var g, w := Gathered(ms, k), ST.Assign(ms[k].node, k);
    assert ST.EraseFrom([g], 1, ms[k].node) == [g];
    assert ST.EraseFrom([g], 0, ms[k].node) == [g];
    assert AssignsTo(ms, k + 1) == AssignsTo(ms, k) + [w];
    if k == 1 {
      assert AssignsTo(ms, 1) == [g];
    }
    assert ST.Append(g, w) == Gathered(ms, k + 1);
    assert [g][0 := ST.Append(g, w)] == [ST.Append(g, w)];
  }

  lemma {:induction false} GatherAll(arrays: set<nat>, ms: seq<Reset>, c: nat, k: nat)
    requires OneCond(ms, c) && 1 <= k <= |ms|
    ensures Body(arrays, ms, k) == [ST.Branch(c, [Gathered(ms, k)], [])]
  {
    NoLimit();
    if k == 1 {
      var w := ST.Assign(ms[0].node, 0);
      assert Body(arrays, ms, 0) == [] && ST.FindBranch([], c, 0) == 0;
      assert ST.Generate(ms[0].node, ST.Leaf(0, ms[0].invalid)) == w;
      assert ST.Generate(ms[0].node, TreeOf(ms, 0)) == ST.Branch(c, [w], []);
      assert [] + [ST.Branch(c, [w], [])] == [ST.Branch(c, [w], [])];
    } else {
      GatherAll(arrays, ms, c, k - 1);
      var b := [ST.Branch(c, [Gathered(ms, k - 1)], [])];
      assert ST.FindBranch(b, c, 0) == 0;
      GatherOne(arrays, ms, c, k - 1, ST.AddDepth(ST.AddDepth([], 0, 0), 1, 0));
      assert b[0 := ST.Branch(c, [Gathered(ms, k)], [])] == [ST.Branch(c, [Gathered(ms, k)], [])];
    }
  }

  function Strs(k: nat): (r: seq<Inst>)
    ensures |r| == k
  {
    seq(k, i requires 0 <= i < k => Str(i))
  }

  lemma {:induction false} AssignInsts(ms: seq<Reset>, c: nat, k: nat)
    requires OneCond(ms, c) && k <= |ms|
    ensures InstsAll(AssignsTo(ms, k), Shown(ms)) == Strs(k)
  {
    if k > 0 {
      AssignInsts(ms, c, k - 1);
      assert AssignsTo(ms, k)[..k - 1] == AssignsTo(ms, k - 1);
      assert Strs(k) == Strs(k - 1) + [Str(k - 1)];
    }
  }

  lemma GatheredInsts(ms: seq<Reset>, c: nat)
    requires OneCond(ms, c) && |ms| >= 1
    ensures InstsAll([Gathered(ms, |ms|)], Shown(ms)) == Strs(|ms|)
  {
    var g := Gathered(ms, |ms|);
    AssignInsts(ms, c, |ms|);
    assert [g][..0] == [];
    assert InstsAll([g], Shown(ms)) == [] + Insts(g, Shown(ms));
    if |ms| == 1 {
      assert AssignsTo(ms, 1) == [g];
    }
  }

  /** One `if`, m markers, all statements, m markers and the end. */
  function OneBlock(c: nat, m: nat, k: nat): seq<Inst> {
    [If(c)] + (Markers(m) + Strs(k) + Markers(m)) + [Dedent]
  }

  lemma StreamIsOneBlock(arrays: set<nat>, ms: seq<Reset>, c: nat) returns (m: nat)
    requires OneCond(ms, c) && |ms| >= 1
    ensures ResetStream(arrays, ms) == OneBlock(c, m, |ms|)
  {
    var g := Gathered(ms, |ms|);
    var s := ST.Branch(c, [g], []);
    GatherAll(arrays, ms, c, |ms|);
    BodyIs(arrays, ms, |ms|);
    assert IsReset(ms, [s][0]);
    ResetInsts(ms, s, Shown(ms));
    GatheredInsts(ms, c);
    m := |MarksAll([g], Shown(ms))|;
    assert [s][..0] == [];
    assert Marks(s, Shown(ms)) == {};
    assert MarksAll([s], Shown(ms)) == {};
    assert InstsAll([s], Shown(ms)) == [] + Insts(s, Shown(ms));
    assert Markers(0) == [];
  }

  /** How many lines the first chunk holds. */
  lemma {:induction false} FirstChunk(c: nat, m: nat, k: nat, n: nat, i: nat)
    requires 2 <= n <= k && i <= m + n
    ensures EmittedAt(OneBlock(c, m, k), n, i).count == if i == 0 then 0 else if i <= m then 1 else i - m
  {
    var insts := OneBlock(c, m, k);
    if i > 0 {
      FirstChunk(c, m, k, n, i - 1);
      assert insts[i - 1] == if i == 1 then If(c) else if i - 1 <= m then Other else Str(i - 2 - m);
    }
  }

  lemma {:induction false} WroteSince(insts: seq<Inst>, node: nat -> nat, v: nat, p: nat, k: nat)
    requires p < k && Within(insts, p, k) && insts[p].Str? && node(insts[p].stmt) == v
    ensures Wrote(insts, node, v, k)
    decreases k
  {
    if p < k - 1 {
      WroteSince(insts, node, v, p, k - 1);
    }
  }

  lemma LateInBlock(c: nat, m: nat, k: nat, n: nat, node: nat -> nat)
    requires 2 <= n <= k
    ensures m + n < |OneBlock(c, m, k)| && LateAt(OneBlock(c, m, k), n, node, node(0), m + n)
  {
    var insts := OneBlock(c, m, k);
    FirstChunk(c, m, k, n, m + n);
    assert insts[m + n] == Str(n - 1) && insts[m + 1] == Str(0);
    forall q | m + 1 <= q < m + n ensures insts[q].Str? {
      assert insts[q] == Str(q - m - 1);
    }
    WroteSince(insts, node, node(0), m + 1, m + n);
  }

  /** For every chunk size: a register that is its own reset, first of at least n registers,
      leaves one of the others without its reset value. */
  lemma OwnResetIsWrong(arrays: set<nat>, ms: seq<Reset>, c: nat, n: nat) returns (sem: Sem)
    requires OneCond(ms, c) && 2 <= n <= |ms|
    ensures Fits(sem, NodeOf(ms), ms[0].node) && !RightFrom(sem, ResetStream(arrays, ms), n, map[])
  {
    var m := StreamIsOneBlock(arrays, ms, c);
    ResetStreamIsFlat(arrays, ms);
    StreamDistinct(arrays, ms);
    LateInBlock(c, m, |ms|, n, NodeOf(ms));
    sem := LateIsWrong(OneBlock(c, m, |ms|), n, NodeOf(ms), NodeOf(ms)(0), m + n);
  }
}
