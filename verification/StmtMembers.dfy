/** Building the statement tree of a supernode from all its members (src/StmtTree.cpp,
    graph::generateStmtTree and prevOrderPath). */
module StmtMembers {
  import opened StmtTree
  import opened StmtSharing
  import opened StmtMerge
  import opened StmtMergeSteps
  import opened StmtMergeMeaning

  // ----- merging keeps readers in front of a scalar's statements

  lemma {:induction false} NoReadsReadsFirst(sem: Sem, c: seq<Stmt>, n: nat)
    requires !UsesSeq(sem, c, n)
    ensures ReadsFirst(sem, c, n)
    decreases c
  {
    forall i | 0 <= i < |c| ensures !Uses(sem, c[i], n) {
    }
    forall i | 0 <= i < |c| && c[i].Branch?
      ensures ReadsFirst(sem, c[i].onTrue, n) && ReadsFirst(sem, c[i].onFalse, n)
    {
      assert !Uses(sem, c[i], n);
      NoReadsReadsFirst(sem, c[i].onTrue, n);
      NoReadsReadsFirst(sem, c[i].onFalse, n);
    }
  }

  lemma {:induction false} TreeDoesNotRead(sem: Sem, n: nat, e: ETree)
    requires n !in sem.arrays && NoSelf(sem, n, e)
    ensures n !in TreeUses(sem, e)
  {
    if e.When? {
      TreeDoesNotRead(sem, n, e.onTrue);
      TreeDoesNotRead(sem, n, e.onFalse);
    }
  }

  /** Entry j is replaced by one that reads n no more than before, and nothing after j
      reads n. */
  lemma ReplaceReadsFirst(sem: Sem, c: seq<Stmt>, j: nat, s: Stmt, n: nat)
    requires j < |c| && ReadsFirst(sem, c, n) && !UsesSeq(sem, c[j + 1..], n)
    requires Uses(sem, s, n) ==> Uses(sem, c[j], n)
    requires s.Branch? ==> ReadsFirst(sem, s.onTrue, n) && ReadsFirst(sem, s.onFalse, n)
    ensures ReadsFirst(sem, c[j := s], n)
  {
    var r := c[j := s];
    var y := c[j + 1..];
    forall a, b | 0 <= a < b < |r| && Assigns(r[a], n) ensures !Uses(sem, r[b], n) {
      if b > j {
        assert r[b] == y[b - j - 1];
      } else {
        assert r[a] == c[a];
        assert !Uses(sem, c[b], n);
      }
    }
  }

  lemma AddReadsFirst(sem: Sem, c: seq<Stmt>, s: Stmt, n: nat)
    requires ReadsFirst(sem, c, n) && !Uses(sem, s, n)
    ensures ReadsFirst(sem, c + [s], n)
  {
    var r := c + [s];
    forall a, b | 0 <= a < b < |r| && Assigns(r[a], n) ensures !Uses(sem, r[b], n) {
      assert r[a] == c[a];
    }
    if s.Branch? {
      NoReadsReadsFirst(sem, s.onTrue, n);
      NoReadsReadsFirst(sem, s.onFalse, n);
    }
  }

  lemma LeafReadsFirst(sem: Sem, uses: map<nat, set<nat>>, n: nat, e: ETree, c: seq<Stmt>, d: nat, limit: bool,
                       path: seq<nat>, np: seq<nat>, p: set<nat>)
    requires e.Leaf? && TreeOk(sem, uses, n, e) && MergeReady(sem, uses, n, c, d, limit, path, p) && n !in sem.arrays
             && n !in sem.inPlace
    ensures ReadsFirst(sem, Merge(sem.arrays, n, e, c, d, limit, path, np).stmts, n)
  {
    var lim := limit && d < |path|;
    var c1 := if !e.invalid then EraseFrom(c, 0, n) else c;
    EraseMeaning(sem, c, 0, n, map[]);
    EraseSourced(sem, uses, c, n);
    var j := FindPlain(c1, if !lim then 0 else if path[d] < |c1| then path[d] else |c1|);
    if j < |c1| {
      if lim {
        EraseBounded(c, 0, n, path, d, p);
      } else {
        EraseOnlyDrops(c, 0, n);
        forall i | 0 <= i < |c1| ensures Clear(c1[i], p) {
          assert c1[i] in c;
        }
      }
      ClearAfterLimit(c1, d, limit, path, p, j);
      var y := c1[j + 1..];
      assert SourcedSeq(sem, uses, y);
      ClearIsApart(sem, uses, y, n, p);
      if Uses(sem, Append(c1[j], Assign(n, e.rhs)), n) {
        AppendUses(sem, c1[j], Assign(n, e.rhs), n);
      }
      ReplaceReadsFirst(sem, c1, j, Append(c1[j], Assign(n, e.rhs)), n);
    } else {
      AddReadsFirst(sem, c1, Assign(n, e.rhs), n);
    }
  }

  lemma {:induction false} MergeReadsFirst(sem: Sem, uses: map<nat, set<nat>>, n: nat, e: ETree, c: seq<Stmt>, d: nat,
                                           limit: bool, path: seq<nat>, np: seq<nat>, p: set<nat>)
    requires TreeOk(sem, uses, n, e) && MergeReady(sem, uses, n, c, d, limit, path, p) && n !in sem.arrays
             && n !in sem.inPlace
    ensures ReadsFirst(sem, Merge(sem.arrays, n, e, c, d, limit, path, np).stmts, n)
    decreases e
  {
    TreeDoesNotRead(sem, n, e);
    match e {
      case Leaf(_, _) => LeafReadsFirst(sem, uses, n, e, c, d, limit, path, np, p);
      case When(cond, t, f) =>
        var i := FindBranch(c, cond, if limit && d < |path| then path[d] else 0);
        if i < |c| {
          MatchedReadsFirst(sem, uses, n, e, c, d, limit, path, np, p, i);
        } else {
          if Uses(sem, Generate(n, e), n) {
            GenerateUses(sem, n, e, n);
          }
          AddReadsFirst(sem, c, Generate(n, e), n);
        }
    }
  }

  lemma {:induction false} MatchedReadsFirst(sem: Sem, uses: map<nat, set<nat>>, n: nat, e: ETree, c: seq<Stmt>, d: nat,
                                             limit: bool, path: seq<nat>, np: seq<nat>, p: set<nat>, i: nat)
    requires e.When? && TreeOk(sem, uses, n, e) && MergeReady(sem, uses, n, c, d, limit, path, p) && n !in sem.arrays
             && n !in sem.inPlace
    requires i < |c| && i == FindBranch(c, e.cond, if limit && d < |path| then path[d] else 0) && n !in TreeUses(sem, e)
    ensures ReadsFirst(sem, Merge(sem.arrays, n, e, c, d, limit, path, np).stmts, n)
    decreases e, 0
  {
    var lim := limit && d < |path|;
    var t, f := e.onTrue, e.onFalse;
    var np1 := AddDepth(np, d, i);
    var next := lim && path[d] == i;
    var mf := if f.Nil? then Merged(c[i].onFalse, np1)
      else Merge(sem.arrays, n, f, c[i].onFalse, d + 1, next, path, np1);
    BranchReady(sem, uses, n, c, d, limit, path, p, i);
    if !f.Nil? {
      MergeReadsFirst(sem, uses, n, f, c[i].onFalse, d + 1, next, path, np1, p);
    }
    if !t.Nil? {
      MergeReadsFirst(sem, uses, n, t, c[i].onTrue, d + 1, next, path, mf.path, p);
    }
    ClearAfterLimit(c, d, limit, path, p, i);
    var y := c[i + 1..];
    assert SourcedSeq(sem, uses, y);
    ClearIsApart(sem, uses, y, n, p);
    var s := Merge(sem.arrays, n, e, c, d, limit, path, np).stmts[i];
    if Uses(sem, s, n) {
      MatchedUses(sem, n, e, c, d, limit, path, np, i, n);
    }
    ReplaceReadsFirst(sem, c, i, s, n);
  }

  // ----- one member

  /** A member: its node, its assignment trees in order, and the members it must follow
      (depPrev within the supernode), by rank. */
  datatype Member = Member(node: nat, trees: seq<ETree>, deps: seq<nat>)

  /** prevOrderPath */
  function PrevPath(all: map<nat, seq<nat>>, deps: seq<nat>, prev: seq<nat>): seq<nat>
    requires forall m :: m in deps ==> m in all
    decreases |deps|
  {
    if deps == [] then prev else PrevPath(all, deps[1..], MergePath(prev, all[deps[0]], 0))
  }

  function MergeTrees(arrays: set<nat>, n: nat, trees: seq<ETree>, root: seq<Stmt>, prev: seq<nat>,
                      np: seq<nat>): Merged
    requires forall e :: e in trees ==> Full(e)
    decreases |trees|
  {
    if trees == [] then Merged(root, np) else
      assert Full(trees[0]);
      var m := MergeTree(arrays, n, trees[0], root, prev, np);
      MergeTrees(arrays, n, trees[1..], m.stmts, prev, m.path)
  }

  function RunTrees(sem: Sem, n: nat, trees: seq<ETree>, st: Store): Store
    decreases |trees|
  {
    if trees == [] then st else RunTrees(sem, n, trees[1..], RunTree(sem, n, trees[0], st))
  }

  /** Every path recorded so far bounds the statements of its node. */
  ghost predicate PathsHold(root: seq<Stmt>, all: map<nat, seq<nat>>) {
    forall m :: m in all ==> Bounded(root, all[m], 1, {m}) && (all[m] != [] ==> all[m][0] == 0)
  }

  ghost function Elements(xs: seq<nat>): set<nat> {
    set x | x in xs
  }

  ghost predicate Rooted(p: seq<nat>) {
    p != [] ==> p[0] == 0
  }

  lemma {:induction false} PrevPathBounds(root: seq<Stmt>, all: map<nat, seq<nat>>, deps: seq<nat>, prev: seq<nat>,
                                          q: set<nat>)
    requires PathsHold(root, all) && (forall m :: m in deps ==> m in all)
    requires Rooted(prev) && Bounded(root, prev, 1, q)
    ensures var r := PrevPath(all, deps, prev); Rooted(r) && Bounded(root, r, 1, q + Elements(deps))
    decreases |deps|
  {
    if deps == [] {
      assert q + Elements(deps) == q;
    } else {
      var m := deps[0];
      var p := all[m];
      var next := MergePath(prev, p, 0);
      MergePathBounds(prev, p, 0);
      RootedMerge(prev, p);
      BoundedLater(root, next, prev, 1, q);
      BoundedLater(root, next, p, 1, {m});
      BoundedUnion(root, next, 1, q, {m});
      PrevPathBounds(root, all, deps[1..], next, q + {m});
      assert q + {m} + Elements(deps[1..]) == q + Elements(deps);
    }
  }

  /** All paths start at the root, so comparing them from depth 0 compares them from depth 1. */
  lemma RootedMerge(prev: seq<nat>, p: seq<nat>)
    requires Rooted(prev) && Rooted(p)
    ensures var r := MergePath(prev, p, 0); Rooted(r) && NotBefore(r, prev, 1) && NotBefore(r, p, 1)
  {
    MergePathBounds(prev, p, 0);
    if p != [] {
      var start := if prev == [] then [p[0]] else prev[0 := p[0]];
      MergePathBounds(start, p, 1);
      assert prev == [] ==> prev + [p[0]] == start;
      assert MergePath(prev, p, 0) == MergePath(start, p, 1);
      assert MergePath(start, p, 1)[..1] == start[..1];
      assert MergePath(start, p, 1)[0] == start[..1][0];
    } else {
      NotBeforeRefl(prev, 1);
    }
  }

  lemma RootedLater(a: seq<nat>, b: seq<nat>)
    requires Rooted(a) && Rooted(b)
    ensures var r := Later(a, b, 0); Rooted(r) && NotBefore(r, a, 1) && NotBefore(r, b, 1)
  {
    LaterAgrees(a, b, 0);
    LaterBounds(a, b, 0);
  }

  /** One tree of n: prev bounds what n must follow, np what n has so far. */
  lemma TreeStep(sem: Sem, uses: map<nat, set<nat>>, n: nat, e: ETree, root: seq<Stmt>, prev: seq<nat>, np: seq<nat>,
                 q: set<nat>, st: Store)
    requires SemOk(sem) && SourcedSeq(sem, uses, root) && TreeOk(sem, uses, n, e) && Apart(uses, n, q + {n})
    requires Rooted(prev) && Rooted(np) && Bounded(root, prev, 1, q) && Bounded(root, np, 1, {n})
    requires Sealed(sem, uses, n, root) && (n !in sem.arrays && n !in sem.inPlace ==> ReadsFirst(sem, root, n))
    ensures var m := MergeTree(sem.arrays, n, e, root, prev, np);
            && SourcedSeq(sem, uses, m.stmts) && Rooted(m.path) && Bounded(m.stmts, m.path, 1, {n})
            && (n !in sem.arrays && n !in sem.inPlace ==> ReadsFirst(sem, m.stmts, n))
            && (n !in sem.inPlace ==> Sealed(sem, uses, n, m.stmts))
            && ExecSeq(sem, m.stmts, st) == RunTree(sem, n, e, ExecSeq(sem, root, st))
  {
    var path := Later(prev, np, 0);
    var np0 := AddDepth(np, 0, 0);
    RootedLater(prev, np);
    BoundedLater(root, path, prev, 1, q);
    BoundedLater(root, path, np, 1, {n});
    BoundedUnion(root, path, 1, q, {n});
    if 1 >= |path| {
      ClearAll(root, path, q + {n});
    }
    assert MergeReady(sem, uses, n, root, 1, true, path, q + {n});
    MergeMeaning(sem, uses, n, e, root, 1, true, path, np0, q + {n}, st);
    MergeSourced(sem, uses, n, e, root, 1, true, path, np0);
    if n !in sem.inPlace {
      StaysSealed(sem, uses, n, e, root, 1, true, path, np0);
    }
    if n !in sem.arrays && n !in sem.inPlace {
      MergeReadsFirst(sem, uses, n, e, root, 1, true, path, np0, q + {n});
    }
    NotBeforeRefl(np, 1);
    assert NotBefore(np0, np, 1);
    BoundedLater(root, np0, np, 1, {n});
    MergePathGrows(sem.arrays, n, e, root, 1, true, path, np0);
    var m := MergeTree(sem.arrays, n, e, root, prev, np);
    assert m.path[0] == m.path[..1][0] == np0[..1][0];
  }

  lemma StaysSealed(sem: Sem, uses: map<nat, set<nat>>, n: nat, e: ETree, c: seq<Stmt>, d: nat, limit: bool,
                    path: seq<nat>, np: seq<nat>)
    requires Full(e) && Sealed(sem, uses, n, c) && n !in sem.inPlace
    ensures Sealed(sem, uses, n, Merge(sem.arrays, n, e, c, d, limit, path, np).stmts)
  {
    var r := Merge(sem.arrays, n, e, c, d, limit, path, np).stmts;
    forall m | m in sem.inPlace && AssignsSeq(r, m) ensures m != n && m !in uses[n] {
      MergeAssigns(sem.arrays, n, e, c, d, limit, path, np, m);
    }
  }

  lemma ClearAll(root: seq<Stmt>, path: seq<nat>, q: set<nat>)
    requires 1 >= |path| && Bounded(root, path, 1, q)
    ensures ClearSeq(root, q)
  {
  }

  /** All trees of n. */
  lemma {:induction false} TreesStep(sem: Sem, uses: map<nat, set<nat>>, n: nat, trees: seq<ETree>, root: seq<Stmt>,
                                     prev: seq<nat>, np: seq<nat>, q: set<nat>, st: Store)
    requires SemOk(sem) && SourcedSeq(sem, uses, root) && (forall e :: e in trees ==> TreeOk(sem, uses, n, e))
    requires forall e :: e in trees ==> Full(e)
    requires Apart(uses, n, q + {n}) && n !in q
    requires Rooted(prev) && Rooted(np) && Bounded(root, prev, 1, q) && Bounded(root, np, 1, {n})
    requires n !in sem.arrays && n !in sem.inPlace ==> ReadsFirst(sem, root, n)
    requires (n in sem.inPlace ==> |trees| <= 1) && (trees != [] ==> Sealed(sem, uses, n, root))
    ensures var m := MergeTrees(sem.arrays, n, trees, root, prev, np);
            && SourcedSeq(sem, uses, m.stmts) && Rooted(m.path) && Bounded(m.stmts, m.path, 1, {n})
            && ExecSeq(sem, m.stmts, st) == RunTrees(sem, n, trees, ExecSeq(sem, root, st))
    decreases |trees|
  {
    if trees != [] {
      var e := trees[0];
      assert TreeOk(sem, uses, n, e);
      TreeStep(sem, uses, n, e, root, prev, np, q, st);
      var m := MergeTree(sem.arrays, n, e, root, prev, np);
      MergeKeepsBounds(sem.arrays, n, e, root, 1, true, Later(prev, np, 0), AddDepth(np, 0, 0), prev, q);
      TreesStep(sem, uses, n, trees[1..], m.stmts, prev, m.path, q, st);
    }
  }

  /** Other nodes keep their bounds, and no other node gains a statement. */
  lemma {:induction false} TreesKeepBounds(arrays: set<nat>, n: nat, trees: seq<ETree>, root: seq<Stmt>, prev: seq<nat>,
                                           np: seq<nat>, w: seq<nat>, q: nat)
    requires (forall e :: e in trees ==> Full(e)) && n != q
    ensures var r := MergeTrees(arrays, n, trees, root, prev, np).stmts;
            (Bounded(root, w, 1, {q}) ==> Bounded(r, w, 1, {q})) && (AssignsSeq(r, q) ==> AssignsSeq(root, q))
    decreases |trees|
  {
    if trees != [] {
      var e := trees[0];
      assert Full(e);
      var path, np0 := Later(prev, np, 0), AddDepth(np, 0, 0);
      if Bounded(root, w, 1, {q}) {
        MergeKeepsBounds(arrays, n, e, root, 1, true, path, np0, w, {q});
      }
      MergeAssigns(arrays, n, e, root, 1, true, path, np0, q);
      var m := MergeTree(arrays, n, e, root, prev, np);
      TreesKeepBounds(arrays, n, trees[1..], m.stmts, prev, m.path, w, q);
    }
  }

  // ----- all members

  ghost function TreesUses(sem: Sem, trees: seq<ETree>): set<nat>
    decreases |trees|
  {
    if trees == [] then {} else TreeUses(sem, trees[0]) + TreesUses(sem, trees[1..])
  }

  ghost function MemberUses(sem: Sem, m: Member): set<nat> {
    TreesUses(sem, m.trees)
  }

  lemma {:induction false} TreeUsesWithin(sem: Sem, trees: seq<ETree>, e: ETree)
    requires e in trees
    ensures TreeUses(sem, e) <= TreesUses(sem, trees)
    decreases |trees|
  {
    if e != trees[0] {
      TreeUsesWithin(sem, trees[1..], e);
    }
  }

  /** What the members of a prefix use. */
  ghost function UsesOf(sem: Sem, ms: seq<Member>): map<nat, set<nat>>
    decreases |ms|
  {
    if ms == [] then map[] else
      var last := ms[|ms| - 1];
      UsesOf(sem, ms[..|ms| - 1])[last.node := MemberUses(sem, last)]
  }

  ghost predicate WellFormed(sem: Sem, ms: seq<Member>) {
    && (forall i, j :: 0 <= i < j < |ms| ==> ms[i].node != ms[j].node)
    && (forall i, e :: 0 <= i < |ms| && e in ms[i].trees ==>
          Full(e) && (ms[i].node in sem.inPlace || NoSelf(sem, ms[i].node, e)))
    && (forall j, x :: 0 <= j < |ms| && x in ms[j].deps ==> exists i :: 0 <= i < j && ms[i].node == x)
  }

  /** A register updated in place has one tree, and comes after its readers. */
  ghost predicate ReadersFirst(sem: Sem, ms: seq<Member>) {
    && (forall i :: 0 <= i < |ms| && ms[i].node in sem.inPlace ==> |ms[i].trees| <= 1)
    && (forall i, j :: 0 <= i < j < |ms| && ms[i].node in sem.inPlace ==> ms[i].node !in MemberUses(sem, ms[j]))
  }

  /** Members that touch each other's nodes are ordered by a dependency. */
  ghost predicate ConflictsOrdered(sem: Sem, ms: seq<Member>) {
    forall i, j :: 0 <= i < j < |ms| && (ms[i].node in MemberUses(sem, ms[j]) || ms[j].node in MemberUses(sem, ms[i]))
      ==> ms[i].node in ms[j].deps
  }

  /** Running the members one after the other. */
  function RunMembers(sem: Sem, ms: seq<Member>, st: Store): Store
    decreases |ms|
  {
    if ms == [] then st else
      var last := ms[|ms| - 1];
      RunTrees(sem, last.node, last.trees, RunMembers(sem, ms[..|ms| - 1], st))
  }

  lemma {:induction false} UsesOfDomain(sem: Sem, ms: seq<Member>)
    requires forall i, j :: 0 <= i < j < |ms| ==> ms[i].node != ms[j].node
    ensures forall i :: 0 <= i < |ms| ==>
              ms[i].node in UsesOf(sem, ms) && UsesOf(sem, ms)[ms[i].node] == MemberUses(sem, ms[i])
    ensures forall m :: m in UsesOf(sem, ms) ==> exists i :: 0 <= i < |ms| && ms[i].node == m
    decreases |ms|
  {
    if ms != [] {
      var front := ms[..|ms| - 1];
      UsesOfDomain(sem, front);
      forall m | m in UsesOf(sem, ms) ensures exists i :: 0 <= i < |ms| && ms[i].node == m {
        if m != ms[|ms| - 1].node {
          var i :| 0 <= i < |front| && front[i].node == m;
          assert ms[i].node == m;
        } else {
          assert ms[|ms| - 1].node == m;
        }
      }
      forall i | 0 <= i < |ms|
        ensures ms[i].node in UsesOf(sem, ms) && UsesOf(sem, ms)[ms[i].node] == MemberUses(sem, ms[i])
      {
        if i < |front| {
          assert front[i] == ms[i];
        }
      }
    }
  }

  lemma {:induction false} SourcedGrows(sem: Sem, uses: map<nat, set<nat>>, more: map<nat, set<nat>>, c: seq<Stmt>)
    requires SourcedSeq(sem, uses, c) && (forall m :: m in uses ==> m in more && more[m] == uses[m])
    ensures SourcedSeq(sem, more, c)
    decreases c
  {
    forall i | 0 <= i < |c| ensures Sourced(sem, more, c[i]) {
      assert Sourced(sem, uses, c[i]);
      match c[i] {
        case Assign(_, _) =>
        case Branch(_, a, b) =>
          SourcedGrows(sem, uses, more, a);
          SourcedGrows(sem, uses, more, b);
        case Block(items) => SourcedGrows(sem, uses, more, items);
      }
    }
  }

  /** The state after k members. */
  ghost predicate BuiltTo(sem: Sem, ms: seq<Member>, k: nat, root: seq<Stmt>, all: map<nat, seq<nat>>)
    requires k <= |ms|
  {
    && SourcedSeq(sem, UsesOf(sem, ms[..k]), root) && PathsHold(root, all)
    && (forall m :: m in all <==> exists i :: 0 <= i < k && ms[i].node == m)
    && (forall m :: AssignsSeq(root, m) ==> m in all)
    && (forall st :: ExecSeq(sem, root, st) == RunMembers(sem, ms[..k], st))
  }

  lemma DepsDone(sem: Sem, ms: seq<Member>, k: nat, root: seq<Stmt>, all: map<nat, seq<nat>>)
    requires WellFormed(sem, ms) && k < |ms| && BuiltTo(sem, ms, k, root, all)
    ensures forall m :: m in ms[k].deps ==> m in all
    ensures ms[k].node !in all && ms[k].node !in ms[k].deps && forall e :: e in ms[k].trees ==> Full(e)
  {
    forall m | m in ms[k].deps ensures m in all {
      var i :| 0 <= i < k && ms[i].node == m;
    }
  }

  lemma MemberApart(sem: Sem, ms: seq<Member>, k: nat)
    requires WellFormed(sem, ms) && ConflictsOrdered(sem, ms) && k < |ms|
    ensures Apart(UsesOf(sem, ms[..k + 1]), ms[k].node, Elements(ms[k].deps) + {ms[k].node})
  {
    var ms1 := ms[..k + 1];
    var uses, n := UsesOf(sem, ms1), ms[k].node;
    UsesOfDomain(sem, ms1);
    assert ms1[k] == ms[k];
    forall m | m in uses && m !in Elements(ms[k].deps) + {n} ensures m !in uses[n] && n !in uses[m] {
      var i :| 0 <= i < |ms1| && ms1[i].node == m;
      assert ms1[i] == ms[i] && i < k;
      assert m !in ms[k].deps;
    }
  }

  lemma MemberStep(sem: Sem, ms: seq<Member>, k: nat, root: seq<Stmt>, all: map<nat, seq<nat>>, prev: seq<nat>,
                   m: Merged)
    requires SemOk(sem) && WellFormed(sem, ms) && ConflictsOrdered(sem, ms) && ReadersFirst(sem, ms) && k < |ms|
             && BuiltTo(sem, ms, k, root, all)
    requires forall x :: x in ms[k].deps ==> x in all
    requires forall e :: e in ms[k].trees ==> Full(e)
    requires prev == PrevPath(all, ms[k].deps, [])
             && m == MergeTrees(sem.arrays, ms[k].node, ms[k].trees, root, prev, [])
    ensures BuiltTo(sem, ms, k + 1, m.stmts, all[ms[k].node := m.path])
  {
    var n := ms[k].node;
    MemberTrees(sem, ms, k, root, all, prev, m);
    OthersKept(sem, ms, k, root, all, prev, m, all[n := m.path]);
  }

  lemma MemberTrees(sem: Sem, ms: seq<Member>, k: nat, root: seq<Stmt>, all: map<nat, seq<nat>>, prev: seq<nat>,
                    m: Merged)
    requires SemOk(sem) && WellFormed(sem, ms) && ConflictsOrdered(sem, ms) && ReadersFirst(sem, ms) && k < |ms|
             && BuiltTo(sem, ms, k, root, all)
    requires forall x :: x in ms[k].deps ==> x in all
    requires forall e :: e in ms[k].trees ==> Full(e)
    requires prev == PrevPath(all, ms[k].deps, [])
             && m == MergeTrees(sem.arrays, ms[k].node, ms[k].trees, root, prev, [])
    ensures ms[k].node !in all && SourcedSeq(sem, UsesOf(sem, ms[..k + 1]), m.stmts) && Rooted(m.path)
            && Bounded(m.stmts, m.path, 1, {ms[k].node})
    ensures forall st :: ExecSeq(sem, m.stmts, st) == RunMembers(sem, ms[..k + 1], st)
  {
    var n, q := ms[k].node, Elements(ms[k].deps);
    var uses := UsesOf(sem, ms[..k + 1]);
    MemberReady(sem, ms, k, root, all, prev);
    forall st ensures ExecSeq(sem, m.stmts, st) == RunMembers(sem, ms[..k + 1], st) {
      TreesStep(sem, uses, n, ms[k].trees, root, prev, [], q, st);
      assert ms[..k + 1][..k] == ms[..k];
    }
    TreesStep(sem, uses, n, ms[k].trees, root, prev, [], q, map[]);
  }

  /** What has to hold before the trees of member k are merged. */
  lemma MemberReady(sem: Sem, ms: seq<Member>, k: nat, root: seq<Stmt>, all: map<nat, seq<nat>>, prev: seq<nat>)
    requires SemOk(sem) && WellFormed(sem, ms) && ConflictsOrdered(sem, ms) && ReadersFirst(sem, ms) && k < |ms|
             && BuiltTo(sem, ms, k, root, all)
    requires forall x :: x in ms[k].deps ==> x in all
    requires prev == PrevPath(all, ms[k].deps, [])
    ensures var n, q := ms[k].node, Elements(ms[k].deps); var uses := UsesOf(sem, ms[..k + 1]);
            && n !in all && n !in q && Apart(uses, n, q + {n}) && SourcedSeq(sem, uses, root)
            && (forall e :: e in ms[k].trees ==> TreeOk(sem, uses, n, e))
            && Rooted(prev) && Bounded(root, prev, 1, q) && Bounded(root, [], 1, {n}) && ReadsFirst(sem, root, n)
              && Sealed(sem, uses, n, root)
  {
    var n, q := ms[k].node, Elements(ms[k].deps);
    DepsDone(sem, ms, k, root, all);
    MemberApart(sem, ms, k);
    MemberSourced(sem, ms, k, root);
    assert ClearSeq(root, {});
    ClearIsBounded(root, [], 1, {});
    PrevPathBounds(root, all, ms[k].deps, [], {});
    assert {} + q == q;
    assert !AssignsSeq(root, n);
    assert ClearSeq(root, {n}) && Bounded(root, [], 1, {n});
    NoStatementReadsFirst(sem, root, n);
    MemberSealed(sem, ms, k, root, all);
  }

  lemma MemberSealed(sem: Sem, ms: seq<Member>, k: nat, root: seq<Stmt>, all: map<nat, seq<nat>>)
    requires WellFormed(sem, ms) && ReadersFirst(sem, ms) && k < |ms| && BuiltTo(sem, ms, k, root, all)
    ensures Sealed(sem, UsesOf(sem, ms[..k + 1]), ms[k].node, root)
  {
    UsesOfDomain(sem, ms[..k + 1]);
    assert ms[..k + 1][k] == ms[k];
    forall m | m in sem.inPlace && AssignsSeq(root, m) ensures m != ms[k].node && m !in MemberUses(sem, ms[k]) {
      assert m in all;
      var i :| 0 <= i < k && ms[i].node == m;
    }
  }

  lemma MemberSourced(sem: Sem, ms: seq<Member>, k: nat, root: seq<Stmt>)
    requires WellFormed(sem, ms) && k < |ms| && SourcedSeq(sem, UsesOf(sem, ms[..k]), root)
    ensures SourcedSeq(sem, UsesOf(sem, ms[..k + 1]), root)
    ensures forall e :: e in ms[k].trees ==> TreeOk(sem, UsesOf(sem, ms[..k + 1]), ms[k].node, e)
  {
    assert ms[..k + 1][..k] == ms[..k];
    UsesOfDomain(sem, ms[..k]);
    UsesOfDomain(sem, ms[..k + 1]);
    SourcedGrows(sem, UsesOf(sem, ms[..k]), UsesOf(sem, ms[..k + 1]), root);
    forall e | e in ms[k].trees ensures TreeOk(sem, UsesOf(sem, ms[..k + 1]), ms[k].node, e) {
      assert ms[..k + 1][k] == ms[k];
      TreeUsesWithin(sem, ms[k].trees, e);
    }
  }

  lemma OthersKept(sem: Sem, ms: seq<Member>, k: nat, root: seq<Stmt>, all: map<nat, seq<nat>>, prev: seq<nat>,
                   m: Merged, all1: map<nat, seq<nat>>)
    requires WellFormed(sem, ms) && k < |ms| && BuiltTo(sem, ms, k, root, all) && ms[k].node !in all
    requires all1 == all[ms[k].node := m.path]
    requires forall e :: e in ms[k].trees ==> Full(e)
    requires m == MergeTrees(sem.arrays, ms[k].node, ms[k].trees, root, prev, [])
    requires Rooted(m.path) && Bounded(m.stmts, m.path, 1, {ms[k].node})
    ensures PathsHold(m.stmts, all1)
    ensures forall x :: AssignsSeq(m.stmts, x) ==> x in all || x == ms[k].node
    ensures forall x :: x in all1 <==> exists i :: 0 <= i < k + 1 && ms[i].node == x
  {
    var n := ms[k].node;
    forall x | x in all1 ensures Bounded(m.stmts, all1[x], 1, {x}) && Rooted(all1[x]) {
      if x != n {
        TreesKeepBounds(sem.arrays, n, ms[k].trees, root, prev, [], all[x], x);
      }
    }
    forall x | AssignsSeq(m.stmts, x) ensures x in all || x == n {
      if x != n {
        TreesKeepBounds(sem.arrays, n, ms[k].trees, root, prev, [], [], x);
      }
    }
    forall x ensures x in all1 <==> exists i :: 0 <= i < k + 1 && ms[i].node == x {
      if x in all {
        var i :| 0 <= i < k && ms[i].node == x;
      }
    }
  }

  method PrevOrderPath(all: map<nat, seq<nat>>, deps: seq<nat>) returns (prev: seq<nat>)
    requires forall m :: m in deps ==> m in all
    ensures prev == PrevPath(all, deps, [])
  {
    prev := [];
    var i := 0;
    while i < |deps|
      invariant 0 <= i <= |deps|
      invariant PrevPath(all, deps[i..], prev) == PrevPath(all, deps, [])
    {
      assert deps[i..][0] == deps[i] && deps[i..][1..] == deps[i + 1..];
      prev := MergePath(prev, all[deps[i]], 0);
      i := i + 1;
    }
  }

  /** A member with one tree at most that depends on no other. */
  ghost predicate IsFree(m: Member) {
    m.deps == [] && |m.trees| <= 1
  }

  lemma FreeShares(arrays: set<nat>, m: Member, root: seq<Stmt>)
    requires Shared(root) && IsFree(m) && forall e :: e in m.trees ==> Full(e)
    ensures Shared(MergeTrees(arrays, m.node, m.trees, root, [], []).stmts)
  {
    if m.trees != [] {
      assert Full(m.trees[0]);
      MergeTreeShares(arrays, m.node, m.trees[0], root);
    }
  }

  /** generateStmtTree for one supernode: the tree does what the members do in turn. */
  method GenerateStmtTree(ghost sem: Sem, arrays: set<nat>, ms: seq<Member>) returns (root: seq<Stmt>)
    requires arrays == sem.arrays && SemOk(sem) && WellFormed(sem, ms) && ConflictsOrdered(sem, ms)
             && ReadersFirst(sem, ms)
    ensures forall st :: ExecSeq(sem, root, st) == RunMembers(sem, ms, st)
    ensures forall m :: AssignsSeq(root, m) ==> exists i :: 0 <= i < |ms| && ms[i].node == m
    ensures (forall i :: 0 <= i < |ms| ==> IsFree(ms[i])) ==> Shared(root)
  {
    root := [];
    var all: map<nat, seq<nat>> := map[];
    var k := 0;
    assert ms[..0] == [];
    while k < |ms|
      invariant 0 <= k <= |ms|
      invariant BuiltTo(sem, ms, k, root, all)
      invariant (forall i :: 0 <= i < k ==> IsFree(ms[i])) ==> Shared(root)
    {
      DepsDone(sem, ms, k, root, all);
      var prev := PrevOrderPath(all, ms[k].deps);
      var m := MergeAll(arrays, ms[k].node, ms[k].trees, root, prev);
      MemberStep(sem, ms, k, root, all, prev, m);
      if Shared(root) && IsFree(ms[k]) {
        FreeShares(arrays, ms[k], root);
      }
      root := m.stmts;
      all := all[ms[k].node := m.path];
      k := k + 1;
    }
    assert ms[..k] == ms;
  }

  method MergeAll(arrays: set<nat>, n: nat, trees: seq<ETree>, root: seq<Stmt>, prev: seq<nat>) returns (m: Merged)
    requires forall e :: e in trees ==> Full(e)
    ensures m == MergeTrees(arrays, n, trees, root, prev, [])
  {
    m := Merged(root, []);
    var i := 0;
    while i < |trees|
      invariant 0 <= i <= |trees|
      invariant MergeTrees(arrays, n, trees[i..], m.stmts, prev, m.path) == MergeTrees(arrays, n, trees, root, prev, [])
    {
      assert trees[i..][0] == trees[i] && trees[i..][1..] == trees[i + 1..];
      assert Full(trees[i]);
      m := MergeTree(arrays, n, trees[i], m.stmts, prev, m.path);
      i := i + 1;
    }
  }
}
