/** Merging keeps the meaning of a supernode: the statement tree does what running the
    members' assignment trees one after the other does. */
module StmtMerge {
  import opened StmtTree

  // ----- what statements write and read

  ghost predicate Assigns(s: Stmt, m: nat)
    decreases s
  {
    match s
    case Assign(n, _) => n == m
    case Branch(_, a, b) => AssignsSeq(a, m) || AssignsSeq(b, m)
    case Block(items) => AssignsSeq(items, m)
  }

  ghost predicate AssignsSeq(c: seq<Stmt>, m: nat)
    decreases c
  {
    exists i :: 0 <= i < |c| && Assigns(c[i], m)
  }

  ghost predicate Uses(sem: Sem, s: Stmt, x: nat)
    decreases s
  {
    match s
    case Assign(_, r) => x in sem.rhsUses(r)
    case Branch(c, a, b) => x in sem.condUses(c) || UsesSeq(sem, a, x) || UsesSeq(sem, b, x)
    case Block(items) => UsesSeq(sem, items, x)
  }

  ghost predicate UsesSeq(sem: Sem, c: seq<Stmt>, x: nat)
    decreases c
  {
    exists i :: 0 <= i < |c| && Uses(sem, c[i], x)
  }

  ghost function TreeUses(sem: Sem, e: ETree): set<nat> {
    match e
    case Nil => {}
    case Leaf(r, _) => sem.rhsUses(r)
    case When(c, t, f) => sem.condUses(c) + TreeUses(sem, t) + TreeUses(sem, f)
  }

  /** No condition of the tree reads the node, and no right side of a scalar does. */
  ghost predicate NoSelf(sem: Sem, n: nat, e: ETree) {
    match e
    case Nil => true
    case Leaf(r, _) => n !in sem.arrays ==> n !in sem.rhsUses(r)
    case When(c, t, f) => n !in sem.condUses(c) && NoSelf(sem, n, t) && NoSelf(sem, n, f)
  }

  /** Every `when` of the tree assigns something. */
  ghost predicate Full(e: ETree) {
    match e
    case Nil => false
    case Leaf(_, _) => true
    case When(_, t, f) => (!t.Nil? || !f.Nil?) && (t.Nil? || Full(t)) && (f.Nil? || Full(f))
  }

  // ----- semantics is local

  ghost predicate AgreeOn(s: Store, k: Store, xs: set<nat>) {
    forall x :: x in xs ==> (x in s <==> x in k) && (x in s && x in k ==> s[x] == k[x])
  }

  ghost predicate TestLocal(sem: Sem, c: nat, s: Store, k: Store) {
    AgreeOn(s, k, sem.condUses(c)) ==> sem.test(c, s) == sem.test(c, k)
  }

  ghost predicate EvalLocal(sem: Sem, r: nat, s: Store, k: Store) {
    AgreeOn(s, k, sem.rhsUses(r)) ==> sem.eval(r, s) == sem.eval(r, k)
  }

  /** Conditions and right sides depend only on what they use. */
  ghost predicate SemOk(sem: Sem) {
    && (forall c: nat, s: Store, k: Store :: TestLocal(sem, c, s, k))
    && (forall r: nat, s: Store, k: Store :: EvalLocal(sem, r, s, k))
  }

  lemma {:induction false} ExecConcat(sem: Sem, a: seq<Stmt>, b: seq<Stmt>, st: Store)
    ensures ExecSeq(sem, a + b, st) == ExecSeq(sem, b, ExecSeq(sem, a, st))
  {
    if a == [] {
      assert a + b == b;
    } else {
      assert (a + b)[1..] == a[1..] + b;
      ExecConcat(sem, a[1..], b, Exec(sem, a[0], st));
    }
  }

  lemma ExecOne(sem: Sem, s: Stmt, st: Store)
    ensures ExecSeq(sem, [s], st) == Exec(sem, s, st)
  {
    assert [s][1..] == [];
  }

  lemma ExecSplit(sem: Sem, c: seq<Stmt>, i: nat, st: Store)
    requires i < |c|
    ensures ExecSeq(sem, c, st) == ExecSeq(sem, c[i + 1..], Exec(sem, c[i], ExecSeq(sem, c[..i], st)))
  {
    assert c == c[..i] + ([c[i]] + c[i + 1..]);
    ExecConcat(sem, c[..i], [c[i]] + c[i + 1..], st);
    ExecConcat(sem, [c[i]], c[i + 1..], ExecSeq(sem, c[..i], st));
    ExecOne(sem, c[i], ExecSeq(sem, c[..i], st));
  }

  /** Statements leave alone what they do not assign. */
  lemma {:induction false} FrameSeq(sem: Sem, c: seq<Stmt>, st: Store, xs: set<nat>)
    requires forall x :: x in xs ==> !AssignsSeq(c, x)
    ensures AgreeOn(st, ExecSeq(sem, c, st), xs)
    decreases c
  {
    if c != [] {
      var st1 := Exec(sem, c[0], st);
      assert forall x :: x in xs ==> !Assigns(c[0], x);
      FrameStmt(sem, c[0], st, xs);
      assert forall x :: x in xs ==> !AssignsSeq(c[1..], x);
      FrameSeq(sem, c[1..], st1, xs);
    }
  }

  lemma {:induction false} FrameStmt(sem: Sem, s: Stmt, st: Store, xs: set<nat>)
    requires forall x :: x in xs ==> !Assigns(s, x)
    ensures AgreeOn(st, Exec(sem, s, st), xs)
    decreases s
  {
    match s {
      case Assign(n, r) =>
      case Branch(c, a, b) =>
        if sem.test(c, st) {
          FrameSeq(sem, a, st, xs);
        } else {
          FrameSeq(sem, b, st, xs);
        }
      case Block(items) => FrameSeq(sem, items, st, xs);
    }
  }

  /** The stores are equal except perhaps at n. */
  ghost predicate EqualBut(s: Store, k: Store, n: nat) {
    forall x :: x != n ==> (x in s <==> x in k) && (x in s && x in k ==> s[x] == k[x])
  }

  /** Statements that do not read n cannot tell two such stores apart. */
  lemma {:induction false} BlindSeq(sem: Sem, c: seq<Stmt>, st: Store, k: Store, n: nat)
    requires SemOk(sem) && !UsesSeq(sem, c, n) && EqualBut(st, k, n)
    ensures EqualBut(ExecSeq(sem, c, st), ExecSeq(sem, c, k), n)
    decreases c
  {
    if c != [] {
      assert !Uses(sem, c[0], n);
      BlindStmt(sem, c[0], st, k, n);
      assert !UsesSeq(sem, c[1..], n);
      BlindSeq(sem, c[1..], Exec(sem, c[0], st), Exec(sem, c[0], k), n);
    }
  }

  lemma {:induction false} BlindStmt(sem: Sem, s: Stmt, st: Store, k: Store, n: nat)
    requires SemOk(sem) && !Uses(sem, s, n) && EqualBut(st, k, n)
    ensures EqualBut(Exec(sem, s, st), Exec(sem, s, k), n)
    decreases s
  {
    match s {
      case Assign(_, r) =>
        assert EvalLocal(sem, r, st, k);
      case Branch(c, a, b) =>
        assert TestLocal(sem, c, st, k);
        if sem.test(c, st) {
          BlindSeq(sem, a, st, k, n);
        } else {
          BlindSeq(sem, b, st, k, n);
        }
      case Block(items) => BlindSeq(sem, items, st, k, n);
    }
  }

  /** A tree only writes its node. */
  lemma {:induction false} TreeFrame(sem: Sem, n: nat, e: ETree, st: Store)
    ensures EqualBut(st, RunTree(sem, n, e, st), n)
  {
    match e {
      case Nil =>
      case Leaf(_, _) =>
      case When(c, t, f) =>
        if sem.test(c, st) {
          TreeFrame(sem, n, t, st);
        } else {
          TreeFrame(sem, n, f, st);
        }
    }
  }

  /** What it writes depends only on what it uses. */
  lemma {:induction false} TreeLocal(sem: Sem, n: nat, e: ETree, st: Store, k: Store)
    requires SemOk(sem) && AgreeOn(st, k, TreeUses(sem, e) + {n})
    ensures AgreeOn(RunTree(sem, n, e, st), RunTree(sem, n, e, k), {n})
  {
    match e {
      case Nil =>
      case Leaf(r, _) =>
        assert EvalLocal(sem, r, st, k);
      case When(c, t, f) =>
        assert TestLocal(sem, c, st, k);
        if sem.test(c, st) {
          TreeLocal(sem, n, t, st, k);
        } else {
          TreeLocal(sem, n, f, st, k);
        }
    }
  }

  /** A tree commutes with statements that neither read nor write its node, nor write what
      the tree uses. */
  lemma TreeCommutes(sem: Sem, n: nat, e: ETree, c: seq<Stmt>, st: Store)
    requires SemOk(sem) && !UsesSeq(sem, c, n) && !AssignsSeq(c, n)
    requires forall x :: x in TreeUses(sem, e) ==> !AssignsSeq(c, x)
    ensures RunTree(sem, n, e, ExecSeq(sem, c, st)) == ExecSeq(sem, c, RunTree(sem, n, e, st))
  {
    var after := ExecSeq(sem, c, st);
    var lhs := RunTree(sem, n, e, after);
    var first := RunTree(sem, n, e, st);
    var rhs := ExecSeq(sem, c, first);
    FrameSeq(sem, c, st, TreeUses(sem, e) + {n});
    TreeLocal(sem, n, e, st, after);
    TreeFrame(sem, n, e, after);
    TreeFrame(sem, n, e, st);
    BlindSeq(sem, c, st, first, n);
    FrameSeq(sem, c, first, {n});
    assert EqualBut(lhs, rhs, n) && AgreeOn(lhs, rhs, {n});
    assert n in {n};
    assert lhs.Keys == rhs.Keys by {
      forall x ensures x in lhs <==> x in rhs {
        if x == n {
          assert x in {n};
        }
      }
    }
    forall x | x in lhs ensures lhs[x] == rhs[x] {
      if x == n {
        assert x in {n};
      }
    }
  }

  // ----- paths bound positions

  /** No statement of a node in q. */
  ghost predicate Clear(s: Stmt, q: set<nat>) {
    forall m :: m in q ==> !Assigns(s, m)
  }

  ghost predicate ClearSeq(c: seq<Stmt>, q: set<nat>) {
    forall i :: 0 <= i < |c| ==> Clear(c[i], q)
  }

  /** No statement of a node in q comes after `path`, read from depth d on. */
  ghost predicate Bounded(c: seq<Stmt>, path: seq<nat>, d: nat, q: set<nat>)
    decreases |path| - d
  {
    if d >= |path| then ClearSeq(c, q)
    else
      && (forall j :: path[d] < j < |c| ==> Clear(c[j], q))
      && (path[d] < |c| && c[path[d]].Branch? ==>
            Bounded(c[path[d]].onTrue, path, d + 1, q) && Bounded(c[path[d]].onFalse, path, d + 1, q))
  }

  ghost predicate NotBefore(a: seq<nat>, b: seq<nat>, d: nat)
    decreases |b| - d
  {
    d >= |b| || (d < |a| && (a[d] > b[d] || (a[d] == b[d] && NotBefore(a, b, d + 1))))
  }

  lemma ClearBranch(s: Stmt, q: set<nat>)
    requires Clear(s, q) && s.Branch?
    ensures ClearSeq(s.onTrue, q) && ClearSeq(s.onFalse, q)
  {
    forall i | 0 <= i < |s.onTrue| ensures Clear(s.onTrue[i], q) {
      forall m | m in q ensures !Assigns(s.onTrue[i], m) {
        assert !AssignsSeq(s.onTrue, m);
      }
    }
    forall i | 0 <= i < |s.onFalse| ensures Clear(s.onFalse[i], q) {
      forall m | m in q ensures !Assigns(s.onFalse[i], m) {
        assert !AssignsSeq(s.onFalse, m);
      }
    }
  }

  lemma {:induction false} ClearIsBounded(c: seq<Stmt>, path: seq<nat>, d: nat, q: set<nat>)
    requires ClearSeq(c, q)
    ensures Bounded(c, path, d, q)
    decreases |path| - d
  {
    if d < |path| && path[d] < |c| && c[path[d]].Branch? {
      ClearBranch(c[path[d]], q);
      ClearIsBounded(c[path[d]].onTrue, path, d + 1, q);
      ClearIsBounded(c[path[d]].onFalse, path, d + 1, q);
    }
  }

  /** A later path bounds at least as much. */
  lemma {:induction false} BoundedLater(c: seq<Stmt>, a: seq<nat>, b: seq<nat>, d: nat, q: set<nat>)
    requires NotBefore(a, b, d) && Bounded(c, b, d, q)
    ensures Bounded(c, a, d, q)
    decreases |b| - d
  {
    if d >= |b| {
      ClearIsBounded(c, a, d, q);
    } else if a[d] < |c| && c[a[d]].Branch? {
      if a[d] > b[d] {
        ClearBranch(c[a[d]], q);
        ClearIsBounded(c[a[d]].onTrue, a, d + 1, q);
        ClearIsBounded(c[a[d]].onFalse, a, d + 1, q);
      } else {
        BoundedLater(c[a[d]].onTrue, a, b, d + 1, q);
        BoundedLater(c[a[d]].onFalse, a, b, d + 1, q);
      }
    }
  }

  lemma {:induction false} BoundedUnion(c: seq<Stmt>, path: seq<nat>, d: nat, q: set<nat>, r: set<nat>)
    requires Bounded(c, path, d, q) && Bounded(c, path, d, r)
    ensures Bounded(c, path, d, q + r)
    decreases |path| - d
  {
    if d < |path| && path[d] < |c| && c[path[d]].Branch? {
      BoundedUnion(c[path[d]].onTrue, path, d + 1, q, r);
      BoundedUnion(c[path[d]].onFalse, path, d + 1, q, r);
    }
  }

  lemma {:induction false} NotBeforeRefl(a: seq<nat>, d: nat)
    ensures NotBefore(a, a, d)
    decreases |a| - d
  {
    if d < |a| {
      NotBeforeRefl(a, d + 1);
    }
  }

  lemma {:induction false} NotBeforeTrans(a: seq<nat>, b: seq<nat>, c: seq<nat>, d: nat)
    requires NotBefore(a, b, d) && NotBefore(b, c, d)
    ensures NotBefore(a, c, d)
    decreases |c| - d
  {
    if d < |c| && a[d] == b[d] == c[d] {
      NotBeforeTrans(a, b, c, d + 1);
    }
  }

  lemma {:induction false} LaterBounds(a: seq<nat>, b: seq<nat>, i: nat)
    ensures NotBefore(Later(a, b, i), a, i) && NotBefore(Later(a, b, i), b, i)
    decreases |a| - i
  {
    if i >= |a| {
      NotBeforeRefl(b, i);
    } else if i >= |b| || a[i] > b[i] {
      NotBeforeRefl(a, i);
    } else if a[i] < b[i] {
      NotBeforeRefl(b, i);
    } else {
      LaterBounds(a, b, i + 1);
      LaterAgrees(a, b, i + 1);
    }
  }

  lemma {:induction false} LaterAgrees(a: seq<nat>, b: seq<nat>, i: nat)
    ensures Later(a, b, i) == a || Later(a, b, i) == b
    decreases |a| - i
  {
    if i < |a| && i < |b| && a[i] == b[i] {
      LaterAgrees(a, b, i + 1);
    }
  }

  /** The limit folded from several predecessors is not before any of them. */
  lemma {:induction false} MergePathBounds(prev: seq<nat>, p: seq<nat>, i: nat)
    requires i <= |prev|
    ensures var r := MergePath(prev, p, i);
            && |r| >= |prev| && r[..i] == prev[..i] && NotBefore(r, prev, i) && NotBefore(r, p, i)
    decreases |p| - i
  {
    NotBeforeRefl(prev, i);
    if i >= |p| {
    } else if i >= |prev| {
      MergePathBounds(prev + [p[i]], p, i + 1);
      var r := MergePath(prev, p, i);
      assert r[i] == r[..i + 1][i] && r[..i] == r[..i + 1][..i];
    } else if prev[i] <= p[i] {
      var up := prev[i := p[i]];
      MergePathBounds(up, p, i + 1);
      var r := MergePath(prev, p, i);
      assert r[i] == r[..i + 1][i] && r[..i] == r[..i + 1][..i];
      if prev[i] == p[i] {
        assert up == prev;
      }
    }
  }

  /** Recording an index moves the path forward and covers the index. */
  lemma AddDepthBounds(path: seq<nat>, d: nat, idx: nat)
    requires d <= |path|
    ensures var r := AddDepth(path, d, idx);
            && |r| > d && r[..d] == path[..d] && r[d] >= idx && NotBefore(r, path, d)
            && (d < |path| && idx <= path[d] ==> r == path)
            && (|path| == d || idx > path[d] ==> |r| == d + 1 && r[d] == idx)
  {
    NotBeforeRefl(path, d);
  }
}
