/** What one call of mergeExpTree does to the statement tree and to the recorded paths. */
module StmtMergeSteps {
  import opened StmtTree
  import opened StmtMerge

  // ----- which statements there are

  lemma AssignsAt(c: seq<Stmt>, i: nat, s: Stmt, m: nat)
    requires i < |c| && AssignsSeq(c[i := s], m)
    ensures Assigns(s, m) || AssignsSeq(c, m)
  {
    var k :| 0 <= k < |c[i := s]| && Assigns(c[i := s][k], m);
    assert k != i ==> Assigns(c[k], m);
  }

  lemma {:induction false} EraseOnlyDrops(c: seq<Stmt>, i: nat, n: nat)
    ensures forall s :: s in EraseFrom(c, i, n) ==> s in c
    decreases |c| - i
  {
    if i < |c| {
      if c[i].Assign? && c[i].node == n {
        EraseOnlyDrops(c[..i] + c[i + 1..], i + 1, n);
      } else {
        EraseOnlyDrops(c, i + 1, n);
      }
    }
  }

  lemma SubsetAssigns(c: seq<Stmt>, d: seq<Stmt>, m: nat)
    requires (forall s :: s in d ==> s in c) && AssignsSeq(d, m)
    ensures AssignsSeq(c, m)
  {
    var k :| 0 <= k < |d| && Assigns(d[k], m);
    assert d[k] in c;
  }

  lemma AppendAssigns(s: Stmt, n: nat, r: nat, m: nat)
    requires !s.Branch?
    ensures Assigns(Append(s, Assign(n, r)), m) <==> Assigns(s, m) || m == n
  {
    var items := Append(s, Assign(n, r)).items;
    assert Assigns(items[|items| - 1], n);
    if s.Assign? {
      assert items == [s, Assign(n, r)];
      assert Assigns(items[0], m) <==> Assigns(s, m);
      assert Assigns(items[1], m) <==> m == n;
    } else {
      assert forall i :: 0 <= i < |s.items| ==> items[i] == s.items[i];
      if AssignsSeq(s.items, m) {
        var i :| 0 <= i < |s.items| && Assigns(s.items[i], m);
        assert Assigns(items[i], m);
      }
      if AssignsSeq(items, m) && m != n {
        var i :| 0 <= i < |items| && Assigns(items[i], m);
        assert items[|s.items|] == Assign(n, r) && i < |s.items|;
        assert Assigns(s.items[i], m);
      }
    }
  }

  lemma {:induction false} GenerateAssigns(n: nat, e: ETree, m: nat)
    requires Full(e)
    ensures Assigns(Generate(n, e), m) <==> m == n
  {
    match e {
      case Leaf(_, _) =>
      case When(c, t, f) =>
        var s := Generate(n, e);
        if !t.Nil? {
          GenerateAssigns(n, t, m);
          assert s.onTrue[0] == Generate(n, t);
        }
        if !f.Nil? {
          GenerateAssigns(n, f, m);
          assert s.onFalse[0] == Generate(n, f);
        }
    }
  }

  /** Merging adds statements of n and no others. */
  lemma {:induction false} MergeAssigns(arrays: set<nat>, n: nat, e: ETree, c: seq<Stmt>, d: nat, limit: bool,
                                        path: seq<nat>, np: seq<nat>, m: nat)
    requires Full(e)
    ensures var r := Merge(arrays, n, e, c, d, limit, path, np).stmts;
            AssignsSeq(r, n) && (AssignsSeq(r, m) ==> m == n || AssignsSeq(c, m))
    decreases e
  {
    var lim := limit && d < |path|;
    var r := Merge(arrays, n, e, c, d, limit, path, np).stmts;
    match e {
      case When(cond, t, f) =>
        var i := FindBranch(c, cond, if lim then path[d] else 0);
        if i < |c| {
          var np1 := AddDepth(np, d, i);
          var next := lim && path[d] == i;
          var mf := if f.Nil? then Merged(c[i].onFalse, np1)
            else Merge(arrays, n, f, c[i].onFalse, d + 1, next, path, np1);
          if !f.Nil? {
            MergeAssigns(arrays, n, f, c[i].onFalse, d + 1, next, path, np1, m);
          }
          if !t.Nil? {
            MergeAssigns(arrays, n, t, c[i].onTrue, d + 1, next, path, mf.path, m);
          }
          assert Assigns(r[i], n);
          if AssignsSeq(r, m) {
            AssignsAt(c, i, r[i], m);
            assert Assigns(r[i], m) && m != n ==> Assigns(c[i], m);
          }
        } else {
          GenerateAssigns(n, e, m);
          GenerateAssigns(n, e, n);
          assert r[|c|] == Generate(n, e);
        }
      case Leaf(rhs, invalid) =>
        var c1 := if n !in arrays && !invalid then EraseFrom(c, 0, n) else c;
        EraseOnlyDrops(c, 0, n);
        var j := FindPlain(c1, if !lim then 0 else if path[d] < |c1| then path[d] else |c1|);
        if j < |c1| {
          AppendAssigns(c1[j], n, rhs, n);
          AppendAssigns(c1[j], n, rhs, m);
          assert Assigns(r[j], n);
          if AssignsSeq(r, m) {
            AssignsAt(c1, j, r[j], m);
            assert Assigns(c1[j], m) ==> AssignsSeq(c1, m);
          }
        } else {
          assert r[|c1|] == Assign(n, rhs);
          assert Assigns(r[|c1|], n);
          assert forall k :: 0 <= k < |c1| ==> r[k] == c1[k];
          if AssignsSeq(r, m) && m != n {
            var k :| 0 <= k < |r| && Assigns(r[k], m);
            assert Assigns(c1[k], m);
          }
        }
        if AssignsSeq(r, m) && m != n {
          assert AssignsSeq(c1, m);
          SubsetAssigns(c, c1, m);
        }
    }
  }

  // ----- positions of other nodes

  lemma EraseOneBounded(c: seq<Stmt>, i: nat, path: seq<nat>, d: nat, q: set<nat>)
    requires i < |c| && Bounded(c, path, d, q)
    ensures Bounded(c[..i] + c[i + 1..], path, d, q)
  {
    var c2 := c[..i] + c[i + 1..];
    assert forall j :: 0 <= j < |c2| ==> c2[j] == if j < i then c[j] else c[j + 1];
    if d < |path| && path[d] < |c2| && c2[path[d]].Branch? && path[d] >= i {
      ClearBranch(c2[path[d]], q);
      ClearIsBounded(c2[path[d]].onTrue, path, d + 1, q);
      ClearIsBounded(c2[path[d]].onFalse, path, d + 1, q);
    }
  }

  /** An erased statement only moves others forward. */
  lemma {:induction false} EraseBounded(c: seq<Stmt>, i: nat, n: nat, path: seq<nat>, d: nat, q: set<nat>)
    requires Bounded(c, path, d, q)
    ensures Bounded(EraseFrom(c, i, n), path, d, q)
    decreases |c| - i
  {
    if i < |c| {
      if c[i].Assign? && c[i].node == n {
        EraseOneBounded(c, i, path, d, q);
        EraseBounded(c[..i] + c[i + 1..], i + 1, n, path, d, q);
      } else {
        EraseBounded(c, i + 1, n, path, d, q);
      }
    }
  }

  lemma MergeClear(arrays: set<nat>, n: nat, e: ETree, c: seq<Stmt>, d: nat, limit: bool, path: seq<nat>, np: seq<nat>,
                   q: set<nat>)
    requires Full(e) && n !in q && ClearSeq(c, q)
    ensures ClearSeq(Merge(arrays, n, e, c, d, limit, path, np).stmts, q)
  {
    var r := Merge(arrays, n, e, c, d, limit, path, np).stmts;
    forall i, m | 0 <= i < |r| && m in q ensures !Assigns(r[i], m) {
      MergeAssigns(arrays, n, e, c, d, limit, path, np, m);
      assert !AssignsSeq(c, m);
    }
  }

  /** The recorded paths of other nodes stay valid. */
  lemma {:induction false} MergeKeepsBounds(arrays: set<nat>, n: nat, e: ETree, c: seq<Stmt>, d: nat, limit: bool,
                                            path: seq<nat>, np: seq<nat>, w: seq<nat>, q: set<nat>)
    requires Full(e) && n !in q && Bounded(c, w, d, q)
    ensures Bounded(Merge(arrays, n, e, c, d, limit, path, np).stmts, w, d, q)
    decreases e
  {
    var lim := limit && d < |path|;
    var r := Merge(arrays, n, e, c, d, limit, path, np).stmts;
    if d >= |w| {
      MergeClear(arrays, n, e, c, d, limit, path, np, q);
      return;
    }
    match e {
      case When(cond, t, f) =>
        var i := FindBranch(c, cond, if lim then path[d] else 0);
        if i < |c| {
          var np1 := AddDepth(np, d, i);
          var next := lim && path[d] == i;
          var mf := if f.Nil? then Merged(c[i].onFalse, np1)
            else Merge(arrays, n, f, c[i].onFalse, d + 1, next, path, np1);
          if i == w[d] {
            if !f.Nil? {
              MergeKeepsBounds(arrays, n, f, c[i].onFalse, d + 1, next, path, np1, w, q);
            }
            if !t.Nil? {
              MergeKeepsBounds(arrays, n, t, c[i].onTrue, d + 1, next, path, mf.path, w, q);
            }
          } else if i > w[d] {
            BranchStaysClear(arrays, n, e, c, d, limit, path, np, q, i);
          }
        } else {
          NewBranchKeepsBounds(n, e, c, d, w, q);
        }
      case Leaf(rhs, invalid) =>
        LeafKeepsBounds(arrays, n, e, c, d, limit, path, np, w, q);
    }
  }

  lemma NewBranchKeepsBounds(n: nat, e: ETree, c: seq<Stmt>, d: nat, w: seq<nat>, q: set<nat>)
    requires Full(e) && n !in q && d < |w| && Bounded(c, w, d, q)
    ensures Bounded(c + [Generate(n, e)], w, d, q)
  {
    var r := c + [Generate(n, e)];
    forall m | m in q ensures !Assigns(Generate(n, e), m) {
      GenerateAssigns(n, e, m);
    }
    assert Clear(r[|c|], q);
    if w[d] == |c| && r[|c|].Branch? {
      ClearBranch(r[|c|], q);
      ClearIsBounded(r[|c|].onTrue, w, d + 1, q);
      ClearIsBounded(r[|c|].onFalse, w, d + 1, q);
    }
    assert forall k :: 0 <= k < |c| ==> r[k] == c[k];
  }

  /** A plain entry that takes in a statement outside q, or one at or before the path. */
  lemma InsertBounded(c: seq<Stmt>, j: nat, s: Stmt, w: seq<nat>, d: nat, q: set<nat>)
    requires j < |c| && !s.Branch? && d < |w| && Bounded(c, w, d, q)
    requires w[d] >= j || forall m :: m in q && Assigns(s, m) ==> Assigns(c[j], m)
    ensures Bounded(c[j := s], w, d, q)
  {
    var r := c[j := s];
    assert forall k :: 0 <= k < |r| && k != j ==> r[k] == c[k];
  }

  lemma AddBounded(c: seq<Stmt>, s: Stmt, w: seq<nat>, d: nat, q: set<nat>)
    requires !s.Branch? && d < |w| && Bounded(c, w, d, q) && (w[d] >= |c| || Clear(s, q))
    ensures Bounded(c + [s], w, d, q)
  {
    var r := c + [s];
    assert forall k :: 0 <= k < |c| ==> r[k] == c[k];
    assert r[|c|] == s;
  }

  lemma LeafKeepsBounds(arrays: set<nat>, n: nat, e: ETree, c: seq<Stmt>, d: nat, limit: bool, path: seq<nat>,
                        np: seq<nat>, w: seq<nat>, q: set<nat>)
    requires e.Leaf? && n !in q && d < |w| && Bounded(c, w, d, q)
    ensures Bounded(Merge(arrays, n, e, c, d, limit, path, np).stmts, w, d, q)
  {
    var lim := limit && d < |path|;
    var c1 := if n !in arrays && !e.invalid then EraseFrom(c, 0, n) else c;
    EraseBounded(c, 0, n, w, d, q);
    var j := FindPlain(c1, if !lim then 0 else if path[d] < |c1| then path[d] else |c1|);
    if j < |c1| {
      var s := Append(c1[j], Assign(n, e.rhs));
      forall m | m in q && Assigns(s, m) ensures Assigns(c1[j], m) {
        AppendAssigns(c1[j], n, e.rhs, m);
      }
      InsertBounded(c1, j, s, w, d, q);
    } else {
      AddBounded(c1, Assign(n, e.rhs), w, d, q);
    }
  }

  lemma BranchStaysClear(arrays: set<nat>, n: nat, e: ETree, c: seq<Stmt>, d: nat, limit: bool, path: seq<nat>,
                         np: seq<nat>, q: set<nat>, i: nat)
    requires Full(e) && e.When? && n !in q && i < |c| && Clear(c[i], q)
    requires i == FindBranch(c, e.cond, if limit && d < |path| then path[d] else 0)
    ensures Clear(Merge(arrays, n, e, c, d, limit, path, np).stmts[i], q)
  {
    var lim := limit && d < |path|;
    var np1 := AddDepth(np, d, i);
    var next := lim && path[d] == i;
    var t, f := e.onTrue, e.onFalse;
    ClearBranch(c[i], q);
    var mf := if f.Nil? then Merged(c[i].onFalse, np1) else Merge(arrays, n, f, c[i].onFalse, d + 1, next, path, np1);
    if !f.Nil? {
      MergeClear(arrays, n, f, c[i].onFalse, d + 1, next, path, np1, q);
    }
    if !t.Nil? {
      MergeClear(arrays, n, t, c[i].onTrue, d + 1, next, path, mf.path, q);
    }
  }

  // ----- the path of the node itself

  function Height(e: ETree): nat {
    match e
    case Nil => 0
    case Leaf(_, _) => 0
    case When(_, t, f) => 1 + if Height(t) >= Height(f) then Height(t) else Height(f)
  }

  ghost predicate ZerosFrom(a: seq<nat>, k: nat) {
    forall i :: k <= i < |a| ==> a[i] == 0
  }

  /** New branches record index 0 at every level, to at least the height of the tree. */
  lemma {:induction false} GeneratePathShape(e: ETree, depth: nat, path: seq<nat>)
    requires e.Nil? || Full(e)
    requires depth > 0 && |path| >= depth - 1 && |path| >= 1 && ZerosFrom(path, 1)
    ensures var r := GeneratePath(e, depth, path);
            |r| >= |path| && r[0] == path[0] && ZerosFrom(r, 1) && (!e.Nil? ==> |r| >= depth + Height(e))
    decreases e
  {
    match e {
      case Nil =>
      case Leaf(_, _) =>
      case When(_, t, f) =>
        var p := AddDepth(path, depth, 0);
        GeneratePathShape(f, depth + 1, p);
        GeneratePathShape(t, depth + 1, GeneratePath(f, depth + 1, p));
    }
  }

  lemma {:induction false} AddAllBounds(path: seq<nat>, d: nat, sub: seq<nat>)
    requires d <= |path| && |sub| > 0
    ensures var r := AddAll(path, d, sub);
            && |r| >= d + |sub| && r[..d] == path[..d] && NotBefore(r, path, d) && r[d] >= sub[0]
            && (|path| == d || sub[0] > path[d] ==> r[d] == sub[0])
            && (d < |path| && sub[0] <= path[d] ==> r[d] == path[d])
    decreases |sub|
  {
    var p1 := AddDepth(path, d, sub[0]);
    AddDepthBounds(path, d, sub[0]);
    if |sub| > 1 {
      var r := AddAll(path, d, sub);
      AddAllBounds(p1, d + 1, sub[1..]);
      assert r[..d] == r[..d + 1][..d] && r[d] == r[..d + 1][d];
      assert NotBefore(r, p1, d);
      NotBeforeTrans(r, p1, path, d);
    } else {
      assert sub[1..] == [];
      assert AddAll(path, d, sub) == p1;
    }
  }

  /** A path that is long enough bounds freshly built branches. */
  lemma {:induction false} GenerateBounded(n: nat, e: ETree, q: seq<nat>, k: nat)
    requires !e.Nil? && |q| >= k + 1 + Height(e)
    ensures Bounded([Generate(n, e)], q, k, {n})
    decreases e
  {
    if e.When? && q[k] == 0 {
      if !e.onTrue.Nil? {
        GenerateBounded(n, e.onTrue, q, k + 1);
      } else {
        ClearIsBounded([], q, k + 1, {n});
      }
      if !e.onFalse.Nil? {
        GenerateBounded(n, e.onFalse, q, k + 1);
      } else {
        ClearIsBounded([], q, k + 1, {n});
      }
    }
  }

  lemma SubPathShape(e: ETree, count: nat)
    requires Full(e)
    ensures var sub := SubPath(e, count); |sub| >= 1 + Height(e) && sub[0] == count
  {
    match e {
      case Leaf(_, _) =>
      case When(_, t, f) =>
        GeneratePathShape(f, 2, [count]);
        GeneratePathShape(t, 2, GeneratePath(f, 2, [count]));
    }
  }

  lemma NewBranchBounded(n: nat, e: ETree, c: seq<Stmt>, d: nat, np: seq<nat>)
    requires Full(e) && e.When? && d <= |np| && Bounded(c, np, d, {n})
    ensures var r := AddAll(np, d, SubPath(e, |c|));
            |r| > d && r[..d] == np[..d] && NotBefore(r, np, d) && Bounded(c + [Generate(n, e)], r, d, {n})
  {
    var sub := SubPath(e, |c|);
    SubPathShape(e, |c|);
    AddAllBounds(np, d, sub);
    var r := AddAll(np, d, sub);
    BoundedLater(c, r, np, d, {n});
    var c2 := c + [Generate(n, e)];
    assert forall k :: 0 <= k < |c| ==> c2[k] == c[k];
    if r[d] == |c| {
      var g := Generate(n, e);
      if !e.onTrue.Nil? {
        GenerateBounded(n, e.onTrue, r, d + 1);
      } else {
        ClearIsBounded([], r, d + 1, {n});
      }
      if !e.onFalse.Nil? {
        GenerateBounded(n, e.onFalse, r, d + 1);
      } else {
        ClearIsBounded([], r, d + 1, {n});
      }
      assert c2[r[d]] == g;
    }
  }

  lemma LeafPathBounds(arrays: set<nat>, n: nat, e: ETree, c: seq<Stmt>, d: nat, limit: bool, path: seq<nat>,
                       np: seq<nat>)
    requires e.Leaf? && d <= |np|
    ensures var r := Merge(arrays, n, e, c, d, limit, path, np);
            && |r.path| > d && r.path[..d] == np[..d] && NotBefore(r.path, np, d)
            && (Bounded(c, np, d, {n}) ==> Bounded(r.stmts, r.path, d, {n}))
  {
    var lim := limit && d < |path|;
    var r := Merge(arrays, n, e, c, d, limit, path, np);
    var c1 := if n !in arrays && !e.invalid then EraseFrom(c, 0, n) else c;
    var j := FindPlain(c1, if !lim then 0 else if path[d] < |c1| then path[d] else |c1|);
    AddDepthBounds(np, d, j);
    assert j < |c1| || j == |c1|;
    if Bounded(c, np, d, {n}) {
      EraseBounded(c, 0, n, np, d, {n});
      BoundedLater(c1, r.path, np, d, {n});
      if j < |c1| {
        InsertBounded(c1, j, Append(c1[j], Assign(n, e.rhs)), r.path, d, {n});
      } else {
        AddBounded(c1, Assign(n, e.rhs), r.path, d, {n});
      }
    }
  }

  /** The node's own path moves forward, and bounds all its statements afterwards. */
  lemma {:induction false} MergePathGrows(arrays: set<nat>, n: nat, e: ETree, c: seq<Stmt>, d: nat, limit: bool,
                                          path: seq<nat>, np: seq<nat>)
    requires Full(e) && d <= |np|
    ensures var r := Merge(arrays, n, e, c, d, limit, path, np);
            && |r.path| > d && r.path[..d] == np[..d] && NotBefore(r.path, np, d)
            && (Bounded(c, np, d, {n}) ==> Bounded(r.stmts, r.path, d, {n}))
    decreases e
  {
    var lim := limit && d < |path|;
    var r := Merge(arrays, n, e, c, d, limit, path, np);
    match e {
      case Leaf(_, _) => LeafPathBounds(arrays, n, e, c, d, limit, path, np);
      case When(cond, t, f) =>
        var i := FindBranch(c, cond, if lim then path[d] else 0);
        if i < |c| {
          MatchedPathBounds(arrays, n, e, c, d, limit, path, np, i);
        } else {
          SubPathShape(e, |c|);
          AddAllBounds(np, d, SubPath(e, |c|));
          if Bounded(c, np, d, {n}) {
            NewBranchBounded(n, e, c, d, np);
          }
        }
    }
  }

  lemma {:induction false} MatchedPathBounds(arrays: set<nat>, n: nat, e: ETree, c: seq<Stmt>, d: nat, limit: bool,
                                             path: seq<nat>, np: seq<nat>, i: nat)
    requires Full(e) && e.When? && d <= |np| && i < |c|
    requires i == FindBranch(c, e.cond, if limit && d < |path| then path[d] else 0)
    ensures var r := Merge(arrays, n, e, c, d, limit, path, np);
            && |r.path| > d && r.path[..d] == np[..d] && NotBefore(r.path, np, d)
            && (Bounded(c, np, d, {n}) ==> Bounded(r.stmts, r.path, d, {n}))
    decreases e, 0
  {
    var lim := limit && d < |path|;
    var r := Merge(arrays, n, e, c, d, limit, path, np);
    var t, f := e.onTrue, e.onFalse;
    var np1 := AddDepth(np, d, i);
    var next := lim && path[d] == i;
    AddDepthBounds(np, d, i);
    var mf := if f.Nil? then Merged(c[i].onFalse, np1) else Merge(arrays, n, f, c[i].onFalse, d + 1, next, path, np1);
    NotBeforeRefl(np1, d + 1);
    if !f.Nil? {
      MergePathGrows(arrays, n, f, c[i].onFalse, d + 1, next, path, np1);
    }
    var mt := if t.Nil? then Merged(c[i].onTrue, mf.path)
      else Merge(arrays, n, t, c[i].onTrue, d + 1, next, path, mf.path);
    NotBeforeRefl(mf.path, d + 1);
    if !t.Nil? {
      MergePathGrows(arrays, n, t, c[i].onTrue, d + 1, next, path, mf.path);
    }
    PathChain(np, np1, mf.path, mt.path, d);
    if Bounded(c, np, d, {n}) {
      BoundedLater(c, np1, np, d, {n});
      if i == np1[d] {
        BoundedLater(c[i].onTrue, mf.path, np1, d + 1, {n});
        BoundedLater(mf.stmts, mt.path, mf.path, d + 1, {n});
      }
      MatchedBounded(n, e.cond, c, i, d, np1, mt.path, mt.stmts, mf.stmts);
    }
  }

  lemma PathChain(np: seq<nat>, np1: seq<nat>, pf: seq<nat>, pt: seq<nat>, d: nat)
    requires d < |np1| && d < |pf| && d < |pt| && d <= |np| && np1[..d] == np[..d] && NotBefore(np1, np, d)
    requires pf[..d + 1] == np1[..d + 1] && pt[..d + 1] == pf[..d + 1] && NotBefore(pf, np1, d + 1)
             && NotBefore(pt, pf, d + 1)
    ensures pt[..d] == np[..d] && pt[d] == np1[d] && NotBefore(pt, np1, d + 1) && NotBefore(pt, np, d)
  {
    NotBeforeTrans(pt, pf, np1, d + 1);
    assert pf[d] == pf[..d + 1][d] && pt[d] == pt[..d + 1][d] && np1[d] == np1[..d + 1][d];
    assert pt[..d] == pt[..d + 1][..d] && pf[..d] == pf[..d + 1][..d] && np1[..d] == np1[..d + 1][..d];
    assert NotBefore(pt, np1, d);
    NotBeforeTrans(pt, np1, np, d);
  }

  lemma MatchedBounded(n: nat, cond: nat, c: seq<Stmt>, i: nat, d: nat, np1: seq<nat>, q: seq<nat>, a: seq<Stmt>,
                       b: seq<Stmt>)
    requires i < |c| && d < |np1| && d < |q| && q[d] == np1[d] && NotBefore(q, np1, d + 1) && i <= np1[d]
    requires Bounded(c, np1, d, {n})
    requires i == np1[d] ==> Bounded(a, q, d + 1, {n}) && Bounded(b, q, d + 1, {n})
    ensures Bounded(c[i := Branch(cond, a, b)], q, d, {n})
  {
    assert NotBefore(q, np1, d);
    BoundedLater(c, q, np1, d, {n});
  }
}
