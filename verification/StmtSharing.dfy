/** When merging shares a branch (src/StmtTree.cpp, mergeExpTree). */
module StmtSharing {
  import opened StmtTree

  ghost predicate SameTest(a: Stmt, b: Stmt) {
    a.Branch? && b.Branch? && a.cond == b.cond
  }

  /** No two statements of one sequence test the same condition. */
  ghost predicate Shared(c: seq<Stmt>)
    decreases c
  {
    && (forall i, j :: 0 <= i < j < |c| ==> !SameTest(c[i], c[j]))
    && (forall i :: 0 <= i < |c| ==> SharedIn(c[i]))
  }

  ghost predicate SharedIn(s: Stmt)
    decreases s
  {
    match s
    case Assign(_, _) => true
    case Block(items) => forall i :: 0 <= i < |items| ==> items[i].Assign?
    case Branch(_, a, b) => Shared(a) && Shared(b)
  }

  lemma {:induction false} SharedGenerate(n: nat, e: ETree)
    requires !e.Nil?
    ensures SharedIn(Generate(n, e))
    decreases e
  {
    match e {
      case Leaf(_, _) =>
      case When(_, t, f) =>
        if !t.Nil? {
          SharedGenerate(n, t);
        }
        if !f.Nil? {
          SharedGenerate(n, f);
        }
    }
  }

  lemma {:induction false} SharedErase(c: seq<Stmt>, i: nat, n: nat)
    requires Shared(c)
    ensures Shared(EraseFrom(c, i, n))
    decreases |c| - i
  {
    if i < |c| {
      if c[i].Assign? && c[i].node == n {
        var r := c[..i] + c[i + 1..];
        forall a, b | 0 <= a < b < |r| ensures !SameTest(r[a], r[b]) {
          assert r[a] == c[if a < i then a else a + 1] && r[b] == c[if b < i then b else b + 1];
        }
        forall a | 0 <= a < |r| ensures SharedIn(r[a]) {
          assert r[a] == c[if a < i then a else a + 1];
        }
        SharedErase(r, i + 1, n);
      } else {
        SharedErase(c, i + 1, n);
      }
    }
  }

  lemma SharedUpdate(c: seq<Stmt>, i: nat, s: Stmt)
    requires Shared(c) && i < |c| && SharedIn(s)
    requires s.Branch? ==> SameTest(c[i], s)
    ensures Shared(c[i := s])
  {
    var r := c[i := s];
    forall a, b | 0 <= a < b < |r| ensures !SameTest(r[a], r[b]) {
      assert !SameTest(c[a], c[b]);
    }
    forall a | 0 <= a < |r| ensures SharedIn(r[a]) {
      assert SharedIn(c[a]);
    }
  }

  lemma SharedPush(c: seq<Stmt>, s: Stmt)
    requires Shared(c) && SharedIn(s) && forall i :: 0 <= i < |c| ==> !SameTest(c[i], s)
    ensures Shared(c + [s])
  {
    var r := c + [s];
    forall a, b | 0 <= a < b < |r| ensures !SameTest(r[a], r[b]) {
      if b < |c| {
        assert !SameTest(c[a], c[b]);
      }
    }
    forall a | 0 <= a < |r| ensures SharedIn(r[a]) {
      assert a < |c| ==> SharedIn(c[a]);
    }
  }

  lemma SharedAppend(s: Stmt, n: nat, r: nat)
    requires SharedIn(s) && !s.Branch?
    ensures SharedIn(Append(s, Assign(n, r)))
  {
  }

  lemma {:induction false} FindsFirst(c: seq<Stmt>, cond: nat, from: nat)
    ensures var i := FindBranch(c, cond, from);
            forall k :: from <= k < i && k < |c| ==> !(c[k].Branch? && c[k].cond == cond)
    decreases |c| - from
  {
    if from < |c| && !(c[from].Branch? && c[from].cond == cond) {
      FindsFirst(c, cond, from + 1);
    }
  }

  /** A tree joins the first branch on its condition at or after the limit, and changes nothing
      else; only where there is none does it add a branch, at the end. */
  lemma MergeReuses(arrays: set<nat>, n: nat, e: ETree, c: seq<Stmt>, depth: nat, limit: bool, path: seq<nat>,
                    np: seq<nat>, i: nat)
    requires e.When? && i < |c| && c[i].Branch? && c[i].cond == e.cond
    requires limit && depth < |path| ==> path[depth] <= i
    requires forall k :: 0 <= k < i && (limit && depth < |path| ==> path[depth] <= k) ==>
               !(c[k].Branch? && c[k].cond == e.cond)
    ensures var r := Merge(arrays, n, e, c, depth, limit, path, np).stmts;
            |r| == |c| && SameTest(r[i], c[i]) && forall k :: 0 <= k < |c| && k != i ==> r[k] == c[k]
  {
    var from := if limit && depth < |path| then path[depth] else 0;
    FindsFirst(c, e.cond, from);
    FindsAt(c, e.cond, from, i);
  }

  lemma {:induction false} FindsAt(c: seq<Stmt>, cond: nat, from: nat, i: nat)
    requires from <= i < |c| && c[i].Branch? && c[i].cond == cond
    requires forall k :: from <= k < i ==> !(c[k].Branch? && c[k].cond == cond)
    ensures FindBranch(c, cond, from) == i
    decreases i - from
  {
    if from < i {
      FindsAt(c, cond, from + 1, i);
    }
  }

  /** Without a limit no condition is tested twice in one sequence. */
  lemma {:induction false} MergeShares(arrays: set<nat>, n: nat, e: ETree, c: seq<Stmt>, depth: nat, limit: bool,
                                       np: seq<nat>)
    requires !e.Nil? && Shared(c)
    ensures Shared(Merge(arrays, n, e, c, depth, limit, [], np).stmts)
    decreases e
  {
    match e {
      case When(cond, t, f) =>
        var i := FindBranch(c, cond, 0);
        FindsFirst(c, cond, 0);
        if i < |c| {
          assert SharedIn(c[i]);
          var np1 := AddDepth(np, depth, i);
          var mf := if f.Nil? then Merged(c[i].onFalse, np1)
            else Merge(arrays, n, f, c[i].onFalse, depth + 1, false, [], np1);
          if !f.Nil? {
            MergeShares(arrays, n, f, c[i].onFalse, depth + 1, false, np1);
          }
          var mt := if t.Nil? then Merged(c[i].onTrue, mf.path)
            else Merge(arrays, n, t, c[i].onTrue, depth + 1, false, [], mf.path);
          if !t.Nil? {
            MergeShares(arrays, n, t, c[i].onTrue, depth + 1, false, mf.path);
          }
          SharedUpdate(c, i, Branch(cond, mt.stmts, mf.stmts));
        } else {
          SharedGenerate(n, e);
          SharedPush(c, Generate(n, e));
        }
      case Leaf(r, invalid) =>
        SharedErase(c, 0, n);
        var c1 := if n !in arrays && !invalid then EraseFrom(c, 0, n) else c;
        var j := FindPlain(c1, 0);
        if j < |c1| {
          SharedAppend(c1[j], n, r);
          SharedUpdate(c1, j, Append(c1[j], Assign(n, r)));
        } else {
          SharedPush(c1, Assign(n, r));
        }
    }
  }

  lemma MergeTreeShares(arrays: set<nat>, n: nat, e: ETree, root: seq<Stmt>)
    requires !e.Nil? && Shared(root)
    ensures Shared(MergeTree(arrays, n, e, root, [], []).stmts)
  {
    assert Later([], [], 0) == [];
    MergeShares(arrays, n, e, root, 1, true, AddDepth([], 0, 0));
  }
}
