/** The statement tree of a supernode does what its members do one after the other. */
module StmtMergeMeaning {
  import opened StmtTree
  import opened StmtMerge
  import opened StmtMergeSteps

  // ----- statements come from members

  /** Every statement belongs to a member that uses at least what the statement uses, and
      no branch contains a statement of a node its condition reads, registers updated in
      place excepted. */
  ghost predicate Sourced(sem: Sem, uses: map<nat, set<nat>>, s: Stmt)
    decreases s
  {
    match s
    case Assign(m, r) => m in uses && sem.rhsUses(r) <= uses[m]
    case Branch(c, a, b) =>
      && SourcedSeq(sem, uses, a) && SourcedSeq(sem, uses, b)
      && (exists m :: Assigns(s, m))
      && (forall m :: Assigns(s, m) ==>
            m in uses && sem.condUses(c) <= uses[m] && (m !in sem.condUses(c) || m in sem.inPlace))
    case Block(items) => SourcedSeq(sem, uses, items)
  }

  ghost predicate SourcedSeq(sem: Sem, uses: map<nat, set<nat>>, c: seq<Stmt>)
    decreases c
  {
    forall i :: 0 <= i < |c| ==> Sourced(sem, uses, c[i])
  }

  lemma {:induction false} AssignsAreSourced(sem: Sem, uses: map<nat, set<nat>>, s: Stmt, m: nat)
    requires Sourced(sem, uses, s) && Assigns(s, m)
    ensures m in uses
    decreases s
  {
    if s.Block? {
      var i :| 0 <= i < |s.items| && Assigns(s.items[i], m);
      AssignsAreSourced(sem, uses, s.items[i], m);
    }
  }

  lemma {:induction false} UsesAreSourced(sem: Sem, uses: map<nat, set<nat>>, s: Stmt, x: nat) returns (m: nat)
    requires Sourced(sem, uses, s) && Uses(sem, s, x)
    ensures Assigns(s, m) && m in uses && x in uses[m]
    decreases s
  {
    match s {
      case Assign(n, _) => m := n;
      case Block(items) =>
        var i :| 0 <= i < |items| && Uses(sem, items[i], x);
        m := UsesAreSourced(sem, uses, items[i], x);
        assert AssignsSeq(items, m);
      case Branch(c, a, b) =>
        if x in sem.condUses(c) {
          m :| Assigns(s, m);
        } else if UsesSeq(sem, a, x) {
          var i :| 0 <= i < |a| && Uses(sem, a[i], x);
          m := UsesAreSourced(sem, uses, a[i], x);
          assert AssignsSeq(a, m);
        } else {
          var i :| 0 <= i < |b| && Uses(sem, b[i], x);
          m := UsesAreSourced(sem, uses, b[i], x);
          assert AssignsSeq(b, m);
        }
    }
  }

  /** Members outside p neither use n nor are used by it. */
  ghost predicate Apart(uses: map<nat, set<nat>>, n: nat, p: set<nat>) {
    n in uses && n in p && forall m :: m in uses && m !in p ==> m !in uses[n] && n !in uses[m]
  }

  lemma ClearIsApart(sem: Sem, uses: map<nat, set<nat>>, c: seq<Stmt>, n: nat, p: set<nat>)
    requires SourcedSeq(sem, uses, c) && ClearSeq(c, p) && Apart(uses, n, p)
    ensures !UsesSeq(sem, c, n) && !AssignsSeq(c, n)
    ensures forall x :: x in uses[n] ==> !AssignsSeq(c, x)
  {
    if UsesSeq(sem, c, n) {
      var i :| 0 <= i < |c| && Uses(sem, c[i], n);
      var m := UsesAreSourced(sem, uses, c[i], n);
    }
    forall x | x in uses[n] ensures !AssignsSeq(c, x) {
      if AssignsSeq(c, x) {
        var i :| 0 <= i < |c| && Assigns(c[i], x);
        AssignsAreSourced(sem, uses, c[i], x);
      }
    }
  }

  // ----- where the node's own statements are

  /** Nothing that reads n comes after a statement of n. */
  ghost predicate ReadsFirst(sem: Sem, c: seq<Stmt>, n: nat)
    decreases c
  {
    && (forall i, j :: 0 <= i < j < |c| && Assigns(c[i], n) ==> !Uses(sem, c[j], n))
    && (forall i :: 0 <= i < |c| && c[i].Branch? ==>
          ReadsFirst(sem, c[i].onTrue, n) && ReadsFirst(sem, c[i].onFalse, n))
  }

  lemma {:induction false} NoStatementReadsFirst(sem: Sem, c: seq<Stmt>, n: nat)
    requires !AssignsSeq(c, n)
    ensures ReadsFirst(sem, c, n)
    decreases c
  {
    forall i | 0 <= i < |c| && c[i].Branch?
      ensures ReadsFirst(sem, c[i].onTrue, n) && ReadsFirst(sem, c[i].onFalse, n)
    {
      assert !Assigns(c[i], n);
      NoStatementReadsFirst(sem, c[i].onTrue, n);
      NoStatementReadsFirst(sem, c[i].onFalse, n);
    }
  }

  // ----- erasing

  lemma RemoveOne(sem: Sem, c: seq<Stmt>, i: nat, n: nat, st: Store)
    requires SemOk(sem) && i < |c| && c[i].Assign? && c[i].node == n && ReadsFirst(sem, c, n)
    ensures EqualBut(ExecSeq(sem, c, st), ExecSeq(sem, c[..i] + c[i + 1..], st), n)
    ensures ReadsFirst(sem, c[..i] + c[i + 1..], n)
  {
    var before := ExecSeq(sem, c[..i], st);
    ExecSplit(sem, c, i, st);
    ExecConcat(sem, c[..i], c[i + 1..], st);
    assert Assigns(c[i], n);
    assert !UsesSeq(sem, c[i + 1..], n);
    BlindSeq(sem, c[i + 1..], Exec(sem, c[i], before), before, n);
    var c2 := c[..i] + c[i + 1..];
    assert forall j :: 0 <= j < |c2| ==> c2[j] == if j < i then c[j] else c[j + 1];
  }

  /** Dropping assignments to n changes n only, because nobody reads n after them. */
  lemma {:induction false} EraseMeaning(sem: Sem, c: seq<Stmt>, i: nat, n: nat, st: Store)
    requires SemOk(sem) && ReadsFirst(sem, c, n)
    ensures EqualBut(ExecSeq(sem, c, st), ExecSeq(sem, EraseFrom(c, i, n), st), n)
    ensures ReadsFirst(sem, EraseFrom(c, i, n), n)
    decreases |c| - i
  {
    if i < |c| {
      if c[i].Assign? && c[i].node == n {
        RemoveOne(sem, c, i, n, st);
        EraseMeaning(sem, c[..i] + c[i + 1..], i + 1, n, st);
      } else {
        EraseMeaning(sem, c, i + 1, n, st);
      }
    }
  }

  lemma {:induction false} EraseSourced(sem: Sem, uses: map<nat, set<nat>>, c: seq<Stmt>, n: nat)
    requires SourcedSeq(sem, uses, c)
    ensures SourcedSeq(sem, uses, EraseFrom(c, 0, n))
  {
    EraseOnlyDrops(c, 0, n);
    var c1 := EraseFrom(c, 0, n);
    forall i | 0 <= i < |c1| ensures Sourced(sem, uses, c1[i]) {
      assert c1[i] in c;
    }
  }

  // ----- the pieces of one merge

  ghost predicate TreeOk(sem: Sem, uses: map<nat, set<nat>>, n: nat, e: ETree) {
    Full(e) && (n in sem.inPlace || NoSelf(sem, n, e)) && n in uses && TreeUses(sem, e) <= uses[n]
  }

  /** A register that was updated in place is not read any more, and not updated again. */
  ghost predicate Sealed(sem: Sem, uses: map<nat, set<nat>>, n: nat, c: seq<Stmt>) {
    n in uses && forall m :: m in sem.inPlace && AssignsSeq(c, m) ==> m != n && m !in uses[n]
  }

  /** What has to hold where tree e of n is merged: p are the nodes it must stay behind. */
  ghost predicate MergeReady(sem: Sem, uses: map<nat, set<nat>>, n: nat, c: seq<Stmt>, d: nat, limit: bool,
                             path: seq<nat>, p: set<nat>) {
    && SemOk(sem) && SourcedSeq(sem, uses, c) && Apart(uses, n, p) && Sealed(sem, uses, n, c)
    && (if limit && d < |path| then Bounded(c, path, d, p) else ClearSeq(c, p))
    && (n !in sem.arrays && n !in sem.inPlace ==> ReadsFirst(sem, c, n))
  }

  lemma AppendMeaning(sem: Sem, s: Stmt, w: Stmt, st: Store)
    requires !s.Branch?
    ensures Exec(sem, Append(s, w), st) == Exec(sem, w, Exec(sem, s, st))
  {
    if s.Assign? {
      ExecConcat(sem, [s], [w], st);
      ExecOne(sem, s, st);
      ExecOne(sem, w, Exec(sem, s, st));
      assert [s] + [w] == [s, w];
    } else {
      ExecConcat(sem, s.items, [w], st);
      ExecOne(sem, w, Exec(sem, s, st));
    }
  }

  /** A statement of n put behind entry j acts as if it came last. */
  lemma InsertMeaning(sem: Sem, uses: map<nat, set<nat>>, n: nat, e: ETree, c: seq<Stmt>, j: nat, p: set<nat>,
                      st: Store)
    requires SemOk(sem) && SourcedSeq(sem, uses, c) && Apart(uses, n, p) && e.Leaf? && TreeUses(sem, e) <= uses[n]
    requires j < |c| && !c[j].Branch? && ClearSeq(c[j + 1..], p)
    ensures ExecSeq(sem, c[j := Append(c[j], Assign(n, e.rhs))], st) == RunTree(sem, n, e, ExecSeq(sem, c, st))
  {
    var w := Assign(n, e.rhs);
    var c2 := c[j := Append(c[j], w)];
    var y := c[j + 1..];
    var before := ExecSeq(sem, c[..j], st);
    ExecSplit(sem, c, j, st);
    ExecSplit(sem, c2, j, st);
    assert c2[..j] == c[..j] && c2[j + 1..] == y;
    AppendMeaning(sem, c[j], w, before);
    assert SourcedSeq(sem, uses, y);
    ClearIsApart(sem, uses, y, n, p);
    TreeCommutes(sem, n, e, y, Exec(sem, c[j], before));
  }

  lemma OverwriteMeaning(sem: Sem, n: nat, e: ETree, a: Store, b: Store)
    requires SemOk(sem) && e.Leaf? && n !in sem.rhsUses(e.rhs) && EqualBut(a, b, n)
    ensures RunTree(sem, n, e, a) == RunTree(sem, n, e, b)
  {
    assert EvalLocal(sem, e.rhs, a, b);
    var ra, rb := RunTree(sem, n, e, a), RunTree(sem, n, e, b);
    assert ra.Keys == rb.Keys;
  }

  /** Everything after the limit is clear, also after an erase. */
  lemma ClearAfterLimit(c: seq<Stmt>, d: nat, limit: bool, path: seq<nat>, p: set<nat>, j: nat)
    requires if limit && d < |path| then Bounded(c, path, d, p) else ClearSeq(c, p)
    requires j < |c| && (limit && d < |path| ==> j >= path[d])
    ensures ClearSeq(c[j + 1..], p)
  {
    var y := c[j + 1..];
    forall k | 0 <= k < |y| ensures Clear(y[k], p) {
      assert y[k] == c[j + 1 + k];
    }
  }

  lemma {:induction false} EraseNone(c: seq<Stmt>, i: nat, n: nat)
    requires !AssignsSeq(c, n)
    ensures EraseFrom(c, i, n) == c
    decreases |c| - i
  {
    if i < |c| {
      assert !Assigns(c[i], n);
      EraseNone(c, i + 1, n);
    }
  }

  lemma LeafMeaning(sem: Sem, uses: map<nat, set<nat>>, n: nat, e: ETree, c: seq<Stmt>, d: nat, limit: bool,
                    path: seq<nat>, np: seq<nat>, p: set<nat>, st: Store)
    requires e.Leaf? && TreeOk(sem, uses, n, e) && MergeReady(sem, uses, n, c, d, limit, path, p)
    ensures ExecSeq(sem, Merge(sem.arrays, n, e, c, d, limit, path, np).stmts, st)
            == RunTree(sem, n, e, ExecSeq(sem, c, st))
  {
    var lim := limit && d < |path|;
    var c1 := if n !in sem.arrays && !e.invalid then EraseFrom(c, 0, n) else c;
    if n in sem.inPlace {
      EraseNone(c, 0, n);
    } else if n !in sem.arrays && !e.invalid {
      EraseMeaning(sem, c, 0, n, st);
      EraseSourced(sem, uses, c, n);
      OverwriteMeaning(sem, n, e, ExecSeq(sem, c, st), ExecSeq(sem, c1, st));
      if lim {
        EraseBounded(c, 0, n, path, d, p);
      } else {
        EraseOnlyDrops(c, 0, n);
        forall i | 0 <= i < |c1| ensures Clear(c1[i], p) {
          assert c1[i] in c;
        }
      }
    }
    var j := FindPlain(c1, if !lim then 0 else if path[d] < |c1| then path[d] else |c1|);
    if j < |c1| {
      ClearAfterLimit(c1, d, limit, path, p, j);
      InsertMeaning(sem, uses, n, e, c1, j, p, st);
    } else {
      ExecConcat(sem, c1, [Assign(n, e.rhs)], st);
      ExecOne(sem, Assign(n, e.rhs), ExecSeq(sem, c1, st));
    }
  }

  lemma {:induction false} GenerateMeaning(sem: Sem, n: nat, e: ETree, st: Store)
    requires !e.Nil?
    ensures Exec(sem, Generate(n, e), st) == RunTree(sem, n, e, st)
  {
    match e {
      case Leaf(_, _) =>
      case When(c, t, f) =>
        if sem.test(c, st) {
          if !t.Nil? {
            GenerateMeaning(sem, n, t, st);
            ExecOne(sem, Generate(n, t), st);
          }
        } else if !f.Nil? {
          GenerateMeaning(sem, n, f, st);
          ExecOne(sem, Generate(n, f), st);
        }
    }
  }

  lemma SealedBranch(sem: Sem, uses: map<nat, set<nat>>, n: nat, c: seq<Stmt>, i: nat)
    requires Sealed(sem, uses, n, c) && i < |c| && c[i].Branch?
    ensures Sealed(sem, uses, n, c[i].onTrue) && Sealed(sem, uses, n, c[i].onFalse)
  {
    forall m | m in sem.inPlace && (AssignsSeq(c[i].onTrue, m) || AssignsSeq(c[i].onFalse, m))
      ensures m != n && m !in uses[n]
    {
      assert Assigns(c[i], m);
    }
  }

  /** The branch that takes the tree in is itself ready for its two subtrees. */
  lemma BranchReady(sem: Sem, uses: map<nat, set<nat>>, n: nat, c: seq<Stmt>, d: nat, limit: bool, path: seq<nat>,
                    p: set<nat>, i: nat)
    requires MergeReady(sem, uses, n, c, d, limit, path, p) && i < |c| && c[i].Branch?
    requires limit && d < |path| ==> i >= path[d]
    ensures var next := limit && d < |path| && path[d] == i;
            MergeReady(sem, uses, n, c[i].onTrue, d + 1, next, path, p)
              && MergeReady(sem, uses, n, c[i].onFalse, d + 1, next, path, p)
  {
    assert Sourced(sem, uses, c[i]);
    SealedBranch(sem, uses, n, c, i);
    if limit && d < |path| && path[d] == i {
      assert Bounded(c[i].onTrue, path, d + 1, p) && Bounded(c[i].onFalse, path, d + 1, p);
    } else {
      ClearBranch(c[i], p);
    }
  }

  /** Executing a branch does not change its own condition. */
  lemma ConditionStays(sem: Sem, uses: map<nat, set<nat>>, s: Stmt, st: Store)
    requires SemOk(sem) && s.Branch? && Sourced(sem, uses, s) && forall m :: m in sem.inPlace && Assigns(s, m) ==>
               m !in sem.condUses(s.cond)
    ensures sem.test(s.cond, Exec(sem, s, st)) == sem.test(s.cond, st)
  {
    FrameStmt(sem, s, st, sem.condUses(s.cond));
    assert TestLocal(sem, s.cond, st, Exec(sem, s, st));
  }

  /** Merging tree e of n has the effect of running e after the statements that are there. */
  lemma {:induction false} MergeMeaning(sem: Sem, uses: map<nat, set<nat>>, n: nat, e: ETree, c: seq<Stmt>, d: nat,
                                        limit: bool, path: seq<nat>, np: seq<nat>, p: set<nat>, st: Store)
    requires TreeOk(sem, uses, n, e) && MergeReady(sem, uses, n, c, d, limit, path, p)
    ensures ExecSeq(sem, Merge(sem.arrays, n, e, c, d, limit, path, np).stmts, st)
            == RunTree(sem, n, e, ExecSeq(sem, c, st))
    decreases e
  {
    var lim := limit && d < |path|;
    match e {
      case Leaf(_, _) => LeafMeaning(sem, uses, n, e, c, d, limit, path, np, p, st);
      case When(cond, t, f) =>
        var i := FindBranch(c, cond, if lim then path[d] else 0);
        if i < |c| {
          MatchedBranch(sem, uses, n, e, c, d, limit, path, np, p, i, ExecSeq(sem, c[..i], st));
          ClearAfterLimit(c, d, limit, path, p, i);
          MatchedMeaning(sem, uses, n, e, c, i, Merge(sem.arrays, n, e, c, d, limit, path, np).stmts[i], p, st);
        } else {
          ExecConcat(sem, c, [Generate(n, e)], st);
          ExecOne(sem, Generate(n, e), ExecSeq(sem, c, st));
          GenerateMeaning(sem, n, e, ExecSeq(sem, c, st));
        }
    }
  }

  /** The branch that takes the tree in acts like the old branch followed by the tree. */
  lemma {:induction false} MatchedBranch(sem: Sem, uses: map<nat, set<nat>>, n: nat, e: ETree, c: seq<Stmt>, d: nat,
                                         limit: bool, path: seq<nat>, np: seq<nat>, p: set<nat>, i: nat, before: Store)
    requires e.When? && TreeOk(sem, uses, n, e) && MergeReady(sem, uses, n, c, d, limit, path, p)
    requires i < |c| && i == FindBranch(c, e.cond, if limit && d < |path| then path[d] else 0)
    ensures var r := Merge(sem.arrays, n, e, c, d, limit, path, np).stmts;
            r == c[i := r[i]] && Exec(sem, r[i], before) == RunTree(sem, n, e, Exec(sem, c[i], before))
    decreases e, 0
  {
    var lim := limit && d < |path|;
    var t, f := e.onTrue, e.onFalse;
    var np1 := AddDepth(np, d, i);
    var next := lim && path[d] == i;
    var mf := if f.Nil? then Merged(c[i].onFalse, np1)
      else Merge(sem.arrays, n, f, c[i].onFalse, d + 1, next, path, np1);
    BranchReady(sem, uses, n, c, d, limit, path, p, i);
    if !f.Nil? {
      MergeMeaning(sem, uses, n, f, c[i].onFalse, d + 1, next, path, np1, p, before);
    }
    if !t.Nil? {
      MergeMeaning(sem, uses, n, t, c[i].onTrue, d + 1, next, path, mf.path, p, before);
    }
    CondUntouched(sem, uses, n, e, c, i);
    ConditionStays(sem, uses, c[i], before);
    var r := Merge(sem.arrays, n, e, c, d, limit, path, np).stmts;
    BranchExec(sem, n, e, c[i], r[i], before);
  }

  lemma BranchExec(sem: Sem, n: nat, e: ETree, s: Stmt, s2: Stmt, before: Store)
    requires e.When? && s.Branch? && s2.Branch? && s.cond == e.cond && s2.cond == e.cond
    requires sem.test(s.cond, Exec(sem, s, before)) == sem.test(s.cond, before)
    requires ExecSeq(sem, s2.onTrue, before) == RunTree(sem, n, e.onTrue, ExecSeq(sem, s.onTrue, before))
    requires ExecSeq(sem, s2.onFalse, before) == RunTree(sem, n, e.onFalse, ExecSeq(sem, s.onFalse, before))
    ensures Exec(sem, s2, before) == RunTree(sem, n, e, Exec(sem, s, before))
  {
  }

  /** The statements of the branch write nothing its condition reads. */
  lemma CondUntouched(sem: Sem, uses: map<nat, set<nat>>, n: nat, e: ETree, c: seq<Stmt>, i: nat)
    requires e.When? && TreeOk(sem, uses, n, e) && SourcedSeq(sem, uses, c) && Sealed(sem, uses, n, c)
    requires i < |c| && c[i].Branch? && c[i].cond == e.cond
    ensures Sourced(sem, uses, c[i]) && forall m :: m in sem.inPlace && Assigns(c[i], m) ==>
              m !in sem.condUses(c[i].cond)
  {
    forall m | m in sem.inPlace && Assigns(c[i], m) ensures m !in sem.condUses(c[i].cond) {
      assert AssignsSeq(c, m);
    }
  }

  lemma MatchedMeaning(sem: Sem, uses: map<nat, set<nat>>, n: nat, e: ETree, c: seq<Stmt>, i: nat, s2: Stmt,
                       p: set<nat>, st: Store)
    requires SemOk(sem) && SourcedSeq(sem, uses, c) && Apart(uses, n, p) && TreeUses(sem, e) <= uses[n]
    requires i < |c| && ClearSeq(c[i + 1..], p)
    requires Exec(sem, s2, ExecSeq(sem, c[..i], st)) == RunTree(sem, n, e, Exec(sem, c[i], ExecSeq(sem, c[..i], st)))
    ensures ExecSeq(sem, c[i := s2], st) == RunTree(sem, n, e, ExecSeq(sem, c, st))
  {
    var c2 := c[i := s2];
    var y := c[i + 1..];
    ExecSplit(sem, c, i, st);
    ExecSplit(sem, c2, i, st);
    assert c2[..i] == c[..i] && c2[i + 1..] == y;
    assert SourcedSeq(sem, uses, y);
    ClearIsApart(sem, uses, y, n, p);
    TreeCommutes(sem, n, e, y, Exec(sem, c[i], ExecSeq(sem, c[..i], st)));
  }

  // ----- what the merge keeps

  lemma AppendSourced(sem: Sem, uses: map<nat, set<nat>>, s: Stmt, w: Stmt)
    requires !s.Branch? && Sourced(sem, uses, s) && Sourced(sem, uses, w)
    ensures Sourced(sem, uses, Append(s, w))
  {
    var items := Append(s, w).items;
    forall i | 0 <= i < |items| ensures Sourced(sem, uses, items[i]) {
      assert items[i] == w || items[i] == s || (s.Block? && i < |s.items| && items[i] == s.items[i]);
    }
  }

  lemma {:induction false} GenerateSourced(sem: Sem, uses: map<nat, set<nat>>, n: nat, e: ETree)
    requires TreeOk(sem, uses, n, e)
    ensures Sourced(sem, uses, Generate(n, e))
  {
    if e.When? {
      var s := Generate(n, e);
      if !e.onTrue.Nil? {
        GenerateSourced(sem, uses, n, e.onTrue);
      }
      if !e.onFalse.Nil? {
        GenerateSourced(sem, uses, n, e.onFalse);
      }
      GenerateAssigns(n, e, n);
      forall m | Assigns(s, m) ensures m == n {
        GenerateAssigns(n, e, m);
      }
    }
  }

  lemma LeafSourced(sem: Sem, uses: map<nat, set<nat>>, n: nat, e: ETree, c: seq<Stmt>, d: nat, limit: bool,
                    path: seq<nat>, np: seq<nat>)
    requires e.Leaf? && TreeOk(sem, uses, n, e) && SourcedSeq(sem, uses, c)
    ensures SourcedSeq(sem, uses, Merge(sem.arrays, n, e, c, d, limit, path, np).stmts)
  {
    var lim := limit && d < |path|;
    var c1 := if n !in sem.arrays && !e.invalid then EraseFrom(c, 0, n) else c;
    EraseSourced(sem, uses, c, n);
    var j := FindPlain(c1, if !lim then 0 else if path[d] < |c1| then path[d] else |c1|);
    assert Sourced(sem, uses, Assign(n, e.rhs));
    if j < |c1| {
      AppendSourced(sem, uses, c1[j], Assign(n, e.rhs));
    }
  }

  /** Two branches on the same condition that gain only statements of n. */
  lemma BranchSourced(sem: Sem, uses: map<nat, set<nat>>, n: nat, e: ETree, s: Stmt, a: seq<Stmt>, b: seq<Stmt>)
    requires e.When? && TreeOk(sem, uses, n, e) && s.Branch? && s.cond == e.cond && Sourced(sem, uses, s)
    requires SourcedSeq(sem, uses, a) && SourcedSeq(sem, uses, b) && (AssignsSeq(a, n) || AssignsSeq(b, n))
    requires forall m :: AssignsSeq(a, m) || AssignsSeq(b, m) ==> m == n || Assigns(s, m)
    ensures Sourced(sem, uses, Branch(e.cond, a, b))
  {
    var s2 := Branch(e.cond, a, b);
    assert Assigns(s2, n);
    forall m | Assigns(s2, m)
      ensures m in uses && sem.condUses(e.cond) <= uses[m] && (m !in sem.condUses(e.cond) || m in sem.inPlace)
    {
      assert m == n || Assigns(s, m);
    }
  }

  /** Merging keeps every statement within a member's reads. */
  lemma {:induction false} MergeSourced(sem: Sem, uses: map<nat, set<nat>>, n: nat, e: ETree, c: seq<Stmt>, d: nat,
                                        limit: bool, path: seq<nat>, np: seq<nat>)
    requires TreeOk(sem, uses, n, e) && SourcedSeq(sem, uses, c)
    ensures SourcedSeq(sem, uses, Merge(sem.arrays, n, e, c, d, limit, path, np).stmts)
    decreases e
  {
    match e {
      case Leaf(_, _) => LeafSourced(sem, uses, n, e, c, d, limit, path, np);
      case When(cond, t, f) =>
        var i := FindBranch(c, cond, if limit && d < |path| then path[d] else 0);
        if i < |c| {
          MatchedSourced(sem, uses, n, e, c, d, limit, path, np, i);
        } else {
          GenerateSourced(sem, uses, n, e);
        }
    }
  }

  lemma {:induction false} MatchedSourced(sem: Sem, uses: map<nat, set<nat>>, n: nat, e: ETree, c: seq<Stmt>, d: nat,
                                          limit: bool, path: seq<nat>, np: seq<nat>, i: nat)
    requires e.When? && TreeOk(sem, uses, n, e) && SourcedSeq(sem, uses, c)
    requires i < |c| && i == FindBranch(c, e.cond, if limit && d < |path| then path[d] else 0)
    ensures SourcedSeq(sem, uses, Merge(sem.arrays, n, e, c, d, limit, path, np).stmts)
    decreases e, 0
  {
    var lim := limit && d < |path|;
    var t, f := e.onTrue, e.onFalse;
    var np1 := AddDepth(np, d, i);
    var next := lim && path[d] == i;
    var mf := if f.Nil? then Merged(c[i].onFalse, np1)
      else Merge(sem.arrays, n, f, c[i].onFalse, d + 1, next, path, np1);
    assert Sourced(sem, uses, c[i]);
    if !f.Nil? {
      MergeSourced(sem, uses, n, f, c[i].onFalse, d + 1, next, path, np1);
    }
    if !t.Nil? {
      MergeSourced(sem, uses, n, t, c[i].onTrue, d + 1, next, path, mf.path);
    }
    MatchedAssigns(sem.arrays, n, e, c, d, limit, path, np, i);
    var r := Merge(sem.arrays, n, e, c, d, limit, path, np).stmts;
    BranchSourced(sem, uses, n, e, c[i], r[i].onTrue, r[i].onFalse);
  }

  /** The branch that takes the tree in gains statements of n and no others. */
  lemma MatchedAssigns(arrays: set<nat>, n: nat, e: ETree, c: seq<Stmt>, d: nat, limit: bool, path: seq<nat>,
                       np: seq<nat>, i: nat)
    requires e.When? && Full(e) && i < |c| && i == FindBranch(c, e.cond, if limit && d < |path| then path[d] else 0)
    ensures var s := Merge(arrays, n, e, c, d, limit, path, np).stmts[i];
            && s.Branch? && (AssignsSeq(s.onTrue, n) || AssignsSeq(s.onFalse, n))
            && forall m :: AssignsSeq(s.onTrue, m) || AssignsSeq(s.onFalse, m) ==> m == n || Assigns(c[i], m)
  {
    var lim := limit && d < |path|;
    var t, f := e.onTrue, e.onFalse;
    var np1 := AddDepth(np, d, i);
    var next := lim && path[d] == i;
    var mf := if f.Nil? then Merged(c[i].onFalse, np1) else Merge(arrays, n, f, c[i].onFalse, d + 1, next, path, np1);
    var s := Merge(arrays, n, e, c, d, limit, path, np).stmts[i];
    if !f.Nil? {
      MergeAssigns(arrays, n, f, c[i].onFalse, d + 1, next, path, np1, n);
    } else {
      MergeAssigns(arrays, n, t, c[i].onTrue, d + 1, next, path, mf.path, n);
    }
    forall m | AssignsSeq(s.onTrue, m) || AssignsSeq(s.onFalse, m) ensures m == n || Assigns(c[i], m) {
      if !f.Nil? {
        MergeAssigns(arrays, n, f, c[i].onFalse, d + 1, next, path, np1, m);
      }
      if !t.Nil? {
        MergeAssigns(arrays, n, t, c[i].onTrue, d + 1, next, path, mf.path, m);
      }
    }
  }

  lemma {:induction false} GenerateUses(sem: Sem, n: nat, e: ETree, x: nat)
    requires !e.Nil? && Uses(sem, Generate(n, e), x)
    ensures x in TreeUses(sem, e)
  {
    if e.When? {
      var s := Generate(n, e);
      if UsesSeq(sem, s.onTrue, x) {
        GenerateUses(sem, n, e.onTrue, x);
      } else if UsesSeq(sem, s.onFalse, x) {
        GenerateUses(sem, n, e.onFalse, x);
      }
    }
  }

  lemma AppendUses(sem: Sem, s: Stmt, w: Stmt, x: nat)
    requires !s.Branch? && Uses(sem, Append(s, w), x)
    ensures Uses(sem, s, x) || Uses(sem, w, x)
  {
    var items := Append(s, w).items;
    var i :| 0 <= i < |items| && Uses(sem, items[i], x);
    assert items[i] == w || items[i] == s || (s.Block? && i < |s.items| && items[i] == s.items[i]);
  }

  /** Merging adds no reads beyond those of the tree. */
  lemma {:induction false} MergeUses(sem: Sem, n: nat, e: ETree, c: seq<Stmt>, d: nat, limit: bool, path: seq<nat>,
                                     np: seq<nat>, x: nat)
    requires Full(e) && UsesSeq(sem, Merge(sem.arrays, n, e, c, d, limit, path, np).stmts, x)
    ensures UsesSeq(sem, c, x) || x in TreeUses(sem, e)
    decreases e
  {
    var lim := limit && d < |path|;
    var r := Merge(sem.arrays, n, e, c, d, limit, path, np).stmts;
    var k :| 0 <= k < |r| && Uses(sem, r[k], x);
    match e {
      case Leaf(rhs, invalid) =>
        var c1 := if n !in sem.arrays && !invalid then EraseFrom(c, 0, n) else c;
        EraseOnlyDrops(c, 0, n);
        var j := FindPlain(c1, if !lim then 0 else if path[d] < |c1| then path[d] else |c1|);
        if k < |c1| {
          if j == k {
            AppendUses(sem, c1[j], Assign(n, rhs), x);
          }
          assert c1[k] in c;
        } else {
          assert r[k] == Assign(n, rhs);
        }
      case When(cond, t, f) =>
        var i := FindBranch(c, cond, if lim then path[d] else 0);
        if i < |c| {
          if k == i {
            MatchedUses(sem, n, e, c, d, limit, path, np, i, x);
          } else {
            assert r[k] == c[k];
          }
        } else if k == |c| {
          GenerateUses(sem, n, e, x);
        } else {
          assert r[k] == c[k];
        }
    }
  }

  lemma {:induction false} MatchedUses(sem: Sem, n: nat, e: ETree, c: seq<Stmt>, d: nat, limit: bool, path: seq<nat>,
                                       np: seq<nat>, i: nat, x: nat)
    requires Full(e) && e.When? && i < |c| && i == FindBranch(c, e.cond, if limit && d < |path| then path[d] else 0)
    requires Uses(sem, Merge(sem.arrays, n, e, c, d, limit, path, np).stmts[i], x)
    ensures Uses(sem, c[i], x) || x in TreeUses(sem, e)
    decreases e, 0
  {
    var lim := limit && d < |path|;
    var t, f := e.onTrue, e.onFalse;
    var np1 := AddDepth(np, d, i);
    var next := lim && path[d] == i;
    var mf := if f.Nil? then Merged(c[i].onFalse, np1)
      else Merge(sem.arrays, n, f, c[i].onFalse, d + 1, next, path, np1);
    var mt := if t.Nil? then Merged(c[i].onTrue, mf.path)
      else Merge(sem.arrays, n, t, c[i].onTrue, d + 1, next, path, mf.path);
    if UsesSeq(sem, mf.stmts, x) && !f.Nil? {
      MergeUses(sem, n, f, c[i].onFalse, d + 1, next, path, np1, x);
    }
    if UsesSeq(sem, mt.stmts, x) && !t.Nil? {
      MergeUses(sem, n, t, c[i].onTrue, d + 1, next, path, mf.path, x);
    }
  }
}
