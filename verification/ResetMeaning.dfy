/** What the body of a reset supernode does: all registers of a condition take their reset values
    when it holds, condition by condition (src/StmtTree.cpp, generateStmtTree;
    src/instsGenerator.cpp, StmtNode::compute). */
module ResetMeaning {
  import ST = StmtTree
  import opened ResetChunks
  import opened ResetBody
  import opened ResetExact
  import opened ResetRight

  // ----- what it should do

  /** The conditions in the order in which members bring them. */
  function CondsOf(ms: seq<Reset>): seq<nat>
    decreases |ms|
  {
    if ms == [] then []
    else
      var before, c := CondsOf(ms[..|ms| - 1]), ms[|ms| - 1].cond;
      if c in before then before else before + [c]
  }

  /** The resets of one condition among the first k members, one after the other. */
  function RunCond(sem: Sem, ms: seq<Reset>, c: nat, k: nat, st: Store): Store
    requires k <= |ms|
    decreases k
  {
    if k == 0 then st
    else
      var before := RunCond(sem, ms, c, k - 1, st);
      if ms[k - 1].cond == c && ms[k - 1].shown then sem.run(k - 1, before) else before
  }

  /** Each condition is tested once; if it holds, its registers are reset. */
  function RunConds(sem: Sem, ms: seq<Reset>, cs: seq<nat>, st: Store): Store
    decreases |cs|
  {
    if cs == [] then st
    else
      var before, c := RunConds(sem, ms, cs[..|cs| - 1], st), cs[|cs| - 1];
      if sem.test(c, before) then RunCond(sem, ms, c, |ms|, before) else before
  }

  // ----- the statement tree

  /** The members of a condition. */
  function Members(ms: seq<Reset>, c: nat, k: nat): seq<nat>
    requires k <= |ms|
    decreases k
  {
    if k == 0 then []
    else if ms[k - 1].cond == c then Members(ms, c, k - 1) + [k - 1] else Members(ms, c, k - 1)
  }

  function Rhs(s: ST.Stmt): nat {
    if s.Assign? then s.rhs else 0
  }

  function Numbers(s: ST.Stmt): seq<nat> {
    if s.Block? then seq(|s.items|, i requires 0 <= i < |s.items| => Rhs(s.items[i])) else [Rhs(s)]
  }

  /** One branch for a condition, holding its members in one leaf. */
  ghost predicate IsCond(ms: seq<Reset>, k: nat, c: nat, s: ST.Stmt)
    requires k <= |ms|
  {
    s.Branch? && s.cond == c && s.onFalse == [] && |s.onTrue| == 1 && IsLeaf(ms, s.onTrue[0])
    && Numbers(s.onTrue[0]) == Members(ms, c, k)
  }

  ghost predicate IsGrouped(ms: seq<Reset>, k: nat, body: seq<ST.Stmt>)
    requires k <= |ms|
  {
    var cs := CondsOf(ms[..k]);
    |body| == |cs| && forall j :: 0 <= j < |cs| ==> IsCond(ms, k, cs[j], body[j])
  }

  lemma {:induction false} CondsDistinct(ms: seq<Reset>)
    ensures forall i, j :: 0 <= i < j < |CondsOf(ms)| ==> CondsOf(ms)[i] != CondsOf(ms)[j]
    decreases |ms|
  {
    if ms != [] {
      CondsDistinct(ms[..|ms| - 1]);
    }
  }

  lemma {:induction false} CondsHave(ms: seq<Reset>, i: nat)
    requires i < |ms|
    ensures ms[i].cond in CondsOf(ms)
    decreases |ms|
  {
    if i < |ms| - 1 {
      CondsHave(ms[..|ms| - 1], i);
    }
  }

  lemma {:induction false} NoMembers(ms: seq<Reset>, c: nat, k: nat)
    requires k <= |ms| && c !in CondsOf(ms[..k])
    ensures Members(ms, c, k) == []
    decreases k
  {
    if k > 0 {
      CondsHave(ms[..k], k - 1);
      assert ms[..k][..k - 1] == ms[..k - 1];
      NoMembers(ms, c, k - 1);
    }
  }

  lemma {:induction false} MembersBelow(ms: seq<Reset>, c: nat, k: nat)
    requires k <= |ms|
    ensures forall i :: 0 <= i < |Members(ms, c, k)| ==> Members(ms, c, k)[i] < k
    decreases k
  {
    if k > 0 {
      MembersBelow(ms, c, k - 1);
    }
  }

  lemma {:induction false} FindsCond(body: seq<ST.Stmt>, cs: seq<nat>, c: nat, from: nat, j: nat)
    requires |body| == |cs| && from <= j < |cs| && cs[j] == c
    requires forall i :: 0 <= i < |cs| ==> body[i].Branch? && body[i].cond == cs[i]
    requires forall i :: from <= i < j ==> cs[i] != c
    ensures ST.FindBranch(body, c, from) == j
    decreases j - from
  {
    if from < j {
      FindsCond(body, cs, c, from + 1, j);
    }
  }

  lemma {:induction false} FindsNone(body: seq<ST.Stmt>, cs: seq<nat>, c: nat, from: nat)
    requires |body| == |cs| && from <= |cs| && c !in cs
    requires forall i :: 0 <= i < |cs| ==> body[i].Branch? && body[i].cond == cs[i]
    ensures ST.FindBranch(body, c, from) == |cs|
    decreases |cs| - from
  {
    if from < |cs| {
      FindsNone(body, cs, c, from + 1);
    }
  }

  /** A leaf takes one more member. */
  lemma LeafTakes(arrays: set<nat>, ms: seq<Reset>, k: nat, leaf: ST.Stmt, np: seq<nat>)
    requires NodesDiffer(ms) && k < |ms| && IsLeaf(ms, leaf)
    requires forall i :: 0 <= i < |Numbers(leaf)| ==> Numbers(leaf)[i] < k
    ensures var r := ST.Merge(arrays, ms[k].node, ST.Leaf(k, ms[k].invalid), [leaf], 2, false, [], np).stmts;
            |r| == 1 && IsLeaf(ms, r[0]) && Numbers(r[0]) == Numbers(leaf) + [k]
  {
    var n, w := ms[k].node, ST.Assign(ms[k].node, k);
    if leaf.Assign? {
      assert Numbers(leaf)[0] == leaf.rhs;
    }
    assert ST.EraseFrom([leaf], 1, n) == [leaf];
    assert ST.EraseFrom([leaf], 0, n) == [leaf];
    assert ST.FindPlain([leaf], 0) == 0;
    AppendKeeps(ms, leaf, w);
    var a := ST.Append(leaf, w);
    assert [leaf][0 := a] == [a];
    assert Numbers(a) == Numbers(leaf) + [k];
  }

  lemma GroupStep(arrays: set<nat>, ms: seq<Reset>, k: nat, body: seq<ST.Stmt>)
    requires NodesDiffer(ms) && k < |ms| && IsGrouped(ms, k, body)
    ensures IsGrouped(ms, k + 1, ST.MergeTree(arrays, ms[k].node, TreeOf(ms, k), body, [], []).stmts)
  {
    var cs, c := CondsOf(ms[..k]), ms[k].cond;
    NoLimit();
    assert ms[..k + 1][..k] == ms[..k] && ms[..k + 1][k] == ms[k];
    assert forall i :: 0 <= i < |cs| ==> IsCond(ms, k, cs[i], body[i]);
    if c in cs {
      var j :| 0 <= j < |cs| && cs[j] == c;
      CondsDistinct(ms[..k]);
      FindsCond(body, cs, c, 0, j);
      JoinsGroup(arrays, ms, k, body, j);
    } else {
      FindsNone(body, cs, c, 0);
      OpensGroup(arrays, ms, k, body);
    }
  }

  lemma JoinsGroup(arrays: set<nat>, ms: seq<Reset>, k: nat, body: seq<ST.Stmt>, j: nat)
    requires NodesDiffer(ms) && k < |ms| && IsGrouped(ms, k, body) && ST.Later([], [], 0) == []
    requires var cs := CondsOf(ms[..k]);
             j < |cs| && cs[j] == ms[k].cond && ST.FindBranch(body, ms[k].cond, 0) == j && CondsOf(ms[..k + 1]) == cs
    ensures IsGrouped(ms, k + 1, ST.MergeTree(arrays, ms[k].node, TreeOf(ms, k), body, [], []).stmts)
  {
    var cs, c := CondsOf(ms[..k]), ms[k].cond;
    assert IsCond(ms, k, c, body[j]);
    var leaf, np := body[j].onTrue[0], ST.AddDepth(ST.AddDepth([], 0, 0), 1, j);
    assert body[j].onTrue == [leaf];
    MembersBelow(ms, c, k);
    LeafTakes(arrays, ms, k, leaf, np);
    var m := ST.Merge(arrays, ms[k].node, ST.Leaf(k, ms[k].invalid), [leaf], 2, false, [], np);
    var r := ST.MergeTree(arrays, ms[k].node, TreeOf(ms, k), body, [], []).stmts;
    assert r == body[j := ST.Branch(c, m.stmts, [])];
    CondsDistinct(ms[..k]);
    forall i | 0 <= i < |cs| ensures IsCond(ms, k + 1, cs[i], r[i]) {
      assert IsCond(ms, k, cs[i], body[i]);
    }
  }

  lemma OpensGroup(arrays: set<nat>, ms: seq<Reset>, k: nat, body: seq<ST.Stmt>)
    requires k < |ms| && IsGrouped(ms, k, body) && ST.Later([], [], 0) == []
    requires var cs := CondsOf(ms[..k]);
             ms[k].cond !in cs && ST.FindBranch(body, ms[k].cond, 0) == |body|
               && CondsOf(ms[..k + 1]) == cs + [ms[k].cond]
    ensures IsGrouped(ms, k + 1, ST.MergeTree(arrays, ms[k].node, TreeOf(ms, k), body, [], []).stmts)
  {
    var cs, c, w := CondsOf(ms[..k]), ms[k].cond, ST.Assign(ms[k].node, k);
    var r := ST.MergeTree(arrays, ms[k].node, TreeOf(ms, k), body, [], []).stmts;
    assert ST.Generate(ms[k].node, ST.Leaf(k, ms[k].invalid)) == w;
    assert ST.Generate(ms[k].node, TreeOf(ms, k)) == ST.Branch(c, [w], []);
    assert r == body + [ST.Branch(c, [w], [])];
    NoMembers(ms, c, k);
    forall i | 0 <= i < |cs| + 1 ensures IsCond(ms, k + 1, (cs + [c])[i], r[i]) {
      if i < |cs| {
        assert IsCond(ms, k, cs[i], body[i]);
      }
    }
  }

  lemma {:induction false} BodyIsGrouped(arrays: set<nat>, ms: seq<Reset>, k: nat)
    requires NodesDiffer(ms) && k <= |ms|
    ensures IsGrouped(ms, k, Body(arrays, ms, k))
  {
    if k == 0 {
      assert ms[..0] == [];
    } else {
      BodyIsGrouped(arrays, ms, k - 1);
      GroupStep(arrays, ms, k - 1, Body(arrays, ms, k - 1));
    }
  }

  // ----- its stream

  lemma {:induction false} PlainConcat(a: seq<Inst>, b: seq<Inst>)
    ensures Plain(a + b) == Plain(a) + Plain(b)
    decreases |b|
  {
    if b == [] {
      assert a + b == a;
    } else {
      var n := |b| - 1;
      assert (a + b)[..|a + b| - 1] == a + b[..n] && (a + b)[|a + b| - 1] == b[n];
      PlainConcat(a, b[..n]);
    }
  }

  lemma {:induction false} PlainMarkers(n: nat)
    ensures Plain(Markers(n)) == []
  {
    if n > 0 {
      assert Markers(n)[..n - 1] == Markers(n - 1);
      PlainMarkers(n - 1);
    }
  }

  function RunInsts(sem: Sem, insts: seq<Inst>, x: Exec): Exec {
    Run(sem, Plain(insts), x)
  }

  lemma RunInstsConcat(sem: Sem, a: seq<Inst>, b: seq<Inst>, x: Exec)
    ensures RunInsts(sem, a + b, x) == RunInsts(sem, b, RunInsts(sem, a, x))
  {
    PlainConcat(a, b);
    RunConcat(sem, Plain(a), Plain(b), x);
  }

  lemma RunInstsOne(sem: Sem, inst: Inst, x: Exec)
    ensures RunInsts(sem, [inst], x) == StepInst(sem, inst, x)
  {
    assert [inst][..0] == [] && Plain([]) == [] && [inst][0] == inst;
    match inst {
      case If(c) => assert Plain([inst]) == [Open(c)]; RunOne(sem, Open(c), x);
      case Else => assert Plain([inst]) == [Turn]; RunOne(sem, Turn, x);
      case Dedent => assert Plain([inst]) == [Close]; RunOne(sem, Close, x);
      case Str(s) => assert Plain([inst]) == [Do(s)]; RunOne(sem, Do(s), x);
      case Other =>
    }
  }

  lemma RunMarkers(sem: Sem, n: nat, x: Exec)
    ensures RunInsts(sem, Markers(n), x) == x
  {
    PlainMarkers(n);
  }

  /** The statements that have text, one after the other. */
  function RunList(sem: Sem, shown: nat -> bool, xs: seq<nat>, st: Store): Store
    decreases |xs|
  {
    if xs == [] then st
    else
      var before, x := RunList(sem, shown, xs[..|xs| - 1], st), xs[|xs| - 1];
      if shown(x) then sem.run(x, before) else before
  }

  function StrsOf(shown: nat -> bool, xs: seq<nat>): seq<Inst>
    decreases |xs|
  {
    if xs == [] then [] else StrsOf(shown, xs[..|xs| - 1]) + if shown(xs[|xs| - 1]) then [Str(xs[|xs| - 1])] else []
  }

  lemma {:induction false} ItemInsts(ms: seq<Reset>, items: seq<ST.Stmt>, shown: nat -> bool, xs: seq<nat>)
    requires |xs| == |items| && forall i :: 0 <= i < |items| ==> IsAssign(ms, items[i]) && items[i].rhs == xs[i]
    ensures InstsAll(items, shown) == StrsOf(shown, xs)
    decreases |items|
  {
    if items != [] {
      var n := |items| - 1;
      ItemInsts(ms, items[..n], shown, xs[..n]);
    }
  }

  lemma LeafInsts(ms: seq<Reset>, leaf: ST.Stmt, shown: nat -> bool)
    requires IsLeaf(ms, leaf)
    ensures InstsAll([leaf], shown) == StrsOf(shown, Numbers(leaf))
  {
    assert [leaf][..0] == [];
    assert InstsAll([leaf], shown) == [] + Insts(leaf, shown);
    if leaf.Block? {
      ItemInsts(ms, leaf.items, shown, Numbers(leaf));
    } else {
      ItemInsts(ms, [leaf], shown, Numbers(leaf));
    }
  }

  lemma {:induction false} RunStrs(sem: Sem, shown: nat -> bool, xs: seq<nat>, x: Exec)
    ensures RunInsts(sem, StrsOf(shown, xs), x)
            == if Live(x.active) then x.(st := RunList(sem, shown, xs, x.st)) else x
    decreases |xs|
  {
    if xs != [] {
      var n := |xs| - 1;
      var front := StrsOf(shown, xs[..n]);
      RunStrs(sem, shown, xs[..n], x);
      if shown(xs[n]) {
        RunInstsConcat(sem, front, [Str(xs[n])], x);
        RunInstsOne(sem, Str(xs[n]), RunInsts(sem, front, x));
      } else {
        assert front + [] == front;
      }
    }
  }

  /** One branch: test, run, leave. */
  lemma RunBlock(sem: Sem, c: nat, m: nat, shown: nat -> bool, xs: seq<nat>, st: Store)
    ensures RunInsts(sem, [If(c)] + (Markers(m) + StrsOf(shown, xs) + Markers(m)) + [Dedent], Exec([], st))
            == Exec([], if sem.test(c, st) then RunList(sem, shown, xs, st) else st)
  {
    var marks, strs, x := Markers(m), StrsOf(shown, xs), Exec([sem.test(c, st)], st);
    RunInstsOne(sem, If(c), Exec([], st));
    assert [] + [sem.test(c, st)] == [sem.test(c, st)];
    RunInstsConcat(sem, [If(c)] + (marks + strs + marks), [Dedent], Exec([], st));
    RunInstsConcat(sem, [If(c)], marks + strs + marks, Exec([], st));
    RunInstsConcat(sem, marks + strs, marks, x);
    RunInstsConcat(sem, marks, strs, x);
    RunMarkers(sem, m, x);
    RunStrs(sem, shown, xs, x);
    RunMarkers(sem, m, RunInsts(sem, strs, x));
    RunInstsOne(sem, Dedent, RunInsts(sem, strs, x));
  }

  lemma RunListPush(sem: Sem, shown: nat -> bool, xs: seq<nat>, x: nat, st: Store)
    ensures var before := RunList(sem, shown, xs, st);
            RunList(sem, shown, xs + [x], st) == if shown(x) then sem.run(x, before) else before
  {
    assert (xs + [x])[..|xs|] == xs;
  }

  lemma {:induction false} ListIsCond(sem: Sem, ms: seq<Reset>, c: nat, k: nat, st: Store)
    requires k <= |ms|
    ensures RunList(sem, Shown(ms), Members(ms, c, k), st) == RunCond(sem, ms, c, k, st)
    decreases k
  {
    if k > 0 {
      ListIsCond(sem, ms, c, k - 1, st);
      if ms[k - 1].cond == c {
        RunListPush(sem, Shown(ms), Members(ms, c, k - 1), k - 1, st);
      }
    }
  }

  lemma RunBranch(sem: Sem, ms: seq<Reset>, c: nat, s: ST.Stmt, st: Store)
    requires IsCond(ms, |ms|, c, s)
    ensures RunInsts(sem, Insts(s, Shown(ms)), Exec([], st))
            == Exec([], if sem.test(c, st) then RunCond(sem, ms, c, |ms|, st) else st)
  {
    var leaf := s.onTrue[0];
    assert s.onTrue == [leaf] && IsReset(ms, s);
    ResetInsts(ms, s, Shown(ms));
    LeafInsts(ms, leaf, Shown(ms));
    RunBlock(sem, c, |MarksAll(s.onTrue, Shown(ms))|, Shown(ms), Members(ms, c, |ms|), st);
    ListIsCond(sem, ms, c, |ms|, st);
  }

  lemma OneMoreBranch(sem: Sem, ms: seq<Reset>, cs: seq<nat>, c: nat, body: seq<ST.Stmt>, s: ST.Stmt, st: Store)
    requires IsCond(ms, |ms|, c, s)
    requires RunInsts(sem, InstsAll(body, Shown(ms)), Exec([], st)) == Exec([], RunConds(sem, ms, cs, st))
    ensures RunInsts(sem, InstsAll(body + [s], Shown(ms)), Exec([], st)) == Exec([], RunConds(sem, ms, cs + [c], st))
  {
    assert (body + [s])[..|body|] == body && (cs + [c])[..|cs|] == cs;
    RunInstsConcat(sem, InstsAll(body, Shown(ms)), Insts(s, Shown(ms)), Exec([], st));
    RunBranch(sem, ms, c, s, RunConds(sem, ms, cs, st));
  }

  lemma {:induction false} RunBranches(sem: Sem, ms: seq<Reset>, cs: seq<nat>, body: seq<ST.Stmt>, st: Store)
    requires |body| == |cs| && forall j :: 0 <= j < |cs| ==> IsCond(ms, |ms|, cs[j], body[j])
    ensures RunInsts(sem, InstsAll(body, Shown(ms)), Exec([], st)) == Exec([], RunConds(sem, ms, cs, st))
    decreases |cs|
  {
    if cs != [] {
      var n := |cs| - 1;
      RunBranches(sem, ms, cs[..n], body[..n], st);
      var c, s := cs[n], body[n];
      assert IsCond(ms, |ms|, c, s);
      OneMoreBranch(sem, ms, cs[..n], c, body[..n], s, st);
      assert cs[..n] + [c] == cs && body[..n] + [s] == body;
    }
  }

  /** The stream of a reset supernode tests each condition once, in the order in which members
      bring them, and when it holds runs all its resets, in the order of the members. */
  lemma ResetStreamMeans(sem: Sem, arrays: set<nat>, ms: seq<Reset>, st: Store)
    requires NodesDiffer(ms)
    ensures Run(sem, Plain(ResetStream(arrays, ms)), Exec([], st)) == Exec([], RunConds(sem, ms, CondsOf(ms), st))
  {
    var body := Body(arrays, ms, |ms|);
    var outer, insts := Markers(|MarksAll(body, Shown(ms))|), InstsAll(body, Shown(ms));
    BodyIsGrouped(arrays, ms, |ms|);
    assert ms[..|ms|] == ms;
    RunBranches(sem, ms, CondsOf(ms), body, st);
    RunInstsConcat(sem, outer + insts, outer, Exec([], st));
    RunInstsConcat(sem, outer, insts, Exec([], st));
    RunMarkers(sem, |outer|, Exec([], st));
    RunMarkers(sem, |outer|, RunInsts(sem, insts, Exec([], st)));
  }

  // ----- register by register

  /** What a reset stores does not depend on the registers of the body. */
  ghost predicate ValuesApart(sem: Sem, ms: seq<Reset>) {
    forall i: nat, st1: Store, st2: Store :: i < |ms| ==> ValueApart(sem, ms, i, st1, st2)
  }

  ghost predicate ValueApart(sem: Sem, ms: seq<Reset>, i: nat, st1: Store, st2: Store)
    requires i < |ms|
  {
    AgreeOutside(ms, st1, st2) ==> SameAt(sem.run(i, st1), sem.run(i, st2), ms[i].node)
  }

  ghost predicate AgreeOutside(ms: seq<Reset>, st1: Store, st2: Store) {
    forall x: nat :: (forall i :: 0 <= i < |ms| ==> ms[i].node != x) ==> SameAt(st1, st2, x)
  }

  /** Register i of the condition took its reset value, if it comes with text. */
  ghost predicate TookReset(sem: Sem, ms: seq<Reset>, i: nat, st: Store, was: Store, now: Store)
    requires i < |ms|
  {
    SameAt(now, if ms[i].shown then sem.run(i, st) else was, ms[i].node)
  }

  lemma {:induction false} CondResets(sem: Sem, ms: seq<Reset>, v: nat, c: nat, k: nat, st: Store, was: Store)
    requires NodesDiffer(ms) && Fits(sem, NodeOf(ms), v) && ValuesApart(sem, ms) && AgreeOutside(ms, was, st)
             && k <= |ms|
    ensures var now := RunCond(sem, ms, c, k, was);
            && AgreeOutside(ms, now, st)
            && (forall i :: 0 <= i < k && ms[i].cond == c ==> TookReset(sem, ms, i, st, was, now))
            && (forall i :: 0 <= i < |ms| && (i >= k || ms[i].cond != c) ==> SameAt(now, was, ms[i].node))
    decreases k
  {
    if k > 0 {
      CondResets(sem, ms, v, c, k - 1, st, was);
      var before := RunCond(sem, ms, c, k - 1, was);
      if ms[k - 1].cond == c && ms[k - 1].shown {
        OneReset(sem, ms, v, k - 1, before, st);
        CondStep(sem, ms, c, k - 1, st, was, before);
      }
    }
  }

  lemma OneReset(sem: Sem, ms: seq<Reset>, v: nat, i: nat, before: Store, st: Store)
    requires NodesDiffer(ms) && Fits(sem, NodeOf(ms), v) && ValuesApart(sem, ms) && AgreeOutside(ms, before, st)
             && i < |ms|
    ensures AgreeOutside(ms, sem.run(i, before), st) && SameAt(sem.run(i, before), sem.run(i, st), ms[i].node)
    ensures forall j :: 0 <= j < |ms| && j != i ==> SameAt(sem.run(i, before), before, ms[j].node)
  {
    assert Writes(sem, NodeOf(ms), i, before);
    assert ValueApart(sem, ms, i, before, st);
    forall x: nat | forall j :: 0 <= j < |ms| ==> ms[j].node != x ensures SameAt(sem.run(i, before), st, x) {
      assert SameAt(sem.run(i, before), before, x) && SameAt(before, st, x);
    }
    forall j | 0 <= j < |ms| && j != i ensures SameAt(sem.run(i, before), before, ms[j].node) {
      assert ms[j].node != NodeOf(ms)(i);
    }
  }

  lemma CondStep(sem: Sem, ms: seq<Reset>, c: nat, k: nat, st: Store, was: Store, before: Store)
    requires k < |ms| && ms[k].cond == c && ms[k].shown
    requires forall i :: 0 <= i < k && ms[i].cond == c ==> TookReset(sem, ms, i, st, was, before)
    requires forall i :: 0 <= i < |ms| && (i >= k || ms[i].cond != c) ==> SameAt(before, was, ms[i].node)
    requires SameAt(sem.run(k, before), sem.run(k, st), ms[k].node)
    requires forall j :: 0 <= j < |ms| && j != k ==> SameAt(sem.run(k, before), before, ms[j].node)
    ensures var now := sem.run(k, before);
            && (forall i :: 0 <= i < k + 1 && ms[i].cond == c ==> TookReset(sem, ms, i, st, was, now))
            && (forall i :: 0 <= i < |ms| && (i >= k + 1 || ms[i].cond != c) ==> SameAt(now, was, ms[i].node))
  {
    var now := sem.run(k, before);
    forall i | 0 <= i < k + 1 && ms[i].cond == c ensures TookReset(sem, ms, i, st, was, now) {
      if i < k {
        assert TookReset(sem, ms, i, st, was, before) && SameAt(now, before, ms[i].node);
      }
    }
    forall i | 0 <= i < |ms| && (i >= k + 1 || ms[i].cond != c) ensures SameAt(now, was, ms[i].node) {
      assert SameAt(now, before, ms[i].node) && SameAt(before, was, ms[i].node);
    }
  }

  /** Where the conditions before are done, those registers are reset whose condition holds. */
  ghost predicate ResetSoFar(sem: Sem, ms: seq<Reset>, cs: seq<nat>, st: Store, now: Store) {
    && AgreeOutside(ms, now, st)
    && forall i: nat :: i < |ms| ==> ResetIf(sem, ms, i, ms[i].cond in cs && ms[i].shown, st, now)
  }

  /** Register i has its reset value if and only if it is due and its own condition holds. */
  ghost predicate ResetIf(sem: Sem, ms: seq<Reset>, i: nat, due: bool, st: Store, now: Store)
    requires i < |ms|
  {
    SameAt(now, if due && sem.test(ms[i].cond, st) then sem.run(i, st) else st, ms[i].node)
  }

  lemma CondKeepsTest(sem: Sem, ms: seq<Reset>, v: nat, c: nat, st: Store, now: Store)
    requires Fits(sem, NodeOf(ms), v) && AgreeOutside(ms, now, st) && forall i :: 0 <= i < |ms| ==> ms[i].node != v
    ensures sem.test(c, now) == sem.test(c, st)
  {
    assert SameAt(now, st, v);
    assert ReadsOnly(sem, c, v, now, st);
  }

  lemma {:induction false} CondsReset(sem: Sem, ms: seq<Reset>, v: nat, cs: seq<nat>, st: Store)
    requires NodesDiffer(ms) && Fits(sem, NodeOf(ms), v) && ValuesApart(sem, ms)
    requires forall i :: 0 <= i < |ms| ==> ms[i].node != v
    requires forall i, j :: 0 <= i < j < |cs| ==> cs[i] != cs[j]
    ensures ResetSoFar(sem, ms, cs, st, RunConds(sem, ms, cs, st))
    decreases |cs|
  {
    if cs != [] {
      var n := |cs| - 1;
      var c, before, now := cs[n], RunConds(sem, ms, cs[..n], st), RunConds(sem, ms, cs, st);
      CondsReset(sem, ms, v, cs[..n], st);
      CondKeepsTest(sem, ms, v, c, st, before);
      if sem.test(c, before) {
        CondResets(sem, ms, v, c, |ms|, st, before);
      }
      forall i: nat | i < |ms| ensures ResetIf(sem, ms, i, ms[i].cond in cs && ms[i].shown, st, now) {
        assert ResetIf(sem, ms, i, ms[i].cond in cs[..n] && ms[i].shown, st, before);
        assert ms[i].cond in cs <==> ms[i].cond in cs[..n] || ms[i].cond == c;
      }
    }
  }

  /** When no register is its own reset and reset values do not depend on the body, every
      register with a reset text takes its reset value if and only if its own condition holds,
      and nothing else changes. */
  lemma EveryRegisterIsReset(sem: Sem, arrays: set<nat>, ms: seq<Reset>, v: nat, st: Store, i: nat)
    requires NodesDiffer(ms) && Fits(sem, NodeOf(ms), v) && ValuesApart(sem, ms) && i < |ms|
    requires forall i :: 0 <= i < |ms| ==> ms[i].node != v
    ensures var now := Run(sem, Plain(ResetStream(arrays, ms)), Exec([], st)).st;
            ResetIf(sem, ms, i, ms[i].shown, st, now) && AgreeOutside(ms, now, st)
  {
    ResetStreamMeans(sem, arrays, ms, st);
    CondsDistinct(ms);
    CondsReset(sem, ms, v, CondsOf(ms), st);
    CondsHave(ms, i);
  }
}
