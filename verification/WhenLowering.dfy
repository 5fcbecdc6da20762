/** Lowering nested `when` blocks to assignment trees, one list per node
    (src/AST2Graph.cpp, visitStmt, visitConnect, visitWhen, whenConnect, saveWhenTree). */
module WhenLowering {
  import opened WhenTree

  /** Statements of a module body. */
  datatype Stmt = Connect(node: nat, rhs: nat) | Block(cond: nat, onTrue: seq<Stmt>, onFalse: seq<Stmt>)

  /** Conditional last connect: the last connect that is reached decides. */
  function Step(s: Stmt, n: nat, env: Env, cur: Option): Option
    decreases s
  {
    match s
    case Connect(m, r) => if m == n then Some(env.value(r)) else cur
    case Block(c, a, b) => if env.test(c) then LastConnect(a, n, env, cur) else LastConnect(b, n, env, cur)
  }

  function LastConnect(ss: seq<Stmt>, n: nat, env: Env, cur: Option): Option
    decreases ss
  {
    if ss == [] then cur else LastConnect(ss[1..], n, env, Step(ss[0], n, env, cur))
  }

  lemma {:induction false} LastConnectSplit(ss: seq<Stmt>, i: nat, n: nat, env: Env, cur: Option)
    requires i < |ss|
    ensures LastConnect(ss[..i + 1], n, env, cur) == Step(ss[i], n, env, LastConnect(ss[..i], n, env, cur))
    decreases i
  {
    if i == 0 {
      assert ss[..1][1..] == [];
    } else {
      var rest := ss[1..];
      assert ss[..i + 1][1..] == rest[..i] && ss[..i][1..] == rest[..i - 1];
      LastConnectSplit(rest, i - 1, n, env, Step(ss[0], n, env, cur));
    }
  }

  /** A node's earlier trees and its value tree; Empty when it has none. */
  datatype NodeTrees = NodeTrees(assign: seq<Tree>, val: Tree)

  type Nodes = map<nat, NodeTrees>

  function TreesOf(nodes: Nodes, n: nat): NodeTrees {
    if n in nodes then nodes[n] else NodeTrees([], Empty)
  }

  /** Running the trees in order and then the value tree. */
  function Run(t: NodeTrees, env: Env, cur: Option): Option {
    Eval(t.val, env, EvalAll(t.assign, env, cur))
  }

  ghost predicate SameMeaning(a: NodeTrees, b: NodeTrees) {
    forall env, cur :: Run(a, env, cur) == Run(b, env, cur)
  }

  // ----- one connect

  /** Off the trace the trees still mean what they did. */
  ghost predicate SameOff(tr: Trace, depth: nat, before: NodeTrees, after: NodeTrees) {
    forall env, cur :: !Taken(tr, depth, |tr|, env) ==> Run(after, env, cur) == Run(before, env, cur)
  }

  /** On the trace the node takes the new value, off it nothing changes. */
  ghost predicate Assigned(tr: Trace, depth: nat, rhs: nat, before: NodeTrees, after: NodeTrees) {
    forall env, cur ::
      Run(after, env, cur) == if Taken(tr, depth, |tr|, env) then Some(env.value(rhs)) else Run(before, env, cur)
  }

  method GetDeepestWhen(t: Tree, tr: Trace, depth: nat) returns (deep: nat)
    requires depth <= |tr|
    ensures deep == Deepest(t, tr, depth)
    ensures forall k :: depth <= k <= |tr| ==> (Follows(t, tr, depth, k) <==> k <= deep)
  {
    forall k | depth <= k <= |tr| ensures Follows(t, tr, depth, k) <==> k <= Deepest(t, tr, depth) {
      DeepestIsLargest(t, tr, depth, k);
    }
    var check := t;
    deep := depth;
    var i := depth;
    while i < |tr|
      invariant depth <= i <= |tr| && deep == i && Deepest(check, tr, i) == Deepest(t, tr, depth)
    {
      if check.When? && check.cond == tr[i].cond {
        deep := i + 1;
        check := if tr[i].branch then check.onTrue else check.onFalse;
      } else {
        break;
      }
      i := i + 1;
    }
  }

  /** The new `when`s are built from the innermost level outwards. */
  method BuildChain(tr: Trace, k: nat, other: Tree) returns (root: Tree)
    requires k <= |tr|
    ensures root == Chain(tr, k, other)
  {
    root := Empty;
    var depth := |tr|;
    while depth > k
      invariant k <= depth <= |tr| && root == Chain(tr, depth, other)
    {
      depth := depth - 1;
      root := if tr[depth].branch then When(tr[depth].cond, root, other) else When(tr[depth].cond, other, root);
    }
  }

  /** The tree is replaced below level k only, by one new `when` for each further level; the old
      tree is saved if and only if another `when` stood there. */
  ghost predicate GrownAt(tr: Trace, depth: nat, k: nat, t: NodeTrees, r: NodeTrees)
    requires depth <= k <= |tr|
  {
    && Follows(t.val, tr, depth, k) && Follows(r.val, tr, depth, k)
    && var was, now := At(t.val, tr, depth, k), At(r.val, tr, depth, k);
       && r.val == Put(t.val, tr, depth, k, now) && Whens(now) == |tr| - k
       && r.assign == if was.When? then t.assign + [t.val] else t.assign
  }

  /** growWhenTrace: makes the value tree follow the trace, saving it first where a tree
      would be lost. What follows the trace already is kept. */
  method GrowWhenTrace(t: NodeTrees, tr: Trace, depth: nat) returns (r: NodeTrees)
    requires depth <= |tr|
    ensures Follows(r.val, tr, depth, |tr|) && SameOff(tr, depth, t, r)
    ensures Follows(t.val, tr, depth, |tr|) ==> r == t
    ensures forall k :: depth <= k < |tr| && Follows(t.val, tr, depth, k) && !Follows(t.val, tr, depth, k + 1) ==>
              GrownAt(tr, depth, k, t, r)
  {
    var maxDepth := GetDeepestWhen(t.val, tr, depth);
    DeepestFollows(t.val, tr, depth);
    if maxDepth == |tr| {
      return t;
    }
    var oldRoot := At(t.val, tr, depth, maxDepth);
    var chain := BuildChain(tr, maxDepth, if oldRoot.When? then Empty else oldRoot);
    var val := Put(t.val, tr, depth, maxDepth, chain);
    r := NodeTrees(if oldRoot.When? then t.assign + [t.val] else t.assign, val);
    ChainFollows(tr, maxDepth, if oldRoot.When? then Empty else oldRoot);
    PutFollows(t.val, tr, depth, maxDepth, chain, |tr|);
    PutAt(t.val, tr, depth, maxDepth, chain);
    ChainWhens(tr, maxDepth, if oldRoot.When? then Empty else oldRoot);
    GrowMeaning(t, tr, depth, maxDepth);
  }

  lemma GrowMeaning(t: NodeTrees, tr: Trace, depth: nat, k: nat)
    requires depth <= k <= |tr| && Follows(t.val, tr, depth, k)
    ensures var oldRoot := At(t.val, tr, depth, k);
            var val := Put(t.val, tr, depth, k, Chain(tr, k, if oldRoot.When? then Empty else oldRoot));
            SameOff(tr, depth, t, NodeTrees(if oldRoot.When? then t.assign + [t.val] else t.assign, val))
  {
    var oldRoot := At(t.val, tr, depth, k);
    var other := if oldRoot.When? then Empty else oldRoot;
    var chain := Chain(tr, k, other);
    var val := Put(t.val, tr, depth, k, chain);
    var r := NodeTrees(if oldRoot.When? then t.assign + [t.val] else t.assign, val);
    forall env, cur | !Taken(tr, depth, |tr|, env) ensures Run(r, env, cur) == Run(t, env, cur) {
      var before := EvalAll(t.assign, env, cur);
      EvalAllConcat(t.assign, [t.val], env, cur);
      EvalAllOne(t.val, env, before);
      var mid := EvalAll(r.assign, env, cur);
      EvalTwice(t.val, env, before);
      PutMeaning(t.val, tr, depth, k, chain, env, mid);
      if Taken(tr, depth, k, env) {
        TakenSplit(tr, depth, k, env);
        ChainMeaning(tr, k, other, env, mid);
      }
    }
  }

  lemma TakenSplit(tr: Trace, i: nat, k: nat, env: Env)
    requires i <= k <= |tr|
    ensures Taken(tr, i, |tr|, env) <==> Taken(tr, i, k, env) && Taken(tr, k, |tr|, env)
  {
  }

  /** The tree stops following the trace somewhere, or follows it to the end. */
  lemma SomeLevel(t: NodeTrees, tr: Trace, depth: nat)
    requires depth <= |tr|
    ensures Follows(t.val, tr, depth, |tr|)
            || exists k :: depth <= k < |tr| && Follows(t.val, tr, depth, k) && !Follows(t.val, tr, depth, k + 1)
  {
    var k := Deepest(t.val, tr, depth);
    DeepestIsLargest(t.val, tr, depth, k);
    if k < |tr| {
      DeepestIsLargest(t.val, tr, depth, k + 1);
    }
  }

  /** whenConnect: the leaf at the end of the trace is overwritten. */
  method WhenConnect(t: NodeTrees, tr: Trace, depth: nat, rhs: nat) returns (r: NodeTrees)
    requires depth <= |tr|
    ensures Assigned(tr, depth, rhs, t, r)
    ensures Follows(r.val, tr, depth, |tr|) && At(r.val, tr, depth, |tr|) == Leaf(rhs)
    ensures |t.assign| <= |r.assign| <= |t.assign| + 1 && (Follows(t.val, tr, depth, |tr|) ==> r.assign == t.assign)
  {
    var grown := GrowWhenTrace(t, tr, depth);
    r := grown.(val := Put(grown.val, tr, depth, |tr|, Leaf(rhs)));
    PutAt(grown.val, tr, depth, |tr|, Leaf(rhs));
    SomeLevel(t, tr, depth);
    forall env, cur
      ensures Run(r, env, cur) == if Taken(tr, depth, |tr|, env) then Some(env.value(rhs)) else Run(t, env, cur)
    {
      PutMeaning(grown.val, tr, depth, |tr|, Leaf(rhs), env, EvalAll(grown.assign, env, cur));
      assert !Taken(tr, depth, |tr|, env) ==> Run(grown, env, cur) == Run(t, env, cur);
    }
  }

  // ----- closing an outermost `when`

  /** What is left as value tree assigns in every evaluation, and then stands alone. */
  ghost predicate Saved(t: NodeTrees) {
    t.val == Empty || (CountEmpty(t.val) == 0 && t.assign == [])
  }

  /** saveWhenTree for one node. */
  method SaveTree(t: NodeTrees) returns (r: NodeTrees)
    ensures SameMeaning(r, t) && Saved(r) && (t.val == Empty ==> r == t)
    ensures t.val != Empty ==>
              if CountEmpty(t.val) == 0 then r == NodeTrees([], t.val)
              else r.val == Empty && |r.assign| == |t.assign| + if CountEmpty(t.val) == 1 && t.assign != [] then 0
                else 1
  {
    r := t;
    if t.val != Empty {
      if |t.assign| > 0 && CountEmpty(t.val) == 1 {
        var last := |t.assign| - 1;
        r := NodeTrees(t.assign[last := Fill(t.val, t.assign[last])], Empty);
        FillLastMeaning(t);
      } else if CountEmpty(t.val) != 0 {
        r := NodeTrees(t.assign + [t.val], Empty);
        PushMeaning(t);
      } else {
        r := NodeTrees([], t.val);
        forall env, cur ensures Run(r, env, cur) == Run(t, env, cur) {
          FullAssigns(t.val, env, cur, EvalAll(t.assign, env, cur));
        }
      }
    }
  }

  lemma PushMeaning(t: NodeTrees)
    ensures SameMeaning(NodeTrees(t.assign + [t.val], Empty), t)
  {
    forall env, cur ensures Run(NodeTrees(t.assign + [t.val], Empty), env, cur) == Run(t, env, cur) {
      EvalAllConcat(t.assign, [t.val], env, cur);
      EvalAllOne(t.val, env, EvalAll(t.assign, env, cur));
    }
  }

  lemma FillLastMeaning(t: NodeTrees)
    requires |t.assign| > 0
    ensures var last := |t.assign| - 1;
            SameMeaning(NodeTrees(t.assign[last := Fill(t.val, t.assign[last])], Empty), t)
  {
    var last := |t.assign| - 1;
    var filled := Fill(t.val, t.assign[last]);
    var r := NodeTrees(t.assign[last := filled], Empty);
    assert t.assign == t.assign[..last] + [t.assign[last]] && r.assign == t.assign[..last] + [filled];
    forall env, cur ensures Run(r, env, cur) == Run(t, env, cur) {
      var mid := EvalAll(t.assign[..last], env, cur);
      EvalAllConcat(t.assign[..last], [t.assign[last]], env, cur);
      EvalAllConcat(t.assign[..last], [filled], env, cur);
      EvalAllOne(t.assign[last], env, mid);
      EvalAllOne(filled, env, mid);
      FillMeaning(t.val, t.assign[last], env, mid);
    }
  }

  // ----- scopes

  /** n was declared under the levels scope(n); it is connected only below them. */
  ghost predicate Scoped(ss: seq<Stmt>, tr: Trace, scope: nat -> Trace)
    decreases ss
  {
    forall i :: 0 <= i < |ss| ==> ScopedStmt(ss[i], tr, scope)
  }

  ghost predicate ScopedStmt(s: Stmt, tr: Trace, scope: nat -> Trace)
    decreases s
  {
    match s
    case Connect(n, _) => scope(n) <= tr
    case Block(c, a, b) => Scoped(a, tr + [Level(true, c)], scope) && Scoped(b, tr + [Level(false, c)], scope)
  }

  ghost predicate Inside(tr: Trace, env: Env) {
    Taken(tr, 0, |tr|, env)
  }

  /** After the statements, every node means what the connects make of it. Statements
      under a trace act only in evaluations that take the trace. */
  ghost predicate Does(ss: seq<Stmt>, tr: Trace, scope: nat -> Trace, before: Nodes, after: Nodes) {
    forall n, env, cur :: Inside(scope(n), env) ==>
      Run(TreesOf(after, n), env, cur)
      == if Inside(tr, env) then LastConnect(ss, n, env, Run(TreesOf(before, n), env, cur))
        else Run(TreesOf(before, n), env, cur)
  }

  ghost predicate DoesStmt(s: Stmt, tr: Trace, scope: nat -> Trace, before: Nodes, after: Nodes) {
    forall n, env, cur :: Inside(scope(n), env) ==>
      Run(TreesOf(after, n), env, cur)
      == if Inside(tr, env) then Step(s, n, env, Run(TreesOf(before, n), env, cur))
        else Run(TreesOf(before, n), env, cur)
  }

  lemma ConnectDoes(n: nat, rhs: nat, tr: Trace, scope: nat -> Trace, before: Nodes, t: NodeTrees)
    requires scope(n) <= tr && Assigned(tr, |scope(n)|, rhs, TreesOf(before, n), t)
    ensures DoesStmt(Connect(n, rhs), tr, scope, before, before[n := t])
  {
    var after := before[n := t];
    forall m, env, cur | Inside(scope(m), env) ensures
        Run(TreesOf(after, m), env, cur)
        == if Inside(tr, env) then Step(Connect(n, rhs), m, env, Run(TreesOf(before, m), env, cur))
          else Run(TreesOf(before, m), env, cur) {
      if m == n {
        assert Inside(tr, env) <==> Taken(tr, |scope(n)|, |tr|, env) by {
          TakenSplit(tr, 0, |scope(n)|, env);
          assert forall k :: 0 <= k < |scope(n)| ==> tr[k] == scope(n)[k];
        }
        assert Run(t, env, cur) == if Taken(tr, |scope(n)|, |tr|, env) then Some(env.value(rhs))
                 else Run(TreesOf(before, n), env, cur);
      }
    }
  }

  lemma InsideNext(tr: Trace, l: Level, env: Env)
    ensures Inside(tr + [l], env) <==> Inside(tr, env) && env.test(l.cond) == l.branch
  {
    var more := tr + [l];
    assert more[|tr|] == l;
    assert forall k :: 0 <= k < |tr| ==> more[k] == tr[k];
  }

  lemma BlockDoes(c: nat, a: seq<Stmt>, b: seq<Stmt>, tr: Trace, scope: nat -> Trace, before: Nodes, mid: Nodes,
                  after: Nodes)
    requires Does(a, tr + [Level(true, c)], scope, before, mid) && Does(b, tr + [Level(false, c)], scope, mid, after)
    ensures DoesStmt(Block(c, a, b), tr, scope, before, after)
  {
    forall n, env, cur | Inside(scope(n), env) ensures
        Run(TreesOf(after, n), env, cur)
        == if Inside(tr, env) then Step(Block(c, a, b), n, env, Run(TreesOf(before, n), env, cur))
          else Run(TreesOf(before, n), env, cur) {
      InsideNext(tr, Level(true, c), env);
      InsideNext(tr, Level(false, c), env);
      var x := Run(TreesOf(mid, n), env, cur);
    }
  }

  lemma NextDoes(ss: seq<Stmt>, i: nat, tr: Trace, scope: nat -> Trace, before: Nodes, mid: Nodes, after: Nodes)
    requires i < |ss| && Does(ss[..i], tr, scope, before, mid) && DoesStmt(ss[i], tr, scope, mid, after)
    ensures Does(ss[..i + 1], tr, scope, before, after)
  {
    forall n, env, cur | Inside(scope(n), env) ensures
        Run(TreesOf(after, n), env, cur)
        == if Inside(tr, env) then LastConnect(ss[..i + 1], n, env, Run(TreesOf(before, n), env, cur))
          else Run(TreesOf(before, n), env, cur) {
      LastConnectSplit(ss, i, n, env, Run(TreesOf(before, n), env, cur));
      var x := Run(TreesOf(mid, n), env, cur);
    }
  }

  // ----- the visitor

  class Lowering {
    var whenTrace: Trace
    var nodes: Nodes
    var stmtsNodes: set<nat>
    const whenDepth: nat -> nat
    ghost const scope: nat -> Trace

    ghost predicate Valid()
      reads this
    {
      forall n :: |scope(n)| == whenDepth(n)
    }

    constructor (whenDepth: nat -> nat, ghost scope: nat -> Trace)
      requires forall n :: |scope(n)| == whenDepth(n)
      ensures Valid() && whenTrace == [] && nodes == map[] && this.scope == scope
    {
      whenTrace, nodes, stmtsNodes := [], map[], {};
      this.whenDepth, this.scope := whenDepth, scope;
    }

    method VisitWhenStmt(s: Stmt)
      requires Valid() && ScopedStmt(s, whenTrace, scope)
      modifies this
      ensures Valid() && whenTrace == old(whenTrace) && DoesStmt(s, whenTrace, scope, old(nodes), nodes)
      decreases s
    {
      match s {
        case Connect(n, rhs) =>
          stmtsNodes := stmtsNodes + {n};
          var t := WhenConnect(TreesOf(nodes, n), whenTrace, whenDepth(n), rhs);
          ConnectDoes(n, rhs, whenTrace, scope, nodes, t);
          nodes := nodes[n := t];
        case Block(c, a, b) =>
          ghost var tr, before := whenTrace, nodes;
          whenTrace := whenTrace + [Level(true, c)];
          VisitWhenStmts(a);
          ghost var mid := nodes;
          whenTrace := whenTrace[|whenTrace| - 1 := Level(false, c)];
          assert whenTrace == tr + [Level(false, c)];
          VisitWhenStmts(b);
          whenTrace := whenTrace[..|whenTrace| - 1];
          assert whenTrace == tr;
          BlockDoes(c, a, b, tr, scope, before, mid, nodes);
      }
    }

    method VisitWhenStmts(ss: seq<Stmt>)
      requires Valid() && Scoped(ss, whenTrace, scope)
      modifies this
      ensures Valid() && whenTrace == old(whenTrace) && Does(ss, whenTrace, scope, old(nodes), nodes)
      decreases ss
    {
      var i := 0;
      while i < |ss|
        invariant 0 <= i <= |ss| && Valid() && whenTrace == old(whenTrace)
        invariant Does(ss[..i], whenTrace, scope, old(nodes), nodes)
      {
        ghost var mid := nodes;
        VisitWhenStmt(ss[i]);
        NextDoes(ss, i, whenTrace, scope, old(nodes), mid, nodes);
        i := i + 1;
      }
      assert ss[..i] == ss;
    }

    /** saveWhenTree */
    method SaveWhenTree()
      modifies this`nodes
      ensures forall n :: SameMeaning(TreesOf(nodes, n), TreesOf(old(nodes), n))
      ensures forall n :: n in stmtsNodes ==> Saved(TreesOf(nodes, n))
    {
      var todo := stmtsNodes;
      while todo != {}
        invariant todo <= stmtsNodes && forall n :: n in stmtsNodes && n !in todo ==> Saved(TreesOf(nodes, n))
        invariant forall n :: SameMeaning(TreesOf(nodes, n), TreesOf(old(nodes), n))
        decreases todo
      {
        var n :| n in todo;
        todo := todo - {n};
        var t := SaveTree(TreesOf(nodes, n));
        SameMeaningTrans(t, TreesOf(nodes, n), TreesOf(old(nodes), n));
        nodes := nodes[n := t];
      }
    }

    /** visitStmt: outside every `when`, a connect overrides all that came before. */
    method VisitStmt(s: Stmt)
      requires Valid() && whenTrace == [] && ScopedStmt(s, [], scope)
      modifies this
      ensures Valid() && whenTrace == [] && DoesStmt(s, [], scope, old(nodes), nodes)
    {
      stmtsNodes := {};
      match s {
        case Connect(n, rhs) =>
          var t := NodeTrees([], Leaf(rhs));
          ConnectDoes(n, rhs, [], scope, nodes, t);
          nodes := nodes[n := t];
        case Block(_, _, _) =>
          VisitWhenStmt(s);
          ghost var mid := nodes;
          SaveWhenTree();
          SavedDoes(s, scope, old(nodes), mid, nodes);
      }
    }

    /** The whole body, then the value trees join the lists: every list computes the last
        connect of its node. */
    method LowerBody(ss: seq<Stmt>) returns (lists: map<nat, seq<Tree>>)
      requires Valid() && whenTrace == [] && nodes == map[] && Scoped(ss, [], scope)
      modifies this
      ensures forall n, env, cur :: Inside(scope(n), env) ==>
                EvalAll(ListOf(lists, n), env, cur) == LastConnect(ss, n, env, cur)
    {
      var i := 0;
      while i < |ss|
        invariant 0 <= i <= |ss| && Valid() && whenTrace == []
        invariant Does(ss[..i], [], scope, map[], nodes)
      {
        ghost var mid := nodes;
        VisitStmt(ss[i]);
        NextDoes(ss, i, [], scope, map[], mid, nodes);
        i := i + 1;
      }
      assert ss[..i] == ss;
      lists := Flush(nodes);
      FlushMeaning(ss, scope, nodes);
    }
  }

  lemma SameMeaningTrans(a: NodeTrees, b: NodeTrees, c: NodeTrees)
    requires SameMeaning(a, b) && SameMeaning(b, c)
    ensures SameMeaning(a, c)
  {
    forall env, cur ensures Run(a, env, cur) == Run(c, env, cur) {
      var x := Run(b, env, cur);
    }
  }

  lemma SavedDoes(s: Stmt, scope: nat -> Trace, before: Nodes, mid: Nodes, after: Nodes)
    requires DoesStmt(s, [], scope, before, mid) && forall n :: SameMeaning(TreesOf(after, n), TreesOf(mid, n))
    ensures DoesStmt(s, [], scope, before, after)
  {
    forall n, env, cur | Inside(scope(n), env) ensures
        Run(TreesOf(after, n), env, cur)
        == if Inside([], env) then Step(s, n, env, Run(TreesOf(before, n), env, cur))
          else Run(TreesOf(before, n), env, cur) {
      assert SameMeaning(TreesOf(after, n), TreesOf(mid, n));
      var x := Run(TreesOf(mid, n), env, cur);
    }
  }

  function ListOf(lists: map<nat, seq<Tree>>, n: nat): seq<Tree> {
    if n in lists then lists[n] else []
  }

  function Flush(nodes: Nodes): map<nat, seq<Tree>> {
    map n | n in nodes :: if nodes[n].val == Empty then nodes[n].assign else nodes[n].assign + [nodes[n].val]
  }

  lemma FlushMeaning(ss: seq<Stmt>, scope: nat -> Trace, nodes: Nodes)
    requires Does(ss, [], scope, map[], nodes)
    ensures forall n, env, cur :: Inside(scope(n), env) ==>
              EvalAll(ListOf(Flush(nodes), n), env, cur) == LastConnect(ss, n, env, cur)
  {
    forall n, env, cur | Inside(scope(n), env)
      ensures EvalAll(ListOf(Flush(nodes), n), env, cur) == LastConnect(ss, n, env, cur)
    {
      var t := TreesOf(nodes, n);
      PushMeaning(t);
      assert Run(NodeTrees(t.assign + [t.val], Empty), env, cur) == Run(t, env, cur);
      assert Inside([], env);
      assert Run(TreesOf(map[], n), env, cur) == cur;
      assert Run(TreesOf(nodes, n), env, cur) == LastConnect(ss, n, env, cur);
    }
  }
}
