/** The bodies that are split: streams of reset supernodes (src/StmtTree.cpp, generateStmtTree,
    src/instsGenerator.cpp, StmtNode::compute), and when splitting them is right. */
module ResetBody {
  import ST = StmtTree
  import opened ResetChunks

  // ----- the statement tree of a reset supernode

  /** The reset of one register: when the condition holds, the node takes its reset value.
      Statement i is the assignment of member i; it is not `shown` when it yields no text. */
  datatype Reset = Reset(node: nat, cond: nat, invalid: bool, shown: bool)

  /** OP_RESET has two children: no else branch. */
  function TreeOf(ms: seq<Reset>, i: nat): ST.ETree
    requires i < |ms|
  {
    ST.When(ms[i].cond, ST.Leaf(i, ms[i].invalid), ST.Nil)
  }

  /** The first k trees, each merged without limits. */
  function Body(arrays: set<nat>, ms: seq<Reset>, k: nat): seq<ST.Stmt>
    requires k <= |ms|
  {
    if k == 0 then []
    else ST.MergeTree(arrays, ms[k - 1].node, TreeOf(ms, k - 1), Body(arrays, ms, k - 1), [], []).stmts
  }

  ghost predicate IsAssign(ms: seq<Reset>, s: ST.Stmt) {
    s.Assign? && s.rhs < |ms| && s.node == ms[s.rhs].node
  }

  ghost predicate IsLeaf(ms: seq<Reset>, s: ST.Stmt) {
    IsAssign(ms, s) || (s.Block? && forall i :: 0 <= i < |s.items| ==> IsAssign(ms, s.items[i]))
  }

  ghost predicate AllLeaves(ms: seq<Reset>, c: seq<ST.Stmt>) {
    forall i :: 0 <= i < |c| ==> IsLeaf(ms, c[i])
  }

  ghost predicate IsReset(ms: seq<Reset>, s: ST.Stmt) {
    s.Branch? && s.onFalse == [] && AllLeaves(ms, s.onTrue)
  }

  /** Branches without else, over assignments. */
  ghost predicate IsBody(ms: seq<Reset>, c: seq<ST.Stmt>) {
    forall i :: 0 <= i < |c| ==> IsReset(ms, c[i])
  }

  lemma {:induction false} EraseKeeps(ms: seq<Reset>, c: seq<ST.Stmt>, i: nat, n: nat)
    requires AllLeaves(ms, c)
    ensures AllLeaves(ms, ST.EraseFrom(c, i, n))
    decreases |c| - i
  {
    if i < |c| {
      if c[i].Assign? && c[i].node == n {
        EraseKeeps(ms, c[..i] + c[i + 1..], i + 1, n);
      } else {
        EraseKeeps(ms, c, i + 1, n);
        assert ST.EraseFrom(c, i, n) == ST.EraseFrom(c, i + 1, n);
      }
    }
  }

  lemma AppendKeeps(ms: seq<Reset>, s: ST.Stmt, w: ST.Stmt)
    requires IsLeaf(ms, s) && IsAssign(ms, w)
    ensures IsLeaf(ms, ST.Append(s, w))
  {
  }

  lemma LeafKeeps(arrays: set<nat>, ms: seq<Reset>, k: nat, c: seq<ST.Stmt>, depth: nat, np: seq<nat>)
    requires k < |ms| && AllLeaves(ms, c)
    ensures AllLeaves(ms, ST.Merge(arrays, ms[k].node, ST.Leaf(k, ms[k].invalid), c, depth, false, [], np).stmts)
  {
    var n, w := ms[k].node, ST.Assign(ms[k].node, k);
    EraseKeeps(ms, c, 0, n);
    var c1 := if n !in arrays && !ms[k].invalid then ST.EraseFrom(c, 0, n) else c;
    var j := ST.FindPlain(c1, 0);
    if j < |c1| {
      AppendKeeps(ms, c1[j], w);
      assert AllLeaves(ms, c1[j := ST.Append(c1[j], w)]);
    } else {
      assert AllLeaves(ms, c1 + [w]);
    }
  }

  lemma NoLimit()
    ensures ST.Later([], [], 0) == []
  {
  }

  lemma BodyStep(arrays: set<nat>, ms: seq<Reset>, k: nat, c: seq<ST.Stmt>)
    requires k < |ms| && IsBody(ms, c)
    ensures IsBody(ms, ST.MergeTree(arrays, ms[k].node, TreeOf(ms, k), c, [], []).stmts)
  {
    NoLimit();
    var i := ST.FindBranch(c, ms[k].cond, 0);
    var np := ST.AddDepth(ST.AddDepth([], 0, 0), 1, i);
    if i < |c| {
      assert IsReset(ms, c[i]);
      LeafKeeps(arrays, ms, k, c[i].onTrue, 2, np);
      var m := ST.Merge(arrays, ms[k].node, ST.Leaf(k, ms[k].invalid), c[i].onTrue, 2, false, [], np);
      assert ST.MergeTree(arrays, ms[k].node, TreeOf(ms, k), c, [], []).stmts
          == c[i := ST.Branch(ms[k].cond, m.stmts, [])];
    } else {
      assert IsReset(ms, ST.Generate(ms[k].node, TreeOf(ms, k)));
    }
  }

  lemma {:induction false} BodyIs(arrays: set<nat>, ms: seq<Reset>, k: nat)
    requires k <= |ms|
    ensures IsBody(ms, Body(arrays, ms, k))
  {
    if k > 0 {
      BodyIs(arrays, ms, k - 1);
      BodyStep(arrays, ms, k - 1, Body(arrays, ms, k - 1));
    }
  }

  // ----- its stream

  function Markers(n: nat): (r: seq<Inst>)
    ensures |r| == n
  {
    seq(n, i => Other)
  }

  /** The nodes whose begin and end markers a statement passes outwards: those assigned in both
      branches leave a branch. */
  function Marks(s: ST.Stmt, shown: nat -> bool): set<nat>
    decreases s
  {
    match s
    case Assign(n, r) => if shown(r) then {n} else {}
    case Block(items) => MarksAll(items, shown)
    case Branch(_, a, b) => MarksAll(a, shown) * MarksAll(b, shown)
  }

  function MarksAll(c: seq<ST.Stmt>, shown: nat -> bool): set<nat>
    decreases c
  {
    if c == [] then {} else MarksAll(c[..|c| - 1], shown) + Marks(c[|c| - 1], shown)
  }

  /** StmtNode::compute. */
  function Insts(s: ST.Stmt, shown: nat -> bool): seq<Inst>
    decreases s
  {
    match s
    case Assign(_, r) => if shown(r) then [Str(r)] else []
    case Block(items) => InstsAll(items, shown)
    case Branch(c, a, b) =>
      var ma, mb := MarksAll(a, shown), MarksAll(b, shown);
      var inA, inB := Markers(|ma - mb|), Markers(|mb - ma|);
      [If(c)] + inA + InstsAll(a, shown) + inA
      + (if b == [] then [] else [Else] + inB + InstsAll(b, shown) + inB) + [Dedent]
  }

  function InstsAll(c: seq<ST.Stmt>, shown: nat -> bool): seq<Inst>
    decreases c
  {
    if c == [] then [] else InstsAll(c[..|c| - 1], shown) + Insts(c[|c| - 1], shown)
  }

  function Stream(c: seq<ST.Stmt>, shown: nat -> bool): seq<Inst> {
    var outer := Markers(|MarksAll(c, shown)|);
    outer + InstsAll(c, shown) + outer
  }

  /** Which statements yield text. */
  function Shown(ms: seq<Reset>): nat -> bool {
    (i: nat) => i < |ms| && ms[i].shown
  }

  function ResetStream(arrays: set<nat>, ms: seq<Reset>): seq<Inst> {
    Stream(Body(arrays, ms, |ms|), Shown(ms))
  }

  // ----- flat streams

  /** Single blocks side by side, statements inside them, and no `else`. */
  ghost predicate Flat(insts: seq<Inst>)
    decreases |insts|
  {
    insts == [] || (Flat(insts[..|insts| - 1]) && FlatNext(OpenAfter(insts[..|insts| - 1]), insts[|insts| - 1]))
  }

  ghost predicate FlatNext(opens: Opens, inst: Inst) {
    && opens.Some? && |opens.arms| <= 1 && (forall a :: a in opens.arms ==> !a.inElse)
    && match inst
       case If(_) => opens.arms == []
       case Else => false
       case Dedent => |opens.arms| == 1
       case Str(_) => |opens.arms| == 1
       case Other => true
  }

  /** Flat so far, with these arms open. */
  ghost predicate FlatTo(insts: seq<Inst>, arms: seq<Arm>) {
    Flat(insts) && OpenAfter(insts) == Some(arms) && |arms| <= 1 && forall a :: a in arms ==> !a.inElse
  }

  lemma FlatPush(insts: seq<Inst>, arms: seq<Arm>, inst: Inst)
    requires FlatTo(insts, arms) && FlatNext(Some(arms), inst)
    ensures FlatTo(insts + [inst], NextOpen(arms, inst).arms)
  {
    var more := insts + [inst];
    assert more[..|more| - 1] == insts;
  }

  lemma {:induction false} FlatMore(insts: seq<Inst>, arms: seq<Arm>, ys: seq<Inst>)
    requires FlatTo(insts, arms) && forall i :: 0 <= i < |ys| ==> ys[i].Other? || (ys[i].Str? && |arms| == 1)
    ensures FlatTo(insts + ys, arms)
    decreases |ys|
  {
    if ys == [] {
      assert insts + ys == insts;
    } else {
      var n := |ys| - 1;
      FlatMore(insts, arms, ys[..n]);
      FlatPush(insts + ys[..n], arms, ys[n]);
      assert insts + ys[..n] + [ys[n]] == insts + ys;
    }
  }

  ghost predicate AllStr(insts: seq<Inst>) {
    forall i :: 0 <= i < |insts| ==> insts[i].Str?
  }

  lemma {:induction false} LeavesGiveStatements(ms: seq<Reset>, c: seq<ST.Stmt>, shown: nat -> bool)
    requires AllLeaves(ms, c)
    ensures AllStr(InstsAll(c, shown))
    decreases c
  {
    if c != [] {
      var n := |c| - 1;
      LeavesGiveStatements(ms, c[..n], shown);
      assert IsLeaf(ms, c[n]);
      if c[n].Block? {
        LeavesGiveStatements(ms, c[n].items, shown);
      }
      assert AllStr(Insts(c[n], shown));
    }
  }

  /** What a reset branch is turned into. */
  lemma ResetInsts(ms: seq<Reset>, s: ST.Stmt, shown: nat -> bool)
    requires IsReset(ms, s)
    ensures var marks, body := Markers(|MarksAll(s.onTrue, shown)|), InstsAll(s.onTrue, shown);
            Insts(s, shown) == [If(s.cond)] + (marks + body + marks) + [Dedent]
  {
    var ma := MarksAll(s.onTrue, shown);
    assert ma - MarksAll([], shown) == ma;
  }

  lemma ResetIsFlat(ms: seq<Reset>, s: ST.Stmt, shown: nat -> bool, insts: seq<Inst>)
    requires IsReset(ms, s) && FlatTo(insts, [])
    ensures FlatTo(insts + Insts(s, shown), [])
  {
    var marks, body := Markers(|MarksAll(s.onTrue, shown)|), InstsAll(s.onTrue, shown);
    ResetInsts(ms, s, shown);
    LeavesGiveStatements(ms, s.onTrue, shown);
    BlockIsFlat(s.cond, marks + body + marks, insts);
  }

  lemma BlockIsFlat(cond: nat, ys: seq<Inst>, insts: seq<Inst>)
    requires FlatTo(insts, []) && forall i :: 0 <= i < |ys| ==> ys[i].Other? || ys[i].Str?
    ensures FlatTo(insts + ([If(cond)] + ys + [Dedent]), [])
  {
    var arms := [Arm(cond, false)];
    var start := insts + [If(cond)];
    FlatPush(insts, [], If(cond));
    FlatMore(start, arms, ys);
    FlatPush(start + ys, arms, Dedent);
    assert start + ys + [Dedent] == insts + ([If(cond)] + ys + [Dedent]);
  }

  lemma Associate(a: seq<Inst>, b: seq<Inst>, c: seq<Inst>)
    ensures a + b + c == a + (b + c)
  {
  }

  lemma {:induction false} BodyIsFlat(ms: seq<Reset>, c: seq<ST.Stmt>, shown: nat -> bool, insts: seq<Inst>)
    requires IsBody(ms, c) && FlatTo(insts, [])
    ensures FlatTo(insts + InstsAll(c, shown), [])
    decreases |c|
  {
    if c == [] {
      assert insts + [] == insts;
    } else {
      var n := |c| - 1;
      var front, last := InstsAll(c[..n], shown), Insts(c[n], shown);
      BodyIsFlat(ms, c[..n], shown, insts);
      ResetIsFlat(ms, c[n], shown, insts + front);
      Associate(insts, front, last);
    }
  }

  /** The stream of every reset supernode is flat: it has no `else`. */
  lemma ResetStreamIsFlat(arrays: set<nat>, ms: seq<Reset>)
    ensures Flat(ResetStream(arrays, ms)) && Balanced(ResetStream(arrays, ms))
  {
    var c := Body(arrays, ms, |ms|);
    var outer := Markers(|MarksAll(c, Shown(ms))|);
    BodyIs(arrays, ms, |ms|);
    FlatMore([], [], outer);
    assert [] + outer == outer;
    BodyIsFlat(ms, c, Shown(ms), outer);
    FlatMore(outer + InstsAll(c, Shown(ms)), [], outer);
  }
}
