/** Conditional assignment trees of a node and the operations that grow them
    (src/AST2Graph.cpp, getDeepestWhen and growWhenTrace; src/splitArray.cpp,
    fillEmptyWhen). */
module WhenTree {

  /** The value tree of a scalar node. Empty is a branch that does not assign. */
  datatype Tree = Empty | Leaf(rhs: nat) | When(cond: nat, onTrue: Tree, onFalse: Tree)

  /** The enclosing `when`s, outermost first: which branch, and the condition node. */
  datatype Level = Level(branch: bool, cond: nat)
  type Trace = seq<Level>

  /** One evaluation of the circuit: what the condition nodes and the right sides yield. */
  datatype Env = Env(test: nat -> bool, value: nat -> int)

  datatype Option = None | Some(value: int)

  // ----- meaning

  /** What the tree makes of the node's earlier value. */
  function Eval(t: Tree, env: Env, cur: Option): Option {
    match t
    case Empty => cur
    case Leaf(r) => Some(env.value(r))
    case When(c, a, b) => if env.test(c) then Eval(a, env, cur) else Eval(b, env, cur)
  }

  function EvalAll(ts: seq<Tree>, env: Env, cur: Option): Option
    decreases |ts|
  {
    if ts == [] then cur else EvalAll(ts[1..], env, Eval(ts[0], env, cur))
  }

  /** The evaluation takes the branches of levels i to j. */
  ghost predicate Taken(tr: Trace, i: nat, j: nat, env: Env) {
    forall k :: i <= k < j && k < |tr| ==> env.test(tr[k].cond) == tr[k].branch
  }

  lemma {:induction false} EvalAllConcat(a: seq<Tree>, b: seq<Tree>, env: Env, cur: Option)
    ensures EvalAll(a + b, env, cur) == EvalAll(b, env, EvalAll(a, env, cur))
  {
    if a == [] {
      assert a + b == b;
    } else {
      assert (a + b)[1..] == a[1..] + b;
      EvalAllConcat(a[1..], b, env, Eval(a[0], env, cur));
    }
  }

  lemma EvalAllOne(t: Tree, env: Env, cur: Option)
    ensures EvalAll([t], env, cur) == Eval(t, env, cur)
  {
    assert [t][1..] == [];
  }

  lemma {:induction false} EvalTwice(t: Tree, env: Env, cur: Option)
    ensures Eval(t, env, Eval(t, env, cur)) == Eval(t, env, cur)
  {
    if t.When? {
      EvalTwice(if env.test(t.cond) then t.onTrue else t.onFalse, env, cur);
    }
  }

  // ----- following the trace

  function Side(t: Tree, branch: bool): Tree
    requires t.When?
  {
    if branch then t.onTrue else t.onFalse
  }

  function SetSide(t: Tree, branch: bool, s: Tree): Tree
    requires t.When?
  {
    if branch then When(t.cond, s, t.onFalse) else When(t.cond, t.onTrue, s)
  }

  /** How far the tree already follows the trace. */
  function Deepest(t: Tree, tr: Trace, i: nat): (k: nat)
    requires i <= |tr|
    ensures i <= k <= |tr|
    decreases |tr| - i
  {
    if i < |tr| && t.When? && t.cond == tr[i].cond then Deepest(Side(t, tr[i].branch), tr, i + 1) else i
  }

  ghost predicate Follows(t: Tree, tr: Trace, i: nat, k: nat)
    requires i <= k <= |tr|
    decreases k - i
  {
    i == k || (t.When? && t.cond == tr[i].cond && Follows(Side(t, tr[i].branch), tr, i + 1, k))
  }

  function At(t: Tree, tr: Trace, i: nat, k: nat): Tree
    requires i <= k <= |tr| && Follows(t, tr, i, k)
    decreases k - i
  {
    if i == k then t else At(Side(t, tr[i].branch), tr, i + 1, k)
  }

  /** Replaces the subtree that the trace leads to. */
  function Put(t: Tree, tr: Trace, i: nat, k: nat, s: Tree): Tree
    requires i <= k <= |tr| && Follows(t, tr, i, k)
    decreases k - i
  {
    if i == k then s else SetSide(t, tr[i].branch, Put(Side(t, tr[i].branch), tr, i + 1, k, s))
  }

  /** The chain of new `when`s for levels k on; the other branches hold `other`. */
  function Chain(tr: Trace, k: nat, other: Tree): Tree
    requires k <= |tr|
    decreases |tr| - k
  {
    if k == |tr| then Empty
    else SetSide(When(tr[k].cond, other, other), tr[k].branch, Chain(tr, k + 1, other))
  }

  lemma {:induction false} DeepestFollows(t: Tree, tr: Trace, i: nat)
    requires i <= |tr|
    ensures Follows(t, tr, i, Deepest(t, tr, i))
    decreases |tr| - i
  {
    if i < |tr| && t.When? && t.cond == tr[i].cond {
      DeepestFollows(Side(t, tr[i].branch), tr, i + 1);
    }
  }

  /** It is the largest depth to which the tree follows the trace. */
  lemma {:induction false} DeepestIsLargest(t: Tree, tr: Trace, i: nat, k: nat)
    requires i <= k <= |tr|
    ensures Follows(t, tr, i, k) <==> k <= Deepest(t, tr, i)
    decreases k - i
  {
    if i < k && t.When? && t.cond == tr[i].cond {
      DeepestIsLargest(Side(t, tr[i].branch), tr, i + 1, k);
    }
  }

  function Whens(t: Tree): nat {
    match t
    case When(_, a, b) => 1 + Whens(a) + Whens(b)
    case _ => 0
  }

  lemma {:induction false} ChainWhens(tr: Trace, k: nat, other: Tree)
    requires k <= |tr| && !other.When?
    ensures Whens(Chain(tr, k, other)) == |tr| - k
    decreases |tr| - k
  {
    if k < |tr| {
      ChainWhens(tr, k + 1, other);
    }
  }

  lemma {:induction false} PutAt(t: Tree, tr: Trace, i: nat, k: nat, s: Tree)
    requires i <= k <= |tr| && Follows(t, tr, i, k)
    ensures Follows(Put(t, tr, i, k, s), tr, i, k) && At(Put(t, tr, i, k, s), tr, i, k) == s
    decreases k - i
  {
    if i < k {
      PutAt(Side(t, tr[i].branch), tr, i + 1, k, s);
    }
  }

  lemma {:induction false} ChainFollows(tr: Trace, k: nat, other: Tree)
    requires k <= |tr|
    ensures Follows(Chain(tr, k, other), tr, k, |tr|)
    decreases |tr| - k
  {
    if k < |tr| {
      ChainFollows(tr, k + 1, other);
    }
  }

  lemma {:induction false} PutFollows(t: Tree, tr: Trace, i: nat, k: nat, s: Tree, j: nat)
    requires i <= k <= j <= |tr| && Follows(t, tr, i, k) && Follows(s, tr, k, j)
    ensures Follows(Put(t, tr, i, k, s), tr, i, j)
    decreases k - i
  {
    if i < k {
      PutFollows(Side(t, tr[i].branch), tr, i + 1, k, s, j);
    }
  }

  /** Only evaluations that take the trace see a replaced subtree. */
  lemma {:induction false} PutMeaning(t: Tree, tr: Trace, i: nat, k: nat, s: Tree, env: Env, cur: Option)
    requires i <= k <= |tr| && Follows(t, tr, i, k)
    ensures Eval(Put(t, tr, i, k, s), env, cur) == if Taken(tr, i, k, env) then Eval(s, env, cur) else Eval(t, env, cur)
    ensures Taken(tr, i, k, env) ==> Eval(t, env, cur) == Eval(At(t, tr, i, k), env, cur)
    decreases k - i
  {
    if i < k {
      PutMeaning(Side(t, tr[i].branch), tr, i + 1, k, s, env, cur);
      assert Taken(tr, i, k, env) <==> env.test(tr[i].cond) == tr[i].branch && Taken(tr, i + 1, k, env);
    }
  }

  /** Evaluations that leave the trace see the old value on a new chain. */
  lemma {:induction false} ChainMeaning(tr: Trace, k: nat, other: Tree, env: Env, cur: Option)
    requires k <= |tr| && !Taken(tr, k, |tr|, env)
    ensures Eval(Chain(tr, k, other), env, cur) == Eval(other, env, cur)
    decreases |tr| - k
  {
    if env.test(tr[k].cond) == tr[k].branch {
      assert !Taken(tr, k + 1, |tr|, env);
      ChainMeaning(tr, k + 1, other, env, cur);
    }
  }

  // ----- empty branches

  function CountEmpty(t: Tree): nat {
    match t
    case Empty => 1
    case Leaf(_) => 0
    case When(_, a, b) => CountEmpty(a) + CountEmpty(b)
  }

  function Fill(t: Tree, prior: Tree): Tree {
    match t
    case Empty => prior
    case Leaf(_) => t
    case When(c, a, b) => When(c, Fill(a, prior), Fill(b, prior))
  }

  /** Filling the empty branches with a tree is running that tree first. */
  lemma {:induction false} FillMeaning(t: Tree, prior: Tree, env: Env, cur: Option)
    ensures Eval(Fill(t, prior), env, cur) == Eval(t, env, Eval(prior, env, cur))
  {
    if t.When? {
      FillMeaning(if env.test(t.cond) then t.onTrue else t.onFalse, prior, env, cur);
    }
  }

  /** A tree without empty branches always assigns. */
  lemma {:induction false} FullAssigns(t: Tree, env: Env, a: Option, b: Option)
    requires CountEmpty(t) == 0
    ensures Eval(t, env, a) == Eval(t, env, b)
  {
    if t.When? {
      FullAssigns(if env.test(t.cond) then t.onTrue else t.onFalse, env, a, b);
    }
  }
}
