/** Statement trees of a supernode and the merging of one more assignment tree into them
    (src/StmtTree.cpp, mergeExpTree, generateWhenTree and the path helpers). */
module StmtTree {

  /** Contents of a node: one element for a scalar, all entries for an array. */
  type Val = seq<int>
  type Store = map<nat, Val>

  /** What conditions and right sides mean. Both are known here by a number; equal numbers
      stand for structurally equal expressions. A right side comes with the index of the
      left side it is stored to, and yields the new contents of the node. Registers in
      `inPlace` are updated in place and may read themselves. */
  datatype Sem = Sem(condUses: nat -> set<nat>, test: (nat, Store) -> bool,
                     rhsUses: nat -> set<nat>, eval: (nat, Store) -> Val,
                     arrays: set<nat>, inPlace: set<nat>)

  /** An assignment tree of one node; Nil is a missing branch. */
  datatype ETree = Nil | Leaf(rhs: nat, invalid: bool) | When(cond: nat, onTrue: ETree, onFalse: ETree)

  datatype Stmt = Assign(node: nat, rhs: nat)
                | Branch(cond: nat, onTrue: seq<Stmt>, onFalse: seq<Stmt>)
                | Block(items: seq<Stmt>)

  // ----- meaning

  function Exec(sem: Sem, s: Stmt, st: Store): Store
    decreases s
  {
    match s
    case Assign(n, r) => st[n := sem.eval(r, st)]
    case Branch(c, a, b) => if sem.test(c, st) then ExecSeq(sem, a, st) else ExecSeq(sem, b, st)
    case Block(items) => ExecSeq(sem, items, st)
  }

  function ExecSeq(sem: Sem, c: seq<Stmt>, st: Store): Store
    decreases c
  {
    if c == [] then st else ExecSeq(sem, c[1..], Exec(sem, c[0], st))
  }

  /** What an assignment tree does to its node. */
  function RunTree(sem: Sem, n: nat, e: ETree, st: Store): Store {
    match e
    case Nil => st
    case Leaf(r, _) => st[n := sem.eval(r, st)]
    case When(c, t, f) => if sem.test(c, st) then RunTree(sem, n, t, st) else RunTree(sem, n, f, st)
  }

  // ----- paths

  /** addDepthPath: record an index at a depth, forgetting deeper entries when it grows. */
  function AddDepth(path: seq<nat>, depth: nat, idx: nat): seq<nat> {
    if |path| <= depth then path + [idx]
    else if idx > path[depth] then path[..depth] + [idx]
    else path
  }

  /** maxPath: the path that comes later. */
  method MaxPath(path1: seq<nat>, path2: seq<nat>) returns (dst: seq<nat>)
    ensures dst == Later(path1, path2, 0)
  {
    var isFirst := false;
    var i := 0;
    while i < |path1|
      invariant 0 <= i <= |path1|
      invariant !isFirst && i <= |path2| && Later(path1, path2, i) == Later(path1, path2, 0)
    {
      if i >= |path2| || path1[i] > path2[i] {
        isFirst := true;
        break;
      } else if path1[i] < path2[i] {
        break;
      }
      i := i + 1;
    }
    dst := if isFirst then path1 else path2;
  }

  function Later(a: seq<nat>, b: seq<nat>, i: nat): seq<nat>
    decreases |a| - i
  {
    if i >= |a| then b
    else if i >= |b| || a[i] > b[i] then a
    else if a[i] < b[i] then b
    else Later(a, b, i + 1)
  }

  /** prevOrderPath: fold one predecessor's path into the limit. */
  function MergePath(prev: seq<nat>, p: seq<nat>, i: nat): seq<nat>
    requires i <= |prev|
    decreases |p| - i
  {
    if i >= |p| then prev
    else if i >= |prev| then MergePath(prev + [p[i]], p, i + 1)
    else if prev[i] <= p[i] then MergePath(prev[i := p[i]], p, i + 1)
    else prev
  }

  // ----- merging

  /** generateWhenTree: the statement built for a tree that finds no partner. */
  function Generate(n: nat, e: ETree): Stmt
    requires !e.Nil?
  {
    match e
    case Leaf(r, _) => Assign(n, r)
    case When(c, t, f) => Branch(c, if t.Nil? then [] else [Generate(n, t)], if f.Nil? then [] else [Generate(n, f)])
  }

  /** The path entries it records: each new branch holds one statement, at index 0; the
      false branch is visited first. */
  function GeneratePath(e: ETree, depth: nat, path: seq<nat>): seq<nat>
    decreases e
  {
    match e
    case Nil => path
    case Leaf(_, _) => AddDepth(path, depth, 0)
    case When(_, t, f) =>
      var p := AddDepth(path, depth, 0);
      GeneratePath(t, depth + 1, GeneratePath(f, depth + 1, p))
  }

  function SubPath(e: ETree, count: nat): seq<nat> {
    match e
    case When(_, t, f) => GeneratePath(t, 2, GeneratePath(f, 2, [count]))
    case _ => [count]
  }

  function AddAll(path: seq<nat>, depth: nat, sub: seq<nat>): seq<nat>
    decreases |sub|
  {
    if sub == [] then path else AddAll(AddDepth(path, depth, sub[0]), depth + 1, sub[1..])
  }

  /** The first branch on the same condition at or after the limit. */
  function FindBranch(c: seq<Stmt>, cond: nat, from: nat): (i: nat)
    ensures i <= |c| || i == from
    ensures i < |c| ==> from <= i && c[i].Branch? && c[i].cond == cond
    decreases |c| - from
  {
    if from >= |c| then from
    else if c[from].Branch? && c[from].cond == cond then from
    else FindBranch(c, cond, from + 1)
  }

  /** Drops plain assignments to n; the entry after a dropped one is not looked at. */
  function EraseFrom(c: seq<Stmt>, i: nat, n: nat): seq<Stmt>
    decreases |c| - i
  {
    if i >= |c| then c
    else if c[i].Assign? && c[i].node == n then EraseFrom(c[..i] + c[i + 1..], i + 1, n)
    else EraseFrom(c, i + 1, n)
  }

  /** The first plain statement or block at or after the start. */
  function FindPlain(c: seq<Stmt>, from: nat): (i: nat)
    requires from <= |c|
    ensures from <= i <= |c| && (i < |c| ==> !c[i].Branch?)
    decreases |c| - from
  {
    if from == |c| || !c[from].Branch? then from else FindPlain(c, from + 1)
  }

  function Append(s: Stmt, w: Stmt): Stmt
    requires !s.Branch?
  {
    if s.Assign? then Block([s, w]) else Block(s.items + [w])
  }

  datatype Merged = Merged(stmts: seq<Stmt>, path: seq<nat>)

  /** mergeExpTree below the root: tree e of node n goes into the statements c at `depth`,
      not before what `path` records when `limit` is set; np is the path of n so far. */
  function Merge(arrays: set<nat>, n: nat, e: ETree, c: seq<Stmt>, depth: nat, limit: bool, path: seq<nat>,
                 np: seq<nat>): Merged
    requires !e.Nil?
    decreases e
  {
    var lim := limit && depth < |path|;
    match e
    case When(cond, t, f) =>
      var i := FindBranch(c, cond, if lim then path[depth] else 0);
      if i < |c| then
        var np1 := AddDepth(np, depth, i);
        var next := lim && path[depth] == i;
        var mf := if f.Nil? then Merged(c[i].onFalse, np1)
          else Merge(arrays, n, f, c[i].onFalse, depth + 1, next, path, np1);
        var mt := if t.Nil? then Merged(c[i].onTrue, mf.path)
          else Merge(arrays, n, t, c[i].onTrue, depth + 1, next, path, mf.path);
        Merged(c[i := Branch(cond, mt.stmts, mf.stmts)], mt.path)
      else
        Merged(c + [Generate(n, e)], AddAll(np, depth, SubPath(e, |c|)))
    case Leaf(r, invalid) =>
      var c1 := if n !in arrays && !invalid then EraseFrom(c, 0, n) else c;
      var start := if !lim then 0 else if path[depth] < |c1| then path[depth] else |c1|;
      var j := FindPlain(c1, start);
      if j < |c1| then Merged(c1[j := Append(c1[j], Assign(n, r))], AddDepth(np, depth, j))
      else Merged(c1 + [Assign(n, r)], AddDepth(np, depth, |c1|))
  }

  /** mergeExpTree: one tree of node n into the tree of its supernode. */
  function MergeTree(arrays: set<nat>, n: nat, e: ETree, root: seq<Stmt>, prevPath: seq<nat>, np: seq<nat>): Merged
    requires !e.Nil?
  {
    Merge(arrays, n, e, root, 1, true, Later(prevPath, np, 0), AddDepth(np, 0, 0))
  }
}
