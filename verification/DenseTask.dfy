/** MTask bodies as transformers of the simulator's variables, and the reason why an
    execution that respects the task graph ends like the serial one. */
module DenseTask {

  /** Simulator variables. */
  type Store = map<nat, int>

  /** One MTask: the variables it may read and write, and its body. */
  datatype Task = Task(inputs: set<nat>, outputs: set<nat>, body: Store -> Store)

  ghost predicate Agree(m: Store, k: Store, vars: set<nat>) {
    forall v :: v in vars && v in m && v in k ==> m[v] == k[v]
  }

  /** The body changes only what the task declares as outputs. */
  ghost predicate Frame(t: Task, m: Store) {
    t.body(m).Keys == m.Keys && forall v :: v in m && v !in t.outputs ==> t.body(m)[v] == m[v]
  }

  /** What the body writes depends only on what the task declares as inputs. */
  ghost predicate Depends(t: Task, m: Store, k: Store) {
    m.Keys == k.Keys && Agree(m, k, t.inputs) ==>
      forall v :: v in m && v in t.outputs && v in t.body(m) && v in t.body(k) ==> t.body(m)[v] == t.body(k)[v]
  }

  /** The body stays inside its footprint. */
  ghost predicate TaskOk(t: Task) {
    (forall m: Store :: Frame(t, m)) && (forall m: Store, k: Store :: Depends(t, m, k))
  }

  /** Two tasks that conflict on no variable. */
  ghost predicate Independent(a: Task, b: Task) {
    a.outputs !! b.outputs && a.outputs !! b.inputs && b.outputs !! a.inputs
  }

  lemma Commute(a: Task, b: Task, m: Store)
    requires TaskOk(a) && TaskOk(b) && Independent(a, b)
    ensures a.body(b.body(m)) == b.body(a.body(m))
  {
    var am, bm := a.body(m), b.body(m);
    var ab, ba := a.body(bm), b.body(am);
    assert Frame(a, m) && Frame(b, m) && Frame(a, bm) && Frame(b, am);
    assert Depends(a, m, bm) && Depends(b, m, am);
    assert forall v :: v in m ==> ab[v] == ba[v];
  }

  /** The bodies of `order`, one after the other. */
  function Run(tasks: seq<Task>, order: seq<nat>, m: Store): Store
    requires forall i :: 0 <= i < |order| ==> order[i] < |tasks|
  {
    if order == [] then m
    else Run(tasks, order[1..], tasks[order[0]].body(m))
  }

  lemma {:induction false} RunConcat(tasks: seq<Task>, a: seq<nat>, b: seq<nat>, m: Store)
    requires forall i :: 0 <= i < |a| ==> a[i] < |tasks|
    requires forall i :: 0 <= i < |b| ==> b[i] < |tasks|
    ensures Run(tasks, a + b, m) == Run(tasks, b, Run(tasks, a, m))
  {
    if a == [] {
      assert a + b == b;
    } else {
      assert (a + b)[1..] == a[1..] + b;
      RunConcat(tasks, a[1..], b, tasks[a[0]].body(m));
    }
  }

  lemma {:induction false} MovePast(tasks: seq<Task>, x: nat, b: seq<nat>, m: Store)
    requires x < |tasks| && TaskOk(tasks[x])
    requires forall i :: 0 <= i < |b| ==> b[i] < |tasks| && TaskOk(tasks[b[i]]) && Independent(tasks[x], tasks[b[i]])
    ensures Run(tasks, [x] + b, m) == Run(tasks, b + [x], m)
  {
    if b == [] {
      assert [x] + b == b + [x];
    } else {
      var y, rest := b[0], b[1..];
      assert Independent(tasks[x], tasks[y]);
      var my := tasks[y].body(m);
      calc {
        Run(tasks, [x] + b, m);
        { assert ([x] + b)[1..] == b; }
        Run(tasks, b, tasks[x].body(m));
        Run(tasks, rest, tasks[y].body(tasks[x].body(m)));
        { Commute(tasks[x], tasks[y], m); }
        Run(tasks, rest, tasks[x].body(my));
        { assert ([x] + rest)[1..] == rest; }
        Run(tasks, [x] + rest, my);
        { MovePast(tasks, x, rest, my); }
        Run(tasks, rest + [x], my);
        { assert (b + [x])[1..] == rest + [x]; }
        Run(tasks, b + [x], m);
      }
    }
  }

  /** 0, 1, ..., n-1: the order of the serial fallback. */
  function Upto(n: nat): (r: seq<nat>)
    ensures |r| == n && forall i :: 0 <= i < n ==> r[i] == i
  {
    if n == 0 then [] else Upto(n - 1) + [n - 1]
  }

  ghost predicate NoDup(s: seq<nat>) {
    forall i, j :: 0 <= i < j < |s| ==> s[i] != s[j]
  }

  ghost predicate IsPermutation(order: seq<nat>, n: nat) {
    NoDup(order) && (forall i :: 0 <= i < |order| ==> order[i] < n) && forall x: nat :: x < n ==> x in order
  }

  /** Whenever a larger id runs before a smaller one, the two do not conflict. */
  ghost predicate InversionsIndependent(tasks: seq<Task>, order: seq<nat>) {
    && (forall i :: 0 <= i < |order| ==> order[i] < |tasks|)
    && forall i, j :: 0 <= i < j < |order| && order[i] > order[j] ==> Independent(tasks[order[i]], tasks[order[j]])
  }

  lemma {:induction false} SerialEquivalence(tasks: seq<Task>, order: seq<nat>, n: nat, m: Store)
    requires forall i :: 0 <= i < |tasks| ==> TaskOk(tasks[i])
    requires n <= |tasks| && IsPermutation(order, n) && InversionsIndependent(tasks, order)
    ensures Run(tasks, order, m) == Run(tasks, Upto(n), m)
    decreases n
  {
    if n == 0 {
      assert order == [];
    } else {
      var last := n - 1;
      assert last in order;
      var k :| 0 <= k < |order| && order[k] == last;
      var rest := order[..k] + order[k + 1..];
      MoveLast(tasks, order, k, m);
      RestIsPermutation(tasks, order, k, n);
      SerialEquivalence(tasks, rest, last, m);
      RunConcat(tasks, rest, [last], m);
      RunConcat(tasks, Upto(last), [last], m);
    }
  }

  lemma MoveLast(tasks: seq<Task>, order: seq<nat>, k: nat, m: Store)
    requires forall i :: 0 <= i < |tasks| ==> TaskOk(tasks[i])
    requires InversionsIndependent(tasks, order) && k < |order|
    requires forall i :: k < i < |order| ==> order[i] < order[k]
    ensures Run(tasks, order, m) == Run(tasks, order[..k] + order[k + 1..] + [order[k]], m)
  {
    var a, last, b := order[..k], order[k], order[k + 1..];
    assert order == a + ([last] + b);
    RunConcat(tasks, a, [last] + b, m);
    MovePast(tasks, last, b, Run(tasks, a, m));
    RunConcat(tasks, a, b + [last], m);
    assert a + (b + [last]) == a + b + [last];
  }

  lemma RestIsPermutation(tasks: seq<Task>, order: seq<nat>, k: nat, n: nat)
    requires n > 0 && n <= |tasks| && IsPermutation(order, n) && InversionsIndependent(tasks, order)
    requires k < |order| && order[k] == n - 1
    ensures IsPermutation(order[..k] + order[k + 1..], n - 1)
            && InversionsIndependent(tasks, order[..k] + order[k + 1..])
  {
    var rest := order[..k] + order[k + 1..];
    assert forall i :: 0 <= i < |rest| ==> rest[i] == if i < k then order[i] else order[i + 1];
    forall x: nat | x < n - 1 ensures x in rest {
      assert x in order;
      var i :| 0 <= i < |order| && order[i] == x;
      assert x == rest[if i < k then i else i - 1];
    }
  }
}
