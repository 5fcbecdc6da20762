/** The stable topological reordering of a supernode's members (src/StmtTree.cpp,
    SuperNode::reorderMember). A member is known by its rank, its place in the current
    member order. */
module Reorder {

  /** prev[v] are the members v depends on, within the supernode. */
  type Deps = seq<set<nat>>

  ghost function Elements(q: seq<nat>): set<nat> {
    set x | x in q
  }

  /** v can come next once the members in `placed` have. */
  ghost predicate Ready(prev: Deps, placed: set<nat>, v: nat) {
    v < |prev| && v !in placed && prev[v] <= placed
  }

  ghost predicate Distinct(q: seq<nat>) {
    forall i, j :: 0 <= i < j < |q| ==> q[i] != q[j]
  }

  /** Every entry comes after its dependencies. */
  ghost predicate Ordered(prev: Deps, q: seq<nat>) {
    forall k :: 0 <= k < |q| ==> Ready(prev, Elements(q[..k]), q[k])
  }

  /** A topological order of all members. */
  ghost predicate Topological(prev: Deps, q: seq<nat>) {
    |q| == |prev| && Ordered(prev, q)
  }

  ghost predicate LeastReady(prev: Deps, placed: set<nat>, v: nat) {
    Ready(prev, placed, v) && forall u: nat :: Ready(prev, placed, u) ==> v <= u
  }

  ghost predicate GreedySoFar(prev: Deps, q: seq<nat>) {
    forall k :: 0 <= k < |q| ==> LeastReady(prev, Elements(q[..k]), q[k])
  }

  /** Each entry is the least ready member, until none is ready. */
  ghost predicate Greedy(prev: Deps, q: seq<nat>) {
    && GreedySoFar(prev, q)
    && (forall v :: !Ready(prev, Elements(q), v))
  }

  /** a is q, or smaller where they first differ. */
  ghost predicate LexAtMost(a: seq<nat>, q: seq<nat>) {
    a == q || exists k :: 0 <= k < |a| && k < |q| && a[..k] == q[..k] && a[k] < q[k]
  }

  lemma OrderedIsDistinct(prev: Deps, q: seq<nat>)
    requires Ordered(prev, q)
    ensures Distinct(q) && (forall v :: v in q ==> v < |prev|)
  {
    forall i, j | 0 <= i < j < |q| ensures q[i] != q[j] {
      assert q[i] == q[..j][i];
    }
  }

  lemma Without(q: seq<nat>, k: nat)
    requires Distinct(q) && k < |q|
    ensures var r := q[..k] + q[k + 1..];
            |r| == |q| - 1 && Distinct(r) && q[k] !in r && forall v :: v in q <==> v in r || v == q[k]
  {
    var r := q[..k] + q[k + 1..];
    assert forall i :: 0 <= i < |r| ==> r[i] == if i < k then q[i] else q[i + 1];
    forall v | v in q && v != q[k] ensures v in r {
      var i :| 0 <= i < |q| && q[i] == v;
      assert r[if i < k then i else i - 1] == v;
    }
  }

  lemma {:induction false} DistinctBelow(q: seq<nat>, n: nat)
    requires Distinct(q) && forall v :: v in q ==> v < n
    ensures |q| <= n && (|q| == n ==> forall v: nat :: v < n ==> v in q)
    decreases n
  {
    assert |q| > 0 ==> q[0] in q;
    if n > 0 {
      if n - 1 in q {
        var k :| 0 <= k < |q| && q[k] == n - 1;
        Without(q, k);
        DistinctBelow(q[..k] + q[k + 1..], n - 1);
      } else {
        DistinctBelow(q, n - 1);
      }
    }
  }

  /** The greedy order is complete exactly when the dependencies are acyclic. */
  lemma GreedyCompleteIff(prev: Deps, q: seq<nat>)
    requires Greedy(prev, q)
    ensures |q| == |prev| <==> exists t :: Topological(prev, t)
  {
    assert Ordered(prev, q);
    OrderedIsDistinct(prev, q);
    DistinctBelow(q, |prev|);
    if |q| == |prev| {
      assert Topological(prev, q);
    }
    if t :| Topological(prev, t) {
      OrderedIsDistinct(prev, t);
      DistinctBelow(t, |prev|);
      NoneLeft(prev, q, t, |t|);
      if |q| < |prev| {
        Subsumed(t, q);
      }
    }
  }

  /** A greedy order contains every prefix of a topological order. */
  lemma {:induction false} NoneLeft(prev: Deps, q: seq<nat>, t: seq<nat>, k: nat)
    requires Greedy(prev, q) && Topological(prev, t) && k <= |t|
    ensures forall i :: 0 <= i < k ==> t[i] in q
  {
    if k > 0 {
      NoneLeft(prev, q, t, k - 1);
      var v := t[k - 1];
      assert Ready(prev, Elements(t[..k - 1]), v);
      assert Elements(t[..k - 1]) <= Elements(q);
      assert !Ready(prev, Elements(q), v);
    }
  }

  lemma {:induction false} Subsumed(t: seq<nat>, q: seq<nat>)
    requires Distinct(t) && forall i :: 0 <= i < |t| ==> t[i] in q
    ensures |t| <= |q|
  {
    if t != [] {
      var last := t[|t| - 1];
      var k :| 0 <= k < |q| && q[k] == last;
      var rest, front := q[..k] + q[k + 1..], t[..|t| - 1];
      forall i | 0 <= i < |front| ensures front[i] in rest {
        var j :| 0 <= j < |q| && q[j] == t[i];
        assert rest[if j < k then j else j - 1] == t[i];
      }
      Subsumed(front, rest);
    }
  }

  /** It is the least of all topological orders. */
  lemma GreedyIsLeast(prev: Deps, q: seq<nat>, t: seq<nat>)
    requires Greedy(prev, q) && Topological(prev, t)
    ensures Topological(prev, q) && LexAtMost(q, t)
  {
    GreedyCompleteIff(prev, q);
    LeastFrom(prev, q, t, 0);
  }

  lemma {:induction false} LeastFrom(prev: Deps, q: seq<nat>, t: seq<nat>, k: nat)
    requires Greedy(prev, q) && Topological(prev, t) && |q| == |t| && k <= |q| && q[..k] == t[..k]
    ensures LexAtMost(q, t)
    decreases |q| - k
  {
    if k == |q| {
      assert q[..k] == q && t[..k] == t;
    } else if q[k] == t[k] {
      assert q[..k + 1] == q[..k] + [q[k]] && t[..k + 1] == t[..k] + [t[k]];
      LeastFrom(prev, q, t, k + 1);
    } else {
      assert Ready(prev, Elements(t[..k]), t[k]);
      assert LeastReady(prev, Elements(q[..k]), q[k]);
    }
  }

  /** Members already in order keep their places. */
  lemma GreedyOnOrdered(prev: Deps, q: seq<nat>)
    requires Greedy(prev, q) && forall v: nat, u :: v < |prev| && u in prev[v] ==> u < v
    ensures q == seq(|prev|, i => i)
  {
    var t := seq(|prev|, (i: int) requires 0 <= i => i as nat);
    forall k | 0 <= k < |t| ensures Ready(prev, Elements(t[..k]), t[k]) {
      forall u | u in prev[k] ensures u in Elements(t[..k]) {
        assert t[..k][u] == u;
      }
    }
    GreedyIsLeast(prev, q, t);
    OrderedIsDistinct(prev, q);
    LeastIsIdentity(q, t);
  }

  lemma {:induction false} LeastIsIdentity(q: seq<nat>, t: seq<nat>)
    requires Distinct(q) && LexAtMost(q, t) && forall i :: 0 <= i < |t| ==> t[i] == i
    ensures q == t
  {
    forall k | 0 <= k < |q| && k < |t| && q[..k] == t[..k] ensures q[k] >= t[k] {
      assert q[k] < k ==> q[q[k]] != q[k];
      forall v: nat | v < k ensures q[v] == v {
        assert q[..k][v] == t[..k][v];
      }
    }
  }

  /** Two runs that agree on the dependencies agree on the order. */
  lemma GreedyIsUnique(prev: Deps, q: seq<nat>, t: seq<nat>)
    requires Greedy(prev, q) && Greedy(prev, t)
    ensures q == t
  {
    UniqueFrom(prev, q, t, 0);
  }

  lemma {:induction false} UniqueFrom(prev: Deps, q: seq<nat>, t: seq<nat>, k: nat)
    requires Greedy(prev, q) && Greedy(prev, t) && k <= |q| && k <= |t| && q[..k] == t[..k]
    ensures q == t
    decreases |q| - k
  {
    assert k < |q| ==> LeastReady(prev, Elements(q[..k]), q[k]);
    assert k < |t| ==> LeastReady(prev, Elements(t[..k]), t[k]);
    if k == |q| || k == |t| {
      assert q[..|q|] == q && t[..|t|] == t;
    } else {
      assert LeastReady(prev, Elements(q[..k]), q[k]) && LeastReady(prev, Elements(t[..k]), t[k]);
      assert q[..k + 1] == q[..k] + [q[k]] && t[..k + 1] == t[..k] + [t[k]];
      UniqueFrom(prev, q, t, k + 1);
    }
  }

  // ----- the loop

  ghost predicate Symmetric(prev: Deps, next: Deps) {
    && |next| == |prev|
    && (forall v: nat, u :: v < |prev| && u in prev[v] ==> u < |prev| && v in next[u])
    && (forall u: nat, v :: u < |next| && v in next[u] ==> v < |prev| && u in prev[v])
  }

  ghost predicate Sorted(f: seq<nat>, head: nat) {
    forall i, j :: head <= i < j < |f| ==> f[i] < f[j]
  }

  /** What is left in the frontier. */
  ghost predicate Holds(f: seq<nat>, head: nat, v: nat) {
    exists i :: head <= i < |f| && f[i] == v
  }

  /** The frontier is what is ready. */
  ghost predicate FrontierIs(prev: Deps, placed: set<nat>, f: seq<nat>, head: nat) {
    forall v: nat :: Holds(f, head, v) <==> Ready(prev, placed, v)
  }

  method LowerBound(f: seq<nat>, head: nat, v: nat) returns (pos: nat)
    requires head <= |f| && Sorted(f, head)
    ensures head <= pos <= |f|
    ensures (forall i :: head <= i < pos ==> f[i] < v) && (forall i :: pos <= i < |f| ==> f[i] >= v)
  {
    pos := head;
    var count := |f| - head;
    while count > 0
      invariant head <= pos && 0 <= count <= |f| - pos
      invariant (forall i :: head <= i < pos ==> f[i] < v) && (forall i :: pos + count <= i < |f| ==> f[i] >= v)
    {
      var step := count / 2;
      if f[pos + step] < v {
        pos := pos + step + 1;
        count := count - step - 1;
      } else {
        count := step;
      }
    }
  }

  method InsertReady(f: seq<nat>, head: nat, v: nat) returns (g: seq<nat>)
    requires head <= |f| && Sorted(f, head) && !Holds(f, head, v)
    ensures |g| == |f| + 1 && g[..head] == f[..head] && Sorted(g, head)
    ensures forall u :: Holds(g, head, u) <==> Holds(f, head, u) || u == v
  {
    var pos := LowerBound(f, head, v);
    g := f[..pos] + [v] + f[pos..];
    assert forall i :: 0 <= i < |g| ==> g[i] == if i < pos then f[i] else if i == pos then v else f[i - 1];
    forall u ensures Holds(g, head, u) <==> Holds(f, head, u) || u == v {
      if Holds(f, head, u) {
        var i :| head <= i < |f| && f[i] == u;
        assert g[if i < pos then i else i + 1] == u;
      }
      assert g[pos] == v;
    }
  }

  ghost function Open(deps: set<nat>, placed: set<nat>): nat {
    |deps - placed|
  }

  /** How many dependencies of v are still to be placed. */
  ghost predicate Counts(prev: Deps, placed: set<nat>, count: seq<nat>) {
    |count| == |prev| && forall v: nat :: v < |prev| ==> count[v] == Open(prev[v], placed)
  }

  lemma PlaceOne(deps: set<nat>, placed: set<nat>, node: nat)
    requires node !in placed
    ensures Open(deps, placed) == Open(deps, placed + {node}) + (if node in deps then 1 else 0)
    ensures Open(deps, placed + {node}) == 0 <==> deps <= placed + {node}
  {
    var rest := deps - (placed + {node});
    if node in deps {
      assert deps - placed == rest + {node};
    } else {
      assert deps - placed == rest;
    }
    if |rest| == 0 {
      assert rest == {};
    }
    if deps <= placed + {node} {
      assert rest == {};
    }
  }

  ghost predicate Closed(prev: Deps, placed: set<nat>) {
    forall v :: v in placed ==> v < |prev| && prev[v] <= placed
  }

  lemma OrderedIsClosed(prev: Deps, q: seq<nat>)
    requires Ordered(prev, q)
    ensures Closed(prev, Elements(q))
  {
    forall v | v in Elements(q) ensures v < |prev| && prev[v] <= Elements(q) {
      var k :| 0 <= k < |q| && q[k] == v;
      assert Ready(prev, Elements(q[..k]), v);
    }
  }

  ghost predicate CanPlace(prev: Deps, placed: set<nat>, node: nat) {
    Ready(prev, placed, node) && Closed(prev, placed)
  }

  ghost predicate Successors(prev: Deps, next: Deps, node: nat) {
    node < |next| && forall v: nat :: v < |prev| ==> (v in next[node] <==> node in prev[v])
  }

  lemma ReadyAfter(prev: Deps, placed: set<nat>, node: nat, v: nat)
    requires v < |prev| && CanPlace(prev, placed, node)
    ensures node !in prev[v] ==> (Ready(prev, placed + {node}, v) <==> Ready(prev, placed, v) && v != node)
    ensures node in prev[v] ==>
              !Ready(prev, placed, v) && v != node && (Ready(prev, placed + {node}, v) <==> prev[v] <= placed + {node})
  {
  }

  method CountPrev(prev: Deps) returns (count: seq<nat>, frontier: seq<nat>)
    ensures Counts(prev, {}, count)
    ensures Sorted(frontier, 0) && FrontierIs(prev, {}, frontier, 0)
  {
    count, frontier := [], [];
    var i := 0;
    while i < |prev|
      invariant 0 <= i <= |prev| && |count| == i
      invariant forall v: nat :: v < i ==> count[v] == Open(prev[v], {})
      invariant Sorted(frontier, 0) && (forall k :: 0 <= k < |frontier| ==> frontier[k] < i)
      invariant forall v: nat :: Holds(frontier, 0, v) <==> v < i && Ready(prev, {}, v)
    {
      assert prev[i] - {} == prev[i];
      count := count + [|prev[i]|];
      if count[i] == 0 {
        assert prev[i] == {};
        ghost var was := frontier;
        frontier := frontier + [i];
        assert forall v: nat :: Holds(was, 0, v) ==> Holds(frontier, 0, v) by {
          assert forall k :: 0 <= k < |was| ==> frontier[k] == was[k];
        }
        assert frontier[|was|] == i;
      }
      i := i + 1;
    }
  }

  /** Successors of `node` below v have been visited: counts and frontier. */
  ghost predicate CountsTo(prev: Deps, placed: set<nat>, node: nat, v: nat, count: seq<nat>) {
    |count| == |prev| && forall u: nat :: u < |prev| ==>
      count[u] == if u < v then Open(prev[u], placed + {node}) else Open(prev[u], placed)
  }

  ghost predicate FrontierTo(prev: Deps, placed: set<nat>, node: nat, v: nat, f: seq<nat>, head: nat) {
    && head <= |f| && Sorted(f, head)
    && forall u: nat :: Holds(f, head, u) <==> ReadyTo(prev, placed, node, v, u)
  }

  ghost predicate ReadyTo(prev: Deps, placed: set<nat>, node: nat, v: nat, u: nat) {
    (Ready(prev, placed, u) && u != node) || (u < v && Ready(prev, placed + {node}, u))
  }

  lemma ReadyToNext(prev: Deps, placed: set<nat>, node: nat, v: nat)
    requires v < |prev| && CanPlace(prev, placed, node)
    ensures forall u: nat :: u != v ==> (ReadyTo(prev, placed, node, v + 1, u) <==> ReadyTo(prev, placed, node, v, u))
    ensures ReadyTo(prev, placed, node, v + 1, v) <==>
              if node in prev[v] then Open(prev[v], placed + {node}) == 0 else ReadyTo(prev, placed, node, v, v)
    ensures node in prev[v] ==> !ReadyTo(prev, placed, node, v, v)
  {
    ReadyAfter(prev, placed, node, v);
    PlaceOne(prev[v], placed, node);
  }

  method Visit(prev: Deps, ghost placed: set<nat>, node: nat, v: nat, count0: seq<nat>, f0: seq<nat>, head: nat)
    returns (count: seq<nat>, f: seq<nat>)
    requires v < |prev| && node in prev[v] && CanPlace(prev, placed, node)
    requires CountsTo(prev, placed, node, v, count0) && FrontierTo(prev, placed, node, v, f0, head)
    ensures CountsTo(prev, placed, node, v + 1, count) && FrontierTo(prev, placed, node, v + 1, f, head)
    ensures f[..head] == f0[..head]
  {
    PlaceOne(prev[v], placed, node);
    ReadyToNext(prev, placed, node, v);
    f := f0;
    count := count0[v := count0[v] - 1];
    if count[v] == 0 {
      f := InsertReady(f, head, v);
    }
  }

  lemma Skip(prev: Deps, placed: set<nat>, node: nat, v: nat, count: seq<nat>, f: seq<nat>, head: nat)
    requires v < |prev| && node !in prev[v] && CanPlace(prev, placed, node)
    requires CountsTo(prev, placed, node, v, count) && FrontierTo(prev, placed, node, v, f, head)
    ensures CountsTo(prev, placed, node, v + 1, count) && FrontierTo(prev, placed, node, v + 1, f, head)
  {
    PlaceOne(prev[v], placed, node);
    SkipFrontier(prev, placed, node, v, f, head);
  }

  lemma SkipFrontier(prev: Deps, placed: set<nat>, node: nat, v: nat, f: seq<nat>, head: nat)
    requires v < |prev| && node !in prev[v] && CanPlace(prev, placed, node)
    requires FrontierTo(prev, placed, node, v, f, head)
    ensures FrontierTo(prev, placed, node, v + 1, f, head)
  {
    forall u: nat ensures Holds(f, head, u) <==> ReadyTo(prev, placed, node, v + 1, u) {
      ReadyToNext(prev, placed, node, v);
      assert Holds(f, head, u) <==> ReadyTo(prev, placed, node, v, u);
    }
  }

  /** The successors of the placed node are visited in rank order; those with no open
      dependency left enter the frontier at their place. */
  method Release(prev: Deps, next: Deps, ghost placed: set<nat>, node: nat, count0: seq<nat>, f0: seq<nat>, head: nat)
    returns (count: seq<nat>, f: seq<nat>)
    requires CanPlace(prev, placed, node) && Successors(prev, next, node)
    requires CountsTo(prev, placed, node, 0, count0) && FrontierTo(prev, placed, node, 0, f0, head)
    ensures CountsTo(prev, placed, node, |prev|, count) && FrontierTo(prev, placed, node, |prev|, f, head)
    ensures f[..head] == f0[..head]
  {
    count, f := count0, f0;
    var v := 0;
    while v < |prev|
      invariant 0 <= v <= |prev|
      invariant CountsTo(prev, placed, node, v, count) && FrontierTo(prev, placed, node, v, f, head)
      invariant f[..head] == f0[..head]
    {
      if v in next[node] {
        count, f := Visit(prev, placed, node, v, count, f, head);
      } else {
        Skip(prev, placed, node, v, count, f, head);
      }
      v := v + 1;
    }
  }

  /** The state of the loop after `order` has been placed. */
  ghost predicate Placed(prev: Deps, order: seq<nat>, count: seq<nat>, f: seq<nat>, head: nat) {
    && head <= |f| && order == f[..head] && Sorted(f, head) && Counts(prev, Elements(order), count)
    && FrontierIs(prev, Elements(order), f, head)
    && GreedySoFar(prev, order) && |order| <= |prev|
  }

  method PlaceNext(prev: Deps, next: Deps, ghost order: seq<nat>, count0: seq<nat>, f0: seq<nat>, head: nat)
    returns (count: seq<nat>, f: seq<nat>)
    requires Symmetric(prev, next) && Placed(prev, order, count0, f0, head) && head < |f0|
    ensures Placed(prev, order + [f0[head]], count, f, head + 1)
  {
    var node := f0[head];
    BeforeRelease(prev, order, count0, f0, head);
    SymmetricAt(prev, next, node);
    count, f := Release(prev, next, Elements(order), node, count0, f0, head + 1);
    PrefixGrows(f0, f, head);
    AfterRelease(prev, order, node, count, f, head + 1);
  }

  lemma SymmetricAt(prev: Deps, next: Deps, node: nat)
    requires Symmetric(prev, next) && node < |prev|
    ensures Successors(prev, next, node)
  {
  }

  lemma PrefixGrows(f0: seq<nat>, f: seq<nat>, head: nat)
    requires head < |f0| && head < |f| && f[..head + 1] == f0[..head + 1]
    ensures f[..head + 1] == f0[..head] + [f0[head]]
  {
  }

  lemma BeforeRelease(prev: Deps, order: seq<nat>, count: seq<nat>, f: seq<nat>, head: nat)
    requires Placed(prev, order, count, f, head) && head < |f|
    ensures var placed := Elements(order);
            && LeastReady(prev, placed, f[head]) && f[head] < |prev| && CanPlace(prev, placed, f[head])
            && CountsTo(prev, placed, f[head], 0, count) && FrontierTo(prev, placed, f[head], 0, f, head + 1)
  {
    LeastInFrontier(prev, Elements(order), f, head);
    HeadDrops(f, head);
    assert Ordered(prev, order);
    OrderedIsClosed(prev, order);
  }

  lemma AfterRelease(prev: Deps, order: seq<nat>, node: nat, count: seq<nat>, f: seq<nat>, head: nat)
    requires LeastReady(prev, Elements(order), node) && CanPlace(prev, Elements(order), node)
             && GreedySoFar(prev, order)
    requires CountsTo(prev, Elements(order), node, |prev|, count)
             && FrontierTo(prev, Elements(order), node, |prev|, f, head)
    requires head <= |f| && f[..head] == order + [node]
    ensures Placed(prev, order + [node], count, f, head)
  {
    GreedyGrows(prev, order, node);
    AllVisited(prev, Elements(order), node, count, f, head);
    var more, placed := order + [node], Elements(order) + {node};
    assert Elements(more) == placed && Counts(prev, placed, count) && FrontierIs(prev, placed, f, head)
           && Sorted(f, head);
  }

  /** reorderMember: the least-rank-first topological order. */
  method ReorderMember(prev: Deps, next: Deps) returns (order: seq<nat>)
    requires Symmetric(prev, next)
    ensures Greedy(prev, order)
    ensures |order| == |prev| <==> exists t :: Topological(prev, t)
    ensures forall t :: Topological(prev, t) ==> Topological(prev, order) && LexAtMost(order, t)
  {
    var count, frontier := CountPrev(prev);
    var head := 0;
    order := [];
    while head < |frontier|
      invariant Placed(prev, order, count, frontier, head)
      decreases |prev| - |order|
    {
      var node := frontier[head];
      count, frontier := PlaceNext(prev, next, order, count, frontier, head);
      order := order + [node];
      head := head + 1;
    }
    forall v ensures !Ready(prev, Elements(order), v) {
      assert !Holds(frontier, head, v);
    }
    GreedyCompleteIff(prev, order);
    forall t | Topological(prev, t) ensures Topological(prev, order) && LexAtMost(order, t) {
      GreedyIsLeast(prev, order, t);
    }
  }

  lemma AllVisited(prev: Deps, placed: set<nat>, node: nat, count: seq<nat>, f: seq<nat>, head: nat)
    requires CanPlace(prev, placed, node)
    requires CountsTo(prev, placed, node, |prev|, count) && FrontierTo(prev, placed, node, |prev|, f, head)
    ensures Counts(prev, placed + {node}, count) && FrontierIs(prev, placed + {node}, f, head)
  {
  }

  lemma LeastInFrontier(prev: Deps, placed: set<nat>, f: seq<nat>, head: nat)
    requires head < |f| && Sorted(f, head) && FrontierIs(prev, placed, f, head)
    ensures LeastReady(prev, placed, f[head])
  {
    assert Holds(f, head, f[head]);
    forall u: nat | Ready(prev, placed, u) ensures f[head] <= u {
      assert Holds(f, head, u);
    }
  }

  lemma HeadDrops(f: seq<nat>, head: nat)
    requires head < |f| && Sorted(f, head)
    ensures forall v: nat :: Holds(f, head + 1, v) <==> Holds(f, head, v) && v != f[head]
  {
    forall v ensures Holds(f, head + 1, v) <==> Holds(f, head, v) && v != f[head] {
      if Holds(f, head, v) && v != f[head] {
        var i :| head <= i < |f| && f[i] == v;
        assert i != head;
      }
    }
  }

  lemma GreedyGrows(prev: Deps, order: seq<nat>, node: nat)
    requires LeastReady(prev, Elements(order), node)
    requires GreedySoFar(prev, order)
    ensures var more := order + [node];
            && GreedySoFar(prev, more) && |more| <= |prev| && Elements(more) == Elements(order) + {node}
              && Closed(prev, Elements(order))
  {
    var more := order + [node];
    forall k | 0 <= k < |more| ensures LeastReady(prev, Elements(more[..k]), more[k]) {
      assert more[..k] == order[..k];
      assert order[..|order|] == order;
    }
    assert Ordered(prev, more);
    OrderedIsDistinct(prev, more);
    DistinctBelow(more, |prev|);
    OrderedIsClosed(prev, order);
  }
}
