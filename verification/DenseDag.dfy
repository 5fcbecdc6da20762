/** The MTask graph and its transitive reduction
    (src/cppEmitterDenseSchedule.cpp, mtReduceDenseRuntimeSuccsTransitive).

    MTasks are numbered 0..n-1 and every edge goes to a larger number. The reduction
    drops an edge when another successor of the same source still leads to its target. */
module DenseDag {

  /** Successor sets: g[s] holds the tasks that have to wait for task s. */
  type Dag = seq<set<nat>>

  ghost predicate Forward(g: Dag) {
    forall s, t :: 0 <= s < |g| && t in g[s] ==> s < t < |g|
  }

  ghost predicate SubDag(h: Dag, g: Dag) {
    |h| == |g| && forall s :: 0 <= s < |g| ==> h[s] <= g[s]
  }

  /** There is a path of at least one edge from s to t. */
  ghost predicate Reach(g: Dag, s: nat, t: nat)
    requires Forward(g)
    decreases |g| - s
  {
    s < |g| && (t in g[s] || exists m :: m in g[s] && Reach(g, m, t))
  }

  lemma {:induction false} ReachForward(g: Dag, s: nat, t: nat)
    requires Forward(g) && Reach(g, s, t)
    ensures s < t < |g|
    decreases |g| - s
  {
    if t !in g[s] {
      var m :| m in g[s] && Reach(g, m, t);
      ReachForward(g, m, t);
    }
  }

  lemma {:induction false} ReachTrans(g: Dag, s: nat, m: nat, t: nat)
    requires Forward(g) && Reach(g, s, m) && Reach(g, m, t)
    ensures Reach(g, s, t)
    decreases |g| - s
  {
    if m !in g[s] {
      var a :| a in g[s] && Reach(g, a, m);
      ReachTrans(g, a, m, t);
    }
  }

  lemma {:induction false} ReachMono(h: Dag, g: Dag, s: nat, t: nat)
    requires Forward(g) && SubDag(h, g) && Forward(h) && Reach(h, s, t)
    ensures Reach(g, s, t)
    decreases |h| - s
  {
    if t !in h[s] {
      var m :| m in h[s] && Reach(h, m, t);
      ReachMono(h, g, m, t);
    }
  }

  // ----- what the reduction keeps

  /** Another successor of s already leads to t. */
  ghost predicate Redundant(e: Dag, s: nat, t: nat)
    requires Forward(e) && s < |e|
  {
    exists a :: a in e[s] && a != t && Reach(e, a, t)
  }

  /** The edges of g with no alternative path in e. */
  ghost function Reduced(g: Dag, e: Dag): Dag
    requires Forward(e) && SubDag(g, e)
  {
    seq(|g|, s requires 0 <= s < |g| => KeptFrom(g, e, s))
  }

  ghost function KeptFrom(g: Dag, e: Dag, s: nat): set<nat>
    requires Forward(e) && s < |g| && s < |e|
  {
    set t | t in g[s] && !Redundant(e, s, t)
  }

  /** What still orders the tasks after the reduction: the kept edges of g, and the
      edges of e that were never candidates for removal. */
  ghost function Retained(g: Dag, e: Dag): Dag
    requires Forward(e) && SubDag(g, e)
  {
    seq(|e|, s requires 0 <= s < |e| => (e[s] - g[s]) + KeptFrom(g, e, s))
  }

  lemma RetainedShape(g: Dag, e: Dag)
    requires Forward(e) && SubDag(g, e)
    ensures |Retained(g, e)| == |e| && SubDag(Retained(g, e), e) && Forward(Retained(g, e))
    ensures SubDag(Reduced(g, e), Retained(g, e)) && Forward(Reduced(g, e))
  {
    var r := Retained(g, e);
    forall s | 0 <= s < |e| ensures r[s] <= e[s] && Reduced(g, e)[s] <= r[s] {
      assert r[s] == (e[s] - g[s]) + KeptFrom(g, e, s);
      assert Reduced(g, e)[s] == KeptFrom(g, e, s);
    }
  }

  /** The reduction preserves reachability, in both directions. */
  lemma {:induction false} ReductionKeepsReach(g: Dag, e: Dag, s: nat, t: nat)
    requires Forward(e) && SubDag(g, e)
    ensures Forward(Retained(g, e))
    ensures Reach(Retained(g, e), s, t) <==> Reach(e, s, t)
  {
    RetainedShape(g, e);
    if Reach(e, s, t) {
      ReachForward(e, s, t);
      ReachRetained(g, e, s, t);
    }
    if Reach(Retained(g, e), s, t) {
      ReachMono(Retained(g, e), e, s, t);
    }
  }

  lemma {:induction false} ReachRetained(g: Dag, e: Dag, s: nat, t: nat)
    requires Forward(e) && SubDag(g, e) && Forward(Retained(g, e))
    requires s < t && Reach(e, s, t)
    ensures Reach(Retained(g, e), s, t)
    decreases t - s
  {
    var r := Retained(g, e);
    if t in r[s] {
      return;
    }
    // either the edge s -> t was dropped, or the path has an intermediate task
    assert r[s] == (e[s] - g[s]) + KeptFrom(g, e, s);
    assert t in e[s] ==> Redundant(e, s, t);
    assert t !in e[s] ==> exists m :: m in e[s] && Reach(e, m, t);
    var m :| m in e[s] && m != t && Reach(e, m, t);
    ReachForward(e, m, t);
    ReachRetained(g, e, s, m);
    ReachRetained(g, e, m, t);
    ReachTrans(r, s, m, t);
  }

  /** Every kept edge is needed: no graph without it still orders its two ends. */
  lemma {:induction false} KeptEdgeIsNeeded(g: Dag, e: Dag, h: Dag, s: nat, t: nat)
    requires Forward(e) && SubDag(g, e) && s < |e| && t in Reduced(g, e)[s]
    requires SubDag(h, e) && Forward(h) && t !in h[s]
    ensures !Reach(h, s, t)
  {
    if Reach(h, s, t) {
      var m :| m in h[s] && Reach(h, m, t);
      ReachMono(h, e, m, t);
    }
  }

  // ----- the effective graph

  /** t is the next task after s on the same worker. */
  ghost predicate NextOnWorker(owner: seq<nat>, s: nat, t: nat) {
    s < t < |owner| && owner[s] == owner[t] && forall k :: s < k < t ==> owner[k] != owner[s]
  }

  /** g, plus one edge between consecutive tasks of a worker when chains are injected. */
  ghost function Effective(g: Dag, owner: seq<nat>, chains: bool): Dag
    requires |owner| == |g|
  {
    seq(|g|, s requires 0 <= s < |g| =>
      if chains then g[s] + NextBelow(owner, s, |g|) else g[s])
  }

  function EdgeCount(g: Dag): nat {
    if |g| == 0 then 0 else EdgeCount(g[..|g| - 1]) + |g[|g| - 1]|
  }

  lemma EdgeCountSnoc(g: Dag, last: set<nat>)
    ensures EdgeCount(g + [last]) == EdgeCount(g) + |last|
  {
    assert (g + [last])[..|g|] == g;
  }

  ghost function NextBelow(owner: seq<nat>, s: nat, upTo: nat): set<nat> {
    set t | 0 <= t < upTo && NextOnWorker(owner, s, t)
  }

  /** For each worker, its last task below `upTo`. */
  ghost predicate LastOnWorker(owner: seq<nat>, previous: map<nat, nat>, upTo: nat)
    requires upTo <= |owner|
  {
    && (forall w :: w in previous ==> previous[w] < upTo && owner[previous[w]] == w)
    && (forall w, k :: w in previous && previous[w] < k < upTo ==> owner[k] != w)
    && (forall k :: 0 <= k < upTo ==> owner[k] in previous)
  }

  lemma NextBelowStep(owner: seq<nat>, previous: map<nat, nat>, s: nat, id: nat)
    requires id < |owner| && s < |owner| && LastOnWorker(owner, previous, id)
    ensures NextBelow(owner, s, id + 1) ==
            NextBelow(owner, s, id) + if owner[id] in previous && previous[owner[id]] == s then {id} else {}
  {
    assert NextOnWorker(owner, s, id) <==> owner[id] in previous && previous[owner[id]] == s;
  }

  lemma LastStep(owner: seq<nat>, previous: map<nat, nat>, id: nat)
    requires id < |owner| && LastOnWorker(owner, previous, id)
    ensures LastOnWorker(owner, previous[owner[id] := id], id + 1)
  {
  }

  /** Links task `id` behind the previous task of its worker. */
  method LinkPrevious(e: Dag, owner: seq<nat>, previous: map<nat, nat>, id: nat) returns (linked: Dag)
    requires |e| == |owner| && id < |owner| && LastOnWorker(owner, previous, id)
    ensures |linked| == |e|
    ensures forall s :: 0 <= s < |e| ==> linked[s] == e[s] + (NextBelow(owner, s, id + 1) - NextBelow(owner, s, id))
  {
    forall s | 0 <= s < |e| {
      NextBelowStep(owner, previous, s, id);
    }
    if owner[id] in previous {
      var last := previous[owner[id]];
      linked := e[last := e[last] + {id}];
    } else {
      linked := e;
    }
  }

  method BuildEffective(g: Dag, owner: seq<nat>, chains: bool) returns (e: Dag)
    requires |owner| == |g|
    ensures e == Effective(g, owner, chains)
  {
    e := g;
    if chains {
      var previousOnWorker: map<nat, nat> := map[];
      for id := 0 to |g|
        invariant |e| == |g| && LastOnWorker(owner, previousOnWorker, id)
        invariant forall s :: 0 <= s < |g| ==> e[s] == g[s] + NextBelow(owner, s, id)
      {
        e := LinkPrevious(e, owner, previousOnWorker, id);
        assert forall s :: NextBelow(owner, s, id) <= NextBelow(owner, s, id + 1);
        LastStep(owner, previousOnWorker, id);
        previousOnWorker := previousOnWorker[owner[id] := id];
      }
    }
  }

  /** A successor that is not forward makes the caller give up. */
  method AllForward(e: Dag) returns (forwardOnly: bool)
    ensures forwardOnly <==> Forward(e)
  {
    for from := 0 to |e|
      invariant forall s, t :: 0 <= s < from && t in e[s] ==> s < t < |e|
    {
      if exists t :: t in e[from] && (t <= from || t >= |e|) {
        return false;
      }
    }
    return true;
  }

  /** Row `from` of the reachability table, given the rows behind it. */
  method ReachableRow(e: Dag, from: nat, rows: seq<set<nat>>) returns (row: set<nat>)
    requires Forward(e) && from < |e| && |rows| == |e|
    requires forall s, t :: from < s < |e| ==> (t in rows[s] <==> Reach(e, s, t))
    ensures forall t :: t in row <==> Reach(e, from, t)
  {
    row := {};
    var rest := e[from];
    while rest != {}
      invariant rest <= e[from]
      invariant forall t :: t in row <==> exists m :: m in e[from] - rest && (t == m || Reach(e, m, t))
      decreases rest
    {
      var succ :| succ in rest;
      ghost var row0, rest0 := row, rest;
      rest := rest - {succ};
      row := row + {succ} + rows[succ];
      assert e[from] - rest == (e[from] - rest0) + {succ};
      forall t
        ensures t in row <==> exists m :: m in e[from] - rest && (t == m || Reach(e, m, t))
      {
        if t in row0 {
          var m :| m in e[from] - rest0 && (t == m || Reach(e, m, t));
          assert m in e[from] - rest;
        }
        if t in {succ} + rows[succ] {
          assert succ in e[from] - rest;
        }
      }
    }
    assert e[from] - rest == e[from];
  }

  method ReachableRows(e: Dag) returns (rows: seq<set<nat>>)
    requires Forward(e)
    ensures IsReachTable(e, rows)
  {
    rows := seq(|e|, _ => {});
    var from := |e|;
    while from > 0
      invariant 0 <= from <= |e| && |rows| == |e|
      invariant forall s, t :: from <= s < |e| ==> (t in rows[s] <==> Reach(e, s, t))
    {
      from := from - 1;
      var row := ReachableRow(e, from, rows);
      rows := rows[from := row];
    }
  }

  ghost predicate IsReachTable(e: Dag, rows: seq<set<nat>>)
    requires Forward(e)
  {
    |rows| == |e| && forall s, t :: 0 <= s < |e| ==> (t in rows[s] <==> Reach(e, s, t))
  }

  /** One row of the filter: drop what another successor reaches. */
  method FilterRow(g: Dag, e: Dag, rows: seq<set<nat>>, s: nat) returns (keep: set<nat>, dropped: nat)
    requires Forward(e) && SubDag(g, e) && IsReachTable(e, rows) && s < |g|
    ensures keep == KeptFrom(g, e, s) && |keep| + dropped == |g[s]|
  {
    keep := set t | t in g[s] && !exists alt :: alt in e[s] && alt != t && t in rows[alt];
    dropped := |g[s] - keep|;
    assert keep + (g[s] - keep) == g[s];
    forall t | t in g[s] ensures (t in keep) == (t in KeptFrom(g, e, s)) {
    }
  }

  method DropRedundant(g: Dag, e: Dag, rows: seq<set<nat>>) returns (kept: Dag, removed: nat)
    requires Forward(e) && SubDag(g, e)
    requires IsReachTable(e, rows)
    ensures kept == Reduced(g, e)
    ensures EdgeCount(kept) + removed == EdgeCount(g)
  {
    kept := [];
    removed := 0;
    for s := 0 to |g|
      invariant |kept| == s
      invariant forall i :: 0 <= i < s ==> kept[i] == KeptFrom(g, e, i)
      invariant EdgeCount(kept) + removed == EdgeCount(g[..s])
    {
      var keep, dropped := FilterRow(g, e, rows, s);
      EdgeCountSnoc(kept, keep);
      EdgeCountSnoc(g[..s], g[s]);
      assert g[..s + 1] == g[..s] + [g[s]];
      kept := kept + [keep];
      removed := removed + dropped;
    }
    assert g[..|g|] == g;
  }

  /** The reduction: rows of reachability are filled from the last task to the first,
      then every edge with an alternative is dropped. A graph with a non-forward edge
      is handed back unchanged. */
  method ReduceTransitive(g: Dag, owner: seq<nat>, chains: bool) returns (kept: Dag, removed: nat)
    requires |owner| == |g|
    ensures var e := Effective(g, owner, chains);
            if Forward(e) && |g| > 1 then SubDag(g, e) && kept == Reduced(g, e) else kept == g && removed == 0
    ensures EdgeCount(kept) + removed == EdgeCount(g)
  {
    if |g| <= 1 {
      return g, 0;
    }
    var e := BuildEffective(g, owner, chains);
    var forwardOnly := AllForward(e);
    if !forwardOnly {
      return g, 0;
    }
    var rows := ReachableRows(e);
    kept, removed := DropRedundant(g, e, rows);
  }
}
