/** The execution plan of the dense executor and what makes it sound
    (src/cppEmitterDenseExec.cpp, prologue of genDenseExecutor). */
module DensePlan {
  import opened DenseDag
  import opened DenseLayout

  /** Everything a worker reads while it runs a pooled cycle. `window` is the number of
      entries beyond the head that a stalled worker may run out of order. */
  datatype Plan = Plan(owner: seq<nat>, tables: seq<seq<nat>>, pos: seq<nat>,
                       groups: seq<Group>, slots: seq<nat>, slotCount: nat,
                       waits: seq<seq<nat>>, stores: seq<seq<nat>>,
                       local: seq<set<nat>>, window: nat)

  ghost predicate PlanOk(p: Plan) {
    && TablesOk(p.owner, |p.tables|, p.tables, p.pos)
    && PlanGroupsOk(p)
    && |p.slots| == |p.groups|
    && (forall g, h :: 0 <= g < h < |p.slots| ==> p.slots[g] != p.slots[h])
    && (forall g :: 0 <= g < |p.slots| ==> p.slots[g] < p.slotCount)
    && LinksOk(p.groups, p.slots, |p.groups|, |p.owner|, p.waits, p.stores)
    && |p.local| == |p.owner|
    && (forall t: nat, q :: t < |p.owner| && q in p.local[t] ==> q < p.pos[t])
    && (forall g, s :: 0 <= g < |p.groups| && s in p.groups[g].sources && s != p.groups[g].Publisher() ==>
          p.pos[s] in p.local[p.groups[g].Publisher()])
  }

  ghost predicate PlanGroupsOk(p: Plan) {
    forall g :: 0 <= g < |p.groups| ==>
      && |p.groups[g].sources| > 0 && Ascending(p.groups[g].sources) && p.groups[g].dest < |p.owner|
      && p.groups[g].producer != p.owner[p.groups[g].dest]
      && p.groups[g].Publisher() < p.groups[g].dest
      && forall s :: s in p.groups[g].sources ==> s < p.groups[g].dest && p.owner[s] == p.groups[g].producer
  }

  /** The plan makes t wait for s itself: through a token, or through a local prerequisite. */
  ghost predicate Enforces(p: Plan, s: nat, t: nat)
    requires PlanOk(p)
  {
    && s < |p.owner| && t < |p.owner|
    && ((exists g :: 0 <= g < |p.groups| && p.groups[g].dest == t && s in p.groups[g].sources)
        || (p.owner[s] == p.owner[t] && p.pos[s] in p.local[t]))
  }

  ghost function Enforced(p: Plan): (e: Dag)
    requires PlanOk(p)
    ensures |e| == |p.owner| && forall s: nat, t: nat :: s < |e| ==> (t in e[s] <==> Enforces(p, s, t))
    ensures Forward(e)
  {
    var e := seq(|p.owner|, s requires 0 <= s < |p.owner| => set t | 0 <= t < |p.owner| && Enforces(p, s, t));
    assert Forward(e) by {
      forall s, t | 0 <= s < |e| && t in e[s] ensures s < t < |e| {
        assert Enforces(p, s, t);
        if p.owner[s] == p.owner[t] && p.pos[s] in p.local[t] {
          TableOrder(p.owner, |p.tables|, p.tables, p.pos, s, t);
        }
      }
    }
    e
  }

  // ----- exactly which waits

  ghost predicate TokenFor(p: Plan, s: nat, t: nat) {
    exists g :: 0 <= g < |p.groups| && p.groups[g].dest == t && s in p.groups[g].sources
  }

  /** An edge of e that is a candidate in dag and has no other path. */
  ghost predicate Essential(dag: Dag, e: Dag, s: nat, t: nat)
    requires Forward(e) && |dag| == |e|
  {
    s < |dag| && t in dag[s] && !Redundant(e, s, t)
  }

  /** s and t feed one task of another worker, and t is the last of their worker to do so. */
  ghost predicate LastFor(dag: Dag, owner: seq<nat>, s: nat, t: nat, d: nat)
    requires Forward(dag) && |dag| == |owner|
  {
    && d < |dag| && Essential(dag, dag, s, d) && Essential(dag, dag, t, d)
    && s != t && owner[s] == owner[t] && owner[d] != owner[t]
    && forall u: nat :: Essential(dag, dag, u, d) && owner[u] == owner[t] ==> u <= t
  }

  /** One token for each destination and producing worker, in that order. */
  ghost predicate OneTokenEach(p: Plan) {
    forall g, h :: 0 <= g < h < |p.groups| ==> KeyBefore(p.groups[g], p.groups[h])
  }

  /** Tokens carry exactly the cross-worker edges without another path, and a task waits on its
      own worker exactly for the sources of such edges and for those it publishes for. */
  ghost predicate LookaheadWaits(p: Plan, dag: Dag)
    requires Forward(dag) && |dag| == |p.owner| == |p.pos| == |p.local|
  {
    && OneTokenEach(p)
    && (forall s: nat, t: nat :: s < |dag| && t < |dag| ==>
          (TokenFor(p, s, t) <==> Essential(dag, dag, s, t) && p.owner[s] != p.owner[t]))
    && (forall s: nat, t: nat :: s < |dag| && t < |dag| && p.owner[s] == p.owner[t] ==>
          (p.pos[s] in p.local[t] <==> Essential(dag, dag, s, t) || exists d: nat :: LastFor(dag, p.owner, s, t, d)))
  }

  /** Tokens carry exactly the cross-worker edges that neither the other ones nor the order of
      the tables carry, and a task waits for everything before it in its table. */
  ghost predicate StrictWaits(p: Plan, dag: Dag)
    requires Forward(dag) && |dag| == |p.owner| == |p.pos| == |p.local|
  {
    var cross := SplitCross(dag, p.owner);
    var e := Effective(cross, p.owner, true);
    && OneTokenEach(p) && Forward(e) && |e| == |cross|
    && (forall s: nat, t: nat :: s < |dag| && t < |dag| ==> (TokenFor(p, s, t) <==> Essential(cross, e, s, t)))
    && (forall t: nat, q: nat :: t < |dag| ==> (q in p.local[t] <==> q < p.pos[t]))
  }

  lemma TokenIffEdge(p: Plan, edges: Dag, s: nat, t: nat)
    requires CrossWorker(edges, p.owner) && GroupsOk(edges, p.owner, p.groups) && s < |edges|
    ensures TokenFor(p, s, t) <==> t in edges[s]
  {
    if t in edges[s] {
      var g :| 0 <= g < |p.groups| && p.groups[g].dest == t && p.groups[g].producer == p.owner[s];
      assert GroupOk(edges, p.owner, p.groups[g]);
    }
    if TokenFor(p, s, t) {
      var g :| 0 <= g < |p.groups| && p.groups[g].dest == t && s in p.groups[g].sources;
      assert GroupOk(edges, p.owner, p.groups[g]);
    }
  }

  lemma LookaheadTokens(p: Plan, dag: Dag, kept: Dag, s: nat, t: nat)
    requires Forward(dag) && |dag| == |p.owner| && SubDag(dag, dag) && kept == Reduced(dag, dag) && s < |dag|
             && t < |dag|
    requires CrossWorker(SplitCross(kept, p.owner), p.owner) && GroupsOk(SplitCross(kept, p.owner), p.owner, p.groups)
    ensures TokenFor(p, s, t) <==> Essential(dag, dag, s, t) && p.owner[s] != p.owner[t]
  {
    TokenIffEdge(p, SplitCross(kept, p.owner), s, t);
    assert kept[s] == KeptFrom(dag, dag, s);
  }

  /** t publishes for s exactly when they feed one task, t last. */
  lemma PublishesIff(p: Plan, dag: Dag, kept: Dag, s: nat, t: nat)
    requires Forward(dag) && |dag| == |p.owner| && SubDag(dag, dag) && kept == Reduced(dag, dag) && s < |dag|
             && t < |dag|
    requires PlanGroupsOk(p) && s != t && p.owner[s] == p.owner[t]
    requires CrossWorker(SplitCross(kept, p.owner), p.owner) && GroupsOk(SplitCross(kept, p.owner), p.owner, p.groups)
    ensures (exists g :: 0 <= g < |p.groups| && p.groups[g].Publisher() == t && s in p.groups[g].sources)
            <==> exists d: nat :: LastFor(dag, p.owner, s, t, d)
  {
    if g :| 0 <= g < |p.groups| && p.groups[g].Publisher() == t && s in p.groups[g].sources {
      PublisherCloses(p, dag, kept, s, t, g);
    }
    if d: nat :| LastFor(dag, p.owner, s, t, d) {
      CloserPublishes(p, dag, kept, s, t, d);
    }
  }

  lemma PublisherCloses(p: Plan, dag: Dag, kept: Dag, s: nat, t: nat, g: nat)
    requires Forward(dag) && |dag| == |p.owner| && SubDag(dag, dag) && kept == Reduced(dag, dag) && s < |dag|
             && t < |dag|
    requires PlanGroupsOk(p) && s != t && p.owner[s] == p.owner[t]
    requires CrossWorker(SplitCross(kept, p.owner), p.owner) && GroupsOk(SplitCross(kept, p.owner), p.owner, p.groups)
    requires g < |p.groups| && p.groups[g].Publisher() == t && s in p.groups[g].sources
    ensures LastFor(dag, p.owner, s, t, p.groups[g].dest)
  {
    var d := p.groups[g].dest;
    assert GroupOk(SplitCross(kept, p.owner), p.owner, p.groups[g]);
    PublisherIsLast(p, g, s);
    LookaheadTokens(p, dag, kept, s, d);
    LookaheadTokens(p, dag, kept, t, d);
    forall u: nat | Essential(dag, dag, u, d) && p.owner[u] == p.owner[t] ensures u <= t {
      assert kept[u] == KeptFrom(dag, dag, u);
      PublisherIsLast(p, g, u);
    }
  }

  lemma CloserPublishes(p: Plan, dag: Dag, kept: Dag, s: nat, t: nat, d: nat)
    requires Forward(dag) && |dag| == |p.owner| && SubDag(dag, dag) && kept == Reduced(dag, dag) && s < |dag|
             && t < |dag|
    requires PlanGroupsOk(p) && LastFor(dag, p.owner, s, t, d)
    requires CrossWorker(SplitCross(kept, p.owner), p.owner) && GroupsOk(SplitCross(kept, p.owner), p.owner, p.groups)
    ensures exists g :: 0 <= g < |p.groups| && p.groups[g].Publisher() == t && s in p.groups[g].sources
  {
    assert kept[s] == KeptFrom(dag, dag, s) && kept[t] == KeptFrom(dag, dag, t);
    assert d in SplitCross(kept, p.owner)[t] && d in SplitCross(kept, p.owner)[s];
    var g :| 0 <= g < |p.groups| && p.groups[g].dest == d && p.groups[g].producer == p.owner[t];
    assert GroupOk(SplitCross(kept, p.owner), p.owner, p.groups[g]);
    assert s in p.groups[g].sources && t in p.groups[g].sources;
    PublisherIsLast(p, g, t);
    var last := p.groups[g].Publisher();
    assert kept[last] == KeptFrom(dag, dag, last);
  }

  lemma LocalIff(p: Plan, dag: Dag, kept: Dag, direct: seq<set<nat>>, s: nat, t: nat)
    requires Forward(dag) && |dag| == |p.owner| && SubDag(dag, dag) && kept == Reduced(dag, dag) && Forward(kept)
    requires TablesOk(p.owner, |p.tables|, p.tables, p.pos) && PlanGroupsOk(p) && s < |dag| && t < |dag|
    requires CrossWorker(SplitCross(kept, p.owner), p.owner) && GroupsOk(SplitCross(kept, p.owner), p.owner, p.groups)
    requires DirectOk(kept, p.owner, p.pos, |kept|, direct) && p.owner[s] == p.owner[t]
    requires forall g, s :: 0 <= g < |p.groups| && s in p.groups[g].sources ==> s < |p.pos|
    requires SiblingsOk(p.groups, p.pos, |p.groups|, direct, p.local)
    ensures p.pos[s] in p.local[t] <==> Essential(dag, dag, s, t) || exists d: nat :: LastFor(dag, p.owner, s, t, d)
  {
    assert kept[s] == KeptFrom(dag, dag, s);
    forall u | 0 <= u < |dag| && p.owner[u] == p.owner[t] && p.pos[u] == p.pos[s] ensures u == s {
      TableOrder(p.owner, |p.tables|, p.tables, p.pos, u, s);
      TableOrder(p.owner, |p.tables|, p.tables, p.pos, s, u);
    }
    assert p.pos[s] in direct[t] <==> t in kept[s];
    if s != t {
      PublishesIff(p, dag, kept, s, t);
    }
    SiblingIff(p, s, t);
  }

  /** Positions name tasks. */
  lemma SiblingIff(p: Plan, s: nat, t: nat)
    requires TablesOk(p.owner, |p.tables|, p.tables, p.pos) && PlanGroupsOk(p)
    requires s < |p.owner| && t < |p.owner| && p.owner[s] == p.owner[t]
    ensures (exists g, u :: 0 <= g < |p.groups| && p.groups[g].Publisher() == t && u in p.groups[g].sources && u != t
                            && u < |p.pos| && p.pos[u] == p.pos[s])
            <==> s != t && exists g :: 0 <= g < |p.groups| && p.groups[g].Publisher() == t && s in p.groups[g].sources
  {
    var gs, q := p.groups, p.pos[s];
    if g, u :| 0 <= g < |gs| && gs[g].Publisher() == t && u in gs[g].sources && u != t && u < |p.pos| && p.pos[u] == q {
      PublisherIsLast(p, g, u);
      TableOrder(p.owner, |p.tables|, p.tables, p.pos, u, s);
      TableOrder(p.owner, |p.tables|, p.tables, p.pos, s, u);
      assert u == s;
    }
  }

  /** Every edge of the task graph is carried by waits of the plan. */
  ghost predicate Covers(p: Plan, dag: Dag)
    requires PlanOk(p)
  {
    |dag| == |p.owner| && forall s, t :: 0 <= s < |dag| && t in dag[s] ==> Reach(Enforced(p), s, t)
  }

  lemma {:induction false} CoversReach(p: Plan, dag: Dag, s: nat, t: nat)
    requires PlanOk(p) && Covers(p, dag) && Forward(dag) && Reach(dag, s, t)
    ensures Reach(Enforced(p), s, t)
    decreases |dag| - s
  {
    if t !in dag[s] {
      var m :| m in dag[s] && Reach(dag, m, t);
      CoversReach(p, dag, m, t);
      ReachTrans(Enforced(p), s, m, t);
    }
  }

  // ----- building the plan

  function SplitCross(g: Dag, owner: seq<nat>): (c: Dag)
    requires |g| == |owner|
    ensures |c| == |g| && forall s, t :: 0 <= s < |g| ==>
              (t in c[s] <==> t in g[s] && !(t < |g| && owner[s] == owner[t]))
  {
    seq(|g|, s requires 0 <= s < |g| => set t | t in g[s] && !(t < |g| && owner[s] == owner[t]))
  }

  /** Tables, groups, slots and links from the cross-worker edges that get a token. */
  method BuildTokens(edges: Dag, owner: seq<nat>, threads: nat) returns (p: Plan)
    requires CrossWorker(edges, owner) && forall t :: 0 <= t < |owner| ==> owner[t] < threads
    ensures p.owner == owner && |p.tables| == threads && |p.local| == |owner|
    ensures TablesOk(p.owner, |p.tables|, p.tables, p.pos) && GroupsOk(edges, owner, p.groups) && PlanGroupsOk(p)
    ensures SlotsApart(p.groups, owner, p.slots, p.slotCount) && p.slotCount % 64 == 0
    ensures Placed(p.groups, owner, threads, threads, 0, p.slots)
    ensures LinksOk(p.groups, p.slots, |p.groups|, |owner|, p.waits, p.stores)
  {
    var tables, pos := BuildTables(owner, threads);
    var groups := BuildGroups(edges, owner, threads);
    forall g | 0 <= g < |groups|
      ensures groups[g].producer < threads && groups[g].Publisher() < groups[g].dest
              && groups[g].producer != owner[groups[g].dest]
      ensures forall s :: s in groups[g].sources ==> s < groups[g].dest && owner[s] == groups[g].producer
    {
      assert GroupOk(edges, owner, groups[g]);
      assert groups[g].Publisher() in groups[g].sources;
    }
    var slots, count := AssignSlots(groups, owner, threads);
    var waits, stores := BuildLinks(groups, slots, |owner|);
    p := Plan(owner, tables, pos, groups, slots, count, waits, stores, seq(|owner|, _ => {}), 0);
  }

  lemma TinyReduced(g: Dag, e: Dag)
    requires Forward(e) && SubDag(g, e) && |g| <= 1
    ensures Reduced(g, e) == g
  {
    forall s | 0 <= s < |g| ensures g[s] == KeptFrom(g, e, s) {
      assert g[s] <= e[s];
    }
  }

  function Below(n: nat): (r: set<nat>)
    ensures forall q: nat :: q in r <==> q < n
  {
    if n == 0 then {} else Below(n - 1) + {n - 1}
  }

  lemma PublisherIsLast(p: Plan, g: nat, s: nat)
    requires PlanGroupsOk(p) && g < |p.groups| && s in p.groups[g].sources
    ensures s <= p.groups[g].Publisher() && p.groups[g].Publisher() in p.groups[g].sources
  {
    var sources := p.groups[g].sources;
    assert Ascending(sources);
  }

  method ReduceDag(dag: Dag, owner: seq<nat>) returns (kept: Dag)
    requires Forward(dag) && |dag| == |owner|
    ensures SubDag(dag, dag) && kept == Reduced(dag, dag) == Retained(dag, dag) && |kept| == |dag| && Forward(kept)
  {
    var removed;
    kept, removed := ReduceTransitive(dag, owner, false);
    assert Effective(dag, owner, false) == dag && SubDag(dag, dag);
    if |dag| <= 1 {
      TinyReduced(dag, dag);
    }
    RetainedShape(dag, dag);
    SelfRetained(dag);
  }

  lemma SelfRetained(dag: Dag)
    requires Forward(dag) && SubDag(dag, dag)
    ensures Retained(dag, dag) == Reduced(dag, dag)
  {
    forall s | 0 <= s < |dag| ensures Retained(dag, dag)[s] == Reduced(dag, dag)[s] {
      assert dag[s] - dag[s] == {};
    }
  }

  method ReduceCross(cross: Dag, owner: seq<nat>) returns (kept: Dag)
    requires Forward(cross) && |cross| == |owner|
    ensures var e := Effective(cross, owner, true);
            Forward(e) && SubDag(cross, e) && kept == Reduced(cross, e) && SubDag(kept, cross)
    ensures Forward(kept)
  {
    var removed;
    kept, removed := ReduceTransitive(cross, owner, true);
    ghost var e := Effective(cross, owner, true);
    assert SubDag(cross, e) && Forward(e);
    if |cross| <= 1 {
      TinyReduced(cross, e);
    }
    RetainedShape(cross, e);
    assert forall s :: 0 <= s < |cross| ==> kept[s] == KeptFrom(cross, e, s);
  }

  /** The lookahead plan: tokens for the cross-worker edges of the reduced graph, positions
      of same-worker predecessors and of publisher siblings as local prerequisites. */
  method BuildLookahead(dag: Dag, owner: seq<nat>, threads: nat, window: nat) returns (p: Plan)
    requires Forward(dag) && |dag| == |owner| && forall t :: 0 <= t < |owner| ==> owner[t] < threads
    ensures PlanOk(p) && p.owner == owner && |p.tables| == threads && p.window == window
    ensures Covers(p, dag) && LookaheadWaits(p, dag)
    ensures SlotsApart(p.groups, owner, p.slots, p.slotCount) && p.slotCount % 64 == 0
    ensures Placed(p.groups, owner, threads, threads, 0, p.slots)
  {
    var kept := ReduceDag(dag, owner);
    var base := BuildTokens(SplitCross(kept, owner), owner, threads);
    var direct := BuildDirect(kept, owner, base.pos);
    forall g, s | 0 <= g < |base.groups| && s in base.groups[g].sources ensures s < |owner| {
      PublisherIsLast(base, g, s);
    }
    var local := AddSiblings(base.groups, base.pos, direct);
    p := base.(local := local, window := window);
    LookaheadOk(dag, kept, direct, p);
    LookaheadExact(dag, kept, direct, p);
  }

  lemma LookaheadExact(dag: Dag, kept: Dag, direct: seq<set<nat>>, p: Plan)
    requires Forward(dag) && |dag| == |p.owner| == |kept| && Forward(kept) && SubDag(dag, dag)
    requires kept == Reduced(dag, dag)
    requires TablesOk(p.owner, |p.tables|, p.tables, p.pos) && PlanGroupsOk(p)
    requires CrossWorker(SplitCross(kept, p.owner), p.owner) && GroupsOk(SplitCross(kept, p.owner), p.owner, p.groups)
    requires DirectOk(kept, p.owner, p.pos, |kept|, direct)
    requires forall g, s :: 0 <= g < |p.groups| && s in p.groups[g].sources ==> s < |p.pos|
    requires SiblingsOk(p.groups, p.pos, |p.groups|, direct, p.local)
    ensures |p.pos| == |p.local| == |dag| && LookaheadWaits(p, dag)
  {
    forall s: nat, t: nat | s < |dag| && t < |dag|
      ensures TokenFor(p, s, t) <==> Essential(dag, dag, s, t) && p.owner[s] != p.owner[t]
    {
      LookaheadTokens(p, dag, kept, s, t);
    }
    forall s: nat, t: nat | s < |dag| && t < |dag| && p.owner[s] == p.owner[t]
      ensures p.pos[s] in p.local[t] <==> Essential(dag, dag, s, t) || exists d: nat :: LastFor(dag, p.owner, s, t, d)
    {
      LocalIff(p, dag, kept, direct, s, t);
    }
  }

  lemma LookaheadOk(dag: Dag, kept: Dag, direct: seq<set<nat>>, p: Plan)
    requires Forward(dag) && |dag| == |p.owner| == |kept| && Forward(kept) && SubDag(dag, dag)
    requires kept == Reduced(dag, dag) == Retained(dag, dag)
    requires TablesOk(p.owner, |p.tables|, p.tables, p.pos) && PlanGroupsOk(p)
    requires CrossWorker(SplitCross(kept, p.owner), p.owner) && GroupsOk(SplitCross(kept, p.owner), p.owner, p.groups)
    requires SlotsApart(p.groups, p.owner, p.slots, p.slotCount)
    requires LinksOk(p.groups, p.slots, |p.groups|, |p.owner|, p.waits, p.stores)
    requires DirectOk(kept, p.owner, p.pos, |kept|, direct)
    requires forall g, s :: 0 <= g < |p.groups| && s in p.groups[g].sources ==> s < |p.pos|
    requires SiblingsOk(p.groups, p.pos, |p.groups|, direct, p.local)
    ensures PlanOk(p) && Covers(p, dag)
  {
    LookaheadLocalOk(kept, direct, p);
    assert PlanOk(p);
    var enf := Enforced(p);
    forall s | 0 <= s < |kept| ensures kept[s] <= enf[s] {
      forall t | t in kept[s] ensures t in enf[s] {
        KeptIsEnforced(kept, direct, p, s, t);
      }
    }
    forall s, t | 0 <= s < |dag| && t in dag[s] ensures Reach(enf, s, t) {
      ReductionKeepsReach(dag, dag, s, t);
      ReachMono(kept, enf, s, t);
    }
  }

  lemma LookaheadLocalOk(kept: Dag, direct: seq<set<nat>>, p: Plan)
    requires |p.owner| == |kept| && Forward(kept)
    requires TablesOk(p.owner, |p.tables|, p.tables, p.pos) && PlanGroupsOk(p)
    requires DirectOk(kept, p.owner, p.pos, |kept|, direct)
    requires forall g, s :: 0 <= g < |p.groups| && s in p.groups[g].sources ==> s < |p.pos|
    requires SiblingsOk(p.groups, p.pos, |p.groups|, direct, p.local)
    ensures forall t: nat, q :: t < |p.owner| && q in p.local[t] ==> q < p.pos[t]
    ensures forall g, s :: 0 <= g < |p.groups| && s in p.groups[g].sources && s != p.groups[g].Publisher() ==>
              p.pos[s] in p.local[p.groups[g].Publisher()]
  {
    forall t: nat, q | t < |p.owner| && q in p.local[t] ensures q < p.pos[t] {
      if q in direct[t] {
        var s :| 0 <= s < |kept| && t in kept[s] && p.owner[s] == p.owner[t] && p.pos[s] == q;
        TableOrder(p.owner, |p.tables|, p.tables, p.pos, s, t);
      } else {
        var g, s :| 0 <= g < |p.groups| && p.groups[g].Publisher() == t && s in p.groups[g].sources && s != t
          && p.pos[s] == q;
        PublisherIsLast(p, g, s);
        TableOrder(p.owner, |p.tables|, p.tables, p.pos, s, t);
      }
    }
  }

  lemma KeptIsEnforced(kept: Dag, direct: seq<set<nat>>, p: Plan, s: nat, t: nat)
    requires PlanOk(p) && |kept| == |p.owner| && Forward(kept) && s < |kept| && t in kept[s]
    requires GroupsOk(SplitCross(kept, p.owner), p.owner, p.groups)
    requires DirectOk(kept, p.owner, p.pos, |kept|, direct) && SiblingsOk(p.groups, p.pos, |p.groups|, direct, p.local)
    ensures Enforces(p, s, t)
  {
    if p.owner[s] != p.owner[t] {
      var cross := SplitCross(kept, p.owner);
      assert t in cross[s];
      var g :| 0 <= g < |p.groups| && p.groups[g].dest == t && p.groups[g].producer == p.owner[s];
      assert GroupOk(cross, p.owner, p.groups[g]);
      assert s in p.groups[g].sources;
    }
  }

  /** The strict plan: a worker never leaves table order, so tokens are only needed for
      cross-worker edges that the worker chains do not already carry. */
  method BuildStrict(dag: Dag, owner: seq<nat>, threads: nat) returns (p: Plan)
    requires Forward(dag) && |dag| == |owner| && forall t :: 0 <= t < |owner| ==> owner[t] < threads
    ensures PlanOk(p) && p.owner == owner && |p.tables| == threads && p.window == 0
    ensures Covers(p, dag) && StrictWaits(p, dag)
    ensures SlotsApart(p.groups, owner, p.slots, p.slotCount) && p.slotCount % 64 == 0
    ensures Placed(p.groups, owner, threads, threads, 0, p.slots)
  {
    var cross := SplitCross(dag, owner);
    assert Forward(cross);
    var kept := ReduceCross(cross, owner);
    var base := BuildTokens(kept, owner, threads);
    p := base.(local := seq(|owner|, t requires 0 <= t < |owner| && |base.pos| == |owner| => Below(base.pos[t])),
               window := 0);
    StrictOk(dag, kept, p);
    ghost var e := Effective(cross, owner, true);
    forall s: nat, t: nat | s < |dag| && t < |dag| ensures TokenFor(p, s, t) <==> Essential(cross, e, s, t) {
      TokenIffEdge(p, kept, s, t);
      assert kept[s] == KeptFrom(cross, e, s);
    }
  }

  lemma StrictOk(dag: Dag, kept: Dag, p: Plan)
    requires Forward(dag) && |dag| == |p.owner| == |kept|
    requires var cross := SplitCross(dag, p.owner);
             var e := Effective(cross, p.owner, true);
             Forward(e) && SubDag(cross, e) && kept == Reduced(cross, e)
    requires TablesOk(p.owner, |p.tables|, p.tables, p.pos) && PlanGroupsOk(p)
    requires CrossWorker(kept, p.owner) && GroupsOk(kept, p.owner, p.groups)
    requires SlotsApart(p.groups, p.owner, p.slots, p.slotCount)
    requires LinksOk(p.groups, p.slots, |p.groups|, |p.owner|, p.waits, p.stores)
    requires |p.local| == |p.owner| && forall t: nat, q: nat :: t < |p.owner| ==> (q in p.local[t] <==> q < p.pos[t])
    ensures PlanOk(p) && Covers(p, dag)
  {
    var cross := SplitCross(dag, p.owner);
    var e := Effective(cross, p.owner, true);
    forall g, s | 0 <= g < |p.groups| && s in p.groups[g].sources && s != p.groups[g].Publisher()
      ensures p.pos[s] in p.local[p.groups[g].Publisher()]
    {
      PublisherIsLast(p, g, s);
      TableOrder(p.owner, |p.tables|, p.tables, p.pos, s, p.groups[g].Publisher());
    }
    assert PlanOk(p);
    var enf := Enforced(p);
    RetainedShape(cross, e);
    var r := Retained(cross, e);
    forall s | 0 <= s < |r| ensures r[s] <= enf[s] {
      forall t | t in r[s] ensures t in enf[s] {
        RetainedIsEnforced(cross, kept, p, s, t);
      }
    }
    forall s, t | 0 <= s < |dag| && t in dag[s] ensures Reach(enf, s, t) {
      if p.owner[s] == p.owner[t] {
        TableOrder(p.owner, |p.tables|, p.tables, p.pos, s, t);
        assert Enforces(p, s, t);
      } else {
        assert t in cross[s] && t in e[s];
        ReductionKeepsReach(cross, e, s, t);
        ReachMono(r, enf, s, t);
      }
    }
  }

  lemma RetainedIsEnforced(cross: Dag, kept: Dag, p: Plan, s: nat, t: nat)
    requires PlanOk(p) && |cross| == |kept| == |p.owner|
    requires var e := Effective(cross, p.owner, true);
             Forward(e) && SubDag(cross, e) && kept == Reduced(cross, e) && s < |cross| && t in Retained(cross, e)[s]
    requires GroupsOk(kept, p.owner, p.groups)
    requires forall t: nat, q: nat :: t < |p.owner| ==> (q in p.local[t] <==> q < p.pos[t])
    ensures Enforces(p, s, t)
  {
    var e := Effective(cross, p.owner, true);
    assert Retained(cross, e)[s] == (e[s] - cross[s]) + KeptFrom(cross, e, s);
    if t in KeptFrom(cross, e, s) {
      assert t in kept[s];
      var g :| 0 <= g < |p.groups| && p.groups[g].dest == t && p.groups[g].producer == p.owner[s];
      assert GroupOk(kept, p.owner, p.groups[g]);
      assert s in p.groups[g].sources;
    } else {
      assert NextOnWorker(p.owner, s, t);
      TableOrder(p.owner, |p.tables|, p.tables, p.pos, s, t);
    }
  }
}
