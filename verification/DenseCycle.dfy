/** Whole pooled cycles of the dense executor: safety, equality with the serial fallback,
    absence of deadlock and bounded work, for every interleaving. */
module DenseCycle {
  import opened DenseDag
  import opened DenseLayout
  import opened DensePlan
  import opened DenseTask
  import opened DenseProtocol

  /** Every live token holds `value`. */
  ghost predicate LiveTokens(p: Plan, tokens: seq<bool>, value: bool)
    requires PlanOk(p)
  {
    |tokens| == p.slotCount && forall g :: 0 <= g < |p.groups| ==> tokens[p.slots[g]] == value
  }

  /** The state in which a pooled cycle is posted to the workers. */
  function InitSys(p: Plan, store0: Store, tokens: seq<bool>): Sys {
    Sys(store0, tokens, seq(|p.tables|, _ => Worker(0, {}, Scan)), [])
  }

  lemma InitInv(p: Plan, tasks: seq<Task>, target: bool, store0: Store, tokens: seq<bool>)
    requires PlanOk(p) && |tasks| == |p.owner| && LiveTokens(p, tokens, !target)
    ensures Inv(p, tasks, target, store0, InitSys(p, store0, tokens))
  {
    var s := InitSys(p, store0, tokens);
    assert forall w :: 0 <= w < |s.workers| ==> WorkerShape(p, w, s.workers[w]);
    forall g | 0 <= g < |p.groups| ensures !Published(p, s, g) {
      assert s.workers[p.owner[p.groups[g].Publisher()]] == Worker(0, {}, Scan);
    }
  }

  // ----- runs

  ghost predicate Runs(p: Plan, tasks: seq<Task>, target: bool, s: Sys, acts: seq<Action>)
    requires PlanOk(p) && Shape(p, s) && |tasks| == |p.owner|
    decreases |acts|
  {
    acts == [] ||
    (Enabled(p, target, s, acts[0])
     && (ShapeStep(p, tasks, target, s, acts[0]);
         Runs(p, tasks, target, Apply(p, tasks, target, s, acts[0]), acts[1..])))
  }

  ghost function After(p: Plan, tasks: seq<Task>, target: bool, s: Sys, acts: seq<Action>): Sys
    requires PlanOk(p) && Shape(p, s) && |tasks| == |p.owner| && Runs(p, tasks, target, s, acts)
    decreases |acts|
  {
    if acts == [] then s
    else
      ShapeStep(p, tasks, target, s, acts[0]);
      After(p, tasks, target, Apply(p, tasks, target, s, acts[0]), acts[1..])
  }

  /** Every reachable state satisfies the invariant. */
  lemma {:induction false} InvRun(p: Plan, tasks: seq<Task>, target: bool, store0: Store, s: Sys, acts: seq<Action>)
    requires Inv(p, tasks, target, store0, s) && Runs(p, tasks, target, s, acts)
    ensures Inv(p, tasks, target, store0, After(p, tasks, target, s, acts))
    decreases |acts|
  {
    if acts != [] {
      InvStep(p, tasks, target, store0, s, acts[0]);
      InvRun(p, tasks, target, store0, Apply(p, tasks, target, s, acts[0]), acts[1..]);
    }
  }

  lemma {:induction false} RunsConcat(p: Plan, tasks: seq<Task>, target: bool, s: Sys, a: seq<Action>, b: seq<Action>)
    requires PlanOk(p) && Shape(p, s) && |tasks| == |p.owner| && Runs(p, tasks, target, s, a)
    requires Shape(p, After(p, tasks, target, s, a)) && Runs(p, tasks, target, After(p, tasks, target, s, a), b)
    ensures Runs(p, tasks, target, s, a + b)
    ensures After(p, tasks, target, s, a + b) == After(p, tasks, target, After(p, tasks, target, s, a), b)
    decreases |a|
  {
    if a == [] {
      assert a + b == b;
    } else {
      assert (a + b)[0] == a[0] && (a + b)[1..] == a[1..] + b;
      ShapeStep(p, tasks, target, s, a[0]);
      RunsConcat(p, tasks, target, Apply(p, tasks, target, s, a[0]), a[1..], b);
    }
  }

  // ----- safety

  lemma {:induction false} LogClosed(p: Plan, log: seq<nat>, i: nat, s: nat)
    requires PlanOk(p) && LogOk(p, log) && i < |log| && Reach(Enforced(p), s, log[i])
    ensures s in log[..i]
    decreases |p.owner| - s
  {
    var e := Enforced(p);
    if log[i] in e[s] {
      assert Enforces(p, s, log[i]);
    } else {
      var m :| m in e[s] && Reach(e, m, log[i]);
      ReachForward(e, m, log[i]);
      LogClosed(p, log, i, m);
      var j :| 0 <= j < i && log[j] == m;
      assert Enforces(p, s, log[j]);
      assert s in log[..j];
    }
  }

  /** When a body starts, every ancestor in the unreduced task graph has ended in this
      cycle, and the task itself has not run yet. */
  lemma StartsAfterAncestors(p: Plan, dag: Dag, tasks: seq<Task>, target: bool, store0: Store, s: Sys,
                             acts: seq<Action>, w: nat)
    requires Inv(p, tasks, target, store0, s) && Forward(dag) && Covers(p, dag) && Runs(p, tasks, target, s, acts)
    requires var s2 := After(p, tasks, target, s, acts); w < |s2.workers| && s2.workers[w].pc.Busy?
    ensures Shape(p, After(p, tasks, target, s, acts))
    ensures var s2 := After(p, tasks, target, s, acts);
            var t := Current(p, s2, w);
            t !in s2.log && forall u: nat :: Reach(dag, u, t) ==> u in s2.log
  {
    InvRun(p, tasks, target, store0, s, acts);
    var s2 := After(p, tasks, target, s, acts);
    BusyIsReady(p, dag, tasks, target, store0, s2, w);
  }

  lemma BusyIsReady(p: Plan, dag: Dag, tasks: seq<Task>, target: bool, store0: Store, s: Sys, w: nat)
    requires Inv(p, tasks, target, store0, s) && Forward(dag) && Covers(p, dag)
    requires w < |s.workers| && s.workers[w].pc.Busy?
    ensures Current(p, s, w) !in s.log && forall u: nat :: Reach(dag, u, Current(p, s, w)) ==> u in s.log
  {
    var t := Current(p, s, w);
    assert WorkerLogged(p, s, w);
    BodyLog(p, tasks, target, store0, s, w);
    var log := s.log + [t];
    forall u: nat | Reach(dag, u, t) ensures u in s.log {
      CoversReach(p, dag, u, t);
      LogClosed(p, log, |s.log|, u);
      assert log[..|s.log|] == s.log;
    }
  }

  /** Two tasks that conflict are ordered by the task graph. */
  ghost predicate ConflictsOrdered(dag: Dag, tasks: seq<Task>)
    requires Forward(dag)
  {
    |dag| == |tasks| && forall s, t :: 0 <= s < t < |tasks| && !Independent(tasks[s], tasks[t]) ==> Reach(dag, s, t)
  }

  /** Bodies that are inside a worker at the same time never conflict. */
  lemma BusyBodiesDoNotConflict(p: Plan, dag: Dag, tasks: seq<Task>, target: bool, store0: Store, s: Sys, v: nat,
                                w: nat)
    requires Inv(p, tasks, target, store0, s) && Forward(dag) && Covers(p, dag) && ConflictsOrdered(dag, tasks)
    requires v < |s.workers| && w < |s.workers| && v != w && s.workers[v].pc.Busy? && s.workers[w].pc.Busy?
    ensures Independent(tasks[Current(p, s, v)], tasks[Current(p, s, w)])
  {
    var t, u := Current(p, s, v), Current(p, s, w);
    BusyIsReady(p, dag, tasks, target, store0, s, v);
    BusyIsReady(p, dag, tasks, target, store0, s, w);
    assert p.owner[t] == v && p.owner[u] == w;
    assert !Reach(dag, t, u) && !Reach(dag, u, t);
  }

  // ----- the end of a cycle

  ghost predicate Done(p: Plan, s: Sys)
    requires PlanOk(p) && Shape(p, s)
  {
    forall w :: 0 <= w < |s.workers| ==> s.workers[w].pc.Scan? && s.workers[w].head == |p.tables[w]|
  }

  lemma DoneLog(p: Plan, dag: Dag, tasks: seq<Task>, target: bool, store0: Store, s: Sys)
    requires Inv(p, tasks, target, store0, s) && Done(p, s)
    requires Forward(dag) && Covers(p, dag) && ConflictsOrdered(dag, tasks)
    ensures IsPermutation(s.log, |tasks|) && InversionsIndependent(tasks, s.log)
  {
    forall x: nat | x < |tasks| ensures x in s.log {
      assert WorkerLogged(p, s, p.owner[x]);
      assert p.tables[p.owner[x]][p.pos[x]] == x;
    }
    forall i, j | 0 <= i < j < |s.log| && s.log[i] > s.log[j] ensures Independent(tasks[s.log[i]], tasks[s.log[j]]) {
      if Reach(dag, s.log[j], s.log[i]) {
        CoversReach(p, dag, s.log[j], s.log[i]);
        LogClosed(p, s.log, i, s.log[j]);
      }
    }
  }

  /** A pooled cycle, under any interleaving, ends like running tasks 0..n-1 in order, and
      leaves every live token at the target. */
  lemma PooledEqualsSerial(p: Plan, dag: Dag, tasks: seq<Task>, target: bool, store0: Store, tokens: seq<bool>,
                           acts: seq<Action>)
    requires PlanOk(p) && |tasks| == |p.owner| && LiveTokens(p, tokens, !target)
    requires Forward(dag) && Covers(p, dag) && ConflictsOrdered(dag, tasks)
    requires forall i :: 0 <= i < |tasks| ==> TaskOk(tasks[i])
    requires Shape(p, InitSys(p, store0, tokens)) && Runs(p, tasks, target, InitSys(p, store0, tokens), acts)
    requires var s := After(p, tasks, target, InitSys(p, store0, tokens), acts); Shape(p, s) && Done(p, s)
    ensures var s := After(p, tasks, target, InitSys(p, store0, tokens), acts);
            && s.store == Run(tasks, Upto(|tasks|), store0)
            && LiveTokens(p, s.tokens, target)
            && IsPermutation(s.log, |tasks|)
  {
    var s0 := InitSys(p, store0, tokens);
    InitInv(p, tasks, target, store0, tokens);
    InvRun(p, tasks, target, store0, s0, acts);
    var s := After(p, tasks, target, s0, acts);
    DoneLog(p, dag, tasks, target, store0, s);
    SerialEquivalence(tasks, s.log, |tasks|, store0);
    DoneTokens(p, tasks, target, store0, s);
  }

  lemma DoneTokens(p: Plan, tasks: seq<Task>, target: bool, store0: Store, s: Sys)
    requires Inv(p, tasks, target, store0, s) && Done(p, s)
    ensures LiveTokens(p, s.tokens, target)
  {
    forall g | 0 <= g < |p.groups| ensures s.tokens[p.slots[g]] == target {
      var t := p.groups[g].Publisher();
      assert p.pos[t] < |p.tables[p.owner[t]]|;
      assert Published(p, s, g);
    }
  }

  // ----- no deadlock

  /** When no worker is inside a body or a publication, the smallest task that has not run
      is its owner's head and all its tokens are at target. */
  lemma LeastTaskIsRunnable(p: Plan, tasks: seq<Task>, target: bool, store0: Store, s: Sys, u: nat)
    requires Inv(p, tasks, target, store0, s)
    requires forall w :: 0 <= w < |s.workers| ==> s.workers[w].pc.Scan? || s.workers[w].pc.Check?
    requires u < |p.owner| && u !in s.log && forall t: nat :: t < u ==> t in s.log
    ensures s.workers[p.owner[u]].head == p.pos[u]
    ensures forall j :: 0 <= j < |p.waits[u]| ==> p.waits[u][j] < |s.tokens| && s.tokens[p.waits[u][j]] == target
  {
    var w := p.owner[u];
    var wk := s.workers[w];
    assert WorkerLogged(p, s, w) && WorkerShape(p, w, wk);
    assert p.tables[w][p.pos[u]] == u;
    assert !Settled(wk, p.pos[u]);
    forall i | 0 <= i < p.pos[u] ensures Settled(wk, i) {
      assert Ascending(p.tables[w]);
      assert p.tables[w][i] in s.log;
    }
    assert !Settled(wk, wk.head);
    forall j | 0 <= j < |p.waits[u]| ensures p.waits[u][j] < |s.tokens| && s.tokens[p.waits[u][j]] == target {
      var x := p.waits[u][j];
      assert x in p.waits[u];
      var g :| 0 <= g < |p.groups| && p.groups[g].dest == u && p.slots[g] == x;
      var t := p.groups[g].Publisher();
      assert t < u && t in s.log;
      assert WorkerLogged(p, s, p.owner[t]) && p.tables[p.owner[t]][p.pos[t]] == t;
      assert Published(p, s, g);
    }
  }

  function LeastMissing(log: seq<nat>, from: nat, n: nat): (u: nat)
    requires from <= n
    ensures from <= u <= n && (u < n ==> u !in log) && forall t :: from <= t < u ==> t in log
    decreases n - from
  {
    if from == n || from !in log then from else LeastMissing(log, from + 1, n)
  }

  /** What is left to do for one worker before it can look for another task. */
  ghost function PcWeight(p: Plan, s: Sys, w: nat): nat
    requires PlanOk(p) && Shape(p, s) && w < |s.workers|
  {
    var pc := s.workers[w].pc;
    assert WorkerShape(p, w, s.workers[w]);
    match pc
    case Scan => 0
    case Check(pos, k) => 2 + |p.waits[p.tables[w][pos]]| - k
    case Busy(_) => 1
    case Publish(pos, k) => 1 + |p.stores[p.tables[w][pos]]| - k
  }

  ghost function Weight(p: Plan, s: Sys, upTo: nat): nat
    requires PlanOk(p) && Shape(p, s) && upTo <= |s.workers|
  {
    if upTo == 0 then 0 else Weight(p, s, upTo - 1) + PcWeight(p, s, upTo - 1)
  }

  /** Changing one worker changes the sum by the difference of its own weight. */
  lemma {:induction false} WeightChange(p: Plan, s: Sys, s2: Sys, w: nat, upTo: nat)
    requires PlanOk(p) && Shape(p, s) && Shape(p, s2) && w < |s.workers| == |s2.workers| && upTo <= |s.workers|
    requires forall v :: 0 <= v < |s.workers| && v != w ==> s2.workers[v] == s.workers[v]
    ensures Weight(p, s2, upTo) ==
            Weight(p, s, upTo) + if w < upTo then PcWeight(p, s2, w) - PcWeight(p, s, w) else 0
  {
    if upTo > 0 {
      WeightChange(p, s, s2, w, upTo - 1);
      assert upTo - 1 != w ==> PcWeight(p, s2, upTo - 1) == PcWeight(p, s, upTo - 1);
    }
  }

  /** The step that a worker can take next, once it has left the scan. */
  ghost function NextAction(p: Plan, target: bool, s: Sys, w: nat): (a: Action)
    requires PlanOk(p) && Shape(p, s) && w < |s.workers| && !s.workers[w].pc.Scan?
    ensures Enabled(p, target, s, a) && a.w == w && !a.Pick?
  {
    var pc := s.workers[w].pc;
    assert WorkerShape(p, w, s.workers[w]);
    match pc
    case Check(pos, k) =>
      if k == |p.waits[Current(p, s, w)]| then Start(w)
      else if TokenAtTarget(p, target, s, w) then Load(w) else Miss(w)
    case Busy(_) => Body(w)
    case Publish(pos, k) => if k == |p.stores[Current(p, s, w)]| then Finish(w) else Put(w)
    case Scan => Miss(w)
  }

  lemma NextActionDescends(p: Plan, tasks: seq<Task>, target: bool, s: Sys, w: nat)
    requires PlanOk(p) && Shape(p, s) && |tasks| == |p.owner| && w < |s.workers| && !s.workers[w].pc.Scan?
    ensures var s2 := Apply(p, tasks, target, s, NextAction(p, target, s, w));
            Shape(p, s2) && (if NextAction(p, target, s, w).Body? then |s2.log| == |s.log| + 1
                             else |s2.log| == |s.log| && Weight(p, s2, |s2.workers|) < Weight(p, s, |s.workers|))
  {
    var a := NextAction(p, target, s, w);
    ShapeStep(p, tasks, target, s, a);
    var s2 := Apply(p, tasks, target, s, a);
    WeightChange(p, s, s2, w, |s.workers|);
  }

  lemma {:induction false} LogLength(log: seq<nat>, n: nat)
    requires NoDup(log) && forall i :: 0 <= i < |log| ==> log[i] < n
    ensures |log| <= n
    decreases n
  {
    assert |log| > 0 ==> log[0] < n;
    if n == 0 {
    } else if n - 1 in log {
      var k :| 0 <= k < |log| && log[k] == n - 1;
      var rest := log[..k] + log[k + 1..];
      assert forall i :: 0 <= i < |rest| ==> rest[i] == if i < k then log[i] else log[i + 1];
      LogLength(rest, n - 1);
    } else {
      LogLength(log, n - 1);
    }
  }

  /** A busy worker can step, towards the end of the cycle. */
  lemma StepOn(p: Plan, tasks: seq<Task>, target: bool, store0: Store, s: Sys, w: nat) returns (a: Action)
    requires Inv(p, tasks, target, store0, s) && w < |s.workers| && !s.workers[w].pc.Scan?
    ensures Enabled(p, target, s, a)
    ensures var s2 := Apply(p, tasks, target, s, a);
            Inv(p, tasks, target, store0, s2) && |s2.log| <= |p.owner| &&
            (|s2.log| > |s.log| || (|s2.log| == |s.log| && Weight(p, s2, |s2.workers|) < Weight(p, s, |s.workers|)))
  {
    a := NextAction(p, target, s, w);
    NextActionDescends(p, tasks, target, s, w);
    InvStep(p, tasks, target, store0, s, a);
    LogLength(Apply(p, tasks, target, s, a).log, |p.owner|);
  }

  /** From every reachable state the workers can still complete the cycle. */
  lemma {:induction false} CanFinish(p: Plan, tasks: seq<Task>, target: bool, store0: Store, s: Sys)
    returns (acts: seq<Action>)
    requires Inv(p, tasks, target, store0, s)
    ensures Runs(p, tasks, target, s, acts)
    ensures Shape(p, After(p, tasks, target, s, acts)) && Done(p, After(p, tasks, target, s, acts))
    decreases |p.owner| - |s.log|, Weight(p, s, |s.workers|)
  {
    LogLength(s.log, |p.owner|);
    if w :| 0 <= w < |s.workers| && !s.workers[w].pc.Scan? {
      var a := StepOn(p, tasks, target, store0, s, w);
      var s2 := Apply(p, tasks, target, s, a);
      var rest := CanFinish(p, tasks, target, store0, s2);
      acts := [a] + rest;
      assert acts[1..] == rest;
    } else if Done(p, s) {
      acts := [];
    } else {
      var launch := LaunchLeast(p, tasks, target, store0, s);
      InvRun(p, tasks, target, store0, s, launch);
      var s2 := After(p, tasks, target, s, launch);
      LogLength(s2.log, |p.owner|);
      var rest := CanFinish(p, tasks, target, store0, s2);
      RunsConcat(p, tasks, target, s, launch, rest);
      acts := launch + rest;
    }
  }

  /** With all workers scanning and the cycle not over, the least missing task can run. */
  lemma LaunchLeast(p: Plan, tasks: seq<Task>, target: bool, store0: Store, s: Sys) returns (acts: seq<Action>)
    requires Inv(p, tasks, target, store0, s) && !Done(p, s)
    requires forall w :: 0 <= w < |s.workers| ==> s.workers[w].pc.Scan?
    ensures Runs(p, tasks, target, s, acts)
    ensures |After(p, tasks, target, s, acts).log| > |s.log|
  {
    var u := LeastMissing(s.log, 0, |p.owner|);
    assert u < |p.owner| by {
      var w :| 0 <= w < |s.workers| && s.workers[w].head != |p.tables[w]|;
      assert WorkerLogged(p, s, w) && WorkerShape(p, w, s.workers[w]);
      assert p.tables[w][s.workers[w].head] !in s.log;
    }
    LeastTaskIsRunnable(p, tasks, target, store0, s, u);
    var w := p.owner[u];
    var pick := Pick(w, p.pos[u]);
    assert Enabled(p, target, s, pick);
    ShapeStep(p, tasks, target, s, pick);
    var s2 := Apply(p, tasks, target, s, pick);
    var rest := LoadAndRun(p, tasks, target, s2, w);
    acts := [pick] + rest;
    assert acts[1..] == rest;
  }

  lemma {:induction false} LoadAndRun(p: Plan, tasks: seq<Task>, target: bool, s: Sys, w: nat)
    returns (acts: seq<Action>)
    requires PlanOk(p) && Shape(p, s) && |tasks| == |p.owner| && w < |s.workers|
    requires s.workers[w].pc.Check? || s.workers[w].pc.Busy?
    requires var t := Current(p, s, w);
             forall j :: 0 <= j < |p.waits[t]| ==> p.waits[t][j] < |s.tokens| && s.tokens[p.waits[t][j]] == target
    ensures Runs(p, tasks, target, s, acts)
    ensures |After(p, tasks, target, s, acts).log| > |s.log|
    decreases PcWeight(p, s, w)
  {
    var a := NextAction(p, target, s, w);
    ShapeStep(p, tasks, target, s, a);
    var s2 := Apply(p, tasks, target, s, a);
    if a.Body? {
      acts := [a];
      assert acts[1..] == [];
    } else {
      var rest := LoadAndRun(p, tasks, target, s2, w);
      acts := [a] + rest;
      assert acts[1..] == rest;
    }
  }

  // ----- bounded work

  /** Bodies, token stores and completions still owed by tasks that have not run. */
  ghost function TaskWork(p: Plan, log: seq<nat>, upTo: nat): nat
    requires PlanOk(p) && upTo <= |p.owner|
  {
    if upTo == 0 then 0
    else TaskWork(p, log, upTo - 1) + if upTo - 1 in log then 0 else 2 + |p.stores[upTo - 1]|
  }

  ghost function OpenWork(p: Plan, s: Sys, upTo: nat): nat
    requires PlanOk(p) && Shape(p, s) && upTo <= |s.workers|
  {
    if upTo == 0 then 0
    else OpenWork(p, s, upTo - 1) + if s.workers[upTo - 1].pc.Publish? then PcWeight(p, s, upTo - 1) else 0
  }

  ghost function Work(p: Plan, s: Sys): nat
    requires PlanOk(p) && Shape(p, s)
  {
    TaskWork(p, s.log, |p.owner|) + OpenWork(p, s, |s.workers|)
  }

  predicate Productive(a: Action) {
    a.Body? || a.Put? || a.Finish?
  }

  function CountProductive(acts: seq<Action>): nat {
    if acts == [] then 0 else (if Productive(acts[0]) then 1 else 0) + CountProductive(acts[1..])
  }

  lemma {:induction false} TaskWorkSnoc(p: Plan, log: seq<nat>, t: nat, upTo: nat)
    requires PlanOk(p) && upTo <= |p.owner| && t < |p.owner| && t !in log
    ensures TaskWork(p, log, upTo) == TaskWork(p, log + [t], upTo) + if t < upTo then 2 + |p.stores[t]| else 0
  {
    if upTo > 0 {
      TaskWorkSnoc(p, log, t, upTo - 1);
    }
  }

  lemma {:induction false} OpenWorkChange(p: Plan, s: Sys, s2: Sys, w: nat, upTo: nat)
    requires PlanOk(p) && Shape(p, s) && Shape(p, s2) && w < |s.workers| == |s2.workers| && upTo <= |s.workers|
    requires forall v :: 0 <= v < |s.workers| && v != w ==> s2.workers[v] == s.workers[v]
    ensures OpenWork(p, s2, upTo) == OpenWork(p, s, upTo) +
            if w < upTo then (if s2.workers[w].pc.Publish? then PcWeight(p, s2, w) else 0)
                           - (if s.workers[w].pc.Publish? then PcWeight(p, s, w) else 0) else 0
  {
    if upTo > 0 {
      OpenWorkChange(p, s, s2, w, upTo - 1);
      assert upTo - 1 != w ==> PcWeight(p, s2, upTo - 1) == PcWeight(p, s, upTo - 1);
    }
  }

  lemma WorkStep(p: Plan, tasks: seq<Task>, target: bool, store0: Store, s: Sys, a: Action)
    requires Inv(p, tasks, target, store0, s) && Enabled(p, target, s, a)
    ensures Shape(p, Apply(p, tasks, target, s, a))
    ensures Work(p, Apply(p, tasks, target, s, a)) == Work(p, s) - if Productive(a) then 1 else 0
  {
    ShapeStep(p, tasks, target, s, a);
    var s2 := Apply(p, tasks, target, s, a);
    OpenWorkChange(p, s, s2, a.w, |s.workers|);
    assert WorkerShape(p, a.w, s.workers[a.w]);
    if a.Body? {
      assert WorkerLogged(p, s, a.w);
      TaskWorkSnoc(p, s.log, Current(p, s, a.w), |p.owner|);
    }
  }

  /** However the workers interleave, a cycle holds at most one body, one completion and one
      store per published token of each task; everything else a worker does is looking. */
  lemma {:induction false} ProductiveStepsAreBounded(p: Plan, tasks: seq<Task>, target: bool, store0: Store, s: Sys,
                                                     acts: seq<Action>)
    requires Inv(p, tasks, target, store0, s) && Runs(p, tasks, target, s, acts)
    ensures Shape(p, After(p, tasks, target, s, acts))
    ensures CountProductive(acts) + Work(p, After(p, tasks, target, s, acts)) == Work(p, s)
    decreases |acts|
  {
    if acts != [] {
      WorkStep(p, tasks, target, store0, s, acts[0]);
      InvStep(p, tasks, target, store0, s, acts[0]);
      ProductiveStepsAreBounded(p, tasks, target, store0, Apply(p, tasks, target, s, acts[0]), acts[1..]);
    }
  }

  // ----- every fair schedule ends

  /** The worker finds a token of its head missing, and will try again. */
  ghost predicate MissesHead(p: Plan, target: bool, s: Sys, a: Action)
    requires PlanOk(p) && Shape(p, s) && Enabled(p, target, s, a)
  {
    a.Miss? && s.workers[a.w].pc.pos == s.workers[a.w].head
  }

  /** In these steps worker w gets on with a task, or tries its head in vain. */
  ghost predicate Tries(p: Plan, tasks: seq<Task>, target: bool, s: Sys, acts: seq<Action>, w: nat)
    requires PlanOk(p) && Shape(p, s) && |tasks| == |p.owner| && Runs(p, tasks, target, s, acts)
    decreases |acts|
  {
    acts != [] &&
    ((acts[0].w == w && (Productive(acts[0]) || MissesHead(p, target, s, acts[0])))
     || (ShapeStep(p, tasks, target, s, acts[0]);
         Tries(p, tasks, target, Apply(p, tasks, target, s, acts[0]), acts[1..], w)))
  }

  /** A round in which every worker with work left gets on with it or tries its head. */
  ghost predicate FairRound(p: Plan, tasks: seq<Task>, target: bool, s: Sys, acts: seq<Action>)
    requires PlanOk(p) && Shape(p, s) && |tasks| == |p.owner| && Runs(p, tasks, target, s, acts)
  {
    forall w :: 0 <= w < |s.workers| && s.workers[w].head < |p.tables[w]| ==> Tries(p, tasks, target, s, acts, w)
  }

  /** Some token of the worker's head is not at target. */
  ghost predicate HeadMisses(p: Plan, target: bool, s: Sys, w: nat)
    requires PlanOk(p) && Shape(p, s) && w < |s.workers| && s.workers[w].head < |p.tables[w]|
  {
    var t := p.tables[w][s.workers[w].head];
    exists j :: 0 <= j < |p.waits[t]| && p.waits[t][j] < |s.tokens| && s.tokens[p.waits[t][j]] != target
  }

  /** Steps that are not productive leave tokens, heads and log alone, and workers inside a
      body or a publication take none of them. */
  lemma LookingChangesNothing(p: Plan, tasks: seq<Task>, target: bool, s: Sys, a: Action, w: nat)
    requires PlanOk(p) && Shape(p, s) && |tasks| == |p.owner| && Enabled(p, target, s, a) && !Productive(a)
    requires w < |s.workers|
    ensures var s2 := Apply(p, tasks, target, s, a);
            && Shape(p, s2) && s2.tokens == s.tokens && s2.log == s.log && s2.workers[w].head == s.workers[w].head
            && (s.workers[w].pc.Busy? || s.workers[w].pc.Publish? ==> a.w != w && s2.workers[w] == s.workers[w])
  {
    ShapeStep(p, tasks, target, s, a);
  }

  lemma {:induction false} InVain(p: Plan, tasks: seq<Task>, target: bool, s: Sys, acts: seq<Action>, w: nat)
    requires PlanOk(p) && Shape(p, s) && |tasks| == |p.owner| && Runs(p, tasks, target, s, acts)
    requires w < |s.workers| && s.workers[w].head < |p.tables[w]|
    requires CountProductive(acts) == 0 && Tries(p, tasks, target, s, acts, w)
    ensures HeadMisses(p, target, s, w) && !s.workers[w].pc.Busy? && !s.workers[w].pc.Publish?
    decreases |acts|
  {
    var a := acts[0];
    LookingChangesNothing(p, tasks, target, s, a, w);
    if a.w == w && MissesHead(p, target, s, a) {
      assert WorkerShape(p, w, s.workers[w]) && !TokenAtTarget(p, target, s, w);
      LinkInRange(p, Current(p, s, w), p.waits[Current(p, s, w)][s.workers[w].pc.k]);
    } else {
      InVain(p, tasks, target, Apply(p, tasks, target, s, a), acts[1..], w);
    }
  }

  /** Until the cycle is over, every fair round gets something done. */
  lemma FairRoundProgresses(p: Plan, tasks: seq<Task>, target: bool, store0: Store, s: Sys, acts: seq<Action>)
    requires Inv(p, tasks, target, store0, s) && !Done(p, s) && Runs(p, tasks, target, s, acts)
    requires FairRound(p, tasks, target, s, acts)
    ensures CountProductive(acts) > 0
  {
    if CountProductive(acts) == 0 {
      forall w | 0 <= w < |s.workers| ensures s.workers[w].pc.Scan? || s.workers[w].pc.Check? {
        assert WorkerShape(p, w, s.workers[w]);
        if s.workers[w].head < |p.tables[w]| {
          InVain(p, tasks, target, s, acts, w);
        }
      }
      var u := NotYetRun(p, tasks, target, store0, s);
      LeastTaskIsRunnable(p, tasks, target, store0, s, u);
      InVain(p, tasks, target, s, acts, p.owner[u]);
    }
  }

  /** The smallest task that has not run. */
  lemma NotYetRun(p: Plan, tasks: seq<Task>, target: bool, store0: Store, s: Sys) returns (u: nat)
    requires Inv(p, tasks, target, store0, s) && !Done(p, s)
    requires forall w :: 0 <= w < |s.workers| ==> s.workers[w].pc.Scan? || s.workers[w].pc.Check?
    ensures u < |p.owner| && u !in s.log && forall t: nat :: t < u ==> t in s.log
  {
    u := LeastMissing(s.log, 0, |p.owner|);
    var w :| 0 <= w < |s.workers| && !(s.workers[w].pc.Scan? && s.workers[w].head == |p.tables[w]|);
    assert WorkerLogged(p, s, w) && WorkerShape(p, w, s.workers[w]);
    assert p.tables[w][s.workers[w].head] !in s.log;
  }

  /** A run in fair rounds that has not finished the cycle before its last round. */
  ghost predicate FairRun(p: Plan, tasks: seq<Task>, target: bool, s: Sys, rounds: seq<seq<Action>>)
    requires PlanOk(p) && Shape(p, s) && |tasks| == |p.owner|
    decreases |rounds|
  {
    rounds == [] ||
    (&& !Done(p, s) && Runs(p, tasks, target, s, rounds[0]) && FairRound(p, tasks, target, s, rounds[0])
     && Shape(p, After(p, tasks, target, s, rounds[0]))
     && FairRun(p, tasks, target, After(p, tasks, target, s, rounds[0]), rounds[1..]))
  }

  /** Every schedule in which all workers keep retrying their heads ends the cycle: there are
      at most as many rounds as bodies, stores and completions. */
  lemma {:induction false} FairRunsEnd(p: Plan, tasks: seq<Task>, target: bool, store0: Store, s: Sys,
                                       rounds: seq<seq<Action>>)
    requires Inv(p, tasks, target, store0, s) && FairRun(p, tasks, target, s, rounds)
    ensures |rounds| <= Work(p, s)
    decreases |rounds|
  {
    if rounds != [] {
      FairRoundProgresses(p, tasks, target, store0, s, rounds[0]);
      ProductiveStepsAreBounded(p, tasks, target, store0, s, rounds[0]);
      InvRun(p, tasks, target, store0, s, rounds[0]);
      FairRunsEnd(p, tasks, target, store0, After(p, tasks, target, s, rounds[0]), rounds[1..]);
    }
  }
}
