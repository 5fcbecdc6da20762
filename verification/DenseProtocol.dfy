/** One pooled cycle of the dense executor as a state machine over the atomic steps of its
    workers (src/cppEmitterDenseExec.cpp, inline worker and stepDenseLookaheadTail). */
module DenseProtocol {
  import opened DensePlan
  import opened DenseTask

  /** Where a worker is: looking for an entry, reading the tokens of entry `pos` one by one,
      inside the body of `pos`, or storing the tokens of `pos` one by one. */
  datatype Pc = Scan | Check(pos: nat, k: nat) | Busy(pos: nat) | Publish(pos: nat, k: nat)

  /** Table entries before `head`, and those in `done`, have run. */
  datatype Worker = Worker(head: nat, done: set<nat>, pc: Pc)

  /** The shared variables and tokens, the workers, and the order in which bodies ended. */
  datatype Sys = Sys(store: Store, tokens: seq<bool>, workers: seq<Worker>, log: seq<nat>)

  datatype Action = Pick(w: nat, pos: nat) | Load(w: nat) | Miss(w: nat) | Start(w: nat)
                  | Body(w: nat) | Put(w: nat) | Finish(w: nat)

  predicate Settled(wk: Worker, i: nat) {
    i < wk.head || i in wk.done
  }

  /** The head moves on over entries that ran out of order. */
  function Advance(head: nat, done: set<nat>, count: nat): (h: nat)
    requires head <= count
    ensures head <= h <= count && (h < count ==> h !in done)
    ensures forall i :: head <= i < h ==> i in done
    decreases count - head
  {
    if head < count && head in done then Advance(head + 1, done, count) else head
  }

  // ----- state shape

  ghost predicate WorkerShape(p: Plan, w: nat, wk: Worker)
    requires PlanOk(p) && w < |p.tables|
  {
    var tb := p.tables[w];
    && wk.head <= |tb|
    && (forall i :: i in wk.done ==> wk.head < i < |tb|)
    && (!wk.pc.Scan? ==> wk.head <= wk.pc.pos < |tb| && wk.pc.pos !in wk.done)
    && (wk.pc.Check? ==> wk.pc.k <= |p.waits[tb[wk.pc.pos]]|)
    && (wk.pc.Publish? ==> wk.pc.k <= |p.stores[tb[wk.pc.pos]]|)
  }

  ghost predicate Shape(p: Plan, s: Sys)
    requires PlanOk(p)
  {
    && |s.tokens| == p.slotCount && |s.workers| == |p.tables|
    && forall w :: 0 <= w < |s.workers| ==> WorkerShape(p, w, s.workers[w])
  }

  lemma LinkInRange(p: Plan, t: nat, x: nat)
    requires PlanOk(p) && t < |p.owner| && (x in p.waits[t] || x in p.stores[t])
    ensures x < p.slotCount
  {
  }

  // ----- steps

  /** The task a worker that is not scanning works on. */
  ghost function Current(p: Plan, s: Sys, w: nat): nat
    requires PlanOk(p) && Shape(p, s) && w < |s.workers| && !s.workers[w].pc.Scan?
  {
    p.tables[w][s.workers[w].pc.pos]
  }

  ghost predicate LocalReady(p: Plan, wk: Worker, t: nat)
    requires PlanOk(p) && t < |p.owner|
  {
    forall q :: q in p.local[t] ==> Settled(wk, q)
  }

  /** The token a checking worker reads next. */
  ghost predicate TokenAtTarget(p: Plan, target: bool, s: Sys, w: nat)
    requires PlanOk(p) && Shape(p, s) && w < |s.workers| && s.workers[w].pc.Check?
    requires s.workers[w].pc.k < |p.waits[Current(p, s, w)]|
  {
    var x := p.waits[Current(p, s, w)][s.workers[w].pc.k];
    LinkInRange(p, Current(p, s, w), x);
    s.tokens[x] == target
  }

  ghost predicate Enabled(p: Plan, target: bool, s: Sys, a: Action)
    requires PlanOk(p) && Shape(p, s)
  {
    && a.w < |s.workers|
    && var wk := s.workers[a.w];
       match a
       case Pick(w, pos) =>
         wk.pc.Scan? && pos < |p.tables[w]|
         && (pos == wk.head
             || (wk.head < pos <= wk.head + p.window && pos !in wk.done && LocalReady(p, wk, p.tables[w][pos])))
       case Load(w) => wk.pc.Check? && wk.pc.k < |p.waits[Current(p, s, w)]| && TokenAtTarget(p, target, s, w)
       case Miss(w) => wk.pc.Check? && wk.pc.k < |p.waits[Current(p, s, w)]| && !TokenAtTarget(p, target, s, w)
       case Start(w) => wk.pc.Check? && wk.pc.k == |p.waits[Current(p, s, w)]|
       case Body(w) => wk.pc.Busy?
       case Put(w) => wk.pc.Publish? && wk.pc.k < |p.stores[Current(p, s, w)]|
       case Finish(w) => wk.pc.Publish? && wk.pc.k == |p.stores[Current(p, s, w)]|
  }

  function AtLeast(done: set<nat>, h: nat): set<nat> {
    set i | i in done && i >= h
  }

  function FinishWorker(wk: Worker, pos: nat, count: nat): Worker
    requires wk.head <= pos < count
  {
    if pos == wk.head then
      var h := Advance(wk.head + 1, wk.done, count);
      Worker(h, AtLeast(wk.done, h), Scan)
    else Worker(wk.head, wk.done + {pos}, Scan)
  }

  ghost function Apply(p: Plan, tasks: seq<Task>, target: bool, s: Sys, a: Action): Sys
    requires PlanOk(p) && Shape(p, s) && |tasks| == |p.owner| && Enabled(p, target, s, a)
  {
    var wk := s.workers[a.w];
    match a
    case Pick(w, pos) => s.(workers := s.workers[w := wk.(pc := Check(pos, 0))])
    case Load(w) => s.(workers := s.workers[w := wk.(pc := Check(wk.pc.pos, wk.pc.k + 1))])
    case Miss(w) => s.(workers := s.workers[w := wk.(pc := Scan)])
    case Start(w) => s.(workers := s.workers[w := wk.(pc := Busy(wk.pc.pos))])
    case Body(w) =>
      var t := Current(p, s, w);
      Sys(tasks[t].body(s.store), s.tokens, s.workers[w := wk.(pc := Publish(wk.pc.pos, 0))], s.log + [t])
    case Put(w) =>
      var x := p.stores[Current(p, s, w)][wk.pc.k];
      LinkInRange(p, Current(p, s, w), x);
      s.(tokens := s.tokens[x := target], workers := s.workers[w := wk.(pc := Publish(wk.pc.pos, wk.pc.k + 1))])
    case Finish(w) => s.(workers := s.workers[w := FinishWorker(wk, wk.pc.pos, |p.tables[w]|)])
  }

  // ----- the invariant

  /** A worker's own tasks in the log are the settled ones and the one it is publishing. */
  ghost predicate WorkerLogged(p: Plan, s: Sys, w: nat)
    requires PlanOk(p) && Shape(p, s) && w < |s.workers|
  {
    var wk := s.workers[w];
    forall i :: 0 <= i < |p.tables[w]| ==>
      (p.tables[w][i] in s.log <==> Settled(wk, i) || (wk.pc.Publish? && wk.pc.pos == i))
  }

  /** Tokens a worker has read at target, and its local prerequisites, still hold. */
  ghost predicate WorkerReady(p: Plan, target: bool, s: Sys, w: nat)
    requires PlanOk(p) && Shape(p, s) && w < |s.workers|
  {
    var wk := s.workers[w];
    wk.pc.Check? || wk.pc.Busy? ==>
      var t := Current(p, s, w);
      var seen := if wk.pc.Check? then wk.pc.k else |p.waits[t]|;
      && LocalReady(p, wk, t)
      && forall j :: 0 <= j < seen ==> p.waits[t][j] < |s.tokens| && s.tokens[p.waits[t][j]] == target
  }

  /** The token of group g has been stored in this cycle. */
  ghost predicate Published(p: Plan, s: Sys, g: nat)
    requires PlanOk(p) && Shape(p, s) && g < |p.groups|
  {
    var t := p.groups[g].Publisher();
    var wk := s.workers[p.owner[t]];
    || Settled(wk, p.pos[t])
    || (wk.pc.Publish? && wk.pc.pos == p.pos[t] && p.slots[g] in p.stores[t][..wk.pc.k])
  }

  ghost predicate TokensOk(p: Plan, target: bool, s: Sys)
    requires PlanOk(p) && Shape(p, s)
  {
    forall g :: 0 <= g < |p.groups| ==> (s.tokens[p.slots[g]] == target <==> Published(p, s, g))
  }

  /** No task ran twice, and whatever the plan makes a task wait for ran before it. */
  ghost predicate LogOk(p: Plan, log: seq<nat>)
    requires PlanOk(p)
  {
    && NoDup(log) && (forall i :: 0 <= i < |log| ==> log[i] < |p.owner|)
    && forall i, s: nat :: 0 <= i < |log| && Enforces(p, s, log[i]) ==> s in log[..i]
  }

  ghost predicate Inv(p: Plan, tasks: seq<Task>, target: bool, store0: Store, s: Sys) {
    && PlanOk(p) && |tasks| == |p.owner| && Shape(p, s)
    && (forall w :: 0 <= w < |s.workers| ==> WorkerLogged(p, s, w) && WorkerReady(p, target, s, w))
    && TokensOk(p, target, s)
    && LogOk(p, s.log)
    && s.store == Run(tasks, s.log, store0)
  }

  // ----- every step keeps the invariant

  lemma ShapeStep(p: Plan, tasks: seq<Task>, target: bool, s: Sys, a: Action)
    requires PlanOk(p) && Shape(p, s) && |tasks| == |p.owner| && Enabled(p, target, s, a)
    ensures Shape(p, Apply(p, tasks, target, s, a))
  {
    var s2 := Apply(p, tasks, target, s, a);
    match a {
      case Put(w) => LinkInRange(p, Current(p, s, w), p.stores[Current(p, s, w)][s.workers[w].pc.k]);
      case _ =>
    }
    forall w | 0 <= w < |s2.workers| ensures WorkerShape(p, w, s2.workers[w]) {
      assert WorkerShape(p, w, s.workers[w]);
    }
  }

  lemma {:induction false} ReadyMeansPredsLogged(p: Plan, tasks: seq<Task>, target: bool, store0: Store, s: Sys, w: nat,
                                                 pred: nat)
    requires Inv(p, tasks, target, store0, s) && w < |s.workers| && s.workers[w].pc.Busy?
    requires Enforces(p, pred, Current(p, s, w))
    ensures pred in s.log
  {
    var t := Current(p, s, w);
    var wk := s.workers[w];
    assert WorkerReady(p, target, s, w) && WorkerLogged(p, s, w);
    if p.owner[pred] == p.owner[t] && p.pos[pred] in p.local[t] {
      assert Settled(wk, p.pos[pred]);
      assert p.tables[w][p.pos[pred]] == pred;
    } else {
      var g :| 0 <= g < |p.groups| && p.groups[g].dest == t && pred in p.groups[g].sources;
      assert p.slots[g] in p.waits[t];
      var j :| 0 <= j < |p.waits[t]| && p.waits[t][j] == p.slots[g];
      assert s.tokens[p.slots[g]] == target;
      assert Published(p, s, g);
      var publisher := p.groups[g].Publisher();
      assert WorkerLogged(p, s, p.owner[publisher]);
      assert p.tables[p.owner[publisher]][p.pos[publisher]] == publisher;
      assert publisher in s.log;
      if pred != publisher {
        PublisherIsLast(p, g, pred);
        assert Enforces(p, pred, publisher);
        var i :| 0 <= i < |s.log| && s.log[i] == publisher;
        assert pred in s.log[..i];
      }
    }
  }

  lemma QuietWorker(p: Plan, tasks: seq<Task>, target: bool, s: Sys, a: Action, w: nat)
    requires PlanOk(p) && Shape(p, s) && |tasks| == |p.owner| && Enabled(p, target, s, a)
    requires a.Pick? || a.Load? || a.Miss? || a.Start?
    requires w < |s.workers| && WorkerLogged(p, s, w) && WorkerReady(p, target, s, w)
    requires Shape(p, Apply(p, tasks, target, s, a))
    ensures WorkerLogged(p, Apply(p, tasks, target, s, a), w)
            && WorkerReady(p, target, Apply(p, tasks, target, s, a), w)
  {
    QuietLogged(p, tasks, target, s, a, w);
    QuietReady(p, tasks, target, s, a, w);
  }

  lemma QuietLogged(p: Plan, tasks: seq<Task>, target: bool, s: Sys, a: Action, w: nat)
    requires PlanOk(p) && Shape(p, s) && |tasks| == |p.owner| && Enabled(p, target, s, a)
    requires a.Pick? || a.Load? || a.Miss? || a.Start?
    requires w < |s.workers| && WorkerLogged(p, s, w) && WorkerReady(p, target, s, w)
    requires Shape(p, Apply(p, tasks, target, s, a))
    ensures WorkerLogged(p, Apply(p, tasks, target, s, a), w)
  {
    var s2 := Apply(p, tasks, target, s, a);
    var wk, wk2 := s.workers[w], s2.workers[w];
    assert forall i :: Settled(wk2, i) <==> Settled(wk, i);
    assert !wk.pc.Publish? <==> !wk2.pc.Publish?;
  }

  lemma QuietReady(p: Plan, tasks: seq<Task>, target: bool, s: Sys, a: Action, w: nat)
    requires PlanOk(p) && Shape(p, s) && |tasks| == |p.owner| && Enabled(p, target, s, a)
    requires a.Pick? || a.Load? || a.Miss? || a.Start?
    requires w < |s.workers| && WorkerLogged(p, s, w) && WorkerReady(p, target, s, w)
    requires Shape(p, Apply(p, tasks, target, s, a))
    ensures WorkerReady(p, target, Apply(p, tasks, target, s, a), w)
  {
    var s2 := Apply(p, tasks, target, s, a);
    var wk, wk2 := s.workers[w], s2.workers[w];
    assert forall i :: Settled(wk2, i) <==> Settled(wk, i);
    if w == a.w && a.Pick? && a.pos == wk.head {
      assert WorkerShape(p, w, wk2);
      assert p.pos[p.tables[w][a.pos]] == a.pos;
    }
    if w == a.w && a.Load? {
      var t, k := Current(p, s, w), wk.pc.k;
      assert TokenAtTarget(p, target, s, w);
      forall j | 0 <= j < k + 1 ensures p.waits[t][j] < |s2.tokens| && s2.tokens[p.waits[t][j]] == target {
        LinkInRange(p, t, p.waits[t][j]);
      }
    }
  }

  lemma QuietToken(p: Plan, tasks: seq<Task>, target: bool, s: Sys, a: Action, g: nat)
    requires PlanOk(p) && Shape(p, s) && |tasks| == |p.owner| && Enabled(p, target, s, a)
    requires a.Pick? || a.Load? || a.Miss? || a.Start?
    requires g < |p.groups| && Shape(p, Apply(p, tasks, target, s, a))
    ensures Published(p, Apply(p, tasks, target, s, a), g) <==> Published(p, s, g)
  {
  }

  lemma InvQuietStep(p: Plan, tasks: seq<Task>, target: bool, store0: Store, s: Sys, a: Action)
    requires Inv(p, tasks, target, store0, s) && Enabled(p, target, s, a)
    requires a.Pick? || a.Load? || a.Miss? || a.Start?
    ensures Inv(p, tasks, target, store0, Apply(p, tasks, target, s, a))
  {
    var s2 := Apply(p, tasks, target, s, a);
    ShapeStep(p, tasks, target, s, a);
    forall w | 0 <= w < |s2.workers| ensures WorkerLogged(p, s2, w) && WorkerReady(p, target, s2, w) {
      QuietWorker(p, tasks, target, s, a, w);
    }
    forall g | 0 <= g < |p.groups| ensures s2.tokens[p.slots[g]] == target <==> Published(p, s2, g) {
      QuietToken(p, tasks, target, s, a, g);
    }
  }

  lemma BodyWorkers(p: Plan, tasks: seq<Task>, target: bool, s: Sys, w: nat, v: nat)
    requires PlanOk(p) && Shape(p, s) && |tasks| == |p.owner| && Enabled(p, target, s, Body(w))
    requires v < |s.workers| && WorkerLogged(p, s, v) && WorkerReady(p, target, s, v)
    requires Shape(p, Apply(p, tasks, target, s, Body(w)))
    ensures WorkerLogged(p, Apply(p, tasks, target, s, Body(w)), v)
    ensures WorkerReady(p, target, Apply(p, tasks, target, s, Body(w)), v)
  {
    var s2 := Apply(p, tasks, target, s, Body(w));
    assert forall i :: Settled(s2.workers[v], i) <==> Settled(s.workers[v], i);
    var t := Current(p, s, w);
    forall i | 0 <= i < |p.tables[v]| ensures p.tables[v][i] == t <==> v == w && i == s.workers[w].pc.pos {
      assert p.pos[p.tables[v][i]] == i && p.owner[p.tables[v][i]] == v;
    }
  }

  lemma BodyToken(p: Plan, tasks: seq<Task>, target: bool, s: Sys, w: nat, g: nat)
    requires PlanOk(p) && Shape(p, s) && |tasks| == |p.owner| && Enabled(p, target, s, Body(w))
    requires g < |p.groups| && Shape(p, Apply(p, tasks, target, s, Body(w)))
    ensures Published(p, Apply(p, tasks, target, s, Body(w)), g) <==> Published(p, s, g)
  {
  }

  lemma BodyLog(p: Plan, tasks: seq<Task>, target: bool, store0: Store, s: Sys, w: nat)
    requires Inv(p, tasks, target, store0, s) && w < |s.workers| && s.workers[w].pc.Busy?
    ensures LogOk(p, s.log + [Current(p, s, w)])
  {
    var t := Current(p, s, w);
    var log := s.log + [t];
    assert t !in s.log by {
      assert WorkerLogged(p, s, w);
    }
    forall i, q: nat | 0 <= i < |log| && Enforces(p, q, log[i]) ensures q in log[..i] {
      if i < |s.log| {
        assert log[..i] == s.log[..i];
      } else {
        ReadyMeansPredsLogged(p, tasks, target, store0, s, w, q);
        assert log[..i] == s.log;
      }
    }
  }

  lemma InvBody(p: Plan, tasks: seq<Task>, target: bool, store0: Store, s: Sys, w: nat)
    requires Inv(p, tasks, target, store0, s) && Enabled(p, target, s, Body(w))
    ensures Inv(p, tasks, target, store0, Apply(p, tasks, target, s, Body(w)))
  {
    var s2 := Apply(p, tasks, target, s, Body(w));
    ShapeStep(p, tasks, target, s, Body(w));
    forall v | 0 <= v < |s2.workers| ensures WorkerLogged(p, s2, v) && WorkerReady(p, target, s2, v) {
      BodyWorkers(p, tasks, target, s, w, v);
    }
    forall g | 0 <= g < |p.groups| ensures s2.tokens[p.slots[g]] == target <==> Published(p, s2, g) {
      BodyToken(p, tasks, target, s, w, g);
    }
    BodyLog(p, tasks, target, store0, s, w);
    RunConcat(tasks, s.log, [Current(p, s, w)], store0);
  }

  lemma PutPublishes(p: Plan, s: Sys, w: nat, g: nat)
    requires PlanOk(p) && Shape(p, s) && w < |s.workers| && s.workers[w].pc.Publish? && g < |p.groups|
    requires s.workers[w].pc.k < |p.stores[Current(p, s, w)]|
    ensures p.slots[g] == p.stores[Current(p, s, w)][s.workers[w].pc.k] ==> p.groups[g].Publisher() == Current(p, s, w)
  {
    var t := Current(p, s, w);
    var x := p.stores[t][s.workers[w].pc.k];
    assert x in p.stores[t];
    var h :| 0 <= h < |p.groups| && p.groups[h].Publisher() == t && p.slots[h] == x;
    assert p.slots[g] == x ==> g == h;
  }

  lemma PutWorkers(p: Plan, tasks: seq<Task>, target: bool, s: Sys, w: nat, v: nat)
    requires PlanOk(p) && Shape(p, s) && |tasks| == |p.owner| && Enabled(p, target, s, Put(w))
    requires v < |s.workers| && WorkerLogged(p, s, v) && WorkerReady(p, target, s, v)
    requires Shape(p, Apply(p, tasks, target, s, Put(w)))
    ensures WorkerLogged(p, Apply(p, tasks, target, s, Put(w)), v)
    ensures WorkerReady(p, target, Apply(p, tasks, target, s, Put(w)), v)
  {
    var s2 := Apply(p, tasks, target, s, Put(w));
    assert forall i :: Settled(s2.workers[v], i) <==> Settled(s.workers[v], i);
    assert forall x :: 0 <= x < |s.tokens| && s.tokens[x] == target ==> s2.tokens[x] == target;
  }

  lemma PutToken(p: Plan, tasks: seq<Task>, target: bool, s: Sys, w: nat, g: nat)
    requires PlanOk(p) && Shape(p, s) && |tasks| == |p.owner| && Enabled(p, target, s, Put(w))
    requires g < |p.groups| && Shape(p, Apply(p, tasks, target, s, Put(w)))
    requires s.tokens[p.slots[g]] == target <==> Published(p, s, g)
    ensures var s2 := Apply(p, tasks, target, s, Put(w)); s2.tokens[p.slots[g]] == target <==> Published(p, s2, g)
  {
    var t, k := Current(p, s, w), s.workers[w].pc.k;
    PutPublishes(p, s, w, g);
    assert p.stores[t][..k + 1] == p.stores[t][..k] + [p.stores[t][k]];
    var publisher := p.groups[g].Publisher();
    assert p.tables[p.owner[publisher]][p.pos[publisher]] == publisher;
    if publisher == t {
      assert p.slots[g] in p.stores[t];
    }
  }

  lemma InvPut(p: Plan, tasks: seq<Task>, target: bool, store0: Store, s: Sys, w: nat)
    requires Inv(p, tasks, target, store0, s) && Enabled(p, target, s, Put(w))
    ensures Inv(p, tasks, target, store0, Apply(p, tasks, target, s, Put(w)))
  {
    var s2 := Apply(p, tasks, target, s, Put(w));
    ShapeStep(p, tasks, target, s, Put(w));
    forall v | 0 <= v < |s2.workers| ensures WorkerLogged(p, s2, v) && WorkerReady(p, target, s2, v) {
      PutWorkers(p, tasks, target, s, w, v);
    }
    forall g | 0 <= g < |p.groups| ensures s2.tokens[p.slots[g]] == target <==> Published(p, s2, g) {
      PutToken(p, tasks, target, s, w, g);
    }
  }

  lemma FinishSettles(p: Plan, s: Sys, w: nat)
    requires PlanOk(p) && Shape(p, s) && w < |s.workers| && s.workers[w].pc.Publish?
    ensures var wk := s.workers[w];
            var wk2 := FinishWorker(wk, wk.pc.pos, |p.tables[w]|);
            wk2.pc.Scan? && forall i :: 0 <= i < |p.tables[w]| ==>
              (Settled(wk2, i) <==> Settled(wk, i) || i == wk.pc.pos)
  {
    assert WorkerShape(p, w, s.workers[w]);
  }

  lemma FinishWorkers(p: Plan, tasks: seq<Task>, target: bool, s: Sys, w: nat, v: nat)
    requires PlanOk(p) && Shape(p, s) && |tasks| == |p.owner| && Enabled(p, target, s, Finish(w))
    requires v < |s.workers| && WorkerLogged(p, s, v) && WorkerReady(p, target, s, v)
    requires Shape(p, Apply(p, tasks, target, s, Finish(w)))
    ensures WorkerLogged(p, Apply(p, tasks, target, s, Finish(w)), v)
    ensures WorkerReady(p, target, Apply(p, tasks, target, s, Finish(w)), v)
  {
    FinishSettles(p, s, w);
  }

  lemma FinishToken(p: Plan, tasks: seq<Task>, target: bool, s: Sys, w: nat, g: nat)
    requires PlanOk(p) && Shape(p, s) && |tasks| == |p.owner| && Enabled(p, target, s, Finish(w))
    requires g < |p.groups| && Shape(p, Apply(p, tasks, target, s, Finish(w)))
    ensures Published(p, Apply(p, tasks, target, s, Finish(w)), g) <==> Published(p, s, g)
  {
    FinishSettles(p, s, w);
    var wk := s.workers[w];
    var t := Current(p, s, w);
    var publisher := p.groups[g].Publisher();
    assert p.tables[p.owner[publisher]][p.pos[publisher]] == publisher;
    if publisher == t {
      assert p.slots[g] in p.stores[t];
      assert p.stores[t][..wk.pc.k] == p.stores[t];
    }
  }

  lemma InvFinish(p: Plan, tasks: seq<Task>, target: bool, store0: Store, s: Sys, w: nat)
    requires Inv(p, tasks, target, store0, s) && Enabled(p, target, s, Finish(w))
    ensures Inv(p, tasks, target, store0, Apply(p, tasks, target, s, Finish(w)))
  {
    var s2 := Apply(p, tasks, target, s, Finish(w));
    ShapeStep(p, tasks, target, s, Finish(w));
    forall v | 0 <= v < |s2.workers| ensures WorkerLogged(p, s2, v) && WorkerReady(p, target, s2, v) {
      FinishWorkers(p, tasks, target, s, w, v);
    }
    forall g | 0 <= g < |p.groups| ensures s2.tokens[p.slots[g]] == target <==> Published(p, s2, g) {
      FinishToken(p, tasks, target, s, w, g);
    }
  }

  /** Every step of every worker keeps the invariant. */
  lemma InvStep(p: Plan, tasks: seq<Task>, target: bool, store0: Store, s: Sys, a: Action)
    requires Inv(p, tasks, target, store0, s) && Enabled(p, target, s, a)
    ensures Inv(p, tasks, target, store0, Apply(p, tasks, target, s, a))
  {
    match a {
      case Body(w) => InvBody(p, tasks, target, store0, s, w);
      case Put(w) => InvPut(p, tasks, target, store0, s, w);
      case Finish(w) => InvFinish(p, tasks, target, store0, s, w);
      case _ => InvQuietStep(p, tasks, target, store0, s, a);
    }
  }
}
