/** The emitted dense runtime with its arrays updated in place: token stores, worker heads
    and done bits, the serial fallback, and the re-phasing of tokens
    (src/cppEmitterDenseExec.cpp, stepDenseLookaheadTail and stepDense). */
module DenseRuntime {
  import opened DenseDag
  import opened DensePlan
  import opened DenseTask
  import opened DenseProtocol
  import opened DenseCycle

  /** Tokens flip between cycles: the value published in cycle c. */
  function Target(cycle: nat): bool {
    cycle % 2 == 0
  }

  /** A worker whose tokens are all at target reaches the body. */
  lemma {:induction false} LoadsSucceed(p: Plan, tasks: seq<Task>, target: bool, store0: Store, s: Sys, w: nat)
    requires Inv(p, tasks, target, store0, s) && w < |s.workers| && s.workers[w].pc.Check?
    requires var t := Current(p, s, w);
             forall j :: 0 <= j < |p.waits[t]| ==> p.waits[t][j] < |s.tokens| && s.tokens[p.waits[t][j]] == target
    ensures Inv(p, tasks, target, store0, s.(workers := s.workers[w := s.workers[w].(pc := Busy(s.workers[w].pc.pos))]))
    decreases PcWeight(p, s, w)
  {
    var a := NextAction(p, target, s, w);
    InvStep(p, tasks, target, store0, s, a);
    if a.Load? {
      var s2 := Apply(p, tasks, target, s, a);
      LoadsSucceed(p, tasks, target, store0, s2, w);
      var busy := s.workers[w].(pc := Busy(s.workers[w].pc.pos));
      assert s2.workers[w := busy] == s.workers[w := busy];
    }
  }

  /** The head of worker w has a token that is not at target. */
  ghost predicate HeadBlocked(p: Plan, target: bool, s: Sys, w: nat)
    requires PlanOk(p) && w < |p.tables| && w < |s.workers|
  {
    var head := s.workers[w].head;
    head < |p.tables[w]| ==> TokenMissing(p, target, s, p.tables[w][head])
  }

  ghost predicate TokenMissing(p: Plan, target: bool, s: Sys, t: nat)
    requires PlanOk(p) && t < |p.owner|
  {
    exists j :: 0 <= j < |p.waits[t]| && p.waits[t][j] < |s.tokens| && s.tokens[p.waits[t][j]] != target
  }

  /** Position j is the head of worker w or inside its window. */
  ghost predicate InSight(p: Plan, s: Sys, w: nat, j: nat)
    requires PlanOk(p) && w < |p.tables| && w < |s.workers|
  {
    s.workers[w].head <= j < |p.tables[w]| && j <= s.workers[w].head + p.window
  }

  /** Position j has not run, its local prerequisites have, and no token is missing. */
  ghost predicate Runnable(p: Plan, target: bool, s: Sys, w: nat, j: nat)
    requires PlanOk(p) && w < |p.tables| && w < |s.workers|
  {
    && InSight(p, s, w, j) && j !in s.workers[w].done && !TokenMissing(p, target, s, p.tables[w][j])
    && (j == s.workers[w].head
        || forall q :: q in p.local[p.tables[w][j]] ==> q < s.workers[w].head || q in s.workers[w].done)
  }

  /** While the cycle is not over, some worker can run a task. */
  lemma SomebodyRuns(p: Plan, tasks: seq<Task>, target: bool, store0: Store, s: Sys)
    requires Inv(p, tasks, target, store0, s) && !Done(p, s)
    requires forall w :: 0 <= w < |s.workers| ==> s.workers[w].pc.Scan?
    ensures exists w :: 0 <= w < |s.workers| && !HeadBlocked(p, target, s, w)
  {
    var u := LeastMissing(s.log, 0, |p.owner|);
    assert u < |p.owner| by {
      var w :| 0 <= w < |s.workers| && s.workers[w].head != |p.tables[w]|;
      assert WorkerLogged(p, s, w) && WorkerShape(p, w, s.workers[w]);
      assert p.tables[w][s.workers[w].head] !in s.log;
    }
    LeastTaskIsRunnable(p, tasks, target, store0, s, u);
    assert !HeadBlocked(p, target, s, p.owner[u]);
  }

  class Runtime {
    const plan: Plan
    const tasks: seq<Task>
    const tokens: array<bool>
    const heads: array<nat>
    const done: array<set<nat>>
    var store: Store
    var primed: bool
    var cycles: nat
    /** Bodies ended in this cycle, in order. */
    ghost var log: seq<nat>

    ghost predicate Valid()
      reads this
    {
      && PlanOk(plan) && |tasks| == |plan.owner|
      && tokens.Length == plan.slotCount && heads.Length == done.Length == |plan.tables|
    }

    /** The state of the cycle with worker w at pc and all others scanning. */
    ghost function View(w: nat, pc: Pc): Sys
      reads this, tokens, heads, done
      requires heads.Length == done.Length
    {
      Sys(store, tokens[..],
          seq(heads.Length, v requires 0 <= v < heads.Length && heads.Length == done.Length reads heads, done =>
        Worker(heads[v], done[v], if v == w then pc else Scan)), log)
    }

    ghost predicate InCycle(target: bool, store0: Store, w: nat, pc: Pc)
      reads this, tokens, heads, done
    {
      Valid() && Inv(plan, tasks, target, store0, View(w, pc))
    }

    constructor (p: Plan, ts: seq<Task>, initial: Store)
      requires PlanOk(p) && |ts| == |p.owner|
      ensures Valid() && fresh(tokens) && fresh(heads) && fresh(done)
      ensures plan == p && tasks == ts && store == initial && !primed && cycles == 0
    {
      plan, tasks, store, primed, cycles, log := p, ts, initial, false, 0, [];
      tokens := new bool[p.slotCount](_ => false);
      heads := new nat[|p.tables|](_ => 0);
      done := new set<nat>[|p.tables|](_ => {});
    }

    /** Conjunction of the acquire loads of one entry. */
    method AllAtTarget(slots: seq<nat>, target: bool) returns (ready: bool)
      requires forall j :: 0 <= j < |slots| ==> slots[j] < tokens.Length
      ensures ready <==> forall j :: 0 <= j < |slots| ==> tokens[slots[j]] == target
    {
      ready := true;
      for j := 0 to |slots|
        invariant ready <==> forall i :: 0 <= i < j ==> tokens[slots[i]] == target
      {
        ready := ready && tokens[slots[j]] == target;
      }
    }

    /** Body, release stores, and the head or done-bit update of entry `pos`. */
    method RunEntry(w: nat, pos: nat, target: bool, ghost store0: Store)
      requires Valid() && w < |plan.tables| && pos < |plan.tables[w]| && InCycle(target, store0, w, Busy(pos))
      modifies this`store, this`log, tokens, heads, done
      ensures InCycle(target, store0, w, Scan)
      ensures log == old(log) + [plan.tables[w][pos]]
    {
      ghost var s := View(w, Busy(pos));
      var t := plan.tables[w][pos];
      InvStep(plan, tasks, target, store0, s, Body(w));
      store := tasks[t].body(store);
      log := log + [t];
      assert View(w, Publish(pos, 0)).workers == Apply(plan, tasks, target, s, Body(w)).workers;
      PublishAll(w, pos, target, store0);
      CompleteEntry(w, pos, target, store0);
    }

    method PublishAll(w: nat, pos: nat, target: bool, ghost store0: Store)
      requires Valid() && w < |plan.tables| && pos < |plan.tables[w]| && InCycle(target, store0, w, Publish(pos, 0))
      modifies tokens
      ensures InCycle(target, store0, w, Publish(pos, |plan.stores[plan.tables[w][pos]]|))
    {
      for k := 0 to |plan.stores[plan.tables[w][pos]]|
        invariant InCycle(target, store0, w, Publish(pos, k))
      {
        PutOne(w, pos, k, target, store0);
      }
    }

    method PutOne(w: nat, pos: nat, k: nat, target: bool, ghost store0: Store)
      requires Valid() && w < |plan.tables| && pos < |plan.tables[w]| && InCycle(target, store0, w, Publish(pos, k))
      requires k < |plan.stores[plan.tables[w][pos]]|
      modifies tokens
      ensures InCycle(target, store0, w, Publish(pos, k + 1))
    {
      ghost var s := View(w, Publish(pos, k));
      var slot := plan.stores[plan.tables[w][pos]][k];
      InvStep(plan, tasks, target, store0, s, Put(w));
      LinkInRange(plan, plan.tables[w][pos], slot);
      tokens[slot] := target;
      assert View(w, Publish(pos, k + 1)).workers == Apply(plan, tasks, target, s, Put(w)).workers;
    }

    /** Steps the head over the entry that just ran and over set done bits, clearing them. */
    method AdvanceHead(w: nat, count: nat)
      requires heads.Length == done.Length && w < heads.Length && heads[w] < count
      requires forall i :: i in done[w] ==> heads[w] < i
      modifies heads, done
      ensures var h := Advance(old(heads[w]) + 1, old(done[w]), count);
              heads[..] == old(heads[..])[w := h] && done[..] == old(done[..])[w := AtLeast(old(done[w]), h)]
    {
      var head := heads[w] + 1;
      ghost var done0, rest := done[w], done[..];
      while head < count && head in done[w]
        invariant heads[w] + 1 <= head <= count && heads[..] == old(heads[..])
        invariant Advance(head, done0, count) == Advance(heads[w] + 1, done0, count)
        invariant done[w] == AtLeast(done0, head)
        invariant forall v :: 0 <= v < done.Length && v != w ==> done[v] == rest[v]
      {
        done[w] := done[w] - {head};
        head := head + 1;
      }
      heads[w] := head;
    }

    method CompleteEntry(w: nat, pos: nat, target: bool, ghost store0: Store)
      requires Valid() && w < |plan.tables| && pos < |plan.tables[w]|
      requires InCycle(target, store0, w, Publish(pos, |plan.stores[plan.tables[w][pos]]|))
      modifies heads, done
      ensures InCycle(target, store0, w, Scan)
    {
      ghost var s := View(w, Publish(pos, |plan.stores[plan.tables[w][pos]]|));
      assert s.workers[w].head == heads[w] && s.workers[w].done == done[w] && WorkerShape(plan, w, s.workers[w]);
      InvStep(plan, tasks, target, store0, s, Finish(w));
      if pos == heads[w] {
        AdvanceHead(w, |plan.tables[w]|);
      } else {
        done[w] := done[w] + {pos};
      }
      ghost var s2 := Apply(plan, tasks, target, s, Finish(w));
      assert s2.workers[w] == Worker(heads[..][w], done[..][w], Scan);
      assert View(w, Scan).workers == s2.workers;
    }

    /** Tries one entry whose place in the table allows it to run. */
    method TryEntry(w: nat, pos: nat, target: bool, ghost store0: Store) returns (ran: bool)
      requires Valid() && w < |plan.tables| && pos < |plan.tables[w]| && InCycle(target, store0, w, Scan)
      requires Enabled(plan, target, View(w, Scan), Pick(w, pos))
      modifies this`store, this`log, tokens, heads, done
      ensures InCycle(target, store0, w, Scan)
      ensures ran ==> log == old(log) + [plan.tables[w][pos]]
      ensures ran <==> !old(TokenMissing(plan, target, View(w, Scan), plan.tables[w][pos]))
      ensures !ran ==>
                View(w, Scan) == old(View(w, Scan)) && TokenMissing(plan, target, View(w, Scan), plan.tables[w][pos])
    {
      var t := plan.tables[w][pos];
      forall j | 0 <= j < |plan.waits[t]| ensures plan.waits[t][j] < tokens.Length {
        LinkInRange(plan, t, plan.waits[t][j]);
      }
      ran := AllAtTarget(plan.waits[t], target);
      if ran {
        ghost var s := View(w, Scan);
        InvStep(plan, tasks, target, store0, s, Pick(w, pos));
        ghost var picked := Apply(plan, tasks, target, s, Pick(w, pos));
        LoadsSucceed(plan, tasks, target, store0, picked, w);
        assert View(w, Busy(pos)) == picked.(workers := picked.workers[w := picked.workers[w].(pc := Busy(pos))]);
        RunEntry(w, pos, target, store0);
      }
    }

    /** One round of the loop of a worker: its head if that is ready, otherwise the first
        ready entry of the window; false when it would have to spin. */
    method WorkerTurn(w: nat, target: bool, ghost store0: Store) returns (ran: bool, ghost at: nat)
      requires Valid() && w < |plan.tables| && InCycle(target, store0, w, Scan)
      modifies this`store, this`log, tokens, heads, done
      ensures InCycle(target, store0, w, Scan)
      ensures ran ==> Runnable(plan, target, old(View(w, Scan)), w, at) && log == old(log) + [plan.tables[w][at]]
      ensures ran ==> forall i: nat :: i < at ==> !Runnable(plan, target, old(View(w, Scan)), w, i)
      ensures !ran ==> View(w, Scan) == old(View(w, Scan)) && HeadBlocked(plan, target, View(w, Scan), w)
      ensures !ran ==> forall i: nat :: !Runnable(plan, target, View(w, Scan), w, i)
    {
      var head, count := heads[w], |plan.tables[w]|;
      at := head;
      ghost var s := View(w, Scan);
      assert s.workers[w] == Worker(head, done[w], Scan) && WorkerShape(plan, w, s.workers[w]);
      if head >= count {
        return false, head;
      }
      ran := TryEntry(w, head, target, store0);
      if ran {
        return;
      }
      assert View(w, Scan).workers[w] == Worker(heads[w], done[w], Scan);
      var scanEnd := if head + 1 + plan.window > count then count else head + 1 + plan.window;
      var j := head + 1;
      while j < scanEnd
        invariant InCycle(target, store0, w, Scan) && View(w, Scan) == s && s.workers[w] == Worker(head, done[w], Scan)
        invariant head < j && forall i: nat :: i < j ==> !Runnable(plan, target, s, w, i)
        decreases scanEnd - j
      {
        var candidate := plan.tables[w][j];
        if j !in done[w] && forall q :: q in plan.local[candidate] ==> q < head || q in done[w] {
          ran := TryEntry(w, j, target, store0);
          at := j;
          if ran {
            return;
          }
          assert View(w, Scan).workers[w] == Worker(heads[w], done[w], Scan);
        }
        j := j + 1;
      }
      ran := false;
    }

    lemma ScanIsShared(v: nat, w: nat)
      requires heads.Length == done.Length
      ensures View(v, Scan) == View(w, Scan)
    {
    }

    /** Every worker takes one turn; while the cycle is not over, somebody runs a task. */
    method Round(target: bool, ghost store0: Store)
      requires Valid() && InCycle(target, store0, 0, Scan) && !Done(plan, View(0, Scan))
      modifies this`store, this`log, tokens, heads, done
      ensures InCycle(target, store0, 0, Scan) && |log| > |old(log)|
    {
      ghost var before := View(0, Scan);
      for w := 0 to |plan.tables|
        invariant InCycle(target, store0, 0, Scan) && |log| >= |old(log)|
        invariant |log| == |old(log)| ==>
                    View(0, Scan) == before && forall v :: 0 <= v < w ==> HeadBlocked(plan, target, before, v)
      {
        ScanIsShared(0, w);
        var ran, at := WorkerTurn(w, target, store0);
        ScanIsShared(0, w);
      }
      if |log| == |old(log)| {
        SomebodyRuns(plan, tasks, target, store0, before);
      }
    }

    /** A pooled cycle ends with the variables of the serial one and all live tokens flipped. */
    method PooledCycle(target: bool, ghost dag: Dag)
      requires Valid() && LiveTokens(plan, tokens[..], !target)
      requires Forward(dag) && Covers(plan, dag) && ConflictsOrdered(dag, tasks)
      requires forall i :: 0 <= i < |tasks| ==> TaskOk(tasks[i])
      modifies this`store, this`log, tokens, heads, done
      ensures Valid() && LiveTokens(plan, tokens[..], target)
      ensures store == Run(tasks, Upto(|tasks|), old(store)) && IsPermutation(log, |tasks|)
    {
      log := [];
      for w := 0 to |plan.tables|
        invariant Valid() && tokens[..] == old(tokens[..]) && store == old(store) && log == []
        invariant forall v :: 0 <= v < w ==> heads[v] == 0 && done[v] == {}
      {
        heads[w], done[w] := 0, {};
      }
      ghost var store0 := old(store);
      assert View(0, Scan).workers == InitSys(plan, store0, tokens[..]).workers;
      InitInv(plan, tasks, target, store0, tokens[..]);
      var finished := |plan.tables| == 0 || AllAtEnd();
      while !finished
        invariant InCycle(target, store0, 0, Scan) && (finished <==> Done(plan, View(0, Scan)))
        decreases |plan.owner| - |log|, !finished
      {
        Round(target, store0);
        LogLength(View(0, Scan).log, |plan.owner|);
        finished := AllAtEnd();
      }
      ghost var s := View(0, Scan);
      DoneLog(plan, dag, tasks, target, store0, s);
      SerialEquivalence(tasks, s.log, |tasks|, store0);
      DoneTokens(plan, tasks, target, store0, s);
    }

    function AllAtEnd(): (end: bool)
      reads this, tokens, heads, done
      requires Valid()
      ensures Shape(plan, View(0, Scan)) ==> (end <==> Done(plan, View(0, Scan)))
    {
      forall w :: 0 <= w < |plan.tables| ==> heads[w] == |plan.tables[w]|
    }

    method SerialCycle()
      requires Valid()
      modifies this`store
      ensures Valid() && store == Run(tasks, Upto(|tasks|), old(store))
    {
      for t := 0 to |tasks|
        invariant Valid() && store == Run(tasks, Upto(t), old(store))
      {
        RunConcat(tasks, Upto(t), [t], old(store));
        assert Upto(t + 1) == Upto(t) + [t];
        store := tasks[t].body(store);
      }
    }

    /** Between cycles: once primed, the live tokens hold the opposite of the next target. */
    ghost predicate PhaseOk()
      reads this, tokens
    {
      Valid() && (primed ==> LiveTokens(plan, tokens[..], !Target(cycles)))
    }

    /** Puts every live token into the phase opposite to this cycle's target. */
    method Rephase()
      requires Valid()
      modifies this`primed, tokens
      ensures Valid() && primed && LiveTokens(plan, tokens[..], !Target(cycles))
    {
      var value := if cycles % 2 == 0 then false else true;
      for i := 0 to |plan.slots|
        invariant Valid() && forall g :: 0 <= g < i ==> tokens[plan.slots[g]] == value
      {
        tokens[plan.slots[i]] := value;
      }
      primed := true;
    }

    /** One simulated cycle. Whether the pool can be used is decided anew in each cycle; the
        variables end the same either way, and the token phase is ready for either kind of
        cycle to follow. */
    method StepDense(reset: Store -> Store, usePool: bool, ghost dag: Dag)
      requires PhaseOk() && Forward(dag) && Covers(plan, dag) && ConflictsOrdered(dag, tasks)
      requires forall i :: 0 <= i < |tasks| ==> TaskOk(tasks[i])
      modifies this, tokens, heads, done
      ensures PhaseOk() && cycles == old(cycles) + 1 && primed == usePool
      ensures store == Run(tasks, Upto(|tasks|), reset(old(store)))
      ensures usePool ==> LiveTokens(plan, tokens[..], Target(old(cycles)))
      ensures !usePool ==> tokens[..] == old(tokens[..])
    {
      store := reset(store);
      if usePool {
        if !primed {
          Rephase();
        }
        PooledCycle(Target(cycles), dag);
      } else {
        primed := false;
        SerialCycle();
      }
      cycles := cycles + 1;
    }
  }
}
