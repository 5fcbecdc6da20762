/** What wrong counters do: a finished cycle keeps the order of dependent tasks if and only if
    its counters were ready (src/cppEmitterDenseExec.cpp, the counter wait of a worker). */
module DenseCounterOrder {
  import opened DenseDag
  import opened DenseTask
  import opened DenseCounter
  import opened DenseCounterRuns

  /** Whenever a task is entered, all its predecessors have signalled. */
  ghost predicate EntryInOrder(p: CPlan, even: bool, s: CSys, a: CAction)
    requires CPlanOk(p) && CShape(p, s) && CEnabled(p, even, s, a)
  {
    a.Enter? ==> Signalled(p, s, HeadTask(p, s, a.w)) == Preds(p, HeadTask(p, s, a.w))
  }

  ghost predicate InOrder(p: CPlan, tasks: seq<Task>, even: bool, s: CSys, acts: seq<CAction>)
    requires CPlanOk(p) && CShape(p, s) && |tasks| == |p.owner| && CRuns(p, tasks, even, s, acts)
    decreases |acts|
  {
    acts == [] ||
    (CShapeStep(p, tasks, even, s, acts[0]);
     EntryInOrder(p, even, s, acts[0]) && InOrder(p, tasks, even, CApply(p, tasks, even, s, acts[0]), acts[1..]))
  }

  /** Where the counter of t has to start. */
  ghost function Origin(p: CPlan, even: bool, t: nat): nat {
    if even then 0 else |Preds(p, t)|
  }

  /** The goal is reached after all signals exactly from there. */
  lemma FullShift(p: CPlan, even: bool, c: nat, t: nat)
    requires c < WORD && |Preds(p, t)| < WORD
    ensures Shift(even, c, |Preds(p, t)|) == Goal(p, even, t) <==> c == Origin(p, even, t)
  {
  }

  lemma PartShift(p: CPlan, even: bool, k: nat, t: nat)
    requires k <= |Preds(p, t)| < WORD
    ensures Shift(even, Origin(p, even, t), k) == Goal(p, even, t) <==> k == |Preds(p, t)|
  {
  }

  lemma WholeSubset(a: set<nat>, b: set<nat>)
    requires a <= b && |a| == |b|
    ensures a == b
  {
    assert b == a + (b - a);
  }

  // ----- ready counters keep the order

  lemma ReadyEntry(p: CPlan, even: bool, counters: seq<nat>, s: CSys, a: CAction)
    requires CPlanOk(p) && CShape(p, s) && |counters| == |p.owner| && CReady(p, even, counters)
    requires Moved(p, even, counters, s) && CEnabled(p, even, s, a)
    ensures EntryInOrder(p, even, s, a)
  {
    if a.Enter? {
      var t := HeadTask(p, s, a.w);
      PredsBound(p, t);
      SignalledSize(p, s, t);
      PartShift(p, even, |Signalled(p, s, t)|, t);
      WholeSubset(Signalled(p, s, t), Preds(p, t));
    }
  }

  lemma {:induction false} ReadyRuns(p: CPlan, tasks: seq<Task>, even: bool, counters: seq<nat>, s: CSys,
                                     acts: seq<CAction>)
    requires CPlanOk(p) && CShape(p, s) && |tasks| == |p.owner| == |counters| && CReady(p, even, counters)
    requires Moved(p, even, counters, s) && CRuns(p, tasks, even, s, acts)
    ensures InOrder(p, tasks, even, s, acts)
    decreases |acts|
  {
    if acts != [] {
      ReadyEntry(p, even, counters, s, acts[0]);
      MovedStep(p, tasks, even, counters, s, acts[0]);
      ReadyRuns(p, tasks, even, counters, CApply(p, tasks, even, s, acts[0]), acts[1..]);
    }
  }

  // ----- wrong ones do not

  lemma OrderedEntry(p: CPlan, even: bool, counters: seq<nat>, s: CSys, a: CAction, t: nat)
    requires CPlanOk(p) && CShape(p, s) && |counters| == |p.owner| && Moved(p, even, counters, s)
    requires CEnabled(p, even, s, a) && EntryInOrder(p, even, s, a) && a.Enter? && HeadTask(p, s, a.w) == t
    requires t < |p.owner| && counters[t] < WORD
    ensures counters[t] == Origin(p, even, t)
  {
    PredsBound(p, t);
    FullShift(p, even, counters[t], t);
  }

  /** A step of the worker of t enters t or leaves it to be entered. */
  lemma EnteredOrNot(p: CPlan, tasks: seq<Task>, even: bool, s: CSys, a: CAction, t: nat)
    requires CPlanOk(p) && CShape(p, s) && |tasks| == |p.owner| && CEnabled(p, even, s, a)
    requires t < |p.owner| && NotEntered(p, s, t)
    ensures CShape(p, CApply(p, tasks, even, s, a))
    ensures NotEntered(p, CApply(p, tasks, even, s, a), t) || (a.Enter? && HeadTask(p, s, a.w) == t)
  {
    CShapeStep(p, tasks, even, s, a);
    assert p.tables[p.owner[t]][p.pos[t]] == t;
  }

  lemma {:induction false} OrderedRuns(p: CPlan, tasks: seq<Task>, even: bool, counters: seq<nat>, s: CSys,
                                       acts: seq<CAction>, t: nat)
    requires CPlanOk(p) && CShape(p, s) && |tasks| == |p.owner| == |counters| && Moved(p, even, counters, s)
    requires CRuns(p, tasks, even, s, acts) && CDone(p, CAfter(p, tasks, even, s, acts))
    requires InOrder(p, tasks, even, s, acts) && t < |p.owner| && counters[t] < WORD && NotEntered(p, s, t)
    ensures counters[t] == Origin(p, even, t)
    decreases |acts|
  {
    assert p.tables[p.owner[t]][p.pos[t]] == t;
    if acts != [] && acts[0].Enter? && HeadTask(p, s, acts[0].w) == t {
      OrderedEntry(p, even, counters, s, acts[0], t);
    } else if acts != [] {
      EnteredOrNot(p, tasks, even, s, acts[0], t);
      MovedStep(p, tasks, even, counters, s, acts[0]);
      OrderedRuns(p, tasks, even, counters, CApply(p, tasks, even, s, acts[0]), acts[1..], t);
    }
  }

  /** In a finished cycle every task is entered after all its predecessors have signalled if and
      only if the cycle found its counters ready. */
  lemma OrderedIffReady(p: CPlan, tasks: seq<Task>, even: bool, store0: Store, counters: seq<nat>, acts: seq<CAction>)
    requires CPlanOk(p) && |tasks| == |p.owner| == |counters| && forall t :: 0 <= t < |counters| ==> counters[t] < WORD
    requires CShape(p, CInit(p, store0, counters)) && CRuns(p, tasks, even, CInit(p, store0, counters), acts)
    requires CDone(p, CAfter(p, tasks, even, CInit(p, store0, counters), acts))
    ensures InOrder(p, tasks, even, CInit(p, store0, counters), acts) <==> CReady(p, even, counters)
  {
    var s := CInit(p, store0, counters);
    MovedInit(p, even, store0, counters);
    if CReady(p, even, counters) {
      ReadyRuns(p, tasks, even, counters, s, acts);
    }
    if InOrder(p, tasks, even, s, acts) {
      forall t | 0 <= t < |p.owner| ensures counters[t] == Origin(p, even, t) {
        OrderedRuns(p, tasks, even, counters, s, acts, t);
      }
    }
  }

  // ----- whole histories

  ghost predicate CycleInOrder(p: CPlan, tasks: seq<Task>, m: CMachine, c: CCycle)
    requires CPlanOk(p) && |tasks| == |p.owner| && MachineOk(p, m) && CLegal(p, tasks, m, c)
  {
    CInitShape(p, c.entry(m.store), m.counters);
    c.CPooled? ==> InOrder(p, tasks, EvenCycle(m.cycles), Posted(p, m, c.entry), c.acts)
  }

  ghost predicate HistoryInOrder(p: CPlan, tasks: seq<Task>, m: CMachine, cs: seq<CCycle>)
    requires CPlanOk(p) && |tasks| == |p.owner| && MachineOk(p, m) && CLegalRun(p, tasks, m, cs)
    decreases |cs|
  {
    cs == [] || (CycleInOrder(p, tasks, m, cs[0]) && HistoryInOrder(p, tasks, CNext(p, tasks, m, cs[0]), cs[1..]))
  }

  lemma CycleOrderedIff(p: CPlan, tasks: seq<Task>, m: CMachine, c: CCycle)
    requires CPlanOk(p) && |tasks| == |p.owner| && MachineOk(p, m) && CLegal(p, tasks, m, c) && c.CPooled?
    ensures CycleInOrder(p, tasks, m, c) <==> ReadyFor(p, m.cycles, m.counters)
  {
    CInitShape(p, c.entry(m.store), m.counters);
    OrderedIffReady(p, tasks, EvenCycle(m.cycles), c.entry(m.store), m.counters, c.acts);
  }

  lemma {:induction false} OrderedIffAllReady(p: CPlan, tasks: seq<Task>, m: CMachine, cs: seq<CCycle>)
    requires CPlanOk(p) && |tasks| == |p.owner| && MachineOk(p, m) && CLegalRun(p, tasks, m, cs)
    ensures HistoryInOrder(p, tasks, m, cs) <==> AllReady(p, tasks, m, cs)
    decreases |cs|
  {
    if cs != [] {
      OrderedIffAllReady(p, tasks, CNext(p, tasks, m, cs[0]), cs[1..]);
      if cs[0].CPooled? {
        CycleOrderedIff(p, tasks, m, cs[0]);
      }
    }
  }

  /** Over every history from cycle 0: in every pooled cycle every task is entered after all its
      predecessors have signalled, if and only if an even number of serial cycles precedes each
      pooled cycle or no task has a predecessor; and then the variables are the serial ones. */
  lemma OrderKeptIff(p: CPlan, dag: Dag, tasks: seq<Task>, m: CMachine, cs: seq<CCycle>)
    requires CSound(p, dag, tasks) && MachineOk(p, m) && Fresh(p, m) && CLegalRun(p, tasks, m, cs)
    ensures HistoryInOrder(p, tasks, m, cs) <==> EvenBefore(cs, 0) || !HasDependency(p)
    ensures HistoryInOrder(p, tasks, m, cs) ==> CRunOf(p, tasks, m, cs).store == CSerialSteps(tasks, m.store, cs)
  {
    OrderedIffAllReady(p, tasks, m, cs);
    SoundCyclesAreSerial(p, dag, tasks);
    if AllReady(p, tasks, m, cs) {
      ReadyRunsAreSerial(p, tasks, m, cs);
    }
    CounterRunsRightIff(p, dag, tasks, m, cs);
  }
}
