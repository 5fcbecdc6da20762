/** Whole simulations on the dependency counters: any mix of pooled and serial cycles, each
    pooled cycle under any interleaving, whatever the counters it finds
    (src/cppEmitterDenseExec.cpp, stepDense without owner-ready flags). */
module DenseCounterRuns {
  import opened DenseDag
  import opened DenseLayout
  import opened DenseTask
  import opened DenseCounter

  // ----- what a cycle does to counters in any phase

  /** A counter after k signals of a cycle that found it at c. */
  function Shift(even: bool, c: int, k: int): nat {
    (if even then c + k else c - k) % WORD
  }

  lemma ShiftOne(even: bool, c: int, k: int)
    ensures Bump(even, Shift(even, c, k)) == Shift(even, c, k + 1)
  {
    var x := if even then c + k else c - k;
    assert x == x / WORD * WORD + x % WORD;
  }

  /** Each counter has moved by the number of predecessors that have signalled. */
  ghost predicate Moved(p: CPlan, even: bool, start: seq<nat>, s: CSys)
    requires CPlanOk(p) && CShape(p, s) && |start| == |p.owner|
  {
    forall t :: 0 <= t < |p.owner| ==> s.counters[t] == Shift(even, start[t], |Signalled(p, s, t)|)
  }

  lemma MovedStep(p: CPlan, tasks: seq<Task>, even: bool, start: seq<nat>, s: CSys, a: CAction)
    requires CPlanOk(p) && CShape(p, s) && |tasks| == |p.owner| == |start| && CEnabled(p, even, s, a)
    requires Moved(p, even, start, s)
    ensures CShape(p, CApply(p, tasks, even, s, a)) && Moved(p, even, start, CApply(p, tasks, even, s, a))
  {
    CShapeStep(p, tasks, even, s, a);
    var s2 := CApply(p, tasks, even, s, a);
    forall t | 0 <= t < |p.owner| ensures s2.counters[t] == Shift(even, start[t], |Signalled(p, s2, t)|) {
      if a.Signal? {
        SignalledStep(p, tasks, even, s, a.w, t);
        ShiftOne(even, start[t], |Signalled(p, s, t)|);
      } else {
        QuietSignalled(p, tasks, even, s, a, t);
      }
    }
  }

  lemma {:induction false} MovedRun(p: CPlan, tasks: seq<Task>, even: bool, start: seq<nat>, s: CSys,
                                    acts: seq<CAction>)
    requires CPlanOk(p) && CShape(p, s) && |tasks| == |p.owner| == |start|
    requires Moved(p, even, start, s) && CRuns(p, tasks, even, s, acts)
    ensures Moved(p, even, start, CAfter(p, tasks, even, s, acts))
    decreases |acts|
  {
    if acts != [] {
      MovedStep(p, tasks, even, start, s, acts[0]);
      MovedRun(p, tasks, even, start, CApply(p, tasks, even, s, acts[0]), acts[1..]);
    }
  }

  lemma MovedInit(p: CPlan, even: bool, store0: Store, counters: seq<nat>)
    requires CPlanOk(p) && |counters| == |p.owner| && forall t :: 0 <= t < |counters| ==> counters[t] < WORD
    ensures CShape(p, CInit(p, store0, counters)) && Moved(p, even, counters, CInit(p, store0, counters))
  {
    CInitShape(p, store0, counters);
    var s := CInit(p, store0, counters);
    forall t | 0 <= t < |p.owner| ensures s.counters[t] == Shift(even, counters[t], |Signalled(p, s, t)|) {
      assert Signalled(p, s, t) == {};
    }
  }

  /** A finished cycle moves every counter by its dependency count, whatever it started at. */
  lemma CycleMoves(p: CPlan, tasks: seq<Task>, even: bool, store0: Store, counters: seq<nat>, acts: seq<CAction>)
    requires CPlanOk(p) && |tasks| == |p.owner| == |counters| && forall t :: 0 <= t < |counters| ==> counters[t] < WORD
    requires CShape(p, CInit(p, store0, counters)) && CRuns(p, tasks, even, CInit(p, store0, counters), acts)
    requires CDone(p, CAfter(p, tasks, even, CInit(p, store0, counters), acts))
    ensures var s := CAfter(p, tasks, even, CInit(p, store0, counters), acts);
            forall t :: 0 <= t < |p.owner| ==> s.counters[t] == Shift(even, counters[t], |Preds(p, t)|)
  {
    var s0 := CInit(p, store0, counters);
    MovedInit(p, even, store0, counters);
    MovedRun(p, tasks, even, counters, s0, acts);
    var s := CAfter(p, tasks, even, s0, acts);
    forall t | 0 <= t < |p.owner| ensures s.counters[t] == Shift(even, counters[t], |Preds(p, t)|) {
      forall u | u in Preds(p, t) ensures HasSignalled(p, s, u, t) {
        assert p.pos[u] < |p.tables[p.owner[u]]|;
      }
      assert Signalled(p, s, t) == Preds(p, t);
    }
  }

  // ----- histories

  /** `entry` is what happens to the variables before the tasks run. A pooled cycle comes with
      the steps its workers took. */
  datatype CCycle = CSerial(entry: Store -> Store) | CPooled(entry: Store -> Store, acts: seq<CAction>)

  datatype CMachine = CMachine(store: Store, counters: seq<nat>, cycles: nat)

  function EvenCycle(cycle: nat): bool {
    cycle % 2 == 0
  }

  ghost predicate MachineOk(p: CPlan, m: CMachine) {
    |m.counters| == |p.owner| && forall t :: 0 <= t < |m.counters| ==> m.counters[t] < WORD
  }

  function Posted(p: CPlan, m: CMachine, entry: Store -> Store): CSys {
    CInit(p, entry(m.store), m.counters)
  }

  /** A pooled cycle that can happen: its steps are enabled, whatever the counters, and bring
      every worker to the end of its table. */
  ghost predicate CLegal(p: CPlan, tasks: seq<Task>, m: CMachine, c: CCycle)
    requires CPlanOk(p) && |tasks| == |p.owner| && MachineOk(p, m)
  {
    match c
    case CSerial(_) => true
    case CPooled(entry, acts) =>
      CInitShape(p, entry(m.store), m.counters);
      && CRuns(p, tasks, EvenCycle(m.cycles), Posted(p, m, entry), acts)
      && CDone(p, CAfter(p, tasks, EvenCycle(m.cycles), Posted(p, m, entry), acts))
  }

  ghost function CNext(p: CPlan, tasks: seq<Task>, m: CMachine, c: CCycle): (m2: CMachine)
    requires CPlanOk(p) && |tasks| == |p.owner| && MachineOk(p, m) && CLegal(p, tasks, m, c)
    ensures MachineOk(p, m2) && m2.cycles == m.cycles + 1
  {
    match c
    case CSerial(entry) => CMachine(Run(tasks, Upto(|tasks|), entry(m.store)), m.counters, m.cycles + 1)
    case CPooled(entry, acts) =>
      CInitShape(p, entry(m.store), m.counters);
      CycleMoves(p, tasks, EvenCycle(m.cycles), entry(m.store), m.counters, acts);
      var s := CAfter(p, tasks, EvenCycle(m.cycles), Posted(p, m, entry), acts);
      CMachine(s.store, s.counters, m.cycles + 1)
  }

  ghost predicate CLegalRun(p: CPlan, tasks: seq<Task>, m: CMachine, cs: seq<CCycle>)
    requires CPlanOk(p) && |tasks| == |p.owner| && MachineOk(p, m)
    decreases |cs|
  {
    cs == [] || (CLegal(p, tasks, m, cs[0]) && CLegalRun(p, tasks, CNext(p, tasks, m, cs[0]), cs[1..]))
  }

  ghost function CRunOf(p: CPlan, tasks: seq<Task>, m: CMachine, cs: seq<CCycle>): (m2: CMachine)
    requires CPlanOk(p) && |tasks| == |p.owner| && MachineOk(p, m) && CLegalRun(p, tasks, m, cs)
    ensures MachineOk(p, m2) && m2.cycles == m.cycles + |cs|
    decreases |cs|
  {
    if cs == [] then m else CRunOf(p, tasks, CNext(p, tasks, m, cs[0]), cs[1..])
  }

  /** The variables when every cycle runs its tasks in id order. */
  function CSerialSteps(tasks: seq<Task>, store: Store, cs: seq<CCycle>): Store
    decreases |cs|
  {
    if cs == [] then store else CSerialSteps(tasks, Run(tasks, Upto(|tasks|), cs[0].entry(store)), cs[1..])
  }

  // ----- the exact residue

  /** Pooled cycles in even cycles minus those in odd ones. */
  function Balance(cs: seq<CCycle>, from: nat): int
    decreases |cs|
  {
    if cs == [] then 0
    else Balance(cs[1..], from + 1) + if cs[0].CSerial? then 0 else if EvenCycle(from) then 1 else -1
  }

  lemma ResidueStep(serial: bool, even: bool, c: int, c2: int, b: int, b2: int, q: int)
    requires c2 == if serial then c else Shift(even, c, q)
    requires b2 == b + if serial then 0 else if even then 1 else -1
    ensures (c2 + b * q) % WORD == (c + b2 * q) % WORD
  {
    if !serial {
      var x := if even then c + q else c - q;
      assert (b + 1) * q == b * q + q && (b + -1) * q == b * q - q;
      assert x == x / WORD * WORD + x % WORD;
      SameResidue(x % WORD + b * q, x + b * q, x / WORD);
    }
  }

  lemma SameResidue(x: int, y: int, k: int)
    requires y == x + k * WORD
    ensures x % WORD == y % WORD
  {
  }

  /** After any run of finished cycles, in whatever phase they found the counters, a counter
      has moved by its dependency count times the balance of the run, modulo 2^32. */
  lemma {:induction false} CounterResidue(p: CPlan, tasks: seq<Task>, m: CMachine, cs: seq<CCycle>, t: nat)
    requires CPlanOk(p) && |tasks| == |p.owner| && MachineOk(p, m) && CLegalRun(p, tasks, m, cs) && t < |p.owner|
    ensures CRunOf(p, tasks, m, cs).counters[t] == (m.counters[t] + Balance(cs, m.cycles) * |Preds(p, t)|) % WORD
    decreases |cs|
  {
    if cs != [] {
      var m2 := CNext(p, tasks, m, cs[0]);
      CounterResidue(p, tasks, m2, cs[1..], t);
      NextCounter(p, tasks, m, cs[0], t);
      ResidueStep(cs[0].CSerial?, EvenCycle(m.cycles), m.counters[t], m2.counters[t],
                  Balance(cs[1..], m.cycles + 1), Balance(cs, m.cycles), |Preds(p, t)|);
    }
  }

  lemma NextCounter(p: CPlan, tasks: seq<Task>, m: CMachine, c: CCycle, t: nat)
    requires CPlanOk(p) && |tasks| == |p.owner| && MachineOk(p, m) && CLegal(p, tasks, m, c) && t < |p.owner|
    ensures CNext(p, tasks, m, c).counters[t] ==
            if c.CSerial? then m.counters[t] else Shift(EvenCycle(m.cycles), m.counters[t], |Preds(p, t)|)
  {
    if c.CPooled? {
      CInitShape(p, c.entry(m.store), m.counters);
      CycleMoves(p, tasks, EvenCycle(m.cycles), c.entry(m.store), m.counters, c.acts);
    }
  }

  // ----- when the fallback is right

  ghost predicate HasDependency(p: CPlan) {
    exists t :: 0 <= t < |p.owner| && Preds(p, t) != {}
  }

  lemma ReadyIsOneSided(p: CPlan, counters: seq<nat>)
    requires HasDependency(p)
    ensures !(CReady(p, true, counters) && CReady(p, false, counters))
  {
    var t :| 0 <= t < |p.owner| && Preds(p, t) != {};
    var u :| u in Preds(p, t);
    assert |Preds(p, t)| != 0;
  }

  /** Every pooled cycle finds its counters away from their goals. */
  ghost predicate AllReady(p: CPlan, tasks: seq<Task>, m: CMachine, cs: seq<CCycle>)
    requires CPlanOk(p) && |tasks| == |p.owner| && MachineOk(p, m) && CLegalRun(p, tasks, m, cs)
    decreases |cs|
  {
    cs == [] ||
    ((cs[0].CPooled? ==> ReadyFor(p, m.cycles, m.counters)) && AllReady(p, tasks, CNext(p, tasks, m, cs[0]), cs[1..]))
  }

  function SerialCount(cs: seq<CCycle>): nat {
    if cs == [] then 0 else SerialCount(cs[1..]) + if cs[0].CSerial? then 1 else 0
  }

  /** An even number of serial cycles precedes every pooled one; `before` have been already. */
  predicate EvenBefore(cs: seq<CCycle>, before: nat)
    decreases |cs|
  {
    cs == [] ||
    ((cs[0].CPooled? ==> before % 2 == 0) && EvenBefore(cs[1..], Count(before, cs[0])))
  }

  /** The counters are as a pooled cycle of this number needs to find them. */
  ghost predicate ReadyFor(p: CPlan, cycle: nat, counters: seq<nat>) {
    if EvenCycle(cycle) then AtZero(p, counters) else AtCounts(p, counters)
  }

  /** The counters are ready, or exactly inverted after an odd number of serial cycles. */
  ghost predicate InPhase(p: CPlan, m: CMachine, before: nat) {
    ReadyFor(p, m.cycles + before, m.counters)
  }

  /** Serial cycles seen after one more cycle. */
  function Count(before: nat, c: CCycle): nat {
    if c.CSerial? then before + 1 else before
  }

  lemma SameParity(p: CPlan, a: nat, b: nat, counters: seq<nat>)
    requires a % 2 == b % 2
    ensures ReadyFor(p, a, counters) <==> ReadyFor(p, b, counters)
  {
  }

  /** What CounterCycleEqualsSerial says of one cycle. */
  ghost predicate CycleIsSerial(p: CPlan, tasks: seq<Task>, even: bool, store0: Store, counters: seq<nat>,
                                acts: seq<CAction>)
    requires CPlanOk(p) && |tasks| == |p.owner|
  {
    var s0 := CInit(p, store0, counters);
    CReady(p, even, counters) && CShape(p, s0) && CRuns(p, tasks, even, s0, acts)
      && CDone(p, CAfter(p, tasks, even, s0, acts)) ==>
      var s := CAfter(p, tasks, even, s0, acts);
      s.store == Run(tasks, Upto(|tasks|), store0) && CReady(p, !even, s.counters)
  }

  /** Every finished cycle that starts ready ends like the serial order. */
  ghost predicate CyclesAreSerial(p: CPlan, tasks: seq<Task>) {
    && CPlanOk(p) && |tasks| == |p.owner|
    && forall even: bool, store0: Store, counters: seq<nat>, acts: seq<CAction> ::
         CycleIsSerial(p, tasks, even, store0, counters, acts)
  }

  lemma SoundCyclesAreSerial(p: CPlan, dag: Dag, tasks: seq<Task>)
    requires CSound(p, dag, tasks)
    ensures CyclesAreSerial(p, tasks)
  {
    forall even: bool, store0: Store, counters: seq<nat>, acts: seq<CAction>
      ensures CycleIsSerial(p, tasks, even, store0, counters, acts)
    {
      var s0 := CInit(p, store0, counters);
      if CReady(p, even, counters) && CShape(p, s0) && CRuns(p, tasks, even, s0, acts)
         && CDone(p, CAfter(p, tasks, even, s0, acts)) {
        CounterCycleEqualsSerial(p, dag, tasks, even, store0, counters, acts);
      }
    }
  }

  lemma CycleInPhase(p: CPlan, tasks: seq<Task>, m: CMachine, c: CCycle, before: nat)
    requires CyclesAreSerial(p, tasks) && MachineOk(p, m) && InPhase(p, m, before) && CLegal(p, tasks, m, c)
    requires c.CPooled? ==> before % 2 == 0
    ensures InPhase(p, CNext(p, tasks, m, c), Count(before, c))
  {
    var m2 := CNext(p, tasks, m, c);
    if c.CPooled? {
      SameParity(p, m.cycles + before, m.cycles, m.counters);
      PooledStaysReady(p, tasks, m, c);
      SameParity(p, m2.cycles + before, m2.cycles, m2.counters);
    } else {
      SameParity(p, m.cycles + before, m2.cycles + before + 1, m.counters);
    }
  }

  lemma CycleIsRight(p: CPlan, tasks: seq<Task>, m: CMachine, c: CCycle)
    requires CyclesAreSerial(p, tasks) && MachineOk(p, m) && CLegal(p, tasks, m, c)
    requires c.CPooled? ==> ReadyFor(p, m.cycles, m.counters)
    ensures CNext(p, tasks, m, c).store == Run(tasks, Upto(|tasks|), c.entry(m.store))
  {
    if c.CPooled? {
      PooledFlips(p, tasks, m, c, EvenCycle(m.cycles));
    }
  }

  lemma PooledStaysReady(p: CPlan, tasks: seq<Task>, m: CMachine, c: CCycle)
    requires CyclesAreSerial(p, tasks) && MachineOk(p, m) && ReadyFor(p, m.cycles, m.counters)
    requires CLegal(p, tasks, m, c) && c.CPooled?
    ensures ReadyFor(p, m.cycles + 1, CNext(p, tasks, m, c).counters)
  {
    var even := EvenCycle(m.cycles);
    PooledFlips(p, tasks, m, c, even);
    ReadyFlips(p, m.cycles, CNext(p, tasks, m, c).counters, even);
  }

  lemma ReadyFlips(p: CPlan, cycle: nat, counters: seq<nat>, even: bool)
    requires even == EvenCycle(cycle) && CReady(p, !even, counters)
    ensures ReadyFor(p, cycle + 1, counters)
  {
  }

  lemma PooledFlips(p: CPlan, tasks: seq<Task>, m: CMachine, c: CCycle, even: bool)
    requires CyclesAreSerial(p, tasks) && MachineOk(p, m) && even == EvenCycle(m.cycles) && CReady(p, even, m.counters)
    requires CLegal(p, tasks, m, c) && c.CPooled?
    ensures CReady(p, !even, CNext(p, tasks, m, c).counters)
    ensures CNext(p, tasks, m, c).store == Run(tasks, Upto(|tasks|), c.entry(m.store))
  {
    CInitShape(p, c.entry(m.store), m.counters);
    assert CycleIsSerial(p, tasks, even, c.entry(m.store), m.counters, c.acts);
  }

  /** With an even number of serial cycles before every pooled one, every pooled cycle finds
      ready counters. */
  lemma {:induction false} EvenRunsAreReady(p: CPlan, tasks: seq<Task>, m: CMachine, cs: seq<CCycle>, before: nat)
    requires CyclesAreSerial(p, tasks) && MachineOk(p, m) && InPhase(p, m, before) && CLegalRun(p, tasks, m, cs)
    requires EvenBefore(cs, before)
    ensures AllReady(p, tasks, m, cs)
    decreases |cs|
  {
    if cs != [] {
      FirstIsReady(p, m, cs[0], before);
      CycleInPhase(p, tasks, m, cs[0], before);
      EvenRunsAreReady(p, tasks, CNext(p, tasks, m, cs[0]), cs[1..], Count(before, cs[0]));
    }
  }

  lemma FirstIsReady(p: CPlan, m: CMachine, c: CCycle, before: nat)
    requires InPhase(p, m, before) && (c.CPooled? ==> before % 2 == 0)
    ensures c.CPooled? ==> ReadyFor(p, m.cycles, m.counters)
  {
    if c.CPooled? {
      SameParity(p, m.cycles + before, m.cycles, m.counters);
    }
  }

  /** ... and the counters end ready or inverted, by the parity of all serial cycles. */
  lemma {:induction false} EvenRunsInPhase(p: CPlan, tasks: seq<Task>, m: CMachine, cs: seq<CCycle>, before: nat)
    requires CyclesAreSerial(p, tasks) && MachineOk(p, m) && InPhase(p, m, before) && CLegalRun(p, tasks, m, cs)
    requires EvenBefore(cs, before)
    ensures InPhase(p, CRunOf(p, tasks, m, cs), before + SerialCount(cs))
    decreases |cs|
  {
    if cs != [] {
      CycleInPhase(p, tasks, m, cs[0], before);
      EvenRunsInPhase(p, tasks, CNext(p, tasks, m, cs[0]), cs[1..], Count(before, cs[0]));
      assert Count(before, cs[0]) + SerialCount(cs[1..]) == before + SerialCount(cs);
    }
  }

  /** A run whose pooled cycles find ready counters has the variables of the serial
      simulation. */
  lemma {:induction false} ReadyRunsAreSerial(p: CPlan, tasks: seq<Task>, m: CMachine, cs: seq<CCycle>)
    requires CyclesAreSerial(p, tasks) && MachineOk(p, m) && CLegalRun(p, tasks, m, cs) && AllReady(p, tasks, m, cs)
    ensures CRunOf(p, tasks, m, cs).store == CSerialSteps(tasks, m.store, cs)
    decreases |cs|
  {
    if cs != [] {
      CycleIsRight(p, tasks, m, cs[0]);
      ReadyRunsAreSerial(p, tasks, CNext(p, tasks, m, cs[0]), cs[1..]);
    }
  }

  /** A pooled cycle that finds ready counters has an even number of serial cycles before it. */
  lemma {:induction false} ReadyRunsAreEven(p: CPlan, tasks: seq<Task>, m: CMachine, cs: seq<CCycle>, before: nat)
    requires CyclesAreSerial(p, tasks) && HasDependency(p) && MachineOk(p, m) && InPhase(p, m, before)
    requires CLegalRun(p, tasks, m, cs) && AllReady(p, tasks, m, cs)
    ensures EvenBefore(cs, before)
    decreases |cs|
  {
    if cs != [] {
      ReadyIsOneSided(p, m.counters);
      assert cs[0].CPooled? ==> before % 2 == 0;
      CycleInPhase(p, tasks, m, cs[0], before);
      ReadyRunsAreEven(p, tasks, CNext(p, tasks, m, cs[0]), cs[1..], Count(before, cs[0]));
    }
  }

  /** The state before cycle 0. */
  ghost predicate Fresh(p: CPlan, m: CMachine) {
    m.cycles == 0 && CReady(p, true, m.counters)
  }

  lemma NoDependencyNoPhase(p: CPlan, a: nat, b: nat, counters: seq<nat>)
    requires !HasDependency(p) && ReadyFor(p, a, counters)
    ensures ReadyFor(p, b, counters)
  {
    forall t | 0 <= t < |p.owner| ensures |Preds(p, t)| == 0 {
    }
  }

  /** Without dependencies counters stay at zero. */
  lemma {:induction false} IdleRunsAreReady(p: CPlan, tasks: seq<Task>, m: CMachine, cs: seq<CCycle>)
    requires CyclesAreSerial(p, tasks) && !HasDependency(p) && MachineOk(p, m) && ReadyFor(p, m.cycles, m.counters)
    requires CLegalRun(p, tasks, m, cs)
    ensures AllReady(p, tasks, m, cs)
    decreases |cs|
  {
    if cs != [] {
      if cs[0].CPooled? {
        PooledStaysReady(p, tasks, m, cs[0]);
      } else {
        NoDependencyNoPhase(p, m.cycles, m.cycles + 1, m.counters);
      }
      IdleRunsAreReady(p, tasks, CNext(p, tasks, m, cs[0]), cs[1..]);
    }
  }

  /** Over every run from cycle 0: all pooled cycles find ready counters, and the variables
      are the serial ones, if and only if an even number of serial cycles precedes each or no
      task waits for another. */
  lemma CounterRunsRightIff(p: CPlan, dag: Dag, tasks: seq<Task>, m: CMachine, cs: seq<CCycle>)
    requires CSound(p, dag, tasks) && MachineOk(p, m) && Fresh(p, m) && CLegalRun(p, tasks, m, cs)
    ensures AllReady(p, tasks, m, cs) && CRunOf(p, tasks, m, cs).store == CSerialSteps(tasks, m.store, cs)
            <==> EvenBefore(cs, 0) || !HasDependency(p)
  {
    SoundCyclesAreSerial(p, dag, tasks);
    if !HasDependency(p) {
      IdleRunsAreReady(p, tasks, m, cs);
      ReadyRunsAreSerial(p, tasks, m, cs);
    }
    if EvenBefore(cs, 0) {
      EvenRunsAreReady(p, tasks, m, cs, 0);
      ReadyRunsAreSerial(p, tasks, m, cs);
    }
    if AllReady(p, tasks, m, cs) && HasDependency(p) {
      ReadyRunsAreEven(p, tasks, m, cs, 0);
    }
  }

  lemma {:induction false} AllPooledIsEven(cs: seq<CCycle>)
    requires forall i :: 0 <= i < |cs| ==> cs[i].CPooled?
    ensures EvenBefore(cs, 0) && SerialCount(cs) == 0
  {
    if cs != [] {
      AllPooledIsEven(cs[1..]);
    }
  }

  /** In an all-pooled run from cycle 0, under any interleavings, every cycle finds its
      counters ready, the counters alternate between 0 and the dependency counts, and the
      variables are those of the serial simulation. */
  lemma AllPooledStaysReady(p: CPlan, dag: Dag, tasks: seq<Task>, m: CMachine, cs: seq<CCycle>)
    requires CSound(p, dag, tasks) && MachineOk(p, m) && Fresh(p, m) && CLegalRun(p, tasks, m, cs)
    requires forall i :: 0 <= i < |cs| ==> cs[i].CPooled?
    ensures AllReady(p, tasks, m, cs) && CRunOf(p, tasks, m, cs).store == CSerialSteps(tasks, m.store, cs)
    ensures forall t :: 0 <= t < |p.owner| ==>
              CRunOf(p, tasks, m, cs).counters[t] == if |cs| % 2 == 0 then 0 else |Preds(p, t)|
  {
    SoundCyclesAreSerial(p, dag, tasks);
    AllPooledIsEven(cs);
    EvenRunsAreReady(p, tasks, m, cs, 0);
    EvenRunsInPhase(p, tasks, m, cs, 0);
    ReadyRunsAreSerial(p, tasks, m, cs);
  }

  /** In general, over every run of finished cycles from cycle 0: the counters are ready for
      the next one exactly when the balance, less one before an odd cycle, times every
      dependency count is a multiple of 2^32. */
  lemma CounterReadyIff(p: CPlan, tasks: seq<Task>, m: CMachine, cs: seq<CCycle>)
    requires CPlanOk(p) && |tasks| == |p.owner| && MachineOk(p, m) && Fresh(p, m) && CLegalRun(p, tasks, m, cs)
    ensures var b := Balance(cs, 0) - if EvenCycle(|cs|) then 0 else 1;
            ReadyFor(p, |cs|, CRunOf(p, tasks, m, cs).counters)
            <==> forall t :: 0 <= t < |p.owner| ==> (b * |Preds(p, t)|) % WORD == 0
  {
    forall t | 0 <= t < |p.owner|
      ensures CRunOf(p, tasks, m, cs).counters[t] == (Balance(cs, 0) * |Preds(p, t)|) % WORD
      ensures (Balance(cs, 0) * |Preds(p, t)|) % WORD == |Preds(p, t)| <==>
                ((Balance(cs, 0) - 1) * |Preds(p, t)|) % WORD == 0
    {
      CounterResidue(p, tasks, m, cs, t);
      PredsBound(p, t);
      GoalResidue(Balance(cs, 0), |Preds(p, t)|);
    }
  }

  // ----- what goes wrong

  /** The first task of a worker may enter the next cycle before any predecessor has run
      exactly when the balance of the run so far has brought its counter to the goal. */
  lemma EntersAtOnceIff(p: CPlan, tasks: seq<Task>, m: CMachine, cs: seq<CCycle>, store0: Store, t: nat)
    requires CPlanOk(p) && |tasks| == |p.owner| && MachineOk(p, m) && Fresh(p, m) && CLegalRun(p, tasks, m, cs)
    requires t < |p.owner| && p.pos[t] == 0
    ensures var s := CInit(p, store0, CRunOf(p, tasks, m, cs).counters);
            var b := Balance(cs, 0) - if EvenCycle(|cs|) then 1 else 0;
            CShape(p, s) && (CEnabled(p, EvenCycle(|cs|), s, Enter(p.owner[t])) <==> (b * |Preds(p, t)|) % WORD == 0)
  {
    var s := CInit(p, store0, CRunOf(p, tasks, m, cs).counters);
    CInitShape(p, store0, CRunOf(p, tasks, m, cs).counters);
    CounterResidue(p, tasks, m, cs, t);
    PredsBound(p, t);
    assert p.tables[p.owner[t]][0] == t && HeadTask(p, s, p.owner[t]) == t;
    GoalResidue(Balance(cs, 0), |Preds(p, t)|);
  }

  lemma GoalResidue(b: int, q: nat)
    requires q < WORD
    ensures (b * q) % WORD == q <==> ((b - 1) * q) % WORD == 0
  {
    assert b * q == (b - 1) * q + q;
    var x := (b - 1) * q;
    assert x == x / WORD * WORD + x % WORD;
  }

  /** After an odd number of serial cycles the first task of a worker enters its body in the
      next pooled cycle although none of its predecessors has run. */
  lemma OddSerialReleasesEarly(p: CPlan, dag: Dag, tasks: seq<Task>, m: CMachine, cs: seq<CCycle>, store0: Store,
                               t: nat)
    requires CSound(p, dag, tasks) && MachineOk(p, m) && Fresh(p, m) && CLegalRun(p, tasks, m, cs)
    requires EvenBefore(cs, 0) && SerialCount(cs) % 2 == 1
    requires t < |p.owner| && p.pos[t] == 0 && Preds(p, t) != {}
    ensures var s := CInit(p, store0, CRunOf(p, tasks, m, cs).counters);
            CShape(p, s) && CEnabled(p, EvenCycle(|cs|), s, Enter(p.owner[t])) && s.log == []
  {
    SoundCyclesAreSerial(p, dag, tasks);
    EvenRunsInPhase(p, tasks, m, cs, 0);
    InvertedReleases(p, CRunOf(p, tasks, m, cs), SerialCount(cs), store0, t);
  }

  lemma InvertedReleases(p: CPlan, m: CMachine, before: nat, store0: Store, t: nat)
    requires CPlanOk(p) && InPhase(p, m, before) && before % 2 == 1 && t < |p.owner| && p.pos[t] == 0
    ensures var s := CInit(p, store0, m.counters);
            CShape(p, s) && CEnabled(p, EvenCycle(m.cycles), s, Enter(p.owner[t])) && s.log == []
  {
    SameParity(p, m.cycles + before, m.cycles + 1, m.counters);
    CInitShape(p, store0, m.counters);
    var s := CInit(p, store0, m.counters);
    assert p.tables[p.owner[t]][0] == t && HeadTask(p, s, p.owner[t]) == t;
  }

  /** No number of signals brings the counter of t to its goal. */
  ghost predicate OutOfReach(p: CPlan, even: bool, c: nat, t: nat) {
    forall k :: 0 <= k <= |Preds(p, t)| ==> Shift(even, c, k) != Goal(p, even, t)
  }

  /** t has not been entered. */
  ghost predicate NotEntered(p: CPlan, s: CSys, t: nat)
    requires CPlanOk(p) && CShape(p, s) && t < |p.owner|
  {
    var wk := s.workers[p.owner[t]];
    wk.head < p.pos[t] || (wk.head == p.pos[t] && wk.pc.Waiting?)
  }

  lemma {:induction false} NeverEntered(p: CPlan, tasks: seq<Task>, even: bool, start: seq<nat>, s: CSys,
                                        acts: seq<CAction>, t: nat)
    requires CPlanOk(p) && CShape(p, s) && |tasks| == |p.owner| == |start| && Moved(p, even, start, s)
    requires CRuns(p, tasks, even, s, acts) && t < |p.owner| && OutOfReach(p, even, start[t], t) && NotEntered(p, s, t)
    ensures NotEntered(p, CAfter(p, tasks, even, s, acts), t)
    decreases |acts|
  {
    if acts != [] {
      SignalledSize(p, s, t);
      assert p.tables[p.owner[t]][p.pos[t]] == t;
      MovedStep(p, tasks, even, start, s, acts[0]);
      NeverEntered(p, tasks, even, start, CApply(p, tasks, even, s, acts[0]), acts[1..], t);
    }
  }

  /** Then no schedule ever finishes the cycle: the owner of t spins for ever. */
  lemma OutOfReachSpins(p: CPlan, tasks: seq<Task>, even: bool, store0: Store, counters: seq<nat>, acts: seq<CAction>,
                        t: nat)
    requires CPlanOk(p) && |tasks| == |p.owner| == |counters| && forall i :: 0 <= i < |counters| ==> counters[i] < WORD
    requires CShape(p, CInit(p, store0, counters)) && CRuns(p, tasks, even, CInit(p, store0, counters), acts)
    requires t < |p.owner| && OutOfReach(p, even, counters[t], t)
    ensures !CDone(p, CAfter(p, tasks, even, CInit(p, store0, counters), acts))
  {
    MovedInit(p, even, store0, counters);
    assert p.tables[p.owner[t]][p.pos[t]] == t;
    NeverEntered(p, tasks, even, counters, CInit(p, store0, counters), acts, t);
  }

  // ----- the smallest cases

  /** Task 0 of worker 0 comes before task 1 of worker 1. */
  ghost predicate TwoWorkers(p: CPlan, tasks: seq<Task>) {
    && p == CPlan([0, 1], [[0], [1]], [0, 0], [[1], []]) && |tasks| == 2
    && forall t :: 0 <= t < 2 ==> tasks[t].body == (m => m)
  }

  /** The same, in the terms the steps need. */
  ghost predicate TwoFacts(p: CPlan, tasks: seq<Task>) {
    && CPlanOk(p) && |p.owner| == 2 == |p.tables| == |tasks| && p.tables[0] == [0] && p.tables[1] == [1]
    && p.succs[0] == [1] && p.succs[1] == [] && p.pos == [0, 0] && p.owner == [0, 1]
    && |Preds(p, 0)| == 0 && |Preds(p, 1)| == 1 && 0 in Preds(p, 1)
  }

  lemma TwoWorkersOk(p: CPlan, tasks: seq<Task>)
    requires TwoWorkers(p, tasks)
    ensures TwoFacts(p, tasks)
  {
    assert TablesOk(p.owner, |p.tables|, p.tables, p.pos);
    assert Preds(p, 0) == {} && Preds(p, 1) == {0};
  }

  /** One serial cycle first: the consumer may start at once. */
  lemma EarlyReleaseExample(p: CPlan, tasks: seq<Task>, entry: Store -> Store, m: CMachine)
    requires TwoWorkers(p, tasks) && m == CMachine(map[], [0, 0], 0)
    ensures CPlanOk(p) && MachineOk(p, m) && Fresh(p, m) && CLegalRun(p, tasks, m, [CSerial(entry)])
    ensures var s := CInit(p, map[], CRunOf(p, tasks, m, [CSerial(entry)]).counters);
            CShape(p, s) && CEnabled(p, false, s, Enter(1)) && 0 in Preds(p, 1) && s.log == []
  {
    TwoWorkersOk(p, tasks);
    assert CNext(p, tasks, m, CSerial(entry)).counters == [0, 0];
    var s := CInit(p, map[], [0, 0]);
    CInitShape(p, map[], [0, 0]);
    assert HeadTask(p, s, 1) == 1;
  }

  ghost predicate StepsTo(p: CPlan, tasks: seq<Task>, s: CSys, a: CAction, s2: CSys) {
    && CPlanOk(p) && |tasks| == |p.owner| && CShape(p, s) && CEnabled(p, false, s, a)
    && s2 == CApply(p, tasks, false, s, a)
  }

  lemma {:induction false} StepsCons(p: CPlan, tasks: seq<Task>, s: CSys, a: CAction, s2: CSys, acts: seq<CAction>,
                                     end: CSys)
    requires StepsTo(p, tasks, s, a, s2) && CShape(p, s2) && CRuns(p, tasks, false, s2, acts)
    requires CAfter(p, tasks, false, s2, acts) == end
    ensures CRuns(p, tasks, false, s, [a] + acts) && CAfter(p, tasks, false, s, [a] + acts) == end
  {
    assert ([a] + acts)[1..] == acts;
  }

  function At(store: Store, c: nat, a: CWorker, b: CWorker, log: seq<nat>): CSys {
    CSys(store, [0, c], [a, b], log)
  }

  const Wait: CWorker := CWorker(0, Waiting)
  const Work: CWorker := CWorker(0, Running)
  const Past: CWorker := CWorker(1, Waiting)

  function Sig(k: nat): CWorker {
    CWorker(0, Signalling(k))
  }

  lemma Enter1(p: CPlan, tasks: seq<Task>, st: Store)
    requires TwoFacts(p, tasks)
    ensures StepsTo(p, tasks, At(st, 0, Wait, Wait, []), Enter(1), At(st, 0, Wait, Work, []))
  {
    assert HeadTask(p, At(st, 0, Wait, Wait, []), 1) == 1;
  }

  lemma Body1(p: CPlan, tasks: seq<Task>, st: Store)
    requires TwoFacts(p, tasks) && tasks[1].body(st) == st
    ensures StepsTo(p, tasks, At(st, 0, Wait, Work, []), Body(1), At(st, 0, Wait, Sig(0), [1]))
  {
    assert HeadTask(p, At(st, 0, Wait, Work, []), 1) == 1;
  }

  lemma Next1(p: CPlan, tasks: seq<Task>, st: Store)
    requires TwoFacts(p, tasks)
    ensures StepsTo(p, tasks, At(st, 0, Wait, Sig(0), [1]), Next(1), At(st, 0, Wait, Past, [1]))
  {
    assert HeadTask(p, At(st, 0, Wait, Sig(0), [1]), 1) == 1;
  }

  lemma Enter0(p: CPlan, tasks: seq<Task>, st: Store)
    requires TwoFacts(p, tasks)
    ensures StepsTo(p, tasks, At(st, 0, Wait, Past, [1]), Enter(0), At(st, 0, Work, Past, [1]))
  {
    assert HeadTask(p, At(st, 0, Wait, Past, [1]), 0) == 0;
  }

  lemma Body0(p: CPlan, tasks: seq<Task>, st: Store)
    requires TwoFacts(p, tasks) && tasks[0].body(st) == st
    ensures StepsTo(p, tasks, At(st, 0, Work, Past, [1]), Body(0), At(st, 0, Sig(0), Past, [1, 0]))
  {
    assert HeadTask(p, At(st, 0, Work, Past, [1]), 0) == 0;
  }

  lemma Signal0(p: CPlan, tasks: seq<Task>, st: Store)
    requires TwoFacts(p, tasks)
    ensures StepsTo(p, tasks, At(st, 0, Sig(0), Past, [1, 0]), Signal(0), At(st, WORD - 1, Sig(1), Past, [1, 0]))
  {
    assert HeadTask(p, At(st, 0, Sig(0), Past, [1, 0]), 0) == 0;
  }

  lemma Next0(p: CPlan, tasks: seq<Task>, st: Store)
    requires TwoFacts(p, tasks)
    ensures StepsTo(p, tasks, At(st, WORD - 1, Sig(1), Past, [1, 0]), Next(0), At(st, WORD - 1, Past, Past, [1, 0]))
  {
    assert HeadTask(p, At(st, WORD - 1, Sig(1), Past, [1, 0]), 0) == 0;
  }

  /** A pooled odd cycle that finds both counters at zero runs the consumer first, and leaves
      its counter at 2^32 - 1. */
  lemma WrongCycle(p: CPlan, tasks: seq<Task>, st: Store) returns (acts: seq<CAction>)
    requires TwoFacts(p, tasks) && tasks[0].body(st) == st && tasks[1].body(st) == st
    ensures CShape(p, CInit(p, st, [0, 0])) && CRuns(p, tasks, false, CInit(p, st, [0, 0]), acts)
    ensures CAfter(p, tasks, false, CInit(p, st, [0, 0]), acts) == At(st, WORD - 1, Past, Past, [1, 0])
  {
    var tail := WrongTail(p, tasks, st);
    acts := WrongHead(p, tasks, st, tail);
    StartsAt(p, tasks, st);
  }

  lemma StartsAt(p: CPlan, tasks: seq<Task>, st: Store)
    requires TwoFacts(p, tasks)
    ensures CInit(p, st, [0, 0]) == At(st, 0, Wait, Wait, [])
  {
  }

  lemma EndsAt(p: CPlan, tasks: seq<Task>, st: Store)
    requires TwoFacts(p, tasks)
    ensures CDone(p, At(st, WORD - 1, Past, Past, [1, 0]))
  {
  }

  lemma PooledIs(p: CPlan, tasks: seq<Task>, m: CMachine, entry: Store -> Store, acts: seq<CAction>, end: CSys)
    requires CPlanOk(p) && |tasks| == |p.owner| && MachineOk(p, m) && CShape(p, Posted(p, m, entry))
    requires CRuns(p, tasks, EvenCycle(m.cycles), Posted(p, m, entry), acts)
    requires CAfter(p, tasks, EvenCycle(m.cycles), Posted(p, m, entry), acts) == end && CDone(p, end)
    ensures CLegal(p, tasks, m, CPooled(entry, acts))
    ensures CNext(p, tasks, m, CPooled(entry, acts)).counters == end.counters
  {
  }

  lemma WrongTail(p: CPlan, tasks: seq<Task>, st: Store) returns (acts: seq<CAction>)
    requires TwoFacts(p, tasks) && tasks[0].body(st) == st
    ensures var s := At(st, 0, Wait, Past, [1]);
            CShape(p, s) && CRuns(p, tasks, false, s, acts)
              && CAfter(p, tasks, false, s, acts) == At(st, WORD - 1, Past, Past, [1, 0])
  {
    var end := At(st, WORD - 1, Past, Past, [1, 0]);
    Next0(p, tasks, st);
    CShapeStep(p, tasks, false, At(st, WORD - 1, Sig(1), Past, [1, 0]), Next(0));
    acts := [];
    StepsCons(p, tasks, At(st, WORD - 1, Sig(1), Past, [1, 0]), Next(0), end, acts, end);
    acts := [Next(0)] + acts;
    Signal0(p, tasks, st);
    StepsCons(p, tasks, At(st, 0, Sig(0), Past, [1, 0]), Signal(0), At(st, WORD - 1, Sig(1), Past, [1, 0]), acts, end);
    acts := [Signal(0)] + acts;
    Body0(p, tasks, st);
    StepsCons(p, tasks, At(st, 0, Work, Past, [1]), Body(0), At(st, 0, Sig(0), Past, [1, 0]), acts, end);
    acts := [Body(0)] + acts;
    Enter0(p, tasks, st);
    StepsCons(p, tasks, At(st, 0, Wait, Past, [1]), Enter(0), At(st, 0, Work, Past, [1]), acts, end);
    acts := [Enter(0)] + acts;
  }

  lemma WrongHead(p: CPlan, tasks: seq<Task>, st: Store, tail: seq<CAction>) returns (acts: seq<CAction>)
    requires TwoFacts(p, tasks) && tasks[1].body(st) == st && CShape(p, At(st, 0, Wait, Past, [1]))
    requires CRuns(p, tasks, false, At(st, 0, Wait, Past, [1]), tail)
    ensures var s := At(st, 0, Wait, Wait, []);
            && CShape(p, s) && CRuns(p, tasks, false, s, acts)
            && CAfter(p, tasks, false, s, acts) == CAfter(p, tasks, false, At(st, 0, Wait, Past, [1]), tail)
  {
    var end := CAfter(p, tasks, false, At(st, 0, Wait, Past, [1]), tail);
    Next1(p, tasks, st);
    StepsCons(p, tasks, At(st, 0, Wait, Sig(0), [1]), Next(1), At(st, 0, Wait, Past, [1]), tail, end);
    acts := [Next(1)] + tail;
    Body1(p, tasks, st);
    StepsCons(p, tasks, At(st, 0, Wait, Work, []), Body(1), At(st, 0, Wait, Sig(0), [1]), acts, end);
    acts := [Body(1)] + acts;
    Enter1(p, tasks, st);
    StepsCons(p, tasks, At(st, 0, Wait, Wait, []), Enter(1), At(st, 0, Wait, Work, []), acts, end);
    acts := [Enter(1)] + acts;
  }

  /** No schedule finishes a pooled odd cycle that finds these counters. */
  lemma WrongCountersSpin(p: CPlan, tasks: seq<Task>, m: CMachine, entry: Store -> Store, acts: seq<CAction>)
    requires TwoFacts(p, tasks) && m.counters == [0, WORD - 1] && m.cycles == 3
    ensures MachineOk(p, m) && !AtZero(p, m.counters) && !AtCounts(p, m.counters)
    ensures !CLegal(p, tasks, m, CPooled(entry, acts))
  {
    assert m.counters[1] == WORD - 1;
    CInitShape(p, entry(m.store), m.counters);
    if CRuns(p, tasks, false, Posted(p, m, entry), acts) {
      OutOfReachSpins(p, tasks, false, entry(m.store), m.counters, acts, 1);
    }
  }

  /** The pooled cycle as part of a history. */
  lemma WrongPooled(p: CPlan, tasks: seq<Task>, entry: Store -> Store, m: CMachine) returns (c: CCycle)
    requires TwoFacts(p, tasks) && (forall t, st :: 0 <= t < 2 ==> tasks[t].body(st) == st)
    requires m.counters == [0, 0] && m.cycles == 1
    ensures c.CPooled? && MachineOk(p, m) && CLegal(p, tasks, m, c)
    ensures CNext(p, tasks, m, c).counters == [0, WORD - 1]
  {
    var acts := WrongCycle(p, tasks, entry(m.store));
    EndsAt(p, tasks, entry(m.store));
    PooledIs(p, tasks, m, entry, acts, At(entry(m.store), WORD - 1, Past, Past, [1, 0]));
    c := CPooled(entry, acts);
  }

  /** Serial, pooled, serial: the number of serial cycles is even again, but the counters are
      in no phase at all, and no schedule finishes the next pooled cycle. */
  lemma EvenCountIsNotEnough(p: CPlan, tasks: seq<Task>, entry: Store -> Store, m: CMachine) returns (c: CCycle)
    requires TwoWorkers(p, tasks) && m == CMachine(map[], [0, 0], 0)
    ensures CPlanOk(p) && MachineOk(p, m) && Fresh(p, m) && c.CPooled?
    ensures var cs := [CSerial(entry), c, CSerial(entry)];
            && SerialCount(cs) == 2 && CLegalRun(p, tasks, m, cs)
            && var m3 := CRunOf(p, tasks, m, cs);
               && !AtZero(p, m3.counters) && !AtCounts(p, m3.counters)
               && forall acts :: !CLegal(p, tasks, m3, CPooled(entry, acts))
  {
    TwoWorkersOk(p, tasks);
    var c0 := CSerial(entry);
    var m1 := CNext(p, tasks, m, c0);
    c := WrongPooled(p, tasks, entry, m1);
    var m3 := ThreeCycles(p, tasks, m, c0, c);
    forall acts ensures !CLegal(p, tasks, m3, CPooled(entry, acts)) {
      WrongCountersSpin(p, tasks, m3, entry, acts);
    }
    WrongCountersSpin(p, tasks, m3, entry, []);
  }

  lemma ThreeCycles(p: CPlan, tasks: seq<Task>, m: CMachine, c0: CCycle, c: CCycle) returns (m3: CMachine)
    requires CPlanOk(p) && |tasks| == |p.owner| && MachineOk(p, m) && c0.CSerial? && c.CPooled?
    requires CLegal(p, tasks, CNext(p, tasks, m, c0), c)
    ensures SerialCount([c0, c, c0]) == 2 && CLegalRun(p, tasks, m, [c0, c, c0])
            && m3 == CRunOf(p, tasks, m, [c0, c, c0])
    ensures m3.counters == CNext(p, tasks, CNext(p, tasks, m, c0), c).counters && m3.cycles == m.cycles + 3
  {
    var m1 := CNext(p, tasks, m, c0);
    var m2 := CNext(p, tasks, m1, c);
    m3 := CNext(p, tasks, m2, c0);
    var one, two, three := [c0], [c, c0], [c0, c, c0];
    assert one[1..] == [] && two[1..] == one && three[1..] == two;
    assert SerialCount(one) == SerialCount(one[1..]) + 1 && SerialCount(two) == SerialCount(two[1..]);
    assert CLegalRun(p, tasks, m3, one[1..]) && CRunOf(p, tasks, m3, one[1..]) == m3;
    assert CLegalRun(p, tasks, m2, one) && CRunOf(p, tasks, m2, one) == m3;
    assert CLegalRun(p, tasks, m1, two) && CRunOf(p, tasks, m1, two) == m3;
  }
}
