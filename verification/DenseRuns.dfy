/** Whole simulations: any mix of pooled and serial cycles, each pooled cycle under any
    interleaving of its workers (src/cppEmitterDenseExec.cpp, stepDense). */
module DenseRuns {
  import opened DenseDag
  import opened DensePlan
  import opened DenseTask
  import opened DenseProtocol
  import opened DenseCycle
  import opened DenseRuntime

  datatype Machine = Machine(store: Store, tokens: seq<bool>, primed: bool, cycles: nat)

  /** `entry` is what happens to the variables before the tasks run: new inputs, then the
      reset functions. A pooled cycle also comes with the steps its workers took. */
  datatype Cycle = Serial(entry: Store -> Store) | Pooled(entry: Store -> Store, acts: seq<Action>)

  /** What a cycle must deliver: the tasks in id order. */
  function SerialStep(tasks: seq<Task>, entry: Store -> Store, store: Store): Store {
    Run(tasks, Upto(|tasks|), entry(store))
  }

  function SerialSteps(tasks: seq<Task>, store: Store, cs: seq<Cycle>): Store
    decreases |cs|
  {
    if cs == [] then store else SerialSteps(tasks, SerialStep(tasks, cs[0].entry, store), cs[1..])
  }

  ghost function Rephased(p: Plan, tokens: seq<bool>, value: bool): (r: seq<bool>)
    requires PlanOk(p) && |tokens| == p.slotCount
    ensures LiveTokens(p, r, value)
  {
    seq(|tokens|, x requires 0 <= x < |tokens| => if exists g ::
          0 <= g < |p.groups| && p.slots[g] == x then value else tokens[x])
  }

  /** The tokens with which a pooled cycle is posted. */
  ghost function PostedTokens(p: Plan, m: Machine): seq<bool>
    requires PlanOk(p) && |m.tokens| == p.slotCount
  {
    if m.primed then m.tokens else Rephased(p, m.tokens, !Target(m.cycles))
  }

  ghost predicate PhaseOk(p: Plan, m: Machine)
    requires PlanOk(p)
  {
    |m.tokens| == p.slotCount && (m.primed ==> LiveTokens(p, m.tokens, !Target(m.cycles)))
  }

  lemma Posted(p: Plan, tasks: seq<Task>, entry: Store -> Store, m: Machine)
    requires PlanOk(p) && PhaseOk(p, m) && |tasks| == |p.owner|
    ensures LiveTokens(p, PostedTokens(p, m), !Target(m.cycles))
    ensures Shape(p, InitSys(p, entry(m.store), PostedTokens(p, m)))
  {
    InitInv(p, tasks, Target(m.cycles), entry(m.store), PostedTokens(p, m));
  }

  /** A cycle that can happen: the workers' steps are legal and bring them all to the end. */
  ghost predicate Legal(p: Plan, tasks: seq<Task>, m: Machine, c: Cycle)
    requires PlanOk(p) && PhaseOk(p, m) && |tasks| == |p.owner|
  {
    match c
    case Serial(_) => true
    case Pooled(entry, acts) =>
      Posted(p, tasks, entry, m);
      var s := InitSys(p, entry(m.store), PostedTokens(p, m));
      && Runs(p, tasks, Target(m.cycles), s, acts)
      && Shape(p, After(p, tasks, Target(m.cycles), s, acts)) && Done(p, After(p, tasks, Target(m.cycles), s, acts))
  }

  ghost function NextMachine(p: Plan, tasks: seq<Task>, m: Machine, c: Cycle): Machine
    requires PlanOk(p) && PhaseOk(p, m) && |tasks| == |p.owner| && Legal(p, tasks, m, c)
  {
    match c
    case Serial(entry) => Machine(SerialStep(tasks, entry, m.store), m.tokens, false, m.cycles + 1)
    case Pooled(entry, acts) =>
      Posted(p, tasks, entry, m);
      var s := After(p, tasks, Target(m.cycles), InitSys(p, entry(m.store), PostedTokens(p, m)), acts);
      Machine(s.store, s.tokens, true, m.cycles + 1)
  }

  ghost predicate Sound(p: Plan, dag: Dag, tasks: seq<Task>) {
    && PlanOk(p) && |tasks| == |p.owner| && Forward(dag) && Covers(p, dag) && ConflictsOrdered(dag, tasks)
    && forall i :: 0 <= i < |tasks| ==> TaskOk(tasks[i])
  }

  /** Each cycle delivers the serial result and leaves the tokens in phase for whatever
      kind of cycle comes next. */
  lemma CycleKeepsPhase(p: Plan, dag: Dag, tasks: seq<Task>, m: Machine, c: Cycle)
    requires Sound(p, dag, tasks) && PhaseOk(p, m) && Legal(p, tasks, m, c)
    ensures var m2 := NextMachine(p, tasks, m, c);
            && PhaseOk(p, m2) && m2.cycles == m.cycles + 1 && m2.store == SerialStep(tasks, c.entry, m.store)
            && (c.Pooled? ==> LiveTokens(p, m2.tokens, Target(m.cycles)))
  {
    if c.Pooled? {
      Posted(p, tasks, c.entry, m);
      PooledEqualsSerial(p, dag, tasks, Target(m.cycles), c.entry(m.store), PostedTokens(p, m), c.acts);
    }
  }

  ghost predicate LegalRun(p: Plan, dag: Dag, tasks: seq<Task>, m: Machine, cs: seq<Cycle>)
    requires Sound(p, dag, tasks) && PhaseOk(p, m)
    decreases |cs|
  {
    cs == [] ||
    (Legal(p, tasks, m, cs[0])
     && (CycleKeepsPhase(p, dag, tasks, m, cs[0]);
         LegalRun(p, dag, tasks, NextMachine(p, tasks, m, cs[0]), cs[1..])))
  }

  ghost function RunOf(p: Plan, dag: Dag, tasks: seq<Task>, m: Machine, cs: seq<Cycle>): Machine
    requires Sound(p, dag, tasks) && PhaseOk(p, m) && LegalRun(p, dag, tasks, m, cs)
    decreases |cs|
  {
    if cs == [] then m
    else
      CycleKeepsPhase(p, dag, tasks, m, cs[0]);
      RunOf(p, dag, tasks, NextMachine(p, tasks, m, cs[0]), cs[1..])
  }

  /** Any simulation, whatever the mix of cycles and whatever the interleavings, has the
      variables of the purely serial simulation. */
  lemma {:induction false} AnyRunEqualsSerial(p: Plan, dag: Dag, tasks: seq<Task>, m: Machine, cs: seq<Cycle>)
    requires Sound(p, dag, tasks) && PhaseOk(p, m) && LegalRun(p, dag, tasks, m, cs)
    ensures var m2 := RunOf(p, dag, tasks, m, cs);
            && m2.store == SerialSteps(tasks, m.store, cs)
            && PhaseOk(p, m2) && m2.cycles == m.cycles + |cs|
    decreases |cs|
  {
    if cs != [] {
      CycleKeepsPhase(p, dag, tasks, m, cs[0]);
      AnyRunEqualsSerial(p, dag, tasks, NextMachine(p, tasks, m, cs[0]), cs[1..]);
    }
  }
}
