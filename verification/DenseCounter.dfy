/** The dependency-counter fallback of the dense executor: workers walk their tables in
    order, every task has a counter that its predecessors raise in even cycles and lower in
    odd ones (src/cppEmitterDenseExec.cpp, emitFixedDenseThreadWorker). */
module DenseCounter {
  import opened DenseDag
  import opened DenseLayout
  import opened DensePlan
  import opened DenseTask
  import opened DenseCycle

  /** Successor lists, one worker table per thread. */
  datatype CPlan = CPlan(owner: seq<nat>, tables: seq<seq<nat>>, pos: seq<nat>, succs: seq<seq<nat>>)

  const WORD: nat := 0x1_0000_0000

  ghost predicate CPlanOk(p: CPlan) {
    && TablesOk(p.owner, |p.tables|, p.tables, p.pos) && |p.owner| < WORD
    && |p.succs| == |p.owner|
    && (forall s :: 0 <= s < |p.succs| ==> Ascending(p.succs[s]))
    && (forall s, t :: 0 <= s < |p.succs| && t in p.succs[s] ==> s < t < |p.owner|)
  }

  ghost function Preds(p: CPlan, t: nat): set<nat> {
    set s | 0 <= s < |p.succs| && t in p.succs[s]
  }

  /** Counters of all tasks, as counted by the generator's loop over successor lists. */
  ghost function PredsBelow(p: CPlan, t: nat, upTo: nat): set<nat>
    requires upTo <= |p.succs|
  {
    set s | 0 <= s < upTo && t in p.succs[s]
  }

  lemma PredsBelowStep(p: CPlan, t: nat, s: nat)
    requires s < |p.succs|
    ensures |PredsBelow(p, t, s + 1)| == |PredsBelow(p, t, s)| + if t in p.succs[s] then 1 else 0
  {
    assert PredsBelow(p, t, s + 1) == PredsBelow(p, t, s) + if t in p.succs[s] then {s} else {};
  }

  method CountRow(before: seq<nat>, succs: seq<nat>) returns (counts: seq<nat>)
    requires Ascending(succs) && forall t :: t in succs ==> t < |before|
    ensures |counts| == |before|
    ensures forall t: nat :: t < |counts| ==> counts[t] == before[t] + if t in succs then 1 else 0
  {
    counts := before;
    for j := 0 to |succs|
      invariant |counts| == |before|
      invariant forall t: nat :: t < |counts| ==> counts[t] == before[t] + if t in succs[..j] then 1 else 0
    {
      var t := succs[j];
      assert t in succs && succs[..j + 1] == succs[..j] + [t] && t !in succs[..j];
      counts := counts[t := counts[t] + 1];
    }
    assert succs[..|succs|] == succs;
  }

  method BuildDepCounts(p: CPlan) returns (counts: seq<nat>)
    requires CPlanOk(p)
    ensures |counts| == |p.owner| && forall t :: 0 <= t < |counts| ==> counts[t] == |Preds(p, t)|
  {
    counts := seq(|p.owner|, _ => 0);
    assert forall t :: 0 <= t < |counts| ==> PredsBelow(p, t, 0) == {};
    for s := 0 to |p.succs|
      invariant |counts| == |p.owner| && forall t :: 0 <= t < |counts| ==> counts[t] == |PredsBelow(p, t, s)|
    {
      forall t: nat | t < |counts| {
        PredsBelowStep(p, t, s);
      }
      counts := CountRow(counts, p.succs[s]);
    }
    assert forall t :: 0 <= t < |counts| ==> PredsBelow(p, t, |p.succs|) == Preds(p, t);
  }

  // ----- the state machine of one pooled cycle

  datatype CPc = Waiting | Running | Signalling(k: nat)
  datatype CWorker = CWorker(head: nat, pc: CPc)
  datatype CSys = CSys(store: Store, counters: seq<nat>, workers: seq<CWorker>, log: seq<nat>)
  datatype CAction = Enter(w: nat) | Body(w: nat) | Signal(w: nat) | Next(w: nat)

  ghost predicate CShape(p: CPlan, s: CSys)
    requires CPlanOk(p)
  {
    && |s.counters| == |p.owner| && |s.workers| == |p.tables|
    && forall w :: 0 <= w < |s.workers| ==>
         && s.workers[w].head <= |p.tables[w]|
         && (!s.workers[w].pc.Waiting? ==> s.workers[w].head < |p.tables[w]|)
         && (s.workers[w].pc.Signalling? ==> s.workers[w].pc.k <= |p.succs[p.tables[w][s.workers[w].head]]|)
  }

  ghost function HeadTask(p: CPlan, s: CSys, w: nat): nat
    requires CPlanOk(p) && CShape(p, s) && w < |s.workers| && s.workers[w].head < |p.tables[w]|
  {
    p.tables[w][s.workers[w].head]
  }

  /** The value a waiting worker spins for. */
  ghost function Goal(p: CPlan, even: bool, t: nat): nat {
    if even then |Preds(p, t)| else 0
  }

  ghost predicate CEnabled(p: CPlan, even: bool, s: CSys, a: CAction)
    requires CPlanOk(p) && CShape(p, s)
  {
    && a.w < |s.workers|
    && var wk := s.workers[a.w];
       match a
       case Enter(w) => wk.pc.Waiting? && wk.head < |p.tables[w]|
         && s.counters[HeadTask(p, s, w)] == Goal(p, even, HeadTask(p, s, w))
       case Body(w) => wk.pc.Running?
       case Signal(w) => wk.pc.Signalling? && wk.pc.k < |p.succs[HeadTask(p, s, w)]|
       case Next(w) => wk.pc.Signalling? && wk.pc.k == |p.succs[HeadTask(p, s, w)]|
  }

  /** fetch_add or fetch_sub on a 32-bit counter. */
  function Bump(even: bool, c: nat): nat {
    if even then (c + 1) % WORD else (c + WORD - 1) % WORD
  }

  ghost function CApply(p: CPlan, tasks: seq<Task>, even: bool, s: CSys, a: CAction): CSys
    requires CPlanOk(p) && CShape(p, s) && |tasks| == |p.owner| && CEnabled(p, even, s, a)
  {
    var wk := s.workers[a.w];
    match a
    case Enter(w) => s.(workers := s.workers[w := wk.(pc := Running)])
    case Body(w) =>
      var t := HeadTask(p, s, w);
      s.(store := tasks[t].body(s.store), workers := s.workers[w := wk.(pc := Signalling(0))], log := s.log + [t])
    case Signal(w) =>
      var u := p.succs[HeadTask(p, s, w)][wk.pc.k];
      assert u in p.succs[HeadTask(p, s, w)];
      s.(counters := s.counters[u := Bump(even, s.counters[u])],
         workers := s.workers[w := wk.(pc := Signalling(wk.pc.k + 1))])
    case Next(w) => s.(workers := s.workers[w := CWorker(wk.head + 1, Waiting)])
  }

  // ----- invariant

  /** u has already bumped the counter of t in this cycle. */
  ghost predicate HasSignalled(p: CPlan, s: CSys, u: nat, t: nat)
    requires CPlanOk(p) && CShape(p, s) && u < |p.owner|
  {
    var wk := s.workers[p.owner[u]];
    p.pos[u] < wk.head || (p.pos[u] == wk.head && wk.pc.Signalling? && t in p.succs[u][..wk.pc.k])
  }

  ghost function Signalled(p: CPlan, s: CSys, t: nat): set<nat>
    requires CPlanOk(p) && CShape(p, s)
  {
    set u | u in Preds(p, t) && HasSignalled(p, s, u, t)
  }

  ghost predicate CounterOk(p: CPlan, even: bool, s: CSys, t: nat)
    requires CPlanOk(p) && CShape(p, s) && t < |p.owner|
  {
    s.counters[t] == if even then |Signalled(p, s, t)| else |Preds(p, t)| - |Signalled(p, s, t)|
  }

  ghost predicate CLogged(p: CPlan, s: CSys, w: nat)
    requires CPlanOk(p) && CShape(p, s) && w < |s.workers|
  {
    forall i :: 0 <= i < |p.tables[w]| ==>
      (p.tables[w][i] in s.log <==> i < s.workers[w].head || (i == s.workers[w].head && s.workers[w].pc.Signalling?))
  }

  /** Predecessors and earlier tasks of the same worker. */
  ghost predicate CEnforces(p: CPlan, s: nat, t: nat)
    requires CPlanOk(p)
  {
    s < |p.owner| && t < |p.owner| && (t in p.succs[s] || (p.owner[s] == p.owner[t] && s < t))
  }

  ghost predicate CLogOk(p: CPlan, log: seq<nat>)
    requires CPlanOk(p)
  {
    && NoDup(log) && (forall i :: 0 <= i < |log| ==> log[i] < |p.owner|)
    && forall i, s: nat :: 0 <= i < |log| && CEnforces(p, s, log[i]) ==> s in log[..i]
  }

  ghost predicate CInv(p: CPlan, tasks: seq<Task>, even: bool, store0: Store, s: CSys) {
    && CPlanOk(p) && |tasks| == |p.owner| && CShape(p, s)
    && (forall t :: 0 <= t < |p.owner| ==> CounterOk(p, even, s, t))
    && (forall w :: 0 <= w < |s.workers| ==> CLogged(p, s, w))
    && (forall w :: 0 <= w < |s.workers| && s.workers[w].pc.Running? ==>
          Signalled(p, s, HeadTask(p, s, w)) == Preds(p, HeadTask(p, s, w)))
    && CLogOk(p, s.log)
    && s.store == Run(tasks, s.log, store0)
  }

  /** A counter is at its goal exactly when every predecessor has signalled. */
  lemma GoalMeansAllSignalled(p: CPlan, even: bool, s: CSys, t: nat)
    requires CPlanOk(p) && CShape(p, s) && t < |p.owner| && CounterOk(p, even, s, t)
    ensures s.counters[t] == Goal(p, even, t) <==> Signalled(p, s, t) == Preds(p, t)
  {
    var some, all := Signalled(p, s, t), Preds(p, t);
    assert some <= all && |all| == |some| + |all - some| by {
      assert some + (all - some) == all;
    }
    if some != all {
      var u :| u in all - some;
    }
  }

  lemma PredsBound(p: CPlan, t: nat)
    requires CPlanOk(p)
    ensures |Preds(p, t)| <= |p.owner| < WORD
  {
    SubsetSize(Preds(p, t), |p.owner|);
  }

  lemma {:induction false} SubsetSize(s: set<nat>, n: nat)
    requires forall x :: x in s ==> x < n
    ensures |s| <= n
  {
    if n == 0 {
      assert s == {};
    } else {
      SubsetSize(s - {n - 1}, n - 1);
    }
  }

  lemma SignalledStep(p: CPlan, tasks: seq<Task>, even: bool, s: CSys, w: nat, t: nat)
    requires CPlanOk(p) && CShape(p, s) && |tasks| == |p.owner| && CEnabled(p, even, s, Signal(w)) && t < |p.owner|
    ensures CShape(p, CApply(p, tasks, even, s, Signal(w)))
    ensures var u := HeadTask(p, s, w);
            var hit := p.succs[u][s.workers[w].pc.k] == t;
            && Signalled(p, CApply(p, tasks, even, s, Signal(w)), t) == Signalled(p, s, t) + (if hit then {u} else {})
            && (hit ==> u in Preds(p, t) && u !in Signalled(p, s, t))
  {
    var s2 := CApply(p, tasks, even, s, Signal(w));
    var u, k := HeadTask(p, s, w), s.workers[w].pc.k;
    assert p.succs[u][..k + 1] == p.succs[u][..k] + [p.succs[u][k]];
    assert p.succs[u][k] !in p.succs[u][..k];
    assert p.succs[u][k] in p.succs[u];
    forall x | x in Preds(p, t)
      ensures HasSignalled(p, s2, x, t) <==> HasSignalled(p, s, x, t) || (x == u && p.succs[u][k] == t)
    {
      assert p.tables[p.owner[x]][p.pos[x]] == x && p.pos[u] == s.workers[w].head;
    }
  }

  lemma CInvSignal(p: CPlan, tasks: seq<Task>, even: bool, store0: Store, s: CSys, w: nat)
    requires CInv(p, tasks, even, store0, s) && CEnabled(p, even, s, Signal(w))
    ensures CInv(p, tasks, even, store0, CApply(p, tasks, even, s, Signal(w)))
  {
    var s2 := CApply(p, tasks, even, s, Signal(w));
    SignalledStep(p, tasks, even, s, w, HeadTask(p, s, w));
    forall t | 0 <= t < |p.owner| ensures CounterOk(p, even, s2, t) {
      SignalCounter(p, tasks, even, s, w, t);
    }
    forall v | 0 <= v < |s2.workers|
      ensures CLogged(p, s2, v)
      ensures s2.workers[v].pc.Running? ==> Signalled(p, s2, HeadTask(p, s2, v)) == Preds(p, HeadTask(p, s2, v))
    {
      assert CLogged(p, s, v);
      if s2.workers[v].pc.Running? {
        SignalledStep(p, tasks, even, s, w, HeadTask(p, s, v));
      }
    }
  }

  lemma SignalCounter(p: CPlan, tasks: seq<Task>, even: bool, s: CSys, w: nat, t: nat)
    requires CPlanOk(p) && CShape(p, s) && |tasks| == |p.owner| && CEnabled(p, even, s, Signal(w))
    requires t < |p.owner| && CounterOk(p, even, s, t)
    ensures CShape(p, CApply(p, tasks, even, s, Signal(w)))
            && CounterOk(p, even, CApply(p, tasks, even, s, Signal(w)), t)
  {
    var s2 := CApply(p, tasks, even, s, Signal(w));
    SignalledStep(p, tasks, even, s, w, t);
    var u := HeadTask(p, s, w);
    if p.succs[u][s.workers[w].pc.k] == t {
      var c := s.counters[t];
      assert s2.counters[t] == Bump(even, c);
      PredsBound(p, t);
      SignalledSize(p, s2, t);
      assert |Signalled(p, s2, t)| == |Signalled(p, s, t)| + 1;
      BumpIsExact(even, c);
    } else {
      assert s2.counters[t] == s.counters[t];
      assert Signalled(p, s2, t) == Signalled(p, s, t);
    }
  }

  lemma BumpIsExact(even: bool, c: nat)
    requires if even then c + 1 < WORD else 0 < c < WORD
    ensures Bump(even, c) == if even then c + 1 else c - 1
  {
    assert !even ==> c + WORD - 1 == (c - 1) + WORD;
  }

  lemma SignalledSize(p: CPlan, s: CSys, t: nat)
    requires CPlanOk(p) && CShape(p, s)
    ensures |Signalled(p, s, t)| <= |Preds(p, t)|
  {
    var some, all := Signalled(p, s, t), Preds(p, t);
    assert some + (all - some) == all;
  }

  lemma QuietSignalled(p: CPlan, tasks: seq<Task>, even: bool, s: CSys, a: CAction, t: nat)
    requires CPlanOk(p) && CShape(p, s) && |tasks| == |p.owner| && CEnabled(p, even, s, a) && !a.Signal?
             && t < |p.owner|
    ensures CShape(p, CApply(p, tasks, even, s, a))
            && Signalled(p, CApply(p, tasks, even, s, a), t) == Signalled(p, s, t)
  {
    var s2 := CApply(p, tasks, even, s, a);
    forall u | u in Preds(p, t) ensures HasSignalled(p, s2, u, t) <==> HasSignalled(p, s, u, t) {
      if p.owner[u] == a.w && a.Next? && p.pos[u] == s.workers[a.w].head {
        assert p.tables[a.w][p.pos[u]] == u;
        assert p.succs[u][..s.workers[a.w].pc.k] == p.succs[u];
      }
    }
  }

  lemma CBodyLog(p: CPlan, tasks: seq<Task>, even: bool, store0: Store, s: CSys, w: nat)
    requires CInv(p, tasks, even, store0, s) && w < |s.workers| && s.workers[w].pc.Running?
    ensures CLogOk(p, s.log + [HeadTask(p, s, w)]) && HeadTask(p, s, w) !in s.log
  {
    var t := HeadTask(p, s, w);
    var log := s.log + [t];
    assert CLogged(p, s, w);
    forall i, u: nat | 0 <= i < |log| && CEnforces(p, u, log[i]) ensures u in log[..i] {
      if i < |s.log| {
        assert log[..i] == s.log[..i];
      } else {
        assert log[..i] == s.log;
        assert p.tables[p.owner[u]][p.pos[u]] == u && CLogged(p, s, p.owner[u]);
        if t in p.succs[u] {
          assert u in Signalled(p, s, t);
        } else {
          TableOrder(p.owner, |p.tables|, p.tables, p.pos, u, t);
        }
      }
    }
  }

  /** Every step keeps the counters in line with who has signalled. */
  lemma CInvStep(p: CPlan, tasks: seq<Task>, even: bool, store0: Store, s: CSys, a: CAction)
    requires CInv(p, tasks, even, store0, s) && CEnabled(p, even, s, a)
    ensures CInv(p, tasks, even, store0, CApply(p, tasks, even, s, a))
  {
    if a.Signal? {
      CInvSignal(p, tasks, even, store0, s, a.w);
    } else {
      var s2 := CApply(p, tasks, even, s, a);
      assert CShape(p, s2);
      forall t | 0 <= t < |p.owner| ensures CounterOk(p, even, s2, t) {
        assert CounterOk(p, even, s, t);
        QuietSignalled(p, tasks, even, s, a, t);
      }
      if a.Body? {
        CBodyLog(p, tasks, even, store0, s, a.w);
        RunConcat(tasks, s.log, [HeadTask(p, s, a.w)], store0);
      }
      forall v | 0 <= v < |s2.workers|
        ensures CLogged(p, s2, v)
        ensures s2.workers[v].pc.Running? ==> Signalled(p, s2, HeadTask(p, s2, v)) == Preds(p, HeadTask(p, s2, v))
      {
        CQuietWorker(p, tasks, even, store0, s, a, v);
      }
    }
  }

  lemma CQuietWorker(p: CPlan, tasks: seq<Task>, even: bool, store0: Store, s: CSys, a: CAction, v: nat)
    requires CInv(p, tasks, even, store0, s) && CEnabled(p, even, s, a) && !a.Signal? && v < |s.workers|
    ensures var s2 := CApply(p, tasks, even, s, a);
            CShape(p, s2) && CLogged(p, s2, v) &&
            (s2.workers[v].pc.Running? ==> Signalled(p, s2, HeadTask(p, s2, v)) == Preds(p, HeadTask(p, s2, v)))
  {
    CQuietLogged(p, tasks, even, store0, s, a, v);
    CQuietRunning(p, tasks, even, store0, s, a, v);
  }

  lemma CQuietLogged(p: CPlan, tasks: seq<Task>, even: bool, store0: Store, s: CSys, a: CAction, v: nat)
    requires CInv(p, tasks, even, store0, s) && CEnabled(p, even, s, a) && !a.Signal? && v < |s.workers|
    ensures var s2 := CApply(p, tasks, even, s, a); CShape(p, s2) && CLogged(p, s2, v)
  {
    assert CLogged(p, s, v);
    if a.Body? {
      var t := HeadTask(p, s, a.w);
      forall i | 0 <= i < |p.tables[v]| ensures p.tables[v][i] == t <==> v == a.w && i == s.workers[v].head {
        assert p.pos[p.tables[v][i]] == i && p.owner[p.tables[v][i]] == v;
      }
    }
  }

  lemma CQuietRunning(p: CPlan, tasks: seq<Task>, even: bool, store0: Store, s: CSys, a: CAction, v: nat)
    requires CInv(p, tasks, even, store0, s) && CEnabled(p, even, s, a) && !a.Signal? && v < |s.workers|
    requires CShape(p, CApply(p, tasks, even, s, a))
    ensures var s2 := CApply(p, tasks, even, s, a);
            s2.workers[v].pc.Running? ==> Signalled(p, s2, HeadTask(p, s2, v)) == Preds(p, HeadTask(p, s2, v))
  {
    var s2 := CApply(p, tasks, even, s, a);
    if s2.workers[v].pc.Running? {
      var t := HeadTask(p, s2, v);
      QuietSignalled(p, tasks, even, s, a, t);
      if a == Enter(v) {
        GoalMeansAllSignalled(p, even, s, t);
      }
    }
  }

  // ----- one pooled cycle

  lemma CShapeStep(p: CPlan, tasks: seq<Task>, even: bool, s: CSys, a: CAction)
    requires CPlanOk(p) && CShape(p, s) && |tasks| == |p.owner| && CEnabled(p, even, s, a)
    ensures CShape(p, CApply(p, tasks, even, s, a))
  {
    if a.Signal? {
      var u := HeadTask(p, s, a.w);
      assert p.succs[u][s.workers[a.w].pc.k] in p.succs[u];
    }
  }

  ghost predicate CRuns(p: CPlan, tasks: seq<Task>, even: bool, s: CSys, acts: seq<CAction>)
    requires CPlanOk(p) && CShape(p, s) && |tasks| == |p.owner|
    decreases |acts|
  {
    acts == [] ||
    (CEnabled(p, even, s, acts[0])
     && (CShapeStep(p, tasks, even, s, acts[0]);
         CRuns(p, tasks, even, CApply(p, tasks, even, s, acts[0]), acts[1..])))
  }

  ghost function CAfter(p: CPlan, tasks: seq<Task>, even: bool, s: CSys, acts: seq<CAction>): (s2: CSys)
    requires CPlanOk(p) && CShape(p, s) && |tasks| == |p.owner| && CRuns(p, tasks, even, s, acts)
    ensures CShape(p, s2)
    decreases |acts|
  {
    if acts == [] then s
    else
      CShapeStep(p, tasks, even, s, acts[0]);
      CAfter(p, tasks, even, CApply(p, tasks, even, s, acts[0]), acts[1..])
  }

  lemma {:induction false} CInvRun(p: CPlan, tasks: seq<Task>, even: bool, store0: Store, s: CSys, acts: seq<CAction>)
    requires CInv(p, tasks, even, store0, s) && CRuns(p, tasks, even, s, acts)
    ensures CInv(p, tasks, even, store0, CAfter(p, tasks, even, s, acts))
    decreases |acts|
  {
    if acts != [] {
      CInvStep(p, tasks, even, store0, s, acts[0]);
      CInvRun(p, tasks, even, store0, CApply(p, tasks, even, s, acts[0]), acts[1..]);
    }
  }

  function CInit(p: CPlan, store0: Store, counters: seq<nat>): CSys {
    CSys(store0, counters, seq(|p.tables|, _ => CWorker(0, Waiting)), [])
  }

  lemma CInitShape(p: CPlan, store0: Store, counters: seq<nat>)
    requires CPlanOk(p) && |counters| == |p.owner|
    ensures CShape(p, CInit(p, store0, counters))
  {
  }

  /** Counters as an even (or odd) cycle needs to find them: away from their goal. */
  ghost predicate CReady(p: CPlan, even: bool, counters: seq<nat>) {
    if even then AtZero(p, counters) else AtCounts(p, counters)
  }

  ghost predicate AtZero(p: CPlan, counters: seq<nat>) {
    |counters| == |p.owner| && forall t :: 0 <= t < |counters| ==> counters[t] == 0
  }

  ghost predicate AtCounts(p: CPlan, counters: seq<nat>) {
    |counters| == |p.owner| && forall t :: 0 <= t < |counters| ==> counters[t] == |Preds(p, t)|
  }

  lemma CInitInv(p: CPlan, tasks: seq<Task>, even: bool, store0: Store, counters: seq<nat>)
    requires CPlanOk(p) && |tasks| == |p.owner| && CReady(p, even, counters)
    ensures CInv(p, tasks, even, store0, CInit(p, store0, counters))
  {
    var s := CInit(p, store0, counters);
    assert CShape(p, s);
    forall t | 0 <= t < |p.owner| ensures CounterOk(p, even, s, t) {
      assert Signalled(p, s, t) == {};
    }
  }

  ghost predicate CDone(p: CPlan, s: CSys)
    requires CPlanOk(p) && CShape(p, s)
  {
    forall w :: 0 <= w < |s.workers| ==> s.workers[w].pc.Waiting? && s.workers[w].head == |p.tables[w]|
  }

  /** Once a cycle is over every counter sits at its goal, where the next cycle of the
      other parity needs it. */
  lemma CDoneCounters(p: CPlan, tasks: seq<Task>, even: bool, store0: Store, s: CSys)
    requires CInv(p, tasks, even, store0, s) && CDone(p, s)
    ensures CReady(p, !even, s.counters)
  {
    forall t | 0 <= t < |p.owner| ensures s.counters[t] == if even then |Preds(p, t)| else 0 {
      assert CounterOk(p, even, s, t);
      forall u | u in Preds(p, t) ensures HasSignalled(p, s, u, t) {
        assert p.pos[u] < |p.tables[p.owner[u]]|;
      }
      assert Signalled(p, s, t) == Preds(p, t);
    }
  }

  ghost function CEnforced(p: CPlan): (e: Dag)
    requires CPlanOk(p)
    ensures |e| == |p.owner| && Forward(e) && forall s: nat, t: nat :: s < |e| ==> (t in e[s] <==> CEnforces(p, s, t))
  {
    seq(|p.owner|, s requires 0 <= s < |p.owner| => set t | 0 <= t < |p.owner| && CEnforces(p, s, t))
  }

  ghost predicate CCovers(p: CPlan, dag: Dag)
    requires CPlanOk(p)
  {
    Forward(dag) && |dag| == |p.owner| && forall s: nat, t: nat :: Reach(dag, s, t) ==> Reach(CEnforced(p), s, t)
  }

  lemma {:induction false} CLogClosed(p: CPlan, log: seq<nat>, i: nat, s: nat)
    requires CPlanOk(p) && CLogOk(p, log) && i < |log| && Reach(CEnforced(p), s, log[i])
    ensures s in log[..i]
    decreases |p.owner| - s
  {
    var e := CEnforced(p);
    if log[i] in e[s] {
      assert CEnforces(p, s, log[i]);
    } else {
      var m :| m in e[s] && Reach(e, m, log[i]);
      ReachForward(e, m, log[i]);
      CLogClosed(p, log, i, m);
      var j :| 0 <= j < i && log[j] == m;
      assert CEnforces(p, s, log[j]);
      assert s in log[..j];
    }
  }

  /** The graph the counters and tables enforce orders every conflict of the tasks. */
  ghost predicate CSound(p: CPlan, dag: Dag, tasks: seq<Task>) {
    && CPlanOk(p) && |tasks| == |p.owner| && CCovers(p, dag) && ConflictsOrdered(dag, tasks)
    && forall i :: 0 <= i < |tasks| ==> TaskOk(tasks[i])
  }

  /** A pooled counter cycle that starts with counters away from their goals ends like the
      serial order, whatever the interleaving. */
  lemma CounterCycleEqualsSerial(p: CPlan, dag: Dag, tasks: seq<Task>, even: bool, store0: Store, counters: seq<nat>,
                                 acts: seq<CAction>)
    requires CSound(p, dag, tasks) && CReady(p, even, counters)
    requires CShape(p, CInit(p, store0, counters)) && CRuns(p, tasks, even, CInit(p, store0, counters), acts)
    requires CDone(p, CAfter(p, tasks, even, CInit(p, store0, counters), acts))
    ensures var s := CAfter(p, tasks, even, CInit(p, store0, counters), acts);
            s.store == Run(tasks, Upto(|tasks|), store0) && CReady(p, !even, s.counters)
  {
    CInitInv(p, tasks, even, store0, counters);
    CInvRun(p, tasks, even, store0, CInit(p, store0, counters), acts);
    var s := CAfter(p, tasks, even, CInit(p, store0, counters), acts);
    CDoneCounters(p, tasks, even, store0, s);
    forall x: nat | x < |tasks| ensures x in s.log {
      assert CLogged(p, s, p.owner[x]);
      assert p.tables[p.owner[x]][p.pos[x]] == x;
    }
    forall i, j | 0 <= i < j < |s.log| && s.log[i] > s.log[j]
      ensures Independent(tasks[s.log[i]], tasks[s.log[j]])
    {
      if Reach(dag, s.log[j], s.log[i]) {
        CLogClosed(p, s.log, i, s.log[j]);
      }
    }
    SerialEquivalence(tasks, s.log, |tasks|, store0);
  }

  /** With the reduced cross-worker edges as successor lists, the whole task graph is kept. */
  lemma ReducedListsCover(p: CPlan, dag: Dag)
    requires CPlanOk(p) && Forward(dag) && |dag| == |p.owner|
    requires var cross := SplitCross(dag, p.owner);
             var e := Effective(cross, p.owner, true);
             && Forward(e) && SubDag(cross, e)
             && forall s, t :: 0 <= s < |dag| ==> (t in p.succs[s] <==> t in Reduced(cross, e)[s])
    ensures CCovers(p, dag)
  {
    var cross := SplitCross(dag, p.owner);
    var e := Effective(cross, p.owner, true);
    var enf := CEnforced(p);
    RetainedShape(cross, e);
    var r := Retained(cross, e);
    forall s | 0 <= s < |r| ensures r[s] <= enf[s] {
      forall t | t in r[s] ensures t in enf[s] {
        assert r[s] == (e[s] - cross[s]) + KeptFrom(cross, e, s);
        assert t in KeptFrom(cross, e, s) ==> t in p.succs[s];
        assert t !in KeptFrom(cross, e, s) ==> NextOnWorker(p.owner, s, t);
        assert CEnforces(p, s, t);
      }
    }
    forall s: nat, t: nat | Reach(dag, s, t) ensures Reach(enf, s, t) {
      CoverPath(p, dag, cross, e, s, t);
    }
  }

  lemma {:induction false} CoverPath(p: CPlan, dag: Dag, cross: Dag, e: Dag, s: nat, t: nat)
    requires CPlanOk(p) && Forward(dag) && |dag| == |p.owner| && cross == SplitCross(dag, p.owner) && Forward(e)
             && SubDag(cross, e)
    requires Forward(Retained(cross, e)) && SubDag(Retained(cross, e), CEnforced(p)) && Reach(dag, s, t)
    ensures Reach(CEnforced(p), s, t)
    decreases |dag| - s
  {
    var enf := CEnforced(p);
    var m := t;
    if t !in dag[s] {
      m :| m in dag[s] && Reach(dag, m, t);
    }
    if p.owner[s] == p.owner[m] {
      assert CEnforces(p, s, m);
    } else {
      assert m in e[s];
      ReductionKeepsReach(cross, e, s, m);
      ReachMono(Retained(cross, e), enf, s, m);
    }
    if m != t {
      CoverPath(p, dag, cross, e, m, t);
      ReachTrans(enf, s, m, t);
    }
  }

  // ----- progress of a cycle that started ready

  /** When no worker is inside a body or signalling, the smallest task that has not run is
      its owner's head and its counter is at its goal. */
  lemma CLeastTaskMayEnter(p: CPlan, tasks: seq<Task>, even: bool, store0: Store, s: CSys, u: nat)
    requires CInv(p, tasks, even, store0, s) && forall w :: 0 <= w < |s.workers| ==> s.workers[w].pc.Waiting?
    requires u < |p.owner| && u !in s.log && forall t: nat :: t < u ==> t in s.log
    ensures CEnabled(p, even, s, Enter(p.owner[u])) && HeadTask(p, s, p.owner[u]) == u
  {
    var w := p.owner[u];
    assert CLogged(p, s, w) && p.tables[w][p.pos[u]] == u;
    forall i | 0 <= i < p.pos[u] ensures p.tables[w][i] in s.log {
      assert Ascending(p.tables[w]);
    }
    forall x | x in Preds(p, u) ensures HasSignalled(p, s, x, u) {
      assert x < u && CLogged(p, s, p.owner[x]) && p.tables[p.owner[x]][p.pos[x]] == x;
    }
    assert Signalled(p, s, u) == Preds(p, u);
    GoalMeansAllSignalled(p, even, s, u);
  }

  /** Until the cycle is over some worker can step. */
  lemma CSomebodySteps(p: CPlan, tasks: seq<Task>, even: bool, store0: Store, s: CSys) returns (a: CAction)
    requires CInv(p, tasks, even, store0, s) && !CDone(p, s)
    ensures CEnabled(p, even, s, a)
  {
    if w :| 0 <= w < |s.workers| && !s.workers[w].pc.Waiting? {
      a := if s.workers[w].pc.Running? then Body(w)
           else if s.workers[w].pc.k < |p.succs[HeadTask(p, s, w)]| then Signal(w)
           else Next(w);
    } else {
      var v :| 0 <= v < |s.workers| && s.workers[v].head != |p.tables[v]|;
      assert CLogged(p, s, v) && p.tables[v][s.workers[v].head] !in s.log;
      var u := LeastMissing(s.log, 0, |p.owner|);
      CLeastTaskMayEnter(p, tasks, even, store0, s, u);
      a := Enter(p.owner[u]);
    }
  }

  /** Steps still owed by worker w: entering, running, signalling and leaving each task. */
  ghost function RowWork(p: CPlan, w: nat, from: nat): nat
    requires CPlanOk(p) && w < |p.tables| && from <= |p.tables[w]|
    decreases |p.tables[w]| - from
  {
    if from == |p.tables[w]| then 0 else 3 + |p.succs[p.tables[w][from]]| + RowWork(p, w, from + 1)
  }

  ghost function WorkerWork(p: CPlan, s: CSys, w: nat): nat
    requires CPlanOk(p) && CShape(p, s) && w < |s.workers|
  {
    var wk := s.workers[w];
    RowWork(p, w, wk.head) - match wk.pc case Waiting => 0 case Running => 1 case Signalling(k) => 2 + k
  }

  ghost function CWork(p: CPlan, s: CSys, upTo: nat): nat
    requires CPlanOk(p) && CShape(p, s) && upTo <= |s.workers|
  {
    if upTo == 0 then 0 else CWork(p, s, upTo - 1) + WorkerWork(p, s, upTo - 1)
  }

  lemma WorkerWorkStep(p: CPlan, tasks: seq<Task>, even: bool, s: CSys, a: CAction, w: nat)
    requires CPlanOk(p) && CShape(p, s) && |tasks| == |p.owner| && CEnabled(p, even, s, a) && w < |s.workers|
    requires CShape(p, CApply(p, tasks, even, s, a))
    ensures WorkerWork(p, CApply(p, tasks, even, s, a), w) == WorkerWork(p, s, w) - if a.w == w then 1 else 0
  {
    var s2 := CApply(p, tasks, even, s, a);
    if a.w != w {
      assert s2.workers[w] == s.workers[w];
    }
  }

  lemma {:induction false} CWorkStep(p: CPlan, tasks: seq<Task>, even: bool, s: CSys, a: CAction, upTo: nat)
    requires CPlanOk(p) && CShape(p, s) && |tasks| == |p.owner| && CEnabled(p, even, s, a) && upTo <= |s.workers|
    requires CShape(p, CApply(p, tasks, even, s, a))
    ensures CWork(p, CApply(p, tasks, even, s, a), upTo) == CWork(p, s, upTo) - if a.w < upTo then 1 else 0
  {
    if upTo > 0 {
      CWorkStep(p, tasks, even, s, a, upTo - 1);
      WorkerWorkStep(p, tasks, even, s, a, upTo - 1);
    }
  }

  /** Waiting is no step, so every run is as long as the work it has done: no schedule can go
      on for ever, and one that cannot go on has finished the cycle. */
  lemma {:induction false} CRunsEnd(p: CPlan, tasks: seq<Task>, even: bool, store0: Store, s: CSys, acts: seq<CAction>)
    requires CInv(p, tasks, even, store0, s) && CRuns(p, tasks, even, s, acts)
    ensures var s2 := CAfter(p, tasks, even, s, acts);
            && |acts| + CWork(p, s2, |s2.workers|) == CWork(p, s, |s.workers|)
            && ((forall a :: !CEnabled(p, even, s2, a)) ==> CDone(p, s2))
    decreases |acts|
  {
    if acts == [] {
      if !CDone(p, s) {
        var a := CSomebodySteps(p, tasks, even, store0, s);
      }
    } else {
      CInvStep(p, tasks, even, store0, s, acts[0]);
      CWorkStep(p, tasks, even, s, acts[0], |s.workers|);
      CRunsEnd(p, tasks, even, store0, CApply(p, tasks, even, s, acts[0]), acts[1..]);
    }
  }
}
