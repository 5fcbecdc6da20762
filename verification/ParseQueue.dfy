/** The parse threads and their shared queue (src/firParser.cpp, parseFunc and the second
    half of parseFIR). Taking from the queue happens under a mutex and is one step. */
module ParseQueue {

  /** An exit flag has length 0, a task its length plus one for the terminator. */
  datatype Entry = Exit | Real(id: nat, len: nat)

  function Len(e: Entry): nat {
    if e.Exit? then 0 else e.len
  }

  datatype Thread = Waiting | Parsing(id: nat) | Done

  /** lists[id] is what parsing task id produced. */
  datatype State = State(queue: seq<Entry>, threads: seq<Thread>, taken: seq<nat>, lists: map<nat, int>)

  datatype Action = Take(t: nat) | Finish(t: nat)

  ghost predicate Enabled(s: State, a: Action) {
    && a.t < |s.threads|
    && match a
       case Take(t) => s.threads[t].Waiting? && s.queue != []
       case Finish(t) => s.threads[t].Parsing?
  }

  /** A thread pops the back of the queue, and later stores its result. */
  ghost function Apply(parse: nat -> int, s: State, a: Action): State
    requires Enabled(s, a)
  {
    match a
    case Take(t) =>
      var e := s.queue[|s.queue| - 1];
      var rest := s.queue[..|s.queue| - 1];
      match e {
        case Exit => s.(queue := rest, threads := s.threads[t := Done])
        case Real(id, _) => s.(queue := rest, threads := s.threads[t := Parsing(id)], taken := s.taken + [id])
      }
    case Finish(t) =>
      var id := s.threads[t].id;
      s.(threads := s.threads[t := Waiting], lists := s.lists[id := parse(id)])
  }

  // ----- the sorted queue

  /** Sorted by length, with every task at least as long as its terminator. */
  ghost predicate Sorted(q: seq<Entry>) {
    && (forall i, j :: 0 <= i < j < |q| ==> Len(q[i]) <= Len(q[j]))
    && (forall i :: 0 <= i < |q| && q[i].Real? ==> q[i].len > 0)
  }

  /** Behind a task there is no exit flag. */
  ghost predicate ExitsFirst(q: seq<Entry>) {
    forall i, j :: 0 <= i < j < |q| && q[j].Exit? ==> q[i].Exit?
  }

  lemma SortedExitsFirst(q: seq<Entry>)
    requires Sorted(q)
    ensures ExitsFirst(q)
  {
  }

  ghost predicate Queued(q: seq<Entry>, id: nat) {
    exists i :: 0 <= i < |q| && q[i].Real? && q[i].id == id
  }

  ghost predicate DistinctIds(q: seq<Entry>) {
    forall i, j :: 0 <= i < j < |q| && q[i].Real? && q[j].Real? ==> q[i].id != q[j].id
  }

  function Exits(q: seq<Entry>): nat {
    if q == [] then 0 else Exits(q[..|q| - 1]) + if q[|q| - 1].Exit? then 1 else 0
  }

  function Alive(ts: seq<Thread>, n: nat): nat
    requires n <= |ts|
  {
    if n == 0 then 0 else Alive(ts, n - 1) + if ts[n - 1].Done? then 0 else 1
  }

  lemma {:induction false} AliveChange(ts: seq<Thread>, us: seq<Thread>, t: nat, n: nat)
    requires n <= |ts| == |us| && t < |ts| && us == ts[t := us[t]]
    ensures Alive(us, n)
            == Alive(ts, n) + (if t < n then (if us[t].Done? then 0 else 1) - (if ts[t].Done? then 0 else 1) else 0)
  {
    if n > 0 {
      AliveChange(ts, us, t, n - 1);
    }
  }

  lemma {:induction false} AliveWitness(ts: seq<Thread>, n: nat)
    requires n <= |ts|
    ensures Alive(ts, n) > 0 <==> exists t :: 0 <= t < n && !ts[t].Done?
  {
    if n > 0 {
      AliveWitness(ts, n - 1);
    }
  }

  lemma {:induction false} ExitsWitness(q: seq<Entry>)
    ensures Exits(q) > 0 ==> q != [] && exists i :: 0 <= i < |q| && q[i].Exit?
    ensures Exits(q) <= |q|
  {
    if q != [] {
      ExitsWitness(q[..|q| - 1]);
    }
  }

  // ----- invariant

  ghost predicate NoDup(xs: seq<nat>) {
    forall i, j :: 0 <= i < j < |xs| ==> xs[i] != xs[j]
  }

  /** Every task is queued or taken, never both and never twice. */
  ghost predicate Accounted(s: State, n: nat) {
    && DistinctIds(s.queue) && NoDup(s.taken)
    && (forall id: nat :: id < n <==> Queued(s.queue, id) || id in s.taken)
    && (forall id: nat :: Queued(s.queue, id) ==> id !in s.taken)
  }

  /** A taken task is being parsed by one thread, or its result is stored. */
  ghost predicate InHand(parse: nat -> int, s: State) {
    && (forall t :: 0 <= t < |s.threads| && s.threads[t].Parsing? ==>
          s.threads[t].id in s.taken && s.threads[t].id !in s.lists)
    && (forall t, u :: 0 <= t < u < |s.threads| && s.threads[t].Parsing? && s.threads[u].Parsing? ==>
          s.threads[t].id != s.threads[u].id)
    && (forall id: nat :: id in s.lists ==> id in s.taken && s.lists[id] == parse(id))
    && (forall id: nat :: id in s.taken && id !in s.lists ==>
          exists t :: 0 <= t < |s.threads| && s.threads[t] == Parsing(id))
  }

  ghost predicate Inv(parse: nat -> int, s: State, n: nat) {
    && ExitsFirst(s.queue) && Exits(s.queue) == Alive(s.threads, |s.threads|)
    && Accounted(s, n) && InHand(parse, s)
    && DoneSaw(s)
  }

  ghost predicate Init(s: State, n: nat, workers: nat) {
    && s.threads == seq(workers, i => Waiting) && s.taken == [] && s.lists == map[]
    && Sorted(s.queue) && Exits(s.queue) == workers && DistinctIds(s.queue)
    && (forall id: nat :: id < n <==> Queued(s.queue, id))
  }

  lemma {:induction false} AllWaiting(ts: seq<Thread>, n: nat)
    requires n <= |ts| && forall i :: 0 <= i < |ts| ==> ts[i] == Waiting
    ensures Alive(ts, n) == n
  {
    if n > 0 {
      AllWaiting(ts, n - 1);
    }
  }

  lemma InitInv(parse: nat -> int, s: State, n: nat, workers: nat)
    requires Init(s, n, workers)
    ensures Inv(parse, s, n)
  {
    SortedExitsFirst(s.queue);
    AllWaiting(s.threads, workers);
  }

  lemma QueuedPop(q: seq<Entry>, id: nat)
    requires q != []
    ensures var last := q[|q| - 1];
            Queued(q, id) <==> Queued(q[..|q| - 1], id) || (last.Real? && last.id == id)
  {
    if Queued(q, id) {
      var i :| 0 <= i < |q| && q[i].Real? && q[i].id == id;
      assert i < |q| - 1 ==> q[..|q| - 1][i] == q[i];
    }
    if Queued(q[..|q| - 1], id) {
      var i :| 0 <= i < |q| - 1 && q[..|q| - 1][i].Real? && q[..|q| - 1][i].id == id;
      assert q[i] == q[..|q| - 1][i];
    }
  }

  lemma TakeAccounted(parse: nat -> int, s: State, t: nat, n: nat)
    requires Accounted(s, n) && Enabled(s, Take(t))
    ensures Accounted(Apply(parse, s, Take(t)), n)
    ensures var e := s.queue[|s.queue| - 1]; e.Real? ==> e.id !in s.taken
  {
    var q := s.queue;
    var s2 := Apply(parse, s, Take(t));
    var last := q[|q| - 1];
    assert last.Real? ==> Queued(q, last.id);
    forall id: nat
      ensures (id < n <==> Queued(s2.queue, id) || id in s2.taken) && (Queued(s2.queue, id) ==> id !in s2.taken)
    {
      QueuedPop(q, id);
      if Queued(s2.queue, id) && last.Real? {
        var i :| 0 <= i < |s2.queue| && s2.queue[i].Real? && s2.queue[i].id == id;
        assert q[i].id != last.id;
      }
    }
  }

  lemma TakeInHand(parse: nat -> int, s: State, t: nat, n: nat)
    requires Accounted(s, n) && InHand(parse, s) && Enabled(s, Take(t))
    ensures InHand(parse, Apply(parse, s, Take(t)))
  {
    var s2 := Apply(parse, s, Take(t));
    TakeAccounted(parse, s, t, n);
    forall id: nat | id in s2.taken && id !in s2.lists
      ensures exists u :: 0 <= u < |s2.threads| && s2.threads[u] == Parsing(id)
    {
      if id in s.taken {
        var u :| 0 <= u < |s.threads| && s.threads[u] == Parsing(id);
        assert s2.threads[u] == Parsing(id);
      } else {
        assert s2.threads[t] == Parsing(id);
      }
    }
  }

  lemma FinishInHand(parse: nat -> int, s: State, t: nat)
    requires InHand(parse, s) && Enabled(s, Finish(t))
    ensures InHand(parse, Apply(parse, s, Finish(t)))
  {
    var s2 := Apply(parse, s, Finish(t));
    forall id: nat | id in s2.taken && id !in s2.lists
      ensures exists u :: 0 <= u < |s2.threads| && s2.threads[u] == Parsing(id)
    {
      var u :| 0 <= u < |s.threads| && s.threads[u] == Parsing(id);
      assert s2.threads[u] == Parsing(id);
    }
  }

  /** A thread that has returned saw nothing but exit flags left. */
  ghost predicate DoneSaw(s: State) {
    forall t :: 0 <= t < |s.threads| && s.threads[t].Done? ==> forall i :: 0 <= i < |s.queue| ==> s.queue[i].Exit?
  }

  lemma TakeDone(parse: nat -> int, s: State, t: nat)
    requires ExitsFirst(s.queue) && DoneSaw(s) && Enabled(s, Take(t))
    ensures DoneSaw(Apply(parse, s, Take(t)))
  {
    var s2 := Apply(parse, s, Take(t));
    var last := |s.queue| - 1;
    forall u, i | 0 <= u < |s2.threads| && s2.threads[u].Done? && 0 <= i < |s2.queue| ensures s2.queue[i].Exit? {
      assert s2.queue[i] == s.queue[i];
      assert u == t ==> s.queue[last].Exit?;
    }
  }

  /** Every step keeps the books. */
  lemma InvStep(parse: nat -> int, s: State, n: nat, a: Action)
    requires Inv(parse, s, n) && Enabled(s, a)
    ensures Inv(parse, Apply(parse, s, a), n)
  {
    var s2 := Apply(parse, s, a);
    AliveChange(s.threads, s2.threads, a.t, |s.threads|);
    match a {
      case Take(t) =>
        TakeAccounted(parse, s, t, n);
        TakeInHand(parse, s, t, n);
        TakeDone(parse, s, t);
      case Finish(t) =>
        FinishInHand(parse, s, t);
    }
  }

  /** An exit flag is taken only when every task has been taken. */
  lemma ExitOnlyAfterAllTasks(parse: nat -> int, s: State, n: nat, t: nat)
    requires Inv(parse, s, n) && Enabled(s, Take(t)) && s.queue[|s.queue| - 1].Exit?
    ensures forall id: nat :: id < n ==> id in s.taken
  {
    forall i | 0 <= i < |s.queue| ensures s.queue[i].Exit? {
    }
    forall id: nat | id < n ensures id in s.taken {
      assert !Queued(s.queue, id);
    }
  }

  /** While a thread is alive, somebody can step. */
  lemma NoDeadlock(parse: nat -> int, s: State, n: nat, t: nat)
    requires Inv(parse, s, n) && t < |s.threads| && !s.threads[t].Done?
    ensures Enabled(s, Take(t)) || Enabled(s, Finish(t))
  {
    AliveWitness(s.threads, |s.threads|);
    ExitsWitness(s.queue);
  }

  // ----- whole runs

  ghost predicate Runs(parse: nat -> int, s: State, acts: seq<Action>)
    decreases |acts|
  {
    acts == [] || (Enabled(s, acts[0]) && Runs(parse, Apply(parse, s, acts[0]), acts[1..]))
  }

  ghost function After(parse: nat -> int, s: State, acts: seq<Action>): State
    requires Runs(parse, s, acts)
    decreases |acts|
  {
    if acts == [] then s else After(parse, Apply(parse, s, acts[0]), acts[1..])
  }

  function Busy(ts: seq<Thread>, n: nat): nat
    requires n <= |ts|
  {
    if n == 0 then 0 else Busy(ts, n - 1) + if ts[n - 1].Parsing? then 1 else 0
  }

  lemma {:induction false} BusyChange(ts: seq<Thread>, us: seq<Thread>, t: nat, n: nat)
    requires n <= |ts| == |us| && t < |ts| && us == ts[t := us[t]]
    ensures Busy(us, n)
            == Busy(ts, n) + (if t < n then (if us[t].Parsing? then 1 else 0) - (if ts[t].Parsing? then 1 else 0)
            else 0)
  {
    if n > 0 {
      BusyChange(ts, us, t, n - 1);
    }
  }

  /** Each step uses up work: a run has at most two steps for each queue entry. */
  lemma {:induction false} RunsAreBounded(parse: nat -> int, s: State, n: nat, acts: seq<Action>)
    requires Inv(parse, s, n) && Runs(parse, s, acts)
    ensures Inv(parse, After(parse, s, acts), n)
    ensures |acts| <= 2 * |s.queue| + Busy(s.threads, |s.threads|)
    decreases |acts|
  {
    if acts != [] {
      var s2 := Apply(parse, s, acts[0]);
      InvStep(parse, s, n, acts[0]);
      BusyChange(s.threads, s2.threads, acts[0].t, |s.threads|);
      RunsAreBounded(parse, s2, n, acts[1..]);
    }
  }

  /** Merging the lists in id order. */
  ghost function Merged(lists: map<nat, int>, n: nat): seq<int>
    requires forall id: nat :: id < n ==> id in lists
  {
    seq(n, i requires 0 <= i < n => lists[i])
  }

  /** When all threads have returned, the queue is empty, every task was taken once, and
      the merged lists are the results of the tasks in source order. */
  lemma ParseCompletes(parse: nat -> int, s0: State, n: nat, workers: nat, acts: seq<Action>)
    requires workers > 0 && Init(s0, n, workers) && Runs(parse, s0, acts)
    requires forall t :: 0 <= t < |After(parse, s0, acts).threads| ==> After(parse, s0, acts).threads[t].Done?
    ensures var s := After(parse, s0, acts);
            && s.queue == [] && NoDup(s.taken) && (forall id: nat :: id < n <==> id in s.taken)
            && (forall id: nat :: id < n ==> id in s.lists)
            && Merged(s.lists, n) == seq(n, i requires 0 <= i => parse(i))
  {
    InitInv(parse, s0, n, workers);
    RunsAreBounded(parse, s0, n, acts);
    ThreadsStay(parse, s0, acts);
    var s := After(parse, s0, acts);
    AliveWitness(s.threads, |s.threads|);
    assert s.threads[0].Done?;
    AllExits(s.queue);
    assert s.queue == [];
    forall id: nat ensures (id < n <==> id in s.taken) && (id < n ==> id in s.lists) {
      assert !Queued(s.queue, id);
    }
  }

  lemma {:induction false} AllExits(q: seq<Entry>)
    requires forall i :: 0 <= i < |q| ==> q[i].Exit?
    ensures Exits(q) == |q|
  {
    if q != [] {
      AllExits(q[..|q| - 1]);
    }
  }

  lemma {:induction false} ThreadsStay(parse: nat -> int, s: State, acts: seq<Action>)
    requires Runs(parse, s, acts)
    ensures |After(parse, s, acts).threads| == |s.threads|
    decreases |acts|
  {
    if acts != [] {
      ThreadsStay(parse, Apply(parse, s, acts[0]), acts[1..]);
    }
  }
}
