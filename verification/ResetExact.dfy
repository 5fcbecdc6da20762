/** When splitting a reset body is right: all its conditions read one variable, which a
    register that is its own reset writes (src/cppEmitterReset.cpp, genResetDef). */
module ResetExact {
  import opened ResetChunks
  import opened ResetBody

  // ----- what statements and conditions may do

  ghost predicate SameAt(st1: Store, st2: Store, v: nat) {
    (v in st1 <==> v in st2) && (v in st1 ==> st1[v] == st2[v])
  }

  ghost predicate Writes(sem: Sem, node: nat -> nat, s: nat, st: Store) {
    var r := sem.run(s, st);
    node(s) in r && forall m: nat :: m != node(s) ==> SameAt(r, st, m)
  }

  ghost predicate ReadsOnly(sem: Sem, c: nat, v: nat, st1: Store, st2: Store) {
    SameAt(st1, st2, v) ==> sem.test(c, st1) == sem.test(c, st2)
  }

  /** A statement assigns its own node, and conditions read v only. */
  ghost predicate Fits(sem: Sem, node: nat -> nat, v: nat) {
    && (forall s: nat, st: Store :: Writes(sem, node, s, st))
    && (forall c: nat, st1: Store, st2: Store :: ReadsOnly(sem, c, v, st1, st2))
  }

  // ----- the condition

  /** A statement of the block before k assigns v. */
  predicate Wrote(insts: seq<Inst>, node: nat -> nat, v: nat, k: nat)
    requires k <= |insts|
  {
    k > 0 && match insts[k - 1]
             case Str(s) => node(s) == v || Wrote(insts, node, v, k - 1)
             case Other => Wrote(insts, node, v, k - 1)
             case _ => false
  }

  /** The block has a statement at k or later. */
  predicate StrComes(insts: seq<Inst>, k: nat)
    requires k <= |insts|
    decreases |insts| - k
  {
    k < |insts| && (insts[k].Str? || (insts[k].Other? && StrComes(insts, k + 1)))
  }

  /** A split at k, after v was assigned in the block and before another of its statements. */
  predicate LateAt(insts: seq<Inst>, n: nat, node: nat -> nat, v: nat, k: nat)
    requires k < |insts|
  {
    SplitsBefore(n, EmittedAt(insts, n, k), insts[k]) && Wrote(insts, node, v, k) && StrComes(insts, k)
  }

  ghost predicate Timely(insts: seq<Inst>, n: nat, node: nat -> nat, v: nat) {
    forall k: nat :: k < |insts| ==> !LateAt(insts, n, node, v, k)
  }

  // ----- flat streams

  lemma {:induction false} FlatAt(insts: seq<Inst>, k: nat)
    requires Flat(insts) && k <= |insts|
    ensures Flat(insts[..k]) && (k < |insts| ==> FlatNext(OpenAfter(insts[..k]), insts[k]))
    decreases |insts|
  {
    if k == |insts| {
      assert insts[..k] == insts;
    } else {
      var front := insts[..|insts| - 1];
      if k < |insts| - 1 {
        FlatAt(front, k);
        assert front[..k] == insts[..k];
      }
    }
  }

  // ----- body and chain side by side

  /** Before each instruction: the open arms, whether there is a split, the state of the body,
      and that of the chain before and after the split. */
  datatype Trace = Trace(arms: seq<seq<Arm>>, split: seq<bool>, body: seq<Exec>, chain: seq<Exec>, ready: seq<Exec>)

  ghost predicate Sized(insts: seq<Inst>, t: Trace) {
    |t.arms| == |t.body| == |t.chain| == |insts| + 1 && |t.split| == |t.ready| == |insts|
  }

  /** A split tests the open condition again, and changes nothing else. */
  ghost predicate StepOk(sem: Sem, insts: seq<Inst>, t: Trace, k: nat)
    requires Sized(insts, t)
  {
    k < |insts| ==>
      && FlatNext(Some(t.arms[k]), insts[k]) && NextOpen(t.arms[k], insts[k]) == Some(t.arms[k + 1])
      && t.body[k + 1] == StepInst(sem, insts[k], t.body[k]) && t.chain[k + 1] == StepInst(sem, insts[k], t.ready[k])
      && t.ready[k].st == t.chain[k].st
      && t.ready[k].active
         == if !t.split[k] then t.chain[k].active
            else if t.arms[k] == [] then [] else [sem.test(t.arms[k][0].cond, t.chain[k].st)]
  }

  ghost predicate TraceOk(sem: Sem, insts: seq<Inst>, st: Store, t: Trace) {
    && Sized(insts, t) && t.arms[0] == [] && t.body[0] == Exec([], st) && t.chain[0] == Exec([], st)
    && forall k: nat :: k < |insts| ==> StepOk(sem, insts, t, k)
  }

  function Opened(insts: seq<Inst>, k: nat): seq<Arm>
    requires k <= |insts|
  {
    var o := OpenAfter(insts[..k]);
    if o.None? then [] else o.arms
  }

  /** The chain when instruction k is next, after the split there if any. */
  function Ready(sem: Sem, insts: seq<Inst>, n: nat, k: nat, st: Store): Exec
    requires k < |insts|
  {
    var e := EmittedAt(insts, n, k);
    EmittedRun(sem, if SplitsBefore(n, e, insts[k]) then Split(e) else e, st)
  }

  function TraceOf(sem: Sem, insts: seq<Inst>, n: nat, st: Store): (t: Trace)
    ensures Sized(insts, t)
  {
    Trace(seq(|insts| + 1, k requires 0 <= k <= |insts| => Opened(insts, k)),
          seq(|insts|, k requires 0 <= k < |insts| => SplitsBefore(n, EmittedAt(insts, n, k), insts[k])),
          seq(|insts| + 1, k requires 0 <= k <= |insts| => Prefix(sem, insts, k, st)),
          seq(|insts| + 1, k requires 0 <= k <= |insts| => EmittedRun(sem, EmittedAt(insts, n, k), st)),
          seq(|insts|, k requires 0 <= k < |insts| => Ready(sem, insts, n, k, st)))
  }

  lemma FlagsOfOne(sem: Sem, c: nat, st: Store)
    ensures Flags(sem, [c], st) == [sem.test(c, st)] && Flags(sem, [], st) == []
  {
    assert [c][..0] == [];
  }

  lemma SplitTests(sem: Sem, insts: seq<Inst>, n: nat, k: nat, st: Store)
    requires Flat(insts) && Balanced(insts) && k < |insts|
    ensures var e, arms := EmittedAt(insts, n, k), Opened(insts, k);
            var y := EmittedRun(sem, e, st);
            EmittedRun(sem, Split(e), st) == Exec(if arms == [] then [] else [sem.test(arms[0].cond, y.st)], y.st)
  {
    var e := EmittedAt(insts, n, k);
    FlatAt(insts, k);
    ShapeAt(insts, n, k);
    SplitRun(sem, insts, k, n, e, st);
    var arms := Opened(insts, k);
    if arms == [] {
      assert e.openIfs == [];
    } else {
      assert e.openIfs == [arms[0].cond];
      FlagsOfOne(sem, arms[0].cond, EmittedRun(sem, e, st).st);
    }
  }

  lemma OpenedStep(insts: seq<Inst>, k: nat)
    requires Flat(insts) && k < |insts|
    ensures FlatNext(Some(Opened(insts, k)), insts[k])
    ensures NextOpen(Opened(insts, k), insts[k]) == Some(Opened(insts, k + 1))
  {
    FlatAt(insts, k);
    OpenStep(insts, k);
  }

  lemma ReadyStep(sem: Sem, insts: seq<Inst>, n: nat, k: nat, st: Store)
    requires Flat(insts) && Balanced(insts) && k < |insts|
    ensures EmittedRun(sem, EmittedAt(insts, n, k + 1), st) == StepInst(sem, insts[k], Ready(sem, insts, n, k, st))
    ensures var e, arms, r := EmittedAt(insts, n, k), Opened(insts, k), Ready(sem, insts, n, k, st);
            var y := EmittedRun(sem, e, st);
            r == if !SplitsBefore(n, e, insts[k]) then y
                 else Exec(if arms == [] then [] else [sem.test(arms[0].cond, y.st)], y.st)
  {
    var e := EmittedAt(insts, n, k);
    SplitTests(sem, insts, n, k, st);
    EmitRun(sem, if SplitsBefore(n, e, insts[k]) then Split(e) else e, insts[k], st);
  }

  lemma TraceStep(sem: Sem, insts: seq<Inst>, n: nat, k: nat, st: Store)
    requires Flat(insts) && Balanced(insts) && k < |insts|
    ensures StepOk(sem, insts, TraceOf(sem, insts, n, st), k)
  {
    var t := TraceOf(sem, insts, n, st);
    assert t.arms[k] == Opened(insts, k) && t.arms[k + 1] == Opened(insts, k + 1);
    assert t.body[k] == Prefix(sem, insts, k, st) && t.body[k + 1] == Prefix(sem, insts, k + 1, st);
    assert t.chain[k + 1] == EmittedRun(sem, EmittedAt(insts, n, k + 1), st);
    OpenedStep(insts, k);
    PrefixStep(sem, insts, k, st);
    ReadyStep(sem, insts, n, k, st);
  }

  lemma TraceIsOk(sem: Sem, insts: seq<Inst>, n: nat, st: Store)
    requires Flat(insts) && Balanced(insts)
    ensures TraceOk(sem, insts, st, TraceOf(sem, insts, n, st))
  {
    assert insts[..0] == [];
    forall k: nat | k < |insts| ensures StepOk(sem, insts, TraceOf(sem, insts, n, st), k) {
      TraceStep(sem, insts, n, k, st);
    }
  }

  /** At the end the trace holds both results. */
  lemma TraceEnds(sem: Sem, insts: seq<Inst>, n: nat, st: Store)
    requires Flat(insts) && Balanced(insts)
    ensures var t := TraceOf(sem, insts, n, st);
            RightFrom(sem, insts, n, st) <==> t.chain[|insts|].st == t.body[|insts|].st
  {
    ShapeAt(insts, n, |insts|);
    FinishRun(sem, insts, n, EmittedAt(insts, n, |insts|), st);
    assert insts[..|insts|] == insts;
  }

  /** As many flags as arms. */
  lemma {:induction false} FlagPerArm(sem: Sem, insts: seq<Inst>, st: Store, t: Trace, k: nat)
    requires TraceOk(sem, insts, st, t) && k <= |insts|
    ensures |t.body[k].active| == |t.chain[k].active| == |t.arms[k]|
    ensures k < |insts| ==> |t.ready[k].active| == |t.arms[k]| <= 1
  {
    if k > 0 {
      FlagPerArm(sem, insts, st, t, k - 1);
      assert StepOk(sem, insts, t, k - 1);
    }
    assert StepOk(sem, insts, t, k);
  }

  // ----- if

  lemma StatementKeeps(sem: Sem, node: nat -> nat, v: nat, s: nat, st: Store, c: nat)
    requires Fits(sem, node, v) && node(s) != v
    ensures sem.test(c, sem.run(s, st)) == sem.test(c, st)
  {
    assert Writes(sem, node, s, st);
    assert ReadsOnly(sem, c, v, sem.run(s, st), st);
  }

  /** Until v is assigned, the open block is executed as its condition says now. */
  lemma {:induction false} FlagIsCurrent(sem: Sem, insts: seq<Inst>, node: nat -> nat, v: nat, st: Store, t: Trace,
                                         k: nat)
    requires TraceOk(sem, insts, st, t) && Fits(sem, node, v) && k <= |insts| && !Wrote(insts, node, v, k)
    requires |t.arms[k]| == 1
    ensures t.body[k].active == [sem.test(t.arms[k][0].cond, t.body[k].st)]
  {
    if k > 0 {
      assert StepOk(sem, insts, t, k - 1);
      FlagPerArm(sem, insts, st, t, k - 1);
      match insts[k - 1] {
        case If(_) =>
        case Str(s) =>
          FlagIsCurrent(sem, insts, node, v, st, t, k - 1);
          StatementKeeps(sem, node, v, s, t.body[k - 1].st, t.arms[k][0].cond);
        case Other => FlagIsCurrent(sem, insts, node, v, st, t, k - 1);
        case _ =>
      }
    }
  }

  /** Same values, and same flags as long as a statement is to come. */
  ghost predicate Sync(insts: seq<Inst>, k: nat, x: Exec, y: Exec)
    requires k <= |insts|
  {
    x.st == y.st && |x.active| == |y.active| && (StrComes(insts, k) ==> x.active == y.active)
  }

  lemma SyncStep(sem: Sem, insts: seq<Inst>, k: nat, arms: seq<Arm>, x: Exec, y: Exec)
    requires k < |insts| && FlatNext(Some(arms), insts[k]) && Sync(insts, k, x, y) && |x.active| == |arms|
    ensures Sync(insts, k + 1, StepInst(sem, insts[k], x), StepInst(sem, insts[k], y))
  {
  }

  lemma SyncSplit(sem: Sem, insts: seq<Inst>, node: nat -> nat, v: nat, st: Store, t: Trace, k: nat)
    requires TraceOk(sem, insts, st, t) && Fits(sem, node, v) && k < |insts| && Sync(insts, k, t.body[k], t.chain[k])
    requires t.split[k] ==> !Wrote(insts, node, v, k) || !StrComes(insts, k)
    ensures Sync(insts, k, t.body[k], t.ready[k])
  {
    assert StepOk(sem, insts, t, k);
    FlagPerArm(sem, insts, st, t, k);
    if t.split[k] && StrComes(insts, k) && |t.arms[k]| == 1 {
      FlagIsCurrent(sem, insts, node, v, st, t, k);
    }
  }

  lemma {:induction false} SyncAt(sem: Sem, insts: seq<Inst>, node: nat -> nat, v: nat, st: Store, t: Trace, k: nat)
    requires TraceOk(sem, insts, st, t) && Fits(sem, node, v) && k <= |insts|
    requires forall i: nat :: i < |insts| ==> t.split[i] ==> !Wrote(insts, node, v, i) || !StrComes(insts, i)
    ensures Sync(insts, k, t.body[k], t.chain[k])
  {
    if k > 0 {
      SyncAt(sem, insts, node, v, st, t, k - 1);
      SyncSplit(sem, insts, node, v, st, t, k - 1);
      assert StepOk(sem, insts, t, k - 1);
      FlagPerArm(sem, insts, st, t, k - 1);
      SyncStep(sem, insts, k - 1, t.arms[k - 1], t.body[k - 1], t.ready[k - 1]);
    }
  }

  lemma TimelyIsRight(sem: Sem, insts: seq<Inst>, n: nat, node: nat -> nat, v: nat, st: Store)
    requires Flat(insts) && Balanced(insts) && Fits(sem, node, v) && Timely(insts, n, node, v)
    ensures RightFrom(sem, insts, n, st)
  {
    var t := TraceOf(sem, insts, n, st);
    TraceIsOk(sem, insts, n, st);
    TraceEnds(sem, insts, n, st);
    forall i: nat | i < |insts| && t.split[i] ensures !Wrote(insts, node, v, i) || !StrComes(insts, i) {
      assert !LateAt(insts, n, node, v, i);
    }
    SyncAt(sem, insts, node, v, st, t, |insts|);
  }

  // ----- only if

  /** No node is assigned twice. */
  ghost predicate Distinct(insts: seq<Inst>, node: nat -> nat) {
    forall a, b :: 0 <= a < b < |insts| && insts[a].Str? && insts[b].Str? ==> node(insts[a].stmt) != node(insts[b].stmt)
  }

  /** Condition c holds until v is assigned, no other one ever does, and all values are zero. */
  function Once(node: nat -> nat, c: nat, v: nat): Sem {
    Sem((d: nat, st: Store) => d == c && v !in st, (s: nat, st: Store) => st[node(s) := 0])
  }

  lemma OnceFits(node: nat -> nat, c: nat, v: nat)
    ensures Fits(Once(node, c, v), node, v)
  {
    var sem := Once(node, c, v);
    forall s: nat, st: Store ensures Writes(sem, node, s, st) {
    }
    forall d: nat, st1: Store, st2: Store ensures ReadsOnly(sem, d, v, st1, st2) {
    }
  }

  ghost predicate Within(insts: seq<Inst>, a: nat, b: nat) {
    a <= b <= |insts| && forall q :: a <= q < b ==> insts[q].Str? || insts[q].Other?
  }

  lemma {:induction false} WroteAt(insts: seq<Inst>, node: nat -> nat, v: nat, k: nat) returns (p: nat)
    requires k <= |insts| && Wrote(insts, node, v, k)
    ensures p < k && insts[p].Str? && node(insts[p].stmt) == v && Within(insts, p, k)
  {
    if insts[k - 1].Str? && node(insts[k - 1].stmt) == v {
      p := k - 1;
    } else {
      p := WroteAt(insts, node, v, k - 1);
    }
  }

  lemma {:induction false} NextStr(insts: seq<Inst>, k: nat) returns (j: nat)
    requires k <= |insts| && StrComes(insts, k)
    ensures k <= j < |insts| && insts[j].Str? && Within(insts, k, j) && forall q :: k <= q < j ==> insts[q].Other?
    decreases |insts| - k
  {
    if insts[k].Str? {
      j := k;
    } else {
      j := NextStr(insts, k + 1);
    }
  }

  lemma {:induction false} SameArms(sem: Sem, insts: seq<Inst>, st: Store, t: Trace, a: nat, b: nat)
    requires TraceOk(sem, insts, st, t) && Within(insts, a, b)
    ensures t.arms[b] == t.arms[a]
    decreases b
  {
    if a < b {
      SameArms(sem, insts, st, t, a, b - 1);
      assert StepOk(sem, insts, t, b - 1);
    }
  }

  /** A step assigns at most the node of its statement. */
  lemma StepStore(node: nat -> nat, c: nat, v: nat, inst: Inst, x: Exec, w: nat)
    ensures var y := StepInst(Once(node, c, v), inst, x);
            w in y.st <==> w in x.st || (inst.Str? && node(inst.stmt) == w && Live(x.active))
  {
  }

  /** What body and chain have in common before v is assigned. */
  ghost predicate Fresh(x: Exec, arms: seq<Arm>, c: nat, v: nat) {
    v !in x.st && |arms| <= 1 && x.active == (if arms == [] then [] else [arms[0].cond == c])
  }

  lemma FreshStep(node: nat -> nat, c: nat, v: nat, arms: seq<Arm>, inst: Inst, x: Exec)
    requires FlatNext(Some(arms), inst) && Fresh(x, arms, c, v) && (inst.Str? ==> node(inst.stmt) != v)
    ensures NextOpen(arms, inst).Some? && Fresh(StepInst(Once(node, c, v), inst, x), NextOpen(arms, inst).arms, c, v)
  {
  }

  lemma {:induction false} FreshAt(insts: seq<Inst>, node: nat -> nat, c: nat, v: nat, t: Trace, p: nat, k: nat)
    requires TraceOk(Once(node, c, v), insts, map[], t) && Distinct(insts, node) && k <= p < |insts|
    requires insts[p].Str? && node(insts[p].stmt) == v
    ensures Fresh(t.body[k], t.arms[k], c, v) && Fresh(t.chain[k], t.arms[k], c, v)
            && Fresh(t.ready[k], t.arms[k], c, v)
    decreases k
  {
    if k > 0 {
      FreshAt(insts, node, c, v, t, p, k - 1);
      assert StepOk(Once(node, c, v), insts, t, k - 1);
      FreshStep(node, c, v, t.arms[k - 1], insts[k - 1], t.body[k - 1]);
      FreshStep(node, c, v, t.arms[k - 1], insts[k - 1], t.ready[k - 1]);
    }
    assert StepOk(Once(node, c, v), insts, t, k);
  }

  /** Nothing that was assigned is ever taken back. */
  lemma {:induction false} ChainGrows(insts: seq<Inst>, node: nat -> nat, c: nat, v: nat, t: Trace, a: nat, b: nat,
                                      w: nat)
    requires TraceOk(Once(node, c, v), insts, map[], t) && a <= b <= |insts| && w in t.chain[a].st
    ensures w in t.chain[b].st
    decreases b
  {
    if a < b {
      ChainGrows(insts, node, c, v, t, a, b - 1, w);
      assert StepOk(Once(node, c, v), insts, t, b - 1);
      StepStore(node, c, v, insts[b - 1], t.ready[b - 1], w);
    }
  }

  lemma {:induction false} BodyGrows(insts: seq<Inst>, node: nat -> nat, c: nat, v: nat, t: Trace, a: nat, b: nat,
                                     w: nat)
    requires TraceOk(Once(node, c, v), insts, map[], t) && a <= b <= |insts| && w in t.body[a].st
    ensures w in t.body[b].st
    decreases b
  {
    if a < b {
      BodyGrows(insts, node, c, v, t, a, b - 1, w);
      assert StepOk(Once(node, c, v), insts, t, b - 1);
      StepStore(node, c, v, insts[b - 1], t.body[b - 1], w);
    }
  }

  /** The body goes on executing the block. */
  lemma {:induction false} BodyGoesOn(insts: seq<Inst>, node: nat -> nat, c: nat, v: nat, t: Trace, a: nat, b: nat)
    requires TraceOk(Once(node, c, v), insts, map[], t) && Within(insts, a, b) && t.body[a].active == [true]
    ensures t.body[b].active == [true]
    decreases b
  {
    if a < b {
      BodyGoesOn(insts, node, c, v, t, a, b - 1);
      assert StepOk(Once(node, c, v), insts, t, b - 1);
    }
  }

  /** The chain has left it: from the split at k to the statement at j. */
  lemma {:induction false} ChainIsOff(insts: seq<Inst>, node: nat -> nat, c: nat, v: nat, t: Trace, k: nat, j: nat)
    requires TraceOk(Once(node, c, v), insts, map[], t) && k <= j < |insts|
    requires (forall q :: k <= q < j ==> insts[q].Other?) && t.split[k] && |t.arms[k]| == 1 && v in t.chain[k].st
    ensures t.ready[j].active == [false]
    decreases j
  {
    var sem := Once(node, c, v);
    assert StepOk(sem, insts, t, j);
    if k < j {
      ChainIsOff(insts, node, c, v, t, k, j - 1);
      assert StepOk(sem, insts, t, j - 1);
      ChainGrows(insts, node, c, v, t, k, j, v);
      SameArms(sem, insts, map[], t, k, j);
    }
  }

  lemma {:induction false} NeverAssigned(insts: seq<Inst>, node: nat -> nat, c: nat, v: nat, t: Trace, j: nat, k: nat)
    requires TraceOk(Once(node, c, v), insts, map[], t) && Distinct(insts, node) && k <= |insts|
    requires j < |insts| && insts[j].Str? && t.ready[j].active == [false]
    ensures node(insts[j].stmt) !in t.chain[k].st
    decreases k
  {
    if k > 0 {
      NeverAssigned(insts, node, c, v, t, j, k - 1);
      assert StepOk(Once(node, c, v), insts, t, k - 1);
      StepStore(node, c, v, insts[k - 1], t.ready[k - 1], node(insts[j].stmt));
    }
  }

  /** The body runs the statement at j, and the chain does not. */
  lemma LeftOut(insts: seq<Inst>, node: nat -> nat, c: nat, v: nat, t: Trace, p: nat, k: nat, j: nat)
    requires TraceOk(Once(node, c, v), insts, map[], t) && Distinct(insts, node) && p < k <= j < |insts|
    requires insts[p].Str? && node(insts[p].stmt) == v && Within(insts, p, j) && insts[j].Str?
    requires (forall q :: k <= q < j ==> insts[q].Other?) && t.split[k] && t.arms[p] == [Arm(c, false)]
    ensures node(insts[j].stmt) in t.body[|insts|].st && node(insts[j].stmt) !in t.chain[|insts|].st
  {
    var sem := Once(node, c, v);
    FreshAt(insts, node, c, v, t, p, p);
    assert StepOk(sem, insts, t, p) && StepOk(sem, insts, t, j);
    StepStore(node, c, v, insts[p], t.ready[p], v);
    ChainGrows(insts, node, c, v, t, p + 1, k, v);
    SameArms(sem, insts, map[], t, p, k);
    ChainIsOff(insts, node, c, v, t, k, j);
    NeverAssigned(insts, node, c, v, t, j, |insts|);
    BodyGoesOn(insts, node, c, v, t, p, j);
    StepStore(node, c, v, insts[j], t.body[j], node(insts[j].stmt));
    BodyGrows(insts, node, c, v, t, j + 1, |insts|, node(insts[j].stmt));
  }

  /** A late split leaves a register without its reset value. */
  lemma LateIsWrong(insts: seq<Inst>, n: nat, node: nat -> nat, v: nat, k: nat) returns (sem: Sem)
    requires Flat(insts) && Balanced(insts) && Distinct(insts, node) && k < |insts| && LateAt(insts, n, node, v, k)
    ensures Fits(sem, node, v) && !RightFrom(sem, insts, n, map[])
  {
    var p := WroteAt(insts, node, v, k);
    var j := NextStr(insts, k);
    FlatAt(insts, p);
    var c := Opened(insts, p)[0].cond;
    sem := Once(node, c, v);
    OnceFits(node, c, v);
    TraceIsOk(sem, insts, n, map[]);
    TraceEnds(sem, insts, n, map[]);
    var t := TraceOf(sem, insts, n, map[]);
    assert t.arms[p] == Opened(insts, p) && Opened(insts, p)[0] in Opened(insts, p);
    LeftOut(insts, node, c, v, t, p, k, j);
  }

  /** Right from every start, whatever values and conditions do. */
  ghost predicate AlwaysRight(insts: seq<Inst>, n: nat, node: nat -> nat, v: nat) {
    forall sem: Sem, st: Store :: Fits(sem, node, v) ==> RightFrom(sem, insts, n, st)
  }

  lemma AlwaysRightIff(insts: seq<Inst>, n: nat, node: nat -> nat, v: nat)
    requires Flat(insts) && Balanced(insts) && Distinct(insts, node)
    ensures AlwaysRight(insts, n, node, v) <==> Timely(insts, n, node, v)
  {
    if Timely(insts, n, node, v) {
      forall sem: Sem, st: Store | Fits(sem, node, v) ensures RightFrom(sem, insts, n, st) {
        TimelyIsRight(sem, insts, n, node, v, st);
      }
    }
    if k: nat :| k < |insts| && LateAt(insts, n, node, v, k) {
      var sem := LateIsWrong(insts, n, node, v, k);
    }
  }
}
