/** Splitting a reset body into chained functions (src/cppEmitterReset.cpp, genResetDef). */
module ResetChunks {

  /** The statement stream: an `if` opens a block, an `else` turns to its other arm, a dedent
      closes it. */
  datatype Inst = If(cond: nat) | Else | Dedent | Str(stmt: nat) | Other

  /** Lines of a generated function. A function may end by calling the next chunk. */
  datatype Line = Open(cond: nat) | Turn | Close | Do(stmt: nat)
  datatype Fun = Fun(lines: seq<Line>, callsNext: bool)

  type Store = map<nat, int>

  datatype Sem = Sem(test: (nat, Store) -> bool, run: (nat, Store) -> Store)

  // ----- executing lines

  /** Blocks that are open, innermost last: whether they are executed. */
  datatype Exec = Exec(active: seq<bool>, st: Store)

  predicate Live(active: seq<bool>) {
    active == [] || active[|active| - 1]
  }

  function Step(sem: Sem, l: Line, x: Exec): Exec {
    match l
    case Open(c) => x.(active := x.active + [Live(x.active) && sem.test(c, x.st)])
    case Turn =>
      if x.active == [] then x
      else
        var outer := x.active[..|x.active| - 1];
        x.(active := outer + [Live(outer) && !x.active[|x.active| - 1]])
    case Close => if x.active == [] then x else x.(active := x.active[..|x.active| - 1])
    case Do(s) => if Live(x.active) then x.(st := sem.run(s, x.st)) else x
  }

  function Run(sem: Sem, ls: seq<Line>, x: Exec): Exec
    decreases |ls|
  {
    if ls == [] then x else Step(sem, ls[|ls| - 1], Run(sem, ls[..|ls| - 1], x))
  }

  /** A function, and the next one when its call is reached. */
  function Chain(sem: Sem, fs: seq<Fun>, i: nat, st: Store): Store
    requires i <= |fs|
    decreases |fs| - i
  {
    if i == |fs| then st
    else
      var x := Run(sem, fs[i].lines, Exec([], st));
      if fs[i].callsNext && Live(x.active) then Chain(sem, fs, i + 1, x.st) else x.st
  }

  /** The body without splitting. */
  function Plain(insts: seq<Inst>): seq<Line>
    decreases |insts|
  {
    if insts == [] then []
    else
      var front := Plain(insts[..|insts| - 1]);
      match insts[|insts| - 1]
      case If(c) => front + [Open(c)]
      case Else => front + [Turn]
      case Dedent => front + [Close]
      case Str(s) => front + [Do(s)]
      case Other => front
  }

  // ----- blocks

  datatype Arm = Arm(cond: nat, inElse: bool)

  /** Arms open after a stream; None when a dedent or an `else` has no `if`. */
  datatype Opens = None | Some(arms: seq<Arm>)

  function NextOpen(arms: seq<Arm>, inst: Inst): Opens {
    var n := |arms|;
    match inst
    case If(c) => Some(arms + [Arm(c, false)])
    case Else =>
      if n == 0 || arms[n - 1].inElse then None else Some(arms[..n - 1] + [Arm(arms[n - 1].cond, true)])
    case Dedent => if n == 0 then None else Some(arms[..n - 1])
    case Str(_) => Some(arms)
    case Other => Some(arms)
  }

  function OpenAfter(insts: seq<Inst>): Opens
    decreases |insts|
  {
    if insts == [] then Some([])
    else
      var before := OpenAfter(insts[..|insts| - 1]);
      if before.None? then None else NextOpen(before.arms, insts[|insts| - 1])
  }

  function Conds(arms: seq<Arm>): (r: seq<nat>)
    ensures |r| == |arms|
  {
    seq(|arms|, i requires 0 <= i < |arms| => arms[i].cond)
  }

  ghost predicate Balanced(insts: seq<Inst>) {
    OpenAfter(insts) == Some([])
  }

  /** Depth of the braces of a function: how many are open, or -1 once one is missing. */
  function Depth(ls: seq<Line>): int
    decreases |ls|
  {
    if ls == [] then 0
    else
      var before := Depth(ls[..|ls| - 1]);
      if before < 0 then -1
      else
        match ls[|ls| - 1]
        case Open(_) => before + 1
        case Turn => if before == 0 then -1 else before
        case Close => before - 1
        case Do(_) => before
  }

  function Statements(ls: seq<Line>): nat
    decreases |ls|
  {
    if ls == [] then 0 else Statements(ls[..|ls| - 1]) + if ls[|ls| - 1].Do? then 1 else 0
  }

  // ----- opening and closing a list of blocks

  function Opening(cs: seq<nat>): (r: seq<Line>)
    ensures |r| == |cs|
  {
    seq(|cs|, i requires 0 <= i < |cs| => Open(cs[i]))
  }

  function Closing(n: nat): (r: seq<Line>)
    ensures |r| == n
  {
    seq(n, i => Close)
  }

  /** Whether each of the nested blocks is executed. */
  function Flags(sem: Sem, cs: seq<nat>, st: Store): (r: seq<bool>)
    ensures |r| == |cs|
    decreases |cs|
  {
    if cs == [] then [] else
      var before := Flags(sem, cs[..|cs| - 1], st);
      before + [Live(before) && sem.test(cs[|cs| - 1], st)]
  }

  lemma {:induction false} RunConcat(sem: Sem, a: seq<Line>, b: seq<Line>, x: Exec)
    ensures Run(sem, a + b, x) == Run(sem, b, Run(sem, a, x))
    decreases |b|
  {
    if b == [] {
      assert a + b == a;
    } else {
      assert (a + b)[..|a + b| - 1] == a + b[..|b| - 1];
      RunConcat(sem, a, b[..|b| - 1], x);
    }
  }

  lemma RunOne(sem: Sem, l: Line, x: Exec)
    ensures Run(sem, [l], x) == Step(sem, l, x)
  {
    assert [l][..0] == [];
  }

  lemma {:induction false} RunOpening(sem: Sem, cs: seq<nat>, st: Store)
    ensures Run(sem, Opening(cs), Exec([], st)) == Exec(Flags(sem, cs, st), st)
    decreases |cs|
  {
    if cs != [] {
      assert Opening(cs)[..|cs| - 1] == Opening(cs[..|cs| - 1]);
      RunOpening(sem, cs[..|cs| - 1], st);
    }
  }

  lemma {:induction false} RunClosing(sem: Sem, n: nat, x: Exec)
    requires |x.active| == n
    ensures Run(sem, Closing(n), x) == Exec([], x.st)
    decreases n
  {
    if n > 0 {
      assert Closing(n) == [Close] + Closing(n - 1);
      RunConcat(sem, [Close], Closing(n - 1), x);
      RunOne(sem, Close, x);
      RunClosing(sem, n - 1, Step(sem, Close, x));
    }
  }

  lemma {:induction false} DepthOpening(cs: seq<nat>)
    ensures Depth(Opening(cs)) == |cs| && Statements(Opening(cs)) == 0
    decreases |cs|
  {
    if cs != [] {
      assert Opening(cs)[..|cs| - 1] == Opening(cs[..|cs| - 1]);
      DepthOpening(cs[..|cs| - 1]);
    }
  }

  lemma {:induction false} DepthClosing(a: seq<Line>, n: nat)
    requires Depth(a) >= n
    ensures Depth(a + Closing(n)) == Depth(a) - n && Statements(a + Closing(n)) == Statements(a)
    decreases n
  {
    if n == 0 {
      assert a + Closing(0) == a;
    } else {
      assert Closing(n)[..n - 1] == Closing(n - 1);
      assert (a + Closing(n))[..|a + Closing(n)| - 1] == a + Closing(n - 1);
      DepthClosing(a, n - 1);
    }
  }

  // ----- the generator

  /** What has been emitted after k instructions. */
  datatype Emitted = Emitted(done: seq<Fun>, cur: seq<Line>, openIfs: seq<nat>, count: nat)

  /** Running the finished chunks and the current one does what the plain prefix does. */
  ghost predicate MeansFrom(sem: Sem, insts: seq<Inst>, k: nat, e: Emitted, st: Store)
    requires k <= |insts|
  {
    Run(sem, e.cur, Exec([], Chain(sem, e.done, 0, st))) == Prefix(sem, insts, k, st)
  }

  function Prefix(sem: Sem, insts: seq<Inst>, k: nat, st: Store): Exec
    requires k <= |insts|
  {
    Run(sem, Plain(insts[..k]), Exec([], st))
  }

  ghost predicate ChunkOk(n: nat, f: Fun) {
    f.callsNext && Depth(f.lines) == 0 && (n > 0 ==> Statements(f.lines) <= n)
  }

  /** Finished chunks are balanced and end with a call; none holds too many statements. */
  ghost predicate Shape(insts: seq<Inst>, k: nat, n: nat, e: Emitted)
    requires k <= |insts|
  {
    && OpenAfter(insts[..k]).Some? && e.openIfs == Conds(OpenAfter(insts[..k]).arms)
    && (forall i :: 0 <= i < |e.done| ==> ChunkOk(n, e.done[i]))
    && Depth(e.cur) == |e.openIfs| && Statements(e.cur) <= e.count && (n > 0 ==> Statements(e.cur) <= n)
  }

  lemma {:induction false} ActiveIsDepth(sem: Sem, ls: seq<Line>, st: Store)
    requires Depth(ls) >= 0
    ensures |Run(sem, ls, Exec([], st)).active| == Depth(ls)
    decreases |ls|
  {
    if ls != [] {
      ActiveIsDepth(sem, ls[..|ls| - 1], st);
    }
  }

  /** One more function at the end of the chain runs after all the others. */
  lemma {:induction false} ChainAppend(sem: Sem, n: nat, fs: seq<Fun>, f: Fun, i: nat, st: Store)
    requires i <= |fs| && forall k :: 0 <= k < |fs| ==> ChunkOk(n, fs[k])
    ensures Chain(sem, fs + [f], i, st) == Run(sem, f.lines, Exec([], Chain(sem, fs, i, st))).st
    decreases |fs| - i
  {
    var more := fs + [f];
    if i < |fs| {
      assert more[i] == fs[i] && ChunkOk(n, fs[i]);
      ActiveIsDepth(sem, fs[i].lines, st);
      ChainAppend(sem, n, fs, f, i + 1, Run(sem, fs[i].lines, Exec([], st)).st);
    } else {
      assert more[i] == f;
    }
  }

  /** Closes the open blocks, ends the function with a call, and reopens them. */
  function Split(e: Emitted): Emitted {
    Emitted(e.done + [Fun(e.cur + Closing(|e.openIfs|), true)], Opening(e.openIfs), e.openIfs, 0)
  }

  /** Testing the open conditions again gives the blocks that are being executed. */
  ghost predicate Reopens(sem: Sem, openIfs: seq<nat>, x: Exec) {
    Flags(sem, openIfs, x.st) == x.active
  }

  /** A split keeps the execution state if and only if its conditions reopen. */
  lemma SplitMeans(sem: Sem, insts: seq<Inst>, k: nat, n: nat, e: Emitted, st: Store)
    requires k <= |insts| && Shape(insts, k, n, e) && MeansFrom(sem, insts, k, e, st)
    ensures MeansFrom(sem, insts, k, Split(e), st) <==> Reopens(sem, e.openIfs, Prefix(sem, insts, k, st))
  {
    var x := Prefix(sem, insts, k, st);
    var mid := Chain(sem, e.done, 0, st);
    var closed := e.cur + Closing(|e.openIfs|);
    ActiveIsDepth(sem, e.cur, mid);
    ChainAppend(sem, n, e.done, Fun(closed, true), 0, st);
    RunConcat(sem, e.cur, Closing(|e.openIfs|), Exec([], mid));
    RunClosing(sem, |e.openIfs|, x);
    RunOpening(sem, e.openIfs, x.st);
  }

  lemma SplitShape(insts: seq<Inst>, k: nat, n: nat, e: Emitted)
    requires k <= |insts| && Shape(insts, k, n, e)
    ensures Shape(insts, k, n, Split(e))
  {
    DepthClosing(e.cur, |e.openIfs|);
    DepthOpening(e.openIfs);
    var e2 := Split(e);
    forall i | 0 <= i < |e2.done| ensures ChunkOk(n, e2.done[i]) {
      if i < |e.done| {
        assert ChunkOk(n, e.done[i]);
      }
    }
  }

  /** One instruction. */
  function Emit(e: Emitted, inst: Inst): Emitted {
    match inst
    case If(c) => e.(cur := e.cur + [Open(c)], openIfs := e.openIfs + [c], count := e.count + 1)
    case Else => e.(cur := e.cur + [Turn], count := e.count + 1)
    case Dedent => e.(cur := e.cur + [Close], openIfs := if e.openIfs == [] then [] else e.openIfs[..|e.openIfs| - 1])
    case Str(s) => e.(cur := e.cur + [Do(s)], count := e.count + 1)
    case Other => e
  }

  lemma EmitShape(insts: seq<Inst>, k: nat, n: nat, e: Emitted)
    requires k < |insts| && Shape(insts, k, n, e) && OpenAfter(insts[..k + 1]).Some?
    requires n > 0 && insts[k].Str? ==> e.count < n
    ensures Shape(insts, k + 1, n, Emit(e, insts[k]))
  {
    var e2 := Emit(e, insts[k]);
    assert insts[..k + 1][..k] == insts[..k] && insts[..k + 1][k] == insts[k];
    assert !insts[k].Other? ==> e2.cur[..|e.cur|] == e.cur;
  }

  lemma EmitMeans(sem: Sem, insts: seq<Inst>, k: nat, e: Emitted, st: Store)
    requires k < |insts| && MeansFrom(sem, insts, k, e, st)
    ensures MeansFrom(sem, insts, k + 1, Emit(e, insts[k]), st)
  {
    var e2 := Emit(e, insts[k]);
    assert insts[..k + 1][..k] == insts[..k] && insts[..k + 1][k] == insts[k];
    if !insts[k].Other? {
      assert e2.cur[..|e.cur|] == e.cur;
      assert Plain(insts[..k + 1])[..|Plain(insts[..k])|] == Plain(insts[..k]);
    }
  }

  // ----- where it splits

  predicate SplitsBefore(n: nat, e: Emitted, inst: Inst) {
    n > 0 && e.count >= n && !inst.If? && !inst.Else? && !inst.Dedent?
  }

  function EmitNext(n: nat, e: Emitted, inst: Inst): Emitted {
    Emit(if SplitsBefore(n, e, inst) then Split(e) else e, inst)
  }

  function EmittedAt(insts: seq<Inst>, n: nat, k: nat): Emitted
    requires k <= |insts|
  {
    if k == 0 then Emitted([], [], [], 0) else EmitNext(n, EmittedAt(insts, n, k - 1), insts[k - 1])
  }

  ghost predicate ReopensAt(sem: Sem, insts: seq<Inst>, n: nat, k: nat, st: Store)
    requires k < |insts|
  {
    var e := EmittedAt(insts, n, k);
    SplitsBefore(n, e, insts[k]) ==> Reopens(sem, e.openIfs, Prefix(sem, insts, k, st))
  }

  /** In the run of the plain body from st, every split finds its conditions as they were. */
  ghost predicate SplitsReopen(sem: Sem, insts: seq<Inst>, n: nat, st: Store) {
    forall k: nat :: k < |insts| ==> ReopensAt(sem, insts, n, k, st)
  }

  lemma {:induction false} ShapeAt(insts: seq<Inst>, n: nat, k: nat)
    requires k <= |insts| && OpenAfter(insts).Some?
    ensures Shape(insts, k, n, EmittedAt(insts, n, k))
  {
    if k == 0 {
      assert insts[..0] == [];
    } else {
      var e := EmittedAt(insts, n, k - 1);
      ShapeAt(insts, n, k - 1);
      PrefixesNest(insts, k);
      SplitShape(insts, k - 1, n, e);
      EmitShape(insts, k - 1, n, if SplitsBefore(n, e, insts[k - 1]) then Split(e) else e);
    }
  }

  lemma {:induction false} MeansAt(sem: Sem, insts: seq<Inst>, n: nat, k: nat, st: Store)
    requires k <= |insts| && OpenAfter(insts).Some? && SplitsReopen(sem, insts, n, st)
    ensures MeansFrom(sem, insts, k, EmittedAt(insts, n, k), st)
  {
    if k == 0 {
      assert insts[..0] == [];
    } else {
      var e := EmittedAt(insts, n, k - 1);
      MeansAt(sem, insts, n, k - 1, st);
      ShapeAt(insts, n, k - 1);
      assert ReopensAt(sem, insts, n, k - 1, st);
      SplitMeans(sem, insts, k - 1, n, e, st);
      EmitMeans(sem, insts, k - 1, if SplitsBefore(n, e, insts[k - 1]) then Split(e) else e, st);
    }
  }

  /** The functions of a finished emission. */
  ghost predicate FunsOk(n: nat, fs: seq<Fun>) {
    && |fs| > 0
    && (forall i :: 0 <= i < |fs| ==> Depth(fs[i].lines) == 0 && (n > 0 ==> Statements(fs[i].lines) <= n))
    && (forall i :: 0 <= i < |fs| ==> (fs[i].callsNext <==> i + 1 < |fs|))
  }

  function Functions(e: Emitted): seq<Fun> {
    e.done + [Fun(e.cur, false)]
  }

  lemma FinishShape(insts: seq<Inst>, n: nat, e: Emitted)
    requires Balanced(insts) && Shape(insts, |insts|, n, e)
    ensures FunsOk(n, Functions(e))
  {
    assert insts[..|insts|] == insts;
    var fs := Functions(e);
    forall i | 0 <= i < |fs|
      ensures Depth(fs[i].lines) == 0 && (n > 0 ==> Statements(fs[i].lines) <= n)
      ensures fs[i].callsNext <==> i + 1 < |fs|
    {
      assert i < |e.done| ==> ChunkOk(n, e.done[i]);
    }
  }

  lemma FinishRun(sem: Sem, insts: seq<Inst>, n: nat, e: Emitted, st: Store)
    requires Shape(insts, |insts|, n, e)
    ensures Chain(sem, Functions(e), 0, st) == Run(sem, e.cur, Exec([], Chain(sem, e.done, 0, st))).st
  {
    ChainAppend(sem, n, e.done, Fun(e.cur, false), 0, st);
  }

  // ----- one instruction at a time

  function StepInst(sem: Sem, inst: Inst, x: Exec): Exec {
    match inst
    case If(c) => Step(sem, Open(c), x)
    case Else => Step(sem, Turn, x)
    case Dedent => Step(sem, Close, x)
    case Str(s) => Step(sem, Do(s), x)
    case Other => x
  }

  lemma PrefixStep(sem: Sem, insts: seq<Inst>, k: nat, st: Store)
    requires k < |insts|
    ensures Prefix(sem, insts, k + 1, st) == StepInst(sem, insts[k], Prefix(sem, insts, k, st))
  {
    assert insts[..k + 1][..k] == insts[..k] && insts[..k + 1][k] == insts[k];
    if !insts[k].Other? {
      assert Plain(insts[..k + 1])[..|Plain(insts[..k])|] == Plain(insts[..k]);
    }
  }

  lemma OpenStep(insts: seq<Inst>, k: nat)
    requires k < |insts| && OpenAfter(insts[..k]).Some?
    ensures OpenAfter(insts[..k + 1]) == NextOpen(OpenAfter(insts[..k]).arms, insts[k])
  {
    assert insts[..k + 1][..k] == insts[..k] && insts[..k + 1][k] == insts[k];
  }

  /** Where the chain has got to when the first instructions are emitted. */
  function EmittedRun(sem: Sem, e: Emitted, st: Store): Exec {
    Run(sem, e.cur, Exec([], Chain(sem, e.done, 0, st)))
  }

  lemma EmitRun(sem: Sem, e: Emitted, inst: Inst, st: Store)
    ensures EmittedRun(sem, Emit(e, inst), st) == StepInst(sem, inst, EmittedRun(sem, e, st))
  {
    var e2 := Emit(e, inst);
    if !inst.Other? {
      assert e2.cur[..|e.cur|] == e.cur;
    }
  }

  lemma SplitRun(sem: Sem, insts: seq<Inst>, k: nat, n: nat, e: Emitted, st: Store)
    requires k <= |insts| && Shape(insts, k, n, e)
    ensures var y := EmittedRun(sem, e, st);
            |y.active| == |e.openIfs| && EmittedRun(sem, Split(e), st) == Exec(Flags(sem, e.openIfs, y.st), y.st)
  {
    var y := EmittedRun(sem, e, st);
    var mid := Chain(sem, e.done, 0, st);
    var closed := e.cur + Closing(|e.openIfs|);
    ActiveIsDepth(sem, e.cur, mid);
    ChainAppend(sem, n, e.done, Fun(closed, true), 0, st);
    RunConcat(sem, e.cur, Closing(|e.openIfs|), Exec([], mid));
    RunClosing(sem, |e.openIfs|, y);
    RunOpening(sem, e.openIfs, y.st);
  }

  /** From this start the chain does what the body does. */
  ghost predicate RightFrom(sem: Sem, insts: seq<Inst>, n: nat, st: Store) {
    Chain(sem, Functions(EmittedAt(insts, n, |insts|)), 0, st) == Run(sem, Plain(insts), Exec([], st)).st
  }

  /** genResetDef: the chain of functions does what the single body does, from every start
      from which the splits find their conditions as they were. */
  method GenResetDef(insts: seq<Inst>, chunkSize: nat) returns (fs: seq<Fun>)
    requires Balanced(insts)
    ensures fs == Functions(EmittedAt(insts, chunkSize, |insts|))
    ensures FunsOk(chunkSize, fs) && (chunkSize == 0 ==> |fs| == 1)
    ensures forall sem: Sem, st: Store :: SplitsReopen(sem, insts, chunkSize, st) ==>
              Chain(sem, fs, 0, st) == Run(sem, Plain(insts), Exec([], st)).st
  {
    var e := Emitted([], [], [], 0);
    var k := 0;
    while k < |insts|
      invariant 0 <= k <= |insts| && e == EmittedAt(insts, chunkSize, k)
      invariant chunkSize == 0 ==> e.done == []
    {
      if chunkSize > 0 && e.count >= chunkSize && !insts[k].If? && !insts[k].Else? && !insts[k].Dedent? {
        e := Split(e);
      }
      e := Emit(e, insts[k]);
      k := k + 1;
    }
    fs := Functions(e);
    ShapeAt(insts, chunkSize, |insts|);
    FinishShape(insts, chunkSize, e);
    forall sem: Sem, st: Store | SplitsReopen(sem, insts, chunkSize, st)
      ensures Chain(sem, fs, 0, st) == Run(sem, Plain(insts), Exec([], st)).st
    {
      assert insts[..|insts|] == insts;
      MeansAt(sem, insts, chunkSize, |insts|, st);
      FinishRun(sem, insts, chunkSize, e, st);
    }
  }

  /** Every prefix of a balanced stream is well nested. */
  lemma {:induction false} PrefixesNest(insts: seq<Inst>, k: nat)
    requires OpenAfter(insts).Some? && k <= |insts|
    ensures OpenAfter(insts[..k]).Some?
    decreases |insts|
  {
    if k == |insts| {
      assert insts[..k] == insts;
    } else {
      PrefixesNest(insts[..|insts| - 1], k);
      assert insts[..|insts| - 1][..k] == insts[..k];
    }
  }

  // ----- when every start is right

  /** No statement of the stream changes a condition of the stream. */
  ghost predicate GuardsStay(sem: Sem, insts: seq<Inst>) {
    forall i, j, st :: 0 <= i < |insts| && 0 <= j < |insts| && insts[i].If? && insts[j].Str? ==>
      sem.test(insts[i].cond, sem.run(insts[j].stmt, st)) == sem.test(insts[i].cond, st)
  }

  /** Whether the arms are executed. */
  function ArmFlags(sem: Sem, arms: seq<Arm>, st: Store): (r: seq<bool>)
    ensures |r| == |arms|
    decreases |arms|
  {
    if arms == [] then []
    else
      var last := arms[|arms| - 1];
      var before := ArmFlags(sem, arms[..|arms| - 1], st);
      before + [Live(before) && sem.test(last.cond, st) != last.inElse]
  }

  ghost predicate ArmsFrom(arms: seq<Arm>, insts: seq<Inst>) {
    forall a :: a in arms ==> If(a.cond) in insts
  }

  lemma {:induction false} ArmsStay(sem: Sem, insts: seq<Inst>, arms: seq<Arm>, j: nat, st: Store)
    requires GuardsStay(sem, insts) && ArmsFrom(arms, insts) && j < |insts| && insts[j].Str?
    ensures ArmFlags(sem, arms, sem.run(insts[j].stmt, st)) == ArmFlags(sem, arms, st)
    decreases |arms|
  {
    if arms != [] {
      var front := arms[..|arms| - 1];
      assert forall a :: a in front ==> a in arms;
      ArmsStay(sem, insts, front, j, st);
      assert arms[|arms| - 1] in arms;
      var i :| 0 <= i < |insts| && insts[i] == If(arms[|arms| - 1].cond);
    }
  }

  /** While statements leave the conditions alone, blocks are executed as their arms say. */
  lemma {:induction false} ActiveIsArms(sem: Sem, insts: seq<Inst>, k: nat, st: Store)
    requires k <= |insts| && GuardsStay(sem, insts) && OpenAfter(insts).Some?
    ensures OpenAfter(insts[..k]).Some?
    ensures var arms, x := OpenAfter(insts[..k]).arms, Prefix(sem, insts, k, st);
            ArmsFrom(arms, insts) && x.active == ArmFlags(sem, arms, x.st)
  {
    PrefixesNest(insts, k);
    if k == 0 {
      assert insts[..0] == [];
    } else {
      ActiveIsArms(sem, insts, k - 1, st);
      ArmsStep(sem, insts, k - 1, st);
    }
  }

  lemma ArmsStep(sem: Sem, insts: seq<Inst>, k: nat, st: Store)
    requires k < |insts| && GuardsStay(sem, insts) && OpenAfter(insts[..k]).Some? && OpenAfter(insts[..k + 1]).Some?
    requires var arms, x := OpenAfter(insts[..k]).arms, Prefix(sem, insts, k, st);
             ArmsFrom(arms, insts) && x.active == ArmFlags(sem, arms, x.st)
    ensures var arms, x := OpenAfter(insts[..k + 1]).arms, Prefix(sem, insts, k + 1, st);
            ArmsFrom(arms, insts) && x.active == ArmFlags(sem, arms, x.st)
  {
    var arms, x := OpenAfter(insts[..k]).arms, Prefix(sem, insts, k, st);
    assert insts[..k + 1][..k] == insts[..k] && insts[..k + 1][k] == insts[k];
    PrefixStep(sem, insts, k, st);
    NextFrom(arms, insts, k);
    if insts[k].Str? {
      ArmsStay(sem, insts, arms, k, x.st);
    } else {
      NextFlags(sem, arms, insts[k], x);
    }
  }

  lemma NextFrom(arms: seq<Arm>, insts: seq<Inst>, k: nat)
    requires k < |insts| && ArmsFrom(arms, insts) && NextOpen(arms, insts[k]).Some?
    ensures ArmsFrom(NextOpen(arms, insts[k]).arms, insts)
  {
    var arms2 := NextOpen(arms, insts[k]).arms;
    forall a | a in arms2 ensures If(a.cond) in insts {
      if insts[k].Else? {
        assert arms[|arms| - 1] in arms;
      }
    }
  }

  lemma NextFlags(sem: Sem, arms: seq<Arm>, inst: Inst, x: Exec)
    requires !inst.Str? && NextOpen(arms, inst).Some? && x.active == ArmFlags(sem, arms, x.st)
    ensures StepInst(sem, inst, x).active == ArmFlags(sem, NextOpen(arms, inst).arms, x.st)
    ensures StepInst(sem, inst, x).st == x.st
  {
    if arms != [] {
      assert arms == arms[..|arms| - 1] + [arms[|arms| - 1]];
    }
    match inst {
      case If(c) => ArmsPush(sem, arms, Arm(c, false), x.st);
      case Else => TurnFlags(sem, arms[..|arms| - 1], arms[|arms| - 1].cond, x);
      case Dedent =>
      case Other =>
    }
  }

  lemma ArmsPush(sem: Sem, outer: seq<Arm>, a: Arm, st: Store)
    ensures var flags := ArmFlags(sem, outer, st);
            ArmFlags(sem, outer + [a], st) == flags + [Live(flags) && sem.test(a.cond, st) != a.inElse]
  {
    assert (outer + [a])[..|outer|] == outer;
  }

  lemma TurnFlags(sem: Sem, outer: seq<Arm>, c: nat, x: Exec)
    requires x.active == ArmFlags(sem, outer + [Arm(c, false)], x.st)
    ensures Step(sem, Turn, x) == Exec(ArmFlags(sem, outer + [Arm(c, true)], x.st), x.st)
  {
    ArmsPush(sem, outer, Arm(c, false), x.st);
    ArmsPush(sem, outer, Arm(c, true), x.st);
    assert x.active[..|outer|] == ArmFlags(sem, outer, x.st);
  }

  /** No split lies inside an `else` arm. */
  ghost predicate ElseFree(insts: seq<Inst>, n: nat) {
    forall k: nat :: k < |insts| ==> ElseFreeAt(insts, n, k)
  }

  ghost predicate ElseFreeAt(insts: seq<Inst>, n: nat, k: nat)
    requires k < |insts|
  {
    SplitsBefore(n, EmittedAt(insts, n, k), insts[k]) && OpenAfter(insts[..k]).Some? ==>
      forall a :: a in OpenAfter(insts[..k]).arms ==> !a.inElse
  }

  lemma {:induction false} IfArms(sem: Sem, arms: seq<Arm>, st: Store)
    requires forall a :: a in arms ==> !a.inElse
    ensures ArmFlags(sem, arms, st) == Flags(sem, Conds(arms), st)
    decreases |arms|
  {
    if arms != [] {
      var front := arms[..|arms| - 1];
      assert Conds(arms)[..|arms| - 1] == Conds(front);
      assert arms[|arms| - 1] in arms && forall a :: a in front ==> a in arms;
      IfArms(sem, front, st);
    }
  }

  /** As the source has it: conditions that no statement changes, and no split inside an
      `else` arm, make every start right. */
  lemma GuardsStayReopen(sem: Sem, insts: seq<Inst>, n: nat, st: Store)
    requires Balanced(insts) && GuardsStay(sem, insts) && ElseFree(insts, n)
    ensures SplitsReopen(sem, insts, n, st)
  {
    forall k: nat | k < |insts| ensures ReopensAt(sem, insts, n, k, st) {
      var e := EmittedAt(insts, n, k);
      if SplitsBefore(n, e, insts[k]) {
        ShapeAt(insts, n, k);
        ActiveIsArms(sem, insts, k, st);
        assert ElseFreeAt(insts, n, k);
        IfArms(sem, OpenAfter(insts[..k]).arms, Prefix(sem, insts, k, st).st);
      }
    }
  }

  // ----- a split inside an `else` arm

  /** All conditions hold, and every statement counts its runs in variable 0. */
  function Counting(): Sem {
    Sem((c: nat, st: Store) => true, (s: nat, st: Store) => map[0 := Ran(st) + 1])
  }

  function Ran(st: Store): int {
    if 0 in st then st[0] else 0
  }

  lemma CountingStays(insts: seq<Inst>)
    ensures GuardsStay(Counting(), insts)
  {
  }

  lemma {:induction false} FlagsAllSet(cs: seq<nat>, st: Store, i: nat)
    requires i < |cs|
    ensures Flags(Counting(), cs, st)[i]
    decreases |cs|
  {
    var n := |cs| - 1;
    if i < n {
      FlagsAllSet(cs[..n], st, i);
    } else if n > 0 {
      FlagsAllSet(cs[..n], st, n - 1);
    }
  }

  lemma {:induction false} ElseArmIsOff(arms: seq<Arm>, st: Store, i: nat)
    requires i < |arms| && arms[i].inElse
    ensures !ArmFlags(Counting(), arms, st)[|arms| - 1]
    decreases |arms|
  {
    if i < |arms| - 1 {
      ElseArmIsOff(arms[..|arms| - 1], st, i);
    }
  }

  /** Every split keeps the execution state, whatever conditions and statements do as long as
      no statement changes a condition, if and only if no split lies inside an `else` arm. */
  lemma ElseFreeIff(insts: seq<Inst>, n: nat)
    requires Balanced(insts)
    ensures ElseFree(insts, n) <==>
              forall sem: Sem, st: Store :: GuardsStay(sem, insts) ==> SplitsReopen(sem, insts, n, st)
  {
    if ElseFree(insts, n) {
      forall sem: Sem, st: Store | GuardsStay(sem, insts) ensures SplitsReopen(sem, insts, n, st) {
        GuardsStayReopen(sem, insts, n, st);
      }
    }
    if k: nat :| k < |insts| && !ElseFreeAt(insts, n, k) {
      CountingStays(insts);
      DoesNotReopen(insts, n, k, map[]);
      assert !ReopensAt(Counting(), insts, n, k, map[]);
      assert !SplitsReopen(Counting(), insts, n, map[]);
    }
  }

  lemma DoesNotReopen(insts: seq<Inst>, n: nat, k: nat, st: Store)
    requires Balanced(insts) && k < |insts| && !ElseFreeAt(insts, n, k)
    ensures !ReopensAt(Counting(), insts, n, k, st)
    ensures !Live(Prefix(Counting(), insts, k, st).active)
    ensures |EmittedAt(insts, n, k).openIfs| > 0
  {
    CountingStays(insts);
    ActiveIsArms(Counting(), insts, k, st);
    ShapeAt(insts, n, k);
    var arms, x := OpenAfter(insts[..k]).arms, Prefix(Counting(), insts, k, st);
    var i :| 0 <= i < |arms| && arms[i].inElse;
    ElseArmIsOff(arms, x.st, i);
    FlagsAllSet(Conds(arms), x.st, |arms| - 1);
  }

  /** The chain runs every block that the body runs, and has run d statements more at least. */
  ghost predicate RunsMore(x: Exec, y: Exec, d: nat) {
    && |x.active| == |y.active| && Ran(x.st) + d <= Ran(y.st)
    && forall i :: 0 <= i < |x.active| && x.active[i] ==> y.active[i]
  }


  lemma StepRunsMore(inst: Inst, arms: seq<Arm>, x: Exec, y: Exec, d: nat)
    requires RunsMore(x, y, d) && NextOpen(arms, inst).Some? && x.active == ArmFlags(Counting(), arms, x.st)
    ensures var more := if inst.Str? && !Live(x.active) && Live(y.active) then 1 else 0;
            RunsMore(StepInst(Counting(), inst, x), StepInst(Counting(), inst, y), d + more)
  {
    if inst.Else? {
      NextFlags(Counting(), arms, inst, x);
      ElseArmIsOff(NextOpen(arms, inst).arms, x.st, |arms| - 1);
    }
  }

  /** A split only turns blocks on. */
  lemma SplitRunsMore(insts: seq<Inst>, k: nat, n: nat, e: Emitted, x: Exec, d: nat, st: Store)
    requires k <= |insts| && Shape(insts, k, n, e) && RunsMore(x, EmittedRun(Counting(), e, st), d)
    ensures RunsMore(x, EmittedRun(Counting(), Split(e), st), d) && Live(EmittedRun(Counting(), Split(e), st).active)
  {
    SplitRun(Counting(), insts, k, n, e, st);
    forall i | 0 <= i < |e.openIfs| ensures EmittedRun(Counting(), Split(e), st).active[i] {
      FlagsAllSet(e.openIfs, EmittedRun(Counting(), e, st).st, i);
    }
  }

  /** A statement that a split moves out of its `else` arm runs once too often. */
  function Extra(insts: seq<Inst>, n: nat, k: nat): nat
    requires k < |insts|
  {
    var e := EmittedAt(insts, n, k);
    if insts[k].Str? && SplitsBefore(n, e, insts[k]) && InElse(OpenAfter(insts[..k])) then 1 else 0
  }

  predicate InElse(opens: Opens) {
    opens.Some? && exists a :: a in opens.arms && a.inElse
  }

  lemma RunsMoreStep(insts: seq<Inst>, n: nat, k: nat, d: nat, st: Store)
    requires Balanced(insts) && k < |insts|
    requires RunsMore(Prefix(Counting(), insts, k, st), EmittedRun(Counting(), EmittedAt(insts, n, k), st), d)
    ensures RunsMore(Prefix(Counting(), insts, k + 1, st), EmittedRun(Counting(), EmittedAt(insts, n, k + 1), st),
                     d + Extra(insts, n, k))
  {
    var e, x := EmittedAt(insts, n, k), Prefix(Counting(), insts, k, st);
    var e1 := if SplitsBefore(n, e, insts[k]) then Split(e) else e;
    ShapeAt(insts, n, k);
    SplitRunsMore(insts, k, n, e, x, d, st);
    ArmsNow(insts, k, st);
    PrefixStep(Counting(), insts, k, st);
    EmitRun(Counting(), e1, insts[k], st);
    StepRunsMore(insts[k], OpenAfter(insts[..k]).arms, x, EmittedRun(Counting(), e1, st), d);
  }

  lemma ArmsNow(insts: seq<Inst>, k: nat, st: Store)
    requires Balanced(insts) && k < |insts|
    ensures OpenAfter(insts[..k]).Some? && NextOpen(OpenAfter(insts[..k]).arms, insts[k]).Some?
    ensures var arms, x := OpenAfter(insts[..k]).arms, Prefix(Counting(), insts, k, st);
            x.active == ArmFlags(Counting(), arms, x.st) && (InElse(Some(arms)) ==> !Live(x.active))
  {
    CountingStays(insts);
    ActiveIsArms(Counting(), insts, k, st);
    PrefixesNest(insts, k + 1);
    assert insts[..k + 1][..k] == insts[..k] && insts[..k + 1][k] == insts[k];
    var arms := OpenAfter(insts[..k]).arms;
    if a :| a in arms && a.inElse {
      var i :| 0 <= i < |arms| && arms[i] == a;
      ElseArmIsOff(arms, Prefix(Counting(), insts, k, st).st, i);
    }
  }

  lemma {:induction false} RunsMoreAt(insts: seq<Inst>, n: nat, j: nat, k: nat, st: Store)
    requires Balanced(insts) && j < |insts| && k <= |insts|
    ensures RunsMore(Prefix(Counting(), insts, k, st), EmittedRun(Counting(), EmittedAt(insts, n, k), st),
                     if k > j then Extra(insts, n, j) else 0)
    decreases k
  {
    if k == 0 {
      RunsMoreStart(insts, n, st);
    } else {
      var d := if k - 1 > j then Extra(insts, n, j) else 0;
      RunsMoreAt(insts, n, j, k - 1, st);
      RunsMoreStep(insts, n, k - 1, d, st);
      FewerMore(Prefix(Counting(), insts, k, st), EmittedRun(Counting(), EmittedAt(insts, n, k), st),
                d + Extra(insts, n, k - 1), if k > j then Extra(insts, n, j) else 0);
    }
  }

  lemma RunsMoreStart(insts: seq<Inst>, n: nat, st: Store)
    ensures RunsMore(Prefix(Counting(), insts, 0, st), EmittedRun(Counting(), EmittedAt(insts, n, 0), st), 0)
  {
    assert insts[..0] == [];
  }

  lemma FewerMore(x: Exec, y: Exec, d: nat, d2: nat)
    requires RunsMore(x, y, d) && d2 <= d
    ensures RunsMore(x, y, d2)
  {
  }

  /** A statement before which a split lies inside an `else` arm makes the chain wrong, though
      no statement changes a condition. */
  lemma SplitInElseIsWrong(insts: seq<Inst>, n: nat, k: nat)
    requires Balanced(insts) && k < |insts| && insts[k].Str? && !ElseFreeAt(insts, n, k)
    ensures GuardsStay(Counting(), insts)
    ensures Chain(Counting(), Functions(EmittedAt(insts, n, |insts|)), 0, map[])
            != Run(Counting(), Plain(insts), Exec([], map[])).st
  {
    CountingStays(insts);
    assert insts[..|insts|] == insts;
    ShapeAt(insts, n, |insts|);
    FinishRun(Counting(), insts, n, EmittedAt(insts, n, |insts|), map[]);
    RunsMoreAt(insts, n, k, |insts|, map[]);
  }
}
