/** How a stream is cut into functions, without the generator (src/cppEmitterReset.cpp,
    genResetDef). */
module ResetPartition {
  import opened ResetChunks

  /** Lines that count towards the chunk size. */
  function Weight(insts: seq<Inst>, a: nat, b: nat): nat
    requires b <= |insts|
    decreases b
  {
    if a >= b then 0
    else
      var last := insts[b - 1];
      Weight(insts, a, b - 1) + if last.If? || last.Else? || last.Str? then 1 else 0
  }

  /** The function that begins at a is full when instruction k comes, which may begin another. */
  predicate Full(insts: seq<Inst>, n: nat, a: nat, k: nat)
    requires k < |insts|
  {
    n > 0 && Weight(insts, a, k) >= n && (insts[k].Str? || insts[k].Other?)
  }

  ghost predicate OneChunk(insts: seq<Inst>, n: nat, a: nat, b: nat) {
    a <= b <= |insts| && forall k: nat :: a <= k < b ==> k == a || !Full(insts, n, a, k)
  }

  /** `starts` holds where functions begin: at 0, and at each first instruction that finds the
      function before full. */
  ghost predicate Cuts(insts: seq<Inst>, n: nat, starts: seq<nat>, k: nat) {
    && |starts| > 0 && starts[0] == 0 && OneChunk(insts, n, starts[|starts| - 1], k)
    && forall i: nat :: i < |starts| - 1 ==> CutAt(insts, n, starts[i], starts[i + 1])
  }

  ghost predicate CutAt(insts: seq<Inst>, n: nat, a: nat, b: nat) {
    OneChunk(insts, n, a, b) && b < |insts| && Full(insts, n, a, b)
  }

  /** The conditions open before instruction k. */
  function OpenConds(insts: seq<Inst>, k: nat): seq<nat>
    requires k <= |insts|
  {
    var o := OpenAfter(insts[..k]);
    if o.None? then [] else Conds(o.arms)
  }

  /** The lines of the instructions [a, b) in a function of their own: the open conditions are
      opened again in front. */
  function ChunkLines(insts: seq<Inst>, a: nat, b: nat): seq<Line>
    requires a <= b <= |insts|
  {
    Opening(OpenConds(insts, a)) + Plain(insts[a..b])
  }

  ghost predicate FunIs(insts: seq<Inst>, a: nat, b: nat, f: Fun) {
    a <= b <= |insts| && f == Fun(ChunkLines(insts, a, b) + Closing(|OpenConds(insts, b)|), true)
  }

  /** The finished functions hold the earlier runs, and the current one what came since. */
  ghost predicate Holds(insts: seq<Inst>, n: nat, starts: seq<nat>, k: nat, e: Emitted) {
    && Cuts(insts, n, starts, k) && |e.done| == |starts| - 1
    && (forall i: nat :: i < |e.done| ==> FunIs(insts, starts[i], starts[i + 1], e.done[i]))
    && e.cur == ChunkLines(insts, starts[|starts| - 1], k) && e.count == Weight(insts, starts[|starts| - 1], k)
  }

  lemma PlainPush(insts: seq<Inst>, a: nat, k: nat)
    requires a <= k < |insts|
    ensures Plain(insts[a..k + 1]) == Plain(insts[a..k]) + Plain([insts[k]])
  {
    assert insts[a..k + 1][..k - a] == insts[a..k] && insts[a..k + 1][k - a] == insts[k];
    assert [insts[k]][..0] == [] && Plain([]) == [];
  }

  lemma EmitPush(e: Emitted, inst: Inst)
    ensures Emit(e, inst).cur == e.cur + Plain([inst])
    ensures Emit(e, inst).count == e.count + if inst.If? || inst.Else? || inst.Str? then 1 else 0
    ensures Emit(e, inst).done == e.done
  {
    assert [inst][..0] == [] && Plain([]) == [];
    if inst.Other? {
      assert e.cur + [] == e.cur;
    }
  }

  /** One more instruction in the current function. */
  lemma HoldsMore(insts: seq<Inst>, n: nat, starts: seq<nat>, k: nat, e: Emitted)
    requires Holds(insts, n, starts, k, e) && k < |insts|
    requires k == starts[|starts| - 1] || !Full(insts, n, starts[|starts| - 1], k)
    ensures Holds(insts, n, starts, k + 1, Emit(e, insts[k]))
  {
    var a := starts[|starts| - 1];
    EmitPush(e, insts[k]);
    PlainPush(insts, a, k);
  }

  lemma HoldsSplit(insts: seq<Inst>, n: nat, starts: seq<nat>, k: nat, e: Emitted)
    requires Holds(insts, n, starts, k, e) && k < |insts| && Full(insts, n, starts[|starts| - 1], k)
    requires e.openIfs == OpenConds(insts, k)
    ensures Holds(insts, n, starts + [k], k, Split(e))
  {
    var more, s := starts + [k], Split(e);
    forall i: nat | i < |more| - 1 ensures CutAt(insts, n, more[i], more[i + 1]) {
      if i < |starts| - 1 {
        assert CutAt(insts, n, starts[i], starts[i + 1]);
      }
    }
    forall i: nat | i < |s.done| ensures FunIs(insts, more[i], more[i + 1], s.done[i]) {
      if i < |e.done| {
        assert FunIs(insts, starts[i], starts[i + 1], e.done[i]);
      }
    }
    assert insts[k..k] == [] && Opening(e.openIfs) + [] == Opening(e.openIfs);
  }

  lemma HoldsStart(insts: seq<Inst>, n: nat)
    ensures Holds(insts, n, [0], 0, Emitted([], [], [], 0))
  {
    assert insts[..0] == [] && insts[0..0] == [] && Opening([]) + [] == [];
  }

  lemma HoldsNext(insts: seq<Inst>, n: nat, k: nat, starts: seq<nat>, e: Emitted) returns (more: seq<nat>)
    requires k < |insts| && Holds(insts, n, starts, k, e) && e.openIfs == OpenConds(insts, k)
    ensures Holds(insts, n, more, k + 1, EmitNext(n, e, insts[k]))
  {
    if SplitsBefore(n, e, insts[k]) {
      HoldsSplit(insts, n, starts, k, e);
      more := starts + [k];
      HoldsMore(insts, n, more, k, Split(e));
    } else {
      more := starts;
      HoldsMore(insts, n, starts, k, e);
    }
  }

  lemma {:induction false} HoldsAt(insts: seq<Inst>, n: nat, k: nat) returns (starts: seq<nat>)
    requires k <= |insts| && OpenAfter(insts).Some?
    ensures Holds(insts, n, starts, k, EmittedAt(insts, n, k))
  {
    if k == 0 {
      starts := [0];
      HoldsStart(insts, n);
    } else {
      var before := HoldsAt(insts, n, k - 1);
      ShapeAt(insts, n, k - 1);
      starts := HoldsNext(insts, n, k - 1, before, EmittedAt(insts, n, k - 1));
    }
  }

  /** Every well-nested stream is cut into runs, one function each: every function but the last
      is full, holds exactly its run under the conditions that were open, closes them and calls
      the next. */
  lemma ChunksPartition(insts: seq<Inst>, n: nat) returns (starts: seq<nat>)
    requires Balanced(insts)
    ensures Cuts(insts, n, starts, |insts|)
    ensures var fs := Functions(EmittedAt(insts, n, |insts|));
            && |fs| == |starts| && fs[|fs| - 1] == Fun(ChunkLines(insts, starts[|starts| - 1], |insts|), false)
            && forall i: nat :: i < |fs| - 1 ==> FunIs(insts, starts[i], starts[i + 1], fs[i])
  {
    starts := HoldsAt(insts, n, |insts|);
  }

  /** The stream determines the cuts. */
  lemma {:induction false} CutsAgree(insts: seq<Inst>, n: nat, s: seq<nat>, t: seq<nat>, k: nat)
    requires Cuts(insts, n, s, |insts|) && Cuts(insts, n, t, |insts|) && k < |s|
    ensures k < |t| && s[k] == t[k]
  {
    if k > 0 {
      CutsAgree(insts, n, s, t, k - 1);
      assert CutAt(insts, n, s[k - 1], s[k - 1 + 1]);
      NotEmpty(insts, n, s[k - 1], s[k]);
      if k < |t| {
        assert CutAt(insts, n, t[k - 1], t[k - 1 + 1]);
        NotEmpty(insts, n, t[k - 1], t[k]);
      }
    }
  }

  lemma NotEmpty(insts: seq<Inst>, n: nat, a: nat, b: nat)
    requires b < |insts| && Full(insts, n, a, b)
    ensures a < b
  {
  }

  lemma CutsAreUnique(insts: seq<Inst>, n: nat, s: seq<nat>, t: seq<nat>)
    requires Cuts(insts, n, s, |insts|) && Cuts(insts, n, t, |insts|)
    ensures s == t
  {
    CutsAgree(insts, n, s, t, |s| - 1);
    CutsAgree(insts, n, t, s, |t| - 1);
    forall k: nat | k < |s| ensures s[k] == t[k] {
      CutsAgree(insts, n, s, t, k);
    }
  }
}
