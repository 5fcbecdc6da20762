/** Rendering emission units on a worker pool (src/cppEmitter.cpp, emitUnitsParallel). */
module EmitParallel {
  import opened EmitFiles

  /** A worker claims units from a shared counter and renders them into their own buffers. */
  datatype Worker = Idle | Rendering(unit: nat, pos: nat) | Gone

  datatype Pool = Pool(next: nat, bufs: seq<seq<Chunk>>, workers: seq<Worker>)

  datatype Action = Claim(w: nat) | Render(w: nat) | EndUnit(w: nat)

  ghost predicate Enabled(units: seq<seq<Call>>, s: Pool, a: Action) {
    && a.w < |s.workers|
    && match a
       case Claim(w) => s.workers[w].Idle?
       case Render(w) =>
         var k := s.workers[w];
         k.Rendering? && k.unit < |units| && k.pos < |units[k.unit]|
       case EndUnit(w) =>
         var k := s.workers[w];
         k.Rendering? && k.unit < |units| && k.pos == |units[k.unit]|
  }

  ghost function Apply(units: seq<seq<Call>>, s: Pool, a: Action): Pool
    requires Enabled(units, s, a) && |s.bufs| == |units|
  {
    match a
    case Claim(w) =>
      s.(next := s.next + 1, workers := s.workers[w := if s.next < |units| then Rendering(s.next, 0) else Gone])
    case Render(w) =>
      var u, p := s.workers[w].unit, s.workers[w].pos;
      s.(bufs := s.bufs[u := s.bufs[u] + [Capture(units[u][p])]], workers := s.workers[w := Rendering(u, p + 1)])
    case EndUnit(w) => s.(workers := s.workers[w := Idle])
  }

  /** The unit is in some worker's hands. */
  ghost predicate InHand(s: Pool, u: nat) {
    exists w :: 0 <= w < |s.workers| && s.workers[w].Rendering? && s.workers[w].unit == u
  }

  ghost predicate WorkerOk(units: seq<seq<Call>>, s: Pool, w: nat) {
    && w < |s.workers| && |s.bufs| == |units|
    && match s.workers[w]
       case Idle => true
       case Rendering(u, p) => u < s.next && u < |units| && p <= |units[u]| && s.bufs[u] == CaptureAll(units[u][..p])
       case Gone => s.next >= |units|
  }

  /** Buffers hold what has been rendered; a unit nobody works on is untouched or complete. */
  ghost predicate UnitOk(units: seq<seq<Call>>, s: Pool, u: nat) {
    && u < |units| && |s.bufs| == |units|
    && (!InHand(s, u) ==> s.bufs[u] == if u < s.next then CaptureAll(units[u]) else [])
  }

  ghost predicate Inv(units: seq<seq<Call>>, s: Pool) {
    && |s.bufs| == |units|
    && (forall w :: 0 <= w < |s.workers| ==> WorkerOk(units, s, w))
    && (forall u :: 0 <= u < |units| ==> UnitOk(units, s, u))
    && (forall v, w :: 0 <= v < w < |s.workers| && s.workers[v].Rendering? && s.workers[w].Rendering? ==>
          s.workers[v].unit != s.workers[w].unit)
  }

  ghost predicate Init(units: seq<seq<Call>>, s: Pool, workers: nat) {
    s.next == 0 && s.bufs == seq(|units|, i => []) && s.workers == seq(workers, i => Idle)
  }

  lemma InitInv(units: seq<seq<Call>>, s: Pool, workers: nat)
    requires Init(units, s, workers)
    ensures Inv(units, s)
  {
  }

  lemma InHandElsewhere(s: Pool, s2: Pool, w: nat, u: nat)
    requires |s2.workers| == |s.workers| && w < |s.workers| && s2.workers == s.workers[w := s2.workers[w]]
    requires !(s.workers[w].Rendering? && s.workers[w].unit == u)
    ensures InHand(s2, u) <==> InHand(s, u) || (s2.workers[w].Rendering? && s2.workers[w].unit == u)
  {
    if InHand(s, u) {
      var v :| 0 <= v < |s.workers| && s.workers[v].Rendering? && s.workers[v].unit == u;
      assert s2.workers[v] == s.workers[v];
    }
    if InHand(s2, u) {
      var v :| 0 <= v < |s2.workers| && s2.workers[v].Rendering? && s2.workers[v].unit == u;
      assert v != w ==> s.workers[v] == s2.workers[v];
    }
  }

  lemma ClaimKeeps(units: seq<seq<Call>>, s: Pool, w: nat)
    requires Inv(units, s) && Enabled(units, s, Claim(w))
    ensures Inv(units, Apply(units, s, Claim(w)))
  {
    var s2 := Apply(units, s, Claim(w));
    forall v | 0 <= v < |s2.workers| ensures WorkerOk(units, s2, v) {
      assert WorkerOk(units, s, v);
      if v == w && s.next < |units| {
        assert UnitOk(units, s, s.next);
        NobodyAhead(units, s, s.next);
        assert units[s.next][..0] == [];
      }
    }
    forall u | 0 <= u < |units| ensures UnitOk(units, s2, u) {
      assert UnitOk(units, s, u);
      InHandElsewhere(s, s2, w, u);
    }
    forall v | 0 <= v < |s.workers| && s.workers[v].Rendering? ensures s.workers[v].unit != s.next {
      assert WorkerOk(units, s, v);
    }
  }

  lemma NobodyAhead(units: seq<seq<Call>>, s: Pool, u: nat)
    requires Inv(units, s) && s.next <= u
    ensures !InHand(s, u)
  {
    forall v | 0 <= v < |s.workers| && s.workers[v].Rendering? ensures s.workers[v].unit != u {
      assert WorkerOk(units, s, v);
    }
  }

  lemma RenderKeeps(units: seq<seq<Call>>, s: Pool, w: nat)
    requires Inv(units, s) && Enabled(units, s, Render(w))
    ensures Inv(units, Apply(units, s, Render(w)))
  {
    var s2 := Apply(units, s, Render(w));
    var t, p := s.workers[w].unit, s.workers[w].pos;
    forall v | 0 <= v < |s2.workers| ensures WorkerOk(units, s2, v) {
      assert WorkerOk(units, s, v);
      if v == w {
        assert CaptureAll(units[t][..p + 1]) == CaptureAll(units[t][..p]) + [Capture(units[t][p])];
      }
    }
    forall u | 0 <= u < |units| ensures UnitOk(units, s2, u) {
      assert UnitOk(units, s, u);
      if u == t {
        assert s2.workers[w].Rendering? && s2.workers[w].unit == u;
      } else {
        InHandElsewhere(s, s2, w, u);
      }
    }
  }

  lemma EndKeeps(units: seq<seq<Call>>, s: Pool, w: nat)
    requires Inv(units, s) && Enabled(units, s, EndUnit(w))
    ensures Inv(units, Apply(units, s, EndUnit(w)))
  {
    var s2 := Apply(units, s, EndUnit(w));
    var t := s.workers[w].unit;
    assert WorkerOk(units, s, w);
    assert units[t][..|units[t]|] == units[t];
    forall v | 0 <= v < |s2.workers| ensures WorkerOk(units, s2, v) {
      assert WorkerOk(units, s, v);
    }
    forall u | 0 <= u < |units| ensures UnitOk(units, s2, u) {
      assert UnitOk(units, s, u);
      if u != t {
        InHandElsewhere(s, s2, w, u);
      }
    }
  }

  lemma InvStep(units: seq<seq<Call>>, s: Pool, a: Action)
    requires Inv(units, s) && Enabled(units, s, a)
    ensures Inv(units, Apply(units, s, a))
  {
    match a {
      case Claim(w) => ClaimKeeps(units, s, w);
      case Render(w) => RenderKeeps(units, s, w);
      case EndUnit(w) => EndKeeps(units, s, w);
    }
  }

  ghost predicate Runs(units: seq<seq<Call>>, s: Pool, acts: seq<Action>)
    decreases |acts|
  {
    |s.bufs| == |units|
      && (acts == [] || (Enabled(units, s, acts[0]) && Runs(units, Apply(units, s, acts[0]), acts[1..])))
  }

  ghost function After(units: seq<seq<Call>>, s: Pool, acts: seq<Action>): Pool
    requires Runs(units, s, acts)
    decreases |acts|
  {
    if acts == [] then s else After(units, Apply(units, s, acts[0]), acts[1..])
  }

  lemma {:induction false} InvRun(units: seq<seq<Call>>, s: Pool, acts: seq<Action>)
    requires Inv(units, s) && Runs(units, s, acts)
    ensures Inv(units, After(units, s, acts)) && |After(units, s, acts).workers| == |s.workers|
    decreases |acts|
  {
    if acts != [] {
      InvStep(units, s, acts[0]);
      InvRun(units, Apply(units, s, acts[0]), acts[1..]);
    }
  }

  /** Under every schedule, once all workers are gone each buffer holds its whole unit. */
  lemma AllRendered(units: seq<seq<Call>>, s0: Pool, workers: nat, acts: seq<Action>)
    requires workers > 0 && Init(units, s0, workers) && Runs(units, s0, acts)
    requires forall w :: 0 <= w < |After(units, s0, acts).workers| ==> After(units, s0, acts).workers[w].Gone?
    ensures var bufs := After(units, s0, acts).bufs;
            |bufs| == |units| && forall u :: 0 <= u < |units| ==> bufs[u] == CaptureAll(units[u])
  {
    InitInv(units, s0, workers);
    InvRun(units, s0, acts);
    var s := After(units, s0, acts);
    assert WorkerOk(units, s, 0);
    forall u | 0 <= u < |units| ensures s.bufs[u] == CaptureAll(units[u]) {
      assert UnitOk(units, s, u) && !InHand(s, u);
    }
  }

  /** Capture on any schedule, then replay: the files of the sequential run. */
  method EmitUnits(e: Emitter, ghost units: seq<seq<Call>>, ghost s0: Pool, ghost workers: nat, ghost acts: seq<Action>,
                   bufs: seq<seq<Chunk>>)
    requires workers > 0 && Init(units, s0, workers) && Runs(units, s0, acts)
    requires forall w :: 0 <= w < |After(units, s0, acts).workers| ==> After(units, s0, acts).workers[w].Gone?
    requires bufs == After(units, s0, acts).bufs
    modifies e
    ensures e.Now() == EmitAll(e.cfg, old(e.Now()), Stream(units))
  {
    AllRendered(units, s0, workers, acts);
    e.FlushEmitBufs(bufs, units);
  }
}
