/** The event-driven step: supernodes run only when their active bit is set
    (src/cppEmitter.cpp, genActivate; src/cppEmitterEmitCore.cpp, activateNext,
    activateUncondNext, genInterfaceInput). */
module EventSim {
  import opened EventCircuit
  import opened ActiveMask
  import opened EventFlags

  const AllBits: Mask := {0, 1, 2, 3, 4, 5, 6, 7}

  ghost predicate NextOk(c: Circuit, next: seq<seq<seq<nat>>>) {
    && |next| == |c|
    && (forall i :: 0 <= i < |c| ==> |next[i]| == |c[i]|)
    && (forall i, j, k :: 0 <= i < |c| && 0 <= j < |c[i]| ==> (k in next[i][j] <==> Activates(c, i, j, k)))
  }

  /** Supernode k will still be looked at: it is always active, its bit is set, or the bit
      is set in the copy of the word being scanned and its turn is yet to come. */
  ghost predicate Pending(fs: Flags, always: set<nat>, copy: Mask, word: nat, from: nat, k: nat) {
    k in always || Bit(fs, k) || (k / 8 == word && k >= from && k % 8 in copy)
  }

  /** Supernodes that nobody will look at are settled. */
  ghost predicate Consistent(c: Circuit, s: Store, fs: Flags, always: set<nat>, copy: Mask, word: nat, from: nat) {
    forall k :: 0 <= k < |c| && !Pending(fs, always, copy, word, from, k) ==> Settled(c[k], s)
  }

  /** While supernode i runs, with its first n members done. */
  ghost predicate ConsistentInside(c: Circuit, s: Store, fs: Flags, always: set<nat>, copy: Mask, i: nat, n: nat) {
    && i < |c| && n <= |c[i]|
    && (forall k :: 0 <= k < |c| && k != i && !Pending(fs, always, copy, i / 8, i + 1, k) ==> Settled(c[k], s))
    && (!Pending(fs, always, copy, i / 8, i + 1, i) ==> forall l :: 0 <= l < n ==> SettledMember(c[i][l], s))
  }

  /** Every id that is activated becomes pending, and none stops being so. */
  ghost predicate Raised(always: set<nat>, i: nat, ids: seq<nat>, fs: Flags, copy: Mask, fs2: Flags, copy2: Mask) {
    forall k: nat :: RaisedAt(always, i, ids, fs, copy, fs2, copy2, k)
  }

  ghost predicate RaisedAt(always: set<nat>, i: nat, ids: seq<nat>, fs: Flags, copy: Mask, fs2: Flags, copy2: Mask,
                           k: nat) {
    Pending(fs, always, copy, i / 8, i + 1, k) || k in ids ==> Pending(fs2, always, copy2, i / 8, i + 1, k)
  }

  lemma MemberKeeps(c: Circuit, vars: nat, s: Store, always: set<nat>, i: nat, j: nat, ids: seq<nat>, fs: Flags,
                    copy: Mask, fs2: Flags, copy2: Mask)
    requires CircuitOk(c, vars) && |s| == vars && ConsistentInside(c, s, fs, always, copy, i, j) && j < |c[i]|
    requires Raised(always, i, ids, fs, copy, fs2, copy2)
    requires RunMember(c[i][j], s) == s || forall k :: Activates(c, i, j, k) ==> k in ids
    ensures ConsistentInside(c, RunMember(c[i][j], s), fs2, always, copy2, i, j + 1)
  {
    var r := RunMember(c[i][j], s);
    forall k | 0 <= k < |c| && k != i && !Pending(fs2, always, copy2, i / 8, i + 1, k) ensures Settled(c[k], r) {
      assert RaisedAt(always, i, ids, fs, copy, fs2, copy2, k);
      forall l | 0 <= l < |c[k]| ensures SettledMember(c[k][l], r) {
        OtherStaysSettled(c, vars, i, j, s, k, l);
      }
    }
    if !Pending(fs2, always, copy2, i / 8, i + 1, i) {
      assert RaisedAt(always, i, ids, fs, copy, fs2, copy2, i);
      forall l | 0 <= l < j + 1 ensures SettledMember(c[i][l], r) {
        if l < j {
          OtherStaysSettled(c, vars, i, j, s, i, l);
        } else {
          OwnIsSettled(c, vars, i, j, s);
        }
      }
    }
  }

  lemma InputKeeps(c: Circuit, vars: nat, s: Store, always: set<nat>, v: nat, x: Val, ids: seq<nat>, fs: Flags,
                   fs2: Flags)
    requires CircuitOk(c, vars) && |s| == vars && v < vars && Consistent(c, s, fs, always, {}, 0, 0)
    requires forall i, j :: 0 <= i < |c| && 0 <= j < |c[i]| ==> c[i][j].target != v && c[i][j].reg != From(v)
    requires forall k :: 0 <= k < |c| && UsedIn(c[k], |c[k]|, v) ==> k in ids
    requires forall k: nat :: Bit(fs, k) || (k in ids && k !in always) ==> Bit(fs2, k)
    ensures Consistent(c, s[v := x], fs2, always, {}, 0, 0)
  {
    var r := s[v := x];
    forall k | 0 <= k < |c| && !Pending(fs2, always, {}, 0, 0, k) ensures Settled(c[k], r) {
      assert !Pending(fs, always, {}, 0, 0, k);
      forall l | 0 <= l < |c[k]| ensures SettledMember(c[k][l], r) {
        var m := c[k][l];
        assert MemberOk(m, vars) && SettledMember(m, s);
        assert v !in m.uses;
        assert LocalAt(m, s, r);
      }
    }
  }

  /** What happens between two looks at the outputs. */
  datatype Event = Set(input: nat, value: Val) | Cycle

  /** The reference: inputs change, and every cycle evaluates everything. */
  function Reference(c: Circuit, es: seq<Event>, s: Store): Store
    decreases |es|
  {
    if es == [] then s else
      var before := Reference(c, es[..|es| - 1], s);
      match es[|es| - 1]
      case Set(v, x) => if v < |before| then before[v := x] else before
      case Cycle => FullCycle(c, before)
  }

  class Simulator {
    const circuit: Circuit
    const next: seq<seq<seq<nat>>>
    const always: set<nat>
    const vars: nat
    const activeFlags: array<Mask>
    var store: Store
    /** Supernodes evaluated in this step. */
    ghost var log: set<nat>

    /** There are flag words for all supernodes, in whole groups of eight words. */
    ghost predicate Valid()
      reads this
    {
      && CircuitOk(circuit, vars) && NextOk(circuit, next) && |store| == vars
      && activeFlags.Length % 8 == 0 && |circuit| <= activeFlags.Length * 8
    }

    ghost predicate Quiet()
      reads this, activeFlags
    {
      Valid() && Consistent(circuit, store, activeFlags[..], always, {}, 0, 0)
    }

    /** At the start every flag is set. */
    constructor (circuit: Circuit, always: set<nat>, store: Store, next: seq<seq<seq<nat>>>)
      requires CircuitOk(circuit, |store|) && NextOk(circuit, next)
      ensures Quiet() && this.circuit == circuit && this.always == always && this.store == store && fresh(activeFlags)
      ensures forall k: nat :: k < |circuit| ==> Bit(activeFlags[..], k)
    {
      this.circuit, this.always, this.store, this.next := circuit, always, store, next;
      this.vars, log := |store|, {};
      var words := (|circuit| + 7) / 8;
      activeFlags := new Mask[(words + 7) / 8 * 8](_ => AllBits);
      new;
      assert forall k: nat :: k / 8 < activeFlags.Length ==> Bit(activeFlags[..], k);
    }

    // ----- setting flags

    /** One emitted store: the mask is OR-ed into the words from w on. */
    method OrMask(w: nat, mask: Mask)
      requires Valid() && EntryOk(w, mask) && w < activeFlags.Length
      modifies activeFlags
      ensures forall id: nat :: Bit(activeFlags[..], id) <==> Bit(old(activeFlags[..]), id) || Covers(w, mask, id)
    {
      var n := if w % 8 == 0 then 8 else 1;
      ghost var before := activeFlags[..];
      for k := 0 to n
        invariant activeFlags[..] == OrWords(before, w, k, mask)
      {
        activeFlags[w + k] := activeFlags[w + k] + Slice(mask, k);
      }
      OrWordsAt(before, w, n, mask);
      OrMaskMeaning(w, mask, n, before, activeFlags[..]);
    }

    method OrAll(words: Words)
      requires Valid() && PackOk(words) && forall id: nat :: Sets(words, id) ==> id / 8 < activeFlags.Length
      modifies activeFlags
      ensures forall id: nat :: Bit(activeFlags[..], id) <==> Bit(old(activeFlags[..]), id) || Sets(words, id)
    {
      var todo := words.Keys;
      while todo != {}
        invariant todo <= words.Keys
        invariant forall id: nat :: Bit(activeFlags[..], id) <==>
                    Bit(old(activeFlags[..]), id) || SetsOutside(words, todo, id)
        decreases todo
      {
        var w :| w in todo;
        assert EntryOk(w, words[w]);
        EntryInRange(words, w, activeFlags.Length);
        OrMask(w, words[w]);
        forall id: nat
          ensures SetsOutside(words, todo - {w}, id) <==> SetsOutside(words, todo, id) || Covers(w, words[w], id)
        {
          OutsideGrows(words, todo, w, id);
        }
        todo := todo - {w};
      }
    }

    /** activateNext and activateUncondNext, once the change is known: the flags of the ids
        are set, those behind i in its own word in the copy when there is one. */
    method Activate(ids: seq<nat>, i: nat, whole: bool, copy: Mask) returns (copy2: Mask)
      requires Valid() && i < |circuit| && (forall k :: k in ids ==> k < |circuit|) && (!whole ==> copy == {})
      modifies activeFlags
      ensures Raised(always, i, ids, old(activeFlags[..]), copy, activeFlags[..], copy2)
      ensures forall k: nat :: Bit(activeFlags[..], k) <==>
                Bit(old(activeFlags[..]), k) || (k in ids && k !in always && !(whole && Near(k, i)))
      ensures whole ==> forall p :: p in copy2 <==>
                p in copy || exists k :: k in ids && k !in always && Near(k, i) && k % 8 == p
      ensures !whole ==> copy2 == {}
      ensures whole ==> forall k: nat :: k / 8 == i / 8 && k > i && Bit(activeFlags[..], k) ==>
                Bit(old(activeFlags[..]), k)
    {
      var near, words := Pack(ids, always, i);
      ghost var before := activeFlags[..];
      OrAll(words);
      ghost var mid := activeFlags[..];
      if whole {
        copy2 := copy + near;
      } else {
        copy2 := {};
        activeFlags[i / 8] := activeFlags[i / 8] + near;
      }
      RaisedByPack(always, i, ids, whole, copy, near, words, before, mid, activeFlags[..], copy2);
      ExactlyPacked(always, i, ids, whole, near, words, before, mid, activeFlags[..]);
    }

    // ----- running supernodes

    method RunSuper(i: nat, whole: bool, copy: Mask) returns (copy2: Mask)
      requires Valid() && i < |circuit| && (!whole ==> copy == {})
      requires Consistent(circuit, store, activeFlags[..], always, copy, i / 8, i)
      modifies this`store, this`log, activeFlags
      ensures Valid() && store == RunMembers(circuit[i], old(store)) && log == old(log) + {i}
      ensures Consistent(circuit, store, activeFlags[..], always, copy2, i / 8, i + 1)
      ensures !whole ==> copy2 == {}
      ensures Activated(circuit, always, i, old(store), |circuit[i]|, whole, old(activeFlags[..]), copy,
                        activeFlags[..], copy2)
    {
      var ms := circuit[i];
      copy2 := copy;
      log := log + {i};
      StartInside(circuit, store, activeFlags[..], always, copy, i);
      ActivatedNone(circuit, always, i, store, whole, activeFlags[..], copy);
      var j := 0;
      while j < |ms|
        invariant 0 <= j <= |ms| && Valid() && (!whole ==> copy2 == {}) && log == old(log) + {i}
        invariant store == RunMembers(ms[..j], old(store))
        invariant ConsistentInside(circuit, store, activeFlags[..], always, copy2, i, j)
        invariant Activated(circuit, always, i, old(store), j, whole, old(activeFlags[..]), copy, activeFlags[..],
                            copy2)
      {
        assert ms[..j + 1][..j] == ms[..j] && ms[..j + 1][j] == ms[j];
        ghost var fs1, copy1 := activeFlags[..], copy2;
        copy2 := EvalMember(i, j, whole, copy2, old(store));
        ActivatedOne(circuit, always, i, old(store), j, whole, old(activeFlags[..]), copy, fs1, copy1,
                     activeFlags[..], copy2);
        j := j + 1;
      }
      assert ms[..j] == ms;
      EndInside(circuit, store, activeFlags[..], always, copy2, i);
    }

    /** One member: evaluate, store, and activate when the value changed; arrays activate
        without comparing. */
    method EvalMember(i: nat, j: nat, whole: bool, copy: Mask, ghost start: Store) returns (copy2: Mask)
      requires Valid() && (!whole ==> copy == {}) && i < |circuit| && j < |circuit[i]|
      requires ConsistentInside(circuit, store, activeFlags[..], always, copy, i, j)
      requires store == RunMembers(circuit[i][..j], start)
      modifies this`store, activeFlags
      ensures Valid() && store == RunMember(circuit[i][j], old(store)) && (!whole ==> copy2 == {})
      ensures ConsistentInside(circuit, store, activeFlags[..], always, copy2, i, j + 1)
      ensures forall k: nat :: Bit(activeFlags[..], k) <==>
                Bit(old(activeFlags[..]), k) || (Fires(circuit[i], start, j) && Activates(circuit, i, j, k)
                                                 && k !in always && !(whole && Near(k, i)))
      ensures whole ==> forall p: nat :: p in copy2 <==>
                p in copy || (Fires(circuit[i], start, j)
                              && exists k: nat ::
                                Activates(circuit, i, j, k) && k !in always && Near(k, i) && k % 8 == p)
    {
      var m := circuit[i][j];
      ghost var before, fs := store, activeFlags[..];
      assert MemberOk(m, vars);
      var oldValue := store[m.target];
      store := store[m.target := m.f(store)];
      copy2 := copy;
      if m.isArray || store[m.target] != oldValue {
        copy2 := Activate(next[i][j], i, whole, copy);
        MemberKeeps(circuit, vars, before, always, i, j, next[i][j], fs, copy, activeFlags[..], copy2);
      } else {
        assert store == before;
        assert Raised(always, i, [], fs, copy, activeFlags[..], copy2);
        MemberKeeps(circuit, vars, before, always, i, j, [], fs, copy, activeFlags[..], copy2);
      }
    }

    // ----- one cycle

    /** Where the step has got to: the first n supernodes are done. */
    ghost predicate Upto(s0: Store, fs0: Flags, n: nat)
      reads this
    {
      n <= |circuit| && RanTo(circuit, always, s0, fs0, log, n) && store == RunRange(circuit, 0, n, s0)
    }

    /** Word w is being scanned from its copy, supernode idx next. */
    ghost predicate Copied(w: nat, idx: nat, copy: Mask, s0: Store, fs0: Flags)
      reads this, activeFlags
    {
      && Valid() && WholeWord(circuit, always, w) && Upto(s0, fs0, idx)
      && Consistent(circuit, store, activeFlags[..], always, copy, w, idx)
      && InWord(circuit, always, s0, fs0, log, activeFlags[..], copy, w, idx)
    }

    method ScanCopy(w: nat, end: nat, copy0: Mask, ghost s0: Store, ghost fs0: Flags)
      requires Valid() && w * 8 < end <= |circuit| && end <= w * 8 + 8 && (end == w * 8 + 8 || end == |circuit|)
      requires Copied(w, w * 8, copy0, s0, fs0)
      modifies this`store, this`log, activeFlags
      ensures Valid() && Upto(s0, fs0, end) && FlagsTo(circuit, always, s0, fs0, log, activeFlags[..], end)
      ensures Consistent(circuit, store, activeFlags[..], always, {}, 0, 0)
    {
      var copy := copy0;
      var idx := w * 8;
      while idx < end
        invariant w * 8 <= idx <= end && Copied(w, idx, copy, s0, fs0)
      {
        copy := TryCopied(w, idx, copy, s0, fs0);
        idx := idx + 1;
      }
      InWordEnd(circuit, always, s0, fs0, log, activeFlags[..], copy, w, end);
      WordDone(circuit, store, activeFlags[..], always, copy, w, end);
    }

    method TryCopied(w: nat, idx: nat, copy: Mask, ghost s0: Store, ghost fs0: Flags) returns (copy2: Mask)
      requires idx / 8 == w && idx < |circuit| && Copied(w, idx, copy, s0, fs0)
      modifies this`store, this`log, activeFlags
      ensures Copied(w, idx + 1, copy2, s0, fs0)
    {
      RangeStep(circuit, 0, idx, s0);
      assert InWordAt(circuit, always, s0, fs0, log, activeFlags[..], copy, w, idx, idx);
      HitEarlier(circuit, always, s0, fs0, log, idx, idx);
      RanMore(circuit, always, s0, fs0, log, idx, idx % 8 in copy);
      ghost var log0, fs := log, activeFlags[..];
      if idx % 8 in copy {
        copy2 := RunSuper(idx, true, copy);
        InWordRun(circuit, always, s0, fs0, log0, fs, copy, w, idx, activeFlags[..], copy2);
      } else {
        copy2 := copy;
        assert !Pending(activeFlags[..], always, copy, w, idx, idx);
        SettledIsNoop(circuit[idx], store);
        StepPast(circuit, store, activeFlags[..], always, copy, w, idx);
        InWordSkip(circuit, always, s0, fs0, log0, fs, copy, w, idx);
      }
    }

    /** A word without always-active supernodes is copied and cleared, then its supernodes
        run from the copy. */
    method ScanWhole(w: nat, end: nat, ghost s0: Store, ghost fs0: Flags)
      requires Valid() && w < activeFlags.Length && w * 8 < end <= |circuit| && end <= w * 8 + 8
      requires (end == w * 8 + 8 || end == |circuit|) && WholeWord(circuit, always, w) && Upto(s0, fs0, w * 8)
      requires Consistent(circuit, store, activeFlags[..], always, {}, 0, 0)
      requires FlagsTo(circuit, always, s0, fs0, log, activeFlags[..], w * 8)
      modifies this`store, this`log, activeFlags
      ensures Valid() && Upto(s0, fs0, end) && FlagsTo(circuit, always, s0, fs0, log, activeFlags[..], end)
      ensures Consistent(circuit, store, activeFlags[..], always, {}, 0, 0)
    {
      ghost var fs := activeFlags[..];
      if activeFlags[w] != {} {
        var copy := activeFlags[w];
        InWordStart(circuit, always, s0, fs0, log, fs, w);
        activeFlags[w] := {};
        assert activeFlags[..] == fs[w := {}];
        CopyKeeps(circuit, store, fs, always, w, activeFlags[..]);
        ScanCopy(w, end, copy, s0, fs0);
      } else {
        EmptyWord(circuit, always, s0, fs0, log, fs, w, end);
        SkipWord(circuit, store, activeFlags[..], always, w, w * 8, end);
        RangeJoin(circuit, w * 8, end, s0);
      }
    }

    /** A word with an always-active supernode keeps its flags. */
    method ScanKept(w: nat, end: nat, ghost s0: Store, ghost fs0: Flags)
      requires Valid() && w < activeFlags.Length && w * 8 < end <= |circuit| && end <= w * 8 + 8
      requires !WholeWord(circuit, always, w) && Upto(s0, fs0, w * 8)
      requires Consistent(circuit, store, activeFlags[..], always, {}, 0, 0)
      requires FlagsTo(circuit, always, s0, fs0, log, activeFlags[..], w * 8)
      modifies this`store, this`log, activeFlags
      ensures Valid() && Upto(s0, fs0, end) && FlagsTo(circuit, always, s0, fs0, log, activeFlags[..], end)
      ensures Consistent(circuit, store, activeFlags[..], always, {}, 0, 0)
    {
      var idx := w * 8;
      while idx < end
        invariant w * 8 <= idx <= end && Valid() && Upto(s0, fs0, idx)
        invariant Consistent(circuit, store, activeFlags[..], always, {}, 0, 0)
        invariant FlagsTo(circuit, always, s0, fs0, log, activeFlags[..], idx)
      {
        TryKept(w, idx, s0, fs0);
        idx := idx + 1;
      }
    }

    method TryKept(w: nat, idx: nat, ghost s0: Store, ghost fs0: Flags)
      requires Valid() && w < activeFlags.Length && idx / 8 == w && idx < |circuit| && Upto(s0, fs0, idx)
      requires !WholeWord(circuit, always, w) && Consistent(circuit, store, activeFlags[..], always, {}, 0, 0)
      requires FlagsTo(circuit, always, s0, fs0, log, activeFlags[..], idx)
      modifies this`store, this`log, activeFlags
      ensures Valid() && Upto(s0, fs0, idx + 1)
      ensures FlagsTo(circuit, always, s0, fs0, log, activeFlags[..], idx + 1)
      ensures Consistent(circuit, store, activeFlags[..], always, {}, 0, 0)
    {
      RangeStep(circuit, 0, idx, s0);
      assert FlagAt(circuit, always, s0, fs0, log, activeFlags[..], idx, idx);
      HitEarlier(circuit, always, s0, fs0, log, idx, idx);
      RanMore(circuit, always, s0, fs0, log, idx, idx in always || idx % 8 in activeFlags[w]);
      ghost var log0, fs := log, activeFlags[..];
      if idx in always || idx % 8 in activeFlags[w] {
        NoCopy(circuit, store, activeFlags[..], always, 0, 0, w, idx);
        var copy := RunSuper(idx, false, {});
        NoCopy(circuit, store, activeFlags[..], always, w, idx + 1, 0, 0);
        KeptRun(circuit, always, s0, fs0, log0, fs, idx, activeFlags[..]);
      } else {
        assert !Pending(activeFlags[..], always, {}, 0, 0, idx);
        SettledIsNoop(circuit[idx], store);
        KeptSkip(circuit, always, s0, fs0, log0, fs, idx);
      }
    }

    method ScanWord(w: nat, end: nat, ghost s0: Store, ghost fs0: Flags)
      requires Quiet() && w * 8 < end <= |circuit| && end <= w * 8 + 8 && (end == w * 8 + 8 || end == |circuit|)
      requires Upto(s0, fs0, w * 8) && FlagsTo(circuit, always, s0, fs0, log, activeFlags[..], w * 8)
      modifies this`store, this`log, activeFlags
      ensures Quiet() && Upto(s0, fs0, end) && FlagsTo(circuit, always, s0, fs0, log, activeFlags[..], end)
    {
      var whole := true;
      for j := w * 8 to end
        invariant whole <==> forall k :: w * 8 <= k < j ==> k !in always
      {
        if j in always {
          whole := false;
        }
      }
      assert whole <==> WholeWord(circuit, always, w) by {
        assert forall k: nat :: k < |circuit| && k / 8 == w <==> w * 8 <= k < end;
      }
      if whole {
        ScanWhole(w, end, s0, fs0);
      } else {
        ScanKept(w, end, s0, fs0);
      }
    }

    /** step: event-driven evaluation leaves what evaluating everything leaves; it evaluates
        exactly the supernodes that are called, and leaves exactly the flags that are due. */
    method Step()
      requires Quiet()
      modifies this`store, this`log, activeFlags
      ensures Quiet() && store == FullCycle(circuit, old(store))
      ensures RanTo(circuit, always, old(store), old(activeFlags[..]), log, |circuit|)
      ensures FlagsTo(circuit, always, old(store), old(activeFlags[..]), log, activeFlags[..], |circuit|)
    {
      ghost var s0, fs0 := store, activeFlags[..];
      log := {};
      var idx := 0;
      StartStep(circuit, always, s0, fs0);
      while idx < |circuit|
        invariant 0 <= idx <= |circuit| && (idx % 8 == 0 || idx == |circuit|) && Quiet() && Upto(s0, fs0, idx)
        invariant FlagsTo(circuit, always, s0, fs0, log, activeFlags[..], idx)
      {
        var end := if idx + 8 <= |circuit| then idx + 8 else |circuit|;
        ScanWord(idx / 8, end, s0, fs0);
        idx := end;
      }
      RangeIsCycle(circuit, s0);
    }

    /** set_x: a changed input activates the supernodes that use it. */
    method SetInput(v: nat, x: Val)
      requires Quiet() && v < vars && IsInput(circuit, v)
      modifies this`store, activeFlags
      ensures Quiet() && store == old(store)[v := x]
      ensures forall k: nat :: Bit(activeFlags[..], k) <==>
                Bit(old(activeFlags[..]), k)
                || (old(store)[v] != x && k !in always && k < |circuit| && UsedIn(circuit[k], |circuit[k]|, v))
    {
      if store[v] != x {
        ghost var before, fs := store, activeFlags[..];
        store := store[v := x];
        var ids := Users(circuit, v);
        var near, words := Pack(ids, always, -1);
        OrAll(words);
        InputKeeps(circuit, vars, before, always, v, x, ids, fs, activeFlags[..]);
      }
    }

    /** Any run of input changes and cycles agrees with the reference. */
    method Run(es: seq<Event>)
      requires Quiet() && forall e :: e in es && e.Set? ==> e.input < vars && IsInput(circuit, e.input)
      modifies this`store, this`log, activeFlags
      ensures Quiet() && store == Reference(circuit, es, old(store))
    {
      for i := 0 to |es|
        invariant Quiet() && store == Reference(circuit, es[..i], old(store))
      {
        assert es[..i + 1][..i] == es[..i] && es[..i + 1][i] == es[i];
        match es[i]
        case Set(v, x) => SetInput(v, x);
        case Cycle => Step();
      }
      assert es[..|es|] == es;
    }
  }

  function Slice(mask: Mask, k: nat): (r: Mask)
    ensures forall p: nat :: p in r <==> p < 8 && p + 8 * k in mask
  {
    set b | b in AllBits && b + 8 * k in mask
  }

  /** The first k slices OR-ed into the words from w on. */
  ghost function OrWords(fs: Flags, w: nat, k: nat, mask: Mask): (r: Flags)
    requires w + k <= |fs|
    ensures |r| == |fs|
  {
    if k == 0 then fs
    else
      var before := OrWords(fs, w, k - 1, mask);
      before[w + k - 1 := before[w + k - 1] + Slice(mask, k - 1)]
  }

  lemma {:induction false} OrWordsAt(fs: Flags, w: nat, k: nat, mask: Mask)
    requires w + k <= |fs|
    ensures forall v :: 0 <= v < |fs| ==>
              OrWords(fs, w, k, mask)[v] == if w <= v < w + k then fs[v] + Slice(mask, v - w) else fs[v]
  {
    if k > 0 {
      OrWordsAt(fs, w, k - 1, mask);
    }
  }

  lemma OrMaskMeaning(w: nat, mask: Mask, n: nat, before: Flags, after: Flags)
    requires EntryOk(w, mask) && n == (if w % 8 == 0 then 8 else 1) && w + n <= |before| == |after|
    requires forall v :: 0 <= v < |before| ==>
               after[v] == if w <= v < w + n then before[v] + Slice(mask, v - w) else before[v]
    ensures forall id: nat :: Bit(after, id) <==> Bit(before, id) || Covers(w, mask, id)
  {
    forall id: nat ensures Bit(after, id) <==> Bit(before, id) || Covers(w, mask, id) {
      var v, b := id / 8, id % 8;
      assert id == v * 8 + b;
      if w <= v < w + n {
        assert b in Slice(mask, v - w) <==> b + 8 * (v - w) in mask;
      }
    }
  }

  ghost predicate SetsOutside(words: Words, todo: set<nat>, id: nat) {
    exists w :: w in words && w !in todo && Covers(w, words[w], id)
  }

  lemma OutsideGrows(words: Words, todo: set<nat>, w: nat, id: nat)
    requires w in todo && w in words
    ensures SetsOutside(words, todo - {w}, id) <==> SetsOutside(words, todo, id) || Covers(w, words[w], id)
  {
    if SetsOutside(words, todo, id) {
      var v: nat :| v in words && v !in todo && Covers(v, words[v], id);
      assert v !in todo - {w};
    }
  }

  lemma EntryInRange(words: Words, w: nat, length: nat)
    requires w in words && EntryOk(w, words[w]) && forall id: nat :: Sets(words, id) ==> id / 8 < length
    ensures w < length
  {
    var p :| p in words[w];
    assert Covers(w, words[w], w * 8 + p);
    assert Sets(words, w * 8 + p);
  }

  lemma ExactlyPacked(always: set<nat>, i: nat, ids: seq<nat>, whole: bool, near: Mask, words: Words, before: Flags,
                      mid: Flags, after: Flags)
    requires |mid| == |after| && i / 8 < |mid|
    requires forall id :: Sets(words, id) <==> id in ids && id !in always && !Near(id, i)
    requires forall p :: p in near <==> exists id :: id in ids && id !in always && Near(id, i) && id % 8 == p
    requires forall id: nat :: Bit(mid, id) <==> Bit(before, id) || Sets(words, id)
    requires after == if whole then mid else mid[i / 8 := mid[i / 8] + near]
    ensures forall k: nat :: Bit(after, k) <==> Bit(before, k) || (k in ids && k !in always && !(whole && Near(k, i)))
  {
    forall k: nat ensures Bit(after, k) <==> Bit(before, k) || (k in ids && k !in always && !(whole && Near(k, i))) {
      assert Bit(mid, k) <==> Bit(before, k) || Sets(words, k);
      if !whole {
        assert Bit(after, k) <==> Bit(mid, k) || (k / 8 == i / 8 && k % 8 in near);
        if k / 8 == i / 8 && k % 8 in near {
          var id: nat :| id in ids && id !in always && Near(id, i) && id % 8 == k % 8;
          assert id == k;
        }
      }
    }
  }

  lemma RaisedByPack(always: set<nat>, i: nat, ids: seq<nat>, whole: bool, copy: Mask, near: Mask, words: Words,
                     before: Flags, mid: Flags, after: Flags, copy2: Mask)
    requires |mid| == |after| && i / 8 < |mid|
    requires forall id :: Sets(words, id) <==> id in ids && id !in always && !Near(id, i)
    requires forall p :: p in near <==> exists id :: id in ids && id !in always && Near(id, i) && id % 8 == p
    requires forall id: nat :: Bit(mid, id) <==> Bit(before, id) || Sets(words, id)
    requires if whole then copy2 == copy + near && after == mid
               else copy2 == {} && copy == {} && after == mid[i / 8 := mid[i / 8] + near]
    ensures Raised(always, i, ids, before, copy, after, copy2)
    ensures whole ==> forall k: nat :: k / 8 == i / 8 && k > i && Bit(after, k) ==> Bit(before, k)
  {
    forall k: nat ensures RaisedAt(always, i, ids, before, copy, after, copy2, k) {
      assert Bit(mid, k) ==> Bit(after, k);
      if k in ids && k !in always {
        if Near(k, i) {
          assert k % 8 in near;
        } else {
          assert Sets(words, k);
        }
      }
    }
  }

  // ----- steps of the scan

  lemma StartInside(c: Circuit, s: Store, fs: Flags, always: set<nat>, copy: Mask, i: nat)
    requires i < |c| && Consistent(c, s, fs, always, copy, i / 8, i)
    ensures ConsistentInside(c, s, fs, always, copy, i, 0)
  {
    forall k | 0 <= k < |c| && k != i && !Pending(fs, always, copy, i / 8, i + 1, k) ensures Settled(c[k], s) {
      assert !Pending(fs, always, copy, i / 8, i, k);
    }
  }

  lemma EndInside(c: Circuit, s: Store, fs: Flags, always: set<nat>, copy: Mask, i: nat)
    requires i < |c| && ConsistentInside(c, s, fs, always, copy, i, |c[i]|)
    ensures Consistent(c, s, fs, always, copy, i / 8, i + 1)
  {
  }

  lemma CopyKeeps(c: Circuit, s: Store, fs: Flags, always: set<nat>, w: nat, fs2: Flags)
    requires w < |fs| && fs2 == fs[w := {}] && Consistent(c, s, fs, always, {}, 0, 0)
    ensures Consistent(c, s, fs2, always, fs[w], w, w * 8)
  {
    forall k | 0 <= k < |c| && !Pending(fs2, always, fs[w], w, w * 8, k) ensures Settled(c[k], s) {
      assert !Pending(fs, always, {}, 0, 0, k);
    }
  }

  lemma StepPast(c: Circuit, s: Store, fs: Flags, always: set<nat>, copy: Mask, w: nat, idx: nat)
    requires idx / 8 == w && idx % 8 !in copy && Consistent(c, s, fs, always, copy, w, idx)
    ensures Consistent(c, s, fs, always, copy, w, idx + 1)
  {
    forall k | 0 <= k < |c| && !Pending(fs, always, copy, w, idx + 1, k) ensures Settled(c[k], s) {
      assert !Pending(fs, always, copy, w, idx, k);
    }
  }

  lemma WordDone(c: Circuit, s: Store, fs: Flags, always: set<nat>, copy: Mask, w: nat, end: nat)
    requires Consistent(c, s, fs, always, copy, w, end) && (end == w * 8 + 8 || end == |c|)
    ensures Consistent(c, s, fs, always, {}, 0, 0)
  {
    forall k | 0 <= k < |c| && !Pending(fs, always, {}, 0, 0, k) ensures Settled(c[k], s) {
      assert !Pending(fs, always, copy, w, end, k);
    }
  }

  lemma NoCopy(c: Circuit, s: Store, fs: Flags, always: set<nat>, w: nat, from: nat, w2: nat, from2: nat)
    requires Consistent(c, s, fs, always, {}, w, from)
    ensures Consistent(c, s, fs, always, {}, w2, from2)
  {
    forall k | 0 <= k < |c| && !Pending(fs, always, {}, w2, from2, k) ensures Settled(c[k], s) {
      assert !Pending(fs, always, {}, w, from, k);
    }
  }

  lemma {:induction false} RangeJoin(c: Circuit, from: nat, end: nat, s: Store)
    requires from <= end <= |c|
    ensures RunRange(c, 0, end, s) == RunRange(c, from, end, RunRange(c, 0, from, s))
    decreases end - from
  {
    if from < end {
      RangeJoin(c, from, end - 1, s);
    }
  }

  lemma {:induction false} RangeIsCycle(c: Circuit, s: Store)
    ensures RunRange(c, 0, |c|, s) == FullCycle(c, s)
    decreases |c|
  {
    if c != [] {
      var front := c[..|c| - 1];
      RangeIsCycle(front, s);
      RangePrefix(c, front, |front|, s);
    }
  }

  lemma {:induction false} RangePrefix(c: Circuit, front: Circuit, n: nat, s: Store)
    requires n <= |front| <= |c| && front == c[..|front|]
    ensures RunRange(front, 0, n, s) == RunRange(c, 0, n, s)
  {
    if n > 0 {
      RangePrefix(c, front, n - 1, s);
    }
  }

  lemma RangeStep(c: Circuit, from: nat, idx: nat, s: Store)
    requires from <= idx < |c|
    ensures RunRange(c, from, idx + 1, s) == RunMembers(c[idx], RunRange(c, from, idx, s))
  {
  }

  lemma StartStep(c: Circuit, always: set<nat>, s0: Store, fs0: Flags)
    ensures RanTo(c, always, s0, fs0, {}, 0) && FlagsTo(c, always, s0, fs0, {}, fs0, 0)
  {
    forall k: nat ensures RanAt(c, always, s0, fs0, {}, 0, k) {
    }
    forall k: nat | k < |c| ensures FlagAt(c, always, s0, fs0, {}, fs0, 0, k) {
    }
  }

  /** Nobody is flagged in the word: all its supernodes are settled. */
  lemma {:induction false} SkipWord(c: Circuit, s: Store, fs: Flags, always: set<nat>, w: nat, from: nat, end: nat)
    requires w < |fs| && fs[w] == {} && w * 8 <= from <= end <= |c| && end <= w * 8 + 8
    requires forall k :: from <= k < end ==> k !in always
    requires Consistent(c, s, fs, always, {}, 0, 0)
    ensures RunRange(c, from, end, s) == s
    decreases end - from
  {
    if from < end {
      SkipWord(c, s, fs, always, w, from, end - 1);
      assert !Pending(fs, always, {}, 0, 0, end - 1);
      SettledIsNoop(c[end - 1], s);
    }
  }

  /** An input is written by no member. */
  ghost predicate IsInput(c: Circuit, v: nat) {
    forall i, j :: 0 <= i < |c| && 0 <= j < |c[i]| ==> c[i][j].target != v && c[i][j].reg != From(v)
  }

  method Users(c: Circuit, v: nat) returns (ids: seq<nat>)
    ensures forall k: nat :: k in ids <==> k < |c| && (UsedIn(c[k], |c[k]|, v) || CopiedIn(c[k], v))
  {
    ids := [];
    for k := 0 to |c|
      invariant forall x: nat :: x in ids <==> x < k && (UsedIn(c[x], |c[x]|, v) || CopiedIn(c[x], v))
    {
      var used := Scan(c[k], |c[k]|, v);
      if used {
        ids := ids + [k];
      }
    }
  }

  /** The activation table of all members. */
  method BuildNext(c: Circuit) returns (next: seq<seq<seq<nat>>>)
    ensures NextOk(c, next)
  {
    next := [];
    for i := 0 to |c|
      invariant |next| == i && forall k :: 0 <= k < i ==> |next[k]| == |c[k]|
      invariant forall k, j, x :: 0 <= k < i && 0 <= j < |c[k]| ==> (x in next[k][j] <==> Activates(c, k, j, x))
    {
      var row := [];
      for j := 0 to |c[i]|
        invariant |row| == j
        invariant forall k, x :: 0 <= k < j ==> (x in row[k] <==> Activates(c, i, k, x))
      {
        var ids := UpdateActivate(c, i, j);
        row := row + [ids];
      }
      next := next + [row];
    }
  }
}
