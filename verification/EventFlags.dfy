/** Which supernodes a step evaluates and which flags it leaves, without the flag words
    (src/cppEmitter.cpp, genActivate; src/cppEmitterEmitCore.cpp, activateNext). */
module EventFlags {
  import opened EventCircuit
  import opened ActiveMask

  /** A flag word is the set of its bit positions. */
  type Flags = seq<Mask>

  ghost predicate Bit(fs: Flags, id: nat) {
    id / 8 < |fs| && id % 8 in fs[id / 8]
  }

  /** Supernodes from up to end, in order. */
  function RunRange(c: Circuit, from: nat, end: nat, s: Store): (r: Store)
    requires from <= end <= |c|
    ensures |r| == |s|
    decreases end - from
  {
    if from == end then s else RunMembers(c[end - 1], RunRange(c, from, end - 1, s))
  }

  // ----- who activates whom

  /** Member j changes its node, or is an array, when the members are evaluated from s. */
  ghost predicate Fires(ms: seq<Member>, s: Store, j: nat) {
    && j < |ms|
    && var pre := RunMembers(ms[..j], s);
       ms[j].isArray || (ms[j].target < |pre| && ms[j].f(pre) != pre[ms[j].target])
  }

  /** One of the first n members of supernode i, evaluated from s, activates k. */
  ghost predicate FiresTo(c: Circuit, i: nat, s: Store, n: nat, k: nat)
    requires i < |c| && n <= |c[i]|
  {
    exists j: nat :: j < n && Activates(c, i, j, k) && Fires(c[i], s, j)
  }

  /** In a cycle from s0, supernode i activates k. */
  ghost predicate FiresAt(c: Circuit, s0: Store, i: nat, k: nat) {
    i < |c| && FiresTo(c, i, RunRange(c, 0, i, s0), |c[i]|, k)
  }

  /** What running the first n members of i did to the flags: exactly the activated ids that are
      not always active are set, those behind i in its own word in the copy when there is one. */
  ghost predicate Activated(c: Circuit, always: set<nat>, i: nat, s: Store, n: nat, whole: bool,
                            fs: Flags, copy: Mask, fs2: Flags, copy2: Mask)
    requires i < |c| && n <= |c[i]|
  {
    && (forall k: nat :: FlagSet(c, always, i, s, n, whole, fs, fs2, k))
    && (whole ==> forall p: nat :: CopySet(c, always, i, s, n, copy, copy2, p))
  }

  ghost predicate FlagSet(c: Circuit, always: set<nat>, i: nat, s: Store, n: nat, whole: bool, fs: Flags, fs2: Flags,
                          k: nat)
    requires i < |c| && n <= |c[i]|
  {
    Bit(fs2, k) <==> Bit(fs, k) || (FiresTo(c, i, s, n, k) && k !in always && !(whole && Near(k, i)))
  }

  ghost predicate CopySet(c: Circuit, always: set<nat>, i: nat, s: Store, n: nat, copy: Mask, copy2: Mask, p: nat)
    requires i < |c| && n <= |c[i]|
  {
    p in copy2 <==> p in copy || exists k: nat :: FiresTo(c, i, s, n, k) && k !in always && Near(k, i) && k % 8 == p
  }

  lemma ActivatedNone(c: Circuit, always: set<nat>, i: nat, s: Store, whole: bool, fs: Flags, copy: Mask)
    requires i < |c|
    ensures Activated(c, always, i, s, 0, whole, fs, copy, fs, copy)
  {
    forall k: nat ensures FlagSet(c, always, i, s, 0, whole, fs, fs, k) {
    }
    forall p: nat ensures CopySet(c, always, i, s, 0, copy, copy, p) {
    }
  }

  lemma FiresMore(c: Circuit, i: nat, s: Store, n: nat, k: nat)
    requires i < |c| && n < |c[i]|
    ensures FiresTo(c, i, s, n + 1, k) <==> FiresTo(c, i, s, n, k) || (Activates(c, i, n, k) && Fires(c[i], s, n))
  {
  }

  /** One more member. */
  lemma ActivatedOne(c: Circuit, always: set<nat>, i: nat, s: Store, n: nat, whole: bool, fs: Flags, copy: Mask,
                     fs1: Flags, copy1: Mask, fs2: Flags, copy2: Mask)
    requires i < |c| && n < |c[i]| && Activated(c, always, i, s, n, whole, fs, copy, fs1, copy1)
    requires forall k: nat :: Bit(fs2, k) <==>
               Bit(fs1, k) || (Fires(c[i], s, n) && Activates(c, i, n, k) && k !in always && !(whole && Near(k, i)))
    requires whole ==> forall p: nat :: p in copy2 <==>
               p in copy1 || (Fires(c[i], s, n) && exists k: nat ::
                                Activates(c, i, n, k) && k !in always && Near(k, i) && k % 8 == p)
    ensures Activated(c, always, i, s, n + 1, whole, fs, copy, fs2, copy2)
  {
    var m := n + 1;
    forall k: nat ensures FlagSet(c, always, i, s, m, whole, fs, fs2, k) {
      assert FlagSet(c, always, i, s, n, whole, fs, fs1, k);
      FiresMore(c, i, s, n, k);
    }
    if whole {
      forall p: nat ensures CopySet(c, always, i, s, m, copy, copy2, p) {
        assert CopySet(c, always, i, s, n, copy, copy1, p);
        CopyMore(c, always, i, s, n, p);
      }
    }
  }

  lemma CopyMore(c: Circuit, always: set<nat>, i: nat, s: Store, n: nat, p: nat)
    requires i < |c| && n < |c[i]|
    ensures (exists k: nat :: FiresTo(c, i, s, n + 1, k) && k !in always && Near(k, i) && k % 8 == p) <==>
              (exists k: nat :: FiresTo(c, i, s, n, k) && k !in always && Near(k, i) && k % 8 == p)
              || (Fires(c[i], s, n) && exists k: nat ::
                    Activates(c, i, n, k) && k !in always && Near(k, i) && k % 8 == p)
  {
    forall k: nat
      ensures FiresTo(c, i, s, n + 1, k) <==> FiresTo(c, i, s, n, k) || (Activates(c, i, n, k) && Fires(c[i], s, n))
    {
      FiresMore(c, i, s, n, k);
    }
  }

  // ----- the step

  /** No supernode of the word is always active: its flags are taken over and cleared. */
  ghost predicate WholeWord(c: Circuit, always: set<nat>, w: nat) {
    forall k: nat :: k < |c| && k / 8 == w ==> k !in always
  }

  /** An evaluated supernode activated k. */
  ghost predicate Hit(c: Circuit, always: set<nat>, s0: Store, log: set<nat>, k: nat) {
    k !in always && exists i: nat :: i in log && FiresAt(c, s0, i, k)
  }

  /** An evaluated supernode activated k when it had had its turn. */
  ghost predicate HitAgain(c: Circuit, always: set<nat>, s0: Store, log: set<nat>, k: nat) {
    k !in always && exists i: nat :: i in log && i >= k && FiresAt(c, s0, i, k)
  }

  /** k is always active, was flagged at the start, or was activated earlier in the step. */
  ghost predicate Called(c: Circuit, always: set<nat>, s0: Store, fs0: Flags, log: set<nat>, k: nat) {
    k in always || Bit(fs0, k) || exists i: nat :: i in log && i < k && FiresAt(c, s0, i, k)
  }

  /** Of the first n supernodes exactly those that were called have been evaluated. */
  ghost predicate RanTo(c: Circuit, always: set<nat>, s0: Store, fs0: Flags, log: set<nat>, n: nat) {
    forall k: nat :: RanAt(c, always, s0, fs0, log, n, k)
  }

  ghost predicate RanAt(c: Circuit, always: set<nat>, s0: Store, fs0: Flags, log: set<nat>, n: nat, k: nat) {
    k in log <==> k < n && Called(c, always, s0, fs0, log, k)
  }

  /** With the first n supernodes done, a flag of a word that is taken over is set exactly when
      its supernode was activated after its turn; any other keeps what it was and what was set. */
  ghost predicate FlagsTo(c: Circuit, always: set<nat>, s0: Store, fs0: Flags, log: set<nat>, fs: Flags, n: nat) {
    forall k: nat :: k < |c| ==> FlagAt(c, always, s0, fs0, log, fs, n, k)
  }

  ghost predicate FlagAt(c: Circuit, always: set<nat>, s0: Store, fs0: Flags, log: set<nat>, fs: Flags, n: nat,
                         k: nat) {
    Bit(fs, k) <==>
      if k < n && WholeWord(c, always, k / 8) then HitAgain(c, always, s0, log, k)
      else Bit(fs0, k) || Hit(c, always, s0, log, k)
  }

  /** While word w is scanned from its copy, up to supernode n. */
  ghost predicate InWord(c: Circuit, always: set<nat>, s0: Store, fs0: Flags, log: set<nat>, fs: Flags, copy: Mask,
                         w: nat, n: nat) {
    forall k: nat :: k < |c| ==> InWordAt(c, always, s0, fs0, log, fs, copy, w, n, k)
  }

  ghost predicate InWordAt(c: Circuit, always: set<nat>, s0: Store, fs0: Flags, log: set<nat>, fs: Flags, copy: Mask,
                           w: nat, n: nat, k: nat) {
    if k / 8 != w then FlagAt(c, always, s0, fs0, log, fs, w * 8, k)
    else if k < n then Bit(fs, k) <==> HitAgain(c, always, s0, log, k)
    else !Bit(fs, k) && (k % 8 in copy <==> Bit(fs0, k) || Hit(c, always, s0, log, k))
  }

  lemma HitMore(c: Circuit, always: set<nat>, s0: Store, log: set<nat>, i: nat, k: nat)
    ensures Hit(c, always, s0, log + {i}, k) <==> Hit(c, always, s0, log, k) || (k !in always && FiresAt(c, s0, i, k))
    ensures HitAgain(c, always, s0, log + {i}, k) <==>
              HitAgain(c, always, s0, log, k) || (k !in always && i >= k && FiresAt(c, s0, i, k))
  {
    if k !in always && FiresAt(c, s0, i, k) {
      assert i in log + {i};
    }
  }

  lemma HitEarlier(c: Circuit, always: set<nat>, s0: Store, fs0: Flags, log: set<nat>, n: nat, k: nat)
    requires RanTo(c, always, s0, fs0, log, n) && k >= n
    ensures !HitAgain(c, always, s0, log, k)
    ensures Called(c, always, s0, fs0, log, k) <==> k in always || Bit(fs0, k) || Hit(c, always, s0, log, k)
  {
    forall i: nat | i in log ensures i < k {
      assert RanAt(c, always, s0, fs0, log, n, i);
    }
  }

  /** Supernode n runs, or is passed over. */
  lemma RanMore(c: Circuit, always: set<nat>, s0: Store, fs0: Flags, log: set<nat>, n: nat, runs: bool)
    requires RanTo(c, always, s0, fs0, log, n) && (runs <==> Called(c, always, s0, fs0, log, n))
    ensures RanTo(c, always, s0, fs0, if runs then log + {n} else log, n + 1)
  {
    var log2, m := if runs then log + {n} else log, n + 1;
    forall k: nat ensures RanAt(c, always, s0, fs0, log2, m, k) {
      assert RanAt(c, always, s0, fs0, log, n, k);
      if k <= n {
        assert Called(c, always, s0, fs0, log2, k) <==> Called(c, always, s0, fs0, log, k);
      }
    }
  }

  /** Running supernode n of a copied word. */
  lemma InWordRun(c: Circuit, always: set<nat>, s0: Store, fs0: Flags, log: set<nat>, fs: Flags, copy: Mask,
                  w: nat, n: nat, fs2: Flags, copy2: Mask)
    requires RanTo(c, always, s0, fs0, log, n) && InWord(c, always, s0, fs0, log, fs, copy, w, n) && n < |c|
             && n / 8 == w
    requires Activated(c, always, n, RunRange(c, 0, n, s0), |c[n]|, true, fs, copy, fs2, copy2)
    ensures InWord(c, always, s0, fs0, log + {n}, fs2, copy2, w, n + 1)
  {
    var log2, m := log + {n}, n + 1;
    forall k: nat | k < |c| ensures InWordAt(c, always, s0, fs0, log2, fs2, copy2, w, m, k) {
      assert InWordAt(c, always, s0, fs0, log, fs, copy, w, n, k);
      assert FlagSet(c, always, n, RunRange(c, 0, n, s0), |c[n]|, true, fs, fs2, k);
      HitMore(c, always, s0, log, n, k);
      if k == n {
        HitEarlier(c, always, s0, fs0, log, n, n);
      } else if k / 8 == w && k > n {
        assert CopySet(c, always, n, RunRange(c, 0, n, s0), |c[n]|, copy, copy2, k % 8);
        OneInWord(c, n, RunRange(c, 0, n, s0), always, k);
      }
    }
  }

  lemma OneInWord(c: Circuit, i: nat, s: Store, always: set<nat>, k: nat)
    requires i < |c| && k / 8 == i / 8 && k > i
    ensures (exists x: nat :: FiresTo(c, i, s, |c[i]|, x) && x !in always && Near(x, i) && x % 8 == k % 8)
            <==> FiresTo(c, i, s, |c[i]|, k) && k !in always
  {
    if x: nat :| FiresTo(c, i, s, |c[i]|, x) && x !in always && Near(x, i) && x % 8 == k % 8 {
      assert x == k;
    }
    if FiresTo(c, i, s, |c[i]|, k) && k !in always {
      assert Near(k, i);
    }
  }

  lemma InWordSkip(c: Circuit, always: set<nat>, s0: Store, fs0: Flags, log: set<nat>, fs: Flags, copy: Mask, w: nat,
                   n: nat)
    requires RanTo(c, always, s0, fs0, log, n) && InWord(c, always, s0, fs0, log, fs, copy, w, n) && n < |c|
             && n / 8 == w
    ensures InWord(c, always, s0, fs0, log, fs, copy, w, n + 1)
  {
    var m := n + 1;
    forall k: nat | k < |c| ensures InWordAt(c, always, s0, fs0, log, fs, copy, w, m, k) {
      assert InWordAt(c, always, s0, fs0, log, fs, copy, w, n, k);
      if k == n {
        HitEarlier(c, always, s0, fs0, log, n, n);
      }
    }
  }

  /** The word is copied and cleared. */
  lemma InWordStart(c: Circuit, always: set<nat>, s0: Store, fs0: Flags, log: set<nat>, fs: Flags, w: nat)
    requires w < |fs| && FlagsTo(c, always, s0, fs0, log, fs, w * 8)
    ensures InWord(c, always, s0, fs0, log, fs[w := {}], fs[w], w, w * 8)
  {
    var fs2, copy, n := fs[w := {}], fs[w], w * 8;
    forall k: nat | k < |c| ensures InWordAt(c, always, s0, fs0, log, fs2, copy, w, n, k) {
      assert FlagAt(c, always, s0, fs0, log, fs, w * 8, k);
    }
  }

  lemma InWordEnd(c: Circuit, always: set<nat>, s0: Store, fs0: Flags, log: set<nat>, fs: Flags, copy: Mask, w: nat,
                  end: nat)
    requires InWord(c, always, s0, fs0, log, fs, copy, w, end) && WholeWord(c, always, w)
    requires w * 8 < end <= w * 8 + 8 && (end == w * 8 + 8 || end == |c|)
    ensures FlagsTo(c, always, s0, fs0, log, fs, end)
  {
    forall k: nat | k < |c| ensures FlagAt(c, always, s0, fs0, log, fs, end, k) {
      assert InWordAt(c, always, s0, fs0, log, fs, copy, w, end, k);
    }
  }

  /** An empty word is passed over. */
  lemma EmptyWord(c: Circuit, always: set<nat>, s0: Store, fs0: Flags, log: set<nat>, fs: Flags, w: nat, end: nat)
    requires w < |fs| && fs[w] == {} && FlagsTo(c, always, s0, fs0, log, fs, w * 8) && WholeWord(c, always, w)
    requires RanTo(c, always, s0, fs0, log, w * 8) && w * 8 < end <= w * 8 + 8 && end <= |c|
    requires end == w * 8 + 8 || end == |c|
    ensures RanTo(c, always, s0, fs0, log, end) && FlagsTo(c, always, s0, fs0, log, fs, end)
  {
    forall k: nat | k < |c| ensures FlagAt(c, always, s0, fs0, log, fs, end, k) {
      assert FlagAt(c, always, s0, fs0, log, fs, w * 8, k);
      if k / 8 == w {
        HitEarlier(c, always, s0, fs0, log, w * 8, k);
      }
    }
    forall k: nat ensures RanAt(c, always, s0, fs0, log, end, k) {
      assert RanAt(c, always, s0, fs0, log, w * 8, k);
      if k / 8 == w && k < end {
        assert FlagAt(c, always, s0, fs0, log, fs, w * 8, k);
        HitEarlier(c, always, s0, fs0, log, w * 8, k);
      }
    }
  }

  /** Running supernode n of a word that keeps its flags. */
  lemma KeptRun(c: Circuit, always: set<nat>, s0: Store, fs0: Flags, log: set<nat>, fs: Flags, n: nat, fs2: Flags)
    requires RanTo(c, always, s0, fs0, log, n) && FlagsTo(c, always, s0, fs0, log, fs, n) && n < |c|
    requires !WholeWord(c, always, n / 8)
    requires Activated(c, always, n, RunRange(c, 0, n, s0), |c[n]|, false, fs, {}, fs2, {})
    ensures FlagsTo(c, always, s0, fs0, log + {n}, fs2, n + 1)
  {
    var log2, m := log + {n}, n + 1;
    forall k: nat | k < |c| ensures FlagAt(c, always, s0, fs0, log2, fs2, m, k) {
      assert FlagAt(c, always, s0, fs0, log, fs, n, k);
      assert FlagSet(c, always, n, RunRange(c, 0, n, s0), |c[n]|, false, fs, fs2, k);
      HitMore(c, always, s0, log, n, k);
    }
  }

  lemma KeptSkip(c: Circuit, always: set<nat>, s0: Store, fs0: Flags, log: set<nat>, fs: Flags, n: nat)
    requires FlagsTo(c, always, s0, fs0, log, fs, n) && n < |c| && !WholeWord(c, always, n / 8)
    ensures FlagsTo(c, always, s0, fs0, log, fs, n + 1)
  {
    var m := n + 1;
    forall k: nat | k < |c| ensures FlagAt(c, always, s0, fs0, log, fs, m, k) {
      assert FlagAt(c, always, s0, fs0, log, fs, n, k);
    }
  }

  // ----- what follows

  /** A step in which no node changes, without arrays and always-active supernodes, leaves no
      flag, and a step that finds no flag evaluates nothing. */
  lemma QuietStepRests(c: Circuit, s0: Store, fs0: Flags, log: set<nat>, fs: Flags)
    requires RanTo(c, {}, s0, fs0, log, |c|) && FlagsTo(c, {}, s0, fs0, log, fs, |c|)
    requires forall i: nat, k: nat :: !FiresAt(c, s0, i, k)
    ensures forall k: nat :: k < |c| ==> !Bit(fs, k)
    ensures (forall k: nat :: k < |c| ==> !Bit(fs0, k)) ==> log == {}
  {
    forall k: nat | k < |c| ensures !Bit(fs, k) {
      assert FlagAt(c, {}, s0, fs0, log, fs, |c|, k);
    }
    if forall k: nat :: k < |c| ==> !Bit(fs0, k) {
      forall k: nat ensures k !in log {
        assert RanAt(c, {}, s0, fs0, log, |c|, k);
      }
    }
  }

  /** The evaluated supernodes and the flags are determined by the start. */
  lemma {:induction false} RanIsUnique(c: Circuit, always: set<nat>, s0: Store, fs0: Flags, log: set<nat>,
                                       log2: set<nat>,
                                       n: nat, k: nat)
    requires RanTo(c, always, s0, fs0, log, n) && RanTo(c, always, s0, fs0, log2, n)
    ensures k in log <==> k in log2
    decreases k
  {
    assert RanAt(c, always, s0, fs0, log, n, k) && RanAt(c, always, s0, fs0, log2, n, k);
    forall i: nat | i < k ensures i in log <==> i in log2 {
      RanIsUnique(c, always, s0, fs0, log, log2, n, i);
    }
  }
}
