/** Supernodes as lists of members, what evaluating them all means, and which supernodes a
    changed node has to activate (src/Node.cpp, updateActivate). */
module EventCircuit {

  /** Contents of a node: one element for a scalar, all entries for an array. */
  type Val = seq<int>
  type Store = seq<Val>

  /** A register's current value is copied from its next value. */
  datatype Reg = NotReg | From(dst: nat)

  /** target := f(store). `uses` are the nodes its expressions read. */
  datatype Member = Member(target: nat, uses: set<nat>, reg: Reg, isArray: bool, f: Store -> Val)

  type Circuit = seq<seq<Member>>

  // ----- evaluating everything

  function RunMember(m: Member, s: Store): (r: Store)
    ensures |r| == |s|
  {
    if m.target < |s| then s[m.target := m.f(s)] else s
  }

  function RunMembers(ms: seq<Member>, s: Store): (r: Store)
    ensures |r| == |s|
    decreases |ms|
  {
    if ms == [] then s else RunMember(ms[|ms| - 1], RunMembers(ms[..|ms| - 1], s))
  }

  /** One cycle that evaluates every supernode in order. */
  function FullCycle(c: Circuit, s: Store): (r: Store)
    ensures |r| == |s|
    decreases |c|
  {
    if c == [] then s else RunMembers(c[|c| - 1], FullCycle(c[..|c| - 1], s))
  }

  // ----- well-formed circuits

  function Reads(m: Member): set<nat> {
    m.uses + match m.reg case NotReg => {} case From(d) => {d}
  }

  ghost predicate LocalAt(m: Member, s: Store, t: Store) {
    |s| == |t| && (forall x :: x in Reads(m) && x < |s| ==> s[x] == t[x]) ==> m.f(s) == m.f(t)
  }

  ghost predicate MemberOk(m: Member, vars: nat) {
    m.target < vars && forall s, t :: LocalAt(m, s, t)
  }

  /** Every node is written by one member, which depends only on what it reads. */
  ghost predicate CircuitOk(c: Circuit, vars: nat) {
    && (forall i, j :: 0 <= i < |c| && 0 <= j < |c[i]| ==> MemberOk(c[i][j], vars))
    && (forall i, j, k, l ::
          0 <= i < |c| && 0 <= j < |c[i]| && 0 <= k < |c| && 0 <= l < |c[k]| && c[i][j].target == c[k][l].target
          ==> i == k && j == l)
  }

  // ----- activation

  ghost predicate UsedIn(ms: seq<Member>, n: nat, x: nat) {
    exists j :: 0 <= j < |ms| && j < n && x in ms[j].uses
  }

  ghost predicate CopiedIn(ms: seq<Member>, x: nat) {
    exists j :: 0 <= j < |ms| && ms[j].reg == From(x)
  }

  /** A change of member j of supernode i activates the other supernodes that use its node,
      its own one when the use does not come after it, and the one that copies it into a
      register. */
  ghost predicate Activates(c: Circuit, i: nat, j: nat, k: nat)
    requires i < |c| && j < |c[i]|
  {
    k < |c| && (UsedIn(c[k], if k == i then j + 1 else |c[k]|, c[i][j].target) || CopiedIn(c[k], c[i][j].target))
  }

  /** updateActivate for one node. */
  method UpdateActivate(c: Circuit, i: nat, j: nat) returns (ids: seq<nat>)
    requires i < |c| && j < |c[i]|
    ensures forall k :: k in ids <==> Activates(c, i, j, k)
  {
    ids := [];
    var t := c[i][j].target;
    var k := 0;
    while k < |c|
      invariant 0 <= k <= |c|
      invariant forall x: nat :: x in ids <==> x < k && Activates(c, i, j, x)
    {
      var used := Scan(c[k], if k == i then j + 1 else |c[k]|, t);
      if used {
        ids := ids + [k];
      }
      k := k + 1;
    }
  }

  method Scan(ms: seq<Member>, n: nat, t: nat) returns (used: bool)
    ensures used <==> UsedIn(ms, n, t) || CopiedIn(ms, t)
  {
    used := false;
    var j := 0;
    while j < |ms| && !used
      invariant 0 <= j <= |ms|
      invariant !used ==> forall l :: 0 <= l < j ==> !(l < n && t in ms[l].uses) && ms[l].reg != From(t)
      invariant used ==> UsedIn(ms, n, t) || CopiedIn(ms, t)
    {
      if (j < n && t in ms[j].uses) || ms[j].reg == From(t) {
        used := true;
      }
      j := j + 1;
    }
  }

  // ----- settled supernodes

  ghost predicate SettledMember(m: Member, s: Store) {
    m.target < |s| && m.f(s) == s[m.target]
  }

  /** Evaluating the supernode again would change nothing. */
  ghost predicate Settled(ms: seq<Member>, s: Store) {
    forall j :: 0 <= j < |ms| ==> SettledMember(ms[j], s)
  }

  lemma {:induction false} SettledIsNoop(ms: seq<Member>, s: Store)
    requires Settled(ms, s)
    ensures RunMembers(ms, s) == s
    decreases |ms|
  {
    if ms != [] {
      SettledIsNoop(ms[..|ms| - 1], s);
      assert SettledMember(ms[|ms| - 1], s);
    }
  }

  /** Conversely, a supernode whose evaluation changes nothing is settled. */
  lemma {:induction false} NoopIsSettled(c: Circuit, vars: nat, i: nat, n: nat, s: Store)
    requires CircuitOk(c, vars) && |s| == vars && i < |c| && n <= |c[i]| && RunMembers(c[i][..n], s) == s
    ensures forall j :: 0 <= j < n ==> SettledMember(c[i][j], s)
    decreases n
  {
    if n > 0 {
      var ms := c[i][..n];
      assert ms[..n - 1] == c[i][..n - 1] && ms[n - 1] == c[i][n - 1];
      assert MemberOk(c[i][n - 1], vars);
      var mid := RunMembers(c[i][..n - 1], s);
      RunElsewhere(c, vars, i, n - 1, s, n - 1);
      assert mid[c[i][n - 1].target] == s[c[i][n - 1].target];
      assert mid == s by {
        forall x: nat | x < vars ensures mid[x] == s[x] {
          assert x != c[i][n - 1].target ==> RunMember(ms[n - 1], mid)[x] == mid[x];
        }
      }
      NoopIsSettled(c, vars, i, n - 1, s);
    }
  }

  lemma {:induction false} RunElsewhere(c: Circuit, vars: nat, i: nat, n: nat, s: Store, j: nat)
    requires CircuitOk(c, vars) && |s| == vars && i < |c| && n <= j < |c[i]| && MemberOk(c[i][j], vars)
    ensures RunMembers(c[i][..n], s)[c[i][j].target] == s[c[i][j].target]
    decreases n
  {
    if n > 0 {
      var ms := c[i][..n];
      assert ms[..n - 1] == c[i][..n - 1] && ms[n - 1] == c[i][n - 1];
      RunElsewhere(c, vars, i, n - 1, s, j);
      assert c[i][n - 1].target != c[i][j].target;
    }
  }

  /** A settled member stays settled when a node changes that does not activate it. */
  lemma OtherStaysSettled(c: Circuit, vars: nat, i: nat, j: nat, s: Store, k: nat, l: nat)
    requires CircuitOk(c, vars) && |s| == vars && i < |c| && j < |c[i]| && k < |c| && l < |c[k]| && (k, l) != (i, j)
    requires SettledMember(c[k][l], s) && (k == i ==> l <= j)
    requires RunMember(c[i][j], s) == s || !Activates(c, i, j, k)
    ensures SettledMember(c[k][l], RunMember(c[i][j], s))
  {
    var m, o := c[i][j], c[k][l];
    assert MemberOk(m, vars) && MemberOk(o, vars);
    var r := RunMember(m, s);
    if r != s {
      assert m.target !in o.uses && o.reg != From(m.target);
      assert m.target != o.target;
      assert LocalAt(o, s, r);
    }
  }

  /** The member that ran is settled unless it activated its own supernode. */
  lemma OwnIsSettled(c: Circuit, vars: nat, i: nat, j: nat, s: Store)
    requires CircuitOk(c, vars) && |s| == vars && i < |c| && j < |c[i]|
    requires RunMember(c[i][j], s) == s || !Activates(c, i, j, i)
    ensures SettledMember(c[i][j], RunMember(c[i][j], s))
  {
    var m := c[i][j];
    assert MemberOk(m, vars);
    var r := RunMember(m, s);
    if r != s {
      assert m.target !in m.uses && m.reg != From(m.target);
      assert LocalAt(m, s, r);
    }
  }
}
