/** Hash keys of expressions: nodes with equal trees get equal keys (src/commonExpr.cpp,
    keyHash and the first loop of graph::commonExpr). */
module CommonKeys {
  import opened CommonExpr
  import opened CommonMatch

  const Word64: nat := 0x1_0000_0000_0000_0000

  /** What hashing knows: a number made of kind and width for every tag, the keys so far, and
      the ids of the nodes. */
  datatype Keying = Keying(h: nat -> nat, keys: seq<nat>, ids: seq<nat>) {
    /** A node counts with its key, or with its id while it has none. */
    function Count(n: nat): nat
      requires n < |keys| && n < |ids|
    {
      if keys[n] != 0 then keys[n] else ids[n]
    }
  }

  /** What one expression node adds. */
  function HeadHash(k: Keying, e: Expr): nat {
    match e
    case Null => 0
    case Op(t, _) => k.h(t)
    case Use(t, n, _) => if n < |k.keys| && n < |k.ids| then k.Count(n) else k.h(t)
  }

  function Mix(acc: nat, head: nat): nat {
    (acc * 123 + head) % Word64
  }

  /** The hash of a tree continues `acc`; the last argument comes first. */
  function HashTree(k: Keying, e: Expr, acc: nat): nat
    decreases e
  {
    match e
    case Null => acc
    case Op(_, args) => HashArgs(k, args, Mix(acc, HeadHash(k, e)))
    case Use(_, _, args) => HashArgs(k, args, Mix(acc, HeadHash(k, e)))
  }

  function HashArgs(k: Keying, es: seq<Expr>, acc: nat): nat
    decreases es
  {
    if es == [] then acc
    else HashArgs(k, es[..|es| - 1], HashTree(k, es[|es| - 1], acc))
  }

  function HashSum(k: Keying, trees: seq<Expr>): nat
    decreases |trees|
  {
    if trees == [] then 0
    else (HashSum(k, trees[..|trees| - 1]) + HashTree(k, trees[|trees| - 1], 0)) % Word64
  }

  // ----- the loops

  lemma {:induction false} HashConcat(k: Keying, a: seq<Expr>, b: seq<Expr>, acc: nat)
    ensures HashArgs(k, a + b, acc) == HashArgs(k, a, HashArgs(k, b, acc))
    decreases |b|
  {
    if b == [] {
      assert a + b == a;
    } else {
      var n := |b| - 1;
      assert (a + b)[..|a + b| - 1] == a + b[..n] && (a + b)[|a + b| - 1] == b[n];
      HashConcat(k, a, b[..n], HashTree(k, b[n], acc));
    }
  }

  lemma {:induction false} SizeConcat(a: seq<Expr>, b: seq<Expr>)
    ensures SizeAll(a + b) == SizeAll(a) + SizeAll(b)
    decreases |b|
  {
    if b == [] {
      assert a + b == a;
    } else {
      var n := |b| - 1;
      assert (a + b)[..|a + b| - 1] == a + b[..n] && (a + b)[|a + b| - 1] == b[n];
      SizeConcat(a, b[..n]);
    }
  }

  lemma HashPush(k: Keying, s: seq<Expr>, e: Expr, acc: nat)
    ensures HashArgs(k, s + [e], acc) == HashArgs(k, s, HashTree(k, e, acc))
    ensures SizeAll(s + [e]) == SizeAll(s) + Size(e)
  {
    assert (s + [e])[..|s + [e]| - 1] == s;
  }

  /** The arguments that are present. */
  method Present(args: seq<Expr>, ghost k: Keying) returns (r: seq<Expr>)
    ensures forall acc: nat :: HashArgs(k, r, acc) == HashArgs(k, args, acc)
    ensures SizeAll(r) <= SizeAll(args) && forall i :: 0 <= i < |r| ==> !r[i].Null?
  {
    r := [];
    for i := 0 to |args|
      invariant forall acc: nat :: HashArgs(k, r, acc) == HashArgs(k, args[..i], acc)
      invariant SizeAll(r) <= SizeAll(args[..i]) && forall j :: 0 <= j < |r| ==> !r[j].Null?
    {
      assert args[..i + 1] == args[..i] + [args[i]];
      forall acc: nat
        ensures HashArgs(k, args[..i + 1], acc) == HashArgs(k, r, HashTree(k, args[i], acc))
      {
        HashPush(k, args[..i], args[i], acc);
      }
      HashPush(k, args[..i], args[i], 0);
      forall acc: nat
        ensures HashArgs(k, r + [args[i]], acc) == HashArgs(k, r, HashTree(k, args[i], acc))
      {
        HashPush(k, r, args[i], acc);
      }
      HashPush(k, r, args[i], 0);
      if !args[i].Null? {
        r := r + [args[i]];
      }
    }
    assert args[..|args|] == args;
  }

  /** ExpTree::keyHash: a stack of expression nodes, the root first. */
  method KeyHashTree(k: Keying, root: Expr) returns (ret: nat)
    requires !root.Null?
    ensures ret == HashTree(k, root, 0)
  {
    var s := [root];
    ret := 0;
    HashPush(k, [], root, 0);
    assert [] + [root] == [root];
    while s != []
      invariant HashArgs(k, s, ret) == HashTree(k, root, 0)
      invariant forall i :: 0 <= i < |s| ==> !s[i].Null?
      decreases SizeAll(s)
    {
      var top, rest := s[|s| - 1], s[..|s| - 1];
      var more := Present(Args(top), k);
      assert s == rest + [top];
      HashPush(k, rest, top, ret);
      HashConcat(k, rest, more, Mix(ret, HeadHash(k, top)));
      SizeConcat(rest, more);
      ret := Mix(ret, HeadHash(k, top));
      s := rest + more;
    }
  }

  /** Node::keyHash. */
  method KeyHashNode(k: Keying, trees: seq<Expr>) returns (ret: nat)
    requires forall i :: 0 <= i < |trees| ==> !trees[i].Null?
    ensures ret == HashSum(k, trees)
  {
    ret := 0;
    for i := 0 to |trees|
      invariant ret == HashSum(k, trees[..i])
    {
      assert trees[..i + 1][..i] == trees[..i];
      var one := KeyHashTree(k, trees[i]);
      ret := (ret + one) % Word64;
    }
    assert trees[..|trees|] == trees;
  }

  function Keys(g: Graph): (r: seq<nat>)
    ensures |r| == |g|
  {
    seq(|g|, n requires 0 <= n < |g| => g[n].key)
  }

  /** Mergeable nodes have the hash of their trees, in which nodes count with their keys. */
  ghost predicate HashedAt(h: nat -> nat, ids: seq<nat>, g: Graph, n: nat) {
    n < |g| && g[n].Mergeable() ==> g[n].key == HashSum(Keying(h, Keys(g), ids), g[n].trees)
  }

  ghost predicate Hashed(h: nat -> nat, ids: seq<nat>, g: Graph) {
    forall n: nat :: n < |g| ==> HashedAt(h, ids, g, n)
  }

  /** Keys that a tree does not use do not matter. */
  ghost predicate KeysAgree(g: Graph, k1: Keying, k2: Keying, n: nat) {
    && k1.h == k2.h && k1.ids == k2.ids && |k1.keys| == |k2.keys| == |g|
    && forall m: nat :: m < |g| && (m < n || !g[m].Computed()) ==> k1.keys[m] == k2.keys[m]
  }

  lemma {:induction false} HashTreeStays(g: Graph, k1: Keying, k2: Keying, n: nat, e: Expr, acc: nat)
    requires RefsBelow(g, e, n) && KeysAgree(g, k1, k2, n)
    ensures HashTree(k1, e, acc) == HashTree(k2, e, acc)
    decreases e
  {
    match e {
      case Null =>
      case Op(_, args) => HashArgsStay(g, k1, k2, n, args, Mix(acc, HeadHash(k1, e)));
      case Use(_, _, args) => HashArgsStay(g, k1, k2, n, args, Mix(acc, HeadHash(k1, e)));
    }
  }

  lemma {:induction false} HashArgsStay(g: Graph, k1: Keying, k2: Keying, n: nat, es: seq<Expr>, acc: nat)
    requires AllRefsBelow(g, es, n) && KeysAgree(g, k1, k2, n)
    ensures HashArgs(k1, es, acc) == HashArgs(k2, es, acc)
    decreases es
  {
    if es != [] {
      var i := |es| - 1;
      HashTreeStays(g, k1, k2, n, es[i], acc);
      HashArgsStay(g, k1, k2, n, es[..i], HashTree(k1, es[i], acc));
    }
  }

  lemma {:induction false} HashSumStays(g: Graph, k1: Keying, k2: Keying, n: nat, es: seq<Expr>)
    requires AllRefsBelow(g, es, n) && KeysAgree(g, k1, k2, n)
    ensures HashSum(k1, es) == HashSum(k2, es)
    decreases |es|
  {
    if es != [] {
      var i := |es| - 1;
      HashTreeStays(g, k1, k2, n, es[i], 0);
      HashSumStays(g, k1, k2, n, es[..i]);
    }
  }

  /** The graph with these keys. */
  function WithKeys(g: Graph, keys: seq<nat>): (r: Graph)
    requires |keys| == |g|
    ensures |r| == |g|
  {
    seq(|g|, n requires 0 <= n < |g| => g[n].(key := keys[n]))
  }

  ghost predicate KeyDone(g: Graph, k: Keying, n: nat) {
    n < |g| && n < |k.keys| && g[n].Mergeable() ==> k.keys[n] == HashSum(k, g[n].trees)
  }

  function Put(k: Keying, n: nat, key: nat): Keying
    requires n < |k.keys|
  {
    k.(keys := k.keys[n := key])
  }

  lemma KeyDoneStays(g: Graph, k: Keying, n: nat, key: nat, m: nat)
    requires Topological(g) && |k.keys| == |g| && n < |g| && g[n].Mergeable() && m < n && KeyDone(g, k, m)
    ensures KeyDone(g, Put(k, n, key), m)
  {
    if g[m].Mergeable() {
      HashSumStays(g, k, Put(k, n, key), m, g[m].trees);
    }
  }

  lemma KeyDoneNow(g: Graph, k: Keying, n: nat)
    requires Topological(g) && |k.keys| == |g| && n < |g| && g[n].Mergeable()
    ensures KeyDone(g, Put(k, n, HashSum(k, g[n].trees)), n)
  {
    HashSumStays(g, k, Put(k, n, HashSum(k, g[n].trees)), n, g[n].trees);
  }

  /** Every node starts with its id as key; in processing order mergeable ones get their hash. */
  method AssignKeys(h: nat -> nat, g: Graph, ids: seq<nat>) returns (r: Graph)
    requires Topological(g) && |ids| == |g|
    requires forall n: nat, i: nat :: n < |g| && i < |g[n].trees| ==> !g[n].trees[i].Null?
    ensures |r| == |g| && Hashed(h, ids, r) && forall n: nat :: n < |g| ==> r[n] == g[n].(key := r[n].key)
    ensures forall n: nat :: n < |g| && !g[n].Mergeable() ==> r[n].key == ids[n]
  {
    var k := Keying(h, ids, ids);
    for n := 0 to |g|
      invariant |k.keys| == |g| && k.h == h && k.ids == ids && forall m: nat :: m < n ==> KeyDone(g, k, m)
      invariant forall m: nat :: m < |g| && (m >= n || !g[m].Mergeable()) ==> k.keys[m] == ids[m]
    {
      if g[n].Mergeable() {
        var key := KeyHashNode(k, g[n].trees);
        var more := Put(k, n, key);
        forall m: nat | m < n + 1 ensures KeyDone(g, more, m) {
          if m < n {
            KeyDoneStays(g, k, n, key, m);
          } else {
            KeyDoneNow(g, k, n);
          }
        }
        k := more;
      }
    }
    r := WithKeys(g, k.keys);
    assert Keys(r) == k.keys;
    forall n: nat | n < |r| ensures HashedAt(h, ids, r, n) {
      assert KeyDone(g, k, n);
    }
  }

  // ----- equal trees have equal keys

  ghost predicate ClassKeys(g: Graph, reps: seq<nat>) {
    forall m: nat, n: nat :: m < |reps| <= |g| && n < |reps| && reps[m] == reps[n] ==> g[m].key == g[n].key
  }

  /** No key is zero: ids start at one, and no hash comes out as zero modulo 2^64. */
  ghost predicate NoZeroKey(g: Graph) {
    forall n: nat :: n < |g| ==> g[n].key != 0
  }

  /** Then a node counts with its key wherever it is read. */
  ghost predicate CountsByClass(g: Graph, reps: seq<nat>, k: Keying) {
    |reps| <= |g| && k.keys == Keys(g) && ClassKeys(g, reps) && NoZeroKey(g)
  }

  lemma {:induction false} EqualTreesHash(k: Keying, g: Graph, reps: seq<nat>, a: Expr, b: Expr, acc: nat)
    requires CountsByClass(g, reps, k) && |k.ids| == |g| && TreeEq(a, b, reps)
    ensures HashTree(k, a, acc) == HashTree(k, b, acc)
    decreases a
  {
    assert HeadHash(k, a) == HeadHash(k, b);
    match a {
      case Null =>
      case Op(_, args) => EqualArgsHash(k, g, reps, args, Args(b), Mix(acc, HeadHash(k, a)));
      case Use(_, _, args) => EqualArgsHash(k, g, reps, args, Args(b), Mix(acc, HeadHash(k, a)));
    }
  }

  lemma {:induction false} EqualArgsHash(k: Keying, g: Graph, reps: seq<nat>, a: seq<Expr>, b: seq<Expr>, acc: nat)
    requires CountsByClass(g, reps, k) && |k.ids| == |g| && ArgsEq(a, b, reps)
    ensures HashArgs(k, a, acc) == HashArgs(k, b, acc)
    decreases a
  {
    if a != [] {
      var n := |a| - 1;
      EqualTreesHash(k, g, reps, a[n], b[n], acc);
      EqualArgsHash(k, g, reps, a[..n], b[..n], HashTree(k, a[n], acc));
    }
  }

  lemma {:induction false} EqualSums(k: Keying, g: Graph, reps: seq<nat>, a: seq<Expr>, b: seq<Expr>)
    requires CountsByClass(g, reps, k) && |k.ids| == |g| && ArgsEq(a, b, reps)
    ensures HashSum(k, a) == HashSum(k, b)
    decreases |a|
  {
    if a != [] {
      var n := |a| - 1;
      EqualTreesHash(k, g, reps, a[n], b[n], 0);
      EqualSums(k, g, reps, a[..n], b[..n]);
    }
  }

  /** Nodes of one representative have one key. */
  lemma RepsShareKeys(g: Graph, n: nat)
    requires n <= |g|
    ensures ClassKeys(g, Reps(g, n))
  {
    forall m: nat | m < n ensures g[m].key == g[Reps(g, n)[m]].key {
      RepsAt(g, m, n);
      ChosenMatches(g, m);
    }
  }

  ghost predicate EqualMergeable(g: Graph, m: nat, n: nat) {
    m < |g| && n < |g| && g[m].Mergeable() && g[n].Mergeable() && NodeEq(g, m, n, Reps(g, |g|))
  }

  /** Mergeable nodes whose trees compare equal have equal keys, so that one slot of the map
      holds them. */
  ghost predicate KeysFollow(g: Graph) {
    forall m: nat, n: nat :: EqualMergeable(g, m, n) ==> g[m].key == g[n].key
  }

  lemma HashedKeysFollow(h: nat -> nat, ids: seq<nat>, g: Graph)
    requires Hashed(h, ids, g) && |ids| == |g| && NoZeroKey(g)
    ensures KeysFollow(g)
  {
    RepsShareKeys(g, |g|);
    forall m: nat, n: nat | EqualMergeable(g, m, n) ensures g[m].key == g[n].key {
      assert HashedAt(h, ids, g, m) && HashedAt(h, ids, g, n);
      EqualSums(Keying(h, Keys(g), ids), g, Reps(g, |g|), g[m].trees, g[n].trees);
    }
  }
}
