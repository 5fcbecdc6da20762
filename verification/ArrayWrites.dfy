/** Writes to array nodes: flat row-major indices, splitting of sub-array writes, and the
    list of pending writes (src/ENode.cpp, ENode::getIdx; src/Node.cpp, splitTree and
    Node::addArrayVal). */
module ArrayWrites {
  import opened BitMath

  type Dims = seq<nat>

  ghost predicate DimsOk(dims: Dims) {
    forall i :: 0 <= i < |dims| ==> dims[i] > 0
  }

  // ----- flat indices

  /** Number of elements below one choice of the first k indices, counting dimensions k to
      n - 1. */
  function Num(dims: Dims, k: nat, n: nat): (r: nat)
    requires k <= n <= |dims|
    decreases n
  {
    if k == n then 1 else Num(dims, k, n - 1) * dims[n - 1]
  }

  function Base(dims: Dims, idx: seq<nat>): nat
    requires |idx| <= |dims|
    decreases |idx|
  {
    if idx == [] then 0 else Base(dims, idx[..|idx| - 1]) * dims[|idx| - 1] + idx[|idx| - 1]
  }

  /** The indices of flat position i in dimensions k to n - 1. */
  function Decode(dims: Dims, i: nat, k: nat, n: nat): (r: seq<nat>)
    requires k <= n <= |dims| && DimsOk(dims)
    ensures |r| == n - k
    decreases n
  {
    if k == n then [] else Decode(dims, i / dims[n - 1], k, n - 1) + [i % dims[n - 1]]
  }

  lemma {:induction false} NumPositive(dims: Dims, k: nat, n: nat)
    requires k <= n <= |dims| && DimsOk(dims)
    ensures Num(dims, k, n) > 0
    decreases n
  {
    if k < n {
      NumPositive(dims, k, n - 1);
    }
  }

  /** Encoding undoes decoding, for every position below the leading indices. */
  lemma {:induction false} EncodeDecode(dims: Dims, lead: seq<nat>, i: nat, n: nat)
    requires |lead| <= n <= |dims| && DimsOk(dims) && Num(dims, |lead|, n) > 0
             && i / Num(dims, |lead|, n) == Base(dims, lead)
    ensures Base(dims, lead + Decode(dims, i, |lead|, n)) == i
    decreases n
  {
    var k := |lead|;
    if k == n {
      assert lead + Decode(dims, i, k, n) == lead;
    } else {
      var d := dims[n - 1];
      NumPositive(dims, k, n - 1);
      DivTwice(i, Num(dims, k, n - 1), d);
      EncodeDecode(dims, lead, i / d, n - 1);
      LastDigit(dims, lead, i, n);
    }
  }

  lemma LastDigit(dims: Dims, lead: seq<nat>, i: nat, n: nat)
    requires |lead| < n <= |dims| && DimsOk(dims)
    requires Base(dims, lead + Decode(dims, i / dims[n - 1], |lead|, n - 1)) == i / dims[n - 1]
    ensures Base(dims, lead + Decode(dims, i, |lead|, n)) == i
  {
    var d, k := dims[n - 1], |lead|;
    var full := lead + Decode(dims, i, k, n);
    assert full[..n - 1] == lead + Decode(dims, i / d, k, n - 1) && full[n - 1] == i % d && |full| == n;
    assert i == (i / d) * d + i % d;
  }

  /** Leading indices determine which positions lie below them. */
  lemma InRange(i: nat, base: nat, num: nat)
    requires num > 0
    ensures base * num <= i <= (base + 1) * num - 1 <==> i / num == base
  {
    assert (base + 1) * num == base * num + num;
    if base * num <= i <= (base + 1) * num - 1 {
      DivUnique(i, num, base, i - base * num);
    }
    assert i == (i / num) * num + i % num;
  }

  // ----- trees

  /** An index is a literal or computed. */
  datatype Digit = Lit(n: nat) | Var(id: nat)

  /** A write: the indices on the left, whether the right side is a `when`, and the right
      side with the indices appended to it. */
  datatype Write = Write(lval: seq<Digit>, isWhen: bool, rhs: nat, at: seq<nat>)

  /** One evaluation: computed indices, conditions, and elements of right sides. Right sides
      do not read the array. */
  datatype Env = Env(index: nat -> nat, taken: nat -> bool, value: (nat, seq<nat>) -> int)

  function Digits(lval: seq<Digit>, env: Env): (r: seq<nat>)
    ensures |r| == |lval|
  {
    seq(|lval|, i requires 0 <= i < |lval| => DigitOf(lval[i], env))
  }

  function DigitOf(d: Digit, env: Env): nat {
    match d
    case Lit(n) => n
    case Var(v) => env.index(v)
  }

  ghost predicate Constant(lval: seq<Digit>) {
    forall i :: 0 <= i < |lval| ==> lval[i].Lit?
  }

  function Literals(lval: seq<Digit>): (r: seq<nat>)
    requires Constant(lval)
    ensures |r| == |lval|
  {
    seq(|lval|, i requires 0 <= i < |lval| => lval[i].n)
  }

  /** The write reaches position p: p lies below its indices, and its branch is taken. */
  predicate Hits(dims: Dims, t: Write, env: Env, p: nat)
    requires DimsOk(dims) && |t.lval| <= |dims|
  {
    NumPositive(dims, |t.lval|, |dims|);
    p / Num(dims, |t.lval|, |dims|) == Base(dims, Digits(t.lval, env)) && (t.isWhen ==> env.taken(t.rhs))
  }

  function Value(dims: Dims, t: Write, env: Env, p: nat): int
    requires DimsOk(dims) && |t.lval| <= |dims|
  {
    env.value(t.rhs, t.at + Decode(dims, p, |t.lval|, |dims|))
  }

  ghost predicate ListOk(dims: Dims, ts: seq<Write>) {
    forall i :: 0 <= i < |ts| ==> |ts[i].lval| <= |dims|
  }

  /** What position p holds after the writes. */
  function After(dims: Dims, ts: seq<Write>, env: Env, p: nat, cur: int): int
    requires DimsOk(dims) && ListOk(dims, ts)
    decreases |ts|
  {
    if ts == [] then cur
    else
      var t := ts[|ts| - 1];
      if Hits(dims, t, env, p) then Value(dims, t, env, p) else After(dims, ts[..|ts| - 1], env, p, cur)
  }

  lemma {:induction false} AfterConcat(dims: Dims, a: seq<Write>, b: seq<Write>, env: Env, p: nat, cur: int)
    requires DimsOk(dims) && ListOk(dims, a) && ListOk(dims, b)
    ensures ListOk(dims, a + b)
            && After(dims, a + b, env, p, cur) == After(dims, b, env, p, After(dims, a, env, p, cur))
    decreases |b|
  {
    if b == [] {
      assert a + b == a;
    } else {
      var front := b[..|b| - 1];
      assert (a + b)[..|a + b| - 1] == a + front;
      AfterConcat(dims, a, front, env, p, cur);
    }
  }

  // ----- getIdx

  datatype Range = Range(first: int, last: int)

  method GetIdx(dims: Dims, lval: seq<Digit>) returns (r: Range)
    requires DimsOk(dims) && |lval| <= |dims|
    ensures !Constant(lval) ==> r == Range(-1, -1)
    ensures Constant(lval) ==> var num := Num(dims, |lval|, |dims|); var base := Base(dims, Literals(lval));
                               num > 0 && r == Range(base * num, (base + 1) * num - 1)
  {
    var index: seq<nat> := [];
    for i := 0 to |lval|
      invariant |index| == i && forall j :: 0 <= j < i ==> lval[j].Lit? && index[j] == lval[j].n
    {
      if !lval[i].Lit? {
        return Range(-1, -1);
      }
      index := index + [lval[i].n];
    }
    assert index == Literals(lval);
    var num := CountBelow(dims, |index|);
    var base := 0;
    for i := 0 to |index|
      invariant base == Base(dims, index[..i])
    {
      assert index[..i + 1][..i] == index[..i];
      base := base * dims[i] + index[i];
    }
    assert index[..|index|] == index;
    NumPositive(dims, |lval|, |dims|);
    r := Range(base * num, (base + 1) * num - 1);
  }

  method CountBelow(dims: Dims, k: nat) returns (num: nat)
    requires k <= |dims|
    ensures num == Num(dims, k, |dims|)
  {
    num := 1;
    var i := |dims|;
    while i > k
      invariant k <= i <= |dims|
      invariant Num(dims, k, i) * num == Num(dims, k, |dims|)
    {
      i := i - 1;
      assert Num(dims, k, i + 1) * num == Num(dims, k, i) * (dims[i] * num);
      num := num * dims[i];
    }
  }

  // ----- splitTree

  function Lits(idx: seq<nat>): (r: seq<Digit>)
    ensures |r| == |idx| && Constant(r) && Literals(r) == idx
  {
    seq(|idx|, i requires 0 <= i < |idx| => Lit(idx[i]))
  }

  /** dupTreeWithIdx: the indices are appended on both sides. */
  function WithIdx(t: Write, idx: seq<nat>): Write {
    t.(lval := t.lval + Lits(idx), at := t.at + idx)
  }

  method DecodeLoop(dims: Dims, i: nat, k: nat) returns (digits: seq<nat>)
    requires k <= |dims| && DimsOk(dims)
    ensures digits == Decode(dims, i, k, |dims|)
  {
    digits := [];
    var dim := i;
    var j := |dims|;
    while j > k
      invariant k <= j <= |dims|
      invariant Decode(dims, i, k, |dims|) == Decode(dims, dim, k, j) + digits
    {
      j := j - 1;
      digits := [dim % dims[j]] + digits;
      dim := dim / dims[j];
    }
  }

  /** The single-element writes of the positions from first up to end. */
  ghost predicate SplitTo(dims: Dims, t: Write, first: nat, end: nat, ts: seq<Write>)
    requires DimsOk(dims) && |t.lval| <= |dims| && first <= end
  {
    |ts| == end - first && forall j :: 0 <= j < |ts| ==> ts[j] == WithIdx(t, Decode(dims, first + j, |t.lval|, |dims|))
  }

  /** The positions below the indices of t are those from first up to end. */
  ghost predicate WholeRange(dims: Dims, t: Write, first: nat, end: nat)
    requires DimsOk(dims) && |t.lval| <= |dims|
  {
    && Constant(t.lval) && first <= end
    && var num := Num(dims, |t.lval|, |dims|); var base := Base(dims, Literals(t.lval));
       num > 0 && first == base * num && end == (base + 1) * num
  }

  /** A constant sub-array with several elements. */
  ghost predicate Several(dims: Dims, t: Write)
    requires DimsOk(dims) && |t.lval| <= |dims|
  {
    |t.lval| < |dims| && Constant(t.lval) && Num(dims, |t.lval|, |dims|) > 1
  }

  /** One write for each element of a constant sub-array, in order; any other write stays whole. */
  ghost predicate SplitOf(dims: Dims, t: Write, ts: seq<Write>)
    requires DimsOk(dims) && |t.lval| <= |dims|
  {
    if Several(dims, t) then
      && |ts| == Num(dims, |t.lval|, |dims|)
      && forall j :: 0 <= j < |ts| ==> Single(dims, ts[j], Base(dims, Literals(t.lval)) * |ts| + j)
    else ts == [t]
  }

  /** An unconditional write to position p and nothing else. */
  ghost predicate Single(dims: Dims, t: Write, p: nat)
    requires DimsOk(dims)
  {
    && |t.lval| == |dims| && !t.isWhen && IndexIs(dims, t.lval, Range(p, p))
    && forall env, q: nat :: Hits(dims, t, env, q) <==> q == p
  }

  lemma SplitSingle(dims: Dims, t: Write, first: nat, end: nat, ts: seq<Write>, j: nat)
    requires DimsOk(dims) && |t.lval| <= |dims| && !t.isWhen && WholeRange(dims, t, first, end)
    requires SplitTo(dims, t, first, end, ts) && j < |ts|
    ensures Single(dims, ts[j], first + j)
  {
    var num, base := Num(dims, |t.lval|, |dims|), Base(dims, Literals(t.lval));
    var digits := Decode(dims, first + j, |t.lval|, |dims|);
    var e := ts[j];
    InRange(first + j, base, num);
    ElementWrite(dims, t, first + j, Env(n => 0, n => true, (n, s) => 0), 0);
    EncodeDecode(dims, Literals(t.lval), first + j, |dims|);
    assert Literals(e.lval) == Literals(t.lval) + digits;
    forall env, q: nat ensures Hits(dims, e, env, q) <==> q == first + j {
      ElementWrite(dims, t, first + j, env, q);
    }
  }

  method SplitTree(dims: Dims, t: Write) returns (ts: seq<Write>)
    requires DimsOk(dims) && |t.lval| <= |dims| && !t.isWhen
    ensures ListOk(dims, ts) && forall i :: 0 <= i < |ts| ==> !ts[i].isWhen
    ensures forall env, p: nat, cur ::
              After(dims, ts, env, p, cur) == if Hits(dims, t, env, p) then Value(dims, t, env, p) else cur
    ensures Constant(t.lval) ==> forall i :: 0 <= i < |ts| ==> Constant(ts[i].lval)
    ensures SplitOf(dims, t, ts)
  {
    OneWrite(dims, t);
    if |dims| == |t.lval| {
      return [t];
    }
    var r := GetIdx(dims, t.lval);
    if r.first < 0 || r.first == r.last {
      return [t];
    }
    ts := [];
    var i := r.first;
    while i <= r.last
      invariant 0 <= r.first <= i <= r.last + 1
      invariant SplitTo(dims, t, r.first, i, ts)
    {
      var digits := DecodeLoop(dims, i, |t.lval|);
      ts := ts + [WithIdx(t, digits)];
      i := i + 1;
    }
    SplitMeaning(dims, t, r.first, r.last + 1, ts);
    forall j | 0 <= j < |ts| ensures Single(dims, ts[j], r.first + j) {
      SplitSingle(dims, t, r.first, r.last + 1, ts, j);
    }
  }

  lemma OneWrite(dims: Dims, t: Write)
    requires DimsOk(dims) && |t.lval| <= |dims|
    ensures ListOk(dims, [t])
    ensures forall env, p: nat, cur ::
              After(dims, [t], env, p, cur) == if Hits(dims, t, env, p) then Value(dims, t, env, p) else cur
  {
    assert [t][..0] == [];
  }

  /** A single-element write reaches its own position and no other, and stores what the
      whole write would. */
  lemma ElementWrite(dims: Dims, t: Write, i: nat, env: Env, p: nat)
    requires DimsOk(dims) && |t.lval| <= |dims| && !t.isWhen && Constant(t.lval)
    requires Num(dims, |t.lval|, |dims|) > 0 && i / Num(dims, |t.lval|, |dims|) == Base(dims, Literals(t.lval))
    ensures var e := WithIdx(t, Decode(dims, i, |t.lval|, |dims|));
            |e.lval| == |dims| && Constant(e.lval) && (Hits(dims, e, env, p) <==> p == i)
              && Value(dims, e, env, i) == Value(dims, t, env, i)
  {
    var digits := Decode(dims, i, |t.lval|, |dims|);
    var e := WithIdx(t, digits);
    EncodeDecode(dims, Literals(t.lval), i, |dims|);
    assert Digits(e.lval, env) == Literals(t.lval) + digits;
    assert t.at + digits + [] == t.at + digits;
  }

  lemma {:induction false} SplitMeaning(dims: Dims, t: Write, first: nat, end: nat, ts: seq<Write>)
    requires DimsOk(dims) && |t.lval| <= |dims| && !t.isWhen && WholeRange(dims, t, first, end)
    requires SplitTo(dims, t, first, end, ts)
    ensures ListOk(dims, ts) && forall i :: 0 <= i < |ts| ==> !ts[i].isWhen && Constant(ts[i].lval)
    ensures forall env, p: nat, cur ::
              After(dims, ts, env, p, cur) == if Hits(dims, t, env, p) then Value(dims, t, env, p) else cur
  {
    var num, base := Num(dims, |t.lval|, |dims|), Base(dims, Literals(t.lval));
    forall j | 0 <= j < |ts| ensures |ts[j].lval| == |dims| && !ts[j].isWhen && Constant(ts[j].lval) {
      InRange(first + j, base, num);
      ElementWrite(dims, t, first + j, Env(n => 0, n => true, (n, s) => 0), 0);
    }
    forall env, p: nat, cur
      ensures After(dims, ts, env, p, cur) == if Hits(dims, t, env, p) then Value(dims, t, env, p) else cur
    {
      SplitPrefix(dims, t, first, end, ts, |ts|, env, p, cur);
      InRange(p, base, num);
      assert ts[..|ts|] == ts;
      assert Digits(t.lval, env) == Literals(t.lval);
    }
  }

  lemma {:induction false} SplitPrefix(dims: Dims, t: Write, first: nat, end: nat, ts: seq<Write>, n: nat, env: Env,
                                       p: nat, cur: int)
    requires DimsOk(dims) && |t.lval| <= |dims| && !t.isWhen && WholeRange(dims, t, first, end)
    requires SplitTo(dims, t, first, end, ts) && n <= |ts| && ListOk(dims, ts)
    ensures After(dims, ts[..n], env, p, cur) == if first <= p < first + n then Value(dims, t, env, p) else cur
    decreases n
  {
    if n > 0 {
      SplitPrefix(dims, t, first, end, ts, n - 1, env, p, cur);
      assert ts[..n][..n - 1] == ts[..n - 1] && ts[..n][n - 1] == ts[n - 1];
      SplitElement(dims, t, first, end, ts, n - 1, env, p);
    }
  }

  lemma SplitElement(dims: Dims, t: Write, first: nat, end: nat, ts: seq<Write>, j: nat, env: Env, p: nat)
    requires DimsOk(dims) && |t.lval| <= |dims| && !t.isWhen && WholeRange(dims, t, first, end)
    requires SplitTo(dims, t, first, end, ts) && j < |ts| && |ts[j].lval| <= |dims|
    ensures Hits(dims, ts[j], env, p) <==> p == first + j
    ensures p == first + j ==> Value(dims, ts[j], env, p) == Value(dims, t, env, p)
  {
    InRange(first + j, Base(dims, Literals(t.lval)), Num(dims, |t.lval|, |dims|));
    ElementWrite(dims, t, first + j, env, p);
  }

  // ----- addArrayVal

  /** The lists store the same everywhere. */
  ghost predicate Same(dims: Dims, a: seq<Write>, b: seq<Write>)
    requires DimsOk(dims) && ListOk(dims, a) && ListOk(dims, b)
  {
    forall env, p: nat, cur :: After(dims, a, env, p, cur) == After(dims, b, env, p, cur)
  }

  ghost predicate IndexIs(dims: Dims, lval: seq<Digit>, r: Range)
    requires DimsOk(dims) && |lval| <= |dims|
  {
    if Constant(lval) then
      var num := Num(dims, |lval|, |dims|); var base := Base(dims, Literals(lval));
      num > 0 && r == Range(base * num, (base + 1) * num - 1)
    else r == Range(-1, -1)
  }

  lemma RangeHits(dims: Dims, t: Write, r: Range, env: Env, p: nat)
    requires DimsOk(dims) && |t.lval| <= |dims| && IndexIs(dims, t.lval, r) && r.first >= 0
    ensures Hits(dims, t, env, p) <==> r.first <= p <= r.last && (t.isWhen ==> env.taken(t.rhs))
  {
    InRange(p, Base(dims, Literals(t.lval)), Num(dims, |t.lval|, |dims|));
    assert Digits(t.lval, env) == Literals(t.lval);
  }

  /** An earlier write to the same range is of no use before an unconditional one. */
  lemma DropCovered(dims: Dims, list: seq<Write>, i: nat, t: Write, r: Range)
    requires DimsOk(dims) && ListOk(dims, list) && i < |list| && |t.lval| <= |dims| && !t.isWhen
    requires IndexIs(dims, t.lval, r) && IndexIs(dims, list[i].lval, r) && r.first >= 0
    ensures ListOk(dims, list[..i] + list[i + 1..] + [t]) && ListOk(dims, list + [t])
    ensures Same(dims, list[..i] + list[i + 1..] + [t], list + [t])
  {
    var a, b := list[..i], list[i + 1..];
    assert list == a + ([list[i]] + b);
    OneWrite(dims, list[i]);
    forall env, p: nat, cur ensures After(dims, a + b + [t], env, p, cur) == After(dims, list + [t], env, p, cur) {
      RangeHits(dims, t, r, env, p);
      RangeHits(dims, list[i], r, env, p);
      AfterConcat(dims, a + b, [t], env, p, cur);
      AfterConcat(dims, list, [t], env, p, cur);
      AfterConcat(dims, a, b, env, p, cur);
      AfterConcat(dims, a, [list[i]] + b, env, p, cur);
      AfterConcat(dims, [list[i]], b, env, p, After(dims, a, env, p, cur));
      OneWrite(dims, t);
    }
  }

  /** How many writes of the list go to exactly this range. */
  ghost function Number(dims: Dims, list: seq<Write>, r: Range): nat
    requires DimsOk(dims) && ListOk(dims, list)
    decreases |list|
  {
    if list == [] then 0
    else Number(dims, list[..|list| - 1], r) + if IndexIs(dims, list[|list| - 1].lval, r) then 1 else 0
  }

  lemma {:induction false} NumberConcat(dims: Dims, a: seq<Write>, b: seq<Write>, r: Range)
    requires DimsOk(dims) && ListOk(dims, a) && ListOk(dims, b)
    ensures ListOk(dims, a + b) && Number(dims, a + b, r) == Number(dims, a, r) + Number(dims, b, r)
    decreases |b|
  {
    if b == [] {
      assert a + b == a;
    } else {
      var n := |b| - 1;
      assert (a + b)[..|a + b| - 1] == a + b[..n] && (a + b)[|a + b| - 1] == b[n];
      NumberConcat(dims, a, b[..n], r);
    }
  }

  lemma {:induction false} NumberOfNone(dims: Dims, list: seq<Write>, r: Range)
    requires DimsOk(dims) && ListOk(dims, list) && forall i :: 0 <= i < |list| ==> !IndexIs(dims, list[i].lval, r)
    ensures Number(dims, list, r) == 0
    decreases |list|
  {
    if list != [] {
      NumberOfNone(dims, list[..|list| - 1], r);
    }
  }

  lemma NumberOfOne(dims: Dims, t: Write, r: Range)
    requires DimsOk(dims) && |t.lval| <= |dims|
    ensures ListOk(dims, [t]) && Number(dims, [t], r) == if IndexIs(dims, t.lval, r) then 1 else 0
  {
    assert [t][..0] == [];
  }

  /** Ranges are told apart. */
  lemma OneIndex(dims: Dims, lval: seq<Digit>, a: Range, b: Range)
    requires DimsOk(dims) && |lval| <= |dims| && IndexIs(dims, lval, a) && IndexIs(dims, lval, b)
    ensures a == b
  {
  }

  method FindRange(dims: Dims, list: seq<Write>, r: Range) returns (k: nat)
    requires DimsOk(dims) && ListOk(dims, list)
    ensures k <= |list| && (k < |list| ==> IndexIs(dims, list[k].lval, r))
    ensures forall i :: 0 <= i < k ==> !IndexIs(dims, list[i].lval, r)
  {
    k := 0;
    while k < |list|
      invariant 0 <= k <= |list| && forall i :: 0 <= i < k ==> !IndexIs(dims, list[i].lval, r)
    {
      var prev := GetIdx(dims, list[k].lval);
      if prev == r {
        return;
      }
      assert !IndexIs(dims, list[k].lval, r) by {
        if IndexIs(dims, list[k].lval, r) {
          OneIndex(dims, list[k].lval, prev, r);
        }
      }
      k := k + 1;
    }
  }

  /** The first write to the range, if any, is gone; all others stay. */
  ghost predicate FirstGone(dims: Dims, list: seq<Write>, r: Range, rest: seq<Write>, k: nat)
    requires DimsOk(dims) && ListOk(dims, list)
  {
    && k <= |list| && (forall i :: 0 <= i < k ==> !IndexIs(dims, list[i].lval, r))
    && rest == (if k == |list| then list else list[..k] + list[k + 1..])
    && (k < |list| ==> IndexIs(dims, list[k].lval, r))
  }

  lemma FirstGoneNumber(dims: Dims, list: seq<Write>, r: Range, rest: seq<Write>, k: nat, q: Range)
    requires DimsOk(dims) && ListOk(dims, list) && FirstGone(dims, list, r, rest, k)
    ensures ListOk(dims, rest)
    ensures var n := Number(dims, list, q);
            Number(dims, rest, q) == if q == r && n > 0 then n - 1 else n
  {
    if k == |list| {
      NumberOfNone(dims, list, r);
    } else {
      var a, b := list[..k], list[k + 1..];
      assert list == a + ([list[k]] + b);
      NumberConcat(dims, a, b, q);
      NumberConcat(dims, [list[k]], b, q);
      NumberConcat(dims, a, [list[k]] + b, q);
      NumberOfOne(dims, list[k], q);
      if q != r && IndexIs(dims, list[k].lval, q) {
        OneIndex(dims, list[k].lval, q, r);
      }
    }
  }

  /** One element write joins the list and replaces the first earlier write to its range. */
  method ReplaceOne(dims: Dims, list: seq<Write>, t: Write) returns (r: seq<Write>, ghost rest: seq<Write>)
    requires DimsOk(dims) && ListOk(dims, list) && |t.lval| <= |dims| && !t.isWhen && Constant(t.lval)
    ensures ListOk(dims, r) && ListOk(dims, list + [t]) && Same(dims, r, list + [t]) && r == rest + [t]
    ensures exists idx, k :: IndexIs(dims, t.lval, idx) && FirstGone(dims, list, idx, rest, k)
  {
    var idx := GetIdx(dims, t.lval);
    var k := FindRange(dims, list, idx);
    r := list;
    if k < |list| {
      r := list[..k] + list[k + 1..];
      DropCovered(dims, list, k, t, idx);
    }
    rest := r;
    assert IndexIs(dims, t.lval, idx) && FirstGone(dims, list, idx, rest, k);
    r := r + [t];
  }

  lemma ReplacedNumber(dims: Dims, list: seq<Write>, t: Write, rest: seq<Write>, idx: Range, k: nat, q: Range)
    requires DimsOk(dims) && ListOk(dims, list) && |t.lval| <= |dims| && IndexIs(dims, t.lval, idx)
    requires FirstGone(dims, list, idx, rest, k)
    ensures ListOk(dims, rest + [t])
    ensures var n := Number(dims, list, q);
            Number(dims, rest + [t], q) == if q == idx && n == 0 then 1 else n
  {
    FirstGoneNumber(dims, list, idx, rest, k, q);
    NumberConcat(dims, rest, [t], q);
    NumberOfOne(dims, t, q);
    if IndexIs(dims, t.lval, q) {
      OneIndex(dims, t.lval, q, idx);
    }
  }

  /** Every range of ts has a write afterwards; where there were some, there are as many. */
  ghost predicate Replaced(dims: Dims, list: seq<Write>, ts: seq<Write>, r: seq<Write>)
    requires DimsOk(dims) && ListOk(dims, list) && ListOk(dims, ts) && ListOk(dims, r)
  {
    forall q :: Number(dims, r, q)
                == if Number(dims, list, q) == 0 && Number(dims, ts, q) > 0 then 1 else Number(dims, list, q)
  }

  lemma ReplacedOne(dims: Dims, list: seq<Write>, ts: seq<Write>, cur: seq<Write>, t: Write, rest: seq<Write>)
    requires DimsOk(dims) && ListOk(dims, list) && ListOk(dims, ts) && ListOk(dims, cur) && |t.lval| <= |dims|
    requires Replaced(dims, list, ts, cur)
    requires exists idx, k :: IndexIs(dims, t.lval, idx) && FirstGone(dims, cur, idx, rest, k)
    ensures ListOk(dims, ts + [t]) && ListOk(dims, rest + [t]) && Replaced(dims, list, ts + [t], rest + [t])
  {
    var idx, k :| IndexIs(dims, t.lval, idx) && FirstGone(dims, cur, idx, rest, k);
    FirstGoneNumber(dims, cur, idx, rest, k, idx);
    forall q ensures Number(dims, rest + [t], q)
                     == if Number(dims, list, q) == 0 && Number(dims, ts + [t], q) > 0 then 1 else Number(dims, list, q)
    {
      ReplacedNumber(dims, cur, t, rest, idx, k, q);
      NumberConcat(dims, ts, [t], q);
      NumberOfOne(dims, t, q);
      if IndexIs(dims, t.lval, q) {
        OneIndex(dims, t.lval, q, idx);
      }
    }
  }

  lemma SameAfterMore(dims: Dims, a: seq<Write>, b: seq<Write>, c: seq<Write>)
    requires DimsOk(dims) && ListOk(dims, a) && ListOk(dims, b) && ListOk(dims, c) && Same(dims, a, b)
    ensures ListOk(dims, a + c) && ListOk(dims, b + c) && Same(dims, a + c, b + c)
  {
    forall env, p: nat, cur ensures After(dims, a + c, env, p, cur) == After(dims, b + c, env, p, cur) {
      AfterConcat(dims, a, c, env, p, cur);
      AfterConcat(dims, b, c, env, p, cur);
    }
  }

  lemma SameTrans(dims: Dims, a: seq<Write>, b: seq<Write>, c: seq<Write>)
    requires DimsOk(dims) && ListOk(dims, a) && ListOk(dims, b) && ListOk(dims, c) && Same(dims, a, b)
             && Same(dims, b, c)
    ensures Same(dims, a, c)
  {
    forall env, p: nat, cur ensures After(dims, a, env, p, cur) == After(dims, c, env, p, cur) {
      assert After(dims, a, env, p, cur) == After(dims, b, env, p, cur);
    }
  }

  method ReplaceAll(dims: Dims, list: seq<Write>, ts: seq<Write>) returns (r: seq<Write>)
    requires DimsOk(dims) && ListOk(dims, list) && ListOk(dims, ts) && forall i :: 0 <= i < |ts| ==>
               !ts[i].isWhen && Constant(ts[i].lval)
    ensures ListOk(dims, r) && ListOk(dims, list + ts) && Same(dims, r, list + ts) && Replaced(dims, list, ts, r)
  {
    r := list;
    assert list + ts[..0] == list;
    for j := 0 to |ts|
      invariant ListOk(dims, r) && ListOk(dims, list + ts[..j]) && Same(dims, r, list + ts[..j])
      invariant ListOk(dims, ts[..j]) && Replaced(dims, list, ts[..j], r)
    {
      var next, rest := ReplaceOne(dims, r, ts[j]);
      ReplacedOne(dims, list, ts[..j], r, ts[j], rest);
      assert ts[..j] + [ts[j]] == ts[..j + 1];
      SameAfterMore(dims, r, list + ts[..j], [ts[j]]);
      assert list + ts[..j] + [ts[j]] == list + ts[..j + 1];
      SameTrans(dims, next, r + [ts[j]], list + ts[..j + 1]);
      r := next;
    }
    assert ts[..|ts|] == ts;
  }

  /** A write and its single-element writes do the same. */
  method SplitSame(dims: Dims, t: Write) returns (ts: seq<Write>)
    requires DimsOk(dims) && |t.lval| <= |dims| && !t.isWhen
    ensures ListOk(dims, ts) && ListOk(dims, [t]) && Same(dims, ts, [t])
    ensures Constant(t.lval) ==> forall i :: 0 <= i < |ts| ==> !ts[i].isWhen && Constant(ts[i].lval)
    ensures SplitOf(dims, t, ts)
  {
    ts := SplitTree(dims, t);
    OneWrite(dims, t);
  }

  /** A range that the write covers alone or as one element of a constant sub-array. */
  ghost predicate Covers(dims: Dims, t: Write, q: Range)
    requires DimsOk(dims) && |t.lval| <= |dims|
  {
    if Several(dims, t) then
      var num := Num(dims, |t.lval|, |dims|); var base := Base(dims, Literals(t.lval));
      q.first == q.last && base * num <= q.first < (base + 1) * num
    else IndexIs(dims, t.lval, q)
  }

  lemma {:induction false} NumberHas(dims: Dims, list: seq<Write>, j: nat, q: Range)
    requires DimsOk(dims) && ListOk(dims, list) && j < |list| && IndexIs(dims, list[j].lval, q)
    ensures Number(dims, list, q) > 0
    decreases |list|
  {
    if j < |list| - 1 {
      NumberHas(dims, list[..|list| - 1], j, q);
    }
  }

  lemma SplitCovers(dims: Dims, t: Write, ts: seq<Write>, q: Range)
    requires DimsOk(dims) && |t.lval| <= |dims| && ListOk(dims, ts) && SplitOf(dims, t, ts)
    ensures Number(dims, ts, q) > 0 <==> Covers(dims, t, q)
  {
    if Several(dims, t) {
      var num, base := Num(dims, |t.lval|, |dims|), Base(dims, Literals(t.lval));
      assert (base + 1) * num == base * num + num;
      if Covers(dims, t, q) {
        var j := q.first - base * num;
        assert Single(dims, ts[j], base * num + j);
        NumberHas(dims, ts, j, q);
      } else {
        forall j | 0 <= j < |ts| ensures !IndexIs(dims, ts[j].lval, q) {
          assert Single(dims, ts[j], base * num + j);
          if IndexIs(dims, ts[j].lval, q) {
            OneIndex(dims, ts[j].lval, q, Range(base * num + j, base * num + j));
          }
        }
        NumberOfNone(dims, ts, q);
      }
    } else {
      NumberOfOne(dims, t, q);
    }
  }

  /** A range keeps its number of writes, except that one the new write covers has at least
      one. */
  ghost predicate Added(dims: Dims, list: seq<Write>, val: Write, r: seq<Write>)
    requires DimsOk(dims) && ListOk(dims, list) && ListOk(dims, r) && |val.lval| <= |dims|
  {
    forall q :: Number(dims, r, q)
                == if Number(dims, list, q) == 0 && Covers(dims, val, q) then 1 else Number(dims, list, q)
  }

  lemma ReplacedAdds(dims: Dims, list: seq<Write>, val: Write, ts: seq<Write>, r: seq<Write>)
    requires DimsOk(dims) && ListOk(dims, list) && ListOk(dims, r) && |val.lval| <= |dims| && ListOk(dims, ts)
    requires SplitOf(dims, val, ts) && Replaced(dims, list, ts, r)
    ensures Added(dims, list, val, r)
  {
    forall q ensures Number(dims, r, q)
                     == if Number(dims, list, q) == 0 && Covers(dims, val, q) then 1 else Number(dims, list, q)
    {
      SplitCovers(dims, val, ts, q);
    }
  }

  /** addArrayVal: the list behaves as if the new write came last. An only write is split first;
      an unconditional constant write then replaces one earlier write to each of its elements,
      any other one is appended. */
  method AddArrayVal(dims: Dims, list: seq<Write>, val: Write) returns (r: seq<Write>, ghost cur: seq<Write>)
    requires DimsOk(dims) && ListOk(dims, list) && |val.lval| <= |dims|
    ensures ListOk(dims, r) && ListOk(dims, list + [val]) && Same(dims, r, list + [val]) && ListOk(dims, cur)
    ensures if |list| == 1 && !list[0].isWhen then SplitOf(dims, list[0], cur) else cur == list
    ensures if val.isWhen || !Constant(val.lval) || cur == [] then r == cur + [val] else Added(dims, cur, val, r)
  {
    var now := list;
    if |list| == 1 && !list[0].isWhen {
      now := SplitSame(dims, list[0]);
      assert [list[0]] == list;
    }
    cur := now;
    SameAfterMore(dims, now, list, [val]);
    r := now + [val];
    if !val.isWhen {
      var idx := GetIdx(dims, val.lval);
      if idx.first >= 0 && |now| > 0 {
        var ts := SplitSame(dims, val);
        r := ReplaceAll(dims, now, ts);
        ReplacedAdds(dims, now, val, ts, r);
        JoinSame(dims, now, ts, val);
        SameTrans(dims, r, now + ts, now + [val]);
        SameTrans(dims, r, now + [val], list + [val]);
      }
    }
  }

  lemma JoinSame(dims: Dims, list: seq<Write>, ts: seq<Write>, t: Write)
    requires DimsOk(dims) && ListOk(dims, list) && ListOk(dims, ts) && ListOk(dims, [t]) && Same(dims, ts, [t])
    ensures ListOk(dims, list + ts) && ListOk(dims, list + [t]) && Same(dims, list + ts, list + [t])
  {
    forall env, p: nat, cur ensures After(dims, list + ts, env, p, cur) == After(dims, list + [t], env, p, cur) {
      AfterConcat(dims, list, ts, env, p, cur);
      AfterConcat(dims, list, [t], env, p, cur);
    }
  }

  /** After any sequence of connects every position holds what the last write to it left. */
  method ConnectAll(dims: Dims, writes: seq<Write>) returns (list: seq<Write>)
    requires DimsOk(dims) && ListOk(dims, writes)
    ensures ListOk(dims, list) && Same(dims, list, writes)
  {
    list := [];
    assert writes[..0] == [];
    for i := 0 to |writes|
      invariant ListOk(dims, list) && ListOk(dims, writes[..i]) && Same(dims, list, writes[..i])
    {
      var next, cur := AddArrayVal(dims, list, writes[i]);
      SameAfterMore(dims, list, writes[..i], [writes[i]]);
      assert writes[..i] + [writes[i]] == writes[..i + 1];
      SameTrans(dims, next, list + [writes[i]], writes[..i + 1]);
      list := next;
    }
    assert writes[..|writes|] == writes;
  }
}
