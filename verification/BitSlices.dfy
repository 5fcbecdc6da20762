/** Components of a node as a row of bit slices, and cutting and joining them
    (include/splitNode.h, NodeElement and NodeComponent). Elements are unsigned. */
module BitSlices {
  import opened BitMath

  /** One bit: a bit of a node, a constant, or a hole. */
  datatype Bit = Of(node: nat, index: nat) | Const(one: bool) | Hole

  datatype Element = NodeEl(node: nat, hi: nat, lo: nat) | IntEl(val: nat, hi: nat) | SpaceEl(hi: nat, lo: nat)

  function WidthOf(e: Element): (w: int) {
    match e
    case NodeEl(_, hi, lo) => hi - lo + 1
    case IntEl(_, hi) => hi + 1
    case SpaceEl(hi, lo) => hi - lo + 1
  }

  /** Every element holds at least one bit; a literal fits its width. */
  ghost predicate ElementOk(e: Element) {
    WidthOf(e) >= 1 && (e.IntEl? ==> e.val < Pow2(e.hi + 1))
  }

  ghost predicate ElementsOk(es: seq<Element>) {
    forall i :: 0 <= i < |es| ==> ElementOk(es[i])
  }

  // ----- what elements denote, least significant bit first

  function IntBits(v: nat, n: nat): (r: seq<Bit>)
    ensures |r| == n
  {
    seq(n, i requires 0 <= i < n => Const((v / Pow2(i)) % 2 == 1))
  }

  function BitsOf(e: Element): (r: seq<Bit>)
    ensures |r| == if WidthOf(e) >= 0 then WidthOf(e) else 0
  {
    if WidthOf(e) < 0 then []
    else
      match e
      case NodeEl(n, hi, lo) => seq(hi - lo + 1, i requires 0 <= i < hi - lo + 1 => Of(n, lo + i))
      case IntEl(v, hi) => IntBits(v, hi + 1)
      case SpaceEl(hi, lo) => seq(hi - lo + 1, i => Hole)
  }

  /** The first element is the most significant. */
  function Denote(es: seq<Element>): seq<Bit> {
    if es == [] then [] else Denote(es[1..]) + BitsOf(es[0])
  }

  function Zeros(n: nat): (r: seq<Bit>)
    ensures |r| == n
  {
    seq(n, i => Const(false))
  }

  /** Bits from up to end of a row of bits, with zeros above its own end. */
  ghost function Select(d: seq<Bit>, from: nat, end: nat): (r: seq<Bit>)
    requires from <= end
    ensures |r| == end - from
  {
    seq(end - from, i requires 0 <= i < end - from => if from + i < |d| then d[from + i] else Const(false))
  }

  lemma {:induction false} DenoteConcat(a: seq<Element>, b: seq<Element>)
    ensures Denote(a + b) == Denote(b) + Denote(a)
    decreases |a|
  {
    if a == [] {
      assert a + b == b;
    } else {
      assert (a + b)[1..] == a[1..] + b && (a + b)[0] == a[0];
      DenoteConcat(a[1..], b);
    }
  }

  lemma DenoteOne(e: Element)
    ensures Denote([e]) == BitsOf(e)
  {
    assert [e][1..] == [];
  }

  lemma DenotePush(es: seq<Element>, e: Element)
    ensures Denote(es + [e]) == BitsOf(e) + Denote(es)
  {
    DenoteConcat(es, [e]);
    DenoteOne(e);
  }

  // ----- literals

  lemma ModTwo(x: int, y: int, n: int)
    requires n >= 1 && Cong(x, y, n)
    ensures x % 2 == y % 2
  {
    CongLess(x, y, n, 1);
    CongMod(x, y, 1);
    assert Pow2(1) == 2;
  }

  lemma BitOfSlice(v: nat, lo: nat, n: nat, i: nat)
    requires i < n
    ensures (((v / Pow2(lo)) % Pow2(n)) / Pow2(i)) % 2 == (v / Pow2(lo + i)) % 2
  {
    var x := v / Pow2(lo);
    ModKeeps(x, n, n);
    CongShr(x % Pow2(n), x, n - i, i);
    ModTwo((x % Pow2(n)) / Pow2(i), x / Pow2(i), n - i);
    Pow2Add(i, lo);
    DivTwice(v, Pow2(i), Pow2(lo));
  }

  lemma SliceBit(v: nat, m: nat, lo: nat, n: nat, u: nat, i: nat)
    requires lo + n <= m && i < n && u == (v / Pow2(lo)) % Pow2(n)
    ensures IntBits(u, n)[i] == IntBits(v, m)[lo + i]
  {
    BitOfSlice(v, lo, n, i);
  }

  lemma IntSlice(v: nat, m: nat, lo: nat, n: nat, u: nat)
    requires lo + n <= m && u == (v / Pow2(lo)) % Pow2(n)
    ensures IntBits(u, n) == IntBits(v, m)[lo..lo + n]
  {
    forall i | 0 <= i < n ensures IntBits(u, n)[i] == IntBits(v, m)[lo + i] {
      SliceBit(v, m, lo, n, u, i);
    }
  }

  lemma LowBit(a: nat, b: nat, k: nat, i: nat)
    requires i < k
    ensures ((a * Pow2(k) + b) / Pow2(i)) % 2 == (b / Pow2(i)) % 2
  {
    assert CongBy(a * Pow2(k) + b, b, k, a);
    CongShr(a * Pow2(k) + b, b, k - i, i);
    ModTwo((a * Pow2(k) + b) / Pow2(i), b / Pow2(i), k - i);
  }

  lemma HighBit(a: nat, b: nat, k: nat, i: nat)
    requires b < Pow2(k)
    ensures (a * Pow2(k) + b) / Pow2(k + i) == a / Pow2(i)
  {
    var v := a * Pow2(k) + b;
    DivUnique(v, Pow2(k), a, b);
    Pow2Add(i, k);
    DivTwice(v, Pow2(i), Pow2(k));
  }

  lemma JoinBit(v: nat, a: nat, n: nat, b: nat, k: nat, i: nat)
    requires v == a * Pow2(k) + b && b < Pow2(k) && i < n + k
    ensures IntBits(v, n + k)[i] == if i < k then IntBits(b, k)[i] else IntBits(a, n)[i - k]
  {
    if i < k {
      LowBit(a, b, k, i);
    } else {
      HighBit(a, b, k, i - k);
    }
  }

  lemma IntJoin(v: nat, a: nat, n: nat, b: nat, k: nat)
    requires v == a * Pow2(k) + b && b < Pow2(k)
    ensures IntBits(v, n + k) == IntBits(b, k) + IntBits(a, n)
  {
    forall i | 0 <= i < n + k ensures IntBits(v, n + k)[i] == (IntBits(b, k) + IntBits(a, n))[i] {
      JoinBit(v, a, n, b, k, i);
    }
  }

  lemma ZeroBits(n: nat)
    ensures IntBits(0, n) == Zeros(n)
  {
    forall i | 0 <= i < n ensures IntBits(0, n)[i] == Const(false) {
      DivUnique(0, Pow2(i), 0, 0);
    }
  }

  lemma JoinFits(a: nat, n: nat, b: nat, k: nat)
    requires a < Pow2(n) && b < Pow2(k)
    ensures a * Pow2(k) + b < Pow2(n + k)
  {
    Pow2Add(n, k);
    Grow(a + 1, Pow2(n), Pow2(k));
    Distribute(a, 1, Pow2(k));
  }

  // ----- NodeElement

  /** getBits: bits hi .. lo of one element. */
  function GetBits(e: Element, hi: nat, lo: nat): (r: Element)
    requires ElementOk(e) && lo <= hi < WidthOf(e)
    ensures ElementOk(r) && BitsOf(r) == BitsOf(e)[lo..hi + 1]
  {
    match e
    case NodeEl(n, _, l) => NodeEl(n, hi + l, lo + l)
    case IntEl(v, h) =>
      IntSlice(v, h + 1, lo, hi - lo + 1, (v / Pow2(lo)) % Pow2(hi - lo + 1));
      IntEl((v / Pow2(lo)) % Pow2(hi - lo + 1), hi - lo)
    case SpaceEl(_, _) => SpaceEl(hi, lo)
  }

  predicate Mergable(a: Element, b: Element) {
    match (a, b)
    case (NodeEl(n, _, lo), NodeEl(m, hi, _)) => n == m && lo == hi + 1
    case (IntEl(_, _), IntEl(_, _)) => true
    case _ => false
  }

  /** merge: the joined element denotes both rows of bits. */
  function Join(a: Element, b: Element): (r: Element)
    requires ElementOk(a) && ElementOk(b) && Mergable(a, b)
    ensures ElementOk(r) && BitsOf(r) == BitsOf(b) + BitsOf(a)
  {
    match (a, b)
    case (NodeEl(n, hi, _), NodeEl(_, _, lo)) => NodeEl(n, hi, lo)
    case (IntEl(v, h), IntEl(u, k)) =>
      IntJoin(v * Pow2(k + 1) + u, v, h + 1, u, k + 1);
      JoinFits(v, h + 1, u, k + 1);
      IntEl(v * Pow2(k + 1) + u, h + k + 1)
  }

  // ----- cutting

  lemma {:induction false} DenoteSuffix(es: seq<Element>, i: nat)
    requires i <= |es|
    ensures |Denote(es[i..])| <= |Denote(es)| && Denote(es)[..|Denote(es[i..])|] == Denote(es[i..])
    decreases i
  {
    if i == 0 {
      assert es[0..] == es;
    } else {
      DenoteSuffix(es, i - 1);
      assert es[i - 1..][1..] == es[i..];
      var low := Denote(es[i..]);
      assert Denote(es[i - 1..])[..|low|] == low;
    }
  }

  /** Element i covers the bits below those of its predecessors. */
  lemma ElementBits(es: seq<Element>, i: nat)
    requires i < |es| && ElementsOk(es)
    ensures var w := |Denote(es[i..])|; var low := w - WidthOf(es[i]);
            0 <= low == |Denote(es[i + 1..])| && w <= |Denote(es)| && Denote(es)[low..w] == BitsOf(es[i])
  {
    DenoteSuffix(es, i);
    assert ElementOk(es[i]);
    assert es[i..][1..] == es[i + 1..] && es[i..][0] == es[i];
    var d, w, low := Denote(es), |Denote(es[i..])|, |Denote(es[i + 1..])|;
    assert d[low..w] == d[..w][low..];
  }

  lemma ElementSpan(es: seq<Element>, i: nat)
    requires i < |es| && ElementsOk(es)
    ensures 0 <= |Denote(es[i..])| - WidthOf(es[i]) == |Denote(es[i + 1..])| && |Denote(es[i..])| <= |Denote(es)|
            && WidthOf(es[i]) >= 1
  {
    ElementBits(es, i);
    assert ElementOk(es[i]);
  }

  lemma SelectSlice(es: seq<Element>, i: nat, from: nat, end: nat, h: nat, l: nat)
    requires i < |es| && ElementsOk(es)
    requires var w := |Denote(es[i..])|; var low := w - WidthOf(es[i]);
             0 <= low <= from < end <= w && l == from - low && h == end - 1 - low
    ensures l <= h < WidthOf(es[i]) && ElementOk(es[i])
    ensures BitsOf(es[i])[l..h + 1] == Select(Denote(es), from, end)
  {
    ElementBits(es, i);
    var d, low := Denote(es), |Denote(es[i + 1..])|;
    SelectWithin(d, low, |Denote(es[i..])|, from, end);
  }

  lemma SelectWithin(d: seq<Bit>, low: nat, w: nat, from: nat, end: nat)
    requires low <= from <= end <= w <= |d|
    ensures d[low..w][from - low..end - low] == Select(d, from, end)
  {
  }

  lemma SelectJoin(d: seq<Bit>, a: nat, b: nat, c: nat)
    requires a <= b <= c
    ensures Select(d, a, b) + Select(d, b, c) == Select(d, a, c)
  {
  }

  lemma SelectAbove(d: seq<Bit>, from: nat, end: nat)
    requires |d| <= from <= end
    ensures Select(d, from, end) == Zeros(end - from)
  {
  }

  /** getElementBits and getDirectBits: bits hi .. lo of the elements, zero above them. */
  method CutBits(es: seq<Element>, width: nat, hi: nat, lo: nat) returns (out: seq<Element>)
    requires ElementsOk(es) && width == |Denote(es)| && lo <= hi
    ensures ElementsOk(out) && Denote(out) == Select(Denote(es), lo, hi + 1)
  {
    if hi < width {
      out := CutInside(es, width, hi, hi, lo, []);
      return;
    }
    var top := if lo >= width then lo else width;
    out := ZerosAbove(Denote(es), top, hi);
    if lo < width {
      out := CutInside(es, width, hi, width - 1, lo, out);
    }
  }

  /** The literal zero that stands for bits beyond the elements. */
  method ZerosAbove(ghost d: seq<Bit>, top: nat, hi: nat) returns (out: seq<Element>)
    requires |d| <= top <= hi
    ensures ElementsOk(out) && Denote(out) == Select(d, top, hi + 1)
  {
    out := [IntEl(0, hi - top)];
    ZeroBits(hi - top + 1);
    DenoteOne(out[0]);
    SelectAbove(d, top, hi + 1);
  }

  /** Bits from up to end, all within one element that starts at bit low, join those
      already cut. */
  method CutPiece(e: Element, ghost d: seq<Bit>, low: nat, from: nat, end: nat, ghost top: nat, above: seq<Element>)
    returns (out: seq<Element>)
    requires ElementOk(e) && low <= from < end <= low + WidthOf(e) && end <= top
    requires BitsOf(e)[from - low..end - low] == Select(d, from, end)
    requires ElementsOk(above) && Denote(above) == Select(d, end, top)
    ensures ElementsOk(out) && Denote(out) == Select(d, from, top)
  {
    var piece := CutElement(e, end - 1 - low, from - low);
    PieceJoins(d, piece, above, from, end, top);
    out := above + [piece];
  }

  lemma PieceJoins(d: seq<Bit>, piece: Element, above: seq<Element>, from: nat, end: nat, top: nat)
    requires from <= end <= top && BitsOf(piece) == Select(d, from, end) && Denote(above) == Select(d, end, top)
    ensures Denote(above + [piece]) == Select(d, from, top)
  {
    DenotePush(above, piece);
    SelectJoin(d, from, end, top);
  }

  method CutElement(e: Element, hi: nat, lo: nat) returns (r: Element)
    requires ElementOk(e) && lo <= hi < WidthOf(e)
    ensures ElementOk(r) && BitsOf(r) == BitsOf(e)[lo..hi + 1]
  {
    r := GetBits(e, hi, lo);
  }

  /** What element i, which covers the bits from low up to w, contributes to bits h .. lo. */
  method CutFrom(es: seq<Element>, i: nat, low: nat, w: nat, h: nat, lo: nat, ghost hi: nat, above: seq<Element>)
    returns (out: seq<Element>)
    requires ElementsOk(es) && i < |es| && w == |Denote(es[i..])| && low == w - WidthOf(es[i]) && lo <= h <= hi
             && lo < w && low <= h && low < w
    requires ElementsOk(above) && Denote(above) == Select(Denote(es), if w <= h then w else h + 1, hi + 1)
    ensures ElementsOk(out) && Denote(out) == Select(Denote(es), if lo > low then lo else low, hi + 1)
  {
    var end := if h < w - 1 then h + 1 else w;
    var from := if lo > low then lo else low;
    SelectSlice(es, i, from, end, end - 1 - low, from - low);
    out := CutPiece(es[i], Denote(es), low, from, end, hi + 1, above);
  }

  /** The loop over the elements; `above` already holds the bits over h. */
  method CutInside(es: seq<Element>, width: nat, ghost hi: nat, h: nat, lo: nat, above: seq<Element>)
    returns (out: seq<Element>)
    requires ElementsOk(es) && width == |Denote(es)| && lo <= h <= hi && h < width
    requires ElementsOk(above) && Denote(above) == Select(Denote(es), h + 1, hi + 1)
    ensures ElementsOk(out) && Denote(out) == Select(Denote(es), lo, hi + 1)
  {
    out := above;
    var w := width;
    var start := false;
    var i := 0;
    assert es[0..] == es;
    while i < |es|
      invariant 0 <= i <= |es| && w == |Denote(es[i..])| && ElementsOk(out)
      invariant if start then lo < w <= h else w > h
      invariant Denote(out) == Select(Denote(es), if start then w else h + 1, hi + 1)
    {
      var memberWidth := WidthOf(es[i]);
      ElementSpan(es, i);
      var low := w - memberWidth;
      if w > h && low <= h {
        start := true;
      }
      if start {
        out := CutFrom(es, i, low, w, h, lo, hi, out);
        if low <= lo {
          return;
        }
      }
      w := low;
      i := i + 1;
    }
  }

  // ----- NodeComponent

  class NodeComponent {
    var elements: seq<Element>
    var directElements: seq<Element>
    var width: nat

    ghost predicate Valid()
      reads this
    {
      && ElementsOk(elements) && ElementsOk(directElements)
      && width == |Denote(elements)| && width == |Denote(directElements)|
    }

    constructor (elements: seq<Element>, directElements: seq<Element>, width: nat)
      requires ElementsOk(elements) && ElementsOk(directElements)
      requires width == |Denote(elements)| && width == |Denote(directElements)|
      ensures Valid() && this.elements == elements && this.directElements == directElements && this.width == width
    {
      this.elements, this.directElements, this.width := elements, directElements, width;
    }

    /** getbits */
    method GetBitsOf(hi: nat, lo: nat) returns (r: NodeComponent)
      requires Valid() && lo <= hi
      ensures fresh(r) && r.Valid() && r.width == hi - lo + 1
      ensures Denote(r.elements) == Select(Denote(elements), lo, hi + 1)
      ensures Denote(r.directElements) == Select(Denote(directElements), lo, hi + 1)
    {
      var es := CutBits(elements, width, hi, lo);
      var ds := CutBits(directElements, width, hi, lo);
      r := new NodeComponent(es, ds, hi - lo + 1);
    }

    /** merge: appends another component below this one. */
    method Merge(other: NodeComponent)
      requires Valid() && other.Valid()
      modifies this
      ensures Valid() && width == old(width) + old(other.width)
      ensures Denote(elements) == old(Denote(other.elements) + Denote(elements))
      ensures Denote(directElements) == old(Denote(other.directElements) + Denote(directElements))
    {
      var es := JoinLists(elements, other.elements);
      var ds := JoinLists(directElements, other.directElements);
      elements, directElements, width := es, ds, width + other.width;
    }

    /** mergeNeighbor: joins what can be joined, without changing a bit. */
    method MergeNeighbor()
      requires Valid()
      modifies this
      ensures Valid() && width == old(width)
      ensures Denote(elements) == old(Denote(elements)) && Denote(directElements) == old(Denote(directElements))
      ensures NoneMergable(elements) && NoneMergable(directElements)
    {
      var es := JoinNeighbors(elements);
      var ds := JoinNeighbors(directElements);
      elements, directElements := es, ds;
    }
  }

  /** The last element takes in the bits of one more below it. */
  lemma JoinLast(es: seq<Element>, e: Element)
    requires ElementsOk(es) && ElementOk(e) && |es| != 0 && Mergable(es[|es| - 1], e)
    ensures var r := es[..|es| - 1] + [Join(es[|es| - 1], e)];
            ElementsOk(r) && Denote(r) == BitsOf(e) + Denote(es)
  {
    var front, last := es[..|es| - 1], es[|es| - 1];
    assert es == front + [last];
    DenotePush(front, last);
    DenotePush(front, Join(last, e));
    Regroup(BitsOf(e), BitsOf(last), Denote(front));
  }

  lemma Regroup(a: seq<Bit>, b: seq<Bit>, c: seq<Bit>)
    ensures a + b + c == a + (b + c)
  {
  }

  lemma JoinedDenote(a: seq<Element>, b: seq<Element>, joined: seq<Element>)
    requires b != [] && Denote(joined) == BitsOf(b[0]) + Denote(a)
    ensures Denote(joined + b[1..]) == Denote(b) + Denote(a)
  {
    DenoteConcat(joined, b[1..]);
    assert Denote(b[1..]) + (BitsOf(b[0]) + Denote(a)) == Denote(b[1..]) + BitsOf(b[0]) + Denote(a);
  }

  method JoinLists(a: seq<Element>, b: seq<Element>) returns (r: seq<Element>)
    requires ElementsOk(a) && ElementsOk(b)
    ensures ElementsOk(r) && Denote(r) == Denote(b) + Denote(a)
  {
    if |a| != 0 && |b| != 0 && Mergable(a[|a| - 1], b[0]) {
      JoinLast(a, b[0]);
      var joined := a[..|a| - 1] + [Join(a[|a| - 1], b[0])];
      r := joined + b[1..];
      JoinedDenote(a, b, joined);
    } else {
      DenoteConcat(a, b);
      r := a + b;
    }
  }

  ghost predicate NoneMergable(es: seq<Element>) {
    forall i :: 0 < i < |es| ==> !Mergable(es[i - 1], es[i])
  }

  method JoinNeighbors(es: seq<Element>) returns (r: seq<Element>)
    requires ElementsOk(es)
    ensures ElementsOk(r) && Denote(r) == Denote(es) && NoneMergable(r)
  {
    r := [];
    for i := 0 to |es|
      invariant ElementsOk(r) && Denote(r) == Denote(es[..i]) && NoneMergable(r)
    {
      assert es[..i + 1] == es[..i] + [es[i]];
      DenotePush(es[..i], es[i]);
      r := AddJoined(r, es[i]);
    }
    assert es[..|es|] == es;
  }

  method AddJoined(r: seq<Element>, e: Element) returns (r2: seq<Element>)
    requires ElementsOk(r) && ElementOk(e) && NoneMergable(r)
    ensures ElementsOk(r2) && NoneMergable(r2) && Denote(r2) == BitsOf(e) + Denote(r)
  {
    if |r| != 0 && Mergable(r[|r| - 1], e) {
      JoinLast(r, e);
      JoinedStaysApart(r, e);
      r2 := r[..|r| - 1] + [Join(r[|r| - 1], e)];
    } else {
      DenotePush(r, e);
      r2 := r + [e];
    }
  }

  /** A joined element starts where its first part started. */
  lemma JoinedStaysApart(r: seq<Element>, e: Element)
    requires ElementsOk(r) && ElementOk(e) && NoneMergable(r) && |r| != 0 && Mergable(r[|r| - 1], e)
    ensures NoneMergable(r[..|r| - 1] + [Join(r[|r| - 1], e)])
  {
    var r2 := r[..|r| - 1] + [Join(r[|r| - 1], e)];
    forall i | 0 < i < |r2| ensures !Mergable(r2[i - 1], r2[i]) {
      assert !Mergable(r[i - 1], r[i]);
    }
  }
}
