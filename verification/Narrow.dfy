/** Narrowing an expression to the bits its user needs (src/ENode.cpp,
    ENode::usedBitWithFixRoot). */
module Narrow {
  import opened BitMath

  /** Operators with their constants. Head and Tail hold the shift and the number of kept
      bits, as rewritten by Node::updateHeadTail. */
  datatype UnOp = Cvt | AsUInt | AsSInt | Not | Neg | Pad | Tail(keep: nat)
                | Shl(dist: nat) | Shr(dist: nat) | Head(dist: nat) | Bits(hi: int, lo: nat)
                | BitsNoShift(top: nat, low: nat) | Sext | AndR | OrR | XorR

  datatype BinOp = Add | Sub | And | Or | Xor | Mul | Div | Rem | Dshl | Dshr | Lt | Leq | Gt | Geq | Eq | Neq | Cat

  /** A Ref is a node or a literal; those are left alone. */
  datatype Expr = Ref(id: nat, width: int, sign: bool)
                | Unary(op: UnOp, width: int, sign: bool, arg: Expr)
                | Binary(bop: BinOp, width: int, sign: bool, left: Expr, right: Expr)
                | Mux(width: int, sign: bool, cond: Expr, onTrue: Expr, onFalse: Expr)

  // ----- meaning

  /** The bits of x in a field of width w, as an unsigned number. */
  function Field(x: int, w: int): int {
    x % Pow2(w)
  }

  function Parity(x: int, n: int): int
    decreases n
  {
    if n <= 0 then 0 else (x % 2 + Parity(x / 2, n - 1)) % 2
  }

  function Flag(b: bool): int {
    if b then 1 else 0
  }

  function ApplyUn(op: UnOp, x: int, w: int): int {
    match op
    case Cvt => x
    case AsUInt => Field(x, w)
    case AsSInt => x
    case Not => -1 - x
    case Neg => -x
    case Pad => x
    case Tail(n) => x % Pow2(n)
    case Shl(n) => x * Pow2(n)
    case Shr(n) => x / Pow2(n)
    case Head(n) => Field(x, w) / Pow2(n)
    case Bits(hi, lo) => (Field(x, w) / Pow2(lo)) % Pow2(hi - lo + 1)
    case BitsNoShift(hi, lo) => Field(x, w) % Pow2(hi + 1) - Field(x, w) % Pow2(lo)
    case Sext => Wrap(x, w, true)
    case AndR => Flag(Field(x, w) == Pow2(w) - 1)
    case OrR => Flag(x != 0)
    case XorR => Parity(Field(x, w), w)
  }

  function BitAnd(a: int, b: int): int { a * b }
  function BitOr(a: int, b: int): int { a + b - a * b }
  function BitXor(a: int, b: int): int { a + b - 2 * a * b }

  /** Division rounds towards zero; a zero divisor yields zero. */
  function Quotient(x: int, y: int): int {
    if y == 0 then 0
    else if (x >= 0) == (y > 0) then Abs(x) / Abs(y) else -(Abs(x) / Abs(y))
  }

  function Abs(x: int): nat {
    if x >= 0 then x else -x
  }

  function ApplyBin(op: BinOp, x: int, y: int, wx: int, wy: int, w: int): int {
    match op
    case Add => x + y
    case Sub => x - y
    case And => BitOp(BitAnd, x, y, w)
    case Or => BitOp(BitOr, x, y, w)
    case Xor => BitOp(BitXor, x, y, w)
    case Mul => x * y
    case Div => Quotient(x, y)
    case Rem => x - Quotient(x, y) * y
    case Dshl => x * Pow2(y)
    case Dshr => x / Pow2(y)
    case Lt => Flag(x < y)
    case Leq => Flag(x <= y)
    case Gt => Flag(x > y)
    case Geq => Flag(x >= y)
    case Eq => Flag(x == y)
    case Neq => Flag(x != y)
    case Cat => Field(x, wx) * Pow2(wy) + Field(y, wy)
  }

  /** Every result is kept in the width of its operator. */
  function Val(e: Expr, env: nat -> int): int {
    match e
    case Ref(id, w, s) => Wrap(env(id), w, s)
    case Unary(op, w, s, a) => Wrap(ApplyUn(op, Val(a, env), a.width), w, s)
    case Binary(op, w, s, a, b) => Wrap(ApplyBin(op, Val(a, env), Val(b, env), a.width, b.width, w), w, s)
    case Mux(w, s, c, a, b) => Wrap(if Val(c, env) != 0 then Val(a, env) else Val(b, env), w, s)
  }

  // ----- the pass

  /** How many bits of the operand are asked for when w bits of the result are. */
  function AskUn(op: UnOp, sign: bool, aw: int, w: int): int {
    match op
    case Cvt => if sign then w else w - 1
    case AndR => aw
    case OrR => aw
    case XorR => aw
    case AsUInt => w
    case AsSInt => w
    case Not => w
    case Neg => w
    case Pad => w
    case Tail(_) => w
    case Shl(n) => Max(0, w - n)
    case Shr(n) => w + n
    case Head(n) => w + n
    case Bits(hi, lo) => Min(w + lo, hi + 1)
    case BitsNoShift(_, _) => w
    case Sext => w
  }

  function AskLeft(op: BinOp, aw: int, bw: int, w: int): int {
    match op
    case Add => w
    case Sub => w
    case And => w
    case Or => w
    case Xor => w
    case Mul => Min(w, aw)
    case Cat => Max(w - bw, 0)
    case _ => aw
  }

  function AskRight(op: BinOp, bw: int, w: int): int {
    match op
    case Add => w
    case Sub => w
    case And => w
    case Or => w
    case Xor => w
    case Mul => Min(w, bw)
    case Cat => Min(bw, w)
    case _ => bw
  }

  function NarrowOp(op: UnOp, width: int): UnOp {
    match op
    case Bits(hi, lo) => Bits(Min(hi, width - 1 + lo), lo)
    case _ => op
  }

  function NarrowTo(e: Expr, w: int): Expr {
    match e
    case Ref(_, _, _) => e
    case Unary(op, width, s, a) =>
      Unary(NarrowOp(op, Min(width, w)), Min(width, w), s, NarrowTo(a, AskUn(op, a.sign, a.width, w)))
    case Binary(op, width, s, a, b) =>
      Binary(op, Min(width, w), s, NarrowTo(a, AskLeft(op, a.width, b.width, w)), NarrowTo(b, AskRight(op, b.width, w)))
    case Mux(width, s, c, a, b) =>
      Mux(Min(width, w), s, NarrowTo(c, 1), NarrowTo(a, w), NarrowTo(b, w))
  }

  /** Widths are not negative, conditions are one bit wide, and bit ranges not reversed. */
  ghost predicate Typed(e: Expr) {
    e.width >= 0 && match e
    case Ref(_, _, _) => true
    case Unary(op, _, _, a) => Typed(a) && (op.Bits? ==> op.hi >= op.lo)
    case Binary(_, _, _, a, b) => Typed(a) && Typed(b)
    case Mux(_, _, c, a, b) => Typed(c) && Typed(a) && Typed(b) && c.width == 1
  }

  /** Asking an unsigned operand for w - 1 bits loses none of w: it is a node or literal, it is
      narrower than w, or bit w - 1 of its value is zero. */
  ghost predicate CvtFits(a: Expr, w: int, env: nat -> int) {
    a.Ref? || w > a.width || (Val(a, env) / Pow2(w - 1)) % 2 == 0
  }

  /** So it is wherever the pass meets an unsigned cvt of which any bit is asked for. */
  ghost predicate CvtSafe(e: Expr, w: int, env: nat -> int) {
    match e
    case Ref(_, _, _) => true
    case Unary(op, _, _, a) =>
      (op.Cvt? && !a.sign && w == 0)
      || ((op.Cvt? && !a.sign ==> CvtFits(a, w, env)) && CvtSafe(a, AskUn(op, a.sign, a.width, w), env))
    case Binary(op, _, _, a, b) =>
      CvtSafe(a, AskLeft(op, a.width, b.width, w), env) && CvtSafe(b, AskRight(op, b.width, w), env)
    case Mux(_, _, c, a, b) => CvtSafe(c, 1, env) && CvtSafe(a, w, env) && CvtSafe(b, w, env)
  }

  // ----- operand by operand

  /** x1 in a field of w1 bits stands in for x in a field of w bits when `ask` bits count. */
  ghost predicate Serves(x1: int, w1: int, x: int, w: int, ask: int) {
    Cong(x1, x, ask) && w1 >= Min(w, ask) && (ask >= w ==> x1 == x && w1 == w)
  }

  lemma FieldServes(x1: int, w1: int, x: int, w: int, ask: int)
    requires Serves(x1, w1, x, w, ask)
    ensures Cong(Field(x1, w1), Field(x, w), ask)
  {
    if ask >= w {
      CongRefl(Field(x, w), ask);
    } else {
      ModKeeps(x1, w1, ask);
      ModKeeps(x, w, ask);
      CongTrans(Field(x1, w1), x1, x, ask);
      CongSym(Field(x, w), x, ask);
      CongTrans(Field(x1, w1), x, Field(x, w), ask);
    }
  }

  lemma BitsEnough(a: int, b: int, hi: int, lo: nat, width: int, w: int)
    requires hi >= lo && width >= 0 && w >= 0 && Cong(a, b, Min(w + lo, hi + 1))
    ensures var m := Min(width, w);
            Cong((a / Pow2(lo)) % Pow2(Min(hi, m - 1 + lo) - lo + 1), (b / Pow2(lo)) % Pow2(hi - lo + 1), m)
  {
    var m, n := Min(width, w), hi - lo + 1;
    var n1 := Min(hi, m - 1 + lo) - lo + 1;
    assert n1 == Min(n, m) && Min(w + lo, hi + 1) == Min(w, n) + lo;
    CongShr(a, b, Min(w, n), lo);
    var p, q := a / Pow2(lo), b / Pow2(lo);
    CongLess(p, q, Min(w, n), n1);
    CongMod(p, q, n1);
    assert p % Pow2(n1) == q % Pow2(n1);
    if n <= m {
      CongRefl(p % Pow2(n1), m);
    } else {
      ModKeeps(q, n1, m);
      ModKeeps(q, n, m);
      CongSym(q % Pow2(n), q, m);
      CongTrans(q % Pow2(n1), q, q % Pow2(n), m);
    }
  }

  lemma SextEnough(x1: int, w1: int, x: int, w: int, ask: int)
    requires Serves(x1, w1, x, w, ask)
    ensures Cong(Wrap(x1, w1, true), Wrap(x, w, true), ask)
  {
    if ask >= w {
      CongRefl(Wrap(x, w, true), ask);
    } else {
      WrapCong(x1, w1, true);
      CongLess(Wrap(x1, w1, true), x1, w1, ask);
      WrapCong(x, w, true);
      CongLess(Wrap(x, w, true), x, w, ask);
      CongSym(Wrap(x, w, true), x, ask);
      CongTrans(Wrap(x1, w1, true), x1, x, ask);
      CongTrans(Wrap(x1, w1, true), x, Wrap(x, w, true), ask);
    }
  }

  lemma ShiftsEnough(op: UnOp, x1: int, w1: int, x: int, aw: int, w: int)
    requires w >= 0 && (op.Shl? || op.Shr? || op.Head?) && Serves(x1, w1, x, aw, AskUn(op, false, aw, w))
    ensures Cong(ApplyUn(op, x1, w1), ApplyUn(op, x, aw), w)
  {
    var ask := AskUn(op, false, aw, w);
    match op {
      case Shl(n) =>
        CongShl(x1, x, ask, n);
        CongLess(x1 * Pow2(n), x * Pow2(n), ask + n, w);
      case Shr(n) => CongShr(x1, x, w, n);
      case Head(n) =>
        FieldServes(x1, w1, x, aw, ask);
        CongShr(Field(x1, w1), Field(x, aw), w, n);
    }
  }

  /** The bits asked of an operand determine the bits asked of the result. */
  lemma UnaryEnough(op: UnOp, sign: bool, x1: int, w1: int, x: int, aw: int, width: int, w: int)
    requires w >= 0 && width >= 0 && aw >= 0 && (op.Bits? ==> op.hi >= op.lo) && (op.Cvt? && !sign ==> w > aw)
    requires Serves(x1, w1, x, aw, AskUn(op, sign, aw, w))
    ensures Cong(ApplyUn(NarrowOp(op, Min(width, w)), x1, w1), ApplyUn(op, x, aw), Min(width, w))
  {
    var ask, m := AskUn(op, sign, aw, w), Min(width, w);
    match op {
      case Bits(hi, lo) =>
        FieldServes(x1, w1, x, aw, ask);
        BitsEnough(Field(x1, w1), Field(x, aw), hi, lo, width, w);
      case Shl(_) => ShiftsEnough(op, x1, w1, x, aw, w); CongLess(ApplyUn(op, x1, w1), ApplyUn(op, x, aw), w, m);
      case Shr(_) => ShiftsEnough(op, x1, w1, x, aw, w); CongLess(ApplyUn(op, x1, w1), ApplyUn(op, x, aw), w, m);
      case Head(_) => ShiftsEnough(op, x1, w1, x, aw, w); CongLess(ApplyUn(op, x1, w1), ApplyUn(op, x, aw), w, m);
      case AndR => CongRefl(ApplyUn(op, x, aw), m);
      case OrR => CongRefl(ApplyUn(op, x, aw), m);
      case XorR => CongRefl(ApplyUn(op, x, aw), m);
      case _ => PlainEnough(op, sign, x1, w1, x, aw, w); CongLess(ApplyUn(op, x1, w1), ApplyUn(op, x, aw), w, m);
    }
  }

  lemma PlainEnough(op: UnOp, sign: bool, x1: int, w1: int, x: int, aw: int, w: int)
    requires w >= 0 && aw >= 0 && (op.Cvt? && !sign ==> w > aw) && Serves(x1, w1, x, aw, AskUn(op, sign, aw, w))
    requires op.Cvt? || op.AsUInt? || op.AsSInt? || op.Not? || op.Neg? || op.Pad? || op.Tail? || op.BitsNoShift?
             || op.Sext?
    ensures Cong(ApplyUn(op, x1, w1), ApplyUn(op, x, aw), w)
  {
    match op {
      case Cvt => if !sign { CongRefl(x, w); }
      case AsUInt => FieldServes(x1, w1, x, aw, w);
      case AsSInt =>
      case Not => CongRefl(-1, w); CongSum(-1, -1, x1, x, w);
      case Neg => CongRefl(0, w); CongSum(0, 0, x1, x, w);
      case Pad =>
      case Tail(n) => CongModulo(x1, x, n, w);
      case BitsNoShift(hi, lo) =>
        FieldServes(x1, w1, x, aw, w);
        var f1, f := Field(x1, w1), Field(x, aw);
        CongModulo(f1, f, hi + 1, w);
        CongModulo(f1, f, lo, w);
        CongSum(f1 % Pow2(hi + 1), f % Pow2(hi + 1), f1 % Pow2(lo), f % Pow2(lo), w);
      case Sext => SextEnough(x1, w1, x, aw, w);
    }
  }

  lemma CatEnough(x1: int, wx1: int, x: int, wx: int, y1: int, wy1: int, y: int, wy: int, w: int)
    requires w >= 0 && wx >= 0 && wy >= 0
    requires Serves(x1, wx1, x, wx, Max(w - wy, 0)) && Serves(y1, wy1, y, wy, Min(wy, w))
    ensures Cong(ApplyBin(Cat, x1, y1, wx1, wy1, 0), ApplyBin(Cat, x, y, wx, wy, 0), w)
  {
    var hi1, hi, lo1, lo := Field(x1, wx1), Field(x, wx), Field(y1, wy1), Field(y, wy);
    FieldServes(y1, wy1, y, wy, Min(wy, w));
    if w >= wy {
      FieldServes(x1, wx1, x, wx, w - wy);
      CongShl(hi1, hi, w - wy, wy);
      CongRefl(lo, w);
      CongSum(hi1 * Pow2(wy), hi * Pow2(wy), lo, lo, w);
    } else {
      HighIsLost(hi1, wy1, w);
      HighIsLost(hi, wy, w);
      CongSym(hi * Pow2(wy), 0, w);
      CongTrans(hi1 * Pow2(wy1), 0, hi * Pow2(wy), w);
      CongSum(hi1 * Pow2(wy1), hi * Pow2(wy), lo1, lo, w);
    }
  }

  lemma HighIsLost(x: int, s: int, w: int)
    requires 0 <= w <= s
    ensures Cong(x * Pow2(s), 0, w)
  {
    Pow2Add(s - w, w);
    Associate(x, Pow2(s - w), Pow2(w));
    assert CongBy(x * Pow2(s), 0, w, x * Pow2(s - w));
  }

  lemma BinaryEnough(op: BinOp, x1: int, wx1: int, x: int, wx: int, y1: int, wy1: int, y: int, wy: int, width: int,
                     w: int)
    requires w >= 0 && width >= 0 && wx >= 0 && wy >= 0
    requires Serves(x1, wx1, x, wx, AskLeft(op, wx, wy, w)) && Serves(y1, wy1, y, wy, AskRight(op, wy, w))
    ensures Cong(ApplyBin(op, x1, y1, wx1, wy1, Min(width, w)), ApplyBin(op, x, y, wx, wy, width), Min(width, w))
  {
    var m := Min(width, w);
    match op {
      case Add => CongSum(x1, x, y1, y, w); CongLess(x1 + y1, x + y, w, m);
      case Sub => CongSum(x1, x, y1, y, w); CongLess(x1 - y1, x - y, w, m);
      case And => CongLess(x1, x, w, m); CongLess(y1, y, w, m); BitOpCong(BitAnd, x1, x, y1, y, m, width);
      case Or => CongLess(x1, x, w, m); CongLess(y1, y, w, m); BitOpCong(BitOr, x1, x, y1, y, m, width);
      case Xor => CongLess(x1, x, w, m); CongLess(y1, y, w, m); BitOpCong(BitXor, x1, x, y1, y, m, width);
      case Mul =>
        MinServes(x1, wx1, x, wx, w);
        MinServes(y1, wy1, y, wy, w);
        CongProduct(x1, x, y1, y, w);
        CongLess(x1 * y1, x * y, w, m);
      case Cat =>
        CatEnough(x1, wx1, x, wx, y1, wy1, y, wy, w);
        CongLess(ApplyBin(Cat, x1, y1, wx1, wy1, 0), ApplyBin(Cat, x, y, wx, wy, 0), w, m);
      case _ => CongRefl(ApplyBin(op, x, y, wx, wy, width), m);
    }
  }

  lemma MinServes(x1: int, w1: int, x: int, wx: int, w: int)
    requires Serves(x1, w1, x, wx, Min(w, wx))
    ensures Cong(x1, x, w)
  {
    if w > wx {
      CongRefl(x, w);
    }
  }

  // ----- unsigned cvt: asking for w - 1 bits is not always enough

  function CvtOf(a: Expr): Expr {
    Unary(Cvt, a.width + 1, true, a)
  }

  lemma UnsignedRange(x: int, w: int)
    ensures 0 <= Wrap(x, w, false) < Pow2(w)
  {
  }

  lemma ValInRange(e: Expr, env: nat -> int)
    requires !e.sign
    ensures 0 <= Val(e, env) < Pow2(e.width)
  {
    match e {
      case Ref(id, w, _) => UnsignedRange(env(id), w);
      case Unary(op, w, _, a) => UnsignedRange(ApplyUn(op, Val(a, env), a.width), w);
      case Binary(op, w, _, a, b) => UnsignedRange(ApplyBin(op, Val(a, env), Val(b, env), a.width, b.width, w), w);
      case Mux(w, _, c, a, b) => UnsignedRange(if Val(c, env) != 0 then Val(a, env) else Val(b, env), w);
    }
  }

  /** Small numbers are not changed by wrapping. */
  lemma WrapSmall(x: int, w: int, n: int)
    requires 0 <= x < Pow2(n) && 0 <= n < w
    ensures Wrap(x, w, true) == x
  {
    Pow2Grows(n, w - 1);
    DivUnique(x, Pow2(w), 0, x);
  }

  /** Dropping bit n keeps n + 1 bits exactly when that bit is zero. */
  lemma DropTopBit(x: int, n: nat)
    requires x >= 0
    ensures Cong(x % Pow2(n), x, n + 1) <==> (x / Pow2(n)) % 2 == 0
  {
    var p := Pow2(n);
    var q := x / p;
    assert x == q * p + x % p;
    if q % 2 == 0 {
      Associate(q / 2, 2, p);
      assert CongBy(x % p, x, n + 1, -(q / 2)) by {
        Negate(q / 2, 2 * p);
      }
    }
    if Cong(x % p, x, n + 1) {
      var k :| CongBy(x % p, x, n + 1, k);
      Associate(k, 2, p);
      Negate(q, p);
      SameFactor(-q, k * 2, p);
    }
  }

  lemma Negate(a: int, p: int)
    ensures (-a) * p == -(a * p)
  {
  }

  lemma SameFactor(a: int, b: int, p: int)
    requires p > 0 && a * p == b * p
    ensures a == b
  {
    assert (a - b) * p == 0;
  }

  // ----- whole expressions

  /** What w bits of an unsigned cvt are made of, given that w - 1 bits of its operand are right. */
  lemma CvtOperand(a: Expr, w: nat, env: nat -> int)
    requires Typed(a) && !a.sign && w >= 1
    requires var a1 := NarrowTo(a, w - 1);
             !a1.sign && Serves(Val(a1, env), a1.width, Val(a, env), a.width, w - 1)
    ensures Cong(Val(NarrowTo(a, w - 1), env), Val(a, env), w) <==> CvtFits(a, w, env)
  {
    var a1 := NarrowTo(a, w - 1);
    var x1, x := Val(a1, env), Val(a, env);
    if a.Ref? || w > a.width {
      CongRefl(x, w);
    } else {
      ValInRange(a, env);
      ValInRange(a1, env);
      CongMod(x1, x, w - 1);
      DivUnique(x1, Pow2(w - 1), 0, x1);
      assert x1 == x % Pow2(w - 1);
      DropTopBit(x, w - 1);
    }
  }

  lemma WrapNone(x: int, s: bool)
    ensures Wrap(x, 0, s) == 0
  {
  }

  lemma NoBits(e: Expr, env: nat -> int)
    requires Typed(e) && !e.Ref?
    ensures Serves(Val(NarrowTo(e, 0), env), NarrowTo(e, 0).width, Val(e, env), e.width, 0)
  {
    var x1, x := Val(NarrowTo(e, 0), env), Val(e, env);
    assert CongBy(x1, x, 0, x1 - x);
    if e.width == 0 {
      ValNone(e, env);
      ValNone(NarrowTo(e, 0), env);
    }
  }

  lemma ValNone(e: Expr, env: nat -> int)
    requires e.width == 0
    ensures Val(e, env) == 0
  {
    match e {
      case Ref(id, _, s) => WrapNone(env(id), s);
      case Unary(op, _, s, a) => WrapNone(ApplyUn(op, Val(a, env), a.width), s);
      case Binary(op, _, s, a, b) => WrapNone(ApplyBin(op, Val(a, env), Val(b, env), a.width, b.width, 0), s);
      case Mux(_, s, c, a, b) => WrapNone(if Val(c, env) != 0 then Val(a, env) else Val(b, env), s);
    }
  }

  lemma CvtKeeps(a: Expr, width: int, s: bool, w: int, env: nat -> int)
    requires Typed(a) && width >= 0 && w >= 1 && !a.sign && CvtFits(a, w, env)
    requires var a1 := NarrowTo(a, w - 1);
             !a1.sign && Serves(Val(a1, env), a1.width, Val(a, env), a.width, w - 1)
    ensures var e := Unary(Cvt, width, s, a);
            Serves(Val(NarrowTo(e, w), env), NarrowTo(e, w).width, Val(e, env), width, w)
  {
    var x1, x := Val(NarrowTo(a, w - 1), env), Val(a, env);
    CvtOperand(a, w, env);
    CongLess(x1, x, w, Min(width, w));
    WrapNarrow(x1, x, width, w, s);
  }

  /** The narrowed expression agrees with the original in all the bits asked for. */
  lemma {:induction false} NarrowKeeps(e: Expr, w: int, env: nat -> int)
    requires Typed(e) && w >= 0 && CvtSafe(e, w, env)
    ensures Serves(Val(NarrowTo(e, w), env), NarrowTo(e, w).width, Val(e, env), e.width, w)
    ensures NarrowTo(e, w).sign == e.sign
    decreases e
  {
    match e {
      case Ref(_, _, _) => CongRefl(Val(e, env), w);
      case Unary(op, width, s, a) =>
        if op.Cvt? && !a.sign && w == 0 {
          NoBits(e, env);
        } else {
          var ask := AskUn(op, a.sign, a.width, w);
          NarrowKeeps(a, ask, env);
          var a1 := NarrowTo(a, ask);
          if op.Cvt? && !a.sign {
            CvtKeeps(a, width, s, w, env);
          } else {
            UnaryEnough(op, a.sign, Val(a1, env), a1.width, Val(a, env), a.width, width, w);
            WrapNarrow(ApplyUn(NarrowOp(op, Min(width, w)), Val(a1, env), a1.width),
                       ApplyUn(op, Val(a, env), a.width), width, w, s);
          }
        }
      case Binary(op, width, s, a, b) =>
        var askA, askB := AskLeft(op, a.width, b.width, w), AskRight(op, b.width, w);
        NarrowKeeps(a, askA, env);
        NarrowKeeps(b, askB, env);
        var a1, b1 := NarrowTo(a, askA), NarrowTo(b, askB);
        BinaryEnough(op, Val(a1, env), a1.width, Val(a, env), a.width, Val(b1, env), b1.width, Val(b, env), b.width,
                     width, w);
        WrapNarrow(ApplyBin(op, Val(a1, env), Val(b1, env), a1.width, b1.width, Min(width, w)),
                   ApplyBin(op, Val(a, env), Val(b, env), a.width, b.width, width), width, w, s);
      case Mux(width, s, c, a, b) =>
        NarrowKeeps(c, 1, env);
        NarrowKeeps(a, w, env);
        NarrowKeeps(b, w, env);
        var x1 := if Val(c, env) != 0 then Val(NarrowTo(a, w), env) else Val(NarrowTo(b, w), env);
        var x := if Val(c, env) != 0 then Val(a, env) else Val(b, env);
        CongLess(x1, x, w, Min(width, w));
        WrapNarrow(x1, x, width, w, s);
    }
  }

  /** Every operator of the narrowed tree has as many bits as are asked of it, and no more;
      references keep their width. */
  ghost predicate Narrowed(e: Expr, r: Expr, w: int) {
    match e
    case Ref(_, _, _) => r == e
    case Unary(op, width, _, a) =>
      r.Unary? && r.width == Min(width, w) && Narrowed(a, r.arg, AskUn(op, a.sign, a.width, w))
    case Binary(op, width, _, a, b) =>
      && r.Binary? && r.width == Min(width, w)
      && Narrowed(a, r.left, AskLeft(op, a.width, b.width, w)) && Narrowed(b, r.right, AskRight(op, b.width, w))
    case Mux(width, _, c, a, b) =>
      r.Mux? && r.width == Min(width, w) && Narrowed(c, r.cond, 1) && Narrowed(a, r.onTrue, w)
        && Narrowed(b, r.onFalse, w)
  }

  lemma {:induction false} NarrowIsTight(e: Expr, w: int)
    ensures Narrowed(e, NarrowTo(e, w), w)
    decreases e
  {
    match e {
      case Ref(_, _, _) =>
      case Unary(op, _, _, a) => NarrowIsTight(a, AskUn(op, a.sign, a.width, w));
      case Binary(op, _, _, a, b) =>
        NarrowIsTight(a, AskLeft(op, a.width, b.width, w));
        NarrowIsTight(b, AskRight(op, b.width, w));
      case Mux(_, _, c, a, b) =>
        NarrowIsTight(c, 1);
        NarrowIsTight(a, w);
        NarrowIsTight(b, w);
    }
  }

  /** Asking for the full width changes nothing. */
  lemma FullWidthIsExact(e: Expr, env: nat -> int)
    requires Typed(e) && CvtSafe(e, e.width, env)
    ensures Val(NarrowTo(e, e.width), env) == Val(e, env)
  {
    NarrowKeeps(e, e.width, env);
  }

  /** An unsigned cvt is narrowed correctly exactly when its operand is a node or literal,
      more bits are asked for than the operand has, or bit w - 1 of the operand is zero. */
  lemma CvtExact(a: Expr, w: nat, env: nat -> int)
    requires Typed(a) && !a.sign && w >= 1 && CvtSafe(a, w - 1, env)
    ensures Cong(Val(NarrowTo(CvtOf(a), w), env), Val(CvtOf(a), env), w) <==> CvtFits(a, w, env)
  {
    var e, x := CvtOf(a), Val(a, env);
    NarrowKeeps(a, w - 1, env);
    if a.Ref? || w > a.width {
      CvtKeeps(a, a.width + 1, true, w, env);
    } else {
      var a1 := NarrowTo(a, w - 1);
      ValInRange(a, env);
      ValInRange(a1, env);
      CvtOperand(a, w, env);
      WrapSmall(Val(a1, env), w, w - 1);
      WrapSmall(x, a.width + 1, a.width);
    }
  }

  /** For the complement of an input of any width: correct in every evaluation exactly when
      more bits are asked for than the input has. */
  lemma CvtOfNotCondition(cw: nat, w: nat)
    requires w >= 1
    ensures var e := CvtOf(Unary(Not, cw, false, Ref(0, cw, false)));
            (forall env :: Cong(Val(NarrowTo(e, w), env), Val(e, env), w)) <==> w > cw
  {
    var a := Unary(Not, cw, false, Ref(0, cw, false));
    var e := CvtOf(a);
    forall env | w > cw ensures Cong(Val(NarrowTo(e, w), env), Val(e, env), w) {
      CvtExact(a, w, env);
    }
    if w <= cw {
      var zero := (n: nat) => 0;
      CvtExact(a, w, zero);
      assert 0 % Pow2(cw) == 0 && Val(Ref(0, cw, false), zero) == 0;
      AllOnes(cw, w - 1);
      assert Val(a, zero) == Pow2(cw) - 1;
      assert !Cong(Val(NarrowTo(e, w), zero), Val(e, zero), w);
    }
  }

  lemma AllOnes(cw: nat, n: nat)
    requires n < cw
    ensures (-1) % Pow2(cw) == Pow2(cw) - 1 && ((Pow2(cw) - 1) / Pow2(n)) % 2 == 1
  {
    DivUnique(-1, Pow2(cw), -1, Pow2(cw) - 1);
    Pow2Add(cw - n, n);
    OnesShifted(Pow2(cw), Pow2(n), Pow2(cw - n - 1));
  }

  lemma OnesShifted(p: int, q: int, h: int)
    requires q > 0 && h > 0 && p == (2 * h) * q
    ensures ((p - 1) / q) % 2 == 1
  {
    assert (2 * h - 1) * q == (2 * h) * q - q;
    DivUnique(p - 1, q, 2 * h - 1, q - 1);
  }
}
