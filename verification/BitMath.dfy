/** Arithmetic modulo powers of two. */
module BitMath {

  function Pow2(n: int): (p: int)
    ensures p > 0
  {
    if n <= 0 then 1 else 2 * Pow2(n - 1)
  }

  /** x and y agree in their n low bits. */
  ghost predicate Cong(x: int, y: int, n: int) {
    exists k :: CongBy(x, y, n, k)
  }

  ghost predicate CongBy(x: int, y: int, n: int, k: int) {
    x - y == k * Pow2(n)
  }

  /** The value of the w low bits, read as a signed or an unsigned number. */
  function Wrap(x: int, w: int, sign: bool): int {
    if w <= 0 then 0
    else
      var u := x % Pow2(w);
      if sign && u >= Pow2(w - 1) then u - Pow2(w) else u
  }

  function Min(a: int, b: int): int {
    if a <= b then a else b
  }

  function Max(a: int, b: int): int {
    if a >= b then a else b
  }

  // ----- powers and remainders

  lemma {:induction false} Pow2Add(a: int, b: int)
    requires a >= 0 && b >= 0
    ensures Pow2(a + b) == Pow2(a) * Pow2(b)
    decreases a
  {
    if a > 0 {
      Pow2Add(a - 1, b);
    }
  }

  lemma {:induction false} Pow2Grows(a: int, b: int)
    requires a <= b
    ensures Pow2(a) <= Pow2(b)
    decreases b
  {
    if a < b && b > 0 {
      Pow2Grows(a, b - 1);
    }
  }

  lemma DivUnique(x: int, p: int, q: int, r: int)
    requires p > 0 && 0 <= r < p && x == q * p + r
    ensures x / p == q && x % p == r
  {
    var d := x / p - q;
    assert d >= 1 ==> d * p >= p;
    assert d <= -1 ==> d * p <= -p;
    assert x == (x / p) * p + x % p;
    assert d * p == r - x % p;
  }

  lemma Distribute(x: int, y: int, d: int)
    ensures (x + y) * d == x * d + y * d
  {
  }

  lemma Associate(x: int, y: int, d: int)
    ensures (x * y) * d == x * (y * d)
  {
  }

  lemma Grow(x: int, y: int, d: int)
    requires x <= y && d >= 0
    ensures x * d <= y * d
  {
  }

  /** Dividing by d and then by p is dividing by p * d. */
  lemma DivTwice(i: nat, p: nat, d: nat)
    requires p > 0 && d > 0
    ensures p * d > 0 && i / (p * d) == (i / d) / p
  {
    var q, r := i / d, i % d;
    var a, b := q / p, q % p;
    assert i == q * d + r && q == a * p + b;
    TwoDigits(a, b, r, p, d);
    DivUnique(i, p * d, a, b * d + r);
  }

  lemma TwoDigits(a: int, b: int, r: int, p: int, d: int)
    requires 0 <= b < p && 0 <= r < d
    ensures (a * p + b) * d + r == a * (p * d) + (b * d + r) && 0 <= b * d + r < p * d
  {
    Distribute(a * p, b, d);
    Associate(a, p, d);
    Grow(b, p - 1, d);
    Grow(0, b, d);
    Distribute(p, -1, d);
  }

  lemma CongMod(x: int, y: int, n: int)
    ensures Cong(x, y, n) <==> x % Pow2(n) == y % Pow2(n)
  {
    var p := Pow2(n);
    if Cong(x, y, n) {
      var k :| CongBy(x, y, n, k);
      assert x == (y / p + k) * p + y % p;
      DivUnique(x, p, y / p + k, y % p);
    }
    if x % p == y % p {
      assert x - y == (x / p - y / p) * p;
      assert CongBy(x, y, n, x / p - y / p);
    }
  }

  lemma CongRefl(x: int, n: int)
    ensures Cong(x, x, n)
  {
    assert CongBy(x, x, n, 0);
  }

  lemma CongSym(x: int, y: int, n: int)
    requires Cong(x, y, n)
    ensures Cong(y, x, n)
  {
    CongMod(x, y, n);
    CongMod(y, x, n);
  }

  lemma CongTrans(x: int, y: int, z: int, n: int)
    requires Cong(x, y, n) && Cong(y, z, n)
    ensures Cong(x, z, n)
  {
    CongMod(x, y, n);
    CongMod(y, z, n);
    CongMod(x, z, n);
  }

  /** Fewer bits agree when more do. */
  lemma CongLess(x: int, y: int, n: int, m: int)
    requires Cong(x, y, n) && m <= n
    ensures Cong(x, y, m)
  {
    var k :| CongBy(x, y, n, k);
    if m >= 0 {
      Pow2Add(n - m, m);
      assert x - y == (k * Pow2(n - m)) * Pow2(m);
      assert CongBy(x, y, m, k * Pow2(n - m));
    } else {
      assert CongBy(x, y, m, x - y);
    }
  }

  lemma CongSum(x: int, y: int, a: int, b: int, n: int)
    requires Cong(x, y, n) && Cong(a, b, n)
    ensures Cong(x + a, y + b, n) && Cong(x - a, y - b, n)
  {
    var p := Pow2(n);
    var k :| CongBy(x, y, n, k);
    var j :| CongBy(a, b, n, j);
    assert (k + j) * p == k * p + j * p && (k - j) * p == k * p - j * p;
    assert CongBy(x + a, y + b, n, k + j) && CongBy(x - a, y - b, n, k - j);
  }

  lemma CongProduct(x: int, y: int, a: int, b: int, n: int)
    requires Cong(x, y, n) && Cong(a, b, n)
    ensures Cong(x * a, y * b, n)
  {
    var p := Pow2(n);
    var k :| CongBy(x, y, n, k);
    var j :| CongBy(a, b, n, j);
    ProductWitness(x, y, a, b, k, j, p);
    assert CongBy(x * a, y * b, n, k * a + y * j);
  }

  lemma ProductWitness(x: int, y: int, a: int, b: int, k: int, j: int, p: int)
    requires x - y == k * p && a - b == j * p
    ensures x * a - y * b == (k * a + y * j) * p
  {
    assert x * a - y * b == (x - y) * a + y * (a - b);
    assert (k * p) * a == (k * a) * p && y * (j * p) == (y * j) * p;
  }

  lemma ShlArith(x: int, y: int, k: int, p: int, q: int)
    requires x - y == k * p
    ensures x * q - y * q == k * (p * q)
  {
    assert x * q - y * q == (x - y) * q;
    assert (k * p) * q == k * (p * q);
  }

  /** A left shift by s adds s agreeing bits. */
  lemma CongShl(x: int, y: int, n: int, s: int)
    requires s >= 0 && n >= 0 && Cong(x, y, n)
    ensures Cong(x * Pow2(s), y * Pow2(s), n + s)
  {
    var k :| CongBy(x, y, n, k);
    Pow2Add(n, s);
    ShlArith(x, y, k, Pow2(n), Pow2(s));
    assert CongBy(x * Pow2(s), y * Pow2(s), n + s, k);
  }

  lemma ShrArith(x: int, y: int, k: int, p: int, q: int)
    requires q > 0 && x - y == k * (p * q)
    ensures x / q - y / q == k * p
  {
    var j := k * p;
    assert k * (p * q) == j * q;
    assert y == (y / q) * q + y % q;
    assert (y / q + j) * q == (y / q) * q + j * q;
    DivUnique(x, q, y / q + j, y % q);
  }

  /** A right shift by s loses s of them. */
  lemma CongShr(x: int, y: int, n: int, s: int)
    requires s >= 0 && n >= 0 && Cong(x, y, n + s)
    ensures Cong(x / Pow2(s), y / Pow2(s), n)
  {
    var k :| CongBy(x, y, n + s, k);
    Pow2Add(n, s);
    ShrArith(x, y, k, Pow2(n), Pow2(s));
    assert CongBy(x / Pow2(s), y / Pow2(s), n, k);
  }

  /** Dropping the bits from position m on. */
  lemma ModKeeps(x: int, m: int, n: int)
    requires n <= m
    ensures Cong(x % Pow2(m), x, n)
  {
    var p := Pow2(m);
    assert x % p == x - (x / p) * p;
    assert CongBy(x % p, x, m, -(x / p));
    CongLess(x % p, x, m, n);
  }

  /** The same, for numbers that agree in n bits only. */
  lemma CongModulo(x: int, y: int, m: int, n: int)
    requires Cong(x, y, n)
    ensures Cong(x % Pow2(m), y % Pow2(m), n)
  {
    if m <= n {
      CongLess(x, y, n, m);
      CongMod(x, y, m);
      CongRefl(x % Pow2(m), n);
    } else {
      ModKeeps(x, m, n);
      ModKeeps(y, m, n);
      CongTrans(x % Pow2(m), x, y, n);
      CongSym(y % Pow2(m), y, n);
      CongTrans(x % Pow2(m), y, y % Pow2(m), n);
    }
  }

  // ----- wrapping

  lemma WrapCong(x: int, w: int, sign: bool)
    ensures Cong(Wrap(x, w, sign), x, w)
  {
    if w <= 0 {
      assert CongBy(0, x, w, -x);
    } else {
      var p := Pow2(w);
      assert x == (x / p) * p + x % p;
      assert CongBy(x % p, x, w, -(x / p));
      assert x % p - p - x == (-(x / p) - 1) * p;
      assert CongBy(x % p - p, x, w, -(x / p) - 1);
    }
  }

  lemma WrapEqual(x: int, y: int, w: int, sign: bool)
    requires Cong(x, y, w)
    ensures Wrap(x, w, sign) == Wrap(y, w, sign)
  {
    CongMod(x, y, w);
  }

  /** A result wrapped to fewer bits agrees with the full one as far as it goes; asking for
      more bits than there are changes nothing. */
  lemma WrapNarrow(x: int, y: int, width: int, w: int, sign: bool)
    requires Cong(x, y, Min(width, w))
    ensures Cong(Wrap(x, Min(width, w), sign), Wrap(y, width, sign), w)
    ensures w >= width ==> Wrap(x, Min(width, w), sign) == Wrap(y, width, sign)
  {
    if w >= width {
      WrapEqual(x, y, width, sign);
      CongRefl(Wrap(x, width, sign), w);
    } else {
      WrapCong(x, w, sign);
      CongTrans(Wrap(x, w, sign), x, y, w);
      WrapCong(y, width, sign);
      CongLess(Wrap(y, width, sign), y, width, w);
      CongSym(Wrap(y, width, sign), y, w);
      CongTrans(Wrap(x, w, sign), y, Wrap(y, width, sign), w);
    }
  }

  // ----- bitwise operations

  /** Combines n bits of two numbers. */
  function BitOp(f: (int, int) -> int, x: int, y: int, n: int): int
    decreases n
  {
    if n <= 0 then 0 else f(x % 2, y % 2) + 2 * BitOp(f, x / 2, y / 2, n - 1)
  }

  /** Bit i of the result depends on bit i of the operands. */
  lemma {:induction false} BitOpCong(f: (int, int) -> int, x: int, y: int, a: int, b: int, m: int, n: int)
    requires 0 <= m <= n && Cong(x, y, m) && Cong(a, b, m)
    ensures Cong(BitOp(f, x, a, m), BitOp(f, y, b, n), m)
    decreases m
  {
    if m == 0 {
      assert CongBy(BitOp(f, x, a, m), BitOp(f, y, b, n), 0, -BitOp(f, y, b, n));
    } else {
      Halves(x, y, m);
      Halves(a, b, m);
      BitOpCong(f, x / 2, y / 2, a / 2, b / 2, m - 1, n - 1);
      var lo := f(x % 2, a % 2);
      var hx, hy := BitOp(f, x / 2, a / 2, m - 1), BitOp(f, y / 2, b / 2, n - 1);
      var k :| CongBy(hx, hy, m - 1, k);
      assert CongBy(lo + 2 * hx, lo + 2 * hy, m, k);
    }
  }

  lemma Halves(x: int, y: int, m: int)
    requires m > 0 && Cong(x, y, m)
    ensures x % 2 == y % 2 && Cong(x / 2, y / 2, m - 1)
  {
    var k :| CongBy(x, y, m, k);
    var j := k * Pow2(m - 1);
    assert k * (2 * Pow2(m - 1)) == 2 * j;
    assert x == y + 2 * j;
    assert CongBy(x / 2, y / 2, m - 1, k);
  }
}
