/** Unsigned C integers: fixed widths, bitwise operators on natural numbers, and the
    arithmetic meaning of masks and disjoint fields. */
module Bits {

  const TWO_32: nat := 0x1_0000_0000
  const TWO_39: nat := 0x80_0000_0000

  type U32 = x: nat | x < 0x1_0000_0000

  /** Conversion of a non-negative value to a 32-bit unsigned type. */
  function Trunc32(x: nat): U32 {
    x % TWO_32
  }

  /** 32-bit unsigned subtraction. */
  function Sub32(a: nat, b: nat): U32 {
    (a - b) % TWO_32
  }

  /** Conversion to a 32-bit two's complement `int`. */
  function ToInt32(x: int): int {
    var u := x % TWO_32;
    if u < 0x8000_0000 then u else u - TWO_32
  }

  lemma Trunc32Same(x: nat)
    requires x < TWO_32
    ensures Trunc32(x) == x
  {
  }

  function Pow2(k: nat): (r: nat)
    ensures 0 < r
  {
    if k == 0 then 1 else 2 * Pow2(k - 1)
  }

  function And(a: nat, b: nat): nat {
    if a == 0 || b == 0 then 0 else 2 * And(a / 2, b / 2) + (if a % 2 == 1 && b % 2 == 1 then 1 else 0)
  }

  function Or(a: nat, b: nat): nat {
    if a == 0 then b
    else if b == 0 then a
    else 2 * Or(a / 2, b / 2) + (if a % 2 == 1 || b % 2 == 1 then 1 else 0)
  }

  function Quotient(x: nat, n: nat): nat
    requires 0 < n
  {
    x / n
  }

  function Shr(x: nat, s: nat): nat {
    Quotient(x, Pow2(s))
  }

  function Shl(x: nat, s: nat): nat {
    x * Pow2(s)
  }

  /** Bits `hi` down to `lo` of a word, as a number. */
  function Field(x: nat, hi: nat, lo: nat): nat
    requires lo <= hi
  {
    x / Pow2(lo) % Pow2(hi - lo + 1)
  }

  lemma {:induction false} Pow2Add(a: nat, b: nat)
    ensures Pow2(a + b) == Pow2(a) * Pow2(b)
  {
    if a == 0 {
    } else {
      Pow2Add(a - 1, b);
      assert Pow2(a + b) == 2 * Pow2(a - 1 + b);
    }
  }

  lemma {:induction false} Pow2Monotone(a: nat, b: nat)
    requires a <= b
    ensures Pow2(a) <= Pow2(b)
  {
    if a < b {
      Pow2Monotone(a, b - 1);
    }
  }

  lemma OrHalves(a: nat, b: nat, m: nat, n: nat)
    ensures Or(a + 2 * m, b + 2 * n)
         == 2 * Or(a / 2 + m, b / 2 + n) + (if a % 2 == 1 || b % 2 == 1 then 1 else 0)
  {
    assert (a + 2 * m) / 2 == a / 2 + m && (b + 2 * n) / 2 == b / 2 + n;
  }

  lemma AndHalves(a: nat, b: nat, m: nat, n: nat)
    ensures And(a + 2 * m, b + 2 * n)
         == 2 * And(a / 2 + m, b / 2 + n) + (if a % 2 == 1 && b % 2 == 1 then 1 else 0)
  {
    assert (a + 2 * m) / 2 == a / 2 + m && (b + 2 * n) / 2 == b / 2 + n;
  }

  lemma HalfOfShl(s: nat, x: nat)
    requires 0 < s
    ensures Shl(x, s) == 2 * Shl(x, s - 1)
  {
    assert x * Pow2(s) == x * (2 * Pow2(s - 1));
  }

  lemma ShlByNone(x: nat)
    ensures Shl(x, 0) == x
  {
  }

  /** The powers of two the driver's constants are made of. */
  lemma Powers()
    ensures Pow2(0) == 1 && Pow2(1) == 2 && Pow2(2) == 4 && Pow2(3) == 8 && Pow2(4) == 16 && Pow2(5) == 32
    ensures Pow2(7) == 128 && Pow2(8) == 256 && Pow2(9) == 512 && Pow2(11) == 2048 && Pow2(12) == 4096
    ensures Pow2(17) == 0x2_0000 && Pow2(18) == 0x4_0000 && Pow2(19) == 0x8_0000
    ensures Pow2(20) == 0x10_0000 && Pow2(21) == 0x20_0000 && Pow2(25) == 0x200_0000
    ensures Pow2(28) == 0x1000_0000 && Pow2(32) == TWO_32
  {
    assert Pow2(8) == 256;
    Pow2Add(8, 1);
    Pow2Add(8, 3);
    Pow2Add(8, 4);
    Pow2Add(8, 9);
    Pow2Add(1, 17);
    Pow2Add(1, 18);
    Pow2Add(8, 12);
    Pow2Add(1, 20);
    Pow2Add(5, 20);
    Pow2Add(8, 20);
    Pow2Add(4, 28);
  }

  lemma Halved(s: nat, a: nat)
    requires a < Pow2(s)
    ensures if s == 0 then a == 0 && Pow2(s) == 1 else a / 2 < Pow2(s - 1)
  {
  }

  lemma OrZeros()
    ensures Or(0, 0) == 0
  {
  }

  lemma OrDoubled(a: nat, b: nat, m: nat, n: nat, high: nat)
    requires Or(a / 2 + m, b / 2 + n) == Or(a / 2, b / 2) + high
    ensures Or(a + 2 * m, b + 2 * n) == Or(a, b) + 2 * high
  {
    hide Or;
    OrHalves(a, b, m, n);
    OrHalves(a, b, 0, 0);
  }

  lemma {:induction false} OrSplitShl(s: nat, a: nat, b: nat, x: nat, y: nat)
    requires a < Pow2(s) && b < Pow2(s)
    ensures Or(a + Shl(x, s), b + Shl(y, s)) == Or(a, b) + Shl(Or(x, y), s)
    decreases s
  {
    Halved(s, a);
    Halved(s, b);
    hide Or, Pow2, Shl;
    if s == 0 {
      OrZeros();
      ShlByNone(x);
      ShlByNone(y);
      ShlByNone(Or(x, y));
    } else {
      HalfOfShl(s, x);
      HalfOfShl(s, y);
      HalfOfShl(s, Or(x, y));
      OrSplitShl(s - 1, a / 2, b / 2, x, y);
      OrDoubled(a, b, Shl(x, s - 1), Shl(y, s - 1), Shl(Or(x, y), s - 1));
    }
  }

  /** `Or` works on the low `s` bits and the rest separately. */
  lemma OrSplit(s: nat, a: nat, b: nat, x: nat, y: nat, px: nat, py: nat)
    requires a < Pow2(s) && b < Pow2(s)
    requires px == Pow2(s) * x && py == Pow2(s) * y
    ensures Or(a + px, b + py) == Or(a, b) + Pow2(s) * Or(x, y)
  {
    hide Or, Pow2;
    OrSplitShl(s, a, b, x, y);
  }

  lemma AndZeros()
    ensures And(0, 0) == 0
  {
  }

  lemma AndDoubled(a: nat, b: nat, m: nat, n: nat, high: nat)
    requires And(a / 2 + m, b / 2 + n) == And(a / 2, b / 2) + high
    ensures And(a + 2 * m, b + 2 * n) == And(a, b) + 2 * high
  {
    hide And;
    AndHalves(a, b, m, n);
    AndHalves(a, b, 0, 0);
  }

  lemma {:induction false} AndSplitShl(s: nat, a: nat, b: nat, x: nat, y: nat)
    requires a < Pow2(s) && b < Pow2(s)
    ensures And(a + Shl(x, s), b + Shl(y, s)) == And(a, b) + Shl(And(x, y), s)
    decreases s
  {
    Halved(s, a);
    Halved(s, b);
    hide And, Pow2, Shl;
    if s == 0 {
      AndZeros();
      ShlByNone(x);
      ShlByNone(y);
      ShlByNone(And(x, y));
    } else {
      HalfOfShl(s, x);
      HalfOfShl(s, y);
      HalfOfShl(s, And(x, y));
      AndSplitShl(s - 1, a / 2, b / 2, x, y);
      AndDoubled(a, b, Shl(x, s - 1), Shl(y, s - 1), Shl(And(x, y), s - 1));
    }
  }

  /** `And` works on the low `s` bits and the rest separately. */
  lemma AndSplit(s: nat, a: nat, b: nat, x: nat, y: nat, px: nat, py: nat)
    requires a < Pow2(s) && b < Pow2(s)
    requires px == Pow2(s) * x && py == Pow2(s) * y
    ensures And(a + px, b + py) == And(a, b) + Pow2(s) * And(x, y)
  {
    hide And, Pow2;
    AndSplitShl(s, a, b, x, y);
  }

  lemma {:induction false} AndOnes(k: nat, a: nat)
    requires a < Pow2(k)
    ensures And(a, Pow2(k) - 1) == a
  {
    if k == 0 {
    } else {
      AndOnes(k - 1, a / 2);
      AndHalves(a, Pow2(k) - 1, 0, 0);
      assert (Pow2(k) - 1) / 2 == Pow2(k - 1) - 1 && (Pow2(k) - 1) % 2 == 1;
    }
  }

  /** `x & (size - 1)` is the remainder, for a power of two `size`. */
  lemma AndSizeMask(k: nat, x: nat)
    ensures And(x, Pow2(k) - 1) == x % Pow2(k)
  {
    var low, high := DivMod(x, Pow2(k));
    AndSplit(k, low, Pow2(k) - 1, high, 0, x - low, 0);
    AndOnes(k, low);
    assert Pow2(k) * 0 == 0;
    assert And(high, 0) == 0;
  }

  lemma DivMod(x: nat, n: nat) returns (low: nat, high: nat)
    requires 0 < n
    ensures low == x % n && high == x / n && x == low + n * high
  {
    low, high := x % n, x / n;
  }

  /** A mask shifted up by `s` selects the field `s` bits up: the C idiom for every register
      field of the driver. */
  lemma AndShifted(s: nat, x: nat, m: nat, mask: nat)
    requires mask == Pow2(s) * m
    ensures And(x, mask) == Pow2(s) * And(Shr(x, s), m)
  {
    var low, high := DivMod(x, Pow2(s));
    hide And, Pow2;
    assert high == Shr(x, s);
    hide Shr;
    AndSplit(s, low, 0, high, m, x - low, mask);
    AndZero(low);
  }

  lemma AndZero(x: nat)
    ensures And(x, 0) == 0
  {
  }

  lemma OrZero(x: nat)
    ensures Or(x, 0) == x && Or(0, x) == x
  {
  }

  /** Words whose bits do not overlap: the low `s` bits of one, multiples of 2^s for the other. */
  lemma OrDisjoint(s: nat, a: nat, y: nat, py: nat)
    requires a < Pow2(s) && py == Pow2(s) * y
    ensures Or(a, py) == a + py && Or(py, a) == a + py
  {
    OrZero(a);
    OrZero(y);
    hide Or, Pow2;
    OrSplit(s, a, 0, 0, y, 0, py);
    OrSplit(s, 0, a, y, 0, py, 0);
  }

  /** Positions modulo `n` of two counters at most `n` apart. */
  lemma ModDistance(v: nat, p: nat, n: nat)
    requires 0 < n && v <= p < v + n
    ensures p % n == v % n + (p - v) || p % n == v % n + (p - v) - n
  {
    var q, r := v / n, v % n;
    assert v == q * n + r;
    if r + (p - v) < n {
      ModUnique(p, n, q, r + (p - v));
    } else {
      assert p == (q + 1) * n + (r + (p - v) - n);
      ModUnique(p, n, q + 1, r + (p - v) - n);
    }
  }

  lemma ModUnique(a: nat, n: nat, q: int, r: nat)
    requires 0 < n && r < n && a == q * n + r
    ensures a % n == r && a / n == q
  {
    var e, r' := a / n, a % n;
    assert a == e * n + r';
    if e < q {
      MulGap(e, q, n);
      assert false;
    } else if q < e {
      MulGap(q, e, n);
      assert false;
    }
  }

  lemma MulGap(e: int, q: int, n: nat)
    requires e < q
    ensures e * n + n <= q * n
  {
    assert (q - e - 1) * n >= 0;
  }
}
