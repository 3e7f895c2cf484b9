/** Unsigned words as naturals. `<<`, `>>`, `& mask` and `|` are defined one bit at a time, so
    that the proofs about them are linear; the second half holds the few facts about division
    and remainder that the other modules use. The word types of the source come first. */
module Bits {

  // ---- fixed-width words -------------------------------------------------------------

  const TWO32: nat := 0x1_0000_0000
  const TWO64: nat := 0x1_0000_0000_0000_0000

  type u8 = n: int | 0 <= n < 256
  type u16 = n: int | 0 <= n < 0x1_0000
  type u32 = n: int | 0 <= n < 0x1_0000_0000
  type u64 = n: int | 0 <= n < 0x1_0000_0000_0000_0000

  datatype Option<T> = None | Some(value: T)

  /** Address arithmetic wraps at 32 bits. */
  function Wrap(v: int): u32 { v % 0x1_0000_0000 }

  lemma WrapShift(v: int, k: int)
    ensures Wrap(Wrap(v) + k) == Wrap(v + k)
    ensures 0 <= v < TWO32 ==> Wrap(v) == v
  {
  }

  // ---- bit operations ----------------------------------------------------------------

  function Pow2(n: nat): (p: nat)
    ensures p >= 1
  {
    if n == 0 then 1 else 2 * Pow2(n - 1)
  }

  /** `x << k`, unbounded. */
  function Shl(x: nat, k: nat): nat
  {
    if k == 0 then x else 2 * Shl(x, k - 1)
  }

  /** `x >> k`; arithmetic when x is negative. */
  function Shr(x: int, k: nat): (r: int)
    ensures x >= 0 ==> r >= 0
  {
    if k == 0 then x else Shr(x, k - 1) / 2
  }

  /** `x & (2^n - 1)`. */
  function Mask(x: nat, n: nat): nat
  {
    if n == 0 then 0 else x % 2 + 2 * Mask(x / 2, n - 1)
  }

  /** Bit i of a word. */
  predicate Bit(x: int, i: nat) { Shr(x, i) % 2 == 1 }

  function BitAnd(a: nat, b: nat): nat
  {
    if a == 0 || b == 0 then 0
    else (if a % 2 == 1 && b % 2 == 1 then 1 else 0) + 2 * BitAnd(a / 2, b / 2)
  }

  lemma {:induction false} AndBound(a: nat, b: nat)
    ensures BitAnd(a, b) <= a
  {
    if a > 0 && b > 0 { AndBound(a / 2, b / 2); }
  }

  function BitOr(a: nat, b: nat): nat
  {
    if a == 0 then b
    else if b == 0 then a
    else (if a % 2 == 1 || b % 2 == 1 then 1 else 0) + 2 * BitOr(a / 2, b / 2)
  }

  function BitXor(a: nat, b: nat): nat
    decreases a + b
  {
    if a == 0 then b
    else if b == 0 then a
    else (if a % 2 != b % 2 then 1 else 0) + 2 * BitXor(a / 2, b / 2)
  }

  // ---- shifting one bit at a time ----------------------------------------------------

  lemma {:induction false} ShrFront(x: int, k: nat)
    ensures Shr(x, k + 1) == Shr(x / 2, k)
  {
    if k > 0 { ShrFront(x, k - 1); }
  }

  lemma {:induction false} ShrShl(x: nat, k: nat, i: nat)
    requires k <= i
    ensures Shr(Shl(x, k), i) == Shr(x, i - k)
  {
    if k > 0 {
      ShrFront(Shl(x, k), i - 1);
      ShrShl(x, k - 1, i - 1);
    }
  }

  lemma {:induction false} ShrBound(x: nat, j: nat, m: nat)
    requires x < Pow2(m + j)
    ensures Shr(x, j) < Pow2(m)
  {
    if j > 0 {
      ShrBound(x, j - 1, m + 1);
    }
  }

  lemma {:induction false} ShrAdd(x: int, b: nat, j: nat)
    requires j <= b
    ensures Shr(x + Pow2(b), j) == Shr(x, j) + Pow2(b - j)
  {
    if j > 0 { ShrAdd(x, b, j - 1); }
  }

  /** Shifting a value in [-2^b, 2^b) by b or more leaves only its sign. */
  lemma {:induction false} ShrSign(x: int, b: nat, k: nat)
    requires k >= b && 0 <= x + Pow2(b) && x < Pow2(b)
    ensures Shr(x, k) == if x < 0 then -1 else 0
  {
    if k > b {
      ShrSign(x, b, k - 1);
    } else if x >= 0 {
      ShrBound(x, b, 0);
    } else {
      ShrBound(x + Pow2(b), b, 0);
      ShrAdd(x, b, b);
    }
  }

  // ---- masks -------------------------------------------------------------------------

  lemma {:induction false} MaskTop(x: nat, n: nat)
    ensures Mask(x, n + 1) == Mask(x, n) + (if Bit(x, n) then Pow2(n) else 0)
    ensures Mask(x, n) < Pow2(n)
  {
    if n > 0 {
      MaskTop(x / 2, n - 1);
      ShrFront(x, n - 1);
    } else {
      assert Mask(x, 1) == x % 2 + 2 * Mask(x / 2, 0);
    }
  }

  lemma {:induction false} MaskSmall(x: nat, n: nat)
    requires x < Pow2(n)
    ensures Mask(x, n) == x
  {
    if n > 0 { MaskSmall(x / 2, n - 1); }
  }

  /** Doubling a masked word is doubling modulo the word. */
  lemma {:induction false} MaskDouble(x: nat, n: nat)
    ensures Mask(2 * x, n) == if 2 * Mask(x, n) >= Pow2(n) then 2 * Mask(x, n) - Pow2(n) else 2 * Mask(x, n)
  {
    if n > 0 {
      assert Mask(2 * x, n) == 2 * Mask(x, n - 1) by { assert 2 * x % 2 == 0 && 2 * x / 2 == x; }
      MaskTop(x, n - 1);
    }
  }

  lemma {:induction false} MaskShl(x: nat, k: nat, n: nat)
    ensures Mask(Shl(x, k), n) == if k >= n then 0 else Shl(Mask(x, n - k), k)
  {
    if k > 0 && n > 0 { MaskShl(x, k - 1, n - 1); }
  }

  lemma {:induction false} ShlBelow(a: nat, b: nat, k: nat)
    requires a < b
    ensures Shl(a, k) + Pow2(k) <= Shl(b, k)
  {
    if k > 0 { ShlBelow(a, b, k - 1); }
  }

  lemma {:induction false} ShlPow2(a: nat, k: nat)
    ensures Shl(Pow2(a), k) == Pow2(a + k)
  {
    if k > 0 { ShlPow2(a, k - 1); }
  }

  // ---- or ----------------------------------------------------------------------------

  /** Or-ing a shifted word with bits below the shift is addition. */
  lemma {:induction false} OrDisjoint(a: nat, k: nat, b: nat)
    requires b < Pow2(k)
    ensures BitOr(Shl(a, k), b) == Shl(a, k) + b
  {
    if k > 0 && Shl(a, k) > 0 && b > 0 {
      OrDisjoint(a, k - 1, b / 2);
    }
  }

  lemma {:induction false} OrCommutes(a: nat, b: nat)
    ensures BitOr(a, b) == BitOr(b, a)
    decreases a
  {
    if a > 0 && b > 0 { OrCommutes(a / 2, b / 2); }
  }

  // ---- xor ---------------------------------------------------------------------------

  lemma {:induction false} XorUndone(a: nat, b: nat)
    ensures BitXor(BitXor(a, b), b) == a
    decreases a + b
  {
    if a == 0 {
      XorSelf(b);
    } else if b > 0 {
      XorUndone(a / 2, b / 2);
      XorStep(BitXor(a, b), b);
      XorStep(a, b);
    }
  }

  lemma {:induction false} XorSelf(a: nat)
    ensures BitXor(a, a) == 0
  {
    if a > 0 { XorSelf(a / 2); }
  }

  /** The defining equation also holds when an operand is zero. */
  lemma {:induction false} XorStep(a: nat, b: nat)
    ensures BitXor(a, b) == (if a % 2 != b % 2 then 1 else 0) + 2 * BitXor(a / 2, b / 2)
  {
  }

  lemma {:induction false} XorCommutes(a: nat, b: nat)
    ensures BitXor(a, b) == BitXor(b, a)
    decreases a + b
  {
    if a > 0 && b > 0 { XorCommutes(a / 2, b / 2); }
  }

  lemma {:induction false} XorBound(a: nat, b: nat, n: nat)
    requires a < Pow2(n) && b < Pow2(n)
    ensures BitXor(a, b) < Pow2(n)
    decreases n
  {
    if a > 0 && b > 0 { XorBound(a / 2, b / 2, n - 1); }
  }

  /** Xor is injective in either operand. */
  lemma {:induction false} XorInjective(a: nat, b: nat, c: nat)
    ensures BitXor(a, c) == BitXor(b, c) <==> a == b
    ensures BitXor(c, a) == BitXor(c, b) <==> a == b
  {
    XorUndone(a, c);
    XorUndone(b, c);
    XorCommutes(a, c);
    XorCommutes(b, c);
  }

  // ---- division and remainder --------------------------------------------------------

  lemma {:induction false} DivModUnique(a: int, b: int, q: int, r: int)
    requires b > 0 && a == q * b + r && 0 <= r < b
    ensures a / b == q && a % b == r
  {
    var d := q - a / b;
    assert d * b == a % b - r;
    assert d >= 1 ==> d * b >= b;
    assert d <= -1 ==> d * b <= -b;
  }

  /** Reducing modulo a multiple first does not change a remainder. */
  lemma {:induction false} ModMod(a: int, s: int, k: int)
    requires s > 0 && k > 0
    ensures s * k > 0 && (a % (s * k)) % s == a % s
  {
    assert s * k > 0;
    var q, r := a / (s * k), a % (s * k);
    calc {
      a;
      q * (s * k) + r;
      q * k * s + (r / s * s + r % s);
      (q * k + r / s) * s + r % s;
    }
    DivModUnique(a, s, q * k + r / s, r % s);
  }

  /** Sums and differences may be reduced operand by operand. */
  lemma {:induction false} ModAddSub(a: int, b: int, s: int)
    requires s > 0
    ensures (a + b) % s == (a % s + b % s) % s
    ensures (a - b) % s == (a % s - b % s) % s
  {
    var u, d := a % s + b % s, a % s - b % s;
    assert a + b == (a / s + b / s + u / s) * s + u % s;
    DivModUnique(a + b, s, a / s + b / s + u / s, u % s);
    assert a - b == (a / s - b / s + d / s) * s + d % s;
    DivModUnique(a - b, s, a / s - b / s + d / s, d % s);
  }

  /** A value within one span of range wraps by adding or subtracting the span once. */
  lemma {:induction false} WrapOnce(v: int, s: int)
    requires s > 0 && -s <= v < 2 * s
    ensures v % s == if v < 0 then v + s else if v >= s then v - s else v
  {
    DivModUnique(v, s, if v < 0 then -1 else if v >= s then 1 else 0,
                 if v < 0 then v + s else if v >= s then v - s else v);
  }

  lemma {:induction false} ModSucc(k: nat, n: nat)
    requires n >= 1
    ensures (k + 1) % n == if k % n == n - 1 then 0 else k % n + 1
  {
    var wrap := k % n == n - 1;
    assert (k / n + 1) * n == k / n * n + n;
    DivModUnique(k + 1, n, if wrap then k / n + 1 else k / n, if wrap then 0 else k % n + 1);
  }

  // ---- and, bit by bit ---------------------------------------------------------------

  lemma {:induction false} ZeroBits(i: nat)
    ensures Shr(0, i) == 0
  {
    if i > 0 { ZeroBits(i - 1); }
  }

  lemma {:induction false} AndBits(a: nat, b: nat, i: nat)
    ensures Bit(BitAnd(a, b), i) == (Bit(a, i) && Bit(b, i))
    decreases i
  {
    if a == 0 || b == 0 {
      ZeroBits(i);
    } else if i > 0 {
      AndBits(a / 2, b / 2, i - 1);
      ShrFront(a, i - 1);
      ShrFront(b, i - 1);
      ShrFront(BitAnd(a, b), i - 1);
      assert BitAnd(a, b) / 2 == BitAnd(a / 2, b / 2);
    }
  }

  // ---- rings -------------------------------------------------------------------------

  /** The slot k places after the slot of c. */
  lemma {:induction false} SlotOf(c: nat, k: nat, n: nat)
    requires n > 0 && k < n
    ensures (c + k) % n == if c % n + k < n then c % n + k else c % n + k - n
  {
    var w := c % n;
    if w + k < n {
      DivModUnique(c + k, n, c / n, w + k);
    } else {
      DivModUnique(c + k, n, c / n + 1, w + k - n);
    }
  }

  /** Two positions less than a ring apart have different slots. */
  lemma {:induction false} SlotsApart(i: nat, j: nat, n: nat)
    requires n > 0 && i < j < i + n
    ensures i % n != j % n
  {
    SlotOf(i, j - i, n);
  }
}
