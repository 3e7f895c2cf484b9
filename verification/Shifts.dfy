/** Shift and rotate instructions (runner/m68k_interp.c, do_shift and the memory form).

    The reference semantics is the manual's: shift by one bit, `count` times. The source uses
    closed formulas instead; the lemmas equate the two for every width, operand and count, and
    the methods at the end run the closed formulas on the register file. */
module Shifts {
  import opened Bits
  import opened Cpu

  datatype ShiftOp = LSL | LSR | ASL | ASR | ROL | ROR | ROXL | ROXR

  /** Operand with the condition codes a shift computes as it goes. */
  datatype Shifted = Shifted(val: nat, x: bool, c: bool, v: bool)

  /** Before the first bit: C is clear, except that ROXL and ROXR start with C equal to X. */
  function Start(op: ShiftOp, val: nat, x: bool): Shifted
  {
    Shifted(val, x, (op == ROXL || op == ROXR) && x, false)
  }

  /** `2 * val` wrapped to a word of span s. */
  function Double(val: nat, s: nat): nat { if 2 * val >= s then 2 * val - s else 2 * val }

  /** One bit position, on a word of span s = 2^bits. */
  function OneBit(op: ShiftOp, s: nat, t: Shifted): Shifted
  {
    var hi, lo := Msb(t.val, s), t.val % 2 == 1;
    var left, right := Double(t.val, s), t.val / 2;
    match op
    case LSL => Shifted(left, hi, hi, false)
    case LSR => Shifted(right, lo, lo, false)
    case ASL => Shifted(left, hi, hi, t.v || hi != Msb(left, s))
    case ASR => Shifted(if hi then right + s / 2 else right, lo, lo, false)
    case ROL => Shifted(if hi then left + 1 else left, t.x, hi, false)
    case ROR => Shifted(if lo then right + s / 2 else right, t.x, lo, false)
    case ROXL => Shifted(if t.x then left + 1 else left, hi, hi, false)
    case ROXR => Shifted(if t.x then right + s / 2 else right, lo, lo, false)
  }

  function Repeat(op: ShiftOp, s: nat, t: Shifted, count: nat): Shifted
  {
    if count == 0 then t else OneBit(op, s, Repeat(op, s, t, count - 1))
  }

  // ---- left shifts -------------------------------------------------------------------

  /** The top bit after k left steps is bit (bits-1-k) of the operand. */
  lemma {:induction false} ShlTop(bits: nat, val: nat, k: nat)
    requires k < bits
    ensures Msb(Mask(Shl(val, k), bits), Pow2(bits)) == Bit(val, bits - 1 - k)
  {
    MaskTop(Shl(val, k), bits - 1);
    ShrShl(val, k, bits - 1);
  }

  /** LSL and ASL share their value and carry: shifting left k times is one shift by k, and C
      and X are the last bit shifted out. */
  lemma {:induction false} LeftClosed(op: ShiftOp, bits: nat, t: Shifted, k: nat)
    requires op == LSL || op == ASL
    requires bits >= 1 && t.val < Pow2(bits)
    ensures var r := Repeat(op, Pow2(bits), t, k);
            && r.val == Mask(Shl(t.val, k), bits)
            && r.val == (if 0 < k < bits then Mask(Shl(t.val, k), bits) else if k == 0 then t.val else 0)
            && (k > 0 ==> r.x == r.c && r.c == (k <= bits && Bit(t.val, bits - k)))
            && (k > 0 && op == LSL ==> !r.v)
  {
    if k == 0 {
      MaskSmall(t.val, bits);
    } else {
      LeftClosed(op, bits, t, k - 1);
      MaskDouble(Shl(t.val, k - 1), bits);
      if k >= bits { MaskShl(t.val, k, bits); }
      if k <= bits { ShlTop(bits, t.val, k - 1); } else { MaskShl(t.val, k - 1, bits); }
    }
  }

  /** Appending a bit to a number keeps it all-zero or all-one exactly when it was and the bit
      repeats the one below. */
  lemma UniformStep(top: nat, half: nat)
    requires half >= 2 && half % 2 == 0 && top < 2 * half
    ensures (top == 0 || top == 2 * half - 1) ==
            ((top / 2 == 0 || top / 2 == half - 1) && top % 2 == top / 2 % 2)
  {
  }

  /** The top k+1 bits of the operand are mixed. */
  predicate TopMixed(bits: nat, val: nat, k: nat)
    requires k < bits
  {
    Shr(val, bits - 1 - k) != 0 && Shr(val, bits - 1 - k) != Pow2(k + 1) - 1
  }

  lemma {:induction false} MixedStep(bits: nat, val: nat, k: nat)
    requires 0 < k < bits && val < Pow2(bits)
    ensures TopMixed(bits, val, k) == (TopMixed(bits, val, k - 1) || Bit(val, bits - k) != Bit(val, bits - 1 - k))
  {
    ShrBound(val, bits - 1 - k, k + 1);
    UniformStep(Shr(val, bits - 1 - k), Pow2(k));
  }

  /** ASL's V is set when the sign changed at any step, which is to say that the top k+1 bits
      of the operand are neither all zero nor all one. */
  lemma {:induction false} AslOverflow(bits: nat, val: nat, x: bool, k: nat)
    requires bits >= 1 && val < Pow2(bits)
    ensures Repeat(ASL, Pow2(bits), Start(ASL, val, x), k).v ==
            if k == 0 then false else if k >= bits then val != 0 else TopMixed(bits, val, k)
  {
    if k > 0 {
      AslOverflow(bits, val, x, k - 1);
      AslStepV(bits, val, x, k);
      if k < bits { MixedStep(bits, val, k); }
      NotMixed(bits, val);
      AllMixed(bits, val);
    }
  }

  lemma {:induction false} AslStepV(bits: nat, val: nat, x: bool, k: nat)
    requires bits >= 1 && val < Pow2(bits) && k > 0
    ensures var t := Start(ASL, val, x);
            Repeat(ASL, Pow2(bits), t, k).v
            == (Repeat(ASL, Pow2(bits), t, k - 1).v
                || (k <= bits && Bit(val, bits - k)) != (k < bits && Bit(val, bits - 1 - k)))
  {
    AslSigns(bits, val, x, k);
  }

  /** One bit is never mixed; all of them, with a zero below, are unless there are no ones. */
  lemma {:induction false} NotMixed(bits: nat, val: nat)
    requires bits >= 1 && val < Pow2(bits)
    ensures !TopMixed(bits, val, 0)
  {
    ShrBound(val, bits - 1, 1);
  }

  lemma {:induction false} AllMixed(bits: nat, val: nat)
    requires bits >= 1 && val < Pow2(bits)
    ensures TopMixed(bits, val, bits - 1) || Bit(val, 0) <==> val != 0
  {
    assert Pow2(bits) == 2 * Pow2(bits - 1);
  }

  /** The sign bits on either side of step k. */
  lemma {:induction false} AslSigns(bits: nat, val: nat, x: bool, k: nat)
    requires bits >= 1 && val < Pow2(bits) && k > 0
    ensures var t := Start(ASL, val, x);
            && Msb(Repeat(ASL, Pow2(bits), t, k - 1).val, Pow2(bits)) == (k <= bits && Bit(val, bits - k))
            && Msb(Repeat(ASL, Pow2(bits), t, k).val, Pow2(bits)) == (k < bits && Bit(val, bits - 1 - k))
  {
    var t := Start(ASL, val, x);
    LeftClosed(ASL, bits, t, k - 1);
    LeftClosed(ASL, bits, t, k);
    if k <= bits { ShlTop(bits, val, k - 1); }
    if k < bits { ShlTop(bits, val, k); }
  }

  // ---- right shifts ------------------------------------------------------------------

  lemma {:induction false} LsrClosed(bits: nat, t: Shifted, k: nat)
    requires bits >= 1 && t.val < Pow2(bits)
    ensures var r := Repeat(LSR, Pow2(bits), t, k);
            && r.val == Shr(t.val, k)
            && r.val == (if 0 < k < bits then Shr(t.val, k) else if k == 0 then t.val else 0)
            && (k > 0 ==> !r.v && r.x == r.c && r.c == (k <= bits && Bit(t.val, k - 1)))
  {
    if k > 0 {
      LsrClosed(bits, t, k - 1);
      if k >= bits { ShrSign(t.val, bits, k); }
    }
  }

  /** Below the sign position, a bit of the two's-complement value is a bit of the word. */
  lemma {:induction false} SignedBit(bits: nat, val: nat, j: nat)
    requires j < bits
    ensures Shr(Signed(val, Pow2(bits)), j) % 2 == Shr(val, j) % 2
  {
    if val >= Pow2(bits) / 2 { BorrowedBit(bits, val, j); }
  }

  /** Taking 2^bits away leaves every bit below it. */
  lemma {:induction false} BorrowedBit(bits: nat, val: nat, j: nat)
    requires j < bits
    ensures Shr(val - Pow2(bits), j) % 2 == Shr(val, j) % 2
  {
    ShrAdd(val - Pow2(bits), bits, j);
    assert Pow2(bits - j) == 2 * Pow2(bits - j - 1);
    EvenAdded(Shr(val - Pow2(bits), j), Pow2(bits - j - 1));
  }

  lemma EvenAdded(a: int, p: int)
    ensures (a + 2 * p) % 2 == a % 2
  {
  }

  lemma AsrStep(s: nat, u: Shifted)
    requires s >= 2 && s % 2 == 0 && u.val < s
    ensures var r := OneBit(ASR, s, u);
            && r.val < s && Signed(r.val, s) == Signed(u.val, s) / 2
            && !r.v && r.x == r.c && r.c == (Signed(u.val, s) % 2 == 1)
  {
  }

  /** The low bit of the arithmetic shift by j, read from the operand. */
  lemma {:induction false} AsrCarry(bits: nat, val: nat, j: nat)
    requires bits >= 1 && val < Pow2(bits)
    ensures Bit(Signed(val, Pow2(bits)), j) == Bit(val, if j < bits then j else bits - 1)
  {
    SignedBit(bits, val, if j < bits then j else bits - 1);
    if j >= bits {
      ShrSign(Signed(val, Pow2(bits)), bits - 1, j);
      ShrSign(Signed(val, Pow2(bits)), bits - 1, bits - 1);
    }
  }

  /** ASR k times is the arithmetic shift of the signed value; C is the last bit shifted out,
      which past the width is the sign bit. V is never set. */
  lemma {:induction false} AsrClosed(bits: nat, t: Shifted, k: nat)
    requires bits >= 1 && t.val < Pow2(bits)
    ensures var s := Pow2(bits);
            var r := Repeat(ASR, s, t, k);
            && r.val < s && Signed(r.val, s) == Shr(Signed(t.val, s), k)
            && (k > 0 ==> !r.v && r.x == r.c && r.c == Bit(t.val, if k < bits then k - 1 else bits - 1))
  {
    if k > 0 {
      AsrClosed(bits, t, k - 1);
      AsrStep(Pow2(bits), Repeat(ASR, Pow2(bits), t, k - 1));
      AsrCarry(bits, t.val, k - 1);
    }
  }

  // ---- rotates -----------------------------------------------------------------------

  /** Rotating an n-bit field by k, as the source writes it: two shifts or-ed together. */
  function RotateLeft(n: nat, w: nat, k: nat): nat
    requires k <= n
  {
    if k == 0 then w else BitOr(Mask(Shl(w, k), n), Shr(w, n - k))
  }

  function RotateRight(n: nat, w: nat, k: nat): nat
    requires k <= n
  {
    if k == 0 then w else BitOr(Shr(w, k), Mask(Shl(w, n - k), n))
  }

  function RolOne(s: nat, w: nat): nat { if Msb(w, s) then Double(w, s) + 1 else Double(w, s) }
  function RorOne(s: nat, w: nat): nat { if w % 2 == 1 then w / 2 + s / 2 else w / 2 }

  /** The two shifted halves of a left rotation do not meet. */
  lemma {:induction false} RotateIsSum(n: nat, w: nat, k: nat)
    requires k <= n && w < Pow2(n)
    ensures Shr(w, n - k) < Pow2(k)
    ensures RotateLeft(n, w, k) == Mask(Shl(w, k), n) + Shr(w, n - k)
  {
    ShrBound(w, n - k, k);
    MaskShl(w, k, n);
    if k == 0 {
      MaskSmall(w, n);
    } else if k < n {
      OrDisjoint(Mask(w, n - k), k, Shr(w, n - k));
    }
  }

  lemma {:induction false} RotateLeftStep(n: nat, w: nat, k: nat)
    requires k < n && w < Pow2(n)
    ensures RotateLeft(n, w, k) < Pow2(n)
    ensures RotateLeft(n, w, k + 1) == RolOne(Pow2(n), RotateLeft(n, w, k))
  {
    RotateIsSum(n, w, k);
    RotateIsSum(n, w, k + 1);
    MaskDouble(Shl(w, k), n);
    ShlTop(n, w, k);
    LowHalfSeparate(n, w, k);
  }

  /** The k low bits of a left rotation never carry into the rest. */
  lemma {:induction false} LowHalfSeparate(n: nat, w: nat, k: nat)
    requires k < n
    ensures var a := Mask(Shl(w, k), n);
            && a + Pow2(k) <= Pow2(n)
            && (a < Pow2(n - 1) ==> a + Pow2(k) <= Pow2(n - 1))
  {
    MaskShl(w, k, n);
    var m := Mask(w, n - k);
    MaskTop(w, n - k);
    ShlPow2(n - k, k);
    ShlBelow(m, Pow2(n - k), k);
    ShlPow2(n - 1 - k, k);
    if m < Pow2(n - 1 - k) {
      ShlBelow(m, Pow2(n - 1 - k), k);
    } else if m > Pow2(n - 1 - k) {
      ShlBelow(Pow2(n - 1 - k), m, k);
    }
  }

  lemma {:induction false} RotateFull(n: nat, w: nat)
    requires n >= 1 && w < Pow2(n)
    ensures RotateLeft(n, w, n) == w
  {
    RotateIsSum(n, w, n);
    MaskShl(w, n, n);
  }

  /** Rotating right by k is rotating left the rest of the way round. */
  lemma {:induction false} RotateRightIsLeft(n: nat, w: nat, k: nat)
    requires 0 < k <= n && w < Pow2(n)
    ensures RotateRight(n, w, k) == RotateLeft(n, w, n - k)
  {
    OrCommutes(Shr(w, k), Mask(Shl(w, n - k), n));
    if k == n {
      ShrBound(w, n, 0);
      MaskSmall(w, n);
    }
  }

  lemma RorUndoesRol(s: nat, w: nat)
    requires s % 2 == 0 && w < s
    ensures RorOne(s, RolOne(s, w)) == w && RolOne(s, w) < s
  {
  }

  lemma {:induction false} RotateRightStep(n: nat, w: nat, k: nat)
    requires k < n && w < Pow2(n)
    ensures RotateRight(n, w, k) < Pow2(n)
    ensures RotateRight(n, w, k + 1) == RorOne(Pow2(n), RotateRight(n, w, k))
  {
    RightIsRest(n, w, k);
    RightIsRest(n, w, k + 1);
    LeftBack(n, w, n - k - 1);
  }

  /** One step back from a left rotation. */
  lemma {:induction false} LeftBack(n: nat, w: nat, k: nat)
    requires k < n && w < Pow2(n)
    ensures RotateLeft(n, w, k + 1) < Pow2(n) && RotateLeft(n, w, k) == RorOne(Pow2(n), RotateLeft(n, w, k + 1))
  {
    assert Pow2(n) == 2 * Pow2(n - 1);
    RotateLeftStep(n, w, k);
    RorUndoesRol(Pow2(n), RotateLeft(n, w, k));
  }

  lemma {:induction false} RightIsRest(n: nat, w: nat, k: nat)
    requires 1 <= n && k <= n && w < Pow2(n)
    ensures RotateRight(n, w, k) == RotateLeft(n, w, n - k)
  {
    if k == 0 { RotateFull(n, w); } else { RotateRightIsLeft(n, w, k); }
  }

  /** Rotation by any count: only the count modulo the width matters. */
  function Spin(left: bool, n: nat, w: nat, k: nat): nat
    requires n >= 1
  {
    if left then RotateLeft(n, w, k % n) else RotateRight(n, w, k % n)
  }

  function SpinOne(left: bool, s: nat, w: nat): nat { if left then RolOne(s, w) else RorOne(s, w) }

  lemma {:induction false} SpinStep(left: bool, n: nat, w: nat, k: nat)
    requires n >= 1 && w < Pow2(n)
    ensures Spin(left, n, w, k) < Pow2(n)
    ensures Spin(left, n, w, 0) == w
    ensures k > 0 ==> Spin(left, n, w, k) == SpinOne(left, Pow2(n), Spin(left, n, w, k - 1))
  {
    if left { SpinLeft(n, w, k); } else { SpinRight(n, w, k); }
  }

  lemma {:induction false} SpinLeft(n: nat, w: nat, k: nat)
    requires n >= 1 && w < Pow2(n)
    ensures RotateLeft(n, w, k % n) < Pow2(n) && RotateLeft(n, w, 0 % n) == w
    ensures k > 0 ==> RotateLeft(n, w, k % n) == RolOne(Pow2(n), RotateLeft(n, w, (k - 1) % n))
  {
    LeftBound(n, w, k % n);
    if k > 0 {
      ModSucc(k - 1, n);
      SpinLeftOn(n, w, (k - 1) % n);
    }
  }

  lemma {:induction false} LeftBound(n: nat, w: nat, p: nat)
    requires p < n && w < Pow2(n)
    ensures RotateLeft(n, w, p) < Pow2(n) && RotateLeft(n, w, 0) == w
  {
    RotateLeftStep(n, w, p);
  }

  lemma {:induction false} SpinLeftOn(n: nat, w: nat, p: nat)
    requires p < n && w < Pow2(n)
    ensures RotateLeft(n, w, if p == n - 1 then 0 else p + 1) == RolOne(Pow2(n), RotateLeft(n, w, p))
  {
    RotateLeftStep(n, w, p);
    if p == n - 1 { RotateFull(n, w); }
  }

  lemma {:induction false} SpinRight(n: nat, w: nat, k: nat)
    requires n >= 1 && w < Pow2(n)
    ensures RotateRight(n, w, k % n) < Pow2(n) && RotateRight(n, w, 0 % n) == w
    ensures k > 0 ==> RotateRight(n, w, k % n) == RorOne(Pow2(n), RotateRight(n, w, (k - 1) % n))
  {
    RightBound(n, w, k % n);
    if k > 0 {
      ModSucc(k - 1, n);
      SpinRightOn(n, w, (k - 1) % n);
    }
  }

  lemma {:induction false} RightBound(n: nat, w: nat, p: nat)
    requires p < n && w < Pow2(n)
    ensures RotateRight(n, w, p) < Pow2(n) && RotateRight(n, w, 0) == w
  {
    RotateRightStep(n, w, p);
  }

  lemma {:induction false} SpinRightOn(n: nat, w: nat, p: nat)
    requires p < n && w < Pow2(n)
    ensures RotateRight(n, w, if p == n - 1 then 0 else p + 1) == RorOne(Pow2(n), RotateRight(n, w, p))
  {
    RotateRightStep(n, w, p);
    if p == n - 1 { RightIsRest(n, w, n); }
  }

  /** ROL and ROR set C to the bit that wrapped and keep X. */
  lemma RotateCodes(op: ShiftOp, s: nat, u: Shifted)
    requires op == ROL || op == ROR
    requires s >= 2 && s % 2 == 0 && u.val < s
    ensures var r := SpinOne(op == ROL, s, u.val);
            OneBit(op, s, u) == Shifted(r, u.x, if op == ROL then r % 2 == 1 else Msb(r, s), false)
  {
  }

  lemma {:induction false} RotateClosed(op: ShiftOp, bits: nat, t: Shifted, k: nat)
    requires op == ROL || op == ROR
    requires bits >= 1 && t.val < Pow2(bits)
    ensures var r := Repeat(op, Pow2(bits), t, k);
            && r.val < Pow2(bits) && r.x == t.x
            && r.val == Spin(op == ROL, bits, t.val, k)
            && (k > 0 ==> !r.v && r.c == (if op == ROL then r.val % 2 == 1 else Msb(r.val, Pow2(bits))))
  {
    SpinStep(op == ROL, bits, t.val, k);
    if k > 0 {
      RotateClosed(op, bits, t, k - 1);
      RotateCodes(op, Pow2(bits), Repeat(op, Pow2(bits), t, k - 1));
    }
  }

  /** X above the operand: the (bits+1)-wide field ROXL and ROXR rotate. */
  function Wide(s: nat, val: nat, x: bool): nat { if x then val + s else val }

  lemma WideStep(op: ShiftOp, s: nat, u: Shifted)
    requires op == ROXL || op == ROXR
    requires s >= 2 && s % 2 == 0 && u.val < s
    ensures var r := OneBit(op, s, u);
            && r.val < s && r.c == r.x && !r.v
            && Wide(s, r.val, r.x) == SpinOne(op == ROXL, 2 * s, Wide(s, u.val, u.x))
  {
  }

  /** `r` is operand and codes after rotating the field w by k through X; C follows X. */
  predicate Turned(left: bool, bits: nat, w: nat, k: nat, r: Shifted)
  {
    && r.val < Pow2(bits) && r.c == r.x && !r.v
    && Wide(Pow2(bits), r.val, r.x) == Spin(left, bits + 1, w, k)
  }

  lemma {:induction false} TurnedStep(op: ShiftOp, bits: nat, w: nat, k: nat, u: Shifted)
    requires op == ROXL || op == ROXR
    requires bits >= 1 && w < Pow2(bits + 1) && k > 0 && Turned(op == ROXL, bits, w, k - 1, u)
    ensures Turned(op == ROXL, bits, w, k, OneBit(op, Pow2(bits), u))
  {
    SpinStep(op == ROXL, bits + 1, w, k);
    WideStep(op, Pow2(bits), u);
  }

  /** ROXL and ROXR rotate the field made of X above the operand; C follows X. */
  lemma {:induction false} RotateThroughX(op: ShiftOp, bits: nat, t: Shifted, k: nat)
    requires op == ROXL || op == ROXR
    requires bits >= 1 && t.val < Pow2(bits) && t.c == t.x && !t.v
    ensures Turned(op == ROXL, bits, Wide(Pow2(bits), t.val, t.x), k, Repeat(op, Pow2(bits), t, k))
  {
    var w := Wide(Pow2(bits), t.val, t.x);
    if k > 0 {
      RotateThroughX(op, bits, t, k - 1);
      TurnedStep(op, bits, w, k, Repeat(op, Pow2(bits), t, k - 1));
    } else {
      SpinStep(op == ROXL, bits + 1, w, 0);
    }
  }

  // ---- the instructions --------------------------------------------------------------

  /** The reference result: `cnt` one-bit steps. */
  function Reference(op: ShiftOp, sz: Size, val: nat, x: bool, cnt: nat): Shifted
  {
    Repeat(op, Span(sz), Start(op, val, x), cnt)
  }

  predicate KeepsX(op: ShiftOp) { op == ROL || op == ROR }
  predicate UsesX(op: ShiftOp) { op == ROXL || op == ROXR }

  lemma {:induction false} SignedMod(r: nat, s: nat)
    requires r < s && s % 2 == 0
    ensures Signed(r, s) % s == r
  {
    WrapOnce(Signed(r, s), s);
  }

  /** Taking the rotated field apart again. */
  lemma {:induction false} WideParts(bits: nat, val: nat, x: bool)
    requires val < Pow2(bits)
    ensures Mask(Wide(Pow2(bits), val, x), bits) == val
    ensures Bit(Wide(Pow2(bits), val, x), bits) == x
  {
    MaskSmall(val, bits);
    ShrBound(val, bits, 0);
    ShrAdd(val, bits, bits);
    var w := Wide(Pow2(bits), val, x);
    MaskTop(w, bits);
    MaskSmall(w, bits + 1);
  }

  /** What a closed formula must compute: result, C and V of the reference, from which X
      follows. */
  predicate Computes(op: ShiftOp, sz: Size, sv: nat, x: bool, cnt: nat, res: nat, c: bool, v: bool)
  {
    var r := Reference(op, sz, sv, x, cnt);
    && res < Span(sz)
    && r == Shifted(res, if KeepsX(op) || cnt == 0 then x else c, c, v)
  }

  method LeftShiftValue(op: ShiftOp, sz: Size, sv: nat, x: bool, cnt: nat) returns (res: nat, c: bool, v: bool)
    requires sv < Span(sz) && (op == LSL || op == ASL)
    ensures Computes(op, sz, sv, x, cnt, res, c, v)
  {
    var bits := BitsOf(sz);
    SpanIsPow2(sz);
    LeftClosed(op, bits, Start(op, sv, x), cnt);
    MaskTop(Shl(sv, cnt), bits);
    res := if 0 < cnt < bits then Mask(Shl(sv, cnt), bits) else if cnt == 0 then sv else 0;
    c := 0 < cnt <= bits && Bit(sv, bits - cnt);
    v := false;
    if op == ASL { v := SignChanges(bits, sv, x, cnt); }
  }

  /** ASL's V. */
  method SignChanges(bits: nat, sv: nat, ghost x: bool, cnt: nat) returns (v: bool)
    requires bits >= 1 && sv < Pow2(bits)
    ensures v == Repeat(ASL, Pow2(bits), Start(ASL, sv, x), cnt).v
  {
    AslOverflow(bits, sv, x, cnt);
    v := false;
    if cnt > 0 {
      if cnt >= bits {
        v := sv != 0;
      } else {
        var top := Shr(sv, bits - 1 - cnt);
        v := top != 0 && top != Pow2(cnt + 1) - 1;
      }
    }
  }

  method RightShiftValue(op: ShiftOp, sz: Size, sv: nat, x: bool, cnt: nat) returns (res: nat, c: bool, v: bool)
    requires sv < Span(sz) && (op == LSR || op == ASR)
    ensures Computes(op, sz, sv, x, cnt, res, c, v)
  {
    var bits, s := BitsOf(sz), Span(sz);
    SpanIsPow2(sz);
    v := false;
    if op == LSR {
      LsrClosed(bits, Start(op, sv, x), cnt);
      ShiftedBelow(bits, sv, cnt);
      res := if 0 < cnt < bits then Shr(sv, cnt) else if cnt == 0 then sv else 0;
      c := 0 < cnt <= bits && Bit(sv, cnt - 1);
    } else {
      AsrClosed(bits, Start(op, sv, x), cnt);
      SignedMod(Reference(op, sz, sv, x, cnt).val, s);
      var ssv := Signed(sv, s);
      if cnt >= bits { ShrSign(ssv, bits - 1, cnt); }
      if 0 < cnt < bits {
        res := Shr(ssv, cnt) % s;
      } else if cnt == 0 {
        res := sv;
      } else {
        res := if ssv < 0 then s - 1 else 0;
      }
      c := cnt > 0 && Bit(sv, if cnt < bits then cnt - 1 else bits - 1);
    }
  }

  method RotateValue(op: ShiftOp, sz: Size, sv: nat, x: bool, cnt: nat) returns (res: nat, c: bool, v: bool)
    requires sv < Span(sz) && KeepsX(op)
    ensures Computes(op, sz, sv, x, cnt, res, c, v)
  {
    var bits := BitsOf(sz);
    SpanIsPow2(sz);
    RotateClosed(op, bits, Start(op, sv, x), cnt);
    var cc := cnt % bits;
    v := false;
    if op == ROL {
      res := RotateLeft(bits, sv, cc);
      c := cnt > 0 && res % 2 == 1;
    } else {
      res := RotateRight(bits, sv, cc);
      c := cnt > 0 && Msb(res, Span(sz));
    }
  }

  method RotateXValue(op: ShiftOp, sz: Size, sv: nat, x: bool, cnt: nat) returns (res: nat, c: bool, v: bool)
    requires sv < Span(sz) && UsesX(op)
    ensures Computes(op, sz, sv, x, cnt, res, c, v)
  {
    var bits := BitsOf(sz);
    SpanIsPow2(sz);
    RotateThroughX(op, bits, Start(op, sv, x), cnt);
    ghost var r := Reference(op, sz, sv, x, cnt);
    WideParts(bits, r.val, r.x);
    var period := bits + 1;
    var cc, wide := cnt % period, Wide(Span(sz), sv, x);
    var rot := if op == ROXL then RotateLeft(period, wide, cc) else RotateRight(period, wide, cc);
    res := Mask(rot, bits);
    c := Bit(rot, bits);
    v := false;
  }

  /** The closed formulas of do_shift: result, C and V in one go. */
  method ShiftValue(op: ShiftOp, sz: Size, sv: nat, x: bool, cnt: nat) returns (res: nat, c: bool, v: bool)
    requires sv < Span(sz)
    ensures Computes(op, sz, sv, x, cnt, res, c, v)
  {
    match op {
      case LSL => res, c, v := LeftShiftValue(op, sz, sv, x, cnt);
      case ASL => res, c, v := LeftShiftValue(op, sz, sv, x, cnt);
      case LSR => res, c, v := RightShiftValue(op, sz, sv, x, cnt);
      case ASR => res, c, v := RightShiftValue(op, sz, sv, x, cnt);
      case ROL => res, c, v := RotateValue(op, sz, sv, x, cnt);
      case ROR => res, c, v := RotateValue(op, sz, sv, x, cnt);
      case _ => res, c, v := RotateXValue(op, sz, sv, x, cnt);
    }
  }

  lemma {:induction false} ShiftedBelow(bits: nat, val: nat, k: nat)
    requires val < Pow2(bits)
    ensures Shr(val, k) < Pow2(bits)
  {
    if k > 0 { ShiftedBelow(bits, val, k - 1); }
  }

  /** do_shift on a data register. The register and all five condition codes are those of `cnt`
      one-bit steps, with one exception: an immediate count of zero (which no shift instruction
      encodes) clears X in the four plain shifts instead of keeping it. */
  method DoShift(cpu: RegisterFile, op: ShiftOp, dreg: nat, sz: Size, regCount: bool, creg: nat, immCount: nat)
    requires cpu.Valid() && dreg < 8 && creg < 8
    modifies cpu
    ensures cpu.Valid()
    ensures var cnt := if regCount then old(cpu.D[creg]) % 64 else immCount;
            var r := Reference(op, sz, old(cpu.D[dreg]) % Span(sz), old(cpu.SR.x), cnt);
            && r.val < Span(sz)
            && cpu.D == old(cpu.D)[dreg := StoreSized(old(cpu.D[dreg]), r.val, sz)]
            && cpu.SR == Status(old(cpu.SR.sys),
                                r.x && (regCount || cnt > 0 || KeepsX(op) || UsesX(op)),
                                Msb(r.val, Span(sz)), r.val == 0, r.v, r.c)
  {
    var s := Span(sz);
    var cnt := if regCount then cpu.D[creg] % 64 else immCount;
    var res, c, v := ShiftValue(op, sz, cpu.D[dreg] % s, cpu.SR.x, cnt);
    cpu.StoreDn(dreg, res, sz);
    if KeepsX(op) {
      NeverV(op, s, Start(op, old(cpu.D[dreg]) % s, cpu.SR.x), cnt);
      cpu.SR := cpu.SR.(n := Msb(res, s), z := res == 0, v := false, c := c);
    } else if regCount && cnt == 0 {
      cpu.SR := cpu.SR.(n := Msb(res, s), z := res == 0, v := false, c := UsesX(op) && cpu.SR.x);
    } else {
      if op != ASL { NeverV(op, s, Start(op, old(cpu.D[dreg]) % s, cpu.SR.x), cnt); }
      cpu.SR := Status(cpu.SR.sys, c, Msb(res, s), res == 0, op == ASL && v, c);
    }
  }

  /** Only ASL can set V. */
  lemma NeverV(op: ShiftOp, s: nat, t: Shifted, k: nat)
    requires op != ASL && !t.v
    ensures !Repeat(op, s, t, k).v
  {
  }

  /** The memory form's own one-bit formulas compute the word-size shift with count one. */
  method ShiftWordOnce(op: ShiftOp, sv: nat, x: bool) returns (res: nat, c: bool, v: bool)
    requires sv < 0x1_0000
    ensures Computes(op, Word, sv, x, 1, res, c, v)
  {
    var hi, lo := sv >= 0x8000, sv % 2 == 1;
    var left, right := if hi then 2 * sv - 0x1_0000 else 2 * sv, sv / 2;
    c, v := hi, false;
    match op {
      case LSL => res := left;
      case LSR => res, c := right, lo;
      case ASL => res, v := left, hi != (left >= 0x8000);
      case ASR => res, c := if hi then (sv - 0x1_0000) / 2 + 0x1_0000 else right, lo;
      case ROL => res := if hi then left + 1 else left;
      case ROR => res, c := if lo then right + 0x8000 else right, lo;
      case ROXL => res := if x then left + 1 else left;
      case ROXR => res, c := if x then right + 0x8000 else right, lo;
    }
    ghost var t := Start(op, sv, x);
    assert Repeat(op, 0x1_0000, t, 1) == OneBit(op, 0x1_0000, Repeat(op, 0x1_0000, t, 0));
  }

  /** The one-bit shift of a word in memory: `sv` is the word read, `res` the word to write back. */
  method ShiftMemoryWord(cpu: RegisterFile, op: ShiftOp, sv: nat) returns (res: nat)
    requires sv < 0x1_0000
    modifies cpu`SR
    ensures var r := Reference(op, Word, sv, old(cpu.SR.x), 1);
            && res == r.val
            && cpu.SR == Status(old(cpu.SR.sys), r.x, Msb(r.val, 0x1_0000), r.val == 0, r.v, r.c)
  {
    var c, v;
    res, c, v := ShiftWordOnce(op, sv, cpu.SR.x);
    if KeepsX(op) {
      NeverV(op, 0x1_0000, Start(op, sv, cpu.SR.x), 1);
      cpu.SR := cpu.SR.(n := res >= 0x8000, z := res == 0, v := false, c := c);
    } else {
      cpu.SR := Status(cpu.SR.sys, c, res >= 0x8000, res == 0, v, c);
    }
  }
}
