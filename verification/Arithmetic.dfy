/** Division, extended add and subtract, and packed decimal arithmetic of the interpreter floor
    (runner/m68k_interp.c, do_div, do_addx_subx, do_bcd). */
module Arithmetic {
  import opened Bits
  import opened Cpu

  // ---- division ----------------------------------------------------------------------

  function Abs(v: int): nat { if v < 0 then -v else v }

  /** Division truncated toward zero: the remainder has the dividend's sign. */
  predicate TruncatedDivision(a: int, b: int, q: int, r: int)
  {
    a == q * b + r && Abs(r) < Abs(b) && (r != 0 ==> (r < 0) == (a < 0))
  }

  lemma {:induction false} TruncatedDivisionUnique(a: int, b: int, q: int, r: int, q': int, r': int)
    requires TruncatedDivision(a, b, q, r) && TruncatedDivision(a, b, q', r')
    ensures q == q' && r == r'
  {
    var d := q - q';
    assert d * b == r' - r;
    assert Abs(r' - r) < Abs(b);
    SmallMultiple(d, b);
  }

  lemma {:induction false} SmallMultiple(d: int, b: int)
    requires Abs(d * b) < Abs(b)
    ensures d == 0
  {
    assert d >= 1 && b > 0 ==> d * b >= b;
    assert d >= 1 && b < 0 ==> d * b <= b;
    assert d <= -1 && b > 0 ==> d * b <= -b;
    assert d <= -1 && b < 0 ==> d * b >= -b;
  }

  function Quotient(a: int, b: int): int
    requires b != 0
  {
    WithSign((a < 0) != (b < 0), Abs(a) / Abs(b))
  }

  function Remainder(a: int, b: int): int
    requires b != 0
  {
    WithSign(a < 0, Abs(a) % Abs(b))
  }

  /** Dividing magnitudes and putting the signs back is truncated division, and nothing else is. */
  lemma {:induction false} MagnitudesDivide(a: int, b: int, q: int, r: int)
    requires b != 0
    ensures TruncatedDivision(a, b, q, r) <==> q == Quotient(a, b) && r == Remainder(a, b)
  {
    SignedFromMagnitudes(a, b, Abs(a) / Abs(b), Abs(a) % Abs(b));
    if TruncatedDivision(a, b, q, r) {
      TruncatedDivisionUnique(a, b, q, r, Quotient(a, b), Remainder(a, b));
    }
  }

  lemma SignedFromMagnitudes(a: int, b: int, q: nat, r: nat)
    requires Abs(a) == q * Abs(b) + r && r < Abs(b)
    ensures TruncatedDivision(a, b, WithSign((a < 0) != (b < 0), q), WithSign(a < 0, r))
  {
  }

  /** The high-word test: when the divisor is below the dividend's high word, the quotient
      needs more than sixteen bits. */
  lemma {:induction false} HighWordOverflows(dest: nat, src: nat)
    requires 0 < src < dest / 0x1_0000
    ensures dest / src >= 0x1_0000
  {
    var q := dest / src;
    assert q <= 0xFFFF ==> q * src <= 0xFFFF * src;
  }

  predicate QuotientFits(q: int, signed_: bool)
  {
    if signed_ then -0x8000 <= q <= 0x7FFF else 0 <= q <= 0xFFFF
  }

  function Dividend(d: u32, signed_: bool): int { if signed_ then Signed(d, TWO32) else d }
  function Divisor(src: nat, signed_: bool): int { if signed_ then Signed(src, 0x1_0000) else src }
  function WithSign(neg: bool, v: int): int { if neg then -v else v }

  /** `0u - v` or v, cut to sixteen bits. */
  lemma LowWord(neg: bool, v: nat)
    requires v <= 0x1_0000
    ensures (if neg then (TWO32 - v) % TWO32 else v) % 0x1_0000 == WithSign(neg, v) % 0x1_0000
    ensures (if neg then (TWO32 - v) % TWO32 else v) == 0 <==> v == 0
  {
  }

  /** The overflow tests on magnitudes, in the source's order: high word first, then the quotient
      itself. Together they decide exactly whether the signed quotient fits. */
  method DivideMagnitudes(absDest: nat, absSrc: nat, signed_: bool, resNeg: bool)
    returns (ok: bool, quo: nat, rem: nat)
    requires absSrc > 0 && (!signed_ ==> !resNeg)
    ensures ok <==> QuotientFits(WithSign(resNeg, absDest / absSrc), signed_)
    ensures ok ==> quo == absDest / absSrc && rem == absDest % absSrc
  {
    ok, quo, rem := false, 0, 0;
    if absSrc >= absDest / 0x1_0000 {
      quo := absDest / absSrc;
      ok := (!signed_ && quo <= 0xFFFF) || (signed_ && quo <= if resNeg then 0x8000 else 0x7FFF);
      rem := absDest % absSrc;
    } else {
      HighWordOverflows(absDest, absSrc);
    }
  }

  /** Both signednesses at the level of values: the packed result and whether it may be stored. */
  method Divide(dest: u32, src: nat, signed_: bool) returns (ok: bool, quo: nat, rem: nat)
    requires 0 < src < 0x1_0000
    ensures ok <==> QuotientFits(Quotient(Dividend(dest, signed_), Divisor(src, signed_)), signed_)
    ensures ok ==>
              var q, r := Quotient(Dividend(dest, signed_), Divisor(src, signed_)), Remainder(Dividend(dest, signed_), Divisor(src, signed_));
              quo % 0x1_0000 == q % 0x1_0000 && rem % 0x1_0000 == r % 0x1_0000 && (quo == 0 <==> q == 0)
  {
    var srcNeg := signed_ && src >= 0x8000;
    var destNeg := signed_ && dest >= 0x8000_0000;
    var resNeg := srcNeg != destNeg;
    var absSrc := if srcNeg then 0x1_0000 - src else src;
    var absDest := if destNeg then TWO32 - dest else dest;
    var absQuo, absRem;
    ok, absQuo, absRem := DivideMagnitudes(absDest, absSrc, signed_, resNeg);
    quo, rem := 0, 0;
    if ok {
      LowWord(resNeg, absQuo);
      LowWord(destNeg, absRem);
      quo := if resNeg then (TWO32 - absQuo) % TWO32 else absQuo;
      rem := if destNeg then (TWO32 - absRem) % TWO32 else absRem;
    }
  }

  /** DIVU and DIVS. A zero divisor only clears C (the caller has already refused it). Otherwise
      the truncated quotient and remainder are packed into Dn exactly when the quotient fits
      sixteen bits; when it does not, Dn keeps its value and V and N are set. */
  method DoDiv(cpu: RegisterFile, dr: nat, src: nat, signed_: bool)
    requires cpu.Valid() && dr < 8 && src < 0x1_0000
    modifies cpu
    ensures cpu.Valid()
    ensures src == 0 ==> cpu.D == old(cpu.D) && cpu.SR == old(cpu.SR).(c := false)
    ensures src != 0 ==> Divided(old(cpu.D), old(cpu.SR), dr, src, signed_, cpu.D, cpu.SR)
  {
    cpu.SR := cpu.SR.(c := false);
    if src == 0 {
      return;
    }
    var ok, quo, rem := Divide(cpu.D[dr], src, signed_);
    MagnitudesDivide(Dividend(cpu.D[dr], signed_), Divisor(src, signed_),
                     Quotient(Dividend(cpu.D[dr], signed_), Divisor(src, signed_)),
                     Remainder(Dividend(cpu.D[dr], signed_), Divisor(src, signed_)));
    if ok {
      cpu.D := cpu.D[dr := quo % 0x1_0000 + rem % 0x1_0000 * 0x1_0000];
      cpu.SR := cpu.SR.(n := quo % 0x1_0000 >= 0x8000, z := quo == 0, v := false);
    } else {
      cpu.SR := cpu.SR.(n := true, z := false, v := true);
    }
  }

  /** The outcome of a division by a nonzero word, by the division equation alone: remainder above
      quotient when the quotient fits, V and N over an unchanged register when it does not. */
  ghost predicate Divided(D: seq<u32>, sr: Status, dr: nat, src: nat, signed_: bool, D': seq<u32>, sr': Status)
    requires |D| == 8 && dr < 8
  {
    exists q: int, r: int :: TruncatedDivision(Dividend(D[dr], signed_), Divisor(src, signed_), q, r)
      && if QuotientFits(q, signed_) then
           && D' == D[dr := q % 0x1_0000 + r % 0x1_0000 * 0x1_0000]
           && sr' == sr.(n := q % 0x1_0000 >= 0x8000, z := q == 0, v := false, c := false)
         else D' == D && sr' == sr.(n := true, z := false, v := true, c := false)
  }

  // ---- one digit with carry ----------------------------------------------------------

  /** One digit position of a sum (or difference) in base s: operands a and b, carry (borrow) in,
      result digit r, carry out. */
  predicate Position(add: bool, s: nat, a: int, b: int, cin: bool, r: int, cout: bool)
  {
    && 0 <= r < s
    && if add then r + (if cout then s else 0) == a + b + B2N(cin)
       else r - (if cout then s else 0) == a - b - B2N(cin)
  }

  /** The exact signed value one extended operation produces from signed operands. */
  function Exact(add: bool, a: int, b: int, cin: bool): int
  {
    if add then a + b + B2N(cin) else a - b - B2N(cin)
  }

  /** What ADDX and SUBX do to the status register: X is C, Z is sticky. */
  predicate Extended(add: bool, s: nat, sr: Status, a: int, b: int, r: int, sr': Status)
  {
    && Position(add, s, a, b, sr.x, r, sr'.c)
    && sr'.x == sr'.c && sr'.sys == sr.sys
    && sr'.z == (sr.z && r == 0)
    && sr'.n == Msb(r, s)
    && sr'.v == !InSignedRange(Exact(add, Signed(a, s), Signed(b, s), sr.x), s)
  }

  /** V from sign bits is signed overflow. */
  lemma ExtendedOverflow(add: bool, s: nat, a: int, b: int, cin: bool, r: int, cout: bool)
    requires s % 2 == 0 && 0 <= a < s && 0 <= b < s && Position(add, s, a, b, cin, r, cout)
    ensures !InSignedRange(Exact(add, Signed(a, s), Signed(b, s), cin), s) ==
            if add then Msb(a, s) == Msb(b, s) && Msb(a, s) != Msb(r, s)
            else Msb(a, s) != Msb(b, s) && Msb(a, s) != Msb(r, s)
  {
  }

  lemma {:induction false} WideSum(e: int, s: nat)
    requires 0 <= e < 2 * s
    ensures e % s == (if e >= s then e - s else e) && (e / s % 2 == 1) == (e >= s)
  {
    DivModUnique(e, s, if e >= s then 1 else 0, if e >= s then e - s else e);
  }

  lemma {:induction false} WideDifference(e: int, sz: Size, full: int)
    requires 0 <= e + Span(sz) && e < Span(sz) && full == e % 0x1_0000_0000_0000_0000
    ensures full % Span(sz) == (if e < 0 then e + Span(sz) else e)
    ensures (full / 0x8000_0000_0000_0000 % 2 == 1) == (e < 0)
  {
    match sz
    case Byte => assert full % 0x100 == e % 0x100;
    case Word => assert full % 0x1_0000 == e % 0x1_0000;
    case Long => assert full % 0x1_0000_0000 == e % 0x1_0000_0000;
  }

  /** The 64-bit intermediate: its low bits are the digit, and bit `bits` (for a sum) or the top
      bit (for a difference) is the carry. */
  method WideIntermediate(add: bool, sz: Size, a: nat, b: nat, x: bool) returns (r: nat, carry: bool)
    requires a < Span(sz) && b < Span(sz)
    ensures Position(add, Span(sz), a, b, x, r, carry)
  {
    var s := Span(sz);
    if add {
      var full := a + b + B2N(x);
      WideSum(full, s);
      r, carry := full % s, full / s % 2 == 1;
    } else {
      var full := (a - b - B2N(x)) % 0x1_0000_0000_0000_0000;
      WideDifference(a - b - B2N(x), sz, full);
      r, carry := full % s, full / 0x8000_0000_0000_0000 % 2 == 1;
    }
  }

  /** do_addx_subx on fetched operands. */
  method AddxSubx(sr: Status, a: nat, b: nat, sz: Size, add: bool) returns (r: nat, sr': Status)
    requires a < Span(sz) && b < Span(sz)
    ensures Extended(add, Span(sz), sr, a, b, r, sr')
  {
    var s, carry := Span(sz), false;
    r, carry := WideIntermediate(add, sz, a, b, sr.x);
    ExtendedOverflow(add, s, a, b, sr.x, r, carry);
    var v := if add then Msb(a, s) == Msb(b, s) && Msb(a, s) != Msb(r, s)
             else Msb(a, s) != Msb(b, s) && Msb(a, s) != Msb(r, s);
    sr' := Status(sr.sys, carry, Msb(r, s), r == 0 && sr.z, v, carry);
  }

  /** The Dn,Dn form. */
  method DoAddxSubx(cpu: RegisterFile, dst: nat, src: nat, sz: Size, add: bool) returns (ghost r: nat)
    requires cpu.Valid() && dst < 8 && src < 8
    modifies cpu
    ensures cpu.Valid()
    ensures Extended(add, Span(sz), old(cpu.SR), old(cpu.D[dst]) % Span(sz), old(cpu.D[src]) % Span(sz), r, cpu.SR)
    ensures cpu.D == old(cpu.D)[dst := StoreSized(old(cpu.D[dst]), r, sz)]
  {
    var res, sr := AddxSubx(cpu.SR, cpu.D[dst] % Span(sz), cpu.D[src] % Span(sz), sz, add);
    r := res;
    cpu.SR := sr;
    cpu.StoreDn(dst, res, sz);
  }

  // ---- chains over any number of digits ----------------------------------------------

  function Power(s: nat, n: nat): nat { if n == 0 then 1 else s * Power(s, n - 1) }

  /** The number written by digits in base s, least significant first. */
  function Value(s: nat, ds: seq<int>): int
  {
    if ds == [] then 0 else ds[0] + s * Value(s, ds[1..])
  }

  /** Its two's-complement reading: the top digit is signed. */
  function SignedValue(s: nat, ds: seq<int>): int
    requires ds != []
  {
    if |ds| == 1 then Signed(ds[0], s) else ds[0] + s * SignedValue(s, ds[1..])
  }

  /** Scaling the tail's equation by the base. */
  lemma {:induction false} ChainStep(add: bool, s: nat, r0: int, r: int, a: int, b: int, top: int, p: int, c: bool)
    requires 0 <= r < p && 0 <= r0 < s
    requires if add then r + top == a + b + B2N(c) else r - top == a - b - B2N(c)
    ensures if add then s * r + s * top == s * a + s * b + (if c then s else 0)
            else s * r - s * top == s * a - s * b - (if c then s else 0)
    ensures 0 <= r0 + s * r < s * p
  {
    Scaled(s, r, p);
    Spread(s, r, top, a, b, B2N(c));
    Spread(s, a, top, r, b, B2N(c));
  }

  lemma {:induction false} Scaled(s: nat, r: nat, p: int)
    requires r < p
    ensures 0 <= s * r <= s * p - s
  {
    assert s * (p - 1) == s * p - s;
    assert s * (p - 1 - r) >= 0;
  }

  lemma {:induction false} Spread(s: int, r: int, top: int, a: int, b: int, c: int)
    ensures r + top == a + b + c ==> s * r + s * top == s * a + s * b + s * c
  {
    assert s * (r + top) == s * r + s * top;
    assert s * (a + b + c) == s * a + s * b + s * c;
  }

  /** A number is zero exactly when its lowest digit and the rest are. */
  lemma {:induction false} DigitsZero(s: nat, d: int, t: int)
    requires s > 0 && d >= 0 && t >= 0
    ensures s * t >= 0 && (d + s * t == 0 <==> d == 0 && t == 0)
  {
    assert t > 0 ==> s * t >= s;
  }

  /** One run of ADDX or SUBX instructions over digits, least significant first. */
  ghost predicate ExtendedChain(add: bool, s: nat, a: seq<int>, b: seq<int>, r: seq<int>, sr: seq<Status>)
  {
    && |a| == |b| == |r| && |sr| == |a| + 1
    && forall i :: 0 <= i < |a| ==> Extended(add, s, sr[i], a[i], b[i], r[i], sr[i + 1])
  }

  /** The unsigned half: the chain computes the multi-word sum or difference, C and X are its
      carry or borrow, and Z survives exactly when the whole result is zero. */
  lemma {:induction false} ExtendedChainUnsigned(add: bool, s: nat, a: seq<int>, b: seq<int>, r: seq<int>, sr: seq<Status>)
    requires s > 0 && ExtendedChain(add, s, a, b, r, sr)
    ensures 0 <= Value(s, r) < Power(s, |a|)
    ensures var top := if sr[|a|].x then Power(s, |a|) else 0;
            if add then Value(s, r) + top == Value(s, a) + Value(s, b) + B2N(sr[0].x)
            else Value(s, r) - top == Value(s, a) - Value(s, b) - B2N(sr[0].x)
    ensures sr[|a|].z == (sr[0].z && Value(s, r) == 0)
    ensures |a| > 0 ==> sr[|a|].c == sr[|a|].x
  {
    if |a| > 0 {
      ExtendedChainUnsigned(add, s, a[1..], b[1..], r[1..], sr[1..]);
      var n := |a| - 1;
      assert Extended(add, s, sr[0], a[0], b[0], r[0], sr[1]);
      ChainStep(add, s, r[0], Value(s, r[1..]), Value(s, a[1..]), Value(s, b[1..]),
                if sr[|a|].x then Power(s, n) else 0, Power(s, n), sr[1].x);
      DigitsZero(s, r[0], Value(s, r[1..]));
      assert Extended(add, s, sr[n], a[n], b[n], r[n], sr[|a|]);
    }
  }

  /** Half the range of n digits: s^n / 2. */
  function HalfRange(s: nat, n: nat): nat { if n <= 1 then s / 2 else s * HalfRange(s, n - 1) }

  /** The signed half: N and V of the last instruction are the sign and the signed overflow of
      the whole multi-word result. */
  lemma {:induction false} ExtendedChainSigned(add: bool, s: nat, a: seq<int>, b: seq<int>, r: seq<int>, sr: seq<Status>)
    requires s > 0 && s % 2 == 0 && |a| > 0 && ExtendedChain(add, s, a, b, r, sr)
    requires forall i :: 0 <= i < |a| ==> 0 <= a[i] < s && 0 <= b[i] < s
    ensures SignedOutcome(add, s, SignedValue(s, a), SignedValue(s, b), SignedValue(s, r), sr[0].x, HalfRange(s, |a|), sr[|a|])
  {
    assert Extended(add, s, sr[0], a[0], b[0], r[0], sr[1]);
    if |a| == 1 {
      SignedBase(add, s, a[0], b[0], r[0], sr[0], sr[1]);
    } else {
      ExtendedChainSigned(add, s, a[1..], b[1..], r[1..], sr[1..]);
      SignedStep(add, s, a[0], b[0], r[0], sr[0].x, sr[1].x, SignedValue(s, a[1..]), SignedValue(s, b[1..]),
                 SignedValue(s, r[1..]), HalfRange(s, |a| - 1));
    }
  }

  /** V is overflow of the range [-h, h), N the sign, and without overflow the value is exact. */
  predicate SignedOutcome(add: bool, s: nat, a: int, b: int, r: int, cin: bool, h: int, last: Status)
  {
    var exact := Exact(add, a, b, cin);
    && last.v == !(-h <= exact < h)
    && last.n == (r < 0)
    && (!last.v ==> r == exact)
  }

  lemma SignedBase(add: bool, s: nat, a: int, b: int, r: int, sr: Status, sr': Status)
    requires s > 0 && s % 2 == 0 && 0 <= a < s && 0 <= b < s && Extended(add, s, sr, a, b, r, sr')
    ensures SignedOutcome(add, s, Signed(a, s), Signed(b, s), Signed(r, s), sr.x, s / 2, sr')
  {
  }

  /** Appending a low digit scales every bound by the base. */
  lemma {:induction false} SignedStep(add: bool, s: nat, a: int, b: int, r: int, cin: bool, c: bool, sa: int, sb: int, sr: int, h: int)
    requires s > 0 && Position(add, s, a, b, cin, r, c)
    ensures var tail := Exact(add, sa, sb, c);
            var exact := Exact(add, a + s * sa, b + s * sb, cin);
            && (-h <= tail < h <==> -(s * h) <= exact < s * h)
            && (sr == tail ==> r + s * sr == exact)
            && (sr < 0 <==> r + s * sr < 0)
  {
    var tail := Exact(add, sa, sb, c);
    ScaleSplit(add, s, sa, sb, c);
    assert Exact(add, a + s * sa, b + s * sb, cin) == r + s * tail;
    ScaledBelow(s, r, tail, h);
    ScaledBelow(s, r, tail, -h);
    ScaledBelow(s, r, sr, 0);
    assert s * -h == -(s * h);
  }

  lemma ScaleSplit(add: bool, s: int, sa: int, sb: int, c: bool)
    ensures s * Exact(add, sa, sb, c) ==
            if add then s * sa + s * sb + (if c then s else 0) else s * sa - s * sb - (if c then s else 0)
  {
  }

  lemma {:induction false} ScaledBelow(s: int, r: int, t: int, h: int)
    requires 0 <= r < s
    ensures r + s * t < s * h <==> t < h
  {
    assert t < h ==> s * t <= s * (h - 1);
    assert t >= h ==> s * t >= s * h;
    assert s * (h - 1) == s * h - s;
  }

  /** A chain of any length, started with X clear and Z set, is multi-word arithmetic: C and X
      are the final carry or borrow, Z says whether the whole result is zero, N is its sign and V
      its signed overflow. */
  lemma {:induction false} MultiWordArithmetic(add: bool, s: nat, a: seq<int>, b: seq<int>, r: seq<int>, sr: seq<Status>)
    requires s > 0 && s % 2 == 0 && |a| > 0 && ExtendedChain(add, s, a, b, r, sr)
    requires forall i :: 0 <= i < |a| ==> 0 <= a[i] < s && 0 <= b[i] < s
    requires !sr[0].x && sr[0].z
    ensures var last := sr[|a|];
            && last.c == last.x
            && last.c == (if add then Value(s, a) + Value(s, b) >= Power(s, |a|) else Value(s, a) < Value(s, b))
            && Value(s, r) == (if add then Value(s, a) + Value(s, b) - (if last.c then Power(s, |a|) else 0)
                               else Value(s, a) - Value(s, b) + (if last.c then Power(s, |a|) else 0))
            && last.z == (Value(s, r) == 0)
            && SignedOutcome(add, s, SignedValue(s, a), SignedValue(s, b), SignedValue(s, r), false, HalfRange(s, |a|), last)
  {
    ExtendedChainUnsigned(add, s, a, b, r, sr);
    ExtendedChainSigned(add, s, a, b, r, sr);
  }

  // ---- packed decimal ----------------------------------------------------------------

  predicate ValidBcd(v: int) { 0 <= v < 256 && v % 16 <= 9 && v / 16 <= 9 }

  /** The number two packed decimal digits stand for. */
  function Decimal(v: int): int { v / 16 * 10 + v % 16 }

  datatype BcdOp = ABCD | SBCD | NBCD

  /** The decimal operands of each instruction: NBCD subtracts from zero. */
  function Minuend(op: BcdOp, a: int): int { if op == NBCD then 0 else Decimal(a) }
  function Operand(op: BcdOp, a: int, b: int): int { if op == NBCD then Decimal(a) else Decimal(b) }

  /** The decimal adjust of a digit sum. */
  lemma AdjustUp(v: int)
    requires 0 <= v <= 19
    ensures var adj := if v > 9 then 6 else 0;
            (v + adj) / 16 == (if v > 9 then 1 else 0) && (v + adj) % 16 == (if v > 9 then v - 10 else v)
  {
  }

  /** Two decimal digits packed in a byte, perhaps with a carry above it. */
  lemma {:induction false} PackedDigits(h: int, l: int, full: int)
    requires 0 <= h <= 9 && 0 <= l <= 9
    requires full == h * 16 + l || full == 256 + h * 16 + l || full == 16 * 256 - 256 + h * 16 + l
    ensures full % 256 == h * 16 + l && (full < 512 ==> full / 256 % 2 == if full >= 256 then 1 else 0)
    ensures ValidBcd(h * 16 + l) && Decimal(h * 16 + l) == h * 10 + l
  {
    var p := h * 16 + l;
    assert p / 16 == h && p % 16 == l;
  }

  /** ABCD on nibbles. */
  method AddDigits(ah: nat, al: nat, bh: nat, bl: nat, x: nat) returns (r: nat, carry: bool)
    requires ah < 16 && al < 16 && bh < 16 && bl < 16 && x <= 1
    ensures r < 256
    ensures ah <= 9 && al <= 9 && bh <= 9 && bl <= 9 ==>
              && ValidBcd(r)
              && Decimal(r) + (if carry then 100 else 0) == (ah * 10 + al) + (bh * 10 + bl) + x
  {
    var lo := al + bl + x;
    var adjLo := if lo > 9 then 6 else 0;
    var hi := ah + bh + (lo + adjLo) / 16;
    var adjHi := if hi > 9 then 6 else 0;
    var full := hi * 16 + adjHi * 16 + (lo + adjLo) % 16;
    r := full % 256;
    carry := full / 256 % 2 == 1;
    if ah <= 9 && al <= 9 && bh <= 9 && bl <= 9 {
      AdjustUp(lo);
      PackedDigits(if hi > 9 then hi - 10 else hi, if lo > 9 then lo - 10 else lo, full);
    }
  }

  /** The decimal adjust of a digit difference. */
  lemma AdjustDown(lo: int, hi: int)
    requires -10 <= lo <= 9 && -10 <= hi <= 9
    ensures (lo - if lo < 0 then 6 else 0) % 16 == if lo < 0 then lo + 10 else lo
    ensures hi % 256 == if hi < 0 then hi + 256 else hi
  {
  }

  /** SBCD on nibbles; NBCD is SBCD from zero. */
  method SubtractDigits(ah: nat, al: nat, bh: nat, bl: nat, x: nat) returns (r: nat, carry: bool)
    requires ah < 16 && al < 16 && bh < 16 && bl < 16 && x <= 1
    ensures r < 256
    ensures ah <= 9 && al <= 9 && bh <= 9 && bl <= 9 ==>
              && ValidBcd(r)
              && Decimal(r) - (if carry then 100 else 0) == (ah * 10 + al) - (bh * 10 + bl) - x
  {
    var lo := al - bl - x;
    var adjLo := if lo < 0 then 6 else 0;
    var hi := ah - bh - (if lo < 0 then 1 else 0);
    var adjHi := if hi < 0 then 6 else 0;
    var full := hi % 256 * 16 - adjHi * 16 + (lo - adjLo) % 16;
    r := full % 256;
    carry := hi < 0;
    if ah <= 9 && al <= 9 && bh <= 9 && bl <= 9 {
      AdjustDown(lo, hi);
      PackedDigits(if hi < 0 then hi + 10 else hi, if lo < 0 then lo + 10 else lo, full);
    }
  }

  /** do_bcd on fetched bytes. On valid digits one instruction is one decimal position in base
      one hundred; on any bytes X follows C, Z is sticky and V is cleared. */
  method DoBcd(sr: Status, op: BcdOp, a: nat, b: nat) returns (r: nat, sr': Status)
    requires a < 256 && b < 256
    ensures r < 256
    ensures sr' == Status(sr.sys, sr'.c, r >= 128, sr.z && r == 0, false, sr'.c)
    ensures ValidBcd(a) && (op == NBCD || ValidBcd(b)) ==>
              && ValidBcd(r)
              && Position(op == ABCD, 100, Minuend(op, a), Operand(op, a, b), sr.x, Decimal(r), sr'.c)
  {
    var x := if sr.x then 1 else 0;
    var carry;
    match op {
      case ABCD => r, carry := AddDigits(a / 16, a % 16, b / 16, b % 16, x);
      case SBCD => r, carry := SubtractDigits(a / 16, a % 16, b / 16, b % 16, x);
      case NBCD => r, carry := SubtractDigits(0, 0, a / 16, a % 16, x);
    }
    sr' := Status(sr.sys, carry, r >= 128, sr.z && r == 0, false, carry);
  }

  /** One ABCD or SBCD instruction of a chain, on valid digits. */
  predicate BcdPosition(add: bool, sr: Status, a: int, b: int, r: int, sr': Status)
  {
    && ValidBcd(r)
    && Position(add, 100, Decimal(a), Decimal(b), sr.x, Decimal(r), sr'.c)
    && sr'.x == sr'.c
    && sr'.z == (sr.z && r == 0)
  }

  /** A run of ABCD (or SBCD) over valid packed bytes, least significant first. */
  ghost predicate BcdChain(add: bool, a: seq<int>, b: seq<int>, r: seq<int>, sr: seq<Status>)
  {
    && |a| == |b| == |r| && |sr| == |a| + 1
    && forall i :: 0 <= i < |a| ==> BcdPosition(add, sr[i], a[i], b[i], r[i], sr[i + 1])
  }

  /** The decimal number a string of packed bytes stands for. */
  function DecimalValue(v: seq<int>): int
  {
    if v == [] then 0 else Decimal(v[0]) + 100 * DecimalValue(v[1..])
  }

  /** Decimal chains of any length: the result is the decimal sum or difference, X and C the
      final carry or borrow, and Z survives exactly when the whole result is zero. */
  lemma {:induction false} BcdChainComputes(add: bool, a: seq<int>, b: seq<int>, r: seq<int>, sr: seq<Status>)
    requires BcdChain(add, a, b, r, sr)
    ensures 0 <= DecimalValue(r) < Power(100, |a|)
    ensures var top := if sr[|a|].x then Power(100, |a|) else 0;
            if add then DecimalValue(r) + top == DecimalValue(a) + DecimalValue(b) + B2N(sr[0].x)
            else DecimalValue(r) - top == DecimalValue(a) - DecimalValue(b) - B2N(sr[0].x)
    ensures sr[|a|].z == (sr[0].z && DecimalValue(r) == 0)
    ensures |a| > 0 ==> sr[|a|].c == sr[|a|].x
  {
    if |a| > 0 {
      BcdChainComputes(add, a[1..], b[1..], r[1..], sr[1..]);
      var n := |a| - 1;
      assert BcdPosition(add, sr[0], a[0], b[0], r[0], sr[1]);
      ZeroDigits(r[0]);
      ChainStep(add, 100, Decimal(r[0]), DecimalValue(r[1..]), DecimalValue(a[1..]), DecimalValue(b[1..]),
                if sr[|a|].x then Power(100, n) else 0, Power(100, n), sr[1].x);
      assert BcdPosition(add, sr[n], a[n], b[n], r[n], sr[|a|]);
    }
  }

  lemma ZeroDigits(r: int)
    requires ValidBcd(r)
    ensures 0 <= Decimal(r) < 100 && (Decimal(r) == 0 <==> r == 0)
  {
  }

  /** ABCD (or SBCD) over packed strings, one instruction a byte, least significant first: a chain, so
      on valid digits the decimal sum (or difference) of the whole strings. */
  method BcdString(add: bool, a: seq<int>, b: seq<int>, start: Status) returns (r: seq<int>, sr: seq<Status>)
    requires |a| == |b| && forall i :: 0 <= i < |a| ==> ValidBcd(a[i]) && ValidBcd(b[i])
    ensures BcdChain(add, a, b, r, sr) && sr[0] == start
    ensures var top := if sr[|a|].x then Power(100, |a|) else 0;
            if add then DecimalValue(r) + top == DecimalValue(a) + DecimalValue(b) + B2N(start.x)
            else DecimalValue(r) - top == DecimalValue(a) - DecimalValue(b) - B2N(start.x)
    ensures sr[|a|].z == (start.z && DecimalValue(r) == 0)
  {
    r, sr := [], [start];
    for i := 0 to |a|
      invariant |r| == i && |sr| == i + 1 && sr[0] == start
      invariant forall k :: 0 <= k < i ==> BcdPosition(add, sr[k], a[k], b[k], r[k], sr[k + 1])
    {
      var digit, next := DoBcd(sr[i], if add then ABCD else SBCD, a[i], b[i]);
      r, sr := r + [digit], sr + [next];
    }
    BcdChainComputes(add, a, b, r, sr);
  }

  /** The same for ADDX and SUBX limbs. */
  method ExtendedString(add: bool, sz: Size, a: seq<int>, b: seq<int>, start: Status) returns (r: seq<int>, sr: seq<Status>)
    requires |a| == |b| && forall i :: 0 <= i < |a| ==> 0 <= a[i] < Span(sz) && 0 <= b[i] < Span(sz)
    ensures ExtendedChain(add, Span(sz), a, b, r, sr) && sr[0] == start
  {
    r, sr := [], [start];
    for i := 0 to |a|
      invariant |r| == i && |sr| == i + 1 && sr[0] == start
      invariant forall k :: 0 <= k < i ==> Extended(add, Span(sz), sr[k], a[k], b[k], r[k], sr[k + 1])
    {
      var digit, next := AddxSubx(sr[i], a[i], b[i], sz, add);
      r, sr := r + [digit], sr + [next];
    }
  }
}
