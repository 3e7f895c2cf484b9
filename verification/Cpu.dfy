/** The 68000 register file and memory as the interpreter floor sees them, with the size
    helpers and condition-code helpers of runner/m68k_interp.c. */
module Cpu {
  import opened Bits

  datatype Size = Byte | Word | Long

  function BitsOf(sz: Size): nat { match sz case Byte => 8 case Word => 16 case Long => 32 }

  /** 2^bits: `v & szmask(sz)` is `v % Span(sz)`. */
  function Span(sz: Size): nat { match sz case Byte => 0x100 case Word => 0x1_0000 case Long => 0x1_0000_0000 }

  lemma {:induction false} SpanIsPow2(sz: Size)
    ensures Span(sz) == Pow2(BitsOf(sz))
  {
    assert Pow2(8) == 0x100;
    assert Pow2(16) == 0x100 * Pow2(8);
    assert Pow2(24) == 0x100 * Pow2(16);
    assert Pow2(32) == 0x100 * Pow2(24);
  }

  /** The status register: `sys` holds every bit above the five condition codes. */
  datatype Status = Status(sys: nat, x: bool, n: bool, z: bool, v: bool, c: bool)

  function Msb(v: int, span: nat): bool { v >= span / 2 }

  /** Two's-complement reading of a word. */
  function Signed(v: int, span: nat): int { if v >= span / 2 then v - span else v }

  function B2N(b: bool): nat { if b then 1 else 0 }

  lemma Joined(high: nat, bound: nat, span: nat, low: nat)
    requires high < bound && low < span && bound * span == TWO32 && (span == 0x100 || span == 0x1_0000)
    ensures 0 <= high * span + low < TWO32
  {
  }

  /** The low part replaced, the rest kept. */
  function StoreSized(old_: u32, val: u32, sz: Size): u32
  {
    match sz
    case Byte => Joined(old_ / 0x100, 0x100_0000, 0x100, val % 0x100); old_ / 0x100 * 0x100 + val % 0x100
    case Word => Joined(old_ / 0x1_0000, 0x1_0000, 0x1_0000, val % 0x1_0000); old_ / 0x1_0000 * 0x1_0000 + val % 0x1_0000
    case Long => val
  }

  lemma {:induction false} StoredParts(old_: u32, val: u32, sz: Size)
    ensures StoreSized(old_, val, sz) % Span(sz) == val % Span(sz)
    ensures StoreSized(old_, val, sz) / Span(sz) == if sz == Long then 0 else old_ / Span(sz)
  {
    match sz
    case Byte => DivModUnique(StoreSized(old_, val, sz), 0x100, old_ / 0x100, val % 0x100);
    case Word => DivModUnique(StoreSized(old_, val, sz), 0x1_0000, old_ / 0x1_0000, val % 0x1_0000);
    case Long =>
  }

  /** The data registers and the status register. */
  class RegisterFile {
    var D: seq<u32>
    var SR: Status

    constructor ()
      ensures Valid() && SR == Status(0, false, false, false, false, false)
    {
      D := seq(8, _ => 0);
      SR := Status(0, false, false, false, false, false);
    }

    ghost predicate Valid()
      reads this
    {
      |D| == 8
    }

    /** store_dn: a byte or word write keeps the upper bits of the register. */
    method StoreDn(reg: nat, val: u32, sz: Size)
      requires Valid() && reg < 8
      modifies this`D
      ensures D == old(D)[reg := StoreSized(old(D[reg]), val, sz)]
    {
      if sz == Long {
        D := D[reg := val];
      } else {
        var keep := if sz == Byte then D[reg] / 0x100 * 0x100 else D[reg] / 0x1_0000 * 0x1_0000;
        D := D[reg := keep + if sz == Byte then val % 0x100 else val % 0x1_0000];
      }
    }
  }

  // ---- condition-code helpers --------------------------------------------------------

  /** flags_add on already masked operands: `(fa ^ fb) & sb` tests whether two sign bits
      differ. */
  function AddCodes(sr: Status, fa: int, fb: int, fr: int, s: nat): Status
  {
    Status(sr.sys, fa + fb > s - 1, Msb(fr, s), fr == 0,
           Msb(fa, s) == Msb(fb, s) && Msb(fa, s) != Msb(fr, s), fa + fb > s - 1)
  }

  /** flags_cmp on already masked operands; X is left alone. */
  function CmpCodes(sr: Status, fa: int, fb: int, fr: int, s: nat): Status
  {
    Status(sr.sys, sr.x, Msb(fr, s), fr == 0,
           Msb(fa, s) != Msb(fb, s) && Msb(fa, s) != Msb(fr, s), fb > fa)
  }

  function FlagsAdd(sr: Status, a: u32, b: u32, r: u32, sz: Size): Status
  {
    AddCodes(sr, a % Span(sz), b % Span(sz), r % Span(sz), Span(sz))
  }

  function FlagsCmp(sr: Status, a: u32, b: u32, r: u32, sz: Size): Status
  {
    CmpCodes(sr, a % Span(sz), b % Span(sz), r % Span(sz), Span(sz))
  }

  /** flags_sub is flags_cmp that also copies the borrow into X. */
  function FlagsSub(sr: Status, a: u32, b: u32, r: u32, sz: Size): Status
  {
    FlagsCmp(sr, a, b, r, sz).(x := b % Span(sz) > a % Span(sz))
  }

  predicate EvalCond(sr: Status, cc: nat)
  {
    match cc % 16
    case 0 => true
    case 1 => false
    case 2 => !sr.c && !sr.z
    case 3 => sr.c || sr.z
    case 4 => !sr.c
    case 5 => sr.c
    case 6 => !sr.z
    case 7 => sr.z
    case 8 => !sr.v
    case 9 => sr.v
    case 10 => !sr.n
    case 11 => sr.n
    case 12 => sr.n == sr.v
    case 13 => sr.n != sr.v
    case 14 => !sr.z && sr.n == sr.v
    case _ => sr.z || sr.n != sr.v
  }

  predicate InSignedRange(v: int, s: nat) { -(s / 2) <= v < s / 2 }

  /** What the condition codes of an exact signed result `exact` must say, where `r` is that
      result wrapped to the word. */
  predicate SignedCodes(f: Status, exact: int, r: int, s: nat)
  {
    && f.v == !InSignedRange(exact, s)
    && f.n == (Signed(r, s) < 0)
    && (f.v || f.n == (exact < 0))
    && f.z == (r == 0)
  }

  lemma {:induction false} WrapSized(v: int, sz: Size)
    ensures v % TWO32 % Span(sz) == v % Span(sz)
  {
    ModMod(v, Span(sz), if sz == Byte then 0x100_0000 else if sz == Word then 0x1_0000 else 1);
  }

  /** The wrapped 32-bit sum and difference, cut to size. */
  lemma {:induction false} WrappedResults(a: u32, b: u32, sz: Size)
    ensures (a + b) % TWO32 % Span(sz) == Sum(a % Span(sz), b % Span(sz), Span(sz))
    ensures (a - b) % TWO32 % Span(sz) == Difference(a % Span(sz), b % Span(sz), Span(sz))
  {
    var s := Span(sz);
    WrapSized(a + b, sz);
    WrapSized(a - b, sz);
    ModAddSub(a, b, s);
    WrapOnce(a % s + b % s, s);
    WrapOnce(a % s - b % s, s);
  }

  /** Sum and difference of two words, wrapped to the word. */
  function Sum(a: int, b: int, s: nat): int { if a + b >= s then a + b - s else a + b }
  function Difference(a: int, b: int, s: nat): int { if a < b then a - b + s else a - b }

  lemma AddCodesMeaning(sr: Status, a: int, b: int, s: nat)
    requires 0 <= a < s && 0 <= b < s && s % 2 == 0
    ensures SignedCodes(AddCodes(sr, a, b, Sum(a, b, s), s), Signed(a, s) + Signed(b, s), Sum(a, b, s), s)
  {
  }

  lemma CmpCodesMeaning(sr: Status, a: int, b: int, s: nat)
    requires 0 <= a < s && 0 <= b < s && s % 2 == 0
    ensures SignedCodes(CmpCodes(sr, a, b, Difference(a, b, s), s), Signed(a, s) - Signed(b, s), Difference(a, b, s), s)
  {
  }

  /** ADD: C and X report unsigned overflow of the sized sum, V reports signed overflow, and
      N and Z describe the wrapped result. */
  lemma {:induction false} AddFlagsMeaning(sr: Status, a: u32, b: u32, sz: Size)
    ensures var s := Span(sz);
            var f := FlagsAdd(sr, a, b, (a + b) % TWO32, sz);
            var ua, ub := a % s, b % s;
            && f.sys == sr.sys
            && f.c == f.x == (ua + ub >= s)
            && SignedCodes(f, Signed(ua, s) + Signed(ub, s), Sum(ua, ub, s), s)
  {
    WrappedResults(a, b, sz);
    AddCodesMeaning(sr, a % Span(sz), b % Span(sz), Span(sz));
  }

  /** SUB and CMP: C (and X for SUB) is the unsigned borrow, V is signed overflow. */
  lemma {:induction false} SubFlagsMeaning(sr: Status, a: u32, b: u32, sz: Size)
    ensures var s := Span(sz);
            var f := FlagsSub(sr, a, b, (a - b) % TWO32, sz);
            var ua, ub := a % s, b % s;
            && f.sys == sr.sys
            && f.c == f.x == (ua < ub)
            && f.z == (ua == ub)
            && SignedCodes(f, Signed(ua, s) - Signed(ub, s), Difference(ua, ub, s), s)
            && FlagsCmp(sr, a, b, (a - b) % TWO32, sz) == f.(x := sr.x)
  {
    WrappedResults(a, b, sz);
    CmpCodesMeaning(sr, a % Span(sz), b % Span(sz), Span(sz));
  }

  /** After CMP a,b the conditional tests are exactly the unsigned and signed comparisons. */
  lemma {:induction false} CompareThenBranch(sr: Status, a: u32, b: u32, sz: Size)
    ensures var s := Span(sz);
            var f := FlagsCmp(sr, a, b, (a - b) % TWO32, sz);
            var ua, ub := a % s, b % s;
            var sa, sb := Signed(ua, s), Signed(ub, s);
            && EvalCond(f, 2) == (ua > ub) && EvalCond(f, 3) == (ua <= ub)
            && EvalCond(f, 4) == (ua >= ub) && EvalCond(f, 5) == (ua < ub)
            && EvalCond(f, 6) == (ua != ub) && EvalCond(f, 7) == (ua == ub)
            && EvalCond(f, 12) == (sa >= sb) && EvalCond(f, 13) == (sa < sb)
            && EvalCond(f, 14) == (sa > sb) && EvalCond(f, 15) == (sa <= sb)
  {
    SubFlagsMeaning(sr, a, b, sz);
  }

  /** The other six tests after CMP a,b: always, never, signed overflow and the sign of the wrapped
      difference; each odd test is the opposite of the even one before it. */
  lemma {:induction false} OtherConditions(sr: Status, a: u32, b: u32, sz: Size)
    ensures var s := Span(sz);
            var f := FlagsCmp(sr, a, b, (a - b) % TWO32, sz);
            var ua, ub := a % s, b % s;
            && EvalCond(f, 0) && !EvalCond(f, 1)
            && EvalCond(f, 8) == InSignedRange(Signed(ua, s) - Signed(ub, s), s)
            && EvalCond(f, 10) == (Signed(Difference(ua, ub, s), s) >= 0)
    ensures forall k :: 0 <= k < 8 ==> EvalCond(sr, 2 * k + 1) == !EvalCond(sr, 2 * k)
  {
    SubFlagsMeaning(sr, a, b, sz);
    forall k | 0 <= k < 8 ensures EvalCond(sr, 2 * k + 1) == !EvalCond(sr, 2 * k) {
      Opposite(sr, k);
    }
  }

  lemma Opposite(sr: Status, k: nat)
    requires k < 8
    ensures EvalCond(sr, 2 * k + 1) == !EvalCond(sr, 2 * k)
  {
  }

  // ---- memory ------------------------------------------------------------------------

  /** Byte-addressed memory, keyed by 32-bit address. */
  type Memory = map<int, u8>
}
