/** MOVEM (runner/m68k_interp.c): a register list stored below a predecremented pointer and loaded
    from above a base. Addresses are 32 bits and wrap; memory is big-endian. */
module Movem {
  import opened Bits
  import opened Cpu

  // ---- memory ------------------------------------------------------------------------

  /** An address never written reads as zero. */
  function Read8(m: Memory, a: int): u8 { if Wrap(a) in m then m[Wrap(a)] else 0 }

  function Read16(m: Memory, a: int): u16
  {
    Read8(m, a) * 256 + Read8(m, a + 1)
  }

  function Write8(m: Memory, a: int, v: u8): Memory { m[Wrap(a) := v] }

  function Write16(m: Memory, a: int, v: u16): Memory
  {
    Write8(Write8(m, a, v / 256), a + 1, v % 256)
  }

  /** m68k_read32, or m68k_read16 sign-extended. */
  function Fetch(m: Memory, a: int, long: bool): u32
  {
    if long then Read16(m, a) * 0x1_0000 + Read16(m, a + 2) else Extended(Read16(m, a))
  }

  /** m68k_write32, or m68k_write16 of the low half. */
  function Store(m: Memory, a: int, v: u32, long: bool): Memory
  {
    if long then Write16(Write16(m, a, v / 0x1_0000), a + 2, v % 0x1_0000) else Write16(m, a, v % 0x1_0000)
  }

  /** A 16-bit value sign-extended to 32 bits. */
  function Extended(v: u16): u32
  {
    if v < 0x8000 then v else v + 0xFFFF_0000
  }

  /** What a value stored and fetched becomes. */
  function Kept(v: u32, long: bool): u32 { if long then v else Extended(v % 0x1_0000) }

  /** Bytes of n registers. */
  function Room(n: nat, long: bool): nat { if long then 4 * n else 2 * n }

  /** A word load keeps the signed value of the word. */
  lemma WordLoadsSigned(v: u16)
    ensures Signed(Extended(v), TWO32) == Signed(v, 0x1_0000)
  {
  }

  /** Memory is big-endian: the most significant byte is at the lowest address. With FetchStored this
      fixes where each byte of a store goes. */
  lemma BigEndian(m: Memory, a: int)
    ensures Fetch(m, a, true)
            == Read8(m, a) * 0x100_0000 + Read8(m, a + 1) * 0x1_0000 + Read8(m, a + 2) * 0x100 + Read8(m, a + 3)
    ensures Fetch(m, a, false) == Extended(Read8(m, a) * 0x100 + Read8(m, a + 1))
  {
  }

  lemma FetchStored(m: Memory, a: int, v: u32, long: bool)
    ensures Fetch(Store(m, a, v, long), a, long) == Kept(v, long)
  {
  }

  lemma WriteElsewhere(m: Memory, a: int, v: u16, b: int)
    requires a + 2 <= b < a + TWO32
    ensures Read8(Write16(m, a, v), b) == Read8(m, b)
  {
  }

  lemma {:induction false} StoreElsewhere(m: Memory, a: int, v: u32, long: bool, b: int)
    requires a + Room(1, long) <= b < a + TWO32
    ensures Read8(Store(m, a, v, long), b) == Read8(m, b)
  {
    if long {
      WriteElsewhere(m, a, v / 0x1_0000, b);
      WriteElsewhere(Write16(m, a, v / 0x1_0000), a + 2, v % 0x1_0000, b);
    } else {
      WriteElsewhere(m, a, v % 0x1_0000, b);
    }
  }

  lemma {:induction false} FetchElsewhere(m: Memory, a: int, v: u32, long: bool, b: int)
    requires a + Room(1, long) <= b <= a + 64
    ensures Fetch(Store(m, a, v, long), b, long) == Fetch(m, b, long)
  {
    var m' := Store(m, a, v, long);
    forall i | b <= i < b + Room(1, long) ensures Read8(m', i) == Read8(m, i) {
      StoreElsewhere(m, a, v, long, i);
    }
    FetchSame(m, m', b, long);
  }

  lemma FetchSame(m: Memory, m': Memory, a: int, long: bool)
    requires forall i :: a <= i < a + Room(1, long) ==> Read8(m', i) == Read8(m, i)
    ensures Fetch(m', a, long) == Fetch(m, a, long)
  {
  }

  lemma {:induction false} WrappedAccess(m: Memory, a: int, v: u32, long: bool)
    ensures Fetch(m, Wrap(a), long) == Fetch(m, a, long)
    ensures Store(m, Wrap(a), v, long) == Store(m, a, v, long)
  {
    WrapShift(a, 0);
    WrapShift(a, 1);
    WrapShift(a, 2);
    WrapShift(a, 3);
  }

  // ---- register lists ----------------------------------------------------------------

  function Count(s: seq<bool>): (n: nat)
    ensures n <= |s|
  {
    if s == [] then 0 else (if s[0] then 1 else 0) + Count(s[1..])
  }

  lemma {:induction false} CountConcat(s: seq<bool>, t: seq<bool>)
    ensures Count(s + t) == Count(s) + Count(t)
  {
    if s == [] {
      assert s + t == t;
    } else {
      assert (s + t)[1..] == s[1..] + t;
      CountConcat(s[1..], t);
    }
  }

  /** Bytes taken by the listed registers from r up, and by those below r. */
  function Above(l: seq<bool>, r: nat, long: bool): nat
    requires r <= |l|
  {
    Room(Count(l[r..]), long)
  }

  function Below(l: seq<bool>, r: nat, long: bool): nat
    requires r <= |l|
  {
    Room(Count(l[..r]), long)
  }

  lemma {:induction false} AboveStep(l: seq<bool>, r: nat, long: bool)
    requires r < |l|
    ensures Above(l, r, long) == Above(l, r + 1, long) + if l[r] then Room(1, long) else 0
  {
    assert l[r..][1..] == l[r + 1..];
  }

  lemma {:induction false} BelowStep(l: seq<bool>, r: nat, long: bool)
    requires r < |l|
    ensures Below(l, r + 1, long) == Below(l, r, long) + if l[r] then Room(1, long) else 0
  {
    CountConcat(l[..r], [l[r]]);
    assert l[..r + 1] == l[..r] + [l[r]];
    assert [l[r]][1..] == [];
  }

  lemma {:induction false} CountSplit(l: seq<bool>, r: nat)
    requires r <= |l|
    ensures Count(l[..r]) + Count(l[r..]) == Count(l)
  {
    var a, b := l[..r], l[r..];
    assert l == a + b;
    CountConcat(a, b);
  }

  lemma RoomAdds(a: nat, b: nat, long: bool)
    ensures Room(a, long) + Room(b, long) == Room(a + b, long)
  {
  }

  lemma {:induction false} BelowAbove(l: seq<bool>, r: nat, long: bool)
    requires r <= |l|
    ensures Below(l, r, long) + Above(l, r, long) == Room(Count(l), long)
  {
    CountSplit(l, r);
    RoomAdds(Count(l[..r]), Count(l[r..]), long);
  }

  /** A register's place lies clear of every lower one's. */
  lemma {:induction false} AboveApart(l: seq<bool>, r: nat, k: nat, long: bool)
    requires r < k < |l| <= 16 && l[r] && l[k]
    ensures Room(1, long) <= Above(l, k, long) <= Above(l, r, long) - Room(1, long) <= 64
  {
    CountConcat(l[r..k], l[k..]);
    assert l[r..k] + l[k..] == l[r..];
    assert l[r..k][0] == l[r] && l[k..][0] == l[k];
  }

  /** The predecrement mask names registers from A7 down. */
  function Reversed(l: seq<bool>): (r: seq<bool>)
    ensures |r| == |l| && forall k :: 0 <= k < |l| ==> r[k] == l[|l| - 1 - k]
  {
    seq(|l|, k requires 0 <= k < |l| => l[|l| - 1 - k])
  }

  // ---- the loops ---------------------------------------------------------------------

  /** Every listed register from r up lies in memory below `base`, in register order. */
  ghost predicate Saved(m: Memory, base: int, l: seq<bool>, R: seq<u32>, long: bool, r: nat)
    requires |l| == |R| == 16 && r <= 16
  {
    forall k {:trigger R[k]} :: r <= k < 16 && l[k] ==>
      Fetch(m, base - Above(l, k, long), long) == Kept(R[k], long)
  }

  /** Bytes outside the saved block are untouched. */
  ghost predicate Outside(m: Memory, m': Memory, lo: int, hi: int)
  {
    forall i :: hi <= i < lo + TWO32 ==> Read8(m', i) == Read8(m, i)
  }

  lemma {:induction false} SavedStep(m: Memory, base: int, l: seq<bool>, R: seq<u32>, long: bool, r: nat, a: int)
    requires |l| == |R| == 16 && r < 16 && l[r] && Saved(m, base, l, R, long, r + 1)
    requires a == base - Above(l, r, long)
    ensures Saved(Store(m, a, R[r], long), base, l, R, long, r)
  {
    FetchStored(m, a, R[r], long);
    forall k {:trigger R[k]} | r <= k < 16 && l[k]
      ensures Fetch(Store(m, a, R[r], long), base - Above(l, k, long), long) == Kept(R[k], long)
    {
      if k > r {
        AboveApart(l, r, k, long);
        FetchElsewhere(m, a, R[r], long, base - Above(l, k, long));
      }
    }
  }

  lemma {:induction false} OutsideStep(m0: Memory, m: Memory, lo: int, hi: int, a: int, v: u32, long: bool)
    requires Outside(m0, m, lo, hi) && a + Room(1, long) == lo <= hi
    ensures Outside(m0, Store(m, a, v, long), a, hi)
  {
    forall i | hi <= i < a + TWO32 ensures Read8(Store(m, a, v, long), i) == Read8(m0, i) {
      StoreElsewhere(m, a, v, long, i);
    }
  }

  /** The storing loop with registers r and up done. */
  ghost predicate Storing(m0: Memory, m: Memory, base: int, l: seq<bool>, R: seq<u32>, long: bool, r: nat, mb: u32)
    requires |l| == |R| == 16 && r <= 16
  {
    var lo := base - Above(l, r, long);
    mb == Wrap(lo) && Saved(m, base, l, R, long, r) && Outside(m0, m, lo, base)
  }

  lemma {:induction false} StoringStep(m0: Memory, m: Memory, base: int, l: seq<bool>, R: seq<u32>, long: bool, r: nat, mb: u32, next: u32)
    requires |l| == |R| == 16 && r < 16 && l[r] && Storing(m0, m, base, l, R, long, r + 1, mb)
    requires next == Wrap(mb - Room(1, long))
    ensures Storing(m0, Store(m, next, R[r], long), base, l, R, long, r, next)
  {
    var a := base - Above(l, r, long);
    NextPlace(base, l, long, r, mb, next);
    WrappedAccess(m, a, R[r], long);
    StoringAt(m0, m, base, l, R, long, r, a);
  }

  lemma {:induction false} NextPlace(base: int, l: seq<bool>, long: bool, r: nat, mb: u32, next: u32)
    requires r < |l| && l[r] && mb == Wrap(base - Above(l, r + 1, long)) && next == Wrap(mb - Room(1, long))
    ensures next == Wrap(base - Above(l, r, long))
  {
    AboveStep(l, r, long);
    WrapBack(base - Above(l, r + 1, long), Room(1, long));
  }

  lemma {:induction false} WrapBack(v: int, k: nat)
    ensures Wrap(Wrap(v) - k) == Wrap(v - k)
  {
    WrapShift(v, 0 - k);
  }

  /** The same with the address before wrap-around. */
  lemma {:induction false} StoringAt(m0: Memory, m: Memory, base: int, l: seq<bool>, R: seq<u32>, long: bool, r: nat, a: int)
    requires |l| == |R| == 16 && r < 16 && l[r] && a == base - Above(l, r, long)
    requires Saved(m, base, l, R, long, r + 1) && Outside(m0, m, base - Above(l, r + 1, long), base)
    ensures Saved(Store(m, a, R[r], long), base, l, R, long, r) && Outside(m0, Store(m, a, R[r], long), a, base)
  {
    AboveStep(l, r, long);
    SavedStep(m, base, l, R, long, r, a);
    OutsideStep(m0, m, base - Above(l, r + 1, long), base, a, R[r], long);
  }

  lemma {:induction false} StoringSkips(m0: Memory, m: Memory, base: int, l: seq<bool>, R: seq<u32>, long: bool, r: nat, mb: u32)
    requires |l| == |R| == 16 && r < 16 && !l[r] && Storing(m0, m, base, l, R, long, r + 1, mb)
    ensures Storing(m0, m, base, l, R, long, r, mb)
  {
    AboveStep(l, r, long);
  }

  /** The loading loop with registers below r done. */
  ghost predicate Loading(m: Memory, base: int, l: seq<bool>, R0: seq<u32>, R: seq<u32>, long: bool, r: nat, mb: u32)
    requires |l| == |R0| == |R| == 16 && r <= 16
  {
    && mb == Wrap(base + Below(l, r, long))
    && forall k {:trigger R[k]} :: 0 <= k < 16 ==>
         R[k] == if k < r && l[k] then Fetch(m, base + Below(l, k, long), long) else R0[k]
  }

  lemma {:induction false} LoadingStep(m: Memory, base: int, l: seq<bool>, R0: seq<u32>, R: seq<u32>, long: bool, r: nat, mb: u32)
    requires |l| == |R0| == |R| == 16 && r < 16 && Loading(m, base, l, R0, R, long, r, mb)
    ensures l[r] ==> Loading(m, base, l, R0, R[r := Fetch(m, mb, long)], long, r + 1, Wrap(mb + Room(1, long)))
    ensures !l[r] ==> Loading(m, base, l, R0, R, long, r + 1, mb)
  {
    var a := base + Below(l, r, long);
    BelowStep(l, r, long);
    WrappedAccess(m, a, 0, long);
    if l[r] { WrapShift(a, Room(1, long)); LoadedNext(m, base, l, R0, R, long, r); }
  }

  lemma {:induction false} LoadedNext(m: Memory, base: int, l: seq<bool>, R0: seq<u32>, R: seq<u32>, long: bool, r: nat)
    requires |l| == |R0| == |R| == 16 && r < 16 && l[r] && Loading(m, base, l, R0, R, long, r, Wrap(base + Below(l, r, long)))
    ensures var R' := R[r := Fetch(m, base + Below(l, r, long), long)];
            forall k {:trigger R'[k]} :: 0 <= k < 16 ==>
              R'[k] == if k < r + 1 && l[k] then Fetch(m, base + Below(l, k, long), long) else R0[k]
  {
    var R' := R[r := Fetch(m, base + Below(l, r, long), long)];
    forall k {:trigger R'[k]} | 0 <= k < 16
      ensures R'[k] == if k < r + 1 && l[k] then Fetch(m, base + Below(l, k, long), long) else R0[k]
    {
      if k != r { assert R'[k] == R[k]; }
    }
  }

  /** Every place a load reads is the place the store wrote. */
  lemma {:induction false} PlaceMeets(m: Memory, base: int, l: seq<bool>, long: bool, mb: u32, r: nat)
    requires r <= |l| && mb == Wrap(base - Above(l, 0, long))
    ensures Fetch(m, mb + Below(l, r, long), long) == Fetch(m, base - Above(l, r, long), long)
    ensures Wrap(mb + Below(l, r, long)) == Wrap(base - Above(l, r, long))
  {
    var lo, d := base - Above(l, 0, long), Below(l, r, long);
    BelowAbove(l, r, long);
    assert l[0..] == l;
    WrapShift(lo, d);
    WrappedAccess(m, mb + d, 0, long);
    WrappedAccess(m, lo + d, 0, long);
  }

  lemma {:induction false} PointerBack(m: Memory, base: u32, l: seq<bool>, long: bool, mb: u32)
    requires mb == Wrap(base - Above(l, 0, long))
    ensures Wrap(mb + Below(l, |l|, long)) == base
  {
    PlaceMeets(m, base, l, long, mb, |l|);
    assert l[|l|..] == [];
  }

  lemma {:induction false} RegisterMeets(m: Memory, base: u32, l: seq<bool>, R: seq<u32>, long: bool, mb: u32, r: nat)
    requires |l| == |R| == 16 && r < 16 && l[r] && Saved(m, base, l, R, long, 0)
    requires mb == Wrap(base - Above(l, 0, long))
    ensures Fetch(m, mb + Below(l, r, long), long) == Kept(R[r], long)
  {
    PlaceMeets(m, base, l, long, mb, r);
  }

  /** What a load leaves: each listed register its place above the base, in register order; with
      postincrement the base register ends above them, whether or not it is listed. */
  ghost predicate Loaded(m: Memory, base: u32, l: seq<bool>, R0: seq<u32>, R: seq<u32>, long: bool,
                         post: bool, reg: nat)
    requires |l| == |R0| == |R| == 16 && reg < 8
  {
    && (post ==> R[8 + reg] == Wrap(base + Below(l, 16, long)))
    && forall r {:trigger R[r]} :: 0 <= r < 16 && !(post && r == 8 + reg) ==>
         R[r] == if l[r] then Fetch(m, base + Below(l, r, long), long) else R0[r]
  }

  /** The pointer is back, unlisted registers are as they were, and listed ones are what a stored and
      fetched value becomes. */
  predicate Restored(l: seq<bool>, R0: seq<u32>, R: seq<u32>, long: bool, reg: nat)
    requires |l| == |R0| == |R| == 16 && reg < 8
  {
    && R[8 + reg] == R0[8 + reg]
    && forall r {:trigger R[r]} :: 0 <= r < 16 && r != 8 + reg ==>
         R[r] == if l[r] then Kept(R0[r], long) else R0[r]
  }

  lemma {:induction false} RoundTrip(m0: Memory, m: Memory, l: seq<bool>, R0: seq<u32>, R1: seq<u32>, R2: seq<u32>, long: bool, reg: nat)
    requires |l| == |R0| == |R1| == |R2| == 16 && reg < 8 && R1 == R0[8 + reg := R1[8 + reg]]
    requires Storing(m0, m, R0[8 + reg], l, R0, long, 0, R1[8 + reg])
    requires Loaded(m, R1[8 + reg], l, R1, R2, long, true, reg)
    ensures Restored(l, R0, R2, long, reg)
  {
    var base, mb := R0[8 + reg], R1[8 + reg];
    PointerBack(m, base, l, long, mb);
    forall r {:trigger R2[r]} | 0 <= r < 16 && r != 8 + reg
      ensures R2[r] == if l[r] then Kept(R0[r], long) else R0[r]
    {
      assert R1[r] == R0[r];
      if l[r] { RegisterMeets(m, base, l, R0, long, mb, r); }
    }
  }

  /** The registers D0-D7, A0-A7 in one sequence, and memory. */
  class Core {
    var R: seq<u32>
    var mem: Memory

    constructor ()
      ensures R == seq(16, _ => 0) && mem == map[]
    {
      R, mem := seq(16, _ => 0), map[];
    }

    /** reg->mem, predecrement: listed registers lie below the base in register order, nothing else is
        written, and the base register's own stored value is the one before the instruction. */
    method StorePredecrement(mask: seq<bool>, reg: nat, long: bool)
      requires |mask| == |R| == 16 && reg < 8
      modifies this
      ensures |R| == 16 && R == old(R)[8 + reg := R[8 + reg]]
      ensures Storing(old(mem), mem, old(R)[8 + reg], Reversed(mask), old(R), long, 0, R[8 + reg])
    {
      var base: u32 := R[8 + reg];
      var mb: u32 := base;
      for bit := 0 to 16
        invariant R == old(R) && Storing(old(mem), mem, base, Reversed(mask), R, long, 16 - bit, mb)
      {
        mb := StoreBit(mask, bit, long, mb, base, old(mem));
      }
      R := R[8 + reg := mb];
    }

    /** One turn of the loop: mask bit 0 is A7, bit 15 is D0. */
    method StoreBit(mask: seq<bool>, bit: nat, long: bool, mb: u32, ghost base: u32, ghost m0: Memory) returns (next: u32)
      requires |mask| == |R| == 16 && bit < 16
      requires Storing(m0, mem, base, Reversed(mask), R, long, 16 - bit, mb)
      modifies this`mem
      ensures Storing(m0, mem, base, Reversed(mask), R, long, 15 - bit, next)
    {
      next := mb;
      if mask[bit] {
        next := Wrap(mb - Room(1, long));
        StoringStep(m0, mem, base, Reversed(mask), R, long, 15 - bit, mb, next);
        mem := Store(mem, next, R[15 - bit], long);
      } else {
        StoringSkips(m0, mem, base, Reversed(mask), R, long, 15 - bit, mb);
      }
    }

    /** mem->reg. */
    method LoadList(l: seq<bool>, base: u32, long: bool, post: bool, reg: nat)
      requires |l| == |R| == 16 && reg < 8
      modifies this`R
      ensures |R| == 16 && Loaded(mem, base, l, old(R), R, long, post, reg)
    {
      var mb: u32 := base;
      for bit := 0 to 16
        invariant |R| == 16 && Loading(mem, base, l, old(R), R, long, bit, mb)
      {
        LoadingStep(mem, base, l, old(R), R, long, bit, mb);
        if l[bit] {
          R := R[bit := Fetch(mem, mb, long)];
          mb := Wrap(mb + Room(1, long));
        }
      }
      if post { R := R[8 + reg := mb]; }
    }

    /** Saving a list below a pointer and loading it back leaves every register as it was, up to the
        sign extension of word transfers, and the pointer exactly as it was. */
    method SaveThenRestore(l: seq<bool>, reg: nat, long: bool)
      requires |l| == |R| == 16 && reg < 8
      modifies this
      ensures |R| == 16 && Restored(l, old(R), R, long, reg)
    {
      ghost var m, R0 := mem, R;
      assert Reversed(Reversed(l)) == l;
      StorePredecrement(Reversed(l), reg, long);
      ghost var R1 := R;
      LoadList(l, R[8 + reg], long, true, reg);
      RoundTrip(m, mem, l, R0, R1, R, long, reg);
    }
  }
}
