/** FNV-1a folding (runner/cosim.h) and fault injection (runner/cosim_state.c). */
module Fnv {
  import opened Bits

  const FNV_OFFSET: u64 := 1469598103934665603

  /** Multiplication by the FNV prime, modulo 2^64. */
  function Mix(x: u64): u64 { x * 1099511628211 % TWO64 }

  /** Multiplication by the prime's inverse modulo 2^64, which exists because the prime is odd. */
  function Unmix(y: u64): u64 { y * 14886173955864302971 % TWO64 }

  lemma {:induction false} MixUndone(x: u64)
    ensures Unmix(Mix(x)) == x
  {
    var q := x * 1099511628211 / TWO64;
    DivModUnique(Mix(x) * 14886173955864302971, TWO64, 887285111055 * x - q * 14886173955864302971, x);
  }

  function Xor64(h: u64, v: u64): (r: u64)
  {
    assert Pow2(64) == TWO64 by { Pow2Of64(); }
    XorBound(h, v, 64);
    BitXor(h, v)
  }

  lemma {:induction false} Pow2Of64()
    ensures Pow2(64) == TWO64 && Pow2(32) == 0x1_0000_0000 && Pow2(8) == 256
  {
    assert Pow2(8) == 0x100;
    assert Pow2(16) == 0x100 * Pow2(8);
    assert Pow2(24) == 0x100 * Pow2(16);
    assert Pow2(32) == 0x100 * Pow2(24);
    assert Pow2(40) == 0x100 * Pow2(32);
    assert Pow2(48) == 0x100 * Pow2(40);
    assert Pow2(56) == 0x100 * Pow2(48);
    assert Pow2(64) == 0x100 * Pow2(56);
  }

  /** Fold one byte: `h ^= b; h *= PRIME`. */
  function Fold8(h: u64, b: u8): u64 { Mix(Xor64(h, b)) }

  function FoldBytes(h: u64, s: seq<u8>): u64
    decreases s
  {
    if s == [] then h else FoldBytes(Fold8(h, s[0]), s[1..])
  }

  /** Little-endian scalar folds. */
  function Bytes32(v: u32): seq<u8>
  {
    [v % 256, v / 256 % 256, v / 0x1_0000 % 256, v / 0x100_0000]
  }

  function Fold32(h: u64, v: u32): u64 { FoldBytes(h, Bytes32(v)) }

  function Fold64(h: u64, v: u64): u64
  {
    Fold32(Fold32(h, v % 0x1_0000_0000), v / 0x1_0000_0000)
  }

  // ---- injectivity -------------------------------------------------------------------

  lemma {:induction false} Fold8Injective(h: u64, g: u64, b: u8, c: u8)
    ensures Fold8(h, b) == Fold8(g, b) <==> h == g
    ensures Fold8(h, b) == Fold8(h, c) <==> b == c
  {
    MixUndone(Xor64(h, b));
    MixUndone(Xor64(g, b));
    MixUndone(Xor64(h, c));
    XorInjective(h, g, b);
    XorInjective(b, c, h);
  }

  /** Folding fixed data is injective in the seed. */
  lemma {:induction false} SeedInjective(h: u64, g: u64, s: seq<u8>)
    ensures FoldBytes(h, s) == FoldBytes(g, s) <==> h == g
    decreases s
  {
    if s != [] {
      Fold8Injective(h, g, s[0], s[0]);
      SeedInjective(Fold8(h, s[0]), Fold8(g, s[0]), s[1..]);
    }
  }

  /** Two strings of equal length that differ in one byte hash differently under every seed. */
  lemma {:induction false} OneByteShows(h: u64, s: seq<u8>, i: nat, b: u8)
    requires i < |s|
    ensures FoldBytes(h, s[i := b]) == FoldBytes(h, s) <==> b == s[i]
    decreases s
  {
    var t := s[i := b];
    if i == 0 {
      assert t[1..] == s[1..];
      Fold8Injective(h, h, b, s[0]);
      SeedInjective(Fold8(h, b), Fold8(h, s[0]), s[1..]);
    } else {
      assert t[1..] == s[1..][i - 1 := b];
      OneByteShows(Fold8(h, s[0]), s[1..], i - 1, b);
    }
  }

  lemma {:induction false} Fold64Injective(h: u64, g: u64, v: u64)
    ensures Fold64(h, v) == Fold64(g, v) <==> h == g
  {
    var lo, hi := v % 0x1_0000_0000, v / 0x1_0000_0000;
    SeedInjective(h, g, Bytes32(lo));
    SeedInjective(Fold32(h, lo), Fold32(g, lo), Bytes32(hi));
  }

  /** The cumulative chain: each checkpoint folds its ordinal and its state hash. */
  function Link(chain: u64, cp: u64, full: u64): u64 { Fold64(Fold64(chain, cp), full) }

  lemma {:induction false} LinkInjective(x: u64, y: u64, cp: u64, full: u64)
    ensures Link(x, cp, full) == Link(y, cp, full) <==> x == y
  {
    Fold64Injective(x, y, cp);
    Fold64Injective(Fold64(x, cp), Fold64(y, cp), full);
  }

  /** A rolling value folded over a sequence, each element with its ordinal. */
  function ChainBy(link: (u64, u64, u64) -> u64, chain: u64, first: nat, fulls: seq<u64>): u64
  {
    if fulls == [] then chain
    else
      var n := |fulls| - 1;
      link(ChainBy(link, chain, first, fulls[..n]), (first + n) % TWO64, fulls[n])
  }

  lemma {:induction false} ChainBySplits(link: (u64, u64, u64) -> u64, seed: u64, first: nat, fulls: seq<u64>, k: nat)
    requires k <= |fulls|
    ensures ChainBy(link, seed, first, fulls)
            == ChainBy(link, ChainBy(link, seed, first, fulls[..k]), first + k, fulls[k..])
  {
    if k == |fulls| {
      assert fulls[..k] == fulls;
    } else {
      var n := |fulls| - 1;
      ChainBySplits(link, seed, first, fulls[..n], k);
      assert fulls[..n][..k] == fulls[..k] && fulls[..n][k..] == fulls[k..][..n - k];
    }
  }

  /** Checkpoints are numbered from one; `fulls` holds their state hashes. */
  function Chain(chain: u64, first: nat, fulls: seq<u64>): u64 { ChainBy(Link, chain, first, fulls) }

  lemma {:induction false} ChainByInjective(link: (u64, u64, u64) -> u64, a: u64, b: u64, first: nat, fulls: seq<u64>)
    requires forall x, y, cp, f :: link(x, cp, f) == link(y, cp, f) ==> x == y
    ensures ChainBy(link, a, first, fulls) == ChainBy(link, b, first, fulls) <==> a == b
  {
    if fulls != [] { ChainByInjective(link, a, b, first, fulls[..|fulls| - 1]); }
  }

  /** Two chains that have split never meet again while they fold equal checkpoints, and chains
      that agree stay together. */
  lemma {:induction false} SplitChainsStaySplit(a: u64, b: u64, first: nat, fulls: seq<u64>)
    ensures Chain(a, first, fulls) == Chain(b, first, fulls) <==> a == b
  {
    forall x, y, cp, f | Link(x, cp, f) == Link(y, cp, f) ensures x == y {
      LinkInjective(x, y, cp, f);
    }
    ChainByInjective(Link, a, b, first, fulls);
  }

  /** Chains over two histories that agree from checkpoint k on end equal exactly when they were equal
      at k. */
  lemma {:induction false} ChainsMeetOnlyIfEqual(seed: u64, f: seq<u64>, g: seq<u64>, k: nat)
    requires k <= |f| && k <= |g| && f[k..] == g[k..]
    ensures Chain(seed, 1, f) == Chain(seed, 1, g) <==> Chain(seed, 1, f[..k]) == Chain(seed, 1, g[..k])
  {
    ChainBySplits(Link, seed, 1, f, k);
    ChainBySplits(Link, seed, 1, g, k);
    SplitChainsStaySplit(Chain(seed, 1, f[..k]), Chain(seed, 1, g[..k]), 1 + k, f[k..]);
  }

  // ---- the chain depends on what it folds --------------------------------------------

  lemma {:induction false} FoldConcat(h: u64, s: seq<u8>, t: seq<u8>)
    ensures FoldBytes(h, s + t) == FoldBytes(FoldBytes(h, s), t)
    decreases s
  {
    if s == [] {
      assert s + t == t;
    } else {
      FoldConcat(Fold8(h, s[0]), s[1..], t);
      assert (s + t)[1..] == s[1..] + t;
    }
  }

  /** FNV-1a: exclusive or first, then the prime. */
  lemma XorThenMultiply(h: u64, b: u8)
    ensures Fold8(h, 0) == h * 1099511628211 % TWO64 && Fold8(0, b) == b * 1099511628211 % TWO64
  {
  }

  /** The eight bytes of a word, least significant first. */
  function Bytes64(v: u64): (b: seq<u8>)
    ensures |b| == 8
  {
    Bytes32(v % 0x1_0000_0000) + Bytes32(v / 0x1_0000_0000)
  }

  lemma {:induction false} Bytes32Spell(v: u32)
    ensures var b: seq<int> := Bytes32(v);
            v == b[0] + 0x100 * b[1] + 0x1_0000 * b[2] + 0x100_0000 * b[3]
  {
    var p, q := v / 256, v / 0x1_0000;
    assert p / 256 == q && q / 256 == v / 0x100_0000;
    assert v == p * 256 + v % 256 && p == q * 256 + p % 256 && q == q / 256 * 256 + q % 256;
  }

  lemma {:induction false} Fold64IsBytes(h: u64, v: u64)
    ensures Fold64(h, v) == FoldBytes(h, Bytes64(v))
  {
    FoldConcat(h, Bytes32(v % 0x1_0000_0000), Bytes32(v / 0x1_0000_0000));
  }

  /** Two words that differ in byte i and nowhere else. */
  predicate OneByteApart(v: u64, w: u64, i: nat)
  {
    i < 8 && Bytes64(v)[i] != Bytes64(w)[i] && Bytes64(w) == Bytes64(v)[i := Bytes64(w)[i]]
  }

  lemma {:induction false} Fold64Shows(h: u64, v: u64, w: u64, i: nat)
    requires OneByteApart(v, w, i)
    ensures Fold64(h, v) != Fold64(h, w)
  {
    Fold64IsBytes(h, v);
    Fold64IsBytes(h, w);
    OneByteShows(h, Bytes64(v), i, Bytes64(w)[i]);
  }

  /** A checkpoint's link depends on its state hash and on its ordinal. */
  lemma {:induction false} LinkShows(chain: u64, cp: u64, cq: u64, f: u64, g: u64, i: nat)
    ensures OneByteApart(f, g, i) ==> Link(chain, cp, f) != Link(chain, cp, g)
    ensures OneByteApart(cp, cq, i) ==> Link(chain, cp, f) != Link(chain, cq, f)
  {
    if OneByteApart(f, g, i) { Fold64Shows(Fold64(chain, cp), f, g, i); }
    if OneByteApart(cp, cq, i) {
      Fold64Shows(chain, cp, cq, i);
      Fold64Injective(Fold64(chain, cp), Fold64(chain, cq), f);
    }
  }

  lemma {:induction false} ChainLast(seed: u64, f: seq<u64>, k: nat)
    requires k < |f|
    ensures Chain(seed, 1, f[..k + 1]) == Link(Chain(seed, 1, f[..k]), (1 + k) % TWO64, f[k])
  {
    assert f[..k + 1][..k] == f[..k];
  }

  /** Two histories that part at checkpoint k+1, in one byte of its state hash, and agree afterwards:
      their chains differ at every later checkpoint. */
  lemma {:induction false} ChainShowsState(seed: u64, f: seq<u64>, g: seq<u64>, k: nat, i: nat)
    requires k < |f| == |g| && f[..k] == g[..k] && f[k + 1..] == g[k + 1..] && OneByteApart(f[k], g[k], i)
    ensures Chain(seed, 1, f) != Chain(seed, 1, g)
  {
    ChainLast(seed, f, k);
    ChainLast(seed, g, k);
    LinkShows(Chain(seed, 1, f[..k]), (1 + k) % TWO64, 0, f[k], g[k], i);
    ChainsMeetOnlyIfEqual(seed, f, g, k + 1);
  }

  // ---- the loop and the injection ----------------------------------------------------

  lemma {:induction false} FoldAppend(h: u64, s: seq<u8>, b: u8)
    ensures FoldBytes(h, s + [b]) == Fold8(FoldBytes(h, s), b)
    decreases s
  {
    if s == [] {
      assert [b][1..] == [];
      assert FoldBytes(h, [b]) == FoldBytes(Fold8(h, b), []);
    } else {
      assert (s + [b])[1..] == s[1..] + [b];
      FoldAppend(Fold8(h, s[0]), s[1..], b);
    }
  }

  /** cosim_fnv_bytes. */
  method FnvBytes(seed: u64, p: array<u8>) returns (h: u64)
    ensures h == FoldBytes(seed, p[..])
  {
    h := seed;
    for i := 0 to p.Length
      invariant h == FoldBytes(seed, p[..i])
    {
      FoldAppend(seed, p[..i], p[i]);
      assert p[..i] + [p[i]] == p[..i + 1];
      h := Xor64(h, p[i]);
      h := h * 1099511628211 % TWO64;
    }
    assert p[..p.Length] == p[..];
  }

  const RAM_SIZE: nat := 0x1_0000

  function Xor8(a: u8, b: u8): u8
  {
    Pow2Of64();
    XorBound(a, b, 8);
    BitXor(a, b)
  }

  function Xor32(a: u32, b: u32): u32
  {
    Pow2Of64();
    XorBound(a, b, 32);
    BitXor(a, b)
  }

  /** The guest state injection touches, and the pending injection. */
  class Injector {
    const ram: array<u8>
    var D: seq<u32>
    var A: seq<u32>
    var ramOffset: int
    var ramXor: u8
    var reg: int
    var regXor: u32

    constructor (ram: array<u8>)
      requires ram.Length == RAM_SIZE
      ensures this.ram == ram && Valid() && ramOffset == -1 && reg == -1
    {
      this.ram := ram;
      D, A := seq(8, _ => 0), seq(8, _ => 0);
      ramOffset, ramXor, reg, regXor := -1, 0, -1, 0;
    }

    ghost predicate Valid()
      reads this
    {
      ram.Length == RAM_SIZE && |D| == 8 && |A| == 8 && -1 <= ramOffset < RAM_SIZE
    }

    /** hash_ram. */
    ghost function RamHash(): u64
      reads ram
    {
      FoldBytes(FNV_OFFSET, ram[..])
    }

    method InjectRam(addr: nat, xor: u8)
      requires Valid()
      modifies this`ramOffset, this`ramXor
      ensures Valid() && ramOffset == addr % RAM_SIZE && ramXor == xor
    {
      ramOffset := addr % RAM_SIZE;
      ramXor := xor;
    }

    method InjectReg(index: int, xor: u32)
      requires Valid()
      modifies this`reg, this`regXor
      ensures Valid() && reg == index && regXor == xor
    {
      reg, regXor := index, xor;
    }

    /** Applied once, just before the next checkpoint hashes the state: a pending RAM fault changes
        exactly one byte, and changes the RAM sub-hash exactly when it flips some bit. */
    method ApplyRam()
      requires Valid()
      modifies this`ramOffset, ram
      ensures Valid() && ramOffset == -1
      ensures ram[..] == if old(ramOffset) < 0 then old(ram[..])
                         else old(ram[..])[old(ramOffset) := Xor8(old(ram[ramOffset]), old(ramXor))]
      ensures RamHash() != old(RamHash()) <==> old(ramOffset) >= 0 && old(ramXor) != 0
    {
      if ramOffset >= 0 {
        var b := Xor8(ram[ramOffset], ramXor);
        OneByteShows(FNV_OFFSET, ram[..], ramOffset, b);
        XorInjective(ramXor, 0, ram[ramOffset]);
        ram[ramOffset] := b;
        assert ram[..] == old(ram[..])[ramOffset := b];
        ramOffset := -1;
      }
    }

    /** The register half: D0-D7 are 0..7, A0-A7 are 8..15, anything else is dropped. */
    method ApplyReg()
      requires Valid()
      modifies this`D, this`A, this`reg
      ensures Valid() && reg < 0
      ensures D == if 0 <= old(reg) < 8 then old(D)[old(reg) := Xor32(old(D[reg]), regXor)] else old(D)
      ensures A == if 8 <= old(reg) < 16 then old(A)[old(reg) - 8 := Xor32(old(A[reg - 8]), regXor)] else old(A)
    {
      if reg >= 0 {
        if reg < 8 {
          D := D[reg := Xor32(D[reg], regXor)];
        } else if reg < 16 {
          A := A[reg - 8 := Xor32(A[reg - 8], regXor)];
        }
        reg := -1;
      }
    }
  }
}
