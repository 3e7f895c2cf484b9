/** Interrupt delivery on the own backend in its default, atomic mode (runner/glue.c,
    runner/native_interrupt_frame.h), with the chunk entry and the cycle budget that share its
    state. A handler is an arbitrary function of the registers and work RAM it starts from. */
module Interrupts {
  import opened Bits
  import opened RasterClock

  const RAM_SIZE: nat := 0x1_0000
  const WINDOW: nat := 256

  // ---- the exception frame -----------------------------------------------------------

  /** SR then PC, big-endian. */
  function FrameBytes(sr: u16, pc: u32): (b: seq<u8>)
    ensures |b| == 6
  {
    [sr / 256, sr % 256, pc / 0x100_0000, pc / 0x1_0000 % 256, pc / 256 % 256, pc % 256]
  }

  /** Byte i of a region of work RAM that starts at `at` and wraps at 64 KiB. */
  function Wrapped(ram: seq<u8>, at: nat, i: nat): u8
    requires |ram| == RAM_SIZE
  {
    ram[(at + i) % RAM_SIZE]
  }

  /** How far around the ring j lies from `at`. */
  function Offset(at: nat, j: nat): nat { (j - at) % RAM_SIZE }

  /** RAM with `b` laid over it from `at`, wrapping. */
  function Overlaid(ram: seq<u8>, at: nat, b: seq<u8>): (r: seq<u8>)
    requires |ram| == RAM_SIZE && |b| <= RAM_SIZE
    ensures |r| == RAM_SIZE
  {
    seq(RAM_SIZE, j requires 0 <= j < RAM_SIZE => if Offset(at, j) < |b| then b[Offset(at, j)] else ram[j])
  }

  lemma RingOffset(at: nat, i: nat)
    requires i < RAM_SIZE
    ensures Offset(at, (at + i) % RAM_SIZE) == i
  {
  }

  lemma RingPosition(at: nat, j: nat)
    requires j < RAM_SIZE
    ensures (at + Offset(at, j)) % RAM_SIZE == j
  {
  }

  /** Laying bytes over RAM puts them where reading finds them. */
  lemma {:induction false} OverlayReads(ram: seq<u8>, at: nat, b: seq<u8>, i: nat)
    requires |ram| == RAM_SIZE && |b| <= RAM_SIZE && i < |b|
    ensures Wrapped(Overlaid(ram, at, b), at, i) == b[i]
  {
    RingOffset(at, i);
  }

  /** The two loops that lay bytes over work RAM: the frame write and the window restore. */
  method Overlay(ram: array<u8>, at: nat, b: seq<u8>)
    requires ram.Length == RAM_SIZE && |b| <= RAM_SIZE
    modifies ram
    ensures ram[..] == Overlaid(old(ram[..]), at, b)
  {
    for i := 0 to |b|
      invariant forall j :: 0 <= j < RAM_SIZE ==>
                  ram[j] == if Offset(at, j) < i then b[Offset(at, j)] else old(ram[j])
    {
      RingOffset(at, i);
      forall j: nat | j < RAM_SIZE && Offset(at, j) == i ensures j == (at + i) % RAM_SIZE {
        RingPosition(at, j);
      }
      ram[(at + i) % RAM_SIZE] := b[i];
    }
  }

  /** RAM after native_interrupt_frame_write. */
  function Framed(ram: seq<u8>, sp: nat, sr: u16, pc: u32): (r: seq<u8>)
    requires |ram| == RAM_SIZE
    ensures |r| == RAM_SIZE
  {
    Overlaid(ram, sp, FrameBytes(sr, pc))
  }

  /** native_interrupt_frame_read. */
  method FrameRead(ram: array<u8>, sp: nat) returns (sr: u16, pc: u32)
    requires ram.Length == RAM_SIZE
    ensures sr == FrameSr(ram[..], sp) && pc == FramePc(ram[..], sp)
  {
    var hi: int := ram[sp % RAM_SIZE];
    sr := hi * 256 + ram[(sp + 1) % RAM_SIZE];
    var v: nat := ram[(sp + 2) % RAM_SIZE];
    v := v * 256 + ram[(sp + 3) % RAM_SIZE];
    v := v * 256 + ram[(sp + 4) % RAM_SIZE];
    pc := v * 256 + ram[(sp + 5) % RAM_SIZE];
  }

  function SrOf(hi: int, lo: int): int { hi * 256 + lo }
  function PcOf(b3: int, b2: int, b1: int, b0: int): int { ((b3 * 256 + b2) * 256 + b1) * 256 + b0 }

  function FrameSr(ram: seq<u8>, sp: nat): u16
    requires |ram| == RAM_SIZE
  {
    SrOf(Wrapped(ram, sp, 0), Wrapped(ram, sp, 1))
  }

  function FramePc(ram: seq<u8>, sp: nat): u32
    requires |ram| == RAM_SIZE
  {
    PcOf(Wrapped(ram, sp, 2), Wrapped(ram, sp, 3), Wrapped(ram, sp, 4), Wrapped(ram, sp, 5))
  }

  lemma SrBytes(sr: u16)
    ensures SrOf(sr / 256, sr % 256) == sr
  {
  }

  lemma {:induction false} PcBytes(pc: u32)
    ensures PcOf(pc / 0x100_0000, pc / 0x1_0000 % 256, pc / 256 % 256, pc % 256) == pc
  {
    var p, q := pc / 256, pc / 0x1_0000;
    assert p / 256 == q && q / 256 == pc / 0x100_0000;
    assert pc == p * 256 + pc % 256 && p == q * 256 + p % 256 && q == q / 256 * 256 + q % 256;
  }

  /** The frame is the big-endian SR word and then the big-endian PC long. */
  lemma {:induction false} FrameSpelled(sr: u16, pc: u32)
    ensures var b: seq<int> := FrameBytes(sr, pc);
            sr == 0x100 * b[0] + b[1] && pc == 0x100_0000 * b[2] + 0x1_0000 * b[3] + 0x100 * b[4] + b[5]
  {
    SrBytes(sr);
    PcBytes(pc);
    PcSpelled(pc / 0x100_0000, pc / 0x1_0000 % 256, pc / 256 % 256, pc % 256);
  }

  lemma PcSpelled(b3: int, b2: int, b1: int, b0: int)
    ensures PcOf(b3, b2, b1, b0) == b3 * 0x100_0000 + b2 * 0x1_0000 + b1 * 0x100 + b0
  {
  }

  lemma {:induction false} FrameValues(sr: u16, pc: u32)
    ensures var b := FrameBytes(sr, pc); SrOf(b[0], b[1]) == sr && PcOf(b[2], b[3], b[4], b[5]) == pc
  {
    SrBytes(sr);
    PcBytes(pc);
  }

  predicate FrameIntact(ram: seq<u8>, ram': seq<u8>, sp: nat)
    requires |ram| == RAM_SIZE && |ram'| == RAM_SIZE
  {
    forall i :: 0 <= i < 6 ==> Wrapped(ram', sp, i) == Wrapped(ram, sp, i)
  }

  lemma {:induction false} IntactReads(ram: seq<u8>, ram': seq<u8>, sp: nat, b: seq<u8>)
    requires |ram| == RAM_SIZE && |ram'| == RAM_SIZE && |b| == 6
    requires FrameIntact(Overlaid(ram, sp, b), ram', sp)
    ensures forall i: nat :: i < 6 ==> Wrapped(ram', sp, i) == b[i]
  {
    forall i: nat | i < 6 ensures Wrapped(ram', sp, i) == b[i] {
      OverlayReads(ram, sp, b, i);
    }
  }

  /** A frame that the handler leaves alone gives back the SR and PC that were pushed, wherever in
      work RAM the stack points. */
  lemma {:induction false} FrameRoundTrip(ram: seq<u8>, ram': seq<u8>, sp: nat, sr: u16, pc: u32)
    requires |ram| == RAM_SIZE && |ram'| == RAM_SIZE
    requires FrameIntact(Framed(ram, sp, sr, pc), ram', sp)
    ensures FrameSr(ram', sp) == sr && FramePc(ram', sp) == pc
  {
    FrameValues(sr, pc);
    IntactReads(ram, ram', sp, FrameBytes(sr, pc));
  }

  // ---- latches over whole runs -------------------------------------------------------

  datatype Mark = Raised | Delivered(mask: nat)

  /** The V-int latch and the history it summarises. */
  datatype VintLatch = VintLatch(latched: bool, history: seq<Mark>)

  /** `deferred`: delivery is not possible now (an instruction or another handler is in progress). */
  datatype VintEvent = Raise(deferred: bool, mask: nat) | Service(deferred: bool, mask: nat)

  function VintStep(l: VintLatch, e: VintEvent): VintLatch
  {
    match e
    case Raise(deferred, mask) =>
      if deferred || mask >= 6 then VintLatch(true, l.history + [Raised])
      else VintLatch(false, l.history + [Raised, Delivered(mask)])
    case Service(deferred, mask) =>
      if !l.latched || deferred || mask >= 6 then l else VintLatch(false, l.history + [Delivered(mask)])
  }

  function VintRun(l: VintLatch, es: seq<VintEvent>): VintLatch
  {
    if es == [] then l else VintStep(VintRun(l, es[..|es| - 1]), es[|es| - 1])
  }

  /** Some V-int was raised since the last delivery. */
  predicate RaisedSinceDelivery(h: seq<Mark>) { h != [] && h[|h| - 1].Raised? }

  /** A delivery at position i answers the raise just before it, with the mask below six. */
  predicate AnswersRaise(h: seq<Mark>, i: nat)
  {
    i < |h| && (h[i].Delivered? ==> i > 0 && h[i - 1].Raised? && h[i].mask < 6)
  }

  ghost predicate LatchInv(l: VintLatch)
  {
    && l.latched == RaisedSinceDelivery(l.history)
    && forall i: nat :: i < |l.history| ==> AnswersRaise(l.history, i)
  }

  lemma {:induction false} LatchStepKeeps(l: VintLatch, e: VintEvent)
    requires LatchInv(l)
    ensures LatchInv(VintStep(l, e))
  {
    var t := VintStep(l, e);
    forall i: nat | i < |t.history| ensures AnswersRaise(t.history, i) {
      if i < |l.history| { assert AnswersRaise(l.history, i); }
    }
  }

  /** In every run of raises and latch services the latch is set exactly when some V-int was raised
      since the last delivery, and every delivery happens with the mask below six and answers a raise
      no other delivery answers. */
  lemma {:induction false} LatchMeansPending(es: seq<VintEvent>)
    ensures LatchInv(VintRun(VintLatch(false, []), es))
  {
    if es != [] {
      LatchMeansPending(es[..|es| - 1]);
      LatchStepKeeps(VintRun(VintLatch(false, []), es[..|es| - 1]), es[|es| - 1]);
    }
  }

  /** The event allows a delivery. */
  predicate Open(e: VintEvent) { !e.deferred && e.mask < 6 }

  /** Some raise among the events has no event that allows a delivery at or after its place. */
  predicate Waiting(es: seq<VintEvent>)
  {
    exists i :: 0 <= i < |es| && es[i].Raise? && forall j :: i <= j < |es| ==> !Open(es[j])
  }

  function Raises(es: seq<VintEvent>): nat
  {
    if es == [] then 0 else Raises(es[..|es| - 1]) + if es[|es| - 1].Raise? then 1 else 0
  }

  /** Deliveries by flags and masks: an open raise, or an open service with a raise waiting. */
  function Deliveries(es: seq<VintEvent>): nat
  {
    if es == [] then 0
    else
      var front, e := es[..|es| - 1], es[|es| - 1];
      Deliveries(front) + if Open(e) && (e.Raise? || Waiting(front)) then 1 else 0
  }

  function Marks(h: seq<Mark>, raised: bool): nat
  {
    if h == [] then 0 else Marks(h[..|h| - 1], raised) + if h[|h| - 1].Raised? == raised then 1 else 0
  }

  lemma {:induction false} MarksAppend(h: seq<Mark>, m: Mark, raised: bool)
    ensures Marks(h + [m], raised) == Marks(h, raised) + if m.Raised? == raised then 1 else 0
  {
    assert (h + [m])[..|h|] == h;
  }

  lemma {:induction false} WaitingStep(es: seq<VintEvent>, e: VintEvent)
    ensures Waiting(es + [e]) <==> !Open(e) && (e.Raise? || Waiting(es))
  {
    var t := es + [e];
    if !Open(e) && e.Raise? {
      assert t[|es|].Raise?;
    }
    if !Open(e) && Waiting(es) {
      var i :| 0 <= i < |es| && es[i].Raise? && forall j :: i <= j < |es| ==> !Open(es[j]);
      assert t[i].Raise? && forall j :: i <= j < |t| ==> !Open(t[j]);
    }
    if Waiting(t) {
      var i :| 0 <= i < |t| && t[i].Raise? && forall j :: i <= j < |t| ==> !Open(t[j]);
      assert !Open(t[|es|]);
      if i < |es| {
        assert es[i].Raise? && forall j :: i <= j < |es| ==> es[j] == t[j];
      }
    }
  }

  /** In every run the latch is set exactly when some raise has met no event that allows a delivery,
      counting from flags and masks alone; every raise leaves one mark, and every delivery one. */
  lemma {:induction false} LatchByEvents(es: seq<VintEvent>)
    ensures var l := VintRun(VintLatch(false, []), es);
            && (l.latched <==> Waiting(es))
            && Marks(l.history, true) == Raises(es) && Marks(l.history, false) == Deliveries(es)
  {
    if es != [] {
      var front, e := es[..|es| - 1], es[|es| - 1];
      LatchByEvents(front);
      assert es == front + [e];
      WaitingStep(front, e);
      MarksOfStep(VintRun(VintLatch(false, []), front), e);
    }
  }

  lemma {:induction false} MarksOfStep(l: VintLatch, e: VintEvent)
    ensures var t := VintStep(l, e);
            && Marks(t.history, true) == Marks(l.history, true) + (if e.Raise? then 1 else 0)
            && Marks(t.history, false) == Marks(l.history, false) + (if Open(e) && (e.Raise? || l.latched) then 1 else 0)
            && (t.latched <==> !Open(e) && (e.Raise? || l.latched))
  {
    var h := l.history;
    MarksAppend(h, Raised, true);
    MarksAppend(h, Raised, false);
    MarksAppend(h, Delivered(e.mask), true);
    MarksAppend(h, Delivered(e.mask), false);
    MarksAppend(h + [Raised], Delivered(e.mask), true);
    MarksAppend(h + [Raised], Delivered(e.mask), false);
    assert h + [Raised, Delivered(e.mask)] == h + [Raised] + [Delivered(e.mask)];
  }

  // ---- the scheduler -----------------------------------------------------------------

  /** g_cpu. */
  datatype M68K = M68K(d: seq<u32>, a: seq<u32>, sr: u16, pc: u32, usp: u32)

  function MaskOf(c: M68K): nat { c.sr / 256 % 8 }

  function WithMask(sr: u16, level: nat): u16
    requires level < 8
  {
    sr - sr / 256 % 8 * 256 + level * 256
  }

  /** Only the three mask bits change. */
  lemma {:induction false} WithMaskSets(sr: u16, level: nat)
    requires level < 8
    ensures var r := WithMask(sr, level);
            r / 0x100 % 8 == level && r % 0x100 == sr % 0x100 && r / 0x800 == sr / 0x800
  {
    MaskField(sr % 0x100, sr / 0x100 % 8, sr / 0x800, sr);
    MaskField(sr % 0x100, level, sr / 0x800, sr % 0x100 + level * 0x100 + sr / 0x800 * 0x800);
    SplitWord(sr);
  }

  lemma {:induction false} SplitWord(sr: u16)
    ensures sr == sr % 0x100 + sr / 0x100 % 8 * 0x100 + sr / 0x800 * 0x800
  {
    assert sr / 0x100 / 8 == sr / 0x800;
  }

  lemma {:induction false} MaskField(lo: nat, mask: nat, hi: nat, r: nat)
    requires lo < 0x100 && mask < 8
    ensures r == lo + mask * 0x100 + hi * 0x800 ==> r % 0x100 == lo && r / 0x100 % 8 == mask && r / 0x800 == hi
  {
    if r == lo + mask * 0x100 + hi * 0x800 { assert r / 0x100 == mask + 8 * hi; }
  }

  /** The interrupted registers with SR and PC taken from the exception frame. */
  function FromFrame(c: M68K, ram: seq<u8>, sp: nat): M68K
    requires |ram| == RAM_SIZE
  {
    c.(pc := FramePc(ram, sp) % 0x100_0000, sr := FrameSr(ram, sp))
  }

  /** A handler that leaves SR and PC of its own in the frame resumes there, with every other register
      as interrupted. */
  lemma {:induction false} RewrittenFrameResumes(c: M68K, ram: seq<u8>, ram': seq<u8>, sp: nat, sr: u16, pc: u32)
    requires |ram| == RAM_SIZE && |ram'| == RAM_SIZE
    requires FrameIntact(Framed(ram, sp, sr, pc), ram', sp)
    ensures FromFrame(c, ram', sp) == M68K(c.d, c.a, sr, pc % 0x100_0000, c.usp)
  {
    FrameRoundTrip(ram, ram', sp, sr, pc);
  }

  /** A handler that leaves its frame alone resumes exactly the interrupted program. */
  lemma {:induction false} IntactFrameResumes(c: M68K, ram: seq<u8>, ram': seq<u8>, sp: nat)
    requires |ram| == RAM_SIZE && |ram'| == RAM_SIZE
    requires FrameIntact(Framed(ram, sp, c.sr, c.pc), ram', sp)
    ensures FromFrame(c, ram', sp) == c.(pc := c.pc % 0x100_0000)
  {
    FrameRoundTrip(ram, ram', sp, c.sr, c.pc);
  }

  /** What a handler leaves behind: registers, work RAM, split-stack counter, cycles executed. */
  datatype Effect = Effect(cpu: M68K, ram: seq<u8>, split: int, cycles: u32)

  type Handler = (M68K, seq<u8>) -> Effect

  ghost predicate WellBehaved(h: Handler)
  {
    forall c, r :: |r| == RAM_SIZE ==> |h(c, r).ram| == RAM_SIZE
  }

  /** The meter after a precise delivery: the counter has moved past the exception and the handler,
      and the budget counts on from there. */
  function Resynced(m: Meter, cycles: u32): Meter
  {
    m.(counter := Wrap(m.counter + 44 + cycles), seen := Wrap(m.counter + 44 + cycles))
  }

  /** `(int32_t)` of an unsigned word. */
  function AsInt32(v: u32): (r: int)
    ensures -0x8000_0000 <= r < 0x8000_0000 && r % TWO32 == v
  {
    if v < 0x8000_0000 then v else v - TWO32
  }

  /** What a settlement in 32-bit words does to the budget: it falls by the time since the last one,
      cast to a signed word. Below 2^31 cycles that is the settlement of the chunk history. */
  ghost predicate Settled(m: Meter, m': Meter, d: nat)
    requires d > 0
  {
    var exact := Settle(m, d);
    && m' == exact.(budget := m'.budget)
    && m'.budget == (if m'.seen <= m.seen then m.budget else m.budget - AsInt32(Wrap(m'.seen - m.seen)))
    && (m'.seen - m.seen < 0x8000_0000 ==> m' == exact)
  }

  /** The first half of a settlement with a divisor. */
  function Normalized(m: Meter, d: nat): Meter
    requires d > 1 && m.counter > m.seen
  {
    var elapsed := m.counter - m.seen;
    var s := if m.stalls > elapsed then elapsed else m.stalls;
    var cpu := elapsed - s + m.remainder;
    Divided(cpu, d);
    m.(remainder := cpu % d, counter := m.seen + (s + cpu / d))
  }

  /** Normalizing and then settling undivided is settling. */
  lemma NormalizedSettles(m: Meter, d: nat, m': Meter)
    requires d > 1 && m.counter > m.seen && m.seen <= Normalized(m, d).counter
    requires Settled(Normalized(m, d), m', 1)
    ensures Settled(m, m', d)
  {
  }

  lemma RingBelow(top: int, k: int)
    ensures ((top - 256) % 0x1_0000 + (256 - k)) % 0x1_0000 == (top - k) % 0x1_0000
  {
  }

  class Scheduler {
    var cpu: M68K
    const ram: array<u8>
    const intrStack: u32
    var splitSp: int
    var vintLatched: bool
    var hintLatched: bool
    var gameRunning: bool
    var nativePcScope: bool
    var instructionOpen: bool
    var irqInProgress: bool
    var interleaveActive: bool
    var inVblankService: bool
    var pendingIrq: bool
    var yieldedVblank: bool
    var vblankCompleted: bool
    var debt: Debt
    var meter: Meter
    var divisor: nat
    ghost var vint: VintLatch

    constructor (ram: array<u8>, intrStack: u32, cpu: M68K)
      requires ram.Length == RAM_SIZE && |cpu.a| == 8
      ensures this.ram == ram && this.intrStack == intrStack && this.cpu == cpu
      ensures Valid() && gameRunning && !vintLatched && !hintLatched && debt == Debt(0, 0)
    {
      this.cpu, this.ram, this.intrStack := cpu, ram, intrStack;
      splitSp := 0;
      vintLatched, hintLatched, gameRunning := false, false, true;
      nativePcScope, instructionOpen, irqInProgress, pendingIrq := false, false, false, false;
      yieldedVblank, vblankCompleted, interleaveActive, inVblankService := false, false, false, false;
      debt, meter, divisor := Debt(0, 0), Meter(0, 0, 0, 0, 0), 1;
      vint := VintLatch(false, []);
    }

    ghost predicate Valid()
      reads this
    {
      && ram.Length == RAM_SIZE && |cpu.a| == 8
      && vintLatched == vint.latched && LatchInv(vint)
      && 0 < divisor < TWO32 && meter.remainder < divisor
      && meter.counter < TWO32 && meter.seen < TWO32 && meter.stalls < TWO32
    }

    predicate Deferred()
      reads this
    {
      (nativePcScope && instructionOpen) || irqInProgress
    }

    /** The 256-byte stack window below the interrupt stack. */
    ghost function StackWindow(): (w: seq<u8>)
      reads ram
      requires ram.Length == RAM_SIZE
      ensures |w| == WINDOW
      ensures forall k: nat {:trigger BelowStack(k)} :: 1 <= k <= WINDOW ==> w[WINDOW - k] == ram[BelowStack(k)]
    {
      WindowBelowStack();
      var bytes := ram[..];
      seq(WINDOW, i requires 0 <= i < WINDOW => Wrapped(bytes, WindowStart(), i))
    }

    /** The byte k below the interrupt stack pointer, in the 64 KiB of work RAM. */
    function BelowStack(k: nat): (at: nat)
      ensures at < RAM_SIZE
    {
      var top: int := intrStack;
      (top - k) % RAM_SIZE
    }

    lemma {:induction false} WindowBelowStack()
      ensures forall k: nat {:trigger BelowStack(k)} :: 1 <= k <= WINDOW ==> (WindowStart() + (WINDOW - k)) % RAM_SIZE == BelowStack(k)
    {
      forall k: nat {:trigger BelowStack(k)} | 1 <= k <= WINDOW
        ensures (WindowStart() + (WINDOW - k)) % RAM_SIZE == BelowStack(k)
      {
        RingBelow(intrStack, k);
      }
    }

    function WindowStart(): nat
    {
      var top: int := intrStack;
      (top - WINDOW) % RAM_SIZE
    }

    /** Six bytes below the interrupted A7, in 24 bits. */
    function ExceptionSp(): (sp: nat)
      reads this`cpu
      requires |cpu.a| == 8
      ensures sp < 0x100_0000 && (sp + 6) % 0x100_0000 == cpu.a[7] % 0x100_0000
    {
      var a7: int := cpu.a[7];
      (a7 - 6) % 0x100_0000
    }

    method SaveWindow() returns (save: seq<u8>)
      requires Valid()
      ensures save == StackWindow()
    {
      save := [];
      for i := 0 to WINDOW
        invariant |save| == i && forall k :: 0 <= k < i ==> save[k] == Wrapped(ram[..], WindowStart(), k)
      {
        save := save + [ram[(WindowStart() + i) % RAM_SIZE]];
      }
    }

    method Replace(bytes: seq<u8>)
      requires ram.Length == RAM_SIZE && |bytes| == RAM_SIZE
      modifies ram
      ensures ram[..] == bytes
    {
      forall j | 0 <= j < RAM_SIZE { ram[j] := bytes[j]; }
    }

    /** Delivery outside the precise scope, shared by V-int (level 6) and H-int (level 4): whatever
        the handler did, the registers, the split-stack counter and the stack window are handed
        back; the rest of RAM is the handler's; its cycles are owed to the raster. */
    method DeliverAtomic(level: nat, handler: Handler)
      requires Valid() && WellBehaved(handler) && (level == 6 || level == 4)
      modifies this`splitSp, this`cpu, this`debt, this`meter, this`inVblankService, ram
      ensures Valid() && !inVblankService
      ensures cpu == old(cpu) && splitSp == old(splitSp) && StackWindow() == old(StackWindow())
      ensures forall k: nat {:trigger BelowStack(k)} :: 1 <= k <= WINDOW ==> ram[BelowStack(k)] == old(ram[BelowStack(k)])
      ensures var e := handler(old(cpu).(a := old(cpu.a)[7 := intrStack]), old(ram[..]));
              && ram[..] == Overlaid(e.ram, WindowStart(), old(StackWindow()))
              && debt == Charge(old(debt), level, e.cycles)
              && meter == old(meter).(counter := Wrap(old(meter.counter) + e.cycles))
    {
      var saved, savedSplit := cpu, splitSp;
      splitSp := 0;
      var save := SaveWindow();
      cpu := cpu.(a := cpu.a[7 := intrStack]);
      inVblankService := true;
      var e := handler(cpu, ram[..]);
      cpu, splitSp := e.cpu, e.split;
      Replace(e.ram);
      meter := meter.(counter := Wrap(meter.counter + e.cycles));
      debt := Charge(debt, level, e.cycles);
      inVblankService := false;
      Overlay(ram, WindowStart(), save);
      forall i: nat | i < WINDOW ensures Wrapped(ram[..], WindowStart(), i) == save[i] {
        OverlayReads(e.ram, WindowStart(), save, i);
      }
      assert StackWindow() == save;
      cpu, splitSp := saved, savedSplit;
    }

    /** Entering the precise scope's handler: a real exception frame below the interrupted A7. */
    method EnterPrecise(sp: nat)
      requires Valid() && sp == ExceptionSp()
      modifies this`splitSp, this`cpu, this`inVblankService, ram
      ensures Valid() && inVblankService && ram[..] == Framed(old(ram[..]), sp, old(cpu.sr), old(cpu.pc))
      ensures cpu == old(cpu).(a := old(cpu.a)[7 := sp], sr := WithMask(old(cpu.sr), 6))
    {
      Overlay(ram, sp, FrameBytes(cpu.sr, cpu.pc));
      splitSp := 0;
      inVblankService := true;
      cpu := cpu.(a := cpu.a[7 := sp], sr := WithMask(cpu.sr, 6));
    }

    /** Leaving it: PC and SR come back from the frame, the other registers from `saved`. */
    method LeavePrecise(saved: M68K, savedSplit: int, sp: nat, e: Effect)
      requires Valid() && |e.ram| == RAM_SIZE && |saved.a| == 8
      modifies this`splitSp, this`cpu, this`debt, this`meter, this`vblankCompleted, this`inVblankService, ram
      ensures Valid() && vblankCompleted && !inVblankService && splitSp == savedSplit && ram[..] == e.ram
      ensures cpu == FromFrame(saved, e.ram, sp)
      ensures debt == Charge(old(debt), 6, Wrap(44 + e.cycles))
      ensures meter == Resynced(old(meter), e.cycles)
    {
      Replace(e.ram);
      ChargeException(e.cycles);
      inVblankService := false;
      var returnSr, returnPc := FrameRead(ram, sp);
      cpu := saved.(pc := returnPc % 0x100_0000, sr := returnSr);
      vblankCompleted := true;
      splitSp := savedSplit;
    }

    /** The exception's 44 cycles and the handler's are owed, and the budget counts on from there. */
    method ChargeException(cycles: u32)
      requires Valid()
      modifies this`debt, this`meter
      ensures Valid() && debt == Charge(old(debt), 6, Wrap(44 + cycles)) && meter == Resynced(old(meter), cycles)
      ensures meter.seen == meter.counter == (old(meter.counter) + 44 + cycles) % TWO32
    {
      meter := meter.(counter := Wrap(meter.counter + 44 + cycles));
      debt := Charge(debt, 6, Wrap(44 + cycles));
      meter := meter.(seen := meter.counter);
    }

    /** V-int delivery in the precise scope. The handler's cycles are owed as debt and not charged to
        the resumed chunk a second time. */
    method DeliverPrecise(handler: Handler)
      requires Valid() && WellBehaved(handler)
      modifies this`splitSp, this`cpu, this`debt, this`meter, this`vblankCompleted, this`inVblankService, ram
      ensures Valid() && vblankCompleted && !inVblankService && splitSp == old(splitSp)
      ensures var sp := old(ExceptionSp());
              var e := handler(old(cpu).(a := old(cpu.a)[7 := sp], sr := WithMask(old(cpu.sr), 6)),
                               Framed(old(ram[..]), sp, old(cpu.sr), old(cpu.pc)));
              && |e.ram| == RAM_SIZE && ram[..] == e.ram
              && cpu == FromFrame(old(cpu), e.ram, sp)
              && debt == Charge(old(debt), 6, Wrap(44 + e.cycles))
              && meter == Resynced(old(meter), e.cycles)
    {
      var saved, savedSplit := cpu, splitSp;
      var sp := ExceptionSp();
      EnterPrecise(sp);
      var e := handler(cpu, ram[..]);
      LeavePrecise(saved, savedSplit, sp, e);
    }

    /** The handler's effect when it is delivered now: from the exception frame in the precise
        scope (V-int only), from the interrupt stack otherwise. */
    ghost function EffectOf(level: nat, handler: Handler): Effect
      reads this`cpu, this`nativePcScope, ram
      requires ram.Length == RAM_SIZE && |cpu.a| == 8
    {
      if level == 6 && nativePcScope then
        handler(cpu.(a := cpu.a[7 := ExceptionSp()], sr := WithMask(cpu.sr, 6)),
                Framed(ram[..], ExceptionSp(), cpu.sr, cpu.pc))
      else handler(cpu.(a := cpu.a[7 := intrStack]), ram[..])
    }

    ghost predicate DeliversNow(level: nat)
      reads this
    {
      gameRunning && !Deferred() && ((level == 6 && MaskOf(cpu) < 6) || (level == 4 && MaskOf(cpu) < 4))
    }

    /** What delivering leaves: registers, RAM, debt and meter. */
    ghost function AfterDelivery(level: nat, handler: Handler): (M68K, seq<u8>, Debt, Meter)
      reads this`cpu, this`nativePcScope, this`debt, this`meter, ram
      requires ram.Length == RAM_SIZE && |cpu.a| == 8 && WellBehaved(handler)
    {
      var e := EffectOf(level, handler);
      if level == 6 && nativePcScope then
        (FromFrame(cpu, e.ram, ExceptionSp()), e.ram, Charge(debt, 6, Wrap(44 + e.cycles)), Resynced(meter, e.cycles))
      else (cpu, Overlaid(e.ram, WindowStart(), StackWindow()), Charge(debt, level, e.cycles),
            meter.(counter := Wrap(meter.counter + e.cycles)))
    }

    /** own_deliver_vint. */
    method DeliverVint(handler: Handler)
      requires Valid() && WellBehaved(handler)
      modifies this`splitSp, this`cpu, this`debt, this`meter, this`vblankCompleted, this`yieldedVblank, this`inVblankService, ram
      ensures Valid() && splitSp == old(splitSp) && !yieldedVblank
      ensures (cpu, ram[..], debt, meter) == old(AfterDelivery(6, handler))
      ensures !nativePcScope ==> StackWindow() == old(StackWindow())
    {
      if nativePcScope {
        DeliverPrecise(handler);
      } else {
        DeliverAtomic(6, handler);
      }
      yieldedVblank := false;
    }

    /** glue_own_interrupt at level 6: deliver or latch. */
    method RaiseVint(handler: Handler)
      requires Valid() && WellBehaved(handler) && gameRunning
      modifies this`vintLatched, this`vint, this`splitSp, this`cpu, this`debt, this`meter, this`vblankCompleted, this`yieldedVblank, this`inVblankService, ram
      ensures Valid() && splitSp == old(splitSp)
      ensures vint == VintStep(old(vint), Raise(Deferred(), old(MaskOf(cpu))))
      ensures vintLatched == !old(DeliversNow(6))
      ensures old(DeliversNow(6)) ==> (cpu, ram[..], debt, meter) == old(AfterDelivery(6, handler))
      ensures !old(DeliversNow(6)) ==> cpu == old(cpu) && ram[..] == old(ram[..]) && debt == old(debt) && meter == old(meter)
      ensures !nativePcScope ==> StackWindow() == old(StackWindow())
    {
      if Deferred() || MaskOf(cpu) >= 6 {
        LatchVint();
      } else {
        LatchStepKeeps(vint, Raise(false, MaskOf(cpu)));
        vint := VintStep(vint, Raise(false, MaskOf(cpu)));
        vintLatched := false;
        DeliverVint(handler);
      }
    }

    /** glue_own_interrupt at level 4: deliver or latch. */
    method RaiseHint(handler: Handler)
      requires Valid() && WellBehaved(handler) && gameRunning
      modifies this`hintLatched, this`splitSp, this`cpu, this`debt, this`meter, this`inVblankService, ram
      ensures Valid() && splitSp == old(splitSp)
      ensures hintLatched == !old(DeliversNow(4))
      ensures old(DeliversNow(4)) ==> (cpu, ram[..], debt, meter) == old(AfterDelivery(4, handler))
      ensures !old(DeliversNow(4)) ==> cpu == old(cpu) && ram[..] == old(ram[..]) && debt == old(debt) && meter == old(meter)
      ensures StackWindow() == old(StackWindow())
    {
      if Deferred() || MaskOf(cpu) >= 4 {
        hintLatched := true;
      } else {
        hintLatched := false;
        DeliverAtomic(4, handler);
      }
    }

    /** glue_own_interrupt: nothing happens unless the game is running. */
    method OwnInterrupt(level: nat, handler: Handler)
      requires Valid() && WellBehaved(handler)
      modifies this, ram
      ensures Valid() && gameRunning == old(gameRunning) && splitSp == old(splitSp) && nativePcScope == old(nativePcScope)
      ensures !gameRunning || level != 6 ==> vint == old(vint)
      ensures gameRunning && level == 6 ==> vint == VintStep(old(vint), Raise(old(Deferred()), old(MaskOf(cpu))))
      ensures gameRunning && level == 6 ==>
                vintLatched == (old((nativePcScope && instructionOpen) || irqInProgress) || old(cpu).sr / 0x100 % 8 >= 6)
      ensures !gameRunning || level != 6 ==> vintLatched == old(vintLatched)
      ensures !gameRunning || level != 4 ==> hintLatched == old(hintLatched)
      ensures gameRunning && level == 4 ==>
                hintLatched == (old((nativePcScope && instructionOpen) || irqInProgress) || old(cpu).sr / 0x100 % 8 >= 4)
      ensures old(DeliversNow(level)) ==> (cpu, ram[..], debt, meter) == old(AfterDelivery(level, handler))
      ensures !old(DeliversNow(level)) ==> cpu == old(cpu) && ram[..] == old(ram[..]) && debt == old(debt) && meter == old(meter)
      ensures !nativePcScope || level == 4 ==> StackWindow() == old(StackWindow())
    {
      if !gameRunning {
        return;
      }
      if level == 6 {
        RaiseVint(handler);
      } else if level == 4 {
        RaiseHint(handler);
      }
    }

    /** A V-int that cannot be delivered now is latched. */
    method LatchVint()
      requires Valid() && (Deferred() || MaskOf(cpu) >= 6)
      modifies this`vintLatched, this`vint
      ensures Valid() && vint == VintStep(old(vint), Raise(Deferred(), MaskOf(cpu)))
    {
      LatchStepKeeps(vint, Raise(Deferred(), MaskOf(cpu)));
      vint := VintStep(vint, Raise(Deferred(), MaskOf(cpu)));
      vintLatched := true;
    }

    /** glue_own_vint_service_latched. Unlike a raise, the service does not look at
        s_irq_in_progress. */
    method ServiceVint(handler: Handler) returns (fired: bool)
      requires Valid() && WellBehaved(handler)
      modifies this, ram
      ensures Valid()
      ensures fired <==> old(vintLatched) && gameRunning && !(nativePcScope && instructionOpen) && old(cpu).sr / 0x100 % 8 < 6
      ensures vintLatched == (old(vintLatched) && !fired)
      ensures gameRunning ==> vint == VintStep(old(vint), Service(nativePcScope && instructionOpen, old(MaskOf(cpu))))
      ensures !fired ==> vint == old(vint) && cpu == old(cpu) && ram[..] == old(ram[..]) && debt == old(debt) && meter == old(meter)
      ensures fired ==> (cpu, ram[..], debt, meter) == old(AfterDelivery(6, handler))
      ensures gameRunning == old(gameRunning) && nativePcScope == old(nativePcScope) && instructionOpen == old(instructionOpen)
      ensures splitSp == old(splitSp)
      ensures !nativePcScope ==> StackWindow() == old(StackWindow())
    {
      if !vintLatched || !gameRunning {
        return false;
      }
      if nativePcScope && instructionOpen {
        return false;
      }
      if MaskOf(cpu) >= 6 {
        return false;
      }
      AnswerVint();
      DeliverVint(handler);
      return true;
    }

    /** The latch gives way to a delivery. */
    method AnswerVint()
      requires Valid() && vintLatched && MaskOf(cpu) < 6
      modifies this`vintLatched, this`vint
      ensures Valid() && vint == VintStep(old(vint), Service(false, MaskOf(cpu)))
    {
      LatchStepKeeps(vint, Service(false, MaskOf(cpu)));
      vint := VintStep(vint, Service(false, MaskOf(cpu)));
      vintLatched := false;
    }

    /** glue_own_hint_service_latched; `ie1` is the VDP's horizontal interrupt enable. */
    method ServiceHint(ie1: bool, handler: Handler) returns (fired: bool)
      requires Valid() && WellBehaved(handler)
      modifies this, ram
      ensures Valid() && vint == old(vint)
      ensures fired <==> old(hintLatched) && old(gameRunning) && !old(Deferred()) && !old(pendingIrq) && ie1 && old(MaskOf(cpu)) < 4
      ensures hintLatched == (old(hintLatched) && !fired)
      ensures fired ==> (cpu, ram[..], debt, meter) == old(AfterDelivery(4, handler))
      ensures !fired ==> cpu == old(cpu) && ram[..] == old(ram[..]) && debt == old(debt) && meter == old(meter)
      ensures splitSp == old(splitSp) && StackWindow() == old(StackWindow())
    {
      if nativePcScope && instructionOpen {
        return false;
      }
      if !hintLatched || !gameRunning || irqInProgress || pendingIrq || !ie1 || MaskOf(cpu) >= 4 {
        return false;
      }
      OwnInterrupt(4, handler);
      return true;
    }

    // ---- chunks and budget -------------------------------------------------------------

    /** glue_run_game_chunk up to the switch into the game fiber: an unblocked chunk pays interrupt
        debt first and grants the rest as budget, cast to a signed word. */
    method RunGameChunk(cycles: u32, held: bool, newDivisor: u32) returns (ran: bool)
      requires Valid()
      modifies this`debt, this`meter, this`divisor, this`interleaveActive
      ensures Valid()
      ensures held || !gameRunning || yieldedVblank ==>
                !ran && debt == old(debt) && meter == old(meter) && divisor == old(divisor)
      ensures !held && gameRunning && !yieldedVblank ==>
                && debt == AfterChunk(old(debt), cycles)
                && ran == (old(debt.owed) == 0 || old(debt.owed) < cycles)
                && (ran ==> interleaveActive && meter.budget == AsInt32(cycles - Paid(old(debt), cycles))
                            && meter.seen == meter.counter == old(meter.counter) && meter.stalls == 0)
                && (!ran ==> Paid(old(debt), cycles) == cycles && meter == old(meter))
      ensures !ran ==> interleaveActive == old(interleaveActive) && divisor == old(divisor)
      ensures ran ==> divisor == (if nativePcScope || newDivisor == 0 then 1 else newDivisor)
                      && meter.remainder == (if divisor == old(divisor) then old(meter.remainder) else 0)
    {
      if held || !gameRunning || yieldedVblank {
        return false;
      }
      var left: u32 := cycles;
      if debt.owed != 0 {
        if debt.owed >= left {
          debt := debt.(owed := debt.owed - left);
          if debt.owed == 0 { debt := debt.(level := 0); }
          return false;
        }
        left := left - debt.owed;
        debt := Debt(0, 0);
      }
      var d := if nativePcScope || newDivisor == 0 then 1 else newDivisor;
      if d != divisor { meter := meter.(remainder := 0); }
      divisor := d;
      meter := meter.(stalls := 0, budget := AsInt32(left), seen := meter.counter);
      interleaveActive := true;
      return true;
    }

    /** check_cycle_budget; inert outside a chunk and inside a handler. */
    method CheckCycleBudget() returns (spent: bool)
      requires Valid()
      modifies this`meter
      ensures Valid()
      ensures interleaveActive && !inVblankService ==>
                Settled(old(meter), meter, if irqInProgress then 1 else divisor) && spent == (meter.budget <= 0)
      ensures !interleaveActive || inVblankService ==> meter == old(meter) && !spent
    {
      if !interleaveActive || inVblankService {
        return false;
      }
      ghost var m := meter;
      if divisor > 1 && !irqInProgress && meter.counter > meter.seen {
        Normalize();
        Drain();
        NormalizedSettles(m, divisor, meter);
      } else {
        Drain();
      }
      spent := meter.budget <= 0;
    }

    /** Scaling the program's share of the time since the last settlement, before the bus access. */
    method Normalize()
      requires Valid() && divisor > 1 && meter.counter > meter.seen
      modifies this`meter
      ensures Valid() && meter == Normalized(old(meter), divisor) && meter.seen <= meter.counter
    {
      var elapsed := meter.counter - meter.seen;
      var s := if meter.stalls > elapsed then elapsed else meter.stalls;
      var cpuCycles := elapsed - s + meter.remainder;
      ScaledDown(elapsed - s, meter.remainder, divisor);
      var scaled := s + cpuCycles / divisor;
      meter := meter.(remainder := cpuCycles % divisor, counter := meter.counter - (elapsed - scaled));
    }

    /** The rest of the settlement. */
    method Drain()
      requires Valid()
      modifies this`meter
      ensures Valid() && Settled(old(meter), meter, 1)
    {
      var now := meter.counter;
      meter := meter.(stalls := 0);
      if now > meter.seen {
        meter := meter.(budget := meter.budget - AsInt32(now - meter.seen));
      }
      meter := meter.(seen := now);
    }

    /** glue_charge_68k_stall: a freeze event of the chunk history inside a chunk, plain work outside
        it, in 32-bit words. */
    method ChargeStall(cycles: u32)
      requires Valid()
      modifies this`meter
      ensures Valid()
      ensures var counts := interleaveActive && !inVblankService;
              var exact := Exec(old(meter), divisor, if counts then Freeze(cycles) else Work(cycles));
              && meter == exact.(counter := Wrap(exact.counter), stalls := Wrap(exact.stalls))
              && (exact.counter < TWO32 && exact.stalls < TWO32 ==> meter == exact)
    {
      meter := meter.(counter := Wrap(meter.counter + cycles));
      if interleaveActive && !inVblankService {
        meter := meter.(stalls := Wrap(meter.stalls + cycles));
      }
    }
  }
}
