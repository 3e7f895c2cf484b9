/** Raster time on the cooperative scheduler: the debt interrupt handlers run up and chunks pay
    down, the per-chunk cycle budget, and the fractional main-program clock (runner/glue.c,
    runner/main_cpu_clock.h). */
module RasterClock {
  import opened Bits

  // ---- the fractional clock ----------------------------------------------------------

  class MainCpuClock {
    var remainder: u32

    constructor ()
      ensures remainder == 0
    {
      remainder := 0;
    }

    /** main_cpu_elapsed: program cycles are divided, stalls are not; the fraction is carried. With a
        remainder below the divisor, which every call leaves, the scaled time is exact and at most the
        elapsed time; a remainder left by a larger divisor is divided too, in 32 bits. */
    method Elapsed(elapsed: u32, stalls: u32, divisor: u32) returns (scaled: u32)
      modifies this
      ensures divisor <= 1 ==> scaled == elapsed && remainder == 0
      ensures divisor > 1 ==>
                var s := if stalls > elapsed then elapsed else stalls;
                var q := (elapsed - s + old(remainder)) / divisor;
                && remainder < divisor
                && q * divisor + remainder == elapsed - s + old(remainder)
                && scaled == Wrap(s + q)
                && (old(remainder) < divisor ==> s <= scaled <= elapsed && scaled == s + q)
    {
      if divisor <= 1 {
        remainder := 0;
        return elapsed;
      }
      var s := if stalls > elapsed then elapsed else stalls;
      var cpu := elapsed - s + remainder;
      Divided(cpu, divisor);
      if remainder < divisor { ScaledDown(elapsed - s, remainder, divisor); }
      remainder := cpu % divisor;
      scaled := Wrap(s + cpu / divisor);
    }
  }

  lemma Divided(v: nat, d: nat)
    requires d > 0
    ensures v / d * d + v % d == v && 0 <= v % d < d && v / d >= 0
  {
  }

  lemma Product(a: int, b: int, d: int)
    requires a >= b && d >= 0
    ensures a * d >= b * d
  {
  }

  lemma {:induction false} QuotientAtMost(v: int, d: int, w: int)
    requires d > 0 && 0 <= v < w * d + d
    ensures 0 <= v / d <= w
  {
    var q := v / d;
    assert q * d <= v;
    assert (w + 1) * d == w * d + d;
    if q > w { Product(q, w + 1, d); }
  }

  lemma {:induction false} ScaledDown(work: nat, rem: nat, d: nat)
    requires d > 1 && rem < d
    ensures 0 <= (work + rem) / d <= work && 0 <= (work + rem) % d < d
    ensures (work + rem) / d * d + (work + rem) % d == work + rem
  {
    Product(d, 1, work);
    QuotientAtMost(work + rem, d, work);
  }

  /** Dividing in two instalments with the remainder carried is dividing once. */
  lemma {:induction false} Instalments(r: nat, a: nat, b: nat, d: nat)
    requires d > 0
    ensures (r + a) / d + ((r + a) % d + b) / d == (r + a + b) / d
    ensures ((r + a) % d + b) % d == (r + a + b) % d
  {
    var q, m := (r + a) / d, (r + a) % d;
    var q2, m2 := (m + b) / d, (m + b) % d;
    assert r + a + b == (q + q2) * d + m2;
    DivModUnique(r + a + b, d, q + q2, m2);
  }

  // ---- a chunk of main-program execution ---------------------------------------------

  /** What happens inside a chunk: instructions advance the cycle counter, DMA freezes it, and bus
      accesses settle the budget. */
  datatype Event = Work(cycles: nat) | Freeze(cycles: nat) | BusAccess

  /** g_audio_cycle_counter, s_budget_cyc_seen, s_main_cpu_stalls, the clock's remainder and
      s_cycle_budget. */
  datatype Meter = Meter(counter: nat, seen: nat, stalls: nat, remainder: nat, budget: int)

  /** check_cycle_budget while the main program runs. */
  function Settle(m: Meter, divisor: nat): Meter
    requires divisor > 0
  {
    if m.counter <= m.seen then m.(stalls := 0, seen := m.counter)
    else if divisor == 1 then m.(stalls := 0, seen := m.counter, budget := m.budget - (m.counter - m.seen))
    else
      var elapsed := m.counter - m.seen;
      var s := if m.stalls > elapsed then elapsed else m.stalls;
      var cpu := elapsed - s + m.remainder;
      Divided(cpu, divisor);
      var scaled := s + cpu / divisor;
      Meter(m.seen + scaled, m.seen + scaled, 0, cpu % divisor, m.budget - scaled)
  }

  function Exec(m: Meter, divisor: nat, e: Event): Meter
    requires divisor > 0
  {
    match e
    case Work(c) => m.(counter := m.counter + c)
    case Freeze(c) => m.(counter := m.counter + c, stalls := m.stalls + c)
    case BusAccess => Settle(m, divisor)
  }

  function ExecAll(m: Meter, divisor: nat, es: seq<Event>): Meter
    requires divisor > 0
  {
    if es == [] then m else Exec(ExecAll(m, divisor, es[..|es| - 1]), divisor, es[|es| - 1])
  }

  function TotalWork(es: seq<Event>): nat
  {
    if es == [] then 0
    else TotalWork(es[..|es| - 1]) + match es[|es| - 1] case Work(c) => c case _ => 0
  }

  function TotalFreeze(es: seq<Event>): nat
  {
    if es == [] then 0
    else TotalFreeze(es[..|es| - 1]) + match es[|es| - 1] case Freeze(c) => c case _ => 0
  }

  /** Invariant of a chunk: settled work has gone through one division, settled freezes count in
      full, and the rest is still between `seen` and the counter. */
  predicate Accounted(m0: Meter, m: Meter, divisor: nat, work: nat, freeze: nat, settledWork: nat)
    requires divisor > 0
  {
    && settledWork <= work && m.stalls <= freeze
    && m.counter - m.seen == (work - settledWork) + m.stalls
    && m0.budget - m.budget == (freeze - m.stalls) + (m0.remainder + settledWork) / divisor
    && m.remainder == (m0.remainder + settledWork) % divisor
  }

  lemma {:induction false} SettleAccounts(m0: Meter, m: Meter, divisor: nat, work: nat, freeze: nat, settledWork: nat)
    requires divisor > 0 && m0.remainder < divisor && Accounted(m0, m, divisor, work, freeze, settledWork)
    ensures Accounted(m0, Settle(m, divisor), divisor, work, freeze, work)
  {
    var more := work - settledWork;
    Instalments(m0.remainder, settledWork, more, divisor);
    if divisor == 1 {
      DivModUnique(m0.remainder + work, 1, m0.remainder + work, 0);
      DivModUnique(m0.remainder + settledWork, 1, m0.remainder + settledWork, 0);
    }
  }

  lemma {:induction false} ChunkAccounted(m0: Meter, divisor: nat, es: seq<Event>) returns (settledWork: nat)
    requires divisor > 0 && m0.remainder < divisor && m0.stalls == 0 && m0.seen == m0.counter
    ensures Accounted(m0, ExecAll(m0, divisor, es), divisor, TotalWork(es), TotalFreeze(es), settledWork)
    ensures es != [] && es[|es| - 1].BusAccess? ==> settledWork == TotalWork(es)
  {
    if es == [] {
      settledWork := 0;
      DivModUnique(m0.remainder, divisor, 0, m0.remainder);
    } else {
      var front := es[..|es| - 1];
      settledWork := ChunkAccounted(m0, divisor, front);
      if es[|es| - 1].BusAccess? {
        SettleAccounts(m0, ExecAll(m0, divisor, front), divisor, TotalWork(front), TotalFreeze(front), settledWork);
        settledWork := TotalWork(es);
      }
    }
  }

  /** However bus accesses split a chunk, at a bus access the budget used is the freezes in full
      plus one division of all the work, the remainder is that division's, and the counter has
      moved by exactly the budget used. */
  lemma {:induction false} BudgetIgnoresSplitting(m0: Meter, divisor: nat, es: seq<Event>)
    requires divisor > 0 && m0.remainder < divisor && m0.stalls == 0 && m0.seen == m0.counter
    requires es != [] && es[|es| - 1].BusAccess?
    ensures var m := ExecAll(m0, divisor, es);
            && m0.budget - m.budget == TotalFreeze(es) + (m0.remainder + TotalWork(es)) / divisor
            && m.remainder == (m0.remainder + TotalWork(es)) % divisor && m.remainder < divisor
            && m.seen == m.counter && m.stalls == 0
  {
    var w := ChunkAccounted(m0, divisor, es);
    var m := ExecAll(m0, divisor, es);
    assert m.stalls == 0;
  }

  // ---- interrupt debt ----------------------------------------------------------------

  /** s_irq_cycle_debt and s_irq_cycle_debt_level. */
  datatype Debt = Debt(owed: u32, level: nat)

  /** A handler of level 6 or 4 ran for `cycles`. */
  function Charge(d: Debt, irq: nat, cycles: u32): Debt
  {
    var owed := (d.owed + cycles) % TWO32;
    Debt(owed, if owed == 0 then d.level else if irq == 6 then 6 else if d.level < 4 then 4 else d.level)
  }

  /** What an unblocked chunk of `cycles` pays, and the budget it leaves for the game. */
  function Paid(d: Debt, cycles: nat): nat { if d.owed >= cycles then cycles else d.owed }

  function AfterChunk(d: Debt, cycles: nat): Debt
  {
    if d.owed > Paid(d, cycles) then d.(owed := d.owed - Paid(d, cycles)) else Debt(0, if d.owed == 0 then d.level else 0)
  }

  /** A chunk grants budget only once the debt is gone, pays no more than is owed or offered, and owes
      what it did not pay. */
  lemma DebtFirst(d: Debt, cycles: nat)
    ensures Paid(d, cycles) < cycles ==> AfterChunk(d, cycles).owed == 0
    ensures AfterChunk(d, cycles).owed == d.owed - Paid(d, cycles) && Paid(d, cycles) <= cycles
    ensures AfterChunk(d, cycles).owed > 0 ==> AfterChunk(d, cycles).level == d.level
  {
  }

  /** The level on record is the highest of the handlers still owed. */
  lemma LevelIsHighest(d: Debt, irq: nat, cycles: u32)
    requires (irq == 4 || irq == 6) && (d.level == 0 || d.level == 4 || d.level == 6)
    ensures var r := Charge(d, irq, cycles);
            r.owed > 0 ==> r.level >= irq && r.level >= d.level && (r.level == irq || r.level == d.level)
  {
  }

  predicate Consistent(d: Debt) { d.owed == 0 <==> d.level == 0 }

  /** Charging keeps "no debt exactly when no level" unless the 32-bit counter wraps to zero. */
  lemma ChargeConsistent(d: Debt, irq: nat, cycles: u32)
    requires Consistent(d)
    ensures Consistent(Charge(d, irq, cycles)) <==> d.owed + cycles != TWO32
  {
  }

  lemma ChunkConsistent(d: Debt, cycles: nat)
    requires Consistent(d)
    ensures Consistent(AfterChunk(d, cycles))
  {
  }

  datatype DebtEvent = Handler(irq: nat, cycles: u32) | Chunk(cycles: u32)

  /** Totals over a history. */
  datatype Ledger = Ledger(debt: Debt, charged: nat, paid: nat, granted: nat, offered: nat)

  function Post(l: Ledger, e: DebtEvent): Ledger
  {
    match e
    case Handler(irq, cycles) => l.(debt := Charge(l.debt, irq, cycles), charged := l.charged + cycles)
    case Chunk(cycles) =>
      var p := Paid(l.debt, cycles);
      Ledger(AfterChunk(l.debt, cycles), l.charged, l.paid + p, l.granted + (cycles - p), l.offered + cycles)
  }

  function PostAll(l: Ledger, es: seq<DebtEvent>): Ledger
  {
    if es == [] then l else Post(PostAll(l, es[..|es| - 1]), es[|es| - 1])
  }

  const EMPTY_LEDGER := Ledger(Debt(0, 0), 0, 0, 0, 0)

  /** Handler e, coming after the history, would bring the debt to `owed + cycles`. */
  function Sum(front: seq<DebtEvent>, e: DebtEvent): nat
    requires e.Handler?
  {
    PostAll(EMPTY_LEDGER, front).debt.owed + e.cycles
  }

  /** No handler of the history pushes the debt past 32 bits. */
  predicate NoWrap(es: seq<DebtEvent>)
  {
    if es == [] then true
    else
      var front, e := es[..|es| - 1], es[|es| - 1];
      NoWrap(front) && (e.Handler? ==> Sum(front, e) < TWO32)
  }

  /** No handler of the history brings the debt to exactly 2^32. */
  predicate NoExactWrap(es: seq<DebtEvent>)
  {
    if es == [] then true
    else
      var front, e := es[..|es| - 1], es[|es| - 1];
      NoExactWrap(front) && (e.Handler? ==> Sum(front, e) != TWO32)
  }

  /** How many handlers of the history did. */
  function Wraps(es: seq<DebtEvent>): nat
  {
    if es == [] then 0
    else
      var front, e := es[..|es| - 1], es[|es| - 1];
      Wraps(front) + if e.Handler? && Sum(front, e) >= TWO32 then 1 else 0
  }

  /** One event: what it adds to the two sides of each account. */
  lemma {:induction false} PostAccounts(l: Ledger, e: DebtEvent)
    ensures var m := Post(l, e);
            var lost := if e.Handler? && l.debt.owed + e.cycles >= TWO32 then TWO32 else 0;
            && m.offered - m.paid - m.granted == l.offered - l.paid - l.granted
            && m.charged - m.paid - m.debt.owed == l.charged - l.paid - l.debt.owed + lost
  {
    if e.Handler? { WrapOnce(l.debt.owed + e.cycles, TWO32); }
  }

  /** In every history of handlers and unblocked chunks: cycles offered are exactly debt paid plus
      budget granted; handler cycles are debt paid plus debt owed plus 2^32 for each time the debt
      wrapped. */
  lemma {:induction false} RasterTimeConserved(es: seq<DebtEvent>)
    ensures var l := PostAll(EMPTY_LEDGER, es);
            l.offered == l.paid + l.granted && l.charged == l.paid + l.debt.owed + TWO32 * Wraps(es)
  {
    if es != [] {
      RasterTimeConserved(es[..|es| - 1]);
      PostAccounts(PostAll(EMPTY_LEDGER, es[..|es| - 1]), es[|es| - 1]);
    }
  }

  lemma {:induction false} WrapsCounted(es: seq<DebtEvent>)
    ensures Wraps(es) == 0 <==> NoWrap(es)
  {
    if es != [] { WrapsCounted(es[..|es| - 1]); }
  }

  /** Over every history, handler cycles are exactly debt paid plus debt owed if and only if no handler
      ever pushed the debt past 32 bits; what is lost otherwise is never made up. */
  lemma {:induction false} DebtConserved(es: seq<DebtEvent>)
    ensures var l := PostAll(EMPTY_LEDGER, es);
            l.charged >= l.paid + l.debt.owed && (l.charged == l.paid + l.debt.owed <==> NoWrap(es))
  {
    RasterTimeConserved(es);
    WrapsCounted(es);
  }

  /** The wrap-around is reachable: two handlers, 2^32 cycles between them, and nothing is owed while
      the level stands. */
  lemma {:induction false} DebtWraps(es: seq<DebtEvent>)
    requires es == [Handler(6, 0xFFFF_FFFF), Handler(6, 1)]
    ensures PostAll(EMPTY_LEDGER, es) == Ledger(Debt(0, 6), TWO32, 0, 0, 0)
    ensures !NoWrap(es) && !NoExactWrap(es)
  {
    assert es[..1][..0] == [];
    assert PostAll(EMPTY_LEDGER, es[..1]) == Post(PostAll(EMPTY_LEDGER, []), es[0]);
  }

  /** Debt zero exactly when level zero, after the first n events. */
  predicate ConsistentAt(es: seq<DebtEvent>, n: nat)
  {
    n <= |es| && Consistent(PostAll(EMPTY_LEDGER, es[..n]).debt)
  }

  ghost predicate ConsistentThroughout(es: seq<DebtEvent>)
  {
    forall n: nat :: n <= |es| ==> ConsistentAt(es, n)
  }

  lemma {:induction false} SamePrefix(es: seq<DebtEvent>, front: seq<DebtEvent>, n: nat)
    requires front <= es && n <= |front|
    ensures ConsistentAt(es, n) == ConsistentAt(front, n)
  {
    assert front[..n] == es[..n];
  }

  lemma {:induction false} ThroughoutStep(es: seq<DebtEvent>, front: seq<DebtEvent>)
    requires front <= es && |es| == |front| + 1
    ensures ConsistentThroughout(es) <==> ConsistentThroughout(front) && ConsistentAt(es, |es|)
  {
    forall n: nat | n <= |front| ensures ConsistentAt(es, n) == ConsistentAt(front, n) {
      SamePrefix(es, front, n);
    }
    if ConsistentThroughout(front) && ConsistentAt(es, |es|) {
      forall n: nat | n <= |es| ensures ConsistentAt(es, n) {
        if n <= |front| { assert ConsistentAt(front, n); }
      }
    }
    if ConsistentThroughout(es) {
      forall n: nat | n <= |front| ensures ConsistentAt(front, n) {
        assert ConsistentAt(es, n);
      }
    }
  }

  /** Over every history, the debt is zero exactly when its level is, after every event, if and only
      if no handler ever brought the debt to exactly 2^32. */
  lemma {:induction false} LevelMeansDebt(es: seq<DebtEvent>)
    ensures ConsistentThroughout(es) <==> NoExactWrap(es)
  {
    if es == [] {
      assert es[..0] == [];
    } else {
      var front, e := es[..|es| - 1], es[|es| - 1];
      LevelMeansDebt(front);
      ThroughoutStep(es, front);
      var d := PostAll(EMPTY_LEDGER, front).debt;
      assert front[..|front|] == front && es[..|es|] == es;
      assert ConsistentThroughout(front) ==> ConsistentAt(front, |front|);
      if Consistent(d) {
        if e.Handler? { ChargeConsistent(d, e.irq, e.cycles); } else { ChunkConsistent(d, e.cycles); }
      }
    }
  }
}
