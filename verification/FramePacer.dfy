/** The rational frame pacer (runner/frame_pacer.h): deadlines in host counter ticks for a frame
    of `ticks / clock` seconds on a counter of `frequency` ticks per second. */
module FramePacer {
  import opened Bits

  /** frequency * ticks / clock one part at a time, as frame_pacer_init_ratio computes it without
      ever forming the full product. */
  lemma {:induction false} SplitProduct(frequency: nat, ticks: nat, clock: nat)
    requires clock > 0
    ensures var q, part := frequency / clock, frequency % clock * ticks;
            && frequency * ticks / clock == q * ticks + part / clock
            && frequency * ticks % clock == part % clock
            && q * ticks >= 0 && part / clock >= 0
            && frequency * ticks == (q * ticks + part / clock) * clock + part % clock
  {
    var q, f := frequency / clock, frequency % clock;
    var part := f * ticks;
    Euclid(frequency, clock);
    Regroup(q, clock, f, ticks);
    Euclid(part, clock);
    Collect(q * ticks, part / clock, clock);
    DivModUnique(frequency * ticks, clock, q * ticks + part / clock, part % clock);
  }

  lemma Euclid(v: nat, d: nat)
    requires d > 0
    ensures v == v / d * d + v % d && v / d >= 0 && 0 <= v % d < d
  {
  }

  lemma Regroup(q: nat, clock: nat, f: nat, ticks: nat)
    ensures (q * clock + f) * ticks == q * ticks * clock + f * ticks && f * ticks >= 0 && q * ticks >= 0
  {
  }

  lemma Collect(a: nat, b: nat, clock: nat)
    ensures a * clock + b * clock == (a + b) * clock
  {
  }

  lemma {:induction false} QuotientTest(q: nat, t: nat, max: nat)
    requires t > 0
    ensures q > max / t <==> q * t > max
  {
    var m := max / t;
    assert m * t <= max < m * t + t;
    assert q > m ==> q * t >= (m + 1) * t == m * t + t;
    assert q <= m ==> q * t <= m * t;
  }

  /** The period and its fraction, without forming frequency * ticks: possible exactly when
      floor(frequency * ticks / clock) fits 64 bits. */
  method PeriodOf(frequency: u64, ticks: u32, clock: u32) returns (fits: bool, period: u64, step: nat)
    ensures fits <==> frequency > 0 && ticks > 0 && clock > 0 && frequency * ticks / clock < TWO64
    ensures fits ==> step < clock && period == frequency * ticks / clock && frequency * ticks == period * clock + step
  {
    fits, period, step := false, 0, 0;
    if frequency == 0 || ticks == 0 || clock == 0 {
      return;
    }
    var q, part := frequency / clock, frequency % clock * ticks;
    SplitProduct(frequency, ticks, clock);
    QuotientTest(q, ticks, TWO64 - 1);
    if q > (TWO64 - 1) / ticks {
      return;
    }
    var whole, tail := q * ticks, part / clock;
    if whole > TWO64 - 1 - tail {
      return;
    }
    period := whole + tail;
    step := part % clock;
    fits := true;
  }

  /** floor(n * num / den). */
  function Floor(n: nat, num: nat, den: nat): nat
    requires den > 0
  {
    n * num / den
  }

  /** `pos` whole ticks and `phase` den-ths of a tick are exactly n periods of num/den. */
  predicate Exactly(pos: int, phase: int, n: nat, num: nat, den: nat)
  {
    0 <= phase < den && pos * den + phase == n * num
  }

  lemma {:induction false} ExactlyIsFloor(pos: int, phase: int, n: nat, num: nat, den: nat)
    requires den > 0 && Exactly(pos, phase, n, num, den)
    ensures pos == Floor(n, num, den)
  {
    DivModUnique(n * num, den, pos, phase);
  }

  lemma ExactlyAtZero(num: nat, den: nat)
    requires den > 0
    ensures Exactly(0, 0, 0, num, den)
  {
  }

  /** Adding one period to an exact position, carrying the phase. */
  lemma {:induction false} Advance(pos: int, phase: int, n: nat, period: nat, step: nat, num: nat, den: nat)
    requires Exactly(pos, phase, n, num, den) && num == period * den + step && step < den
    ensures if phase + step >= den then Exactly(pos + period + 1, phase + step - den, n + 1, num, den)
            else Exactly(pos + period, phase + step, n + 1, num, den)
  {
    assert (n + 1) * num == n * num + num;
    assert (pos + period) * den == pos * den + period * den;
    assert (pos + period + 1) * den == pos * den + period * den + den;
  }

  lemma WrapNext(v: nat, k: nat)
    ensures (v % TWO64 + k) % TWO64 == (v + k) % TWO64
  {
  }

  class Pacer {
    var next: u64
    var period: u64
    var phase: nat
    var phaseStep: nat
    var phaseDen: nat
    var active: bool
    // history:
    ghost var num: nat          // frequency * ticks
    ghost var start: nat        // `now` at the last restart
    ghost var issued: nat       // deadlines handed out since
    ghost var exact: nat        // `next` without 64-bit wrap-around

    constructor ()
      ensures !active
    {
      next, period, phase, phaseStep, phaseDen, active := 0, 0, 0, 0, 0, false;
      num, start, issued, exact := 0, 0, 0, 0;
    }

    /** A pacer initialised from a ratio; while active, the ticks gone by since the restart, with
        the phase as their fraction, are exactly `issued` periods. */
    ghost predicate Rational()
      reads this
    {
      && phaseDen > 0 && phaseStep < phaseDen && period > 0
      && num == period * phaseDen + phaseStep
      && (active ==> exact >= start && next == exact % TWO64 && Exactly(exact - start, phase, issued, num, phaseDen))
    }

    method InitRatio(frequency: u64, ticks: u32, clock: u32) returns (ok: bool)
      modifies this
      ensures ok <==> frequency > 0 && ticks > 0 && clock > 0 && 0 < frequency * ticks / clock < TWO64
      ensures ok ==> Rational() && num == frequency * ticks && phaseDen == clock
      ensures !active
    {
      active := false;
      var fits, p, step := PeriodOf(frequency, ticks, clock);
      ok := fits && p != 0;
      if fits {
        period, phaseStep, phaseDen := p, step, clock;
        phase, next := 0, 0;
        num := frequency * ticks;
      }
    }

    /** The n-th deadline after a restart is start + floor(n * num / den) modulo 2^64, positions
        strictly increase, and no deadline is more than a period behind `now`. */
    method Deadline(now: u64) returns (deadline: u64)
      requires Rational()
      modifies this
      ensures Rational() && active
      ensures num == old(num) && period == old(period) && phaseDen == old(phaseDen)
      ensures var restart := !old(active) || (now > old(next) && now - old(next) > period);
              && start == (if restart then now else old(start))
              && issued == (if restart then 1 else old(issued) + 1)
      ensures deadline == (start + Floor(issued - 1, num, phaseDen)) % TWO64
      ensures exact == start + Floor(issued, num, phaseDen)
      ensures Floor(issued, num, phaseDen) >= Floor(issued - 1, num, phaseDen) + period
      ensures now <= deadline || now - deadline <= period
    {
      if !active || (now > next && now - next > period) {
        next := now;
        phase := 0;
        active := true;
        start, issued, exact := now, 0, now;
        ExactlyAtZero(num, phaseDen);
      }
      deadline := next;
      Issue();
    }

    /** The second half of frame_pacer_deadline: move `next` one period on. */
    method Issue()
      requires Rational() && active
      modifies this`next, this`phase, this`issued, this`exact
      ensures Rational()
      ensures issued == old(issued) + 1
      ensures old(exact) == start + Floor(old(issued), num, phaseDen)
      ensures exact == start + Floor(issued, num, phaseDen) && exact >= old(exact) + period
    {
      ghost var carry := if phase + phaseStep >= phaseDen then 1 else 0;
      ghost var exact' := exact + period + carry;
      ExactlyIsFloor(exact - start, phase, issued, num, phaseDen);
      Advance(exact - start, phase, issued, period, phaseStep, num, phaseDen);
      ExactlyIsFloor(exact' - start, if carry == 1 then phase + phaseStep - phaseDen else phase + phaseStep,
                     issued + 1, num, phaseDen);
      WrapNext(exact, period);
      WrapNext(exact + period, 1);
      next := (next + period) % TWO64;
      phase := phase + phaseStep;
      if phase >= phaseDen {
        next := (next + 1) % TWO64;
        phase := phase - phaseDen;
      }
      exact, issued := exact', issued + 1;
    }
  }
}
