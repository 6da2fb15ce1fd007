/** The arithmetic of `init_PIT`: the divisor that makes the interval timer run near a requested
    frequency, the frequency it then runs at, and the interval between its interrupts as a 32.32
    fixed-point number of milliseconds. */
module Pit {
  import opened Common
  import opened Arithmetic

  /** Three times the timer's clock in Hz. */
  const CLOCK3: nat := 3579545
  /** What the routine compares remainders with: half of CLOCK3, not half of the divisor. */
  const HALF: nat := 1789772
  /** 3000 * 2^42 / 3579545, rounded up. */
  const PERIOD_FACTOR: nat := 0xDBB3A062

  /** The two divisions, first by `d` and then by 3, with their conditional increments. */
  function DivideClock(d: nat): nat
    requires d > 0
  {
    var q := CLOCK3 / d + if CLOCK3 % d < HALF then 0 else 1;
    q / 3 + if q % 3 < 1 then 0 else 1
  }

  /** Reload value for a requested frequency. */
  function Reload(f: nat): (r: nat)
    ensures r > 0
  {
    if f <= 18 then 0x10000
    else if f >= 1193181 then 1
    else
      ReloadPositive(f);
      DivideClock(f)
  }

  /** Interval between interrupts, in units of 2^-32 ms. */
  function Period(r: nat): nat {
    r * PERIOD_FACTOR / 1024
  }

  // ---------------------------------------------------------------- bounds

  /** For every divisor up to HALF the first increment never happens, so the quotient is always
      rounded up: `DivideClock(d)` is within 2/3 of the exact CLOCK3 / (3 d), from -1/3 on. */
  lemma DivideClockBounds(d: nat)
    requires 0 < d <= HALF
    ensures CLOCK3 % d < HALF
    ensures CLOCK3 - d < 3 * DivideClock(d) * d <= CLOCK3 + 2 * d
  {
    var q, m, t := CLOCK3 / d, CLOCK3 % d, DivideClock(d);
    assert CLOCK3 == q * d + m && m < d;
    assert q <= 3 * t <= q + 2;
    MulMonotone(q, 3 * t, d);
    MulMonotone(3 * t, q + 2, d);
    assert (q + 2) * d == q * d + 2 * d;
  }

  lemma ReloadPositive(f: nat)
    requires 0 < f < 1193181
    ensures DivideClock(f) > 0
  {
    var q, m := CLOCK3 / f, CLOCK3 % f;
    assert CLOCK3 == q * f + m && m < f;
    assert q * f > 0;
  }

  /** Within the supported range the reload value fits the timer's 16 bits, is within 2/3 of the
      exact divisor, and does not grow with the frequency. */
  lemma ReloadBounds(f: nat)
    requires 19 <= f <= 1193180
    ensures 1 <= Reload(f) <= 62799
    ensures CLOCK3 - f < 3 * Reload(f) * f <= CLOCK3 + 2 * f
  {
    DivideClockBounds(f);
    var q, m, r := CLOCK3 / f, CLOCK3 % f, Reload(f);
    assert CLOCK3 == q * f + m;
    MulMonotone(19, f, q);
    assert q * f >= q * 19;
    assert q <= 188397;
  }

  lemma ReloadAntitone(f: nat, g: nat)
    requires f <= g < U32
    ensures Reload(g) <= Reload(f)
  {
    if 19 <= f && g <= 1193180 {
      DivideClockBounds(f);
      DivideClockBounds(g);
      QuotientAntitone(f, g);
    } else if 19 <= g <= 1193180 {
      ReloadBounds(g);
    } else if 19 <= f <= 1193180 {
      ReloadBounds(f);
    }
  }

  lemma QuotientAntitone(f: nat, g: nat)
    requires 0 < f <= g
    ensures CLOCK3 / g <= CLOCK3 / f
  {
    var p, q := CLOCK3 / f, CLOCK3 / g;
    assert CLOCK3 == p * f + CLOCK3 % f && CLOCK3 == q * g + CLOCK3 % g;
    MulMonotone(f, g, q);
    assert q * f <= q * g && (p + 1) * f == p * f + f;
    assert q * f < (p + 1) * f;
    if p + 1 <= q { MulMonotone(p + 1, q, f); }
  }

  /** Outside the supported range the slowest and the fastest rate are used: 65536, of which the
      16-bit register keeps 0, and 1. */
  lemma ReloadOutOfRange(f: nat)
    ensures f <= 18 ==> Reload(f) == 65536
    ensures f >= 1193181 ==> Reload(f) == 1
  {
  }

  function Abs(x: int): nat { if x < 0 then -x else x }

  /** The reload value is a nearest one, with no other giving a frequency product closer to the
      clock, exactly when the remainder of the clock modulo 3 f is below f or at least 3 f / 2. */
  lemma NearestReloadExactly(f: nat)
    requires 19 <= f <= 1193180
    ensures (forall s: nat :: Distance(Reload(f), f) <= Distance(s, f))
            <==> (CLOCK3 % (3 * f) < f || 2 * (CLOCK3 % (3 * f)) >= 3 * f)
  {
    var m := CLOCK3 % (3 * f);
    ReloadDistance(f, m);
    forall s: nat ensures Distance(s, f) >= if 2 * m <= 3 * f then m else 3 * f - m { SmallestDistance(f, m, s); }
    DistanceReached(f, m);
  }

  lemma ReloadDistance(f: nat, m: nat)
    requires 19 <= f <= 1193180 && m == CLOCK3 % (3 * f)
    ensures m < 3 * f && Distance(Reload(f), f) == if m < f then m else 3 * f - m
  {
    var w, c := 3 * f, CLOCK3 / (3 * f);
    assert CLOCK3 == c * w + m;
    ReloadFromThirds(f, c, m);
    Product(Reload(f), f);
    assert (c + 1) * w == c * w + w;
  }

  lemma SmallestDistance(f: nat, m: nat, s: nat)
    requires f > 0 && m == CLOCK3 % (3 * f)
    ensures Distance(s, f) >= if 2 * m <= 3 * f then m else 3 * f - m
  {
    var w, c := 3 * f, CLOCK3 / (3 * f);
    assert CLOCK3 == c * w + m;
    Product(s, f);
    NearestMultiple(w, c, m, s);
  }

  lemma DistanceReached(f: nat, m: nat)
    requires f > 0 && m == CLOCK3 % (3 * f)
    ensures exists s: nat :: Distance(s, f) == m
  {
    var w, c := 3 * f, CLOCK3 / (3 * f);
    assert CLOCK3 == c * w + m;
    Product(c, f);
    assert Distance(c, f) == m;
  }

  /** How far a reload value's product with the frequency is from the clock. */
  function Distance(s: nat, f: nat): nat {
    Abs(3 * s * f - CLOCK3)
  }

  lemma NearestMultiple(w: nat, c: nat, m: nat, s: nat)
    requires m < w
    ensures Abs(s * w - (c * w + m)) >= if m <= w - m then m else w - m
  {
    if s <= c {
      MulMonotone(s, c, w);
    } else {
      MulMonotone(c + 1, s, w);
      assert (c + 1) * w == c * w + w;
    }
  }

  lemma Product(s: nat, f: nat)
    ensures 3 * s * f == s * (3 * f)
  {
  }

  lemma ReloadFromThirds(f: nat, c: nat, m: nat)
    requires 19 <= f <= 1193180 && CLOCK3 == c * (3 * f) + m && m < 3 * f
    ensures Reload(f) == if m < f then c else c + 1
  {
    DivideClockBounds(f);
    var e := if m < f then 0 else if m < 2 * f then 1 else 2;
    assert CLOCK3 == (3 * c + e) * f + (m - e * f) by {
      assert (3 * c + e) * f == c * (3 * f) + e * f;
    }
    DivUnique(CLOCK3, f, 3 * c + e, m - e * f);
  }

  /** At 23 Hz the routine rounds away from the nearest divisor: 51877 is closer than its 51878. */
  lemma NotNearestAt23()
    ensures Reload(23) == 51878 && Distance(51877, 23) < Distance(Reload(23), 23)
  {
    assert CLOCK3 / 23 == 155632 && CLOCK3 % 23 == 9;
  }

  /** The frequency the timer is then said to run at is as close to the exact one, and both
      roundings together keep it near the requested one. */
  lemma FrequencyBounds(f: nat)
    requires 19 <= f <= 1193180
    ensures var r := Reload(f);
            var g := DivideClock(r);
            && CLOCK3 - r < 3 * g * r <= CLOCK3 + 2 * r
            && 3 * f * r - r - 2 * f < 3 * g * r < 3 * f * r + 2 * r + f
  {
    var r := Reload(f);
    ReloadBounds(f);
    DivideClockBounds(r);
    assert 3 * r * f == 3 * f * r;
  }

  /** The stored interval differs from r * 3000 / 3579545 ms by less than 4 units of 2^-32 ms. */
  lemma PeriodBounds(r: nat)
    requires 1 <= r <= 0x10000
    ensures -4 * CLOCK3 < Period(r) * CLOCK3 - r * 3000 * U32 < 4 * CLOCK3
    ensures 1024 * Period(r) <= r * 0xDBB3_A062 < 1024 * (Period(r) + 1)
  {
    var p := Period(r);
    assert 1024 * p <= r * PERIOD_FACTOR < 1024 * p + 1024;
  }

  // --------------------------------------------------------------- routine

  class Timer {
    /** PIT_reload_value, 16 bits. */
    var reloadValue: nat
    /** IRQ0_frequency */
    var frequency: nat
    /** IRQ0_ms */
    var wholeMs: nat
    /** IRQ0_fraction_ms */
    var fractionMs: nat

    constructor ()
    {
      reloadValue, frequency, wholeMs, fractionMs := 0, 0, 0, 0;
    }

    /** `init_PIT`, register by register; programming the timer itself is left out. */
    method Init(f: nat)
      requires f < U32
      modifies this
      ensures reloadValue == Reload(f) % 0x10000
      ensures frequency == DivideClock(Reload(f))
      ensures wholeMs * U32 + fractionMs == Period(Reload(f)) && fractionMs < U32
    {
      var eax, ebx, edx := 0x10000, f, 0;
      if ebx > 18 {
        eax := 1;
        if ebx < 1193181 {
          ReloadPositive(f);
          eax, edx := DivideBy(ebx);
        }
      }
      var reload := eax;
      assert reload == Reload(f);
      reloadValue := eax % 0x10000;
      ebx := eax;
      eax, edx := DivideBy(ebx);
      frequency := eax;
      ebx := reload;
      var product := PERIOD_FACTOR * ebx;
      edx, eax := product / U32, product % U32;
      eax := (edx * U32 + eax) / 1024 % U32;
      edx := edx / 1024;
      ShiftPair(product);
      wholeMs := edx;
      fractionMs := eax;
    }

    /** The division sequence that occurs twice in the routine. */
    method DivideBy(divisor: nat) returns (eax: nat, edx: nat)
      requires divisor > 0
      ensures eax == DivideClock(divisor)
    {
      eax, edx := CLOCK3 / divisor, CLOCK3 % divisor;
      if edx >= HALF { eax := eax + 1; }
      eax, edx := eax / 3, eax % 3;
      if edx >= 1 { eax := eax + 1; }
    }
  }

  /** Shifting a register pair right by ten bits divides the number it holds. */
  lemma ShiftPair(n: nat)
    ensures n / U32 / 1024 * U32 + n / 1024 % U32 == n / 1024
  {
    assert n / U32 / 1024 == n / 1024 / U32;
  }
}
