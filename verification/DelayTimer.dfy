/** Busy-wait delays (drivers/delay_timer/delay_timer.c and generic_delay_timer.c) on a counter of which only 32
    bits are read. */
module DelayTimer {
  import opened Bits

  const MHZ_TICKS_PER_SEC: nat := 1_000_000
  /** Ticks that may pass between two polls. */
  const SLACK: nat := 1000

  // ----- Configuration -----

  /** generic_delay_timer_init: divide multiplier and divider by ten as long as both allow it. */
  method GenericInit(freq: nat) returns (mult: nat, div: nat)
    ensures 0 < mult <= MHZ_TICKS_PER_SEC && div <= freq && (freq > 0 ==> div > 0)
    ensures mult * freq == MHZ_TICKS_PER_SEC * div && (mult % 10 != 0 || div % 10 != 0)
  {
    mult, div := MHZ_TICKS_PER_SEC, freq;
    while mult % 10 == 0 && div % 10 == 0
      invariant 0 < mult <= MHZ_TICKS_PER_SEC && div <= freq && (freq > 0 ==> div > 0)
      invariant mult * freq == MHZ_TICKS_PER_SEC * div
      decreases mult
    {
      RatioKept(mult, freq, div);
      mult, div := mult / 10, div / 10;
    }
  }

  lemma RatioKept(mult: nat, freq: nat, div: nat)
    requires mult % 10 == 0 && div % 10 == 0 && mult * freq == MHZ_TICKS_PER_SEC * div
    ensures (mult / 10) * freq == MHZ_TICKS_PER_SEC * (div / 10)
  {
    var m, d := mult / 10, div / 10;
    assert mult == 10 * m && div == 10 * d;
    assert (10 * m) * freq == 10 * (m * freq);
  }

  // ----- The counter -----

  /** get_timer_value: the complement of the 64-bit count, cut to 32 bits, which makes it count down. */
  function TimerValue(count: nat): nat { U32 - 1 - count % U32 }

  /** The unsigned difference of two readings. */
  function Delta(start: nat, value: nat): nat
    requires start < U32 && value < U32
  {
    if start >= value then start - value else U32 + start - value
  }

  /** The difference of two readings is the number of ticks in between, modulo 2^32. */
  lemma DeltaIsElapsed(t0: nat, t: nat)
    requires t0 <= t
    ensures Delta(TimerValue(t0), TimerValue(t)) == (t - t0) % U32
  {
    var q0, r0, q, r := t0 / U32, t0 % U32, t / U32, t % U32;
    assert t0 == U32 * q0 + r0 && t == U32 * q + r;
    if r >= r0 {
      ModUnique(t - t0, U32, q - q0, r - r0);
    } else {
      ModUnique(t - t0, U32, q - q0 - 1, U32 + r - r0);
    }
  }

  // ----- The delay -----

  /** The ticks to wait for, rounded up, and one more. */
  function TotalDelta(usec: nat, mult: nat, div: nat): nat
    requires mult > 0
  {
    (usec * div + mult - 1) / mult + 1
  }

  /** The 64-bit computation of it cannot overflow, and the assertion on `usec` always holds. */
  lemma NoOverflow(usec: nat, mult: nat, div: nat)
    requires usec < U32 && 0 < mult < U32 && 0 < div < U32
    ensures usec * div + mult - 1 < U64 && usec < (U64 - 1) / div
  {
    MulMono(usec, U32 - 1, div);
    MulMono(usec + 1, U32, div);
    DivLower(U64 - 1, div, usec + 1);
  }

  lemma DivLower(x: nat, d: nat, k: nat)
    requires d > 0 && k * d <= x
    ensures k <= x / d
  {
    assert x == d * (x / d) + x % d;
    MulStep(d, x / d, k);
  }

  ghost predicate Monotone(counts: seq<nat>) {
    forall i, j :: 0 <= i <= j < |counts| ==> counts[i] <= counts[j]
  }

  /** Poll `i` makes the loop end. */
  predicate EndsAt(counts: seq<nat>, i: nat, total: nat)
    requires 0 < i < |counts|
  {
    Delta(TimerValue(counts[0]), TimerValue(counts[i])) >= total
  }

  /** udelay.  `counts` are the values of the 64-bit counter at the start and at each poll.  However often 32 bits
      wrap in between, the call returns only after the ticks to wait for have passed, at the first poll that
      shows it. */
  method Udelay(usec: nat, mult: nat, div: nat, counts: seq<nat>) returns (n: nat)
    requires mult > 0 && Monotone(counts)
    requires exists i :: 0 < i < |counts| && EndsAt(counts, i, TotalDelta(usec, mult, div))
    ensures 0 < n < |counts| && EndsAt(counts, n, TotalDelta(usec, mult, div))
    ensures forall i :: 0 < i < n ==> !EndsAt(counts, i, TotalDelta(usec, mult, div))
    ensures counts[n] - counts[0] >= TotalDelta(usec, mult, div)
  {
    ghost var last :| 0 < last < |counts| && EndsAt(counts, last, TotalDelta(usec, mult, div));
    var start := TimerValue(counts[0]);
    var total := TotalDelta(usec, mult, div);
    n := 1;
    var delta := Delta(start, TimerValue(counts[n]));
    while delta < total
      invariant 0 < n <= last && delta == Delta(start, TimerValue(counts[n]))
      invariant forall i :: 0 < i < n ==> !EndsAt(counts, i, total)
      decreases last - n
    {
      n := n + 1;
      delta := Delta(start, TimerValue(counts[n]));
    }
    DeltaIsElapsed(counts[0], counts[n]);
    ModAtMost(counts[n] - counts[0], U32);
  }

  lemma ModAtMost(x: nat, m: nat)
    requires m > 0
    ensures x % m <= x
  {
    if x < m { DivSmall(x, m); }
  }

  /** With no more than 1000 ticks between polls, and a total that leaves that much room below 2^32 as the source
      asserts, the loop ends at the first poll after the time is up: none is missed to a wrap. */
  lemma EndsInTime(counts: seq<nat>, total: nat, n: nat)
    requires Monotone(counts) && 0 < total < U32 - 1 - SLACK && 0 < n < |counts|
    requires forall i :: 0 < i < |counts| ==> counts[i] - counts[i - 1] <= SLACK
    requires counts[n] - counts[0] >= total && counts[n - 1] - counts[0] < total
    ensures EndsAt(counts, n, total) && forall i :: 0 < i < n ==> !EndsAt(counts, i, total)
    ensures counts[n] - counts[0] < total + SLACK
  {
    forall i | 0 < i <= n
      ensures Delta(TimerValue(counts[0]), TimerValue(counts[i])) == counts[i] - counts[0]
    {
      DeltaIsElapsed(counts[0], counts[i]);
      DivSmall(counts[i] - counts[0], U32);
    }
  }

  /** Waiting at least as long as asked, in microseconds: the ticks that passed, the first one not counted since it
      may have been almost over, last at least `usec` microseconds at the frequency of the counter. */
  lemma NeverShorter(usec: nat, mult: nat, div: nat, freq: nat, elapsed: nat)
    requires mult > 0 && div > 0 && mult * freq == MHZ_TICKS_PER_SEC * div
    requires elapsed >= TotalDelta(usec, mult, div)
    ensures (elapsed - 1) * MHZ_TICKS_PER_SEC >= usec * freq
  {
    var e: nat := elapsed - 1;
    TicksCover(usec * div, mult, e);
    MulMono(usec * div, e * mult, freq);
    Reorder(e, mult, freq);
    Reorder(e, MHZ_TICKS_PER_SEC, div);
    Swap(usec, div, freq);
    Cancel(usec * freq, e * MHZ_TICKS_PER_SEC, div);
  }

  /** Nor is more asked for than that, the part of a tick at either end apart: two ticks less would not last. */
  lemma NotMuchLonger(usec: nat, mult: nat, div: nat, freq: nat)
    requires usec > 0 && mult > 0 && div > 0 && freq > 0 && mult * freq == MHZ_TICKS_PER_SEC * div
    ensures TotalDelta(usec, mult, div) >= 2
    ensures (TotalDelta(usec, mult, div) - 2) * MHZ_TICKS_PER_SEC < usec * freq
  {
    PositiveProduct(usec, div);
    TicksNeeded(usec * div, mult);
    var e: nat := TotalDelta(usec, mult, div) - 2;
    MulStrict(e * mult, usec * div, freq);
    Reorder(e, mult, freq);
    Reorder(e, MHZ_TICKS_PER_SEC, div);
    Swap(usec, div, freq);
    CancelStrict(e * MHZ_TICKS_PER_SEC, usec * freq, div);
  }

  lemma PositiveProduct(a: nat, b: nat)
    requires a > 0 && b > 0
    ensures a * b > 0
  {
  }

  lemma TicksNeeded(x: nat, mult: nat)
    requires x > 0 && mult > 0
    ensures var ticks := (x + mult - 1) / mult;
            ticks >= 1 && (ticks - 1) * mult < x
  {
    DivDrop(x + mult - 1, mult);
    assert x - 1 == mult * ((x - 1) / mult) + (x - 1) % mult;
  }

  lemma MulStrict(a: nat, b: nat, c: nat)
    requires a < b && c > 0
    ensures a * c < b * c
  {
  }

  lemma CancelStrict(a: nat, b: nat, d: nat)
    requires a * d < b * d
    ensures a < b
  {
    if b <= a { MulMono(b, a, d); }
  }

  lemma TicksCover(x: nat, mult: nat, e: nat)
    requires mult > 0 && e >= (x + mult - 1) / mult
    ensures e * mult >= x
  {
    CeilTimes(x, mult);
    MulMono((x + mult - 1) / mult, e, mult);
  }

  lemma Reorder(a: nat, b: nat, c: nat)
    ensures (a * b) * c == a * (b * c)
  {
  }

  lemma Swap(a: nat, b: nat, c: nat)
    ensures (a * b) * c == (a * c) * b
  {
  }

  lemma CeilTimes(x: nat, m: nat)
    requires m > 0
    ensures (x + m - 1) / m * m >= x
  {
    assert x + m - 1 == m * ((x + m - 1) / m) + (x + m - 1) % m;
  }

  lemma MulMono(a: nat, b: nat, c: nat)
    requires a <= b
    ensures a * c <= b * c
  {
  }

  lemma Cancel(a: nat, b: nat, d: nat)
    requires d > 0 && b * d >= a * d
    ensures b >= a
  {
    if b < a { MulStep(d, b, a); }
  }
}
