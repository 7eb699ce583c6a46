/** The tick arithmetic of model_step, in exact reals (dse/network/model.c). */
module Clock {
  import opened Arithmetic
  import opened Bytes
  import opened Fnv
  import opened Model
  import opened Pipeline
  import opened Runs

  lemma Product(d: real, c: real)
    requires c > 0.0
    ensures d > 0.0 <==> d * c > 0.0
    ensures d == 0.0 <==> d * c == 0.0
  {
  }

  lemma Scale(f: real, g: real, c: real)
    requires c > 0.0
    ensures f < g <==> f * c < g * c
    ensures f == g <==> f * c == g * c
  {
    Product(g - f, c);
    assert (g - f) * c == g * c - f * c;
  }

  lemma Quotient(a: real, c: real)
    requires c > 0.0
    ensures a / c * c == a
  {
  }

  lemma Whole(r: nat, k: nat)
    ensures 101.0 * r as real < 100.0 * k as real <==> 101 * r < 100 * k
  {
  }

  /** A fraction f = r / c of a millisecond, stretched by one percent. */
  lemma Stretched(f: real, r: real, c: real)
    requires 0.0 < r <= c && f * c == r
    ensures 0.0 < f * 1.01 < 2.0
    ensures f * 1.01 < 1.0 <==> 101.0 * r < 100.0 * c
  {
    Product(f, c);
    Product(1.0 - f, c);
    assert (1.0 - f) * c == c - r;
    Product(100.0 - 101.0 * f, c);
    assert (100.0 - 101.0 * f) * c == 100.0 * c - 101.0 * r;
  }

  lemma FloorOf(g: real)
    requires 0.0 < g < 2.0
    ensures g.Floor == if g < 1.0 then 0 else 1
  {
  }

  /** r of k steps to a millisecond have passed since the last tick: the stretch of one percent brings the tick
    * forward exactly if k > 100 and r is close enough to k. */
  lemma StretchedFraction(r: nat, k: nat)
    requires 0 < r <= k
    ensures ((r as real) / (k as real) * 1.01).Floor == if 101 * r < 100 * k then 0 else 1
  {
    var f := (r as real) / (k as real);
    Quotient(r as real, k as real);
    Stretched(f, r as real, k as real);
    Whole(r, k);
    FloorOf(f * 1.01);
  }

  /** The time of step j, for k steps to a millisecond. */
  function FractionTime(j: nat, k: nat): real
    requires k > 0
  {
    0.001 * ((j as real) / (k as real))
  }

  /** Step q * k + r lies r / k after q milliseconds. */
  lemma FractionSplit(q: nat, r: nat, k: nat)
    requires k > 0
    ensures ((q * k + r) as real) / (k as real) == q as real + (r as real) / (k as real)
  {
    var f, h, c := ((q * k + r) as real) / (k as real), (r as real) / (k as real), k as real;
    Quotient((q * k + r) as real, c);
    Quotient(r as real, c);
    assert (q * k + r) as real == q as real * c + r as real;
    assert (q as real + h) * c == q as real * c + h * c;
    Scale(f, q as real + h, c);
  }

  /** The ticks after a fraction h of a millisecond since q milliseconds. */
  lemma TicksAfter(f: real, q: real, h: real)
    requires f == q + h
    ensures TicksIn(0.001 * f, 0.001 * q) == if (h * 1.01).Floor > 0 then (h * 1.01).Floor else 0
  {
    assert (0.001 * f - 0.001 * q) / 0.001 == h;
  }

  lemma TicksInFraction(q: nat, r: nat, k: nat)
    requires k > 0 && 0 < r <= k
    ensures TicksIn(FractionTime(q * k + r, k), 0.001 * q as real) == if 101 * r < 100 * k then 0 else 1
  {
    FractionSplit(q, r, k);
    StretchedFraction(r, k);
    TicksAfter(((q * k + r) as real) / (k as real), q as real, (r as real) / (k as real));
  }

  lemma NextQuotient(j: nat, k: nat) returns (q: nat, r: nat)
    requires j >= 1 && k >= 1
    ensures q == (j - 1) / k && j == q * k + r && 0 < r <= k
    ensures j / k == if r == k then q + 1 else q
  {
    q, r := (j - 1) / k, (j - 1) % k + 1;
    assert j - 1 == q * k + (r - 1);
    if r == k {
      assert j == (q + 1) * k;
      ModOf(q + 1, 0, k);
    } else {
      ModOf(q, r, k);
    }
  }

  /** One step, when the last tick was at the last whole millisecond. */
  lemma FractionStep(j: nat, k: nat)
    requires j >= 1 && 1 <= k <= 100
    ensures var ticks := TicksIn(FractionTime(j, k), 0.001 * ((j - 1) / k) as real);
      ticks == j / k - (j - 1) / k && (ticks > 0 ==> FractionTime(j, k) == 0.001 * (j / k) as real)
  {
    var q, r := NextQuotient(j, k);
    TicksInFraction(q, r, k);
    if r == k {
      assert j == (q + 1) * k;
      WholeQuotient(q + 1, k);
    }
  }

  lemma WholeQuotient(n: nat, k: nat)
    requires k > 0
    ensures ((n * k) as real) / (k as real) == n as real
  {
    assert (n * k) as real == n as real * k as real;
    Quotient((n * k) as real, k as real);
    Scale(((n * k) as real) / (k as real), n as real, k as real);
  }

  ghost predicate Every(xs: seq<Input>, k: nat)
    requires k > 0
  {
    forall i :: 0 <= i < |xs| ==> xs[i].time == FractionTime(i, k)
  }

  /** With k steps to a millisecond, k at most 100, the ticks executed up to each step number exactly one plus
    * the whole milliseconds elapsed. */
  lemma {:induction false} FractionSteps(xs: seq<Input>, k: nat)
    requires 1 <= k <= 100 && xs != [] && Every(xs, k)
    ensures TotalTicks(xs) == 1 + (|xs| - 1) / k
    ensures LastTick(xs) == 0.001 * ((|xs| - 1) / k) as real && InitDone(xs)
    decreases |xs|
  {
    assert xs[0].time == 0.0;
    var before := xs[..|xs| - 1];
    var j := |xs| - 1;
    if j == 0 {
      assert TotalTicks(before) == 0 && LastTick(before) == 0.0;
    } else {
      FractionSteps(before, k);
      FractionStep(j, k);
    }
  }

  /** The milliseconds at step i, for steps of n milliseconds. */
  function Elapsed(i: nat, n: nat): nat {
    i * n
  }

  ghost predicate EveryWhole(xs: seq<Input>, n: nat) {
    forall i :: 0 <= i < |xs| ==> xs[i].time == 0.001 * Elapsed(i, n) as real
  }

  lemma WholePrefix(xs: seq<Input>, n: nat)
    requires xs != [] && EveryWhole(xs, n)
    ensures EveryWhole(xs[..|xs| - 1], n) && xs[0].time == 0.0
  {
    assert Elapsed(0, n) == 0;
  }

  /** With steps of n milliseconds, n at most 99, each step but the first executes n ticks. */
  lemma {:induction false} WholeSteps(xs: seq<Input>, n: nat)
    requires 1 <= n <= 99 && xs != [] && EveryWhole(xs, n)
    ensures TotalTicks(xs) == 1 + Elapsed(|xs| - 1, n)
    ensures LastTick(xs) == 0.001 * Elapsed(|xs| - 1, n) as real && InitDone(xs)
    decreases |xs|
  {
    WholePrefix(xs, n);
    var before := xs[..|xs| - 1];
    var j := |xs| - 1;
    if j == 0 {
      assert TotalTicks(before) == 0 && LastTick(before) == 0.0;
    } else {
      WholeSteps(before, n);
      NextElapsed(j, n);
      WholeStepIff(Elapsed(j - 1, n), n);
    }
  }

  lemma NextElapsed(j: nat, n: nat)
    requires j >= 1
    ensures Elapsed(j, n) == Elapsed(j - 1, n) + n
  {
  }

  /** One step of n milliseconds executes n ticks exactly up to n = 99. */
  lemma WholeStepIff(before: nat, n: nat)
    requires n >= 1
    ensures TicksIn(0.001 * (before + n) as real, 0.001 * before as real) == n <==> n <= 99
  {
    assert (before + n) as real == before as real + n as real;
    TicksAfter((before + n) as real, before as real, n as real);
  }

  /** Whatever the step times are, the ticks never exceed one plus 1.01 times the milliseconds up to the last tick. */
  lemma {:induction false} TicksBound(xs: seq<Input>)
    ensures LastTick(xs) >= 0.0
    ensures TotalTicks(xs) as real <= (if InitDone(xs) then 1.0 else 0.0) + 1.01 * (LastTick(xs) / 0.001)
    decreases |xs|
  {
    if xs != [] {
      TicksBound(xs[..|xs| - 1]);
      InitDoneStep(xs);
    }
  }

  /** The last tick is the initial 0 or the time of some step; for nondecreasing times, at most that of the last. */
  lemma {:induction false} LastTickBound(xs: seq<Input>, t: real)
    requires t >= 0.0 && forall i :: 0 <= i < |xs| ==> xs[i].time <= t
    ensures LastTick(xs) <= t
    ensures TotalTicks(xs) as real <= 1.0 + 1.01 * (t / 0.001)
    decreases |xs|
  {
    TicksBound(xs);
    if xs != [] {
      LastTickBound(xs[..|xs| - 1], t);
    }
  }

  // ---- Ticks and periods together ----

  /** Nothing keeps message m from being sent in this step, but its period. */
  ghost predicate Free(mc: ModelCfg, ms: ModelState, x: Input, m: nat)
    requires Ready(mc, ms, x) && m < |mc.net.defs|
  {
    && !NetOff(mc, x)
    && (mc.net.defs[m].pack.Some? ==> Hash(Marshalled(mc, ms, x).msgs[m].buffer) != 0)
  }

  lemma WrittenBetween(mc: ModelCfg, scalars: seq<real>, xs: seq<Input>, x: Input, m: nat, from: nat, to: nat)
    requires RunReady(mc, scalars, xs) && |x.scalars| == |mc.srMap|
    requires m < |mc.net.defs| && mc.net.defs[m].cycle > 0
    requires TotalTicks(xs) == from && TotalTicks(xs + [x]) == to <= WORD32
    requires Free(mc, After(mc, scalars, xs), x, m)
    ensures Sent(mc, After(mc, scalars, xs), x, m) <==> MultipleWithin(mc.net.defs[m].cycle, from, to)
  {
    Periodicity(mc, scalars, xs, x, m);
    DueInFirstTicks(mc.net.defs[m].cycle, from, to);
  }

  lemma WholeTotals(xs: seq<Input>, x: Input, n: nat)
    requires 1 <= n <= 99 && xs != [] && EveryWhole(xs + [x], n)
    ensures TotalTicks(xs) == 1 + Elapsed(|xs| - 1, n) && TotalTicks(xs + [x]) == 1 + Elapsed(|xs|, n)
  {
    WholePrefix(xs + [x], n);
    assert (xs + [x])[..|xs|] == xs;
    WholeSteps(xs, n);
    WholeSteps(xs + [x], n);
  }

  /** Stepped every n ms: a cyclic message is written in exactly those steps in whose n milliseconds a multiple of
    * its period lies. */
  lemma WrittenAtMultiples(mc: ModelCfg, scalars: seq<real>, xs: seq<Input>, x: Input, m: nat, n: nat)
    requires 1 <= n <= 99 && xs != [] && EveryWhole(xs + [x], n) && Elapsed(|xs|, n) < WORD32
    requires RunReady(mc, scalars, xs) && |x.scalars| == |mc.srMap|
    requires m < |mc.net.defs| && mc.net.defs[m].cycle > 0
    requires Free(mc, After(mc, scalars, xs), x, m)
    ensures Sent(mc, After(mc, scalars, xs), x, m) <==>
      MultipleWithin(mc.net.defs[m].cycle, Elapsed(|xs| - 1, n) + 1, Elapsed(|xs|, n) + 1)
  {
    WholeTotals(xs, x, n);
    WrittenBetween(mc, scalars, xs, x, m, 1 + Elapsed(|xs| - 1, n), 1 + Elapsed(|xs|, n));
  }

  lemma FractionTotals(xs: seq<Input>, x: Input, k: nat)
    requires 1 <= k <= 100 && xs != [] && Every(xs + [x], k)
    ensures TotalTicks(xs) == 1 + (|xs| - 1) / k && TotalTicks(xs + [x]) == 1 + |xs| / k
  {
    forall i | 0 <= i < |xs|
      ensures xs[i].time == FractionTime(i, k)
    {
      assert xs[i] == (xs + [x])[i];
    }
    FractionSteps(xs, k);
    FractionSteps(xs + [x], k);
  }

  /** A step of 1/k ms reaches a multiple of the period, or passes none. */
  lemma MultipleReached(c: nat, j: nat, k: nat)
    requires c > 0 && j >= 1 && k >= 1
    ensures MultipleWithin(c, 1 + (j - 1) / k, 1 + j / k) <==> j % k == 0 && j / k % c == 0
  {
    var q, r := NextQuotient(j, k);
    if r == k {
      assert j == (q + 1) * k;
      ModOf(q + 1, 0, k);
    } else {
      ModOf(q, r, k);
    }
  }

  /** Stepped k times a millisecond: it is written in exactly those steps that reach a multiple of its period. */
  lemma WrittenAtMilliseconds(mc: ModelCfg, scalars: seq<real>, xs: seq<Input>, x: Input, m: nat, k: nat)
    requires RunReady(mc, scalars, xs) && |x.scalars| == |mc.srMap|
    requires m < |mc.net.defs| && mc.net.defs[m].cycle > 0
    requires 1 <= k <= 100 && xs != [] && Every(xs + [x], k) && |xs| / k < WORD32
    requires Free(mc, After(mc, scalars, xs), x, m)
    ensures Sent(mc, After(mc, scalars, xs), x, m) <==>
      |xs| % k == 0 && |xs| / k % mc.net.defs[m].cycle == 0
  {
    FractionTotals(xs, x, k);
    WrittenBetween(mc, scalars, xs, x, m, TotalTicks(xs), TotalTicks(xs + [x]));
    MultipleReached(mc.net.defs[m].cycle, |xs|, k);
  }
}
