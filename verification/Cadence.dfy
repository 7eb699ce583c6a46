/** The ticks of model_step for steps of any constant length, in exact reals (dse/network/model.c). */
module Cadence {
  import opened Arithmetic
  import opened Model
  import opened Runs
  import opened Clock

  /** Step i, for steps of h milliseconds. */
  function Elapsed(i: nat, h: real): real {
    i as real * h
  }

  ghost predicate EveryStep(xs: seq<Input>, h: real) {
    forall i :: 0 <= i < |xs| ==> xs[i].time == 0.001 * Elapsed(i, h)
  }

  /** The ticks of c steps at once. */
  function Burst(c: nat, h: real): int {
    (Elapsed(c, h) * 1.01).Floor
  }

  /** c is the least number of steps that are long enough for a tick. */
  ghost predicate Least(c: nat, h: real) {
    h > 0.0 && c >= 1 && Elapsed(c, h) * 1.01 >= 1.0 && Elapsed(c - 1, h) * 1.01 < 1.0
  }

  lemma ElapsedSum(a: nat, b: nat, h: real)
    ensures Elapsed(a + b, h) == Elapsed(a, h) + Elapsed(b, h)
  {
  }

  lemma ElapsedGrows(a: nat, b: nat, h: real)
    requires a <= b && h > 0.0
    ensures Elapsed(a, h) <= Elapsed(b, h)
  {
    ElapsedSum(a, b - a, h);
    assert Elapsed(b - a, h) >= 0.0;
  }

  /** r steps after the last tick. */
  lemma TicksSince(p: nat, r: nat, c: nat, h: real)
    requires Least(c, h) && 0 < r <= c
    ensures TicksIn(0.001 * Elapsed(p + r, h), 0.001 * Elapsed(p, h)) == if r == c then Burst(c, h) else 0
    ensures Burst(c, h) >= 1
  {
    ElapsedSum(p, r, h);
    TicksAfter(Elapsed(p + r, h), Elapsed(p, h), Elapsed(r, h));
    if r < c {
      ElapsedGrows(r, c - 1, h);
      ElapsedGrows(0, r, h);
    }
  }

  /** The bursts up to step j, one every c steps ... */
  function Bursts(j: nat, c: nat): nat
    requires c > 0
  {
    j / c
  }

  /** ... and the step of the last one. */
  function LastBurst(j: nat, c: nat): nat
    requires c > 0
  {
    j / c * c
  }

  lemma NextBurst(j: nat, c: nat) returns (r: nat)
    requires j >= 1 && c > 0
    ensures 0 < r <= c && j == LastBurst(j - 1, c) + r
    ensures LastBurst(j, c) == if r == c then j else LastBurst(j - 1, c)
    ensures Bursts(j, c) == Bursts(j - 1, c) + if r == c then 1 else 0
  {
    var q, s := NextQuotient(j, c);
    r := s;
    assert (q + 1) * c == q * c + c;
  }

  lemma OneMore(n: nat, g: int)
    ensures (n + 1) * g == n * g + g
  {
  }

  /** Step j, when the last tick was at the last burst. */
  lemma BurstStep(j: nat, c: nat, h: real)
    requires Least(c, h) && j >= 1
    ensures var ticks := TicksIn(0.001 * Elapsed(j, h), 0.001 * Elapsed(LastBurst(j - 1, c), h));
      && Bursts(j, c) * Burst(c, h) == Bursts(j - 1, c) * Burst(c, h) + ticks
      && LastBurst(j, c) == if ticks > 0 then j else LastBurst(j - 1, c)
  {
    var r := NextBurst(j, c);
    TicksSince(LastBurst(j - 1, c), r, c, h);
    OneMore(Bursts(j - 1, c), Burst(c, h));
  }

  /** The total after step j. */
  function TicksBy(j: nat, c: nat, h: real): int
    requires c > 0
  {
    1 + Bursts(j, c) * Burst(c, h)
  }

  /** For steps of any constant length h, the ticks come in bursts of one size, every c steps, where c is the least number
    * of steps that are long enough for a tick. */
  lemma {:induction false} BurstSteps(xs: seq<Input>, h: real, c: nat)
    requires Least(c, h) && xs != [] && EveryStep(xs, h)
    ensures TotalTicks(xs) == TicksBy(|xs| - 1, c, h)
    ensures LastTick(xs) == 0.001 * Elapsed(LastBurst(|xs| - 1, c), h) && InitDone(xs)
    decreases |xs|
  {
    assert xs[0].time == 0.001 * Elapsed(0, h) == 0.0;
    var before := xs[..|xs| - 1];
    var j := |xs| - 1;
    if j == 0 {
      assert TotalTicks(before) == 0 && LastTick(before) == 0.0;
      assert Bursts(0, c) == 0 && LastBurst(0, c) == 0;
    } else {
      BurstSteps(before, h, c);
      BurstStep(j, c, h);
    }
  }

  // ---- Do the ticks follow the milliseconds? ----

  lemma Stretch(c: nat, h: real)
    ensures Elapsed(c, h) * 1.01 == c as real * (1.01 * h)
  {
  }

  lemma Ceiling(u: real) returns (n: nat)
    requires u > 0.0
    ensures n >= 1 && n as real >= u > (n - 1) as real
  {
    n := -((-u).Floor);
  }

  lemma Inverse(a: real) returns (u: real)
    requires a > 0.0
    ensures u > 0.0 && u * a == 1.0
  {
    u := 1.0 / a;
    Product(u, a);
  }

  lemma TimesInverse(u: real, x: real, a: real, p: real)
    requires a > 0.0 && p == u * a
    ensures x < u ==> x * a < p
    ensures x >= u ==> x * a >= p
  {
    Scale(x, u, a);
  }

  /** There is always such a number of steps. */
  lemma LeastExists(h: real) returns (c: nat)
    requires h > 0.0
    ensures Least(c, h)
  {
    var u := Inverse(1.01 * h);
    c := Ceiling(u);
    TimesInverse(u, c as real, 1.01 * h, 1.0);
    TimesInverse(u, (c - 1) as real, 1.01 * h, 1.0);
    Stretch(c, h);
    Stretch(c - 1, h);
  }

  /** In every run with steps of h milliseconds, the ticks up to each step number one plus the whole milliseconds. */
  ghost predicate Follows(h: real) {
    forall xs :: xs != [] && EveryStep(xs, h) ==> TotalTicks(xs) == 1 + Elapsed(|xs| - 1, h).Floor
  }

  function StepsOf(n: nat, h: real): (xs: seq<Input>)
    ensures |xs| == n && EveryStep(xs, h)
  {
    seq(n, i requires 0 <= i < n => Input([], [], 0.001 * Elapsed(i, h)))
  }

  lemma FollowsAt(h: real, c: nat, j: nat)
    requires Follows(h) && Least(c, h)
    ensures Bursts(j, c) * Burst(c, h) == Elapsed(j, h).Floor
  {
    var xs := StepsOf(j + 1, h);
    BurstSteps(xs, h, c);
  }

  /** A remainder, however small, adds up to a whole. */
  lemma AddsUp(d: real) returns (t: nat)
    requires d > 0.0
    ensures t as real * d >= 1.0
  {
    t := (1.0 / d).Floor + 1;
    assert t as real > 1.0 / d;
    Quotient(1.0, d);
    Scale(1.0 / d, t as real, d);
  }

  lemma FollowsTimes(h: real, c: nat, t: nat)
    requires Follows(h) && Least(c, h)
    ensures t * Burst(c, h) == (t as real * Elapsed(c, h)).Floor
  {
    FollowsAt(h, c, t * c);
    ModOf(t, 0, c);
    ElapsedTimes(t, c, h);
  }

  /** Then c steps are a whole number of milliseconds. */
  lemma WholeBurst(h: real, c: nat)
    requires Follows(h) && Least(c, h)
    ensures Elapsed(c, h) == Burst(c, h) as real
  {
    var g, d := Burst(c, h), Elapsed(c, h) - Burst(c, h) as real;
    FollowsTimes(h, c, 1);
    if d > 0.0 {
      var t := AddsUp(d);
      TimesSum(t, g, d);
      FollowsTimes(h, c, t);
    }
  }

  lemma ElapsedTimes(t: nat, c: nat, h: real)
    ensures Elapsed(t * c, h) == t as real * Elapsed(c, h)
  {
    assert (t * c) as real == t as real * c as real;
  }

  lemma TimesSum(t: nat, g: int, d: real)
    ensures t as real * (g as real + d) == (t * g) as real + t as real * d
  {
  }

  /** k steps to a millisecond. */
  predicate Part(k: nat, h: real) {
    1 <= k <= 100 && Elapsed(k, h) == 1.0
  }

  /** Steps of n milliseconds. */
  predicate WholeMs(n: nat, h: real) {
    1 <= n <= 99 && h == n as real
  }

  ghost predicate Even(h: real) {
    (exists k :: Part(k, h)) || (exists n :: WholeMs(n, h))
  }

  /** Steps that the ticks follow are one of these. */
  lemma FollowsEven(h: real)
    requires h > 0.0 && Follows(h)
    ensures Even(h)
  {
    var c := LeastExists(h);
    WholeBurst(h, c);
    var g := Burst(c, h);
    assert Elapsed(1, h) == h;
    ElapsedSum(c - 1, 1, h);
    if c == 1 {
      assert h == g as real && (h * 1.01).Floor == g;
      assert WholeMs(g, h);
    } else {
      ElapsedGrows(1, c - 1, h);
      assert Elapsed(c, h) < 2.0;
      assert g == 1;
      assert h == 1.0 - Elapsed(c - 1, h);
      ElapsedTimes(c, 1, h);
      assert Elapsed(c, h) == c as real * h == 1.0;
      Scale(c as real, 101.0, h);
      assert Part(c, h);
    }
  }

  /** The milliseconds at step q * c + r, when c steps take g of them. */
  lemma EvenSplit(j: nat, c: nat, g: nat, h: real)
    requires c >= 1 && h > 0.0 && Elapsed(c, h) == g as real && (c == 1 || g == 1)
    ensures Elapsed(j, h).Floor == Bursts(j, c) * g
  {
    var q, r := j / c, j % c;
    assert j == q * c + r;
    ElapsedSum(q * c, r, h);
    ElapsedTimes(q, c, h);
    ElapsedGrows(0, r, h);
    assert q as real * g as real == (q * g) as real;
    if c > 1 {
      ElapsedSum(r, c - r, h);
      ElapsedGrows(1, c - r, h);
    }
  }

  lemma EvenFollows(h: real, c: nat, g: nat)
    requires Least(c, h) && Elapsed(c, h) == g as real && Burst(c, h) == g && (c == 1 || g == 1)
    ensures Follows(h)
  {
    forall xs | xs != [] && EveryStep(xs, h)
      ensures TotalTicks(xs) == 1 + Elapsed(|xs| - 1, h).Floor
    {
      BurstSteps(xs, h, c);
      EvenSplit(|xs| - 1, c, g, h);
    }
  }

  lemma PartFollows(h: real, k: nat)
    requires h > 0.0 && Part(k, h)
    ensures Follows(h)
  {
    ElapsedSum(k - 1, 1, h);
    assert Elapsed(1, h) == h;
    Stretch(k - 1, h);
    assert Elapsed(k, h) == k as real * h;
    Scale(k as real, 101.0, h);
    EvenFollows(h, k, 1);
  }

  lemma WholeFollows(h: real, n: nat)
    requires WholeMs(n, h)
    ensures Follows(h)
  {
    assert Elapsed(1, h) == h && Elapsed(0, h) == 0.0;
    EvenFollows(h, 1, n);
  }

  /** The ticks follow the milliseconds in every run with steps of h ms if and only if h is 1/k with k up to 100, or a
    * whole number up to 99. */
  lemma FollowsIff(h: real)
    requires h > 0.0
    ensures Follows(h) <==> Even(h)
  {
    if Follows(h) {
      FollowsEven(h);
    }
    if k :| Part(k, h) {
      PartFollows(h, k);
    } else if n :| WholeMs(n, h) {
      WholeFollows(h, n);
    }
  }
}
