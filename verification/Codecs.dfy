/** Signal codecs of the example message library (dse/network/examples/stub/stub.c), on bit patterns: in exact reals, and
  * what is true of them in any arithmetic. A conversion of a real to an integer type truncates, and keeps the low bits. */
module Codecs {
  import opened Bytes
  import opened Net
  import opened Engine
  import opened Encoder
  import opened Marshalling
  import Doubles

  /** A whole number without scaling: the codecs of the unsigned and of the signed example signals. */
  function WholeUnsigned(lo: nat, hi: nat): Codec {
    Codec(v => Truncate(v), raw => raw as real, raw => lo <= raw <= hi)
  }

  function WholeSigned(width: nat, lo: int, hi: int): Codec {
    Codec(v => Truncate(v), (raw: nat) => Signed(raw, width) as real, (raw: nat) => lo <= Signed(raw, width) <= hi)
  }

  /** average_radius: steps of 0.1. */
  function Radius(): Codec {
    Codec(v => Truncate(v / 0.1), raw => raw as real * 0.1, raw => raw <= 50)
  }

  /** temperature: twelve bits signed, steps of 0.01 from 250. */
  function Temperature(): Codec {
    Codec(v => Truncate((v - 250.0) / 0.01), (raw: nat) => Signed(raw, 2) as real * 0.01 + 250.0,
          (raw: nat) => -2048 <= Signed(raw, 2) <= 2047)
  }

  predicate IsUnsigned(ty: MemberType) {
    ty.U8? || ty.U16? || ty.U32? || ty.U64?
  }

  lemma TruncateWhole(n: int)
    ensures Truncate(n as real) == n
  {
  }

  /** Any bit pattern of an unsigned member survives decoding and encoding, where the conversion to a real is exact. */
  lemma UnsignedRoundTrips(it: Item, lo: nat, hi: nat, raw: nat)
    requires IsUnsigned(it.signal.memberType) && it.signal.codec == WholeUnsigned(lo, hi) && raw < Pow256(it.Width())
    ensures RoundTrips(it, raw)
  {
    TruncateWhole(raw);
    assert it.signal.codec.encode(it.signal.codec.decode(raw)) == raw;
    ModSmall(raw, Pow256(it.Width()));
  }

  lemma SignedPattern(raw: nat, width: nat)
    requires raw < Pow256(width) && width in {1, 2, 4, 8}
    ensures Signed(raw, width) % Pow256(width) == raw
  {
  }

  /** Likewise for signed members of up to four bytes. */
  lemma SignedRoundTrips(it: Item, lo: int, hi: int, raw: nat)
    requires it.signal.memberType in {I8, I16, I32} && raw < Pow256(it.Width())
    requires it.signal.codec == WholeSigned(it.Width(), lo, hi)
    ensures RoundTrips(it, raw)
  {
    TruncateWhole(Signed(raw, it.Width()));
    assert it.signal.codec.encode(it.signal.codec.decode(raw)) == Signed(raw, it.Width());
    SignedPattern(raw, it.Width());
  }

  /** An int64_t member survives exactly if its value fits an int16_t. */
  lemma Int64RoundTripsIff(it: Item, lo: int, hi: int, raw: nat)
    requires it.signal.memberType.I64? && it.signal.codec == WholeSigned(8, lo, hi) && raw < Pow256(8)
    ensures RoundTrips(it, raw) <==> -0x8000 <= Signed(raw, 8) < 0x8000
  {
    Pow256Values();
    TruncateWhole(Signed(raw, 8));
    assert it.signal.codec.encode(it.signal.codec.decode(raw)) == Signed(raw, 8);
    Int64Exact(Signed(raw, 8));
    SignedPattern(raw, 8);
  }

  /** The temperature and the radius survive, too, in exact reals. */
  lemma TemperatureRoundTrips(it: Item, raw: nat)
    requires it.signal.memberType.I16? && it.signal.codec == Temperature() && raw < Pow256(2)
    ensures RoundTrips(it, raw)
  {
  }

  lemma RadiusRoundTrips(it: Item, raw: nat)
    requires it.signal.memberType.U8? && it.signal.codec == Radius() && raw < Pow256(1)
    ensures RoundTrips(it, raw)
  {
  }

  /** Every temperature that encodes into the range comes back within one step of 0.01. */
  lemma TemperatureWithinStep(v: real)
    requires 250.0 - 20.49 < v < 250.0 + 20.48
    ensures var raw := Cast(I16, Temperature().encode(v));
      Temperature().inRange(raw) && v - 0.01 < Temperature().decode(raw) < v + 0.01
  {
  }

  lemma RadiusWithinStep(v: real)
    requires -0.1 < v < 5.1
    ensures var raw := Cast(U8, Radius().encode(v));
      Radius().inRange(raw) && v - 0.1 < Radius().decode(raw) < v + 0.1
  {
  }

  /** Hence a temperature signal comes back from the message buffer within one step, whatever else the network holds. */
  lemma TemperatureSurvives(cfg: Config, st: State, j: nat)
    requires cfg.Valid() && cfg.Fits() && cfg.Disjoint() && st.Sized(cfg) && j < |cfg.items|
    requires st.msgs[cfg.items[j].msg].update && !Constant(cfg, j)
    requires cfg.items[j].signal.memberType.I16? && cfg.items[j].signal.codec == Temperature()
    requires 250.0 - 20.49 < st.sv[j] < 250.0 + 20.48
    ensures st.sv[j] - 0.01 < MarshalOut(cfg, MarshalIn(cfg, st, 0), 0).sv[j] < st.sv[j] + 0.01
  {
    TemperatureWithinStep(st.sv[j]);
    assert Encoded(cfg, st.sv, j) == Cast(I16, Temperature().encode(st.sv[j]));
    SignalRoundTrip(cfg, st, j);
  }

  // ---- Any arithmetic ----

  /** q, which should be n, is not nearer to zero than n. */
  predicate Reaches(q: real, n: int) {
    n == 0 || (n > 0 && q >= n as real) || (n < 0 && q <= n as real)
  }

  function NearerZero(n: int): int {
    if n > 0 then n - 1 else if n < 0 then n + 1 else 0
  }

  lemma TruncateNear(q: real, n: int)
    requires n as real - 1.0 < q < n as real + 1.0
    ensures Truncate(q) == if Reaches(q, n) then n else NearerZero(n)
  {
  }

  /** The number that a bit pattern stands for. */
  function Number(ty: MemberType, raw: nat): int {
    if IsUnsigned(ty) then raw else Signed(raw, ty.Width())
  }

  lemma CastNumber(ty: MemberType, raw: nat, n: int)
    requires IsUnsigned(ty) || ty in {I8, I16, I32}
    requires raw < Pow256(ty.Width()) && (n == Number(ty, raw) || n == NearerZero(Number(ty, raw)))
    ensures Number(ty, Cast(ty, n)) == n && (Cast(ty, n) == raw <==> n == Number(ty, raw))
  {
    Pow256Values();
    if IsUnsigned(ty) {
      ModSmall(n, Pow256(ty.Width()));
    } else {
      SignedArmsExact(ty, n);
      SignedPattern(raw, ty.Width());
    }
  }

  /** Whatever arithmetic encoding uses, if the quotient q that it truncates misses the number n of the pattern by less
    * than one: the pattern survives if and only if q is not nearer to zero than n, and otherwise moves by one step. */
  lemma ScaledRoundTrips(it: Item, raw: nat, q: real)
    requires IsUnsigned(it.signal.memberType) || it.signal.memberType in {I8, I16, I32}
    requires raw < Pow256(it.Width())
    requires it.signal.codec.encode(it.signal.codec.decode(raw)) == Truncate(q)
    requires Number(it.signal.memberType, raw) as real - 1.0 < q < Number(it.signal.memberType, raw) as real + 1.0
    ensures RoundTrips(it, raw) <==> Reaches(q, Number(it.signal.memberType, raw))
    ensures !RoundTrips(it, raw) ==>
      Number(it.signal.memberType, Cast(it.signal.memberType, Truncate(q))) == NearerZero(Number(it.signal.memberType, raw))
  {
    TruncateNear(q, Number(it.signal.memberType, raw));
    CastNumber(it.signal.memberType, raw, Truncate(q));
  }

  function Size(t: real): real {
    if t < 0.0 then -t else t
  }

  /** x is t, with a relative error of at most one in a million, which is far more than that of a double. */
  predicate Near(x: real, t: real) {
    -0.000001 * Size(t) <= x - t <= 0.000001 * Size(t)
  }

  /** In such an arithmetic the temperature pattern that stands for n computes q: with the constant h for 0.01, through the
    * product a, the sum x and the difference d, whose exact quotient by h is r. */
  predicate TemperatureComputes(n: int, h: real, a: real, x: real, d: real, r: real, q: real) {
    Near(h, 0.01) && Near(a, n as real * h) && Near(x, a + 250.0) && Near(d, x - 250.0) && d == r * h && Near(q, r)
  }

  lemma ProductWithin(n: real, h: real, bound: real)
    requires h > 0.0 && -bound <= n <= bound
    ensures -bound * h <= n * h <= bound * h
  {
    NotNegative(bound - n, h);
    NotNegative(n + bound, h);
    assert (bound - n) * h == bound * h - n * h;
    assert (n + bound) * h == n * h + bound * h;
  }

  lemma NotNegative(a: real, b: real)
    requires a >= 0.0 && b >= 0.0
    ensures a * b >= 0.0
  {
  }

  /** What is not small is not small when multiplied with h. */
  lemma NotSmall(r: real, h: real)
    requires h >= 0.0099
    ensures r >= 0.1 ==> r * h >= 0.00099
    ensures r <= -0.1 ==> r * h <= -0.00099
  {
    if r >= 0.1 {
      NotNegative(r - 0.1, h);
      assert (r - 0.1) * h == r * h - 0.1 * h;
    } else if r <= -0.1 {
      NotNegative(-r - 0.1, h);
      assert (-r - 0.1) * h == -(r * h) - 0.1 * h;
    }
  }

  lemma NearWithin(x: real, t: real, bound: real)
    requires Near(x, t) && -bound <= t <= bound
    ensures -0.000001 * bound <= x - t <= 0.000001 * bound
  {
  }

  lemma Distribute(r: real, k: real, h: real)
    ensures (r - k) * h == r * h - k * h
  {
  }

  lemma TimesHundredth(k: real, h: real)
    requires Near(h, 0.01) && -2048.0 <= k <= 2048.0
    ensures 0.0099 <= h && -20.5 <= k * h <= 20.5
  {
    NearWithin(h, 0.01, 0.01);
    var bound := 2048.0;
    ProductWithin(k, h, bound);
    assert bound * h <= 20.5;
  }

  /** The errors up to the difference add up to little. */
  lemma DifferenceNear(p: real, a: real, x: real, d: real)
    requires -20.5 <= p <= 20.5 && Near(a, p) && Near(x, a + 250.0) && Near(d, x - 250.0)
    ensures -0.0004 <= d - p <= 0.0004
  {
    NearWithin(a, p, 20.5);
    NearWithin(x, a + 250.0, 271.0);
    NearWithin(d, x - 250.0, 21.0);
  }

  lemma StepsNear(k: real, h: real, p: real, a: real, x: real, d: real, s: real, r: real, q: real)
    requires -2048.0 <= k <= 2048.0 && Near(h, 0.01) && p == k * h && s * h == d - p && s == r - k
    requires Near(a, p) && Near(x, a + 250.0) && Near(d, x - 250.0) && Near(q, r)
    ensures k - 1.0 < q < k + 1.0
  {
    TimesHundredth(k, h);
    DifferenceNear(p, a, x, d);
    NotSmall(s, h);
    NearWithin(q, r, 2049.0);
  }

  /** The quotient misses n by less than one. */
  lemma TemperatureQuotient(n: int, h: real, a: real, x: real, d: real, r: real, q: real)
    requires -2048 <= n <= 2047 && TemperatureComputes(n, h, a, x, d, r, q)
    ensures n as real - 1.0 < q < n as real + 1.0
  {
    var k := n as real;
    Distribute(r, k, h);
    StepsNear(k, h, k * h, a, x, d, r - k, r, q);
  }

  /** So whatever a machine computes for a temperature, in doubles or not: the pattern survives if and only if the quotient is
    * not nearer to zero than its number, and otherwise moves by one step. */
  lemma TemperatureInAnyArithmetic(it: Item, raw: nat, h: real, a: real, x: real, d: real, r: real, q: real)
    requires it.signal.memberType.I16? && raw < Pow256(2) && -2048 <= Signed(raw, 2) <= 2047
    requires TemperatureComputes(Signed(raw, 2), h, a, x, d, r, q)
    requires it.signal.codec.encode(it.signal.codec.decode(raw)) == Truncate(q)
    ensures RoundTrips(it, raw) <==> Reaches(q, Signed(raw, 2))
    ensures !RoundTrips(it, raw) ==> Signed(Cast(I16, Truncate(q)), 2) == NearerZero(Signed(raw, 2))
  {
    TemperatureQuotient(Signed(raw, 2), h, a, x, d, r, q);
    ScaledRoundTrips(it, raw, q);
  }

  lemma TruncateBounds(q: real)
    ensures q - 1.0 < Truncate(q) as real < q + 1.0
    ensures q > -1.0 ==> Truncate(q) >= 0
  {
  }

  /** What is large is large when multiplied with h. */
  lemma ProductBeyond(r: real, h: real, least: real, bound: real)
    requires h >= least > 0.0 && bound >= 0.0
    ensures r >= bound ==> r * h >= bound * least
    ensures r <= -bound ==> r * h <= -(bound * least)
  {
    NotNegative(bound, h - least);
    assert bound * (h - least) == bound * h - bound * least;
    if r >= bound {
      NotNegative(r - bound, h);
      assert (r - bound) * h == r * h - bound * h;
    } else if r <= -bound {
      NotNegative(-r - bound, h);
      assert (-r - bound) * h == -(r * h) - bound * h;
    }
  }

  /** The way there: the number k that is encoded, s away from the exact quotient r, is within one step of d. */
  lemma EncodedNear(h: real, d: real, r: real, q: real, k: real, s: real, e: real)
    requires Near(h, 0.01) && -20.461 <= d <= 20.461 && d == r * h && Near(q, r) && q - 1.0 < k < q + 1.0
    requires s == k - r && e == s * h
    ensures -2047.3 < k < 2047.3 && -0.01003 < e < 0.01003
  {
    NearWithin(h, 0.01, 0.01);
    ProductBeyond(r, h, 0.0099999, 2046.2);
    NearWithin(q, r, 2046.2);
    var bound := 1.0021;
    ProductWithin(s, h, bound);
    assert bound * h <= 0.0100211;
  }

  /** The way back. */
  lemma DecodedNear(h: real, k: real, p: real, a: real, x: real)
    requires p == k * h && -20.5 <= p <= 20.5 && Near(a, p) && Near(x, a + 250.0)
    ensures -0.0003 < x - 250.0 - p < 0.0003
  {
    NearWithin(a, p, 20.5);
    NearWithin(x, a + 250.0, 270.6);
  }

  /** What a machine computes for the temperature v: the difference d, whose exact quotient by h is r, and q; and back from
    * the number n, through the product a, the sum x. */
  predicate TemperatureTrip(v: real, h: real, d: real, r: real, q: real, n: int, a: real, x: real) {
    && Near(h, 0.01) && Near(d, v - 250.0) && d == r * h && Near(q, r) && n == Truncate(q)
    && Near(a, n as real * h) && Near(x, a + 250.0)
  }

  lemma BackNear(v: real, h: real, d: real, r: real, q: real, k: real, s: real, e: real, p: real, a: real, x: real)
    requires 250.0 - 20.46 < v < 250.0 + 20.46 && Near(h, 0.01) && Near(d, v - 250.0) && d == r * h && Near(q, r)
    requires q - 1.0 < k < q + 1.0 && s == k - r && e == s * h && p == k * h && e == p - d
    requires Near(a, p) && Near(x, a + 250.0)
    ensures -2047.3 < k < 2047.3 && v - 0.0105 < x < v + 0.0105
  {
    NearWithin(d, v - 250.0, 20.46);
    EncodedNear(h, d, r, q, k, s, e);
    DecodedNear(h, k, p, a, x);
  }

  /** In such an arithmetic, too, a temperature comes back within a step, and a little more. */
  lemma TemperatureNearStep(v: real, h: real, d: real, r: real, q: real, n: int, a: real, x: real)
    requires 250.0 - 20.46 < v < 250.0 + 20.46 && TemperatureTrip(v, h, d, r, q, n, a, x)
    ensures -2048 <= n <= 2047 && v - 0.0105 < x < v + 0.0105
  {
    var k := n as real;
    TruncateBounds(q);
    Distribute(k, r, h);
    BackNear(v, h, d, r, q, k, k - r, (k - r) * h, k * h, a, x);
  }

  /** And so does a radius: the exact quotient by h is r, the computed one q; back through the product a. */
  lemma RadiusNearStep(v: real, h: real, r: real, q: real, n: int, a: real)
    requires -0.09 < v < 5.09 && Near(h, 0.1) && v == r * h && Near(q, r) && n == Truncate(q) && Near(a, n as real * h)
    ensures 0 <= n <= 50 && v - 0.1001 < a < v + 0.1001
  {
    var k := n as real;
    TruncateBounds(q);
    RadiusEncodedNear(h, v, r, q, k, k - r, (k - r) * h);
    Distribute(k, r, h);
    NearWithin(a, k * h, 5.2);
  }

  lemma RadiusEncodedNear(h: real, v: real, r: real, q: real, k: real, s: real, e: real)
    requires Near(h, 0.1) && -0.09 < v < 5.09 && v == r * h && Near(q, r) && q - 1.0 < k < q + 1.0
    requires s == k - r && e == s * h
    ensures -1.0 < q < 50.95 && -0.10002 < e < 0.10002
  {
    NearWithin(h, 0.1, 0.1);
    ProductBeyond(r, h, 0.0999999, 50.91);
    ProductBeyond(r, h, 0.0999999, 0.95);
    NearWithin(q, r, 50.91);
    var bound := 1.0001;
    ProductWithin(s, h, bound);
    assert bound * h <= 0.1000102;
  }

  /** The radius raw is decoded and encoded in doubles. */
  ghost predicate DoubleCode(c: Codec, raw: nat) {
    if raw == 0 then c.encode(c.decode(raw)) == 0
    else exists x, q :: Doubles.Computes(raw, x, q) && c.encode(c.decode(raw)) == q.Truncated()
  }

  /** A radius codec that computes in doubles. */
  ghost predicate InDoubles(c: Codec) {
    forall raw: nat :: raw <= 50 ==> DoubleCode(c, raw)
  }

  lemma RadiusCode(c: Codec, raw: nat)
    requires InDoubles(c) && raw <= 50
    ensures c.encode(c.decode(raw)) == if raw == 43 then 42 else raw
  {
    assert DoubleCode(c, raw);
    if raw > 0 {
      var x, q :| Doubles.Computes(raw, x, q) && c.encode(c.decode(raw)) == q.Truncated();
      Doubles.RadiusComputed(raw, x, q);
    }
  }

  /** In doubles, every radius in range survives but 43, which becomes 42. */
  lemma RadiusInDoublesIff(it: Item, raw: nat)
    requires it.signal.memberType.U8? && InDoubles(it.signal.codec) && raw <= 50
    ensures RoundTrips(it, raw) <==> raw != 43
  {
    Pow256Values();
    RadiusCode(it.signal.codec, raw);
  }

  /** Such a codec, on reals: what is encoded to 42 is 4.3 itself here, where a machine has the double next to it. */
  function RadiusDouble(): Codec {
    Codec(v => if v == 4.3 then 42 else Truncate(v / 0.1), raw => raw as real * 0.1, raw => raw <= 50)
  }

  lemma RadiusDoubleIs()
    ensures InDoubles(RadiusDouble())
  {
    forall raw: nat | raw <= 50
      ensures DoubleCode(RadiusDouble(), raw)
    {
      if raw > 0 {
        var x, q := Doubles.Radii(raw);
        TenthBack(raw);
      }
    }
  }

  lemma TenthBack(raw: nat)
    ensures RadiusDouble().encode(RadiusDouble().decode(raw)) == if raw == 43 then 42 else raw
  {
  }
}
