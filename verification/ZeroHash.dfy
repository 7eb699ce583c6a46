/** A cyclic message whose buffer hashes to 0 (dse/network/encoder.c, dse/network/schedule.c): it is due and yet not sent. */
module ZeroHash {
  import opened Arithmetic
  import opened Bytes
  import opened Fnv
  import opened Net
  import opened Model
  import opened Pipeline
  import opened Runs
  import opened Clock
  import opened Example

  const ZERO_HASH: seq<byte> := [204, 36, 49, 196]

  lemma {:induction false} XorZero(a: nat)
    ensures Xor(a, 0) == a
  {
    if a > 0 {
      XorZero(a / 2);
    }
  }

  /** The exclusive or with a number of n bits leaves the bits above alone. */
  lemma {:induction false} XorLow(n: nat, q: nat, r: nat, b: nat)
    requires r < Pow2(n) && b < Pow2(n)
    ensures Xor(Pow2(n) * q + r, b) == Pow2(n) * q + Xor(r, b)
  {
    if n == 0 {
      XorZero(q);
    } else {
      var t := Pow2(n - 1) * q;
      assert Pow2(n) * q == 2 * t;
      XorLow(n - 1, q, r / 2, b / 2);
      assert (2 * t + r) / 2 == t + r / 2 && (2 * t + r) % 2 == r % 2;
    }
  }

  /** Is the lowest bit of c the sum of those of a and b? */
  predicate Bit(a: nat, b: nat, c: nat) {
    a % 2 == b % 2 <==> c % 2 == 0
  }

  /** Are the lowest four bits? */
  predicate Nibble(a: nat, b: nat, c: nat) {
    && Bit(a, b, c)
    && Bit(a / 2, b / 2, c / 2)
    && Bit(a / 2 / 2, b / 2 / 2, c / 2 / 2)
    && Bit(a / 2 / 2 / 2, b / 2 / 2 / 2, c / 2 / 2 / 2)
  }

  lemma XorBit(a: nat, b: nat, c: nat)
    requires Xor(a / 2, b / 2) == c / 2 && Bit(a, b, c)
    ensures Xor(a, b) == c
  {
  }

  lemma XorNibble(a: nat, b: nat, c: nat)
    requires Xor(a / 2 / 2 / 2 / 2, b / 2 / 2 / 2 / 2) == c / 2 / 2 / 2 / 2 && Nibble(a, b, c)
    ensures Xor(a, b) == c
  {
    XorBit(a / 2 / 2 / 2, b / 2 / 2 / 2, c / 2 / 2 / 2);
    XorBit(a / 2 / 2, b / 2 / 2, c / 2 / 2);
    XorBit(a / 2, b / 2, c / 2);
    XorBit(a, b, c);
  }

  lemma FourHalves(a: nat)
    ensures a / 2 / 2 / 2 / 2 == a / 16
  {
  }

  /** The exclusive or of two bytes, bit by bit. */
  lemma XorByte(a: byte, b: byte, c: byte)
    requires Nibble(a, b, c) && Nibble(a / 16, b / 16, c / 16)
    ensures Xor(a, b) == c
  {
    FourHalves(a / 16);
    FourHalves(b / 16);
    FourHalves(c / 16);
    XorNibble(a / 16, b / 16, c / 16);
    FourHalves(a);
    FourHalves(b);
    FourHalves(c);
    XorNibble(a, b, c);
  }

  /** The state, by its upper 24 and its lower 8 bits. */
  predicate Parts(h: nat, high: nat, low: byte) {
    h == 256 * high + low
  }

  lemma XorParts(h: nat, b: byte, high: nat, low: byte, c: byte)
    requires Parts(h, high, low) && Xor(low, b) == c
    ensures Parts(Xor(h, b), high, c)
  {
    assert Pow2(8) == 256;
    XorLow(8, high, low, b);
  }

  lemma Wrapped(x: nat, q: nat, g: uint32)
    requires x == q * WORD32 + g
    ensures x % WORD32 == g
  {
  }

  /** One round: c is the exclusive or of the low byte and b, and the product wraps around q times. */
  lemma RoundBy(h: uint32, b: byte, high: nat, low: byte, c: byte, q: nat, g: uint32)
    requires Parts(h, high, low) && Nibble(low, b, c) && Nibble(low / 16, b / 16, c / 16)
    requires (256 * high + c) * PRIME == q * WORD32 + g
    ensures Round(h, b) == g
  {
    XorByte(low, b, c);
    XorParts(h, b, high, low, c);
    Wrapped(Xor(h, b) * PRIME, q, g);
  }

  lemma Round1(h: uint32, b: byte)
    requires Parts(h, 8461469, 197) && b == 204
    ensures Parts(Round(h, b), 4786997, 43)
  {
    RoundBy(h, b, 8461469, 197, 9, 8461672, 1225471275);
  }

  lemma Round2(h: uint32, b: byte)
    requires Parts(h, 4786997, 43) && b == 36
    ensures Parts(Round(h, b), 763014, 157)
  {
    RoundBy(h, b, 4786997, 43, 15, 4787112, 195331741);
  }

  lemma Round3(h: uint32, b: byte)
    requires Parts(h, 763014, 157) && b == 49
    ensures Parts(Round(h, b), 0, 196)
  {
    RoundBy(h, b, 763014, 157, 172, 763033, 196);
  }

  lemma Round4(h: uint32, b: byte)
    requires Parts(h, 0, 196) && b == 196
    ensures Parts(Round(h, b), 0, 0)
  {
    RoundBy(h, b, 0, 196, 0, 0, 0);
  }

  /** Four bytes whose hash is the value of a reset checksum. */
  lemma HashIsZero(s: seq<byte>)
    requires s == ZERO_HASH
    ensures Hash(s) == 0
  {
    var h1 := Round(OFFSET, s[0]);
    var h2 := Round(h1, s[1]);
    var h3 := Round(h2, s[2]);
    Round1(OFFSET, s[0]);
    Round2(h1, s[1]);
    Round3(h2, s[2]);
    Round4(h3, s[3]);
    HashOfFour(s, h1, h2, h3);
  }

  lemma HashOfFour(s: seq<byte>, h1: uint32, h2: uint32, h3: uint32)
    requires |s| == 4 && h1 == Round(OFFSET, s[0]) && h2 == Round(h1, s[1]) && h3 == Round(h2, s[2])
    ensures Hash(s) == Round(h3, s[3])
  {
    assert s[1..][1..][1..][1..] == [];
    assert HashFrom(OFFSET, s) == HashFrom(h1, s[1..]);
    assert HashFrom(h1, s[1..]) == HashFrom(h2, s[1..][1..]);
    assert HashFrom(h2, s[1..][1..]) == HashFrom(h3, s[1..][1..][1..]);
  }

  /** Four plain bytes, sent every cycle ms. */
  function CyclicBytes(cycle: nat): MessageDef {
    FunctionExample().(cycle := cycle, encodeFuncs := [], decodeFuncs := [])
  }

  function OneCyclic(cycle: nat): Config {
    Config([CyclicBytes(cycle)], Example.Items(), [None])
  }

  function CyclicChannel(cycle: nat): ModelCfg {
    ModelCfg(OneCyclic(cycle), [Some(0), Some(1), Some(2), Some(3)], None)
  }

  lemma OneCyclicLawful(cycle: nat)
    ensures OneCyclic(cycle).Valid() && OneCyclic(cycle).Fits() && OneCyclic(cycle).Disjoint() && Lawful(OneCyclic(cycle))
  {
    LoadedValid();
    LoadedDisjoint();
    assert forall k: nat :: OneCyclic(cycle).ItemFits(k) <==> OneMessage().ItemFits(k);
    assert CyclicBytes(cycle).KeepsLengths() && CyclicBytes(cycle).UnpackKeepsOnError();
  }

  /** The values that put ZERO_HASH into the buffer. */
  const VALUES: seq<real> := [204.0, 36.0, 49.0, 196.0]

  lemma LoadFour(sv: seq<real>, scalars: seq<real>)
    requires |sv| == |scalars| == 4
    ensures Load([Some(0), Some(1), Some(2), Some(3)], scalars, sv, 0) == scalars
  {
    var srMap: seq<Option<nat>> := [Some(0), Some(1), Some(2), Some(3)];
    var s1 := sv[0 := scalars[0]];
    var s2 := s1[1 := scalars[1]];
    var s3 := s2[2 := scalars[2]];
    var s4 := s3[3 := scalars[3]];
    assert Load(srMap, scalars, sv, 0) == Load(srMap, scalars, s1, 1);
    assert Load(srMap, scalars, s1, 1) == Load(srMap, scalars, s2, 2);
    assert Load(srMap, scalars, s2, 2) == Load(srMap, scalars, s3, 3);
    assert Load(srMap, scalars, s3, 3) == Load(srMap, scalars, s4, 4);
    assert s4 == scalars;
  }

  /** Nothing received, and these values on the channel: the buffer becomes ZERO_HASH. */
  lemma BufferIsZeroHash(cycle: nat, ms: ModelState, x: Input)
    requires Ready(CyclicChannel(cycle), ms, x) && Boundary(OneCyclic(cycle), ms.st)
    requires x.frames == [] && x.scalars == VALUES
    ensures Marshalled(CyclicChannel(cycle), ms, x).msgs[0].buffer == ZERO_HASH
  {
    OneCyclicLawful(cycle);
    LoadFour(ms.st.sv, x.scalars);
    BufferIs(CyclicChannel(cycle), ms, x, ZERO_HASH);
  }

  /** So at any point of any run, a tick that makes the message due does not make it be sent. */
  lemma DueButNotSent(cycle: nat, scalars: seq<real>, xs: seq<Input>, x: Input)
    requires cycle > 0 && RunReady(CyclicChannel(cycle), scalars, xs)
    requires x.frames == [] && x.scalars == VALUES
    ensures !NetOff(CyclicChannel(cycle), x) && !Sent(CyclicChannel(cycle), After(CyclicChannel(cycle), scalars, xs), x, 0)
  {
    var mc := CyclicChannel(cycle);
    RunKeepsInvariant(mc, scalars, xs);
    BufferIsZeroHash(cycle, After(mc, scalars, xs), x);
    HashIsZero(ZERO_HASH);
    Periodicity(mc, scalars, xs, x, 0);
  }

  /** The second step, at 1 ms, executes tick 1. */
  lemma SecondTick(x: Input, y: Input)
    requires x.time == 0.0 && y.time == 0.001
    ensures TotalTicks([x]) == 1 && TotalTicks([x] + [y]) == 2
  {
    assert Elapsed(0, 1) == 0 && Elapsed(1, 1) == 1;
    WholeTotals([x], y, 1);
  }

  lemma DueAtOne()
    ensures DueWithin(1, 1, 2)
  {
    DueInFirstTicks(1, 1, 2);
    assert 1 % 1 == 0;
  }

  /** There is such a tick: with a period of 1 ms, the step at 1 ms is due, and silent. */
  lemma DueStepIsSilent(x: Input, y: Input)
    requires x == Input(VALUES, [], 0.0) && y == Input(VALUES, [], 0.001)
    ensures RunReady(CyclicChannel(1), VALUES, [x])
    ensures DueWithin(1, TotalTicks([x]), TotalTicks([x] + [y]))
    ensures !Sent(CyclicChannel(1), After(CyclicChannel(1), VALUES, [x]), y, 0)
  {
    OneCyclicLawful(1);
    SecondTick(x, y);
    DueAtOne();
    DueButNotSent(1, VALUES, [x], y);
  }
}
