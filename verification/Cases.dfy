/** Closed inputs for what one might not expect: rejected frames, unchanged frames, and lost signals. */
module Cases {
  import opened Bytes
  import opened Fnv
  import opened Net
  import opened Functions
  import opened Reception
  import opened Model
  import opened Pipeline
  import opened Schedule
  import opened Runs
  import opened WakeUp
  import opened Example
  import opened ZeroHash
  import MarshalList
  import Crc

  // ---- A rejected frame ----

  /** The channel of the example, with a fifth signal that turns the network off. */
  function OffChannel(): ModelCfg {
    ModelCfg(Example.OneMessage(), [Some(0), Some(1), Some(2), Some(3), None], Some(4))
  }

  lemma OffChannelValid()
    ensures OffChannel().Valid()
  {
    LoadedValid();
  }

  lemma LoadFive(sv: seq<real>, scalars: seq<real>)
    requires |sv| == 4 && |scalars| == 5
    ensures Load([Some(0), Some(1), Some(2), Some(3), None], scalars, sv, 0) == scalars[..4]
  {
    var srMap: seq<Option<nat>> := [Some(0), Some(1), Some(2), Some(3), None];
    var s1 := sv[0 := scalars[0]];
    var s2 := s1[1 := scalars[1]];
    var s3 := s2[2 := scalars[2]];
    var s4 := s3[3 := scalars[3]];
    assert Load(srMap, scalars, sv, 0) == Load(srMap, scalars, s1, 1);
    assert Load(srMap, scalars, s1, 1) == Load(srMap, scalars, s2, 2);
    assert Load(srMap, scalars, s2, 2) == Load(srMap, scalars, s3, 3);
    assert Load(srMap, scalars, s3, 3) == Load(srMap, scalars, s4, 4);
    assert Load(srMap, scalars, s4, 4) == Load(srMap, scalars, s4, 5);
    assert s4 == scalars[..4];
  }

  /** A payload of zeros but for a first byte of 6 and the alive byte a. */
  predicate Alive(p: seq<byte>, a: byte) {
    p == Zeros(8)[1 := a][0 := 6]
  }

  lemma AliveSum(p: seq<byte>, a: byte)
    requires Alive(p, a)
    ensures Crc.SumExcept(p, 0, 8) == a
  {
    SumOfZeros(Zeros(8), 8);
    Crc.SumUpdate(Zeros(8), 0, 8, 1, a);
    Crc.SumUpdate(Zeros(8)[1 := a], 0, 8, 0, 6);
  }

  lemma AlivePacked(p: seq<byte>, a: byte)
    requires Alive(p, a)
    ensures PackBytes(p, p[..4]) == PackBytes(Zeros(8), p[..4]) == p
  {
  }

  /** Counted and summed, a payload that does not validate becomes one that does, and differs in one byte. */
  lemma AliveAnswer(m: MsgState, p: seq<byte>, q: seq<byte>)
    requires Alive(p, 5) && Alive(q, 6) && m.buffer == p[..4] && m.payload == p
    ensures !Crc.Validates(p, 0)
    ensures Answer(m) == q && Rewritten(m)
  {
    AliveSum(p, 5);
    AliveSum(q, 6);
    AlivePacked(p, 5);
    assert q == p[1 := 6];
    assert Count(p) == q;
    assert Sum(q) == q;
    OneByteChangeDetected(p, 1, 6);
  }

  /** A step while the network is off ends with what was marshalled, packed, but neither counted nor summed. */
  lemma OffEnds(mc: ModelCfg, ms: ModelState, x: Input)
    requires mc.net == Example.OneMessage() && Ready(mc, ms, x) && NetOff(mc, x)
    ensures var s, m := Marshalled(mc, ms, x).msgs[0], Step(mc, ms, x).st.msgs[0];
      m.buffer == s.buffer && m.payload == PackBytes(s.payload, s.buffer)
  {
    OutgoingIs(mc, ms, x, 0);
  }

  /** These are the bytes on the channel. */
  lemma PackedWhileOff(mc: ModelCfg, ms: ModelState, x: Input, v: seq<byte>)
    requires mc.net == Example.OneMessage() && Ready(mc, ms, x) && Boundary(mc.net, ms.st)
    requires x.frames == [] && NetOff(mc, x)
    requires |v| == 4 && forall j :: 0 <= j < 4 ==> Loaded(mc, ms, x).sv[j] == v[j] as real
    ensures var m := Step(mc, ms, x).st.msgs[0]; m.buffer == v && m.payload == PackBytes(ms.st.msgs[0].payload, v)
  {
    LoadedValid();
    LoadedDisjoint();
    LoadedLawful();
    BufferIs(mc, ms, x, v);
    PayloadKept(mc, ms, x);
    OffEnds(mc, ms, x);
  }

  /** A settled state whose message holds p, as bytes and as payload. */
  ghost predicate Carries(mc: ModelCfg, ms: ModelState, p: seq<byte>) {
    && mc.net == Example.OneMessage() && mc.Valid() && ms.Shape(mc)
    && Boundary(mc.net, ms.st) && Settled(mc.net, ms.st) && InStep(mc, ms)
    && |p| == 8 && ms.st.msgs[0].buffer == p[..4] && ms.st.msgs[0].payload == p
  }

  /** The first step, with the network off. */
  lemma FirstOff(mc: ModelCfg, ms: ModelState, x: Input, p: seq<byte>)
    requires mc.net == Example.OneMessage() && Ready(mc, ms, x) && Boundary(mc.net, ms.st)
    requires ms.st.msgs[0].payload == Zeros(8) && x.frames == [] && NetOff(mc, x) && Alive(p, 5)
    requires Loaded(mc, ms, x).sv == [6.0, 5.0, 0.0, 0.0]
    ensures Carries(mc, Step(mc, ms, x), p)
  {
    LoadedValid();
    LoadedDisjoint();
    LoadedLawful();
    AlivePacked(p, 5);
    PackedWhileOff(mc, ms, x, p[..4]);
    OffSettles(mc, ms, x);
  }

  /** From there, with the network on, a frame that would set foo to 7 is rejected, and answered. */
  lemma ThenOn(mc: ModelCfg, ms: ModelState, x: Input, p: seq<byte>, q: seq<byte>, i: nat)
    requires Carries(mc, ms, p) && Alive(p, 5) && Alive(q, 6)
    requires Ready(mc, ms, x) && Unwritten(mc, ms, x) && !NetOff(mc, x)
    requires x.frames == [Frame(0x1f2, 2, p[2 := 7])]
    requires i < |mc.srMap| && i < 4 && mc.srMap[i] == Some(i)
    ensures Sent(mc, ms, x, 0) && Step(mc, ms, x).scalars[i] == q[i] as real
  {
    AliveAnswer(ms.st.msgs[0], p, q);
    assert p[2 := 7][..4] == p[..4][2 := 7];
    OneByteChangeDetected(p[..4], 2, 7);
    Single(x.frames[0]);
    RejectedAnswered(mc, ms, x, x.frames[0]);
    RejectedShown(mc, ms, x, x.frames[0], i, i);
  }

  /** The first four signals of the channel are those of the network. */
  ghost predicate Straight(mc: ModelCfg) {
    && mc.net == Example.OneMessage() && mc.Valid() && |mc.srMap| == 5
    && forall i :: 0 <= i < 5 ==> mc.srMap[i] == if i < 4 then Some(i) else None
  }

  /** Nobody writes the signals of the network in step y. */
  lemma OnlyOnAgain(mc: ModelCfg, ms: ModelState, x: Input, y: Input)
    requires Straight(mc) && Ready(mc, ms, x) && Boundary(mc.net, ms.st) && x.frames == [] && NetOff(mc, x)
    requires Loaded(mc, ms, x).sv == x.scalars[..4]
    requires |y.scalars| == 5 && forall i :: 0 <= i < 4 ==> y.scalars[i] == x.scalars[i]
    ensures Unwritten(mc, Step(mc, ms, x), y)
  {
    LoadedLawful();
    OffStepValues(mc, ms, x);
    assert forall i :: 0 <= i < 4 ==> Step(mc, ms, x).scalars[i] == x.scalars[..4][i];
  }

  /** Two steps from creation. */
  lemma OffThenOn(mc: ModelCfg, c: ModelState, x: Input, y: Input, p: seq<byte>, q: seq<byte>, i: nat)
    requires Alive(p, 5) && Alive(q, 6) && i < 4
    requires Straight(mc) && Ready(mc, c, x) && Boundary(mc.net, c.st) && c.st.msgs[0].payload == Zeros(8)
    requires x.frames == [] && NetOff(mc, x) && Loaded(mc, c, x).sv == x.scalars[..4] == [6.0, 5.0, 0.0, 0.0]
    requires |y.scalars| == 5 && forall i :: 0 <= i < 4 ==> y.scalars[i] == x.scalars[i]
    requires !NetOff(mc, y) && y.frames == [Frame(0x1f2, 2, p[2 := 7])]
    ensures var ms := Step(mc, c, x); Sent(mc, ms, y, 0) && Step(mc, ms, y).scalars[i] == q[i] as real
  {
    FirstOff(mc, c, x, p);
    OnlyOnAgain(mc, c, x, y);
    ThenOn(mc, Step(mc, c, x), y, p, q, i);
  }

  lemma CreatedState(mc: ModelCfg, scalars: seq<real>, c: ModelState)
    requires mc.Valid() && |scalars| == |mc.srMap| && c == Create(mc, scalars)
    ensures c.Shape(mc) && c.st == CreatedNet(mc.net)
  {
  }

  lemma OffStraight(mc: ModelCfg)
    requires mc == OffChannel() && mc.Valid()
    ensures Straight(mc)
  {
  }

  lemma CreatedOff(mc: ModelCfg, scalars: seq<real>, c: ModelState)
    requires Straight(mc) && |scalars| == 5 && c == Create(mc, scalars)
    ensures c.Shape(mc) && Boundary(mc.net, c.st) && c.st.msgs[0].payload == Zeros(8)
  {
    CreatedState(mc, scalars, c);
    CreatedQuiet(mc.net, c.st);
  }

  lemma CreatedQuiet(cfg: Config, st: State)
    requires cfg == Example.OneMessage() && cfg.Valid() && st == CreatedNet(cfg)
    ensures Boundary(cfg, st) && st.msgs[0].payload == Zeros(8)
  {
    CreateBoundary(cfg);
    Example.CreatedZero();
  }

  lemma OffLoads(mc: ModelCfg, ms: ModelState, x: Input)
    requires mc == OffChannel() && Ready(mc, ms, x) && |x.scalars| == 5
    ensures Loaded(mc, ms, x).sv == x.scalars[..4]
  {
    LoadFive(ms.st.sv, x.scalars);
  }

  lemma RunFrom(mc: ModelCfg, scalars: seq<real>, c: ModelState, x: Input, y: Input, p: seq<byte>, q: seq<byte>, i: nat)
    requires mc == OffChannel() && mc.Valid() && |scalars| == 5 && c == Create(mc, scalars)
    requires Alive(p, 5) && Alive(q, 6) && i < 4
    requires x == Input([6.0, 5.0, 0.0, 0.0, 1.0], [], 0.0)
    requires y == Input([6.0, 5.0, 0.0, 0.0, 0.0], [Frame(0x1f2, 2, p[2 := 7])], 0.001)
    ensures Ready(mc, c, x)
    ensures var ms := Step(mc, c, x); Sent(mc, ms, y, 0) && Step(mc, ms, y).scalars[i] == q[i] as real
  {
    OffStraight(mc);
    CreatedOff(mc, scalars, c);
    OffLoads(mc, c, x);
    assert x.scalars[..4] == [6.0, 5.0, 0.0, 0.0];
    OffThenOn(mc, c, x, y, p, q, i);
  }

  /** A run of two steps. In the first the network is off; in the second it is on, and a frame is rejected: the message is
    * sent, and the channel shows the checksum 6, the alive byte counted on to 6, and foo as it was. */
  lemma RejectedRun(mc: ModelCfg, scalars: seq<real>, x: Input, y: Input, p: seq<byte>, q: seq<byte>, i: nat)
    requires mc == OffChannel() && |scalars| == 5 && Alive(p, 5) && Alive(q, 6) && i < 4
    requires x == Input([6.0, 5.0, 0.0, 0.0, 1.0], [], 0.0)
    requires y == Input([6.0, 5.0, 0.0, 0.0, 0.0], [Frame(0x1f2, 2, p[2 := 7])], 0.001)
    ensures mc.Valid() && Ready(mc, Create(mc, scalars), x)
    ensures var ms := Step(mc, Create(mc, scalars), x); Sent(mc, ms, y, 0) && Step(mc, ms, y).scalars[i] == q[i] as real
  {
    OffChannelValid();
    RunFrom(mc, scalars, Create(mc, scalars), x, y, p, q, i);
  }

  // ---- A frame that brings nothing new ----

  lemma {:induction false} ZeroStays(s: seq<byte>)
    requires forall k :: 0 <= k < |s| ==> s[k] == 0
    ensures HashFrom(0, s) == 0
    decreases |s|
  {
    if s != [] {
      ZeroStays(s[1..]);
    }
  }

  /** No buffer of zeros hashes to 0. */
  lemma ZerosHash(s: seq<byte>)
    requires forall k :: 0 <= k < |s| ==> s[k] == 0
    ensures Hash(s) != 0
  {
    ZeroStays(s);
    if Hash(s) == 0 {
      HashFromInjective(OFFSET, 0, s);
    }
  }

  /** Once flagged, the bytes of the buffer end on the channel. */
  lemma FlaggedShown(mc: ModelCfg, ms: ModelState, x: Input, v: seq<byte>, i: nat, j: nat)
    requires mc.net == OneCyclic(1) && Ready(mc, ms, x) && Boundary(mc.net, ms.st)
    requires Received(mc, ms, x).msgs[0].update && Received(mc, ms, x).msgs[0].buffer == v && |v| == 4
    requires i < |mc.srMap| && mc.srMap[i] == Some(j) && j < 4
    ensures Step(mc, ms, x).scalars[i] == v[j] as real
  {
    OneCyclicLawful(1);
    NotRewritten(mc, ms, x, 0);
    AcceptedItem(mc, ms, x, j);
    ByteItem(mc.net, Accepted(mc, ms, x), j);
    FinalValue(mc, ms, x, j);
  }

  function Quiet4(time: real): Input {
    Input([0.0, 0.0, 0.0, 0.0], [], time)
  }

  /** A step with zeros on the channel. */
  lemma ZerosStep(mc: ModelCfg, ms: ModelState, y: Input)
    requires mc == CyclicChannel(1) && Ready(mc, ms, y) && Boundary(mc.net, ms.st) && y == Quiet4(y.time)
    ensures Step(mc, ms, y).st.msgs[0].buffer == Zeros(4)
    ensures !Outgoing(mc, ms, y).msgs[0].update
  {
    OneCyclicLawful(1);
    LoadFour(ms.st.sv, y.scalars);
    BufferIs(mc, ms, y, Zeros(4));
    NotRewritten(mc, ms, y, 0);
  }

  lemma CyclicBoundary(mc: ModelCfg, ms: ModelState, y: Input)
    requires mc.net == OneCyclic(1) && Ready(mc, ms, y) && Boundary(mc.net, ms.st)
    ensures Boundary(mc.net, Step(mc, ms, y).st)
  {
    OneCyclicLawful(1);
    StepBoundary(mc, ms, y);
  }

  /** The message is due every tick, and a frame with the bytes d brings the buffer b nothing new. */
  ghost predicate Repeats(cfg: Config, b: seq<byte>, d: seq<byte>) {
    && cfg.Valid() && First(cfg, 0) && cfg.defs[0].cycle == 1 && cfg.defs[0].frameId == 0x1f2
    && cfg.defs[0].unpack(b, d) == Unpacked(0, b) && Hash(b) != 0
  }

  lemma ZerosRepeat(cfg: Config)
    requires cfg == OneCyclic(1)
    ensures Repeats(cfg, Zeros(4), Zeros(8))
  {
    OneCyclicLawful(1);
    ZerosHash(Zeros(4));
  }

  /** After any run: a step that is due, and leaves the buffer as b, makes such a frame new. */
  lemma NewAfterDue(mc: ModelCfg, scalars: seq<real>, xs: seq<Input>, y: Input, z: Input, b: seq<byte>, frame: Frame)
    requires RunReady(mc, scalars, xs) && |y.scalars| == |z.scalars| == |mc.srMap| && Only(z.frames, frame)
    requires Repeats(mc.net, b, frame.data) && frame.frameId == 0x1f2
    requires DueWithin(1, TotalTicks(xs), TotalTicks(xs + [y]))
    requires Step(mc, After(mc, scalars, xs), y).st.msgs[0].buffer == b
    requires !Outgoing(mc, After(mc, scalars, xs), y).msgs[0].update
    ensures Received(mc, Step(mc, After(mc, scalars, xs), y), z).msgs[0].update
    ensures Received(mc, Step(mc, After(mc, scalars, xs), y), z).msgs[0].buffer == b
  {
    UnchangedFrameIsNew(mc, scalars, xs, y, z, 0, frame);
  }

  lemma ZeroShown(mc: ModelCfg, ms: ModelState, z: Input)
    requires mc == CyclicChannel(1) && Ready(mc, ms, z) && Boundary(mc.net, ms.st)
    requires Received(mc, ms, z).msgs[0].update && Received(mc, ms, z).msgs[0].buffer == Zeros(4)
    ensures Step(mc, ms, z).scalars[2] == 0.0
  {
    FlaggedShown(mc, ms, z, Zeros(4), 2, 2);
  }

  /** A cyclic message with a period of 1 ms, after any run: a due step finds zeros on the channel; in the next step a
    * frame of zeros arrives, which is what the buffer holds. It counts as new, and whatever a model wrote is gone. */
  lemma WrittenOver(mc: ModelCfg, scalars: seq<real>, xs: seq<Input>, y: Input, z: Input, frame: Frame)
    requires mc == CyclicChannel(1) && RunReady(mc, scalars, xs) && y == Quiet4(y.time)
    requires DueWithin(1, TotalTicks(xs), TotalTicks(xs + [y]))
    requires |z.scalars| == 4 && Only(z.frames, frame) && frame.frameId == 0x1f2 && frame.data == Zeros(8)
    ensures var ms := Step(mc, After(mc, scalars, xs), y);
      ms.st.msgs[0].buffer == Zeros(4) && Received(mc, ms, z).msgs[0].update && Step(mc, ms, z).scalars[2] == 0.0
  {
    RunKeepsInvariant(mc, scalars, xs);
    CyclicBoundary(mc, After(mc, scalars, xs), y);
    ZerosStep(mc, After(mc, scalars, xs), y);
    ZerosRepeat(mc.net);
    NewAfterDue(mc, scalars, xs, y, z, Zeros(4), frame);
    ZeroShown(mc, Step(mc, After(mc, scalars, xs), y), z);
  }

  /** There is such a run, stepped every millisecond, in which foo, written as 5.0, ends as 0.0. */
  lemma UnchangedRun(x: Input, y: Input, z: Input)
    requires x == Quiet4(0.0) && y == Quiet4(0.001)
    requires z == Input([0.0, 0.0, 5.0, 0.0], [Frame(0x1f2, 2, Zeros(8))], 0.002)
    ensures RunReady(CyclicChannel(1), x.scalars, [x])
    ensures Step(CyclicChannel(1), Step(CyclicChannel(1), After(CyclicChannel(1), x.scalars, [x]), y), z).scalars[2] == 0.0
  {
    OneCyclicLawful(1);
    SecondTick(x, y);
    DueAtOne();
    Single(z.frames[0]);
    WrittenOver(CyclicChannel(1), x.scalars, [x], y, z, z.frames[0]);
  }

  // ---- A frame that brings something old again ----

  /** The bytes 0, 0, 7, 0 of a frame, as they are in the buffer. */
  predicate Seven(data: seq<byte>, v: seq<byte>) {
    data == Zeros(8)[2 := 7] && v == Zeros(4)[2 := 7]
  }

  lemma SevenUnpacked(cfg: Config, b: seq<byte>, data: seq<byte>, v: seq<byte>)
    requires cfg == OneCyclic(10) && |b| == 4 && Seven(data, v)
    ensures cfg.Valid() && Lawful(cfg) && First(cfg, 0) && cfg.defs[0].cycle == 10 && cfg.defs[0].frameId == 0x1f2
    ensures cfg.mux[0].None? && cfg.defs[0].encodeFuncs == [] && cfg.defs[0].unpack(b, data) == Unpacked(0, v)
  {
    OneCyclicLawful(10);
    assert data[..4] + b[4..] == v;
  }

  /** What is not flagged leaves the channel as it is. */
  lemma UnflaggedShown(mc: ModelCfg, ms: ModelState, x: Input, i: nat, j: nat)
    requires Ready(mc, ms, x) && Lawful(mc.net) && j < |mc.net.items| && i < |mc.srMap| && mc.srMap[i] == Some(j)
    requires var m := mc.net.items[j].msg;
      mc.net.mux[m].None? && mc.net.defs[m].encodeFuncs == [] && !Received(mc, ms, x).msgs[m].update
    ensures Step(mc, ms, x).scalars[i] == Loaded(mc, ms, x).sv[j]
  {
    var m := mc.net.items[j].msg;
    VerdictIgnoresFrames(mc, ms, x, m);
    NotRewritten(mc, ms, x, m);
    RejectedItem(mc, ms, x, j);
    FinalValue(mc, ms, x, j);
  }

  /** In the first step the frame is received, and no tick is due: its hash stays the checksum. */
  lemma SevenReceived(mc: ModelCfg, ms: ModelState, x: Input, frame: Frame, v: seq<byte>)
    requires mc.net == OneCyclic(10) && Ready(mc, ms, x) && Boundary(mc.net, ms.st) && InPhase(mc.net, ms.plan, 0)
    requires Only(x.frames, frame) && frame.frameId == 0x1f2 && Seven(frame.data, v) && TickCount(ms, x.time) == 1
    ensures Step(mc, ms, x).st.msgs[0].checksum == Hash(v)
  {
    SevenUnpacked(mc.net, ms.st.msgs[0].buffer, frame.data, v);
    OneTaken(mc.net, Loaded(mc, ms, x), 0, x.frames, frame, v);
    NotRewritten(mc, ms, x, 0);
    DueInFirstTicks(10, 0, 1);
    CyclicChecksum(mc, ms, x, 0, 0);
  }

  lemma NotYetDue(x: Input, y: Input)
    requires x.time == 0.0 && y.time == 0.001
    ensures TotalTicks([x]) == 1 && !DueWithin(10, TotalTicks([x]), TotalTicks([x] + [y]))
  {
    SecondTick(x, y);
    DueInFirstTicks(10, 1, 2);
  }

  lemma SevenAgain(
    mc: ModelCfg, scalars: seq<real>, xs: seq<Input>, y: Input, s: ModelState, z: Input, frame: Frame, v: seq<byte>)
    requires mc == CyclicChannel(10) && RunReady(mc, scalars, xs) && |y.scalars| == |z.scalars| == 4
    requires After(mc, scalars, xs).st.msgs[0].checksum == Hash(v) && Seven(frame.data, v)
    requires !DueWithin(10, TotalTicks(xs), TotalTicks(xs + [y])) && y.frames == []
    requires s == Step(mc, After(mc, scalars, xs), y) && Only(z.frames, frame) && frame.frameId == 0x1f2
    ensures !Received(mc, s, z).msgs[0].update && Received(mc, s, z).msgs[0].buffer == v
  {
    var ms := After(mc, scalars, xs);
    RunKeepsInvariant(mc, scalars, xs);
    OneCyclicLawful(10);
    NotRewritten(mc, ms, y, 0);
    BeforeMarshal(mc, ms, y, 0);
    SevenUnpacked(mc.net, s.st.msgs[0].buffer, frame.data, v);
    StaleFrameFiltered(mc, scalars, xs, y, z, 0, frame, v);
  }

  /** After any run whose checksum stands for these bytes: a step y without frames and without a due tick, and then a step z
    * that receives them again. They are in the buffer, but not on the channel. */
  lemma SevenHidden(
    mc: ModelCfg, scalars: seq<real>, xs: seq<Input>, y: Input, s: ModelState, z: Input, frame: Frame, v: seq<byte>)
    requires mc == CyclicChannel(10) && RunReady(mc, scalars, xs) && |y.scalars| == |z.scalars| == 4
    requires After(mc, scalars, xs).st.msgs[0].checksum == Hash(v) && Seven(frame.data, v)
    requires !DueWithin(10, TotalTicks(xs), TotalTicks(xs + [y])) && y.frames == []
    requires s == Step(mc, After(mc, scalars, xs), y) && Only(z.frames, frame) && frame.frameId == 0x1f2
    ensures Received(mc, s, z).msgs[0].buffer == v && Step(mc, s, z).scalars[2] == z.scalars[2]
  {
    SevenAgain(mc, scalars, xs, y, s, z, frame, v);
    ChannelKept(mc, s, z, 2);
  }

  lemma ChannelKept(mc: ModelCfg, s: ModelState, z: Input, i: nat)
    requires mc == CyclicChannel(10) && Ready(mc, s, z) && !Received(mc, s, z).msgs[0].update && i < 4
    ensures Step(mc, s, z).scalars[i] == z.scalars[i]
  {
    OneCyclicLawful(10);
    LoadFour(s.st.sv, z.scalars);
    UnflaggedShown(mc, s, z, i, i);
  }

  lemma Created(mc: ModelCfg, scalars: seq<real>, none: seq<Input>, ms: ModelState)
    requires RunReady(mc, scalars, none) && none == [] && ms == After(mc, scalars, none)
    ensures Boundary(mc.net, ms.st) && InPhase(mc.net, ms.plan, 0) && TickCount(ms, 0.0) == 1
  {
    RunKeepsInvariant(mc, scalars, none);
  }

  lemma AfterOne(mc: ModelCfg, scalars: seq<real>, xs: seq<Input>, frame: Frame, v: seq<byte>)
    requires mc == CyclicChannel(10) && RunReady(mc, scalars, xs) && |xs| == 1 && xs[0].time == 0.0
    requires xs[0].frames == [frame] && frame.frameId == 0x1f2 && Seven(frame.data, v)
    ensures After(mc, scalars, xs).st.msgs[0].checksum == Hash(v)
  {
    var none := xs[..0];
    Created(mc, scalars, none, After(mc, scalars, none));
    Single(frame);
    SevenReceived(mc, After(mc, scalars, none), xs[0], frame, v);
  }

  /** The buffer after a step that finds these values on the channel. */
  lemma FiveStep(mc: ModelCfg, ms: ModelState, y: Input)
    requires mc == CyclicChannel(10) && Ready(mc, ms, y) && Boundary(mc.net, ms.st)
    requires y.scalars == [0.0, 0.0, 5.0, 0.0] && y.frames == []
    ensures Step(mc, ms, y).st.msgs[0].buffer == Zeros(4)[2 := 5]
  {
    OneCyclicLawful(10);
    LoadFour(ms.st.sv, y.scalars);
    BufferIs(mc, ms, y, Zeros(4)[2 := 5]);
    NotRewritten(mc, ms, y, 0);
  }

  /** There is such a run, stepped every millisecond. foo is received as 7, written as 5, and received as 7 again; the frame
    * changes the buffer, and yet foo stays 5. */
  lemma StaleRun(x: Input, y: Input, z: Input, frame: Frame, v: seq<byte>)
    requires frame == Frame(0x1f2, 2, Zeros(8)[2 := 7]) && v == Zeros(4)[2 := 7]
    requires x == Input([0.0, 0.0, 0.0, 0.0], [frame], 0.0)
    requires y == Input([0.0, 0.0, 5.0, 0.0], [], 0.001) && z == Input([0.0, 0.0, 5.0, 0.0], [frame], 0.002)
    ensures RunReady(CyclicChannel(10), x.scalars, [x])
    ensures var s := Step(CyclicChannel(10), After(CyclicChannel(10), x.scalars, [x]), y);
      && s.st.msgs[0].buffer == Zeros(4)[2 := 5] && Received(CyclicChannel(10), s, z).msgs[0].buffer == v
      && Step(CyclicChannel(10), s, z).scalars[2] == 5.0
  {
    var mc := CyclicChannel(10);
    OneCyclicLawful(10);
    AfterOne(mc, x.scalars, [x], frame, v);
    NotYetDue(x, y);
    Single(frame);
    RunKeepsInvariant(mc, x.scalars, [x]);
    FiveStep(mc, After(mc, x.scalars, [x]), y);
    SevenHidden(mc, x.scalars, [x], y, Step(mc, After(mc, x.scalars, [x]), y), z, frame, v);
  }

  // ---- Signals lost behind an empty message ----

  /** Two messages, of which the first has no buffer: the signals of the second are not in the list. */
  lemma LostBehindEmpty(defs: seq<MessageDef>)
    requires defs == [FunctionExample().(bufferLen := 0), FunctionExample()]
    ensures defs[1].bufferLen == 4 && |defs[1].signals| == 4
    ensures MarshalList.Built(defs, 0) == [] && |MarshalList.Intended(defs, 0)| == 4
  {
    assert MarshalList.Built(defs, 2) == MarshalList.Intended(defs, 2) == [];
    assert |MarshalList.Intended(defs, 1)| == 4;
  }
}
