/** example_message2, one byte whose range is smaller than its type (dse/network/examples/stub/stub.c): when a received
  * value is sent back. */
module Echo {
  import opened Bytes
  import opened Fnv
  import opened Net
  import opened Engine
  import opened Marshalling
  import opened Reception
  import opened Codecs
  import opened Model
  import opened Pipeline

  function PackRadius(payload: seq<byte>, buffer: seq<byte>): (r: seq<byte>)
    ensures |r| == |payload|
  {
    if |payload| < 8 || |buffer| < 1 then payload else [buffer[0] % 64 * 2] + Zeros(7) + payload[8..]
  }

  /** The radius of a frame: bits 6 to 1 of its first byte. */
  function RadiusOf(data: seq<byte>): (r: byte)
    requires data != []
    ensures r < 64
  {
    data[0] / 2 % 64
  }

  function UnpackRadius(buffer: seq<byte>, data: seq<byte>): (r: Unpacked)
    ensures |r.buffer| == |buffer| && (r.rc != 0 ==> r.buffer == buffer)
  {
    if |data| < 8 || |buffer| < 1 then Unpacked(-22, buffer) else Unpacked(0, buffer[0 := RadiusOf(data)])
  }

  /** A packed radius is read back, cut to six bits; bits 6 to 1 are worth twice the radius. */
  lemma RadiusPacked(payload: seq<byte>, r: byte)
    requires |payload| >= 8
    ensures var p := PackRadius(payload, [r]);
      p[0] == 2 * (r % 64) && RadiusOf(p) == r % 64 && forall k :: 1 <= k < 8 ==> p[k] == 0
  {
  }

  /** Whatever the codec computes with, radii up to 50 are in range. */
  ghost predicate UpTo50(c: Codec) {
    forall raw :: c.inRange(raw) <==> raw <= 50
  }

  function RadiusSignal(c: Codec): Signal {
    Signal("radius", "radius", U8, 0, 0.0, false, 0.0, false, c)
  }

  function ExampleMessage2(c: Codec): MessageDef {
    MessageDef(0x1f1, 0, false, 0, 1, 8, 0, [RadiusSignal(c)], Some(PackRadius), UnpackRadius, [], [])
  }

  function OneMessage(c: Codec): Config {
    Config([ExampleMessage2(c)], [Item(0, RadiusSignal(c), 0)], [None])
  }

  lemma OneMessageLawful(c: Codec)
    ensures OneMessage(c).Valid() && OneMessage(c).Fits() && OneMessage(c).Disjoint()
    ensures Lawful(OneMessage(c)) && ExampleMessage2(c).OnChange()
  {
    assert ExampleMessage2(c).KeepsLengths() && ExampleMessage2(c).UnpackKeepsOnError();
  }

  lemma RawRadius(c: Codec, st: State)
    requires OneMessage(c).Valid() && st.Shape(OneMessage(c)) && |st.msgs[0].buffer| == 1
    ensures Raw(OneMessage(c), st, 0) == st.msgs[0].buffer[0]
  {
    var s := st.msgs[0].buffer[0..1];
    assert LeValue(s) == s[0] + 256 * LeValue(s[1..]);
  }

  /** What a received radius r is encoded to again; out of range, what the models wrote is. */
  function Code(c: Codec, r: byte, written: real): nat {
    Cast(U8, c.encode(if r <= 50 then c.decode(r) else written))
  }

  /** A frame with a radius which the message does not hold already is taken into the buffer. */
  lemma TakenIn(c: Codec, mc: ModelCfg, ms: ModelState, x: Input, frame: Frame)
    requires mc.net == OneMessage(c) && Ready(mc, ms, x) && Boundary(mc.net, ms.st)
    requires Only(x.frames, frame) && frame.frameId == 0x1f1 && |frame.data| >= 8
    requires ms.st.msgs[0].buffer[0] != RadiusOf(frame.data)
    ensures Received(mc, ms, x).msgs[0].buffer == [RadiusOf(frame.data)]
    ensures Accepted(mc, ms, x).msgs[0].update && Accepted(mc, ms, x).sv == Loaded(mc, ms, x).sv
  {
    OneMessageLawful(c);
    var st, r := Loaded(mc, ms, x), RadiusOf(frame.data);
    assert st.msgs[0].buffer[0 := r] == [r];
    OneTaken(mc.net, st, 0, x.frames, frame, [r]);
    OneByteChangeDetected(st.msgs[0].buffer, 0, r);
    ReceiveKeepsSignal(mc.net, st, x.frames, 0);
  }

  lemma SurvivesIff(c: Codec, mc: ModelCfg, ms: ModelState, x: Input, frame: Frame)
    requires UpTo50(c) && mc.net == OneMessage(c) && Ready(mc, ms, x) && Boundary(mc.net, ms.st)
    requires Only(x.frames, frame) && frame.frameId == 0x1f1 && |frame.data| >= 8
    requires ms.st.msgs[0].buffer[0] != RadiusOf(frame.data)
    ensures var r := RadiusOf(frame.data);
      AllSurvive(mc.net, Accepted(mc, ms, x), 0) <==>
        (Code(c, r, Loaded(mc, ms, x).sv[0]) <= 50 ==> Code(c, r, Loaded(mc, ms, x).sv[0]) == r)
  {
    TakenIn(c, mc, ms, x, frame);
    var a, r := Accepted(mc, ms, x), RadiusOf(frame.data);
    assert a.msgs[0].buffer == [r];
    RawRadius(c, a);
    assert Back(mc.net, a, 0) == if r <= 50 then c.decode(r) else Loaded(mc, ms, x).sv[0];
    assert Survives(mc.net, a, 0) <==>
      (Code(c, r, Loaded(mc, ms, x).sv[0]) <= 50 ==> Code(c, r, Loaded(mc, ms, x).sv[0]) == r);
  }

  /** In any arithmetic: a received radius is sent back, changed, if and only if the network is on, and what it is encoded
    * to again is in range and not the radius received. */
  lemma EchoedIff(c: Codec, mc: ModelCfg, ms: ModelState, x: Input, frame: Frame)
    requires UpTo50(c) && mc.net == OneMessage(c) && Ready(mc, ms, x) && Boundary(mc.net, ms.st)
    requires Only(x.frames, frame) && frame.frameId == 0x1f1 && |frame.data| >= 8
    requires ms.st.msgs[0].buffer[0] != RadiusOf(frame.data)
    ensures Sent(mc, ms, x, 0) <==>
      && !NetOff(mc, x)
      && RadiusOf(frame.data) != Code(c, RadiusOf(frame.data), Loaded(mc, ms, x).sv[0]) <= 50
  {
    OneMessageLawful(c);
    TakenIn(c, mc, ms, x, frame);
    SurvivesIff(c, mc, ms, x, frame);
    EchoIff(mc, ms, x, 0);
    BeforeMarshal(mc, ms, x, 0);
    OneByteHash(Received(mc, ms, x).msgs[0].buffer, Marshalled(mc, ms, x).msgs[0].buffer);
  }

  lemma OneByteHash(r: seq<byte>, s: seq<byte>)
    requires |r| == |s| == 1
    ensures Hash(r) == Hash(s) <==> r == s
  {
    if s != r {
      assert s == r[0 := s[0]];
      OneByteChangeDetected(r, 0, s[0]);
    }
  }

  lemma CodeInDoubles(c: Codec, r: byte, written: real)
    requires InDoubles(c) && r <= 50
    ensures Code(c, r, written) == if r == 43 then 42 else r
  {
    Pow256Values();
    RadiusCode(c, r);
  }

  /** Computing in doubles, of the radii in range exactly 43 is echoed, as 42. */
  lemma InDoublesEchoedIff(c: Codec, mc: ModelCfg, ms: ModelState, x: Input, frame: Frame)
    requires UpTo50(c) && InDoubles(c) && mc.net == OneMessage(c) && Ready(mc, ms, x) && Boundary(mc.net, ms.st)
    requires Only(x.frames, frame) && frame.frameId == 0x1f1 && |frame.data| >= 8
    requires ms.st.msgs[0].buffer[0] != RadiusOf(frame.data) <= 50
    ensures Sent(mc, ms, x, 0) <==> !NetOff(mc, x) && RadiusOf(frame.data) == 43
  {
    CodeInDoubles(c, RadiusOf(frame.data), Loaded(mc, ms, x).sv[0]);
    EchoedIff(c, mc, ms, x, frame);
  }

  /** In exact reals, of the radii in range none is. */
  lemma InRealsNotEchoed(mc: ModelCfg, ms: ModelState, x: Input, frame: Frame)
    requires mc.net == OneMessage(Radius()) && Ready(mc, ms, x) && Boundary(mc.net, ms.st)
    requires Only(x.frames, frame) && frame.frameId == 0x1f1 && |frame.data| >= 8
    requires ms.st.msgs[0].buffer[0] != RadiusOf(frame.data) <= 50
    ensures !Sent(mc, ms, x, 0)
  {
    Pow256Values();
    RadiusRoundTrips(Item(0, RadiusSignal(Radius()), 0), RadiusOf(frame.data));
    EchoedIff(Radius(), mc, ms, x, frame);
  }

  function Channel(c: Codec): ModelCfg {
    ModelCfg(OneMessage(c), [Some(0)], None)
  }

  lemma LoadOne(sv: seq<real>, v: real)
    requires |sv| == 1
    ensures Load([Some(0)], [v], sv, 0) == [v]
  {
    assert Load([Some(0)], [v], [v], 1) == [v];
    assert sv[0 := v] == [v];
  }

  /** From a boundary, with the radius 6.0 on the bus, and not in the buffer, and v on the channel. */
  lemma Echoed(mc: ModelCfg, ms: ModelState, x: Input, v: real)
    requires mc.net == OneMessage(Radius()) && mc.netOff.None? && Ready(mc, ms, x) && Boundary(mc.net, ms.st)
    requires Loaded(mc, ms, x).sv == [v] && x.frames == [Frame(0x1f1, 0, Zeros(8)[0 := 120])]
    requires ms.st.msgs[0].buffer[0] != 60 && -0.1 < v < 5.1
    ensures Sent(mc, ms, x, 0)
  {
    RadiusWithinStep(v);
    assert RadiusOf(x.frames[0].data) == 60;
    Single(x.frames[0]);
    EchoedIff(Radius(), mc, ms, x, x.frames[0]);
  }

  /** The network when it has been created. */
  lemma CreatedChannel(c: Codec, mc: ModelCfg, scalars: seq<real>, ms: ModelState)
    requires mc == Channel(c) && mc.Valid() && |scalars| == 1 && ms == Create(mc, scalars) && Cast(U8, c.encode(0.0)) == 0
    ensures ms.Shape(mc) && Boundary(mc.net, ms.st) && ms.st.msgs[0].buffer == [0]
  {
    CreatedBuffer(c, mc.net, ms.st);
  }

  lemma CreatedBuffer(c: Codec, cfg: Config, st: State)
    requires cfg == OneMessage(c) && cfg.Valid() && st == CreatedNet(cfg) && Cast(U8, c.encode(0.0)) == 0
    ensures Boundary(cfg, st) && st.msgs[0].buffer == [0]
  {
    CreateBoundary(cfg);
    CreatedZero(c);
  }

  lemma CreatedZero(c: Codec)
    requires Cast(U8, c.encode(0.0)) == 0
    ensures OneMessage(c).Valid() && CreatedNet(OneMessage(c)).msgs[0].buffer == [0]
  {
    var st := InitialState(OneMessage(c));
    OneMessageLawful(c);
    RawRadius(c, st);
    assert Holds(OneMessage(c), st, 0);
    Stable(OneMessage(c), st, 0, 0);
    CreatedMessage(OneMessage(c), 0);
  }

  lemma EchoedFrom(mc: ModelCfg, ms: ModelState, x: Input)
    requires mc == Channel(Radius()) && mc.Valid() && ms == Create(mc, [0.0])
    requires x == Input([1.0], [Frame(0x1f1, 0, Zeros(8)[0 := 120])], 0.0)
    ensures Ready(mc, ms, x) && Sent(mc, ms, x, 0)
  {
    CreatedChannel(Radius(), mc, [0.0], ms);
    LoadOne(ms.st.sv, 1.0);
    Echoed(mc, ms, x, 1.0);
  }

  /** An input that is echoed: the first step of a network finds a radius of 6.0 on the bus and 1.0 on the channel. */
  lemma EchoedInput(mc: ModelCfg, x: Input)
    requires mc == Channel(Radius()) && x == Input([1.0], [Frame(0x1f1, 0, Zeros(8)[0 := 120])], 0.0)
    ensures mc.Valid() && Ready(mc, Create(mc, [0.0]), x)
    ensures Sent(mc, Create(mc, [0.0]), x, 0)
  {
    OneMessageLawful(Radius());
    EchoedFrom(mc, Create(mc, [0.0]), x);
  }

  /** From a boundary, with the radius 4.3 on the bus, in doubles: the buffer is overwritten with 4.2, and sent. */
  lemma EchoedAs42(c: Codec, mc: ModelCfg, ms: ModelState, x: Input, frame: Frame)
    requires UpTo50(c) && InDoubles(c) && mc.net == OneMessage(c) && mc.netOff.None?
    requires Ready(mc, ms, x) && Boundary(mc.net, ms.st)
    requires Only(x.frames, frame) && frame.frameId == 0x1f1 && |frame.data| >= 8 && RadiusOf(frame.data) == 43
    requires ms.st.msgs[0].buffer[0] != 43
    ensures Sent(mc, ms, x, 0) && Marshalled(mc, ms, x).msgs[0].buffer == [42]
  {
    OneMessageLawful(c);
    InDoublesEchoedIff(c, mc, ms, x, frame);
    TakenIn(c, mc, ms, x, frame);
    CodeInDoubles(c, 43, 0.0);
    RawRadius(c, Accepted(mc, ms, x));
    AcceptedItem(mc, ms, x, 0);
    TickedSized(mc, ms, x);
    MarshalledRaw(mc.net, Ticked(mc, ms, x).1, 0, 0);
    RawRadius(c, Marshalled(mc, ms, x));
  }

  lemma EchoedFromDoubles(c: Codec, mc: ModelCfg, scalars: seq<real>, ms: ModelState, x: Input, frame: Frame)
    requires UpTo50(c) && InDoubles(c) && Cast(U8, c.encode(0.0)) == 0
    requires mc == Channel(c) && mc.Valid() && |scalars| == 1 && ms == Create(mc, scalars)
    requires |x.scalars| == 1 && x.frames == [frame] && frame.frameId == 0x1f1
    requires |frame.data| >= 8 && RadiusOf(frame.data) == 43
    ensures Ready(mc, ms, x) && Sent(mc, ms, x, 0) && Marshalled(mc, ms, x).msgs[0].buffer == [42]
  {
    CreatedChannel(c, mc, scalars, ms);
    Single(frame);
    EchoedAs42(c, mc, ms, x, frame);
  }

  lemma DoubleCodec(c: Codec)
    requires c == RadiusDouble()
    ensures UpTo50(c) && InDoubles(c) && Cast(U8, c.encode(0.0)) == 0
  {
    RadiusDoubleIs();
    TenthBack(0);
  }

  function Frame43(): Frame {
    Frame(0x1f1, 0, Zeros(8)[0 := 86])
  }

  lemma Frame43Is(frame: Frame)
    requires frame == Frame43()
    ensures frame.frameId == 0x1f1 && |frame.data| >= 8 && RadiusOf(frame.data) == 43
  {
  }

  lemma ChannelValid(c: Codec)
    ensures Channel(c).Valid()
  {
    OneMessageLawful(c);
  }

  /** An input on which this happens, in the first step of a network. */
  lemma EchoedInDoubles(c: Codec, mc: ModelCfg, scalars: seq<real>, x: Input, frame: Frame)
    requires c == RadiusDouble() && mc == Channel(c) && frame == Frame43()
    requires |scalars| == |x.scalars| == 1 && x.frames == [frame]
    ensures mc.Valid() && InDoubles(c) && Ready(mc, Create(mc, scalars), x)
    ensures Sent(mc, Create(mc, scalars), x, 0) && Marshalled(mc, Create(mc, scalars), x).msgs[0].buffer == [42]
  {
    DoubleCodec(c);
    ChannelValid(c);
    Frame43Is(frame);
    EchoedFromDoubles(c, mc, scalars, Create(mc, scalars), x, frame);
  }
}
