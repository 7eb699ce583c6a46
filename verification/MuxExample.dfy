/** The container mux_message with its contained messages mux_message_601 and mux_message_602, which share the frame id 600
  * (dse/network/examples/stub/network.yaml, stub.c): how a frame finds its message. */
module MuxExample {
  import opened Bytes
  import opened Fnv
  import opened Net
  import opened Engine
  import opened Encoder
  import opened Functions
  import opened Marshalling
  import opened Reception
  import opened Codecs
  import opened Model
  import opened Pipeline
  import opened Delivery

  // ---- The message library, on bytes as numbers ----

  /** The header id in the first three bytes. */
  function IdOf(data: seq<byte>): nat
    requires |data| >= 3
  {
    var a: nat, b: nat, c: nat := data[0], data[1], data[2];
    a + 0x100 * b + 0x1_0000 * c
  }

  /** The struct holds the id in bytes 0 to 3, the dlc in byte 4, foo_double in bytes 8 to 15, bar_float in 16 to 19. */
  function UnpackMux(buffer: seq<byte>, data: seq<byte>): (r: Unpacked)
    ensures |r.buffer| == |buffer| && (r.rc != 0 ==> r.buffer == buffer)
  {
    if |data| < 12 || |buffer| < 20 then Unpacked(-22, buffer)
    else
      var head := data[..3] + [0, data[3]] + buffer[5..8];
      var body :=
        if IdOf(data) == 601 then data[4..12] + buffer[16..]
        else if IdOf(data) == 602 then buffer[8..16] + data[4..8] + buffer[20..]
        else buffer[8..];
      Unpacked(0, head + body)
  }

  function PackMux(payload: seq<byte>, buffer: seq<byte>): (r: seq<byte>)
    ensures |r| == |payload|
  {
    if |payload| < 12 || |buffer| < 20 then payload
    else
      var body :=
        if buffer[3] == 0 && IdOf(buffer) == 601 then buffer[8..16]
        else if buffer[3] == 0 && IdOf(buffer) == 602 then buffer[16..20] + Zeros(4)
        else Zeros(8);
      buffer[..3] + [buffer[4]] + body + payload[12..]
  }

  function HeaderSignal(mux: bool, internal: bool, id: nat): Signal {
    Signal("header_id", "header_id", U32, 0, 0.0, internal, id as real, mux, WholeUnsigned(0, 0xffffff))
  }

  function DlcSignal(internal: bool, dlc: nat): Signal {
    Signal("header_dlc", "header_dlc", U8, 4, 0.0, internal, dlc as real, false, WholeUnsigned(0, 255))
  }

  /** foo is any codec of doubles, bar any of floats. */
  function FooSignal(foo: Codec): Signal {
    Signal("foo_double", "foo_double", F64, 8, 0.0, false, 0.0, false, foo)
  }

  function BarSignal(bar: Codec): Signal {
    Signal("bar_float", "bar_float", F32, 16, 0.0, false, 0.0, false, bar)
  }

  function MuxDef(contained: bool, muxId: nat, signals: seq<Signal>): MessageDef {
    MessageDef(600, 1, contained, muxId, 24, 12, 0, signals, Some(PackMux), UnpackMux, [], [])
  }

  function MuxDefs(foo: Codec, bar: Codec): seq<MessageDef> {
    [MuxDef(false, 0, [HeaderSignal(true, false, 0), DlcSignal(false, 0)]),
     MuxDef(true, 601, [HeaderSignal(false, true, 601), DlcSignal(true, 42), FooSignal(foo)]),
     MuxDef(true, 602, [HeaderSignal(false, true, 602), DlcSignal(true, 24), BarSignal(bar)])]
  }

  function MuxItems(foo: Codec, bar: Codec): seq<Item> {
    [Item(0, HeaderSignal(true, false, 0), 0), Item(0, DlcSignal(false, 0), 1),
     Item(1, HeaderSignal(false, true, 601), 2), Item(1, DlcSignal(true, 42), 3), Item(1, FooSignal(foo), 4),
     Item(2, HeaderSignal(false, true, 602), 5), Item(2, DlcSignal(true, 24), 6), Item(2, BarSignal(bar), 7)]
  }

  function MuxNet(foo: Codec, bar: Codec): Config {
    Config(MuxDefs(foo, bar), MuxItems(foo, bar), [Some(0), None, None])
  }

  lemma MuxNetValid(foo: Codec, bar: Codec)
    ensures MuxNet(foo, bar).Valid() && MuxNet(foo, bar).Fits()
  {
  }

  lemma MuxNetLawful(foo: Codec, bar: Codec)
    ensures Lawful(MuxNet(foo, bar))
  {
    forall m | 0 <= m < 3
      ensures MuxDefs(foo, bar)[m].KeepsLengths() && MuxDefs(foo, bar)[m].UnpackKeepsOnError()
    {
    }
  }

  // ---- Which message is found ----

  /** All three messages have the frame id; frames go to the container. */
  lemma ContainerIsFirst(foo: Codec, bar: Codec, m: nat)
    ensures First(MuxNet(foo, bar), m) <==> m == 0
  {
    if m < 3 {
      FirstIff(MuxNet(foo, bar), m);
    }
  }

  /** A header names the contained message with that mux id; no other number names any. */
  lemma HeaderNames(foo: Codec, bar: Codec, id: int, m: nat)
    ensures id != 0 && FirstWithMux(MuxDefs(foo, bar), id, 600, m) <==>
      (id == 601 && m == 1) || (id == 602 && m == 2)
  {
  }

  // ---- What a frame does ----

  /** The bytes of the struct that hold the id. */
  lemma IdRaw(buffer: seq<byte>, data: seq<byte>)
    requires |buffer| == 24 && |data| >= 12
    ensures Peek(UnpackMux(buffer, data).buffer, 0, 4) == IdOf(data)
  {
    var s := UnpackMux(buffer, data).buffer[0..4];
    assert s == [data[0], data[1], data[2], 0];
    FourBytes(s);
  }

  lemma FourBytes(s: seq<byte>)
    requires |s| == 4
    ensures var a: nat, b: nat, c: nat, d: nat := s[0], s[1], s[2], s[3];
      LeValue(s) == a + 0x100 * b + 0x1_0000 * c + 0x100_0000 * d
  {
    assert s[1..][1..][1..][1..] == [];
    assert LeValue(s) == s[0] + 256 * LeValue(s[1..]);
    assert LeValue(s[1..]) == s[1] + 256 * LeValue(s[1..][1..]);
    assert LeValue(s[1..][1..]) == s[2] + 256 * LeValue(s[1..][1..][1..]);
  }

  /** The container decodes the header id. */
  lemma HeaderDecoded(cfg: Config, st: State, st1: State, foo: Codec, bar: Codec, data: seq<byte>)
    requires cfg == MuxNet(foo, bar) && cfg.Valid() && st.Shape(cfg) && |st.msgs[0].buffer| == 24 && |data| >= 12
    requires st1 == SetBuffer(st, 0, UnpackMux(st.msgs[0].buffer, data).buffer)
    ensures Readable(cfg, st1, 0) && Decoded(cfg, st1, 0) == IdOf(data) as real
  {
    IdRaw(st.msgs[0].buffer, data);
    assert Raw(cfg, st1, 0) == IdOf(data);
  }

  /** A frame whose header is 601 or 602 changes the container and the contained message with that mux id, and not the
    * other one. */
  lemma MuxFrame(cfg: Config, st: State, frame: Frame, foo: Codec, bar: Codec, id: nat, m: nat)
    requires cfg == MuxNet(foo, bar) && cfg.Valid() && st.Shape(cfg) && |st.msgs[0].buffer| == 24
    requires frame.frameId == 600 && |frame.data| >= 12 && 1 <= m <= 2 && id == IdOf(frame.data) && (id == 601 || id == 602)
    ensures ReceiveFrame(cfg, st, frame).msgs[m] ==
      if id == 600 + m then Unpacking(cfg.defs[m], st.msgs[m], frame.data) else st.msgs[m]
  {
    HeaderDecoded(cfg, st, SetBuffer(st, 0, UnpackMux(st.msgs[0].buffer, frame.data).buffer), foo, bar, frame.data);
    TruncateWhole(id);
    ContainerFrameIs(cfg, st, 0, frame, id as real);
    HeaderNames(foo, bar, id, m);
  }

  /** Such a frame is dispatched to that message. */
  lemma MuxTarget(cfg: Config, h: Header, frame: Frame, foo: Codec, bar: Codec, id: nat, m: nat)
    requires cfg == MuxNet(foo, bar) && cfg.Valid() && |h.buffer| == 24
    requires frame.frameId == 600 && |frame.data| >= 12 && IdOf(frame.data) == id && (id == 601 || id == 602)
    ensures Target(cfg, 0, h, frame) == Some(m) <==> id == 600 + m
  {
    IdRaw(h.buffer, frame.data);
    TruncateWhole(id);
    assert Truncate(NextHeader(cfg, 0, h, frame.data).mux) == id;
    FindMuxIff(cfg.defs, id, 600, m);
    HeaderNames(foo, bar, id, m);
  }

  /** So it is taken in by that message, if it is new, and leaves the other as it was; among any frames with other ids. */
  lemma MuxTaken(mc: ModelCfg, ms: ModelState, x: Input, frame: Frame, foo: Codec, bar: Codec, m: nat, v: seq<byte>)
    requires mc.net == MuxNet(foo, bar) && Ready(mc, ms, x) && Boundary(mc.net, ms.st) && Only(x.frames, frame)
    requires frame.frameId == 600 && |frame.data| >= 12 && 1 <= m <= 2 && IdOf(frame.data) == 600 + m
    requires v == UnpackMux(ms.st.msgs[m].buffer, frame.data).buffer && Hash(v) != ms.st.msgs[m].checksum
    ensures TakesIn(mc, ms, x, m, v) && StaysAccepted(mc, ms, x, m)
  {
    var h := HeaderOf(mc.net, Loaded(mc, ms, x), 0);
    assert Quiet(mc.net.defs[0], ms.st.msgs[0]) && Quiet(mc.net.defs[m], ms.st.msgs[m]);
    MuxNetLawful(foo, bar);
    ContainerIsFirst(foo, bar, 0);
    OnlyDispatched(mc.net, 0, m, h, x.frames, frame);
    MuxTarget(mc.net, h, frame, foo, bar, 600 + m, m);
    DispatchedTaken(mc, ms, x, 0, m, frame, v);
  }

  lemma MuxOther(mc: ModelCfg, ms: ModelState, x: Input, frame: Frame, foo: Codec, bar: Codec, m: nat)
    requires mc.net == MuxNet(foo, bar) && Ready(mc, ms, x) && Boundary(mc.net, ms.st) && Only(x.frames, frame)
    requires frame.frameId == 600 && |frame.data| >= 12 && 1 <= m <= 2 && IdOf(frame.data) == 603 - m
    ensures Received(mc, ms, x).msgs[m] == ms.st.msgs[m]
  {
    var st := Loaded(mc, ms, x);
    var h := HeaderOf(mc.net, st, 0);
    assert Quiet(mc.net.defs[0], ms.st.msgs[0]);
    MuxNetLawful(foo, bar);
    ContainerIsFirst(foo, bar, 0);
    OnlyDispatched(mc.net, 0, m, h, x.frames, frame);
    MuxTarget(mc.net, h, frame, foo, bar, 603 - m, m);
    BatchDispatch(mc.net, st, 0, m, x.frames);
  }

  /** Where the values are read from. */
  lemma FooRaw(buffer: seq<byte>, data: seq<byte>)
    requires |buffer| == 24 && |data| >= 12 && IdOf(data) == 601
    ensures Peek(UnpackMux(buffer, data).buffer, 8, 8) == LeValue(data[4..12])
  {
    assert UnpackMux(buffer, data).buffer[8..16] == data[4..12];
  }

  lemma BarRaw(buffer: seq<byte>, data: seq<byte>)
    requires |buffer| == 24 && |data| >= 12 && IdOf(data) == 602
    ensures Peek(UnpackMux(buffer, data).buffer, 16, 4) == LeValue(data[4..8])
  {
    assert UnpackMux(buffer, data).buffer[16..20] == data[4..8];
  }

  lemma MuxShown(
    mc: ModelCfg, ms: ModelState, x: Input, frame: Frame, foo: Codec, bar: Codec, m: nat, v: seq<byte>, j: nat, i: nat,
    it: Item, raw: nat)
    requires mc.net == MuxNet(foo, bar) && Ready(mc, ms, x) && Boundary(mc.net, ms.st) && Only(x.frames, frame)
    requires frame.frameId == 600 && |frame.data| >= 12 && 1 <= m <= 2 && IdOf(frame.data) == 600 + m
    requires v == UnpackMux(ms.st.msgs[m].buffer, frame.data).buffer && Hash(v) != ms.st.msgs[m].checksum
    requires Mapped(mc, m, j, i) && it == mc.net.items[j] && Shows(it, v) && raw == Peek(v, it.At(), it.Width())
    ensures Step(mc, ms, x).scalars[i] == it.signal.codec.decode(raw)
  {
    MuxNetLawful(foo, bar);
    MuxTaken(mc, ms, x, frame, foo, bar, m, v);
    TakenShown(mc, ms, x, m, v, j, i);
  }

  lemma MuxBuffers(cfg: Config, st: State, foo: Codec, bar: Codec)
    requires cfg == MuxNet(foo, bar) && Boundary(cfg, st)
    ensures |st.msgs[0].buffer| == |st.msgs[1].buffer| == |st.msgs[2].buffer| == 24
  {
    assert Quiet(cfg.defs[0], st.msgs[0]) && Quiet(cfg.defs[1], st.msgs[1]) && Quiet(cfg.defs[2], st.msgs[2]);
  }

  lemma ValueItems(foo: Codec, bar: Codec, it: Item, jt: Item)
    requires it == Item(1, FooSignal(foo), 4) && jt == Item(2, BarSignal(bar), 7)
    ensures MuxNet(foo, bar).items[4] == it && it.At() == 8 && it.Width() == 8 && it.signal.codec == foo
    ensures MuxNet(foo, bar).items[7] == jt && jt.At() == 16 && jt.Width() == 4 && jt.signal.codec == bar
  {
  }

  /** foo_double arrives, with a frame whose header is 601 and which brings the message something new ... */
  lemma FooArrives(
    mc: ModelCfg, ms: ModelState, x: Input, frame: Frame, foo: Codec, bar: Codec, v: seq<byte>, i: nat, raw: nat)
    requires mc.net == MuxNet(foo, bar) && Ready(mc, ms, x) && Boundary(mc.net, ms.st) && Only(x.frames, frame)
    requires frame.frameId == 600 && |frame.data| >= 12 && IdOf(frame.data) == 601
    requires v == UnpackMux(ms.st.msgs[1].buffer, frame.data).buffer && Hash(v) != ms.st.msgs[1].checksum
    requires Mapped(mc, 1, 4, i) && raw == LeValue(frame.data[4..12]) && foo.inRange(raw)
    ensures Step(mc, ms, x).scalars[i] == foo.decode(raw)
  {
    MuxBuffers(mc.net, ms.st, foo, bar);
    var it, jt := Item(1, FooSignal(foo), 4), Item(2, BarSignal(bar), 7);
    ValueItems(foo, bar, it, jt);
    FooRaw(ms.st.msgs[1].buffer, frame.data);
    MuxShown(mc, ms, x, frame, foo, bar, 1, v, 4, i, it, raw);
  }

  /** ... and bar_float with one whose header is 602. */
  lemma BarArrives(
    mc: ModelCfg, ms: ModelState, x: Input, frame: Frame, foo: Codec, bar: Codec, v: seq<byte>, i: nat, raw: nat)
    requires mc.net == MuxNet(foo, bar) && Ready(mc, ms, x) && Boundary(mc.net, ms.st) && Only(x.frames, frame)
    requires frame.frameId == 600 && |frame.data| >= 12 && IdOf(frame.data) == 602
    requires v == UnpackMux(ms.st.msgs[2].buffer, frame.data).buffer && Hash(v) != ms.st.msgs[2].checksum
    requires Mapped(mc, 2, 7, i) && raw == LeValue(frame.data[4..8]) && bar.inRange(raw)
    ensures Step(mc, ms, x).scalars[i] == bar.decode(raw)
  {
    MuxBuffers(mc.net, ms.st, foo, bar);
    var it, jt := Item(1, FooSignal(foo), 4), Item(2, BarSignal(bar), 7);
    ValueItems(foo, bar, it, jt);
    BarRaw(ms.st.msgs[2].buffer, frame.data);
    MuxShown(mc, ms, x, frame, foo, bar, 2, v, 7, i, jt, raw);
  }

  // ---- A closed step ----

  function MuxChannel(foo: Codec, bar: Codec): ModelCfg {
    ModelCfg(MuxNet(foo, bar), [Some(4), Some(7)], None)
  }

  /** Where item k is. */
  function PlaceOf(k: nat): (nat, nat, nat) {
    if k < 2 then (0, 4 * k, 4 - 3 * k)
    else if k < 4 then (1, 4 * (k - 2), 10 - 3 * k)
    else if k == 4 then (1, 8, 8)
    else if k < 7 then (2, 4 * (k - 5), 19 - 3 * k)
    else (2, 16, 4)
  }

  lemma ItemPlace(foo: Codec, bar: Codec, k: nat)
    requires k < 8
    ensures var it := MuxItems(foo, bar)[k]; (it.msg, it.At(), it.Width()) == PlaceOf(k)
  {
  }

  lemma MuxDisjoint(foo: Codec, bar: Codec)
    ensures MuxNet(foo, bar).Disjoint()
  {
    var items := MuxItems(foo, bar);
    forall j, k | 0 <= j < |items| && 0 <= k < |items| && j != k && items[j].msg == items[k].msg
      ensures items[j].Apart(items[k])
    {
      ItemPlace(foo, bar, j);
      ItemPlace(foo, bar, k);
    }
  }

  /** The bytes of three members. */
  lemma MemberBytes(b: seq<byte>)
    requires |b| == 24 && LeValue(b[0..4]) == 601 && LeValue(b[4..5]) == 42 && LeValue(b[8..16]) == 0
    ensures b[0] == 0x59 && b[1] == 2 && b[2] == 0 && b[3] == 0 && b[4] == 42
    ensures forall k :: 8 <= k < 16 ==> b[k] == 0
  {
    FourBytes(b[0..4]);
    assert LeValue(b[4..5]) == b[4] + 256 * LeValue(b[4..5][1..]);
    ZeroBytes(b[8..16]);
    forall k | 8 <= k < 16
      ensures b[k] == 0
    {
      assert b[k] == b[8..16][k - 8];
    }
  }

  lemma {:induction false} ZeroBytes(s: seq<byte>)
    requires LeValue(s) == 0
    ensures forall k :: 0 <= k < |s| ==> s[k] == 0
  {
    if s != [] {
      ZeroBytes(s[1..]);
    }
  }

  /** The encoding of the initial value 0 is 0. */
  ghost predicate ZeroCodec(foo: Codec) {
    foo.encode(0.0) == 0 && forall raw :: foo.inRange(raw)
  }

  /** What the three items of mux_message_601 write at first. */
  lemma InitialEncoded(cfg: Config, sv: seq<real>, foo: Codec, bar: Codec)
    requires cfg == MuxNet(foo, bar) && cfg.Valid() && ZeroCodec(foo) && |sv| == 8 && sv[4] == 0.0
    ensures Writes(cfg, sv, 2) && Encoded(cfg, sv, 2) == 601
    ensures Writes(cfg, sv, 3) && Encoded(cfg, sv, 3) == 42
    ensures Writes(cfg, sv, 4) && Encoded(cfg, sv, 4) == 0
  {
    Pow256Values();
    TruncateWhole(601);
    TruncateWhole(42);
  }

  /** So that is what the message holds when the network has been created: its mux id, its dlc, and 0. */
  lemma CreatedRaw(cfg: Config, st: State, foo: Codec, bar: Codec, j: nat)
    requires cfg == MuxNet(foo, bar) && cfg.Valid() && ZeroCodec(foo) && st == InitialState(cfg) && 2 <= j <= 4
    ensures Raw(cfg, MarshalIn(cfg, st, 0), j) == if j == 2 then 601 else if j == 3 then 42 else 0
  {
    MuxNetValid(foo, bar);
    MuxDisjoint(foo, bar);
    InitialEncoded(cfg, st.sv, foo, bar);
    MarshalledRaw(cfg, st, 0, j);
  }

  lemma RawAt(cfg: Config, st: State, foo: Codec, bar: Codec, j: nat)
    requires cfg == MuxNet(foo, bar) && cfg.Valid() && st.Shape(cfg) && j < 8
    ensures Raw(cfg, st, j) == Peek(st.msgs[PlaceOf(j).0].buffer, PlaceOf(j).1, PlaceOf(j).2)
  {
    ItemPlace(foo, bar, j);
  }

  lemma RawBytes(cfg: Config, st: State, b: seq<byte>, foo: Codec, bar: Codec)
    requires cfg == MuxNet(foo, bar) && cfg.Valid() && st.Shape(cfg) && b == st.msgs[1].buffer && |b| == 24
    ensures Raw(cfg, st, 2) == LeValue(b[0..4]) && Raw(cfg, st, 3) == LeValue(b[4..5]) && Raw(cfg, st, 4) == LeValue(b[8..16])
  {
    RawAt(cfg, st, foo, bar, 2);
    RawAt(cfg, st, foo, bar, 3);
    RawAt(cfg, st, foo, bar, 4);
  }

  lemma CreatedBytes(cfg: Config, st: State, init: State, b: seq<byte>, foo: Codec, bar: Codec)
    requires cfg == MuxNet(foo, bar) && cfg.Valid() && ZeroCodec(foo) && st == CreatedNet(cfg) && init == InitialState(cfg)
    requires b == st.msgs[1].buffer
    ensures |b| == 24 && b[0] == 0x59 && b[1] == 2 && b[2] == 0 && b[3] == 0 && b[4] == 42
    ensures forall k :: 8 <= k < 16 ==> b[k] == 0
  {
    CreatedMessage(cfg, 1);
    var m := MarshalIn(cfg, init, 0);
    assert b == m.msgs[1].buffer;
    CreatedRaw(cfg, init, foo, bar, 2);
    CreatedRaw(cfg, init, foo, bar, 3);
    CreatedRaw(cfg, init, foo, bar, 4);
    RawBytes(cfg, m, b, foo, bar);
    MemberBytes(b);
  }

  /** foo_double = 2.0: the exponent in the highest byte. */
  function TwoData(): seq<byte> {
    [0x59, 2, 0, 42, 0, 0, 0, 0, 0, 0, 0, 0x40]
  }

  predicate Two(data: seq<byte>) {
    && |data| == 12 && data[0] == 0x59 && data[1] == 2 && data[2] == 0 && data[3] == 42 && data[11] == 0x40
    && forall k :: 4 <= k < 11 ==> data[k] == 0
  }

  lemma TwoIs()
    ensures Two(TwoData())
  {
  }

  lemma UnpackedAt(b: seq<byte>, data: seq<byte>, k: nat)
    requires |b| == 24 && |data| >= 12 && IdOf(data) == 601 && k < 24
    ensures UnpackMux(b, data).buffer[k] ==
      if k < 3 then data[k]
      else if k == 3 then 0
      else if k == 4 then data[3]
      else if 8 <= k < 16 then data[k - 4]
      else b[k]
  {
  }

  lemma TwoUnpacked(b: seq<byte>, data: seq<byte>, v: seq<byte>)
    requires |b| == 24 && b[0] == 0x59 && b[1] == 2 && b[2] == 0 && b[3] == 0 && b[4] == 42
    requires (forall k :: 8 <= k < 16 ==> b[k] == 0) && Two(data) && v == b[15 := 0x40]
    ensures IdOf(data) == 601 && UnpackMux(b, data).buffer == v && Hash(v) != Hash(b)
  {
    var u := UnpackMux(b, data).buffer;
    forall k | 0 <= k < 24
      ensures u[k] == v[k]
    {
      UnpackedAt(b, data, k);
    }
    OneByteChangeDetected(b, 15, 0x40);
  }

  lemma TwoValue(data: seq<byte>)
    requires data == TwoData()
    ensures LeValue(data[4..12]) == 0x4000_0000_0000_0000
  {
    var s := data[4..12];
    LeValueConcat(s[..4], s[4..]);
    assert s == s[..4] + s[4..];
    FourBytes(s[..4]);
    FourBytes(s[4..]);
    Pow256Values();
  }

  /** The state after creation, as far as mux_message_601 is concerned. */
  ghost predicate HoldsZero(cfg: Config, st: State, b: seq<byte>) {
    && |st.msgs| == 3 && st.msgs[1].buffer == b && st.msgs[1].checksum == Hash(b)
    && |b| == 24 && b[0] == 0x59 && b[1] == 2 && b[2] == 0 && b[3] == 0 && b[4] == 42
    && forall k :: 8 <= k < 16 ==> b[k] == 0
  }

  lemma CreatedHolds(cfg: Config, st: State, b: seq<byte>, foo: Codec, bar: Codec)
    requires cfg == MuxNet(foo, bar) && cfg.Valid() && ZeroCodec(foo) && st == CreatedNet(cfg) && b == st.msgs[1].buffer
    ensures Boundary(cfg, st) && HoldsZero(cfg, st, b)
  {
    CreateBoundary(cfg);
    CreatedBytes(cfg, st, InitialState(cfg), b, foo, bar);
    assert Quiet(cfg.defs[1], st.msgs[1]);
  }

  lemma TwoShown(mc: ModelCfg, ms: ModelState, x: Input, frame: Frame, foo: Codec, bar: Codec, b: seq<byte>)
    requires mc == MuxChannel(foo, bar) && Ready(mc, ms, x) && ZeroCodec(foo) && Boundary(mc.net, ms.st)
    requires HoldsZero(mc.net, ms.st, b) && Only(x.frames, frame) && frame.frameId == 600 && frame.data == TwoData()
    ensures Step(mc, ms, x).scalars[0] == foo.decode(0x4000_0000_0000_0000)
  {
    TwoIs();
    TwoUnpacked(b, frame.data, b[15 := 0x40]);
    TwoValue(frame.data);
    FooArrives(mc, ms, x, frame, foo, bar, b[15 := 0x40], 0, 0x4000_0000_0000_0000);
  }

  lemma FirstFooFrom(mc: ModelCfg, scalars: seq<real>, ms: ModelState, x: Input, frame: Frame, foo: Codec, bar: Codec)
    requires mc == MuxChannel(foo, bar) && mc.Valid() && |scalars| == |x.scalars| == 2 && ZeroCodec(foo)
    requires ms == Create(mc, scalars)
    requires Only(x.frames, frame) && frame.frameId == 600 && frame.data == TwoData()
    ensures Ready(mc, ms, x) && Step(mc, ms, x).scalars[0] == foo.decode(0x4000_0000_0000_0000)
  {
    CreatedHolds(mc.net, ms.st, ms.st.msgs[1].buffer, foo, bar);
    TwoShown(mc, ms, x, frame, foo, bar, ms.st.msgs[1].buffer);
  }

  /** In the first step after creation a frame with the header 601 and the bits of 2.0 arrives: foo_double is 2.0. */
  lemma FirstFoo(mc: ModelCfg, scalars: seq<real>, x: Input, frame: Frame, foo: Codec, bar: Codec)
    requires mc == MuxChannel(foo, bar) && |scalars| == |x.scalars| == 2 && ZeroCodec(foo)
    requires x.frames == [frame] && frame == Frame(600, 1, TwoData())
    ensures mc.Valid() && Ready(mc, Create(mc, scalars), x)
    ensures Step(mc, Create(mc, scalars), x).scalars[0] == foo.decode(0x4000_0000_0000_0000)
  {
    MuxNetValid(foo, bar);
    Single(frame);
    FirstFooFrom(mc, scalars, Create(mc, scalars), x, frame, foo, bar);
  }
}
