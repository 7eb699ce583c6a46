/** From the channel of one model to that of another: a frame that one network writes, received by a second one. */
module Delivery {
  import opened Bytes
  import opened Fnv
  import opened Net
  import opened Engine
  import opened Encoder
  import opened Functions
  import opened Marshalling
  import opened Reception
  import opened Model
  import opened Pipeline
  import opened Example
  import Crc

  // ---- The receiver ----

  /** Nothing that message m holds is rewritten in this step: it has no encode functions, or it is not sent. */
  ghost predicate StaysAccepted(mc: ModelCfg, ms: ModelState, x: Input, m: nat)
    requires Ready(mc, ms, x) && m < |mc.net.defs|
  {
    mc.net.defs[m].encodeFuncs == [] || (mc.net.defs[m].OnChange() && AllSurvive(mc.net, Accepted(mc, ms, x), m))
  }

  /** Message m has taken v from the bus, it counts as new, and the decode functions accept it. */
  ghost predicate TakesIn(mc: ModelCfg, ms: ModelState, x: Input, m: nat, v: seq<byte>)
    requires Ready(mc, ms, x) && m < |mc.net.defs|
  {
    && Received(mc, ms, x).msgs[m].buffer == v && Received(mc, ms, x).msgs[m].update
    && RunDecode(mc.net.defs[m].decodeFuncs, 0, true, ms.st.msgs[m].payload).0
  }

  /** The frame is one of message m, which unpacks it to v; v is not what was in the buffer, as far as the stored hash can
    * tell, and the decode functions accept it. */
  ghost predicate Brings(def: MessageDef, m: MsgState, frame: Frame, v: seq<byte>) {
    && frame.frameId == def.frameId
    && def.unpack(m.buffer, frame.data) == Unpacked(0, v)
    && Hash(v) != m.checksum
    && RunDecode(def.decodeFuncs, 0, true, m.payload).0
  }

  /** Such a frame is taken in, wherever it stands among frames with other ids, by a plain message or by a container. */
  lemma FrameTaken(mc: ModelCfg, ms: ModelState, x: Input, m: nat, frame: Frame, v: seq<byte>)
    requires Ready(mc, ms, x) && Lawful(mc.net) && First(mc.net, m)
    requires Only(x.frames, frame) && Brings(mc.net.defs[m], ms.st.msgs[m], frame, v)
    ensures TakesIn(mc, ms, x, m, v)
  {
    OneTaken(mc.net, Loaded(mc, ms, x), m, x.frames, frame, v);
  }

  /** By a contained message it is, if it is the only one that the container dispatches to it. */
  lemma DispatchedTaken(mc: ModelCfg, ms: ModelState, x: Input, c: nat, m: nat, frame: Frame, v: seq<byte>)
    requires Ready(mc, ms, x) && Lawful(mc.net) && First(mc.net, c) && mc.net.mux[c].Some?
    requires m < |mc.net.defs| && m != c && mc.net.defs[m].frameId == mc.net.defs[c].frameId
    requires Dispatched(mc.net, c, m, HeaderOf(mc.net, Loaded(mc, ms, x), c), x.frames) == [frame]
    requires Brings(mc.net.defs[m], ms.st.msgs[m], frame, v)
    ensures TakesIn(mc, ms, x, m, v)
  {
    assert OnlyAt([frame], frame.frameId, 0);
    OneContent(mc.net.defs[m], ms.st.msgs[m].buffer, [frame], 0, v);
    BatchDispatch(mc.net, Loaded(mc, ms, x), c, m, x.frames);
  }

  /** Does the buffer v hold, for item j, a value that its signal can take? */
  predicate Shows(it: Item, v: seq<byte>) {
    !it.signal.memberType.Unknown? && it.signal.codec.inRange(Peek(v, it.At(), it.Width()))
  }

  /** Channel signal i shows item j of message m. */
  ghost predicate Mapped(mc: ModelCfg, m: nat, j: nat, i: nat) {
    && j < |mc.net.items| && mc.net.items[j].msg == m
    && i < |mc.srMap| && mc.srMap[i] == Some(j)
  }

  /** What is taken in ends on the channel. */
  lemma TakenShown(mc: ModelCfg, ms: ModelState, x: Input, m: nat, v: seq<byte>, j: nat, i: nat)
    requires Ready(mc, ms, x) && Lawful(mc.net) && Boundary(mc.net, ms.st) && m < |mc.net.defs|
    requires TakesIn(mc, ms, x, m, v) && StaysAccepted(mc, ms, x, m)
    requires Mapped(mc, m, j, i) && Shows(mc.net.items[j], v)
    ensures var it := mc.net.items[j];
      Step(mc, ms, x).scalars[i] == it.signal.codec.decode(Peek(v, it.At(), it.Width()))
  {
    VerdictIgnoresFrames(mc, ms, x, m);
    AcceptedItem(mc, ms, x, j);
    if mc.net.defs[m].encodeFuncs == [] {
      NotRewritten(mc, ms, x, m);
    } else {
      NoEcho(mc, ms, x, m);
    }
    FinalValue(mc, ms, x, j);
  }

  /** So does what a single frame of the message holds. */
  lemma FrameArrives(mc: ModelCfg, ms: ModelState, x: Input, m: nat, frame: Frame, v: seq<byte>, j: nat, i: nat)
    requires Ready(mc, ms, x) && Lawful(mc.net) && Boundary(mc.net, ms.st) && First(mc.net, m)
    requires Only(x.frames, frame) && Brings(mc.net.defs[m], ms.st.msgs[m], frame, v)
    requires StaysAccepted(mc, ms, x, m) && Mapped(mc, m, j, i) && Shows(mc.net.items[j], v)
    ensures var it := mc.net.items[j];
      Step(mc, ms, x).scalars[i] == it.signal.codec.decode(Peek(v, it.At(), it.Width()))
  {
    FrameTaken(mc, ms, x, m, frame, v);
    TakenShown(mc, ms, x, m, v, j, i);
  }

  // ---- The sender ----

  /** No channel signal from i on maps to j. */
  predicate Unmapped(srMap: seq<Option<nat>>, i: nat, j: nat) {
    forall k :: i <= k < |srMap| ==> srMap[k] != Some(j)
  }

  /** A network signal takes the value of the last channel signal that maps to it. */
  lemma {:induction false} LastLoaded(srMap: seq<Option<nat>>, scalars: seq<real>, sv: seq<real>, i: nat, k: nat, j: nat)
    requires |scalars| == |srMap| && i <= k < |srMap| && srMap[k] == Some(j) && Unmapped(srMap, k + 1, j)
    requires forall k :: 0 <= k < |srMap| && srMap[k].Some? ==> srMap[k].value < |sv|
    ensures Load(srMap, scalars, sv, i)[j] == scalars[k]
    decreases |srMap| - i
  {
    var next := if srMap[i].Some? then sv[srMap[i].value := scalars[i]] else sv;
    if i == k {
      LoadKeeps(srMap, scalars, next, i + 1, j);
    } else {
      LastLoaded(srMap, scalars, next, i + 1, k, j);
    }
  }

  /** The bits that the value v puts into the member of an item. */
  function Sending(it: Item, v: real): nat {
    Cast(it.signal.memberType, it.signal.codec.encode(v))
  }

  /** Channel signal i is the last that maps to item j, and it puts these bits, in range, into the member. */
  ghost predicate Sends(mc: ModelCfg, x: Input, m: nat, j: nat, i: nat, raw: nat)
    requires |x.scalars| == |mc.srMap|
  {
    && m < |mc.net.defs| && Mapped(mc, m, j, i) && Unmapped(mc.srMap, i + 1, j)
    && var it := mc.net.items[j];
       && !(it.signal.internal && mc.net.defs[m].contained) && !it.signal.memberType.Unknown?
       && raw == Sending(it, x.scalars[i]) && it.signal.codec.inRange(raw)
  }

  /** In a step in which nothing received reaches its message, the member holds what the channel is encoded to. */
  lemma Marshals(mc: ModelCfg, ms: ModelState, x: Input, m: nat, j: nat, i: nat, raw: nat)
    requires Ready(mc, ms, x) && Lawful(mc.net) && ms.st.Sized(mc.net) && mc.net.Fits() && mc.net.Disjoint()
    requires Sends(mc, x, m, j, i, raw) && Unheard(mc, ms, x, m)
    ensures Raw(mc.net, Marshalled(mc, ms, x), j) == raw
  {
    RejectedItem(mc, ms, x, j);
    LastLoaded(mc.srMap, x.scalars, ms.st.sv, 0, i, j);
    TickedSized(mc, ms, x);
    MarshalledRaw(mc.net, Ticked(mc, ms, x).1, 0, j);
  }

  // ---- Both ----

  /** Message m is sent in this step, with raw in the member of item j, put there by channel signal i. */
  ghost predicate Emits(mc: ModelCfg, ms: ModelState, x: Input, m: nat, j: nat, i: nat, raw: nat) {
    && Ready(mc, ms, x) && Lawful(mc.net) && Boundary(mc.net, ms.st) && mc.net.Fits() && mc.net.Disjoint()
    && Sends(mc, x, m, j, i, raw) && Unheard(mc, ms, x, m) && Sent(mc, ms, x, m)
  }

  /** v holds, at the place of item it, what the member of item j holds here: the member has come through packing, the
    * encode functions and unpacking as it was. */
  ghost predicate Carried(cfg: Config, st: State, j: nat, it: Item, v: seq<byte>)
    requires cfg.Valid() && st.Shape(cfg) && j < |cfg.items|
  {
    Peek(v, it.At(), it.Width()) == Raw(cfg, st, j)
  }

  lemma CarriedRaw(mc: ModelCfg, ms: ModelState, x: Input, m: nat, j: nat, i: nat, raw: nat, it: Item, v: seq<byte>)
    requires Emits(mc, ms, x, m, j, i, raw) && Carried(mc.net, Marshalled(mc, ms, x), j, it, v)
    ensures Peek(v, it.At(), it.Width()) == raw
  {
    Marshals(mc, ms, x, m, j, i, raw);
  }

  /** A value on the channel of model a, in a step in which its message is sent, ends on the channel of model b as the two
    * codecs make of it. In its step, b may receive other frames before and after this one, and write what it likes. */
  lemma Delivered(
    a: ModelCfg, sa: ModelState, xa: Input, m: nat, j: nat, ia: nat, raw: nat,
    b: ModelCfg, sb: ModelState, xb: Input, n: nat, k: nat, ib: nat, frame: Frame, v: seq<byte>)
    requires Emits(a, sa, xa, m, j, ia, raw)
    requires Ready(b, sb, xb) && Lawful(b.net) && Boundary(b.net, sb.st) && First(b.net, n)
    requires Only(xb.frames, frame) && frame == FrameOf(a.net.defs[m], Outgoing(a, sa, xa).msgs[m])
    requires Brings(b.net.defs[n], sb.st.msgs[n], frame, v) && StaysAccepted(b, sb, xb, n)
    requires Mapped(b, n, k, ib) && Shows(b.net.items[k], v)
    requires Carried(a.net, Marshalled(a, sa, xa), j, b.net.items[k], v)
    ensures Step(b, sb, xb).scalars[ib] == b.net.items[k].signal.codec.decode(raw)
  {
    CarriedRaw(a, sa, xa, m, j, ia, raw, b.net.items[k], v);
    FrameArrives(b, sb, xb, n, frame, v, k, ib);
  }

  /** No other message sent in this step has the frame id of m. */
  ghost predicate OwnId(mc: ModelCfg, ms: ModelState, x: Input, m: nat)
    requires Ready(mc, ms, x) && m < |mc.net.defs|
  {
    forall i :: 0 <= i < |mc.net.defs| && i != m && Sent(mc, ms, x, i) ==> mc.net.defs[i].frameId != mc.net.defs[m].frameId
  }

  /** Then its frame is the only one with this id among those written. */
  lemma OutputOnly(mc: ModelCfg, ms: ModelState, x: Input, m: nat)
    requires Ready(mc, ms, x) && Sent(mc, ms, x, m) && OwnId(mc, ms, x, m)
    ensures Only(Output(mc, ms, x), FrameOf(mc.net.defs[m], Outgoing(mc, ms, x).msgs[m]))
  {
    var out, sent := Output(mc, ms, x), Pending(Outgoing(mc, ms, x).msgs, |mc.net.defs|);
    OutputOfSent(mc, ms, x);
    var p :| 0 <= p < |sent| && sent[p] == m;
    forall i | 0 <= i < |sent| && i != p
      ensures out[i].frameId != mc.net.defs[m].frameId
    {
      assert Sent(mc, ms, x, sent[i]);
    }
    assert OnlyAt(out, mc.net.defs[m].frameId, p);
  }

  /** So it does if b receives all that a writes in a step, in which no other message has that frame id. */
  lemma OutputDelivered(
    a: ModelCfg, sa: ModelState, xa: Input, m: nat, j: nat, ia: nat, raw: nat,
    b: ModelCfg, sb: ModelState, xb: Input, n: nat, k: nat, ib: nat, frame: Frame, v: seq<byte>)
    requires Emits(a, sa, xa, m, j, ia, raw) && OwnId(a, sa, xa, m)
    requires Ready(b, sb, xb) && Lawful(b.net) && Boundary(b.net, sb.st) && First(b.net, n)
    requires xb.frames == Output(a, sa, xa) && frame == FrameOf(a.net.defs[m], Outgoing(a, sa, xa).msgs[m])
    requires Brings(b.net.defs[n], sb.st.msgs[n], frame, v) && StaysAccepted(b, sb, xb, n)
    requires Mapped(b, n, k, ib) && Shows(b.net.items[k], v)
    requires Carried(a.net, Marshalled(a, sa, xa), j, b.net.items[k], v)
    ensures Step(b, sb, xb).scalars[ib] == b.net.items[k].signal.codec.decode(raw)
  {
    OutputOnly(a, sa, xa, m);
    Delivered(a, sa, xa, m, j, ia, raw, b, sb, xb, n, k, ib, frame, v);
  }

  // ---- Two models with the one-message network ----

  /** The frame that such a model sends. */
  lemma ExampleFrame(mc: ModelCfg, ms: ModelState, x: Input)
    requires mc.net == OneMessage() && Ready(mc, ms, x) && Boundary(mc.net, ms.st) && |ms.st.msgs[0].payload| == 8
    requires Sent(mc, ms, x, 0)
    ensures var s, d := Marshalled(mc, ms, x).msgs[0], FrameOf(FunctionExample(), Outgoing(mc, ms, x).msgs[0]).data;
      |s.buffer| == 4 && |d| == 8 && d[2] == s.buffer[2] && d[3] == s.buffer[3]
  {
    var s := Marshalled(mc, ms, x).msgs[0];
    LoadedLawful();
    BeforeMarshal(mc, ms, x, 0);
    PayloadKept(mc, ms, x);
    SentContent(mc, ms, x, 0);
    EncodedPayload(PackBytes(s.payload, s.buffer));
    AnswerIs(s);
  }

  /** It is what the other one takes in, and keeps. */
  lemma ExampleReceives(mc: ModelCfg, ms: ModelState, x: Input, frame: Frame, v: seq<byte>)
    requires mc.net == OneMessage() && Ready(mc, ms, x) && Boundary(mc.net, ms.st) && |ms.st.msgs[0].payload| > 0
    requires frame.frameId == 0x1f2 && |frame.data| == 8 && v == frame.data[..4]
    requires Hash(v) != ms.st.msgs[0].checksum && Crc.Validates(ms.st.msgs[0].payload, 0)
    ensures First(mc.net, 0) && Brings(mc.net.defs[0], ms.st.msgs[0], frame, v) && StaysAccepted(mc, ms, x, 0)
  {
    assert frame.data[..4] + ms.st.msgs[0].buffer[4..] == frame.data[..4];
    CheckVerdict(ms.st.msgs[0].payload);
    ExampleStays(mc, ms, x);
  }

  /** Bytes 2 and 3 come through. */
  lemma ExampleCarried(cfg: Config, st: State, j: nat, v: seq<byte>)
    requires cfg == OneMessage() && cfg.Valid() && st.Shape(cfg) && |st.msgs[0].buffer| == |v| == 4
    requires 2 <= j < 4 && v[j] == st.msgs[0].buffer[j]
    ensures Shows(cfg.items[j], v) && Carried(cfg, st, j, cfg.items[j], v)
  {
    var t := st.(msgs := [st.msgs[0].(buffer := v)]);
    ByteItem(cfg, st, j);
    ByteItem(cfg, t, j);
    assert Raw(cfg, t, j) == Peek(v, cfg.items[j].At(), cfg.items[j].Width());
  }

  lemma ExampleStays(mc: ModelCfg, ms: ModelState, x: Input)
    requires mc.net == OneMessage() && Ready(mc, ms, x)
    ensures StaysAccepted(mc, ms, x, 0)
  {
    LoadedLawful();
    forall j | 0 <= j < |mc.net.items|
      ensures Survives(mc.net, Accepted(mc, ms, x), j)
    {
      AlwaysSurvives(Accepted(mc, ms, x), j);
    }
  }

  lemma ExampleSending(mc: ModelCfg, x: Input, j: nat, i: nat, raw: nat)
    requires mc.net == OneMessage() && mc.Valid() && |x.scalars| == |mc.srMap| && j < 4
    requires Mapped(mc, 0, j, i) && Unmapped(mc.srMap, i + 1, j) && raw == Truncate(x.scalars[i]) % 256
    ensures Sends(mc, x, 0, j, i, raw) && mc.net.items[j].signal.codec.decode(raw) == raw as real
  {
    Pow256Values();
  }

  lemma LoadedAll(cfg: Config)
    requires cfg == OneMessage()
    ensures cfg.Valid() && cfg.Fits() && cfg.Disjoint() && Lawful(cfg)
  {
    LoadedValid();
    LoadedDisjoint();
    LoadedLawful();
  }

  /** foo and bar, whatever the one model writes, end on the channel of the other as bytes, counter and checksum
    * notwithstanding, if the frame is new to it and the payload that it packed last validates. */
  lemma ExampleDelivered(
    a: ModelCfg, sa: ModelState, xa: Input, b: ModelCfg, sb: ModelState, xb: Input, j: nat, i: nat, k: nat,
    frame: Frame, v: seq<byte>, raw: nat)
    requires a.net == b.net == OneMessage() && 2 <= j < 4
    requires Ready(a, sa, xa) && Boundary(a.net, sa.st) && |sa.st.msgs[0].payload| == 8
    requires Ready(b, sb, xb) && Boundary(b.net, sb.st) && |sb.st.msgs[0].payload| > 0
    requires Unheard(a, sa, xa, 0) && Mapped(a, 0, j, i) && Unmapped(a.srMap, i + 1, j) && Sent(a, sa, xa, 0)
    requires frame == FrameOf(FunctionExample(), Outgoing(a, sa, xa).msgs[0]) && |frame.data| >= 4
    requires Only(xb.frames, frame) && Mapped(b, 0, j, k)
    requires v == frame.data[..4] && Hash(v) != sb.st.msgs[0].checksum && Crc.Validates(sb.st.msgs[0].payload, 0)
    requires raw == Truncate(xa.scalars[i]) % 256
    ensures Step(b, sb, xb).scalars[k] == raw as real
  {
    LoadedAll(a.net);
    ExampleFrame(a, sa, xa);
    ExampleReceives(b, sb, xb, frame, v);
    ExampleCarried(a.net, Marshalled(a, sa, xa), j, v);
    ExampleSending(a, xa, j, i, raw);
    Delivered(a, sa, xa, 0, j, i, raw, b, sb, xb, 0, j, k, frame, v);
  }
}
