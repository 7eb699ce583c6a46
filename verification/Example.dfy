/** A network of one message, function_example, whose encode functions count and add a checksum
  * (tests/cmocka/mstep/network_mstep.yaml): it meets every hypothesis of the pipeline theorems. */
module Example {
  import opened Bytes
  import opened Fnv
  import opened Net
  import opened Engine
  import opened Functions
  import opened Marshalling
  import opened Codecs
  import opened Model
  import opened Pipeline
  import opened Reception
  import Crc

  function ByteSignal(name: string, offset: nat): Signal {
    Signal(name, name, U8, offset, 0.0, false, 0.0, false, WholeUnsigned(0, 255))
  }

  function PackBytes(payload: seq<byte>, buffer: seq<byte>): (r: seq<byte>)
    ensures |r| == |payload|
  {
    if |payload| < 8 || |buffer| < 4 then payload else buffer[..4] + Zeros(4) + payload[8..]
  }

  function UnpackBytes(buffer: seq<byte>, data: seq<byte>): (r: Unpacked)
    ensures |r.buffer| == |buffer| && (r.rc != 0 ==> r.buffer == buffer)
  {
    if |data| < 8 || |buffer| < 4 then Unpacked(-22, buffer) else Unpacked(0, data[..4] + buffer[4..])
  }

  function Count(p: seq<byte>): (r: seq<byte>)
    ensures |r| == |p|
  {
    if |p| > 1 then Crc.Counted(p, 1) else p
  }

  function Sum(p: seq<byte>): (r: seq<byte>)
    ensures |r| == |p|
  {
    if |p| > 0 then Crc.Generated(p, 0) else p
  }

  function Check(p: seq<byte>): (Verdict, seq<byte>) {
    (if |p| > 0 && !Crc.Validates(p, 0) then BadMsg else Good, p)
  }

  function FunctionExample(): MessageDef {
    MessageDef(0x1f2, 2, false, 0, 4, 8, 0,
               [ByteSignal("crc", 0), ByteSignal("alive", 1), ByteSignal("foo", 2), ByteSignal("bar", 3)],
               Some(PackBytes), UnpackBytes, [Count, Sum], [Check])
  }

  function Items(): seq<Item> {
    var s := FunctionExample().signals;
    [Item(0, s[0], 0), Item(0, s[1], 1), Item(0, s[2], 2), Item(0, s[3], 3)]
  }

  function OneMessage(): Config {
    Config([FunctionExample()], Items(), [None])
  }

  lemma LoadedValid()
    ensures OneMessage().Valid() && OneMessage().Fits()
  {
  }

  lemma LoadedDisjoint()
    ensures OneMessage().Disjoint()
  {
    assert forall k :: 0 <= k < 4 ==> Items()[k].At() == k && Items()[k].Width() == 1;
  }

  lemma LoadedLawful()
    ensures Lawful(OneMessage()) && FunctionExample().OnChange()
  {
  }

  /** Each item is one byte of the buffer, and every byte is in range. */
  lemma ByteItem(cfg: Config, st: State, j: nat)
    requires cfg.Valid() && cfg.items == Items() && st.Shape(cfg) && j < 4
    requires |cfg.defs| == 1 && |st.msgs[0].buffer| == 4
    ensures Raw(cfg, st, j) == st.msgs[0].buffer[j]
    ensures Readable(cfg, st, j) && Decoded(cfg, st, j) == st.msgs[0].buffer[j] as real
  {
    var s := st.msgs[0].buffer[j..j + 1];
    assert LeValue(s) == s[0] + 256 * LeValue(s[1..]);
  }

  /** Every byte survives. */
  lemma AlwaysSurvives(st: State, j: nat)
    requires OneMessage().Valid() && st.Shape(OneMessage()) && j < 4
    ensures Survives(OneMessage(), st, j)
  {
    var it := OneMessage().items[j];
    Pow256Values();
    assert it.signal.memberType == U8 && it.signal.codec == WholeUnsigned(0, 255);
    UnsignedRoundTrips(it, 0, 255, Raw(OneMessage(), st, j));
    RoundTripSurvives(OneMessage(), st, j);
  }

  /** After any step, counted and summed payload or not, the network is silent until somebody acts. */
  lemma ExampleSilent(mc: ModelCfg, ms: ModelState, x: Input, xs: seq<Input>)
    requires mc.net == OneMessage() && Ready(mc, ms, x) && Boundary(mc.net, ms.st)
    requires forall i :: 0 <= i < |xs| ==> |xs[i].scalars| == |mc.srMap|
    ensures Silent(mc, Step(mc, ms, x), xs)
  {
    LoadedValid();
    LoadedDisjoint();
    LoadedLawful();
    forall j | 0 <= j < |mc.net.items|
      ensures Survives(mc.net, Outgoing(mc, ms, x), j)
    {
      AlwaysSurvives(Outgoing(mc, ms, x), j);
    }
    Quiescence(mc, ms, x, xs);
  }

  /** No received frame is sent back while its payload is accepted. */
  lemma ExampleNoEcho(mc: ModelCfg, ms: ModelState, x: Input)
    requires mc.net == OneMessage() && Ready(mc, ms, x) && Boundary(mc.net, ms.st)
    ensures Accepted(mc, ms, x).msgs[0].update ==> !Sent(mc, ms, x, 0)
  {
    LoadedLawful();
    if Accepted(mc, ms, x).msgs[0].update {
      forall j | 0 <= j < |mc.net.items|
        ensures Survives(mc.net, Accepted(mc, ms, x), j)
      {
        AlwaysSurvives(Accepted(mc, ms, x), j);
      }
      NoEcho(mc, ms, x, 0);
    }
  }

  // ---- What the checksum of a received frame decides: nothing ----

  /** A frame that brings something new is accepted if and only if the payload that was packed last validates. */
  lemma AcceptedIff(mc: ModelCfg, ms: ModelState, x: Input, frame: Frame)
    requires mc.net == OneMessage() && Ready(mc, ms, x) && Boundary(mc.net, ms.st) && |ms.st.msgs[0].payload| > 0
    requires Only(x.frames, frame) && frame.frameId == 0x1f2 && |frame.data| >= 8
    requires Hash(frame.data[..4]) != Hash(ms.st.msgs[0].buffer)
    ensures Received(mc, ms, x).msgs[0].buffer == frame.data[..4]
    ensures Accepted(mc, ms, x).msgs[0].update <==> Crc.Validates(ms.st.msgs[0].payload, 0)
  {
    LoadedLawful();
    assert frame.data[..4] + ms.st.msgs[0].buffer[4..] == frame.data[..4];
    OneTaken(mc.net, Loaded(mc, ms, x), 0, x.frames, frame, frame.data[..4]);
    VerdictIgnoresFrames(mc, ms, x, 0);
    CheckVerdict(ms.st.msgs[0].payload);
  }

  lemma CheckVerdict(p: seq<byte>)
    requires |p| > 0
    ensures RunDecode(FunctionExample().decodeFuncs, 0, true, p).0 <==> Crc.Validates(p, 0)
  {
  }

  /** So, whatever its own checksum is, the frame then ends on the channel, signal by signal. */
  lemma FrameShown(mc: ModelCfg, ms: ModelState, x: Input, frame: Frame, i: nat, j: nat)
    requires mc.net == OneMessage() && Ready(mc, ms, x) && Boundary(mc.net, ms.st) && |ms.st.msgs[0].payload| > 0
    requires Only(x.frames, frame) && frame.frameId == 0x1f2 && |frame.data| >= 8
    requires Hash(frame.data[..4]) != Hash(ms.st.msgs[0].buffer)
    requires Crc.Validates(ms.st.msgs[0].payload, 0)
    requires i < |mc.srMap| && mc.srMap[i] == Some(j) && j < 4
    ensures Step(mc, ms, x).scalars[i] == frame.data[j] as real && !Sent(mc, ms, x, 0)
  {
    LoadedLawful();
    AcceptedIff(mc, ms, x, frame);
    var a := Accepted(mc, ms, x);
    assert a.msgs[0].buffer == frame.data[..4];
    forall j | 0 <= j < |mc.net.items|
      ensures Survives(mc.net, a, j)
    {
      AlwaysSurvives(a, j);
    }
    ByteItem(mc.net, a, j);
    NoEcho(mc, ms, x, 0);
    NoEchoSignal(mc, ms, x, 0, i);
  }

  /** Every value writes: whatever the conversion leaves fits a byte. */
  lemma AlwaysWrites(cfg: Config, sv: seq<real>, j: nat)
    requires cfg.Valid() && cfg.items == Items() && |sv| == 4 && j < 4
    ensures Writes(cfg, sv, j)
  {
    Pow256Values();
  }

  /** A rejected frame is answered with the old bytes at once, if the network is on. */
  lemma RejectedAnswered(mc: ModelCfg, ms: ModelState, x: Input, frame: Frame)
    requires mc.net == OneMessage() && Ready(mc, ms, x) && Boundary(mc.net, ms.st) && |ms.st.msgs[0].payload| > 0
    requires Settled(mc.net, ms.st) && InStep(mc, ms) && Unwritten(mc, ms, x)
    requires Only(x.frames, frame) && frame.frameId == 0x1f2 && |frame.data| >= 8
    requires Hash(frame.data[..4]) != Hash(ms.st.msgs[0].buffer)
    requires !Crc.Validates(ms.st.msgs[0].payload, 0)
    ensures Marshalled(mc, ms, x).msgs[0].buffer == ms.st.msgs[0].buffer
    ensures Sent(mc, ms, x, 0) <==> !NetOff(mc, x)
  {
    LoadedValid();
    LoadedDisjoint();
    LoadedLawful();
    AcceptedIff(mc, ms, x, frame);
    RejectedFrameAnswered(mc, ms, x, 0);
    BeforeMarshal(mc, ms, x, 0);
    forall j | 0 <= j < 4
      ensures Writes(mc.net, ms.st.sv, j)
    {
      AlwaysWrites(mc.net, ms.st.sv, j);
    }
    SameBytes(mc.net, Marshalled(mc, ms, x), ms.st);
  }

  /** What is sent in answer to a rejected frame: the old bytes, packed again, counted and summed. */
  function Answer(m: MsgState): seq<byte> {
    Sum(Count(PackBytes(m.payload, m.buffer)))
  }

  /** The hash tells the answer from what it was made of. */
  predicate Rewritten(m: MsgState) {
    Hash(Answer(m)) != Hash(PackBytes(m.payload, m.buffer))
  }

  /** What the encode functions make of the message then. */
  lemma AnswerEncoded(m: MsgState)
    requires |m.buffer| == 4 && |m.payload| == 8 && !m.update && Hash(m.buffer) != m.checksum
    ensures |Answer(m)| == 8
    ensures var o := EncodeMsg(FunctionExample(), PackMsg(FunctionExample(), m), false);
      o.update == Rewritten(m) && (o.update ==> o.buffer == Answer(m)[..4])
  {
    var p := PackBytes(m.payload, m.buffer);
    EncodedPayload(p);
    assert Answer(m)[..4] + m.buffer[4..] == Answer(m)[..4];
  }

  /** Reception and the decode function leave the payload alone. */
  lemma PayloadKept(mc: ModelCfg, ms: ModelState, x: Input)
    requires mc.net == OneMessage() && Ready(mc, ms, x)
    ensures Marshalled(mc, ms, x).msgs[0].payload == ms.st.msgs[0].payload
  {
    LoadedLawful();
    ReceiveKeeps(mc.net, Loaded(mc, ms, x), x.frames, 0);
    CheckKeeps(Received(mc, ms, x).msgs[0].payload);
    TicksMessage(mc.net, ms.plan, Updated(mc, ms, x).msgs, TickCount(ms, x.time), 0);
  }

  lemma CheckKeeps(p: seq<byte>)
    ensures RunDecode(FunctionExample().decodeFuncs, 0, true, p).1 == p
  {
  }

  /** It counts on from the old alive byte, carries the old foo and bar, and validates. */
  lemma AnswerIs(m: MsgState)
    requires |m.buffer| == 4 && |m.payload| == 8
    ensures |Answer(m)| == 8 && Crc.Validates(Answer(m), 0)
    ensures Answer(m)[1] as int == (m.buffer[1] as int + 1) % 256
    ensures Answer(m)[2] == m.buffer[2] && Answer(m)[3] == m.buffer[3]
  {
    CountedAndSummed(PackBytes(m.payload, m.buffer));
  }

  lemma RejectedMarshalled(mc: ModelCfg, ms: ModelState, x: Input, frame: Frame)
    requires mc.net == OneMessage() && Ready(mc, ms, x) && Boundary(mc.net, ms.st) && |ms.st.msgs[0].payload| == 8
    requires Settled(mc.net, ms.st) && InStep(mc, ms) && Unwritten(mc, ms, x)
    requires Only(x.frames, frame) && frame.frameId == 0x1f2 && |frame.data| >= 8
    requires Hash(frame.data[..4]) != Hash(ms.st.msgs[0].buffer)
    requires !Crc.Validates(ms.st.msgs[0].payload, 0)
    ensures var m, s := ms.st.msgs[0], Marshalled(mc, ms, x).msgs[0];
      s.buffer == m.buffer && s.payload == m.payload && !s.update && Hash(s.buffer) != s.checksum
  {
    LoadedLawful();
    RejectedAnswered(mc, ms, x, frame);
    PayloadKept(mc, ms, x);
    BeforeMarshal(mc, ms, x, 0);
    AcceptedIff(mc, ms, x, frame);
    ReceivedCoherent(mc, ms, x, 0);
  }

  lemma RejectedOutgoing(mc: ModelCfg, ms: ModelState, x: Input, frame: Frame)
    requires mc.net == OneMessage() && Ready(mc, ms, x) && Boundary(mc.net, ms.st) && |ms.st.msgs[0].payload| == 8
    requires Settled(mc.net, ms.st) && InStep(mc, ms) && Unwritten(mc, ms, x)
    requires Only(x.frames, frame) && frame.frameId == 0x1f2 && |frame.data| >= 8
    requires Hash(frame.data[..4]) != Hash(ms.st.msgs[0].buffer)
    requires !Crc.Validates(ms.st.msgs[0].payload, 0)
    ensures var m, o := ms.st.msgs[0], Outgoing(mc, ms, x).msgs[0];
      && (o.update <==> !NetOff(mc, x) && Rewritten(m))
      && |Answer(m)| == 8 && (o.update ==> o.buffer == Answer(m)[..4])
  {
    LoadedLawful();
    RejectedMarshalled(mc, ms, x, frame);
    OutgoingIs(mc, ms, x, 0);
    AnswerEncoded(Marshalled(mc, ms, x).msgs[0]);
    if NetOff(mc, x) {
      NotRewrittenWhileOff(mc, ms, x, 0);
    }
  }

  /** Where the hash tells that the answer was rewritten, the channel shows it, otherwise what it showed before. Nothing of
    * the rejected frame is seen. */
  lemma RejectedShown(mc: ModelCfg, ms: ModelState, x: Input, frame: Frame, i: nat, j: nat)
    requires mc.net == OneMessage() && Ready(mc, ms, x) && Boundary(mc.net, ms.st) && |ms.st.msgs[0].payload| == 8
    requires Settled(mc.net, ms.st) && InStep(mc, ms) && Unwritten(mc, ms, x)
    requires Only(x.frames, frame) && frame.frameId == 0x1f2 && |frame.data| >= 8
    requires Hash(frame.data[..4]) != Hash(ms.st.msgs[0].buffer)
    requires !Crc.Validates(ms.st.msgs[0].payload, 0)
    requires i < |mc.srMap| && mc.srMap[i] == Some(j) && j < 4
    ensures |Answer(ms.st.msgs[0])| == 8
    ensures Step(mc, ms, x).scalars[i] ==
      if !NetOff(mc, x) && Rewritten(ms.st.msgs[0]) then Answer(ms.st.msgs[0])[j] as real else x.scalars[i]
  {
    AcceptedIff(mc, ms, x, frame);
    RejectedOutgoing(mc, ms, x, frame);
    RejectedSignal(mc, ms, x, 0, i);
    if Outgoing(mc, ms, x).msgs[0].update {
      ByteItem(mc.net, Outgoing(mc, ms, x), j);
    }
  }

  lemma SameBytes(cfg: Config, s: State, t: State)
    requires cfg.Valid() && cfg.items == Items() && |cfg.defs| == 1 && s.Shape(cfg) && t.Shape(cfg)
    requires |s.msgs[0].buffer| == |t.msgs[0].buffer| == 4
    requires forall j :: 0 <= j < 4 ==> Raw(cfg, s, j) == Raw(cfg, t, j)
    ensures s.msgs[0].buffer == t.msgs[0].buffer
  {
    forall j | 0 <= j < 4
      ensures s.msgs[0].buffer[j] == t.msgs[0].buffer[j]
    {
      ByteItem(cfg, s, j);
      ByteItem(cfg, t, j);
    }
  }

  /** A byte on the channel, as it is encoded. */
  lemma EncodedByte(cfg: Config, sv: seq<real>, j: nat, b: byte)
    requires cfg.Valid() && cfg.items == Items() && |sv| == 4 && j < 4 && sv[j] == b as real
    ensures Writes(cfg, sv, j) && Encoded(cfg, sv, j) == b
  {
    Pow256Values();
    TruncateWhole(b);
    AlwaysWrites(cfg, sv, j);
  }

  /** Nothing received, and four bytes on the channel: they are the buffer. */
  lemma BufferIs(mc: ModelCfg, ms: ModelState, x: Input, v: seq<byte>)
    requires Ready(mc, ms, x) && Lawful(mc.net) && mc.net.Fits() && mc.net.Disjoint() && Boundary(mc.net, ms.st)
    requires mc.net.items == Items() && |mc.net.defs| == 1 && mc.net.defs[0].bufferLen == 4
    requires x.frames == [] && |v| == 4 && forall j :: 0 <= j < 4 ==> Loaded(mc, ms, x).sv[j] == v[j] as real
    ensures Marshalled(mc, ms, x).msgs[0].buffer == v
  {
    TickedSized(mc, ms, x);
    BeforeMarshal(mc, ms, x, 0);
    FramelessUpdated(mc, ms, x);
    var t, b := Ticked(mc, ms, x).1, Marshalled(mc, ms, x);
    forall j | 0 <= j < 4
      ensures b.msgs[0].buffer[j] == v[j]
    {
      EncodedByte(mc.net, t.sv, j, v[j]);
      MarshalledRaw(mc.net, t, 0, j);
      ByteItem(mc.net, b, j);
    }
  }

  function Channel(): ModelCfg {
    ModelCfg(OneMessage(), [Some(0), Some(1), Some(2), Some(3)], None)
  }

  lemma ChannelValid()
    ensures Channel().Valid()
  {
    LoadedValid();
  }

  /** Before anything is marshalled, the four zero bytes hold what the initial values encode to. */
  lemma InitialHolds(j: nat)
    requires j < 4
    ensures OneMessage().Valid() && Holds(OneMessage(), InitialState(OneMessage()), j)
  {
    ByteItem(OneMessage(), InitialState(OneMessage()), j);
    TruncateWhole(0);
  }

  lemma PackedZeros()
    ensures PackBytes(Zeros(8), Zeros(4)) == Zeros(8)
  {
  }

  /** The network when it has been created: all zero, and the payload validates. */
  lemma CreatedZero()
    ensures OneMessage().Valid()
    ensures var m := CreatedNet(OneMessage()).msgs[0];
      m.buffer == Zeros(4) && m.payload == Zeros(8)
  {
    var st := InitialState(OneMessage());
    forall j | 0 <= j < 4
      ensures Holds(OneMessage(), st, j)
    {
      InitialHolds(j);
    }
    Stable(OneMessage(), st, 0, 0);
    CreatedMessage(OneMessage(), 0);
    PackedZeros();
  }

  lemma {:induction false} SumOfZeros(p: seq<byte>, n: nat)
    requires n <= |p| && forall k :: 0 <= k < n ==> p[k] == 0
    ensures Crc.SumExcept(p, 0, n) == 0
  {
    if n > 0 {
      SumOfZeros(p, n - 1);
    }
  }

  function BadData(): seq<byte> {
    Zeros(8)[2 := 7]
  }

  /** Its checksum should be 7. */
  lemma BadChecksum()
    ensures !Crc.Validates(BadData(), 0)
  {
    SumOfZeros(Zeros(8), 8);
    assert Crc.Validates(Zeros(8), 0);
    Crc.AlterationRejected(Zeros(8), 0, 2, 7);
  }

  lemma BadFrameShown(mc: ModelCfg, ms: ModelState, x: Input)
    requires mc.net == OneMessage() && Ready(mc, ms, x) && Boundary(mc.net, ms.st)
    requires ms.st.msgs[0].buffer == Zeros(4) && ms.st.msgs[0].payload == Zeros(8)
    requires x.frames == [Frame(0x1f2, 2, BadData())] && |mc.srMap| > 2 && mc.srMap[2] == Some(2)
    ensures Step(mc, ms, x).scalars[2] == 7.0
  {
    SumOfZeros(Zeros(8), 8);
    assert BadData()[..4] == Zeros(4)[2 := 7];
    OneByteChangeDetected(Zeros(4), 2, 7);
    Single(x.frames[0]);
    FrameShown(mc, ms, x, x.frames[0], 2, 2);
  }

  /** A frame with a bad checksum that changes a signal: foo becomes 7 in the first step. */
  lemma BadFrameChangesSignal(mc: ModelCfg, x: Input)
    requires mc == Channel() && x == Input([0.0, 0.0, 0.0, 0.0], [Frame(0x1f2, 2, BadData())], 0.0)
    ensures mc.Valid() && !Crc.Validates(BadData(), 0)
    ensures Step(mc, Create(mc, x.scalars), x).scalars[2] == 7.0
  {
    BadChecksum();
    ChannelValid();
    CreateBoundary(mc.net);
    CreatedZero();
    var ms := Create(mc, x.scalars);
    assert ms.st == CreatedNet(mc.net);
    BadFrameShown(mc, ms, x);
  }

  /** The two encode functions, in their order. */
  lemma EncodedPayload(p: seq<byte>)
    ensures RunEncode(FunctionExample().encodeFuncs, 0, p) == Sum(Count(p))
  {
  }

  /** A packed payload, counted and summed: it validates, and only bytes 0 and 1 differ from the packed one. */
  lemma CountedAndSummed(p: seq<byte>)
    requires |p| == 8
    ensures |Sum(Count(p))| == 8 && Crc.Validates(Sum(Count(p)), 0)
    ensures Sum(Count(p))[1] as int == (p[1] as int + 1) % 256
    ensures forall k :: 2 <= k < 8 ==> Sum(Count(p))[k] == p[k]
  {
    Crc.GeneratedValidates(Count(p), 0);
  }

  /** Every payload that is sent validates, counts on from the alive byte, and carries the other two signals. */
  lemma SentPayload(m: MsgState)
    requires |m.buffer| == 4 && |m.payload| == 8
    requires EncodeMsg(FunctionExample(), PackMsg(FunctionExample(), m), false).needsTx
    ensures var sent := EncodeMsg(FunctionExample(), PackMsg(FunctionExample(), m), false).payload;
      && |sent| == 8 && Crc.Validates(sent, 0)
      && sent[1] as int == (m.buffer[1] as int + 1) % 256
      && sent[2] == m.buffer[2] && sent[3] == m.buffer[3]
      && forall k :: 4 <= k < 8 ==> sent[k] == 0
  {
    var p := PackBytes(m.payload, m.buffer);
    EncodedPayload(p);
    CountedAndSummed(p);
  }
}
