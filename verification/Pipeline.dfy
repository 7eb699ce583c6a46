/** The composed step: what holds at every step boundary, what is sent, and silence. */
module Pipeline {
  import opened Bytes
  import opened Fnv
  import opened Net
  import opened Engine
  import opened Encoder
  import opened Functions
  import opened Schedule
  import opened Marshalling
  import opened Reception
  import opened Model

  /** The message library behaves: no function writes out of bounds, a failing unpack writes nothing. */
  ghost predicate Lawful(cfg: Config) {
    forall m :: 0 <= m < |cfg.defs| ==> cfg.defs[m].KeepsLengths() && cfg.defs[m].UnpackKeepsOnError()
  }

  /** Message m is among the messages written in a step. */
  predicate Sent(mc: ModelCfg, ms: ModelState, x: Input, m: nat)
    requires Ready(mc, ms, x)
  {
    m in Pending(Outgoing(mc, ms, x).msgs, |mc.net.defs|)
  }

  /** The frames of a step are those of the sent messages, one each, in message order. */
  lemma OutputOfSent(mc: ModelCfg, ms: ModelState, x: Input)
    requires Ready(mc, ms, x)
    ensures var sent, o := Pending(Outgoing(mc, ms, x).msgs, |mc.net.defs|), Outgoing(mc, ms, x).msgs;
      && |Output(mc, ms, x)| == |sent|
      && (forall i :: 0 <= i < |sent| ==>
          var def := mc.net.defs[sent[i]];
          Output(mc, ms, x)[i] == Frame(def.frameId, def.frameType, o[sent[i]].payload))
      && (forall i, j :: 0 <= i < j < |sent| ==> sent[i] < sent[j])
  {
    WrittenOnce(mc.net, Outgoing(mc, ms, x).msgs, |mc.net.defs|);
    PendingSorted(Outgoing(mc, ms, x).msgs, |mc.net.defs|);
  }

  // ---- Step boundaries ----

  /** Between steps nothing is pending, no flag is set, and the checksum of each message that is sent on
    * change agrees with its buffer. */
  predicate Quiet(def: MessageDef, m: MsgState) {
    !m.needsTx && !m.update && |m.buffer| == def.bufferLen && (def.OnChange() ==> Coherent(m))
  }

  ghost predicate Boundary(cfg: Config, st: State) {
    st.Shape(cfg) && forall m :: 0 <= m < |cfg.defs| ==> Quiet(cfg.defs[m], st.msgs[m])
  }

  lemma CreatedMessage(cfg: Config, m: nat)
    requires cfg.Valid() && m < |cfg.defs|
    ensures CreatedNet(cfg).msgs[m] ==
      PackMsg(cfg.defs[m], MarshalIn(cfg, InitialState(cfg), 0).msgs[m]).(needsTx := false)
  {
  }

  lemma CreateBoundary(cfg: Config)
    requires cfg.Valid()
    ensures Boundary(cfg, CreatedNet(cfg))
  {
  }

  /** Until the buffers are written, a message keeps what reception left of it, but for its flag, and but for
    * what a due tick does. */
  lemma {:induction false} TicksMessage(cfg: Config, plan: Plan, msgs: seq<MsgState>, n: nat, m: nat)
    requires |plan.alarms| == |Listed(cfg)| && |msgs| == |cfg.defs| && m < |cfg.defs|
    ensures Ticks(cfg, plan, msgs, n).1[m] == msgs[m] || Ticks(cfg, plan, msgs, n).1[m] == Wake(msgs[m])
    ensures cfg.defs[m].cycle == 0 ==> Ticks(cfg, plan, msgs, n).1[m] == msgs[m]
    decreases n
  {
    if n > 0 {
      TicksMessage(cfg, Advance(cfg, plan), WakeDue(cfg, plan, msgs), n - 1, m);
    }
  }

  lemma BeforeMarshal(mc: ModelCfg, ms: ModelState, x: Input, m: nat)
    requires Ready(mc, ms, x) && m < |mc.net.defs| && mc.net.defs[m].KeepsLengths()
    ensures var r, t := Received(mc, ms, x).msgs[m], Ticked(mc, ms, x).1.msgs[m];
      && t.buffer == r.buffer && |t.buffer| == |ms.st.msgs[m].buffer| && !t.update
      && (mc.net.defs[m].cycle == 0 ==> t.checksum == r.checksum)
  {
    ReceiveKeeps(mc.net, Loaded(mc, ms, x), x.frames, m);
    var u := Updated(mc, ms, x);
    TicksMessage(mc.net, ms.plan, u.msgs, TickCount(ms, x.time), m);
  }

  /** Packing and encoding a message: when it is sent, and what it then is. */
  lemma PackEncode(def: MessageDef, m: MsgState, netOff: bool)
    ensures var o := EncodeMsg(def, PackMsg(def, m), netOff);
      && (def.OnChange() ==> (o.needsTx <==> !netOff && Hash(m.buffer) != m.checksum))
      && (def.OnChange() ==> Coherent(o))
      && (def.cycle > 0 ==>
          (o.needsTx <==> !netOff && m.needsTx && (def.pack.None? || Hash(m.buffer) != m.checksum)))
      && (def.cycle > 0 && !o.update ==> o.checksum == m.checksum)
      && (!o.needsTx ==> o.buffer == m.buffer && o.update == m.update)
      && (def.KeepsLengths() ==> |o.buffer| == |m.buffer|)
  {
  }

  /** From marshalling to the end of the step, seen from one message. */
  lemma OutgoingIs(mc: ModelCfg, ms: ModelState, x: Input, m: nat)
    requires Ready(mc, ms, x) && m < |mc.net.defs|
    ensures var def, s, o := mc.net.defs[m], Marshalled(mc, ms, x).msgs[m], Outgoing(mc, ms, x).msgs[m];
      && s == Ticked(mc, ms, x).1.msgs[m].(buffer := s.buffer)
      && o == EncodeMsg(def, PackMsg(def, s), NetOff(mc, x))
      && Final(mc, ms, x).msgs[m] == o.(needsTx := false, update := false)
      && (Sent(mc, ms, x, m) <==> o.needsTx)
  {
    PendingIff(Outgoing(mc, ms, x).msgs, |mc.net.defs|, m);
  }

  /** When a message is sent, and what it then is. */
  lemma OutgoingMessage(mc: ModelCfg, ms: ModelState, x: Input, m: nat)
    requires Ready(mc, ms, x) && m < |mc.net.defs|
    ensures var def, s, o, f := mc.net.defs[m], Marshalled(mc, ms, x).msgs[m], Outgoing(mc, ms, x).msgs[m],
        Final(mc, ms, x).msgs[m];
      && s == Ticked(mc, ms, x).1.msgs[m].(buffer := s.buffer)
      && (Sent(mc, ms, x, m) <==> o.needsTx)
      && (def.OnChange() ==> (o.needsTx <==> !NetOff(mc, x) && Hash(s.buffer) != s.checksum))
      && (def.OnChange() ==> Coherent(o))
      && (def.cycle > 0 ==>
          (o.needsTx <==> !NetOff(mc, x) && s.needsTx && (def.pack.None? || Hash(s.buffer) != s.checksum)))
      && (def.cycle > 0 && !o.update ==> o.checksum == s.checksum)
      && (!o.needsTx ==> o.buffer == s.buffer && o.update == s.update)
      && (def.KeepsLengths() ==> |o.buffer| == |s.buffer|)
      && f == o.(needsTx := false, update := false)
      && (NetOff(mc, x) ==> !o.needsTx)
  {
    OutgoingIs(mc, ms, x, m);
    PackEncode(mc.net.defs[m], Marshalled(mc, ms, x).msgs[m], NetOff(mc, x));
  }

  /** What packing makes of a payload. */
  function Packed(def: MessageDef, m: MsgState): seq<byte> {
    if def.pack.Some? then def.pack.value(m.payload, m.buffer) else m.payload
  }

  lemma EncodedContent(def: MessageDef, m: MsgState, netOff: bool)
    ensures var o, p := EncodeMsg(def, PackMsg(def, m), netOff), Packed(def, m);
      var e := RunEncode(def.encodeFuncs, 0, p);
      && o.payload == (if o.needsTx then e else p)
      && (!m.update ==> (o.update <==> o.needsTx && Hash(e) != Hash(p)))
      && o.buffer == (if o.needsTx && Hash(e) != Hash(p) then def.unpack(m.buffer, e).buffer else m.buffer)
  {
  }

  /** The payload after a step: the marshalled buffer, packed, and if the message is sent, run through the encode functions
    * in their order. Unsent messages are packed, too. */
  lemma PayloadIs(mc: ModelCfg, ms: ModelState, x: Input, m: nat)
    requires Ready(mc, ms, x) && m < |mc.net.defs|
    ensures var def, b := mc.net.defs[m], Marshalled(mc, ms, x).msgs[m];
      Step(mc, ms, x).st.msgs[m].payload ==
        if Sent(mc, ms, x, m) then RunEncode(def.encodeFuncs, 0, Packed(def, b)) else Packed(def, b)
  {
    OutgoingIs(mc, ms, x, m);
    EncodedContent(mc.net.defs[m], Marshalled(mc, ms, x).msgs[m], NetOff(mc, x));
  }

  /** If the hash of the payload that is sent is not that of the packed one, it is unpacked over the marshalled buffer,
    * where it leaves alone what unpacking does not write; otherwise that buffer is kept. */
  lemma RewrittenIs(mc: ModelCfg, ms: ModelState, x: Input, m: nat)
    requires Ready(mc, ms, x) && Lawful(mc.net) && m < |mc.net.defs|
    ensures var def, b := mc.net.defs[m], Marshalled(mc, ms, x).msgs[m];
      var e := RunEncode(def.encodeFuncs, 0, Packed(def, b));
      && (Outgoing(mc, ms, x).msgs[m].update <==> Sent(mc, ms, x, m) && Hash(e) != Hash(Packed(def, b)))
      && Step(mc, ms, x).st.msgs[m].buffer ==
        (if Outgoing(mc, ms, x).msgs[m].update then def.unpack(b.buffer, e).buffer else b.buffer)
  {
    BeforeMarshal(mc, ms, x, m);
    OutgoingIs(mc, ms, x, m);
    EncodedContent(mc.net.defs[m], Marshalled(mc, ms, x).msgs[m], NetOff(mc, x));
  }

  /** What is sent is that. */
  lemma SentContent(mc: ModelCfg, ms: ModelState, x: Input, m: nat)
    requires Ready(mc, ms, x) && Sent(mc, ms, x, m) && mc.net.defs[m].pack.Some?
    ensures var def, b := mc.net.defs[m], Marshalled(mc, ms, x).msgs[m];
      FrameOf(def, Outgoing(mc, ms, x).msgs[m]).data == RunEncode(def.encodeFuncs, 0, def.pack.value(b.payload, b.buffer))
  {
    OutgoingIs(mc, ms, x, m);
    EncodedContent(mc.net.defs[m], Marshalled(mc, ms, x).msgs[m], NetOff(mc, x));
  }

  /** Without encode functions nothing is rewritten. */
  lemma NotEncoded(def: MessageDef, m: MsgState, netOff: bool)
    requires def.encodeFuncs == [] && !m.update
    ensures var o := EncodeMsg(def, PackMsg(def, m), netOff); !o.update && o.buffer == m.buffer
  {
  }

  lemma NotRewritten(mc: ModelCfg, ms: ModelState, x: Input, m: nat)
    requires Ready(mc, ms, x) && Lawful(mc.net) && m < |mc.net.defs| && mc.net.defs[m].encodeFuncs == []
    ensures !Outgoing(mc, ms, x).msgs[m].update
    ensures Step(mc, ms, x).st.msgs[m].buffer == Marshalled(mc, ms, x).msgs[m].buffer
  {
    BeforeMarshal(mc, ms, x, m);
    OutgoingIs(mc, ms, x, m);
    NotEncoded(mc.net.defs[m], Marshalled(mc, ms, x).msgs[m], NetOff(mc, x));
  }

  lemma QuietAfterStep(mc: ModelCfg, ms: ModelState, x: Input, m: nat)
    requires Ready(mc, ms, x) && m < |mc.net.defs| && mc.net.defs[m].KeepsLengths() && ms.st.Sized(mc.net)
    ensures Quiet(mc.net.defs[m], Final(mc, ms, x).msgs[m])
  {
    BeforeMarshal(mc, ms, x, m);
    OutgoingMessage(mc, ms, x, m);
  }

  /** Every step ends at a boundary. */
  lemma StepBoundary(mc: ModelCfg, ms: ModelState, x: Input)
    requires Ready(mc, ms, x) && Lawful(mc.net) && ms.st.Sized(mc.net)
    ensures Boundary(mc.net, Step(mc, ms, x).st)
  {
    forall m | 0 <= m < |mc.net.defs|
      ensures Quiet(mc.net.defs[m], Final(mc, ms, x).msgs[m])
    {
      QuietAfterStep(mc, ms, x, m);
    }
  }

  /** Reception keeps checksum and buffer together. */
  lemma ReceivedCoherent(mc: ModelCfg, ms: ModelState, x: Input, m: nat)
    requires Ready(mc, ms, x) && Lawful(mc.net) && Boundary(mc.net, ms.st)
    requires m < |mc.net.defs| && mc.net.defs[m].OnChange()
    ensures Coherent(Received(mc, ms, x).msgs[m])
  {
    ReceiveKeeps(mc.net, Loaded(mc, ms, x), x.frames, m);
  }

  /** A message that is sent on change is sent exactly if the network is on and marshalling changed the hash
    * of its buffer. */
  lemma SentOnChange(mc: ModelCfg, ms: ModelState, x: Input, m: nat)
    requires Ready(mc, ms, x) && Lawful(mc.net) && Boundary(mc.net, ms.st)
    requires m < |mc.net.defs| && mc.net.defs[m].OnChange()
    ensures Sent(mc, ms, x, m) <==>
      !NetOff(mc, x) && Hash(Marshalled(mc, ms, x).msgs[m].buffer) != Hash(Received(mc, ms, x).msgs[m].buffer)
  {
    ReceivedCoherent(mc, ms, x, m);
    BeforeMarshal(mc, ms, x, m);
    OutgoingMessage(mc, ms, x, m);
  }

  /** With the network on, that is, without a signal that turns it off, or with the value 0 there, marshalling that changes
    * exactly one byte of such a message is never missed. */
  lemma OneByteIsSent(mc: ModelCfg, ms: ModelState, x: Input, m: nat, i: nat, b: byte)
    requires Ready(mc, ms, x) && Lawful(mc.net) && Boundary(mc.net, ms.st)
    requires mc.netOff.Some? ==> x.scalars[mc.netOff.value] == 0.0
    requires m < |mc.net.defs| && mc.net.defs[m].OnChange()
    requires i < |Received(mc, ms, x).msgs[m].buffer| && Received(mc, ms, x).msgs[m].buffer[i] != b
    requires Marshalled(mc, ms, x).msgs[m].buffer == Received(mc, ms, x).msgs[m].buffer[i := b]
    ensures Sent(mc, ms, x, m)
  {
    OneByteChangeDetected(Received(mc, ms, x).msgs[m].buffer, i, b);
    SentOnChange(mc, ms, x, m);
  }

  /** While the network is off, with any value but 0, nothing at all is written. */
  lemma SilentWhileOff(mc: ModelCfg, ms: ModelState, x: Input)
    requires Ready(mc, ms, x) && mc.netOff.Some? && x.scalars[mc.netOff.value] != 0.0
    ensures Output(mc, ms, x) == []
  {
    var o := Outgoing(mc, ms, x).msgs;
    var sent := Pending(o, |mc.net.defs|);
    OutputOfSent(mc, ms, x);
    if sent != [] {
      OutgoingMessage(mc, ms, x, sent[0]);
    }
  }

  // ---- No echo ----

  /** Where the signals of an accepted message stand when marshalling begins: decoded from the frame, as far as they
    * are in range; and marshalling keeps their members exactly if they survive. */
  lemma AcceptedItem(mc: ModelCfg, ms: ModelState, x: Input, j: nat)
    requires Ready(mc, ms, x) && Lawful(mc.net) && j < |mc.net.items|
    requires Accepted(mc, ms, x).msgs[mc.net.items[j].msg].update
    ensures var a, t := Accepted(mc, ms, x), Ticked(mc, ms, x).1;
      && (Holds(mc.net, t, j) <==> Survives(mc.net, a, j))
      && (Readable(mc.net, a, j) ==> t.sv[j] == Decoded(mc.net, a, j))
  {
    BeforeMarshal(mc, ms, x, mc.net.items[j].msg);
    SurvivesIsHolds(mc.net, Accepted(mc, ms, x), j);
    MarshalledValue(mc.net, Accepted(mc, ms, x), 0, j);
  }

  /** What marshalling leaves alone is not sent, and not rewritten either. */
  lemma UnchangedNotSent(mc: ModelCfg, ms: ModelState, x: Input, m: nat)
    requires Ready(mc, ms, x) && Lawful(mc.net) && Boundary(mc.net, ms.st)
    requires m < |mc.net.defs| && mc.net.defs[m].OnChange()
    requires Marshalled(mc, ms, x).msgs[m].buffer == Received(mc, ms, x).msgs[m].buffer
    ensures !Sent(mc, ms, x, m) && !Outgoing(mc, ms, x).msgs[m].update
    ensures Final(mc, ms, x).msgs[m].buffer == Received(mc, ms, x).msgs[m].buffer
  {
    BeforeMarshal(mc, ms, x, m);
    SentOnChange(mc, ms, x, m);
    OutgoingMessage(mc, ms, x, m);
  }

  /** All members of message m survive the trip through the signal vector. */
  ghost predicate AllSurvive(cfg: Config, st: State, m: nat)
    requires cfg.Valid() && st.Shape(cfg)
  {
    forall j :: 0 <= j < |cfg.items| && cfg.items[j].msg == m ==> Survives(cfg, st, j)
  }

  /** A received message that is accepted, and whose members survive, is not sent in that step ... */
  lemma NoEcho(mc: ModelCfg, ms: ModelState, x: Input, m: nat)
    requires Ready(mc, ms, x) && Lawful(mc.net) && Boundary(mc.net, ms.st)
    requires m < |mc.net.defs| && mc.net.defs[m].OnChange()
    requires Accepted(mc, ms, x).msgs[m].update && AllSurvive(mc.net, Accepted(mc, ms, x), m)
    ensures !Sent(mc, ms, x, m) && !Outgoing(mc, ms, x).msgs[m].update
    ensures Final(mc, ms, x).msgs[m].buffer == Received(mc, ms, x).msgs[m].buffer
  {
    var t := Ticked(mc, ms, x).1;
    forall j | 0 <= j < |mc.net.items| && mc.net.items[j].msg == m
      ensures Holds(mc.net, t, j)
    {
      AcceptedItem(mc, ms, x, j);
    }
    Stable(mc.net, t, 0, m);
    BeforeMarshal(mc, ms, x, m);
    UnchangedNotSent(mc, ms, x, m);
  }

  lemma TickedSized(mc: ModelCfg, ms: ModelState, x: Input)
    requires Ready(mc, ms, x) && Lawful(mc.net) && ms.st.Sized(mc.net)
    ensures Ticked(mc, ms, x).1.Sized(mc.net)
  {
    forall m | 0 <= m < |mc.net.defs|
      ensures |Ticked(mc, ms, x).1.msgs[m].buffer| == mc.net.defs[m].bufferLen
    {
      BeforeMarshal(mc, ms, x, m);
    }
  }

  /** ... and that is exact: the received buffer is kept if and only if the members survive. Otherwise the message is
    * sent back, changed, unless its hash happens to be the same. */
  lemma EchoIff(mc: ModelCfg, ms: ModelState, x: Input, m: nat)
    requires Ready(mc, ms, x) && Lawful(mc.net) && Boundary(mc.net, ms.st) && mc.net.Fits() && mc.net.Disjoint()
    requires m < |mc.net.defs| && Accepted(mc, ms, x).msgs[m].update
    ensures Marshalled(mc, ms, x).msgs[m].buffer == Received(mc, ms, x).msgs[m].buffer <==>
      AllSurvive(mc.net, Accepted(mc, ms, x), m)
    ensures mc.net.defs[m].OnChange() ==>
      (Sent(mc, ms, x, m) <==>
        !NetOff(mc, x) && Hash(Marshalled(mc, ms, x).msgs[m].buffer) != Hash(Received(mc, ms, x).msgs[m].buffer))
  {
    var t := Ticked(mc, ms, x).1;
    forall j | 0 <= j < |mc.net.items| && mc.net.items[j].msg == m
      ensures Holds(mc.net, t, j) <==> Survives(mc.net, Accepted(mc, ms, x), j)
    {
      AcceptedItem(mc, ms, x, j);
    }
    TickedSized(mc, ms, x);
    UnchangedIff(mc.net, t, m);
    BeforeMarshal(mc, ms, x, m);
    if mc.net.defs[m].OnChange() {
      SentOnChange(mc, ms, x, m);
    }
  }

  /** The in-range signals of such a message end on the channel as decoded from the frame, whatever the models wrote. */
  lemma NoEchoSignal(mc: ModelCfg, ms: ModelState, x: Input, m: nat, i: nat)
    requires Ready(mc, ms, x) && Lawful(mc.net) && Boundary(mc.net, ms.st)
    requires m < |mc.net.defs| && mc.net.defs[m].OnChange()
    requires Accepted(mc, ms, x).msgs[m].update && AllSurvive(mc.net, Accepted(mc, ms, x), m)
    requires i < |mc.srMap| && mc.srMap[i].Some? && mc.net.items[mc.srMap[i].value].msg == m
    requires Readable(mc.net, Accepted(mc, ms, x), mc.srMap[i].value)
    ensures Step(mc, ms, x).scalars[i] == Decoded(mc.net, Accepted(mc, ms, x), mc.srMap[i].value)
  {
    NoEcho(mc, ms, x, m);
    AcceptedItem(mc, ms, x, mc.srMap[i].value);
    FinalValue(mc, ms, x, mc.srMap[i].value);
  }

  /** The last stage: a signal changes only if the encode functions rewrote its message. */
  lemma FinalValue(mc: ModelCfg, ms: ModelState, x: Input, j: nat)
    requires Ready(mc, ms, x) && j < |mc.net.items|
    ensures var o := Outgoing(mc, ms, x);
      Final(mc, ms, x).sv[j] ==
        if o.msgs[mc.net.items[j].msg].update && Readable(mc.net, o, j) then Decoded(mc.net, o, j)
        else Ticked(mc, ms, x).1.sv[j]
  {
    var o := Outgoing(mc, ms, x);
    MarshalledValue(mc.net, o.(msgs := ClearTx(o.msgs)), 0, j);
  }

  /** The verdict of the decode functions does not depend on the frames: they see the payload as it was before
    * reception, that is, as it was packed last. */
  lemma VerdictIgnoresFrames(mc: ModelCfg, ms: ModelState, x: Input, m: nat)
    requires Ready(mc, ms, x) && m < |mc.net.defs| && mc.net.defs[m].KeepsLengths()
    ensures Accepted(mc, ms, x).msgs[m].update <==>
      Received(mc, ms, x).msgs[m].update
      && RunDecode(mc.net.defs[m].decodeFuncs, 0, true, ms.st.msgs[m].payload).0
  {
    ReceiveKeeps(mc.net, Loaded(mc, ms, x), x.frames, m);
  }

  /** The decode functions of a message that reception has flagged run on that payload; others leave it alone. */
  lemma AcceptedPayload(mc: ModelCfg, ms: ModelState, x: Input, m: nat)
    requires Ready(mc, ms, x) && m < |mc.net.defs| && mc.net.defs[m].KeepsLengths()
    ensures Accepted(mc, ms, x).msgs[m].payload ==
      var fs, p := mc.net.defs[m].decodeFuncs, ms.st.msgs[m].payload;
      if Received(mc, ms, x).msgs[m].update then Seen(fs, 0, |fs|, p) else p
  {
    ReceiveKeeps(mc.net, Loaded(mc, ms, x), x.frames, m);
    VerdictIff(mc.net.defs[m].decodeFuncs, 0, true, ms.st.msgs[m].payload);
  }

  // ---- Silence ----

  /** Marshalling would leave every message that is sent on change as it is. */
  ghost predicate Settled(cfg: Config, st: State)
    requires cfg.Valid() && st.Shape(cfg)
  {
    forall j :: 0 <= j < |cfg.items| && cfg.defs[cfg.items[j].msg].OnChange() ==> Holds(cfg, st, j)
  }

  /** The channel shows the signal vector. */
  ghost predicate InStep(mc: ModelCfg, ms: ModelState)
    requires mc.Valid() && ms.Shape(mc)
  {
    forall i :: 0 <= i < |mc.srMap| && mc.srMap[i].Some? ==> ms.scalars[i] == ms.st.sv[mc.srMap[i].value]
  }

  /** If encode functions rewrote a message in this step, its members survive the trip through the signal vector. */
  ghost predicate RewritesSurvive(mc: ModelCfg, ms: ModelState, x: Input)
    requires Ready(mc, ms, x)
  {
    forall j ::
      (0 <= j < |mc.net.items| && mc.net.defs[mc.net.items[j].msg].OnChange()
       && Outgoing(mc, ms, x).msgs[mc.net.items[j].msg].update)
      ==> Survives(mc.net, Outgoing(mc, ms, x), j)
  }

  /** After the step, a member holds what would be marshalled, unless a rewrite did not survive. */
  lemma SettledItem(mc: ModelCfg, ms: ModelState, x: Input, j: nat)
    requires Ready(mc, ms, x) && mc.net.Fits() && mc.net.Disjoint() && Ticked(mc, ms, x).1.Sized(mc.net)
    requires j < |mc.net.items| && mc.net.defs[mc.net.items[j].msg].OnChange()
    requires !Ticked(mc, ms, x).1.msgs[mc.net.items[j].msg].update
    ensures Holds(mc.net, Final(mc, ms, x), j) <==>
      (Outgoing(mc, ms, x).msgs[mc.net.items[j].msg].update ==> Survives(mc.net, Outgoing(mc, ms, x), j))
  {
    OutgoingMessage(mc, ms, x, mc.net.items[j].msg);
    FinalValue(mc, ms, x, j);
    MarshalledRaw(mc.net, Ticked(mc, ms, x).1, 0, j);
  }

  /** Any step, from anywhere, ends with the channel in step, and settled if and only if its rewrites survive. */
  lemma StepSettles(mc: ModelCfg, ms: ModelState, x: Input)
    requires Ready(mc, ms, x) && Lawful(mc.net) && mc.net.Fits() && mc.net.Disjoint() && ms.st.Sized(mc.net)
    ensures Settled(mc.net, Step(mc, ms, x).st) <==> RewritesSurvive(mc, ms, x)
    ensures InStep(mc, Step(mc, ms, x))
  {
    TickedSized(mc, ms, x);
    forall j | 0 <= j < |mc.net.items| && mc.net.defs[mc.net.items[j].msg].OnChange()
      ensures Holds(mc.net, Final(mc, ms, x), j) <==>
        (Outgoing(mc, ms, x).msgs[mc.net.items[j].msg].update ==> Survives(mc.net, Outgoing(mc, ms, x), j))
    {
      BeforeMarshal(mc, ms, x, mc.net.items[j].msg);
      SettledItem(mc, ms, x, j);
    }
  }

  /** No model has written a signal of the network: those of the channel are as the last step left them. */
  ghost predicate Unwritten(mc: ModelCfg, ms: ModelState, x: Input)
    requires Ready(mc, ms, x)
  {
    forall i :: 0 <= i < |mc.srMap| && mc.srMap[i].Some? ==> x.scalars[i] == ms.scalars[i]
  }

  /** Nobody else acts: no signal of the network is written, and the bus is empty. Other signals of the channel may
    * change, such as the one that turns the network off. */
  ghost predicate Idle(mc: ModelCfg, ms: ModelState, x: Input)
    requires Ready(mc, ms, x)
  {
    x.frames == [] && Unwritten(mc, ms, x)
  }

  /** An entry is kept if each channel signal that maps to it holds it. */
  lemma {:induction false} LoadKeeps(srMap: seq<Option<nat>>, scalars: seq<real>, sv: seq<real>, i: nat, j: nat)
    requires |scalars| == |srMap| && i <= |srMap| && j < |sv|
    requires forall k :: 0 <= k < |srMap| && srMap[k].Some? ==> srMap[k].value < |sv|
    requires forall k :: i <= k < |srMap| && srMap[k] == Some(j) ==> scalars[k] == sv[j]
    ensures Load(srMap, scalars, sv, i)[j] == sv[j]
    decreases |srMap| - i
  {
    if i < |srMap| {
      LoadKeeps(srMap, scalars, if srMap[i].Some? then sv[srMap[i].value := scalars[i]] else sv, i + 1, j);
    }
  }

  lemma {:induction false} LoadStable(srMap: seq<Option<nat>>, scalars: seq<real>, sv: seq<real>, i: nat)
    requires |scalars| == |srMap| && i <= |srMap|
    requires forall j :: 0 <= j < |srMap| && srMap[j].Some? ==> srMap[j].value < |sv| && scalars[j] == sv[srMap[j].value]
    ensures Load(srMap, scalars, sv, i) == sv
    decreases |srMap| - i
  {
    if i < |srMap| {
      assert srMap[i].Some? ==> sv[srMap[i].value := scalars[i]] == sv;
      LoadStable(srMap, scalars, sv, i + 1);
    }
  }

  /** Without frames, a step starts marshalling from what is on the channel. */
  lemma FramelessUpdated(mc: ModelCfg, ms: ModelState, x: Input)
    requires Ready(mc, ms, x) && Boundary(mc.net, ms.st) && x.frames == []
    ensures Received(mc, ms, x) == Updated(mc, ms, x) == Loaded(mc, ms, x)
  {
    var l, a := Loaded(mc, ms, x), Accepted(mc, ms, x);
    assert a.msgs == l.msgs;
    forall j | 0 <= j < |mc.net.items|
      ensures Updated(mc, ms, x).sv[j] == l.sv[j]
    {
      MarshalledValue(mc.net, a, 0, j);
    }
    assert Updated(mc, ms, x).msgs == l.msgs;
  }

  /** Without frames, and without any encode function that rewrites, the signals end as they were on the channel. */
  lemma FramelessValue(mc: ModelCfg, ms: ModelState, x: Input, j: nat)
    requires Ready(mc, ms, x) && Boundary(mc.net, ms.st) && x.frames == []
    requires j < |mc.net.items| && !Outgoing(mc, ms, x).msgs[mc.net.items[j].msg].update
    ensures Step(mc, ms, x).st.sv[j] == Loaded(mc, ms, x).sv[j]
  {
    FramelessUpdated(mc, ms, x);
    FinalValue(mc, ms, x, j);
  }

  /** Marshalling then finds each message as it is on the channel and in its buffer. */
  lemma FramelessTicked(mc: ModelCfg, ms: ModelState, x: Input, m: nat)
    requires Ready(mc, ms, x) && Boundary(mc.net, ms.st) && x.frames == []
    requires m < |mc.net.defs| && mc.net.defs[m].OnChange()
    ensures var t := Ticked(mc, ms, x).1; t.msgs[m] == ms.st.msgs[m] && t.sv == Loaded(mc, ms, x).sv
  {
    FramelessUpdated(mc, ms, x);
    TicksMessage(mc.net, ms.plan, ms.st.msgs, TickCount(ms, x.time), m);
  }

  /** So the buffer of a message is kept if and only if its members hold what is on the channel. */
  lemma FramelessKeptIff(mc: ModelCfg, ms: ModelState, x: Input, m: nat)
    requires Ready(mc, ms, x) && Lawful(mc.net) && Boundary(mc.net, ms.st) && mc.net.Fits() && mc.net.Disjoint()
    requires x.frames == [] && m < |mc.net.defs| && mc.net.defs[m].OnChange()
    ensures Marshalled(mc, ms, x).msgs[m].buffer == ms.st.msgs[m].buffer <==>
      forall j :: 0 <= j < |mc.net.items| && mc.net.items[j].msg == m ==> Holds(mc.net, Loaded(mc, ms, x), j)
    ensures Sent(mc, ms, x, m) <==>
      !NetOff(mc, x) && Hash(Marshalled(mc, ms, x).msgs[m].buffer) != Hash(ms.st.msgs[m].buffer)
  {
    var l, t := Loaded(mc, ms, x), Ticked(mc, ms, x).1;
    FramelessUpdated(mc, ms, x);
    FramelessTicked(mc, ms, x, m);
    TickedSized(mc, ms, x);
    UnchangedIff(mc.net, t, m);
    assert forall j :: 0 <= j < |mc.net.items| && mc.net.items[j].msg == m ==>
      (Holds(mc.net, t, j) <==> Holds(mc.net, l, j));
    SentOnChange(mc, ms, x, m);
  }

  /** An idle step starts marshalling from where the last step ended. */
  lemma IdleUpdated(mc: ModelCfg, ms: ModelState, x: Input)
    requires Ready(mc, ms, x) && Boundary(mc.net, ms.st) && InStep(mc, ms) && Idle(mc, ms, x)
    ensures Received(mc, ms, x) == Updated(mc, ms, x) == Loaded(mc, ms, x) == ms.st
  {
    LoadStable(mc.srMap, x.scalars, ms.st.sv, 0);
    FramelessUpdated(mc, ms, x);
  }

  lemma IdleMessage(mc: ModelCfg, ms: ModelState, x: Input, m: nat)
    requires Ready(mc, ms, x) && Lawful(mc.net) && Boundary(mc.net, ms.st)
    requires Settled(mc.net, ms.st) && InStep(mc, ms) && Idle(mc, ms, x)
    requires m < |mc.net.defs| && mc.net.defs[m].OnChange()
    ensures !Sent(mc, ms, x, m) && !Outgoing(mc, ms, x).msgs[m].update
    ensures Final(mc, ms, x).msgs[m].buffer == ms.st.msgs[m].buffer
  {
    var t := Ticked(mc, ms, x).1;
    IdleUpdated(mc, ms, x);
    FramelessTicked(mc, ms, x, m);
    forall j | 0 <= j < |mc.net.items| && mc.net.items[j].msg == m
      ensures Holds(mc.net, t, j)
    {
      assert Holds(mc.net, ms.st, j);
    }
    Stable(mc.net, t, 0, m);
    UnchangedNotSent(mc, ms, x, m);
  }

  /** An idle step keeps the buffer of a message if and only if its members hold what would be marshalled: from a state
    * that is not settled, something changes, and is sent, if the network is on and the hash is not the same. */
  lemma IdleKeptIff(mc: ModelCfg, ms: ModelState, x: Input, m: nat)
    requires Ready(mc, ms, x) && Lawful(mc.net) && Boundary(mc.net, ms.st) && mc.net.Fits() && mc.net.Disjoint()
    requires InStep(mc, ms) && Idle(mc, ms, x) && m < |mc.net.defs| && mc.net.defs[m].OnChange()
    ensures Marshalled(mc, ms, x).msgs[m].buffer == ms.st.msgs[m].buffer <==>
      forall j :: 0 <= j < |mc.net.items| && mc.net.items[j].msg == m ==> Holds(mc.net, ms.st, j)
    ensures Sent(mc, ms, x, m) <==>
      !NetOff(mc, x) && Hash(Marshalled(mc, ms, x).msgs[m].buffer) != Hash(ms.st.msgs[m].buffer)
  {
    IdleUpdated(mc, ms, x);
    FramelessKeptIff(mc, ms, x, m);
  }

  /** What an idle step leaves of an item. */
  lemma IdleItem(mc: ModelCfg, ms: ModelState, x: Input, j: nat)
    requires Ready(mc, ms, x) && Lawful(mc.net) && Boundary(mc.net, ms.st)
    requires Settled(mc.net, ms.st) && InStep(mc, ms) && Idle(mc, ms, x)
    requires j < |mc.net.items| && mc.net.defs[mc.net.items[j].msg].OnChange()
    ensures Holds(mc.net, Final(mc, ms, x), j)
  {
    IdleMessage(mc, ms, x, mc.net.items[j].msg);
    IdleUpdated(mc, ms, x);
    FinalValue(mc, ms, x, j);
    assert Holds(mc.net, ms.st, j);
  }

  /** An idle step from a settled state sends no message that is sent on change, and ends settled. */
  lemma IdleStep(mc: ModelCfg, ms: ModelState, x: Input)
    requires Ready(mc, ms, x) && Lawful(mc.net) && Boundary(mc.net, ms.st)
    requires Settled(mc.net, ms.st) && InStep(mc, ms) && Idle(mc, ms, x)
    ensures forall m :: 0 <= m < |mc.net.defs| && mc.net.defs[m].OnChange() ==> !Sent(mc, ms, x, m)
    ensures Settled(mc.net, Step(mc, ms, x).st) && InStep(mc, Step(mc, ms, x))
  {
    forall m | 0 <= m < |mc.net.defs| && mc.net.defs[m].OnChange()
      ensures !Sent(mc, ms, x, m)
    {
      IdleMessage(mc, ms, x, m);
    }
    forall j | 0 <= j < |mc.net.items| && mc.net.defs[mc.net.items[j].msg].OnChange()
      ensures Holds(mc.net, Final(mc, ms, x), j)
    {
      IdleItem(mc, ms, x, j);
    }
  }

  /** x, with nobody else acting. */
  function Idled(mc: ModelCfg, ms: ModelState, x: Input): (r: Input)
    requires mc.Valid() && ms.Shape(mc) && |x.scalars| == |mc.srMap|
    ensures Ready(mc, ms, r) && Idle(mc, ms, r)
  {
    Input(seq(|x.scalars|, i requires 0 <= i < |x.scalars| => if mc.srMap[i].Some? then ms.scalars[i] else x.scalars[i]),
          [], x.time)
  }

  /** Over idle steps, no message is sent on change, whatever their times are, and whatever happens on the channel
    * besides the signals of the network. */
  ghost predicate Silent(mc: ModelCfg, ms: ModelState, xs: seq<Input>)
    requires mc.Valid() && ms.Shape(mc)
    requires forall i :: 0 <= i < |xs| ==> |xs[i].scalars| == |mc.srMap|
    decreases |xs|
  {
    xs != [] ==>
      var x := Idled(mc, ms, xs[0]);
      && (forall m :: 0 <= m < |mc.net.defs| && mc.net.defs[m].OnChange() ==> !Sent(mc, ms, x, m))
      && Silent(mc, Step(mc, ms, x), xs[1..])
  }

  lemma {:induction false} SettledStaysSilent(mc: ModelCfg, ms: ModelState, xs: seq<Input>)
    requires mc.Valid() && ms.Shape(mc) && Lawful(mc.net) && Boundary(mc.net, ms.st)
    requires Settled(mc.net, ms.st) && InStep(mc, ms)
    requires forall i :: 0 <= i < |xs| ==> |xs[i].scalars| == |mc.srMap|
    ensures Silent(mc, ms, xs)
    decreases |xs|
  {
    if xs != [] {
      var x := Idled(mc, ms, xs[0]);
      IdleStep(mc, ms, x);
      StepBoundary(mc, ms, x);
      SettledStaysSilent(mc, Step(mc, ms, x), xs[1..]);
    }
  }

  /** After any step, including one whose encode functions rewrote payloads, the messages sent on change are silent
    * for as long as nobody else acts, whatever the cyclic messages do meanwhile. */
  lemma Quiescence(mc: ModelCfg, ms: ModelState, x: Input, xs: seq<Input>)
    requires Ready(mc, ms, x) && Lawful(mc.net) && mc.net.Fits() && mc.net.Disjoint() && Boundary(mc.net, ms.st)
    requires RewritesSurvive(mc, ms, x)
    requires forall i :: 0 <= i < |xs| ==> |xs[i].scalars| == |mc.srMap|
    ensures Silent(mc, Step(mc, ms, x), xs)
  {
    StepBoundary(mc, ms, x);
    StepSettles(mc, ms, x);
    SettledStaysSilent(mc, Step(mc, ms, x), xs);
  }

  /** What is not sent is not rewritten. */
  lemma UnsentNotRewritten(mc: ModelCfg, ms: ModelState, x: Input, m: nat)
    requires Ready(mc, ms, x) && Lawful(mc.net) && m < |mc.net.defs| && !Sent(mc, ms, x, m)
    ensures !Outgoing(mc, ms, x).msgs[m].update
  {
    BeforeMarshal(mc, ms, x, m);
    OutgoingMessage(mc, ms, x, m);
  }

  lemma NotRewrittenWhileOff(mc: ModelCfg, ms: ModelState, x: Input, m: nat)
    requires Ready(mc, ms, x) && Lawful(mc.net) && NetOff(mc, x) && m < |mc.net.defs|
    ensures !Outgoing(mc, ms, x).msgs[m].update
  {
    BeforeMarshal(mc, ms, x, m);
    OutgoingMessage(mc, ms, x, m);
  }

  /** A step while the network is off ends settled, whatever was written. */
  lemma OffSettles(mc: ModelCfg, ms: ModelState, x: Input)
    requires Ready(mc, ms, x) && Lawful(mc.net) && mc.net.Fits() && mc.net.Disjoint() && Boundary(mc.net, ms.st)
    requires NetOff(mc, x)
    ensures RewritesSurvive(mc, ms, x)
    ensures Settled(mc.net, Step(mc, ms, x).st) && InStep(mc, Step(mc, ms, x)) && Boundary(mc.net, Step(mc, ms, x).st)
  {
    forall m | 0 <= m < |mc.net.defs|
      ensures !Outgoing(mc, ms, x).msgs[m].update
    {
      NotRewrittenWhileOff(mc, ms, x, m);
    }
    StepSettles(mc, ms, x);
    StepBoundary(mc, ms, x);
  }

  /** What is written to the signals of messages sent on change while the network is off is lost for the bus: it is not
    * sent then, and not after the network is on again, until somebody acts. */
  lemma AbsorbedWhileOff(mc: ModelCfg, ms: ModelState, x: Input, xs: seq<Input>)
    requires Ready(mc, ms, x) && Lawful(mc.net) && mc.net.Fits() && mc.net.Disjoint() && Boundary(mc.net, ms.st)
    requires NetOff(mc, x)
    requires forall i :: 0 <= i < |xs| ==> |xs[i].scalars| == |mc.srMap|
    ensures Output(mc, ms, x) == [] && Silent(mc, Step(mc, ms, x), xs)
  {
    SilentWhileOff(mc, ms, x);
    OffSettles(mc, ms, x);
    SettledStaysSilent(mc, Step(mc, ms, x), xs);
  }

  // ---- Rejected frames ----

  /** Nothing that is received in this step reaches the signals of message m. */
  ghost predicate Unheard(mc: ModelCfg, ms: ModelState, x: Input, m: nat)
    requires Ready(mc, ms, x) && m < |mc.net.defs|
  {
    !Accepted(mc, ms, x).msgs[m].update && (mc.net.mux[m].None? || x.frames == [])
  }

  /** A signal of a message that was not accepted stands as the channel has it, unless it is a mux signal. */
  lemma RejectedItem(mc: ModelCfg, ms: ModelState, x: Input, j: nat)
    requires Ready(mc, ms, x) && j < |mc.net.items| && Unheard(mc, ms, x, mc.net.items[j].msg)
    ensures Ticked(mc, ms, x).1.sv[j] == Loaded(mc, ms, x).sv[j]
  {
    if mc.net.mux[mc.net.items[j].msg].None? {
      ReceiveKeepsSignal(mc.net, Loaded(mc, ms, x), x.frames, j);
    }
    MarshalledValue(mc.net, Accepted(mc, ms, x), 0, j);
  }

  /** The state in which a rejected frame meets marshalling: old signals, new buffer. */
  lemma RejectedHolds(mc: ModelCfg, ms: ModelState, x: Input, j: nat)
    requires Ready(mc, ms, x) && Lawful(mc.net) && j < |mc.net.items| && Unheard(mc, ms, x, mc.net.items[j].msg)
    requires InStep(mc, ms) && Unwritten(mc, ms, x) && Holds(mc.net, ms.st, j)
    ensures var t := Ticked(mc, ms, x).1;
      && (Writes(mc.net, t.sv, j) <==> Writes(mc.net, ms.st.sv, j))
      && (Writes(mc.net, t.sv, j) ==> Encoded(mc.net, t.sv, j) == Raw(mc.net, ms.st, j))
      && Raw(mc.net, t, j) == Raw(mc.net, Received(mc, ms, x), j)
  {
    RejectedItem(mc, ms, x, j);
    LoadStable(mc.srMap, x.scalars, ms.st.sv, 0);
    BeforeMarshal(mc, ms, x, mc.net.items[j].msg);
  }

  /** A frame that the decode functions reject is answered with the old values: marshalling restores them, and the
    * message is sent if that changes the hash. Something is restored exactly if the frame changed a member that
    * marshalling writes. */
  lemma RejectedFrameAnswered(mc: ModelCfg, ms: ModelState, x: Input, m: nat)
    requires Ready(mc, ms, x) && Lawful(mc.net) && Boundary(mc.net, ms.st) && mc.net.Fits() && mc.net.Disjoint()
    requires Settled(mc.net, ms.st) && InStep(mc, ms) && Unwritten(mc, ms, x)
    requires m < |mc.net.defs| && mc.net.defs[m].OnChange() && Unheard(mc, ms, x, m)
    ensures forall j :: 0 <= j < |mc.net.items| && mc.net.items[j].msg == m && Writes(mc.net, ms.st.sv, j) ==>
      Raw(mc.net, Marshalled(mc, ms, x), j) == Raw(mc.net, ms.st, j)
    ensures Marshalled(mc, ms, x).msgs[m].buffer == Received(mc, ms, x).msgs[m].buffer <==>
      forall j :: 0 <= j < |mc.net.items| && mc.net.items[j].msg == m && Writes(mc.net, ms.st.sv, j) ==>
        Raw(mc.net, Received(mc, ms, x), j) == Raw(mc.net, ms.st, j)
    ensures Sent(mc, ms, x, m) <==>
      !NetOff(mc, x) && Hash(Marshalled(mc, ms, x).msgs[m].buffer) != Hash(Received(mc, ms, x).msgs[m].buffer)
  {
    var t := Ticked(mc, ms, x).1;
    TickedSized(mc, ms, x);
    BeforeMarshal(mc, ms, x, m);
    forall j | 0 <= j < |mc.net.items| && mc.net.items[j].msg == m
      ensures Writes(mc.net, ms.st.sv, j) ==> Raw(mc.net, Marshalled(mc, ms, x), j) == Raw(mc.net, ms.st, j)
      ensures Holds(mc.net, t, j) <==>
        (Writes(mc.net, ms.st.sv, j) ==> Raw(mc.net, Received(mc, ms, x), j) == Raw(mc.net, ms.st, j))
    {
      assert Holds(mc.net, ms.st, j);
      RejectedHolds(mc, ms, x, j);
      MarshalledRaw(mc.net, t, 0, j);
    }
    UnchangedIff(mc.net, t, m);
    SentOnChange(mc, ms, x, m);
  }

  /** What a rejected frame leaves on the channel: its signals stand as before, except where the encode functions then
    * rewrite the message; those stand as rewritten. */
  lemma RejectedSignal(mc: ModelCfg, ms: ModelState, x: Input, m: nat, i: nat)
    requires Ready(mc, ms, x) && InStep(mc, ms) && Unwritten(mc, ms, x)
    requires m < |mc.net.defs| && Unheard(mc, ms, x, m)
    requires i < |mc.srMap| && mc.srMap[i].Some? && mc.net.items[mc.srMap[i].value].msg == m
    ensures var o, j := Outgoing(mc, ms, x), mc.srMap[i].value;
      Step(mc, ms, x).scalars[i] ==
        if o.msgs[m].update && Readable(mc.net, o, j) then Decoded(mc.net, o, j) else x.scalars[i]
  {
    var j := mc.srMap[i].value;
    RejectedItem(mc, ms, x, j);
    LoadStable(mc.srMap, x.scalars, ms.st.sv, 0);
    FinalValue(mc, ms, x, j);
  }
}
