/** Frames between bus and messages (dse/network/encoder.c). */
module Encoder {
  import opened Bytes
  import opened Fnv
  import opened Net
  import opened Engine

  // ---- Receive ----

  /** C's conversion of a double to an integer: towards zero. */
  function Truncate(v: real): int {
    if v >= 0.0 then v.Floor else -(-v).Floor
  }

  /** First message from i on with this frame and mux id. */
  function FindFrom(defs: seq<MessageDef>, muxId: int, frameId: nat, i: nat): (r: Option<nat>)
    ensures r.Some? ==> i <= r.value < |defs| && defs[r.value].frameId == frameId && defs[r.value].muxId == muxId
    ensures r.Some? ==> forall j :: i <= j < r.value ==> defs[j].frameId != frameId || defs[j].muxId != muxId
    ensures r.None? ==> forall j :: i <= j < |defs| ==> defs[j].frameId != frameId || defs[j].muxId != muxId
    decreases |defs| - i
  {
    if i >= |defs| then None
    else if defs[i].frameId == frameId && defs[i].muxId == muxId then Some(i)
    else FindFrom(defs, muxId, frameId, i + 1)
  }

  /** Mux id 0 never finds a message. */
  function FindMux(defs: seq<MessageDef>, muxId: int, frameId: nat): (r: Option<nat>)
    ensures r.Some? ==> r.value < |defs| && defs[r.value].muxId == muxId != 0 && defs[r.value].frameId == frameId
  {
    if muxId == 0 then None else FindFrom(defs, muxId, frameId, 0)
  }

  /** First message from i on with this frame id; the search ends at a message with frame id 0. */
  function FindFrame(defs: seq<MessageDef>, frameId: nat, i: nat): (r: Option<nat>)
    ensures r.Some? ==> i <= r.value < |defs| && defs[r.value].frameId == frameId != 0
    decreases |defs| - i
  {
    if i >= |defs| || defs[i].frameId == 0 then None
    else if defs[i].frameId == frameId then Some(i)
    else FindFrame(defs, frameId, i + 1)
  }

  // ---- Which message is found ----

  /** Message m is the first from i on with this frame id, and no message up to there has frame id 0. */
  predicate FirstWithId(defs: seq<MessageDef>, frameId: nat, i: nat, m: nat) {
    && i <= m < |defs| && defs[m].frameId == frameId
    && (forall j :: i <= j <= m ==> defs[j].frameId != 0)
    && (forall j :: i <= j < m ==> defs[j].frameId != frameId)
  }

  lemma {:induction false} FindFrameIff(defs: seq<MessageDef>, frameId: nat, i: nat, m: nat)
    ensures FindFrame(defs, frameId, i) == Some(m) <==> FirstWithId(defs, frameId, i, m)
    decreases |defs| - i
  {
    if i < |defs| && defs[i].frameId != 0 && defs[i].frameId != frameId {
      FindFrameIff(defs, frameId, i + 1, m);
    }
  }

  lemma FindFrameNone(defs: seq<MessageDef>, frameId: nat, i: nat)
    ensures FindFrame(defs, frameId, i).None? <==> forall m: nat :: !FirstWithId(defs, frameId, i, m)
  {
    var r := FindFrame(defs, frameId, i);
    if r.Some? {
      FindFrameIff(defs, frameId, i, r.value);
    } else {
      forall m: nat
        ensures !FirstWithId(defs, frameId, i, m)
      {
        FindFrameIff(defs, frameId, i, m);
      }
    }
  }

  /** Message m is the first with this frame id and this mux id. */
  predicate FirstWithMux(defs: seq<MessageDef>, muxId: int, frameId: nat, m: nat) {
    && m < |defs| && defs[m].frameId == frameId && defs[m].muxId == muxId
    && forall j :: 0 <= j < m ==> defs[j].frameId != frameId || defs[j].muxId != muxId
  }

  lemma FindMuxIff(defs: seq<MessageDef>, muxId: int, frameId: nat, m: nat)
    ensures FindMux(defs, muxId, frameId) == Some(m) <==> muxId != 0 && FirstWithMux(defs, muxId, frameId, m)
  {
  }

  lemma FindMuxNone(defs: seq<MessageDef>, muxId: int, frameId: nat)
    ensures FindMux(defs, muxId, frameId).None? <==>
      muxId == 0 || forall m :: 0 <= m < |defs| ==> defs[m].frameId != frameId || defs[m].muxId != muxId
  {
  }

  function SetBuffer(st: State, m: nat, buffer: seq<byte>): State
    requires m < |st.msgs|
  {
    st.(msgs := st.msgs[m := st.msgs[m].(buffer := buffer)])
  }

  /** Compares the hash of the new buffer content with the stored checksum. */
  function Refresh(m: MsgState): MsgState {
    m.(update := Hash(m.buffer) != m.checksum, checksum := Hash(m.buffer))
  }

  function RefreshAt(st: State, m: nat): State
    requires m < |st.msgs|
  {
    st.(msgs := st.msgs[m := Refresh(st.msgs[m])])
  }

  /** The mux id that the header signal of a container decodes to. */
  function MuxOf(cfg: Config, st: State, k: nat): int
    requires cfg.Valid() && st.Shape(cfg) && k < |cfg.items|
  {
    Truncate(DecodeItem(cfg, st, k).sv[k])
  }

  /** _process_message. Messages with a mux signal have mux id 0, so that the contained message found has none,
    * and the recursion ends there. */
  function Process(cfg: Config, st: State, m: nat, frame: Frame): (r: State)
    requires cfg.Valid() && st.Shape(cfg) && m < |cfg.defs|
    ensures r.Shape(cfg)
    decreases if cfg.mux[m].Some? then 1 else 0
  {
    var u := cfg.defs[m].unpack(st.msgs[m].buffer, frame.data);
    var st1 := SetBuffer(st, m, u.buffer);
    if u.rc != 0 then st1
    else if cfg.mux[m].None? then RefreshAt(st1, m)
    else
      var k := cfg.mux[m].value;
      var st2 := DecodeItem(cfg, st1, k);
      match FindMux(cfg.defs, MuxOf(cfg, st1, k), frame.frameId)
      case None => RefreshAt(st2, m)
      case Some(c) => RefreshAt(Process(cfg, st2, c, frame), m)
  }

  function ReceiveFrame(cfg: Config, st: State, frame: Frame): (r: State)
    requires cfg.Valid() && st.Shape(cfg)
    ensures r.Shape(cfg)
  {
    match FindFrame(cfg.defs, frame.frameId, 0)
    case None => st
    case Some(m) => Process(cfg, st, m, frame)
  }

  /** All frames on the bus, in order. */
  function Receive(cfg: Config, st: State, frames: seq<Frame>): (r: State)
    requires cfg.Valid() && st.Shape(cfg)
    ensures r.Shape(cfg)
    decreases |frames|
  {
    if frames == [] then st else Receive(cfg, ReceiveFrame(cfg, st, frames[0]), frames[1..])
  }

  method FindMuxMessage(n: Network, muxId: int, frameId: nat) returns (r: Option<nat>)
    requires n.Valid()
    ensures r == FindMux(n.cfg.defs, muxId, frameId)
  {
    if muxId == 0 {
      return None;
    }
    for i := 0 to |n.messages|
      invariant FindFrom(n.cfg.defs, muxId, frameId, i) == FindFrom(n.cfg.defs, muxId, frameId, 0)
    {
      if n.messages[i].def.frameId == frameId {
        if n.messages[i].def.muxId == muxId {
          return Some(i);
        }
      }
    }
    return None;
  }

  /** Copies a frame into the buffer of a message. */
  method UnpackInto(n: Network, m: nat, data: seq<byte>) returns (rc: int)
    requires n.Valid() && m < |n.messages|
    modifies n.Repr
    ensures rc == n.cfg.defs[m].unpack(old(n.Views())[m].buffer, data).rc
    ensures n.View() == SetBuffer(old(n.View()), m, n.cfg.defs[m].unpack(old(n.Views())[m].buffer, data).buffer)
  {
    n.Alone(m);
    var nm := n.messages[m];
    var u := nm.def.unpack(nm.buffer[..], data);
    Fill(nm.buffer, u.buffer);
    rc := u.rc;
  }

  method RefreshMessage(n: Network, m: nat)
    requires n.Valid() && m < |n.messages|
    modifies n.Repr
    ensures n.View() == RefreshAt(old(n.View()), m)
  {
    n.Alone(m);
    var nm := n.messages[m];
    var sum := UidHash(nm.buffer);
    nm.updateSignals := false;
    if sum == nm.bufferChecksum {
      return;
    }
    nm.bufferChecksum := sum;
    nm.updateSignals := true;
  }

  method ProcessMessage(n: Network, m: nat, frame: Frame)
    requires n.Valid() && m < |n.messages|
    modifies n.Repr
    ensures n.View() == Process(n.cfg, old(n.View()), m, frame)
    decreases if n.cfg.mux[m].Some? then 1 else 0
  {
    var rc := UnpackInto(n, m, frame.data);
    if rc != 0 {
      return;
    }
    if n.cfg.mux[m].Some? {
      var k := n.cfg.mux[m].value;
      MarshalMessagesToSignals(n, k, true);
      var found := FindMuxMessage(n, Truncate(n.signalVector[k]), frame.frameId);
      if found.Some? {
        ProcessMessage(n, found.value, frame);
      }
    }
    RefreshMessage(n, m);
  }

  method ProcessCanFrame(n: Network, frame: Frame)
    requires n.Valid()
    modifies n.Repr
    ensures n.View() == ReceiveFrame(n.cfg, old(n.View()), frame)
  {
    var i := 0;
    while i < |n.messages| && n.messages[i].def.frameId != 0
      invariant 0 <= i <= |n.messages|
      invariant FindFrame(n.cfg.defs, frame.frameId, i) == FindFrame(n.cfg.defs, frame.frameId, 0)
    {
      if n.messages[i].def.frameId == frame.frameId {
        break;
      }
      i := i + 1;
    }
    if i < |n.messages| && n.messages[i].def.frameId != 0 {
      ProcessMessage(n, i, frame);
    }
  }

  method DecodeFromBus(n: Network, frames: seq<Frame>)
    requires n.Valid()
    modifies n.Repr
    ensures n.View() == Receive(n.cfg, old(n.View()), frames)
  {
    ghost var start := n.View();
    ghost var goal := Receive(n.cfg, start, frames);
    ghost var cur := start;
    for i := 0 to |frames|
      invariant cur == n.View() && cur.Shape(n.cfg)
      invariant Receive(n.cfg, cur, frames[i..]) == goal
    {
      assert frames[i..][1..] == frames[i + 1..];
      ProcessCanFrame(n, frames[i]);
      cur := ReceiveFrame(n.cfg, cur, frames[i]);
    }
  }

  // ---- Transmit ----

  function FrameOf(def: MessageDef, m: MsgState): Frame {
    Frame(def.frameId, def.frameType, m.payload)
  }

  /** The messages to send among the first n, in order. */
  function Pending(msgs: seq<MsgState>, n: nat): (r: seq<nat>)
    requires n <= |msgs|
    ensures forall i :: 0 <= i < |r| ==> r[i] < n
  {
    if n == 0 then []
    else
      var p := Pending(msgs, n - 1);
      if msgs[n - 1].needsTx then p + [n - 1] else p
  }

  lemma {:induction false} PendingIff(msgs: seq<MsgState>, n: nat, m: nat)
    requires n <= |msgs|
    ensures m in Pending(msgs, n) <==> m < n && msgs[m].needsTx
  {
    if n > 0 {
      PendingIff(msgs, n - 1, m);
    }
  }

  lemma {:induction false} PendingSorted(msgs: seq<MsgState>, n: nat)
    requires n <= |msgs|
    ensures forall i, j :: 0 <= i < j < |Pending(msgs, n)| ==> Pending(msgs, n)[i] < Pending(msgs, n)[j]
  {
    if n > 0 {
      PendingSorted(msgs, n - 1);
    }
  }

  /** What network_encode_to_bus writes for one message. */
  function Sends(def: MessageDef, m: MsgState): seq<Frame> {
    if m.needsTx then [FrameOf(def, m)] else []
  }

  /** The frames written for the first n messages. */
  function Written(cfg: Config, msgs: seq<MsgState>, n: nat): seq<Frame>
    requires n <= |msgs| == |cfg.defs|
  {
    if n == 0 then [] else Written(cfg, msgs, n - 1) + Sends(cfg.defs[n - 1], msgs[n - 1])
  }

  /** The frames of the messages at the given positions, one each. */
  ghost predicate FramesOf(cfg: Config, msgs: seq<MsgState>, frames: seq<Frame>, at: seq<nat>)
    requires |msgs| == |cfg.defs|
  {
    |frames| == |at| && forall i :: 0 <= i < |at| ==>
      at[i] < |msgs| && var def := cfg.defs[at[i]]; frames[i] == Frame(def.frameId, def.frameType, msgs[at[i]].payload)
  }

  lemma FramesOfMore(cfg: Config, msgs: seq<MsgState>, frames: seq<Frame>, at: seq<nat>, m: nat)
    requires |msgs| == |cfg.defs| && m < |msgs| && FramesOf(cfg, msgs, frames, at)
    ensures FramesOf(cfg, msgs, frames + [FrameOf(cfg.defs[m], msgs[m])], at + [m])
    ensures FramesOf(cfg, msgs, frames + [], at)
  {
    assert frames + [] == frames;
  }

  /** Each pending message is written exactly once, and nothing else is. */
  lemma {:induction false} WrittenOnce(cfg: Config, msgs: seq<MsgState>, n: nat)
    requires n <= |msgs| == |cfg.defs|
    ensures FramesOf(cfg, msgs, Written(cfg, msgs, n), Pending(msgs, n))
  {
    if n > 0 {
      WrittenOnce(cfg, msgs, n - 1);
      var w, p := Written(cfg, msgs, n - 1), Pending(msgs, n - 1);
      FramesOfMore(cfg, msgs, w, p, n - 1);
      assert Written(cfg, msgs, n) == w + Sends(cfg.defs[n - 1], msgs[n - 1]);
      assert Pending(msgs, n) == if msgs[n - 1].needsTx then p + [n - 1] else p;
    }
  }

  function ClearTx(msgs: seq<MsgState>): (r: seq<MsgState>)
    ensures |r| == |msgs| && forall m :: 0 <= m < |msgs| ==> r[m] == msgs[m].(needsTx := false)
  {
    seq(|msgs|, m requires 0 <= m < |msgs| => msgs[m].(needsTx := false))
  }

  /** TX of one message. */
  method WriteFrame(nm: Message) returns (frames: seq<Frame>)
    modifies nm`needsTx
    ensures frames == Sends(nm.def, old(nm.View()))
    ensures nm.View() == old(nm.View()).(needsTx := false)
  {
    frames := [];
    if nm.needsTx {
      frames := [Frame(nm.def.frameId, nm.def.frameType, nm.payload[..])];
      nm.needsTx := false;
    }
  }

  method EncodeToBus(n: Network) returns (frames: seq<Frame>)
    requires n.Valid()
    modifies n.Repr
    ensures n.View() == old(n.View()).(msgs := ClearTx(old(n.Views())))
    ensures frames == Written(n.cfg, old(n.Views()), |n.messages|)
  {
    frames := [];
    ghost var before := n.Views();
    ghost var after := ClearTx(before);
    for m := 0 to |n.messages|
      invariant n.signalVector[..] == old(n.signalVector[..])
      invariant forall i :: 0 <= i < |n.messages| ==>
        n.messages[i].View() == if i < m then after[i] else before[i]
      invariant frames == Written(n.cfg, before, m)
    {
      n.Alone(m);
      var written := WriteFrame(n.messages[m]);
      frames := frames + written;
    }
  }
}
