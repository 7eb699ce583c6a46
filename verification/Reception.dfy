/** What receiving frames does to each message. */
module Reception {
  import opened Bytes
  import opened Fnv
  import opened Net
  import opened Engine
  import opened Encoder

  /** The stored checksum agrees with the buffer. */
  predicate Coherent(m: MsgState) {
    m.checksum == Hash(m.buffer)
  }

  /** What reception keeps of a message. */
  ghost predicate Kept(def: MessageDef, s: MsgState, r: MsgState) {
    && r.payload == s.payload && r.needsTx == s.needsTx && |r.buffer| == |s.buffer|
    && (def.UnpackKeepsOnError() && Coherent(s) ==> Coherent(r))
  }

  lemma {:induction false} ProcessKeeps(cfg: Config, st: State, m: nat, frame: Frame, i: nat)
    requires cfg.Valid() && st.Shape(cfg) && m < |cfg.defs| && i < |cfg.defs|
    requires cfg.defs[i].KeepsLengths()
    ensures Kept(cfg.defs[i], st.msgs[i], Process(cfg, st, m, frame).msgs[i])
    decreases if cfg.mux[m].Some? then 1 else 0
  {
    var u := cfg.defs[m].unpack(st.msgs[m].buffer, frame.data);
    var st1 := SetBuffer(st, m, u.buffer);
    if u.rc == 0 && cfg.mux[m].Some? {
      var k := cfg.mux[m].value;
      var st2 := DecodeItem(cfg, st1, k);
      var found := FindMux(cfg.defs, MuxOf(cfg, st1, k), frame.frameId);
      if found.Some? {
        ProcessKeeps(cfg, st2, found.value, frame, i);
      }
    }
  }

  /** Receiving any frames leaves every payload alone: decode functions are later applied to what was
    * packed last, never to what was received. Coherent messages stay coherent. */
  lemma {:induction false} ReceiveKeeps(cfg: Config, st: State, frames: seq<Frame>, i: nat)
    requires cfg.Valid() && st.Shape(cfg) && i < |cfg.defs|
    requires cfg.defs[i].KeepsLengths()
    ensures Kept(cfg.defs[i], st.msgs[i], Receive(cfg, st, frames).msgs[i])
    decreases |frames|
  {
    if frames != [] {
      var found := FindFrame(cfg.defs, frames[0].frameId, 0);
      if found.Some? {
        ProcessKeeps(cfg, st, found.value, frames[0], i);
      }
      ReceiveKeeps(cfg, ReceiveFrame(cfg, st, frames[0]), frames[1..], i);
    }
  }

  // ---- Batches of frames ----

  /** Frames with the id of m go to m, which may be a container. */
  predicate First(cfg: Config, m: nat) {
    m < |cfg.defs| && FindFrame(cfg.defs, cfg.defs[m].frameId, 0) == Some(m)
  }

  /** What a message takes from a frame. */
  function Take(def: MessageDef, s: MsgState, frame: Frame): MsgState {
    var u := def.unpack(s.buffer, frame.data);
    if frame.frameId == def.frameId && u.rc == 0 then Refresh(s.(buffer := u.buffer)) else s
  }

  /** The successive contents of a buffer that the given frames are unpacked into. */
  function Contents(def: MessageDef, buffer: seq<byte>, frames: seq<Frame>): (r: seq<seq<byte>>)
    ensures |r| > 0 && r[0] == buffer
    decreases |frames|
  {
    if frames == [] then [buffer]
    else if frames[0].frameId == def.frameId && def.unpack(buffer, frames[0].data).rc == 0 then
      [buffer] + Contents(def, def.unpack(buffer, frames[0].data).buffer, frames[1..])
    else
      Contents(def, buffer, frames[1..])
  }

  /** Message s, after the frames that are for it: the buffer is the in-order fold of the successful ones, with its hash as
    * checksum; the flag tells whether the hash of the last of them differs from the one before, the first being compared
    * with the stored checksum. Without any, nothing changes. */
  ghost predicate Batch(def: MessageDef, s: MsgState, frames: seq<Frame>, r: MsgState) {
    var c := Contents(def, s.buffer, frames);
    var n := |c| - 1;
    && r.buffer == c[n]
    && r.checksum == (if n == 0 then s.checksum else Hash(c[n]))
    && r.update == (if n == 0 then s.update else Hash(c[n]) != if n == 1 then s.checksum else Hash(c[n - 1]))
    && r.payload == s.payload && r.needsTx == s.needsTx
  }

  lemma BatchNext(def: MessageDef, s: MsgState, frames: seq<Frame>, r: MsgState)
    requires frames != [] && Batch(def, Take(def, s, frames[0]), frames[1..], r)
    ensures Batch(def, s, frames, r)
  {
    var c, c1 := Contents(def, s.buffer, frames), Contents(def, Take(def, s, frames[0]).buffer, frames[1..]);
    assert c == c1 || c == [s.buffer] + c1;
  }

  /** One frame, seen from such a message. */
  lemma FirstFrame(cfg: Config, st: State, m: nat, frame: Frame)
    requires cfg.Valid() && st.Shape(cfg) && First(cfg, m) && cfg.defs[m].UnpackKeepsOnError()
    ensures ReceiveFrame(cfg, st, frame).msgs[m] == Take(cfg.defs[m], st.msgs[m], frame)
  {
    var found := FindFrame(cfg.defs, frame.frameId, 0);
    if found.Some? && found.value != m {
      Elsewhere(cfg, st, found.value, frame, m);
    } else if found.Some? && cfg.mux[m].Some? && cfg.defs[m].unpack(st.msgs[m].buffer, frame.data).rc == 0 {
      ContainerFrame(cfg, st, m, frame);
    }
  }

  /** Messages with another frame id are not touched. */
  lemma Elsewhere(cfg: Config, st: State, c: nat, frame: Frame, m: nat)
    requires cfg.Valid() && st.Shape(cfg) && c < |cfg.defs| && m < |cfg.defs|
    requires cfg.defs[c].frameId == frame.frameId != cfg.defs[m].frameId
    ensures Process(cfg, st, c, frame).msgs[m] == st.msgs[m]
  {
  }

  /** Any batch of frames, seen from a plain message or a container. */
  lemma {:induction false} BatchReceive(cfg: Config, st: State, m: nat, frames: seq<Frame>)
    requires cfg.Valid() && st.Shape(cfg) && First(cfg, m) && cfg.defs[m].UnpackKeepsOnError()
    ensures Batch(cfg.defs[m], st.msgs[m], frames, Receive(cfg, st, frames).msgs[m])
    decreases |frames|
  {
    if frames != [] {
      FirstFrame(cfg, st, m, frames[0]);
      BatchReceive(cfg, ReceiveFrame(cfg, st, frames[0]), m, frames[1..]);
      BatchNext(cfg.defs[m], st.msgs[m], frames, Receive(cfg, st, frames).msgs[m]);
    }
  }

  /** No frame is for this message. */
  predicate NoneFor(frames: seq<Frame>, id: nat) {
    forall i :: 0 <= i < |frames| ==> frames[i].frameId != id
  }

  /** Of these frames, exactly the one at position p has this id. */
  predicate OnlyAt(frames: seq<Frame>, id: nat, p: nat) {
    p < |frames| && forall i :: 0 <= i < |frames| ==> (frames[i].frameId == id <==> i == p)
  }

  lemma {:induction false} NoContents(def: MessageDef, buffer: seq<byte>, frames: seq<Frame>)
    requires NoneFor(frames, def.frameId)
    ensures Contents(def, buffer, frames) == [buffer]
    decreases |frames|
  {
    if frames != [] {
      NoContents(def, buffer, frames[1..]);
    }
  }

  /** One frame among any others. */
  lemma {:induction false} OneContent(def: MessageDef, buffer: seq<byte>, frames: seq<Frame>, p: nat, v: seq<byte>)
    requires OnlyAt(frames, def.frameId, p) && def.unpack(buffer, frames[p].data) == Unpacked(0, v)
    ensures Contents(def, buffer, frames) == [buffer, v]
    decreases |frames|
  {
    if p == 0 {
      NoContents(def, v, frames[1..]);
    } else {
      OneContent(def, buffer, frames[1..], p - 1, v);
    }
  }

  /** This frame is the only one with its id. */
  ghost predicate Only(frames: seq<Frame>, frame: Frame) {
    exists p: nat :: OnlyAt(frames, frame.frameId, p) && frames[p] == frame
  }

  lemma Single(frame: Frame)
    ensures Only([frame], frame)
  {
    assert OnlyAt([frame], frame.frameId, 0);
  }

  /** A message that receives one frame, among any with other ids, holds what that frame brings, and is flagged exactly if
    * the hash of that is not the stored one. */
  lemma OneTaken(cfg: Config, st: State, m: nat, frames: seq<Frame>, frame: Frame, v: seq<byte>)
    requires cfg.Valid() && st.Shape(cfg) && First(cfg, m) && cfg.defs[m].UnpackKeepsOnError()
    requires Only(frames, frame) && frame.frameId == cfg.defs[m].frameId
    requires cfg.defs[m].unpack(st.msgs[m].buffer, frame.data) == Unpacked(0, v)
    ensures var r := Receive(cfg, st, frames).msgs[m];
      r.buffer == v && r.checksum == Hash(v) && (r.update <==> Hash(v) != st.msgs[m].checksum)
  {
    var p: nat :| OnlyAt(frames, frame.frameId, p) && frames[p] == frame;
    OneContent(cfg.defs[m], st.msgs[m].buffer, frames, p, v);
    BatchReceive(cfg, st, m, frames);
  }

  lemma NoneTaken(cfg: Config, st: State, m: nat, frames: seq<Frame>)
    requires cfg.Valid() && st.Shape(cfg) && First(cfg, m) && cfg.defs[m].UnpackKeepsOnError()
    requires NoneFor(frames, cfg.defs[m].frameId)
    ensures Receive(cfg, st, frames).msgs[m] == st.msgs[m]
  {
    NoContents(cfg.defs[m], st.msgs[m].buffer, frames);
    BatchReceive(cfg, st, m, frames);
  }

  // ---- Signals ----

  lemma {:induction false} ProcessKeepsSignal(cfg: Config, st: State, m: nat, frame: Frame, j: nat)
    requires cfg.Valid() && st.Shape(cfg) && m < |cfg.defs| && j < |cfg.items| && cfg.mux[cfg.items[j].msg].None?
    ensures Process(cfg, st, m, frame).sv[j] == st.sv[j]
    decreases if cfg.mux[m].Some? then 1 else 0
  {
    var u := cfg.defs[m].unpack(st.msgs[m].buffer, frame.data);
    var st1 := SetBuffer(st, m, u.buffer);
    if u.rc == 0 && cfg.mux[m].Some? {
      var k := cfg.mux[m].value;
      var found := FindMux(cfg.defs, MuxOf(cfg, st1, k), frame.frameId);
      if found.Some? {
        ProcessKeepsSignal(cfg, DecodeItem(cfg, st1, k), found.value, frame, j);
      }
    }
  }

  /** Receiving writes no signal but those of containers. */
  lemma {:induction false} ReceiveKeepsSignal(cfg: Config, st: State, frames: seq<Frame>, j: nat)
    requires cfg.Valid() && st.Shape(cfg) && j < |cfg.items| && cfg.mux[cfg.items[j].msg].None?
    ensures Receive(cfg, st, frames).sv[j] == st.sv[j]
    decreases |frames|
  {
    if frames != [] {
      var found := FindFrame(cfg.defs, frames[0].frameId, 0);
      if found.Some? {
        ProcessKeepsSignal(cfg, st, found.value, frames[0], j);
      }
      ReceiveKeepsSignal(cfg, ReceiveFrame(cfg, st, frames[0]), frames[1..], j);
    }
  }

  /** The messages that frames go to: the first with its frame id, before any with frame id 0. */
  lemma FirstIff(cfg: Config, m: nat)
    requires m < |cfg.defs|
    ensures First(cfg, m) <==>
      && (forall j :: 0 <= j <= m ==> cfg.defs[j].frameId != 0)
      && (forall j :: 0 <= j < m ==> cfg.defs[j].frameId != cfg.defs[m].frameId)
  {
    FindFrameIff(cfg.defs, cfg.defs[m].frameId, 0, m);
  }

  // ---- Containers ----

  /** Processing without dispatch. */
  function Undispatched(def: MessageDef, s: MsgState, data: seq<byte>): MsgState {
    var u := def.unpack(s.buffer, data);
    if u.rc != 0 then s.(buffer := u.buffer) else Refresh(s.(buffer := u.buffer))
  }

  /** A container frame changes the container, the first message with that frame and mux id (if the header
    * names one), and no other; of the signals, only the mux signal. */
  lemma ContainerFrame(cfg: Config, st: State, c: nat, frame: Frame)
    requires cfg.Valid() && st.Shape(cfg) && c < |cfg.defs| && cfg.mux[c].Some?
    requires cfg.defs[c].unpack(st.msgs[c].buffer, frame.data).rc == 0
    requires FindFrame(cfg.defs, frame.frameId, 0) == Some(c)
    ensures var k := cfg.mux[c].value;
      var st1 := SetBuffer(st, c, cfg.defs[c].unpack(st.msgs[c].buffer, frame.data).buffer);
      var r := ReceiveFrame(cfg, st, frame);
      var target := FindMux(cfg.defs, MuxOf(cfg, st1, k), frame.frameId);
      && r.msgs[c] == Undispatched(cfg.defs[c], st.msgs[c], frame.data)
      && (forall i :: 0 <= i < |cfg.defs| && i != c ==>
        r.msgs[i] == if target == Some(i) then Undispatched(cfg.defs[i], st.msgs[i], frame.data) else st.msgs[i])
      && (forall j :: 0 <= j < |cfg.items| && j != k ==> r.sv[j] == st.sv[j])
      && r.sv[k] == if Readable(cfg, st1, k) then Decoded(cfg, st1, k) else st.sv[k]
  {
    var k := cfg.mux[c].value;
    var st1 := SetBuffer(st, c, cfg.defs[c].unpack(st.msgs[c].buffer, frame.data).buffer);
    var st2 := DecodeItem(cfg, st1, k);
    var target := FindMux(cfg.defs, MuxOf(cfg, st1, k), frame.frameId);
    if target.Some? {
      var t := target.value;
      assert cfg.mux[t].None?;
      var st3 := Process(cfg, st2, t, frame);
      assert st3.msgs == st2.msgs[t := Undispatched(cfg.defs[t], st2.msgs[t], frame.data)];
      assert ReceiveFrame(cfg, st, frame) == RefreshAt(st3, c);
    } else {
      assert ReceiveFrame(cfg, st, frame) == RefreshAt(st2, c);
    }
  }

  /** The same in terms of the network: the header value, cut to an integer, names the contained message, which is the
    * first one with that mux id and the frame id of the frame. */
  lemma ContainerFrameIs(cfg: Config, st: State, c: nat, frame: Frame, header: real)
    requires cfg.Valid() && st.Shape(cfg) && c < |cfg.defs| && cfg.mux[c].Some?
    requires cfg.defs[c].unpack(st.msgs[c].buffer, frame.data).rc == 0
    requires FirstWithId(cfg.defs, frame.frameId, 0, c)
    requires var st1 := SetBuffer(st, c, cfg.defs[c].unpack(st.msgs[c].buffer, frame.data).buffer);
      header == if Readable(cfg, st1, cfg.mux[c].value) then Decoded(cfg, st1, cfg.mux[c].value)
                else st.sv[cfg.mux[c].value]
    ensures var r := ReceiveFrame(cfg, st, frame);
      && r.msgs[c] == Unpacking(cfg.defs[c], st.msgs[c], frame.data)
      && r.sv == st.sv[cfg.mux[c].value := header]
      && forall i :: 0 <= i < |cfg.defs| && i != c ==>
           r.msgs[i] ==
             if Truncate(header) != 0 && FirstWithMux(cfg.defs, Truncate(header), frame.frameId, i)
             then Unpacking(cfg.defs[i], st.msgs[i], frame.data)
             else st.msgs[i]
  {
    var k := cfg.mux[c].value;
    var st1 := SetBuffer(st, c, cfg.defs[c].unpack(st.msgs[c].buffer, frame.data).buffer);
    FindFrameIff(cfg.defs, frame.frameId, 0, c);
    ContainerFrame(cfg, st, c, frame);
    assert MuxOf(cfg, st1, k) == Truncate(header);
    forall i | 0 <= i < |cfg.defs|
      ensures FindMux(cfg.defs, Truncate(header), frame.frameId) == Some(i) <==>
        Truncate(header) != 0 && FirstWithMux(cfg.defs, Truncate(header), frame.frameId, i)
    {
      FindMuxIff(cfg.defs, Truncate(header), frame.frameId, i);
    }
  }

  /** What unpacking a frame makes of a message: on success the new hash is stored, and flagged if it was not stored
    * before; on an error nothing but what unpacking has written changes. */
  function Unpacking(def: MessageDef, s: MsgState, data: seq<byte>): MsgState {
    var u := def.unpack(s.buffer, data);
    if u.rc != 0 then s.(buffer := u.buffer)
    else s.(buffer := u.buffer, update := Hash(u.buffer) != s.checksum, checksum := Hash(u.buffer))
  }

  /** A container, as far as dispatch depends on it: its buffer, and its mux signal. */
  datatype Header = Header(buffer: seq<byte>, mux: real)

  ghost function HeaderOf(cfg: Config, st: State, c: nat): Header
    requires cfg.Valid() && st.Shape(cfg) && c < |cfg.defs| && cfg.mux[c].Some?
  {
    Header(st.msgs[c].buffer, st.sv[cfg.mux[c].value])
  }

  /** The header after the container has unpacked the data of a frame: a mux id that is out of range leaves the
    * last one. */
  ghost function NextHeader(cfg: Config, c: nat, h: Header, data: seq<byte>): Header
    requires cfg.Valid() && c < |cfg.defs| && cfg.mux[c].Some?
  {
    var u, it := cfg.defs[c].unpack(h.buffer, data), cfg.items[cfg.mux[c].value];
    var raw := Peek(u.buffer, it.At(), it.Width());
    Header(u.buffer,
           if u.rc == 0 && !it.signal.memberType.Unknown? && it.signal.codec.inRange(raw) then it.signal.codec.decode(raw)
           else h.mux)
  }

  /** The message that a frame is dispatched to. */
  ghost function Target(cfg: Config, c: nat, h: Header, frame: Frame): Option<nat>
    requires cfg.Valid() && c < |cfg.defs| && cfg.mux[c].Some?
  {
    if cfg.defs[c].unpack(h.buffer, frame.data).rc != 0 then None
    else FindMux(cfg.defs, Truncate(NextHeader(cfg, c, h, frame.data).mux), frame.frameId)
  }

  /** Those of the given frames that container c dispatches to message m. */
  ghost function Dispatched(cfg: Config, c: nat, m: nat, h: Header, frames: seq<Frame>): seq<Frame>
    requires cfg.Valid() && c < |cfg.defs| && cfg.mux[c].Some?
    decreases |frames|
  {
    if frames == [] then []
    else if frames[0].frameId != cfg.defs[c].frameId then Dispatched(cfg, c, m, h, frames[1..])
    else
      (if Target(cfg, c, h, frames[0]) == Some(m) then [frames[0]] else [])
      + Dispatched(cfg, c, m, NextHeader(cfg, c, h, frames[0].data), frames[1..])
  }

  /** The mux signal of a container is not touched by frames with another id. */
  lemma ElsewhereMux(cfg: Config, st: State, d: nat, frame: Frame, c: nat)
    requires cfg.Valid() && st.Shape(cfg) && c < |cfg.defs| && d < |cfg.defs| && cfg.mux[c].Some? && c != d
    ensures Process(cfg, st, d, frame).sv[cfg.mux[c].value] == st.sv[cfg.mux[c].value]
  {
  }

  /** One frame, seen from a container, and from a message with its frame id. */
  lemma DispatchedFrame(cfg: Config, st: State, c: nat, m: nat, frame: Frame)
    requires cfg.Valid() && st.Shape(cfg) && First(cfg, c) && cfg.mux[c].Some?
    requires m < |cfg.defs| && m != c && cfg.defs[m].frameId == cfg.defs[c].frameId && cfg.defs[m].UnpackKeepsOnError()
    ensures var r, h := ReceiveFrame(cfg, st, frame), HeaderOf(cfg, st, c);
      if frame.frameId != cfg.defs[c].frameId then HeaderOf(cfg, r, c) == h && r.msgs[m] == st.msgs[m]
      else
        && HeaderOf(cfg, r, c) == NextHeader(cfg, c, h, frame.data)
        && r.msgs[m] ==
          if Target(cfg, c, h, frame) == Some(m) then Take(cfg.defs[m], st.msgs[m], frame) else st.msgs[m]
  {
    var found := FindFrame(cfg.defs, frame.frameId, 0);
    if frame.frameId != cfg.defs[c].frameId {
      if found.Some? {
        Elsewhere(cfg, st, found.value, frame, m);
        Elsewhere(cfg, st, found.value, frame, c);
        ElsewhereMux(cfg, st, found.value, frame, c);
      }
    } else if cfg.defs[c].unpack(st.msgs[c].buffer, frame.data).rc == 0 {
      ContainerFrame(cfg, st, c, frame);
    }
  }

  /** Any batch of frames, seen from a contained message: as a plain message sees those that the container dispatches
    * to it. */
  lemma {:induction false} BatchDispatch(cfg: Config, st: State, c: nat, m: nat, frames: seq<Frame>)
    requires cfg.Valid() && st.Shape(cfg) && First(cfg, c) && cfg.mux[c].Some?
    requires m < |cfg.defs| && m != c && cfg.defs[m].frameId == cfg.defs[c].frameId && cfg.defs[m].UnpackKeepsOnError()
    ensures Batch(cfg.defs[m], st.msgs[m], Dispatched(cfg, c, m, HeaderOf(cfg, st, c), frames),
                  Receive(cfg, st, frames).msgs[m])
    decreases |frames|
  {
    if frames != [] {
      var h := HeaderOf(cfg, st, c);
      var all := Dispatched(cfg, c, m, h, frames);
      var st1 := ReceiveFrame(cfg, st, frames[0]);
      DispatchedFrame(cfg, st, c, m, frames[0]);
      BatchDispatch(cfg, st1, c, m, frames[1..]);
      if frames[0].frameId == cfg.defs[c].frameId && Target(cfg, c, h, frames[0]) == Some(m) {
        assert all[0] == frames[0] && all[1..] == Dispatched(cfg, c, m, HeaderOf(cfg, st1, c), frames[1..]);
        BatchNext(cfg.defs[m], st.msgs[m], all, Receive(cfg, st, frames).msgs[m]);
      } else {
        assert all == Dispatched(cfg, c, m, HeaderOf(cfg, st1, c), frames[1..]);
      }
    }
  }

  lemma {:induction false} NoneDispatched(cfg: Config, c: nat, m: nat, h: Header, frames: seq<Frame>)
    requires cfg.Valid() && c < |cfg.defs| && cfg.mux[c].Some? && NoneFor(frames, cfg.defs[c].frameId)
    ensures Dispatched(cfg, c, m, h, frames) == []
    decreases |frames|
  {
    if frames != [] {
      NoneDispatched(cfg, c, m, h, frames[1..]);
    }
  }

  /** One frame for the container, among any others: it is dispatched to its target. */
  lemma {:induction false} OneDispatched(cfg: Config, c: nat, m: nat, h: Header, frames: seq<Frame>, p: nat)
    requires cfg.Valid() && c < |cfg.defs| && cfg.mux[c].Some? && OnlyAt(frames, cfg.defs[c].frameId, p)
    ensures Dispatched(cfg, c, m, h, frames) == if Target(cfg, c, h, frames[p]) == Some(m) then [frames[p]] else []
    decreases |frames|
  {
    if p == 0 {
      NoneDispatched(cfg, c, m, NextHeader(cfg, c, h, frames[0].data), frames[1..]);
    } else {
      OneDispatched(cfg, c, m, h, frames[1..], p - 1);
    }
  }

  lemma OnlyDispatched(cfg: Config, c: nat, m: nat, h: Header, frames: seq<Frame>, frame: Frame)
    requires cfg.Valid() && c < |cfg.defs| && cfg.mux[c].Some? && Only(frames, frame) && frame.frameId == cfg.defs[c].frameId
    ensures Dispatched(cfg, c, m, h, frames) == if Target(cfg, c, h, frame) == Some(m) then [frame] else []
  {
    var p: nat :| OnlyAt(frames, frame.frameId, p) && frames[p] == frame;
    OneDispatched(cfg, c, m, h, frames, p);
  }
}
