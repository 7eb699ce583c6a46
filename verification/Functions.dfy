/** Applying the message functions to payloads (dse/network/function.c). Functions report success or, when
  * decoding, EBADMSG; any other code ends the program. */
module Functions {
  import opened Bytes
  import opened Fnv
  import opened Net

  /** All functions from i on, each on the result of the one before. */
  function RunEncode(fs: seq<EncodeFunc>, i: nat, payload: seq<byte>): seq<byte>
    requires i <= |fs|
    decreases |fs| - i
  {
    if i == |fs| then payload else RunEncode(fs, i + 1, fs[i](payload))
  }

  /** One BadMsg is enough, but the remaining functions still run. */
  function RunDecode(fs: seq<DecodeFunc>, i: nat, ok: bool, payload: seq<byte>): (bool, seq<byte>)
    requires i <= |fs|
    decreases |fs| - i
  {
    if i == |fs| then (ok, payload)
    else
      var (v, p) := fs[i](payload);
      RunDecode(fs, i + 1, ok && v.Good?, p)
  }

  /** The payload that decode function k is given, when the functions from i on are run on payload. */
  function Seen(fs: seq<DecodeFunc>, i: nat, k: nat, payload: seq<byte>): seq<byte>
    requires i <= k <= |fs|
    decreases k
  {
    if k == i then payload else fs[k - 1](Seen(fs, i, k - 1, payload)).1
  }

  lemma {:induction false} SeenFromNext(fs: seq<DecodeFunc>, i: nat, k: nat, payload: seq<byte>)
    requires i < k <= |fs|
    ensures Seen(fs, i, k, payload) == Seen(fs, i + 1, k, fs[i](payload).1)
    decreases k
  {
    if i + 1 < k {
      SeenFromNext(fs, i, k - 1, payload);
    }
  }

  /** Is decode function k content with the payload it sees? */
  predicate Content(fs: seq<DecodeFunc>, i: nat, k: nat, payload: seq<byte>)
    requires i <= k < |fs|
  {
    fs[k](Seen(fs, i, k, payload)).0.Good?
  }

  lemma ContentFromNext(fs: seq<DecodeFunc>, i: nat, next: nat, payload: seq<byte>)
    requires i < |fs| && next == i + 1
    ensures (forall k :: i <= k < |fs| ==> Content(fs, i, k, payload)) <==>
      fs[i](payload).0.Good? && forall k :: next <= k < |fs| ==> Content(fs, next, k, fs[i](payload).1)
  {
    assert Content(fs, i, i, payload) <==> fs[i](payload).0.Good?;
    forall k | next <= k < |fs|
      ensures Content(fs, i, k, payload) <==> Content(fs, next, k, fs[i](payload).1)
    {
      SeenFromNext(fs, i, k, payload);
    }
  }

  /** The verdict is good if and only if each function is content with the payload it sees; a bad verdict is final, but
    * the functions after it still change the payload. */
  lemma {:induction false} VerdictIff(fs: seq<DecodeFunc>, i: nat, ok: bool, payload: seq<byte>)
    requires i <= |fs|
    ensures RunDecode(fs, i, ok, payload).0 <==> ok && forall k :: i <= k < |fs| ==> Content(fs, i, k, payload)
    ensures RunDecode(fs, i, ok, payload).1 == Seen(fs, i, |fs|, payload)
    decreases |fs| - i
  {
    if i < |fs| {
      VerdictIff(fs, i + 1, ok && fs[i](payload).0.Good?, fs[i](payload).1);
      ContentFromNext(fs, i, i + 1, payload);
      SeenFromNext(fs, i, |fs|, payload);
    }
  }

  /** network_function_apply_encode on one message. */
  function EncodeMsg(def: MessageDef, m: MsgState, netOff: bool): MsgState {
    if netOff then m.(needsTx := false)
    else if !m.needsTx then m
    else
      var p := RunEncode(def.encodeFuncs, 0, m.payload);
      if Hash(p) == Hash(m.payload) then m.(payload := p)
      else
        var b := def.unpack(m.buffer, p).buffer;
        m.(payload := p, update := true, buffer := b, checksum := Hash(b))
  }

  /** network_function_apply_decode on one message. */
  function DecodeMsg(def: MessageDef, m: MsgState): MsgState {
    if !m.update then m
    else
      var (ok, p) := RunDecode(def.decodeFuncs, 0, true, m.payload);
      m.(payload := p, update := ok)
  }

  function EncodeAll(cfg: Config, msgs: seq<MsgState>, netOff: bool): (r: seq<MsgState>)
    requires |msgs| == |cfg.defs|
    ensures |r| == |msgs| && forall m :: 0 <= m < |msgs| ==> r[m] == EncodeMsg(cfg.defs[m], msgs[m], netOff)
  {
    seq(|msgs|, m requires 0 <= m < |msgs| => EncodeMsg(cfg.defs[m], msgs[m], netOff))
  }

  function DecodeAll(cfg: Config, msgs: seq<MsgState>): (r: seq<MsgState>)
    requires |msgs| == |cfg.defs|
    ensures |r| == |msgs| && forall m :: 0 <= m < |msgs| ==> r[m] == DecodeMsg(cfg.defs[m], msgs[m])
  {
    seq(|msgs|, m requires 0 <= m < |msgs| => DecodeMsg(cfg.defs[m], msgs[m]))
  }

  /** Runs the encode functions of a message in place. */
  method CallEncode(nm: Message)
    requires nm.Valid()
    modifies nm.payload
    ensures nm.payload[..] == RunEncode(nm.def.encodeFuncs, 0, old(nm.payload[..]))
  {
    ghost var goal := RunEncode(nm.def.encodeFuncs, 0, nm.payload[..]);
    for i := 0 to |nm.def.encodeFuncs|
      invariant RunEncode(nm.def.encodeFuncs, i, nm.payload[..]) == goal
    {
      var f := nm.def.encodeFuncs[i];
      assert f in nm.def.encodeFuncs;
      var p := f(nm.payload[..]);
      Fill(nm.payload, p);
    }
  }

  method CallDecode(nm: Message)
    requires nm.Valid() && nm.updateSignals
    modifies nm`updateSignals, nm.payload
    ensures (nm.updateSignals, nm.payload[..]) == RunDecode(nm.def.decodeFuncs, 0, true, old(nm.payload[..]))
  {
    ghost var goal := RunDecode(nm.def.decodeFuncs, 0, true, nm.payload[..]);
    for i := 0 to |nm.def.decodeFuncs|
      invariant RunDecode(nm.def.decodeFuncs, i, nm.updateSignals, nm.payload[..]) == goal
    {
      var f := nm.def.decodeFuncs[i];
      assert f in nm.def.decodeFuncs;
      var (v, p) := f(nm.payload[..]);
      Fill(nm.payload, p);
      match v {
        case Good =>
        case BadMsg => nm.updateSignals := false;
      }
    }
  }

  method EncodeMessage(nm: Message, netOff: bool)
    requires nm.Valid()
    modifies nm, nm.payload, nm.buffer
    ensures nm.View() == EncodeMsg(nm.def, old(nm.View()), netOff)
  {
    if netOff {
      nm.needsTx := false;
    }
    if !nm.needsTx {
      return;
    }
    var before := UidHash(nm.payload);
    CallEncode(nm);
    var after := UidHash(nm.payload);
    if after != before {
      nm.updateSignals := true;
      var u := nm.def.unpack(nm.buffer[..], nm.payload[..]);
      Fill(nm.buffer, u.buffer);
      var sum := UidHash(nm.buffer);
      nm.bufferChecksum := sum;
    }
  }

  method ApplyEncode(n: Network, netOff: bool)
    requires n.Valid()
    modifies n.Repr
    ensures n.View() == old(n.View()).(msgs := EncodeAll(n.cfg, old(n.Views()), netOff))
  {
    ghost var before := n.Views();
    ghost var after := EncodeAll(n.cfg, before, netOff);
    for m := 0 to |n.messages|
      invariant n.signalVector[..] == old(n.signalVector[..])
      invariant forall i :: 0 <= i < |n.messages| ==>
        n.messages[i].View() == if i < m then after[i] else before[i]
    {
      n.Alone(m);
      EncodeMessage(n.messages[m], netOff);
    }
  }

  method ApplyDecode(n: Network)
    requires n.Valid()
    modifies n.Repr
    ensures n.View() == old(n.View()).(msgs := DecodeAll(n.cfg, old(n.Views())))
  {
    ghost var before := n.Views();
    ghost var after := DecodeAll(n.cfg, before);
    for m := 0 to |n.messages|
      invariant n.signalVector[..] == old(n.signalVector[..])
      invariant forall i :: 0 <= i < |n.messages| ==>
        n.messages[i].View() == if i < m then after[i] else before[i]
    {
      n.Alone(m);
      var nm := n.messages[m];
      assert nm.View() == before[m];
      if nm.updateSignals {
        CallDecode(nm);
      }
    }
  }
}
