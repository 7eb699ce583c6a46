/** Marshalling between the signal vector and the message buffers, and packing (dse/network/engine.c). */
module Engine {
  import opened Bytes
  import opened Fnv
  import opened Net

  // ---- Signals to messages ----

  /** The value that an item takes: internal signals of contained messages are constant. */
  function Value(cfg: Config, sv: seq<real>, k: nat): real
    requires cfg.Valid() && |sv| == |cfg.items| && k < |cfg.items|
  {
    var it := cfg.items[k];
    if it.signal.internal && cfg.defs[it.msg].contained then it.signal.value else sv[it.index]
  }

  /** The encoded value as it reaches the buffer. The int64_t arm holds it in an int16_t on the way. */
  function Cast(ty: MemberType, raw: int): (r: nat)
    ensures r < Pow256(ty.Width())
  {
    if ty.I64? then
      Pow256Values();
      var low := raw % 0x1_0000;
      if low < 0x8000 then low else Pow256(8) - 0x1_0000 + low
    else
      raw % Pow256(ty.Width())
  }

  function Encoded(cfg: Config, sv: seq<real>, k: nat): (r: nat)
    requires cfg.Valid() && |sv| == |cfg.items| && k < |cfg.items|
    ensures r < Pow256(cfg.items[k].Width())
  {
    var it := cfg.items[k];
    Cast(it.signal.memberType, it.signal.codec.encode(Value(cfg, sv, k)))
  }

  /** Does item k write its member? */
  predicate Writes(cfg: Config, sv: seq<real>, k: nat)
    requires cfg.Valid() && |sv| == |cfg.items| && k < |cfg.items|
  {
    var it := cfg.items[k];
    !it.signal.memberType.Unknown? && it.signal.codec.inRange(Encoded(cfg, sv, k))
  }

  /** The bit pattern of item k in the buffer of its message. */
  function Raw(cfg: Config, st: State, k: nat): (raw: nat)
    requires cfg.Valid() && st.Shape(cfg) && k < |cfg.items|
    ensures raw < Pow256(cfg.items[k].Width())
  {
    var it := cfg.items[k];
    Peek(st.msgs[it.msg].buffer, it.At(), it.Width())
  }

  function EncodeItem(cfg: Config, st: State, k: nat): (r: State)
    requires cfg.Valid() && st.Shape(cfg) && k < |cfg.items|
  {
    if Writes(cfg, st.sv, k) then
      var it := cfg.items[k];
      var m := st.msgs[it.msg];
      st.(msgs := st.msgs[it.msg := m.(buffer := Poke(m.buffer, it.At(), it.Width(), Encoded(cfg, st.sv, k)))])
    else
      st
  }

  /** The items from k on, in order. Only buffers change. */
  function MarshalIn(cfg: Config, st: State, k: nat): (r: State)
    requires cfg.Valid() && st.Shape(cfg) && k <= |cfg.items|
    ensures r.Shape(cfg) && r.sv == st.sv
    ensures forall m :: 0 <= m < |cfg.defs| ==>
      && r.msgs[m] == st.msgs[m].(buffer := r.msgs[m].buffer)
      && |r.msgs[m].buffer| == |st.msgs[m].buffer|
    decreases |cfg.items| - k
  {
    if k == |cfg.items| then st else MarshalIn(cfg, EncodeItem(cfg, st, k), k + 1)
  }

  /** The typed store of one member; the other messages and the signal vector stay as they are. */
  method StoreMember(n: Network, m: nat, at: nat, s: seq<byte>)
    requires n.Valid() && m < |n.messages| && at + |s| <= n.messages[m].buffer.Length
    modifies n.messages[m].buffer
    ensures n.signalVector[..] == old(n.signalVector[..])
    ensures n.Views() == old(n.Views())[m := old(n.messages[m].View()).(buffer := Put(old(n.messages[m].buffer[..]), at, s))]
  {
    n.Alone(m);
    Store(n.messages[m].buffer, at, s);
  }

  method MarshalItemIn(n: Network, k: nat)
    requires n.Valid() && k < |n.cfg.items|
    modifies n.Repr
    ensures n.View() == EncodeItem(n.cfg, old(n.View()), k)
  {
    var it := n.cfg.items[k];
    assert n.cfg.ItemFits(k);
    var v := if it.signal.internal && n.cfg.defs[it.msg].contained then it.signal.value else n.signalVector[it.index];
    if !it.signal.memberType.Unknown? {
      var raw := Cast(it.signal.memberType, it.signal.codec.encode(v));
      if it.signal.codec.inRange(raw) {
        StoreMember(n, it.msg, it.At(), LeBytes(raw, it.Width()));
      }
    }
  }

  method MarshalSignalsToMessages(n: Network)
    requires n.Valid()
    modifies n.Repr
    ensures n.View() == MarshalIn(n.cfg, old(n.View()), 0)
  {
    ghost var start := n.View();
    ghost var cur := start;
    for k := 0 to |n.cfg.items|
      invariant cur == n.View()
      invariant cur.Shape(n.cfg)
      invariant MarshalIn(n.cfg, cur, k) == MarshalIn(n.cfg, start, 0)
    {
      MarshalItemIn(n, k);
      cur := EncodeItem(n.cfg, cur, k);
    }
  }

  // ---- Messages to signals ----

  function ClearUpdates(msgs: seq<MsgState>): (r: seq<MsgState>)
    ensures |r| == |msgs| && forall m :: 0 <= m < |msgs| ==> r[m] == msgs[m].(update := false)
  {
    seq(|msgs|, m requires 0 <= m < |msgs| => msgs[m].(update := false))
  }

  /** Does item k hold a value that its signal can take? */
  predicate Readable(cfg: Config, st: State, k: nat)
    requires cfg.Valid() && st.Shape(cfg) && k < |cfg.items|
  {
    !cfg.items[k].signal.memberType.Unknown? && cfg.items[k].signal.codec.inRange(Raw(cfg, st, k))
  }

  function Decoded(cfg: Config, st: State, k: nat): real
    requires cfg.Valid() && st.Shape(cfg) && k < |cfg.items|
  {
    cfg.items[k].signal.codec.decode(Raw(cfg, st, k))
  }

  function DecodeItem(cfg: Config, st: State, k: nat): (r: State)
    requires cfg.Valid() && st.Shape(cfg) && k < |cfg.items|
  {
    if Readable(cfg, st, k) then st.(sv := st.sv[cfg.items[k].index := Decoded(cfg, st, k)]) else st
  }

  /** What the loop does with item k, whose message may be unflagged. */
  function FlaggedOut(cfg: Config, st: State, k: nat, forced: bool): (r: State)
    requires cfg.Valid() && st.Shape(cfg) && k < |cfg.items|
    ensures r.Shape(cfg) && r.msgs == st.msgs
  {
    if forced || st.msgs[cfg.items[k].msg].update then DecodeItem(cfg, st, k) else st
  }

  /** The signals of the items from k on whose message is flagged, in order. */
  function SignalsOut(cfg: Config, st: State, k: nat): (r: State)
    requires cfg.Valid() && st.Shape(cfg) && k <= |cfg.items|
    ensures r.Shape(cfg) && r.msgs == st.msgs
    decreases |cfg.items| - k
  {
    if k == |cfg.items| then st else SignalsOut(cfg, FlaggedOut(cfg, st, k, false), k + 1)
  }

  /** Then all flags are reset. */
  function MarshalOut(cfg: Config, st: State, k: nat): (r: State)
    requires cfg.Valid() && st.Shape(cfg) && k <= |cfg.items|
    ensures r.Shape(cfg) && r.msgs == ClearUpdates(st.msgs)
  {
    SignalsOut(cfg, st, k).(msgs := ClearUpdates(st.msgs))
  }

  method MarshalItemOut(n: Network, k: nat)
    requires n.Valid() && k < |n.cfg.items|
    modifies n.signalVector
    ensures n.Views() == old(n.Views()) && n.View() == DecodeItem(n.cfg, old(n.View()), k)
  {
    var it := n.cfg.items[k];
    assert n.cfg.ItemFits(k);
    if !it.signal.memberType.Unknown? {
      var raw := LeValue(n.messages[it.msg].buffer[it.At()..it.At() + it.Width()]);
      assert raw == Raw(n.cfg, n.View(), k);
      if it.signal.codec.inRange(raw) {
        n.signalVector[it.index] := it.signal.codec.decode(raw);
      }
    }
  }

  method ResetUpdateFlags(n: Network)
    requires n.Valid()
    modifies n.Repr
    ensures n.View() == old(n.View()).(msgs := ClearUpdates(old(n.Views())))
  {
    ghost var before := n.Views();
    ghost var after := ClearUpdates(before);
    for m := 0 to |n.messages|
      invariant n.signalVector[..] == old(n.signalVector[..])
      invariant forall i :: 0 <= i < |n.messages| ==>
        n.messages[i].View() == if i < m then after[i] else before[i]
    {
      n.Alone(m);
      n.messages[m].updateSignals := false;
    }
  }

  method MarshalFlaggedOut(n: Network, k: nat, forced: bool)
    requires n.Valid() && k < |n.cfg.items|
    modifies n.signalVector
    ensures n.View() == FlaggedOut(n.cfg, old(n.View()), k, forced)
  {
    var nm := n.messages[n.cfg.items[k].msg];
    assert nm.View() == n.Views()[n.cfg.items[k].msg];
    if nm.updateSignals || forced {
      MarshalItemOut(n, k);
    }
  }

  /** With single, the item at first alone and whatever its flag. */
  method MarshalMessagesToSignals(n: Network, first: nat, single: bool)
    requires n.Valid() && first <= |n.cfg.items|
    requires single ==> first < |n.cfg.items|
    modifies n.Repr
    ensures n.View() == if single then DecodeItem(n.cfg, old(n.View()), first)
                        else MarshalOut(n.cfg, old(n.View()), first)
  {
    ghost var start := n.View();
    ghost var cur := start;
    for k := first to |n.cfg.items|
      invariant cur == n.View() && cur.Shape(n.cfg)
      invariant single ==> k == first && cur == start
      invariant SignalsOut(n.cfg, cur, k) == SignalsOut(n.cfg, start, first)
    {
      MarshalFlaggedOut(n, k, single);
      if single {
        return;
      }
      cur := FlaggedOut(n.cfg, cur, k, false);
    }
    ResetUpdateFlags(n);
  }

  // ---- Packing ----

  /** network_pack_messages on one message. */
  function PackMsg(def: MessageDef, m: MsgState): (r: MsgState)
  {
    if def.pack.None? then m
    else
      var p := m.(payload := def.pack.value(m.payload, m.buffer));
      if Hash(m.buffer) == m.checksum then p.(needsTx := false)
      else if def.cycle != 0 then p
      else p.(needsTx := true, checksum := Hash(m.buffer))
  }

  function PackAll(cfg: Config, msgs: seq<MsgState>): (r: seq<MsgState>)
    requires |msgs| == |cfg.defs|
    ensures |r| == |msgs| && forall i :: 0 <= i < |msgs| ==> r[i] == PackMsg(cfg.defs[i], msgs[i])
  {
    seq(|msgs|, i requires 0 <= i < |msgs| => PackMsg(cfg.defs[i], msgs[i]))
  }

  method PackMessage(nm: Message)
    requires nm.Valid()
    modifies nm, nm.payload
    ensures nm.View() == PackMsg(nm.def, old(nm.View()))
  {
    if nm.def.pack.Some? {
      var p := nm.def.pack.value(nm.payload[..], nm.buffer[..]);
      Fill(nm.payload, p);
      var sum := UidHash(nm.buffer);
      if sum != nm.bufferChecksum {
        if nm.def.cycle != 0 {
        } else {
          nm.needsTx := true;
          nm.bufferChecksum := sum;
        }
      } else {
        nm.needsTx := false;
      }
    }
  }

  method PackMessages(n: Network)
    requires n.Valid()
    modifies n.Repr
    ensures n.View() == old(n.View()).(msgs := PackAll(n.cfg, old(n.Views())))
  {
    ghost var before := n.Views();
    ghost var after := PackAll(n.cfg, before);
    for m := 0 to |n.messages|
      invariant n.signalVector[..] == old(n.signalVector[..])
      invariant forall i :: 0 <= i < |n.messages| ==>
        n.messages[i].View() == if i < m then after[i] else before[i]
    {
      n.Alone(m);
      PackMessage(n.messages[m]);
    }
  }
}
