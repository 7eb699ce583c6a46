/** The entities of dse/network/network.h: configuration, state, and the objects that hold the state. */
module Net {
  import opened Bytes

  /** Primitive type of a struct member. The model keeps every value as its bit pattern, a natural number. */
  datatype MemberType = U8 | U16 | U32 | U64 | I8 | I16 | I32 | I64 | F32 | F64 | Unknown {
    function Width(): (w: nat)
      ensures w > 0
    {
      match this
      case U8 | I8 | Unknown => 1
      case U16 | I16 => 2
      case U32 | I32 | F32 => 4
      case U64 | I64 | F64 => 8
    }

    /** Start of the array element of this type that offset falls into. */
    function Element(offset: nat): (at: nat)
      ensures at <= offset < at + Width()
    {
      match this
      case U8 | I8 | Unknown => offset
      case U16 | I16 => offset / 2 * 2
      case U32 | I32 | F32 => offset / 4 * 4
      case U64 | I64 | F64 => offset / 8 * 8
    }
  }

  /** A member is accessed at the multiple of its width at or before its offset. */
  lemma ElementIs(ty: MemberType, offset: nat, at: nat)
    requires at % ty.Width() == 0 && at <= offset < at + ty.Width()
    ensures ty.Element(offset) == at
  {
    match ty
    case U8 | I8 | Unknown =>
    case U16 | I16 => HalfOf(offset, at);
    case U32 | I32 | F32 => QuarterOf(offset, at);
    case U64 | I64 | F64 => EighthOf(offset, at);
  }

  lemma HalfOf(offset: nat, at: nat)
    requires at % 2 == 0 && at <= offset < at + 2
    ensures offset / 2 * 2 == at
  {
  }

  lemma QuarterOf(offset: nat, at: nat)
    requires at % 4 == 0 && at <= offset < at + 4
    ensures offset / 4 * 4 == at
  {
  }

  lemma EighthOf(offset: nat, at: nat)
    requires at % 8 == 0 && at <= offset < at + 8
    ensures offset / 8 * 8 == at
  {
  }

  /** The functions a message library supplies for a signal, on bit patterns. */
  datatype Codec = Codec(encode: real -> int, decode: nat -> real, inRange: nat -> bool)

  datatype Signal = Signal(
    name: string,         // struct member
    signalName: string,   // name on the signal channel
    memberType: MemberType,
    offset: nat,
    init: real,
    internal: bool,
    value: real,          // constant of an internal signal
    mux: bool,
    codec: Codec)

  /** rc 0 is success; what the destination holds afterwards is reported for errors, too. */
  datatype Unpacked = Unpacked(rc: int, buffer: seq<byte>)

  datatype Verdict = Good | BadMsg

  type PackFunc = (seq<byte>, seq<byte>) -> seq<byte>       // (payload before, buffer) to payload
  type UnpackFunc = (seq<byte>, seq<byte>) -> Unpacked      // (buffer before, frame data)
  type EncodeFunc = seq<byte> -> seq<byte>                  // payload to payload
  type DecodeFunc = seq<byte> -> (Verdict, seq<byte>)

  /** What the parser and the loader leave in a NetworkMessage, and nothing later changes. */
  datatype MessageDef = MessageDef(
    frameId: nat,
    frameType: nat,
    contained: bool,      // a container is named
    muxId: nat,
    bufferLen: nat,
    payloadLen: nat,
    cycle: nat,           // in ms; 0 for a message sent on change
    signals: seq<Signal>,
    pack: Option<PackFunc>,
    unpack: UnpackFunc,
    encodeFuncs: seq<EncodeFunc>,
    decodeFuncs: seq<DecodeFunc>)
  {
    /** A message that is sent when its content changes. */
    predicate OnChange() {
      cycle == 0 && pack.Some?
    }

    /** Library functions write into the memory they are given, and nowhere else. */
    ghost predicate KeepsLengths() {
      && (pack.Some? ==> forall p, b :: |pack.value(p, b)| == |p|)
      && (forall b, d :: |unpack(b, d).buffer| == |b|)
      && (forall f, p | f in encodeFuncs :: |f(p)| == |p|)
      && (forall f, p | f in decodeFuncs :: |f(p).1| == |p|)
    }

    /** A failing unpack function leaves its destination alone. */
    ghost predicate UnpackKeepsOnError() {
      forall b, d :: unpack(b, d).rc != 0 ==> unpack(b, d).buffer == b
    }
  }

  /** A marshal item: signal of the message at index msg, at index in the signal vector. */
  datatype Item = Item(msg: nat, signal: Signal, index: nat) {
    function Width(): nat {
      signal.memberType.Width()
    }

    /** The bytes of two members do not overlap. */
    predicate Apart(other: Item) {
      At() + Width() <= other.At() || other.At() + other.Width() <= At()
    }

    /** The member is accessed as an element of an array of its type. */
    function At(): nat {
      signal.memberType.Element(signal.offset)
    }
  }

  /** A loaded network. mux[m] is the position of the item that is the mux signal of message m. */
  datatype Config = Config(defs: seq<MessageDef>, items: seq<Item>, mux: seq<Option<nat>>)
  {
    ghost predicate Valid() {
      && |mux| == |defs|
      && (forall k :: 0 <= k < |items| ==> items[k].msg < |defs| && items[k].index == k)
      && (forall m {:trigger mux[m]} :: 0 <= m < |mux| && mux[m].Some? ==>
        mux[m].value < |items| && items[mux[m].value].msg == m && defs[m].muxId == 0)
    }

    /** Each member lies inside the buffer of its message. */
    predicate ItemFits(k: nat) {
      k < |items| && items[k].msg < |defs| ==> items[k].At() + items[k].Width() <= defs[items[k].msg].bufferLen
    }

    ghost predicate Fits() {
      forall k: nat {:trigger ItemFits(k)} :: ItemFits(k)
    }

    /** No two members of a message overlap. */
    ghost predicate Disjoint() {
      forall j, k :: 0 <= j < |items| && 0 <= k < |items| && j != k && items[j].msg == items[k].msg ==>
        items[j].Apart(items[k])
    }
  }

  datatype MsgState = MsgState(
    buffer: seq<byte>,
    payload: seq<byte>,
    checksum: uint32,
    needsTx: bool,
    update: bool)

  /** The messages and the signal vector. */
  datatype State = State(msgs: seq<MsgState>, sv: seq<real>) {
    predicate Shape(cfg: Config) {
      |msgs| == |cfg.defs| && |sv| == |cfg.items|
    }

    predicate Sized(cfg: Config) {
      Shape(cfg) && forall m :: 0 <= m < |msgs| ==> |msgs[m].buffer| == cfg.defs[m].bufferLen
    }
  }

  /** A CAN frame on the bus. */
  datatype Frame = Frame(frameId: nat, frameType: nat, data: seq<byte>)

  class Message {
    const def: MessageDef
    const buffer: array<byte>
    const payload: array<byte>
    var bufferChecksum: uint32
    var needsTx: bool
    var updateSignals: bool

    constructor (def: MessageDef)
      requires def.KeepsLengths()
      ensures this.def == def && Valid() && fresh(buffer) && fresh(payload)
      ensures View() == MsgState(Zeros(def.bufferLen), Zeros(def.payloadLen), 0, false, false)
    {
      this.def := def;
      buffer := new byte[def.bufferLen](_ => 0);
      payload := new byte[def.payloadLen](_ => 0);
      bufferChecksum, needsTx, updateSignals := 0, false, false;
    }

    ghost predicate Valid() {
      && def.KeepsLengths()
      && buffer.Length == def.bufferLen && payload.Length == def.payloadLen
      && buffer != payload
    }

    ghost function View(): MsgState
      reads this, buffer, payload
    {
      MsgState(buffer[..], payload[..], bufferChecksum, needsTx, updateSignals)
    }
  }

  method NewMessages(defs: seq<MessageDef>) returns (nms: seq<Message>, ghost repr: set<object>)
    requires forall m :: 0 <= m < |defs| ==> defs[m].KeepsLengths()
    ensures |nms| == |defs| && fresh(repr)
    ensures forall i :: 0 <= i < |nms| ==>
      && nms[i] in repr && nms[i].buffer in repr && nms[i].payload in repr
      && nms[i].def == defs[i] && nms[i].Valid()
      && nms[i].View() == MsgState(Zeros(defs[i].bufferLen), Zeros(defs[i].payloadLen), 0, false, false)
    ensures forall i, j :: 0 <= i < j < |nms| ==>
      && nms[i] != nms[j]
      && nms[i].buffer != nms[j].buffer && nms[i].payload != nms[j].payload
      && nms[i].buffer != nms[j].payload && nms[i].payload != nms[j].buffer
  {
    nms, repr := [], {};
    for m := 0 to |defs|
      invariant |nms| == m && fresh(repr)
      invariant forall i :: 0 <= i < m ==>
        && nms[i] in repr && nms[i].buffer in repr && nms[i].payload in repr
        && nms[i].def == defs[i] && nms[i].Valid()
        && nms[i].View() == MsgState(Zeros(defs[i].bufferLen), Zeros(defs[i].payloadLen), 0, false, false)
      invariant forall i, j :: 0 <= i < j < m ==>
        && nms[i] != nms[j]
        && nms[i].buffer != nms[j].buffer && nms[i].payload != nms[j].payload
        && nms[i].buffer != nms[j].payload && nms[i].payload != nms[j].buffer
    {
      var nm := new Message(defs[m]);
      nms, repr := nms + [nm], repr + {nm, nm.buffer, nm.payload};
    }
  }

  function Zeros(n: nat): (s: seq<byte>) {
    seq(n, _ => 0)
  }

  /** Overwrites all of a. */
  method Fill(a: array<byte>, s: seq<byte>)
    requires a.Length == |s|
    modifies a
    ensures a[..] == s
  {
    for i := 0 to a.Length
      invariant forall k :: 0 <= k < i ==> a[k] == s[k]
    {
      a[i] := s[i];
    }
  }

  /** Overwrites a stretch of a: the typed store into a member. */
  method Store(a: array<byte>, at: nat, s: seq<byte>)
    requires at + |s| <= a.Length
    modifies a
    ensures a[..] == Put(old(a[..]), at, s)
  {
    for i := 0 to |s|
      invariant forall k :: 0 <= k < a.Length ==> a[k] == if at <= k < at + i then s[k - at] else old(a[k])
    {
      a[at + i] := s[i];
    }
    forall k | 0 <= k < a.Length
      ensures a[k] == Put(old(a[..]), at, s)[k]
    {
      PutAt(old(a[..]), at, s, k);
    }
  }

  /** The Network object, without its schedule. */
  class Network {
    const cfg: Config
    const messages: seq<Message>
    const signalVector: array<real>
    ghost const Repr: set<object> // everything the stages may write

    ghost predicate Valid() {
      && cfg.Valid() && cfg.Fits()
      && |messages| == |cfg.defs|
      && signalVector.Length == |cfg.items| && signalVector in Repr
      && (forall i :: 0 <= i < |messages| ==>
        && messages[i] in Repr && messages[i].buffer in Repr && messages[i].payload in Repr
        && messages[i].def == cfg.defs[i] && messages[i].Valid()
        && messages[i].buffer as object != signalVector && messages[i].payload as object != signalVector)
      && (forall i: nat, j: nat {:trigger Separate(i, j)} :: Separate(i, j))
    }

    constructor (cfg: Config)
      requires cfg.Valid() && cfg.Fits()
      requires forall m :: 0 <= m < |cfg.defs| ==> cfg.defs[m].KeepsLengths()
      ensures this.cfg == cfg && Valid() && fresh(Repr)
      ensures forall m :: 0 <= m < |messages| ==>
        messages[m].View() == MsgState(Zeros(cfg.defs[m].bufferLen), Zeros(cfg.defs[m].payloadLen), 0, false, false)
    {
      ghost var repr;
      var nms;
      nms, repr := NewMessages(cfg.defs);
      var sv := new real[|cfg.items|](_ => 0.0);
      this.cfg, messages, signalVector := cfg, nms, sv;
      Repr := repr + {sv};
      new;
      forall i: nat, j: nat
        ensures Separate(i, j)
      {
      }
    }

    /** Messages share no memory. */
    ghost predicate Separate(i: nat, j: nat) {
      i < |messages| && j < |messages| ==>
        && messages[i].buffer != messages[j].payload
        && (i != j ==>
          (messages[i] != messages[j]
          && messages[i].buffer != messages[j].buffer && messages[i].payload != messages[j].payload))
    }

    /** The message at m shares nothing with the others. */
    lemma Alone(m: nat)
      requires Valid() && m < |messages|
      ensures forall i :: 0 <= i < |messages| && i != m ==>
        && messages[i] != messages[m]
        && messages[i].buffer != messages[m].buffer && messages[i].payload != messages[m].payload
        && messages[i].buffer != messages[m].payload && messages[i].payload != messages[m].buffer
    {
      forall i | 0 <= i < |messages| && i != m
        ensures messages[i] != messages[m]
          && messages[i].buffer != messages[m].buffer && messages[i].payload != messages[m].payload
          && messages[i].buffer != messages[m].payload && messages[i].payload != messages[m].buffer
      {
        assert Separate(i, m) && Separate(m, i);
      }
    }

    ghost function Views(): (v: seq<MsgState>)
      requires Valid()
      reads Repr
      ensures |v| == |messages| && forall i :: 0 <= i < |messages| ==> v[i] == messages[i].View()
    {
      seq(|messages|, i requires 0 <= i < |messages| reads Repr => messages[i].View())
    }

    ghost function View(): State
      requires Valid()
      reads Repr
    {
      State(Views(), signalVector[..])
    }
  }
}
