/** The network model: creation and the step function (dse/network/model.c). */
module Model {
  import opened Bytes
  import opened Net
  import opened Engine
  import opened Encoder
  import opened Functions
  import opened Schedule

  // ---- The signal channel ----

  /** A channel signal maps to the first network signal of its name; the empty name maps to none. */
  ghost predicate Maps(svNames: seq<string>, names: seq<string>, i: nat, r: Option<nat>)
    requires i < |svNames|
  {
    match r
    case Some(k) =>
      k < |names| && names[k] == svNames[i] && svNames[i] != "" && svNames[i] !in names[..k]
    case None => svNames[i] == "" || svNames[i] !in names
  }

  method BuildSrMap(svNames: seq<string>, names: seq<string>) returns (srMap: seq<Option<nat>>)
    ensures |srMap| == |svNames|
    ensures forall i :: 0 <= i < |svNames| ==> Maps(svNames, names, i, srMap[i])
  {
    srMap := [];
    for i := 0 to |svNames|
      invariant |srMap| == i
      invariant forall j :: 0 <= j < i ==> Maps(svNames, names, j, srMap[j])
    {
      var found := None;
      var k := 0;
      while k < |names|
        invariant 0 <= k <= |names| && found == None
        invariant svNames[i] == "" || svNames[i] !in names[..k]
      {
        if svNames[i] == names[k] && |names[k]| != 0 {
          found := Some(k);
          break;
        }
        k := k + 1;
      }
      srMap := srMap + [found];
    }
  }

  /** The signal vector after copying in the channel signals from i on. */
  function Load(srMap: seq<Option<nat>>, scalars: seq<real>, sv: seq<real>, i: nat): (r: seq<real>)
    requires |scalars| == |srMap| && i <= |srMap|
    requires forall j :: 0 <= j < |srMap| && srMap[j].Some? ==> srMap[j].value < |sv|
    ensures |r| == |sv|
    decreases |srMap| - i
  {
    if i == |srMap| then sv
    else Load(srMap, scalars, if srMap[i].Some? then sv[srMap[i].value := scalars[i]] else sv, i + 1)
  }

  /** The channel after copying out the signal vector. */
  function Publish(srMap: seq<Option<nat>>, scalars: seq<real>, sv: seq<real>): (r: seq<real>)
    requires |scalars| == |srMap|
    requires forall j :: 0 <= j < |srMap| && srMap[j].Some? ==> srMap[j].value < |sv|
    ensures |r| == |scalars|
    ensures forall i :: 0 <= i < |r| ==> r[i] == if srMap[i].Some? then sv[srMap[i].value] else scalars[i]
  {
    seq(|scalars|, i requires 0 <= i < |scalars| => if srMap[i].Some? then sv[srMap[i].value] else scalars[i])
  }

  // ---- Ticks ----

  /** Ticks due since the last one: milliseconds, stretched by one percent, towards zero. */
  function TicksIn(time: real, last: real): nat {
    var t := Truncate((time - last) / 0.001 * 1.01);
    if t > 0 then t else 0
  }

  function Ticks(cfg: Config, plan: Plan, msgs: seq<MsgState>, n: nat): (r: (Plan, seq<MsgState>))
    requires |plan.alarms| == |Listed(cfg)| && |msgs| == |cfg.defs|
    ensures |r.0.alarms| == |plan.alarms| && |r.1| == |msgs|
    decreases n
  {
    if n == 0 then (plan, msgs) else Ticks(cfg, Advance(cfg, plan), WakeDue(cfg, plan, msgs), n - 1)
  }

  lemma {:induction false} TicksAdd(cfg: Config, plan: Plan, msgs: seq<MsgState>, a: nat, b: nat)
    requires |plan.alarms| == |Listed(cfg)| && |msgs| == |cfg.defs|
    ensures Ticks(cfg, plan, msgs, a + b) ==
      Ticks(cfg, Ticks(cfg, plan, msgs, a).0, Ticks(cfg, plan, msgs, a).1, b)
    decreases a
  {
    if a > 0 {
      TicksAdd(cfg, Advance(cfg, plan), WakeDue(cfg, plan, msgs), a - 1, b);
    }
  }

  lemma TicksNext(cfg: Config, plan: Plan, msgs: seq<MsgState>, n: nat, p: Plan, m: seq<MsgState>)
    requires |plan.alarms| == |Listed(cfg)| && |msgs| == |cfg.defs| && (p, m) == Ticks(cfg, plan, msgs, n)
    ensures Ticks(cfg, plan, msgs, n + 1) == (Advance(cfg, p), WakeDue(cfg, p, m))
  {
    TicksAdd(cfg, plan, msgs, n, 1);
    assert Ticks(cfg, p, m, 1) == Ticks(cfg, Advance(cfg, p), WakeDue(cfg, p, m), 0);
  }

  // ---- Specification of creation and step ----

  datatype ModelCfg = ModelCfg(net: Config, srMap: seq<Option<nat>>, netOff: Option<nat>) {
    ghost predicate Valid() {
      && net.Valid()
      && (forall i :: 0 <= i < |srMap| && srMap[i].Some? ==> srMap[i].value < |net.items|)
      && (netOff.Some? ==> netOff.value < |srMap|)
    }
  }

  datatype ModelState = ModelState(st: State, plan: Plan, scalars: seq<real>, initDone: bool, lastTick: real) {
    predicate Shape(mc: ModelCfg) {
      && st.Shape(mc.net)
      && |plan.alarms| == |Listed(mc.net)|
      && |scalars| == |mc.srMap|
    }
  }

  /** What a step finds: the channel as the other models left it, the frames on the bus, and the time. */
  datatype Input = Input(scalars: seq<real>, frames: seq<Frame>, time: real)

  ghost predicate Ready(mc: ModelCfg, ms: ModelState, x: Input) {
    mc.Valid() && ms.Shape(mc) && |x.scalars| == |mc.srMap|
  }

  function Loaded(mc: ModelCfg, ms: ModelState, x: Input): (r: State)
    requires Ready(mc, ms, x)
    ensures r.Shape(mc.net)
  {
    ms.st.(sv := Load(mc.srMap, x.scalars, ms.st.sv, 0))
  }

  function Received(mc: ModelCfg, ms: ModelState, x: Input): (r: State)
    requires Ready(mc, ms, x)
    ensures r.Shape(mc.net)
  {
    Receive(mc.net, Loaded(mc, ms, x), x.frames)
  }

  /** After the decode functions. */
  function Accepted(mc: ModelCfg, ms: ModelState, x: Input): (r: State)
    requires Ready(mc, ms, x)
    ensures r.Shape(mc.net)
  {
    var r := Received(mc, ms, x);
    r.(msgs := DecodeAll(mc.net, r.msgs))
  }

  function Updated(mc: ModelCfg, ms: ModelState, x: Input): (r: State)
    requires Ready(mc, ms, x)
    ensures r.Shape(mc.net)
  {
    MarshalOut(mc.net, Accepted(mc, ms, x), 0)
  }

  /** The initial tick occurs once, at time 0. */
  function InitialTick(initDone: bool, time: real): nat {
    if time == 0.0 && !initDone then 1 else 0
  }

  /** The ticks of a step. */
  function TicksAt(initDone: bool, last: real, time: real): nat {
    InitialTick(initDone, time) + TicksIn(time, last)
  }

  function TickCount(ms: ModelState, time: real): nat {
    TicksAt(ms.initDone, ms.lastTick, time)
  }

  function Ticked(mc: ModelCfg, ms: ModelState, x: Input): (r: (Plan, State))
    requires Ready(mc, ms, x)
    ensures r.1.Shape(mc.net) && |r.0.alarms| == |Listed(mc.net)|
  {
    var u := Updated(mc, ms, x);
    var (p, msgs) := Ticks(mc.net, ms.plan, u.msgs, TickCount(ms, x.time));
    (p, u.(msgs := msgs))
  }

  lemma TicksSplit(cfg: Config, plan: Plan, msgs: seq<MsgState>, a: nat, b: nat, p: Plan, m: seq<MsgState>, n: nat)
    requires |plan.alarms| == |Listed(cfg)| && |msgs| == |cfg.defs| && n == a + b
    requires (p, m) == Ticks(cfg, plan, msgs, a)
    ensures Ticks(cfg, plan, msgs, n) == Ticks(cfg, p, m, b)
  {
    TicksAdd(cfg, plan, msgs, a, b);
  }

  /** The two groups of ticks of a step, together. */
  lemma TickedBy(mc: ModelCfg, ms: ModelState, x: Input, a: nat, b: nat,
                 p: Plan, msgs: seq<MsgState>, p2: Plan, msgs2: seq<MsgState>)
    requires Ready(mc, ms, x) && a == InitialTick(ms.initDone, x.time) && b == TicksIn(x.time, ms.lastTick)
    requires (p, msgs) == Ticks(mc.net, ms.plan, Updated(mc, ms, x).msgs, a)
    requires (p2, msgs2) == Ticks(mc.net, p, msgs, b)
    ensures Ticked(mc, ms, x) == (p2, Updated(mc, ms, x).(msgs := msgs2))
  {
    TicksSplit(mc.net, ms.plan, Updated(mc, ms, x).msgs, a, b, p, msgs, TickCount(ms, x.time));
  }

  function Marshalled(mc: ModelCfg, ms: ModelState, x: Input): (r: State)
    requires Ready(mc, ms, x)
    ensures r.Shape(mc.net)
  {
    MarshalIn(mc.net, Ticked(mc, ms, x).1, 0)
  }

  function NetOff(mc: ModelCfg, x: Input): bool
    requires mc.netOff.Some? ==> mc.netOff.value < |x.scalars|
  {
    mc.netOff.Some? && x.scalars[mc.netOff.value] != 0.0
  }

  /** Packing and the encode functions. */
  function PackAndEncode(cfg: Config, st: State, netOff: bool): (r: State)
    requires cfg.Valid() && st.Shape(cfg)
    ensures r.Shape(cfg)
  {
    st.(msgs := EncodeAll(cfg, PackAll(cfg, st.msgs), netOff))
  }

  /** What the transmit loop sees. */
  function Outgoing(mc: ModelCfg, ms: ModelState, x: Input): (r: State)
    requires Ready(mc, ms, x)
    ensures r.Shape(mc.net)
  {
    PackAndEncode(mc.net, Marshalled(mc, ms, x), NetOff(mc, x))
  }

  /** After transmission. */
  function Settle(cfg: Config, st: State): (r: State)
    requires cfg.Valid() && st.Shape(cfg)
    ensures r.Shape(cfg)
  {
    MarshalOut(cfg, st.(msgs := ClearTx(st.msgs)), 0)
  }

  /** The frames written in a step. */
  function Output(mc: ModelCfg, ms: ModelState, x: Input): seq<Frame>
    requires Ready(mc, ms, x)
  {
    Written(mc.net, Outgoing(mc, ms, x).msgs, |mc.net.defs|)
  }

  function Final(mc: ModelCfg, ms: ModelState, x: Input): (r: State)
    requires Ready(mc, ms, x)
    ensures r.Shape(mc.net)
  {
    Settle(mc.net, Outgoing(mc, ms, x))
  }

  /** model_step. */
  function Step(mc: ModelCfg, ms: ModelState, x: Input): (r: ModelState)
    requires Ready(mc, ms, x)
    ensures r.Shape(mc)
  {
    var f := Final(mc, ms, x);
    ModelState(f, Ticked(mc, ms, x).0, Publish(mc.srMap, x.scalars, f.sv), ms.initDone || x.time == 0.0,
               if TicksIn(x.time, ms.lastTick) > 0 then x.time else ms.lastTick)
  }

  function InitialMsg(def: MessageDef): MsgState {
    MsgState(Zeros(def.bufferLen), Zeros(def.payloadLen), 0, false, false)
  }

  function InitialState(cfg: Config): (r: State)
    requires cfg.Valid()
    ensures r.Shape(cfg)
    ensures forall m :: 0 <= m < |cfg.defs| ==> r.msgs[m] == InitialMsg(cfg.defs[m])
    ensures forall k :: 0 <= k < |cfg.items| ==> r.sv[k] == cfg.items[k].signal.init
  {
    State(seq(|cfg.defs|, m requires 0 <= m < |cfg.defs| => InitialMsg(cfg.defs[m])),
          seq(|cfg.items|, k requires 0 <= k < |cfg.items| => cfg.items[k].signal.init))
  }

  /** The state of the network when model_create returns. */
  function CreatedNet(cfg: Config): (r: State)
    requires cfg.Valid()
    ensures r.Shape(cfg)
  {
    var m := MarshalIn(cfg, InitialState(cfg), 0);
    m.(msgs := ClearTx(PackAll(cfg, m.msgs)))
  }

  /** model_create: initial values on the channel and in the messages, nothing to send. */
  function Create(mc: ModelCfg, scalars: seq<real>): (r: ModelState)
    requires mc.Valid() && |scalars| == |mc.srMap|
    ensures r.Shape(mc)
  {
    ModelState(CreatedNet(mc.net), InitialPlan(mc.net),
               Publish(mc.srMap, scalars, InitialState(mc.net).sv), false, 0.0)
  }

  // ---- The model object ----

  class NetworkModel {
    const mc: ModelCfg
    const network: Network
    const sched: Scheduler
    const scalar: array<real>
    var initTickDone: bool
    var lastTick: real

    ghost predicate Valid()
      reads this, sched, sched.list
    {
      && mc.Valid() && network.Valid() && sched.Valid()
      && sched.n == network && network.cfg == mc.net
      && scalar.Length == |mc.srMap|
      && scalar !in network.Repr && scalar as object != sched.list && this !in network.Repr
    }

    ghost function View(): (ms: ModelState)
      requires Valid()
      reads this, sched, sched.list, network.Repr, scalar
      ensures ms.Shape(mc)
    {
      ModelState(network.View(), sched.View(), scalar[..], initTickDone, lastTick)
    }

    /** RX: channel to network. */
    method LoadScalars()
      requires Valid()
      modifies network.signalVector
      ensures network.View() == old(network.View()).(sv := Load(mc.srMap, scalar[..], old(network.signalVector[..]), 0))
    {
      ghost var goal := Load(mc.srMap, scalar[..], network.signalVector[..], 0);
      for i := 0 to scalar.Length
        invariant network.Views() == old(network.Views())
        invariant Load(mc.srMap, scalar[..], network.signalVector[..], i) == goal
      {
        if mc.srMap[i].Some? {
          network.signalVector[mc.srMap[i].value] := scalar[i];
        }
      }
    }

    /** TX: network to channel. */
    method PublishScalars()
      requires Valid()
      modifies scalar
      ensures scalar[..] == Publish(mc.srMap, old(scalar[..]), network.signalVector[..])
    {
      for i := 0 to scalar.Length
        invariant forall j :: 0 <= j < scalar.Length ==>
          scalar[j] == if j < i && mc.srMap[j].Some? then network.signalVector[mc.srMap[j].value] else old(scalar[j])
      {
        if mc.srMap[i].Some? {
          scalar[i] := network.signalVector[mc.srMap[i].value];
        }
      }
    }

    /** One tick of the schedule. */
    method TickOnce()
      requires Valid()
      modifies sched`tick, sched.list, network.Repr
      ensures Valid() && sched.list == old(sched.list)
      ensures network.signalVector[..] == old(network.signalVector[..])
      ensures sched.View() == Advance(mc.net, old(sched.View()))
      ensures network.Views() == WakeDue(mc.net, old(sched.View()), old(network.Views()))
    {
      sched.Tick();
      assert network.View().msgs == network.Views() && network.View().sv == network.signalVector[..];
    }

    method RunTicks(n: nat)
      requires Valid()
      modifies sched`tick, sched.list, network.Repr
      ensures Valid() && sched.list == old(sched.list)
      ensures network.signalVector[..] == old(network.signalVector[..])
      ensures (sched.View(), network.Views()) == Ticks(mc.net, old(sched.View()), old(network.Views()), n)
    {
      ghost var plan, msgs := sched.View(), network.Views();
      for t := 0 to n
        invariant Valid() && sched.list == old(sched.list)
        invariant network.signalVector[..] == old(network.signalVector[..])
        invariant (sched.View(), network.Views()) == Ticks(mc.net, plan, msgs, t)
      {
        TicksNext(mc.net, plan, msgs, t, sched.View(), network.Views());
        TickOnce();
      }
    }

    /** model_create, after loading: initial values, initial checksums, and the schedule. */
    constructor (mc: ModelCfg, scalar: array<real>)
      requires mc.Valid() && mc.net.Fits() && scalar.Length == |mc.srMap|
      requires forall m :: 0 <= m < |mc.net.defs| ==> mc.net.defs[m].KeepsLengths()
      modifies scalar
      ensures this.mc == mc && this.scalar == scalar && Valid()
      ensures View() == Create(mc, old(scalar[..]))
    {
      var n := new Network(mc.net);
      var s := new Scheduler(n);
      this.mc, network, sched, this.scalar := mc, n, s, scalar;
      initTickDone, lastTick := false, 0.0;
      new;
      assert Valid();
      Initialise();
    }

    /** What follows the allocation. */
    method Initialise()
      requires Valid() && !initTickDone && lastTick == 0.0 && sched.View() == InitialPlan(mc.net)
      requires forall m :: 0 <= m < |mc.net.defs| ==> network.messages[m].View() == InitialMsg(mc.net.defs[m])
      modifies network.Repr, scalar
      ensures Valid() && View() == Create(mc, old(scalar[..]))
    {
      SetInitialValues();
      InitialChecksums();
    }

    /** Initial values reach the channel and the messages; the checksums are those of the initial buffers. */
    method InitialChecksums()
      requires Valid() && network.View() == InitialState(mc.net)
      modifies network.Repr, scalar
      ensures Valid() && sched.View() == old(sched.View())
      ensures network.View() == CreatedNet(mc.net)
      ensures scalar[..] == Publish(mc.srMap, old(scalar[..]), InitialState(mc.net).sv)
    {
      ghost var initial := InitialState(mc.net);
      PublishScalars();
      assert network.View() == initial;
      MarshalSignalsToMessages(network);
      ghost var m := MarshalIn(mc.net, initial, 0);
      assert network.View() == m;
      PackMessages(network);
      assert network.View() == m.(msgs := PackAll(mc.net, m.msgs));
      ClearNeedsTx();
    }

    method SetInitialValues()
      requires Valid()
      requires forall m :: 0 <= m < |mc.net.defs| ==> network.messages[m].View() == InitialMsg(mc.net.defs[m])
      modifies network.signalVector
      ensures network.View() == InitialState(mc.net)
    {
      for k := 0 to |mc.net.items|
        invariant network.Views() == old(network.Views())
        invariant forall j :: 0 <= j < k ==> network.signalVector[j] == mc.net.items[j].signal.init
      {
        network.signalVector[mc.net.items[k].index] := mc.net.items[k].signal.init;
      }
    }

    method ClearNeedsTx()
      requires Valid()
      modifies network.Repr
      ensures network.View() == old(network.View()).(msgs := ClearTx(old(network.Views())))
    {
      ghost var before := network.Views();
      for m := 0 to |network.messages|
        invariant network.signalVector[..] == old(network.signalVector[..])
        invariant forall i :: 0 <= i < |network.messages| ==>
          network.messages[i].View() == if i < m then before[i].(needsTx := false) else before[i]
      {
        network.Alone(m);
        network.messages[m].needsTx := false;
      }
    }

    /** The first half of model_step: everything up to the ticks. */
    method StepRx(frames: seq<Frame>, time: real)
      requires Valid()
      modifies network.Repr
      ensures scalar[..] == old(scalar[..]) && sched.View() == old(sched.View())
      ensures network.View() == Updated(mc, old(View()), Input(scalar[..], frames, time))
    {
      LoadScalars();
      DecodeFromBus(network, frames);
      ApplyDecode(network);
      MarshalMessagesToSignals(network, 0, false);
    }

    /** The initial tick occurs once, at time 0. */
    method StepInitialTick(time: real)
      requires Valid()
      modifies this`initTickDone, sched`tick, sched.list, network.Repr
      ensures Valid() && sched.list == old(sched.list) && scalar[..] == old(scalar[..])
      ensures network.signalVector[..] == old(network.signalVector[..])
      ensures (sched.View(), network.Views()) ==
        Ticks(mc.net, old(sched.View()), old(network.Views()), InitialTick(old(initTickDone), time))
      ensures initTickDone == (old(initTickDone) || time == 0.0)
    {
      if time == 0.0 {
        if !initTickDone {
          RunTicks(1);
          initTickDone := true;
        }
      }
    }

    /** The ticks for the time since the last one. */
    method StepTicks(time: real)
      requires Valid()
      modifies this`lastTick, sched`tick, sched.list, network.Repr
      ensures Valid() && sched.list == old(sched.list) && scalar[..] == old(scalar[..])
      ensures network.signalVector[..] == old(network.signalVector[..])
      ensures (sched.View(), network.Views()) ==
        Ticks(mc.net, old(sched.View()), old(network.Views()), TicksIn(time, old(lastTick)))
      ensures lastTick == if TicksIn(time, old(lastTick)) > 0 then time else old(lastTick)
    {
      var ticks := TicksIn(time, lastTick);
      if ticks > 0 {
        RunTicks(ticks);
        lastTick := time;
      }
    }

    /** The first half: reception and ticks. */
    method StepIn(frames: seq<Frame>, time: real)
      requires Valid()
      modifies this`initTickDone, this`lastTick, sched`tick, sched.list, network.Repr
      ensures Valid() && sched.list == old(sched.list) && scalar[..] == old(scalar[..])
      ensures (sched.View(), network.View()) == Ticked(mc, old(View()), Input(scalar[..], frames, time))
      ensures initTickDone == (old(initTickDone) || time == 0.0)
      ensures lastTick == if TicksIn(time, old(lastTick)) > 0 then time else old(lastTick)
    {
      ghost var ms, x := View(), Input(scalar[..], frames, time);
      StepRx(frames, time);
      StepInitialTick(time);
      ghost var p, msgs := sched.View(), network.Views();
      StepTicks(time);
      TickedBy(mc, ms, x, InitialTick(ms.initDone, time), TicksIn(time, ms.lastTick),
               p, msgs, sched.View(), network.Views());
    }

    /** The second half: from the ticked messages to the frames. */
    method StepOut(netOff: bool) returns (frames: seq<Frame>)
      requires Valid()
      modifies network.Repr, scalar
      ensures Valid() && sched.View() == old(sched.View())
      ensures var o := PackAndEncode(mc.net, MarshalIn(mc.net, old(network.View()), 0), netOff);
        && frames == Written(mc.net, o.msgs, |mc.net.defs|)
        && network.View() == Settle(mc.net, o)
        && scalar[..] == Publish(mc.srMap, old(scalar[..]), Settle(mc.net, o).sv)
    {
      MarshalSignalsToMessages(network);
      PackMessages(network);
      ApplyEncode(network, netOff);
      frames := EncodeToBus(network);
      MarshalMessagesToSignals(network, 0, false);
      PublishScalars();
    }

    /** model_step. */
    method DoStep(frames: seq<Frame>, time: real) returns (written: seq<Frame>)
      requires Valid()
      modifies this`initTickDone, this`lastTick, sched`tick, sched.list, network.Repr, scalar
      ensures Valid()
      ensures View() == Step(mc, old(View()), Input(old(scalar[..]), frames, time))
      ensures written == Output(mc, old(View()), Input(old(scalar[..]), frames, time))
    {
      var netOff := mc.netOff.Some? && scalar[mc.netOff.value] != 0.0;
      StepIn(frames, time);
      written := StepOut(netOff);
    }
  }
}
