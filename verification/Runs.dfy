/** Whole runs from model_create: boundaries, and the exact times at which cyclic messages are written. */
module Runs {
  import opened Bytes
  import opened Fnv
  import opened Net
  import opened Schedule
  import opened Model
  import opened Pipeline
  import opened Reception

  ghost predicate RunReady(mc: ModelCfg, scalars: seq<real>, xs: seq<Input>) {
    && mc.Valid() && Lawful(mc.net)
    && |scalars| == |mc.srMap|
    && (forall i :: 0 <= i < |xs| ==> |xs[i].scalars| == |mc.srMap|)
  }

  /** The state after model_create and the given steps. */
  function After(mc: ModelCfg, scalars: seq<real>, xs: seq<Input>): (r: ModelState)
    requires RunReady(mc, scalars, xs)
    ensures r.Shape(mc)
    decreases |xs|
  {
    if xs == [] then Create(mc, scalars)
    else Step(mc, After(mc, scalars, xs[..|xs| - 1]), xs[|xs| - 1])
  }

  /** The number of ticks that these steps execute; it depends on their times alone. */
  function TotalTicks(xs: seq<Input>): nat
    decreases |xs|
  {
    if xs == [] then 0
    else
      var before := xs[..|xs| - 1];
      TotalTicks(before) + TicksAt(InitDone(before), LastTick(before), xs[|xs| - 1].time)
  }

  predicate InitDone(xs: seq<Input>) {
    exists i :: 0 <= i < |xs| && xs[i].time == 0.0
  }

  function LastTick(xs: seq<Input>): real
    decreases |xs|
  {
    if xs == [] then 0.0
    else
      var last := LastTick(xs[..|xs| - 1]);
      if TicksIn(xs[|xs| - 1].time, last) > 0 then xs[|xs| - 1].time else last
  }

  lemma {:induction false} TicksInPhase(cfg: Config, plan: Plan, ticks: nat, msgs: seq<MsgState>, n: nat, total: nat)
    requires InPhase(cfg, plan, ticks) && |msgs| == |cfg.defs| && total == ticks + n
    ensures InPhase(cfg, Ticks(cfg, plan, msgs, n).0, total)
    decreases n
  {
    if n > 0 {
      AdvanceInPhase(cfg, plan, ticks);
      TicksInPhase(cfg, Advance(cfg, plan), ticks + 1, WakeDue(cfg, plan, msgs), n - 1, total);
    }
  }

  /** Some tick with a number in [from, to) makes a message of this period due. */
  ghost predicate DueWithin(cycle: nat, from: nat, to: nat)
    requires cycle > 0
  {
    exists k :: from <= k < to && DueAt(cycle, k)
  }

  lemma {:induction false} TicksWake(cfg: Config, plan: Plan, ticks: nat, msgs: seq<MsgState>, n: nat, m: nat)
    requires InPhase(cfg, plan, ticks) && |msgs| == |cfg.defs| && m < |cfg.defs| && cfg.defs[m].cycle > 0
    ensures Ticks(cfg, plan, msgs, n).1[m] ==
      if DueWithin(cfg.defs[m].cycle, ticks, ticks + n) then Wake(msgs[m]) else msgs[m]
    decreases n
  {
    var c := cfg.defs[m].cycle;
    if n > 0 {
      AdvanceInPhase(cfg, plan, ticks);
      DueInPhase(cfg, plan, ticks, m);
      TicksWake(cfg, Advance(cfg, plan), ticks + 1, WakeDue(cfg, plan, msgs), n - 1, m);
      assert DueWithin(c, ticks, ticks + n) <==> DueAt(c, ticks) || DueWithin(c, ticks + 1, ticks + n);
    }
  }

  lemma StepPlan(mc: ModelCfg, ms: ModelState, x: Input)
    requires Ready(mc, ms, x)
    ensures Step(mc, ms, x).plan == Ticks(mc.net, ms.plan, Updated(mc, ms, x).msgs, TickCount(ms, x.time)).0
    ensures Step(mc, ms, x).initDone == (ms.initDone || x.time == 0.0)
    ensures Step(mc, ms, x).lastTick == if TicksIn(x.time, ms.lastTick) > 0 then x.time else ms.lastTick
  {
  }

  lemma StepInPhase(mc: ModelCfg, ms: ModelState, x: Input, ticks: nat, n: nat, total: nat)
    requires Ready(mc, ms, x) && InPhase(mc.net, ms.plan, ticks)
    requires n == TickCount(ms, x.time) && total == ticks + n
    ensures InPhase(mc.net, Step(mc, ms, x).plan, total)
  {
    StepPlan(mc, ms, x);
    TicksInPhase(mc.net, ms.plan, ticks, Updated(mc, ms, x).msgs, n, total);
  }

  /** The state after a run is at a boundary, and all alarms are in phase with the ticks so far. */
  ghost predicate RunInvariant(mc: ModelCfg, xs: seq<Input>, ms: ModelState, ticks: nat) {
    && Boundary(mc.net, ms.st)
    && InPhase(mc.net, ms.plan, ticks)
    && ms.initDone == InitDone(xs) && ms.lastTick == LastTick(xs)
  }

  lemma StepKeepsInvariant(mc: ModelCfg, ms: ModelState, xs: seq<Input>, ticks: nat, n: nat)
    requires mc.Valid() && Lawful(mc.net) && xs != [] && Ready(mc, ms, xs[|xs| - 1])
    requires RunInvariant(mc, xs[..|xs| - 1], ms, ticks)
    requires n == ticks + TickCount(ms, xs[|xs| - 1].time)
    ensures RunInvariant(mc, xs, Step(mc, ms, xs[|xs| - 1]), n)
  {
    var x := xs[|xs| - 1];
    StepPlan(mc, ms, x);
    StepInPhase(mc, ms, x, ticks, TickCount(ms, x.time), n);
    StepBoundary(mc, ms, x);
    InitDoneStep(xs);
  }

  lemma CreateInvariant(mc: ModelCfg, scalars: seq<real>)
    requires mc.Valid() && |scalars| == |mc.srMap|
    ensures RunInvariant(mc, [], Create(mc, scalars), 0)
  {
  }

  lemma TotalTicksStep(xs: seq<Input>, ms: ModelState)
    requires xs != []
    requires ms.initDone == InitDone(xs[..|xs| - 1]) && ms.lastTick == LastTick(xs[..|xs| - 1])
    ensures TotalTicks(xs) == TotalTicks(xs[..|xs| - 1]) + TickCount(ms, xs[|xs| - 1].time)
  {
  }

  /** At every step boundary of every run the invariant holds. */
  lemma {:induction false} RunKeepsInvariant(mc: ModelCfg, scalars: seq<real>, xs: seq<Input>)
    requires RunReady(mc, scalars, xs)
    ensures RunInvariant(mc, xs, After(mc, scalars, xs), TotalTicks(xs))
    decreases |xs|
  {
    if xs == [] {
      CreateInvariant(mc, scalars);
    } else {
      var before := xs[..|xs| - 1];
      RunKeepsInvariant(mc, scalars, before);
      var ms := After(mc, scalars, before);
      TotalTicksStep(xs, ms);
      StepKeepsInvariant(mc, ms, xs, TotalTicks(before), TotalTicks(xs));
    }
  }

  lemma InitDoneStep(xs: seq<Input>)
    requires xs != []
    ensures InitDone(xs) <==> InitDone(xs[..|xs| - 1]) || xs[|xs| - 1].time == 0.0
  {
  }

  lemma CyclicSent(mc: ModelCfg, ms: ModelState, x: Input, ticks: nat, m: nat)
    requires Ready(mc, ms, x) && Lawful(mc.net) && Boundary(mc.net, ms.st) && InPhase(mc.net, ms.plan, ticks)
    requires m < |mc.net.defs| && mc.net.defs[m].cycle > 0
    ensures Sent(mc, ms, x, m) <==>
      && !NetOff(mc, x)
      && DueWithin(mc.net.defs[m].cycle, ticks, ticks + TickCount(ms, x.time))
      && (mc.net.defs[m].pack.None? || Hash(Marshalled(mc, ms, x).msgs[m].buffer) != 0)
  {
    var u := Updated(mc, ms, x);
    ReceivedPending(mc, ms, x, m);
    TicksWake(mc.net, ms.plan, ticks, u.msgs, TickCount(ms, x.time), m);
    OutgoingMessage(mc, ms, x, m);
  }

  lemma TotalTicksNext(xs: seq<Input>, x: Input)
    ensures TotalTicks(xs + [x]) == TotalTicks(xs) + TicksAt(InitDone(xs), LastTick(xs), x.time)
  {
  }

  /** Over every run, a cyclic message is written in exactly those steps that execute a tick which its period makes
    * due, provided the network is on; the one exception is a buffer whose hash equals the reset checksum 0. The
    * due ticks do not depend on the network being on or off, nor on anything received. */
  lemma Periodicity(mc: ModelCfg, scalars: seq<real>, xs: seq<Input>, x: Input, m: nat)
    requires RunReady(mc, scalars, xs) && |x.scalars| == |mc.srMap|
    requires m < |mc.net.defs| && mc.net.defs[m].cycle > 0
    ensures var ms, def := After(mc, scalars, xs), mc.net.defs[m];
      Sent(mc, ms, x, m) <==>
        && !NetOff(mc, x)
        && DueWithin(def.cycle, TotalTicks(xs), TotalTicks(xs + [x]))
        && (def.pack.None? || Hash(Marshalled(mc, ms, x).msgs[m].buffer) != 0)
  {
    RunKeepsInvariant(mc, scalars, xs);
    CyclicSent(mc, After(mc, scalars, xs), x, TotalTicks(xs), m);
    TotalTicksNext(xs, x);
  }

  lemma ReceivedPending(mc: ModelCfg, ms: ModelState, x: Input, m: nat)
    requires Ready(mc, ms, x) && Lawful(mc.net) && Boundary(mc.net, ms.st) && m < |mc.net.defs|
    ensures !Updated(mc, ms, x).msgs[m].needsTx
  {
    ReceiveKeeps(mc.net, Loaded(mc, ms, x), x.frames, m);
  }

  /** Some number in [from, to), 0 apart, is a multiple of this period. */
  ghost predicate MultipleWithin(cycle: nat, from: nat, to: nat)
    requires cycle > 0
  {
    exists k :: from <= k < to && k >= 1 && k % cycle == 0
  }

  /** In the first 2^32 ticks of a run, due means: the period divides the tick number, which is at least 1. */
  lemma DueInFirstTicks(cycle: nat, from: nat, to: nat)
    requires cycle > 0 && to <= WORD32
    ensures DueWithin(cycle, from, to) <==> MultipleWithin(cycle, from, to)
  {
    if DueWithin(cycle, from, to) {
      var k :| from <= k < to && DueAt(cycle, k);
      DueAtSmall(cycle, k);
      assert k >= 1 && k % cycle == 0;
    }
    if k :| from <= k < to && k >= 1 && k % cycle == 0 {
      DueAtSmall(cycle, k);
    }
  }

  // ---- Messages that are sent on change, over whole runs ----

  /** In every step of every run, a message that is sent on change is written exactly if the network is on and
    * marshalling changed the hash of its buffer. */
  lemma SentOnChangeInRuns(mc: ModelCfg, scalars: seq<real>, xs: seq<Input>, x: Input, m: nat)
    requires RunReady(mc, scalars, xs) && |x.scalars| == |mc.srMap|
    requires m < |mc.net.defs| && mc.net.defs[m].OnChange()
    ensures var ms := After(mc, scalars, xs);
      Sent(mc, ms, x, m) <==>
        !NetOff(mc, x) && Hash(Marshalled(mc, ms, x).msgs[m].buffer) != Hash(Received(mc, ms, x).msgs[m].buffer)
  {
    RunKeepsInvariant(mc, scalars, xs);
    SentOnChange(mc, After(mc, scalars, xs), x, m);
  }

  /** After every step of every run, such messages are silent for as long as nobody else acts. */
  lemma QuiescenceInRuns(mc: ModelCfg, scalars: seq<real>, xs: seq<Input>, x: Input, idle: seq<Input>)
    requires RunReady(mc, scalars, xs) && |x.scalars| == |mc.srMap| && mc.net.Fits() && mc.net.Disjoint()
    requires RewritesSurvive(mc, After(mc, scalars, xs), x)
    requires forall i :: 0 <= i < |idle| ==> |idle[i].scalars| == |mc.srMap|
    ensures Silent(mc, Step(mc, After(mc, scalars, xs), x), idle)
  {
    RunKeepsInvariant(mc, scalars, xs);
    Quiescence(mc, After(mc, scalars, xs), x, idle);
  }

  // ---- Cyclic messages ----

  /** The checksum with which a cyclic message ends a step: that of its buffer if encode functions rewrote it, else the
    * reset one if the step executed a due tick, else the one that reception left. */
  lemma CyclicChecksum(mc: ModelCfg, ms: ModelState, x: Input, ticks: nat, m: nat)
    requires Ready(mc, ms, x) && Lawful(mc.net) && Boundary(mc.net, ms.st) && InPhase(mc.net, ms.plan, ticks)
    requires m < |mc.net.defs| && mc.net.defs[m].cycle > 0
    ensures var f := Step(mc, ms, x).st.msgs[m];
      f.checksum ==
        if Outgoing(mc, ms, x).msgs[m].update then Hash(f.buffer)
        else if DueWithin(mc.net.defs[m].cycle, ticks, ticks + TickCount(ms, x.time)) then 0
        else Received(mc, ms, x).msgs[m].checksum
  {
    TicksWake(mc.net, ms.plan, ticks, Updated(mc, ms, x).msgs, TickCount(ms, x.time), m);
    BeforeMarshal(mc, ms, x, m);
    OutgoingIs(mc, ms, x, m);
    OutgoingMessage(mc, ms, x, m);
  }

  // ---- What counts as new ----

  /** A frame that brings a message sent on change what it has already is filtered ... */
  lemma UnchangedFrameFiltered(mc: ModelCfg, scalars: seq<real>, xs: seq<Input>, y: Input, m: nat, frame: Frame)
    requires RunReady(mc, scalars, xs) && |y.scalars| == |mc.srMap| && Only(y.frames, frame)
    requires First(mc.net, m) && mc.net.defs[m].OnChange() && frame.frameId == mc.net.defs[m].frameId
    requires var buffer := After(mc, scalars, xs).st.msgs[m].buffer;
      mc.net.defs[m].unpack(buffer, frame.data) == Unpacked(0, buffer)
    ensures !Received(mc, After(mc, scalars, xs), y).msgs[m].update
  {
    var ms := After(mc, scalars, xs);
    RunKeepsInvariant(mc, scalars, xs);
    OneTaken(mc.net, Loaded(mc, ms, y), m, y.frames, frame, ms.st.msgs[m].buffer);
  }

  /** ... but a cyclic message compares with the checksum that the step before (x) has left. What a frame brings counts as
    * new if and only if its hash differs from that of the buffer, if encode functions rewrote it in x; from 0, if a tick
    * was due in x; and otherwise from the checksum after reception in x, whatever was marshalled since. */
  lemma CyclicNewIff(
    mc: ModelCfg, ms: ModelState, x: Input, ticks: nat, s: ModelState, y: Input, m: nat, frame: Frame, v: seq<byte>)
    requires Ready(mc, ms, x) && Lawful(mc.net) && Boundary(mc.net, ms.st) && InPhase(mc.net, ms.plan, ticks)
    requires s == Step(mc, ms, x) && |y.scalars| == |mc.srMap| && Only(y.frames, frame)
    requires First(mc.net, m) && mc.net.defs[m].cycle > 0 && frame.frameId == mc.net.defs[m].frameId
    requires mc.net.defs[m].unpack(s.st.msgs[m].buffer, frame.data) == Unpacked(0, v)
    ensures Received(mc, s, y).msgs[m].buffer == v
    ensures Received(mc, s, y).msgs[m].update <==>
      Hash(v) !=
        if Outgoing(mc, ms, x).msgs[m].update then Hash(s.st.msgs[m].buffer)
        else if DueWithin(mc.net.defs[m].cycle, ticks, ticks + TickCount(ms, x.time)) then 0
        else Received(mc, ms, x).msgs[m].checksum
  {
    CyclicChecksum(mc, ms, x, ticks, m);
    OneTaken(mc.net, Loaded(mc, s, y), m, y.frames, frame, v);
  }

  /** So after a due tick a frame that brings nothing new counts as new, and overwrites its signals; unless encode functions
    * rewrote the payload. */
  lemma UnchangedFrameIsNew(mc: ModelCfg, scalars: seq<real>, xs: seq<Input>, x: Input, y: Input, m: nat, frame: Frame)
    requires RunReady(mc, scalars, xs) && |x.scalars| == |y.scalars| == |mc.srMap| && Only(y.frames, frame)
    requires First(mc.net, m) && mc.net.defs[m].cycle > 0 && frame.frameId == mc.net.defs[m].frameId
    requires DueWithin(mc.net.defs[m].cycle, TotalTicks(xs), TotalTicks(xs + [x]))
    requires !Outgoing(mc, After(mc, scalars, xs), x).msgs[m].update
    requires var buffer := Step(mc, After(mc, scalars, xs), x).st.msgs[m].buffer;
      mc.net.defs[m].unpack(buffer, frame.data) == Unpacked(0, buffer)
    ensures var ms := Step(mc, After(mc, scalars, xs), x);
      && (Received(mc, ms, y).msgs[m].update <==> Hash(ms.st.msgs[m].buffer) != 0)
      && Received(mc, ms, y).msgs[m].buffer == ms.st.msgs[m].buffer
  {
    var ms := After(mc, scalars, xs);
    var s := Step(mc, ms, x);
    RunKeepsInvariant(mc, scalars, xs);
    TotalTicksNext(xs, x);
    CyclicNewIff(mc, ms, x, TotalTicks(xs), s, y, m, frame, s.st.msgs[m].buffer);
  }

  /** And after a step without a due tick and without frames for the message, a frame that brings what the checksum still
    * stands for is filtered, although marshalling has changed the buffer meanwhile, and the frame changes it again. */
  lemma StaleFrameFiltered(
    mc: ModelCfg, scalars: seq<real>, xs: seq<Input>, x: Input, y: Input, m: nat, frame: Frame, v: seq<byte>)
    requires RunReady(mc, scalars, xs) && |x.scalars| == |y.scalars| == |mc.srMap| && Only(y.frames, frame)
    requires First(mc.net, m) && mc.net.defs[m].cycle > 0 && frame.frameId == mc.net.defs[m].frameId
    requires !DueWithin(mc.net.defs[m].cycle, TotalTicks(xs), TotalTicks(xs + [x]))
    requires !Outgoing(mc, After(mc, scalars, xs), x).msgs[m].update && NoneFor(x.frames, mc.net.defs[m].frameId)
    requires var ms := After(mc, scalars, xs);
      && mc.net.defs[m].unpack(Step(mc, ms, x).st.msgs[m].buffer, frame.data) == Unpacked(0, v)
      && Hash(v) == ms.st.msgs[m].checksum
    ensures var r := Received(mc, Step(mc, After(mc, scalars, xs), x), y).msgs[m]; !r.update && r.buffer == v
  {
    var ms := After(mc, scalars, xs);
    RunKeepsInvariant(mc, scalars, xs);
    TotalTicksNext(xs, x);
    NoneTaken(mc.net, Loaded(mc, ms, x), m, x.frames);
    CyclicNewIff(mc, ms, x, TotalTicks(xs), Step(mc, ms, x), y, m, frame, v);
  }
}
