/** What is written while the network is off, and what becomes of it when it is on again. */
module WakeUp {
  import opened Fnv
  import opened Net
  import opened Engine
  import opened Marshalling
  import opened Schedule
  import opened Model
  import opened Pipeline
  import opened Runs

  /** At a boundary of a run: the channel shows the signal vector, and the alarms are in phase. */
  ghost predicate Between(mc: ModelCfg, ms: ModelState, ticks: nat) {
    && mc.Valid() && Lawful(mc.net) && ms.Shape(mc)
    && Boundary(mc.net, ms.st) && InStep(mc, ms) && InPhase(mc.net, ms.plan, ticks)
  }

  /** A step leads from one to the next. */
  lemma NextBetween(mc: ModelCfg, ms: ModelState, x: Input, ticks: nat, total: nat)
    requires Between(mc, ms, ticks) && Ready(mc, ms, x) && total == ticks + TickCount(ms, x.time)
    ensures Between(mc, Step(mc, ms, x), total)
  {
    StepBoundary(mc, ms, x);
    StepInPhase(mc, ms, x, ticks, TickCount(ms, x.time), total);
  }

  /** A step without frames while the network is off leaves the signal vector as the channel had it. */
  lemma OffStepValues(mc: ModelCfg, ms: ModelState, x: Input)
    requires Ready(mc, ms, x) && Lawful(mc.net) && Boundary(mc.net, ms.st) && x.frames == [] && NetOff(mc, x)
    ensures Step(mc, ms, x).st.sv == Loaded(mc, ms, x).sv
  {
    forall j | 0 <= j < |mc.net.items|
      ensures Step(mc, ms, x).st.sv[j] == Loaded(mc, ms, x).sv[j]
    {
      NotRewrittenWhileOff(mc, ms, x, mc.net.items[j].msg);
      FramelessValue(mc, ms, x, j);
    }
  }

  /** Nobody touches message m: none of its signals is written, and nothing received reaches them. Other messages may be
    * written and received. */
  ghost predicate LeftAlone(mc: ModelCfg, ms: ModelState, x: Input, m: nat) {
    && Ready(mc, ms, x) && m < |mc.net.defs| && Unheard(mc, ms, x, m)
    && forall i :: 0 <= i < |mc.srMap| && mc.srMap[i].Some? && mc.net.items[mc.srMap[i].value].msg == m ==>
         x.scalars[i] == ms.scalars[i]
  }

  /** Its signals are then marshalled as the last step left them. */
  lemma LeftAloneItem(mc: ModelCfg, ms: ModelState, x: Input, j: nat)
    requires Ready(mc, ms, x) && InStep(mc, ms) && j < |mc.net.items| && LeftAlone(mc, ms, x, mc.net.items[j].msg)
    ensures Ticked(mc, ms, x).1.sv[j] == Loaded(mc, ms, x).sv[j] == ms.st.sv[j]
  {
    LoadKeeps(mc.srMap, x.scalars, ms.st.sv, 0, j);
    RejectedItem(mc, ms, x, j);
  }

  /** A step that does not send message m leaves its signals as the channel had them. */
  lemma UnsentItem(mc: ModelCfg, ms: ModelState, x: Input, j: nat)
    requires Ready(mc, ms, x) && Lawful(mc.net) && j < |mc.net.items|
    requires Unheard(mc, ms, x, mc.net.items[j].msg) && !Sent(mc, ms, x, mc.net.items[j].msg)
    ensures Step(mc, ms, x).st.sv[j] == Loaded(mc, ms, x).sv[j]
  {
    UnsentNotRewritten(mc, ms, x, mc.net.items[j].msg);
    RejectedItem(mc, ms, x, j);
    FinalValue(mc, ms, x, j);
  }

  /** A state between two steps, and the ticks so far. */
  datatype Moment = Moment(ms: ModelState, ticks: nat)

  /** Step y leads from p to q. */
  ghost predicate Leads(mc: ModelCfg, p: Moment, y: Input, q: Moment) {
    Ready(mc, p.ms, y) && q == Moment(Step(mc, p.ms, y), p.ticks + TickCount(p.ms, y.time))
  }

  /** It does not send message m, and leaves it alone. */
  ghost predicate Waits(mc: ModelCfg, p: Moment, y: Input, q: Moment, m: nat) {
    Leads(mc, p, y, q) && LeftAlone(mc, p.ms, y, m) && !Sent(mc, p.ms, y, m)
  }

  /** So do the steps ys, from each of these states to the next. */
  ghost predicate AllWait(mc: ModelCfg, ps: seq<Moment>, ys: seq<Input>, m: nat) {
    |ps| == |ys| + 1 && forall k :: 0 <= k < |ys| ==> Waits(mc, ps[k], ys[k], ps[k + 1], m)
  }

  /** Entry j of the signal vector is v. */
  ghost predicate Stands(mc: ModelCfg, p: Moment, j: nat, v: real) {
    Between(mc, p.ms, p.ticks) && j < |mc.net.items| && p.ms.st.sv[j] == v
  }

  lemma WaitStep(mc: ModelCfg, p: Moment, y: Input, q: Moment, j: nat, v: real)
    requires Stands(mc, p, j, v) && Waits(mc, p, y, q, mc.net.items[j].msg)
    ensures Stands(mc, q, j, v)
  {
    LeftAloneItem(mc, p.ms, y, j);
    UnsentItem(mc, p.ms, y, j);
    NextBetween(mc, p.ms, y, p.ticks, q.ticks);
  }

  lemma {:induction false} StandsOn(mc: ModelCfg, ps: seq<Moment>, k: nat, j: nat, v: real)
    requires k < |ps| && Stands(mc, ps[0], j, v)
    requires forall k :: 0 <= k < |ps| - 1 && Stands(mc, ps[k], j, v) ==> Stands(mc, ps[k + 1], j, v)
    ensures Stands(mc, ps[k], j, v)
  {
    if k > 0 {
      StandsOn(mc, ps, k - 1, j, v);
      assert ps[k] == ps[k - 1 + 1];
    }
  }

  /** While a message waits, its signals stand as they were. */
  lemma WaitKeeps(mc: ModelCfg, ps: seq<Moment>, ys: seq<Input>, j: nat, v: real)
    requires j < |mc.net.items| && AllWait(mc, ps, ys, mc.net.items[j].msg) && Stands(mc, ps[0], j, v)
    ensures Stands(mc, ps[|ys|], j, v)
  {
    forall k | 0 <= k < |ys| && Stands(mc, ps[k], j, v)
      ensures Stands(mc, ps[k + 1], j, v)
    {
      WaitStep(mc, ps[k], ys[k], ps[k + 1], j, v);
    }
    StandsOn(mc, ps, |ys|, j, v);
  }

  /** In a step that leaves its message alone, the member of a signal ends as what the signal vector is encoded to. */
  lemma LeftAloneRaw(mc: ModelCfg, ms: ModelState, y: Input, ticks: nat, j: nat)
    requires Between(mc, ms, ticks) && mc.net.Fits() && mc.net.Disjoint()
    requires j < |mc.net.items| && LeftAlone(mc, ms, y, mc.net.items[j].msg) && Writes(mc.net, ms.st.sv, j)
    ensures Raw(mc.net, Marshalled(mc, ms, y), j) == Encoded(mc.net, ms.st.sv, j)
  {
    LeftAloneItem(mc, ms, y, j);
    TickedSized(mc, ms, y);
    MarshalledRaw(mc.net, Ticked(mc, ms, y).1, 0, j);
  }

  lemma SameValue(cfg: Config, sv: seq<real>, sw: seq<real>, j: nat)
    requires cfg.Valid() && |sv| == |sw| == |cfg.items| && j < |cfg.items| && sv[j] == sw[j]
    ensures Writes(cfg, sv, j) == Writes(cfg, sw, j) && Encoded(cfg, sv, j) == Encoded(cfg, sw, j)
  {
  }

  /** What models write to message m in step x, which does not send it, is in the signal vector afterwards. */
  lemma WrittenKept(mc: ModelCfg, p: Moment, x: Input, q: Moment, j: nat)
    requires Between(mc, p.ms, p.ticks) && Leads(mc, p, x, q) && j < |mc.net.items|
    requires Unheard(mc, p.ms, x, mc.net.items[j].msg) && !Sent(mc, p.ms, x, mc.net.items[j].msg)
    ensures Stands(mc, q, j, Loaded(mc, p.ms, x).sv[j])
  {
    UnsentItem(mc, p.ms, x, j);
    NextBetween(mc, p.ms, x, p.ticks, q.ticks);
  }

  /** Unlike a message sent on change, a cyclic message keeps what models write in a step that does not send it (step x),
    * because the network is off or no tick is due. However many steps follow that do not send it either (ys), the first
    * one with the network on and a due tick (step y) sends those values. */
  lemma SentAfterWakeUp(
    mc: ModelCfg, p: Moment, x: Input, ps: seq<Moment>, ys: seq<Input>, e: Moment, y: Input, m: nat, j: nat)
    requires Between(mc, p.ms, p.ticks) && mc.net.Fits() && mc.net.Disjoint()
    requires j < |mc.net.items| && mc.net.items[j].msg == m && mc.net.defs[m].cycle > 0
    requires AllWait(mc, ps, ys, m) && e == ps[|ys|] && LeftAlone(mc, e.ms, y, m)
    requires Leads(mc, p, x, ps[0]) && Unheard(mc, p.ms, x, m) && !Sent(mc, p.ms, x, m)
    ensures Writes(mc.net, Loaded(mc, p.ms, x).sv, j) ==>
      Raw(mc.net, Marshalled(mc, e.ms, y), j) == Encoded(mc.net, Loaded(mc, p.ms, x).sv, j)
    ensures Sent(mc, e.ms, y, m) <==>
      && !NetOff(mc, y)
      && DueWithin(mc.net.defs[m].cycle, e.ticks, e.ticks + TickCount(e.ms, y.time))
      && (mc.net.defs[m].pack.None? || Hash(Marshalled(mc, e.ms, y).msgs[m].buffer) != 0)
  {
    WrittenKept(mc, p, x, ps[0], j);
    WaitKeeps(mc, ps, ys, j, Loaded(mc, p.ms, x).sv[j]);
    CyclicSent(mc, e.ms, y, e.ticks, m);
    SameValue(mc.net, Loaded(mc, p.ms, x).sv, e.ms.st.sv, j);
    if Writes(mc.net, e.ms.st.sv, j) {
      LeftAloneRaw(mc, e.ms, y, e.ticks, j);
    }
  }

  /** The steps that do not send it are those with the network off, without a due tick, or with a buffer that hashes to 0. */
  lemma UnsentIff(mc: ModelCfg, p: Moment, y: Input, m: nat)
    requires Between(mc, p.ms, p.ticks) && Ready(mc, p.ms, y) && m < |mc.net.defs| && mc.net.defs[m].cycle > 0
    ensures !Sent(mc, p.ms, y, m) <==>
      || NetOff(mc, y)
      || !DueWithin(mc.net.defs[m].cycle, p.ticks, p.ticks + TickCount(p.ms, y.time))
      || (mc.net.defs[m].pack.Some? && Hash(Marshalled(mc, p.ms, y).msgs[m].buffer) == 0)
  {
    CyclicSent(mc, p.ms, y, p.ticks, m);
  }

  /** Every state of every run is such a state. */
  lemma RunsBetween(mc: ModelCfg, scalars: seq<real>, xs: seq<Input>)
    requires RunReady(mc, scalars, xs)
    ensures Between(mc, After(mc, scalars, xs), TotalTicks(xs))
  {
    RunKeepsInvariant(mc, scalars, xs);
  }
}
