/** The cyclic scheduler (dse/network/schedule.c). */
module Schedule {
  import opened Arithmetic
  import opened Bytes
  import opened Net

  /** The cyclic messages among the first n, in order. */
  function Cyclic(defs: seq<MessageDef>, n: nat): (r: seq<nat>)
    requires n <= |defs|
    ensures forall i :: 0 <= i < |r| ==> r[i] < n && defs[r[i]].cycle > 0
  {
    if n == 0 then []
    else
      var p := Cyclic(defs, n - 1);
      if defs[n - 1].cycle > 0 then p + [n - 1] else p
  }

  function Listed(cfg: Config): seq<nat> {
    Cyclic(cfg.defs, |cfg.defs|)
  }

  /** The place of message m in the list. */
  function Slot(cfg: Config, m: nat): nat
    requires m < |cfg.defs|
  {
    |Cyclic(cfg.defs, m)|
  }

  lemma {:induction false} CyclicSorted(defs: seq<MessageDef>, n: nat)
    requires n <= |defs|
    ensures forall i, j :: 0 <= i < j < |Cyclic(defs, n)| ==> Cyclic(defs, n)[i] < Cyclic(defs, n)[j]
  {
    if n > 0 {
      CyclicSorted(defs, n - 1);
    }
  }

  /** Every cyclic message is listed, at its slot; by the order it is listed nowhere else. */
  lemma {:induction false} ListedAtSlot(defs: seq<MessageDef>, m: nat, n: nat)
    requires m < n <= |defs| && defs[m].cycle > 0
    ensures |Cyclic(defs, m)| < |Cyclic(defs, n)| && Cyclic(defs, n)[|Cyclic(defs, m)|] == m
    decreases n
  {
    var p := Cyclic(defs, n - 1);
    assert Cyclic(defs, n) == if defs[n - 1].cycle > 0 then p + [n - 1] else p;
    if m < n - 1 {
      ListedAtSlot(defs, m, n - 1);
      assert Cyclic(defs, n)[|Cyclic(defs, m)|] == p[|Cyclic(defs, m)|];
    }
  }

  lemma SlotOfListed(cfg: Config, i: nat)
    requires i < |Listed(cfg)|
    ensures Slot(cfg, Listed(cfg)[i]) == i
  {
    ListedAtSlot(cfg.defs, Listed(cfg)[i], |cfg.defs|);
    CyclicSorted(cfg.defs, |cfg.defs|);
  }

  /** The alarms of the listed messages, and the uint32_t counter of 1 ms ticks. */
  datatype Plan = Plan(alarms: seq<nat>, tick: uint32)

  function InitialPlan(cfg: Config): Plan {
    Plan(seq(|Listed(cfg)|, _ => 0), 0)
  }

  /** The alarm counts down, except on tick 0, and is reloaded at 0. */
  function Next(alarm: nat, cycle: nat, tick: nat): nat {
    var a := if tick != 0 && alarm != 0 then alarm - 1 else alarm;
    if a == 0 then cycle else a
  }

  /** The alarm runs out in this tick. */
  predicate Fires(alarm: nat, tick: nat) {
    tick != 0 && alarm == 1
  }

  function Advance(cfg: Config, p: Plan): (r: Plan)
    requires |p.alarms| == |Listed(cfg)|
    ensures |r.alarms| == |p.alarms|
    ensures forall i :: 0 <= i < |r.alarms| ==>
      r.alarms[i] == Next(p.alarms[i], cfg.defs[Listed(cfg)[i]].cycle, p.tick)
  {
    Plan(seq(|p.alarms|, i requires 0 <= i < |p.alarms| => Next(p.alarms[i], cfg.defs[Listed(cfg)[i]].cycle, p.tick)),
         (p.tick + 1) % WORD32)
  }

  /** Does message m become due in this tick? */
  predicate Due(cfg: Config, p: Plan, m: nat)
    requires |p.alarms| == |Listed(cfg)| && m < |cfg.defs|
  {
    cfg.defs[m].cycle > 0 && Slot(cfg, m) < |p.alarms| && Fires(p.alarms[Slot(cfg, m)], p.tick)
  }

  /** A due message is to be sent, and its checksum is reset. */
  function Wake(m: MsgState): MsgState {
    m.(checksum := 0, needsTx := true)
  }

  function WakeDue(cfg: Config, p: Plan, msgs: seq<MsgState>): (r: seq<MsgState>)
    requires |p.alarms| == |Listed(cfg)| && |msgs| == |cfg.defs|
    ensures |r| == |msgs|
    ensures forall m :: 0 <= m < |r| ==> r[m] == if Due(cfg, p, m) then Wake(msgs[m]) else msgs[m]
  {
    seq(|msgs|, m requires 0 <= m < |msgs| => if Due(cfg, p, m) then Wake(msgs[m]) else msgs[m])
  }

  /** The loop body for item i. */
  function ItemStep(cfg: Config, p: Plan, msgs: seq<MsgState>, i: nat): (r: (Plan, seq<MsgState>))
    requires |p.alarms| == |Listed(cfg)| && |msgs| == |cfg.defs| && i < |p.alarms|
  {
    var m := Listed(cfg)[i];
    (p.(alarms := p.alarms[i := Next(p.alarms[i], cfg.defs[m].cycle, p.tick)]),
     if Fires(p.alarms[i], p.tick) then msgs[m := Wake(msgs[m])] else msgs)
  }

  /** The loop over the items from i on. */
  function Items(cfg: Config, p: Plan, msgs: seq<MsgState>, i: nat): (r: (Plan, seq<MsgState>))
    requires |p.alarms| == |Listed(cfg)| && |msgs| == |cfg.defs| && i <= |p.alarms|
    ensures |r.0.alarms| == |p.alarms| && r.0.tick == p.tick && |r.1| == |msgs|
    decreases |p.alarms| - i
  {
    if i == |p.alarms| then (p, msgs)
    else
      var (p1, msgs1) := ItemStep(cfg, p, msgs, i);
      Items(cfg, p1, msgs1, i + 1)
  }

  lemma {:induction false} ItemsAlarm(cfg: Config, p: Plan, msgs: seq<MsgState>, i: nat, k: nat)
    requires |p.alarms| == |Listed(cfg)| && |msgs| == |cfg.defs| && i <= |p.alarms| && k < |p.alarms|
    ensures Items(cfg, p, msgs, i).0.alarms[k] ==
      if i <= k then Next(p.alarms[k], cfg.defs[Listed(cfg)[k]].cycle, p.tick) else p.alarms[k]
    decreases |p.alarms| - i
  {
    if i < |p.alarms| {
      var (p1, msgs1) := ItemStep(cfg, p, msgs, i);
      ItemsAlarm(cfg, p1, msgs1, i + 1, k);
    }
  }

  /** Item i wakes its own message, if due, and has no influence on whether others are. */
  lemma ItemMessage(cfg: Config, p: Plan, msgs: seq<MsgState>, i: nat, m: nat)
    requires |p.alarms| == |Listed(cfg)| && |msgs| == |cfg.defs| && i < |p.alarms| && m < |cfg.defs|
    ensures ItemStep(cfg, p, msgs, i).1[m] == if i == Slot(cfg, m) && Due(cfg, p, m) then Wake(msgs[m]) else msgs[m]
    ensures i != Slot(cfg, m) ==> (Due(cfg, ItemStep(cfg, p, msgs, i).0, m) <==> Due(cfg, p, m))
  {
    SlotOfListed(cfg, i);
    if cfg.defs[m].cycle > 0 {
      ListedAtSlot(cfg.defs, m, |cfg.defs|);
    }
  }

  lemma {:induction false} ItemsMessage(cfg: Config, p: Plan, msgs: seq<MsgState>, i: nat, m: nat)
    requires |p.alarms| == |Listed(cfg)| && |msgs| == |cfg.defs| && i <= |p.alarms| && m < |cfg.defs|
    ensures Items(cfg, p, msgs, i).1[m] == if i <= Slot(cfg, m) && Due(cfg, p, m) then Wake(msgs[m]) else msgs[m]
    decreases |p.alarms| - i
  {
    if cfg.defs[m].cycle > 0 {
      ListedAtSlot(cfg.defs, m, |cfg.defs|);
    }
    if i < |p.alarms| {
      ItemMessage(cfg, p, msgs, i, m);
      var (p1, msgs1) := ItemStep(cfg, p, msgs, i);
      ItemsMessage(cfg, p1, msgs1, i + 1, m);
    }
  }

  /** The loop advances every alarm, and wakes exactly the due messages, once each. */
  lemma AllItems(cfg: Config, p: Plan, msgs: seq<MsgState>)
    requires |p.alarms| == |Listed(cfg)| && |msgs| == |cfg.defs|
    ensures Items(cfg, p, msgs, 0).0.alarms == Advance(cfg, p).alarms
    ensures Items(cfg, p, msgs, 0).1 == WakeDue(cfg, p, msgs)
  {
    var (p1, msgs1) := Items(cfg, p, msgs, 0);
    forall k | 0 <= k < |p.alarms|
      ensures p1.alarms[k] == Advance(cfg, p).alarms[k]
    {
      ItemsAlarm(cfg, p, msgs, 0, k);
    }
    forall m | 0 <= m < |msgs|
      ensures msgs1[m] == WakeDue(cfg, p, msgs)[m]
    {
      ItemsMessage(cfg, p, msgs, 0, m);
    }
  }

  datatype ScheduleItem = ScheduleItem(message: Message, alarm: nat)

  function Alarms(items: seq<ScheduleItem>): (r: seq<nat>)
    ensures |r| == |items| && forall i :: 0 <= i < |r| ==> r[i] == items[i].alarm
  {
    seq(|items|, i requires 0 <= i < |items| => items[i].alarm)
  }

  /** The schedule of a network. */
  class Scheduler {
    const n: Network
    var list: array<ScheduleItem>
    var tick: uint32

    ghost predicate Valid()
      reads this, list
    {
      && n.Valid() && this !in n.Repr && list !in n.Repr
      && list.Length == |Listed(n.cfg)|
      && (forall i :: 0 <= i < list.Length ==> list[i].message == n.messages[Listed(n.cfg)[i]])
    }

    ghost function View(): (p: Plan)
      requires Valid()
      reads this, list
      ensures |p.alarms| == |Listed(n.cfg)|
    {
      Plan(Alarms(list[..]), tick)
    }

    constructor (n: Network)
      requires n.Valid()
      ensures this.n == n && Valid() && View() == InitialPlan(n.cfg) && fresh(list)
    {
      this.n := n;
      list := new ScheduleItem[0];
      tick := 0;
      new;
      Reset();
    }

    method Reset()
      requires n.Valid() && this !in n.Repr
      modifies this
      ensures Valid() && View() == InitialPlan(n.cfg) && fresh(list)
    {
      var items: seq<ScheduleItem> := [];
      for m := 0 to |n.messages|
        invariant |items| == |Cyclic(n.cfg.defs, m)|
        invariant forall i :: 0 <= i < |items| ==>
          items[i] == ScheduleItem(n.messages[Cyclic(n.cfg.defs, m)[i]], 0)
      {
        if n.messages[m].def.cycle > 0 {
          items := items + [ScheduleItem(n.messages[m], 0)];
        }
      }
      list := new ScheduleItem[|items|](i requires 0 <= i < |items| => items[i]);
      tick := 0;
    }

    method Tick()
      requires Valid()
      modifies this`tick, list, n.Repr
      ensures Valid() && View() == Advance(n.cfg, old(View()))
      ensures n.View() == old(n.View()).(msgs := WakeDue(n.cfg, old(View()), old(n.Views())))
    {
      AllItems(n.cfg, View(), n.Views());
      RunItems();
      tick := (tick + 1) % WORD32;
    }

    /** The loop over the list. */
    method RunItems()
      requires Valid()
      modifies list, n.Repr
      ensures Valid() && n.signalVector[..] == old(n.signalVector[..])
      ensures (View(), n.Views()) == Items(n.cfg, old(View()), old(n.Views()), 0)
    {
      ghost var p, msgs := View(), n.Views();
      ghost var goal := Items(n.cfg, p, msgs, 0);
      for i := 0 to list.Length
        invariant Valid() && p == View() && msgs == n.Views()
        invariant n.signalVector[..] == old(n.signalVector[..])
        invariant Items(n.cfg, p, msgs, i) == goal
      {
        TickItem(i);
        p, msgs := ItemStep(n.cfg, p, msgs, i).0, ItemStep(n.cfg, p, msgs, i).1;
      }
    }

    /** The alarm of message m has fired. */
    method Fire(nm: Message, ghost m: nat)
      requires n.Valid() && m < |n.messages| && n.messages[m] == nm
      modifies n.Repr
      ensures n.signalVector[..] == old(n.signalVector[..])
      ensures n.Views() == old(n.Views())[m := Wake(old(n.Views())[m])]
    {
      n.Alone(m);
      assert nm.View() == n.Views()[m];
      nm.bufferChecksum := 0;
      nm.needsTx := true;
    }

    /** One item of the list. */
    method TickItem(i: nat)
      requires Valid() && i < list.Length
      modifies list, n.Repr
      ensures Valid() && n.signalVector[..] == old(n.signalVector[..])
      ensures View() == ItemStep(n.cfg, old(View()), old(n.Views()), i).0
      ensures n.Views() == ItemStep(n.cfg, old(View()), old(n.Views()), i).1
    {
      var nsi := list[i];
      if tick == 0 {
      } else if nsi.alarm != 0 {
        nsi := nsi.(alarm := nsi.alarm - 1);
        if nsi.alarm == 0 {
          if nsi.message.def.cycle != 0 {
            Fire(nsi.message, Listed(n.cfg)[i]);
          }
        }
      }
      if nsi.alarm == 0 {
        nsi := nsi.(alarm := nsi.message.def.cycle);
      }
      SetItem(i, nsi);
    }

    method SetItem(i: nat, nsi: ScheduleItem)
      requires Valid() && i < list.Length && nsi.message == list[i].message
      modifies list
      ensures Valid() && View() == old(View()).(alarms := old(View()).alarms[i := nsi.alarm])
    {
      list[i] := nsi;
    }
  }

  // ---- Closed form ----

  /** Ticks that count down, among those numbered 1 to k: the tick counter is 0 at each multiple of 2^32. */
  function Counted(k: nat): nat {
    k - k / WORD32
  }

  /** x modulo c, by counting; see PhaseIsMod. */
  function Phase(x: nat, c: nat): (r: nat)
    requires c > 0
    ensures r < c
  {
    if x == 0 || Phase(x - 1, c) == c - 1 then 0 else Phase(x - 1, c) + 1
  }

  /** The alarm of a message with the given period after ticks ticks have been processed. */
  function AlarmAfter(cycle: nat, ticks: nat): nat
    requires cycle > 0
  {
    if ticks == 0 then 0 else cycle - Phase(Counted(ticks - 1), cycle)
  }

  /** The tick numbered k (from 0) makes a message of the given period due. */
  predicate DueAt(cycle: nat, k: nat)
    requires cycle > 0
  {
    k % WORD32 != 0 && Phase(Counted(k), cycle) == 0
  }

  lemma {:induction false} PhaseIsMod(x: nat, c: nat)
    requires c > 0
    ensures Phase(x, c) == x % c
  {
    if x == 0 {
      ModOf(0, 0, c);
    } else {
      PhaseIsMod(x - 1, c);
      ModNext(x - 1, c);
    }
  }

  /** One tick takes the closed form to the closed form, and fires exactly as DueAt says. */
  lemma ClosedFormStep(cycle: nat, ticks: nat)
    requires cycle > 0
    ensures Next(AlarmAfter(cycle, ticks), cycle, ticks % WORD32) == AlarmAfter(cycle, ticks + 1)
    ensures 1 <= AlarmAfter(cycle, ticks + 1) <= cycle
    ensures Fires(AlarmAfter(cycle, ticks), ticks % WORD32) <==> DueAt(cycle, ticks)
  {
  }

  /** Below 2^32 ticks, due means that the period divides the tick number. */
  lemma DueAtSmall(cycle: nat, k: nat)
    requires cycle > 0 && k < WORD32
    ensures DueAt(cycle, k) <==> k >= 1 && k % cycle == 0
    ensures AlarmAfter(cycle, k + 1) == cycle - k % cycle
  {
    PhaseIsMod(k, cycle);
  }

  /** In general, each multiple of 2^32 among the tick numbers costs the period one tick. */
  lemma DueAtAny(cycle: nat, k: nat)
    requires cycle > 0
    ensures DueAt(cycle, k) <==> k % WORD32 != 0 && (k - k / WORD32) % cycle == 0
    ensures AlarmAfter(cycle, k + 1) == cycle - (k - k / WORD32) % cycle
  {
    PhaseIsMod(Counted(k), cycle);
  }

  /** The plan is the one after this many ticks from a reset. */
  ghost predicate InPhase(cfg: Config, p: Plan, ticks: nat) {
    && |p.alarms| == |Listed(cfg)| && p.tick == ticks % WORD32
    && forall i :: 0 <= i < |p.alarms| ==> p.alarms[i] == AlarmAfter(cfg.defs[Listed(cfg)[i]].cycle, ticks)
  }

  /** Each alarm follows its own closed form, whatever the other items are. */
  lemma AdvanceInPhase(cfg: Config, p: Plan, ticks: nat)
    requires InPhase(cfg, p, ticks)
    ensures InPhase(cfg, Advance(cfg, p), ticks + 1)
  {
  }

  lemma DueInPhase(cfg: Config, p: Plan, ticks: nat, m: nat)
    requires InPhase(cfg, p, ticks) && m < |cfg.defs|
    ensures Due(cfg, p, m) <==> cfg.defs[m].cycle > 0 && DueAt(cfg.defs[m].cycle, ticks)
  {
    if cfg.defs[m].cycle > 0 {
      ListedAtSlot(cfg.defs, m, |cfg.defs|);
      ClosedFormStep(cfg.defs[m].cycle, ticks);
    }
  }
}
