/** Building the marshal list and the signal names (dse/network/engine.c). */
module MarshalList {
  import opened Bytes
  import opened Net

  function ItemsOf(m: nat, signals: seq<Signal>): (r: seq<Item>)
    ensures |r| == |signals| && forall s :: 0 <= s < |r| ==> r[s] == Item(m, signals[s], 0)
  {
    seq(|signals|, s requires 0 <= s < |signals| => Item(m, signals[s], 0))
  }

  /** What the loop builds from message i on: a zero buffer length also skips the message after it. */
  function Built(defs: seq<MessageDef>, i: nat): seq<Item>
    decreases |defs| - i
  {
    if i >= |defs| then []
    else if defs[i].bufferLen == 0 then Built(defs, i + 2)
    else ItemsOf(i, defs[i].signals) + Built(defs, i + 1)
  }

  /** The signals of every message that has a buffer, in order. */
  function Intended(defs: seq<MessageDef>, i: nat): seq<Item>
    decreases |defs| - i
  {
    if i >= |defs| then []
    else (if defs[i].bufferLen == 0 then [] else ItemsOf(i, defs[i].signals)) + Intended(defs, i + 1)
  }

  /** Items are numbered by their position. */
  function Numbered(items: seq<Item>): (r: seq<Item>)
    ensures |r| == |items| && forall k :: 0 <= k < |r| ==> r[k] == items[k].(index := k)
  {
    seq(|items|, k requires 0 <= k < |items| => items[k].(index := k))
  }

  /** mux records, for each message, its last mux signal among the first n items. */
  ghost predicate MuxUpTo(items: seq<Item>, n: nat, mux: seq<Option<nat>>) {
    n <= |items| && forall m :: 0 <= m < |mux| ==>
      match mux[m]
      case Some(k) =>
        && k < n && items[k].msg == m && items[k].signal.mux
        && forall j :: k < j < n && items[j].msg == m ==> !items[j].signal.mux
      case None => forall j :: 0 <= j < n && items[j].msg == m ==> !items[j].signal.mux
  }

  lemma BuiltNext(defs: seq<MessageDef>, i: nat, before: seq<Item>, after: seq<Item>)
    requires i < |defs| && defs[i].bufferLen != 0 && |after| == |before| + |defs[i].signals|
    requires forall k :: 0 <= k < |after| ==>
      after[k] == if k < |before| then before[k] else Item(i, defs[i].signals[k - |before|], 0)
    ensures after + Built(defs, i + 1) == before + Built(defs, i)
  {
  }

  method LoadMarshalLists(defs: seq<MessageDef>) returns (items: seq<Item>)
    ensures items == Built(defs, 0)
  {
    items := [];
    var i := 0;
    while i < |defs|
      invariant items + Built(defs, i) == Built(defs, 0)
      decreases |defs| - i
    {
      if defs[i].bufferLen == 0 {
        i := i + 2;
      } else {
        ghost var before := items;
        for s := 0 to |defs[i].signals|
          invariant |items| == |before| + s
          invariant forall k :: 0 <= k < |items| ==>
            items[k] == if k < |before| then before[k] else Item(i, defs[i].signals[k - |before|], 0)
        {
          items := items + [Item(i, defs[i].signals[s], 0)];
        }
        BuiltNext(defs, i, before, items);
        i := i + 1;
      }
    }
    assert items == items + Built(defs, i);
  }

  /** The last loop of the list builder: each message records its mux signal. */
  method SetMuxItems(count: nat, items: seq<Item>) returns (mux: seq<Option<nat>>)
    requires forall k :: 0 <= k < |items| ==> items[k].msg < count
    ensures |mux| == count && MuxUpTo(items, |items|, mux)
  {
    mux := seq(count, _ => None);
    for k := 0 to |items|
      invariant |mux| == count && MuxUpTo(items, k, mux)
    {
      if items[k].signal.mux {
        mux := mux[items[k].msg := Some(k)];
      }
    }
  }

  /** Internal signals get an empty name, which matches no signal of the channel. */
  method GetSignalNames(items: seq<Item>) returns (names: seq<string>, numbered: seq<Item>)
    ensures numbered == Numbered(items)
    ensures |names| == |items|
    ensures forall k :: 0 <= k < |items| ==>
      names[k] == if items[k].signal.internal then "" else items[k].signal.signalName
  {
    names, numbered := [], items;
    for k := 0 to |items|
      invariant |names| == k && |numbered| == |items|
      invariant forall j :: 0 <= j < |items| ==> numbered[j] == if j < k then items[j].(index := j) else items[j]
      invariant forall j :: 0 <= j < k ==>
        names[j] == if items[j].signal.internal then "" else items[j].signal.signalName
    {
      names := names + [if items[k].signal.internal then "" else items[k].signal.signalName];
      numbered := numbered[k := numbered[k].(index := k)];
    }
  }

  method Load(defs: seq<MessageDef>) returns (cfg: Config, names: seq<string>)
    ensures cfg.defs == defs && cfg.items == Numbered(Built(defs, 0)) && MuxUpTo(cfg.items, |cfg.items|, cfg.mux)
    ensures |names| == |cfg.items|
    ensures |cfg.mux| == |defs|
    ensures (forall m :: 0 <= m < |defs| && cfg.mux[m].Some? ==> defs[m].muxId == 0) ==> cfg.Valid()
  {
    var items := LoadMarshalLists(defs);
    BuiltMessages(defs, 0);
    var mux := SetMuxItems(|defs|, items);
    var numbered;
    names, numbered := GetSignalNames(items);
    cfg := Config(defs, numbered, mux);
  }

  lemma {:induction false} BuiltMessages(defs: seq<MessageDef>, i: nat)
    ensures forall k :: 0 <= k < |Built(defs, i)| ==> i <= Built(defs, i)[k].msg < |defs|
    decreases |defs| - i
  {
    if i < |defs| {
      if defs[i].bufferLen == 0 {
        BuiltMessages(defs, i + 2);
      } else {
        BuiltMessages(defs, i + 1);
      }
    }
  }

  /** The number of signals that are dropped because the message before has no buffer. */
  function Lost(defs: seq<MessageDef>, i: nat): nat
    decreases |defs| - i
  {
    if i >= |defs| then 0
    else if defs[i].bufferLen == 0 then
      (if i + 1 < |defs| && defs[i + 1].bufferLen != 0 then |defs[i + 1].signals| else 0) + Lost(defs, i + 2)
    else Lost(defs, i + 1)
  }

  lemma {:induction false} LostSignals(defs: seq<MessageDef>, i: nat)
    ensures |Intended(defs, i)| == |Built(defs, i)| + Lost(defs, i)
    ensures Lost(defs, i) == 0 ==> Built(defs, i) == Intended(defs, i)
    decreases |defs| - i
  {
    if i < |defs| {
      if defs[i].bufferLen == 0 {
        LostSignals(defs, i + 2);
        assert Intended(defs, i) == Intended(defs, i + 1);
        if i + 1 < |defs| && Lost(defs, i) == 0 {
          assert Intended(defs, i + 1) == Intended(defs, i + 2);
        }
      } else {
        LostSignals(defs, i + 1);
      }
    }
  }

  /** Does the builder, started at message i, come past message m? */
  predicate Visits(defs: seq<MessageDef>, i: nat, m: nat)
    requires m < |defs|
    decreases |defs| - i
  {
    if i >= m then i == m
    else Visits(defs, if defs[i].bufferLen == 0 then i + 2 else i + 1, m)
  }

  /** Some item belongs to message m. */
  ghost predicate Lists(items: seq<Item>, m: nat) {
    exists k :: 0 <= k < |items| && items[k].msg == m
  }

  lemma ListsConcat(a: seq<Item>, b: seq<Item>, m: nat)
    ensures Lists(a + b, m) <==> Lists(a, m) || Lists(b, m)
  {
    if k :| 0 <= k < |a| && a[k].msg == m {
      assert (a + b)[k].msg == m;
    }
    if k :| 0 <= k < |b| && b[k].msg == m {
      assert (a + b)[|a| + k].msg == m;
    }
  }

  lemma ListsOwn(i: nat, signals: seq<Signal>, m: nat)
    ensures Lists(ItemsOf(i, signals), m) <==> i == m && signals != []
  {
    if i == m && signals != [] {
      assert ItemsOf(i, signals)[0].msg == m;
    }
  }

  lemma ListsNext(defs: seq<MessageDef>, i: nat, m: nat)
    requires i < |defs| && defs[i].bufferLen != 0
    ensures Lists(Built(defs, i), m) <==> (i == m && defs[i].signals != []) || Lists(Built(defs, i + 1), m)
  {
    ListsOwn(i, defs[i].signals, m);
    ListsConcat(ItemsOf(i, defs[i].signals), Built(defs, i + 1), m);
  }

  /** A message has its signals in the list if and only if the builder comes past it and it has a buffer. */
  lemma {:induction false} ListedIff(defs: seq<MessageDef>, i: nat, m: nat)
    requires m < |defs|
    ensures Lists(Built(defs, i), m) <==> Visits(defs, i, m) && defs[m].bufferLen != 0 && defs[m].signals != []
    decreases |defs| - i
  {
    if i < |defs| {
      if defs[i].bufferLen == 0 {
        ListedIff(defs, i + 2, m);
      } else {
        ListedIff(defs, i + 1, m);
        ListsNext(defs, i, m);
      }
    }
  }

  /** The builder comes past the next message unless it comes past this one and finds no buffer. */
  lemma {:induction false} VisitsNext(defs: seq<MessageDef>, i: nat, m: nat)
    requires i <= m && m + 1 < |defs|
    ensures Visits(defs, i, m + 1) <==> !(Visits(defs, i, m) && defs[m].bufferLen == 0)
    decreases |defs| - i
  {
    if i < m {
      var next := if defs[i].bufferLen == 0 then i + 2 else i + 1;
      if next <= m {
        VisitsNext(defs, next, m);
      }
    }
  }

  /** The length of the run of messages without buffer that ends directly before message m. */
  function ZerosBefore(defs: seq<MessageDef>, m: nat): nat
    requires m <= |defs|
  {
    if m == 0 || defs[m - 1].bufferLen != 0 then 0 else 1 + ZerosBefore(defs, m - 1)
  }

  /** The builder comes past a message if and only if an even number of messages without buffer stands directly before. */
  lemma {:induction false} VisitsIff(defs: seq<MessageDef>, m: nat)
    requires m < |defs|
    ensures Visits(defs, 0, m) <==> ZerosBefore(defs, m) % 2 == 0
  {
    if m > 0 {
      VisitsIff(defs, m - 1);
      VisitsNext(defs, 0, m - 1);
    }
  }

  lemma {:induction false} VisitsAfter(defs: seq<MessageDef>, i: nat, m: nat)
    requires i < m < |defs|
    ensures Visits(defs, i, m) <==> Visits(defs, if defs[i].bufferLen == 0 then i + 2 else i + 1, m)
  {
  }

  /** If the builder comes past every message that has signals and a buffer, it loses none. */
  lemma {:induction false} NothingLost(defs: seq<MessageDef>, i: nat)
    requires forall m :: i <= m < |defs| && defs[m].bufferLen != 0 && defs[m].signals != [] ==> Visits(defs, i, m)
    ensures Lost(defs, i) == 0
    decreases |defs| - i
  {
    if i < |defs| {
      var next := if defs[i].bufferLen == 0 then i + 2 else i + 1;
      forall m | next <= m < |defs| && defs[m].bufferLen != 0 && defs[m].signals != []
        ensures Visits(defs, next, m)
      {
        VisitsAfter(defs, i, m);
      }
      NothingLost(defs, next);
      assert defs[i].bufferLen == 0 && i + 1 < |defs| ==> !Visits(defs, i, i + 1);
    }
  }

  lemma {:induction false} IntendedLists(defs: seq<MessageDef>, i: nat, m: nat)
    requires i <= m < |defs| && defs[m].bufferLen != 0 && defs[m].signals != []
    ensures Lists(Intended(defs, i), m)
    decreases |defs| - i
  {
    var own := if defs[i].bufferLen == 0 then [] else ItemsOf(i, defs[i].signals);
    ListsConcat(own, Intended(defs, i + 1), m);
    if i < m {
      IntendedLists(defs, i + 1, m);
    } else {
      ListsOwn(i, defs[i].signals, m);
    }
  }

  /** The list is the in-order concatenation of the signals if and only if before each message with signals and a buffer
    * an even number of messages without buffer stands directly before it. */
  lemma BuiltAsIntendedIff(defs: seq<MessageDef>)
    ensures Built(defs, 0) == Intended(defs, 0) <==>
      forall m :: 0 <= m < |defs| && defs[m].bufferLen != 0 && defs[m].signals != [] ==> ZerosBefore(defs, m) % 2 == 0
  {
    if Built(defs, 0) == Intended(defs, 0) {
      forall m | 0 <= m < |defs| && defs[m].bufferLen != 0 && defs[m].signals != []
        ensures ZerosBefore(defs, m) % 2 == 0
      {
        IntendedLists(defs, 0, m);
        ListedIff(defs, 0, m);
        VisitsIff(defs, m);
      }
    } else if forall m :: 0 <= m < |defs| && defs[m].bufferLen != 0 && defs[m].signals != [] ==> ZerosBefore(defs, m) % 2 == 0 {
      forall m | 0 <= m < |defs| && defs[m].bufferLen != 0 && defs[m].signals != []
        ensures Visits(defs, 0, m)
      {
        VisitsIff(defs, m);
      }
      NothingLost(defs, 0);
      LostSignals(defs, 0);
    }
  }

  /** A message has its signals in the list exactly if it has a buffer, and an even number of messages without one stands
    * directly before it. */
  lemma MessageListedIff(defs: seq<MessageDef>, m: nat)
    requires m < |defs| && defs[m].signals != []
    ensures Lists(Built(defs, 0), m) <==> defs[m].bufferLen != 0 && ZerosBefore(defs, m) % 2 == 0
  {
    ListedIff(defs, 0, m);
    VisitsIff(defs, m);
  }

  /** So a message without buffer takes all signals of its successor with it, unless it was itself skipped. */
  lemma SuccessorLost(defs: seq<MessageDef>, m: nat)
    requires m + 1 < |defs| && defs[m].bufferLen == 0 && ZerosBefore(defs, m) % 2 == 0
    ensures !Lists(Built(defs, 0), m + 1)
  {
    ListedIff(defs, 0, m + 1);
    VisitsIff(defs, m + 1);
  }

  /** Position of the first signal of message m when every message has a buffer. */
  function Start(defs: seq<MessageDef>, m: nat): nat
    requires m <= |defs|
  {
    if m == 0 then 0 else Start(defs, m - 1) + |defs[m - 1].signals|
  }

  lemma {:induction false} BuiltLength(defs: seq<MessageDef>, i: nat)
    requires forall m :: 0 <= m < |defs| ==> defs[m].bufferLen != 0
    requires i <= |defs|
    ensures Start(defs, i) + |Built(defs, i)| == Start(defs, |defs|)
    decreases |defs| - i
  {
    if i < |defs| {
      BuiltLength(defs, i + 1);
    }
  }

  lemma {:induction false} BuiltAt(defs: seq<MessageDef>, i: nat, m: nat, s: nat)
    requires forall m :: 0 <= m < |defs| ==> defs[m].bufferLen != 0
    requires i <= m < |defs| && s < |defs[m].signals|
    ensures 0 <= Start(defs, m) + s - Start(defs, i) < |Built(defs, i)|
    ensures Built(defs, i)[Start(defs, m) + s - Start(defs, i)] == Item(m, defs[m].signals[s], 0)
    decreases m - i
  {
    if i < m {
      BuiltAt(defs, i + 1, m, s);
      var rest := Built(defs, i + 1);
      assert Built(defs, i) == ItemsOf(i, defs[i].signals) + rest;
    }
  }

  /** With buffers everywhere, signal s of message m is the item at Start(m) + s, and carries that signal
    * vector index ... */
  lemma ItemOfSignal(defs: seq<MessageDef>, m: nat, s: nat)
    requires forall m :: 0 <= m < |defs| ==> defs[m].bufferLen != 0
    requires m < |defs| && s < |defs[m].signals|
    ensures |Numbered(Built(defs, 0))| == Start(defs, |defs|)
    ensures Start(defs, m) + s < Start(defs, |defs|)
    ensures Numbered(Built(defs, 0))[Start(defs, m) + s] == Item(m, defs[m].signals[s], Start(defs, m) + s)
  {
    BuiltLength(defs, 0);
    BuiltAt(defs, 0, m, s);
  }

  /** ... and every index belongs to such a signal. */
  lemma {:induction false} SignalOfItem(defs: seq<MessageDef>, i: nat, k: nat) returns (m: nat, s: nat)
    requires forall m :: 0 <= m < |defs| ==> defs[m].bufferLen != 0
    requires i <= |defs| && Start(defs, i) <= k < Start(defs, |defs|)
    ensures i <= m < |defs| && s < |defs[m].signals| && k == Start(defs, m) + s
    decreases |defs| - i
  {
    if k < Start(defs, i + 1) {
      m, s := i, k - Start(defs, i);
    } else {
      m, s := SignalOfItem(defs, i + 1, k);
    }
  }
}
