/** The generator serves the marshaller: a network whose messages were laid out by the generator loads into a
  * configuration that fits its buffers and has disjoint members. */
module Agreement {
  import opened Bytes
  import opened Net
  import opened Engine
  import opened Marshalling
  import opened MarshalList
  import opened Layout

  /** Signals, as the parser reads them from generated ones. */
  ghost predicate Reads(signals: seq<Signal>, generated: seq<Placed>) {
    && |signals| == |generated|
    && forall s :: 0 <= s < |signals| ==>
      && signals[s].offset == generated[s].offset
      && signals[s].memberType == ParseType(generated[s].member.typeName)
      && signals[s].mux == generated[s].mux
      && signals[s].internal == generated[s].constant.Some?
      && (generated[s].constant.Some? ==> signals[s].value == generated[s].constant.value as real)
  }

  /** A message, as the parser reads it from what was generated for a struct; with a mux id it has no mux signal. */
  ghost predicate Describes(def: MessageDef, members: seq<Member>, g: Generated, at: seq<nat>) {
    && FromMembers(members, g.signals, at)
    && Reads(def.signals, g.signals)
    && def.bufferLen == g.structSize == AlignUp(End(members, |members|), 8)
    && (def.muxId != 0 ==> forall s :: 0 <= s < |g.signals| ==> !g.signals[s].mux)
  }

  /** The structs of a whole network; a C struct has at least one member. */
  ghost predicate Generates(defs: seq<MessageDef>, structs: seq<seq<Member>>, gs: seq<Generated>, ats: seq<seq<nat>>) {
    && |structs| == |gs| == |ats| == |defs|
    && forall m :: 0 <= m < |defs| ==> structs[m] != [] && Describes(defs[m], structs[m], gs[m], ats[m])
  }

  /** What the generator emits for a struct or a container, which get no mux id, describes a message ... */
  lemma GeneratedDescribes(def: MessageDef, members: seq<Member>, isContainer: bool)
    requires Reads(def.signals, EmitAll(members, |members|, isContainer)) && def.muxId == 0
    requires def.bufferLen == AlignUp(End(members, |members|), 8)
    ensures Describes(def, members, Generated(EmitAll(members, |members|, isContainer), def.bufferLen),
                      RunKeeps(members, |members|, isContainer))
  {
    EmittedOffsets(members, |members|, isContainer);
  }

  /** ... and so does what it emits for a contained message, whatever its mux id. */
  lemma ContainedDescribes(def: MessageDef, members: seq<Member>, keep: seq<string>, muxId: int, length: int)
    requires Reads(def.signals, EmitAllContained(members, |members|, keep, muxId, length))
    requires def.bufferLen == AlignUp(End(members, |members|), 8)
    ensures Describes(def, members, Generated(EmitAllContained(members, |members|, keep, muxId, length), def.bufferLen),
                      ContainedKeeps(members, |members|, keep))
  {
    ContainedOffsets(members, |members|, keep, muxId, length);
    NoMuxInContained(members, |members|, keep, muxId, length);
  }

  lemma {:induction false} NoMuxInContained(members: seq<Member>, n: nat, keep: seq<string>, muxId: int, length: int)
    requires n <= |members|
    ensures forall s :: 0 <= s < |EmitAllContained(members, n, keep, muxId, length)| ==>
      !EmitAllContained(members, n, keep, muxId, length)[s].mux
  {
    if n > 0 {
      NoMuxInContained(members, n - 1, keep, muxId, length);
    }
  }

  // ---- What the marshaller asks of a message ----

  function AccessOf(def: MessageDef, s: nat): Item
    requires s < |def.signals|
  {
    Item(0, def.signals[s], 0)
  }

  /** The members lie in the buffer and do not overlap, and a mux signal excludes a mux id. */
  ghost predicate Sound(def: MessageDef) {
    && def.bufferLen != 0
    && (forall s :: 0 <= s < |def.signals| ==> AccessOf(def, s).At() + AccessOf(def, s).Width() <= def.bufferLen)
    && (forall s, t :: 0 <= s < |def.signals| && 0 <= t < |def.signals| && s != t ==> AccessOf(def, s).Apart(AccessOf(def, t)))
    && (forall s :: 0 <= s < |def.signals| && def.signals[s].mux ==> def.muxId == 0)
  }

  /** Where signal s of a generated message is accessed: at its offset. */
  lemma AccessOfSignal(def: MessageDef, members: seq<Member>, g: Generated, at: seq<nat>, s: nat, t: nat)
    requires Describes(def, members, g, at) && s < |def.signals| && t < |def.signals|
    ensures AccessOf(def, s).At() == def.signals[s].offset
    ensures AccessOf(def, s).At() + AccessOf(def, s).Width() <= def.bufferLen
    ensures s != t ==> AccessOf(def, s).Apart(AccessOf(def, t))
  {
    AccessesDisjoint(members, g.signals, at, s, t);
    AccessesDisjoint(members, g.signals, at, t, s);
  }

  /** A generated message of a struct with at least one member is sound. */
  lemma GeneratedIsSound(def: MessageDef, members: seq<Member>, g: Generated, at: seq<nat>)
    requires Describes(def, members, g, at) && members != []
    ensures Sound(def)
  {
    StructSize(members, 0, 0);
    forall s, t | 0 <= s < |def.signals| && 0 <= t < |def.signals|
      ensures AccessOf(def, s).At() + AccessOf(def, s).Width() <= def.bufferLen
      ensures s != t ==> AccessOf(def, s).Apart(AccessOf(def, t))
    {
      AccessOfSignal(def, members, g, at, s, t);
    }
  }

  // ---- The loaded configuration ----

  /** The loaded configuration, with the mux signals that the list builder records, is valid and fits its buffers, and no
    * two members overlap: all that the marshaller and the pipeline ask of a configuration. */
  lemma LoadedIsSound(defs: seq<MessageDef>, structs: seq<seq<Member>>, gs: seq<Generated>, ats: seq<seq<nat>>,
                      mux: seq<Option<nat>>)
    requires Generates(defs, structs, gs, ats) && |mux| == |defs|
    requires MuxUpTo(Numbered(Built(defs, 0)), |Built(defs, 0)|, mux)
    ensures var cfg := Config(defs, Numbered(Built(defs, 0)), mux);
      cfg.Valid() && cfg.Fits() && cfg.Disjoint()
  {
    forall m | 0 <= m < |defs|
      ensures Sound(defs[m])
    {
      GeneratedIsSound(defs[m], structs[m], gs[m], ats[m]);
    }
    LoadedValid(defs, mux);
    LoadedFits(defs, mux);
    LoadedDisjoint(defs, mux);
  }

  lemma LoadedValid(defs: seq<MessageDef>, mux: seq<Option<nat>>)
    requires forall m :: 0 <= m < |defs| ==> Sound(defs[m])
    requires |mux| == |defs| && MuxUpTo(Numbered(Built(defs, 0)), |Built(defs, 0)|, mux)
    ensures Config(defs, Numbered(Built(defs, 0)), mux).Valid()
  {
    BuiltMessages(defs, 0);
    forall m | 0 <= m < |mux| && mux[m].Some?
      ensures defs[m].muxId == 0
    {
      var n, s := ItemIs(defs, mux[m].value);
      assert Sound(defs[m]);
    }
  }

  lemma LoadedFits(defs: seq<MessageDef>, mux: seq<Option<nat>>)
    requires forall m :: 0 <= m < |defs| ==> Sound(defs[m])
    ensures Config(defs, Numbered(Built(defs, 0)), mux).Fits()
  {
    var cfg := Config(defs, Numbered(Built(defs, 0)), mux);
    forall k: nat
      ensures cfg.ItemFits(k)
    {
      if k < |cfg.items| {
        var m, s := ItemIs(defs, k);
        assert AccessOf(defs[m], s).At() + AccessOf(defs[m], s).Width() <= defs[m].bufferLen;
      }
    }
  }

  lemma LoadedDisjoint(defs: seq<MessageDef>, mux: seq<Option<nat>>)
    requires forall m :: 0 <= m < |defs| ==> Sound(defs[m])
    ensures Config(defs, Numbered(Built(defs, 0)), mux).Disjoint()
  {
    var items := Numbered(Built(defs, 0));
    forall j, k | 0 <= j < |items| && 0 <= k < |items| && j != k && items[j].msg == items[k].msg
      ensures items[j].Apart(items[k])
    {
      ItemsDisjoint(defs, items, j, k);
    }
  }

  lemma ItemsDisjoint(defs: seq<MessageDef>, items: seq<Item>, j: nat, k: nat)
    requires forall m :: 0 <= m < |defs| ==> Sound(defs[m])
    requires items == Numbered(Built(defs, 0))
    requires j < |items| && k < |items| && j != k && items[j].msg == items[k].msg
    ensures items[j].Apart(items[k])
  {
    var m, s := ItemIs(defs, j);
    var m2, t := ItemIs(defs, k);
    assert AccessOf(defs[m], s).Apart(AccessOf(defs[m], t));
  }

  /** Item k is a signal of a message. */
  lemma ItemIs(defs: seq<MessageDef>, k: nat) returns (m: nat, s: nat)
    requires forall m :: 0 <= m < |defs| ==> Sound(defs[m])
    requires k < |Numbered(Built(defs, 0))|
    ensures m < |defs| && s < |defs[m].signals| && k == Start(defs, m) + s
    ensures Numbered(Built(defs, 0))[k] == Item(m, defs[m].signals[s], k)
  {
    SoundBuffers(defs);
    BuiltLength(defs, 0);
    m, s := SignalOfItem(defs, 0, k);
    ItemOfSignal(defs, m, s);
  }

  // ---- The header of a container, from the generator to the marshaller ----

  /** What is generated for a contained message, as the parser reads it. */
  ghost predicate Contains(def: MessageDef, members: seq<Member>, keep: seq<string>, muxId: int, length: int) {
    def.contained && Reads(def.signals, EmitAllContained(members, |members|, keep, muxId, length))
  }

  /** The number that a header signal of a contained message has. */
  function HeaderValue(role: Role, muxId: int, length: int): Option<int> {
    match role
    case HeaderId => Some(muxId)
    case HeaderDlc => Some(length)
    case Plain => None
  }

  /** A header signal is read as internal, with its number as value; any other is not internal. */
  lemma HeaderRead(def: MessageDef, members: seq<Member>, keep: seq<string>, muxId: int, length: int, s: nat)
    requires Contains(def, members, keep, muxId, length) && s < |def.signals|
    ensures s < |EmitAllContained(members, |members|, keep, muxId, length)|
    ensures var role := EmitAllContained(members, |members|, keep, muxId, length)[s].member.role;
      && (def.signals[s].internal <==> role != Plain)
      && (role == HeaderId ==> def.signals[s].value == muxId as real)
      && (role == HeaderDlc ==> def.signals[s].value == length as real)
  {
    HeaderIsConstant(members, |members|, keep, muxId, length, s);
  }

  /** So the header id of a contained message is marshalled as its mux id, and the header dlc as the frame length, in
    * every state, if their codec encodes them as they are, and they are in range. */
  lemma HeaderMarshalled(
    cfg: Config, st: State, j: nat, members: seq<Member>, keep: seq<string>, muxId: int, length: int, s: nat, raw: nat)
    requires cfg.Valid() && cfg.Fits() && cfg.Disjoint() && st.Sized(cfg) && j < |cfg.items|
    requires Contains(cfg.defs[cfg.items[j].msg], members, keep, muxId, length)
    requires s < |cfg.defs[cfg.items[j].msg].signals| && cfg.items[j].signal == cfg.defs[cfg.items[j].msg].signals[s]
    requires s < |EmitAllContained(members, |members|, keep, muxId, length)|
    requires HeaderValue(EmitAllContained(members, |members|, keep, muxId, length)[s].member.role, muxId, length) == Some(raw)
    requires var it := cfg.items[j];
      && !it.signal.memberType.Unknown? && !it.signal.memberType.I64? && raw < Pow256(it.Width())
      && it.signal.codec.encode(raw as real) == raw && it.signal.codec.inRange(raw)
    ensures Raw(cfg, MarshalIn(cfg, st, 0), j) == raw
  {
    HeaderRead(cfg.defs[cfg.items[j].msg], members, keep, muxId, length, s);
    OtherArmsExact(cfg.items[j].signal.memberType, raw);
    MarshalledRaw(cfg, st, 0, j);
  }

  /** A loaded container records as its mux signal one that was generated for a header id; it records none only if it has
    * none. */
  lemma ContainerMux(
    defs: seq<MessageDef>, structs: seq<seq<Member>>, gs: seq<Generated>, ats: seq<seq<nat>>, mux: seq<Option<nat>>, m: nat,
    isContainer: bool, s: nat)
    requires Generates(defs, structs, gs, ats) && |mux| == |defs| && m < |defs|
    requires MuxUpTo(Numbered(Built(defs, 0)), |Built(defs, 0)|, mux)
    requires gs[m].signals == EmitAll(structs[m], |structs[m]|, isContainer)
    ensures mux[m].Some? ==>
      && isContainer
      && exists t ::
           && 0 <= t < |defs[m].signals| && mux[m].value == Start(defs, m) + t
           && gs[m].signals[t].member.role == HeaderId
    ensures s < |gs[m].signals| && isContainer && gs[m].signals[s].member.role == HeaderId ==> mux[m].Some?
  {
    forall i | 0 <= i < |defs|
      ensures Sound(defs[i])
    {
      GeneratedIsSound(defs[i], structs[i], gs[i], ats[i]);
    }
    var items := Numbered(Built(defs, 0));
    if mux[m].Some? {
      var n, t := ItemIs(defs, mux[m].value);
      MuxIsHeaderId(structs[m], |structs[m]|, isContainer, t);
      assert 0 <= t < |defs[m].signals|;
    } else if s < |gs[m].signals| {
      MuxIsHeaderId(structs[m], |structs[m]|, isContainer, s);
      SoundBuffers(defs);
      ItemOfSignal(defs, m, s);
      assert !items[Start(defs, m) + s].signal.mux;
    }
  }

  lemma SoundBuffers(defs: seq<MessageDef>)
    requires forall m :: 0 <= m < |defs| ==> Sound(defs[m])
    ensures forall m :: 0 <= m < |defs| ==> defs[m].bufferLen != 0
  {
    assert forall m :: 0 <= m < |defs| ==> Sound(defs[m]);
  }
}
