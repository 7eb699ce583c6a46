/** What the two marshal loops of dse/network/engine.c achieve, item by item. */
module Marshalling {
  import opened Bytes
  import opened Net
  import opened Engine

  /** Does byte p of its message belong to item k? */
  predicate Covers(cfg: Config, k: nat, p: nat)
    requires k < |cfg.items|
  {
    cfg.items[k].At() <= p < cfg.items[k].At() + cfg.items[k].Width()
  }

  /** A byte that no writing item covers keeps its value. In particular an out-of-range
    * signal leaves its own member and every other byte alone. */
  lemma {:induction false} Untouched(cfg: Config, st: State, k: nat, m: nat, p: nat)
    requires cfg.Valid() && st.Shape(cfg) && k <= |cfg.items| && m < |cfg.defs| && p < |st.msgs[m].buffer|
    requires forall j :: k <= j < |cfg.items| && cfg.items[j].msg == m && Covers(cfg, j, p) ==> !Writes(cfg, st.sv, j)
    ensures MarshalIn(cfg, st, k).msgs[m].buffer[p] == st.msgs[m].buffer[p]
    decreases |cfg.items| - k
  {
    if k < |cfg.items| {
      Untouched(cfg, EncodeItem(cfg, st, k), k + 1, m, p);
    }
  }

  /** If item k writes, its member already holds the value written. */
  predicate Holds(cfg: Config, st: State, k: nat)
    requires cfg.Valid() && st.Shape(cfg) && k < |cfg.items|
  {
    Writes(cfg, st.sv, k) ==> Raw(cfg, st, k) == Encoded(cfg, st.sv, k)
  }

  /** If each member that is written already holds the value written, nothing changes. */
  lemma {:induction false} Stable(cfg: Config, st: State, k: nat, m: nat)
    requires cfg.Valid() && st.Shape(cfg) && k <= |cfg.items| && m < |cfg.defs|
    requires forall j :: k <= j < |cfg.items| && cfg.items[j].msg == m ==> Holds(cfg, st, j)
    ensures MarshalIn(cfg, st, k).msgs[m] == st.msgs[m]
    decreases |cfg.items| - k
  {
    if k < |cfg.items| {
      var st1 := EncodeItem(cfg, st, k);
      StableItem(cfg, st, k, m);
      forall j | k + 1 <= j < |cfg.items| && cfg.items[j].msg == m
        ensures Holds(cfg, st1, j)
      {
        assert Holds(cfg, st, j);
      }
      Stable(cfg, st1, k + 1, m);
    }
  }

  lemma StableItem(cfg: Config, st: State, k: nat, m: nat)
    requires cfg.Valid() && st.Shape(cfg) && k < |cfg.items| && m < |cfg.defs|
    requires cfg.items[k].msg == m ==> Holds(cfg, st, k)
    ensures EncodeItem(cfg, st, k).msgs[m] == st.msgs[m]
  {
    var it := cfg.items[k];
    if it.msg == m {
      PokePeek(st.msgs[m].buffer, it.At(), it.Width());
    }
  }

  /** After one item: its own member holds the value, members it does not overlap keep theirs. */
  lemma AfterItem(cfg: Config, st: State, k: nat, j: nat)
    requires cfg.Valid() && cfg.Fits() && cfg.Disjoint() && st.Sized(cfg) && k < |cfg.items| && j < |cfg.items|
    ensures EncodeItem(cfg, st, k).Sized(cfg) && EncodeItem(cfg, st, k).sv == st.sv
    ensures Raw(cfg, EncodeItem(cfg, st, k), j) ==
      if j == k && Writes(cfg, st.sv, k) then Encoded(cfg, st.sv, k) else Raw(cfg, st, j)
  {
    var it, jt := cfg.items[k], cfg.items[j];
    assert cfg.ItemFits(k);
    if j == k {
      PeekPoke(st.msgs[it.msg].buffer, it.At(), it.Width(), Encoded(cfg, st.sv, k));
    } else if jt.msg == it.msg {
      PeekPokeDisjoint(st.msgs[it.msg].buffer, it.At(), it.Width(), Encoded(cfg, st.sv, k), jt.At(), jt.Width());
    }
  }

  /** After marshalling the items from k on: the members of in-range signals hold the encoded value, the others
    * their old one. */
  lemma {:induction false} MarshalledRaw(cfg: Config, st: State, k: nat, j: nat)
    requires cfg.Valid() && cfg.Fits() && cfg.Disjoint() && st.Sized(cfg) && k <= |cfg.items| && j < |cfg.items|
    ensures Raw(cfg, MarshalIn(cfg, st, k), j) ==
      if k <= j && Writes(cfg, st.sv, j) then Encoded(cfg, st.sv, j) else Raw(cfg, st, j)
    decreases |cfg.items| - k
  {
    if k < |cfg.items| {
      var st1 := EncodeItem(cfg, st, k);
      AfterItem(cfg, st, k, j);
      assert Writes(cfg, st1.sv, j) == Writes(cfg, st.sv, j);
      MarshalledRaw(cfg, st1, k + 1, j);
      assert MarshalIn(cfg, st, k) == MarshalIn(cfg, st1, k + 1);
    }
  }

  /** Items that are not written, or lie apart, keep a member. */
  lemma {:induction false} MemberKept(cfg: Config, st: State, k: nat, j: nat)
    requires cfg.Valid() && cfg.Fits() && st.Sized(cfg) && k <= |cfg.items| && j < |cfg.items|
    requires forall i :: k <= i < |cfg.items| && cfg.items[i].msg == cfg.items[j].msg && Writes(cfg, st.sv, i) ==>
      cfg.items[i].Apart(cfg.items[j])
    ensures Raw(cfg, MarshalIn(cfg, st, k), j) == Raw(cfg, st, j)
    decreases |cfg.items| - k
  {
    if k < |cfg.items| {
      OneKept(cfg, st, k, j);
      MemberKept(cfg, EncodeItem(cfg, st, k), k + 1, j);
    }
  }

  lemma OneKept(cfg: Config, st: State, k: nat, j: nat)
    requires cfg.Valid() && cfg.Fits() && st.Sized(cfg) && k < |cfg.items| && j < |cfg.items|
    requires cfg.items[k].msg == cfg.items[j].msg && Writes(cfg, st.sv, k) ==> cfg.items[k].Apart(cfg.items[j])
    ensures EncodeItem(cfg, st, k).Sized(cfg) && EncodeItem(cfg, st, k).sv == st.sv
    ensures Raw(cfg, EncodeItem(cfg, st, k), j) == Raw(cfg, st, j)
  {
    var it, jt := cfg.items[k], cfg.items[j];
    assert cfg.ItemFits(k);
    if it.msg == jt.msg && Writes(cfg, st.sv, k) {
      PeekPokeDisjoint(st.msgs[it.msg].buffer, it.At(), it.Width(), Encoded(cfg, st.sv, k), jt.At(), jt.Width());
    }
  }

  /** Where members do overlap, the last item in the list that is written prevails. */
  lemma {:induction false} LastPrevails(cfg: Config, st: State, k: nat, j: nat)
    requires cfg.Valid() && cfg.Fits() && st.Sized(cfg) && k <= j < |cfg.items| && Writes(cfg, st.sv, j)
    requires forall i :: j < i < |cfg.items| && cfg.items[i].msg == cfg.items[j].msg && Writes(cfg, st.sv, i) ==>
      cfg.items[i].Apart(cfg.items[j])
    ensures Raw(cfg, MarshalIn(cfg, st, k), j) == Encoded(cfg, st.sv, j)
    decreases |cfg.items| - k
  {
    var st1 := EncodeItem(cfg, st, k);
    assert st1.sv == st.sv && st1.Sized(cfg);
    if k == j {
      var it := cfg.items[j];
      assert cfg.ItemFits(j);
      PeekPoke(st.msgs[it.msg].buffer, it.At(), it.Width(), Encoded(cfg, st.sv, j));
      MemberKept(cfg, st1, k + 1, j);
    } else {
      LastPrevails(cfg, st1, k + 1, j);
    }
  }

  lemma {:induction false} SignalOut(cfg: Config, st: State, k: nat, j: nat)
    requires cfg.Valid() && st.Shape(cfg) && k <= |cfg.items| && j < |cfg.items|
    ensures SignalsOut(cfg, st, k).sv[j] ==
      if k <= j && st.msgs[cfg.items[j].msg].update && Readable(cfg, st, j) then Decoded(cfg, st, j) else st.sv[j]
    decreases |cfg.items| - k
  {
    if k < |cfg.items| {
      SignalOut(cfg, FlaggedOut(cfg, st, k, false), k + 1, j);
    }
  }

  /** The signal vector after the other direction: entry j is decoded from its member exactly if the
    * message is flagged and the value is in range. */
  lemma MarshalledValue(cfg: Config, st: State, k: nat, j: nat)
    requires cfg.Valid() && st.Shape(cfg) && k <= |cfg.items| && j < |cfg.items|
    ensures MarshalOut(cfg, st, k).sv[j] ==
      if k <= j && st.msgs[cfg.items[j].msg].update && Readable(cfg, st, j) then Decoded(cfg, st, j) else st.sv[j]
  {
    SignalOut(cfg, st, k, j);
  }

  /** All flagged messages, both ways: an in-range signal comes back as decode(encode(v)), an
    * out-of-range one as what its member held before. */
  lemma SignalRoundTrip(cfg: Config, st: State, j: nat)
    requires cfg.Valid() && cfg.Fits() && cfg.Disjoint() && st.Sized(cfg) && j < |cfg.items|
    requires st.msgs[cfg.items[j].msg].update
    ensures MarshalOut(cfg, MarshalIn(cfg, st, 0), 0).sv[j] ==
      if Writes(cfg, st.sv, j) then cfg.items[j].signal.codec.decode(Encoded(cfg, st.sv, j))
      else if Readable(cfg, st, j) then Decoded(cfg, st, j)
      else st.sv[j]
  {
    MarshalledRaw(cfg, st, 0, j);
    MarshalledValue(cfg, MarshalIn(cfg, st, 0), 0, j);
  }

  /** Marshalling leaves a message as it is if and only if each member that is written already holds the value. */
  lemma UnchangedIff(cfg: Config, st: State, m: nat)
    requires cfg.Valid() && cfg.Fits() && cfg.Disjoint() && st.Sized(cfg) && m < |cfg.defs|
    ensures MarshalIn(cfg, st, 0).msgs[m].buffer == st.msgs[m].buffer <==>
      forall j :: 0 <= j < |cfg.items| && cfg.items[j].msg == m ==> Holds(cfg, st, j)
  {
    if MarshalIn(cfg, st, 0).msgs[m].buffer == st.msgs[m].buffer {
      forall j | 0 <= j < |cfg.items| && cfg.items[j].msg == m
        ensures Holds(cfg, st, j)
      {
        MarshalledRaw(cfg, st, 0, j);
      }
    } else if forall j :: 0 <= j < |cfg.items| && cfg.items[j].msg == m ==> Holds(cfg, st, j) {
      Stable(cfg, st, 0, m);
    }
  }

  /** Is item k internal to a contained message? */
  predicate Constant(cfg: Config, k: nat)
    requires cfg.Valid() && k < |cfg.items|
  {
    cfg.items[k].signal.internal && cfg.defs[cfg.items[k].msg].contained
  }

  /** The value with which item k of a flagged message returns: its constant, what its member decodes to, or, if
    * that is out of range, what the signal vector held anyway. */
  function Back(cfg: Config, st: State, k: nat): real
    requires cfg.Valid() && st.Shape(cfg) && k < |cfg.items|
  {
    if Constant(cfg, k) then cfg.items[k].signal.value
    else if Readable(cfg, st, k) then Decoded(cfg, st, k)
    else st.sv[k]
  }

  /** The member of item k survives a trip through the signal vector: what returns is not written, or is what
    * the member holds. */
  predicate Survives(cfg: Config, st: State, k: nat)
    requires cfg.Valid() && st.Shape(cfg) && k < |cfg.items|
  {
    var signal := cfg.items[k].signal;
    var raw := Cast(signal.memberType, signal.codec.encode(Back(cfg, st, k)));
    !signal.memberType.Unknown? && signal.codec.inRange(raw) ==> Raw(cfg, st, k) == raw
  }

  /** After the way out, a member of a flagged message holds what returns exactly if it survives. */
  lemma SurvivesIsHolds(cfg: Config, st: State, k: nat)
    requires cfg.Valid() && st.Shape(cfg) && k < |cfg.items| && st.msgs[cfg.items[k].msg].update
    ensures Value(cfg, MarshalOut(cfg, st, 0).sv, k) == Back(cfg, st, k)
    ensures Holds(cfg, MarshalOut(cfg, st, 0), k) <==> Survives(cfg, st, k)
  {
    MarshalledValue(cfg, st, 0, k);
  }

  /** The other order: the buffer of a flagged message comes back as it was if and only if its members survive,
    * whatever the signal vector was. */
  lemma BufferRoundTrip(cfg: Config, st: State, m: nat)
    requires cfg.Valid() && cfg.Fits() && cfg.Disjoint() && st.Sized(cfg) && m < |cfg.defs| && st.msgs[m].update
    ensures MarshalIn(cfg, MarshalOut(cfg, st, 0), 0).msgs[m].buffer == st.msgs[m].buffer <==>
      forall j :: 0 <= j < |cfg.items| && cfg.items[j].msg == m ==> Survives(cfg, st, j)
  {
    var st1 := MarshalOut(cfg, st, 0);
    forall j | 0 <= j < |cfg.items| && cfg.items[j].msg == m
      ensures Holds(cfg, st1, j) <==> Survives(cfg, st, j)
    {
      SurvivesIsHolds(cfg, st, j);
    }
    UnchangedIff(cfg, st1, m);
  }

  /** Does encoding give back the bit pattern it was decoded from, through the buffer? */
  predicate RoundTrips(it: Item, raw: nat) {
    Cast(it.signal.memberType, it.signal.codec.encode(it.signal.codec.decode(raw))) == raw
  }

  /** A readable member whose bit pattern round-trips survives. */
  lemma RoundTripSurvives(cfg: Config, st: State, k: nat)
    requires cfg.Valid() && st.Shape(cfg) && k < |cfg.items| && !Constant(cfg, k)
    requires Readable(cfg, st, k) && RoundTrips(cfg.items[k], Raw(cfg, st, k))
    ensures Survives(cfg, st, k)
  {
  }

  /** The int64_t arm: what reaches the buffer is the encoded value exactly if it fits an int16_t. */
  lemma Int64Exact(raw: int)
    requires -0x8000_0000_0000_0000 <= raw < 0x8000_0000_0000_0000
    ensures Cast(I64, raw) == raw % Pow256(8) <==> -0x8000 <= raw < 0x8000
  {
  }

  /** The signed number with this bit pattern of the given width. */
  function Signed(raw: nat, width: nat): int {
    if raw < Pow256(width) / 2 then raw else raw - Pow256(width)
  }

  /** Every other arm stores the full width: each bit pattern of an unsigned or floating member as it is ... */
  lemma OtherArmsExact(ty: MemberType, raw: nat)
    requires !ty.I64? && raw < Pow256(ty.Width())
    ensures Cast(ty, raw) == raw
  {
    ModSmall(raw, Pow256(ty.Width()));
  }

  /** ... and each signed number of the width as the pattern that stands for it. */
  lemma SignedArmsExact(ty: MemberType, v: int)
    requires ty in {I8, I16, I32} && -(Pow256(ty.Width()) / 2) <= v < Pow256(ty.Width()) / 2
    ensures Signed(Cast(ty, v), ty.Width()) == v
  {
    Pow256Values();
  }

  lemma ModSmall(a: nat, b: nat)
    requires a < b
    ensures a % b == a
  {
  }

  /** A value the int64_t arm loses. */
  lemma Int64Loses()
    ensures Cast(I64, 70000) == 4464
  {
  }
}
