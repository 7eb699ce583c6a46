/** Struct layout in the network generator (extra/tools/network/internal/app/generate/network.go). */
module Layout {
  import opened Arithmetic
  import opened Bytes
  import opened Net

  /** What the signal name, in lower case, is compared with: header_id, header_dlc, or neither. */
  datatype Role = HeaderId | HeaderDlc | Plain

  /** A struct member: its name, the signal name derived from it, its primitive type. */
  datatype Member = Member(name: string, signal: string, role: Role, typeName: string)

  /** A generated signal with its annotations. */
  datatype Placed = Placed(member: Member, offset: nat, mux: bool, constant: Option<int>)

  datatype Generated = Generated(signals: seq<Placed>, structSize: nat)

  datatype Result<+T> = Ok(value: T) | UnknownType(typeName: string)

  const TYPE_SIZES: map<string, nat> := map[
    "float" := 4, "double" := 8, "int" := 4, "char" := 1, "short" := 2, "unsigned int" := 4, "long" := 4,
    "uint8_t" := 1, "uint16_t" := 2, "uint32_t" := 4, "uint64_t" := 8,
    "int8_t" := 1, "int16_t" := 2, "int32_t" := 4, "int64_t" := 8
  ]

  /** getTypeSize. */
  function TypeSize(t: string): (r: Result<nat>)
    ensures r.Ok? ==> r.value in {1, 2, 4, 8}
  {
    if t in TYPE_SIZES then Ok(TYPE_SIZES[t]) else UnknownType(t)
  }

  /** The sizes of the C types besides those that carry their width in their name. */
  lemma NamedSizes()
    ensures TypeSize("char") == Ok(1) && TypeSize("short") == Ok(2) && TypeSize("int") == Ok(4)
    ensures TypeSize("unsigned int") == Ok(4) && TypeSize("long") == Ok(4)
    ensures TypeSize("float") == Ok(4) && TypeSize("double") == Ok(8)
  {
  }

  /** The offset moved up to a multiple of size. */
  function AlignUp(offset: nat, size: nat): nat
    requires size in {1, 2, 4, 8}
  {
    if size == 1 then offset
    else if size == 2 then (offset + 1) / 2 * 2
    else if size == 4 then (offset + 3) / 4 * 4
    else (offset + 7) / 8 * 8
  }

  method AlignOffset(offset: nat, size: nat) returns (r: nat)
    requires size in {1, 2, 4, 8}
    ensures r == AlignUp(offset, size)
  {
    r := offset;
    if offset % size != 0 {
      r := offset / size * size + size;
    }
    AlignUpIsRoundUp(offset, size);
  }

  lemma AlignUpIsRoundUp(offset: nat, size: nat)
    requires size in {1, 2, 4, 8}
    ensures AlignUp(offset, size) == if offset % size != 0 then offset / size * size + size else offset
  {
    RoundUp(offset, size);
    if size == 1 {
    } else if size == 2 {
    } else if size == 4 {
    } else {
    }
  }

  lemma AlignUpIsLeast(offset: nat, size: nat, x: nat)
    requires size in {1, 2, 4, 8}
    ensures AlignUp(offset, size) >= offset && AlignUp(offset, size) % size == 0
    ensures x >= offset && x % size == 0 ==> AlignUp(offset, size) <= x
  {
    if size == 1 {
    } else if size == 2 {
      LeastMultiple(offset, 2, x);
    } else if size == 4 {
      LeastMultiple(offset, 4, x);
    } else {
      LeastMultiple(offset, 8, x);
    }
  }

  /** The first unknown type, if any. */
  function Unknown(members: seq<Member>, i: nat): (r: Option<string>)
    requires i <= |members|
    decreases |members| - i
  {
    if i == |members| then None
    else if TypeSize(members[i].typeName).Ok? then Unknown(members, i + 1)
    else Some(members[i].typeName)
  }

  lemma {:induction false} UnknownIff(members: seq<Member>, i: nat)
    requires i <= |members|
    ensures Unknown(members, i).None? <==> forall j :: i <= j < |members| ==> TypeSize(members[j].typeName).Ok?
    decreases |members| - i
  {
    if i < |members| {
      UnknownIff(members, i + 1);
    }
  }

  function SizeOf(m: Member): (n: nat)
    ensures n in {1, 2, 4, 8}
  {
    match TypeSize(m.typeName) case Ok(n) => n case UnknownType(_) => 1
  }

  /** Where the first n members end. */
  function End(members: seq<Member>, n: nat): nat
    requires n <= |members|
  {
    if n == 0 then 0 else Offset(members, n - 1) + SizeOf(members[n - 1])
  }

  /** Where member i starts. */
  function Offset(members: seq<Member>, i: nat): nat
    requires i < |members|
    decreases i, 0
  {
    AlignUp(if i == 0 then 0 else Offset(members, i - 1) + SizeOf(members[i - 1]), SizeOf(members[i]))
  }

  // ---- The loop of Run ----

  /** Of a container, Run keeps the header only. */
  predicate KeptByRun(m: Member, isContainer: bool) {
    isContainer ==> !m.role.Plain?
  }

  /** What Run emits for member i; the header id of a container is its mux signal. */
  function Emit(members: seq<Member>, i: nat, isContainer: bool): seq<Placed>
    requires i < |members|
  {
    var m := members[i];
    if KeptByRun(m, isContainer) then [Placed(m, Offset(members, i), isContainer && m.role.HeaderId?, None)] else []
  }

  function EmitAll(members: seq<Member>, n: nat, isContainer: bool): seq<Placed>
    requires n <= |members|
  {
    if n == 0 then [] else EmitAll(members, n - 1, isContainer) + Emit(members, n - 1, isContainer)
  }

  method GenerateStruct(members: seq<Member>, isContainer: bool) returns (r: Result<Generated>)
    ensures r == match Unknown(members, 0)
      case Some(t) => UnknownType(t)
      case None => Ok(Generated(EmitAll(members, |members|, isContainer), AlignUp(End(members, |members|), 8)))
  {
    var signals: seq<Placed> := [];
    var offset := 0;
    for i := 0 to |members|
      invariant Unknown(members, i) == Unknown(members, 0)
      invariant offset == End(members, i) && signals == EmitAll(members, i, isContainer)
    {
      var s := members[i];
      var size := TypeSize(s.typeName);
      if size.UnknownType? {
        return UnknownType(s.typeName);
      }
      offset := AlignOffset(offset, size.value);
      assert offset == Offset(members, i);
      if isContainer {
        if !s.role.Plain? {
          signals := signals + [Placed(s, offset, s.role.HeaderId?, None)];
        }
      } else {
        signals := signals + [Placed(s, offset, false, None)];
      }
      offset := offset + size.value;
    }
    offset := AlignOffset(offset, 8);
    return Ok(Generated(signals, offset));
  }

  // ---- The loop of processContainer ----

  /** A contained message keeps the header and its own signals. */
  predicate Kept(m: Member, signals: seq<string>) {
    !m.role.Plain? || m.signal in signals
  }

  /** What is emitted for member i in a contained message, the header as constants. */
  function EmitContained(members: seq<Member>, i: nat, signals: seq<string>, muxId: int, length: int): seq<Placed>
    requires i < |members|
  {
    var m := members[i];
    if Kept(m, signals) then
      [Placed(m, Offset(members, i), false,
              if m.role.HeaderDlc? then Some(length) else if m.role.HeaderId? then Some(muxId) else None)]
    else []
  }

  function EmitAllContained(members: seq<Member>, n: nat, signals: seq<string>, muxId: int, length: int): seq<Placed>
    requires n <= |members|
  {
    if n == 0 then []
    else EmitAllContained(members, n - 1, signals, muxId, length) + EmitContained(members, n - 1, signals, muxId, length)
  }

  method GenerateContained(members: seq<Member>, muxSignals: seq<string>, muxId: int, length: int)
    returns (r: Result<Generated>)
    ensures r == match Unknown(members, 0)
      case Some(t) => UnknownType(t)
      case None => Ok(Generated(EmitAllContained(members, |members|, muxSignals, muxId, length),
                                AlignUp(End(members, |members|), 8)))
  {
    var signals: seq<Placed> := [];
    var offset := 0;
    for i := 0 to |members|
      invariant Unknown(members, i) == Unknown(members, 0)
      invariant offset == End(members, i)
      invariant signals == EmitAllContained(members, i, muxSignals, muxId, length)
    {
      var s := members[i];
      var size := TypeSize(s.typeName);
      if size.UnknownType? {
        return UnknownType(s.typeName);
      }
      offset := AlignOffset(offset, size.value);
      assert offset == Offset(members, i);
      if !s.role.Plain? || s.signal in muxSignals {
        var constant := None;
        if s.role.HeaderId? {
          constant := Some(muxId);
        }
        if s.role.HeaderDlc? {
          constant := Some(length);
        }
        assert EmitContained(members, i, muxSignals, muxId, length) == [Placed(s, offset, false, constant)];
        signals := signals + [Placed(s, offset, false, constant)];
      } else {
        assert EmitContained(members, i, muxSignals, muxId, length) == [];
      }
      offset := offset + size.value;
    }
    offset := AlignOffset(offset, 8);
    return Ok(Generated(signals, offset));
  }

  // ---- Properties of the layout ----

  /** Each member starts at the least multiple of its size at or after the end of the one before. */
  lemma OffsetIsLeast(members: seq<Member>, i: nat, x: nat)
    requires i < |members|
    ensures Offset(members, i) >= End(members, i) && Offset(members, i) % SizeOf(members[i]) == 0
    ensures x >= End(members, i) && x % SizeOf(members[i]) == 0 ==> Offset(members, i) <= x
  {
    AlignUpIsLeast(End(members, i), SizeOf(members[i]), x);
  }

  /** Members follow each other without overlap. */
  lemma {:induction false} NoOverlap(members: seq<Member>, i: nat, j: nat)
    requires i < j < |members|
    ensures Offset(members, i) + SizeOf(members[i]) <= Offset(members, j)
    decreases j
  {
    OffsetIsLeast(members, j, 0);
    if i < j - 1 {
      NoOverlap(members, i, j - 1);
    }
  }

  /** The struct size is the least multiple of 8 that covers every member. */
  lemma StructSize(members: seq<Member>, i: nat, x: nat)
    requires i < |members|
    ensures var size := AlignUp(End(members, |members|), 8);
      && size % 8 == 0 && Offset(members, i) + SizeOf(members[i]) <= size
      && (x % 8 == 0 && x >= Offset(members, |members| - 1) + SizeOf(members[|members| - 1]) ==> size <= x)
  {
    AlignUpIsLeast(End(members, |members|), 8, x);
    if i < |members| - 1 {
      NoOverlap(members, i, |members| - 1);
    }
  }

  /** The signals come from the members at the given positions, in order. */
  ghost predicate FromMembers(members: seq<Member>, signals: seq<Placed>, at: seq<nat>) {
    && |at| == |signals|
    && (forall k :: 0 <= k < |at| ==>
      at[k] < |members| && signals[k].member == members[at[k]] && signals[k].offset == Offset(members, at[k]))
    && (forall k, l :: 0 <= k < l < |at| ==> at[k] < at[l])
  }

  /** Member i emits nothing, or one signal that follows the others. */
  lemma EmittedNext(members: seq<Member>, before: seq<Placed>, at: seq<nat>, i: nat, e: seq<Placed>)
    requires FromMembers(members, before, at) && i < |members| && forall k :: 0 <= k < |at| ==> at[k] < i
    requires |e| == 1 ==> e[0].member == members[i] && e[0].offset == Offset(members, i)
    ensures e == [] ==> FromMembers(members, before + e, at)
    ensures |e| == 1 ==> FromMembers(members, before + e, at + [i])
  {
    if |e| == 1 {
      var at1, all := at + [i], before + e;
      forall k | 0 <= k < |at1|
        ensures at1[k] < |members| && all[k].member == members[at1[k]] && all[k].offset == Offset(members, at1[k])
      {
        assert k < |at| ==> all[k] == before[k] && at1[k] == at[k];
      }
    } else {
      assert before + [] == before;
    }
  }

  /** The members that Run keeps, among the first n. */
  function RunKeeps(members: seq<Member>, n: nat, isContainer: bool): (at: seq<nat>)
    requires n <= |members|
    ensures forall k :: 0 <= k < |at| ==> at[k] < n
  {
    if n == 0 then []
    else if KeptByRun(members[n - 1], isContainer) then RunKeeps(members, n - 1, isContainer) + [n - 1]
    else RunKeeps(members, n - 1, isContainer)
  }

  lemma {:induction false} RunKeepsExactly(members: seq<Member>, n: nat, isContainer: bool, i: nat)
    requires n <= |members| && i < |members|
    ensures i in RunKeeps(members, n, isContainer) <==> i < n && (isContainer ==> !members[i].role.Plain?)
  {
    if n > 0 {
      RunKeepsExactly(members, n - 1, isContainer, i);
    }
  }

  /** Run keeps the offsets of the full layout; of an ordinary struct it keeps every member. */
  lemma {:induction false} EmittedOffsets(members: seq<Member>, n: nat, isContainer: bool)
    requires n <= |members|
    ensures FromMembers(members, EmitAll(members, n, isContainer), RunKeeps(members, n, isContainer))
  {
    if n > 0 {
      EmittedOffsets(members, n - 1, isContainer);
      var before, e := EmitAll(members, n - 1, isContainer), Emit(members, n - 1, isContainer);
      EmittedNext(members, before, RunKeeps(members, n - 1, isContainer), n - 1, e);
    }
  }

  /** The members that a contained message keeps, among the first n. */
  function ContainedKeeps(members: seq<Member>, n: nat, signals: seq<string>): (at: seq<nat>)
    requires n <= |members|
    ensures forall k :: 0 <= k < |at| ==> at[k] < n
  {
    if n == 0 then []
    else if Kept(members[n - 1], signals) then ContainedKeeps(members, n - 1, signals) + [n - 1]
    else ContainedKeeps(members, n - 1, signals)
  }

  lemma {:induction false} ContainedKeepsExactly(members: seq<Member>, n: nat, signals: seq<string>, i: nat)
    requires n <= |members| && i < |members|
    ensures i in ContainedKeeps(members, n, signals) <==> i < n && (!members[i].role.Plain? || members[i].signal in signals)
  {
    if n > 0 {
      ContainedKeepsExactly(members, n - 1, signals, i);
    }
  }

  /** So does processContainer, whatever it filters out: every member that a contained message keeps has the same
    * offset there as in the container. */
  lemma {:induction false} ContainedOffsets(members: seq<Member>, n: nat, signals: seq<string>, muxId: int, length: int)
    requires n <= |members|
    ensures FromMembers(members, EmitAllContained(members, n, signals, muxId, length), ContainedKeeps(members, n, signals))
  {
    if n > 0 {
      ContainedOffsets(members, n - 1, signals, muxId, length);
      EmittedNext(members, EmitAllContained(members, n - 1, signals, muxId, length),
                  ContainedKeeps(members, n - 1, signals), n - 1,
                  EmitContained(members, n - 1, signals, muxId, length));
    }
  }

  // ---- The header of a container ----

  /** In a container the header id, and no other signal, is the mux signal; nothing is constant. */
  lemma {:induction false} MuxIsHeaderId(members: seq<Member>, n: nat, isContainer: bool, k: nat)
    requires n <= |members| && k < |EmitAll(members, n, isContainer)|
    ensures var s := EmitAll(members, n, isContainer)[k];
      (s.mux <==> isContainer && s.member.role == HeaderId) && s.constant == None
  {
    if n > 0 && k < |EmitAll(members, n - 1, isContainer)| {
      MuxIsHeaderId(members, n - 1, isContainer, k);
    }
  }

  /** In a contained message the header id is the constant mux id, the header dlc the constant frame length, and no other
    * signal is constant; there is no mux signal. */
  lemma {:induction false} HeaderIsConstant(
    members: seq<Member>, n: nat, signals: seq<string>, muxId: int, length: int, k: nat)
    requires n <= |members| && k < |EmitAllContained(members, n, signals, muxId, length)|
    ensures var s := EmitAllContained(members, n, signals, muxId, length)[k];
      && s.constant == (match s.member.role
                        case HeaderId => Some(muxId)
                        case HeaderDlc => Some(length)
                        case Plain => None)
      && !s.mux
  {
    if n > 0 && k < |EmitAllContained(members, n - 1, signals, muxId, length)| {
      HeaderIsConstant(members, n - 1, signals, muxId, length, k);
    }
  }

  // ---- What the marshaller relies on ----

  /** The member types that the marshal loops know. */
  function ParseType(t: string): MemberType {
    if t == "uint8_t" then U8 else if t == "uint16_t" then U16
    else if t == "uint32_t" then U32 else if t == "uint64_t" then U64
    else if t == "int8_t" then I8 else if t == "int16_t" then I16
    else if t == "int32_t" then I32 else if t == "int64_t" then I64
    else if t == "float" then F32 else if t == "double" then F64
    else MemberType.Unknown
  }

  /** Each of these names stands for its own type, and no other name for any. */
  lemma ParseTypeIs(t: string)
    ensures (ParseType(t) == U8 <==> t == "uint8_t") && (ParseType(t) == I8 <==> t == "int8_t")
    ensures (ParseType(t) == U16 <==> t == "uint16_t") && (ParseType(t) == I16 <==> t == "int16_t")
    ensures (ParseType(t) == U32 <==> t == "uint32_t") && (ParseType(t) == I32 <==> t == "int32_t")
    ensures (ParseType(t) == U64 <==> t == "uint64_t") && (ParseType(t) == I64 <==> t == "int64_t")
    ensures (ParseType(t) == F32 <==> t == "float") && (ParseType(t) == F64 <==> t == "double")
  {
  }

  lemma WidthIsSize(m: Member)
    ensures ParseType(m.typeName).Width() <= SizeOf(m)
    ensures !ParseType(m.typeName).Unknown? ==> TypeSize(m.typeName).Ok? && ParseType(m.typeName).Width() == SizeOf(m)
  {
  }

  /** The bytes that the marshaller accesses for a signal. */
  function Access(s: Placed): (r: (nat, nat)) {
    var ty := ParseType(s.member.typeName);
    (ty.Element(s.offset), ty.Width())
  }

  lemma AccessInMember(members: seq<Member>, i: nat, s: Placed)
    requires i < |members| && s.member == members[i] && s.offset == Offset(members, i)
    ensures Access(s).0 == s.offset && Access(s).0 + Access(s).1 <= s.offset + SizeOf(members[i])
  {
    OffsetIsLeast(members, i, 0);
    WidthIsSize(members[i]);
  }

  /** For any generated signal list: the marshaller accesses each member exactly at its offset, inside the struct, and
    * disjoint from all others. */
  lemma AccessesDisjoint(members: seq<Member>, signals: seq<Placed>, at: seq<nat>, k: nat, l: nat)
    requires FromMembers(members, signals, at) && k < |signals| && l < |signals|
    ensures Access(signals[k]).0 == signals[k].offset
    ensures Access(signals[k]).0 + Access(signals[k]).1 <= AlignUp(End(members, |members|), 8)
    ensures k < l ==> Access(signals[k]).0 + Access(signals[k]).1 <= Access(signals[l]).0
  {
    AccessInMember(members, at[k], signals[k]);
    AccessInMember(members, at[l], signals[l]);
    StructSize(members, at[k], 0);
    if k < l {
      NoOverlap(members, at[k], at[l]);
    }
  }
}
