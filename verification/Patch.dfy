/** The signal patch (extra/tools/network/internal/pkg/patch/network.go). */
module Patch {
  import opened Bytes

  /** A network signal: its name, and annotations that the patch carries along. */
  datatype Signal<A> = Signal(name: string, annotations: A)

  /** The patch map of the csv records: an empty target stands for the source; later records win. */
  function PatchOf(records: seq<(string, string)>, n: nat): map<string, string>
    requires n <= |records|
  {
    if n == 0 then map[]
    else
      var (source, target) := records[n - 1];
      PatchOf(records, n - 1)[source := if target != "" then target else source]
  }

  /** A source is known if some record names it, and the last such record decides its target. */
  lemma {:induction false} LastRecordDecides(records: seq<(string, string)>, n: nat, i: nat)
    requires i < n <= |records| && forall k :: i < k < n ==> records[k].0 != records[i].0
    ensures records[i].0 in PatchOf(records, n)
    ensures PatchOf(records, n)[records[i].0] == if records[i].1 != "" then records[i].1 else records[i].0
  {
    if i < n - 1 {
      LastRecordDecides(records, n - 1, i);
    }
  }

  lemma {:induction false} UnknownSource(records: seq<(string, string)>, n: nat, source: string)
    requires n <= |records|
    ensures source in PatchOf(records, n) <==> exists i :: 0 <= i < n && records[i].0 == source
  {
    if n > 0 {
      UnknownSource(records, n - 1, source);
      assert records[n - 1].0 in PatchOf(records, n);
    }
  }

  method LoadPatch(records: seq<(string, string)>) returns (patch: map<string, string>)
    ensures patch == PatchOf(records, |records|)
  {
    patch := map[];
    for i := 0 to |records|
      invariant patch == PatchOf(records, i)
    {
      var record := records[i];
      if record.1 != "" {
        patch := patch[record.0 := record.1];
      } else {
        patch := patch[record.0 := record.0];
      }
    }
  }

  /** What becomes of one signal. */
  function PatchOne<A>(s: Signal<A>, patch: map<string, string>, removeUnknown: bool): Option<Signal<A>> {
    if s.name in patch then
      if patch[s.name] == "inactive" then None else Some(s.(name := patch[s.name]))
    else if removeUnknown then None
    else Some(s)
  }

  /** What one signal contributes to the patched list. */
  function Kept<A>(s: Signal<A>, patch: map<string, string>, removeUnknown: bool): (r: seq<Signal<A>>)
    ensures |r| <= 1
  {
    match PatchOne(s, patch, removeUnknown) case Some(t) => [t] case None => []
  }

  /** The patched list: filter and rename, in order. */
  function Patched<A>(ss: seq<Signal<A>>, patch: map<string, string>, removeUnknown: bool): (r: seq<Signal<A>>)
    ensures |r| <= |ss|
  {
    if ss == [] then []
    else Patched(ss[..|ss| - 1], patch, removeUnknown) + Kept(ss[|ss| - 1], patch, removeUnknown)
  }

  lemma PatchedNext<A>(ss: seq<Signal<A>>, r: nat, patch: map<string, string>, removeUnknown: bool)
    requires r < |ss|
    ensures Patched(ss[..r + 1], patch, removeUnknown) ==
      Patched(ss[..r], patch, removeUnknown) + Kept(ss[r], patch, removeUnknown)
  {
    assert ss[..r + 1][..r] == ss[..r];
  }

  /** One kept signal is written behind the others, over one that has been read. */
  method Keep<A>(signals: array<Signal<A>>, i: nat, s: Signal<A>, ghost done: seq<Signal<A>>, ghost before: seq<Signal<A>>)
    requires |done| == i < signals.Length == |before| && signals[..] == done + before[i..]
    modifies signals
    ensures signals[..] == done + [s] + before[i + 1..]
  {
    signals[i] := s;
  }

  /** The loop body for the signal at r, when those before it have left done in front. */
  method PatchAt<A>(signals: array<Signal<A>>, i: nat, r: nat, patch: map<string, string>, removeUnknown: bool,
                    ghost done: seq<Signal<A>>, ghost before: seq<Signal<A>>) returns (next: nat)
    requires |done| == i <= r < signals.Length == |before| && signals[..] == done + before[i..]
    modifies signals
    ensures next == i + |Kept(before[r], patch, removeUnknown)|
    ensures signals[..] == done + Kept(before[r], patch, removeUnknown) + before[next..]
  {
    assert signals[..][r] == before[r];
    var s := signals[r];
    if s.name in patch {
      var target := patch[s.name];
      if target != "inactive" {
        s := s.(name := target);
        Keep(signals, i, s, done, before);
        return i + 1;
      }
    } else {
      if !removeUnknown {
        Keep(signals, i, s, done, before);
        return i + 1;
      }
    }
    assert done + [] == done;
    return i;
  }

  /** The in-place loop: it reads the slice while it writes the kept signals over its front. No signal is overwritten
    * before it is read; behind the kept ones the slice is as it was. */
  method PatchSignals<A>(signals: array<Signal<A>>, patch: map<string, string>, removeUnknown: bool) returns (i: nat)
    modifies signals
    ensures i <= signals.Length && signals[..i] == Patched(old(signals[..]), patch, removeUnknown)
    ensures signals[i..] == old(signals[i..])
  {
    i := 0;
    ghost var before := signals[..];
    ghost var done: seq<Signal<A>> := [];
    for r := 0 to signals.Length
      invariant i <= r && |done| == i
      invariant done == Patched(before[..r], patch, removeUnknown)
      invariant signals[..] == done + before[i..]
    {
      PatchedNext(before, r, patch, removeUnknown);
      i := PatchAt(signals, i, r, patch, removeUnknown, done, before);
      done := done + Kept(before[r], patch, removeUnknown);
    }
    assert before[..signals.Length] == before;
  }

  /** Positions of the signals that stay. */
  function Staying<A>(ss: seq<Signal<A>>, patch: map<string, string>, removeUnknown: bool): (at: seq<nat>)
    ensures forall k :: 0 <= k < |at| ==> at[k] < |ss|
    ensures forall k, l :: 0 <= k < l < |at| ==> at[k] < at[l]
  {
    if ss == [] then []
    else
      var rest := Staying(ss[..|ss| - 1], patch, removeUnknown);
      if PatchOne(ss[|ss| - 1], patch, removeUnknown).Some? then rest + [|ss| - 1] else rest
  }

  /** r is s under the name that the patch gives it, or its own, with its annotations. */
  predicate Renamed<A(==)>(r: Signal<A>, s: Signal<A>, patch: map<string, string>) {
    r.name == (if s.name in patch then patch[s.name] else s.name) && r.annotations == s.annotations
  }

  /** r is made of the signals at the given positions, each renamed if the patch names it and with its annotations. */
  ghost predicate MadeOf<A>(r: seq<Signal<A>>, ss: seq<Signal<A>>, at: seq<nat>, patch: map<string, string>) {
    |r| == |at| && forall k :: 0 <= k < |at| ==> at[k] < |ss| && Renamed(r[k], ss[at[k]], patch)
  }

  lemma MadeOfMore<A>(r: seq<Signal<A>>, ss: seq<Signal<A>>, at: seq<nat>, patch: map<string, string>, s: Signal<A>)
    requires ss != [] && MadeOf(r, ss[..|ss| - 1], at, patch)
    ensures MadeOf(r, ss, at, patch)
    ensures Renamed(s, ss[|ss| - 1], patch) ==> MadeOf(r + [s], ss, at + [|ss| - 1], patch)
  {
    var rest := ss[..|ss| - 1];
    forall k | 0 <= k < |at|
      ensures at[k] < |ss| && Renamed(r[k], ss[at[k]], patch)
    {
      assert rest[at[k]] == ss[at[k]];
    }
  }

  /** The result is made of the signals that stay, in their old order ... */
  lemma {:induction false} PatchedIs<A>(ss: seq<Signal<A>>, patch: map<string, string>, removeUnknown: bool)
    ensures MadeOf(Patched(ss, patch, removeUnknown), ss, Staying(ss, patch, removeUnknown), patch)
  {
    if ss != [] {
      var rest := ss[..|ss| - 1];
      PatchedIs(rest, patch, removeUnknown);
      var r, at := Patched(rest, patch, removeUnknown), Staying(rest, patch, removeUnknown);
      match PatchOne(ss[|ss| - 1], patch, removeUnknown) {
        case Some(s) => MadeOfMore(r, ss, at, patch, s);
        case None => MadeOfMore(r, ss, at, patch, ss[0]);
      }
    }
  }

  /** ... and these are the ones that the patch names and does not call inactive, and the unknown ones, unless they are
    * removed. */
  lemma {:induction false} StayingIff<A>(ss: seq<Signal<A>>, patch: map<string, string>, removeUnknown: bool, i: nat)
    requires i < |ss|
    ensures i in Staying(ss, patch, removeUnknown) <==>
      if ss[i].name in patch then patch[ss[i].name] != "inactive" else !removeUnknown
  {
    var rest := ss[..|ss| - 1];
    StayingBound(rest, patch, removeUnknown);
    if i < |ss| - 1 {
      StayingIff(rest, patch, removeUnknown, i);
    }
  }

  lemma StayingBound<A>(ss: seq<Signal<A>>, patch: map<string, string>, removeUnknown: bool)
    ensures forall i :: i in Staying(ss, patch, removeUnknown) ==> i < |ss|
  {
  }

  /** In terms of the records, of which i is the last with the name of the signal at position at[k]: the signal is called by
    * its target, or keeps its name if the target is empty; it stays exactly if that is not "inactive". */
  lemma PatchedByRecord<A>(ss: seq<Signal<A>>, records: seq<(string, string)>, removeUnknown: bool, j: nat, i: nat)
    requires j < |ss| && i < |records| && records[i].0 == ss[j].name
    requires forall k :: i < k < |records| ==> records[k].0 != ss[j].name
    ensures var r, at := Patched(ss, PatchOf(records, |records|), removeUnknown),
        Staying(ss, PatchOf(records, |records|), removeUnknown);
      var target := if records[i].1 != "" then records[i].1 else ss[j].name;
      && |r| == |at|
      && (j in at <==> target != "inactive")
      && forall k :: 0 <= k < |at| && at[k] == j ==> r[k] == Signal(target, ss[j].annotations)
  {
    var patch := PatchOf(records, |records|);
    LastRecordDecides(records, |records|, i);
    PatchedIs(ss, patch, removeUnknown);
    StayingIff(ss, patch, removeUnknown, j);
  }

  /** A signal that no record names stays as it is, unless unknown signals are removed. */
  lemma PatchedUnknown<A>(ss: seq<Signal<A>>, records: seq<(string, string)>, removeUnknown: bool, j: nat)
    requires j < |ss| && forall k :: 0 <= k < |records| ==> records[k].0 != ss[j].name
    ensures var r, at := Patched(ss, PatchOf(records, |records|), removeUnknown),
        Staying(ss, PatchOf(records, |records|), removeUnknown);
      && |r| == |at|
      && (j in at <==> !removeUnknown)
      && forall k :: 0 <= k < |at| && at[k] == j ==> r[k] == ss[j]
  {
    var patch := PatchOf(records, |records|);
    UnknownSource(records, |records|, ss[j].name);
    PatchedIs(ss, patch, removeUnknown);
    StayingIff(ss, patch, removeUnknown, j);
  }

  /** Without removal, an empty patch changes nothing. */
  lemma {:induction false} EmptyPatch<A>(ss: seq<Signal<A>>)
    ensures Patched(ss, map[], false) == ss
  {
    if ss != [] {
      EmptyPatch(ss[..|ss| - 1]);
    }
  }
}
