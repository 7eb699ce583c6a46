/** Bytes, machine words, and the little-endian storage of struct members. */
module Bytes {

  type byte = x: int | 0 <= x < 256

  const WORD32 := 0x1_0000_0000

  type uint32 = x: int | 0 <= x < WORD32

  datatype Option<+T> = None | Some(value: T)

  /** 256 to the power width: the number of values a width-byte member can hold. */
  function Pow256(width: nat): (p: nat)
    ensures p >= 1
  {
    if width == 0 then 1 else 256 * Pow256(width - 1)
  }

  lemma Pow256Values()
    ensures Pow256(1) == 0x100 && Pow256(2) == 0x1_0000 && Pow256(4) == WORD32
    ensures Pow256(8) == 0x1_0000_0000_0000_0000
  {
  }

  /** The width bytes of raw, least significant first. */
  function LeBytes(raw: nat, width: nat): (s: seq<byte>)
    ensures |s| == width
  {
    if width == 0 then [] else [raw % 256] + LeBytes(raw / 256, width - 1)
  }

  /** The number that s holds, least significant byte first. */
  function LeValue(s: seq<byte>): (v: nat)
    ensures v < Pow256(|s|)
  {
    if s == [] then 0 else s[0] + 256 * LeValue(s[1..])
  }

  lemma {:induction false} LeBytesThenValue(raw: nat, width: nat)
    requires raw < Pow256(width)
    ensures LeValue(LeBytes(raw, width)) == raw
  {
    if width > 0 {
      assert LeBytes(raw, width)[1..] == LeBytes(raw / 256, width - 1);
      LeBytesThenValue(raw / 256, width - 1);
    }
  }

  /** The bytes further on count for more. */
  lemma {:induction false} LeValueConcat(s: seq<byte>, t: seq<byte>)
    ensures LeValue(s + t) == LeValue(s) + Pow256(|s|) * LeValue(t)
  {
    if s == [] {
      assert s + t == t;
    } else {
      assert (s + t)[1..] == s[1..] + t;
      LeValueConcat(s[1..], t);
      TimesSum(s[0], LeValue(s[1..]), Pow256(|s| - 1), LeValue(t));
    }
  }

  lemma TimesSum(a: nat, b: nat, p: nat, c: nat)
    ensures a + 256 * (b + p * c) == a + 256 * b + 256 * p * c
  {
  }

  lemma LowestByte(low: byte, rest: nat)
    ensures (low + 256 * rest) % 256 == low && (low + 256 * rest) / 256 == rest
  {
  }

  lemma {:induction false} LeValueThenBytes(s: seq<byte>)
    ensures LeBytes(LeValue(s), |s|) == s
  {
    if s != [] {
      LowestByte(s[0], LeValue(s[1..]));
      LeValueThenBytes(s[1..]);
    }
  }

  /** buffer with the bytes of s stored from at on; nothing where s does not fit. */
  function Put(buffer: seq<byte>, at: nat, s: seq<byte>): (r: seq<byte>)
    ensures |r| == |buffer|
  {
    if at + |s| <= |buffer| then buffer[..at] + s + buffer[at + |s|..] else buffer
  }

  /** The width-byte member stored at at; 0 where it does not fit. */
  function Peek(buffer: seq<byte>, at: nat, width: nat): (raw: nat)
    ensures raw < Pow256(width)
  {
    if at + width <= |buffer| then LeValue(buffer[at..at + width]) else 0
  }

  function Poke(buffer: seq<byte>, at: nat, width: nat, raw: nat): (r: seq<byte>)
    ensures |r| == |buffer|
  {
    Put(buffer, at, LeBytes(raw, width))
  }

  lemma PutAt(buffer: seq<byte>, at: nat, s: seq<byte>, k: nat)
    requires at + |s| <= |buffer| && k < |buffer|
    ensures Put(buffer, at, s)[k] == if at <= k < at + |s| then s[k - at] else buffer[k]
  {
  }

  /** What was put is there ... */
  lemma PutThere(buffer: seq<byte>, at: nat, s: seq<byte>)
    requires at + |s| <= |buffer|
    ensures Put(buffer, at, s)[at..at + |s|] == s
  {
    var r := Put(buffer, at, s);
    forall k | at <= k < at + |s|
      ensures r[k] == s[k - at]
    {
      PutAt(buffer, at, s, k);
    }
  }

  /** ... and elsewhere is what was. */
  lemma PutElsewhere(buffer: seq<byte>, at: nat, s: seq<byte>, lo: nat, hi: nat)
    requires lo <= hi <= |buffer| && (hi <= at || at + |s| <= lo)
    ensures Put(buffer, at, s)[lo..hi] == buffer[lo..hi]
  {
    var r := Put(buffer, at, s);
    if at + |s| <= |buffer| {
      forall k | lo <= k < hi
        ensures r[k] == buffer[k]
      {
        PutAt(buffer, at, s, k);
      }
    }
  }

  /** Putting what is there changes nothing. */
  lemma PutSame(buffer: seq<byte>, at: nat, s: seq<byte>)
    requires at + |s| <= |buffer| && s == buffer[at..at + |s|]
    ensures Put(buffer, at, s) == buffer
  {
    var r := Put(buffer, at, s);
    forall k | 0 <= k < |buffer|
      ensures r[k] == buffer[k]
    {
      PutAt(buffer, at, s, k);
    }
  }

  lemma PeekPoke(buffer: seq<byte>, at: nat, width: nat, raw: nat)
    requires at + width <= |buffer| && raw < Pow256(width)
    ensures Peek(Poke(buffer, at, width, raw), at, width) == raw
  {
    LeBytesThenValue(raw, width);
    PutThere(buffer, at, LeBytes(raw, width));
  }

  /** Storing what is already there changes nothing. */
  lemma PokePeek(buffer: seq<byte>, at: nat, width: nat)
    ensures Poke(buffer, at, width, Peek(buffer, at, width)) == buffer
  {
    if at + width <= |buffer| {
      var s := buffer[at..at + width];
      LeValueThenBytes(s);
      PutSame(buffer, at, s);
    }
  }

  /** Two members that do not overlap are independent. */
  lemma PeekPokeDisjoint(buffer: seq<byte>, at: nat, width: nat, raw: nat, at2: nat, width2: nat)
    requires at + width <= at2 || at2 + width2 <= at
    ensures Peek(Poke(buffer, at, width, raw), at2, width2) == Peek(buffer, at2, width2)
  {
    if at2 + width2 <= |buffer| {
      PutElsewhere(buffer, at, LeBytes(raw, width), at2, at2 + width2);
    }
  }
}
