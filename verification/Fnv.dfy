/** The checksum of the change detection (dse/network/encoder.c): 32-bit FNV-1a. */
module Fnv {
  import opened Arithmetic
  import opened Bytes

  const OFFSET: uint32 := 2166136261
  const PRIME := 16777619
  const INVERSE := 899433627 // of PRIME, modulo 2^32

  /** Bitwise exclusive or. */
  function Xor(a: nat, b: nat): nat {
    if a == 0 && b == 0 then 0
    else (if a % 2 == b % 2 then 0 else 1) + 2 * Xor(a / 2, b / 2)
  }

  lemma {:induction false} XorBound(a: nat, b: nat, n: nat)
    requires a < Pow2(n) && b < Pow2(n)
    ensures Xor(a, b) < Pow2(n)
  {
    if n > 0 {
      XorBound(a / 2, b / 2, n - 1);
    }
  }

  lemma Pow2Of32()
    ensures Pow2(32) == WORD32
  {
    assert Pow2(8) == 256;
    assert Pow2(16) == 0x1_0000;
    assert Pow2(24) == 0x100_0000;
  }

  lemma {:induction false} XorXor(a: nat, b: nat)
    ensures Xor(Xor(a, b), b) == a
  {
    if a != 0 || b != 0 {
      XorXor(a / 2, b / 2);
    }
  }

  lemma {:induction false} XorCommutes(a: nat, b: nat)
    ensures Xor(a, b) == Xor(b, a)
  {
    if a != 0 || b != 0 {
      XorCommutes(a / 2, b / 2);
    }
  }

  /** One byte of the hash loop. */
  function Round(h: uint32, b: byte): uint32 {
    Xor(h, b) * PRIME % WORD32
  }

  /** The hash loop, started from the state h. */
  function HashFrom(h: uint32, s: seq<byte>): uint32
    decreases |s|
  {
    if s == [] then h else HashFrom(Round(h, s[0]), s[1..])
  }

  function Hash(s: seq<byte>): uint32 {
    HashFrom(OFFSET, s)
  }

  method UidHash(key: array<byte>) returns (h: uint32)
    ensures h == Hash(key[..])
  {
    h := OFFSET;
    var i := 0;
    while i < key.Length
      invariant 0 <= i <= key.Length
      invariant HashFrom(h, key[i..]) == Hash(key[..])
    {
      assert key[i..][1..] == key[i + 1..];
      h := Round(h, key[i]);
      i := i + 1;
    }
  }

  /** Multiplication by the FNV prime is undone by multiplication with its inverse. */
  lemma PrimeInverse(x: uint32)
    ensures x * PRIME % WORD32 * INVERSE % WORD32 == x
  {
    var q := x * PRIME / WORD32;
    assert x * PRIME % WORD32 * INVERSE == x + WORD32 * (3513497 * x - q * INVERSE);
  }

  /** Each round is a bijection of the state, and tells any two bytes apart. */
  lemma RoundInjective(h: uint32, g: uint32, b: byte, c: byte)
    requires Round(h, b) == Round(g, c)
    ensures b == c ==> h == g
    ensures h == g ==> b == c
  {
    XorBound32(h, b);
    XorBound32(g, c);
    PrimeInverse(Xor(h, b));
    PrimeInverse(Xor(g, c));
    XorXor(h, b);
    XorXor(g, c);
    XorCommutes(h, b);
    XorCommutes(g, c);
    XorXor(b, h);
    XorXor(c, g);
  }

  lemma XorBound32(h: uint32, b: byte)
    ensures Xor(h, b) < WORD32
  {
    Pow2Of32();
    XorBound(h, b, 32);
  }

  /** Different states stay different over equal bytes. */
  lemma {:induction false} HashFromInjective(h: uint32, g: uint32, s: seq<byte>)
    requires HashFrom(h, s) == HashFrom(g, s)
    ensures h == g
    decreases |s|
  {
    if s != [] {
      HashFromInjective(Round(h, s[0]), Round(g, s[0]), s[1..]);
      RoundInjective(h, g, s[0], s[0]);
    }
  }

  lemma {:induction false} HashFromConcat(h: uint32, s: seq<byte>, t: seq<byte>)
    ensures HashFrom(h, s + t) == HashFrom(HashFrom(h, s), t)
    decreases |s|
  {
    if s == [] {
      assert s + t == t;
    } else {
      assert (s + t)[1..] == s[1..] + t;
      HashFromConcat(Round(h, s[0]), s[1..], t);
    }
  }

  /** A change of exactly one byte, anywhere in a buffer of any length, always changes the hash. */
  lemma OneByteChangeDetected(s: seq<byte>, i: nat, b: byte)
    requires i < |s| && s[i] != b
    ensures Hash(s[i := b]) != Hash(s)
  {
    var t := s[i := b];
    var h := HashFrom(OFFSET, s[..i]);
    var rest := s[i + 1..];
    assert s == s[..i] + ([s[i]] + rest);
    assert t == s[..i] + ([b] + rest);
    HashFromConcat(OFFSET, s[..i], [s[i]] + rest);
    HashFromConcat(OFFSET, s[..i], [b] + rest);
    assert ([s[i]] + rest)[1..] == rest && ([b] + rest)[1..] == rest;
    if Hash(t) == Hash(s) {
      HashFromInjective(Round(h, b), Round(h, s[i]), rest);
      RoundInjective(h, h, b, s[i]);
    }
  }

  /** Hence two buffers of equal length and equal hash are equal, or differ in at least two places. */
  lemma CollisionsDifferTwice(s: seq<byte>, t: seq<byte>, i: nat)
    requires |s| == |t| && Hash(s) == Hash(t)
    requires i < |s| && s[i] != t[i]
    ensures exists j :: 0 <= j < |s| && j != i && s[j] != t[j]
  {
    if forall j :: 0 <= j < |s| && j != i ==> s[j] == t[j] {
      assert t == s[i := t[i]];
      OneByteChangeDetected(s, i, t[i]);
    }
  }
}
