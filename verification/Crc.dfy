/** Checksum and counter functions on payloads (dse/network/examples/stub/functions/crc.c, counters.c). */
module Crc {
  import opened Bytes
  import opened Net

  /** The plain sum of the first n bytes, without the one at position. */
  function SumExcept(p: seq<byte>, position: nat, n: nat): nat
    requires n <= |p|
  {
    if n == 0 then 0
    else SumExcept(p, position, n - 1) + if n - 1 == position then 0 else p[n - 1]
  }

  /** The byte at position is the sum of all others, modulo 256. */
  predicate Validates(p: seq<byte>, position: nat)
    requires position < |p|
  {
    p[position] == SumExcept(p, position, |p|) % 256
  }

  function Generated(p: seq<byte>, position: nat): seq<byte>
    requires position < |p|
  {
    p[position := SumExcept(p, position, |p|) % 256]
  }

  function Counted(p: seq<byte>, position: nat): seq<byte>
    requires position < |p|
  {
    var counter: int := p[position];
    p[position := (counter + 1) % 256]
  }

  /** crc_generate: sums forwards in a uint8_t. */
  method CrcGenerate(position: nat, payload: array<byte>)
    requires position < payload.Length
    modifies payload
    ensures payload[..] == Generated(old(payload[..]), position)
  {
    var crc: byte := 0;
    for i := 0 to payload.Length
      invariant crc == SumExcept(payload[..], position, i) % 256
    {
      if i == position {
        continue;
      }
      crc := (crc + payload[i]) % 256;
    }
    payload[position] := crc;
  }

  /** crc_validate: subtracts backwards from the stored byte. */
  method CrcValidate(position: nat, payload: array<byte>) returns (v: Verdict)
    requires position < payload.Length
    ensures v.Good? <==> Validates(payload[..], position)
  {
    var p := payload[..];
    var crc: byte := payload[position];
    var i := payload.Length;
    ghost var stored: int := crc;
    ghost var rest := 0;
    while i > 0
      invariant 0 <= i <= payload.Length
      invariant rest == SumExcept(p, position, payload.Length) - SumExcept(p, position, i)
      invariant crc == (stored - rest) % 256
    {
      var idx := i - 1;
      if idx != position {
        var b: int := payload[idx];
        SubtractWraps(stored - rest, b);
        crc := (crc as int - b) % 256;
        rest := rest + b;
      }
      i := idx;
    }
    ResidueIff(payload[position], rest);
    NegatedMultiple(stored - rest);
    if crc != 0 {
      return BadMsg;
    }
    return Good;
  }

  lemma SubtractWraps(a: int, b: int)
    ensures (a % 256 - b) % 256 == (a - b) % 256
  {
  }

  lemma ResidueIff(b: byte, sum: nat)
    ensures b == sum % 256 <==> (sum - b) % 256 == 0
  {
  }

  lemma NegatedMultiple(a: int)
    ensures a % 256 == 0 <==> -a % 256 == 0
  {
  }

  /** counter_inc_uint8. */
  method CounterInc(position: nat, payload: array<byte>)
    requires position < payload.Length
    modifies payload
    ensures payload[..] == Counted(old(payload[..]), position)
  {
    var counter: int := payload[position];
    counter := (counter + 1) % 256;
    payload[position] := counter;
  }

  /** The effect of replacing one byte on the sum. */
  lemma {:induction false} SumUpdate(p: seq<byte>, position: nat, n: nat, i: nat, b: byte)
    requires n <= |p| && i < |p|
    ensures SumExcept(p[i := b], position, n) ==
      SumExcept(p, position, n) + if i < n && i != position then b - p[i] else 0
  {
    if n > 0 {
      SumUpdate(p, position, n - 1, i, b);
    }
  }

  /** Whatever was stored, generating makes the payload valid, and changes no other byte. */
  lemma GeneratedValidates(p: seq<byte>, position: nat)
    requires position < |p|
    ensures Validates(Generated(p, position), position)
    ensures forall i :: 0 <= i < |p| && i != position ==> Generated(p, position)[i] == p[i]
  {
    SumUpdate(p, position, |p|, position, SumExcept(p, position, |p|) % 256);
  }

  /** Changing any single byte of a valid payload makes it invalid. */
  lemma AlterationRejected(p: seq<byte>, position: nat, i: nat, b: byte)
    requires position < |p| && i < |p| && b != p[i] && Validates(p, position)
    ensures !Validates(p[i := b], position)
  {
    SumUpdate(p, position, |p|, i, b);
  }

  /** A valid payload is the one that generating yields: validation accepts nothing else. */
  lemma ValidIffGenerated(p: seq<byte>, position: nat)
    requires position < |p|
    ensures Validates(p, position) <==> Generated(p, position) == p
  {
  }

  /** What a change of byte i adds to the stored byte, less the sum of the others. */
  function Effect(p: seq<byte>, position: nat, i: nat, b: byte): int
    requires i < |p|
  {
    if i == position then p[i] - b else b - p[i]
  }

  /** Two alterations keep a payload valid if and only if their effects cancel modulo 256. */
  lemma TwoChangesAcceptedIff(p: seq<byte>, position: nat, i: nat, b: byte, j: nat, c: byte)
    requires position < |p| && i < |p| && j < |p| && i != j && Validates(p, position)
    ensures Validates(p[i := b][j := c], position) <==> (Effect(p, position, i, b) + Effect(p, position, j, c)) % 256 == 0
  {
    var q := p[i := b][j := c];
    SumUpdate(p, position, |p|, i, b);
    SumUpdate(p[i := b], position, |p|, j, c);
    var d, e := SumExcept(p, position, |p|) - p[position], Effect(p, position, i, b) + Effect(p, position, j, c);
    assert SumExcept(q, position, |p|) - q[position] == d + e;
    ResidueIff(p[position], SumExcept(p, position, |p|));
    ResidueIff(q[position], SumExcept(q, position, |p|));
    MultipleAdded(d, e);
  }

  lemma MultipleAdded(d: int, e: int)
    requires d % 256 == 0
    ensures (d + e) % 256 == 0 <==> e % 256 == 0
  {
  }
}
