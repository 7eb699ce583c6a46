/** Bit packing of the example message library (dse/network/examples/stub/stub.c). Words are bit vectors here, and
  * a payload is a sequence of bv8; a float or double is its bit pattern. */
module Stub {

  const EINVAL := 22

  // ---- Shift helpers: shift, cut to eight bits, mask; and mask, widen, shift ----

  function PackLeft8(v: bv8, shift: bv8, mask: bv8): bv8 requires shift < 8 { (v << shift) & mask }
  function PackLeft16(v: bv16, shift: bv8, mask: bv8): bv8 requires shift < 16 { ((v << shift) & 0xff) as bv8 & mask }
  function PackLeft32(v: bv32, shift: bv8, mask: bv8): bv8 requires shift < 32 { ((v << shift) & 0xff) as bv8 & mask }
  function PackLeft64(v: bv64, shift: bv8, mask: bv8): bv8 requires shift < 64 { ((v << shift) & 0xff) as bv8 & mask }

  function PackRight8(v: bv8, shift: bv8, mask: bv8): bv8 requires shift < 8 { (v >> shift) & mask }
  function PackRight16(v: bv16, shift: bv8, mask: bv8): bv8 requires shift < 16 { ((v >> shift) & 0xff) as bv8 & mask }
  function PackRight32(v: bv32, shift: bv8, mask: bv8): bv8 requires shift < 32 { ((v >> shift) & 0xff) as bv8 & mask }
  function PackRight64(v: bv64, shift: bv8, mask: bv8): bv8 requires shift < 64 { ((v >> shift) & 0xff) as bv8 & mask }

  function UnpackLeft8(v: bv8, shift: bv8, mask: bv8): bv8 requires shift < 8 { (v & mask) << shift }
  function UnpackLeft16(v: bv8, shift: bv8, mask: bv8): bv16 requires shift < 16 { ((v & mask) as bv16) << shift }
  function UnpackLeft32(v: bv8, shift: bv8, mask: bv8): bv32 requires shift < 32 { ((v & mask) as bv32) << shift }
  function UnpackLeft64(v: bv8, shift: bv8, mask: bv8): bv64 requires shift < 64 { ((v & mask) as bv64) << shift }

  function UnpackRight8(v: bv8, shift: bv8, mask: bv8): bv8 requires shift < 8 { (v & mask) >> shift }
  function UnpackRight16(v: bv8, shift: bv8, mask: bv8): bv16 requires shift < 8 { ((v & mask) as bv16) >> shift }
  function UnpackRight32(v: bv8, shift: bv8, mask: bv8): bv32 requires shift < 8 { ((v & mask) as bv32) >> shift }
  function UnpackRight64(v: bv8, shift: bv8, mask: bv8): bv64 requires shift < 8 { ((v & mask) as bv64) >> shift }

  /** memset. */
  method Clear(dst: array<bv8>, n: nat)
    requires n <= dst.Length
    modifies dst
    ensures dst[..] == Zero(n) + old(dst[n..])
  {
    for i := 0 to n
      invariant forall k :: 0 <= k < dst.Length ==> dst[k] == if k < i then 0 else old(dst[k])
    {
      dst[i] := 0;
    }
  }

  /** s or'd into p from at on. */
  function Ored(p: seq<bv8>, at: nat, s: seq<bv8>): (r: seq<bv8>)
    requires at + |s| <= |p|
    ensures |r| == |p|
    ensures forall k :: 0 <= k < |p| ==> r[k] == if at <= k < at + |s| then p[k] | s[k - at] else p[k]
  {
    seq(|p|, k requires 0 <= k < |p| => if at <= k < at + |s| then p[k] | s[k - at] else p[k])
  }

  function Zero(n: nat): (r: seq<bv8>)
    ensures |r| == n && forall k :: 0 <= k < n ==> r[k] == 0
  {
    seq(n, _ => 0)
  }

  /** dst[at] |= s[0], dst[at + 1] |= s[1], and so on. */
  method Or(dst: array<bv8>, at: nat, s: seq<bv8>, ghost n: nat)
    requires at + |s| <= n <= dst.Length
    modifies dst
    ensures dst[..n] == Ored(old(dst[..n]), at, s) && dst[n..] == old(dst[n..])
  {
    for i := 0 to |s|
      invariant forall k :: 0 <= k < dst.Length ==>
        dst[k] == if at <= k < at + i then old(dst[k]) | s[k - at] else old(dst[k])
    {
      dst[at + i] := dst[at + i] | s[i];
    }
  }

  // ---- example_message: 1 + 6 + 12 bits, the last signed ----

  datatype Example = Example(enable: bv8, radius: bv8, temperature: bv16)

  class ExampleMessage {
    var enable: bv8
    var averageRadius: bv8
    var temperature: bv16

    function View(): Example
      reads this
    {
      Example(enable, averageRadius, temperature)
    }

    method Pack(dst: array<bv8>, size: nat) returns (rc: int)
      requires size <= dst.Length
      modifies dst
      ensures rc == if size < 8 then -EINVAL else 8
      ensures dst[..] == if size < 8 then old(dst[..]) else PackedExample(View()) + old(dst[8..])
    {
      if size < 8 {
        return -EINVAL;
      }
      Clear(dst, 8);
      Or(dst, 0, [PackLeft8(enable, 7, 0x80)], 8);
      Or(dst, 0, [PackLeft8(averageRadius, 1, 0x7e)], 8);
      Or(dst, 0, ExampleTemperature(temperature), 8);
      return 8;
    }

    method Unpack(src: seq<bv8>, size: nat) returns (rc: int)
      requires size <= |src|
      modifies this
      ensures rc == if size < 8 then -EINVAL else 0
      ensures View() == if size < 8 then old(View()) else UnpackedExample(src[..8])
    {
      if size < 8 {
        return -EINVAL;
      }
      enable := UnpackRight8(src[0], 7, 0x80);
      averageRadius := UnpackRight8(src[0], 1, 0x7e);
      temperature := ReadTemperature(src);
      return 0;
    }
  }

  function ExampleTemperature(t: bv16): seq<bv8> {
    [PackRight16(t, 11, 0x01), PackRight16(t, 3, 0xff), PackLeft16(t, 5, 0xe0)]
  }

  function PackedExample(m: Example): (p: seq<bv8>)
    ensures |p| == 8
  {
    Ored(Ored(Ored(Zero(8), 0, [PackLeft8(m.enable, 7, 0x80)]), 0, [PackLeft8(m.radius, 1, 0x7e)]),
         0, ExampleTemperature(m.temperature))
  }

  lemma ExampleBytes(m: Example)
    ensures PackedExample(m) ==
      [PackLeft8(m.enable, 7, 0x80) | PackLeft8(m.radius, 1, 0x7e) | PackRight16(m.temperature, 11, 0x01),
       PackRight16(m.temperature, 3, 0xff), PackLeft16(m.temperature, 5, 0xe0), 0, 0, 0, 0, 0]
  {
    OredExample(PackLeft8(m.enable, 7, 0x80), PackLeft8(m.radius, 1, 0x7e), ExampleTemperature(m.temperature));
  }

  lemma OrZero(b: bv8)
    ensures 0 | b == b && b | 0 == b
  {
  }

  lemma OredExample(a: bv8, b: bv8, c: seq<bv8>)
    requires |c| == 3
    ensures Ored(Ored(Ored(Zero(8), 0, [a]), 0, [b]), 0, c) == [a | b | c[0], c[1], c[2], 0, 0, 0, 0, 0]
  {
    OrZero(a);
    OrZero(c[1]);
    OrZero(c[2]);
  }

  function SignExtend12(t: bv16): bv16 {
    if t & 0x800 != 0 then t | 0xf000 else t
  }

  function UnpackedExample(p: seq<bv8>): Example
    requires |p| == 8
  {
    Example(UnpackRight8(p[0], 7, 0x80), UnpackRight8(p[0], 1, 0x7e),
            SignExtend12(Temperature12(p[0], p[1], p[2])))
  }

  function Temperature12(a: bv8, b: bv8, c: bv8): bv16 {
    UnpackLeft16(a, 11, 0x01) | UnpackLeft16(b, 3, 0xff) | UnpackRight16(c, 5, 0xe0)
  }

  method ReadTemperature(src: seq<bv8>) returns (temperature: bv16)
    requires |src| >= 8
    ensures temperature == SignExtend12(Temperature12(src[0], src[1], src[2]))
  {
    temperature := UnpackLeft16(src[0], 11, 0x01);
    temperature := temperature | UnpackLeft16(src[1], 3, 0xff);
    temperature := temperature | UnpackRight16(src[2], 5, 0xe0);
    if temperature & 0x800 != 0 {
      temperature := temperature | 0xf000;
    }
  }

  lemma ExampleByte0(e: bv8, r: bv8, t: bv16)
    ensures var b := PackLeft8(e, 7, 0x80) | PackLeft8(r, 1, 0x7e) | PackRight16(t, 11, 0x01);
      && UnpackRight8(b, 7, 0x80) == e & 1 && UnpackRight8(b, 1, 0x7e) == r & 0x3f
      && UnpackLeft16(b, 11, 0x01) == t & 0x800
  {
  }

  lemma TemperatureTrip(t: bv16)
    ensures (t & 0x800) | UnpackLeft16(PackRight16(t, 3, 0xff), 3, 0xff) | UnpackRight16(PackLeft16(t, 5, 0xe0), 5, 0xe0)
      == t & 0xfff
    ensures SignExtend12(t & 0xfff) == t <==> t & 0xf800 == 0 || t & 0xf800 == 0xf800
  {
  }

  lemma FitsBits(e: bv8, r: bv8)
    ensures e & 1 == e <==> e <= 1
    ensures r & 0x3f == r <==> r <= 63
  {
  }

  /** The first three bytes, as one 24-bit number. */
  function Top24(p: seq<bv8>): bv24
    requires |p| >= 3
  {
    ((p[0] as bv24) << 16) | ((p[1] as bv24) << 8) | (p[2] as bv24)
  }

  /** Where each field is: enable is bit 23, the radius bits 22 to 17, the temperature bits 16 to 5. */
  lemma ExampleLayout(m: Example)
    ensures Top24(PackedExample(m)) ==
      (((m.enable as bv24) & 1) << 23) | (((m.radius as bv24) & 0x3f) << 17) | (((m.temperature as bv24) & 0xfff) << 5)
  {
  }

  /** Packing and unpacking gives back the message exactly if each field fits: one bit, six bits, twelve bits signed. */
  lemma ExampleRoundTrip(m: Example)
    ensures UnpackedExample(PackedExample(m)) == m <==>
      m.enable <= 1 && m.radius <= 63 && (m.temperature & 0xf800 == 0 || m.temperature & 0xf800 == 0xf800)
  {
    ExampleBytes(m);
    ExampleByte0(m.enable, m.radius, m.temperature);
    TemperatureTrip(m.temperature);
    FitsBits(m.enable, m.radius);
  }

  lemma ExampleCanonicalBytes(a: bv8, b: bv8, c: bv8)
    ensures var t := SignExtend12(Temperature12(a, b, c));
      && PackLeft8(UnpackRight8(a, 7, 0x80), 7, 0x80) | PackLeft8(UnpackRight8(a, 1, 0x7e), 1, 0x7e)
         | PackRight16(t, 11, 0x01) == a
      && PackRight16(t, 3, 0xff) == b && PackLeft16(t, 5, 0xe0) == c & 0xe0
  {
  }

  /** Unpacking and packing clears the unused bits and nothing else. */
  lemma ExampleCanonical(p: seq<bv8>)
    requires |p| == 8
    ensures PackedExample(UnpackedExample(p)) == [p[0], p[1], p[2] & 0xe0, 0, 0, 0, 0, 0]
  {
    ExampleBytes(UnpackedExample(p));
    ExampleCanonicalBytes(p[0], p[1], p[2]);
  }

  // ---- unsigned_types: 8, 16, 32 and 64 bits, each one bit off a byte boundary ----

  datatype Unsigned = Unsigned(u8: bv8, u16: bv16, u32: bv32, u64: bv64)

  class UnsignedTypes {
    var u8: bv8
    var u16: bv16
    var u32: bv32
    var u64: bv64

    function View(): Unsigned
      reads this
    {
      Unsigned(u8, u16, u32, u64)
    }

    method Pack(dst: array<bv8>, size: nat) returns (rc: int)
      requires size <= dst.Length
      modifies dst
      ensures rc == if size < 16 then -EINVAL else 16
      ensures dst[..] == if size < 16 then old(dst[..]) else PackedUnsigned(View()) + old(dst[16..])
    {
      if size < 16 {
        return -EINVAL;
      }
      Clear(dst, 16);
      Or(dst, 0, Bytes8(u8), 16);
      Or(dst, 1, Bytes16(u16), 16);
      Or(dst, 3, Bytes32(u32), 16);
      Or(dst, 7, Bytes64(u64), 16);
      return 16;
    }

    method Unpack(src: seq<bv8>, size: nat) returns (rc: int)
      requires size <= |src|
      modifies this
      ensures rc == if size < 16 then -EINVAL else 0
      ensures View() == if size < 16 then old(View()) else UnpackedUnsigned(src[..16])
    {
      if size < 16 {
        return -EINVAL;
      }
      u8 := UnpackLeft8(src[0], 7, 0x01);
      u8 := u8 | UnpackRight8(src[1], 1, 0xfe);
      u16 := ReadU16(src);
      u32 := ReadU32(src);
      u64 := ReadU64(src);
      return 0;
    }
  }

  function Bytes8(v: bv8): seq<bv8> {
    [PackRight8(v, 7, 0x01), PackLeft8(v, 1, 0xfe)]
  }

  function Bytes16(v: bv16): seq<bv8> {
    [PackRight16(v, 15, 0x01), PackRight16(v, 7, 0xff), PackLeft16(v, 1, 0xfe)]
  }

  function Bytes32(v: bv32): seq<bv8> {
    [PackRight32(v, 31, 0x01), PackRight32(v, 23, 0xff), PackRight32(v, 15, 0xff), PackRight32(v, 7, 0xff),
     PackLeft32(v, 1, 0xfe)]
  }

  function Bytes64(v: bv64): seq<bv8> {
    [PackRight64(v, 63, 0x01), PackRight64(v, 55, 0xff), PackRight64(v, 47, 0xff), PackRight64(v, 39, 0xff),
     PackRight64(v, 31, 0xff), PackRight64(v, 23, 0xff), PackRight64(v, 15, 0xff), PackRight64(v, 7, 0xff),
     PackLeft64(v, 1, 0xfe)]
  }

  function PackedUnsigned(m: Unsigned): (p: seq<bv8>)
    ensures |p| == 16
  {
    Ored(Ored(Ored(Ored(Zero(16), 0, Bytes8(m.u8)), 1, Bytes16(m.u16)), 3, Bytes32(m.u32)), 7, Bytes64(m.u64))
  }

  /** Four overlapping fields in sixteen cleared bytes. */
  lemma OredFields(a: seq<bv8>, b: seq<bv8>, c: seq<bv8>, d: seq<bv8>)
    requires |a| == 2 && |b| == 3 && |c| == 5 && |d| == 9
    ensures Ored(Ored(Ored(Ored(Zero(16), 0, a), 1, b), 3, c), 7, d) ==
      [a[0], a[1] | b[0], b[1], b[2] | c[0], c[1], c[2], c[3], c[4] | d[0]] + d[1..]
  {
  }

  function Join16(a: bv8, b: bv8, c: bv8): bv16 {
    UnpackLeft16(a, 15, 0x01) | UnpackLeft16(b, 7, 0xff) | UnpackRight16(c, 1, 0xfe)
  }

  function Join32(a: bv8, b: bv8, c: bv8, d: bv8, e: bv8): bv32 {
    UnpackLeft32(a, 31, 0x01) | UnpackLeft32(b, 23, 0xff) | UnpackLeft32(c, 15, 0xff) | UnpackLeft32(d, 7, 0xff)
    | UnpackRight32(e, 1, 0xfe)
  }

  function Join64(a: bv8, b: bv8, c: bv8, d: bv8, e: bv8, f: bv8, g: bv8, h: bv8, i: bv8): bv64 {
    UnpackLeft64(a, 63, 0x01) | UnpackLeft64(b, 55, 0xff) | UnpackLeft64(c, 47, 0xff) | UnpackLeft64(d, 39, 0xff)
    | UnpackLeft64(e, 31, 0xff) | UnpackLeft64(f, 23, 0xff) | UnpackLeft64(g, 15, 0xff) | UnpackLeft64(h, 7, 0xff)
    | UnpackRight64(i, 1, 0xfe)
  }

  method ReadU16(src: seq<bv8>) returns (v: bv16)
    requires |src| >= 16
    ensures v == Join16(src[1], src[2], src[3])
  {
    v := UnpackLeft16(src[1], 15, 0x01);
    v := v | UnpackLeft16(src[2], 7, 0xff);
    v := v | UnpackRight16(src[3], 1, 0xfe);
  }

  method ReadU32(src: seq<bv8>) returns (v: bv32)
    requires |src| >= 16
    ensures v == Join32(src[3], src[4], src[5], src[6], src[7])
  {
    v := UnpackLeft32(src[3], 31, 0x01);
    v := v | UnpackLeft32(src[4], 23, 0xff);
    v := v | UnpackLeft32(src[5], 15, 0xff);
    v := v | UnpackLeft32(src[6], 7, 0xff);
    v := v | UnpackRight32(src[7], 1, 0xfe);
  }

  method ReadU64(src: seq<bv8>) returns (v: bv64)
    requires |src| >= 16
    ensures v == Join64(src[7], src[8], src[9], src[10], src[11], src[12], src[13], src[14], src[15])
  {
    v := UnpackLeft64(src[7], 63, 0x01);
    v := v | UnpackLeft64(src[8], 55, 0xff);
    v := v | UnpackLeft64(src[9], 47, 0xff);
    v := v | UnpackLeft64(src[10], 39, 0xff);
    v := v | UnpackLeft64(src[11], 31, 0xff);
    v := v | UnpackLeft64(src[12], 23, 0xff);
    v := v | UnpackLeft64(src[13], 15, 0xff);
    v := v | UnpackLeft64(src[14], 7, 0xff);
    v := v | UnpackRight64(src[15], 1, 0xfe);
  }

  function UnpackedUnsigned(p: seq<bv8>): Unsigned
    requires |p| == 16
  {
    Unsigned(UnpackLeft8(p[0], 7, 0x01) | UnpackRight8(p[1], 1, 0xfe),
             Join16(p[1], p[2], p[3]), Join32(p[3], p[4], p[5], p[6], p[7]),
             Join64(p[7], p[8], p[9], p[10], p[11], p[12], p[13], p[14], p[15]))
  }

  /** Eight bytes as one number, the first highest. */
  function Word(p: seq<bv8>): bv64
    requires |p| == 8
  {
    ((p[0] as bv64) << 56) | ((p[1] as bv64) << 48) | ((p[2] as bv64) << 40) | ((p[3] as bv64) << 32)
    | ((p[4] as bv64) << 24) | ((p[5] as bv64) << 16) | ((p[6] as bv64) << 8) | (p[7] as bv64)
  }

  /** Where each field is: after seven unused bits the fields follow each other without gaps, most significant bit
    * first, and one unused bit ends the payload. */
  lemma UnsignedLayout(m: Unsigned)
    ensures Word(PackedUnsigned(m)[..8]) ==
      ((m.u8 as bv64) << 49) | ((m.u16 as bv64) << 33) | ((m.u32 as bv64) << 1) | (m.u64 >> 63)
  {
  }

  lemma UnsignedLayoutEnd(m: Unsigned)
    ensures Word(PackedUnsigned(m)[8..]) == m.u64 << 1
  {
  }

  lemma Survives64(m: Unsigned)
    ensures UnpackedUnsigned(PackedUnsigned(m)).u64 == m.u64
  {
  }

  lemma Survives32(m: Unsigned)
    ensures UnpackedUnsigned(PackedUnsigned(m)).u32 == m.u32
  {
  }

  lemma Survives16(m: Unsigned)
    ensures UnpackedUnsigned(PackedUnsigned(m)).u16 == m.u16
  {
  }

  lemma Survives8(m: Unsigned)
    ensures UnpackedUnsigned(PackedUnsigned(m)).u8 == m.u8
  {
  }

  /** Every message survives. */
  lemma UnsignedRoundTrip(m: Unsigned)
    ensures UnpackedUnsigned(PackedUnsigned(m)) == m
  {
    Survives8(m);
    Survives16(m);
    Survives32(m);
    Survives64(m);
  }

  lemma Split8(a: bv8, b: bv8)
    ensures Bytes8(UnpackLeft8(a, 7, 0x01) | UnpackRight8(b, 1, 0xfe)) == [a & 0x01, b & 0xfe]
  {
  }

  lemma Split16(a: bv8, b: bv8, c: bv8)
    ensures Bytes16(Join16(a, b, c)) == [a & 0x01, b, c & 0xfe]
  {
  }

  lemma Split32(a: bv8, b: bv8, c: bv8, d: bv8, e: bv8)
    ensures Bytes32(Join32(a, b, c, d, e)) == [a & 0x01, b, c, d, e & 0xfe]
  {
  }

  lemma Split64(a: bv8, b: bv8, c: bv8, d: bv8, e: bv8, f: bv8, g: bv8, h: bv8, i: bv8)
    ensures Bytes64(Join64(a, b, c, d, e, f, g, h, i)) == [a & 0x01, b, c, d, e, f, g, h, i & 0xfe]
  {
  }

  lemma Halves(b: bv8)
    ensures (b & 0xfe) | (b & 0x01) == b
  {
  }

  /** The payload with its unused bits cleared. */
  function Cleared(p: seq<bv8>): (r: seq<bv8>)
    requires |p| == 16
    ensures |r| == 16 && r[0] == p[0] & 0x01 && r[15] == p[15] & 0xfe && r[1..15] == p[1..15]
  {
    [p[0] & 0x01] + p[1..15] + [p[15] & 0xfe]
  }

  lemma FirstHalf(p: seq<bv8>, b1: bv8, b3: bv8, b7: bv8)
    requires |p| == 16 && b1 == p[1] && b3 == p[3] && b7 == p[7]
    ensures [p[0] & 0x01, b1, p[2], b3, p[4], p[5], p[6], b7] == Cleared(p)[..8]
  {
    var q := p[1..15];
    assert q[..7] == [p[1], p[2], p[3], p[4], p[5], p[6], p[7]];
    assert Cleared(p)[..8] == [p[0] & 0x01] + q[..7];
  }

  lemma SecondHalf(p: seq<bv8>, d: seq<bv8>)
    requires |p| == 16
    requires d == [p[7] & 0x01, p[8], p[9], p[10], p[11], p[12], p[13], p[14], p[15] & 0xfe]
    ensures d[1..] == Cleared(p)[8..]
  {
  }

  /** The four fields of a payload, cut apart and put together again. */
  lemma Reassembled(p: seq<bv8>, a: seq<bv8>, b: seq<bv8>, c: seq<bv8>, d: seq<bv8>)
    requires |p| == 16
    requires a == [p[0] & 0x01, p[1] & 0xfe] && b == [p[1] & 0x01, p[2], p[3] & 0xfe]
    requires c == [p[3] & 0x01, p[4], p[5], p[6], p[7] & 0xfe]
    requires d == [p[7] & 0x01, p[8], p[9], p[10], p[11], p[12], p[13], p[14], p[15] & 0xfe]
    ensures Ored(Ored(Ored(Ored(Zero(16), 0, a), 1, b), 3, c), 7, d) == Cleared(p)
  {
    var b1, b3, b7 := a[1] | b[0], b[2] | c[0], c[4] | d[0];
    Halves(p[1]);
    Halves(p[3]);
    Halves(p[7]);
    OredFields(a, b, c, d);
    FirstHalf(p, b1, b3, b7);
    SecondHalf(p, d);
    assert Cleared(p)[..8] + Cleared(p)[8..] == Cleared(p);
  }

  /** Unpacking and packing clears the seven bits before and the bit after the fields, and nothing else. */
  lemma UnsignedCanonical(p: seq<bv8>)
    requires |p| == 16
    ensures PackedUnsigned(UnpackedUnsigned(p)) == Cleared(p)
  {
    Split8(p[0], p[1]);
    Split16(p[1], p[2], p[3]);
    Split32(p[3], p[4], p[5], p[6], p[7]);
    Split64(p[7], p[8], p[9], p[10], p[11], p[12], p[13], p[14], p[15]);
    var u := UnpackedUnsigned(p);
    Reassembled(p, Bytes8(u.u8), Bytes16(u.u16), Bytes32(u.u32), Bytes64(u.u64));
  }

  // ---- mux_message: a header of 24 + 8 bits, then 64 or 32 bits that the header chooses ----

  datatype Mux = Mux(id: bv32, dlc: bv8, foo: bv64, bar: bv32)

  class MuxMessage {
    var headerId: bv32
    var headerDlc: bv8
    var fooDouble: bv64
    var barFloat: bv32

    function View(): Mux
      reads this
    {
      Mux(headerId, headerDlc, fooDouble, barFloat)
    }

    method Pack(dst: array<bv8>, size: nat) returns (rc: int)
      requires size <= dst.Length
      modifies dst
      ensures rc == if size < 12 then -EINVAL else 12
      ensures dst[..] == if size < 12 then old(dst[..]) else PackedMux(View()) + old(dst[12..])
    {
      if size < 12 {
        return -EINVAL;
      }
      Clear(dst, 12);
      Or(dst, 0, Le32(headerId)[..3], 12);
      Or(dst, 3, [PackLeft8(headerDlc, 0, 0xff)], 12);
      if headerId == 601 {
        Or(dst, 4, Le64(fooDouble), 12);
      } else if headerId == 602 {
        Or(dst, 4, Le32(barFloat), 12);
      }
      return 12;
    }

    method Unpack(src: seq<bv8>, size: nat) returns (rc: int)
      requires size <= |src|
      modifies this
      ensures rc == if size < 12 then -EINVAL else 0
      ensures View() == if size < 12 then old(View()) else UnpackedMux(src[..12], old(View()))
    {
      if size < 12 {
        return -EINVAL;
      }
      var frame := src[..12];
      headerId := ReadHeaderId(frame);
      headerDlc := UnpackRight8(frame[3], 0, 0xff);
      if headerId == 601 {
        fooDouble := ReadFoo(frame);
      } else if headerId == 602 {
        barFloat := ReadBar(frame);
      }
      return 0;
    }
  }

  function Le32(v: bv32): (p: seq<bv8>)
    ensures |p| == 4
  {
    [PackLeft32(v, 0, 0xff), PackRight32(v, 8, 0xff), PackRight32(v, 16, 0xff), PackRight32(v, 24, 0xff)]
  }

  function Le64(v: bv64): (p: seq<bv8>)
    ensures |p| == 8
  {
    [PackLeft64(v, 0, 0xff), PackRight64(v, 8, 0xff), PackRight64(v, 16, 0xff), PackRight64(v, 24, 0xff),
     PackRight64(v, 32, 0xff), PackRight64(v, 40, 0xff), PackRight64(v, 48, 0xff), PackRight64(v, 56, 0xff)]
  }

  function Of32(p: seq<bv8>): bv32
    requires |p| == 4
  {
    UnpackRight32(p[0], 0, 0xff) | UnpackLeft32(p[1], 8, 0xff) | UnpackLeft32(p[2], 16, 0xff) | UnpackLeft32(p[3], 24, 0xff)
  }

  function Of64(p: seq<bv8>): bv64
    requires |p| == 8
  {
    UnpackRight64(p[0], 0, 0xff) | UnpackLeft64(p[1], 8, 0xff) | UnpackLeft64(p[2], 16, 0xff)
    | UnpackLeft64(p[3], 24, 0xff) | UnpackLeft64(p[4], 32, 0xff) | UnpackLeft64(p[5], 40, 0xff)
    | UnpackLeft64(p[6], 48, 0xff) | UnpackLeft64(p[7], 56, 0xff)
  }

  function HeaderId(a: bv8, b: bv8, c: bv8): bv32 {
    UnpackRight32(a, 0, 0xff) | UnpackLeft32(b, 8, 0xff) | UnpackLeft32(c, 16, 0xff)
  }

  method ReadHeaderId(src: seq<bv8>) returns (id: bv32)
    requires |src| >= 12
    ensures id == HeaderId(src[0], src[1], src[2])
  {
    id := UnpackRight32(src[0], 0, 0xff);
    id := id | UnpackLeft32(src[1], 8, 0xff);
    id := id | UnpackLeft32(src[2], 16, 0xff);
  }

  method ReadFoo(src: seq<bv8>) returns (foo: bv64)
    requires |src| >= 12
    ensures foo == Of64(src[4..12])
  {
    foo := UnpackRight64(src[4], 0, 0xff);
    foo := foo | UnpackLeft64(src[5], 8, 0xff);
    foo := foo | UnpackLeft64(src[6], 16, 0xff);
    foo := foo | UnpackLeft64(src[7], 24, 0xff);
    foo := foo | UnpackLeft64(src[8], 32, 0xff);
    foo := foo | UnpackLeft64(src[9], 40, 0xff);
    foo := foo | UnpackLeft64(src[10], 48, 0xff);
    foo := foo | UnpackLeft64(src[11], 56, 0xff);
  }

  method ReadBar(src: seq<bv8>) returns (bar: bv32)
    requires |src| >= 12
    ensures bar == Of32(src[4..8])
  {
    bar := UnpackRight32(src[4], 0, 0xff);
    bar := bar | UnpackLeft32(src[5], 8, 0xff);
    bar := bar | UnpackLeft32(src[6], 16, 0xff);
    bar := bar | UnpackLeft32(src[7], 24, 0xff);
  }

  /** The bytes that the header chooses. */
  function MuxBody(m: Mux): seq<bv8> {
    if m.id == 601 then Le64(m.foo) else if m.id == 602 then Le32(m.bar) else []
  }

  function PackedMux(m: Mux): (p: seq<bv8>)
    ensures |p| == 12
  {
    Ored(Ored(Ored(Zero(12), 0, Le32(m.id)[..3]), 3, [PackLeft8(m.dlc, 0, 0xff)]), 4, MuxBody(m))
  }

  lemma MuxBytes(m: Mux)
    ensures PackedMux(m) == Le32(m.id)[..3] + [PackLeft8(m.dlc, 0, 0xff)]
      + if m.id == 601 then Le64(m.foo)
        else if m.id == 602 then Le32(m.bar) + [0, 0, 0, 0]
        else [0, 0, 0, 0, 0, 0, 0, 0]
  {
  }

  function UnpackedMux(p: seq<bv8>, before: Mux): Mux
    requires |p| == 12
  {
    var id := HeaderId(p[0], p[1], p[2]);
    Mux(id, UnpackRight8(p[3], 0, 0xff), if id == 601 then Of64(p[4..12]) else before.foo,
        if id == 602 then Of32(p[4..8]) else before.bar)
  }

  /** A number from its bytes, lowest first. */
  function Number32(a: bv8, b: bv8, c: bv8, d: bv8): bv32 {
    (a as bv32) + 0x100 * (b as bv32) + 0x1_0000 * (c as bv32) + 0x100_0000 * (d as bv32)
  }

  function Number64(low: bv32, high: bv32): bv64 {
    (low as bv64) + 0x1_0000_0000 * (high as bv64)
  }

  /** Where each field is: first the low 24 bits of the header id, lowest byte first, then the dlc ... */
  lemma MuxLayout(m: Mux)
    ensures var p := PackedMux(m); Number32(p[0], p[1], p[2], 0) == m.id & 0xffffff && p[3] == m.dlc
  {
    MuxBytes(m);
    HeaderBytes(m.id);
  }

  /** The number in bytes 4 to 7, and that in bytes 8 to 11. */
  function LowBody(p: seq<bv8>): bv32
    requires |p| == 12
  {
    Number32(p[4], p[5], p[6], p[7])
  }

  function HighBody(p: seq<bv8>): bv32
    requires |p| == 12
  {
    Number32(p[8], p[9], p[10], p[11])
  }

  /** ... and then, as the header chooses, foo or bar, lowest byte first; the rest is 0. */
  lemma MuxBodyLayout(m: Mux)
    ensures m.id == 601 ==> Number64(LowBody(PackedMux(m)), HighBody(PackedMux(m))) == m.foo
    ensures m.id == 602 ==> LowBody(PackedMux(m)) == m.bar && HighBody(PackedMux(m)) == 0
    ensures m.id != 601 && m.id != 602 ==> LowBody(PackedMux(m)) == 0 && HighBody(PackedMux(m)) == 0
  {
    if m.id == 601 {
      MuxFooBytes(m);
      FooBytes(m.foo);
    } else if m.id == 602 {
      MuxBarBytes(m);
      BarBytes(m.bar);
    } else {
      MuxNoBytes(m);
    }
  }

  lemma MuxFooBytes(m: Mux)
    requires m.id == 601
    ensures forall k :: 4 <= k < 12 ==> PackedMux(m)[k] == Le64(m.foo)[k - 4]
  {
    MuxBytes(m);
  }

  lemma MuxBarBytes(m: Mux)
    requires m.id == 602
    ensures forall k :: 4 <= k < 12 ==> PackedMux(m)[k] == if k < 8 then Le32(m.bar)[k - 4] else 0
  {
    MuxBytes(m);
  }

  lemma MuxNoBytes(m: Mux)
    requires m.id != 601 && m.id != 602
    ensures forall k :: 4 <= k < 12 ==> PackedMux(m)[k] == 0
  {
    MuxBytes(m);
  }

  lemma HeaderBytes(id: bv32)
    ensures Number32(Le32(id)[0], Le32(id)[1], Le32(id)[2], 0) == id & 0xffffff
  {
  }

  lemma BarBytes(bar: bv32)
    ensures Number32(Le32(bar)[0], Le32(bar)[1], Le32(bar)[2], Le32(bar)[3]) == bar
  {
  }

  lemma FooBytes(foo: bv64)
    ensures var p := Le64(foo);
      Number64(Number32(p[0], p[1], p[2], p[3]), Number32(p[4], p[5], p[6], p[7])) == foo
  {
  }

  /** The same where a payload is read. */
  lemma MuxReadLayout(p: seq<bv8>, before: Mux)
    requires |p| == 12
    ensures var m := UnpackedMux(p, before);
      && m.id == Number32(p[0], p[1], p[2], 0) && m.dlc == p[3]
      && m.foo == (if m.id == 601 then Number64(LowBody(p), HighBody(p)) else before.foo)
      && m.bar == (if m.id == 602 then LowBody(p) else before.bar)
  {
    ReadHeader(p);
    ReadBody(p);
  }

  lemma ReadHeader(p: seq<bv8>)
    requires |p| == 12
    ensures HeaderId(p[0], p[1], p[2]) == Number32(p[0], p[1], p[2], 0) && UnpackRight8(p[3], 0, 0xff) == p[3]
  {
    ReadBytes(p[0], p[1], p[2], 0);
  }

  lemma ReadBody(p: seq<bv8>)
    requires |p| == 12
    ensures Of64(p[4..12]) == Number64(LowBody(p), HighBody(p)) && Of32(p[4..8]) == LowBody(p)
  {
    ReadBytes(p[4], p[5], p[6], p[7]);
    ReadDouble(p[4], p[5], p[6], p[7], p[8], p[9], p[10], p[11]);
    assert p[4..12] == [p[4], p[5], p[6], p[7], p[8], p[9], p[10], p[11]];
    assert p[4..8] == [p[4], p[5], p[6], p[7]];
  }

  lemma ReadBytes(a: bv8, b: bv8, c: bv8, d: bv8)
    ensures Of32([a, b, c, d]) == Number32(a, b, c, d) && (d == 0 ==> HeaderId(a, b, c) == Number32(a, b, c, d))
  {
  }

  lemma ReadDouble(a: bv8, b: bv8, c: bv8, d: bv8, e: bv8, f: bv8, g: bv8, h: bv8)
    ensures Of64([a, b, c, d, e, f, g, h]) == Number64(Number32(a, b, c, d), Number32(e, f, g, h))
  {
  }

  lemma LeRoundTrip(v: bv32, w: bv64)
    ensures Of32(Le32(v)) == v && Of64(Le64(w)) == w
  {
  }

  lemma Le32Canonical(a: bv8, b: bv8, c: bv8, d: bv8)
    ensures Le32(Of32([a, b, c, d])) == [a, b, c, d]
  {
  }

  lemma Le64Canonical(a: bv8, b: bv8, c: bv8, d: bv8, e: bv8, f: bv8, g: bv8, h: bv8)
    ensures Le64(Of64([a, b, c, d, e, f, g, h])) == [a, b, c, d, e, f, g, h]
  {
  }

  lemma LeCanonical(p: seq<bv8>)
    ensures |p| == 4 ==> Le32(Of32(p)) == p
    ensures |p| == 8 ==> Le64(Of64(p)) == p
  {
    if |p| == 4 {
      Le32Canonical(p[0], p[1], p[2], p[3]);
      assert p == [p[0], p[1], p[2], p[3]];
    }
    if |p| == 8 {
      Le64Canonical(p[0], p[1], p[2], p[3], p[4], p[5], p[6], p[7]);
      assert p == [p[0], p[1], p[2], p[3], p[4], p[5], p[6], p[7]];
    }
  }

  lemma HeaderRoundTrip(id: bv32)
    ensures HeaderId(Le32(id)[0], Le32(id)[1], Le32(id)[2]) == id & 0xffffff
  {
  }

  lemma MuxHeadRead(m: Mux)
    ensures var p := PackedMux(m);
      HeaderId(p[0], p[1], p[2]) == m.id & 0xffffff && UnpackRight8(p[3], 0, 0xff) == m.dlc
  {
    HeaderRoundTrip(m.id);
    MuxBytes(m);
  }

  lemma MuxBodySlices(m: Mux)
    ensures m.id == 601 ==> PackedMux(m)[4..12] == Le64(m.foo)
    ensures m.id == 602 ==> PackedMux(m)[4..8] == Le32(m.bar)
    ensures m.id != 601 && m.id != 602 ==>
      PackedMux(m)[4..12] == [0, 0, 0, 0, 0, 0, 0, 0] && PackedMux(m)[4..8] == [0, 0, 0, 0]
  {
    MuxBytes(m);
  }

  lemma ZeroBody()
    ensures Of64([0, 0, 0, 0, 0, 0, 0, 0]) == 0 && Of32([0, 0, 0, 0]) == 0
  {
  }

  /** What every message becomes: the header id is cut to 24 bits, and chooses the field that is read; it was packed if the
    * uncut id chose it, too. The other field keeps what it held. */
  lemma MuxTrip(m: Mux, before: Mux)
    ensures var id := m.id & 0xffffff;
      UnpackedMux(PackedMux(m), before) ==
        Mux(id, m.dlc, if id != 601 then before.foo else if m.id == 601 then m.foo else 0,
            if id != 602 then before.bar else if m.id == 602 then m.bar else 0)
  {
    MuxHeadRead(m);
    MuxBodySlices(m);
    LeRoundTrip(m.bar, m.foo);
    ZeroBody();
  }

  lemma HeaderFits(id: bv32)
    ensures id & 0xffffff == id <==> id <= 0xffffff
  {
  }

  /** Header and chosen field survive, inactive fields keeping what they held, if and only if the header id has at most
    * 24 bits. */
  lemma MuxRoundTrip(m: Mux, before: Mux)
    ensures UnpackedMux(PackedMux(m), before) ==
      Mux(m.id, m.dlc, if m.id == 601 then m.foo else before.foo, if m.id == 602 then m.bar else before.bar)
      <==> m.id <= 0xffffff
  {
    MuxTrip(m, before);
    HeaderFits(m.id);
  }

  lemma PackedMuxFrom(p: seq<bv8>, m: Mux)
    requires |p| == 12 && Le32(m.id)[..3] == p[..3] && PackLeft8(m.dlc, 0, 0xff) == p[3]
    requires m.id == 601 ==> Le64(m.foo) == p[4..12]
    requires m.id == 602 ==> Le32(m.bar) == p[4..8]
    ensures PackedMux(m) ==
      p[..4] + if m.id == 601 then p[4..] else if m.id == 602 then p[4..8] + [0, 0, 0, 0] else [0, 0, 0, 0, 0, 0, 0, 0]
  {
    MuxBytes(m);
    assert p[..3] + [p[3]] == p[..4];
  }

  /** Unpacking and packing keeps what the header chooses and clears the rest. */
  lemma MuxCanonical(p: seq<bv8>, before: Mux)
    requires |p| == 12
    ensures var id := UnpackedMux(p, before).id;
      PackedMux(UnpackedMux(p, before)) ==
        p[..4] + if id == 601 then p[4..] else if id == 602 then p[4..8] + [0, 0, 0, 0] else [0, 0, 0, 0, 0, 0, 0, 0]
  {
    MuxHead(p, before);
    MuxBodyCanonical(p, before);
    PackedMuxFrom(p, UnpackedMux(p, before));
  }

  lemma MuxHead(p: seq<bv8>, before: Mux)
    requires |p| == 12
    ensures Le32(UnpackedMux(p, before).id)[..3] == p[..3]
    ensures PackLeft8(UnpackedMux(p, before).dlc, 0, 0xff) == p[3]
  {
  }

  lemma MuxBodyCanonical(p: seq<bv8>, before: Mux)
    requires |p| == 12
    ensures var m := UnpackedMux(p, before);
      (m.id == 601 ==> Le64(m.foo) == p[4..12]) && (m.id == 602 ==> Le32(m.bar) == p[4..8])
  {
    LeCanonical(p[4..12]);
    LeCanonical(p[4..8]);
  }

}
