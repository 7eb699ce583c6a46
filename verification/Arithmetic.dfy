/** Division facts that the proofs share. */
module Arithmetic {

  function Pow2(n: nat): (p: nat)
    ensures p >= 1
  {
    if n == 0 then 1 else 2 * Pow2(n - 1)
  }

  lemma MulSign(d: int, c: int)
    requires c >= 0
    ensures d >= 1 ==> d * c >= c
    ensures d <= -1 ==> d * c <= -c
  {
  }

  lemma MulOrder(a: int, b: int, c: nat)
    requires c >= 1
    ensures a <= b <==> a * c <= b * c
  {
    MulSign(b - a, c);
    assert (b - a) * c == b * c - a * c;
  }

  /** Quotient and remainder are unique. */
  lemma ModOf(q: nat, r: nat, c: nat)
    requires r < c
    ensures (q * c + r) % c == r && (q * c + r) / c == q
  {
    var x := q * c + r;
    var d := x / c - q;
    assert d * c == x / c * c - q * c;
    MulSign(d, c);
  }

  lemma ModNext(x: nat, c: nat)
    requires c > 0
    ensures (x + 1) % c == if x % c == c - 1 then 0 else x % c + 1
  {
    var q, r := x / c, x % c;
    assert x == q * c + r;
    if r == c - 1 {
      assert (q + 1) * c == q * c + c;
      ModOf(q + 1, 0, c);
    } else {
      ModOf(q, r + 1, c);
    }
  }

  /** Two ways to round up to a multiple. */
  lemma RoundUp(offset: nat, size: nat)
    requires size > 0
    ensures (offset + (size - 1)) / size * size ==
      if offset % size != 0 then offset / size * size + size else offset
  {
    var q, r := offset / size, offset % size;
    assert offset == q * size + r;
    if r != 0 {
      assert (q + 1) * size == q * size + size;
      ModOf(q + 1, r - 1, size);
    } else {
      ModOf(q, size - 1, size);
    }
  }

  /** Rounding up to a multiple of size gives the least one. */
  lemma LeastMultiple(offset: nat, size: nat, x: nat)
    requires size > 0
    ensures var r := (offset + (size - 1)) / size * size;
      && offset <= r && r % size == 0
      && (x >= offset && x % size == 0 ==> r <= x)
  {
    var n := offset + (size - 1);
    var q := n / size;
    assert n == q * size + n % size;
    ModOf(q, 0, size);
    if x >= offset && x % size == 0 {
      var d := x / size - q;
      assert x == x / size * size;
      assert d * size == x - q * size;
      MulSign(d, size);
    }
  }
}
