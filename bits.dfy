/** Unsigned machine integers and the bit arithmetic the encoder relies on.
    A `u32` is modelled as a bounded integer: `(x >> i) & 1` on an unsigned
    value is the parity of `x / 2^i`, which is how `Bit` is defined. */
module Bits {
  type u8 = x: int | 0 <= x < 0x100
  type u32 = x: int | 0 <= x < 0x1_0000_0000

  function Pow2(n: nat): (r: nat)
    ensures r >= 1
  {
    if n == 0 then 1 else 2 * Pow2(n - 1)
  }

  /** Bit `i` of `x`, i.e. `(x >> i) & 1` for an unsigned `x`. */
  function Bit(x: nat, i: nat): (b: nat)
    ensures b < 2
  {
    (x / Pow2(i)) % 2
  }

  /** Reassembles a number from its bits, least significant bit first. */
  function FromBits(bs: seq<nat>): (r: nat)
    ensures (forall i :: 0 <= i < |bs| ==> bs[i] < 2) ==> r < Pow2(|bs|)
  {
    if bs == [] then 0 else bs[0] + 2 * FromBits(bs[1..])
  }

  /** The `n` low bits of `x`, least significant bit first. */
  function BitsOf(x: nat, n: nat): seq<nat>
  {
    seq(n, i requires 0 <= i < n => Bit(x, i))
  }

  lemma MulAtLeast(k: int, d: int)
    requires k >= 1 && d > 0
    ensures k * d >= d
  {
    assert k * d == d + (k - 1) * d;
  }

  /** Euclidean division has a unique quotient. */
  lemma DivUnique(x: int, d: int, q: int, r: int)
    requires d > 0 && 0 <= r < d && x == q * d + r
    ensures x / d == q
  {
    var q', r' := x / d, x % d;
    assert q' * d + r' == q * d + r;
    assert (q' - q) * d == q' * d - q * d;
    if q' > q {
      MulAtLeast(q' - q, d);
    } else if q' < q {
      assert (q - q') * d == q * d - q' * d;
      MulAtLeast(q - q', d);
    }
  }

  /** Shifting right by `i` is halving once and then shifting by `i - 1`. */
  lemma BitStep(x: nat, i: nat)
    requires i > 0
    ensures Bit(x, i) == Bit(x / 2, i - 1)
  {
    var n := Pow2(i - 1);
    var q, r := (x / 2) / n, (x / 2) % n;
    assert x == q * (2 * n) + (2 * r + x % 2);
    DivUnique(x, 2 * n, q, 2 * r + x % 2);
  }

  /** With `lo < 2^k`, bits `k` and up of `hi * 2^k + lo` are the bits of `hi`. */
  lemma {:induction false} BitOfHigh(hi: nat, lo: nat, k: nat, i: nat)
    requires lo < Pow2(k) && k <= i
    ensures Bit(hi * Pow2(k) + lo, i) == Bit(hi, i - k)
  {
    if k > 0 {
      var p := Pow2(k - 1);
      var x := hi * Pow2(k) + lo;
      assert x == 2 * (hi * p + lo / 2) + lo % 2;
      assert x / 2 == hi * p + lo / 2;
      BitStep(x, i);
      BitOfHigh(hi, lo / 2, k - 1, i - 1);
    }
  }

  /** With `lo < 2^k`, the bits below `k` of `hi * 2^k + lo` are the bits of `lo`. */
  lemma {:induction false} BitOfLow(hi: nat, lo: nat, k: nat, i: nat)
    requires lo < Pow2(k) && i < k
    ensures Bit(hi * Pow2(k) + lo, i) == Bit(lo, i)
  {
    var p := Pow2(k - 1);
    var x := hi * Pow2(k) + lo;
    assert x == 2 * (hi * p + lo / 2) + lo % 2;
    if i > 0 {
      assert x / 2 == hi * p + lo / 2;
      BitStep(x, i);
      BitStep(lo, i);
      BitOfLow(hi, lo / 2, k - 1, i - 1);
    }
  }

  /** A number below `2^n` is determined by its `n` low bits. */
  lemma {:induction false} FromBitsOf(x: nat, n: nat)
    requires x < Pow2(n)
    ensures FromBits(BitsOf(x, n)) == x
  {
    if n > 0 {
      var bs := BitsOf(x, n);
      forall i | 0 <= i < n - 1
        ensures bs[1..][i] == BitsOf(x / 2, n - 1)[i]
      {
        BitStep(x, i + 1);
      }
      assert bs[1..] == BitsOf(x / 2, n - 1);
      FromBitsOf(x / 2, n - 1);
    }
  }

  lemma {:induction false} BitOfZero(i: nat)
    ensures Bit(0, i) == 0
  {
    if i > 0 {
      BitStep(0, i);
      BitOfZero(i - 1);
    }
  }

  /** Every one of the `n` low bits of `2^n - 1` is set. */
  lemma {:induction false} BitOfOnes(n: nat, i: nat)
    requires i < n
    ensures Bit(Pow2(n) - 1, i) == 1
  {
    if i > 0 {
      assert (Pow2(n) - 1) / 2 == Pow2(n - 1) - 1;
      BitStep(Pow2(n) - 1, i);
      BitOfOnes(n - 1, i - 1);
    }
  }
}
