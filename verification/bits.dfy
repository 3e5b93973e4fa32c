/**
 * Bit strings, least significant bit first, and the numbers they denote.
 *
 * The mnemonic codec is a bit-level re-packing of bytes into eleven-bit
 * indices; its correctness is stated as "the same string of bits goes in and
 * comes out", and this module relates those strings to the byte and index
 * values that the program handles.
 */
module Bits {

  function Pow2(n: nat): (r: nat)
    ensures r >= 1
  {
    if n == 0 then 1 else 2 * Pow2(n - 1)
  }

  /** The n low-order bits of v, least significant first. */
  function NatBits(v: nat, n: nat): (r: seq<bool>)
    ensures |r| == n
  {
    if n == 0 then [] else [v % 2 == 1] + NatBits(v / 2, n - 1)
  }

  /** The number a bit string denotes, least significant bit first. */
  function BitsNat(bits: seq<bool>): (r: nat)
    ensures r < Pow2(|bits|)
  {
    if |bits| == 0 then 0 else (if bits[0] then 1 else 0) + 2 * BitsNat(bits[1..])
  }

  /** Reading a bit string as a number and writing the number back gives the same string. */
  lemma {:induction false} BitsNatBits(bits: seq<bool>)
    ensures NatBits(BitsNat(bits), |bits|) == bits
  {
    if |bits| > 0 {
      var v := BitsNat(bits);
      BitsNatBits(bits[1..]);
      assert v % 2 == 1 <==> bits[0];
      assert v / 2 == BitsNat(bits[1..]);
      assert bits == [bits[0]] + bits[1..];
    }
  }

  /** Writing a number below 2^n as n bits and reading them back gives the number. */
  lemma {:induction false} NatBitsNat(v: nat, n: nat)
    requires v < Pow2(n)
    ensures BitsNat(NatBits(v, n)) == v
  {
    if n > 0 {
      NatBitsNat(v / 2, n - 1);
      var bits := NatBits(v, n);
      assert bits[1..] == NatBits(v / 2, n - 1);
    }
  }

  /** Bit strings of one length that denote the same number are the same string. */
  lemma BitsNatInjective(a: seq<bool>, b: seq<bool>)
    requires |a| == |b| && BitsNat(a) == BitsNat(b)
    ensures a == b
  {
    BitsNatBits(a);
    BitsNatBits(b);
  }

  /** Numbers below 2^n with the same n bits are equal. */
  lemma NatBitsInjective(u: nat, v: nat, n: nat)
    requires u < Pow2(n) && v < Pow2(n)
    requires NatBits(u, n) == NatBits(v, n)
    ensures u == v
  {
    NatBitsNat(u, n);
    NatBitsNat(v, n);
  }

  /** The first k of the n low-order bits are the k low-order bits. */
  lemma {:induction false} NatBitsPrefix(v: nat, k: nat, n: nat)
    requires k <= n
    ensures NatBits(v, n)[..k] == NatBits(v, k)
  {
    if k > 0 {
      NatBitsPrefix(v / 2, k - 1, n - 1);
      assert NatBits(v, n)[..k] == [v % 2 == 1] + NatBits(v / 2, n - 1)[..k - 1];
    }
  }

  /** A number below 2^k has no bits set from position k on. */
  lemma {:induction false} NatBitsHigh(v: nat, k: nat, n: nat)
    requires v < Pow2(k)
    ensures forall i :: k <= i < n ==> !NatBits(v, n)[i]
  {
    if n > 0 {
      if k == 0 {
        assert v == 0;
        NatBitsOfZero(n);
      } else {
        NatBitsHigh(v / 2, k - 1, n - 1);
        var tail := NatBits(v / 2, n - 1);
        assert forall i :: k <= i < n ==> NatBits(v, n)[i] == tail[i - 1];
      }
    }
  }

  lemma {:induction false} NatBitsOfZero(n: nat)
    ensures forall i :: 0 <= i < n ==> !NatBits(0, n)[i]
  {
    if n > 0 {
      NatBitsOfZero(n - 1);
      var tail := NatBits(0, n - 1);
      assert forall i :: 1 <= i < n ==> NatBits(0, n)[i] == tail[i - 1];
    }
  }

  /** Multiplying by 2^k puts k zero bits below the number's own bits. */
  lemma {:induction false} NatBitsShift(v: nat, k: nat, n: nat)
    requires k <= n
    ensures NatBits(v * Pow2(k), n) == seq(k, _ => false) + NatBits(v, n - k)
    decreases k
  {
    if k > 0 {
      var m := v * Pow2(k - 1);
      assert v * Pow2(k) == 2 * m;
      NatBitsShift(v, k - 1, n - 1);
      assert NatBits(2 * m, n) == [false] + NatBits(m, n - 1);
    }
  }

  /** The n low bits of 2^n - 1 are all set. */
  lemma {:induction false} NatBitsAllOnes(n: nat)
    ensures NatBits(Pow2(n) - 1, n) == seq(n, _ => true)
  {
    if n > 0 {
      NatBitsAllOnes(n - 1);
      assert (Pow2(n) - 1) / 2 == Pow2(n - 1) - 1;
    }
  }

  lemma {:induction false} Pow2Add(a: nat, b: nat)
    ensures Pow2(a + b) == Pow2(a) * Pow2(b)
    decreases a
  {
    if a > 0 {
      Pow2Add(a - 1, b);
    }
  }

  /** The arithmetic of one step of BitsNatAppend: prepending a bit doubles both sides. */
  lemma AppendStep(bit: nat, low: nat, rest: nat, p: nat, v: nat)
    requires rest == low + p * v
    ensures bit + 2 * rest == (bit + 2 * low) + (2 * p) * v
  {
    assert 2 * (p * v) == (2 * p) * v;
  }

  /** The bits of a followed by the bits of b denote a's number plus b's shifted up |a| places. */
  lemma {:induction false} BitsNatAppend(a: seq<bool>, b: seq<bool>)
    ensures BitsNat(a + b) == BitsNat(a) + Pow2(|a|) * BitsNat(b)
    decreases |a|
  {
    if |a| > 0 {
      var bit := if a[0] then 1 else 0;
      BitsNatAppend(a[1..], b);
      assert (a + b)[1..] == a[1..] + b;
      assert BitsNat(a + b) == bit + 2 * BitsNat(a[1..] + b);
      assert BitsNat(a) == bit + 2 * BitsNat(a[1..]);
      AppendStep(bit, BitsNat(a[1..]), BitsNat(a[1..] + b), Pow2(|a| - 1), BitsNat(b));
    } else {
      assert a + b == b;
    }
  }

  /** n set bits denote 2^n - 1, n clear bits denote 0. */
  lemma {:induction false} BitsNatRun(x: bool, n: nat)
    ensures BitsNat(seq(n, _ => x)) == if x then Pow2(n) - 1 else 0
    decreases n
  {
    if n > 0 {
      BitsNatRun(x, n - 1);
      assert seq(n, _ => x)[1..] == seq(n - 1, _ => x);
    }
  }

  /** Euclidean division by a positive d undoes multiplication by d, whatever is added below d. */
  lemma FloorDiv(l: int, d: int, s: int)
    requires 0 <= l < d
    ensures (l + d * s) / d == s
  {
    var n := l + d * s;
    var q := n / d;
    var r := n % d;
    assert n == d * q + r && 0 <= r < d;
    var e := q - s;
    assert d * q == d * s + d * e;
    assert l - r == d * e;
    assert e > 0 ==> d * e >= d;
    assert e < 0 ==> d * e <= -d;
  }

  lemma Pow2Values()
    ensures Pow2(3) == 8 && Pow2(4) == 16 && Pow2(7) == 128 && Pow2(8) == 256 && Pow2(11) == 2048
  {
  }
}
