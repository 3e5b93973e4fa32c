/**
 * Java `int` and `byte` arithmetic as the mnemonic codec uses it.
 *
 * A Java `int` is written as its 32 two's-complement bits, least significant
 * first, so that the operators the codec applies (`|`, `<<`, the arithmetic
 * `>>`, the masks `& 0x7FF` and `& 0xFF`, and the widening `(int) b` of a byte)
 * are stated bit by bit exactly as the Java Language Specification defines
 * them. A Java `byte` is held as its unsigned value 0..255; its sign bit is
 * bit 7, so it is negative in Java exactly when the value is 128 or more.
 */
module Words {
  import opened Bits

  /** A Java `byte`, as the unsigned value of its eight bits. */
  type Byte = b: nat | b < 256

  /** A Java `int`, as its 32 bits, least significant first. */
  type Word = w: seq<bool> | |w| == 32 witness Zeros(32)

  function Zeros(n: nat): (r: seq<bool>)
    ensures |r| == n
    ensures forall i :: 0 <= i < n ==> !r[i]
  {
    seq(n, _ => false)
  }

  /** No bit is set at position k or above. */
  predicate ClearFrom(x: Word, k: nat) {
    forall i :: k <= i < 32 ==> !x[i]
  }

  /** Java's `x | y`. */
  function Or(x: Word, y: Word): (r: Word)
    ensures forall i :: 0 <= i < 32 ==> r[i] == (x[i] || y[i])
  {
    seq(32, i requires 0 <= i < 32 => x[i] || y[i])
  }

  /** Java's `x << k` for a shift distance below 32: zeros come in at the bottom. */
  function Shl(x: Word, k: nat): (r: Word)
    requires k < 32
    ensures forall i :: 0 <= i < k ==> !r[i]
    ensures forall i :: k <= i < 32 ==> r[i] == x[i - k]
  {
    Zeros(k) + x[..32 - k]
  }

  /** Java's arithmetic `x >> k` for a shift distance below 32: the sign bit is copied in at the top. */
  function Sar(x: Word, k: nat): (r: Word)
    requires k < 32
    ensures forall i :: 0 <= i < 32 - k ==> r[i] == x[i + k]
    ensures forall i :: 32 - k <= i < 32 ==> r[i] == x[31]
  {
    x[k..] + seq(k, _ => x[31])
  }

  /** Java's `(int) b`: the byte's bit 7 is copied into bits 8 to 31. */
  function SignExtend(b: Byte): (r: Word)
    ensures r[..8] == NatBits(b, 8)
    ensures forall i :: 8 <= i < 32 ==> r[i] == (b >= 128)
  {
    NatBits(b, 8) + seq(24, _ => b >= 128)
  }

  /** Java's `b & 0xFF` on a byte: its eight bits, and zeros above. */
  function ZeroExtend(b: Byte): (r: Word)
    ensures r[..8] == NatBits(b, 8)
    ensures ClearFrom(r, 8)
  {
    NatBits(b, 8) + Zeros(24)
  }

  /** A non-negative Java `int` from its value, which is below 2^31. */
  function IntWord(v: nat): (r: Word)
    requires v < Pow2(31)
    ensures BitsNat(r) == v
    ensures !r[31]
  {
    NatBitsNat(v, 32);
    NatBitsHigh(v, 31, 32);
    NatBits(v, 32)
  }

  /** Java's `x & (2^k - 1)`, as the value of the k low bits. */
  function LowValue(x: Word, k: nat): (r: nat)
    requires k <= 32
    ensures r < Pow2(k)
  {
    BitsNat(x[..k])
  }
  // ---------------------------------------------------------------------------
  // The operators against Java's integer arithmetic

  /** The value of a Java `int`: its bits read in two's complement. */
  function SignedValue(x: Word): (r: int)
  {
    Signed(BitsNat(x), x[31])
  }

  /** The two's-complement reading of a 32-bit number whose sign bit is neg. */
  function Signed(v: int, neg: bool): (r: int)
  {
    v - (if neg then Pow2(32) else 0)
  }

  /** `(int) b` gives the byte's own signed value: b - 256 for a byte 0x80 or above. */
  lemma SignExtendValue(b: Byte)
    ensures SignedValue(SignExtend(b)) == if b >= 128 then b - 256 else b
  {
    SignExtendRaw(b);
    ExtendArith(BitsNat(SignExtend(b)), b, b >= 128);
  }

  /** What the bits say about `(int) b`: it denotes bx, the byte with 24 copies of its sign above it. */
  predicate ExtendFacts(bx: int, b: int, neg: bool) {
    Pow2(32) == 256 * Pow2(24) &&
    bx == b + 256 * (if neg then Pow2(24) - 1 else 0)
  }

  /** The bit-level facts of ExtendFacts hold of `(int) b`, and its sign bit is the byte's. */
  lemma SignExtendRaw(b: Byte)
    ensures SignExtend(b)[31] == (b >= 128)
    ensures ExtendFacts(BitsNat(SignExtend(b)), b, b >= 128)
  {
    var fill := seq(24, _ => b >= 128);
    assert SignExtend(b) == NatBits(b, 8) + fill;
    Pow2Values();
    Pow2Add(8, 24);
    BitsNatAppend(NatBits(b, 8), fill);
    NatBitsNat(b, 8);
    BitsNatRun(b >= 128, 24);
  }

  /** The arithmetic of SignExtendValue: 24 copies of the sign bit above the byte subtract 256 once the sign is read. */
  lemma ExtendArith(bx: int, b: int, neg: bool)
    requires ExtendFacts(bx, b, neg)
    ensures Signed(bx, neg) == if neg then b - 256 else b
  {
    FloorExtend(bx, b, Pow2(24), Pow2(32), neg);
  }

  /** ExtendArith with the powers of two as plain numbers: p24 = 2^24, big = 2^32. */
  lemma FloorExtend(bx: int, b: int, p24: int, big: int, neg: bool)
    requires big == 256 * p24
    requires bx == b + 256 * (if neg then p24 - 1 else 0)
    ensures bx - (if neg then big else 0) == if neg then b - 256 else b
  {
  }

  /**
   * What the bits say about `x >> k`: x denotes bx = l + 2^k·h, where l is its
   * k low bits and h the rest, and the shifted word denotes bs, which is h
   * with the sign copied into the top k bits.
   */
  predicate ShiftFacts(bx: int, bs: int, l: int, h: int, k: nat, neg: bool) {
    k < 32 && 0 <= l < Pow2(k) && Pow2(32) == Pow2(k) * Pow2(32 - k) &&
    bx == l + Pow2(k) * h &&
    bs == h + Pow2(32 - k) * (if neg then Pow2(k) - 1 else 0)
  }

  /** The arithmetic of SarValue: read as signed values, the shifted number is the first divided by 2^k. */
  lemma ShiftArith(bx: int, bs: int, l: int, h: int, k: nat, neg: bool)
    requires ShiftFacts(bx, bs, l, h, k, neg)
    ensures Signed(bs, neg) == Signed(bx, neg) / Pow2(k)
  {
    FloorShift(bx, bs, l, h, Pow2(k), Pow2(32 - k), Pow2(32), neg);
  }

  /** ShiftArith with the powers of two as plain numbers: pk = 2^k, pm = 2^(32-k), big = 2^32. */
  lemma FloorShift(bx: int, bs: int, l: int, h: int, pk: int, pm: int, big: int, neg: bool)
    requires 0 <= l < pk && pm >= 1 && big == pk * pm
    requires bx == l + pk * h
    requires bs == h + pm * (if neg then pk - 1 else 0)
    ensures bs - (if neg then big else 0) == (bx - (if neg then big else 0)) / pk
  {
    var s := bs - (if neg then big else 0);
    if neg {
      assert pm * (pk - 1) == pm * pk - pm;
      assert s == h - pm;
      assert bx - big == l + pk * s;
    }
    FloorDiv(l, pk, s);
  }

  /** The bit-level facts of ShiftFacts hold of a word and its arithmetic shift. */
  lemma SarFacts(x: Word, k: nat)
    requires k < 32
    ensures Sar(x, k)[31] == x[31]
    ensures ShiftFacts(BitsNat(x), BitsNat(Sar(x, k)), BitsNat(x[..k]), BitsNat(x[k..]), k, x[31])
  {
    Pow2Add(k, 32 - k);
    SplitValue(x, k);
    SarRawValue(x, k);
  }

  /**
   * Java's `x >> k` is division by 2^k rounded toward negative infinity, as the
   * Java Language Specification defines it (Dafny's `/` by a positive number
   * rounds the same way).
   */
  lemma SarValue(x: Word, k: nat)
    requires k < 32
    ensures SignedValue(Sar(x, k)) == SignedValue(x) / Pow2(k)
  {
    SarFacts(x, k);
    ShiftArith(BitsNat(x), BitsNat(Sar(x, k)), BitsNat(x[..k]), BitsNat(x[k..]), k, x[31]);
  }

  /** A word's number is that of its k low bits plus 2^k times that of the rest. */
  lemma SplitValue(x: Word, k: nat)
    requires k < 32
    ensures BitsNat(x) == BitsNat(x[..k]) + Pow2(k) * BitsNat(x[k..])
  {
    assert x == x[..k] + x[k..];
    BitsNatAppend(x[..k], x[k..]);
  }

  /** The number `x >> k` denotes: the bits above k, with k copies of the sign bit on top. */
  lemma SarRawValue(x: Word, k: nat)
    requires k < 32
    ensures Sar(x, k)[31] == x[31]
    ensures BitsNat(Sar(x, k)) == BitsNat(x[k..]) + Pow2(32 - k) * (if x[31] then Pow2(k) - 1 else 0)
  {
    var fill := seq(k, _ => x[31]);
    assert Sar(x, k) == x[k..] + fill;
    BitsNatAppend(x[k..], fill);
    BitsNatRun(x[31], k);
  }
}
