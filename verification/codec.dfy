/**
 * The entropy codec of the legacy Hedera mnemonic: 33 bytes (32 bytes of entropy
 * and one checksum byte) cut into 24 eleven-bit word indices and back.
 *
 * Both directions run a rolling accumulator over a Java `int`: `offset` low
 * bits of `scratch` are pending, least significant first. Their meaning is
 * stated against bit strings: the encoder and the decoder each preserve the
 * string of bits fed in, which gives the round trips.
 */
module Codec {
  import opened Bits
  import opened Words

  /** An eleven-bit word index, a position in the 2048-word list. */
  type WordIndex = x: nat | x < 2048

  /**
   * How an entropy byte is widened to an `int` before it is shifted into the
   * accumulator: `SignExtended` is Java's `(int) b`; `ZeroExtended` is `b & 0xFF`.
   */
  datatype Widening = SignExtended | ZeroExtended

  function Widen(w: Widening, b: Byte): (r: Word)
    ensures r[..8] == NatBits(b, 8)
  {
    match w
    case SignExtended => SignExtend(b)
    case ZeroExtended => ZeroExtend(b)
  }

  /** The widened byte has no bits above bit 7, so it cannot disturb the accumulator's later bits. */
  predicate Clean(w: Widening, b: Byte) {
    ClearFrom(Widen(w, b), 8)
  }

  /** Only a negative byte, widened with sign extension, is unclean. */
  lemma CleanIff(w: Widening, b: Byte)
    ensures Clean(w, b) <==> (w == ZeroExtended || b < 128)
  {
    if w == SignExtended && b >= 128 {
      assert Widen(w, b)[8];
    }
  }

  // ---------------------------------------------------------------------------
  // The accumulator

  /** The rolling bit accumulator: the `offset` low bits of `scratch` are pending. */
  datatype Accumulator = Accumulator(scratch: Word, offset: nat)

  const Empty := Accumulator(Zeros(32), 0)

  /** No bits are set above the pending ones. */
  predicate Settled(acc: Accumulator) {
    acc.offset <= 32 && ClearFrom(acc.scratch, acc.offset)
  }

  /** The pending bits, least significant first. */
  function Pending(acc: Accumulator): (r: seq<bool>)
    requires acc.offset <= 32
    ensures |r| == acc.offset
  {
    acc.scratch[..acc.offset]
  }

  /** `scratch |= ((int) b) << offset; offset += 8;` */
  function Feed(w: Widening, b: Byte, acc: Accumulator): (r: Accumulator)
    requires acc.offset <= 10
    ensures r.offset == acc.offset + 8
  {
    Accumulator(Or(acc.scratch, Shl(Widen(w, b), acc.offset)), acc.offset + 8)
  }

  /** `scratch |= index << offset; offset += 11;` */
  function Put(idx: WordIndex, acc: Accumulator): (r: Accumulator)
    requires acc.offset <= 7
    ensures r.offset == acc.offset + 11
  {
    Pow2Values();
    Accumulator(Or(acc.scratch, Shl(IntWord(idx), acc.offset)), acc.offset + 11)
  }

  /** `scratch >>= k; offset -= k;` */
  function Shed(acc: Accumulator, k: nat): (r: Accumulator)
    requires k <= acc.offset && k < 32
    ensures r.offset == acc.offset - k
  {
    Accumulator(Sar(acc.scratch, k), acc.offset - k)
  }

  /** `scratch & 0x7FF`: the index held in the low eleven bits. */
  function IndexOf(x: Word): (r: WordIndex)
  {
    Pow2Values();
    LowValue(x, 11)
  }

  /** `(byte) (scratch & 0xFF)`: the byte held in the low eight bits. */
  function ByteOf(x: Word): (r: Byte)
  {
    Pow2Values();
    LowValue(x, 8)
  }

  /** OR-ing v, shifted to o, into a word clear from o on appends v's low bits to the word's. */
  lemma Deposit(x: Word, v: Word, o: nat, n: nat)
    requires o + n <= 32 && o < 32
    requires ClearFrom(x, o)
    ensures Or(x, Shl(v, o))[..o + n] == x[..o] + v[..n]
    ensures ClearFrom(v, n) ==> ClearFrom(Or(x, Shl(v, o)), o + n)
  {
    var r := Or(x, Shl(v, o));
    assert forall i :: 0 <= i < o ==> r[i] == x[i];
    assert forall i :: o <= i < o + n ==> r[i] == v[i - o];
  }

  /** Shifting a word right by k splits its low o bits at k. */
  lemma Withdraw(x: Word, k: nat, o: nat)
    requires k <= o < 32
    ensures x[..o] == x[..k] + Sar(x, k)[..o - k]
    ensures ClearFrom(x, o) ==> ClearFrom(Sar(x, k), o - k)
  {
    var r := Sar(x, k);
    assert forall i :: 0 <= i < o - k ==> r[i] == x[i + k];
  }

  lemma FeedBits(w: Widening, b: Byte, acc: Accumulator)
    requires acc.offset <= 10 && Settled(acc)
    ensures Pending(Feed(w, b, acc)) == Pending(acc) + NatBits(b, 8)
    ensures Clean(w, b) <==> Settled(Feed(w, b, acc))
  {
    Deposit(acc.scratch, Widen(w, b), acc.offset, 8);
    if !Clean(w, b) {
      CleanIff(w, b);
      assert Shl(Widen(w, b), acc.offset)[acc.offset + 8] == Widen(w, b)[8];
    }
  }

  lemma PutBits(idx: WordIndex, acc: Accumulator)
    requires acc.offset <= 7 && Settled(acc)
    ensures Pending(Put(idx, acc)) == Pending(acc) + NatBits(idx, 11)
    ensures Settled(Put(idx, acc))
  {
    Pow2Values();
    var v := IntWord(idx);
    NatBitsPrefix(idx, 11, 32);
    NatBitsHigh(idx, 11, 32);
    Deposit(acc.scratch, v, acc.offset, 11);
  }

  lemma ShedIndexBits(acc: Accumulator)
    requires 11 <= acc.offset < 32
    ensures Pending(acc) == NatBits(IndexOf(acc.scratch), 11) + Pending(Shed(acc, 11))
    ensures Settled(acc) ==> Settled(Shed(acc, 11))
  {
    Withdraw(acc.scratch, 11, acc.offset);
    BitsNatBits(acc.scratch[..11]);
  }

  lemma ShedByteBits(acc: Accumulator)
    requires 8 <= acc.offset < 32
    ensures Pending(acc) == NatBits(ByteOf(acc.scratch), 8) + Pending(Shed(acc, 8))
    ensures Settled(acc) ==> Settled(Shed(acc, 8))
  {
    Withdraw(acc.scratch, 8, acc.offset);
    BitsNatBits(acc.scratch[..8]);
  }

  // ---------------------------------------------------------------------------
  // Bit strings of index and byte sequences

  /** The bits of a sequence of word indices, eleven per index, least significant first. */
  function IndicesBits(indices: seq<WordIndex>): (r: seq<bool>)
    ensures |r| == 11 * |indices|
  {
    if |indices| == 0 then [] else NatBits(indices[0], 11) + IndicesBits(indices[1..])
  }

  /** The bits of a sequence of bytes, eight per byte, least significant first. */
  function BytesBits(bytes: seq<Byte>): (r: seq<bool>)
    ensures |r| == 8 * |bytes|
  {
    if |bytes| == 0 then [] else NatBits(bytes[0], 8) + BytesBits(bytes[1..])
  }

  lemma {:induction false} BytesBitsAppend(a: seq<Byte>, b: seq<Byte>)
    ensures BytesBits(a + b) == BytesBits(a) + BytesBits(b)
    decreases |a|
  {
    if |a| == 0 {
      assert a + b == b;
    } else {
      BytesBitsAppend(a[1..], b);
      var ab := a + b;
      assert ab[0] == a[0] && ab[1..] == a[1..] + b;
      assert BytesBits(ab) == NatBits(a[0], 8) + BytesBits(a[1..] + b);
      AppendAssoc(NatBits(a[0], 8), BytesBits(a[1..]), BytesBits(b));
    }
  }


  /** Byte sequences of one length with the same bits are equal. */
  lemma {:induction false} BytesBitsInjective(a: seq<Byte>, b: seq<Byte>)
    requires |a| == |b| && BytesBits(a) == BytesBits(b)
    ensures a == b
    decreases |a|
  {
    if |a| > 0 {
      var ba, bb := BytesBits(a), BytesBits(b);
      assert ba[..8] == NatBits(a[0], 8) && ba[8..] == BytesBits(a[1..]);
      assert bb[..8] == NatBits(b[0], 8) && bb[8..] == BytesBits(b[1..]);
      Pow2Values();
      NatBitsInjective(a[0], b[0], 8);
      BytesBitsInjective(a[1..], b[1..]);
      assert a == [a[0]] + a[1..] && b == [b[0]] + b[1..];
    }
  }

  /** Index sequences of one length with the same bits are equal. */
  lemma {:induction false} IndicesBitsInjective(a: seq<WordIndex>, b: seq<WordIndex>)
    requires |a| == |b| && IndicesBits(a) == IndicesBits(b)
    ensures a == b
    decreases |a|
  {
    if |a| > 0 {
      var ba, bb := IndicesBits(a), IndicesBits(b);
      assert ba[..11] == NatBits(a[0], 11) && ba[11..] == IndicesBits(a[1..]);
      assert bb[..11] == NatBits(b[0], 11) && bb[11..] == IndicesBits(b[1..]);
      Pow2Values();
      NatBitsInjective(a[0], b[0], 11);
      IndicesBitsInjective(a[1..], b[1..]);
      assert a == [a[0]] + a[1..] && b == [b[0]] + b[1..];
    }
  }

  lemma AppendAssoc<T>(a: seq<T>, b: seq<T>, c: seq<T>)
    ensures a + (b + c) == (a + b) + c
  {
  }

  lemma Regroup<T>(i: seq<T>, r: seq<T>, f: seq<T>, n: seq<T>, t: seq<T>, p: seq<T>, b: seq<T>)
    requires r + f == n + t
    requires i + n == p + b
    ensures (i + r) + f == p + (b + t)
  {
    AppendAssoc(i, r, f);
    AppendAssoc(i, n, t);
    AppendAssoc(p, b, t);
  }

  lemma Regroup2<T>(r: seq<T>, f: seq<T>, n: seq<T>, t: seq<T>, p: seq<T>, b: seq<T>)
    requires r + f == n + t
    requires n == p + b
    ensures r + f == p + (b + t)
  {
    AppendAssoc(p, b, t);
  }

  // ---------------------------------------------------------------------------
  // Encoder: bytes in, eleven-bit indices out

  /** What a pass of the accumulator emitted, and the accumulator it left behind. */
  datatype Run<T> = Run(out: seq<T>, acc: Accumulator)

  /**
   * The loop of `entropyToWords` from the given accumulator on: each byte is
   * widened, shifted to `offset` and OR-ed in; whenever eleven bits are pending
   * the low eleven are emitted and the accumulator is shifted (arithmetically)
   * down by eleven.
   */
  function EncodeFrom(w: Widening, bytes: seq<Byte>, acc: Accumulator): (r: Run<WordIndex>)
    requires acc.offset <= 10
    ensures r.acc.offset <= 10
    decreases |bytes|
  {
    if |bytes| == 0 then Run([], acc)
    else
      var fed := Feed(w, bytes[0], acc);
      if fed.offset >= 11 then
        var rest := EncodeFrom(w, bytes[1..], Shed(fed, 11));
        Run([IndexOf(fed.scratch)] + rest.out, rest.acc)
      else
        EncodeFrom(w, bytes[1..], fed)
  }

  /** One step of the encoder loop that emits no index. */
  lemma EncodeHolds(w: Widening, bytes: seq<Byte>, acc: Accumulator)
    requires |bytes| > 0 && acc.offset <= 10 && acc.offset + 8 < 11
    ensures EncodeFrom(w, bytes, acc) == EncodeFrom(w, bytes[1..], Feed(w, bytes[0], acc))
  {
  }

  /** One step of the encoder loop that emits an index. */
  lemma EncodeEmits(w: Widening, bytes: seq<Byte>, acc: Accumulator)
    requires |bytes| > 0 && acc.offset <= 10 && acc.offset + 8 >= 11
    ensures var fed := Feed(w, bytes[0], acc);
      var rest := EncodeFrom(w, bytes[1..], Shed(fed, 11));
      EncodeFrom(w, bytes, acc) == Run([IndexOf(fed.scratch)] + rest.out, rest.acc)
  {
  }

  /** The 33-byte buffer (entropy and checksum) as 24 word indices. */
  function EncodeIndices(w: Widening, buffer: seq<Byte>): (r: seq<WordIndex>)
    requires |buffer| == 33
    ensures |r| == 24
  {
    EncodeCounts(w, buffer, Empty);
    EncodeFrom(w, buffer, Empty).out
  }

  /** The encoder emits one index per eleven bits fed and keeps the remainder pending. */
  lemma {:induction false} EncodeCounts(w: Widening, bytes: seq<Byte>, acc: Accumulator)
    requires acc.offset <= 10
    ensures var r := EncodeFrom(w, bytes, acc);
      11 * |r.out| + r.acc.offset == acc.offset + 8 * |bytes|
    decreases |bytes|
  {
    if |bytes| > 0 {
      var fed := Feed(w, bytes[0], acc);
      if fed.offset >= 11 {
        EncodeEmits(w, bytes, acc);
        EncodeCounts(w, bytes[1..], Shed(fed, 11));
      } else {
        EncodeHolds(w, bytes, acc);
        EncodeCounts(w, bytes[1..], fed);
      }
    }
  }

  /** Every byte but the last one widens cleanly. */
  predicate CleanButLast(w: Widening, bytes: seq<Byte>) {
    forall i :: 0 <= i < |bytes| - 1 ==> Clean(w, bytes[i])
  }

  /**
   * Loop invariant of `entropyToWords`: the bits emitted so far followed by the
   * bits pending in the accumulator are the bits fed in, provided every byte
   * but the last one widened cleanly.
   */
  lemma {:induction false} EncodeKeepsBits(w: Widening, bytes: seq<Byte>, acc: Accumulator)
    requires acc.offset <= 10
    requires |bytes| > 0 ==> Settled(acc)
    requires CleanButLast(w, bytes)
    ensures var r := EncodeFrom(w, bytes, acc);
      IndicesBits(r.out) + Pending(r.acc) == Pending(acc) + BytesBits(bytes)
    decreases |bytes|
  {
    if |bytes| > 0 {
      var b, tail := bytes[0], bytes[1..];
      var fed := Feed(w, b, acc);
      FeedBits(w, b, acc);
      assert CleanButLast(w, tail) by {
        forall i | 0 <= i < |tail| - 1 ensures Clean(w, tail[i]) {
          assert tail[i] == bytes[i + 1];
        }
      }
      if |tail| > 0 {
        assert Clean(w, bytes[0]);
      }
      assert BytesBits(bytes) == NatBits(b, 8) + BytesBits(tail);
      if fed.offset >= 11 {
        var next := Shed(fed, 11);
        ShedIndexBits(fed);
        EncodeKeepsBits(w, tail, next);
        var rest := EncodeFrom(w, tail, next);
        var idx := IndexOf(fed.scratch);
        assert EncodeFrom(w, bytes, acc) == Run([idx] + rest.out, rest.acc);
        assert IndicesBits([idx] + rest.out) == NatBits(idx, 11) + IndicesBits(rest.out) by {
          assert ([idx] + rest.out)[1..] == rest.out;
        }
        Regroup(NatBits(idx, 11), IndicesBits(rest.out), Pending(rest.acc), Pending(next), BytesBits(tail),
                Pending(acc), NatBits(b, 8));
      } else {
        EncodeKeepsBits(w, tail, fed);
        var rest := EncodeFrom(w, tail, fed);
        assert EncodeFrom(w, bytes, acc) == rest;
        Regroup2(IndicesBits(rest.out), Pending(rest.acc), Pending(fed), BytesBits(tail),
                 Pending(acc), NatBits(b, 8));
      }
    }
  }

  // ---------------------------------------------------------------------------
  // Decoder: eleven-bit indices in, bytes out

  /** The inner `while (offset >= 8)` loop of `wordsToEntropyAndChecksum`: emit whole pending bytes. */
  function Drain(acc: Accumulator): (r: Run<Byte>)
    requires acc.offset <= 18
    ensures 8 * |r.out| + r.acc.offset == acc.offset && r.acc.offset < 8
    decreases acc.offset
  {
    if acc.offset >= 8 then
      var rest := Drain(Shed(acc, 8));
      Run([ByteOf(acc.scratch)] + rest.out, rest.acc)
    else
      Run([], acc)
  }

  /** The outer loop of `wordsToEntropyAndChecksum` from the given accumulator on. */
  function DecodeFrom(indices: seq<WordIndex>, acc: Accumulator): (r: Run<Byte>)
    requires acc.offset <= 7
    ensures r.acc.offset <= 7
    decreases |indices|
  {
    if |indices| == 0 then Run([], acc)
    else
      var drained := Drain(Put(indices[0], acc));
      var rest := DecodeFrom(indices[1..], drained.acc);
      Run(drained.out + rest.out, rest.acc)
  }

  /** 24 word indices as the 33-byte buffer; exactly 33 bytes are put, so the buffer never overflows. */
  function DecodeIndices(indices: seq<WordIndex>): (r: seq<Byte>)
    requires |indices| == 24
    ensures |r| == 33
  {
    DecodeCounts(indices, Empty);
    DecodeFrom(indices, Empty).out
  }

  /** The decoder emits one byte per eight bits put and keeps the remainder pending. */
  lemma {:induction false} DecodeCounts(indices: seq<WordIndex>, acc: Accumulator)
    requires acc.offset <= 7
    ensures var r := DecodeFrom(indices, acc);
      8 * |r.out| + r.acc.offset == acc.offset + 11 * |indices|
    decreases |indices|
  {
    if |indices| > 0 {
      DecodeCounts(indices[1..], Drain(Put(indices[0], acc)).acc);
    }
  }

  /** Loop invariant of the inner decoder loop: the emitted bytes followed by what is pending are what was pending. */
  lemma {:induction false} DrainKeepsBits(acc: Accumulator)
    requires acc.offset <= 18 && Settled(acc)
    ensures var r := Drain(acc);
      BytesBits(r.out) + Pending(r.acc) == Pending(acc) && Settled(r.acc)
    decreases acc.offset
  {
    if acc.offset >= 8 {
      var next := Shed(acc, 8);
      ShedByteBits(acc);
      DrainKeepsBits(next);
      var rest := Drain(next);
      var byte := ByteOf(acc.scratch);
      assert BytesBits([byte] + rest.out) == NatBits(byte, 8) + BytesBits(rest.out) by {
        assert ([byte] + rest.out)[1..] == rest.out;
      }
    }
  }

  /** Loop invariant of `wordsToEntropyAndChecksum`: the emitted bytes followed by the pending bits are the index bits fed in. */
  lemma {:induction false} DecodeKeepsBits(indices: seq<WordIndex>, acc: Accumulator)
    requires acc.offset <= 7 && Settled(acc)
    ensures var r := DecodeFrom(indices, acc);
      BytesBits(r.out) + Pending(r.acc) == Pending(acc) + IndicesBits(indices) && Settled(r.acc)
    decreases |indices|
  {
    if |indices| > 0 {
      var put := Put(indices[0], acc);
      PutBits(indices[0], acc);
      DrainKeepsBits(put);
      var drained := Drain(put);
      DecodeKeepsBits(indices[1..], drained.acc);
      var rest := DecodeFrom(indices[1..], drained.acc);
      assert DecodeFrom(indices, acc) == Run(drained.out + rest.out, rest.acc);
      assert IndicesBits(indices) == NatBits(indices[0], 11) + IndicesBits(indices[1..]);
      BytesBitsAppend(drained.out, rest.out);
      Regroup(BytesBits(drained.out), BytesBits(rest.out), Pending(rest.acc), Pending(drained.acc),
              IndicesBits(indices[1..]), Pending(acc), NatBits(indices[0], 11));
    }
  }

  // ---------------------------------------------------------------------------
  // The codec as a whole

  /** The bytes a bit string holds, eight bits each, least significant first. */
  function BitsBytes(bits: seq<bool>): (r: seq<Byte>)
    requires |bits| % 8 == 0
    ensures |r| == |bits| / 8
  {
    seq(|bits| / 8, j requires 0 <= j < |bits| / 8 => ByteValue(bits[8 * j..8 * j + 8]))
  }

  function ByteValue(bits: seq<bool>): (r: Byte)
    requires |bits| == 8
  {
    Pow2Values();
    BitsNat(bits)
  }

  /** Byte j of a byte sequence occupies bits 8j to 8j+7 of its bit string. */
  lemma {:induction false} BytesBitsSlice(bytes: seq<Byte>, j: nat)
    requires j < |bytes|
    ensures BytesBits(bytes)[8 * j..8 * j + 8] == NatBits(bytes[j], 8)
    decreases j
  {
    if j > 0 {
      BytesBitsSlice(bytes[1..], j - 1);
      assert BytesBits(bytes)[8..] == BytesBits(bytes[1..]);
      assert BytesBits(bytes)[8 * j..8 * j + 8] == BytesBits(bytes)[8..][8 * (j - 1)..8 * (j - 1) + 8];
    }
  }

  lemma ByteValueOfBits(b: Byte)
    ensures ByteValue(NatBits(b, 8)) == b
  {
    Pow2Values();
    NatBitsNat(b, 8);
  }

  /** Reading back the bit string of a byte sequence gives the byte sequence. */
  lemma BitsBytesOfBytes(bytes: seq<Byte>)
    ensures BitsBytes(BytesBits(bytes)) == bytes
  {
    var bits := BytesBits(bytes);
    var r := BitsBytes(bits);
    forall j | 0 <= j < |bytes| ensures r[j] == bytes[j] {
      assert r[j] == ByteValue(bits[8 * j..8 * j + 8]);
      BytesBitsSlice(bytes, j);
      ByteValueOfBits(bytes[j]);
    }
  }

  /** After the 33 bytes the encoder has emitted 24 indices and has no bit pending. */
  lemma EncodeFinalOffset(w: Widening, buffer: seq<Byte>)
    requires |buffer| == 33
    ensures var r := EncodeFrom(w, buffer, Empty); |r.out| == 24 && r.acc.offset == 0
  {
    EncodeCounts(w, buffer, Empty);
    var r := EncodeFrom(w, buffer, Empty);
    assert |r.out| == |EncodeIndices(w, buffer)| == 24;
  }

  /** After the 24 indices the decoder has emitted 33 bytes and has no bit pending. */
  lemma DecodeFinalOffset(indices: seq<WordIndex>)
    requires |indices| == 24
    ensures var r := DecodeFrom(indices, Empty); |r.out| == 33 && r.acc.offset == 0
  {
    DecodeCounts(indices, Empty);
    var r := DecodeFrom(indices, Empty);
    assert |r.out| == |DecodeIndices(indices)| == 33;
  }

  /** The encoder emits exactly the bits of the buffer when every byte but the last widens cleanly. */
  lemma EncodeMatchesBits(w: Widening, buffer: seq<Byte>)
    requires |buffer| == 33 && CleanButLast(w, buffer)
    ensures IndicesBits(EncodeIndices(w, buffer)) == BytesBits(buffer)
  {
    assert Settled(Empty);
    EncodeKeepsBits(w, buffer, Empty);
    EncodeFinalOffset(w, buffer);
    var r := EncodeFrom(w, buffer, Empty);
    var emitted := IndicesBits(r.out);
    assert emitted + Pending(r.acc) == emitted;
    assert Pending(Empty) + BytesBits(buffer) == BytesBits(buffer);
  }

  /** The decoder emits exactly the bits of the 24 indices; nothing is left pending. */
  lemma DecodeMatchesBits(indices: seq<WordIndex>)
    requires |indices| == 24
    ensures BytesBits(DecodeIndices(indices)) == IndicesBits(indices)
  {
    assert Settled(Empty);
    DecodeKeepsBits(indices, Empty);
    DecodeFinalOffset(indices);
    var r := DecodeFrom(indices, Empty);
    var emitted := BytesBits(r.out);
    assert emitted + Pending(r.acc) == emitted;
    assert Pending(Empty) + IndicesBits(indices) == IndicesBits(indices);
  }

  /** Decoded byte j is the number held in bits 8j to 8j+7 of the 264 index bits. */
  lemma DecodeReadsBits(indices: seq<WordIndex>)
    requires |indices| == 24
    ensures DecodeIndices(indices) == BitsBytes(IndicesBits(indices))
  {
    DecodeMatchesBits(indices);
    BitsBytesOfBytes(DecodeIndices(indices));
  }

  /** Decoding the encoding of a buffer gives the buffer back when every byte but the last widens cleanly. */
  lemma DecodeEncode(w: Widening, buffer: seq<Byte>)
    requires |buffer| == 33 && CleanButLast(w, buffer)
    ensures DecodeIndices(EncodeIndices(w, buffer)) == buffer
  {
    var indices := EncodeIndices(w, buffer);
    EncodeMatchesBits(w, buffer);
    DecodeMatchesBits(indices);
    BytesBitsInjective(DecodeIndices(indices), buffer);
  }

  /** With zero extension every byte widens cleanly, so the round trip holds for every buffer. */
  lemma DecodeEncodeZeroExtended(buffer: seq<Byte>)
    requires |buffer| == 33
    ensures DecodeIndices(EncodeIndices(ZeroExtended, buffer)) == buffer
  {
    forall i | 0 <= i < |buffer| - 1 ensures Clean(ZeroExtended, buffer[i]) {
      CleanIff(ZeroExtended, buffer[i]);
    }
    DecodeEncode(ZeroExtended, buffer);
  }

  /** Encoding (with zero extension) the decoding of 24 indices gives the indices back. */
  lemma EncodeDecode(indices: seq<WordIndex>)
    requires |indices| == 24
    ensures EncodeIndices(ZeroExtended, DecodeIndices(indices)) == indices
  {
    var buffer := DecodeIndices(indices);
    forall i | 0 <= i < |buffer| - 1 ensures Clean(ZeroExtended, buffer[i]) {
      CleanIff(ZeroExtended, buffer[i]);
    }
    EncodeMatchesBits(ZeroExtended, buffer);
    DecodeMatchesBits(indices);
    IndicesBitsInjective(EncodeIndices(ZeroExtended, buffer), indices);
  }

  lemma {:induction false} IndicesBitsAppend(a: seq<WordIndex>, b: seq<WordIndex>)
    ensures IndicesBits(a + b) == IndicesBits(a) + IndicesBits(b)
    decreases |a|
  {
    if |a| == 0 {
      assert a + b == b;
    } else {
      IndicesBitsAppend(a[1..], b);
      var ab := a + b;
      assert ab[0] == a[0] && ab[1..] == a[1..] + b;
      assert IndicesBits(ab) == NatBits(a[0], 11) + IndicesBits(a[1..] + b);
      AppendAssoc(NatBits(a[0], 11), IndicesBits(a[1..]), IndicesBits(b));
    }
  }

  lemma {:induction false} BytesBitsOfZeros(n: nat)
    ensures BytesBits(seq(n, _ => 0)) == seq(8 * n, _ => false)
  {
    if n > 0 {
      BytesBitsOfZeros(n - 1);
      NatBitsOfZero(8);
      assert seq(n, _ => 0 as Byte)[1..] == seq(n - 1, _ => 0);
    }
  }

  lemma {:induction false} IndicesBitsOfZeros(n: nat)
    ensures IndicesBits(seq(n, _ => 0)) == seq(11 * n, _ => false)
  {
    if n > 0 {
      IndicesBitsOfZeros(n - 1);
      NatBitsOfZero(11);
      assert seq(n, _ => 0 as WordIndex)[1..] == seq(n - 1, _ => 0);
    }
  }

  /** Every index 0x7FF: every bit set. */
  lemma {:induction false} IndicesBitsOfMax(n: nat)
    ensures IndicesBits(seq(n, _ => 2047)) == seq(11 * n, _ => true)
  {
    if n > 0 {
      IndicesBitsOfMax(n - 1);
      Pow2Values();
      NatBitsAllOnes(11);
      assert seq(n, _ => 2047 as WordIndex)[1..] == seq(n - 1, _ => 2047);
    }
  }

  // ---------------------------------------------------------------------------
  // Worked examples

  /**
   * All-zero entropy with checksum byte c encodes, under either widening, as
   * 23 zero indices followed by c shifted up three bits.
   */
  lemma ZeroEntropyIndices(w: Widening, c: Byte)
    ensures EncodeIndices(w, seq(32, _ => 0) + [c]) == seq(23, _ => 0) + [c * 8]
  {
    var buffer := seq(32, _ => 0) + [c];
    var expected := ZeroEntropyExpected(c);
    ZeroEntropyClean(w, c);
    EncodeMatchesBits(w, buffer);
    ZeroEntropyBits(c);
    IndicesBitsInjective(EncodeIndices(w, buffer), expected);
  }

  /** The indices all-zero entropy with checksum byte c should give: 23 zeros, then c shifted up three bits. */
  function ZeroEntropyExpected(c: Byte): (r: seq<WordIndex>)
  {
    seq(23, _ => 0) + [c * 8]
  }

  /** Zero bytes are clean under either widening. */
  lemma ZeroEntropyClean(w: Widening, c: Byte)
    ensures CleanButLast(w, seq(32, _ => 0) + [c])
  {
    var buffer: seq<Byte> := seq(32, _ => 0) + [c];
    forall i | 0 <= i < |buffer| - 1 ensures Clean(w, buffer[i]) {
      assert buffer[i] == 0;
      CleanIff(w, buffer[i]);
    }
  }

  /** The bits of the zero-entropy buffer are the bits of 23 zero indices and the shifted checksum. */
  lemma ZeroEntropyBits(c: Byte)
    ensures BytesBits(seq(32, _ => 0) + [c]) == IndicesBits(ZeroEntropyExpected(c))
  {
    var zeros: seq<Byte> := seq(32, _ => 0);
    Pow2Values();
    var last: WordIndex := c * 8;
    assert BytesBits(zeros + [c]) == seq(256, _ => false) + NatBits(c, 8) by {
      BytesBitsAppend(zeros, [c]);
      BytesBitsOfZeros(32);
      assert BytesBits([c]) == NatBits(c, 8);
    }
    assert IndicesBits(ZeroEntropyExpected(c)) == seq(253, _ => false) + (seq(3, _ => false) + NatBits(c, 8)) by {
      IndicesBitsAppend(seq(23, _ => 0), [last]);
      IndicesBitsOfZeros(23);
      assert IndicesBits([last]) == NatBits(last, 11);
      NatBitsShift(c, 3, 11);
    }
    AppendAssoc(seq(253, _ => false), seq(3, _ => false), NatBits(c, 8));
    Repeat(false, 253, 3);
  }

  /** An accumulator word with every bit set: what a negative byte's sign extension leaves behind. */
  const Flooded: Word := seq(32, _ => true)

  lemma FloodedIndex()
    ensures IndexOf(Flooded) == 2047
  {
    Pow2Values();
    NatBitsAllOnes(11);
    assert Flooded[..11] == NatBits(2047, 11);
    NatBitsNat(2047, 11);
  }

  /** The arithmetic shift copies the set sign bit back in: a flooded accumulator stays flooded. */
  lemma FloodedShed(offset: nat)
    requires 11 <= offset < 32
    ensures Shed(Accumulator(Flooded, offset), 11) == Accumulator(Flooded, offset - 11)
  {
    assert Sar(Flooded, 11) == Flooded;
  }

  /**
   * Once every bit of the accumulator is set, OR-ing in further bytes changes
   * nothing and the arithmetic shift copies the set sign bit back in, so every
   * later index is 0x7FF, whatever the bytes are.
   */
  lemma {:induction false} FloodPersists(w: Widening, bytes: seq<Byte>, offset: nat)
    requires offset <= 10
    ensures var r := EncodeFrom(w, bytes, Accumulator(Flooded, offset));
      r.acc.scratch == Flooded && r.out == seq(|r.out|, _ => 2047)
    decreases |bytes|
  {
    if |bytes| > 0 {
      if offset + 8 >= 11 {
        FloodedEmits(w, bytes, offset);
        FloodPersists(w, bytes[1..], offset + 8 - 11);
        var rest := EncodeFrom(w, bytes[1..], Accumulator(Flooded, offset + 8 - 11));
        Repeat(2047, 1, |rest.out|);
        assert [2047] == seq(1, _ => 2047);
      } else {
        FeedFlooded(w, bytes[0], offset);
        EncodeHolds(w, bytes, Accumulator(Flooded, offset));
        FloodPersists(w, bytes[1..], offset + 8);
      }
    }
  }

  /** A step from a flooded accumulator that emits: the index is 0x7FF and the accumulator stays flooded. */
  lemma FloodedEmits(w: Widening, bytes: seq<Byte>, offset: nat)
    requires |bytes| > 0 && offset <= 10 && offset + 8 >= 11
    ensures var rest := EncodeFrom(w, bytes[1..], Accumulator(Flooded, offset + 8 - 11));
      EncodeFrom(w, bytes, Accumulator(Flooded, offset)) == Run([2047] + rest.out, rest.acc)
  {
    FeedFlooded(w, bytes[0], offset);
    EncodeEmits(w, bytes, Accumulator(Flooded, offset));
    FloodedIndex();
    FloodedShed(offset + 8);
  }

  lemma FeedFlooded(w: Widening, b: Byte, offset: nat)
    requires offset <= 10
    ensures Feed(w, b, Accumulator(Flooded, offset)) == Accumulator(Flooded, offset + 8)
  {
    assert Or(Flooded, Shl(Widen(w, b), offset)) == Flooded;
  }

  /** The accumulator after the byte 0x80 is sign-extended into it: bits 7 to 31 set. */
  const Signed128: Word := seq(32, i => i >= 7)

  lemma FeedSigned128()
    ensures Feed(SignExtended, 128, Empty) == Accumulator(Signed128, 8)
    ensures Feed(SignExtended, 0, Accumulator(Signed128, 8)) == Accumulator(Signed128, 16)
  {
    Pow2Values();
    assert SignExtend(128)[..8] == NatBits(128, 8);
    NatBitsShift(1, 7, 8);
    assert NatBits(1, 1) == [true];
    assert Shl(SignExtend(128), 0) == Signed128;
    NatBitsOfZero(8);
    assert Or(Signed128, Shl(SignExtend(0), 8)) == Signed128;
  }

  lemma Signed128Index()
    ensures IndexOf(Signed128) == 1920
    ensures Sar(Signed128, 11) == Flooded
  {
    Pow2Values();
    NatBitsShift(15, 7, 11);
    NatBitsAllOnes(4);
    assert Signed128[..11] == NatBits(1920, 11);
    NatBitsNat(1920, 11);
  }

  /**
   * Java's `(int) b` on the negative byte 0x80 sets bits 8 to 31 of the
   * accumulator: the first index is 0x780 and every later one is 0x7FF,
   * whatever the checksum byte is.
   */
  lemma SignExtensionFloods(c: Byte)
    ensures EncodeIndices(SignExtended, [128] + seq(31, _ => 0) + [c]) == [1920] + seq(23, _ => 2047)
  {
    var buffer: seq<Byte> := [128] + seq(31, _ => 0) + [c];
    var rest := buffer[2..];
    SignedStart(buffer);
    FloodPersists(SignExtended, rest, 5);
    EncodeCounts(SignExtended, rest, Accumulator(Flooded, 5));
  }

  /** The first two bytes 0x80, 0x00 emit the index 0x780 and leave the accumulator flooded, five bits pending. */
  lemma SignedStart(buffer: seq<Byte>)
    requires |buffer| >= 2 && buffer[0] == 128 && buffer[1] == 0
    ensures var rest := EncodeFrom(SignExtended, buffer[2..], Accumulator(Flooded, 5));
      EncodeFrom(SignExtended, buffer, Empty) == Run([1920] + rest.out, rest.acc)
  {
    var tail := buffer[1..];
    assert tail[0] == 0 && tail[1..] == buffer[2..];
    FeedSigned128();
    Signed128Index();
    var a1 := Accumulator(Signed128, 8);
    EncodeHolds(SignExtended, buffer, Empty);
    EncodeEmits(SignExtended, tail, a1);
    assert Shed(Accumulator(Signed128, 16), 11) == Accumulator(Flooded, 5);
  }

  lemma {:induction false} BytesBitsOfMax(n: nat)
    ensures BytesBits(seq(n, _ => 255)) == seq(8 * n, _ => true)
  {
    if n > 0 {
      BytesBitsOfMax(n - 1);
      Pow2Values();
      NatBitsAllOnes(8);
      assert seq(n, _ => 255 as Byte)[1..] == seq(n - 1, _ => 255);
    }
  }

  lemma FloodedIndicesBits()
    ensures IndicesBits([1920] + seq(23, _ => 2047)) == seq(7, _ => false) + seq(257, _ => true)
  {
    Pow2Values();
    IndicesBitsAppend([1920], seq(23, _ => 2047));
    IndicesBitsOfMax(23);
    assert IndicesBits([1920]) == NatBits(1920, 11);
    NatBitsShift(15, 7, 11);
    NatBitsAllOnes(4);
    AppendAssoc(seq(7, _ => false), seq(4, _ => true), seq(253, _ => true));
    Repeat(true, 4, 253);
  }

  /** Two runs of one value make one run. */
  lemma Repeat<T>(x: T, m: nat, n: nat)
    ensures seq(m, _ => x) + seq(n, _ => x) == seq(m + n, _ => x)
  {
  }

  lemma FloodedBytesBits()
    ensures BytesBits([128] + seq(32, _ => 255)) == seq(7, _ => false) + seq(257, _ => true)
  {
    Pow2Values();
    BytesBitsAppend([128], seq(32, _ => 255));
    BytesBitsOfMax(32);
    assert BytesBits([128]) == NatBits(128, 8);
    NatBitsShift(1, 7, 8);
    assert NatBits(1, 1) == [true];
    AppendAssoc(seq(7, _ => false), [true], seq(256, _ => true));
    Repeat(true, 1, 256);
    assert [true] == seq(1, _ => true);
  }

  /** The flooded indices decode to 0x80 followed by 32 bytes 0xFF, checksum byte included. */
  lemma FloodedDecoding()
    ensures DecodeIndices([1920] + seq(23, _ => 2047)) == [128] + seq(32, _ => 255)
  {
    var indices: seq<WordIndex> := [1920] + seq(23, _ => 2047);
    var bytes: seq<Byte> := [128] + seq(32, _ => 255);
    assert BytesBits(DecodeIndices(indices)) == BytesBits(bytes) by {
      FloodedIndicesBits();
      FloodedBytesBits();
      DecodeMatchesBits(indices);
    }
    BytesBitsInjective(DecodeIndices(indices), bytes);
  }
  /** Java's `(int) b` on the byte 0xFF sets every bit of the empty accumulator. */
  lemma FeedMax()
    ensures Feed(SignExtended, 255, Empty) == Accumulator(Flooded, 8)
  {
    Pow2Values();
    NatBitsAllOnes(8);
    assert SignExtend(255) == Flooded;
    assert Or(Zeros(32), Shl(SignExtend(255), 0)) == Flooded;
  }

  /**
   * Entropy of 32 bytes 0xFF floods the accumulator at its first byte, so the
   * checksum byte c is OR-ed into bits that are already set: every index,
   * the last included, is 0x7FF whatever c is.
   */
  lemma MaxEntropyFloods(c: Byte)
    ensures EncodeIndices(SignExtended, seq(32, _ => 255) + [c]) == seq(24, _ => 2047)
  {
    var buffer: seq<Byte> := seq(32, _ => 255) + [c];
    assert buffer[0] == 255;
    FeedMax();
    EncodeHolds(SignExtended, buffer, Empty);
    FloodPersists(SignExtended, buffer[1..], 8);
  }

  /** 24 indices 0x7FF decode to 33 bytes 0xFF. */
  lemma MaxIndicesDecoding()
    ensures DecodeIndices(seq(24, _ => 2047)) == seq(33, _ => 255)
  {
    var indices: seq<WordIndex> := seq(24, _ => 2047);
    var bytes: seq<Byte> := seq(33, _ => 255);
    assert BytesBits(DecodeIndices(indices)) == BytesBits(bytes) by {
      IndicesBitsOfMax(24);
      BytesBitsOfMax(33);
      DecodeMatchesBits(indices);
    }
    BytesBitsInjective(DecodeIndices(indices), bytes);
  }
}
