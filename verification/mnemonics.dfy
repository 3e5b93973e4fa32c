/**
 * The legacy 24-word mnemonic: generation from 32 bytes of entropy, recovery
 * of the entropy and checksum from the words, validation, the text form and
 * the BIP-39 seed.
 *
 * The word list, SHA-256, PBKDF2 and UTF-8 encoding are parameters; the
 * random entropy of `generate` is a parameter too.
 */
module Mnemonics {
  import opened Wrappers
  import opened Bits
  import opened Words
  import opened Codec
  import opened WordLists
  import opened Phrase
  import opened Crypto

  /** A mnemonic phrase: its list of words. */
  datatype Mnemonic = Mnemonic(words: seq<string>)

  /** Why an operation on a mnemonic gave up. */
  datatype MnemonicError =
    | InvalidEntropyLength(length: nat)
    | WrongWordCount(count: nat)
    | UnknownWords(positions: seq<nat>, words: seq<string>)
    | WordNotInList(word: string)
    | IndexOutOfBounds(index: int)
    | ChecksumMismatch(expected: Byte, given: Byte)

  /** `getWordIndex`: the binary search of the word list. */
  function GetWordIndex(wl: seq<string>, word: string): (r: int)
    ensures r >= 0 ==> r < |wl| && wl[r] == word
  {
    BinarySearch(wl, word)
  }

  // ---------------------------------------------------------------------------
  // Words to entropy

  /**
   * The checks at the head of the decoding loop, word by word: an unknown word
   * stops it, and so would an index above 0x7FF.
   */
  function ResolveIndices(wl: seq<string>, words: seq<string>): (r: Result<seq<WordIndex>, MnemonicError>)
    ensures r.Success? ==> |r.value| == |words|
    ensures r.Failure? ==> r.error.WordNotInList? || r.error.IndexOutOfBounds?
  {
    if |words| == 0 then Success([])
    else
      var index := GetWordIndex(wl, words[0]);
      if index < 0 then Failure(WordNotInList(words[0]))
      else if index > 0x7FF then Failure(IndexOutOfBounds(index))
      else
        var rest :- ResolveIndices(wl, words[1..]);
        Success([index as WordIndex] + rest)
  }

  /** `wordsToEntropyAndChecksum`: 24 words to the 33-byte buffer of entropy and checksum. */
  function WordsToEntropyAndChecksum(wl: seq<string>, words: seq<string>): (r: Result<seq<Byte>, MnemonicError>)
    ensures r.Success? ==> |words| == 24 && |r.value| == 33
    ensures r.Failure? ==> r.error.WrongWordCount? || r.error.WordNotInList? || r.error.IndexOutOfBounds?
  {
    if |words| != 24 then Failure(WrongWordCount(|words|))
    else
      var indices :- ResolveIndices(wl, words);
      Success(DecodeIndices(indices))
  }

  /** The positions of known words in a valid list; the reference for `ResolveIndices`. */
  function ListIndices(wl: seq<string>, words: seq<string>): (r: seq<WordIndex>)
    requires |wl| <= 2048
    requires forall i :: 0 <= i < |words| ==> words[i] in wl
    ensures |r| == |words|
    ensures forall i :: 0 <= i < |words| ==> r[i] < |wl| && wl[r[i]] == words[i]
  {
    seq(|words|, i requires 0 <= i < |words| => Position(wl, words[i]) as WordIndex)
  }

  /** On a sorted list of at most 2048 words, resolving known words answers their positions. */
  lemma {:induction false} ResolveKnown(wl: seq<string>, words: seq<string>)
    requires Sorted(wl) && |wl| <= 2048
    requires forall i :: 0 <= i < |words| ==> words[i] in wl
    ensures ResolveIndices(wl, words) == Success(ListIndices(wl, words))
  {
    if |words| > 0 {
      BinarySearchCorrect(wl, words[0]);
      ResolveKnown(wl, words[1..]);
      ListIndicesCons(wl, words);
    }
  }

  lemma ListIndicesCons(wl: seq<string>, words: seq<string>)
    requires |wl| <= 2048 && |words| > 0
    requires forall i :: 0 <= i < |words| ==> words[i] in wl
    ensures ListIndices(wl, words) == [Position(wl, words[0]) as WordIndex] + ListIndices(wl, words[1..])
  {
    var a, b := ListIndices(wl, words), ListIndices(wl, words[1..]);
    var c := [Position(wl, words[0]) as WordIndex] + b;
    assert |a| == |c|;
    forall i | 0 <= i < |a| ensures a[i] == c[i] {
      assert a[i] == Position(wl, words[i]) as WordIndex;
      if i > 0 {
        assert words[1..][i - 1] == words[i];
        assert c[i] == b[i - 1];
      }
    }
    assert a == c;
  }

  /** On a sorted list of at most 2048 words, resolving fails on a word not in the list, and names such a word. */
  lemma {:induction false} ResolveUnknown(wl: seq<string>, words: seq<string>, k: nat)
    requires Sorted(wl) && |wl| <= 2048
    requires k < |words| && words[k] !in wl
    ensures var r := ResolveIndices(wl, words);
      r.Failure? && r.error.WordNotInList? && r.error.word !in wl
  {
    BinarySearchCorrect(wl, words[0]);
    if k > 0 && words[0] in wl {
      ResolveUnknown(wl, words[1..], k - 1);
    }
  }

  /** With at most 2048 words in the list the index is at most 0x7FF, so the `(BUG)` error cannot be raised. */
  lemma {:induction false} NoIndexOutOfBounds(wl: seq<string>, words: seq<string>)
    requires |wl| <= 2048
    ensures var r := WordsToEntropyAndChecksum(wl, words); !(r.Failure? && r.error.IndexOutOfBounds?)
  {
    if |words| == 24 {
      ResolveNeverOutOfBounds(wl, words);
    }
  }

  lemma {:induction false} ResolveNeverOutOfBounds(wl: seq<string>, words: seq<string>)
    requires |wl| <= 2048
    ensures var r := ResolveIndices(wl, words); !(r.Failure? && r.error.IndexOutOfBounds?)
  {
    if |words| > 0 {
      ResolveNeverOutOfBounds(wl, words[1..]);
    }
  }

  /** 24 words of the list read off their bits: byte j is bits 8j to 8j+7 of their positions laid end to end. */
  function WordBytes(wl: seq<string>, words: seq<string>): (r: seq<Byte>)
    requires |wl| <= 2048 && |words| == 24
    requires forall i :: 0 <= i < 24 ==> words[i] in wl
    ensures |r| == 33
  {
    var bits := IndicesBits(ListIndices(wl, words));
    assert |bits| == 264;
    BitsBytes(bits)
  }

  /**
   * On a sorted list of at most 2048 words, decoding succeeds exactly for 24
   * words of the list, and then byte j is the number in bits 8j to 8j+7 of
   * the words' eleven-bit positions laid end to end, least significant first.
   */
  lemma WordsToEntropyReadsBits(wl: seq<string>, words: seq<string>)
    requires Sorted(wl) && |wl| <= 2048
    ensures var r := WordsToEntropyAndChecksum(wl, words);
      r.Success? <==> |words| == 24 && forall i :: 0 <= i < 24 ==> words[i] in wl
    ensures |words| != 24 ==> WordsToEntropyAndChecksum(wl, words) == Failure(WrongWordCount(|words|))
    ensures |words| == 24 && (forall i :: 0 <= i < 24 ==> words[i] in wl) ==>
      WordsToEntropyAndChecksum(wl, words) == Success(WordBytes(wl, words))
  {
    if |words| == 24 {
      if forall i :: 0 <= i < 24 ==> words[i] in wl {
        ResolveKnown(wl, words);
        DecodeReadsBits(ListIndices(wl, words));
      } else {
        var k :| 0 <= k < 24 && words[k] !in wl;
        ResolveUnknown(wl, words, k);
      }
    }
  }

  // ---------------------------------------------------------------------------
  // Entropy to words

  /**
   * `entropyToWords`, with the given widening of each byte: 32 bytes of
   * entropy and their checksum byte as 24 words of the list.
   */
  function EncodeWith(w: Widening, wl: seq<string>, sha: Sha256, entropy: seq<Byte>): (r: Result<seq<string>, MnemonicError>)
    requires |wl| == 2048
    ensures r.Failure? <==> |entropy| != 32
    ensures r.Failure? ==> r.error == InvalidEntropyLength(|entropy|)
    ensures r.Success? ==> |r.value| == 24 && forall i :: 0 <= i < 24 ==> r.value[i] in wl
  {
    if |entropy| != 32 then Failure(InvalidEntropyLength(|entropy|))
    else
      var buffer := entropy + [Checksum(sha, entropy)];
      var indices := EncodeIndices(w, buffer);
      Success(seq(24, i requires 0 <= i < 24 => wl[indices[i]]))
  }

  /** `entropyToWords`: each byte is widened with `(int) b`, copying its sign bit upwards. */
  function EntropyToWords(wl: seq<string>, sha: Sha256, entropy: seq<Byte>): (r: Result<seq<string>, MnemonicError>)
    requires |wl| == 2048
    ensures r.Failure? <==> |entropy| != 32
  {
    EncodeWith(SignExtended, wl, sha, entropy)
  }

  /** `generate`, on the 32 bytes the random source supplied. */
  function Generate(wl: seq<string>, sha: Sha256, entropy: seq<Byte>): (r: Mnemonic)
    requires |wl| == 2048 && |entropy| == 32
    ensures |r.words| == 24
  {
    Mnemonic(EntropyToWords(wl, sha, entropy).value)
  }

  /** The corrected `entropyToWords`: each byte is widened with `b & 0xFF`. */
  function EntropyToWordsCorrected(wl: seq<string>, sha: Sha256, entropy: seq<Byte>): (r: Result<seq<string>, MnemonicError>)
    requires |wl| == 2048
    ensures r.Failure? <==> |entropy| != 32
  {
    EncodeWith(ZeroExtended, wl, sha, entropy)
  }

  /** The corrected `generate`, through the zero-extending encoder. */
  function GenerateCorrected(wl: seq<string>, sha: Sha256, entropy: seq<Byte>): (r: Mnemonic)
    requires |wl| == 2048 && |entropy| == 32
    ensures |r.words| == 24
  {
    Mnemonic(EntropyToWordsCorrected(wl, sha, entropy).value)
  }

  /** Resolving the words at given positions of a valid list answers the positions. */
  lemma {:induction false} ResolveWordsAt(wl: seq<string>, indices: seq<WordIndex>)
    requires ValidWordList(wl)
    ensures ResolveIndices(wl, seq(|indices|, i requires 0 <= i < |indices| => wl[indices[i]])) == Success(indices)
  {
    var words := seq(|indices|, i requires 0 <= i < |indices| => wl[indices[i]]);
    if |indices| > 0 {
      SearchOfWordAt(wl, indices[0]);
      ResolveWordsAt(wl, indices[1..]);
      assert words[1..] == seq(|indices[1..]|, i requires 0 <= i < |indices[1..]| => wl[indices[1..][i]]);
      assert indices == [indices[0]] + indices[1..];
    }
  }

  /**
   * Decoding the words of an encoded buffer gives back the entropy and its
   * checksum byte, when every entropy byte widened cleanly.
   */
  lemma EncodedWordsDecode(w: Widening, wl: seq<string>, sha: Sha256, entropy: seq<Byte>)
    requires ValidWordList(wl) && |entropy| == 32
    requires CleanButLast(w, entropy + [Checksum(sha, entropy)])
    ensures WordsToEntropyAndChecksum(wl, EncodeWith(w, wl, sha, entropy).value) == Success(entropy + [Checksum(sha, entropy)])
  {
    var buffer := entropy + [Checksum(sha, entropy)];
    var indices := EncodeIndices(w, buffer);
    var words := EncodeWith(w, wl, sha, entropy).value;
    assert words == seq(|indices|, i requires 0 <= i < |indices| => wl[indices[i]]);
    ResolveWordsAt(wl, indices);
    DecodeEncode(w, buffer);
  }

  // ---------------------------------------------------------------------------
  // Validation

  /** The positions, from i on, of the words the list does not hold, in ascending order. */
  function UnknownFrom(wl: seq<string>, words: seq<string>, i: nat): (r: seq<nat>)
    requires i <= |words|
    ensures forall k :: 0 <= k < |r| ==> i <= r[k] < |words| && GetWordIndex(wl, words[r[k]]) < 0
    ensures forall a, b :: 0 <= a < b < |r| ==> r[a] < r[b]
    decreases |words| - i
  {
    if i == |words| then []
    else if GetWordIndex(wl, words[i]) < 0 then [i] + UnknownFrom(wl, words, i + 1)
    else UnknownFrom(wl, words, i + 1)
  }

  /** No unknown position is missed. */
  lemma {:induction false} UnknownFromComplete(wl: seq<string>, words: seq<string>, i: nat)
    requires i <= |words|
    ensures forall j :: i <= j < |words| && GetWordIndex(wl, words[j]) < 0 ==> j in UnknownFrom(wl, words, i)
    decreases |words| - i
  {
    if i < |words| {
      UnknownFromComplete(wl, words, i + 1);
    }
  }

  /** The `unknownIndices` list of `validate`. */
  function UnknownPositions(wl: seq<string>, words: seq<string>): (r: seq<nat>)
  {
    UnknownFrom(wl, words, 0)
  }

  /**
   * On a sorted list, the unknown positions are exactly the positions of words
   * not in the list; there are none exactly when every word is in the list.
   */
  lemma UnknownPositionsIff(wl: seq<string>, words: seq<string>)
    requires Sorted(wl)
    ensures forall j :: j in UnknownPositions(wl, words) <==> 0 <= j < |words| && words[j] !in wl
    ensures |UnknownPositions(wl, words)| == 0 <==> forall j :: 0 <= j < |words| ==> words[j] in wl
  {
    var u := UnknownPositions(wl, words);
    UnknownFromComplete(wl, words, 0);
    forall j | 0 <= j < |words| {
      BinarySearchCorrect(wl, words[j]);
    }
    assert |u| > 0 ==> GetWordIndex(wl, words[u[0]]) < 0;
  }

  /** The words at the given positions, in the order of the positions. */
  function WordsAt(words: seq<string>, positions: seq<nat>): (r: seq<string>)
    requires forall k :: 0 <= k < |positions| ==> positions[k] < |words|
    ensures |r| == |positions|
    ensures forall k :: 0 <= k < |positions| ==> r[k] == words[positions[k]]
  {
    seq(|positions|, k requires 0 <= k < |positions| => words[positions[k]])
  }

  /** `validate`: the word count, then every unknown word at once, then the checksum. */
  function Validate(wl: seq<string>, sha: Sha256, m: Mnemonic): (r: Outcome<MnemonicError>)
    ensures r == Pass ==> |m.words| == 24
    ensures r.Fail? && r.error.UnknownWords? ==>
      |m.words| == 24 && 0 < |r.error.positions| == |r.error.words| &&
      forall k :: 0 <= k < |r.error.positions| ==>
        r.error.positions[k] < 24 && r.error.words[k] == m.words[r.error.positions[k]]
  {
    var words := m.words;
    if |words| != 24 then Fail(WrongWordCount(|words|))
    else
      var unknown := UnknownPositions(wl, words);
      if |unknown| > 0 then Fail(UnknownWords(unknown, WordsAt(words, unknown)))
      else
        match WordsToEntropyAndChecksum(wl, words)
        case Failure(e) => Fail(e)
        case Success(buffer) =>
          var expected := Checksum(sha, buffer);
          var given := buffer[32];
          if given != expected then Fail(ChecksumMismatch(expected, given)) else Pass
  }

  /**
   * What a valid mnemonic is, read straight off the bits: 24 words of the list
   * whose 264 index bits, read as 33 bytes, end with the checksum of the first 32.
   */
  predicate Accepts(wl: seq<string>, sha: Sha256, words: seq<string>)
    requires |wl| <= 2048
  {
    |words| == 24 &&
    (forall i :: 0 <= i < 24 ==> words[i] in wl) &&
    var bytes := WordBytes(wl, words);
    bytes[32] == Checksum(sha, bytes)
  }

  /**
   * Validation passes exactly for the mnemonics the bit-level definition
   * accepts; 24 words of the list that it does not accept are reported as a
   * checksum mismatch, with the checksum of the decoded entropy and the decoded
   * checksum byte.
   */
  lemma ValidateIff(wl: seq<string>, sha: Sha256, m: Mnemonic)
    requires ValidWordList(wl)
    ensures Validate(wl, sha, m) == Pass <==> Accepts(wl, sha, m.words)
    ensures |m.words| == 24 && (forall i :: 0 <= i < 24 ==> m.words[i] in wl) ==>
      var bytes := WordBytes(wl, m.words);
      Validate(wl, sha, m) ==
        if bytes[32] == Checksum(sha, bytes) then Pass else Fail(ChecksumMismatch(Checksum(sha, bytes), bytes[32]))
  {
    var words := m.words;
    if |words| == 24 {
      UnknownPositionsIff(wl, words);
      WordsToEntropyReadsBits(wl, words);
    }
  }

  /**
   * The order of the checks: a wrong word count is reported before anything
   * else; with 24 words, all unknown words are reported, in order, before the
   * checksum is looked at; a checksum mismatch therefore means 24 known words.
   */
  lemma ValidateOrder(wl: seq<string>, sha: Sha256, m: Mnemonic)
    requires Sorted(wl)
    ensures |m.words| != 24 ==> Validate(wl, sha, m) == Fail(WrongWordCount(|m.words|))
    ensures |m.words| == 24 && (exists i :: 0 <= i < 24 && m.words[i] !in wl) ==>
      var u := UnknownPositions(wl, m.words);
      Validate(wl, sha, m) == Fail(UnknownWords(u, WordsAt(m.words, u)))
    ensures Validate(wl, sha, m).Fail? && Validate(wl, sha, m).error.ChecksumMismatch? ==>
      |m.words| == 24 && forall i :: 0 <= i < 24 ==> m.words[i] in wl
  {
    UnknownPositionsIff(wl, m.words);
    if |m.words| == 24 {
      if i :| 0 <= i < 24 && m.words[i] !in wl {
        assert i in UnknownPositions(wl, m.words);
      }
    }
  }

  /** With the corrected encoder, every generated mnemonic decodes to its entropy and checksum, and validates. */
  lemma GenerateCorrectedValidates(wl: seq<string>, sha: Sha256, entropy: seq<Byte>)
    requires ValidWordList(wl) && |entropy| == 32
    ensures WordsToEntropyAndChecksum(wl, GenerateCorrected(wl, sha, entropy).words) == Success(entropy + [Checksum(sha, entropy)])
    ensures Validate(wl, sha, GenerateCorrected(wl, sha, entropy)) == Pass
  {
    var buffer := entropy + [Checksum(sha, entropy)];
    forall i | 0 <= i < |buffer| - 1 ensures Clean(ZeroExtended, buffer[i]) {
      CleanIff(ZeroExtended, buffer[i]);
    }
    GeneratedValidates(ZeroExtended, wl, sha, entropy);
  }

  /** A generated mnemonic decodes to its entropy and checksum, and validates, when no entropy byte is negative. */
  lemma GenerateValidatesNonNegative(wl: seq<string>, sha: Sha256, entropy: seq<Byte>)
    requires ValidWordList(wl) && |entropy| == 32
    requires forall i :: 0 <= i < 32 ==> entropy[i] < 128
    ensures WordsToEntropyAndChecksum(wl, Generate(wl, sha, entropy).words) == Success(entropy + [Checksum(sha, entropy)])
    ensures Validate(wl, sha, Generate(wl, sha, entropy)) == Pass
  {
    var buffer := entropy + [Checksum(sha, entropy)];
    forall i | 0 <= i < |buffer| - 1 ensures Clean(SignExtended, buffer[i]) {
      CleanIff(SignExtended, buffer[i]);
    }
    GeneratedValidates(SignExtended, wl, sha, entropy);
  }

  lemma GeneratedValidates(w: Widening, wl: seq<string>, sha: Sha256, entropy: seq<Byte>)
    requires ValidWordList(wl) && |entropy| == 32
    requires CleanButLast(w, entropy + [Checksum(sha, entropy)])
    ensures var words := EncodeWith(w, wl, sha, entropy).value;
      WordsToEntropyAndChecksum(wl, words) == Success(entropy + [Checksum(sha, entropy)]) &&
      Validate(wl, sha, Mnemonic(words)) == Pass
  {
    var buffer := entropy + [Checksum(sha, entropy)];
    var words := EncodeWith(w, wl, sha, entropy).value;
    EncodedWordsDecode(w, wl, sha, entropy);
    UnknownPositionsIff(wl, words);
    ChecksumIgnoresTail(sha, entropy, [Checksum(sha, entropy)]);
  }

  /** The entropy 0x80 followed by 31 zero bytes comes back as 0x80 and 32 bytes 0xFF. */
  lemma GenerateFloodedWords(wl: seq<string>, sha: Sha256)
    requires ValidWordList(wl)
    ensures var words := Generate(wl, sha, [128] + seq(31, _ => 0)).words;
      (forall i :: 0 <= i < 24 ==> words[i] in wl) &&
      WordsToEntropyAndChecksum(wl, words) == Success([128] + seq(32, _ => 255))
  {
    var entropy: seq<Byte> := [128] + seq(31, _ => 0);
    var c := Checksum(sha, entropy);
    var indices: seq<WordIndex> := [1920] + seq(23, _ => 2047);
    SignExtensionFloods(c);
    assert entropy + [c] == [128] + seq(31, _ => 0) + [c];
    var words := Generate(wl, sha, entropy).words;
    assert words == seq(|indices|, i requires 0 <= i < |indices| => wl[indices[i]]);
    ResolveWordsAt(wl, indices);
    FloodedDecoding();
  }

  /**
   * The entropy 0x80 followed by 31 zero bytes gives a mnemonic
   * that decodes to 0x80 and 32 bytes 0xFF, so validation reports a checksum
   * mismatch unless SHA-256 of that decoded entropy happens to start with 0xFF.
   */
  lemma GenerateRejectsFlooded(wl: seq<string>, sha: Sha256)
    requires ValidWordList(wl)
    ensures var entropy: seq<Byte> := [128] + seq(31, _ => 0);
      var expected := sha([128] + seq(31, _ => 255))[0];
      Validate(wl, sha, Generate(wl, sha, entropy)) ==
        if expected == 255 then Pass else Fail(ChecksumMismatch(expected, 255))
  {
    var entropy: seq<Byte> := [128] + seq(31, _ => 0);
    var words := Generate(wl, sha, entropy).words;
    GenerateFloodedWords(wl, sha);
    UnknownPositionsIff(wl, words);
    var buffer: seq<Byte> := [128] + seq(32, _ => 255);
    assert buffer[..32] == [128] + seq(31, _ => 255);
    assert buffer[32] == 255;
  }

  /** The entropy of 32 bytes 0xFF comes back as 33 bytes 0xFF: its checksum byte is lost. */
  lemma GenerateMaxWords(wl: seq<string>, sha: Sha256)
    requires ValidWordList(wl)
    ensures var words := Generate(wl, sha, seq(32, _ => 255)).words;
      (forall i :: 0 <= i < 24 ==> words[i] in wl) &&
      WordsToEntropyAndChecksum(wl, words) == Success(seq(33, _ => 255))
  {
    var entropy: seq<Byte> := seq(32, _ => 255);
    var c := Checksum(sha, entropy);
    var indices: seq<WordIndex> := seq(24, _ => 2047);
    MaxEntropyFloods(c);
    var words := Generate(wl, sha, entropy).words;
    assert words == seq(|indices|, i requires 0 <= i < |indices| => wl[indices[i]]);
    ResolveWordsAt(wl, indices);
    MaxIndicesDecoding();
  }

  /**
   * So the mnemonic generated from 32 bytes 0xFF validates only when SHA-256 of
   * that entropy starts with 0xFF; otherwise the checksum byte read back, 0xFF,
   * does not match.
   */
  lemma GenerateRejectsMax(wl: seq<string>, sha: Sha256)
    requires ValidWordList(wl)
    ensures var entropy: seq<Byte> := seq(32, _ => 255);
      var expected := sha(entropy)[0];
      Validate(wl, sha, Generate(wl, sha, entropy)) ==
        if expected == 255 then Pass else Fail(ChecksumMismatch(expected, 255))
  {
    var entropy: seq<Byte> := seq(32, _ => 255);
    var words := Generate(wl, sha, entropy).words;
    GenerateMaxWords(wl, sha);
    UnknownPositionsIff(wl, words);
    var buffer: seq<Byte> := seq(33, _ => 255);
    assert buffer[..32] == entropy;
    assert buffer[32] == 255;
  }

  // ---------------------------------------------------------------------------
  // Text form and seed

  /** `toString`: the words joined with single spaces. */
  function ToString(m: Mnemonic): (r: string)
    ensures |m.words| > 0 ==> |m.words[0]| <= |r| && r[..|m.words[0]|] == m.words[0]
  {
    Join(m.words)
  }

  /** `fromString`: the words of a string split at spaces. */
  function FromString(s: string): (r: Mnemonic)
    ensures forall k :: 0 <= k < |r.words| ==> SpaceFree(r.words[k])
  {
    Mnemonic(Split(s))
  }

  /**
   * A mnemonic of space-free words survives its text form exactly when it has
   * a word and, if it has several, the last one is not empty.
   */
  lemma FromStringToString(m: Mnemonic)
    requires forall k :: 0 <= k < |m.words| ==> SpaceFree(m.words[k])
    ensures FromString(ToString(m)) == m <==>
      |m.words| == 1 || (|m.words| > 1 && m.words[|m.words| - 1] != "")
  {
    SplitJoin(m.words);
  }

  /**
   * The words of an encoded mnemonic, under either widening, come from a list
   * of non-empty, space-free words, so its text form reads back.
   */
  lemma EncodedRoundTripsThroughText(w: Widening, wl: seq<string>, sha: Sha256, entropy: seq<Byte>)
    requires |wl| == 2048 && |entropy| == 32
    requires forall k :: 0 <= k < |wl| ==> SpaceFree(wl[k]) && wl[k] != ""
    ensures var m := Mnemonic(EncodeWith(w, wl, sha, entropy).value);
      FromString(ToString(m)) == m
  {
    var m := Mnemonic(EncodeWith(w, wl, sha, entropy).value);
    forall k | 0 <= k < |m.words| ensures SpaceFree(m.words[k]) && m.words[k] != "" {
      var j :| 0 <= j < |wl| && wl[j] == m.words[k];
    }
    SplitJoin(m.words);
  }

  /** A generated mnemonic, as written or corrected, survives its text form. */
  lemma GeneratedRoundTripsThroughText(wl: seq<string>, sha: Sha256, entropy: seq<Byte>)
    requires |wl| == 2048 && |entropy| == 32
    requires forall k :: 0 <= k < |wl| ==> SpaceFree(wl[k]) && wl[k] != ""
    ensures FromString(ToString(Generate(wl, sha, entropy))) == Generate(wl, sha, entropy)
    ensures FromString(ToString(GenerateCorrected(wl, sha, entropy))) == GenerateCorrected(wl, sha, entropy)
  {
    EncodedRoundTripsThroughText(SignExtended, wl, sha, entropy);
    EncodedRoundTripsThroughText(ZeroExtended, wl, sha, entropy);
  }

  /** `toSeed`: PBKDF2 over the UTF-8 text form, salted with "mnemonic" and the passphrase. */
  function ToSeed(kdf: Pbkdf2, utf8: Utf8, m: Mnemonic, passphrase: string): (r: seq<Byte>)
  {
    kdf(utf8(ToString(m)), utf8(SaltPrefix + passphrase), SeedIterations, SeedBits)
  }

  /**
   * The seed of a mnemonic read from a string that does not end in a space is
   * the key derived from exactly that string: 2048 iterations, 512 bits, salt
   * "mnemonic" followed by the passphrase.
   */
  lemma SeedOfString(kdf: Pbkdf2, utf8: Utf8, s: string, passphrase: string)
    requires |s| == 0 || s[|s| - 1] != ' '
    ensures ToSeed(kdf, utf8, FromString(s), passphrase) == kdf(utf8(s), utf8("mnemonic" + passphrase), 2048, 512)
  {
    JoinSplit(s);
  }
}
