/**
 * The hash functions the mnemonic uses, taken as parameters: SHA-256 for the
 * checksum byte, and PBKDF2 with HMAC-SHA-512 and UTF-8 encoding for the seed.
 * Their internals are not part of this model; only the shape of their results
 * and the way the mnemonic calls them are.
 */
module Crypto {
  import opened Words

  /** A SHA-256 implementation: every message has a 32-byte digest. */
  type Sha256 = f: seq<Byte> -> seq<Byte> | forall m :: |f(m)| == 32 witness ZeroDigest

  function ZeroDigest(m: seq<Byte>): (r: seq<Byte>)
    ensures |r| == 32
  {
    seq(32, _ => 0)
  }

  /** A PBKDF2-HMAC-SHA-512 implementation: password bytes, salt bytes, iteration count and key length in bits. */
  type Pbkdf2 = (seq<Byte>, seq<Byte>, nat, nat) -> seq<Byte>

  /** `String.getBytes(StandardCharsets.UTF_8)`. */
  type Utf8 = string -> seq<Byte>

  /**
   * `checksum`: the first byte of the SHA-256 digest of the first 32 bytes.
   * The caller may pass the 33-byte buffer; the byte after the 32nd is not hashed.
   */
  function Checksum(sha: Sha256, data: seq<Byte>): (r: Byte)
    requires |data| >= 32
  {
    sha(data[..32])[0]
  }

  /** The checksum reads the first 32 bytes only: whatever follows them is ignored. */
  lemma ChecksumIgnoresTail(sha: Sha256, entropy: seq<Byte>, tail: seq<Byte>)
    requires |entropy| == 32
    ensures Checksum(sha, entropy + tail) == Checksum(sha, entropy) == sha(entropy)[0]
  {
    assert (entropy + tail)[..32] == entropy;
    assert entropy[..32] == entropy;
  }

  /** The BIP-39 seed: the salt is "mnemonic" followed by the passphrase, 2048 iterations, 512 bits. */
  const SaltPrefix := "mnemonic"
  const SeedIterations := 2048
  const SeedBits := 512
}
