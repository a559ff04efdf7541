/**
 * The part of Apple's CommonCrypto the app calls: `CCCrypt` with AES and
 * PKCS#7 padding, and `CCKeyDerivationPBKDF`. The primitives themselves are
 * function-typed parameters; only the constants of CommonCryptor.h and the
 * caller-visible buffer rules are modelled here.
 */
module CommonCrypto {
  import opened Bytes

  // Status codes (CCCryptorStatus).
  const kCCSuccess: int := 0
  const kCCBufferTooSmall: int := -4301

  // Key and block sizes, in bytes.
  const kCCKeySizeAES128: nat := 16
  const kCCKeySizeAES256: nat := 32
  const kCCBlockSizeAES128: nat := 16

  /** `CCOperation`: kCCEncrypt is 0, kCCDecrypt is 1. */
  datatype Operation = Encrypt | Decrypt

  /** The status of a call and the bytes it produced (their count is `dataOutMoved`). */
  datatype CryptorReply = CryptorReply(status: int, output: seq<byte>)

  /**
   * AES with kCCOptionPKCS7Padding in CBC mode, as a function of the operation,
   * key, IV and input, given room for its whole output.
   */
  type Cipher = (Operation, seq<byte>, seq<byte>, seq<byte>) -> CryptorReply

  /**
   * `CCCrypt` writing into a buffer of `available` bytes: an output that does
   * not fit is refused with kCCBufferTooSmall and no output bytes are
   * delivered. CommonCrypto decides this before running the cipher, from its
   * estimate of the largest output the input can give (the input length
   * rounded up to the next whole block); this model decides it from the
   * output's actual length. The two agree on every buffer `crypt` allocates,
   * since that buffer is the input length plus a whole key length, which
   * both the estimate and the output fit. CommonCrypto then sets
   * `dataOutMoved` to the size it would have needed, which `crypt` never
   * reads, since it gives up on any failure.
   */
  function CCCrypt(cipher: Cipher, op: Operation, key: seq<byte>, iv: seq<byte>, data: seq<byte>, available: nat)
    : (r: CryptorReply)
    ensures r.status == kCCSuccess ==> |r.output| <= available
    ensures r.status == kCCSuccess <==>
              cipher(op, key, iv, data).status == kCCSuccess && |cipher(op, key, iv, data).output| <= available
    ensures r.status == kCCSuccess ==> r == cipher(op, key, iv, data)
  {
    var reply := cipher(op, key, iv, data);
    if reply.status == kCCSuccess && |reply.output| > available then CryptorReply(kCCBufferTooSmall, [])
    else reply
  }

  /**
   * PKCS#7 padding adds at most one block on encryption and decryption only
   * removes bytes: a successful output is at most one block longer than its input.
   */
  ghost predicate PaddingBound(cipher: Cipher) {
    forall op, key, iv, data :: cipher(op, key, iv, data).status == kCCSuccess ==>
      |cipher(op, key, iv, data).output| <= |data| + kCCBlockSizeAES128
  }

  /** Decrypting, under the same key and IV, what encryption produced gives back the plaintext. */
  ghost predicate Inverts(cipher: Cipher) {
    forall key, iv, plain :: cipher(Encrypt, key, iv, plain).status == kCCSuccess ==>
      cipher(Decrypt, key, iv, cipher(Encrypt, key, iv, plain).output) == CryptorReply(kCCSuccess, plain)
  }

  /** `CCPseudoRandomAlgorithm`: the HMAC used as the PBKDF2 pseudo-random function. */
  datatype Prf = HmacSha1 | HmacSha224 | HmacSha256 | HmacSha384 | HmacSha512

  /** The status of a derivation and the bytes it wrote. */
  datatype KdfReply = KdfReply(status: int, derived: seq<byte>)

  /**
   * `CCKeyDerivationPBKDF(kCCPBKDF2, password, salt, prf, rounds, _, keyLength)`:
   * PBKDF2 of section 5.2 of RFC 8018, as a function of the pseudo-random
   * function, password bytes, salt bytes, round count and key length.
   */
  type Pbkdf = (Prf, seq<byte>, seq<byte>, nat, nat) -> KdfReply
}
