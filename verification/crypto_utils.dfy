/**
 * CryptoUtils.swift: Chromium's legacy password scheme on macOS. The key is
 * PBKDF2-HMAC-SHA1 of the safe-storage secret with salt "saltysalt", 1003
 * rounds and 16 bytes of output; the IV is sixteen spaces.
 */
module CryptoUtils {
  import opened Wrappers
  import opened Bytes
  import opened CommonCrypto
  import Utf8
  import AES

  const Salt: string := "saltysalt"
  const KeyByteCount: nat := 16
  const Rounds: nat := 1003

  /** `String(repeating: c, count: n)`. */
  function Repeat(c: char, n: nat): (r: string)
    ensures |r| == n && forall i :: 0 <= i < n ==> r[i] == c
  {
    if n == 0 then [] else [c] + Repeat(c, n - 1)
  }

  /** The IV text, sixteen spaces. */
  const IvText: string := Repeat(' ', 16)

  /** The IV bytes: sixteen 0x20 bytes. */
  function ChromiumIv(): (iv: seq<byte>)
    ensures |iv| == kCCBlockSizeAES128
    ensures forall i :: 0 <= i < |iv| ==> iv[i] == 0x20
  {
    Utf8.EncodeAscii(IvText);
    Utf8.Encode(IvText)
  }

  /** The salt bytes, the ASCII codes of "saltysalt". */
  function SaltBytes(): (salt: seq<byte>)
    ensures salt == [0x73, 0x61, 0x6C, 0x74, 0x79, 0x73, 0x61, 0x6C, 0x74]
  {
    Utf8.EncodeAscii(Salt);
    Utf8.Encode(Salt)
  }

  /**
   * `pbkdf2(hash:password:salt:derivedKeyData:rounds:)`: the primitive writes
   * into a copy of `derivedKeyData`; a non-zero status gives nil, otherwise the
   * copy is returned, so its length is always that of `derivedKeyData`.
   */
  function Pbkdf2(kdf: Pbkdf, hash: Prf, password: string, salt: seq<byte>, derivedKeyData: seq<byte>, rounds: nat)
    : (r: Option<seq<byte>>)
    requires rounds < 0x1_0000_0000
    ensures var reply := kdf(hash, Utf8.Encode(password), salt, rounds, |derivedKeyData|);
            && (r.None? <==> reply.status != 0)
            && (r.Some? ==> |r.value| == |derivedKeyData|)
            && (r.Some? && |reply.derived| == |derivedKeyData| ==> r.value == reply.derived)
  {
    var passwordData := Utf8.Encode(password);
    var reply := kdf(hash, passwordData, salt, rounds, |derivedKeyData|);
    if reply.status != 0 then None
    else
      var written := if |reply.derived| <= |derivedKeyData| then reply.derived else reply.derived[..|derivedKeyData|];
      Some(WritePrefix(derivedKeyData, written))
  }

  /** `pbkdf2SHA1`: PBKDF2 with HMAC-SHA1 as the pseudo-random function. */
  function Pbkdf2Sha1(kdf: Pbkdf, password: string, salt: seq<byte>, derivedKeyData: seq<byte>, rounds: nat)
    : (r: Option<seq<byte>>)
    requires rounds < 0x1_0000_0000
    ensures var reply := kdf(HmacSha1, Utf8.Encode(password), salt, rounds, |derivedKeyData|);
            && (r.None? <==> reply.status != 0)
            && (r.Some? ==> |r.value| == |derivedKeyData|)
  {
    Pbkdf2(kdf, HmacSha1, password, salt, derivedKeyData, rounds)
  }

  /** `deriveKey(safeStorageKey:)` with its default salt, key size and round count. */
  function DeriveKey(kdf: Pbkdf, secret: string): (r: Option<seq<byte>>)
    ensures var reply := kdf(HmacSha1, Utf8.Encode(secret), [0x73, 0x61, 0x6C, 0x74, 0x79, 0x73, 0x61, 0x6C, 0x74], 1003, 16);
            && (r.None? <==> reply.status != 0)
            && (r.Some? ==> |r.value| == 16)
            && (r.Some? && |reply.derived| == 16 ==> r.value == reply.derived)
  {
    Pbkdf2Sha1(kdf, secret, SaltBytes(), Zeros(KeyByteCount), Rounds)
  }

  /** The force-unwrap in `decrypt` does not trap. */
  predicate KeyDerivable(kdf: Pbkdf, secret: string) {
    DeriveKey(kdf, secret).Some?
  }

  /** The AES context `decrypt` builds for a derived key. */
  function ChromiumContext(key: seq<byte>): (aes: AES.AESContext)
    requires |key| == KeyByteCount
    ensures aes.Valid() && aes.key == key && aes.iv == ChromiumIv()
  {
    AES.AESContext(key, ChromiumIv())
  }

  /**
   * `decrypt(safeStorageKey:encryptedData:)`: the key is derived afresh on every
   * call, and since it is 16 bytes and the IV one block, `AES.init` never fails,
   * so the result is exactly AES decryption under the derived key.
   */
  function Decrypt(cipher: Cipher, kdf: Pbkdf, secret: string, encrypted: seq<byte>): (r: Option<string>)
    requires KeyDerivable(kdf, secret)
    ensures r == AES.Decrypt(cipher, ChromiumContext(DeriveKey(kdf, secret).value), Some(encrypted))
  {
    var key := DeriveKey(kdf, secret).value;
    var iv := ChromiumIv();
    var aes128 := AES.Init(key, iv);
    match aes128
    case None => None
    case Some(aes) => AES.Decrypt(cipher, aes, Some(encrypted))
  }

  /** `decrypt` with the secret fixed, as one run of the app applies it to every stored password. */
  function SessionDecryptor(cipher: Cipher, kdf: Pbkdf, secret: string): (decrypt: seq<byte> -> Option<string>)
    requires KeyDerivable(kdf, secret)
    ensures forall encrypted :: decrypt(encrypted) == Decrypt(cipher, kdf, secret, encrypted)
  {
    encrypted => Decrypt(cipher, kdf, secret, encrypted)
  }

  /**
   * The legacy scheme round trip: what AES-CBC encrypted under the key derived
   * from the secret and the fixed IV decrypts back to the plaintext.
   */
  lemma DecryptRoundTrip(cipher: Cipher, kdf: Pbkdf, secret: string, plain: string)
    requires PaddingBound(cipher) && Inverts(cipher) && KeyDerivable(kdf, secret)
    requires AES.Encrypt(cipher, ChromiumContext(DeriveKey(kdf, secret).value), plain).Some?
    ensures Decrypt(cipher, kdf, secret, AES.Encrypt(cipher, ChromiumContext(DeriveKey(kdf, secret).value), plain).value)
            == Some(plain)
  {
    var aes := ChromiumContext(DeriveKey(kdf, secret).value);
    AES.DecryptEncrypt(cipher, aes, plain);
  }
}
