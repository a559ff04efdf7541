/** The `AES` struct of AES.swift: a validated key and IV and one call of `CCCrypt` per operation. */
module AES {
  import opened Wrappers
  import opened Bytes
  import opened CommonCrypto
  import Utf8

  datatype AESContext = AESContext(key: seq<byte>, iv: seq<byte>) {
    /** What the failable initialiser lets through. */
    predicate Valid() {
      (|key| == kCCKeySizeAES128 || |key| == kCCKeySizeAES256) && |iv| == kCCBlockSizeAES128
    }
  }

  /** `AES.init?(key:iv:)`: an AES-128 or AES-256 key and a one-block IV, kept as given. */
  function Init(key: seq<byte>, iv: seq<byte>): (r: Option<AESContext>)
    ensures r.Some? <==> (|key| == 16 || |key| == 32) && |iv| == 16
    ensures r.Some? ==> r.value.key == key && r.value.iv == iv && r.value.Valid()
  {
    if !(|key| == kCCKeySizeAES128 || |key| == kCCKeySizeAES256) then None
    else if |iv| != kCCBlockSizeAES128 then None
    else Some(AESContext(key, iv))
  }

  /** `cryptLength`: the size of the output buffer handed to `CCCrypt`. */
  function OutputCapacity(aes: AESContext, data: seq<byte>): (n: nat)
    ensures aes.Valid() ==> n >= |data| + kCCBlockSizeAES128
  {
    |data| + |aes.key|
  }

  /**
   * `crypt(data:option:)`: nil in, nil out; otherwise one `CCCrypt` into a
   * zeroed buffer of `OutputCapacity` bytes, trimmed to the bytes moved.
   */
  function Crypt(cipher: Cipher, aes: AESContext, data: Option<seq<byte>>, op: Operation): (r: Option<seq<byte>>)
    ensures data.None? ==> r.None?
    ensures data.Some? ==>
              var reply := cipher(op, aes.key, aes.iv, data.value);
              && (r.Some? <==> reply.status == kCCSuccess && |reply.output| <= OutputCapacity(aes, data.value))
              && (r.Some? ==> r.value == reply.output)
  {
    match data
    case None => None
    case Some(d) =>
      var cryptLength := OutputCapacity(aes, d);
      var cryptData := Zeros(cryptLength);
      var reply := CCCrypt(cipher, op, aes.key, aes.iv, d, cryptLength);
      if reply.status != kCCSuccess then None
      else
        var bytesLength := |reply.output|;
        Some(WritePrefix(cryptData, reply.output)[..bytesLength])
  }

  /**
   * With a valid key the buffer always has room for the padded output, so
   * `crypt` fails exactly when the cipher itself does.
   */
  lemma CapacitySuffices(cipher: Cipher, aes: AESContext, data: seq<byte>, op: Operation)
    requires aes.Valid() && PaddingBound(cipher)
    ensures Crypt(cipher, aes, Some(data), op) ==
              if cipher(op, aes.key, aes.iv, data).status == kCCSuccess
              then Some(cipher(op, aes.key, aes.iv, data).output)
              else None
  {
  }

  /** `encrypt(string:)`: the UTF-8 bytes of the string, encrypted. */
  function Encrypt(cipher: Cipher, aes: AESContext, s: string): (r: Option<seq<byte>>)
    ensures var reply := cipher(CommonCrypto.Encrypt, aes.key, aes.iv, Utf8.Encode(s));
            && (r.Some? <==> reply.status == kCCSuccess && |reply.output| <= |Utf8.Encode(s)| + |aes.key|)
            && (r.Some? ==> r.value == reply.output)
  {
    Crypt(cipher, aes, Some(Utf8.Encode(s)), CommonCrypto.Encrypt)
  }

  /** `decrypt(data:)`: decrypted bytes that are well-formed UTF-8, as text. */
  function Decrypt(cipher: Cipher, aes: AESContext, data: Option<seq<byte>>): (r: Option<string>)
    ensures var plain := Crypt(cipher, aes, data, CommonCrypto.Decrypt);
            (r.Some? <==> plain.Some? && Utf8.Decode(plain.value).Some?)
            && (r.Some? ==> Utf8.Encode(r.value) == plain.value)
  {
    match Crypt(cipher, aes, data, CommonCrypto.Decrypt)
    case None => None
    case Some(plain) =>
      Utf8.EncodeDecode(plain);
      Utf8.Decode(plain)
  }

  /** With a cipher whose decryption inverts its encryption, decrypting what `encrypt` produced gives back the string. */
  lemma DecryptEncrypt(cipher: Cipher, aes: AESContext, s: string)
    requires aes.Valid() && PaddingBound(cipher) && Inverts(cipher)
    requires Encrypt(cipher, aes, s).Some?
    ensures Decrypt(cipher, aes, Encrypt(cipher, aes, s)) == Some(s)
  {
    var plain := Utf8.Encode(s);
    var c := cipher(CommonCrypto.Encrypt, aes.key, aes.iv, plain);
    assert c.status == kCCSuccess;
    assert cipher(CommonCrypto.Decrypt, aes.key, aes.iv, c.output) == CryptorReply(kCCSuccess, plain);
    CapacitySuffices(cipher, aes, c.output, CommonCrypto.Decrypt);
    Utf8.DecodeEncode(s);
  }
}
