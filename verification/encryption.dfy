/** The password-based envelope: a PBKDF2-HMAC-SHA256 key (section 5.2 of
    RFC 8018), AES-CBC (section 6.2 of NIST SP 800-38A) over PKCS#7-padded
    bytes, and the Base64 text `base64(salt || iv || ciphertext)`.

    The key derivation and the block cipher are library calls whose internals
    are not modelled: they are the function-valued fields of a `CipherSuite`,
    and `LawfulSuite` states the only facts the envelope relies on. The random
    salt and IV are parameters. */
module Encryption {
  import opened Wrappers
  import opened Bytes
  import Pkcs7
  import Base64

  const SaltSize: nat := 16
  const IvSize: nat := 16
  /** Default key length: 32 bytes, a 256-bit AES key. */
  const KeySize: nat := 32
  const Pbkdf2Iterations: nat := 100000

  datatype CipherSuite = CipherSuite(
    /** PBKDF2-HMAC-SHA256 (password, salt, iterations, length). */
    pbkdf2: (seq<byte>, seq<byte>, nat, nat) -> seq<byte>,
    /** AES-CBC encryption (key, iv, plaintext). */
    cbcEncrypt: (seq<byte>, seq<byte>, seq<byte>) -> seq<byte>,
    /** AES-CBC decryption (key, iv, ciphertext). */
    cbcDecrypt: (seq<byte>, seq<byte>, seq<byte>) -> seq<byte>)

  /** The laws of the library primitives: the derived key has the requested
      length; on whole blocks, CBC encryption and decryption preserve length
      and decryption inverts encryption under the same key and IV. */
  ghost predicate LawfulSuite(suite: CipherSuite)
  {
    && (forall pw, salt, n, len :: |suite.pbkdf2(pw, salt, n, len)| == len)
    && (forall key, iv, p | |p| % Pkcs7.BlockSize == 0 ::
          |suite.cbcEncrypt(key, iv, p)| == |p|
          && suite.cbcDecrypt(key, iv, suite.cbcEncrypt(key, iv, p)) == p)
    && (forall key, iv, c | |c| % Pkcs7.BlockSize == 0 :: |suite.cbcDecrypt(key, iv, c)| == |c|)
  }

  /** The salt, IV and ciphertext that make up an encrypted blob. */
  datatype Envelope = Envelope(salt: seq<byte>, iv: seq<byte>, ciphertext: seq<byte>)

  datatype DecryptError =
    | MalformedText      // the text is not Base64
    | InvalidIvSize      // the blob is too short to hold a 16-byte IV
    | IncompleteBlock    // the ciphertext is not a whole number of AES blocks
    | InvalidPadding     // the decrypted bytes do not end in valid PKCS#7 padding

  /** Derives a key of `length` bytes from the password and salt with 100000
      iterations; the same inputs always give the same key. */
  function DeriveKey(suite: CipherSuite, password: seq<byte>, salt: seq<byte>, length: nat := KeySize): (key: seq<byte>)
    ensures LawfulSuite(suite) ==> |key| == length
  {
    suite.pbkdf2(password, salt, Pbkdf2Iterations, length)
  }

  /** The raw blob: salt, then IV, then ciphertext. */
  function Join(e: Envelope): seq<byte>
  {
    e.salt + e.iv + e.ciphertext
  }

  function Clamp(i: nat, n: nat): nat
  {
    if i <= n then i else n
  }

  /** Python-style slices `[:16]`, `[16:32]` and `[32:]`, which clamp at the
      end of a short blob instead of failing. */
  function Split(data: seq<byte>): (e: Envelope)
    ensures Join(e) == data
    ensures |data| >= SaltSize + IvSize ==> |e.salt| == SaltSize && |e.iv| == IvSize
    ensures |data| < SaltSize + IvSize ==> |e.iv| < IvSize && e.ciphertext == []
  {
    var n := |data|;
    var e := Envelope(data[..Clamp(SaltSize, n)],
                      data[Clamp(SaltSize, n)..Clamp(SaltSize + IvSize, n)],
                      data[Clamp(SaltSize + IvSize, n)..]);
    assert Join(e) == data;
    e
  }

  /** Splitting a joined blob recovers exactly the salt, IV and ciphertext. */
  lemma SplitJoin(e: Envelope)
    requires |e.salt| == SaltSize && |e.iv| == IvSize
    ensures Split(Join(e)) == e
  {
    var data := Join(e);
    assert data[..SaltSize] == e.salt;
    assert data[SaltSize..SaltSize + IvSize] == e.iv;
    assert data[SaltSize + IvSize..] == e.ciphertext;
  }

  /** The envelope `encrypt` builds from a message, before Base64. */
  function Seal(message: seq<byte>, password: seq<byte>, salt: seq<byte>, iv: seq<byte>, suite: CipherSuite): (e: Envelope)
    requires |salt| == SaltSize && |iv| == IvSize
    ensures e.salt == salt && e.iv == iv
    ensures LawfulSuite(suite) ==> |e.ciphertext| == |Pkcs7.Pad(message)|
  {
    var key := DeriveKey(suite, password, salt);
    Envelope(salt, iv, suite.cbcEncrypt(key, iv, Pkcs7.Pad(message)))
  }

  /** Encrypts a message under a password, with the given salt and IV standing
      for the two fresh random 16-byte values. */
  function Encrypt(message: seq<byte>, password: seq<byte>, salt: seq<byte>, iv: seq<byte>, suite: CipherSuite): (text: string)
    requires |salt| == SaltSize && |iv| == IvSize
    ensures Base64.Decode(text) == Success(Join(Seal(message, password, salt, iv, suite)))
  {
    var blob := Join(Seal(message, password, salt, iv, suite));
    Base64.DecodeEncode(blob);
    Base64.Encode(blob)
  }

  /** The padded plaintext that CBC decryption yields from a blob, with the key
      derived from the blob's salt. */
  function Deciphered(data: seq<byte>, password: seq<byte>, suite: CipherSuite): seq<byte>
  {
    var e := Split(data);
    suite.cbcDecrypt(DeriveKey(suite, password, e.salt), e.iv, e.ciphertext)
  }

  /** Decrypts a text produced by `Encrypt`, failing as the library does on
      text that is not Base64, a blob too short for the IV, a ciphertext that
      is not whole blocks, or bad padding after decryption. */
  function Decrypt(text: string, password: seq<byte>, suite: CipherSuite): (r: Result<seq<byte>, DecryptError>)
    ensures Base64.Decode(text).Failure? ==> r == Failure(MalformedText)
    ensures Base64.Decode(text).Success? && |Base64.Decode(text).value| < SaltSize + IvSize ==>
      r == Failure(InvalidIvSize)
    ensures LawfulSuite(suite) && r.Success? ==>
      Base64.Decode(text).Success? && MessageFitsBlob(|Base64.Decode(text).value|, |r.value|)
    ensures var d := Base64.Decode(text);
      d.Success? && |d.value| >= SaltSize + IvSize && |Split(d.value).ciphertext| % Pkcs7.BlockSize != 0 ==>
        r == Failure(IncompleteBlock)
    ensures var d := Base64.Decode(text);
      d.Success? && |d.value| >= SaltSize + IvSize && |Split(d.value).ciphertext| % Pkcs7.BlockSize == 0 ==>
        && (r.Success? <==> Pkcs7.IsPadded(Deciphered(d.value, password, suite)))
        && (r.Failure? ==> r.error == InvalidPadding)
    ensures r.Success? ==>
      Base64.Decode(text).Success? && Pkcs7.Pad(r.value) == Deciphered(Base64.Decode(text).value, password, suite)
  {
    var data :- Base64.Decode(text).MapFailure(_ => MalformedText);
    var e := Split(data);
    if |e.iv| != IvSize then
      Failure(InvalidIvSize)
    else if |e.ciphertext| % Pkcs7.BlockSize != 0 then
      Failure(IncompleteBlock)
    else
      var r := Pkcs7.Unpad(Deciphered(data, password, suite)).MapFailure(_ => InvalidPadding);
      assert LawfulSuite(suite) && r.Success? ==>
        MessageFitsBlob(|data|, |r.value|) by {
        if LawfulSuite(suite) && r.Success? {
          WholeBlocksAfterHeader(|data|, |e.ciphertext|);
        }
      }
      r
  }

  /** A message recovered from a blob of `blobLength` bytes: the blob holds
      the header and at least one block, and the message is 1 to 16 bytes
      shorter than the ciphertext. */
  predicate MessageFitsBlob(blobLength: int, messageLength: int)
  {
    && blobLength >= SaltSize + IvSize + Pkcs7.BlockSize
    && (blobLength - SaltSize - IvSize) % Pkcs7.BlockSize == 0
    && messageLength < blobLength - SaltSize - IvSize <= messageLength + Pkcs7.BlockSize
  }

  /** A blob of the 32-byte header and a positive whole number of blocks. */
  lemma WholeBlocksAfterHeader(blobLength: int, paddedLength: int)
    requires blobLength == SaltSize + IvSize + paddedLength
    requires paddedLength > 0 && paddedLength % Pkcs7.BlockSize == 0
    ensures blobLength >= SaltSize + IvSize + Pkcs7.BlockSize
    ensures (blobLength - SaltSize - IvSize) % Pkcs7.BlockSize == 0
  {
  }

  /** The raw blob, which `Encrypt`'s text decodes to, is salt ++ iv ++
      ciphertext, and the ciphertext is as long as the padded message: the
      blob has 32 + 16n bytes with n >= 1. */
  lemma SealLayout(message: seq<byte>, password: seq<byte>, salt: seq<byte>, iv: seq<byte>, suite: CipherSuite)
    requires LawfulSuite(suite)
    requires |salt| == SaltSize && |iv| == IvSize
    ensures var blob := Join(Seal(message, password, salt, iv, suite));
      && blob[..SaltSize] == salt
      && blob[SaltSize..SaltSize + IvSize] == iv
      && |blob| == SaltSize + IvSize + |Pkcs7.Pad(message)|
      && |blob| >= SaltSize + IvSize + Pkcs7.BlockSize
      && (|blob| - SaltSize - IvSize) % Pkcs7.BlockSize == 0
  {
    var blob := Join(Seal(message, password, salt, iv, suite));
    assert blob[..SaltSize] == salt;
    assert blob[SaltSize..SaltSize + IvSize] == iv;
    WholeBlocksAfterHeader(|blob|, |Pkcs7.Pad(message)|);
  }

  /** Decrypting with the password used to encrypt gives the message back. */
  lemma DecryptEncrypt(message: seq<byte>, password: seq<byte>, salt: seq<byte>, iv: seq<byte>, suite: CipherSuite)
    requires LawfulSuite(suite)
    requires |salt| == SaltSize && |iv| == IvSize
    ensures Decrypt(Encrypt(message, password, salt, iv, suite), password, suite) == Success(message)
  {
    var e := Seal(message, password, salt, iv, suite);
    SplitJoin(e);
    Pkcs7.UnpadPad(message);
  }

  /** Two encryptions with different salts, or with different IVs, never
      produce the same text. */
  lemma FreshValuesGiveDistinctTexts(message: seq<byte>, password: seq<byte>,
                                     salt: seq<byte>, iv: seq<byte>, salt': seq<byte>, iv': seq<byte>,
                                     suite: CipherSuite)
    requires |salt| == SaltSize && |iv| == IvSize && |salt'| == SaltSize && |iv'| == IvSize
    requires salt != salt' || iv != iv'
    ensures Encrypt(message, password, salt, iv, suite) != Encrypt(message, password, salt', iv', suite)
  {
    var b := Join(Seal(message, password, salt, iv, suite));
    var b' := Join(Seal(message, password, salt', iv', suite));
    assert b[..SaltSize] == salt && b'[..SaltSize] == salt';
    assert b[SaltSize..SaltSize + IvSize] == iv && b'[SaltSize..SaltSize + IvSize] == iv';
  }
}
