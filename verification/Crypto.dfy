/** Cryptographic primitives, kept uninterpreted behind the few laws the services rely on. */
module Crypto {
  import opened Types

  const NONCE_LEN := 12
  const AES_256_KEY_LEN := 32
  const KDF_SALT_LEN := 32
  const GCM_TAG_LEN := 16

  type Nonce = n: bytes | |n| == NONCE_LEN witness seq(NONCE_LEN, _ => 0)
  type Salt = s: bytes | |s| == KDF_SALT_LEN witness seq(KDF_SALT_LEN, _ => 0)

  /** `seal` and `open` take (text, key, nonce); `kdf` takes (password, salt) and may reject the salt. */
  datatype Primitives = Primitives(
    seal: (bytes, bytes, bytes) -> bytes,
    open: (bytes, bytes, bytes) -> Option<bytes>,
    kdf: (bytes, bytes) -> Option<bytes>,
    utf8: bytes -> bool)

  /** What authenticated encryption and a 32-byte key derivation promise; nothing is said of wrong keys. */
  ghost predicate Lawful(p: Primitives) {
    && (forall text: bytes, key: bytes, nonce: bytes ::
          p.open(p.seal(text, key, nonce), key, nonce) == Some(text) &&
          |p.seal(text, key, nonce)| == |text| + GCM_TAG_LEN)
    && (forall password: bytes, salt: bytes :: |salt| == KDF_SALT_LEN ==> p.kdf(password, salt).Some?)
    && (forall password: bytes, salt: bytes ::
          p.kdf(password, salt).Some? ==> |p.kdf(password, salt).value| == AES_256_KEY_LEN)
  }

  const TRANSPARENT: Primitives := Primitives(
    (text: bytes, key: bytes, nonce: bytes) => text + seq(GCM_TAG_LEN, _ => 0),
    (text: bytes, key: bytes, nonce: bytes) =>
      if |text| < GCM_TAG_LEN then None else Some(text[..|text| - GCM_TAG_LEN]),
    (password: bytes, salt: bytes) => Some(seq(AES_256_KEY_LEN, _ => 0)),
    (password: bytes) => true)

  lemma TransparentIsLawful()
    ensures Lawful(TRANSPARENT)
  {
    forall text: bytes, key: bytes, nonce: bytes
      ensures TRANSPARENT.open(TRANSPARENT.seal(text, key, nonce), key, nonce) == Some(text)
    {
      var sealed := TRANSPARENT.seal(text, key, nonce);
      assert sealed[..|sealed| - GCM_TAG_LEN] == text;
    }
  }

  type Cipher = p: Primitives | Lawful(p) ghost witness (TransparentIsLawful(); TRANSPARENT)

  datatype EncryptedPayload = EncryptedPayload(nonce: Nonce, ciphertext: bytes)

  function Encrypt(c: Cipher, text: bytes, key: bytes, nonce: Nonce): Result<EncryptedPayload> {
    if |key| != AES_256_KEY_LEN then Err(AppError.Crypto)
    else Ok(EncryptedPayload(nonce, c.seal(text, key, nonce)))
  }

  function Decrypt(c: Cipher, payload: EncryptedPayload, key: bytes): Result<bytes> {
    if |key| != AES_256_KEY_LEN then Err(AppError.Crypto)
    else match c.open(payload.ciphertext, key, payload.nonce)
      case Some(text) => Ok(text)
      case None => Err(AppError.Crypto)
  }

  /** The stored form of a payload: nonce, then ciphertext. */
  function Serialize(payload: EncryptedPayload): bytes {
    payload.nonce + payload.ciphertext
  }

  function Deserialize(stored: bytes): Result<EncryptedPayload> {
    if |stored| < NONCE_LEN then Err(Storage)
    else Ok(EncryptedPayload(stored[..NONCE_LEN], stored[NONCE_LEN..]))
  }

  /** Decrypting a stored envelope. */
  function Unwrap(c: Cipher, stored: bytes, key: bytes): Result<bytes> {
    match Deserialize(stored)
    case Err(e) => Err(e)
    case Ok(payload) => Decrypt(c, payload, key)
  }

  /** Encrypting into a stored envelope. */
  function Wrap(c: Cipher, text: bytes, key: bytes, nonce: Nonce): Result<bytes> {
    match Encrypt(c, text, key, nonce)
    case Err(e) => Err(e)
    case Ok(payload) => Ok(Serialize(payload))
  }

  /** The stored form loses nothing, and every stored form long enough is the image of one payload. */
  lemma SerializeRoundTrip(payload: EncryptedPayload, stored: bytes)
    ensures Deserialize(Serialize(payload)) == Ok(payload)
    ensures Deserialize(stored).Ok? <==> |stored| >= NONCE_LEN
    ensures Deserialize(stored).Ok? ==> Serialize(Deserialize(stored).value) == stored
  {
    assert Serialize(payload)[..NONCE_LEN] == payload.nonce;
    assert Serialize(payload)[NONCE_LEN..] == payload.ciphertext;
    if |stored| >= NONCE_LEN {
      assert stored[..NONCE_LEN] + stored[NONCE_LEN..] == stored;
    }
  }

  /** Wrapping succeeds exactly for 32-byte keys, and the same key then recovers the text. */
  lemma WrapRoundTrip(c: Cipher, text: bytes, key: bytes, nonce: Nonce)
    ensures Wrap(c, text, key, nonce).Ok? <==> |key| == AES_256_KEY_LEN
    ensures Wrap(c, text, key, nonce).Ok? ==> Unwrap(c, Wrap(c, text, key, nonce).value, key) == Ok(text)
  {
    if |key| == AES_256_KEY_LEN {
      SerializeRoundTrip(EncryptedPayload(nonce, c.seal(text, key, nonce)), []);
    }
  }
}
