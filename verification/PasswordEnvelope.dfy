/** The password envelope: version byte, two big-endian 16-bit lengths, salt, hash. */
module PasswordEnvelope {
  import opened Types

  const VERSION: byte := 1
  const HEADER_LEN := 5
  const U16_MODULUS := 0x1_0000

  datatype Credential = Credential(salt: bytes, hash: bytes)

  /** The length as the authentication service writes it: truncated to 16 bits, most significant byte first. */
  function U16ToBytes(n: nat): (b: bytes)
    ensures |b| == 2
    ensures U16FromBytes(b[0], b[1]) == n % U16_MODULUS
  {
    var m := n % U16_MODULUS;
    [m / 256, m % 256]
  }

  function U16FromBytes(high: byte, low: byte): (n: nat)
    ensures n < U16_MODULUS
  {
    high * 256 + low
  }

  lemma U16RoundTrip(high: byte, low: byte)
    ensures U16ToBytes(U16FromBytes(high, low)) == [high, low]
  {
  }

  function Encode(record: Credential): bytes {
    [VERSION] + U16ToBytes(|record.salt|) + U16ToBytes(|record.hash|) + record.salt + record.hash
  }

  /** The decoder of the authentication service. */
  function Decode(envelope: bytes): Result<Credential> {
    if |envelope| < HEADER_LEN then Err(Validation)
    else if envelope[0] != VERSION then Err(Validation)
    else
      var saltLen := U16FromBytes(envelope[1], envelope[2]);
      var hashLen := U16FromBytes(envelope[3], envelope[4]);
      if saltLen == 0 || hashLen == 0 || |envelope| != HEADER_LEN + saltLen + hashLen then Err(Validation)
      else Ok(Credential(envelope[HEADER_LEN..HEADER_LEN + saltLen], envelope[HEADER_LEN + saltLen..]))
  }

  /** The decoder that the team service and the TOTP service each repeat: it keeps only the hash. */
  function DeriveKey(envelope: bytes): Result<bytes> {
    if |envelope| < HEADER_LEN then Err(Validation)
    else if envelope[0] != VERSION then Err(Validation)
    else
      var saltLen := U16FromBytes(envelope[1], envelope[2]);
      var hashLen := U16FromBytes(envelope[3], envelope[4]);
      var hashStart := HEADER_LEN + saltLen;
      if hashLen == 0 || |envelope| != hashStart + hashLen then Err(Validation)
      else Ok(envelope[hashStart..hashStart + hashLen])
  }

  predicate Encodable(record: Credential) {
    0 < |record.salt| < U16_MODULUS && 0 < |record.hash| < U16_MODULUS
  }

  /** Two bytes, the more significant first. */
  function BigEndian(high: int, low: int): int {
    256 * high + low
  }

  /** The layout, number by number: version 1, the two lengths modulo 65536, and then salt and hash. */
  lemma LayoutExactly(record: Credential)
    ensures var e := Encode(record);
      && |e| == 5 + |record.salt| + |record.hash| && e[0] == 1
      && BigEndian(e[1], e[2]) == |record.salt| % 65536 && BigEndian(e[3], e[4]) == |record.hash| % 65536
      && e[5..5 + |record.salt|] == record.salt && e[5 + |record.salt|..] == record.hash
  {
    EncodeShape(record);
  }

  lemma EncodeShape(record: Credential)
    ensures var e := Encode(record);
      && |e| == HEADER_LEN + |record.salt| + |record.hash|
      && e[0] == VERSION
      && U16FromBytes(e[1], e[2]) == |record.salt| % U16_MODULUS
      && U16FromBytes(e[3], e[4]) == |record.hash| % U16_MODULUS
      && e[HEADER_LEN..HEADER_LEN + |record.salt|] == record.salt
      && e[HEADER_LEN + |record.salt|..] == record.hash
  {
    var s, h := U16ToBytes(|record.salt|), U16ToBytes(|record.hash|);
    var e := Encode(record);
    assert e[1] == s[0] && e[2] == s[1] && e[3] == h[0] && e[4] == h[1];
  }

  /** Decoding undoes encoding exactly for the lengths that 16 bits can hold; otherwise it is refused. */
  lemma DecodeEncode(record: Credential)
    ensures Decode(Encode(record)) == (if Encodable(record) then Ok(record) else Err(Validation))
    ensures Encodable(record) ==> DeriveKey(Encode(record)) == Ok(record.hash)
  {
    EncodeShape(record);
    if Encodable(record) {
      var e := Encode(record);
      assert e[HEADER_LEN + |record.salt|..HEADER_LEN + |record.salt| + |record.hash|] ==
        e[HEADER_LEN + |record.salt|..];
    }
  }

  /** Every accepted envelope is the encoding of the record read from it. */
  lemma EncodeDecode(envelope: bytes)
    requires Decode(envelope).Ok?
    ensures Encodable(Decode(envelope).value)
    ensures Encode(Decode(envelope).value) == envelope
  {
    var r := Decode(envelope).value;
    U16RoundTrip(envelope[1], envelope[2]);
    U16RoundTrip(envelope[3], envelope[4]);
    var saltEnd := HEADER_LEN + |r.salt|;
    assert envelope == envelope[..HEADER_LEN] + envelope[HEADER_LEN..saltEnd] + envelope[saltEnd..];
    assert envelope[..HEADER_LEN] == [VERSION] + [envelope[1], envelope[2]] + [envelope[3], envelope[4]];
  }

  /** The looser decoder agrees with the strict one wherever the strict one accepts. */
  lemma DecodersAgree(envelope: bytes)
    ensures Decode(envelope).Ok? ==> DeriveKey(envelope) == Ok(Decode(envelope).value.hash)
  {
    if Decode(envelope).Ok? {
      EncodeDecode(envelope);
      DecodeEncode(Decode(envelope).value);
    }
  }

  ghost predicate IsSaltless(envelope: bytes, hash: bytes) {
    0 < |hash| < U16_MODULUS && envelope == Encode(Credential([], hash))
  }

  /** What the looser decoder accepts in addition is exactly the encodings with an empty salt. */
  lemma LooserAcceptsSaltless(envelope: bytes)
    ensures DeriveKey(envelope).Ok? && Decode(envelope).Err? <==> exists hash :: IsSaltless(envelope, hash)
  {
    if DeriveKey(envelope).Ok? && Decode(envelope).Err? {
      var hash := DeriveKey(envelope).value;
      U16RoundTrip(envelope[1], envelope[2]);
      U16RoundTrip(envelope[3], envelope[4]);
      assert envelope == [VERSION] + [envelope[1], envelope[2]] + [envelope[3], envelope[4]] + hash;
      assert IsSaltless(envelope, hash);
    }
    if hash :| IsSaltless(envelope, hash) {
      EncodeShape(Credential([], hash));
    }
  }
}
