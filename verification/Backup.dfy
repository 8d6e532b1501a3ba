/** Encrypted backups: the binary container, its export and import, and the recovery-phrase container used by a
    restore. */
module Backup {
  import opened Types
  import opened Crypto
  import opened Paths
  import opened FileStore
  import Base64
  import Restore

  const DIGEST_LEN := 64
  /** HVBK1 */
  const MAGIC: bytes := [0x48, 0x56, 0x42, 0x4b, 0x31]
  /** The 16 bytes every SQLite 3 file begins with. */
  const SQLITE_HEADER: bytes :=
    [0x53, 0x51, 0x4c, 0x69, 0x74, 0x65, 0x20, 0x66, 0x6f, 0x72, 0x6d, 0x61, 0x74, 0x20, 0x33, 0x00]
  const MINIMUM_LEN := 5 + DIGEST_LEN + NONCE_LEN + 1

  predicate IsHexDigit(b: byte) {
    '0' as int <= b <= '9' as int || 'a' as int <= b <= 'f' as int || 'A' as int <= b <= 'F' as int
  }

  predicate AllHexDigits(s: bytes) {
    forall i :: 0 <= i < |s| ==> IsHexDigit(s[i])
  }

  /** SHA-256 printed as text, kept uninterpreted: 64 hexadecimal digits. */
  ghost predicate PrintsDigest(f: bytes -> bytes) {
    forall b: bytes :: |f(b)| == DIGEST_LEN && AllHexDigits(f(b))
  }

  type Digest = f: bytes -> bytes | PrintsDigest(f) ghost witness (b: bytes) => seq(DIGEST_LEN, _ => 48)

  // ---- the binary container ----

  datatype Sealed = Sealed(digest: bytes, nonce: Nonce, ciphertext: bytes)

  function SerializeBackup(s: Sealed): Result<bytes> {
    if |s.digest| != DIGEST_LEN then Err(Validation) else Ok(MAGIC + s.digest + s.nonce + s.ciphertext)
  }

  function ParseBackup(file: bytes): Result<Sealed> {
    if |file| < MINIMUM_LEN then Err(Validation)
    else if file[..5] != MAGIC then Err(Validation)
    else if !AllHexDigits(file[5..69]) then Err(Validation)
    else if file[81..] == [] then Err(Validation)
    else Ok(Sealed(file[5..69], file[69..81], file[81..]))
  }

  /** Parsing undoes serializing exactly for hexadecimal digests and a ciphertext that is not empty; serializing checks
      only the digest's length. */
  lemma ParseSerialize(s: Sealed)
    ensures SerializeBackup(s).Ok? <==> |s.digest| == DIGEST_LEN
    ensures SerializeBackup(s).Ok? ==>
      ParseBackup(SerializeBackup(s).value) ==
        if AllHexDigits(s.digest) && s.ciphertext != [] then Ok(s) else Err(Validation)
  {
    if |s.digest| == DIGEST_LEN {
      var file := SerializeBackup(s).value;
      assert file[..5] == MAGIC && file[5..69] == s.digest && file[69..81] == s.nonce && file[81..] == s.ciphertext;
    }
  }

  /** Every accepted file is the serialization of what was read from it. */
  lemma SerializeParse(file: bytes)
    requires ParseBackup(file).Ok?
    ensures SerializeBackup(ParseBackup(file).value) == Ok(file)
    ensures ParseBackup(file).value.ciphertext != [] && AllHexDigits(ParseBackup(file).value.digest)
  {
    assert file == file[..5] + file[5..69] + file[69..81] + file[81..];
  }

  // ---- sealing ----

  predicate IsSqlite(b: bytes) {
    SQLITE_HEADER <= b
  }

  function EncryptBytes(c: Cipher, digest: Digest, plaintext: bytes, key: bytes, nonce: Nonce): Result<Sealed> {
    if |key| != AES_256_KEY_LEN || !IsSqlite(plaintext) then Err(Validation)
    else Ok(Sealed(digest(plaintext), nonce, c.seal(plaintext, key, nonce)))
  }

  function DecryptBytes(c: Cipher, digest: Digest, s: Sealed, key: bytes): Result<bytes> {
    if |key| != AES_256_KEY_LEN then Err(Validation)
    else match c.open(s.ciphertext, key, s.nonce)
      case None => Err(AppError.Crypto)
      case Some(plaintext) =>
        if !IsSqlite(plaintext) || digest(plaintext) != s.digest then Err(Validation) else Ok(plaintext)
  }

  /** Sealing succeeds exactly for SQLite files under 32-byte keys; what it seals survives the container and opens under
      the same key; and whatever opens is a SQLite file with the recorded digest. */
  lemma SealRoundTrip(c: Cipher, digest: Digest, plaintext: bytes, key: bytes, nonce: Nonce, other: Sealed)
    ensures var r := EncryptBytes(c, digest, plaintext, key, nonce);
      && (r.Ok? <==> |key| == AES_256_KEY_LEN && IsSqlite(plaintext))
      && (r.Ok? ==> DecryptBytes(c, digest, r.value, key) == Ok(plaintext))
      && (r.Ok? ==> SerializeBackup(r.value).Ok? && ParseBackup(SerializeBackup(r.value).value) == Ok(r.value))
    ensures forall text: bytes :: DecryptBytes(c, digest, other, key) == Ok(text) <==>
      && |key| == AES_256_KEY_LEN && c.open(other.ciphertext, key, other.nonce) == Some(text)
      && IsSqlite(text) && digest(text) == other.digest
  {
    var r := EncryptBytes(c, digest, plaintext, key, nonce);
    if r.Ok? {
      ParseSerialize(r.value);
      assert |r.value.ciphertext| == |plaintext| + GCM_TAG_LEN;
    }
  }

  // ---- export and import of files ----

  function ReadFile(d: Disk, p: Path): (r: (Disk, Option<bytes>))
    ensures r.0.files == d.files
    ensures r.1.Some? ==> p in d.files && r.1.value == d.files[p]
  {
    (Consume(d), if p in d.files && NextOutcome(d).Done? then Some(d.files[p]) else None)
  }

  /** Directory, contents, permissions: what both directions do to their target. */
  function WriteProtected(d: Disk, p: Path, data: bytes): (r: (Disk, bool))
    ensures Extends(d, r.0, {p})
    ensures r.1 ==> r.0.files == d.files[p := data]
  {
    var (d1, made) := Ancillary(d);
    if !made then (d1, false)
    else
      var (d2, written) := WriteFile(d1, p, data);
      ExtendsTrans(d, d1, d2, {}, {p}, {p});
      if !written then (d2, false)
      else
        var (d3, restricted) := Ancillary(d2);
        ExtendsTrans(d, d2, d3, {p}, {}, {p});
        (d3, restricted)
  }

  function Export(c: Cipher, digest: Digest, d: Disk, db: Path, file: Path, key: bytes, nonce: Nonce)
    : (Disk, Result<bytes>)
  {
    var (d1, plaintext) := ReadFile(d, db);
    if plaintext.None? then (d1, Err(Io))
    else match EncryptBytes(c, digest, plaintext.value, key, nonce)
      case Err(e) => (d1, Err(e))
      case Ok(s) =>
        match SerializeBackup(s)
        case Err(e) => (d1, Err(e))
        case Ok(contents) =>
          var (d2, written) := WriteProtected(d1, file, contents);
          (d2, if written then Ok(s.digest) else Err(Io))
  }

  function Import(c: Cipher, digest: Digest, d: Disk, file: Path, target: Path, key: bytes): (Disk, Result<bytes>) {
    var (d1, contents) := ReadFile(d, file);
    if contents.None? then (d1, Err(Io))
    else match ParseBackup(contents.value)
      case Err(e) => (d1, Err(e))
      case Ok(s) =>
        match DecryptBytes(c, digest, s, key)
        case Err(e) => (d1, Err(e))
        case Ok(plaintext) =>
          var (d2, written) := WriteProtected(d1, target, plaintext);
          if !written then (d2, Err(Io))
          else
            var (d3, restored) := ReadFile(d2, target);
            (d3, if restored.None? then Err(Io) else if digest(restored.value) != s.digest then Err(Validation)
             else Ok(s.digest))
  }

  /** An export that succeeded can be imported from any later disk that still holds its file: the import reads back
      exactly the exported database, fails only if a file operation does, and touches no other file. */
  lemma ImportAfterExport(c: Cipher, digest: Digest, d: Disk, db: Path, file: Path, key: bytes, nonce: Nonce,
                          later: Disk, target: Path)
    requires Export(c, digest, d, db, file, key, nonce).1.Ok?
    requires file in later.files && later.files[file] == Export(c, digest, d, db, file, key, nonce).0.files[file]
    ensures db in d.files
    ensures var (d', r) := Import(c, digest, later, file, target, key);
      && (r.Ok? ==> d'.files == later.files[target := d.files[db]] && r == Export(c, digest, d, db, file, key, nonce).1)
      && (r.Err? ==> r == Err(Io))
      && (later.outcomes == [] ==> r.Ok?)
  {
    SealRoundTrip(c, digest, d.files[db], key, nonce, Sealed([], nonce, []));
  }

  /** Whatever comes of an import, no file but its target differs, and the target only once the container has been
      opened. */
  lemma ImportTouches(c: Cipher, digest: Digest, d: Disk, file: Path, target: Path, key: bytes)
    ensures var (d', r) := Import(c, digest, d, file, target, key);
      && Within(d.files, d'.files, {target})
      && (r.Ok? ==>
            && file in d.files && ParseBackup(d.files[file]).Ok?
            && var s := ParseBackup(d.files[file]).value;
            && r.value == s.digest && DecryptBytes(c, digest, s, key).Ok?
            && d'.files == d.files[target := DecryptBytes(c, digest, s, key).value])
      && (file !in d.files || ParseBackup(d.files[file]).Err?
          || DecryptBytes(c, digest, ParseBackup(d.files[file]).value, key).Err? ==>
            r.Err? && d'.files == d.files)
  {
  }

  /** And of an export, no file but the backup; it holds the database as sealed. */
  lemma ExportTouches(c: Cipher, digest: Digest, d: Disk, db: Path, file: Path, key: bytes, nonce: Nonce)
    ensures var (d', r) := Export(c, digest, d, db, file, key, nonce);
      && Within(d.files, d'.files, {file})
      && (r.Ok? ==>
            && db in d.files && IsSqlite(d.files[db]) && |key| == AES_256_KEY_LEN && r.value == digest(d.files[db])
            && d'.files == d.files[file := MAGIC + r.value + nonce + c.seal(d.files[db], key, nonce)])
      && (db in d.files && !(IsSqlite(d.files[db]) && |key| == AES_256_KEY_LEN) ==> r.Err? && d'.files == d.files)
  {
  }

  // ---- the recovery-phrase container ----

  datatype Payload = Payload(version: int, kdf: string, salt: string, nonce: string, ciphertext: string, digest: bytes,
                             size: nat)

  /** The JSON printer and parser, the Argon2id derivation and the phrase check, kept uninterpreted. */
  datatype Recovery = Recovery(
    printed: Payload -> bytes, parse: bytes -> Option<Payload>, derive: (string, bytes) -> Option<bytes>,
    validPhrase: string -> bool)

  ghost predicate RecoveryLaws(v: Recovery) {
    && (forall p: Payload :: v.parse(v.printed(p)) == Some(p))
    && (forall phrase: string, salt: bytes :: v.derive(phrase, salt).Some? ==>
        |v.derive(phrase, salt).value| == AES_256_KEY_LEN)
  }

  function HvbPayload(s: Sealed, salt: Salt, size: nat): Payload {
    Payload(1, "argon2id", Base64.Encode(salt), Base64.Encode(s.nonce), Base64.Encode(s.ciphertext), s.digest, size)
  }

  function EncodeHvb(c: Cipher, digest: Digest, v: Recovery, db: bytes, phrase: string, salt: Salt,
                     nonce: Nonce): Result<bytes> {
    match v.derive(phrase, salt)
    case None => Err(AppError.Crypto)
    case Some(key) =>
      match EncryptBytes(c, digest, db, key, nonce)
      case Err(e) => Err(e)
      case Ok(s) =>
        Ok(v.printed(HvbPayload(s, salt, |db|)))
  }

  function DecodeHvb(c: Cipher, digest: Digest, v: Recovery, file: bytes, phrase: string): Result<bytes> {
    if !v.validPhrase(phrase) then Err(Validation)
    else match v.parse(file)
      case None => Err(Validation)
      case Some(p) =>
        if p.version != 1 || p.kdf != "argon2id" then Err(Validation)
        else
          var salt, nonce, ciphertext := Base64.Decode(p.salt), Base64.Decode(p.nonce), Base64.Decode(p.ciphertext);
          if salt.None? || nonce.None? || ciphertext.None? || |nonce.value| != NONCE_LEN || salt.value == []
            then Err(Validation)
          else match v.derive(phrase, salt.value)
            case None => Err(AppError.Crypto)
            case Some(key) => DecryptBytes(c, digest, Sealed(p.digest, nonce.value, ciphertext.value), key)
  }

  lemma DecodePayload(c: Cipher, digest: Digest, v: Recovery, file: bytes, phrase: string, s: Sealed, salt: Salt,
                      size: nat)
    requires v.parse(file) == Some(HvbPayload(s, salt, size)) && v.validPhrase(phrase)
    ensures DecodeHvb(c, digest, v, file, phrase) ==
      match v.derive(phrase, salt) case None => Err(AppError.Crypto) case Some(key) => DecryptBytes(c, digest, s, key)
  {
    Base64.DecodeEncode(salt);
    Base64.DecodeEncode(s.nonce);
    Base64.DecodeEncode(s.ciphertext);
  }

  /** A container is decoded exactly if the phrase is valid, the version and derivation are known, the three texts
      decode to a salt, a 12-byte nonce and a ciphertext, and this opens under the derived key to a database of the
      recorded digest. */
  lemma DecodeHvbExactly(c: Cipher, digest: Digest, v: Recovery, file: bytes, phrase: string, db: bytes)
    requires RecoveryLaws(v)
    ensures DecodeHvb(c, digest, v, file, phrase) == Ok(db) <==>
      && v.validPhrase(phrase) && v.parse(file).Some?
      && var p := v.parse(file).value;
      && p.version == 1 && p.kdf == "argon2id" && IsSqlite(db) && digest(db) == p.digest
      && exists salt, nonce: Nonce, ciphertext ::
           && Base64.Decode(p.salt) == Some(salt) && salt != [] && Base64.Decode(p.nonce) == Some(nonce)
           && Base64.Decode(p.ciphertext) == Some(ciphertext)
           && v.derive(phrase, salt).Some? && c.open(ciphertext, v.derive(phrase, salt).value, nonce) == Some(db)
  {
  }

  /** What was exported under a valid phrase is decoded under it, bit for bit. */
  lemma HvbRoundTrip(c: Cipher, digest: Digest, v: Recovery, db: bytes, phrase: string, salt: Salt, nonce: Nonce)
    requires RecoveryLaws(v) && v.validPhrase(phrase) && EncodeHvb(c, digest, v, db, phrase, salt, nonce).Ok?
    ensures DecodeHvb(c, digest, v, EncodeHvb(c, digest, v, db, phrase, salt, nonce).value, phrase) == Ok(db)
  {
    var key := v.derive(phrase, salt).value;
    var s := EncryptBytes(c, digest, db, key, nonce).value;
    SealRoundTrip(c, digest, db, key, nonce, s);
    var p := HvbPayload(s, salt, |db|);
    assert v.parse(v.printed(p)) == Some(p);
    DecodePayload(c, digest, v, v.printed(p), phrase, s, salt, |db|);
  }

  /** Main result. A completed restore from an exported container brings the exported database back, up to what the
      password update then edits, and keeps the database it replaces. */
  lemma RestoreOfExport(c: Cipher, digest: Digest, v: Recovery, exported: bytes, phrase: string, salt: Salt,
                        nonce: Nonce, d: Disk, db: Path, edits: seq<bytes>)
    requires RecoveryLaws(v) && v.validPhrase(phrase) && EncodeHvb(c, digest, v, exported, phrase, salt, nonce).Ok?
    requires !HasOldExtension(db)
    ensures var file := EncodeHvb(c, digest, v, exported, phrase, salt, nonce).value;
      var (d', r) := Restore.RunRestore(d, db, Restore.Inputs(DecodeHvb(c, digest, v, file, phrase), edits, true));
      && Restore.SafeThroughout(d, d', db)
      && (r.Ok? ==>
            && db in d'.files && d'.files[db] == (if edits == [] then exported else edits[|edits| - 1])
            && (db in d.files ==> OldPath(db) in d'.files && d'.files[OldPath(db)] == d.files[db]))
      && (d.outcomes == [] ==> r.Ok?)
  {
    HvbRoundTrip(c, digest, v, exported, phrase, salt, nonce);
    Restore.RestoreKeepsOriginal(d, db, Restore.Inputs(Ok(exported), edits, true));
    if d.outcomes == [] {
      Restore.RestoreCompletes(d, db, Restore.Inputs(Ok(exported), edits, true));
    }
  }

  // ---- as they run ----

  class BackupService {
    const c: Cipher
    const digest: Digest
    const fs: FileSystem

    constructor (c: Cipher, digest: Digest, fs: FileSystem)
      ensures this.c == c && this.digest == digest && this.fs == fs
    {
      this.c := c;
      this.digest := digest;
      this.fs := fs;
    }

    method Read(p: Path) returns (r: Option<bytes>)
      modifies fs
      ensures (fs.State(), r) == ReadFile(old(fs.State()), p)
    {
      var o := fs.Take();
      return if p in fs.files && o.Done? then Some(fs.files[p]) else None;
    }

    method ReplaceContents(p: Path, data: bytes) returns (ok: bool)
      modifies fs
      ensures (fs.State(), ok) == WriteProtected(old(fs.State()), p, data)
    {
      ok := fs.CreateDirectoryOrPermissions();
      if !ok { return; }
      ok := fs.Write(p, data);
      if !ok { return; }
      ok := fs.CreateDirectoryOrPermissions();
    }

    method ExportBackup(db: Path, file: Path, key: bytes, nonce: Nonce) returns (r: Result<bytes>)
      modifies fs
      ensures (fs.State(), r) == Export(c, digest, old(fs.State()), db, file, key, nonce)
    {
      var plaintext := Read(db);
      if plaintext.None? { return Err(Io); }
      match EncryptBytes(c, digest, plaintext.value, key, nonce) {
        case Err(e) => return Err(e);
        case Ok(s) =>
          match SerializeBackup(s) {
            case Err(e) => return Err(e);
            case Ok(contents) =>
              var written := ReplaceContents(file, contents);
              return if written then Ok(s.digest) else Err(Io);
          }
      }
    }

    method ImportBackup(file: Path, target: Path, key: bytes) returns (r: Result<bytes>)
      modifies fs
      ensures (fs.State(), r) == Import(c, digest, old(fs.State()), file, target, key)
    {
      var contents := Read(file);
      if contents.None? { return Err(Io); }
      match ParseBackup(contents.value) {
        case Err(e) => return Err(e);
        case Ok(s) =>
          match DecryptBytes(c, digest, s, key) {
            case Err(e) => return Err(e);
            case Ok(plaintext) =>
              var written := ReplaceContents(target, plaintext);
              if !written { return Err(Io); }
              var restored := Read(target);
              return if restored.None? then Err(Io)
                else if digest(restored.value) != s.digest then Err(Validation) else Ok(s.digest);
          }
      }
    }
  }
}
