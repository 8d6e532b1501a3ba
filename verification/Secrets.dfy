/** Secret items: storage, trash, and the restore transaction that revives the vault. */
module Secrets {
  import opened Types
  import opened Crypto
  import opened Store
  import V = Vaults

  function StorageFor(kind: SecretKind): BlobStorage {
    match kind
    case Password => Inline
    case ApiToken => Inline
    case SshKey => Inline
    case SecureDocument => File
  }

  /** The row as inserted: the blob goes to the column its storage mode names. */
  function NewRow(vault: Uuid, kind: SecretKind, blob: bytes): SecretRow {
    var storage := StorageFor(kind);
    SecretRow(vault, kind, storage,
              if storage == Inline then Some(blob) else None, if storage == File then Some(blob) else None, None)
  }

  function StoredBlob(row: SecretRow): Result<bytes> {
    match (if row.storage == Inline then row.inline else row.file)
    case Some(blob) => Ok(blob)
    case None => Err(Storage)
  }

  /** The foreign key only asks that the vault row exists; a deleted vault is accepted. */
  function CreateSecret(c: Cipher, db: Db, id: Uuid, vault: Uuid, kind: SecretKind, text: bytes, vaultKey: bytes,
                        nonce: Nonce, writes: nat)
    : (Db, Result<()>)
  {
    if text == [] then (db, Err(Validation))
    else match Wrap(c, text, vaultKey, nonce)
      case Err(e) => (db, Err(e))
      case Ok(blob) =>
        if writes < 1 || id in db.secrets || vault !in db.vaults then (db, Err(Database))
        else (db.(secrets := db.secrets[id := NewRow(vault, kind, blob)]), Ok(()))
  }

  predicate SecretLive(db: Db, id: Uuid) {
    id in db.secrets && db.secrets[id].deletedAt.None?
  }

  function GetSecret(c: Cipher, db: Db, id: Uuid, vaultKey: bytes): Result<bytes> {
    if !SecretLive(db, id) then Err(NotFound)
    else match StoredBlob(db.secrets[id])
      case Err(e) => Err(e)
      case Ok(blob) => Unwrap(c, blob, vaultKey)
  }

  /** Replacing the encrypted value of a live secret, in the column its storage mode names. */
  function UpdateSecret(c: Cipher, db: Db, id: Uuid, text: bytes, vaultKey: bytes, nonce: Nonce, writes: nat)
    : (Db, Result<()>)
  {
    if !SecretLive(db, id) then (db, Err(Storage))
    else if writes < 1 then (db, Err(Database))
    else if text == [] then (db, Err(Validation))
    else match Wrap(c, text, vaultKey, nonce)
      case Err(e) => (db, Err(e))
      case Ok(blob) =>
        if writes < 2 then (db, Err(Database))
        else
          var row := db.secrets[id];
          var row' := if row.storage == Inline then row.(inline := Some(blob), file := None)
                      else row.(file := Some(blob), inline := None);
          (db.(secrets := db.secrets[id := row']), Ok(()))
  }

  function SoftDelete(db: Db, id: Uuid, now: int, writes: nat): (Db, Result<()>) {
    if writes < 1 then (db, Err(Database))
    else if !SecretLive(db, id) then (db, Err(Storage))
    else (db.(secrets := db.secrets[id := db.secrets[id].(deletedAt := Some(now))]), Ok(()))
  }

  predicate InTrash(db: Db, id: Uuid, vault: Uuid) {
    id in db.secrets && db.secrets[id].vault == vault && db.secrets[id].deletedAt.Some?
  }

  /** One transaction: revive the vault if it is deleted, then the secret; nothing is kept when the secret is not in the
      trash. */
  function RestoreSecret(db: Db, id: Uuid, vault: Uuid, writes: nat): (Db, Result<()>) {
    if vault !in db.vaults then (db, Err(Storage))
    else
      var revived := db.(vaults := db.vaults[vault := db.vaults[vault].(deletedAt := None)]);
      if !InTrash(revived, id, vault) then (db, Err(Storage))
      else if writes < 1 then (db, Err(Database))
      else (revived.(secrets := revived.secrets[id := revived.secrets[id].(deletedAt := None)]), Ok(()))
  }

  function PermanentDelete(db: Db, id: Uuid, vault: Uuid, writes: nat): (Db, Result<()>) {
    if writes < 1 then (db, Err(Database))
    else if !InTrash(db, id, vault) then (db, Err(Storage))
    else (db.(secrets := map x | x in db.secrets && x != id :: db.secrets[x]), Ok(()))
  }

  function TrashOf(db: Db, vault: Uuid): set<Uuid> {
    set x | x in db.secrets && InTrash(db, x, vault)
  }

  function LiveOf(db: Db, vault: Uuid): set<Uuid> {
    set x | x in db.secrets && db.secrets[x].vault == vault && db.secrets[x].deletedAt.None?
  }

  function EmptyTrash(db: Db, vault: Uuid, writes: nat): (Db, Result<nat>) {
    if writes < 1 then (db, Err(Database))
    else (db.(secrets := map x | x in db.secrets && !InTrash(db, x, vault) :: db.secrets[x]), Ok(|TrashOf(db, vault)|))
  }

  /** A secret is read exactly if it is live, the column of its storage mode holds a blob, and the key opens it. */
  lemma GetExactly(c: Cipher, db: Db, id: Uuid, vaultKey: bytes, text: bytes)
    ensures GetSecret(c, db, id, vaultKey) == Ok(text) <==>
      && id in db.secrets && db.secrets[id].deletedAt.None?
      && var blob := if db.secrets[id].storage == File then db.secrets[id].file else db.secrets[id].inline;
      blob.Some? && Unwrap(c, blob.value, vaultKey) == Ok(text)
  {
  }

  /** A value written under a vault key is read back under it, whichever column holds it. */
  lemma CreateGetRoundTrip(c: Cipher, db: Db, id: Uuid, vault: Uuid, kind: SecretKind, text: bytes, vaultKey: bytes,
                           nonce: Nonce, writes: nat)
    requires CreateSecret(c, db, id, vault, kind, text, vaultKey, nonce, writes).1.Ok?
    ensures var after := CreateSecret(c, db, id, vault, kind, text, vaultKey, nonce, writes).0;
      && GetSecret(c, after, id, vaultKey) == Ok(text)
      && SecretLive(after, id) && after.secrets[id].vault == vault && after.secrets[id].kind == kind
      && after == db.(secrets := db.secrets[id := after.secrets[id]])
      && (after.secrets[id].inline.Some? <==> kind in {Password, ApiToken, SshKey})
      && (after.secrets[id].file.Some? <==> kind == SecureDocument)
  {
    WrapRoundTrip(c, text, vaultKey, nonce);
  }

  lemma UpdateGetRoundTrip(c: Cipher, db: Db, id: Uuid, text: bytes, vaultKey: bytes, nonce: Nonce, writes: nat)
    requires UpdateSecret(c, db, id, text, vaultKey, nonce, writes).1.Ok?
    ensures var db' := UpdateSecret(c, db, id, text, vaultKey, nonce, writes).0;
      && GetSecret(c, db', id, vaultKey) == Ok(text)
      && (forall x :: x != id ==>
            (x in db'.secrets <==> x in db.secrets) && (x in db.secrets ==> db'.secrets[x] == db.secrets[x]))
      && db'.secrets[id].(inline := None, file := None) == db.secrets[id].(inline := None, file := None)
  {
    WrapRoundTrip(c, text, vaultKey, nonce);
  }

  // ---- deleting a vault and restoring its secrets ----

  function RestoreAll(db: Db, ids: seq<Uuid>, vault: Uuid): Db {
    if ids == [] then db
    else RestoreSecret(RestoreAll(db, ids[..|ids| - 1], vault), ids[|ids| - 1], vault, 1).0
  }

  /** The row of a secret after its vault was deleted at `at` and the secrets `back` were brought back. */
  function RestoredRow(before: Db, vault: Uuid, at: int, back: set<Uuid>, id: Uuid): SecretRow
    requires id in before.secrets
  {
    var row := before.secrets[id];
    if row.vault == vault && row.deletedAt.None? && id !in back then row.(deletedAt := Some(at)) else row
  }

  ghost predicate PartlyRestored(before: Db, now: Db, vault: Uuid, at: int, back: set<Uuid>) {
    && vault in before.vaults
    && now == before.(vaults := now.vaults, secrets := now.secrets)
    && now.vaults == before.vaults[vault := before.vaults[vault].(deletedAt := if back == {} then Some(at) else None)]
    && now.secrets.Keys == before.secrets.Keys
    && (forall x :: x in before.secrets ==> now.secrets[x] == RestoredRow(before, vault, at, back, x))
  }

  lemma RestoreOneMore(before: Db, mid: Db, vault: Uuid, at: int, back: set<Uuid>, id: Uuid)
    requires PartlyRestored(before, mid, vault, at, back) && id in LiveOf(before, vault) && id !in back
    ensures PartlyRestored(before, RestoreSecret(mid, id, vault, 1).0, vault, at, back + {id})
  {
    assert mid.secrets[id] == RestoredRow(before, vault, at, back, id);
    assert InTrash(mid, id, vault);
    assert id in back + {id};
  }

  function SetOf(ids: seq<Uuid>): set<Uuid> {
    set x | x in ids
  }

  lemma NothingRestored(before: Db, vault: Uuid, at: int)
    requires V.DeleteVaultRow(before, vault, at).Ok?
    ensures PartlyRestored(before, V.DeleteVaultRow(before, vault, at).value, vault, at, {})
  {
  }

  lemma {:induction false} RestoreAllProgress(before: Db, deleted: Db, vault: Uuid, at: int, ids: seq<Uuid>)
    requires V.DeleteVaultRow(before, vault, at) == Ok(deleted)
    requires SetOf(ids) <= LiveOf(before, vault) && Distinct(ids)
    ensures PartlyRestored(before, RestoreAll(deleted, ids, vault), vault, at, SetOf(ids))
  {
    if ids == [] {
      NothingRestored(before, vault, at);
      assert SetOf(ids) == {};
    } else {
      var k := |ids| - 1;
      var head, id := ids[..k], ids[k];
      assert ids == head + [id];
      assert id in SetOf(ids);
      assert SetOf(ids) == SetOf(head) + {id};
      RestoreAllProgress(before, deleted, vault, at, head);
      RestoreOneMore(before, RestoreAll(deleted, head, vault), vault, at, SetOf(head), id);
    }
  }

  lemma PartlyRestoredSets(before: Db, now: Db, vault: Uuid, at: int, back: set<Uuid>)
    requires VaultLive(before, vault) && PartlyRestored(before, now, vault, at, back) && back <= LiveOf(before, vault)
    ensures LiveOf(now, vault) == back
    ensures TrashOf(now, vault) == TrashOf(before, vault) + LiveOf(before, vault) - back
    ensures VaultLive(now, vault) <==> back != {}
    ensures back != {} && back == LiveOf(before, vault) ==> now == before
  {
    if back != {} && back == LiveOf(before, vault) {
      assert now.vaults == before.vaults;
      assert now.secrets == before.secrets;
    }
  }

  /** Deleting a vault and then restoring, in any order, each secret that was live beforehand gives back the very same
      tables, deletion times of older trash included, as soon as one secret was live; restoring only some of them leaves
      exactly those live. */
  lemma DeleteThenRestore(before: Db, deleted: Db, vault: Uuid, at: int, ids: seq<Uuid>)
    requires V.DeleteVaultRow(before, vault, at) == Ok(deleted)
    requires SetOf(ids) <= LiveOf(before, vault) && Distinct(ids)
    ensures var after := RestoreAll(deleted, ids, vault);
      && LiveOf(after, vault) == SetOf(ids)
      && TrashOf(after, vault) == TrashOf(before, vault) + LiveOf(before, vault) - SetOf(ids)
      && (VaultLive(after, vault) <==> SetOf(ids) != {})
      && (SetOf(ids) != {} && SetOf(ids) == LiveOf(before, vault) ==> after == before)
  {
    RestoreAllProgress(before, deleted, vault, at, ids);
    PartlyRestoredSets(before, RestoreAll(deleted, ids, vault), vault, at, SetOf(ids));
  }

  /** A restore that reports an error changed nothing, and it succeeds exactly for a secret in the trash of that
      vault. */
  lemma RestoreAllOrNothing(db: Db, id: Uuid, vault: Uuid, writes: nat)
    ensures var (db', r) := RestoreSecret(db, id, vault, writes);
      && (r.Ok? <==> vault in db.vaults && InTrash(db, id, vault) && writes >= 1)
      && (r.Err? ==> db' == db)
      && (r.Ok? ==> VaultLive(db', vault) && LiveOf(db', vault) == LiveOf(db, vault) + {id}
                    && TrashOf(db', vault) == TrashOf(db, vault) - {id})
  {
  }

  // ---- what the trash calls do to the live and trashed sets ----

  /** The secrets of `vault` are, row by row, what they were. */
  ghost predicate SameSecretsOf(before: Db, after: Db, vault: Uuid) {
    LiveOf(after, vault) == LiveOf(before, vault) && TrashOf(after, vault) == TrashOf(before, vault) &&
    forall x :: x in LiveOf(before, vault) + TrashOf(before, vault) ==> after.secrets[x] == before.secrets[x]
  }

  /** Soft deletion succeeds exactly for a live secret, moves it to its vault's trash, and concerns no other vault. */
  lemma SoftDeleteOutcome(db: Db, id: Uuid, now: int, writes: nat, other: Uuid)
    ensures var (after, r) := SoftDelete(db, id, now, writes);
      && (r.Ok? <==> SecretLive(db, id) && writes >= 1)
      && (r.Err? ==> after == db)
      && (r.Ok? ==>
            var vault := db.secrets[id].vault;
            && LiveOf(after, vault) == LiveOf(db, vault) - {id}
            && TrashOf(after, vault) == TrashOf(db, vault) + {id}
            && after.secrets[id].deletedAt == Some(now)
            && (other != vault ==> SameSecretsOf(db, after, other)))
  {
  }

  /** Permanent deletion succeeds exactly for a secret in that vault's trash, removes it, and touches nothing live. */
  lemma PermanentDeleteOutcome(db: Db, id: Uuid, vault: Uuid, writes: nat, other: Uuid)
    ensures var (after, r) := PermanentDelete(db, id, vault, writes);
      && (r.Ok? <==> id in TrashOf(db, vault) && writes >= 1)
      && (r.Err? ==> after == db)
      && (r.Ok? ==>
            && id !in after.secrets && TrashOf(after, vault) == TrashOf(db, vault) - {id}
            && LiveOf(after, vault) == LiveOf(db, vault)
            && (other != vault ==> SameSecretsOf(db, after, other)))
  {
  }

  /** Emptying the trash leaves it empty, reports how much it held, and touches neither a live secret nor another
      vault. */
  lemma EmptyTrashOutcome(db: Db, vault: Uuid, writes: nat, other: Uuid)
    ensures var (after, r) := EmptyTrash(db, vault, writes);
      && (r.Ok? <==> writes >= 1)
      && (r.Err? ==> after == db)
      && (r.Ok? ==>
            && TrashOf(after, vault) == {} && r.value == |TrashOf(db, vault)|
            && LiveOf(after, vault) == LiveOf(db, vault)
            && after.secrets.Keys == db.secrets.Keys - TrashOf(db, vault)
            && (other != vault ==> SameSecretsOf(db, after, other)))
  {
  }
}
