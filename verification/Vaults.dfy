/** Vaults: the vault service and the vault half of the vault repository. */
module Vaults {
  import opened Types
  import opened Text
  import opened Crypto
  import opened Store
  import AC = AccessControl

  datatype AccessKind = Owner | DirectShare | TeamShare

  datatype AccessRow = AccessRow(owner: Uuid, version: nat, role: ShareRole, kind: AccessKind)

  function OwnerRows(db: Db, user: Uuid, vault: Uuid): seq<AccessRow> {
    if VaultLive(db, vault) && db.vaults[vault].owner == user
    then [AccessRow(user, db.vaults[vault].version, VaultAdmin, Owner)]
    else []
  }

  function SharedRows(db: Db, user: Uuid, vault: Uuid): seq<AccessRow> {
    if (vault, user) in db.shares && VaultLive(db, vault) && db.vaults[vault].owner != user
    then
      var share := db.shares[(vault, user)];
      [AccessRow(db.vaults[vault].owner, db.vaults[vault].version, share.role,
                 if share.viaTeam.None? then DirectShare else TeamShare)]
    else []
  }

  /** The rows of the `accessible_vaults` view for one user and one vault: a UNION ALL of two selections. */
  function AccessRows(db: Db, user: Uuid, vault: Uuid): seq<AccessRow> {
    OwnerRows(db, user, vault) + SharedRows(db, user, vault)
  }

  function GetPermission(db: Db, user: Uuid, vault: Uuid): Option<AccessRow> {
    var rows := AccessRows(db, user, vault);
    if rows == [] then None else Some(rows[0])
  }

  function VaultResource(row: AccessRow, user: Uuid): AC.Resource {
    AC.Vault(row.owner == user, row.kind == DirectShare, row.kind == TeamShare, Some(row.role))
  }

  /** The envelope a permitted requester is given: the owner's own, or the requester's share. */
  function EnvelopeFor(db: Db, requester: Uuid, vault: Uuid, row: AccessRow): Result<bytes> {
    if row.owner == requester then
      if vault in db.vaults && db.vaults[vault].envelope.Some? then Ok(db.vaults[vault].envelope.value)
        else Err(Storage)
    else
      if (vault, requester) in db.shares then Ok(db.shares[(vault, requester)].envelope) else Err(Denied)
  }

  function OpenVaultForUser(c: Cipher, db: Db, requester: Uuid, vault: Uuid, masterKey: bytes,
                            writes: nat): Result<bytes> {
    if requester !in db.users then Err(NotFound)
    else match GetPermission(db, requester, vault)
      case None => Err(Denied)
      case Some(row) =>
        if !AC.Permits(db.users[requester].role, AC.VaultOpen, VaultResource(row, requester)) then Err(Denied)
        else match EnvelopeFor(db, requester, vault, row)
          case Err(e) => Err(e)
          case Ok(envelope) =>
            match Unwrap(c, envelope, masterKey)
            case Err(e) => Err(e)
            case Ok(key) => if writes < 1 then Err(Database) else Ok(key)
  }

  function OpenVault(c: Cipher, db: Db, vault: Uuid, masterKey: bytes, writes: nat): Result<bytes> {
    if !VaultLive(db, vault) then Err(NotFound)
    else OpenVaultForUser(c, db, db.vaults[vault].owner, vault, masterKey, writes)
  }

  /** Storing a vault key bumps the version; deleted vaults are refused. */
  function UpdateEnvelope(db: Db, vault: Uuid, envelope: bytes): Option<Db> {
    if !VaultLive(db, vault) then None
    else Some(db.(vaults := db.vaults[vault :=
      db.vaults[vault].(envelope := Some(envelope), version := db.vaults[vault].version + 1)]))
  }

  function CreateVault(c: Cipher, db: Db, owner: Uuid, name: string, masterKey: bytes,
                       id: Uuid, vaultKey: bytes, nonce: Nonce, writes: nat): (Db, Result<Uuid>) {
    if Trim(name) == [] then (db, Err(Validation))
    else if owner !in db.users then (db, Err(NotFound))
    else if !AC.Permits(db.users[owner].role, AC.VaultCreate, AC.Global) then (db, Err(Denied))
    else match Wrap(c, vaultKey, masterKey, nonce)
      case Err(e) => (db, Err(e))
      case Ok(envelope) =>
        if writes < 1 || id in db.vaults then (db, Err(Database))
        else
          var inserted := db.(vaults := db.vaults[id := VaultRow(owner, name, None, 1, None)]);
          if writes < 2 then (inserted, Err(Database))
          else match UpdateEnvelope(inserted, id, envelope)
            case None => (inserted, Err(Storage))
            case Some(updated) => (updated, if writes < 3 then Err(Database) else Ok(id))
  }

  /** One transaction: the vault is marked deleted, and with it every secret of it that is still live. */
  function DeleteVaultRow(db: Db, vault: Uuid, now: int): Result<Db> {
    if !VaultLive(db, vault) then Err(NotFound)
    else Ok(db.(
      vaults := db.vaults[vault := db.vaults[vault].(deletedAt := Some(now))],
      secrets := map x | x in db.secrets ::
        if db.secrets[x].vault == vault && db.secrets[x].deletedAt.None?
        then db.secrets[x].(deletedAt := Some(now)) else db.secrets[x]))
  }

  function DeleteVault(db: Db, requester: Uuid, vault: Uuid, now: int, writes: nat): (Db, Result<()>) {
    if requester !in db.users then (db, Err(NotFound))
    else match GetPermission(db, requester, vault)
      case None => (db, Err(Denied))
      case Some(row) =>
        if !AC.Permits(db.users[requester].role, AC.VaultDelete, VaultResource(row, requester)) then (db, Err(Denied))
        else if writes < 1 then (db, Err(Database))
        else match DeleteVaultRow(db, vault, now)
          case Err(e) => (db, Err(e))
          case Ok(deleted) => (deleted, Ok(()))
  }

  // ---- who can open what ----

  /** The view never yields two rows for one user and one vault, and yields one exactly for the owner or a
      share holder of a live vault. */
  lemma AccessRowsUnique(db: Db, user: Uuid, vault: Uuid)
    ensures |AccessRows(db, user, vault)| <= 1
    ensures |AccessRows(db, user, vault)| == 1 <==>
      VaultLive(db, vault) && (db.vaults[vault].owner == user || (vault, user) in db.shares)
  {
  }

  /** The envelope that opens `vault` for `user`, when the user is its owner or holds a share of it. */
  function KeyMaterial(db: Db, user: Uuid, vault: Uuid): Option<bytes> {
    if !VaultLive(db, vault) then None
    else if db.vaults[vault].owner == user then db.vaults[vault].envelope
    else if (vault, user) in db.shares then Some(db.shares[(vault, user)].envelope)
    else None
  }

  /** Opening succeeds exactly for an existing user holding key material of a live vault that the given key
      decrypts; being a global administrator makes no difference. */
  lemma OpensExactly(c: Cipher, db: Db, requester: Uuid, vault: Uuid, masterKey: bytes, writes: nat, key: bytes)
    ensures OpenVaultForUser(c, db, requester, vault, masterKey, writes) == Ok(key) <==>
      && requester in db.users && writes >= 1
      && KeyMaterial(db, requester, vault).Some?
      && Unwrap(c, KeyMaterial(db, requester, vault).value, masterKey) == Ok(key)
  {
    AccessRowsUnique(db, requester, vault);
  }

  /** Opening a vault by its own key alone asks for a live vault and opens it as its owner would. */
  lemma OwnerOpensExactly(c: Cipher, db: Db, vault: Uuid, masterKey: bytes, writes: nat, key: bytes)
    ensures OpenVault(c, db, vault, masterKey, writes) == Ok(key) <==>
      && VaultLive(db, vault) && db.vaults[vault].owner in db.users && writes >= 1
      && db.vaults[vault].envelope.Some? && Unwrap(c, db.vaults[vault].envelope.value, masterKey) == Ok(key)
  {
    if VaultLive(db, vault) { OpensExactly(c, db, db.vaults[vault].owner, vault, masterKey, writes, key); }
  }

  /** What the view entitles to: everyone it lists may open, those with a writing role may write, and sharing, revoking
      and rotating is for the owner, vault administrators and global administrators. */
  lemma RightsExactly(db: Db, user: Uuid, vault: Uuid, role: UserRole)
    requires GetPermission(db, user, vault).Some?
    ensures var row := GetPermission(db, user, vault).value;
      var resource := VaultResource(row, user);
      var master := role == Admin || Owns(db, user, vault);
      && VaultLive(db, vault) && (Owns(db, user, vault) || (vault, user) in db.shares)
      && AC.Permits(role, AC.VaultOpen, resource)
      && (AC.Permits(role, AC.VaultWrite, resource) <==> master || db.shares[(vault, user)].role in {Write, VaultAdmin})
      && (forall action :: action in {AC.VaultShare, AC.VaultRevoke, AC.VaultRotate, AC.VaultDelete} ==>
            (AC.Permits(role, action, resource) <==> master || db.shares[(vault, user)].role == VaultAdmin))
  {
    AccessRowsUnique(db, user, vault);
  }

  lemma FilledRow(db: Db, id: Uuid, bare: VaultRow, envelope: bytes)
    requires bare.deletedAt.None?
    ensures UpdateEnvelope(db.(vaults := db.vaults[id := bare]), id, envelope) ==
      Some(db.(vaults := db.vaults[id := bare.(envelope := Some(envelope), version := bare.version + 1)]))
  {
    var row := bare.(envelope := Some(envelope), version := bare.version + 1);
    assert db.vaults[id := bare][id := row] == db.vaults[id := row];
  }

  /** A creation, however far it gets, at most adds the row of a new vault. */
  lemma CreateVaultAdds(c: Cipher, db: Db, owner: Uuid, name: string, masterKey: bytes,
                        id: Uuid, vaultKey: bytes, nonce: Nonce, writes: nat)
    ensures var db' := CreateVault(c, db, owner, name, masterKey, id, vaultKey, nonce, writes).0;
      db' == db ||
      (&& id !in db.vaults && id in db'.vaults && db' == db.(vaults := db.vaults[id := db'.vaults[id]])
       && db'.vaults[id].owner == owner && db'.vaults[id].name == name && db'.vaults[id].deletedAt == None)
    ensures CreateVault(c, db, owner, name, masterKey, id, vaultKey, nonce, writes).1.Ok? <==>
      Trim(name) != [] && owner in db.users && |masterKey| == AES_256_KEY_LEN && id !in db.vaults && writes >= 3
  {
    var bare := VaultRow(owner, name, None, 1, None);
    WrapRoundTrip(c, vaultKey, masterKey, nonce);
    if Wrap(c, vaultKey, masterKey, nonce).Ok? {
      FilledRow(db, id, bare, Wrap(c, vaultKey, masterKey, nonce).value);
    }
  }

  /** A new vault opens for its owner, and for nobody else, with exactly the generated key. */
  lemma CreatedVaultOpens(c: Cipher, db: Db, owner: Uuid, name: string, masterKey: bytes,
                          id: Uuid, vaultKey: bytes, nonce: Nonce, writes: nat, user: Uuid)
    requires CreateVault(c, db, owner, name, masterKey, id, vaultKey, nonce, writes).1.Ok?
    ensures var db' := CreateVault(c, db, owner, name, masterKey, id, vaultKey, nonce, writes).0;
      && OpenVault(c, db', id, masterKey, 1) == Ok(vaultKey)
      && (user != owner && (id, user) !in db.shares ==> OpenVaultForUser(c, db', user, id, masterKey, 1).Err?)
      && db'.vaults == db.vaults[id := db'.vaults[id]] && db'.(vaults := db.vaults) == db
  {
    var db' := CreateVault(c, db, owner, name, masterKey, id, vaultKey, nonce, writes).0;
    WrapRoundTrip(c, vaultKey, masterKey, nonce);
    OpensExactly(c, db', owner, id, masterKey, 1, vaultKey);
    AccessRowsUnique(db', user, id);
  }

  /** May delete: the owner, a holder of a share with the vault administrator role, and a global administrator who owns
      or holds the vault; being a global administrator alone does not show the vault. */
  predicate MayDelete(db: Db, user: Uuid, vault: Uuid) {
    && user in db.users && VaultLive(db, vault)
    && (|| db.vaults[vault].owner == user
        || ((vault, user) in db.shares && (db.users[user].role == Admin
                                           || db.shares[(vault, user)].role == VaultAdmin)))
  }

  /** Deleting succeeds exactly for those, marks the vault and its live secrets with the time, and keeps everything
      else; afterwards nobody opens the vault. */
  lemma DeletesExactly(c: Cipher, db: Db, requester: Uuid, vault: Uuid, now: int, writes: nat, user: Uuid,
                       masterKey: bytes)
    ensures var (db', r) := DeleteVault(db, requester, vault, now, writes);
      && (r.Ok? <==> MayDelete(db, requester, vault) && writes >= 1)
      && (r.Err? ==> db' == db)
      && (r.Ok? ==>
            && db' == db.(vaults := db'.vaults, secrets := db'.secrets)
            && db'.vaults == db.vaults[vault := db.vaults[vault].(deletedAt := Some(now))]
            && db'.secrets.Keys == db.secrets.Keys
            && (forall x :: x in db.secrets ==>
                  db'.secrets[x] == db.secrets[x] ||
                  (db.secrets[x].vault == vault && db.secrets[x].deletedAt.None? &&
                   db'.secrets[x] == db.secrets[x].(deletedAt := Some(now))))
            && (forall x :: x in db.secrets && db.secrets[x].vault == vault ==> db'.secrets[x].deletedAt.Some?)
            && OpenVaultForUser(c, db', user, vault, masterKey, 1).Err?)
  {
    AccessRowsUnique(db, requester, vault);
    var db' := DeleteVault(db, requester, vault, now, writes).0;
    AccessRowsUnique(db', user, vault);
  }
}
