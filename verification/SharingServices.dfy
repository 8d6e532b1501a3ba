/** The team, vault and secret services as they run: statement by statement over the shared tables. */
module SharingServices {
  import opened Types
  import opened Text
  import opened Crypto
  import opened Store
  import AC = AccessControl
  import T = Teams
  import V = Vaults
  import S = Secrets

  class TeamService {
    const c: Cipher
    const db: Database

    constructor (c: Cipher, db: Database)
      ensures this.c == c && this.db == db
    {
      this.c := c;
      this.db := db;
    }

    method CreateTeam(creator: Uuid, id: Uuid, name: string, writes: nat) returns (r: Result<()>)
      modifies db
      ensures (db.Snapshot(), r) == T.CreateTeam(old(db.Snapshot()), creator, id, name, writes)
    {
      if creator !in db.users { return Err(NotFound); }
      if Trim(name) == [] { return Err(Validation); }
      if writes < 1 || id in db.teams || T.TeamNameTaken(db.Snapshot(), name) { return Err(Database); }
      db.teams := db.teams[id := name];
      if writes < 2 { return Err(Database); }
      db.members := db.members[(id, creator) := Leader];
      if writes < 3 { return Err(Database); }
      return Ok(());
    }

    method DeleteTeam(requester: Uuid, team: Uuid, writes: nat) returns (r: Result<()>)
      modifies db
      ensures (db.Snapshot(), r) == T.DeleteTeam(old(db.Snapshot()), requester, team, writes)
    {
      var allowed := T.RequireTeam(db.Snapshot(), requester, team, AC.TeamManageMembers);
      if allowed.Err? { return Err(allowed.error); }
      if team !in db.teams { return Err(NotFound); }
      if writes < 1 { return Err(Database); }
      db.teams := map t | t in db.teams && t != team :: db.teams[t];
      db.members := map m | m in db.members && m.0 != team :: db.members[m];
      db.shares := map s | s in db.shares ::
        if db.shares[s].viaTeam == Some(team) then db.shares[s].(viaTeam := None) else db.shares[s];
      if writes < 2 { return Err(Database); }
      return Ok(());
    }

    method AddMember(requester: Uuid, team: Uuid, user: Uuid, role: TeamRole, writes: nat) returns (r: Result<()>)
      modifies db
      ensures (db.Snapshot(), r) == T.AddMember(old(db.Snapshot()), requester, team, user, role, writes)
    {
      var allowed := T.RequireTeam(db.Snapshot(), requester, team, AC.TeamManageMembers);
      if allowed.Err? { return Err(allowed.error); }
      if user !in db.users { return Err(NotFound); }
      if writes < 1 || team !in db.teams { return Err(Database); }
      db.members := db.members[(team, user) := role];
      if writes < 2 { return Err(Database); }
      return Ok(());
    }

    method RemoveMember(requester: Uuid, team: Uuid, user: Uuid, writes: nat) returns (r: Result<()>)
      modifies db
      ensures (db.Snapshot(), r) == T.RemoveMember(old(db.Snapshot()), requester, team, user, writes)
    {
      var allowed := T.RequireTeam(db.Snapshot(), requester, team, AC.TeamManageMembers);
      if allowed.Err? { return Err(allowed.error); }
      if writes < 1 { return Err(Database); }
      if (team, user) !in db.members { return Err(NotFound); }
      db.members := map m | m in db.members && m != (team, user) :: db.members[m];
      if writes < 2 { return Err(Database); }
      db.shares := map s | s in db.shares && !(s.1 == user && db.shares[s].viaTeam == Some(team)) :: db.shares[s];
      if writes < 3 { return Err(Database); }
      return Ok(());
    }

    method InsertKeyShare(vault: Uuid, user: Uuid, row: ShareRow) returns (r: Result<()>)
      modifies db
      ensures match T.PutShare(old(db.Snapshot()), vault, user, row)
        case Ok(after) => r == Ok(()) && db.Snapshot() == after
        case Err(e) => r == Err(e) && db.Snapshot() == old(db.Snapshot())
    {
      if vault !in db.vaults || user !in db.users || (row.viaTeam.Some? && row.viaTeam.value !in db.teams) {
        return Err(Database);
      }
      db.shares := db.shares[(vault, user) := row];
      return Ok(());
    }

    method GrantVaultAccess(granter: Uuid, vault: Uuid, recipient: Uuid, vaultKey: bytes, recipientKey: bytes,
                            nonce: Nonce, writes: nat)
      returns (r: Result<()>)
      modifies db
      ensures (db.Snapshot(), r) ==
        T.GrantVaultAccess(c, old(db.Snapshot()), granter, vault, recipient, vaultKey, recipientKey, nonce, writes)
    {
      var wrapped := Wrap(c, vaultKey, recipientKey, nonce);
      if wrapped.Err? { return Err(wrapped.error); }
      if writes < 1 { return Err(Database); }
      r := InsertKeyShare(vault, recipient, ShareRow(wrapped.value, Some(granter), None, Write));
      if r.Ok? && writes < 2 { r := Err(Database); }
    }

    method RevokeVaultAccess(vault: Uuid, user: Uuid, writes: nat) returns (r: Result<()>)
      modifies db
      ensures (db.Snapshot(), r) == T.RevokeVaultAccess(old(db.Snapshot()), vault, user, writes)
    {
      if writes < 1 { return Err(Database); }
      db.shares := map s | s in db.shares && s != (vault, user) :: db.shares[s];
      if writes < 2 { return Err(Database); }
      return Ok(());
    }

    /** The loop over the members: counts grants and skips, and stops at the first error with what it wrote left in
        place. */
    method ShareVaultWithMembers(q: T.ShareRequest, rows: seq<Uuid>, nonces: Uuid -> Nonce, writes: nat)
      returns (r: Result<T.Tally>)
      modifies db
      ensures (db.Snapshot(), r) == T.ShareMembers(c, old(db.Snapshot()), q, rows, nonces, writes)
    {
      var granted, skipped := 0, 0;
      var i := 0;
      ghost var start := db.Snapshot();
      while i < |rows|
        invariant 0 <= i <= |rows|
        invariant T.ShareMembers(c, start, q, rows[..i], nonces, writes) ==
          (db.Snapshot(), Ok(T.Tally(granted, skipped)))
      {
        var member := rows[i];
        assert rows[..i + 1][..i] == rows[..i];
        ghost var before := db.Snapshot();
        ghost var tally := T.Tally(granted, skipped);
        assert T.ShareMembers(c, start, q, rows[..i + 1], nonces, writes)
            == T.ShareOne(c, before, q, member, nonces(member), tally, writes);
        var key := T.ResolveKey(db.Snapshot(), q.supplied, member);
        if key.Some? {
          var wrapped := Wrap(c, q.vaultKey, key.value, nonces(member));
          if wrapped.Err? {
            T.ShareMembersStops(c, start, q, rows, i + 1, nonces, writes);
            return Err(wrapped.error);
          }
          if writes <= granted {
            T.ShareMembersStops(c, start, q, rows, i + 1, nonces, writes);
            return Err(Database);
          }
          var inserted := InsertKeyShare(q.vault, member, T.TeamShareRow(q, wrapped.value));
          if inserted.Err? {
            T.ShareMembersStops(c, start, q, rows, i + 1, nonces, writes);
            return Err(inserted.error);
          }
          granted := granted + 1;
        } else {
          skipped := skipped + 1;
        }
        i := i + 1;
      }
      assert rows[..i] == rows;
      return Ok(T.Tally(granted, skipped));
    }

    method ShareVaultWithTeam(q: T.ShareRequest, rows: seq<Uuid>, nonces: Uuid -> Nonce, writes: nat)
      returns (r: Result<T.Tally>)
      modifies db
      ensures (db.Snapshot(), r) == T.ShareVaultWithTeam(c, old(db.Snapshot()), q, rows, nonces, writes)
    {
      if q.team !in db.teams { return Err(NotFound); }
      r := ShareVaultWithMembers(q, rows, nonces, writes);
      if r.Err? { return; }
      if r.value.granted == 0 { return Err(Validation); }
      if writes <= r.value.granted { return Err(Database); }
    }

    /** The transaction works on a copy of the table and commits it only after the last insert. */
    method ReplaceAllKeyShares(vault: Uuid, entries: seq<T.KeyShare>, actor: Uuid) returns (r: Result<()>)
      modifies db
      ensures r.Ok? <==> T.Insertable(old(db.Snapshot()), vault, entries)
      ensures r.Ok? ==> T.ReplaceAllShares(old(db.Snapshot()), vault, entries, actor) == Ok(db.Snapshot())
      ensures r.Err? ==> r == Err(Database) && db.Snapshot() == old(db.Snapshot())
    {
      var tx := map s | s in db.shares && s.0 != vault :: db.shares[s];
      var i := 0;
      while i < |entries|
        invariant 0 <= i <= |entries|
        invariant db.Snapshot() == old(db.Snapshot())
        invariant T.Insertable(db.Snapshot(), vault, entries[..i])
        invariant tx == T.InsertAll(T.WithoutVault(db.shares, vault), vault, entries[..i], actor)
      {
        var e := entries[i];
        T.InsertableExtends(db.Snapshot(), vault, entries, i, actor);
        if vault !in db.vaults || e.user !in db.users || (e.viaTeam.Some? && e.viaTeam.value !in db.teams)
           || (vault, e.user) in tx {
          if T.Insertable(db.Snapshot(), vault, entries) { T.InsertablePrefix(db.Snapshot(), vault, entries, i + 1); }
          return Err(Database);
        }
        tx := tx[(vault, e.user) := T.ReplacedRow(e, actor)];
        i := i + 1;
      }
      assert entries[..i] == entries;
      db.shares := tx;
      return Ok(());
    }

    method RotateVaultKey(actor: Uuid, vault: Uuid, ownerEnvelope: bytes, entries: seq<T.KeyShare>, writes: nat)
      returns (r: Result<()>)
      modifies db
      ensures (db.Snapshot(), r) == T.RotateVaultKey(old(db.Snapshot()), actor, vault, ownerEnvelope, entries, writes)
    {
      if writes < 1 { return Err(Database); }
      r := ReplaceAllKeyShares(vault, entries, actor);
      if r.Err? { return; }
      if writes < 2 { return Err(Database); }
      if vault !in db.vaults || db.vaults[vault].deletedAt.Some? { return Err(Storage); }
      db.vaults := db.vaults[vault :=
        db.vaults[vault].(envelope := Some(ownerEnvelope), version := db.vaults[vault].version + 1)];
      if writes < 3 { return Err(Database); }
      return Ok(());
    }
  }

  class VaultService {
    const c: Cipher
    const db: Database

    constructor (c: Cipher, db: Database)
      ensures this.c == c && this.db == db
    {
      this.c := c;
      this.db := db;
    }

    method CreateVault(owner: Uuid, name: string, masterKey: bytes, id: Uuid, vaultKey: bytes, nonce: Nonce,
                       writes: nat)
      returns (r: Result<Uuid>)
      modifies db
      ensures (db.Snapshot(), r) == V.CreateVault(c, old(db.Snapshot()), owner, name, masterKey, id, vaultKey, nonce,
                                                  writes)
    {
      if Trim(name) == [] { return Err(Validation); }
      if owner !in db.users { return Err(NotFound); }
      if !AC.Permits(db.users[owner].role, AC.VaultCreate, AC.Global) { return Err(Denied); }
      var wrapped := Wrap(c, vaultKey, masterKey, nonce);
      if wrapped.Err? { return Err(wrapped.error); }
      if writes < 1 || id in db.vaults { return Err(Database); }
      db.vaults := db.vaults[id := VaultRow(owner, name, None, 1, None)];
      if writes < 2 { return Err(Database); }
      db.vaults := db.vaults[id := VaultRow(owner, name, Some(wrapped.value), 2, None)];
      if writes < 3 { return Err(Database); }
      return Ok(id);
    }

    method OpenVaultForUser(requester: Uuid, vault: Uuid, masterKey: bytes, writes: nat) returns (r: Result<bytes>)
      ensures r == V.OpenVaultForUser(c, db.Snapshot(), requester, vault, masterKey, writes)
    {
      if requester !in db.users { return Err(NotFound); }
      var permission := V.GetPermission(db.Snapshot(), requester, vault);
      if permission.None? { return Err(Denied); }
      var row := permission.value;
      if !AC.Permits(db.users[requester].role, AC.VaultOpen, V.VaultResource(row, requester)) { return Err(Denied); }
      var envelope;
      if row.owner == requester {
        if vault !in db.vaults || db.vaults[vault].envelope.None? { return Err(Storage); }
        envelope := db.vaults[vault].envelope.value;
      } else {
        if (vault, requester) !in db.shares { return Err(Denied); }
        envelope := db.shares[(vault, requester)].envelope;
      }
      r := Unwrap(c, envelope, masterKey);
      if r.Ok? && writes < 1 { r := Err(Database); }
    }

    method OpenVault(vault: Uuid, masterKey: bytes, writes: nat) returns (r: Result<bytes>)
      ensures r == V.OpenVault(c, db.Snapshot(), vault, masterKey, writes)
    {
      if vault !in db.vaults || db.vaults[vault].deletedAt.Some? { return Err(NotFound); }
      r := OpenVaultForUser(db.vaults[vault].owner, vault, masterKey, writes);
    }

    method DeleteVault(requester: Uuid, vault: Uuid, now: int, writes: nat) returns (r: Result<()>)
      modifies db
      ensures (db.Snapshot(), r) == V.DeleteVault(old(db.Snapshot()), requester, vault, now, writes)
    {
      if requester !in db.users { return Err(NotFound); }
      var permission := V.GetPermission(db.Snapshot(), requester, vault);
      if permission.None? { return Err(Denied); }
      if !AC.Permits(db.users[requester].role, AC.VaultDelete, V.VaultResource(permission.value, requester)) {
        return Err(Denied); }
      if writes < 1 { return Err(Database); }
      if vault !in db.vaults || db.vaults[vault].deletedAt.Some? { return Err(NotFound); }
      db.vaults := db.vaults[vault := db.vaults[vault].(deletedAt := Some(now))];
      db.secrets := map x | x in db.secrets ::
        if db.secrets[x].vault == vault && db.secrets[x].deletedAt.None?
        then db.secrets[x].(deletedAt := Some(now)) else db.secrets[x];
      return Ok(());
    }
  }

  class SecretService {
    const c: Cipher
    const db: Database

    constructor (c: Cipher, db: Database)
      ensures this.c == c && this.db == db
    {
      this.c := c;
      this.db := db;
    }

    method CreateSecret(id: Uuid, vault: Uuid, kind: SecretKind, text: bytes, vaultKey: bytes, nonce: Nonce,
                        writes: nat)
      returns (r: Result<()>)
      modifies db
      ensures (db.Snapshot(), r) == S.CreateSecret(c, old(db.Snapshot()), id, vault, kind, text, vaultKey, nonce,
                                                   writes)
    {
      if text == [] { return Err(Validation); }
      var wrapped := Wrap(c, text, vaultKey, nonce);
      if wrapped.Err? { return Err(wrapped.error); }
      if writes < 1 || id in db.secrets || vault !in db.vaults { return Err(Database); }
      db.secrets := db.secrets[id := S.NewRow(vault, kind, wrapped.value)];
      return Ok(());
    }

    method UpdateSecret(id: Uuid, text: bytes, vaultKey: bytes, nonce: Nonce, writes: nat) returns (r: Result<()>)
      modifies db
      ensures (db.Snapshot(), r) == S.UpdateSecret(c, old(db.Snapshot()), id, text, vaultKey, nonce, writes)
    {
      if id !in db.secrets || db.secrets[id].deletedAt.Some? { return Err(Storage); }
      if writes < 1 { return Err(Database); }
      if text == [] { return Err(Validation); }
      var wrapped := Wrap(c, text, vaultKey, nonce);
      if wrapped.Err? { return Err(wrapped.error); }
      if writes < 2 { return Err(Database); }
      match db.secrets[id].storage {
        case Inline => db.secrets := db.secrets[id := db.secrets[id].(inline := Some(wrapped.value), file := None)];
        case File => db.secrets := db.secrets[id := db.secrets[id].(file := Some(wrapped.value), inline := None)];
      }
      return Ok(());
    }

    method SoftDelete(id: Uuid, now: int, writes: nat) returns (r: Result<()>)
      modifies db
      ensures (db.Snapshot(), r) == S.SoftDelete(old(db.Snapshot()), id, now, writes)
    {
      if writes < 1 { return Err(Database); }
      if id !in db.secrets || db.secrets[id].deletedAt.Some? { return Err(Storage); }
      db.secrets := db.secrets[id := db.secrets[id].(deletedAt := Some(now))];
      return Ok(());
    }

    /** The transaction revives the vault on a copy first; returning early drops the copy. */
    method RestoreSecret(id: Uuid, vault: Uuid, writes: nat) returns (r: Result<()>)
      modifies db
      ensures (db.Snapshot(), r) == S.RestoreSecret(old(db.Snapshot()), id, vault, writes)
    {
      if vault !in db.vaults { return Err(Storage); }
      var txVaults := db.vaults;
      if txVaults[vault].deletedAt.Some? {
        txVaults := txVaults[vault := txVaults[vault].(deletedAt := None)];
      }
      assert txVaults == db.vaults[vault := db.vaults[vault].(deletedAt := None)];
      if !(id in db.secrets && db.secrets[id].vault == vault && db.secrets[id].deletedAt.Some?) { return Err(Storage); }
      if writes < 1 { return Err(Database); }
      db.vaults := txVaults;
      db.secrets := db.secrets[id := db.secrets[id].(deletedAt := None)];
      return Ok(());
    }

    method PermanentDelete(id: Uuid, vault: Uuid, writes: nat) returns (r: Result<()>)
      modifies db
      ensures (db.Snapshot(), r) == S.PermanentDelete(old(db.Snapshot()), id, vault, writes)
    {
      if writes < 1 { return Err(Database); }
      if !S.InTrash(db.Snapshot(), id, vault) { return Err(Storage); }
      db.secrets := map x | x in db.secrets && x != id :: db.secrets[x];
      return Ok(());
    }

    method EmptyTrash(vault: Uuid, writes: nat) returns (r: Result<nat>)
      modifies db
      ensures (db.Snapshot(), r) == S.EmptyTrash(old(db.Snapshot()), vault, writes)
    {
      if writes < 1 { return Err(Database); }
      var removed := |S.TrashOf(db.Snapshot(), vault)|;
      var before := db.Snapshot();
      db.secrets := map x | x in db.secrets && !S.InTrash(before, x, vault) :: db.secrets[x];
      return Ok(removed);
    }
  }
}
