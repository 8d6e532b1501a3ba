/** The database tables the services share, as maps from primary keys to rows. */
module Store {
  import opened Types

  datatype UserRow = UserRow(username: string, role: UserRole, envelope: Option<bytes>)

  datatype VaultRow = VaultRow(owner: Uuid, name: string, envelope: Option<bytes>, version: nat, deletedAt: Option<int>)

  datatype ShareRow = ShareRow(envelope: bytes, grantedBy: Option<Uuid>, viaTeam: Option<Uuid>, role: ShareRole)

  datatype SecretKind = Password | ApiToken | SshKey | SecureDocument

  datatype BlobStorage = Inline | File

  datatype SecretRow = SecretRow(
    vault: Uuid, kind: SecretKind, storage: BlobStorage,
    inline: Option<bytes>, file: Option<bytes>, deletedAt: Option<int>)

  /** `members` is keyed by (team, user) and `shares` by (vault, user); `teams` holds the unique names. */
  datatype Db = Db(
    users: map<Uuid, UserRow>,
    teams: map<Uuid, string>,
    members: map<(Uuid, Uuid), TeamRole>,
    vaults: map<Uuid, VaultRow>,
    shares: map<(Uuid, Uuid), ShareRow>,
    secrets: map<Uuid, SecretRow>)

  const EMPTY_DB: Db := Db(map[], map[], map[], map[], map[], map[])

  predicate VaultLive(db: Db, vault: Uuid) {
    vault in db.vaults && db.vaults[vault].deletedAt.None?
  }

  predicate Owns(db: Db, user: Uuid, vault: Uuid) {
    vault in db.vaults && db.vaults[vault].owner == user
  }

  /** The unique constraint on user names. */
  ghost predicate UniqueUsernames(db: Db) {
    forall u, v :: u in db.users && v in db.users && db.users[u].username == db.users[v].username ==> u == v
  }

  predicate UsernameTaken(db: Db, username: string) {
    exists u :: u in db.users && db.users[u].username == username
  }

  /** Deleting a user row, with everything the foreign keys cascade to. */
  function PurgeUser(db: Db, user: Uuid): (r: Db)
    ensures r.teams == db.teams
  {
    Db(
      map u | u in db.users && u != user :: db.users[u],
      db.teams,
      map m | m in db.members && m.1 != user :: db.members[m],
      map v | v in db.vaults && db.vaults[v].owner != user :: db.vaults[v],
      map s | s in db.shares && s.1 != user && !Owns(db, user, s.0) :: db.shares[s],
      map x | x in db.secrets && !Owns(db, user, db.secrets[x].vault) :: db.secrets[x])
  }

  /** Every row that the deletion of a user leaves is one it should: it neither belongs to the user nor hangs on a vault
      of the user, and it is unchanged; and all such rows are left. */
  lemma PurgeUserExactly(db: Db, user: Uuid, u: Uuid, m: (Uuid, Uuid), v: Uuid, s: (Uuid, Uuid), x: Uuid)
    ensures var after := PurgeUser(db, user);
      && after.teams == db.teams
      && (if u in db.users && u != user then u in after.users && after.users[u] == db.users[u] else u !in after.users)
      && (if m in db.members && m.1 != user then m in after.members && after.members[m] == db.members[m]
          else m !in after.members)
      && (if v in db.vaults && db.vaults[v].owner != user then v in after.vaults && after.vaults[v] == db.vaults[v]
          else v !in after.vaults)
      && (if s in db.shares && s.1 != user && !Owns(db, user, s.0) then s in after.shares
          && after.shares[s] == db.shares[s]
          else s !in after.shares)
      && (if x in db.secrets && !Owns(db, user, db.secrets[x].vault)
          then x in after.secrets && after.secrets[x] == db.secrets[x] else x !in after.secrets)
  {
  }

  /** Every foreign key points at a row that exists. */
  ghost predicate References(db: Db) {
    && (forall m: (Uuid, Uuid) :: m in db.members ==> m.0 in db.teams && m.1 in db.users)
    && (forall v :: v in db.vaults ==> db.vaults[v].owner in db.users)
    && SharesResolve(db)
    && (forall x :: x in db.secrets ==> db.secrets[x].vault in db.vaults)
  }

  ghost predicate SharesResolve(db: Db) {
    forall s: (Uuid, Uuid) :: s in db.shares ==>
      s.0 in db.vaults && s.1 in db.users && (db.shares[s].viaTeam.Some? ==> db.shares[s].viaTeam.value in db.teams)
  }

  lemma PurgeUserReferences(db: Db, user: Uuid)
    requires References(db)
    ensures References(PurgeUser(db, user))
  {
  }

  lemma PurgeTeamReferences(db: Db, team: Uuid)
    requires References(db)
    ensures References(PurgeTeam(db, team))
  {
  }

  /** Deleting a team row: memberships cascade, and shares granted through it lose their team. */
  function PurgeTeam(db: Db, team: Uuid): Db {
    db.(
      teams := map t | t in db.teams && t != team :: db.teams[t],
      members := map m | m in db.members && m.0 != team :: db.members[m],
      shares := map s | s in db.shares ::
        if db.shares[s].viaTeam == Some(team) then db.shares[s].(viaTeam := None) else db.shares[s])
  }

  class Database {
    var users: map<Uuid, UserRow>
    var teams: map<Uuid, string>
    var members: map<(Uuid, Uuid), TeamRole>
    var vaults: map<Uuid, VaultRow>
    var shares: map<(Uuid, Uuid), ShareRow>
    var secrets: map<Uuid, SecretRow>

    function Snapshot(): Db
      reads this
    {
      Db(users, teams, members, vaults, shares, secrets)
    }

    constructor ()
      ensures Snapshot() == EMPTY_DB
    {
      users, teams, members, vaults, shares, secrets := map[], map[], map[], map[], map[], map[];
    }
  }
}

/** Role-based permission checks. */
module AccessControl {
  import opened Types

  datatype Action =
    | AdminManageUsers | TeamManageMembers | TeamReadMembers
    | VaultCreate | VaultOpen | VaultWrite | VaultList | VaultDelete | VaultShare | VaultRevoke | VaultRotate
    | AuditRead | AuditWrite | BackupExport | BackupRestore

  datatype Resource =
    | Global
    | Team(requesterRole: Option<TeamRole>)
    | Vault(isOwner: bool, hasDirectShare: bool, hasTeamShare: bool, shareRole: Option<ShareRole>)

  predicate CanWrite(role: ShareRole) { role == Write || role == VaultAdmin }

  predicate CanAdmin(role: ShareRole) { role == VaultAdmin }

  predicate Permits(role: UserRole, action: Action, resource: Resource) {
    role == Admin ||
    match (action, resource)
    case (AdminManageUsers, _) => false
    case (AuditRead, _) => false
    case (AuditWrite, _) => true
    case (TeamManageMembers, Team(requester)) => requester == Some(Leader)
    case (TeamReadMembers, Team(requester)) => requester.Some?
    case (VaultCreate, Global) => true
    case (VaultList, Global) => true
    case (VaultDelete, Vault(isOwner, _, _, share)) => isOwner || (share.Some? && CanAdmin(share.value))
    case (VaultWrite, Vault(isOwner, direct, team, share)) =>
      (isOwner || direct || team) && (isOwner || (share.Some? && CanWrite(share.value)))
    case (VaultOpen, Vault(isOwner, direct, team, _)) => isOwner || direct || team
    case (VaultShare, Vault(isOwner, direct, team, share)) => AdminOnVault(isOwner, direct, team, share)
    case (VaultRevoke, Vault(isOwner, direct, team, share)) => AdminOnVault(isOwner, direct, team, share)
    case (VaultRotate, Vault(isOwner, direct, team, share)) => AdminOnVault(isOwner, direct, team, share)
    case (BackupExport, _) => false
    case (BackupRestore, _) => false
    case _ => false
  }

  predicate AdminOnVault(isOwner: bool, direct: bool, team: bool, share: Option<ShareRole>) {
    (isOwner || direct || team) && (isOwner || (share.Some? && CanAdmin(share.value)))
  }
}
