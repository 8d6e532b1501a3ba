/** Teams and vault sharing: the team service, with the membership and key-share tables.
    `writes` is the number of storage writes that succeed before the storage starts to fail. */
module Teams {
  import opened Types
  import opened Text
  import opened Crypto
  import opened Store
  import AC = AccessControl
  import PE = PasswordEnvelope
  import V = Vaults

  /** No table but those of teams, memberships and shares differs. */
  ghost predicate TeamTablesOnly(before: Db, after: Db) {
    after == before.(teams := after.teams, members := after.members, shares := after.shares)
  }

  ghost predicate SharesOnly(before: Db, after: Db) {
    after == before.(shares := after.shares)
  }

  function RoleIn(db: Db, team: Uuid, user: Uuid): Option<TeamRole> {
    if (team, user) in db.members then Some(db.members[(team, user)]) else None
  }

  function RequireTeam(db: Db, requester: Uuid, team: Uuid, action: AC.Action): Result<()> {
    if requester !in db.users then Err(NotFound)
    else if !AC.Permits(db.users[requester].role, action, AC.Team(RoleIn(db, team, requester))) then Err(Denied)
    else Ok(())
  }

  predicate TeamNameTaken(db: Db, name: string) {
    exists t :: t in db.teams && db.teams[t] == name
  }

  function CreateTeam(db: Db, creator: Uuid, id: Uuid, name: string, writes: nat): (r: (Db, Result<()>))
    ensures TeamTablesOnly(db, r.0)
  {
    if creator !in db.users then (db, Err(NotFound))
    else if Trim(name) == [] then (db, Err(Validation))
    else if writes < 1 || id in db.teams || TeamNameTaken(db, name) then (db, Err(Database))
    else
      var inserted := db.(teams := db.teams[id := name]);
      if writes < 2 then (inserted, Err(Database))
      else (inserted.(members := db.members[(id, creator) := Leader]), if writes < 3 then Err(Database) else Ok(()))
  }

  function DeleteTeam(db: Db, requester: Uuid, team: Uuid, writes: nat): (r: (Db, Result<()>))
    ensures TeamTablesOnly(db, r.0)
  {
    match RequireTeam(db, requester, team, AC.TeamManageMembers)
    case Err(e) => (db, Err(e))
    case Ok(_) =>
      if team !in db.teams then (db, Err(NotFound))
      else if writes < 1 then (db, Err(Database))
      else (PurgeTeam(db, team), if writes < 2 then Err(Database) else Ok(()))
  }

  function AddMember(db: Db, requester: Uuid, team: Uuid, user: Uuid, role: TeamRole,
                     writes: nat): (r: (Db, Result<()>))
    ensures TeamTablesOnly(db, r.0)
  {
    match RequireTeam(db, requester, team, AC.TeamManageMembers)
    case Err(e) => (db, Err(e))
    case Ok(_) =>
      if user !in db.users then (db, Err(NotFound))
      else if writes < 1 || team !in db.teams then (db, Err(Database))
      else (db.(members := db.members[(team, user) := role]), if writes < 2 then Err(Database) else Ok(()))
  }

  function DropMember(db: Db, team: Uuid, user: Uuid): Db {
    db.(members := map m | m in db.members && m != (team, user) :: db.members[m])
  }

  /** Deleting every share of `user` that was granted through `team`. */
  function DropSharesVia(db: Db, user: Uuid, team: Uuid): Db {
    db.(shares := map s | s in db.shares && !(s.1 == user && db.shares[s].viaTeam == Some(team)) :: db.shares[s])
  }

  /** Two separate writes: the membership first, then the shares that came through the team. */
  function RemoveMember(db: Db, requester: Uuid, team: Uuid, user: Uuid, writes: nat): (r: (Db, Result<()>))
    ensures TeamTablesOnly(db, r.0)
  {
    match RequireTeam(db, requester, team, AC.TeamManageMembers)
    case Err(e) => (db, Err(e))
    case Ok(_) =>
      if writes < 1 then (db, Err(Database))
      else if (team, user) !in db.members then (db, Err(NotFound))
      else if writes < 2 then (DropMember(db, team, user), Err(Database))
      else (DropSharesVia(DropMember(db, team, user), user, team), if writes < 3 then Err(Database) else Ok(()))
  }

  /** What the unique constraint on team names and the foreign key of memberships keep. */
  ghost predicate WellFormedTeams(db: Db) {
    && (forall t, t' :: t in db.teams && t' in db.teams && db.teams[t] == db.teams[t'] ==> t == t')
    && (forall m: (Uuid, Uuid) :: m in db.members ==> m.0 in db.teams)
  }

  /** A created team is new, has a name of its own, and has exactly its creator as member, as leader. A creation cut
      short leaves nothing, the bare team, or all of it. */
  lemma CreateTeamOutcome(db: Db, creator: Uuid, id: Uuid, name: string, writes: nat)
    requires WellFormedTeams(db)
    ensures var (after, r) := CreateTeam(db, creator, id, name, writes);
      && WellFormedTeams(after)
      && (r.Ok? <==>
            creator in db.users && Trim(name) != [] && id !in db.teams && !TeamNameTaken(db, name) && writes >= 3)
      && (r.Ok? ==>
            && after.teams == db.teams[id := name]
            && forall u :: RoleIn(after, id, u) == if u == creator then Some(Leader) else None)
      && (after != db ==>
            && after.teams == db.teams[id := name]
            && (after.members == db.members || after.members == db.members[(id, creator) := Leader]))
      && forall m: (Uuid, Uuid) :: m.0 != id ==> RoleIn(after, m.0, m.1) == RoleIn(db, m.0, m.1)
  {
    var after := CreateTeam(db, creator, id, name, writes).0;
    CreateTeamStates(db, creator, id, name, writes);
    if after != db {
      NewTeamFormed(db, db.(teams := db.teams[id := name]), id, name);
      if after.members != db.members {
        assert after.members == db.members[(id, creator) := Leader];
      }
    }
  }

  /** A creation changes nothing, or inserts a team of a new id and name, or in addition its creator as leader. */
  lemma CreateTeamStates(db: Db, creator: Uuid, id: Uuid, name: string, writes: nat)
    ensures var (after, r) := CreateTeam(db, creator, id, name, writes);
      || (after == db && r.Err? && (creator !in db.users || Trim(name) == [] || id in db.teams
                                    || TeamNameTaken(db, name)
                                    || writes < 1))
      || (&& creator in db.users && Trim(name) != [] && id !in db.teams && !TeamNameTaken(db, name)
          && (r.Ok? <==> writes >= 3)
          && after == db.(teams := db.teams[id := name], members := after.members)
          && ((after.members == db.members && r.Err?) || after.members == db.members[(id, creator) := Leader]))
  {
  }

  lemma NewTeamFormed(db: Db, after: Db, id: Uuid, name: string)
    requires WellFormedTeams(db) && id !in db.teams && !TeamNameTaken(db, name)
    requires after == db.(teams := db.teams[id := name])
    ensures WellFormedTeams(after)
    ensures forall u :: RoleIn(db, id, u) == None
  {
  }

  predicate Leads(db: Db, user: Uuid, team: Uuid) {
    user in db.users && (db.users[user].role == Admin || RoleIn(db, team, user) == Some(Leader))
  }

  /** Every membership but that of (team, user) is as it was, and that one is `role` now. */
  ghost predicate OneMembership(db: Db, after: Db, team: Uuid, user: Uuid, role: Option<TeamRole>) {
    && RoleIn(after, team, user) == role
    && forall m: (Uuid, Uuid) :: m != (team, user) ==> RoleIn(after, m.0, m.1) == RoleIn(db, m.0, m.1)
  }

  /** A team is deleted exactly by administrators and its leaders; then just this team and its memberships are gone. */
  lemma DeleteTeamConfined(db: Db, requester: Uuid, team: Uuid, writes: nat)
    ensures var (after, r) := DeleteTeam(db, requester, team, writes);
      var done := Leads(db, requester, team) && team in db.teams && writes >= 1;
      && (r.Ok? <==> done && writes >= 2)
      && (!done ==> after == db)
      && (done ==>
            && after.teams == db.teams - {team}
            && forall m: (Uuid, Uuid) :: RoleIn(after, m.0, m.1) == if m.0 == team then None else RoleIn(db, m.0, m.1))
  {
  }

  /** A member is added or re-ranked exactly by those; no other membership, no team and no share changes. */
  lemma AddMemberConfined(db: Db, requester: Uuid, team: Uuid, user: Uuid, role: TeamRole, writes: nat)
    ensures var (after, r) := AddMember(db, requester, team, user, role, writes);
      var done := Leads(db, requester, team) && user in db.users && team in db.teams && writes >= 1;
      && (r.Ok? <==> done && writes >= 2)
      && (!done ==> after == db)
      && (done ==> OneMembership(db, after, team, user, Some(role)) && after.(members := db.members) == db)
  {
  }

  /** Removing, by those again, ends the membership and then every share of the user that came through the team, and no
      other membership and no other share. */
  lemma RemoveMemberConfined(db: Db, requester: Uuid, team: Uuid, user: Uuid, writes: nat)
    ensures var (after, r) := RemoveMember(db, requester, team, user, writes);
      var done := Leads(db, requester, team) && (team, user) in db.members && writes >= 1;
      && (r.Ok? <==> done && writes >= 3)
      && (!done ==> after == db)
      && (done ==> OneMembership(db, after, team, user, None) && after.teams == db.teams)
      && (forall s: (Uuid, Uuid) ::
            if done && writes >= 2 && s in db.shares && s.1 == user && db.shares[s].viaTeam == Some(team)
            then s !in after.shares else SameRow(db, after, s))
  {
  }

  // ---- key shares ----

  /** Inserting or replacing a share; the foreign keys must resolve. */
  function PutShare(db: Db, vault: Uuid, user: Uuid, row: ShareRow): Result<Db> {
    if vault in db.vaults && user in db.users && (row.viaTeam.Some? ==> row.viaTeam.value in db.teams)
    then Ok(db.(shares := db.shares[(vault, user) := row]))
    else Err(Database)
  }

  function DropShare(db: Db, vault: Uuid, user: Uuid): Db {
    db.(shares := map s | s in db.shares && s != (vault, user) :: db.shares[s])
  }

  function GrantVaultAccess(c: Cipher, db: Db, granter: Uuid, vault: Uuid, recipient: Uuid,
                            vaultKey: bytes, recipientKey: bytes, nonce: Nonce, writes: nat): (r: (Db, Result<()>))
    ensures SharesOnly(db, r.0)
  {
    match Wrap(c, vaultKey, recipientKey, nonce)
    case Err(e) => (db, Err(e))
    case Ok(envelope) =>
      if writes < 1 then (db, Err(Database))
      else match PutShare(db, vault, recipient, ShareRow(envelope, Some(granter), None, Write))
        case Err(e) => (db, Err(e))
        case Ok(db') => (db', if writes < 2 then Err(Database) else Ok(()))
  }

  function RevokeVaultAccess(db: Db, vault: Uuid, user: Uuid, writes: nat): (r: (Db, Result<()>))
    ensures SharesOnly(db, r.0)
  {
    if writes < 1 then (db, Err(Database))
    else (DropShare(db, vault, user), if writes < 2 then Err(Database) else Ok(()))
  }

  /** A direct grant goes through exactly for a 32-byte key, a vault and a recipient that exist; it writes this one row,
      which allows reading and writing. */
  lemma GrantExactly(c: Cipher, db: Db, granter: Uuid, vault: Uuid, recipient: Uuid,
                     vaultKey: bytes, recipientKey: bytes, nonce: Nonce, writes: nat)
    ensures var (after, r) := GrantVaultAccess(c, db, granter, vault, recipient, vaultKey, recipientKey, nonce, writes);
      var done := |recipientKey| == AES_256_KEY_LEN && vault in db.vaults && recipient in db.users && writes >= 1;
      && (r.Ok? <==> done && writes >= 2)
      && (!done ==> after == db)
      && (forall s: (Uuid, Uuid) :: s != (vault, recipient) ==> SameRow(db, after, s))
      && (done ==>
            && (vault, recipient) in after.shares
            && var row := after.shares[(vault, recipient)];
            && row.role == Write && row.viaTeam == None && row.grantedBy == Some(granter)
            && Unwrap(c, row.envelope, recipientKey) == Ok(vaultKey))
  {
    WrapRoundTrip(c, vaultKey, recipientKey, nonce);
  }

  lemma RevokeExactly(db: Db, vault: Uuid, user: Uuid, writes: nat)
    ensures var (after, r) := RevokeVaultAccess(db, vault, user, writes);
      && (r.Ok? <==> writes >= 2)
      && (writes >= 1 ==> (vault, user) !in after.shares)
      && (forall s: (Uuid, Uuid) :: s != (vault, user) || writes < 1 ==> SameRow(db, after, s))
  {
  }

  // ---- sharing with a team ----

  datatype ShareRequest = ShareRequest(granter: Uuid, vault: Uuid, team: Uuid, vaultKey: bytes,
                                       supplied: seq<(Uuid, bytes)>)

  datatype Tally = Tally(granted: nat, skipped: nat)

  function FindSupplied(supplied: seq<(Uuid, bytes)>, user: Uuid): Option<bytes> {
    if supplied == [] then None
    else if supplied[0].0 == user then Some(supplied[0].1)
    else FindSupplied(supplied[1..], user)
  }

  /** The supplied key of a member, else the hash inside the stored password envelope, else nothing. */
  function ResolveKey(db: Db, supplied: seq<(Uuid, bytes)>, user: Uuid): Option<bytes> {
    var found := FindSupplied(supplied, user);
    if found.Some? then found
    else if user in db.users && db.users[user].envelope.Some? then
      match PE.DeriveKey(db.users[user].envelope.value)
      case Ok(key) => Some(key)
      case Err(_) => None
    else None
  }

  /** A key is found exactly for a member with a supplied key, which is the first one supplied, or else for a user whose
      stored envelope can be read, which is the hash in it. */
  lemma ResolveExactly(db: Db, supplied: seq<(Uuid, bytes)>, user: Uuid, key: bytes)
    ensures ResolveKey(db, supplied, user) == Some(key) <==>
      || (exists i :: FirstFor(supplied, user, i) && supplied[i].1 == key)
      || (&& (forall i :: 0 <= i < |supplied| ==> supplied[i].0 != user)
          && user in db.users && db.users[user].envelope.Some?
          && PE.DeriveKey(db.users[user].envelope.value) == Ok(key))
  {
    FoundSupplied(supplied, user);
  }

  /** Entry `i` is the first for this user. */
  ghost predicate FirstFor(supplied: seq<(Uuid, bytes)>, user: Uuid, i: int) {
    0 <= i < |supplied| && supplied[i].0 == user && forall j :: 0 <= j < i ==> supplied[j].0 != user
  }

  lemma {:induction false} FoundSupplied(supplied: seq<(Uuid, bytes)>, user: Uuid)
    ensures FindSupplied(supplied, user) == None <==> forall i :: 0 <= i < |supplied| ==> supplied[i].0 != user
    ensures forall i :: FirstFor(supplied, user, i) ==> FindSupplied(supplied, user) == Some(supplied[i].1)
    ensures FindSupplied(supplied, user).Some? ==> exists i :: FirstFor(supplied, user, i)
  {
    if supplied != [] {
      var rest := supplied[1..];
      FoundSupplied(rest, user);
      assert forall i :: 0 <= i < |rest| ==> rest[i] == supplied[i + 1];
      if supplied[0].0 == user {
        assert FirstFor(supplied, user, 0);
      } else {
        forall i ensures FirstFor(supplied, user, i) <==> i > 0 && FirstFor(rest, user, i - 1) {
          if i > 0 && FirstFor(rest, user, i - 1) {
            forall j | 0 <= j < i ensures supplied[j].0 != user { assert j > 0 ==> rest[j - 1] == supplied[j]; }
          }
          if FirstFor(supplied, user, i) {
            forall j | 0 <= j < i - 1 ensures rest[j].0 != user { assert supplied[j + 1] == rest[j]; }
          }
        }
        if i :| FirstFor(rest, user, i) { assert FirstFor(supplied, user, i + 1); }
      }
    }
  }

  function TeamShareRow(q: ShareRequest, envelope: bytes): ShareRow {
    ShareRow(envelope, Some(q.granter), Some(q.team), Read)
  }

  /** Sharing with one member, after `t` members were handled. */
  function ShareOne(c: Cipher, db: Db, q: ShareRequest, user: Uuid, nonce: Nonce, t: Tally,
                    writes: nat): (r: (Db, Result<Tally>))
    ensures SharesOnly(db, r.0)
  {
    match ResolveKey(db, q.supplied, user)
    case None => (db, Ok(t.(skipped := t.skipped + 1)))
    case Some(key) =>
      match Wrap(c, q.vaultKey, key, nonce)
      case Err(e) => (db, Err(e))
      case Ok(envelope) =>
        if writes <= t.granted then (db, Err(Database))
        else match PutShare(db, q.vault, user, TeamShareRow(q, envelope))
          case Err(e) => (db, Err(e))
          case Ok(db') => (db', Ok(t.(granted := t.granted + 1)))
  }

  /** Sharing with the members in the order the database lists them; an error stops the pass and nothing is undone. */
  function ShareMembers(c: Cipher, db: Db, q: ShareRequest, rows: seq<Uuid>, nonces: Uuid -> Nonce, writes: nat)
    : (r: (Db, Result<Tally>))
    ensures SharesOnly(db, r.0)
  {
    if rows == [] then (db, Ok(Tally(0, 0)))
    else
      var last := |rows| - 1;
      var (db', r) := ShareMembers(c, db, q, rows[..last], nonces, writes);
      if r.Err? then (db', r) else ShareOne(c, db', q, rows[last], nonces(rows[last]), r.value, writes)
  }

  /** The database lists each member of the team once, in some order. */
  ghost predicate ListsMembers(db: Db, team: Uuid, rows: seq<Uuid>) {
    && (forall u :: u in rows <==> (team, u) in db.members)
    && (forall i, j :: 0 <= i < j < |rows| ==> rows[i] != rows[j])
  }

  function ShareVaultWithTeam(c: Cipher, db: Db, q: ShareRequest, rows: seq<Uuid>, nonces: Uuid -> Nonce, writes: nat)
    : (r: (Db, Result<Tally>))
    ensures SharesOnly(db, r.0)
  {
    if q.team !in db.teams then (db, Err(NotFound))
    else
      var (db', r) := ShareMembers(c, db, q, rows, nonces, writes);
      if r.Err? then (db', r)
      else if r.value.granted == 0 then (db', Err(Validation))
      else if writes <= r.value.granted then (db', Err(Database))
      else (db', r)
  }

  // ---- key rotation ----

  datatype KeyShare = KeyShare(user: Uuid, envelope: bytes, viaTeam: Option<Uuid>)

  /** The foreign keys of a share row resolve. */
  predicate Resolves(db: Db, vault: Uuid, e: KeyShare) {
    vault in db.vaults && e.user in db.users && (e.viaTeam.Some? ==> e.viaTeam.value in db.teams)
  }

  /** What the primary key and the foreign keys demand of the replacement rows. */
  predicate Insertable(db: Db, vault: Uuid, entries: seq<KeyShare>) {
    && (forall i :: 0 <= i < |entries| ==> Resolves(db, vault, entries[i]))
    && (forall i, j :: 0 <= i < j < |entries| ==> entries[i].user != entries[j].user)
  }

  function ReplacedRow(e: KeyShare, actor: Uuid): ShareRow {
    ShareRow(e.envelope, Some(actor), e.viaTeam, Read)
  }

  /** `shares` holds exactly `entries` for `vault`, and the rows of `before` for every other vault. */
  ghost predicate Replaces(before: map<(Uuid, Uuid), ShareRow>, vault: Uuid, entries: seq<KeyShare>, actor: Uuid,
                           shares: map<(Uuid, Uuid), ShareRow>) {
    && (forall s :: s in shares && s.0 != vault <==> s in before && s.0 != vault)
    && (forall s :: s in before && s.0 != vault ==> shares[s] == before[s])
    && (forall i :: 0 <= i < |entries| ==>
          && (vault, entries[i].user) in shares
          && shares[(vault, entries[i].user)] == ShareRow(entries[i].envelope, Some(actor), entries[i].viaTeam, Read))
    && (forall s :: s in shares && s.0 == vault ==> exists i :: 0 <= i < |entries| && entries[i].user == s.1)
  }

  function WithoutVault(shares: map<(Uuid, Uuid), ShareRow>, vault: Uuid): map<(Uuid, Uuid), ShareRow> {
    map s | s in shares && s.0 != vault :: shares[s]
  }

  /** The rows of `entries` inserted in turn on top of `shares`. */
  function InsertAll(shares: map<(Uuid, Uuid), ShareRow>, vault: Uuid, entries: seq<KeyShare>, actor: Uuid)
    : map<(Uuid, Uuid), ShareRow>
  {
    if entries == [] then shares
    else
      var last := entries[|entries| - 1];
      InsertAll(shares, vault, entries[..|entries| - 1], actor)[(vault, last.user) := ReplacedRow(last, actor)]
  }

  /** One transaction replacing every share of a vault; any constraint violation rolls all of it back. */
  ghost function ReplaceAllShares(db: Db, vault: Uuid, entries: seq<KeyShare>, actor: Uuid): Result<Db> {
    if Insertable(db, vault, entries)
    then Ok(db.(shares := InsertAll(WithoutVault(db.shares, vault), vault, entries, actor)))
    else Err(Database)
  }

  lemma {:induction false} InsertAllReplaces(before: map<(Uuid, Uuid), ShareRow>, vault: Uuid, entries: seq<KeyShare>,
                                             actor: Uuid)
    requires forall i, j :: 0 <= i < j < |entries| ==> entries[i].user != entries[j].user
    ensures Replaces(before, vault, entries, actor, InsertAll(WithoutVault(before, vault), vault, entries, actor))
  {
    if entries != [] {
      var k := |entries| - 1;
      var head := entries[..k];
      InsertAllReplaces(before, vault, head, actor);
      var shares := InsertAll(WithoutVault(before, vault), vault, entries, actor);
      var inner := InsertAll(WithoutVault(before, vault), vault, head, actor);
      assert shares == inner[(vault, entries[k].user) := ReplacedRow(entries[k], actor)];
      assert entries == head + [entries[k]];
      ReplacesOneMore(before, vault, head, entries[k], actor, inner);
    }
  }

  lemma ReplacesOneMore(before: map<(Uuid, Uuid), ShareRow>, vault: Uuid, head: seq<KeyShare>, e: KeyShare, actor: Uuid,
                        inner: map<(Uuid, Uuid), ShareRow>)
    requires Replaces(before, vault, head, actor, inner)
    requires forall i :: 0 <= i < |head| ==> head[i].user != e.user
    ensures Replaces(before, vault, head + [e], actor, inner[(vault, e.user) := ReplacedRow(e, actor)])
  {
    var entries, shares := head + [e], inner[(vault, e.user) := ReplacedRow(e, actor)];
    assert entries[|head|] == e;
    forall s | s in shares && s.0 == vault
      ensures exists i :: 0 <= i < |entries| && entries[i].user == s.1
    {
      if s != (vault, e.user) {
        var i :| 0 <= i < |head| && head[i].user == s.1;
        assert entries[i].user == s.1;
      }
    }
  }

  lemma InsertablePrefix(db: Db, vault: Uuid, entries: seq<KeyShare>, k: nat)
    requires k <= |entries| && Insertable(db, vault, entries)
    ensures Insertable(db, vault, entries[..k])
  {
    forall i | 0 <= i < k ensures Resolves(db, vault, entries[..k][i]) {
      assert entries[..k][i] == entries[i];
    }
  }

  /** One more entry can be inserted exactly when its foreign keys resolve and its user has no row yet. */
  lemma InsertableExtends(db: Db, vault: Uuid, entries: seq<KeyShare>, i: nat, actor: Uuid)
    requires i < |entries| && Insertable(db, vault, entries[..i])
    ensures var tx := InsertAll(WithoutVault(db.shares, vault), vault, entries[..i], actor);
      var e := entries[i];
      && (Insertable(db, vault, entries[..i + 1]) <==>
            Resolves(db, vault, e) && (vault, e.user) !in tx)
      && InsertAll(WithoutVault(db.shares, vault), vault, entries[..i + 1], actor) ==
        tx[(vault, e.user) := ReplacedRow(e, actor)]
  {
    var head, e := entries[..i], entries[i];
    assert entries[..i + 1] == head + [e] && (head + [e])[..i] == head;
    InsertedUsers(db.shares, vault, head, actor, e.user);
    InsertableOneMore(db, vault, head, e);
  }

  lemma InsertedUsers(before: map<(Uuid, Uuid), ShareRow>, vault: Uuid, entries: seq<KeyShare>, actor: Uuid, user: Uuid)
    requires forall i, j :: 0 <= i < j < |entries| ==> entries[i].user != entries[j].user
    ensures (vault, user) in InsertAll(WithoutVault(before, vault), vault, entries, actor) <==>
      exists i :: 0 <= i < |entries| && entries[i].user == user
  {
    InsertAllReplaces(before, vault, entries, actor);
  }

  lemma InsertableOneMore(db: Db, vault: Uuid, head: seq<KeyShare>, e: KeyShare)
    requires Insertable(db, vault, head)
    ensures Insertable(db, vault, head + [e]) <==>
      Resolves(db, vault, e) && !exists i :: 0 <= i < |head| && head[i].user == e.user
  {
    var longer := head + [e];
    assert longer[|head|] == e && forall i :: 0 <= i < |head| ==> longer[i] == head[i];
    if i :| 0 <= i < |head| && head[i].user == e.user { assert longer[i].user == longer[|head|].user; }
  }

  /** The share replacement commits before the owner envelope is updated. */
  ghost function RotateVaultKey(db: Db, actor: Uuid, vault: Uuid, ownerEnvelope: bytes, entries: seq<KeyShare>,
                                writes: nat)
    : (r: (Db, Result<()>))
    ensures r.0 == db.(shares := r.0.shares, vaults := r.0.vaults)
    ensures r.0.vaults.Keys == db.vaults.Keys
    ensures forall v :: v in db.vaults ==>
      r.0.vaults[v].owner == db.vaults[v].owner && r.0.vaults[v].deletedAt == db.vaults[v].deletedAt
  {
    if writes < 1 then (db, Err(Database))
    else match ReplaceAllShares(db, vault, entries, actor)
      case Err(e) => (db, Err(e))
      case Ok(replaced) =>
        if writes < 2 then (replaced, Err(Database))
        else match V.UpdateEnvelope(replaced, vault, ownerEnvelope)
          case None => (replaced, Err(Storage))
          case Some(updated) => (updated, if writes < 3 then Err(Database) else Ok(()))
  }

  /** As soon as the first write succeeds on insertable entries, the shares are replaced; otherwise nothing changes. */
  lemma RotatedShares(db: Db, actor: Uuid, vault: Uuid, ownerEnvelope: bytes, entries: seq<KeyShare>, writes: nat)
    ensures var db' := RotateVaultKey(db, actor, vault, ownerEnvelope, entries, writes).0;
      if writes >= 1 && Insertable(db, vault, entries) then Replaces(db.shares, vault, entries, actor, db'.shares)
        else db' == db
  {
    if writes >= 1 && Insertable(db, vault, entries) {
      InsertAllReplaces(db.shares, vault, entries, actor);
    }
  }

  /** A completed rotation leaves the vault with exactly the given users, touches no other vault, and bumps the
      version. */
  lemma RotationOutcome(db: Db, actor: Uuid, vault: Uuid, ownerEnvelope: bytes, entries: seq<KeyShare>, writes: nat)
    ensures RotateVaultKey(db, actor, vault, ownerEnvelope, entries, writes).1.Ok? <==>
      Insertable(db, vault, entries) && VaultLive(db, vault) && writes >= 3
    ensures RotateVaultKey(db, actor, vault, ownerEnvelope, entries, writes).1.Ok? ==>
      var db' := RotateVaultKey(db, actor, vault, ownerEnvelope, entries, writes).0;
      && Replaces(db.shares, vault, entries, actor, db'.shares)
      && VaultLive(db, vault) && vault in db'.vaults
      && db'.vaults[vault] == db.vaults[vault].(envelope := Some(ownerEnvelope), version :=
                                                db.vaults[vault].version + 1)
      && db'.vaults == db.vaults[vault := db'.vaults[vault]]
      && db' == db.(shares := db'.shares, vaults := db'.vaults)
  {
    RotatedShares(db, actor, vault, ownerEnvelope, entries, writes);
  }

  /** A rotation, however far it gets, leaves the shares and the row of every other vault as they were. */
  lemma RotationTouchesOneVault(db: Db, actor: Uuid, vault: Uuid, ownerEnvelope: bytes, entries: seq<KeyShare>,
                                writes: nat)
    ensures var db' := RotateVaultKey(db, actor, vault, ownerEnvelope, entries, writes).0;
      && (forall s: (Uuid, Uuid) :: s.0 != vault ==> SameRow(db, db', s))
      && (forall v :: v != vault && v in db.vaults ==> db'.vaults[v] == db.vaults[v])
  {
    RotatedShares(db, actor, vault, ownerEnvelope, entries, writes);
    RotatedVaults(db, actor, vault, ownerEnvelope, entries, writes);
  }

  lemma RotatedVaults(db: Db, actor: Uuid, vault: Uuid, ownerEnvelope: bytes, entries: seq<KeyShare>, writes: nat)
    ensures var db' := RotateVaultKey(db, actor, vault, ownerEnvelope, entries, writes).0;
      forall v :: v != vault && v in db.vaults ==> db'.vaults[v] == db.vaults[v]
  {
  }

  // ---- what a team share does ----

  ghost predicate Resolvable(db: Db, q: ShareRequest, user: Uuid) {
    ResolveKey(db, q.supplied, user).Some?
  }

  /** The row of (vault, user) after the pass is a read-only share through the team, given by the sharer, and holds the
      vault key wrapped for the key the member resolves to. */
  ghost predicate Granted(c: Cipher, before: Db, after: Db, q: ShareRequest, user: Uuid) {
    && Resolvable(before, q, user)
    && (q.vault, user) in after.shares
    && after.shares[(q.vault, user)].role == Read
    && after.shares[(q.vault, user)].grantedBy == Some(q.granter)
    && after.shares[(q.vault, user)].viaTeam == Some(q.team)
    && Unwrap(c, after.shares[(q.vault, user)].envelope, ResolveKey(before, q.supplied, user).value) == Ok(q.vaultKey)
  }

  ghost predicate SameRow(before: Db, after: Db, s: (Uuid, Uuid)) {
    (s in after.shares <==> s in before.shares) && (s in before.shares ==> after.shares[s] == before.shares[s])
  }

  lemma ShareOneOutcome(c: Cipher, db: Db, q: ShareRequest, user: Uuid, nonce: Nonce, t: Tally, writes: nat)
    ensures var (db', r) := ShareOne(c, db, q, user, nonce, t, writes);
      && db' == db.(shares := db'.shares)
      && (forall s :: s != (q.vault, user) ==> SameRow(db, db', s))
      && (Granted(c, db, db', q, user) || SameRow(db, db', (q.vault, user)))
      && (r.Ok? ==>
            && (Resolvable(db, q, user) ==> Granted(c, db, db', q, user) && r.value == t.(granted := t.granted + 1))
            && (!Resolvable(db, q, user) ==> db' == db && r.value == t.(skipped := t.skipped + 1)))
  {
    var k := ResolveKey(db, q.supplied, user);
    if k.Some? { WrapRoundTrip(c, q.vaultKey, k.value, nonce); }
  }

  /** Whatever a pass changed is a correct read-only grant to one of the members handled so far. */
  ghost predicate OnlyGrants(c: Cipher, before: Db, after: Db, q: ShareRequest, rows: seq<Uuid>) {
    && after == before.(shares := after.shares)
    && (forall s :: !SameRow(before, after, s) ==> s.0 == q.vault && s.1 in rows && Granted(c, before, after, q, s.1))
  }

  /** A pass over `rows` granted exactly the resolvable members and counted every member once. */
  ghost predicate Complete(c: Cipher, before: Db, after: Db, q: ShareRequest, rows: seq<Uuid>, t: Tally) {
    && t.granted + t.skipped == |rows|
    && (forall u :: u in rows ==>
          if Resolvable(before, q, u) then Granted(c, before, after, q, u) else SameRow(before, after, (q.vault, u)))
    && (t.granted == 0 <==> forall u :: u in rows ==> !Resolvable(before, q, u))
  }

  lemma ShareOneExtends(c: Cipher, db: Db, mid: Db, q: ShareRequest, rows: seq<Uuid>, user: Uuid, nonce: Nonce,
                        t: Tally, writes: nat)
    requires OnlyGrants(c, db, mid, q, rows) && Complete(c, db, mid, q, rows, t) && user !in rows
    ensures var (db', r) := ShareOne(c, mid, q, user, nonce, t, writes);
      && OnlyGrants(c, db, db', q, rows + [user])
      && (r.Ok? ==> Complete(c, db, db', q, rows + [user], r.value))
  {
    ShareOneOutcome(c, mid, q, user, nonce, t, writes);
    var (db', r) := ShareOne(c, mid, q, user, nonce, t, writes);
    assert SameRow(db, mid, (q.vault, user));
    forall w ensures Granted(c, mid, db', q, w) ==> Granted(c, db, db', q, w)
      ensures Resolvable(mid, q, w) == Resolvable(db, q, w)
    {
      assert ResolveKey(mid, q.supplied, w) == ResolveKey(db, q.supplied, w);
    }
    forall s | !SameRow(db, db', s)
      ensures s.0 == q.vault && s.1 in rows + [user] && Granted(c, db, db', q, s.1)
    {
      if s != (q.vault, user) { assert SameRow(mid, db', s); }
    }
    if r.Ok? {
      forall u | u in rows + [user]
        ensures if Resolvable(db, q, u) then Granted(c, db, db', q, u) else SameRow(db, db', (q.vault, u))
      {
        if u != user { assert SameRow(mid, db', (q.vault, u)); }
      }
      assert user in rows + [user];
      assert forall u :: u in rows ==> u in rows + [user];
    }
  }

  /** The effect of a pass, complete or cut short: only correct grants to listed members; and without an error exactly
      the resolvable members are granted and granted + skipped is the number of members. */
  lemma {:induction false} ShareMembersOutcome(c: Cipher, db: Db, q: ShareRequest, rows: seq<Uuid>,
                                               nonces: Uuid -> Nonce, writes: nat)
    requires forall i, j :: 0 <= i < j < |rows| ==> rows[i] != rows[j]
    ensures var (db', r) := ShareMembers(c, db, q, rows, nonces, writes);
      OnlyGrants(c, db, db', q, rows) && (r.Ok? ==> Complete(c, db, db', q, rows, r.value))
  {
    if rows != [] {
      var k := |rows| - 1;
      ShareMembersOutcome(c, db, q, rows[..k], nonces, writes);
      var (mid, r) := ShareMembers(c, db, q, rows[..k], nonces, writes);
      assert rows == rows[..k] + [rows[k]];
      if r.Ok? {
        ShareOneExtends(c, db, mid, q, rows[..k], rows[k], nonces(rows[k]), r.value, writes);
      }
    }
  }

  /** How many of the listed members resolve to a key. */
  ghost function Resolved(db: Db, q: ShareRequest, rows: seq<Uuid>): (n: nat)
    ensures n <= |rows|
  {
    if rows == [] then 0
    else Resolved(db, q, rows[..|rows| - 1]) + if Resolvable(db, q, rows[|rows| - 1]) then 1 else 0
  }

  /** A row can be written for each listed member that resolves to a key: the key has 32 bytes and the foreign keys
      resolve. */
  ghost predicate AllWritable(db: Db, q: ShareRequest, rows: seq<Uuid>) {
    forall u :: u in rows && Resolvable(db, q, u) ==>
      && |ResolveKey(db, q.supplied, u).value| == AES_256_KEY_LEN
      && q.vault in db.vaults && u in db.users && q.team in db.teams
  }

  /** A pass goes through exactly if it can write the row of every resolvable member and that many writes succeed. */
  lemma {:induction false} PassExactly(c: Cipher, db: Db, q: ShareRequest, rows: seq<Uuid>, nonces: Uuid -> Nonce,
                                       writes: nat)
    ensures var (after, r) := ShareMembers(c, db, q, rows, nonces, writes);
      && (r.Ok? <==> AllWritable(db, q, rows) && Resolved(db, q, rows) <= writes)
      && (r.Ok? ==> r.value == Tally(Resolved(db, q, rows), |rows| - Resolved(db, q, rows)))
  {
    if rows != [] {
      var k := |rows| - 1;
      var (mid, r) := ShareMembers(c, db, q, rows[..k], nonces, writes);
      PassExactly(c, db, q, rows[..k], nonces, writes);
      assert rows == rows[..k] + [rows[k]];
      if r.Ok? { ServeExactly(c, db, mid, q, rows[k], nonces(rows[k]), r.value, writes); }
    }
  }

  lemma ServeExactly(c: Cipher, db: Db, mid: Db, q: ShareRequest, user: Uuid, nonce: Nonce, t: Tally, writes: nat)
    requires mid == db.(shares := mid.shares)
    ensures var r := ShareOne(c, mid, q, user, nonce, t, writes).1;
      if Resolvable(db, q, user) then
        && (r.Ok? <==> AllWritable(db, q, [user]) && t.granted < writes)
        && (r.Ok? ==> r.value == Tally(t.granted + 1, t.skipped))
      else r == Ok(Tally(t.granted, t.skipped + 1))
  {
    assert ResolveKey(mid, q.supplied, user) == ResolveKey(db, q.supplied, user);
    if Resolvable(db, q, user) {
      assert user in [user];
      WrapRoundTrip(c, q.vaultKey, ResolveKey(db, q.supplied, user).value, nonce);
    }
  }

  /** A share is reported done exactly if the team exists, some member resolves to a key, the row of every such member
      can be written, and these writes and the audit write succeed; it reports how many members were served and how many
      skipped. When no member resolves to a key it is refused and changes nothing. */
  lemma ShareVaultOutcome(c: Cipher, db: Db, q: ShareRequest, rows: seq<Uuid>, nonces: Uuid -> Nonce, writes: nat)
    requires ListsMembers(db, q.team, rows)
    ensures var (after, r) := ShareVaultWithTeam(c, db, q, rows, nonces, writes);
      && OnlyGrants(c, db, after, q, rows)
      && (r.Ok? <==>
            && q.team in db.teams && AllWritable(db, q, rows) && 1 <= Resolved(db, q, rows) < writes)
      && (r.Ok? ==>
            && Complete(c, db, after, q, rows, r.value)
            && r.value == Tally(Resolved(db, q, rows), |rows| - Resolved(db, q, rows)))
      && (q.team in db.teams && Resolved(db, q, rows) == 0 ==> after == db && r == Err(Validation))
      && (q.team !in db.teams ==> after == db && r == Err(NotFound))
  {
    ShareMembersOutcome(c, db, q, rows, nonces, writes);
    PassExactly(c, db, q, rows, nonces, writes);
    NobodyServed(c, db, q, rows, nonces, writes);
  }

  lemma {:induction false} NobodyServed(c: Cipher, db: Db, q: ShareRequest, rows: seq<Uuid>, nonces: Uuid -> Nonce,
                                        writes: nat)
    ensures Resolved(db, q, rows) == 0 ==> ShareMembers(c, db, q, rows, nonces, writes) == (db, Ok(Tally(0, |rows|)))
  {
    if rows != [] { NobodyServed(c, db, q, rows[..|rows| - 1], nonces, writes); }
  }

  /** A member served by a team share who is neither the owner nor a global administrator may open the vault with the
      key the member resolves to, to the shared key, and may not delete it. */
  lemma ServedMayOpenNotDelete(c: Cipher, db: Db, q: ShareRequest, rows: seq<Uuid>, nonces: Uuid -> Nonce, writes: nat,
                               member: Uuid, now: int, deletionWrites: nat)
    requires ListsMembers(db, q.team, rows) && ShareVaultWithTeam(c, db, q, rows, nonces, writes).1.Ok?
    requires member in rows && Resolvable(db, q, member) && VaultLive(db, q.vault) && !Owns(db, member, q.vault)
    requires member in db.users && db.users[member].role == User
    ensures var after := ShareVaultWithTeam(c, db, q, rows, nonces, writes).0;
      && V.OpenVaultForUser(c, after, member, q.vault, ResolveKey(db, q.supplied, member).value, 1) == Ok(q.vaultKey)
      && !V.MayDelete(after, member, q.vault)
      && V.DeleteVault(after, member, q.vault, now, deletionWrites).0 == after
      && V.DeleteVault(after, member, q.vault, now, deletionWrites).1.Err?
  {
    var after := ShareVaultWithTeam(c, db, q, rows, nonces, writes).0;
    var key := ResolveKey(db, q.supplied, member).value;
    ShareMembersOutcome(c, db, q, rows, nonces, writes);
    assert Granted(c, db, after, q, member);
    V.OpensExactly(c, after, member, q.vault, key, 1, q.vaultKey);
    V.DeletesExactly(c, after, member, q.vault, now, deletionWrites, member, key);
  }

  /** Once a pass has failed, listing more members changes nothing. */
  lemma {:induction false} ShareMembersStops(c: Cipher, db: Db, q: ShareRequest, rows: seq<Uuid>, k: nat,
                                             nonces: Uuid -> Nonce, writes: nat)
    requires k <= |rows| && ShareMembers(c, db, q, rows[..k], nonces, writes).1.Err?
    ensures ShareMembers(c, db, q, rows, nonces, writes) == ShareMembers(c, db, q, rows[..k], nonces, writes)
    decreases |rows|
  {
    if k == |rows| {
      assert rows[..k] == rows;
    } else {
      var shorter := rows[..|rows| - 1];
      assert shorter[..k] == rows[..k];
      ShareMembersStops(c, db, q, shorter, k, nonces, writes);
    }
  }
}
