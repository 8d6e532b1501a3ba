/** From a team share to the member's own login: the vault key that was shared is the key that is opened. */
module KeyAgreement {
  import opened Types
  import opened Text
  import opened Crypto
  import opened Store
  import opened Machine
  import Acc = Accounts
  import A = Auth
  import SH = ShareHistory
  import T = Teams
  import V = Vaults
  import PE = PasswordEnvelope

  /** The stored envelope of `user` and the credential in memory both hold `hash`. */
  ghost predicate HoldsHash(w: World, user: Uuid, hash: bytes) {
    && user in w.db.users && w.db.users[user].envelope.Some?
    && PE.Decode(w.db.users[user].envelope.value).Ok?
    && PE.Decode(w.db.users[user].envelope.value).value.hash == hash
    && w.db.users[user].username in w.auth.credentials
    && w.auth.credentials[w.db.users[user].username].hash == hash
  }

  /** The key material of (user, vault) opens, under the user's password hash, to `vaultKey`. */
  ghost predicate Opens(c: Cipher, db: Db, user: Uuid, vault: Uuid, hash: bytes, vaultKey: bytes) {
    V.KeyMaterial(db, user, vault).Some? && Unwrap(c, V.KeyMaterial(db, user, vault).value, hash) == Ok(vaultKey)
  }

  ghost predicate Channel(c: Cipher, w: World, user: Uuid, vault: Uuid, hash: bytes, vaultKey: bytes) {
    HoldsHash(w, user, hash) && Opens(c, w.db, user, vault, hash, vaultKey)
  }

  /** The password hash in memory for an existing user, and nothing for anyone else. */
  function HashInMemory(w: World, user: Uuid): bytes {
    if user in w.db.users && w.db.users[user].username in w.auth.credentials
    then w.auth.credentials[w.db.users[user].username].hash else []
  }

  /** An envelope in which `user` does not find `vaultKey`. */
  ghost predicate Misses(c: Cipher, w: World, user: Uuid, envelope: bytes, vaultKey: bytes) {
    Unwrap(c, envelope, HashInMemory(w, user)) != Ok(vaultKey)
  }

  /** An account call that takes effect against the channel: a replacement of the user's hash, the deletion of the user
      or of the vault's owner, or a start that loads no credentials. */
  ghost predicate AccountDisturbs(c: Cipher, w: World, a: Acc.Event, user: Uuid, vault: Uuid) {
    match a
    case DeleteUserEv(actor, target, writes) =>
      Acc.Deletes(w, actor, target, writes) && (target == user || Owns(w.db, target, vault))
    case RestartEv(first) => !Acc.LoadsEnvelopes(w.db, first)
    case _ =>
      && user in w.db.users && Acc.Replacement(c, w, a, user).Some?
      && Acc.Replacement(c, w, a, user).value.hash != HashInMemory(w, user)
  }

  /** A rotation that gets through and leaves the user without the vault key: the owner by the new owner envelope,
      anyone else by the replacement rows. */
  ghost predicate RotationDisturbs(c: Cipher, w: World, t: TeamEvent, user: Uuid, vault: Uuid, vaultKey: bytes)
    requires t.Rotate?
  {
    && t.vault == vault && t.writes >= 1 && T.Insertable(w.db, vault, t.entries)
    && if Owns(w.db, user, vault) then t.writes >= 2 && Misses(c, w, user, t.ownerEnvelope, vaultKey)
       else forall i :: 0 <= i < |t.entries| && t.entries[i].user == user ==>
         Misses(c, w, user, t.entries[i].envelope, vaultKey)
  }

  /** A team call that takes effect against the channel of a share holder: removal from the team the share came through,
      revocation, rotation, and writing a share in which the user does not find the vault key. */
  ghost predicate TeamDisturbs(c: Cipher, w: World, t: TeamEvent, user: Uuid, vault: Uuid, vaultKey: bytes) {
    match t
    case RemoveMember(requester, team, target, writes) =>
      && target == user && T.Leads(w.db, requester, team) && (team, user) in w.db.members && writes >= 2
      && !Owns(w.db, user, vault) && (vault, user) in w.db.shares && w.db.shares[(vault, user)].viaTeam == Some(team)
    case Grant(_, target, recipient, key, recipientKey, nonce, writes) =>
      && target == vault && recipient == user && writes >= 1 && |recipientKey| == AES_256_KEY_LEN
      && !Owns(w.db, user, vault) && Misses(c, w, user, Wrap(c, key, recipientKey, nonce).value, vaultKey)
    case Share(q, rows, nonces, writes) =>
      && q.vault == vault && q.team in w.db.teams && user in SH.Served(c, w.db, q, rows, nonces, writes)
      && !Owns(w.db, user, vault) && Misses(c, w, user, SH.ServedEnvelope(c, w.db, q, user, nonces(user)), vaultKey)
    case Revoke(target, other, writes) => target == vault && other == user && writes >= 1 && !Owns(w.db, user, vault)
    case Rotate(_, _, _, _, _) => RotationDisturbs(c, w, t, user, vault, vaultKey)
    case _ => false
  }

  /** The calls that cut `user` off from `vault`; each takes effect, and a refused call is none of them. */
  ghost predicate Disturbs(c: Cipher, w: World, e: Event, user: Uuid, vault: Uuid, vaultKey: bytes) {
    match e
    case OnAccount(a) => AccountDisturbs(c, w, a, user, vault)
    case OnTeam(t) => TeamDisturbs(c, w, t, user, vault, vaultKey)
    case OnVault(DeleteVault(requester, target, _, writes)) =>
      target == vault && V.MayDelete(w.db, requester, vault) && writes >= 1
    case OnVault(_) => false
    case OnSecret(_) => false
  }

  ghost predicate Undisturbed(c: Cipher, w: World, es: seq<Event>, user: Uuid, vault: Uuid, vaultKey: bytes) {
    forall i :: 0 <= i < |es| ==> !Disturbs(c, Run(c, w, es[..i]), es[i], user, vault, vaultKey)
  }

  // ---- one call against a channel ----

  /** A channel depends only on the user's row and credential and on the user's key material. */
  lemma ChannelFrame(c: Cipher, w: World, w': World, user: Uuid, vault: Uuid, hash: bytes, vaultKey: bytes)
    requires Channel(c, w, user, vault, hash, vaultKey)
    requires user in w'.db.users && w'.db.users[user].username == w.db.users[user].username
    requires w'.db.users[user].envelope == w.db.users[user].envelope
    requires var name := w.db.users[user].username;
      name in w'.auth.credentials && w'.auth.credentials[name].hash == w.auth.credentials[name].hash
    requires V.KeyMaterial(w'.db, user, vault) == V.KeyMaterial(w.db, user, vault)
    ensures Channel(c, w', user, vault, hash, vaultKey)
  {
  }

  lemma RestartChannel(c: Cipher, w: World, first: Option<Uuid>, user: Uuid, vault: Uuid, hash: bytes, vaultKey: bytes)
    requires UniqueUsernames(w.db) && Channel(c, w, user, vault, hash, vaultKey)
    ensures Channel(c, Acc.Restart(w, first).0, user, vault, hash, vaultKey) <==> Acc.LoadsEnvelopes(w.db, first)
  {
    if Acc.LoadsEnvelopes(w.db, first) && Acc.Restart(w, first).1.Ok? {
      Acc.LoadedAgrees(w, first, user);
      ChannelFrame(c, w, Acc.Restart(w, first).0, user, vault, hash, vaultKey);
    }
  }

  lemma RegisterKeepsChannel(c: Cipher, w: World, name: string, password: bytes, role: UserRole, id: Uuid, salt: Salt,
                             writes: nat, user: Uuid, vault: Uuid, hash: bytes, vaultKey: bytes)
    requires Channel(c, w, user, vault, hash, vaultKey)
    ensures Channel(c, Acc.Register(c, w, name, password, role, id, salt, writes).0, user, vault, hash, vaultKey)
  {
    Acc.RegisterOutcome(c, w, name, password, role, id, salt, writes);
    ChannelFrame(c, w, Acc.Register(c, w, name, password, role, id, salt, writes).0, user, vault, hash, vaultKey);
  }

  lemma ReplacementChannel(c: Cipher, w: World, a: Acc.Event, w': World, user: Uuid, vault: Uuid, hash: bytes,
                           vaultKey: bytes)
    requires UniqueUsernames(w.db) && Channel(c, w, user, vault, hash, vaultKey)
    requires (a.ResetPasswordEv? || a.ChangePasswordEv?) && Acc.ReplacesOnly(c, w, a, w')
    ensures Channel(c, w', user, vault, hash, vaultKey) <==> !AccountDisturbs(c, w, a, user, vault)
  {
    var target := Acc.TargetOf(a);
    if target != user { ChannelFrame(c, w, w', user, vault, hash, vaultKey); }
  }

  lemma DeletionChannel(c: Cipher, w: World, actor: Uuid, target: Uuid, writes: nat,
                        user: Uuid, vault: Uuid, hash: bytes, vaultKey: bytes)
    requires Channel(c, w, user, vault, hash, vaultKey)
    ensures Channel(c, Acc.DeleteUser(w, actor, target, writes).0, user, vault, hash, vaultKey) <==>
      !(Acc.Deletes(w, actor, target, writes) && (target == user || Owns(w.db, target, vault)))
  {
    Acc.DeletesExactly(w, actor, target, writes);
  }

  lemma RoleKeepsChannel(c: Cipher, w: World, actor: Uuid, target: Uuid, role: UserRole, writes: nat,
                         user: Uuid, vault: Uuid, hash: bytes, vaultKey: bytes)
    requires Channel(c, w, user, vault, hash, vaultKey)
    ensures Channel(c, Acc.UpdateUserRole(w, actor, target, role, writes).0, user, vault, hash, vaultKey)
  {
    ChannelFrame(c, w, Acc.UpdateUserRole(w, actor, target, role, writes).0, user, vault, hash, vaultKey);
  }

  lemma AccountChannel(c: Cipher, w: World, a: Acc.Event, user: Uuid, vault: Uuid, hash: bytes, vaultKey: bytes)
    requires UniqueUsernames(w.db) && Channel(c, w, user, vault, hash, vaultKey)
    ensures Channel(c, Acc.Step(c, w, a), user, vault, hash, vaultKey) <==> !AccountDisturbs(c, w, a, user, vault)
  {
    match a
    case CreateUserEv(actor, username, password, role, id, salt, writes) =>
      RegisterKeepsChannel(c, w, Trim(username), password, role, id, salt, writes, user, vault, hash, vaultKey);
    case BootstrapEv(username, password, id, salt, writes) =>
      RegisterKeepsChannel(c, w, Trim(username), password, Admin, id, salt, writes, user, vault, hash, vaultKey);
    case ResetPasswordEv(_, _, _, _, _) =>
      Acc.ResetOutcome(c, w, a);
      ReplacementChannel(c, w, a, Acc.Step(c, w, a), user, vault, hash, vaultKey);
    case ChangePasswordEv(_, _, _, _, _) =>
      Acc.ChangeOutcome(c, w, a);
      ReplacementChannel(c, w, a, Acc.Step(c, w, a), user, vault, hash, vaultKey);
    case DeleteUserEv(actor, target, writes) =>
      DeletionChannel(c, w, actor, target, writes, user, vault, hash, vaultKey);
    case UpdateRoleEv(actor, target, role, writes) =>
      RoleKeepsChannel(c, w, actor, target, role, writes, user, vault, hash, vaultKey);
    case RestartEv(first) => RestartChannel(c, w, first, user, vault, hash, vaultKey);
    case SignalShutdownEv =>
  }

  lemma ShareOpens(c: Cipher, w: World, e: TeamEvent, user: Uuid, vault: Uuid, hash: bytes, vaultKey: bytes)
    requires e.Share? && Channel(c, w, user, vault, hash, vaultKey)
    ensures Opens(c, TeamStep(c, w.db, e), user, vault, hash, vaultKey) <==>
      !TeamDisturbs(c, w, e, user, vault, vaultKey)
  {
    SH.ServedMembers(c, w.db, e.q, e.rows, e.nonces, e.writes);
    var db' := TeamStep(c, w.db, e);
    assert db' == w.db.(shares := db'.shares);
    if e.q.vault == vault && user in SH.Served(c, w.db, e.q, e.rows, e.nonces, e.writes) {
      SH.ServedRow(c, w.db, e.q, e.rows, e.nonces, e.writes, user);
    } else {
      assert T.SameRow(w.db, db', (vault, user));
    }
  }

  lemma RotationOpensOwner(c: Cipher, w: World, e: TeamEvent, user: Uuid, vault: Uuid, hash: bytes, vaultKey: bytes)
    requires e.Rotate? && e.vault == vault && Owns(w.db, user, vault) && Channel(c, w, user, vault, hash, vaultKey)
    ensures Opens(c, TeamStep(c, w.db, e), user, vault, hash, vaultKey) <==>
      !RotationDisturbs(c, w, e, user, vault, vaultKey)
  {
  }

  /** Over replaced shares a user who is not the owner finds the vault key exactly in an own entry that holds it. */
  lemma ReplacedOpens(c: Cipher, w: World, after: Db, e: TeamEvent, user: Uuid, vault: Uuid, hash: bytes,
                      vaultKey: bytes)
    requires e.Rotate? && e.vault == vault && !Owns(w.db, user, vault) && Channel(c, w, user, vault, hash, vaultKey)
    requires e.writes >= 1 && T.Insertable(w.db, vault, e.entries)
    requires T.Replaces(w.db.shares, vault, e.entries, e.actor, after.shares)
    requires VaultLive(after, vault) && after.vaults[vault].owner == w.db.vaults[vault].owner
    ensures Opens(c, after, user, vault, hash, vaultKey) <==> !RotationDisturbs(c, w, e, user, vault, vaultKey)
  {
    if (vault, user) in after.shares {
      var i :| 0 <= i < |e.entries| && e.entries[i].user == user;
      assert after.shares[(vault, e.entries[i].user)] ==
        ShareRow(e.entries[i].envelope, Some(e.actor), e.entries[i].viaTeam, Read);
    }
  }

  lemma RotationOpensHolder(c: Cipher, w: World, e: TeamEvent, user: Uuid, vault: Uuid, hash: bytes, vaultKey: bytes)
    requires e.Rotate? && e.vault == vault && !Owns(w.db, user, vault) && Channel(c, w, user, vault, hash, vaultKey)
    ensures Opens(c, TeamStep(c, w.db, e), user, vault, hash, vaultKey) <==>
      !RotationDisturbs(c, w, e, user, vault, vaultKey)
  {
    T.RotatedShares(w.db, e.actor, vault, e.ownerEnvelope, e.entries, e.writes);
    if e.writes >= 1 && T.Insertable(w.db, vault, e.entries) {
      ReplacedOpens(c, w, TeamStep(c, w.db, e), e, user, vault, hash, vaultKey);
    }
  }

  lemma OtherRotationOpens(c: Cipher, w: World, e: TeamEvent, user: Uuid, vault: Uuid, hash: bytes, vaultKey: bytes)
    requires e.Rotate? && e.vault != vault && Channel(c, w, user, vault, hash, vaultKey)
    ensures Opens(c, TeamStep(c, w.db, e), user, vault, hash, vaultKey)
  {
    T.RotationTouchesOneVault(w.db, e.actor, e.vault, e.ownerEnvelope, e.entries, e.writes);
  }

  lemma RemovalOpens(c: Cipher, w: World, e: TeamEvent, user: Uuid, vault: Uuid, hash: bytes, vaultKey: bytes)
    requires e.RemoveMember? && Channel(c, w, user, vault, hash, vaultKey)
    ensures Opens(c, TeamStep(c, w.db, e), user, vault, hash, vaultKey) <==>
      !TeamDisturbs(c, w, e, user, vault, vaultKey)
  {
  }

  lemma GrantOrRevokeOpens(c: Cipher, w: World, e: TeamEvent, user: Uuid, vault: Uuid, hash: bytes, vaultKey: bytes)
    requires (e.Grant? || e.Revoke?) && Channel(c, w, user, vault, hash, vaultKey)
    ensures Opens(c, TeamStep(c, w.db, e), user, vault, hash, vaultKey) <==>
      !TeamDisturbs(c, w, e, user, vault, vaultKey)
  {
  }

  lemma TeamOpens(c: Cipher, w: World, e: TeamEvent, user: Uuid, vault: Uuid, hash: bytes, vaultKey: bytes)
    requires Channel(c, w, user, vault, hash, vaultKey)
    ensures Opens(c, TeamStep(c, w.db, e), user, vault, hash, vaultKey) <==>
      !TeamDisturbs(c, w, e, user, vault, vaultKey)
  {
    match e
    case Share(_, _, _, _) => ShareOpens(c, w, e, user, vault, hash, vaultKey);
    case Rotate(_, other, _, _, _) =>
      if other != vault { OtherRotationOpens(c, w, e, user, vault, hash, vaultKey); }
      else if Owns(w.db, user, vault) { RotationOpensOwner(c, w, e, user, vault, hash, vaultKey); }
      else { RotationOpensHolder(c, w, e, user, vault, hash, vaultKey); }
    case RemoveMember(_, _, _, _) => RemovalOpens(c, w, e, user, vault, hash, vaultKey);
    case Grant(_, _, _, _, _, _, _) => GrantOrRevokeOpens(c, w, e, user, vault, hash, vaultKey);
    case Revoke(_, _, _) => GrantOrRevokeOpens(c, w, e, user, vault, hash, vaultKey);
    case _ => assert V.KeyMaterial(TeamStep(c, w.db, e), user, vault) == V.KeyMaterial(w.db, user, vault);
  }

  lemma OtherVaultOpens(c: Cipher, db: Db, db': Db, user: Uuid, vault: Uuid, hash: bytes, vaultKey: bytes)
    requires Opens(c, db, user, vault, hash, vaultKey)
    requires db'.shares == db.shares && vault in db'.vaults && db'.vaults[vault] == db.vaults[vault]
    ensures Opens(c, db', user, vault, hash, vaultKey)
  {
  }

  lemma NewVaultOpens(c: Cipher, w: World, e: VaultEvent, user: Uuid, vault: Uuid, hash: bytes, vaultKey: bytes)
    requires e.CreateVault? && Channel(c, w, user, vault, hash, vaultKey)
    ensures Opens(c, VaultStep(c, w.db, e), user, vault, hash, vaultKey)
  {
    CreatedVaultFrame(c, w.db, e);
    OtherVaultOpens(c, w.db, VaultStep(c, w.db, e), user, vault, hash, vaultKey);
  }

  lemma VaultDeletionOpens(c: Cipher, w: World, e: VaultEvent, user: Uuid, vault: Uuid, hash: bytes, vaultKey: bytes)
    requires e.DeleteVault? && Channel(c, w, user, vault, hash, vaultKey)
    ensures Opens(c, VaultStep(c, w.db, e), user, vault, hash, vaultKey) <==>
      !Disturbs(c, w, OnVault(e), user, vault, vaultKey)
  {
    V.DeletesExactly(c, w.db, e.requester, e.vault, e.now, e.writes, user, hash);
  }

  lemma SecretKeepsOpens(c: Cipher, w: World, e: SecretEvent, user: Uuid, vault: Uuid, hash: bytes, vaultKey: bytes)
    requires Channel(c, w, user, vault, hash, vaultKey)
    ensures Opens(c, SecretStep(c, w.db, e), user, vault, hash, vaultKey)
  {
  }

  /** One call keeps a channel exactly unless it is one of those that cut the user off and take effect. */
  lemma StepKeepsChannel(c: Cipher, w: World, e: Event, user: Uuid, vault: Uuid, hash: bytes, vaultKey: bytes)
    requires UniqueUsernames(w.db) && Channel(c, w, user, vault, hash, vaultKey)
    ensures Channel(c, Step(c, w, e), user, vault, hash, vaultKey) <==> !Disturbs(c, w, e, user, vault, vaultKey)
  {
    match e
    case OnAccount(a) => AccountChannel(c, w, a, user, vault, hash, vaultKey);
    case OnTeam(t) => TeamStepFrame(c, w.db, t); TeamOpens(c, w, t, user, vault, hash, vaultKey);
    case OnVault(v) =>
      VaultStepFrame(c, w.db, v);
      if v.CreateVault? { NewVaultOpens(c, w, v, user, vault, hash, vaultKey); }
      else { VaultDeletionOpens(c, w, v, user, vault, hash, vaultKey); }
    case OnSecret(s) => SecretStepFrame(c, w.db, s); SecretKeepsOpens(c, w, s, user, vault, hash, vaultKey);
  }

  /** Granting the same vault key again, wrapped for the hash in memory, keeps the channel whatever happens to the
      writes. */
  lemma SameGrantKeepsChannel(c: Cipher, w: World, granter: Uuid, nonce: Nonce, writes: nat,
                              user: Uuid, vault: Uuid, hash: bytes, vaultKey: bytes)
    requires UniqueUsernames(w.db) && Channel(c, w, user, vault, hash, vaultKey)
    ensures Channel(c, Step(c, w, OnTeam(Grant(granter, vault, user, vaultKey, hash, nonce, writes))), user, vault,
                    hash,
                    vaultKey)
  {
    var e := OnTeam(Grant(granter, vault, user, vaultKey, hash, nonce, writes));
    WrapRoundTrip(c, vaultKey, hash, nonce);
    StepKeepsChannel(c, w, e, user, vault, hash, vaultKey);
  }

  lemma {:induction false} RunKeepsChannel(c: Cipher, w: World, es: seq<Event>, user: Uuid, vault: Uuid, hash: bytes,
                                           vaultKey: bytes)
    requires UniqueUsernames(w.db) && Channel(c, w, user, vault, hash, vaultKey)
    requires Undisturbed(c, w, es, user, vault, vaultKey)
    ensures UniqueUsernames(Run(c, w, es).db) && Channel(c, Run(c, w, es), user, vault, hash, vaultKey)
  {
    if es != [] {
      var k := |es| - 1;
      assert forall i :: 0 <= i <= k ==> es[..k][..i] == es[..i];
      RunKeepsChannel(c, w, es[..k], user, vault, hash, vaultKey);
      StepUniqueNames(c, Run(c, w, es[..k]), es[k]);
      StepKeepsChannel(c, Run(c, w, es[..k]), es[k], user, vault, hash, vaultKey);
    }
  }

  function Login(c: Cipher, w: World, user: Uuid, password: bytes): Result<Option<bytes>>
    requires user in w.db.users
  {
    A.DeriveKeyIfValid(c, w.auth, w.db.users[user].username, password)
  }

  /** The key that account creation hands out is the key the new user's password then logs in with. */
  lemma CreatedUserLogsIn(c: Cipher, w: World, actor: Uuid, username: string, password: bytes, role: UserRole,
                          id: Uuid, salt: Salt, writes: nat, key: bytes)
    requires Acc.CreateUser(c, w, actor, username, password, role, id, salt, writes).1 == Ok(key)
    ensures var w' := Acc.CreateUser(c, w, actor, username, password, role, id, salt, writes).0;
      id in w'.db.users && w'.db.users[id].username == Trim(username) && Login(c, w', id, password) == Ok(Some(key))
  {
    Acc.RegisterOutcome(c, w, Trim(username), password, role, id, salt, writes);
  }

  /** After a reset the new password logs in with the key the reset handed out. */
  lemma ResetPasswordLogsIn(c: Cipher, w: World, actor: Uuid, user: Uuid, password: bytes, salt: Salt, writes: nat,
                            key: bytes)
    requires Acc.ResetUserPassword(c, w, actor, user, password, salt, writes).1 == Ok(key)
    ensures var w' := Acc.ResetUserPassword(c, w, actor, user, password, salt, writes).0;
      user in w'.db.users && Login(c, w', user, password) == Ok(Some(key))
  {
  }

  /** After a change the new password logs in with its derived key, which the stored envelope holds as well. */
  lemma ChangedPasswordLogsIn(c: Cipher, w: World, user: Uuid, current: bytes, next: bytes, salt: Salt, writes: nat)
    requires Acc.ChangeMasterPassword(c, w, user, current, next, salt, writes).1.Ok?
    ensures var w' := Acc.ChangeMasterPassword(c, w, user, current, next, salt, writes).0;
      var key := c.kdf(next, salt).value;
      HoldsHash(w', user, key) && Login(c, w', user, next) == Ok(Some(key))
  {
    PE.DecodeEncode(PE.Credential(salt, c.kdf(next, salt).value));
  }

  /** A channel is what a login needs: any password that is accepted yields the key that opens the vault. */
  lemma ChannelLogin(c: Cipher, w: World, user: Uuid, vault: Uuid, hash: bytes, vaultKey: bytes, password: bytes,
                     key: bytes)
    requires Channel(c, w, user, vault, hash, vaultKey) && Login(c, w, user, password) == Ok(Some(key))
    ensures V.OpenVaultForUser(c, w.db, user, vault, key, 1) == Ok(vaultKey)
  {
    V.OpensExactly(c, w.db, user, vault, key, 1, vaultKey);
  }

  /** `member` does not own the vault, or is the sharer, or opens it to the same key already: a share to the owner is
      never used, as the owner's own envelope comes first. */
  ghost predicate SharesOwnKey(c: Cipher, w: World, q: T.ShareRequest, member: Uuid) {
    Owns(w.db, member, q.vault) && member != q.granter ==>
      && member in w.db.users && w.db.users[member].username in w.auth.credentials
      && Opens(c, w.db, member, q.vault, w.auth.credentials[w.db.users[member].username].hash, q.vaultKey)
  }

  /** Sharing a vault with its owner changes nothing about what the owner opens. */
  lemma OwnerUnaffected(c: Cipher, db: Db, q: T.ShareRequest, rows: seq<Uuid>, nonces: Uuid -> Nonce, writes: nat,
                        owner: Uuid, key: bytes)
    requires Owns(db, owner, q.vault)
    ensures V.OpenVaultForUser(c, T.ShareVaultWithTeam(c, db, q, rows, nonces, writes).0, owner, q.vault, key, 1) ==
      V.OpenVaultForUser(c, db, owner, q.vault, key, 1)
  {
    var after := T.ShareVaultWithTeam(c, db, q, rows, nonces, writes).0;
    assert after == db.(shares := after.shares);
  }

  /** A direct grant lets a recipient who does not own the vault open it, under the recipient's key, to exactly the
      granted key. */
  lemma GrantOpens(c: Cipher, db: Db, granter: Uuid, vault: Uuid, recipient: Uuid, vaultKey: bytes,
                   recipientKey: bytes, nonce: Nonce, writes: nat)
    requires T.GrantVaultAccess(c, db, granter, vault, recipient, vaultKey, recipientKey, nonce, writes).1.Ok?
    requires VaultLive(db, vault) && !Owns(db, recipient, vault)
    ensures var after := T.GrantVaultAccess(c, db, granter, vault, recipient, vaultKey, recipientKey, nonce, writes).0;
      V.OpenVaultForUser(c, after, recipient, vault, recipientKey, 1) == Ok(vaultKey)
  {
    var after := T.GrantVaultAccess(c, db, granter, vault, recipient, vaultKey, recipientKey, nonce, writes).0;
    WrapRoundTrip(c, vaultKey, recipientKey, nonce);
    V.OpensExactly(c, after, recipient, vault, recipientKey, 1, vaultKey);
  }

  /** The sharer logs in, opens the vault and shares its key with a team, supplying no keys; `member` is one the share
      can serve. */
  ghost predicate SharesOpenedVault(c: Cipher, w: World, q: T.ShareRequest, rows: seq<Uuid>, nonces: Uuid -> Nonce,
                                    writes: nat, password: bytes, key: bytes, member: Uuid) {
    && q.granter in w.db.users && Login(c, w, q.granter, password) == Ok(Some(key))
    && V.OpenVaultForUser(c, w.db, q.granter, q.vault, key, 1) == Ok(q.vaultKey) && q.supplied == []
    && T.ListsMembers(w.db, q.team, rows) && T.ShareVaultWithTeam(c, w.db, q, rows, nonces, writes).1.Ok?
    && member in rows && T.Resolvable(w.db, q, member) && SharesOwnKey(c, w, q, member)
  }

  ghost function AfterShare(c: Cipher, w: World, q: T.ShareRequest, rows: seq<Uuid>, nonces: Uuid -> Nonce,
                            writes: nat): World {
    w.(db := T.ShareVaultWithTeam(c, w.db, q, rows, nonces, writes).0)
  }

  /** With row and memory in agreement, the key a member resolves to is the hash in memory. */
  lemma ResolvedHash(w: World, q: T.ShareRequest, member: Uuid)
    requires Acc.AgreesFor(w, member) && q.supplied == [] && T.Resolvable(w.db, q, member)
    ensures member in w.db.users && w.db.users[member].username in w.auth.credentials
    ensures T.ResolveKey(w.db, q.supplied, member) == Some(HashInMemory(w, member))
    ensures HoldsHash(w, member, HashInMemory(w, member))
  {
    PE.DecodersAgree(w.db.users[member].envelope.value);
  }

  /** The sharer's own login key is the hash in memory, so an owner who shares opens to the shared key already. */
  lemma GranterOpens(c: Cipher, w: World, q: T.ShareRequest, password: bytes, key: bytes)
    requires q.granter in w.db.users && Login(c, w, q.granter, password) == Ok(Some(key))
    requires V.OpenVaultForUser(c, w.db, q.granter, q.vault, key, 1) == Ok(q.vaultKey)
    ensures w.db.users[q.granter].username in w.auth.credentials && VaultLive(w.db, q.vault)
    ensures Opens(c, w.db, q.granter, q.vault, HashInMemory(w, q.granter), q.vaultKey)
  {
    V.OpensExactly(c, w.db, q.granter, q.vault, key, 1, q.vaultKey);
  }

  /** Right after the share, every member it could serve has a channel to the key that was shared. */
  lemma ShareOpensChannels(c: Cipher, w: World, q: T.ShareRequest, rows: seq<Uuid>, nonces: Uuid -> Nonce, writes: nat,
                           actorPassword: bytes, actorKey: bytes, member: Uuid)
    requires UniqueUsernames(w.db) && Acc.AgreesFor(w, member)
    requires SharesOpenedVault(c, w, q, rows, nonces, writes, actorPassword, actorKey, member)
    ensures exists hash :: Channel(c, AfterShare(c, w, q, rows, nonces, writes), member, q.vault, hash, q.vaultKey)
  {
    var after := AfterShare(c, w, q, rows, nonces, writes);
    ResolvedHash(w, q, member);
    GranterOpens(c, w, q, actorPassword, actorKey);
    var hash := HashInMemory(w, member);
    assert after.db == w.db.(shares := after.db.shares);
    if !Owns(w.db, member, q.vault) {
      assert T.Granted(c, w.db, after.db, q, member) by { T.ShareMembersOutcome(c, w.db, q, rows, nonces, writes); }
    }
    assert Opens(c, after.db, member, q.vault, hash, q.vaultKey);
    assert Channel(c, after, member, q.vault, hash, q.vaultKey);
  }

  /** Main theorem. From any world, after any calls that left the member's own credential sound, a user logs in, opens a
      vault and shares it with a team without supplying keys. After any further calls that do not cut the served member
      off, every password this member can log in with yields a key that opens the vault to exactly the key the sharer
      held. */
  lemma TeamShareEndToEnd(c: Cipher, start: World, before: seq<Event>,
                          q: T.ShareRequest, rows: seq<Uuid>, nonces: Uuid -> Nonce, writes: nat,
                          actorPassword: bytes, actorKey: bytes, member: Uuid, after: seq<Event>,
                          password: bytes, key: bytes)
    requires UniqueUsernames(start.db) && Sound(c, start, before, member)
    requires SharesOpenedVault(c, Run(c, start, before), q, rows, nonces, writes, actorPassword, actorKey, member)
    requires var shared := AfterShare(c, Run(c, start, before), q, rows, nonces, writes);
      Undisturbed(c, shared, after, member, q.vault, q.vaultKey)
    ensures var final := Run(c, AfterShare(c, Run(c, start, before), q, rows, nonces, writes), after);
      && member in final.db.users
      && (Login(c, final, member, password) == Ok(Some(key)) ==>
            V.OpenVaultForUser(c, final.db, member, q.vault, key, 1) == Ok(q.vaultKey))
  {
    var w := Run(c, start, before);
    var shared := AfterShare(c, w, q, rows, nonces, writes);
    RunUniqueNames(c, start, before);
    RunAgreementExactly(c, start, before, member);
    ShareOpensChannels(c, w, q, rows, nonces, writes, actorPassword, actorKey, member);
    var hash :| Channel(c, shared, member, q.vault, hash, q.vaultKey);
    assert shared.db.users == w.db.users;
    RunKeepsChannel(c, shared, after, member, q.vault, hash, q.vaultKey);
    if Login(c, Run(c, shared, after), member, password) == Ok(Some(key)) {
      ChannelLogin(c, Run(c, shared, after), member, q.vault, hash, q.vaultKey, password, key);
    }
  }
}
