/** A first day of the application, from the empty database on: the premises of the main theorems are met on it, and
    each of the announced failures happens on it. */
module FirstDay {
  import opened Types
  import opened Text
  import opened Crypto
  import opened Store
  import opened Machine
  import Acc = Accounts
  import A = Auth
  import KA = KeyAgreement
  import PE = PasswordEnvelope
  import SH = ShareHistory
  import T = Teams
  import V = Vaults

  datatype Cast = Cast(
    ada: Uuid, adaName: string, adaPassword: bytes, adaSalt: Salt,
    bob: Uuid, bobName: string, bobPassword: bytes, bobSalt: Salt,
    vault: Uuid, vaultName: string, vaultKey: bytes, team: Uuid, teamName: string, nonce: Nonce)

  ghost predicate Proper(c: Cipher, k: Cast) {
    && k.ada != k.bob && k.adaName != k.bobName
    && k.adaName != [] && Trim(k.adaName) == k.adaName && k.bobName != [] && Trim(k.bobName) == k.bobName
    && Trim(k.vaultName) != [] && Trim(k.teamName) != []
    && c.utf8(k.adaPassword) && c.utf8(k.bobPassword)
  }

  function CredentialOf(c: Cipher, password: bytes, salt: Salt): PE.Credential {
    PE.Credential(salt, c.kdf(password, salt).value)
  }

  function AdaKey(c: Cipher, k: Cast): bytes { c.kdf(k.adaPassword, k.adaSalt).value }

  function AdaRow(c: Cipher, k: Cast): UserRow {
    UserRow(k.adaName, Admin, Some(PE.Encode(CredentialOf(c, k.adaPassword, k.adaSalt))))
  }

  function BobRow(c: Cipher, k: Cast): UserRow {
    UserRow(k.bobName, User, Some(PE.Encode(CredentialOf(c, k.bobPassword, k.bobSalt))))
  }

  // ---- the day, call by call ----

  const MIDNIGHT: World := Acc.World(EMPTY_DB, A.AuthState(map[], false))

  function Bootstrapped(c: Cipher, k: Cast): World {
    Acc.World(EMPTY_DB.(users := map[k.ada := AdaRow(c, k)]),
              A.AuthState(map[k.adaName := CredentialOf(c, k.adaPassword, k.adaSalt)], false))
  }

  function WithBob(c: Cipher, k: Cast): World {
    var w := Bootstrapped(c, k);
    Acc.World(w.db.(users := w.db.users[k.bob := BobRow(c, k)]),
              w.auth.(credentials := w.auth.credentials[k.bobName := CredentialOf(c, k.bobPassword, k.bobSalt)]))
  }

  function WithVault(c: Cipher, k: Cast): World {
    var w := WithBob(c, k);
    w.(db := w.db.(vaults := map[k.vault :=
      VaultRow(k.ada, k.vaultName, Some(Wrap(c, k.vaultKey, AdaKey(c, k), k.nonce).value), 2, None)]))
  }

  function WithTeam(c: Cipher, k: Cast): World {
    var w := WithVault(c, k);
    w.(db := w.db.(teams := map[k.team := k.teamName], members := map[(k.team, k.ada) := Leader]))
  }

  function WithMember(c: Cipher, k: Cast): World {
    var w := WithTeam(c, k);
    w.(db := w.db.(members := w.db.members[(k.team, k.bob) := Member]))
  }

  function Calls(c: Cipher, k: Cast): seq<Event> {
    [OnAccount(Acc.BootstrapEv(k.adaName, k.adaPassword, k.ada, k.adaSalt, 2)),
     OnAccount(Acc.CreateUserEv(k.ada, k.bobName, k.bobPassword, User, k.bob, k.bobSalt, 3)),
     OnVault(CreateVault(k.ada, k.vaultName, AdaKey(c, k), k.vault, k.vaultKey, k.nonce, 3)),
     OnTeam(CreateTeam(k.ada, k.team, k.teamName, 3)),
     OnTeam(AddMember(k.ada, k.team, k.bob, Member, 2))]
  }

  lemma Bootstrap(c: Cipher, k: Cast)
    requires Proper(c, k)
    ensures Step(c, MIDNIGHT, Calls(c, k)[0]) == Bootstrapped(c, k)
  {
  }

  /** A creation that meets no obstacle adds the row and the credential. */
  lemma CreatesUser(c: Cipher, w: World, actor: Uuid, name: string, password: bytes, role: UserRole, id: Uuid,
                    salt: Salt)
    requires Acc.IsAdmin(w.db, actor) && name != [] && Trim(name) == name && c.utf8(password) && !w.auth.shutdown
    requires name !in w.auth.credentials && !UsernameTaken(w.db, name) && id !in w.db.users
    ensures var record := CredentialOf(c, password, salt);
      Acc.CreateUser(c, w, actor, name, password, role, id, salt, 3).0 ==
        Acc.World(w.db.(users := w.db.users[id := UserRow(name, role, Some(PE.Encode(record)))]),
                  w.auth.(credentials := w.auth.credentials[name := record]))
  {
  }

  lemma CreateBob(c: Cipher, k: Cast)
    requires Proper(c, k)
    ensures Step(c, Bootstrapped(c, k), Calls(c, k)[1]) == WithBob(c, k)
  {
    CreatesUser(c, Bootstrapped(c, k), k.ada, k.bobName, k.bobPassword, User, k.bob, k.bobSalt);
  }

  lemma MakeVault(c: Cipher, k: Cast)
    requires Proper(c, k)
    ensures Step(c, WithBob(c, k), Calls(c, k)[2]) == WithVault(c, k)
  {
  }

  lemma MakeTeam(c: Cipher, k: Cast)
    requires Proper(c, k)
    ensures Step(c, WithVault(c, k), Calls(c, k)[3]) == WithTeam(c, k)
  {
  }

  lemma AddBob(c: Cipher, k: Cast)
    requires Proper(c, k)
    ensures Step(c, WithTeam(c, k), Calls(c, k)[4]) == WithMember(c, k)
  {
  }

  lemma RunMore(c: Cipher, w: World, es: seq<Event>, n: nat)
    requires n < |es|
    ensures Run(c, w, es[..n + 1]) == Step(c, Run(c, w, es[..n]), es[n])
  {
    assert es[..n + 1][..n] == es[..n];
  }

  /** The day reaches each of these worlds from the empty database. */
  lemma DayRuns(c: Cipher, k: Cast)
    requires Proper(c, k)
    ensures Run(c, MIDNIGHT, Calls(c, k)[..3]) == WithVault(c, k)
    ensures Run(c, MIDNIGHT, Calls(c, k)[..4]) == WithTeam(c, k)
    ensures Run(c, MIDNIGHT, Calls(c, k)) == WithMember(c, k)
  {
    var es := Calls(c, k);
    assert es[..5] == es;
    RunMore(c, MIDNIGHT, es, 0);
    RunMore(c, MIDNIGHT, es, 1);
    RunMore(c, MIDNIGHT, es, 2);
    RunMore(c, MIDNIGHT, es, 3);
    RunMore(c, MIDNIGHT, es, 4);
    Bootstrap(c, k);
    CreateBob(c, k);
    MakeVault(c, k);
    MakeTeam(c, k);
    AddBob(c, k);
  }

  // ---- the main theorem has instances ----

  function TheShare(k: Cast): T.ShareRequest {
    T.ShareRequest(k.ada, k.vault, k.team, k.vaultKey, [])
  }

  ghost predicate Servable(c: Cipher, db: Db, q: T.ShareRequest, user: Uuid) {
    user in db.users && T.Resolvable(db, q, user) && |T.ResolveKey(db, q.supplied, user).value| == AES_256_KEY_LEN
  }

  lemma ServeOne(c: Cipher, db: Db, q: T.ShareRequest, user: Uuid, nonce: Nonce, t: T.Tally, writes: nat)
    requires Servable(c, db, q, user) && q.team in db.teams && q.vault in db.vaults && t.granted < writes
    ensures T.ShareOne(c, db, q, user, nonce, t, writes).1 == Ok(t.(granted := t.granted + 1))
  {
  }

  lemma ServeTwo(c: Cipher, db: Db, q: T.ShareRequest, a: Uuid, b: Uuid, nonces: Uuid -> Nonce)
    requires Servable(c, db, q, a) && Servable(c, db, q, b) && q.team in db.teams && q.vault in db.vaults
    ensures T.ShareVaultWithTeam(c, db, q, [a, b], nonces, 3).1 == Ok(T.Tally(2, 0))
  {
    var rows := [a, b];
    assert rows[..1] == [a] && [a][..0] == [];
    var mid := T.ShareOne(c, db, q, a, nonces(a), T.Tally(0, 0), 3).0;
    ServeOne(c, db, q, a, nonces(a), T.Tally(0, 0), 3);
    assert T.ShareMembers(c, db, q, [a], nonces, 3) == (mid, Ok(T.Tally(1, 0)));
    assert T.ResolveKey(mid, q.supplied, b) == T.ResolveKey(db, q.supplied, b);
    ServeOne(c, mid, q, b, nonces(b), T.Tally(1, 0), 3);
  }

  /** A user whose row and memory hold the credential made from a password resolves to its hash. */
  lemma CredentialServes(c: Cipher, db: Db, q: T.ShareRequest, user: Uuid, password: bytes, salt: Salt)
    requires user in db.users && db.users[user].envelope == Some(PE.Encode(CredentialOf(c, password, salt)))
      && q.supplied == []
    ensures Servable(c, db, q, user) && T.ResolveKey(db, q.supplied, user) == Some(c.kdf(password, salt).value)
  {
    PE.DecodeEncode(CredentialOf(c, password, salt));
  }

  lemma AdaOpens(c: Cipher, k: Cast)
    requires Proper(c, k)
    ensures var w := WithMember(c, k);
      && KA.Login(c, w, k.ada, k.adaPassword) == Ok(Some(AdaKey(c, k)))
      && V.OpenVaultForUser(c, w.db, k.ada, k.vault, AdaKey(c, k), 1) == Ok(k.vaultKey)
  {
    var w := WithMember(c, k);
    WrapRoundTrip(c, k.vaultKey, AdaKey(c, k), k.nonce);
    V.OpensExactly(c, w.db, k.ada, k.vault, AdaKey(c, k), 1, k.vaultKey);
  }

  lemma TeamListed(c: Cipher, k: Cast)
    requires Proper(c, k)
    ensures T.ListsMembers(WithMember(c, k).db, k.team, [k.ada, k.bob])
  {
  }

  lemma BothServed(c: Cipher, k: Cast, nonces: Uuid -> Nonce)
    requires Proper(c, k)
    ensures T.ShareVaultWithTeam(c, WithMember(c, k).db, TheShare(k), [k.ada, k.bob], nonces, 3).1 == Ok(T.Tally(2, 0))
    ensures T.Resolvable(WithMember(c, k).db, TheShare(k), k.bob)
  {
    var db := WithMember(c, k).db;
    CredentialServes(c, db, TheShare(k), k.ada, k.adaPassword, k.adaSalt);
    CredentialServes(c, db, TheShare(k), k.bob, k.bobPassword, k.bobSalt);
    ServeTwo(c, db, TheShare(k), k.ada, k.bob, nonces);
  }

  lemma DayIsSound(c: Cipher, k: Cast)
    requires Proper(c, k)
    ensures UniqueUsernames(MIDNIGHT.db) && Sound(c, MIDNIGHT, Calls(c, k), k.bob)
  {
    DayRuns(c, k);
    PE.DecodeEncode(CredentialOf(c, k.bobPassword, k.bobSalt));
    RunAgreementExactly(c, MIDNIGHT, Calls(c, k), k.bob);
  }

  /** The day meets every premise of the end-to-end theorem, with different passwords and salts. */
  lemma PremisesMet(c: Cipher, k: Cast, nonces: Uuid -> Nonce)
    requires Proper(c, k)
    ensures UniqueUsernames(MIDNIGHT.db) && Sound(c, MIDNIGHT, Calls(c, k), k.bob)
    ensures KA.SharesOpenedVault(c, Run(c, MIDNIGHT, Calls(c, k)), TheShare(k), [k.ada, k.bob], nonces, 3,
                                 k.adaPassword, AdaKey(c, k), k.bob)
    ensures var shared := KA.AfterShare(c, Run(c, MIDNIGHT, Calls(c, k)), TheShare(k), [k.ada, k.bob], nonces, 3);
      KA.Undisturbed(c, shared, [], k.bob, k.vault, k.vaultKey)
  {
    DayIsSound(c, k);
    DayRuns(c, k);
    AdaOpens(c, k);
    TeamListed(c, k);
    BothServed(c, k, nonces);
  }

  lemma BobLogsIn(c: Cipher, k: Cast, nonces: Uuid -> Nonce)
    requires Proper(c, k)
    ensures var shared := KA.AfterShare(c, Run(c, MIDNIGHT, Calls(c, k)), TheShare(k), [k.ada, k.bob], nonces, 3);
      k.bob in shared.db.users && KA.Login(c, shared, k.bob, k.bobPassword) ==
        Ok(Some(c.kdf(k.bobPassword, k.bobSalt).value))
  {
    DayRuns(c, k);
  }

  /** And so, on the first day, bob logs in with his own password and opens ada's vault to its key. */
  lemma BobOpens(c: Cipher, k: Cast, nonces: Uuid -> Nonce)
    requires Proper(c, k)
    ensures var shared := KA.AfterShare(c, Run(c, MIDNIGHT, Calls(c, k)), TheShare(k), [k.ada, k.bob], nonces, 3);
      var key := c.kdf(k.bobPassword, k.bobSalt).value;
      && k.bob in shared.db.users && KA.Login(c, shared, k.bob, k.bobPassword) == Ok(Some(key))
      && V.OpenVaultForUser(c, shared.db, k.bob, k.vault, key, 1) == Ok(k.vaultKey)
  {
    var key := c.kdf(k.bobPassword, k.bobSalt).value;
    PremisesMet(c, k, nonces);
    BobLogsIn(c, k, nonces);
    KA.TeamShareEndToEnd(c, MIDNIGHT, Calls(c, k), TheShare(k), [k.ada, k.bob], nonces, 3, k.adaPassword, AdaKey(c, k),
                         k.bob, [], k.bobPassword, key);
  }

  // ---- the announced failures happen ----

  lemma LostResetIn(c: Cipher, k: Cast, w: World, e: Acc.Event)
    requires Proper(c, k) && w == WithMember(c, k) && e.ResetPasswordEv? && e.actor == k.ada && e.target == k.bob
      && e.writes == 0
    requires c.utf8(e.password) && e.salt != k.bobSalt
    ensures Acc.Breaks(c, w, e, k.bob)
  {
    PE.DecodeEncode(CredentialOf(c, k.bobPassword, k.bobSalt));
    assert Acc.Replacement(c, w, e, k.bob) == Some(CredentialOf(c, e.password, e.salt));
  }

  /** A reset with a fresh salt whose row write is lost leaves bob's row and memory apart. */
  lemma LostReset(c: Cipher, k: Cast, e: Acc.Event)
    requires Proper(c, k) && e.ResetPasswordEv? && e.actor == k.ada && e.target == k.bob && e.writes == 0
    requires c.utf8(e.password) && e.salt != k.bobSalt
    ensures var w := Run(c, MIDNIGHT, Calls(c, k));
      && k.bob in w.db.users && Acc.Breaks(c, w, e, k.bob) && Tears(c, w, OnAccount(e))
      && !Acc.AgreesFor(Step(c, w, OnAccount(e)), k.bob)
  {
    var w := Run(c, MIDNIGHT, Calls(c, k));
    assert k.bob in w.db.users && Acc.Breaks(c, w, e, k.bob) by {
      DayRuns(c, k);
      LostResetIn(c, k, WithMember(c, k), e);
    }
    RunUniqueNames(c, MIDNIGHT, Calls(c, k));
    Acc.StepAgreementFor(c, w, e, k.bob);
  }

  lemma BobHoldsShare(c: Cipher, k: Cast, nonces: Uuid -> Nonce)
    requires Proper(c, k)
    ensures var db := WithMember(c, k).db;
      var after := T.ShareVaultWithTeam(c, db, TheShare(k), [k.ada, k.bob], nonces, 3).0;
      && after == db.(shares := after.shares)
      && (k.vault, k.bob) in after.shares && after.shares[(k.vault, k.bob)].viaTeam == Some(k.team)
  {
    BothServed(c, k, nonces);
    SecondServed(c, WithMember(c, k).db, TheShare(k), k.ada, k.bob, nonces);
  }

  lemma SecondServed(c: Cipher, db: Db, q: T.ShareRequest, a: Uuid, b: Uuid, nonces: Uuid -> Nonce)
    requires a != b && T.Resolvable(db, q, b) && T.ShareVaultWithTeam(c, db, q, [a, b], nonces, 3).1.Ok?
    ensures var after := T.ShareVaultWithTeam(c, db, q, [a, b], nonces, 3).0;
      && after == db.(shares := after.shares)
      && (q.vault, b) in after.shares && after.shares[(q.vault, b)].viaTeam == Some(q.team)
  {
    T.ShareMembersOutcome(c, db, q, [a, b], nonces, 3);
    assert [a, b][1] == b;
    assert T.Granted(c, db, T.ShareVaultWithTeam(c, db, q, [a, b], nonces, 3).0, q, b);
  }

  lemma CutRemovalIn(db: Db, k: Cast, e: TeamEvent)
    requires k.ada in db.users && db.users[k.ada].role == Admin && (k.team, k.bob) in db.members
    requires (k.vault, k.bob) in db.shares && db.shares[(k.vault, k.bob)].viaTeam == Some(k.team)
    requires e == RemoveMember(k.ada, k.team, k.bob, 1)
    ensures SH.TornRemoval(db, e)
  {
    assert SH.HasShareVia(db, k.bob, k.team);
  }

  /** A removal cut between its writes, right after the share: bob is out of the team and still holds the vault key. */
  lemma CutRemoval(c: Cipher, k: Cast, nonces: Uuid -> Nonce)
    requires Proper(c, k)
    ensures var shared := KA.AfterShare(c, Run(c, MIDNIGHT, Calls(c, k)), TheShare(k), [k.ada, k.bob], nonces, 3);
      && SH.TornRemoval(shared.db, RemoveMember(k.ada, k.team, k.bob, 1))
      && VaultLive(shared.db, k.vault) && shared.db.vaults[k.vault].owner != k.bob
      && (k.vault, k.bob) in shared.db.shares && shared.db.shares[(k.vault, k.bob)].viaTeam == Some(k.team)
  {
    DayRuns(c, k);
    BobHoldsShare(c, k, nonces);
    CutRemovalIn(T.ShareVaultWithTeam(c, WithMember(c, k).db, TheShare(k), [k.ada, k.bob], nonces, 3).0, k,
                 RemoveMember(k.ada, k.team, k.bob, 1));
  }

  lemma OutsiderRotationIn(c: Cipher, k: Cast, db: Db, e: TeamEvent)
    requires Proper(c, k) && db == WithTeam(c, k).db && e.Rotate? && e.vault == k.vault && e.writes >= 1
    requires |e.entries| == 1 && e.entries[0].user == k.bob && e.entries[0].viaTeam == Some(k.team)
    ensures SH.ForeignRotation(db, e) && SH.TeamSharesHeldByMembers(db)
  {
    assert (e.entries[0].viaTeam.value, e.entries[0].user) !in db.members;
    assert T.Insertable(db, k.vault, e.entries);
  }

  /** A rotation, before bob joins the team, that lists his share as coming through it. */
  lemma OutsiderRotation(c: Cipher, k: Cast, e: TeamEvent)
    requires Proper(c, k) && e.Rotate? && e.vault == k.vault && e.writes >= 1
    requires |e.entries| == 1 && e.entries[0].user == k.bob && e.entries[0].viaTeam == Some(k.team)
    ensures var w := Run(c, MIDNIGHT, Calls(c, k)[..4]);
      && SH.ForeignRotation(w.db, e) && SH.TeamSharesHeldByMembers(w.db)
      && !SH.TeamSharesHeldByMembers(Step(c, w, OnTeam(e)).db)
  {
    DayRuns(c, k);
    OutsiderRotationIn(c, k, WithTeam(c, k).db, e);
    SH.StepMembership(c, Run(c, MIDNIGHT, Calls(c, k)[..4]), OnTeam(e));
  }

  lemma CreatesIn(c: Cipher, db: Db, e: SecretEvent)
    requires e.CreateSecret? && e.id !in db.secrets && e.vault in db.vaults && !VaultLive(db, e.vault)
    requires e.text != [] && |e.vaultKey| == AES_256_KEY_LEN && e.writes >= 1
    ensures CreatesInDeletedVault(c, db, OnSecret(e))
  {
  }

  lemma AdaMayDelete(c: Cipher, k: Cast)
    requires Proper(c, k)
    ensures V.MayDelete(WithVault(c, k).db, k.ada, k.vault) && WithVault(c, k).db.secrets == map[]
  {
  }

  lemma DeletionLeaves(c: Cipher, w: World, requester: Uuid, vault: Uuid, now: int)
    requires V.MayDelete(w.db, requester, vault) && w.db.secrets == map[]
    ensures var db := Step(c, w, OnVault(DeleteVault(requester, vault, now, 1))).db;
      db.secrets == map[] && vault in db.vaults && !VaultLive(db, vault) && NoOrphans(db)
  {
    V.DeletesExactly(c, w.db, requester, vault, now, 1, requester, []);
  }

  lemma AfterDeletion(c: Cipher, k: Cast, now: int)
    requires Proper(c, k)
    ensures var db := Step(c, Run(c, MIDNIGHT, Calls(c, k)[..3]), OnVault(DeleteVault(k.ada, k.vault, now, 1))).db;
      db.secrets == map[] && k.vault in db.vaults && !VaultLive(db, k.vault) && NoOrphans(db)
  {
    DayRuns(c, k);
    AdaMayDelete(c, k);
    DeletionLeaves(c, Run(c, MIDNIGHT, Calls(c, k)[..3]), k.ada, k.vault, now);
  }

  /** A secret created in a vault that was deleted: it is live, and its vault is not. */
  lemma SecretInDeletedVault(c: Cipher, k: Cast, e: SecretEvent, now: int)
    requires Proper(c, k) && e.CreateSecret? && e.vault == k.vault
    requires e.text != [] && |e.vaultKey| == AES_256_KEY_LEN && e.writes >= 1
    ensures var deleted := Step(c, Run(c, MIDNIGHT, Calls(c, k)[..3]), OnVault(DeleteVault(k.ada, k.vault, now, 1)));
      && NoOrphans(deleted.db) && CreatesInDeletedVault(c, deleted.db, OnSecret(e))
      && !NoOrphans(Step(c, deleted, OnSecret(e)).db)
  {
    var deleted := Step(c, Run(c, MIDNIGHT, Calls(c, k)[..3]), OnVault(DeleteVault(k.ada, k.vault, now, 1)));
    AfterDeletion(c, k, now);
    CreatesIn(c, deleted.db, e);
    StepOrphans(c, deleted, OnSecret(e));
  }

  // ---- an initialization cut short ----

  /** Bootstrap loses its second write, so that ada's row has no envelope; in the same process she creates bob. */
  function HalfDay(c: Cipher, k: Cast): seq<Event> {
    [OnAccount(Acc.BootstrapEv(k.adaName, k.adaPassword, k.ada, k.adaSalt, 1)), Calls(c, k)[1]]
  }

  function HalfRow(c: Cipher, k: Cast): UserRow { AdaRow(c, k).(envelope := None) }

  function HalfBootstrapped(c: Cipher, k: Cast): World {
    Acc.World(EMPTY_DB.(users := map[k.ada := HalfRow(c, k), k.bob := BobRow(c, k)]), WithBob(c, k).auth)
  }

  lemma HalfBootstrap(c: Cipher, k: Cast)
    requires Proper(c, k)
    ensures Step(c, MIDNIGHT, HalfDay(c, k)[0]) == Acc.World(EMPTY_DB.(users := map[k.ada := HalfRow(c, k)]),
                                                             Bootstrapped(c, k).auth)
  {
  }

  lemma HalfCreateBob(c: Cipher, k: Cast)
    requires Proper(c, k)
    ensures Step(c, Acc.World(EMPTY_DB.(users := map[k.ada := HalfRow(c, k)]), Bootstrapped(c, k).auth),
                 HalfDay(c, k)[1]) ==
      HalfBootstrapped(c, k)
  {
    var w := Acc.World(EMPTY_DB.(users := map[k.ada := HalfRow(c, k)]), Bootstrapped(c, k).auth);
    CreatesUser(c, w, k.ada, k.bobName, k.bobPassword, User, k.bob, k.bobSalt);
  }

  lemma HalfDayRuns(c: Cipher, k: Cast)
    requires Proper(c, k)
    ensures Run(c, MIDNIGHT, HalfDay(c, k)) == HalfBootstrapped(c, k)
  {
    HalfBootstrap(c, k);
    HalfCreateBob(c, k);
    RunOfTwo(c, MIDNIGHT, HalfDay(c, k)[0], HalfDay(c, k)[1]);
  }

  lemma RunOfTwo(c: Cipher, w: World, e: Event, e': Event)
    ensures Run(c, w, [e, e']) == Step(c, Step(c, w, e), e')
  {
    var es := [e, e'];
    assert es[..|es| - 1] == [e] && [e][..0] == [];
    assert Run(c, w, [e]) == Step(c, w, e);
  }

  /** What can be done without logging in: starting the application and attempting the bootstrap. */
  predicate StartOrBootstrap(e: Event) {
    e.OnAccount? && (e.a.RestartEv? || e.a.BootstrapEv?)
  }

  /** The half-initialized tables, with no credential in memory. */
  function LockedOut(c: Cipher, k: Cast): World {
    Acc.World(HalfBootstrapped(c, k).db, A.AuthState(map[], false))
  }

  /** A start finds ada's row without an envelope and loads nobody, not even bob; a bootstrap is refused. */
  lemma StaysLockedOut(c: Cipher, k: Cast, w: World, e: Event)
    requires Proper(c, k) && w.db == HalfBootstrapped(c, k).db && StartOrBootstrap(e) && Possible(w.db, e)
    requires e.a.RestartEv? || w == LockedOut(c, k)
    ensures Step(c, w, e) == LockedOut(c, k)
  {
    if e.a.RestartEv? {
      assert k.ada in Acc.AdminIds(w.db);
      assert e.a.first == Some(k.ada);
    } else {
      assert k.ada in w.db.users;
    }
  }

  lemma {:induction false} RunStaysLockedOut(c: Cipher, k: Cast, es: seq<Event>)
    requires Proper(c, k) && es != [] && es[0].OnAccount? && es[0].a.RestartEv?
    requires forall i :: 0 <= i < |es| ==> StartOrBootstrap(es[i])
    requires PossibleRun(c, HalfBootstrapped(c, k), es)
    ensures Run(c, HalfBootstrapped(c, k), es) == LockedOut(c, k)
  {
    var n := |es| - 1;
    PrefixRun(c, HalfBootstrapped(c, k), es, n);
    if n > 0 { RunStaysLockedOut(c, k, es[..n]); }
    StaysLockedOut(c, k, Run(c, HalfBootstrapped(c, k), es[..n]), es[n]);
  }

  /** From the first start after it on, through any further starts and bootstrap attempts: no password logs anyone in,
      and every further bootstrap is refused as a conflict. */
  lemma HalfBootstrapLocksOut(c: Cipher, k: Cast, es: seq<Event>, user: Uuid, password: bytes,
                              name: string, id: Uuid, salt: Salt, writes: nat)
    requires Proper(c, k) && es != [] && es[0].OnAccount? && es[0].a.RestartEv?
    requires forall i :: 0 <= i < |es| ==> StartOrBootstrap(es[i])
    requires PossibleRun(c, Run(c, MIDNIGHT, HalfDay(c, k)), es)
    ensures var w := Run(c, Run(c, MIDNIGHT, HalfDay(c, k)), es);
      && k.ada in w.db.users && k.bob in w.db.users && w.auth.credentials == map[] && !Acc.Agree(w)
      && Acc.BootstrapFirstAdmin(c, w, name, password, id, salt, writes) == (w, Err(Conflict))
      && (user in w.db.users ==> KA.Login(c, w, user, password) in {Err(Validation), Ok(None)})
  {
    HalfDayRuns(c, k);
    RunStaysLockedOut(c, k, es);
    LockedOutFacts(c, k, user, password, name, id, salt, writes);
  }

  lemma LockedOutFacts(c: Cipher, k: Cast, user: Uuid, password: bytes, name: string, id: Uuid, salt: Salt, writes: nat)
    requires Proper(c, k)
    ensures var w := LockedOut(c, k);
      && k.ada in w.db.users && k.bob in w.db.users && !Acc.Agree(w)
      && Acc.BootstrapFirstAdmin(c, w, name, password, id, salt, writes) == (w, Err(Conflict))
      && (user in w.db.users ==> KA.Login(c, w, user, password) in {Err(Validation), Ok(None)})
  {
    var w := LockedOut(c, k);
    assert k.ada in w.db.users && k.bob in w.db.users;
    assert w.db.users[k.bob].envelope.Some? && !Acc.AgreesFor(w, k.bob);
  }

  /** And such a run exists: a start whose query answers truthfully. */
  lemma HalfBootstrapCanStart(c: Cipher, k: Cast)
    requires Proper(c, k)
    ensures PossibleRun(c, Run(c, MIDNIGHT, HalfDay(c, k)), [OnAccount(Acc.RestartEv(Some(k.ada)))])
  {
    HalfDayRuns(c, k);
    SinglePossible(c, HalfBootstrapped(c, k), OnAccount(Acc.RestartEv(Some(k.ada))));
  }

  lemma SinglePossible(c: Cipher, w: World, e: Event)
    requires Possible(w.db, e)
    ensures PossibleRun(c, w, [e])
  {
    assert [e][..0] == [];
  }
}
