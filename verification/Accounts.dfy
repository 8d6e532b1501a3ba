/** User accounts: the admin and user services over the user table and the in-memory credentials.
    `writes` is the number of storage writes that succeed before the storage starts to fail. */
module Accounts {
  import opened Types
  import opened Text
  import opened Crypto
  import opened Store
  import PE = PasswordEnvelope
  import AC = AccessControl
  import A = Auth

  datatype World = World(db: Db, auth: A.AuthState)

  predicate IsAdmin(db: Db, user: Uuid) {
    user in db.users && db.users[user].role == Admin
  }

  function RequireAdmin(db: Db, actor: Uuid): Result<()> {
    if actor !in db.users then Err(NotFound)
    else if !AC.Permits(db.users[actor].role, AC.AdminManageUsers, AC.Global) then Err(Denied)
    else Ok(())
  }

  function AdminIds(db: Db): set<Uuid> {
    set u | u in db.users && db.users[u].role == Admin
  }

  /** Only the user table differs, and no user already there lost its row, name or role. */
  ghost predicate KeepsUsers(before: Db, after: Db) {
    && after == before.(users := after.users)
    && before.users.Keys <= after.users.Keys
    && (forall u :: u in before.users ==>
          after.users[u].username == before.users[u].username && after.users[u].role == before.users[u].role)
  }

  /** Nothing differs but the stored envelope of `user` and the credential held under that user's name. */
  ghost predicate TouchesOneAccount(w: World, w': World, user: Uuid) {
    && w'.db == w.db.(users := w'.db.users) && w'.db.users.Keys == w.db.users.Keys
    && (user !in w.db.users ==> w' == w)
    && (user in w.db.users ==>
          && w'.db.users == w.db.users[user := w.db.users[user].(envelope := w'.db.users[user].envelope)]
          && forall name :: name != w.db.users[user].username ==>
               && (name in w'.auth.credentials <==> name in w.auth.credentials)
               && (name in w.auth.credentials ==> w'.auth.credentials[name] == w.auth.credentials[name]))
  }

  /** Credential registration, row insertion and envelope storage, as creation and bootstrap share them. */
  ghost function Register(c: Cipher, w: World, name: string, password: bytes, role: UserRole, id: Uuid, salt: Salt,
                          writes: nat)
    : (r: (World, Result<bytes>))
    ensures KeepsUsers(w.db, r.0.db)
  {
    var (auth, created) := A.CreateUser(c, w.auth, name, password, salt);
    if created.Err? then (World(w.db, auth), Err(created.error))
    else match A.DeriveKeyIfValid(c, auth, name, password)
      case Err(e) => (World(w.db, auth), Err(e))
      case Ok(None) => (World(w.db, auth), Err(Internal))
      case Ok(Some(masterKey)) =>
        match A.GetEnvelope(auth, name)
        case Err(e) => (World(w.db, auth), Err(e))
        case Ok(envelope) =>
          if writes < 1 || id in w.db.users || UsernameTaken(w.db, name) then (World(w.db, auth), Err(Database))
          else
            var inserted := w.db.(users := w.db.users[id := UserRow(name, role, None)]);
            if writes < 2 then (World(inserted, auth), Err(Database))
            else (World(w.db.(users := w.db.users[id := UserRow(name, role, Some(envelope))]), auth), Ok(masterKey))
  }

  ghost function CreateUser(c: Cipher, w: World, actor: Uuid, username: string, password: bytes, role: UserRole,
                            id: Uuid, salt: Salt, writes: nat): (r: (World, Result<bytes>))
    ensures KeepsUsers(w.db, r.0.db)
  {
    match RequireAdmin(w.db, actor)
    case Err(e) => (w, Err(e))
    case Ok(_) =>
      if Trim(username) == [] then (w, Err(Validation))
      else
        var (w', r) := Register(c, w, Trim(username), password, role, id, salt, writes);
        if r.Ok? && writes < 3 then (w', Err(Database)) else (w', r)
  }

  ghost function BootstrapFirstAdmin(c: Cipher, w: World, username: string, password: bytes, id: Uuid, salt: Salt,
                                     writes: nat)
    : (r: (World, Result<bytes>))
    ensures KeepsUsers(w.db, r.0.db)
  {
    if w.db.users != map[] then (w, Err(Conflict))
    else if Trim(username) == [] then (w, Err(Validation))
    else Register(c, w, Trim(username), password, Admin, id, salt, writes)
  }

  function DeleteUser(w: World, actor: Uuid, target: Uuid, writes: nat): (World, Result<()>) {
    match RequireAdmin(w.db, actor)
    case Err(e) => (w, Err(e))
    case Ok(_) =>
      if target !in w.db.users then (w, Err(NotFound))
      else if w.db.users[target].role == Admin && |AdminIds(w.db)| <= 1 then (w, Err(Validation))
      else if writes < 1 then (w, Err(Database))
      else (w.(db := PurgeUser(w.db, target)), if writes < 2 then Err(Database) else Ok(()))
  }

  /** Exactly when a deletion takes effect. */
  predicate Deletes(w: World, actor: Uuid, target: Uuid, writes: nat) {
    && IsAdmin(w.db, actor) && target in w.db.users && writes >= 1
    && (w.db.users[target].role == Admin ==> |AdminIds(w.db)| > 1)
  }

  lemma DeletesExactly(w: World, actor: Uuid, target: Uuid, writes: nat)
    ensures DeleteUser(w, actor, target, writes).0 ==
      if Deletes(w, actor, target, writes) then w.(db := PurgeUser(w.db, target)) else w
    ensures DeleteUser(w, actor, target, writes).1.Ok? <==> Deletes(w, actor, target, writes) && writes >= 2
  {
  }

  function UpdateUserRole(w: World, actor: Uuid, target: Uuid, role: UserRole, writes: nat): (World, Result<()>) {
    match RequireAdmin(w.db, actor)
    case Err(e) => (w, Err(e))
    case Ok(_) =>
      if target !in w.db.users then (w, Err(NotFound))
      else if w.db.users[target].role == Admin && role == User && |AdminIds(w.db)| <= 1 then (w, Err(Validation))
      else if writes < 1 then (w, Err(Database))
      else (w.(db := w.db.(users := w.db.users[target := w.db.users[target].(role := role)])),
            if writes < 2 then Err(Database) else Ok(()))
  }

  /** A role change takes effect exactly if an administrator makes it and it does not demote the last one; the user then
      has the requested role, and every other row and all else is as it was. */
  lemma RoleExactly(w: World, actor: Uuid, target: Uuid, role: UserRole, writes: nat)
    ensures var (after, r) := UpdateUserRole(w, actor, target, role, writes);
      var done := IsAdmin(w.db, actor) && target in w.db.users && writes >= 1
        && (IsAdmin(w.db, target) && role == User ==> exists other :: other != target && IsAdmin(w.db, other));
      && (r.Ok? <==> done && writes >= 2)
      && (!done ==> after == w)
      && (done ==>
            && after == w.(db := w.db.(users := after.db.users)) && after.db.users.Keys == w.db.users.Keys
            && after.db.users[target].role == role
            && after.db.users[target].(role := w.db.users[target].role) == w.db.users[target]
            && forall u :: u in w.db.users && u != target ==> after.db.users[u] == w.db.users[u])
  {
    if IsAdmin(w.db, target) { SoleAdmin(w.db, target); }
  }

  /** An administrator is the last one exactly if there is at most one. */
  lemma SoleAdmin(db: Db, admin: Uuid)
    requires IsAdmin(db, admin)
    ensures |AdminIds(db)| <= 1 <==> forall other :: IsAdmin(db, other) ==> other == admin
  {
    assert admin in AdminIds(db);
    var others := AdminIds(db) - {admin};
    assert AdminIds(db) == others + {admin};
    if other :| IsAdmin(db, other) && other != admin {
      assert other in others;
    } else {
      forall u | u in others ensures false { assert IsAdmin(db, u) && u != admin; }
      assert others == {};
    }
  }

  function StoreEnvelope(db: Db, user: Uuid, envelope: bytes): Db
    requires user in db.users
  {
    db.(users := db.users[user := db.users[user].(envelope := Some(envelope))])
  }

  /** The new envelope is built by a throw-away credential service, imported, then flushed to the row. */
  function ResetUserPassword(c: Cipher, w: World, actor: Uuid, target: Uuid, password: bytes, salt: Salt, writes: nat)
    : (r: (World, Result<bytes>))
    ensures TouchesOneAccount(w, r.0, target)
  {
    match RequireAdmin(w.db, actor)
    case Err(e) => (w, Err(e))
    case Ok(_) =>
      if target !in w.db.users then (w, Err(NotFound))
      else
        var name := w.db.users[target].username;
        var (scratch, made) := A.CreateUser(c, A.AuthState(map[], false), name, password, salt);
        if made.Err? then (w, Err(made.error))
        else
          var (auth, imported) := A.UpsertEnvelope(w.auth, name, PE.Encode(scratch.credentials[name]));
          if imported.Err? then (w, Err(imported.error))
          else if writes < 1 then (World(w.db, auth), Err(Database))
          else
            var w' := World(StoreEnvelope(w.db, target, PE.Encode(auth.credentials[name])), auth);
            match A.DeriveKeyIfValid(c, auth, name, password)
            case Err(e) => (w', Err(e))
            case Ok(None) => (w', Err(Internal))
            case Ok(Some(masterKey)) => (w', if writes < 2 then Err(Database) else Ok(masterKey))
  }

  const MIN_MASTER_PASSWORD_LEN := 10

  function ChangeMasterPassword(c: Cipher, w: World, user: Uuid, current: bytes, next: bytes, salt: Salt, writes: nat)
    : (r: (World, Result<()>))
    ensures TouchesOneAccount(w, r.0, user)
  {
    if user !in w.db.users then (w, Err(NotFound))
    else if |next| < MIN_MASTER_PASSWORD_LEN then (w, Err(Validation))
    else
      var name := w.db.users[user].username;
      var (auth, changed) := A.ChangePassword(c, w.auth, name, current, next, salt);
      if changed.Err? then (World(w.db, auth), changed)
      else if writes < 1 then (World(w.db, auth), Err(Database))
      else (World(StoreEnvelope(w.db, user, PE.Encode(auth.credentials[name])), auth), Ok(()))
  }

  // ---- start-up ----

  predicate Loadable(row: UserRow) {
    row.envelope.Some? ==> Trim(row.username) != [] && PE.Decode(row.envelope.value).Ok?
  }

  ghost predicate HasEnvelopeFor(db: Db, id: Uuid, name: string) {
    id in db.users && db.users[id].username == name && db.users[id].envelope.Some?
  }

  /** The credentials a fresh process holds after loading every stored envelope. */
  ghost function LoadedCredentials(db: Db): map<string, PE.Credential>
    requires forall u :: u in db.users ==> Loadable(db.users[u])
  {
    var names := set u | u in db.users && HasEnvelopeFor(db, u, db.users[u].username) :: db.users[u].username;
    map name | name in names ::
      assert exists id :: HasEnvelopeFor(db, id, name);
      var id :| HasEnvelopeFor(db, id, name);
      assert Loadable(db.users[id]);
      PE.Decode(db.users[id].envelope.value).value
  }

  lemma LoadedNames(db: Db, name: string)
    requires forall v :: v in db.users ==> Loadable(db.users[v])
    ensures name in LoadedCredentials(db) <==> exists id :: HasEnvelopeFor(db, id, name)
  {
  }

  /** What is loaded under a name is the one envelope stored for it. */
  lemma LoadedFor(db: Db, name: string, u: Uuid)
    requires UniqueUsernames(db) && forall v :: v in db.users ==> Loadable(db.users[v])
    ensures name in LoadedCredentials(db) <==> exists id :: HasEnvelopeFor(db, id, name)
    ensures HasEnvelopeFor(db, u, name) ==>
      name in LoadedCredentials(db) && PE.Decode(db.users[u].envelope.value) == Ok(LoadedCredentials(db)[name])
  {
    LoadedNames(db, name);
    if HasEnvelopeFor(db, u, name) { assert Loadable(db.users[u]); }
  }

  datatype StartUp = Ready | NeedsBootstrap

  /** What the query for the first administrator row can answer: some administrator, or nothing if there is none. */
  ghost predicate AnswersFirstAdmin(db: Db, first: Option<Uuid>) {
    match first
    case None => AdminIds(db) == {}
    case Some(u) => IsAdmin(db, u)
  }

  /** The envelopes are loaded only if the first administrator row has one. */
  predicate LoadsEnvelopes(db: Db, first: Option<Uuid>) {
    first.Some? && first.value in db.users && db.users[first.value].envelope.Some?
  }

  /** Starting the process anew, given the first administrator row. Without an envelope there, it comes up holding no
      credential; with one, it comes up only when every stored envelope loads. A failed start leaves the world as it
      was. */
  ghost function Restart(w: World, first: Option<Uuid>): (r: (World, Result<StartUp>))
    ensures r.0.db == w.db
  {
    if !LoadsEnvelopes(w.db, first) then (World(w.db, A.AuthState(map[], false)), Ok(NeedsBootstrap))
    else if forall u :: u in w.db.users ==> Loadable(w.db.users[u])
    then (World(w.db, A.AuthState(LoadedCredentials(w.db), false)), Ok(Ready))
    else (w, Err(Validation))
  }

  // ---- events ----

  datatype Event =
    | CreateUserEv(actor: Uuid, username: string, password: bytes, role: UserRole, id: Uuid, salt: Salt, writes: nat)
    | BootstrapEv(username: string, password: bytes, id: Uuid, salt: Salt, writes: nat)
    | DeleteUserEv(actor: Uuid, target: Uuid, writes: nat)
    | UpdateRoleEv(actor: Uuid, target: Uuid, role: UserRole, writes: nat)
    | ResetPasswordEv(actor: Uuid, target: Uuid, password: bytes, salt: Salt, writes: nat)
    | ChangePasswordEv(user: Uuid, current: bytes, next: bytes, salt: Salt, writes: nat)
    | RestartEv(first: Option<Uuid>)
    | SignalShutdownEv

  /** The state one account call leaves behind, whether it returns a value or an error. */
  ghost function Step(c: Cipher, w: World, e: Event): World {
    match e
    case CreateUserEv(actor, username, password, role, id, salt, writes) =>
      CreateUser(c, w, actor, username, password, role, id, salt, writes).0
    case BootstrapEv(username, password, id, salt, writes) =>
      BootstrapFirstAdmin(c, w, username, password, id, salt, writes).0
    case DeleteUserEv(actor, target, writes) => DeleteUser(w, actor, target, writes).0
    case UpdateRoleEv(actor, target, role, writes) => UpdateUserRole(w, actor, target, role, writes).0
    case ResetPasswordEv(actor, target, password, salt, writes) =>
      ResetUserPassword(c, w, actor, target, password, salt, writes).0
    case ChangePasswordEv(user, current, next, salt, writes) =>
      ChangeMasterPassword(c, w, user, current, next, salt, writes).0
    case RestartEv(first) => Restart(w, first).0
    case SignalShutdownEv => w.(auth := w.auth.(shutdown := true))
  }

  lemma FewerNames(before: Db, after: Db)
    requires UniqueUsernames(before) && after.users.Keys <= before.users.Keys
    requires forall u :: u in after.users ==> after.users[u].username == before.users[u].username
    ensures UniqueUsernames(after)
  {
  }

  lemma RegisterKeepsNames(c: Cipher, w: World, name: string, password: bytes, role: UserRole, id: Uuid, salt: Salt,
                           writes: nat)
    requires UniqueUsernames(w.db)
    ensures UniqueUsernames(Register(c, w, name, password, role, id, salt, writes).0.db)
  {
    RegisterOutcome(c, w, name, password, role, id, salt, writes);
  }

  lemma OneAccountKeepsNames(w: World, w': World, user: Uuid)
    requires UniqueUsernames(w.db) && TouchesOneAccount(w, w', user)
    ensures UniqueUsernames(w'.db)
  {
    FewerNames(w.db, w'.db);
  }

  /** Names stay unique whatever happens. */
  lemma StepUniqueNames(c: Cipher, w: World, e: Event)
    requires UniqueUsernames(w.db)
    ensures UniqueUsernames(Step(c, w, e).db)
  {
    match e
    case CreateUserEv(actor, username, password, role, id, salt, writes) =>
      RegisterKeepsNames(c, w, Trim(username), password, role, id, salt, writes);
    case BootstrapEv(username, password, id, salt, writes) =>
      RegisterKeepsNames(c, w, Trim(username), password, Admin, id, salt, writes);
    case ResetPasswordEv(actor, target, password, salt, writes) => OneAccountKeepsNames(w, Step(c, w, e), target);
    case ChangePasswordEv(user, current, next, salt, writes) => OneAccountKeepsNames(w, Step(c, w, e), user);
    case DeleteUserEv(actor, target, writes) => FewerNames(w.db, DeleteUser(w, actor, target, writes).0.db);
    case UpdateRoleEv(actor, target, role, writes) =>
      FewerNames(w.db, UpdateUserRole(w, actor, target, role, writes).0.db);
    case RestartEv(first) =>
    case SignalShutdownEv =>
  }

  // ---- agreement of the in-memory credentials with the stored envelopes ----

  /** The stored envelope of `u`, if there is one, decodes to the credential in memory. */
  ghost predicate AgreesFor(w: World, u: Uuid) {
    u in w.db.users && w.db.users[u].envelope.Some? ==>
      && w.db.users[u].username in w.auth.credentials
      && PE.Decode(w.db.users[u].envelope.value) == Ok(w.auth.credentials[w.db.users[u].username])
  }

  ghost predicate Agree(w: World) {
    forall u :: u in w.db.users ==> AgreesFor(w, u)
  }

  /** The credential a call puts in memory for the existing user `u`: a password replacement that passes its checks, or
      a creation under the user's name while memory holds none. */
  ghost function Replacement(c: Cipher, w: World, e: Event, u: Uuid): Option<PE.Credential>
    requires u in w.db.users
  {
    var name := w.db.users[u].username;
    match e
    case ResetPasswordEv(actor, target, password, salt, writes) =>
      if target == u && IsAdmin(w.db, actor) && Trim(name) != [] && c.utf8(password) && !w.auth.shutdown
      then Some(PE.Credential(salt, c.kdf(password, salt).value)) else None
    case ChangePasswordEv(user, current, next, salt, writes) =>
      if user == u && |next| >= MIN_MASTER_PASSWORD_LEN && current != next && c.utf8(current) && c.utf8(next)
         && !w.auth.shutdown && name in w.auth.credentials
         && c.kdf(current, w.auth.credentials[name].salt) == Some(w.auth.credentials[name].hash)
      then Some(PE.Credential(salt, c.kdf(next, salt).value)) else None
    case CreateUserEv(actor, username, password, role, id, salt, writes) =>
      if IsAdmin(w.db, actor) && Trim(username) == name && name != [] && c.utf8(password)
         && !w.auth.shutdown && name !in w.auth.credentials
      then Some(PE.Credential(salt, c.kdf(password, salt).value)) else None
    case _ => None
  }

  /** The replacement also reaches the row: for a creation it never does, as the name is taken. */
  predicate RowWritten(e: Event) {
    (e.ResetPasswordEv? || e.ChangePasswordEv?) && e.writes >= 1
  }

  ghost predicate EnvelopeHolds(db: Db, u: Uuid, record: PE.Credential)
    requires u in db.users
  {
    db.users[u].envelope.Some? ==> PE.Decode(db.users[u].envelope.value) == Ok(record)
  }

  /** A call that leaves memory and row of `u` agreeing whatever they were before. */
  ghost predicate Settles(c: Cipher, w: World, e: Event, u: Uuid)
    requires u in w.db.users
  {
    || (e.RestartEv? && Restart(w, e.first).1 == Ok(Ready))
    || (var r := Replacement(c, w, e, u); r.Some? && (RowWritten(e) || EnvelopeHolds(w.db, u, r.value)))
  }

  /** A call that leaves them apart: a start that loads nothing, or a replacement in memory that the row does not
      follow. */
  ghost predicate Breaks(c: Cipher, w: World, e: Event, u: Uuid)
    requires u in w.db.users
  {
    || (e.RestartEv? && !LoadsEnvelopes(w.db, e.first) && w.db.users[u].envelope.Some?)
    || (var r := Replacement(c, w, e, u); r.Some? && !RowWritten(e) && !EnvelopeHolds(w.db, u, r.value))
  }

  ghost predicate Tears(c: Cipher, w: World, e: Event) {
    exists u :: u in w.db.users && Breaks(c, w, e, u)
  }

  lemma FreshCredentialDecodes(c: Cipher, password: bytes, salt: Salt)
    ensures var record := PE.Credential(salt, c.kdf(password, salt).value);
      PE.Encodable(record) && PE.Decode(PE.Encode(record)) == Ok(record)
  {
    PE.DecodeEncode(PE.Credential(salt, c.kdf(password, salt).value));
  }

  lemma LoadedAgrees(w: World, first: Option<Uuid>, u: Uuid)
    requires UniqueUsernames(w.db) && Restart(w, first).1 == Ok(Ready) && u in w.db.users
    ensures AgreesFor(Restart(w, first).0, u)
  {
    if w.db.users[u].envelope.Some? { assert HasEnvelopeFor(w.db, u, w.db.users[u].username); }
  }

  /** A start that comes up establishes the agreement exactly when the first administrator row has an envelope, or no
      row has. */
  lemma RestartAgrees(w: World, first: Option<Uuid>)
    requires UniqueUsernames(w.db) && Restart(w, first).1.Ok?
    ensures Agree(Restart(w, first).0) <==>
      LoadsEnvelopes(w.db, first) || forall u :: u in w.db.users ==> w.db.users[u].envelope.None?
  {
    var w' := Restart(w, first).0;
    if LoadsEnvelopes(w.db, first) {
      forall u | u in w'.db.users ensures AgreesFor(w', u) { LoadedAgrees(w, first, u); }
    } else if u :| u in w.db.users && w.db.users[u].envelope.Some? {
      assert !AgreesFor(w', u);
    }
  }

  /** What a registration can leave behind: nothing, a bare credential, or in addition a row without or with its
      envelope. */
  lemma RegisterOutcome(c: Cipher, w: World, name: string, password: bytes, role: UserRole, id: Uuid, salt: Salt,
                        writes: nat)
    ensures var w' := Register(c, w, name, password, role, id, salt, writes).0;
      var record := PE.Credential(salt, c.kdf(password, salt).value);
      || (w' == w && A.CreateUser(c, w.auth, name, password, salt).1.Err?)
      || (&& name !in w.auth.credentials && A.CreateUser(c, w.auth, name, password, salt).1.Ok?
          && w'.auth == w.auth.(credentials := w.auth.credentials[name := record])
          && (|| w'.db == w.db
              || (&& id !in w.db.users && !UsernameTaken(w.db, name)
                  && (|| w'.db == w.db.(users := w.db.users[id := UserRow(name, role, None)])
                      || w'.db == w.db.(users := w.db.users[id := UserRow(name, role, Some(PE.Encode(record)))])))))
  {
  }

  /** Which of these, and what is handed out: the row comes with the first write, its envelope and the key with the
      second. */
  lemma RegisterExactly(c: Cipher, w: World, name: string, password: bytes, role: UserRole, id: Uuid, salt: Salt,
                        writes: nat)
    ensures var (w', r) := Register(c, w, name, password, role, id, salt, writes);
      var record := PE.Credential(salt, c.kdf(password, salt).value);
      var listed := A.CreateUser(c, w.auth, name, password, salt).1.Ok? && id !in w.db.users
        && !UsernameTaken(w.db, name);
      && (r.Ok? <==> listed && writes >= 2)
      && (r.Ok? ==> r.value == record.hash)
      && w'.db == (if listed && writes >= 1
                   then w.db.(users := w.db.users[id :=
                                                  UserRow(name, role, if writes >= 2 then Some(PE.Encode(record))
                                                          else None)])
                   else w.db)
  {
  }

  /** When the calls that replace a password report success. */
  lemma ReplacementReported(c: Cipher, w: World, e: Event)
    requires e.ResetPasswordEv? || e.ChangePasswordEv?
    ensures e.ResetPasswordEv? ==>
      (ResetUserPassword(c, w, e.actor, e.target, e.password, e.salt, e.writes).1.Ok? <==>
        e.target in w.db.users && Replacement(c, w, e, e.target).Some? && e.writes >= 2)
    ensures e.ChangePasswordEv? ==>
      (ChangeMasterPassword(c, w, e.user, e.current, e.next, e.salt, e.writes).1.Ok? <==>
        e.user in w.db.users && Replacement(c, w, e, e.user).Some? && e.writes >= 1)
  {
  }

  /** When account creation and the bootstrap report success, with every write going through. */
  lemma CreationReported(c: Cipher, w: World, e: Event)
    requires (e.CreateUserEv? || e.BootstrapEv?) && e.writes >= 3
    ensures var r := if e.CreateUserEv? then CreateUser(c, w, e.actor, e.username, e.password, e.role, e.id, e.salt,
                                                        e.writes).1
                     else BootstrapFirstAdmin(c, w, e.username, e.password, e.id, e.salt, e.writes).1;
      r.Ok? <==>
        && (if e.CreateUserEv? then IsAdmin(w.db, e.actor) else w.db.users == map[])
        && Trim(e.username) != [] && c.utf8(e.password) && !w.auth.shutdown
        && Trim(e.username) !in w.auth.credentials && !UsernameTaken(w.db, Trim(e.username)) && e.id !in w.db.users
  {
    var role := if e.CreateUserEv? then e.role else Admin;
    RegisterExactly(c, w, Trim(e.username), e.password, role, e.id, e.salt, e.writes);
    A.RegisterExactly(c, w.auth, Trim(e.username), e.password, e.salt);
  }

  /** A start comes up exactly if no envelopes are to be loaded or every one of them loads; otherwise nothing
      changes. */
  lemma StartsExactly(w: World, first: Option<Uuid>)
    ensures var (w', r) := Restart(w, first);
      && (r == Ok(NeedsBootstrap) <==> !LoadsEnvelopes(w.db, first))
      && (r == Ok(Ready) <==>
            LoadsEnvelopes(w.db, first) && forall u :: u in w.db.users && w.db.users[u].envelope.Some? ==>
              Trim(w.db.users[u].username) != [] && PE.Decode(w.db.users[u].envelope.value).Ok?)
      && (r.Err? ==> w' == w)
  {
    if forall u :: u in w.db.users && w.db.users[u].envelope.Some? ==>
      Trim(w.db.users[u].username) != [] && PE.Decode(w.db.users[u].envelope.value).Ok? {
      assert forall u :: u in w.db.users ==> Loadable(w.db.users[u]);
    } else {
      var u :| u in w.db.users && w.db.users[u].envelope.Some?
        && !(Trim(w.db.users[u].username) != [] && PE.Decode(w.db.users[u].envelope.value).Ok?);
      assert !Loadable(w.db.users[u]);
    }
  }

  lemma RegisterAgreement(c: Cipher, w: World, name: string, password: bytes, role: UserRole, id: Uuid, salt: Salt,
                          writes: nat, u: Uuid)
    requires UniqueUsernames(w.db)
    ensures var w' := Register(c, w, name, password, role, id, salt, writes).0;
      if u !in w.db.users then AgreesFor(w', u)
      else AgreesFor(w', u) <==>
        if w.db.users[u].username == name && A.CreateUser(c, w.auth, name, password, salt).1.Ok?
        then EnvelopeHolds(w.db, u, PE.Credential(salt, c.kdf(password, salt).value)) else AgreesFor(w, u)
  {
    FreshCredentialDecodes(c, password, salt);
    RegisterOutcome(c, w, name, password, role, id, salt, writes);
  }

  /** Replacing the credential of `user` in memory, with or without the row write. */
  lemma ReplacedCredential(w: World, user: Uuid, record: PE.Credential, auth: A.AuthState, u: Uuid)
    requires UniqueUsernames(w.db) && user in w.db.users && PE.Decode(PE.Encode(record)) == Ok(record)
    requires auth == w.auth.(credentials := w.auth.credentials[w.db.users[user].username := record])
    ensures AgreesFor(World(StoreEnvelope(w.db, user, PE.Encode(record)), auth), u) <==> u == user || AgreesFor(w, u)
    ensures AgreesFor(World(w.db, auth), u) <==> if u == user then EnvelopeHolds(w.db, u, record) else AgreesFor(w, u)
  {
  }

  function TargetOf(e: Event): Uuid
    requires e.ResetPasswordEv? || e.ChangePasswordEv?
  {
    if e.ResetPasswordEv? then e.target else e.user
  }

  /** A password call does nothing, or puts the replacement in memory and, storage permitting, in the row. */
  ghost predicate ReplacesOnly(c: Cipher, w: World, e: Event, w': World)
    requires e.ResetPasswordEv? || e.ChangePasswordEv?
  {
    var u := TargetOf(e);
    if u in w.db.users && Replacement(c, w, e, u).Some? then
      var record := Replacement(c, w, e, u).value;
      && PE.Decode(PE.Encode(record)) == Ok(record)
      && w' == World(if RowWritten(e) then StoreEnvelope(w.db, u, PE.Encode(record)) else w.db,
                     w.auth.(credentials := w.auth.credentials[w.db.users[u].username := record]))
    else w' == w
  }

  lemma ResetOutcome(c: Cipher, w: World, e: Event)
    requires e.ResetPasswordEv?
    ensures ReplacesOnly(c, w, e, ResetUserPassword(c, w, e.actor, e.target, e.password, e.salt, e.writes).0)
  {
    FreshCredentialDecodes(c, e.password, e.salt);
  }

  lemma ChangeOutcome(c: Cipher, w: World, e: Event)
    requires e.ChangePasswordEv?
    ensures ReplacesOnly(c, w, e, ChangeMasterPassword(c, w, e.user, e.current, e.next, e.salt, e.writes).0)
  {
    FreshCredentialDecodes(c, e.next, e.salt);
  }

  lemma ReplacementAgreement(c: Cipher, w: World, e: Event, w': World, u: Uuid)
    requires UniqueUsernames(w.db) && (e.ResetPasswordEv? || e.ChangePasswordEv?) && u in w.db.users
    requires ReplacesOnly(c, w, e, w')
    ensures AgreesFor(w', u) <==> Settles(c, w, e, u) || (AgreesFor(w, u) && !Breaks(c, w, e, u))
  {
    var target := TargetOf(e);
    if target in w.db.users && Replacement(c, w, e, target).Some? {
      ReplacedCredential(w, target, Replacement(c, w, e, target).value, w'.auth, u);
    }
  }

  lemma CreateIsRegister(c: Cipher, w: World, e: Event)
    requires e.CreateUserEv?
    ensures Step(c, w, e) ==
      if IsAdmin(w.db, e.actor) && Trim(e.username) != []
      then Register(c, w, Trim(e.username), e.password, e.role, e.id, e.salt, e.writes).0 else w
  {
  }

  lemma CreateReplaces(c: Cipher, w: World, e: Event, u: Uuid)
    requires e.CreateUserEv? && u in w.db.users
    ensures var name := Trim(e.username);
      Replacement(c, w, e, u) ==
        if IsAdmin(w.db, e.actor) && name != [] && w.db.users[u].username == name
           && A.CreateUser(c, w.auth, name, e.password, e.salt).1.Ok?
        then Some(PE.Credential(e.salt, c.kdf(e.password, e.salt).value)) else None
  {
  }

  lemma CreateAgreement(c: Cipher, w: World, e: Event, u: Uuid)
    requires UniqueUsernames(w.db) && e.CreateUserEv?
    ensures u !in w.db.users ==> AgreesFor(Step(c, w, e), u)
    ensures u in w.db.users ==>
      (AgreesFor(Step(c, w, e), u) <==> Settles(c, w, e, u) || (AgreesFor(w, u) && !Breaks(c, w, e, u)))
  {
    CreateIsRegister(c, w, e);
    if IsAdmin(w.db, e.actor) && Trim(e.username) != [] {
      RegisterAgreement(c, w, Trim(e.username), e.password, e.role, e.id, e.salt, e.writes, u);
    }
    if u in w.db.users { CreateSettles(c, w, e, u); }
  }

  /** A creation never reaches the row of an existing user: it settles or breaks the agreement by what it puts in
      memory. */
  lemma CreateSettles(c: Cipher, w: World, e: Event, u: Uuid)
    requires e.CreateUserEv? && u in w.db.users
    ensures var name := Trim(e.username);
      var replaced := IsAdmin(w.db, e.actor) && name != [] && w.db.users[u].username == name
        && A.CreateUser(c, w.auth, name, e.password, e.salt).1.Ok?;
      var held := EnvelopeHolds(w.db, u, PE.Credential(e.salt, c.kdf(e.password, e.salt).value));
      (Settles(c, w, e, u) <==> replaced && held) && (Breaks(c, w, e, u) <==> replaced && !held)
  {
    CreateReplaces(c, w, e, u);
  }

  lemma BootstrapAgreement(c: Cipher, w: World, e: Event, u: Uuid)
    requires UniqueUsernames(w.db) && e.BootstrapEv?
    ensures u !in w.db.users ==> AgreesFor(Step(c, w, e), u)
    ensures u in w.db.users ==> Step(c, w, e) == w
  {
    RegisterAgreement(c, w, Trim(e.username), e.password, Admin, e.id, e.salt, e.writes, u);
  }

  lemma RestartAgreement(c: Cipher, w: World, e: Event, u: Uuid)
    requires UniqueUsernames(w.db) && e.RestartEv? && u in w.db.users
    ensures AgreesFor(Step(c, w, e), u) <==> Settles(c, w, e, u) || (AgreesFor(w, u) && !Breaks(c, w, e, u))
  {
    if Restart(w, e.first).1 == Ok(Ready) { LoadedAgrees(w, e.first, u); }
  }

  /** One user, any state: after a call, row and memory agree exactly if the user is gone, or the call settles them, or
      they agreed and the call does not break them apart; and a user created by the call starts in agreement. */
  lemma StepAgreementFor(c: Cipher, w: World, e: Event, u: Uuid)
    requires UniqueUsernames(w.db)
    ensures u !in w.db.users ==> AgreesFor(Step(c, w, e), u)
    ensures u in w.db.users ==>
      (AgreesFor(Step(c, w, e), u) <==>
        u !in Step(c, w, e).db.users || Settles(c, w, e, u) || (AgreesFor(w, u) && !Breaks(c, w, e, u)))
    ensures u in w.db.users && Breaks(c, w, e, u) ==> u in Step(c, w, e).db.users && !Settles(c, w, e, u)
  {
    match e
    case CreateUserEv(_, _, _, _, _, _, _) => CreateAgreement(c, w, e, u);
    case BootstrapEv(_, _, _, _, _) => BootstrapAgreement(c, w, e, u);
    case ResetPasswordEv(_, _, _, _, _) =>
      ResetOutcome(c, w, e);
      if u in w.db.users { ReplacementAgreement(c, w, e, Step(c, w, e), u); }
    case ChangePasswordEv(_, _, _, _, _) =>
      ChangeOutcome(c, w, e);
      if u in w.db.users { ReplacementAgreement(c, w, e, Step(c, w, e), u); }
    case RestartEv(_) =>
      if u in w.db.users { RestartAgreement(c, w, e, u); }
    case DeleteUserEv(_, _, _) =>
    case UpdateRoleEv(_, _, _, _) =>
    case SignalShutdownEv =>
  }

  /** All users: every account call keeps the agreement exactly unless it breaks that of some user. */
  lemma StepAgreement(c: Cipher, w: World, e: Event)
    requires UniqueUsernames(w.db) && Agree(w)
    ensures UniqueUsernames(Step(c, w, e).db)
    ensures Agree(Step(c, w, e)) <==> !Tears(c, w, e)
  {
    StepUniqueNames(c, w, e);
    var w' := Step(c, w, e);
    if u :| u in w.db.users && Breaks(c, w, e, u) {
      StepAgreementFor(c, w, e, u);
    } else {
      forall u | u in w'.db.users ensures AgreesFor(w', u) { StepAgreementFor(c, w, e, u); }
    }
  }

  // ---- names in memory without a row ----

  /** Memory holds a credential under `name`, and no user has that name. */
  ghost predicate Rowless(w: World, name: string) {
    name in w.auth.credentials && !UsernameTaken(w.db, name)
  }

  /** The calls that leave a name so: deleting its user, whose credential stays, and a creation whose row is not
      inserted. */
  ghost predicate StrandsName(c: Cipher, w: World, e: Event, name: string) {
    match e
    case DeleteUserEv(actor, target, writes) =>
      Deletes(w, actor, target, writes) && w.db.users[target].username == name && name in w.auth.credentials
    case CreateUserEv(actor, username, password, role, id, salt, writes) =>
      && IsAdmin(w.db, actor) && Trim(username) == name && name != [] && c.utf8(password) && !w.auth.shutdown
      && name !in w.auth.credentials && !UsernameTaken(w.db, name) && (writes < 1 || id in w.db.users)
    case BootstrapEv(username, password, id, salt, writes) =>
      && w.db.users == map[] && Trim(username) == name && name != [] && c.utf8(password) && !w.auth.shutdown
      && name !in w.auth.credentials && writes < 1
    case _ => false
  }

  /** A start that comes up forgets every name without a row. */
  ghost predicate Starts(w: World, e: Event) {
    e.RestartEv? && Restart(w, e.first).1.Ok?
  }

  lemma RegisterRowless(c: Cipher, w: World, name: string, password: bytes, role: UserRole, id: Uuid, salt: Salt,
                        writes: nat, other: string)
    requires name != [] && Trim(name) != []
    ensures Rowless(Register(c, w, name, password, role, id, salt, writes).0, other) <==>
      || Rowless(w, other)
      || (&& other == name && c.utf8(password) && !w.auth.shutdown && name !in w.auth.credentials
          && !UsernameTaken(w.db, name) && (writes < 1 || id in w.db.users))
  {
    var w' := Register(c, w, name, password, role, id, salt, writes).0;
    RegisterOutcome(c, w, name, password, role, id, salt, writes);
    if A.CreateUser(c, w.auth, name, password, salt).1.Ok? && writes >= 1 && id !in w.db.users
      && !UsernameTaken(w.db, name) {
      assert w'.db.users[id].username == name;
    }
    forall u | u in w.db.users ensures u in w'.db.users && w'.db.users[u].username == w.db.users[u].username {
    }
  }

  lemma HolderTakesName(db: Db, u: Uuid, name: string)
    requires HasEnvelopeFor(db, u, name)
    ensures UsernameTaken(db, name)
  {
    assert db.users[u].username == name;
  }

  lemma LoadedNameTaken(db: Db, name: string)
    requires forall u :: u in db.users ==> Loadable(db.users[u])
    ensures name in LoadedCredentials(db) ==> UsernameTaken(db, name)
  {
    LoadedNames(db, name);
    if u :| HasEnvelopeFor(db, u, name) { HolderTakesName(db, u, name); }
  }

  lemma RestartRowless(w: World, first: Option<Uuid>, name: string)
    requires Restart(w, first).1.Ok?
    ensures !Rowless(Restart(w, first).0, name)
  {
    if LoadsEnvelopes(w.db, first) { LoadedNameTaken(w.db, name); }
  }

  lemma SameNamesRowless(w: World, w': World, name: string)
    requires w'.db.users.Keys == w.db.users.Keys
    requires forall u :: u in w.db.users ==> w'.db.users[u].username == w.db.users[u].username
    requires UsernameTaken(w.db, name) || (name in w'.auth.credentials <==> name in w.auth.credentials)
    ensures Rowless(w', name) <==> Rowless(w, name)
  {
    if u :| u in w.db.users && w.db.users[u].username == name { assert w'.db.users[u].username == name; }
  }

  lemma DeletionRowless(w: World, actor: Uuid, target: Uuid, writes: nat, name: string)
    requires UniqueUsernames(w.db)
    ensures Rowless(DeleteUser(w, actor, target, writes).0, name) <==>
      || Rowless(w, name)
      || (Deletes(w, actor, target, writes) && w.db.users[target].username == name && name in w.auth.credentials)
  {
    DeletesExactly(w, actor, target, writes);
    if Deletes(w, actor, target, writes) {
      var after := PurgeUser(w.db, target);
      if u :| u in w.db.users && w.db.users[u].username == name && u != target { assert u in after.users; }
    }
  }

  lemma CreateRowless(c: Cipher, w: World, e: Event, name: string)
    requires e.CreateUserEv?
    ensures Rowless(Step(c, w, e), name) <==> StrandsName(c, w, e, name) || Rowless(w, name)
  {
    CreateIsRegister(c, w, e);
    if IsAdmin(w.db, e.actor) && Trim(e.username) != [] {
      RegisterRowless(c, w, Trim(e.username), e.password, e.role, e.id, e.salt, e.writes, name);
    }
  }

  lemma BootstrapRowless(c: Cipher, w: World, e: Event, name: string)
    requires e.BootstrapEv?
    ensures Rowless(Step(c, w, e), name) <==> StrandsName(c, w, e, name) || Rowless(w, name)
  {
    if w.db.users == map[] && Trim(e.username) != [] {
      RegisterRowless(c, w, Trim(e.username), e.password, Admin, e.id, e.salt, e.writes, name);
    }
  }

  lemma OneAccountRowless(w: World, w': World, user: Uuid, name: string)
    requires TouchesOneAccount(w, w', user)
    ensures Rowless(w', name) <==> Rowless(w, name)
  {
    if user in w.db.users { SameNamesRowless(w, w', name); }
  }

  lemma RoleRowless(c: Cipher, w: World, e: Event, name: string)
    requires e.UpdateRoleEv?
    ensures Rowless(Step(c, w, e), name) <==> Rowless(w, name)
  {
    SameNamesRowless(w, Step(c, w, e), name);
  }

  /** One call: a name is without a row afterwards exactly if the call strands it, or it was so and the call is no
      start. */
  lemma StepRowless(c: Cipher, w: World, e: Event, name: string)
    requires UniqueUsernames(w.db)
    ensures Rowless(Step(c, w, e), name) <==> StrandsName(c, w, e, name) || (Rowless(w, name) && !Starts(w, e))
  {
    match e
    case CreateUserEv(_, _, _, _, _, _, _) => CreateRowless(c, w, e, name);
    case BootstrapEv(_, _, _, _, _) => BootstrapRowless(c, w, e, name);
    case DeleteUserEv(actor, target, writes) => DeletionRowless(w, actor, target, writes, name);
    case UpdateRoleEv(_, _, _, _) => RoleRowless(c, w, e, name);
    case ResetPasswordEv(_, target, _, _, _) => OneAccountRowless(w, Step(c, w, e), target, name);
    case ChangePasswordEv(user, _, _, _, _) => OneAccountRowless(w, Step(c, w, e), user, name);
    case RestartEv(first) =>
      if Restart(w, first).1.Ok? { RestartRowless(w, first, name); }
    case SignalShutdownEv =>
  }

  /** While a name is without a row, no user of that name can be created, and trying changes nothing. */
  lemma RowlessRefused(c: Cipher, w: World, actor: Uuid, username: string, password: bytes, role: UserRole,
                       id: Uuid, salt: Salt, writes: nat)
    requires Rowless(w, Trim(username))
    ensures CreateUser(c, w, actor, username, password, role, id, salt, writes).0 == w
    ensures CreateUser(c, w, actor, username, password, role, id, salt, writes).1.Err?
    ensures IsAdmin(w.db, actor) && Trim(username) != [] && !w.auth.shutdown ==>
      CreateUser(c, w, actor, username, password, role, id, salt, writes).1 == Err(Conflict)
  {
  }
}
