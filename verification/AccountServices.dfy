/** The admin and user services and the start-up loader as they run. */
module AccountServices {
  import opened Types
  import opened Text
  import opened Crypto
  import opened Store
  import Acc = Accounts
  import A = Auth
  import PE = PasswordEnvelope

  class AccountService {
    const c: Cipher
    const db: Database
    const auth: A.AuthService

    constructor (db: Database, auth: A.AuthService)
      ensures this.c == auth.c && this.db == db && this.auth == auth
    {
      this.c := auth.c;
      this.db := db;
      this.auth := auth;
    }

    function World(): Acc.World
      reads db, auth
    {
      Acc.World(db.Snapshot(), auth.State())
    }

    /** What account creation and bootstrap share: credential, derived key, row, envelope. */
    method Register(name: string, password: bytes, role: UserRole, id: Uuid, salt: Salt, writes: nat)
      returns (r: Result<bytes>)
      requires auth.c == c
      modifies db, auth
      ensures (World(), r) == Acc.Register(c, old(World()), name, password, role, id, salt, writes)
    {
      var created := auth.Register(name, password, salt);
      if created.Err? { return Err(created.error); }
      var derived := auth.DeriveKey(name, password);
      if derived.Err? { return Err(derived.error); }
      if derived.value.None? { return Err(Internal); }
      var envelope := A.GetEnvelope(auth.State(), name);
      if envelope.Err? { return Err(envelope.error); }
      if writes < 1 || id in db.users || UsernameTaken(db.Snapshot(), name) { return Err(Database); }
      db.users := db.users[id := UserRow(name, role, None)];
      if writes < 2 { return Err(Database); }
      db.users := db.users[id := db.users[id].(envelope := Some(envelope.value))];
      assert db.users == old(db.users)[id := UserRow(name, role, Some(envelope.value))];
      return Ok(derived.value.value);
    }

    method CreateUser(actor: Uuid, username: string, password: bytes, role: UserRole, id: Uuid, salt: Salt, writes: nat)
      returns (r: Result<bytes>)
      requires auth.c == c
      modifies db, auth
      ensures (World(), r) == Acc.CreateUser(c, old(World()), actor, username, password, role, id, salt, writes)
    {
      var allowed := Acc.RequireAdmin(db.Snapshot(), actor);
      if allowed.Err? { return Err(allowed.error); }
      if Trim(username) == [] { return Err(Validation); }
      r := Register(Trim(username), password, role, id, salt, writes);
      if r.Ok? && writes < 3 { r := Err(Database); }
    }

    method BootstrapFirstAdmin(username: string, password: bytes, id: Uuid, salt: Salt, writes: nat)
      returns (r: Result<bytes>)
      requires auth.c == c
      modifies db, auth
      ensures (World(), r) == Acc.BootstrapFirstAdmin(c, old(World()), username, password, id, salt, writes)
    {
      if db.users != map[] { return Err(Conflict); }
      if Trim(username) == [] { return Err(Validation); }
      r := Register(Trim(username), password, Admin, id, salt, writes);
    }

    method DeleteUser(actor: Uuid, target: Uuid, writes: nat) returns (r: Result<()>)
      modifies db
      ensures (World(), r) == Acc.DeleteUser(old(World()), actor, target, writes)
    {
      var allowed := Acc.RequireAdmin(db.Snapshot(), actor);
      if allowed.Err? { return Err(allowed.error); }
      if target !in db.users { return Err(NotFound); }
      if db.users[target].role == Admin {
        var admins := Acc.AdminIds(db.Snapshot());
        if |admins| <= 1 { return Err(Validation); }
      }
      if writes < 1 { return Err(Database); }
      var after := PurgeUser(db.Snapshot(), target);
      db.users, db.members, db.vaults, db.shares, db.secrets :=
        after.users, after.members, after.vaults, after.shares, after.secrets;
      if writes < 2 { return Err(Database); }
      return Ok(());
    }

    method UpdateUserRole(actor: Uuid, target: Uuid, role: UserRole, writes: nat) returns (r: Result<()>)
      modifies db
      ensures (World(), r) == Acc.UpdateUserRole(old(World()), actor, target, role, writes)
    {
      var allowed := Acc.RequireAdmin(db.Snapshot(), actor);
      if allowed.Err? { return Err(allowed.error); }
      if target !in db.users { return Err(NotFound); }
      if db.users[target].role == Admin && role == User {
        var admins := Acc.AdminIds(db.Snapshot());
        if |admins| <= 1 { return Err(Validation); }
      }
      if writes < 1 { return Err(Database); }
      db.users := db.users[target := db.users[target].(role := role)];
      if writes < 2 { return Err(Database); }
      return Ok(());
    }

    method ResetUserPassword(actor: Uuid, target: Uuid, password: bytes, salt: Salt, writes: nat)
      returns (r: Result<bytes>)
      requires auth.c == c
      modifies db, auth
      ensures (World(), r) == Acc.ResetUserPassword(c, old(World()), actor, target, password, salt, writes)
    {
      var allowed := Acc.RequireAdmin(db.Snapshot(), actor);
      if allowed.Err? { return Err(allowed.error); }
      if target !in db.users { return Err(NotFound); }
      var name := db.users[target].username;
      var scratch := new A.AuthService(c);
      var made := scratch.Register(name, password, salt);
      if made.Err? { return Err(made.error); }
      var imported := auth.Upsert(name, PE.Encode(scratch.credentials[name]));
      if imported.Err? { return Err(imported.error); }
      if writes < 1 { return Err(Database); }
      var envelope := PE.Encode(auth.credentials[name]);
      db.users := db.users[target := db.users[target].(envelope := Some(envelope))];
      var derived := auth.DeriveKey(name, password);
      match derived {
        case Err(e) => return Err(e);
        case Ok(None) => return Err(Internal);
        case Ok(Some(key)) => return if writes < 2 then Err(Database) else Ok(key);
      }
    }

    method ChangeMasterPassword(user: Uuid, current: bytes, next: bytes, salt: Salt, writes: nat)
      returns (r: Result<()>)
      requires auth.c == c
      modifies db, auth
      ensures (World(), r) == Acc.ChangeMasterPassword(c, old(World()), user, current, next, salt, writes)
    {
      if user !in db.users { return Err(NotFound); }
      if |next| < Acc.MIN_MASTER_PASSWORD_LEN { return Err(Validation); }
      var name := db.users[user].username;
      r := auth.Change(name, current, next, salt);
      if r.Err? { return; }
      if writes < 1 { return Err(Database); }
      db.users := db.users[user := db.users[user].(envelope := Some(PE.Encode(auth.credentials[name])))];
    }
  }

  /** Both what the loader demands of a row and what it leaves behind for it. */
  predicate Loadable(row: (string, bytes)) {
    Trim(row.0) != [] && PE.Decode(row.1).Ok?
  }

  predicate Loaded(credentials: map<string, PE.Credential>, row: (string, bytes)) {
    row.0 in credentials && PE.Decode(row.1) == Ok(credentials[row.0])
  }

  function Names(rows: seq<(string, bytes)>): set<string> {
    set i | 0 <= i < |rows| :: rows[i].0
  }

  /** `now` holds the decoded credentials of `rows`, and otherwise what `before` held. */
  ghost predicate LoadedInto(before: map<string, PE.Credential>, now: map<string, PE.Credential>,
                             rows: seq<(string, bytes)>) {
    && (forall i :: 0 <= i < |rows| ==> Loadable(rows[i]) && Loaded(now, rows[i]))
    && now.Keys == before.Keys + Names(rows)
    && (forall name :: name in before && name !in Names(rows) ==> now[name] == before[name])
  }

  lemma LoadOneMore(before: map<string, PE.Credential>, now: map<string, PE.Credential>, rows: seq<(string, bytes)>,
                    k: nat, record: PE.Credential)
    requires k < |rows| && LoadedInto(before, now, rows[..k]) && Loadable(rows[k]) && PE.Decode(rows[k].1) == Ok(record)
    requires rows[k].0 !in Names(rows[..k])
    ensures LoadedInto(before, now[rows[k].0 := record], rows[..k + 1])
  {
    var shorter, longer, now' := rows[..k], rows[..k + 1], now[rows[k].0 := record];
    NamesExtend(rows, k);
    forall i | 0 <= i < |longer| ensures Loadable(longer[i]) && Loaded(now', longer[i]) {
      if i < k {
        assert longer[i] == shorter[i] && shorter[i].0 in Names(shorter);
      } else {
        assert longer[i] == rows[k];
      }
    }
  }

  lemma FreshName(rows: seq<(string, bytes)>, k: nat)
    requires k < |rows| && forall i, j :: 0 <= i < j < |rows| ==> rows[i].0 != rows[j].0
    ensures rows[k].0 !in Names(rows[..k])
  {
  }

  /** The start-up loop over the stored envelopes, in whatever order the database lists them: it fails on the first
      envelope that does not load, and otherwise leaves each listed user's decoded credential in memory and every other
      one as it was. */
  method LoadPasswordEnvelopes(auth: A.AuthService, rows: seq<(string, bytes)>) returns (r: Result<()>)
    requires !auth.shutdown
    requires forall i, j :: 0 <= i < j < |rows| ==> rows[i].0 != rows[j].0
    modifies auth
    ensures !auth.shutdown && (r.Err? ==> r == Err(Validation))
    ensures r.Ok? <==> forall i :: 0 <= i < |rows| ==> Loadable(rows[i])
    ensures r.Ok? ==> LoadedInto(old(auth.credentials), auth.credentials, rows)
  {
    var k := 0;
    assert Names(rows[..0]) == {};
    while k < |rows|
      invariant 0 <= k <= |rows| && !auth.shutdown
      invariant forall i :: 0 <= i < k ==> Loadable(rows[i])
      invariant LoadedInto(old(auth.credentials), auth.credentials, rows[..k])
    {
      ghost var before := auth.credentials;
      r := auth.Upsert(rows[k].0, rows[k].1);
      if r.Err? {
        assert !Loadable(rows[k]);
        return;
      }
      assert auth.credentials == before[rows[k].0 := PE.Decode(rows[k].1).value];
      FreshName(rows, k);
      LoadOneMore(old(auth.credentials), before, rows, k, PE.Decode(rows[k].1).value);
      k := k + 1;
    }
    assert rows[..k] == rows;
    return Ok(());
  }

  lemma NamesExtend(rows: seq<(string, bytes)>, k: nat)
    requires k < |rows|
    ensures Names(rows[..k + 1]) == Names(rows[..k]) + {rows[k].0}
  {
    var longer := rows[..k + 1];
    forall i | 0 <= i < k ensures longer[i].0 in Names(rows[..k]) && rows[..k][i].0 in Names(longer) {
      assert rows[..k][i] == longer[i];
    }
    assert longer[k] == rows[k];
  }

  /** The database lists each stored envelope with its user's name, once. */
  ghost predicate ListsEnvelopes(db: Db, rows: seq<(string, bytes)>) {
    && (forall i :: 0 <= i < |rows| ==> exists u :: IsRowOf(db, u, rows[i]))
    && (forall u :: u in db.users && db.users[u].envelope.Some? ==>
        (db.users[u].username, db.users[u].envelope.value) in rows)
    && (forall i, j :: 0 <= i < j < |rows| ==> rows[i].0 != rows[j].0)
  }

  ghost predicate IsRowOf(db: Db, u: Uuid, row: (string, bytes)) {
    u in db.users && db.users[u].username == row.0 && db.users[u].envelope == Some(row.1)
  }

  /** The first administrator's credential is imported ahead of the others; without one the explicit initialization is
      due. */
  method EnsurePrivilegedAccount(auth: A.AuthService, db: Database, first: Option<Uuid>)
    returns (r: Result<Acc.StartUp>)
    requires auth.State() == A.AuthState(map[], false) && (first.Some? ==> first.value in db.users)
    modifies auth
    ensures !auth.shutdown
    ensures !Acc.LoadsEnvelopes(db.Snapshot(), first) ==> r == Ok(Acc.NeedsBootstrap) && auth.credentials == map[]
    ensures Acc.LoadsEnvelopes(db.Snapshot(), first) ==>
      r == if Acc.Loadable(db.users[first.value]) then Ok(Acc.Ready) else Err(Validation)
    ensures r == Ok(Acc.Ready) ==> auth.credentials.Keys == {db.users[first.value].username}
  {
    match first {
      case None => return Ok(Acc.NeedsBootstrap);
      case Some(admin) =>
        var row := db.users[admin];
        if row.envelope.None? { return Ok(Acc.NeedsBootstrap); }
        var imported := auth.Upsert(row.username, row.envelope.value);
        match imported {
          case Err(e) => return Err(e);
          case Ok(_) => return Ok(Acc.Ready);
        }
    }
  }

  /** The start of a process: the first administrator's credential, then, if there was one, all stored envelopes. */
  method StartProcess(c: Cipher, db: Database, first: Option<Uuid>, rows: seq<(string, bytes)>, ghost w: Acc.World)
    returns (auth: A.AuthService, r: Result<Acc.StartUp>)
    requires UniqueUsernames(db.Snapshot()) && ListsEnvelopes(db.Snapshot(), rows) && w.db == db.Snapshot()
    requires Acc.AnswersFirstAdmin(db.Snapshot(), first)
    ensures fresh(auth)
    ensures r == Acc.Restart(w, first).1
    ensures r.Ok? ==> Acc.World(db.Snapshot(), auth.State()) == Acc.Restart(w, first).0
  {
    auth := new A.AuthService(c);
    r := EnsurePrivilegedAccount(auth, db, first);
    if r != Ok(Acc.Ready) { return; }
    ghost var imported := auth.credentials;
    var loaded := LoadPasswordEnvelopes(auth, rows);
    StartedAs(w, first, rows, imported, auth.credentials, loaded);
    match loaded {
      case Err(e) => return auth, Err(e);
      case Ok(_) => return auth, Ok(Acc.Ready);
    }
  }

  lemma StartedAs(w: Acc.World, first: Option<Uuid>, rows: seq<(string, bytes)>,
                  imported: map<string, PE.Credential>, credentials: map<string, PE.Credential>, loaded: Result<()>)
    requires UniqueUsernames(w.db) && ListsEnvelopes(w.db, rows) && Acc.LoadsEnvelopes(w.db, first)
    requires imported.Keys == {w.db.users[first.value].username}
    requires loaded.Ok? <==> forall i :: 0 <= i < |rows| ==> Loadable(rows[i])
    requires loaded.Ok? ==> LoadedInto(imported, credentials, rows)
    ensures
      if loaded.Ok? then Acc.Restart(w, first) == (Acc.World(w.db, A.AuthState(credentials, false)), Ok(Acc.Ready))
      else Acc.Restart(w, first).1 == Err(Validation)
  {
    AllLoadable(w.db, rows);
    if loaded.Ok? {
      ListedName(w.db, rows, first.value);
      assert credentials.Keys == Names(rows);
      LoadedEverything(w.db, rows, credentials);
    }
  }

  lemma AllLoadable(db: Db, rows: seq<(string, bytes)>)
    requires ListsEnvelopes(db, rows)
    ensures (forall i :: 0 <= i < |rows| ==> Loadable(rows[i])) <==>
      (forall u :: u in db.users ==> Acc.Loadable(db.users[u]))
  {
    if forall i :: 0 <= i < |rows| ==> Loadable(rows[i]) {
      forall u | u in db.users ensures Acc.Loadable(db.users[u]) {
        if db.users[u].envelope.Some? {
          var i :| 0 <= i < |rows| && rows[i] == (db.users[u].username, db.users[u].envelope.value);
          assert Loadable(rows[i]);
        }
      }
    } else {
      var i :| 0 <= i < |rows| && !Loadable(rows[i]);
      var u :| IsRowOf(db, u, rows[i]);
      assert !Acc.Loadable(db.users[u]);
    }
  }

  lemma LoadedEverything(db: Db, rows: seq<(string, bytes)>, credentials: map<string, PE.Credential>)
    requires UniqueUsernames(db) && ListsEnvelopes(db, rows) && credentials.Keys == Names(rows)
    requires forall i :: 0 <= i < |rows| ==> Loaded(credentials, rows[i])
    requires forall u :: u in db.users ==> Acc.Loadable(db.users[u])
    ensures credentials == Acc.LoadedCredentials(db)
  {
    var expected := Acc.LoadedCredentials(db);
    forall name ensures name in credentials <==> name in expected
      ensures name in credentials ==> credentials[name] == expected[name]
    {
      Acc.LoadedFor(db, name, 0);
      if name in credentials {
        var i := LoadedRow(rows, credentials, name);
        var u :| IsRowOf(db, u, rows[i]);
        assert Acc.HasEnvelopeFor(db, u, name);
        Acc.LoadedFor(db, name, u);
      } else if u :| Acc.HasEnvelopeFor(db, u, name) {
        ListedName(db, rows, u);
      }
    }
  }

  lemma LoadedRow(rows: seq<(string, bytes)>, credentials: map<string, PE.Credential>, name: string) returns (i: nat)
    requires name in Names(rows) && forall i :: 0 <= i < |rows| ==> Loaded(credentials, rows[i])
    ensures i < |rows| && rows[i].0 == name && Loaded(credentials, rows[i])
  {
    i :| i < |rows| && rows[i].0 == name;
  }

  lemma ListedName(db: Db, rows: seq<(string, bytes)>, u: Uuid)
    requires ListsEnvelopes(db, rows) && u in db.users && db.users[u].envelope.Some?
    ensures db.users[u].username in Names(rows)
  {
    var i :| 0 <= i < |rows| && rows[i] == (db.users[u].username, db.users[u].envelope.value);
    assert rows[i].0 in Names(rows);
  }
}
