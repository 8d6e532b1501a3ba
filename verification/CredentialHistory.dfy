/** Whose password logs in: the credential in memory against the history of everything that was done to it. */
module CredentialHistory {
  import opened Types
  import opened Text
  import opened Crypto
  import opened Store
  import opened Machine
  import Acc = Accounts
  import A = Auth
  import KA = KeyAgreement
  import PE = PasswordEnvelope

  function Held(w: World, name: string): Option<PE.Credential> {
    if name in w.auth.credentials then Some(w.auth.credentials[name]) else None
  }

  /** The password and salt a call is given for an account. */
  function PasswordOf(a: Acc.Event): bytes {
    match a
    case CreateUserEv(_, _, password, _, _, _, _) => password
    case BootstrapEv(_, password, _, _, _) => password
    case ResetPasswordEv(_, _, password, _, _) => password
    case ChangePasswordEv(_, _, next, _, _) => next
    case _ => []
  }

  ghost predicate Registers(c: Cipher, w: World, username: string, name: string, password: bytes) {
    Trim(username) == name && name != [] && c.utf8(password) && !w.auth.shutdown && name !in w.auth.credentials
  }

  /** The call puts a new credential under `name` in memory: a creation of that name, or a reset or change of the
      password of the user who bears it. What happens to the row does not matter. */
  ghost predicate Puts(c: Cipher, w: World, a: Acc.Event, name: string) {
    match a
    case CreateUserEv(actor, username, password, _, _, _, _) =>
      Acc.IsAdmin(w.db, actor) && Registers(c, w, username, name, password)
    case BootstrapEv(username, password, _, _, _) => w.db.users == map[] && Registers(c, w, username, name, password)
    case ResetPasswordEv(actor, target, password, _, _) =>
      && Acc.IsAdmin(w.db, actor) && target in w.db.users && w.db.users[target].username == name
      && Trim(name) != [] && c.utf8(password) && !w.auth.shutdown
    case ChangePasswordEv(user, current, next, _, _) =>
      && user in w.db.users && w.db.users[user].username == name && |next| >= 10 && next != current && c.utf8(next)
      && exists key :: A.DeriveKeyIfValid(c, w.auth, name, current) == Ok(Some(key))
    case _ => false
  }

  /** The credential such a call puts there: the salt and the key its password derives with it. */
  function Fresh(c: Cipher, a: Acc.Event): PE.Credential
    requires a.CreateUserEv? || a.BootstrapEv? || a.ResetPasswordEv? || a.ChangePasswordEv?
  {
    PE.Credential(a.salt, c.kdf(PasswordOf(a), a.salt).value)
  }

  /** What a start that comes up holds under `name`: what the stored envelope of that name decodes to. */
  ghost predicate Loaded(db: Db, first: Option<Uuid>, name: string, held: Option<PE.Credential>) {
    if !Acc.LoadsEnvelopes(db, first) then held == None
    else match held
      case None => forall u :: !Acc.HasEnvelopeFor(db, u, name)
      case Some(record) =>
        exists u :: Acc.HasEnvelopeFor(db, u, name) && PE.Decode(db.users[u].envelope.value) == Ok(record)
  }

  lemma RegisterHeld(c: Cipher, w: World, name: string, password: bytes, role: UserRole, id: Uuid, salt: Salt,
                     writes: nat,
                     other: string)
    ensures var w' := Acc.Register(c, w, name, password, role, id, salt, writes).0;
      && w'.auth.shutdown == w.auth.shutdown
      && Held(w', other) ==
        if other == name && A.CreateUser(c, w.auth, name, password, salt).1.Ok?
        then Some(PE.Credential(salt, c.kdf(password, salt).value)) else Held(w, other)
  {
    Acc.RegisterOutcome(c, w, name, password, role, id, salt, writes);
  }

  lemma CreationHeld(c: Cipher, w: World, a: Acc.Event, name: string)
    requires a.CreateUserEv? || a.BootstrapEv?
    ensures var w' := Acc.Step(c, w, a);
      w'.auth.shutdown == w.auth.shutdown && Held(w', name) == if Puts(c, w, a, name) then Some(Fresh(c, a))
        else Held(w, name)
  {
    match a
    case CreateUserEv(actor, username, password, role, id, salt, writes) =>
      Acc.CreateIsRegister(c, w, a);
      A.RegisterExactly(c, w.auth, Trim(username), password, salt);
      RegisterHeld(c, w, Trim(username), password, role, id, salt, writes, name);
    case BootstrapEv(username, password, id, salt, writes) =>
      A.RegisterExactly(c, w.auth, Trim(username), password, salt);
      RegisterHeld(c, w, Trim(username), password, Admin, id, salt, writes, name);
  }

  lemma PutsReplacement(c: Cipher, w: World, a: Acc.Event)
    requires (a.ResetPasswordEv? || a.ChangePasswordEv?) && Acc.TargetOf(a) in w.db.users
    ensures Acc.Replacement(c, w, a, Acc.TargetOf(a)) ==
      if Puts(c, w, a, w.db.users[Acc.TargetOf(a)].username) then Some(Fresh(c, a)) else None
  {
    if a.ChangePasswordEv? && w.db.users[a.user].username in w.auth.credentials {
      var name := w.db.users[a.user].username;
      A.DeriveExactly(c, w.auth, name, a.current, w.auth.credentials[name].hash);
    }
  }

  lemma ReplacementHeld(c: Cipher, w: World, a: Acc.Event, name: string)
    requires a.ResetPasswordEv? || a.ChangePasswordEv?
    ensures var w' := Acc.Step(c, w, a);
      w'.auth.shutdown == w.auth.shutdown && Held(w', name) == if Puts(c, w, a, name) then Some(Fresh(c, a))
        else Held(w, name)
  {
    if a.ResetPasswordEv? { Acc.ResetOutcome(c, w, a); } else { Acc.ChangeOutcome(c, w, a); }
    if Acc.TargetOf(a) in w.db.users { PutsReplacement(c, w, a); }
  }

  lemma StartHeld(c: Cipher, w: World, a: Acc.Event, name: string)
    requires UniqueUsernames(w.db) && Acc.Starts(w, a)
    ensures !Acc.Step(c, w, a).auth.shutdown && Loaded(w.db, a.first, name, Held(Acc.Step(c, w, a), name))
  {
    if Acc.LoadsEnvelopes(w.db, a.first) {
      Acc.LoadedNames(w.db, name);
      if u :| Acc.HasEnvelopeFor(w.db, u, name) { Acc.LoadedFor(w.db, name, u); }
    }
  }

  /** One call: a start that comes up holds what is stored, a creation, reset or change holds the fresh credential, and
      nothing else touches memory. */
  lemma StepHeld(c: Cipher, w: World, e: Event, name: string)
    requires UniqueUsernames(w.db)
    ensures var w' := Step(c, w, e);
      if e.OnAccount? && Acc.Starts(w, e.a) then !w'.auth.shutdown && Loaded(w.db, e.a.first, name, Held(w', name))
      else
        && (w'.auth.shutdown <==> w.auth.shutdown || e == OnAccount(Acc.SignalShutdownEv))
        && Held(w', name) == if e.OnAccount? && Puts(c, w, e.a, name) then Some(Fresh(c, e.a)) else Held(w, name)
  {
    match e
    case OnAccount(a) =>
      match a {
        case CreateUserEv(_, _, _, _, _, _, _) => CreationHeld(c, w, a, name);
        case BootstrapEv(_, _, _, _, _) => CreationHeld(c, w, a, name);
        case ResetPasswordEv(_, _, _, _, _) => ReplacementHeld(c, w, a, name);
        case ChangePasswordEv(_, _, _, _, _) => ReplacementHeld(c, w, a, name);
        case RestartEv(_) => if Acc.Starts(w, a) { StartHeld(c, w, a, name); }
        case DeleteUserEv(actor, target, writes) => Acc.DeletesExactly(w, actor, target, writes);
        case UpdateRoleEv(_, _, _, _) =>
        case SignalShutdownEv =>
      }
    case _ =>
  }

  // ---- over runs ----

  ghost predicate PutsAt(c: Cipher, w: World, es: seq<Event>, i: nat, name: string)
    requires i < |es|
  {
    es[i].OnAccount? && Puts(c, Run(c, w, es[..i]), es[i].a, name)
  }

  /** Call `i` is the last to put a credential under `name` or to start the process. */
  ghost predicate LastSet(c: Cipher, w: World, es: seq<Event>, i: nat, name: string) {
    && i < |es| && (PutsAt(c, w, es, i, name) || StartsAt(c, w, es, i))
    && forall j: nat :: i < j < |es| ==> !PutsAt(c, w, es, j, name) && !StartsAt(c, w, es, j)
  }

  lemma PrefixSets(c: Cipher, w: World, es: seq<Event>, i: nat, name: string)
    requires i < |es| - 1
    ensures PutsAt(c, w, es[..|es| - 1], i, name) <==> PutsAt(c, w, es, i, name)
    ensures StartsAt(c, w, es[..|es| - 1], i) <==> StartsAt(c, w, es, i)
  {
    assert es[..|es| - 1][..i] == es[..i];
  }

  lemma PrefixLast(c: Cipher, w: World, es: seq<Event>, i: nat, name: string)
    requires LastSet(c, w, es, i, name) && i < |es| - 1
    ensures LastSet(c, w, es[..|es| - 1], i, name)
    ensures !PutsAt(c, w, es, |es| - 1, name) && !StartsAt(c, w, es, |es| - 1)
  {
    var head := es[..|es| - 1];
    PrefixSets(c, w, es, i, name);
    forall j: nat | i < j < |head| ensures !PutsAt(c, w, head, j, name) && !StartsAt(c, w, head, j) {
      PrefixSets(c, w, es, j, name);
    }
  }

  /** What call `i` left under `name`: what was stored, for a start, and else its fresh credential. */
  ghost predicate SetBy(c: Cipher, w: World, es: seq<Event>, i: nat, name: string, held: Option<PE.Credential>)
    requires i < |es| && (PutsAt(c, w, es, i, name) || StartsAt(c, w, es, i))
  {
    if StartsAt(c, w, es, i) then Loaded(Run(c, w, es[..i]).db, es[i].a.first, name, held)
    else held == Some(Fresh(c, es[i].a))
  }

  lemma SetNow(c: Cipher, w: World, es: seq<Event>, name: string)
    requires UniqueUsernames(w.db) && es != []
    requires PutsAt(c, w, es, |es| - 1, name) || StartsAt(c, w, es, |es| - 1)
    ensures SetBy(c, w, es, |es| - 1, name, Held(Run(c, w, es), name))
  {
    RunUniqueNames(c, w, es[..|es| - 1]);
    StepHeld(c, Run(c, w, es[..|es| - 1]), es[|es| - 1], name);
  }

  lemma HeldStays(c: Cipher, w: World, es: seq<Event>, name: string)
    requires UniqueUsernames(w.db) && es != []
    requires !PutsAt(c, w, es, |es| - 1, name) && !StartsAt(c, w, es, |es| - 1)
    ensures Held(Run(c, w, es), name) == Held(Run(c, w, es[..|es| - 1]), name)
  {
    RunUniqueNames(c, w, es[..|es| - 1]);
    StepHeld(c, Run(c, w, es[..|es| - 1]), es[|es| - 1], name);
  }

  /** What memory holds at the end of a run is what the last such call put there. */
  lemma {:induction false} RunHeld(c: Cipher, w: World, es: seq<Event>, i: nat, name: string)
    requires UniqueUsernames(w.db) && LastSet(c, w, es, i, name)
    ensures SetBy(c, w, es, i, name, Held(Run(c, w, es), name))
  {
    if i == |es| - 1 {
      SetNow(c, w, es, name);
    } else {
      var head := es[..|es| - 1];
      PrefixLast(c, w, es, i, name);
      RunHeld(c, w, head, i, name);
      HeldStays(c, w, es, name);
      PrefixSets(c, w, es, i, name);
      assert head[..i] == es[..i];
    }
  }

  /** The passwords that log in under `name`, and the key they log in with. */
  ghost predicate Decides(c: Cipher, auth: A.AuthState, name: string, record: PE.Credential) {
    forall q: bytes, key: bytes :: c.utf8(q) ==>
      && (A.DeriveKeyIfValid(c, auth, name, q) == Ok(Some(key)) <==>
            c.kdf(q, record.salt) == Some(key) && key == record.hash)
      && (A.DeriveKeyIfValid(c, auth, name, q) == Ok(None) <==>
            c.kdf(q, record.salt).Some? && c.kdf(q, record.salt).value != record.hash)
  }

  lemma HeldDecides(c: Cipher, w: World, name: string, record: PE.Credential)
    requires Held(w, name) == Some(record) && !w.auth.shutdown
    ensures Decides(c, w.auth, name, record)
  {
    forall q: bytes, key: bytes | c.utf8(q)
      ensures A.DeriveKeyIfValid(c, w.auth, name, q) == Ok(Some(key)) <==>
        c.kdf(q, record.salt) == Some(key) && key == record.hash
      ensures A.DeriveKeyIfValid(c, w.auth, name, q) == Ok(None) <==>
        c.kdf(q, record.salt).Some? && c.kdf(q, record.salt).value != record.hash
    {
      A.DeriveExactly(c, w.auth, name, q, key);
    }
  }

  /** Main theorem. Over any run of any calls, complete or cut short, with the last creation, reset or change of a name
      at `i` and no start since: a password logs the bearer of the name in exactly if it derives, with the salt of that
      call, the key that the password of that call derives; then it yields that key, and every other password yields
      none. */
  lemma LatestPasswordLogsIn(c: Cipher, w: World, es: seq<Event>, i: nat, user: Uuid, q: bytes, key: bytes)
    requires UniqueUsernames(w.db) && user in Run(c, w, es).db.users
    requires LastSet(c, w, es, i, Run(c, w, es).db.users[user].username) && !StartsAt(c, w, es, i)
    requires !Run(c, w, es).auth.shutdown && c.utf8(q)
    ensures var final, record := Run(c, w, es), Fresh(c, es[i].a);
      && (KA.Login(c, final, user, q) == Ok(Some(key)) <==> c.kdf(q, record.salt) == Some(key) && key == record.hash)
      && (KA.Login(c, final, user, q) == Ok(None) <==> c.kdf(q, record.salt) != Some(record.hash))
      && KA.Login(c, final, user, PasswordOf(es[i].a)) ==
           (if c.utf8(PasswordOf(es[i].a)) then Ok(Some(record.hash)) else Err(Validation))
  {
    var final, name := Run(c, w, es), Run(c, w, es).db.users[user].username;
    RunHeld(c, w, es, i, name);
    HeldDecides(c, final, name, Fresh(c, es[i].a));
  }

  /** The same with a start as the last such call: the envelope stored at that time decides. */
  lemma StoredPasswordLogsIn(c: Cipher, w: World, es: seq<Event>, i: nat, user: Uuid, u: Uuid, q: bytes, key: bytes)
    requires UniqueUsernames(w.db) && user in Run(c, w, es).db.users
    requires var name := Run(c, w, es).db.users[user].username;
      LastSet(c, w, es, i, name) && StartsAt(c, w, es, i) && Acc.HasEnvelopeFor(Run(c, w, es[..i]).db, u, name)
    requires !Run(c, w, es).auth.shutdown && c.utf8(q)
    ensures var final, before := Run(c, w, es), Run(c, w, es[..i]).db;
      if !Acc.LoadsEnvelopes(before, es[i].a.first) then KA.Login(c, final, user, q) == Ok(None)
      else
        && PE.Decode(before.users[u].envelope.value).Ok?
        && var record := PE.Decode(before.users[u].envelope.value).value;
        && (KA.Login(c, final, user, q) == Ok(Some(key)) <==> c.kdf(q, record.salt) == Some(key) && key == record.hash)
        && (KA.Login(c, final, user, q) == Ok(None) <==>
              c.kdf(q, record.salt).Some? && c.kdf(q, record.salt).value != record.hash)
  {
    var final, name := Run(c, w, es), Run(c, w, es).db.users[user].username;
    RunHeld(c, w, es, i, name);
    if Held(final, name).Some? {
      RunUniqueNames(c, w, es[..i]);
      HeldDecides(c, final, name, Held(final, name).value);
    }
  }

  /** Nobody without a credential in memory logs in. */
  lemma UnheldRefused(c: Cipher, w: World, name: string, q: bytes)
    requires Held(w, name) == None && !w.auth.shutdown && c.utf8(q)
    ensures A.DeriveKeyIfValid(c, w.auth, name, q) == Ok(None)
  {
  }

  // ---- shutting down ----

  ghost predicate SignalledAt(es: seq<Event>, i: nat)
    requires i < |es|
  {
    es[i] == OnAccount(Acc.SignalShutdownEv)
  }

  /** The flag was set by call `k` - 1, or from the start if `k` is 0, and no start has come up since. */
  ghost predicate DownSince(c: Cipher, w: World, es: seq<Event>, k: nat) {
    && k <= |es| && (if k == 0 then w.auth.shutdown else SignalledAt(es, k - 1))
    && NoStartFrom(c, w, es, k)
  }

  lemma PrefixDown(c: Cipher, w: World, es: seq<Event>, k: nat)
    requires es != [] && k < |es|
    ensures DownSince(c, w, es, k) <==> DownSince(c, w, es[..|es| - 1], k) && !StartsAt(c, w, es, |es| - 1)
  {
    PrefixUnstarted(c, w, es, k);
    if k > 0 { assert es[..|es| - 1][k - 1] == es[k - 1]; }
  }

  /** Over any run the services are shutting down exactly if that was signalled and no start has come up since. */
  lemma {:induction false} RunShutdown(c: Cipher, w: World, es: seq<Event>)
    requires UniqueUsernames(w.db)
    ensures Run(c, w, es).auth.shutdown <==> exists k: nat :: DownSince(c, w, es, k)
  {
    if es == [] {
      assert w.auth.shutdown <==> DownSince(c, w, es, 0);
    } else {
      var n := |es| - 1;
      RunUniqueNames(c, w, es[..n]);
      RunShutdown(c, w, es[..n]);
      StepHeld(c, Run(c, w, es[..n]), es[n], "");
      if SignalledAt(es, n) { assert DownSince(c, w, es, n + 1); }
      if k: nat :| DownSince(c, w, es, k) && k <= n { PrefixDown(c, w, es, k); }
      if k: nat :| DownSince(c, w, es[..n], k) { PrefixDown(c, w, es, k); }
    }
  }
}
