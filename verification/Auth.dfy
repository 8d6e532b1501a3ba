/** The in-memory credential service. */
module Auth {
  import opened Types
  import opened Text
  import opened Crypto
  import PE = PasswordEnvelope

  datatype AuthState = AuthState(credentials: map<string, PE.Credential>, shutdown: bool)

  function CreateUser(c: Cipher, a: AuthState, username: string, password: bytes, salt: Salt): (AuthState, Result<()>) {
    if a.shutdown then (a, Err(ShutdownInProgress))
    else if Trim(username) == [] then (a, Err(Validation))
    else if username in a.credentials then (a, Err(Conflict))
    else if !c.utf8(password) then (a, Err(Validation))
    else (a.(credentials := a.credentials[username := PE.Credential(salt, c.kdf(password, salt).value)]), Ok(()))
  }

  function DeriveKeyIfValid(c: Cipher, a: AuthState, username: string, password: bytes): Result<Option<bytes>> {
    if a.shutdown then Err(ShutdownInProgress)
    else if !c.utf8(password) then Err(Validation)
    else if username !in a.credentials then Ok(None)
    else match c.kdf(password, a.credentials[username].salt)
      case None => Err(AppError.Crypto)
      case Some(hash) => Ok(if hash == a.credentials[username].hash then Some(hash) else None)
  }

  function ChangePassword(c: Cipher, a: AuthState, username: string, current: bytes, next: bytes, salt: Salt)
    : (AuthState, Result<()>)
  {
    if a.shutdown then (a, Err(ShutdownInProgress))
    else if current == next then (a, Err(Validation))
    else if !c.utf8(current) || !c.utf8(next) then (a, Err(Validation))
    else if username !in a.credentials then (a, Err(Denied))
    else match c.kdf(current, a.credentials[username].salt)
      case None => (a, Err(AppError.Crypto))
      case Some(hash) =>
        if hash != a.credentials[username].hash then (a, Err(Denied))
        else (a.(credentials := a.credentials[username := PE.Credential(salt, c.kdf(next, salt).value)]), Ok(()))
  }

  function UpsertEnvelope(a: AuthState, username: string, envelope: bytes): (AuthState, Result<()>) {
    if a.shutdown then (a, Err(ShutdownInProgress))
    else if Trim(username) == [] then (a, Err(Validation))
    else match PE.Decode(envelope)
      case Err(e) => (a, Err(e))
      case Ok(record) => (a.(credentials := a.credentials[username := record]), Ok(()))
  }

  function GetEnvelope(a: AuthState, username: string): Result<bytes> {
    if a.shutdown then Err(ShutdownInProgress)
    else if username !in a.credentials then Err(Denied)
    else Ok(PE.Encode(a.credentials[username]))
  }

  /** A login hands out exactly the key its password derives, and only if that is the stored hash; any other password
      that derives, and any unknown name, is answered with no key. */
  lemma DeriveExactly(c: Cipher, a: AuthState, username: string, password: bytes, key: bytes)
    ensures DeriveKeyIfValid(c, a, username, password) == Ok(Some(key)) <==>
      && !a.shutdown && c.utf8(password) && username in a.credentials
      && c.kdf(password, a.credentials[username].salt) == Some(key) && key == a.credentials[username].hash
    ensures DeriveKeyIfValid(c, a, username, password) == Ok(None) <==>
      && !a.shutdown && c.utf8(password)
      && (username in a.credentials ==>
            && c.kdf(password, a.credentials[username].salt).Some?
            && c.kdf(password, a.credentials[username].salt).value != a.credentials[username].hash)
  {
  }

  /** When the credential of a name is replaced, and by what; no other name's credential changes. */
  lemma RegisterExactly(c: Cipher, a: AuthState, username: string, password: bytes, salt: Salt)
    ensures var (after, r) := CreateUser(c, a, username, password, salt);
      && (r.Ok? <==> !a.shutdown && Trim(username) != [] && username !in a.credentials && c.utf8(password))
      && (r.Err? ==> after == a)
      && (r.Ok? ==> HoldsOnly(a, after, username, PE.Credential(salt, c.kdf(password, salt).value)))
  {
  }

  lemma ChangeExactly(c: Cipher, a: AuthState, username: string, current: bytes, next: bytes, salt: Salt)
    ensures var (after, r) := ChangePassword(c, a, username, current, next, salt);
      && (r.Ok? <==>
            && current != next && c.utf8(next) && username in a.credentials
            && exists key :: DeriveKeyIfValid(c, a, username, current) == Ok(Some(key)))
      && (r.Err? ==> after == a)
      && (r.Ok? ==> HoldsOnly(a, after, username, PE.Credential(salt, c.kdf(next, salt).value)))
  {
    if username in a.credentials { DeriveExactly(c, a, username, current, a.credentials[username].hash); }
  }

  /** What is imported is what the envelope decodes to; what is handed out decodes to what is held. */
  lemma UpsertExactly(a: AuthState, username: string, envelope: bytes)
    ensures var (after, r) := UpsertEnvelope(a, username, envelope);
      && (r.Ok? <==> !a.shutdown && Trim(username) != [] && PE.Decode(envelope).Ok?)
      && (r.Err? ==> after == a)
      && (r.Ok? ==>
            && HoldsOnly(a, after, username, PE.Decode(envelope).value)
            && GetEnvelope(after, username) == Ok(envelope))
  {
    if PE.Decode(envelope).Ok? { PE.EncodeDecode(envelope); }
  }

  ghost predicate HoldsOnly(before: AuthState, after: AuthState, username: string, record: PE.Credential) {
    && after.shutdown == before.shutdown
    && forall name ::
         if name == username then name in after.credentials && after.credentials[name] == record
         else
           && (name in after.credentials <==> name in before.credentials)
           && (name in before.credentials ==> after.credentials[name] == before.credentials[name])
  }

  /** Once shutting down, the service refuses every call and its state no longer changes. */
  lemma ShutdownRefuses(c: Cipher, a: AuthState, username: string, password: bytes, next: bytes, salt: Salt,
                        envelope: bytes)
    requires a.shutdown
    ensures CreateUser(c, a, username, password, salt) == (a, Err(ShutdownInProgress))
    ensures DeriveKeyIfValid(c, a, username, password) == Err(ShutdownInProgress)
    ensures ChangePassword(c, a, username, password, next, salt) == (a, Err(ShutdownInProgress))
    ensures UpsertEnvelope(a, username, envelope) == (a, Err(ShutdownInProgress))
    ensures GetEnvelope(a, username) == Err(ShutdownInProgress)
  {
  }

  /** Exclusive or of two unsigned numbers, bit by bit. */
  function Xor(x: nat, y: nat): (z: nat)
    ensures z == 0 <==> x == y
  {
    if x == 0 && y == 0 then 0
    else (if x % 2 == y % 2 then 0 else 1) + 2 * Xor(x / 2, y / 2)
  }

  /** Inclusive or of two unsigned numbers, bit by bit. */
  function Or(x: nat, y: nat): (z: nat)
    ensures z == 0 <==> x == 0 && y == 0
  {
    if x == 0 && y == 0 then 0
    else (if x % 2 == 1 || y % 2 == 1 then 1 else 0) + 2 * Or(x / 2, y / 2)
  }

  /** Equality of byte strings, looking at every position whatever the outcome. */
  method ConstantTimeEq(left: bytes, right: bytes) returns (equal: bool)
    ensures equal <==> left == right
  {
    if |left| != |right| {
      return false;
    }
    var diff: nat := 0;
    var index := 0;
    while index < |left|
      invariant 0 <= index <= |left|
      invariant diff == 0 <==> left[..index] == right[..index]
    {
      assert left[..index + 1] == left[..index] + [left[index]];
      assert right[..index + 1] == right[..index] + [right[index]];
      diff := Or(diff, Xor(left[index], right[index]));
      index := index + 1;
    }
    assert left[..index] == left && right[..index] == right;
    return diff == 0;
  }

  class AuthService {
    const c: Cipher
    var credentials: map<string, PE.Credential>
    var shutdown: bool

    function State(): AuthState
      reads this
    {
      AuthState(credentials, shutdown)
    }

    constructor (c: Cipher)
      ensures this.c == c && State() == AuthState(map[], false)
    {
      this.c := c;
      credentials := map[];
      shutdown := false;
    }

    method Register(username: string, password: bytes, salt: Salt) returns (r: Result<()>)
      modifies this
      ensures (State(), r) == CreateUser(c, old(State()), username, password, salt)
    {
      if shutdown { return Err(ShutdownInProgress); }
      if Trim(username) == [] { return Err(Validation); }
      if username in credentials { return Err(Conflict); }
      if !c.utf8(password) { return Err(Validation); }
      credentials := credentials[username := PE.Credential(salt, c.kdf(password, salt).value)];
      return Ok(());
    }

    method DeriveKey(username: string, password: bytes) returns (r: Result<Option<bytes>>)
      ensures r == DeriveKeyIfValid(c, State(), username, password)
    {
      if shutdown { return Err(ShutdownInProgress); }
      if !c.utf8(password) { return Err(Validation); }
      if username !in credentials { return Ok(None); }
      match c.kdf(password, credentials[username].salt) {
        case None => return Err(AppError.Crypto);
        case Some(hash) =>
          var same := ConstantTimeEq(hash, credentials[username].hash);
          return Ok(if same then Some(hash) else None);
      }
    }

    method Change(username: string, current: bytes, next: bytes, salt: Salt) returns (r: Result<()>)
      modifies this
      ensures (State(), r) == ChangePassword(c, old(State()), username, current, next, salt)
    {
      if shutdown { return Err(ShutdownInProgress); }
      var unchangedPassword := ConstantTimeEq(current, next);
      if unchangedPassword { return Err(Validation); }
      if !c.utf8(current) || !c.utf8(next) { return Err(Validation); }
      if username !in credentials { return Err(Denied); }
      match c.kdf(current, credentials[username].salt) {
        case None => return Err(AppError.Crypto);
        case Some(hash) =>
          var same := ConstantTimeEq(hash, credentials[username].hash);
          if !same { return Err(Denied); }
          credentials := credentials[username := PE.Credential(salt, c.kdf(next, salt).value)];
          return Ok(());
      }
    }

    method Upsert(username: string, envelope: bytes) returns (r: Result<()>)
      modifies this
      ensures (State(), r) == UpsertEnvelope(old(State()), username, envelope)
    {
      if shutdown { return Err(ShutdownInProgress); }
      if Trim(username) == [] { return Err(Validation); }
      match PE.Decode(envelope) {
        case Err(e) => return Err(e);
        case Ok(record) =>
          credentials := credentials[username := record];
          return Ok(());
      }
    }

    method SignalShutdown()
      modifies this
      ensures State() == old(State()).(shutdown := true)
    {
      shutdown := true;
    }
  }
}
