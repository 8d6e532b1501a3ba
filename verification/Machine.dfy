/** The whole application as a state machine: one event per service call, run to completion or to its first error. */
module Machine {
  import opened Types
  import opened Crypto
  import opened Store
  import Acc = Accounts
  import T = Teams
  import V = Vaults
  import S = Secrets

  type World = Acc.World

  datatype TeamEvent =
    | CreateTeam(creator: Uuid, id: Uuid, name: string, writes: nat)
    | DeleteTeam(requester: Uuid, team: Uuid, writes: nat)
    | AddMember(requester: Uuid, team: Uuid, user: Uuid, role: TeamRole, writes: nat)
    | RemoveMember(requester: Uuid, team: Uuid, user: Uuid, writes: nat)
    | Grant(granter: Uuid, vault: Uuid, recipient: Uuid, vaultKey: bytes, recipientKey: bytes, nonce: Nonce,
            writes: nat)
    | Share(q: T.ShareRequest, rows: seq<Uuid>, nonces: Uuid -> Nonce, writes: nat)
    | Revoke(vault: Uuid, user: Uuid, writes: nat)
    | Rotate(actor: Uuid, vault: Uuid, ownerEnvelope: bytes, entries: seq<T.KeyShare>, writes: nat)

  datatype VaultEvent =
    | CreateVault(owner: Uuid, name: string, masterKey: bytes, id: Uuid, vaultKey: bytes, nonce: Nonce, writes: nat)
    | DeleteVault(requester: Uuid, vault: Uuid, now: int, writes: nat)

  datatype SecretEvent =
    | CreateSecret(id: Uuid, vault: Uuid, kind: SecretKind, text: bytes, vaultKey: bytes, nonce: Nonce, writes: nat)
    | UpdateSecret(id: Uuid, text: bytes, vaultKey: bytes, nonce: Nonce, writes: nat)
    | SoftDelete(id: Uuid, now: int, writes: nat)
    | Restore(id: Uuid, vault: Uuid, writes: nat)
    | PermanentDelete(id: Uuid, vault: Uuid, writes: nat)
    | EmptyTrash(vault: Uuid, writes: nat)

  datatype Event = OnAccount(a: Acc.Event) | OnTeam(t: TeamEvent) | OnVault(v: VaultEvent) | OnSecret(s: SecretEvent)

  ghost function TeamStep(c: Cipher, db: Db, e: TeamEvent): Db {
    match e
    case CreateTeam(creator, id, name, writes) => T.CreateTeam(db, creator, id, name, writes).0
    case DeleteTeam(requester, team, writes) => T.DeleteTeam(db, requester, team, writes).0
    case AddMember(requester, team, user, role, writes) => T.AddMember(db, requester, team, user, role, writes).0
    case RemoveMember(requester, team, user, writes) => T.RemoveMember(db, requester, team, user, writes).0
    case Grant(granter, vault, recipient, vaultKey, recipientKey, nonce, writes) =>
      T.GrantVaultAccess(c, db, granter, vault, recipient, vaultKey, recipientKey, nonce, writes).0
    case Share(q, rows, nonces, writes) => T.ShareVaultWithTeam(c, db, q, rows, nonces, writes).0
    case Revoke(vault, user, writes) => T.RevokeVaultAccess(db, vault, user, writes).0
    case Rotate(actor, vault, ownerEnvelope, entries, writes) =>
      T.RotateVaultKey(db, actor, vault, ownerEnvelope, entries, writes).0
  }

  ghost function VaultStep(c: Cipher, db: Db, e: VaultEvent): Db {
    match e
    case CreateVault(owner, name, masterKey, id, vaultKey, nonce, writes) =>
      V.CreateVault(c, db, owner, name, masterKey, id, vaultKey, nonce, writes).0
    case DeleteVault(requester, vault, now, writes) => V.DeleteVault(db, requester, vault, now, writes).0
  }

  ghost function SecretStep(c: Cipher, db: Db, e: SecretEvent): Db {
    match e
    case CreateSecret(id, vault, kind, text, vaultKey, nonce, writes) =>
      S.CreateSecret(c, db, id, vault, kind, text, vaultKey, nonce, writes).0
    case UpdateSecret(id, text, vaultKey, nonce, writes) => S.UpdateSecret(c, db, id, text, vaultKey, nonce, writes).0
    case SoftDelete(id, now, writes) => S.SoftDelete(db, id, now, writes).0
    case Restore(id, vault, writes) => S.RestoreSecret(db, id, vault, writes).0
    case PermanentDelete(id, vault, writes) => S.PermanentDelete(db, id, vault, writes).0
    case EmptyTrash(vault, writes) => S.EmptyTrash(db, vault, writes).0
  }

  ghost function Step(c: Cipher, w: World, e: Event): World {
    match e
    case OnAccount(a) => Acc.Step(c, w, a)
    case OnTeam(t) => w.(db := TeamStep(c, w.db, t))
    case OnVault(v) => w.(db := VaultStep(c, w.db, v))
    case OnSecret(s) => w.(db := SecretStep(c, w.db, s))
  }

  /** The database answers truthfully: the member listing of a team share, and the first administrator row at a start.
      Every other event is always possible. */
  ghost predicate Possible(db: Db, e: Event) {
    && (e.OnTeam? && e.t.Share? ==> T.ListsMembers(db, e.t.q.team, e.t.rows))
    && (e.OnAccount? && e.a.RestartEv? ==> Acc.AnswersFirstAdmin(db, e.a.first))
  }

  ghost function Run(c: Cipher, w: World, es: seq<Event>): World {
    if es == [] then w else Step(c, Run(c, w, es[..|es| - 1]), es[|es| - 1])
  }

  ghost predicate PossibleRun(c: Cipher, w: World, es: seq<Event>) {
    forall i :: 0 <= i < |es| ==> Possible(Run(c, w, es[..i]).db, es[i])
  }

  // ---- frames ----

  lemma TeamStepFrame(c: Cipher, db: Db, e: TeamEvent)
    ensures var db' := TeamStep(c, db, e);
      && db'.users == db.users && db'.secrets == db.secrets && db'.vaults.Keys == db.vaults.Keys
      && (forall v :: v in db.vaults ==>
            db'.vaults[v].owner == db.vaults[v].owner && db'.vaults[v].deletedAt == db.vaults[v].deletedAt)
  {
  }

  lemma VaultStepFrame(c: Cipher, db: Db, e: VaultEvent)
    ensures var db' := VaultStep(c, db, e); db' == db.(vaults := db'.vaults, secrets := db'.secrets)
  {
    match e
    case CreateVault(_, _, _, _, _, _, _) => CreatedVaultFrame(c, db, e);
    case DeleteVault(_, _, _, _) =>
  }

  lemma CreatedVaultFrame(c: Cipher, db: Db, e: VaultEvent)
    requires e.CreateVault?
    ensures var db' := VaultStep(c, db, e);
      && db' == db.(vaults := db'.vaults)
      && forall u :: u in db.vaults ==> u in db'.vaults && db'.vaults[u] == db.vaults[u]
  {
    V.CreateVaultAdds(c, db, e.owner, e.name, e.masterKey, e.id, e.vaultKey, e.nonce, e.writes);
  }

  lemma SecretStepFrame(c: Cipher, db: Db, e: SecretEvent)
    ensures var db' := SecretStep(c, db, e); db' == db.(vaults := db'.vaults, secrets := db'.secrets)
  {
  }

  // ---- agreement of credentials over runs ----

  lemma StepUniqueNames(c: Cipher, w: World, e: Event)
    requires UniqueUsernames(w.db)
    ensures UniqueUsernames(Step(c, w, e).db)
  {
    match e
    case OnAccount(a) => Acc.StepUniqueNames(c, w, a);
    case OnTeam(t) => TeamStepFrame(c, w.db, t);
    case OnVault(v) => VaultStepFrame(c, w.db, v);
    case OnSecret(s) => SecretStepFrame(c, w.db, s);
  }

  lemma {:induction false} RunUniqueNames(c: Cipher, w: World, es: seq<Event>)
    requires UniqueUsernames(w.db)
    ensures UniqueUsernames(Run(c, w, es).db)
  {
    if es != [] {
      RunUniqueNames(c, w, es[..|es| - 1]);
      StepUniqueNames(c, Run(c, w, es[..|es| - 1]), es[|es| - 1]);
    }
  }

  ghost predicate SettlesFor(c: Cipher, w: World, e: Event, u: Uuid)
    requires u in w.db.users
  {
    e.OnAccount? && Acc.Settles(c, w, e.a, u)
  }

  ghost predicate BreaksFor(c: Cipher, w: World, e: Event, u: Uuid)
    requires u in w.db.users
  {
    e.OnAccount? && Acc.Breaks(c, w, e.a, u)
  }

  lemma StepAgreementFor(c: Cipher, w: World, e: Event, u: Uuid)
    requires UniqueUsernames(w.db)
    ensures u !in w.db.users ==> Acc.AgreesFor(Step(c, w, e), u)
    ensures u in w.db.users ==>
      (Acc.AgreesFor(Step(c, w, e), u) <==>
        u !in Step(c, w, e).db.users || SettlesFor(c, w, e, u) || (Acc.AgreesFor(w, u) && !BreaksFor(c, w, e, u)))
  {
    match e
    case OnAccount(a) => Acc.StepAgreementFor(c, w, a, u);
    case OnTeam(t) => TeamStepFrame(c, w.db, t);
    case OnVault(v) => VaultStepFrame(c, w.db, v);
    case OnSecret(s) => SecretStepFrame(c, w.db, s);
  }

  /** After the first `k` calls row and memory of `u` certainly agree: the run started so, `u` is absent, or the last of
      these calls settled them. */
  ghost predicate Settled(c: Cipher, w: World, es: seq<Event>, k: nat, u: Uuid)
    requires k <= |es|
  {
    || (k == 0 && Acc.AgreesFor(w, u))
    || u !in Run(c, w, es[..k]).db.users
    || (k > 0 && u in Run(c, w, es[..k - 1]).db.users && SettlesFor(c, Run(c, w, es[..k - 1]), es[k - 1], u))
  }

  /** Call `i` breaks `u`'s row and memory apart. */
  ghost predicate BrokenAt(c: Cipher, w: World, es: seq<Event>, i: nat, u: Uuid)
    requires i < |es|
  {
    u in Run(c, w, es[..i]).db.users && BreaksFor(c, Run(c, w, es[..i]), es[i], u)
  }

  /** The calls from the `k`-th on do not. */
  ghost predicate UnbrokenFrom(c: Cipher, w: World, es: seq<Event>, k: nat, u: Uuid) {
    forall i: nat :: k <= i < |es| ==> !BrokenAt(c, w, es, i, u)
  }

  ghost predicate Sound(c: Cipher, w: World, es: seq<Event>, u: Uuid) {
    exists k: nat :: k <= |es| && Settled(c, w, es, k, u) && UnbrokenFrom(c, w, es, k, u)
  }

  lemma PrefixSettled(c: Cipher, w: World, es: seq<Event>, u: Uuid, k: nat)
    requires es != [] && k < |es|
    ensures Settled(c, w, es[..|es| - 1], k, u) <==> Settled(c, w, es, k, u)
  {
    var head := es[..|es| - 1];
    assert head[..k] == es[..k];
    if k > 0 { assert head[..k - 1] == es[..k - 1] && head[k - 1] == es[k - 1]; }
  }

  lemma PrefixBroken(c: Cipher, w: World, es: seq<Event>, u: Uuid, i: nat)
    requires es != [] && i < |es| - 1
    ensures BrokenAt(c, w, es[..|es| - 1], i, u) <==> BrokenAt(c, w, es, i, u)
  {
    assert es[..|es| - 1][..i] == es[..i];
  }

  lemma PrefixUnbroken(c: Cipher, w: World, es: seq<Event>, u: Uuid, k: nat)
    requires es != [] && k < |es|
    ensures UnbrokenFrom(c, w, es, k, u) <==>
      UnbrokenFrom(c, w, es[..|es| - 1], k, u) && !BrokenAt(c, w, es, |es| - 1, u)
  {
    var head := es[..|es| - 1];
    forall i: nat | k <= i < |head| ensures BrokenAt(c, w, head, i, u) <==> BrokenAt(c, w, es, i, u) {
      PrefixBroken(c, w, es, u, i);
    }
  }

  /** One more call: it settles the user, or leaves a sound user unbroken. */
  lemma SoundExtends(c: Cipher, w: World, es: seq<Event>, u: Uuid)
    requires es != []
    ensures var prev := Run(c, w, es[..|es| - 1]);
      Sound(c, w, es, u) <==>
        || u !in Run(c, w, es).db.users
        || (u in prev.db.users && SettlesFor(c, prev, es[|es| - 1], u))
        || (Sound(c, w, es[..|es| - 1], u) && (u in prev.db.users ==> !BreaksFor(c, prev, es[|es| - 1], u)))
  {
    var n := |es| - 1;
    var head := es[..n];
    assert es[..n + 1] == es && UnbrokenFrom(c, w, es, n + 1, u);
    if k: nat :| k <= n + 1 && Settled(c, w, es, k, u) && UnbrokenFrom(c, w, es, k, u) {
      if k <= n {
        PrefixSettled(c, w, es, u, k);
        PrefixUnbroken(c, w, es, u, k);
      }
    }
    if k: nat :| k <= n && Settled(c, w, head, k, u) && UnbrokenFrom(c, w, head, k, u) {
      PrefixSettled(c, w, es, u, k);
      PrefixUnbroken(c, w, es, u, k);
    }
  }

  /** Main result. Over any run of any calls, a user's stored envelope decodes to the credential in memory exactly if
      nothing broke them apart since they were last settled: by a loading start or by a replacement that reached the
      row. */
  lemma {:induction false} RunAgreementExactly(c: Cipher, w: World, es: seq<Event>, u: Uuid)
    requires UniqueUsernames(w.db)
    ensures Acc.AgreesFor(Run(c, w, es), u) <==> Sound(c, w, es, u)
  {
    if es == [] {
      assert es[..0] == es;
      assert UnbrokenFrom(c, w, es, 0, u);
    } else {
      var head := es[..|es| - 1];
      RunUniqueNames(c, w, head);
      RunAgreementExactly(c, w, head, u);
      StepAgreementFor(c, Run(c, w, head), es[|es| - 1], u);
      SoundExtends(c, w, es, u);
    }
  }

  // ---- names in memory without a row, over runs ----

  ghost predicate Strands(c: Cipher, w: World, e: Event, name: string) {
    e.OnAccount? && Acc.StrandsName(c, w, e.a, name)
  }

  ghost predicate StartsAt(c: Cipher, w: World, es: seq<Event>, i: nat)
    requires i < |es|
  {
    es[i].OnAccount? && Acc.Starts(Run(c, w, es[..i]), es[i].a)
  }

  lemma StepRowless(c: Cipher, w: World, e: Event, name: string)
    requires UniqueUsernames(w.db)
    ensures Acc.Rowless(Step(c, w, e), name) <==>
      Strands(c, w, e, name) || (Acc.Rowless(w, name) && !(e.OnAccount? && Acc.Starts(w, e.a)))
  {
    match e
    case OnAccount(a) => Acc.StepRowless(c, w, a, name);
    case OnTeam(t) => TeamStepFrame(c, w.db, t);
    case OnVault(v) => VaultStepFrame(c, w.db, v);
    case OnSecret(s) => SecretStepFrame(c, w.db, s);
  }

  /** After the first `k` calls the name was without a row, and no later start forgot it. */
  ghost predicate StrandedSince(c: Cipher, w: World, es: seq<Event>, k: nat, name: string) {
    && k <= |es|
    && (if k == 0 then Acc.Rowless(w, name) else Strands(c, Run(c, w, es[..k - 1]), es[k - 1], name))
    && NoStartFrom(c, w, es, k)
  }

  ghost predicate Stranded(c: Cipher, w: World, es: seq<Event>, name: string) {
    exists k: nat :: StrandedSince(c, w, es, k, name)
  }

  lemma PrefixStranded(c: Cipher, w: World, es: seq<Event>, k: nat, name: string)
    requires es != [] && k < |es|
    ensures StrandedSince(c, w, es, k, name) <==>
      StrandedSince(c, w, es[..|es| - 1], k, name) && !StartsAt(c, w, es, |es| - 1)
  {
    var head := es[..|es| - 1];
    PrefixUnstarted(c, w, es, k);
    if k > 0 { assert head[..k - 1] == es[..k - 1] && head[k - 1] == es[k - 1]; }
  }

  ghost predicate NoStartFrom(c: Cipher, w: World, es: seq<Event>, k: nat) {
    forall i: nat :: k <= i < |es| ==> !StartsAt(c, w, es, i)
  }

  lemma PrefixStarts(c: Cipher, w: World, es: seq<Event>, i: nat)
    requires i < |es| - 1
    ensures StartsAt(c, w, es[..|es| - 1], i) <==> StartsAt(c, w, es, i)
  {
    assert es[..|es| - 1][..i] == es[..i];
  }

  lemma PrefixUnstarted(c: Cipher, w: World, es: seq<Event>, k: nat)
    requires es != [] && k < |es|
    ensures NoStartFrom(c, w, es, k) <==> NoStartFrom(c, w, es[..|es| - 1], k) && !StartsAt(c, w, es, |es| - 1)
  {
    var head := es[..|es| - 1];
    forall i: nat | i < |head| ensures StartsAt(c, w, head, i) <==> StartsAt(c, w, es, i) { PrefixStarts(c, w, es, i); }
  }

  /** Over any run, memory holds a credential under a name without a row exactly if a call stranded the name, or it
      started so, and no start has come up since. */
  lemma {:induction false} RunRowless(c: Cipher, w: World, es: seq<Event>, name: string)
    requires UniqueUsernames(w.db)
    ensures Acc.Rowless(Run(c, w, es), name) <==> Stranded(c, w, es, name)
  {
    if es == [] {
      assert Acc.Rowless(w, name) <==> StrandedSince(c, w, es, 0, name);
    } else {
      var n := |es| - 1;
      var head := es[..n];
      RunUniqueNames(c, w, head);
      RunRowless(c, w, head, name);
      StepRowless(c, Run(c, w, head), es[n], name);
      StrandedExtends(c, w, es, name);
    }
  }

  lemma StrandedExtends(c: Cipher, w: World, es: seq<Event>, name: string)
    requires es != []
    ensures var head := es[..|es| - 1];
      Stranded(c, w, es, name) <==>
        || Strands(c, Run(c, w, head), es[|es| - 1], name)
        || (Stranded(c, w, head, name) && !StartsAt(c, w, es, |es| - 1))
  {
    var n := |es| - 1;
    var head := es[..n];
    if Strands(c, Run(c, w, head), es[n], name) { assert StrandedSince(c, w, es, n + 1, name); }
    if k: nat :| StrandedSince(c, w, es, k, name) {
      if k <= n { PrefixStranded(c, w, es, k, name); }
    }
    if k: nat :| StrandedSince(c, w, head, k, name) { PrefixStranded(c, w, es, k, name); }
  }

  ghost predicate Tears(c: Cipher, w: World, e: Event) {
    e.OnAccount? && Acc.Tears(c, w, e.a)
  }

  ghost predicate NeverTears(c: Cipher, w: World, es: seq<Event>) {
    forall i :: 0 <= i < |es| ==> !Tears(c, Run(c, w, es[..i]), es[i])
  }

  lemma StepAgreement(c: Cipher, w: World, e: Event)
    requires UniqueUsernames(w.db) && Acc.Agree(w)
    ensures UniqueUsernames(Step(c, w, e).db)
    ensures Acc.Agree(Step(c, w, e)) <==> !Tears(c, w, e)
  {
    match e
    case OnAccount(a) => Acc.StepAgreement(c, w, a);
    case OnTeam(t) => TeamStepFrame(c, w.db, t); SameAccounts(w, Step(c, w, e));
    case OnVault(v) => VaultStepFrame(c, w.db, v); SameAccounts(w, Step(c, w, e));
    case OnSecret(s) => SecretStepFrame(c, w.db, s); SameAccounts(w, Step(c, w, e));
  }

  lemma SameAccounts(w: World, w': World)
    requires Acc.Agree(w) && w'.db.users == w.db.users && w'.auth == w.auth
    ensures Acc.Agree(w')
  {
    forall u | u in w'.db.users ensures Acc.AgreesFor(w', u) { assert Acc.AgreesFor(w, u); }
  }

  /** From any agreement on, a run in which no call breaks a user's row and memory apart keeps it for all users. */
  lemma {:induction false} RunAgreement(c: Cipher, w: World, es: seq<Event>)
    requires UniqueUsernames(w.db) && Acc.Agree(w) && NeverTears(c, w, es)
    ensures UniqueUsernames(Run(c, w, es).db) && Acc.Agree(Run(c, w, es))
  {
    if es != [] {
      var k := |es| - 1;
      assert forall i :: 0 <= i <= k ==> es[..k][..i] == es[..i];
      RunAgreement(c, w, es[..k]);
      StepAgreement(c, Run(c, w, es[..k]), es[k]);
    }
  }

  lemma PrefixRun(c: Cipher, w: World, es: seq<Event>, k: nat)
    requires k <= |es| && PossibleRun(c, w, es)
    ensures PossibleRun(c, w, es[..k])
    ensures forall i :: 0 <= i <= k ==> es[..k][..i] == es[..i]
  {
    assert forall i :: 0 <= i <= k ==> es[..k][..i] == es[..i];
  }

  // ---- teams ----

  lemma TeamStepTeams(c: Cipher, db: Db, e: TeamEvent)
    requires T.WellFormedTeams(db)
    ensures T.WellFormedTeams(TeamStep(c, db, e))
  {
    match e
    case CreateTeam(creator, id, name, writes) => T.CreateTeamOutcome(db, creator, id, name, writes);
    case _ =>
  }

  lemma AccountStepTeams(c: Cipher, w: World, a: Acc.Event)
    requires T.WellFormedTeams(w.db)
    ensures T.WellFormedTeams(Acc.Step(c, w, a).db)
  {
    match a
    case DeleteUserEv(actor, target, writes) =>
    case UpdateRoleEv(actor, target, role, writes) =>
    case ResetPasswordEv(actor, target, password, salt, writes) =>
      assert Acc.TouchesOneAccount(w, Acc.Step(c, w, a), target);
    case ChangePasswordEv(user, current, next, salt, writes) =>
      assert Acc.TouchesOneAccount(w, Acc.Step(c, w, a), user);
    case _ => assert Acc.KeepsUsers(w.db, Acc.Step(c, w, a).db);
  }

  /** Over any run team names stay unique and memberships belong to existing teams. */
  lemma {:induction false} RunTeams(c: Cipher, w: World, es: seq<Event>)
    requires T.WellFormedTeams(w.db)
    ensures T.WellFormedTeams(Run(c, w, es).db)
  {
    if es != [] {
      var prev := Run(c, w, es[..|es| - 1]);
      RunTeams(c, w, es[..|es| - 1]);
      match es[|es| - 1]
      case OnAccount(a) => AccountStepTeams(c, prev, a);
      case OnTeam(t) => TeamStepTeams(c, prev.db, t);
      case OnVault(v) => VaultStepFrame(c, prev.db, v);
      case OnSecret(s) => SecretStepFrame(c, prev.db, s);
    }
  }

  // ---- foreign keys ----

  /** The shares alone differ, and those that do resolve. */
  lemma SharesKeepReferences(db: Db, after: Db)
    requires References(db) && after == db.(shares := after.shares) && SharesResolve(after)
    ensures References(after)
  {
  }

  lemma ShareOneResolves(c: Cipher, db: Db, q: T.ShareRequest, user: Uuid, nonce: Nonce, t: T.Tally, writes: nat)
    requires SharesResolve(db)
    ensures SharesResolve(T.ShareOne(c, db, q, user, nonce, t, writes).0)
  {
  }

  lemma {:induction false} SharePassResolves(c: Cipher, db: Db, q: T.ShareRequest, rows: seq<Uuid>,
                                             nonces: Uuid -> Nonce,
                                             writes: nat)
    requires SharesResolve(db)
    ensures SharesResolve(T.ShareMembers(c, db, q, rows, nonces, writes).0)
  {
    if rows != [] {
      var k := |rows| - 1;
      SharePassResolves(c, db, q, rows[..k], nonces, writes);
      var (mid, r) := T.ShareMembers(c, db, q, rows[..k], nonces, writes);
      if r.Ok? { ShareOneResolves(c, mid, q, rows[k], nonces(rows[k]), r.value, writes); }
    }
  }

  lemma RotationResolves(db: Db, e: TeamEvent)
    requires References(db) && e.Rotate?
    ensures References(T.RotateVaultKey(db, e.actor, e.vault, e.ownerEnvelope, e.entries, e.writes).0)
  {
    var after := T.RotateVaultKey(db, e.actor, e.vault, e.ownerEnvelope, e.entries, e.writes).0;
    T.RotatedShares(db, e.actor, e.vault, e.ownerEnvelope, e.entries, e.writes);
    if e.writes >= 1 && T.Insertable(db, e.vault, e.entries) {
      ReplacedResolve(db, after, e.vault, e.entries, e.actor);
    }
  }

  lemma ReplacedResolve(db: Db, after: Db, vault: Uuid, entries: seq<T.KeyShare>, actor: Uuid)
    requires SharesResolve(db) && T.Insertable(db, vault, entries)
    requires T.Replaces(db.shares, vault, entries, actor, after.shares)
    requires after == db.(shares := after.shares, vaults := after.vaults) && after.vaults.Keys == db.vaults.Keys
    ensures SharesResolve(after)
  {
    forall s: (Uuid, Uuid) | s in after.shares
      ensures s.0 in after.vaults && s.1 in after.users
      ensures after.shares[s].viaTeam.Some? ==> after.shares[s].viaTeam.value in after.teams
    {
      if s.0 == vault {
        var i :| 0 <= i < |entries| && entries[i].user == s.1;
        assert T.Resolves(db, vault, entries[i]);
        assert s == (vault, entries[i].user);
      }
    }
  }

  lemma TeamStepReferences(c: Cipher, db: Db, e: TeamEvent)
    requires References(db)
    ensures References(TeamStep(c, db, e))
  {
    match e
    case Share(q, rows, nonces, writes) =>
      SharePassResolves(c, db, q, rows, nonces, writes);
      SharesKeepReferences(db, TeamStep(c, db, e));
    case Rotate(_, _, _, _, _) => RotationResolves(db, e);
    case DeleteTeam(_, team, _) => PurgeTeamReferences(db, team);
    case Grant(_, _, _, _, _, _, _) => SharesKeepReferences(db, TeamStep(c, db, e));
    case Revoke(_, _, _) => SharesKeepReferences(db, TeamStep(c, db, e));
    case CreateTeam(_, _, _, _) => CreatedTeamReferences(c, db, e);
    case AddMember(_, _, _, _, _) => AddedMemberReferences(c, db, e);
    case RemoveMember(_, _, _, _) => RemovalReferences(c, db, e);
  }

  lemma CreatedTeamReferences(c: Cipher, db: Db, e: TeamEvent)
    requires References(db) && e.CreateTeam?
    ensures References(TeamStep(c, db, e))
  {
    T.CreateTeamStates(db, e.creator, e.id, e.name, e.writes);
  }

  lemma AddedMemberReferences(c: Cipher, db: Db, e: TeamEvent)
    requires References(db) && e.AddMember?
    ensures References(TeamStep(c, db, e))
  {
  }

  lemma RemovalReferences(c: Cipher, db: Db, e: TeamEvent)
    requires References(db) && e.RemoveMember?
    ensures References(TeamStep(c, db, e))
  {
  }

  lemma AccountStepReferences(c: Cipher, w: World, a: Acc.Event)
    requires References(w.db)
    ensures References(Acc.Step(c, w, a).db)
  {
    match a
    case DeleteUserEv(actor, target, writes) =>
      Acc.DeletesExactly(w, actor, target, writes);
      PurgeUserReferences(w.db, target);
    case UpdateRoleEv(actor, target, role, writes) => Acc.RoleExactly(w, actor, target, role, writes);
    case ResetPasswordEv(_, target, _, _, _) => assert Acc.TouchesOneAccount(w, Acc.Step(c, w, a), target);
    case ChangePasswordEv(user, _, _, _, _) => assert Acc.TouchesOneAccount(w, Acc.Step(c, w, a), user);
    case _ => assert Acc.KeepsUsers(w.db, Acc.Step(c, w, a).db);
  }

  lemma VaultStepReferences(c: Cipher, db: Db, v: VaultEvent)
    requires References(db)
    ensures References(VaultStep(c, db, v))
  {
    match v
    case CreateVault(owner, name, masterKey, id, vaultKey, nonce, writes) =>
      V.CreateVaultAdds(c, db, owner, name, masterKey, id, vaultKey, nonce, writes);
      if VaultStep(c, db, v) != db { CreatedForUser(c, db, v); }
    case DeleteVault(requester, vault, now, writes) =>
      V.DeletesExactly(c, db, requester, vault, now, writes, requester, []);
  }

  lemma CreatedForUser(c: Cipher, db: Db, v: VaultEvent)
    requires v.CreateVault? && VaultStep(c, db, v) != db
    ensures v.owner in db.users
  {
  }

  lemma SecretStepReferences(c: Cipher, db: Db, s: SecretEvent)
    requires References(db)
    ensures References(SecretStep(c, db, s))
  {
  }

  /** Over any run from tables whose foreign keys all resolve, as in the empty ones, they all still resolve: every
      cascade reaches every row that would dangle, wherever a call was cut short. */
  lemma {:induction false} RunReferences(c: Cipher, w: World, es: seq<Event>)
    requires References(w.db)
    ensures References(Run(c, w, es).db)
  {
    if es != [] {
      var prev := Run(c, w, es[..|es| - 1]);
      RunReferences(c, w, es[..|es| - 1]);
      match es[|es| - 1]
      case OnAccount(a) => AccountStepReferences(c, prev, a);
      case OnTeam(t) => TeamStepReferences(c, prev.db, t);
      case OnVault(v) => VaultStepReferences(c, prev.db, v);
      case OnSecret(s) => SecretStepReferences(c, prev.db, s);
    }
  }

  // ---- administrators ----

  lemma DeleteUserKeepsAdmin(w: World, actor: Uuid, target: Uuid, writes: nat)
    requires Acc.AdminIds(w.db) != {}
    ensures Acc.AdminIds(Acc.DeleteUser(w, actor, target, writes).0.db) != {}
  {
    SurvivingAdmin(Acc.AdminIds(w.db), target, Acc.AdminIds(Acc.DeleteUser(w, actor, target, writes).0.db));
  }

  lemma UpdateRoleKeepsAdmin(w: World, actor: Uuid, target: Uuid, role: UserRole, writes: nat)
    requires Acc.AdminIds(w.db) != {}
    ensures Acc.AdminIds(Acc.UpdateUserRole(w, actor, target, role, writes).0.db) != {}
  {
    SurvivingAdmin(Acc.AdminIds(w.db), target, Acc.AdminIds(Acc.UpdateUserRole(w, actor, target, role, writes).0.db));
  }

  /** Losing at most `target`, and losing it only when it is not alone, leaves a non-empty set. */
  lemma SurvivingAdmin(before: set<Uuid>, target: Uuid, after: set<Uuid>)
    requires before != {} && before - {target} <= after
    requires |before| <= 1 && target in before ==> target in after
    ensures after != {}
  {
    if before - {target} == {} {
      assert before == {target};
    }
  }

  lemma AccountKeepsAdmin(c: Cipher, w: World, a: Acc.Event)
    requires Acc.AdminIds(w.db) != {}
    ensures Acc.AdminIds(Acc.Step(c, w, a).db) != {}
  {
    match a
    case DeleteUserEv(actor, target, writes) => DeleteUserKeepsAdmin(w, actor, target, writes);
    case UpdateRoleEv(actor, target, role, writes) => UpdateRoleKeepsAdmin(w, actor, target, role, writes);
    case _ =>
      var admin :| admin in Acc.AdminIds(w.db);
      assert Acc.KeepsUsers(w.db, Acc.Step(c, w, a).db);
      assert admin in Acc.AdminIds(Acc.Step(c, w, a).db);
  }

  /** A run that starts with an administrator always has one, whatever fails; and bootstrap succeeds only on an empty
      table. */
  lemma StepKeepsAdmin(c: Cipher, w: World, e: Event)
    requires Acc.AdminIds(w.db) != {}
    ensures Acc.AdminIds(Step(c, w, e).db) != {}
  {
    match e
    case OnAccount(a) => AccountKeepsAdmin(c, w, a);
    case OnTeam(t) => TeamStepFrame(c, w.db, t);
    case OnVault(v) => VaultStepFrame(c, w.db, v);
    case OnSecret(s) => SecretStepFrame(c, w.db, s);
  }

  lemma {:induction false} RunKeepsAdmin(c: Cipher, w: World, es: seq<Event>)
    requires Acc.AdminIds(w.db) != {}
    ensures Acc.AdminIds(Run(c, w, es).db) != {}
    ensures forall name, password, id, salt, writes ::
      Acc.BootstrapFirstAdmin(c, Run(c, w, es), name, password, id, salt, writes).1 == Err(Conflict)
  {
    if es != [] {
      var k := |es| - 1;
      RunKeepsAdmin(c, w, es[..k]);
      StepKeepsAdmin(c, Run(c, w, es[..k]), es[k]);
    }
    var admin :| admin in Acc.AdminIds(Run(c, w, es).db);
    assert admin in Run(c, w, es).db.users;
  }

  // ---- live secrets and deleted vaults ----

  ghost predicate NoOrphans(db: Db) {
    forall x :: S.SecretLive(db, x) ==> VaultLive(db, db.secrets[x].vault)
  }

  /** Storing a secret in a vault whose row is marked deleted, which the foreign key lets through. */
  ghost predicate CreatesInDeletedVault(c: Cipher, db: Db, e: Event) {
    && e.OnSecret? && e.s.CreateSecret? && e.s.vault in db.vaults && !VaultLive(db, e.s.vault)
    && e.s.id !in db.secrets && e.s.text != [] && |e.s.vaultKey| == AES_256_KEY_LEN && e.s.writes >= 1
  }

  lemma PurgeUserOrphans(db: Db, user: Uuid)
    requires NoOrphans(db)
    ensures NoOrphans(PurgeUser(db, user))
  {
    forall x | S.SecretLive(PurgeUser(db, user), x) ensures VaultLive(PurgeUser(db, user), db.secrets[x].vault) {
      assert S.SecretLive(db, x);
    }
  }

  lemma AccountStepOrphans(c: Cipher, w: World, a: Acc.Event)
    requires NoOrphans(w.db)
    ensures NoOrphans(Acc.Step(c, w, a).db)
  {
    match a
    case DeleteUserEv(actor, target, writes) => PurgeUserOrphans(w.db, target);
    case UpdateRoleEv(actor, target, role, writes) => SameVaultsAndSecrets(w.db, Acc.Step(c, w, a).db);
    case _ =>
      assert Acc.KeepsUsers(w.db, Acc.Step(c, w, a).db);
      SameVaultsAndSecrets(w.db, Acc.Step(c, w, a).db);
  }

  lemma SameVaultsAndSecrets(before: Db, after: Db)
    requires NoOrphans(before) && after.vaults == before.vaults && after.secrets == before.secrets
    ensures NoOrphans(after)
  {
    forall x | S.SecretLive(after, x) ensures VaultLive(after, after.secrets[x].vault) {
      assert S.SecretLive(before, x);
    }
  }

  lemma DeletedVaultOrphans(db: Db, vault: Uuid, now: int)
    requires NoOrphans(db) && V.DeleteVaultRow(db, vault, now).Ok?
    ensures NoOrphans(V.DeleteVaultRow(db, vault, now).value)
  {
    var db' := V.DeleteVaultRow(db, vault, now).value;
    forall x | S.SecretLive(db', x) ensures VaultLive(db', db'.secrets[x].vault) {
      assert S.SecretLive(db, x);
    }
  }

  lemma CreatedVaultOrphans(c: Cipher, db: Db, v: VaultEvent)
    requires NoOrphans(db) && v.CreateVault?
    ensures NoOrphans(VaultStep(c, db, v))
  {
    CreatedVaultFrame(c, db, v);
    MoreVaultsOrphans(db, VaultStep(c, db, v));
  }

  lemma MoreVaultsOrphans(before: Db, after: Db)
    requires NoOrphans(before) && after.secrets == before.secrets
    requires forall u :: u in before.vaults ==> u in after.vaults && after.vaults[u] == before.vaults[u]
    ensures NoOrphans(after)
  {
    forall x | S.SecretLive(after, x) ensures VaultLive(after, after.secrets[x].vault) {
      assert S.SecretLive(before, x);
    }
  }

  lemma VaultStepOrphans(c: Cipher, db: Db, v: VaultEvent)
    requires NoOrphans(db)
    ensures NoOrphans(VaultStep(c, db, v))
  {
    match v
    case CreateVault(_, _, _, _, _, _, _) => CreatedVaultOrphans(c, db, v);
    case DeleteVault(_, vault, now, _) =>
      if V.DeleteVaultRow(db, vault, now).Ok? { DeletedVaultOrphans(db, vault, now); }
  }

  /** No secret became live and no vault changed. */
  lemma FewerLive(before: Db, after: Db)
    requires NoOrphans(before) && after.vaults == before.vaults
    requires forall x :: S.SecretLive(after, x) ==>
      S.SecretLive(before, x) && after.secrets[x].vault == before.secrets[x].vault
    ensures NoOrphans(after)
  {
    forall x | S.SecretLive(after, x) ensures VaultLive(after, after.secrets[x].vault) {
      assert VaultLive(before, before.secrets[x].vault);
    }
  }

  lemma CreateOrphans(c: Cipher, db: Db, s: SecretEvent)
    requires NoOrphans(db) && s.CreateSecret?
    ensures NoOrphans(SecretStep(c, db, s)) <==> !CreatesInDeletedVault(c, db, OnSecret(s))
  {
    var db' := SecretStep(c, db, s);
    if CreatesInDeletedVault(c, db, OnSecret(s)) {
      assert S.SecretLive(db', s.id);
    } else {
      forall x | S.SecretLive(db', x) ensures VaultLive(db', db'.secrets[x].vault) {
        assert x != s.id ==> S.SecretLive(db, x);
      }
    }
  }

  lemma RestoreOrphans(c: Cipher, db: Db, s: SecretEvent)
    requires NoOrphans(db) && s.Restore?
    ensures NoOrphans(SecretStep(c, db, s))
  {
    var db' := SecretStep(c, db, s);
    forall x | S.SecretLive(db', x) ensures VaultLive(db', db'.secrets[x].vault) {
      assert x != s.id ==> S.SecretLive(db, x);
    }
  }

  lemma UpdateOrphans(c: Cipher, db: Db, s: SecretEvent)
    requires NoOrphans(db) && s.UpdateSecret?
    ensures NoOrphans(SecretStep(c, db, s))
  {
    FewerLive(db, SecretStep(c, db, s));
  }

  lemma RemovalOrphans(c: Cipher, db: Db, s: SecretEvent)
    requires NoOrphans(db) && (s.PermanentDelete? || s.EmptyTrash?)
    ensures NoOrphans(SecretStep(c, db, s))
  {
    FewerLive(db, SecretStep(c, db, s));
  }

  lemma SoftDeleteOrphans(c: Cipher, db: Db, s: SecretEvent)
    requires NoOrphans(db) && s.SoftDelete?
    ensures NoOrphans(SecretStep(c, db, s))
  {
    FewerLive(db, SecretStep(c, db, s));
  }

  lemma SecretStepOrphans(c: Cipher, db: Db, s: SecretEvent)
    requires NoOrphans(db)
    ensures NoOrphans(SecretStep(c, db, s)) <==> !CreatesInDeletedVault(c, db, OnSecret(s))
  {
    match s
    case CreateSecret(_, _, _, _, _, _, _) => CreateOrphans(c, db, s);
    case Restore(_, _, _) => RestoreOrphans(c, db, s);
    case UpdateSecret(_, _, _, _, _) => UpdateOrphans(c, db, s);
    case SoftDelete(_, _, _) => SoftDeleteOrphans(c, db, s);
    case _ => RemovalOrphans(c, db, s);
  }

  /** Every call keeps live secrets inside live vaults, exactly unless it creates a secret in a deleted vault. */
  lemma StepOrphans(c: Cipher, w: World, e: Event)
    requires NoOrphans(w.db)
    ensures NoOrphans(Step(c, w, e).db) <==> !CreatesInDeletedVault(c, w.db, e)
  {
    match e
    case OnAccount(a) => AccountStepOrphans(c, w, a);
    case OnTeam(t) =>
      TeamStepFrame(c, w.db, t);
      forall x | S.SecretLive(Step(c, w, e).db, x) ensures VaultLive(Step(c, w, e).db, w.db.secrets[x].vault) {
        assert S.SecretLive(w.db, x);
      }
    case OnVault(v) => VaultStepOrphans(c, w.db, v);
    case OnSecret(s) => SecretStepOrphans(c, w.db, s);
  }

  ghost predicate CreatesInLiveVaults(c: Cipher, w: World, es: seq<Event>) {
    forall i :: 0 <= i < |es| ==> !CreatesInDeletedVault(c, Run(c, w, es[..i]).db, es[i])
  }

  /** From any state without orphans, a run whose new secrets go to live vaults never leaves a live secret in a deleted
      vault. */
  lemma {:induction false} RunOrphans(c: Cipher, w: World, es: seq<Event>)
    requires NoOrphans(w.db) && CreatesInLiveVaults(c, w, es)
    ensures NoOrphans(Run(c, w, es).db)
  {
    if es != [] {
      var k := |es| - 1;
      assert forall i :: 0 <= i <= k ==> es[..k][..i] == es[..i];
      RunOrphans(c, w, es[..k]);
      StepOrphans(c, Run(c, w, es[..k]), es[k]);
    }
  }
}
