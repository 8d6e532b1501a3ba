/** Who holds a key share: the table against the history of everything that was done to it. */
module ShareHistory {
  import opened Types
  import opened Text
  import opened Crypto
  import opened Store
  import opened Machine
  import Acc = Accounts
  import AC = AccessControl
  import T = Teams
  import V = Vaults

  type Shares = map<(Uuid, Uuid), ShareRow>

  /** What one call did to the share table; a history opens with the table it starts from. */
  datatype Fact =
    | Start(shares: Shares)
    | Wrote(vault: Uuid, rows: map<Uuid, ShareRow>)
    | Rotated(vault: Uuid, rows: map<Uuid, ShareRow>)
    | Revoked(vault: Uuid, user: Uuid)
    | LeftTeam(team: Uuid, user: Uuid)
    | TeamGone(team: Uuid)
    | UserGone(user: Uuid, vaults: set<Uuid>)
    | Nothing

  // ---- from calls to facts ----

  /** The members a team share wrote a row for, in order, even when an error cut it short. */
  function Served(c: Cipher, db: Db, q: T.ShareRequest, rows: seq<Uuid>, nonces: Uuid -> Nonce,
                  writes: nat): seq<Uuid> {
    if rows == [] then []
    else
      var last := |rows| - 1;
      var (mid, r) := T.ShareMembers(c, db, q, rows[..last], nonces, writes);
      Served(c, db, q, rows[..last], nonces, writes) +
        if r.Ok? && T.ResolveKey(db, q.supplied, rows[last]).Some?
           && T.ShareOne(c, mid, q, rows[last], nonces(rows[last]), r.value, writes).1.Ok?
        then [rows[last]] else []
  }

  ghost function ShareFact(c: Cipher, db: Db, q: T.ShareRequest, rows: seq<Uuid>, nonces: Uuid -> Nonce,
                           writes: nat): Fact {
    if q.team !in db.teams then Nothing
    else
      var after := T.ShareVaultWithTeam(c, db, q, rows, nonces, writes).0;
      Wrote(q.vault, map u | u in Served(c, db, q, rows, nonces, writes) && (q.vault, u) in after.shares ::
            after.shares[(q.vault, u)])
  }

  ghost function RotationRows(entries: seq<T.KeyShare>, actor: Uuid): map<Uuid, ShareRow> {
    if entries == [] then map[]
    else
      var last := entries[|entries| - 1];
      RotationRows(entries[..|entries| - 1], actor)[last.user :=
                                                    ShareRow(last.envelope, Some(actor), last.viaTeam, Read)]
  }

  ghost function TeamFact(c: Cipher, db: Db, e: TeamEvent): Fact {
    match e
    case Grant(granter, vault, recipient, vaultKey, recipientKey, nonce, writes) =>
      (match Wrap(c, vaultKey, recipientKey, nonce)
       case Err(_) => Nothing
       case Ok(envelope) =>
         if writes >= 1 && vault in db.vaults && recipient in db.users
         then Wrote(vault, map[recipient := ShareRow(envelope, Some(granter), None, Write)]) else Nothing)
    case Share(q, rows, nonces, writes) => ShareFact(c, db, q, rows, nonces, writes)
    case Revoke(vault, user, writes) => if writes >= 1 then Revoked(vault, user) else Nothing
    case Rotate(actor, vault, _, entries, writes) =>
      if writes >= 1 && T.Insertable(db, vault, entries) then Rotated(vault, RotationRows(entries, actor)) else Nothing
    case RemoveMember(requester, team, user, writes) =>
      if T.RequireTeam(db, requester, team, AC.TeamManageMembers).Ok? && (team, user) in db.members && writes >= 2
      then LeftTeam(team, user) else Nothing
    case DeleteTeam(requester, team, writes) =>
      if T.RequireTeam(db, requester, team, AC.TeamManageMembers).Ok? && team in db.teams && writes >= 1
      then TeamGone(team) else Nothing
    case _ => Nothing
  }

  ghost function FactOf(c: Cipher, w: World, e: Event): Fact {
    match e
    case OnTeam(t) => TeamFact(c, w.db, t)
    case OnAccount(DeleteUserEv(actor, target, writes)) =>
      if Acc.Deletes(w, actor, target, writes)
      then UserGone(target, set v | v in w.db.vaults && Owns(w.db, target, v)) else Nothing
    case _ => Nothing
  }

  // ---- replaying facts ----

  function Apply(shares: Shares, f: Fact): Shares {
    match f
    case Start(initial) => initial
    case Wrote(vault, rows) =>
      map s | s in shares.Keys + (set u | u in rows :: (vault, u)) ::
        if s.0 == vault && s.1 in rows then rows[s.1] else shares[s]
    case Rotated(vault, rows) =>
      map s | s in shares.Keys + (set u | u in rows :: (vault, u)) && (s.0 == vault ==> s.1 in rows) ::
        if s.0 == vault then rows[s.1] else shares[s]
    case Revoked(vault, user) => map s | s in shares && s != (vault, user) :: shares[s]
    case LeftTeam(team, user) => map s | s in shares && !(s.1 == user && shares[s].viaTeam == Some(team)) :: shares[s]
    case TeamGone(team) =>
      map s | s in shares :: if shares[s].viaTeam == Some(team) then shares[s].(viaTeam := None) else shares[s]
    case UserGone(user, vaults) => map s | s in shares && s.1 != user && s.0 !in vaults :: shares[s]
    case Nothing => shares
  }

  function Replay(log: seq<Fact>): Shares {
    if log == [] then map[] else Apply(Replay(log[..|log| - 1]), log[|log| - 1])
  }

  // ---- the declarative reading of a history ----

  predicate WritesRow(f: Fact, vault: Uuid, user: Uuid) {
    match f
    case Start(initial) => (vault, user) in initial
    case Wrote(v, rows) => v == vault && user in rows
    case Rotated(v, rows) => v == vault && user in rows
    case _ => false
  }

  function RowOf(f: Fact, vault: Uuid, user: Uuid): ShareRow
    requires WritesRow(f, vault, user)
  {
    if f.Start? then f.shares[(vault, user)] else f.rows[user]
  }

  /** `f` ends the share of (vault, user) while that share counts as granted through `via`. */
  predicate Ends(f: Fact, vault: Uuid, user: Uuid, via: Option<Uuid>) {
    match f
    case Start(initial) => (vault, user) !in initial
    case Rotated(v, rows) => v == vault && user !in rows
    case Revoked(v, u) => v == vault && u == user
    case LeftTeam(t, u) => u == user && via == Some(t)
    case UserGone(u, vaults) => u == user || vault in vaults
    case _ => false
  }

  /** The team a grant counts for once the facts i+1 .. j-1 have passed: none, if that team was deleted meanwhile. */
  ghost function ViaAt(log: seq<Fact>, i: nat, j: nat, via: Option<Uuid>): Option<Uuid>
    requires i < j <= |log|
  {
    if via.Some? && exists k :: i < k < j && log[k] == TeamGone(via.value) then None else via
  }

  /** Fact `i` is the latest write of (vault, user), and nothing after it ends that share. */
  ghost predicate Surviving(log: seq<Fact>, i: nat, vault: Uuid, user: Uuid) {
    && i < |log| && WritesRow(log[i], vault, user)
    && forall j :: i < j < |log| ==>
         && !WritesRow(log[j], vault, user)
         && !Ends(log[j], vault, user, ViaAt(log, i, j, RowOf(log[i], vault, user).viaTeam))
  }

  ghost predicate HasSurvivor(log: seq<Fact>, vault: Uuid, user: Uuid) {
    exists i: nat :: Surviving(log, i, vault, user)
  }

  /** A prefix reads the same way inside the longer history. */
  lemma ViaAtPrefix(log: seq<Fact>, f: Fact, i: nat, j: nat, via: Option<Uuid>)
    requires i < j <= |log|
    ensures ViaAt(log + [f], i, j, via) == ViaAt(log, i, j, via)
    ensures ViaAt(log + [f], i, |log| + 1, via) ==
      (if ViaAt(log, i, |log|, via).Some? && f == TeamGone(ViaAt(log, i, |log|, via).value) then None
       else ViaAt(log, i, |log|, via))
  {
    var longer := log + [f];
    if via.Some? {
      assert forall k :: 0 <= k < |log| ==> longer[k] == log[k];
      assert longer[|log|] == f;
      if k :| i < k < j && longer[k] == TeamGone(via.value) { assert log[k] == TeamGone(via.value); }
      if k :| i < k < j && log[k] == TeamGone(via.value) { assert longer[k] == TeamGone(via.value); }
      if k :| i < k < |log| && log[k] == TeamGone(via.value) { assert longer[k] == TeamGone(via.value); }
      if k :| i < k < |longer| && longer[k] == TeamGone(via.value) { assert k < |log| ==> log[k] == longer[k]; }
    }
  }

  /** An older write survives one more fact exactly when that fact neither writes nor ends the share. */
  lemma SurvivingExtended(log: seq<Fact>, f: Fact, i: nat, vault: Uuid, user: Uuid)
    requires i < |log|
    ensures Surviving(log + [f], i, vault, user) <==>
      && Surviving(log, i, vault, user)
      && !WritesRow(f, vault, user) && !Ends(f, vault, user, ViaAt(log, i, |log|, RowOf(log[i], vault, user).viaTeam))
  {
    var longer := log + [f];
    assert longer[i] == log[i] && longer[|log|] == f;
    if WritesRow(log[i], vault, user) {
      var via := RowOf(log[i], vault, user).viaTeam;
      ViaAtPrefix(log, f, i, |log|, via);
      forall j | i < j < |log|
        ensures longer[j] == log[j] && ViaAt(longer, i, j, via) == ViaAt(log, i, j, via)
      {
        ViaAtPrefix(log, f, i, j, via);
      }
    }
  }

  /** The row of (vault, user) is the one fact `i` wrote, with the team it still counts for. */
  ghost predicate HoldsRow(shares: Shares, log: seq<Fact>, i: nat, vault: Uuid, user: Uuid)
    requires i < |log| && WritesRow(log[i], vault, user)
  {
    var row := RowOf(log[i], vault, user);
    (vault, user) in shares && shares[(vault, user)] == row.(viaTeam := ViaAt(log, i, |log|, row.viaTeam))
  }

  lemma AppliedWrite(shares: Shares, f: Fact, vault: Uuid, user: Uuid)
    requires WritesRow(f, vault, user)
    ensures (vault, user) in Apply(shares, f) && Apply(shares, f)[(vault, user)] == RowOf(f, vault, user)
  {
  }

  /** A fact that writes no row of (vault, user) drops it exactly when it ends it, and otherwise at most takes its team
      away. */
  lemma AppliedOther(shares: Shares, f: Fact, vault: Uuid, user: Uuid)
    requires !WritesRow(f, vault, user)
    ensures (vault, user) in Apply(shares, f) <==>
      (vault, user) in shares && !Ends(f, vault, user, shares[(vault, user)].viaTeam)
    ensures (vault, user) in Apply(shares, f) ==>
      var row := shares[(vault, user)];
      Apply(shares, f)[(vault, user)] ==
        if row.viaTeam.Some? && f == TeamGone(row.viaTeam.value) then row.(viaTeam := None) else row
  {
  }

  /** The latest write is the only survivor of its row. */
  lemma LatestWrite(head: seq<Fact>, f: Fact, shares: Shares, i: nat, vault: Uuid, user: Uuid)
    requires WritesRow(f, vault, user) && Surviving(head + [f], i, vault, user)
    ensures i == |head| && HoldsRow(Apply(shares, f), head + [f], i, vault, user)
  {
    var log := head + [f];
    assert log[|head|] == f;
    AppliedWrite(shares, f, vault, user);
  }

  /** An older write that still survives keeps its row, with the team it still counts for. */
  lemma OlderWrite(head: seq<Fact>, f: Fact, shares: Shares, i: nat, vault: Uuid, user: Uuid)
    requires !WritesRow(f, vault, user) && i < |head| && WritesRow(head[i], vault, user)
      && HoldsRow(shares, head, i, vault, user)
    requires Surviving(head, i, vault, user)
    ensures (vault, user) in Apply(shares, f) <==> Surviving(head + [f], i, vault, user)
    ensures Surviving(head + [f], i, vault, user) ==> HoldsRow(Apply(shares, f), head + [f], i, vault, user)
  {
    SurvivingExtended(head, f, i, vault, user);
    ViaAtPrefix(head, f, i, |head|, RowOf(head[i], vault, user).viaTeam);
    AppliedOther(shares, f, vault, user);
    assert (head + [f])[i] == head[i];
  }

  /** The share rows after a history are exactly its surviving writes, each with the team it still counts for. */
  lemma {:induction false} ReplayIsSurvivors(log: seq<Fact>, vault: Uuid, user: Uuid)
    ensures (vault, user) in Replay(log) <==> HasSurvivor(log, vault, user)
    ensures forall i: nat :: Surviving(log, i, vault, user) ==> HoldsRow(Replay(log), log, i, vault, user)
  {
    if log != [] {
      var head, f := log[..|log| - 1], log[|log| - 1];
      assert log == head + [f];
      ReplayIsSurvivors(head, vault, user);
      if WritesRow(f, vault, user) {
        assert Surviving(log, |head|, vault, user);
        AppliedWrite(Replay(head), f, vault, user);
        forall i: nat | Surviving(log, i, vault, user) ensures HoldsRow(Replay(log), log, i, vault, user) {
          LatestWrite(head, f, Replay(head), i, vault, user);
        }
      } else {
        AppliedOther(Replay(head), f, vault, user);
        forall i: nat | Surviving(log, i, vault, user) ensures HoldsRow(Replay(log), log, i, vault, user) {
          assert log[|head|] == f && i < |head|;
          SurvivingExtended(head, f, i, vault, user);
          OlderWrite(head, f, Replay(head), i, vault, user);
        }
        if (vault, user) in Replay(log) {
          var i: nat :| Surviving(head, i, vault, user);
          OlderWrite(head, f, Replay(head), i, vault, user);
          assert Surviving(log, i, vault, user);
        }
      }
    }
  }

  // ---- the facts account for every change of the table ----

  /** Every row a pass has touched so far belongs to a member it served, and each of those has a row. */
  ghost predicate Accounted(before: Db, after: Db, vault: Uuid, served: seq<Uuid>) {
    && (forall u :: u in served ==> (vault, u) in after.shares)
    && (forall s: (Uuid, Uuid) :: !(s.0 == vault && s.1 in served) ==> T.SameRow(before, after, s))
  }

  lemma ServedOne(c: Cipher, db: Db, mid: Db, q: T.ShareRequest, served: seq<Uuid>, user: Uuid, nonce: Nonce,
                  t: T.Tally, writes: nat)
    requires Accounted(db, mid, q.vault, served) && mid == db.(shares := mid.shares)
    ensures var (after, r) := T.ShareOne(c, mid, q, user, nonce, t, writes);
      Accounted(db, after, q.vault, served + if r.Ok? && T.ResolveKey(db, q.supplied, user).Some? then [user] else [])
  {
    var (after, r) := T.ShareOne(c, mid, q, user, nonce, t, writes);
    T.ShareOneOutcome(c, mid, q, user, nonce, t, writes);
    assert T.ResolveKey(mid, q.supplied, user) == T.ResolveKey(db, q.supplied, user);
    assert r.Err? ==> after == mid;
    forall u | u in served ensures (q.vault, u) in after.shares {
      assert u == user || T.SameRow(mid, after, (q.vault, u));
    }
    if r.Ok? && T.ResolveKey(db, q.supplied, user).Some? {
      assert user in served + [user];
      forall s: (Uuid, Uuid) | !(s.0 == q.vault && s.1 in served + [user]) ensures T.SameRow(db, after, s) {
        assert T.SameRow(db, mid, s) && T.SameRow(mid, after, s);
      }
    }
  }

  lemma {:induction false} ServedMembers(c: Cipher, db: Db, q: T.ShareRequest, rows: seq<Uuid>, nonces: Uuid -> Nonce,
                                         writes: nat)
    ensures Accounted(db, T.ShareMembers(c, db, q, rows, nonces, writes).0, q.vault,
                      Served(c, db, q, rows, nonces, writes))
  {
    if rows != [] {
      var k := |rows| - 1;
      ServedMembers(c, db, q, rows[..k], nonces, writes);
      var (mid, r) := T.ShareMembers(c, db, q, rows[..k], nonces, writes);
      if r.Ok? {
        ServedOne(c, db, mid, q, Served(c, db, q, rows[..k], nonces, writes), rows[k], nonces(rows[k]), r.value,
                  writes);
      }
    }
  }

  /** The envelope a served member's row holds. */
  function ServedEnvelope(c: Cipher, db: Db, q: T.ShareRequest, user: Uuid, nonce: Nonce): bytes {
    var key := T.ResolveKey(db, q.supplied, user);
    if key.Some? && |key.value| == AES_256_KEY_LEN then Wrap(c, q.vaultKey, key.value, nonce).value else []
  }

  lemma {:induction false} ServedRow(c: Cipher, db: Db, q: T.ShareRequest, rows: seq<Uuid>, nonces: Uuid -> Nonce,
                                     writes: nat, user: Uuid)
    requires user in Served(c, db, q, rows, nonces, writes)
    ensures var after := T.ShareMembers(c, db, q, rows, nonces, writes).0;
      (q.vault, user) in after.shares &&
      after.shares[(q.vault, user)] ==
        ShareRow(ServedEnvelope(c, db, q, user, nonces(user)), Some(q.granter), Some(q.team), Read)
  {
    var k := |rows| - 1;
    var (mid, r) := T.ShareMembers(c, db, q, rows[..k], nonces, writes);
    if user in Served(c, db, q, rows[..k], nonces, writes) {
      ServedRow(c, db, q, rows[..k], nonces, writes, user);
    }
    if r.Ok? { ServedOneRow(c, db, mid, q, rows[k], nonces(rows[k]), r.value, writes); }
  }

  /** Serving one member writes exactly that member's row. */
  lemma ServedOneRow(c: Cipher, db: Db, mid: Db, q: T.ShareRequest, user: Uuid, nonce: Nonce, t: T.Tally, writes: nat)
    requires mid == db.(shares := mid.shares)
    ensures var (after, r) := T.ShareOne(c, mid, q, user, nonce, t, writes);
      after.shares ==
        if r.Ok? && T.ResolveKey(db, q.supplied, user).Some?
        then mid.shares[(q.vault, user) :=
          ShareRow(ServedEnvelope(c, db, q, user, nonce), Some(q.granter), Some(q.team), Read)]
        else mid.shares
  {
    assert T.ResolveKey(mid, q.supplied, user) == T.ResolveKey(db, q.supplied, user);
  }

  lemma ShareFactApplies(c: Cipher, db: Db, q: T.ShareRequest, rows: seq<Uuid>, nonces: Uuid -> Nonce, writes: nat)
    ensures T.ShareVaultWithTeam(c, db, q, rows, nonces, writes).0.shares ==
      Apply(db.shares, ShareFact(c, db, q, rows, nonces, writes))
  {
    var after := T.ShareVaultWithTeam(c, db, q, rows, nonces, writes).0;
    if q.team in db.teams {
      assert after == T.ShareMembers(c, db, q, rows, nonces, writes).0;
      assert Accounted(db, after, q.vault, Served(c, db, q, rows, nonces, writes)) by {
        ServedMembers(c, db, q, rows, nonces, writes);
      }
      AccountedApplies(db, after, q.vault, Served(c, db, q, rows, nonces, writes));
    }
  }

  lemma AccountedApplies(before: Db, after: Db, vault: Uuid, served: seq<Uuid>)
    requires Accounted(before, after, vault, served)
    ensures after.shares == Apply(before.shares,
      Wrote(vault, map u | u in served && (vault, u) in after.shares :: after.shares[(vault, u)]))
  {
    var rows := map u | u in served && (vault, u) in after.shares :: after.shares[(vault, u)];
    var applied := Apply(before.shares, Wrote(vault, rows));
    forall s: (Uuid, Uuid)
      ensures s in after.shares <==> s in applied
      ensures s in after.shares ==> after.shares[s] == applied[s]
    {
      if s.0 == vault && s.1 in served {
        assert s == (vault, s.1) && s.1 in rows;
      } else {
        assert T.SameRow(before, after, s);
      }
    }
  }

  lemma OneMoreRotated(shares: Shares, vault: Uuid, rows: map<Uuid, ShareRow>, user: Uuid, row: ShareRow)
    ensures Apply(shares, Rotated(vault, rows[user := row])) ==
      Apply(shares, Rotated(vault, rows))[(vault, user) := row]
  {
  }

  lemma NothingRotated(shares: Shares, vault: Uuid)
    ensures Apply(shares, Rotated(vault, map[])) == T.WithoutVault(shares, vault)
  {
  }

  lemma {:induction false} RotationFactApplies(shares: Shares, vault: Uuid, entries: seq<T.KeyShare>, actor: Uuid)
    ensures T.InsertAll(T.WithoutVault(shares, vault), vault, entries, actor) ==
      Apply(shares, Rotated(vault, RotationRows(entries, actor)))
  {
    if entries != [] {
      var last := entries[|entries| - 1];
      var rows := RotationRows(entries[..|entries| - 1], actor);
      RotationFactApplies(shares, vault, entries[..|entries| - 1], actor);
      OneMoreRotated(shares, vault, rows, last.user, ShareRow(last.envelope, Some(actor), last.viaTeam, Read));
    } else {
      NothingRotated(shares, vault);
    }
  }

  lemma GrantFactApplies(c: Cipher, db: Db, e: TeamEvent)
    requires e.Grant?
    ensures TeamStep(c, db, e).shares == Apply(db.shares, TeamFact(c, db, e))
  {
  }

  lemma RemovalFactApplies(c: Cipher, db: Db, e: TeamEvent)
    requires e.RemoveMember?
    ensures TeamStep(c, db, e).shares == Apply(db.shares, TeamFact(c, db, e))
  {
  }

  lemma TeamDeletionFactApplies(c: Cipher, db: Db, e: TeamEvent)
    requires e.DeleteTeam?
    ensures TeamStep(c, db, e).shares == Apply(db.shares, TeamFact(c, db, e))
  {
  }

  lemma TeamFactApplies(c: Cipher, db: Db, e: TeamEvent)
    ensures TeamStep(c, db, e).shares == Apply(db.shares, TeamFact(c, db, e))
  {
    match e
    case Grant(_, _, _, _, _, _, _) => GrantFactApplies(c, db, e);
    case RemoveMember(_, _, _, _) => RemovalFactApplies(c, db, e);
    case DeleteTeam(_, _, _) => TeamDeletionFactApplies(c, db, e);
    case Share(q, rows, nonces, writes) => ShareFactApplies(c, db, q, rows, nonces, writes);
    case Rotate(actor, vault, _, entries, writes) => RotationFactApplies(db.shares, vault, entries, actor);
    case _ =>
  }

  /** The facts are complete: replaying a call's fact gives exactly the share table the call leaves. */
  lemma FactApplies(c: Cipher, w: World, e: Event)
    ensures Step(c, w, e).db.shares == Apply(w.db.shares, FactOf(c, w, e))
  {
    match e
    case OnTeam(t) => TeamFactApplies(c, w.db, t);
    case OnVault(v) => VaultStepFrame(c, w.db, v);
    case OnSecret(s) => SecretStepFrame(c, w.db, s);
    case OnAccount(a) => AccountFactApplies(c, w, a);
  }

  lemma UserDeletionFactApplies(c: Cipher, w: World, a: Acc.Event)
    requires a.DeleteUserEv?
    ensures Acc.Step(c, w, a).db.shares == Apply(w.db.shares, FactOf(c, w, OnAccount(a)))
  {
    Acc.DeletesExactly(w, a.actor, a.target, a.writes);
  }

  lemma AccountFactApplies(c: Cipher, w: World, a: Acc.Event)
    ensures Acc.Step(c, w, a).db.shares == Apply(w.db.shares, FactOf(c, w, OnAccount(a)))
  {
    match a
    case DeleteUserEv(actor, target, writes) => UserDeletionFactApplies(c, w, a);
    case UpdateRoleEv(actor, target, role, writes) =>
    case ResetPasswordEv(actor, target, password, salt, writes) =>
      assert Acc.TouchesOneAccount(w, Acc.Step(c, w, a), target);
    case ChangePasswordEv(user, current, next, salt, writes) =>
      assert Acc.TouchesOneAccount(w, Acc.Step(c, w, a), user);
    case _ => assert Acc.KeepsUsers(w.db, Acc.Step(c, w, a).db);
  }

  ghost function History(c: Cipher, w: World, es: seq<Event>): seq<Fact> {
    if es == [] then [Start(w.db.shares)]
    else History(c, w, es[..|es| - 1]) + [FactOf(c, Run(c, w, es[..|es| - 1]), es[|es| - 1])]
  }

  lemma {:induction false} RunIsReplay(c: Cipher, w: World, es: seq<Event>)
    ensures Run(c, w, es).db.shares == Replay(History(c, w, es)) && |History(c, w, es)| == |es| + 1
  {
    if es != [] {
      var k := |es| - 1;
      RunIsReplay(c, w, es[..k]);
      FactApplies(c, Run(c, w, es[..k]), es[k]);
      var head, f := History(c, w, es[..k]), FactOf(c, Run(c, w, es[..k]), es[k]);
      assert (head + [f])[..k + 1] == head;
    }
  }

  /** Main theorem. From any database, after any calls, complete or cut short: a share row exists exactly when its
      latest write (or its place in the initial table) came after every revocation, every rotation leaving the user out,
      every deletion of the user or of the vault's owner, and every removal from the team it counts for; and the row is
      that write's. */
  lemma SharesAreSurvivingGrants(c: Cipher, w: World, es: seq<Event>, vault: Uuid, user: Uuid)
    ensures var log := History(c, w, es);
      && ((vault, user) in Run(c, w, es).db.shares <==> HasSurvivor(log, vault, user))
      && (forall i: nat :: Surviving(log, i, vault, user) ==> HoldsRow(Run(c, w, es).db.shares, log, i, vault, user))
  {
    RunIsReplay(c, w, es);
    ReplayIsSurvivors(History(c, w, es), vault, user);
  }

  // ---- what a share entitles to ----

  /** No share carries the vault administrator role. */
  predicate NoAdminShares(shares: Shares) {
    forall s :: s in shares ==> shares[s].role != VaultAdmin
  }

  /** A fact writes rows of these roles only. */
  predicate WritesNoAdmin(f: Fact) {
    match f
    case Start(shares) => NoAdminShares(shares)
    case Wrote(_, rows) => forall u :: u in rows ==> rows[u].role != VaultAdmin
    case Rotated(_, rows) => forall u :: u in rows ==> rows[u].role == Read
    case _ => true
  }

  lemma {:induction false} RotationRowsRead(entries: seq<T.KeyShare>, actor: Uuid)
    ensures forall u :: u in RotationRows(entries, actor) ==> RotationRows(entries, actor)[u].role == Read
  {
    if entries != [] { RotationRowsRead(entries[..|entries| - 1], actor); }
  }

  lemma ShareFactReads(c: Cipher, db: Db, q: T.ShareRequest, rows: seq<Uuid>, nonces: Uuid -> Nonce, writes: nat)
    ensures var f := ShareFact(c, db, q, rows, nonces, writes);
      f.Wrote? ==> forall u :: u in f.rows ==> f.rows[u].role == Read
  {
    if q.team in db.teams {
      forall u | u in Served(c, db, q, rows, nonces, writes)
        ensures var after := T.ShareMembers(c, db, q, rows, nonces, writes).0;
          (q.vault, u) in after.shares && after.shares[(q.vault, u)].role == Read
      {
        ServedRow(c, db, q, rows, nonces, writes, u);
      }
    }
  }

  lemma FactWritesNoAdmin(c: Cipher, w: World, e: Event)
    ensures WritesNoAdmin(FactOf(c, w, e))
  {
    match e
    case OnTeam(Share(q, rows, nonces, writes)) => ShareFactReads(c, w.db, q, rows, nonces, writes);
    case OnTeam(Rotate(actor, _, _, entries, _)) => RotationRowsRead(entries, actor);
    case _ =>
  }

  lemma AppliedNoAdmin(shares: Shares, f: Fact)
    requires NoAdminShares(shares) && WritesNoAdmin(f)
    ensures NoAdminShares(Apply(shares, f))
  {
    forall s | s in Apply(shares, f) ensures Apply(shares, f)[s].role != VaultAdmin {
      if WritesRow(f, s.0, s.1) { AppliedWrite(shares, f, s.0, s.1); } else { AppliedOther(shares, f, s.0, s.1); }
    }
  }

  lemma {:induction false} RunNoAdminShares(c: Cipher, w: World, es: seq<Event>)
    requires NoAdminShares(w.db.shares)
    ensures NoAdminShares(Run(c, w, es).db.shares)
  {
    if es != [] {
      var prev, e := Run(c, w, es[..|es| - 1]), es[|es| - 1];
      RunNoAdminShares(c, w, es[..|es| - 1]);
      FactApplies(c, prev, e);
      FactWritesNoAdmin(c, prev, e);
      AppliedNoAdmin(prev.db.shares, FactOf(c, prev, e));
    }
  }

  /** Over any run from a table without vault administrator shares, as the empty one is: a share never entitles to
      delete the vault; the owner may delete it, and a global administrator who holds a share of it. */
  lemma OnlyOwnersDelete(c: Cipher, w: World, es: seq<Event>, user: Uuid, vault: Uuid)
    requires NoAdminShares(w.db.shares)
    ensures var db := Run(c, w, es).db;
      V.MayDelete(db, user, vault) <==>
        && user in db.users && VaultLive(db, vault)
        && (Owns(db, user, vault) || ((vault, user) in db.shares && db.users[user].role == Admin))
  {
    RunNoAdminShares(c, w, es);
  }

  // ---- shares granted through a team belong to its members ----

  ghost predicate TeamSharesHeldByMembers(db: Db) {
    forall s :: s in db.shares && db.shares[s].viaTeam.Some? ==> (db.shares[s].viaTeam.value, s.1) in db.members
  }

  ghost predicate HasShareVia(db: Db, user: Uuid, team: Uuid) {
    exists vault :: (vault, user) in db.shares && db.shares[(vault, user)].viaTeam == Some(team)
  }

  /** A removal whose storage fails between its two writes, while the member holds a share through the team. */
  ghost predicate TornRemoval(db: Db, e: TeamEvent) {
    && e.RemoveMember? && e.writes == 1 && (e.team, e.user) in db.members
    && T.RequireTeam(db, e.requester, e.team, AC.TeamManageMembers).Ok? && HasShareVia(db, e.user, e.team)
  }

  /** A rotation that lists an entry as granted through a team its user is not in. */
  ghost predicate ForeignRotation(db: Db, e: TeamEvent) {
    && e.Rotate? && e.writes >= 1 && T.Insertable(db, e.vault, e.entries)
    && exists i ::
         && 0 <= i < |e.entries| && e.entries[i].viaTeam.Some?
         && (e.entries[i].viaTeam.value, e.entries[i].user) !in db.members
  }

  lemma TornMembership(db: Db, e: TeamEvent, c: Cipher)
    requires TornRemoval(db, e)
    ensures !TeamSharesHeldByMembers(TeamStep(c, db, e))
  {
    var db' := TeamStep(c, db, e);
    var vault :| (vault, e.user) in db.shares && db.shares[(vault, e.user)].viaTeam == Some(e.team);
    assert (vault, e.user) in db'.shares;
  }

  lemma RemovalMembership(db: Db, e: TeamEvent, c: Cipher)
    requires TeamSharesHeldByMembers(db) && e.RemoveMember?
    ensures TeamSharesHeldByMembers(TeamStep(c, db, e)) <==> !TornRemoval(db, e)
  {
    var db' := TeamStep(c, db, e);
    if TornRemoval(db, e) {
      TornMembership(db, e, c);
    } else if db' != db {
      forall s | s in db'.shares && db'.shares[s].viaTeam.Some?
        ensures (db'.shares[s].viaTeam.value, s.1) in db'.members
      {
        if db'.shares[s].viaTeam == Some(e.team) && s.1 == e.user {
          assert (s.0, e.user) in db.shares && db.shares[(s.0, e.user)].viaTeam == Some(e.team);
          assert HasShareVia(db, e.user, e.team);
        }
      }
    }
  }

  lemma ReplacedMembership(db: Db, after: Db, vault: Uuid, entries: seq<T.KeyShare>, actor: Uuid)
    requires TeamSharesHeldByMembers(db) && after.members == db.members
    requires T.Replaces(db.shares, vault, entries, actor, after.shares)
    ensures TeamSharesHeldByMembers(after) <==>
      forall i :: 0 <= i < |entries| && entries[i].viaTeam.Some? ==>
        (entries[i].viaTeam.value, entries[i].user) in db.members
  {
    if TeamSharesHeldByMembers(after) {
      forall i | 0 <= i < |entries| && entries[i].viaTeam.Some?
        ensures (entries[i].viaTeam.value, entries[i].user) in db.members
      {
        assert after.shares[(vault, entries[i].user)] ==
          ShareRow(entries[i].envelope, Some(actor), entries[i].viaTeam, Read);
      }
    } else {
      var s :| s in after.shares && after.shares[s].viaTeam.Some?
        && (after.shares[s].viaTeam.value, s.1) !in after.members;
      assert s.0 == vault;
      var i :| 0 <= i < |entries| && entries[i].user == s.1;
      assert after.shares[(vault, entries[i].user)] ==
        ShareRow(entries[i].envelope, Some(actor), entries[i].viaTeam, Read);
    }
  }

  lemma RotationMembership(db: Db, e: TeamEvent, c: Cipher)
    requires TeamSharesHeldByMembers(db) && e.Rotate?
    ensures TeamSharesHeldByMembers(TeamStep(c, db, e)) <==> !ForeignRotation(db, e)
  {
    T.RotatedShares(db, e.actor, e.vault, e.ownerEnvelope, e.entries, e.writes);
    if e.writes >= 1 && T.Insertable(db, e.vault, e.entries) {
      ReplacedMembership(db, TeamStep(c, db, e), e.vault, e.entries, e.actor);
    }
  }

  lemma ShareMembership(db: Db, e: TeamEvent, c: Cipher)
    requires TeamSharesHeldByMembers(db) && e.Share? && Possible(db, OnTeam(e))
    ensures TeamSharesHeldByMembers(TeamStep(c, db, e))
  {
    T.ShareMembersOutcome(c, db, e.q, e.rows, e.nonces, e.writes);
    var db' := TeamStep(c, db, e);
    forall s | s in db'.shares && db'.shares[s].viaTeam.Some?
      ensures (db'.shares[s].viaTeam.value, s.1) in db'.members {
      if !T.SameRow(db, db', s) { assert T.Granted(c, db, db', e.q, s.1); }
    }
  }

  lemma TeamStepMembership(c: Cipher, db: Db, e: TeamEvent)
    requires TeamSharesHeldByMembers(db) && Possible(db, OnTeam(e))
    ensures TeamSharesHeldByMembers(TeamStep(c, db, e)) <==> !TornRemoval(db, e) && !ForeignRotation(db, e)
  {
    match e
    case RemoveMember(_, _, _, _) => RemovalMembership(db, e, c);
    case Rotate(_, _, _, _, _) => RotationMembership(db, e, c);
    case Share(_, _, _, _) => ShareMembership(db, e, c);
    case _ =>
  }

  /** The two calls that leave a team share with a user outside the team. */
  ghost predicate BreaksMembership(db: Db, e: Event) {
    e.OnTeam? && (TornRemoval(db, e.t) || ForeignRotation(db, e.t))
  }

  /** Every call keeps team shares in the hands of current members, exactly unless it is a removal cut between its two
      writes or a rotation listing a non-member. */
  lemma StepMembership(c: Cipher, w: World, e: Event)
    requires TeamSharesHeldByMembers(w.db) && Possible(w.db, e)
    ensures TeamSharesHeldByMembers(Step(c, w, e).db) <==> !BreaksMembership(w.db, e)
  {
    match e
    case OnTeam(t) => TeamStepMembership(c, w.db, t);
    case OnVault(v) => VaultStepFrame(c, w.db, v);
    case OnSecret(s) => SecretStepFrame(c, w.db, s);
    case OnAccount(a) => AccountStepMembership(c, w, a);
  }

  lemma AccountStepMembership(c: Cipher, w: World, a: Acc.Event)
    requires TeamSharesHeldByMembers(w.db)
    ensures TeamSharesHeldByMembers(Acc.Step(c, w, a).db)
  {
    match a
    case DeleteUserEv(actor, target, writes) =>
    case UpdateRoleEv(actor, target, role, writes) =>
    case ResetPasswordEv(actor, target, password, salt, writes) =>
      assert Acc.TouchesOneAccount(w, Acc.Step(c, w, a), target);
    case ChangePasswordEv(user, current, next, salt, writes) =>
      assert Acc.TouchesOneAccount(w, Acc.Step(c, w, a), user);
    case _ => assert Acc.KeepsUsers(w.db, Acc.Step(c, w, a).db);
  }

  ghost predicate KeepsMembershipThroughout(c: Cipher, w: World, es: seq<Event>) {
    forall i :: 0 <= i < |es| ==> !BreaksMembership(Run(c, w, es[..i]).db, es[i])
  }

  /** Over a run without such a call, every share that counts as granted through a team belongs to a current member. */
  lemma {:induction false} RunMembership(c: Cipher, w: World, es: seq<Event>)
    requires TeamSharesHeldByMembers(w.db) && PossibleRun(c, w, es) && KeepsMembershipThroughout(c, w, es)
    ensures TeamSharesHeldByMembers(Run(c, w, es).db)
  {
    if es != [] {
      var k := |es| - 1;
      PrefixRun(c, w, es, k);
      RunMembership(c, w, es[..k]);
      StepMembership(c, Run(c, w, es[..k]), es[k]);
    }
  }

  // ---- after a torn removal ----

  /** The user left `team` but still opens `vault` with the envelope granted through it. */
  ghost predicate HoldsOn(db: Db, team: Uuid, user: Uuid, vault: Uuid, envelope: bytes) {
    && VaultLive(db, vault) && db.vaults[vault].owner != user && (team, user) !in db.members
    && (vault, user) in db.shares && db.shares[(vault, user)].envelope == envelope
    && (db.shares[(vault, user)].viaTeam.Some? ==> db.shares[(vault, user)].viaTeam == Some(team))
  }

  /** The row a call writes for the user keeps the envelope and counts for `team` or for no team. */
  predicate SameHolding(row: ShareRow, team: Uuid, envelope: bytes) {
    row.envelope == envelope && (row.viaTeam.Some? ==> row.viaTeam == Some(team))
  }

  /** A team call that takes effect: it ends or replaces the share, or makes the user a member of `team` again. */
  ghost predicate TeamReaches(c: Cipher, db: Db, t: TeamEvent, team: Uuid, user: Uuid, vault: Uuid, envelope: bytes) {
    match t
    case Grant(_, target, recipient, key, recipientKey, nonce, writes) =>
      && target == vault && recipient == user && user in db.users && writes >= 1 && |recipientKey| == AES_256_KEY_LEN
      && Wrap(c, key, recipientKey, nonce).value != envelope
    case Share(q, rows, nonces, writes) =>
      && q.vault == vault && q.team in db.teams && user in Served(c, db, q, rows, nonces, writes)
      && (q.team != team || ServedEnvelope(c, db, q, user, nonces(user)) != envelope)
    case Revoke(target, other, writes) => target == vault && other == user && writes >= 1
    case Rotate(actor, target, _, entries, writes) =>
      && target == vault && writes >= 1 && T.Insertable(db, vault, entries)
      && forall i :: 0 <= i < |entries| && entries[i].user == user ==>
        !SameHolding(ShareRow(entries[i].envelope, Some(actor), entries[i].viaTeam, Read), team, envelope)
    case AddMember(requester, t, u, _, writes) =>
      t == team && u == user && T.Leads(db, requester, team) && user in db.users && team in db.teams && writes >= 1
    case CreateTeam(creator, id, name, writes) =>
      && id == team && creator == user && user in db.users && Trim(name) != [] && id !in db.teams
      && !T.TeamNameTaken(db, name) && writes >= 2
    case _ => false
  }

  /** The calls that end or replace the share of (vault, user), or make the user a member of `team` again; each takes
      effect. */
  ghost predicate ReachesShare(c: Cipher, w: World, e: Event, team: Uuid, user: Uuid, vault: Uuid, envelope: bytes) {
    match e
    case OnAccount(DeleteUserEv(actor, target, writes)) =>
      Acc.Deletes(w, actor, target, writes) && (target == user || Owns(w.db, target, vault))
    case OnTeam(t) => TeamReaches(c, w.db, t, team, user, vault, envelope)
    case OnVault(DeleteVault(requester, target, _, writes)) =>
      target == vault && V.MayDelete(w.db, requester, vault) && writes >= 1
    case _ => false
  }

  ghost predicate NeverReached(c: Cipher, w: World, es: seq<Event>, team: Uuid, user: Uuid, vault: Uuid,
                               envelope: bytes) {
    forall i :: 0 <= i < |es| ==> !ReachesShare(c, Run(c, w, es[..i]), es[i], team, user, vault, envelope)
  }

  /** Only the row of (vault, user) matters as long as memberships and the vault stay. */
  lemma RowDecidesHolding(db: Db, after: Db, team: Uuid, user: Uuid, vault: Uuid, envelope: bytes)
    requires HoldsOn(db, team, user, vault, envelope) && after.members == db.members
    requires vault in after.vaults && after.vaults[vault].owner == db.vaults[vault].owner && VaultLive(after, vault)
    ensures HoldsOn(after, team, user, vault, envelope) <==>
      (vault, user) in after.shares && SameHolding(after.shares[(vault, user)], team, envelope)
  {
  }

  lemma ShareOnHolding(c: Cipher, db: Db, e: TeamEvent, team: Uuid, user: Uuid, vault: Uuid, envelope: bytes)
    requires HoldsOn(db, team, user, vault, envelope) && e.Share?
    ensures HoldsOn(TeamStep(c, db, e), team, user, vault, envelope) <==>
      !TeamReaches(c, db, e, team, user, vault, envelope)
  {
    var after := TeamStep(c, db, e);
    assert after == db.(shares := after.shares);
    RowDecidesHolding(db, after, team, user, vault, envelope);
    ServedMembers(c, db, e.q, e.rows, e.nonces, e.writes);
    if e.q.vault == vault && user in Served(c, db, e.q, e.rows, e.nonces, e.writes) {
      ServedRow(c, db, e.q, e.rows, e.nonces, e.writes, user);
    } else {
      assert T.SameRow(db, after, (vault, user));
    }
  }

  lemma RotationOnHolding(c: Cipher, db: Db, e: TeamEvent, team: Uuid, user: Uuid, vault: Uuid, envelope: bytes)
    requires HoldsOn(db, team, user, vault, envelope) && e.Rotate?
    ensures HoldsOn(TeamStep(c, db, e), team, user, vault, envelope) <==>
      !TeamReaches(c, db, e, team, user, vault, envelope)
  {
    var after := TeamStep(c, db, e);
    RowDecidesHolding(db, after, team, user, vault, envelope);
    if e.vault != vault {
      T.RotationTouchesOneVault(db, e.actor, e.vault, e.ownerEnvelope, e.entries, e.writes);
      assert T.SameRow(db, after, (vault, user));
    } else {
      T.RotatedShares(db, e.actor, vault, e.ownerEnvelope, e.entries, e.writes);
    }
  }

  lemma MembershipOnHolding(c: Cipher, db: Db, e: TeamEvent, team: Uuid, user: Uuid, vault: Uuid, envelope: bytes)
    requires HoldsOn(db, team, user, vault, envelope) && (e.AddMember? || e.CreateTeam?)
    ensures HoldsOn(TeamStep(c, db, e), team, user, vault, envelope) <==>
      !TeamReaches(c, db, e, team, user, vault, envelope)
  {
  }

  lemma RemovalOnHolding(c: Cipher, db: Db, e: TeamEvent, team: Uuid, user: Uuid, vault: Uuid, envelope: bytes)
    requires HoldsOn(db, team, user, vault, envelope) && (e.RemoveMember? || e.DeleteTeam?)
    ensures HoldsOn(TeamStep(c, db, e), team, user, vault, envelope)
  {
  }

  lemma GrantOnHolding(c: Cipher, db: Db, e: TeamEvent, team: Uuid, user: Uuid, vault: Uuid, envelope: bytes)
    requires HoldsOn(db, team, user, vault, envelope) && (e.Grant? || e.Revoke?)
    ensures HoldsOn(TeamStep(c, db, e), team, user, vault, envelope) <==>
      !TeamReaches(c, db, e, team, user, vault, envelope)
  {
  }

  lemma TeamOnHolding(c: Cipher, db: Db, e: TeamEvent, team: Uuid, user: Uuid, vault: Uuid, envelope: bytes)
    requires HoldsOn(db, team, user, vault, envelope)
    ensures HoldsOn(TeamStep(c, db, e), team, user, vault, envelope) <==>
      !TeamReaches(c, db, e, team, user, vault, envelope)
  {
    match e
    case Share(_, _, _, _) => ShareOnHolding(c, db, e, team, user, vault, envelope);
    case Rotate(_, _, _, _, _) => RotationOnHolding(c, db, e, team, user, vault, envelope);
    case RemoveMember(_, _, _, _) => RemovalOnHolding(c, db, e, team, user, vault, envelope);
    case DeleteTeam(_, _, _) => RemovalOnHolding(c, db, e, team, user, vault, envelope);
    case AddMember(_, _, _, _, _) => MembershipOnHolding(c, db, e, team, user, vault, envelope);
    case CreateTeam(_, _, _, _) => MembershipOnHolding(c, db, e, team, user, vault, envelope);
    case Grant(_, _, _, _, _, _, _) => GrantOnHolding(c, db, e, team, user, vault, envelope);
    case Revoke(_, _, _) => GrantOnHolding(c, db, e, team, user, vault, envelope);
  }

  lemma AccountOnHolding(c: Cipher, w: World, a: Acc.Event, team: Uuid, user: Uuid, vault: Uuid, envelope: bytes)
    requires HoldsOn(w.db, team, user, vault, envelope)
    ensures HoldsOn(Acc.Step(c, w, a).db, team, user, vault, envelope) <==>
      !ReachesShare(c, w, OnAccount(a), team, user, vault, envelope)
  {
    match a
    case DeleteUserEv(actor, target, writes) => Acc.DeletesExactly(w, actor, target, writes);
    case UpdateRoleEv(_, _, _, _) =>
    case ResetPasswordEv(_, target, _, _, _) => assert Acc.TouchesOneAccount(w, Acc.Step(c, w, a), target);
    case ChangePasswordEv(u, _, _, _, _) => assert Acc.TouchesOneAccount(w, Acc.Step(c, w, a), u);
    case _ => assert Acc.KeepsUsers(w.db, Acc.Step(c, w, a).db);
  }

  lemma VaultOnHolding(c: Cipher, w: World, v: VaultEvent, team: Uuid, user: Uuid, vault: Uuid, envelope: bytes)
    requires HoldsOn(w.db, team, user, vault, envelope)
    ensures HoldsOn(VaultStep(c, w.db, v), team, user, vault, envelope) <==>
      !ReachesShare(c, w, OnVault(v), team, user, vault, envelope)
  {
    VaultStepFrame(c, w.db, v);
    if v.DeleteVault? { V.DeletesExactly(c, w.db, v.requester, v.vault, v.now, v.writes, user, envelope); }
  }

  lemma SecretOnHolding(c: Cipher, db: Db, s: SecretEvent, team: Uuid, user: Uuid, vault: Uuid, envelope: bytes)
    requires HoldsOn(db, team, user, vault, envelope)
    ensures HoldsOn(SecretStep(c, db, s), team, user, vault, envelope)
  {
  }

  /** One call leaves the former member holding the envelope exactly unless it is one of those that take effect on
      it. */
  lemma StepKeepsHolding(c: Cipher, w: World, e: Event, team: Uuid, user: Uuid, vault: Uuid, envelope: bytes)
    requires HoldsOn(w.db, team, user, vault, envelope)
    ensures HoldsOn(Step(c, w, e).db, team, user, vault, envelope) <==>
      !ReachesShare(c, w, e, team, user, vault, envelope)
  {
    match e
    case OnTeam(t) => TeamOnHolding(c, w.db, t, team, user, vault, envelope);
    case OnVault(v) => VaultOnHolding(c, w, v, team, user, vault, envelope);
    case OnSecret(s) => SecretOnHolding(c, w.db, s, team, user, vault, envelope);
    case OnAccount(a) => AccountOnHolding(c, w, a, team, user, vault, envelope);
  }

  lemma {:induction false} RunKeepsHolding(c: Cipher, w: World, es: seq<Event>, team: Uuid, user: Uuid, vault: Uuid,
                                           envelope: bytes)
    requires HoldsOn(w.db, team, user, vault, envelope) && NeverReached(c, w, es, team, user, vault, envelope)
    ensures HoldsOn(Run(c, w, es).db, team, user, vault, envelope)
  {
    if es != [] {
      var k := |es| - 1;
      assert forall i :: 0 <= i <= k ==> es[..k][..i] == es[..i];
      RunKeepsHolding(c, w, es[..k], team, user, vault, envelope);
      StepKeepsHolding(c, Run(c, w, es[..k]), es[k], team, user, vault, envelope);
    }
  }

  /** After a removal cut between its writes, and for as long as no call reaches the share or re-adds the user: the
      former member keeps the key material of every live vault opened through the team, and every removal of the user
      from the team, by anyone, fails without changing anything. */
  lemma TornRemovalStays(c: Cipher, w: World, e: TeamEvent, vault: Uuid, es: seq<Event>, requester: Uuid, writes: nat)
    requires TornRemoval(w.db, e) && VaultLive(w.db, vault) && w.db.vaults[vault].owner != e.user
    requires (vault, e.user) in w.db.shares && w.db.shares[(vault, e.user)].viaTeam == Some(e.team)
    requires var torn := Step(c, w, OnTeam(e));
      NeverReached(c, torn, es, e.team, e.user, vault, w.db.shares[(vault, e.user)].envelope)
    ensures var final := Run(c, Step(c, w, OnTeam(e)), es).db;
      && V.KeyMaterial(final, e.user, vault) == V.KeyMaterial(w.db, e.user, vault)
      && T.RemoveMember(final, requester, e.team, e.user, writes).0 == final
      && T.RemoveMember(final, requester, e.team, e.user, writes).1.Err?
  {
    RunKeepsHolding(c, Step(c, w, OnTeam(e)), es, e.team, e.user, vault, w.db.shares[(vault, e.user)].envelope);
  }

  /** The way out: adding the user to the team again and removing the user once more, undisturbed, ends the share. */
  lemma TornRemovalEnds(db: Db, team: Uuid, user: Uuid, vault: Uuid, requester: Uuid, role: TeamRole, writes: nat)
    requires T.Leads(db, requester, team) && requester != user && user in db.users && team in db.teams && writes >= 3
    requires (vault, user) in db.shares && db.shares[(vault, user)].viaTeam == Some(team)
    ensures var (added, r) := T.AddMember(db, requester, team, user, role, writes);
      var (removed, r') := T.RemoveMember(added, requester, team, user, writes);
      r.Ok? && r'.Ok? && (vault, user) !in removed.shares && (team, user) !in removed.members
  {
  }

  /** Deleting a team revokes nothing: every user keeps the key material of every vault, now as a direct share. */
  lemma TeamDeletionKeepsAccess(db: Db, team: Uuid, user: Uuid, vault: Uuid)
    ensures V.KeyMaterial(PurgeTeam(db, team), user, vault) == V.KeyMaterial(db, user, vault)
    ensures (vault, user) in db.shares && db.shares[(vault, user)].viaTeam == Some(team) ==>
      PurgeTeam(db, team).shares[(vault, user)] == db.shares[(vault, user)].(viaTeam := None)
  {
  }
}
