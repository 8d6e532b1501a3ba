/** What becomes of a secret over a run: who may still read it, and which of its values. */
module SecretHistory {
  import opened Types
  import opened Crypto
  import opened Store
  import opened Machine
  import Acc = Accounts
  import KA = KeyAgreement
  import S = Secrets
  import V = Vaults

  /** Secret `x` is live in `vault` and its value, sealed under `vaultKey`, is `text`. */
  ghost predicate HoldsSecret(c: Cipher, db: Db, x: Uuid, vault: Uuid, vaultKey: bytes, text: bytes) {
    S.SecretLive(db, x) && db.secrets[x].vault == vault && S.GetSecret(c, db, x, vaultKey) == Ok(text)
  }

  /** The update completes: the secret is live, the new value and the key are accepted, and both writes succeed. */
  predicate Updates(db: Db, s: SecretEvent) {
    s.UpdateSecret? && S.SecretLive(db, s.id) && s.writes >= 2 && s.text != [] && |s.vaultKey| == AES_256_KEY_LEN
  }

  /** The creation completes; whether the vault is live does not matter. */
  predicate Creates(db: Db, s: SecretEvent) {
    && s.CreateSecret? && s.id !in db.secrets && s.vault in db.vaults && s.writes >= 1
    && s.text != [] && |s.vaultKey| == AES_256_KEY_LEN
  }

  /** The calls report success exactly then, and a refused one changes nothing. */
  lemma WritesReported(c: Cipher, db: Db, s: SecretEvent)
    requires s.CreateSecret? || s.UpdateSecret?
    ensures var (after, r) :=
        if s.CreateSecret? then S.CreateSecret(c, db, s.id, s.vault, s.kind, s.text, s.vaultKey, s.nonce, s.writes)
        else S.UpdateSecret(c, db, s.id, s.text, s.vaultKey, s.nonce, s.writes);
      (r.Ok? <==> Creates(db, s) || Updates(db, s)) && (r.Err? ==> after == db)
  {
    WrapRoundTrip(c, s.text, s.vaultKey, s.nonce);
  }

  /** The calls that take the secret away or replace its value by one that does not read as `text`. */
  ghost predicate TouchesSecret(c: Cipher, w: World, e: Event, x: Uuid, vault: Uuid, vaultKey: bytes, text: bytes) {
    match e
    case OnAccount(DeleteUserEv(actor, target, writes)) =>
      Acc.Deletes(w, actor, target, writes) && Owns(w.db, target, vault)
    case OnVault(DeleteVault(requester, target, _, writes)) =>
      target == vault && V.MayDelete(w.db, requester, vault) && writes >= 1
    case OnSecret(SoftDelete(id, _, writes)) => id == x && writes >= 1
    case OnSecret(UpdateSecret(id, value, key, nonce, _)) =>
      id == x && Updates(w.db, e.s) && Unwrap(c, Wrap(c, value, key, nonce).value, vaultKey) != Ok(text)
    case _ => false
  }

  lemma SameSecretHeld(c: Cipher, db: Db, db': Db, x: Uuid, vault: Uuid, vaultKey: bytes, text: bytes)
    requires HoldsSecret(c, db, x, vault, vaultKey, text) && x in db'.secrets && db'.secrets[x] == db.secrets[x]
    ensures HoldsSecret(c, db', x, vault, vaultKey, text)
  {
  }

  lemma AccountLeavesSecret(c: Cipher, w: World, a: Acc.Event, x: Uuid)
    requires x in w.db.secrets
    ensures var db' := Acc.Step(c, w, a).db;
      if a.DeleteUserEv? && Acc.Deletes(w, a.actor, a.target, a.writes) && Owns(w.db, a.target, w.db.secrets[x].vault)
      then x !in db'.secrets else x in db'.secrets && db'.secrets[x] == w.db.secrets[x]
  {
    match a
    case DeleteUserEv(actor, target, writes) => Acc.DeletesExactly(w, actor, target, writes);
    case UpdateRoleEv(_, _, _, _) =>
    case ResetPasswordEv(_, target, _, _, _) => assert Acc.TouchesOneAccount(w, Acc.Step(c, w, a), target);
    case ChangePasswordEv(user, _, _, _, _) => assert Acc.TouchesOneAccount(w, Acc.Step(c, w, a), user);
    case _ => assert Acc.KeepsUsers(w.db, Acc.Step(c, w, a).db);
  }

  lemma SecretCallOnSecret(c: Cipher, w: World, s: SecretEvent, x: Uuid, vault: Uuid, vaultKey: bytes, text: bytes)
    requires HoldsSecret(c, w.db, x, vault, vaultKey, text)
    ensures HoldsSecret(c, SecretStep(c, w.db, s), x, vault, vaultKey, text) <==>
      !TouchesSecret(c, w, OnSecret(s), x, vault, vaultKey, text)
  {
    match s
    case UpdateSecret(id, value, key, nonce, writes) => WrapRoundTrip(c, value, key, nonce);
    case _ =>
  }

  lemma VaultCallOnSecret(c: Cipher, w: World, v: VaultEvent, x: Uuid, vault: Uuid, vaultKey: bytes, text: bytes)
    requires HoldsSecret(c, w.db, x, vault, vaultKey, text)
    ensures HoldsSecret(c, VaultStep(c, w.db, v), x, vault, vaultKey, text) <==>
      !TouchesSecret(c, w, OnVault(v), x, vault, vaultKey, text)
  {
    match v
    case DeleteVault(requester, target, now, writes) =>
      V.DeletesExactly(c, w.db, requester, target, now, writes, requester, vaultKey);
    case CreateVault(_, _, _, _, _, _, _) => SameSecretHeld(c, w.db, VaultStep(c, w.db, v), x, vault, vaultKey, text);
  }

  /** One call keeps a readable secret exactly unless it takes it away or replaces its value. */
  lemma StepKeepsSecret(c: Cipher, w: World, e: Event, x: Uuid, vault: Uuid, vaultKey: bytes, text: bytes)
    requires HoldsSecret(c, w.db, x, vault, vaultKey, text)
    ensures HoldsSecret(c, Step(c, w, e).db, x, vault, vaultKey, text) <==>
      !TouchesSecret(c, w, e, x, vault, vaultKey, text)
  {
    match e
    case OnAccount(a) => AccountLeavesSecret(c, w, a, x);
    case OnTeam(t) => TeamStepFrame(c, w.db, t);
    case OnVault(v) => VaultCallOnSecret(c, w, v, x, vault, vaultKey, text);
    case OnSecret(s) => SecretCallOnSecret(c, w, s, x, vault, vaultKey, text);
  }

  ghost predicate SecretUntouched(c: Cipher, w: World, es: seq<Event>, x: Uuid, vault: Uuid, vaultKey: bytes,
                                  text: bytes) {
    forall i :: 0 <= i < |es| ==> !TouchesSecret(c, Run(c, w, es[..i]), es[i], x, vault, vaultKey, text)
  }

  lemma {:induction false} RunKeepsSecret(c: Cipher, w: World, es: seq<Event>, x: Uuid, vault: Uuid, vaultKey: bytes,
                                          text: bytes)
    requires HoldsSecret(c, w.db, x, vault, vaultKey, text) && SecretUntouched(c, w, es, x, vault, vaultKey, text)
    ensures HoldsSecret(c, Run(c, w, es).db, x, vault, vaultKey, text)
  {
    if es != [] {
      var k := |es| - 1;
      assert forall i :: 0 <= i <= k ==> es[..k][..i] == es[..i];
      RunKeepsSecret(c, w, es[..k], x, vault, vaultKey, text);
      StepKeepsSecret(c, Run(c, w, es[..k]), es[k], x, vault, vaultKey, text);
    }
  }

  /** What one user stores, another reads. While a member has a channel to a vault key, a secret created under that key
      is read back, after any calls that disturb neither, through whatever password the member logs in with. */
  lemma MemberReadsSecret(c: Cipher, w: World, x: Uuid, vault: Uuid, kind: SecretKind, text: bytes, vaultKey: bytes,
                          nonce: Nonce,
                          writes: nat, member: Uuid, hash: bytes, es: seq<Event>, password: bytes, key: bytes)
    requires UniqueUsernames(w.db) && KA.Channel(c, w, member, vault, hash, vaultKey)
    requires S.CreateSecret(c, w.db, x, vault, kind, text, vaultKey, nonce, writes).1.Ok?
    requires var stored := w.(db := S.CreateSecret(c, w.db, x, vault, kind, text, vaultKey, nonce, writes).0);
      KA.Undisturbed(c, stored, es, member, vault, vaultKey) && SecretUntouched(c, stored, es, x, vault, vaultKey, text)
    ensures var final := Run(c, w.(db := S.CreateSecret(c, w.db, x, vault, kind, text, vaultKey, nonce, writes).0), es);
      && member in final.db.users
      && (KA.Login(c, final, member, password) == Ok(Some(key)) ==>
            var r := V.OpenVaultForUser(c, final.db, member, vault, key, 1);
            r.Ok? && S.GetSecret(c, final.db, x, r.value) == Ok(text))
  {
    var stored := w.(db := S.CreateSecret(c, w.db, x, vault, kind, text, vaultKey, nonce, writes).0);
    S.CreateGetRoundTrip(c, w.db, x, vault, kind, text, vaultKey, nonce, writes);
    RunKeepsSecret(c, stored, es, x, vault, vaultKey, text);
    KA.RunKeepsChannel(c, stored, es, member, vault, hash, vaultKey);
    var final := Run(c, stored, es);
    if KA.Login(c, final, member, password) == Ok(Some(key)) {
      KA.ChannelLogin(c, final, member, vault, hash, vaultKey, password, key);
    }
  }

  // ---- the latest value ----

  /** Call `e` completes a creation or an update of secret `x`. */
  predicate WritesSecret(db: Db, e: Event, x: Uuid) {
    e.OnSecret? && (Creates(db, e.s) || Updates(db, e.s)) && e.s.id == x
  }

  /** Whether live or in the trash, the row of `x` holds the blob of `text` sealed under `vaultKey`. */
  ghost predicate HoldsBlob(c: Cipher, db: Db, x: Uuid, vaultKey: bytes, text: bytes) {
    x in db.secrets ==>
      S.StoredBlob(db.secrets[x]).Ok? && Unwrap(c, S.StoredBlob(db.secrets[x]).value, vaultKey) == Ok(text)
  }

  /** The row's blob is the same as before, or the row is gone, or there was and is none. */
  ghost predicate SameBlob(db: Db, db': Db, x: Uuid) {
    x in db'.secrets ==> x in db.secrets && S.StoredBlob(db'.secrets[x]) == S.StoredBlob(db.secrets[x])
  }

  lemma WriteSetsBlob(c: Cipher, db: Db, s: SecretEvent)
    requires Creates(db, s) || Updates(db, s)
    ensures s.id in SecretStep(c, db, s).secrets && HoldsBlob(c, SecretStep(c, db, s), s.id, s.vaultKey, s.text)
  {
    WrapRoundTrip(c, s.text, s.vaultKey, s.nonce);
  }

  lemma SecretCallKeepsBlob(c: Cipher, db: Db, s: SecretEvent, x: Uuid)
    requires !WritesSecret(db, OnSecret(s), x)
    ensures SameBlob(db, SecretStep(c, db, s), x)
  {
    match s
    case CreateSecret(_, _, _, text, key, nonce, _) => WrapRoundTrip(c, text, key, nonce);
    case UpdateSecret(_, text, key, nonce, _) => WrapRoundTrip(c, text, key, nonce);
    case _ =>
  }

  lemma AccountKeepsBlob(c: Cipher, w: World, a: Acc.Event, x: Uuid)
    ensures SameBlob(w.db, Acc.Step(c, w, a).db, x)
  {
    match a
    case DeleteUserEv(actor, target, writes) => Acc.DeletesExactly(w, actor, target, writes);
    case UpdateRoleEv(_, _, _, _) =>
    case ResetPasswordEv(_, target, _, _, _) => assert Acc.TouchesOneAccount(w, Acc.Step(c, w, a), target);
    case ChangePasswordEv(user, _, _, _, _) => assert Acc.TouchesOneAccount(w, Acc.Step(c, w, a), user);
    case _ => assert Acc.KeepsUsers(w.db, Acc.Step(c, w, a).db);
  }

  lemma VaultCallKeepsBlob(c: Cipher, db: Db, v: VaultEvent, x: Uuid)
    ensures SameBlob(db, VaultStep(c, db, v), x)
  {
  }

  /** Only a completed creation or update of `x` changes what its row holds; deletion and restoring do not. */
  lemma StepKeepsBlob(c: Cipher, w: World, e: Event, x: Uuid)
    requires !WritesSecret(w.db, e, x)
    ensures SameBlob(w.db, Step(c, w, e).db, x)
  {
    match e
    case OnAccount(a) => AccountKeepsBlob(c, w, a, x);
    case OnTeam(t) => TeamStepFrame(c, w.db, t);
    case OnVault(v) => VaultCallKeepsBlob(c, w.db, v, x);
    case OnSecret(s) => SecretCallKeepsBlob(c, w.db, s, x);
  }

  ghost predicate WritesAt(c: Cipher, w: World, es: seq<Event>, i: nat, x: Uuid)
    requires i < |es|
  {
    WritesSecret(Run(c, w, es[..i]).db, es[i], x)
  }

  /** Call `i` is the last of the run to complete a creation or update of `x`. */
  ghost predicate LastWrite(c: Cipher, w: World, es: seq<Event>, i: nat, x: Uuid) {
    i < |es| && WritesAt(c, w, es, i, x) && forall j: nat :: i < j < |es| ==> !WritesAt(c, w, es, j, x)
  }

  ghost predicate NeverWritten(c: Cipher, w: World, es: seq<Event>, x: Uuid) {
    forall i: nat :: i < |es| ==> !WritesAt(c, w, es, i, x)
  }

  lemma PrefixWrites(c: Cipher, w: World, es: seq<Event>, i: nat, x: Uuid)
    requires i < |es| - 1
    ensures WritesAt(c, w, es[..|es| - 1], i, x) <==> WritesAt(c, w, es, i, x)
  {
    assert es[..|es| - 1][..i] == es[..i];
  }

  /** A row found at the end of a run that never wrote it was there from the start, with the same blob. */
  lemma {:induction false} UnwrittenBlob(c: Cipher, w: World, es: seq<Event>, x: Uuid)
    requires NeverWritten(c, w, es, x)
    ensures SameBlob(w.db, Run(c, w, es).db, x)
  {
    if es != [] {
      var head := es[..|es| - 1];
      forall i: nat | i < |head| ensures !WritesAt(c, w, head, i, x) { PrefixWrites(c, w, es, i, x); }
      UnwrittenBlob(c, w, head, x);
      assert !WritesAt(c, w, es, |es| - 1, x);
      StepKeepsBlob(c, Run(c, w, head), es[|es| - 1], x);
    }
  }

  lemma PrefixLast(c: Cipher, w: World, es: seq<Event>, i: nat, x: Uuid)
    requires i < |es| - 1 && !WritesAt(c, w, es, |es| - 1, x)
    ensures LastWrite(c, w, es[..|es| - 1], i, x) <==> LastWrite(c, w, es, i, x)
  {
    var head := es[..|es| - 1];
    forall j: nat | j < |head| ensures WritesAt(c, w, head, j, x) <==> WritesAt(c, w, es, j, x) {
      PrefixWrites(c, w, es, j, x);
    }
  }

  lemma {:induction false} BlobOfLastWrite(c: Cipher, w: World, es: seq<Event>, i: nat, x: Uuid)
    requires LastWrite(c, w, es, i, x)
    ensures HoldsBlob(c, Run(c, w, es).db, x, es[i].s.vaultKey, es[i].s.text)
  {
    if i == |es| - 1 {
      WriteAtSetsBlob(c, w, es, x);
    } else {
      PrefixLast(c, w, es, i, x);
      BlobOfLastWrite(c, w, es[..|es| - 1], i, x);
      OtherKeepsBlob(c, w, es, x, es[i].s.vaultKey, es[i].s.text);
    }
  }

  lemma WriteAtSetsBlob(c: Cipher, w: World, es: seq<Event>, x: Uuid)
    requires es != [] && WritesAt(c, w, es, |es| - 1, x)
    ensures HoldsBlob(c, Run(c, w, es).db, x, es[|es| - 1].s.vaultKey, es[|es| - 1].s.text)
  {
    WriteSetsBlob(c, Run(c, w, es[..|es| - 1]).db, es[|es| - 1].s);
  }

  lemma OtherKeepsBlob(c: Cipher, w: World, es: seq<Event>, x: Uuid, vaultKey: bytes, text: bytes)
    requires es != [] && !WritesAt(c, w, es, |es| - 1, x)
    requires HoldsBlob(c, Run(c, w, es[..|es| - 1]).db, x, vaultKey, text)
    ensures HoldsBlob(c, Run(c, w, es).db, x, vaultKey, text)
  {
    StepKeepsBlob(c, Run(c, w, es[..|es| - 1]), es[|es| - 1], x);
  }

  /** Over any run, through deletions, restores, rotations and failed calls: a secret that is live at the end reads,
      under the key of its last completed creation or update, as the text of that call. */
  lemma ReadsLastWrite(c: Cipher, w: World, es: seq<Event>, i: nat, x: Uuid)
    requires LastWrite(c, w, es, i, x) && S.SecretLive(Run(c, w, es).db, x)
    ensures S.GetSecret(c, Run(c, w, es).db, x, es[i].s.vaultKey) == Ok(es[i].s.text)
  {
    BlobOfLastWrite(c, w, es, i, x);
  }

  lemma {:induction false} HasLastWrite(c: Cipher, w: World, es: seq<Event>, x: Uuid) returns (i: nat)
    requires !NeverWritten(c, w, es, x)
    ensures LastWrite(c, w, es, i, x)
  {
    var n := |es| - 1;
    if WritesAt(c, w, es, n, x) {
      i := n;
    } else {
      var j: nat :| j < |es| && WritesAt(c, w, es, j, x);
      PrefixWrites(c, w, es, j, x);
      i := HasLastWrite(c, w, es[..n], x);
      PrefixLast(c, w, es, i, x);
    }
  }

  /** And there is such a call for every secret that is live at the end and was not there at the start. */
  lemma NewSecretWasWritten(c: Cipher, w: World, es: seq<Event>, x: Uuid)
    requires x !in w.db.secrets && S.SecretLive(Run(c, w, es).db, x)
    ensures exists i: nat :: LastWrite(c, w, es, i, x)
  {
    if NeverWritten(c, w, es, x) { UnwrittenBlob(c, w, es, x); }
    var i := HasLastWrite(c, w, es, x);
  }

  /** While a member's channel is undisturbed, the member reads the latest text written under its vault key, by
      whomever. */
  lemma MemberReadsLatest(c: Cipher, w: World, es: seq<Event>, i: nat, x: Uuid, member: Uuid, vault: Uuid, hash: bytes,
                          vaultKey: bytes, password: bytes, key: bytes)
    requires UniqueUsernames(w.db) && KA.Channel(c, w, member, vault, hash, vaultKey)
    requires KA.Undisturbed(c, w, es, member, vault, vaultKey)
    requires LastWrite(c, w, es, i, x) && es[i].s.vaultKey == vaultKey && S.SecretLive(Run(c, w, es).db, x)
    ensures var final := Run(c, w, es);
      && member in final.db.users
      && (KA.Login(c, final, member, password) == Ok(Some(key)) ==>
            var r := V.OpenVaultForUser(c, final.db, member, vault, key, 1);
            r.Ok? && S.GetSecret(c, final.db, x, r.value) == Ok(es[i].s.text))
  {
    ReadsLastWrite(c, w, es, i, x);
    KA.RunKeepsChannel(c, w, es, member, vault, hash, vaultKey);
    if KA.Login(c, Run(c, w, es), member, password) == Ok(Some(key)) {
      KA.ChannelLogin(c, Run(c, w, es), member, vault, hash, vaultKey, password, key);
    }
  }
}
