/** Several restores of one database, each of which may be cut off, with starts of the application in between. */
module RestoreRuns {
  import opened Types
  import opened Paths
  import opened FileStore
  import opened Restore

  /** A restore whose process ends at state number `cut` (or at its end, if it has no such state), or a start of the
      application, which opens its database and creates it with the contents `empty` if it is missing. */
  datatype Incident = Attempt(q: Inputs, outcomes: seq<Outcome>, cut: nat) | AppStart(empty: bytes)

  function After(files: Files, db: Path, e: Incident): Files {
    match e
    case Attempt(q, outcomes, cut) =>
      var d := RunRestore(Disk(files, [], outcomes), db, q).0;
      if cut < |d.history| then d.history[cut] else d.files
    case AppStart(empty) => if db in files then files else files[db := empty]
  }

  function AfterAll(files: Files, db: Path, es: seq<Incident>): Files {
    if es == [] then files else After(AfterAll(files, db, es[..|es| - 1]), db, es[|es| - 1])
  }

  /** The copy of the database one would recover: the file at its path, else the rotated one. */
  function Copy(files: Files, db: Path): Option<bytes> {
    if db in files then Some(files[db])
    else if OldPath(db) in files then Some(files[OldPath(db)])
    else None
  }

  /** The only copy is the rotated one. */
  predicate RotatedOnly(files: Files, db: Path) {
    db !in files && OldPath(db) in files
  }

  ghost predicate Promotes(files: Files, db: Path, e: Incident) {
    e.Attempt? && Promoted(files, After(files, db, e), db, StagedBytes(e.q))
  }

  lemma AttemptReaches(files: Files, db: Path, e: Incident)
    requires e.Attempt? && !HasOldExtension(db)
    ensures Reaches(files, After(files, db, e), db, StagedBytes(e.q))
  {
    RestoreStates(Disk(files, [], e.outcomes), db, e.q);
  }

  /** Whatever happens, if the only copy is not the rotated one: the copy stays, or a restore put the staged bytes in
      its place. */
  ghost predicate KeepsCopy(files: Files, db: Path, e: Incident) {
    Copy(files, db).Some? ==> Promotes(files, db, e) || Copy(After(files, db, e), db) == Copy(files, db)
  }

  lemma StepKeepsCopy(files: Files, db: Path, e: Incident)
    requires !HasOldExtension(db) && !RotatedOnly(files, db)
    ensures KeepsCopy(files, db, e)
  {
    if e.Attempt? { AttemptReaches(files, db, e); }
  }

  ghost predicate PromotesAt(files: Files, db: Path, es: seq<Incident>, i: nat)
    requires i < |es|
  {
    Promotes(AfterAll(files, db, es[..i]), db, es[i])
  }

  /** The database file is there whenever a restore or a start begins. */
  ghost predicate PresentThroughout(files: Files, db: Path, es: seq<Incident>) {
    forall i :: 0 <= i < |es| ==> db in AfterAll(files, db, es[..i])
  }

  ghost predicate NeverPromoted(files: Files, db: Path, es: seq<Incident>) {
    forall i: nat :: i < |es| ==> !PromotesAt(files, db, es, i)
  }

  ghost predicate LastPromotion(files: Files, db: Path, es: seq<Incident>, i: nat) {
    i < |es| && PromotesAt(files, db, es, i) && forall j: nat :: i < j < |es| ==> !PromotesAt(files, db, es, j)
  }

  lemma PrefixPromotes(files: Files, db: Path, es: seq<Incident>, i: nat)
    requires i < |es| - 1
    ensures PromotesAt(files, db, es[..|es| - 1], i) <==> PromotesAt(files, db, es, i)
  {
    assert es[..|es| - 1][..i] == es[..i];
  }

  lemma PrefixPresent(files: Files, db: Path, es: seq<Incident>)
    requires es != [] && PresentThroughout(files, db, es)
    ensures PresentThroughout(files, db, es[..|es| - 1]) && db in AfterAll(files, db, es[..|es| - 1])
  {
    var head := es[..|es| - 1];
    forall i | 0 <= i < |head| ensures db in AfterAll(files, db, head[..i]) {
      assert head[..i] == es[..i];
    }
  }

  lemma CopyAfterOneMore(files: Files, db: Path, es: seq<Incident>)
    requires es != [] && !HasOldExtension(db) && db in AfterAll(files, db, es[..|es| - 1])
    ensures Copy(AfterAll(files, db, es), db) ==
      if PromotesAt(files, db, es, |es| - 1) then Some(StagedBytes(es[|es| - 1].q))
      else Copy(AfterAll(files, db, es[..|es| - 1]), db)
  {
    StepKeepsCopy(AfterAll(files, db, es[..|es| - 1]), db, es[|es| - 1]);
  }

  lemma {:induction false} UnpromotedCopy(files: Files, db: Path, es: seq<Incident>)
    requires !HasOldExtension(db) && db in files && PresentThroughout(files, db, es) && NeverPromoted(files, db, es)
    ensures Copy(AfterAll(files, db, es), db) == Some(files[db])
  {
    if es != [] {
      var n := |es| - 1;
      PrefixPresent(files, db, es);
      forall i: nat | i < n ensures !PromotesAt(files, db, es[..n], i) { PrefixPromotes(files, db, es, i); }
      UnpromotedCopy(files, db, es[..n]);
      CopyAfterOneMore(files, db, es);
    }
  }

  lemma PrefixLast(files: Files, db: Path, es: seq<Incident>, i: nat)
    requires LastPromotion(files, db, es, i) && i < |es| - 1
    ensures LastPromotion(files, db, es[..|es| - 1], i) && !PromotesAt(files, db, es, |es| - 1)
  {
    var head := es[..|es| - 1];
    PrefixPromotes(files, db, es, i);
    forall j: nat | i < j < |head| ensures !PromotesAt(files, db, head, j) { PrefixPromotes(files, db, es, j); }
  }

  lemma {:induction false} CopyOfLastPromotion(files: Files, db: Path, es: seq<Incident>, i: nat)
    requires !HasOldExtension(db) && PresentThroughout(files, db, es) && LastPromotion(files, db, es, i)
    ensures Copy(AfterAll(files, db, es), db) == Some(StagedBytes(es[i].q))
  {
    PrefixPresent(files, db, es);
    CopyAfterOneMore(files, db, es);
    if i < |es| - 1 {
      PrefixLast(files, db, es, i);
      CopyOfLastPromotion(files, db, es[..|es| - 1], i);
    }
  }

  /** Main result. Over any sequence of restores, each cut off anywhere, and starts: as long as the database file is
      present whenever one of them begins, the recoverable copy is the one the last promotion put in place, and the
      original if no restore came that far. */
  lemma RunKeepsCopy(files: Files, db: Path, es: seq<Incident>)
    requires !HasOldExtension(db) && db in files && PresentThroughout(files, db, es)
    ensures NeverPromoted(files, db, es) ==> Copy(AfterAll(files, db, es), db) == Some(files[db])
    ensures forall i: nat :: LastPromotion(files, db, es, i) ==>
      Copy(AfterAll(files, db, es), db) == Some(StagedBytes(es[i].q))
  {
    if NeverPromoted(files, db, es) { UnpromotedCopy(files, db, es); }
    forall i: nat | LastPromotion(files, db, es, i)
      ensures Copy(AfterAll(files, db, es), db) == Some(StagedBytes(es[i].q)) {
      CopyOfLastPromotion(files, db, es, i);
    }
  }

  // ---- a retry after a crash between the renames ----

  /** Where a restore that meets no failure stands right after its first rename, or removal, of the promotion. */
  function PromotionStart(files: Files, db: Path, q: Inputs): nat {
    |Stage(Disk(files, [], []), StagingPath(db), q).0.history|
  }

  lemma StagedFirst(files: Files, db: Path, q: Inputs)
    requires q.plaintext.Ok? && q.edited
    ensures var d1 := Stage(Disk(files, [], []), StagingPath(db), q).0;
      && d1.outcomes == [] && RunRestore(Disk(files, [], []), db, q) == Promote(d1, StagingPath(db), db)
      && StagingPath(db) in d1.files && StagingPath(db) != db && StagingPath(db) != OldPath(db)
      && (db in d1.files <==> db in files) && (db in files ==> d1.files[db] == files[db])
      && (OldPath(db) in d1.files <==> OldPath(db) in files)
      && (OldPath(db) in files ==> d1.files[OldPath(db)] == files[OldPath(db)])
  {
    RestorePathsDiffer(db);
    StageCompletes(Disk(files, [], []), StagingPath(db), q);
    StageTouches(Disk(files, [], []), StagingPath(db), q);
  }

  /** Restoring over a lone rotated copy removes it before anything takes its place: cut off there, neither path holds a
      file. */
  lemma RetryLoses(files: Files, db: Path, q: Inputs)
    requires RotatedOnly(files, db) && q.plaintext.Ok? && q.edited
    ensures var lost := After(files, db, Attempt(q, [], PromotionStart(files, db, q)));
      db !in lost && OldPath(db) !in lost
  {
    StagedFirst(files, db, q);
    var d1 := Stage(Disk(files, [], []), StagingPath(db), q).0;
    var d2 := RemoveFile(Ancillary(d1).0, OldPath(db)).0;
    var d' := Promote(d1, StagingPath(db), db).0;
    assert d2.history == d1.history + [d2.files];
    assert d'.history[|d1.history|] == d2.files;
  }

  /** Exactly when every restore, wherever it is cut off, keeps the copy or replaces it by staged bytes. */
  lemma AttemptsKeepExactly(files: Files, db: Path)
    requires !HasOldExtension(db)
    ensures (forall q, outcomes, cut :: KeepsCopy(files, db, Attempt(q, outcomes, cut))) <==> !RotatedOnly(files, db)
  {
    if RotatedOnly(files, db) {
      var q := Inputs(Ok([]), [], true);
      RetryLoses(files, db, q);
      assert !KeepsCopy(files, db, Attempt(q, [], PromotionStart(files, db, q)));
    } else {
      forall q, outcomes, cut ensures KeepsCopy(files, db, Attempt(q, outcomes, cut)) {
        StepKeepsCopy(files, db, Attempt(q, outcomes, cut));
      }
    }
  }

  /** And exactly when every start does. */
  lemma StartsKeepExactly(files: Files, db: Path)
    ensures (forall empty :: KeepsCopy(files, db, AppStart(empty))) <==> !RotatedOnly(files, db)
  {
    if RotatedOnly(files, db) {
      assert !KeepsCopy(files, db, AppStart(files[OldPath(db)] + [0]));
    }
  }

  /** A restore of a present database without an earlier rotation, cut off between its renames, leaves a lone rotated
      copy. */
  lemma CutBetweenRenames(db: Path, original: bytes, q: Inputs)
    requires !HasOldExtension(db) && q.plaintext.Ok? && q.edited
    ensures var files := map[db := original];
      var cut := After(files, db, Attempt(q, [], PromotionStart(files, db, q)));
      RotatedOnly(cut, db) && cut[OldPath(db)] == original
  {
    var files := map[db := original];
    OldPathCollision(db);
    StagedFirst(files, db, q);
    var d1 := Stage(Disk(files, [], []), StagingPath(db), q).0;
    var d2 := RenameFile(Ancillary(d1).0, db, OldPath(db)).0;
    var d' := Promote(d1, StagingPath(db), db).0;
    assert d2.history == d1.history + [d2.files];
    assert d'.history[|d1.history|] == d2.files;
  }

  /** A restore that is not cut off rotates what it finds at the path. */
  lemma CompletedAttempt(files: Files, db: Path, q: Inputs)
    requires !HasOldExtension(db) && db in files && q.plaintext.Ok? && q.edited
    ensures var d := RunRestore(Disk(files, [], []), db, q).0;
      var done := After(files, db, Attempt(q, [], |d.history|));
      db in done && done[db] == StagedBytes(q) && OldPath(db) in done && done[OldPath(db)] == files[db]
  {
    RestoreCompletes(Disk(files, [], []), db, q);
    RestoreKeepsOriginal(Disk(files, [], []), db, q);
  }

  /** Two restores of a present database, both cut off during their promotion, leave it at neither path. */
  lemma TwoAttemptsLose(db: Path, original: bytes, q: Inputs) returns (es: seq<Incident>)
    requires !HasOldExtension(db) && q.plaintext.Ok? && q.edited
    ensures |es| == 2 && es[0].Attempt? && es[0].q == q && es[1].Attempt? && es[1].q == q
    ensures Copy(AfterAll(map[db := original], db, es), db) == None
  {
    var files: Files := map[db := original];
    var first := Attempt(q, [], PromotionStart(files, db, q));
    CutBetweenRenames(db, original, q);
    var cut := After(files, db, first);
    RetryLoses(cut, db, q);
    es := [first, Attempt(q, [], PromotionStart(cut, db, q))];
    assert es[..1] == [first] && es[..1][..0] == [];
    assert AfterAll(files, db, es[..1]) == cut;
  }

  /** A restore cut off, a start, and a restore that completes: the new file the start created is what gets rotated, and
      the original is at neither path. */
  lemma StartBetweenLoses(db: Path, original: bytes, empty: bytes, q: Inputs) returns (es: seq<Incident>)
    requires !HasOldExtension(db) && q.plaintext.Ok? && q.edited
    ensures |es| == 3 && es[0].Attempt? && es[1] == AppStart(empty) && es[2].Attempt?
    ensures var final := AfterAll(map[db := original], db, es);
      && db in final && final[db] == StagedBytes(q)
      && OldPath(db) in final && final[OldPath(db)] == empty
  {
    var files: Files := map[db := original];
    var first := Attempt(q, [], PromotionStart(files, db, q));
    CutBetweenRenames(db, original, q);
    var cut := After(files, db, first);
    var started := After(cut, db, AppStart(empty));
    var second := Attempt(q, [], |RunRestore(Disk(started, [], []), db, q).0.history|);
    CompletedAttempt(started, db, q);
    es := [first, AppStart(empty), second];
    assert es[..2] == [first, AppStart(empty)] && es[..2][..1] == [first] && [first][..0] == [];
    assert AfterAll(files, db, [first]) == cut;
    assert AfterAll(files, db, es[..2]) == started;
  }
}
