/** Restoring a backup over the live database: stage beside it, then rotate and rename. */
module Restore {
  import opened Types
  import opened Paths
  import opened FileStore

  /** What the import of a backup file and the password update on the staged database answer. */
  datatype Inputs = Inputs(plaintext: Result<bytes>, edits: seq<bytes>, edited: bool)

  // ---- the steps ----

  function CleanupStaging(d: Disk, staging: Path): (Disk, Result<()>) {
    var (d1, ok) := if staging in d.files then RemoveFile(d, staging) else (d, true);
    if !ok then (d1, Err(Io))
    else
      var leftover := OldPath(staging);
      var (d2, ok2) := if leftover in d1.files then RemoveFile(d1, leftover) else (d1, true);
      (d2, if ok2 then Ok(()) else Err(Io))
  }

  /** Rotating a present target out of the way, then writing it anew. */
  function ReplaceExisting(d: Disk, target: Path, plaintext: bytes): (Disk, Result<()>) {
    var (d0, made) := Ancillary(d);
    if !made then (d0, Err(Io))
    else
      var (d1, rotated) := if target in d0.files then Rotate(d0, target) else (d0, true);
      if !rotated then (d1, Err(Io))
      else
        var (d2, written) := WriteFile(d1, target, plaintext);
        if !written then (d2, Err(Io))
        else
          var (d3, restricted) := Ancillary(d2);
          (d3, if restricted then Ok(()) else Err(Io))
  }

  /** Removing an earlier rotation and renaming the file onto its place. */
  function Rotate(d: Disk, target: Path): (Disk, bool) {
    var (d1, ok) := if OldPath(target) in d.files then RemoveFile(d, OldPath(target)) else (d, true);
    if !ok then (d1, false) else RenameFile(d1, target, OldPath(target))
  }

  /** Everything before the live database is touched. */
  function Stage(d: Disk, staging: Path, q: Inputs): (Disk, Result<()>) {
    var (d1, cleaned) := CleanupStaging(d, staging);
    if cleaned.Err? then (d1, cleaned)
    else match q.plaintext
      case Err(e) => (d1, Err(e))
      case Ok(plaintext) =>
        var (d2, imported) := ReplaceExisting(d1, staging, plaintext);
        if imported.Err? then (d2, imported)
        else
          var d3 := EditFile(d2, staging, q.edits);
          (d3, if q.edited then Ok(()) else Err(Storage))
  }

  function Promote(d: Disk, staging: Path, db: Path): (Disk, Result<()>) {
    var (d0, made) := Ancillary(d);
    if !made then (d0, Err(Io))
    else
      var (d1, removed) := if OldPath(db) in d0.files then RemoveFile(d0, OldPath(db)) else (d0, true);
      if !removed then (d1, Err(Io))
      else
        var present := db in d1.files;
        var (d2, rotated) := if present then RenameFile(d1, db, OldPath(db)) else (d1, true);
        if !rotated then (d2, Err(Io))
        else
          var (d3, promoted) := RenameFile(d2, staging, db);
          if promoted then (d3, Ok(()))
          else if present && OldPath(db) in d3.files then (RenameFile(d3, OldPath(db), db).0, Err(Io))
          else (d3, Err(Io))
  }

  function RunRestore(d: Disk, db: Path, q: Inputs): (Disk, Result<()>) {
    var (d1, staged) := Stage(d, StagingPath(db), q);
    if staged.Err? then (d1, staged) else Promote(d1, StagingPath(db), db)
  }

  // ---- as they run ----

  method CleanupStagingPath(fs: FileSystem, staging: Path) returns (r: Result<()>)
    modifies fs
    ensures (fs.State(), r) == CleanupStaging(old(fs.State()), staging)
  {
    if staging in fs.files {
      var ok := fs.Remove(staging);
      if !ok { return Err(Io); }
    }
    if OldPath(staging) in fs.files {
      var ok := fs.Remove(OldPath(staging));
      if !ok { return Err(Io); }
    }
    return Ok(());
  }

  method ReplaceExistingDatabase(fs: FileSystem, target: Path, plaintext: bytes) returns (r: Result<()>)
    modifies fs
    ensures (fs.State(), r) == ReplaceExisting(old(fs.State()), target, plaintext)
  {
    var made := fs.CreateDirectoryOrPermissions();
    if !made { return Err(Io); }
    if target in fs.files {
      if OldPath(target) in fs.files {
        var removed := fs.Remove(OldPath(target));
        if !removed { return Err(Io); }
      }
      var renamed := fs.Rename(target, OldPath(target));
      if !renamed { return Err(Io); }
    }
    var written := fs.Write(target, plaintext);
    if !written { return Err(Io); }
    var restricted := fs.CreateDirectoryOrPermissions();
    return if restricted then Ok(()) else Err(Io);
  }

  method PromoteStagedRestore(fs: FileSystem, staging: Path, db: Path) returns (r: Result<()>)
    modifies fs
    ensures (fs.State(), r) == Promote(old(fs.State()), staging, db)
  {
    var made := fs.CreateDirectoryOrPermissions();
    if !made { return Err(Io); }
    if OldPath(db) in fs.files {
      var removed := fs.Remove(OldPath(db));
      if !removed { return Err(Io); }
    }
    var present := db in fs.files;
    if present {
      var rotated := fs.Rename(db, OldPath(db));
      if !rotated { return Err(Io); }
    }
    var promoted := fs.Rename(staging, db);
    if !promoted {
      if present && OldPath(db) in fs.files {
        var _ := fs.Rename(OldPath(db), db);
      }
      return Err(Io);
    }
    return Ok(());
  }

  method RestoreDatabase(fs: FileSystem, db: Path, q: Inputs) returns (r: Result<()>)
    modifies fs
    ensures (fs.State(), r) == RunRestore(old(fs.State()), db, q)
  {
    var staging := StagingPath(db);
    r := CleanupStagingPath(fs, staging);
    if r.Err? { return; }
    match q.plaintext {
      case Err(e) => return Err(e);
      case Ok(plaintext) => r := ReplaceExistingDatabase(fs, staging, plaintext);
    }
    if r.Err? { return; }
    fs.Edit(staging, q.edits);
    if !q.edited { return Err(Storage); }
    r := PromoteStagedRestore(fs, staging, db);
  }

  // ---- safety at every crash point ----

  /** The bytes the database held before are still at its path or at its rotated path. */
  ghost predicate Safe(before: Files, now: Files, db: Path) {
    db in before ==> (db in now && now[db] == before[db]) || (OldPath(db) in now && now[OldPath(db)] == before[db])
  }

  /** In every state from `before` to the end, wherever the process may have been cut off. */
  ghost predicate SafeThroughout(d: Disk, d': Disk, db: Path) {
    Safe(d.files, d'.files, db) && forall i :: |d.history| <= i < |d'.history| ==> Safe(d.files, d'.history[i], db)
  }

  lemma CleanupTouches(d: Disk, staging: Path)
    ensures Extends(d, CleanupStaging(d, staging).0, {staging, OldPath(staging)})
  {
    var touched := {staging, OldPath(staging)};
    var (d1, ok) := if staging in d.files then RemoveFile(d, staging) else (d, true);
    var (d2, ok2) := if OldPath(staging) in d1.files then RemoveFile(d1, OldPath(staging)) else (d1, true);
    ExtendsTrans(d, d1, d2, touched, touched, touched);
  }

  lemma RotateTouches(d: Disk, target: Path)
    ensures Extends(d, Rotate(d, target).0, {target, OldPath(target)})
  {
    var touched := {target, OldPath(target)};
    var (d1, ok) := if OldPath(target) in d.files then RemoveFile(d, OldPath(target)) else (d, true);
    ExtendsTrans(d, d1, RenameFile(d1, target, OldPath(target)).0, touched, touched, touched);
  }

  lemma ReplaceTouches(d: Disk, target: Path, plaintext: bytes)
    ensures Extends(d, ReplaceExisting(d, target, plaintext).0, {target, OldPath(target)})
    ensures ReplaceExisting(d, target, plaintext).1.Ok? ==>
      target in ReplaceExisting(d, target, plaintext).0.files
        && ReplaceExisting(d, target, plaintext).0.files[target] == plaintext
  {
    var touched := {target, OldPath(target)};
    var d0 := Ancillary(d).0;
    RotateTouches(d0, target);
    var d1 := if target in d0.files then Rotate(d0, target).0 else d0;
    var d2 := WriteFile(d1, target, plaintext).0;
    ExtendsTrans(d0, d1, d2, touched, touched, touched);
    ExtendsTrans(d, d0, d1, touched, touched, touched);
    ExtendsTrans(d, d1, d2, touched, touched, touched);
    ExtendsTrans(d, d2, Ancillary(d2).0, touched, touched, touched);
  }

  /** A clean-up that reports success leaves neither of the two files it removes. */
  lemma CleanupLeavesNone(d: Disk, staging: Path)
    requires CleanupStaging(d, staging).1.Ok?
    ensures staging !in CleanupStaging(d, staging).0.files && OldPath(staging) !in CleanupStaging(d, staging).0.files
  {
  }

  /** A present target is rotated, not overwritten. */
  lemma ReplaceRotates(d: Disk, target: Path, plaintext: bytes)
    requires target in d.files && OldPath(target) != target && ReplaceExisting(d, target, plaintext).1.Ok?
    ensures var after := ReplaceExisting(d, target, plaintext).0.files;
      && target in after && after[target] == plaintext
      && OldPath(target) in after && after[OldPath(target)] == d.files[target]
  {
  }

  /** Nothing before the promotion touches any file but the two staging files. */
  lemma StageTouches(d: Disk, staging: Path, q: Inputs)
    ensures Extends(d, Stage(d, staging, q).0, {staging, OldPath(staging)})
    ensures var (d', r) := Stage(d, staging, q);
      r.Ok? ==> staging in d'.files && d'.files[staging] == StagedBytes(q)
  {
    var touched := {staging, OldPath(staging)};
    CleanupTouches(d, staging);
    var (d1, cleaned) := CleanupStaging(d, staging);
    if cleaned.Ok? && q.plaintext.Ok? {
      ReplaceTouches(d1, staging, q.plaintext.value);
      var d2 := ReplaceExisting(d1, staging, q.plaintext.value).0;
      ExtendsTrans(d, d1, d2, touched, touched, touched);
      ExtendsTrans(d, d2, EditFile(d2, staging, q.edits), touched, touched, touched);
    }
  }

  /** The contents of the staging file when it is promoted. */
  function StagedBytes(q: Inputs): bytes {
    if q.edits != [] then q.edits[|q.edits| - 1] else if q.plaintext.Ok? then q.plaintext.value else []
  }

  // ---- the three places a state on the way can be in ----

  /** The database file is as it was, and an earlier rotation is as it was or gone. */
  ghost predicate Unmoved(before: Files, now: Files, db: Path) {
    && (db in now <==> db in before) && (db in before ==> now[db] == before[db])
    && (OldPath(db) in now ==> OldPath(db) in before && now[OldPath(db)] == before[OldPath(db)])
  }

  /** Between the two renames: the database is at its rotated path only. */
  ghost predicate Rotated(before: Files, now: Files, db: Path) {
    db in before && db !in now && OldPath(db) in now && now[OldPath(db)] == before[db]
  }

  /** The staged bytes are in place, and the rotated path holds what they replaced. */
  ghost predicate Promoted(before: Files, now: Files, db: Path, staged: bytes) {
    && db in now && now[db] == staged
    && (OldPath(db) in now <==> db in before) && (db in before ==> now[OldPath(db)] == before[db])
  }

  ghost predicate Reaches(before: Files, now: Files, db: Path, staged: bytes) {
    Unmoved(before, now, db) || Rotated(before, now, db) || Promoted(before, now, db, staged)
  }

  /** Every state from `d` to the end is in one of the three places. */
  ghost predicate ReachesThroughout(d: Disk, d': Disk, db: Path, staged: bytes) {
    && d.history <= d'.history && Reaches(d.files, d'.files, db, staged)
    && forall i :: |d.history| <= i < |d'.history| ==> Reaches(d.files, d'.history[i], db, staged)
  }

  lemma OneMoreState(d: Disk, d1: Disk, d2: Disk, db: Path, staged: bytes)
    requires ReachesThroughout(d, d1, db, staged) && Reaches(d.files, d2.files, db, staged)
    requires d2.history == d1.history || d2.history == d1.history + [d2.files]
    ensures ReachesThroughout(d, d2, db, staged)
  {
  }

  /** The first half of the promotion: an earlier rotation goes, and the database is rotated. */
  lemma RotationStates(d: Disk, db: Path, staged: bytes)
    requires OldPath(db) != db
    ensures var d1 := if OldPath(db) in d.files then RemoveFile(d, OldPath(db)).0 else d;
      ReachesThroughout(d, d1, db, staged) && Unmoved(d.files, d1.files, db)
      && (db in d1.files ==> ReachesThroughout(d, RenameFile(d1, db, OldPath(db)).0, db, staged))
  {
    var d1 := if OldPath(db) in d.files then RemoveFile(d, OldPath(db)).0 else d;
    OneMoreState(d, d, d1, db, staged);
    if db in d1.files { OneMoreState(d, d1, RenameFile(d1, db, OldPath(db)).0, db, staged); }
  }

  /** The second half: the staged file takes the place of the rotated database, or the rotation is undone. */
  lemma RenamingStates(d: Disk, d2: Disk, staging: Path, db: Path, staged: bytes)
    requires ReachesThroughout(d, d2, db, staged) && staging != db && staging != OldPath(db) && OldPath(db) != db
    requires staging in d2.files ==> d2.files[staging] == staged
    requires Rotated(d.files, d2.files, db) || (db !in d.files && db !in d2.files && OldPath(db) !in d2.files)
    ensures var (d3, promoted) := RenameFile(d2, staging, db);
      && ReachesThroughout(d, d3, db, staged)
      && (promoted ==> Promoted(d.files, d3.files, db, staged))
      && (!promoted && OldPath(db) in d3.files ==> ReachesThroughout(d, RenameFile(d3, OldPath(db), db).0, db, staged))
  {
    var (d3, promoted) := RenameFile(d2, staging, db);
    OneMoreState(d, d2, d3, db, staged);
    if !promoted && OldPath(db) in d3.files { OneMoreState(d, d3, RenameFile(d3, OldPath(db), db).0, db, staged); }
  }

  lemma PromoteStates(d: Disk, staging: Path, db: Path)
    requires staging != db && staging != OldPath(db) && OldPath(db) != db && staging in d.files
    ensures ReachesThroughout(d, Promote(d, staging, db).0, db, d.files[staging])
    ensures Promote(d, staging, db).1.Ok? ==> Promoted(d.files, Promote(d, staging, db).0.files, db, d.files[staging])
  {
    var staged := d.files[staging];
    var d0 := Ancillary(d).0;
    RotationStates(d0, db, staged);
    var (d1, removed) := if OldPath(db) in d0.files then RemoveFile(d0, OldPath(db)) else (d0, true);
    var (d2, rotated) := if db in d1.files then RenameFile(d1, db, OldPath(db)) else (d1, true);
    if removed && rotated { RenamingStates(d0, d2, staging, db, staged); }
  }

  /** A promotion that reports success moved the staged file, and touched nothing but the three paths. */
  lemma PromoteOutcome(d: Disk, staging: Path, db: Path)
    requires staging != db && staging != OldPath(db) && OldPath(db) != db && Promote(d, staging, db).1.Ok?
    ensures var after := Promote(d, staging, db).0.files;
      && staging in d.files && staging !in after && Promoted(d.files, after, db, d.files[staging])
      && Within(d.files, after, {staging, db, OldPath(db)})
  {
    var d0 := Ancillary(d).0;
    var d1 := if OldPath(db) in d0.files then RemoveFile(d0, OldPath(db)).0 else d0;
    var d2 := if db in d1.files then RenameFile(d1, db, OldPath(db)).0 else d1;
    assert Within(d.files, d2.files, {staging, db, OldPath(db)}) && staging in d2.files
      && d2.files[staging] == d.files[staging];
    PromoteStates(d, staging, db);
  }

  lemma StagingUnmoved(d: Disk, d1: Disk, staging: Path, db: Path, staged: bytes)
    requires Extends(d, d1, {staging, OldPath(staging)})
    requires staging != db && OldPath(staging) != db && staging != OldPath(db) && OldPath(staging) != OldPath(db)
    ensures ReachesThroughout(d, d1, db, staged) && Unmoved(d.files, d1.files, db)
  {
  }

  /** What is reached from an unmoved database is reached from the start. */
  lemma ReachesTrans(d: Disk, d1: Disk, d2: Disk, db: Path, staged: bytes)
    requires ReachesThroughout(d, d1, db, staged) && Unmoved(d.files, d1.files, db)
      && ReachesThroughout(d1, d2, db, staged)
    ensures ReachesThroughout(d, d2, db, staged)
  {
    forall i | |d.history| <= i < |d2.history| ensures Reaches(d.files, d2.history[i], db, staged) {
      if i < |d1.history| { assert d2.history[i] == d1.history[i]; }
      else { assert Reaches(d1.files, d2.history[i], db, staged); }
    }
  }

  // ---- exactly where a promotion ends ----

  function OutcomeAt(d: Disk, i: nat): Outcome {
    if i < |d.outcomes| then d.outcomes[i] else Done
  }

  /** The number of the operation that renames the staged file: after the directory and the first rename, and after the
      removal of an earlier rotation if there is one. */
  function StagedRename(d: Disk, db: Path): nat {
    if OldPath(db) in d.files then 3 else 2
  }

  /** The promotion of a staged file over a present database succeeds exactly if all its operations do. If it fails, the
      original is back at the database path, except if the renaming of the staged file and then the renaming back both
      fail. */
  lemma PromoteExactly(d: Disk, staging: Path, db: Path)
    requires staging != db && staging != OldPath(db) && OldPath(db) != db && staging in d.files && db in d.files
    ensures var (d', r) := Promote(d, staging, db);
      var k := StagedRename(d, db);
      var rotates := forall i :: 0 <= i < k ==> OutcomeAt(d, i).Done?;
      && (r.Ok? <==> rotates && OutcomeAt(d, k).Done?)
      && (r.Ok? ==> Promoted(d.files, d'.files, db, d.files[staging]))
      && (r.Err? ==>
            if rotates && !OutcomeAt(d, k + 1).Done? then Rotated(d.files, d'.files, db)
              else Unmoved(d.files, d'.files, db))
  {
    var d0 := Ancillary(d).0;
    ConsumedOutcomes(d);
    HalfwayExactly(d0, db);
    var k := StagedRename(d, db);
    assert (forall i :: 0 <= i < k ==> OutcomeAt(d, i).Done?) <==>
      OutcomeAt(d, 0).Done? && forall i :: 0 <= i < k - 1 ==> OutcomeAt(d0, i).Done? by {
      assert forall i :: 1 <= i < k ==> OutcomeAt(d, i) == OutcomeAt(d0, i - 1);
    }
    var (d1, removed) := if OldPath(db) in d0.files then RemoveFile(d0, OldPath(db)) else (d0, true);
    var (d2, rotated) := if removed then RenameFile(d1, db, OldPath(db)) else (d1, false);
    if rotated { LastRenames(d, d2, staging, db); }
  }

  /** The first half of the promotion, after the directory. */
  lemma HalfwayExactly(d0: Disk, db: Path)
    requires OldPath(db) != db && db in d0.files
    ensures var (d1, removed) := if OldPath(db) in d0.files then RemoveFile(d0, OldPath(db)) else (d0, true);
      var (d2, rotated) := if removed then RenameFile(d1, db, OldPath(db)) else (d1, false);
      var m := StagedRename(d0, db) - 1;
      && (rotated <==> forall i :: 0 <= i < m ==> OutcomeAt(d0, i).Done?)
      && (!rotated ==> Unmoved(d0.files, d2.files, db))
      && (rotated ==>
            && Rotated(d0.files, d2.files, db) && Within(d0.files, d2.files, {db, OldPath(db)})
            && forall i: nat :: OutcomeAt(d2, i) == OutcomeAt(d0, m + i))
  {
    ConsumedOutcomes(d0);
    ConsumedOutcomes(Consume(d0));
    var m := StagedRename(d0, db) - 1;
    assert (forall i :: 0 <= i < m ==> OutcomeAt(d0, i).Done?) <==>
      OutcomeAt(d0, 0).Done? && (m == 2 ==> OutcomeAt(d0, 1).Done?);
  }

  /** The second half: the staged file is renamed, or else the original back. */
  lemma LastRenames(d: Disk, d2: Disk, staging: Path, db: Path)
    requires staging != db && staging != OldPath(db) && OldPath(db) != db && staging in d2.files
    requires Rotated(d.files, d2.files, db)
    ensures var (d3, promoted) := RenameFile(d2, staging, db);
      && (promoted <==> OutcomeAt(d2, 0).Done?)
      && (promoted ==> Promoted(d.files, d3.files, db, d2.files[staging]))
      && (!promoted ==>
            && OldPath(db) in d3.files
            && var d4 := RenameFile(d3, OldPath(db), db).0;
            if OutcomeAt(d2, 1).Done? then Unmoved(d.files, d4.files, db) else Rotated(d.files, d4.files, db))
  {
    ConsumedOutcomes(d2);
    ConsumedOutcomes(Consume(d2));
  }

  lemma ConsumedOutcomes(d: Disk)
    ensures NextOutcome(d) == OutcomeAt(d, 0) && forall i: nat :: OutcomeAt(Consume(d), i) == OutcomeAt(d, i + 1)
  {
  }

  /** In every state of a run the database is unmoved, or rotated out of the way, or replaced by the staged bytes with
      the original rotated. */
  lemma RestoreStates(d: Disk, db: Path, q: Inputs)
    requires !HasOldExtension(db)
    ensures ReachesThroughout(d, RunRestore(d, db, q).0, db, StagedBytes(q))
  {
    OldPathCollision(db);
    RestorePathsDiffer(db);
    StageTouches(d, StagingPath(db), q);
    var (d1, staged) := Stage(d, StagingPath(db), q);
    StagingUnmoved(d, d1, StagingPath(db), db, StagedBytes(q));
    if staged.Ok? {
      PromoteStates(d1, StagingPath(db), db);
      ReachesTrans(d, d1, Promote(d1, StagingPath(db), db).0, db, StagedBytes(q));
    }
  }

  /** A backup that cannot be read, or whose database refuses the new password, never reaches the promotion: the restore
      fails and no file but the two staging files differs. */
  lemma RefusedInputs(d: Disk, db: Path, q: Inputs)
    requires q.plaintext.Err? || !q.edited
    ensures RunRestore(d, db, q).1.Err?
    ensures Extends(d, RunRestore(d, db, q).0, {StagingPath(db), OldPath(StagingPath(db))})
  {
    StageTouches(d, StagingPath(db), q);
  }

  lemma ReachedIsSafe(before: Files, now: Files, db: Path, staged: bytes)
    requires Reaches(before, now, db, staged)
    ensures Safe(before, now, db)
  {
  }

  /** Main result. For a database whose extension is not `old`, whatever fails or crashes: in every state on the way the
      original bytes are at the database path or its rotated path; an error return leaves them there; and success leaves
      the staged bytes at the database path, the original rotated, no staging file, and every other file as it was. */
  lemma RestoreKeepsOriginal(d: Disk, db: Path, q: Inputs)
    requires !HasOldExtension(db)
    ensures var (d', r) := RunRestore(d, db, q);
      && SafeThroughout(d, d', db)
      && (r.Ok? ==>
            && db in d'.files && d'.files[db] == StagedBytes(q) && StagingPath(db) !in d'.files
            && (db in d.files ==> OldPath(db) in d'.files && d'.files[OldPath(db)] == d.files[db])
            && Within(d.files, d'.files, {StagingPath(db), OldPath(StagingPath(db)), db, OldPath(db)}))
  {
    var (d', r) := RunRestore(d, db, q);
    RestoreStates(d, db, q);
    ReachedIsSafe(d.files, d'.files, db, StagedBytes(q));
    forall i | |d.history| <= i < |d'.history| ensures Safe(d.files, d'.history[i], db) {
      ReachedIsSafe(d.files, d'.history[i], db, StagedBytes(q));
    }
    OldPathCollision(db);
    RestorePathsDiffer(db);
    StageTouches(d, StagingPath(db), q);
    if r.Ok? { PromoteOutcome(Stage(d, StagingPath(db), q).0, StagingPath(db), db); }
  }

  /** A restore whose inputs are good and whose file operations all succeed completes. */
  lemma RestoreCompletes(d: Disk, db: Path, q: Inputs)
    requires d.outcomes == [] && q.plaintext.Ok? && q.edited
    ensures RunRestore(d, db, q).1.Ok?
  {
    RestorePathsDiffer(db);
    StageCompletes(d, StagingPath(db), q);
    StageTouches(d, StagingPath(db), q);
    PromotionCompletes(Stage(d, StagingPath(db), q).0, StagingPath(db), db);
  }

  lemma PromotionCompletes(d: Disk, staging: Path, db: Path)
    requires d.outcomes == [] && staging in d.files && staging != db && staging != OldPath(db)
    ensures Promote(d, staging, db).1.Ok?
  {
  }

  lemma StageCompletes(d: Disk, staging: Path, q: Inputs)
    requires d.outcomes == [] && q.plaintext.Ok? && q.edited
    ensures Stage(d, staging, q).1.Ok? && Stage(d, staging, q).0.outcomes == []
  {
    var d1 := CleanupStaging(d, staging).0;
    var d2 := ReplaceExisting(d1, staging, q.plaintext.value).0;
    EditKeepsOutcomes(d2, staging, q.edits);
  }

  lemma {:induction false} EditKeepsOutcomes(d: Disk, p: Path, contents: seq<bytes>)
    ensures EditFile(d, p, contents).outcomes == d.outcomes
  {
    if contents != [] { EditKeepsOutcomes(d, p, contents[..|contents| - 1]); }
  }

  /** A database whose own extension is `old` is removed as if it were an earlier rotation: from the moment promotion
      begins without an error, its bytes are gone. */
  lemma OldExtensionLosesOriginal(d: Disk, db: Path, q: Inputs)
    requires HasOldExtension(db) && db in d.files && RunRestore(d, db, q).1.Ok?
    ensures !SafeThroughout(d, RunRestore(d, db, q).0, db)
  {
    OldPathCollision(db);
    RestorePathsDiffer(db);
    var staging := StagingPath(db);
    StageTouches(d, staging, q);
    var d1 := Stage(d, staging, q).0;
    var d2 := RemoveFile(Ancillary(d1).0, db).0;
    var d' := RunRestore(d, db, q).0;
    assert d'.history[|d1.history|] == d2.files && db !in d2.files;
  }

  /** Restoring is safe in every run exactly for databases whose extension is not `old`. */
  lemma RestoreSafeExactly(db: Path)
    ensures (forall d, q :: SafeThroughout(d, RunRestore(d, db, q).0, db)) <==> !HasOldExtension(db)
  {
    if HasOldExtension(db) {
      var d := Disk(map[db := [1]], [], []);
      var q := Inputs(Ok([2]), [], true);
      RestorePathsDiffer(db);
      OldPathCollision(db);
      assert RunRestore(d, db, q).1.Ok?;
      OldExtensionLosesOriginal(d, db, q);
    } else {
      forall d, q ensures SafeThroughout(d, RunRestore(d, db, q).0, db) {
        RestoreKeepsOriginal(d, db, q);
      }
    }
  }
}
