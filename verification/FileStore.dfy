/** File names as the restore protocol rewrites them. */
module Paths {
  /** A file inside a directory; the name is not empty and holds no separator. */
  datatype Path = Path(dir: string, name: string)

  /** Where the last dot of `name` is, or -1. */
  function LastDot(name: string): (i: int)
    ensures -1 <= i < |name|
    ensures i >= 0 ==> name[i] == '.'
    ensures forall j :: i < j < |name| ==> name[j] != '.'
  {
    if name == [] then -1
    else if name[|name| - 1] == '.' then |name| - 1
    else LastDot(name[..|name| - 1])
  }

  /** The name without its extension; a leading dot does not start one. */
  function Stem(name: string): string {
    if LastDot(name) <= 0 then name else name[..LastDot(name)]
  }

  function WithExtension(p: Path, extension: string): Path {
    p.(name := Stem(p.name) + "." + extension)
  }

  function OldPath(p: Path): Path {
    WithExtension(p, "old")
  }

  function StagingPath(p: Path): Path {
    p.(name := p.name + ".restore.tmp")
  }

  predicate HasOldExtension(p: Path) {
    LastDot(p.name) > 0 && p.name[LastDot(p.name) + 1..] == "old"
  }

  lemma LastDotOf(name: string, i: nat)
    requires i < |name| && name[i] == '.' && forall j :: i < j < |name| ==> name[j] != '.'
    ensures LastDot(name) == i
  {
  }

  /** The rotated name is the name itself exactly for files whose extension is `old`. */
  lemma OldPathCollision(p: Path)
    ensures OldPath(p) == p <==> HasOldExtension(p)
  {
    var name, i := p.name, LastDot(p.name);
    if HasOldExtension(p) {
      assert name == name[..i] + "." + name[i + 1..];
    }
    if OldPath(p) == p {
      assert |Stem(name)| == |name| - 4;
      assert i > 0;
      assert name[i + 1..] == "old";
    }
  }

  /** The four files of a restore are distinct, unless the database's own extension is `old`. */
  lemma RestorePathsDiffer(p: Path)
    ensures var staging := StagingPath(p);
      && staging != p && OldPath(staging) != p && staging != OldPath(p) && OldPath(staging) != OldPath(p)
      && OldPath(staging) != staging
  {
    var staged := p.name + ".restore.tmp";
    LastDotOf(staged, |p.name| + 8);
    assert Stem(staged) == p.name + ".restore";
    assert staged[|staged| - 1] == 'p' && OldPath(p).name[|OldPath(p).name| - 1] == 'd';
  }
}

/** A file system whose every intermediate state can be the last one before a crash. */
module FileStore {
  import opened Types
  import opened Paths

  type Files = map<Path, bytes>

  /** How an operation ends: done, refused without effect, or (for a write) cut after some bytes. */
  datatype Outcome = Done | Refused | Torn(n: nat)

  /** `history` lists every state the files went through; `outcomes` decides the operations to come. */
  datatype Disk = Disk(files: Files, history: seq<Files>, outcomes: seq<Outcome>)

  /** The states `d'` went through after `d` differ from the files of `d` only at the paths in `touched`. */
  ghost predicate Extends(d: Disk, d': Disk, touched: set<Path>) {
    && d.history <= d'.history
    && Within(d.files, d'.files, touched)
    && (forall i :: |d.history| <= i < |d'.history| ==> Within(d.files, d'.history[i], touched))
  }

  ghost predicate Within(before: Files, now: Files, touched: set<Path>) {
    forall p :: p !in touched ==> (p in now <==> p in before) && (p in before ==> now[p] == before[p])
  }

  function NextOutcome(d: Disk): Outcome {
    if d.outcomes == [] then Done else d.outcomes[0]
  }

  function Consume(d: Disk): Disk {
    d.(outcomes := if d.outcomes == [] then [] else d.outcomes[1..])
  }

  function Put(d: Disk, files: Files): Disk {
    Disk(files, d.history + [files], d.outcomes)
  }

  /** An operation that can fail but never changes a file: creating a directory, setting permissions. */
  function Ancillary(d: Disk): (r: (Disk, bool))
    ensures Extends(d, r.0, {}) && r.0.files == d.files && r.0.history == d.history
  {
    (Consume(d), NextOutcome(d).Done?)
  }

  function RemoveFile(d: Disk, p: Path): (r: (Disk, bool))
    ensures Extends(d, r.0, {p})
    ensures if r.1 then p in d.files && r.0.files == d.files - {p} else r.0.files == d.files
  {
    if p in d.files && NextOutcome(d).Done? then (Put(Consume(d), d.files - {p}), true) else (Consume(d), false)
  }

  /** Renaming replaces the target in one step. */
  function RenameFile(d: Disk, from: Path, to: Path): (r: (Disk, bool))
    ensures Extends(d, r.0, {from, to})
    ensures if r.1 then from in d.files && r.0.files == (d.files - {from})[to := d.files[from]]
      else r.0.files == d.files
    ensures r.0.history == d.history + (if r.1 then [r.0.files] else [])
  {
    if from in d.files && NextOutcome(d).Done? then (Put(Consume(d), (d.files - {from})[to := d.files[from]]), true)
    else (Consume(d), false)
  }

  /** The states a write passes through: truncated, then growing byte by byte. */
  function WriteStates(files: Files, p: Path, data: bytes, n: nat): (s: seq<Files>)
    requires n <= |data|
    ensures |s| == n + 1 && forall i :: 0 <= i <= n ==> s[i] == files[p := data[..i]]
  {
    seq(n + 1, i requires 0 <= i <= n => files[p := data[..i]])
  }

  function WriteFile(d: Disk, p: Path, data: bytes): (r: (Disk, bool))
    ensures Extends(d, r.0, {p})
    ensures r.1 ==> r.0.files == d.files[p := data]
  {
    match NextOutcome(d)
    case Refused => (Consume(d), false)
    case Done =>
      assert data[..|data|] == data;
      (Disk(d.files[p := data], d.history + WriteStates(d.files, p, data, |data|), Consume(d).outcomes), true)
    case Torn(n) =>
      var m := if n < |data| then n else |data|;
      (Disk(d.files[p := data[..m]], d.history + WriteStates(d.files, p, data, m), Consume(d).outcomes), false)
  }

  /** A database engine working on one file leaves these contents in it, one after the other. */
  function EditFile(d: Disk, p: Path, contents: seq<bytes>): (d': Disk)
    ensures Extends(d, d', {p})
    ensures contents != [] ==> d'.files == d.files[p := contents[|contents| - 1]]
    ensures contents == [] ==> d' == d
  {
    if contents == [] then d
    else
      var before := EditFile(d, p, contents[..|contents| - 1]);
      Put(before, before.files[p := contents[|contents| - 1]])
  }

  lemma ExtendsTrans(a: Disk, b: Disk, c: Disk, s: set<Path>, t: set<Path>, u: set<Path>)
    requires Extends(a, b, s) && Extends(b, c, t) && s <= u && t <= u
    ensures Extends(a, c, u)
  {
    forall i | |a.history| <= i < |c.history| ensures Within(a.files, c.history[i], u) {
      if i < |b.history| { assert c.history[i] == b.history[i]; }
    }
  }

  class FileSystem {
    var files: Files
    var outcomes: seq<Outcome>
    ghost var history: seq<Files>

    ghost function State(): Disk
      reads this
    {
      Disk(files, history, outcomes)
    }

    constructor (files: Files, outcomes: seq<Outcome>)
      ensures State() == Disk(files, [], outcomes)
    {
      this.files := files;
      this.outcomes := outcomes;
      history := [];
    }

    method Take() returns (o: Outcome)
      modifies this`outcomes
      ensures o == NextOutcome(old(State())) && State() == Consume(old(State()))
    {
      if outcomes == [] { return Done; }
      o := outcomes[0];
      outcomes := outcomes[1..];
    }

    method CreateDirectoryOrPermissions() returns (ok: bool)
      modifies this
      ensures (State(), ok) == Ancillary(old(State()))
    {
      var o := Take();
      return o.Done?;
    }

    method Remove(p: Path) returns (ok: bool)
      modifies this
      ensures (State(), ok) == RemoveFile(old(State()), p)
    {
      var o := Take();
      if p !in files || !o.Done? { return false; }
      files := files - {p};
      history := history + [files];
      return true;
    }

    method Rename(from: Path, to: Path) returns (ok: bool)
      modifies this
      ensures (State(), ok) == RenameFile(old(State()), from, to)
    {
      var o := Take();
      if from !in files || !o.Done? { return false; }
      files := (files - {from})[to := files[from]];
      history := history + [files];
      return true;
    }

    method Write(p: Path, data: bytes) returns (ok: bool)
      modifies this
      ensures (State(), ok) == WriteFile(old(State()), p, data)
    {
      var o := Take();
      match o {
        case Refused => return false;
        case Done =>
          history := history + WriteStates(files, p, data, |data|);
          files := files[p := data];
          return true;
        case Torn(n) =>
          var m := if n < |data| then n else |data|;
          history := history + WriteStates(files, p, data, m);
          files := files[p := data[..m]];
          return false;
      }
    }

    method Edit(p: Path, contents: seq<bytes>)
      modifies this
      ensures State() == EditFile(old(State()), p, contents)
    {
      var k := 0;
      assert contents[..0] == [];
      while k < |contents|
        invariant 0 <= k <= |contents|
        invariant State() == EditFile(old(State()), p, contents[..k])
      {
        assert contents[..k + 1][..k] == contents[..k];
        files := files[p := contents[k]];
        history := history + [files];
        k := k + 1;
      }
      assert contents[..k] == contents;
    }
  }
}
