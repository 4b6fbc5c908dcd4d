/** `FileIntegritySensor`: a snapshot of modification times under a project
    directory, and a check that compares a later walk against it.

    `os.walk` is the argument `walk`, one `WalkEntry` per directory it
    yields; `os.path.getmtime` is the map `mtimes`, where a missing path is
    a read that raised `OSError` (a file that vanished between the walk and
    the read, or one that cannot be inspected). */
module FileSensor {
  import opened Common

  type Path = seq<char>

  /** One `(root, dirs, files)` triple from `os.walk`; `dirs` plays no part. */
  datatype WalkEntry = WalkEntry(root: Path, files: seq<seq<char>>)

  const Name: seq<char> := "File Integrity Monitor"
  const Weight: real := 2.0

  /** `os.path.join(root, name)` for POSIX paths. */
  function Join(root: Path, name: seq<char>): (p: Path)
    ensures EndsWith(p, name)
  {
    if StartsWith(name, "/") then name
    else if |root| == 0 || EndsWith(root, "/") then root + name
    else root + "/" + name
  }

  /** Directories whose path contains one of these substrings are skipped. */
  predicate SkippedRoot(root: Path) {
    Contains(root, "__pycache__") || Contains(root, ".git") || Contains(root, ".venv")
  }

  predicate SkippedFile(name: seq<char>) {
    EndsWith(name, ".pyc")
  }

  function KeptFiles(root: Path, files: seq<seq<char>>): (r: seq<Path>)
    ensures forall p :: p in r <==> exists f :: f in files && !SkippedFile(f) && p == Join(root, f)
  {
    if |files| == 0 then []
    else
      var rest := KeptFiles(root, files[1..]);
      assert forall f :: f in files <==> f == files[0] || f in files[1..];
      if SkippedFile(files[0]) then rest else [Join(root, files[0])] + rest
  }

  /** The paths both loops visit, in walk order: every kept file of every
      directory that is not skipped. */
  function Included(walk: seq<WalkEntry>): (r: seq<Path>)
    ensures forall p :: p in r <==>
      exists e, f :: e in walk && !SkippedRoot(e.root) && f in e.files && !SkippedFile(f) && p == Join(e.root, f)
  {
    if |walk| == 0 then []
    else
      var here := if SkippedRoot(walk[0].root) then [] else KeptFiles(walk[0].root, walk[0].files);
      assert forall e :: e in walk <==> e == walk[0] || e in walk[1..];
      here + Included(walk[1..])
  }

  /** The snapshot loop over a list of paths: each path whose time can be
      read is recorded; unreadable ones are skipped. */
  function Snapshot(paths: seq<Path>, mtimes: map<Path, real>): (s: map<Path, real>)
    ensures forall p :: p in s <==> p in paths && p in mtimes
    ensures forall p :: p in s ==> s[p] == mtimes[p]
  {
    if |paths| == 0 then map[]
    else
      var s := Snapshot(paths[..|paths| - 1], mtimes);
      var p := paths[|paths| - 1];
      assert forall q :: q in paths <==> q == p || q in paths[..|paths| - 1];
      if p in mtimes then s[p := mtimes[p]] else s
  }

  /** `_take_snapshot`. */
  function TakeSnapshot(walk: seq<WalkEntry>, mtimes: map<Path, real>): (s: map<Path, real>)
    ensures forall p :: p in s <==> p in Included(walk) && p in mtimes
    ensures forall p :: p in s ==> s[p] == mtimes[p]
  {
    Snapshot(Included(walk), mtimes)
  }

  /** The reference meaning of a change: a visited path whose time was read
      and is new or differs from the snapshot, or a snapshot path that was not
      visited. */
  predicate Tampered(snapshot: map<Path, real>, paths: seq<Path>, mtimes: map<Path, real>) {
    || (exists p :: p in paths && p in mtimes && (p !in snapshot || snapshot[p] != mtimes[p]))
    || (exists p :: p in snapshot && p !in paths)
  }

  /** The first loop's count: new or modified files among those visited. */
  function ModifiedOrNew(paths: seq<Path>, snapshot: map<Path, real>, mtimes: map<Path, real>): (n: nat)
    ensures n > 0 <==> exists p :: p in paths && p in mtimes && (p !in snapshot || snapshot[p] != mtimes[p])
  {
    if |paths| == 0 then 0
    else
      var p := paths[0];
      var rest := ModifiedOrNew(paths[1..], snapshot, mtimes);
      assert forall q :: q in paths <==> q == p || q in paths[1..];
      (if p in mtimes && (p !in snapshot || snapshot[p] != mtimes[p]) then 1 else 0) + rest
  }

  /** The second loop's count: snapshot paths that were not visited. */
  function Deleted(snapshot: map<Path, real>, paths: seq<Path>): (n: nat)
    ensures n > 0 <==> exists p :: p in snapshot && p !in paths
  {
    var gone := set p | p in snapshot && p !in paths;
    assert forall p :: p in snapshot && p !in paths ==> p in gone;
    |gone|
  }

  /** `check_threat`: maximal threat on any change, none otherwise. */
  function CheckThreat(snapshot: map<Path, real>, walk: seq<WalkEntry>, mtimes: map<Path, real>): (t: real)
    ensures t == 0.0 || t == 1.0
    ensures t == 1.0 <==> Tampered(snapshot, Included(walk), mtimes)
  {
    var paths := Included(walk);
    if ModifiedOrNew(paths, snapshot, mtimes) + Deleted(snapshot, paths) > 0 then 1.0 else 0.0
  }

  /** Checking the very walk and times the snapshot was taken from finds
      nothing. */
  lemma UnchangedIsQuiet(walk: seq<WalkEntry>, mtimes: map<Path, real>)
    ensures CheckThreat(TakeSnapshot(walk, mtimes), walk, mtimes) == 0.0
  {
  }

  /** A snapshot path whose time cannot be read during the check counts as
      present and unmodified. */
  lemma UnreadableIsUnmodified(snapshot: map<Path, real>, walk: seq<WalkEntry>, mtimes: map<Path, real>, p: Path)
    requires p in snapshot && p in Included(walk) && p !in mtimes
    ensures CheckThreat(snapshot, walk, mtimes) == CheckThreat(snapshot, walk, mtimes[p := snapshot[p]])
  {
    UnreadableIsUntampered(snapshot, Included(walk), mtimes, p);
  }

  lemma UnreadableIsUntampered(snapshot: map<Path, real>, paths: seq<Path>, mtimes: map<Path, real>, p: Path)
    requires p in snapshot && p in paths && p !in mtimes
    ensures Tampered(snapshot, paths, mtimes) <==> Tampered(snapshot, paths, mtimes[p := snapshot[p]])
  {
    var m2 := mtimes[p := snapshot[p]];
    if Tampered(snapshot, paths, m2) {
      if q :| q in paths && q in m2 && (q !in snapshot || snapshot[q] != m2[q]) {
        assert q != p && q in mtimes && mtimes[q] == m2[q];
      }
    }
    if Tampered(snapshot, paths, mtimes) {
      if q :| q in paths && q in mtimes && (q !in snapshot || snapshot[q] != mtimes[q]) {
        assert q != p && q in m2 && m2[q] == mtimes[q];
      }
    }
  }

  /** A file that appears after the snapshot, under a directory that is not
      skipped and with a name that is kept, raises the maximal threat once its
      time can be read. */
  lemma NewFileDetected(snapshot: map<Path, real>, walk: seq<WalkEntry>, mtimes: map<Path, real>, e: WalkEntry, f: seq<char>)
    requires e in walk && !SkippedRoot(e.root) && f in e.files && !SkippedFile(f)
    requires Join(e.root, f) !in snapshot && Join(e.root, f) in mtimes
    ensures CheckThreat(snapshot, walk, mtimes) == 1.0
  {
    assert Join(e.root, f) in Included(walk);
  }

  /** A change confined to skipped directories or `.pyc` files goes unseen:
      only the times of included paths matter. */
  lemma OnlyIncludedTimesMatter(snapshot: map<Path, real>, walk: seq<WalkEntry>, m1: map<Path, real>, m2: map<Path, real>)
    requires forall p :: p in Included(walk) ==> (p in m1 <==> p in m2) && (p in m1 ==> m1[p] == m2[p])
    ensures CheckThreat(snapshot, walk, m1) == CheckThreat(snapshot, walk, m2)
  {
  }
}
