/** The flat list of folders and files behind the file system, and the queue that turns it into a tree. */
module FsListing {
  import opened Wrappers

  type Name = string
  type Path = seq<Name>

  /** A shared folder, at the top level of the file system. */
  datatype GrizolFolder = GrizolFolder(folderId: Name, id: nat)

  /** A file or directory of a folder; its name is the path below the folder. */
  datatype GrizolFile = GrizolFile(folder: Name, name: Path, id: nat)

  function PathOf(f: GrizolFile): Path {
    [f.folder] + f.name
  }

  function ParentOf(p: Path): Path
    requires p != []
  {
    p[..|p| - 1]
  }

  // ----- inode numbers -----

  const ENTRIES_START := 0x1_0000_0000
  const TOP_DIRS_START := 10
  const FUSE_ROOT_ID := 1

  function EntryId(id: nat): nat {
    id + ENTRIES_START
  }

  /** Folder numbers from here on make the source panic. */
  predicate IsTopDirId(id: nat) {
    id + TOP_DIRS_START < ENTRIES_START
  }

  function TopDirId(id: nat): nat {
    id + TOP_DIRS_START
  }

  /** Root, folder and file inodes never collide. */
  lemma InodesNeverCollide(folder: nat, other: nat, file: nat, next: nat)
    requires IsTopDirId(folder) && IsTopDirId(other)
    ensures FUSE_ROOT_ID < TopDirId(folder) < EntryId(file)
    ensures TopDirId(folder) == TopDirId(other) ==> folder == other
    ensures EntryId(file) == EntryId(next) ==> file == next
  {
  }

  // ----- a well-formed listing -----

  /** What the database guarantees: keys are unique and names are not empty. */
  ghost predicate UniqueFiles(files: seq<GrizolFile>) {
    && (forall f :: f in files ==> f.name != [])
    && (forall i, j :: 0 <= i < j < |files| ==> PathOf(files[i]) != PathOf(files[j]) && files[i].id != files[j].id)
  }

  ghost predicate UniqueFolders(folders: seq<GrizolFolder>) {
    && (forall d :: d in folders ==> IsTopDirId(d.id))
    && (forall i, j :: 0 <= i < j < |folders| ==>
          folders[i].folderId != folders[j].folderId && folders[i].id != folders[j].id)
  }

  function Paths(files: seq<GrizolFile>): set<Path> {
    set f | f in files :: PathOf(f)
  }

  // ----- the retry queue -----

  /** The paths that are in the tree, and the files that are still to be inserted. */
  datatype Queue = Queue(tree: set<Path>, files: seq<GrizolFile>)

  predicate Insertable(tree: set<Path>, f: GrizolFile) {
    ParentOf(PathOf(f)) in tree
  }

  /** One round: the front file goes into the tree, or to the back of the queue. */
  function Round(q: Queue): Queue {
    if q.files == [] then q
    else
      var f := q.files[0];
      if Insertable(q.tree, f) then Queue(q.tree + {PathOf(f)}, q.files[1..])
      else Queue(q.tree, q.files[1..] + [f])
  }

  function Rounds(q: Queue, n: nat): Queue
    decreases n
  {
    if n == 0 then q else Rounds(Round(q), n - 1)
  }

  ghost predicate Terminates(q: Queue) {
    exists n: nat :: Rounds(q, n).files == []
  }

  /** The parent of every queued file is in the tree or queued as well. */
  ghost predicate ParentClosed(q: Queue) {
    forall f :: f in q.files ==> ParentOf(PathOf(f)) in q.tree + Paths(q.files)
  }

  /** How many files are ahead of the first one that can be inserted. */
  function Distance(tree: set<Path>, files: seq<GrizolFile>): nat {
    if files == [] || Insertable(tree, files[0]) then 0 else 1 + Distance(tree, files[1..])
  }

  lemma {:induction false} DistanceBound(tree: set<Path>, files: seq<GrizolFile>)
    ensures Distance(tree, files) <= |files|
    ensures Distance(tree, files) < |files| <==> exists f :: f in files && Insertable(tree, f)
  {
    if files != [] && !Insertable(tree, files[0]) {
      DistanceBound(tree, files[1..]);
      assert forall f :: f in files <==> f == files[0] || f in files[1..];
    }
  }

  lemma {:induction false} DistanceAppend(tree: set<Path>, files: seq<GrizolFile>, f: GrizolFile)
    requires Distance(tree, files) < |files|
    ensures Distance(tree, files + [f]) == Distance(tree, files)
  {
    if Insertable(tree, files[0]) {
    } else {
      DistanceAppend(tree, files[1..], f);
      assert (files + [f])[1..] == files[1..] + [f];
    }
  }

  /** In a parent-closed queue some file can be inserted: one with the shortest path. */
  lemma {:induction false} SomeInsertable(q: Queue) returns (f: GrizolFile)
    requires q.files != [] && ParentClosed(q)
    ensures f in q.files && Insertable(q.tree, f)
  {
    f := Shortest(q.files);
    assert forall g :: g in q.files ==> PathOf(g) != ParentOf(PathOf(f));
  }

  lemma {:induction false} Shortest(files: seq<GrizolFile>) returns (f: GrizolFile)
    requires files != []
    ensures f in files && forall g :: g in files ==> |PathOf(f)| <= |PathOf(g)|
    decreases |files|
  {
    f := files[0];
    if |files| > 1 {
      var g := Shortest(files[1..]);
      assert forall h :: h in files <==> h == files[0] || h in files[1..];
      if |PathOf(g)| < |PathOf(f)| {
        f := g;
      }
    }
  }

  /** A round keeps the tree and the queue together closed under parents. */
  lemma RoundKeepsAll(q: Queue)
    requires q.files != []
    ensures Round(q).tree + Paths(Round(q).files) == q.tree + Paths(q.files)
    ensures ParentClosed(q) ==> ParentClosed(Round(q))
  {
    var f := q.files[0];
    assert forall g :: g in q.files <==> g == f || g in q.files[1..];
    var next := Round(q).files;
    if Insertable(q.tree, f) {
      assert Paths(q.files) == {PathOf(f)} + Paths(next);
    } else {
      assert forall g :: g in next <==> g in q.files;
      assert Paths(q.files) == Paths(next);
    }
  }

  /** Every round makes the queue shorter or brings the first insertable file nearer. */
  lemma RoundProgress(q: Queue)
    requires q.files != [] && ParentClosed(q)
    ensures || |Round(q).files| < |q.files|
            || (|Round(q).files| == |q.files| && Distance(Round(q).tree, Round(q).files) < Distance(q.tree, q.files))
  {
    if !Insertable(q.tree, q.files[0]) {
      var f := SomeInsertable(q);
      DistanceBound(q.tree, q.files);
      DistanceBound(q.tree, q.files[1..]);
      DistanceAppend(q.tree, q.files[1..], q.files[0]);
    }
  }

  lemma {:induction false} ClosedTerminates(q: Queue) returns (n: nat)
    requires ParentClosed(q)
    ensures Rounds(q, n).files == []
    decreases |q.files|, Distance(q.tree, q.files)
  {
    hide Round, ParentClosed, Distance;
    if q.files == [] {
      n := 0;
    } else {
      RoundKeepsAll(q);
      RoundProgress(q);
      var m := ClosedTerminates(Round(q));
      n := m + 1;
    }
  }

  /** A file without a parent anywhere never leaves the queue. */
  lemma {:induction false} OrphanStays(q: Queue, f: GrizolFile, n: nat)
    requires f in q.files && ParentOf(PathOf(f)) !in q.tree + Paths(q.files)
    ensures f in Rounds(q, n).files
    decreases n
  {
    if n > 0 {
      RoundKeepsAll(q);
      var g := q.files[0];
      assert q.files == [g] + q.files[1..];
      OrphanStays(Round(q), f, n - 1);
    }
  }

  /** The refresh loop ends exactly when every file's parent is in the tree or in the listing. */
  lemma TerminatesIff(q: Queue)
    ensures Terminates(q) <==> ParentClosed(q)
  {
    if ParentClosed(q) {
      var n := ClosedTerminates(q);
    } else {
      var f :| f in q.files && ParentOf(PathOf(f)) !in q.tree + Paths(q.files);
      forall n: nat ensures Rounds(q, n).files != [] {
        OrphanStays(q, f, n);
      }
    }
  }

  // ----- a closed listing -----

  function FolderPaths(folders: seq<GrizolFolder>): set<Path> {
    set d | d in folders :: [d.folderId]
  }

  /** Every file's parent directory, or its folder, is listed. */
  ghost predicate ListingClosed(folders: seq<GrizolFolder>, files: seq<GrizolFile>) {
    ParentClosed(Queue(FolderPaths(folders), files))
  }

  /** In a closed listing the folder of every file is listed. */
  lemma {:induction false} FolderListed(folders: seq<GrizolFolder>, files: seq<GrizolFile>, f: GrizolFile)
    requires ListingClosed(folders, files) && f in files && forall g :: g in files ==> g.name != []
    ensures [f.folder] in FolderPaths(folders)
    decreases |f.name|
  {
    var parent := ParentOf(PathOf(f));
    assert parent[0] == f.folder;
    if parent in FolderPaths(folders) {
      assert parent == [f.folder];
    } else {
      var g :| g in files && PathOf(g) == parent;
      assert g.folder == f.folder && |g.name| < |f.name|;
      FolderListed(folders, files, g);
    }
  }
}
