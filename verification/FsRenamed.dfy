/** What a rename does to the listing: when the rows can be updated one by one, and when the next refresh ends. */
module FsRenamed {
  import opened Wrappers
  import opened FsListing
  import opened FsMem
  import opened FsRefresh
  import opened FsRename

  // ----- the renamed listing -----

  /** The path that an entry has after `src` was renamed to `dst`. */
  function RenamedPath(src: Path, dst: Path, p: Path): Path {
    if src <= p then dst + p[|src|..] else p
  }

  /** An entry below a folder, and the name it gets in the same folder. */
  ghost predicate InOneFolder(src: Path, dst: Path) {
    |src| >= 2 && |dst| >= 2 && src[0] == dst[0]
  }

  function WithoutFolder(p: Path): Path {
    if p == [] then [] else p[1..]
  }

  function RenamedFile(src: Path, dst: Path, f: GrizolFile): GrizolFile {
    if src <= PathOf(f) then f.(name := WithoutFolder(RenamedPath(src, dst, PathOf(f)))) else f
  }

  lemma PathOfRenamed(src: Path, dst: Path, f: GrizolFile)
    requires InOneFolder(src, dst) && f.name != []
    ensures PathOf(RenamedFile(src, dst, f)) == RenamedPath(src, dst, PathOf(f))
    ensures RenamedFile(src, dst, f).id == f.id && RenamedFile(src, dst, f).name != []
  {
    if src <= PathOf(f) {
      assert PathOf(f)[0] == f.folder;
    }
  }

  function Renamed(files: seq<GrizolFile>, src: Path, dst: Path): (r: seq<GrizolFile>)
    ensures |r| == |files| && forall i :: 0 <= i < |r| ==> r[i] == RenamedFile(src, dst, files[i])
  {
    seq(|files|, i requires 0 <= i < |files| => RenamedFile(src, dst, files[i]))
  }

  /** In a closed listing everything above a listed file, down from its folder, is listed. */
  lemma {:induction false} AboveIsListed(folders: seq<GrizolFolder>, files: seq<GrizolFile>, p: Path, above: Path)
    requires ListingClosed(folders, files) && p in Paths(files) && above <= p && |above| >= 2
    ensures above in Paths(files)
    decreases |p|
  {
    if above != p {
      var f :| f in files && PathOf(f) == p;
      assert ParentOf(p) in FolderPaths(folders) + Paths(files);
      assert ParentOf(p) in Paths(files);
      AboveIsListed(folders, files, ParentOf(p), above);
    }
  }

  /** The new name is free, and it is not inside of what is renamed. */
  ghost predicate IsFree(files: seq<GrizolFile>, src: Path, dst: Path) {
    !(src <= dst) && dst !in Paths(files)
  }

  /** Nothing that is listed is at or below a free name, and a free name is not above the renamed entry. */
  lemma FreeIsEmpty(folders: seq<GrizolFolder>, files: seq<GrizolFile>, src: Path, dst: Path, p: Path)
    requires ListingClosed(folders, files) && InOneFolder(src, dst) && IsFree(files, src, dst)
    requires src in Paths(files) && p in Paths(files)
    ensures !(dst <= p) && !(dst <= src)
  {
    if dst <= p {
      AboveIsListed(folders, files, p, dst);
    }
    if dst <= src {
      AboveIsListed(folders, files, src, dst);
    }
  }

  lemma RenamedPathInjective(
    folders: seq<GrizolFolder>, files: seq<GrizolFile>, src: Path, dst: Path, p: Path, q: Path)
    requires ListingClosed(folders, files) && InOneFolder(src, dst) && IsFree(files, src, dst)
    requires src in Paths(files) && p in Paths(files) && q in Paths(files) && p != q
    ensures RenamedPath(src, dst, p) != RenamedPath(src, dst, q)
  {
    hide ListingClosed, IsFree, Paths;
    FreeIsEmpty(folders, files, src, dst, p);
    FreeIsEmpty(folders, files, src, dst, q);
    if src <= p && src <= q {
      SuffixesDiffer(src, dst, p, q);
    }
  }

  lemma RenamedUnique(folders: seq<GrizolFolder>, files: seq<GrizolFile>, src: Path, dst: Path)
    requires UniqueFiles(files) && ListingClosed(folders, files) && InOneFolder(src, dst)
    requires src in Paths(files) && IsFree(files, src, dst)
    ensures UniqueFiles(Renamed(files, src, dst))
  {
    hide ListingClosed, IsFree, InOneFolder, Renamed, RenamedFile, RenamedPath;
    var r := Renamed(files, src, dst);
    forall i | 0 <= i < |r|
      ensures PathOf(r[i]) == RenamedPath(src, dst, PathOf(files[i])) && r[i].id == files[i].id && r[i].name != []
    {
      assert files[i] in files;
      PathOfRenamed(src, dst, files[i]);
    }
    forall i, j | 0 <= i < j < |r| ensures PathOf(r[i]) != PathOf(r[j]) && r[i].id != r[j].id {
      assert files[i] in files && files[j] in files;
      RenamedPathInjective(folders, files, src, dst, PathOf(files[i]), PathOf(files[j]));
    }
  }

  /** The paths of the renamed listing are the renamed paths. */
  lemma PathsRenamed(files: seq<GrizolFile>, src: Path, dst: Path, p: Path)
    requires InOneFolder(src, dst) && (forall f :: f in files ==> f.name != [])
    ensures p in Paths(Renamed(files, src, dst)) <==> exists f :: f in files && RenamedPath(src, dst, PathOf(f)) == p
  {
    hide RenamedPath, InOneFolder, RenamedFile;
    var r := Renamed(files, src, dst);
    if p in Paths(r) {
      var g :| g in r && PathOf(g) == p;
      var i :| 0 <= i < |r| && r[i] == g;
      assert files[i] in files;
      PathOfRenamed(src, dst, files[i]);
    }
    if f :| f in files && RenamedPath(src, dst, PathOf(f)) == p {
      var i :| 0 <= i < |files| && files[i] == f;
      PathOfRenamed(src, dst, f);
      assert r[i] in r;
    }
  }

  lemma RenamedParent(
    folders: seq<GrizolFolder>, files: seq<GrizolFile>, src: Path, dst: Path, f: GrizolFile)
    requires UniqueFiles(files) && ListingClosed(folders, files) && InOneFolder(src, dst)
    requires src in Paths(files) && IsFree(files, src, dst) && f in files
    requires ParentOf(dst) in FolderPaths(folders) + Paths(files)
    ensures ParentOf(RenamedPath(src, dst, PathOf(f))) in FolderPaths(folders) + Paths(Renamed(files, src, dst))
  {
    hide Renamed, Paths, FolderPaths;
    var p := PathOf(f);
    PathListed(files, f);
    if src <= p && src != p {
      var above := ParentOf(p);
      assert ParentOf(RenamedPath(src, dst, p)) == RenamedPath(src, dst, above);
      ParentListed(folders, files, f);
      FolderPathsShort(folders, above);
      var g := FileAt(files, above);
      PathsRenamed(files, src, dst, RenamedPath(src, dst, above));
    } else {
      var above := if src <= p then ParentOf(dst) else ParentOf(p);
      assert RenamedPath(src, dst, p) == if src <= p then dst else p;
      ParentListed(folders, files, f);
      assert !(src <= above);
      if above in Paths(files) {
        var g := FileAt(files, above);
        PathsRenamed(files, src, dst, above);
        assert RenamedPath(src, dst, PathOf(g)) == above;
      }
    }
  }

  lemma PathListed(files: seq<GrizolFile>, f: GrizolFile)
    requires f in files
    ensures PathOf(f) in Paths(files)
  {
  }

  lemma ParentListed(folders: seq<GrizolFolder>, files: seq<GrizolFile>, f: GrizolFile)
    requires ListingClosed(folders, files) && f in files
    ensures ParentOf(PathOf(f)) in FolderPaths(folders) + Paths(files)
  {
  }

  lemma FolderPathsShort(folders: seq<GrizolFolder>, p: Path)
    ensures p in FolderPaths(folders) ==> |p| == 1
  {
  }

  lemma FileAt(files: seq<GrizolFile>, p: Path) returns (f: GrizolFile)
    requires p in Paths(files)
    ensures f in files && PathOf(f) == p
  {
    f :| f in files && PathOf(f) == p;
  }

  lemma RenamedClosed(folders: seq<GrizolFolder>, files: seq<GrizolFile>, src: Path, dst: Path)
    requires UniqueFiles(files) && ListingClosed(folders, files) && InOneFolder(src, dst)
    requires src in Paths(files) && IsFree(files, src, dst)
    requires ParentOf(dst) in FolderPaths(folders) + Paths(files)
    ensures ListingClosed(folders, Renamed(files, src, dst))
  {
    hide Renamed, RenamedFile, RenamedPath, InOneFolder, IsFree, FolderPaths, Paths;
    var r := Renamed(files, src, dst);
    forall g | g in r ensures ParentOf(PathOf(g)) in FolderPaths(folders) + Paths(r) {
      var i :| 0 <= i < |r| && r[i] == g;
      assert files[i] in files;
      PathOfRenamed(src, dst, files[i]);
      RenamedParent(folders, files, src, dst, files[i]);
    }
  }

  /**
   * Renaming within a folder, to a name whose parent is listed: the listing is still unique and
   * closed under parents, so that the next refresh ends, if and only if the new name is free and
   * not inside of what is renamed.
   */
  lemma RenamedListingIff(folders: seq<GrizolFolder>, files: seq<GrizolFile>, src: Path, dst: Path)
    requires UniqueFiles(files) && ListingClosed(folders, files) && InOneFolder(src, dst) && src != dst
    requires src in Paths(files) && ParentOf(dst) in FolderPaths(folders) + Paths(files)
    ensures UniqueFiles(Renamed(files, src, dst)) && ListingClosed(folders, Renamed(files, src, dst))
            <==> IsFree(files, src, dst)
  {
    hide ListingClosed, UniqueFiles, Renamed, FolderPaths;
    if IsFree(files, src, dst) {
      RenamedUnique(folders, files, src, dst);
      RenamedClosed(folders, files, src, dst);
    } else if src <= dst {
      IntoItself(folders, files, src, dst);
    } else {
      OntoAnother(files, src, dst);
    }
  }

  /** Renamed into itself, the entry has no parent any more. */
  lemma IntoItself(folders: seq<GrizolFolder>, files: seq<GrizolFile>, src: Path, dst: Path)
    requires UniqueFiles(files) && InOneFolder(src, dst) && src <= dst && src != dst && src in Paths(files)
    ensures !ListingClosed(folders, Renamed(files, src, dst))
  {
    hide Renamed, Paths, FolderPaths;
    var r, above := Renamed(files, src, dst), ParentOf(dst);
    var f := FileAt(files, src);
    assert RenamedPath(src, dst, src) == dst;
    PathsRenamed(files, src, dst, dst);
    var g := FileAt(r, dst);
    FolderPathsShort(folders, above);
    PathsRenamed(files, src, dst, above);
    if h :| h in files && RenamedPath(src, dst, PathOf(h)) == above {
      assert false;
    }
  }

  lemma TwoOfOne(src: Path, dst: Path)
    ensures RenamedPath(src, dst, src) == dst && (!(src <= dst) ==> RenamedPath(src, dst, dst) == dst)
  {
  }

  /** Renamed onto another entry, the two have one name. */
  lemma OntoAnother(files: seq<GrizolFile>, src: Path, dst: Path)
    requires UniqueFiles(files) && InOneFolder(src, dst) && !(src <= dst) && dst in Paths(files) && src in Paths(files)
    ensures !UniqueFiles(Renamed(files, src, dst))
  {
    hide Renamed, RenamedFile, RenamedPath, Paths;
    var r := Renamed(files, src, dst);
    var f := FileAt(files, src);
    var g := FileAt(files, dst);
    var i :| 0 <= i < |files| && files[i] == f;
    var k :| 0 <= k < |files| && files[k] == g;
    PathOfRenamed(src, dst, f);
    PathOfRenamed(src, dst, g);
    TwoOfOne(src, dst);
    assert PathOf(r[i]) == dst == PathOf(r[k]);
    assert i != k;
  }

  // ----- updating the rows one by one -----

  /** The row of a file gets the new name; a name that is taken violates the key, which is a panic. */
  function MoveRow(files: seq<GrizolFile>, m: Move): Option<seq<GrizolFile>> {
    if [m.file.folder] + m.destName in Paths(files) then None
    else Some(seq(|files|, i requires 0 <= i < |files| =>
      if PathOf(files[i]) == PathOf(m.file) then files[i].(name := m.destName) else files[i]))
  }

  function MoveRows(files: seq<GrizolFile>, moves: seq<Move>): Option<seq<GrizolFile>>
    decreases |moves|
  {
    if moves == [] then Some(files)
    else
      match MoveRows(files, moves[..|moves| - 1])
      case None => None
      case Some(rows) => MoveRow(rows, moves[|moves| - 1])
  }

  /** The listing when the entries at these paths have been renamed. */
  ghost function Partly(files: seq<GrizolFile>, src: Path, dst: Path, done: set<Path>): (r: seq<GrizolFile>)
    ensures |r| == |files|
    ensures forall i :: 0 <= i < |r| ==>
              r[i] == if PathOf(files[i]) in done then RenamedFile(src, dst, files[i]) else files[i]
  {
    seq(|files|, i requires 0 <= i < |files| =>
      if PathOf(files[i]) in done then RenamedFile(src, dst, files[i]) else files[i])
  }

  /** A rename that may be carried out: within one folder, to a free name. */
  ghost predicate MayRename(folders: seq<GrizolFolder>, files: seq<GrizolFile>, src: Path, dst: Path) {
    && UniqueFiles(files) && ListingClosed(folders, files)
    && InOneFolder(src, dst) && src in Paths(files) && IsFree(files, src, dst)
  }

  /** Row k has its old path, or its new one if it has been renamed. */
  lemma RowPath(
    folders: seq<GrizolFolder>, files: seq<GrizolFile>, src: Path, dst: Path, done: set<Path>, k: nat)
    requires MayRename(folders, files, src, dst) && k < |files| && (forall q :: q in done ==> src <= q)
    ensures var p := PathOf(files[k]);
            && files[k] in files && p in Paths(files)
            && PathOf(Partly(files, src, dst, done)[k]) == if p in done then dst + p[|src|..] else p
  {
    hide ListingClosed, Partly;
    assert files[k] in files;
    PathOfRenamed(src, dst, files[k]);
  }

  /** The next row can be renamed, and only that row is. */
  lemma RowMoves(
    folders: seq<GrizolFolder>, files: seq<GrizolFile>, src: Path, dst: Path, done: set<Path>, m: Move)
    requires MayRename(folders, files, src, dst) && (forall q :: q in done ==> src <= q)
    requires m.file in files && src <= PathOf(m.file) && PathOf(m.file) !in done
    requires m.destName == WithoutFolder(dst + PathOf(m.file)[|src|..])
    ensures MoveRow(Partly(files, src, dst, done), m) == Some(Partly(files, src, dst, done + {PathOf(m.file)}))
  {
    hide MayRename, Partly, RenamedFile;
    var rows, q := Partly(files, src, dst, done), PathOf(m.file);
    var more := Partly(files, src, dst, done + {q});
    MoveTarget(folders, files, src, dst, m);
    assert [m.file.folder] + m.destName !in Paths(rows) by {
      forall k | 0 <= k < |rows| ensures PathOf(rows[k]) != dst + q[|src|..] {
        RowIsElsewhere(folders, files, src, dst, done, q, k);
      }
    }
    var after := MoveRow(rows, m).value;
    forall k | 0 <= k < |rows| ensures after[k] == more[k] {
      RowIsElsewhere(folders, files, src, dst, done, q, k);
      SamePathSameFile(folders, files, src, dst, m.file, k);
    }
    assert after == more;
  }

  lemma MoveTarget(folders: seq<GrizolFolder>, files: seq<GrizolFile>, src: Path, dst: Path, m: Move)
    requires MayRename(folders, files, src, dst) && m.file in files && src <= PathOf(m.file)
    requires m.destName == WithoutFolder(dst + PathOf(m.file)[|src|..])
    ensures [m.file.folder] + m.destName == dst + PathOf(m.file)[|src|..] && PathOf(m.file) in Paths(files)
    ensures RenamedFile(src, dst, m.file) == m.file.(name := m.destName)
  {
    hide ListingClosed, UniqueFiles;
    assert PathOf(m.file)[0] == m.file.folder;
  }

  lemma RowIsElsewhere(
    folders: seq<GrizolFolder>, files: seq<GrizolFile>, src: Path, dst: Path, done: set<Path>, q: Path, k: nat)
    requires MayRename(folders, files, src, dst) && (forall p :: p in done ==> src <= p) && k < |files|
    requires q in Paths(files) && src <= q && q !in done
    ensures PathOf(Partly(files, src, dst, done)[k]) != dst + q[|src|..]
    ensures PathOf(Partly(files, src, dst, done)[k]) == q <==> PathOf(files[k]) == q
  {
    hide MayRename, Partly, Paths;
    var p := PathOf(files[k]);
    RowPath(folders, files, src, dst, done, k);
    NothingAtTarget(folders, files, src, dst, p);
    NothingAtTarget(folders, files, src, dst, q);
    if p in done {
      SuffixesDiffer(src, dst, p, q);
    }
  }

  lemma NothingAtTarget(folders: seq<GrizolFolder>, files: seq<GrizolFile>, src: Path, dst: Path, p: Path)
    requires MayRename(folders, files, src, dst) && p in Paths(files)
    ensures !(dst <= p)
  {
    hide ListingClosed, UniqueFiles, IsFree, InOneFolder, Paths;
    FreeIsEmpty(folders, files, src, dst, p);
  }

  lemma SuffixesDiffer(src: Path, dst: Path, p: Path, q: Path)
    requires src <= p && src <= q && p != q
    ensures dst + p[|src|..] != dst + q[|src|..]
  {
    assert p == src + p[|src|..] && q == src + q[|src|..];
    assert (dst + p[|src|..])[|dst|..] == p[|src|..] && (dst + q[|src|..])[|dst|..] == q[|src|..];
  }

  lemma SamePathSameFile(
    folders: seq<GrizolFolder>, files: seq<GrizolFile>, src: Path, dst: Path, f: GrizolFile, k: nat)
    requires MayRename(folders, files, src, dst) && f in files && k < |files|
    ensures PathOf(files[k]) == PathOf(f) ==> files[k] == f
  {
    hide ListingClosed;
    var i :| 0 <= i < |files| && files[i] == f;
  }

  ghost function Visited(ps: seq<Path>): set<Path> {
    set p | p in ps
  }

  /** The moves are those of listed files of the subtree, each once, by prefix substitution. */
  ghost predicate MovesRows(files: seq<GrizolFile>, src: Path, dst: Path, ps: seq<Path>, moves: seq<Move>) {
    && |ps| == |moves|
    && (forall i, k :: 0 <= i < k < |ps| ==> ps[i] != ps[k])
    && forall i :: 0 <= i < |ps| ==>
         && moves[i].file in files && src <= ps[i] == PathOf(moves[i].file)
         && moves[i].destName == WithoutFolder(dst + ps[i][|src|..])
  }

  lemma {:induction false} RowsMoved(
    folders: seq<GrizolFolder>, files: seq<GrizolFile>, src: Path, dst: Path, ps: seq<Path>, moves: seq<Move>)
    requires MayRename(folders, files, src, dst) && MovesRows(files, src, dst, ps, moves)
    ensures MoveRows(files, moves) == Some(Partly(files, src, dst, Visited(ps)))
    decreases |ps|
  {
    hide MayRename, MoveRow, MovesRows, Partly, Visited;
    if ps == [] {
      NoneMoved(folders, files, src, dst, moves);
    } else {
      var n := |ps| - 1;
      LastMove(files, src, dst, ps, moves);
      RowsMoved(folders, files, src, dst, ps[..n], moves[..n]);
      RowMoves(folders, files, src, dst, Visited(ps[..n]), moves[n]);
    }
  }

  lemma NoneMoved(folders: seq<GrizolFolder>, files: seq<GrizolFile>, src: Path, dst: Path, moves: seq<Move>)
    requires MayRename(folders, files, src, dst) && MovesRows(files, src, dst, [], moves)
    ensures moves == [] && Partly(files, src, dst, Visited([])) == files
  {
    hide MayRename;
  }

  lemma LastMove(files: seq<GrizolFile>, src: Path, dst: Path, ps: seq<Path>, moves: seq<Move>)
    requires MovesRows(files, src, dst, ps, moves) && ps != []
    ensures var n, m := |ps| - 1, moves[|ps| - 1];
            && |moves| == |ps| && MovesRows(files, src, dst, ps[..n], moves[..n])
            && Visited(ps) == Visited(ps[..n]) + {PathOf(m.file)} && PathOf(m.file) !in Visited(ps[..n])
            && (forall q :: q in Visited(ps[..n]) ==> src <= q)
            && m.file in files && src <= PathOf(m.file)
            && m.destName == WithoutFolder(dst + PathOf(m.file)[|src|..])
  {
  }

  /**
   * Carrying out a plan: no update of a row meets a name that is taken, and the rows end up as the
   * renamed listing, which is again unique and closed under parents.
   */
  lemma PlanRenamesListing(
    fs: GrizolFsMem, folders: seq<GrizolFolder>, files: seq<GrizolFile>, src: Path, dst: Path, ps: seq<Path>,
    moves: seq<Move>)
    requires fs.Valid() && Mirrors(fs.at, fs.nodes, folders, files) && MayRename(folders, files, src, dst)
    requires IsPlan(fs.at, src, src[1..], dst[1..], ps, moves)
    requires ParentOf(dst) in FolderPaths(folders) + Paths(files)
    ensures MoveRows(files, moves) == Some(Renamed(files, src, dst))
    ensures UniqueFiles(Renamed(files, src, dst)) && ListingClosed(folders, Renamed(files, src, dst))
  {
    hide GrizolFsMem.Valid, Mirrors, IsPlan, MayRename, MovesRows, Partly, Renamed;
    PlanMovesRows(fs, folders, files, src, dst, ps, moves);
    RowsMoved(folders, files, src, dst, ps, moves);
    AllMoved(fs, folders, files, src, dst, ps, moves);
    MayRenameListing(folders, files, src, dst);
  }

  lemma MayRenameListing(folders: seq<GrizolFolder>, files: seq<GrizolFile>, src: Path, dst: Path)
    requires MayRename(folders, files, src, dst) && ParentOf(dst) in FolderPaths(folders) + Paths(files)
    ensures UniqueFiles(Renamed(files, src, dst)) && ListingClosed(folders, Renamed(files, src, dst))
  {
    hide ListingClosed, UniqueFiles, IsFree, InOneFolder, Renamed, Paths, FolderPaths;
    RenamedUnique(folders, files, src, dst);
    RenamedClosed(folders, files, src, dst);
  }

  /** Every node of the subtree is a listed file. */
  lemma NodeIsListed(
    fs: GrizolFsMem, folders: seq<GrizolFolder>, files: seq<GrizolFile>, src: Path, dst: Path, q: Path)
    returns (f: GrizolFile)
    requires fs.Valid() && Mirrors(fs.at, fs.nodes, folders, files) && MayRename(folders, files, src, dst)
    requires q in fs.at && src <= q
    ensures f in files && PathOf(f) == q && fs.at[q].fileType == FileNode(f)
  {
    hide GrizolFsMem.Valid, ListingClosed;
    var g := FileAt(files, src);
    FolderListed(folders, files, g);
    assert q[0] == g.folder;
    f := FileAt(files, q);
    assert FileThere(fs.at, fs.nodes, f);
  }

  lemma PlanMovesRows(
    fs: GrizolFsMem, folders: seq<GrizolFolder>, files: seq<GrizolFile>, src: Path, dst: Path, ps: seq<Path>,
    moves: seq<Move>)
    requires fs.Valid() && Mirrors(fs.at, fs.nodes, folders, files) && MayRename(folders, files, src, dst)
    requires IsPlan(fs.at, src, src[1..], dst[1..], ps, moves)
    ensures MovesRows(files, src, dst, ps, moves)
  {
    hide GrizolFsMem.Valid, Mirrors, UniqueFiles, ListingClosed;
    forall i | 0 <= i < |ps|
      ensures moves[i].file in files && src <= ps[i] == PathOf(moves[i].file)
      ensures moves[i].destName == WithoutFolder(dst + ps[i][|src|..])
    {
      assert IsMove(fs.at, src[1..], dst[1..], ps[i], moves[i]);
      assert ps[i] in ps;
      var f := NodeIsListed(fs, folders, files, src, dst, ps[i]);
      assert moves[i].file.name == ps[i][1..];
      assert (dst + ps[i][|src|..])[1..] == dst[1..] + ps[i][|src|..];
    }
  }

  lemma AllMoved(
    fs: GrizolFsMem, folders: seq<GrizolFolder>, files: seq<GrizolFile>, src: Path, dst: Path, ps: seq<Path>,
    moves: seq<Move>)
    requires fs.Valid() && Mirrors(fs.at, fs.nodes, folders, files) && MayRename(folders, files, src, dst)
    requires IsPlan(fs.at, src, src[1..], dst[1..], ps, moves)
    ensures Partly(files, src, dst, Visited(ps)) == Renamed(files, src, dst)
  {
    hide GrizolFsMem.Valid, Mirrors, IsPlan, MayRename, Visited, RenamedFile;
    RenameLengths(folders, files, src, dst);
    forall k | 0 <= k < |files| ensures PathOf(files[k]) in Visited(ps) <==> src <= PathOf(files[k]) {
      VisitedIff(fs, folders, files, src, dst, ps, moves, k);
      SameElsewhere(src, dst, files[k]);
    }
    forall k | 0 <= k < |files| ensures Partly(files, src, dst, Visited(ps))[k] == Renamed(files, src, dst)[k] {
      SameElsewhere(src, dst, files[k]);
    }
    assert Partly(files, src, dst, Visited(ps)) == Renamed(files, src, dst);
  }

  lemma RenameLengths(folders: seq<GrizolFolder>, files: seq<GrizolFile>, src: Path, dst: Path)
    requires MayRename(folders, files, src, dst)
    ensures |src| >= 2 && |dst| >= 2
  {
  }

  lemma SameElsewhere(src: Path, dst: Path, f: GrizolFile)
    ensures !(src <= PathOf(f)) ==> RenamedFile(src, dst, f) == f
  {
  }

  /** The plan visits a listed file exactly if it is in the renamed subtree. */
  lemma VisitedIff(
    fs: GrizolFsMem, folders: seq<GrizolFolder>, files: seq<GrizolFile>, src: Path, dst: Path, ps: seq<Path>,
    moves: seq<Move>, k: nat)
    requires Mirrors(fs.at, fs.nodes, folders, files) && |src| >= 1 && |dst| >= 1 && k < |files|
    requires IsPlan(fs.at, src, src[1..], dst[1..], ps, moves)
    ensures PathOf(files[k]) in Visited(ps) <==> src <= PathOf(files[k])
  {
    assert files[k] in files && FileThere(fs.at, fs.nodes, files[k]);
    assert PathOf(files[k]) in ps <==> PathOf(files[k]) in Under(fs.at, src);
  }

  // ----- a name that is taken -----

  /** A row outside of the renamed subtree stays as it is, as long as the updates go through. */
  lemma {:induction false} RowStays(files: seq<GrizolFile>, src: Path, moves: seq<Move>, k: nat)
    requires k < |files| && !(src <= PathOf(files[k]))
    requires forall i :: 0 <= i < |moves| ==> src <= PathOf(moves[i].file)
    requires MoveRows(files, moves).Some?
    ensures |MoveRows(files, moves).value| == |files| && MoveRows(files, moves).value[k] == files[k]
    decreases |moves|
  {
    if moves != [] {
      var n := |moves| - 1;
      RowStays(files, src, moves[..n], k);
      assert src <= PathOf(moves[n].file);
    }
  }

  /** The renamed entry itself comes last in its plan. */
  lemma LastIsSource(at: map<Path, FsNode>, src: Path, ps: seq<Path>)
    requires IsPostOrder(at, src, ps) && src in at
    ensures ps != [] && ps[|ps| - 1] == src
  {
    assert src in Under(at, src);
    var i :| 0 <= i < |ps| && ps[i] == src;
    var n := |ps| - 1;
    var last := ps[n];
    assert i < n ==> !(src < last) && src != last;
    assert last in ps && src <= last;
  }

  /**
   * Renaming onto an entry that is there ends in a panic: the key of the last row, that of the
   * renamed entry itself, is taken, if no earlier one was.
   */
  lemma TakenNameFails(
    at: map<Path, FsNode>, files: seq<GrizolFile>, src: Path, dst: Path, ps: seq<Path>, moves: seq<Move>)
    requires InOneFolder(src, dst) && IsPlan(at, src, src[1..], dst[1..], ps, moves) && src in at
    requires !(src <= dst) && dst in Paths(files)
    ensures |ps| == |moves| > 0 && ps[|ps| - 1] == src
    ensures MoveRows(files, moves) == None
  {
    LastIsSource(at, src, ps);
    var n := |ps| - 1;
    forall i | 0 <= i < |moves| ensures src <= PathOf(moves[i].file) {
      assert IsMove(at, src[1..], dst[1..], ps[i], moves[i]);
      assert ps[i] in ps;
    }
    hide IsPostOrder;
    assert IsMove(at, src[1..], dst[1..], ps[n], moves[n]);
    LastTarget(src, dst, moves[n]);
    if MoveRows(files, moves[..n]).Some? {
      var g := FileAt(files, dst);
      var k :| 0 <= k < |files| && files[k] == g;
      RowStays(files, src, moves[..n], k);
      assert MoveRows(files, moves[..n]).value[k] in MoveRows(files, moves[..n]).value;
    }
  }

  lemma LastTarget(src: Path, dst: Path, m: Move)
    requires InOneFolder(src, dst) && PathOf(m.file) == src && src[1..] <= m.file.name
    requires m.destName == Moved(src[1..], dst[1..], m.file.name)
    ensures [m.file.folder] + m.destName == dst
  {
    assert m.file.name == src[1..] && src[0] == m.file.folder;
    assert dst == [dst[0]] + dst[1..];
  }

  /** By then the rows below it are renamed already: the listing is left half renamed. */
  lemma HalfRenamed()
    ensures var a, x, b := GrizolFile("d", ["a"], 1), GrizolFile("d", ["a", "x"], 2), GrizolFile("d", ["b"], 3);
            var moves := [Move(x, ["b", "x"]), Move(a, ["b"])];
            && MoveRows([a, x, b], moves[..1]) == Some([a, x.(name := ["b", "x"]), b])
            && MoveRows([a, x, b], moves) == None
  {
    var a, x, b := GrizolFile("d", ["a"], 1), GrizolFile("d", ["a", "x"], 2), GrizolFile("d", ["b"], 3);
    var files, moves := [a, x, b], [Move(x, ["b", "x"]), Move(a, ["b"])];
    var half := [a, x.(name := ["b", "x"]), b];
    assert PathOf(a) == ["d", "a"] && PathOf(x) == ["d", "a", "x"] && PathOf(b) == ["d", "b"];
    assert moves[..1] == [moves[0]] && moves[..1][..0] == [];
    assert ["d"] + ["b", "x"] == ["d", "b", "x"];
    assert Paths(files) == {PathOf(a), PathOf(x), PathOf(b)};
    assert ["d", "b", "x"] !in Paths(files);
    var rows := MoveRow(files, moves[0]).value;
    assert |rows| == 3 && rows[0] == a && rows[1] == half[1] && rows[2] == b;
    assert rows == half;
    assert b in half && ["d"] + ["b"] == PathOf(b);
  }
}
