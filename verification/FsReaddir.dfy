/** Listing a directory: the tree against the filter over the flat list that it replaces. */
module FsReaddir {
  import opened Wrappers
  import opened FsListing
  import opened FsMem
  import opened FsRefresh
  import opened FsRename

  // ----- the filter -----

  function FindFolder(ino: nat, folders: seq<GrizolFolder>): Option<GrizolFolder> {
    if folders == [] then None
    else if TopDirId(folders[0].id) == ino then Some(folders[0])
    else FindFolder(ino, folders[1..])
  }

  function FindFile(ino: nat, files: seq<GrizolFile>): Option<GrizolFile> {
    if files == [] then None
    else if EntryId(files[0].id) == ino then Some(files[0])
    else FindFile(ino, files[1..])
  }

  function TopFolder(ino: nat, folders: seq<GrizolFolder>, files: seq<GrizolFile>): Option<Name> {
    if ino < ENTRIES_START then
      match FindFolder(ino, folders)
      case Some(d) => Some(d.folderId)
      case None => None
    else
      match FindFile(ino, files)
      case Some(f) => Some(f.folder)
      case None => None
  }

  function BaseDir(ino: nat, files: seq<GrizolFile>): Option<Path> {
    if ino < ENTRIES_START then Some([])
    else
      match FindFile(ino, files)
      case Some(f) => Some(f.name)
      case None => None
  }

  /** Stripping the directory leaves exactly one name. */
  predicate IsFileInCurrentDir(baseDir: Path, f: GrizolFile) {
    baseDir <= f.name && |f.name| == |baseDir| + 1
  }

  /** The entries that the filter selects, with their inodes; None stands for ENOENT. */
  function ReaddirDb(ino: nat, folders: seq<GrizolFolder>, files: seq<GrizolFile>): Option<set<(Name, nat)>>
    requires forall f :: f in files ==> f.name != []
  {
    if ino == FUSE_ROOT_ID then Some(FolderEntries(folders))
    else
      match (TopFolder(ino, folders, files), BaseDir(ino, files))
      case (Some(top), Some(base)) => Some(Selected(top, base, files))
      case _ => None
  }

  function FolderEntries(folders: seq<GrizolFolder>): set<(Name, nat)> {
    set d | d in folders :: (d.folderId, TopDirId(d.id))
  }

  function Selected(top: Name, base: Path, files: seq<GrizolFile>): set<(Name, nat)>
    requires forall f :: f in files ==> f.name != []
  {
    set f | f in files && f.folder == top && IsFileInCurrentDir(base, f) :: (f.name[|f.name| - 1], EntryId(f.id))
  }

  // ----- the tree -----

  datatype Reply = Listed(entries: set<(Name, nat)>) | NoEntry | Panics

  /** The tree still holds the node; the inode table alone does not keep it alive. */
  ghost predicate IsLive(fs: GrizolFsMem, ino: nat)
    reads fs
  {
    ino in fs.nodes && fs.nodes[ino] in fs.at.Values
  }

  /**
   * Whether a weak reference to the node can be upgraded. The only strong references are the root
   * and the children of nodes, so it can exactly if the node is found from the root.
   */
  method Upgrades(fs: GrizolFsMem, node: FsNode) returns (b: bool)
    requires fs.Valid()
    ensures b <==> node in fs.at.Values
  {
    hide GrizolFsMem.Valid;
    RootAt(fs);
    var collector := new Collector();
    ghost var ps, ns;
    ps, ns := TraversePost(fs, [], fs.root, collector);
    assert collector.vec == ns;
    AllFromRoot(fs.at, ps, ns, node);
    return node in collector.vec;
  }

  lemma RootAt(fs: GrizolFsMem)
    requires fs.Valid()
    ensures [] in fs.at && fs.at[[]] == fs.root
  {
  }

  lemma AllFromRoot(at: map<Path, FsNode>, ps: seq<Path>, ns: seq<FsNode>, node: FsNode)
    requires IsPostOrder(at, [], ps) && AreNodesAt(at, ps, ns)
    ensures node in ns <==> node in at.Values
  {
    if node in ns {
      var i :| 0 <= i < |ns| && ns[i] == node;
      assert at[ps[i]] == node;
    }
    if node in at.Values {
      var p :| p in at && at[p] == node;
      assert p in Under(at, []);
      var i :| 0 <= i < |ps| && ps[i] == p;
      assert ns[i] == node;
    }
  }

  /** The children of the node with this inode, unless it is unknown or its node has been dropped. */
  method ReaddirMem(fs: GrizolFsMem, ino: nat) returns (r: Reply)
    requires fs.Valid()
    ensures r == NoEntry <==> ino !in fs.nodes
    ensures r == Panics <==> ino in fs.nodes && fs.nodes[ino] !in fs.at.Values
    ensures IsLive(fs, ino) ==> r == Listed(Entries(fs.nodes[ino].children))
  {
    if ino !in fs.nodes {
      return NoEntry;
    }
    var node := fs.nodes[ino];
    var upgraded := Upgrades(fs, node);
    if !upgraded {
      return Panics;
    }
    return Listed(Entries(node.children));
  }

  function Entries(children: map<Name, FsNode>): set<(Name, nat)> {
    set n | n in children :: (n, children[n].id)
  }

  // ----- agreement -----

  lemma {:induction false} FolderFound(d: GrizolFolder, folders: seq<GrizolFolder>)
    requires UniqueFolders(folders) && d in folders
    ensures FindFolder(TopDirId(d.id), folders) == Some(d)
  {
    if folders[0] != d {
      var i :| 0 < i < |folders| && folders[i] == d;
      assert forall e :: e in folders[1..] ==> e in folders;
      assert d == folders[1..][i - 1];
      FolderFound(d, folders[1..]);
    }
  }

  lemma {:induction false} FileFound(f: GrizolFile, files: seq<GrizolFile>)
    requires UniqueFiles(files) && f in files
    ensures FindFile(EntryId(f.id), files) == Some(f)
  {
    if files[0] != f {
      var i :| 0 < i < |files| && files[i] == f;
      assert forall g :: g in files[1..] ==> g in files;
      assert f == files[1..][i - 1];
      FileFound(f, files[1..]);
    }
  }

  /** File f is the entry called n of the directory `base` of a folder. */
  ghost predicate IsEntry(f: GrizolFile, top: Name, base: Path, n: Name) {
    f.folder == top && f.name == base + [n]
  }

  lemma EntryIff(f: GrizolFile, top: Name, base: Path, n: Name)
    ensures IsEntry(f, top, base, n) <==>
            f.folder == top && IsFileInCurrentDir(base, f) && f.name[|f.name| - 1] == n
    ensures IsEntry(f, top, base, n) <==> PathOf(f) == [top] + base + [n]
  {
    if IsFileInCurrentDir(base, f) {
      assert f.name == base + [f.name[|f.name| - 1]];
    }
    assert [top] + base + [n] == [top] + (base + [n]);
    assert PathOf(f)[0] == f.folder && PathOf(f)[1..] == f.name;
  }

  /** The tree has a node for each entry, with the entry's inode. */
  lemma EntryInTree(
    at: map<Path, FsNode>, nodes: map<nat, FsNode>, folders: seq<GrizolFolder>, files: seq<GrizolFile>,
    top: Name, base: Path, n: Name, root: FsNode, f: GrizolFile)
    requires TableRight(at, root) && Mirrors(at, nodes, folders, files) && f in files && IsEntry(f, top, base, n)
    ensures [top] + base + [n] in at && at[[top] + base + [n]].id == EntryId(f.id)
  {
    var p := [top] + base + [n];
    EntryIff(f, top, base, n);
    assert FileThere(at, nodes, f);
    assert Belongs(p, at[p].id, at[p].fileType);
  }

  /** A node below a listed directory comes from an entry of the listing. */
  lemma EntryInList(
    at: map<Path, FsNode>, nodes: map<nat, FsNode>, folders: seq<GrizolFolder>, files: seq<GrizolFile>,
    top: Name, base: Path, n: Name) returns (f: GrizolFile)
    requires Mirrors(at, nodes, folders, files) && [top] in FolderPaths(folders)
    requires [top] + base + [n] in at
    ensures f in files && IsEntry(f, top, base, n)
  {
    var p := [top] + base + [n];
    assert p[0] == top;
    assert p in Paths(files);
    f :| f in files && PathOf(f) == p;
    EntryIff(f, top, base, n);
  }

  lemma DirectoryAgrees(
    at: map<Path, FsNode>, nodes: map<nat, FsNode>, folders: seq<GrizolFolder>, files: seq<GrizolFile>,
    top: Name, base: Path, root: FsNode)
    requires TableRight(at, root) && Mirrors(at, nodes, folders, files) && [top] in FolderPaths(folders)
    requires forall f :: f in files ==> f.name != []
    ensures Entries(ChildrenAt(at, [top] + base)) == Selected(top, base, files)
  {
    hide TableRight, Mirrors, ChildrenAt, IsFileInCurrentDir, IsEntry;
    var c := ChildrenAt(at, [top] + base);
    forall e: (Name, nat) ensures e in Entries(c) <==> e in Selected(top, base, files) {
      if e in Entries(c) {
        var f := EntryInList(at, nodes, folders, files, top, base, e.0);
        EntryInTree(at, nodes, folders, files, top, base, e.0, root, f);
        EntryIff(f, top, base, e.0);
      }
      if e in Selected(top, base, files) {
        var f :| f in files && f.folder == top && IsFileInCurrentDir(base, f)
                 && (f.name[|f.name| - 1], EntryId(f.id)) == e;
        EntryIff(f, top, base, e.0);
        EntryInTree(at, nodes, folders, files, top, base, e.0, root, f);
      }
    }
  }

  /**
   * After a refresh, listing any listed folder or directory in memory gives exactly the entries
   * that the filter over the flat list selects, inodes included.
   */
  lemma ReaddirAgrees(fs: GrizolFsMem, folders: seq<GrizolFolder>, files: seq<GrizolFile>, ino: nat)
    requires fs.Valid() && UniqueFolders(folders) && UniqueFiles(files) && ListingClosed(folders, files)
    requires Mirrors(fs.at, fs.nodes, folders, files)
    requires ReaddirDb(ino, folders, files).Some? && ino != FUSE_ROOT_ID
    ensures IsLive(fs, ino)
    ensures ReaddirDb(ino, folders, files) == Some(Entries(fs.nodes[ino].children))
  {
    hide ListingClosed, TableRight, ChildrenAt, Selected;
    var p: Path;
    if ino < ENTRIES_START {
      var d := ListedFolder(ino, folders);
      assert FolderThere(fs.at, fs.nodes, d);
      p := [d.folderId];
      assert [d.folderId] + [] == p;
      DirectoryAgrees(fs.at, fs.nodes, folders, files, d.folderId, [], fs.root);
    } else {
      var f := ListedFile(ino, files);
      FolderListed(folders, files, f);
      assert FileThere(fs.at, fs.nodes, f);
      p := PathOf(f);
      DirectoryAgrees(fs.at, fs.nodes, folders, files, f.folder, f.name, fs.root);
    }
    assert fs.LinksRight(p);
  }

  lemma {:induction false} ListedFolder(ino: nat, folders: seq<GrizolFolder>) returns (d: GrizolFolder)
    requires FindFolder(ino, folders).Some?
    ensures FindFolder(ino, folders) == Some(d) && d in folders && TopDirId(d.id) == ino
  {
    if TopDirId(folders[0].id) == ino {
      d := folders[0];
    } else {
      d := ListedFolder(ino, folders[1..]);
    }
  }

  lemma {:induction false} ListedFile(ino: nat, files: seq<GrizolFile>) returns (f: GrizolFile)
    requires FindFile(ino, files).Some?
    ensures FindFile(ino, files) == Some(f) && f in files && EntryId(f.id) == ino
  {
    if EntryId(files[0].id) == ino {
      f := files[0];
    } else {
      f := ListedFile(ino, files[1..]);
    }
  }

  /** The inodes of listed folders and files are known to the filter, so the agreement covers them all. */
  lemma ListedInodes(folders: seq<GrizolFolder>, files: seq<GrizolFile>, d: GrizolFolder, f: GrizolFile)
    requires UniqueFolders(folders) && UniqueFiles(files)
    ensures d in folders ==> ReaddirDb(TopDirId(d.id), folders, files) == Some(Selected(d.folderId, [], files))
    ensures f in files ==> ReaddirDb(EntryId(f.id), folders, files) == Some(Selected(f.folder, f.name, files))
  {
    if d in folders {
      FolderFound(d, folders);
    }
    if f in files {
      FileFound(f, files);
    }
  }

  // ----- inodes whose nodes have been dropped -----

  /**
   * In a listed folder the inode of a file is alive exactly as long as that very entry, with that
   * row number, is listed: not if the file has gone, and not if it has come back as a new row.
   */
  lemma LiveIff(fs: GrizolFsMem, folders: seq<GrizolFolder>, files: seq<GrizolFile>, f: GrizolFile)
    requires fs.Valid() && Mirrors(fs.at, fs.nodes, folders, files)
    requires EntryId(f.id) in fs.nodes && fs.nodes[EntryId(f.id)].fileType == FileNode(f)
    requires [f.folder] in FolderPaths(folders)
    ensures IsLive(fs, EntryId(f.id)) <==> f in files
  {
    hide GrizolFsMem.Valid, Mirrors;
    if f in files {
      FileIsLive(fs, folders, files, f);
    } else {
      forall p | p in fs.at ensures fs.at[p].fileType != FileNode(f) {
        GoneFrom(fs, folders, files, f, p);
      }
    }
  }

  lemma FileIsLive(fs: GrizolFsMem, folders: seq<GrizolFolder>, files: seq<GrizolFile>, f: GrizolFile)
    requires fs.Valid() && Mirrors(fs.at, fs.nodes, folders, files) && f in files
    ensures IsLive(fs, EntryId(f.id))
  {
    hide GrizolFsMem.Valid;
    assert FileThere(fs.at, fs.nodes, f);
  }

  lemma GoneFrom(fs: GrizolFsMem, folders: seq<GrizolFolder>, files: seq<GrizolFile>, f: GrizolFile, p: Path)
    requires fs.Valid() && Mirrors(fs.at, fs.nodes, folders, files) && p in fs.at
    requires [f.folder] in FolderPaths(folders) && f !in files
    ensures fs.at[p].fileType != FileNode(f)
  {
    NodeBelongs(fs, p);
    hide GrizolFsMem.Valid;
    assert PathOf(f)[0] == f.folder;
    if p == PathOf(f) && p in Paths(files) {
      var g :| g in files && PathOf(g) == p;
      assert FileThere(fs.at, fs.nodes, g);
    }
  }

  lemma NodeBelongs(fs: GrizolFsMem, p: Path)
    requires fs.Valid() && p in fs.at
    ensures Belongs(p, fs.at[p].id, fs.at[p].fileType)
  {
  }

  /**
   * Two refreshes. Every inode of the first listing stays in the table; the inode of a file is alive
   * afterwards exactly if the second listing has an entry with that row number, or does not have the
   * file's folder at all. Listing any other one panics.
   */
  method RefreshTwice(
    fs: GrizolFsMem, folders: seq<GrizolFolder>, files: seq<GrizolFile>, folders': seq<GrizolFolder>,
    files': seq<GrizolFile>)
    requires fs.Valid() && UniqueFolders(folders) && UniqueFiles(files) && ListingClosed(folders, files)
    requires UniqueFolders(folders') && UniqueFiles(files') && ListingClosed(folders', files')
    modifies fs, fs.at.Values
    ensures fs.Valid() && Mirrors(fs.at, fs.nodes, folders', files')
    ensures forall f :: f in files ==> EntryId(f.id) in fs.nodes
    ensures forall f :: f in files ==>
              (IsLive(fs, EntryId(f.id)) <==> HasId(files', f.id) || [f.folder] !in FolderPaths(folders'))
  {
    hide ListingClosed, UniqueFolders, UniqueFiles, Mirrors, TopPaths, FolderPaths, TableKept, OthersKept, InodesOf;
    Refresh(fs, folders, files);
    ghost var at, nodes := fs.at, fs.nodes;
    Refresh(fs, folders', files');
    forall f | f in files
      ensures EntryId(f.id) in fs.nodes
      ensures IsLive(fs, EntryId(f.id)) <==> HasId(files', f.id) || [f.folder] !in FolderPaths(folders')
    {
      AfterTwo(fs, at, nodes, folders, files, folders', files', f);
    }
  }

  ghost predicate HasId(files: seq<GrizolFile>, id: nat) {
    exists g :: g in files && g.id == id
  }

  lemma AfterTwo(
    fs: GrizolFsMem, at: map<Path, FsNode>, nodes: map<nat, FsNode>, folders: seq<GrizolFolder>,
    files: seq<GrizolFile>, folders': seq<GrizolFolder>, files': seq<GrizolFile>, f: GrizolFile)
    requires fs.Valid() && Mirrors(at, nodes, folders, files) && f in files
    requires Mirrors(fs.at, fs.nodes, folders', files') && UniqueFolders(folders')
    requires TableKept(nodes, fs.nodes, InodesOf(folders', files')) && OthersKept(at, fs.at, FolderPaths(folders'))
    ensures EntryId(f.id) in fs.nodes
    ensures IsLive(fs, EntryId(f.id)) <==> HasId(files', f.id) || [f.folder] !in FolderPaths(folders')
  {
    hide GrizolFsMem.Valid, FolderPaths;
    assert FileThere(at, nodes, f);
    if g :| g in files' && g.id == f.id {
      FileIsLive(fs, folders', files', g);
    } else {
      NotListed(folders', files', f.id);
      assert fs.nodes[EntryId(f.id)] == at[PathOf(f)];
      if [f.folder] in FolderPaths(folders') {
        LiveIff(fs, folders', files', f);
      } else {
        assert PathOf(f)[0] == f.folder && fs.at[PathOf(f)] == at[PathOf(f)];
      }
    }
  }

  lemma NotListed(folders: seq<GrizolFolder>, files: seq<GrizolFile>, id: nat)
    requires UniqueFolders(folders) && !HasId(files, id)
    ensures EntryId(id) !in InodesOf(folders, files)
  {
  }

  /** A file that was updated, and so has a new row, and one that was removed: both old inodes panic. */
  method OldInodesPanic() returns (updated: Reply, removed: Reply)
    ensures updated == Panics && removed == Panics
  {
    hide GrizolFsMem.Valid, ListingClosed, UniqueFolders, UniqueFiles, Mirrors, FolderPaths, HasId, IsTopDirId;
    var docs := GrizolFolder("docs", 1);
    var a, b := GrizolFile("docs", ["a"], 1), GrizolFile("docs", ["b"], 2);
    var a' := GrizolFile("docs", ["a"], 3);
    OldListing(docs, a, b);
    NewListing(docs, a');
    var fs := new GrizolFsMem();
    RefreshTwice(fs, [docs], [a, b], [docs], [a']);
    updated := ReaddirMem(fs, EntryId(a.id));
    removed := ReaddirMem(fs, EntryId(b.id));
  }

  lemma OldListing(docs: GrizolFolder, a: GrizolFile, b: GrizolFile)
    requires docs == GrizolFolder("docs", 1)
    requires a == GrizolFile("docs", ["a"], 1) && b == GrizolFile("docs", ["b"], 2)
    ensures UniqueFolders([docs]) && UniqueFiles([a, b]) && ListingClosed([docs], [a, b])
    ensures a in [a, b] && b in [a, b] && ["docs"] in FolderPaths([docs])
  {
    TopFilesListed(docs, [a, b]);
    assert docs in [docs];
  }

  lemma NewListing(docs: GrizolFolder, a: GrizolFile)
    requires docs == GrizolFolder("docs", 1) && a == GrizolFile("docs", ["a"], 3)
    ensures UniqueFiles([a]) && ListingClosed([docs], [a]) && !HasId([a], 1) && !HasId([a], 2)
  {
    TopFilesListed(docs, [a]);
  }

  lemma TopFilesListed(d: GrizolFolder, files: seq<GrizolFile>)
    requires IsTopDirId(d.id) && (forall f :: f in files ==> f.folder == d.folderId && |f.name| == 1)
    requires forall i, j :: 0 <= i < j < |files| ==> files[i].name != files[j].name && files[i].id != files[j].id
    ensures UniqueFolders([d]) && UniqueFiles(files) && ListingClosed([d], files)
  {
    forall i, j | 0 <= i < j < |files| ensures PathOf(files[i]) != PathOf(files[j]) {
      assert PathOf(files[i])[1..] == files[i].name && PathOf(files[j])[1..] == files[j].name;
    }
    forall f | f in files ensures ParentOf(PathOf(f)) in FolderPaths([d]) {
      assert d in [d] && ParentOf(PathOf(f)) == [d.folderId];
    }
  }

  /**
   * Listing the root in memory agrees with the folder list, inodes included, if and only if every
   * folder that is in the tree is listed: folders that were there before a refresh stay.
   */
  lemma RootAgreesIff(fs: GrizolFsMem, folders: seq<GrizolFolder>, files: seq<GrizolFile>)
    requires fs.Valid() && UniqueFolders(folders) && UniqueFiles(files) && Mirrors(fs.at, fs.nodes, folders, files)
    ensures ReaddirDb(FUSE_ROOT_ID, folders, files) == Some(Entries(fs.root.children))
            <==> TopPaths(fs.at.Keys) <= FolderPaths(folders)
  {
    hide GrizolFsMem.Valid, Mirrors, UniqueFolders, UniqueFiles, FolderPaths, TopPaths;
    forall n ensures n in fs.root.children <==> [n] in TopPaths(fs.at.Keys) {
      RootChild(fs, n);
    }
    forall d | d in folders
      ensures d.folderId in fs.root.children && fs.root.children[d.folderId].id == TopDirId(d.id)
    {
      FolderShown(fs, folders, files, d);
    }
    if TopPaths(fs.at.Keys) <= FolderPaths(folders) {
      forall n | n in fs.root.children ensures exists d :: d in folders && d.folderId == n {
        var d := FolderAt(folders, [n]);
      }
      assert Entries(fs.root.children) == FolderEntries(folders);
    } else {
      var p :| p in TopPaths(fs.at.Keys) && p !in FolderPaths(folders);
      TopNotListed(fs.at.Keys, folders, p);
      assert (p[0], fs.root.children[p[0]].id) in Entries(fs.root.children);
    }
  }

  lemma FolderAt(folders: seq<GrizolFolder>, p: Path) returns (d: GrizolFolder)
    requires p in FolderPaths(folders)
    ensures d in folders && [d.folderId] == p
  {
    d :| d in folders && [d.folderId] == p;
  }

  lemma TopNotListed(ps: set<Path>, folders: seq<GrizolFolder>, p: Path)
    requires p in TopPaths(ps) && p !in FolderPaths(folders)
    ensures |p| == 1 && p == [p[0]] && forall d :: d in folders ==> d.folderId != p[0]
  {
    assert forall d :: d in folders ==> [d.folderId] in FolderPaths(folders);
  }

  lemma RootChild(fs: GrizolFsMem, n: Name)
    requires fs.Valid()
    ensures n in fs.root.children <==> [n] in TopPaths(fs.at.Keys)
    ensures n in fs.root.children ==> fs.root.children[n] == fs.at[[n]]
  {
    assert fs.LinksRight([]);
    assert [] + [n] == [n];
  }

  lemma FolderShown(fs: GrizolFsMem, folders: seq<GrizolFolder>, files: seq<GrizolFile>, d: GrizolFolder)
    requires fs.Valid() && Mirrors(fs.at, fs.nodes, folders, files) && d in folders
    ensures d.folderId in fs.root.children && fs.root.children[d.folderId].id == TopDirId(d.id)
  {
    RootChild(fs, d.folderId);
    assert FolderThere(fs.at, fs.nodes, d);
    assert Belongs([d.folderId], fs.at[[d.folderId]].id, fs.at[[d.folderId]].fileType);
  }
}
