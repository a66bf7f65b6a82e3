/** Refreshing the tree from the database, and its agreement with the flat list. */
module FsRefresh {
  import opened Wrappers
  import opened FsListing
  import opened FsMem

  /** Folder d is in the tree and in the inode table. */
  ghost predicate FolderThere(at: map<Path, FsNode>, nodes: map<nat, FsNode>, d: GrizolFolder) {
    && [d.folderId] in at && at[[d.folderId]].fileType == FolderNode(d)
    && TopDirId(d.id) in nodes && nodes[TopDirId(d.id)] == at[[d.folderId]]
  }

  /** File f is in the tree at exactly its own path, and in the inode table. */
  ghost predicate FileThere(at: map<Path, FsNode>, nodes: map<nat, FsNode>, f: GrizolFile) {
    && PathOf(f) in at && at[PathOf(f)].fileType == FileNode(f)
    && EntryId(f.id) in nodes && nodes[EntryId(f.id)] == at[PathOf(f)]
  }

  ghost predicate FoldersThere(at: map<Path, FsNode>, nodes: map<nat, FsNode>, folders: seq<GrizolFolder>) {
    forall d :: d in folders ==> FolderThere(at, nodes, d)
  }

  /** Below a listed folder there is nothing but the given files. */
  ghost predicate OnlyListed(ps: set<Path>, folders: seq<GrizolFolder>, files: seq<GrizolFile>) {
    forall p :: p in ps && |p| >= 2 && [p[0]] in FolderPaths(folders) ==> p in Paths(files)
  }

  /** The tree and the inode table show exactly this listing, apart from folders that are not in it. */
  ghost predicate Mirrors(
    at: map<Path, FsNode>, nodes: map<nat, FsNode>, folders: seq<GrizolFolder>, files: seq<GrizolFile>)
  {
    && FoldersThere(at, nodes, folders)
    && (forall f :: f in files ==> FileThere(at, nodes, f))
    && OnlyListed(at.Keys, folders, files)
  }

  /** The paths of the folders that are in the tree, listed or left over from before. */
  function TopPaths(ps: set<Path>): set<Path> {
    set p | p in ps && |p| == 1
  }

  lemma TopPathsReplace(at: map<Path, FsNode>, name: Name, node: FsNode)
    ensures TopPaths(Replace(at, [name], node).Keys) == TopPaths(at.Keys) + {[name]}
  {
    forall p | p in TopPaths(at.Keys) && [name] <= p ensures p == [name] {
    }
  }

  lemma TopPathsBelow(ps: set<Path>, path: Path)
    requires |path| >= 2
    ensures TopPaths(ps + {path}) == TopPaths(ps)
  {
  }

  lemma FolderPathsSnoc(folders: seq<GrizolFolder>, d: GrizolFolder)
    ensures FolderPaths(folders + [d]) == FolderPaths(folders) + {[d.folderId]}
  {
    assert d in folders + [d];
    assert forall e :: e in folders ==> e in folders + [d];
  }

  // ----- what a refresh leaves alone -----

  /** The inodes of a listing. */
  ghost function InodesOf(folders: seq<GrizolFolder>, files: seq<GrizolFile>): set<nat> {
    (set d | d in folders :: TopDirId(d.id)) + (set f | f in files :: EntryId(f.id))
  }

  /** The inode table has got these inodes; every other one is there as before, with the same node. */
  ghost predicate TableKept(before: map<nat, FsNode>, after: map<nat, FsNode>, inodes: set<nat>) {
    && after.Keys == before.Keys + inodes
    && forall ino :: ino in before && ino !in inodes ==> after[ino] == before[ino]
  }

  /** Outside of these top folders the tree is as before. */
  ghost predicate OthersKept(before: map<Path, FsNode>, after: map<Path, FsNode>, tops: set<Path>) {
    forall p :: p in before && p != [] && [p[0]] !in tops ==> p in after && after[p] == before[p]
  }

  lemma FolderKept(
    before: map<nat, FsNode>, nodes: map<nat, FsNode>, was: map<Path, FsNode>, at: map<Path, FsNode>,
    folders: seq<GrizolFolder>, d: GrizolFolder, node: FsNode)
    requires TableKept(before, nodes, InodesOf(folders, [])) && OthersKept(was, at, FolderPaths(folders))
    ensures TableKept(before, nodes[TopDirId(d.id) := node], InodesOf(folders + [d], []))
    ensures OthersKept(was, Replace(at, [d.folderId], node), FolderPaths(folders + [d]))
  {
    FolderPathsSnoc(folders, d);
    assert InodesOf(folders + [d], []) == InodesOf(folders, []) + {TopDirId(d.id)} by {
      assert d in folders + [d];
    }
    forall p | p in was && p != [] && [p[0]] !in FolderPaths(folders + [d])
      ensures !([d.folderId] <= p)
    {
      assert [d.folderId] in FolderPaths(folders + [d]);
    }
  }

  lemma FileKept(before: map<nat, FsNode>, nodes: map<nat, FsNode>, files: seq<GrizolFile>, f: GrizolFile, node: FsNode)
    requires TableKept(before, nodes, InodesOf([], files))
    ensures TableKept(before, nodes[EntryId(f.id) := node], InodesOf([], files + [f]))
  {
    assert InodesOf([], files + [f]) == InodesOf([], files) + {EntryId(f.id)} by {
      assert f in files + [f];
    }
  }

  lemma AllKept(
    before: map<nat, FsNode>, mid: map<nat, FsNode>, after: map<nat, FsNode>, folders: seq<GrizolFolder>,
    files: seq<GrizolFile>)
    requires TableKept(before, mid, InodesOf(folders, [])) && TableKept(mid, after, InodesOf([], files))
    ensures TableKept(before, after, InodesOf(folders, files))
  {
    assert InodesOf(folders, files) == InodesOf(folders, []) + InodesOf([], files);
  }

  lemma SameInodes(some: seq<GrizolFile>, files: seq<GrizolFile>)
    requires forall f :: f in some <==> f in files
    ensures InodesOf([], some) == InodesOf([], files)
  {
  }

  // ----- inserting the folders -----

  /** The given folders are empty. */
  ghost predicate NothingIn(ps: set<Path>, folders: seq<GrizolFolder>) {
    forall p, d :: p in ps && |p| >= 2 && d in folders ==> d.folderId != p[0]
  }

  lemma FolderInserted(
    at: map<Path, FsNode>, nodes: map<nat, FsNode>, folders: seq<GrizolFolder>, d: GrizolFolder, node: FsNode)
    requires FoldersThere(at, nodes, folders) && NothingIn(at.Keys, folders)
    requires forall e :: e in folders ==> e.folderId != d.folderId && e.id != d.id
    requires node.fileType == FolderNode(d)
    ensures var at', nodes' := Replace(at, [d.folderId], node), nodes[TopDirId(d.id) := node];
            FoldersThere(at', nodes', folders + [d]) && NothingIn(at'.Keys, folders + [d])
  {
    var at', nodes' := Replace(at, [d.folderId], node), nodes[TopDirId(d.id) := node];
    forall e | e in folders + [d] ensures FolderThere(at', nodes', e) {
      if e in folders {
        assert FolderThere(at, nodes, e);
        assert [d.folderId][0] != [e.folderId][0];
      }
    }
  }

  lemma EmptyFoldersMirror(at: map<Path, FsNode>, nodes: map<nat, FsNode>, folders: seq<GrizolFolder>)
    requires FoldersThere(at, nodes, folders) && NothingIn(at.Keys, folders)
    ensures Mirrors(at, nodes, folders, []) && FolderPaths(folders) <= at.Keys
  {
    forall d | d in folders ensures [d.folderId] in at {
      assert FolderThere(at, nodes, d);
    }
    forall p | p in at && |p| >= 2 ensures [p[0]] !in FolderPaths(folders) {
      forall d | d in folders ensures [d.folderId] != [p[0]] {
        assert [d.folderId][0] != [p[0]][0];
      }
    }
  }

  // ----- inserting a file -----

  lemma FileInserted(
    at: map<Path, FsNode>, nodes: map<nat, FsNode>, folders: seq<GrizolFolder>, inserted: seq<GrizolFile>,
    f: GrizolFile, node: FsNode)
    requires Mirrors(at, nodes, folders, inserted) && PathOf(f) !in at
    requires (forall g :: g in inserted ==> g.id != f.id) && f.name != []
    requires (forall d :: d in folders ==> IsTopDirId(d.id)) && node.fileType == FileNode(f)
    ensures Mirrors(at[PathOf(f) := node], nodes[EntryId(f.id) := node], folders, inserted + [f])
  {
    var at', nodes' := at[PathOf(f) := node], nodes[EntryId(f.id) := node];
    forall d | d in folders ensures FolderThere(at', nodes', d) {
      assert FolderThere(at, nodes, d);
    }
    forall g | g in inserted + [f] ensures FileThere(at', nodes', g) {
      assert g in inserted ==> FileThere(at, nodes, g);
    }
    forall p | p in at' && |p| >= 2 && [p[0]] in FolderPaths(folders) ensures p in Paths(inserted + [f]) {
      if p in at {
        var g :| g in inserted && PathOf(g) == p;
        assert g in inserted + [f];
      } else {
        assert f in inserted + [f];
      }
    }
  }

  lemma MirrorsSame(
    at: map<Path, FsNode>, nodes: map<nat, FsNode>, folders: seq<GrizolFolder>, some: seq<GrizolFile>,
    files: seq<GrizolFile>)
    requires Mirrors(at, nodes, folders, some) && (forall f :: f in some <==> f in files)
    ensures Mirrors(at, nodes, folders, files)
  {
    assert Paths(some) == Paths(files);
  }

  /** The files that are in the tree and those that are still queued make up the listing. */
  ghost predicate Splits(files: seq<GrizolFile>, inserted: seq<GrizolFile>, queue: seq<GrizolFile>) {
    && (forall f :: f in files <==> f in inserted || f in queue)
    && UniqueFiles(inserted + queue)
  }

  lemma SplitsInsert(files: seq<GrizolFile>, inserted: seq<GrizolFile>, queue: seq<GrizolFile>)
    requires Splits(files, inserted, queue) && queue != []
    ensures Splits(files, inserted + [queue[0]], queue[1..])
    ensures forall g :: g in inserted ==> g.id != queue[0].id && PathOf(g) != PathOf(queue[0])
    ensures forall g :: g in queue[1..] ==> PathOf(g) != PathOf(queue[0])
  {
    var f := queue[0];
    assert inserted + [f] + queue[1..] == inserted + queue;
    assert forall g :: g in queue <==> g == f || g in queue[1..];
    var all := inserted + queue;
    forall g | g in inserted ensures g.id != f.id && PathOf(g) != PathOf(f) {
      var i :| 0 <= i < |inserted| && inserted[i] == g;
      assert all[i] == g && all[|inserted|] == f;
    }
    forall g | g in queue[1..] ensures PathOf(g) != PathOf(f) {
      var i :| 0 <= i < |queue[1..]| && queue[1..][i] == g;
      assert all[|inserted|] == f && all[|inserted| + 1 + i] == g;
    }
  }

  lemma SplitsRotate(files: seq<GrizolFile>, inserted: seq<GrizolFile>, queue: seq<GrizolFile>)
    requires Splits(files, inserted, queue) && queue != []
    ensures Splits(files, inserted, queue[1..] + [queue[0]])
  {
    var f, next := queue[0], queue[1..] + [queue[0]];
    assert forall g :: g in queue <==> g == f || g in queue[1..];
    assert forall g :: g in next <==> g in queue;
    var all, all', n := inserted + queue, inserted + next, |inserted| + |queue| - 1;
    forall i, j | 0 <= i < j < |all'| ensures PathOf(all'[i]) != PathOf(all'[j]) && all'[i].id != all'[j].id {
      var a := if i < |inserted| then i else i + 1;
      var b := if j < |inserted| then j else if j == n then |inserted| else j + 1;
      assert all'[i] == all[a] && all'[j] == all[b];
    }
  }

  /** Works off the queue, as the source's loop does. */
  method InsertFiles(fs: GrizolFsMem, folders: seq<GrizolFolder>, files: seq<GrizolFile>)
    requires fs.Valid() && UniqueFolders(folders) && Mirrors(fs.at, fs.nodes, folders, [])
    requires Splits(files, [], files) && ParentClosed(Queue(fs.at.Keys, files)) && NoneOf(fs.at.Keys, files)
    modifies fs, fs.at.Values
    ensures fs.Valid() && fresh(fs.at.Values - old(fs.at.Values))
    ensures Mirrors(fs.at, fs.nodes, folders, files)
    ensures TopPaths(fs.at.Keys) == old(TopPaths(fs.at.Keys))
    ensures TableKept(old(fs.nodes), fs.nodes, InodesOf([], files)) && OthersKept(old(fs.at), fs.at, {})
  {
    hide TopPaths, TableKept, OthersKept, InodesOf, FilesDone;
    hide Mirrors, Splits, ParentClosed, Distance, UniqueFolders, Replace, NoneOf, Round, TableRight, ChildrenAt;
    hide GrizolFsMem.Valid;
    var queue := files;
    ghost var inserted: seq<GrizolFile> := [];
    NoFiles(fs.at, fs.nodes, folders);
    while queue != []
      invariant fs.Valid() && fresh(fs.at.Values - old(fs.at.Values))
      invariant FilesDone(old(fs.at), old(fs.nodes), fs.at, fs.nodes, folders, inserted)
      invariant Splits(files, inserted, queue)
      invariant ParentClosed(Queue(fs.at.Keys, queue)) && NoneOf(fs.at.Keys, queue)
      decreases |queue|, Distance(fs.at.Keys, queue)
    {
      ghost var at, nodes := fs.at, fs.nodes;
      ghost var q := Queue(fs.at.Keys, queue);
      RoundKeepsAll(q);
      RoundProgress(q);
      var file := queue[0];
      queue := queue[1..];
      FrontIsNew(files, inserted, q);
      TableOf(fs);
      var ok := fs.InsertFile(file);
      if ok {
        FrontGoesIn(old(fs.at), old(fs.nodes), at, fs.root, nodes, folders, files, inserted, q.files,
                    fs.at[PathOf(file)]);
        inserted := inserted + [file];
      } else {
        SplitsRotate(files, inserted, q.files);
        queue := queue + [file];
      }
      RoundIs(q, ok);
      RoundIsNew(q, files, inserted);
    }
    AllFilesDone(old(fs.at), old(fs.nodes), fs.at, fs.nodes, folders, files, inserted);
  }

  /** These files are in the tree and in the table, and nothing else has changed. */
  ghost predicate FilesDone(
    was: map<Path, FsNode>, before: map<nat, FsNode>, at: map<Path, FsNode>, nodes: map<nat, FsNode>,
    folders: seq<GrizolFolder>, files: seq<GrizolFile>)
  {
    && Mirrors(at, nodes, folders, files) && TopPaths(at.Keys) == TopPaths(was.Keys)
    && TableKept(before, nodes, InodesOf([], files)) && OthersKept(was, at, {})
  }

  lemma NoFiles(at: map<Path, FsNode>, nodes: map<nat, FsNode>, folders: seq<GrizolFolder>)
    requires Mirrors(at, nodes, folders, [])
    ensures FilesDone(at, nodes, at, nodes, folders, [])
  {
    hide Mirrors;
  }

  lemma AllFilesDone(
    was: map<Path, FsNode>, before: map<nat, FsNode>, at: map<Path, FsNode>, nodes: map<nat, FsNode>,
    folders: seq<GrizolFolder>, files: seq<GrizolFile>, inserted: seq<GrizolFile>)
    requires FilesDone(was, before, at, nodes, folders, inserted) && Splits(files, inserted, [])
    ensures Mirrors(at, nodes, folders, files) && TopPaths(at.Keys) == TopPaths(was.Keys)
    ensures TableKept(before, nodes, InodesOf([], files)) && OthersKept(was, at, {})
  {
    hide Mirrors, TableKept, OthersKept, InodesOf, TopPaths, Splits;
    AllInserted(files, inserted);
    SameInodes(inserted, files);
    MirrorsSame(at, nodes, folders, inserted, files);
  }

  lemma TableOf(fs: GrizolFsMem)
    requires fs.Valid()
    ensures TableRight(fs.at, fs.root)
  {
  }

  /** A new path leaves the others where they are. */
  lemma FrontKept(was: map<Path, FsNode>, at: map<Path, FsNode>, root: FsNode, path: Path, node: FsNode)
    requires TableRight(at, root) && path !in at && OthersKept(was, at, {})
    ensures OthersKept(was, Replace(at, path, node), {})
  {
    hide Replace, TableRight;
    RootInTable(at, root);
    ReplaceAdds(at, path, node);
  }

  /** The front of the queue has got its node: the tree mirrors one file more. */
  lemma FrontGoesIn(
    was: map<Path, FsNode>, before: map<nat, FsNode>, at: map<Path, FsNode>, root: FsNode, nodes: map<nat, FsNode>,
    folders: seq<GrizolFolder>, files: seq<GrizolFile>, inserted: seq<GrizolFile>, queue: seq<GrizolFile>,
    node: FsNode)
    requires TableRight(at, root) && UniqueFolders(folders)
    requires FilesDone(was, before, at, nodes, folders, inserted)
    requires Splits(files, inserted, queue) && queue != [] && PathOf(queue[0]) !in at && queue[0].name != []
    requires node.fileType == FileNode(queue[0])
    ensures var file := queue[0];
            var at', nodes' := Replace(at, PathOf(file), node), nodes[EntryId(file.id) := node];
            && at'.Keys == at.Keys + {PathOf(file)}
            && FilesDone(was, before, at', nodes', folders, inserted + [file])
            && Splits(files, inserted + [file], queue[1..])
  {
    hide TopPaths, Mirrors, Splits, UniqueFolders, Replace, TableRight, TableKept, OthersKept, InodesOf;
    var file := queue[0];
    RootInTable(at, root);
    ReplaceAdds(at, PathOf(file), node);
    SplitsInsert(files, inserted, queue);
    FolderIds(folders);
    FileInserted(at, nodes, folders, inserted, file, node);
    FrontKept(was, at, root, PathOf(file), node);
    FileKept(before, nodes, inserted, file, node);
    TopPathsBelow(at.Keys, PathOf(file));
  }

  ghost predicate NoneOf(ps: set<Path>, files: seq<GrizolFile>) {
    forall f :: f in files ==> PathOf(f) !in ps
  }

  lemma FrontIsNew(files: seq<GrizolFile>, inserted: seq<GrizolFile>, q: Queue)
    requires Splits(files, inserted, q.files) && q.files != [] && NoneOf(q.tree, q.files)
    ensures q.files[0].name != [] && PathOf(q.files[0]) !in q.tree
  {
    assert q.files[0] in inserted + q.files;
  }

  lemma RoundIs(q: Queue, ok: bool)
    requires q.files != [] && ok == (ParentOf(PathOf(q.files[0])) in q.tree)
    ensures Round(q) == if ok then Queue(q.tree + {PathOf(q.files[0])}, q.files[1..])
                        else Queue(q.tree, q.files[1..] + [q.files[0]])
  {
  }

  lemma RoundIsNew(q: Queue, files: seq<GrizolFile>, inserted: seq<GrizolFile>)
    requires q.files != [] && NoneOf(q.tree, q.files)
    requires Splits(files, inserted, Round(q).files)
    requires Insertable(q.tree, q.files[0]) ==> q.files[0] in inserted
    ensures NoneOf(Round(q).tree, Round(q).files)
  {
    var f, next := q.files[0], Round(q).files;
    forall g | g in next ensures PathOf(g) !in Round(q).tree {
      assert g in q.files;
      if Insertable(q.tree, f) {
        var all := inserted + next;
        var i :| 0 <= i < |inserted| && inserted[i] == f;
        var k :| 0 <= k < |next| && next[k] == g;
        assert all[i] == f && all[|inserted| + k] == g;
      }
    }
  }

  /**
   * Fills the tree from a listing. Inodes that are not in the listing keep their place in the table,
   * whether or not the tree still has their nodes. The queue is worked off whatever its order, because every round
   * either inserts a file or brings one that can be inserted nearer to the front.
   */
  method Refresh(fs: GrizolFsMem, folders: seq<GrizolFolder>, files: seq<GrizolFile>)
    requires fs.Valid() && UniqueFolders(folders) && UniqueFiles(files) && ListingClosed(folders, files)
    modifies fs, fs.at.Values
    ensures fs.Valid() && fresh(fs.at.Values - old(fs.at.Values))
    ensures Mirrors(fs.at, fs.nodes, folders, files)
    ensures TopPaths(fs.at.Keys) == old(TopPaths(fs.at.Keys)) + FolderPaths(folders)
    ensures TableKept(old(fs.nodes), fs.nodes, InodesOf(folders, files))
    ensures OthersKept(old(fs.at), fs.at, FolderPaths(folders))
  {
    hide ListingClosed, UniqueFolders, UniqueFiles, Mirrors, TableKept, InodesOf, FolderPaths;
    InsertFolders(fs, folders);
    ghost var nodes := fs.nodes;
    NotYetThere(fs.at.Keys, folders, files);
    InsertFiles(fs, folders, files);
    AllKept(old(fs.nodes), nodes, fs.nodes, folders, files);
  }

  lemma AllInserted(files: seq<GrizolFile>, inserted: seq<GrizolFile>)
    requires Splits(files, inserted, [])
    ensures forall f :: f in inserted <==> f in files
  {
  }

  lemma FolderIds(folders: seq<GrizolFolder>)
    requires UniqueFolders(folders)
    ensures forall d :: d in folders ==> IsTopDirId(d.id)
  {
  }

  lemma NotYetThere(ps: set<Path>, folders: seq<GrizolFolder>, files: seq<GrizolFile>)
    requires NothingIn(ps, folders) && UniqueFiles(files) && ListingClosed(folders, files)
    requires FolderPaths(folders) <= ps
    ensures NoneOf(ps, files) && ParentClosed(Queue(ps, files)) && Splits(files, [], files)
  {
    assert [] + files == files;
    forall f | f in files ensures PathOf(f) !in ps {
      FolderListed(folders, files, f);
      var d :| d in folders && [d.folderId] == [f.folder];
      assert [d.folderId][0] == PathOf(f)[0];
    }
  }

  method InsertFolders(fs: GrizolFsMem, folders: seq<GrizolFolder>)
    requires fs.Valid() && UniqueFolders(folders)
    modifies fs, fs.at.Values
    ensures fs.Valid() && fresh(fs.at.Values - old(fs.at.Values))
    ensures Mirrors(fs.at, fs.nodes, folders, [])
    ensures FolderPaths(folders) <= fs.at.Keys && NothingIn(fs.at.Keys, folders)
    ensures TopPaths(fs.at.Keys) == old(TopPaths(fs.at.Keys)) + FolderPaths(folders)
    ensures TableKept(old(fs.nodes), fs.nodes, InodesOf(folders, []))
    ensures OthersKept(old(fs.at), fs.at, FolderPaths(folders))
  {
    hide TopPaths, FolderPaths, TableKept, OthersKept, InodesOf, FoldersDone;
    hide Replace, FoldersThere, NothingIn, Mirrors, TableRight, ChildrenAt;
    NoFolders(fs.at, fs.nodes);
    for i := 0 to |folders|
      invariant fs.Valid() && fresh(fs.at.Values - old(fs.at.Values))
      invariant FoldersDone(old(fs.at), old(fs.nodes), fs.at, fs.nodes, folders[..i])
    {
      ghost var at, nodes := fs.at, fs.nodes;
      fs.InsertFolder(folders[i]);
      FolderDone(old(fs.at), old(fs.nodes), at, nodes, folders[..i], folders[i], fs.at[[folders[i].folderId]]);
      assert folders[..i + 1] == folders[..i] + [folders[i]];
    }
    assert folders[..|folders|] == folders;
    AllFoldersDone(old(fs.at), old(fs.nodes), fs.at, fs.nodes, folders);
  }

  /** These folders are in the tree and in the table, empty, and nothing else has changed. */
  ghost predicate FoldersDone(
    was: map<Path, FsNode>, before: map<nat, FsNode>, at: map<Path, FsNode>, nodes: map<nat, FsNode>,
    folders: seq<GrizolFolder>)
  {
    && FoldersThere(at, nodes, folders) && NothingIn(at.Keys, folders)
    && TopPaths(at.Keys) == TopPaths(was.Keys) + FolderPaths(folders)
    && TableKept(before, nodes, InodesOf(folders, [])) && OthersKept(was, at, FolderPaths(folders))
  }

  lemma FolderDone(
    was: map<Path, FsNode>, before: map<nat, FsNode>, at: map<Path, FsNode>, nodes: map<nat, FsNode>,
    folders: seq<GrizolFolder>, d: GrizolFolder, node: FsNode)
    requires FoldersDone(was, before, at, nodes, folders) && node.fileType == FolderNode(d)
    requires forall e :: e in folders ==> e.folderId != d.folderId && e.id != d.id
    ensures FoldersDone(was, before, Replace(at, [d.folderId], node), nodes[TopDirId(d.id) := node], folders + [d])
  {
    hide Replace, FoldersThere, NothingIn, TopPaths, FolderPaths, TableKept, OthersKept, InodesOf;
    FolderInserted(at, nodes, folders, d, node);
    FolderKept(before, nodes, was, at, folders, d, node);
    TopPathsReplace(at, d.folderId, node);
    FolderPathsSnoc(folders, d);
  }

  lemma AllFoldersDone(
    was: map<Path, FsNode>, before: map<nat, FsNode>, at: map<Path, FsNode>, nodes: map<nat, FsNode>,
    folders: seq<GrizolFolder>)
    requires FoldersDone(was, before, at, nodes, folders)
    ensures Mirrors(at, nodes, folders, []) && FolderPaths(folders) <= at.Keys && NothingIn(at.Keys, folders)
    ensures TopPaths(at.Keys) == TopPaths(was.Keys) + FolderPaths(folders)
    ensures TableKept(before, nodes, InodesOf(folders, [])) && OthersKept(was, at, FolderPaths(folders))
  {
    hide FoldersThere, NothingIn, Mirrors, TableKept, OthersKept;
    EmptyFoldersMirror(at, nodes, folders);
  }

  lemma NoFolders(at: map<Path, FsNode>, nodes: map<nat, FsNode>)
    ensures FoldersDone(at, nodes, at, nodes, [])
  {
    assert FolderPaths([]) == {};
  }
}
