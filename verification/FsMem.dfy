/** The in-memory file system tree: nodes linked by name, an inode table, and the refresh that fills them. */
module FsMem {
  import opened Wrappers
  import opened FsListing

  datatype NodeType = FolderNode(folder: GrizolFolder) | FileNode(file: GrizolFile)

  class FsNode {
    const id: nat
    const fileType: NodeType
    var children: map<Name, FsNode>

    constructor (id: nat, fileType: NodeType)
      ensures this.id == id && this.fileType == fileType && children == map[]
    {
      this.id := id;
      this.fileType := fileType;
      children := map[];
    }
  }

  /** Which node may be at which path: folders at the top, files below, each at its own path. */
  ghost predicate Belongs(p: Path, id: nat, t: NodeType) {
    match t
    case FolderNode(d) => if p == [] then id == FUSE_ROOT_ID else p == [d.folderId] && id == TopDirId(d.id)
    case FileNode(f) => f.name != [] && p == PathOf(f) && id == EntryId(f.id)
  }

  // ----- replacing a subtree -----

  /** The table with a new node at `path` and nothing below it. */
  ghost function Replace(at: map<Path, FsNode>, path: Path, node: FsNode): map<Path, FsNode> {
    (map q | q in at && !(path <= q) :: at[q])[path := node]
  }

  lemma PrefixStep(path: Path, q: Path, n: Name)
    ensures path <= q + [n] <==> path <= q || path == q + [n]
  {
    if path <= q + [n] && |path| <= |q| {
      assert path == (q + [n])[..|path|] == q[..|path|];
    }
    if path <= q {
      assert path == q[..|path|] == (q + [n])[..|path|];
    }
  }

  ghost predicate PrefixClosed(ps: set<Path>) {
    forall p :: p in ps && p != [] ==> ParentOf(p) in ps
  }

  /** In a prefix-closed set nothing is below a path that is not in the set. */
  lemma {:induction false} NothingBelow(ps: set<Path>, path: Path, q: Path)
    requires PrefixClosed(ps) && path !in ps && path <= q
    ensures q !in ps
    decreases |q|
  {
    if q != path {
      NothingBelow(ps, path, ParentOf(q));
    }
  }

  /** Inserting at a path that is not there only adds it. */
  lemma ReplaceAdds(at: map<Path, FsNode>, path: Path, node: FsNode)
    requires PrefixClosed(at.Keys) && path !in at
    ensures Replace(at, path, node) == at[path := node]
  {
    forall q | q in at ensures !(path <= q) {
      if path <= q {
        NothingBelow(at.Keys, path, q);
      }
    }
  }

  lemma ReplaceClosed(at: map<Path, FsNode>, path: Path, node: FsNode)
    requires PrefixClosed(at.Keys) && path != [] && ParentOf(path) in at
    ensures PrefixClosed(Replace(at, path, node).Keys)
  {
    var at' := Replace(at, path, node);
    forall p | p in at' && p != [] ensures ParentOf(p) in at' {
      if p != path {
        var parent := ParentOf(p);
        assert p == parent + [p[|p| - 1]];
        PrefixStep(path, parent, p[|p| - 1]);
      } else {
        assert !(path <= ParentOf(path));
      }
    }
  }

  /** The nodes one name below p, by that name. */
  ghost function ChildrenAt(at: map<Path, FsNode>, p: Path): (c: map<Name, FsNode>)
    ensures forall n :: n in c <==> p + [n] in at
    ensures forall n :: n in c ==> c[n] == at[p + [n]]
  {
    var names := set q | q in at && q != [] && ParentOf(q) == p :: q[|q| - 1];
    forall n ensures n in names <==> p + [n] in at {
      if p + [n] in at {
        assert ParentOf(p + [n]) == p;
      }
      if n in names {
        var q :| q in at && q != [] && ParentOf(q) == p && q[|q| - 1] == n;
        assert q == p + [n];
      }
    }
    map n | n in names :: at[p + [n]]
  }

  /** Replacing a subtree changes the children of the new node and of its parent only. */
  lemma ReplaceChildren(at: map<Path, FsNode>, above: Path, name: Name, node: FsNode, p: Path)
    requires p in Replace(at, above + [name], node)
    ensures ChildrenAt(Replace(at, above + [name], node), p) ==
            if p == above + [name] then map[]
            else if p == above then ChildrenAt(at, p)[name := node]
            else ChildrenAt(at, p)
  {
    hide ChildrenAt;
    var path := above + [name];
    var at' := Replace(at, path, node);
    var c, before := ChildrenAt(at', p), ChildrenAt(at, p);
    forall n
      ensures n in c <==> (p == above && n == name) || (p != path && n in before)
      ensures n in c ==> c[n] == if p == above && n == name then node else at[p + [n]]
    {
      ReplaceAt(at, above, name, node, p, n);
    }
  }

  lemma ReplaceAt(at: map<Path, FsNode>, above: Path, name: Name, node: FsNode, p: Path, n: Name)
    requires p in Replace(at, above + [name], node)
    ensures var path := above + [name];
            var at' := Replace(at, path, node);
            && (p + [n] in at' <==> (p == above && n == name) || (p != path && p + [n] in at))
            && (p + [n] in at' ==> at'[p + [n]] == if p == above && n == name then node else at[p + [n]])
  {
    PrefixStep(above + [name], p, n);
    assert p + [n] == above + [name] ==> (p + [n])[..|p|] == (above + [name])[..|p|];
  }

  /** Every node is at the path it belongs to, at that one only, and below another node. */
  ghost predicate TableRight(at: map<Path, FsNode>, root: FsNode) {
    && [] in at && at[[]] == root
    && PrefixClosed(at.Keys)
    && (forall p :: p in at ==> Belongs(p, at[p].id, at[p].fileType))
    && (forall p, q :: p in at && q in at && at[p] == at[q] ==> p == q)
  }

  lemma ReplaceTable(at: map<Path, FsNode>, root: FsNode, path: Path, node: FsNode)
    requires TableRight(at, root) && path != [] && ParentOf(path) in at
    requires node !in at.Values && Belongs(path, node.id, node.fileType)
    ensures TableRight(Replace(at, path, node), root)
  {
    ReplaceClosed(at, path, node);
    var at' := Replace(at, path, node);
    forall p | p in at' && p != path ensures at'[p] != node {
      assert at'[p] == at[p] && at[p] in at.Values;
    }
  }

  lemma TableDistinct(at: map<Path, FsNode>, root: FsNode, p: Path, q: Path)
    requires TableRight(at, root) && p in at && q in at && p != q
    ensures at[p] != at[q] && at[p] in at.Values
  {
  }

  class GrizolFsMem {
    const root: FsNode
    var nodes: map<nat, FsNode>
    ghost var at: map<Path, FsNode>   // the nodes that are reachable, by path

    /** The children of the node at p are the nodes one name further down. */
    ghost predicate LinksRight(p: Path)
      requires p in at
      reads this, at.Values
    {
      at[p] in at.Values && at[p].children == ChildrenAt(at, p)
    }

    ghost predicate Valid()
      reads this, at.Values
    {
      TableRight(at, root) && forall p :: p in at ==> LinksRight(p)
    }

    constructor ()
      ensures Valid() && at.Keys == {[]} && fresh(at.Values)
      ensures nodes == map[FUSE_ROOT_ID := root]
    {
      hide ChildrenAt;
      root := new FsNode(FUSE_ROOT_ID, FolderNode(GrizolFolder("", 1)));
      new;
      nodes := map[FUSE_ROOT_ID := root];
      at := map[[] := root];
    }

    /** Links a new childless node below the node at `parent`. */
    method Attach(ghost path: Path, parent: FsNode, name: Name, node: FsNode)
      requires Valid() && path != [] && ParentOf(path) in at && at[ParentOf(path)] == parent
      requires path[|path| - 1] == name && node !in at.Values && node.children == map[]
      requires Belongs(path, node.id, node.fileType)
      modifies this`at, parent
      ensures Valid() && at == Replace(old(at), path, node)
    {
      hide TableRight, ChildrenAt, Replace, Belongs;
      ghost var above, before := ParentOf(path), at;
      assert path == above + [name];
      ReplaceTable(at, root, path, node);
      parent.children := parent.children[name := node];
      at := Replace(at, path, node);
      forall p | p in at ensures LinksRight(p) {
        ReplaceEntry(before, path, node, p);
        ReplaceChildren(before, above, name, node, p);
        if p != path && p != above {
          TableDistinct(before, root, p, above);
        }
        assert p != path ==> before[p] in before.Values;
      }
    }

    /** A top folder becomes a new node without children, also when it was there before. */
    method InsertFolder(folder: GrizolFolder)
      requires Valid() && IsTopDirId(folder.id)
      modifies this, at.Values
      ensures Valid() && [folder.folderId] in at && fresh(at[[folder.folderId]])
      ensures at == Replace(old(at), [folder.folderId], at[[folder.folderId]])
      ensures at[[folder.folderId]].fileType == FolderNode(folder)
      ensures nodes == old(nodes)[TopDirId(folder.id) := at[[folder.folderId]]]
      ensures fresh(at.Values - old(at.Values))
    {
      hide Replace, ChildrenAt;
      var node := new FsNode(TopDirId(folder.id), FolderNode(folder));
      RootInTable(at, root);
      assert ParentOf([folder.folderId]) == [];
      Attach([folder.folderId], root, folder.folderId, node);
      ReplaceHas(old(at), [folder.folderId], node);
      nodes := nodes[TopDirId(folder.id) := node];
    }

    /** Walks down to the file's parent and puts a new node there, unless the parent is missing. */
    method InsertFile(file: GrizolFile) returns (ok: bool)
      requires Valid() && file.name != []
      modifies this, at.Values
      ensures Valid() && ok == (ParentOf(PathOf(file)) in old(at))
      ensures !ok ==> at == old(at) && nodes == old(nodes)
      ensures ok ==>
                && PathOf(file) in at && fresh(at[PathOf(file)])
                && at == Replace(old(at), PathOf(file), at[PathOf(file)])
                && at[PathOf(file)].fileType == FileNode(file)
                && nodes == old(nodes)[EntryId(file.id) := at[PathOf(file)]]
      ensures fresh(at.Values - old(at.Values))
    {
      hide Replace, ChildrenAt;
      var splitPath := PathOf(file);
      var parent := root;
      RootInTable(at, root);
      for i := 0 to |splitPath| - 1
        invariant splitPath[..i] in at && at[splitPath[..i]] == parent
        invariant at == old(at) && nodes == old(nodes) && Valid()
      {
        assert LinksRight(splitPath[..i]);
        assert splitPath[..i] + [splitPath[i]] == splitPath[..i + 1];
        if splitPath[i] !in parent.children {
          NothingBelow(at.Keys, splitPath[..i + 1], ParentOf(splitPath));
          return false;
        }
        parent := parent.children[splitPath[i]];
      }
      var node := new FsNode(EntryId(file.id), FileNode(file));
      Attach(splitPath, parent, splitPath[|splitPath| - 1], node);
      ReplaceHas(old(at), splitPath, node);
      nodes := nodes[EntryId(file.id) := node];
      return true;
    }
  }

  lemma RootInTable(at: map<Path, FsNode>, root: FsNode)
    requires TableRight(at, root)
    ensures [] in at && at[[]] == root && PrefixClosed(at.Keys)
  {
  }

  lemma ReplaceHas(at: map<Path, FsNode>, path: Path, node: FsNode)
    ensures path in Replace(at, path, node) && Replace(at, path, node)[path] == node
    ensures Replace(at, path, node).Values <= at.Values + {node}
  {
  }

  lemma ReplaceEntry(at: map<Path, FsNode>, path: Path, node: FsNode, p: Path)
    requires p in Replace(at, path, node)
    ensures Replace(at, path, node)[p] in Replace(at, path, node).Values
    ensures p != path ==> p in at
    ensures Replace(at, path, node)[p] == if p == path then node else at[p]
  {
  }
}
