/** Renaming a file or a whole directory: the subtree is collected and every name in it is rewritten. */
module FsRename {
  import opened Wrappers
  import opened FsListing
  import opened FsMem

  /** The paths of the subtree at p. */
  ghost function Under(at: map<Path, FsNode>, p: Path): set<Path> {
    set q | q in at && p <= q
  }

  ghost predicate Distinct(ps: seq<Path>) {
    forall i, j :: 0 <= i < j < |ps| ==> ps[i] != ps[j]
  }

  /** No path comes before one below it. */
  ghost predicate ChildrenFirst(ps: seq<Path>) {
    forall i, j :: 0 <= i < j < |ps| ==> !(ps[i] < ps[j])
  }

  /** ps visits each node of the subtree at p once, children before parents. */
  ghost predicate IsPostOrder(at: map<Path, FsNode>, p: Path, ps: seq<Path>) {
    && (forall q :: q in ps <==> q in Under(at, p))
    && Distinct(ps) && ChildrenFirst(ps)
  }

  /** The part of the subtree below p that is reached through the given names. */
  ghost predicate Below(p: Path, names: set<Name>, q: Path) {
    p < q && q[|p|] in names
  }

  /** ps visits exactly what is below p through these names. */
  ghost predicate IsPartialOrder(at: map<Path, FsNode>, p: Path, names: set<Name>, ps: seq<Path>) {
    && (forall q :: q in ps <==> q in at && Below(p, names, q))
    && Distinct(ps) && ChildrenFirst(ps)
  }

  lemma ChildPrefix(p: Path, n: Name, q: Path)
    ensures p + [n] <= q <==> p < q && q[|p|] == n
  {
    if p + [n] <= q {
      assert p == (p + [n])[..|p|] == q[..|p|];
      assert q[|p|] == (p + [n])[|p|];
    }
    if p < q && q[|p|] == n {
      assert q[..|p| + 1] == p + [n];
    }
  }

  lemma PartialStep(at: map<Path, FsNode>, p: Path, names: set<Name>, n: Name, ps: seq<Path>, more: seq<Path>)
    requires IsPartialOrder(at, p, names, ps) && n !in names && IsPostOrder(at, p + [n], more)
    ensures IsPartialOrder(at, p, names + {n}, ps + more)
  {
    forall q ensures q in ps + more <==> q in at && Below(p, names + {n}, q) {
      ChildPrefix(p, n, q);
    }
    forall q, r | q in ps && r in more ensures q != r && !(q < r) {
      ChildPrefix(p, n, r);
      assert Below(p, names, q) && q[|p|] != r[|p|];
    }
    forall i, j | 0 <= i < j < |ps + more|
      ensures (ps + more)[i] != (ps + more)[j] && !((ps + more)[i] < (ps + more)[j])
    {
      if i < |ps| <= j {
        assert (ps + more)[i] in ps && (ps + more)[j] in more;
      }
    }
  }

  lemma PartialComplete(at: map<Path, FsNode>, p: Path, names: set<Name>, ps: seq<Path>)
    requires p in at && IsPartialOrder(at, p, names, ps) && PrefixClosed(at.Keys)
    requires forall n :: p + [n] in at ==> n in names
    ensures IsPostOrder(at, p, ps + [p])
  {
    forall q ensures q in ps + [p] <==> q in Under(at, p) {
      if q in at && p <= q && q != p {
        assert p < q;
        ChildPrefix(p, q[|p|], q);
        if p + [q[|p|]] !in at {
          NothingBelow(at.Keys, p + [q[|p|]], q);
        }
      }
    }
    forall i | 0 <= i < |ps| ensures ps[i] != p && !(ps[i] < p) {
      assert ps[i] in ps;
    }
  }

  class Collector {
    var vec: seq<FsNode>

    constructor ()
      ensures vec == []
    {
      vec := [];
    }

    method Collect(node: FsNode)
      modifies this
      ensures vec == old(vec) + [node]
    {
      vec := vec + [node];
    }
  }

  /** The nodes are those at the given paths, in the same order. */
  ghost predicate AreNodesAt(at: map<Path, FsNode>, ps: seq<Path>, ns: seq<FsNode>) {
    |ns| == |ps| && forall i :: 0 <= i < |ps| ==> ps[i] in at && ns[i] == at[ps[i]]
  }

  lemma NodesAtConcat(
    at: map<Path, FsNode>, ps: seq<Path>, ns: seq<FsNode>, more: seq<Path>, ms: seq<FsNode>)
    requires AreNodesAt(at, ps, ns) && AreNodesAt(at, more, ms)
    ensures AreNodesAt(at, ps + more, ns + ms)
  {
  }

  lemma OneNodeAt(at: map<Path, FsNode>, p: Path)
    requires p in at
    ensures AreNodesAt(at, [p], [at[p]]) && AreNodesAt(at, [], [])
  {
  }

  /**
   * Collects the subtree of a node in post order, whatever order the children come in: the nodes
   * appended to the collector are those at the paths ps.
   */
  method TraversePost(fs: GrizolFsMem, ghost p: Path, node: FsNode, collector: Collector)
    returns (ghost ps: seq<Path>, ghost ns: seq<FsNode>)
    requires fs.Valid() && p in fs.at && fs.at[p] == node
    modifies collector
    ensures IsPostOrder(fs.at, p, ps) && AreNodesAt(fs.at, ps, ns)
    ensures collector.vec == old(collector.vec) + ns
    decreases Under(fs.at, p)
  {
    hide GrizolFsMem.Valid, ChildrenAt, IsPostOrder, IsPartialOrder, AreNodesAt, Under;
    ghost var at := fs.at;
    NodeAt(fs, p);
    NothingVisited(at, p);
    OneNodeAt(at, p);
    ps, ns := [], [];
    var children := node.children;
    var rest := children.Keys;
    assert children.Keys - rest == {};
    while rest != {}
      invariant fs.Valid() && rest <= children.Keys
      invariant IsPartialOrder(at, p, children.Keys - rest, ps) && AreNodesAt(at, ps, ns)
      invariant collector.vec == old(collector.vec) + ns
      decreases rest
    {
      var n :| n in rest;
      UnderShrinks(at, p, n);
      ghost var more, ms;
      more, ms := TraversePost(fs, p + [n], children[n], collector);
      PartialStep(at, p, children.Keys - rest, n, ps, more);
      NodesAtConcat(at, ps, ns, more, ms);
      ps, ns := ps + more, ns + ms;
      assert children.Keys - rest + {n} == children.Keys - (rest - {n});
      rest := rest - {n};
    }
    PartialComplete(at, p, children.Keys - rest, ps);
    NodesAtConcat(at, ps, ns, [p], [node]);
    ps, ns := ps + [p], ns + [node];
    collector.Collect(node);
  }

  lemma NodeAt(fs: GrizolFsMem, p: Path)
    requires fs.Valid() && p in fs.at
    ensures PrefixClosed(fs.at.Keys) && fs.at[p].children == ChildrenAt(fs.at, p)
  {
    assert fs.LinksRight(p);
  }

  lemma NothingVisited(at: map<Path, FsNode>, p: Path)
    ensures IsPartialOrder(at, p, {}, [])
  {
  }

  lemma UnderShrinks(at: map<Path, FsNode>, p: Path, n: Name)
    requires p in at
    ensures Under(at, p + [n]) < Under(at, p)
  {
    forall q | q in Under(at, p + [n]) ensures q in Under(at, p) {
      ChildPrefix(p, n, q);
    }
    assert p in Under(at, p) && p !in Under(at, p + [n]);
  }

  // ----- rewriting the names -----

  /** A file and the name it moves to. */
  datatype Move = Move(file: GrizolFile, destName: Path)

  /** The first occurrence of the prefix, which is at the front, replaced. */
  function Moved(orig: Path, dest: Path, name: Path): Path
    requires orig <= name
  {
    dest + name[|orig|..]
  }

  /** The rewriting keeps the path relative to the renamed directory, and renaming back undoes it. */
  lemma MovedBack(orig: Path, dest: Path, name: Path)
    requires orig <= name
    ensures dest <= Moved(orig, dest, name)
    ensures Moved(orig, dest, name)[|dest|..] == name[|orig|..]
    ensures Moved(dest, orig, Moved(orig, dest, name)) == name
  {
    assert name == orig + name[|orig|..];
  }

  lemma MovedInjective(orig: Path, dest: Path, name: Path, other: Path)
    requires orig <= name && orig <= other && name != other
    ensures Moved(orig, dest, name) != Moved(orig, dest, other)
  {
    MovedBack(orig, dest, name);
    MovedBack(orig, dest, other);
  }

  /** The name, within its folder, of a child of a node. */
  function NameIn(t: NodeType, child: Name): Path {
    match t
    case FileNode(f) => f.name + [child]
    case FolderNode(_) => [child]
  }

  /** Below a folder every node is a file, and it is at the path its name says. */
  lemma NodesAreFiles(fs: GrizolFsMem, p: Path)
    requires fs.Valid() && p in fs.at && |p| >= 2
    ensures fs.at[p].fileType.FileNode? && PathOf(fs.at[p].fileType.file) == p
    ensures fs.at[p].fileType.file.name == p[1..] && fs.at[p].fileType.file.folder == p[0]
  {
    assert Belongs(p, fs.at[p].id, fs.at[p].fileType);
  }

  lemma ParentName(fs: GrizolFsMem, p: Path, child: Name)
    requires fs.Valid() && p in fs.at && p != []
    ensures NameIn(fs.at[p].fileType, child) == p[1..] + [child] == (p + [child])[1..]
  {
    hide GrizolFsMem.Valid;
    if |p| >= 2 {
      NodesAreFiles(fs, p);
    } else {
      TopIsFolder(fs, p);
    }
  }

  lemma TopIsFolder(fs: GrizolFsMem, p: Path)
    requires fs.Valid() && p in fs.at && |p| == 1
    ensures fs.at[p].fileType.FolderNode?
  {
    assert Belongs(p, fs.at[p].id, fs.at[p].fileType);
  }

  /** The moves rewrite each file of the subtree once, children before parents. */
  ghost predicate IsPlan(at: map<Path, FsNode>, p: Path, orig: Path, dest: Path, ps: seq<Path>, moves: seq<Move>) {
    && IsPostOrder(at, p, ps) && |moves| == |ps|
    && forall i :: 0 <= i < |ps| ==> IsMove(at, orig, dest, ps[i], moves[i])
  }

  ghost predicate IsMove(at: map<Path, FsNode>, orig: Path, dest: Path, q: Path, m: Move) {
    && q in at && at[q].fileType == FileNode(m.file) && PathOf(m.file) == q
    && orig <= m.file.name && m.destName == Moved(orig, dest, m.file.name)
  }

  /** Looks for the child whose file has the given name. */
  method FindChild(node: FsNode, name: Path) returns (r: Option<FsNode>)
    requires forall n :: n in node.children ==> node.children[n].fileType.FileNode?
    ensures r.Some? ==>
              exists n :: n in node.children && node.children[n] == r.value && r.value.fileType.file.name == name
    ensures r.None? ==> forall n :: n in node.children ==> node.children[n].fileType.file.name != name
  {
    var rest := node.children.Keys;
    while rest != {}
      invariant rest <= node.children.Keys
      invariant forall n :: n in node.children.Keys - rest ==> node.children[n].fileType.file.name != name
      decreases rest
    {
      var n :| n in rest;
      if node.children[n].fileType.file.name == name {
        return Some(node.children[n]);
      }
      rest := rest - {n};
    }
    return None;
  }

  lemma ChildOf(fs: GrizolFsMem, p: Path, n: Name)
    requires fs.Valid() && p in fs.at && p != []
    ensures n in fs.at[p].children <==> p + [n] in fs.at
    ensures n in fs.at[p].children ==>
              && fs.at[p].children[n] == fs.at[p + [n]]
              && fs.at[p + [n]].fileType.FileNode? && fs.at[p + [n]].fileType.file.name == p[1..] + [n]
  {
    hide GrizolFsMem.Valid, ChildrenAt;
    NodeAt(fs, p);
    if p + [n] in fs.at {
      NodesAreFiles(fs, p + [n]);
      assert (p + [n])[1..] == p[1..] + [n];
    }
  }

  /** The child called n of the node at p, found by the name of its file. */
  method FindEntry(fs: GrizolFsMem, ghost p: Path, parent: FsNode, n: Name) returns (r: Option<FsNode>)
    requires fs.Valid() && p != [] && p in fs.at && fs.at[p] == parent
    ensures r.Some? <==> p + [n] in fs.at
    ensures r.Some? ==> r.value == fs.at[p + [n]]
  {
    hide GrizolFsMem.Valid, ChildrenAt;
    ParentName(fs, p, n);
    forall m
      ensures m in parent.children <==> p + [m] in fs.at
      ensures m in parent.children ==> parent.children[m] == fs.at[p + [m]]
      ensures m in parent.children ==> parent.children[m].fileType.FileNode?
      ensures m in parent.children ==> parent.children[m].fileType.file.name == p[1..] + [m]
    {
      ChildOf(fs, p, m);
    }
    r := FindChild(parent, NameIn(parent.fileType, n));
    SameLast(p[1..], n);
  }

  /** Rewrites the names of the collected nodes, in the order in which they were collected. */
  method RewriteNames(
    fs: GrizolFsMem, ghost p: Path, ghost n: Name, ghost ps: seq<Path>, vec: seq<FsNode>, orig: Path, dest: Path)
    returns (res: seq<Move>)
    requires fs.Valid() && p != [] && IsPostOrder(fs.at, p + [n], ps) && AreNodesAt(fs.at, ps, vec)
    requires orig == p[1..] + [n]
    ensures IsPlan(fs.at, p + [n], orig, dest, ps, res)
  {
    hide GrizolFsMem.Valid, IsPostOrder, AreNodesAt, IsMove;
    SameLength(fs.at, ps, vec);
    res := [];
    for i := 0 to |vec|
      invariant |res| == i
      invariant forall k :: 0 <= k < i ==> IsMove(fs.at, orig, dest, ps[k], res[k])
    {
      SubtreeNode(fs, p, n, ps, vec, i);
      var file := vec[i].fileType.file;
      assert orig <= file.name;
      res := res + [Move(file, Moved(orig, dest, file.name))];
      MoveIs(fs.at, orig, dest, ps[i], res[i]);
    }
  }

  lemma SameLength(at: map<Path, FsNode>, ps: seq<Path>, ns: seq<FsNode>)
    requires AreNodesAt(at, ps, ns)
    ensures |ps| == |ns|
  {
  }

  /**
   * Plans the renaming of the entry origName of a folder or directory. The source's prefix
   * assertion holds for every node of the subtree, and its non-file branches are not reached.
   */
  method PlanRename(
    fs: GrizolFsMem, ghost p: Path, origParent: FsNode, origName: Name, destParent: FsNode, destName: Name)
    returns (moves: Option<seq<Move>>, ghost ps: seq<Path>)
    requires fs.Valid() && p != [] && p in fs.at && fs.at[p] == origParent
    ensures moves.None? <==> p + [origName] !in fs.at
    ensures moves.Some? ==>
              IsPlan(fs.at, p + [origName], p[1..] + [origName], NameIn(destParent.fileType, destName), ps, moves.value)
  {
    hide GrizolFsMem.Valid, IsPostOrder, AreNodesAt, IsPlan;
    ps := [];
    var origFile := FindEntry(fs, p, origParent, origName);
    if origFile.None? {
      return None, ps;
    }
    ParentName(fs, p, origName);
    var collector := new Collector();
    ghost var ns;
    ps, ns := TraversePost(fs, p + [origName], origFile.value, collector);
    assert collector.vec == ns;
    var res := RewriteNames(fs, p, origName, ps, collector.vec,
                            NameIn(origParent.fileType, origName), NameIn(destParent.fileType, destName));
    return Some(res), ps;
  }

  lemma SameLast(base: Path, n: Name)
    ensures forall m :: base + [m] == base + [n] ==> m == n
  {
    forall m ensures base + [m] == base + [n] ==> m == n {
      assert (base + [m])[|base|] == m && (base + [n])[|base|] == n;
    }
  }

  lemma MoveIs(at: map<Path, FsNode>, orig: Path, dest: Path, q: Path, m: Move)
    requires q in at && at[q].fileType == FileNode(m.file) && PathOf(m.file) == q
    requires orig <= m.file.name && m.destName == Moved(orig, dest, m.file.name)
    ensures IsMove(at, orig, dest, q, m)
  {
  }

  /** Each collected node is a file whose name starts with the renamed entry's name. */
  lemma SubtreeNode(fs: GrizolFsMem, p: Path, n: Name, ps: seq<Path>, ns: seq<FsNode>, i: nat)
    requires fs.Valid() && p != [] && IsPostOrder(fs.at, p + [n], ps) && AreNodesAt(fs.at, ps, ns) && i < |ns|
    ensures |ps| == |ns| && ps[i] in fs.at && ns[i] == fs.at[ps[i]]
    ensures ns[i].fileType.FileNode? && PathOf(ns[i].fileType.file) == ps[i]
    ensures p[1..] + [n] <= ns[i].fileType.file.name
  {
    hide GrizolFsMem.Valid;
    var q := ps[i];
    assert q in ps;
    assert p + [n] <= q;
    NodesAreFiles(fs, q);
    TailPrefix(p, n, q);
  }

  lemma TailPrefix(p: Path, n: Name, q: Path)
    requires p != [] && p + [n] <= q
    ensures p[1..] + [n] <= q[1..]
  {
    assert (p + [n])[1..] == p[1..] + [n];
    assert q[1..][..|p|] == (p + [n])[1..];
  }

  /** Within a plan no two files move to the same name, and each keeps its path below the renamed entry. */
  lemma PlanIsInjective(
    at: map<Path, FsNode>, p: Path, orig: Path, dest: Path, ps: seq<Path>, moves: seq<Move>, i: nat, k: nat)
    requires IsPlan(at, p, orig, dest, ps, moves) && i < |moves| && k < |moves| && p != []
    ensures i != k ==> moves[i].destName != moves[k].destName
    ensures dest <= moves[i].destName && moves[i].destName[|dest|..] == moves[i].file.name[|orig|..]
  {
    assert IsMove(at, orig, dest, ps[i], moves[i]) && IsMove(at, orig, dest, ps[k], moves[k]);
    MovedBack(orig, dest, moves[i].file.name);
    if i != k {
      assert ps[i] in ps && ps[k] in ps;
      assert p <= ps[i] && p <= ps[k];
      assert ps[i][0] == moves[i].file.folder == ps[k][0] == moves[k].file.folder;
      MovedInjective(orig, dest, moves[i].file.name, moves[k].file.name);
    }
  }
}
