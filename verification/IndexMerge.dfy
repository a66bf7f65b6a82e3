/** Comparing file versions and merging a received index into a stored one. */
module IndexMerge {
  import opened Wrappers

  datatype Counter = Counter(id: nat, value: nat)

  /** The fields of a file entry that the merge looks at; the rest of it is `content`. */
  datatype FileInfo = FileInfo(
    name: string, modifiedS: int, modifiedNs: int, deleted: bool, version: Option<seq<Counter>>, sequence: int,
    content: int)

  datatype Index = Index(folder: string, files: seq<FileInfo>)

  datatype Ordering = Less | Equal | Greater

  // ----- versions -----

  /** The counter with the largest value, the last one if there are several. */
  function MaxCounter(cs: seq<Counter>): (m: Counter)
    requires cs != []
    ensures m in cs && forall c :: c in cs ==> c.value <= m.value
  {
    if |cs| == 1 then cs[0]
    else
      var last := cs[|cs| - 1];
      var m := MaxCounter(cs[..|cs| - 1]);
      assert forall c :: c in cs <==> c in cs[..|cs| - 1] || c == last;
      if last.value >= m.value then last else m
  }

  function Counters(f: FileInfo): seq<Counter> {
    if f.version.Some? then f.version.value else []
  }

  /** Of several counters with the largest value the last one is taken. */
  lemma {:induction false} MaxIsLast(cs: seq<Counter>) returns (i: nat)
    requires cs != []
    ensures i < |cs| && cs[i] == MaxCounter(cs)
    ensures forall k :: i < k < |cs| ==> cs[k].value < cs[i].value
  {
    var n := |cs| - 1;
    if n == 0 || cs[n].value >= MaxCounter(cs[..n]).value {
      i := n;
    } else {
      i := MaxIsLast(cs[..n]);
      assert forall k :: 0 <= k < n ==> cs[..n][k] == cs[k];
    }
  }

  /** Entries without a version, or without counters in it, make the source panic when they are compared. */
  predicate HasVersion(f: FileInfo) {
    Counters(f) != []
  }

  /** Entries without a version make the source panic when they are stored. */
  predicate Storable(files: seq<FileInfo>) {
    forall f :: f in files ==> f.version.Some?
  }

  function MaxValue(f: FileInfo): nat
    requires HasVersion(f)
  {
    MaxCounter(Counters(f)).value
  }

  function PartialCmpFileVersion(a: FileInfo, b: FileInfo): Option<Ordering>
    requires HasVersion(a) && HasVersion(b)
  {
    var x, y := MaxCounter(Counters(a)), MaxCounter(Counters(b));
    if x.value < y.value then Some(Less)
    else if x.value > y.value then Some(Greater)
    else if x.id == y.id then Some(Equal)
    else None
  }

  predicate IsBefore(a: FileInfo, b: FileInfo)
    requires HasVersion(a) && HasVersion(b)
  {
    PartialCmpFileVersion(a, b) == Some(Less)
  }

  /** The comparison is a strict weak order on the largest counter, and it mirrors itself. */
  lemma VersionOrder(a: FileInfo, b: FileInfo, c: FileInfo)
    requires HasVersion(a) && HasVersion(b) && HasVersion(c)
    ensures !IsBefore(a, a) && PartialCmpFileVersion(a, a) == Some(Equal)
    ensures IsBefore(a, b) && IsBefore(b, c) ==> IsBefore(a, c)
    ensures !IsBefore(a, b) && !IsBefore(b, c) ==> !IsBefore(a, c)
    ensures IsBefore(a, b) <==> PartialCmpFileVersion(b, a) == Some(Greater)
    ensures PartialCmpFileVersion(a, b) == Some(Equal) <==> PartialCmpFileVersion(b, a) == Some(Equal)
    ensures PartialCmpFileVersion(a, b) == None <==> PartialCmpFileVersion(b, a) == None
    ensures PartialCmpFileVersion(a, b) == Some(Equal) && PartialCmpFileVersion(b, c) == Some(Equal)
            ==> PartialCmpFileVersion(a, c) == Some(Equal)
  {
  }

  function CmpFileTimestamp(a: FileInfo, b: FileInfo): Ordering
    requires HasVersion(a) && HasVersion(b)
  {
    if a.modifiedS < b.modifiedS || (a.modifiedS == b.modifiedS && a.modifiedNs < b.modifiedNs) then Less
    else if a.modifiedS > b.modifiedS || (a.modifiedS == b.modifiedS && a.modifiedNs > b.modifiedNs) then Greater
    else if MaxValue(a) < MaxValue(b) then Less
    else if MaxValue(a) > MaxValue(b) then Greater
    else Equal
  }

  // ----- the difference -----

  datatype Verdict = Add | Ignore | ConflictAdded | ConflictExisting | Panic

  /** What happens to an added entry, given the stored entry of that name. */
  function Judge(existing: Option<FileInfo>, f: FileInfo): Verdict {
    match existing
    case None => Add
    case Some(e) =>
      if !HasVersion(e) || !HasVersion(f) then Panic
      else
        match PartialCmpFileVersion(e, f)
        case Some(Less) => Add
        case Some(_) => Ignore
        case None =>
          match CmpFileTimestamp(e, f)
          case Less => ConflictAdded
          case Greater => ConflictExisting
          case Equal => Panic
  }

  /** Two devices have made a version of the same number. */
  ghost predicate Conflicting(e: FileInfo, f: FileInfo)
    requires HasVersion(e) && HasVersion(f)
  {
    MaxValue(e) == MaxValue(f) && MaxCounter(Counters(e)).id != MaxCounter(Counters(f)).id
  }

  /** Seen from the other side: news are old there, and a conflict is resolved by time the same way. */
  lemma JudgeMirrors(e: FileInfo, f: FileInfo)
    requires HasVersion(e) && HasVersion(f)
    ensures Judge(Some(e), f) == Add <==> MaxValue(e) < MaxValue(f)
    ensures Judge(Some(e), f) == Add ==> Judge(Some(f), e) == Ignore
    ensures PartialCmpFileVersion(e, f) == None <==> Conflicting(e, f)
    ensures Judge(Some(e), f) == ConflictAdded <==> Judge(Some(f), e) == ConflictExisting
    ensures Judge(Some(e), f) == ConflictAdded <==>
              && Conflicting(e, f)
              && (e.modifiedS < f.modifiedS || (e.modifiedS == f.modifiedS && e.modifiedNs < f.modifiedNs))
    ensures Judge(Some(e), f) == Panic <==>
              && Conflicting(e, f)
              && e.modifiedS == f.modifiedS && e.modifiedNs == f.modifiedNs
  {
  }

  function Lookup(m: map<string, FileInfo>, name: string): Option<FileInfo> {
    if name in m then Some(m[name]) else None
  }

  /** The entries by name; of several with one name the last one counts. */
  function ByName(files: seq<FileInfo>): (m: map<string, FileInfo>)
    ensures forall n :: n in m ==> m[n].name == n && m[n] in files
    ensures forall f :: f in files ==> f.name in m
  {
    if files == [] then map[]
    else
      var last := files[|files| - 1];
      var m := ByName(files[..|files| - 1]);
      assert forall f :: f in files <==> f in files[..|files| - 1] || f == last;
      m[last.name := last]
  }

  datatype Diff =
    | Diff(newlyAdded: seq<FileInfo>, conflictingAdded: seq<FileInfo>, conflictingExisting: seq<FileInfo>)
    | DifferentFolders
    | Panicked

  /** The added entries with this verdict, in order. */
  function Judged(existing: map<string, FileInfo>, added: seq<FileInfo>, v: Verdict): (r: seq<FileInfo>)
    ensures forall f :: f in r <==> f in added && Judge(Lookup(existing, f.name), f) == v
    ensures |r| <= |added|
  {
    if added == [] then []
    else
      var last := added[|added| - 1];
      var r := Judged(existing, added[..|added| - 1], v);
      assert forall f :: f in added <==> f in added[..|added| - 1] || f == last;
      if Judge(Lookup(existing, last.name), last) == v then r + [last] else r
  }

  function DiffSpec(folder: string, added: Index, existing: Index): Diff {
    var m := ByName(existing.files);
    if added.folder != folder && existing.folder != folder then DifferentFolders
    else if Judged(m, added.files, Panic) != [] then Panicked
    else Diff(Judged(m, added.files, Add), Judged(m, added.files, ConflictAdded),
              Judged(m, added.files, ConflictExisting))
  }

  /** The folders matter only if neither index is of the folder; otherwise the entries decide. */
  lemma DiffIs(folder: string, added: Index, existing: Index)
    ensures DiffSpec(folder, added, existing) == DifferentFolders <==>
            folder != added.folder && folder != existing.folder
    ensures DiffSpec(folder, added, existing) == Panicked <==>
            && (folder == added.folder || folder == existing.folder)
            && exists f :: f in added.files && Judge(Lookup(ByName(existing.files), f.name), f) == Panic
    ensures var d := DiffSpec(folder, added, existing);
            d.Diff? ==> forall f: FileInfo ::
              var v := Judge(Lookup(ByName(existing.files), f.name), f);
              && (f in d.newlyAdded <==> f in added.files && v == Add)
              && (f in d.conflictingAdded <==> f in added.files && v == ConflictAdded)
              && (f in d.conflictingExisting <==> f in added.files && v == ConflictExisting)
  {
    hide Judge, ByName, Judged;
    var bad := Judged(ByName(existing.files), added.files, Panic);
    if bad != [] {
      assert bad[0] in bad;
    }
  }

  lemma JudgedStep(existing: map<string, FileInfo>, added: seq<FileInfo>, i: nat, v: Verdict)
    requires i < |added|
    ensures var r := Judged(existing, added[..i], v);
            Judged(existing, added[..i + 1], v)
            == if Judge(Lookup(existing, added[i].name), added[i]) == v then r + [added[i]] else r
  {
    hide Judge;
    assert added[..i + 1][..i] == added[..i];
  }

  /** The difference in one pass over the added entries. */
  method DiffIndices(folder: string, added: Index, existing: Index) returns (d: Diff)
    ensures d == DiffSpec(folder, added, existing)
  {
    hide Judge, ByName, Judged;
    if added.folder != folder && existing.folder != folder {
      return DifferentFolders;
    }
    var m := ByName(existing.files);
    var newlyAdded, conflictingAdded, conflictingExisting: seq<FileInfo> := [], [], [];
    for i := 0 to |added.files|
      invariant newlyAdded == Judged(m, added.files[..i], Add)
      invariant conflictingAdded == Judged(m, added.files[..i], ConflictAdded)
      invariant conflictingExisting == Judged(m, added.files[..i], ConflictExisting)
      invariant Judged(m, added.files[..i], Panic) == []
    {
      var f := added.files[i];
      JudgedStep(m, added.files, i, Add);
      JudgedStep(m, added.files, i, ConflictAdded);
      JudgedStep(m, added.files, i, ConflictExisting);
      JudgedStep(m, added.files, i, Panic);
      match Judge(Lookup(m, f.name), f) {
        case Add => newlyAdded := newlyAdded + [f];
        case Ignore =>
        case ConflictAdded => conflictingAdded := conflictingAdded + [f];
        case ConflictExisting => conflictingExisting := conflictingExisting + [f];
        case Panic =>
          assert f in added.files;
          return Panicked;
      }
    }
    assert added.files[..|added.files|] == added.files;
    return Diff(newlyAdded, conflictingAdded, conflictingExisting);
  }

  // ----- storing the difference -----

  /** Entries stored by name, one after the other. */
  function InsertAll(m: map<string, FileInfo>, files: seq<FileInfo>): (r: map<string, FileInfo>)
    ensures r.Keys == m.Keys + set f | f in files :: f.name
    ensures forall n :: n in r ==> (n in m && r[n] == m[n]) || (r[n] in files && r[n].name == n)
    decreases |files|
  {
    if files == [] then m
    else
      var last := files[|files| - 1];
      var front := files[..|files| - 1];
      assert forall f :: f in files <==> f in front || f == last;
      InsertAll(m, front)[last.name := last]
  }

  /** Fresh sequence numbers; nothing else of the entries changes. */
  function Renumbered(files: seq<FileInfo>, first: int): (r: seq<FileInfo>)
    ensures |r| == |files| && forall i :: 0 <= i < |r| ==> r[i] == files[i].(sequence := first + i)
  {
    seq(|files|, i requires 0 <= i < |files| => files[i].(sequence := first + i))
  }

  function NotDeleted(files: seq<FileInfo>): (r: seq<FileInfo>)
    ensures forall f :: f in r <==> f in files && !f.deleted
    ensures |r| <= |files|
  {
    if files == [] then []
    else
      var last := files[|files| - 1];
      var r := NotDeleted(files[..|files| - 1]);
      assert forall f :: f in files <==> f in files[..|files| - 1] || f == last;
      if last.deleted then r else r + [last]
  }

  /** A file's entry never gets lost and its largest counter never goes down. */
  ghost predicate NeverLowers(m: map<string, FileInfo>, m': map<string, FileInfo>) {
    forall n :: n in m ==> n in m' && AtLeast(m[n], m'[n])
  }

  /** The new entry is the old one, or one with a larger counter. */
  ghost predicate AtLeast(a: FileInfo, b: FileInfo) {
    a == b || (HasVersion(a) && HasVersion(b) && MaxValue(a) < MaxValue(b))
  }

  /** Each of the files may replace the stored entry of its name. */
  ghost predicate MayReplace(m: map<string, FileInfo>, files: seq<FileInfo>) {
    forall f :: f in files && f.name in m ==>
      HasVersion(m[f.name]) && HasVersion(f) && MaxValue(m[f.name]) < MaxValue(f)
  }

  lemma InsertNeverLowers(m: map<string, FileInfo>, files: seq<FileInfo>)
    requires MayReplace(m, files)
    ensures NeverLowers(m, InsertAll(m, files))
  {
  }

  lemma AddedMayReplace(m: map<string, FileInfo>, added: seq<FileInfo>)
    ensures MayReplace(m, Judged(m, added, Add))
  {
    hide Judged;
  }

  lemma RenumberedMayReplace(m: map<string, FileInfo>, files: seq<FileInfo>, first: int)
    requires MayReplace(m, files)
    ensures MayReplace(m, Renumbered(files, first)) && MayReplace(m, NotDeleted(Renumbered(files, first)))
  {
    var r := Renumbered(files, first);
    forall f | f in r && f.name in m
      ensures HasVersion(m[f.name]) && HasVersion(f) && MaxValue(m[f.name]) < MaxValue(f)
    {
      var i :| 0 <= i < |r| && r[i] == f;
      assert files[i] in files;
    }
  }
}
