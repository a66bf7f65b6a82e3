/** The in-memory indices, and what Index and IndexUpdate messages do to them. */
module Indices {
  import opened Wrappers
  import opened IndexMerge

  datatype FolderDevice = FolderDevice(folder: string, device: nat)

  datatype GrizolIndex = GrizolIndex(folder: string, files: map<string, FileInfo>)

  type Table = map<FolderDevice, GrizolIndex>

  /** Entries are stored under their own names. */
  ghost predicate Keyed(m: map<string, FileInfo>) {
    forall n :: n in m ==> m[n].name == n
  }

  ghost predicate ValidTable(t: Table) {
    forall k :: k in t ==> Keyed(t[k].files)
  }

  function PutIndex(t: Table, device: nat, index: Index): Table {
    t[FolderDevice(index.folder, device) := GrizolIndex(index.folder, ByName(index.files))]
  }

  /** An index that is not in memory is loaded from its rows in the database. */
  function Load(t: Table, k: FolderDevice, rows: seq<FileInfo>): (r: Table)
    ensures k in r && forall j :: j in t ==> j in r && r[j] == t[j]
  {
    if k in t then t else PutIndex(t, k.device, Index(k.folder, rows))
  }

  /** An index that is missing is created without a folder name. */
  function Entry(t: Table, k: FolderDevice): GrizolIndex {
    if k in t then t[k] else GrizolIndex("", map[])
  }

  function PutFiles(t: Table, k: FolderDevice, files: seq<FileInfo>): Table {
    t[k := Entry(t, k).(files := InsertAll(Entry(t, k).files, files))]
  }

  function DropFile(t: Table, k: FolderDevice, name: string): Table {
    t[k := Entry(t, k).(files := Entry(t, k).files - {name})]
  }

  /** A listing of a stored index: every entry once, in some order. */
  ghost predicate Lists(files: seq<FileInfo>, m: map<string, FileInfo>) {
    && (forall i, j :: 0 <= i < j < |files| ==> files[i].name != files[j].name)
    && (forall f :: f in files <==> f.name in m && m[f.name] == f)
  }

  lemma {:induction false} ListsByName(files: seq<FileInfo>, m: map<string, FileInfo>)
    requires Lists(files, m) && Keyed(m)
    ensures ByName(files) == m
  {
    var r := ByName(files);
    forall n | n in m ensures n in r {
      assert m[n] in files;
    }
  }

  class GrizolIndices {
    var indices: Table

    constructor ()
      ensures indices == map[] && ValidTable(indices)
    {
      indices := map[];
    }

    /** Stores an index and returns the one that it replaces. */
    method Insert(device: nat, index: Index) returns (r: Option<Index>)
      requires ValidTable(indices)
      modifies this
      ensures ValidTable(indices) && indices == PutIndex(old(indices), device, index)
      ensures var k := FolderDevice(index.folder, device);
              && (r.Some? <==> k in old(indices))
              && (r.Some? ==> r.value.folder == old(indices)[k].folder && Lists(r.value.files, old(indices)[k].files))
    {
      hide Lists;
      r := IndexOf(FolderDevice(index.folder, device));
      var files: map<string, FileInfo> := map[];
      for i := 0 to |index.files|
        invariant files == ByName(index.files[..i]) && indices == old(indices)
      {
        files := files[index.files[i].name := index.files[i]];
        assert index.files[..i + 1][..i] == index.files[..i];
      }
      assert index.files[..|index.files|] == index.files;
      indices := indices[FolderDevice(index.folder, device) := GrizolIndex(index.folder, files)];
    }

    /** A copy of a stored index, its entries in any order. */
    method IndexOf(k: FolderDevice) returns (r: Option<Index>)
      requires ValidTable(indices)
      ensures r.Some? <==> k in indices
      ensures r.Some? ==> r.value.folder == indices[k].folder && Lists(r.value.files, indices[k].files)
    {
      if k !in indices {
        return None;
      }
      var m := indices[k].files;
      var files: seq<FileInfo> := [];
      var rest := m.Keys;
      while rest != {}
        invariant rest <= m.Keys
        invariant Lists(files, m - rest)
        decreases rest
      {
        var n :| n in rest;
        ListsMore(files, m, rest, n);
        files := files + [m[n]];
        rest := rest - {n};
      }
      assert m - rest == m;
      return Some(Index(indices[k].folder, files));
    }

    /** Makes sure that an index is in memory; the rows are what the database has for it. */
    method LoadIndex(k: FolderDevice, rows: seq<FileInfo>)
      requires ValidTable(indices)
      modifies this
      ensures ValidTable(indices) && indices == Load(old(indices), k, rows)
    {
      hide ByName, Lists;
      if k !in indices {
        var _ := Insert(k.device, Index(k.folder, rows));
      }
    }

    method InsertFileInfo(folder: string, device: nat, fileInfo: seq<FileInfo>)
      requires ValidTable(indices)
      modifies this
      ensures ValidTable(indices) && indices == PutFiles(old(indices), FolderDevice(folder, device), fileInfo)
    {
      var k := FolderDevice(folder, device);
      var entry := Entry(indices, k);
      var files := entry.files;
      for i := 0 to |fileInfo|
        invariant files == InsertAll(entry.files, fileInfo[..i]) && indices == old(indices)
      {
        files := files[fileInfo[i].name := fileInfo[i]];
        assert fileInfo[..i + 1][..i] == fileInfo[..i];
      }
      assert fileInfo[..|fileInfo|] == fileInfo;
      indices := indices[k := entry.(files := files)];
    }

    method RemoveFileInfo(folder: string, device: nat, name: string) returns (r: Option<FileInfo>)
      requires ValidTable(indices)
      modifies this
      ensures ValidTable(indices) && indices == DropFile(old(indices), FolderDevice(folder, device), name)
      ensures r == Lookup(Entry(old(indices), FolderDevice(folder, device)).files, name)
      ensures var k := FolderDevice(folder, device);
              && k in indices && name !in indices[k].files
              && (forall n :: n != name ==> Lookup(indices[k].files, n) == Lookup(Entry(old(indices), k).files, n))
              && (forall j :: j in old(indices) && j != k ==> j in indices && indices[j] == old(indices)[j])
    {
      var k := FolderDevice(folder, device);
      var entry := Entry(indices, k);
      r := Lookup(entry.files, name);
      indices := indices[k := entry.(files := entry.files - {name})];
    }
  }

  lemma ListsMore(files: seq<FileInfo>, m: map<string, FileInfo>, rest: set<string>, n: string)
    requires Lists(files, m - rest) && n in rest && rest <= m.Keys && Keyed(m)
    ensures Lists(files + [m[n]], m - (rest - {n}))
  {
    var more, next := files + [m[n]], m - (rest - {n});
    forall f ensures f in more <==> f.name in next && next[f.name] == f {
      assert f in more <==> f in files || f == m[n];
    }
    forall i, j | 0 <= i < j < |more| ensures more[i].name != more[j].name {
      assert i < |files| ==> files[i] in files;
    }
  }

  // ----- messages -----

  /** What an Index message does: the sender's index is replaced and its news enter the local one. */
  function OnIndex(
    t: Table, local: nat, client: nat, received: Index, first: int, rows: seq<FileInfo>): Option<Table>
  {
    if !Storable(received.files) then None
    else
      var t1 := PutIndex(t, client, Index(received.folder, Renumbered(received.files, first)));
      var mine := FolderDevice(received.folder, local);
      Welcome(Load(t1, mine, rows), mine, received, first + |received.files|)
  }

  /** The news of a message enter one stored index, deleted entries included. */
  function Welcome(t: Table, k: FolderDevice, added: Index, first: int): Option<Table> {
    if k !in t then None
    else
      match DiffAgainst(k.folder, added, t[k])
      case Diff(news, _, _) => if Storable(news) then Some(PutFiles(t, k, Renumbered(news, first))) else None
      case _ => None
  }

  /** The diff against a stored index. */
  function DiffAgainst(folder: string, added: Index, existing: GrizolIndex): Diff {
    if added.folder != folder && existing.folder != folder then DifferentFolders
    else if Judged(existing.files, added.files, Panic) != [] then Panicked
    else Diff(Judged(existing.files, added.files, Add), Judged(existing.files, added.files, ConflictAdded),
              Judged(existing.files, added.files, ConflictExisting))
  }

  lemma DiffSpecIsDiffAgainst(folder: string, added: Index, existing: Index, stored: GrizolIndex)
    requires existing.folder == stored.folder && Lists(existing.files, stored.files) && Keyed(stored.files)
    ensures DiffSpec(folder, added, existing) == DiffAgainst(folder, added, stored)
  {
    ListsByName(existing.files, stored.files);
  }

  /** The news of a message enter one stored index; deleted entries are dropped. */
  function Absorb(t: Table, k: FolderDevice, added: Index, first: int): Option<Table> {
    if k !in t then None
    else
      match DiffAgainst(k.folder, added, t[k])
      case Diff(news, _, _) =>
        if Storable(NotDeleted(news)) then Some(PutFiles(t, k, NotDeleted(Renumbered(news, first)))) else None
      case _ => None
  }

  /** What an IndexUpdate does: its news enter the sender's index, and that index enters the local one. */
  function OnIndexUpdate(
    t: Table, local: nat, client: nat, received: Index, listing: seq<FileInfo>, first: int, second: int,
    theirRows: seq<FileInfo>, myRows: seq<FileInfo>): Option<Table>
  {
    var mine, theirs := FolderDevice(received.folder, local), FolderDevice(received.folder, client);
    match Absorb(Load(t, theirs, theirRows), theirs, received, first)
    case None => None
    case Some(t1) => Absorb(Load(t1, mine, myRows), mine, Index(t1[theirs].folder, listing), second)
  }

  /** The listing is one of the sender's index, once the news of the update are in it. */
  ghost predicate ListsTheirs(
    t: Table, client: nat, received: Index, first: int, theirRows: seq<FileInfo>, listing: seq<FileInfo>)
  {
    var theirs := FolderDevice(received.folder, client);
    match Absorb(Load(t, theirs, theirRows), theirs, received, first)
    case None => true
    case Some(t1) => theirs in t1 && Lists(listing, t1[theirs].files)
  }

  /** The local handling of an Index message; None stands for the source's panics. */
  method HandleIndex(
    gi: GrizolIndices, local: nat, client: nat, received: Index, first: int, rows: seq<FileInfo>)
    returns (ok: bool)
    requires ValidTable(gi.indices)
    modifies gi
    ensures ok ==> ValidTable(gi.indices)
    ensures ok ==> OnIndex(old(gi.indices), local, client, received, first, rows) == Some(gi.indices)
    ensures !ok ==> OnIndex(old(gi.indices), local, client, received, first, rows) == None
  {
    hide Welcome, Load, PutIndex;
    if !Storable(received.files) {
      return false;
    }
    var _ := gi.Insert(client, Index(received.folder, Renumbered(received.files, first)));
    gi.LoadIndex(FolderDevice(received.folder, local), rows);
    ok := WelcomeInto(gi, FolderDevice(received.folder, local), received, first + |received.files|);
  }

  method WelcomeInto(gi: GrizolIndices, k: FolderDevice, added: Index, first: int) returns (ok: bool)
    requires ValidTable(gi.indices)
    modifies gi
    ensures ok ==> ValidTable(gi.indices) && Welcome(old(gi.indices), k, added, first) == Some(gi.indices)
    ensures !ok ==> Welcome(old(gi.indices), k, added, first) == None
  {
    hide Judged, ByName, InsertAll;
    var stored := gi.IndexOf(k);
    if stored.None? {
      return false;
    }
    DiffSpecIsDiffAgainst(k.folder, added, stored.value, gi.indices[k]);
    var d := DiffIndices(k.folder, added, stored.value);
    if !d.Diff? {
      return false;
    }
    if !Storable(d.newlyAdded) {
      return false;
    }
    gi.InsertFileInfo(k.folder, k.device, Renumbered(d.newlyAdded, first));
    return true;
  }

  method AbsorbInto(gi: GrizolIndices, k: FolderDevice, added: Index, first: int) returns (ok: bool)
    requires ValidTable(gi.indices)
    modifies gi
    ensures ok ==> ValidTable(gi.indices) && Absorb(old(gi.indices), k, added, first) == Some(gi.indices)
    ensures !ok ==> Absorb(old(gi.indices), k, added, first) == None
  {
    hide Judged, ByName, InsertAll;
    var stored := gi.IndexOf(k);
    if stored.None? {
      return false;
    }
    DiffSpecIsDiffAgainst(k.folder, added, stored.value, gi.indices[k]);
    var d := DiffIndices(k.folder, added, stored.value);
    if !d.Diff? {
      return false;
    }
    if !Storable(NotDeleted(d.newlyAdded)) {
      return false;
    }
    gi.InsertFileInfo(k.folder, k.device, NotDeleted(Renumbered(d.newlyAdded, first)));
    return true;
  }

  /** The local handling of an IndexUpdate; the listing is the order in which the sender's index came. */
  method HandleIndexUpdate(
    gi: GrizolIndices, local: nat, client: nat, received: Index, first: int, second: int,
    theirRows: seq<FileInfo>, myRows: seq<FileInfo>)
    returns (ok: bool, ghost listing: seq<FileInfo>)
    requires ValidTable(gi.indices)
    modifies gi
    ensures ok ==> ValidTable(gi.indices)
    ensures ListsTheirs(old(gi.indices), client, received, first, theirRows, listing)
    ensures var after := OnIndexUpdate(
              old(gi.indices), local, client, received, listing, first, second, theirRows, myRows);
            (ok ==> after == Some(gi.indices)) && (!ok ==> after == None)
  {
    hide Absorb, Load, PutIndex;
    listing := [];
    var mine, theirs := FolderDevice(received.folder, local), FolderDevice(received.folder, client);
    gi.LoadIndex(theirs, theirRows);
    ok := AbsorbInto(gi, theirs, received, first);
    if ok {
      AbsorbedThere(Load(old(gi.indices), theirs, theirRows), theirs, received, first);
      gi.LoadIndex(mine, myRows);
      var other := gi.IndexOf(theirs);
      listing := other.value.files;
      ok := AbsorbInto(gi, mine, other.value, second);
    }
  }

  lemma AbsorbedThere(t: Table, k: FolderDevice, added: Index, first: int)
    requires Absorb(t, k, added, first).Some?
    ensures k in Absorb(t, k, added, first).value
  {
  }

  // ----- every run -----

  datatype Message =
    | IndexMessage(client: nat, received: Index, first: int, rows: seq<FileInfo>)
    | UpdateMessage(client: nat, received: Index, listing: seq<FileInfo>, first: int, second: int,
                    theirRows: seq<FileInfo>, myRows: seq<FileInfo>)

  function Handle(t: Table, local: nat, m: Message): Option<Table> {
    match m
    case IndexMessage(client, received, first, rows) => OnIndex(t, local, client, received, first, rows)
    case UpdateMessage(client, received, listing, first, second, theirRows, myRows) =>
      OnIndexUpdate(t, local, client, received, listing, first, second, theirRows, myRows)
  }

  /** Local indices never lose a name or lower its largest counter. */
  ghost predicate LocalGrows(t: Table, t': Table, local: nat) {
    forall k :: k in t && k.device == local ==> k in t' && NeverLowers(t[k].files, t'[k].files)
  }

  lemma NeverLowersTransitive(a: map<string, FileInfo>, b: map<string, FileInfo>, c: map<string, FileInfo>)
    requires NeverLowers(a, b) && NeverLowers(b, c)
    ensures NeverLowers(a, c)
  {
    forall n | n in a ensures n in c && AtLeast(a[n], c[n]) {
      assert AtLeast(a[n], b[n]) && AtLeast(b[n], c[n]);
    }
  }

  lemma PutFilesGrows(t: Table, k: FolderDevice, files: seq<FileInfo>, local: nat)
    requires k in t && MayReplace(t[k].files, files)
    ensures LocalGrows(t, PutFiles(t, k, files), local)
  {
    hide InsertAll;
    InsertNeverLowers(t[k].files, files);
  }

  lemma AbsorbGrows(t: Table, k: FolderDevice, added: Index, first: int, local: nat)
    requires Absorb(t, k, added, first).Some?
    ensures LocalGrows(t, Absorb(t, k, added, first).value, local)
  {
    hide Judged, InsertAll;
    var news := Judged(t[k].files, added.files, Add);
    AddedMayReplace(t[k].files, added.files);
    RenumberedMayReplace(t[k].files, news, first);
    PutFilesGrows(t, k, NotDeleted(Renumbered(news, first)), local);
  }

  lemma LocalGrowsTransitive(a: Table, b: Table, c: Table, local: nat)
    requires LocalGrows(a, b, local) && LocalGrows(b, c, local)
    ensures LocalGrows(a, c, local)
  {
    forall k | k in a && k.device == local ensures k in c && NeverLowers(a[k].files, c[k].files) {
      NeverLowersTransitive(a[k].files, b[k].files, c[k].files);
    }
  }

  /** Loading an index changes no other one. */
  lemma LoadGrows(t: Table, k: FolderDevice, rows: seq<FileInfo>, local: nat)
    ensures LocalGrows(t, Load(t, k, rows), local)
  {
    hide Load;
  }

  lemma IndexGrows(t: Table, local: nat, client: nat, received: Index, first: int, rows: seq<FileInfo>)
    requires OnIndex(t, local, client, received, first, rows).Some? && client != local
    ensures LocalGrows(t, OnIndex(t, local, client, received, first, rows).value, local)
  {
    hide Welcome, ByName, Load;
    var t1 := PutIndex(t, client, Index(received.folder, Renumbered(received.files, first)));
    var mine := FolderDevice(received.folder, local);
    assert LocalGrows(t, t1, local);
    LoadGrows(t1, mine, rows, local);
    LocalGrowsTransitive(t, t1, Load(t1, mine, rows), local);
    WelcomeGrows(Load(t1, mine, rows), mine, received, first + |received.files|, local);
    LocalGrowsTransitive(t, Load(t1, mine, rows), OnIndex(t, local, client, received, first, rows).value, local);
  }

  lemma WelcomeGrows(t: Table, k: FolderDevice, added: Index, first: int, local: nat)
    requires Welcome(t, k, added, first).Some?
    ensures LocalGrows(t, Welcome(t, k, added, first).value, local)
  {
    hide Judged, InsertAll;
    var news := Judged(t[k].files, added.files, Add);
    AddedMayReplace(t[k].files, added.files);
    RenumberedMayReplace(t[k].files, news, first);
    PutFilesGrows(t, k, Renumbered(news, first), local);
  }

  lemma HandleGrows(t: Table, local: nat, m: Message)
    requires Handle(t, local, m).Some? && m.client != local
    ensures LocalGrows(t, Handle(t, local, m).value, local)
  {
    match m
    case IndexMessage(client, received, first, rows) => IndexGrows(t, local, client, received, first, rows);
    case UpdateMessage(client, received, listing, first, second, theirRows, myRows) =>
      hide Absorb, Load, LocalGrows;
      var mine, theirs := FolderDevice(received.folder, local), FolderDevice(received.folder, client);
      var t0 := Load(t, theirs, theirRows);
      LoadGrows(t, theirs, theirRows, local);
      var t1 := Absorb(t0, theirs, received, first).value;
      AbsorbedThere(t0, theirs, received, first);
      AbsorbGrows(t0, theirs, received, first, local);
      LocalGrowsTransitive(t, t0, t1, local);
      LoadGrows(t1, mine, myRows, local);
      LocalGrowsTransitive(t, t1, Load(t1, mine, myRows), local);
      AbsorbGrows(Load(t1, mine, myRows), mine, Index(t1[theirs].folder, listing), second, local);
      LocalGrowsTransitive(t, Load(t1, mine, myRows), Handle(t, local, m).value, local);
  }

  /** The table after a run of messages, or None if the program panicked on one of them. */
  function HandleAll(t: Table, local: nat, ms: seq<Message>): Option<Table>
    decreases |ms|
  {
    if ms == [] then Some(t)
    else
      match HandleAll(t, local, ms[..|ms| - 1])
      case None => None
      case Some(t1) => Handle(t1, local, ms[|ms| - 1])
  }

  /** Over any run of messages from other devices no local index loses a name or lowers a counter. */
  lemma {:induction false} LocalNeverLowers(t: Table, local: nat, ms: seq<Message>)
    requires HandleAll(t, local, ms).Some?
    requires forall i :: 0 <= i < |ms| ==> ms[i].client != local
    ensures LocalGrows(t, HandleAll(t, local, ms).value, local)
    decreases |ms|
  {
    hide Handle, LocalGrows;
    if ms == [] {
      LocalGrowsReflexive(t, local);
    } else {
      var n := |ms| - 1;
      LocalNeverLowers(t, local, ms[..n]);
      var t1 := HandleAll(t, local, ms[..n]).value;
      HandleGrows(t1, local, ms[n]);
      LocalGrowsTransitive(t, t1, HandleAll(t, local, ms).value, local);
    }
  }

  lemma LocalGrowsReflexive(t: Table, local: nat)
    ensures LocalGrows(t, t, local)
  {
  }

  // ----- applying an update twice -----

  ghost predicate UniqueNames(files: seq<FileInfo>) {
    forall i, j :: 0 <= i < j < |files| ==> files[i].name != files[j].name
  }

  function Deleted(files: seq<FileInfo>): seq<FileInfo> {
    if files == [] then []
    else Deleted(files[..|files| - 1]) + if files[|files| - 1].deleted then [files[|files| - 1]] else []
  }

  lemma {:induction false} InsertedByName(m: map<string, FileInfo>, files: seq<FileInfo>, name: string)
    ensures Lookup(InsertAll(m, files), name)
            == if name in ByName(files) then Some(ByName(files)[name]) else Lookup(m, name)
    decreases |files|
  {
    if files != [] {
      InsertedByName(m, files[..|files| - 1], name);
    }
  }

  /** The same names with the same versions, in the same order. */
  ghost predicate SameVersions(a: seq<FileInfo>, b: seq<FileInfo>) {
    |a| == |b| && forall i :: 0 <= i < |a| ==> a[i].name == b[i].name && a[i].version == b[i].version
  }

  lemma NotDeletedSnoc(files: seq<FileInfo>, n: nat)
    requires |files| == n + 1
    ensures NotDeleted(files) == NotDeleted(files[..n]) + if files[n].deleted then [] else [files[n]]
  {
    var r := NotDeleted(files[..n]);
    assert r + [] == r;
  }

  lemma VersionsConcat(a: seq<FileInfo>, b: seq<FileInfo>, c: seq<FileInfo>, d: seq<FileInfo>)
    requires SameVersions(a, b) && SameVersions(c, d)
    ensures SameVersions(a + c, b + d)
  {
  }

  lemma {:induction false} NotDeletedVersions(a: seq<FileInfo>, b: seq<FileInfo>)
    requires |a| == |b| && forall i :: 0 <= i < |a| ==> a[i] == b[i].(sequence := a[i].sequence)
    ensures SameVersions(NotDeleted(a), NotDeleted(b))
    decreases |a|
  {
    hide NotDeleted;
    if a != [] {
      var n := |a| - 1;
      NotDeletedVersions(a[..n], b[..n]);
      NotDeletedSnoc(a, n);
      NotDeletedSnoc(b, n);
      VersionsConcat(NotDeleted(a[..n]), NotDeleted(b[..n]),
                     if a[n].deleted then [] else [a[n]], if b[n].deleted then [] else [b[n]]);
    }
  }

  lemma {:induction false} VersionsByName(a: seq<FileInfo>, b: seq<FileInfo>, name: string)
    requires SameVersions(a, b)
    ensures name in ByName(a) <==> name in ByName(b)
    ensures name in ByName(a) ==> ByName(a)[name].version == ByName(b)[name].version
    decreases |a|
  {
    if a != [] {
      VersionsByName(a[..|a| - 1], b[..|b| - 1], name);
    }
  }

  /** Under each name the version of the last entry is stored, or nothing has changed. */
  lemma LastIsStored(m: map<string, FileInfo>, news: seq<FileInfo>, first: int, name: string)
    ensures var r := Lookup(InsertAll(m, NotDeleted(Renumbered(news, first))), name);
            var last := ByName(NotDeleted(news));
            if name in last then r.Some? && r.value.version == last[name].version else r == Lookup(m, name)
  {
    hide NotDeleted, ByName, InsertAll, Renumbered;
    InsertedByName(m, NotDeleted(Renumbered(news, first)), name);
    NotDeletedVersions(Renumbered(news, first), news);
    VersionsByName(NotDeleted(Renumbered(news, first)), NotDeleted(news), name);
  }

  /** The stored index after the news of a list of received entries have been stored. */
  function Stored(m: map<string, FileInfo>, received: seq<FileInfo>, first: int): map<string, FileInfo> {
    InsertAll(m, NotDeleted(Renumbered(Judged(m, received, Add), first)))
  }

  lemma SameVersionAgain(e: FileInfo, f: FileInfo)
    requires e.version == f.version
    ensures Judge(Some(e), f) == if HasVersion(f) then Ignore else Panic
  {
  }

  /** The verdict on an entry when the update that contained it has been stored. */
  lemma SecondVerdict(m: map<string, FileInfo>, received: seq<FileInfo>, first: int, f: FileInfo)
    requires f in received && (forall g :: g in received && g.name == f.name ==> g == f)
    ensures Judge(Lookup(Stored(m, received, first), f.name), f) ==
            if Judge(Lookup(m, f.name), f) == Add && !f.deleted then if HasVersion(f) then Ignore else Panic
            else Judge(Lookup(m, f.name), f)
  {
    hide Judged, InsertAll, NotDeleted, Renumbered, Judge, ByName;
    var news := Judged(m, received, Add);
    LastIsStored(m, news, first, f.name);
    if f.name in ByName(NotDeleted(news)) {
      assert ByName(NotDeleted(news))[f.name] in received;
      SameVersionAgain(Lookup(Stored(m, received, first), f.name).value, f);
    }
  }

  ghost predicate AllHaveVersions(files: seq<FileInfo>) {
    forall f :: f in files ==> HasVersion(f)
  }

  /**
   * Sending an update again: the second diff adds exactly the entries of the first one that are
   * deleted, because those are never stored.
   */
  lemma {:induction false} SecondDiffAddsOnlyDeleted(
    m: map<string, FileInfo>, received: seq<FileInfo>, all: seq<FileInfo>, first: int)
    requires UniqueNames(all) && received <= all && Judged(m, all, Panic) == []
    ensures Judged(Stored(m, all, first), received, Add) == Deleted(Judged(m, received, Add))
    decreases |received|
  {
    hide Judge, Judged, Stored, HasVersion, Deleted;
    if received != [] {
      var n := |received| - 1;
      assert received[..n + 1] == received;
      SecondDiffAddsOnlyDeleted(m, received[..n], all, first);
      NoPanicAt(m, all, n);
      SecondVerdict(m, all, first, received[n]);
      JudgedStep(m, received, n, Add);
      JudgedStep(Stored(m, all, first), received, n, Add);
      DeletedSnoc(Judged(m, received[..n], Add), received[n]);
    } else {
      NothingDeleted();
    }
  }

  lemma DeletedSnoc(front: seq<FileInfo>, f: FileInfo)
    ensures Deleted(front + [f]) == if f.deleted then Deleted(front) + [f] else Deleted(front)
  {
    assert (front + [f])[..|front|] == front;
  }

  lemma NothingDeleted()
    ensures Deleted([]) == []
  {
  }

  /** The second diff panics exactly if an entry was stored whose version has no counters. */
  lemma SecondDiffPanicsIff(m: map<string, FileInfo>, all: seq<FileInfo>, first: int)
    requires UniqueNames(all) && Judged(m, all, Panic) == []
    ensures Judged(Stored(m, all, first), all, Panic) == [] <==> AllHaveVersions(NotDeleted(Judged(m, all, Add)))
  {
    hide Judge, Judged, Stored, HasVersion, NotDeleted;
    var m' := Stored(m, all, first);
    forall f | f in all
      ensures Judge(Lookup(m', f.name), f) == Panic
              <==> f in NotDeleted(Judged(m, all, Add)) && !HasVersion(f)
    {
      assert f !in Judged(m, all, Panic);
      SecondVerdict(m, all, first, f);
    }
    if Judged(m', all, Panic) != [] {
      assert Judged(m', all, Panic)[0] in Judged(m', all, Panic);
    }
  }

  lemma NoPanicAt(m: map<string, FileInfo>, all: seq<FileInfo>, n: nat)
    requires UniqueNames(all) && n < |all| && Judged(m, all, Panic) == []
    ensures all[n] in all && Judge(Lookup(m, all[n].name), all[n]) != Panic
    ensures forall g :: g in all && g.name == all[n].name ==> g == all[n]
  {
    hide Judge;
    assert all[n] in all;
  }

  /** The same for a stored index: absorbing an update and receiving it once more. */
  lemma ResentUpdateAddsOnlyDeleted(t: Table, k: FolderDevice, update: Index, first: int)
    requires Absorb(t, k, update, first).Some? && UniqueNames(update.files)
    ensures var news := DiffAgainst(k.folder, update, t[k]).newlyAdded;
            var again := DiffAgainst(k.folder, update, Absorb(t, k, update, first).value[k]);
            if AllHaveVersions(NotDeleted(news)) then again.Diff? && again.newlyAdded == Deleted(news)
            else again == Panicked
  {
    hide InsertAll, Judged, Deleted, Renumbered, NotDeleted, AllHaveVersions;
    SecondDiffAddsOnlyDeleted(t[k].files, update.files, update.files, first);
    SecondDiffPanicsIff(t[k].files, update.files, first);
  }

  // ----- what a message stores -----

  /** The entry, under one of the next n sequence numbers. */
  ghost predicate IsCopy(g: FileInfo, f: FileInfo, first: int, n: nat) {
    g == f.(sequence := g.sequence) && first <= g.sequence < first + n
  }

  /** The news with their new numbers, with or without the deleted ones. */
  function ToStore(news: seq<FileInfo>, first: int, deletedToo: bool): seq<FileInfo> {
    if deletedToo then Renumbered(news, first) else NotDeleted(Renumbered(news, first))
  }

  /** What is to be stored are copies of the news. */
  lemma CopyOf(news: seq<FileInfo>, first: int, deletedToo: bool, g: FileInfo) returns (f: FileInfo)
    requires g in ToStore(news, first, deletedToo)
    ensures f in news && IsCopy(g, f, first, |news|) && (deletedToo || !f.deleted)
  {
    hide NotDeleted;
    var r := Renumbered(news, first);
    assert g in r;
    var i :| 0 <= i < |r| && r[i] == g;
    f := news[i];
  }

  lemma HasCopy(news: seq<FileInfo>, first: int, deletedToo: bool, f: FileInfo) returns (g: FileInfo)
    requires f in news && (deletedToo || !f.deleted)
    ensures g in ToStore(news, first, deletedToo) && IsCopy(g, f, first, |news|)
  {
    hide NotDeleted;
    var i :| 0 <= i < |news| && news[i] == f;
    g := Renumbered(news, first)[i];
    assert g in Renumbered(news, first);
  }

  /** Of entries with different names each one is stored, and nothing else changes. */
  lemma StoresCopy(m: map<string, FileInfo>, news: seq<FileInfo>, first: int, deletedToo: bool, f: FileInfo)
    requires forall g :: g in news && g.name == f.name ==> g == f
    ensures var r := Lookup(InsertAll(m, ToStore(news, first, deletedToo)), f.name);
            if f in news && (deletedToo || !f.deleted) then r.Some? && IsCopy(r.value, f, first, |news|)
            else r == Lookup(m, f.name)
  {
    hide InsertAll, ToStore, ByName;
    var stored := ToStore(news, first, deletedToo);
    InsertedByName(m, stored, f.name);
    if f in news && (deletedToo || !f.deleted) {
      var g := HasCopy(news, first, deletedToo, f);
    }
    if f.name in ByName(stored) {
      var h := CopyOf(news, first, deletedToo, ByName(stored)[f.name]);
    }
  }

  lemma UniqueNameOf(files: seq<FileInfo>, f: FileInfo, g: FileInfo)
    requires UniqueNames(files) && f in files && g in files && f.name == g.name
    ensures f == g
  {
    var i :| 0 <= i < |files| && files[i] == f;
    var k :| 0 <= k < |files| && files[k] == g;
  }

  /** What becomes of an entry of a message: its copy is stored, or nothing happens to its name. */
  ghost predicate Takes(
    m: map<string, FileInfo>, m': map<string, FileInfo>, f: FileInfo, first: int, n: nat, drops: bool)
  {
    if Judge(Lookup(m, f.name), f) == Add && !drops then f.name in m' && IsCopy(m'[f.name], f, first, n)
    else Lookup(m', f.name) == Lookup(m, f.name)
  }

  lemma AbsorbExact(t: Table, k: FolderDevice, added: Index, first: int, f: FileInfo)
    requires Absorb(t, k, added, first).Some? && UniqueNames(added.files) && f in added.files
    ensures var t' := Absorb(t, k, added, first).value;
            k in t && k in t' && Takes(t[k].files, t'[k].files, f, first, |added.files|, f.deleted)
    ensures Judge(Lookup(t[k].files, f.name), f) != Panic
  {
    hide Judge, Judged, InsertAll, ByName, NotDeleted, Renumbered, UniqueNames;
    var m := t[k].files;
    var news := Judged(m, added.files, Add);
    assert f !in Judged(m, added.files, Panic);
    forall g | g in news && g.name == f.name ensures g == f {
      UniqueNameOf(added.files, f, g);
    }
    StoresCopy(m, news, first, false, f);
  }

  lemma WelcomeExact(t: Table, k: FolderDevice, added: Index, first: int, f: FileInfo)
    requires Welcome(t, k, added, first).Some? && UniqueNames(added.files) && f in added.files
    ensures var t' := Welcome(t, k, added, first).value;
            k in t && k in t' && Takes(t[k].files, t'[k].files, f, first, |added.files|, false)
    ensures Judge(Lookup(t[k].files, f.name), f) != Panic
  {
    hide Judge, Judged, InsertAll, ByName, NotDeleted, Renumbered, UniqueNames;
    var m := t[k].files;
    var news := Judged(m, added.files, Add);
    assert f !in Judged(m, added.files, Panic);
    forall g | g in news && g.name == f.name ensures g == f {
      UniqueNameOf(added.files, f, g);
    }
    StoresCopy(m, news, first, true, f);
  }

  /** The name is stored, with at least that version. */
  ghost predicate CoveredBy(m: map<string, FileInfo>, f: FileInfo)
    requires HasVersion(f)
  {
    f.name in m && HasVersion(m[f.name]) && MaxValue(f) <= MaxValue(m[f.name])
  }

  lemma TakenIsCovered(
    m: map<string, FileInfo>, m': map<string, FileInfo>, f: FileInfo, first: int, n: nat)
    requires HasVersion(f) && Takes(m, m', f, first, n, false) && Judge(Lookup(m, f.name), f) != Panic
    ensures CoveredBy(m', f)
  {
    hide Judge;
    AddIff(Lookup(m, f.name), f);
    if Judge(Lookup(m, f.name), f) == Add {
      assert m'[f.name].version == f.version;
    }
  }

  /** Only that index changes. */
  lemma AbsorbElsewhere(t: Table, k: FolderDevice, added: Index, first: int, j: FolderDevice)
    requires Absorb(t, k, added, first).Some? && j != k && j in t
    ensures var t' := Absorb(t, k, added, first).value; j in t' && t'[j] == t[j]
  {
  }

  /**
   * An IndexUpdate reaches both indices: every entry that it brings is then in the sender's index,
   * and every entry of that index is in the local one, with at least that version. Deleted entries
   * are not passed on.
   */
  lemma UpdateReaches(
    t: Table, local: nat, client: nat, received: Index, listing: seq<FileInfo>, first: int, second: int,
    theirRows: seq<FileInfo>, myRows: seq<FileInfo>, f: FileInfo)
    requires OnIndexUpdate(t, local, client, received, listing, first, second, theirRows, myRows).Some?
    requires ValidTable(t) && ListsTheirs(t, client, received, first, theirRows, listing) && client != local
    requires UniqueNames(received.files) && HasVersion(f) && !f.deleted
    ensures var t' := OnIndexUpdate(t, local, client, received, listing, first, second, theirRows, myRows).value;
            var mine, theirs := FolderDevice(received.folder, local), FolderDevice(received.folder, client);
            && mine in t' && theirs in t' && Lists(listing, t'[theirs].files)
            && (f in received.files ==> CoveredBy(t'[theirs].files, f))
            && (f in listing ==> CoveredBy(t'[mine].files, f))
            && (f in received.files && !t'[theirs].files[f.name].deleted ==> CoveredBy(t'[mine].files, f))
  {
    hide Absorb, Load, CoveredBy, Lists, UniqueNames;
    var mine, theirs := FolderDevice(received.folder, local), FolderDevice(received.folder, client);
    var t0 := Load(t, theirs, theirRows);
    var t1 := Absorb(t0, theirs, received, first).value;
    AbsorbedThere(t0, theirs, received, first);
    var t2 := Load(t1, mine, myRows);
    var added := Index(t1[theirs].folder, listing);
    AbsorbedThere(t2, mine, added, second);
    AbsorbElsewhere(t2, mine, added, second, theirs);
    ListsUnique(listing, t1[theirs].files);
    if f in listing {
      AbsorbCovers(t2, mine, added, second, f);
    }
    if f in received.files {
      AbsorbCovers(t0, theirs, received, first, f);
      IsThere(t1[theirs].files, f);
      if !t1[theirs].files[f.name].deleted {
        LoadValid(t, theirs, theirRows);
        AbsorbValid(t0, theirs, received, first);
        PassedOn(t2, mine, added, second, t1[theirs].files, f);
      }
    }
  }

  /** An index that was not in memory is loaded with every row of it; one that was stays. */
  lemma LoadedRows(t: Table, k: FolderDevice, rows: seq<FileInfo>, f: FileInfo)
    requires UniqueNames(rows)
    ensures k in t ==> Load(t, k, rows) == t
    ensures k !in t ==>
              var g := Load(t, k, rows)[k];
              && g.folder == k.folder
              && (f in rows <==> f.name in g.files && g.files[f.name] == f)
              && (forall j :: j in Load(t, k, rows) <==> j in t || j == k)
  {
    hide ByName, UniqueNames;
    if k !in t && f in rows {
      UniqueNameOf(rows, f, ByName(rows)[f.name]);
    }
  }

  lemma LoadValid(t: Table, k: FolderDevice, rows: seq<FileInfo>)
    requires ValidTable(t)
    ensures ValidTable(Load(t, k, rows))
  {
    hide ByName;
  }

  lemma AbsorbValid(t: Table, k: FolderDevice, added: Index, first: int)
    requires ValidTable(t) && Absorb(t, k, added, first).Some?
    ensures ValidTable(Absorb(t, k, added, first).value)
  {
    hide InsertAll, Judged, NotDeleted, Renumbered;
  }

  lemma AbsorbCovers(t: Table, k: FolderDevice, added: Index, first: int, f: FileInfo)
    requires Absorb(t, k, added, first).Some? && UniqueNames(added.files)
    requires f in added.files && HasVersion(f) && !f.deleted
    ensures k in Absorb(t, k, added, first).value && CoveredBy(Absorb(t, k, added, first).value[k].files, f)
  {
    hide Absorb, UniqueNames, CoveredBy, Judge;
    AbsorbExact(t, k, added, first, f);
    TakenIsCovered(t[k].files, Absorb(t, k, added, first).value[k].files, f, first, |added.files|);
  }

  lemma ListsUnique(files: seq<FileInfo>, m: map<string, FileInfo>)
    requires Lists(files, m)
    ensures UniqueNames(files)
  {
  }

  /** The sender's entry for f, if it is not deleted, takes f's version into the local index. */
  lemma PassedOn(t: Table, k: FolderDevice, added: Index, first: int, m: map<string, FileInfo>, f: FileInfo)
    requires Absorb(t, k, added, first).Some? && Lists(added.files, m) && Keyed(m)
    requires HasVersion(f) && CoveredBy(m, f) && !m[f.name].deleted
    ensures k in Absorb(t, k, added, first).value && CoveredBy(Absorb(t, k, added, first).value[k].files, f)
  {
    hide Absorb;
    var e := m[f.name];
    assert e in added.files && e.name == f.name;
    ListsUnique(added.files, m);
    AbsorbCovers(t, k, added, first, e);
  }

  /**
   * An Index replaces the sender's index by its entries, under the next numbers, and every entry is
   * then in the local one with at least that version, deleted ones included, under later numbers.
   */
  lemma IndexReaches(
    t: Table, local: nat, client: nat, received: Index, first: int, rows: seq<FileInfo>, f: FileInfo)
    requires OnIndex(t, local, client, received, first, rows).Some? && client != local
    requires UniqueNames(received.files) && f in received.files && HasVersion(f)
    ensures var t' := OnIndex(t, local, client, received, first, rows).value;
            var mine, theirs := FolderDevice(received.folder, local), FolderDevice(received.folder, client);
            && mine in t' && theirs in t' && CoveredBy(t'[mine].files, f)
            && f.name in t'[theirs].files && IsCopy(t'[theirs].files[f.name], f, first, |received.files|)
            && (t'[mine].files[f.name] in Load(t, mine, rows)[mine].files.Values
                || t'[mine].files[f.name].sequence >= first + |received.files|)
  {
    hide Welcome, CoveredBy, UniqueNames, Judge, ByName, Renumbered;
    var n := |received.files|;
    var mine, theirs := FolderDevice(received.folder, local), FolderDevice(received.folder, client);
    var t1 := PutIndex(t, client, Index(received.folder, Renumbered(received.files, first)));
    var t2 := Load(t1, mine, rows);
    WelcomeExact(t2, mine, received, first + n, f);
    WelcomeElsewhere(t2, mine, received, first + n, theirs);
    var t' := Welcome(t2, mine, received, first + n).value;
    TakenIsCovered(t2[mine].files, t'[mine].files, f, first + n, n);
    ReplacedBy(received.files, first, f);
    assert Load(t, mine, rows)[mine] == t2[mine];
    assert f.name in t2[mine].files ==> t2[mine].files[f.name] in t2[mine].files.Values;
    IsThere(t'[mine].files, f);
  }

  lemma IsThere(m: map<string, FileInfo>, f: FileInfo)
    requires HasVersion(f) && CoveredBy(m, f)
    ensures f.name in m
  {
  }

  lemma WelcomeElsewhere(t: Table, k: FolderDevice, added: Index, first: int, j: FolderDevice)
    requires Welcome(t, k, added, first).Some? && j != k && j in t
    ensures var t' := Welcome(t, k, added, first).value; j in t' && t'[j] == t[j]
  {
  }

  lemma ReplacedBy(files: seq<FileInfo>, first: int, f: FileInfo)
    requires UniqueNames(files) && f in files
    ensures var m := ByName(Renumbered(files, first)); f.name in m && IsCopy(m[f.name], f, first, |files|)
  {
    hide ByName, UniqueNames;
    var m := ByName(Renumbered(files, first));
    var g := HasCopy(files, first, true, f);
    var h := CopyOf(files, first, true, m[f.name]);
    UniqueNameOf(files, f, h);
  }

  // ----- without unique names -----

  /** Of several entries with one name the last one, which is the one that is kept, is the highest. */
  ghost predicate LastIsHighest(files: seq<FileInfo>)
    requires forall f :: f in files ==> HasVersion(f)
  {
    forall f :: f in files ==> MaxValue(f) <= MaxValue(ByName(files)[f.name])
  }

  lemma CanCompare(existing: Option<FileInfo>, f: FileInfo)
    requires Judge(existing, f) != Panic && !HasVersion(f)
    ensures Judge(existing, f) == Add
  {
  }

  lemma AddIff(existing: Option<FileInfo>, f: FileInfo)
    requires HasVersion(f)
    ensures Judge(existing, f) == Add <==>
            existing.None? || (HasVersion(existing.value) && MaxValue(existing.value) < MaxValue(f))
    ensures existing.Some? && !HasVersion(existing.value) ==> Judge(existing, f) == Panic
  {
  }

  /** An entry is added by a second diff exactly if it was added before and a lower one is stored for it. */
  lemma AddedAgainIff(m: map<string, FileInfo>, received: seq<FileInfo>, first: int, f: FileInfo)
    requires Judged(m, received, Panic) == [] && AllHaveVersions(NotDeleted(Judged(m, received, Add)))
    requires f in received && !f.deleted
    ensures var news := NotDeleted(Judged(m, received, Add));
            Judge(Lookup(Stored(m, received, first), f.name), f) == Add
            <==> f in news && MaxValue(ByName(news)[f.name]) < MaxValue(f)
  {
    hide Judge, Judged, InsertAll, ByName, MaxCounter, NotDeleted, Renumbered;
    var all := Judged(m, received, Add);
    var news := NotDeleted(all);
    LastIsStored(m, all, first, f.name);
    assert f in received && f !in Judged(m, received, Panic);
    if !HasVersion(f) {
      CanCompare(Lookup(m, f.name), f);
      assert false;
    }
    AddIff(Lookup(m, f.name), f);
    AddIff(Lookup(Stored(m, received, first), f.name), f);
    if f.name in ByName(news) {
      var last := ByName(news)[f.name];
      assert last in all && Judge(Lookup(m, last.name), last) == Add;
      AddIff(Lookup(m, f.name), last);
    }
  }

  /**
   * What a second diff adds are deleted entries only, if and only if no name comes with a lower
   * version after a higher one among the entries that the first diff added.
   */
  lemma AddsOnlyDeletedIff(m: map<string, FileInfo>, received: seq<FileInfo>, first: int)
    requires Judged(m, received, Panic) == [] && AllHaveVersions(NotDeleted(Judged(m, received, Add)))
    ensures (forall f :: f in Judged(Stored(m, received, first), received, Add) ==> f.deleted)
            <==> LastIsHighest(NotDeleted(Judged(m, received, Add)))
  {
    hide Judge, Judged, InsertAll, ByName, NotDeleted, Stored;
    var news := NotDeleted(Judged(m, received, Add));
    forall f | f in received && !f.deleted
      ensures f in Judged(Stored(m, received, first), received, Add)
              <==> f in news && MaxValue(ByName(news)[f.name]) < MaxValue(f)
    {
      AddedAgainIff(m, received, first, f);
    }
  }

  /** A higher version followed by a lower one of the same name is such an input. */
  lemma RepeatedNamesAddAgain(hi: FileInfo, lo: FileInfo)
    requires HasVersion(hi) && HasVersion(lo) && MaxValue(lo) < MaxValue(hi)
    requires hi.name == lo.name && !hi.deleted && !lo.deleted
    ensures hi in Judged(Stored(map[], [hi, lo], 0), [hi, lo], Add)
  {
    hide MaxCounter, InsertAll;
    assert [hi, lo][..1] == [hi] && [hi][..0] == [];
    assert Judged(map[], [hi], Add) == [hi] && Judged(map[], [hi, lo], Panic) == [];
    assert Judged(map[], [hi, lo], Add) == [hi, lo];
    assert NotDeleted([hi]) == [hi] && NotDeleted([hi, lo]) == [hi, lo];
    AddedAgainIff(map[], [hi, lo], 0, hi);
  }
}
