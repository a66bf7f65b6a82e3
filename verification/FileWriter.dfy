/**
 * The chunk writer as an object, for calls that do not overlap and do not fail; overlapping and
 * failing calls are the subject of module ConcurrentWriter.
 */
module FileWriter {
  import opened Bytes
  import opened Wrappers
  import opened ChunkLayout
  import opened ConcurrentWriter
  import ChunkAssembly
  import opened WriterOutcomes

  datatype ConsolidateError = AlreadyConsolidating | StillWriting | ChunkMissing

  /** The first of n chunks that is not on disk, or n. */
  function FirstMissing(chunks: map<nat, Buffer>, n: nat): (k: nat)
    ensures k <= n && HasChunks(chunks, k) && (k < n ==> k !in chunks)
  {
    if n == 0 then 0
    else
      var k := FirstMissing(chunks, n - 1);
      if k == n - 1 && k in chunks then n else k
  }

  lemma FirstMissingIs(chunks: map<nat, Buffer>, n: nat, k: nat)
    requires k <= n && HasChunks(chunks, k) && (k < n ==> k !in chunks)
    ensures k == FirstMissing(chunks, n)
  {
    if k < FirstMissing(chunks, n) {
      assert false;
    }
  }

  lemma WholeChunk(data: Buffer)
    ensures Overlay(Resized([], |data|), 0, data) == data
  {
  }

  class FileWriter {
    const layout: Layout
    var state: Mode
    const writingChunk: array<bool>
    var chunkFiles: map<nat, Buffer>
    var file: Option<Buffer>

    ghost predicate Valid()
      reads this
    {
      layout.chunkSize > 0 && writingChunk.Length == ChunkCount(layout)
    }

    /** The state of the concurrent model in which no call is running. */
    ghost function AsState(): State
      reads this, writingChunk
    {
      State(state, writingChunk[..], map[], map[], map[], map[], 0, chunkFiles, file, false)
    }

    constructor (layout: Layout)
      requires layout.chunkSize > 0
      ensures Valid() && this.layout == layout && fresh(writingChunk)
      ensures state == WritingChunks(0) && chunkFiles == map[] && file == None
      ensures forall p :: 0 <= p < writingChunk.Length ==> !writingChunk[p]
    {
      this.layout := layout;
      writingChunk := new bool[ChunkCount(layout)](_ => false);
      state := WritingChunks(0);
      chunkFiles := map[];
      file := None;
    }

    /** Stores a chunk: an accepted write replaces the chunk file of its position and nothing else. */
    method WriteChunk(data: Buffer, offset: nat) returns (r: Option<WriteError>)
      requires Valid()
      modifies this, writingChunk
      ensures Valid() && file == old(file) && state == old(state)
      ensures r == if layout.fileSize == 0 && offset == 0 then None
                   else if CheckWrite(layout, |data|, offset).Some? then CheckWrite(layout, |data|, offset)
                   else if old(state) == Consolidating then Some(NowConsolidating)
                   else None
      ensures chunkFiles == if r.Some? then old(chunkFiles)
                            else if layout.fileSize == 0 then old(chunkFiles)[0 := []]
                            else old(chunkFiles)[offset / layout.chunkSize := data]
      ensures forall p :: 0 <= p < writingChunk.Length ==>
                writingChunk[p] ==
                (old(writingChunk[p]) && !(r.None? && layout.fileSize > 0 && p == offset / layout.chunkSize))
      ensures r.None? && layout.fileSize > 0 ==>
                RunFrom(layout, old(AsState()), WriteRun(0, data, offset))
                == Some(AsState().(done := map[0 := offset / layout.chunkSize]))
    {
      hide RunFrom, WriteRun, CheckWrite, Overlay, Resized;
      if offset == 0 && layout.fileSize == 0 {
        chunkFiles := chunkFiles[0 := []];
        return None;
      }
      var problem := CheckWrite(layout, |data|, offset);
      if problem.Some? {
        return problem;
      }
      if state == Consolidating {
        return Some(NowConsolidating);
      }
      WriteRunStores(layout, AsState(), 0, data, offset);
      StoreChunk(data, offset / layout.chunkSize);
      return None;
    }

    /** What a write does between its two locks, and at them. */
    method StoreChunk(data: Buffer, chunkPos: nat)
      requires Valid() && state.WritingChunks? && chunkPos < writingChunk.Length
      modifies this, writingChunk
      ensures state == old(state) && file == old(file) && chunkFiles == old(chunkFiles)[chunkPos := data]
      ensures writingChunk[..] == old(writingChunk[..])[chunkPos := false]
    {
      hide Overlay, Resized;
      state := WritingChunks(state.n + 1);
      if !writingChunk[chunkPos] {
        writingChunk[chunkPos] := true;
      }
      chunkFiles := chunkFiles[chunkPos := []];
      chunkFiles := chunkFiles[chunkPos := Resized([], |data|)];
      chunkFiles := chunkFiles[chunkPos := Overlay(chunkFiles[chunkPos], 0, data)];
      WholeChunk(data);
      writingChunk[chunkPos] := false;
      state := WritingChunks(state.n - 1);
    }

    /** Some flag is up. */
    method AnyFlag() returns (b: bool)
      ensures b <==> exists p :: 0 <= p < writingChunk.Length && writingChunk[p]
    {
      for p := 0 to writingChunk.Length
        invariant forall q :: 0 <= q < p ==> !writingChunk[q]
      {
        if writingChunk[p] {
          return true;
        }
      }
      return false;
    }

    /**
     * Merges the chunk files into the file. Without a missing chunk the file is the chunks at their
     * offsets and the writer is usable again; with one, the file holds the chunks before it, their
     * chunk files are gone, and the writer is left consolidating for good.
     */
    method Consolidate() returns (r: Option<ConsolidateError>)
      requires Valid()
      modifies this
      ensures Valid()
      ensures old(state) == Consolidating ==> r == Some(AlreadyConsolidating) && state == old(state)
      ensures old(state).WritingChunks? && old(state).n > 0 ==> r == Some(StillWriting) && state == old(state)
      ensures old(state) == WritingChunks(0) && (exists p :: 0 <= p < writingChunk.Length && writingChunk[p]) ==>
                r == None && state == WritingChunks(0)
      ensures old(state) == WritingChunks(0) && (forall p :: 0 <= p < writingChunk.Length ==> !writingChunk[p]) ==>
                var n := writingChunk.Length;
                var k := FirstMissing(old(chunkFiles), n);
                && chunkFiles == Without(old(chunkFiles), k) && file == Some(Assembled(layout, old(chunkFiles), k))
                && (k == n ==> r == None && state == WritingChunks(0))
                && (k < n ==> r == Some(ChunkMissing) && state == Consolidating)
      ensures old(state) != WritingChunks(0) || (exists p :: 0 <= p < writingChunk.Length && writingChunk[p]) ==>
                chunkFiles == old(chunkFiles) && file == old(file)
      ensures old(state) == WritingChunks(0) && (forall p :: 0 <= p < writingChunk.Length ==> !writingChunk[p]) ==>
                var n := writingChunk.Length;
                var run := CopyRun(0, FirstMissing(old(chunkFiles), n));
                if r == None then RunFrom(layout, old(AsState()), run + [Leave(0)]) == Some(AsState().(merged := 1))
                else RunFrom(layout, old(AsState()), run + [MergeFails(0)]) == Some(AsState())
    {
      hide FirstMissing, Assembled, Without, RunFrom, CopyRun;
      ghost var begin, k := AsState(), FirstMissing(chunkFiles, writingChunk.Length);
      match state {
        case Consolidating => return Some(AlreadyConsolidating);
        case WritingChunks(n) =>
          if n > 0 {
            return Some(StillWriting);
          }
          state := Consolidating;
      }
      var skip := AnyFlag();
      if !skip {
        CopyRunEnds(layout, begin, 0, k);
        var complete := CopyChunks();
        if !complete {
          return Some(ChunkMissing);
        }
      }
      state := WritingChunks(0);
      return None;
    }

    method CopyChunks() returns (complete: bool)
      requires Valid()
      modifies this`chunkFiles, this`file
      ensures var k := FirstMissing(old(chunkFiles), writingChunk.Length);
              && complete == (k == writingChunk.Length)
              && chunkFiles == Without(old(chunkFiles), k)
              && file == Some(Assembled(layout, old(chunkFiles), k))
    {
      hide Overlay, FirstMissing;
      ghost var chunks := chunkFiles;
      var whole: Buffer := [];
      file := Some(whole);
      assert chunkFiles == Without(chunks, 0);
      for i := 0 to writingChunk.Length
        invariant HasChunks(chunks, i)
        invariant chunkFiles == Without(chunks, i)
        invariant whole == Assembled(layout, chunks, i) && file == Some(whole)
      {
        if i !in chunkFiles {
          FirstMissingIs(chunks, writingChunk.Length, i);
          return false;
        }
        whole := Overlay(whole, i * layout.chunkSize, chunkFiles[i]);
        file := Some(whole);
        chunkFiles := chunkFiles - {i};
      }
      FirstMissingIs(chunks, writingChunk.Length, writingChunk.Length);
      return true;
    }
  }

  // ----- any order of writes -----

  datatype WriteCall = WriteCall(data: Buffer, offset: nat)

  /** Where a call stores what, if it is accepted; a file of size zero has one empty chunk file. */
  function StoredBy(l: Layout, c: WriteCall): Option<(nat, Buffer)>
    requires l.chunkSize > 0
  {
    if l.fileSize == 0 && c.offset == 0 then Some((0, []))
    else if CheckWrite(l, |c.data|, c.offset).Some? then None
    else Some((c.offset / l.chunkSize, c.data))
  }

  /** The chunk files after a list of calls, of which the unacceptable ones change nothing. */
  function ChunksAfter(l: Layout, calls: seq<WriteCall>): map<nat, Buffer>
    requires l.chunkSize > 0
    decreases |calls|
  {
    if calls == [] then map[]
    else
      var before := ChunksAfter(l, calls[..|calls| - 1]);
      match StoredBy(l, calls[|calls| - 1])
      case None => before
      case Some((pos, data)) => before[pos := data]
  }

  /** Makes a list of calls on a new writer, one after the other. */
  method WriteAll(layout: Layout, calls: seq<WriteCall>) returns (writer: FileWriter)
    requires layout.chunkSize > 0
    ensures fresh(writer) && fresh(writer.writingChunk) && writer.Valid() && writer.layout == layout
    ensures writer.chunkFiles == ChunksAfter(layout, calls) && writer.file == None
    ensures writer.state == WritingChunks(0)
    ensures forall p :: 0 <= p < writer.writingChunk.Length ==> !writer.writingChunk[p]
  {
    writer := new FileWriter(layout);
    for i := 0 to |calls|
      invariant fresh(writer) && fresh(writer.writingChunk) && writer.Valid() && writer.layout == layout
      invariant writer.chunkFiles == ChunksAfter(layout, calls[..i]) && writer.file == None
      invariant writer.state == WritingChunks(0)
      invariant forall p :: 0 <= p < writer.writingChunk.Length ==> !writer.writingChunk[p]
    {
      assert calls[..i + 1][..i] == calls[..i];
      var _ := writer.WriteChunk(calls[i].data, calls[i].offset);
    }
    assert calls[..|calls|] == calls;
  }

  /**
   * Any writes, then a consolidation: if they cover every position, the file is the latest data of
   * each position one after the other; otherwise a chunk is reported missing.
   */
  method WriteAllAndConsolidate(layout: Layout, calls: seq<WriteCall>)
    returns (writer: FileWriter, r: Option<ConsolidateError>)
    requires ValidLayout(layout)
    ensures fresh(writer)
    ensures var chunks, n := ChunksAfter(layout, calls), ChunkCount(layout);
            if HasChunks(chunks, n) then r == None && writer.file == Some(Flatten(Pieces(chunks, n)))
            else r == Some(ChunkMissing)
  {
    writer := WriteAll(layout, calls);
    r := writer.Consolidate();
    ghost var chunks, n := ChunksAfter(layout, calls), ChunkCount(layout);
    if HasChunks(chunks, n) {
      FirstMissingIs(chunks, n, n);
      AnyOrderAssembles(layout, calls);
    }
  }

  /** Call number k is the last accepted one for chunk p. */
  ghost predicate IsLatest(l: Layout, calls: seq<WriteCall>, p: nat, k: nat)
    requires l.chunkSize > 0
  {
    && k < |calls| && Accepted(l, calls[k], p)
    && forall i :: k < i < |calls| ==> !Accepted(l, calls[i], p)
  }

  ghost predicate Accepted(l: Layout, c: WriteCall, p: nat)
    requires l.chunkSize > 0
  {
    StoredBy(l, c).Some? && StoredBy(l, c).value.0 == p
  }

  /** A chunk file holds the data of the latest accepted write of its position, and there is no other. */
  lemma {:induction false} LatestWins(l: Layout, calls: seq<WriteCall>, p: nat)
    requires l.chunkSize > 0
    ensures p in ChunksAfter(l, calls) <==> exists k: nat :: IsLatest(l, calls, p, k)
    ensures forall k: nat :: IsLatest(l, calls, p, k) ==> ChunksAfter(l, calls)[p] == StoredBy(l, calls[k]).value.1
    decreases |calls|
  {
    if calls != [] {
      var n := |calls| - 1;
      var front := calls[..n];
      LatestWins(l, front, p);
      if Accepted(l, calls[n], p) {
        assert IsLatest(l, calls, p, n);
      } else {
        forall k: nat ensures IsLatest(l, calls, p, k) <==> IsLatest(l, front, p, k) {
          assert k < n ==> front[k] == calls[k];
        }
      }
    }
  }

  /** A file of size zero: any call at its beginning leaves one empty chunk file, and no other call anything. */
  lemma {:induction false} EmptyFile(chunkSize: nat, calls: seq<WriteCall>)
    requires chunkSize > 0
    ensures ChunksAfter(Layout(0, chunkSize), calls)
            == if exists c :: c in calls && c.offset == 0 then map[0 := []] else map[]
    ensures ChunkCount(Layout(0, chunkSize)) == 0
    decreases |calls|
  {
    NoChunks(chunkSize);
    if calls != [] {
      var n := |calls| - 1;
      EmptyFile(chunkSize, calls[..n]);
      assert forall c :: c in calls <==> c in calls[..n] || c == calls[n];
    }
  }

  lemma NoChunks(chunkSize: nat)
    requires chunkSize > 0
    ensures ChunkCount(Layout(0, chunkSize)) == 0
  {
  }

  lemma {:induction false} ChunksFit(l: Layout, calls: seq<WriteCall>, p: nat)
    requires ValidLayout(l) && p in ChunksAfter(l, calls)
    ensures Fits(l, p, |ChunksAfter(l, calls)[p]|)
    decreases |calls|
  {
    var n := |calls| - 1;
    var c := calls[n];
    if CheckWrite(l, |c.data|, c.offset).None? {
      AcceptedFits(l, |c.data|, c.offset);
    }
    if !Accepted(l, c, p) {
      ChunksFit(l, calls[..n], p);
    }
  }

  function Pieces(chunks: map<nat, Buffer>, n: nat): (r: seq<Buffer>)
    requires HasChunks(chunks, n)
    ensures |r| == n && forall p :: 0 <= p < n ==> r[p] == chunks[p]
  {
    seq(n, p requires 0 <= p < n => chunks[p])
  }

  lemma {:induction false} AssembledIsFlat(l: Layout, want: seq<Buffer>, chunks: map<nat, Buffer>, i: nat)
    requires l.chunkSize > 0 && Complete(l, want) && i <= |want|
    requires forall p :: 0 <= p < |want| ==> p in chunks && chunks[p] == want[p]
    ensures Assembled(l, chunks, i) == Flatten(want[..i])
  {
    if i > 0 {
      AssembledIsFlat(l, want, chunks, i - 1);
      ChunkAssembly.CopyAppends(l, want, i - 1);
    }
  }

  /**
   * Chunk assembly: after writes in any order that cover every position, consolidation yields the
   * latest data of each position one after the other, without holes, and the file has its declared
   * size exactly when the last chunk has its expected length.
   */
  lemma AnyOrderAssembles(l: Layout, calls: seq<WriteCall>)
    requires ValidLayout(l) && HasChunks(ChunksAfter(l, calls), ChunkCount(l))
    ensures var n := ChunkCount(l);
            var pieces := Pieces(ChunksAfter(l, calls), n);
            && Complete(l, pieces)
            && Assembled(l, ChunksAfter(l, calls), n) == Flatten(pieces)
            && n > 0
            && (|Flatten(pieces)| == l.fileSize <==> |pieces[n - 1]| == l.fileSize - (n - 1) * l.chunkSize)
  {
    var n, chunks := ChunkCount(l), ChunksAfter(l, calls);
    var pieces := Pieces(chunks, n);
    forall p | 0 <= p < n ensures Fits(l, p, |pieces[p]|) {
      ChunksFit(l, calls, p);
    }
    AssembledIsFlat(l, pieces, chunks, n);
    assert pieces[..n] == pieces;
    WholeLength(l, pieces);
  }
}
