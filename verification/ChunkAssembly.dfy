/**
 * What ends up in the file. Each chunk has one right content, which every accepted write of it
 * carries; several writers of one chunk may run at the same time, because nothing keeps them apart.
 */
module ChunkAssembly {
  import opened Bytes
  import opened Wrappers
  import opened ChunkLayout
  import opened ConcurrentWriter

  /** Writer t has yet to write byte i of chunk p. */
  ghost predicate WillWrite(s: State, t: Tid, p: nat, i: nat) {
    && t in s.writers && s.writers[t].pos == p
    && (s.writers[t].stage.Opened? || (s.writers[t].stage.Sized? && s.writers[t].stage.written <= i))
  }

  ghost predicate IsRight(s: State, want: seq<Buffer>, p: nat, i: nat)
    requires p in s.chunks && p < |want| && i < |want[p]|
  {
    i < |s.chunks[p]| && s.chunks[p][i] == want[p][i]
  }

  /** Byte i of chunk p is right, or somebody will still write it. */
  ghost predicate ByteSettled(s: State, want: seq<Buffer>, p: nat, i: nat)
    requires p in s.chunks && p < |want| && i < |want[p]|
  {
    IsRight(s, want, p, i) || exists t :: WillWrite(s, t, p, i)
  }

  ghost predicate ChunkSettled(s: State, want: seq<Buffer>, p: nat)
    requires p in s.chunks
  {
    && p < |want| && |s.chunks[p]| <= |want[p]|
    && forall i :: 0 <= i < |want[p]| ==> ByteSettled(s, want, p, i)
  }

  ghost predicate ChunksSettled(s: State, want: seq<Buffer>) {
    s.failed == map[] ==> forall p :: p in s.chunks ==> ChunkSettled(s, want, p)
  }

  ghost predicate WriterFits(s: State, want: seq<Buffer>, w: Writer) {
    && w.pos < |want| && w.data == want[w.pos]
    && (w.stage.Sized? ==> w.stage.written <= |w.data|)
    && (w.stage.Opened? || w.stage.Sized? || w.stage.Cleared? ==> w.pos in s.chunks)
  }

  ghost predicate WritersFit(s: State, want: seq<Buffer>) {
    forall t :: t in s.writers ==> WriterFits(s, want, s.writers[t])
  }

  /** The chunks that a consolidation has still to copy, or all of them if none is running. */
  ghost predicate StillToCopy(s: State, p: nat) {
    forall t :: t in s.merges && s.merges[t].Copying? ==> s.merges[t].next <= p
  }

  /** Before the first consolidation is over, every finished chunk is on disk until it is copied. */
  ghost predicate DoneKept(s: State) {
    s.merged == 0 && !Wedged(s) ==>
      forall t :: t in s.done && StillToCopy(s, s.done[t]) ==> s.done[t] in s.chunks
  }

  /** A running consolidation has copied the right content of the chunks it has passed. */
  ghost predicate MergeRight(s: State, want: seq<Buffer>) {
    forall t :: t in s.merges && s.merges[t].Copying? ==>
      s.merges[t].next <= |want| && s.file == Some(Flatten(want[..s.merges[t].next]))
  }

  /** After a consolidation the file is right, until the next one starts. */
  ghost predicate FileRight(s: State, want: seq<Buffer>) {
    s.merged > 0 && s.mode.WritingChunks? ==> s.file == Some(Flatten(want))
  }

  ghost predicate Ledger(s: State, want: seq<Buffer>) {
    && |want| == |s.flags|
    && WritersFit(s, want)
    && DoneKept(s)
    && MergeRight(s, want)
    && FileRight(s, want)
  }

  ghost predicate Assembling(s: State, want: seq<Buffer>) {
    Ledger(s, want) && ChunksSettled(s, want)
  }

  /** Accepted data is the right data, as the hash check ensures. */
  ghost predicate Brings(l: Layout, want: seq<Buffer>, e: Event)
    requires l.chunkSize > 0
  {
    e.Begin? ==> e.offset / l.chunkSize < |want| && e.data == want[e.offset / l.chunkSize]
  }

  // ----- a step of one writer -----

  /** Only writer t moved, and only chunk pos changed. */
  ghost predicate OnlyAt(s: State, s': State, t: Tid, pos: nat) {
    && s'.failed == s.failed
    && (forall u :: u != t && u in s.writers ==> u in s'.writers && s'.writers[u] == s.writers[u])
    && (t in s.writers ==> s.writers[t].pos == pos)
    && (forall p :: p in s'.chunks && p != pos ==> p in s.chunks && s'.chunks[p] == s.chunks[p])
  }

  lemma OtherChunkSettled(s: State, s': State, want: seq<Buffer>, t: Tid, pos: nat, p: nat)
    requires OnlyAt(s, s', t, pos) && p != pos && p in s'.chunks && ChunkSettled(s, want, p)
    ensures ChunkSettled(s', want, p)
  {
    forall i | 0 <= i < |want[p]| ensures ByteSettled(s', want, p, i) {
      assert ByteSettled(s, want, p, i);
      if !IsRight(s, want, p, i) {
        var u :| WillWrite(s, u, p, i);
        assert WillWrite(s', u, p, i);
      }
    }
  }

  lemma OthersSettled(s: State, s': State, want: seq<Buffer>, t: Tid, pos: nat)
    requires ChunksSettled(s, want) && OnlyAt(s, s', t, pos)
    requires pos in s'.chunks && s.failed == map[] ==> ChunkSettled(s', want, pos)
    ensures ChunksSettled(s', want)
  {
    if s'.failed == map[] {
      forall p | p in s'.chunks ensures ChunkSettled(s', want, p) {
        if p != pos {
          OtherChunkSettled(s, s', want, t, pos, p);
        }
      }
    }
  }

  /** A step that neither writes nor was going to write leaves the chunk settled. */
  lemma SameChunkSettled(s: State, s': State, want: seq<Buffer>, t: Tid, pos: nat)
    requires OnlyAt(s, s', t, pos) && pos in s.chunks && pos in s'.chunks && s'.chunks[pos] == s.chunks[pos]
    requires ChunkSettled(s, want, pos)
    requires forall i :: 0 <= i < |want[pos]| ==> !WillWrite(s, t, pos, i)
    ensures ChunkSettled(s', want, pos)
  {
    forall i | 0 <= i < |want[pos]| ensures ByteSettled(s', want, pos, i) {
      assert ByteSettled(s, want, pos, i);
      if !IsRight(s, want, pos, i) {
        var u :| WillWrite(s, u, pos, i);
        assert WillWrite(s', u, pos, i);
      }
    }
  }

  /** A writer that has everything before it settles the chunk by itself. */
  lemma FreshWriterSettles(s: State, want: seq<Buffer>, t: Tid, pos: nat)
    requires pos in s.chunks && pos < |want| && |s.chunks[pos]| <= |want[pos]|
    requires forall i :: 0 <= i < |want[pos]| ==> WillWrite(s, t, pos, i)
    ensures ChunkSettled(s, want, pos)
  {
    forall i | 0 <= i < |want[pos]| ensures ByteSettled(s, want, pos, i) {
      assert WillWrite(s, t, pos, i);
    }
  }

  /** Writing n bytes of the right data keeps the chunk settled, whoever else is writing it. */
  lemma OverlaySettles(s: State, s': State, want: seq<Buffer>, t: Tid, pos: nat, at: nat, n: nat)
    requires OnlyAt(s, s', t, pos) && pos in s.chunks && pos in s'.chunks && ChunkSettled(s, want, pos)
    requires t in s.writers && s.writers[t].stage == Sized(at) && at + n <= |want[pos]|
    requires t in s'.writers && s'.writers[t].pos == pos && s'.writers[t].stage == Sized(at + n)
    requires s'.chunks[pos] == Overlay(s.chunks[pos], at, want[pos][at..at + n])
    ensures ChunkSettled(s', want, pos)
  {
    forall i | 0 <= i < |want[pos]| ensures ByteSettled(s', want, pos, i) {
      assert ByteSettled(s, want, pos, i);
      if at <= i < at + n {
        assert IsRight(s', want, pos, i);
      } else if IsRight(s, want, pos, i) {
        assert IsRight(s', want, pos, i);
      } else {
        var u :| WillWrite(s, u, pos, i);
        assert WillWrite(s', u, pos, i);
      }
    }
  }

  // ----- chunks stay settled -----

  lemma BeginSettles(l: Layout, s: State, want: seq<Buffer>, e: Event)
    requires l.chunkSize > 0 && ChunksSettled(s, want) && Enabled(l, s, e) && e.Begin?
    ensures ChunksSettled(Apply(l, s, e), want)
  {
    var s' := Apply(l, s, e);
    forall p | p in s'.chunks && s'.failed == map[] ensures ChunkSettled(s', want, p) {
      StaysSettled(s, s', want, p);
    }
  }

  lemma StaysSettled(s: State, s': State, want: seq<Buffer>, p: nat)
    requires p in s.chunks && ChunkSettled(s, want, p)
    requires forall u :: u in s.writers ==> u in s'.writers && s'.writers[u] == s.writers[u]
    requires p in s'.chunks && s'.chunks[p] == s.chunks[p]
    ensures ChunkSettled(s', want, p)
  {
    forall i | 0 <= i < |want[p]| ensures ByteSettled(s', want, p, i) {
      assert ByteSettled(s, want, p, i);
      if !IsRight(s, want, p, i) {
        var u :| WillWrite(s, u, p, i);
        assert WillWrite(s', u, p, i);
      }
    }
  }

  lemma QuietSettles(l: Layout, s: State, want: seq<Buffer>, e: Event)
    requires l.chunkSize > 0 && WritersFit(s, want) && ChunksSettled(s, want) && Enabled(l, s, e)
    requires e.Raise? || e.Lower? || e.End?
    ensures ChunksSettled(Apply(l, s, e), want)
  {
    var s' := Apply(l, s, e);
    var pos := s.writers[e.t].pos;
    assert WriterFits(s, want, s.writers[e.t]);
    assert OnlyAt(s, s', e.t, pos);
    if pos in s.chunks && s.failed == map[] {
      assert ChunkSettled(s, want, pos);
      SameChunkSettled(s, s', want, e.t, pos);
    }
    OthersSettled(s, s', want, e.t, pos);
  }

  lemma OpenSettles(l: Layout, s: State, want: seq<Buffer>, e: Event)
    requires l.chunkSize > 0 && WritersFit(s, want) && ChunksSettled(s, want) && Enabled(l, s, e)
    requires e.Open? || e.Resize?
    ensures ChunksSettled(Apply(l, s, e), want)
  {
    var s' := Apply(l, s, e);
    var pos := s.writers[e.t].pos;
    assert WriterFits(s, want, s.writers[e.t]);
    assert OnlyAt(s, s', e.t, pos);
    FreshWriterSettles(s', want, e.t, pos);
    OthersSettled(s, s', want, e.t, pos);
  }

  lemma WriteSettles(l: Layout, s: State, want: seq<Buffer>, e: Event)
    requires l.chunkSize > 0 && WritersFit(s, want) && ChunksSettled(s, want) && Enabled(l, s, e) && e.Write?
    ensures ChunksSettled(Apply(l, s, e), want)
  {
    var s' := Apply(l, s, e);
    var w := s.writers[e.t];
    assert WriterFits(s, want, w);
    assert OnlyAt(s, s', e.t, w.pos);
    if s.failed == map[] {
      assert ChunkSettled(s, want, w.pos);
      OverlaySettles(s, s', want, e.t, w.pos, w.stage.written, e.n);
    }
    OthersSettled(s, s', want, e.t, w.pos);
  }

  /** A failed write may leave its chunk wrong, but then there is no consolidation any more. */
  lemma FailureSettles(l: Layout, s: State, want: seq<Buffer>, e: Event)
    requires l.chunkSize > 0 && Enabled(l, s, e) && (e.OpenFails? || e.WriteFails?)
    ensures ChunksSettled(Apply(l, s, e), want)
  {
    assert e.t in Apply(l, s, e).failed;
  }

  /** A consolidation touches no writer and only ever removes chunks. */
  lemma MergeSettles(l: Layout, s: State, want: seq<Buffer>, e: Event)
    requires l.chunkSize > 0 && ChunksSettled(s, want) && Enabled(l, s, e)
    requires IsMergeEvent(e)
    ensures ChunksSettled(Apply(l, s, e), want)
  {
    var s' := Apply(l, s, e);
    forall p | p in s'.chunks && s'.failed == map[] ensures ChunkSettled(s', want, p) {
      StaysSettled(s, s', want, p);
    }
  }

  lemma StepSettles(l: Layout, s: State, want: seq<Buffer>, e: Event)
    requires l.chunkSize > 0 && WritersFit(s, want) && ChunksSettled(s, want) && Enabled(l, s, e)
    ensures ChunksSettled(Apply(l, s, e), want)
  {
    hide ChunksSettled, WritersFit, Apply, Enabled;
    match e
    case Begin(_, _, _) => BeginSettles(l, s, want, e);
    case Raise(_) => QuietSettles(l, s, want, e);
    case Lower(_) => QuietSettles(l, s, want, e);
    case End(_) => QuietSettles(l, s, want, e);
    case Open(_) => OpenSettles(l, s, want, e);
    case Resize(_) => OpenSettles(l, s, want, e);
    case Write(_, _) => WriteSettles(l, s, want, e);
    case OpenFails(_) => FailureSettles(l, s, want, e);
    case WriteFails(_) => FailureSettles(l, s, want, e);
    case Enter(_) => MergeSettles(l, s, want, e);
    case Check(_) => MergeSettles(l, s, want, e);
    case Copy(_) => MergeSettles(l, s, want, e);
    case CopyFails(_, _) => MergeSettles(l, s, want, e);
    case MergeFails(_) => MergeSettles(l, s, want, e);
    case Leave(_) => MergeSettles(l, s, want, e);
  }

  /** With no writer left, every chunk on disk has its right content. */
  lemma IdleChunksRight(s: State, want: seq<Buffer>, p: nat)
    requires ChunksSettled(s, want) && s.writers == map[] && s.failed == map[] && p in s.chunks
    ensures p < |want| && s.chunks[p] == want[p]
  {
    assert ChunkSettled(s, want, p);
    forall i | 0 <= i < |want[p]| ensures IsRight(s, want, p, i) {
      assert ByteSettled(s, want, p, i);
    }
    assert |want[p]| > 0 ==> IsRight(s, want, p, |want[p]| - 1);
    assert |s.chunks[p]| == |want[p]|;
    forall i | 0 <= i < |want[p]| ensures s.chunks[p][i] == want[p][i] {
      assert IsRight(s, want, p, i);
    }
  }

  // ----- the ledger stays right -----

  /** Nothing that the consolidations look at has changed. */
  ghost predicate SameMerges(s: State, s': State) {
    && s'.merges == s.merges && s'.merged == s.merged && s'.file == s.file
    && |s'.flags| == |s.flags|
    && (s'.mode.WritingChunks? <==> s.mode.WritingChunks?)
    && (Wedged(s) ==> Wedged(s'))
  }

  /** What writers do keeps the ledger: they add chunks, and finish only chunks that are there. */
  lemma LedgerFrame(s: State, s': State, want: seq<Buffer>)
    requires Ledger(s, want) && SameMerges(s, s') && WritersFit(s', want)
    requires s.chunks.Keys <= s'.chunks.Keys
    requires forall t :: t in s'.done ==> (t in s.done && s'.done[t] == s.done[t]) || s'.done[t] in s'.chunks
    ensures Ledger(s', want)
  {
    hide WritersFit;
    forall t | t in s'.done && StillToCopy(s', s'.done[t]) && s'.merged == 0 && !Wedged(s')
      ensures s'.done[t] in s'.chunks
    {
      if t in s.done && s'.done[t] == s.done[t] {
        assert StillToCopy(s, s.done[t]);
      }
    }
  }

  lemma WritersFitFrame(s: State, s': State, want: seq<Buffer>, t: Tid)
    requires WritersFit(s, want) && s.chunks.Keys <= s'.chunks.Keys
    requires forall u :: u in s'.writers && u != t ==> u in s.writers && s'.writers[u] == s.writers[u]
    requires t in s'.writers ==> WriterFits(s', want, s'.writers[t])
    ensures WritersFit(s', want)
  {
    forall u | u in s'.writers ensures WriterFits(s', want, s'.writers[u]) {
      assert u != t ==> WriterFits(s, want, s.writers[u]);
    }
  }

  lemma BeginLedger(l: Layout, s: State, want: seq<Buffer>, e: Event)
    requires l.chunkSize > 0 && CounterExact(s) && Ledger(s, want) && Enabled(l, s, e) && Brings(l, want, e) && e.Begin?
    ensures Ledger(Apply(l, s, e), want)
  {
    hide CheckWrite, DoneKept, MergeRight, FileRight;
    var s' := Apply(l, s, e);
    WritersFitFrame(s, s', want, e.t);
    LedgerFrame(s, s', want);
  }

  lemma FlagLedger(l: Layout, s: State, want: seq<Buffer>, e: Event)
    requires l.chunkSize > 0 && Ledger(s, want) && Enabled(l, s, e) && (e.Raise? || e.Lower?)
    ensures Ledger(Apply(l, s, e), want)
  {
    hide DoneKept, MergeRight, FileRight;
    var s' := Apply(l, s, e);
    assert WriterFits(s, want, s.writers[e.t]);
    WritersFitFrame(s, s', want, e.t);
    LedgerFrame(s, s', want);
  }

  lemma DiskLedger(l: Layout, s: State, want: seq<Buffer>, e: Event)
    requires l.chunkSize > 0 && Ledger(s, want) && Enabled(l, s, e) && (e.Open? || e.Resize? || e.Write?)
    ensures Ledger(Apply(l, s, e), want)
  {
    hide Resized, Overlay, DoneKept, MergeRight, FileRight;
    var s' := Apply(l, s, e);
    assert WriterFits(s, want, s.writers[e.t]);
    WritersFitFrame(s, s', want, e.t);
    LedgerFrame(s, s', want);
  }

  lemma EndLedger(l: Layout, s: State, want: seq<Buffer>, e: Event)
    requires l.chunkSize > 0 && CounterExact(s) && Ledger(s, want) && Enabled(l, s, e) && e.End?
    ensures Ledger(Apply(l, s, e), want)
  {
    hide DoneKept, MergeRight, FileRight;
    var s' := Apply(l, s, e);
    RemoveSize(s.writers, e.t);
    assert WriterFits(s, want, s.writers[e.t]);
    WritersFitFrame(s, s', want, e.t);
    LedgerFrame(s, s', want);
  }

  lemma FailureLedger(l: Layout, s: State, want: seq<Buffer>, e: Event)
    requires l.chunkSize > 0 && CounterExact(s) && Ledger(s, want) && Enabled(l, s, e)
    requires e.OpenFails? || e.WriteFails?
    ensures Ledger(Apply(l, s, e), want)
  {
    hide DoneKept, MergeRight, FileRight, WriterFits, Wedged;
    var s' := Apply(l, s, e);
    FailedIsWedged(s', e.t);
    WritersFitFrame(s, s', want, e.t);
    LedgerFrame(s, s', want);
  }

  lemma FailedIsWedged(s: State, t: Tid)
    requires t in s.failed
    ensures Wedged(s)
  {
  }

  lemma CopyAppends(l: Layout, want: seq<Buffer>, i: nat)
    requires l.chunkSize > 0 && Complete(l, want) && i < |want|
    ensures Overlay(Flatten(want[..i]), i * l.chunkSize, want[i]) == Flatten(want[..i + 1])
  {
    FrontLength(l, want, i);
    assert want[..i + 1] == want[..i] + [want[i]];
    FlattenSnoc(want[..i], want[i]);
    var whole := Overlay(Flatten(want[..i]), i * l.chunkSize, want[i]);
    assert whole == Flatten(want[..i]) + want[i];
  }

  lemma OnlyMerge(m: map<Tid, Merge>, t: Tid)
    requires t in m && |m| <= 1
    ensures m.Keys == {t}
  {
    assert |m.Keys - {t}| == 0;
  }

  /** Copying chunk i: the file grows by its content and only that chunk goes away. */
  lemma CopyStep(s: State, s': State, want: seq<Buffer>, t: Tid, i: nat)
    requires Ledger(s, want) && s.mode == Consolidating && s.writers == map[]
    requires s.merges.Keys == {t} && s.merges[t] == Copying(i) && i < |want|
    requires s' == s.(merges := s.merges[t := Copying(i + 1)], chunks := s.chunks - {i},
                      file := Some(Flatten(want[..i + 1])))
    ensures Ledger(s', want)
  {
    forall u | u in s'.done && StillToCopy(s', s'.done[u]) && s'.merged == 0 && !Wedged(s')
      ensures s'.done[u] in s'.chunks
    {
      assert s'.merges[t] == Copying(i + 1);
      assert StillToCopy(s, s.done[u]);
    }
  }

  lemma CopyLedger(l: Layout, s: State, want: seq<Buffer>, e: Event)
    requires l.chunkSize > 0 && Complete(l, want) && CounterExact(s) && Assembling(s, want)
    requires Enabled(l, s, e) && e.Copy?
    ensures Ledger(Apply(l, s, e), want)
  {
    hide ChunksSettled, Fits, Overlay, Complete, DoneKept, FileRight, WritersFit, MergeRight;
    var i := s.merges[e.t].next;
    OnlyMerge(s.merges, e.t);
    CopiedSoFar(s, want, e.t, i);
    IdleChunksRight(s, want, i);
    CopyAppends(l, want, i);
    CopyStep(s, Apply(l, s, e), want, e.t, i);
  }

  lemma CopiedSoFar(s: State, want: seq<Buffer>, t: Tid, i: nat)
    requires MergeRight(s, want) && t in s.merges && s.merges[t] == Copying(i)
    ensures i <= |want| && s.file == Some(Flatten(want[..i]))
  {
  }

  lemma EnterLedger(l: Layout, s: State, want: seq<Buffer>, e: Event)
    requires l.chunkSize > 0 && CounterExact(s) && Ledger(s, want) && Enabled(l, s, e) && e.Enter?
    ensures Ledger(Apply(l, s, e), want)
  {
    var s' := Apply(l, s, e);
    assert |s.failed| == 0;
    forall t | t in s'.done && s'.merged == 0 ensures s'.done[t] in s'.chunks {
      assert StillToCopy(s, s.done[t]);
    }
  }

  lemma CheckLedger(l: Layout, s: State, want: seq<Buffer>, e: Event)
    requires l.chunkSize > 0 && CounterExact(s) && Ledger(s, want) && Enabled(l, s, e) && e.Check?
    ensures Ledger(Apply(l, s, e), want)
  {
    var s' := Apply(l, s, e);
    assert want[..0] == [];
    OnlyMerge(s.merges, e.t);
    forall t | t in s'.done && s'.merged == 0 && !Wedged(s') ensures s'.done[t] in s'.chunks {
      assert StillToCopy(s, s.done[t]);
    }
  }

  lemma MergeEndLedger(l: Layout, s: State, want: seq<Buffer>, e: Event)
    requires l.chunkSize > 0 && CounterExact(s) && Ledger(s, want) && Enabled(l, s, e)
    requires e.CopyFails? || e.MergeFails? || (e.Leave? && !s.merges[e.t].Skipped?)
    ensures Ledger(Apply(l, s, e), want)
  {
    hide DoneKept;
    var s' := Apply(l, s, e);
    RemoveSize(s.merges, e.t);
    if e.Leave? {
      assert want[..|want|] == want;
    }
    NothingKept(s');
  }

  lemma NothingKept(s: State)
    requires s.merged > 0 || Wedged(s)
    ensures DoneKept(s)
  {
  }

  lemma NotSkipped(l: Layout, s: State, e: Event)
    requires l.chunkSize > 0 && Exclusive(l, s) && Enabled(l, s, e)
    ensures CounterExact(s)
    ensures e.Leave? ==> e.t in s.merges && !s.merges[e.t].Skipped?
  {
  }

  lemma StepLedger(l: Layout, s: State, want: seq<Buffer>, e: Event)
    requires l.chunkSize > 0 && Complete(l, want) && Exclusive(l, s) && Assembling(s, want)
    requires Enabled(l, s, e) && Brings(l, want, e)
    ensures Ledger(Apply(l, s, e), want)
  {
    NotSkipped(l, s, e);
    hide Exclusive, Ledger, ChunksSettled, Apply, Enabled, Brings, Complete, CounterExact;
    match e
    case Begin(_, _, _) => BeginLedger(l, s, want, e);
    case Raise(_) => FlagLedger(l, s, want, e);
    case Lower(_) => FlagLedger(l, s, want, e);
    case Open(_) => DiskLedger(l, s, want, e);
    case Resize(_) => DiskLedger(l, s, want, e);
    case Write(_, _) => DiskLedger(l, s, want, e);
    case OpenFails(_) => FailureLedger(l, s, want, e);
    case WriteFails(_) => FailureLedger(l, s, want, e);
    case End(_) => EndLedger(l, s, want, e);
    case Copy(_) => CopyLedger(l, s, want, e);
    case Enter(_) => EnterLedger(l, s, want, e);
    case Check(_) => CheckLedger(l, s, want, e);
    case CopyFails(_, _) => MergeEndLedger(l, s, want, e);
    case MergeFails(_) => MergeEndLedger(l, s, want, e);
    case Leave(_) => MergeEndLedger(l, s, want, e);
  }

  /** Every event that brings only right data keeps every chunk on its way to the right content. */
  lemma StepAssembles(l: Layout, s: State, want: seq<Buffer>, e: Event)
    requires l.chunkSize > 0 && Complete(l, want) && Exclusive(l, s) && Assembling(s, want)
    requires Enabled(l, s, e) && Brings(l, want, e)
    ensures Assembling(Apply(l, s, e), want)
  {
    hide Exclusive, ChunksSettled, Apply, Enabled, Brings, Complete, WritersFit, DoneKept, MergeRight, FileRight;
    StepLedger(l, s, want, e);
    StepSettles(l, s, want, e);
  }

  lemma InitAssembles(l: Layout, want: seq<Buffer>)
    requires l.chunkSize > 0 && Complete(l, want)
    ensures Assembling(Init(l), want)
  {
  }

  lemma NextAssembles(l: Layout, s: State, want: seq<Buffer>, e: Event)
    requires l.chunkSize > 0 && Complete(l, want) && Exclusive(l, s) && Assembling(s, want)
    requires Brings(l, want, e) && Next(l, s, e).Some?
    ensures Exclusive(l, Next(l, s, e).value) && Assembling(Next(l, s, e).value, want)
  {
    hide Exclusive, Assembling, Apply, Enabled, Brings, Complete;
    StepExclusive(l, s, e);
    StepAssembles(l, s, want, e);
  }

  /** Both invariants hold in every state of every interleaving. */
  lemma {:induction false} AlwaysAssembles(l: Layout, want: seq<Buffer>, es: seq<Event>)
    requires l.chunkSize > 0 && Complete(l, want) && RunFrom(l, Init(l), es).Some?
    requires forall i :: 0 <= i < |es| ==> Brings(l, want, es[i])
    ensures Exclusive(l, RunFrom(l, Init(l), es).value) && Assembling(RunFrom(l, Init(l), es).value, want)
    decreases |es|
  {
    hide Exclusive, Assembling, Next, Brings, Complete, Init;
    if es == [] {
      InitExclusive(l);
      InitAssembles(l, want);
    } else {
      var n := |es| - 1;
      AlwaysAssembles(l, want, es[..n]);
      NextAssembles(l, RunFrom(l, Init(l), es[..n]).value, want, es[n]);
    }
  }

  /**
   * Under every interleaving, also when several writers share a chunk: once a consolidation has
   * returned Ok, and until another one starts, the file is the concatenation of the right chunks.
   */
  lemma ConsolidatedFileIsRight(l: Layout, want: seq<Buffer>, es: seq<Event>)
    requires l.chunkSize > 0 && Complete(l, want) && RunFrom(l, Init(l), es).Some?
    requires forall i :: 0 <= i < |es| ==> Brings(l, want, es[i])
    requires RunFrom(l, Init(l), es).value.merged > 0 && RunFrom(l, Init(l), es).value.mode.WritingChunks?
    ensures RunFrom(l, Init(l), es).value.file == Some(Flatten(want))
  {
    hide Exclusive, Next, Brings, Complete, Init, RunFrom;
    AlwaysAssembles(l, want, es);
  }
}
