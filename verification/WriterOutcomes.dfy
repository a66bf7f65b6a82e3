/**
 * What can still happen to a chunk writer: from which states a consolidation can start, which one
 * can return, what a second one does to a finished file, and what two writers of one chunk can do.
 */
module WriterOutcomes {
  import opened Bytes
  import opened Wrappers
  import opened ChunkLayout
  import opened ConcurrentWriter
  import opened ChunkAssembly

  // ----- putting runs together -----

  lemma {:induction false} RunConcat(l: Layout, s: State, es: seq<Event>, fs: seq<Event>)
    requires l.chunkSize > 0 && RunFrom(l, s, es).Some?
    ensures RunFrom(l, s, es + fs) == RunFrom(l, RunFrom(l, s, es).value, fs)
    decreases |fs|
  {
    hide Next;
    if fs == [] {
      assert es + fs == es;
    } else {
      var n := |fs| - 1;
      assert (es + fs)[..|es + fs| - 1] == es + fs[..n];
      RunConcat(l, s, es, fs[..n]);
    }
  }

  lemma RunOne(l: Layout, s: State, e: Event)
    requires l.chunkSize > 0
    ensures RunFrom(l, s, [e]) == Next(l, s, e)
  {
    hide Next;
    assert [e][..0] == [];
  }

  lemma RunCons(l: Layout, s: State, e: Event, es: seq<Event>)
    requires l.chunkSize > 0 && Enabled(l, s, e)
    ensures RunFrom(l, s, [e] + es) == RunFrom(l, Apply(l, s, e), es)
  {
    hide Enabled, Apply;
    RunOne(l, s, e);
    RunConcat(l, s, [e], es);
  }

  // ----- a writer can always finish -----

  /** What a writer has still to do, as a number that every step of it lowers. */
  function Remaining(w: Writer): nat {
    match w.stage
    case Started => 5
    case Flagged => 4
    case Opened => 3
    case Sized(n) => if n < |w.data| then 2 else 1
    case Cleared => 0
  }

  /** The next step of a writer that does not fail and writes all of its data at once. */
  function NextStep(t: Tid, w: Writer): Event {
    match w.stage
    case Started => Raise(t)
    case Flagged => Open(t)
    case Opened => Resize(t)
    case Sized(n) => if n < |w.data| then Write(t, |w.data| - n) else Lower(t)
    case Cleared => End(t)
  }

  /** Only writer t has moved, and no chunk file has gone away. */
  ghost predicate OnlyMoved(s: State, s': State, t: Tid) {
    && s'.writers.Keys == s.writers.Keys && t in s.writers
    && (forall u :: u in s.writers && u != t ==> s'.writers[u] == s.writers[u])
    && s'.writers[t].pos == s.writers[t].pos && s'.writers[t].data == s.writers[t].data
    && s'.mode == s.mode && s'.failed == s.failed && s'.done == s.done && s'.merges == s.merges
    && s'.merged == s.merged && s'.file == s.file
    && s'.chunks.Keys == s.chunks.Keys + (if s.writers[t].stage.Flagged? then {s.writers[t].pos} else {})
  }

  lemma FlagMoves(l: Layout, s: State, t: Tid)
    requires l.chunkSize > 0 && WellFormed(s) && t in s.writers && InChunks(s, t)
    requires var e := NextStep(t, s.writers[t]); e.Raise? || e.Lower?
    ensures var e := NextStep(t, s.writers[t]);
            && Enabled(l, s, e)
            && OnlyMoved(s, Apply(l, s, e), t) && InChunks(Apply(l, s, e), t)
            && Remaining(Apply(l, s, e).writers[t]) < Remaining(s.writers[t])
  {
  }

  lemma OpenMoves(l: Layout, s: State, t: Tid)
    requires l.chunkSize > 0 && WellFormed(s) && t in s.writers && InChunks(s, t) && s.writers[t].stage.Flagged?
    ensures Enabled(l, s, Open(t))
    ensures OnlyMoved(s, Apply(l, s, Open(t)), t) && InChunks(Apply(l, s, Open(t)), t)
    ensures Remaining(Apply(l, s, Open(t)).writers[t]) < Remaining(s.writers[t])
  {
  }

  lemma DiskMoves(l: Layout, s: State, t: Tid)
    requires l.chunkSize > 0 && WellFormed(s) && t in s.writers && InChunks(s, t)
    requires var e := NextStep(t, s.writers[t]); e.Resize? || e.Write?
    ensures var e := NextStep(t, s.writers[t]);
            && Enabled(l, s, e)
            && OnlyMoved(s, Apply(l, s, e), t) && InChunks(Apply(l, s, e), t)
            && Remaining(Apply(l, s, e).writers[t]) < Remaining(s.writers[t])
  {
    hide Overlay, Resized;
  }

  lemma WriterMoves(l: Layout, s: State, t: Tid)
    requires l.chunkSize > 0 && Exclusive(l, s) && t in s.writers && !s.writers[t].stage.Cleared?
    requires InChunks(s, t)
    ensures var e := NextStep(t, s.writers[t]);
            && Enabled(l, s, e)
            && OnlyMoved(s, Apply(l, s, e), t) && InChunks(Apply(l, s, e), t)
            && Remaining(Apply(l, s, e).writers[t]) < Remaining(s.writers[t])
  {
    hide FlagsJustified, CounterExact, Apply, Enabled, OnlyMoved, InChunks, Remaining, WellFormed;
    if NextStep(t, s.writers[t]).Raise? || NextStep(t, s.writers[t]).Lower? {
      FlagMoves(l, s, t);
    } else if s.writers[t].stage.Flagged? {
      OpenMoves(l, s, t);
    } else {
      DiskMoves(l, s, t);
    }
  }

  /** A chunk file is there once its writer has opened it. */
  ghost predicate InChunks(s: State, t: Tid) {
    t in s.writers && (s.writers[t].stage.Opened? || s.writers[t].stage.Sized? || s.writers[t].stage.Cleared?) ==>
      s.writers[t].pos in s.chunks
  }

  ghost predicate AllInChunks(s: State) {
    forall t :: InChunks(s, t)
  }

  /** Writer t has been counted out and its chunk is on disk; nothing else has changed. */
  ghost predicate IsFinished(s: State, s': State, t: Tid) {
    && t in s.writers
    && s'.writers == s.writers - {t} && s'.done == s.done[t := s.writers[t].pos]
    && s'.failed == s.failed && s'.merges == s.merges && s'.merged == s.merged && s'.file == s.file
    && s'.mode.WritingChunks? && s'.chunks.Keys == s.chunks.Keys + {s.writers[t].pos}
  }

  lemma {:induction false} FinishWriter(l: Layout, s: State, t: Tid) returns (es: seq<Event>, s': State)
    requires l.chunkSize > 0 && Exclusive(l, s) && t in s.writers && InChunks(s, t)
    ensures RunFrom(l, s, es) == Some(s') && Exclusive(l, s') && IsFinished(s, s', t)
    ensures forall e :: e in es ==> IsWriterStep(e)
    decreases Remaining(s.writers[t])
  {
    hide Enabled, Apply, Exclusive, RunFrom, OnlyMoved, IsFinished;
    if s.writers[t].stage.Cleared? {
      es := [End(t)];
      s' := EndFinishes(l, s, t);
      RunOne(l, s, End(t));
    } else {
      var e := NextStep(t, s.writers[t]);
      WriterMoves(l, s, t);
      StepExclusive(l, s, e);
      var s1 := Apply(l, s, e);
      MovedThere(s, s1, t);
      var more;
      more, s' := FinishWriter(l, s1, t);
      es := [e] + more;
      RunCons(l, s, e, more);
      MovedFinishes(s, s1, s', t);
    }
  }

  /** What a writer does after it was counted in, when it does not fail. */
  predicate IsWriterStep(e: Event) {
    e.Raise? || e.Open? || e.Resize? || e.Write? || e.Lower? || e.End?
  }

  lemma MovedThere(s: State, s': State, t: Tid)
    requires OnlyMoved(s, s', t)
    ensures t in s'.writers
  {
  }

  lemma EndFinishes(l: Layout, s: State, t: Tid) returns (s': State)
    requires l.chunkSize > 0 && Exclusive(l, s) && t in s.writers && s.writers[t].stage.Cleared? && InChunks(s, t)
    ensures Next(l, s, End(t)) == Some(s') && Exclusive(l, s') && IsFinished(s, s', t)
  {
    s' := Apply(l, s, End(t));
    EndExclusive(l, s, End(t));
    assert s.chunks.Keys == s.chunks.Keys + {s.writers[t].pos};
    hide Exclusive;
  }

  lemma MovedFinishes(s: State, s1: State, s': State, t: Tid)
    requires OnlyMoved(s, s1, t) && IsFinished(s1, s', t)
    ensures IsFinished(s, s', t)
  {
    assert s1.writers - {t} == s.writers - {t};
  }

  /** The schedule that finishes all the writers in flight. */
  lemma {:induction false} FinishAll(l: Layout, s: State) returns (es: seq<Event>, s': State)
    requires l.chunkSize > 0 && Exclusive(l, s) && AllInChunks(s)
    ensures RunFrom(l, s, es) == Some(s') && Exclusive(l, s')
    ensures s'.writers == map[] && s'.failed == s.failed && s'.merges == s.merges
    ensures s.mode.WritingChunks? ==> s'.mode.WritingChunks?
    decreases |s.writers|
  {
    hide Exclusive, RunFrom;
    if s.writers == map[] {
      es, s' := [], s;
      RunNothing(l, s);
    } else {
      var t :| t in s.writers;
      assert InChunks(s, t);
      var first, s1 := FinishWriter(l, s, t);
      RemoveSize(s.writers, t);
      forall u ensures InChunks(s1, u) {
        assert InChunks(s, u);
      }
      var more;
      more, s' := FinishAll(l, s1);
      es := first + more;
      RunConcat(l, s, first, more);
    }
  }

  lemma RunNothing(l: Layout, s: State)
    requires l.chunkSize > 0
    ensures RunFrom(l, s, []) == Some(s)
  {
  }

  // ----- a consolidation can finish if its chunks are on disk -----

  /** The first chunk that a running consolidation has still to copy. */
  function FirstToCopy(m: Merge): nat {
    if m.Copying? then m.next else 0
  }

  /** Every chunk that a running consolidation has still to copy is on disk. */
  ghost predicate RestOnDisk(s: State) {
    forall t, p :: t in s.merges && FirstToCopy(s.merges[t]) <= p < |s.flags| ==> p in s.chunks
  }

  /** Only chunk files and the file have changed, and consolidation t is over. */
  ghost predicate IsMerged(s: State, s': State, t: Tid) {
    && s'.merges == s.merges - {t} && s'.mode == WritingChunks(0) && s'.merged == s.merged + 1
    && s'.writers == s.writers && s'.failed == s.failed && s'.done == s.done
  }

  lemma {:induction false} FinishMerge(l: Layout, s: State, t: Tid) returns (es: seq<Event>, s': State)
    requires l.chunkSize > 0 && Exclusive(l, s) && t in s.merges && RestOnDisk(s)
    ensures RunFrom(l, s, es) == Some(s') && Exclusive(l, s') && IsMerged(s, s', t)
    ensures es != [] && es[|es| - 1] == Leave(t)
    ensures forall e :: e in es ==> e.Check? || e.Copy? || e.Leave?
    decreases if s.merges[t].Copying? then |s.flags| - s.merges[t].next else |s.flags| + 1
  {
    hide RunFrom, Exclusive, Apply, Enabled, RestOnDisk, IsMerged;
    MergeInRange(l, s, t);
    if s.merges[t] == Copying(|s.flags|) {
      es := [Leave(t)];
      s' := LeaveMerges(l, s, t);
      RunOne(l, s, Leave(t));
    } else {
      var e := if s.merges[t].Copying? then Copy(t) else Check(t);
      var s1 := MergeMoves(l, s, t, e);
      var more;
      more, s' := FinishMerge(l, s1, t);
      es := [e] + more;
      RunCons(l, s, e, more);
      MergedBefore(s, s1, s', t);
    }
  }

  lemma MergeInRange(l: Layout, s: State, t: Tid)
    requires l.chunkSize > 0 && Exclusive(l, s) && t in s.merges
    ensures s.merges[t].Copying? ==> s.merges[t].next <= |s.flags|
  {
  }

  lemma LeaveMerges(l: Layout, s: State, t: Tid) returns (s': State)
    requires l.chunkSize > 0 && Exclusive(l, s) && t in s.merges && s.merges[t] == Copying(|s.flags|)
    ensures Next(l, s, Leave(t)) == Some(s') && Exclusive(l, s') && IsMerged(s, s', t)
  {
    s' := Apply(l, s, Leave(t));
    MergeEndExclusive(l, s, Leave(t));
  }

  ghost predicate MergeMoved(s: State, s': State, t: Tid) {
    && s'.merges.Keys == s.merges.Keys == {t}
    && s'.mode == s.mode && s'.merged == s.merged && s'.flags == s.flags
    && s'.writers == s.writers && s'.failed == s.failed && s'.done == s.done
  }

  /** The next step of a consolidation whose chunks are all there. */
  lemma MergeMoves(l: Layout, s: State, t: Tid, e: Event) returns (s': State)
    requires l.chunkSize > 0 && Exclusive(l, s) && t in s.merges && RestOnDisk(s)
    requires s.merges[t] != Copying(|s.flags|)
    requires e == if s.merges[t].Copying? then Copy(t) else Check(t)
    ensures Enabled(l, s, e) && s' == Apply(l, s, e) && Exclusive(l, s') && MergeMoved(s, s', t) && RestOnDisk(s')
    ensures s'.merges[t] == if s.merges[t].Copying? then Copying(s.merges[t].next + 1) else Copying(0)
  {
    hide Apply, RestOnDisk;
    MergeCanMove(l, s, t, e);
    MergeExclusive(l, s, e);
    s' := Apply(l, s, e);
    hide Exclusive;
    MergeEffect(l, s, e);
    MergeStaysOn(l, s, e);
    RestStays(s, s', t);
  }

  lemma MergeCanMove(l: Layout, s: State, t: Tid, e: Event)
    requires l.chunkSize > 0 && Exclusive(l, s) && t in s.merges && RestOnDisk(s)
    requires s.merges[t] != Copying(|s.flags|)
    requires e == if s.merges[t].Copying? then Copy(t) else Check(t)
    ensures Enabled(l, s, e) && s.merges.Keys == {t} && true !in s.flags
  {
    OnlyMerge(s.merges, t);
    NoFlagsWhenIdle(s);
  }

  lemma MergeStaysOn(l: Layout, s: State, e: Event)
    requires l.chunkSize > 0 && Enabled(l, s, e) && (e.Check? || e.Copy?) && true !in s.flags
    ensures var s' := Apply(l, s, e);
            && s'.mode == s.mode && s'.merged == s.merged && s'.failed == s.failed && s'.done == s.done
            && s'.merges[e.t].Copying?
  {
    hide Overlay;
  }

  lemma RestStays(s: State, s': State, t: Tid)
    requires RestOnDisk(s) && s.merges.Keys == s'.merges.Keys == {t} && s'.flags == s.flags
    requires var i, k := FirstToCopy(s.merges[t]), FirstToCopy(s'.merges[t]);
             (k == i && s'.chunks == s.chunks) || (k == i + 1 && s'.chunks == s.chunks - {i})
    ensures RestOnDisk(s')
  {
  }

  lemma MergedBefore(s: State, s1: State, s': State, t: Tid)
    requires MergeMoved(s, s1, t) && IsMerged(s1, s', t)
    ensures IsMerged(s, s', t)
  {
    assert s1.merges - {t} == map[] && s.merges - {t} == map[];
  }

  // ----- or else it is stuck -----

  /** A consolidation is running or has failed, and there is a chunk it still needs that is missing. */
  ghost predicate Stuck(l: Layout, s: State)
    requires l.chunkSize > 0
  {
    Exclusive(l, s) && s.mode == Consolidating && (s.merges == map[] || exists p :: IsMissing(s, p))
  }

  ghost predicate IsMissing(s: State, p: nat) {
    p < |s.flags| && p !in s.chunks && forall t :: t in s.merges ==> FirstToCopy(s.merges[t]) <= p
  }

  /** A consolidation gives up, while copying a chunk or before it. */
  predicate Gives(e: Event) {
    e.CopyFails? || e.MergeFails?
  }

  /** In a stuck state a consolidation goes on or fails; it cannot return, and nobody else can do anything. */
  lemma StuckEvents(l: Layout, s: State, e: Event)
    requires l.chunkSize > 0 && Stuck(l, s) && Enabled(l, s, e)
    ensures (e.Check? || e.Copy? || Gives(e)) && e.t in s.merges && s.merges.Keys == {e.t}
  {
    hide FlagsJustified, CheckWrite;
    if e.t in s.merges {
      OnlyMerge(s.merges, e.t);
    }
  }

  lemma MissingStays(l: Layout, s: State, e: Event, p: nat)
    requires l.chunkSize > 0 && Enabled(l, s, e) && (e.Check? || e.Copy?) && s.merges.Keys == {e.t}
    requires IsMissing(s, p)
    ensures IsMissing(Apply(l, s, e), p)
  {
    hide Overlay;
  }

  lemma StuckStep(l: Layout, s: State, e: Event)
    requires l.chunkSize > 0 && Stuck(l, s) && Enabled(l, s, e)
    ensures !e.Enter? && Stuck(l, Apply(l, s, e)) && Apply(l, s, e).merged == s.merged
  {
    StuckEvents(l, s, e);
    StepExclusive(l, s, e);
    MergeKeepsMode(l, s, e);
    hide Exclusive, Apply, Enabled, IsMissing;
    if !Gives(e) {
      var p :| IsMissing(s, p);
      MissingStays(l, s, e, p);
    }
  }

  lemma MergeKeepsMode(l: Layout, s: State, e: Event)
    requires l.chunkSize > 0 && Enabled(l, s, e) && (e.Check? || e.Copy? || Gives(e))
    ensures Apply(l, s, e).mode == s.mode && Apply(l, s, e).merged == s.merged
    ensures Gives(e) && s.merges.Keys == {e.t} ==> Apply(l, s, e).merges == map[]
  {
    hide Overlay;
  }

  /** Stuck, and no consolidation has returned since s. */
  ghost predicate StillStuck(l: Layout, s: State, s': State)
    requires l.chunkSize > 0
  {
    Stuck(l, s') && s'.merged == s.merged
  }

  lemma StillStuckStep(l: Layout, s: State, s': State, e: Event)
    requires l.chunkSize > 0 && StillStuck(l, s, s') && Next(l, s', e).Some?
    ensures !e.Enter? && StillStuck(l, s, Next(l, s', e).value)
  {
    hide Stuck;
    StuckStep(l, s', e);
  }

  lemma {:induction false} StuckForever(l: Layout, s: State, es: seq<Event>)
    requires l.chunkSize > 0 && Stuck(l, s) && RunFrom(l, s, es).Some?
    ensures StillStuck(l, s, RunFrom(l, s, es).value)
    ensures forall i :: 0 <= i < |es| ==> !es[i].Enter?
    decreases |es|
  {
    hide Next, Stuck;
    if es != [] {
      var n := |es| - 1;
      StuckForever(l, s, es[..n]);
      StillStuckStep(l, s, RunFrom(l, s, es[..n]).value, es[n]);
      assert forall i :: 0 <= i < n ==> es[..n][i] == es[i];
    }
  }

  // ----- when a consolidation can still start -----

  /** Some run from s starts a consolidation. */
  ghost predicate CanStart(l: Layout, s: State)
    requires l.chunkSize > 0
  {
    exists es, t :: RunFrom(l, s, es + [Enter(t)]).Some?
  }

  /**
   * A consolidation can still be started if and only if nothing has failed and the consolidation
   * that is running, if there is one, has all its chunks on disk.
   */
  lemma CanStartIff(l: Layout, s: State)
    requires l.chunkSize > 0 && Exclusive(l, s) && AllInChunks(s)
    ensures CanStart(l, s) <==> !Wedged(s) && RestOnDisk(s)
  {
    hide RunFrom, Exclusive;
    if !Wedged(s) && RestOnDisk(s) {
      var es, s' := ToIdle(l, s);
      IdleEnters(l, s', 0);
      RunOne(l, s', Enter(0));
      RunConcat(l, s, es, [Enter(0)]);
    }
    if es, t :| RunFrom(l, s, es + [Enter(t)]).Some? {
      assert (es + [Enter(t)])[|es|] == Enter(t);
      if Wedged(s) {
        WedgedForever(l, s, es + [Enter(t)]);
        assert false;
      }
      if !RestOnDisk(s) {
        NotOnDisk(l, s);
        StuckForever(l, s, es + [Enter(t)]);
        assert false;
      }
    }
  }

  lemma NotOnDisk(l: Layout, s: State)
    requires l.chunkSize > 0 && Exclusive(l, s) && !RestOnDisk(s)
    ensures Stuck(l, s)
  {
    hide FlagsJustified;
    var t, p :| t in s.merges && FirstToCopy(s.merges[t]) <= p < |s.flags| && p !in s.chunks;
    OnlyMerge(s.merges, t);
    assert IsMissing(s, p);
  }

  /** Everything that is running is brought to its end. */
  lemma ToIdle(l: Layout, s: State) returns (es: seq<Event>, s': State)
    requires l.chunkSize > 0 && Exclusive(l, s) && AllInChunks(s) && !Wedged(s) && RestOnDisk(s)
    ensures RunFrom(l, s, es) == Some(s') && Exclusive(l, s') && !Wedged(s')
    ensures s'.writers == map[] && s'.merges == map[] && s'.failed == map[]
  {
    hide RunFrom, FlagsJustified;
    if s.merges == map[] {
      es, s' := FinishAll(l, s);
    } else {
      var t :| t in s.merges;
      es, s' := FinishMerge(l, s, t);
      RemoveSize(s.merges, t);
    }
  }

  lemma IdleEnters(l: Layout, s: State, t: Tid)
    requires l.chunkSize > 0 && Exclusive(l, s) && !Wedged(s)
    requires s.writers == map[] && s.merges == map[]
    ensures s.mode == WritingChunks(0) && Enabled(l, s, Enter(t))
  {
  }

  // ----- chunk files in every run -----

  /** Chunk files have valid numbers, none is left of what was copied, and open ones are there. */
  ghost predicate Tidy(s: State) {
    && (forall p :: p in s.chunks ==> p < |s.flags|)
    && (forall t, p :: t in s.merges && p in s.chunks ==> FirstToCopy(s.merges[t]) <= p)
    && AllInChunks(s)
  }

  lemma WriterTidy(l: Layout, s: State, e: Event)
    requires l.chunkSize > 0 && Enabled(l, s, e) && Tidy(s)
    requires e.Begin? || e.Raise? || e.Lower? || e.End? || e.OpenFails? || e.WriteFails?
    ensures Tidy(Apply(l, s, e))
  {
    hide CheckWrite;
    var s' := Apply(l, s, e);
    assert s'.chunks == s.chunks && s'.merges == s.merges && |s'.flags| == |s.flags|;
    forall u ensures InChunks(s', u) {
      assert InChunks(s, u);
    }
  }

  lemma DiskTidy(l: Layout, s: State, e: Event)
    requires l.chunkSize > 0 && Enabled(l, s, e) && Tidy(s) && CounterExact(s)
    requires e.Open? || e.Resize? || e.Write?
    ensures Tidy(Apply(l, s, e))
  {
    hide Overlay, Resized;
    var s' := Apply(l, s, e);
    assert s.writers != map[] && s'.merges == map[];
    forall u ensures InChunks(s', u) {
      assert InChunks(s, u);
    }
  }

  /** The chunks of a consolidation that has come to chunk i are i and the ones behind it. */
  ghost predicate NoneBefore(chunks: map<nat, Buffer>, i: nat, n: nat) {
    forall p :: p in chunks ==> i <= p < n
  }

  lemma CheckEffect(l: Layout, s: State, t: Tid)
    requires l.chunkSize > 0 && Enabled(l, s, Check(t))
    ensures t in s.merges && Apply(l, s, Check(t)).chunks == s.chunks
    ensures t in Apply(l, s, Check(t)).merges && FirstToCopy(Apply(l, s, Check(t)).merges[t]) == 0
  {
  }

  lemma CopyEffect(l: Layout, s: State, t: Tid)
    requires l.chunkSize > 0 && Enabled(l, s, Copy(t))
    ensures t in s.merges && s.merges[t].Copying? && Apply(l, s, Copy(t)).chunks == s.chunks - {s.merges[t].next}
    ensures t in Apply(l, s, Copy(t)).merges && Apply(l, s, Copy(t)).merges[t] == Copying(s.merges[t].next + 1)
  {
    hide Overlay;
  }

  /** What one step of a consolidation does to the chunk files. */
  lemma MergeEffect(l: Layout, s: State, e: Event)
    requires l.chunkSize > 0 && Enabled(l, s, e) && (e.Check? || e.Copy?)
    ensures e.t in s.merges
    ensures var s' := Apply(l, s, e);
            && s'.writers == s.writers && s'.flags == s.flags
            && s'.merges.Keys == s.merges.Keys
            && s'.chunks == (if e.Copy? then s.chunks - {FirstToCopy(s.merges[e.t])} else s.chunks)
            && FirstToCopy(s'.merges[e.t]) == if e.Copy? then FirstToCopy(s.merges[e.t]) + 1 else 0
  {
    hide Apply, Enabled;
    if e.Check? {
      CheckEffect(l, s, e.t);
      CheckLeaves(l, s, e.t);
    } else {
      CopyEffect(l, s, e.t);
      CopyLeaves(l, s, e.t);
    }
  }

  lemma TidyNoneBefore(s: State, t: Tid)
    requires Tidy(s) && CounterExact(s) && t in s.merges
    ensures s.merges.Keys == {t} && s.writers == map[]
    ensures NoneBefore(s.chunks, FirstToCopy(s.merges[t]), |s.flags|)
  {
    hide AllInChunks, FirstToCopy;
    OnlyMerge(s.merges, t);
  }

  lemma NoneBeforeNext(chunks: map<nat, Buffer>, i: nat, n: nat)
    requires NoneBefore(chunks, i, n)
    ensures NoneBefore(chunks - {i}, i + 1, n) && NoneBefore(chunks, 0, n)
  {
  }

  lemma MergeTidy(l: Layout, s: State, e: Event)
    requires l.chunkSize > 0 && Enabled(l, s, e) && Tidy(s) && CounterExact(s) && (e.Check? || e.Copy?)
    ensures Tidy(Apply(l, s, e))
  {
    hide Apply, Enabled, Tidy, NoneBefore, FirstToCopy, CounterExact;
    MergeEffect(l, s, e);
    TidyNoneBefore(s, e.t);
    NoneBeforeNext(s.chunks, FirstToCopy(s.merges[e.t]), |s.flags|);
    TidyMerge(Apply(l, s, e), e.t);
  }

  lemma TidyMerge(s: State, t: Tid)
    requires s.merges.Keys == {t} && s.writers == map[]
    requires NoneBefore(s.chunks, FirstToCopy(s.merges[t]), |s.flags|)
    ensures Tidy(s)
  {
  }

  lemma MergeEndTidy(l: Layout, s: State, e: Event)
    requires l.chunkSize > 0 && Enabled(l, s, e) && Tidy(s) && CounterExact(s)
    requires e.Enter? || Gives(e) || e.Leave?
    ensures Tidy(Apply(l, s, e))
  {
    hide Tidy, Apply, Enabled, CounterExact, NoneBefore;
    MergeEndEffect(l, s, e);
    TidyChunks(s);
    if e.Enter? {
      TidyMerge(Apply(l, s, e), e.t);
    } else {
      TidyIdle(Apply(l, s, e));
    }
  }

  lemma MergeEndEffect(l: Layout, s: State, e: Event)
    requires l.chunkSize > 0 && Enabled(l, s, e) && CounterExact(s) && (e.Enter? || Gives(e) || e.Leave?)
    ensures var s' := Apply(l, s, e);
            && s'.writers == map[] && s'.flags == s.flags && s'.chunks == s.chunks
            && (e.Enter? ==> s'.merges.Keys == {e.t} && s'.merges[e.t] == Entered)
            && (!e.Enter? ==> s'.merges == map[])
  {
    hide Apply, Enabled;
    MergeLeaves(l, s, e);
    MergeEndDisk(l, s, e);
    if e.Enter? {
      assert |s.writers| == 0 && s.merges == map[];
    } else {
      RemoveSize(s.merges, e.t);
    }
  }

  lemma MergeEndDisk(l: Layout, s: State, e: Event)
    requires l.chunkSize > 0 && Enabled(l, s, e) && (e.Enter? || Gives(e) || e.Leave?)
    ensures Apply(l, s, e).chunks == s.chunks
    ensures if e.Enter? then s.mode == WritingChunks(0) && Apply(l, s, e).merges == s.merges[e.t := Entered]
            else e.t in s.merges && Apply(l, s, e).merges == s.merges - {e.t}
  {
    hide Overlay;
  }

  lemma TidyChunks(s: State)
    requires Tidy(s)
    ensures NoneBefore(s.chunks, 0, |s.flags|)
  {
  }

  lemma TidyIdle(s: State)
    requires s.merges == map[] && s.writers == map[] && NoneBefore(s.chunks, 0, |s.flags|)
    ensures Tidy(s)
  {
  }

  lemma NoWriters(s: State)
    requires s.writers == map[]
    ensures AllInChunks(s)
  {
  }

  lemma TidyStep(l: Layout, s: State, e: Event)
    requires l.chunkSize > 0 && Exclusive(l, s) && Tidy(s) && Enabled(l, s, e)
    ensures Tidy(Apply(l, s, e))
  {
    hide Enabled, Apply, Tidy, FlagsJustified, WellFormed;
    if e.Open? || e.Resize? || e.Write? {
      DiskTidy(l, s, e);
    } else if e.Check? || e.Copy? {
      MergeTidy(l, s, e);
    } else if e.Enter? || Gives(e) || e.Leave? {
      MergeEndTidy(l, s, e);
    } else {
      WriterTidy(l, s, e);
    }
  }

  /** In every state of every interleaving. */
  lemma {:induction false} AlwaysTidy(l: Layout, es: seq<Event>)
    requires l.chunkSize > 0 && RunFrom(l, Init(l), es).Some?
    ensures Exclusive(l, RunFrom(l, Init(l), es).value) && Tidy(RunFrom(l, Init(l), es).value)
    decreases |es|
  {
    hide Exclusive, Tidy, Enabled, Apply, Init;
    if es == [] {
      InitExclusive(l);
      InitTidy(l);
    } else {
      var n := |es| - 1;
      AlwaysTidy(l, es[..n]);
      StepExclusive(l, RunFrom(l, Init(l), es[..n]).value, es[n]);
      TidyStep(l, RunFrom(l, Init(l), es[..n]).value, es[n]);
    }
  }

  lemma InitTidy(l: Layout)
    requires l.chunkSize > 0
    ensures Tidy(Init(l))
  {
  }

  // ----- what one consolidation does -----

  /** The chunks before number i have been copied into the file and are gone from the disk. */
  ghost predicate HasCopied(l: Layout, s: State, s': State, i: nat) {
    && HasChunks(s.chunks, i)
    && s'.chunks == Without(s.chunks, i) && s'.file == Some(Assembled(l, s.chunks, i))
  }

  /** Nothing has been copied yet and the file is as it was. */
  ghost predicate Untouched(s: State, s': State) {
    s'.chunks == s.chunks && s'.file == s.file
  }

  /** The same, and then n bytes of chunk i were written, but its chunk file has stayed. */
  ghost predicate HasTorn(l: Layout, s: State, s': State, i: nat, n: nat) {
    && HasChunks(s.chunks, i + 1) && n <= |s.chunks[i]|
    && s'.chunks == Without(s.chunks, i)
    && s'.file == Some(Overlay(Assembled(l, s.chunks, i), i * l.chunkSize, s.chunks[i][..n]))
  }

  /** What a consolidation that gives up can leave: the old file, or a beginning of the chunks. */
  ghost predicate LeftOver(l: Layout, s: State, s': State) {
    Untouched(s, s') || (exists i :: HasCopied(l, s, s', i)) || exists i, n :: HasTorn(l, s, s', i, n)
  }

  /** How far consolidation t has come that was started in s; without it, it has failed on the way. */
  ghost predicate Since(l: Layout, s: State, t: Tid, s': State) {
    && s'.mode == Consolidating && s'.merged == s.merged && s'.flags == s.flags && s'.writers == map[]
    && s'.merges.Keys <= {t} && true !in s'.flags
    && if t !in s'.merges then LeftOver(l, s, s')
       else match s'.merges[t]
         case Entered => Untouched(s, s')
         case Copying(i) => HasCopied(l, s, s', i)
         case Skipped => false
  }

  lemma EnterSince(l: Layout, s: State, t: Tid)
    requires l.chunkSize > 0 && Exclusive(l, s) && s.mode == WritingChunks(0)
    ensures Enabled(l, s, Enter(t)) && Since(l, s, t, Apply(l, s, Enter(t)))
  {
    assert |s.writers| == 0 && |s.failed| == 0;
    NoFlagsWhenIdle(s);
  }

  lemma SinceStep(l: Layout, s: State, t: Tid, s': State, e: Event)
    requires l.chunkSize > 0 && Since(l, s, t, s') && Enabled(l, s', e)
    ensures if e.Leave? then HasCopied(l, s, s', |s.flags|) && Apply(l, s', e).file == s'.file
            else Since(l, s, t, Apply(l, s', e))
  {
    hide Overlay, CheckWrite, HasCopied, HasTorn;
    if e.Copy? {
      CopyMore(l, s, s', Apply(l, s', e), s'.merges[t].next);
    } else if e.Check? {
      NothingCopied(l, s, Apply(l, s', e));
    } else if e.MergeFails? && s'.merges[t].Copying? {
      SameCopied(l, s, s', Apply(l, s', e), s'.merges[t].next);
    } else if e.CopyFails? {
      CopyTorn(l, s, s', Apply(l, s', e), s'.merges[t].next, e.n);
    }
  }

  lemma CopyMore(l: Layout, s: State, s1: State, s2: State, i: nat)
    requires HasCopied(l, s, s1, i) && i in s1.chunks && s2.chunks == s1.chunks - {i}
    requires s2.file == Some(Overlay(if s1.file.Some? then s1.file.value else [], i * l.chunkSize, s1.chunks[i]))
    ensures HasCopied(l, s, s2, i + 1)
  {
    hide Overlay;
  }

  lemma CopyTorn(l: Layout, s: State, s1: State, s2: State, i: nat, n: nat)
    requires HasCopied(l, s, s1, i) && i in s1.chunks && n <= |s1.chunks[i]| && s2.chunks == s1.chunks
    requires s2.file ==
             Some(Overlay(if s1.file.Some? then s1.file.value else [], i * l.chunkSize, s1.chunks[i][..n]))
    ensures HasTorn(l, s, s2, i, n)
  {
    hide Overlay;
  }

  lemma NothingCopied(l: Layout, s: State, s': State)
    requires s'.chunks == s.chunks && s'.file == Some([])
    ensures HasCopied(l, s, s', 0)
  {
  }

  lemma SameCopied(l: Layout, s: State, s1: State, s2: State, i: nat)
    requires HasCopied(l, s, s1, i) && s2.chunks == s1.chunks && s2.file == s1.file
    ensures HasCopied(l, s, s2, i)
  {
  }

  lemma {:induction false} SinceEntered(l: Layout, s: State, t: Tid, es: seq<Event>)
    requires l.chunkSize > 0 && Exclusive(l, s) && s.mode == WritingChunks(0) && !HasChunks(s.chunks, |s.flags|)
    requires RunFrom(l, Apply(l, s, Enter(t)), es).Some?
    ensures Since(l, s, t, RunFrom(l, Apply(l, s, Enter(t)), es).value)
    decreases |es|
  {
    hide Exclusive, Apply, Enabled, Since;
    EnterSince(l, s, t);
    if es != [] {
      var n := |es| - 1;
      SinceEntered(l, s, t, es[..n]);
      SinceStep(l, s, t, RunFrom(l, Apply(l, s, Enter(t)), es[..n]).value, es[n]);
    }
  }

  /** Some run in which consolidation t, started now, returns. */
  ghost predicate CanReturn(l: Layout, s: State, t: Tid)
    requires l.chunkSize > 0
  {
    exists es :: RunFrom(l, s, [Enter(t)] + es).Some? && RunFrom(l, s, [Enter(t)] + es).value.merged > s.merged
  }

  /** A consolidation that is started can return if and only if every chunk file is on disk. */
  lemma CanReturnIff(l: Layout, s: State, t: Tid)
    requires l.chunkSize > 0 && Exclusive(l, s) && s.mode == WritingChunks(0)
    ensures CanReturn(l, s, t) <==> HasChunks(s.chunks, |s.flags|)
  {
    hide RunFrom, Exclusive, FlagsJustified;
    EnterSince(l, s, t);
    var s1 := Apply(l, s, Enter(t));
    if HasChunks(s.chunks, |s.flags|) {
      EnterExclusive(l, s, Enter(t));
      EnteredOnDisk(l, s, t);
      var es, s' := FinishMerge(l, s1, t);
      RunCons(l, s, Enter(t), es);
    } else if es :| RunFrom(l, s, [Enter(t)] + es).Some? && RunFrom(l, s, [Enter(t)] + es).value.merged > s.merged {
      RunCons(l, s, Enter(t), es);
      SinceEntered(l, s, t, es);
      assert false;
    }
  }

  lemma EnteredOnDisk(l: Layout, s: State, t: Tid)
    requires l.chunkSize > 0 && Exclusive(l, s) && Enabled(l, s, Enter(t)) && HasChunks(s.chunks, |s.flags|)
    ensures RestOnDisk(Apply(l, s, Enter(t))) && t in Apply(l, s, Enter(t)).merges
  {
  }

  /**
   * Otherwise it never returns, whatever happens: the writer stays consolidating for good, and the
   * file, once it has been emptied, holds a beginning of the chunks before the first missing one.
   */
  lemma MissingChunkDestroys(l: Layout, s: State, t: Tid, es: seq<Event>)
    requires l.chunkSize > 0 && Exclusive(l, s) && s.mode == WritingChunks(0) && !HasChunks(s.chunks, |s.flags|)
    requires RunFrom(l, s, [Enter(t)] + es).Some?
    ensures var s' := RunFrom(l, s, [Enter(t)] + es).value;
            && s'.mode == Consolidating && s'.merged == s.merged && LeftOver(l, s, s')
            && (t in s'.merges && s'.merges[t].Copying? ==> HasCopied(l, s, s', s'.merges[t].next))
  {
    hide RunFrom, Exclusive, Enabled, Apply, HasCopied, HasTorn;
    EnterSince(l, s, t);
    RunCons(l, s, Enter(t), es);
    SinceEntered(l, s, t, es);
  }

  // ----- a finished file -----

  /** A consolidation that returns has removed every chunk file. */
  lemma FinishedLeavesNoChunks(l: Layout, es: seq<Event>, t: Tid)
    requires l.chunkSize > 0 && RunFrom(l, Init(l), es + [Leave(t)]).Some?
    ensures var s := RunFrom(l, Init(l), es + [Leave(t)]).value;
            && Exclusive(l, s) && s.chunks == map[] && s.mode == WritingChunks(0)
            && s.file == RunFrom(l, Init(l), es).value.file
  {
    hide FlagsJustified, Init;
    assert (es + [Leave(t)])[..|es|] == es;
    AlwaysTidy(l, es);
    AlwaysTidy(l, es + [Leave(t)]);
  }

  /**
   * A second consolidation of a finished file destroys it: the file is emptied before the first
   * chunk turns out to be missing, and then nothing can be consolidated any more.
   */
  lemma SecondConsolidationDestroys(l: Layout, es: seq<Event>, t: Tid, u: Tid)
    returns (s: State, emptied: State, after: State)
    requires ValidLayout(l) && RunFrom(l, Init(l), es + [Leave(t)]).Some?
    ensures RunFrom(l, Init(l), es + [Leave(t)]) == Some(s)
    ensures RunFrom(l, s, [Enter(u), Check(u)]) == Some(emptied)
    ensures !Enabled(l, emptied, Copy(u)) && !Enabled(l, emptied, Leave(u))
    ensures Next(l, emptied, MergeFails(u)) == Some(after)
    ensures emptied.file == after.file == Some([]) && Wedged(after)
  {
    hide RunFrom, Exclusive, Enabled, Apply, Init;
    s := RunFrom(l, Init(l), es + [Leave(t)]).value;
    FinishedLeavesNoChunks(l, es, t);
    ExclusiveFlags(l, s);
    emptied, after := IdleEmptied(l, s, u);
  }

  lemma ExclusiveFlags(l: Layout, s: State)
    requires ValidLayout(l) && Exclusive(l, s)
    ensures |s.flags| > 0
  {
    Multiple(0, l.chunkSize, l.fileSize);
  }

  lemma IdleEmptied(l: Layout, s: State, u: Tid) returns (emptied: State, after: State)
    requires ValidLayout(l) && Exclusive(l, s) && s.mode == WritingChunks(0) && |s.flags| > 0 && s.chunks == map[]
    ensures RunFrom(l, s, [Enter(u), Check(u)]) == Some(emptied)
    ensures !Enabled(l, emptied, Copy(u)) && !Enabled(l, emptied, Leave(u))
    ensures Next(l, emptied, MergeFails(u)) == Some(after)
    ensures emptied.file == after.file == Some([]) && Wedged(after)
  {
    hide RunFrom, Exclusive;
    EnterSince(l, s, u);
    var entered := Apply(l, s, Enter(u));
    emptied := CheckEmpties(l, entered, u);
    after := NothingToCopy(l, emptied, u);
    RunOne(l, entered, Check(u));
    RunCons(l, s, Enter(u), [Check(u)]);
    assert [Enter(u)] + [Check(u)] == [Enter(u), Check(u)];
  }

  lemma CheckEmpties(l: Layout, s: State, u: Tid) returns (emptied: State)
    requires l.chunkSize > 0 && u in s.merges && s.merges[u] == Entered && true !in s.flags
    ensures Next(l, s, Check(u)) == Some(emptied)
    ensures emptied == s.(merges := s.merges[u := Copying(0)], file := Some([]))
  {
    emptied := Apply(l, s, Check(u));
  }

  lemma NothingToCopy(l: Layout, s: State, u: Tid) returns (after: State)
    requires l.chunkSize > 0 && s.merges.Keys == {u} && s.merges[u] == Copying(0) && s.mode == Consolidating
    requires s.chunks == map[] && |s.flags| > 0
    ensures !Enabled(l, s, Copy(u)) && !Enabled(l, s, Leave(u))
    ensures Next(l, s, MergeFails(u)) == Some(after) && after.file == s.file && Wedged(after)
  {
    after := Apply(l, s, MergeFails(u));
    assert s.merges - {u} == map[];
  }

  // ----- two writers of one chunk -----

  /** A writer that has opened and sized its chunk, with nothing written. */
  function Opening(s: State, t: Tid, pos: nat, data: Buffer): State
    requires s.mode.WritingChunks? && pos < |s.flags|
  {
    s.(mode := WritingChunks(s.mode.n + 1), writers := s.writers[t := Writer(pos, data, Sized(0))],
       flags := s.flags[pos := true], chunks := s.chunks[pos := Zeros(|data|)])
  }

  lemma Flags(l: Layout, s: State, t: Tid, data: Buffer, offset: nat) returns (s': State)
    requires l.chunkSize > 0 && s.mode.WritingChunks? && |s.flags| == ChunkCount(l)
    requires t !in s.writers && t !in s.failed && t !in s.done && CheckWrite(l, |data|, offset) == None
    ensures offset / l.chunkSize < |s.flags|
    ensures RunFrom(l, s, [Begin(t, data, offset)] + [Raise(t)]) == Some(s')
    ensures var pos := offset / l.chunkSize;
            s' == s.(mode := WritingChunks(s.mode.n + 1), writers := s.writers[t := Writer(pos, data, Flagged)],
                     flags := s.flags[pos := true])
  {
    hide RunFrom, CheckWrite;
    AcceptedFits(l, |data|, offset);
    var s1 := Apply(l, s, Begin(t, data, offset));
    s' := Apply(l, s1, Raise(t));
    RunOne(l, s1, Raise(t));
    RunCons(l, s, Begin(t, data, offset), [Raise(t)]);
  }

  lemma Opens(l: Layout, s: State, t: Tid)
    requires l.chunkSize > 0 && AtStage(s, t, Flagged)
    ensures var w := s.writers[t];
            RunFrom(l, s, [Open(t)] + [Resize(t)])
            == Some(s.(writers := s.writers[t := w.(stage := Sized(0))], chunks := s.chunks[w.pos := Zeros(|w.data|)]))
  {
    hide RunFrom;
    var s1 := Apply(l, s, Open(t));
    RunOne(l, s1, Resize(t));
    RunCons(l, s, Open(t), [Resize(t)]);
    var w, s2 := s.writers[t], Apply(l, s1, Resize(t));
    assert [] + Zeros(|w.data|) == Zeros(|w.data|);
    assert s2.writers == s.writers[t := w.(stage := Sized(0))];
    assert s2.chunks == s.chunks[w.pos := Zeros(|w.data|)];
  }

  lemma OpensChunk(l: Layout, s: State, t: Tid, data: Buffer, offset: nat)
    requires l.chunkSize > 0 && s.mode.WritingChunks? && |s.flags| == ChunkCount(l)
    requires t !in s.writers && t !in s.failed && t !in s.done && CheckWrite(l, |data|, offset) == None
    ensures offset / l.chunkSize < |s.flags|
    ensures RunFrom(l, s, [Begin(t, data, offset), Raise(t), Open(t), Resize(t)])
            == Some(Opening(s, t, offset / l.chunkSize, data))
  {
    hide RunFrom, CheckWrite;
    var s' := Flags(l, s, t, data, offset);
    Opens(l, s', t);
    var first, second := [Begin(t, data, offset)] + [Raise(t)], [Open(t)] + [Resize(t)];
    RunConcat(l, s, first, second);
    assert first + second == [Begin(t, data, offset), Raise(t), Open(t), Resize(t)];
    var w := Writer(offset / l.chunkSize, data, Sized(0));
    assert s'.writers[t := w] == s.writers[t := w];
  }

  /** A partial write by a writer that is at byte `at` of its data. */
  lemma WritesPart(l: Layout, s: State, t: Tid, n: nat)
    requires l.chunkSize > 0 && IsWriting(s, t) && 0 < n && s.writers[t].stage.written + n <= |s.writers[t].data|
    requires s.writers[t].pos in s.chunks && |s.chunks[s.writers[t].pos]| == |s.writers[t].data|
    ensures var w := s.writers[t];
            var at := w.stage.written;
            && Enabled(l, s, Write(t, n))
            && Apply(l, s, Write(t, n)) ==
               s.(writers := s.writers[t := w.(stage := Sized(at + n))],
                  chunks := s.chunks[w.pos := s.chunks[w.pos][..at] + w.data[at..at + n] + s.chunks[w.pos][at + n..]])
  {
    var w := s.writers[t];
    var at, was := w.stage.written, s.chunks[w.pos];
    assert Overlay(was, at, w.data[at..at + n]) == was[..at] + w.data[at..at + n] + was[at + n..];
  }

  /** The run in which writer 0 writes k bytes, writer 1 all of its bytes, and writer 0 the rest. */
  function MixingRun(a: Buffer, b: Buffer, offset: nat, k: nat): seq<Event>
    requires k <= |a|
  {
    [Begin(0, a, offset), Raise(0), Open(0), Resize(0)] + [Begin(1, b, offset), Raise(1), Open(1), Resize(1)]
    + [Write(0, k), Write(1, |b|), Write(0, |a| - k)]
  }

  /**
   * Nothing keeps two writers of one chunk apart. Both can be in flight, and for every k the chunk
   * can end up as the first k bytes of one and the rest of the other, which is what neither wrote
   * unless they agree on one of the two parts.
   */
  lemma WritersMix(l: Layout, a: Buffer, b: Buffer, offset: nat, k: nat)
    requires l.chunkSize > 0 && CheckWrite(l, |a|, offset) == None && |b| == |a| && 0 < k < |a|
    ensures RunFrom(l, Init(l), MixingRun(a, b, offset, k)).Some?
    ensures var s := RunFrom(l, Init(l), MixingRun(a, b, offset, k)).value;
            var pos := offset / l.chunkSize;
            && 0 in s.writers && 1 in s.writers && s.writers[0].pos == s.writers[1].pos == pos
            && s.writers[0].stage == Sized(|a|) && s.writers[1].stage == Sized(|b|)
            && pos in s.chunks && s.chunks[pos] == b[..k] + a[k..]
    ensures a[..k] != b[..k] && a[k..] != b[k..] ==> b[..k] + a[k..] != a && b[..k] + a[k..] != b
  {
    hide RunFrom, CheckWrite, Apply, Enabled;
    var s0, pos := Init(l), offset / l.chunkSize;
    OpensChunk(l, s0, 0, a, offset);
    var s1 := Opening(s0, 0, pos, a);
    OpensChunk(l, s1, 1, b, offset);
    var s2 := Opening(s1, 1, pos, b);
    WritesPart(l, s2, 0, k);
    var s3 := Apply(l, s2, Write(0, k));
    WritesPart(l, s3, 1, |b|);
    var s4 := Apply(l, s3, Write(1, |b|));
    assert s4.chunks[pos] == b;
    WritesPart(l, s4, 0, |a| - k);
    var s5 := Apply(l, s4, Write(0, |a| - k));
    assert b[|a|..] == [];
    assert s5.chunks[pos] == b[..k] + a[k..];
    RunThree(l, s2, Write(0, k), Write(1, |b|), Write(0, |a| - k));
    var first := [Begin(0, a, offset), Raise(0), Open(0), Resize(0)];
    var second := [Begin(1, b, offset), Raise(1), Open(1), Resize(1)];
    RunConcat(l, s0, first, second);
    RunConcat(l, s0, first + second, [Write(0, k), Write(1, |b|), Write(0, |a| - k)]);
    assert (b[..k] + a[k..])[..k] == b[..k] && (b[..k] + a[k..])[k..] == a[k..];
  }

  lemma RunThree(l: Layout, s: State, d: Event, e: Event, f: Event)
    requires l.chunkSize > 0 && Enabled(l, s, d) && Enabled(l, Apply(l, s, d), e)
    requires Enabled(l, Apply(l, Apply(l, s, d), e), f)
    ensures RunFrom(l, s, [d, e, f]) == Some(Apply(l, Apply(l, Apply(l, s, d), e), f))
  {
    hide RunFrom, Apply, Enabled;
    var s1 := Apply(l, s, d);
    RunOne(l, Apply(l, s1, e), f);
    RunCons(l, s1, e, [f]);
    RunCons(l, s, d, [e] + [f]);
    assert [d] + ([e] + [f]) == [d, e, f];
  }

  // ----- calls that do not overlap -----

  /** One call of the writer that does not fail, start to end. */
  function WriteRun(t: Tid, data: Buffer, offset: nat): seq<Event> {
    [Begin(t, data, offset), Raise(t), Open(t), Resize(t)]
    + ((if data == [] then [] else [Write(t, |data|)]) + [Lower(t), End(t)])
  }

  /** The chunk file of its position holds the data, and nothing else has changed. */
  function Stored(s: State, t: Tid, pos: nat, data: Buffer): State
    requires pos < |s.flags|
  {
    s.(done := s.done[t := pos], flags := s.flags[pos := false], chunks := s.chunks[pos := data])
  }

  lemma Closes(l: Layout, s: State, t: Tid)
    requires l.chunkSize > 0 && IsWriting(s, t) && s.writers[t].stage.written == |s.writers[t].data|
    requires s.mode.WritingChunks? && s.mode.n > 0
    ensures var pos := s.writers[t].pos;
            RunFrom(l, s, [Lower(t), End(t)]) ==
            Some(s.(mode := WritingChunks(s.mode.n - 1), writers := s.writers - {t}, done := s.done[t := pos],
                    flags := s.flags[pos := false]))
  {
    hide RunFrom;
    var s1 := Apply(l, s, Lower(t));
    assert s1.writers - {t} == s.writers - {t};
    RunOne(l, s1, End(t));
    RunCons(l, s, Lower(t), [End(t)]);
    assert [Lower(t)] + [End(t)] == [Lower(t), End(t)];
  }

  lemma WriteRunStores(l: Layout, s: State, t: Tid, data: Buffer, offset: nat)
    requires l.chunkSize > 0 && s.mode.WritingChunks? && |s.flags| == ChunkCount(l)
    requires t !in s.writers && t !in s.failed && t !in s.done && CheckWrite(l, |data|, offset) == None
    ensures offset / l.chunkSize < |s.flags|
    ensures RunFrom(l, s, WriteRun(t, data, offset)) == Some(Stored(s, t, offset / l.chunkSize, data))
  {
    hide RunFrom, CheckWrite, Apply, Enabled;
    var pos := offset / l.chunkSize;
    OpensChunk(l, s, t, data, offset);
    var s1 := Opening(s, t, pos, data);
    var s2 := s1;
    if data != [] {
      WritesPart(l, s1, t, |data|);
      s2 := Apply(l, s1, Write(t, |data|));
      RunCons(l, s1, Write(t, |data|), [Lower(t), End(t)]);
    } else {
      assert [] + [Lower(t), End(t)] == [Lower(t), End(t)];
    }
    assert s2.chunks[pos] == data;
    Closes(l, s2, t);
    RunConcat(l, s, [Begin(t, data, offset), Raise(t), Open(t), Resize(t)],
              (if data == [] then [] else [Write(t, |data|)]) + [Lower(t), End(t)]);
    StoredIs(s, s2, t, pos, data);
  }

  lemma StoredIs(s: State, s2: State, t: Tid, pos: nat, data: Buffer)
    requires s.mode.WritingChunks? && pos < |s.flags| && t !in s.writers
    requires pos in s2.chunks && s2.chunks[pos] == data
    requires s2 == Opening(s, t, pos, data).(writers := s2.writers, chunks := s2.chunks)
    requires s2.writers == s.writers[t := Writer(pos, data, Sized(|data|))]
    requires forall p :: p != pos ==>
               (p in s2.chunks <==> p in s.chunks) && (p in s.chunks ==> s2.chunks[p] == s.chunks[p])
    ensures s2.(mode := WritingChunks(s2.mode.n - 1), writers := s2.writers - {t}, done := s2.done[t := pos],
                flags := s2.flags[pos := false])
            == Stored(s, t, pos, data)
  {
    assert s2.writers - {t} == s.writers;
    assert s2.chunks == s.chunks[pos := data];
    assert s2.flags[pos := false] == s.flags[pos := false];
  }

  /** A consolidation that copies k chunks. */
  function CopyRun(t: Tid, k: nat): seq<Event> {
    [Enter(t), Check(t)] + seq(k, _ => Copy(t))
  }

  lemma {:induction false} CopyRunCopies(l: Layout, s: State, t: Tid, k: nat)
    requires l.chunkSize > 0 && s.mode == WritingChunks(0) && s.merges == map[] && true !in s.flags
    requires HasChunks(s.chunks, k) && k <= |s.flags|
    ensures RunFrom(l, s, CopyRun(t, k)) ==
            Some(s.(mode := Consolidating, merges := map[t := Copying(k)], chunks := Without(s.chunks, k),
                    file := Some(Assembled(l, s.chunks, k))))
    decreases k
  {
    hide RunFrom, Overlay;
    if k == 0 {
      var s1 := Apply(l, s, Enter(t));
      var s2 := CheckEmpties(l, s1, t);
      RunOne(l, s1, Check(t));
      RunCons(l, s, Enter(t), [Check(t)]);
      assert [Enter(t)] + [Check(t)] == CopyRun(t, 0);
      assert Without(s.chunks, 0) == s.chunks;
      assert s2.merges == map[t := Copying(0)];
    } else {
      CopyRunCopies(l, s, t, k - 1);
      var s1 := RunFrom(l, s, CopyRun(t, k - 1)).value;
      CopyOne(l, s.chunks, s1, t, k - 1);
      RunOne(l, s1, Copy(t));
      RunConcat(l, s, CopyRun(t, k - 1), [Copy(t)]);
      assert CopyRun(t, k) == CopyRun(t, k - 1) + [Copy(t)];
    }
  }

  /** The run is ended by a return, if all chunks were copied, or by giving up. */
  lemma CopyRunEnds(l: Layout, s: State, t: Tid, k: nat)
    requires l.chunkSize > 0 && s.mode == WritingChunks(0) && s.merges == map[] && true !in s.flags
    requires HasChunks(s.chunks, k) && k <= |s.flags|
    ensures var after := s.(chunks := Without(s.chunks, k), file := Some(Assembled(l, s.chunks, k)));
            && (k == |s.flags| ==>
                  RunFrom(l, s, CopyRun(t, k) + [Leave(t)]) == Some(after.(merged := s.merged + 1)))
            && RunFrom(l, s, CopyRun(t, k) + [MergeFails(t)]) == Some(after.(mode := Consolidating))
  {
    hide RunFrom, Overlay, Without, Assembled, HasChunks;
    CopyRunCopies(l, s, t, k);
    var s1 := RunFrom(l, s, CopyRun(t, k)).value;
    assert s1.merges - {t} == map[];
    RunOne(l, s1, Leave(t));
    RunOne(l, s1, MergeFails(t));
    RunConcat(l, s, CopyRun(t, k), [Leave(t)]);
    RunConcat(l, s, CopyRun(t, k), [MergeFails(t)]);
  }

  lemma CopyOne(l: Layout, chunks: map<nat, Buffer>, s: State, t: Tid, i: nat)
    requires l.chunkSize > 0 && s.merges == map[t := Copying(i)] && i < |s.flags| && HasChunks(chunks, i + 1)
    requires s.chunks == Without(chunks, i) && s.file == Some(Assembled(l, chunks, i))
    ensures Enabled(l, s, Copy(t))
    ensures Apply(l, s, Copy(t)) ==
            s.(merges := map[t := Copying(i + 1)], chunks := Without(chunks, i + 1),
               file := Some(Assembled(l, chunks, i + 1)))
  {
    hide Overlay;
    assert s.chunks - {i} == Without(chunks, i + 1);
    assert s.merges[t := Copying(i + 1)] == map[t := Copying(i + 1)];
  }

  // ----- when a schedule can show -----

  datatype Writing = Writing(data: Buffer, offset: nat)

  /** The writes of a run are among the given ones. */
  ghost predicate DrawnFrom(writes: map<Tid, Writing>, es: seq<Event>) {
    forall i :: 0 <= i < |es| && es[i].Begin? ==>
      es[i].t in writes && writes[es[i].t] == Writing(es[i].data, es[i].offset)
  }

  /** A run of these writes after which nothing is in flight and nothing has failed. */
  ghost predicate Completes(l: Layout, writes: map<Tid, Writing>, es: seq<Event>)
    requires l.chunkSize > 0
  {
    && DrawnFrom(writes, es) && RunFrom(l, Init(l), es).Some?
    && RunFrom(l, Init(l), es).value.writers == map[] && RunFrom(l, Init(l), es).value.failed == map[]
  }

  /** Whatever is done of these writes and in which order, a chunk file has one content only. */
  ghost predicate OneContent(l: Layout, writes: map<Tid, Writing>)
    requires l.chunkSize > 0
  {
    forall es, fs :: Completes(l, writes, es) && Completes(l, writes, fs) ==>
      SameChunks(RunFrom(l, Init(l), es).value.chunks, RunFrom(l, Init(l), fs).value.chunks)
  }

  ghost predicate SameChunks(a: map<nat, Buffer>, b: map<nat, Buffer>) {
    forall p :: p in a && p in b ==> a[p] == b[p]
  }

  /** Thread t has an acceptable write of chunk p. */
  ghost predicate Writes(l: Layout, writes: map<Tid, Writing>, t: Tid, p: nat)
    requires l.chunkSize > 0
  {
    && t in writes && CheckWrite(l, |writes[t].data|, writes[t].offset) == None
    && writes[t].offset / l.chunkSize == p
  }

  ghost predicate EqualData(l: Layout, writes: map<Tid, Writing>)
    requires l.chunkSize > 0
  {
    forall t, u, p :: Writes(l, writes, t, p) && Writes(l, writes, u, p) ==> writes[t].data == writes[u].data
  }

  /**
   * The schedule cannot show in the chunk files if and only if the acceptable writes of each chunk
   * carry equal data.
   */
  lemma OneContentIff(l: Layout, writes: map<Tid, Writing>)
    requires l.chunkSize > 0
    ensures OneContent(l, writes) <==> EqualData(l, writes)
  {
    hide RunFrom, DrawnFrom, CheckWrite, Init;
    if EqualData(l, writes) {
      forall es, fs | Completes(l, writes, es) && Completes(l, writes, fs)
        ensures SameChunks(RunFrom(l, Init(l), es).value.chunks, RunFrom(l, Init(l), fs).value.chunks)
      {
        ContentIsRight(l, writes, es);
        ContentIsRight(l, writes, fs);
      }
    } else {
      var t, u, p :| Writes(l, writes, t, p) && Writes(l, writes, u, p) && writes[t].data != writes[u].data;
      var es := LastOneWins(l, writes, u, t, p);
      var fs := LastOneWins(l, writes, t, u, p);
      assert !SameChunks(RunFrom(l, Init(l), es).value.chunks, RunFrom(l, Init(l), fs).value.chunks);
    }
  }

  /** First t and then u: the chunk has the data of u. */
  lemma LastOneWins(l: Layout, writes: map<Tid, Writing>, t: Tid, u: Tid, p: nat) returns (es: seq<Event>)
    requires l.chunkSize > 0 && Writes(l, writes, t, p) && Writes(l, writes, u, p) && t != u
    ensures Completes(l, writes, es)
    ensures p in RunFrom(l, Init(l), es).value.chunks && RunFrom(l, Init(l), es).value.chunks[p] == writes[u].data
  {
    hide RunFrom, CheckWrite;
    var s := Init(l);
    var first, second := WriteRun(t, writes[t].data, writes[t].offset), WriteRun(u, writes[u].data, writes[u].offset);
    WriteRunStores(l, s, t, writes[t].data, writes[t].offset);
    var s1 := Stored(s, t, p, writes[t].data);
    WriteRunStores(l, s1, u, writes[u].data, writes[u].offset);
    RunConcat(l, s, first, second);
    es := first + second;
    DrawnBoth(writes, t, u);
  }

  lemma DrawnBoth(writes: map<Tid, Writing>, t: Tid, u: Tid)
    requires t in writes && u in writes
    ensures DrawnFrom(writes, WriteRun(t, writes[t].data, writes[t].offset)
                              + WriteRun(u, writes[u].data, writes[u].offset))
  {
    var first, second := WriteRun(t, writes[t].data, writes[t].offset), WriteRun(u, writes[u].data, writes[u].offset);
    assert forall e :: e in first && e.Begin? ==> e == Begin(t, writes[t].data, writes[t].offset);
    assert forall e :: e in second && e.Begin? ==> e == Begin(u, writes[u].data, writes[u].offset);
    forall i | 0 <= i < |first + second| && (first + second)[i].Begin?
      ensures (first + second)[i] == Begin(t, writes[t].data, writes[t].offset)
              || (first + second)[i] == Begin(u, writes[u].data, writes[u].offset)
    {
      assert (first + second)[i] in first || (first + second)[i] in second;
    }
  }

  ghost predicate IsWritten(l: Layout, writes: map<Tid, Writing>, p: nat)
    requires l.chunkSize > 0
  {
    exists t :: Writes(l, writes, t, p)
  }

  /** The data of the acceptable writes of chunk p, or a filler. */
  ghost function ContentOf(l: Layout, writes: map<Tid, Writing>, p: nat): (d: Buffer)
    requires l.chunkSize > 0
    ensures IsWritten(l, writes, p) ==> exists t :: Writes(l, writes, t, p) && d == writes[t].data
    ensures !IsWritten(l, writes, p) ==> d == Zeros(l.chunkSize)
  {
    if IsWritten(l, writes, p) then
      var t :| Writes(l, writes, t, p);
      writes[t].data
    else Zeros(l.chunkSize)
  }

  ghost function Contents(l: Layout, writes: map<Tid, Writing>): (want: seq<Buffer>)
    requires l.chunkSize > 0
    ensures |want| == ChunkCount(l) && forall p :: 0 <= p < |want| ==> want[p] == ContentOf(l, writes, p)
  {
    seq(ChunkCount(l), p => if p < 0 then [] else ContentOf(l, writes, p))
  }

  lemma ContentFits(l: Layout, writes: map<Tid, Writing>, p: nat)
    requires l.chunkSize > 0 && p < ChunkCount(l)
    ensures Fits(l, p, |ContentOf(l, writes, p)|)
  {
    hide CheckWrite, ContentOf;
    if IsWritten(l, writes, p) {
      var t :| Writes(l, writes, t, p) && ContentOf(l, writes, p) == writes[t].data;
      AcceptedFits(l, |writes[t].data|, writes[t].offset);
    }
  }

  /** With equal data, what a run leaves in its chunk files is that data. */
  lemma ContentIsRight(l: Layout, writes: map<Tid, Writing>, es: seq<Event>)
    requires l.chunkSize > 0 && EqualData(l, writes) && Completes(l, writes, es)
    ensures forall p :: p in RunFrom(l, Init(l), es).value.chunks ==>
              RunFrom(l, Init(l), es).value.chunks[p] == ContentOf(l, writes, p)
  {
    hide EqualData, RunFrom, Contents, ContentOf, Brings, Init;
    var want := Contents(l, writes);
    forall p | 0 <= p < |want| ensures Fits(l, p, |want[p]|) {
      ContentFits(l, writes, p);
    }
    BringsContents(l, writes, es, Init(l));
    AlwaysAssembles(l, want, es);
    var s := RunFrom(l, Init(l), es).value;
    forall p | p in s.chunks ensures s.chunks[p] == ContentOf(l, writes, p) {
      IdleChunksRight(s, want, p);
    }
  }

  /** Only the writes that were possible count, and these are acceptable. */
  lemma {:induction false} BringsContents(l: Layout, writes: map<Tid, Writing>, es: seq<Event>, s: State)
    requires l.chunkSize > 0 && EqualData(l, writes) && DrawnFrom(writes, es) && RunFrom(l, s, es).Some?
    ensures forall i :: 0 <= i < |es| ==> Brings(l, Contents(l, writes), es[i])
    decreases |es|
  {
    hide EqualData, Contents, Brings, Apply;
    if es != [] {
      var n := |es| - 1;
      BringsContents(l, writes, es[..n], s);
      assert forall i :: 0 <= i < n ==> es[..n][i] == es[i];
      EventBrings(l, writes, es[n], RunFrom(l, s, es[..n]).value);
    }
  }

  lemma EventBrings(l: Layout, writes: map<Tid, Writing>, e: Event, s: State)
    requires l.chunkSize > 0 && EqualData(l, writes) && Enabled(l, s, e)
    requires e.Begin? ==> e.t in writes && writes[e.t] == Writing(e.data, e.offset)
    ensures Brings(l, Contents(l, writes), e)
  {
    hide CheckWrite, Contents, ContentOf;
    if e.Begin? {
      var p := e.offset / l.chunkSize;
      AcceptedFits(l, |e.data|, e.offset);
      assert Writes(l, writes, e.t, p);
    }
  }
}
