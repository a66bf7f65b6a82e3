/** What a second accepted response for a block does to an upload, and exactly when an upload is safe from it. */
module DuplicateResponses {
  import opened Bytes
  import opened Wrappers
  import opened ChunkLayout
  import opened ConcurrentWriter
  import opened ChunkAssembly
  import opened WriterOutcomes
  import opened BlockTable
  import opened Upload

  // ----- building runs -----

  lemma RunSnoc(j: Job, acts: seq<Action>, a: Action)
    requires j.index.layout.chunkSize > 0 && Run(j, acts).Some?
    ensures Run(j, acts + [a]) == Step(j, Run(j, acts).value, a)
  {
    hide Step;
    assert (acts + [a])[..|acts|] == acts;
  }

  function StorageOf(es: seq<Event>): (acts: seq<Action>)
    ensures |acts| == |es| && forall i :: 0 <= i < |es| ==> acts[i] == Storage(es[i])
  {
    seq(|es|, i requires 0 <= i < |es| => Storage(es[i]))
  }

  /** What the writer does between its first lock and its end is up to the writer alone. */
  lemma {:induction false} RunStorage(j: Job, acts: seq<Action>, es: seq<Event>)
    requires j.index.layout.chunkSize > 0 && Run(j, acts).Some?
    requires RunFrom(j.index.layout, Run(j, acts).value.w, es).Some?
    requires forall e :: e in es ==> !e.Begin? && !e.Enter?
    ensures Run(j, acts + StorageOf(es)).Some?
    ensures Run(j, acts + StorageOf(es)).value
            == Run(j, acts).value.(w := RunFrom(j.index.layout, Run(j, acts).value.w, es).value)
    decreases |es|
  {
    hide Enabled, Apply, MarkHash;
    if es == [] {
      assert acts + StorageOf(es) == acts;
    } else {
      var n := |es| - 1;
      RunStorage(j, acts, es[..n]);
      assert acts + StorageOf(es) == (acts + StorageOf(es[..n])) + [Storage(es[n])];
      RunSnoc(j, acts + StorageOf(es[..n]), Storage(es[n]));
    }
  }

  // ----- responses one after the other -----

  /** Nothing is running, and the threads in `ts` have written and marked their blocks. */
  ghost predicate Quiet(j: Job, s: Progress, ts: set<Tid>)
    requires j.index.layout.chunkSize > 0
  {
    && Exclusive(j.index.layout, s.w) && Sound(j, s) && AllInChunks(s.w)
    && s.w.writers == map[] && s.w.failed == map[] && s.w.merges == map[] && s.w.merged == 0
    && s.w.mode.WritingChunks? && s.concluded == {}
    && s.w.done.Keys == s.marked == ts
    && (forall t :: t in ts ==> t in j.responses && j.responses[t].block in s.w.chunks)
  }

  lemma StartIsQuiet(j: Job)
    requires ValidJob(j)
    ensures Quiet(j, Start(j), {})
  {
    StartHolds(j);
  }

  function BeginOf(j: Job, t: Tid): Event {
    if t in j.responses then Begin(t, j.responses[t].data, j.responses[t].block * j.index.layout.chunkSize)
    else Begin(t, [], 0)
  }

  /** Only writer t is in flight, and it has just been counted in. */
  ghost predicate HasBegun(j: Job, s: Progress, s': Progress, t: Tid) {
    && t in j.responses && s'.w.mode.WritingChunks?
    && s' == s.(w := s.w.(mode := s'.w.mode,
                          writers := map[t := Writer(j.responses[t].block, j.responses[t].data, Started)]))
  }

  /** Response t is counted in. */
  lemma BeginsWrite(j: Job, acts: seq<Action>, s: Progress, ts: set<Tid>, t: Tid) returns (s': Progress)
    requires ValidJob(j) && Run(j, acts) == Some(s) && Quiet(j, s, ts) && Passes(j, t) && t !in ts
    ensures Run(j, acts + [Storage(BeginOf(j, t))]) == Some(s') && HasBegun(j, s, s', t)
  {
    hide Run, CheckWrite, Sound, Exclusive;
    var e := BeginOf(j, t);
    OffsetBlock(j.responses[t].block, j.index.layout.chunkSize);
    RunSnoc(j, acts, Storage(e));
    s' := After(j, s, Storage(e));
  }

  /** A further accepted response is written and marked, start to end. */
  lemma WriteAndMark(j: Job, acts: seq<Action>, s: Progress, ts: set<Tid>, t: Tid)
    returns (acts': seq<Action>, s': Progress)
    requires ValidJob(j) && Run(j, acts) == Some(s) && Quiet(j, s, ts) && Passes(j, t) && t !in ts
    ensures Run(j, acts') == Some(s') && Quiet(j, s', ts + {t})
    ensures AllStored(s'.stored) ==> s'.reports == s.reports + [t]
  {
    hide Run, Quiet, Sound, Exclusive, Enabled, Apply, CheckWrite, IsFinished, AllStored;
    var s1 := BeginsWrite(j, acts, s, ts, t);
    var acts1 := acts + [Storage(BeginOf(j, t))];
    AlwaysHolds(j, acts1);
    var es, w2 := FinishWriter(j.index.layout, s1.w, t);
    RunStorage(j, acts1, es);
    var acts2, s2 := acts1 + StorageOf(es), s1.(w := w2);
    AlwaysHolds(j, acts2);
    WrittenState(j, s, s1, s2, ts, t);
    RunSnoc(j, acts2, Mark(t));
    acts', s' := acts2 + [Mark(t)], After(j, s2, Mark(t));
    MarkReports(j, s2, t);
    AlwaysHolds(j, acts');
    MarkedState(j, s2, s', ts, t);
  }

  /** Nothing is running; the threads in `ts` have marked their blocks, and t has written its block as well. */
  ghost predicate HasWritten(j: Job, s: Progress, ts: set<Tid>, t: Tid) {
    && s.w.writers == map[] && s.w.failed == map[] && s.w.merges == map[] && s.w.merged == 0
    && s.w.mode.WritingChunks? && s.concluded == {}
    && s.w.done.Keys == ts + {t} && s.marked == ts
    && (forall u :: u in ts + {t} ==> u in j.responses && j.responses[u].block in s.w.chunks)
  }

  lemma WrittenState(j: Job, s: Progress, s1: Progress, s2: Progress, ts: set<Tid>, t: Tid)
    requires j.index.layout.chunkSize > 0 && Quiet(j, s, ts) && t !in ts && HasBegun(j, s, s1, t)
    requires IsFinished(s1.w, s2.w, t) && s2 == s1.(w := s2.w)
    ensures HasWritten(j, s2, ts, t) && s2.stored == s.stored && s2.reports == s.reports
    ensures Sound(j, s2) && t in j.responses && j.responses[t].block < |j.index.hashes| ==> Possible(j, s2, Mark(t))
  {
    hide Exclusive, AllInChunks;
  }

  lemma MarkedState(j: Job, s: Progress, s': Progress, ts: set<Tid>, t: Tid)
    requires j.index.layout.chunkSize > 0 && HasWritten(j, s, ts, t)
    requires Possible(j, s, Mark(t)) && s' == After(j, s, Mark(t))
    requires Exclusive(j.index.layout, s'.w) && Sound(j, s')
    ensures Quiet(j, s', ts + {t})
  {
    hide Exclusive, Sound, MarkHash;
    NoWriters(s'.w);
  }

  // ----- one response for every block -----

  /** Thread ts[b] carries an accepted response for block b. */
  ghost predicate AnswersInTurn(j: Job, ts: seq<Tid>) {
    forall b :: 0 <= b < |ts| ==> Answers(j, ts[b], b)
  }

  ghost function ToSet(ts: seq<Tid>): set<Tid> {
    set t | t in ts
  }

  lemma {:induction false} AnswerBlocks(j: Job, ts: seq<Tid>) returns (acts: seq<Action>, s: Progress)
    requires ValidJob(j) && AnswersInTurn(j, ts)
    ensures Run(j, acts) == Some(s) && Quiet(j, s, ToSet(ts))
    ensures AllStored(s.stored) ==> ts != [] && ts[|ts| - 1] in s.reports
    decreases |ts|
  {
    hide Run, Quiet, Passes, AllStored;
    if ts == [] {
      acts, s := [], Start(j);
      StartIsQuiet(j);
      NothingStored(j);
      assert ToSet(ts) == {};
    } else {
      var n := |ts| - 1;
      assert Answers(j, ts[n], n);
      var acts1, s1 := AnswerBlocks(j, ts[..n]);
      forall b | 0 <= b < n ensures ts[b] != ts[n] {
        assert Answers(j, ts[b], b);
      }
      acts, s := WriteAndMark(j, acts1, s1, ToSet(ts[..n]), ts[n]);
      assert ToSet(ts) == ToSet(ts[..n]) + {ts[n]};
    }
  }

  lemma NothingStored(j: Job)
    requires ValidJob(j)
    ensures Run(j, []) == Some(Start(j)) && !AllStored(Start(j).stored)
  {
    ExpectedIsChunkCount(j.index.layout);
    assert !Start(j).stored[0];
  }

  /** With a response for every block the table is full and every chunk file is there. */
  lemma QuietIsFull(j: Job, s: Progress, ts: seq<Tid>, all: set<Tid>)
    requires ValidJob(j) && Quiet(j, s, all) && AnswersInTurn(j, ts) && |ts| == |j.index.hashes|
    requires ToSet(ts) <= all
    ensures AllStored(s.stored) && HasChunks(s.w.chunks, |s.w.flags|)
  {
    hide Exclusive, ThreadsAnswer, Passes;
    FlagCount(j, s);
    forall b: nat | b < |j.index.hashes| ensures s.stored[b] && b in s.w.chunks {
      assert ts[b] in ToSet(ts) && Answers(j, ts[b], b);
      assert MarkedFor(j, s, ts[b], b);
    }
  }

  lemma FlagCount(j: Job, s: Progress)
    requires ValidJob(j) && Exclusive(j.index.layout, s.w)
    ensures |s.w.flags| == |j.index.hashes| && |s.w.flags| > 0
  {
    ExclusiveFlags(j.index.layout, s.w);
  }

  // ----- and one response too many -----

  /**
   * Every block has an accepted response and block b has two: both are told AllBlocks, both
   * conclude, and the second conclusion empties the file that the first one has finished.
   */
  lemma SecondResponseDestroys(j: Job, ts: seq<Tid>, u: Tid) returns (acts: seq<Action>, s: Progress)
    requires ValidJob(j) && AnswersInTurn(j, ts) && |ts| == |j.index.hashes| && Passes(j, u) && u !in ts
    ensures Run(j, acts) == Some(s) && s.w.merged == 1 && u in s.reports
    ensures u in s.w.merges && s.w.merges[u] == Copying(0) && 0 !in s.w.chunks && s.w.file == Some([])
  {
    hide Run, Quiet, Passes, AllStored, Exclusive, Answers, Sound;
    var acts1, s1 := AnswerBlocks(j, ts);
    QuietIsFull(j, s1, ts, ToSet(ts));
    var first := ts[|ts| - 1];
    var acts2, s2 := WriteAndMark(j, acts1, s1, ToSet(ts), u);
    QuietIsFull(j, s2, ts, ToSet(ts) + {u});
    assert s2.reports == s1.reports + [u];
    var acts3, s3 := Concludes(j, acts2, s2, ToSet(ts) + {u}, first);
    acts, s := ConcludesAgain(j, acts3, s3, u);
  }

  /** Nothing is running, one conclusion is over, and it has left no chunk file. */
  ghost predicate Concluded(j: Job, s: Progress, t: Tid)
    requires j.index.layout.chunkSize > 0
  {
    && Exclusive(j.index.layout, s.w) && s.w.mode == WritingChunks(0) && s.w.merged == 1
    && s.w.chunks == map[] && s.concluded == {t}
  }

  lemma QuietEnters(j: Job, s: Progress, ts: set<Tid>, t: Tid)
    requires ValidJob(j) && Quiet(j, s, ts) && t in s.reports && HasChunks(s.w.chunks, |s.w.flags|)
    ensures Possible(j, s, Storage(Enter(t))) && Exclusive(j.index.layout, s.w)
    ensures var w := Apply(j.index.layout, s.w, Enter(t)); t in w.merges && RestOnDisk(w)
  {
    IdleEnters(j.index.layout, s.w, t);
    EnteredOnDisk(j.index.layout, s.w, t);
  }

  lemma Concludes(j: Job, acts: seq<Action>, s: Progress, ts: set<Tid>, t: Tid)
    returns (acts': seq<Action>, s': Progress)
    requires ValidJob(j) && Run(j, acts) == Some(s) && Quiet(j, s, ts)
    requires t in s.reports && HasChunks(s.w.chunks, |s.w.flags|)
    ensures Run(j, acts') == Some(s') && Concluded(j, s', t) && s'.reports == s.reports
  {
    var l := j.index.layout;
    QuietEnters(j, s, ts, t);
    assert s.concluded == {} && s.w.merged == 0;
    hide Run, Quiet, Exclusive, Enabled, Apply, Tidy, RestOnDisk, HasChunks;
    RunSnoc(j, acts, Storage(Enter(t)));
    var acts1, s1 := acts + [Storage(Enter(t))], After(j, s, Storage(Enter(t)));
    AlwaysHolds(j, acts1);
    var es, w2 := FinishMerge(l, s1.w, t);
    RunStorage(j, acts1, es);
    acts', s' := acts1 + StorageOf(es), s1.(w := w2);
    StaysMerged(l, s.w, t);
    MergeLeavesNoChunks(j, acts1, s1, es, t);
    assert s'.concluded == {t};
  }

  lemma StaysMerged(l: Layout, s: State, t: Tid)
    requires l.chunkSize > 0 && Enabled(l, s, Enter(t))
    ensures Apply(l, s, Enter(t)).merged == s.merged
  {
  }

  /** A conclusion that has returned has removed every chunk file. */
  lemma MergeLeavesNoChunks(j: Job, acts: seq<Action>, s: Progress, es: seq<Event>, t: Tid)
    requires ValidJob(j) && Run(j, acts) == Some(s)
    requires RunFrom(j.index.layout, s.w, es).Some? && es != [] && es[|es| - 1] == Leave(t)
    ensures RunFrom(j.index.layout, s.w, es).value.chunks == map[]
  {
    hide Exclusive, RunFrom, Run, Init;
    var l := j.index.layout;
    var before := WriterRun(j, acts);
    var n := |es| - 1;
    assert es == es[..n] + [Leave(t)];
    RunConcat(l, Init(l), before, es[..n]);
    RunConcat(l, Init(l), before, es);
    assert before + es == (before + es[..n]) + [Leave(t)];
    FinishedLeavesNoChunks(l, before + es[..n], t);
  }

  /** The events of an upload are a run of its writer. */
  lemma {:induction false} WriterRun(j: Job, acts: seq<Action>) returns (es: seq<Event>)
    requires j.index.layout.chunkSize > 0 && Run(j, acts).Some?
    ensures RunFrom(j.index.layout, Init(j.index.layout), es) == Some(Run(j, acts).value.w)
    decreases |acts|
  {
    hide Enabled, Apply, MarkHash, Init;
    if acts == [] {
      es := [];
    } else {
      var n := |acts| - 1;
      es := WriterRun(j, acts[..n]);
      if acts[n].Storage? {
        var e := acts[n].e;
        assert (es + [e])[..|es|] == es;
        es := es + [e];
      }
    }
  }

  lemma ConcludesAgain(j: Job, acts: seq<Action>, s: Progress, u: Tid) returns (acts': seq<Action>, s': Progress)
    requires ValidJob(j) && Run(j, acts) == Some(s) && u in s.reports && u !in s.concluded
    requires Exclusive(j.index.layout, s.w) && s.w.mode == WritingChunks(0) && s.w.merged == 1 && s.w.chunks == map[]
    ensures Run(j, acts') == Some(s') && s'.w.merged == 1 && u in s'.reports
    ensures u in s'.w.merges && s'.w.merges[u] == Copying(0) && 0 !in s'.w.chunks && s'.w.file == Some([])
  {
    hide Run, Overlay;
    assert |s.w.writers| == 0 && |s.w.failed| == 0;
    NoFlagsWhenIdle(s.w);
    RunSnoc(j, acts, Storage(Enter(u)));
    var s1 := After(j, s, Storage(Enter(u)));
    var acts1 := acts + [Storage(Enter(u))];
    RunSnoc(j, acts1, Storage(Check(u)));
    acts', s' := acts1 + [Storage(Check(u))], After(j, s1, Storage(Check(u)));
  }

  // ----- exactly when an upload is safe -----

  /** In no run does a conclusion meet a missing chunk. */
  ghost predicate NeverMissesChunk(j: Job)
    requires j.index.layout.chunkSize > 0
  {
    forall acts, t :: Run(j, acts).Some? ==> FindsChunk(Run(j, acts).value.w, t)
  }

  ghost predicate FindsChunk(w: State, t: Tid) {
    t in w.merges && w.merges[t].Copying? && w.merges[t].next < |w.flags| ==> w.merges[t].next in w.chunks
  }

  /** Some block will never be written. */
  ghost predicate NeverComplete(j: Job) {
    exists b: nat :: b < |j.index.hashes| && !HasAnswer(j, b)
  }

  /**
   * A finished file is safe from a second conclusion if and only if no block has two accepted
   * responses, or the upload can never be complete in the first place.
   */
  lemma SafeIff(j: Job)
    requires ValidJob(j)
    ensures NeverMissesChunk(j) <==> OnePerBlock(j) || NeverComplete(j)
  {
    if OnePerBlock(j) || NeverComplete(j) {
      forall acts, t | Run(j, acts).Some? ensures FindsChunk(Run(j, acts).value.w, t) {
        SafeRun(j, acts, t);
      }
    } else {
      var ts, u := TwoAnswers(j);
      var acts, s := SecondResponseDestroys(j, ts, u);
      AlwaysHolds(j, acts);
      FlagCount(j, s);
      assert !FindsChunk(s.w, u);
    }
  }

  lemma SafeRun(j: Job, acts: seq<Action>, t: Tid)
    requires ValidJob(j) && Run(j, acts).Some? && (OnePerBlock(j) || NeverComplete(j))
    ensures FindsChunk(Run(j, acts).value.w, t)
  {
    hide Run, OnePerBlock, Exclusive, Sound;
    var s := Run(j, acts).value;
    AlwaysHolds(j, acts);
    FlagCount(j, s);
    if t in s.w.merges {
      MergesReported(j, acts, t);
      if OnePerBlock(j) {
        if s.w.merges[t].Copying? && s.w.merges[t].next < |s.w.flags| {
          ConclusionFindsEveryChunk(j, acts, t);
        }
      } else {
        var b: nat :| b < |j.index.hashes| && !HasAnswer(j, b);
        ReportMeansWritten(j, acts, b);
        assert false;
      }
    }
  }

  /** Only a thread that was told AllBlocks concludes. */
  lemma {:induction false} MergesReported(j: Job, acts: seq<Action>, t: Tid)
    requires ValidJob(j) && Run(j, acts).Some? && t in Run(j, acts).value.w.merges
    ensures t in Run(j, acts).value.reports
    decreases |acts|
  {
    if acts != [] {
      var n := |acts| - 1;
      var s, s' := Run(j, acts[..n]).value, Run(j, acts).value;
      hide Run;
      if t in s.w.merges {
        MergesReported(j, acts[..n], t);
      } else if acts[n].Storage? {
        MergeEnters(j.index.layout, s.w, acts[n].e, t);
      }
    }
  }

  lemma MergeEnters(l: Layout, w: State, e: Event, t: Tid)
    requires l.chunkSize > 0 && Enabled(l, w, e) && t !in w.merges && t in Apply(l, w, e).merges
    ensures e == Enter(t)
  {
    hide Apply, Enabled;
    if IsMergeEvent(e) {
      MergeLeaves(l, w, e);
    } else {
      WriterLeaves(l, w, e);
    }
  }

  /** An accepted response for every block, and a second one for some block. */
  lemma TwoAnswers(j: Job) returns (ts: seq<Tid>, u: Tid)
    requires ValidJob(j) && !OnePerBlock(j) && !NeverComplete(j)
    ensures |ts| == |j.index.hashes| && AnswersInTurn(j, ts) && Passes(j, u) && u !in ts
  {
    var t, v :| Passes(j, t) && Passes(j, v) && t != v && j.responses[t].block == j.responses[v].block;
    u := v;
    ts := Choose(j, |j.index.hashes|, t);
    forall b | 0 <= b < |ts| ensures ts[b] != u {
      assert Answers(j, ts[b], b);
    }
  }

  lemma {:induction false} Choose(j: Job, n: nat, t: Tid) returns (ts: seq<Tid>)
    requires Passes(j, t) && n <= |j.index.hashes|
    requires forall b: nat :: b < |j.index.hashes| ==> HasAnswer(j, b)
    ensures |ts| == n && AnswersInTurn(j, ts)
    ensures j.responses[t].block < n ==> ts[j.responses[t].block] == t
  {
    if n == 0 {
      ts := [];
    } else {
      ts := Choose(j, n - 1, t);
      if j.responses[t].block == n - 1 {
        ts := ts + [t];
      } else {
        assert HasAnswer(j, n - 1);
        var u :| Answers(j, u, n - 1);
        ts := ts + [u];
      }
    }
  }

  /** Even a file of one chunk is lost to a second response. */
  lemma OneChunkIsNotSafe()
    ensures var j := Job(Index(Layout(1, 1), [[7]]), d => d, map[0 := Response(0, [7]), 1 := Response(0, [7])]);
            ValidJob(j) && !NeverMissesChunk(j)
  {
    var j := Job(Index(Layout(1, 1), [[7]]), (d: Buffer) => d, map[0 := Response(0, [7]), 1 := Response(0, [7])]);
    assert Passes(j, 0) && Passes(j, 1);
    assert Answers(j, 0, 0);
    SafeIff(j);
  }
}
