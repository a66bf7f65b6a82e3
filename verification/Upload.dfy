/** Upload completion: responses are stored concurrently, their blocks are marked, and the last mark concludes. */
module Upload {
  import opened Bytes
  import opened Wrappers
  import opened ChunkLayout
  import opened ConcurrentWriter
  import opened ChunkAssembly
  import opened BlockTable

  /** The index entry of the file: its layout and the hash of each block. */
  datatype Index = Index(layout: Layout, hashes: seq<Digest>)

  datatype Response = Response(block: nat, data: Buffer)

  /** What is fixed: the index, the hash function and the responses that arrive, by thread. */
  datatype Job = Job(index: Index, sha: Buffer -> Digest, responses: map<Tid, Response>)

  ghost predicate ValidJob(j: Job) {
    && ValidLayout(j.index.layout)
    && |j.index.hashes| == ChunkCount(j.index.layout)
    && DistinctHashes(j.index.hashes)
  }

  datatype Progress = Progress(
    w: State,
    stored: seq<bool>,
    marked: set<Tid>,
    reports: seq<Tid>,     // threads that were told AllBlocks
    concluded: set<Tid>)   // threads that have called consolidate

  function Start(j: Job): Progress
    requires j.index.layout.chunkSize > 0
  {
    Progress(Init(j.index.layout), seq(|j.index.hashes|, _ => false), {}, [], {})
  }

  datatype Action = Storage(e: Event) | Mark(t: Tid)

  /** A response is stored only if its data has the requested hash; only a thread told AllBlocks concludes. */
  ghost predicate Allowed(j: Job, s: Progress, e: Event) {
    match e
    case Begin(t, data, offset) =>
      && t in j.responses && j.responses[t].data == data
      && j.responses[t].block < |j.index.hashes|
      && offset == j.responses[t].block * j.index.layout.chunkSize
      && j.sha(data) == j.index.hashes[j.responses[t].block]
    case Enter(t) => t in s.reports && t !in s.concluded
    case _ => true
  }

  ghost predicate Possible(j: Job, s: Progress, a: Action)
    requires j.index.layout.chunkSize > 0
  {
    match a
    case Storage(e) => Allowed(j, s, e) && Enabled(j.index.layout, s.w, e)
    case Mark(t) =>
      && t in s.w.done && t in j.responses && t !in s.marked
      && j.responses[t].block < |j.index.hashes| == |s.stored|
  }

  ghost function After(j: Job, s: Progress, a: Action): Progress
    requires j.index.layout.chunkSize > 0 && Possible(j, s, a)
  {
    match a
    case Storage(e) =>
      s.(w := Apply(j.index.layout, s.w, e), concluded := if e.Enter? then s.concluded + {e.t} else s.concluded)
    case Mark(t) =>
      var stored := MarkHash(j.index.hashes, s.stored, j.index.hashes[j.responses[t].block]);
      var all := StatusOf(stored, ExpectedBlocks(j.index.layout.fileSize, j.index.layout.chunkSize)) == AllBlocks;
      s.(stored := stored, marked := s.marked + {t}, reports := if all then s.reports + [t] else s.reports)
  }

  /** Response t is accepted: it is for a block of the file, its data has the block's hash, and it fits. */
  ghost predicate Passes(j: Job, t: Tid) {
    && t in j.responses && j.responses[t].block < |j.index.hashes| && j.index.layout.chunkSize > 0
    && j.sha(j.responses[t].data) == j.index.hashes[j.responses[t].block]
    && CheckWrite(j.index.layout, |j.responses[t].data|, j.responses[t].block * j.index.layout.chunkSize) == None
  }

  /** Thread t carries response t, which is accepted: the chunk it writes is the block it was asked for. */
  ghost predicate Answers(j: Job, t: Tid, pos: nat) {
    Passes(j, t) && j.responses[t].block == pos
  }

  ghost predicate ThreadsAnswer(j: Job, w: State) {
    && (forall t :: t in w.writers ==> Answers(j, t, w.writers[t].pos) && w.writers[t].data == j.responses[t].data)
    && (forall t :: t in w.failed ==> Answers(j, t, w.failed[t]))
    && (forall t :: t in w.done ==> Answers(j, t, w.done[t]))
    && w.writers.Keys !! w.done.Keys && w.failed.Keys !! w.done.Keys
  }

  /** Every stored mark comes from a marked response for that very block. */
  ghost predicate MarksAnswered(j: Job, s: Progress) {
    && |s.stored| == |j.index.hashes|
    && s.marked <= s.w.done.Keys
    && (forall b: nat :: b < |s.stored| && s.stored[b] ==> exists t :: MarkedFor(j, s, t, b))
    && (forall t, b: nat :: MarkedFor(j, s, t, b) && b < |s.stored| ==> s.stored[b])
  }

  ghost predicate MarkedFor(j: Job, s: Progress, t: Tid, b: nat) {
    t in s.marked && t in j.responses && j.responses[t].block == b
  }

  ghost predicate BlockMarked(j: Job, s: Progress, b: nat) {
    exists t :: MarkedFor(j, s, t, b)
  }

  ghost predicate EveryBlockMarked(j: Job, s: Progress, n: nat) {
    forall b: nat :: b < n ==> BlockMarked(j, s, b)
  }

  ghost predicate Sound(j: Job, s: Progress) {
    ThreadsAnswer(j, s.w) && MarksAnswered(j, s) && (s.reports != [] ==> AllStored(s.stored))
  }

  /** Threads keep their chunk and data while they move from writing to done or failed. */
  ghost predicate Tracks(w: State, w': State) {
    && (forall t :: t in w'.writers ==>
          t in w.writers && w'.writers[t].pos == w.writers[t].pos && w'.writers[t].data == w.writers[t].data)
    && (forall t :: t in w'.failed ==>
          (t in w.failed && w'.failed[t] == w.failed[t]) || (t in w.writers && w'.failed[t] == w.writers[t].pos))
    && (forall t :: t in w'.done ==>
          (t in w.done && w'.done[t] == w.done[t]) || (t in w.writers && w'.done[t] == w.writers[t].pos))
    && w'.writers.Keys !! w'.done.Keys && w'.failed.Keys !! w'.done.Keys
  }

  lemma ProgressTracks(l: Layout, w: State, e: Event)
    requires l.chunkSize > 0 && Enabled(l, w, e)
    requires e.Raise? || e.Lower? || e.Open? || e.Resize? || e.Write?
    requires w.writers.Keys !! w.done.Keys && w.failed.Keys !! w.done.Keys
    ensures Tracks(w, Apply(l, w, e))
  {
    hide Overlay, Resized;
  }

  lemma FailureTracks(l: Layout, w: State, e: Event)
    requires l.chunkSize > 0 && Enabled(l, w, e)
    requires e.OpenFails? || e.WriteFails?
    requires w.writers.Keys !! w.done.Keys && w.failed.Keys !! w.done.Keys
    ensures Tracks(w, Apply(l, w, e))
  {
  }

  lemma EndTracks(l: Layout, w: State, e: Event)
    requires l.chunkSize > 0 && Enabled(l, w, e) && e.End?
    requires w.writers.Keys !! w.done.Keys && w.failed.Keys !! w.done.Keys && w.writers.Keys !! w.failed.Keys
    ensures Tracks(w, Apply(l, w, e))
  {
    hide Apply, Enabled;
    EndEffect(l, w, e.t);
  }

  lemma MergeTracks(l: Layout, w: State, e: Event)
    requires l.chunkSize > 0 && Enabled(l, w, e) && IsMergeEvent(e)
    requires w.writers.Keys !! w.done.Keys && w.failed.Keys !! w.done.Keys
    ensures Tracks(w, Apply(l, w, e))
  {
    hide Apply, Enabled;
    MergeLeaves(l, w, e);
  }

  lemma TracksAnswer(j: Job, w: State, w': State)
    requires ThreadsAnswer(j, w) && Tracks(w, w')
    ensures ThreadsAnswer(j, w')
  {
  }

  lemma BeginAnswers(j: Job, s: Progress, e: Event)
    requires ValidJob(j) && ThreadsAnswer(j, s.w) && Possible(j, s, Storage(e)) && e.Begin?
    ensures ThreadsAnswer(j, Apply(j.index.layout, s.w, e))
  {
    hide CheckWrite;
    assert Passes(j, e.t);
    hide Passes;
    OffsetBlock(j.responses[e.t].block, j.index.layout.chunkSize);
  }

  lemma StorageAnswers(j: Job, s: Progress, e: Event)
    requires ValidJob(j) && WellFormed(s.w) && ThreadsAnswer(j, s.w) && Possible(j, s, Storage(e))
    ensures ThreadsAnswer(j, Apply(j.index.layout, s.w, e))
  {
    hide Apply, Enabled, Answers, Tracks, Passes;
    var l := j.index.layout;
    if e.Begin? {
      BeginAnswers(j, s, e);
    } else if e.Raise? || e.Lower? || e.Open? || e.Resize? || e.Write? {
      ProgressTracks(l, s.w, e);
      TracksAnswer(j, s.w, Apply(l, s.w, e));
    } else if e.End? {
      EndTracks(l, s.w, e);
      TracksAnswer(j, s.w, Apply(l, s.w, e));
    } else if e.OpenFails? || e.WriteFails? {
      FailureTracks(l, s.w, e);
      TracksAnswer(j, s.w, Apply(l, s.w, e));
    } else {
      MergeTracks(l, s.w, e);
      TracksAnswer(j, s.w, Apply(l, s.w, e));
    }
  }

  lemma DoneGrows(l: Layout, w: State, e: Event)
    requires l.chunkSize > 0 && Enabled(l, w, e)
    ensures w.done.Keys <= Apply(l, w, e).done.Keys
  {
    hide Apply, Enabled;
    if IsMergeEvent(e) {
      MergeLeaves(l, w, e);
    } else if e.End? {
      EndEffect(l, w, e.t);
    } else {
      WriterLeaves(l, w, e);
    }
  }

  lemma MarksFrame(j: Job, s: Progress, s': Progress)
    requires MarksAnswered(j, s) && s'.stored == s.stored && s'.marked == s.marked
    requires s.w.done.Keys <= s'.w.done.Keys
    ensures MarksAnswered(j, s')
  {
    forall b: nat | b < |s.stored| && s.stored[b] ensures exists t :: MarkedFor(j, s', t, b) {
      var t :| MarkedFor(j, s, t, b);
      assert MarkedFor(j, s', t, b);
    }
    forall t, b: nat | MarkedFor(j, s', t, b) && b < |s'.stored| ensures s'.stored[b] {
      assert MarkedFor(j, s, t, b);
    }
  }

  lemma StorageSound(j: Job, s: Progress, e: Event)
    requires ValidJob(j) && WellFormed(s.w) && Sound(j, s) && Possible(j, s, Storage(e))
    ensures Sound(j, After(j, s, Storage(e)))
  {
    hide Apply, Enabled, Allowed, ThreadsAnswer, MarksAnswered;
    StorageAnswers(j, s, e);
    DoneGrows(j.index.layout, s.w, e);
    MarksFrame(j, s, After(j, s, Storage(e)));
  }

  lemma OffsetBlock(b: nat, c: nat)
    requires c > 0
    ensures b * c / c == b
  {
    var q, r := b * c / c, b * c % c;
    assert b * c == q * c + r;
    assert (b - q) * c == r;
    assert b - q >= 1 ==> (b - q) * c >= c;
  }

  lemma ExpectedIsChunkCount(l: Layout)
    requires ValidLayout(l)
    ensures ExpectedBlocks(l.fileSize, l.chunkSize) == ChunkCount(l)
  {
    Multiple(0, l.chunkSize, l.fileSize);
  }

  /** The mark reports AllBlocks exactly when the table is now full; it never counts too many. */
  lemma MarkReports(j: Job, s: Progress, t: Tid)
    requires ValidJob(j) && Possible(j, s, Mark(t))
    ensures var s' := After(j, s, Mark(t));
            && |s'.stored| == |s.stored|
            && (AllStored(s'.stored) ==> s'.reports == s.reports + [t])
            && (!AllStored(s'.stored) ==> s'.reports == s.reports)
            && StatusOf(s'.stored, ExpectedBlocks(j.index.layout.fileSize, j.index.layout.chunkSize)) != TooManyBlocks
  {
    ExpectedIsChunkCount(j.index.layout);
    CountsAll(After(j, s, Mark(t)).stored);
  }

  lemma MarkSound(j: Job, s: Progress, t: Tid)
    requires ValidJob(j) && Sound(j, s) && Possible(j, s, Mark(t))
    ensures Sound(j, After(j, s, Mark(t)))
  {
    MarkReports(j, s, t);
    var s' := After(j, s, Mark(t));
    var own := j.responses[t].block;
    forall b: nat | b < |s'.stored| && s'.stored[b] ensures exists u :: MarkedFor(j, s', u, b) {
      if s.stored[b] {
        var u :| MarkedFor(j, s, u, b);
        assert MarkedFor(j, s', u, b);
      } else {
        assert b == own;
        assert MarkedFor(j, s', t, b);
      }
    }
    forall u, b: nat | MarkedFor(j, s', u, b) && b < |s'.stored| ensures s'.stored[b] {
      assert u != t ==> MarkedFor(j, s, u, b);
    }
    if s.reports != [] {
      forall b | 0 <= b < |s'.stored| ensures s'.stored[b] {
        assert s.stored[b];
      }
    }
  }

  // ----- runs -----

  /** The progress that a list of actions leads to, if each was possible in turn. */
  ghost function Run(j: Job, acts: seq<Action>): Option<Progress>
    requires j.index.layout.chunkSize > 0
    decreases |acts|
  {
    if acts == [] then Some(Start(j))
    else
      match Run(j, acts[..|acts| - 1])
      case None => None
      case Some(s) => Step(j, s, acts[|acts| - 1])
  }

  ghost function Step(j: Job, s: Progress, a: Action): Option<Progress>
    requires j.index.layout.chunkSize > 0
  {
    if Possible(j, s, a) then Some(After(j, s, a)) else None
  }

  ghost predicate Holds(j: Job, s: Progress)
    requires j.index.layout.chunkSize > 0
  {
    Exclusive(j.index.layout, s.w) && Sound(j, s)
  }

  lemma StepHolds(j: Job, s: Progress, a: Action)
    requires ValidJob(j) && Holds(j, s) && Step(j, s, a).Some?
    ensures Holds(j, Step(j, s, a).value)
  {
    hide Sound, FlagsJustified, CounterExact, Enabled, Apply, Allowed, MarkHash;
    match a
    case Storage(e) =>
      StepExclusive(j.index.layout, s.w, e);
      StorageSound(j, s, e);
    case Mark(t) => MarkSound(j, s, t);
  }

  lemma StartHolds(j: Job)
    requires ValidJob(j)
    ensures Holds(j, Start(j))
  {
    InitExclusive(j.index.layout);
  }

  lemma {:induction false} AlwaysHolds(j: Job, acts: seq<Action>)
    requires ValidJob(j) && Run(j, acts).Some?
    ensures Holds(j, Run(j, acts).value)
    decreases |acts|
  {
    hide Holds, Step, Start;
    if acts == [] {
      StartHolds(j);
    } else {
      AlwaysHolds(j, acts[..|acts| - 1]);
      StepHolds(j, Run(j, acts[..|acts| - 1]).value, acts[|acts| - 1]);
    }
  }

  /** Some finished response wrote block b, and its data has the block's hash. */
  ghost predicate Written(j: Job, w: State, b: nat) {
    exists t :: t in w.done && w.done[t] == b && Answers(j, t, b)
  }

  lemma AllWritten(j: Job, s: Progress, b: nat)
    requires Sound(j, s) && AllStored(s.stored) && b < |j.index.hashes|
    ensures Written(j, s.w, b)
  {
    assert s.stored[b];
    var t :| MarkedFor(j, s, t, b);
    assert t in s.w.done && Answers(j, t, s.w.done[t]);
  }

  /**
   * Under every interleaving, with any failures and any number of responses per block: once
   * AllBlocks has been reported, every block has been written by a response with the right hash.
   */
  lemma ReportMeansWritten(j: Job, acts: seq<Action>, b: nat)
    requires ValidJob(j) && Run(j, acts).Some? && Run(j, acts).value.reports != []
    requires b < |j.index.hashes|
    ensures Written(j, Run(j, acts).value.w, b)
  {
    hide Run, Exclusive;
    AlwaysHolds(j, acts);
    AllWritten(j, Run(j, acts).value, b);
  }

  // ----- one accepted response per block -----

  /** There may be any number of other responses, which the hash check or the writer turns away. */
  ghost predicate OnePerBlock(j: Job) {
    forall t, u :: Passes(j, t) && Passes(j, u) && t != u ==> j.responses[t].block != j.responses[u].block
  }

  ghost predicate HasAnswer(j: Job, b: nat) {
    exists t :: Answers(j, t, b)
  }

  /** The data of an accepted response for block b, or a filler if there is none. */
  ghost function WantAt(j: Job, b: nat): (d: Buffer)
    ensures HasAnswer(j, b) ==> exists t :: Answers(j, t, b) && d == j.responses[t].data
    ensures !HasAnswer(j, b) ==> d == Zeros(j.index.layout.chunkSize)
  {
    if HasAnswer(j, b) then
      var t :| Answers(j, t, b);
      j.responses[t].data
    else Zeros(j.index.layout.chunkSize)
  }

  /** The content that each chunk can only have. */
  ghost function Want(j: Job): (want: seq<Buffer>)
    ensures |want| == |j.index.hashes| && forall b :: 0 <= b < |want| ==> want[b] == WantAt(j, b)
  {
    seq(|j.index.hashes|, b => if b < 0 then [] else WantAt(j, b))
  }

  lemma WantIsComplete(j: Job)
    requires ValidJob(j)
    ensures Complete(j.index.layout, Want(j))
  {
    hide CheckWrite, Want, WantAt;
    forall b | 0 <= b < |Want(j)| ensures Fits(j.index.layout, b, |Want(j)[b]|) {
      WantFits(j, b);
    }
  }

  lemma WantFits(j: Job, b: nat)
    requires ValidJob(j) && b < |j.index.hashes|
    ensures Fits(j.index.layout, b, |WantAt(j, b)|)
  {
    hide CheckWrite, WantAt;
    var l := j.index.layout;
    if HasAnswer(j, b) {
      var t :| Answers(j, t, b) && WantAt(j, b) == j.responses[t].data;
      AcceptedFits(l, |WantAt(j, b)|, b * l.chunkSize);
      OffsetBlock(b, l.chunkSize);
    }
  }

  lemma WantIsAnswer(j: Job, t: Tid)
    requires OnePerBlock(j) && Passes(j, t)
    ensures WantAt(j, j.responses[t].block) == j.responses[t].data
  {
    hide Passes;
    PassesRange(j, t);
    assert Answers(j, t, j.responses[t].block);
  }

  /** With every block stored, every accepted response has been marked, so its thread is done. */
  lemma AllMarked(j: Job, s: Progress, t: Tid)
    requires OnePerBlock(j) && Sound(j, s) && AllStored(s.stored) && Passes(j, t)
    ensures t in s.marked && t in s.w.done
  {
    hide Passes;
    PassesRange(j, t);
    var b := j.responses[t].block;
    assert s.stored[b];
    var u :| MarkedFor(j, s, u, b);
    assert Answers(j, u, s.w.done[u]);
    assert u == t;
  }

  lemma PassesRange(j: Job, t: Tid)
    requires Passes(j, t)
    ensures t in j.responses && j.responses[t].block < |j.index.hashes|
  {
  }

  /** When AllBlocks has been reported nothing is in flight, and nothing has failed. */
  lemma NothingInFlight(j: Job, s: Progress)
    requires OnePerBlock(j) && Sound(j, s) && AllStored(s.stored)
    ensures s.w.writers == map[] && s.w.failed == map[]
  {
    hide Passes, OnePerBlock;
    forall t ensures t !in s.w.writers && t !in s.w.failed {
      if t in s.w.writers {
        assert Answers(j, t, s.w.writers[t].pos);
        AllMarked(j, s, t);
      } else if t in s.w.failed {
        assert Answers(j, t, s.w.failed[t]);
        AllMarked(j, s, t);
      }
    }
  }

  ghost predicate ReportedOnce(j: Job, s: Progress) {
    && |s.reports| <= 1
    && (AllStored(s.stored) ==> s.reports != [])
  }

  /** One consolidation at most, and once it has returned nothing disturbs the file. */
  ghost predicate ConcludedOnce(s: Progress) {
    && (forall t :: t in s.concluded ==> t in s.reports)
    && (s.concluded == {} ==> s.w.merges == map[] && s.w.merged == 0 && s.w.mode.WritingChunks?)
    && (s.w.merged > 0 ==> s.w.mode.WritingChunks? && s.w.merges == map[])
  }

  ghost predicate Once(j: Job, s: Progress) {
    ReportedOnce(j, s) && ConcludedOnce(s)
  }

  lemma MarkOnce(j: Job, s: Progress, t: Tid)
    requires ValidJob(j) && OnePerBlock(j) && Sound(j, s) && Once(j, s) && Possible(j, s, Mark(t))
    ensures Once(j, After(j, s, Mark(t)))
  {
    hide OnePerBlock, Passes;
    MarkReports(j, s, t);
    if s.reports != [] {
      assert Answers(j, t, s.w.done[t]);
      AllMarked(j, s, t);
      assert false;
    }
  }

  /** Writing does not start or end a consolidation. */
  lemma WritersLeaveMerges(l: Layout, w: State, e: Event)
    requires l.chunkSize > 0 && Enabled(l, w, e) && CounterExact(w) && !IsMergeEvent(e)
    ensures var w' := Apply(l, w, e);
            w'.merges == w.merges && w'.merged == w.merged && w'.mode.WritingChunks? == w.mode.WritingChunks?
  {
    WriterLeaves(l, w, e);
    ConsolidatingExcludes(l, w, e);
    hide Apply, Enabled, CounterExact;
  }

  lemma ConsolidatingExcludes(l: Layout, w: State, e: Event)
    requires l.chunkSize > 0 && Enabled(l, w, e) && CounterExact(w) && !IsMergeEvent(e)
    ensures w.mode.WritingChunks?
  {
    hide CheckWrite;
  }

  lemma EnterOnce(j: Job, s: Progress, e: Event)
    requires ValidJob(j) && Once(j, s) && Possible(j, s, Storage(e)) && e.Enter?
    ensures Once(j, After(j, s, Storage(e)))
  {
    hide AllStored;
    forall t ensures t !in s.concluded {
      assert t in s.concluded ==> t in s.reports;
    }
  }

  lemma MergeOnce(j: Job, s: Progress, e: Event)
    requires ValidJob(j) && CounterExact(s.w) && Once(j, s) && Possible(j, s, Storage(e))
    requires e.Check? || e.Copy?
    ensures Once(j, After(j, s, Storage(e)))
  {
    hide AllStored, Apply, Enabled, CounterExact;
    MergeGoesOn(j.index.layout, s.w, e);
  }

  lemma MergeGoesOn(l: Layout, w: State, e: Event)
    requires l.chunkSize > 0 && Enabled(l, w, e) && (e.Check? || e.Copy?)
    ensures var w' := Apply(l, w, e);
            w'.merged == w.merged && w'.mode == w.mode && w'.merges != map[] && w.merges != map[]
  {
    hide Overlay;
    assert e.t in Apply(l, w, e).merges;
  }

  lemma MergeEndOnce(j: Job, s: Progress, e: Event)
    requires ValidJob(j) && CounterExact(s.w) && Once(j, s) && Possible(j, s, Storage(e))
    requires e.CopyFails? || e.MergeFails? || e.Leave?
    ensures Once(j, After(j, s, Storage(e)))
  {
    hide AllStored;
    RemoveSize(s.w.merges, e.t);
  }

  lemma StorageOnce(j: Job, s: Progress, e: Event)
    requires ValidJob(j) && CounterExact(s.w) && Once(j, s) && Possible(j, s, Storage(e))
    ensures Once(j, After(j, s, Storage(e)))
  {
    hide AllStored, Enabled, Apply, CounterExact;
    if e.Enter? {
      EnterOnce(j, s, e);
    } else if e.Check? || e.Copy? {
      MergeOnce(j, s, e);
    } else if e.CopyFails? || e.MergeFails? || e.Leave? {
      MergeEndOnce(j, s, e);
    } else {
      WritersLeaveMerges(j.index.layout, s.w, e);
    }
  }

  /** Everything that holds in a run with one accepted response per block. */
  ghost predicate HoldsOnce(j: Job, s: Progress)
    requires j.index.layout.chunkSize > 0
  {
    Holds(j, s) && Once(j, s) && Assembling(s.w, Want(j))
  }

  /** What gets through the checks is the content that its chunk should have. */
  lemma StorageBrings(j: Job, s: Progress, e: Event)
    requires ValidJob(j) && OnePerBlock(j) && Possible(j, s, Storage(e))
    ensures Brings(j.index.layout, Want(j), e)
  {
    hide CheckWrite, OnePerBlock, Want, WantAt;
    if e.Begin? {
      OffsetBlock(j.responses[e.t].block, j.index.layout.chunkSize);
      WantIsAnswer(j, e.t);
    }
  }

  lemma ExclusiveCounts(l: Layout, w: State)
    requires l.chunkSize > 0 && Exclusive(l, w)
    ensures CounterExact(w)
  {
  }

  lemma StepHoldsOnce(j: Job, s: Progress, a: Action)
    requires ValidJob(j) && OnePerBlock(j) && HoldsOnce(j, s) && Step(j, s, a).Some?
    ensures HoldsOnce(j, Step(j, s, a).value)
  {
    hide Exclusive, Sound, Once, Assembling, Apply, Enabled, Allowed, MarkHash, Brings, OnePerBlock, Want;
    StepHolds(j, s, a);
    match a
    case Storage(e) =>
      ExclusiveCounts(j.index.layout, s.w);
      StorageOnce(j, s, e);
      StorageBrings(j, s, e);
      WantIsComplete(j);
      StepAssembles(j.index.layout, s.w, Want(j), e);
    case Mark(t) => MarkOnce(j, s, t);
  }

  lemma StartHoldsOnce(j: Job)
    requires ValidJob(j)
    ensures HoldsOnce(j, Start(j))
  {
    hide Want;
    StartHolds(j);
    WantIsComplete(j);
    InitAssembles(j.index.layout, Want(j));
    ExpectedIsChunkCount(j.index.layout);
    assert !Start(j).stored[0];
  }

  lemma {:induction false} AlwaysHoldsOnce(j: Job, acts: seq<Action>)
    requires ValidJob(j) && OnePerBlock(j) && Run(j, acts).Some?
    ensures HoldsOnce(j, Run(j, acts).value)
    decreases |acts|
  {
    hide HoldsOnce, Step, Start, OnePerBlock;
    if acts == [] {
      StartHoldsOnce(j);
    } else {
      AlwaysHoldsOnce(j, acts[..|acts| - 1]);
      StepHoldsOnce(j, Run(j, acts[..|acts| - 1]).value, acts[|acts| - 1]);
    }
  }

  /**
   * With one accepted response per block: AllBlocks is reported at most once, and exactly once when
   * every block has been marked; then no write is in flight and none has failed.
   */
  lemma ReportedExactlyOnce(j: Job, acts: seq<Action>)
    requires ValidJob(j) && OnePerBlock(j) && Run(j, acts).Some?
    ensures var s := Run(j, acts).value;
            && |s.reports| <= 1
            && (s.reports != [] ==> s.w.writers == map[] && s.w.failed == map[])
            && (|s.reports| == 1 <==> EveryBlockMarked(j, s, |j.index.hashes|))
  {
    hide Run, Exclusive, Assembling, ConcludedOnce, OnePerBlock, ThreadsAnswer;
    AlwaysHoldsOnce(j, acts);
    var s := Run(j, acts).value;
    if s.reports != [] {
      NothingInFlight(j, s);
      forall b: nat | b < |s.stored| ensures BlockMarked(j, s, b) {
        assert s.stored[b];
      }
    }
    if EveryBlockMarked(j, s, |j.index.hashes|) {
      forall b | 0 <= b < |s.stored| ensures s.stored[b] {
        assert BlockMarked(j, s, b);
      }
    }
  }

  /** Once a consolidation has been called for, every block has its accepted response. */
  lemma ConcludedIsWritten(j: Job, s: Progress, b: nat)
    requires Sound(j, s) && Once(j, s) && s.concluded != {} && b < |j.index.hashes|
    ensures AllStored(s.stored) && Written(j, s.w, b) && HasAnswer(j, b)
  {
    hide Passes, ThreadsAnswer, MarksAnswered;
    var c :| c in s.concluded;
    assert c in s.reports;
    AllWritten(j, s, b);
  }

  /** The concluding consolidation never meets a missing chunk. */
  lemma ConclusionFindsEveryChunk(j: Job, acts: seq<Action>, t: Tid)
    requires ValidJob(j) && OnePerBlock(j) && Run(j, acts).Some?
    requires var w := Run(j, acts).value.w;
             t in w.merges && w.merges[t].Copying? && w.merges[t].next < |j.index.hashes|
    ensures Enabled(j.index.layout, Run(j, acts).value.w, Copy(t))
  {
    hide Run, ChunksSettled, FlagsJustified, MergeRight, FileRight, WritersFit, ThreadsAnswer, MarksAnswered;
    hide OnePerBlock, Passes, Want;
    AlwaysHoldsOnce(j, acts);
    var s := Run(j, acts).value;
    OnlyMerge(s.w.merges, t);
    var i := s.w.merges[t].next;
    assert s.concluded != {};
    ConcludedIsWritten(j, s, i);
    var u :| u in s.w.done && s.w.done[u] == i && Answers(j, u, i);
    assert StillToCopy(s.w, s.w.done[u]);
  }

  /** The bounds of block b in a file of this length: a chunk, or what is left of the file. */
  function BlockEnd(j: Job, b: nat, len: nat): nat {
    if b + 1 < |j.index.hashes| then (b + 1) * j.index.layout.chunkSize else len
  }

  /**
   * After the conclusion, and for good, each chunk-size slice of the file has the hash that the
   * index gives for its block.
   */
  lemma ConcludedFileMatchesIndex(j: Job, acts: seq<Action>, b: nat)
    requires ValidJob(j) && OnePerBlock(j) && Run(j, acts).Some?
    requires Run(j, acts).value.w.merged > 0 && b < |j.index.hashes|
    ensures Run(j, acts).value.w.file.Some?
    ensures var file := Run(j, acts).value.w.file.value;
            var from, to := b * j.index.layout.chunkSize, BlockEnd(j, b, |file|);
            from <= to <= |file| && j.sha(file[from..to]) == j.index.hashes[b]
  {
    hide Run, Exclusive, Sound, ReportedOnce, ChunksSettled, MergeRight, WritersFit, DoneKept, OnePerBlock, Want;
    hide CheckWrite, WantAt, ChunkCount;
    AlwaysHoldsOnce(j, acts);
    var s := Run(j, acts).value;
    assert s.concluded != {};
    ConcludedIsWritten(j, s, b);
    WantIsComplete(j);
    WantSlice(j, b);
  }

  lemma WantSlice(j: Job, b: nat)
    requires ValidJob(j) && Complete(j.index.layout, Want(j)) && b < |j.index.hashes| && HasAnswer(j, b)
    ensures var file := Flatten(Want(j));
            var from, to := b * j.index.layout.chunkSize, BlockEnd(j, b, |file|);
            from <= to <= |file| && j.sha(file[from..to]) == j.index.hashes[b]
  {
    hide Want, CheckWrite, WantAt;
    var want, l := Want(j), j.index.layout;
    SliceIsPiece(l, want, b);
    assert Fits(l, b, |want[b]|);
    var t :| Answers(j, t, b) && WantAt(j, b) == j.responses[t].data;
    assert (b + 1) * l.chunkSize == b * l.chunkSize + l.chunkSize;
  }
}
