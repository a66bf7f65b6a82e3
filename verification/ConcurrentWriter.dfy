/**
 * The chunk writer as a state machine: any number of writers and consolidators, interleaved at
 * every lock, flag and file operation, each of which may also fail.
 */
module ConcurrentWriter {
  import opened Bytes
  import opened Wrappers
  import opened ChunkLayout

  type Tid = nat

  /** The mutex-guarded state. */
  datatype Mode = WritingChunks(n: nat) | Consolidating

  /** How far a write that has been counted in has come. */
  datatype Stage = Started | Flagged | Opened | Sized(written: nat) | Cleared

  datatype Writer = Writer(pos: nat, data: Buffer, stage: Stage)

  /** A consolidation: the lock is taken, then chunks are copied, or all of it is skipped. */
  datatype Merge = Entered | Copying(next: nat) | Skipped

  datatype State = State(
    mode: Mode,
    flags: seq<bool>,
    writers: map<Tid, Writer>,   // counted in and not yet counted out
    failed: map<Tid, nat>,       // gave up without being counted out, with their chunk
    done: map<Tid, nat>,         // finished, with their chunk
    merges: map<Tid, Merge>,     // consolidations that are running
    merged: nat,                 // consolidations that returned Ok
    chunks: map<nat, Buffer>,    // chunk files on disk
    file: Option<Buffer>,        // the consolidated file
    impossible: bool)            // a counter underflow or the "should never happen" branch

  function Init(l: Layout): State
    requires l.chunkSize > 0
  {
    State(WritingChunks(0), seq(ChunkCount(l), _ => false), map[], map[], map[], map[], 0, map[], None, false)
  }

  datatype Event =
    | Begin(t: Tid, data: Buffer, offset: nat)
    | Raise(t: Tid)
    | Open(t: Tid)
    | OpenFails(t: Tid)
    | Resize(t: Tid)
    | Write(t: Tid, n: nat)
    | WriteFails(t: Tid)
    | Lower(t: Tid)
    | End(t: Tid)
    | Enter(t: Tid)
    | Check(t: Tid)
    | Copy(t: Tid)
    | CopyFails(t: Tid, n: nat)
    | MergeFails(t: Tid)
    | Leave(t: Tid)

  predicate AtStage(s: State, t: Tid, stage: Stage) {
    t in s.writers && s.writers[t].stage == stage && s.writers[t].pos < |s.flags|
  }

  predicate IsWriting(s: State, t: Tid) {
    t in s.writers && s.writers[t].stage.Sized? && s.writers[t].pos < |s.flags|
  }

  predicate Enabled(l: Layout, s: State, e: Event)
    requires l.chunkSize > 0
  {
    match e
    case Begin(t, data, offset) =>
      && t !in s.writers && t !in s.failed && t !in s.done
      && CheckWrite(l, |data|, offset) == None && s.mode.WritingChunks?
    case Raise(t) => AtStage(s, t, Started)
    case Open(t) => AtStage(s, t, Flagged)
    case OpenFails(t) => AtStage(s, t, Flagged)
    case Resize(t) => AtStage(s, t, Opened)
    case Write(t, n) => IsWriting(s, t) && 0 < n && s.writers[t].stage.written + n <= |s.writers[t].data|
    case WriteFails(t) => AtStage(s, t, Opened) || IsWriting(s, t)
    case Lower(t) => IsWriting(s, t) && s.writers[t].stage.written == |s.writers[t].data|
    case End(t) => AtStage(s, t, Cleared)
    case Enter(t) => t !in s.merges && s.mode == WritingChunks(0)
    case Check(t) => t in s.merges && s.merges[t] == Entered
    case Copy(t) =>
      && t in s.merges && s.merges[t].Copying?
      && s.merges[t].next < |s.flags| && s.merges[t].next in s.chunks
    case CopyFails(t, n) =>
      && t in s.merges && s.merges[t].Copying?
      && s.merges[t].next < |s.flags| && s.merges[t].next in s.chunks && n <= |s.chunks[s.merges[t].next]|
    case MergeFails(t) => t in s.merges
    case Leave(t) => t in s.merges && (s.merges[t].Skipped? || s.merges[t] == Copying(|s.flags|))
  }

  // ----- file contents -----

  function Zeros(n: nat): Buffer {
    seq(n, _ => 0)
  }

  function Resized(b: Buffer, n: nat): (r: Buffer)
    ensures |r| == n
    ensures forall i :: 0 <= i < n ==> r[i] == if i < |b| then b[i] else 0
  {
    if |b| < n then b + Zeros(n - |b|) else b[..n]
  }

  /** Writing d at a position, with zeros in a hole before it. */
  function Overlay(b: Buffer, at: nat, d: Buffer): (r: Buffer)
    ensures |r| == if |b| < at + |d| then at + |d| else |b|
    ensures forall i :: 0 <= i < |r| ==>
              r[i] == if at <= i < at + |d| then d[i - at] else if i < |b| then b[i] else 0
  {
    var base := if |b| < at then Resized(b, at) else b;
    base[..at] + d + if at + |d| < |base| then base[at + |d|..] else []
  }

  function Content(s: State, pos: nat): Buffer {
    if pos in s.chunks then s.chunks[pos] else []
  }

  /** Chunks 0 to i - 1 written one after the other at their offsets. */
  function Assembled(l: Layout, chunks: map<nat, Buffer>, i: nat): Buffer
    requires forall p :: 0 <= p < i ==> p in chunks
  {
    if i == 0 then []
    else Overlay(Assembled(l, chunks, i - 1), (i - 1) * l.chunkSize, chunks[i - 1])
  }

  predicate HasChunks(chunks: map<nat, Buffer>, n: nat) {
    forall p :: 0 <= p < n ==> p in chunks
  }

  function Without(chunks: map<nat, Buffer>, n: nat): map<nat, Buffer> {
    map p | p in chunks && p >= n :: chunks[p]
  }

  // ----- the effect of an event -----

  function To(s: State, t: Tid, stage: Stage): State
    requires t in s.writers
  {
    s.(writers := s.writers[t := s.writers[t].(stage := stage)])
  }

  function WithFlag(s: State, pos: nat, b: bool): State
    requires pos < |s.flags|
  {
    s.(flags := s.flags[pos := b])
  }

  function WithChunk(s: State, pos: nat, b: Buffer): State {
    s.(chunks := s.chunks[pos := b])
  }

  function Fail(s: State, t: Tid): State
    requires t in s.writers
  {
    s.(writers := s.writers - {t}, failed := s.failed[t := s.writers[t].pos])
  }

  /** The second lock of a write: the counter goes down, unless the branch that should never happen is taken. */
  function CountOut(s: State, t: Tid): State
    requires t in s.writers
  {
    var out := s.(writers := s.writers - {t}, done := s.done[t := s.writers[t].pos]);
    match s.mode
    case Consolidating => out.(impossible := true)
    case WritingChunks(n) =>
      if n == 0 then out.(impossible := true) else out.(mode := WritingChunks(n - 1))
  }

  /** With a flag up nothing is copied; otherwise the file is emptied first. */
  function Checked(s: State, t: Tid): State {
    if true in s.flags then s.(merges := s.merges[t := Skipped])
    else s.(merges := s.merges[t := Copying(0)], file := Some([]))
  }

  function Apply(l: Layout, s: State, e: Event): State
    requires l.chunkSize > 0 && Enabled(l, s, e)
  {
    match e
    case Begin(t, data, offset) =>
      s.(mode := WritingChunks(s.mode.n + 1), writers := s.writers[t := Writer(offset / l.chunkSize, data, Started)])
    case Raise(t) => WithFlag(To(s, t, Flagged), s.writers[t].pos, true)
    case Open(t) => WithChunk(To(s, t, Opened), s.writers[t].pos, [])
    case OpenFails(t) => WithFlag(Fail(s, t), s.writers[t].pos, false)
    case Resize(t) =>
      var w := s.writers[t];
      WithChunk(To(s, t, Sized(0)), w.pos, Resized(Content(s, w.pos), |w.data|))
    case Write(t, n) =>
      var w := s.writers[t];
      var at := w.stage.written;
      WithChunk(To(s, t, Sized(at + n)), w.pos, Overlay(Content(s, w.pos), at, w.data[at..at + n]))
    case WriteFails(t) => Fail(s, t)
    case Lower(t) => WithFlag(To(s, t, Cleared), s.writers[t].pos, false)
    case End(t) => CountOut(s, t)
    case Enter(t) => s.(mode := Consolidating, merges := s.merges[t := Entered])
    case Check(t) => Checked(s, t)
    case Copy(t) =>
      var i := s.merges[t].next;
      var whole := if s.file.Some? then s.file.value else [];
      s.(merges := s.merges[t := Copying(i + 1)],
         chunks := s.chunks - {i},
         file := Some(Overlay(whole, i * l.chunkSize, s.chunks[i])))
    case CopyFails(t, n) =>
      var i := s.merges[t].next;
      var whole := if s.file.Some? then s.file.value else [];
      s.(merges := s.merges - {t}, file := Some(Overlay(whole, i * l.chunkSize, s.chunks[i][..n])))
    case MergeFails(t) => s.(merges := s.merges - {t})
    case Leave(t) => s.(mode := WritingChunks(0), merges := s.merges - {t}, merged := s.merged + 1)
  }

  // ----- what events leave alone -----

  predicate IsMergeEvent(e: Event) {
    e.Enter? || e.Check? || e.Copy? || e.CopyFails? || e.MergeFails? || e.Leave?
  }

  lemma CheckLeaves(l: Layout, s: State, t: Tid)
    requires l.chunkSize > 0 && Enabled(l, s, Check(t))
    ensures var s' := Apply(l, s, Check(t));
            && s'.writers == s.writers && s'.failed == s.failed && s'.done == s.done && s'.flags == s.flags
            && s'.merges.Keys == s.merges.Keys
  {
    assert Apply(l, s, Check(t)) == Checked(s, t) && t in s.merges;
    hide Apply, Enabled;
    CheckedKeys(s, t);
  }

  lemma CheckedKeys(s: State, t: Tid)
    requires t in s.merges
    ensures Checked(s, t).merges.Keys == s.merges.Keys
  {
  }

  lemma CopyLeaves(l: Layout, s: State, t: Tid)
    requires l.chunkSize > 0 && Enabled(l, s, Copy(t))
    ensures var s' := Apply(l, s, Copy(t));
            && s'.writers == s.writers && s'.failed == s.failed && s'.done == s.done && s'.flags == s.flags
            && s'.merges.Keys == s.merges.Keys
  {
    hide Overlay;
  }

  /** Consolidations never touch the writers. */
  lemma MergeLeaves(l: Layout, s: State, e: Event)
    requires l.chunkSize > 0 && Enabled(l, s, e) && IsMergeEvent(e)
    ensures var s' := Apply(l, s, e);
            && s'.writers == s.writers && s'.failed == s.failed && s'.done == s.done && s'.flags == s.flags
            && s'.merges.Keys <= s.merges.Keys + (if e.Enter? then {e.t} else {})
  {
    hide Overlay;
    if e.Check? {
      CheckLeaves(l, s, e.t);
    } else if e.Copy? {
      CopyLeaves(l, s, e.t);
    }
  }

  /** Writers never touch what consolidations see. */
  lemma WriterLeaves(l: Layout, s: State, e: Event)
    requires l.chunkSize > 0 && Enabled(l, s, e) && !IsMergeEvent(e)
    ensures var s' := Apply(l, s, e);
            && s'.merges == s.merges && s'.merged == s.merged && s'.file == s.file
            && (s'.mode.WritingChunks? || s'.mode == s.mode)
            && (!e.End? ==> s'.done == s.done)
  {
    hide Overlay, Resized, CheckWrite;
  }

  lemma EndEffect(l: Layout, s: State, t: Tid)
    requires l.chunkSize > 0 && Enabled(l, s, End(t))
    ensures t in s.writers
    ensures var s' := Apply(l, s, End(t));
            && s'.writers == s.writers - {t} && s'.done == s.done[t := s.writers[t].pos] && s'.failed == s.failed
  {
  }

  // ----- mutual exclusion -----

  /** t is why the flag of chunk pos may be up. */
  ghost predicate HoldsFlag(s: State, t: Tid, pos: nat) {
    || (t in s.writers && s.writers[t].pos == pos && !s.writers[t].stage.Started? && !s.writers[t].stage.Cleared?)
    || (t in s.failed && s.failed[t] == pos)
  }

  ghost predicate FlagsJustified(s: State) {
    forall p :: 0 <= p < |s.flags| && s.flags[p] ==> exists t :: HoldsFlag(s, t, p)
  }

  /** The counter counts exactly the writes in flight and those that failed without being counted out. */
  ghost predicate CounterExact(s: State) {
    match s.mode
    case WritingChunks(n) => n == |s.writers| + |s.failed| && s.merges == map[]
    case Consolidating => s.writers == map[] && s.failed == map[] && |s.merges| <= 1
  }

  ghost predicate WellFormed(s: State) {
    && s.writers.Keys !! s.failed.Keys
    && (forall t :: t in s.writers ==>
          s.writers[t].pos < |s.flags|
          && (s.writers[t].stage.Sized? ==> s.writers[t].stage.written <= |s.writers[t].data|))
    && (forall t :: t in s.merges ==>
          !s.merges[t].Skipped? && (s.merges[t].Copying? ==> s.merges[t].next <= |s.flags|))
  }

  ghost predicate Exclusive(l: Layout, s: State)
    requires l.chunkSize > 0
  {
    && |s.flags| == ChunkCount(l)
    && WellFormed(s) && CounterExact(s) && FlagsJustified(s) && !s.impossible
  }

  lemma InsertSize<V>(m: map<Tid, V>, t: Tid, v: V)
    ensures |m[t := v]| == if t in m then |m| else |m| + 1
  {
    assert m[t := v].Keys == m.Keys + {t};
  }

  lemma RemoveSize<V>(m: map<Tid, V>, t: Tid)
    requires t in m
    ensures |m - {t}| == |m| - 1
    ensures |m| <= 1 ==> m - {t} == map[]
  {
    assert (m - {t}).Keys == m.Keys - {t};
  }

  /** A step of one writer leaves every other flag's reason in place. */
  lemma FlagsStep(s: State, s': State, t: Tid, pos: nat)
    requires FlagsJustified(s) && t in s.writers && s.writers[t].pos == pos && |s'.flags| == |s.flags|
    requires forall u :: u != t ==> (u in s.writers ==> u in s'.writers && s'.writers[u] == s.writers[u])
    requires forall u :: u in s.failed ==> u in s'.failed && s'.failed[u] == s.failed[u]
    requires forall p :: 0 <= p < |s.flags| && p != pos ==> s'.flags[p] == s.flags[p]
    requires pos < |s'.flags| && s'.flags[pos] ==> HoldsFlag(s', t, pos)
    ensures FlagsJustified(s')
  {
    forall p | 0 <= p < |s'.flags| && s'.flags[p] ensures exists u :: HoldsFlag(s', u, p) {
      if p == pos {
        assert HoldsFlag(s', t, p);
      } else {
        var u :| HoldsFlag(s, u, p);
        assert HoldsFlag(s', u, p);
      }
    }
  }

  /** With nothing in flight and nothing failed, no flag is up: the second check is redundant. */
  lemma NoFlagsWhenIdle(s: State)
    requires FlagsJustified(s) && s.writers == map[] && s.failed == map[]
    ensures true !in s.flags
  {
    forall p | 0 <= p < |s.flags| ensures !s.flags[p] {
      assert forall u :: !HoldsFlag(s, u, p);
    }
  }

  lemma SameFlags(s: State, s': State)
    requires FlagsJustified(s) && s'.flags == s.flags && s'.failed == s.failed
    requires forall u :: u in s.writers ==> u in s'.writers && s'.writers[u] == s.writers[u]
    ensures FlagsJustified(s')
  {
    forall p | 0 <= p < |s'.flags| && s'.flags[p] ensures exists u :: HoldsFlag(s', u, p) {
      var u :| HoldsFlag(s, u, p);
      assert HoldsFlag(s', u, p);
    }
  }

  lemma BeginExclusive(l: Layout, s: State, e: Event)
    requires l.chunkSize > 0 && Exclusive(l, s) && e.Begin? && Enabled(l, s, e)
    ensures Exclusive(l, Apply(l, s, e))
  {
    AcceptedFits(l, |e.data|, e.offset);
    InsertSize(s.writers, e.t, Writer(e.offset / l.chunkSize, e.data, Started));
    SameFlags(s, Apply(l, s, e));
  }

  /** What a writer does to its flag while it is counted in. */
  lemma FlagExclusive(l: Layout, s: State, e: Event)
    requires l.chunkSize > 0 && Exclusive(l, s) && Enabled(l, s, e)
    requires e.Raise? || e.Lower?
    ensures Exclusive(l, Apply(l, s, e))
  {
    var s' := Apply(l, s, e);
    InsertSize(s.writers, e.t, s'.writers[e.t]);
    FlagsStep(s, s', e.t, s.writers[e.t].pos);
  }

  /** What a writer does to its chunk file while it is counted in. */
  lemma DiskExclusive(l: Layout, s: State, e: Event)
    requires l.chunkSize > 0 && Exclusive(l, s) && Enabled(l, s, e)
    requires e.Open? || e.Resize? || e.Write?
    ensures Exclusive(l, Apply(l, s, e))
  {
    var s' := Apply(l, s, e);
    InsertSize(s.writers, e.t, s'.writers[e.t]);
    FlagsStep(s, s', e.t, s.writers[e.t].pos);
  }

  lemma FailureExclusive(l: Layout, s: State, e: Event)
    requires l.chunkSize > 0 && Exclusive(l, s) && Enabled(l, s, e)
    requires e.OpenFails? || e.WriteFails?
    ensures Exclusive(l, Apply(l, s, e))
  {
    RemoveSize(s.writers, e.t);
    InsertSize(s.failed, e.t, s.writers[e.t].pos);
    FlagsStep(s, Apply(l, s, e), e.t, s.writers[e.t].pos);
  }

  lemma EndExclusive(l: Layout, s: State, e: Event)
    requires l.chunkSize > 0 && Exclusive(l, s) && e.End? && Enabled(l, s, e)
    ensures Exclusive(l, Apply(l, s, e))
  {
    RemoveSize(s.writers, e.t);
    FlagsAfterEnd(s, Apply(l, s, e), e.t);
  }

  lemma FlagsAfterEnd(s: State, s': State, t: Tid)
    requires FlagsJustified(s) && AtStage(s, t, Cleared)
    requires s'.writers == s.writers - {t} && s'.failed == s.failed && s'.flags == s.flags
    ensures FlagsJustified(s')
  {
    forall p | 0 <= p < |s'.flags| && s'.flags[p] ensures exists u :: HoldsFlag(s', u, p) {
      var u :| HoldsFlag(s, u, p);
      assert HoldsFlag(s', u, p);
    }
  }

  lemma EnterExclusive(l: Layout, s: State, e: Event)
    requires l.chunkSize > 0 && Exclusive(l, s) && Enabled(l, s, e) && e.Enter?
    ensures Exclusive(l, Apply(l, s, e))
  {
    assert |s.writers| == 0 && |s.failed| == 0;
    InsertSize(s.merges, e.t, Entered);
    SameFlags(s, Apply(l, s, e));
  }

  lemma MergeExclusive(l: Layout, s: State, e: Event)
    requires l.chunkSize > 0 && Exclusive(l, s) && Enabled(l, s, e)
    requires e.Check? || e.Copy?
    ensures Exclusive(l, Apply(l, s, e))
  {
    NoFlagsWhenIdle(s);
    var s' := Apply(l, s, e);
    InsertSize(s.merges, e.t, s'.merges[e.t]);
    SameFlags(s, s');
  }

  lemma MergeEndExclusive(l: Layout, s: State, e: Event)
    requires l.chunkSize > 0 && Exclusive(l, s) && Enabled(l, s, e)
    requires e.CopyFails? || e.MergeFails? || e.Leave?
    ensures Exclusive(l, Apply(l, s, e))
  {
    RemoveSize(s.merges, e.t);
    SameFlags(s, Apply(l, s, e));
  }

  /**
   * Every event keeps mutual exclusion: the counter is exact, consolidating excludes writes in
   * flight and other consolidations, and the branch that should never happen is not taken.
   */
  lemma StepExclusive(l: Layout, s: State, e: Event)
    requires l.chunkSize > 0 && Exclusive(l, s) && Enabled(l, s, e)
    ensures Exclusive(l, Apply(l, s, e))
  {
    if e.Begin? {
      BeginExclusive(l, s, e);
    } else if e.OpenFails? || e.WriteFails? {
      FailureExclusive(l, s, e);
    } else if e.End? {
      EndExclusive(l, s, e);
    } else if e.Enter? {
      EnterExclusive(l, s, e);
    } else if e.Check? || e.Copy? {
      MergeExclusive(l, s, e);
    } else if e.CopyFails? || e.MergeFails? || e.Leave? {
      MergeEndExclusive(l, s, e);
    } else if e.Raise? || e.Lower? {
      FlagExclusive(l, s, e);
    } else {
      DiskExclusive(l, s, e);
    }
  }

  // ----- runs -----

  /** The state that a list of events leads to from s, if each was possible in turn. */
  function RunFrom(l: Layout, s: State, es: seq<Event>): Option<State>
    requires l.chunkSize > 0
    decreases |es|
  {
    if es == [] then Some(s)
    else
      match RunFrom(l, s, es[..|es| - 1])
      case None => None
      case Some(s') => Next(l, s', es[|es| - 1])
  }

  function Next(l: Layout, s: State, e: Event): Option<State>
    requires l.chunkSize > 0
  {
    if Enabled(l, s, e) then Some(Apply(l, s, e)) else None
  }

  lemma InitExclusive(l: Layout)
    requires l.chunkSize > 0
    ensures Exclusive(l, Init(l))
  {
  }

  lemma NextExclusive(l: Layout, s: State, e: Event)
    requires l.chunkSize > 0 && Exclusive(l, s) && Next(l, s, e).Some?
    ensures Exclusive(l, Next(l, s, e).value)
    ensures Wedged(s) ==>
              && !e.Enter?
              && Wedged(Next(l, s, e).value) && Next(l, s, e).value.merged == s.merged
  {
    StepExclusive(l, s, e);
    if Wedged(s) {
      WedgedStep(l, s, e);
    }
  }

  /** Mutual exclusion in every state of every interleaving, with any failures. */
  lemma {:induction false} AlwaysExclusive(l: Layout, s: State, es: seq<Event>)
    requires l.chunkSize > 0 && Exclusive(l, s) && RunFrom(l, s, es).Some?
    ensures Exclusive(l, RunFrom(l, s, es).value)
    decreases |es|
  {
    hide Next, Exclusive;
    if es != [] {
      AlwaysExclusive(l, s, es[..|es| - 1]);
      NextExclusive(l, RunFrom(l, s, es[..|es| - 1]).value, es[|es| - 1]);
    }
  }

  // ----- failures are final -----

  /** A write failed after it was counted in, or a consolidation failed. */
  ghost predicate Wedged(s: State) {
    s.failed != map[] || (s.mode == Consolidating && s.merges == map[])
  }

  lemma WedgedStep(l: Layout, s: State, e: Event)
    requires l.chunkSize > 0 && Exclusive(l, s) && Enabled(l, s, e) && Wedged(s)
    ensures !e.Enter? && Wedged(Apply(l, s, e)) && Apply(l, s, e).merged == s.merged
  {
    if s.failed != map[] {
      var t :| t in s.failed;
      assert |s.failed| > 0;
      assert t in Apply(l, s, e).failed;
    }
  }

  /** Still wedged, and no consolidation has finished since s. */
  ghost predicate StillWedged(l: Layout, s: State, s': State)
    requires l.chunkSize > 0
  {
    Exclusive(l, s') && Wedged(s') && s'.merged == s.merged
  }

  lemma WedgedStart(l: Layout, s: State)
    requires l.chunkSize > 0 && Exclusive(l, s) && Wedged(s)
    ensures StillWedged(l, s, s)
  {
  }

  lemma StillWedgedStep(l: Layout, s: State, s': State, e: Event)
    requires l.chunkSize > 0 && StillWedged(l, s, s') && Next(l, s', e).Some?
    ensures StillWedged(l, s, Next(l, s', e).value) && !e.Enter?
  {
    NextExclusive(l, s', e);
  }

  /** Once anything failed after taking the lock, no consolidation is ever started or finished again. */
  lemma {:induction false} WedgedForever(l: Layout, s: State, es: seq<Event>)
    requires l.chunkSize > 0 && Exclusive(l, s) && Wedged(s) && RunFrom(l, s, es).Some?
    ensures StillWedged(l, s, RunFrom(l, s, es).value)
    ensures forall i :: 0 <= i < |es| ==> !es[i].Enter?
    decreases |es|
  {
    hide Next, StillWedged;
    if es == [] {
      WedgedStart(l, s);
    } else {
      var n := |es| - 1;
      WedgedForever(l, s, es[..n]);
      StillWedgedStep(l, s, RunFrom(l, s, es[..n]).value, es[n]);
      assert forall i :: 0 <= i < n ==> es[..n][i] == es[i];
    }
  }
}
