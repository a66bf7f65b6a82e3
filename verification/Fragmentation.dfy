/**
 * What a reader gets out of a stream that arrives in buffers. A stream that decodes gives the same
 * messages however it is cut; on one that fails, the cut decides how many of them are handed on.
 */
module Fragmentation {
  import opened Bytes
  import opened Wrappers
  import opened Framing

  /** What a reader has handed on so far, and the bytes it holds back; a failure ends it. */
  datatype Reader<+M> =
    | Reading(delivered: seq<M>, phase: Phase, rest: Buffer)
    | Stopped(delivered: seq<M>, failure: ParseFailure)

  /** The next buffer: its messages are handed on together, and none of them if one fails. */
  function Feed<M>(c: Codec<M>, r: Reader<M>, b: Buffer): Reader<M> {
    match r
    case Stopped(_, _) => r
    case Reading(delivered, phase, rest) =>
      match Frames(c, phase, rest + b)
      case Parsed(ms, next, left) => Reading(delivered + ms, next, left)
      case Failed(_, f) => Stopped(delivered, f)
  }

  function FeedAll<M>(c: Codec<M>, r: Reader<M>, bufs: seq<Buffer>): Reader<M>
    decreases |bufs|
  {
    if bufs == [] then r else FeedAll(c, Feed(c, r, bufs[0]), bufs[1..])
  }

  /** The stream seen in one go: what has been handed on, then the framing of all the bytes to come. */
  function OneShot<M>(c: Codec<M>, r: Reader<M>, s: Buffer): Parsed<M>
    requires r.Reading?
  {
    Prepend(r.delivered, Frames(c, r.phase, r.rest + s))
  }

  /** A reader state that a parser can be in: nothing is left in it to be framed. */
  ghost predicate Settled<M>(c: Codec<M>, r: Reader<M>) {
    r.Reading? ==> Frames(c, r.phase, r.rest) == Parsed([], r.phase, r.rest)
  }

  lemma {:induction false} FramesSettle<M>(c: Codec<M>, phase: Phase, s: Buffer)
    ensures var p := Frames(c, phase, s);
            p.Parsed? ==> Frames(c, p.phase, p.rest) == Parsed([], p.phase, p.rest)
    decreases |s|
  {
    if !HeaderPanics(c, phase, s) && HasFrame(phase, s) {
      var n := FrameLen(phase, s).value;
      FramesSettle(c, PostHello, s[n..]);
    }
  }

  lemma FeedSettles<M>(c: Codec<M>, r: Reader<M>, b: Buffer)
    requires r.Reading?
    ensures Settled(c, Feed(c, r, b))
  {
    FramesSettle(c, r.phase, r.rest + b);
  }

  /** Nothing has changed before the first byte. */
  lemma OneShotOfNothing<M>(c: Codec<M>, r: Reader<M>)
    requires r.Reading? && Settled(c, r)
    ensures OneShot(c, r, []) == Parsed(r.delivered, r.phase, r.rest)
  {
    assert r.rest + [] == r.rest;
    assert r.delivered + [] == r.delivered;
  }

  /** Seen in one go, a buffer in front changes nothing, or it decides the failure. */
  lemma OneShotOfConcat<M>(c: Codec<M>, r: Reader<M>, a: Buffer, b: Buffer)
    requires r.Reading?
    ensures OneShot(c, r, a + b) ==
            if Feed(c, r, a).Reading? then OneShot(c, Feed(c, r, a), b) else OneShot(c, r, a)
  {
    hide Frames;
    assert r.rest + (a + b) == (r.rest + a) + b;
    FramesOfConcat(c, r.phase, r.rest + a, b);
    ContinuePrepend(c, r.delivered, Frames(c, r.phase, r.rest + a), b);
  }

  lemma {:induction false} StoppedStays<M>(c: Codec<M>, r: Reader<M>, bufs: seq<Buffer>)
    requires r.Stopped?
    ensures FeedAll(c, r, bufs) == r
    decreases |bufs|
  {
    if bufs != [] {
      StoppedStays(c, r, bufs[1..]);
    }
  }

  /**
   * Reading buffer by buffer refines reading the concatenation in one go: a stream that decodes
   * gives exactly its messages and its leftover. A stream that fails ends the reader with its
   * failure, and what was handed on is a beginning of the messages before that failure.
   */
  lemma {:induction false} FeedAllIsOneShot<M>(c: Codec<M>, r: Reader<M>, bufs: seq<Buffer>)
    requires r.Reading? && Settled(c, r)
    ensures match OneShot(c, r, Flatten(bufs))
            case Parsed(ms, phase, rest) => FeedAll(c, r, bufs) == Reading(ms, phase, rest)
            case Failed(ms, f) =>
              FeedAll(c, r, bufs).Stopped? && FeedAll(c, r, bufs).failure == f && FeedAll(c, r, bufs).delivered <= ms
    decreases |bufs|
  {
    hide Frames;
    if bufs == [] {
      OneShotOfNothing(c, r);
    } else {
      var next := Feed(c, r, bufs[0]);
      OneShotOfConcat(c, r, bufs[0], Flatten(bufs[1..]));
      if next.Reading? {
        FeedSettles(c, r, bufs[0]);
        FeedAllIsOneShot(c, next, bufs[1..]);
      } else {
        StoppedStays(c, next, bufs[1..]);
      }
    }
  }

  /**
   * Two ways of cutting the same bytes: if the stream decodes, the messages, the leftover and the
   * phase are the same; if it fails, both readers end, and with the same failure.
   */
  lemma FragmentationIndependence<M>(c: Codec<M>, r: Reader<M>, bufs: seq<Buffer>, others: seq<Buffer>)
    requires r.Reading? && Settled(c, r)
    requires Flatten(bufs) == Flatten(others)
    ensures OneShot(c, r, Flatten(bufs)).Parsed? ==> FeedAll(c, r, bufs) == FeedAll(c, r, others)
    ensures OneShot(c, r, Flatten(bufs)).Failed? ==>
              && FeedAll(c, r, bufs).Stopped? && FeedAll(c, r, others).Stopped?
              && FeedAll(c, r, bufs).failure == FeedAll(c, r, others).failure
  {
    FeedAllIsOneShot(c, r, bufs);
    FeedAllIsOneShot(c, r, others);
  }

  // ----- what is handed on before a failure -----

  /**
   * Exactly what a reader that fails has handed on: the messages of the frames that were complete
   * before the failing buffer, which is the first one that makes the stream so far fail.
   */
  lemma {:induction false} DeliveredBeforeFailure<M>(c: Codec<M>, r: Reader<M>, bufs: seq<Buffer>) returns (k: nat)
    requires r.Reading? && Settled(c, r)
    requires OneShot(c, r, Flatten(bufs)).Failed?
    ensures k < |bufs|
    ensures OneShot(c, r, Flatten(bufs[..k])).Parsed? && OneShot(c, r, Flatten(bufs[..k + 1])).Failed?
    ensures FeedAll(c, r, bufs)
            == Stopped(OneShot(c, r, Flatten(bufs[..k])).messages, OneShot(c, r, Flatten(bufs)).failure)
    decreases |bufs|
  {
    hide Frames;
    if bufs == [] {
      OneShotOfNothing(c, r);
      assert false;
    }
    var next := Feed(c, r, bufs[0]);
    OneShotOfConcat(c, r, bufs[0], Flatten(bufs[1..]));
    if next.Reading? {
      FeedSettles(c, r, bufs[0]);
      var i := DeliveredBeforeFailure(c, next, bufs[1..]);
      k := i + 1;
      OneShotOfFront(c, r, bufs, i);
      OneShotOfFront(c, r, bufs, i + 1);
    } else {
      k := 0;
      StoppedStays(c, next, bufs[1..]);
      OneShotOfNothing(c, r);
      assert bufs[..1] == [bufs[0]] && Flatten([bufs[0]]) == bufs[0];
    }
  }

  lemma OneShotOfFront<M>(c: Codec<M>, r: Reader<M>, bufs: seq<Buffer>, i: nat)
    requires r.Reading? && bufs != [] && i < |bufs| && Feed(c, r, bufs[0]).Reading?
    ensures OneShot(c, r, Flatten(bufs[..i + 1])) == OneShot(c, Feed(c, r, bufs[0]), Flatten(bufs[1..][..i]))
  {
    hide Frames;
    assert bufs[..i + 1][1..] == bufs[1..][..i];
    OneShotOfConcat(c, r, bufs[0], Flatten(bufs[1..][..i]));
  }

  /** A stream with a message begins with the frame of its first message. */
  lemma FirstFrame<M>(c: Codec<M>, phase: Phase, s: Buffer) returns (n: nat)
    requires Frames(c, phase, s).messages != []
    ensures n <= |s|
    ensures var m := Frames(c, phase, s).messages[0];
            && Frames(c, phase, s[..n]) == Parsed([m], PostHello, [])
            && Frames(c, phase, s) == Prepend([m], Frames(c, PostHello, s[n..]))
  {
    hide Decode;
    n := FrameLen(phase, s).value;
    var frame, tail := s[..n], s[n..];
    assert s == frame + tail;
    FrameLenOfPrefix(phase, frame, tail);
    HeaderOfPrefix(c, phase, frame, tail);
    FramesOfFrame(c, phase, frame, tail);
    assert frame + [] == frame;
    FramesOfFrame(c, phase, frame, []);
    EmptyStream(c);
  }

  /** A stream whose first frame decodes and that fails later: cut behind that frame, its message is handed on. */
  lemma CutsDiffer<M>(c: Codec<M>, phase: Phase, s: Buffer) returns (n: nat)
    requires Frames(c, phase, s).Failed? && Frames(c, phase, s).messages != []
    ensures n <= |s| && Flatten([s]) == s == Flatten([s[..n], s[n..]])
    ensures FeedAll(c, Reading([], phase, []), [s]) == Stopped([], Frames(c, phase, s).failure)
    ensures FeedAll(c, Reading([], phase, []), [s[..n], s[n..]])
            == Stopped([Frames(c, phase, s).messages[0]], Frames(c, phase, s).failure)
  {
    hide Frames, FeedAll;
    n := FirstFrame(c, phase, s);
    assert s == s[..n] + s[n..];
    TwoBuffers(s[..n], s[n..]);
    TwoBuffers(s, []);
    ThenStops(c, phase, s[..n], s[n..]);
  }

  lemma EmptyStream<M>(c: Codec<M>)
    ensures Frames(c, PostHello, []) == Parsed([], PostHello, [])
  {
  }

  lemma TwoBuffers(a: Buffer, b: Buffer)
    ensures Flatten([a]) == a && Flatten([a, b]) == a + b
  {
    assert [a, b][1..] == [b] && [a][1..] == [] && [b][1..] == [];
    assert a + [] == a && b + [] == b;
  }

  lemma ThenStops<M>(c: Codec<M>, phase: Phase, a: Buffer, b: Buffer)
    requires Frames(c, phase, a + b).Failed?
    requires Frames(c, phase, a) == Parsed(Frames(c, phase, a).messages, PostHello, [])
    requires Frames(c, PostHello, b).Failed? && Frames(c, PostHello, b).failure == Frames(c, phase, a + b).failure
    ensures FeedAll(c, Reading([], phase, []), [a + b]) == Stopped([], Frames(c, phase, a + b).failure)
    ensures FeedAll(c, Reading([], phase, []), [a, b])
            == Stopped(Frames(c, phase, a).messages, Frames(c, phase, a + b).failure)
  {
    hide Frames;
    var r := Reading([], phase, []);
    assert [] + (a + b) == a + b && [] + a == a && [] + b == b;
    var next := Feed(c, r, a);
    assert [] + Frames(c, phase, a).messages == Frames(c, phase, a).messages;
    assert [a, b][1..] == [b];
    assert FeedAll(c, r, [a, b]) == FeedAll(c, next, [b]) == Feed(c, next, b);
    assert FeedAll(c, r, [a + b]) == Feed(c, r, a + b);
  }

  /** However the stream is cut, a reader that starts with it ends in the same state. */
  ghost predicate CutsAgree<M(!new)>(c: Codec<M>, phase: Phase, s: Buffer) {
    forall bufs, others :: Flatten(bufs) == s && Flatten(others) == s ==>
      FeedAll(c, Reading([], phase, []), bufs) == FeedAll(c, Reading([], phase, []), others)
  }

  /**
   * What is handed on depends on the cut exactly for the streams that fail after some message: a
   * message is lost if the failing frame happens to share its buffer.
   */
  lemma CutsAgreeIff<M(!new)>(c: Codec<M>, phase: Phase, s: Buffer)
    ensures CutsAgree(c, phase, s) <==> Frames(c, phase, s).Parsed? || Frames(c, phase, s).messages == []
  {
    var r := Reading([], phase, []);
    NothingHeld(c, phase, s);
    if Frames(c, phase, s).Parsed? || Frames(c, phase, s).messages == [] {
      forall bufs, others | Flatten(bufs) == s && Flatten(others) == s
        ensures FeedAll(c, r, bufs) == FeedAll(c, r, others)
      {
        FeedAllIsOneShot(c, r, bufs);
        FeedAllIsOneShot(c, r, others);
      }
    } else {
      var n := CutsDiffer(c, phase, s);
      assert FeedAll(c, r, [s]) != FeedAll(c, r, [s[..n], s[n..]]);
    }
  }

  /** A reader that has just started sees the framing of the stream. */
  lemma NothingHeld<M>(c: Codec<M>, phase: Phase, s: Buffer)
    ensures Settled(c, Reading([], phase, []))
    ensures OneShot(c, Reading([], phase, []), s) == Frames(c, phase, s)
  {
    assert [] + s == s;
    assert [] + Frames(c, phase, s).messages == Frames(c, phase, s).messages;
  }

  // ----- the grammar of a stream -----

  /** `frame` is exactly one well-formed frame, and it decodes to `m`. */
  ghost predicate Yields<M(!new)>(c: Codec<M>, phase: Phase, frame: Buffer, m: M) {
    && IsComplete(phase, frame)
    && !HeaderPanics(c, phase, frame)
    && Decode(c, phase, frame) == Success(m)
  }

  /** `rest` is the strict beginning of a frame (or empty), with no undecodable header in it. */
  ghost predicate Unfinished<M>(c: Codec<M>, phase: Phase, rest: Buffer) {
    !HeaderPanics(c, phase, rest) && !HasFrame(phase, rest)
  }

  /** `rest` begins with an undecodable header, or with a whole frame that fails. */
  ghost predicate Breaks<M>(c: Codec<M>, phase: Phase, rest: Buffer, f: ParseFailure) {
    if HeaderPanics(c, phase, rest) then f == Panic
    else exists n: nat :: n <= |rest| && FailsWith(c, phase, rest[..n], f)
  }

  ghost predicate FailsWith<M>(c: Codec<M>, phase: Phase, frame: Buffer, f: ParseFailure) {
    IsComplete(phase, frame) && !HeaderPanics(c, phase, frame) && Decode(c, phase, frame) == Failure(f)
  }

  function PhaseAt(start: Phase, i: nat): Phase {
    if i == 0 then start else PostHello
  }

  /** The stream ends as p says, in an unfinished message or in a failure. */
  ghost predicate EndsAs<M>(c: Codec<M>, phase: Phase, rest: Buffer, p: Parsed<M>) {
    match p
    case Parsed(_, next, left) => Unfinished(c, phase, rest) && next == phase && left == rest
    case Failed(_, f) => Breaks(c, phase, rest, f)
  }

  /** s is a run of frames yielding the messages of p in order, and then it ends as p says. */
  ghost predicate IsFramingOf<M(!new)>(
    c: Codec<M>, start: Phase, s: Buffer, frames: seq<Buffer>, rest: Buffer, p: Parsed<M>)
  {
    && |frames| == |p.messages|
    && s == Flatten(frames) + rest
    && (forall i :: 0 <= i < |frames| ==> Yields(c, PhaseAt(start, i), frames[i], p.messages[i]))
    && EndsAs(c, PhaseAt(start, |frames|), rest, p)
  }

  /** Every stream has such a framing, whether it decodes or fails: no byte is lost, added or reordered. */
  lemma {:induction false} FramesSound<M(!new)>(c: Codec<M>, start: Phase, s: Buffer)
    returns (frames: seq<Buffer>, rest: Buffer)
    ensures IsFramingOf(c, start, s, frames, rest, Frames(c, start, s))
    decreases |s|
  {
    hide Decode, HeaderPanics;
    frames, rest := [], s;
    if !HeaderPanics(c, start, s) && HasFrame(start, s) {
      var n := FrameLen(start, s).value;
      var frame, tail := s[..n], s[n..];
      assert s == frame + tail;
      FrameLenOfPrefix(start, frame, tail);
      HeaderOfPrefix(c, start, frame, tail);
      FramesOfFrame(c, start, frame, tail);
      if Decode(c, start, frame).Success? {
        var more;
        more, rest := FramesSound(c, PostHello, tail);
        frames := [frame] + more;
        FramingInFront(c, start, frame, Decode(c, start, frame).value, tail, more, rest);
      } else {
        assert FailsWith(c, start, s[..n], Decode(c, start, frame).error);
      }
    }
  }

  /** One more frame in front of a framed stream. */
  lemma FramingInFront<M(!new)>(
    c: Codec<M>, start: Phase, frame: Buffer, m: M, tail: Buffer, more: seq<Buffer>, rest: Buffer)
    requires Yields(c, start, frame, m)
    requires IsFramingOf(c, PostHello, tail, more, rest, Frames(c, PostHello, tail))
    ensures IsFramingOf(c, start, frame + tail, [frame] + more, rest, Prepend([m], Frames(c, PostHello, tail)))
  {
    hide Frames, Yields, Unfinished, Breaks;
    var p, q := Frames(c, PostHello, tail), Prepend([m], Frames(c, PostHello, tail));
    var frames := [frame] + more;
    assert frames[1..] == more;
    assert frame + tail == Flatten(frames) + rest;
    forall i | 0 <= i < |frames| ensures Yields(c, PhaseAt(start, i), frames[i], q.messages[i]) {
      if i > 0 {
        assert Yields(c, PhaseAt(PostHello, i - 1), more[i - 1], p.messages[i - 1]);
      }
    }
  }

  /** The grammar is unambiguous: any framing of s is the one that is read. */
  lemma {:induction false} FramesComplete<M(!new)>(
    c: Codec<M>, start: Phase, s: Buffer, frames: seq<Buffer>, rest: Buffer, p: Parsed<M>)
    requires IsFramingOf(c, start, s, frames, rest, p)
    ensures Frames(c, start, s) == p
    decreases |frames|
  {
    hide Decode, HeaderPanics, FrameLen, Breaks;
    if frames == [] {
      assert s == rest;
      if p.Failed? {
        BreaksFails(c, start, s, p.failure);
      }
    } else {
      var tail := Flatten(frames[1..]) + rest;
      assert s == frames[0] + tail;
      assert Yields(c, PhaseAt(start, 0), frames[0], p.messages[0]);
      forall i | 0 <= i < |frames[1..]|
        ensures Yields(c, PhaseAt(PostHello, i), frames[1..][i], p.messages[1..][i])
      {
        assert Yields(c, PhaseAt(start, i + 1), frames[i + 1], p.messages[i + 1]);
      }
      FramesComplete(c, PostHello, tail, frames[1..], rest, p.(messages := p.messages[1..]));
      FramesOfFrame(c, start, frames[0], tail);
      assert [p.messages[0]] + p.messages[1..] == p.messages;
    }
  }

  lemma BreaksFails<M>(c: Codec<M>, phase: Phase, s: Buffer, f: ParseFailure)
    requires Breaks(c, phase, s, f)
    ensures Frames(c, phase, s) == Failed([], f)
  {
    if !HeaderPanics(c, phase, s) {
      var n: nat :| n <= |s| && FailsWith(c, phase, s[..n], f);
      assert s == s[..n] + s[n..];
      FramesOfFrame(c, phase, s[..n], s[n..]);
    }
  }
}
