/**
 * What a BEP byte stream means: how it is cut into frames and what each frame decodes to.
 * The incremental parser of module BepDataParser is proved equal to the function Frames here.
 */
module Framing {
  import opened Bytes
  import opened Wrappers

  const MAGIC_NUMBER: Buffer := [0x2e, 0xa7, 0xd9, 0x0b]
  const HELLO_LEN_START := 4
  const HELLO_START := 6
  const HEADER_START := 2
  const MESSAGE_LEN_BYTES := 4
  const LZ4_COMPRESSION := 1

  datatype Phase = PreHello | PostHello

  /** The header message: both fields are raw protobuf enum numbers. */
  datatype Header = Header(compression: int, kind: int)

  datatype MessageKind =
    | ClusterConfig
    | Index
    | IndexUpdate
    | Request
    | Response
    | DownloadProgress
    | Ping
    | Close

  /** Err values of the parser, and the places where it panics. Both end the connection. */
  datatype ParseFailure = NoMagicHello | Malformed | Panic

  /** The decoders the parser calls into, which are not part of this model. */
  datatype Codec<!M> = Codec(
    decodeHello: Buffer -> Option<M>,
    decodeHeader: Buffer -> Option<Header>,
    decodeBody: (MessageKind, Buffer) -> Option<M>,
    decompress: (Buffer, nat) -> Option<Buffer>)

  function KindOf(code: int): Option<MessageKind> {
    match code
    case 0 => Some(ClusterConfig)
    case 1 => Some(Index)
    case 2 => Some(IndexUpdate)
    case 3 => Some(Request)
    case 4 => Some(Response)
    case 5 => Some(DownloadProgress)
    case 6 => Some(Ping)
    case 7 => Some(Close)
    case _ => None
  }

  // ----- lengths -----

  function HelloLen(s: Buffer): nat
    requires |s| >= HELLO_START
  {
    FromBe16(s[HELLO_LEN_START..HELLO_START])
  }

  function HeaderLen(s: Buffer): nat
    requires |s| >= HEADER_START
  {
    FromBe16(s[..HEADER_START])
  }

  function MessageLenStart(s: Buffer): nat
    requires |s| >= HEADER_START
  {
    HEADER_START + HeaderLen(s)
  }

  function MessageStart(s: Buffer): nat
    requires |s| >= HEADER_START
  {
    MessageLenStart(s) + MESSAGE_LEN_BYTES
  }

  /** The whole length of the first frame of s, once enough of s is there to tell. */
  function FrameLen(phase: Phase, s: Buffer): Option<nat> {
    match phase
    case PreHello =>
      if |s| < HELLO_START then None else Some(HELLO_START + HelloLen(s))
    case PostHello =>
      if |s| < HEADER_START || |s| < MessageStart(s) then None
      else Some(MessageStart(s) + FromBe32(s[MessageLenStart(s)..MessageStart(s)]))
  }

  /** How many more bytes the stage that `d` is in can take (0 when `d` is a whole frame). */
  function Needed(phase: Phase, d: Buffer): int {
    match phase
    case PreHello =>
      if |d| < HELLO_START then HELLO_START - |d| else FrameLen(phase, d).value - |d|
    case PostHello =>
      if |d| < HEADER_START then HEADER_START - |d|
      else if |d| < MessageLenStart(d) then MessageLenStart(d) - |d|
      else if |d| < MessageStart(d) then MessageStart(d) - |d|
      else FrameLen(phase, d).value - |d|
  }

  /** d does not run past the end of its frame. */
  ghost predicate WithinFrame(phase: Phase, d: Buffer) {
    FrameLen(phase, d).Some? ==> |d| <= FrameLen(phase, d).value
  }

  predicate IsComplete(phase: Phase, d: Buffer) {
    FrameLen(phase, d) == Some(|d|)
  }

  // ----- decoding one frame -----

  predicate HasHeader(s: Buffer) {
    |s| >= HEADER_START && |s| >= MessageLenStart(s)
  }

  /** The header field of a frame, once all its bytes are there. */
  function HeaderOf<M>(c: Codec<M>, s: Buffer): Option<Header>
    requires HasHeader(s)
  {
    c.decodeHeader(s[HEADER_START..MessageLenStart(s)])
  }

  /** The header is complete and its decoding panics, which happens before the body arrives. */
  predicate HeaderPanics<M>(c: Codec<M>, phase: Phase, s: Buffer) {
    phase.PostHello? && HasHeader(s) && HeaderOf(c, s).None?
  }

  function DecodeHello<M>(c: Codec<M>, frame: Buffer): Result<M, ParseFailure>
    requires IsComplete(PreHello, frame)
  {
    if frame[..HELLO_LEN_START] != MAGIC_NUMBER then Failure(NoMagicHello) else
    match c.decodeHello(frame[HELLO_START..])
    case Some(m) => Success(m)
    case None => Failure(Panic)
  }

  /** The body of a message frame, decompressed if its header says LZ4. */
  function RawMessage<M>(c: Codec<M>, header: Header, body: Buffer): Option<Buffer> {
    if header.compression != LZ4_COMPRESSION then Some(body)
    else if |body| < 4 then None
    else c.decompress(body[4..], FromBe32(body[..4]))
  }

  function DecodeMessage<M>(c: Codec<M>, frame: Buffer): Result<M, ParseFailure>
    requires IsComplete(PostHello, frame) && !HeaderPanics(c, PostHello, frame)
  {
    var header := HeaderOf(c, frame).value;
    match RawMessage(c, header, frame[MessageStart(frame)..])
    case None => Failure(Panic)
    case Some(raw) =>
      match KindOf(header.kind)
      case None => Failure(Panic)
      case Some(kind) =>
        match c.decodeBody(kind, raw)
        case Some(m) => Success(m)
        case None => Failure(Malformed)
  }

  function Decode<M>(c: Codec<M>, phase: Phase, frame: Buffer): Result<M, ParseFailure>
    requires IsComplete(phase, frame) && !HeaderPanics(c, phase, frame)
  {
    match phase
    case PreHello => DecodeHello(c, frame)
    case PostHello => DecodeMessage(c, frame)
  }

  // ----- decoding a stream in one go -----

  /** The messages of a stream, and how it ends: with an unfinished message, or with a frame that fails. */
  datatype Parsed<+M> =
    | Parsed(messages: seq<M>, phase: Phase, rest: Buffer)
    | Failed(messages: seq<M>, failure: ParseFailure)

  function Prepend<M>(ms: seq<M>, p: Parsed<M>): Parsed<M> {
    match p
    case Parsed(ns, phase, rest) => Parsed(ms + ns, phase, rest)
    case Failed(ns, f) => Failed(ms + ns, f)
  }

  /** The first frame of s is all there. */
  predicate HasFrame(phase: Phase, s: Buffer) {
    FrameLen(phase, s).Some? && FrameLen(phase, s).value <= |s|
  }

  /** One-shot framing: the messages of s up to its end, or up to the first frame that fails. */
  function Frames<M>(c: Codec<M>, phase: Phase, s: Buffer): (r: Parsed<M>)
    decreases |s|
  {
    if HeaderPanics(c, phase, s) then Failed([], Panic)
    else if !HasFrame(phase, s) then Parsed([], phase, s)
    else
      var n := FrameLen(phase, s).value;
      FrameLenOfPrefix(phase, s[..n], s[n..]);
      assert s == s[..n] + s[n..];
      HeaderOfPrefix(c, phase, s[..n], s[n..]);
      match Decode(c, phase, s[..n])
      case Failure(f) => Failed([], f)
      case Success(m) => Prepend([m], Frames(c, PostHello, s[n..]))
  }

  // ----- a frame does not depend on what follows it -----

  lemma FrameLenOfPrefix(phase: Phase, a: Buffer, b: Buffer)
    ensures FrameLen(phase, a).Some? ==> FrameLen(phase, a + b) == FrameLen(phase, a)
    ensures FrameLen(phase, a + b).Some? && FrameLen(phase, a + b).value == |a|
            ==> FrameLen(phase, a) == FrameLen(phase, a + b)
  {
    if |a| >= HEADER_START {
      assert (a + b)[..HEADER_START] == a[..HEADER_START];
      if |a| >= MessageStart(a) {
        assert (a + b)[MessageLenStart(a)..MessageStart(a)] == a[MessageLenStart(a)..MessageStart(a)];
      }
    }
    if |a| >= HELLO_START {
      assert (a + b)[HELLO_LEN_START..HELLO_START] == a[HELLO_LEN_START..HELLO_START];
    }
  }

  lemma HeaderOfPrefix<M>(c: Codec<M>, phase: Phase, a: Buffer, b: Buffer)
    ensures HasHeader(a) ==> HasHeader(a + b) && HeaderOf(c, a + b) == HeaderOf(c, a)
    ensures HeaderPanics(c, phase, a) ==> HeaderPanics(c, phase, a + b)
    ensures HasFrame(phase, a) ==> HeaderPanics(c, phase, a) == HeaderPanics(c, phase, a + b)
  {
    if |a| >= HEADER_START {
      assert (a + b)[..HEADER_START] == a[..HEADER_START];
      if HasHeader(a) {
        assert (a + b)[HEADER_START..MessageLenStart(a)] == a[HEADER_START..MessageLenStart(a)];
      }
    }
  }

  lemma FramesOfFrame<M>(c: Codec<M>, phase: Phase, frame: Buffer, tail: Buffer)
    requires IsComplete(phase, frame) && !HeaderPanics(c, phase, frame)
    ensures Frames(c, phase, frame + tail) ==
            match Decode(c, phase, frame)
            case Failure(f) => Failed([], f)
            case Success(m) => Prepend([m], Frames(c, PostHello, tail))
  {
    FrameLenOfPrefix(phase, frame, tail);
    HeaderOfPrefix(c, phase, frame, tail);
    var s := frame + tail;
    assert s[..|frame|] == frame && s[|frame|..] == tail;
  }

  /** Framing a stream is framing its front, then framing what the front left over with the back. */
  lemma {:induction false} FramesOfConcat<M>(c: Codec<M>, phase: Phase, a: Buffer, b: Buffer)
    ensures Frames(c, phase, a + b) == Continue(c, Frames(c, phase, a), b)
    decreases |a|
  {
    HeaderOfPrefix(c, phase, a, b);
    if !HeaderPanics(c, phase, a) && HasFrame(phase, a) {
      var n := FrameLen(phase, a).value;
      var frame, tail := a[..n], a[n..];
      assert a == frame + tail && a + b == frame + (tail + b);
      FrameLenOfPrefix(phase, frame, tail);
      HeaderOfPrefix(c, phase, frame, tail);
      FramesOfFrame(c, phase, frame, tail);
      FramesOfFrame(c, phase, frame, tail + b);
      FramesOfConcat(c, PostHello, tail, b);
      if Decode(c, phase, frame).Success? {
        ContinuePrepend(c, [Decode(c, phase, frame).value], Frames(c, PostHello, tail), b);
      }
    }
  }

  /** What framing gives when `b` arrives after the bytes that led to `p`. */
  function Continue<M>(c: Codec<M>, p: Parsed<M>, b: Buffer): Parsed<M> {
    match p
    case Failed(_, _) => p
    case Parsed(ms, next, rest) => Prepend(ms, Frames(c, next, rest + b))
  }

  lemma ContinuePrepend<M>(c: Codec<M>, ms: seq<M>, p: Parsed<M>, b: Buffer)
    ensures Continue(c, Prepend(ms, p), b) == Prepend(ms, Continue(c, p, b))
  {
    if p.Parsed? {
      var ns := Frames(c, p.phase, p.rest + b).messages;
      assert ms + (p.messages + ns) == (ms + p.messages) + ns;
    }
  }
}
