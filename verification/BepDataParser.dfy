/** The incremental parser: it keeps one unfinished message between calls. */
module BepDataParser {
  import opened Bytes
  import opened Wrappers
  import opened Framing
  import opened Fragmentation

  /** The bytes of the message being received, and its header once all of it is there. */
  class IncomingMessage<M> {
    const codec: Codec<M>
    const authStatus: Phase
    var data: Buffer
    var header: Option<Header>

    constructor (codec: Codec<M>, authStatus: Phase)
      ensures this.codec == codec && this.authStatus == authStatus
      ensures data == [] && header == None
    {
      this.codec := codec;
      this.authStatus := authStatus;
      data := [];
      header := None;
    }

    /** The header field follows from the data, and the data stops at the end of its frame. */
    ghost predicate Valid()
      reads this
    {
      && WithinFrame(authStatus, data)
      && !HeaderPanics(codec, authStatus, data)
      && header == (if authStatus.PostHello? && HasHeader(data) then HeaderOf(codec, data) else None)
    }

    function HeaderByteLen(): Option<nat>
      reads this
    {
      if |data| < HEADER_START then None else Some(HeaderLen(data))
    }

    function MessageByteLen(): Option<nat>
      reads this
    {
      match authStatus
      case PreHello => if |data| >= HELLO_START then Some(HelloLen(data)) else None
      case PostHello =>
        if header.None? || |data| < HEADER_START then None
        else if |data| >= MessageStart(data) then Some(FromBe32(data[MessageLenStart(data)..MessageStart(data)]))
        else None
    }

    /** No underflow: the header is still missing, so the data is shorter than the header's end. */
    function MissingHeaderBytes(): (n: Option<nat>)
      requires Valid() && authStatus.PostHello? && header.None?
      reads this
      ensures n.Some? <==> |data| >= HEADER_START
      ensures n.Some? ==> n.value == Needed(authStatus, data) && n.value > 0
    {
      if HeaderByteLen().None? then None
      else Some(HEADER_START + HeaderByteLen().value - |data|)
    }

    /** No underflow: the data never runs past the end of its message. */
    function MissingMessageBytes(): (n: Option<nat>)
      requires Valid() && (authStatus.PostHello? ==> |data| >= HEADER_START)
      reads this
      ensures n.Some? <==> FrameLen(authStatus, data).Some?
      ensures n.Some? ==> n.value == FrameLen(authStatus, data).value - |data|
    {
      if MessageByteLen().None? then None else
      match authStatus
      case PreHello => Some(MessageByteLen().value + HELLO_START - |data|)
      case PostHello => Some(MessageByteLen().value + MessageStart(data) - |data|)
    }

    /** The status test of the source, which says exactly whether the data is one whole frame. */
    function Complete(): (b: bool)
      requires Valid()
      reads this
      ensures b == IsComplete(authStatus, data)
    {
      match authStatus
      case PreHello => MessageByteLen().Some? && |data| == HELLO_START + MessageByteLen().value
      case PostHello => header.Some? && MissingMessageBytes() == Some(0)
    }

    /** Appends the next bytes of the current stage; decoding a complete header may panic. */
    method AddData(buf: Buffer) returns (panicked: bool)
      requires Valid() && |buf| <= Needed(authStatus, data)
      modifies this
      ensures data == old(data) + buf
      ensures panicked == HeaderPanics(codec, authStatus, data)
      ensures !panicked ==> Valid()
    {
      WithinAfter(authStatus, data, buf);
      data := data + buf;
      panicked := false;
      if authStatus.PostHello? && header.None? {
        if |data| >= HEADER_START && |data| >= HEADER_START + HeaderLen(data) {
          header := codec.decodeHeader(data[HEADER_START..HEADER_START + HeaderLen(data)]);
          panicked := header.None?;
        }
      } else {
        HeaderOfPrefix(codec, authStatus, old(data), buf);
      }
    }

    /** The source's conversion of a complete message into a CompleteMessage. */
    function TryDecode(): Result<M, ParseFailure>
      requires Valid() && Complete()
      reads this
    {
      Decode(codec, authStatus, data)
    }
  }

  /** A stage that takes no more bytes than it needs stays within its frame. */
  lemma WithinAfter(phase: Phase, d: Buffer, buf: Buffer)
    requires WithinFrame(phase, d) && |buf| <= Needed(phase, d)
    ensures WithinFrame(phase, d + buf)
  {
    FrameLenOfPrefix(phase, d, buf);
    if |d| >= HEADER_START {
      assert (d + buf)[..HEADER_START] == d[..HEADER_START];
    }
  }

  class BepDataParser<M> {
    const codec: Codec<M>
    var bepAuthStatus: Phase
    var incomingMessage: IncomingMessage?<M>

    ghost predicate Valid()
      reads this, incomingMessage
    {
      && AlmostValid()
      && (incomingMessage != null ==> Needed(bepAuthStatus, incomingMessage.data) > 0)
    }

    /** Like Valid, for the moment when a message has just become complete. */
    ghost predicate AlmostValid()
      reads this, incomingMessage
    {
      incomingMessage != null ==>
        && incomingMessage.codec == codec
        && incomingMessage.authStatus == bepAuthStatus
        && |incomingMessage.data| >= 1
        && incomingMessage.Valid()
    }

    /** The bytes received so far of the message that is not complete. */
    ghost function Pending(): Buffer
      reads this, incomingMessage
    {
      if incomingMessage == null then [] else incomingMessage.data
    }

    constructor (codec: Codec<M>)
      ensures this.codec == codec
      ensures Valid() && bepAuthStatus == PreHello && Pending() == [] && incomingMessage == null
    {
      this.codec := codec;
      bepAuthStatus := PreHello;
      incomingMessage := null;
    }

    /** What every populate step does: it takes as many bytes as its stage needs and the buffer has. */
    twostate predicate Took(buf: Buffer, n: nat, panicked: bool)
      reads this, incomingMessage
    {
      && 0 < n <= |buf|
      && bepAuthStatus == old(bepAuthStatus)
      && incomingMessage != null
      && Pending() == old(Pending()) + buf[..n]
      && panicked == HeaderPanics(codec, bepAuthStatus, Pending())
      && (!panicked ==> AlmostValid())
    }

    method PopulateHello(buf: Buffer) returns (n: nat)
      requires Valid() && bepAuthStatus.PreHello? && |buf| > 0
      modifies this, incomingMessage
      ensures Took(buf, n, false)
      ensures incomingMessage == old(incomingMessage) || fresh(incomingMessage)
    {
      n := 0;
      if incomingMessage != null {
        if |incomingMessage.data| < HELLO_START {
          n := Min(|buf|, HELLO_START - |incomingMessage.data|);
          var _ := incomingMessage.AddData(buf[..n]);
        } else {
          var missing := incomingMessage.MissingMessageBytes();
          if missing.Some? && missing.value > 0 {
            n := Min(|buf|, missing.value);
            var _ := incomingMessage.AddData(buf[..n]);
          }
        }
      } else {
        n := Min(|buf|, HELLO_START);
        var im := new IncomingMessage(codec, bepAuthStatus);
        var _ := im.AddData(buf[..n]);
        incomingMessage := im;
      }
    }

    method PopulateHeader(buf: Buffer) returns (n: nat, panicked: bool)
      requires Valid() && bepAuthStatus.PostHello? && |buf| > 0
      requires incomingMessage == null || incomingMessage.header.None?
      modifies this, incomingMessage
      ensures Took(buf, n, panicked)
      ensures incomingMessage == old(incomingMessage) || fresh(incomingMessage)
    {
      if incomingMessage != null {
        if |incomingMessage.data| < HEADER_START {
          n := 1;
          panicked := incomingMessage.AddData(buf[..1]);
        } else {
          n := Min(|buf|, incomingMessage.MissingHeaderBytes().value);
          panicked := incomingMessage.AddData(buf[..n]);
        }
      } else {
        n := Min(|buf|, HEADER_START);
        var im := new IncomingMessage(codec, bepAuthStatus);
        panicked := im.AddData(buf[..n]);
        incomingMessage := im;
      }
    }

    method PopulateMessage(buf: Buffer) returns (n: nat)
      requires Valid() && bepAuthStatus.PostHello? && |buf| > 0
      requires incomingMessage != null && incomingMessage.header.Some?
      modifies incomingMessage
      ensures Took(buf, n, false)
    {
      var missing := incomingMessage.MissingMessageBytes();
      if missing.Some? {
        n := Min(missing.value, |buf|);
      } else {
        n := Min(MessageStart(incomingMessage.data) - |incomingMessage.data|, |buf|);
      }
      var panicked := incomingMessage.AddData(buf[..n]);
      HeaderOfPrefix(codec, PostHello, old(incomingMessage.data), buf[..n]);
    }

    /** The populate step that fits the current stage. */
    method Populate(buf: Buffer) returns (n: nat, panicked: bool)
      requires Valid() && |buf| > 0
      modifies this, incomingMessage
      ensures Took(buf, n, panicked)
      ensures incomingMessage == old(incomingMessage) || fresh(incomingMessage)
    {
      panicked := false;
      if bepAuthStatus.PreHello? {
        n := PopulateHello(buf);
      } else if incomingMessage == null || incomingMessage.header.None? {
        n, panicked := PopulateHeader(buf);
      } else {
        n := PopulateMessage(buf);
      }
    }

    /** Hands on the message if it is complete: one round of the parser's loop after populating. */
    method TakeComplete() returns (r: Result<Option<M>, ParseFailure>)
      requires AlmostValid() && incomingMessage != null
      modifies this
      ensures incomingMessage == null || incomingMessage == old(incomingMessage)
      ensures r.Success? ==> Valid()
      ensures r == Success(None) ==> bepAuthStatus == old(bepAuthStatus) && Pending() == old(Pending())
      ensures r.Failure? || r.value.Some? ==>
                && IsComplete(old(bepAuthStatus), old(Pending()))
                && !HeaderPanics(codec, old(bepAuthStatus), old(Pending()))
      ensures r.Failure? ==> Decode(codec, old(bepAuthStatus), old(Pending())) == Failure(r.error)
      ensures r.Success? && r.value.Some? ==>
                && Decode(codec, old(bepAuthStatus), old(Pending())) == Success(r.value.value)
                && bepAuthStatus == PostHello && Pending() == []
    {
      if !incomingMessage.Complete() {
        return Success(None);
      }
      var complete := incomingMessage.TryDecode();
      if bepAuthStatus.PreHello? {
        bepAuthStatus := PostHello;
      }
      match complete {
        case Success(m) =>
          incomingMessage := null;
          return Success(Some(m));
        case Failure(f) =>
          return Failure(f);
      }
    }

    /** One round of the parser's loop: it consumes at least one byte and keeps the framing of the rest. */
    method Advance(buf: Buffer) returns (n: nat, r: Result<Option<M>, ParseFailure>)
      requires Valid() && |buf| > 0
      modifies this, incomingMessage
      ensures 0 < n <= |buf|
      ensures incomingMessage == null || incomingMessage == old(incomingMessage) || fresh(incomingMessage)
      ensures r.Success? ==> Valid()
      ensures Frames(codec, old(bepAuthStatus), old(Pending()) + buf) ==
              match r
              case Failure(f) => Failed([], f)
              case Success(None) => Frames(codec, bepAuthStatus, Pending() + buf[n..])
              case Success(Some(m)) => Prepend([m], Frames(codec, bepAuthStatus, Pending() + buf[n..]))
    {
      var panicked;
      n, panicked := Populate(buf);
      ghost var phase, held := bepAuthStatus, Pending();
      assert old(Pending()) + buf == held + buf[n..];
      if panicked {
        HeaderOfPrefix(codec, phase, held, buf[n..]);
        return n, Failure(Panic);
      }
      r := TakeComplete();
      if r.Failure? || r.value.Some? {
        FramesOfFrame(codec, phase, held, buf[n..]);
        assert [] + buf[n..] == buf[n..];
      }
    }

    /**
     * Parses one buffer. Whatever the buffer's boundaries, the result is the one-shot framing of
     * the bytes held back so far followed by this buffer, and what is held back is its leftover.
     * A failure drops the messages that came before it in this buffer.
     */
    method ParseIncomingData(buf: Buffer) returns (r: Result<seq<M>, ParseFailure>)
      requires Valid()
      modifies this, incomingMessage
      ensures incomingMessage == null || incomingMessage == old(incomingMessage) || fresh(incomingMessage)
      ensures r.Success? ==>
                && Valid()
                && Frames(codec, old(bepAuthStatus), old(Pending()) + buf)
                   == Parsed(r.value, bepAuthStatus, Pending())
      ensures r.Failure? ==>
                && Frames(codec, old(bepAuthStatus), old(Pending()) + buf).Failed?
                && Frames(codec, old(bepAuthStatus), old(Pending()) + buf).failure == r.error
    {
      hide Frames, Prepend;
      var processed := 0;
      var res: seq<M> := [];
      ghost var whole := Frames(codec, bepAuthStatus, Pending() + buf);
      assert buf[0..] == buf;
      PrependNothing(whole);
      while processed < |buf|
        invariant 0 <= processed <= |buf|
        invariant Valid()
        invariant incomingMessage == null || incomingMessage == old(incomingMessage) || fresh(incomingMessage)
        invariant whole == Prepend(res, Frames(codec, bepAuthStatus, Pending() + buf[processed..]))
        decreases |buf| - processed
      {
        var n, step := Advance(buf[processed..]);
        assert buf[processed..][n..] == buf[processed + n..];
        processed := processed + n;
        match step {
          case Failure(f) =>
            PrependFailed(res, f);
            return Failure(f);
          case Success(None) =>
          case Success(Some(m)) =>
            PrependTwice(res, [m], Frames(codec, bepAuthStatus, Pending() + buf[processed..]));
            res := res + [m];
        }
      }
      PendingIsSettled();
      assert Pending() + buf[processed..] == Pending();
      PrependToNothing(res, bepAuthStatus, Pending());
      return Success(res);
    }

    /** Between calls the bytes held back frame to themselves. */
    lemma PendingIsSettled()
      requires Valid()
      ensures Frames(codec, bepAuthStatus, Pending()) == Parsed([], bepAuthStatus, Pending())
    {
    }
  }

  /**
   * The read loop of a connection. A stream that decodes is handed on in full however it is cut.
   * One that fails ends the loop, and what was handed on by then is what the buffers before the
   * failing one completed.
   */
  method ReadAll<M>(codec: Codec<M>, bufs: seq<Buffer>) returns (r: Reader<M>)
    ensures r == FeedAll(codec, Reading([], PreHello, []), bufs)
    ensures match Frames(codec, PreHello, Flatten(bufs))
            case Parsed(ms, phase, rest) => r == Reading(ms, phase, rest)
            case Failed(ms, f) => r.Stopped? && r.failure == f && r.delivered <= ms
  {
    var parser := new BepDataParser(codec);
    var messages: seq<M> := [];
    ghost var begin := Reading([], PreHello, []);
    Whole(codec, bufs);
    for i := 0 to |bufs|
      invariant fresh(parser) && (parser.incomingMessage == null || fresh(parser.incomingMessage))
      invariant parser.Valid() && parser.codec == codec
      invariant FeedAll(codec, begin, bufs) ==
                FeedAll(codec, Reading(messages, parser.bepAuthStatus, parser.Pending()), bufs[i..])
    {
      assert bufs[i..][1..] == bufs[i + 1..];
      var parsed := parser.ParseIncomingData(bufs[i]);
      match parsed {
        case Success(ms) =>
          messages := messages + ms;
        case Failure(f) =>
          StoppedStays(codec, Stopped(messages, f), bufs[i + 1..]);
          return Stopped(messages, f);
      }
    }
    var rest := if parser.incomingMessage == null then [] else parser.incomingMessage.data;
    r := Reading(messages, parser.bepAuthStatus, rest);
  }

  lemma Whole<M>(c: Codec<M>, bufs: seq<Buffer>)
    ensures match Frames(c, PreHello, Flatten(bufs))
            case Parsed(ms, phase, rest) => FeedAll(c, Reading([], PreHello, []), bufs) == Reading(ms, phase, rest)
            case Failed(ms, f) =>
              && FeedAll(c, Reading([], PreHello, []), bufs).Stopped?
              && FeedAll(c, Reading([], PreHello, []), bufs).failure == f
              && FeedAll(c, Reading([], PreHello, []), bufs).delivered <= ms
  {
    hide Frames;
    NothingHeld(c, PreHello, Flatten(bufs));
    FeedAllIsOneShot(c, Reading([], PreHello, []), bufs);
  }

  lemma PrependNothing<M>(p: Parsed<M>)
    ensures Prepend([], p) == p
  {
    assert [] + p.messages == p.messages;
  }

  lemma PrependToNothing<M>(ms: seq<M>, phase: Phase, rest: Buffer)
    ensures Prepend(ms, Parsed([], phase, rest)) == Parsed(ms, phase, rest)
  {
    assert ms + [] == ms;
  }

  lemma PrependFailed<M>(ms: seq<M>, f: ParseFailure)
    ensures Prepend(ms, Failed([], f)) == Failed(ms, f)
  {
    assert ms + [] == ms;
  }

  lemma PrependTwice<M>(ms: seq<M>, ns: seq<M>, p: Parsed<M>)
    ensures Prepend(ms, Prepend(ns, p)) == Prepend(ms + ns, p)
  {
    assert ms + (ns + p.messages) == (ms + ns) + p.messages;
  }

  function Min(a: nat, b: nat): nat {
    if a < b then a else b
  }
}
