/** The sender's framing, and the proof that the parser undoes it. */
module Serializer {
  import opened Bytes
  import opened Wrappers
  import opened Framing
  import opened Fragmentation
  import BepDataParser

  /**
   * The encoders of the sending side, which are not part of this model. A message M knows its own
   * variant: it is a Hello, or a message of one kind.
   */
  datatype Encoder<!M> = Encoder(
    variant: M -> Option<MessageKind>,
    encode: M -> Buffer,
    encodeHeader: Header -> Buffer,
    compress: Buffer -> Buffer)

  /** A message on its way. This program sends its messages plain, but its peers may compress them. */
  datatype Packet<+M> = Packet(message: M, lz4: bool)

  function CodeOf(kind: MessageKind): (code: int)
    ensures KindOf(code) == Some(kind)
  {
    match kind
    case ClusterConfig => 0
    case Index => 1
    case IndexUpdate => 2
    case Request => 3
    case Response => 4
    case DownloadProgress => 5
    case Ping => 6
    case Close => 7
  }

  /** None stands for the panic on a length that does not fit its field. */
  function SerializeHello(body: Buffer): Option<Buffer> {
    if |body| >= 0x1_0000 then None
    else Some(MAGIC_NUMBER + ToBe16(|body|) + body)
  }

  function SerializeMessage(header: Buffer, body: Buffer): Option<Buffer> {
    if |header| >= 0x1_0000 || |body| >= 0x1_0000_0000 then None
    else Some(ToBe16(|header|) + header + ToBe32(|body|) + body)
  }

  /** A compressed body: the length of the raw message, and then the compressed bytes. */
  function Lz4Body(raw: Buffer, z: Buffer): Option<Buffer> {
    if |raw| >= 0x1_0000_0000 then None else Some(ToBe32(|raw|) + z)
  }

  function HeaderFor(kind: MessageKind, lz4: bool): Header {
    Header(if lz4 then LZ4_COMPRESSION else 0, CodeOf(kind))
  }

  /** A Hello has a frame of its own, every other message gets a header of its kind. */
  function Serialize<M>(e: Encoder<M>, p: Packet<M>): Option<Buffer> {
    var raw := e.encode(p.message);
    match e.variant(p.message)
    case None => SerializeHello(raw)
    case Some(kind) =>
      var body := if p.lz4 then Lz4Body(raw, e.compress(raw)) else Some(raw);
      if body.None? then None else SerializeMessage(e.encodeHeader(HeaderFor(kind, p.lz4)), body.value)
  }

  /** Everything that is sent, one message after the other. */
  function SerializeAll<M>(e: Encoder<M>, ps: seq<Packet<M>>): Option<Buffer> {
    if ps == [] then Some([])
    else
      match (Serialize(e, ps[0]), SerializeAll(e, ps[1..]))
      case (Some(a), Some(b)) => Some(a + b)
      case _ => None
  }

  function Messages<M>(ps: seq<Packet<M>>): seq<M> {
    seq(|ps|, i requires 0 <= i < |ps| => ps[i].message)
  }

  /**
   * The only assumption on the codec: what was encoded as a Hello or as a message of some kind is
   * given back by the decoder for Hellos or for that kind. Nothing is assumed of other pairs.
   */
  ghost predicate Inverse<M(!new)>(e: Encoder<M>, c: Codec<M>) {
    && (forall m :: e.variant(m) == None ==> c.decodeHello(e.encode(m)) == Some(m))
    && (forall m, kind :: e.variant(m) == Some(kind) ==> c.decodeBody(kind, e.encode(m)) == Some(m))
    && (forall kind, lz4 :: c.decodeHeader(e.encodeHeader(HeaderFor(kind, lz4))) == Some(HeaderFor(kind, lz4)))
  }

  /** What a compressed message needs besides: decompressing undoes compressing. */
  ghost predicate Decompresses<M>(e: Encoder<M>, c: Codec<M>) {
    forall raw :: c.decompress(e.compress(raw), |raw|) == Some(raw)
  }

  lemma HelloIsFrame<M(!new)>(e: Encoder<M>, c: Codec<M>, hello: Packet<M>)
    requires Inverse(e, c) && e.variant(hello.message) == None
    requires Serialize(e, hello).Some?
    ensures Yields(c, PreHello, Serialize(e, hello).value, hello.message)
  {
    var body := e.encode(hello.message);
    var frame := SerializeHello(body).value;
    assert frame[HELLO_LEN_START..HELLO_START] == ToBe16(|body|);
    assert frame[..HELLO_LEN_START] == MAGIC_NUMBER;
    assert frame[HELLO_START..] == body;
  }

  /** Header and body in their places: what a frame decodes to, or how it fails. */
  lemma FrameParts<M(!new)>(c: Codec<M>, header: Buffer, body: Buffer)
    requires SerializeMessage(header, body).Some?
    ensures var frame := SerializeMessage(header, body).value;
            && IsComplete(PostHello, frame) && HasHeader(frame)
            && HeaderOf(c, frame) == c.decodeHeader(header) && frame[MessageStart(frame)..] == body
  {
    var frame := SerializeMessage(header, body).value;
    assert frame[..HEADER_START] == ToBe16(|header|);
    assert frame[HEADER_START..MessageLenStart(frame)] == header;
    assert frame[MessageLenStart(frame)..MessageStart(frame)] == ToBe32(|body|);
    assert frame[MessageStart(frame)..] == body;
  }

  /** A plain frame, whoever made it: the body goes to the decoder of its kind. */
  lemma PlainIsFrame<M(!new)>(c: Codec<M>, header: Buffer, kind: MessageKind, raw: Buffer, m: M)
    requires SerializeMessage(header, raw).Some? && c.decodeHeader(header) == Some(HeaderFor(kind, false))
    requires c.decodeBody(kind, raw) == Some(m)
    ensures Yields(c, PostHello, SerializeMessage(header, raw).value, m)
  {
    FrameParts(c, header, raw);
  }

  /** A compressed frame, whoever made it: the raw message is what the rest decompresses to. */
  lemma CompressedIsFrame<M(!new)>(
    c: Codec<M>, header: Buffer, kind: MessageKind, z: Buffer, raw: Buffer, m: M)
    requires |raw| < 0x1_0000_0000 && SerializeMessage(header, ToBe32(|raw|) + z).Some?
    requires c.decodeHeader(header) == Some(HeaderFor(kind, true))
    requires c.decompress(z, |raw|) == Some(raw) && c.decodeBody(kind, raw) == Some(m)
    ensures Yields(c, PostHello, SerializeMessage(header, ToBe32(|raw|) + z).value, m)
  {
    var body := ToBe32(|raw|) + z;
    FrameParts(c, header, body);
    assert body[..4] == ToBe32(|raw|) && body[4..] == z;
  }

  lemma MessageIsFrame<M(!new)>(e: Encoder<M>, c: Codec<M>, p: Packet<M>)
    requires Inverse(e, c) && e.variant(p.message).Some? && (p.lz4 ==> Decompresses(e, c))
    requires Serialize(e, p).Some?
    ensures Yields(c, PostHello, Serialize(e, p).value, p.message)
  {
    hide Yields;
    var kind, raw := e.variant(p.message).value, e.encode(p.message);
    var header := e.encodeHeader(HeaderFor(kind, p.lz4));
    if p.lz4 {
      CompressedIsFrame(c, header, kind, e.compress(raw), raw, p.message);
    } else {
      PlainIsFrame(c, header, kind, raw, p.message);
    }
  }

  /** None of them is a Hello, and the compressed ones can be decompressed. */
  ghost predicate AreMessages<M(!new)>(e: Encoder<M>, c: Codec<M>, ps: seq<Packet<M>>) {
    forall i :: 0 <= i < |ps| ==> e.variant(ps[i].message).Some? && (ps[i].lz4 ==> Decompresses(e, c))
  }

  /** Reading any mixture of plain and compressed messages gives them back and leaves no partial message. */
  lemma {:induction false} MessagesRoundTrip<M(!new)>(e: Encoder<M>, c: Codec<M>, ps: seq<Packet<M>>)
    requires Inverse(e, c) && AreMessages(e, c, ps)
    requires SerializeAll(e, ps).Some?
    ensures Frames(c, PostHello, SerializeAll(e, ps).value) == Parsed(Messages(ps), PostHello, [])
    decreases |ps|
  {
    hide Frames, Inverse, Serialize, Yields, Decompresses;
    if ps == [] {
      EmptyStream(c);
    } else {
      MessageIsFrame(e, c, ps[0]);
      MessagesRoundTrip(e, c, ps[1..]);
      FrameInFront(c, PostHello, Serialize(e, ps[0]).value, ps[0].message, SerializeAll(e, ps[1..]).value,
                   Messages(ps[1..]));
      assert Messages(ps) == [ps[0].message] + Messages(ps[1..]);
    }
  }

  lemma FrameInFront<M(!new)>(c: Codec<M>, phase: Phase, frame: Buffer, m: M, tail: Buffer, ms: seq<M>)
    requires Yields(c, phase, frame, m)
    requires Frames(c, PostHello, tail) == Parsed(ms, PostHello, [])
    ensures Frames(c, phase, frame + tail) == Parsed([m] + ms, PostHello, [])
  {
    hide Frames, Decode, HeaderPanics;
    FramesOfFrame(c, phase, frame, tail);
  }

  /**
   * Framing round trip: a Hello and any messages, plain or compressed, serialized and cut into buffers
   * in any way, are read as exactly those messages in that order, with nothing left over.
   */
  lemma ConnectionRoundTrip<M(!new)>(
    e: Encoder<M>, c: Codec<M>, hello: Packet<M>, ps: seq<Packet<M>>, bufs: seq<Buffer>)
    requires Inverse(e, c) && e.variant(hello.message) == None && AreMessages(e, c, ps)
    requires SerializeAll(e, [hello] + ps) == Some(Flatten(bufs))
    ensures FeedAll(c, Reading([], PreHello, []), bufs) == Reading([hello.message] + Messages(ps), PostHello, [])
  {
    hide Frames, Inverse, Serialize, Yields, FeedAll, AreMessages;
    assert ([hello] + ps)[1..] == ps;
    HelloIsFrame(e, c, hello);
    MessagesRoundTrip(e, c, ps);
    FrameInFront(c, PreHello, Serialize(e, hello).value, hello.message, SerializeAll(e, ps).value, Messages(ps));
    BepDataParser.Whole(c, bufs);
  }

  // ----- frames that fail -----

  /** A Hello frame without the magic number, and one whose body does not decode. */
  lemma BadHello<M>(c: Codec<M>, magic: Buffer, body: Buffer)
    requires |magic| == 4 && |body| < 0x1_0000
    ensures magic != MAGIC_NUMBER ==> FailsWith(c, PreHello, magic + ToBe16(|body|) + body, NoMagicHello)
    ensures magic == MAGIC_NUMBER && c.decodeHello(body) == None ==>
              FailsWith(c, PreHello, magic + ToBe16(|body|) + body, Panic)
  {
    var frame := magic + ToBe16(|body|) + body;
    assert frame[HELLO_LEN_START..HELLO_START] == ToBe16(|body|);
    assert frame[..HELLO_LEN_START] == magic && frame[HELLO_START..] == body;
  }

  /** A message frame fails by its kind, by what its body decompresses to, or by what that decodes to. */
  lemma BadMessage<M(!new)>(c: Codec<M>, header: Buffer, h: Header, body: Buffer)
    requires SerializeMessage(header, body).Some? && c.decodeHeader(header) == Some(h)
    ensures var frame, lz4 := SerializeMessage(header, body).value, h.compression == LZ4_COMPRESSION;
            && (KindOf(h.kind) == None ==> FailsWith(c, PostHello, frame, Panic))
            && (lz4 && |body| < 4 ==> FailsWith(c, PostHello, frame, Panic))
            && (lz4 && |body| >= 4 && c.decompress(body[4..], FromBe32(body[..4])) == None ==>
                  FailsWith(c, PostHello, frame, Panic))
            && (!lz4 && KindOf(h.kind).Some? && c.decodeBody(KindOf(h.kind).value, body) == None ==>
                  FailsWith(c, PostHello, frame, Malformed))
  {
    FrameParts(c, header, body);
  }

  /** The length of everything that goes into a length field. */
  ghost predicate FitsFields<M>(e: Encoder<M>, p: Packet<M>) {
    var raw := e.encode(p.message);
    match e.variant(p.message)
    case None => |raw| < 0x1_0000
    case Some(kind) =>
      && |e.encodeHeader(HeaderFor(kind, p.lz4))| < 0x1_0000 && |raw| < 0x1_0000_0000
      && (p.lz4 ==> |e.compress(raw)| + 4 < 0x1_0000_0000)
  }

  /** The sending side panics exactly when some length does not fit its 16- or 32-bit field. */
  lemma {:induction false} SerializeAllDefined<M(!new)>(e: Encoder<M>, ps: seq<Packet<M>>)
    ensures SerializeAll(e, ps).Some? <==> forall p :: p in ps ==> FitsFields(e, p)
    decreases |ps|
  {
    if ps != [] {
      SerializeAllDefined(e, ps[1..]);
      assert Serialize(e, ps[0]).Some? <==> FitsFields(e, ps[0]);
      assert ps[0] in ps && forall p :: p in ps <==> p == ps[0] || p in ps[1..];
    }
  }

  // ----- the assumption can be met -----

  /** The shape of the source's CompleteMessage: a decoder gives back its own variant only. */
  datatype CompleteMessage = Hello(content: Buffer) | Message(kind: MessageKind, content: Buffer)

  const ENCODER: Encoder<CompleteMessage> :=
    Encoder((m: CompleteMessage) => if m.Hello? then None else Some(m.kind), (m: CompleteMessage) => m.content,
            (h: Header) => if 0 <= h.kind < 8 && 0 <= h.compression < 2 then [8 * h.compression + h.kind] else [],
            (raw: Buffer) => raw)

  const CODEC: Codec<CompleteMessage> :=
    Codec(b => Some(Hello(b)), b => if |b| == 1 then Some(Header(b[0] as int / 8, b[0] as int % 8)) else None,
          (kind, b) => Some(Message(kind, b)), (b, n) => Some(b))

  /** A codec whose decoders dispatch on the variant, as the source's do, meets the assumption. */
  lemma InverseIsMet()
    ensures Inverse(ENCODER, CODEC) && Decompresses(ENCODER, CODEC)
  {
  }
}
