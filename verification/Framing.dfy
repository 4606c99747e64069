/** The SCALE message reader and writer of one stream: each message is one frame. */
module Framing {
  import opened Outcomes
  import opened Bytes
  import opened Varints
  import opened Frames
  import opened Grandpa
  import opened GrandpaCodec

  datatype ReadError = BadFrame | BadPayload

  /** What `MsgType{}` is for the variant: its first alternative, all zero. */
  function DefaultMessage(): Message {
    var zeros := LittleEndian(0, 32);
    OfVote(VoteMessage(0, 0, Vote(BlockInfo(0, zeros), LittleEndian(0, 64), zeros)))
  }

  function ReadPayload(payload: ByteSeq): Result<Message, ReadError> {
    if payload == [] then Ok(DefaultMessage())
    else
      match DecodeMessage(payload)
      case None => Err(BadPayload)
      case Some((m, _)) => Ok(m)
  }

  /** One read: the result and what is left. A frame that is not complete is not consumed. */
  function ReadMessage(wire: ByteSeq): (Result<Message, ReadError>, ByteSeq) {
    match ReadFrame(wire)
    case None => (Err(BadFrame), wire)
    case Some((payload, rest)) => (ReadPayload(payload), rest)
  }

  /** What the stream answers to a write. One that breaks has taken some first part of the frame. */
  datatype Reply = Accepted(size: nat) | Broken(error: ErrorCode, taken: nat)

  /** As much of a frame as a stream takes before it breaks. */
  function Taken(frame: ByteSeq, n: nat): ByteSeq {
    if n < |frame| then frame[..n] else frame
  }

  class MessageReadWriter {
    var wire: ByteSeq

    constructor (wire: ByteSeq)
      ensures this.wire == wire
    {
      this.wire := wire;
    }

    /** Hands the frame to the stream and passes on what the stream answers, be it a byte count or an error. */
    method Write(m: Message, reply: Reply) returns (r: Result<nat, ErrorCode>)
      modifies this
      ensures reply.Accepted? ==> r == Ok(reply.size) && wire == old(wire) + Frame(EncodeMessage(m))
      ensures reply.Broken? ==>
                && r == Err(reply.error)
                && wire == old(wire) + Taken(Frame(EncodeMessage(m)), reply.taken)
    {
      var payload := ScaleEncode(m);
      var start := |wire|;
      PutVarint(|payload|);
      wire := wire + payload;
      Assoc(old(wire), Varint(|payload|), payload);
      match reply {
        case Accepted(size) =>
          return Ok(size);
        case Broken(error, taken) =>
          if start + taken < |wire| {
            wire := wire[..start + taken];
          }
          return Err(error);
      }
    }

    method PutVarint(n: nat)
      modifies this
      ensures wire == old(wire) + Varint(n)
    {
      var rest := n;
      while rest >= 0x80
        invariant wire + Varint(rest) == old(wire) + Varint(n)
      {
        Assoc(wire, [rest % 0x80 + 0x80], Varint(rest / 0x80));
        wire := wire + [rest % 0x80 + 0x80];
        rest := rest / 0x80;
      }
      wire := wire + [rest];
    }

    method Read() returns (r: Result<Message, ReadError>)
      modifies this
      ensures (r, wire) == ReadMessage(old(wire))
      ensures forall payload, rest :: Framable(payload) && old(wire) == Frame(payload) + rest ==>
                && wire == rest
                && r == if payload == [] then Ok(DefaultMessage())
                        else if DecodeMessage(payload) == None then Err(BadPayload)
                        else Ok(DecodeMessage(payload).value.0)
    {
      forall payload, rest | Framable(payload) && wire == Frame(payload) + rest
        ensures ReadFrame(wire) == Some((payload, rest))
      {
        FrameRoundTrip(payload, rest);
      }
      var frame := ReadFrame(wire);
      if frame.None? {
        return Err(BadFrame);
      }
      var payload := frame.value.0;
      wire := frame.value.1;
      if payload != [] {
        var message := ScaleDecode(payload);
        if message.None? {
          return Err(BadPayload);
        }
        DecodedIs(payload, message.value);
        return Ok(message.value);
      } else {
        return Ok(DefaultMessage());
      }
    }
  }

  lemma DecodedIs(b: ByteSeq, m: Message)
    requires exists rest :: b == EncodeMessage(m) + rest
    ensures DecodeMessage(b).Some? && DecodeMessage(b).value.0 == m
  {
    var rest :| b == EncodeMessage(m) + rest;
    DecodeExactly(b, m, rest);
  }

  // ---------------------------------------------------------------- what a read makes of any wire

  /** A frame that carries something is taken from the wire, and is reported as undecodable exactly if no
      message's encoding begins its payload. */
  lemma PayloadExact(payload: ByteSeq, rest: ByteSeq)
    requires Framable(payload) && payload != []
    ensures ReadMessage(Frame(payload) + rest).1 == rest
    ensures ReadMessage(Frame(payload) + rest).0 == Err(BadPayload) <==>
            forall m, tail :: payload != EncodeMessage(m) + tail
    ensures ReadMessage(Frame(payload) + rest).0 == Err(BadPayload) <==> DecodeMessage(payload) == None
    ensures ReadMessage(Frame(payload) + rest).0 != Err(BadFrame)
  {
    FrameRoundTrip(payload, rest);
    if DecodeMessage(payload).Some? {
      var (m, tail) := DecodeMessage(payload).value;
      DecodeExactly(payload, m, tail);
    } else {
      forall m, tail
        ensures payload != EncodeMessage(m) + tail
      {
        DecodeExactly(payload, m, tail);
      }
    }
  }

  /** It reads as a given message exactly if that message's encoding begins its payload. */
  lemma MessageReadIff(payload: ByteSeq, rest: ByteSeq, m: Message)
    requires Framable(payload) && payload != []
    ensures ReadMessage(Frame(payload) + rest).0 == Ok(m) <==> exists tail :: payload == EncodeMessage(m) + tail
  {
    FrameRoundTrip(payload, rest);
    forall tail | payload == EncodeMessage(m) + tail
      ensures DecodeMessage(payload) == Some((m, tail))
    {
      DecodeExactly(payload, m, tail);
    }
    if DecodeMessage(payload).Some? {
      var (m', tail) := DecodeMessage(payload).value;
      DecodeExactly(payload, m', tail);
    }
  }

  /** A read fails without consuming anything exactly if the wire does not begin with a complete frame. */
  lemma NothingReadIff(wire: ByteSeq)
    ensures ReadMessage(wire).0 == Err(BadFrame) <==>
            forall payload, rest :: Framable(payload) ==> wire != Frame(payload) + rest
    ensures ReadMessage(wire).0 == Err(BadFrame) ==> ReadMessage(wire).1 == wire
  {
    if ReadFrame(wire).Some? {
      var (payload, rest) := ReadFrame(wire).value;
      FrameExact(wire, payload, rest);
    }
    forall payload, rest | Framable(payload) && wire == Frame(payload) + rest
      ensures ReadFrame(wire) == Some((payload, rest))
    {
      FrameExact(wire, payload, rest);
    }
  }

  /** The default message is the one whose encoding is all zeros. */
  lemma DefaultIsZeros()
    ensures EncodeMessage(DefaultMessage()) == Zeros(149)
  {
    MessageOnWire(DefaultMessage());
    ZerosAre(32);
    ZerosAre(64);
    ZerosAre(8);
    ZerosAre(4);
    var zeros := LittleEndian(0, 32);
    var block := BlockInfo(0, zeros);
    var vote := Vote(block, LittleEndian(0, 64), zeros);
    ZeroConcat2(LittleEndian(0, 4), zeros);
    ZeroConcat3(WireBlockInfo(block), LittleEndian(0, 64), zeros);
    ZeroConcat3(LittleEndian(0, 8), LittleEndian(0, 8), WireVote(vote));
    WireSize(DefaultMessage());
  }

  predicate AllZero(b: ByteSeq) {
    forall i :: 0 <= i < |b| ==> b[i] == 0
  }

  lemma {:induction false} ZerosAre(width: nat)
    ensures AllZero(LittleEndian(0, width))
  {
    if width == 0 {
    } else {
      ZerosAre(width - 1);
    }
  }

  lemma ZeroConcat2(a: ByteSeq, b: ByteSeq)
    requires AllZero(a) && AllZero(b)
    ensures AllZero(Concat([a, b]))
  {
    assert [a, b][1..] == [b] && [b][1..] == [];
    assert Concat([b]) == b + Concat([]);
  }

  lemma ZeroConcat3(a: ByteSeq, b: ByteSeq, c: ByteSeq)
    requires AllZero(a) && AllZero(b) && AllZero(c)
    ensures AllZero(Concat([a, b, c]))
  {
    ZeroConcat2(b, c);
    assert [a, b, c][1..] == [b, c];
  }

  // ---------------------------------------------------------------- one message

  lemma MessagesNeverEmpty(m: Message)
    ensures |EncodeMessage(m)| >= 17
  {
    MessageOnWire(m);
    WireSize(m);
  }

  lemma PayloadReadsBack(m: Message)
    ensures ReadPayload(EncodeMessage(m)) == Ok(m)
  {
    MessagesNeverEmpty(m);
    assert EncodeMessage(m) + [] == EncodeMessage(m);
    DecodeExactly(EncodeMessage(m), m, []);
  }

  /** What a write puts on the wire reads back as that message exactly when its length fits the length prefix;
      anything longer is refused. The default-value branch is never taken on it. */
  lemma WrittenReadsBack(m: Message, rest: ByteSeq)
    ensures Framable(EncodeMessage(m)) ==> ReadMessage(Frame(EncodeMessage(m)) + rest) == (Ok(m), rest)
    ensures !Framable(EncodeMessage(m)) ==> ReadMessage(Frame(EncodeMessage(m)) + rest).0 == Err(BadFrame)
  {
    var payload := EncodeMessage(m);
    PayloadReadsBack(m);
    if Framable(payload) {
      FrameRoundTrip(payload, rest);
    } else {
      OversizedFrameFails(payload, rest);
    }
  }

  /** A write that broke before the end of its frame is not read as a message. */
  lemma BrokenWriteWaits(m: Message, taken: nat)
    requires Framable(EncodeMessage(m))
    ensures var wire := Taken(Frame(EncodeMessage(m)), taken);
            if taken < |Frame(EncodeMessage(m))| then ReadMessage(wire) == (Err(BadFrame), wire)
            else ReadMessage(wire) == (Ok(m), [])
  {
    var frame := Frame(EncodeMessage(m));
    if taken < |frame| {
      PartialFrameWaits(EncodeMessage(m), taken);
    } else {
      assert frame + [] == frame;
      WrittenReadsBack(m, []);
    }
  }

  /** The default value is what an empty frame reads as, and no message is written as an empty frame. */
  lemma OnlyEmptyFramesReadAsDefault(rest: ByteSeq, m: Message)
    ensures ReadMessage(Frame([]) + rest) == (Ok(DefaultMessage()), rest)
    ensures Frame(EncodeMessage(m)) != Frame([])
  {
    FrameRoundTrip([], rest);
    MessagesNeverEmpty(m);
  }

  // ---------------------------------------------------------------- streams of messages

  function Payloads(ms: seq<Message>): seq<ByteSeq> {
    seq(|ms|, i requires 0 <= i < |ms| => EncodeMessage(ms[i]))
  }

  /** What writing `ms` one after the other puts on an empty wire. */
  function Written(ms: seq<Message>): ByteSeq {
    Stream(Payloads(ms))
  }

  /** Reads until a read fails: the messages, the failure and what is left. */
  function ReadAll(wire: ByteSeq): (seq<Message>, ReadError, ByteSeq)
    decreases |wire|
  {
    match ReadMessage(wire)
    case (Err(e), rest) => ([], e, rest)
    case (Ok(m), rest) =>
      ReadFrameShrinks(wire);
      match ReadAll(rest)
      case (ms, e, left) => ([m] + ms, e, left)
  }

  /** If the frames on the wire carry the encodings of `ms`, reading messages reads `ms`. */
  lemma {:induction false} MessagesFollowFrames(wire: ByteSeq, ms: seq<Message>)
    requires ReadFrames(wire).0 == Payloads(ms)
    ensures ReadAll(wire) == (ms, BadFrame, ReadFrames(wire).1)
    decreases |wire|
  {
    if ReadFrame(wire).None? {
      assert |Payloads(ms)| == 0;
    } else {
      var (payload, rest) := ReadFrame(wire).value;
      ReadFrameShrinks(wire);
      FirstAndLater(payload, ReadFrames(rest).0, ms);
      PayloadReadsBack(ms[0]);
      MessagesFollowFrames(rest, ms[1..]);
    }
  }

  lemma FirstAndLater(payload: ByteSeq, later: seq<ByteSeq>, ms: seq<Message>)
    requires [payload] + later == Payloads(ms)
    ensures ms != [] && payload == EncodeMessage(ms[0])
    ensures later == Payloads(ms[1..]) && ms == [ms[0]] + ms[1..]
  {
    assert ([payload] + later)[0] == payload && ([payload] + later)[1..] == later;
    assert Payloads(ms)[1..] == Payloads(ms[1..]);
  }

  /** However much of a stream of messages has arrived, reading yields exactly the messages whose frames are
      complete, in order; the incomplete frame is reported and left where it is. */
  lemma ArrivedMessagesRead(ms: seq<Message>, k: nat)
    requires (forall i :: 0 <= i < |ms| ==> Framable(EncodeMessage(ms[i]))) && k <= |Written(ms)|
    ensures var n := WholeFrames(Payloads(ms), k);
            && n <= |ms|
            && |Written(ms[..n])| <= k
            && (n < |ms| ==> k < |Written(ms[..n + 1])|)
            && ReadAll(Written(ms)[..k]) == (ms[..n], BadFrame, Written(ms)[|Written(ms[..n])|..k])
  {
    var n := WholeFrames(Payloads(ms), k);
    forall i | 0 <= i < |Payloads(ms)|
      ensures Framable(Payloads(ms)[i])
    {
      assert Payloads(ms)[i] == EncodeMessage(ms[i]);
    }
    PrefixReadsPrefix(Payloads(ms), k);
    WholeFramesIsExact(Payloads(ms), k);
    assert Payloads(ms)[..n] == Payloads(ms[..n]);
    if n < |ms| {
      assert Payloads(ms)[..n + 1] == Payloads(ms[..n + 1]);
    }
    MessagesFollowFrames(Written(ms)[..k], ms[..n]);
  }

  lemma FirstWritten(ms: seq<Message>)
    requires ms != []
    ensures Written(ms) == Frame(EncodeMessage(ms[0])) + Written(ms[1..])
  {
    assert Payloads(ms)[1..] == Payloads(ms[1..]);
  }

  lemma ReadAllStep(ms: seq<Message>)
    requires ms != []
    ensures |ReadAll(Written(ms)).0| ==
            if Framable(EncodeMessage(ms[0])) then 1 + |ReadAll(Written(ms[1..])).0| else 0
  {
    FirstWritten(ms);
    WrittenReadsBack(ms[0], Written(ms[1..]));
  }

  predicate AllFit(ms: seq<Message>) {
    forall i :: 0 <= i < |ms| ==> Framable(EncodeMessage(ms[i]))
  }

  lemma LaterFit(ms: seq<Message>)
    requires ms != [] && !AllFit(ms) && Framable(EncodeMessage(ms[0]))
    ensures !AllFit(ms[1..])
  {
    var i :| 0 <= i < |ms| && !Framable(EncodeMessage(ms[i]));
    assert ms[1..][i - 1] == ms[i];
  }

  lemma OversizedStep(ms: seq<Message>)
    requires ms != []
    requires Framable(EncodeMessage(ms[0])) ==> |ReadAll(Written(ms[1..])).0| < |ms| - 1
    ensures |ReadAll(Written(ms)).0| < |ms|
  {
    ReadAllStep(ms);
  }

  /** A message too long for its length prefix stops the reader, so something is missing at the end. */
  lemma {:induction false} OversizedStops(ms: seq<Message>)
    requires !AllFit(ms)
    ensures |ReadAll(Written(ms)).0| < |ms|
  {
    if !Framable(EncodeMessage(ms[0])) {
    } else {
      LaterFit(ms);
      OversizedStops(ms[1..]);
    }
    OversizedStep(ms);
  }

  /** A whole stream reads back as the messages written, in order and with nothing left over, exactly when each
      fits its length prefix. */
  lemma StreamOfMessagesReadsBack(ms: seq<Message>)
    ensures ReadAll(Written(ms)) == (ms, BadFrame, []) <==> AllFit(ms)
  {
    if AllFit(ms) {
      FittingStreamReadsBack(ms);
    } else {
      OversizedStops(ms);
    }
  }

  lemma FittingStreamReadsBack(ms: seq<Message>)
    requires AllFit(ms)
    ensures ReadAll(Written(ms)) == (ms, BadFrame, [])
  {
    forall i | 0 <= i < |Payloads(ms)|
      ensures Framable(Payloads(ms)[i])
    {
      assert Payloads(ms)[i] == EncodeMessage(ms[i]);
    }
    StreamReadsBack(Payloads(ms));
    MessagesFollowFrames(Written(ms), ms);
  }
}
