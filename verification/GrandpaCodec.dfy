/** The codec of `Message`: what is on the wire, how long it is, and that reading undoes writing exactly. */
module GrandpaCodec {
  import opened Outcomes
  import opened Bytes
  import opened Scale
  import opened Grandpa
  import opened ScaleStreams

  function EncodeMessage(m: Message): ByteSeq {
    Encode(MESSAGE, MessageValue(m))
  }

  function DecodeMessage(b: ByteSeq): Option<(Message, ByteSeq)> {
    match Decode(MESSAGE, b)
    case None => None
    case Some((v, rest)) =>
      DecodeSound(MESSAGE, b);
      Some((ToMessage(v), rest))
  }

  /** `scale::encode`: a fresh encoder stream and one `<<`. */
  method ScaleEncode(m: Message) returns (b: ByteSeq)
    ensures b == EncodeMessage(m)
    ensures DecodeMessage(b) == Some((m, []))
  {
    var encoder := new Encoder();
    encoder.Put(MESSAGE, MessageValue(m));
    b := encoder.buffer;
    assert b + [] == b;
    DecodeExactly(b, m, []);
  }

  /** `scale::decode`: a decoder stream over the bytes and one `>>`; bytes after the value are not looked at. */
  method ScaleDecode(b: ByteSeq) returns (r: Option<Message>)
    ensures r.Some? <==> DecodeMessage(b).Some?
    ensures r.Some? ==> exists rest :: b == EncodeMessage(r.value) + rest
    ensures forall m, rest :: b == EncodeMessage(m) + rest ==> r == Some(m)
  {
    var decoder := new Decoder(b);
    var v := decoder.Get(MESSAGE);
    forall m, rest | b == EncodeMessage(m) + rest
      ensures DecodeMessage(b) == Some((m, rest))
    {
      DecodeExactly(b, m, rest);
    }
    if v.None? {
      return None;
    }
    DecodeSound(MESSAGE, b);
    r := Some(ToMessage(v.value));
    DecodeExactly(b, r.value, decoder.Rest());
  }

  // ---------------------------------------------------------------- reading undoes writing

  lemma BlockInfosInjective(xs: Sized<BlockInfo>, ys: Sized<BlockInfo>)
    requires BlockInfosValue(xs) == BlockInfosValue(ys)
    ensures xs == ys
  {
    var vs, ws := BlockInfosValue(xs).items, BlockInfosValue(ys).items;
    forall i | 0 <= i < |xs|
      ensures xs[i] == ys[i]
    {
      assert vs[i] == BlockInfoValue(xs[i]) && ws[i] == BlockInfoValue(ys[i]);
      assert vs[i].values[0] == ws[i].values[0] && vs[i].values[1] == ws[i].values[1];
    }
  }

  lemma AuthsInjective(xs: Sized<Auth>, ys: Sized<Auth>)
    requires AuthsValue(xs) == AuthsValue(ys)
    ensures xs == ys
  {
    var vs, ws := AuthsValue(xs).items, AuthsValue(ys).items;
    forall i | 0 <= i < |xs|
      ensures xs[i] == ys[i]
    {
      assert vs[i] == AuthValue(xs[i]) && ws[i] == AuthValue(ys[i]);
      assert vs[i].values[0] == ws[i].values[0] && vs[i].values[1] == ws[i].values[1];
    }
  }

  lemma BlockInfoInjective(x: BlockInfo, y: BlockInfo)
    requires BlockInfoValue(x) == BlockInfoValue(y)
    ensures x == y
  {
    var v, w := BlockInfoValue(x).values, BlockInfoValue(y).values;
    assert v[0] == w[0] && v[1] == w[1];
  }

  lemma VoteInjective(x: Vote, y: Vote)
    requires VoteValue(x) == VoteValue(y)
    ensures x == y
  {
    var v, w := VoteValue(x).values, VoteValue(y).values;
    assert v[0] == w[0] && v[1] == w[1] && v[2] == w[2];
    BlockInfoInjective(x.message, y.message);
  }

  lemma SignedMessagesInjective(xs: Sized<SignedMessage>, ys: Sized<SignedMessage>)
    requires SignedMessagesValue(xs) == SignedMessagesValue(ys)
    ensures xs == ys
  {
    var vs, ws := SignedMessagesValue(xs).items, SignedMessagesValue(ys).items;
    forall i | 0 <= i < |xs|
      ensures xs[i] == ys[i]
    {
      assert vs[i] == SignedMessageValue(xs[i]) && ws[i] == SignedMessageValue(ys[i]);
      var v, w := vs[i].values, ws[i].values;
      assert v[0] == w[0] && v[1] == w[1] && v[2] == w[2];
      VoteInjective(xs[i].message, ys[i].message);
    }
  }

  lemma CommitInjective(x: FullCommitMessage, y: FullCommitMessage)
    requires FullCommitValue(x) == FullCommitValue(y)
    ensures x == y
  {
    var v, w := FullCommitValue(x).values, FullCommitValue(y).values;
    assert v[0] == w[0] && v[1] == w[1] && v[2] == w[2];
    var v', w' := CompactCommitValue(x.message).values, CompactCommitValue(y.message).values;
    assert v'[0] == w'[0] && v'[1] == w'[1] && v'[2] == w'[2] && v'[3] == w'[3];
    BlockInfosInjective(x.message.precommits, y.message.precommits);
    AuthsInjective(x.message.authData, y.message.authData);
  }

  lemma ResponseInjective(x: CatchUpResponse, y: CatchUpResponse)
    requires CatchUpResponseValue(x) == CatchUpResponseValue(y)
    ensures x == y
  {
    var v, w := CatchUpResponseValue(x).values, CatchUpResponseValue(y).values;
    assert v[0] == w[0] && v[1] == w[1] && v[2] == w[2] && v[3] == w[3] && v[4] == w[4];
    SignedMessagesInjective(x.prevoteJustification, y.prevoteJustification);
    SignedMessagesInjective(x.precommitJustification, y.precommitJustification);
    BlockInfoInjective(x.bestFinalCandidate, y.bestFinalCandidate);
  }

  lemma MessageInjective(m: Message, m': Message)
    requires MessageValue(m) == MessageValue(m')
    ensures m == m'
  {
    match m
    case OfVote(x) =>
      var v, w := VoteMessageValue(x).values, VoteMessageValue(m'.vote).values;
      assert v[0] == w[0] && v[1] == w[1] && v[2] == w[2];
      VoteInjective(x.vote, m'.vote.vote);
    case OfCommit(x) => CommitInjective(x, m'.commit);
    case OfNeighbor(x) =>
      var v, w := NeighborValue(x).values, NeighborValue(m'.neighbor).values;
      assert v[0] == w[0] && v[1] == w[1] && v[2] == w[2] && v[3] == w[3];
    case OfRequest(x) =>
      var v, w := CatchUpRequestValue(x).values, CatchUpRequestValue(m'.request).values;
      assert v[0] == w[0] && v[1] == w[1];
    case OfResponse(x) => ResponseInjective(x, m'.response);
  }

  /** For every byte string, message and rest: the decoder returns them exactly when the bytes are that
      message's encoding followed by that rest. */
  lemma DecodeExactly(b: ByteSeq, m: Message, rest: ByteSeq)
    ensures DecodeMessage(b) == Some((m, rest)) <==> b == EncodeMessage(m) + rest
  {
    DecodeExact(MESSAGE, b, MessageValue(m), rest);
    if b == EncodeMessage(m) + rest {
      MessageInjective(ToMessage(MessageValue(m)), m);
    }
  }

  /** No message's encoding starts another one's. */
  lemma MessagesPrefixFree(m: Message, m': Message, rest: ByteSeq, rest': ByteSeq)
    requires EncodeMessage(m) + rest == EncodeMessage(m') + rest'
    ensures m == m' && rest == rest'
  {
    DecodeExactly(EncodeMessage(m) + rest, m, rest);
    DecodeExactly(EncodeMessage(m) + rest, m', rest');
  }

  /** A message cut anywhere before its end is refused. */
  lemma TruncatedMessageFails(m: Message, k: nat)
    requires k < |EncodeMessage(m)|
    ensures DecodeMessage(EncodeMessage(m)[..k]) == None
  {
    TruncationFails(MESSAGE, MessageValue(m), k);
  }

  // ---------------------------------------------------------------- what is on the wire

  function Concat(parts: seq<ByteSeq>): ByteSeq {
    if parts == [] then [] else parts[0] + Concat(parts[1..])
  }

  lemma {:induction false} FieldsWire(fields: seq<Schema>, values: seq<Value>, parts: seq<ByteSeq>)
    requires AllConform(fields, values) && |parts| == |fields|
    requires forall i | 0 <= i < |fields| :: Encode(fields[i], values[i]) == parts[i]
    ensures EncodeFields(fields, values) == Concat(parts)
  {
    if fields == [] {
    } else {
      FieldsWire(fields[1..], values[1..], parts[1..]);
    }
  }

  lemma {:induction false} ItemsWire(elem: Schema, items: seq<Value>, parts: seq<ByteSeq>)
    requires (forall i | 0 <= i < |items| :: Conforms(elem, items[i])) && |parts| == |items|
    requires forall i | 0 <= i < |items| :: Encode(elem, items[i]) == parts[i]
    ensures EncodeItems(elem, items) == Concat(parts)
  {
    if items == [] {
    } else {
      ItemsWire(elem, items[1..], parts[1..]);
    }
  }

  /** Compact length, then the elements in order. */
  function WireVector(parts: seq<ByteSeq>): ByteSeq
    requires |parts| < SIZE_LIMIT
  {
    LengthFits(|parts|);
    Compact(|parts|) + Concat(parts)
  }

  function WireBlockInfo(b: BlockInfo): ByteSeq {
    Concat([LittleEndian(b.number, 4), b.hash])
  }

  function WireVote(x: Vote): ByteSeq {
    Concat([WireBlockInfo(x.message), x.signature, x.id])
  }

  function WireAuth(x: Auth): ByteSeq {
    Concat([x.signature, x.id])
  }

  function WireSigned(x: SignedMessage): ByteSeq {
    Concat([WireVote(x.message), x.signature, x.id])
  }

  function WireBlockInfos(xs: Sized<BlockInfo>): ByteSeq {
    WireVector(seq(|xs|, i requires 0 <= i < |xs| => WireBlockInfo(xs[i])))
  }

  function WireAuths(xs: Sized<Auth>): ByteSeq {
    WireVector(seq(|xs|, i requires 0 <= i < |xs| => WireAuth(xs[i])))
  }

  function WireSigneds(xs: Sized<SignedMessage>): ByteSeq {
    WireVector(seq(|xs|, i requires 0 <= i < |xs| => WireSigned(xs[i])))
  }

  function WireCommit(x: CompactCommit): ByteSeq {
    Concat([x.targetHash, LittleEndian(x.targetNumber, 4), WireBlockInfos(x.precommits), WireAuths(x.authData)])
  }

  /** The bytes of a message, alternative by alternative and field by field. */
  function Wire(m: Message): ByteSeq {
    match m
    case OfVote(x) => [0] + Concat([LittleEndian(x.roundNumber, 8), LittleEndian(x.setId, 8), WireVote(x.vote)])
    case OfCommit(x) => [1] + Concat([LittleEndian(x.round, 8), LittleEndian(x.setId, 8), WireCommit(x.message)])
    case OfNeighbor(x) =>
      [2] + Concat([LittleEndian(x.version, 1), LittleEndian(x.roundNumber, 8), LittleEndian(x.voterSetId, 8),
                    LittleEndian(x.lastFinalized, 4)])
    case OfRequest(x) => [3] + Concat([LittleEndian(x.roundNumber, 8), LittleEndian(x.voterSetId, 8)])
    case OfResponse(x) =>
      [4] + Concat([LittleEndian(x.voterSetId, 8), LittleEndian(x.roundNumber, 8),
                    WireSigneds(x.prevoteJustification), WireSigneds(x.precommitJustification),
                    WireBlockInfo(x.bestFinalCandidate)])
  }

  lemma BlockInfoOnWire(b: BlockInfo)
    ensures Encode(BLOCK_INFO, BlockInfoValue(b)) == WireBlockInfo(b)
  {
    FieldsWire(BLOCK_INFO.fields, BlockInfoValue(b).values, [LittleEndian(b.number, 4), b.hash]);
  }

  lemma VoteOnWire(x: Vote)
    ensures Encode(VOTE, VoteValue(x)) == WireVote(x)
  {
    BlockInfoOnWire(x.message);
    FieldsWire(VOTE.fields, VoteValue(x).values, [WireBlockInfo(x.message), x.signature, x.id]);
  }

  lemma AuthOnWire(x: Auth)
    ensures Encode(AUTH, AuthValue(x)) == WireAuth(x)
  {
    FieldsWire(AUTH.fields, AuthValue(x).values, [x.signature, x.id]);
  }

  lemma SignedOnWire(x: SignedMessage)
    ensures Encode(SIGNED_MESSAGE, SignedMessageValue(x)) == WireSigned(x)
  {
    VoteOnWire(x.message);
    FieldsWire(SIGNED_MESSAGE.fields, SignedMessageValue(x).values, [WireVote(x.message), x.signature, x.id]);
  }

  lemma BlockInfosOnWire(xs: Sized<BlockInfo>)
    ensures Encode(Vector(BLOCK_INFO), BlockInfosValue(xs)) == WireBlockInfos(xs)
  {
    forall i | 0 <= i < |xs|
      ensures Encode(BLOCK_INFO, BlockInfoValue(xs[i])) == WireBlockInfo(xs[i])
    {
      BlockInfoOnWire(xs[i]);
    }
    ItemsWire(BLOCK_INFO, BlockInfosValue(xs).items, seq(|xs|, i requires 0 <= i < |xs| => WireBlockInfo(xs[i])));
  }

  lemma AuthsOnWire(xs: Sized<Auth>)
    ensures Encode(Vector(AUTH), AuthsValue(xs)) == WireAuths(xs)
  {
    forall i | 0 <= i < |xs|
      ensures Encode(AUTH, AuthValue(xs[i])) == WireAuth(xs[i])
    {
      AuthOnWire(xs[i]);
    }
    ItemsWire(AUTH, AuthsValue(xs).items, seq(|xs|, i requires 0 <= i < |xs| => WireAuth(xs[i])));
  }

  lemma SignedsOnWire(xs: Sized<SignedMessage>)
    ensures Encode(Vector(SIGNED_MESSAGE), SignedMessagesValue(xs)) == WireSigneds(xs)
  {
    forall i | 0 <= i < |xs|
      ensures Encode(SIGNED_MESSAGE, SignedMessageValue(xs[i])) == WireSigned(xs[i])
    {
      SignedOnWire(xs[i]);
    }
    ItemsWire(SIGNED_MESSAGE, SignedMessagesValue(xs).items,
              seq(|xs|, i requires 0 <= i < |xs| => WireSigned(xs[i])));
  }

  lemma CommitOnWire(x: CompactCommit)
    ensures Encode(COMPACT_COMMIT, CompactCommitValue(x)) == WireCommit(x)
  {
    BlockInfosOnWire(x.precommits);
    AuthsOnWire(x.authData);
    FieldsWire(COMPACT_COMMIT.fields, CompactCommitValue(x).values,
               [x.targetHash, LittleEndian(x.targetNumber, 4), WireBlockInfos(x.precommits), WireAuths(x.authData)]);
  }

  lemma VoteMessageOnWire(x: VoteMessage)
    ensures Encode(VOTE_MESSAGE, VoteMessageValue(x)) ==
            Concat([LittleEndian(x.roundNumber, 8), LittleEndian(x.setId, 8), WireVote(x.vote)])
  {
    VoteOnWire(x.vote);
    FieldsWire(VOTE_MESSAGE.fields, VoteMessageValue(x).values,
               [LittleEndian(x.roundNumber, 8), LittleEndian(x.setId, 8), WireVote(x.vote)]);
  }

  lemma FullCommitOnWire(x: FullCommitMessage)
    ensures Encode(FULL_COMMIT, FullCommitValue(x)) ==
            Concat([LittleEndian(x.round, 8), LittleEndian(x.setId, 8), WireCommit(x.message)])
  {
    CommitOnWire(x.message);
    FieldsWire(FULL_COMMIT.fields, FullCommitValue(x).values,
               [LittleEndian(x.round, 8), LittleEndian(x.setId, 8), WireCommit(x.message)]);
  }

  lemma ResponseOnWire(x: CatchUpResponse)
    ensures Encode(CATCH_UP_RESPONSE, CatchUpResponseValue(x)) ==
            Concat([LittleEndian(x.voterSetId, 8), LittleEndian(x.roundNumber, 8),
                    WireSigneds(x.prevoteJustification), WireSigneds(x.precommitJustification),
                    WireBlockInfo(x.bestFinalCandidate)])
  {
    var fields, values := CATCH_UP_RESPONSE.fields, CatchUpResponseValue(x).values;
    var parts := [LittleEndian(x.voterSetId, 8), LittleEndian(x.roundNumber, 8), WireSigneds(x.prevoteJustification),
                  WireSigneds(x.precommitJustification), WireBlockInfo(x.bestFinalCandidate)];
    SignedsOnWire(x.prevoteJustification);
    SignedsOnWire(x.precommitJustification);
    BlockInfoOnWire(x.bestFinalCandidate);
    forall i | 0 <= i < |fields|
      ensures Encode(fields[i], values[i]) == parts[i]
    {
      assert i == 0 || i == 1 || i == 2 || i == 3 || i == 4;
    }
    FieldsWire(fields, values, parts);
  }

  /** The archive-driven encoder writes exactly the reference layout. */
  lemma MessageOnWire(m: Message)
    ensures EncodeMessage(m) == Wire(m)
  {
    var index, value := MessageValue(m).index, MessageValue(m).value;
    assert EncodeMessage(m) == [index] + Encode(MESSAGE.alternatives[index], value);
    match m
    case OfVote(x) => VoteMessageOnWire(x);
    case OfCommit(x) => FullCommitOnWire(x);
    case OfNeighbor(x) =>
      FieldsWire(NEIGHBOR.fields, value.values,
                 [LittleEndian(x.version, 1), LittleEndian(x.roundNumber, 8), LittleEndian(x.voterSetId, 8),
                  LittleEndian(x.lastFinalized, 4)]);
    case OfRequest(x) =>
      FieldsWire(CATCH_UP_REQUEST.fields, value.values,
                 [LittleEndian(x.roundNumber, 8), LittleEndian(x.voterSetId, 8)]);
    case OfResponse(x) => ResponseOnWire(x);
  }

  // ---------------------------------------------------------------- how long it is

  function CompactSize(n: nat): nat {
    if n < 0x40 then 1 else if n < 0x4000 then 2 else if n < 0x4000_0000 then 4 else 1 + ByteLength(n)
  }

  function Size(m: Message): nat {
    match m
    case OfVote(_) => 148
    case OfCommit(x) =>
      var n, k := |x.message.precommits|, |x.message.authData|;
      52 + CompactSize(n) + 36 * n + CompactSize(k) + 96 * k
    case OfNeighbor(_) => 21
    case OfRequest(_) => 16
    case OfResponse(x) =>
      var n, k := |x.prevoteJustification|, |x.precommitJustification|;
      52 + CompactSize(n) + 228 * n + CompactSize(k) + 228 * k
  }

  lemma {:induction false} ConcatEven(parts: seq<ByteSeq>, width: nat)
    requires forall i :: 0 <= i < |parts| ==> |parts[i]| == width
    ensures |Concat(parts)| == width * |parts|
  {
    if parts == [] {
    } else {
      ConcatEven(parts[1..], width);
    }
  }

  lemma WireVectorSize(parts: seq<ByteSeq>, width: nat)
    requires |parts| < SIZE_LIMIT && forall i :: 0 <= i < |parts| ==> |parts[i]| == width
    ensures |WireVector(parts)| == CompactSize(|parts|) + width * |parts|
  {
    LengthFits(|parts|);
    ConcatEven(parts, width);
  }

  lemma Concat2(a: ByteSeq, b: ByteSeq)
    ensures |Concat([a, b])| == |a| + |b|
  {
    assert [a, b][1..] == [b] && [b][1..] == [];
    assert Concat([b]) == b + Concat([]);
  }

  lemma Concat3(a: ByteSeq, b: ByteSeq, c: ByteSeq)
    ensures |Concat([a, b, c])| == |a| + |b| + |c|
  {
    assert [a, b, c][1..] == [b, c];
    Concat2(b, c);
  }

  lemma Concat4(a: ByteSeq, b: ByteSeq, c: ByteSeq, d: ByteSeq)
    ensures |Concat([a, b, c, d])| == |a| + |b| + |c| + |d|
  {
    assert [a, b, c, d][1..] == [b, c, d];
    Concat3(b, c, d);
  }

  lemma Concat5(a: ByteSeq, b: ByteSeq, c: ByteSeq, d: ByteSeq, e: ByteSeq)
    ensures |Concat([a, b, c, d, e])| == |a| + |b| + |c| + |d| + |e|
  {
    assert [a, b, c, d, e][1..] == [b, c, d, e];
    Concat4(b, c, d, e);
  }

  lemma BlockInfoSize(b: BlockInfo)
    ensures |WireBlockInfo(b)| == 36
  {
    Concat2(LittleEndian(b.number, 4), b.hash);
  }

  lemma VoteSize(x: Vote)
    ensures |WireVote(x)| == 132
  {
    BlockInfoSize(x.message);
    Concat3(WireBlockInfo(x.message), x.signature, x.id);
  }

  lemma SignedSize(x: SignedMessage)
    ensures |WireSigned(x)| == 228
  {
    VoteSize(x.message);
    Concat3(WireVote(x.message), x.signature, x.id);
  }

  lemma SignedsSize(xs: Sized<SignedMessage>)
    ensures |WireSigneds(xs)| == CompactSize(|xs|) + 228 * |xs|
  {
    forall i | 0 <= i < |xs|
      ensures |WireSigned(xs[i])| == 228
    {
      SignedSize(xs[i]);
    }
    WireVectorSize(seq(|xs|, i requires 0 <= i < |xs| => WireSigned(xs[i])), 228);
  }

  lemma BlockInfosSize(xs: Sized<BlockInfo>)
    ensures |WireBlockInfos(xs)| == CompactSize(|xs|) + 36 * |xs|
  {
    forall i | 0 <= i < |xs|
      ensures |WireBlockInfo(xs[i])| == 36
    {
      BlockInfoSize(xs[i]);
    }
    WireVectorSize(seq(|xs|, i requires 0 <= i < |xs| => WireBlockInfo(xs[i])), 36);
  }

  lemma AuthsSize(xs: Sized<Auth>)
    ensures |WireAuths(xs)| == CompactSize(|xs|) + 96 * |xs|
  {
    forall i | 0 <= i < |xs|
      ensures |WireAuth(xs[i])| == 96
    {
      Concat2(xs[i].signature, xs[i].id);
    }
    WireVectorSize(seq(|xs|, i requires 0 <= i < |xs| => WireAuth(xs[i])), 96);
  }

  lemma CommitSize(x: CompactCommit)
    ensures |WireCommit(x)| ==
            36 + CompactSize(|x.precommits|) + 36 * |x.precommits| + CompactSize(|x.authData|) + 96 * |x.authData|
  {
    BlockInfosSize(x.precommits);
    AuthsSize(x.authData);
    Concat4(x.targetHash, LittleEndian(x.targetNumber, 4), WireBlockInfos(x.precommits), WireAuths(x.authData));
  }

  lemma WireSize(m: Message)
    ensures |Wire(m)| == 1 + Size(m)
  {
    match m
    case OfVote(x) =>
      VoteSize(x.vote);
      Concat3(LittleEndian(x.roundNumber, 8), LittleEndian(x.setId, 8), WireVote(x.vote));
    case OfCommit(x) =>
      CommitSize(x.message);
      Concat3(LittleEndian(x.round, 8), LittleEndian(x.setId, 8), WireCommit(x.message));
    case OfNeighbor(x) =>
      Concat4(LittleEndian(x.version, 1), LittleEndian(x.roundNumber, 8), LittleEndian(x.voterSetId, 8),
              LittleEndian(x.lastFinalized, 4));
    case OfRequest(x) => Concat2(LittleEndian(x.roundNumber, 8), LittleEndian(x.voterSetId, 8));
    case OfResponse(x) =>
      SignedsSize(x.prevoteJustification);
      SignedsSize(x.precommitJustification);
      BlockInfoSize(x.bestFinalCandidate);
      Concat5(LittleEndian(x.voterSetId, 8), LittleEndian(x.roundNumber, 8), WireSigneds(x.prevoteJustification),
              WireSigneds(x.precommitJustification), WireBlockInfo(x.bestFinalCandidate));
  }

  /** On any input, a successful decode consumes exactly the closed-form size of what it returns. */
  lemma DecodeConsumes(b: ByteSeq)
    requires DecodeMessage(b).Some?
    ensures var (m, rest) := DecodeMessage(b).value;
            |b| == 1 + Size(m) + |rest|
  {
    var (m, rest) := DecodeMessage(b).value;
    DecodeExactly(b, m, rest);
    MessageOnWire(m);
    WireSize(m);
  }
}
