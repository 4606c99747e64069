/** The GRANDPA message records, the one description each `serialize` gives, and the codec they induce. */
module Grandpa {
  import opened Outcomes
  import opened Bytes
  import opened Scale

  type U8 = n: nat | n < 0x100
  type U32 = n: nat | n < 0x1_0000_0000
  type U64 = n: nat | n < 0x1_0000_0000_0000_0000
  type Hash = b: ByteSeq | |b| == 32 witness seq<Byte>(32, _ => 0)
  type Id = b: ByteSeq | |b| == 32 witness seq<Byte>(32, _ => 0)
  type Signature = b: ByteSeq | |b| == 64 witness seq<Byte>(64, _ => 0)
  type Sized<T> = s: seq<T> | |s| < SIZE_LIMIT

  datatype BlockInfo = BlockInfo(number: U32, hash: Hash)

  datatype Vote = Vote(message: BlockInfo, signature: Signature, id: Id)

  datatype VoteMessage = VoteMessage(roundNumber: U64, setId: U64, vote: Vote)

  datatype Auth = Auth(signature: Signature, id: Id)

  datatype CompactCommit = CompactCommit(
    targetHash: Hash, targetNumber: U32, precommits: Sized<BlockInfo>, authData: Sized<Auth>)

  datatype FullCommitMessage = FullCommitMessage(round: U64, setId: U64, message: CompactCommit)

  datatype NeighborMessage = NeighborMessage(version: U8, roundNumber: U64, voterSetId: U64, lastFinalized: U32)

  datatype CatchUpRequest = CatchUpRequest(roundNumber: U64, voterSetId: U64)

  datatype SignedMessage = SignedMessage(message: Vote, signature: Signature, id: Id)

  datatype CatchUpResponse = CatchUpResponse(
    voterSetId: U64, roundNumber: U64, prevoteJustification: Sized<SignedMessage>,
    precommitJustification: Sized<SignedMessage>, bestFinalCandidate: BlockInfo)

  /** The order of the alternatives is the variant index on the wire. */
  datatype Message =
    | OfVote(vote: VoteMessage)
    | OfCommit(commit: FullCommitMessage)
    | OfNeighbor(neighbor: NeighborMessage)
    | OfRequest(request: CatchUpRequest)
    | OfResponse(response: CatchUpResponse)

  // ---------------------------------------------------------------- the descriptions

  const BLOCK_INFO := Record([UInt(4), Fixed(32)])
  const VOTE := Record([BLOCK_INFO, Fixed(64), Fixed(32)])
  const VOTE_MESSAGE := Record([UInt(8), UInt(8), VOTE])
  const AUTH := Record([Fixed(64), Fixed(32)])
  const COMPACT_COMMIT := Record([Fixed(32), UInt(4), Vector(BLOCK_INFO), Vector(AUTH)])
  const FULL_COMMIT := Record([UInt(8), UInt(8), COMPACT_COMMIT])
  const NEIGHBOR := Record([UInt(1), UInt(8), UInt(8), UInt(4)])
  const CATCH_UP_REQUEST := Record([UInt(8), UInt(8)])
  const SIGNED_MESSAGE := Record([VOTE, Fixed(64), Fixed(32)])
  const CATCH_UP_RESPONSE :=
    Record([UInt(8), UInt(8), Vector(SIGNED_MESSAGE), Vector(SIGNED_MESSAGE), BLOCK_INFO])
  const MESSAGE := Variant([VOTE_MESSAGE, FULL_COMMIT, NEIGHBOR, CATCH_UP_REQUEST, CATCH_UP_RESPONSE])

  // ---------------------------------------------------------------- records as values

  function BlockInfoValue(b: BlockInfo): (v: Value)
    ensures Conforms(BLOCK_INFO, v)
  {
    Pow256Values();
    Rec([Num(b.number), Raw(b.hash)])
  }

  function ToBlockInfo(v: Value): (b: BlockInfo)
    requires Conforms(BLOCK_INFO, v)
    ensures BlockInfoValue(b) == v
  {
    Pow256Values();
    Fields(BLOCK_INFO.fields, v.values);
    BlockInfo(v.values[0].n, v.values[1].bytes)
  }

  function VoteValue(x: Vote): (v: Value)
    ensures Conforms(VOTE, v)
  {
    Rec([BlockInfoValue(x.message), Raw(x.signature), Raw(x.id)])
  }

  function ToVote(v: Value): (x: Vote)
    requires Conforms(VOTE, v)
    ensures VoteValue(x) == v
  {
    Fields(VOTE.fields, v.values);
    Vote(ToBlockInfo(v.values[0]), v.values[1].bytes, v.values[2].bytes)
  }

  function VoteMessageValue(x: VoteMessage): (v: Value)
    ensures Conforms(VOTE_MESSAGE, v)
  {
    Pow256Values();
    Rec([Num(x.roundNumber), Num(x.setId), VoteValue(x.vote)])
  }

  function ToVoteMessage(v: Value): (x: VoteMessage)
    requires Conforms(VOTE_MESSAGE, v)
    ensures VoteMessageValue(x) == v
  {
    Pow256Values();
    Fields(VOTE_MESSAGE.fields, v.values);
    VoteMessage(v.values[0].n, v.values[1].n, ToVote(v.values[2]))
  }

  function AuthValue(x: Auth): (v: Value)
    ensures Conforms(AUTH, v)
  {
    Rec([Raw(x.signature), Raw(x.id)])
  }

  function ToAuth(v: Value): (x: Auth)
    requires Conforms(AUTH, v)
    ensures AuthValue(x) == v
  {
    Fields(AUTH.fields, v.values);
    Auth(v.values[0].bytes, v.values[1].bytes)
  }

  function BlockInfosValue(xs: Sized<BlockInfo>): (v: Value)
    ensures Conforms(Vector(BLOCK_INFO), v)
  {
    Items(seq(|xs|, i requires 0 <= i < |xs| => BlockInfoValue(xs[i])))
  }

  function ToBlockInfos(v: Value): (xs: Sized<BlockInfo>)
    requires Conforms(Vector(BLOCK_INFO), v)
    ensures BlockInfosValue(xs) == v
  {
    seq(|v.items|, i requires 0 <= i < |v.items| => ToBlockInfo(v.items[i]))
  }

  function AuthsValue(xs: Sized<Auth>): (v: Value)
    ensures Conforms(Vector(AUTH), v)
  {
    Items(seq(|xs|, i requires 0 <= i < |xs| => AuthValue(xs[i])))
  }

  function ToAuths(v: Value): (xs: Sized<Auth>)
    requires Conforms(Vector(AUTH), v)
    ensures AuthsValue(xs) == v
  {
    seq(|v.items|, i requires 0 <= i < |v.items| => ToAuth(v.items[i]))
  }

  function CompactCommitValue(x: CompactCommit): (v: Value)
    ensures Conforms(COMPACT_COMMIT, v)
  {
    Pow256Values();
    Rec([Raw(x.targetHash), Num(x.targetNumber), BlockInfosValue(x.precommits), AuthsValue(x.authData)])
  }

  function ToCompactCommit(v: Value): (x: CompactCommit)
    requires Conforms(COMPACT_COMMIT, v)
    ensures CompactCommitValue(x) == v
  {
    Pow256Values();
    Fields(COMPACT_COMMIT.fields, v.values);
    CompactCommit(v.values[0].bytes, v.values[1].n, ToBlockInfos(v.values[2]), ToAuths(v.values[3]))
  }

  function FullCommitValue(x: FullCommitMessage): (v: Value)
    ensures Conforms(FULL_COMMIT, v)
  {
    Pow256Values();
    Rec([Num(x.round), Num(x.setId), CompactCommitValue(x.message)])
  }

  function ToFullCommit(v: Value): (x: FullCommitMessage)
    requires Conforms(FULL_COMMIT, v)
    ensures FullCommitValue(x) == v
  {
    Pow256Values();
    Fields(FULL_COMMIT.fields, v.values);
    FullCommitMessage(v.values[0].n, v.values[1].n, ToCompactCommit(v.values[2]))
  }

  function NeighborValue(x: NeighborMessage): (v: Value)
    ensures Conforms(NEIGHBOR, v)
  {
    Pow256Values();
    Rec([Num(x.version), Num(x.roundNumber), Num(x.voterSetId), Num(x.lastFinalized)])
  }

  function ToNeighbor(v: Value): (x: NeighborMessage)
    requires Conforms(NEIGHBOR, v)
    ensures NeighborValue(x) == v
  {
    Pow256Values();
    Fields(NEIGHBOR.fields, v.values);
    NeighborMessage(v.values[0].n, v.values[1].n, v.values[2].n, v.values[3].n)
  }

  function CatchUpRequestValue(x: CatchUpRequest): (v: Value)
    ensures Conforms(CATCH_UP_REQUEST, v)
  {
    Pow256Values();
    Rec([Num(x.roundNumber), Num(x.voterSetId)])
  }

  function ToCatchUpRequest(v: Value): (x: CatchUpRequest)
    requires Conforms(CATCH_UP_REQUEST, v)
    ensures CatchUpRequestValue(x) == v
  {
    Pow256Values();
    Fields(CATCH_UP_REQUEST.fields, v.values);
    CatchUpRequest(v.values[0].n, v.values[1].n)
  }

  function SignedMessageValue(x: SignedMessage): (v: Value)
    ensures Conforms(SIGNED_MESSAGE, v)
  {
    Rec([VoteValue(x.message), Raw(x.signature), Raw(x.id)])
  }

  function ToSignedMessage(v: Value): (x: SignedMessage)
    requires Conforms(SIGNED_MESSAGE, v)
    ensures SignedMessageValue(x) == v
  {
    Fields(SIGNED_MESSAGE.fields, v.values);
    SignedMessage(ToVote(v.values[0]), v.values[1].bytes, v.values[2].bytes)
  }

  function SignedMessagesValue(xs: Sized<SignedMessage>): (v: Value)
    ensures Conforms(Vector(SIGNED_MESSAGE), v)
  {
    Items(seq(|xs|, i requires 0 <= i < |xs| => SignedMessageValue(xs[i])))
  }

  function ToSignedMessages(v: Value): (xs: Sized<SignedMessage>)
    requires Conforms(Vector(SIGNED_MESSAGE), v)
    ensures SignedMessagesValue(xs) == v
  {
    seq(|v.items|, i requires 0 <= i < |v.items| => ToSignedMessage(v.items[i]))
  }

  function CatchUpResponseValue(x: CatchUpResponse): (v: Value)
    ensures Conforms(CATCH_UP_RESPONSE, v)
  {
    Pow256Values();
    Rec([Num(x.voterSetId), Num(x.roundNumber), SignedMessagesValue(x.prevoteJustification),
         SignedMessagesValue(x.precommitJustification), BlockInfoValue(x.bestFinalCandidate)])
  }

  function ToCatchUpResponse(v: Value): (x: CatchUpResponse)
    requires Conforms(CATCH_UP_RESPONSE, v)
    ensures CatchUpResponseValue(x) == v
  {
    Pow256Values();
    Fields(CATCH_UP_RESPONSE.fields, v.values);
    CatchUpResponse(v.values[0].n, v.values[1].n, ToSignedMessages(v.values[2]), ToSignedMessages(v.values[3]),
                    ToBlockInfo(v.values[4]))
  }

  function MessageValue(m: Message): (v: Value)
    ensures Conforms(MESSAGE, v)
  {
    match m
    case OfVote(x) => Alt(0, VoteMessageValue(x))
    case OfCommit(x) => Alt(1, FullCommitValue(x))
    case OfNeighbor(x) => Alt(2, NeighborValue(x))
    case OfRequest(x) => Alt(3, CatchUpRequestValue(x))
    case OfResponse(x) => Alt(4, CatchUpResponseValue(x))
  }

  function ToMessage(v: Value): (m: Message)
    requires Conforms(MESSAGE, v)
    ensures MessageValue(m) == v
  {
    if v.index == 0 then OfVote(ToVoteMessage(v.value))
    else if v.index == 1 then OfCommit(ToFullCommit(v.value))
    else if v.index == 2 then OfNeighbor(ToNeighbor(v.value))
    else if v.index == 3 then OfRequest(ToCatchUpRequest(v.value))
    else OfResponse(ToCatchUpResponse(v.value))
  }

  /** Brings each field's own description into view. */
  lemma Fields(fields: seq<Schema>, values: seq<Value>)
    requires AllConform(fields, values)
    ensures 0 < |fields| ==> Conforms(fields[0], values[0])
    ensures 1 < |fields| ==> Conforms(fields[1], values[1])
    ensures 2 < |fields| ==> Conforms(fields[2], values[2])
    ensures 3 < |fields| ==> Conforms(fields[3], values[3])
    ensures 4 < |fields| ==> Conforms(fields[4], values[4])
  {
  }
}
