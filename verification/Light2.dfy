/** The light2 requests and responses: conversion to and from protobuf messages and their wire form. */
module Light2 {
  import opened Outcomes
  import opened Bytes
  import opened Varints
  import opened Protobuf
  import opened Utf8

  type BlockHash = b: ByteSeq | |b| == 32 witness seq<Byte>(32, _ => 0)

  datatype Request =
    | RemoteCall(block: BlockHash, method_: ByteSeq, data: ByteSeq)
    | RemoteRead(block: BlockHash, keys: seq<ByteSeq>)
    | RemoteReadChild(block: BlockHash, storageKey: ByteSeq, keys: seq<ByteSeq>)

  datatype CallMessage = CallMessage(block: ByteSeq, method_: ByteSeq, data: ByteSeq)

  datatype ReadMessage = ReadMessage(block: ByteSeq, keys: seq<ByteSeq>)

  datatype ChildMessage = ChildMessage(block: ByteSeq, storageKey: ByteSeq, keys: seq<ByteSeq>)

  /** `message Request` with its oneof. */
  datatype ProtoRequest =
    | NoRequest
    | CallRequest(call: CallMessage)
    | ReadRequest(read: ReadMessage)
    | ChildRequest(child: ChildMessage)

  function ProtoOf(r: Request): ProtoRequest {
    match r
    case RemoteCall(block, method_, data) => CallRequest(CallMessage(block, method_, data))
    case RemoteRead(block, keys) => ReadRequest(ReadMessage(block, keys))
    case RemoteReadChild(block, storageKey, keys) => ChildRequest(ChildMessage(block, storageKey, keys))
  }

  /** `toProto`: picks the oneof case and fills its message field by field, keys one at a time. */
  method ToProto(r: Request) returns (p: ProtoRequest)
    ensures p == ProtoOf(r)
  {
    match r {
      case RemoteCall(block, method_, data) =>
        var msg := CallMessage([], [], []);
        msg := msg.(block := block);
        msg := msg.(method_ := method_);
        msg := msg.(data := data);
        return CallRequest(msg);
      case RemoteRead(block, keys) =>
        var msg := ReadMessage([], []);
        msg := msg.(block := block);
        var i := 0;
        while i < |keys|
          invariant i <= |keys| && msg == ReadMessage(block, keys[..i])
        {
          msg := msg.(keys := msg.keys + [keys[i]]);
          i := i + 1;
        }
        assert keys[..i] == keys;
        return ReadRequest(msg);
      case RemoteReadChild(block, storageKey, keys) =>
        var msg := ChildMessage([], [], []);
        msg := msg.(block := block);
        msg := msg.(storageKey := storageKey);
        var i := 0;
        while i < |keys|
          invariant i <= |keys| && msg == ChildMessage(block, storageKey, keys[..i])
        {
          msg := msg.(keys := msg.keys + [keys[i]]);
          i := i + 1;
        }
        assert keys[..i] == keys;
        return ChildRequest(msg);
    }
  }

  // ---------------------------------------------------------------- writing

  /** A proto3 field without presence is left out when it is empty. */
  function Optional(number: nat, bytes: ByteSeq): seq<Field> {
    if bytes == [] then [] else [Chunk(number, bytes)]
  }

  function Repeated(number: nat, items: seq<ByteSeq>): seq<Field> {
    if items == [] then [] else [Chunk(number, items[0])] + Repeated(number, items[1..])
  }

  function CallFields(m: CallMessage): seq<Field> {
    Optional(2, m.block) + (Optional(3, m.method_) + Optional(4, m.data))
  }

  function ReadFields(m: ReadMessage): seq<Field> {
    Optional(2, m.block) + Repeated(3, m.keys)
  }

  function ChildFields(m: ChildMessage): seq<Field> {
    Optional(2, m.block) + (Optional(3, m.storageKey) + Repeated(6, m.keys))
  }

  function RequestFields(p: ProtoRequest): seq<Field> {
    match p
    case NoRequest => []
    case CallRequest(m) => [Chunk(1, Serialize(CallFields(m)))]
    case ReadRequest(m) => [Chunk(2, Serialize(ReadFields(m)))]
    case ChildRequest(m) => [Chunk(4, Serialize(ChildFields(m)))]
  }

  function SerializeRequest(p: ProtoRequest): ByteSeq {
    Serialize(RequestFields(p))
  }

  // ---------------------------------------------------------------- the bytes themselves

  function Tagged(tag: Byte, bytes: ByteSeq): ByteSeq {
    [tag] + (Varint(|bytes|) + bytes)
  }

  function TaggedIf(tag: Byte, bytes: ByteSeq): ByteSeq {
    if bytes == [] then [] else Tagged(tag, bytes)
  }

  function TaggedAll(tag: Byte, items: seq<ByteSeq>): ByteSeq {
    if items == [] then [] else Tagged(tag, items[0]) + TaggedAll(tag, items[1..])
  }

  /** A request with the tag bytes `light.proto` gives its fields written out. */
  function WireRequest(r: Request): ByteSeq {
    match r
    case RemoteCall(block, method_, data) =>
      Tagged(0x0A, Tagged(0x12, block) + (TaggedIf(0x1A, method_) + TaggedIf(0x22, data)))
    case RemoteRead(block, keys) =>
      Tagged(0x12, Tagged(0x12, block) + TaggedAll(0x1A, keys))
    case RemoteReadChild(block, storageKey, keys) =>
      Tagged(0x22, Tagged(0x12, block) + (TaggedIf(0x1A, storageKey) + TaggedAll(0x32, keys)))
  }

  lemma ChunkOnWire(number: nat, bytes: ByteSeq)
    requires 0 < number < 16
    ensures FieldBytes(Chunk(number, bytes)) == Tagged(8 * number + 2, bytes)
    ensures Serialize([Chunk(number, bytes)]) == Tagged(8 * number + 2, bytes)
  {
    var f := Chunk(number, bytes);
    assert Varint(8 * number + 2) == [8 * number + 2];
    assert Serialize([f]) == FieldBytes(f) + Serialize([f][1..]);
  }

  lemma SerializeFirst(a: seq<Field>, b: seq<Field>)
    requires a != []
    ensures Serialize(a + b) == FieldBytes(a[0]) + Serialize(a[1..] + b)
  {
    assert (a + b)[1..] == a[1..] + b;
  }

  lemma {:induction false} SerializeAppends(a: seq<Field>, b: seq<Field>)
    ensures Serialize(a + b) == Serialize(a) + Serialize(b)
  {
    if a == [] {
      assert a + b == b;
    } else {
      SerializeAppends(a[1..], b);
      SerializeFirst(a, b);
      Assoc(FieldBytes(a[0]), Serialize(a[1..]), Serialize(b));
    }
  }

  lemma OptionalOnWire(number: nat, bytes: ByteSeq)
    requires 0 < number < 16
    ensures Serialize(Optional(number, bytes)) == TaggedIf(8 * number + 2, bytes)
  {
    ChunkOnWire(number, bytes);
  }

  lemma {:induction false} RepeatedOnWire(number: nat, items: seq<ByteSeq>)
    requires 0 < number < 16
    ensures Serialize(Repeated(number, items)) == TaggedAll(8 * number + 2, items)
  {
    if items == [] {
    } else {
      ChunkOnWire(number, items[0]);
      RepeatedOnWire(number, items[1..]);
      assert Repeated(number, items)[1..] == Repeated(number, items[1..]);
    }
  }

  /** Conversion and serialization together write exactly those bytes. */
  lemma RequestOnWire(r: Request)
    ensures SerializeRequest(ProtoOf(r)) == WireRequest(r)
  {
    OptionalOnWire(2, r.block);
    match r
    case RemoteCall(block, method_, data) =>
      CallTailOnWire(method_, data);
      SerializeAppends(Optional(2, block), Optional(3, method_) + Optional(4, data));
      ChunkOnWire(1, Serialize(CallFields(ProtoOf(r).call)));
    case RemoteRead(block, keys) =>
      RepeatedOnWire(3, keys);
      SerializeAppends(Optional(2, block), Repeated(3, keys));
      ChunkOnWire(2, Serialize(ReadFields(ProtoOf(r).read)));
    case RemoteReadChild(block, storageKey, keys) =>
      ChildTailOnWire(storageKey, keys);
      SerializeAppends(Optional(2, block), Optional(3, storageKey) + Repeated(6, keys));
      ChunkOnWire(4, Serialize(ChildFields(ProtoOf(r).child)));
  }

  lemma CallTailOnWire(method_: ByteSeq, data: ByteSeq)
    ensures Serialize(Optional(3, method_) + Optional(4, data)) == TaggedIf(0x1A, method_) + TaggedIf(0x22, data)
  {
    OptionalOnWire(3, method_);
    OptionalOnWire(4, data);
    SerializeAppends(Optional(3, method_), Optional(4, data));
  }

  lemma ChildTailOnWire(storageKey: ByteSeq, keys: seq<ByteSeq>)
    ensures Serialize(Optional(3, storageKey) + Repeated(6, keys)) == TaggedIf(0x1A, storageKey) + TaggedAll(0x32, keys)
  {
    OptionalOnWire(3, storageKey);
    RepeatedOnWire(6, keys);
    SerializeAppends(Optional(3, storageKey), Repeated(6, keys));
  }

  // ---------------------------------------------------------------- reading

  /** Fields are merged in order; later singular values win, repeated ones accumulate, unknown ones are skipped. */
  function MergeCall(m: CallMessage, fields: seq<Field>): Option<CallMessage>
    decreases |fields|
  {
    if fields == [] then Some(m)
    else
      match fields[0]
      case Chunk(2, bytes) => MergeCall(m.(block := bytes), fields[1..])
      case Chunk(3, bytes) => if ValidUtf8(bytes) then MergeCall(m.(method_ := bytes), fields[1..]) else None
      case Chunk(4, bytes) => MergeCall(m.(data := bytes), fields[1..])
      case _ => MergeCall(m, fields[1..])
  }

  function MergeRead(m: ReadMessage, fields: seq<Field>): ReadMessage
    decreases |fields|
  {
    if fields == [] then m
    else
      match fields[0]
      case Chunk(2, bytes) => MergeRead(m.(block := bytes), fields[1..])
      case Chunk(3, bytes) => MergeRead(m.(keys := m.keys + [bytes]), fields[1..])
      case _ => MergeRead(m, fields[1..])
  }

  function MergeChild(m: ChildMessage, fields: seq<Field>): ChildMessage
    decreases |fields|
  {
    if fields == [] then m
    else
      match fields[0]
      case Chunk(2, bytes) => MergeChild(m.(block := bytes), fields[1..])
      case Chunk(3, bytes) => MergeChild(m.(storageKey := bytes), fields[1..])
      case Chunk(6, bytes) => MergeChild(m.(keys := m.keys + [bytes]), fields[1..])
      case _ => MergeChild(m, fields[1..])
  }

  /** A second occurrence of the same case merges into the first; another case replaces it. */
  function MergeRequest(p: ProtoRequest, f: Field): Option<ProtoRequest> {
    match f
    case Chunk(1, bytes) =>
      (match Parse(bytes)
       case None => None
       case Some(fields) =>
         match MergeCall(if p.CallRequest? then p.call else CallMessage([], [], []), fields)
         case None => None
         case Some(m) => Some(CallRequest(m)))
    case Chunk(2, bytes) =>
      (match Parse(bytes)
       case None => None
       case Some(fields) =>
         Some(ReadRequest(MergeRead(if p.ReadRequest? then p.read else ReadMessage([], []), fields))))
    case Chunk(4, bytes) =>
      (match Parse(bytes)
       case None => None
       case Some(fields) =>
         Some(ChildRequest(MergeChild(if p.ChildRequest? then p.child else ChildMessage([], [], []), fields))))
    case _ => Some(p)
  }

  function MergeAll(p: ProtoRequest, fields: seq<Field>): Option<ProtoRequest>
    decreases |fields|
  {
    if fields == [] then Some(p)
    else
      match MergeRequest(p, fields[0])
      case None => None
      case Some(p') => MergeAll(p', fields[1..])
  }

  /** `Request::ParseFromArray`. */
  function ParseRequest(b: ByteSeq): Option<ProtoRequest> {
    if |b| >= MESSAGE_LIMIT then None
    else
      match Parse(b)
      case None => None
      case Some(fields) => MergeAll(NoRequest, fields)
  }

  // ---------------------------------------------------------------- requests survive the wire

  lemma {:induction false} RepeatedFields(number: nat, items: seq<ByteSeq>)
    ensures |Repeated(number, items)| == |items|
    ensures forall i :: 0 <= i < |items| ==> Repeated(number, items)[i] == Chunk(number, items[i])
  {
    if items == [] {
    } else {
      RepeatedFields(number, items[1..]);
    }
  }

  predicate AllChunks(fields: seq<Field>) {
    forall i :: 0 <= i < |fields| ==> fields[i].Chunk? && 0 < fields[i].number < 16
  }

  /** Chunks of a message below the size limit parse back. */
  lemma SubmessageParses(fields: seq<Field>)
    requires |Serialize(fields)| < MESSAGE_LIMIT && AllChunks(fields)
    ensures Parse(Serialize(fields)) == Some(fields)
  {
    forall i | 0 <= i < |fields|
      ensures WellFormed(fields[i])
    {
      ChunksFit(fields, i);
    }
    ParseSerialize(fields);
  }

  /** A oneof case is a message inside a message; both levels parse back. */
  lemma WrappedParses(number: nat, inner: seq<Field>)
    requires 0 < number < 16 && AllChunks(inner)
    requires |Serialize([Chunk(number, Serialize(inner))])| < MESSAGE_LIMIT
    ensures Parse(Serialize([Chunk(number, Serialize(inner))])) == Some([Chunk(number, Serialize(inner))])
    ensures Parse(Serialize(inner)) == Some(inner)
  {
    ChunksFit([Chunk(number, Serialize(inner))], 0);
    SubmessageParses([Chunk(number, Serialize(inner))]);
    SubmessageParses(inner);
  }

  lemma MergeCallFields(m: CallMessage)
    ensures MergeCall(CallMessage([], [], []), CallFields(m)) == if ValidUtf8(m.method_) then Some(m) else None
  {
    var start := CallMessage([], [], []);
    var tail := Optional(3, m.method_) + Optional(4, m.data);
    if m.block == [] {
      assert CallFields(m) == tail;
    } else {
      assert CallFields(m)[1..] == tail;
    }
    assert MergeCall(start, CallFields(m)) == MergeCall(start.(block := m.block), tail);
    var last := Optional(4, m.data);
    if m.method_ == [] {
      assert tail == last;
    } else {
      assert tail[1..] == last;
    }
    if ValidUtf8(m.method_) {
      var named := CallMessage(m.block, m.method_, []);
      assert MergeCall(start.(block := m.block), tail) == MergeCall(named, last);
      assert m.data != [] ==> last[1..] == [];
      assert MergeCall(named, last) == MergeCall(m, []);
    }
  }

  lemma {:induction false} MergeReadKeys(m: ReadMessage, keys: seq<ByteSeq>)
    ensures MergeRead(m, Repeated(3, keys)) == m.(keys := m.keys + keys)
    decreases |keys|
  {
    if keys == [] {
      assert m.keys + keys == m.keys;
    } else {
      assert Repeated(3, keys)[1..] == Repeated(3, keys[1..]);
      MergeReadKeys(m.(keys := m.keys + [keys[0]]), keys[1..]);
      assert m.keys + [keys[0]] + keys[1..] == m.keys + keys;
    }
  }

  lemma MergeReadFields(m: ReadMessage)
    ensures MergeRead(ReadMessage([], []), ReadFields(m)) == m
  {
    var tail := Repeated(3, m.keys);
    if m.block == [] {
      assert ReadFields(m) == tail;
    } else {
      assert ReadFields(m)[1..] == tail;
    }
    MergeReadKeys(ReadMessage(m.block, []), m.keys);
    assert [] + m.keys == m.keys;
  }

  lemma {:induction false} MergeChildKeys(m: ChildMessage, keys: seq<ByteSeq>)
    ensures MergeChild(m, Repeated(6, keys)) == m.(keys := m.keys + keys)
    decreases |keys|
  {
    if keys == [] {
      assert m.keys + keys == m.keys;
    } else {
      assert Repeated(6, keys)[1..] == Repeated(6, keys[1..]);
      MergeChildKeys(m.(keys := m.keys + [keys[0]]), keys[1..]);
      assert m.keys + [keys[0]] + keys[1..] == m.keys + keys;
    }
  }

  lemma MergeChildFields(m: ChildMessage)
    ensures MergeChild(ChildMessage([], [], []), ChildFields(m)) == m
  {
    var start := ChildMessage([], [], []);
    var last := Repeated(6, m.keys);
    var tail := Optional(3, m.storageKey) + last;
    if m.block == [] {
      assert ChildFields(m) == tail;
    } else {
      assert ChildFields(m)[1..] == tail;
    }
    if m.storageKey == [] {
      assert tail == last;
    } else {
      assert tail[1..] == last;
    }
    assert MergeChild(start, ChildFields(m)) == MergeChild(start.(block := m.block), tail);
    MergeChildKeys(ChildMessage(m.block, m.storageKey, []), m.keys);
    assert [] + m.keys == m.keys;
  }

  predicate Sendable(p: ProtoRequest) {
    |SerializeRequest(p)| < MESSAGE_LIMIT && (p.CallRequest? ==> ValidUtf8(p.call.method_))
  }

  /** A protobuf request parses back to itself, the same oneof case and the same fields, exactly when it is below
      the size limit and its method name, if it has one, is UTF-8. */
  lemma ProtoRoundTrip(p: ProtoRequest)
    ensures ParseRequest(SerializeRequest(p)) == Some(p) <==> Sendable(p)
  {
    if |SerializeRequest(p)| < MESSAGE_LIMIT {
      match p
      case NoRequest =>
      case CallRequest(m) => CallRoundTrip(m);
      case ReadRequest(m) => ReadRoundTrip(m);
      case ChildRequest(m) => ChildRoundTrip(m);
    }
  }

  lemma CallRoundTrip(m: CallMessage)
    requires |SerializeRequest(CallRequest(m))| < MESSAGE_LIMIT
    ensures ParseRequest(SerializeRequest(CallRequest(m))) ==
            if ValidUtf8(m.method_) then Some(CallRequest(m)) else None
  {
    WrappedParses(1, CallFields(m));
    MergeCallFields(m);
    MergeOne(NoRequest, Chunk(1, Serialize(CallFields(m))));
  }

  lemma ReadRoundTrip(m: ReadMessage)
    requires |SerializeRequest(ReadRequest(m))| < MESSAGE_LIMIT
    ensures ParseRequest(SerializeRequest(ReadRequest(m))) == Some(ReadRequest(m))
  {
    RepeatedFields(3, m.keys);
    WrappedParses(2, ReadFields(m));
    MergeReadFields(m);
    MergeOne(NoRequest, Chunk(2, Serialize(ReadFields(m))));
  }

  lemma ChildFieldsAreChunks(m: ChildMessage)
    ensures AllChunks(ChildFields(m))
  {
    RepeatedFields(6, m.keys);
  }

  lemma ChildRoundTrip(m: ChildMessage)
    requires |SerializeRequest(ChildRequest(m))| < MESSAGE_LIMIT
    ensures ParseRequest(SerializeRequest(ChildRequest(m))) == Some(ChildRequest(m))
  {
    ChildFieldsAreChunks(m);
    WrappedParses(4, ChildFields(m));
    MergeChildFields(m);
    MergeOne(NoRequest, Chunk(4, Serialize(ChildFields(m))));
  }

  lemma MergeOne(p: ProtoRequest, f: Field)
    ensures MergeAll(p, [f]) == MergeRequest(p, f)
  {
    assert [f][1..] == [];
  }

  /** Different requests never look alike on the wire. */
  lemma RequestsDistinguishable(r: Request, r': Request)
    requires Sendable(ProtoOf(r)) && Sendable(ProtoOf(r'))
    requires SerializeRequest(ProtoOf(r)) == SerializeRequest(ProtoOf(r'))
    ensures r == r'
  {
    ProtoRoundTrip(ProtoOf(r));
    ProtoRoundTrip(ProtoOf(r'));
  }

  /** From request to buffer: the bytes already there stay, and what is appended parses back to the request
      exactly when it can be sent. It is the request's encoding exactly below the size limit, and otherwise as
      many zeros. */
  method AppendRequest(r: Request, buffer: ByteVector)
    modifies buffer
    ensures old(buffer.bytes) <= buffer.bytes
    ensures var appended := buffer.bytes[|old(buffer.bytes)|..];
            && (ParseRequest(appended) == Some(ProtoOf(r)) <==> Sendable(ProtoOf(r)))
            && (appended == SerializeRequest(ProtoOf(r)) <==> |SerializeRequest(ProtoOf(r))| < 0x8000_0000)
            && |appended| == |SerializeRequest(ProtoOf(r))|
  {
    var p := ToProto(r);
    buffer.WriteToVec(SerializeRequest(p));
    ghost var appended := if |SerializeRequest(p)| < MESSAGE_LIMIT then SerializeRequest(p)
                          else Zeros(|SerializeRequest(p)|);
    assert buffer.bytes[|old(buffer.bytes)|..] == appended;
    ProtoRoundTrip(p);
    StartsWithTag(r);
  }

  lemma StartsWithTag(r: Request)
    ensures SerializeRequest(ProtoOf(r)) != [] && SerializeRequest(ProtoOf(r))[0] != 0
  {
    RequestOnWire(r);
  }

  // ---------------------------------------------------------------- responses

  /** `message Response` with its oneof; both cases hold one `proof`. */
  datatype ProtoResponse = NoResponse | CallResponse(proof: ByteSeq) | ReadResponse(proof: ByteSeq)

  /** Which response a send expects. */
  datatype ResponseKind = CallKind | ReadKind

  /** A send fails with an error of its own or with the one an operation reported. */
  datatype Failure = InvalidResponse | Failed(error: ErrorCode)

  /** `fromProto`: the proof if the oneof holds the expected case. */
  function FromProto(kind: ResponseKind, msg: ProtoResponse): (r: Result<ByteSeq, Failure>)
    ensures r.Ok? <==> (kind.CallKind? && msg.CallResponse?) || (kind.ReadKind? && msg.ReadResponse?)
    ensures r.Ok? ==> r.value == msg.proof
    ensures r.Err? ==> r.error == InvalidResponse
  {
    match kind
    case CallKind => if !msg.CallResponse? then Err(InvalidResponse) else Ok(msg.proof)
    case ReadKind => if !msg.ReadResponse? then Err(InvalidResponse) else Ok(msg.proof)
  }

  function ResponseFields(p: ProtoResponse): seq<Field> {
    match p
    case NoResponse => []
    case CallResponse(proof) => [Chunk(1, Serialize(Optional(2, proof)))]
    case ReadResponse(proof) => [Chunk(2, Serialize(Optional(2, proof)))]
  }

  function SerializeResponse(p: ProtoResponse): ByteSeq {
    Serialize(ResponseFields(p))
  }

  function MergeProof(proof: ByteSeq, fields: seq<Field>): ByteSeq
    decreases |fields|
  {
    if fields == [] then proof
    else if fields[0].Chunk? && fields[0].number == 2 then MergeProof(fields[0].bytes, fields[1..])
    else MergeProof(proof, fields[1..])
  }

  function MergeResponse(p: ProtoResponse, fields: seq<Field>): Option<ProtoResponse>
    decreases |fields|
  {
    if fields == [] then Some(p)
    else if fields[0].Chunk? && fields[0].number == 1 then
      match Parse(fields[0].bytes)
      case None => None
      case Some(inner) =>
        MergeResponse(CallResponse(MergeProof(if p.CallResponse? then p.proof else [], inner)), fields[1..])
    else if fields[0].Chunk? && fields[0].number == 2 then
      match Parse(fields[0].bytes)
      case None => None
      case Some(inner) =>
        MergeResponse(ReadResponse(MergeProof(if p.ReadResponse? then p.proof else [], inner)), fields[1..])
    else MergeResponse(p, fields[1..])
  }

  function ParseResponse(b: ByteSeq): Option<ProtoResponse> {
    if |b| >= MESSAGE_LIMIT then None
    else
      match Parse(b)
      case None => None
      case Some(fields) => MergeResponse(NoResponse, fields)
  }

  /** A response parses back to itself, the same oneof case and proof, exactly when it is below the limit. */
  lemma ResponseRoundTrip(p: ProtoResponse)
    ensures ParseResponse(SerializeResponse(p)) == Some(p) <==> |SerializeResponse(p)| < 0x8000_0000
  {
    if |SerializeResponse(p)| < MESSAGE_LIMIT {
      assert SerializeResponse(p) + SerializeResponse(NoResponse) == SerializeResponse(p);
      ResponsesMerge(p, NoResponse);
    }
  }

  /** A response with the tag bytes `light.proto` gives its fields written out. */
  function WireResponse(p: ProtoResponse): ByteSeq {
    match p
    case NoResponse => []
    case CallResponse(proof) => Tagged(0x0A, TaggedIf(0x12, proof))
    case ReadResponse(proof) => Tagged(0x12, TaggedIf(0x12, proof))
  }

  lemma ResponseOnWire(p: ProtoResponse)
    ensures SerializeResponse(p) == WireResponse(p)
  {
    if p.NoResponse? {
    } else {
      OptionalOnWire(2, p.proof);
      ChunkOnWire(if p.CallResponse? then 1 else 2, Serialize(Optional(2, p.proof)));
    }
  }

  /** A field of no case is skipped, whatever it is and whatever follows. */
  lemma UnknownFieldSkipped(f: Field, b: ByteSeq)
    requires WellFormed(f) && !(f.Chunk? && f.number in {1, 2}) && |FieldBytes(f) + b| < MESSAGE_LIMIT
    ensures ParseResponse(FieldBytes(f) + b) == ParseResponse(b)
  {
    FieldRoundTrip(f, b);
    if Parse(b).Some? {
      ParseOneMore(f, b);
      assert ([f] + Parse(b).value)[1..] == Parse(b).value;
    }
  }

  /** A response that has not arrived completely is refused. */
  lemma TruncatedResponseFails(p: ProtoResponse, k: nat)
    requires 0 < k < |SerializeResponse(p)|
    ensures ParseResponse(SerializeResponse(p)[..k]) == None
  {
    var f := Chunk(if p.CallResponse? then 1 else 2, Serialize(Optional(2, p.proof)));
    assert SerializeResponse(p) == FieldBytes(f) by {
      assert Serialize([f]) == FieldBytes(f) + Serialize([f][1..]);
    }
    TruncatedChunkFails(f, k);
  }

  /** Adds nothing to a response before it: no case, or the same case without a proof. */
  predicate AddsNothing(p: ProtoResponse, q: ProtoResponse) {
    q.NoResponse? || (p.CallResponse? == q.CallResponse? && p.ReadResponse? == q.ReadResponse? && q.proof == [])
  }

  /** Two responses in one message merge: the later one wins, unless it adds nothing. */
  lemma ResponsesMerge(p: ProtoResponse, q: ProtoResponse)
    requires |SerializeResponse(p) + SerializeResponse(q)| < MESSAGE_LIMIT
    ensures ParseResponse(SerializeResponse(p) + SerializeResponse(q)) == Some(if AddsNothing(p, q) then p else q)
  {
    SerializeAppends(ResponseFields(p), ResponseFields(q));
    SubmessageParses(ResponseFields(p) + ResponseFields(q));
    MergesTo(NoResponse, p, ResponseFields(q));
    assert ResponseFields(q) + [] == ResponseFields(q);
    MergesTo(p, q, []);
  }

  /** Merging in one response's fields, before whatever follows. */
  lemma MergesTo(before: ProtoResponse, p: ProtoResponse, later: seq<Field>)
    requires |SerializeResponse(p)| < MESSAGE_LIMIT
    ensures MergeResponse(before, ResponseFields(p) + later) ==
            MergeResponse(if AddsNothing(before, p) then before else p, later)
  {
    if p.NoResponse? {
      assert ResponseFields(p) + later == later;
    } else {
      var f := ResponseFields(p)[0];
      WrappedParses(f.number, Optional(2, p.proof));
      MergeFirst(before, f, later);
      ProofOf(if (p.CallResponse? && before.CallResponse?) || (p.ReadResponse? && before.ReadResponse?)
              then before.proof else [], p.proof);
    }
  }

  lemma MergeFirst(before: ProtoResponse, f: Field, later: seq<Field>)
    requires f.Chunk? && f.number in {1, 2} && Parse(f.bytes).Some?
    ensures MergeResponse(before, [f] + later) ==
            MergeResponse(
              if f.number == 1 then
                CallResponse(MergeProof(if before.CallResponse? then before.proof else [], Parse(f.bytes).value))
              else ReadResponse(MergeProof(if before.ReadResponse? then before.proof else [], Parse(f.bytes).value)),
              later)
  {
    assert ([f] + later)[1..] == later;
  }

  lemma ProofOf(before: ByteSeq, proof: ByteSeq)
    ensures MergeProof(before, Optional(2, proof)) == if proof == [] then before else proof
  {
    assert proof != [] ==> Optional(2, proof)[1..] == [];
  }
}
