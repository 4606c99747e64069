/** The protobuf wire form (Protocol Buffers Encoding guide, "Base 128 Varints", "Length-Delimited Records"):
    a message is a sequence of numbered fields. Groups, which proto3 does not have, are refused. */
module Protobuf {
  import opened Outcomes
  import opened Bytes
  import opened Varints

  datatype Field =
    | Scalar(number: nat, value: nat)
    | Fixed64(number: nat, bytes: ByteSeq)
    | Chunk(number: nat, bytes: ByteSeq)
    | Fixed32(number: nat, bytes: ByteSeq)

  /** A serialized message must stay below two gigabytes. */
  const MESSAGE_LIMIT := 0x8000_0000
  const NUMBER_LIMIT := 0x2000_0000
  const SCALAR_LIMIT := 0x1_0000_0000_0000_0000

  predicate WellFormed(f: Field) {
    && 0 < f.number < NUMBER_LIMIT
    && match f
       case Scalar(_, value) => value < SCALAR_LIMIT
       case Fixed64(_, bytes) => |bytes| == 8
       case Chunk(_, bytes) => |bytes| < MESSAGE_LIMIT
       case Fixed32(_, bytes) => |bytes| == 4
  }

  function WireType(f: Field): nat {
    match f
    case Scalar(_, _) => 0
    case Fixed64(_, _) => 1
    case Chunk(_, _) => 2
    case Fixed32(_, _) => 5
  }

  function Body(f: Field): ByteSeq {
    match f
    case Scalar(_, value) => Varint(value)
    case Fixed64(_, bytes) => bytes
    case Chunk(_, bytes) => Varint(|bytes|) + bytes
    case Fixed32(_, bytes) => bytes
  }

  function FieldBytes(f: Field): (b: ByteSeq)
    ensures b != []
  {
    Varint(8 * f.number + WireType(f)) + Body(f)
  }

  function Serialize(fields: seq<Field>): ByteSeq {
    if fields == [] then [] else FieldBytes(fields[0]) + Serialize(fields[1..])
  }

  function ReadBytes(b: ByteSeq, n: nat): Option<(ByteSeq, ByteSeq)> {
    if |b| < n then None else Some((b[..n], b[n..]))
  }

  function ReadChunk(b: ByteSeq): Option<(ByteSeq, ByteSeq)> {
    match ReadVarint(b, 10)
    case None => None
    case Some((n, rest)) => if n >= MESSAGE_LIMIT then None else ReadBytes(rest, n)
  }

  function ReadBody(number: nat, wireType: nat, b: ByteSeq): Option<(Field, ByteSeq)> {
    if wireType == 0 then
      match ReadVarint(b, 10)
      case None => None
      case Some((value, rest)) => Some((Scalar(number, value % SCALAR_LIMIT), rest))
    else if wireType == 2 then
      match ReadChunk(b)
      case None => None
      case Some((bytes, rest)) => Some((Chunk(number, bytes), rest))
    else if wireType == 1 || wireType == 5 then
      match ReadBytes(b, if wireType == 1 then 8 else 4)
      case None => None
      case Some((bytes, rest)) =>
        Some((if wireType == 1 then Fixed64(number, bytes) else Fixed32(number, bytes), rest))
    else None
  }

  function ReadField(b: ByteSeq): Option<(Field, ByteSeq)> {
    match ReadVarint(b, 10)
    case None => None
    case Some((tag, rest)) =>
      if tag / 8 == 0 || tag / 8 >= NUMBER_LIMIT then None else ReadBody(tag / 8, tag % 8, rest)
  }

  lemma ReadFieldShrinks(b: ByteSeq)
    requires ReadField(b).Some?
    ensures |ReadField(b).value.1| < |b|
  {
    var (tag, rest) := ReadVarint(b, 10).value;
    ReadVarintSuffix(b, 10);
    if ReadVarint(rest, 10).Some? {
      ReadVarintSuffix(rest, 10);
    }
  }

  function Parse(b: ByteSeq): Option<seq<Field>>
    decreases |b|
  {
    if b == [] then Some([])
    else
      match ReadField(b)
      case None => None
      case Some((f, rest)) =>
        ReadFieldShrinks(b);
        match Parse(rest)
        case None => None
        case Some(fields) => Some([f] + fields)
  }

  lemma TenByteVarint(n: nat, rest: ByteSeq)
    requires n < SCALAR_LIMIT
    ensures ReadVarint(Varint(n) + rest, 10) == Some((n, rest))
  {
    VarintLength(n, 10);
    assert Pow128(9) == UVARINT_LIMIT;
    assert Pow128(10) == 0x80 * Pow128(9);
    VarintRoundTrip(n, 10, rest);
  }

  lemma BodyRoundTrip(f: Field, rest: ByteSeq)
    requires WellFormed(f)
    ensures ReadBody(f.number, WireType(f), Body(f) + rest) == Some((f, rest))
  {
    match f
    case Scalar(_, value) => TenByteVarint(value, rest);
    case Fixed64(_, bytes) => SplitAt(bytes, rest, |bytes|);
    case Chunk(_, bytes) =>
      Assoc(Varint(|bytes|), bytes, rest);
      TenByteVarint(|bytes|, bytes + rest);
      assert (bytes + rest)[..|bytes|] == bytes;
    case Fixed32(_, bytes) => SplitAt(bytes, rest, |bytes|);
  }

  lemma FieldRoundTrip(f: Field, rest: ByteSeq)
    requires WellFormed(f)
    ensures ReadField(FieldBytes(f) + rest) == Some((f, rest))
  {
    var tag := 8 * f.number + WireType(f);
    Assoc(Varint(tag), Body(f), rest);
    TenByteVarint(tag, Body(f) + rest);
    FieldAfterTag(FieldBytes(f) + rest, f.number, WireType(f), Body(f) + rest);
    BodyRoundTrip(f, rest);
  }

  /** A length-delimited field that ends early is refused, wherever it ends. */
  lemma TruncatedChunkFails(f: Field, k: nat)
    requires f.Chunk? && 0 < k < |FieldBytes(f)|
    ensures Parse(FieldBytes(f)[..k]) == None
  {
    var tag := Varint(8 * f.number + 2);
    if k < |tag| {
      assert FieldBytes(f)[..k] == tag[..k];
      TruncatedVarintFails(8 * f.number + 2, k, 10);
      NoTagFails(tag[..k]);
    } else {
      SplitAt(tag, Body(f), k);
      TruncatedBodyFails(f, k - |tag|);
      NoBodyFails(f.number, Body(f)[..k - |tag|]);
    }
  }

  lemma NoTagFails(b: ByteSeq)
    requires b != [] && ReadVarint(b, 10) == None
    ensures Parse(b) == None
  {
  }

  lemma NoBodyFails(number: nat, b: ByteSeq)
    requires ReadChunk(b) == None
    ensures Parse(Varint(8 * number + 2) + b) == None
  {
    VarintRoundTrip(8 * number + 2, 10, b);
    var wire := Varint(8 * number + 2) + b;
    if ReadVarint(wire, 10).Some? {
      FieldAfterTag(wire, number, 2, b);
    } else {
      NoTagFails(wire);
    }
  }

  /** A field of a group, or of a wire type that does not exist, is refused. */
  lemma OtherWireTypesFail(number: nat, wireType: nat, b: ByteSeq)
    requires wireType in {3, 4, 6, 7}
    ensures Parse(Varint(8 * number + wireType) + b) == None
  {
    var wire := Varint(8 * number + wireType) + b;
    VarintRoundTrip(8 * number + wireType, 10, b);
    if ReadVarint(wire, 10).Some? {
      FieldAfterTag(wire, number, wireType, b);
    } else {
      NoTagFails(wire);
    }
  }

  /** Once the tag is read, the field is what its body is. */
  lemma FieldAfterTag(wire: ByteSeq, number: nat, wireType: nat, rest: ByteSeq)
    requires wireType < 8 && ReadVarint(wire, 10) == Some((8 * number + wireType, rest))
    ensures wire != []
    ensures ReadField(wire) == if number == 0 || number >= NUMBER_LIMIT then None else ReadBody(number, wireType, rest)
  {
    assert (8 * number + wireType) / 8 == number && (8 * number + wireType) % 8 == wireType;
  }

  lemma TruncatedBodyFails(f: Field, k: nat)
    requires f.Chunk? && k < |Body(f)|
    ensures ReadChunk(Body(f)[..k]) == None
  {
    var n := |f.bytes|;
    if k < |Varint(n)| {
      assert Body(f)[..k] == Varint(n)[..k];
      TruncatedVarintFails(n, k, 10);
    } else {
      SplitAt(Varint(n), f.bytes, k);
      VarintRoundTrip(n, 10, f.bytes[..k - |Varint(n)|]);
    }
  }

  /** Any sequence of well-formed fields parses back to itself, in order. */
  lemma {:induction false} ParseSerialize(fields: seq<Field>)
    requires forall i :: 0 <= i < |fields| ==> WellFormed(fields[i])
    ensures Parse(Serialize(fields)) == Some(fields)
  {
    if fields == [] {
    } else {
      ParseSerialize(fields[1..]);
      ParseOneMore(fields[0], Serialize(fields[1..]));
      assert fields == [fields[0]] + fields[1..];
    }
  }

  lemma ParseOneMore(f: Field, tail: ByteSeq)
    requires WellFormed(f) && Parse(tail).Some?
    ensures Parse(FieldBytes(f) + tail) == Some([f] + Parse(tail).value)
  {
    FieldRoundTrip(f, tail);
  }

  /** A field is never longer than the message around it. */
  lemma {:induction false} ChunksFit(fields: seq<Field>, i: nat)
    requires i < |fields| && fields[i].Chunk?
    ensures |fields[i].bytes| < |Serialize(fields)|
  {
    if i == 0 {
    } else {
      ChunksFit(fields[1..], i - 1);
    }
  }

  /** Appends a serialized message to a caller's buffer: grow it first, then have the new part filled in place.
      The library fills nothing at or above the size limit, and its caller does not ask whether it did. */
  class ByteVector {
    var bytes: ByteSeq

    constructor (bytes: ByteSeq)
      ensures this.bytes == bytes
    {
      this.bytes := bytes;
    }

    method WriteToVec(message: ByteSeq)
      modifies this
      ensures bytes == old(bytes) + if |message| < MESSAGE_LIMIT then message else Zeros(|message|)
    {
      var oldSize := |bytes|;
      bytes := bytes + Zeros(|message|);
      var _ := SerializeToArray(message, oldSize);
    }

    method SerializeToArray(message: ByteSeq, from: nat) returns (ok: bool)
      requires from + |message| == |bytes|
      modifies this
      ensures ok <==> |message| < MESSAGE_LIMIT
      ensures bytes == if ok then old(bytes)[..from] + message else old(bytes)
    {
      if |message| >= MESSAGE_LIMIT {
        return false;
      }
      var i := 0;
      while i < |message|
        invariant i <= |message| && |bytes| == from + |message|
        invariant bytes[..from + i] == old(bytes)[..from] + message[..i]
      {
        bytes := bytes[from + i := message[i]];
        i := i + 1;
        assert bytes[..from + i] == bytes[..from + i - 1] + [message[i - 1]];
      }
      assert bytes[..|bytes|] == bytes && message[..i] == message;
      return true;
    }
  }
}
