/** Base-128 varints: seven bits a byte, least significant group first, the high bit set on all but the last. */
module Varints {
  import opened Outcomes
  import opened Bytes

  function Varint(n: nat): (b: ByteSeq)
    ensures b != []
  {
    if n < 0x80 then [n] else [n % 0x80 + 0x80] + Varint(n / 0x80)
  }

  function Pow128(k: nat): (p: nat)
    ensures p > 0
  {
    if k == 0 then 1 else 0x80 * Pow128(k - 1)
  }

  /** Reads at most `limit` bytes; longer runs and inputs that end early are refused. */
  function ReadVarint(b: ByteSeq, limit: nat): Option<(nat, ByteSeq)>
    decreases limit
  {
    if b == [] || limit == 0 then None
    else if b[0] < 0x80 then Some((b[0], b[1..]))
    else
      match ReadVarint(b[1..], limit - 1)
      case None => None
      case Some((n, rest)) => Some((b[0] - 0x80 + 0x80 * n, rest))
  }

  lemma {:induction false} VarintLength(n: nat, limit: nat)
    requires limit > 0
    ensures |Varint(n)| <= limit <==> n < Pow128(limit)
  {
    if n < 0x80 {
    } else {
      if limit == 1 {
        assert Pow128(1) == 0x80 * Pow128(0);
      } else {
        VarintLength(n / 0x80, limit - 1);
      }
    }
  }

  /** Each byte holds seven bits of the number, lowest first, and all but the last are marked. */
  lemma {:induction false} VarintAt(n: nat, k: nat)
    requires k < |Varint(n)|
    ensures Varint(n)[k] % 0x80 == n / Pow128(k) % 0x80
    ensures Varint(n)[k] >= 0x80 <==> k < |Varint(n)| - 1
  {
    if n < 0x80 || k == 0 {
    } else {
      VarintAt(n / 0x80, k - 1);
      DivTwice(n, 0x80, Pow128(k - 1));
    }
  }

  lemma ReadStep(first: Byte, tail: ByteSeq, limit: nat)
    requires first >= 0x80 && limit > 0
    ensures ReadVarint([first] + tail, limit) ==
            match ReadVarint(tail, limit - 1)
            case None => None
            case Some((n, rest)) => Some((first - 0x80 + 0x80 * n, rest))
  {
    assert ([first] + tail)[1..] == tail;
  }

  lemma WriteStep(n: nat, rest: ByteSeq)
    requires n >= 0x80
    ensures Varint(n) + rest == [n % 0x80 + 0x80] + (Varint(n / 0x80) + rest)
    ensures |Varint(n)| == 1 + |Varint(n / 0x80)|
  {
    Assoc([n % 0x80 + 0x80], Varint(n / 0x80), rest);
  }

  /** A written varint reads back exactly when it fits the reader's limit. */
  lemma {:induction false} VarintRoundTrip(n: nat, limit: nat, rest: ByteSeq)
    ensures |Varint(n)| <= limit ==> ReadVarint(Varint(n) + rest, limit) == Some((n, rest))
    ensures |Varint(n)| > limit ==> ReadVarint(Varint(n) + rest, limit) == None
    decreases limit
  {
    if limit == 0 {
    } else {
      if n < 0x80 {
        assert (Varint(n) + rest)[1..] == rest;
      } else {
        WriteStep(n, rest);
        ReadStep(n % 0x80 + 0x80, Varint(n / 0x80) + rest, limit);
        VarintRoundTrip(n / 0x80, limit - 1, rest);
      }
    }
  }

  /** A varint that ends early is refused. */
  lemma {:induction false} TruncatedVarintFails(n: nat, k: nat, limit: nat)
    requires k < |Varint(n)|
    ensures ReadVarint(Varint(n)[..k], limit) == None
    decreases limit
  {
    if k == 0 || limit == 0 {
    } else {
      TruncatedVarintFails(n / 0x80, k - 1, limit - 1);
      assert Varint(n)[..k][1..] == Varint(n / 0x80)[..k - 1];
    }
  }

  /** What a successful read leaves is a proper suffix of what it was given. */
  lemma {:induction false} ReadVarintSuffix(b: ByteSeq, limit: nat)
    requires ReadVarint(b, limit).Some?
    ensures var (_, rest) := ReadVarint(b, limit).value;
            |rest| < |b| && b[|b| - |rest|..] == rest
    decreases limit
  {
    if b[0] < 0x80 {
    } else {
      ReadVarintSuffix(b[1..], limit - 1);
    }
  }

  /** The unsigned-varint of multiformats: at most nine bytes, in shortest form. */
  function ReadUvarint(b: ByteSeq): Option<(nat, ByteSeq)> {
    ReadShortest(b, 9)
  }

  /** Refuses a last byte that adds nothing, unless it is the only one. */
  function ReadShortest(b: ByteSeq, limit: nat): Option<(nat, ByteSeq)> {
    match ReadVarint(b, limit)
    case None => None
    case Some((n, rest)) =>
      ReadVarintSuffix(b, limit);
      var used := |b| - |rest|;
      if used > 1 && b[used - 1] == 0 then None else Some((n, rest))
  }

  /** A varint is what its number is written as exactly when it has one byte or does not end in a zero. */
  lemma {:induction false} ShortestIff(b: ByteSeq, limit: nat)
    requires ReadVarint(b, limit).Some?
    ensures var (n, rest) := ReadVarint(b, limit).value;
            |rest| < |b| && (b == Varint(n) + rest <==> |b| - |rest| == 1 || b[|b| - |rest| - 1] != 0)
    decreases limit
  {
    var (n, rest) := ReadVarint(b, limit).value;
    if b[0] < 0x80 {
      assert b == [b[0]] + b[1..];
    } else {
      var (high, _) := ReadVarint(b[1..], limit - 1).value;
      ShortestIff(b[1..], limit - 1);
      ReadVarintSuffix(b[1..], limit - 1);
      LongerIff(b, high, rest);
      ZeroEndsZero(b[1..], limit - 1);
    }
  }

  /** Prepending a continuation byte keeps the shortest form unless what follows is a lone zero. */
  lemma LongerIff(b: ByteSeq, high: nat, rest: ByteSeq)
    requires b != [] && b[0] >= 0x80
    ensures b == Varint(b[0] - 0x80 + 0x80 * high) + rest <==> high > 0 && b[1..] == Varint(high) + rest
  {
    var n := b[0] - 0x80 + 0x80 * high;
    if high > 0 {
      assert n % 0x80 == b[0] - 0x80 && n / 0x80 == high;
      assert Varint(n) + rest == [b[0]] + (Varint(high) + rest);
      assert b == [b[0]] + b[1..];
    } else {
      assert (Varint(n) + rest)[0] == n;
    }
  }

  /** A reading is zero only if its last byte is. */
  lemma {:induction false} ZeroEndsZero(b: ByteSeq, limit: nat)
    requires ReadVarint(b, limit).Some?
    ensures var (n, rest) := ReadVarint(b, limit).value;
            |rest| < |b| && (n == 0 ==> b[|b| - |rest| - 1] == 0) && (|b| - |rest| == 1 ==> n == b[0])
    decreases limit
  {
    if b[0] < 0x80 {
    } else {
      ZeroEndsZero(b[1..], limit - 1);
      ReadVarintSuffix(b[1..], limit - 1);
    }
  }

  /** The first number nine bytes cannot hold. */
  const UVARINT_LIMIT := 0x8000_0000_0000_0000

  lemma UvarintLength(n: nat)
    ensures |Varint(n)| <= 9 <==> n < UVARINT_LIMIT
  {
    VarintLength(n, 9);
    assert Pow128(9) == UVARINT_LIMIT;
  }

  lemma UvarintExact(b: ByteSeq, n: nat, rest: ByteSeq)
    ensures ReadUvarint(b) == Some((n, rest)) <==> n < UVARINT_LIMIT && b == Varint(n) + rest
  {
    UvarintLength(n);
    ShortestExact(b, 9, n, rest);
  }

  lemma ShortestExact(b: ByteSeq, limit: nat, n: nat, rest: ByteSeq)
    ensures ReadShortest(b, limit) == Some((n, rest)) <==> |Varint(n)| <= limit && b == Varint(n) + rest
  {
    VarintRoundTrip(n, limit, rest);
    if ReadVarint(b, limit) == Some((n, rest)) {
      ShortestIff(b, limit);
    }
  }
}
