/** SCALE (section A.2.2 of the Polkadot Protocol Specification): one description of a type drives both
    directions. A `Schema` is that description; `Encode` and `Decode` interpret the same one. */
module Scale {
  import opened Outcomes
  import opened Bytes

  datatype Schema =
    | UInt(width: nat)
    | Fixed(size: nat)
    | Vector(elem: Schema)
    | Record(fields: seq<Schema>)
    | Variant(alternatives: seq<Schema>)

  datatype Value =
    | Num(n: nat)
    | Raw(bytes: ByteSeq)
    | Items(items: seq<Value>)
    | Rec(values: seq<Value>)
    | Alt(index: nat, value: Value)

  /** Vector lengths are `size_t`. */
  const SIZE_LIMIT := 0x1_0000_0000_0000_0000

  predicate Conforms(s: Schema, v: Value)
    decreases s
  {
    match (s, v)
    case (UInt(width), Num(n)) => n < Pow256(width)
    case (Fixed(size), Raw(bytes)) => |bytes| == size
    case (Vector(elem), Items(items)) => |items| < SIZE_LIMIT && forall i | 0 <= i < |items| :: Conforms(elem, items[i])
    case (Record(fields), Rec(values)) =>
      |fields| == |values| && forall i | 0 <= i < |fields| :: Conforms(fields[i], values[i])
    case (Variant(alternatives), Alt(index, value)) =>
      index < |alternatives| && index < 256 && Conforms(alternatives[index], value)
    case _ => false
  }

  predicate AllConform(fields: seq<Schema>, values: seq<Value>)
  {
    |fields| == |values| && forall i | 0 <= i < |fields| :: Conforms(fields[i], values[i])
  }

  // ---------------------------------------------------------------- compact lengths

  /** The two low bits of the first byte select the mode. */
  function Compact(n: nat): ByteSeq
    requires ByteLength(n) <= 67
  {
    if n < 0x40 then [4 * n]
    else if n < 0x4000 then LittleEndian(4 * n + 1, 2)
    else if n < 0x4000_0000 then LittleEndian(4 * n + 2, 4)
    else
      var width := ByteLength(n);
      CompactWidth(n);
      [4 * (width - 4) + 3] + LittleEndian(n, width)
  }

  lemma CompactWidth(n: nat)
    requires 0x4000_0000 <= n && ByteLength(n) <= 67
    ensures 4 <= ByteLength(n)
  {
    ByteLengthBounds(n);
    Pow256Values();
    assert Pow256(4) == 256 * Pow256(3);
    if ByteLength(n) < 4 {
      Pow256Monotone(ByteLength(n), 3);
    }
  }

  lemma ShortFits(n: nat, k: nat)
    requires n < Pow256(k)
    ensures ByteLength(n) <= k
  {
    if ByteLength(n) > k {
      Pow256Monotone(k, ByteLength(n) - 1);
    }
    ByteLengthBounds(n);
  }

  /** The canonical decoder: a length written in a longer mode than it needs is refused. */
  function DecodeCompact(b: ByteSeq): Option<(nat, ByteSeq)> {
    if b == [] then None
    else if b[0] % 4 == 0 then Some((b[0] / 4, b[1..]))
    else if b[0] % 4 == 1 then
      if |b| < 2 || FromLittleEndian(b[..2]) / 4 < 0x40 then None
      else Some((FromLittleEndian(b[..2]) / 4, b[2..]))
    else if b[0] % 4 == 2 then
      if |b| < 4 || FromLittleEndian(b[..4]) / 4 < 0x4000 then None
      else Some((FromLittleEndian(b[..4]) / 4, b[4..]))
    else
      var width := b[0] / 4 + 4;
      if |b| < 1 + width then None
      else
        var n := FromLittleEndian(b[1..1 + width]);
        if n < 0x4000_0000 || n < Pow256(width - 1) then None else Some((n, b[1 + width..]))
  }

  /** The four modes, byte by byte: the low two bits of the first byte are the mode, the number comes lowest byte
      first, and the long mode counts its bytes, from four on, without a leading zero. */
  lemma CompactForm(n: nat)
    requires ByteLength(n) <= 67
    ensures var b := Compact(n);
            && (n < 0x40 ==> b == [4 * n])
            && (0x40 <= n < 0x4000 ==> b == [(4 * n + 1) % 0x100, (4 * n + 1) / 0x100])
            && (0x4000 <= n < 0x4000_0000 ==>
                  var x := 4 * n + 2;
                  b == [x % 0x100, x / 0x100 % 0x100, x / 0x1_0000 % 0x100, x / 0x100_0000])
            && (0x4000_0000 <= n ==>
                  && |b| >= 5 && b[0] == 4 * (|b| - 5) + 3
                  && Pow256(|b| - 2) <= n < Pow256(|b| - 1)
                  && forall k :: 1 <= k < |b| ==> b[k] == n / Pow256(k - 1) % 0x100)
  {
    if 0x40 <= n < 0x4000 {
      TwoBytes(4 * n + 1);
    } else if 0x4000 <= n < 0x4000_0000 {
      FourBytes(4 * n + 2);
    } else if 0x4000_0000 <= n {
      LongCompactForm(n);
    }
  }

  lemma LongCompactForm(n: nat)
    requires 0x4000_0000 <= n && ByteLength(n) <= 67
    ensures var b := Compact(n);
            && |b| >= 5 && b[0] == 4 * (|b| - 5) + 3
            && Pow256(|b| - 2) <= n < Pow256(|b| - 1)
            && forall k :: 1 <= k < |b| ==> b[k] == n / Pow256(k - 1) % 0x100
  {
    CompactWidth(n);
    ByteLengthBounds(n);
    forall k | 1 <= k < |Compact(n)|
      ensures Compact(n)[k] == n / Pow256(k - 1) % 0x100
    {
      LittleEndianAt(n, ByteLength(n), k - 1);
    }
  }

  lemma TwoBytes(x: nat)
    requires x < 0x1_0000
    ensures LittleEndian(x, 2) == [x % 0x100, x / 0x100]
  {
    assert LittleEndian(x, 2) == [x % 0x100] + LittleEndian(x / 0x100, 1);
    assert LittleEndian(x / 0x100, 1) == [x / 0x100 % 0x100] + LittleEndian(x / 0x100 / 0x100, 0);
  }

  lemma FourBytes(x: nat)
    requires x < 0x1_0000_0000
    ensures LittleEndian(x, 4) == [x % 0x100, x / 0x100 % 0x100, x / 0x1_0000 % 0x100, x / 0x100_0000]
  {
    var y := x / 0x1_0000;
    assert y == x / 0x100 / 0x100 && y / 0x100 == x / 0x100_0000;
    TwoBytes(y);
    assert LittleEndian(x, 4) == [x % 0x100] + LittleEndian(x / 0x100, 3);
    assert LittleEndian(x / 0x100, 3) == [x / 0x100 % 0x100] + LittleEndian(y, 2);
  }

  lemma CompactRoundTrip(n: nat, rest: ByteSeq)
    requires ByteLength(n) <= 67
    ensures DecodeCompact(Compact(n) + rest) == Some((n, rest))
  {
    if n < 0x40 {
      assert (Compact(n) + rest)[1..] == rest;
    } else if n < 0x4000_0000 {
      CompactMiddleRoundTrip(n, rest);
    } else {
      CompactLongRoundTrip(n, rest);
    }
  }

  lemma CompactMiddleRoundTrip(n: nat, rest: ByteSeq)
    requires 0x40 <= n < 0x4000_0000 && ByteLength(n) <= 67
    ensures DecodeCompact(Compact(n) + rest) == Some((n, rest))
  {
    Pow256Values();
    if n < 0x4000 {
      CompactShortRoundTrip(n, 2, 1, rest);
    } else {
      CompactShortRoundTrip(n, 4, 2, rest);
    }
  }

  lemma CompactShortRoundTrip(n: nat, width: nat, mode: nat, rest: ByteSeq)
    requires width > 0 && mode < 4 && 4 * n + mode < Pow256(width)
    ensures var b := LittleEndian(4 * n + mode, width) + rest;
            b[0] % 4 == mode && FromLittleEndian(b[..width]) / 4 == n && b[width..] == rest
  {
    var x := 4 * n + mode;
    LittleEndianRoundTrip(x, width);
    SplitAt(LittleEndian(x, width), rest, width);
    assert (LittleEndian(x, width) + rest)[..width] == LittleEndian(x, width);
    LowTwoBits(n, mode);
  }

  lemma LowTwoBits(n: nat, mode: nat)
    requires mode < 4
    ensures (4 * n + mode) / 4 == n && (4 * n + mode) % 256 % 4 == mode
  {
  }

  lemma CompactLongRoundTrip(n: nat, rest: ByteSeq)
    requires 0x4000_0000 <= n && ByteLength(n) <= 67
    ensures DecodeCompact(Compact(n) + rest) == Some((n, rest))
  {
    var b, width := Compact(n) + rest, ByteLength(n);
    CompactWidth(n);
    ByteLengthBounds(n);
    LittleEndianRoundTrip(n, width);
    assert b[1..1 + width] == LittleEndian(n, width) && b[1 + width..] == rest;
  }

  lemma CompactSound(b: ByteSeq)
    requires DecodeCompact(b).Some?
    ensures var (n, rest) := DecodeCompact(b).value;
            ByteLength(n) <= 67 && b == Compact(n) + rest
  {
    Pow256Values();
    if b[0] % 4 == 0 {
      ShortFits(b[0] / 4, 1);
      assert b == [b[0]] + b[1..];
    } else if b[0] % 4 == 1 {
      CompactShortMode(b, 2, 1);
      ShortFits(DecodeCompact(b).value.0, 2);
    } else if b[0] % 4 == 2 {
      CompactShortMode(b, 4, 2);
      ShortFits(DecodeCompact(b).value.0, 4);
    } else {
      CompactLongSound(b);
    }
  }

  lemma CompactLongSound(b: ByteSeq)
    requires DecodeCompact(b).Some? && b[0] % 4 == 3
    ensures var (n, rest) := DecodeCompact(b).value;
            ByteLength(n) <= 67 && b == Compact(n) + rest
  {
    var n, rest := DecodeCompact(b).value.0, DecodeCompact(b).value.1;
    var width := b[0] / 4 + 4;
    FromLittleEndianRoundTrip(b[1..1 + width]);
    ByteLengthUnique(n, width);
    LongForm(n, b[0], b[1..1 + width]);
    ThreeParts(b, 1 + width);
  }

  lemma LongForm(n: nat, first: Byte, digits: ByteSeq)
    requires 0x4000_0000 <= n && first % 4 == 3 && ByteLength(n) == |digits| == first / 4 + 4
    requires LittleEndian(n, |digits|) == digits
    ensures |digits| <= 67 && Compact(n) == [first] + digits
  {
    assert first == 4 * (|digits| - 4) + 3;
  }

  lemma CompactShortMode(b: ByteSeq, width: nat, mode: nat)
    requires 0 < width <= |b| && mode < 4 && b[0] % 4 == mode
    ensures var x := FromLittleEndian(b[..width]);
            x == 4 * (x / 4) + mode && x < Pow256(width) && b == LittleEndian(x, width) + b[width..]
  {
    var head, tail := b[..width], b[width..];
    FromLittleEndianRoundTrip(head);
    LowByteMode(FromLittleEndian(head), head, mode);
    assert b == head + tail;
  }

  lemma LowByteMode(x: nat, head: ByteSeq, mode: nat)
    requires head != [] && x == FromLittleEndian(head) && mode < 4 && head[0] % 4 == mode
    ensures x == 4 * (x / 4) + mode
  {
    var high := FromLittleEndian(head[1..]);
    assert x == head[0] + 4 * (64 * high);
  }

  // ---------------------------------------------------------------- both directions

  function Encode(s: Schema, v: Value): ByteSeq
    requires Conforms(s, v)
    decreases s, 0
  {
    match s
    case UInt(width) => LittleEndian(v.n, width)
    case Fixed(_) => v.bytes
    case Vector(elem) =>
      LengthFits(|v.items|);
      Compact(|v.items|) + EncodeItems(elem, v.items)
    case Record(fields) => EncodeFields(fields, v.values)
    case Variant(alternatives) => [v.index] + Encode(alternatives[v.index], v.value)
  }

  function EncodeItems(elem: Schema, items: seq<Value>): ByteSeq
    requires forall i | 0 <= i < |items| :: Conforms(elem, items[i])
    decreases elem, 1 + |items|
  {
    if items == [] then [] else Encode(elem, items[0]) + EncodeItems(elem, items[1..])
  }

  function EncodeFields(fields: seq<Schema>, values: seq<Value>): ByteSeq
    requires AllConform(fields, values)
    decreases fields, 1 + |values|
  {
    if fields == [] then [] else Encode(fields[0], values[0]) + EncodeFields(fields[1..], values[1..])
  }

  lemma ItemsStep(elem: Schema, items: seq<Value>, i: nat)
    requires i < |items| && forall k | 0 <= k < |items| :: Conforms(elem, items[k])
    ensures EncodeItems(elem, items[i..]) == Encode(elem, items[i]) + EncodeItems(elem, items[i + 1..])
  {
    assert items[i..][1..] == items[i + 1..];
  }

  lemma FieldsStep(fields: seq<Schema>, values: seq<Value>, i: nat)
    requires AllConform(fields, values) && i < |fields|
    ensures AllConform(fields[i..], values[i..]) && AllConform(fields[i + 1..], values[i + 1..])
    ensures EncodeFields(fields[i..], values[i..])
            == Encode(fields[i], values[i]) + EncodeFields(fields[i + 1..], values[i + 1..])
  {
    assert fields[i..][1..] == fields[i + 1..] && values[i..][1..] == values[i + 1..];
  }

  lemma LengthFits(n: nat)
    requires n < SIZE_LIMIT
    ensures ByteLength(n) <= 67
  {
    Pow256Values();
    ShortFits(n, 8);
  }

  function Decode(s: Schema, b: ByteSeq): Option<(Value, ByteSeq)>
    decreases s, 0
  {
    match s
    case UInt(width) => if |b| < width then None else Some((Num(FromLittleEndian(b[..width])), b[width..]))
    case Fixed(size) => if |b| < size then None else Some((Raw(b[..size]), b[size..]))
    case Vector(elem) =>
      (match DecodeCompact(b)
       case None => None
       case Some((n, rest)) =>
         if n >= SIZE_LIMIT then None
         else
           match DecodeItems(elem, n, rest)
           case None => None
           case Some((items, rest')) => Some((Items(items), rest')))
    case Record(fields) =>
      (match DecodeFields(fields, b)
       case None => None
       case Some((values, rest)) => Some((Rec(values), rest)))
    case Variant(alternatives) =>
      if b == [] || b[0] >= |alternatives| then None
      else
        match Decode(alternatives[b[0]], b[1..])
        case None => None
        case Some((value, rest)) => Some((Alt(b[0], value), rest))
  }

  function DecodeItems(elem: Schema, n: nat, b: ByteSeq): Option<(seq<Value>, ByteSeq)>
    decreases elem, 1 + n
  {
    if n == 0 then Some(([], b))
    else
      match Decode(elem, b)
      case None => None
      case Some((item, rest)) =>
        match DecodeItems(elem, n - 1, rest)
        case None => None
        case Some((items, rest')) => Some(([item] + items, rest'))
  }

  function DecodeFields(fields: seq<Schema>, b: ByteSeq): Option<(seq<Value>, ByteSeq)>
    decreases fields, 1
  {
    if fields == [] then Some(([], b))
    else
      match Decode(fields[0], b)
      case None => None
      case Some((value, rest)) =>
        match DecodeFields(fields[1..], rest)
        case None => None
        case Some((values, rest')) => Some(([value] + values, rest'))
  }

  // ---------------------------------------------------------------- decoding undoes encoding

  lemma {:induction false} DecodeEncode(s: Schema, v: Value, rest: ByteSeq)
    requires Conforms(s, v)
    ensures Decode(s, Encode(s, v) + rest) == Some((v, rest))
    decreases s, 0
  {
    var b := Encode(s, v) + rest;
    match s
    case UInt(width) =>
      LittleEndianRoundTrip(v.n, width);
      assert b[..width] == LittleEndian(v.n, width) && b[width..] == rest;
    case Fixed(size) =>
      assert b[..size] == v.bytes && b[size..] == rest;
    case Vector(elem) =>
      var tail := EncodeItems(elem, v.items);
      LengthFits(|v.items|);
      Assoc(Compact(|v.items|), tail, rest);
      CompactRoundTrip(|v.items|, tail + rest);
      DecodeEncodeItems(elem, v.items, rest);
    case Record(fields) =>
      DecodeEncodeFields(fields, v.values, rest);
    case Variant(alternatives) =>
      assert b[1..] == Encode(alternatives[v.index], v.value) + rest;
      DecodeEncode(alternatives[v.index], v.value, rest);
  }

  lemma {:induction false} DecodeEncodeItems(elem: Schema, items: seq<Value>, rest: ByteSeq)
    requires forall i | 0 <= i < |items| :: Conforms(elem, items[i])
    ensures DecodeItems(elem, |items|, EncodeItems(elem, items) + rest) == Some((items, rest))
    decreases elem, 1 + |items|
  {
    if items == [] {
      assert EncodeItems(elem, items) + rest == rest;
    } else {
      var tail := EncodeItems(elem, items[1..]);
      Assoc(Encode(elem, items[0]), tail, rest);
      DecodeEncode(elem, items[0], tail + rest);
      DecodeEncodeItems(elem, items[1..], rest);
      assert items == [items[0]] + items[1..];
    }
  }

  lemma {:induction false} DecodeEncodeFields(fields: seq<Schema>, values: seq<Value>, rest: ByteSeq)
    requires AllConform(fields, values)
    ensures DecodeFields(fields, EncodeFields(fields, values) + rest) == Some((values, rest))
    decreases fields, 1
  {
    if fields == [] {
      assert EncodeFields(fields, values) + rest == rest;
    } else {
      var tail := EncodeFields(fields[1..], values[1..]);
      Assoc(Encode(fields[0], values[0]), tail, rest);
      DecodeEncode(fields[0], values[0], tail + rest);
      DecodeEncodeFields(fields[1..], values[1..], rest);
      assert values == [values[0]] + values[1..];
    }
  }

  // ---------------------------------------------------------------- the decoder accepts nothing else

  lemma {:induction false} DecodeSound(s: Schema, b: ByteSeq)
    requires Decode(s, b).Some?
    ensures var (v, rest) := Decode(s, b).value;
            Conforms(s, v) && b == Encode(s, v) + rest
    decreases s, 0
  {
    var (v, rest) := Decode(s, b).value;
    match s
    case UInt(_) =>
      LeafSound(s, b);
    case Fixed(_) =>
      LeafSound(s, b);
    case Vector(elem) =>
      var (n, tail) := DecodeCompact(b).value;
      DecodeItemsSound(elem, n, tail);
      VectorSound(elem, b, n, tail, v.items, rest);
    case Record(fields) =>
      DecodeFieldsSound(fields, b);
    case Variant(alternatives) =>
      DecodeSound(alternatives[b[0]], b[1..]);
      VariantSound(alternatives, b, v.value, rest);
  }

  lemma LeafSound(s: Schema, b: ByteSeq)
    requires (s.UInt? || s.Fixed?) && Decode(s, b).Some?
    ensures var (v, rest) := Decode(s, b).value;
            Conforms(s, v) && b == Encode(s, v) + rest
  {
    if s.UInt? {
      FromLittleEndianRoundTrip(b[..s.width]);
    }
  }

  lemma VariantSound(alternatives: seq<Schema>, b: ByteSeq, value: Value, rest: ByteSeq)
    requires b != [] && b[0] < |alternatives| && Conforms(alternatives[b[0]], value)
    requires b[1..] == Encode(alternatives[b[0]], value) + rest
    ensures b == Encode(Variant(alternatives), Alt(b[0], value)) + rest
  {
    Assoc([b[0]], Encode(alternatives[b[0]], value), rest);
    assert b == [b[0]] + b[1..];
  }

  lemma VectorSound(elem: Schema, b: ByteSeq, n: nat, tail: ByteSeq, items: seq<Value>, rest: ByteSeq)
    requires DecodeCompact(b) == Some((n, tail)) && n == |items| < SIZE_LIMIT
    requires forall i | 0 <= i < n :: Conforms(elem, items[i])
    requires tail == EncodeItems(elem, items) + rest
    ensures b == Encode(Vector(elem), Items(items)) + rest
  {
    CompactSound(b);
    LengthFits(n);
    Assoc(Compact(n), EncodeItems(elem, items), rest);
  }

  lemma {:induction false} DecodeItemsSound(elem: Schema, n: nat, b: ByteSeq)
    requires DecodeItems(elem, n, b).Some?
    ensures var (items, rest) := DecodeItems(elem, n, b).value;
            |items| == n && (forall i | 0 <= i < n :: Conforms(elem, items[i])) &&
            b == EncodeItems(elem, items) + rest
    decreases elem, 1 + n
  {
    if n == 0 {
    } else {
      var (item, tail) := Decode(elem, b).value;
      DecodeSound(elem, b);
      DecodeItemsSound(elem, n - 1, tail);
      var (items, rest) := DecodeItems(elem, n, b).value;
      assert items[1..] == DecodeItems(elem, n - 1, tail).value.0;
      Assoc(Encode(elem, item), EncodeItems(elem, items[1..]), rest);
    }
  }

  lemma {:induction false} DecodeFieldsSound(fields: seq<Schema>, b: ByteSeq)
    requires DecodeFields(fields, b).Some?
    ensures var (values, rest) := DecodeFields(fields, b).value;
            AllConform(fields, values) && b == EncodeFields(fields, values) + rest
    decreases fields, 1
  {
    if fields == [] {
    } else {
      var (value, tail) := Decode(fields[0], b).value;
      DecodeSound(fields[0], b);
      DecodeFieldsSound(fields[1..], tail);
      var (values, rest) := DecodeFields(fields, b).value;
      assert values[1..] == DecodeFields(fields[1..], tail).value.0;
      Assoc(Encode(fields[0], value), EncodeFields(fields[1..], values[1..]), rest);
    }
  }

  /** Decoding succeeds with `v` and `rest` exactly when the input is the encoding of `v` followed by `rest`. */
  lemma DecodeExact(s: Schema, b: ByteSeq, v: Value, rest: ByteSeq)
    ensures Decode(s, b) == Some((v, rest)) <==> Conforms(s, v) && b == Encode(s, v) + rest
  {
    if Decode(s, b) == Some((v, rest)) {
      DecodeSound(s, b);
    }
    if Conforms(s, v) && b == Encode(s, v) + rest {
      DecodeEncode(s, v, rest);
    }
  }

  /** A vector length that `size_t` cannot hold is refused. */
  lemma TooLongVectorFails(elem: Schema, n: nat, rest: ByteSeq)
    requires 0x1_0000_0000_0000_0000 <= n && ByteLength(n) <= 67
    ensures Decode(Vector(elem), Compact(n) + rest) == None
  {
    CompactRoundTrip(n, rest);
  }

  /** No encoding continues another one: equal streams start with equal values. */
  lemma PrefixFree(s: Schema, v: Value, rest: ByteSeq, v': Value, rest': ByteSeq)
    requires Conforms(s, v) && Conforms(s, v')
    requires Encode(s, v) + rest == Encode(s, v') + rest'
    ensures v == v' && rest == rest'
  {
    DecodeEncode(s, v, rest);
    DecodeEncode(s, v', rest');
  }

  /** An encoding cut short is never accepted. */
  lemma TruncationFails(s: Schema, v: Value, k: nat)
    requires Conforms(s, v) && k < |Encode(s, v)|
    ensures Decode(s, Encode(s, v)[..k]) == None
  {
    var whole := Encode(s, v);
    if Decode(s, whole[..k]).Some? {
      var (v', rest) := Decode(s, whole[..k]).value;
      DecodeSound(s, whole[..k]);
      Extends(whole, k, Encode(s, v'), rest);
      PrefixFree(s, v, [], v', rest + whole[k..]);
    }
  }
}
