/** The two stream objects of the archive: an encoder that appends to a buffer and a decoder that moves a
    cursor. Both walk the same schema, and both are proved against the pure functions of `Scale`. */
module ScaleStreams {
  import opened Outcomes
  import opened Bytes
  import opened Scale

  class Encoder {
    var buffer: ByteSeq

    constructor ()
      ensures buffer == []
    {
      buffer := [];
    }

    method Put(s: Schema, v: Value)
      requires Conforms(s, v)
      modifies this
      ensures buffer == old(buffer) + Encode(s, v)
      decreases s, 0
    {
      match s {
        case UInt(width) => PutUInt(v.n, width);
        case Fixed(_) => buffer := buffer + v.bytes;
        case Vector(elem) => PutVector(elem, v.items);
        case Record(fields) => PutFields(fields, v.values);
        case Variant(alternatives) => PutAlternative(alternatives, v.index, v.value);
      }
    }

    method PutVector(elem: Schema, items: seq<Value>)
      requires |items| < SIZE_LIMIT && forall i | 0 <= i < |items| :: Conforms(elem, items[i])
      modifies this
      ensures buffer == old(buffer) + Encode(Vector(elem), Items(items))
      decreases elem, 2
    {
      LengthFits(|items|);
      PutCompact(|items|);
      PutItems(elem, items);
    }

    method PutAlternative(alternatives: seq<Schema>, index: nat, value: Value)
      requires index < |alternatives| && index < 256 && Conforms(alternatives[index], value)
      modifies this
      ensures buffer == old(buffer) + Encode(Variant(alternatives), Alt(index, value))
      decreases alternatives, 1
    {
      buffer := buffer + [index];
      Put(alternatives[index], value);
    }

    method PutUInt(n: nat, width: nat)
      modifies this
      ensures buffer == old(buffer) + LittleEndian(n, width)
    {
      var rest, left := n, width;
      while left > 0
        invariant buffer + LittleEndian(rest, left) == old(buffer) + LittleEndian(n, width)
      {
        buffer := buffer + [rest % 256];
        rest, left := rest / 256, left - 1;
      }
    }

    method PutCompact(n: nat)
      requires ByteLength(n) <= 67
      modifies this
      ensures buffer == old(buffer) + Compact(n)
    {
      if n < 0x40 {
        buffer := buffer + [4 * n];
      } else if n < 0x4000 {
        PutUInt(4 * n + 1, 2);
      } else if n < 0x4000_0000 {
        PutUInt(4 * n + 2, 4);
      } else {
        PutLongCompact(n);
      }
    }

    method PutLongCompact(n: nat)
      requires 0x4000_0000 <= n && ByteLength(n) <= 67
      modifies this
      ensures buffer == old(buffer) + Compact(n)
    {
      var width := ByteLength(n);
      CompactWidth(n);
      PutPrefixed(4 * (width - 4) + 3, n, width);
    }

    method PutPrefixed(prefix: Byte, n: nat, width: nat)
      modifies this
      ensures buffer == old(buffer) + ([prefix] + LittleEndian(n, width))
    {
      buffer := buffer + [prefix];
      PutUInt(n, width);
    }

    method PutItems(elem: Schema, items: seq<Value>)
      requires forall i | 0 <= i < |items| :: Conforms(elem, items[i])
      modifies this
      ensures buffer == old(buffer) + EncodeItems(elem, items)
      decreases elem, 1
    {
      var i := 0;
      while i < |items|
        invariant i <= |items|
        invariant buffer + EncodeItems(elem, items[i..]) == old(buffer) + EncodeItems(elem, items)
      {
        ghost var before := buffer;
        Put(elem, items[i]);
        ItemsStep(elem, items, i);
        Assoc(before, Encode(elem, items[i]), EncodeItems(elem, items[i + 1..]));
        i := i + 1;
      }
    }

    /** One archive call per field, in the order the description lists them. */
    method PutFields(fields: seq<Schema>, values: seq<Value>)
      requires AllConform(fields, values)
      modifies this
      ensures buffer == old(buffer) + EncodeFields(fields, values)
      decreases fields, 1
    {
      var i := 0;
      while i < |fields|
        invariant i <= |fields|
        invariant buffer + EncodeFields(fields[i..], values[i..]) == old(buffer) + EncodeFields(fields, values)
      {
        ghost var before := buffer;
        Put(fields[i], values[i]);
        FieldsStep(fields, values, i);
        Assoc(before, Encode(fields[i], values[i]), EncodeFields(fields[i + 1..], values[i + 1..]));
        i := i + 1;
      }
    }
  }

  class Decoder {
    const data: ByteSeq
    var pos: nat

    ghost predicate Valid()
      reads this
    {
      pos <= |data|
    }

    /** What the cursor has not passed yet. */
    function Rest(): ByteSeq
      requires Valid()
      reads this
    {
      data[pos..]
    }

    constructor (data: ByteSeq)
      ensures Valid() && this.data == data && Rest() == data
    {
      this.data := data;
      pos := 0;
    }

    method Get(s: Schema) returns (r: Option<Value>)
      requires Valid()
      modifies this
      ensures Valid()
      ensures r.Some? ==> Decode(s, old(Rest())) == Some((r.value, Rest()))
      ensures r.None? ==> Decode(s, old(Rest())) == None
      decreases s, 0
    {
      match s {
        case UInt(width) =>
          if |data| - pos < width {
            return None;
          }
          var n := GetUInt(width);
          return Some(Num(n));
        case Fixed(size) =>
          if |data| - pos < size {
            return None;
          }
          r := Some(Raw(data[pos..pos + size]));
          assert Rest()[..size] == data[pos..pos + size];
          pos := pos + size;
        case Vector(elem) =>
          var length := GetCompact();
          if length.None? || length.value >= SIZE_LIMIT {
            return None;
          }
          var items := GetItems(elem, length.value);
          if items.None? {
            return None;
          }
          return Some(Items(items.value));
        case Record(fields) =>
          var values := GetFields(fields);
          if values.None? {
            return None;
          }
          return Some(Rec(values.value));
        case Variant(alternatives) =>
          if pos == |data| || data[pos] >= |alternatives| {
            return None;
          }
          var index := data[pos];
          assert Rest()[1..] == data[pos + 1..];
          pos := pos + 1;
          var value := Get(alternatives[index]);
          if value.None? {
            return None;
          }
          return Some(Alt(index, value.value));
      }
    }

    method GetUInt(width: nat) returns (n: nat)
      requires Valid() && width <= |Rest()|
      modifies this
      ensures Valid() && n == FromLittleEndian(old(Rest())[..width]) && Rest() == old(Rest())[width..]
    {
      n := 0;
      var left := width;
      ghost var field := data[pos..pos + width];
      assert field[width..] == [];
      while left > 0
        invariant 0 <= left <= width && n == FromLittleEndian(field[left..])
      {
        left := left - 1;
        assert field[left..][1..] == field[left + 1..];
        n := 256 * n + data[pos + left];
      }
      assert field[0..] == Rest()[..width];
      pos := pos + width;
    }

    method GetCompact() returns (r: Option<nat>)
      requires Valid()
      modifies this
      ensures Valid()
      ensures r.Some? ==> DecodeCompact(old(Rest())) == Some((r.value, Rest()))
      ensures r.None? ==> DecodeCompact(old(Rest())) == None
    {
      if pos == |data| {
        return None;
      }
      ghost var b := Rest();
      var first := data[pos];
      if first % 4 == 0 {
        pos := pos + 1;
        assert Rest() == b[1..];
        return Some(first / 4);
      }
      if first % 4 < 3 {
        var width := if first % 4 == 1 then 2 else 4;
        if |data| - pos < width {
          return None;
        }
        var x := GetUInt(width);
        return if x / 4 < (if width == 2 then 0x40 else 0x4000) then None else Some(x / 4);
      }
      var width := first / 4 + 4;
      if |data| - pos < 1 + width {
        return None;
      }
      pos := pos + 1;
      var n := GetUInt(width);
      assert b[1..][..width] == b[1..1 + width];
      return if n < 0x4000_0000 || n < Pow256(width - 1) then None else Some(n);
    }

    method GetItems(elem: Schema, n: nat) returns (r: Option<seq<Value>>)
      requires Valid()
      modifies this
      ensures Valid()
      ensures r.Some? ==> DecodeItems(elem, n, old(Rest())) == Some((r.value, Rest()))
      ensures r.None? ==> DecodeItems(elem, n, old(Rest())) == None
      decreases elem, 1
    {
      var items := [];
      var left := n;
      PrependNothing(DecodeItems(elem, n, Rest()));
      while left > 0
        invariant Valid()
        invariant DecodeItems(elem, n, old(Rest())) == Prepend(items, DecodeItems(elem, left, Rest()))
      {
        ghost var before := Rest();
        var item := Get(elem);
        if item.None? {
          return None;
        }
        PrependOne(items, item.value, DecodeItems(elem, left - 1, Rest()));
        items := items + [item.value];
        left := left - 1;
      }
      assert items + [] == items;
      return Some(items);
    }

    method GetFields(fields: seq<Schema>) returns (r: Option<seq<Value>>)
      requires Valid()
      modifies this
      ensures Valid()
      ensures r.Some? ==> DecodeFields(fields, old(Rest())) == Some((r.value, Rest()))
      ensures r.None? ==> DecodeFields(fields, old(Rest())) == None
      decreases fields, 1
    {
      var values := [];
      var i := 0;
      assert fields[0..] == fields;
      PrependNothing(DecodeFields(fields, Rest()));
      while i < |fields|
        invariant Valid() && i <= |fields|
        invariant DecodeFields(fields, old(Rest())) == Prepend(values, DecodeFields(fields[i..], Rest()))
      {
        assert fields[i..][1..] == fields[i + 1..];
        var value := Get(fields[i]);
        if value.None? {
          return None;
        }
        PrependOne(values, value.value, DecodeFields(fields[i + 1..], Rest()));
        values := values + [value.value];
        i := i + 1;
      }
      assert values + [] == values;
      return Some(values);
    }
  }

  /** The result of a decode of which `done` was already taken off the front. */
  ghost function Prepend(done: seq<Value>, r: Option<(seq<Value>, ByteSeq)>): Option<(seq<Value>, ByteSeq)> {
    match r
    case None => None
    case Some((values, rest)) => Some((done + values, rest))
  }

  lemma PrependNothing(r: Option<(seq<Value>, ByteSeq)>)
    ensures Prepend([], r) == r
  {
    if r.Some? {
      assert [] + r.value.0 == r.value.0;
    }
  }

  lemma PrependOne(done: seq<Value>, value: Value, r: Option<(seq<Value>, ByteSeq)>)
    ensures Prepend(done + [value], r) == Prepend(done, Prepend([value], r))
  {
    if r.Some? {
      assert (done + [value]) + r.value.0 == done + ([value] + r.value.0);
    }
  }
}
