/** UTF-8 as a string field is checked for it on parsing, and what it is that the check accepts. */
module Utf8 {
  import opened Bytes

  predicate Continues(b: Byte) {
    0x80 <= b <= 0xBF
  }

  /** The length of the well-formed UTF-8 sequence `b` starts with (Table 3-7 of the Unicode Standard), or 0. */
  function Utf8Step(b: ByteSeq): (k: nat)
    ensures k <= |b|
  {
    if b == [] then 0
    else if b[0] < 0x80 then 1
    else if |b| >= 2 && 0xC2 <= b[0] <= 0xDF && Continues(b[1]) then 2
    else if |b| >= 3 && 0xE0 <= b[0] <= 0xEF && Continues(b[1]) && Continues(b[2])
            && (b[0] == 0xE0 ==> b[1] >= 0xA0) && (b[0] == 0xED ==> b[1] <= 0x9F) then 3
    else if |b| >= 4 && 0xF0 <= b[0] <= 0xF4 && Continues(b[1]) && Continues(b[2]) && Continues(b[3])
            && (b[0] == 0xF0 ==> b[1] >= 0x90) && (b[0] == 0xF4 ==> b[1] <= 0x8F) then 4
    else 0
  }

  predicate ValidUtf8(b: ByteSeq)
    decreases |b|
  {
    b == [] || (Utf8Step(b) > 0 && ValidUtf8(b[Utf8Step(b)..]))
  }

  // ---------------------------------------------------------------- the text that is accepted

  /** The Unicode scalar values: the code points that are not surrogates. */
  predicate IsScalar(cp: nat) {
    cp < 0xD800 || 0xE000 <= cp < 0x11_0000
  }

  /** The bytes of one scalar value (Table 3-6 of the Unicode Standard). */
  function BytesOf(cp: nat): (b: ByteSeq)
    requires IsScalar(cp)
    ensures b != []
  {
    if cp < 0x80 then [cp]
    else if cp < 0x800 then [0xC0 + cp / 0x40, 0x80 + cp % 0x40]
    else if cp < 0x1_0000 then [0xE0 + cp / 0x1000, 0x80 + cp / 0x40 % 0x40, 0x80 + cp % 0x40]
    else [0xF0 + cp / 0x4_0000, 0x80 + cp / 0x1000 % 0x40, 0x80 + cp / 0x40 % 0x40, 0x80 + cp % 0x40]
  }

  ghost predicate AllScalar(text: seq<nat>) {
    forall i :: 0 <= i < |text| ==> IsScalar(text[i])
  }

  ghost function TextBytes(text: seq<nat>): ByteSeq
    requires AllScalar(text)
  {
    if text == [] then [] else BytesOf(text[0]) + TextBytes(text[1..])
  }

  lemma StepTakesScalar(cp: nat, rest: ByteSeq)
    requires IsScalar(cp)
    ensures Utf8Step(BytesOf(cp) + rest) == |BytesOf(cp)|
    ensures (BytesOf(cp) + rest)[|BytesOf(cp)|..] == rest
  {
    OneStep(cp);
    StepStops(BytesOf(cp), rest);
  }

  lemma OneStep(cp: nat)
    requires IsScalar(cp)
    ensures Utf8Step(BytesOf(cp)) == |BytesOf(cp)|
  {
  }

  lemma StepStops(b: ByteSeq, rest: ByteSeq)
    requires b != [] && Utf8Step(b) == |b|
    ensures Utf8Step(b + rest) == |b|
  {
    assert forall i :: 0 <= i < |b| ==> (b + rest)[i] == b[i];
  }

  lemma StepGivesScalar(b: ByteSeq) returns (cp: nat)
    requires Utf8Step(b) > 0
    ensures IsScalar(cp) && b == BytesOf(cp) + b[Utf8Step(b)..]
  {
    var k := Utf8Step(b);
    if k == 1 {
      cp := b[0];
      assert b == [b[0]] + b[1..];
    } else if k == 2 {
      cp := TwoByteScalar(b[0], b[1]);
      assert b == [b[0], b[1]] + b[2..];
    } else if k == 3 {
      cp := ThreeByteScalar(b[0], b[1], b[2]);
      assert b == [b[0], b[1], b[2]] + b[3..];
    } else {
      cp := FourByteScalar(b[0], b[1], b[2], b[3]);
      assert b == [b[0], b[1], b[2], b[3]] + b[4..];
    }
  }

  /** Six bits at the low end. */
  lemma LowSix(high: nat, low: nat)
    requires low < 0x40
    ensures (0x40 * high + low) / 0x40 == high && (0x40 * high + low) % 0x40 == low
  {
  }

  lemma TwoByteScalar(x: int, y: int) returns (cp: nat)
    requires 0xC2 <= x <= 0xDF && 0x80 <= y <= 0xBF
    ensures IsScalar(cp) && BytesOf(cp) == [x, y]
  {
    cp := 0x40 * (x - 0xC0) + (y - 0x80);
    LowSix(x - 0xC0, y - 0x80);
  }

  lemma ThreeByteScalar(x: int, y: int, z: int) returns (cp: nat)
    requires 0xE0 <= x <= 0xEF && 0x80 <= y <= 0xBF && 0x80 <= z <= 0xBF
    requires (x == 0xE0 ==> y >= 0xA0) && (x == 0xED ==> y <= 0x9F)
    ensures IsScalar(cp) && BytesOf(cp) == [x, y, z]
  {
    var upper := 0x40 * (x - 0xE0) + (y - 0x80);
    cp := 0x40 * upper + (z - 0x80);
    LowSix(x - 0xE0, y - 0x80);
    LowSix(upper, z - 0x80);
    DivTwice(cp, 0x40, 0x40);
  }

  lemma FourByteScalar(x: int, y: int, z: int, w: int) returns (cp: nat)
    requires 0xF0 <= x <= 0xF4 && 0x80 <= y <= 0xBF && 0x80 <= z <= 0xBF && 0x80 <= w <= 0xBF
    requires (x == 0xF0 ==> y >= 0x90) && (x == 0xF4 ==> y <= 0x8F)
    ensures IsScalar(cp) && BytesOf(cp) == [x, y, z, w]
  {
    var top := 0x40 * (x - 0xF0) + (y - 0x80);
    var upper := 0x40 * top + (z - 0x80);
    cp := 0x40 * upper + (w - 0x80);
    LowSix(x - 0xF0, y - 0x80);
    LowSix(top, z - 0x80);
    LowSix(upper, w - 0x80);
    DivTwice(cp, 0x40, 0x40);
    DivTwice(cp, 0x1000, 0x40);
  }

  lemma {:induction false} TextIsValid(text: seq<nat>)
    requires AllScalar(text)
    ensures ValidUtf8(TextBytes(text))
  {
    if text == [] {
    } else {
      StepTakesScalar(text[0], TextBytes(text[1..]));
      TextIsValid(text[1..]);
    }
  }

  lemma {:induction false} ValidIsText(b: ByteSeq) returns (text: seq<nat>)
    requires ValidUtf8(b)
    ensures AllScalar(text) && TextBytes(text) == b
    decreases |b|
  {
    if b == [] {
      text := [];
    } else {
      var cp := StepGivesScalar(b);
      var later := ValidIsText(b[Utf8Step(b)..]);
      text := [cp] + later;
      assert text[1..] == later;
    }
  }

  /** A byte string passes the check exactly if it is the encoding of some text. */
  lemma ValidIff(b: ByteSeq)
    ensures ValidUtf8(b) <==> exists text :: AllScalar(text) && TextBytes(text) == b
  {
    if ValidUtf8(b) {
      var text := ValidIsText(b);
    }
    forall text | AllScalar(text) && TextBytes(text) == b
      ensures ValidUtf8(b)
    {
      TextIsValid(text);
    }
  }
}
