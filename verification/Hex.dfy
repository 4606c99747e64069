/** Hexadecimal text: Base16 of section 8 of RFC 4648, read in either case, printed in lower case with "0x". */
module Hex {
  import opened Outcomes
  import opened Bytes

  datatype UnhexError = NotEnoughInput | NonHexInput | Missing0xPrefix

  type Nibble = n: nat | n < 16

  predicate IsHex(c: char) {
    '0' <= c <= '9' || 'a' <= c <= 'f' || 'A' <= c <= 'F'
  }

  function NibbleOf(c: char): Nibble
    requires IsHex(c)
  {
    if c <= '9' then c as int - '0' as int
    else if c <= 'F' then c as int - 'A' as int + 10
    else c as int - 'a' as int + 10
  }

  function DigitOf(n: Nibble): char {
    if n < 10 then (n + '0' as int) as char else (n - 10 + 'a' as int) as char
  }

  function Lower(s: string): string {
    seq(|s|, i requires 0 <= i < |s| => if 'A' <= s[i] <= 'Z' then (s[i] as int + 32) as char else s[i])
  }

  predicate AllHex(s: string) {
    forall i :: 0 <= i < |s| ==> IsHex(s[i])
  }

  function Pairs(s: string): ByteSeq
    requires AllHex(s)
  {
    if |s| < 2 then [] else [16 * NibbleOf(s[0]) + NibbleOf(s[1])] + Pairs(s[2..])
  }

  function Digits(v: ByteSeq): string {
    if v == [] then [] else [DigitOf(v[0] / 16), DigitOf(v[0] % 16)] + Digits(v[1..])
  }

  function HexOf(v: ByteSeq): string {
    "0x" + Digits(v)
  }

  function UnhexOf(s: string): Result<ByteSeq, UnhexError> {
    if !AllHex(s) then Err(NonHexInput)
    else if |s| % 2 == 1 then Err(NotEnoughInput)
    else Ok(Pairs(s))
  }

  function Unhex0xOf(s: string): Result<ByteSeq, UnhexError> {
    if !("0x" <= s) then Err(Missing0xPrefix) else UnhexOf(s[2..])
  }

  /** Decodes from left to right, two characters at a time, and stops at the first problem. Whatever that is, a
      non-hex character anywhere is what gets reported, and an odd length only when there is none. */
  method Unhex(s: string) returns (r: Result<ByteSeq, UnhexError>)
    ensures r == Err(NonHexInput) <==> exists i :: 0 <= i < |s| && !IsHex(s[i])
    ensures r == Err(NotEnoughInput) <==> (forall i :: 0 <= i < |s| ==> IsHex(s[i])) && |s| % 2 == 1
    ensures r == UnhexOf(s)
  {
    var blob: ByteSeq := [];
    var i := 0;
    assert s[0..] == s;
    while i < |s|
      invariant i <= |s| && i % 2 == 0
      invariant forall j :: 0 <= j < i ==> IsHex(s[j])
      invariant AllHex(s) ==> AllHex(s[i..]) && blob + Pairs(s[i..]) == Pairs(s)
    {
      if !IsHex(s[i]) {
        return Err(NonHexInput);
      }
      if i + 1 == |s| {
        assert AllHex(s);
        return Err(NotEnoughInput);
      }
      if !IsHex(s[i + 1]) {
        return Err(NonHexInput);
      }
      if AllHex(s) {
        PairsStep(blob, s, i);
      }
      blob := blob + [16 * NibbleOf(s[i]) + NibbleOf(s[i + 1])];
      i := i + 2;
    }
    assert s[i..] == [] && blob + [] == blob;
    return Ok(blob);
  }

  lemma PairsStep(blob: ByteSeq, s: string, i: nat)
    requires i + 2 <= |s| && AllHex(s)
    ensures AllHex(s[i..]) && AllHex(s[i + 2..])
    ensures blob + Pairs(s[i..]) == blob + [16 * NibbleOf(s[i]) + NibbleOf(s[i + 1])] + Pairs(s[i + 2..])
  {
    var rest := s[i..];
    assert rest[0] == s[i] && rest[1] == s[i + 1] && rest[2..] == s[i + 2..];
    Assoc(blob, [16 * NibbleOf(s[i]) + NibbleOf(s[i + 1])], Pairs(s[i + 2..]));
  }

  method UnhexWith0x(s: string) returns (r: Result<ByteSeq, UnhexError>)
    ensures r == Err(Missing0xPrefix) <==> !("0x" <= s)
    ensures r == Unhex0xOf(s)
  {
    var prefix := "0x";
    if |s| < |prefix| || s[..|prefix|] != prefix {
      return Err(Missing0xPrefix);
    }
    r := Unhex(s[|prefix|..]);
  }

  const HASH_SIZE := 32

  function BlockHashOf(s: string): Checked<Result<ByteSeq, UnhexError>> {
    match Unhex0xOf(s)
    case Err(e) => Returned(Err(e))
    case Ok(bytes) => if |bytes| < HASH_SIZE then OutOfBounds else Returned(Ok(bytes[..HASH_SIZE]))
  }

  /** Copies the first 32 decoded bytes, and reads past the end of the decoded ones if there are fewer. */
  method UnhexWith0xToBlockHash(s: string) returns (r: Checked<Result<ByteSeq, UnhexError>>)
    ensures r == BlockHashOf(s)
    ensures r.Returned? && r.value.Ok? ==> |r.value.value| == HASH_SIZE && r.value.value <= Unhex0xOf(s).value
  {
    var blob := UnhexWith0x(s);
    if blob.Err? {
      return Returned(Err(blob.error));
    }
    var hash: ByteSeq := [];
    while |hash| < HASH_SIZE
      invariant |hash| <= HASH_SIZE && hash <= blob.value
      decreases HASH_SIZE - |hash|
    {
      if |hash| == |blob.value| {
        return OutOfBounds;
      }
      hash := hash + [blob.value[|hash|]];
    }
    assert hash == blob.value[..HASH_SIZE];
    return Returned(Ok(hash));
  }

  /** Fills a buffer of the final size in place. */
  method ToHex(v: ByteSeq) returns (s: string)
    ensures s == HexOf(v)
  {
    var result := new char[2 * |v| + 2](_ => '\0');
    result[0], result[1] := '0', 'x';
    FillDigits(v, result);
    s := result[..];
    assert s == [result[0], result[1]] + result[2..];
  }

  method FillDigits(v: ByteSeq, result: array<char>)
    requires result.Length == 2 * |v| + 2
    modifies result
    ensures result[0] == old(result[0]) && result[1] == old(result[1]) && result[2..] == Digits(v)
  {
    var i, at := 0, 2;
    while i < |v|
      invariant i <= |v| && at == 2 + 2 * i
      invariant result[0] == old(result[0]) && result[1] == old(result[1])
      invariant result[2..at] + Digits(v[i..]) == Digits(v)
    {
      DigitsStep(result[2..at], v, i);
      WritePair(v[i], result, at);
      i, at := i + 1, at + 2;
    }
    assert result[2..at] + [] == result[2..];
  }

  method WritePair(b: Byte, result: array<char>, at: nat)
    requires 2 <= at <= result.Length - 2
    modifies result
    ensures result[0] == old(result[0]) && result[1] == old(result[1])
    ensures result[2..at + 2] == old(result[2..at]) + [DigitOf(b / 16), DigitOf(b % 16)]
  {
    result[at], result[at + 1] := DigitOf(b / 16), DigitOf(b % 16);
  }

  lemma DigitsStep(before: string, v: ByteSeq, i: nat)
    requires i < |v|
    ensures before + Digits(v[i..])
            == before + [DigitOf(v[i] / 16), DigitOf(v[i] % 16)] + Digits(v[i + 1..])
  {
    assert v[i..][1..] == v[i + 1..];
    Regroup(before, [DigitOf(v[i] / 16), DigitOf(v[i] % 16)], Digits(v[i + 1..]));
  }

  lemma Regroup(a: string, b: string, c: string)
    ensures a + (b + c) == (a + b) + c
  {
  }

  // ---------------------------------------------------------------- the alphabet

  /** The alphabet of RFC 4648, section 8, in the case it is printed in. */
  const LOWER_DIGITS := "0123456789abcdef"
  const UPPER_DIGITS := "0123456789ABCDEF"

  /** A character is a digit of value `n` exactly if the alphabet has it in place `n`, in either case. */
  lemma AlphabetExact(ch: char, n: Nibble)
    ensures IsHex(ch) && NibbleOf(ch) == n <==> ch == LOWER_DIGITS[n] || ch == UPPER_DIGITS[n]
    ensures DigitOf(n) == LOWER_DIGITS[n]
  {
  }

  /** Printed text, character by character: the prefix, then the high and the low digit of each byte. */
  lemma {:induction false} DigitsAt(v: ByteSeq, i: nat)
    requires i < |v|
    ensures |Digits(v)| == 2 * |v|
    ensures Digits(v)[2 * i] == LOWER_DIGITS[v[i] / 16] && Digits(v)[2 * i + 1] == LOWER_DIGITS[v[i] % 16]
  {
    PairsOfDigits(v);
    AlphabetExact(DigitOf(v[i] / 16), v[i] / 16);
    AlphabetExact(DigitOf(v[i] % 16), v[i] % 16);
    if i == 0 {
    } else {
      DigitsAt(v[1..], i - 1);
      var later := Digits(v[1..]);
      assert Digits(v)[2..] == later;
      assert Digits(v)[2 * i] == later[2 * (i - 1)] && Digits(v)[2 * i + 1] == later[2 * (i - 1) + 1];
    }
  }

  lemma PrintedAt(v: ByteSeq, i: nat)
    requires i < |v|
    ensures |HexOf(v)| == 2 * |v| + 2 && HexOf(v)[..2] == "0x"
    ensures HexOf(v)[2 + 2 * i] == LOWER_DIGITS[v[i] / 16] && HexOf(v)[3 + 2 * i] == LOWER_DIGITS[v[i] % 16]
  {
    DigitsAt(v, i);
  }

  // ---------------------------------------------------------------- reading and printing

  lemma DigitRoundTrip(n: Nibble)
    ensures IsHex(DigitOf(n)) && NibbleOf(DigitOf(n)) == n
  {
  }

  lemma LowerIsDigit(c: char)
    requires IsHex(c)
    ensures Lower([c]) == [DigitOf(NibbleOf(c))]
  {
  }

  lemma {:induction false} PairsOfDigits(v: ByteSeq)
    ensures AllHex(Digits(v)) && |Digits(v)| == 2 * |v| && Pairs(Digits(v)) == v
  {
    if v == [] {
    } else {
      PairsOfDigits(v[1..]);
      DigitRoundTrip(v[0] / 16);
      DigitRoundTrip(v[0] % 16);
      assert Digits(v)[2..] == Digits(v[1..]);
      assert v == [v[0]] + v[1..];
    }
  }

  lemma {:induction false} DigitsOfPairs(s: string)
    requires AllHex(s) && |s| % 2 == 0
    ensures Digits(Pairs(s)) == Lower(s)
  {
    if s == [] {
    } else {
      DigitsOfPairs(s[2..]);
      PairPrints(s[0], s[1]);
      assert Pairs(s)[1..] == Pairs(s[2..]);
      LowerSplits(s);
    }
  }

  lemma LowerSplits(s: string)
    requires |s| >= 2
    ensures Lower(s) == Lower([s[0], s[1]]) + Lower(s[2..])
  {
  }

  lemma PairPrints(a: char, b: char)
    requires IsHex(a) && IsHex(b)
    ensures var n := 16 * NibbleOf(a) + NibbleOf(b);
            [DigitOf(n / 16), DigitOf(n % 16)] == Lower([a, b])
  {
    LowerIsDigit(a);
    LowerIsDigit(b);
    assert Lower([a, b]) == Lower([a]) + Lower([b]);
  }

  lemma UnhexPrinted(v: ByteSeq)
    ensures Unhex0xOf(HexOf(v)) == Ok(v)
  {
    PairsOfDigits(v);
    assert HexOf(v)[2..] == Digits(v);
  }

  lemma {:induction false} LowerHex(s: string)
    requires AllHex(Lower(s))
    ensures AllHex(s)
  {
    forall i | 0 <= i < |s|
      ensures IsHex(s[i])
    {
      assert IsHex(Lower(s)[i]);
    }
  }

  /** Text decodes to `v` exactly when it carries the prefix and is, up to case, what `v` prints as. */
  lemma UnhexExact(s: string, v: ByteSeq)
    ensures Unhex0xOf(s) == Ok(v) <==> "0x" <= s && Lower(s) == HexOf(v)
  {
    if "0x" <= s {
      assert s == "0x" + s[2..];
      assert Lower(s) == "0x" + Lower(s[2..]);
      if Unhex0xOf(s) == Ok(v) {
        DigitsOfPairs(s[2..]);
      }
      if Lower(s) == HexOf(v) {
        assert Lower(s[2..]) == Lower(s)[2..] == HexOf(v)[2..] == Digits(v);
        PairsOfDigits(v);
        LowerHex(s[2..]);
        DigitsOfPairs(s[2..]);
        DigitsInjective(Pairs(s[2..]), v);
      }
    }
  }

  lemma DigitsInjective(v: ByteSeq, w: ByteSeq)
    requires Digits(v) == Digits(w)
    ensures v == w
  {
    PairsOfDigits(v);
    PairsOfDigits(w);
  }

  /** The copy runs past the end exactly on the printed form, in either case, of fewer than 32 bytes. */
  lemma HashOutOfBoundsIff(s: string)
    ensures BlockHashOf(s) == OutOfBounds <==>
            exists v :: |v| < HASH_SIZE && "0x" <= s && Lower(s) == HexOf(v)
  {
    if Unhex0xOf(s).Ok? {
      UnhexExact(s, Unhex0xOf(s).value);
    }
    forall v | "0x" <= s && Lower(s) == HexOf(v)
      ensures Unhex0xOf(s) == Ok(v)
    {
      UnhexExact(s, v);
    }
  }

  /** Comparing printed text compares the bytes. */
  lemma HexInjective(v: ByteSeq, w: ByteSeq)
    requires HexOf(v) == HexOf(w)
    ensures v == w
  {
    UnhexPrinted(v);
    UnhexPrinted(w);
  }
}
