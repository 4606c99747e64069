/** Bytes and fixed-width little-endian integers. */
module Bytes {
  type Byte = x: int | 0 <= x < 256

  type ByteSeq = seq<Byte>

  lemma Assoc(a: ByteSeq, b: ByteSeq, c: ByteSeq)
    ensures (a + b) + c == a + (b + c)
  {
  }

  lemma SplitAt(a: ByteSeq, b: ByteSeq, k: nat)
    requires |a| <= k <= |a + b|
    ensures (a + b)[..k] == a + b[..k - |a|]
    ensures (a + b)[|a|..k] == b[..k - |a|]
  {
  }

  lemma ThreeParts(b: ByteSeq, k: nat)
    requires 1 <= k <= |b|
    ensures b == [b[0]] + b[1..k] + b[k..]
  {
  }

  /** What fills the first `k` bytes of `whole` is where `whole` starts. */
  lemma Extends(whole: ByteSeq, k: nat, head: ByteSeq, rest: ByteSeq)
    requires k <= |whole| && whole[..k] == head + rest
    ensures whole + [] == head + (rest + whole[k..])
  {
    Assoc(head, rest, whole[k..]);
    assert whole == whole[..k] + whole[k..];
  }

  function Zeros(n: nat): (b: ByteSeq)
    ensures |b| == n && forall i :: 0 <= i < n ==> b[i] == 0
  {
    seq(n, _ => 0)
  }

  function Pow256(k: nat): (p: nat)
    ensures p > 0
  {
    if k == 0 then 1 else 256 * Pow256(k - 1)
  }

  /** The `width` low-order bytes of `n`, least significant first. */
  function LittleEndian(n: nat, width: nat): (b: ByteSeq)
    ensures |b| == width
  {
    if width == 0 then [] else [n % 256] + LittleEndian(n / 256, width - 1)
  }

  function FromLittleEndian(b: ByteSeq): nat {
    if b == [] then 0 else b[0] + 256 * FromLittleEndian(b[1..])
  }

  lemma {:induction false} LittleEndianRoundTrip(n: nat, width: nat)
    requires n < Pow256(width)
    ensures FromLittleEndian(LittleEndian(n, width)) == n
  {
    if width == 0 {
    } else {
      LittleEndianRoundTrip(n / 256, width - 1);
      assert LittleEndian(n, width)[1..] == LittleEndian(n / 256, width - 1);
    }
  }

  /** The byte at place `k` counts the 256^k. */
  lemma {:induction false} LittleEndianAt(n: nat, width: nat, k: nat)
    requires k < width
    ensures LittleEndian(n, width)[k] == n / Pow256(k) % 256
  {
    if k == 0 {
    } else {
      LittleEndianAt(n / 256, width - 1, k - 1);
      DivTwice(n, 256, Pow256(k - 1));
    }
  }

  lemma DivTwice(n: nat, a: nat, b: nat)
    requires a > 0 && b > 0
    ensures a * b > 0 && n / a / b == n / (a * b)
  {
    var q := n / a;
    var p := q / b;
    Quotient(n, a);
    Quotient(q, b);
    MulMono(a, b * p, q);
    MulMono(a, q, b * p + b - 1);
    Distribute(a, b, p);
    QuotientIs(n, a * b, p);
  }

  lemma Quotient(n: nat, d: nat)
    requires d > 0
    ensures d * (n / d) <= n < d * (n / d) + d
  {
  }

  lemma QuotientIs(n: nat, d: nat, q: nat)
    requires d > 0 && d * q <= n < d * q + d
    ensures n / d == q
  {
    var q' := n / d;
    Quotient(n, d);
    if q' < q {
      MulMono(d, q' + 1, q);
    } else if q < q' {
      MulMono(d, q + 1, q');
    }
  }

  lemma MulMono(d: nat, x: nat, y: nat)
    requires x <= y
    ensures d * x <= d * y
  {
  }

  lemma Distribute(a: nat, b: nat, p: nat)
    requires a > 0 && b > 0
    ensures a * (b * p) == (a * b) * p
    ensures a * (b * p + b - 1) == (a * b) * p + a * b - a
    ensures a * b > 0
  {
  }

  lemma {:induction false} FromLittleEndianRoundTrip(b: ByteSeq)
    ensures FromLittleEndian(b) < Pow256(|b|)
    ensures LittleEndian(FromLittleEndian(b), |b|) == b
  {
    if b == [] {
    } else {
      FromLittleEndianRoundTrip(b[1..]);
      var n := FromLittleEndian(b);
      assert n % 256 == b[0] && n / 256 == FromLittleEndian(b[1..]);
      assert b == [b[0]] + b[1..];
    }
  }

  lemma {:induction false} Pow256Monotone(i: nat, j: nat)
    requires i <= j
    ensures Pow256(i) <= Pow256(j)
  {
    if i == j {
    } else {
      Pow256Monotone(i, j - 1);
    }
  }

  lemma Pow256Values()
    ensures Pow256(1) == 0x100
    ensures Pow256(2) == 0x1_0000
    ensures Pow256(4) == 0x1_0000_0000
    ensures Pow256(8) == 0x1_0000_0000_0000_0000
  {
    assert Pow256(2) == 256 * Pow256(1);
    assert Pow256(3) == 256 * Pow256(2);
    assert Pow256(4) == 256 * Pow256(3);
    assert Pow256(5) == 256 * Pow256(4);
    assert Pow256(6) == 256 * Pow256(5);
    assert Pow256(7) == 256 * Pow256(6);
    assert Pow256(8) == 256 * Pow256(7);
  }

  /** Bytes needed to write `n`; none for zero. */
  function ByteLength(n: nat): nat {
    if n == 0 then 0 else 1 + ByteLength(n / 256)
  }

  lemma {:induction false} ByteLengthBounds(n: nat)
    ensures n < Pow256(ByteLength(n))
    ensures n > 0 ==> ByteLength(n) > 0 && Pow256(ByteLength(n) - 1) <= n
  {
    if n == 0 {
    } else {
      ByteLengthBounds(n / 256);
    }
  }

  lemma ByteLengthUnique(n: nat, k: nat)
    requires k > 0 && Pow256(k - 1) <= n < Pow256(k)
    ensures ByteLength(n) == k
  {
    ByteLengthBounds(n);
    if ByteLength(n) < k {
      Pow256Monotone(ByteLength(n), k - 1);
    } else if ByteLength(n) > k {
      Pow256Monotone(k, ByteLength(n) - 1);
    }
  }
}
