/** Length-prefixed frames, whatever they carry: a varint with the payload's length, then the payload. */
module Frames {
  import opened Outcomes
  import opened Bytes
  import opened Varints

  function Frame(payload: ByteSeq): ByteSeq {
    Varint(|payload|) + payload
  }

  function ReadFrame(wire: ByteSeq): Option<(ByteSeq, ByteSeq)> {
    match ReadUvarint(wire)
    case None => None
    case Some((n, rest)) => if |rest| < n then None else Some((rest[..n], rest[n..]))
  }

  predicate Framable(payload: ByteSeq) {
    |payload| < UVARINT_LIMIT
  }

  /** The bytes of a frame: the payload's length seven bits a byte, lowest first, all but the last marked and the
      last not zero unless alone; then the payload. */
  lemma FrameLayout(payload: ByteSeq)
    ensures var k := |Frame(payload)| - |payload|;
            && k > 0
            && Frame(payload)[k..] == payload
            && |payload| < Pow128(k) && (k > 1 ==> Pow128(k - 1) <= |payload|)
            && forall i :: 0 <= i < k ==>
                 Frame(payload)[i] == |payload| / Pow128(i) % 0x80 + if i < k - 1 then 0x80 else 0
  {
    var prefix := Varint(|payload|);
    VarintLength(|payload|, |prefix|);
    if |prefix| > 1 {
      VarintLength(|payload|, |prefix| - 1);
    }
    forall i | 0 <= i < |prefix|
      ensures prefix[i] == |payload| / Pow128(i) % 0x80 + if i < |prefix| - 1 then 0x80 else 0
    {
      VarintAt(|payload|, i);
    }
  }

  lemma ReadsOnlyFrames(wire: ByteSeq, payload: ByteSeq, rest: ByteSeq)
    requires ReadFrame(wire) == Some((payload, rest))
    ensures Framable(payload) && wire == Frame(payload) + rest
  {
    var (n, tail) := ReadUvarint(wire).value;
    UvarintExact(wire, n, tail);
    assert tail == payload + rest;
    Assoc(Varint(n), payload, rest);
  }

  /** A frame is read exactly when the wire starts with it. */
  lemma FrameExact(wire: ByteSeq, payload: ByteSeq, rest: ByteSeq)
    ensures ReadFrame(wire) == Some((payload, rest)) <==> Framable(payload) && wire == Frame(payload) + rest
  {
    if ReadFrame(wire) == Some((payload, rest)) {
      ReadsOnlyFrames(wire, payload, rest);
    }
    if Framable(payload) && wire == Frame(payload) + rest {
      FrameRoundTrip(payload, rest);
    }
  }

  lemma FrameRoundTrip(payload: ByteSeq, rest: ByteSeq)
    requires Framable(payload)
    ensures ReadFrame(Frame(payload) + rest) == Some((payload, rest))
  {
    var wire, tail := Frame(payload) + rest, payload + rest;
    Assoc(Varint(|payload|), payload, rest);
    UvarintExact(wire, |payload|, tail);
    assert tail[..|payload|] == payload && tail[|payload|..] == rest;
  }

  /** A payload too long for the length prefix never reads back. */
  lemma OversizedFrameFails(payload: ByteSeq, rest: ByteSeq)
    requires !Framable(payload)
    ensures ReadFrame(Frame(payload) + rest) == None
  {
    UvarintLength(|payload|);
    VarintRoundTrip(|payload|, 9, payload + rest);
    assert Frame(payload) + rest == Varint(|payload|) + (payload + rest);
  }

  lemma FramesPrefixFree(p: ByteSeq, rest: ByteSeq, q: ByteSeq, rest': ByteSeq)
    requires Framable(p) && Framable(q)
    requires Frame(p) + rest == Frame(q) + rest'
    ensures p == q && rest == rest'
  {
    FrameRoundTrip(p, rest);
    FrameRoundTrip(q, rest');
  }

  /** A frame that has not arrived completely is never taken for a frame. */
  lemma PartialFrameWaits(payload: ByteSeq, k: nat)
    requires Framable(payload) && k < |Frame(payload)|
    ensures ReadFrame(Frame(payload)[..k]) == None
  {
    var whole := Frame(payload);
    if ReadFrame(whole[..k]).Some? {
      var (q, rest) := ReadFrame(whole[..k]).value;
      FrameExact(whole[..k], q, rest);
      Extends(whole, k, Frame(q), rest);
      FramesPrefixFree(payload, [], q, rest + whole[k..]);
    }
  }

  lemma ReadFrameShrinks(wire: ByteSeq)
    requires ReadFrame(wire).Some?
    ensures |ReadFrame(wire).value.1| < |wire|
  {
    var (payload, rest) := ReadFrame(wire).value;
    FrameExact(wire, payload, rest);
  }

  // ---------------------------------------------------------------- streams of frames

  function Stream(payloads: seq<ByteSeq>): ByteSeq {
    if payloads == [] then [] else Frame(payloads[0]) + Stream(payloads[1..])
  }

  /** Reads frames until no complete one is left: the payloads and the bytes that remain. */
  function ReadFrames(wire: ByteSeq): (seq<ByteSeq>, ByteSeq)
    decreases |wire|
  {
    match ReadFrame(wire)
    case None => ([], wire)
    case Some((payload, rest)) =>
      ReadFrameShrinks(wire);
      match ReadFrames(rest)
      case (payloads, left) => ([payload] + payloads, left)
  }

  /** The number of frames that lie entirely within the first `k` bytes of the stream. */
  function WholeFrames(payloads: seq<ByteSeq>, k: nat): (n: nat)
    ensures n <= |payloads|
  {
    if payloads == [] || k < |Frame(payloads[0])| then 0
    else 1 + WholeFrames(payloads[1..], k - |Frame(payloads[0])|)
  }

  lemma StreamTake(payloads: seq<ByteSeq>, n: nat)
    requires 0 < n <= |payloads|
    ensures Stream(payloads[..n]) == Frame(payloads[0]) + Stream(payloads[1..][..n - 1])
  {
    assert payloads[..n][1..] == payloads[1..][..n - 1];
  }

  /** That number is the largest: the frames up to it are there, the next one is not. */
  lemma {:induction false} WholeFramesIsExact(payloads: seq<ByteSeq>, k: nat)
    ensures var n := WholeFrames(payloads, k);
            |Stream(payloads[..n])| <= k && (n < |payloads| ==> k < |Stream(payloads[..n + 1])|)
  {
    if payloads != [] && k >= |Frame(payloads[0])| {
      var n := WholeFrames(payloads, k);
      WholeFramesIsExact(payloads[1..], k - |Frame(payloads[0])|);
      StreamTake(payloads, n);
      if n < |payloads| {
        StreamTake(payloads, n + 1);
      }
    } else if payloads != [] {
      StreamTake(payloads, 1);
    }
  }

  lemma {:induction false} StreamAppends(ps: seq<ByteSeq>, qs: seq<ByteSeq>)
    ensures Stream(ps + qs) == Stream(ps) + Stream(qs)
  {
    if ps == [] {
      assert ps + qs == qs;
    } else {
      StreamAppends(ps[1..], qs);
      assert (ps + qs)[1..] == ps[1..] + qs;
      Assoc(Frame(ps[0]), Stream(ps[1..]), Stream(qs));
    }
  }

  /** Complete frames followed by something that is not one are read up to exactly there. */
  lemma {:induction false} ReadsUpTo(payloads: seq<ByteSeq>, part: ByteSeq)
    requires (forall i :: 0 <= i < |payloads| ==> Framable(payloads[i])) && ReadFrame(part) == None
    ensures ReadFrames(Stream(payloads) + part) == (payloads, part)
  {
    if payloads == [] {
      assert Stream(payloads) + part == part;
    } else {
      var tail := Stream(payloads[1..]) + part;
      Assoc(Frame(payloads[0]), Stream(payloads[1..]), part);
      FrameRoundTrip(payloads[0], tail);
      ReadsUpTo(payloads[1..], part);
      assert payloads == [payloads[0]] + payloads[1..];
    }
  }

  /** However much of a stream has arrived, reading yields exactly the payloads whose frames are complete, in
      order, and leaves the incomplete one where it is. */
  lemma PrefixReadsPrefix(payloads: seq<ByteSeq>, k: nat)
    requires (forall i :: 0 <= i < |payloads| ==> Framable(payloads[i])) && k <= |Stream(payloads)|
    ensures var n := WholeFrames(payloads, k);
            |Stream(payloads[..n])| <= k &&
            ReadFrames(Stream(payloads)[..k]) == (payloads[..n], Stream(payloads)[|Stream(payloads[..n])|..k])
  {
    var n := WholeFrames(payloads, k);
    WholeFramesIsExact(payloads, k);
    StreamCut(payloads, n, k);
    var taken := k - |Stream(payloads[..n])|;
    PartWaits(payloads, n, taken);
    ReadsUpTo(payloads[..n], Stream(payloads[n..])[..taken]);
  }

  lemma StreamCut(payloads: seq<ByteSeq>, n: nat, k: nat)
    requires n <= |payloads| && |Stream(payloads[..n])| <= k <= |Stream(payloads)|
    ensures var done, later := Stream(payloads[..n]), Stream(payloads[n..]);
            && k - |done| <= |later|
            && Stream(payloads)[..k] == done + later[..k - |done|]
            && Stream(payloads)[|done|..k] == later[..k - |done|]
  {
    StreamAppends(payloads[..n], payloads[n..]);
    assert payloads[..n] + payloads[n..] == payloads;
    SplitAt(Stream(payloads[..n]), Stream(payloads[n..]), k);
  }

  lemma PartWaits(payloads: seq<ByteSeq>, n: nat, k: nat)
    requires (forall i :: 0 <= i < |payloads| ==> Framable(payloads[i])) && n <= |payloads|
    requires k <= |Stream(payloads[n..])|
    requires n < |payloads| ==> |Stream(payloads[..n])| + k < |Stream(payloads[..n + 1])|
    ensures ReadFrame(Stream(payloads[n..])[..k]) == None
  {
    if n == |payloads| {
      UvarintExact([], 0, []);
    } else {
      var next := payloads[n];
      assert payloads[..n + 1] == payloads[..n] + [next];
      StreamAppends(payloads[..n], [next]);
      assert Stream([next]) == Frame(next) + Stream([]);
      assert Stream(payloads[n..])[..k] == Frame(next)[..k];
      PartialFrameWaits(next, k);
    }
  }

  /** A whole stream reads back as the payloads written, with nothing left over. */
  lemma StreamReadsBack(payloads: seq<ByteSeq>)
    requires forall i :: 0 <= i < |payloads| ==> Framable(payloads[i])
    ensures ReadFrames(Stream(payloads)) == (payloads, [])
  {
    UvarintExact([], 0, []);
    ReadsUpTo(payloads, []);
    assert Stream(payloads) + [] == Stream(payloads);
  }
}
