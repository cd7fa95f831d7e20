/**
 The federation link: length-prefixed messages, received over reads of at most 8192 bytes into a
 buffer that is not allowed to pass one whole frame.

 A message body is opaque here: `ser` writes it and `de` reads it back.
 */
module Federation {
  import opened Bytes
  import opened Streams

  const MAX_FRAME := 0x10_0000
  const CHUNK := 8192

  datatype FrameError = TooLarge(len: nat) | Malformed

  datatype LinkError = Closed | Protocol(why: FrameError)

  datatype Codec<!M> = Codec(ser: M -> seq<byte>, de: seq<byte> -> Option<M>)

  ghost predicate Reversible<M(!new)>(c: Codec<M>) {
    forall m: M :: c.de(c.ser(m)) == Some(m)
  }

  function Encode<M>(c: Codec<M>, m: M): (w: seq<byte>)
    ensures |w| == 4 + |c.ser(m)|
  {
    var body := c.ser(m);
    Be32(Min(|body|, 0xFFFF_FFFF)) + body
  }

  function Decode<M>(c: Codec<M>, buf: seq<byte>): (s: Step<M, FrameError>)
    ensures s.Item? ==> 4 <= s.used <= |buf|
  {
    if |buf| < 4 then NeedMore else
    var len := ReadBe32(buf[..4]);
    if len > MAX_FRAME then Fail(TooLarge(len))
    else if |buf| < 4 + len then NeedMore
    else
      match c.de(buf[4..4 + len])
      case None => Fail(Malformed)
      case Some(m) => Item(m, 4 + len)
  }

  // ---- Receiving ----

  datatype Received<+M> = Received(answer: Result<M, LinkError>, pending: seq<byte>, incoming: seq<seq<byte>>)

  /** One `recv`: the answer, what stays buffered, and the reads not made yet. */
  function Receive<M>(c: Codec<M>, pending: seq<byte>, incoming: seq<seq<byte>>): (r: Received<M>)
    ensures |r.incoming| <= |incoming|
    ensures r.answer.Ok? ==> |r.incoming| < |incoming| || |r.pending| < |pending|
    decreases |incoming|
  {
    match Decode(c, pending)
    case Fail(e) => Received(Err(Protocol(e)), pending, incoming)
    case Item(m, used) => Received(Ok(m), pending[used..], incoming)
    case NeedMore =>
      if incoming == [] then Received(Err(Closed), pending, incoming)
      else if |pending| + |incoming[0]| > MAX_FRAME + 4 then
        Received(Err(Protocol(TooLarge(|pending| + |incoming[0]|))), pending, incoming[1..])
      else Receive(c, pending + incoming[0], incoming[1..])
  }

  class Link<!M> {
    /** What has arrived of the next frames. */
    var pending: seq<byte>
    /** The reads the stream will answer with; none left means the peer closed. */
    var incoming: seq<seq<byte>>

    ghost predicate Valid()
      reads this
    {
      |pending| <= MAX_FRAME + 4
    }

    constructor (stream: seq<seq<byte>>)
      ensures Valid() && pending == [] && incoming == stream
    {
      pending, incoming := [], stream;
    }

    /** Read the next message; the buffer never holds more than one whole frame. */
    method Recv(c: Codec<M>) returns (answer: Result<M, LinkError>)
      requires Valid()
      modifies this
      ensures Valid()
      ensures Received(answer, pending, incoming) == Receive(c, old(pending), old(incoming))
    {
      while true
        invariant Valid()
        invariant Receive(c, pending, incoming) == Receive(c, old(pending), old(incoming))
        decreases |incoming|
      {
        match Decode(c, pending) {
          case Fail(e) =>
            return Err(Protocol(e));
          case Item(m, used) =>
            pending := pending[used..];
            return Ok(m);
          case NeedMore =>
        }
        if incoming == [] {
          return Err(Closed);
        }
        var chunk := incoming[0];
        incoming := incoming[1..];
        if |pending| + |chunk| > MAX_FRAME + 4 {
          return Err(Protocol(TooLarge(|pending| + |chunk|)));
        }
        pending := pending + chunk;
      }
    }
  }

  /** Calling `recv` until it fails: the messages delivered and what ended the connection. */
  function ReceiveAll<M>(c: Codec<M>, pending: seq<byte>, incoming: seq<seq<byte>>): (seq<M>, LinkError)
    decreases |incoming|, |pending|
  {
    var r := Receive(c, pending, incoming);
    match r.answer
    case Err(e) => ([], e)
    case Ok(m) =>
      var (ms, e) := ReceiveAll(c, r.pending, r.incoming);
      ([m] + ms, e)
  }

  // ---- Which message lists survive every way of cutting the stream into reads ----

  function Stream<M>(c: Codec<M>, ms: seq<M>): seq<byte> {
    if ms == [] then [] else Encode(c, ms[0]) + Stream(c, ms[1..])
  }

  ghost predicate ReadsOf(chunks: seq<seq<byte>>, bytes: seq<byte>) {
    Flatten(chunks) == bytes && forall i | 0 <= i < |chunks| :: 0 < |chunks[i]| <= CHUNK
  }

  /**
   A frame one byte short, plus the largest read that can follow it, still fits the buffer.
   */
  predicate FitsWhateverFollows(body: nat, after: nat) {
    4 + body - 1 + Min(CHUNK, 1 + after) <= MAX_FRAME + 4
  }

  predicate SplitSafe<M>(c: Codec<M>, ms: seq<M>) {
    ms == [] || (FitsWhateverFollows(|c.ser(ms[0])|, |Stream(c, ms[1..])|) && SplitSafe(c, ms[1..]))
  }

  lemma DecodeWhole<M(!new)>(c: Codec<M>, m: M, more: seq<byte>)
    requires Reversible(c) && |c.ser(m)| <= MAX_FRAME
    ensures Decode(c, Encode(c, m) + more) == Item(m, 4 + |c.ser(m)|)
  {
    var buf, len := Encode(c, m) + more, |c.ser(m)|;
    Read32(len);
    assert buf[..4] == Be32(len);
    assert buf[4..4 + len] == c.ser(m);
  }

  lemma DecodePart<M>(c: Codec<M>, m: M, n: nat)
    requires |c.ser(m)| <= MAX_FRAME && n < 4 + |c.ser(m)|
    ensures Decode(c, Encode(c, m)[..n]).NeedMore?
  {
    if n >= 4 {
      Read32(|c.ser(m)|);
      assert Encode(c, m)[..n][..4] == Be32(|c.ser(m)|);
    }
  }

  /** `p` is a strict prefix of the first frame: nothing to deliver yet, and the next read is let in. */
  lemma WaitForRest<M>(c: Codec<M>, m: M, p: seq<byte>, chunks: seq<seq<byte>>)
    requires |c.ser(m)| <= MAX_FRAME && |p| < 4 + |c.ser(m)| && p == Encode(c, m)[..|p|]
    requires chunks != [] && |p| + |chunks[0]| <= MAX_FRAME + 4
    ensures Receive(c, p, chunks) == Receive(c, p + chunks[0], chunks[1..])
    ensures ReceiveAll(c, p, chunks) == ReceiveAll(c, p + chunks[0], chunks[1..])
  {
    DecodePart(c, m, |p|);
  }

  /** A whole frame at the front of the buffer is delivered before anything else happens. */
  lemma DeliverFirst<M(!new)>(c: Codec<M>, m: M, q: seq<byte>, chunks: seq<seq<byte>>)
    requires Reversible(c) && |c.ser(m)| <= MAX_FRAME
    ensures
      var later := ReceiveAll(c, q, chunks);
      ReceiveAll(c, Encode(c, m) + q, chunks) == ([m] + later.0, later.1)
  {
    DecodeWhole(c, m, q);
    assert (Encode(c, m) + q)[|Encode(c, m)|..] == q;
  }

  /** Delivery does not depend on the reads when every frame is split-safe. */
  lemma {:induction false} SafeIsDelivered<M(!new)>(c: Codec<M>, ms: seq<M>, p: seq<byte>, chunks: seq<seq<byte>>)
    requires Reversible(c) && SplitSafe(c, ms)
    requires forall i | 0 <= i < |chunks| :: 0 < |chunks[i]| <= CHUNK
    requires p + Flatten(chunks) == Stream(c, ms)
    ensures ReceiveAll(c, p, chunks) == (ms, Closed)
    decreases |chunks|, |p|
  {
    if ms == [] {
      NoReads(chunks);
    } else {
      var w, after := Encode(c, ms[0]), Stream(c, ms[1..]);
      if |p| >= |w| {
        var q := p[|w|..];
        CutBefore(w, after, p, Flatten(chunks));
        SafeIsDelivered(c, ms[1..], q, chunks);
        DeliverFirst(c, ms[0], q, chunks);
        assert ms == [ms[0]] + ms[1..];
      } else {
        CutInside(w, after, p, chunks);
        WaitForRest(c, ms[0], p, chunks);
        SafeIsDelivered(c, ms, p + chunks[0], chunks[1..]);
      }
    }
  }

  lemma NoReads(chunks: seq<seq<byte>>)
    requires Flatten(chunks) == []
    requires forall i | 0 <= i < |chunks| :: 0 < |chunks[i]|
    ensures chunks == []
  {
    if chunks != [] {
      assert false;
    }
  }

  lemma CutBefore(w: seq<byte>, after: seq<byte>, p: seq<byte>, tail: seq<byte>)
    requires p + tail == w + after && |p| >= |w|
    ensures p == w + p[|w|..] && p[|w|..] + tail == after
  {
    assert (p + tail)[..|w|] == w && (p + tail)[|w|..] == after;
  }

  lemma CutInside(w: seq<byte>, after: seq<byte>, p: seq<byte>, chunks: seq<seq<byte>>)
    requires p + Flatten(chunks) == w + after && |p| < |w|
    ensures p == w[..|p|] && chunks != []
    ensures |p| + |chunks[0]| <= |w| + |after|
    ensures (p + chunks[0]) + Flatten(chunks[1..]) == w + after
  {
    assert (p + Flatten(chunks))[..|p|] == p;
    assert (w + after)[..|p|] == w[..|p|];
    assert |p + Flatten(chunks)| == |w| + |after|;
    assert Flatten(chunks) == chunks[0] + Flatten(chunks[1..]);
  }

  // ---- And the reads that lose a message when one is not ----

  function Singles(b: seq<byte>): (s: seq<seq<byte>>)
    ensures forall i | 0 <= i < |s| :: |s[i]| == 1
  {
    if b == [] then [] else [[b[0]]] + Singles(b[1..])
  }

  lemma {:induction false} FlattenSingles(b: seq<byte>, more: seq<seq<byte>>)
    ensures Flatten(Singles(b) + more) == b + Flatten(more)
  {
    hide Flatten, Singles;
    if b == [] {
      assert Singles(b) == [] by { NoSingles(b); }
      assert [] + more == more && [] + Flatten(more) == Flatten(more);
    } else {
      FlattenSingles(b[1..], more);
      FirstSingle(b);
      Concat([[b[0]]], Singles(b[1..]), more);
      FlattenFirst([b[0]], Singles(b[1..]) + more);
      Concat([b[0]], b[1..], Flatten(more));
      assert [b[0]] + b[1..] == b;
    }
  }

  lemma NoSingles(b: seq<byte>)
    requires b == []
    ensures Singles(b) == []
  {
  }

  lemma FirstSingle(b: seq<byte>)
    requires b != []
    ensures Singles(b) == [[b[0]]] + Singles(b[1..])
  {
  }

  lemma FlattenFirst(head: seq<byte>, rest: seq<seq<byte>>)
    ensures Flatten([head] + rest) == head + Flatten(rest)
  {
    assert ([head] + rest)[1..] == rest;
  }

  /** A frame over the limit ends the connection as soon as its length is in. */
  lemma OverLimit<M>(c: Codec<M>, m: M, n: nat)
    requires |c.ser(m)| > MAX_FRAME && 4 <= n <= 4 + |c.ser(m)|
    ensures Decode(c, Encode(c, m)[..n]).Fail?
  {
    var len := Min(|c.ser(m)|, 0xFFFF_FFFF);
    Read32(len);
    assert Encode(c, m)[..n][..4] == Be32(len);
  }

  /** Byte by byte up to `n`, the connection is either still waiting on the first frame or already refused. */
  lemma {:induction false} Dribble<M>(c: Codec<M>, m: M, k: nat, n: nat, more: seq<seq<byte>>)
    requires k <= n < 4 + |c.ser(m)|
    ensures
      var w := Encode(c, m);
      var all := ReceiveAll(c, w[..k], Singles(w[k..n]) + more);
      || all == ReceiveAll(c, w[..n], more)
      || (|c.ser(m)| > MAX_FRAME && all.0 == [])
    decreases n - k
  {
    var w := Encode(c, m);
    var chunks := Singles(w[k..n]) + more;
    if k == n {
      assert chunks == more;
    } else if |c.ser(m)| > MAX_FRAME && k >= 4 {
      OverLimit(c, m, k);
    } else {
      assert w[k..n][1..] == w[k + 1..n];
      assert chunks[0] == [w[k]] && chunks[1..] == Singles(w[k + 1..n]) + more;
      assert w[..k] + chunks[0] == w[..k + 1];
      if k >= 4 { DecodePart(c, m, k); }
      assert ReceiveAll(c, w[..k], chunks) == ReceiveAll(c, w[..k + 1], chunks[1..]);
      Dribble(c, m, k + 1, n, more);
    }
  }

  /** All but the last byte of `w` one at a time, then `last`. */
  function Dribbled(w: seq<byte>, last: seq<seq<byte>>): seq<seq<byte>>
    requires w != []
  {
    Singles(w[..|w| - 1]) + last
  }

  lemma DribbledReads(w: seq<byte>, after: seq<byte>, last: seq<seq<byte>>)
    requires w != []
    requires ReadsOf(last, [w[|w| - 1]] + after)
    ensures ReadsOf(Dribbled(w, last), w + after)
  {
    FlattenSingles(w[..|w| - 1], last);
    assert w[..|w| - 1] + ([w[|w| - 1]] + after) == w + after;
  }

  /** The reads that break a first frame which does not fit with what follows. */
  lemma BreakFirst<M>(c: Codec<M>, m: M, after: seq<byte>) returns (chunks: seq<seq<byte>>)
    requires !FitsWhateverFollows(|c.ser(m)|, |after|)
    ensures ReadsOf(chunks, Encode(c, m) + after)
    ensures ReceiveAll(c, [], chunks).0 == []
  {
    var w := Encode(c, m);
    var n := |w| - 1;
    var big, left := Min(CHUNK, 1 + |after|), [w[n]] + after;
    var last := [left[..big]] + Singles(left[big..]);
    chunks := Dribbled(w, last);
    FlattenSingles(left[big..], []);
    assert Singles(left[big..]) + [] == Singles(left[big..]) == last[1..];
    assert left[..big] + left[big..] == left;
    DribbledReads(w, after, last);
    Dribble(c, m, 0, n, last);
    assert w[0..n] == w[..n] && w[..0] == [];
    if |c.ser(m)| <= MAX_FRAME {
      DecodePart(c, m, n);
    } else {
      OverLimit(c, m, n);
    }
  }

  /** The reads that deliver a first frame that fits, and then do as they like. */
  lemma PassFirst<M(!new)>(c: Codec<M>, m: M, after: seq<byte>, rest: seq<seq<byte>>) returns (chunks: seq<seq<byte>>)
    requires Reversible(c) && |c.ser(m)| <= MAX_FRAME && ReadsOf(rest, after)
    ensures ReadsOf(chunks, Encode(c, m) + after)
    ensures ReceiveAll(c, [], chunks).0 == [m] + ReceiveAll(c, [], rest).0
  {
    var w := Encode(c, m);
    var n := |w| - 1;
    var last := [[w[n]]] + rest;
    chunks := Dribbled(w, last);
    assert last[1..] == rest;
    DribbledReads(w, after, last);
    Dribble(c, m, 0, n, last);
    assert w[0..n] == w[..n] && w[..0] == [];
    LastByte(c, m, rest);
  }

  lemma LastByte<M(!new)>(c: Codec<M>, m: M, rest: seq<seq<byte>>)
    requires Reversible(c) && |c.ser(m)| <= MAX_FRAME
    ensures
      var w := Encode(c, m);
      ReceiveAll(c, w[..|w| - 1], [[w[|w| - 1]]] + rest).0 == [m] + ReceiveAll(c, [], rest).0
  {
    var w := Encode(c, m);
    var last := [[w[|w| - 1]]] + rest;
    assert last[1..] == rest;
    WaitForRest(c, m, w[..|w| - 1], last);
    assert w[..|w| - 1] + [w[|w| - 1]] == w + [];
    DeliverFirst(c, m, [], rest);
  }

  /** Reads that lose a message of a list that is not split-safe. */
  lemma {:induction false} UnsafeReads<M(!new)>(c: Codec<M>, ms: seq<M>) returns (chunks: seq<seq<byte>>)
    requires Reversible(c) && !SplitSafe(c, ms)
    ensures ReadsOf(chunks, Stream(c, ms))
    ensures ReceiveAll(c, [], chunks).0 != ms
    decreases |ms|
  {
    var after := Stream(c, ms[1..]);
    if FitsWhateverFollows(|c.ser(ms[0])|, |after|) {
      var rest := UnsafeReads(c, ms[1..]);
      chunks := PassFirst(c, ms[0], after, rest);
      var tail := ReceiveAll(c, [], rest).0;
      assert ([ms[0]] + tail)[1..] == tail;
    } else {
      chunks := BreakFirst(c, ms[0], after);
    }
  }

  /**
   Main result. A message list is delivered whole, in order and before the close, for every cut into
   reads of 1 to 8192 bytes, exactly when each of its frames fits together with what can follow it.
   */
  lemma DeliveredIffSplitSafe<M(!new)>(c: Codec<M>, ms: seq<M>)
    requires Reversible(c)
    ensures SplitSafe(c, ms)
       <==> forall chunks | ReadsOf(chunks, Stream(c, ms)) :: ReceiveAll(c, [], chunks) == (ms, Closed)
  {
    if SplitSafe(c, ms) {
      forall chunks | ReadsOf(chunks, Stream(c, ms))
        ensures ReceiveAll(c, [], chunks) == (ms, Closed)
      {
        assert [] + Flatten(chunks) == Flatten(chunks);
        SafeIsDelivered(c, ms, [], chunks);
      }
    } else {
      var chunks := UnsafeReads(c, ms);
      assert ReceiveAll(c, [], chunks) != (ms, Closed);
    }
  }

  /** Bodies of at most `MAX_FRAME - 8191` bytes are always safe, whatever is sent around them. */
  lemma {:induction false} SmallBodiesAreSafe<M>(c: Codec<M>, ms: seq<M>)
    requires forall i | 0 <= i < |ms| :: |c.ser(ms[i])| <= MAX_FRAME - (CHUNK - 1)
    ensures SplitSafe(c, ms)
  {
    if ms != [] {
      SmallBodiesAreSafe(c, ms[1..]);
    }
  }

  const IDENTITY: Codec<seq<byte>> := Codec(m => m, b => Some(b))

  /** Two bodies of the largest size there is, and reads that lose one of them. */
  lemma LargestBodiesCanBeLost() returns (ms: seq<seq<byte>>, chunks: seq<seq<byte>>)
    ensures |ms| == 2 && forall m | m in ms :: |m| == MAX_FRAME
    ensures ReadsOf(chunks, Stream(IDENTITY, ms)) && ReceiveAll(IDENTITY, [], chunks).0 != ms
  {
    hide ReceiveAll;
    ms := [Zeros(MAX_FRAME), Zeros(MAX_FRAME)];
    assert ms[1..] == [Zeros(MAX_FRAME)] && |Stream(IDENTITY, ms[1..])| >= 4 + MAX_FRAME;
    chunks := UnsafeReads(IDENTITY, ms);
  }

  // ---- What one receive does with any bytes at all ----

  /** The length a header states, high byte first. */
  function Stated(a: byte, b: byte, c: byte, d: byte): nat {
    0x100_0000 * (a as int) + 0x1_0000 * (b as int) + 256 * (c as int) + d
  }

  lemma HeaderRead(a: byte, b: byte, c: byte, d: byte, rest: seq<byte>)
    ensures
      var buf := [a, b, c, d] + rest;
      |buf| == 4 + |rest| && ReadBe32(buf[..4]) == Stated(a, b, c, d)
  {
    assert ([a, b, c, d] + rest)[..4] == [a, b, c, d];
  }

  lemma Behind(head: seq<byte>, rest: seq<byte>, n: nat)
    requires n <= |rest|
    ensures (head + rest)[|head|..|head| + n] == rest[..n]
  {
  }

  /** Once its header is there a frame is refused for a length past the limit, awaited, or taken if its body is a message. */
  lemma FrameVerdict<M>(codec: Codec<M>, a: byte, b: byte, c: byte, d: byte, rest: seq<byte>)
    ensures
      var len := Stated(a, b, c, d);
      Decode(codec, [a, b, c, d] + rest) ==
        if len > 0x10_0000 then Fail(TooLarge(len))
        else if |rest| < len then NeedMore
        else if codec.de(rest[..len]).None? then Fail(Malformed)
        else Item(codec.de(rest[..len]).value, 4 + len)
  {
    hide ReadBe32, Stated;
    var len := Stated(a, b, c, d);
    HeaderRead(a, b, c, d, rest);
    Behind([a, b, c, d], rest, if len <= |rest| then len else 0);
  }

  lemma ShortOfHeader<M>(codec: Codec<M>, buf: seq<byte>)
    requires |buf| < 4
    ensures Decode(codec, buf) == NeedMore
  {
  }

  /** Nothing can be made of what is buffered after `i` reads, and the next one still fits. */
  ghost predicate WaitsAt<M>(c: Codec<M>, pending: seq<byte>, incoming: seq<seq<byte>>, i: nat)
    requires i < |incoming|
  {
    Decode(c, pending + Flatten(incoming[..i])).NeedMore? && |pending + Flatten(incoming[..i])| + |incoming[i]| <= MAX_FRAME + 4
  }

  lemma {:induction false} OneMoreRead(chunks: seq<seq<byte>>, i: nat)
    requires i < |chunks|
    ensures Flatten(chunks[..i + 1]) == chunks[0] + Flatten(chunks[1..][..i])
    ensures Flatten(chunks[..0]) == []
  {
    assert chunks[..i + 1][0] == chunks[0] && chunks[..i + 1][1..] == chunks[1..][..i];
  }

  /** Why a receive ends with the `k`-th read: a frame, a refusal, the end of the stream, or a read that no longer fits. */
  ghost predicate EndsAt<M>(c: Codec<M>, pending: seq<byte>, incoming: seq<seq<byte>>, k: nat, r: Received<M>)
    requires k <= |incoming|
  {
    var held := pending + Flatten(incoming[..k]);
    match Decode(c, held)
    case Item(m, used) => used <= |held| && r == Received(Ok(m), held[used..], incoming[k..])
    case Fail(e) => r == Received(Err(Protocol(e)), held, incoming[k..])
    case NeedMore =>
      if k == |incoming| then r == Received(Err(Closed), held, [])
      else
        && |held| + |incoming[k]| > MAX_FRAME + 4
        && r == Received(Err(Protocol(TooLarge(|held| + |incoming[k]|))), held, incoming[k + 1..])
  }

  /** Main result: a receive makes the fewest reads that settle it, and loses none of the bytes it was given. */
  lemma {:induction false} ReceiveOutcome<M>(c: Codec<M>, pending: seq<byte>, incoming: seq<seq<byte>>) returns (k: nat)
    ensures k <= |incoming| && EndsAt(c, pending, incoming, k, Receive(c, pending, incoming))
    ensures forall i | 0 <= i < k :: WaitsAt(c, pending, incoming, i)
    decreases |incoming|
  {
    hide Decode, Flatten;
    NoneRead(pending, incoming);
    if Decode(c, pending).NeedMore? && incoming != [] && |pending| + |incoming[0]| <= MAX_FRAME + 4 {
      var j := ReceiveOutcome(c, pending + incoming[0], incoming[1..]);
      k := j + 1;
      forall i | 0 <= i <= j ensures pending + Flatten(incoming[..i + 1]) == (pending + incoming[0]) + Flatten(incoming[1..][..i]) {
        if i < |incoming| { OneMoreRead(incoming, i); }
        Concat(pending, incoming[0], Flatten(incoming[1..][..i]));
      }
      forall i | 0 <= i < k ensures WaitsAt(c, pending, incoming, i) {
        if i > 0 { assert WaitsAt(c, pending + incoming[0], incoming[1..], i - 1); }
      }
      assert incoming[1..][j..] == incoming[k..];
      assert j < |incoming[1..]| ==> incoming[1..][j + 1..] == incoming[k + 1..];
    } else {
      k := 0;
    }
  }

  lemma NoneRead(pending: seq<byte>, incoming: seq<seq<byte>>)
    ensures pending + Flatten(incoming[..0]) == pending
  {
  }
}
