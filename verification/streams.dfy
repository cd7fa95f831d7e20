/**
 Resumable decoders over a byte stream.

 A decoder looks at the unread bytes and answers "wait for more", "here is one item and what it
 used", or "this can never be valid".  The module says when the way a stream is cut into socket
 reads cannot be observed, and when encoding is undone by decoding.
 */
module Streams {
  import opened Bytes

  datatype Step<+T, +E> = NeedMore | Item(item: T, used: nat) | Fail(error: E)

  type Decoder<!T, !E> = seq<byte> -> Step<T, E>

  /** What a drained buffer gave: the items, the bytes left unread, and the error that stopped it. */
  datatype Drained<+T, +E> = Drained(items: seq<T>, rest: seq<byte>, error: Option<E>)

  /** An item uses at least one byte and no more than there are. */
  ghost predicate Progresses<T, E>(d: Decoder<T, E>) {
    forall b: seq<byte> :: d(b).Item? ==> 0 < d(b).used <= |b|
  }

  /** Once a decoder has an answer, later bytes do not change it. */
  ghost predicate Stable<T, E>(d: Decoder<T, E>) {
    forall b: seq<byte>, more: seq<byte> {:trigger d(b + more)} :: !d(b).NeedMore? ==> d(b + more) == d(b)
  }

  ghost function Prepend<T, E>(t: T, r: Drained<T, E>): Drained<T, E> {
    Drained([t] + r.items, r.rest, r.error)
  }

  /** The decode loop every session runs after a read: take items until there are none. */
  ghost function Drain<T, E>(d: Decoder<T, E>, b: seq<byte>): Drained<T, E>
    requires Progresses(d)
    decreases |b|
  {
    match d(b)
    case NeedMore => Drained([], b, None)
    case Fail(e) => Drained([], b, Some(e))
    case Item(t, used) =>
      Prepend(t, Drain(d, b[used..]))
  }

  /** A session: append each read to what is left over, drain, stop at the first error. */
  ghost function Feed<T, E>(d: Decoder<T, E>, carry: seq<byte>, chunks: seq<seq<byte>>): Drained<T, E>
    requires Progresses(d)
    decreases |chunks|
  {
    if chunks == [] then Drained([], carry, None) else
    var now := Drain(d, carry + chunks[0]);
    if now.error.Some? then now else
    var later := Feed(d, now.rest, chunks[1..]);
    Drained(now.items + later.items, later.rest, later.error)
  }

  function Flatten(chunks: seq<seq<byte>>): seq<byte> {
    if chunks == [] then [] else chunks[0] + Flatten(chunks[1..])
  }

  /** The same items and the same error; and, short of an error, the same bytes waiting. */
  ghost predicate SameOutcome<T, E>(x: Drained<T, E>, y: Drained<T, E>) {
    x.items == y.items && x.error == y.error && (x.error.None? ==> x.rest == y.rest)
  }

  /** Draining leaves nothing to drain. */
  lemma {:induction false} DrainIsFinal<T, E>(d: Decoder<T, E>, b: seq<byte>)
    requires Progresses(d)
    requires Drain(d, b).error.None?
    ensures d(Drain(d, b).rest).NeedMore?
    decreases |b|
  {
    if d(b).Item? {
      DrainIsFinal(d, b[d(b).used..]);
    }
  }

  /** What draining `b` after an earlier drain gives, put together. */
  ghost function DrainOn<T, E>(d: Decoder<T, E>, first: Drained<T, E>, b: seq<byte>): Drained<T, E>
    requires Progresses(d)
  {
    if first.error.Some? then first else
    var second := Drain(d, first.rest + b);
    Drained(first.items + second.items, second.rest, second.error)
  }

  /** Draining early, in the middle of the stream, changes nothing. */
  lemma {:induction false} DrainTwice<T, E>(d: Decoder<T, E>, a: seq<byte>, b: seq<byte>)
    requires Progresses(d) && Stable(d)
    ensures SameOutcome(Drain(d, a + b), DrainOn(d, Drain(d, a), b))
    decreases |a|
  {
    match d(a) {
      case NeedMore =>
        var whole := Drain(d, a + b);
        assert Drain(d, a) == Drained([], a, None);
        assert [] + whole.items == whole.items;
      case Fail(e) =>
        assert d(a + b) == d(a);
      case Item(t, used) =>
        DrainTwice(d, a[used..], b);
        DrainItem(d, a, b);
        AfterItem(d, t, Drain(d, a[used..]), Drain(d, a[used..] + b), b);
    }
  }

  lemma AfterItem<T, E>(d: Decoder<T, E>, t: T, first: Drained<T, E>, whole: Drained<T, E>, b: seq<byte>)
    requires Progresses(d)
    requires SameOutcome(whole, DrainOn(d, first, b))
    ensures SameOutcome(Prepend(t, whole), DrainOn(d, Prepend(t, first), b))
  {
    if first.error.None? {
      var more := Drain(d, first.rest + b).items;
      assert [t] + (first.items + more) == ([t] + first.items) + more;
    }
  }

  lemma DrainItem<T, E>(d: Decoder<T, E>, a: seq<byte>, b: seq<byte>)
    requires Progresses(d) && Stable(d) && d(a).Item?
    ensures Drain(d, a + b) == Prepend(d(a).item, Drain(d, a[d(a).used..] + b))
  {
    assert d(a + b) == d(a);
    assert (a + b)[d(a).used..] == a[d(a).used..] + b;
  }

  /** Main result: a session's items and first error depend on the bytes alone, not on the reads. */
  lemma {:induction false} ReadsDoNotMatter<T, E>(d: Decoder<T, E>, carry: seq<byte>, chunks: seq<seq<byte>>)
    requires Progresses(d) && Stable(d) && d(carry).NeedMore?
    ensures SameOutcome(Feed(d, carry, chunks), Drain(d, carry + Flatten(chunks)))
    decreases |chunks|
  {
    if chunks == [] {
      assert carry + [] == carry;
    } else {
      var a, b := carry + chunks[0], Flatten(chunks[1..]);
      assert carry + Flatten(chunks) == a + b;
      DrainTwice(d, a, b);
      var now := Drain(d, a);
      if now.error.None? {
        DrainIsFinal(d, a);
        ReadsDoNotMatter(d, now.rest, chunks[1..]);
      }
    }
  }

  /** `bytes` is one item's encoding: with anything behind it, it decodes to that item and no more. */
  ghost predicate Encodes<T, E>(d: Decoder<T, E>, bytes: seq<byte>, item: T) {
    forall more: seq<byte> :: d(bytes + more) == Item(item, |bytes|)
  }

  /** A stream of encodings, read in any pieces, gives back the items and leaves nothing over. */
  lemma {:induction false} EncodedStream<T, E>(d: Decoder<T, E>, wire: seq<seq<byte>>, items: seq<T>)
    requires Progresses(d) && d([]).NeedMore?
    requires |wire| == |items|
    requires forall i | 0 <= i < |wire| :: Encodes(d, wire[i], items[i])
    ensures Drain(d, Flatten(wire)) == Drained(items, [], None)
    decreases |wire|
  {
    if wire != [] {
      var more := Flatten(wire[1..]);
      assert Encodes(d, wire[0], items[0]);
      assert d(wire[0] + more) == Item(items[0], |wire[0]|);
      assert (wire[0] + more)[|wire[0]|..] == more;
      EncodedStream(d, wire[1..], items[1..]);
    }
  }
}
