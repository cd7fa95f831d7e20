/** The growable receive buffer of `buf.rs`: bytes are appended at the tail and read from a head cursor. */
module ReceiveBuffer {
  import opened Bytes

  // ---- How much of the buffer is dead ----

  /** The length of the buffer, and how much of its front has been read. */
  datatype Space = Space(len: nat, head: nat)

  const FRESH := Space(0, 0)

  /** What is read and still held is no more than what is not: the buffer is at most twice the unread bytes. */
  predicate Tight(s: Space) {
    2 * s.head <= s.len
  }

  function At(s: Space, n: nat): nat {
    Min(s.head + n, s.len)
  }

  function AfterConsume(s: Space, n: nat): Space {
    var at := At(s, n);
    if at >= s.len then FRESH
    else if at >= s.len / 2 && at >= 512 then Space(s.len - at, 0)
    else Space(s.len, at)
  }

  /** A read into a buffer that was read to its end begins at the front again. */
  function AfterRead(s: Space, n: nat): Space {
    if s.head > 0 && s.head == s.len then Space(n, 0) else Space(s.len + n, s.head)
  }

  datatype Use = Extend(n: nat) | Read(n: nat) | Consume(n: nat) | Clear

  function After(s: Space, u: Use): Space {
    match u
    case Extend(n) => Space(s.len + n, s.head)
    case Read(n) => AfterRead(s, n)
    case Consume(n) => AfterConsume(s, n)
    case Clear => FRESH
  }

  function AfterAll(uses: seq<Use>): Space {
    if uses == [] then FRESH else After(AfterAll(uses[..|uses| - 1]), uses[|uses| - 1])
  }

  /** The cursor lands past the middle, before the end, and within the first 512 bytes. */
  predicate Wastes(s: Space, u: Use) {
    u.Consume? && At(s, u.n) < s.len && At(s, u.n) < 512 && 2 * At(s, u.n) > s.len
  }

  lemma UseKeepsTightIff(s: Space, u: Use)
    requires Tight(s)
    ensures Tight(After(s, u)) <==> !Wastes(s, u)
  {
  }

  /** Main result: at every moment no more is dead than alive exactly when no read position was left as `Wastes` says. */
  lemma {:induction false} TightThroughoutIff(uses: seq<Use>)
    ensures (forall i | 0 <= i <= |uses| :: Tight(AfterAll(uses[..i])))
      <==> forall i | 0 <= i < |uses| :: !Wastes(AfterAll(uses[..i]), uses[i])
    decreases |uses|
  {
    hide Tight, Wastes, AfterAll;
    assert uses[..|uses|] == uses;
    if uses == [] {
      FreshIsTight();
    } else {
      var most, last := uses[..|uses| - 1], uses[|uses| - 1];
      TightThroughoutIff(most);
      assert forall i | 0 <= i <= |most| :: most[..i] == uses[..i];
      LastKeepsTightIff(uses);
      assert Tight(AfterAll(uses[..|most|])) == Tight(AfterAll(most));
      assert Wastes(AfterAll(uses[..|most|]), uses[|most|]) == Wastes(AfterAll(most), last);
    }
  }

  lemma LastKeepsTightIff(uses: seq<Use>)
    requires uses != []
    ensures
      var before := AfterAll(uses[..|uses| - 1]);
      Tight(before) ==> (Tight(AfterAll(uses)) <==> !Wastes(before, uses[|uses| - 1]))
  {
    hide Tight, Wastes, After;
    var before := AfterAll(uses[..|uses| - 1]);
    if Tight(before) { UseKeepsTightIff(before, uses[|uses| - 1]); }
  }

  lemma FreshIsTight()
    ensures Tight(AfterAll([]))
  {
  }

  /** Three bytes come in and two are read: two dead bytes for one alive. */
  lemma SmallBufferWastes()
    ensures AfterAll([Extend(3), Consume(2)]) == Space(3, 2) && !Tight(Space(3, 2))
  {
    assert [Extend(3), Consume(2)][..1] == [Extend(3)] && [Extend(3)][..0] == [];
    assert AfterAll([Extend(3)]) == Space(3, 0);
  }

  /** What has been read is moved out of the buffer exactly when it is all there is, or 512 bytes and half of it. */
  lemma MovedOutIff(s: Space, n: nat)
    requires s.head <= s.len && At(s, n) > 0
    ensures AfterConsume(s, n) == (if At(s, n) == s.len || (At(s, n) >= 512 && 2 * At(s, n) + 1 >= s.len)
                                   then Space(s.len - At(s, n), 0) else Space(s.len, At(s, n)))
  {
  }

  class RecvBuf {
    var buf: seq<byte>
    var head: nat

    /** The cursor is inside the buffer, and once it has passed 512 bytes fewer than half are dead. */
    ghost predicate Valid()
      reads this
    {
      head <= |buf| && (head < 512 || 2 * head < |buf|)
    }

    /** What the user of the buffer sees. */
    ghost function Unread(): seq<byte>
      requires Valid()
      reads this
    {
      buf[head..]
    }

    ghost function Room(): Space
      reads this
    {
      Space(|buf|, head)
    }

    constructor ()
      ensures Valid() && Unread() == [] && Room() == FRESH
    {
      buf, head := [], 0;
    }

    method AsSlice() returns (s: seq<byte>)
      requires Valid()
      ensures s == Unread()
    {
      s := buf[head..];
    }

    method ExtendFromSlice(data: seq<byte>)
      requires Valid()
      modifies this
      ensures Valid() && Unread() == old(Unread()) + data
      ensures Room() == After(old(Room()), Use.Extend(|data|))
    {
      buf := buf + data;
    }

    /** Mark `n` bytes as read; moving the live bytes down is invisible. */
    method Consume(n: nat)
      requires Valid()
      modifies this
      ensures Valid() && Unread() == old(Unread())[Min(n, |old(Unread())|)..]
      ensures Room() == After(old(Room()), Use.Consume(n))
    {
      ghost var was := buf;
      head := Min(head + n, |buf|);
      assert was[head..] == old(Unread())[Min(n, |old(Unread())|)..];
      if head >= |buf| {
        buf := [];
        head := 0;
      } else if head >= |buf| / 2 && head >= 512 {
        buf := buf[head..];
        head := 0;
      }
    }

    method Clear()
      modifies this
      ensures Valid() && Unread() == [] && Room() == FRESH
    {
      buf := [];
      head := 0;
    }

    /** Make room for a socket read of up to `n` bytes; `start` is where they go. */
    method WritableTail(n: nat) returns (start: nat)
      requires Valid()
      modifies this
      ensures Valid() && start == |buf| - n && head <= start
      ensures head < 512 || 2 * head < start
      ensures Room() == AfterRead(old(Room()), n)
      ensures buf[head..start] == old(Unread()) && buf[start..] == Zeros(n)
    {
      if head > 0 && head == |buf| {
        buf := [];
        head := 0;
      }
      start := |buf|;
      buf := buf + Zeros(n);
    }

    /** What the read does to the writable tail. */
    method Fill(start: nat, data: seq<byte>)
      requires Valid() && head <= start && start + |data| <= |buf|
      modifies this`buf
      ensures Valid() && |buf| == old(|buf|)
      ensures buf[head..start] == old(buf[head..start]) && buf[start..start + |data|] == data
    {
      buf := buf[..start] + data + buf[start + |data|..];
    }

    /** Keep the `written` bytes of a tail of `requested`; the buffer never shrinks below its old length. */
    method Commit(written: nat, requested: nat)
      requires Valid() && written <= requested && head + requested <= |buf|
      requires head < 512 || 2 * head < |buf| - requested
      modifies this`buf
      ensures Valid() && buf == old(buf)[..|old(buf)| - (requested - written)]
    {
      buf := buf[..|buf| - (requested - written)];
    }

    /** One pass of the session loop's read: make room, read `data` into it, keep what was read. */
    method ReadInto(data: seq<byte>, room: nat)
      requires Valid() && |data| <= room
      modifies this
      ensures Valid() && Unread() == old(Unread()) + data
      ensures Room() == After(old(Room()), Use.Read(|data|))
    {
      var start := WritableTail(room);
      Fill(start, data);
      Commit(|data|, room);
      assert buf[head..] == buf[head..start] + buf[start..];
    }
  }
}
