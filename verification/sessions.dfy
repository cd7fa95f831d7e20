/** Whole streams: what a list of messages does on the wire, and the read loops that drain it. */
module Sessions {
  import opened Bytes
  import opened Streams
  import opened ReceiveBuffer
  import opened Framing

  // ---- A list of messages on the wire ----

  /** Fits the two-byte length field; otherwise `encode_frame` refuses it. */
  predicate Encodable(header: nat, fs: seq<Frame>) {
    forall i | 0 <= i < |fs| :: header + |fs[i].body| <= 0xFFFF
  }

  ghost predicate Within(header: nat, fs: seq<Frame>, maxFrame: nat) {
    forall i | 0 <= i < |fs| :: header + |fs[i].body| <= maxFrame
  }

  function BncsWires(fs: seq<Frame>): (w: seq<seq<byte>>)
    requires Encodable(BNCS_HEADER_LEN, fs)
    ensures |w| == |fs| && forall i | 0 <= i < |fs| :: w[i] == BncsWire(fs[i])
  {
    if fs == [] then [] else [BncsWire(fs[0])] + BncsWires(fs[1..])
  }

  function McpWires(fs: seq<Frame>): (w: seq<seq<byte>>)
    requires Encodable(MCP_HEADER_LEN, fs)
    ensures |w| == |fs| && forall i | 0 <= i < |fs| :: w[i] == McpWire(fs[i])
  {
    if fs == [] then [] else [McpWire(fs[0])] + McpWires(fs[1..])
  }

  function LineWires(ls: seq<seq<byte>>): (w: seq<seq<byte>>)
    ensures |w| == |ls| && forall i | 0 <= i < |ls| :: w[i] == LineWire(ls[i])
  {
    if ls == [] then [] else [LineWire(ls[0])] + LineWires(ls[1..])
  }

  /** A decoded BNCS frame is never over the ceiling, and neither is what is left waiting. */
  lemma {:induction false} BncsStaysWithin(b: seq<byte>, maxFrame: nat)
    ensures
      var r := Drain(Bncs(maxFrame), b);
      && Within(BNCS_HEADER_LEN, r.items, maxFrame)
      && (r.error.None? ==> |r.rest| < Max(BNCS_HEADER_LEN, maxFrame))
    decreases |b|
  {
    var s := Bncs(maxFrame)(b);
    if s.Item? {
      BncsStaysWithin(b[s.used..], maxFrame);
    }
  }

  lemma {:induction false} McpStaysWithin(b: seq<byte>, maxFrame: nat)
    ensures
      var r := Drain(Mcp(maxFrame), b);
      && Within(MCP_HEADER_LEN, r.items, maxFrame)
      && (r.error.None? ==> |r.rest| < Max(MCP_HEADER_LEN, maxFrame))
    decreases |b|
  {
    var s := Mcp(maxFrame)(b);
    if s.Item? {
      McpStaysWithin(b[s.used..], maxFrame);
    }
  }

  /** No decoded line holds a line feed or passes the ceiling, and no more than the ceiling waits. */
  lemma {:induction false} LinesStayWithin(b: seq<byte>, maxLine: nat)
    ensures
      var r := Drain(Lines(maxLine), b);
      && (forall i | 0 <= i < |r.items| :: LF !in r.items[i] && |r.items[i]| <= maxLine)
      && (r.error.None? ==> |r.rest| <= maxLine && LF !in r.rest)
    decreases |b|
  {
    var s := Lines(maxLine)(b);
    if s.Item? {
      LinesStayWithin(b[s.used..], maxLine);
    }
  }

  /** BNCS: what is sent is what arrives exactly when every frame is within the receiver's ceiling. */
  lemma BncsRoundTrip(fs: seq<Frame>, maxFrame: nat)
    requires Encodable(BNCS_HEADER_LEN, fs)
    ensures Drain(Bncs(maxFrame), Flatten(BncsWires(fs))) == Drained(fs, [], None)
       <==> Within(BNCS_HEADER_LEN, fs, maxFrame)
  {
    BncsStaysWithin(Flatten(BncsWires(fs)), maxFrame);
    if Within(BNCS_HEADER_LEN, fs, maxFrame) {
      forall i | 0 <= i < |fs|
        ensures Encodes(Bncs(maxFrame), BncsWires(fs)[i], fs[i])
      {
        BncsWireDecodes(fs[i], maxFrame);
      }
      EncodedStream(Bncs(maxFrame), BncsWires(fs), fs);
    }
  }

  /** MCP: the same, with the length-first header. */
  lemma McpRoundTrip(fs: seq<Frame>, maxFrame: nat)
    requires Encodable(MCP_HEADER_LEN, fs)
    ensures Drain(Mcp(maxFrame), Flatten(McpWires(fs))) == Drained(fs, [], None)
       <==> Within(MCP_HEADER_LEN, fs, maxFrame)
  {
    McpStaysWithin(Flatten(McpWires(fs)), maxFrame);
    if Within(MCP_HEADER_LEN, fs, maxFrame) {
      forall i | 0 <= i < |fs|
        ensures Encodes(Mcp(maxFrame), McpWires(fs)[i], fs[i])
      {
        McpWireDecodes(fs[i], maxFrame);
      }
      EncodedStream(Mcp(maxFrame), McpWires(fs), fs);
    }
  }

  /** A line the receiver would cut, merge or refuse is not the first thing it reads. */
  lemma UnsendableLine(line: seq<byte>, more: seq<byte>, maxLine: nat)
    requires !Sendable(line, maxLine)
    ensures
      var s := LineStep(LineWire(line) + more, maxLine);
      s.Fail? || (s.Item? && s.item != line)
  {
    var b := LineWire(line) + more;
    var idx := IndexOf(b, LF);
    assert b[|line| + 1] == LF;
    if LF in line {
      var k :| 0 <= k < |line| && line[k] == LF;
      assert b[k] == LF;
    } else {
      assert forall k | 0 <= k < |line| :: b[k] == line[k];
      assert b[|line|] == CR;
    }
  }

  ghost predicate AllSendable(ls: seq<seq<byte>>, maxLine: nat) {
    forall i | 0 <= i < |ls| :: Sendable(ls[i], maxLine)
  }

  lemma AllSendableSplit(ls: seq<seq<byte>>, maxLine: nat)
    requires ls != []
    ensures AllSendable(ls, maxLine) <==> Sendable(ls[0], maxLine) && AllSendable(ls[1..], maxLine)
  {
    if AllSendable(ls[1..], maxLine) {
      assert forall i | 1 <= i < |ls| :: ls[i] == ls[1..][i - 1];
    }
  }

  /** Lines: what is sent is what arrives exactly when no line holds LF or, with its CR, passes the ceiling. */
  lemma {:induction false} LinesRoundTrip(ls: seq<seq<byte>>, maxLine: nat)
    ensures Drain(Lines(maxLine), Flatten(LineWires(ls))) == Drained(ls, [], None)
       <==> AllSendable(ls, maxLine)
    decreases |ls|
  {
    if ls != [] {
      var wire, more := LineWire(ls[0]), Flatten(LineWires(ls[1..]));
      assert Flatten(LineWires(ls)) == wire + more;
      AllSendableSplit(ls, maxLine);
      if Sendable(ls[0], maxLine) {
        LinesRoundTrip(ls[1..], maxLine);
        SendableFirst(ls, more, maxLine);
      } else {
        UnsendableLine(ls[0], more, maxLine);
        UnsendableFirst(ls, more, maxLine);
      }
    }
  }

  lemma SendableFirst(ls: seq<seq<byte>>, more: seq<byte>, maxLine: nat)
    requires ls != [] && Sendable(ls[0], maxLine)
    ensures Drain(Lines(maxLine), LineWire(ls[0]) + more) == Drained(ls, [], None)
       <==> Drain(Lines(maxLine), more) == Drained(ls[1..], [], None)
  {
    var d, wire := Lines(maxLine), LineWire(ls[0]);
    LineWireDecodes(ls[0], maxLine);
    assert d(wire + more) == Item(ls[0], |wire|);
    assert (wire + more)[|wire|..] == more;
    var tail := Drain(d, more);
    assert Drain(d, wire + more) == Prepend(ls[0], tail);
    assert ([ls[0]] + tail.items)[1..] == tail.items && ls == [ls[0]] + ls[1..];
  }

  lemma UnsendableFirst(ls: seq<seq<byte>>, more: seq<byte>, maxLine: nat)
    requires ls != []
    requires
      var s := LineStep(LineWire(ls[0]) + more, maxLine);
      s.Fail? || (s.Item? && s.item != ls[0])
    ensures Drain(Lines(maxLine), LineWire(ls[0]) + more).items != ls
  {
    var d, b := Lines(maxLine), LineWire(ls[0]) + more;
    var r := Drain(d, b);
    if d(b).Item? {
      assert r.items[0] == d(b).item;
    }
  }

  /** For each of the three protocols, the reads a stream arrives in cannot be told from the outcome. */
  lemma NoFramingSeesReads(chunks: seq<seq<byte>>, limit: nat)
    ensures SameOutcome(Feed(Bncs(limit), [], chunks), Drain(Bncs(limit), Flatten(chunks)))
    ensures SameOutcome(Feed(Mcp(limit), [], chunks), Drain(Mcp(limit), Flatten(chunks)))
    ensures SameOutcome(Feed(Lines(limit), [], chunks), Drain(Lines(limit), Flatten(chunks)))
  {
    hide Feed, Drain, SameOutcome;
    BncsReads(chunks, limit);
    McpReads(chunks, limit);
    LineReads(chunks, limit);
  }

  lemma BncsReads(chunks: seq<seq<byte>>, limit: nat)
    ensures SameOutcome(Feed(Bncs(limit), [], chunks), Drain(Bncs(limit), Flatten(chunks)))
  {
    hide Feed, Drain, SameOutcome;
    assert [] + Flatten(chunks) == Flatten(chunks);
    ReadsDoNotMatter(Bncs(limit), [], chunks);
  }

  lemma McpReads(chunks: seq<seq<byte>>, limit: nat)
    ensures SameOutcome(Feed(Mcp(limit), [], chunks), Drain(Mcp(limit), Flatten(chunks)))
  {
    hide Feed, Drain, SameOutcome;
    assert [] + Flatten(chunks) == Flatten(chunks);
    ReadsDoNotMatter(Mcp(limit), [], chunks);
  }

  lemma LineReads(chunks: seq<seq<byte>>, limit: nat)
    ensures SameOutcome(Feed(Lines(limit), [], chunks), Drain(Lines(limit), Flatten(chunks)))
  {
    hide Feed, Drain, SameOutcome;
    assert [] + Flatten(chunks) == Flatten(chunks);
    ReadsDoNotMatter(Lines(limit), [], chunks);
  }

  // ---- The encoders and decoders as they run ----

  method EncodeBncs(frame: Frame, dst: seq<byte>) returns (out: seq<byte>, r: Result<(), ProtoError>)
    ensures r.Ok? <==> BNCS_HEADER_LEN + |frame.body| <= 0xFFFF
    ensures r.Ok? ==> out == dst + BncsWire(frame)
    ensures r.Err? ==> out == dst && r.error == FrameTooLarge(BNCS_HEADER_LEN + |frame.body|, 0xFFFF)
  {
    var len := BNCS_HEADER_LEN + |frame.body|;
    if len > 0xFFFF {
      return dst, Err(FrameTooLarge(len, 0xFFFF));
    }
    out := dst + [MAGIC];
    out := out + [frame.id];
    out := out + Le16(len);
    out := out + frame.body;
    r := Ok(());
  }

  method EncodeMcp(frame: Frame, dst: seq<byte>) returns (out: seq<byte>, r: Result<(), ProtoError>)
    ensures r.Ok? <==> MCP_HEADER_LEN + |frame.body| <= 0xFFFF
    ensures r.Ok? ==> out == dst + McpWire(frame)
    ensures r.Err? ==> out == dst && r.error == FrameTooLarge(MCP_HEADER_LEN + |frame.body|, 0xFFFF)
  {
    var len := MCP_HEADER_LEN + |frame.body|;
    if len > 0xFFFF {
      return dst, Err(FrameTooLarge(len, 0xFFFF));
    }
    out := dst + Le16(len);
    out := out + [frame.id];
    out := out + frame.body;
    r := Ok(());
  }

  /** `Ok(None)` waits, `Ok(Some(_))` has consumed the frame, an error leaves the bytes where they are. */
  ghost predicate Answered<T>(s: Step<T, ProtoError>, r: Result<Option<T>, ProtoError>, was: seq<byte>, now: seq<byte>) {
    match s
    case NeedMore => r == Ok(None) && now == was
    case Item(t, used) => used <= |was| && r == Ok(Some(t)) && now == was[used..]
    case Fail(e) => r == Err(e)
  }

  method DecodeBncs(src: RecvBuf, maxFrame: nat) returns (r: Result<Option<Frame>, ProtoError>)
    requires src.Valid()
    modifies src
    ensures src.Valid()
    ensures Answered(BncsStep(old(src.Unread()), maxFrame), r, old(src.Unread()), src.Unread())
    ensures r.Err? ==> src.Unread() == old(src.Unread())
  {
    var buf := src.AsSlice();
    if |buf| < BNCS_HEADER_LEN {
      return Ok(None);
    }
    if buf[0] != MAGIC {
      return Err(BadMagic(buf[0]));
    }
    var id, len := buf[1], ReadLe16(buf[2..4]);
    if len < BNCS_HEADER_LEN {
      return Err(ShortFrame(len, BNCS_HEADER_LEN));
    }
    if len > maxFrame {
      return Err(FrameTooLarge(len, maxFrame));
    }
    if |buf| < len {
      return Ok(None);
    }
    var body := buf[BNCS_HEADER_LEN..len];
    src.Consume(len);
    r := Ok(Some(Frame(id, body)));
  }

  method DecodeMcp(src: RecvBuf, maxFrame: nat) returns (r: Result<Option<Frame>, ProtoError>)
    requires src.Valid()
    modifies src
    ensures src.Valid()
    ensures Answered(McpStep(old(src.Unread()), maxFrame), r, old(src.Unread()), src.Unread())
    ensures r.Err? ==> src.Unread() == old(src.Unread())
  {
    var buf := src.AsSlice();
    if |buf| < MCP_HEADER_LEN {
      return Ok(None);
    }
    var len, id := ReadLe16(buf[0..2]), buf[2];
    if len < MCP_HEADER_LEN {
      return Err(ShortFrame(len, MCP_HEADER_LEN));
    }
    if len > maxFrame {
      return Err(FrameTooLarge(len, maxFrame));
    }
    if |buf| < len {
      return Ok(None);
    }
    var body := buf[MCP_HEADER_LEN..len];
    src.Consume(len);
    r := Ok(Some(Frame(id, body)));
  }

  /** A line too long also releases what is buffered. */
  method DecodeLine(src: RecvBuf, maxLine: nat) returns (r: Result<Option<seq<byte>>, ProtoError>)
    requires src.Valid()
    modifies src
    ensures src.Valid()
    ensures Answered(LineStep(old(src.Unread()), maxLine), r, old(src.Unread()), src.Unread())
    ensures r.Err? ==> src.Unread() == []
  {
    var buf := src.AsSlice();
    var idx := IndexOf(buf, LF);
    if idx < |buf| {
      if idx > maxLine {
        src.Clear();
        return Err(LineTooLong(maxLine));
      }
      var end := idx;
      if end > 0 && buf[end - 1] == CR {
        end := end - 1;
      }
      var line := buf[..end];
      src.Consume(idx + 1);
      return Ok(Some(line));
    }
    if |buf| > maxLine {
      src.Clear();
      return Err(LineTooLong(maxLine));
    }
    r := Ok(None);
  }

  // ---- The session loops: read, then decode until there is nothing more ----

  /** `done` then whatever `later` gives. */
  ghost function After<T, E>(done: seq<T>, later: Drained<T, E>): Drained<T, E> {
    Drained(done + later.items, later.rest, later.error)
  }

  lemma AfterStep<T, E>(d: Decoder<T, E>, done: seq<T>, b: seq<byte>)
    requires Progresses(d)
    ensures d(b).Item? ==> After(done, Drain(d, b)) == After(done + [d(b).item], Drain(d, b[d(b).used..]))
    ensures !d(b).Item? ==> After(done, Drain(d, b)).items == done
  {
    if d(b).Item? {
      var tail := Drain(d, b[d(b).used..]);
      assert done + ([d(b).item] + tail.items) == done + [d(b).item] + tail.items;
    }
  }

  /** What ends the reads: the peer closes, staff force the session off, nothing comes in time, or reading fails. */
  datatype Stop = Eof | Killed | TimedOut | ReadError

  datatype End = Malformed(why: ProtoError) | ByHandler | Stopped(how: Stop)

  /** The frames before the last were all followed by another turn of the loop. */
  ghost predicate KeptOn(keeps: seq<Frame> -> bool, frames: seq<Frame>, n: nat)
    requires n <= |frames|
  {
    forall k | 1 <= k <= n :: keeps(frames[..k])
  }

  /**
   What became of a session that had taken `before` and still had `later` coming: it took frames up to one that
   ended it, or all of them, and then met the error, or none.
   */
  ghost predicate Outcome(before: seq<Frame>, later: Drained<Frame, ProtoError>, keeps: seq<Frame> -> bool, frames: seq<Frame>, end: Option<End>) {
    && frames <= before + later.items
    && match end
       case Some(ByHandler) => frames != [] && KeptOn(keeps, frames, |frames| - 1) && !keeps(frames)
       case Some(Malformed(e)) => frames == before + later.items && KeptOn(keeps, frames, |frames|) && later.error == Some(e)
       case _ => frames == before + later.items && KeptOn(keeps, frames, |frames|) && later.error.None?
  }

  /** The loop after one read: take frames until there are none, or one of them ends the session. */
  method TakeFrames(buf: RecvBuf, before: seq<Frame>, keeps: seq<Frame> -> bool, maxFrame: nat)
    returns (frames: seq<Frame>, end: Option<End>)
    requires buf.Valid() && KeptOn(keeps, before, |before|)
    modifies buf
    ensures buf.Valid()
    ensures
      var here := Drain(Bncs(maxFrame), old(buf.Unread()));
      && Outcome(before, here, keeps, frames, end)
      && (end.Some? ==> !end.value.Stopped?) && (end.None? ==> buf.Unread() == here.rest)
  {
    hide KeptOn, Drain, After, Outcome, BncsStep;
    ghost var d := Bncs(maxFrame);
    ghost var here := Drain(d, buf.Unread());
    frames, end := before, None;
    while true
      invariant buf.Valid()
      invariant After(frames, Drain(d, buf.Unread())) == After(before, here)
      invariant KeptOn(keeps, frames, |frames|)
      decreases |buf.Unread()|
    {
      AfterStep(d, frames, buf.Unread());
      TurnEnds(d, buf.Unread(), frames, before, here, keeps);
      ghost var was := frames;
      var r := DecodeBncs(buf, maxFrame);
      match r {
        case Ok(Some(f)) =>
          frames := frames + [f];
          KeptSoFar(keeps, was, f);
          if !keeps(frames) {
            HandlerEnds(d, buf.Unread(), frames, before, here, keeps);
            return frames, Some(ByHandler);
          }
        case Ok(None) =>
          return;
        case Err(e) =>
          return frames, Some(Malformed(e));
      }
    }
  }

  lemma TurnEnds(d: Decoder<Frame, ProtoError>, b: seq<byte>, frames: seq<Frame>, before: seq<Frame>,
      here: Drained<Frame, ProtoError>, keeps: seq<Frame> -> bool)
    requires Progresses(d) && After(frames, Drain(d, b)) == After(before, here) && KeptOn(keeps, frames, |frames|)
    ensures d(b).NeedMore? ==> Outcome(before, here, keeps, frames, None) && b == here.rest
    ensures d(b).Fail? ==> Outcome(before, here, keeps, frames, Some(Malformed(d(b).error)))
  {
    hide KeptOn;
    assert frames + [] == frames;
  }

  lemma HandlerEnds(d: Decoder<Frame, ProtoError>, b: seq<byte>, frames: seq<Frame>, before: seq<Frame>,
      here: Drained<Frame, ProtoError>, keeps: seq<Frame> -> bool)
    requires Progresses(d) && After(frames, Drain(d, b)) == After(before, here)
    requires frames != [] && KeptOn(keeps, frames, |frames| - 1) && !keeps(frames)
    ensures Outcome(before, here, keeps, frames, Some(ByHandler))
  {
    hide KeptOn, Drain;
  }

  /**
   The client session's loop over the reads it makes before they stop. `keeps` says, of the frames so far, whether
   the session goes on: the state accepts the last one, or ignores it, and its handler does not close. The outcome
   depends on the bytes received and on `keeps`, not on the reads.
   */
  method BncsSession(chunks: seq<seq<byte>>, stop: Stop, keeps: seq<Frame> -> bool, maxFrame: nat)
    returns (frames: seq<Frame>, end: End)
    requires forall i | 0 <= i < |chunks| :: 0 < |chunks[i]| <= READ_CHUNK
    ensures Outcome([], Drain(Bncs(maxFrame), Flatten(chunks)), keeps, frames, Some(end))
    ensures end.Stopped? ==> end.how == stop
  {
    hide Drain, Feed, After, KeptOn, SameOutcome, Outcome;
    ghost var d := Bncs(maxFrame);
    ghost var all := Feed(d, [], chunks);
    BncsReads(chunks, maxFrame);
    var buf := new RecvBuf();
    frames := [];
    NothingYet(all, keeps);
    assert chunks[0..] == chunks;
    var i := 0;
    while i < |chunks|
      invariant 0 <= i <= |chunks| && fresh(buf) && buf.Valid()
      invariant After(frames, Feed(d, buf.Unread(), chunks[i..])) == all
      invariant KeptOn(keeps, frames, |frames|)
    {
      ghost var carry := buf.Unread();
      var before := frames;
      buf.ReadInto(chunks[i], READ_CHUNK);
      var over: Option<End>;
      frames, over := TakeFrames(buf, before, keeps, maxFrame);
      assert chunks[i..][0] == chunks[i] && chunks[i..][1..] == chunks[i + 1..];
      AfterRead(d, carry, chunks[i..], before, keeps, frames, over, all, Drain(d, Flatten(chunks)));
      if over.Some? {
        return frames, over.value;
      }
      i := i + 1;
    }
    assert chunks[i..] == [];
    AfterAll(d, buf.Unread(), frames, keeps, stop, all, Drain(d, Flatten(chunks)));
    end := Stopped(stop);
  }

  lemma NothingYet(all: Drained<Frame, ProtoError>, keeps: seq<Frame> -> bool)
    ensures After([], all) == all && KeptOn(keeps, [], 0)
  {
    assert [] + all.items == all.items;
  }

  /** The frames of one read, put in their place in the whole. */
  lemma AfterRead(d: Decoder<Frame, ProtoError>, carry: seq<byte>, chunks: seq<seq<byte>>, before: seq<Frame>,
      keeps: seq<Frame> -> bool, frames: seq<Frame>, over: Option<End>,
      all: Drained<Frame, ProtoError>, whole: Drained<Frame, ProtoError>)
    requires Progresses(d) && chunks != [] && After(before, Feed(d, carry, chunks)) == all && SameOutcome(all, whole)
    requires Outcome(before, Drain(d, carry + chunks[0]), keeps, frames, over) && (over.Some? ==> !over.value.Stopped?)
    ensures over.Some? ==> Outcome([], whole, keeps, frames, over)
    ensures over.None? ==>
      KeptOn(keeps, frames, |frames|) && After(frames, Feed(d, Drain(d, carry + chunks[0]).rest, chunks[1..])) == all
  {
    hide Drain, Feed, KeptOn;
    FeedOn(d, carry, chunks, before);
    var here := Drain(d, carry + chunks[0]);
    assert [] + whole.items == whole.items;
    FrontOfAll(frames, before + here.items, all.items);
  }

  lemma FrontOfAll<T>(frames: seq<T>, most: seq<T>, all: seq<T>)
    ensures frames <= most <= all ==> frames <= all
  {
  }

  lemma AfterAll(d: Decoder<Frame, ProtoError>, carry: seq<byte>, frames: seq<Frame>, keeps: seq<Frame> -> bool, stop: Stop,
      all: Drained<Frame, ProtoError>, whole: Drained<Frame, ProtoError>)
    requires Progresses(d) && After(frames, Feed(d, carry, [])) == all && SameOutcome(all, whole)
    requires KeptOn(keeps, frames, |frames|)
    ensures Outcome([], whole, keeps, frames, Some(Stopped(stop)))
  {
    hide KeptOn;
    assert frames + [] == frames && [] + whole.items == whole.items;
  }

  lemma KeptSoFar(keeps: seq<Frame> -> bool, was: seq<Frame>, f: Frame)
    requires KeptOn(keeps, was, |was|)
    ensures KeptOn(keeps, was + [f], |was|)
    ensures keeps(was + [f]) ==> KeptOn(keeps, was + [f], |was| + 1)
  {
    var now := was + [f];
    assert now[..|was| + 1] == now;
    forall k | 1 <= k <= |was| ensures keeps(now[..k]) {
      assert now[..k] == was[..k];
    }
  }

  lemma FeedOn<T, E>(d: Decoder<T, E>, carry: seq<byte>, chunks: seq<seq<byte>>, done: seq<T>)
    requires Progresses(d) && chunks != []
    ensures
      var here := Drain(d, carry + chunks[0]);
      After(done, Feed(d, carry, chunks)) ==
      if here.error.Some? then After(done, here) else After(done + here.items, Feed(d, here.rest, chunks[1..]))
  {
    var here := Drain(d, carry + chunks[0]);
    if here.error.None? {
      var later := Feed(d, here.rest, chunks[1..]);
      assert done + (here.items + later.items) == done + here.items + later.items;
    }
  }
}
