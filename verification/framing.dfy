/** The three framings spoken to clients: BNCS, MCP and gateway lines, each as a resumable decoder. */
module Framing {
  import opened Bytes
  import opened Streams
  import opened ReceiveBuffer

  datatype Frame = Frame(id: byte, body: seq<byte>)

  datatype ProtoError =
    | BadMagic(found: byte)
    | ShortFrame(len: nat, header: nat)
    | FrameTooLarge(len: nat, max: nat)
    | LineTooLong(limit: nat)

  const MAGIC: byte := 0xFF
  const BNCS_HEADER_LEN := 4
  const MCP_HEADER_LEN := 3
  const READ_CHUNK := 4096
  const LF: byte := 10
  const CR: byte := 13

  // ---- BNCS: FF | id | len:u16le, the length counting its own header ----

  function BncsStep(b: seq<byte>, maxFrame: nat): Step<Frame, ProtoError> {
    if |b| < BNCS_HEADER_LEN then NeedMore
    else if b[0] != MAGIC then Fail(BadMagic(b[0]))
    else
      var len := ReadLe16(b[2..4]);
      if len < BNCS_HEADER_LEN then Fail(ShortFrame(len, BNCS_HEADER_LEN))
      else if len > maxFrame then Fail(FrameTooLarge(len, maxFrame))
      else if |b| < len then NeedMore
      else Item(Frame(b[1], b[BNCS_HEADER_LEN..len]), len)
  }

  function BncsWire(f: Frame): seq<byte>
    requires BNCS_HEADER_LEN + |f.body| <= 0xFFFF
  {
    [MAGIC, f.id] + Le16(BNCS_HEADER_LEN + |f.body|) + f.body
  }

  lemma BncsIsResumable(maxFrame: nat)
    ensures forall b: seq<byte> :: BncsStep(b, maxFrame).Item? ==> 0 < BncsStep(b, maxFrame).used <= |b|
    ensures forall b: seq<byte>, more: seq<byte> {:trigger BncsStep(b + more, maxFrame)} ::
      !BncsStep(b, maxFrame).NeedMore? ==> BncsStep(b + more, maxFrame) == BncsStep(b, maxFrame)
  {
    forall b: seq<byte>, more: seq<byte> | !BncsStep(b, maxFrame).NeedMore?
      ensures BncsStep(b + more, maxFrame) == BncsStep(b, maxFrame)
    {
      assert (b + more)[2..4] == b[2..4];
      if BncsStep(b, maxFrame).Item? {
        var len := BncsStep(b, maxFrame).used;
        assert (b + more)[BNCS_HEADER_LEN..len] == b[BNCS_HEADER_LEN..len];
      }
    }
  }

  ghost function Bncs(maxFrame: nat): (d: Decoder<Frame, ProtoError>)
    ensures Progresses(d) && Stable(d)
  {
    BncsIsResumable(maxFrame);
    (b: seq<byte>) => BncsStep(b, maxFrame)
  }

  lemma BncsWireDecodes(f: Frame, maxFrame: nat)
    requires BNCS_HEADER_LEN + |f.body| <= Min(0xFFFF, maxFrame)
    ensures Encodes(Bncs(maxFrame), BncsWire(f), f)
  {
    var wire := BncsWire(f);
    forall more: seq<byte>
      ensures Bncs(maxFrame)(wire + more) == Item(f, |wire|)
    {
      var b := wire + more;
      assert b[2..4] == Le16(BNCS_HEADER_LEN + |f.body|);
      assert b[BNCS_HEADER_LEN..|wire|] == f.body;
    }
  }

  // ---- MCP: len:u16le | id, no magic byte ----

  function McpStep(b: seq<byte>, maxFrame: nat): Step<Frame, ProtoError> {
    if |b| < MCP_HEADER_LEN then NeedMore
    else
      var len := ReadLe16(b[0..2]);
      if len < MCP_HEADER_LEN then Fail(ShortFrame(len, MCP_HEADER_LEN))
      else if len > maxFrame then Fail(FrameTooLarge(len, maxFrame))
      else if |b| < len then NeedMore
      else Item(Frame(b[2], b[MCP_HEADER_LEN..len]), len)
  }

  function McpWire(f: Frame): seq<byte>
    requires MCP_HEADER_LEN + |f.body| <= 0xFFFF
  {
    Le16(MCP_HEADER_LEN + |f.body|) + [f.id] + f.body
  }

  lemma McpIsResumable(maxFrame: nat)
    ensures forall b: seq<byte> :: McpStep(b, maxFrame).Item? ==> 0 < McpStep(b, maxFrame).used <= |b|
    ensures forall b: seq<byte>, more: seq<byte> {:trigger McpStep(b + more, maxFrame)} ::
      !McpStep(b, maxFrame).NeedMore? ==> McpStep(b + more, maxFrame) == McpStep(b, maxFrame)
  {
    forall b: seq<byte>, more: seq<byte> | !McpStep(b, maxFrame).NeedMore?
      ensures McpStep(b + more, maxFrame) == McpStep(b, maxFrame)
    {
      assert (b + more)[0..2] == b[0..2];
      if McpStep(b, maxFrame).Item? {
        var len := McpStep(b, maxFrame).used;
        assert (b + more)[MCP_HEADER_LEN..len] == b[MCP_HEADER_LEN..len];
      }
    }
  }

  ghost function Mcp(maxFrame: nat): (d: Decoder<Frame, ProtoError>)
    ensures Progresses(d) && Stable(d)
  {
    McpIsResumable(maxFrame);
    (b: seq<byte>) => McpStep(b, maxFrame)
  }

  lemma McpWireDecodes(f: Frame, maxFrame: nat)
    requires MCP_HEADER_LEN + |f.body| <= Min(0xFFFF, maxFrame)
    ensures Encodes(Mcp(maxFrame), McpWire(f), f)
  {
    var wire := McpWire(f);
    forall more: seq<byte>
      ensures Mcp(maxFrame)(wire + more) == Item(f, |wire|)
    {
      var b := wire + more;
      assert b[0..2] == Le16(MCP_HEADER_LEN + |f.body|);
      assert b[MCP_HEADER_LEN..|wire|] == f.body;
    }
  }

  // ---- Lines: LF or CRLF terminated ----

  function LineStep(b: seq<byte>, maxLine: nat): Step<seq<byte>, ProtoError> {
    var idx := IndexOf(b, LF);
    if idx < |b| then
      if idx > maxLine then Fail(LineTooLong(maxLine))
      else Item(b[..if idx > 0 && b[idx - 1] == CR then idx - 1 else idx], idx + 1)
    else if |b| > maxLine then Fail(LineTooLong(maxLine))
    else NeedMore
  }

  function LineWire(line: seq<byte>): seq<byte> {
    line + [CR, LF]
  }

  lemma LinesAreResumable(maxLine: nat)
    ensures forall b: seq<byte> :: LineStep(b, maxLine).Item? ==> 0 < LineStep(b, maxLine).used <= |b|
    ensures forall b: seq<byte>, more: seq<byte> {:trigger LineStep(b + more, maxLine)} ::
      !LineStep(b, maxLine).NeedMore? ==> LineStep(b + more, maxLine) == LineStep(b, maxLine)
  {
    forall b: seq<byte>, more: seq<byte> | !LineStep(b, maxLine).NeedMore?
      ensures LineStep(b + more, maxLine) == LineStep(b, maxLine)
    {
      var i, j := IndexOf(b, LF), IndexOf(b + more, LF);
      assert forall k | 0 <= k < i :: (b + more)[k] == b[k];
      if i < |b| {
        assert (b + more)[i] == LF;
        assert j == i;
        var end := if i > 0 && b[i - 1] == CR then i - 1 else i;
        assert (b + more)[..end] == b[..end];
      } else {
        assert j >= |b|;
      }
    }
  }

  ghost function Lines(maxLine: nat): (d: Decoder<seq<byte>, ProtoError>)
    ensures Progresses(d) && Stable(d)
  {
    LinesAreResumable(maxLine);
    (b: seq<byte>) => LineStep(b, maxLine)
  }

  ghost predicate Sendable(line: seq<byte>, maxLine: nat) {
    LF !in line && |line| + 1 <= maxLine
  }

  lemma LineWireDecodes(line: seq<byte>, maxLine: nat)
    requires Sendable(line, maxLine)
    ensures Encodes(Lines(maxLine), LineWire(line), line)
  {
    var wire := LineWire(line);
    forall more: seq<byte>
      ensures Lines(maxLine)(wire + more) == Item(line, |wire|)
    {
      var b := wire + more;
      var idx := IndexOf(b, LF);
      assert b[|line|] == CR && b[|line| + 1] == LF;
      assert forall k | 0 <= k < |line| :: b[k] == line[k];
      assert idx == |line| + 1;
      assert b[..|line|] == line;
    }
  }

  // ---- What is accepted, and what is refused and why ----

  /** A line may end in LF alone, or in CR and LF: it is read alike, and only the bytes used differ. */
  lemma LineEndsAlike(line: seq<byte>, more: seq<byte>, maxLine: nat)
    requires LF !in line && (line != [] ==> line[|line| - 1] != CR)
    ensures LineStep(line + [LF] + more, maxLine) ==
      if |line| > maxLine then Fail(LineTooLong(maxLine)) else Item(line, |line| + 1)
    ensures LineStep(line + [CR, LF] + more, maxLine) ==
      if |line| + 1 > maxLine then Fail(LineTooLong(maxLine)) else Item(line, |line| + 2)
  {
    var b, c := line + [LF] + more, line + [CR, LF] + more;
    assert b[|line|] == LF && c[|line|] == CR && c[|line| + 1] == LF;
    assert forall k | 0 <= k < |line| :: b[k] == line[k] && c[k] == line[k];
    assert IndexOf(b, LF) == |line| && IndexOf(c, LF) == |line| + 1;
    assert b[..|line|] == line && c[..|line|] == line;
  }

  /** While no LF has come, more is awaited up to the limit; past it the line is refused. */
  lemma UnendedLine(b: seq<byte>, maxLine: nat)
    requires LF !in b
    ensures LineStep(b, maxLine) == if |b| > maxLine then Fail(LineTooLong(maxLine)) else NeedMore
  {
    assert IndexOf(b, LF) == |b|;
  }

  /** The length a header states. */
  function Stated(low: byte, high: byte): nat {
    low + 256 * (high as int)
  }

  lemma Behind(head: seq<byte>, rest: seq<byte>, n: nat)
    requires n <= |rest|
    ensures (head + rest)[|head|..|head| + n] == rest[..n]
  {
  }

  lemma BncsHeaderRead(magic: byte, id: byte, low: byte, high: byte, rest: seq<byte>)
    ensures
      var b := [magic, id, low, high] + rest;
      |b| == BNCS_HEADER_LEN + |rest| && b[0] == magic && b[1] == id && ReadLe16(b[2..4]) == Stated(low, high)
  {
    assert ([magic, id, low, high] + rest)[2..4] == [low, high];
  }

  lemma McpHeaderRead(low: byte, high: byte, id: byte, rest: seq<byte>)
    ensures
      var b := [low, high, id] + rest;
      |b| == MCP_HEADER_LEN + |rest| && b[2] == id && ReadLe16(b[0..2]) == Stated(low, high)
  {
    assert ([low, high, id] + rest)[0..2] == [low, high];
  }

  /**
   Once its four header bytes are there a BNCS frame is refused for its first byte, for a length shorter than the
   header, or for one past the ceiling, in this order; else it is awaited, or taken as it stands.
   */
  lemma BncsVerdict(magic: byte, id: byte, low: byte, high: byte, rest: seq<byte>, maxFrame: nat)
    ensures
      var (b, len) := ([magic, id, low, high] + rest, Stated(low, high));
      BncsStep(b, maxFrame) ==
        if magic != MAGIC then Fail(BadMagic(magic))
        else if len < BNCS_HEADER_LEN then Fail(ShortFrame(len, BNCS_HEADER_LEN))
        else if len > maxFrame then Fail(FrameTooLarge(len, maxFrame))
        else if |rest| < len - BNCS_HEADER_LEN then NeedMore
        else Item(Frame(id, rest[..len - BNCS_HEADER_LEN]), len)
  {
    hide ReadLe16, Stated;
    var len := Stated(low, high);
    BncsHeaderRead(magic, id, low, high, rest);
    Behind([magic, id, low, high], rest, if BNCS_HEADER_LEN <= len <= BNCS_HEADER_LEN + |rest| then len - BNCS_HEADER_LEN else 0);
  }

  /** The same for MCP, whose three header bytes have no magic. */
  lemma McpVerdict(low: byte, high: byte, id: byte, rest: seq<byte>, maxFrame: nat)
    ensures
      var (b, len) := ([low, high, id] + rest, Stated(low, high));
      McpStep(b, maxFrame) ==
        if len < MCP_HEADER_LEN then Fail(ShortFrame(len, MCP_HEADER_LEN))
        else if len > maxFrame then Fail(FrameTooLarge(len, maxFrame))
        else if |rest| < len - MCP_HEADER_LEN then NeedMore
        else Item(Frame(id, rest[..len - MCP_HEADER_LEN]), len)
  {
    hide ReadLe16, Stated;
    var len := Stated(low, high);
    McpHeaderRead(low, high, id, rest);
    Behind([low, high, id], rest, if MCP_HEADER_LEN <= len <= MCP_HEADER_LEN + |rest| then len - MCP_HEADER_LEN else 0);
  }

  /** Fewer bytes than a header decide nothing. */
  lemma ShortOfHeader(b: seq<byte>, maxFrame: nat)
    ensures |b| < BNCS_HEADER_LEN ==> BncsStep(b, maxFrame) == NeedMore
    ensures |b| < MCP_HEADER_LEN ==> McpStep(b, maxFrame) == NeedMore
  {
  }
}
