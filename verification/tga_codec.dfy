/** Encoding and decoding whole TGA images. */
module TgaCodec {
  import opened Bytes
  import opened Tga

  // ---- Sizes ----

  /** `w * h`, row by row. */
  function Area(w: nat, h: nat): nat {
    if h == 0 then 0 else w + Area(w, h - 1)
  }

  lemma {:induction false} AreaIsProduct(w: nat, h: nat)
    ensures Area(w, h) == w * h
  {
    if h > 0 {
      AreaIsProduct(w, h - 1);
      assert w * h == w + w * (h - 1);
    }
  }

  lemma {:induction false} AreaSum(w: nat, a: nat, b: nat)
    ensures Area(w, a + b) == Area(w, a) + Area(w, b)
  {
    if a > 0 {
      AreaSum(w, a - 1, b);
    }
  }

  // ---- Encoding ----

  /** Type 10, 24-bit, top-down; the sizes are cut to sixteen bits. */
  function Header(width: nat, height: nat): (h: seq<byte>)
    ensures |h| == HEADER_LEN
  {
    [0, 0, RLE_TRUECOLOR] + Zeros(9) + Le16(width % 0x1_0000) + Le16(height % 0x1_0000) + [24, 0x20]
  }

  /** `h` rows of `w` pixels from `at` on, each in its own packets. */
  function EncodeRows(ps: seq<Bgr>, at: nat, w: nat, h: nat): seq<byte>
    requires |ps| == at + Area(w, h)
    decreases h
  {
    if h == 0 then [] else RowCode(ps[at..at + w], 0) + EncodeRows(ps, at + w, w, h - 1)
  }

  function Encode(w: nat, h: nat, rgb: seq<byte>): seq<byte>
    requires |rgb| >= 3 * Area(w, h)
  {
    Header(w, h) + EncodeRows(Chunk(rgb, Area(w, h)), 0, w, h)
  }

  method ScanRun(row: seq<Bgr>, x: nat) returns (run: nat)
    requires x < |row|
    ensures run == RunFrom(row, x, 1)
  {
    run := 1;
    while x + run < |row| && run < MAX_PACKET && row[x + run] == row[x]
      invariant 1 <= run <= MAX_PACKET && x + run <= |row|
      invariant forall i | x <= i < x + run :: row[i] == row[x]
      invariant RunFrom(row, x, 1) == RunFrom(row, x, run)
      decreases |row| - run
    {
      run := run + 1;
    }
  }

  method ScanLiteral(row: seq<Bgr>, start: nat) returns (x: nat)
    requires start < |row|
    ensures x == LiteralTo(row, start, start)
  {
    x := start;
    while x < |row| && x - start < MAX_PACKET && (x + 1 >= |row| || row[x + 1] != row[x])
      invariant start <= x <= |row| && x - start <= MAX_PACKET
      invariant forall i | start <= i < x && i + 1 < |row| :: row[i] != row[i + 1]
      invariant LiteralTo(row, start, start) == LiteralTo(row, start, x)
    {
      x := x + 1;
    }
  }

  /** The packet at `x`, and where the next one begins. */
  method EncodePacket(row: seq<Bgr>, x: nat) returns (out: seq<byte>, next: nat)
    requires x < |row|
    ensures next == Next(row, x) && out == Written(PacketAt(row, x))
  {
    hide RunFrom, LiteralTo;
    var run := ScanRun(row, x);
    if run > 1 {
      out := [0x80 + (run - 1)] + Raw([row[x]]);
      next := x + run;
    } else {
      next := ScanLiteral(row, x);
      out := [next - x - 1] + Raw(row[x..next]);
    }
  }

  /** One row's packets. */
  method EncodeRow(row: seq<Bgr>) returns (out: seq<byte>)
    ensures out == RowCode(row, 0)
  {
    out := [];
    var x, w := 0, |row|;
    Concat([], RowCode(row, 0), []);
    while x < w
      invariant 0 <= x <= w
      invariant out + RowCode(row, x) == RowCode(row, 0)
    {
      var packet, next := EncodePacket(row, x);
      Concat(out, packet, RowCode(row, next));
      out := out + packet;
      x := next;
    }
  }

  method EncodeImage(w: nat, h: nat, rgb: seq<byte>) returns (out: seq<byte>)
    requires |rgb| >= 3 * Area(w, h)
    ensures out == Encode(w, h, rgb)
  {
    out := Header(w, h);
    var code := EncodeRowsLoop(w, h, rgb);
    out := out + code;
  }

  method EncodeRowsLoop(w: nat, h: nat, rgb: seq<byte>) returns (out: seq<byte>)
    requires |rgb| >= 3 * Area(w, h)
    ensures out == EncodeRows(Chunk(rgb, Area(w, h)), 0, w, h)
  {
    hide RowCode, Chunk, RowPixels;
    ghost var ps := Chunk(rgb, Area(w, h));
    out := [];
    var at := 0;
    Concat(EncodeRows(ps, 0, w, h), [], []);
    for y := 0 to h
      invariant 0 <= at && at + Area(w, h - y) == |ps|
      invariant out + EncodeRows(ps, at, w, h - y) == EncodeRows(ps, 0, w, h)
    {
      var row := RowPixels(rgb, Area(w, h), at, w);
      var code := EncodeRow(row);
      Concat(out, code, EncodeRows(ps, at + w, w, h - y - 1));
      out := out + code;
      at := at + w;
    }
    Concat(out, [], []);
  }

  /** `w` pixels from number `at` on, blue first. */
  function RowPixels(rgb: seq<byte>, n: nat, at: nat, w: nat): (row: seq<Bgr>)
    requires 3 * n <= |rgb| && at + w <= n
    ensures row == Chunk(rgb, n)[at..at + w]
  {
    var row := seq(w, x requires 0 <= x < w => RowPixel(rgb, at + x));
    RowIsChunk(rgb, n, at, row);
    row
  }

  /** Pixel number `i`, blue first. */
  function RowPixel(rgb: seq<byte>, i: nat): Bgr
    requires 3 * i + 2 < |rgb|
  {
    Bgr(rgb[3 * i + 2], rgb[3 * i + 1], rgb[3 * i])
  }

  lemma RowIsChunk(rgb: seq<byte>, n: nat, at: nat, row: seq<Bgr>)
    requires 3 * n <= |rgb| && at + |row| <= n
    requires forall x | 0 <= x < |row| :: row[x] == RowPixel(rgb, at + x)
    ensures row == Chunk(rgb, n)[at..at + |row|]
  {
    forall x | 0 <= x < |row|
      ensures row[x] == Chunk(rgb, n)[at + x]
    {
      ChunkAt(rgb, n, at + x);
    }
  }

  // ---- Decoding ----

  /** The bytes `n` pixels take at 24 or 32 bits each. */
  function Span(n: nat, depth: nat): nat {
    if depth == 24 then 3 * n else 4 * n
  }

  /** `n` pixels, each from the first three bytes of its own. */
  function Pixels(s: seq<byte>, depth: nat, n: nat): (ps: seq<Bgr>)
    requires |s| >= Span(n, depth)
    ensures |ps| == n
    decreases n
  {
    if n == 0 then [] else [Bgr(s[0], s[1], s[2])] + Pixels(s[Span(1, depth)..], depth, n - 1)
  }

  /** One packet off the front: its pixels and what is left, or `None` when it is cut short. */
  function TakePacket(data: seq<byte>, depth: nat): (r: Option<(seq<Bgr>, seq<byte>)>)
    ensures r.Some? ==> |r.value.0| > 0 && |r.value.1| < |data|
  {
    if data == [] then None else
    var packet, rest := data[0], data[1..];
    var count := packet % 128 + 1;
    if packet >= 0x80 then
      if |rest| < Span(1, depth) then None
      else Some((Repeat(Bgr(rest[0], rest[1], rest[2]), count), rest[Span(1, depth)..]))
    else
      if |rest| < Span(count, depth) then None
      else Some((Pixels(rest, depth, count), rest[Span(count, depth)..]))
  }

  /** Packets taken until `want` pixels are there; `None` when the data runs out first. */
  function Unpack(data: seq<byte>, depth: nat, want: int): (r: Option<seq<Bgr>>)
    ensures r.Some? ==> |r.value| >= want
    decreases |data|
  {
    if want <= 0 then Some([])
    else
      match TakePacket(data, depth)
      case None => None
      case Some((ps, rest)) => Before(ps, Unpack(rest, depth, want - |ps|))
  }

  function Before(head: seq<Bgr>, r: Option<seq<Bgr>>): (s: Option<seq<Bgr>>)
    ensures r.Some? <==> s.Some?
    ensures r.Some? ==> |s.value| == |head| + |r.value|
  {
    match r
    case None => None
    case Some(tail) => Some(head + tail)
  }

  datatype Shape = Shape(width: nat, height: nat, depth: nat, topDown: bool, data: seq<byte>)

  /** What the header says, when it is of the one kind an icon file carries. */
  function DecodeHeader(bytes: seq<byte>): (r: Option<Shape>)
    ensures r.Some? ==> 1 <= r.value.width <= 0xFFFF && 1 <= r.value.height <= 0xFFFF
  {
    if |bytes| < HEADER_LEN then None else
    var w, h := ReadLe16(bytes[12..14]), ReadLe16(bytes[14..16]);
    var depth: nat := bytes[16];
    var skip := HEADER_LEN + bytes[0] as int;
    if bytes[2] != RLE_TRUECOLOR || (depth != 24 && depth != 32) || w == 0 || h == 0 then None
    else if |bytes| < skip then None
    else Some(Shape(w, h, depth, bytes[17] / 0x20 % 2 == 1, bytes[skip..]))
  }

  /** Row `y` of the picture: the same row of the file, or counted from its end when it is stored upside down. */
  function RowAt(s: Shape, bgr: seq<Bgr>, y: nat): (row: seq<Bgr>)
    requires |bgr| == Area(s.width, s.height) && y < s.height
    ensures |row| == s.width
  {
    var from := Area(s.width, if s.topDown then y else s.height - 1 - y);
    RowInside(s.width, s.height, if s.topDown then y else s.height - 1 - y);
    bgr[from..from + s.width]
  }

  lemma RowInside(w: nat, h: nat, y: nat)
    requires y < h
    ensures Area(w, y) + w == Area(w, y + 1) <= Area(w, h)
  {
    AreaSum(w, y + 1, h - y - 1);
  }

  /** The first `n` rows of the picture. */
  function Arrange(s: Shape, bgr: seq<Bgr>, n: nat): (ps: seq<Bgr>)
    requires |bgr| == Area(s.width, s.height) && n <= s.height
    ensures |ps| == Area(s.width, n)
  {
    if n == 0 then [] else Arrange(s, bgr, n - 1) + RowAt(s, bgr, n - 1)
  }

  function DecodeBody(s: Shape): Option<Image> {
    match Unpack(s.data, s.depth, Area(s.width, s.height))
    case None => None
    case Some(all) => Some(Image(s.width, s.height, Rgb(Arrange(s, all[..Area(s.width, s.height)], s.height))))
  }

  function Decode(bytes: seq<byte>): Option<Image> {
    match DecodeHeader(bytes)
    case None => None
    case Some(s) => DecodeBody(s)
  }

  /** Take packets while pixels are wanted. */
  method UnpackLoop(data0: seq<byte>, depth: nat, wanted: nat) returns (r: Option<seq<Bgr>>)
    ensures r == Unpack(data0, depth, wanted)
  {
    hide TakePacket;
    var data := data0;
    var bgr: seq<Bgr> := [];
    BeforeNothing(Unpack(data, depth, wanted));
    while |bgr| < wanted
      invariant Before(bgr, Unpack(data, depth, wanted - |bgr|)) == Unpack(data0, depth, wanted)
      decreases |data|
    {
      var packet := TakePacket(data, depth);
      if packet.None? {
        return None;
      }
      var (ps, rest) := packet.value;
      BeforeTwice(bgr, ps, Unpack(rest, depth, wanted - |bgr| - |ps|));
      bgr := bgr + ps;
      data := rest;
    }
    Concat(bgr, [], []);
    r := Some(bgr);
  }

  /** Lay the rows out top first, red first. */
  method ArrangeLoop(s: Shape, bgr: seq<Bgr>) returns (pixels: seq<byte>)
    requires |bgr| == Area(s.width, s.height)
    ensures pixels == Rgb(Arrange(s, bgr, s.height))
  {
    pixels := [];
    for y := 0 to s.height
      invariant pixels == Rgb(Arrange(s, bgr, y))
    {
      RgbAppend(Arrange(s, bgr, y), RowAt(s, bgr, y));
      pixels := pixels + Rgb(RowAt(s, bgr, y));
    }
  }

  method DecodeImage(bytes: seq<byte>) returns (image: Option<Image>)
    ensures image == Decode(bytes)
  {
    var header := DecodeHeader(bytes);
    if header.None? {
      return None;
    }
    var s := header.value;
    var bgr := UnpackLoop(s.data, s.depth, Area(s.width, s.height));
    if bgr.None? {
      return None;
    }
    var pixels := ArrangeLoop(s, bgr.value[..Area(s.width, s.height)]);
    return Some(Image(s.width, s.height, pixels));
  }

  lemma BeforeTwice(a: seq<Bgr>, b: seq<Bgr>, r: Option<seq<Bgr>>)
    ensures Before(a, Before(b, r)) == Before(a + b, r)
  {
    if r.Some? {
      Concat(a, b, r.value);
    }
  }

  lemma BeforeNothing(r: Option<seq<Bgr>>)
    ensures Before([], r) == r
  {
    if r.Some? {
      Concat(r.value, [], []);
    }
  }

  /** A picture stored top down is read straight through. */
  lemma {:induction false} TopDownIsStraight(s: Shape, bgr: seq<Bgr>, n: nat)
    requires |bgr| == Area(s.width, s.height) && n <= s.height && s.topDown
    ensures |Arrange(s, bgr, n)| <= |bgr| && Arrange(s, bgr, n) == bgr[..Area(s.width, n)]
  {
    hide Area;
    AreaSum(s.width, n, s.height - n);
    if n > 0 {
      TopDownIsStraight(s, bgr, n - 1);
    }
  }

  // ---- The round trip ----

  lemma {:induction false} PixelsOfRaw(ps: seq<Bgr>, more: seq<byte>)
    ensures Pixels(Raw(ps) + more, 24, |ps|) == ps
  {
    if ps != [] {
      PixelsOfRaw(ps[1..], more);
      var s := Raw(ps) + more;
      assert s[3..] == Raw(ps[1..]) + more;
      assert s[0] == ps[0].b && s[1] == ps[0].g && s[2] == ps[0].r;
    }
  }

  lemma TakeRun(n: nat, c: Bgr, more: seq<byte>)
    requires 1 <= n <= MAX_PACKET
    ensures TakePacket(Written(Run(n, c)) + more, 24) == Some((Repeat(c, n), more))
  {
    var data := Written(Run(n, c)) + more;
    assert Raw([c]) == [c.b, c.g, c.r];
    assert data[1..] == [c.b, c.g, c.r] + more;
    assert data[1..][3..] == more;
  }

  lemma TakeLiteral(ps: seq<Bgr>, more: seq<byte>)
    requires 1 <= |ps| <= MAX_PACKET
    ensures TakePacket(Written(Literal(ps)) + more, 24) == Some((ps, more))
  {
    hide Raw, Pixels;
    HeadAndTail(|ps| - 1, Raw(ps), more);
    PixelsOfRaw(ps, more);
  }

  lemma HeadAndTail(x: byte, body: seq<byte>, more: seq<byte>)
    ensures
      var data := ([x] + body) + more;
      data[0] == x && data[1..] == body + more && (body + more)[|body|..] == more
  {
  }

  lemma TakeWritten(p: Packet, more: seq<byte>)
    requires InRange(p)
    ensures TakePacket(Written(p) + more, 24) == Some((Expand(p), more))
  {
    match p {
      case Run(n, c) => TakeRun(n, c, more);
      case Literal(qs) => TakeLiteral(qs, more);
    }
  }

  lemma UnpackStep(data: seq<byte>, head: seq<Bgr>, tail: seq<byte>, pixels: seq<Bgr>, more: Option<seq<Bgr>>, want: int)
    requires want > 0 && TakePacket(data, 24) == Some((head, tail))
    requires Unpack(tail, 24, want - |head|) == Before(pixels, more)
    ensures Unpack(data, 24, want) == Before(head + pixels, more)
  {
    BeforeTwice(head, pixels, more);
  }

  lemma {:induction false} UnpackRow(row: seq<Bgr>, x: nat, more: seq<byte>, want: int)
    requires x <= |row| && want >= |row| - x
    ensures Unpack(RowCode(row, x) + more, 24, want) == Before(row[x..], Unpack(more, 24, want - (|row| - x)))
    decreases |row| - x
  {
    hide Unpack, PacketAt, Next, Written, Before, TakePacket;
    var rest := Unpack(more, 24, want - (|row| - x));
    if x == |row| {
      Concat(more, [], []);
      BeforeNothing(rest);
    } else {
      var y := Next(row, x);
      UnpackRow(row, y, more, want - (y - x));
      PacketHolds(row, x);
      Split(row, x, y);
      UnpackPacket(PacketAt(row, x), RowCode(row, y), more, row[y..], rest, want);
    }
  }

  lemma UnpackPacket(p: Packet, code: seq<byte>, more: seq<byte>, pixels: seq<Bgr>, rest: Option<seq<Bgr>>, want: int)
    requires InRange(p) && want > 0
    requires Unpack(code + more, 24, want - |Expand(p)|) == Before(pixels, rest)
    ensures Unpack((Written(p) + code) + more, 24, want) == Before(Expand(p) + pixels, rest)
  {
    hide Unpack, Written, Expand, TakePacket, Before;
    Concat(Written(p), code, more);
    TakeWritten(p, code + more);
    UnpackStep(Written(p) + (code + more), Expand(p), code + more, pixels, rest, want);
  }

  lemma UnpackNothing(data: seq<byte>, depth: nat)
    ensures Unpack(data, depth, 0) == Some([])
  {
  }

  lemma {:induction false} UnpackRows(ps: seq<Bgr>, at: nat, w: nat, h: nat)
    requires |ps| == at + Area(w, h)
    ensures Unpack(EncodeRows(ps, at, w, h), 24, Area(w, h)) == Some(ps[at..])
    decreases h
  {
    hide Unpack, RowCode;
    if h == 0 {
      UnpackNothing(EncodeRows(ps, at, w, h), 24);
      assert ps[at..] == [];
    } else {
      var row, code := ps[at..at + w], EncodeRows(ps, at + w, w, h - 1);
      UnpackRows(ps, at + w, w, h - 1);
      UnpackWholeRow(row, code, Area(w, h));
      Split(ps, at, at + w);
    }
  }

  lemma UnpackWholeRow(row: seq<Bgr>, more: seq<byte>, want: int)
    requires want >= |row|
    ensures Unpack(RowCode(row, 0) + more, 24, want) == Before(row, Unpack(more, 24, want - |row|))
  {
    UnpackRow(row, 0, more, want);
    assert row[0..] == row;
  }

  lemma HeaderRead(w: nat, h: nat, data: seq<byte>)
    requires 1 <= w <= 0xFFFF && 1 <= h <= 0xFFFF
    ensures DecodeHeader(Header(w, h) + data) == Some(Shape(w, h, 24, true, data))
  {
    var bytes := Header(w, h) + data;
    assert bytes[12..14] == Le16(w) && bytes[14..16] == Le16(h);
    assert bytes[HEADER_LEN..] == data;
  }

  /**
   Main result. A picture decodes to itself exactly when both its sizes fit the header's sixteen bits
   and neither is zero.
   */
  lemma DecodeEncode(w: nat, h: nat, rgb: seq<byte>)
    requires |rgb| == 3 * (w * h)
    ensures
      (AreaIsProduct(w, h);
       Decode(Encode(w, h, rgb)) == Some(Image(w, h, rgb)) <==> 1 <= w <= 0xFFFF && 1 <= h <= 0xFFFF)
  {
    AreaIsProduct(w, h);
    if 1 <= w <= 0xFFFF && 1 <= h <= 0xFFFF {
      var ps := Chunk(rgb, Area(w, h));
      var code := EncodeRows(ps, 0, w, h);
      var s := Shape(w, h, 24, true, code);
      HeaderRead(w, h, code);
      UnpackRows(ps, 0, w, h);
      assert ps[0..] == ps && ps[..Area(w, h)] == ps;
      TopDownIsStraight(s, ps, h);
      RgbOfChunk(rgb, Area(w, h));
    }
  }

  /** An encoded picture takes at most `3w + ceil(w / 128)` bytes a row behind its header. */
  lemma {:induction false} RowsAreCompact(ps: seq<Bgr>, at: nat, w: nat, h: nat)
    requires |ps| == at + Area(w, h)
    ensures |EncodeRows(ps, at, w, h)| <= Area(3 * w + Ceil128(w), h)
    decreases h
  {
    hide RowCode, Ceil128;
    if h > 0 {
      var row, rest := ps[at..at + w], EncodeRows(ps, at + w, w, h - 1);
      assert EncodeRows(ps, at, w, h) == RowCode(row, 0) + rest;
      GreedyIsCompact(row, 0);
      RowsAreCompact(ps, at + w, w, h - 1);
    }
  }
}
