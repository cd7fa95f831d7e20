/**
 What a TGA file shows, told from its bytes: which files are decoded, and where each pixel of the picture stands
 in the file, for both depths and for pictures stored from the top and from the bottom.
 */
module TgaPixels {
  import opened Bytes
  import opened Tga
  import opened TgaCodec

  // ---- Packets at either depth ----

  /** A packet and the fourth byte of each pixel stored in it, which a 24-bit file does not have. */
  datatype Stored = Stored(packet: Packet, fourth: seq<byte>)

  function Kept(p: Packet): seq<Bgr> {
    match p
    case Run(_, c) => [c]
    case Literal(ps) => ps
  }

  predicate Storable(w: Stored) {
    InRange(w.packet) && |w.fourth| == |Kept(w.packet)|
  }

  function PixelBytes(ps: seq<Bgr>, fourth: seq<byte>, depth: nat): (bs: seq<byte>)
    requires |fourth| == |ps|
    ensures |bs| == Span(|ps|, depth)
  {
    if ps == [] then []
    else [ps[0].b, ps[0].g, ps[0].r] + (if depth == 24 then [] else [fourth[0]]) + PixelBytes(ps[1..], fourth[1..], depth)
  }

  /** The packet's first byte: how many pixels it stands for, and whether one pixel is repeated. */
  function FirstByte(p: Packet): byte
    requires InRange(p)
  {
    if p.Run? then 127 + p.count else |p.pixels| - 1
  }

  function Coded(w: Stored, depth: nat): seq<byte>
    requires Storable(w)
  {
    [FirstByte(w.packet)] + PixelBytes(Kept(w.packet), w.fourth, depth)
  }

  predicate AllStorable(ws: seq<Stored>) {
    forall i | 0 <= i < |ws| :: Storable(ws[i])
  }

  function Stream(ws: seq<Stored>, depth: nat): seq<byte>
    requires AllStorable(ws)
  {
    if ws == [] then [] else Coded(ws[0], depth) + Stream(ws[1..], depth)
  }

  /** The pixels the packets stand for, in the file's order. */
  function Shown(ws: seq<Stored>): seq<Bgr> {
    if ws == [] then [] else Expand(ws[0].packet) + Shown(ws[1..])
  }

  // ---- One packet ----

  lemma {:induction false} PixelsRead(ps: seq<Bgr>, fourth: seq<byte>, depth: nat, more: seq<byte>)
    requires |fourth| == |ps|
    ensures Pixels(PixelBytes(ps, fourth, depth) + more, depth, |ps|) == ps
    decreases |ps|
  {
    if ps != [] {
      PixelsRead(ps[1..], fourth[1..], depth, more);
      FirstPixel(ps[0], if depth == 24 then [] else [fourth[0]], PixelBytes(ps[1..], fourth[1..], depth), more);
    }
  }

  lemma FirstPixel(p: Bgr, fourth: seq<byte>, tail: seq<byte>, more: seq<byte>)
    requires |fourth| <= 1
    ensures
      var s := [p.b, p.g, p.r] + fourth + tail + more;
      s[0] == p.b && s[1] == p.g && s[2] == p.r && s[3 + |fourth|..] == tail + more
  {
  }

  lemma PacketRead(w: Stored, depth: nat, more: seq<byte>)
    requires Storable(w)
    ensures TakePacket(Coded(w, depth) + more, depth) == Some((Expand(w.packet), more))
  {
    hide PixelBytes, Pixels;
    var kept := Kept(w.packet);
    var body := PixelBytes(kept, w.fourth, depth);
    HeadAndTail(FirstByte(w.packet), body, more);
    PixelsRead(kept, w.fourth, depth, more);
    if w.packet.Run? { OnePixel(body + more, depth); }
  }

  lemma OnePixel(s: seq<byte>, depth: nat)
    requires |s| >= Span(1, depth)
    ensures Pixels(s, depth, 1) == [Bgr(s[0], s[1], s[2])]
  {
  }

  /** The fourth bytes of the first `n` pixels; zeros where there are none. */
  function FourthBytes(s: seq<byte>, depth: nat, n: nat): (fs: seq<byte>)
    requires |s| >= Span(n, depth)
    ensures |fs| == n
    decreases n
  {
    if n == 0 then []
    else [if depth == 24 then 0 else s[3]] + FourthBytes(s[Span(1, depth)..], depth, n - 1)
  }

  lemma {:induction false} PixelsWritten(s: seq<byte>, depth: nat, n: nat)
    requires |s| >= Span(n, depth)
    ensures PixelBytes(Pixels(s, depth, n), FourthBytes(s, depth, n), depth) == s[..Span(n, depth)]
    decreases n
  {
    if n > 0 {
      var rest := s[Span(1, depth)..];
      PixelsWritten(rest, depth, n - 1);
      assert Pixels(s, depth, n)[1..] == Pixels(rest, depth, n - 1);
      assert FourthBytes(s, depth, n)[1..] == FourthBytes(rest, depth, n - 1);
      FrontInTwo(s, Span(1, depth), Span(n - 1, depth));
    }
  }

  lemma FrontInTwo(s: seq<byte>, a: nat, b: nat)
    requires |s| >= a + b
    ensures s[..a + b] == s[..a] + s[a..][..b]
  {
  }

  /** Whatever is taken off the front of the data is some packet, written out. */
  lemma PacketTaken(data: seq<byte>, depth: nat) returns (w: Stored)
    requires TakePacket(data, depth).Some?
    ensures Storable(w) && TakePacket(data, depth) == Some((Expand(w.packet), TakePacket(data, depth).value.1))
    ensures data == Coded(w, depth) + TakePacket(data, depth).value.1
  {
    hide PixelBytes, Pixels, FourthBytes;
    var rest, count := data[1..], data[0] % 128 + 1;
    var n := if data[0] >= 0x80 then 1 else count;
    PixelsWritten(rest, depth, n);
    if data[0] >= 0x80 {
      OnePixel(rest, depth);
      w := Stored(Run(count, Bgr(rest[0], rest[1], rest[2])), FourthBytes(rest, depth, 1));
    } else {
      w := Stored(Literal(Pixels(rest, depth, count)), FourthBytes(rest, depth, count));
    }
    assert rest == rest[..Span(n, depth)] + rest[Span(n, depth)..];
    Concat([data[0]], rest[..Span(n, depth)], rest[Span(n, depth)..]);
    assert data == [data[0]] + rest;
  }

  // ---- The whole data ----

  lemma {:induction false} StreamRead(ws: seq<Stored>, depth: nat, more: seq<byte>, want: int)
    requires AllStorable(ws) && want <= |Shown(ws)|
    ensures
      var r := Unpack(Stream(ws, depth) + more, depth, want);
      r.Some? && r.value <= Shown(ws)
    decreases |ws|
  {
    hide TakePacket, Coded, Expand;
    if want > 0 {
      var first, rest := ws[0], Stream(ws[1..], depth);
      Concat(Coded(first, depth), rest, more);
      PacketRead(first, depth, rest + more);
      StreamRead(ws[1..], depth, more, want - |Expand(first.packet)|);
    }
  }

  lemma {:induction false} StreamTaken(data: seq<byte>, depth: nat, want: int) returns (ws: seq<Stored>, more: seq<byte>)
    requires Unpack(data, depth, want).Some?
    ensures AllStorable(ws) && data == Stream(ws, depth) + more && want <= |Shown(ws)|
    decreases |data|
  {
    hide TakePacket, Coded, Expand;
    if want <= 0 {
      ws, more := [], data;
      Concat([], data, []);
    } else {
      var w := PacketTaken(data, depth);
      var (ps, rest) := TakePacket(data, depth).value;
      var others;
      others, more := StreamTaken(rest, depth, want - |ps|);
      ws := [w] + others;
      assert ws[1..] == others;
      Concat(Coded(w, depth), Stream(others, depth), more);
    }
  }

  // ---- Files ----

  function WidthOf(f: seq<byte>): nat
    requires |f| >= HEADER_LEN
  {
    ReadLe16(f[12..14])
  }

  function HeightOf(f: seq<byte>): nat
    requires |f| >= HEADER_LEN
  {
    ReadLe16(f[14..16])
  }

  /** Bit 5 of the last header byte. */
  predicate FromTheTop(f: seq<byte>)
    requires |f| >= HEADER_LEN
  {
    f[17] as bv8 & 0x20 != 0
  }

  lemma TopBit(b: byte)
    ensures b as bv8 & 0x20 != 0 <==> b / 0x20 % 2 == 1
  {
  }

  /** A run-length coded true-colour header, at 24 or 32 bits, of a picture that is not empty, with its id behind it. */
  predicate IsHeader(f: seq<byte>) {
    && |f| >= HEADER_LEN
    && f[2] == RLE_TRUECOLOR && (f[16] == 24 || f[16] == 32)
    && WidthOf(f) > 0 && HeightOf(f) > 0
    && |f| >= HEADER_LEN + f[0]
  }

  ghost predicate Holds(f: seq<byte>, ws: seq<Stored>, more: seq<byte>) {
    && IsHeader(f)
    && AllStorable(ws)
    && f[HEADER_LEN + f[0]..] == Stream(ws, f[16]) + more
    && |Shown(ws)| >= WidthOf(f) * HeightOf(f)
  }

  lemma HeaderIff(f: seq<byte>)
    ensures DecodeHeader(f).Some? <==> IsHeader(f)
    ensures IsHeader(f) ==>
      DecodeHeader(f) == Some(Shape(WidthOf(f), HeightOf(f), f[16], FromTheTop(f), f[HEADER_LEN + f[0]..]))
  {
    if |f| >= HEADER_LEN {
      TopBit(f[17]);
    }
  }

  /** Main result: a file is decoded exactly when its header is one and packets that hold the picture follow. */
  lemma DecodedIff(f: seq<byte>)
    ensures Decode(f).Some? <==> exists ws, more :: Holds(f, ws, more)
  {
    hide DecodeHeader, Unpack, Stream;
    HeaderIff(f);
    if IsHeader(f) {
      var data, depth, area := f[HEADER_LEN + f[0]..], f[16], Area(WidthOf(f), HeightOf(f));
      AreaIsProduct(WidthOf(f), HeightOf(f));
      if Unpack(data, depth, area).Some? {
        var ws, more := StreamTaken(data, depth, area);
        assert Holds(f, ws, more);
      }
      if ws, more :| Holds(f, ws, more) {
        StreamRead(ws, depth, more, area);
      }
    }
  }

  /** The three bytes of the picture at column `x` of row `y`. */
  function PixelAt(image: Image, x: nat, y: nat): seq<byte>
    requires |image.pixels| == 3 * (image.width * image.height) && x < image.width && y < image.height
  {
    InPicture(image.width, image.height, x, y);
    image.pixels[3 * (image.width * y + x)..3 * (image.width * y + x) + 3]
  }

  /** What the decoded file shows at column `x` of row `y`: nothing unless it is a picture of the size its header says. */
  function ShownAt(f: seq<byte>, x: nat, y: nat): Option<seq<byte>>
    requires |f| >= HEADER_LEN && x < WidthOf(f) && y < HeightOf(f)
  {
    match Decode(f)
    case None => None
    case Some(image) =>
      if image.width == WidthOf(f) && image.height == HeightOf(f) && |image.pixels| == 3 * (image.width * image.height)
      then Some(PixelAt(image, x, y)) else None
  }

  lemma InPicture(w: nat, h: nat, x: nat, y: nat)
    requires x < w && y < h
    ensures 0 <= w * y + x && w * y + x + 1 <= w * h
  {
    RowInside(w, h, y);
    AreaIsProduct(w, y);
    AreaIsProduct(w, y + 1);
    AreaIsProduct(w, h);
  }

  /** Row `y` of the picture is row `y` of the file, or the one as far from its end. */
  function FileRow(f: seq<byte>, y: nat): nat
    requires |f| >= HEADER_LEN && y < HeightOf(f)
  {
    if FromTheTop(f) then y else HeightOf(f) - 1 - y
  }

  lemma {:induction false} RgbAt(ps: seq<Bgr>, i: nat)
    requires i < |ps|
    ensures Rgb(ps)[3 * i..3 * i + 3] == [ps[i].r, ps[i].g, ps[i].b]
    decreases i
  {
    RgbFirst(ps);
    if i > 0 { RgbAt(ps[1..], i - 1); }
  }

  lemma {:induction false} ArrangedAt(s: Shape, bgr: seq<Bgr>, n: nat, x: nat, y: nat)
    requires |bgr| == Area(s.width, s.height) && y < n <= s.height && x < s.width
    ensures
      var row := if s.topDown then y else s.height - 1 - y;
      && Area(s.width, y) + x < |Arrange(s, bgr, n)| && Area(s.width, row) + x < |bgr|
      && Arrange(s, bgr, n)[Area(s.width, y) + x] == bgr[Area(s.width, row) + x]
    decreases n
  {
    hide Area;
    var row := if s.topDown then y else s.height - 1 - y;
    RowInside(s.width, n, y);
    RowInside(s.width, s.height, row);
    if y < n - 1 {
      ArrangedAt(s, bgr, n - 1, x, y);
    } else {
      assert RowAt(s, bgr, y)[x] == bgr[Area(s.width, row) + x];
    }
  }

  /** Main result: every pixel of a decoded picture is the one its place in the packets gives, red first. */
  lemma DecodedPixel(f: seq<byte>, ws: seq<Stored>, more: seq<byte>, x: nat, y: nat)
    requires Holds(f, ws, more) && x < WidthOf(f) && y < HeightOf(f)
    ensures
      (InPicture(WidthOf(f), HeightOf(f), x, FileRow(f, y));
       var p := Shown(ws)[WidthOf(f) * FileRow(f, y) + x];
       ShownAt(f, x, y) == Some([p.r, p.g, p.b]))
  {
    hide Decode, Stream, Arrange, Area, Shown, Rgb, PixelAt, FromTheTop;
    var w, h, row := WidthOf(f), HeightOf(f), FileRow(f, y);
    AreaIsProduct(w, h);
    var s, bgr := DecodedAs(f, ws, more);
    InPicture(w, h, x, y);
    InPicture(w, h, x, row);
    AreaIsProduct(w, y);
    AreaIsProduct(w, row);
    ArrangedAt(s, bgr, h, x, y);
    PixelIs(Decode(f).value, Arrange(s, bgr, h), x, y);
  }

  lemma PixelIs(image: Image, ps: seq<Bgr>, x: nat, y: nat)
    requires |ps| == image.width * image.height && image.pixels == Rgb(ps) && x < image.width && y < image.height
    ensures image.width * y + x < |ps|
    ensures PixelAt(image, x, y) == [ps[image.width * y + x].r, ps[image.width * y + x].g, ps[image.width * y + x].b]
  {
    hide Rgb;
    InPicture(image.width, image.height, x, y);
    RgbAt(ps, image.width * y + x);
  }

  lemma DecodedAs(f: seq<byte>, ws: seq<Stored>, more: seq<byte>) returns (s: Shape, bgr: seq<Bgr>)
    requires Holds(f, ws, more)
    ensures s.width == WidthOf(f) && s.height == HeightOf(f) && s.topDown == FromTheTop(f)
    ensures |bgr| == Area(s.width, s.height) <= |Shown(ws)| && forall i | 0 <= i < |bgr| :: bgr[i] == Shown(ws)[i]
    ensures Decode(f) == Some(Image(s.width, s.height, Rgb(Arrange(s, bgr, s.height))))
  {
    hide DecodeHeader, Unpack, Stream, Arrange, Area, Shown;
    HeaderIff(f);
    s := Shape(WidthOf(f), HeightOf(f), f[16], FromTheTop(f), f[HEADER_LEN + f[0]..]);
    AreaIsProduct(s.width, s.height);
    StreamRead(ws, f[16], more, Area(s.width, s.height));
    bgr := Unpack(s.data, s.depth, Area(s.width, s.height)).value[..Area(s.width, s.height)];
  }

  /** The same file with bit 5 of the last header byte the other way. */
  function Turned(f: seq<byte>): seq<byte>
    requires |f| >= HEADER_LEN
  {
    f[17 := if f[17] / 0x20 % 2 == 1 then f[17] - 0x20 else f[17] + 0x20]
  }

  lemma TurnedTop(f: seq<byte>)
    requires |f| >= HEADER_LEN
    ensures |Turned(f)| == |f| && (FromTheTop(Turned(f)) <==> !FromTheTop(f))
  {
    TopBit(f[17]);
    TopBit(Turned(f)[17]);
    OtherWay(f[17]);
  }

  lemma OtherWay(b: byte)
    ensures b / 0x20 % 2 == 1 ==> b >= 0x20 && (b - 0x20) / 0x20 % 2 == 0
    ensures b / 0x20 % 2 == 0 ==> b + 0x20 < 0x100 && (b + 0x20) / 0x20 % 2 == 1
  {
  }

  /** Main result: turning that bit turns the picture upside down, whatever the file. */
  lemma TurnedIsUpsideDown(f: seq<byte>, x: nat, y: nat)
    requires |f| >= HEADER_LEN && Decode(f).Some? && x < WidthOf(f) && y < HeightOf(f)
    ensures WidthOf(Turned(f)) == WidthOf(f) && HeightOf(Turned(f)) == HeightOf(f)
    ensures ShownAt(Turned(f), x, y) == ShownAt(f, x, HeightOf(f) - 1 - y) && ShownAt(Turned(f), x, y).Some?
  {
    hide Decode, Stream, ShownAt;
    DecodedIff(f);
    var ws, more :| Holds(f, ws, more);
    TurnedHolds(f, ws, more);
    TurnedTop(f);
    DecodedPixel(f, ws, more, x, HeightOf(f) - 1 - y);
    DecodedPixel(Turned(f), ws, more, x, y);
  }

  lemma TurnedHolds(f: seq<byte>, ws: seq<Stored>, more: seq<byte>)
    requires Holds(f, ws, more)
    ensures Holds(Turned(f), ws, more) && WidthOf(Turned(f)) == WidthOf(f) && HeightOf(Turned(f)) == HeightOf(f)
  {
    hide Stream;
    assert Turned(f)[HEADER_LEN + f[0]..] == f[HEADER_LEN + f[0]..];
  }

  /** Of two files of one size and direction that hold the same packets, fourth bytes aside, each shows the same picture. */
  lemma DepthDoesNotShow(f: seq<byte>, g: seq<byte>, ws: seq<Stored>, vs: seq<Stored>, more: seq<byte>, more': seq<byte>, x: nat, y: nat)
    requires Holds(f, ws, more) && Holds(g, vs, more') && |ws| == |vs|
    requires forall i | 0 <= i < |ws| :: ws[i].packet == vs[i].packet
    requires WidthOf(f) == WidthOf(g) && HeightOf(f) == HeightOf(g) && FromTheTop(f) == FromTheTop(g)
    requires x < WidthOf(f) && y < HeightOf(f)
    ensures ShownAt(f, x, y) == ShownAt(g, x, y) && ShownAt(f, x, y).Some?
  {
    hide ShownAt, Stream, AllStorable, Shown, FromTheTop;
    SamePackets(ws, vs);
    DecodedPixel(f, ws, more, x, y);
    DecodedPixel(g, vs, more', x, y);
  }

  lemma {:induction false} SamePackets(ws: seq<Stored>, vs: seq<Stored>)
    requires |ws| == |vs| && forall i | 0 <= i < |ws| :: ws[i].packet == vs[i].packet
    ensures Shown(ws) == Shown(vs)
    decreases |ws|
  {
    if ws != [] { SamePackets(ws[1..], vs[1..]); }
  }

  /** An encoded file has no id, is stored at 24 bits from the top, says its sizes in sixteen bits, and holds nothing else in its header. */
  lemma EncodedHeader(w: nat, h: nat, rgb: seq<byte>, i: nat)
    requires |rgb| >= 3 * Area(w, h) && i < HEADER_LEN
    ensures |Encode(w, h, rgb)| >= HEADER_LEN
    ensures Encode(w, h, rgb)[i] ==
      if i == 2 then 10 else if i == 12 then w % 256 else if i == 13 then w / 256 % 256
      else if i == 14 then h % 256 else if i == 15 then h / 256 % 256
      else if i == 16 then 24 else if i == 17 then 0x20 else 0
  {
    hide EncodeRows, Chunk;
    LowBytes(w);
    LowBytes(h);
    assert Encode(w, h, rgb)[i] == Header(w, h)[i];
  }

  lemma LowBytes(n: nat)
    ensures n % 0x1_0000 % 256 == n % 256 && n % 0x1_0000 / 256 == n / 256 % 256
  {
    var q, m := n / 0x1_0000, n % 0x1_0000;
    var x, y := m / 256, m % 256;
    SplitByte(y, x + 256 * q);
    SplitByte(x, q);
    assert n == y + 256 * (x + 256 * q);
  }
}
