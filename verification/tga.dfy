/** The run-length encoded true-colour TGA inside an icon file (`tga.rs`). */
module Tga {
  import opened Bytes

  const HEADER_LEN := 18
  const RLE_TRUECOLOR: byte := 10
  const MAX_PACKET := 128

  /** The pixels are three bytes each, red first, rows from the top down. */
  datatype Image = Image(width: nat, height: nat, pixels: seq<byte>)

  /** A pixel in the file's order. */
  datatype Bgr = Bgr(b: byte, g: byte, r: byte)

  // ---- Pixels and bytes ----

  /** The first `n` pixels of RGB bytes. */
  function Chunk(rgb: seq<byte>, n: nat): (ps: seq<Bgr>)
    requires 3 * n <= |rgb|
    ensures |ps| == n
    decreases n
  {
    if n == 0 then [] else [Bgr(rgb[2], rgb[1], rgb[0])] + Chunk(rgb[3..], n - 1)
  }

  lemma {:induction false} ChunkAt(rgb: seq<byte>, n: nat, x: nat)
    requires x < n && 3 * n <= |rgb|
    ensures Chunk(rgb, n)[x] == Bgr(rgb[3 * x + 2], rgb[3 * x + 1], rgb[3 * x])
    decreases n
  {
    if x > 0 {
      ChunkAt(rgb[3..], n - 1, x - 1);
    }
  }

  function Raw(ps: seq<Bgr>): (bs: seq<byte>)
    ensures |bs| == 3 * |ps|
  {
    if ps == [] then [] else [ps[0].b, ps[0].g, ps[0].r] + Raw(ps[1..])
  }

  lemma FirstOf<T>(a: seq<T>, b: seq<T>)
    requires a != []
    ensures a + b != [] && (a + b)[0] == a[0] && (a + b)[1..] == a[1..] + b
  {
  }

  /** Pixels as RGB bytes. */
  function Rgb(ps: seq<Bgr>): (bs: seq<byte>)
    ensures |bs| == 3 * |ps|
  {
    if ps == [] then [] else [ps[0].r, ps[0].g, ps[0].b] + Rgb(ps[1..])
  }

  lemma {:induction false} RgbAppend(a: seq<Bgr>, b: seq<Bgr>)
    ensures Rgb(a + b) == Rgb(a) + Rgb(b)
  {
    hide Rgb;
    if a == [] {
      assert a + b == b && |Rgb(a)| == 0;
    } else {
      RgbAppend(a[1..], b);
      FirstOf(a, b);
      RgbFirst(a);
      RgbFirst(a + b);
      Concat([a[0].r, a[0].g, a[0].b], Rgb(a[1..]), Rgb(b));
    }
  }

  lemma RgbFirst(ps: seq<Bgr>)
    requires ps != []
    ensures Rgb(ps) == [ps[0].r, ps[0].g, ps[0].b] + Rgb(ps[1..])
  {
  }

  lemma {:induction false} RgbOfChunk(rgb: seq<byte>, n: nat)
    requires |rgb| == 3 * n
    ensures Rgb(Chunk(rgb, n)) == rgb
    decreases n
  {
    if n > 0 {
      RgbOfChunk(rgb[3..], n - 1);
      var tail := Chunk(rgb[3..], n - 1);
      assert ([Bgr(rgb[2], rgb[1], rgb[0])] + tail)[1..] == tail;
      assert rgb == [rgb[0], rgb[1], rgb[2]] + rgb[3..];
    }
  }

  // ---- Packets ----

  datatype Packet = Run(count: nat, pixel: Bgr) | Literal(pixels: seq<Bgr>)

  function Repeat(p: Bgr, n: nat): (ps: seq<Bgr>)
    ensures |ps| == n && forall i | 0 <= i < n :: ps[i] == p
  {
    seq(n, _ => p)
  }

  function Expand(p: Packet): seq<Bgr> {
    match p
    case Run(n, c) => Repeat(c, n)
    case Literal(ps) => ps
  }

  /** 1 to 128 pixels; a run repeats its pixel; no literal holds two equal neighbours a run would carry. */
  ghost predicate WellFormed(p: Packet) {
    && 1 <= |Expand(p)| <= MAX_PACKET
    && (p.Run? ==> p.count >= 2)
    && (p.Literal? ==> forall i | 0 <= i < |p.pixels| - 1 :: p.pixels[i] != p.pixels[i + 1])
  }

  predicate InRange(p: Packet) {
    1 <= |Expand(p)| <= MAX_PACKET
  }

  function Written(p: Packet): seq<byte>
    requires InRange(p)
  {
    match p
    case Run(n, c) => [0x80 + (n - 1)] + Raw([c])
    case Literal(ps) => [|ps| - 1] + Raw(ps)
  }

  predicate AllInRange(ps: seq<Packet>) {
    forall i | 0 <= i < |ps| :: InRange(ps[i])
  }

  function WrittenAll(ps: seq<Packet>): seq<byte>
    requires AllInRange(ps)
  {
    if ps == [] then [] else Written(ps[0]) + WrittenAll(ps[1..])
  }

  function ExpandAll(ps: seq<Packet>): seq<Bgr> {
    if ps == [] then [] else Expand(ps[0]) + ExpandAll(ps[1..])
  }

  /** How far the pixel at `x` repeats, looking on from `run`, to at most 128. */
  function RunFrom(row: seq<Bgr>, x: nat, run: nat): (n: nat)
    requires 1 <= run <= MAX_PACKET && x + run <= |row|
    requires forall i | x <= i < x + run :: row[i] == row[x]
    ensures run <= n <= MAX_PACKET && x + n <= |row|
    ensures forall i | x <= i < x + n :: row[i] == row[x]
    ensures n < MAX_PACKET && x + n < |row| ==> row[x + n] != row[x]
    decreases |row| - run
  {
    if x + run < |row| && run < MAX_PACKET && row[x + run] == row[x] then RunFrom(row, x, run + 1) else run
  }

  /** Where a literal begun at `x` stops: at 128 pixels, at the end, or where a run begins. */
  function LiteralTo(row: seq<Bgr>, x: nat, y: nat): (end: nat)
    requires x <= y <= |row| && y - x <= MAX_PACKET
    requires forall i | x <= i < y && i + 1 < |row| :: row[i] != row[i + 1]
    ensures y <= end <= |row| && end - x <= MAX_PACKET
    ensures forall i | x <= i < end && i + 1 < |row| :: row[i] != row[i + 1]
    ensures end - x < MAX_PACKET && end < |row| ==> end + 1 < |row| && row[end] == row[end + 1]
    decreases |row| - y
  {
    if y < |row| && y - x < MAX_PACKET && (y + 1 >= |row| || row[y + 1] != row[y]) then LiteralTo(row, x, y + 1) else y
  }

  /** The packet the encoder emits at `x`. */
  function PacketAt(row: seq<Bgr>, x: nat): (p: Packet)
    requires x < |row|
    ensures InRange(p) && x + |Expand(p)| <= |row|
  {
    var run := RunFrom(row, x, 1);
    if run > 1 then Run(run, row[x]) else Literal(row[x..LiteralTo(row, x, x)])
  }

  function Next(row: seq<Bgr>, x: nat): (y: nat)
    requires x < |row|
    ensures x < y <= |row|
  {
    x + |Expand(PacketAt(row, x))|
  }

  /** The packets the encoder emits from `x` to the end of the row, taken greedily. */
  function Greedy(row: seq<Bgr>, x: nat): (ps: seq<Packet>)
    requires x <= |row|
    ensures AllInRange(ps)
    decreases |row| - x
  {
    if x == |row| then [] else [PacketAt(row, x)] + Greedy(row, Next(row, x))
  }

  /** The row from `x` on as it is written. */
  function RowCode(row: seq<Bgr>, x: nat): seq<byte>
    requires x <= |row|
    decreases |row| - x
  {
    if x == |row| then [] else Written(PacketAt(row, x)) + RowCode(row, Next(row, x))
  }

  lemma {:induction false} RowCodeIsPackets(row: seq<Bgr>, x: nat)
    requires x <= |row|
    ensures RowCode(row, x) == WrittenAll(Greedy(row, x))
    decreases |row| - x
  {
    if x < |row| {
      RowCodeIsPackets(row, Next(row, x));
      assert Greedy(row, x)[1..] == Greedy(row, Next(row, x));
    }
  }

  lemma PacketHolds(row: seq<Bgr>, x: nat)
    requires x < |row|
    ensures Expand(PacketAt(row, x)) == row[x..Next(row, x)]
  {
  }

  lemma Split(row: seq<Bgr>, x: nat, y: nat)
    requires x <= y <= |row|
    ensures row[x..y] + row[y..] == row[x..]
  {
  }

  lemma ExpandCons(p: Packet, ps: seq<Packet>)
    ensures ExpandAll([p] + ps) == Expand(p) + ExpandAll(ps)
  {
    assert ([p] + ps)[1..] == ps;
  }

  /** A row's packets hold exactly that row, so none can cross into the next one. */
  lemma {:induction false} GreedyHoldsRow(row: seq<Bgr>, x: nat)
    requires x <= |row|
    ensures ExpandAll(Greedy(row, x)) == row[x..]
    decreases |row| - x
  {
    if x < |row| {
      var y := Next(row, x);
      GreedyHoldsRow(row, y);
      ExpandCons(PacketAt(row, x), Greedy(row, y));
      PacketHolds(row, x);
      Split(row, x, y);
    }
  }

  /** Every packet carries 1 to 128 pixels, runs really repeat, and literals hold no run. */
  lemma {:induction false} GreedyIsWellFormed(row: seq<Bgr>, x: nat)
    requires x <= |row|
    ensures forall p | p in Greedy(row, x) :: WellFormed(p)
    decreases |row| - x
  {
    hide Greedy, PacketAt, Next;
    GreedyFirst(row, x);
    if x < |row| {
      GreedyIsWellFormed(row, Next(row, x));
      PacketIsWellFormed(row, x);
      var rest := Greedy(row, Next(row, x));
      assert forall p | p in [PacketAt(row, x)] + rest :: p == PacketAt(row, x) || p in rest;
    }
  }

  lemma PacketIsWellFormed(row: seq<Bgr>, x: nat)
    requires x < |row|
    ensures WellFormed(PacketAt(row, x))
  {
  }

  lemma GreedyFirst(row: seq<Bgr>, x: nat)
    requires x <= |row|
    ensures Greedy(row, x) == if x == |row| then [] else [PacketAt(row, x)] + Greedy(row, Next(row, x))
  {
  }

  function Ceil128(n: nat): nat {
    (n + 127) / 128
  }

  /** A literal that stops short of 128 and of the row's end stops because a run begins. */
  lemma RunFollows(row: seq<Bgr>, x: nat)
    requires x < |row| && PacketAt(row, x).Literal? && Next(row, x) < |row|
    ensures |PacketAt(row, x).pixels| == MAX_PACKET || PacketAt(row, Next(row, x)).Run?
  {
    var y := LiteralTo(row, x, x);
    if y - x < MAX_PACKET {
      assert row[y + 1] == row[y];
      assert RunFrom(row, y, 1) >= 2;
    }
  }

  /** A row never takes more than its pixels and one byte for every 128 of them. */
  lemma {:induction false} GreedyIsCompact(row: seq<Bgr>, x: nat)
    requires x <= |row|
    ensures |RowCode(row, x)| <= 3 * (|row| - x) + Ceil128(|row| - x)
    decreases |row| - x
  {
    if x < |row| {
      var y := Next(row, x);
      GreedyIsCompact(row, y);
      if PacketAt(row, x).Literal? && y < |row| {
        RunFollows(row, x);
        if PacketAt(row, y).Run? {
          GreedyIsCompact(row, Next(row, y));
        }
      }
    }
  }
}
