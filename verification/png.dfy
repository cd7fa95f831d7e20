/**
 The small PNG writer (`png.rs`): a deflate stream of stored blocks inside three chunks.

 CRC-32 is a parameter: any function from bytes to thirty-two bits.
 */
module Png {
  import opened Bytes

  const MAX_BLOCK := 0xFFFF
  const ADLER_MOD := 65521

  // ---- Adler-32 (section 9 of RFC 1950) ----

  /** One more than the sum of the bytes. */
  function SumA(bytes: seq<byte>): nat {
    if bytes == [] then 1 else SumA(bytes[..|bytes| - 1]) + bytes[|bytes| - 1]
  }

  /** The sum of `SumA` over every non-empty prefix. */
  function SumB(bytes: seq<byte>): nat {
    if bytes == [] then 0 else SumB(bytes[..|bytes| - 1]) + SumA(bytes)
  }

  function Adler(bytes: seq<byte>): u32 {
    SumB(bytes) % ADLER_MOD * 0x1_0000 + SumA(bytes) % ADLER_MOD
  }

  lemma SumStep(bytes: seq<byte>, b: byte)
    ensures SumA([]) == 1 && SumB([]) == 0
    ensures SumA(bytes + [b]) == SumA(bytes) + b
    ensures SumB(bytes + [b]) == SumB(bytes) + SumA(bytes + [b])
  {
    assert (bytes + [b])[..|bytes|] == bytes;
  }

  lemma ReduceEarly(s: nat, x: nat)
    ensures (s % ADLER_MOD + x) % ADLER_MOD == (s + x) % ADLER_MOD
  {
  }

  lemma ReduceLate(s: nat, x: nat)
    ensures (s + x % ADLER_MOD) % ADLER_MOD == (s + x) % ADLER_MOD
  {
  }

  /** Reducing at every step gives the reduced sums, and no step leaves thirty-two bits. */
  method Adler32(bytes: seq<byte>) returns (sum: u32)
    ensures sum == Adler(bytes)
  {
    var a: u32, b: u32 := 1, 0;
    hide SumA, SumB;
    SumStep([], 0);
    for i := 0 to |bytes|
      invariant a == SumA(bytes[..i]) % ADLER_MOD && b == SumB(bytes[..i]) % ADLER_MOD
    {
      assert bytes[..i + 1] == bytes[..i] + [bytes[i]];
      SumStep(bytes[..i], bytes[i]);
      ReduceEarly(SumA(bytes[..i]), bytes[i]);
      ReduceEarly(SumB(bytes[..i]), (a + bytes[i]) % ADLER_MOD);
      ReduceLate(SumB(bytes[..i]), SumA(bytes[..i + 1]));
      a := (a + bytes[i]) % ADLER_MOD;
      b := (b + a) % ADLER_MOD;
    }
    assert bytes[..|bytes|] == bytes;
    sum := b * 0x1_0000 + a;
  }

  // ---- Stored blocks (section 3.2.4 of RFC 1951) ----

  function Block(data: seq<byte>, last: bool): seq<byte>
    requires |data| <= MAX_BLOCK
  {
    [if last then 1 else 0] + Le16(|data|) + Le16(0xFFFF - |data|) + data
  }

  /** `rest` in blocks of 65535 bytes, the last of them final; nothing at all is one empty block. */
  function Blocks(rest: seq<byte>): seq<byte>
    decreases |rest|
  {
    if |rest| <= MAX_BLOCK then Block(rest, true)
    else Block(rest[..MAX_BLOCK], false) + Blocks(rest[MAX_BLOCK..])
  }

  function StoredZlib(raw: seq<byte>): seq<byte> {
    [0x78, 0x01] + (Blocks(raw) + Be32(Adler(raw)))
  }

  method WriteBlocks(raw: seq<byte>) returns (blocks: seq<byte>)
    ensures blocks == Blocks(raw)
  {
    hide Block;
    blocks := [];
    var rest := raw;
    Concat(Blocks(raw), [], []);
    while true
      invariant blocks + Blocks(rest) == Blocks(raw)
      decreases |rest|
    {
      var take := Min(|rest|, MAX_BLOCK);
      var block, remainder := rest[..take], rest[take..];
      var written := WriteBlock(block, remainder == []);
      if remainder == [] {
        assert block == rest;
        blocks := blocks + written;
        return;
      }
      Concat(blocks, written, Blocks(remainder));
      blocks := blocks + written;
      rest := remainder;
    }
  }

  method WriteBlock(data: seq<byte>, last: bool) returns (out: seq<byte>)
    requires |data| <= MAX_BLOCK
    ensures out == Block(data, last)
  {
    out := [if last then 1 else 0];
    out := out + Le16(|data|);
    out := out + Le16(0xFFFF - |data|);
    out := out + data;
  }

  method WriteStoredZlib(raw: seq<byte>) returns (out: seq<byte>)
    ensures out == StoredZlib(raw)
  {
    var blocks := WriteBlocks(raw);
    var sum := Adler32(raw);
    out := [0x78, 0x01] + (blocks + Be32(sum));
  }

  /** A reader of stored blocks: the data up to and including the final block, and what is behind it. */
  function ReadBlocks(bytes: seq<byte>): (r: Option<(seq<byte>, seq<byte>)>)
    decreases |bytes|
  {
    if |bytes| < 5 then None else
    var final, kind := bytes[0] % 2 == 1, bytes[0] / 2 % 4;
    var len, nlen := ReadLe16(bytes[1..3]), ReadLe16(bytes[3..5]);
    if kind != 0 || nlen != 0xFFFF - len || |bytes| < 5 + len then None
    else
      var data, rest := bytes[5..5 + len], bytes[5 + len..];
      if final then Some((data, rest))
      else
        match ReadBlocks(rest)
        case None => None
        case Some((more, behind)) => Some((data + more, behind))
  }

  /** A reader of zlib streams that checks the header, the blocks and the checksum. */
  function ReadZlib(bytes: seq<byte>): Option<seq<byte>> {
    if |bytes| < 2 then None else
    var cmf, flg: nat := bytes[0], bytes[1];
    if cmf % 16 != 8 || (cmf * 256 + flg) % 31 != 0 || flg / 0x20 % 2 == 1 then None
    else
      match ReadBlocks(bytes[2..])
      case None => None
      case Some((data, behind)) =>
        if |behind| != 4 || ReadBe32(behind) != Adler(data) then None else Some(data)
  }

  lemma ReadOne(data: seq<byte>, last: bool, more: seq<byte>)
    requires |data| <= MAX_BLOCK
    ensures ReadBlocks(Block(data, last) + more)
         == if last then Some((data, more)) else
            match ReadBlocks(more)
            case None => None
            case Some((d, behind)) => Some((data + d, behind))
  {
    var bytes := Block(data, last) + more;
    assert bytes[1..3] == Le16(|data|) && bytes[3..5] == Le16(0xFFFF - |data|);
    assert bytes[5..5 + |data|] == data && bytes[5 + |data|..] == more;
  }

  lemma {:induction false} ReadAll(raw: seq<byte>, more: seq<byte>)
    ensures ReadBlocks(Blocks(raw) + more) == Some((raw, more))
    decreases |raw|
  {
    hide Block, ReadBlocks;
    if |raw| <= MAX_BLOCK {
      ReadOne(raw, true, more);
    } else {
      var head, tail := raw[..MAX_BLOCK], raw[MAX_BLOCK..];
      Concat(Block(head, false), Blocks(tail), more);
      ReadOne(head, false, Blocks(tail) + more);
      ReadAll(tail, more);
      assert raw == head + tail;
    }
  }

  /** Every byte sequence is read back from its stored stream, the empty one and multiples of 65535 too. */
  lemma StoredIsRead(raw: seq<byte>)
    ensures ReadZlib(StoredZlib(raw)) == Some(raw)
  {
    hide Blocks, ReadBlocks, Be32;
    var body := Blocks(raw) + Be32(Adler(raw));
    assert StoredZlib(raw)[2..] == body;
    ReadAll(raw, Be32(Adler(raw)));
    Read32(Adler(raw));
  }

  /** The stream costs five bytes a block. */
  lemma {:induction false} StoredSize(raw: seq<byte>)
    ensures |Blocks(raw)| == |raw| + 5 * BlocksFor(|raw|)
    decreases |raw|
  {
    if |raw| > MAX_BLOCK {
      StoredSize(raw[MAX_BLOCK..]);
    }
  }

  /** The fewest blocks that hold `n` bytes. */
  function BlocksFor(n: nat): nat {
    Max(1, (n + MAX_BLOCK - 1) / MAX_BLOCK)
  }

  lemma OneMoreBlock(len: nat, n: nat)
    requires len <= MAX_BLOCK
    ensures BlocksFor(len) == 1 && BlocksFor(len + n) <= 1 + BlocksFor(n)
  {
  }

  /** No stored stream of the same bytes is shorter. */
  lemma {:induction false} NoShorterBlocks(bytes: seq<byte>)
    requires ReadBlocks(bytes).Some?
    ensures var (data, behind) := ReadBlocks(bytes).value; |bytes| >= |data| + 5 * BlocksFor(|data|) + |behind|
    decreases |bytes|
  {
    hide BlocksFor;
    var len := ReadLe16(bytes[1..3]);
    OneMoreBlock(len, 0);
    if bytes[0] % 2 != 1 {
      var rest := bytes[5 + len..];
      NoShorterBlocks(rest);
      OneMoreBlock(len, |ReadBlocks(rest).value.0|);
    }
  }

  lemma NoShorterStream(bytes: seq<byte>)
    requires ReadZlib(bytes).Some?
    ensures |bytes| >= StreamSize(|ReadZlib(bytes).value|)
  {
    hide ReadBlocks, BlocksFor, Adler;
    NoShorterBlocks(bytes[2..]);
  }

  /** What a stored stream of `n` bytes takes: a header, five bytes a block and the checksum. */
  function StreamSize(n: nat): nat {
    n + 5 * BlocksFor(n) + 6
  }

  // ---- Chunks and the whole file ----

  const SIGNATURE: seq<byte> := [0x89, 0x50, 0x4E, 0x47, 0x0D, 0x0A, 0x1A, 0x0A]
  const IHDR: seq<byte> := [0x49, 0x48, 0x44, 0x52]
  const IDAT: seq<byte> := [0x49, 0x44, 0x41, 0x54]
  const IEND: seq<byte> := [0x49, 0x45, 0x4E, 0x44]

  type Crc = seq<byte> -> u32

  function ChunkBytes(crc: Crc, kind: seq<byte>, data: seq<byte>): seq<byte> {
    Be32(Min(|data|, 0xFFFF_FFFF)) + ((kind + data) + Be32(crc(kind + data)))
  }

  /** Each row behind a zero that says it is not filtered. */
  function Filtered(pixels: seq<byte>, rowLen: nat): seq<byte>
    requires rowLen > 0
    decreases |pixels|
  {
    if |pixels| < rowLen then [] else [0] + pixels[..rowLen] + Filtered(pixels[rowLen..], rowLen)
  }

  function HeaderData(width: u32, height: u32): seq<byte> {
    Be32(width) + Be32(height) + [8, 2, 0, 0, 0]
  }

  /** The signature and the three chunks of a file. */
  function PngOf(crc: Crc, width: u32, height: u32, pixels: seq<byte>): seq<byte>
    requires width > 0
  {
    SIGNATURE + (ChunkBytes(crc, IHDR, HeaderData(width, height))
               + (ChunkBytes(crc, IDAT, StoredZlib(Filtered(pixels, 3 * width)))
                + ChunkBytes(crc, IEND, [])))
  }

  method WritePng(crc: Crc, width: u32, height: u32, pixels: seq<byte>) returns (out: seq<byte>)
    requires width > 0 && |pixels| == 3 * width * height
    ensures out == PngOf(crc, width, height, pixels)
  {
    var raw: seq<byte> := [];
    var rest := pixels;
    Concat(Filtered(pixels, 3 * width), [], []);
    while |rest| >= 3 * width
      invariant raw + Filtered(rest, 3 * width) == Filtered(pixels, 3 * width)
      decreases |rest|
    {
      Concat(raw, [0] + rest[..3 * width], Filtered(rest[3 * width..], 3 * width));
      raw := raw + ([0] + rest[..3 * width]);
      rest := rest[3 * width..];
    }
    Concat(raw, [], []);
    var data := WriteStoredZlib(raw);
    out := SIGNATURE + (ChunkBytes(crc, IHDR, HeaderData(width, height)) + (ChunkBytes(crc, IDAT, data) + ChunkBytes(crc, IEND, [])));
  }

  /** A reader of one chunk of the expected kind: its data, and what is behind it. */
  function ReadChunk(crc: Crc, kind: seq<byte>, bytes: seq<byte>): Option<(seq<byte>, seq<byte>)>
    requires |kind| == 4
  {
    if |bytes| < 12 then None else
    var len := ReadBe32(bytes[..4]);
    if |bytes| < 12 + len then None else
    var typed := bytes[4..8 + len];
    if typed[..4] != kind || ReadBe32(bytes[8 + len..12 + len]) != crc(typed) then None
    else Some((typed[4..], bytes[12 + len..]))
  }

  function Unfiltered(raw: seq<byte>, rowLen: nat): Option<seq<byte>>
    requires rowLen > 0
    decreases |raw|
  {
    if raw == [] then Some([])
    else if |raw| < 1 + rowLen || raw[0] != 0 then None
    else
      match Unfiltered(raw[1 + rowLen..], rowLen)
      case None => None
      case Some(more) => Some(raw[1..1 + rowLen] + more)
  }

  /** A reader of the PNGs written here, checking every length, type, checksum and filter. */
  function ReadPng(crc: Crc, bytes: seq<byte>): Option<(u32, u32, seq<byte>)> {
    if |bytes| < 8 || bytes[..8] != SIGNATURE then None else
    match ReadChunk(crc, IHDR, bytes[8..])
    case None => None
    case Some((header, b1)) =>
      if |header| != 13 || header[8..] != [8, 2, 0, 0, 0] then None else
      var width, height := ReadBe32(header[..4]), ReadBe32(header[4..8]);
      if width == 0 then None else
      match ReadChunk(crc, IDAT, b1)
      case None => None
      case Some((data, b2)) =>
        if ReadChunk(crc, IEND, b2) != Some(([], [])) then None else
        match ReadZlib(data)
        case None => None
        case Some(raw) =>
          match Unfiltered(raw, 3 * width)
          case None => None
          case Some(pixels) => if |pixels| != 3 * width * height then None else Some((width, height, pixels))
  }

  lemma ChunkIsRead(crc: Crc, kind: seq<byte>, data: seq<byte>, more: seq<byte>)
    requires |kind| == 4 && |data| <= 0xFFFF_FFFF
    ensures ReadChunk(crc, kind, ChunkBytes(crc, kind, data) + more) == Some((data, more))
  {
    hide Be32, ReadBe32;
    var typed := kind + data;
    var bytes := ChunkBytes(crc, kind, data) + more;
    Read32(|data|);
    Read32(crc(typed));
    assert bytes[..4] == Be32(|data|);
    assert bytes[4..8 + |data|] == typed;
    assert bytes[8 + |data|..12 + |data|] == Be32(crc(typed));
    assert bytes[12 + |data|..] == more;
    assert typed[..4] == kind && typed[4..] == data;
  }

  lemma {:induction false} FilteredIsUnfiltered(pixels: seq<byte>, rowLen: nat, rows: nat)
    requires rowLen > 0 && |pixels| == rows * rowLen
    ensures Unfiltered(Filtered(pixels, rowLen), rowLen) == Some(pixels)
    decreases rows
  {
    if rows > 0 {
      assert rows * rowLen == rowLen + (rows - 1) * rowLen;
      var tail := Filtered(pixels[rowLen..], rowLen);
      FilteredIsUnfiltered(pixels[rowLen..], rowLen, rows - 1);
      var raw := [0] + pixels[..rowLen] + tail;
      assert raw[1..1 + rowLen] == pixels[..rowLen] && raw[1 + rowLen..] == tail;
      assert pixels == pixels[..rowLen] + pixels[rowLen..];
    } else {
      assert pixels == [];
    }
  }

  /** The rows of a picture, each behind its filter byte. */
  function RawSize(width: nat, height: nat): nat {
    height * (1 + 3 * width)
  }

  lemma ZlibSize(raw: seq<byte>)
    ensures |StoredZlib(raw)| == StreamSize(|raw|)
  {
    hide Blocks;
    StoredSize(raw);
  }

  lemma {:induction false} FilteredSize(pixels: seq<byte>, rowLen: nat, rows: nat)
    requires rowLen > 0 && |pixels| == rows * rowLen
    ensures |Filtered(pixels, rowLen)| == rows * (1 + rowLen)
    decreases rows
  {
    if rows > 0 {
      assert rows * rowLen == rowLen + (rows - 1) * rowLen;
      FilteredSize(pixels[rowLen..], rowLen, rows - 1);
      assert rows * (1 + rowLen) == 1 + rowLen + (rows - 1) * (1 + rowLen);
    }
  }

  lemma {:induction false} UnfilteredLength(raw: seq<byte>, rowLen: nat) returns (rows: nat)
    requires rowLen > 0 && Unfiltered(raw, rowLen).Some?
    ensures |raw| == rows * (1 + rowLen) && |Unfiltered(raw, rowLen).value| == rows * rowLen
    decreases |raw|
  {
    rows := 0;
    if raw != [] {
      var k := UnfilteredLength(raw[1 + rowLen..], rowLen);
      rows := k + 1;
      assert rows * (1 + rowLen) == 1 + rowLen + k * (1 + rowLen) && rows * rowLen == rowLen + k * rowLen;
    }
  }

  lemma SameRows(a: nat, b: nat, rowLen: nat)
    requires rowLen > 0 && a * rowLen == b * rowLen
    ensures a == b
  {
    if a < b { Longer(a, b, rowLen); }
    if b < a { Longer(b, a, rowLen); }
  }

  lemma Longer(a: nat, b: nat, rowLen: nat)
    requires a < b && rowLen > 0
    ensures a * rowLen < b * rowLen
  {
    assert b * rowLen == a * rowLen + (b - a) * rowLen;
    assert (b - a) * rowLen >= rowLen by { assert (b - a) * rowLen == rowLen + (b - a - 1) * rowLen; }
  }

  /** Whatever the bytes, a picture read out of them has a stream that a chunk can hold. */
  lemma ReadPicturesFit(crc: Crc, bytes: seq<byte>)
    requires ReadPng(crc, bytes).Some?
    ensures var (width, height, pixels) := ReadPng(crc, bytes).value; StreamSize(RawSize(width, height)) <= 0xFFFF_FFFF
  {
    hide ReadChunk, ReadZlib, Unfiltered, StreamSize, ReadBe32;
    var (width, height, pixels) := ReadPng(crc, bytes).value;
    var (header, b1) := ReadChunk(crc, IHDR, bytes[8..]).value;
    var (data, b2) := ReadChunk(crc, IDAT, b1).value;
    ChunksFit(crc, IDAT, b1);
    NoShorterStream(data);
    var raw := ReadZlib(data).value;
    var rows := UnfilteredLength(raw, 3 * width);
    Rows(width, height, |pixels|);
    SameRows(rows, height, 3 * width);
  }

  lemma ChunksFit(crc: Crc, kind: seq<byte>, bytes: seq<byte>)
    requires |kind| == 4 && ReadChunk(crc, kind, bytes).Some?
    ensures |ReadChunk(crc, kind, bytes).value.0| <= 0xFFFF_FFFF
  {
  }

  /**
   Main result: a PNG as written reads back as the same sizes and pixels, whatever the CRC, exactly when
   its stream fits the 32-bit length of a chunk.
   */
  lemma PngIsReadIff(crc: Crc, width: u32, height: u32, pixels: seq<byte>)
    requires width > 0 && |pixels| == 3 * width * height
    ensures ReadPng(crc, PngOf(crc, width, height, pixels)) == Some((width, height, pixels))
      <==> StreamSize(RawSize(width, height)) <= 0xFFFF_FFFF
  {
    hide ReadPng, PngOf, StreamSize;
    if StreamSize(RawSize(width, height)) <= 0xFFFF_FFFF { FittingPngIsRead(crc, width, height, pixels); }
    if ReadPng(crc, PngOf(crc, width, height, pixels)) == Some((width, height, pixels)) {
      ReadPicturesFit(crc, PngOf(crc, width, height, pixels));
    }
  }

  lemma FittingPngIsRead(crc: Crc, width: u32, height: u32, pixels: seq<byte>)
    requires width > 0 && |pixels| == 3 * width * height
    requires StreamSize(RawSize(width, height)) <= 0xFFFF_FFFF
    ensures ReadPng(crc, PngOf(crc, width, height, pixels)) == Some((width, height, pixels))
  {
    hide ChunkBytes, ReadChunk, StoredZlib, ReadZlib, Filtered, Unfiltered, Be32, ReadBe32;
    var raw := Filtered(pixels, 3 * width);
    Rows(width, height, |pixels|);
    FilteredSize(pixels, 3 * width, height);
    assert |StoredZlib(raw)| == StreamSize(|raw|) by { ZlibSize(raw); }
    var header, data := HeaderData(width, height), StoredZlib(raw);
    var c3 := ChunkBytes(crc, IEND, []);
    var c2 := ChunkBytes(crc, IDAT, data) + c3;
    var c1 := ChunkBytes(crc, IHDR, header) + c2;
    var bytes := PngOf(crc, width, height, pixels);
    assert bytes[..8] == SIGNATURE && bytes[8..] == c1;
    ChunkIsRead(crc, IHDR, header, c2);
    ChunkIsRead(crc, IDAT, data, c3);
    ChunkIsRead(crc, IEND, [], []);
    assert c3 + [] == c3;
    assert header[..4] == Be32(width) && header[4..8] == Be32(height) && header[8..] == [8, 2, 0, 0, 0];
    Read32(width);
    Read32(height);
    StoredIsRead(raw);
    FilteredIsUnfiltered(pixels, 3 * width, height);
  }

  lemma Rows(width: nat, height: nat, n: nat)
    requires n == 3 * width * height
    ensures n == height * (3 * width)
  {
  }
}
