/** The icon file container (`bni.rs`): a header, a table of icon entries, and one embedded picture. */
module Bni {
  import opened Bytes

  const HEADER_LEN := 16
  const VERSION := 1
  const MAX_CODES := 31

  datatype Icon = Icon(flags: u32, width: u32, height: u32, codes: seq<u32>)

  datatype BniFile = BniFile(version: u16, icons: seq<Icon>, image: seq<byte>)

  datatype BniError =
    | IsMpqArchive
    | TooShort
    | BadHeaderSize(size: u32)
    | UnsupportedVersion(version: u16)
    | BadDataOffset(offset: u32, len: nat)
    | ImplausibleIconCount(count: u32)
    | TableOverrun(tableEnd: nat, dataOffset: nat)
    | TruncatedEntry(index: nat)
    | TooManyCodes(index: nat)

  predicate IsMpq(bytes: seq<byte>) {
    |bytes| >= 4 && bytes[..3] == [0x4D, 0x50, 0x51] && (bytes[3] == 0x1A || bytes[3] == 0x1B)
  }

  function Word(bytes: seq<byte>, pos: nat): u32
    requires pos + 4 <= |bytes|
  {
    ReadLe32(bytes[pos..pos + 4])
  }

  /** A code as read: the four stored bytes, turned round, as a big-endian number. */
  function CodeFromWire(raw: u32): u32 {
    var b := Le32(raw);
    ReadBe32([b[3], b[2], b[1], b[0]])
  }

  /** A code as written: its four characters in reverse. */
  function CodeToWire(code: u32): seq<byte> {
    var b := Be32(code);
    [b[3], b[2], b[1], b[0]]
  }

  lemma CodeIsItsWord(code: u32)
    ensures CodeFromWire(code) == code
    ensures CodeToWire(code) == Le32(code)
  {
    Read32(code);
  }

  // ---- Parsing ----

  datatype Fault = Truncated | TooMany

  /** Codes up to the zero that ends them, and where that leaves off; `have` of them are read already. */
  function ParseCodes(bytes: seq<byte>, pos: nat, end: nat, have: nat): (r: Result<(seq<u32>, nat), Fault>)
    requires end <= |bytes|
    ensures r.Ok? ==> pos < r.value.1 <= end
    decreases end - pos
  {
    if pos + 4 > end then Err(Truncated) else
    var raw := Word(bytes, pos);
    if raw == 0 then Ok(([], pos + 4))
    else if have >= MAX_CODES then Err(TooMany)
    else
      match ParseCodes(bytes, pos + 4, end, have + 1)
      case Err(e) => Err(e)
      case Ok((codes, p)) => Ok(([CodeFromWire(raw)] + codes, p))
  }

  function ParseIcon(bytes: seq<byte>, pos: nat, end: nat): (r: Result<(Icon, nat), Fault>)
    requires end <= |bytes|
    ensures r.Ok? ==> pos < r.value.1 <= end
  {
    if pos + 12 > end then Err(Truncated) else
    match ParseCodes(bytes, pos + 12, end, 0)
    case Err(e) => Err(e)
    case Ok((codes, p)) => Ok((Icon(Word(bytes, pos), Word(bytes, pos + 4), Word(bytes, pos + 8), codes), p))
  }

  function Blame(e: Fault, index: nat): BniError {
    match e
    case Truncated => TruncatedEntry(index)
    case TooMany => TooManyCodes(index)
  }

  /** Entries `index` to `count`, and where the table ends. */
  function ParseIcons(bytes: seq<byte>, pos: nat, end: nat, index: nat, count: nat): (r: Result<(seq<Icon>, nat), BniError>)
    requires pos <= end <= |bytes| && index <= count
    ensures r.Ok? ==> pos <= r.value.1 <= end && |r.value.0| == count - index
    decreases count - index
  {
    if index == count then Ok(([], pos)) else
    match ParseIcon(bytes, pos, end)
    case Err(e) => Err(Blame(e, index))
    case Ok((icon, p)) =>
      match ParseIcons(bytes, p, end, index + 1, count)
      case Err(e) => Err(e)
      case Ok((icons, q)) => Ok(([icon] + icons, q))
  }

  /** The icon count and the image's offset, when the header can be believed. */
  function ParseHeader(bytes: seq<byte>): (r: Result<(u32, u32), BniError>)
    ensures r.Ok? ==> |bytes| >= HEADER_LEN && HEADER_LEN <= r.value.1 <= |bytes|
  {
    if IsMpq(bytes) then Err(IsMpqArchive)
    else if |bytes| < HEADER_LEN then Err(TooShort)
    else if Word(bytes, 0) != HEADER_LEN then Err(BadHeaderSize(Word(bytes, 0)))
    else if ReadLe16(bytes[4..6]) != VERSION then Err(UnsupportedVersion(ReadLe16(bytes[4..6])))
    else
      var count, offset := Word(bytes, 8), Word(bytes, 12);
      if count * 16 > |bytes| then Err(ImplausibleIconCount(count))
      else if offset > |bytes| || offset < HEADER_LEN then Err(BadDataOffset(offset, |bytes|))
      else Ok((count, offset))
  }

  function Parse(bytes: seq<byte>): Result<BniFile, BniError> {
    match ParseHeader(bytes)
    case Err(e) => Err(e)
    case Ok((count, offset)) =>
      match ParseIcons(bytes, HEADER_LEN, offset, 0, count)
      case Err(e) => Err(e)
      case Ok((icons, pos)) =>
        if pos != offset then Err(TableOverrun(pos, offset))
        else Ok(BniFile(VERSION, icons, bytes[offset..]))
  }

  /** One entry, by the loop over its codes. */
  method ParseEntry(bytes: seq<byte>, pos: nat, end: nat) returns (r: Result<(Icon, nat), Fault>)
    requires end <= |bytes|
    ensures r == ParseIcon(bytes, pos, end)
  {
    if pos + 12 > end {
      return Err(Truncated);
    }
    var codes: seq<u32> := [];
    var at := pos + 12;
    ghost var whole := ParseCodes(bytes, pos + 12, end, 0);
    WithCodesTwice([], 0, whole);
    while true
      invariant pos + 12 <= at && |codes| <= MAX_CODES && at == pos + 12 + 4 * |codes|
      invariant whole == WithCodes(codes, ParseCodes(bytes, at, end, |codes|))
      decreases end - at
    {
      if at + 4 > end {
        return Err(Truncated);
      }
      var raw := Word(bytes, at);
      if raw == 0 {
        break;
      }
      if |codes| >= MAX_CODES {
        return Err(TooMany);
      }
      WithCodesTwice(codes, CodeFromWire(raw), ParseCodes(bytes, at + 4, end, |codes| + 1));
      codes := codes + [CodeFromWire(raw)];
      at := at + 4;
    }
    assert codes + [] == codes;
    return Ok((Icon(Word(bytes, pos), Word(bytes, pos + 4), Word(bytes, pos + 8), codes), pos + 12 + (|codes| + 1) * 4));
  }

  function WithCodes(codes: seq<u32>, r: Result<(seq<u32>, nat), Fault>): Result<(seq<u32>, nat), Fault> {
    match r
    case Err(e) => Err(e)
    case Ok((more, p)) => Ok((codes + more, p))
  }

  lemma WithCodesTwice(codes: seq<u32>, code: u32, r: Result<(seq<u32>, nat), Fault>)
    ensures WithCodes(codes, WithCodes([code], r)) == WithCodes(codes + [code], r)
    ensures WithCodes([], r) == r
  {
    if r.Ok? {
      assert [] + r.value.0 == r.value.0;
      assert codes + ([code] + r.value.0) == codes + [code] + r.value.0;
    }
  }

  function WithIcons(icons: seq<Icon>, r: Result<(seq<Icon>, nat), BniError>): Result<(seq<Icon>, nat), BniError> {
    match r
    case Err(e) => Err(e)
    case Ok((more, p)) => Ok((icons + more, p))
  }

  lemma WithIconsTwice(icons: seq<Icon>, icon: Icon, r: Result<(seq<Icon>, nat), BniError>)
    ensures WithIcons(icons, WithIcons([icon], r)) == WithIcons(icons + [icon], r)
    ensures WithIcons([], r) == r
  {
    if r.Ok? {
      assert icons + ([icon] + r.value.0) == icons + [icon] + r.value.0;
      assert [] + r.value.0 == r.value.0;
    }
  }

  method ParseFile(bytes: seq<byte>) returns (r: Result<BniFile, BniError>)
    ensures r == Parse(bytes)
  {
    hide ParseIcon;
    var header := ParseHeader(bytes);
    if header.Err? {
      return Err(header.error);
    }
    var (count, offset) := header.value;
    var icons: seq<Icon> := [];
    var pos := HEADER_LEN;
    ghost var whole := ParseIcons(bytes, HEADER_LEN, offset, 0, count);
    WithIconsTwice([], Icon(0, 0, 0, []), whole);
    for index := 0 to count
      invariant HEADER_LEN <= pos <= offset
      invariant whole == WithIcons(icons, ParseIcons(bytes, pos, offset, index, count))
    {
      var entry := ParseEntry(bytes, pos, offset);
      if entry.Err? {
        return Err(Blame(entry.error, index));
      }
      WithIconsTwice(icons, entry.value.0, ParseIcons(bytes, entry.value.1, offset, index + 1, count));
      icons := icons + [entry.value.0];
      pos := entry.value.1;
    }
    assert icons + [] == icons;
    if pos != offset {
      return Err(TableOverrun(pos, offset));
    }
    return Ok(BniFile(VERSION, icons, bytes[offset..]));
  }

  // ---- Building ----

  function CodeBytes(codes: seq<u32>): (bs: seq<byte>)
    ensures |bs| == 4 * |codes|
  {
    if codes == [] then [] else CodeToWire(codes[0]) + CodeBytes(codes[1..])
  }

  function IconBytes(icon: Icon): (bs: seq<byte>)
    ensures |bs| == 12 + (|icon.codes| + 1) * 4
  {
    Le32(icon.flags) + Le32(icon.width) + Le32(icon.height) + (CodeBytes(icon.codes) + Le32(0))
  }

  function TableLen(icons: seq<Icon>): nat {
    if icons == [] then 0 else 12 + (|icons[0].codes| + 1) * 4 + TableLen(icons[1..])
  }

  function Table(icons: seq<Icon>): (bs: seq<byte>)
    ensures |bs| == TableLen(icons)
  {
    if icons == [] then [] else IconBytes(icons[0]) + Table(icons[1..])
  }

  /** The counts are cut to thirty-two bits. */
  function HeaderBytes(version: u16, count: nat, offset: nat): (bs: seq<byte>)
    ensures |bs| == HEADER_LEN
  {
    Le32(HEADER_LEN) + Le16(version) + [0, 0] + Le32(count % 0x1_0000_0000) + Le32(offset % 0x1_0000_0000)
  }

  function Build(f: BniFile): seq<byte> {
    HeaderBytes(f.version, |f.icons|, HEADER_LEN + TableLen(f.icons)) + (Table(f.icons) + f.image)
  }

  method BuildFile(f: BniFile) returns (out: seq<byte>)
    ensures out == Build(f)
  {
    hide IconBytes, HeaderBytes;
    var tableLen := 0;
    for i := 0 to |f.icons|
      invariant tableLen + TableLen(f.icons[i..]) == TableLen(f.icons)
    {
      assert f.icons[i..][1..] == f.icons[i + 1..];
      tableLen := tableLen + 12 + (|f.icons[i].codes| + 1) * 4;
    }
    var header := HeaderBytes(f.version, |f.icons|, HEADER_LEN + tableLen);
    var table: seq<byte> := [];
    assert f.icons[0..] == f.icons;
    for i := 0 to |f.icons|
      invariant table + Table(f.icons[i..]) == Table(f.icons)
    {
      assert f.icons[i..][1..] == f.icons[i + 1..];
      var entry := BuildIcon(f.icons[i]);
      Concat(table, entry, Table(f.icons[i + 1..]));
      table := table + entry;
    }
    Concat(table, [], []);
    out := header + (table + f.image);
  }

  method BuildIcon(icon: Icon) returns (out: seq<byte>)
    ensures out == IconBytes(icon)
  {
    var codes: seq<byte> := [];
    for i := 0 to |icon.codes|
      invariant codes + CodeBytes(icon.codes[i..]) == CodeBytes(icon.codes)
    {
      assert icon.codes[i..][1..] == icon.codes[i + 1..];
      Concat(codes, CodeToWire(icon.codes[i]), CodeBytes(icon.codes[i + 1..]));
      codes := codes + CodeToWire(icon.codes[i]);
    }
    Concat(codes, [], []);
    out := Le32(icon.flags) + Le32(icon.width) + Le32(icon.height) + (codes + Le32(0));
  }

  // ---- Parse and build undo each other ----

  ghost predicate ValidIcon(icon: Icon) {
    |icon.codes| <= MAX_CODES && 0 !in icon.codes
  }

  ghost predicate ValidFile(f: BniFile) {
    && f.version == VERSION
    && (forall i | 0 <= i < |f.icons| :: ValidIcon(f.icons[i]))
    && HEADER_LEN + TableLen(f.icons) < 0x1_0000_0000
  }

  lemma {:induction false} CodesRead(bytes: seq<byte>, pos: nat, end: nat, codes: seq<u32>, have: nat)
    requires pos + 4 * |codes| + 4 <= end <= |bytes|
    requires bytes[pos..pos + 4 * |codes| + 4] == CodeBytes(codes) + Le32(0)
    requires have + |codes| <= MAX_CODES && 0 !in codes
    ensures ParseCodes(bytes, pos, end, have) == Ok((codes, pos + 4 * |codes| + 4))
    decreases |codes|
  {
    hide CodeFromWire, CodeToWire, CodeBytes, Le32, ReadLe32;
    var part := bytes[pos..pos + 4 * |codes| + 4];
    assert bytes[pos..pos + 4] == part[..4];
    CodesFront(codes);
    if codes == [] {
      Read32(0);
    } else {
      CodeIsItsWord(codes[0]);
      Read32(codes[0]);
      assert bytes[pos + 4..pos + 4 + 4 * |codes[1..]| + 4] == part[4..];
      CodesRead(bytes, pos + 4, end, codes[1..], have + 1);
      assert codes[0] in codes && codes == [codes[0]] + codes[1..];
    }
  }

  lemma CodesFront(codes: seq<u32>)
    ensures
      var part := CodeBytes(codes) + Le32(0);
      if codes == [] then part[..4] == Le32(0)
      else part[..4] == Le32(codes[0]) && part[4..] == CodeBytes(codes[1..]) + Le32(0)
  {
    hide Le32, CodeBytes, CodeToWire;
    CodesStep(codes);
    if codes == [] {
      Front(Le32(0), []);
      Concat([], Le32(0), []);
    } else {
      CodeIsItsWord(codes[0]);
      Concat(Le32(codes[0]), CodeBytes(codes[1..]), Le32(0));
      Front(Le32(codes[0]), CodeBytes(codes[1..]) + Le32(0));
    }
  }

  lemma CodesStep(codes: seq<u32>)
    ensures CodeBytes(codes) == if codes == [] then [] else CodeToWire(codes[0]) + CodeBytes(codes[1..])
  {
  }

  lemma Slice(s: seq<byte>, i: nat, j: nat, a: nat, b: nat)
    requires i <= j <= |s| && a <= b <= j - i
    ensures s[i..j][a..b] == s[i + a..i + b]
  {
    var x, y := s[i..j][a..b], s[i + a..i + b];
    assert forall k | 0 <= k < b - a :: x[k] == s[i..j][a + k] == s[i + a + k] == y[k];
  }

  lemma IconRead(bytes: seq<byte>, pos: nat, end: nat, icon: Icon)
    requires ValidIcon(icon)
    requires pos + |IconBytes(icon)| <= end <= |bytes|
    requires bytes[pos..pos + |IconBytes(icon)|] == IconBytes(icon)
    ensures ParseIcon(bytes, pos, end) == Ok((icon, pos + |IconBytes(icon)|))
  {
    hide ParseCodes, CodeBytes;
    var part := bytes[pos..pos + |IconBytes(icon)|];
    var tail := CodeBytes(icon.codes) + Le32(0);
    assert part[..4] == Le32(icon.flags) && part[4..8] == Le32(icon.width) && part[8..12] == Le32(icon.height);
    assert part[12..] == tail;
    Slice(bytes, pos, pos + |part|, 0, 4);
    Slice(bytes, pos, pos + |part|, 4, 8);
    Slice(bytes, pos, pos + |part|, 8, 12);
    Slice(bytes, pos, pos + |part|, 12, |part|);
    Read32(icon.flags);
    Read32(icon.width);
    Read32(icon.height);
    CodesRead(bytes, pos + 12, end, icon.codes, 0);
  }

  lemma {:induction false} IconsRead(bytes: seq<byte>, pos: nat, end: nat, icons: seq<Icon>, index: nat, count: nat)
    requires forall i | 0 <= i < |icons| :: ValidIcon(icons[i])
    requires count == index + |icons| && pos + TableLen(icons) == end <= |bytes|
    requires bytes[pos..end] == Table(icons)
    ensures ParseIcons(bytes, pos, end, index, count) == Ok((icons, end))
    decreases |icons|
  {
    hide ParseIcon, IconBytes;
    if icons != [] {
      var first := IconBytes(icons[0]);
      var mid := pos + |first|;
      assert bytes[pos..mid] == bytes[pos..end][..|first|] == first;
      assert bytes[mid..end] == bytes[pos..end][|first|..] == Table(icons[1..]);
      IconRead(bytes, pos, end, icons[0]);
      IconsRead(bytes, mid, end, icons[1..], index + 1, count);
      assert icons == [icons[0]] + icons[1..];
    }
  }

  lemma {:induction false} TableIsLong(icons: seq<Icon>)
    ensures TableLen(icons) >= 16 * |icons|
  {
    if icons != [] {
      TableIsLong(icons[1..]);
    }
  }

  lemma HeaderRead(count: nat, offset: nat, rest: seq<byte>)
    requires count * 16 <= HEADER_LEN + |rest| && HEADER_LEN <= offset <= HEADER_LEN + |rest| && offset < 0x1_0000_0000
    requires count < 0x1_0000_0000
    ensures ParseHeader(HeaderBytes(VERSION, count, offset) + rest) == Ok((count, offset))
  {
    hide ReadLe32, Le32;
    var bytes := HeaderBytes(VERSION, count, offset) + rest;
    Read32(HEADER_LEN);
    Read32(count);
    Read32(offset);
    assert bytes[0..4] == Le32(HEADER_LEN);
    assert bytes[4..6] == Le16(VERSION);
    assert bytes[8..12] == Le32(count);
    assert bytes[12..16] == Le32(offset);
    NotMpq(bytes);
  }

  lemma NotMpq(bytes: seq<byte>)
    requires |bytes| >= 4 && bytes[0..4] == Le32(HEADER_LEN)
    ensures !IsMpq(bytes)
  {
    assert bytes[0] == bytes[0..4][0] == 16;
  }

  lemma ValidIsReadBack(f: BniFile)
    requires ValidFile(f)
    ensures Parse(Build(f)) == Ok(f)
  {
    hide ParseHeader, HeaderBytes, ParseIcons, Table;
    var offset := HEADER_LEN + TableLen(f.icons);
    var header, table := HeaderBytes(VERSION, |f.icons|, offset), Table(f.icons);
    var bytes := Build(f);
    TableIsLong(f.icons);
    HeaderRead(|f.icons|, offset, table + f.image);
    assert bytes[HEADER_LEN..offset] == table;
    assert bytes[offset..] == f.image;
    IconsRead(bytes, HEADER_LEN, offset, f.icons, 0, |f.icons|);
  }

  // The other way round: what parses was built.

  lemma {:induction false} CodesWritten(bytes: seq<byte>, pos: nat, end: nat, have: nat)
    requires end <= |bytes| && have <= MAX_CODES && ParseCodes(bytes, pos, end, have).Ok?
    ensures
      var (codes, p) := ParseCodes(bytes, pos, end, have).value;
      && p == pos + 4 * |codes| + 4
      && have + |codes| <= MAX_CODES && 0 !in codes
      && bytes[pos..p] == CodeBytes(codes) + Le32(0)
    decreases end - pos
  {
    hide CodeFromWire, CodeToWire;
    var raw := Word(bytes, pos);
    Write32(bytes[pos..pos + 4]);
    if raw != 0 {
      CodeIsItsWord(raw);
      CodesWritten(bytes, pos + 4, end, have + 1);
      var (codes, p) := ParseCodes(bytes, pos + 4, end, have + 1).value;
      assert bytes[pos..p] == bytes[pos..pos + 4] + bytes[pos + 4..p];
      Concat(Le32(raw), CodeBytes(codes), Le32(0));
      assert ([raw] + codes)[1..] == codes;
    } else {
      assert CodeBytes([]) + Le32(0) == Le32(0);
    }
  }

  lemma IconWritten(bytes: seq<byte>, pos: nat, end: nat)
    requires end <= |bytes| && ParseIcon(bytes, pos, end).Ok?
    ensures
      var (icon, p) := ParseIcon(bytes, pos, end).value;
      ValidIcon(icon) && bytes[pos..p] == IconBytes(icon)
  {
    hide ParseCodes, CodeBytes, Le32, ReadLe32;
    var (icon, p) := ParseIcon(bytes, pos, end).value;
    CodesWritten(bytes, pos + 12, end, 0);
    WordWritten(bytes, pos);
    WordWritten(bytes, pos + 4);
    WordWritten(bytes, pos + 8);
    Cut4(bytes, pos, p);
    assert IconBytes(icon) == bytes[pos..pos + 4] + bytes[pos + 4..pos + 8] + bytes[pos + 8..pos + 12] + bytes[pos + 12..p];
  }

  lemma WordWritten(bytes: seq<byte>, pos: nat)
    requires pos + 4 <= |bytes|
    ensures Le32(Word(bytes, pos)) == bytes[pos..pos + 4]
  {
    Write32(bytes[pos..pos + 4]);
  }

  lemma Cut4(bytes: seq<byte>, pos: nat, p: nat)
    requires pos + 12 <= p <= |bytes|
    ensures bytes[pos..p] == bytes[pos..pos + 4] + bytes[pos + 4..pos + 8] + bytes[pos + 8..pos + 12] + bytes[pos + 12..p]
  {
  }

  lemma {:induction false} IconsWritten(bytes: seq<byte>, pos: nat, end: nat, index: nat, count: nat)
    requires pos <= end <= |bytes| && index <= count && ParseIcons(bytes, pos, end, index, count).Ok?
    ensures
      var (icons, q) := ParseIcons(bytes, pos, end, index, count).value;
      (forall i | 0 <= i < |icons| :: ValidIcon(icons[i])) && bytes[pos..q] == Table(icons)
    decreases count - index
  {
    hide ParseIcon, IconBytes;
    if index < count {
      IconWritten(bytes, pos, end);
      var (icon, p) := ParseIcon(bytes, pos, end).value;
      IconsWritten(bytes, p, end, index + 1, count);
      var (icons, q) := ParseIcons(bytes, p, end, index + 1, count).value;
      assert bytes[pos..q] == bytes[pos..p] + bytes[p..q];
      assert ([icon] + icons)[1..] == icons;
    }
  }

  /** The file with the two bytes nobody reads set to zero. */
  function ZeroPadding(bytes: seq<byte>): seq<byte>
    requires |bytes| >= HEADER_LEN
  {
    bytes[6 := 0][7 := 0]
  }

  lemma HeaderWritten(bytes: seq<byte>)
    requires ParseHeader(bytes).Ok?
    ensures
      var (count, offset) := ParseHeader(bytes).value;
      ZeroPadding(bytes)[..HEADER_LEN] == HeaderBytes(VERSION, count, offset)
  {
    hide Le32, ReadLe32, IsMpq;
    var (count, offset) := ParseHeader(bytes).value;
    var z := ZeroPadding(bytes);
    Write32(bytes[0..4]);
    Write32(bytes[8..12]);
    Write32(bytes[12..16]);
    assert Le16(ReadLe16(bytes[4..6])) == bytes[4..6];
    assert z[..HEADER_LEN] == bytes[0..4] + bytes[4..6] + [0, 0] + bytes[8..12] + bytes[12..16];
  }

  /** Whatever parses is a valid file, and building it gives the same bytes but for the padding. */
  lemma ParsedIsBuilt(bytes: seq<byte>)
    requires Parse(bytes).Ok?
    ensures |bytes| >= HEADER_LEN && ValidFile(Parse(bytes).value)
    ensures Build(Parse(bytes).value) == ZeroPadding(bytes)
  {
    hide ParseHeader, HeaderBytes, ParseIcons, Table;
    var (count, offset) := ParseHeader(bytes).value;
    var f := Parse(bytes).value;
    IconsWritten(bytes, HEADER_LEN, offset, 0, count);
    HeaderWritten(bytes);
    var z := ZeroPadding(bytes);
    assert bytes[HEADER_LEN..offset] == Table(f.icons);
    assert offset == HEADER_LEN + TableLen(f.icons);
    assert z == z[..HEADER_LEN] + (bytes[HEADER_LEN..offset] + bytes[offset..]);
  }

  /**
   Main result: a file is read back as it was exactly when it is version 1, every icon has at most 31
   codes and none of them zero, and the image's offset fits its field.
   */
  lemma ParseBuild(f: BniFile)
    ensures Parse(Build(f)) == Ok(f) <==> ValidFile(f)
  {
    hide Parse, Build;
    if ValidFile(f) {
      ValidIsReadBack(f);
    }
    if Parse(Build(f)) == Ok(f) {
      ParsedIsBuilt(Build(f));
    }
  }

  // ---- Exactly what is accepted, and why the rest is refused ----

  /** From `from` on the two files have the same bytes. */
  ghost predicate AlikeFrom(a: seq<byte>, b: seq<byte>, from: nat) {
    |a| == |b| && forall i | from <= i < |a| :: a[i] == b[i]
  }

  lemma AlikeLength(a: seq<byte>, b: seq<byte>, from: nat)
    requires AlikeFrom(a, b, from)
    ensures |a| == |b|
  {
  }

  lemma AlikeWord(a: seq<byte>, b: seq<byte>, from: nat, pos: nat)
    requires AlikeFrom(a, b, from) && from <= pos && pos + 4 <= |a|
    ensures Word(a, pos) == Word(b, pos)
  {
    assert a[pos..pos + 4] == b[pos..pos + 4];
  }

  lemma {:induction false} AlikeCodes(a: seq<byte>, b: seq<byte>, from: nat, pos: nat, end: nat, have: nat)
    requires AlikeFrom(a, b, from) && from <= pos && end <= |a|
    ensures ParseCodes(a, pos, end, have) == ParseCodes(b, pos, end, have)
    decreases end - pos
  {
    hide AlikeFrom, Word;
    AlikeLength(a, b, from);
    if pos + 4 <= end {
      AlikeWord(a, b, from, pos);
      AlikeCodes(a, b, from, pos + 4, end, have + 1);
    }
  }

  lemma {:induction false} AlikeIcons(a: seq<byte>, b: seq<byte>, from: nat, pos: nat, end: nat, index: nat, count: nat)
    requires AlikeFrom(a, b, from) && from <= pos <= end <= |a| && index <= count
    ensures ParseIcons(a, pos, end, index, count) == ParseIcons(b, pos, end, index, count)
    decreases count - index
  {
    hide AlikeFrom, Word, ParseCodes;
    AlikeLength(a, b, from);
    if index < count {
      if pos + 12 <= end {
        AlikeWord(a, b, from, pos);
        AlikeWord(a, b, from, pos + 4);
        AlikeWord(a, b, from, pos + 8);
        AlikeCodes(a, b, from, pos + 12, end, 0);
      }
      assert ParseIcon(a, pos, end) == ParseIcon(b, pos, end);
      if ParseIcon(a, pos, end).Ok? {
        AlikeIcons(a, b, from, ParseIcon(a, pos, end).value.1, end, index + 1, count);
      }
    }
  }

  lemma PaddingIsNotRead(bytes: seq<byte>)
    requires |bytes| >= HEADER_LEN
    ensures Parse(ZeroPadding(bytes)) == Parse(bytes)
  {
    hide ParseIcons;
    var z := ZeroPadding(bytes);
    assert z[..3] == bytes[..3] && z[4..6] == bytes[4..6] && z[0..4] == bytes[0..4];
    assert z[8..12] == bytes[8..12] && z[12..16] == bytes[12..16];
    assert ParseHeader(z) == ParseHeader(bytes);
    if ParseHeader(bytes).Ok? {
      var (count, offset) := ParseHeader(bytes).value;
      AlikeIcons(z, bytes, HEADER_LEN, HEADER_LEN, offset, 0, count);
      assert z[offset..] == bytes[offset..];
    }
  }

  /** Main result: bytes are read as a file exactly when they are that file built, whatever stands in the padding. */
  lemma ParsedIff(bytes: seq<byte>, f: BniFile)
    ensures Parse(bytes) == Ok(f) <==> ValidFile(f) && |bytes| >= HEADER_LEN && ZeroPadding(bytes) == Build(f)
  {
    hide Parse, Build;
    if |bytes| >= HEADER_LEN { PaddingIsNotRead(bytes); }
    if Parse(bytes).Ok? { ParsedIsBuilt(bytes); }
    if ValidFile(f) { ValidIsReadBack(f); }
  }

  /** The whole words between two places. */
  function Words(bytes: seq<byte>, pos: nat, end: nat): seq<u32>
    requires end <= |bytes|
    decreases end - pos
  {
    if pos + 4 > end then [] else [Word(bytes, pos)] + Words(bytes, pos + 4, end)
  }

  /**
   An entry's codes are cut short when fewer words are left than their number allows and none ends them, and too
   many when 32 words do not.
   */
  lemma {:induction false} CodesRefusedIff(bytes: seq<byte>, pos: nat, end: nat, have: nat)
    requires end <= |bytes| && have <= MAX_CODES
    ensures
      var (r, words, room) := (ParseCodes(bytes, pos, end, have), Words(bytes, pos, end), MAX_CODES - have);
      && (r == Err(Truncated) <==> |words| <= room && 0 !in words)
      && (r == Err(TooMany) <==> |words| > room && 0 !in words[..room + 1])
    decreases end - pos
  {
    hide Word;
    if pos + 4 <= end {
      var rest, room := Words(bytes, pos + 4, end), MAX_CODES - have;
      var words := [Word(bytes, pos)] + rest;
      assert forall x :: x in words <==> x == Word(bytes, pos) || x in rest;
      if have < MAX_CODES {
        CodesRefusedIff(bytes, pos + 4, end, have + 1);
        if |rest| >= room {
          assert words[..room + 1] == [Word(bytes, pos)] + rest[..room];
          assert forall x :: x in words[..room + 1] <==> x == Word(bytes, pos) || x in rest[..room];
        }
      } else {
        assert words[..1] == [Word(bytes, pos)];
      }
    }
  }

  /** An entry is read as three words and then its codes, word by word up to the zero that ends them. */
  lemma EntryReadAs(bytes: seq<byte>, pos: nat, end: nat)
    requires end <= |bytes| && ParseIcon(bytes, pos, end).Ok?
    ensures
      var ((icon, p), words) := (ParseIcon(bytes, pos, end).value, Words(bytes, pos + 12, end));
      && icon.flags == Word(bytes, pos) && icon.width == Word(bytes, pos + 4) && icon.height == Word(bytes, pos + 8)
      && |icon.codes| < |words| && icon.codes == words[..|icon.codes|] && words[|icon.codes|] == 0 && 0 !in icon.codes
      && p == pos + 12 + 4 * (|icon.codes| + 1)
  {
    hide ParseCodes, Words, Word;
    CodesReadAs(bytes, pos + 12, end, 0);
  }

  lemma {:induction false} CodesReadAs(bytes: seq<byte>, pos: nat, end: nat, have: nat)
    requires end <= |bytes| && ParseCodes(bytes, pos, end, have).Ok?
    ensures
      var ((codes, p), words) := (ParseCodes(bytes, pos, end, have).value, Words(bytes, pos, end));
      && |codes| < |words| && codes == words[..|codes|] && words[|codes|] == 0 && 0 !in codes && p == pos + 4 * (|codes| + 1)
    decreases end - pos
  {
    hide Word, CodeFromWire;
    var raw := Word(bytes, pos);
    if raw != 0 {
      CodeIsItsWord(raw);
      CodesReadAs(bytes, pos + 4, end, have + 1);
      var (more, rest) := (ParseCodes(bytes, pos + 4, end, have + 1).value.0, Words(bytes, pos + 4, end));
      assert ([raw] + rest)[..|more| + 1] == [raw] + rest[..|more|];
    }
  }

  /** Why a file is refused before its table is read, in this order. */
  lemma HeaderRefusedIff(bytes: seq<byte>)
    ensures
      var r := Parse(bytes);
      && (r == Err(IsMpqArchive) <==> |bytes| >= 4 && bytes[0] == 0x4D && bytes[1] == 0x50 && bytes[2] == 0x51 && bytes[3] in [0x1A, 0x1B])
      && (r == Err(TooShort) <==> |bytes| < HEADER_LEN && !IsMpq(bytes))
      && (r.Err? && r.error.BadHeaderSize? <==> |bytes| >= HEADER_LEN && !IsMpq(bytes) && Word(bytes, 0) != 16)
      && (r.Err? && r.error.UnsupportedVersion? <==> |bytes| >= HEADER_LEN && Word(bytes, 0) == 16 && ReadLe16(bytes[4..6]) != 1)
      && (r.Err? && r.error.ImplausibleIconCount? <==>
            |bytes| >= HEADER_LEN && Word(bytes, 0) == 16 && ReadLe16(bytes[4..6]) == 1 && 16 * Word(bytes, 8) > |bytes|)
      && (r.Err? && r.error.BadDataOffset? <==>
            && |bytes| >= HEADER_LEN && Word(bytes, 0) == 16 && ReadLe16(bytes[4..6]) == 1 && 16 * Word(bytes, 8) <= |bytes|
            && !(HEADER_LEN <= Word(bytes, 12) <= |bytes|))
  {
    hide ParseIcon, ReadLe32, Le32;
    MpqIff(bytes);
    if |bytes| >= HEADER_LEN && Word(bytes, 0) == 16 { Write32(bytes[0..4]); NotMpq(bytes); }
    if ParseHeader(bytes).Ok? {
      var (count, offset) := ParseHeader(bytes).value;
      IconsBlame(bytes, HEADER_LEN, offset, 0, count);
    }
  }

  lemma MpqIff(bytes: seq<byte>)
    ensures IsMpq(bytes) <==> |bytes| >= 4 && bytes[0] == 0x4D && bytes[1] == 0x50 && bytes[2] == 0x51 && bytes[3] in [0x1A, 0x1B]
  {
    if |bytes| >= 4 { assert bytes[..3] == [bytes[0], bytes[1], bytes[2]]; }
  }

  lemma {:induction false} IconsBlame(bytes: seq<byte>, pos: nat, end: nat, index: nat, count: nat)
    requires pos <= end <= |bytes| && index <= count
    ensures
      var r := ParseIcons(bytes, pos, end, index, count);
      r.Err? ==> r.error.TruncatedEntry? || r.error.TooManyCodes?
    decreases count - index
  {
    hide ParseIcon;
    if index < count && ParseIcon(bytes, pos, end).Ok? {
      IconsBlame(bytes, ParseIcon(bytes, pos, end).value.1, end, index + 1, count);
    }
  }

  /** A refusal of an entry names the entry behind all those that could be read, and what is wrong with it. */
  lemma {:induction false} EntryRefusedIff(bytes: seq<byte>, pos: nat, end: nat, index: nat, count: nat, at: nat)
    requires pos <= end <= |bytes| && index <= at < count
    ensures
      var before := ParseIcons(bytes, pos, end, index, at);
      && (ParseIcons(bytes, pos, end, index, count) == Err(TruncatedEntry(at)) <==>
            before.Ok? && ParseIcon(bytes, before.value.1, end) == Err(Truncated))
      && (ParseIcons(bytes, pos, end, index, count) == Err(TooManyCodes(at)) <==>
            before.Ok? && ParseIcon(bytes, before.value.1, end) == Err(TooMany))
    decreases count - index
  {
    hide ParseIcon;
    if index < at {
      if ParseIcon(bytes, pos, end).Ok? { EntryRefusedIff(bytes, ParseIcon(bytes, pos, end).value.1, end, index + 1, count, at); }
    } else if ParseIcon(bytes, pos, end).Ok? {
      LaterBlame(bytes, ParseIcon(bytes, pos, end).value.1, end, index + 1, count);
    }
  }

  lemma {:induction false} LaterBlame(bytes: seq<byte>, pos: nat, end: nat, index: nat, count: nat)
    requires pos <= end <= |bytes| && index <= count
    ensures
      var r := ParseIcons(bytes, pos, end, index, count);
      r.Err? ==> (r.error.TruncatedEntry? || r.error.TooManyCodes?) && r.error.index >= index
    decreases count - index
  {
    hide ParseIcon;
    if index < count && ParseIcon(bytes, pos, end).Ok? {
      LaterBlame(bytes, ParseIcon(bytes, pos, end).value.1, end, index + 1, count);
    }
  }
}
