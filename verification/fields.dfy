/** Packet bodies field by field (`buf.rs`): what a `Writer` puts down a `Reader` picks up again. */
module Fields {
  import opened Bytes

  datatype FieldError =
    | Truncated(needed: nat, available: nat)
    | UnterminatedString
    | StringTooLong(len: nat, limit: nat)

  datatype Field = U8(b: byte) | U16(h: u16) | U32(w: u32) | U64(d: u64) | FourCc(code: u32) | Raw(bytes: seq<byte>) | Text(text: seq<byte>)

  /** What a reader asks for: raw bytes by number, text up to a limit. */
  datatype Kind = KU8 | KU16 | KU32 | KU64 | KFourCc | KRaw(n: nat) | KText(limit: nat)

  // ---- Writing ----

  function WithoutNul(s: seq<byte>): (r: seq<byte>)
    ensures 0 !in r && |r| <= |s| && (0 !in s ==> r == s) && (0 in s ==> |r| < |s|)
  {
    if s == [] then [] else (if s[0] == 0 then [] else [s[0]]) + WithoutNul(s[1..])
  }

  function Wire(f: Field): seq<byte> {
    match f
    case U8(b) => [b]
    case U16(h) => Le16(h)
    case U32(w) => Le32(w)
    case U64(d) => ToLe(d, 8)
    case FourCc(code) => var b := Be32(code); [b[3], b[2], b[1], b[0]]
    case Raw(bytes) => bytes
    case Text(text) => WithoutNul(text) + [0]
  }

  function WireAll(fs: seq<Field>): seq<byte> {
    if fs == [] then [] else Wire(fs[0]) + WireAll(fs[1..])
  }

  // ---- Reading ----

  function Width(k: Kind): nat {
    match k case KU8 => 1 case KU16 => 2 case KU32 => 4 case KFourCc => 4 case KU64 => 8 case KRaw(n) => n case KText(_) => 0
  }

  /** The field at the front, and the bytes behind it. */
  function Read(b: seq<byte>, k: Kind): (r: Result<(Field, seq<byte>), FieldError>)
  {
    if k.KText? then
      var end := IndexOf(b, 0);
      if end == |b| then Err(UnterminatedString)
      else if end > k.limit then Err(StringTooLong(end, k.limit))
      else Ok((Text(b[..end]), b[end + 1..]))
    else
      var n := Width(k);
      if |b| < n then Err(Truncated(n, |b|)) else
      var (front, rest) := (b[..n], b[n..]);
      Ok((Spelled(front, k), rest))
  }

  function Spelled(front: seq<byte>, k: Kind): Field
    requires !k.KText? && |front| == Width(k)
  {
    match k
    case KU8 => U8(front[0])
    case KU16 => U16(ReadLe16(front))
    case KU32 => U32(ReadLe32(front))
    case KU64 =>
      FromLeBound(front);
      assert Pow(256, 8) == 0x1_0000_0000_0000_0000 by { PowOf8(); }
      U64(FromLe(front))
    case KFourCc => FourCc(ReadBe32([front[3], front[2], front[1], front[0]]))
    case KRaw(_) => Raw(front)
  }

  lemma PowOf8()
    ensures Pow(256, 8) == 0x1_0000_0000_0000_0000
  {
    assert Pow(256, 2) == 0x1_0000;
    assert Pow(256, 4) == 256 * (256 * Pow(256, 2));
    assert Pow(256, 6) == 256 * (256 * Pow(256, 4));
    assert Pow(256, 8) == 256 * (256 * Pow(256, 6));
  }

  function ReadAll(b: seq<byte>, ks: seq<Kind>): Result<(seq<Field>, seq<byte>), FieldError> {
    if ks == [] then Ok(([], b)) else
    match Read(b, ks[0])
    case Err(e) => Err(e)
    case Ok((f, rest)) =>
      match ReadAll(rest, ks[1..])
      case Err(e) => Err(e)
      case Ok((fs, last)) => Ok(([f] + fs, last))
  }

  // ---- The round trip ----

  function KindOf(f: Field, limit: nat): Kind {
    match f
    case U8(_) => KU8 case U16(_) => KU16 case U32(_) => KU32 case U64(_) => KU64 case FourCc(_) => KFourCc
    case Raw(bytes) => KRaw(|bytes|)
    case Text(_) => KText(limit)
  }

  function KindsOf(fs: seq<Field>, limit: nat): seq<Kind> {
    if fs == [] then [] else [KindOf(fs[0], limit)] + KindsOf(fs[1..], limit)
  }

  /** Text comes through unless it holds a NUL or is over the reader's limit. */
  predicate ComesThrough(f: Field, limit: nat) {
    f.Text? ==> 0 !in f.text && |f.text| <= limit
  }

  lemma FixedWidth(f: Field, limit: nat)
    requires !f.Text?
    ensures |Wire(f)| == Width(KindOf(f, limit)) && Spelled(Wire(f), KindOf(f, limit)) == f
  {
    match f {
      case U16(h) => assert h == h % 256 + 256 * (h / 256);
      case U32(w) => Read32(w);
      case U64(d) => PowOf8(); FromLeToLe(d, 8);
      case FourCc(code) => Read32(code);
      case _ =>
    }
  }

  lemma TextFront(text: seq<byte>, more: seq<byte>)
    ensures
      var (b, kept) := (WithoutNul(text) + [0] + more, WithoutNul(text));
      IndexOf(b, 0) == |kept| < |b| && b[..|kept|] == kept && b[|kept| + 1..] == more
  {
    var b, kept := WithoutNul(text) + [0] + more, WithoutNul(text);
    assert b[|kept|] == 0;
    forall j | 0 <= j < |kept| ensures b[j] != 0 { assert b[j] == kept[j] && kept[j] in kept; }
  }

  /** One field is read back exactly when it comes through. */
  lemma FieldIsReadIff(f: Field, limit: nat, more: seq<byte>)
    ensures Read(Wire(f) + more, KindOf(f, limit)) == Ok((f, more)) <==> ComesThrough(f, limit)
    ensures Read(Wire(f) + more, KindOf(f, limit)).Ok? && !ComesThrough(f, limit)
      ==> Read(Wire(f) + more, KindOf(f, limit)).value.0 != f
  {
    hide Read;
    if f.Text? { TextIsReadIff(f.text, limit, more); } else { FixedIsRead(f, limit, more); }
  }

  lemma TextIsReadIff(text: seq<byte>, limit: nat, more: seq<byte>)
    ensures
      var r := Read(WithoutNul(text) + [0] + more, KText(limit));
      && (r == Ok((Text(text), more)) <==> 0 !in text && |text| <= limit)
      && (r.Ok? ==> r.value.0 == Text(WithoutNul(text)) && |WithoutNul(text)| <= limit)
  {
    hide Read, WithoutNul;
    TextFront(text, more);
    TextRead(WithoutNul(text) + [0] + more, WithoutNul(text), limit, more);
  }

  lemma TextRead(b: seq<byte>, kept: seq<byte>, limit: nat, more: seq<byte>)
    requires IndexOf(b, 0) == |kept| < |b| && b[..|kept|] == kept && b[|kept| + 1..] == more
    ensures Read(b, KText(limit)) ==
      if |kept| > limit then Err(StringTooLong(|kept|, limit)) else Ok((Text(kept), more))
  {
    hide Spelled, IndexOf;
  }

  lemma FixedIsRead(f: Field, limit: nat, more: seq<byte>)
    requires !f.Text?
    ensures Read(Wire(f) + more, KindOf(f, limit)) == Ok((f, more))
  {
    hide Spelled, Wire;
    assert !KindOf(f, limit).KText?;
    FixedWidth(f, limit);
    Front(Wire(f), more);
  }

  /** Main result: a body written field by field is read back, and what follows is untouched, exactly when every field comes through. */
  lemma {:induction false} BodyIsReadIff(fs: seq<Field>, limit: nat, more: seq<byte>)
    ensures ReadAll(WireAll(fs) + more, KindsOf(fs, limit)) == Ok((fs, more))
      <==> forall i | 0 <= i < |fs| :: ComesThrough(fs[i], limit)
    decreases |fs|
  {
    hide Wire, Read, ComesThrough;
    if fs == [] {
      assert [] + more == more;
    } else {
      var first, rest := fs[0], fs[1..];
      var tail := WireAll(rest) + more;
      Concat(Wire(first), WireAll(rest), more);
      FieldIsReadIff(first, limit, tail);
      BodyIsReadIff(rest, limit, more);
      KindsFirst(fs, limit);
      assert fs == [first] + rest;
      if Read(Wire(first) + tail, KindOf(first, limit)) == Ok((first, tail)) {
        ReadAfterFirst(Wire(first) + tail, KindsOf(fs, limit), first, tail, fs, more);
      } else if ReadAll(Wire(first) + tail, KindsOf(fs, limit)).Ok? {
        FirstRead(Wire(first) + tail, KindsOf(fs, limit));
      }
    }
  }

  lemma KindsFirst(fs: seq<Field>, limit: nat)
    requires fs != []
    ensures KindsOf(fs, limit) != [] && KindsOf(fs, limit)[0] == KindOf(fs[0], limit) && KindsOf(fs, limit)[1..] == KindsOf(fs[1..], limit)
  {
  }

  lemma ReadAfterFirst(b: seq<byte>, ks: seq<Kind>, first: Field, tail: seq<byte>, fs: seq<Field>, more: seq<byte>)
    requires ks != [] && fs != [] && fs[0] == first && Read(b, ks[0]) == Ok((first, tail))
    ensures ReadAll(b, ks) == Ok((fs, more)) <==> ReadAll(tail, ks[1..]) == Ok((fs[1..], more))
  {
    var r := ReadAll(tail, ks[1..]);
    if r.Ok? {
      assert ([first] + r.value.0)[1..] == r.value.0 && fs == [first] + fs[1..];
    }
  }

  lemma FirstRead(b: seq<byte>, ks: seq<Kind>)
    requires ks != [] && ReadAll(b, ks).Ok?
    ensures
      var fs := ReadAll(b, ks).value.0;
      Read(b, ks[0]).Ok? && fs != [] && fs[0] == Read(b, ks[0]).value.0
  {
  }

  // ---- The bytes of a field, and why one is refused ----

  /** Numbers are written low byte first, and so are codes, whose first character is the high byte. */
  lemma WireIsLittleEndian(a: byte, b: byte, c: byte, d: byte, v: u64)
    ensures
      var (h, w) := (a + 256 * (b as int), a + 256 * (b as int) + 0x1_0000 * (c as int) + 0x100_0000 * (d as int));
      && Wire(U16(h)) == [a, b] && Wire(U32(w)) == [a, b, c, d] == Wire(FourCc(w))
      && Wire(U8(a)) == [a] && |Wire(U64(v))| == 8 && FromLe(Wire(U64(v))) == v
  {
    var w: u32 := ReadLe32([a, b, c, d]);
    Write32([a, b, c, d]);
    SplitByte(a, b);
    PowOf8();
    FromLeToLe(v, 8);
    CodeIsLittleEndian(w);
  }

  lemma CodeIsLittleEndian(w: u32)
    ensures Wire(FourCc(w)) == Le32(w)
  {
  }

  /** Text is written character by character without its NULs, and one NUL behind. */
  lemma {:induction false} TextIsWritten(s: seq<byte>, x: byte)
    ensures WithoutNul(s + [x]) == WithoutNul(s) + if x == 0 then [] else [x]
    ensures Wire(Text(s)) == WithoutNul(s) + [0]
    decreases |s|
  {
    hide WithoutNul;
    var last: seq<byte> := if x == 0 then [] else [x];
    WithoutNulFirst(s + [x]);
    if s == [] {
      WithoutNulFirst([]);
      assert s + [x] == [x] && [x][1..] == [];
    } else {
      TextIsWritten(s[1..], x);
      WithoutNulFirst(s);
      assert (s + [x])[0] == s[0] && (s + [x])[1..] == s[1..] + [x];
      Concat(if s[0] == 0 then [] else [s[0]], WithoutNul(s[1..]), last);
    }
  }

  lemma WithoutNulFirst(s: seq<byte>)
    ensures WithoutNul(s) == if s == [] then [] else (if s[0] == 0 then [] else [s[0]]) + WithoutNul(s[1..])
  {
  }

  lemma FirstNul(b: seq<byte>, n: nat)
    ensures IndexOf(b, 0) == |b| <==> 0 !in b
    ensures n < |b| && b[n] == 0 && (forall j | 0 <= j < n :: b[j] != 0) ==> IndexOf(b, 0) == n
  {
  }

  /** A number or raw bytes are refused for want of bytes alone; text when no NUL comes, or when its first comes past the limit. */
  lemma ReadRefusedIff(b: seq<byte>, k: Kind, n: nat)
    ensures !k.KText? ==> (Read(b, k).Err? <==> |b| < Width(k)) && (Read(b, k).Err? ==> Read(b, k).error == Truncated(Width(k), |b|))
    ensures k.KText? ==> (Read(b, k) == Err(UnterminatedString) <==> 0 !in b)
    ensures k.KText? && n < |b| && b[n] == 0 && (forall j | 0 <= j < n :: b[j] != 0) ==>
      Read(b, k) == if n > k.limit then Err(StringTooLong(n, k.limit)) else Ok((Text(b[..n]), b[n + 1..]))
  {
    hide Spelled, IndexOf;
    FirstNul(b, n);
  }

  // ---- The objects ----

  class Writer {
    var buf: seq<byte>

    constructor ()
      ensures buf == []
    {
      buf := [];
    }

    method Put(f: Field)
      modifies this
      ensures buf == old(buf) + Wire(f)
    {
      match f {
        case U8(b) => buf := buf + [b];
        case Text(text) =>
          buf := buf + WithoutNul(text);
          buf := buf + [0];
        case _ => buf := buf + Wire(f);
      }
    }
  }

  class Reader {
    const buf: seq<byte>
    var pos: nat

    ghost predicate Valid()
      reads this
    {
      pos <= |buf|
    }

    constructor (buf: seq<byte>)
      ensures Valid() && this.buf == buf && pos == 0
    {
      this.buf, pos := buf, 0;
    }

    method Take(n: nat) returns (r: Result<seq<byte>, FieldError>)
      requires Valid()
      modifies `pos
      ensures Valid()
      ensures
        if n <= |buf| - old(pos) then pos == old(pos) + n && r == Ok(buf[old(pos)..pos])
        else pos == old(pos) && r == Err(Truncated(n, |buf| - pos))
    {
      if |buf| - pos < n { return Err(Truncated(n, |buf| - pos)); }
      r := Ok(buf[pos..pos + n]);
      pos := pos + n;
    }

    /** The next field, or an error that leaves the cursor where it was. */
    method Next(k: Kind) returns (r: Result<Field, FieldError>)
      requires Valid()
      modifies `pos
      ensures Valid()
      ensures
        match Read(buf[old(pos)..], k)
        case Err(e) => r == Err(e) && pos == old(pos)
        case Ok((f, rest)) => r == Ok(f) && buf[pos..] == rest
    {
      hide Spelled;
      if k.KText? {
        var rest := buf[pos..];
        var end := IndexOf(rest, 0);
        if end == |rest| { return Err(UnterminatedString); }
        if end > k.limit { return Err(StringTooLong(end, k.limit)); }
        assert buf[pos + end + 1..] == rest[end + 1..];
        pos := pos + end + 1;
        return Ok(Text(rest[..end]));
      }
      assert buf[pos..][..Min(Width(k), |buf| - pos)] == buf[pos..pos + Min(Width(k), |buf| - pos)];
      assert pos + Width(k) <= |buf| ==> buf[pos..][Width(k)..] == buf[pos + Width(k)..];
      var front := Take(Width(k));
      if front.Err? { return Err(front.error); }
      r := Ok(Spelled(front.value, k));
    }
  }
}
