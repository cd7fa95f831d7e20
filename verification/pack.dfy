/**
 Packing pictures into an icon file and cutting them out again (`pack.rs`), with the files, the text of
 `icons.txt` and the PNG reader taken away: entries and decoded pictures in, entries and pixels out.
 */
module Pack {
  import opened Bytes
  import opened Tga
  import opened TgaCodec
  import opened Bni

  /** A PNG as read. */
  datatype Picture = Picture(width: u32, height: u32, rgb: seq<byte>)

  /** PNGs are never empty, and the reader gives three bytes for every pixel. */
  predicate Decoded(p: Picture) {
    p.width > 0 && p.height > 0 && |p.rgb| == 3 * Area(p.width, p.height)
  }

  function Widest(icons: seq<Icon>): nat {
    if icons == [] then 0 else Max(icons[0].width, Widest(icons[1..]))
  }

  function TotalHeight(icons: seq<Icon>): nat {
    if icons == [] then 0 else icons[0].height + TotalHeight(icons[1..])
  }

  predicate SameSize(icon: Icon, p: Picture) {
    icon.width == p.width && icon.height == p.height
  }

  predicate SizesAgree(icons: seq<Icon>, pics: seq<Picture>) {
    |icons| == |pics| && forall i | 0 <= i < |pics| :: SameSize(icons[i], pics[i])
  }

  // ---- Stacking ----

  /** `h` rows of `w` pixels from byte `at` on, each filled up with black to `width`. */
  function Padded(rgb: seq<byte>, at: nat, w: nat, h: nat, width: nat): (r: seq<byte>)
    requires at + 3 * Area(w, h) <= |rgb| && w <= width
    ensures |r| == 3 * Area(width, h)
    decreases h
  {
    if h == 0 then [] else rgb[at..at + 3 * w] + Zeros(3 * (width - w)) + Padded(rgb, at + 3 * w, w, h - 1, width)
  }

  /** The pictures under one another. */
  function Stack(pics: seq<Picture>, width: nat): seq<byte>
    requires forall i | 0 <= i < |pics| :: Decoded(pics[i]) && pics[i].width <= width
  {
    if pics == [] then [] else
    var p := pics[0];
    assert Decoded(p);
    Padded(p.rgb, 0, p.width, p.height, width) + Stack(pics[1..], width)
  }

  /** Write one row of a picture into the zeroed image. */
  method CopyRow(image: array<byte>, to: nat, width: nat, rgb: seq<byte>, from: nat, w: nat)
    requires w <= width && to + 3 * width <= image.Length && from + 3 * w <= |rgb|
    requires forall k | to <= k < image.Length :: image[k] == 0
    modifies image
    ensures image[..to] == old(image[..to])
    ensures image[to..to + 3 * width] == rgb[from..from + 3 * w] + Zeros(3 * (width - w))
    ensures forall k | to + 3 * width <= k < image.Length :: image[k] == 0
  {
    for k := 0 to 3 * w
      invariant image[..to] == old(image[..to])
      invariant forall j | to <= j < to + k :: image[j] == rgb[from + (j - to)]
      invariant forall j | to + k <= j < image.Length :: image[j] == 0
    {
      image[to + k] := rgb[from + k];
    }
    ghost var row := rgb[from..from + 3 * w] + Zeros(3 * (width - w));
    assert forall j | 0 <= j < 3 * width :: image[to..to + 3 * width][j] == image[to + j] == row[j];
  }

  /** Copy a picture in below the first `top` rows. */
  method CopyPicture(image: array<byte>, top: nat, width: nat, p: Picture)
    requires Decoded(p) && p.width <= width && 3 * Area(width, top + p.height) <= image.Length
    requires 3 * Area(width, top) <= image.Length
    requires forall k | 3 * Area(width, top) <= k < image.Length :: image[k] == 0
    modifies image
    ensures 3 * Area(width, top + p.height) <= image.Length
    ensures image[..3 * Area(width, top + p.height)]
         == old(image[..3 * Area(width, top)]) + Padded(p.rgb, 0, p.width, p.height, width)
    ensures forall k | 3 * Area(width, top + p.height) <= k < image.Length :: image[k] == 0
  {
    hide Padded, Area;
    var w, h := p.width, p.height;
    ghost var above := image[..3 * Area(width, top)];
    ghost var whole := Padded(p.rgb, 0, w, h, width);
    ghost var done: seq<byte> := [];
    Concat(above, whole, []);
    AreaSum(w, 0, 0);
    for y := 0 to h
      invariant 3 * Area(w, y) + 3 * Area(w, h - y) == |p.rgb|
      invariant 3 * Area(width, top + y) <= image.Length
      invariant image[..3 * Area(width, top + y)] == above + done
      invariant done + Padded(p.rgb, 3 * Area(w, y), w, h - y, width) == whole
      invariant forall k | 3 * Area(width, top + y) <= k < image.Length :: image[k] == 0
    {
      var from, to := 3 * Area(w, y), 3 * Area(width, top + y);
      RowInside(width, top + h, top + y);
      RowInside(w, h, y);
      RowInside(w, h - y, 0);
      AreaSum(w, 1, h - y - 1);
      ghost var row := p.rgb[from..from + 3 * w] + Zeros(3 * (width - w));
      PaddedStep(p.rgb, from, w, h - y, width);
      CopyRow(image, to, width, p.rgb, from, w);
      Extend(image[..], to, 3 * width, above, done, row);
      Concat(done, row, Padded(p.rgb, from + 3 * w, w, h - y - 1, width));
      done := done + row;
    }
    PaddedNothing(p.rgb, 3 * Area(w, h), w, width);
    Concat(done, [], []);
  }

  lemma Extend(s: seq<byte>, at: nat, n: nat, above: seq<byte>, done: seq<byte>, row: seq<byte>)
    requires at + n <= |s| && s[..at] == above + done && s[at..at + n] == row
    ensures s[..at + n] == above + (done + row)
  {
    assert s[..at + n] == s[..at] + s[at..at + n];
    Concat(above, done, row);
  }

  lemma PaddedNothing(rgb: seq<byte>, at: nat, w: nat, width: nat)
    requires at <= |rgb| && w <= width
    ensures at + 3 * Area(w, 0) <= |rgb| && Padded(rgb, at, w, 0, width) == []
  {
  }

  lemma PaddedStep(rgb: seq<byte>, at: nat, w: nat, h: nat, width: nat)
    requires h > 0 && at + 3 * Area(w, h) <= |rgb| && w <= width
    ensures at + 3 * w + 3 * Area(w, h - 1) <= |rgb|
    ensures Padded(rgb, at, w, h, width)
         == (rgb[at..at + 3 * w] + Zeros(3 * (width - w))) + Padded(rgb, at + 3 * w, w, h - 1, width)
  {
  }

  /** The whole image, picture by picture. */
  method StackPictures(pics: seq<Picture>, width: nat, height: nat) returns (pixels: seq<byte>)
    requires forall i | 0 <= i < |pics| :: Decoded(pics[i]) && pics[i].width <= width
    requires height == Heights(pics)
    ensures pixels == Stack(pics, width) && |pixels| == 3 * Area(width, height)
  {
    hide Padded, Area;
    var image := new byte[3 * Area(width, height)](_ => 0);
    var top := 0;
    ghost var done: seq<byte> := [];
    assert pics[0..] == pics;
    Concat(Stack(pics, width), [], []);
    AreaSum(width, 0, height);
    for i := 0 to |pics|
      invariant 0 <= top && top + Heights(pics[i..]) == height
      invariant 3 * Area(width, top) <= image.Length
      invariant image[..3 * Area(width, top)] == done
      invariant done + Stack(pics[i..], width) == Stack(pics, width)
      invariant forall k | 3 * Area(width, top) <= k < image.Length :: image[k] == 0
    {
      var p := pics[i];
      assert pics[i..][1..] == pics[i + 1..];
      AreaSum(width, top + p.height, height - top - p.height);
      ghost var block := Padded(p.rgb, 0, p.width, p.height, width);
      Concat(done, block, Stack(pics[i + 1..], width));
      CopyPicture(image, top, width, p);
      done := done + block;
      top := top + p.height;
    }
    Concat(done, [], []);
    pixels := image[..];
  }

  function Heights(pics: seq<Picture>): nat {
    if pics == [] then 0 else pics[0].height + Heights(pics[1..])
  }

  // ---- Packing ----

  datatype PackError = NoIcons | WrongSize(index: nat) | NotReadable(why: BniError)

  function FirstWrongSize(icons: seq<Icon>, pics: seq<Picture>, i: nat): (r: Option<nat>)
    requires |icons| == |pics| && i <= |pics|
    ensures r.None? <==> forall j | i <= j < |pics| :: SameSize(icons[j], pics[j])
    decreases |pics| - i
  {
    if i == |pics| then None
    else if !SameSize(icons[i], pics[i]) then Some(i)
    else FirstWrongSize(icons, pics, i + 1)
  }

  lemma {:induction false} SizesFit(icons: seq<Icon>, pics: seq<Picture>)
    requires SizesAgree(icons, pics)
    ensures Heights(pics) == TotalHeight(icons)
    ensures forall i | 0 <= i < |pics| :: pics[i].width <= Widest(icons)
  {
    if icons != [] {
      SizesFit(icons[1..], pics[1..]);
      forall i | 0 <= i < |pics|
        ensures pics[i].width <= Widest(icons)
      {
        if i > 0 { assert pics[i] == pics[1..][i - 1]; }
      }
    }
  }

  /** The file packed from pictures of the right sizes. */
  function PackedFile(icons: seq<Icon>, pics: seq<Picture>): BniFile
    requires SizesAgree(icons, pics) && forall i | 0 <= i < |pics| :: Decoded(pics[i])
  {
    var (w, h) := (Widest(icons), TotalHeight(icons));
    SizesFit(icons, pics);
    StackLength(pics, w);
    BniFile(VERSION, icons, Encode(w, h, Stack(pics, w)))
  }

  lemma {:induction false} StackLength(pics: seq<Picture>, width: nat)
    requires forall i | 0 <= i < |pics| :: Decoded(pics[i]) && pics[i].width <= width
    ensures |Stack(pics, width)| == 3 * Area(width, Heights(pics))
  {
    if pics != [] {
      StackLength(pics[1..], width);
      AreaSum(width, pics[0].height, Heights(pics[1..]));
    }
  }

  function PackedBytes(icons: seq<Icon>, pics: seq<Picture>): Result<seq<byte>, PackError>
    requires |icons| == |pics| && forall i | 0 <= i < |pics| :: Decoded(pics[i])
  {
    if icons == [] then Err(NoIcons)
    else
      match FirstWrongSize(icons, pics, 0)
      case Some(i) => Err(WrongSize(i))
      case None =>
        var bytes := Build(PackedFile(icons, pics));
        match Parse(bytes)
        case Err(e) => Err(NotReadable(e))
        case Ok(_) => Ok(bytes)
  }

  method PackIcons(icons: seq<Icon>, pics: seq<Picture>) returns (r: Result<seq<byte>, PackError>)
    requires |icons| == |pics| && forall i | 0 <= i < |pics| :: Decoded(pics[i])
    requires Area(Widest(icons), TotalHeight(icons)) < 0x1_0000_0000
    ensures r == PackedBytes(icons, pics)
  {
    hide Build, Parse, Encode, Stack;
    if icons == [] {
      return Err(NoIcons);
    }
    var wrong := FirstWrongSize(icons, pics, 0);
    if wrong.Some? {
      return Err(WrongSize(wrong.value));
    }
    SizesFit(icons, pics);
    var width, height := Widest(icons), TotalHeight(icons);
    var stacked := StackPictures(pics, width, height);
    var image := EncodeImage(width, height, stacked);
    var bytes := BuildFile(BniFile(VERSION, icons, image));
    var check := ParseFile(bytes);
    if check.Err? {
      return Err(NotReadable(check.error));
    }
    return Ok(bytes);
  }

  // ---- Cutting ----

  datatype ExportError = NotABni(why: BniError) | NotATga | ImageEnds(index: nat) | WiderThanImage(index: nat)

  /** A band of the image, when it lies inside. */
  function Rows(image: Image, top: nat, height: nat): (r: Option<seq<byte>>)
    requires |image.pixels| == 3 * Area(image.width, image.height)
    ensures r.Some? <==> top + height <= image.height
    ensures r.Some? ==> |r.value| == 3 * Area(image.width, height)
  {
    if top + height > image.height then None else
    AreaSum(image.width, top, height);
    AreaSum(image.width, top + height, image.height - top - height);
    Some(image.pixels[3 * Area(image.width, top)..3 * Area(image.width, top + height)])
  }

  /** The first `w` pixels of each of `h` rows of `width`, from byte `at` on. */
  function Cut(rows: seq<byte>, at: nat, width: nat, w: nat, h: nat): seq<byte>
    requires at + 3 * Area(width, h) <= |rows| && w <= width
    decreases h
  {
    if h == 0 then [] else rows[at..at + 3 * w] + Cut(rows, at + 3 * width, width, w, h - 1)
  }

  method CutLoop(rows: seq<byte>, width: nat, w: nat, h: nat) returns (pixels: seq<byte>)
    requires |rows| == 3 * Area(width, h) && w <= width
    ensures pixels == Cut(rows, 0, width, w, h)
  {
    hide Area;
    pixels := [];
    Concat(Cut(rows, 0, width, w, h), [], []);
    var at := 0;
    for y := 0 to h
      invariant 0 <= at && at + 3 * Area(width, h - y) == |rows|
      invariant pixels + Cut(rows, at, width, w, h - y) == Cut(rows, 0, width, w, h)
    {
      AreaSum(width, 0, 0);
      RowInside(width, h - y, 0);
      AreaSum(width, 1, h - y - 1);
      Concat(pixels, rows[at..at + 3 * w], Cut(rows, at + 3 * width, width, w, h - y - 1));
      pixels := pixels + rows[at..at + 3 * w];
      at := at + 3 * width;
    }
    Concat(pixels, [], []);
  }

  /** Every icon's pixels out of the image; a slice past the image's rows stops the program. */
  function CutAll(image: Image, icons: seq<Icon>, index: nat, top: nat): (r: Result<seq<Picture>, ExportError>)
    requires |image.pixels| == 3 * Area(image.width, image.height) && index <= |icons|
    ensures r.Ok? ==> |r.value| == |icons| - index
    decreases |icons| - index
  {
    if index == |icons| then Ok([]) else
    var icon := icons[index];
    match Rows(image, top, icon.height)
    case None => Err(ImageEnds(index))
    case Some(rows) =>
      if icon.width > image.width && icon.height > 0 then Err(WiderThanImage(index))
      else
        var pixels := if icon.height == 0 then [] else Cut(rows, 0, image.width, icon.width, icon.height);
        match CutAll(image, icons, index + 1, top + icon.height)
        case Err(e) => Err(e)
        case Ok(more) => Ok([Picture(icon.width, icon.height, pixels)] + more)
  }

  /** Where a client looks for an icon in the image: below all those before it in the file. */
  function IconYOffset(icons: seq<Icon>, index: nat): nat
    requires index <= |icons|
  {
    TotalHeight(icons[..index])
  }

  /** Cutting takes icon `i` from the rows at its offset. */
  lemma {:induction false} CutIsAtOffset(image: Image, icons: seq<Icon>, index: nat, top: nat, i: nat)
    requires |image.pixels| == 3 * Area(image.width, image.height) && index <= i < |icons|
    requires CutAll(image, icons, index, top).Ok?
    ensures
      var (icon, p) := (icons[i], CutAll(image, icons, index, top).value[i - index]);
      var rows := Rows(image, top + IconYOffset(icons[index..], i - index), icon.height);
      && p.width == icon.width && p.height == icon.height && rows.Some?
      && (icon.height > 0 ==> icon.width <= image.width && p.rgb == Cut(rows.value, 0, image.width, icon.width, icon.height))
    decreases i - index
  {
    hide Cut, Area;
    if index < i {
      CutIsAtOffset(image, icons, index + 1, top + icons[index].height, i);
      OffsetStep(icons[index..], i - index);
      assert icons[index..][1..] == icons[index + 1..];
    } else {
      assert icons[index..][..0] == [];
    }
  }

  lemma OffsetStep(icons: seq<Icon>, i: nat)
    requires 0 < i <= |icons|
    ensures IconYOffset(icons, i) == icons[0].height + IconYOffset(icons[1..], i - 1)
  {
    assert icons[..i][1..] == icons[1..][..i - 1];
  }

  lemma {:induction false} ImageSize(bytes: seq<byte>)
    ensures
      var image := Decode(bytes);
      image.Some? ==>
        && 1 <= image.value.width <= 0xFFFF && 1 <= image.value.height <= 0xFFFF
        && |image.value.pixels| == 3 * Area(image.value.width, image.value.height)
  {
    hide DecodeHeader, Unpack, Arrange;
  }

  /** What an exported file says: each entry, and its pixels. */
  function Exported(bytes: seq<byte>): Result<(seq<Icon>, seq<Picture>), ExportError> {
    match Parse(bytes)
    case Err(e) => Err(NotABni(e))
    case Ok(f) =>
      ImageSize(f.image);
      match Decode(f.image)
      case None => Err(NotATga)
      case Some(image) =>
        match CutAll(image, f.icons, 0, 0)
        case Err(e) => Err(e)
        case Ok(pics) => Ok((f.icons, pics))
  }

  method ExportIcons(bytes: seq<byte>) returns (r: Result<(seq<Icon>, seq<Picture>), ExportError>)
    ensures r == Exported(bytes)
  {
    hide Parse, Decode, Cut;
    var file := ParseFile(bytes);
    if file.Err? {
      return Err(NotABni(file.error));
    }
    var icons := file.value.icons;
    ImageSize(file.value.image);
    var decoded := DecodeImage(file.value.image);
    if decoded.None? {
      return Err(NotATga);
    }
    var image := decoded.value;
    var pics: seq<Picture> := [];
    var top := 0;
    WithPicturesTwice([], Picture(0, 0, []), CutAll(image, icons, 0, 0));
    for i := 0 to |icons|
      invariant 0 <= top
      invariant WithPictures(pics, CutAll(image, icons, i, top)) == CutAll(image, icons, 0, 0)
    {
      var icon := icons[i];
      var rows := Rows(image, top, icon.height);
      if rows.None? {
        return Err(ImageEnds(i));
      }
      if icon.width > image.width && icon.height > 0 {
        return Err(WiderThanImage(i));
      }
      var pixels: seq<byte> := [];
      if icon.height > 0 {
        pixels := CutLoop(rows.value, image.width, icon.width, icon.height);
      }
      var p := Picture(icon.width, icon.height, pixels);
      WithPicturesTwice(pics, p, CutAll(image, icons, i + 1, top + icon.height));
      pics := pics + [p];
      top := top + icon.height;
    }
    assert pics + [] == pics;
    return Ok((icons, pics));
  }

  function WithPictures(pics: seq<Picture>, r: Result<seq<Picture>, ExportError>): Result<seq<Picture>, ExportError> {
    match r
    case Err(e) => Err(e)
    case Ok(more) => Ok(pics + more)
  }

  lemma WithPicturesTwice(pics: seq<Picture>, p: Picture, r: Result<seq<Picture>, ExportError>)
    ensures WithPictures(pics, WithPictures([p], r)) == WithPictures(pics + [p], r)
    ensures WithPictures([], r) == r
  {
    if r.Ok? {
      assert pics + ([p] + r.value) == pics + [p] + r.value;
      assert [] + r.value == r.value;
    }
  }

  // ---- What is packed comes out again ----

  lemma {:induction false} CutOfPadded(rows: seq<byte>, at: nat, rgb: seq<byte>, from: nat, width: nat, w: nat, h: nat)
    requires w <= width && from + 3 * Area(w, h) <= |rgb| && at + 3 * Area(width, h) == |rows|
    requires rows[at..] == Padded(rgb, from, w, h, width)
    ensures Cut(rows, at, width, w, h) == rgb[from..from + 3 * Area(w, h)]
    decreases h
  {
    hide Padded;
    if h > 0 {
      var row := rgb[from..from + 3 * w];
      var next := Padded(rgb, from + 3 * w, w, h - 1, width);
      PaddedStep(rgb, from, w, h, width);
      CutPoint(rows, at, row, Zeros(3 * (width - w)), next);
      CutOfPadded(rows, at + 3 * width, rgb, from + 3 * w, width, w, h - 1);
      assert rgb[from..from + 3 * Area(w, h)] == row + rgb[from + 3 * w..from + 3 * Area(w, h)];
    }
  }

  lemma CutPoint(rows: seq<byte>, at: nat, row: seq<byte>, zeros: seq<byte>, next: seq<byte>)
    requires at <= |rows| && rows[at..] == row + zeros + next
    ensures at + |row| + |zeros| <= |rows|
    ensures rows[at..at + |row|] == row && rows[at + |row| + |zeros|..] == next
  {
    var s := rows[at..];
    assert |s| == |rows| - at;
    assert rows[at..at + |row|] == s[..|row|] && rows[at + |row| + |zeros|..] == s[|row| + |zeros|..];
  }

  lemma {:induction false} CutAllOfStack(image: Image, icons: seq<Icon>, pics: seq<Picture>, index: nat, top: nat)
    requires SizesAgree(icons, pics) && index <= |icons|
    requires forall i | 0 <= i < |pics| :: Decoded(pics[i]) && pics[i].width <= image.width
    requires |image.pixels| == 3 * Area(image.width, image.height)
    requires top + Heights(pics[index..]) == image.height
    requires Area(image.width, top) <= Area(image.width, image.height)
    requires image.pixels[3 * Area(image.width, top)..] == Stack(pics[index..], image.width)
    ensures CutAll(image, icons, index, top) == Ok(pics[index..])
    decreases |icons| - index
  {
    hide Area, Padded, Cut;
    if index < |icons| {
      var icon, p, W := icons[index], pics[index], image.width;
      assert SameSize(icon, p);
      assert pics[index..][1..] == pics[index + 1..];
      AreaSum(W, top, p.height);
      AreaSum(W, top + p.height, image.height - top - p.height);
      var block := Padded(p.rgb, 0, p.width, p.height, W);
      BlockAt(image.pixels, 3 * Area(W, top), block, Stack(pics[index + 1..], W));
      assert Rows(image, top, icon.height) == Some(block);
      CutOfBlock(block, p, W);
      CutAllOfStack(image, icons, pics, index + 1, top + p.height);
      assert pics[index..] == [p] + pics[index + 1..];
    }
  }

  /** Cutting a padded block gives the picture back. */
  lemma CutOfBlock(block: seq<byte>, p: Picture, width: nat)
    requires Decoded(p) && p.width <= width && block == Padded(p.rgb, 0, p.width, p.height, width)
    requires |block| == 3 * Area(width, p.height)
    ensures Cut(block, 0, width, p.width, p.height) == p.rgb
  {
    hide Area, Padded, Cut;
    assert block[0..] == block;
    CutOfPadded(block, 0, p.rgb, 0, width, p.width, p.height);
    assert p.rgb[0..3 * Area(p.width, p.height)] == p.rgb;
  }

  lemma BlockAt(s: seq<byte>, at: nat, block: seq<byte>, rest: seq<byte>)
    requires at <= |s| && s[at..] == block + rest
    ensures at + |block| <= |s| && s[at..at + |block|] == block && s[at + |block|..] == rest
  {
    assert s[at..at + |block|] == s[at..][..|block|];
    assert s[at + |block|..] == s[at..][|block|..];
  }

  /** An icon file can hold these icons. */
  ghost predicate Packable(icons: seq<Icon>) {
    && icons != []
    && ValidFile(BniFile(VERSION, icons, []))
    && Widest(icons) <= 0xFFFF
    && TotalHeight(icons) <= 0xFFFF
  }

  lemma {:induction false} PositiveSizes(icons: seq<Icon>, pics: seq<Picture>)
    requires SizesAgree(icons, pics) && forall i | 0 <= i < |pics| :: Decoded(pics[i])
    ensures icons != [] ==> Widest(icons) >= 1 && TotalHeight(icons) >= 1
  {
    if icons != [] {
      assert SameSize(icons[0], pics[0]);
    }
  }

  lemma PackedComesBack(icons: seq<Icon>, pics: seq<Picture>)
    requires SizesAgree(icons, pics) && forall i | 0 <= i < |pics| :: Decoded(pics[i])
    requires Packable(icons)
    ensures PackedBytes(icons, pics).Ok? && Exported(PackedBytes(icons, pics).value) == Ok((icons, pics))
  {
    hide Build, Parse, Decode, Encode, Stack, CutAll;
    var w, h := Widest(icons), TotalHeight(icons);
    SizesFit(icons, pics);
    PositiveSizes(icons, pics);
    StackLength(pics, w);
    var f := PackedFile(icons, pics);
    ParseBuild(f);
    var rgb := Stack(pics, w);
    AreaIsProduct(w, h);
    DecodeEncode(w, h, rgb);
    var image := Image(w, h, rgb);
    assert rgb[0..] == rgb && pics[0..] == pics;
    CutAllOfStack(image, icons, pics, 0, 0);
  }

  lemma {:induction false} CutAllFits(image: Image, icons: seq<Icon>, index: nat, top: nat)
    requires |image.pixels| == 3 * Area(image.width, image.height) && index <= |icons|
    requires forall i | 0 <= i < |icons| :: icons[i].height > 0
    requires CutAll(image, icons, index, top).Ok? && top <= image.height
    ensures top + TotalHeight(icons[index..]) <= image.height && Widest(icons[index..]) <= image.width
    decreases |icons| - index
  {
    hide Cut;
    if index < |icons| {
      assert icons[index..][1..] == icons[index + 1..];
      CutAllFits(image, icons, index + 1, top + icons[index].height);
    }
  }

  /**
   Main result: packing and exporting gives back every entry and every pixel exactly when the sizes
   agree and the icons fit the format. Wrong sizes are refused, and nothing else comes back whole.
   */
  lemma PackExport(icons: seq<Icon>, pics: seq<Picture>)
    requires |icons| == |pics| && forall i | 0 <= i < |pics| :: Decoded(pics[i])
    ensures PackedBytes(icons, pics).Ok? && Exported(PackedBytes(icons, pics).value) == Ok((icons, pics))
       <==> SizesAgree(icons, pics) && Packable(icons)
  {
    hide Build, Parse, Decode, Encode, Stack, CutAll;
    if SizesAgree(icons, pics) && Packable(icons) {
      PackedComesBack(icons, pics);
    }
    if PackedBytes(icons, pics).Ok? && Exported(PackedBytes(icons, pics).value) == Ok((icons, pics)) {
      var bytes := PackedBytes(icons, pics).value;
      var f := Parse(bytes).value;
      ParsedIsBuilt(bytes);
      assert f.icons == icons;
      ImageSize(f.image);
      var image := Decode(f.image).value;
      forall i | 0 <= i < |icons| ensures icons[i].height > 0 { assert SameSize(icons[i], pics[i]); }
      CutAllFits(image, icons, 0, 0);
      assert icons[0..] == icons;
    }
  }
}
