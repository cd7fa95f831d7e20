/** Where each byte of a packed picture and of a cut icon comes from, and why packing or exporting is refused. */
module PackPlaces {
  import opened Bytes
  import opened Tga
  import opened TgaCodec
  import opened Bni
  import opened Pack

  // ---- Packing ----

  /** Byte `k` of row `y` of a padded picture: the picture's own, and black behind its width. */
  lemma {:induction false} PaddedByte(rgb: seq<byte>, at: nat, w: nat, h: nat, width: nat, y: nat, k: nat)
    requires at + 3 * Area(w, h) <= |rgb| && w <= width && y < h && k < 3 * width
    ensures 3 * Area(width, y) + k < 3 * Area(width, h)
    ensures Padded(rgb, at, w, h, width)[3 * Area(width, y) + k] ==
      if k < 3 * w && at + 3 * Area(w, y) + k < |rgb| then rgb[at + 3 * Area(w, y) + k] else 0
    ensures k < 3 * w ==> at + 3 * Area(w, y) + k < |rgb|
    decreases h
  {
    hide Padded, Area;
    RowInside(width, h, y);
    RowInside(w, h, y);
    PaddedStep(rgb, at, w, h, width);
    RowInside(width, h, 0);
    AreaSum(width, 0, 0);
    AreaSum(w, 0, 0);
    var row := rgb[at..at + 3 * w] + Zeros(3 * (width - w));
    if y > 0 {
      RowInside(w, h, 0);
      AreaSum(width, 1, y - 1);
      AreaSum(w, 1, y - 1);
      AreaSum(w, 1, h - 1);
      AreaSum(width, 1, h - 1);
      PaddedByte(rgb, at + 3 * w, w, h - 1, width, y - 1, k);
      Second(row, Padded(rgb, at + 3 * w, w, h - 1, width), 3 * Area(width, y - 1) + k);
    } else {
      First(row, Padded(rgb, at + 3 * w, w, h - 1, width), k);
    }
  }

  lemma First(a: seq<byte>, b: seq<byte>, i: nat)
    requires i < |a|
    ensures (a + b)[i] == a[i]
  {
  }

  lemma Second(a: seq<byte>, b: seq<byte>, i: nat)
    requires i < |b|
    ensures |a| + i < |a + b| && (a + b)[|a| + i] == b[i]
  {
  }

  /** Picture `i` stands below all those before it. */
  lemma {:induction false} StackedBlock(pics: seq<Picture>, width: nat, i: nat)
    requires (forall j | 0 <= j < |pics| :: Decoded(pics[j]) && pics[j].width <= width) && i < |pics|
    ensures
      var (p, top) := (pics[i], 3 * Area(width, Heights(pics[..i])));
      && top + 3 * Area(width, p.height) <= |Stack(pics, width)|
      && Stack(pics, width)[top..top + 3 * Area(width, p.height)] == Padded(p.rgb, 0, p.width, p.height, width)
    decreases |pics|
  {
    hide Padded, Area;
    var p := pics[0];
    var block, rest := Padded(p.rgb, 0, p.width, p.height, width), Stack(pics[1..], width);
    assert Decoded(p);
    if i == 0 {
      assert pics[..0] == [];
      AreaSum(width, 0, 0);
      assert (block + rest)[..|block|] == block;
    } else {
      StackedBlock(pics[1..], width, i - 1);
      assert pics[..i][1..] == pics[1..][..i - 1];
      AreaSum(width, p.height, Heights(pics[1..][..i - 1]));
      Inner(block, rest, 3 * Area(width, Heights(pics[1..][..i - 1])), 3 * Area(width, pics[i].height));
    }
  }

  lemma Inner(a: seq<byte>, b: seq<byte>, at: nat, n: nat)
    requires at + n <= |b|
    ensures |a| + at + n <= |a + b| && (a + b)[|a| + at..|a| + at + n] == b[at..at + n]
  {
  }

  /** Packing is refused without icons, or for the first picture of a wrong size; icons the format can hold are packed. */
  lemma PackRefusedIff(icons: seq<Icon>, pics: seq<Picture>, i: nat)
    requires |icons| == |pics| && forall j | 0 <= j < |pics| :: Decoded(pics[j])
    ensures
      var r := PackedBytes(icons, pics);
      && (r == Err(NoIcons) <==> icons == [])
      && (i < |icons| ==>
            (r == Err(WrongSize(i)) <==> !SameSize(icons[i], pics[i]) && forall j | 0 <= j < i :: SameSize(icons[j], pics[j])))
      && (icons != [] && SizesAgree(icons, pics) && ValidFile(BniFile(VERSION, icons, [])) ==> r.Ok?)
  {
    hide Build, Parse, Encode, Stack;
    WrongSizeIsFirst(icons, pics, 0);
    if icons != [] && SizesAgree(icons, pics) { ParseBuild(PackedFile(icons, pics)); }
  }

  lemma {:induction false} WrongSizeIsFirst(icons: seq<Icon>, pics: seq<Picture>, i: nat)
    requires |icons| == |pics| && i <= |pics|
    ensures
      var r := FirstWrongSize(icons, pics, i);
      r.Some? ==>
        && i <= r.value < |pics| && !SameSize(icons[r.value], pics[r.value])
        && forall j | i <= j < r.value :: SameSize(icons[j], pics[j])
    decreases |pics| - i
  {
    if i < |pics| && SameSize(icons[i], pics[i]) { WrongSizeIsFirst(icons, pics, i + 1); }
  }

  // ---- Exporting ----

  /** Byte `k` of row `y` of a cut is the one at the same place of the same row. */
  lemma {:induction false} CutByte(rows: seq<byte>, at: nat, width: nat, w: nat, h: nat, y: nat, k: nat)
    requires at + 3 * Area(width, h) <= |rows| && w <= width && y < h && k < 3 * w
    ensures |Cut(rows, at, width, w, h)| == 3 * Area(w, h)
    ensures 3 * Area(w, y) + k < 3 * Area(w, h) && at + 3 * Area(width, y) + k < |rows|
    ensures Cut(rows, at, width, w, h)[3 * Area(w, y) + k] == rows[at + 3 * Area(width, y) + k]
    decreases h
  {
    hide Cut, Area;
    RowInside(width, h, y);
    RowInside(w, h, y);
    RowInside(width, h, 0);
    AreaSum(width, 0, 0);
    AreaSum(w, 0, 0);
    AreaSum(w, 1, h - 1);
    AreaSum(width, 1, h - 1);
    RowInside(w, h, 0);
    CutStep(rows, at, width, w, h);
    var row, rest := rows[at..at + 3 * w], Cut(rows, at + 3 * width, width, w, h - 1);
    CutLength(rows, at + 3 * width, width, w, h - 1);
    if y > 0 {
      AreaSum(width, 1, y - 1);
      AreaSum(w, 1, y - 1);
      CutByte(rows, at + 3 * width, width, w, h - 1, y - 1, k);
      Second(row, rest, 3 * Area(w, y - 1) + k);
    } else {
      First(row, rest, k);
    }
  }

  lemma CutStep(rows: seq<byte>, at: nat, width: nat, w: nat, h: nat)
    requires at + 3 * Area(width, h) <= |rows| && w <= width && h > 0
    ensures at + 3 * width + 3 * Area(width, h - 1) <= |rows|
    ensures Cut(rows, at, width, w, h) == rows[at..at + 3 * w] + Cut(rows, at + 3 * width, width, w, h - 1)
  {
  }

  lemma {:induction false} CutLength(rows: seq<byte>, at: nat, width: nat, w: nat, h: nat)
    requires at + 3 * Area(width, h) <= |rows| && w <= width
    ensures |Cut(rows, at, width, w, h)| == 3 * Area(w, h)
    decreases h
  {
    if h > 0 { CutLength(rows, at + 3 * width, width, w, h - 1); }
  }

  /** Icon `i`'s rows lie inside the image. */
  predicate Reaches(image: Image, icons: seq<Icon>, i: nat)
    requires i < |icons|
  {
    IconYOffset(icons, i) + icons[i].height <= image.height
  }

  /** The icon is no wider than the image, or has no rows at all. */
  predicate FitsAcross(image: Image, icon: Icon) {
    icon.width <= image.width || icon.height == 0
  }

  predicate Fits(image: Image, icons: seq<Icon>, i: nat)
    requires i < |icons|
  {
    Reaches(image, icons, i) && FitsAcross(image, icons[i])
  }

  /** Cutting from `top` on is cutting the rest of the icons out of what lies below. */
  lemma {:induction false} CutFrom(image: Image, icons: seq<Icon>, index: nat, i: nat)
    requires |image.pixels| == 3 * Area(image.width, image.height) && index <= i < |icons|
    ensures
      var r := CutAll(image, icons, index, IconYOffset(icons, index));
      && (r == Err(ImageEnds(i)) <==> !Reaches(image, icons, i) && forall j | index <= j < i :: Fits(image, icons, j))
      && (r == Err(WiderThanImage(i)) <==>
            Reaches(image, icons, i) && !FitsAcross(image, icons[i]) && forall j | index <= j < i :: Fits(image, icons, j))
    decreases |icons| - index
  {
    hide Cut, IconYOffset;
    NextOffset(icons, index);
    var top := IconYOffset(icons, index);
    if index == i {
      if Fits(image, icons, i) { LaterFaults(image, icons, i + 1, top + icons[i].height); }
    } else {
      CutFrom(image, icons, index + 1, i);
      assert (forall j | index <= j < i :: Fits(image, icons, j)) <==>
        Fits(image, icons, index) && forall j | index + 1 <= j < i :: Fits(image, icons, j);
    }
  }

  lemma NextOffset(icons: seq<Icon>, i: nat)
    requires i < |icons|
    ensures IconYOffset(icons, i + 1) == IconYOffset(icons, i) + icons[i].height
  {
    HeightOfMore(icons[..i], icons[i]);
    assert icons[..i + 1] == icons[..i] + [icons[i]];
  }

  lemma {:induction false} HeightOfMore(icons: seq<Icon>, icon: Icon)
    ensures TotalHeight(icons + [icon]) == TotalHeight(icons) + icon.height
    decreases |icons|
  {
    if icons == [] {
      assert icons + [icon] == [icon] && [icon][1..] == [];
    } else {
      HeightOfMore(icons[1..], icon);
      assert (icons + [icon])[1..] == icons[1..] + [icon];
    }
  }

  lemma {:induction false} LaterFaults(image: Image, icons: seq<Icon>, index: nat, top: nat)
    requires |image.pixels| == 3 * Area(image.width, image.height) && index <= |icons|
    ensures
      var r := CutAll(image, icons, index, top);
      r.Err? ==> (r.error.ImageEnds? || r.error.WiderThanImage?) && r.error.index >= index
    decreases |icons| - index
  {
    hide Cut;
    if index < |icons| && top + icons[index].height <= image.height {
      LaterFaults(image, icons, index + 1, top + icons[index].height);
    }
  }

  /** Main result for exporting: it stops at the first icon that reaches below the image or beside it, and at nothing else. */
  lemma CutRefusedIff(image: Image, icons: seq<Icon>, i: nat)
    requires |image.pixels| == 3 * Area(image.width, image.height) && i < |icons|
    ensures
      var r := CutAll(image, icons, 0, 0);
      && (r == Err(ImageEnds(i)) <==> !Reaches(image, icons, i) && forall j | 0 <= j < i :: Fits(image, icons, j))
      && (r == Err(WiderThanImage(i)) <==>
            Reaches(image, icons, i) && !FitsAcross(image, icons[i]) && forall j | 0 <= j < i :: Fits(image, icons, j))
  {
    hide CutAll;
    assert IconYOffset(icons, 0) == 0;
    CutFrom(image, icons, 0, i);
  }
}
