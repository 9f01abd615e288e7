/**
 * maskImage (src/regionLabeling.js:357-386): the pixels of the image grouped
 * by colour, in raster order, the colours in order of first appearance (the
 * keys of colorRegionCoordinates are JSON strings, which an object iterates
 * in insertion order); then the first grey [v, v, v, 255], v < 255, that is
 * not among the colours becomes the background colour.
 */
module RegionMask {
  import opened Helper
  import opened ComponentSpec

  /** One entry of colorRegionCoordinates: a colour and its pixels [x, y]. */
  datatype ColourRegion = ColourRegion(colour: Pixel, coords: seq<Coord>)

  /** The index of the region of colour col, or |rs| when there is none. */
  function RegionOf(rs: seq<ColourRegion>, col: Pixel): (k: nat)
    ensures k <= |rs|
    ensures k < |rs| ==> rs[k].colour == col
    ensures forall l :: 0 <= l < k ==> rs[l].colour != col
  {
    if rs == [] then 0
    else if rs[0].colour == col then 0
    else 1 + RegionOf(rs[1..], col)
  }

  /** The pixel c of colour col pushed onto its colour's list, or a new list. */
  function Record(rs: seq<ColourRegion>, col: Pixel, c: Coord): seq<ColourRegion>
  {
    var k := RegionOf(rs, col);
    if k == |rs| then rs + [ColourRegion(col, [c])]
    else rs[k := ColourRegion(col, rs[k].coords + [c])]
  }

  /** colorRegionCoordinates after the first i rows and j more pixels of row i. */
  function MaskUpTo(img: seq<seq<Pixel>>, w: nat, i: nat, j: nat): seq<ColourRegion>
    requires Rectangular(img, w) && i <= |img| && j <= w && (i == |img| ==> j == 0)
    decreases i, j
  {
    if j > 0 then Record(MaskUpTo(img, w, i, j - 1), img[i][j - 1], Coord(j - 1, i))
    else if i == 0 then []
    else MaskUpTo(img, w, i - 1, w)
  }

  /** colorRegionCoordinates for the whole image. */
  function Mask(img: seq<seq<Pixel>>): seq<ColourRegion>
    requires |img| > 0 && Rectangular(img, |img[0]|)
  {
    MaskUpTo(img, |img[0]|, |img|, 0)
  }

  function Grey(v: int): Pixel
  {
    Pixel(v, v, v, 255)
  }

  /** The first v in v0 .. 254 whose grey is not among the colours. */
  function FreeGrey(rs: seq<ColourRegion>, v0: nat): Option<nat>
    decreases 255 - v0
  {
    if v0 >= 255 then None
    else if RegionOf(rs, Grey(v0)) == |rs| then Some(v0)
    else FreeGrey(rs, v0 + 1)
  }

  class RegionLabeling {
    var dimensionalArr: seq<seq<Pixel>>
    var backgroundColor: Pixel

    constructor (dimensionalArr: seq<seq<Pixel>>)
      ensures this.dimensionalArr == dimensionalArr && backgroundColor == BACKGROUND_COLOR
    {
      this.dimensionalArr := dimensionalArr;
      backgroundColor := BACKGROUND_COLOR;
    }

    /** maskImage: the colour regions, and the first free grey as background when there is one. */
    method MaskImage() returns (colorRegionCoordinates: seq<ColourRegion>)
      requires |dimensionalArr| > 0 && Rectangular(dimensionalArr, |dimensionalArr[0]|)
      modifies this
      ensures dimensionalArr == old(dimensionalArr)
      ensures colorRegionCoordinates == Mask(dimensionalArr)
      ensures backgroundColor == match FreeGrey(colorRegionCoordinates, 0)
        case Some(v) => Grey(v)
        case None => old(backgroundColor)
    {
      colorRegionCoordinates := ScanColours(dimensionalArr);
      var free := FirstFreeGrey(colorRegionCoordinates);
      if free.Some? {
        backgroundColor := Grey(free.value);
      }
    }
  }

  /** The double loop of maskImage over rows and columns. */
  method ScanColours(img: seq<seq<Pixel>>) returns (regions: seq<ColourRegion>)
    requires |img| > 0 && Rectangular(img, |img[0]|)
    ensures regions == Mask(img)
  {
    var height, width := |img|, |img[0]|;
    regions := [];
    for i := 0 to height
      invariant regions == MaskUpTo(img, width, i, 0)
    {
      for j := 0 to width
        invariant regions == MaskUpTo(img, width, i, j)
      {
        regions := Record(regions, img[i][j], Coord(j, i));
      }
    }
  }

  /** The loop over v in 0 .. 254 looking for a grey not among the colours. */
  method FirstFreeGrey(regions: seq<ColourRegion>) returns (free: Option<nat>)
    ensures free == FreeGrey(regions, 0)
  {
    for v := 0 to 255
      invariant FreeGrey(regions, 0) == FreeGrey(regions, v)
    {
      var k := IndexOfColour(regions, Grey(v));
      if k == |regions| {
        return Some(v);
      }
    }
    return None;
  }

  /** The lookup colorRegionCoordinates[color]: the position of its entry, or |regions|. */
  method IndexOfColour(regions: seq<ColourRegion>, col: Pixel) returns (k: nat)
    ensures k == RegionOf(regions, col)
  {
    k := 0;
    while k < |regions| && regions[k].colour != col
      invariant k <= |regions|
      invariant forall l :: 0 <= l < k ==> regions[l].colour != col
    {
      k := k + 1;
    }
    RegionOfFirst(regions, col, k);
  }

  /** RegionOf is the first index holding col. */
  lemma RegionOfFirst(rs: seq<ColourRegion>, col: Pixel, k: nat)
    requires k <= |rs| && (k < |rs| ==> rs[k].colour == col)
    requires forall l :: 0 <= l < k ==> rs[l].colour != col
    ensures RegionOf(rs, col) == k
  {
  }

  // ---------------------------------------------------------------------------
  // What the regions are
  // ---------------------------------------------------------------------------

  /** c comes before pixel (j, i) in raster order. */
  predicate Scanned(c: Coord, i: int, j: int)
  {
    c.y < i || (c.y == i && c.x < j)
  }

  predicate InImage(h: int, w: int, c: Coord)
  {
    0 <= c.y < h && 0 <= c.x < w
  }

  /** No colour has two entries. */
  predicate DistinctColours(rs: seq<ColourRegion>)
  {
    forall l, m :: 0 <= l < m < |rs| ==> rs[l].colour != rs[m].colour
  }

  /** Every list is non-empty and in raster order, and the lists come in order of their first pixels. */
  predicate FirstAppearance(rs: seq<ColourRegion>)
  {
    && (forall l :: 0 <= l < |rs| ==> rs[l].coords != [] && RasterIncreasing(rs[l].coords))
    && (forall l, m :: 0 <= l < m < |rs| ==> RasterBefore(rs[l].coords[0], rs[m].coords[0]))
  }

  /** Every listed pixel is a scanned pixel of the image, of its list's colour. */
  predicate Coloured(img: seq<seq<Pixel>>, w: nat, rs: seq<ColourRegion>, i: int, j: int)
    requires Rectangular(img, w)
  {
    forall l, t :: 0 <= l < |rs| && 0 <= t < |rs[l].coords| ==>
      var c := rs[l].coords[t];
      InImage(|img|, w, c) && Scanned(c, i, j) && img[c.y][c.x] == rs[l].colour
  }

  /** Every scanned pixel of the image is listed. */
  ghost predicate Covers(img: seq<seq<Pixel>>, w: nat, rs: seq<ColourRegion>, i: int, j: int)
  {
    forall c :: InImage(|img|, w, c) && Scanned(c, i, j) ==> exists l :: 0 <= l < |rs| && c in rs[l].coords
  }

  /**
   * What the regions are after the scan reaches pixel (j, i): one per colour,
   * in order of first appearance, each listing in raster order the scanned
   * pixels of its colour, and every scanned pixel listed.
   */
  ghost predicate Partition(img: seq<seq<Pixel>>, w: nat, rs: seq<ColourRegion>, i: int, j: int)
    requires Rectangular(img, w)
  {
    DistinctColours(rs) && FirstAppearance(rs) && Coloured(img, w, rs, i, j) && Covers(img, w, rs, i, j)
  }

  /**
   * The regions of maskImage partition the image by colour: colours are
   * distinct and listed by first appearance, every list is non-empty and in
   * raster order, every listed pixel has its list's colour, and every pixel
   * of the image is listed.
   */
  lemma MaskSpec(img: seq<seq<Pixel>>)
    requires |img| > 0 && Rectangular(img, |img[0]|)
    ensures Partition(img, |img[0]|, Mask(img), |img|, 0)
    ensures forall c :: InImage(|img|, |img[0]|, c) ==>
      exists l :: 0 <= l < |Mask(img)| && c in Mask(img)[l].coords && Mask(img)[l].colour == img[c.y][c.x]
  {
    var w := |img[0]|;
    var rs := Mask(img);
    MaskUpToPartition(img, w, |img|, 0);
    forall c | InImage(|img|, w, c)
      ensures exists l :: 0 <= l < |rs| && c in rs[l].coords && rs[l].colour == img[c.y][c.x]
    {
      var l :| 0 <= l < |rs| && c in rs[l].coords;
      var t :| 0 <= t < |rs[l].coords| && rs[l].coords[t] == c;
    }
  }

  lemma {:induction false} MaskUpToPartition(img: seq<seq<Pixel>>, w: nat, i: nat, j: nat)
    requires Rectangular(img, w) && i <= |img| && j <= w && (i == |img| ==> j == 0)
    ensures Partition(img, w, MaskUpTo(img, w, i, j), i, j)
    decreases i, j
  {
    hide Partition, Record;
    if j > 0 {
      MaskUpToPartition(img, w, i, j - 1);
      RecordStep(img, w, MaskUpTo(img, w, i, j - 1), i, j - 1);
    } else if i > 0 {
      MaskUpToPartition(img, w, i - 1, w);
      RowWrap(img, w, MaskUpTo(img, w, i - 1, w), i - 1);
    } else {
      NothingScanned(img, w);
    }
  }

  lemma NothingScanned(img: seq<seq<Pixel>>, w: nat)
    requires Rectangular(img, w)
    ensures Partition(img, w, [], 0, 0)
  {
  }

  /** The end of row i is the start of row i + 1. */
  lemma RowWrap(img: seq<seq<Pixel>>, w: nat, rs: seq<ColourRegion>, i: int)
    requires Rectangular(img, w) && Partition(img, w, rs, i, w)
    ensures Partition(img, w, rs, i + 1, 0)
  {
    hide DistinctColours, FirstAppearance;
    forall l, t | 0 <= l < |rs| && 0 <= t < |rs[l].coords|
      ensures Scanned(rs[l].coords[t], i + 1, 0)
    {
    }
    forall c | InImage(|img|, w, c) && Scanned(c, i + 1, 0)
      ensures exists l :: 0 <= l < |rs| && c in rs[l].coords
    {
      assert Scanned(c, i, w);
    }
  }

  /** Recording pixel (j, i) extends the partition by that pixel. */
  lemma RecordStep(img: seq<seq<Pixel>>, w: nat, rs: seq<ColourRegion>, i: nat, j: nat)
    requires Rectangular(img, w) && i < |img| && j < w && Partition(img, w, rs, i, j)
    ensures Partition(img, w, Record(rs, img[i][j], Coord(j, i)), i, j + 1)
  {
    hide DistinctColours, FirstAppearance, Coloured, Covers, Record;
    RecordColours(rs, img[i][j], Coord(j, i));
    RecordOrder(img, w, rs, i, j);
    RecordColoured(img, w, rs, i, j);
    RecordCovers(img, w, rs, i, j);
  }

  lemma RecordColours(rs: seq<ColourRegion>, col: Pixel, c: Coord)
    requires DistinctColours(rs)
    ensures DistinctColours(Record(rs, col, c))
  {
  }

  /** Every listed pixel comes before the pixel being recorded. */
  lemma ListedBefore(img: seq<seq<Pixel>>, w: nat, rs: seq<ColourRegion>, i: nat, j: nat)
    requires Rectangular(img, w) && Coloured(img, w, rs, i, j)
    ensures forall l, t :: 0 <= l < |rs| && 0 <= t < |rs[l].coords| ==> RasterBefore(rs[l].coords[t], Coord(j, i))
  {
  }

  lemma RecordOrder(img: seq<seq<Pixel>>, w: nat, rs: seq<ColourRegion>, i: nat, j: nat)
    requires Rectangular(img, w) && i < |img| && j < w && FirstAppearance(rs) && Coloured(img, w, rs, i, j)
    ensures FirstAppearance(Record(rs, img[i][j], Coord(j, i)))
  {
    var c := Coord(j, i);
    var k := RegionOf(rs, img[i][j]);
    var rs' := Record(rs, img[i][j], c);
    ListedBefore(img, w, rs, i, j);
    hide Coloured;
    if k < |rs| {
      assert rs'[k].coords == rs[k].coords + [c];
      forall a, b | 0 <= a < b < |rs'[k].coords|
        ensures RasterBefore(rs'[k].coords[a], rs'[k].coords[b])
      {
        if b == |rs[k].coords| {
          assert rs'[k].coords[a] == rs[k].coords[a];
        }
      }
      assert RasterIncreasing(rs'[k].coords);
    }
  }

  lemma RecordColoured(img: seq<seq<Pixel>>, w: nat, rs: seq<ColourRegion>, i: nat, j: nat)
    requires Rectangular(img, w) && i < |img| && j < w && Coloured(img, w, rs, i, j)
    ensures Coloured(img, w, Record(rs, img[i][j], Coord(j, i)), i, j + 1)
  {
    var c := Coord(j, i);
    var k := RegionOf(rs, img[i][j]);
    var rs' := Record(rs, img[i][j], c);
    if k < |rs| {
      forall t | 0 <= t < |rs'[k].coords|
        ensures rs'[k].coords[t] == if t < |rs[k].coords| then rs[k].coords[t] else c
      {
      }
    }
  }

  lemma RecordCovers(img: seq<seq<Pixel>>, w: nat, rs: seq<ColourRegion>, i: nat, j: nat)
    requires Rectangular(img, w) && i < |img| && j < w && Covers(img, w, rs, i, j)
    ensures Covers(img, w, Record(rs, img[i][j], Coord(j, i)), i, j + 1)
  {
    var c := Coord(j, i);
    var k := RegionOf(rs, img[i][j]);
    var rs' := Record(rs, img[i][j], c);
    forall c' | InImage(|img|, w, c') && Scanned(c', i, j + 1)
      ensures exists l :: 0 <= l < |rs'| && c' in rs'[l].coords
    {
      if c' == c {
        assert c in rs'[if k < |rs| then k else |rs|].coords;
      } else {
        assert Scanned(c', i, j);
        var l :| 0 <= l < |rs| && c' in rs[l].coords;
        assert c' in rs'[l].coords;
      }
    }
  }

  /**
   * The background colour maskImage picks is a grey missing from the image,
   * and every grey with a smaller v is present; when every grey
   * 0 .. 254 is present it keeps the old background.
   */
  lemma FreeGreySpec(rs: seq<ColourRegion>, v0: nat)
    ensures FreeGrey(rs, v0).Some? ==> var v := FreeGrey(rs, v0).value;
      && v0 <= v < 255
      && (forall l :: 0 <= l < |rs| ==> rs[l].colour != Grey(v))
      && (forall u :: v0 <= u < v ==> exists l :: 0 <= l < |rs| && rs[l].colour == Grey(u))
    ensures FreeGrey(rs, v0).None? ==> forall u :: v0 <= u < 255 ==> exists l :: 0 <= l < |rs| && rs[l].colour == Grey(u)
    decreases 255 - v0
  {
    if v0 < 255 {
      var k := RegionOf(rs, Grey(v0));
      if k < |rs| {
        FreeGreySpec(rs, v0 + 1);
      }
    }
  }
}
