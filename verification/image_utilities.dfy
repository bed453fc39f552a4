/**
 * ImageUtilities: padding an image with white up to power-of-two
 * dimensions, and cutting it into square tiles.
 */
module ImageUtilities {
  import opened JavaInts
  import opened Images

  /** The largest power of two findPow2 reaches without overflowing an int. */
  const MAX_POW2: int := 0x4000_0000

  function Pow2(k: nat): (n: nat)
    ensures n >= 1
  {
    if k == 0 then 1 else 2 * Pow2(k - 1)
  }

  lemma {:induction false} Pow2Monotone(a: nat, b: nat)
    requires a <= b
    ensures Pow2(a) <= Pow2(b)
    decreases b
  {
    if a < b {
      Pow2Monotone(a, b - 1);
    }
  }

  /** The exponent of the least power of two that is at least size, searching upward from 2^k. */
  function CeilExp(k: nat, size: int): nat
    decreases size - Pow2(k)
  {
    if Pow2(k) >= size then k else CeilExp(k + 1, size)
  }

  /** The least power of two that is at least size. */
  function Pow2Ceil(size: int): nat
  {
    Pow2(CeilExp(0, size))
  }

  lemma {:induction false} CeilExpBounds(k: nat, size: int)
    requires k == 0 || Pow2(k - 1) < size
    ensures Pow2(CeilExp(k, size)) >= size
    ensures CeilExp(k, size) == 0 || Pow2(CeilExp(k, size) - 1) < size
    decreases size - Pow2(k)
  {
    if Pow2(k) < size {
      CeilExpBounds(k + 1, size);
    }
  }

  /** Pow2Ceil(size) is a power of two, at least size, and no larger than any power of two that is at least size. */
  lemma Pow2CeilLeast(size: int)
    ensures Pow2Ceil(size) >= size
    ensures size <= 1 ==> Pow2Ceil(size) == 1
    ensures forall k: nat :: Pow2(k) >= size ==> Pow2Ceil(size) <= Pow2(k)
  {
    var m := CeilExp(0, size);
    CeilExpBounds(0, size);
    forall k: nat | Pow2(k) >= size
      ensures Pow2(m) <= Pow2(k)
    {
      if m == 0 {
        Pow2Monotone(0, k);
      } else if k < m {
        Pow2Monotone(k, m - 1);
      } else {
        Pow2Monotone(m, k);
      }
    }
    if size <= 1 {
      Pow2Monotone(m, 0);
    }
  }

  lemma Pow2CeilOfPow2(k: nat)
    ensures Pow2Ceil(Pow2(k)) == Pow2(k)
  {
    Pow2CeilLeast(Pow2(k));
  }

  /** Pow2Ceil(size) stays below twice size, so it fits an int when size <= 2^30. */
  lemma Pow2CeilBelowDouble(size: int)
    ensures size >= 1 ==> Pow2Ceil(size) < 2 * size
    ensures size <= MAX_POW2 ==> Pow2Ceil(size) <= INT_MAX
  {
    CeilExpBounds(0, size);
  }

  /**
   * findPow2: doubles n from 1 while n < size. Above 2^30 the int doubling
   * wraps and the loop never ends, so the model requires size <= 2^30.
   */
  method FindPow2(size: int) returns (n: int)
    requires size <= MAX_POW2
    ensures n == Pow2Ceil(size)
    ensures 1 <= n <= INT_MAX
  {
    n := 1;
    ghost var k: nat := 0;
    while n < size
      invariant n == Pow2(k)
      invariant k == 0 || Pow2(k - 1) < size
      invariant CeilExp(k, size) == CeilExp(0, size)
      decreases size - n
    {
      n := Wrap32(n * 2);
      k := k + 1;
    }
    Pow2CeilBelowDouble(size);
  }

  /** An image padImageWhite accepts: well formed, with both sides at most 2^30. */
  predicate Paddable(img: Image)
  {
    WellFormed(img) && img.width <= MAX_POW2 && img.height <= MAX_POW2
  }

  /** Pixel (i, j) of the padded image, given the top and left margins dh and dw. */
  function PadPixel(img: Image, dh: int, dw: int, i: int, j: int): Color
    requires WellFormed(img)
  {
    if i < dh || i >= img.height + dh || j < dw || j >= img.width + dw then White
    else img.pixels[i - dh][j - dw]
  }

  /** The margins: half the missing rows go above, half the missing columns to the left (rounded down). */
  function TopMargin(img: Image): int
  {
    (Pow2Ceil(img.height) - img.height) / 2
  }

  function LeftMargin(img: Image): int
  {
    (Pow2Ceil(img.width) - img.width) / 2
  }

  /**
   * The image padImageWhite returns: power-of-two sides, the original in the
   * window starting at the margins, white everywhere else.
   */
  function Padded(img: Image): (r: Image)
    requires Paddable(img)
    ensures WellFormed(r)
    ensures r.width == Pow2Ceil(img.width) && r.height == Pow2Ceil(img.height)
  {
    Pow2CeilBelowDouble(img.height);
    Pow2CeilBelowDouble(img.width);
    var hp, wp := Pow2Ceil(img.height), Pow2Ceil(img.width);
    Image(seq(hp, i requires 0 <= i < hp =>
            seq(wp, j requires 0 <= j < wp => PadPixel(img, TopMargin(img), LeftMargin(img), i, j))),
          wp, hp)
  }

  /** The original sits unchanged in the window at the margins, and everything outside it is white. */
  lemma PaddedWindow(img: Image)
    requires Paddable(img)
    ensures var r, dh, dw := Padded(img), TopMargin(img), LeftMargin(img);
      forall i, j :: 0 <= i < img.height && 0 <= j < img.width ==>
        0 <= i + dh < r.height && 0 <= j + dw < r.width && r.pixels[i + dh][j + dw] == img.pixels[i][j]
    ensures var r, dh, dw := Padded(img), TopMargin(img), LeftMargin(img);
      forall i, j :: 0 <= i < r.height && 0 <= j < r.width && !(dh <= i < dh + img.height && dw <= j < dw + img.width) ==>
        r.pixels[i][j] == White
  {
    Pow2CeilLeast(img.height);
    Pow2CeilLeast(img.width);
  }

  /** An image whose sides are already powers of two is returned pixel for pixel. */
  lemma PadPowersOfTwo(img: Image, a: nat, b: nat)
    requires Paddable(img) && img.width == Pow2(a) && img.height == Pow2(b)
    ensures Padded(img) == img
  {
    Pow2CeilOfPow2(a);
    Pow2CeilOfPow2(b);
    var r := Padded(img);
    assert TopMargin(img) == 0 && LeftMargin(img) == 0;
    forall i | 0 <= i < img.height
      ensures r.pixels[i] == img.pixels[i]
    {
    }
  }

  /** The rows of a two-dimensional array, as sequences. */
  function Grid(a: array2<Color>): (g: seq<seq<Color>>)
    reads a
    ensures |g| == a.Length0
    ensures forall i :: 0 <= i < a.Length0 ==> |g[i]| == a.Length1
    ensures forall i, j :: 0 <= i < a.Length0 && 0 <= j < a.Length1 ==> g[i][j] == a[i, j]
  {
    seq(a.Length0, i requires 0 <= i < a.Length0 reads a =>
      seq(a.Length1, j requires 0 <= j < a.Length1 reads a => a[i, j]))
  }

  /** padImageWhite: fills a fresh power-of-two array cell by cell. */
  method PadImageWhite(image: Image) returns (r: Image)
    requires Paddable(image)
    ensures r == Padded(image)
  {
    var height := image.height;
    var width := image.width;
    var heightPow2 := FindPow2(height);
    var widthPow2 := FindPow2(width);
    var diffHeight := (heightPow2 - height) / 2;
    var diffWidth := (widthPow2 - width) / 2;
    var imagePadded := new Color[heightPow2, widthPow2];
    for i := 0 to heightPow2
      invariant forall i', j :: 0 <= i' < i && 0 <= j < widthPow2 ==>
        imagePadded[i', j] == PadPixel(image, diffHeight, diffWidth, i', j)
    {
      for j := 0 to widthPow2
        invariant forall i', j' :: 0 <= i' < i && 0 <= j' < widthPow2 ==>
          imagePadded[i', j'] == PadPixel(image, diffHeight, diffWidth, i', j')
        invariant forall j' :: 0 <= j' < j ==> imagePadded[i, j'] == PadPixel(image, diffHeight, diffWidth, i, j')
      {
        if i < diffHeight || i >= height + diffHeight || j < diffWidth || j >= width + diffWidth {
          imagePadded[i, j] := White;
        } else {
          imagePadded[i, j] := image.pixels[i - diffHeight][j - diffWidth];
        }
      }
    }
    r := Image(Grid(imagePadded), widthPow2, heightPow2);
    forall i | 0 <= i < heightPow2
      ensures r.pixels[i] == Padded(image).pixels[i]
    {
    }
  }

  /** Tile (i, j) of side s: the s x s block whose top-left pixel is (i*s, j*s). */
  function Tile(img: Image, s: nat, i: nat, j: nat): (t: Image)
    requires WellFormed(img)
    requires i * s + s <= img.height && j * s + s <= img.width
    ensures WellFormed(t) && t.width == s && t.height == s
  {
    Image(seq(s, k requires 0 <= k < s =>
            seq(s, l requires 0 <= l < s => img.pixels[i * s + k][j * s + l])),
          s, s)
  }

  lemma MulLe(a: nat, b: nat, s: nat)
    requires a <= b
    ensures a * s <= b * s
  {
    assert b * s == a * s + (b - a) * s;
  }

  lemma FitsBelow(i: nat, n: nat, s: nat)
    requires s >= 1 && i < n / s
    ensures i * s + s <= n
  {
    var q := n / s;
    assert n == q * s + n % s;
    MulLe(i + 1, q, s);
    assert (i + 1) * s == i * s + s;
  }

  lemma FitsAcross(j: nat, res: nat, w: nat)
    requires j < res <= w
    ensures j * (w / res) + w / res <= w
  {
    var s := w / res;
    assert w == s * res + w % res;
    MulLe(j + 1, res, s);
    assert (j + 1) * s == j * s + s;
  }

  /** The two inner loops of splitByResolution: copy one tile into a fresh array. */
  method CopyTile(image: Image, s: nat, i: nat, j: nat) returns (t: Image)
    requires WellFormed(image)
    requires i * s + s <= image.height && j * s + s <= image.width
    ensures t == Tile(image, s, i, j)
  {
    var subPicture := new Color[s, s];
    for k := 0 to s
      invariant forall k', l :: 0 <= k' < k && 0 <= l < s ==> subPicture[k', l] == image.pixels[i * s + k'][j * s + l]
    {
      for l := 0 to s
        invariant forall k', l' :: 0 <= k' < k && 0 <= l' < s ==> subPicture[k', l'] == image.pixels[i * s + k'][j * s + l']
        invariant forall l' :: 0 <= l' < l ==> subPicture[k, l'] == image.pixels[i * s + k][j * s + l']
      {
        subPicture[k, l] := image.pixels[i * s + k][j * s + l];
      }
    }
    t := Image(Grid(subPicture), s, s);
    forall k | 0 <= k < s
      ensures t.pixels[k] == Tile(image, s, i, j).pixels[k]
    {
    }
  }

  /** Row i of a tiling with side s: its j-th tile is the block at (i*s, j*s). */
  predicate TileRow(image: Image, s: nat, i: nat, row: seq<Image>)
    requires WellFormed(image)
  {
    forall j :: 0 <= j < |row| ==>
      i * s + s <= image.height && j * s + s <= image.width && row[j] == Tile(image, s, i, j)
  }

  lemma TileOfRow(image: Image, s: nat, i: nat, row: seq<Image>, j: nat)
    requires WellFormed(image) && TileRow(image, s, i, row) && j < |row|
    ensures i * s + s <= image.height && j * s + s <= image.width && row[j] == Tile(image, s, i, j)
  {
  }

  /** The middle loop of splitByResolution: the res tiles of row i. */
  method SplitRow(image: Image, s: nat, res: nat, i: nat) returns (row: seq<Image>)
    requires WellFormed(image) && 1 <= res <= image.width && s == image.width / res
    requires i * s + s <= image.height
    ensures |row| == res && TileRow(image, s, i, row)
  {
    row := [];
    var j := 0;
    while j < res
      invariant 0 <= j <= res
      invariant |row| == j && TileRow(image, s, i, row)
    {
      FitsAcross(j, res, image.width);
      var subImage := CopyTile(image, s, i, j);
      row := row + [subImage];
      j := j + 1;
    }
  }

  /**
   * splitByResolution: with tile side s = width / res, height / s rows of
   * exactly res tiles, tile (i, j) being the block at (i*s, j*s). A res
   * above the width makes s zero and the loop bound divide by zero, so the
   * model requires 1 <= res <= width.
   */
  method SplitByResolution(image: Image, res: int) returns (tiles: seq<seq<Image>>)
    requires WellFormed(image) && 1 <= res <= image.width
    ensures var s := image.width / res;
      && s >= 1
      && |tiles| == image.height / s
      && forall i :: 0 <= i < |tiles| ==> |tiles[i]| == res && TileRow(image, s, i, tiles[i])
  {
    var lstOfLst: seq<seq<Image>> := [];
    var sizeSubPct := image.width / res;
    var i := 0;
    while i < image.height / sizeSubPct
      invariant 0 <= i <= image.height / sizeSubPct
      invariant |lstOfLst| == i
      invariant forall i' :: 0 <= i' < i ==> |lstOfLst[i']| == res && TileRow(image, sizeSubPct, i', lstOfLst[i'])
    {
      FitsBelow(i, image.height, sizeSubPct);
      var lstOfImages := SplitRow(image, sizeSubPct, res, i);
      lstOfLst := lstOfLst + [lstOfImages];
      i := i + 1;
    }
    tiles := lstOfLst;
  }
}
