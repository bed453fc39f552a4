/**
 * Image: a final pixel grid with its width and height, structural equality
 * and a fold-style hash code.
 */
module Images {
  import opened Wrappers
  import opened JavaInts

  const ONEPRIME: int := 5
  const ANOTHERPRIME: int := 11
  /** The channel value of white. */
  const WHITECOLOR: Channel := 255

  type Channel = x: int | 0 <= x < 256

  /** An opaque-alpha colour (java.awt.Color as the program creates it). */
  datatype Color = Color(red: Channel, green: Channel, blue: Channel)

  const White: Color := Color(WHITECOLOR, WHITECOLOR, WHITECOLOR)

  /** Color.hashCode: its ARGB value with alpha 255, as a signed 32-bit int. */
  function ColorHash(c: Color): (h: int)
    ensures IsInt(h)
  {
    Wrap32(0xFF00_0000 + c.red * 0x1_0000 + c.green * 0x100 + c.blue)
  }

  /**
   * An image built by Image(Color[][], int, int): the row-major pixel array
   * (first index the row), the width and the height, stored as given. The
   * getters getWidth, getHeight and getPixel(x, y) are the fields and
   * pixels[x][y].
   */
  datatype Image = Image(pixels: seq<seq<Color>>, width: int, height: int)

  /** The array has height rows of width pixels each (the program only builds such images). */
  predicate WellFormed(img: Image)
  {
    && 0 <= img.width <= INT_MAX
    && img.height == |img.pixels| <= INT_MAX
    && forall i :: 0 <= i < |img.pixels| ==> |img.pixels[i]| == img.width
  }

  /** Same width, same height and equal pixels everywhere in the height x width grid. */
  predicate SameImage(a: Image, b: Image)
    requires WellFormed(a) && WellFormed(b)
  {
    && a.width == b.width && a.height == b.height
    && forall i, j :: 0 <= i < a.height && 0 <= j < a.width ==> a.pixels[i][j] == b.pixels[i][j]
  }

  lemma SameImageReflexive(a: Image)
    requires WellFormed(a)
    ensures SameImage(a, a)
  {
  }

  lemma SameImageSymmetric(a: Image, b: Image)
    requires WellFormed(a) && WellFormed(b)
    ensures SameImage(a, b) <==> SameImage(b, a)
  {
  }

  /**
   * equals(Object): false for anything that is not an image (None) and for a
   * different width or height; otherwise true exactly when every pixel is
   * equal, scanning row by row and stopping at the first difference.
   */
  method Equals(img: Image, other: Option<Image>) returns (r: bool)
    requires WellFormed(img) && (other.Some? ==> WellFormed(other.value))
    ensures r <==> other.Some? && SameImage(img, other.value)
  {
    if other.None? {
      return false;
    }
    var otherImage := other.value;
    if img.width != otherImage.width || img.height != otherImage.height {
      return false;
    }
    var i := 0;
    while i < img.height
      invariant 0 <= i <= img.height
      invariant forall i', j :: 0 <= i' < i && 0 <= j < img.width ==> img.pixels[i'][j] == otherImage.pixels[i'][j]
    {
      var j := 0;
      while j < img.width
        invariant 0 <= j <= img.width
        invariant forall j' :: 0 <= j' < j ==> img.pixels[i][j'] == otherImage.pixels[i][j']
      {
        if img.pixels[i][j] != otherImage.pixels[i][j] {
          return false;
        }
        j := j + 1;
      }
      i := i + 1;
    }
    return true;
  }

  /** One step of the hash: result = 11 * result + x in int arithmetic. */
  function HashStep(acc: int, x: int): (r: int)
    ensures IsInt(r)
  {
    Wrap32(ANOTHERPRIME * acc + x)
  }

  /** The hash steps applied to xs from left to right, starting at acc. */
  function HashFold(acc: int, xs: seq<int>): int
    decreases |xs|
  {
    if xs == [] then acc else HashStep(HashFold(acc, xs[..|xs| - 1]), xs[|xs| - 1])
  }

  /** The hash codes of the pixels of one row, left to right. */
  function RowHashes(row: seq<Color>): (hs: seq<int>)
    ensures |hs| == |row|
    ensures forall k :: 0 <= k < |row| ==> hs[k] == ColorHash(row[k])
  {
    seq(|row|, k requires 0 <= k < |row| => ColorHash(row[k]))
  }

  /** The hash codes of all pixels of the rows, in row-major order. */
  function CellHashes(rows: seq<seq<Color>>): seq<int>
    decreases |rows|
  {
    if rows == [] then [] else CellHashes(rows[..|rows| - 1]) + RowHashes(rows[|rows| - 1])
  }

  /** hashCode: the fold from 5 over the width, the height and then every pixel's hash in row-major order. */
  function ImageHash(img: Image): int
  {
    HashFold(ONEPRIME, [img.width, img.height] + CellHashes(img.pixels))
  }

  lemma HashFoldSnoc(acc: int, xs: seq<int>, x: int)
    ensures HashFold(acc, xs + [x]) == HashStep(HashFold(acc, xs), x)
  {
    assert (xs + [x])[..|xs|] == xs;
  }

  /** Folding one more element of hs after done is one more hash step. */
  lemma FoldPrefixNext(done: seq<int>, hs: seq<int>, j: nat)
    requires j < |hs|
    ensures HashFold(ONEPRIME, done + hs[..j + 1]) == HashStep(HashFold(ONEPRIME, done + hs[..j]), hs[j])
  {
    HashFoldSnoc(ONEPRIME, done + hs[..j], hs[j]);
    assert hs[..j + 1] == hs[..j] + [hs[j]];
    assert done + hs[..j] + [hs[j]] == done + hs[..j + 1];
  }

  /** The inner loop of hashCode: folds one row's pixel hashes into the running result. */
  method HashRow(start: int, ghost done: seq<int>, row: seq<Color>) returns (result: int)
    requires start == HashFold(ONEPRIME, done) && IsInt(start)
    ensures result == HashFold(ONEPRIME, done + RowHashes(row)) && IsInt(result)
  {
    result := start;
    ghost var hs := RowHashes(row);
    assert done + hs[..0] == done;
    var j := 0;
    while j < |row|
      invariant 0 <= j <= |row|
      invariant result == HashFold(ONEPRIME, done + hs[..j]) && IsInt(result)
    {
      FoldPrefixNext(done, hs, j);
      result := HashStep(result, ColorHash(row[j]));
      j := j + 1;
    }
    assert hs[..j] == hs;
  }

  lemma HeaderFold(width: int, height: int)
    ensures HashFold(ONEPRIME, [width, height]) == HashStep(HashStep(ONEPRIME, width), height)
  {
    HashFoldSnoc(ONEPRIME, [], width);
    assert [] + [width] == [width];
    HashFoldSnoc(ONEPRIME, [width], height);
    assert [width] + [height] == [width, height];
  }

  lemma CellHashesSnoc(header: seq<int>, rows: seq<seq<Color>>, i: nat)
    requires i < |rows|
    ensures header + CellHashes(rows[..i]) + RowHashes(rows[i]) == header + CellHashes(rows[..i + 1])
  {
    assert rows[..i + 1][..i] == rows[..i];
  }

  /** hashCode's nested loop computes ImageHash. */
  method HashCode(img: Image) returns (result: int)
    requires WellFormed(img)
    ensures result == ImageHash(img)
    ensures IsInt(result)
  {
    result := ONEPRIME;
    result := HashStep(result, img.width);
    result := HashStep(result, img.height);
    ghost var header := [img.width, img.height];
    HeaderFold(img.width, img.height);
    assert header + CellHashes(img.pixels[..0]) == header;
    var i := 0;
    while i < img.height
      invariant 0 <= i <= img.height
      invariant result == HashFold(ONEPRIME, header + CellHashes(img.pixels[..i])) && IsInt(result)
    {
      result := HashRow(result, header + CellHashes(img.pixels[..i]), img.pixels[i]);
      CellHashesSnoc(header, img.pixels, i);
      i := i + 1;
    }
    assert img.pixels[..i] == img.pixels;
  }

  /** Images that equals accepts have the same hash code. */
  lemma EqualImagesHashEqually(a: Image, b: Image)
    requires WellFormed(a) && WellFormed(b) && SameImage(a, b)
    ensures ImageHash(a) == ImageHash(b)
  {
    forall i | 0 <= i < a.height ensures a.pixels[i] == b.pixels[i] {
      assert forall j :: 0 <= j < a.width ==> a.pixels[i][j] == b.pixels[i][j];
    }
    assert a.pixels == b.pixels;
  }
}
