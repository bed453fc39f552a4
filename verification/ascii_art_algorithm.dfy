/**
 * AsciiArtAlgorithm: pads the image, cuts it into tiles and maps every tile
 * to the character the matcher gives for its brightness.
 */
module AsciiArtAlgorithms {
  import opened CodeUnits
  import opened Images
  import opened ImageUtilities
  import opened BrightnessIndex
  import opened CharMatching
  import opened AsciiArtParameters

  // ---------------------------------------------------------------------------
  // AsciiArtAlgorithm
  // ---------------------------------------------------------------------------

  /**
   * What run needs not to fail: an image findPow2 can pad, a resolution
   * between 1 and the padded width (so the tile side is not zero) and a
   * matcher whose index is not empty.
   */
  ghost predicate RunDefined(parameters: Parameters)
    reads parameters, parameters.charMatcher
  {
    && Paddable(parameters.image)
    && 1 <= parameters.res <= Pow2Ceil(parameters.image.width)
    && Ordered(parameters.charMatcher.tree) && parameters.charMatcher.tree != []
  }

  /**
   * The first n rows of grid hold, in column j of row i, the matcher's
   * character for the brightness of tile (i, j) of side s of padded.
   */
  ghost predicate ArtRows(parameters: Parameters, brightness: Image -> real, padded: Image, s: nat, grid: array2<CodeUnit>, n: int)
    reads parameters, parameters.charMatcher, grid
    requires Ordered(parameters.charMatcher.tree) && parameters.charMatcher.tree != [] && WellFormed(padded)
  {
    forall i, j :: 0 <= i < n && i < grid.Length0 && 0 <= j < grid.Length1 ==>
      && i * s + s <= padded.height && j * s + s <= padded.width
      && grid[i, j] == parameters.charMatcher.GetCharByImageBrightness(brightness(Tile(padded, s, i, j)))
  }

  /** The first n rows of grid hold the character of the nearest key for the brightness of each tile of tiles. */
  ghost predicate NearestRows(tree: Index, brightness: Image -> real, tiles: seq<seq<Image>>, grid: array2<CodeUnit>, n: int)
    reads grid
    requires Ordered(tree) && tree != []
  {
    forall i, j :: 0 <= i < n && i < |tiles| && 0 <= j < |tiles[i]| && i < grid.Length0 && j < grid.Length1 ==>
      grid[i, j] == Nearest(tree, brightness(tiles[i][j])).ch
  }

  /**
   * grid is the picture of the parameters: with the padded image cut into
   * tiles of side s = paddedWidth / res, it has paddedHeight / s rows and res
   * columns, and cell (i, j) holds the matcher's character for the brightness
   * of tile (i, j).
   */
  ghost predicate IsArt(parameters: Parameters, brightness: Image -> real, grid: array2<CodeUnit>)
    reads parameters, parameters.charMatcher, grid
    requires RunDefined(parameters)
  {
    var padded := Padded(parameters.image);
    var s := padded.width / parameters.res;
    && s >= 1
    && grid.Length0 == padded.height / s && grid.Length1 == parameters.res
    && ArtRows(parameters, brightness, padded, s, grid, grid.Length0)
  }

  class AsciiArtAlgorithm {
    const parameters: Parameters

    constructor(parameters: Parameters)
      ensures this.parameters == parameters
    {
      this.parameters := parameters;
    }

    /**
     * run: pads the image, cuts it into res columns of tiles and writes one
     * character per tile into a fresh grid, changing nothing else. The
     * brightness of a tile is a parameter of the model.
     */
    method Run(brightness: Image -> real) returns (imgConverted: array2<CodeUnit>)
      requires RunDefined(parameters)
      ensures fresh(imgConverted)
      ensures IsArt(parameters, brightness, imgConverted)
    {
      var padded := PadImageWhite(parameters.image);
      var subImages := SplitByResolution(padded, parameters.res);
      var s := padded.width / parameters.res;
      imgConverted := new CodeUnit[padded.height / s, parameters.res];
      ghost var tree := parameters.charMatcher.tree;
      for i := 0 to |subImages|
        invariant NearestRows(tree, brightness, subImages, imgConverted, i)
      {
        ConvertRow(brightness, imgConverted, i, subImages[i]);
      }
      forall i, j | 0 <= i < imgConverted.Length0 && 0 <= j < imgConverted.Length1
        ensures i * s + s <= padded.height && j * s + s <= padded.width
        ensures imgConverted[i, j] == parameters.charMatcher.GetCharByImageBrightness(brightness(Tile(padded, s, i, j)))
      {
        assert |subImages[i]| == parameters.res && TileRow(padded, s, i, subImages[i]);
        TileOfRow(padded, s, i, subImages[i], j);
      }
    }

    /** The inner loop of run: one character per tile of row i, and no other row touched. */
    method ConvertRow(brightness: Image -> real, grid: array2<CodeUnit>, i: nat, row: seq<Image>)
      requires Ordered(parameters.charMatcher.tree) && parameters.charMatcher.tree != []
      requires i < grid.Length0 && |row| == grid.Length1
      modifies grid
      ensures forall j :: 0 <= j < |row| ==> grid[i, j] == parameters.charMatcher.GetCharByImageBrightness(brightness(row[j]))
      ensures forall i', j :: 0 <= i' < grid.Length0 && i' != i && 0 <= j < grid.Length1 ==> grid[i', j] == old(grid[i', j])
    {
      for j := 0 to |row|
        invariant forall j' :: 0 <= j' < j ==> grid[i, j'] == parameters.charMatcher.GetCharByImageBrightness(brightness(row[j']))
        invariant forall i', j' :: 0 <= i' < grid.Length0 && i' != i && 0 <= j' < grid.Length1 ==> grid[i', j'] == old(grid[i', j'])
      {
        var b := brightness(row[j]);
        grid[i, j] := parameters.charMatcher.GetCharByImageBrightness(b);
      }
    }
  }
}
