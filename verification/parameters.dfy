/**
 * Parameters: the session state of the ascii_art package (the character
 * matcher, the resolution and the image) and its resolution state machine.
 */
module AsciiArtParameters {
  import opened Wrappers
  import opened CodeUnits
  import opened JavaInts
  import opened Images
  import opened ImageUtilities
  import opened CharLists
  import opened MatcherSpec
  import opened CharMatching

  /** The digits '0'..'9', the character set a session starts with. */
  const INIT_CHARS: seq<CodeUnit> := seq(10, i requires 0 <= i < 10 => (Unit('0') as int + i) as CodeUnit)
  const DEFAULT_RES: int := 128

  function Max(a: int, b: int): int
  {
    if a >= b then a else b
  }

  function Min(a: int, b: int): int
  {
    if a <= b then a else b
  }

  // ---------------------------------------------------------------------------
  // Resolution changes
  // ---------------------------------------------------------------------------

  /** The resolution after resUp: doubled, in int arithmetic, when below the image width. */
  function ResAfterUp(res: int, width: int): int
  {
    if res < width then Wrap32(res * 2) else res
  }

  /** The resolution after resDown: halved when above max(1, width / height). */
  function ResAfterDown(res: int, width: int, height: int): int
    requires height > 0
  {
    if res > Max(1, width / height) then res / 2 else res
  }

  /**
   * A power-of-two resolution stays a power of two under resUp; it doubles
   * exactly when it is below the width, and never passes the padded width
   * once it is within it.
   */
  lemma ResUpSpec(k: nat, width: int)
    requires Pow2(k) <= MAX_POW2 && width <= MAX_POW2
    ensures Pow2(k) < width ==> ResAfterUp(Pow2(k), width) == Pow2(k + 1) == 2 * Pow2(k)
    ensures Pow2(k) >= width ==> ResAfterUp(Pow2(k), width) == Pow2(k)
    ensures Pow2(k) <= Pow2Ceil(width) ==> ResAfterUp(Pow2(k), width) <= Pow2Ceil(width)
  {
    var m := CeilExp(0, width);
    Pow2CeilLeast(width);
    if Pow2(k) < width && Pow2(k) <= Pow2Ceil(width) {
      if m <= k {
        Pow2Monotone(m, k);
      }
      Pow2Monotone(k + 1, m);
    }
  }

  /**
   * resDown halves exactly when the resolution is above max(1, width / height),
   * so a resolution of at least 1 stays at least 1, and a power of two stays a
   * power of two.
   */
  lemma ResDownSpec(res: int, width: int, height: int)
    requires height > 0
    ensures res > Max(1, width / height) ==> ResAfterDown(res, width, height) == res / 2 && res / 2 < res
    ensures res <= Max(1, width / height) ==> ResAfterDown(res, width, height) == res
    ensures res >= 1 ==> ResAfterDown(res, width, height) >= 1
    ensures forall k: nat :: res == Pow2(k) && res > Max(1, width / height) ==>
      k >= 1 && ResAfterDown(res, width, height) == Pow2(k - 1)
  {
  }

  // ---------------------------------------------------------------------------
  // Parameters
  // ---------------------------------------------------------------------------

  /** The digits are in ascending order, so sorting them changes nothing. */
  lemma InitCharsSorted()
    ensures Sorted(INIT_CHARS) && SortChars(INIT_CHARS) == INIT_CHARS
  {
    assert Sorted(INIT_CHARS);
    SortSortedIsIdentity(INIT_CHARS);
  }

  /**
   * new SubImgCharMatcher(INIT_CHARS): a fresh matcher whose list is the
   * digits, in the state the constructor builds (registered in the cache).
   */
  method NewDigitsMatcher(caches: Caches) returns (m: CharMatcher)
    requires caches.Valid()
    requires ConstructDefined(caches.render, INIT_CHARS, caches.matchers)
    modifies caches
    ensures fresh(m) && m.Valid() && m.caches == caches && m.chars == INIT_CHARS
    ensures (m.Snapshot(), caches.matchers) == Construct(caches.render, INIT_CHARS, old(caches.matchers))
    ensures old(caches.counts).Keys <= caches.counts.Keys
  {
    InitCharsSorted();
    m := new CharMatcher(caches, INIT_CHARS);
  }

  /** The session state: the character matcher, the resolution and the image. */
  class Parameters {
    var charMatcher: CharMatcher
    var res: int
    var image: Image

    ghost predicate Valid()
      reads this, charMatcher, charMatcher.caches
    {
      charMatcher.Valid() && WellFormed(image)
    }

    /**
     * The constructor: the image (loaded from the default path in the
     * program), the default resolution and a matcher on the digits.
     */
    constructor(caches: Caches, image: Image)
      requires caches.Valid() && WellFormed(image)
      requires ConstructDefined(caches.render, INIT_CHARS, caches.matchers)
      modifies caches
      ensures Valid() && fresh(charMatcher) && charMatcher.caches == caches
      ensures this.image == image && res == DEFAULT_RES
      ensures charMatcher.chars == INIT_CHARS
      ensures (charMatcher.Snapshot(), caches.matchers) == Construct(caches.render, INIT_CHARS, old(caches.matchers))
      ensures old(caches.counts).Keys <= caches.counts.Keys
    {
      var m := NewDigitsMatcher(caches);
      this.image := image;
      res := DEFAULT_RES;
      charMatcher := m;
    }

    /** setCharMatcher: replaces the matcher and nothing else. */
    method SetCharMatcher(m: CharMatcher)
      modifies this
      ensures charMatcher == m && res == old(res) && image == old(image)
    {
      charMatcher := m;
    }

    /** resUp: doubles the resolution when it is below the image width. */
    method ResUp()
      modifies this
      ensures res == ResAfterUp(old(res), image.width)
      ensures charMatcher == old(charMatcher) && image == old(image)
    {
      if res < image.width {
        res := Wrap32(res * 2);
        return;
      }
    }

    /**
     * resDown: halves the resolution when it is above max(1, width / height).
     * A height of zero would divide by zero; images read from a file have none.
     */
    method ResDown()
      requires image.height > 0
      modifies this
      ensures charMatcher == old(charMatcher) && image == old(image)
      ensures res == ResAfterDown(old(res), image.width, image.height)
    {
      if res > Max(1, image.width / image.height) {
        res := res / 2;
        return;
      }
    }

    /** updateImage: the image read from the path, or the old one when reading failed (None). */
    method UpdateImage(loaded: Option<Image>)
      modifies this
      ensures image == (if loaded.Some? then loaded.value else old(image))
      ensures charMatcher == old(charMatcher) && res == old(res)
    {
      if loaded.Some? {
        image := loaded.value;
      }
    }
  }
}
