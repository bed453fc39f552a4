/**
 * SubImgCharMatcher as a class whose methods update its fields in place, and
 * the two static maps it shares with every other matcher as a Caches object.
 * Each method is proved to perform the state transition of MatcherSpec.
 */
module CharMatching {
  import opened CodeUnits
  import opened Glyphs
  import opened CharLists
  import opened BrightnessIndex
  import opened MatcherSpec

  /**
   * The static maps allBeforeNormal (character to ink count) and
   * subImgCharMatchers (character list to the index of the matcher registered
   * for it), together with the rasterizer the counts come from.
   */
  class Caches {
    const render: Rasterizer
    var counts: map<CodeUnit, nat>
    var matchers: MatcherCache

    /** Every character of s has its count cached. */
    ghost predicate Counted(s: seq<CodeUnit>)
      reads this
    {
      forall x :: x in s ==> x in counts
    }

    /** Every character held by the index t has its count cached. */
    ghost predicate IndexCounted(t: Index)
      reads this
    {
      forall e :: e in t ==> e.ch in counts
    }

    /** Every cached count is the ink count of the character's glyph. */
    ghost predicate CountsAgree()
      reads this
    {
      forall c :: c in counts ==> counts[c] == Ink(render, c)
    }

    ghost predicate Valid()
      reads this
    {
      && CountsAgree()
      && CacheOrdered(matchers)
      && (forall k :: k in matchers ==> Counted(k) && IndexCounted(matchers[k]))
    }

    constructor(render: Rasterizer)
      ensures Valid() && this.render == render
      ensures counts == map[] && matchers == map[]
    {
      this.render := render;
      counts := map[];
      matchers := map[];
    }

    /**
     * retrieveOrFindCharVal: the cached count of c if there is one, otherwise
     * the count of its glyph, which is then cached. No entry is ever removed or
     * changed.
     */
    method RetrieveOrFindCharVal(c: CodeUnit) returns (count: nat)
      requires Valid()
      modifies this
      ensures Valid()
      ensures count == Ink(render, c) && count <= NUM_OF_BOOLEAN_VALUES
      ensures counts == old(counts)[c := count] && matchers == old(matchers)
      ensures c in old(counts) ==> counts == old(counts)
    {
      if c in counts {
        count := counts[c];
      } else {
        count := GetCharVal(render, c);
        counts := counts[c := count];
      }
    }

    /** allBeforeNormal.put(c, count) with the count of c's glyph. */
    method Put(c: CodeUnit, count: nat)
      requires Valid() && count == Ink(render, c)
      modifies this
      ensures Valid()
      ensures counts == old(counts)[c := count] && matchers == old(matchers)
      ensures forall x :: x in old(counts) ==> x in counts
    {
      counts := counts[c := count];
    }

    /** subImgCharMatchers.put(s, matcher): register the index t under the list s. */
    method Register(s: seq<CodeUnit>, t: Index)
      requires Valid() && Counted(s) && IndexCounted(t) && Ordered(t)
      modifies this
      ensures Valid()
      ensures matchers == old(matchers)[s := t] && counts == old(counts)
    {
      matchers := matchers[s := t];
    }
  }

  /**
   * The constructor's first pass: fetch (and cache) the count of every
   * character, and track the least and greatest brightness with the first
   * character attaining each (strict comparisons). On an empty list the
   * results keep their defaults 0.0 and the character 0.
   */
  method FindExtremes(caches: Caches, s: seq<CodeUnit>) returns (lo: real, hi: real, dark: CodeUnit, bright: CodeUnit)
    requires caches.Valid()
    modifies caches
    ensures caches.Valid() && caches.Counted(s)
    ensures caches.matchers == old(caches.matchers)
    ensures old(caches.counts).Keys <= caches.counts.Keys
    ensures (lo, hi, dark, bright) == Extremes(caches.render, s)
    ensures s != [] ==>
      && dark == s[FirstArgMin(caches.render, s)] && lo == Bright(caches.render, dark)
      && bright == s[FirstArgMax(caches.render, s)] && hi == Bright(caches.render, bright)
  {
    lo, hi, dark, bright := 0.0, 0.0, 0, 0;
    var render := caches.render;
    var first := true;
    var i := 0;
    while i < |s|
      invariant 0 <= i <= |s|
      invariant first <==> i == 0
      invariant caches.Valid() && caches.render == render
      invariant forall j :: 0 <= j < i ==> s[j] in caches.counts
      invariant caches.matchers == old(caches.matchers)
      invariant forall x :: x in old(caches.counts) ==> x in caches.counts
      invariant (lo, hi, dark, bright) == Extremes(render, s[..i])
    {
      var c := s[i];
      ghost var before := caches.counts;
      var count := caches.RetrieveOrFindCharVal(c);
      assert caches.counts == before[c := count];
      assert forall j :: 0 <= j <= i ==> s[j] in caches.counts by {
        forall j | 0 <= j <= i ensures s[j] in caches.counts {
          if j < i {
            assert s[j] in before;
          }
        }
      }
      var normalized := count as real / NUM_OF_BOOLEAN_VALUES as real;
      assert normalized == Bright(render, c);
      if first {
        first := false;
        lo, hi, bright, dark := normalized, normalized, c, c;
      }
      if normalized > hi {
        hi, bright := normalized, c;
      }
      if lo > normalized {
        lo, dark := normalized, c;
      }
      assert s[..i + 1][..i] == s[..i];
      i := i + 1;
    }
    assert s[..|s|] == s;
    if s != [] {
      ExtremesAttained(render, s);
    }
  }

  /**
   * The loop shared by the constructor's second pass and newMaxOrMin: put every
   * character of vals, in order, into a fresh index at its cached count
   * (allBeforeNormal) normalized against [lo, hi].
   */
  method Renormalize(render: Rasterizer, counts: map<CodeUnit, nat>, vals: seq<CodeUnit>, lo: real, hi: real) returns (t: Index)
    requires forall c :: c in counts ==> counts[c] == Ink(render, c)
    requires forall x :: x in vals ==> x in counts
    requires vals != [] ==> lo != hi
    ensures t == Rebuild(render, vals, lo, hi)
    ensures forall e :: e in t ==> e.ch in counts
  {
    t := [];
    var i := 0;
    while i < |vals|
      invariant 0 <= i <= |vals|
      invariant t == Rebuild(render, vals[..i], lo, hi)
    {
      var c := vals[i];
      assert c in vals;
      var normalized := NormKey(counts[c] as real / NUM_OF_BOOLEAN_VALUES as real, lo, hi);
      RebuildNext(render, vals, i, lo, hi, counts[c]);
      t := Put(t, normalized, c);
      i := i + 1;
    }
    assert vals[..|vals|] == vals;
    if vals != [] {
      RebuildConsistent(render, vals, lo, hi);
    }
  }

  /**
   * The constructor's two passes on the sorted list s when no index is
   * registered for it: the extremes, then every character at its key.
   */
  method BuildState(caches: Caches, s: seq<CodeUnit>) returns (st: State)
    requires caches.Valid() && HasSpread(caches.render, s)
    modifies caches
    ensures caches.Valid() && caches.Counted(s) && caches.IndexCounted(st.tree)
    ensures caches.matchers == old(caches.matchers)
    ensures old(caches.counts).Keys <= caches.counts.Keys
    ensures st == Built(caches.render, s)
  {
    var lo, hi, dark, bright := FindExtremes(caches, s);
    var t := Renormalize(caches.render, caches.counts, s, lo, hi);
    st := State(s, hi, bright, lo, dark, t);
  }

  class CharMatcher {
    var chars: seq<CodeUnit>
    var maxBrightness: real
    var brightestChar: CodeUnit
    var minBrightness: real
    var darkestChar: CodeUnit
    var tree: Index
    const caches: Caches

    ghost predicate Valid()
      reads this, caches
    {
      && caches.Valid()
      && Sorted(chars)
      && Ordered(tree)
      && caches.Counted(chars)
      && caches.IndexCounted(tree)
    }

    /** The fields of this matcher as a value. */
    function Snapshot(): State
      reads this
    {
      State(chars, maxBrightness, brightestChar, minBrightness, darkestChar, tree)
    }

    /**
     * The constructor: sort the charset; on a cache hit adopt the registered
     * index and nothing else; otherwise find the extremes in one pass, put every
     * character at its normalized key in a second pass, and register the index.
     */
    constructor(caches: Caches, charset: seq<CodeUnit>)
      requires caches.Valid()
      requires ConstructDefined(caches.render, charset, caches.matchers)
      modifies caches
      ensures Valid() && this.caches == caches
      ensures (Snapshot(), caches.matchers) == Construct(caches.render, charset, old(caches.matchers))
      ensures old(caches.counts).Keys <= caches.counts.Keys
    {
      var s := SortChars(charset);
      this.caches := caches;
      if s in caches.matchers {
        chars, maxBrightness, brightestChar, minBrightness, darkestChar := s, 0.0, 0, 0.0, 0;
        tree := caches.matchers[s];
      } else {
        var st := BuildState(caches, s);
        chars, maxBrightness, brightestChar, minBrightness, darkestChar, tree := s, st.maxBrightness, st.brightestChar, st.minBrightness, st.darkestChar, st.tree;
      }
      new;
      if s !in caches.matchers {
        caches.Register(s, tree);
      }
    }

    /** hasNoChars: whether the character list is empty. */
    function HasNoChars(): (r: bool)
      reads this
      ensures r <==> chars == []
    {
      |chars| == 0
    }

    /**
     * getCharByImageBrightness: the character of the entry whose key is nearest
     * to the brightness, the greater key winning a tie (the ceiling's character
     * is returned unless the floor is strictly nearer).
     */
    function GetCharByImageBrightness(brightness: real): (r: CodeUnit)
      reads this
      requires Ordered(tree) && tree != []
      ensures exists e :: IsNearest(tree, brightness, e) && e.ch == r
    {
      var e := Nearest(tree, brightness);
      assert IsNearest(tree, brightness, e);
      e.ch
    }

    /**
     * newMaxOrMin(num, max): rebuild the index by renormalizing every character,
     * in key order, against the new range.
     */
    method NewMaxOrMin(num: real, isMax: bool)
      requires Valid() && MaxOrMinDefined(Snapshot(), num, isMax)
      modifies this
      ensures Valid()
      ensures Snapshot() == MaxOrMinStep(caches.render, old(Snapshot()), num, isMax)
    {
      var vals := Values(tree);
      assert caches.Counted(vals) by {
        forall x | x in vals ensures x in caches.counts {
          var i :| 0 <= i < |vals| && vals[i] == x;
          assert tree[i] in tree;
        }
      }
      if isMax {
        tree := Renormalize(caches.render, caches.counts, vals, minBrightness, num);
        maxBrightness := num;
        return;
      }
      tree := Renormalize(caches.render, caches.counts, vals, num, maxBrightness);
      // the Java loop assigns minBrightness in its body, so only when it runs
      if vals != [] {
        minBrightness := num;
      }
    }

    /**
     * addChar(c): insert c at its insertion point unless it is there, cache its
     * count, and update the index as AddStep describes.
     */
    method AddChar(c: CodeUnit)
      requires Valid() && AddDefined(caches.render, Snapshot(), caches.matchers, c)
      modifies this, caches
      ensures Valid()
      ensures (Snapshot(), caches.matchers) == AddStep(caches.render, old(Snapshot()), old(caches.matchers), c)
      ensures caches.counts == old(caches.counts)[c := Ink(caches.render, c)]
    {
      var count := InsertAndCount(c);
      var normalized := count as real / NUM_OF_BOOLEAN_VALUES as real;
      PlaceInIndex(c, normalized);
    }

    /** The first half of addChar: the list edit, then the count of c fetched and cached. */
    method InsertAndCount(c: CodeUnit) returns (count: nat)
      requires Valid()
      modifies this, caches
      ensures Valid() && count == Ink(caches.render, c)
      ensures Snapshot() == old(Snapshot()).(chars := AddToChars(old(chars), c))
      ensures caches.counts == old(caches.counts)[c := count] && caches.matchers == old(caches.matchers)
    {
      ghost var st, before := Snapshot(), caches.counts;
      InsertChar(c);
      count := caches.RetrieveOrFindCharVal(c);
      caches.Put(c, count);
      AddToCharsSpec(st.chars, c);
      assert caches.Counted(chars) by {
        assert forall x :: x in chars ==> x in before || x == c;
      }
      assert caches.IndexCounted(tree) by {
        assert forall e :: e in tree ==> e.ch in before;
      }
    }

    /** The list part of addChar: c goes in at its insertion point unless it is there. */
    method InsertChar(c: CodeUnit)
      modifies this
      ensures Snapshot() == old(Snapshot()).(chars := AddToChars(old(chars), c))
    {
      var insertionPoint := FindInsertionPoint(chars, c);
      if |chars| == insertionPoint || chars[insertionPoint] != c {
        chars := chars[..insertionPoint] + [c] + chars[insertionPoint..];
      }
    }

    /** The index part of addChar (from the range test on), as PlaceStep describes. */
    method PlaceInIndex(c: CodeUnit, normalized: real)
      requires Valid() && c in caches.counts && normalized == Bright(caches.render, c)
      requires PlaceDefined(caches.render, Snapshot(), caches.matchers, c)
      modifies this, caches
      ensures Valid()
      ensures (Snapshot(), caches.matchers) == PlaceStep(caches.render, old(Snapshot()), old(caches.matchers), c)
      ensures caches.counts == old(caches.counts)
    {
      if normalized <= maxBrightness && normalized >= minBrightness {
        var key := NormKey(normalized, minBrightness, maxBrightness);
        tree := Put(tree, key, c);
        return;
      }
      if chars in caches.matchers {
        tree := caches.matchers[chars];
        return;
      }
      tree := Put(tree, normalized, c);
      NewMaxOrMin(normalized, normalized > maxBrightness);
      caches.Register(chars, tree);
    }

    /**
     * removeChar(c): nothing unless c is found at its insertion point; otherwise
     * remove it from the list and its key from the index, then RefitExtremes.
     */
    method RemoveChar(c: CodeUnit)
      requires Valid() && RemoveDefined(caches.render, Snapshot(), caches.matchers, c)
      modifies this, caches
      ensures Valid()
      ensures (Snapshot(), caches.matchers) == RemoveStep(caches.render, old(Snapshot()), old(caches.matchers), c)
      ensures caches.counts == old(caches.counts)
    {
      var ip := FindInsertionPoint(chars, c);
      if ip >= |chars| || chars[ip] != c {
        return;
      }
      RemoveFromCharsSpec(chars, c);
      assert chars[ip] in chars;
      ghost var st := Snapshot();
      chars := chars[..ip] + chars[ip + 1..];
      var b := caches.counts[c] as real / NUM_OF_BOOLEAN_VALUES as real;
      assert b == Bright(caches.render, c);
      var key := NormKey(b, minBrightness, maxBrightness);
      assert key == RemovalKey(caches.render, st, c);
      tree := Remove(tree, key);
      assert Snapshot() == Removed(caches.render, st, c);
      RefitExtremes(key);
    }

    /** The end of removeChar (from the extreme test on), as RefitStep describes. */
    method RefitExtremes(key: real)
      requires Valid() && RefitDefined(Snapshot(), caches.matchers, key)
      modifies this, caches
      ensures Valid()
      ensures (Snapshot(), caches.matchers) == RefitStep(caches.render, old(Snapshot()), old(caches.matchers), key)
      ensures caches.counts == old(caches.counts)
    {
      if key != maxBrightness && key != minBrightness {
        return;
      }
      ghost var st, cache := Snapshot(), caches.matchers;
      if chars in caches.matchers {
        tree := caches.matchers[chars];
      }
      assert Snapshot() == Adopted(st, cache);
      if key == maxBrightness {
        var newMax := LastKey(tree);
        NewMaxOrMin(newMax, true);
        return;
      }
      var newMin := FirstKey(tree);
      NewMaxOrMin(newMin, false);
      caches.Register(chars, tree);
    }
  }
}
