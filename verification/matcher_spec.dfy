/**
 * The state of a SubImgCharMatcher as a value, and the state transitions its
 * constructor, addChar, removeChar and newMaxOrMin perform, as functions.
 * These specify the class in char_matcher.dfy; the lemmas state what the
 * transitions do and do not maintain.
 */
module MatcherSpec {
  import opened CodeUnits
  import opened Wrappers
  import opened Glyphs
  import opened CharLists
  import opened BrightnessIndex

  /** Raw brightness of a character: its ink count over the 256 cells (count / NUM_OF_BOOLEAN_VALUES). */
  function Bright(render: Rasterizer, c: CodeUnit): (b: real)
    ensures 0.0 <= b <= 1.0
  {
    Ink(render, c) as real / NUM_OF_BOOLEAN_VALUES as real
  }

  /** The normalized key (b - lo) / (hi - lo). */
  function NormKey(b: real, lo: real, hi: real): real
    requires hi != lo
  {
    (b - lo) / (hi - lo)
  }

  lemma NormKeyInjective(x: real, y: real, lo: real, hi: real)
    requires hi != lo
    ensures NormKey(x, lo, hi) == NormKey(y, lo, hi) <==> x == y
  {
    if NormKey(x, lo, hi) == NormKey(y, lo, hi) {
      assert x - lo == NormKey(x, lo, hi) * (hi - lo);
      assert y - lo == NormKey(y, lo, hi) * (hi - lo);
    }
  }

  lemma SelfRatio(x: real)
    requires x != 0.0
    ensures x / x == 1.0
  {
  }

  lemma ZeroRatio(x: real)
    requires x != 0.0
    ensures 0.0 / x == 0.0
  {
  }

  lemma NormKeyInUnitRange(b: real, lo: real, hi: real)
    requires lo < hi && lo <= b <= hi
    ensures 0.0 <= NormKey(b, lo, hi) <= 1.0
    ensures b == lo ==> NormKey(b, lo, hi) == 0.0
    ensures b == hi ==> NormKey(b, lo, hi) == 1.0
  {
    var d, q := hi - lo, NormKey(b, lo, hi);
    assert q * d == b - lo;
    assert (1.0 - q) * d == hi - b;
    NonNegativeFactor(q, d);
    NonNegativeFactor(1.0 - q, d);
    if b == hi {
      assert (q - 1.0) * d == 0.0;
      NonNegativeFactor(q - 1.0, d);
    }
  }

  lemma NonNegativeFactor(x: real, d: real)
    requires x * d >= 0.0 && d > 0.0
    ensures x >= 0.0
  {
  }

  /**
   * The index built by putting every character, in the given order, at its key
   * normalized against [lo, hi]: the second loop of the constructor and the
   * loops of newMaxOrMin. A later character with the same key overwrites an
   * earlier one, as TreeMap.put does.
   */
  function Rebuild(render: Rasterizer, vals: seq<CodeUnit>, lo: real, hi: real): (t: Index)
    requires vals != [] ==> lo != hi
    ensures Ordered(t)
    decreases |vals|
  {
    if vals == [] then []
    else
      var c := vals[|vals| - 1];
      Put(Rebuild(render, vals[..|vals| - 1], lo, hi), NormKey(Bright(render, c), lo, hi), c)
  }

  /** The put for vals[i], with its count as the ink count, extends the rebuild of vals[..i] to vals[..i + 1]. */
  lemma RebuildNext(render: Rasterizer, vals: seq<CodeUnit>, i: nat, lo: real, hi: real, count: nat)
    requires i < |vals| && lo != hi && count == Ink(render, vals[i])
    ensures Rebuild(render, vals[..i + 1], lo, hi) ==
      Put(Rebuild(render, vals[..i], lo, hi), NormKey(count as real / NUM_OF_BOOLEAN_VALUES as real, lo, hi), vals[i])
  {
    assert vals[..i + 1][..i] == vals[..i];
  }

  /** Every entry of a rebuilt index holds one of the characters at that character's own normalized key. */
  lemma {:induction false} RebuildConsistent(render: Rasterizer, vals: seq<CodeUnit>, lo: real, hi: real)
    requires lo != hi
    ensures forall e :: e in Rebuild(render, vals, lo, hi) ==>
      e.ch in vals && e.key == NormKey(Bright(render, e.ch), lo, hi)
    decreases |vals|
  {
    if vals != [] {
      RebuildConsistent(render, vals[..|vals| - 1], lo, hi);
      assert forall x :: x in vals[..|vals| - 1] ==> x in vals;
    }
  }

  /** Every character's normalized key is a key of the rebuilt index. */
  lemma {:induction false} RebuildHasKey(render: Rasterizer, vals: seq<CodeUnit>, lo: real, hi: real, i: nat)
    requires lo != hi && i < |vals|
    ensures HasKey(Rebuild(render, vals, lo, hi), NormKey(Bright(render, vals[i]), lo, hi))
    decreases |vals|
  {
    var n := |vals| - 1;
    var t := Rebuild(render, vals[..n], lo, hi);
    var k := NormKey(Bright(render, vals[n]), lo, hi);
    assert Rebuild(render, vals, lo, hi) == Put(t, k, vals[n]);
    if i < n {
      assert vals[..n][i] == vals[i];
      RebuildHasKey(render, vals[..n], lo, hi, i);
    }
    PutHasKey(t, k, vals[n], NormKey(Bright(render, vals[i]), lo, hi));
  }

  /**
   * Rebuilding over an ascending list keeps, among characters of equal
   * brightness, the greatest one: put overwrites, so the last wins. (The
   * getCharByImageBrightness documentation promises the lowest code instead.)
   */
  lemma {:induction false} RebuildKeepsGreatest(render: Rasterizer, vals: seq<CodeUnit>, lo: real, hi: real, e: Entry, x: CodeUnit)
    requires lo != hi && Sorted(vals)
    requires e in Rebuild(render, vals, lo, hi) && x in vals && Bright(render, x) == Bright(render, e.ch)
    ensures x <= e.ch
    decreases |vals|
  {
    var n := |vals| - 1;
    var prefix := vals[..n];
    var t := Rebuild(render, prefix, lo, hi);
    var k := NormKey(Bright(render, vals[n]), lo, hi);
    assert Rebuild(render, vals, lo, hi) == Put(t, k, vals[n]);
    var j :| 0 <= j < |vals| && vals[j] == x;
    if e == Entry(k, vals[n]) {
      assert vals[j] <= vals[n];
    } else {
      assert e in t && e.key != k;
      RebuildConsistent(render, prefix, lo, hi);
      assert j != n;
      assert prefix[j] == x;
      RebuildKeepsGreatest(render, prefix, lo, hi, e, x);
    }
  }

  /** The state of one matcher: its fields chars, maxBrightness, brightestChar, minBrightness, darkestChar, normalizedTree. */
  datatype State = State(
    chars: seq<CodeUnit>,
    maxBrightness: real,
    brightestChar: CodeUnit,
    minBrightness: real,
    darkestChar: CodeUnit,
    tree: Index)

  /** The static map from a character list to the index of the matcher registered for it. */
  type MatcherCache = map<seq<CodeUnit>, Index>

  ghost predicate CacheOrdered(cache: MatcherCache)
  {
    forall k :: k in cache ==> Ordered(cache[k])
  }

  /**
   * Index of the darkest character of s, the first one in order among equally
   * dark ones (the constructor's comparison `minBrightness > normalized` is strict).
   */
  function FirstArgMin(render: Rasterizer, s: seq<CodeUnit>): (k: nat)
    requires s != []
    ensures k < |s|
    ensures forall j :: 0 <= j < |s| ==> Bright(render, s[k]) <= Bright(render, s[j])
    ensures forall j :: 0 <= j < k ==> Bright(render, s[j]) > Bright(render, s[k])
    decreases |s|
  {
    if |s| == 1 then 0
    else
      var k := FirstArgMin(render, s[..|s| - 1]);
      assert s[..|s| - 1][k] == s[k];
      if Bright(render, s[k]) > Bright(render, s[|s| - 1]) then |s| - 1 else k
  }

  /**
   * Index of the brightest character of s, the first one in order among equally
   * bright ones (the comparison `normalized > maxBrightness` is strict).
   */
  function FirstArgMax(render: Rasterizer, s: seq<CodeUnit>): (k: nat)
    requires s != []
    ensures k < |s|
    ensures forall j :: 0 <= j < |s| ==> Bright(render, s[j]) <= Bright(render, s[k])
    ensures forall j :: 0 <= j < k ==> Bright(render, s[j]) < Bright(render, s[k])
    decreases |s|
  {
    if |s| == 1 then 0
    else
      var k := FirstArgMax(render, s[..|s| - 1]);
      assert s[..|s| - 1][k] == s[k];
      if Bright(render, s[|s| - 1]) > Bright(render, s[k]) then |s| - 1 else k
  }

  /**
   * The constructor's first pass as a fold over the list: least and greatest
   * brightness and the characters attaining them, starting from the defaults
   * 0.0 and the character 0; the first character sets all four, later ones
   * replace an extreme only when strictly beyond it.
   */
  function Extremes(render: Rasterizer, s: seq<CodeUnit>): (real, real, CodeUnit, CodeUnit)
    decreases |s|
  {
    if s == [] then (0.0, 0.0, 0, 0)
    else
      var c := s[|s| - 1];
      var n := Bright(render, c);
      if |s| == 1 then (n, n, c, c)
      else
        var (lo, hi, dark, bright) := Extremes(render, s[..|s| - 1]);
        (if lo > n then n else lo, if n > hi then n else hi, if lo > n then c else dark, if n > hi then c else bright)
  }

  /** The fold finds the brightness of the first darkest and of the first brightest character, and those characters. */
  lemma {:induction false} ExtremesAttained(render: Rasterizer, s: seq<CodeUnit>)
    requires s != []
    ensures var (lo, hi, dark, bright) := Extremes(render, s);
      && dark == s[FirstArgMin(render, s)] && lo == Bright(render, dark)
      && bright == s[FirstArgMax(render, s)] && hi == Bright(render, bright)
    decreases |s|
  {
    if |s| > 1 {
      var p := s[..|s| - 1];
      ExtremesAttained(render, p);
      var d, b := FirstArgMin(render, p), FirstArgMax(render, p);
      assert p[d] == s[d] && p[b] == s[b];
    }
  }

  /**
   * Whether the constructor's normalization divides by a non-zero range: the
   * list is empty or not all of its characters are equally bright. (Java would
   * otherwise store the key 0.0 / 0.0, which is NaN.)
   */
  predicate HasSpread(render: Rasterizer, s: seq<CodeUnit>)
  {
    s == [] || Bright(render, s[FirstArgMin(render, s)]) < Bright(render, s[FirstArgMax(render, s)])
  }

  /** The state a construction on the sorted list s leaves when s is not in the cache. */
  function Built(render: Rasterizer, s: seq<CodeUnit>): State
    requires HasSpread(render, s)
  {
    if s == [] then State([], 0.0, 0, 0.0, 0, [])
    else
      var dark := s[FirstArgMin(render, s)];
      var bright := s[FirstArgMax(render, s)];
      var lo, hi := Bright(render, dark), Bright(render, bright);
      State(s, hi, bright, lo, dark, Rebuild(render, s, lo, hi))
  }

  /**
   * A fresh construction on a non-empty list with a spread of brightness: the
   * extremes are the least and greatest brightness of the list, attained by
   * the first darkest and first brightest character; every key lies in [0, 1],
   * the keys 0 and 1 are both present, every character's brightness level has
   * a key, and of equally bright characters the greatest code is kept.
   */
  lemma BuiltKeys(render: Rasterizer, s: seq<CodeUnit>)
    requires Sorted(s) && s != [] && HasSpread(render, s)
    ensures var st := Built(render, s);
      && (forall x :: x in s ==> st.minBrightness <= Bright(render, x) <= st.maxBrightness)
      && st.darkestChar in s && Bright(render, st.darkestChar) == st.minBrightness
      && st.brightestChar in s && Bright(render, st.brightestChar) == st.maxBrightness
      && (forall e :: e in st.tree ==> 0.0 <= e.key <= 1.0 && e.ch in s)
      && HasKey(st.tree, 0.0) && HasKey(st.tree, 1.0)
      && (forall i :: 0 <= i < |s| ==> HasKey(st.tree, NormKey(Bright(render, s[i]), st.minBrightness, st.maxBrightness)))
      && (forall e, x :: e in st.tree && x in s && Bright(render, x) == Bright(render, e.ch) ==> x <= e.ch)
  {
    var d, b := FirstArgMin(render, s), FirstArgMax(render, s);
    var lo, hi := Bright(render, s[d]), Bright(render, s[b]);
    var t := Rebuild(render, s, lo, hi);
    RebuildConsistent(render, s, lo, hi);
    forall e | e in t ensures 0.0 <= e.key <= 1.0 {
      var j :| 0 <= j < |s| && s[j] == e.ch;
      NormKeyInUnitRange(Bright(render, e.ch), lo, hi);
    }
    RebuildHasKey(render, s, lo, hi, d);
    NormKeyInUnitRange(lo, lo, hi);
    RebuildHasKey(render, s, lo, hi, b);
    NormKeyInUnitRange(hi, lo, hi);
    forall i | 0 <= i < |s| ensures HasKey(t, NormKey(Bright(render, s[i]), lo, hi)) {
      RebuildHasKey(render, s, lo, hi, i);
    }
    forall e, x | e in t && x in s && Bright(render, x) == Bright(render, e.ch) ensures x <= e.ch {
      RebuildKeepsGreatest(render, s, lo, hi, e, x);
    }
  }

  /** The constructor's division is defined: the sorted list is cached, or it has a spread of brightness. */
  predicate ConstructDefined(render: Rasterizer, charset: seq<CodeUnit>, cache: MatcherCache)
  {
    var s := SortChars(charset);
    s in cache || HasSpread(render, s)
  }

  /**
   * The constructor: on a cache hit it adopts the cached index and leaves the
   * other fields at their defaults (0.0 and the character 0); otherwise it
   * builds the state and registers its index under the sorted list.
   */
  function Construct(render: Rasterizer, charset: seq<CodeUnit>, cache: MatcherCache): (r: (State, MatcherCache))
    requires ConstructDefined(render, charset, cache)
    requires CacheOrdered(cache)
    ensures CacheOrdered(r.1) && Ordered(r.0.tree) && Sorted(r.0.chars)
    ensures multiset(r.0.chars) == multiset(charset)
    ensures r.0.chars == SortChars(charset)
  {
    var s := SortChars(charset);
    if s in cache then (State(s, 0.0, 0, 0.0, 0, cache[s]), cache)
    else
      var st := Built(render, s);
      (st, cache[s := st.tree])
  }

  /** Whether newMaxOrMin divides by a non-zero range (it divides only when the index is non-empty). */
  predicate MaxOrMinDefined(st: State, num: real, isMax: bool)
  {
    st.tree != [] ==> if isMax then num != st.minBrightness else st.maxBrightness != num
  }

  /**
   * newMaxOrMin(num, max): every character of the index, in key order, is put
   * into a new index at its key normalized against [min, num] (a new maximum)
   * or [num, max] (a new minimum); maxBrightness becomes num in the first case,
   * minBrightness becomes num in the second, but only if the index has an entry,
   * because the Java code assigns it inside the loop.
   */
  function MaxOrMinStep(render: Rasterizer, st: State, num: real, isMax: bool): State
    requires MaxOrMinDefined(st, num, isMax)
  {
    if isMax then
      st.(tree := Rebuild(render, Values(st.tree), st.minBrightness, num), maxBrightness := num)
    else
      st.(tree := Rebuild(render, Values(st.tree), num, st.maxBrightness),
          minBrightness := if st.tree == [] then st.minBrightness else num)
  }

  /** addChar's test that the raw brightness lies within [minBrightness, maxBrightness]. */
  predicate InRange(st: State, b: real)
  {
    b <= st.maxBrightness && b >= st.minBrightness
  }

  /**
   * Whether every division addChar performs, once c is in the list st.chars,
   * has a non-zero divisor.
   */
  predicate PlaceDefined(render: Rasterizer, st: State, cache: MatcherCache, c: CodeUnit)
  {
    var b := Bright(render, c);
    if InRange(st, b) then st.maxBrightness != st.minBrightness
    else (st.chars in cache ||
      if b > st.maxBrightness then b != st.minBrightness else st.maxBrightness != b)
  }

  /**
   * The index part of addChar, once c is in the list st.chars. A brightness
   * within the range is put at its normalized key. Otherwise the index
   * registered for the list, if any, is adopted with min and max left as they
   * are; if there is none, c is put at its RAW brightness, newMaxOrMin
   * renormalizes everything against the extended range, and the result is
   * registered under the list.
   */
  function PlaceStep(render: Rasterizer, st: State, cache: MatcherCache, c: CodeUnit): (r: (State, MatcherCache))
    requires Ordered(st.tree) && CacheOrdered(cache)
    requires PlaceDefined(render, st, cache, c)
    ensures Ordered(r.0.tree) && CacheOrdered(r.1)
    ensures r.0.chars == st.chars
    ensures r.0.darkestChar == st.darkestChar && r.0.brightestChar == st.brightestChar
  {
    var b := Bright(render, c);
    if InRange(st, b) then
      (st.(tree := Put(st.tree, NormKey(b, st.minBrightness, st.maxBrightness), c)), cache)
    else if st.chars in cache then
      (st.(tree := cache[st.chars]), cache)
    else
      var st' := MaxOrMinStep(render, st.(tree := Put(st.tree, b, c)), b, b > st.maxBrightness);
      (st', cache[st.chars := st'.tree])
  }

  /** Whether every division addChar performs has a non-zero divisor. */
  predicate AddDefined(render: Rasterizer, st: State, cache: MatcherCache, c: CodeUnit)
  {
    PlaceDefined(render, st.(chars := AddToChars(st.chars, c)), cache, c)
  }

  /** addChar(c): c goes into the list at its insertion point unless it is already there, then PlaceStep. */
  function AddStep(render: Rasterizer, st: State, cache: MatcherCache, c: CodeUnit): (r: (State, MatcherCache))
    requires Ordered(st.tree) && CacheOrdered(cache)
    requires AddDefined(render, st, cache, c)
    ensures Ordered(r.0.tree) && CacheOrdered(r.1)
    ensures r.0.chars == AddToChars(st.chars, c)
    ensures r.0.darkestChar == st.darkestChar && r.0.brightestChar == st.brightestChar
  {
    PlaceStep(render, st.(chars := AddToChars(st.chars, c)), cache, c)
  }

  /** The state with the index registered for its list, if there is one, adopted. */
  function Adopted(st: State, cache: MatcherCache): (r: State)
    requires Ordered(st.tree) && CacheOrdered(cache)
    ensures Ordered(r.tree)
  {
    st.(tree := if st.chars in cache then cache[st.chars] else st.tree)
  }

  /**
   * Whether the firstKey/lastKey the extreme case of removeChar takes is taken
   * on a non-empty index (Java would throw) and newMaxOrMin divides by a
   * non-zero range; st is the state once c has left the list and the index.
   */
  predicate RefitDefined(st: State, cache: MatcherCache, key: real)
    requires Ordered(st.tree) && CacheOrdered(cache)
  {
    (key != st.maxBrightness && key != st.minBrightness) ||
    (var t := Adopted(st, cache).tree;
      t != [] &&
      if key == st.maxBrightness then LastKey(t) != st.minBrightness else st.maxBrightness != FirstKey(t))
  }

  /**
   * The end of removeChar, once c has left the list and the entry at its
   * normalized key has left the index. Unless that key equals the RAW
   * maxBrightness or minBrightness nothing more happens. Otherwise the index
   * registered for the new list is adopted if there is one, and newMaxOrMin is
   * called with the index's last (or first) KEY as the new raw maximum (or
   * minimum); only the minimum case registers the result.
   */
  function RefitStep(render: Rasterizer, st: State, cache: MatcherCache, key: real): (r: (State, MatcherCache))
    requires Ordered(st.tree) && CacheOrdered(cache)
    requires RefitDefined(st, cache, key)
    ensures Ordered(r.0.tree) && CacheOrdered(r.1)
    ensures r.0.chars == st.chars
    ensures r.0.darkestChar == st.darkestChar && r.0.brightestChar == st.brightestChar
  {
    if key != st.maxBrightness && key != st.minBrightness then (st, cache)
    else
      var st2 := Adopted(st, cache);
      if key == st.maxBrightness then (MaxOrMinStep(render, st2, LastKey(st2.tree), true), cache)
      else
        var st3 := MaxOrMinStep(render, st2, FirstKey(st2.tree), false);
        (st3, cache[st.chars := st3.tree])
  }

  /** The key removeChar computes for c: its brightness normalized against the current raw extremes. */
  function RemovalKey(render: Rasterizer, st: State, c: CodeUnit): real
    requires st.maxBrightness != st.minBrightness
  {
    NormKey(Bright(render, c), st.minBrightness, st.maxBrightness)
  }

  /** The state once c has left the list and the entry at its key has left the index. */
  function Removed(render: Rasterizer, st: State, c: CodeUnit): (r: State)
    requires Ordered(st.tree) && st.maxBrightness != st.minBrightness
    ensures Ordered(r.tree)
  {
    st.(chars := RemoveFromChars(st.chars, c), tree := Remove(st.tree, RemovalKey(render, st, c)))
  }

  /** Whether every division removeChar performs has a non-zero divisor and no key is taken from an empty index. */
  predicate RemoveDefined(render: Rasterizer, st: State, cache: MatcherCache, c: CodeUnit)
    requires Ordered(st.tree) && CacheOrdered(cache)
  {
    !FoundAtInsertionPoint(st.chars, c) ||
    (st.maxBrightness != st.minBrightness &&
      RefitDefined(Removed(render, st, c), cache, RemovalKey(render, st, c)))
  }

  /** removeChar(c): nothing unless c is found at its insertion point; otherwise Removed, then RefitStep. */
  function RemoveStep(render: Rasterizer, st: State, cache: MatcherCache, c: CodeUnit): (r: (State, MatcherCache))
    requires Ordered(st.tree) && CacheOrdered(cache)
    requires RemoveDefined(render, st, cache, c)
    ensures Ordered(r.0.tree) && CacheOrdered(r.1)
    ensures r.0.chars == RemoveFromChars(st.chars, c)
    ensures r.0.darkestChar == st.darkestChar && r.0.brightestChar == st.brightestChar
  {
    if !FoundAtInsertionPoint(st.chars, c) then (st, cache)
    else RefitStep(render, Removed(render, st, c), cache, RemovalKey(render, st, c))
  }

  /**
   * addChar of a character whose brightness lies in [min, max] (with max > min)
   * leaves both extremes and the registered indexes alone and puts c at its
   * normalized key, which lies in [0, 1], replacing whatever character held that
   * key (the newest character wins).
   */
  lemma AddInRange(render: Rasterizer, st: State, cache: MatcherCache, c: CodeUnit)
    requires Ordered(st.tree) && CacheOrdered(cache) && AddDefined(render, st, cache, c)
    requires InRange(st, Bright(render, c))
    ensures var (st', cache') := AddStep(render, st, cache, c);
      var k := NormKey(Bright(render, c), st.minBrightness, st.maxBrightness);
      && st'.minBrightness == st.minBrightness && st'.maxBrightness == st.maxBrightness
      && cache' == cache
      && 0.0 <= k <= 1.0
      && (forall e :: e in st'.tree <==> (e in st.tree && e.key != k) || e == Entry(k, c))
  {
    NormKeyInUnitRange(Bright(render, c), st.minBrightness, st.maxBrightness);
  }

  /**
   * addChar of a character outside [min, max] whose new list has no registered
   * index: the exceeded extreme becomes c's brightness, every entry of the new
   * index holds its character at the key normalized against the new extremes,
   * c's brightness level has the key 1 (new maximum) or 0 (new minimum), and the
   * new index is registered under the new list.
   */
  lemma AddOutOfRange(render: Rasterizer, st: State, cache: MatcherCache, c: CodeUnit)
    requires Ordered(st.tree) && CacheOrdered(cache) && AddDefined(render, st, cache, c)
    requires !InRange(st, Bright(render, c)) && AddToChars(st.chars, c) !in cache
    ensures var (st', cache') := AddStep(render, st, cache, c);
      var b := Bright(render, c);
      && (b > st.maxBrightness ==>
            st'.maxBrightness == b && st'.minBrightness == st.minBrightness && HasKey(st'.tree, 1.0))
      && (b <= st.maxBrightness ==>
            st'.minBrightness == b && st'.maxBrightness == st.maxBrightness && HasKey(st'.tree, 0.0))
      && st'.maxBrightness != st'.minBrightness
      && (forall e :: e in st'.tree ==> e.key == NormKey(Bright(render, e.ch), st'.minBrightness, st'.maxBrightness))
      && cache' == cache[st'.chars := st'.tree]
  {
    var b := Bright(render, c);
    var t := Put(st.tree, b, c);
    var st1 := st.(chars := AddToChars(st.chars, c), tree := t);
    var isMax := b > st.maxBrightness;
    var st' := MaxOrMinStep(render, st1, b, isMax);
    assert AddStep(render, st, cache, c) == (st', cache[st1.chars := st'.tree]);
    assert Entry(b, c) in t;
    NewExtremeKeys(render, st1, c, isMax);
  }

  /**
   * After a construction on the empty list (fresh or adopted from the cache)
   * both extremes are 0.0, so adding a character without ink falls within
   * the range and addChar would divide by the zero range: the step is not
   * defined.
   */
  lemma EmptyThenInklessUndefined(render: Rasterizer, cache: MatcherCache, c: CodeUnit)
    requires CacheOrdered(cache) && Ink(render, c) == 0
    ensures ConstructDefined(render, [], cache)
    ensures var (st, cache') := Construct(render, [], cache);
      st.minBrightness == 0.0 && st.maxBrightness == 0.0 && !AddDefined(render, st, cache', c)
  {
    assert SortChars([]) == [];
  }

  /**
   * newMaxOrMin called by addChar with the brightness b of c, just put at the
   * raw key b, as the new maximum (isMax) or minimum: the index is rebuilt
   * against the new range, in which c's level has the key 1 or 0.
   */
  lemma NewExtremeKeys(render: Rasterizer, st1: State, c: CodeUnit, isMax: bool)
    requires Ordered(st1.tree) && Entry(Bright(render, c), c) in st1.tree
    requires isMax ==> Bright(render, c) != st1.minBrightness
    requires !isMax ==> Bright(render, c) != st1.maxBrightness
    ensures var b := Bright(render, c);
      var st' := MaxOrMinStep(render, st1, b, isMax);
      && (isMax ==> st'.maxBrightness == b && st'.minBrightness == st1.minBrightness && HasKey(st'.tree, 1.0))
      && (!isMax ==> st'.minBrightness == b && st'.maxBrightness == st1.maxBrightness && HasKey(st'.tree, 0.0))
      && st'.maxBrightness != st'.minBrightness
      && (forall e :: e in st'.tree ==> e.key == NormKey(Bright(render, e.ch), st'.minBrightness, st'.maxBrightness))
  {
    var b := Bright(render, c);
    var t := st1.tree;
    var st' := MaxOrMinStep(render, st1, b, isMax);
    var lo, hi := st'.minBrightness, st'.maxBrightness;
    assert st'.tree == Rebuild(render, Values(t), lo, hi);
    var i :| 0 <= i < |t| && t[i] == Entry(b, c);
    assert Values(t)[i] == c;
    RebuildHasKey(render, Values(t), lo, hi, i);
    RebuildConsistent(render, Values(t), lo, hi);
    if isMax {
      assert NormKey(b, lo, hi) == 1.0 by {
        SelfRatio(b - lo);
      }
    } else {
      assert NormKey(b, lo, hi) == 0.0 by {
        assert lo == b;
        ZeroRatio(hi - lo);
      }
    }
  }

  /** addChar keeps the list sorted (strictly, if it was) and its elements are the old ones and c. */
  lemma AddKeepsList(render: Rasterizer, st: State, cache: MatcherCache, c: CodeUnit)
    requires Ordered(st.tree) && CacheOrdered(cache) && AddDefined(render, st, cache, c)
    requires Sorted(st.chars)
    ensures var chars' := AddStep(render, st, cache, c).0.chars;
      && Sorted(chars')
      && (StrictlySorted(st.chars) ==> StrictlySorted(chars'))
      && (c in st.chars ==> chars' == st.chars)
      && (forall x :: x in chars' <==> x in st.chars || x == c)
  {
    AddToCharsSpec(st.chars, c);
  }

  /** removeChar of a character that is not in the list changes nothing, whatever the extremes. */
  lemma RemoveAbsentIsNoOp(render: Rasterizer, st: State, cache: MatcherCache, c: CodeUnit)
    requires Ordered(st.tree) && CacheOrdered(cache) && Sorted(st.chars)
    requires c !in st.chars
    ensures RemoveDefined(render, st, cache, c)
    ensures RemoveStep(render, st, cache, c) == (st, cache)
  {
    RemoveFromCharsSpec(st.chars, c);
  }

  /**
   * removeChar of a listed character whose key is neither the raw maximum nor
   * the raw minimum: c leaves the list, the entry at c's key leaves the index
   * whichever character it holds, and nothing else changes.
   */
  lemma RemoveInterior(render: Rasterizer, st: State, cache: MatcherCache, c: CodeUnit)
    requires Ordered(st.tree) && CacheOrdered(cache) && StrictlySorted(st.chars)
    requires c in st.chars && st.maxBrightness != st.minBrightness
    requires var k := RemovalKey(render, st, c); k != st.maxBrightness && k != st.minBrightness
    ensures RemoveDefined(render, st, cache, c)
    ensures var (st', cache') := RemoveStep(render, st, cache, c);
      var k := RemovalKey(render, st, c);
      && cache' == cache
      && st'.minBrightness == st.minBrightness && st'.maxBrightness == st.maxBrightness
      && (forall x :: x in st'.chars <==> x in st.chars && x != c)
      && (forall e :: e in st'.tree <==> e in st.tree && e.key != k)
  {
    StrictImpliesSorted(st.chars);
    RemoveFromCharsSpec(st.chars, c);
  }

  /** removeChar keeps the list sorted (strictly, if it was), and on a strictly sorted list c alone leaves it. */
  lemma RemoveKeepsList(render: Rasterizer, st: State, cache: MatcherCache, c: CodeUnit)
    requires Ordered(st.tree) && CacheOrdered(cache) && RemoveDefined(render, st, cache, c)
    requires Sorted(st.chars)
    ensures var chars' := RemoveStep(render, st, cache, c).0.chars;
      && Sorted(chars')
      && (StrictlySorted(st.chars) ==> StrictlySorted(chars'))
      && (StrictlySorted(st.chars) ==> forall x :: x in chars' <==> x in st.chars && x != c)
  {
    RemoveFromCharsSpec(st.chars, c);
  }

  /**
   * A run of addChar calls on one matcher, one per code in order; None when
   * one of them would divide by zero.
   */
  function ReplayAdds(render: Rasterizer, st: State, cache: MatcherCache, codes: seq<CodeUnit>): (r: Option<(State, MatcherCache)>)
    requires Ordered(st.tree) && CacheOrdered(cache)
    ensures r.Some? ==> Ordered(r.value.0.tree) && CacheOrdered(r.value.1)
    decreases |codes|
  {
    if codes == [] then Some((st, cache))
    else if AddDefined(render, st, cache, codes[0]) then
      var (st', cache') := AddStep(render, st, cache, codes[0]);
      ReplayAdds(render, st', cache', codes[1..])
    else None
  }

  /**
   * A run of removeChar calls on one matcher, one per code in order; None when
   * one of them would divide by zero or take a key of an empty index.
   */
  function ReplayRemoves(render: Rasterizer, st: State, cache: MatcherCache, codes: seq<CodeUnit>): (r: Option<(State, MatcherCache)>)
    requires Ordered(st.tree) && CacheOrdered(cache)
    ensures r.Some? ==> Ordered(r.value.0.tree) && CacheOrdered(r.value.1)
    decreases |codes|
  {
    if codes == [] then Some((st, cache))
    else if RemoveDefined(render, st, cache, codes[0]) then
      var (st', cache') := RemoveStep(render, st, cache, codes[0]);
      ReplayRemoves(render, st', cache', codes[1..])
    else None
  }

  /** A run of addChar (add) or removeChar calls, one per code in order. */
  function Replay(render: Rasterizer, st: State, cache: MatcherCache, codes: seq<CodeUnit>, add: bool): (r: Option<(State, MatcherCache)>)
    requires Ordered(st.tree) && CacheOrdered(cache)
    ensures r.Some? ==> Ordered(r.value.0.tree) && CacheOrdered(r.value.1)
  {
    if add then ReplayAdds(render, st, cache, codes) else ReplayRemoves(render, st, cache, codes)
  }

  /** The list after a run of additions is the list after the same run of list insertions. */
  lemma {:induction false} ReplayAddsChars(render: Rasterizer, st: State, cache: MatcherCache, codes: seq<CodeUnit>)
    requires Ordered(st.tree) && CacheOrdered(cache)
    requires ReplayAdds(render, st, cache, codes).Some?
    ensures ReplayAdds(render, st, cache, codes).value.0.chars == AddAllToChars(st.chars, codes)
    decreases |codes|
  {
    if codes != [] {
      var next := AddStep(render, st, cache, codes[0]);
      ReplayAddsChars(render, next.0, next.1, codes[1..]);
      assert ReplayAdds(render, st, cache, codes) == ReplayAdds(render, next.0, next.1, codes[1..]);
    }
  }

  /** The list after a run of removals is the list after the same run of list deletions. */
  lemma {:induction false} ReplayRemovesChars(render: Rasterizer, st: State, cache: MatcherCache, codes: seq<CodeUnit>)
    requires Ordered(st.tree) && CacheOrdered(cache)
    requires ReplayRemoves(render, st, cache, codes).Some?
    ensures ReplayRemoves(render, st, cache, codes).value.0.chars == RemoveAllFromChars(st.chars, codes)
    decreases |codes|
  {
    if codes != [] {
      var next := RemoveStep(render, st, cache, codes[0]);
      ReplayRemovesChars(render, next.0, next.1, codes[1..]);
      assert ReplayRemoves(render, st, cache, codes) == ReplayRemoves(render, next.0, next.1, codes[1..]);
    }
  }

  /**
   * A run of additions leaves a sorted list (strictly sorted if it was) whose
   * elements are the old ones and the added codes.
   */
  lemma ReplayAddMembers(render: Rasterizer, st: State, cache: MatcherCache, codes: seq<CodeUnit>)
    requires Ordered(st.tree) && CacheOrdered(cache) && Sorted(st.chars)
    requires ReplayAdds(render, st, cache, codes).Some?
    ensures var chars' := ReplayAdds(render, st, cache, codes).value.0.chars;
      && Sorted(chars')
      && (StrictlySorted(st.chars) ==> StrictlySorted(chars'))
      && (forall x :: x in chars' <==> x in st.chars || x in codes)
  {
    ReplayAddsChars(render, st, cache, codes);
    AddAllSpec(st.chars, codes);
  }

  /**
   * A run of removals on a strictly sorted list leaves it strictly sorted, with
   * exactly the old elements that are not among the removed codes.
   */
  lemma ReplayRemoveMembers(render: Rasterizer, st: State, cache: MatcherCache, codes: seq<CodeUnit>)
    requires Ordered(st.tree) && CacheOrdered(cache) && StrictlySorted(st.chars)
    requires ReplayRemoves(render, st, cache, codes).Some?
    ensures var chars' := ReplayRemoves(render, st, cache, codes).value.0.chars;
      && StrictlySorted(chars')
      && (forall x :: x in chars' <==> x in st.chars && x !in codes)
  {
    ReplayRemovesChars(render, st, cache, codes);
    RemoveAllSpec(st.chars, codes);
  }
}
