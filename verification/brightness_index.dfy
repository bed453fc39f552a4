/**
 * The matcher's TreeMap<Double, Character> from normalized brightness to
 * character, as a sequence of entries in strictly ascending key order:
 * put, remove, floorKey, ceilingKey, firstKey, lastKey, values(), and the
 * nearest-key lookup of getCharByImageBrightness.
 */
module BrightnessIndex {
  import opened CodeUnits
  import opened Wrappers

  datatype Entry = Entry(key: real, ch: CodeUnit)

  type Index = seq<Entry>

  /** Keys strictly ascending, so every key occurs once. */
  ghost predicate Ordered(t: Index)
  {
    forall i, j :: 0 <= i < j < |t| ==> t[i].key < t[j].key
  }

  /** containsKey. */
  predicate HasKey(t: Index, k: real)
  {
    exists i :: 0 <= i < |t| && t[i].key == k
  }

  /** An ordered index is its first entry, below every other key, followed by an ordered rest. */
  lemma OrderedTail(t: Index)
    requires Ordered(t) && t != []
    ensures Ordered(t[1..])
    ensures forall e :: e in t[1..] ==> t[0].key < e.key
    ensures forall e :: e in t <==> e == t[0] || e in t[1..]
  {
    assert t == [t[0]] + t[1..];
  }

  /** An entry below every key of an ordered index can go in front of it. */
  lemma OrderedCons(x: Entry, rest: Index)
    requires Ordered(rest)
    requires forall e :: e in rest ==> x.key < e.key
    ensures Ordered([x] + rest)
    ensures forall e :: e in [x] + rest <==> e == x || e in rest
  {
    var r := [x] + rest;
    forall i, j | 0 <= i < j < |r| ensures r[i].key < r[j].key {
      assert r[j] == rest[j - 1];
      if i == 0 {
        assert rest[j - 1] in rest;
      } else {
        assert r[i] == rest[i - 1];
      }
    }
  }

  /** put(k, v): the entry for k is replaced, or added in key order. */
  function Put(t: Index, k: real, v: CodeUnit): (r: Index)
    requires Ordered(t)
    ensures Ordered(r)
    ensures forall e :: e in r <==> (e in t && e.key != k) || e == Entry(k, v)
  {
    if t == [] then [Entry(k, v)]
    else
      OrderedTail(t);
      if k < t[0].key then
        OrderedCons(Entry(k, v), t);
        [Entry(k, v)] + t
      else if k == t[0].key then
        OrderedCons(Entry(k, v), t[1..]);
        [Entry(k, v)] + t[1..]
      else
        var rest := Put(t[1..], k, v);
        OrderedCons(t[0], rest);
        [t[0]] + rest
  }

  /** After put(k, v) the index has the key k and every key it had before. */
  lemma PutHasKey(t: Index, k: real, v: CodeUnit, k': real)
    requires Ordered(t) && (HasKey(t, k') || k' == k)
    ensures HasKey(Put(t, k, v), k')
  {
    var r := Put(t, k, v);
    var e := if k' == k then Entry(k, v) else var j :| 0 <= j < |t| && t[j].key == k'; t[j];
    assert e in r && e.key == k';
    var i :| 0 <= i < |r| && r[i] == e;
  }

  /** remove(k): the entry for k, if any, is dropped. */
  function Remove(t: Index, k: real): (r: Index)
    requires Ordered(t)
    ensures Ordered(r)
    ensures forall e :: e in r <==> e in t && e.key != k
  {
    if t == [] then []
    else
      OrderedTail(t);
      if t[0].key == k then t[1..]
      else
        var rest := Remove(t[1..], k);
        OrderedCons(t[0], rest);
        [t[0]] + rest
  }

  /** firstKey: the least key. */
  function FirstKey(t: Index): (k: real)
    requires Ordered(t) && t != []
    ensures HasKey(t, k)
    ensures forall e :: e in t ==> k <= e.key
  {
    t[0].key
  }

  /** lastKey: the greatest key. */
  function LastKey(t: Index): (k: real)
    requires Ordered(t) && t != []
    ensures HasKey(t, k)
    ensures forall e :: e in t ==> e.key <= k
  {
    t[|t| - 1].key
  }

  /** values(): the characters in ascending key order. */
  function Values(t: Index): (vs: seq<CodeUnit>)
    ensures |vs| == |t|
    ensures forall i :: 0 <= i < |t| ==> vs[i] == t[i].ch
  {
    seq(|t|, i requires 0 <= i < |t| => t[i].ch)
  }

  /** ceilingKey(b) with its entry: the entry with the least key >= b, if any. */
  function Ceiling(t: Index, b: real): (r: Option<Entry>)
    requires Ordered(t)
    ensures r.Some? ==> r.value in t && r.value.key >= b
    ensures r.Some? ==> forall e :: e in t && e.key >= b ==> r.value.key <= e.key
    ensures r.None? <==> forall e :: e in t ==> e.key < b
  {
    if t == [] then None
    else if t[0].key >= b then
      assert forall e :: e in t ==> t[0].key <= e.key;
      Some(t[0])
    else
      assert t == [t[0]] + t[1..];
      Ceiling(t[1..], b)
  }

  /** floorKey(b) with its entry: the entry with the greatest key <= b, if any. */
  function Floor(t: Index, b: real): (r: Option<Entry>)
    requires Ordered(t)
    ensures r.Some? ==> r.value in t && r.value.key <= b
    ensures r.Some? ==> forall e :: e in t && e.key <= b ==> e.key <= r.value.key
    ensures r.None? <==> forall e :: e in t ==> e.key > b
  {
    if t == [] then None
    else if t[0].key > b then
      assert forall e :: e in t ==> t[0].key <= e.key;
      None
    else
      assert t == [t[0]] + t[1..];
      match Floor(t[1..], b)
      case None => Some(t[0])
      case Some(e) => Some(e)
  }

  /** Distance between a key and a brightness. */
  function Dist(k: real, b: real): real
  {
    if k >= b then k - b else b - k
  }

  /** e is an entry of t at least as near to b as any other, and the greatest key among the nearest. */
  ghost predicate IsNearest(t: Index, b: real, e: Entry)
  {
    && e in t
    && (forall e' :: e' in t ==> Dist(e.key, b) <= Dist(e'.key, b))
    && (forall e' :: e' in t && Dist(e'.key, b) == Dist(e.key, b) ==> e'.key <= e.key)
  }

  /**
   * The entry getCharByImageBrightness picks: the floor when there is no
   * ceiling, the ceiling when there is no floor, otherwise the floor only when
   * it is strictly nearer, so that an equal distance goes to the ceiling.
   * That entry is a nearest one, and the greatest among the nearest ones.
   */
  function Nearest(t: Index, b: real): (e: Entry)
    requires Ordered(t) && t != []
    ensures e in t
    ensures forall e' :: e' in t ==> Dist(e.key, b) <= Dist(e'.key, b)
    ensures forall e' :: e' in t && Dist(e'.key, b) == Dist(e.key, b) ==> e'.key <= e.key
  {
    assert t[0] in t;
    var ceil := Ceiling(t, b);
    var floor := Floor(t, b);
    if ceil.None? then floor.value
    else if floor.None? then ceil.value
    else if ceil.value.key - b > b - floor.value.key then floor.value
    else ceil.value
  }

  /**
   * The chosen key never decreases as the queried brightness grows: the
   * matcher maps a brighter tile to a glyph at least as bright.
   */
  lemma NearestMonotone(t: Index, b1: real, b2: real)
    requires Ordered(t) && t != [] && b1 < b2
    ensures Nearest(t, b1).key <= Nearest(t, b2).key
  {
    var e1, e2 := Nearest(t, b1), Nearest(t, b2);
    // Were e1 above e2: e1 is at least as near to b1 as e2, so b1 lies at or above
    // their midpoint; e2 is strictly nearer to b2 (a tie would have chosen e1), so
    // b2 lies below it, against b1 < b2.
    assert Dist(e1.key, b1) <= Dist(e2.key, b1);
    assert e1.key > e2.key ==> Dist(e2.key, b2) < Dist(e1.key, b2);
  }
}
