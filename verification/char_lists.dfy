/**
 * The matcher's character list `chars`: Arrays.sort on the constructor's
 * input, the binary search findInsertionPoint, and the list edits of
 * addChar (insert at the insertion point) and removeChar (remove at it).
 */
module CharLists {
  import opened CodeUnits

  /** Non-decreasing, as Arrays.sort leaves a char array. */
  ghost predicate Sorted(s: seq<CodeUnit>)
  {
    forall i, j :: 0 <= i < j < |s| ==> s[i] <= s[j]
  }

  /** Ascending and duplicate-free. */
  ghost predicate StrictlySorted(s: seq<CodeUnit>)
  {
    forall i, j :: 0 <= i < j < |s| ==> s[i] < s[j]
  }

  /** A sorted list is its least element followed by a sorted rest. */
  lemma SortedTail(s: seq<CodeUnit>)
    requires Sorted(s) && s != []
    ensures Sorted(s[1..])
    ensures forall y :: y in s[1..] ==> s[0] <= y
    ensures s == [s[0]] + s[1..]
  {
  }

  /** An element at most every element of a sorted list can go in front of it. */
  lemma SortedCons(x: CodeUnit, rest: seq<CodeUnit>)
    requires Sorted(rest)
    requires forall y :: y in rest ==> x <= y
    ensures Sorted([x] + rest)
  {
    var r := [x] + rest;
    forall i, j | 0 <= i < j < |r| ensures r[i] <= r[j] {
      assert r[j] == rest[j - 1];
      if i == 0 {
        assert rest[j - 1] in rest;
      } else {
        assert r[i] == rest[i - 1];
      }
    }
  }

  /** Inserts x before the first element not below it. */
  function InsertSorted(s: seq<CodeUnit>, x: CodeUnit): (r: seq<CodeUnit>)
    requires Sorted(s)
    ensures |r| == |s| + 1
    ensures forall y :: y in r <==> y in s || y == x
    ensures Sorted(r)
    ensures multiset(r) == multiset(s) + multiset{x}
  {
    if s == [] then [x]
    else
      SortedTail(s);
      if x <= s[0] then
        SortedCons(x, s);
        [x] + s
      else
        var rest := InsertSorted(s[1..], x);
        SortedCons(s[0], rest);
        [s[0]] + rest
  }

  /** Arrays.sort(charset): the ascending rearrangement of the input, duplicates kept. */
  function SortChars(s: seq<CodeUnit>): (r: seq<CodeUnit>)
    ensures Sorted(r)
    ensures multiset(r) == multiset(s)
    ensures |r| == |s|
  {
    if s == [] then []
    else
      assert s == s[..|s| - 1] + [s[|s| - 1]];
      InsertSorted(SortChars(s[..|s| - 1]), s[|s| - 1])
  }

  /** A sorted list has only one ascending arrangement: sorting it changes nothing. */
  lemma {:induction false} SortSortedIsIdentity(s: seq<CodeUnit>)
    requires Sorted(s)
    ensures SortChars(s) == s
  {
    SortedUnique(SortChars(s), s);
  }

  /** In a sorted list the first element is the least one. */
  lemma FirstIsLeast(s: seq<CodeUnit>, x: CodeUnit)
    requires Sorted(s) && x in multiset(s)
    ensures s[0] <= x
  {
    assert x in s;
  }

  lemma {:induction false} SortedUnique(a: seq<CodeUnit>, b: seq<CodeUnit>)
    requires Sorted(a) && Sorted(b) && multiset(a) == multiset(b)
    ensures a == b
    decreases |a|
  {
    assert |a| == |multiset(a)| == |multiset(b)| == |b|;
    if a != [] {
      assert a[0] in multiset(a) && b[0] in multiset(b);
      FirstIsLeast(a, b[0]);
      FirstIsLeast(b, a[0]);
      var a', b' := a[1..], b[1..];
      assert a == [a[0]] + a';
      assert b == [b[0]] + b';
      assert multiset(a') == multiset(b') by {
        assert a[0] == b[0];
        assert multiset(a) == multiset{a[0]} + multiset(a');
        assert multiset(b) == multiset{b[0]} + multiset(b');
        assert multiset(a') == multiset(a) - multiset{a[0]};
        assert multiset(b') == multiset(b) - multiset{b[0]};
      }
      SortedUnique(a', b');
    }
  }

  /** The middle index low + (high - low) / 2 of a nonempty window. */
  function Mid(low: int, high: int): (m: int)
    requires low <= high
    ensures low <= m <= high
  {
    low + (high - low) / 2
  }

  /**
   * The binary search loop of findInsertionPoint, from the window [low, high]:
   * the middle index when it holds the target, otherwise the search goes on in
   * the half the target belongs to; `low` once the window is empty.
   */
  function Search(list: seq<CodeUnit>, target: CodeUnit, low: int, high: int): (r: int)
    requires 0 <= low <= high + 1 <= |list|
    ensures low <= r <= high + 1
    decreases high - low
  {
    if low > high then low
    else
      var mid := Mid(low, high);
      if list[mid] == target then mid
      else if list[mid] < target then Search(list, target, mid + 1, high)
      else Search(list, target, low, mid - 1)
  }

  /** findInsertionPoint(list, target). */
  function InsertionPoint(list: seq<CodeUnit>, target: CodeUnit): (r: nat)
    ensures r <= |list|
  {
    Search(list, target, 0, |list| - 1)
  }

  /** Every element before index r is below the target. */
  ghost predicate AllBelow(list: seq<CodeUnit>, r: int, target: CodeUnit)
    requires 0 <= r <= |list|
  {
    forall j :: 0 <= j < r ==> list[j] < target
  }

  /** Every element from index r on is above the target. */
  ghost predicate AllAbove(list: seq<CodeUnit>, r: int, target: CodeUnit)
    requires 0 <= r <= |list|
  {
    forall j :: r <= j < |list| ==> list[j] > target
  }

  /**
   * On a sorted window whose left part is below the target and whose right part
   * is above it, the search either finds the target or stops at the boundary
   * between the smaller and the larger elements.
   */
  lemma {:induction false} SearchPartitions(list: seq<CodeUnit>, target: CodeUnit, low: int, high: int)
    requires 0 <= low <= high + 1 <= |list|
    requires Sorted(list)
    requires AllBelow(list, low, target) && AllAbove(list, high + 1, target)
    ensures var r := Search(list, target, low, high);
      (r < |list| && list[r] == target) || (AllBelow(list, r, target) && AllAbove(list, r, target))
    decreases high - low, 1
  {
    if low <= high && list[Mid(low, high)] != target {
      SearchHalves(list, target, low, high);
    }
  }

  /** The step of SearchPartitions that goes on in one half of the window. */
  lemma {:induction false} SearchHalves(list: seq<CodeUnit>, target: CodeUnit, low: int, high: int)
    requires 0 <= low <= high < |list| && list[Mid(low, high)] != target
    requires Sorted(list)
    requires AllBelow(list, low, target) && AllAbove(list, high + 1, target)
    ensures var r := Search(list, target, low, high);
      (r < |list| && list[r] == target) || (AllBelow(list, r, target) && AllAbove(list, r, target))
    decreases high - low, 0
  {
    var mid := Mid(low, high);
    if list[mid] < target {
      assert Search(list, target, low, high) == Search(list, target, mid + 1, high);
      SortedBelow(list, mid, target);
      SearchPartitions(list, target, mid + 1, high);
    } else {
      assert Search(list, target, low, high) == Search(list, target, low, mid - 1);
      SortedAbove(list, mid, target);
      SearchPartitions(list, target, low, mid - 1);
    }
  }

  lemma SortedBelow(list: seq<CodeUnit>, mid: int, target: CodeUnit)
    requires Sorted(list) && 0 <= mid < |list| && list[mid] < target
    ensures AllBelow(list, mid + 1, target)
  {
    forall j | 0 <= j < mid + 1 ensures list[j] < target {
      if j < mid { assert list[j] <= list[mid]; }
    }
  }

  lemma SortedAbove(list: seq<CodeUnit>, mid: int, target: CodeUnit)
    requires Sorted(list) && 0 <= mid < |list| && list[mid] > target
    ensures AllAbove(list, mid, target)
  {
    forall j | mid <= j < |list| ensures list[j] > target {
      if j > mid { assert list[mid] <= list[j]; }
    }
  }

  /**
   * What findInsertionPoint promises on a sorted list: every element before the
   * result is at most the target, every element from it on is at least the
   * target, the target is present exactly when it sits at the result, and when it
   * is absent the elements before the result are strictly smaller and the rest
   * strictly larger. On a strictly sorted list the elements before are smaller.
   */
  lemma InsertionPointSpec(list: seq<CodeUnit>, target: CodeUnit)
    requires Sorted(list)
    ensures var i := InsertionPoint(list, target);
      && (forall j :: 0 <= j < i ==> list[j] <= target)
      && (forall j :: i <= j < |list| ==> list[j] >= target)
      && (target in list <==> i < |list| && list[i] == target)
      && (target !in list ==>
            (forall j :: 0 <= j < i ==> list[j] < target) && (forall j :: i <= j < |list| ==> list[j] > target))
      && (StrictlySorted(list) ==> forall j :: 0 <= j < i ==> list[j] < target)
  {
    SearchPartitions(list, target, 0, |list| - 1);
  }

  /** findInsertionPoint: the binary search loop over low/high. */
  method FindInsertionPoint(list: seq<CodeUnit>, target: CodeUnit) returns (i: nat)
    ensures i == InsertionPoint(list, target)
    ensures i <= |list|
    ensures Sorted(list) ==> (target in list <==> i < |list| && list[i] == target)
    ensures StrictlySorted(list) ==>
      (forall j :: 0 <= j < i ==> list[j] < target) && (forall j :: i <= j < |list| ==> list[j] >= target)
  {
    var low := 0;
    var high := |list| - 1;
    while low <= high
      invariant 0 <= low <= high + 1 <= |list|
      invariant Search(list, target, low, high) == InsertionPoint(list, target)
      decreases high - low
    {
      var mid := Mid(low, high);
      var midChar := list[mid];
      if midChar == target {
        i := mid;
        StrictImpliesSorted(list);
        if Sorted(list) { InsertionPointSpec(list, target); }
        return;
      } else if midChar < target {
        low := mid + 1;
      } else {
        high := mid - 1;
      }
    }
    i := low;
    StrictImpliesSorted(list);
    if Sorted(list) { InsertionPointSpec(list, target); }
  }

  lemma StrictImpliesSorted(s: seq<CodeUnit>)
    ensures StrictlySorted(s) ==> Sorted(s)
  {
  }

  /** The list after chars.add(insertionPoint, c) when c is not already at the insertion point. */
  function AddToChars(chars: seq<CodeUnit>, c: CodeUnit): seq<CodeUnit>
  {
    var ip := InsertionPoint(chars, c);
    if ip == |chars| || chars[ip] != c then chars[..ip] + [c] + chars[ip..] else chars
  }

  /** Whether removeChar finds c at its insertion point (otherwise it returns at once). */
  predicate FoundAtInsertionPoint(chars: seq<CodeUnit>, c: CodeUnit)
  {
    var ip := InsertionPoint(chars, c);
    ip < |chars| && chars[ip] == c
  }

  /** The list after chars.remove(findInsertionPoint(chars, c)), when c was found there. */
  function RemoveFromChars(chars: seq<CodeUnit>, c: CodeUnit): seq<CodeUnit>
  {
    var ip := InsertionPoint(chars, c);
    if ip < |chars| && chars[ip] == c then chars[..ip] + chars[ip + 1..] else chars
  }

  /** Inserting c between the elements below it and those above it keeps the order. */
  lemma InsertBetween(s: seq<CodeUnit>, ip: nat, c: CodeUnit)
    requires ip <= |s| && Sorted(s)
    requires forall j :: 0 <= j < ip ==> s[j] < c
    requires forall j :: ip <= j < |s| ==> s[j] > c
    ensures Sorted(s[..ip] + [c] + s[ip..])
    ensures StrictlySorted(s) ==> StrictlySorted(s[..ip] + [c] + s[ip..])
  {
    var r := s[..ip] + [c] + s[ip..];
    assert forall k :: 0 <= k < ip ==> r[k] == s[k];
    assert forall k :: ip < k < |r| ==> r[k] == s[k - 1];
  }

  lemma MultisetInsert(s: seq<CodeUnit>, ip: nat, c: CodeUnit)
    requires ip <= |s|
    ensures multiset(s[..ip] + [c] + s[ip..]) == multiset(s) + multiset{c}
    ensures forall x :: x in s[..ip] + [c] + s[ip..] <==> x in s || x == c
  {
    assert s == s[..ip] + s[ip..];
    var r := s[..ip] + [c] + s[ip..];
    forall x ensures x in r <==> x in s || x == c {
      assert x in r <==> x in multiset(r);
      assert x in s <==> x in multiset(s);
    }
  }

  /** Deleting one element keeps the order. */
  lemma DeleteAt(s: seq<CodeUnit>, ip: nat)
    requires ip < |s| && Sorted(s)
    ensures Sorted(s[..ip] + s[ip + 1..])
    ensures StrictlySorted(s) ==> StrictlySorted(s[..ip] + s[ip + 1..])
    ensures StrictlySorted(s) ==> s[ip] !in s[..ip] + s[ip + 1..]
  {
    var r := s[..ip] + s[ip + 1..];
    assert forall k :: 0 <= k < ip ==> r[k] == s[k];
    assert forall k :: ip <= k < |r| ==> r[k] == s[k + 1];
    if StrictlySorted(s) {
      forall x | x in r ensures x != s[ip] {
        var k :| 0 <= k < |r| && r[k] == x;
        if k < ip { assert s[k] < s[ip]; } else { assert s[k + 1] > s[ip]; }
      }
    }
  }

  /**
   * addChar keeps the list sorted (strictly sorted if it was), the new list holds
   * exactly the old elements and c, and an element already present is not
   * inserted a second time.
   */
  lemma AddToCharsSpec(chars: seq<CodeUnit>, c: CodeUnit)
    requires Sorted(chars)
    ensures var r := AddToChars(chars, c);
      && Sorted(r)
      && (StrictlySorted(chars) ==> StrictlySorted(r))
      && (c in chars ==> r == chars)
      && (c !in chars ==> multiset(r) == multiset(chars) + multiset{c})
      && (forall x :: x in r <==> x in chars || x == c)
  {
    InsertionPointSpec(chars, c);
    var ip := InsertionPoint(chars, c);
    if c !in chars {
      assert AddToChars(chars, c) == chars[..ip] + [c] + chars[ip..];
      InsertBetween(chars, ip, c);
      MultisetInsert(chars, ip, c);
    }
  }

  /**
   * removeChar keeps the list sorted; c is removed once when present and the
   * list is unchanged when it is absent; on a strictly sorted list c is gone
   * afterwards and every other element stays.
   */
  lemma RemoveFromCharsSpec(chars: seq<CodeUnit>, c: CodeUnit)
    requires Sorted(chars)
    ensures var r := RemoveFromChars(chars, c);
      && Sorted(r)
      && (StrictlySorted(chars) ==> StrictlySorted(r))
      && (FoundAtInsertionPoint(chars, c) <==> c in chars)
      && (c !in chars ==> r == chars)
      && (c in chars ==> multiset(r) == multiset(chars) - multiset{c})
      && (StrictlySorted(chars) ==> forall x :: x in r <==> x in chars && x != c)
  {
    InsertionPointSpec(chars, c);
    var ip := InsertionPoint(chars, c);
    if c in chars {
      DeleteAt(chars, ip);
      assert chars == chars[..ip] + [c] + chars[ip + 1..];
    }
  }

  /** The list after addChar's list edit for each code in turn. */
  function AddAllToChars(chars: seq<CodeUnit>, codes: seq<CodeUnit>): seq<CodeUnit>
    decreases |codes|
  {
    if codes == [] then chars else AddAllToChars(AddToChars(chars, codes[0]), codes[1..])
  }

  /** The list after removeChar's list edit for each code in turn. */
  function RemoveAllFromChars(chars: seq<CodeUnit>, codes: seq<CodeUnit>): seq<CodeUnit>
    decreases |codes|
  {
    if codes == [] then chars else RemoveAllFromChars(RemoveFromChars(chars, codes[0]), codes[1..])
  }

  /** A run of insertions keeps the list sorted (strictly, if it was) and adds exactly the codes. */
  lemma {:induction false} AddAllSpec(chars: seq<CodeUnit>, codes: seq<CodeUnit>)
    requires Sorted(chars)
    ensures var r := AddAllToChars(chars, codes);
      && Sorted(r)
      && (StrictlySorted(chars) ==> StrictlySorted(r))
      && (forall x :: x in r <==> x in chars || x in codes)
    decreases |codes|
  {
    if codes != [] {
      var c, rest := codes[0], codes[1..];
      var next := AddToChars(chars, c);
      AddToCharsSpec(chars, c);
      AddAllSpec(next, rest);
      assert AddAllToChars(chars, codes) == AddAllToChars(next, rest);
      assert forall x :: x in codes <==> x == c || x in rest by {
        assert codes == [c] + rest;
      }
    }
  }

  /** A run of deletions keeps a strictly sorted list strictly sorted and takes out exactly the codes. */
  lemma {:induction false} RemoveAllSpec(chars: seq<CodeUnit>, codes: seq<CodeUnit>)
    requires StrictlySorted(chars)
    ensures var r := RemoveAllFromChars(chars, codes);
      && StrictlySorted(r)
      && (forall x :: x in r <==> x in chars && x !in codes)
    decreases |codes|
  {
    if codes != [] {
      var c, rest := codes[0], codes[1..];
      StrictImpliesSorted(chars);
      var next := RemoveFromChars(chars, c);
      RemoveFromCharsSpec(chars, c);
      RemoveAllSpec(next, rest);
      assert RemoveAllFromChars(chars, codes) == RemoveAllFromChars(next, rest);
      assert forall x :: x in codes <==> x == c || x in rest by {
        assert codes == [c] + rest;
      }
    }
  }
}
