/** The java.util list operations the grammar and the chart rely on: Collections.binarySearch,
    positional insertion and removal in an ArrayList, List.sort, and the "walk up, then walk
    down from a search hit" range scan that every grammar query performs. */
module SortedLists {

  /** Sorted by a Java comparator: no later element compares below an earlier one. */
  predicate Sorted<T>(xs: seq<T>, cmp: (T, T) -> int)
  {
    forall i, j :: 0 <= i < j < |xs| ==> cmp(xs[i], xs[j]) <= 0
  }

  /** With respect to key, the elements below it come first and the elements above it last:
      the condition under which a binary search by key is meaningful. */
  predicate Partitioned<T, K>(xs: seq<T>, key: K, cmp: (T, K) -> int)
  {
    forall i, j :: 0 <= i < j < |xs| ==>
      (cmp(xs[j], key) < 0 ==> cmp(xs[i], key) < 0) && (cmp(xs[i], key) > 0 ==> cmp(xs[j], key) > 0)
  }

  /** ip is where key belongs: everything before it is below key, everything from it on above. */
  predicate InsertionPoint<T, K>(xs: seq<T>, key: K, cmp: (T, K) -> int, ip: int)
  {
    && 0 <= ip <= |xs|
    && (forall k :: 0 <= k < ip ==> cmp(xs[k], key) < 0)
    && (forall k :: ip <= k < |xs| ==> cmp(xs[k], key) > 0)
  }

  predicate Distinct<T(==)>(xs: seq<T>)
  {
    forall i, j :: 0 <= i < j < |xs| ==> xs[i] != xs[j]
  }

  /** The JDK's indexedBinarySearch between low and high: a hit is the index of some element
      comparing 0 with key, a miss is -(insertion point) - 1.  Whatever the order of the list, a
      hit really compares 0 and a miss encodes a position in range; a miss is proof of absence
      only on a list partitioned by key. */
  function SearchIn<T, K>(xs: seq<T>, key: K, cmp: (T, K) -> int, low: int, high: int): (pos: int)
    requires 0 <= low <= high + 1 <= |xs|
    ensures pos >= 0 ==> low <= pos <= high && cmp(xs[pos], key) == 0
    ensures pos < 0 ==> low <= -pos - 1 <= high + 1
    decreases high - low + 1
  {
    if low > high then -(low + 1)
    else
      var mid := (low + high) / 2;
      var c := cmp(xs[mid], key);
      if c < 0 then SearchIn(xs, key, cmp, mid + 1, high)
      else if c > 0 then SearchIn(xs, key, cmp, low, mid - 1)
      else mid
  }

  /** On a partitioned list, a miss between low and high (everything below low being below
      key, everything above high above it) is the insertion point. */
  lemma {:induction false} SearchInMiss<T, K>(xs: seq<T>, key: K, cmp: (T, K) -> int, low: int, high: int)
    requires 0 <= low <= high + 1 <= |xs| && Partitioned(xs, key, cmp)
    requires forall k :: 0 <= k < low ==> cmp(xs[k], key) < 0
    requires forall k :: high < k < |xs| ==> cmp(xs[k], key) > 0
    requires SearchIn(xs, key, cmp, low, high) < 0
    ensures InsertionPoint(xs, key, cmp, -SearchIn(xs, key, cmp, low, high) - 1)
    decreases high - low + 1, 1
  {
    if low <= high {
      var mid := (low + high) / 2;
      var c := cmp(xs[mid], key);
      if c < 0 {
        SearchInMissBelow(xs, key, cmp, low, high);
      } else if c > 0 {
        SearchInMissAbove(xs, key, cmp, low, high);
      }
    }
  }

  /** The miss when the middle element is below key: the search goes on above it. */
  lemma {:induction false} SearchInMissBelow<T, K>(xs: seq<T>, key: K, cmp: (T, K) -> int, low: int, high: int)
    requires 0 <= low <= high < |xs| && Partitioned(xs, key, cmp)
    requires forall k :: 0 <= k < low ==> cmp(xs[k], key) < 0
    requires forall k :: high < k < |xs| ==> cmp(xs[k], key) > 0
    requires cmp(xs[(low + high) / 2], key) < 0 && SearchIn(xs, key, cmp, low, high) < 0
    ensures InsertionPoint(xs, key, cmp, -SearchIn(xs, key, cmp, low, high) - 1)
    decreases high - low + 1, 0
  {
    var mid := (low + high) / 2;
    BelowUpTo(xs, key, cmp, mid);
    SearchInMiss(xs, key, cmp, mid + 1, high);
  }

  /** The miss when the middle element is above key: the search goes on below it. */
  lemma {:induction false} SearchInMissAbove<T, K>(xs: seq<T>, key: K, cmp: (T, K) -> int, low: int, high: int)
    requires 0 <= low <= high < |xs| && Partitioned(xs, key, cmp)
    requires forall k :: 0 <= k < low ==> cmp(xs[k], key) < 0
    requires forall k :: high < k < |xs| ==> cmp(xs[k], key) > 0
    requires cmp(xs[(low + high) / 2], key) > 0 && SearchIn(xs, key, cmp, low, high) < 0
    ensures InsertionPoint(xs, key, cmp, -SearchIn(xs, key, cmp, low, high) - 1)
    decreases high - low + 1, 0
  {
    var mid := (low + high) / 2;
    AboveFrom(xs, key, cmp, mid);
    SearchInMiss(xs, key, cmp, low, mid - 1);
  }

  /** On a partitioned list, an element below key has only elements below key before it. */
  lemma BelowUpTo<T, K>(xs: seq<T>, key: K, cmp: (T, K) -> int, mid: int)
    requires 0 <= mid < |xs| && Partitioned(xs, key, cmp) && cmp(xs[mid], key) < 0
    ensures forall k :: 0 <= k < mid + 1 ==> cmp(xs[k], key) < 0
  {
    forall k | 0 <= k < mid ensures cmp(xs[k], key) < 0 {
      assert cmp(xs[mid], key) < 0 ==> cmp(xs[k], key) < 0;
    }
  }

  /** On a partitioned list, an element above key has only elements above key after it. */
  lemma AboveFrom<T, K>(xs: seq<T>, key: K, cmp: (T, K) -> int, mid: int)
    requires 0 <= mid < |xs| && Partitioned(xs, key, cmp) && cmp(xs[mid], key) > 0
    ensures forall k :: mid - 1 < k < |xs| ==> cmp(xs[k], key) > 0
  {
    forall k | mid < k < |xs| ensures cmp(xs[k], key) > 0 {
      assert cmp(xs[mid], key) > 0 ==> cmp(xs[k], key) > 0;
    }
  }

  /** Collections.binarySearch(list, key, comparator) on a random-access list. */
  function Search<T, K>(xs: seq<T>, key: K, cmp: (T, K) -> int): (pos: int)
    ensures -|xs| - 1 <= pos < |xs|
    ensures pos >= 0 ==> cmp(xs[pos], key) == 0
    ensures Partitioned(xs, key, cmp) && pos < 0 ==> InsertionPoint(xs, key, cmp, -pos - 1)
    ensures Partitioned(xs, key, cmp) ==> (pos < 0 <==> forall k :: 0 <= k < |xs| ==> cmp(xs[k], key) != 0)
  {
    var pos := SearchIn(xs, key, cmp, 0, |xs| - 1);
    if Partitioned(xs, key, cmp) && pos < 0 then
      SearchInMiss(xs, key, cmp, 0, |xs| - 1);
      pos
    else pos
  }

  /** The loop of indexedBinarySearch. */
  method BinarySearch<T, K>(xs: seq<T>, key: K, cmp: (T, K) -> int) returns (pos: int)
    ensures pos == Search(xs, key, cmp)
  {
    var low, high := 0, |xs| - 1;
    while low <= high
      invariant 0 <= low <= high + 1 <= |xs|
      invariant SearchIn(xs, key, cmp, low, high) == Search(xs, key, cmp)
      decreases high - low + 1
    {
      var mid := (low + high) / 2;
      var c := cmp(xs[mid], key);
      if c < 0 {
        low := mid + 1;
      } else if c > 0 {
        high := mid - 1;
      } else {
        return mid;
      }
    }
    return -(low + 1);
  }

  /** ArrayList.add(i, x). */
  function Insert<T>(xs: seq<T>, i: int, x: T): (r: seq<T>)
    requires 0 <= i <= |xs|
    ensures |r| == |xs| + 1 && r[i] == x
    ensures r[..i] == xs[..i] && r[i + 1..] == xs[i..]
    ensures multiset(r) == multiset(xs) + multiset{x}
  {
    assert xs == xs[..i] + xs[i..];
    xs[..i] + [x] + xs[i..]
  }

  /** ArrayList.remove(i). */
  function Remove<T>(xs: seq<T>, i: int): (r: seq<T>)
    requires 0 <= i < |xs|
    ensures |r| == |xs| - 1
    ensures r[..i] == xs[..i] && r[i..] == xs[i + 1..]
    ensures multiset(r) == multiset(xs) - multiset{xs[i]}
  {
    assert xs == xs[..i] + [xs[i]] + xs[i + 1..];
    xs[..i] + xs[i + 1..]
  }

  /** What Remove leaves at position k. */
  lemma RemovedAt<T>(xs: seq<T>, i: int, k: int)
    requires 0 <= i < |xs| && 0 <= k < |xs| - 1
    ensures Remove(xs, i)[k] == if k < i then xs[k] else xs[k + 1]
  {
    var r := Remove(xs, i);
    if k < i {
      assert r[k] == r[..i][k];
    } else {
      assert r[k] == r[i..][k - i];
    }
  }

  lemma RemoveDistinct<T>(xs: seq<T>, i: int)
    requires Distinct(xs) && 0 <= i < |xs|
    ensures Distinct(Remove(xs, i))
  {
    var r := Remove(xs, i);
    forall a, b | 0 <= a < b < |r| ensures r[a] != r[b] {
      RemovedAt(xs, i, a);
      RemovedAt(xs, i, b);
    }
  }

  /** Inserting an element between the ones not above it and the ones not below it keeps a
      list sorted. */
  lemma InsertSorted<T>(xs: seq<T>, i: int, x: T, cmp: (T, T) -> int)
    requires Sorted(xs, cmp) && 0 <= i <= |xs|
    requires forall k :: 0 <= k < i ==> cmp(xs[k], x) <= 0
    requires forall k :: i <= k < |xs| ==> cmp(x, xs[k]) <= 0
    ensures Sorted(Insert(xs, i, x), cmp)
  {
    var r := Insert(xs, i, x);
    forall a, b | 0 <= a < b < |r| ensures cmp(r[a], r[b]) <= 0 {
      if b < i {
        assert r[a] == xs[a] && r[b] == xs[b];
      } else if b == i {
        assert r[a] == xs[a];
      } else if a == i {
        assert r[b] == xs[b - 1];
      } else if a < i {
        assert r[a] == xs[a] && r[b] == xs[b - 1];
      } else {
        assert r[a] == xs[a - 1] && r[b] == xs[b - 1];
      }
    }
  }

  lemma RemoveSorted<T>(xs: seq<T>, i: int, cmp: (T, T) -> int)
    requires Sorted(xs, cmp) && 0 <= i < |xs|
    ensures Sorted(Remove(xs, i), cmp)
  {
    var r := Remove(xs, i);
    forall a, b | 0 <= a < b < |r| ensures cmp(r[a], r[b]) <= 0 {
      var a', b' := if a < i then a else a + 1, if b < i then b else b + 1;
      assert r[a] == xs[a'] && r[b] == xs[b'];
    }
  }

  /** Sorted with no two elements comparing 0. */
  predicate StrictlySorted<T>(xs: seq<T>, cmp: (T, T) -> int)
  {
    forall i, j :: 0 <= i < j < |xs| ==> cmp(xs[i], xs[j]) < 0
  }

  /** Inserting an element strictly between its neighbours keeps a list strictly sorted. */
  lemma InsertStrictlySorted<T>(xs: seq<T>, i: int, x: T, cmp: (T, T) -> int)
    requires StrictlySorted(xs, cmp) && 0 <= i <= |xs|
    requires forall k :: 0 <= k < i ==> cmp(xs[k], x) < 0
    requires forall k :: i <= k < |xs| ==> cmp(x, xs[k]) < 0
    ensures StrictlySorted(Insert(xs, i, x), cmp)
  {
    var r := Insert(xs, i, x);
    forall a, b | 0 <= a < b < |r| ensures cmp(r[a], r[b]) < 0 {
      if b < i {
        assert r[a] == xs[a] && r[b] == xs[b];
      } else if b == i {
        assert r[a] == xs[a];
      } else if a == i {
        assert r[b] == xs[b - 1];
      } else if a < i {
        assert r[a] == xs[a] && r[b] == xs[b - 1];
      } else {
        assert r[a] == xs[a - 1] && r[b] == xs[b - 1];
      }
    }
  }

  lemma RemoveStrictlySorted<T>(xs: seq<T>, i: int, cmp: (T, T) -> int)
    requires StrictlySorted(xs, cmp) && 0 <= i < |xs|
    ensures StrictlySorted(Remove(xs, i), cmp)
  {
    var r := Remove(xs, i);
    forall a, b | 0 <= a < b < |r| ensures cmp(r[a], r[b]) < 0 {
      var a', b' := if a < i then a else a + 1, if b < i then b else b + 1;
      assert r[a] == xs[a'] && r[b] == xs[b'];
    }
  }

  // ---------------------------------------------------------------- first match

  /** The index of the first element satisfying p, or -1. */
  function First<T>(xs: seq<T>, p: T -> bool): (r: int)
    ensures -1 <= r < |xs|
    ensures r >= 0 ==> p(xs[r])
    ensures forall k :: 0 <= k < (if r >= 0 then r else |xs|) ==> !p(xs[k])
  {
    if xs == [] then -1
    else if p(xs[0]) then 0
    else
      var r := First(xs[1..], p);
      assert forall k :: 1 <= k < |xs| ==> xs[k] == xs[1..][k - 1];
      if r < 0 then -1 else r + 1
  }

  /** A for-each loop over xs that breaks at the first element satisfying p. */
  method FindFirst<T>(xs: seq<T>, p: T -> bool) returns (r: int)
    ensures r == First(xs, p)
  {
    for i := 0 to |xs|
      invariant forall k :: 0 <= k < i ==> !p(xs[k])
      invariant First(xs, p) == -1 || First(xs, p) >= i
    {
      if p(xs[i]) {
        return i;
      }
    }
    return -1;
  }

  // ---------------------------------------------------------------- range scan

  /** Walking down from i while walk holds: the index where the walk stops (-1 at the front). */
  function RunDown<T>(xs: seq<T>, i: int, walk: T -> bool): (r: int)
    requires -1 <= i < |xs|
    ensures -1 <= r <= i
    ensures forall k :: r < k <= i ==> walk(xs[k])
    ensures r >= 0 ==> !walk(xs[r])
    decreases i + 1
  {
    if i >= 0 && walk(xs[i]) then RunDown(xs, i - 1, walk) else i
  }

  /** Walking up from i while walk holds: the index where the walk stops (|xs| at the end). */
  function RunUp<T>(xs: seq<T>, i: int, walk: T -> bool): (r: int)
    requires 0 <= i <= |xs|
    ensures i <= r <= |xs|
    ensures forall k :: i <= k < r ==> walk(xs[k])
    ensures r < |xs| ==> !walk(xs[r])
    decreases |xs| - i
  {
    if i < |xs| && walk(xs[i]) then RunUp(xs, i + 1, walk) else i
  }

  /** The block of consecutive walk-elements around mid, as visited by the scan. */
  function Run<T>(xs: seq<T>, mid: int, walk: T -> bool): seq<T>
    requires 0 <= mid < |xs|
  {
    xs[RunDown(xs, mid, walk) + 1..RunUp(xs, mid + 1, walk)]
  }

  /** The selected elements of xs[a..b], last one first: what the upward walk collects. */
  function SelectBackward<T(==)>(xs: seq<T>, a: int, b: int, select: T -> bool): (r: seq<T>)
    requires 0 <= a <= b <= |xs|
    ensures forall k :: 0 <= k < |r| ==> r[k] in xs[a..b] && select(r[k])
    ensures forall k :: a <= k < b && select(xs[k]) ==> xs[k] in r
    ensures Distinct(xs) ==> Distinct(r)
    decreases b - a
  {
    if a == b then []
    else
      var rest := SelectBackward(xs, a + 1, b, select);
      assert xs[a..b] == [xs[a]] + xs[a + 1..b];
      assert Distinct(xs) ==> xs[a] !in xs[a + 1..b];
      rest + (if select(xs[a]) then [xs[a]] else [])
  }

  /** The selected elements of xs[a..b] in list order: what the downward walk collects. */
  function SelectForward<T(==)>(xs: seq<T>, a: int, b: int, select: T -> bool): (r: seq<T>)
    requires 0 <= a <= b <= |xs|
    ensures forall k :: 0 <= k < |r| ==> r[k] in xs[a..b] && select(r[k])
    ensures forall k :: a <= k < b && select(xs[k]) ==> xs[k] in r
    ensures Distinct(xs) ==> Distinct(r)
    decreases b - a
  {
    if a == b then []
    else
      var init := SelectForward(xs, a, b - 1, select);
      assert xs[a..b] == xs[a..b - 1] + [xs[b - 1]];
      assert Distinct(xs) ==> xs[b - 1] !in xs[a..b - 1];
      init + (if select(xs[b - 1]) then [xs[b - 1]] else [])
  }

  /** No element of a distinct list lies in two disjoint slices of it. */
  lemma DisjointSlices<T>(xs: seq<T>, a: int, m: int, b: int, x: T)
    requires 0 <= a <= m <= b <= |xs| && Distinct(xs)
    requires x in xs[a..m]
    ensures x !in xs[m..b]
  {
    var k :| a <= k < m && xs[k] == x;
    forall k' | m <= k' < b ensures xs[k'] != x {
      assert xs[k] != xs[k'];
    }
  }

  lemma AdjacentSlices<T>(xs: seq<T>, a: int, m: int, b: int)
    requires 0 <= a <= m <= b <= |xs|
    ensures xs[a..m] + xs[m..b] == xs[a..b]
  {
  }

  /** The first loop of the scan: from mid towards index 0 while walk holds; stop is the index
      where it ends (-1 past the start of the list). */
  method WalkUp<T(==)>(xs: seq<T>, mid: int, walk: T -> bool, select: T -> bool) returns (result: seq<T>, stop: int)
    requires -1 <= mid < |xs|
    ensures result == SelectBackward(xs, RunDown(xs, mid, walk) + 1, mid + 1, select)
    ensures stop == RunDown(xs, mid, walk)
  {
    result := [];
    var i := mid;
    while i >= 0 && walk(xs[i])
      invariant -1 <= i <= mid && RunDown(xs, i, walk) == RunDown(xs, mid, walk)
      invariant result == SelectBackward(xs, i + 1, mid + 1, select)
      decreases i
    {
      assert SelectBackward(xs, i, mid + 1, select) == result + (if select(xs[i]) then [xs[i]] else []);
      if select(xs[i]) {
        result := result + [xs[i]];
      }
      i := i - 1;
    }
    assert RunDown(xs, i, walk) == i;
    stop := i;
  }

  /** The second loop of the scan: from start towards the end while walk holds; stop is the
      index where it ends (|xs| past the end of the list). */
  method WalkDown<T(==)>(xs: seq<T>, start: int, walk: T -> bool, select: T -> bool) returns (result: seq<T>, stop: int)
    requires 0 <= start <= |xs|
    ensures result == SelectForward(xs, start, RunUp(xs, start, walk), select)
    ensures stop == RunUp(xs, start, walk)
  {
    result := [];
    var j := start;
    while j < |xs| && walk(xs[j])
      invariant start <= j <= |xs| && RunUp(xs, j, walk) == RunUp(xs, start, walk)
      invariant result == SelectForward(xs, start, j, select)
      decreases |xs| - j
    {
      if select(xs[j]) {
        result := result + [xs[j]];
      }
      j := j + 1;
    }
    stop := j;
  }

  /** The scan of the grammar queries: from mid upwards (towards index 0) while walk holds,
      then from mid + 1 downwards while walk holds, keeping the elements that satisfy select.
      The result holds exactly the selected elements of the visited block, each once. */
  function Around<T(==)>(xs: seq<T>, mid: int, walk: T -> bool, select: T -> bool): (r: seq<T>)
    requires 0 <= mid < |xs|
    ensures forall k :: 0 <= k < |r| ==> r[k] in Run(xs, mid, walk) && select(r[k])
    ensures forall x :: x in Run(xs, mid, walk) && select(x) ==> x in r
    ensures Distinct(xs) ==> Distinct(r)
  {
    CollectedBlock(xs, mid, walk, select);
    SelectBackward(xs, RunDown(xs, mid, walk) + 1, mid + 1, select)
      + SelectForward(xs, mid + 1, RunUp(xs, mid + 1, walk), select)
  }

  /** The two loops of the scan, and the indices where they stop. */
  method CollectAround<T(==)>(xs: seq<T>, mid: int, walk: T -> bool, select: T -> bool) returns (result: seq<T>, lo: int, hi: int)
    requires 0 <= mid < |xs|
    ensures result == Around(xs, mid, walk, select)
    ensures lo == RunDown(xs, mid, walk) && hi == RunUp(xs, mid + 1, walk)
  {
    var up, down;
    up, lo := WalkUp(xs, mid, walk, select);
    down, hi := WalkDown(xs, mid + 1, walk, select);
    result := up + down;
  }

  /** The scan of the chart queries: from mid - 1 towards index 0 while walk holds, then
      from mid towards the end while walk holds, keeping the elements that satisfy select. */
  function Straddle<T(==)>(xs: seq<T>, mid: int, walk: T -> bool, select: T -> bool): seq<T>
    requires 0 <= mid < |xs|
  {
    SelectBackward(xs, RunDown(xs, mid - 1, walk) + 1, mid, select)
      + SelectForward(xs, mid, RunUp(xs, mid, walk), select)
  }

  /** The two loops of the chart scan. */
  method CollectStraddle<T(==)>(xs: seq<T>, mid: int, walk: T -> bool, select: T -> bool) returns (result: seq<T>)
    requires 0 <= mid < |xs|
    ensures result == Straddle(xs, mid, walk, select)
  {
    var up, _ := WalkUp(xs, mid - 1, walk, select);
    var down, _ := WalkDown(xs, mid, walk, select);
    result := up + down;
  }

  /** Started inside the block of walk-elements, the scan collects the selected elements of
      exactly that block, each once when the list holds it once. */
  lemma StraddleExact<T>(xs: seq<T>, mid: int, walk: T -> bool, select: T -> bool)
    requires 0 <= mid < |xs| && walk(xs[mid]) && Convex(xs, walk)
    ensures forall x :: x in Straddle(xs, mid, walk, select) <==> x in xs && walk(x) && select(x)
    ensures Distinct(xs) ==> Distinct(Straddle(xs, mid, walk, select))
  {
    StraddleSound(xs, mid, walk, select);
    StraddleComplete(xs, mid, walk, select);
    if Distinct(xs) {
      var lo, hi := RunDown(xs, mid - 1, walk), RunUp(xs, mid, walk);
      CollectedDistinct(xs, lo + 1, mid, hi, SelectBackward(xs, lo + 1, mid, select), SelectForward(xs, mid, hi, select));
    }
  }

  /** Whatever the list, the scan keeps only selected walk-elements. */
  lemma StraddleSound<T>(xs: seq<T>, mid: int, walk: T -> bool, select: T -> bool)
    requires 0 <= mid < |xs|
    ensures forall x :: x in Straddle(xs, mid, walk, select) ==> x in xs && walk(x) && select(x)
  {
    var lo, hi := RunDown(xs, mid - 1, walk), RunUp(xs, mid, walk);
    var up, down := SelectBackward(xs, lo + 1, mid, select), SelectForward(xs, mid, hi, select);
    forall x | x in up ensures x in xs && walk(x) && select(x) {
      var i :| 0 <= i < |up| && up[i] == x;
      var k :| lo + 1 <= k < mid && xs[k] == x;
    }
    forall x | x in down ensures x in xs && walk(x) && select(x) {
      var i :| 0 <= i < |down| && down[i] == x;
      var k :| mid <= k < hi && xs[k] == x;
    }
  }

  /** Started inside the block of walk-elements, the scan misses none of its selected
      elements. */
  lemma StraddleComplete<T>(xs: seq<T>, mid: int, walk: T -> bool, select: T -> bool)
    requires 0 <= mid < |xs| && walk(xs[mid]) && Convex(xs, walk)
    ensures forall x :: x in xs && walk(x) && select(x) ==> x in Straddle(xs, mid, walk, select)
  {
    var lo, hi := RunDown(xs, mid - 1, walk), RunUp(xs, mid, walk);
    var up, down := SelectBackward(xs, lo + 1, mid, select), SelectForward(xs, mid, hi, select);
    forall x | x in xs && walk(x) && select(x) ensures x in up + down {
      var k :| 0 <= k < |xs| && xs[k] == x;
      if k < mid {
        ConvexRange(xs, walk, k, mid);
        assert x in up;
      } else {
        ConvexRange(xs, walk, mid, k);
        assert x in down;
      }
    }
  }

  lemma CollectedBlock<T>(xs: seq<T>, mid: int, walk: T -> bool, select: T -> bool)
    requires 0 <= mid < |xs|
    ensures var r := SelectBackward(xs, RunDown(xs, mid, walk) + 1, mid + 1, select)
      + SelectForward(xs, mid + 1, RunUp(xs, mid + 1, walk), select);
      && (forall k :: 0 <= k < |r| ==> r[k] in Run(xs, mid, walk) && select(r[k]))
      && (forall x :: x in Run(xs, mid, walk) && select(x) ==> x in r)
      && (Distinct(xs) ==> Distinct(r))
  {
    var lo, hi := RunDown(xs, mid, walk), RunUp(xs, mid + 1, walk);
    var up := SelectBackward(xs, lo + 1, mid + 1, select);
    var down := SelectForward(xs, mid + 1, hi, select);
    CollectedSlices(xs, lo + 1, mid + 1, hi, select, up, down);
  }

  /** The two walks over xs[a..m] and xs[m..b] together collect the selected elements of
      xs[a..b], each once when the list holds it once. */
  lemma CollectedSlices<T>(xs: seq<T>, a: int, m: int, b: int, select: T -> bool, up: seq<T>, down: seq<T>)
    requires 0 <= a <= m <= b <= |xs|
    requires up == SelectBackward(xs, a, m, select) && down == SelectForward(xs, m, b, select)
    ensures forall k :: 0 <= k < |up + down| ==> (up + down)[k] in xs[a..b] && select((up + down)[k])
    ensures forall x :: x in xs[a..b] && select(x) ==> x in up + down
    ensures Distinct(xs) ==> Distinct(up + down)
  {
    CollectedSound(xs, a, m, b, select, up, down);
    CollectedComplete(xs, a, m, b, select, up, down);
    if Distinct(xs) {
      CollectedDistinct(xs, a, m, b, up, down);
    }
  }

  lemma CollectedSound<T>(xs: seq<T>, a: int, m: int, b: int, select: T -> bool, up: seq<T>, down: seq<T>)
    requires 0 <= a <= m <= b <= |xs|
    requires forall k :: 0 <= k < |up| ==> up[k] in xs[a..m] && select(up[k])
    requires forall k :: 0 <= k < |down| ==> down[k] in xs[m..b] && select(down[k])
    ensures forall k :: 0 <= k < |up + down| ==> (up + down)[k] in xs[a..b] && select((up + down)[k])
  {
    AdjacentSlices(xs, a, m, b);
    forall k | 0 <= k < |up + down| ensures (up + down)[k] in xs[a..b] && select((up + down)[k]) {
      if k < |up| {
        assert (up + down)[k] == up[k];
      } else {
        assert (up + down)[k] == down[k - |up|];
      }
    }
  }

  lemma CollectedComplete<T>(xs: seq<T>, a: int, m: int, b: int, select: T -> bool, up: seq<T>, down: seq<T>)
    requires 0 <= a <= m <= b <= |xs|
    requires forall k :: a <= k < m && select(xs[k]) ==> xs[k] in up
    requires forall k :: m <= k < b && select(xs[k]) ==> xs[k] in down
    ensures forall x :: x in xs[a..b] && select(x) ==> x in up + down
  {
    forall x | x in xs[a..b] && select(x) ensures x in up + down {
      var k :| a <= k < b && xs[k] == x;
    }
  }

  lemma CollectedDistinct<T>(xs: seq<T>, a: int, m: int, b: int, up: seq<T>, down: seq<T>)
    requires 0 <= a <= m <= b <= |xs| && Distinct(xs)
    requires Distinct(up) && Distinct(down)
    requires forall k :: 0 <= k < |up| ==> up[k] in xs[a..m]
    requires forall k :: 0 <= k < |down| ==> down[k] in xs[m..b]
    ensures Distinct(up + down)
  {
    forall i, j | 0 <= i < j < |up + down| ensures (up + down)[i] != (up + down)[j] {
      if j < |up| {
        assert (up + down)[i] == up[i] && (up + down)[j] == up[j];
      } else if i >= |up| {
        assert (up + down)[i] == down[i - |up|] && (up + down)[j] == down[j - |up|];
      } else {
        assert (up + down)[i] == up[i] && (up + down)[j] == down[j - |up|];
        DisjointSlices(xs, a, m, b, up[i]);
      }
    }
  }

  /** A grammar query: binary-search for key, and on a hit scan the block around it; nothing
      on a miss. */
  function Scan<T(==), K>(xs: seq<T>, key: K, cmp: (T, K) -> int, walk: T -> bool, select: T -> bool): seq<T>
  {
    var mid := Search(xs, key, cmp);
    if mid < 0 then [] else Around(xs, mid, walk, select)
  }

  /** Whether the scan reads a faulty element, one whose reading throws in the source.  Each
      walk evaluates its test on every element it passes and on the one where it stops; the
      walks here are false on every faulty element, so a fault can only be met where a walk
      stops. */
  predicate ScanFaults<T, K>(xs: seq<T>, key: K, cmp: (T, K) -> int, walk: T -> bool, fault: T -> bool)
  {
    var mid := Search(xs, key, cmp);
    && mid >= 0
    && var lo, hi := RunDown(xs, mid, walk), RunUp(xs, mid + 1, walk);
       (lo >= 0 && fault(xs[lo])) || (hi < |xs| && fault(xs[hi]))
  }

  /** A grammar query whose walks may meet a faulty element: the scan's result, and whether
      either walk stopped on a faulty element. */
  method CollectScanChecked<T(==), K>(xs: seq<T>, key: K, cmp: (T, K) -> int, walk: T -> bool, select: T -> bool,
                                      fault: T -> bool)
    returns (result: seq<T>, faulted: bool)
    ensures result == Scan(xs, key, cmp, walk, select)
    ensures faulted == ScanFaults(xs, key, cmp, walk, fault)
    ensures faulted ==> exists x :: x in xs && fault(x)
  {
    var mid := BinarySearch(xs, key, cmp);
    result, faulted := [], false;
    if mid >= 0 {
      var lo, hi;
      result, lo, hi := CollectAround(xs, mid, walk, select);
      faulted := (lo >= 0 && fault(xs[lo])) || (hi < |xs| && fault(xs[hi]));
    }
  }

  /** When the list is partitioned by key, the walk-elements form one block containing every
      element comparing 0 with key, and every selected walk-element compares 0 with key, the
      query returns exactly the selected walk-elements, each once. */
  lemma ScanExact<T, K>(xs: seq<T>, key: K, cmp: (T, K) -> int, walk: T -> bool, select: T -> bool)
    requires Partitioned(xs, key, cmp) && Convex(xs, walk)
    requires forall k :: 0 <= k < |xs| && cmp(xs[k], key) == 0 ==> walk(xs[k])
    requires forall k :: 0 <= k < |xs| && walk(xs[k]) && select(xs[k]) ==> cmp(xs[k], key) == 0
    ensures forall x :: x in Scan(xs, key, cmp, walk, select) <==> x in xs && walk(x) && select(x)
    ensures Distinct(xs) ==> Distinct(Scan(xs, key, cmp, walk, select))
  {
    var mid := Search(xs, key, cmp);
    if mid >= 0 {
      RunIsBlock(xs, mid, walk);
    }
  }

  /** Whatever the order of the list, a query returns only elements of the list on which walk
      and select hold. */
  lemma ScanSound<T, K>(xs: seq<T>, key: K, cmp: (T, K) -> int, walk: T -> bool, select: T -> bool)
    ensures forall x :: x in Scan(xs, key, cmp, walk, select) ==> x in xs && walk(x) && select(x)
  {
    var mid := Search(xs, key, cmp);
    if mid >= 0 {
      var r := Around(xs, mid, walk, select);
      RunSound(xs, mid, walk);
      forall x | x in r ensures x in xs && walk(x) && select(x) {
        var i :| 0 <= i < |r| && r[i] == x;
      }
    }
  }

  /** The walk's block holds only walk-elements of the list. */
  lemma RunSound<T>(xs: seq<T>, mid: int, walk: T -> bool)
    requires 0 <= mid < |xs|
    ensures forall x :: x in Run(xs, mid, walk) ==> x in xs && walk(x)
  {
    var lo, hi := RunDown(xs, mid, walk), RunUp(xs, mid + 1, walk);
    assert Run(xs, mid, walk) == xs[lo + 1..hi];
    forall x | x in xs[lo + 1..hi] ensures x in xs && walk(x) {
      var k :| lo + 1 <= k < hi && xs[k] == x;
      if k <= mid {
        assert lo < k <= mid;
      } else {
        assert mid + 1 <= k < hi;
      }
    }
  }

  /** The loops of a grammar query. */
  method CollectScan<T(==), K>(xs: seq<T>, key: K, cmp: (T, K) -> int, walk: T -> bool, select: T -> bool)
    returns (result: seq<T>)
    ensures result == Scan(xs, key, cmp, walk, select)
  {
    var mid := BinarySearch(xs, key, cmp);
    result := [];
    if mid >= 0 {
      var lo, hi;
      result, lo, hi := CollectAround(xs, mid, walk, select);
    }
  }

  /** Walking down from i while walk holds: the first index whose element satisfies hit, or
      -1 when the walk ends first. */
  function FindDown<T>(xs: seq<T>, i: int, walk: T -> bool, hit: T -> bool): (r: int)
    requires -1 <= i < |xs|
    ensures -1 <= r <= i
    ensures r >= 0 ==> walk(xs[r]) && hit(xs[r])
    ensures forall k :: (if r >= 0 then r else RunDown(xs, i, walk)) < k <= i ==> walk(xs[k]) && !hit(xs[k])
    decreases i + 1
  {
    if i < 0 || !walk(xs[i]) then -1
    else if hit(xs[i]) then i
    else FindDown(xs, i - 1, walk, hit)
  }

  /** Walking up from i while walk holds: the first index whose element satisfies hit, or -1
      when the walk ends first. */
  function FindUp<T>(xs: seq<T>, i: int, walk: T -> bool, hit: T -> bool): (r: int)
    requires 0 <= i <= |xs|
    ensures r == -1 || i <= r < |xs|
    ensures r >= 0 ==> walk(xs[r]) && hit(xs[r])
    ensures forall k :: i <= k < (if r >= 0 then r else RunUp(xs, i, walk)) ==> walk(xs[k]) && !hit(xs[k])
    decreases |xs| - i
  {
    if i == |xs| || !walk(xs[i]) then -1
    else if hit(xs[i]) then i
    else FindUp(xs, i + 1, walk, hit)
  }

  /** The loops of FindDown and FindUp. */
  method FindDownLoop<T>(xs: seq<T>, i: int, walk: T -> bool, hit: T -> bool) returns (r: int)
    requires -1 <= i < |xs|
    ensures r == FindDown(xs, i, walk, hit)
  {
    var k := i;
    while k >= 0 && walk(xs[k])
      invariant -1 <= k <= i
      invariant FindDown(xs, i, walk, hit) == FindDown(xs, k, walk, hit)
      decreases k + 1
    {
      if hit(xs[k]) {
        return k;
      }
      k := k - 1;
    }
    return -1;
  }

  method FindUpLoop<T>(xs: seq<T>, i: int, walk: T -> bool, hit: T -> bool) returns (r: int)
    requires 0 <= i <= |xs|
    ensures r == FindUp(xs, i, walk, hit)
  {
    var k := i;
    while k < |xs| && walk(xs[k])
      invariant i <= k <= |xs|
      invariant FindUp(xs, i, walk, hit) == FindUp(xs, k, walk, hit)
      decreases |xs| - k
    {
      if hit(xs[k]) {
        return k;
      }
      k := k + 1;
    }
    return -1;
  }

  /** When hit holds at exactly one index t and walk holds all the way from i to t, the
      downward search ends at t; it finds nothing when t lies above i. */
  lemma {:induction false} FindDownUnique<T>(xs: seq<T>, i: int, walk: T -> bool, hit: T -> bool, t: int)
    requires -1 <= i < |xs| && 0 <= t < |xs| && hit(xs[t])
    requires forall m :: 0 <= m < |xs| && hit(xs[m]) ==> m == t
    requires t <= i ==> forall m :: t <= m <= i ==> walk(xs[m])
    ensures FindDown(xs, i, walk, hit) == if t <= i then t else -1
    decreases i + 1
  {
    if i >= 0 && walk(xs[i]) && !hit(xs[i]) {
      FindDownUnique(xs, i - 1, walk, hit, t);
    }
  }

  lemma {:induction false} FindUpUnique<T>(xs: seq<T>, i: int, walk: T -> bool, hit: T -> bool, t: int)
    requires 0 <= i <= t < |xs| && hit(xs[t])
    requires forall m :: 0 <= m < |xs| && hit(xs[m]) ==> m == t
    requires forall m :: i <= m <= t ==> walk(xs[m])
    ensures FindUp(xs, i, walk, hit) == t
    decreases |xs| - i
  {
    if i < t {
      FindUpUnique(xs, i + 1, walk, hit, t);
    }
  }

  /** The replacement walks of the chart update: the first hit found walking down from
      mid - 1 is overwritten with e, then the first hit found walking up from mid. */
  function ReplaceAround<T>(xs: seq<T>, mid: int, walk: T -> bool, hit: T -> bool, e: T): (r: seq<T>)
    requires 0 <= mid < |xs|
    ensures |r| == |xs|
    ensures forall k :: 0 <= k < |xs| ==> r[k] == xs[k] || (hit(xs[k]) && r[k] == e)
  {
    var up := FindDown(xs, mid - 1, walk, hit);
    var ys := if up >= 0 then xs[up := e] else xs;
    var down := FindUp(ys, mid, walk, hit);
    if down >= 0 then ys[down := e] else ys
  }

  /** When hit holds at exactly one index t, inside the block of walk-elements that also
      holds mid, and not on e, the walks overwrite exactly that index. */
  lemma ReplaceAroundUnique<T>(xs: seq<T>, mid: int, walk: T -> bool, hit: T -> bool, e: T, t: int)
    requires 0 <= mid < |xs| && 0 <= t < |xs| && Convex(xs, walk) && walk(xs[mid]) && walk(xs[t])
    requires forall k :: 0 <= k < |xs| ==> (hit(xs[k]) <==> k == t)
    requires !hit(e)
    ensures ReplaceAround(xs, mid, walk, hit, e) == xs[t := e]
  {
    if t <= mid {
      ConvexRange(xs, walk, t, mid);
    } else {
      ConvexRange(xs, walk, mid, t);
    }
    FindDownUnique(xs, mid - 1, walk, hit, t);
    if t < mid {
      var ys := xs[t := e];
      forall k | 0 <= k < |ys| ensures !hit(ys[k]) {
        if k != t {
          assert ys[k] == xs[k];
        }
      }
    } else {
      FindUpUnique(xs, mid, walk, hit, t);
    }
  }

  /** The elements on which walk holds form one block of the list. */
  predicate Convex<T>(xs: seq<T>, walk: T -> bool)
  {
    forall i, j, k :: 0 <= i < j < k < |xs| && walk(xs[i]) && walk(xs[k]) ==> walk(xs[j])
  }

  lemma ConvexRange<T>(xs: seq<T>, walk: T -> bool, a: int, b: int)
    requires Convex(xs, walk) && 0 <= a <= b < |xs| && walk(xs[a]) && walk(xs[b])
    ensures forall m :: a <= m <= b ==> walk(xs[m])
  {
  }

  /** When the walk-elements form one block and the scan starts inside it, the scan visits
      the whole block: exactly the elements satisfying walk. */
  lemma RunIsBlock<T>(xs: seq<T>, mid: int, walk: T -> bool)
    requires 0 <= mid < |xs| && walk(xs[mid]) && Convex(xs, walk)
    ensures forall x :: x in Run(xs, mid, walk) <==> x in xs && walk(x)
  {
    var lo, hi := RunDown(xs, mid, walk), RunUp(xs, mid + 1, walk);
    var run := Run(xs, mid, walk);
    assert run == xs[lo + 1..hi];
    forall x | x in xs && walk(x) ensures x in run {
      var k :| 0 <= k < |xs| && xs[k] == x;
      if k <= mid {
        ConvexRange(xs, walk, k, mid);
      } else {
        ConvexRange(xs, walk, mid, k);
      }
      assert lo < k < hi;
      assert run[k - lo - 1] == xs[k];
    }
  }

  // ---------------------------------------------------------------- first occurrences

  /** The values f(x) of the elements satisfying cond, in list order. */
  function Project<T(==,!new), U(==,!new)>(xs: seq<T>, cond: T -> bool, f: T -> U): (r: seq<U>)
    ensures forall u :: u in r <==> exists x :: x in xs && cond(x) && f(x) == u
  {
    if xs == [] then []
    else
      var init := Project(xs[..|xs| - 1], cond, f);
      var last := xs[|xs| - 1];
      assert xs == xs[..|xs| - 1] + [last];
      init + (if cond(last) then [f(last)] else [])
  }

  /** The first occurrence of each value, in order of first appearance. */
  function Dedup<U(==,!new)>(s: seq<U>): (r: seq<U>)
    ensures Distinct(r)
    ensures forall u :: u in r <==> u in s
  {
    if s == [] then []
    else
      var init := Dedup(s[..|s| - 1]);
      var last := s[|s| - 1];
      assert s == s[..|s| - 1] + [last];
      if last in s[..|s| - 1] then init else init + [last]
  }

  /** A value appears in Dedup(s) before another exactly when it first appears in s before it. */
  lemma {:induction false} DedupOrder<U(!new)>(s: seq<U>, i: int, j: int)
    requires 0 <= i < j < |Dedup(s)|
    ensures FirstIndex(s, Dedup(s)[i]) < FirstIndex(s, Dedup(s)[j])
    decreases |s|
  {
    var init := s[..|s| - 1];
    var last := s[|s| - 1];
    assert s == init + [last];
    FirstIndexPrefix(init, last, Dedup(s)[i]);
    if last in init {
      DedupOrder(init, i, j);
      FirstIndexPrefix(init, last, Dedup(s)[j]);
    } else if j < |Dedup(init)| {
      DedupOrder(init, i, j);
      FirstIndexPrefix(init, last, Dedup(s)[j]);
    } else {
      assert Dedup(s)[j] == last;
      assert Dedup(s)[i] in init;
      assert FirstIndex(s, Dedup(s)[j]) == |init|;
    }
  }

  /** The position of the first occurrence of u in s. */
  function FirstIndex<U(==)>(s: seq<U>, u: U): (r: int)
    requires u in s
    ensures 0 <= r < |s| && s[r] == u && forall m :: 0 <= m < r ==> s[m] != u
  {
    if s[0] == u then 0
    else
      assert s == [s[0]] + s[1..];
      1 + FirstIndex(s[1..], u)
  }

  lemma FirstIndexPrefix<U>(init: seq<U>, last: U, u: U)
    requires u in init
    ensures FirstIndex(init + [last], u) == FirstIndex(init, u)
  {
    var s := init + [last];
    var a, b := FirstIndex(s, u), FirstIndex(init, u);
    assert s[b] == u;
    assert forall m :: 0 <= m < b ==> s[m] != u by {
      forall m | 0 <= m < b ensures s[m] != u { assert s[m] == init[m]; }
    }
  }

  /** The loop of partOfSpeechTags / getLeftSide: for each element satisfying cond, add f of it
      unless the result already contains it. */
  method CollectDistinct<T(==,!new), U(==,!new)>(xs: seq<T>, cond: T -> bool, f: T -> U) returns (result: seq<U>)
    ensures result == Dedup(Project(xs, cond, f))
  {
    result := [];
    for i := 0 to |xs|
      invariant result == Dedup(Project(xs[..i], cond, f))
    {
      assert xs[..i + 1][..i] == xs[..i];
      var x := xs[i];
      assert xs[..i + 1][i] == x;
      ghost var p := Project(xs[..i], cond, f);
      assert Project(xs[..i + 1], cond, f) == p + (if cond(x) then [f(x)] else []);
      if cond(x) {
        ghost var q := p + [f(x)];
        assert q[..|q| - 1] == p;
        assert Dedup(q) == if f(x) in p then Dedup(p) else Dedup(p) + [f(x)];
      } else {
        assert p + [] == p;
      }
      if cond(x) && f(x) !in result {
        result := result + [f(x)];
      }
    }
    assert xs[..|xs|] == xs;
  }

  // ---------------------------------------------------------------- List.sort

  /** cmp orders the values of xs consistently: signs are antisymmetric and "not above" is
      transitive, which is what the Comparator contract asks of List.sort's argument. */
  predicate TotalPreorderOn<T(==)>(xs: seq<T>, cmp: (T, T) -> int)
  {
    && (forall a, b :: a in xs && b in xs && cmp(a, b) > 0 ==> cmp(b, a) < 0)
    && (forall a, b :: a in xs && b in xs && cmp(a, b) < 0 ==> cmp(b, a) > 0)
    && (forall a, b, c :: a in xs && b in xs && c in xs && cmp(a, b) <= 0 && cmp(b, c) <= 0 ==> cmp(a, c) <= 0)
  }

  /** Placing x after the last element not above it, in front of the elements above it. */
  lemma PlaceSorted<T>(xs: seq<T>, ys: seq<T>, j: int, x: T, cmp: (T, T) -> int)
    requires TotalPreorderOn(xs, cmp) && Sorted(ys, cmp) && x in xs
    requires forall k :: 0 <= k < |ys| ==> ys[k] in xs
    requires 0 <= j <= |ys| && (j > 0 ==> cmp(ys[j - 1], x) <= 0)
    requires forall k :: j <= k < |ys| ==> cmp(ys[k], x) > 0
    ensures Sorted(Insert(ys, j, x), cmp)
  {
    forall k | 0 <= k < j ensures cmp(ys[k], x) <= 0 {
      assert ys[k] in xs && ys[j - 1] in xs;
      assert cmp(ys[k], ys[j - 1]) <= 0;
    }
    forall k | j <= k < |ys| ensures cmp(x, ys[k]) <= 0 {
      assert ys[k] in xs;
    }
    InsertSorted(ys, j, x, cmp);
  }

  /** The stable insertion point of x in ys: after the last element not above x. */
  method InsertionIndex<T>(ys: seq<T>, x: T, cmp: (T, T) -> int) returns (j: int)
    ensures 0 <= j <= |ys| && (j > 0 ==> cmp(ys[j - 1], x) <= 0)
    ensures forall k :: j <= k < |ys| ==> cmp(ys[k], x) > 0
  {
    j := |ys|;
    while j > 0 && cmp(ys[j - 1], x) > 0
      invariant 0 <= j <= |ys|
      invariant forall k :: j <= k < |ys| ==> cmp(ys[k], x) > 0
    {
      j := j - 1;
    }
  }

  lemma InsertMembers<T>(xs: seq<T>, ys: seq<T>, j: int, x: T)
    requires 0 <= j <= |ys| && x in xs && forall k :: 0 <= k < |ys| ==> ys[k] in xs
    ensures forall k :: 0 <= k < |Insert(ys, j, x)| ==> Insert(ys, j, x)[k] in xs
  {
    var r := Insert(ys, j, x);
    forall k | 0 <= k < |r| ensures r[k] in xs {
      if k < j {
        assert r[k] == r[..j][k] == ys[k];
      } else if k > j {
        assert r[k] == r[j + 1..][k - j - 1] == ys[k - 1];
      }
    }
  }

  /** The elements of s that compare equal to z, in list order: the run of ties a stable sort
      must keep in their original order. */
  function Ties<T>(s: seq<T>, z: T, cmp: (T, T) -> int): seq<T>
  {
    if s == [] then []
    else
      var init := Ties(s[..|s| - 1], z, cmp);
      var last := s[|s| - 1];
      init + (if cmp(last, z) == 0 then [last] else [])
  }

  /** The ties of a concatenation are the ties of each part, in order. */
  lemma {:induction false} TiesConcat<T>(a: seq<T>, b: seq<T>, z: T, cmp: (T, T) -> int)
    ensures Ties(a + b, z, cmp) == Ties(a, z, cmp) + Ties(b, z, cmp)
    decreases |b|
  {
    if b == [] {
      assert a + b == a;
    } else {
      var init, last := b[..|b| - 1], b[|b| - 1];
      assert (a + b)[..|a + b| - 1] == a + init;
      TiesConcat(a, init, z, cmp);
    }
  }

  /** Putting x between front and back rather than after both changes no run of ties, provided
      nothing in back ties with x's run. */
  lemma InsertTies<T>(front: seq<T>, back: seq<T>, x: T, z: T, cmp: (T, T) -> int)
    requires cmp(x, z) == 0 ==> Ties(back, z, cmp) == []
    ensures Ties(front + ([x] + back), z, cmp) == Ties((front + back) + [x], z, cmp)
  {
    TiesConcat(front, [x] + back, z, cmp);
    TiesConcat([x], back, z, cmp);
    TiesConcat(front + back, [x], z, cmp);
    TiesConcat(front, back, z, cmp);
    TiesSingle(x, z, cmp);
    MoveLast(Ties(front, z, cmp), Ties([x], z, cmp), Ties(back, z, cmp), x, cmp(x, z) == 0);
  }

  /** One step of the insertion sort keeps the runs of ties of the sorted prefix equal to those
      of the input prefix. */
  lemma StepTies<T>(done: seq<T>, x: T, front: seq<T>, back: seq<T>, z: T, cmp: (T, T) -> int)
    requires Ties(front + back, z, cmp) == Ties(done, z, cmp)
    requires cmp(x, z) == 0 ==> Ties(back, z, cmp) == []
    ensures Ties(front + ([x] + back), z, cmp) == Ties(done + [x], z, cmp)
  {
    InsertTies(front, back, x, z, cmp);
    TiesConcat(front + back, [x], z, cmp);
    TiesConcat(done, [x], z, cmp);
  }

  /** Moving a run m that is empty or has nothing after it to the end changes nothing. */
  lemma MoveLast<T>(f: seq<T>, m: seq<T>, b: seq<T>, x: T, c: bool)
    requires m == (if c then [x] else []) && (c ==> b == [])
    ensures f + (m + b) == (f + b) + m
  {
    if !c {
      assert m + b == b && (f + b) + m == f + b;
    }
  }

  /** A single element is its own run of ties exactly when it ties with z. */
  lemma TiesSingle<T>(x: T, z: T, cmp: (T, T) -> int)
    ensures Ties([x], z, cmp) == if cmp(x, z) == 0 then [x] else []
  {
    assert [x][..0] == [];
  }

  /** Past the stable insertion point of x nothing ties with anything that ties with x. */
  lemma AboveNoTies<T>(xs: seq<T>, ys: seq<T>, j: int, x: T, z: T, cmp: (T, T) -> int)
    requires TotalPreorderOn(xs, cmp) && x in xs && z in xs && cmp(x, z) == 0
    requires forall k :: 0 <= k < |ys| ==> ys[k] in xs
    requires 0 <= j <= |ys| && forall k :: j <= k < |ys| ==> cmp(ys[k], x) > 0
    ensures Ties(ys[j..], z, cmp) == []
  {
    var back := ys[j..];
    assert cmp(z, x) <= 0;
    forall k | 0 <= k < |back| ensures cmp(back[k], z) != 0 {
      assert back[k] == ys[j + k] && back[k] in xs;
    }
    TiesNone(back, z, cmp);
  }

  /** A list none of whose elements ties with z has no ties with z. */
  lemma {:induction false} TiesNone<T>(s: seq<T>, z: T, cmp: (T, T) -> int)
    requires forall k :: 0 <= k < |s| ==> cmp(s[k], z) != 0
    ensures Ties(s, z, cmp) == []
    decreases |s|
  {
    if s != [] {
      TiesNone(s[..|s| - 1], z, cmp);
    }
  }

  /** Inserting the next input element at its stable insertion point keeps every run of ties
      of the sorted prefix equal to that of the input prefix. */
  lemma StableStep<T>(xs: seq<T>, i: int, ys: seq<T>, j: int, cmp: (T, T) -> int)
    requires TotalPreorderOn(xs, cmp) && 0 <= i < |xs|
    requires forall k :: 0 <= k < |ys| ==> ys[k] in xs
    requires 0 <= j <= |ys| && forall k :: j <= k < |ys| ==> cmp(ys[k], xs[i]) > 0
    requires forall z :: z in xs ==> Ties(ys, z, cmp) == Ties(xs[..i], z, cmp)
    ensures forall z :: z in xs ==> Ties(Insert(ys, j, xs[i]), z, cmp) == Ties(xs[..i + 1], z, cmp)
  {
    var x, front, back := xs[i], ys[..j], ys[j..];
    InsertSplit(ys, j, x);
    Snoc(xs, i);
    forall z | z in xs ensures Ties(Insert(ys, j, x), z, cmp) == Ties(xs[..i + 1], z, cmp) {
      if cmp(x, z) == 0 {
        AboveNoTies(xs, ys, j, x, z, cmp);
      }
      StepTies(xs[..i], x, front, back, z, cmp);
    }
  }

  /** One more element of a prefix. */
  lemma Snoc<T>(xs: seq<T>, i: int)
    requires 0 <= i < |xs|
    ensures xs[..i + 1] == xs[..i] + [xs[i]]
  {
  }

  /** ArrayList.add(j, x) splits the list at j. */
  lemma InsertSplit<T>(ys: seq<T>, j: int, x: T)
    requires 0 <= j <= |ys|
    ensures ys == ys[..j] + ys[j..] && Insert(ys, j, x) == ys[..j] + ([x] + ys[j..])
  {
  }

  /** List.sort: a stable sort, here by insertion, each element placed after every earlier one
      that does not compare above it. The result is ordered, a permutation of xs, and stable:
      the elements that compare equal to any z keep their relative order. */
  method Sort<T(==)>(xs: seq<T>, cmp: (T, T) -> int) returns (ys: seq<T>)
    requires TotalPreorderOn(xs, cmp)
    ensures Sorted(ys, cmp) && multiset(ys) == multiset(xs)
    ensures forall z :: z in xs ==> Ties(ys, z, cmp) == Ties(xs, z, cmp)
  {
    ys := [];
    for i := 0 to |xs|
      invariant Sorted(ys, cmp) && multiset(ys) == multiset(xs[..i])
      invariant forall k :: 0 <= k < |ys| ==> ys[k] in xs
      invariant forall z :: z in xs ==> Ties(ys, z, cmp) == Ties(xs[..i], z, cmp)
    {
      var x := xs[i];
      var j := InsertionIndex(ys, x, cmp);
      PlaceSorted(xs, ys, j, x, cmp);
      InsertMembers(xs, ys, j, x);
      StableStep(xs, i, ys, j, cmp);
      Snoc(xs, i);
      ys := Insert(ys, j, x);
    }
    assert xs[..|xs|] == xs;
  }

  /** A list without repeats holds each element at most once. */
  lemma {:induction false} DistinctCount<T>(xs: seq<T>, x: T)
    requires Distinct(xs)
    ensures multiset(xs)[x] <= 1
    decreases |xs|
  {
    if xs != [] {
      var init, last := xs[..|xs| - 1], xs[|xs| - 1];
      assert xs == init + [last];
      assert Distinct(init) by {
        forall i, j | 0 <= i < j < |init| ensures init[i] != init[j] {
          assert init[i] == xs[i] && init[j] == xs[j];
        }
      }
      DistinctCount(init, x);
      assert last !in init by {
        forall k | 0 <= k < |init| ensures init[k] != last {
          assert init[k] == xs[k];
        }
      }
    }
  }

  /** Two positions holding the same element count it twice. */
  lemma CountedTwice<T>(ys: seq<T>, i: int, j: int)
    requires 0 <= i < j < |ys|
    ensures ys[i] == ys[j] ==> multiset(ys)[ys[i]] >= 2
  {
    assert ys == ys[..j] + [ys[j]] + ys[j + 1..];
    assert ys[..j][i] == ys[i];
  }

  /** A permutation of a list without repeats has none either. */
  lemma PermutationDistinct<T>(xs: seq<T>, ys: seq<T>)
    requires Distinct(xs) && multiset(xs) == multiset(ys)
    ensures Distinct(ys)
  {
    forall i, j | 0 <= i < j < |ys| ensures ys[i] != ys[j] {
      DistinctCount(xs, ys[i]);
      CountedTwice(ys, i, j);
    }
  }

  // ---------------------------------------------------------------- scans that see the same values

  /** Two comparators that agree against key on every element of xs search alike. */
  lemma {:induction false} SearchInSame<T, K>(xs: seq<T>, key: K, cmp: (T, K) -> int, cmp': (T, K) -> int, low: int, high: int)
    requires 0 <= low <= high + 1 <= |xs|
    requires forall k :: 0 <= k < |xs| ==> cmp(xs[k], key) == cmp'(xs[k], key)
    ensures SearchIn(xs, key, cmp, low, high) == SearchIn(xs, key, cmp', low, high)
    decreases high - low + 1
  {
    if low <= high {
      var mid := (low + high) / 2;
      var c := cmp(xs[mid], key);
      assert c == cmp'(xs[mid], key);
      if c < 0 {
        SearchInSame(xs, key, cmp, cmp', mid + 1, high);
      } else if c > 0 {
        SearchInSame(xs, key, cmp, cmp', low, mid - 1);
      }
    }
  }

  lemma {:induction false} RunDownSame<T>(xs: seq<T>, i: int, walk: T -> bool, walk': T -> bool)
    requires -1 <= i < |xs| && forall k :: 0 <= k < |xs| ==> walk(xs[k]) == walk'(xs[k])
    ensures RunDown(xs, i, walk) == RunDown(xs, i, walk')
    decreases i + 1
  {
    if i >= 0 && walk(xs[i]) {
      RunDownSame(xs, i - 1, walk, walk');
    }
  }

  lemma {:induction false} RunUpSame<T>(xs: seq<T>, i: int, walk: T -> bool, walk': T -> bool)
    requires 0 <= i <= |xs| && forall k :: 0 <= k < |xs| ==> walk(xs[k]) == walk'(xs[k])
    ensures RunUp(xs, i, walk) == RunUp(xs, i, walk')
    decreases |xs| - i
  {
    if i < |xs| && walk(xs[i]) {
      RunUpSame(xs, i + 1, walk, walk');
    }
  }

  lemma {:induction false} SelectBackwardSame<T>(xs: seq<T>, a: int, b: int, select: T -> bool, select': T -> bool)
    requires 0 <= a <= b <= |xs| && forall k :: 0 <= k < |xs| ==> select(xs[k]) == select'(xs[k])
    ensures SelectBackward(xs, a, b, select) == SelectBackward(xs, a, b, select')
    decreases b - a
  {
    if a < b {
      SelectBackwardSame(xs, a + 1, b, select, select');
    }
  }

  lemma {:induction false} SelectForwardSame<T>(xs: seq<T>, a: int, b: int, select: T -> bool, select': T -> bool)
    requires 0 <= a <= b <= |xs| && forall k :: 0 <= k < |xs| ==> select(xs[k]) == select'(xs[k])
    ensures SelectForward(xs, a, b, select) == SelectForward(xs, a, b, select')
    decreases b - a
  {
    if a < b {
      SelectForwardSame(xs, a, b - 1, select, select');
    }
  }

  lemma AroundSame<T>(xs: seq<T>, mid: int, walk: T -> bool, walk': T -> bool, select: T -> bool, select': T -> bool)
    requires 0 <= mid < |xs|
    requires forall k :: 0 <= k < |xs| ==> walk(xs[k]) == walk'(xs[k]) && select(xs[k]) == select'(xs[k])
    ensures Around(xs, mid, walk, select) == Around(xs, mid, walk', select')
  {
    RunDownSame(xs, mid, walk, walk');
    RunUpSame(xs, mid + 1, walk, walk');
    SelectBackwardSame(xs, RunDown(xs, mid, walk) + 1, mid + 1, select, select');
    SelectForwardSame(xs, mid + 1, RunUp(xs, mid + 1, walk), select, select');
  }

  lemma SearchSame<T, K>(xs: seq<T>, key: K, cmp: (T, K) -> int, cmp': (T, K) -> int)
    requires forall k :: 0 <= k < |xs| ==> cmp(xs[k], key) == cmp'(xs[k], key)
    ensures Search(xs, key, cmp) == Search(xs, key, cmp')
  {
    SearchInSame(xs, key, cmp, cmp', 0, |xs| - 1);
  }

  /** A range scan reads its comparator and its two tests only on the elements of the list. */
  lemma ScanSame<T, K>(xs: seq<T>, key: K, cmp: (T, K) -> int, cmp': (T, K) -> int,
                       walk: T -> bool, walk': T -> bool, select: T -> bool, select': T -> bool)
    requires forall k :: 0 <= k < |xs| ==> cmp(xs[k], key) == cmp'(xs[k], key)
    requires forall k :: 0 <= k < |xs| ==> walk(xs[k]) == walk'(xs[k]) && select(xs[k]) == select'(xs[k])
    ensures Scan(xs, key, cmp, walk, select) == Scan(xs, key, cmp', walk', select')
  {
    SearchSame(xs, key, cmp, cmp');
    var mid := Search(xs, key, cmp);
    if mid >= 0 {
      AroundSame(xs, mid, walk, walk', select, select');
    }
  }
}
