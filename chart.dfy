/** Chart: the entries of one position of the Earley parsers, kept in three lists.  `entries`
    is the discovery order (what size and getEntry expose and the parsers iterate over),
    `sorted` is kept in ChartEntryComparator order (it decides whether an item is new), and
    `byNext` is kept in ChartEntryNextCategoryComparator order (it answers "which entries wait
    for X").  The lists hold references: one entry object can sit in all three. */
module Charts {
  import opened Rules
  import opened ChartEntries
  import opened SortedLists
  import JavaString

  /** The state of a chart: its three lists. */
  datatype ChartLists = ChartLists(entries: seq<ChartEntry>, sorted: seq<ChartEntry>, byNext: seq<ChartEntry>)

  /** A property every entry of every list of the chart has. */
  predicate AllOf(c: ChartLists, p: ChartEntry -> bool)
  {
    && (forall x :: x in c.entries ==> p(x))
    && (forall x :: x in c.sorted ==> p(x))
    && (forall x :: x in c.byNext ==> p(x))
  }

  // ---------------------------------------------------------------- the next-category order on lists

  /** Mixed transitivity of the next-category comparator. */
  lemma NextCompareStrict(a: ChartEntry, b: ChartEntry, c: ChartEntry)
    requires (NextCompare(a, b) <= 0 && NextCompare(b, c) < 0) || (NextCompare(a, b) < 0 && NextCompare(b, c) <= 0)
    ensures NextCompare(a, c) < 0
  {
    if !Complete(a) && !Complete(b) && !Complete(c) {
      JavaString.CompareToStrict(NextCategory(a), NextCategory(b), NextCategory(c));
    }
  }

  /** A list sorted by the next-category comparator is partitioned with respect to any entry,
      so a binary search on it is meaningful. */
  lemma SortedPartitioned(xs: seq<ChartEntry>, e: ChartEntry)
    requires Sorted(xs, NextCompare)
    ensures Partitioned(xs, e, NextCompare)
  {
    forall i, j | 0 <= i < j < |xs|
      ensures (NextCompare(xs[j], e) < 0 ==> NextCompare(xs[i], e) < 0)
      ensures (NextCompare(xs[i], e) > 0 ==> NextCompare(xs[j], e) > 0)
    {
      if NextCompare(xs[j], e) < 0 {
        NextCompareStrict(xs[i], xs[j], e);
      }
      if NextCompare(xs[i], e) > 0 {
        NextCompareAntisymmetric(xs[i], e);
        NextCompareAntisymmetric(xs[j], e);
        NextCompareStrict(e, xs[i], xs[j]);
      }
    }
  }

  /** In a list sorted by the next-category comparator the complete entries come first, and
      the entries waiting for one category stand together. */
  lemma SortedBlocks(xs: seq<ChartEntry>, X: Symbol)
    requires Sorted(xs, NextCompare)
    ensures forall i, j :: 0 <= i < j < |xs| && Complete(xs[j]) ==> Complete(xs[i])
    ensures Convex(xs, Waiter(X))
  {
    forall i, j, k | 0 <= i < j < k < |xs| && Waiter(X)(xs[i]) && Waiter(X)(xs[k]) ensures Waiter(X)(xs[j]) {
      assert NextCompare(xs[i], xs[j]) <= 0 && NextCompare(xs[j], xs[k]) <= 0;
      JavaString.CompareToTransitiveLe(X, NextCategory(xs[j]), X);
      JavaString.CompareToAntisymmetric(X, NextCategory(xs[j]));
    }
  }

  /** Replacing an element by one comparing 0 with it keeps a list sorted. */
  lemma ReplaceSorted(xs: seq<ChartEntry>, k: int, x: ChartEntry)
    requires Sorted(xs, NextCompare) && 0 <= k < |xs| && NextCompare(xs[k], x) == 0
    ensures Sorted(xs[k := x], NextCompare)
  {
    var ys := xs[k := x];
    NextCompareAntisymmetric(xs[k], x);
    forall i, j | 0 <= i < j < |ys| ensures NextCompare(ys[i], ys[j]) <= 0 {
      if i == k {
        NextCompareTransitive(x, xs[k], xs[j]);
      } else if j == k {
        NextCompareTransitive(xs[i], xs[k], x);
      }
    }
  }

  // ---------------------------------------------------------------- addChartEntry

  /** addChartEntry: when no entry of the sorted list compares 0 with e under
      ChartEntryComparator (as the binary search sees it), e is appended to the discovery list
      and inserted into both sorted lists; otherwise nothing changes.  The next-category list
      takes e at the search hit, or else at the insertion point. */
  function WithEntry(c: ChartLists, e: ChartEntry): (r: ChartLists)
  {
    if Search(c.sorted, e, EntryCompare) >= 0 then c
    else ChartLists(c.entries + [e], Insert(c.sorted, EntrySlot(c.sorted, e), e), Insert(c.byNext, NextSlot(c.byNext, e), e))
  }

  /** What addChartEntry does to each list: nothing on a hit of its search; on a miss e is
      appended to the discovery list and joins both sorted lists. */
  lemma WithEntryCases(c: ChartLists, e: ChartEntry)
    ensures Search(c.sorted, e, EntryCompare) >= 0 ==> WithEntry(c, e) == c
    ensures Search(c.sorted, e, EntryCompare) < 0 ==>
      && WithEntry(c, e).entries == c.entries + [e]
      && multiset(WithEntry(c, e).sorted) == multiset(c.sorted) + multiset{e}
      && multiset(WithEntry(c, e).byNext) == multiset(c.byNext) + multiset{e}
  {
  }

  /** The lists addChartEntry builds on a miss of its search. */
  lemma WithEntryMiss(c: ChartLists, e: ChartEntry)
    requires Search(c.sorted, e, EntryCompare) < 0
    ensures WithEntry(c, e) == ChartLists(c.entries + [e], Insert(c.sorted, EntrySlot(c.sorted, e), e),
      Insert(c.byNext, NextSlot(c.byNext, e), e))
  {
  }

  lemma WithEntryAt(c: ChartLists, e: ChartEntry, m: int, slot: int)
    requires m == Search(c.sorted, e, EntryCompare) < 0 && slot == NextSlot(c.byNext, e)
    ensures 0 <= -m - 1 <= |c.sorted| && 0 <= slot <= |c.byNext|
    ensures WithEntry(c, e) == ChartLists(c.entries + [e], Insert(c.sorted, -m - 1, e), Insert(c.byNext, slot, e))
  {
    WithEntryMiss(c, e);
  }

  /** Where addChartEntry puts e in the sorted list: the insertion point of its missed search. */
  function EntrySlot(xs: seq<ChartEntry>, e: ChartEntry): (j: int)
    requires Search(xs, e, EntryCompare) < 0
    ensures 0 <= j <= |xs|
  {
    -Search(xs, e, EntryCompare) - 1
  }

  /** Where addChartEntry puts e in the next-category list: at the search hit, or else at the
      insertion point. */
  function NextSlot(xs: seq<ChartEntry>, e: ChartEntry): (j: int)
    ensures 0 <= j <= |xs|
  {
    var m2 := Search(xs, e, NextCompare);
    if m2 >= 0 then m2 else -m2 - 1
  }

  /** On a list the search can rely on, e is added exactly when no entry of the sorted list
      compares 0 with it. */
  lemma WithEntryAdds(c: ChartLists, e: ChartEntry)
    requires Partitioned(c.sorted, e, EntryCompare)
    ensures (WithEntry(c, e) == c) <==> exists k :: 0 <= k < |c.sorted| && EntryCompare(c.sorted[k], e) == 0
  {
    if Search(c.sorted, e, EntryCompare) < 0 {
      assert |WithEntry(c, e).entries| == |c.entries| + 1;
    }
  }

  /** addChartEntry keeps the next-category list sorted. */
  lemma WithEntrySorted(c: ChartLists, e: ChartEntry)
    requires Sorted(c.byNext, NextCompare)
    ensures Sorted(WithEntry(c, e).byNext, NextCompare)
  {
    if Search(c.sorted, e, EntryCompare) < 0 {
      WithEntryMiss(c, e);
      NextSlotSorted(c.byNext, e);
    }
  }

  /** Inserting at the search hit, or else at the insertion point, keeps the list sorted. */
  lemma NextSlotSorted(xs: seq<ChartEntry>, e: ChartEntry)
    requires Sorted(xs, NextCompare)
    ensures Sorted(Insert(xs, NextSlot(xs, e), e), NextCompare)
  {
    var m2 := Search(xs, e, NextCompare);
    SortedPartitioned(xs, e);
    if m2 >= 0 {
      NextCompareAntisymmetric(xs[m2], e);
      forall k | 0 <= k < m2 ensures NextCompare(xs[k], e) <= 0 {
        NextCompareTransitive(xs[k], xs[m2], e);
      }
      forall k | m2 <= k < |xs| ensures NextCompare(e, xs[k]) <= 0 {
        NextCompareTransitive(e, xs[m2], xs[k]);
      }
      InsertSorted(xs, m2, e, NextCompare);
    } else {
      assert InsertionPoint(xs, e, NextCompare, -m2 - 1);
      forall k | -m2 - 1 <= k < |xs| ensures NextCompare(e, xs[k]) <= 0 {
        NextCompareAntisymmetric(xs[k], e);
      }
      InsertSorted(xs, -m2 - 1, e, NextCompare);
    }
  }

  /** addChartEntry keeps every property that e has and every entry of the chart has. */
  lemma WithEntryAllOf(c: ChartLists, e: ChartEntry, p: ChartEntry -> bool)
    requires AllOf(c, p) && p(e)
    ensures AllOf(WithEntry(c, e), p)
  {
    var r := WithEntry(c, e);
    if r != c {
      forall x | x in r.sorted ensures p(x) {
        assert x in multiset(r.sorted);
      }
      forall x | x in r.byNext ensures p(x) {
        assert x in multiset(r.byNext);
      }
    }
  }

  // ---------------------------------------------------------------- addOrUpdate

  /** The walk of addOrUpdate over the next-category list: incomplete entries waiting for the
      category e waits for. */
  function Follows(e: ChartEntry): ChartEntry -> bool
  {
    Waiter(NextCategory(e))
  }

  function Is(deleted: ChartEntry): ChartEntry -> bool
  {
    (x: ChartEntry) => x == deleted
  }

  /** The replacement in the next-category list after the search hit m: the hit itself when it
      is the replaced entry; otherwise the first occurrence of the replaced entry found walking
      towards the front from m - 1, and then the first one found walking towards the end from
      m, both walks staying among the entries e's category is waited for by. */
  function Replaced(xs: seq<ChartEntry>, m: int, deleted: ChartEntry, e: ChartEntry): (r: seq<ChartEntry>)
    requires 0 <= m < |xs|
    ensures |r| == |xs|
    ensures forall k :: 0 <= k < |xs| ==> r[k] == xs[k] || (xs[k] == deleted && r[k] == e)
  {
    if xs[m] == deleted then xs[m := e] else ReplaceAround<ChartEntry>(xs, m, Follows(e), Is(deleted), e)
  }

  /** addOrUpdate, with the replacement in the next-category list made whenever its search
      hits at index least or above.  A miss of the string search adds e as addChartEntry does
      and answers true; a hit with lower probability is replaced by e in the sorted list and,
      as far as the walks find it, in the next-category list, and answers true; any other hit
      changes nothing and answers false.  The discovery list never sees the replacement. */
  function UpdatedFrom(c: ChartLists, e: ChartEntry, least: int): (r: (ChartLists, bool))
    ensures r.1 <==> (var m := Search(c.sorted, e, TextCompare); m < 0 || e.probability > c.sorted[m].probability)
    ensures !r.1 ==> r.0 == c
    ensures Search(c.sorted, e, TextCompare) < 0 ==> r.0 == WithEntry(c, e)
    ensures Search(c.sorted, e, TextCompare) >= 0 ==>
      var m := Search(c.sorted, e, TextCompare);
      && r.0.entries == c.entries
      && r.0.sorted == c.sorted[m := (if r.1 then e else c.sorted[m])]
      && |r.0.byNext| == |c.byNext|
      && forall k :: 0 <= k < |c.byNext| ==> r.0.byNext[k] == c.byNext[k] || (c.byNext[k] == c.sorted[m] && r.0.byNext[k] == e)
  {
    var m := Search(c.sorted, e, TextCompare);
    if m < 0 then (WithEntry(c, e), true)
    else if e.probability > c.sorted[m].probability then
      var deleted := c.sorted[m];
      var m2 := Search(c.byNext, e, NextCompare);
      var byNext := if m2 >= least && m2 >= 0 then Replaced(c.byNext, m2, deleted, e) else c.byNext;
      (ChartLists(c.entries, c.sorted[m := e], byNext), true)
    else (c, false)
  }

  /** addOrUpdate as written: the next-category list is touched only when its search hits at
      an index above 0. */
  function UpdatedAsWritten(c: ChartLists, e: ChartEntry): (r: (ChartLists, bool))
    ensures r == UpdatedFrom(c, e, 1)
  {
    UpdatedFrom(c, e, 1)
  }

  /** addOrUpdate as evidently intended: the next-category list is updated on every hit. */
  function Updated(c: ChartLists, e: ChartEntry): (r: (ChartLists, bool))
    ensures r == UpdatedFrom(c, e, 0)
  {
    UpdatedFrom(c, e, 0)
  }

  /** A one-entry chart. */
  function Single(d: ChartEntry): ChartLists
  {
    ChartLists([d], [d], [d])
  }

  /** The search of addOrUpdate hitting index 0 of the next-category list: replacing the only
      entry d of a chart by a better entry e for the same item leaves d in the next-category
      list as written, where the update as intended replaces it. */
  lemma UpdateMissesFirst(d: ChartEntry, e: ChartEntry)
    requires d.rule == e.rule && d.from == e.from && d.to == e.to && d.dotPlace == e.dotPlace
    requires e.probability > d.probability
    ensures UpdatedAsWritten(Single(d), e) == (ChartLists([d], [e], [d]), true)
    ensures Updated(Single(d), e) == (ChartLists([d], [e], [e]), true)
  {
    assert Text(d) == Text(e);
    assert Search([d], e, TextCompare) == 0;
    assert Search([d], e, NextCompare) == 0;
    assert Single(d).sorted[0 := e] == [e];
    assert UpdatedFrom(Single(d), e, 1) == (ChartLists([d], [e], [d]), true);
    assert Replaced([d], 0, d, e) == [e];
  }

  /** addOrUpdate keeps the next-category list sorted. */
  lemma UpdatedSorted(c: ChartLists, e: ChartEntry)
    requires Sorted(c.byNext, NextCompare)
    ensures Sorted(Updated(c, e).0.byNext, NextCompare)
  {
    var m := Search(c.sorted, e, TextCompare);
    if m < 0 {
      WithEntrySorted(c, e);
    } else if e.probability > c.sorted[m].probability {
      var m2 := Search(c.byNext, e, NextCompare);
      if m2 >= 0 {
        ReplacedSorted(c.byNext, m2, c.sorted[m], e);
      }
    }
  }

  /** Every position the replacement writes e into held an entry comparing 0 with e, so the
      next-category list stays sorted. */
  lemma ReplacedSorted(xs: seq<ChartEntry>, m: int, deleted: ChartEntry, e: ChartEntry)
    requires Sorted(xs, NextCompare) && 0 <= m < |xs| && NextCompare(xs[m], e) == 0
    ensures Sorted(Replaced(xs, m, deleted, e), NextCompare)
  {
    if xs[m] == deleted {
      ReplaceSorted(xs, m, e);
    } else {
      var walk, hit := Follows(e), Is(deleted);
      var up := FindDown(xs, m - 1, walk, hit);
      var ys := if up >= 0 then xs[up := e] else xs;
      if up >= 0 {
        FollowsCompares(xs, m, up, e);
        ReplaceSorted(xs, up, e);
      }
      assert ys[m] == xs[m];
      var down := FindUp(ys, m, walk, hit);
      if down >= 0 {
        FollowsCompares(ys, m, down, e);
        ReplaceSorted(ys, down, e);
      }
    }
  }

  /** An entry the walk passes compares 0 with e when the walk started next to an entry
      comparing 0 with e: for an incomplete e it waits for the same category, and a complete e
      has only complete entries at and before the hit, where no walk gets going. */
  lemma FollowsCompares(xs: seq<ChartEntry>, m: int, k: int, e: ChartEntry)
    requires Sorted(xs, NextCompare) && 0 <= m < |xs| && NextCompare(xs[m], e) == 0
    requires 0 <= k < |xs| && Follows(e)(xs[k])
    requires k >= m ==> forall j :: m <= j <= k ==> Follows(e)(xs[j])
    ensures NextCompare(xs[k], e) == 0
  {
    if k < m {
      assert NextCompare(xs[k], xs[m]) <= 0;
    } else {
      assert Follows(e)(xs[m]);
    }
  }

  /** For an incomplete entry e, the replacement does replace: an entry waiting for e's
      category that stands once in the sorted next-category list is gone afterwards, and e is
      there. */
  lemma UpdatedReplaces(xs: seq<ChartEntry>, m: int, deleted: ChartEntry, e: ChartEntry)
    requires Sorted(xs, NextCompare) && Distinct(xs) && 0 <= m < |xs| && NextCompare(xs[m], e) == 0
    requires !Complete(e) && deleted in xs && Follows(e)(deleted) && e != deleted
    ensures deleted !in Replaced(xs, m, deleted, e) && e in Replaced(xs, m, deleted, e)
  {
    var t :| 0 <= t < |xs| && xs[t] == deleted;
    forall k | 0 <= k < |xs| ensures Is(deleted)(xs[k]) <==> k == t {
      if k != t {
        assert xs[k] != xs[t];
      }
    }
    var r := xs[t := e];
    if xs[m] != deleted {
      assert Follows(e)(xs[m]);
      SortedBlocks(xs, NextCategory(e));
      ReplaceAroundUnique<ChartEntry>(xs, m, Follows(e), Is(deleted), e, t);
    }
    assert Replaced(xs, m, deleted, e) == r && r[t] == e;
    forall k | 0 <= k < |r| ensures r[k] != deleted {
      if k != t {
        assert xs[k] != xs[t];
      }
    }
  }

  /** addOrUpdate keeps every property that e has and every entry of the chart has. */
  lemma UpdatedAllOf(c: ChartLists, e: ChartEntry, p: ChartEntry -> bool)
    requires AllOf(c, p) && p(e)
    ensures AllOf(Updated(c, e).0, p)
  {
    var r := Updated(c, e).0;
    if Search(c.sorted, e, TextCompare) < 0 {
      WithEntryAllOf(c, e, p);
    } else {
      var m := Search(c.sorted, e, TextCompare);
      forall x | x in r.sorted ensures p(x) {
        var k :| 0 <= k < |r.sorted| && r.sorted[k] == x;
      }
      forall x | x in r.byNext ensures p(x) {
        var k :| 0 <= k < |r.byNext| && r.byNext[k] == x;
        assert c.byNext[k] in c.byNext;
      }
    }
  }

  /** size and getEntry: the discovery list only grows, at its end, and only by the entry
      added. */
  lemma DiscoveryOrder(c: ChartLists, e: ChartEntry)
    ensures WithEntry(c, e).entries == c.entries || WithEntry(c, e).entries == c.entries + [e]
    ensures Updated(c, e).0.entries == c.entries || Updated(c, e).0.entries == c.entries + [e]
  {
  }

  // ---------------------------------------------------------------- getNextCategoryX

  /** The walk of getNextCategoryX: incomplete and waiting for X. */
  function Waiter(X: Symbol): ChartEntry -> bool
  {
    (x: ChartEntry) => Waits(x, X)
  }

  /** getNextCategoryX keeps every entry the walk passes. */
  function Anything(): ChartEntry -> bool
  {
    (_: ChartEntry) => true
  }

  /** The comparison of getNextCategoryX's binary search: ChartEntryNextCategoryComparator
      against the dummy entry for the rule X -> X with the dot at 0. */
  function AgainstCategory(x: ChartEntry, X: Symbol): (r: int)
    ensures r == 0 <==> Waits(x, X)
    ensures r < 0 <==> Complete(x) || JavaString.CompareTo(NextCategory(x), X) < 0
  {
    if Complete(x) then -1 else JavaString.CompareTo(NextCategory(x), X)
  }

  /** Comparing with the dummy entry is comparing with its category: any entry waiting for X
      with its dot in range compares with x as X does. */
  lemma AgainstDummy(x: ChartEntry, d: ChartEntry, X: Symbol)
    requires Waits(d, X)
    ensures NextCompare(x, d) == AgainstCategory(x, X)
  {
  }

  /** A sorted next-category list is partitioned with respect to any category. */
  lemma SortedAgainst(xs: seq<ChartEntry>, X: Symbol)
    requires Sorted(xs, NextCompare)
    ensures Partitioned(xs, X, AgainstCategory)
  {
    forall i, j | 0 <= i < j < |xs|
      ensures (AgainstCategory(xs[j], X) < 0 ==> AgainstCategory(xs[i], X) < 0)
      ensures (AgainstCategory(xs[i], X) > 0 ==> AgainstCategory(xs[j], X) > 0)
    {
      assert NextCompare(xs[i], xs[j]) <= 0;
      if !Complete(xs[i]) && !Complete(xs[j]) {
        var a, b := NextCategory(xs[i]), NextCategory(xs[j]);
        if JavaString.CompareTo(b, X) < 0 {
          JavaString.CompareToStrict(a, b, X);
        }
        if JavaString.CompareTo(a, X) > 0 {
          JavaString.CompareToAntisymmetric(a, X);
          JavaString.CompareToAntisymmetric(b, X);
          JavaString.CompareToStrict(X, a, b);
        }
      }
    }
  }

  /** getNextCategoryX as evidently intended: the walks around a hit of the search for X;
      nothing on a miss. */
  function WaitingFor(xs: seq<ChartEntry>, X: Symbol): seq<ChartEntry>
  {
    var m := Search(xs, X, AgainstCategory);
    if m < 0 then [] else Straddle(xs, m, Waiter(X), Anything())
  }

  lemma WaitingForAt(xs: seq<ChartEntry>, X: Symbol, m: int, r: seq<ChartEntry>)
    requires m == Search(xs, X, AgainstCategory)
    requires m < 0 ==> r == []
    requires m >= 0 ==> r == Straddle(xs, m, Waiter(X), Anything())
    ensures WaitingFor(xs, X) == r
  {
  }

  /** getNextCategoryX as written: a hit at index 0 is treated as a miss. */
  function WaitingForAsWritten(xs: seq<ChartEntry>, X: Symbol): (r: seq<ChartEntry>)
    ensures Search(xs, X, AgainstCategory) > 0 ==> r == WaitingFor(xs, X)
    ensures Search(xs, X, AgainstCategory) <= 0 ==> r == []
  {
    if Search(xs, X, AgainstCategory) > 0 then WaitingFor(xs, X) else []
  }

  /** A hit m of the search on a sorted list: the walks around it collect exactly the entries
      waiting for X. */
  lemma WaitingHit(xs: seq<ChartEntry>, m: int, X: Symbol)
    requires Sorted(xs, NextCompare) && 0 <= m < |xs| && Waits(xs[m], X)
    ensures forall x :: x in Straddle(xs, m, Waiter(X), Anything()) <==> x in xs && Waits(x, X)
    ensures Distinct(xs) ==> Distinct(Straddle(xs, m, Waiter(X), Anything()))
  {
    SortedBlocks(xs, X);
    StraddleExact(xs, m, Waiter(X), Anything());
  }

  /** A miss of the search on a sorted list: no entry waits for X. */
  lemma WaitingNone(xs: seq<ChartEntry>, X: Symbol)
    requires Sorted(xs, NextCompare) && Search(xs, X, AgainstCategory) < 0
    ensures forall x :: x in xs ==> !Waits(x, X)
  {
    SortedAgainst(xs, X);
    forall x | x in xs ensures !Waits(x, X) {
      var k :| 0 <= k < |xs| && xs[k] == x;
    }
  }

  /** On a sorted next-category list, getNextCategoryX returns exactly the entries waiting for
      X, each once when the list holds it once. */
  lemma WaitingForExact(xs: seq<ChartEntry>, X: Symbol)
    requires Sorted(xs, NextCompare)
    ensures forall x :: x in WaitingFor(xs, X) <==> x in xs && Waits(x, X)
    ensures Distinct(xs) ==> Distinct(WaitingFor(xs, X))
  {
    var m := Search(xs, X, AgainstCategory);
    if m >= 0 {
      WaitingHit(xs, m, X);
    } else {
      WaitingNone(xs, X);
    }
  }

  /** A chart whose next-category list holds a single entry waiting for X: the search hits
      index 0, so getNextCategoryX as written finds nothing where the entry is waiting. */
  lemma NextCategoryMissesFirst(e: ChartEntry, X: Symbol)
    requires Waits(e, X)
    ensures WaitingForAsWritten([e], X) == []
    ensures WaitingFor([e], X) == [e]
  {
    assert Search([e], X, AgainstCategory) == 0;
    WaitingForExact([e], X);
    assert RunUp([e], 0, Waiter(X)) == 1;
  }

  // ---------------------------------------------------------------- getSentenceChartEntries

  /** A complete S entry spanning the whole sentence of wordCount words. */
  predicate SentenceEntry(x: ChartEntry, wordCount: int)
  {
    Complete(x) && x.from == 0 && x.to == wordCount && x.rule.lhs == "S"
  }

  /** The sentence entries of xs, in the order of xs. */
  function SentenceEntries(xs: seq<ChartEntry>, wordCount: int): (r: seq<ChartEntry>)
    ensures forall x :: x in r ==> x in xs && SentenceEntry(x, wordCount)
    ensures forall k :: 0 <= k < |xs| && SentenceEntry(xs[k], wordCount) ==> xs[k] in r
    ensures Distinct(xs) ==> Distinct(r)
  {
    if xs == [] then []
    else
      var init := xs[..|xs| - 1];
      var last := xs[|xs| - 1];
      assert xs == init + [last];
      SentenceEntries(init, wordCount) + (if SentenceEntry(last, wordCount) then [last] else [])
  }

  // ---------------------------------------------------------------- the chart object

  class Chart {
    var entries: seq<ChartEntry>
    var sorted: seq<ChartEntry>
    var byNext: seq<ChartEntry>

    function View(): ChartLists
      reads this
    {
      ChartLists(entries, sorted, byNext)
    }

    /** Chart(): three empty lists. */
    constructor ()
      ensures View() == ChartLists([], [], [])
    {
      entries := [];
      sorted := [];
      byNext := [];
    }

    /** size. */
    function Size(): nat
      reads this
    {
      |entries|
    }

    /** getEntry: the entry discovered index-th. */
    function GetEntry(index: int): ChartEntry
      reads this
      requires 0 <= index < |entries|
    {
      entries[index]
    }

    /** addChartEntry. */
    method AddChartEntry(e: ChartEntry)
      modifies this
      ensures View() == WithEntry(old(View()), e)
    {
      var middle := BinarySearch(sorted, e, EntryCompare);
      if middle < 0 {
        var next := BinarySearch(byNext, e, NextCompare);
        var slot := if next >= 0 then next else -next - 1;
        WithEntryAt(View(), e, middle, slot);
        sorted, entries, byNext := Insert(sorted, -middle - 1, e), entries + [e], Insert(byNext, slot, e);
      } else {
        WithEntryCases(View(), e);
      }
    }

    /** addOrUpdate, with the next-category list updated on every hit of its search. */
    method AddOrUpdate(e: ChartEntry) returns (b: bool)
      modifies this
      ensures (View(), b) == Updated(old(View()), e)
    {
      var middle := BinarySearch(sorted, e, TextCompare);
      if middle < 0 {
        AddChartEntry(e);
        return true;
      }
      if e.probability > sorted[middle].probability {
        var deleted := sorted[middle];
        sorted := sorted[middle := e];
        middle := BinarySearch(byNext, e, NextCompare);
        if middle >= 0 {
          Replace(middle, deleted, e);
        }
        return true;
      }
      return false;
    }

    /** The replacement of deleted by e in the next-category list around its search hit. */
    method Replace(middle: int, deleted: ChartEntry, e: ChartEntry)
      requires 0 <= middle < |byNext|
      modifies this
      ensures View() == old(View()).(byNext := Replaced(old(byNext), middle, deleted, e))
    {
      if byNext[middle] == deleted {
        byNext := byNext[middle := e];
      } else {
        var middleUp := FindDownLoop(byNext, middle - 1, Follows(e), Is(deleted));
        if middleUp >= 0 {
          byNext := byNext[middleUp := e];
        }
        var middleDown := FindUpLoop(byNext, middle, Follows(e), Is(deleted));
        if middleDown >= 0 {
          byNext := byNext[middleDown := e];
        }
      }
    }

    /** getNextCategoryX, with a hit at index 0 treated as a hit. */
    method GetNextCategoryX(X: Symbol) returns (result: seq<ChartEntry>)
      ensures result == WaitingFor(byNext, X)
    {
      var xs := byNext;
      var middle := BinarySearch(xs, X, AgainstCategory);
      result := [];
      if middle >= 0 {
        result := CollectStraddle(xs, middle, Waiter(X), Anything());
      }
      WaitingForAt(xs, X, middle, result);
    }

    /** getSentenceChartEntries: the sentence entries, in the order of the sorted list. */
    method GetSentenceChartEntries(wordCount: int) returns (result: seq<ChartEntry>)
      ensures result == SentenceEntries(sorted, wordCount)
    {
      result := [];
      for k := 0 to |sorted|
        invariant result == SentenceEntries(sorted[..k], wordCount)
      {
        assert sorted[..k + 1][..k] == sorted[..k];
        if SentenceEntry(sorted[k], wordCount) {
          result := result + [sorted[k]];
        }
      }
      assert sorted[..|sorted|] == sorted;
    }
  }
}
