/** The rule index that ContextFreeGrammar (both copies) and its probabilistic subclass keep:
    a list `rules` sorted by RuleComparator and a list `rulesRightSorted` sorted by
    RuleRightSideComparator, both holding references to the same Rule objects.  Objects are
    modelled by a store of rule values addressed by id: the two lists are lists of ids, an id in
    both lists is one object in both, and a change to a Rule object's fields is a change to its
    store entry, seen through both lists at once. */
module RuleIndex {
  import opened Wrappers
  import opened Rules
  import opened SortedLists
  import RuleOrder

  datatype Index = Index(store: seq<Rule>, rules: seq<nat>, right: seq<nat>)

  /** The object an id names (ids outside the store, which a consistent index never holds,
      read as a rule with nothing in it). */
  function At(store: seq<Rule>, id: nat): Rule
  {
    if id < |store| then store[id] else Rule("", [], None, None)
  }

  /** The comparators applied to the objects behind ids, and against a key rule. */
  function ByRule(store: seq<Rule>): (nat, nat) -> int
  {
    (a: nat, b: nat) => RuleOrder.RuleCompare(At(store, a), At(store, b))
  }

  function ByRight(store: seq<Rule>): (nat, nat) -> int
  {
    (a: nat, b: nat) => RuleOrder.RightSideCompare(At(store, a), At(store, b))
  }

  function AgainstRule(store: seq<Rule>): (nat, Rule) -> int
  {
    (a: nat, r: Rule) => RuleOrder.RuleCompare(At(store, a), r)
  }

  function AgainstRight(store: seq<Rule>): (nat, Rule) -> int
  {
    (a: nat, r: Rule) => RuleOrder.RightSideCompare(At(store, a), r)
  }

  function AgainstLeft(store: seq<Rule>): (nat, Rule) -> int
  {
    (a: nat, r: Rule) => RuleOrder.LeftSideCompare(At(store, a), r)
  }

  /** Equal under RuleComparator: same left-hand side and same right-hand side. */
  predicate SameRule(a: Rule, b: Rule)
  {
    a.lhs == b.lhs && a.rhs == b.rhs
  }

  /** Both lists name objects of the store, neither holds an object twice, and both hold the
      same objects. */
  predicate Consistent(ix: Index)
  {
    && (forall k :: 0 <= k < |ix.rules| ==> ix.rules[k] < |ix.store|)
    && Distinct(ix.rules) && Distinct(ix.right)
    && multiset(ix.rules) == multiset(ix.right)
  }

  /** The invariant addRule, removeRule and the queries keep: `rules` sorted by RuleComparator
      with no two rules equal under it, `rulesRightSorted` sorted by RuleRightSideComparator, and
      no rule with an empty right-hand side (every query reads the first right-hand symbol). */
  predicate Valid(ix: Index)
  {
    && Consistent(ix)
    && StrictlySorted(ix.rules, ByRule(ix.store))
    && Sorted(ix.right, ByRight(ix.store))
    && forall k :: 0 <= k < |ix.rules| ==> At(ix.store, ix.rules[k]).rhs != []
  }

  /** The rules of the grammar, in list order. */
  function Contents(ix: Index): (rs: seq<Rule>)
    ensures |rs| == |ix.rules| && forall k :: 0 <= k < |rs| ==> rs[k] == At(ix.store, ix.rules[k])
  {
    seq(|ix.rules|, k requires 0 <= k < |ix.rules| => At(ix.store, ix.rules[k]))
  }

  lemma EmptyValid()
    ensures Valid(Index([], [], []))
  {
  }

  /** What rulesRightSorted holds, rules holds. */
  lemma RightMembers(ix: Index)
    requires Consistent(ix)
    ensures forall k :: 0 <= k < |ix.right| ==> ix.right[k] in ix.rules && ix.right[k] < |ix.store|
  {
    forall k | 0 <= k < |ix.right| ensures ix.right[k] in ix.rules && ix.right[k] < |ix.store| {
      assert ix.right[k] in multiset(ix.right);
      assert ix.right[k] in multiset(ix.rules);
    }
  }

  // ---------------------------------------------------------------- sorted lists are partitioned

  lemma RulesPartitioned(ix: Index, r: Rule)
    requires StrictlySorted(ix.rules, ByRule(ix.store))
    ensures Partitioned(ix.rules, r, AgainstRule(ix.store))
  {
    forall i, j | 0 <= i < j < |ix.rules|
      ensures (AgainstRule(ix.store)(ix.rules[j], r) < 0 ==> AgainstRule(ix.store)(ix.rules[i], r) < 0)
           && (AgainstRule(ix.store)(ix.rules[i], r) > 0 ==> AgainstRule(ix.store)(ix.rules[j], r) > 0)
    {
      var a, b := At(ix.store, ix.rules[i]), At(ix.store, ix.rules[j]);
      assert RuleOrder.RuleCompare(a, b) < 0;
      RuleOrder.RuleCompareMixed(a, b, r);
      RuleOrder.RuleCompareAntisymmetric(a, r);
      RuleOrder.RuleCompareAntisymmetric(b, r);
      RuleOrder.RuleCompareMixed(r, a, b);
    }
  }

  lemma LeftPartitioned(ix: Index, r: Rule)
    requires StrictlySorted(ix.rules, ByRule(ix.store))
    ensures Partitioned(ix.rules, r, AgainstLeft(ix.store))
  {
    forall i, j | 0 <= i < j < |ix.rules|
      ensures (AgainstLeft(ix.store)(ix.rules[j], r) < 0 ==> AgainstLeft(ix.store)(ix.rules[i], r) < 0)
           && (AgainstLeft(ix.store)(ix.rules[i], r) > 0 ==> AgainstLeft(ix.store)(ix.rules[j], r) > 0)
    {
      var a, b := At(ix.store, ix.rules[i]), At(ix.store, ix.rules[j]);
      assert RuleOrder.RuleCompare(a, b) < 0;
      assert RuleOrder.LeftSideCompare(a, b) <= 0;
      RuleOrder.LeftSideCompareMixed(a, b, r);
      RuleOrder.RuleCompareAntisymmetric(a, r);
      RuleOrder.RuleCompareAntisymmetric(b, r);
      RuleOrder.LeftSideCompareMixed(r, a, b);
    }
  }

  lemma RightPartitioned(ix: Index, r: Rule)
    requires Sorted(ix.right, ByRight(ix.store))
    ensures Partitioned(ix.right, r, AgainstRight(ix.store))
  {
    forall i, j | 0 <= i < j < |ix.right|
      ensures (AgainstRight(ix.store)(ix.right[j], r) < 0 ==> AgainstRight(ix.store)(ix.right[i], r) < 0)
           && (AgainstRight(ix.store)(ix.right[i], r) > 0 ==> AgainstRight(ix.store)(ix.right[j], r) > 0)
    {
      var a, b := At(ix.store, ix.right[i]), At(ix.store, ix.right[j]);
      assert RuleOrder.RightSideCompare(a, b) <= 0;
      RuleOrder.RightSideCompareMixed(a, b, r);
      RuleOrder.RuleCompareAntisymmetric(a, r);
      RuleOrder.RuleCompareAntisymmetric(b, r);
      RuleOrder.RightSideCompareMixed(r, a, b);
    }
  }

  /** In a valid index no two positions of `rules` hold rules equal under RuleComparator. */
  lemma DistinctPositionsDiffer(ix: Index, k: int, k': int)
    requires Valid(ix) && 0 <= k < |ix.rules| && 0 <= k' < |ix.rules| && k != k'
    ensures !SameRule(At(ix.store, ix.rules[k]), At(ix.store, ix.rules[k']))
  {
    if k < k' {
      assert ByRule(ix.store)(ix.rules[k], ix.rules[k']) < 0;
    } else {
      assert ByRule(ix.store)(ix.rules[k'], ix.rules[k]) < 0;
    }
  }

  // ---------------------------------------------------------------- addRule

  /** One fresh object holding r, at some position of each list. */
  predicate FreshlyInserted(ix: Index, r: Rule, ix': Index)
  {
    && ix'.store == ix.store + [r]
    && (exists p :: 0 <= p <= |ix.rules| && ix'.rules == Insert<nat>(ix.rules, p, |ix.store|))
    && (exists q :: 0 <= q <= |ix.right| && ix'.right == Insert<nat>(ix.right, q, |ix.store|))
  }

  /** ContextFreeGrammar.addRule: binary-search `rules` with RuleComparator; on a miss, insert
      the new object at the insertion point, then binary-search rulesRightSorted with
      RuleRightSideComparator and insert it at the hit or at the insertion point.  Whatever the
      lists hold, a call either changes nothing, and then a rule equal to r was found, or adds
      exactly one new object to each list. */
  function Added(ix: Index, r: Rule): (ix': Index)
    ensures ix' == ix || FreshlyInserted(ix, r, ix')
    ensures ix' == ix ==> exists k :: 0 <= k < |ix.rules| && SameRule(At(ix.store, ix.rules[k]), r)
  {
    if Search(ix.rules, r, AgainstRule(ix.store)) >= 0 then ix
    else Index(ix.store + [r], Insert<nat>(ix.rules, RuleSlot(ix, r), |ix.store|), Insert<nat>(ix.right, RightSlot(ix, r), |ix.store|))
  }

  /** Where addRule inserts into `rules`: the insertion point of the missed search. */
  function RuleSlot(ix: Index, r: Rule): (j: int)
    requires Search(ix.rules, r, AgainstRule(ix.store)) < 0
    ensures 0 <= j <= |ix.rules|
  {
    -Search(ix.rules, r, AgainstRule(ix.store)) - 1
  }

  /** Where addRule inserts into rulesRightSorted: the hit, or the insertion point of a miss. */
  function RightSlot(ix: Index, r: Rule): (j: int)
    ensures 0 <= j <= |ix.right|
  {
    var pos2 := Search(ix.right, r, AgainstRight(ix.store));
    if pos2 >= 0 then pos2 else -pos2 - 1
  }

  /** Some object of `rules` is lhs -> rhs. */
  predicate HasRule(ix: Index, lhs: Symbol, rhs: seq<Symbol>)
  {
    exists id :: id in ix.rules && At(ix.store, id).lhs == lhs && At(ix.store, id).rhs == rhs
  }

  /** After addRule the rule is there, added or found. */
  lemma AddedHasRule(ix: Index, r: Rule)
    ensures HasRule(Added(ix, r), r.lhs, r.rhs)
  {
    var ix' := Added(ix, r);
    if ix' == ix {
      var k :| 0 <= k < |ix.rules| && SameRule(At(ix.store, ix.rules[k]), r);
      assert ix.rules[k] in ix.rules;
    } else {
      var p :| 0 <= p <= |ix.rules| && ix'.rules == Insert<nat>(ix.rules, p, |ix.store|);
      assert ix'.rules[p] == |ix.store|;
      assert At(ix'.store, |ix.store|) == r;
    }
  }

  /** Appending to the store does not change what the old ids name. */
  lemma StoreExtended(store: seq<Rule>, r: Rule, xs: seq<nat>)
    requires forall k :: 0 <= k < |xs| ==> xs[k] < |store|
    ensures forall k :: 0 <= k < |xs| ==> At(store + [r], xs[k]) == At(store, xs[k])
    ensures At(store + [r], |store|) == r
    ensures StrictlySorted(xs, ByRule(store)) ==> StrictlySorted(xs, ByRule(store + [r]))
    ensures Sorted(xs, ByRight(store)) ==> Sorted(xs, ByRight(store + [r]))
  {
    if StrictlySorted(xs, ByRule(store)) {
      forall i, j | 0 <= i < j < |xs| ensures ByRule(store + [r])(xs[i], xs[j]) < 0 {
        assert ByRule(store)(xs[i], xs[j]) < 0;
      }
    }
    if Sorted(xs, ByRight(store)) {
      forall i, j | 0 <= i < j < |xs| ensures ByRight(store + [r])(xs[i], xs[j]) <= 0 {
        assert ByRight(store)(xs[i], xs[j]) <= 0;
      }
    }
  }

  /** addRule on a valid index: a no-op exactly when an equal rule is already there; otherwise
      the index stays valid (both lists sorted, no duplicates, same objects in both). */
  lemma AddedValid(ix: Index, r: Rule)
    requires Valid(ix)
    ensures Added(ix, r) == ix <==> exists k :: 0 <= k < |ix.rules| && SameRule(At(ix.store, ix.rules[k]), r)
    ensures r.rhs != [] ==> Valid(Added(ix, r))
  {
    var pos := Search(ix.rules, r, AgainstRule(ix.store));
    RulesPartitioned(ix, r);
    if pos < 0 {
      assert |Added(ix, r).store| != |ix.store|;
      if r.rhs != [] {
        AddedSorted(ix, r);
      }
    }
  }

  lemma AddedSorted(ix: Index, r: Rule)
    requires Valid(ix) && r.rhs != []
    requires Search(ix.rules, r, AgainstRule(ix.store)) < 0
    ensures Valid(Added(ix, r))
  {
    var ip := -Search(ix.rules, r, AgainstRule(ix.store)) - 1;
    var pos2 := Search(ix.right, r, AgainstRight(ix.store));
    var q := if pos2 >= 0 then pos2 else -pos2 - 1;
    AddedRulesSorted(ix, r, ip);
    AddedRightSorted(ix, r, q);
    InsertedValid(ix, r, ip, q);
  }

  /** A fresh object inserted into both lists of a valid index, at places that keep them
      sorted, gives a valid index. */
  lemma InsertedValid(ix: Index, r: Rule, ip: int, q: int)
    requires Valid(ix) && r.rhs != [] && 0 <= ip <= |ix.rules| && 0 <= q <= |ix.right|
    requires StrictlySorted(Insert<nat>(ix.rules, ip, |ix.store|), ByRule(ix.store + [r]))
    requires Sorted(Insert<nat>(ix.right, q, |ix.store|), ByRight(ix.store + [r]))
    ensures Valid(Index(ix.store + [r], Insert<nat>(ix.rules, ip, |ix.store|), Insert<nat>(ix.right, q, |ix.store|)))
  {
    InsertedConsistent(ix, r, ip, q);
    InsertedNonEmpty(ix, r, ip);
  }

  lemma InsertedConsistent(ix: Index, r: Rule, ip: int, q: int)
    requires Consistent(ix) && 0 <= ip <= |ix.rules| && 0 <= q <= |ix.right|
    ensures Consistent(Index(ix.store + [r], Insert<nat>(ix.rules, ip, |ix.store|), Insert<nat>(ix.right, q, |ix.store|)))
  {
    var id: nat := |ix.store|;
    var rules' := Insert<nat>(ix.rules, ip, id);
    RightMembers(ix);
    InsertFresh(ix.rules, ip, id);
    InsertFresh(ix.right, q, id);
    forall k | 0 <= k < |rules'| ensures rules'[k] < id + 1 {
      InsertedAt(ix.rules, ip, id, k);
    }
  }

  lemma InsertedNonEmpty(ix: Index, r: Rule, ip: int)
    requires Valid(ix) && r.rhs != [] && 0 <= ip <= |ix.rules|
    ensures forall k :: 0 <= k < |ix.rules| + 1 ==> At(ix.store + [r], Insert<nat>(ix.rules, ip, |ix.store|)[k]).rhs != []
  {
    var id: nat := |ix.store|;
    var rules' := Insert<nat>(ix.rules, ip, id);
    StoreExtended(ix.store, r, ix.rules);
    forall k | 0 <= k < |rules'| ensures At(ix.store + [r], rules'[k]).rhs != [] {
      InsertedAt(ix.rules, ip, id, k);
    }
  }

  /** Position k of a list after an insertion at i. */
  lemma InsertedAt(xs: seq<nat>, i: int, x: nat, k: int)
    requires 0 <= i <= |xs| && 0 <= k <= |xs|
    ensures Insert<nat>(xs, i, x)[k] == if k < i then xs[k] else if k == i then x else xs[k - 1]
  {
    var ys := Insert<nat>(xs, i, x);
    if k < i {
      assert ys[k] == ys[..i][k];
    } else if k > i {
      assert ys[k] == ys[i + 1..][k - i - 1];
    }
  }

  /** Inserting an id that a distinct list does not hold keeps it distinct. */
  lemma InsertFresh(xs: seq<nat>, i: int, id: nat)
    requires Distinct(xs) && id !in xs && 0 <= i <= |xs|
    ensures Distinct(Insert<nat>(xs, i, id))
  {
    var ys := Insert<nat>(xs, i, id);
    forall a, b | 0 <= a < b < |ys| ensures ys[a] != ys[b] {
      var a', b' := if a < i then a else a - 1, if b < i then b else b - 1;
      if a != i && b != i {
        assert ys[a] == xs[a'] && ys[b] == xs[b'];
      } else if a == i {
        assert ys[b] == xs[b'];
      } else {
        assert ys[a] == xs[a'];
      }
    }
  }

  lemma AddedRulesSorted(ix: Index, r: Rule, ip: int)
    requires Valid(ix) && ip == -Search(ix.rules, r, AgainstRule(ix.store)) - 1 && ip >= 0
    ensures StrictlySorted(Insert<nat>(ix.rules, ip, |ix.store|), ByRule(ix.store + [r]))
  {
    var st := ix.store + [r];
    var id: nat := |ix.store|;
    RulesPartitioned(ix, r);
    StoreExtended(ix.store, r, ix.rules);
    forall k | 0 <= k < ip ensures ByRule(st)(ix.rules[k], id) < 0 {
      assert AgainstRule(ix.store)(ix.rules[k], r) < 0;
    }
    forall k | ip <= k < |ix.rules| ensures ByRule(st)(id, ix.rules[k]) < 0 {
      assert AgainstRule(ix.store)(ix.rules[k], r) > 0;
      RuleOrder.RuleCompareAntisymmetric(r, At(ix.store, ix.rules[k]));
    }
    InsertStrictlySorted<nat>(ix.rules, ip, id, ByRule(st));
  }

  lemma AddedRightSorted(ix: Index, r: Rule, q: int)
    requires Valid(ix)
    requires var pos2 := Search(ix.right, r, AgainstRight(ix.store)); q == if pos2 >= 0 then pos2 else -pos2 - 1
    ensures Sorted(Insert<nat>(ix.right, q, |ix.store|), ByRight(ix.store + [r]))
  {
    RightMembers(ix);
    StoreExtended(ix.store, r, ix.right);
    RightBelow(ix, r, q);
    RightAbove(ix, r, q);
    InsertSorted<nat>(ix.right, q, |ix.store|, ByRight(ix.store + [r]));
  }

  lemma RightBelow(ix: Index, r: Rule, q: int)
    requires Valid(ix)
    requires var pos2 := Search(ix.right, r, AgainstRight(ix.store)); q == if pos2 >= 0 then pos2 else -pos2 - 1
    ensures forall k :: 0 <= k < q ==> RuleOrder.RightSideCompare(At(ix.store, ix.right[k]), r) <= 0
  {
    var pos2 := Search(ix.right, r, AgainstRight(ix.store));
    RightPartitioned(ix, r);
    forall k | 0 <= k < q ensures RuleOrder.RightSideCompare(At(ix.store, ix.right[k]), r) <= 0 {
      if pos2 >= 0 {
        assert ByRight(ix.store)(ix.right[k], ix.right[q]) <= 0;
        assert RuleOrder.RightSideCompare(At(ix.store, ix.right[q]), r) == 0;
      } else {
        assert AgainstRight(ix.store)(ix.right[k], r) < 0;
      }
    }
  }

  lemma RightAbove(ix: Index, r: Rule, q: int)
    requires Valid(ix)
    requires var pos2 := Search(ix.right, r, AgainstRight(ix.store)); q == if pos2 >= 0 then pos2 else -pos2 - 1
    ensures forall k :: q <= k < |ix.right| ==> RuleOrder.RightSideCompare(r, At(ix.store, ix.right[k])) <= 0
  {
    var pos2 := Search(ix.right, r, AgainstRight(ix.store));
    RightPartitioned(ix, r);
    forall k | q <= k < |ix.right| ensures RuleOrder.RightSideCompare(r, At(ix.store, ix.right[k])) <= 0 {
      RuleOrder.RuleCompareAntisymmetric(r, At(ix.store, ix.right[k]));
      if pos2 >= 0 {
        assert RuleOrder.RightSideCompare(At(ix.store, ix.right[q]), r) == 0;
        if q < k {
          assert ByRight(ix.store)(ix.right[q], ix.right[k]) <= 0;
          RuleOrder.RuleCompareAntisymmetric(r, At(ix.store, ix.right[q]));
          RuleOrder.RightSideCompareTransitive(r, At(ix.store, ix.right[q]), At(ix.store, ix.right[k]));
        }
      } else {
        assert AgainstRight(ix.store)(ix.right[k], r) > 0;
      }
    }
  }

  // ---------------------------------------------------------------- removeRule

  /** The two tests of the removal scan of rulesRightSorted: the walk goes on while the entry has
      r's right-hand side, and stops at an entry equal to r under RuleComparator. */
  function SameRight(store: seq<Rule>, r: Rule): nat -> bool
  {
    (id: nat) => RuleOrder.RightSideCompare(At(store, id), r) == 0
  }

  function Matches(store: seq<Rule>, r: Rule): nat -> bool
  {
    (id: nat) => RuleOrder.RuleCompare(r, At(store, id)) == 0
  }

  /** When `rules` holds a rule equal to r, its object is in rulesRightSorted and the search of
      rulesRightSorted by right-hand side hits. */
  lemma RightHit(ix: Index, r: Rule)
    requires Valid(ix) && Search(ix.rules, r, AgainstRule(ix.store)) >= 0
    ensures ix.rules[Search(ix.rules, r, AgainstRule(ix.store))] in ix.right
    ensures Search(ix.right, r, AgainstRight(ix.store)) >= 0
  {
    var id := ix.rules[Search(ix.rules, r, AgainstRule(ix.store))];
    assert id in multiset(ix.rules);
    assert id in multiset(ix.right);
    var j :| 0 <= j < |ix.right| && ix.right[j] == id;
    RightPartitioned(ix, r);
    assert AgainstRight(ix.store)(ix.right[j], r) == 0;
  }

  /** The index of rulesRightSorted that removeRule deletes: the first entry equal to r met
      walking up from the search hit while right-hand sides agree, or else walking down from
      just below the hit; -1 when there is none. */
  function RightRemoval(ix: Index, r: Rule): (j: int)
    requires Valid(ix) && Search(ix.rules, r, AgainstRule(ix.store)) >= 0
    ensures -1 <= j < |ix.right|
  {
    var pos2 := Search(ix.right, r, AgainstRight(ix.store));
    RightHit(ix, r);
    var up := FindDown(ix.right, pos2, SameRight(ix.store, r), Matches(ix.store, r));
    if up >= 0 then up else FindUp(ix.right, pos2 + 1, SameRight(ix.store, r), Matches(ix.store, r))
  }

  /** ContextFreeGrammar.removeRule: binary-search `rules` with RuleComparator; on a hit, remove
      that entry, then remove from rulesRightSorted the entry the scan finds. */
  function Removed(ix: Index, r: Rule): (ix': Index)
    requires Valid(ix)
    ensures ix'.store == ix.store
  {
    if Search(ix.rules, r, AgainstRule(ix.store)) < 0 then ix
    else Index(ix.store, Remove<nat>(ix.rules, RuleHit(ix, r)), RightRemoved(ix, r))
  }

  /** The hit of removeRule's search of `rules`. */
  function RuleHit(ix: Index, r: Rule): (j: int)
    requires Search(ix.rules, r, AgainstRule(ix.store)) >= 0
    ensures 0 <= j < |ix.rules|
  {
    Search(ix.rules, r, AgainstRule(ix.store))
  }

  /** rulesRightSorted after removeRule's scan: without the entry the scan finds, if any. */
  function RightRemoved(ix: Index, r: Rule): seq<nat>
    requires Valid(ix) && Search(ix.rules, r, AgainstRule(ix.store)) >= 0
  {
    var j := RightRemoval(ix, r);
    if j >= 0 then Remove<nat>(ix.right, j) else ix.right
  }

  /** In a list sorted by right-hand side, the entries with r's right-hand side form one block. */
  lemma SameRightConvex(ix: Index, r: Rule)
    requires Sorted(ix.right, ByRight(ix.store))
    ensures Convex(ix.right, SameRight(ix.store, r))
  {
    var walk := SameRight(ix.store, r);
    forall i, j, k | 0 <= i < j < k < |ix.right| && walk(ix.right[i]) && walk(ix.right[k])
      ensures walk(ix.right[j])
    {
      var a, b, c := At(ix.store, ix.right[i]), At(ix.store, ix.right[j]), At(ix.store, ix.right[k]);
      assert ByRight(ix.store)(ix.right[i], ix.right[j]) <= 0;
      assert ByRight(ix.store)(ix.right[j], ix.right[k]) <= 0;
      RuleOrder.RuleCompareAntisymmetric(b, c);
      assert a.rhs == c.rhs;
    }
  }

  /** Under the invariant the only entry of rulesRightSorted equal to r is the object removed
      from `rules`. */
  lemma OnlyMatch(ix: Index, r: Rule, m: int)
    requires Valid(ix) && Search(ix.rules, r, AgainstRule(ix.store)) >= 0
    requires 0 <= m < |ix.right| && Matches(ix.store, r)(ix.right[m])
    ensures ix.right[m] == ix.rules[Search(ix.rules, r, AgainstRule(ix.store))]
  {
    var pos := Search(ix.rules, r, AgainstRule(ix.store));
    RightMembers(ix);
    var k :| 0 <= k < |ix.rules| && ix.rules[k] == ix.right[m];
    if k != pos {
      DistinctPositionsDiffer(ix, k, pos);
      assert false;
    }
  }

  /** Matches(r) holds at exactly one entry of rulesRightSorted: that object's position. */
  lemma MatchUnique(ix: Index, r: Rule)
    requires Valid(ix) && Search(ix.rules, r, AgainstRule(ix.store)) >= 0
    ensures ix.rules[Search(ix.rules, r, AgainstRule(ix.store))] in ix.right
    ensures var t := FirstIndex(ix.right, ix.rules[Search(ix.rules, r, AgainstRule(ix.store))]);
      && Matches(ix.store, r)(ix.right[t]) && SameRight(ix.store, r)(ix.right[t])
      && forall m :: 0 <= m < |ix.right| && Matches(ix.store, r)(ix.right[m]) ==> m == t
  {
    var pos := Search(ix.rules, r, AgainstRule(ix.store));
    RightHit(ix, r);
    var id := ix.rules[pos];
    var t := FirstIndex(ix.right, id);
    RuleOrder.RuleCompareAntisymmetric(r, At(ix.store, id));
    forall m | 0 <= m < |ix.right| && Matches(ix.store, r)(ix.right[m]) ensures m == t {
      OnlyMatch(ix, r, m);
      DistinctAt(ix.right, m, t);
    }
  }

  /** The removal scan finds the position of that object in rulesRightSorted. */
  lemma RightRemovalFinds(ix: Index, r: Rule)
    requires Valid(ix) && Search(ix.rules, r, AgainstRule(ix.store)) >= 0
    ensures ix.rules[Search(ix.rules, r, AgainstRule(ix.store))] in ix.right
    ensures RightRemoval(ix, r) == FirstIndex(ix.right, ix.rules[Search(ix.rules, r, AgainstRule(ix.store))])
  {
    RightHit(ix, r);
    MatchUnique(ix, r);
    SameRightConvex(ix, r);
    var t := FirstIndex(ix.right, ix.rules[Search(ix.rules, r, AgainstRule(ix.store))]);
    ScanFinds(ix.right, Search(ix.right, r, AgainstRight(ix.store)), SameRight(ix.store, r), Matches(ix.store, r), t);
  }

  /** The two loops of the scan, on a list where walk holds on a block and hit at one index. */
  lemma ScanFinds(xs: seq<nat>, mid: int, walk: nat -> bool, hit: nat -> bool, t: int)
    requires 0 <= mid < |xs| && 0 <= t < |xs| && walk(xs[mid]) && walk(xs[t]) && hit(xs[t])
    requires Convex(xs, walk) && forall m :: 0 <= m < |xs| && hit(xs[m]) ==> m == t
    ensures (var up := FindDown(xs, mid, walk, hit); if up >= 0 then up else FindUp(xs, mid + 1, walk, hit)) == t
  {
    if t <= mid {
      ConvexRange(xs, walk, t, mid);
      FindDownUnique(xs, mid, walk, hit, t);
    } else {
      ConvexRange(xs, walk, mid, t);
      FindDownUnique(xs, mid, walk, hit, t);
      FindUpUnique(xs, mid + 1, walk, hit, t);
    }
  }

  /** What a distinct list holds at two positions is equal only if the positions are. */
  lemma DistinctAt(xs: seq<nat>, a: int, b: int)
    requires Distinct(xs) && 0 <= a < |xs| && 0 <= b < |xs| && xs[a] == xs[b]
    ensures a == b
  {
  }

  /** A rule equal to r is in the index exactly when the search of `rules` hits, and the hit
      is its position. */
  lemma FoundExactly(ix: Index, r: Rule)
    requires Valid(ix)
    ensures Search(ix.rules, r, AgainstRule(ix.store)) >= 0 <==>
      exists k :: 0 <= k < |ix.rules| && SameRule(At(ix.store, ix.rules[k]), r)
    ensures forall k :: 0 <= k < |ix.rules| && SameRule(At(ix.store, ix.rules[k]), r) ==>
      Search(ix.rules, r, AgainstRule(ix.store)) == k
  {
    var pos := Search(ix.rules, r, AgainstRule(ix.store));
    RulesPartitioned(ix, r);
    forall k | 0 <= k < |ix.rules| && SameRule(At(ix.store, ix.rules[k]), r)
      ensures pos == k
    {
      assert AgainstRule(ix.store)(ix.rules[k], r) == 0;
      if pos != k {
        DistinctPositionsDiffer(ix, k, pos);
      }
    }
  }

  /** Removing the same object from both lists of a valid index leaves it valid. */
  lemma RemovedPairValid(ix: Index, i: int, j: int)
    requires Valid(ix) && 0 <= i < |ix.rules| && 0 <= j < |ix.right| && ix.right[j] == ix.rules[i]
    ensures Valid(Index(ix.store, Remove<nat>(ix.rules, i), Remove<nat>(ix.right, j)))
  {
    var rules' := Remove<nat>(ix.rules, i);
    RemoveDistinct(ix.rules, i);
    RemoveDistinct(ix.right, j);
    RemoveStrictlySorted(ix.rules, i, ByRule(ix.store));
    RemoveSorted(ix.right, j, ByRight(ix.store));
    forall k | 0 <= k < |rules'| ensures rules'[k] < |ix.store| && At(ix.store, rules'[k]).rhs != [] {
      RemovedAt(ix.rules, i, k);
    }
  }

  /** removeRule on a valid index: nothing changes when no rule equal to r is there; otherwise
      that rule's object leaves both lists and nothing else does, and the index stays valid. */
  lemma RemovedValid(ix: Index, r: Rule)
    requires Valid(ix)
    ensures forall k :: 0 <= k < |ix.rules| ==> ix.rules[k] in ix.right
    ensures (forall k :: 0 <= k < |ix.rules| ==> !SameRule(At(ix.store, ix.rules[k]), r)) ==> Removed(ix, r) == ix
    ensures forall k :: 0 <= k < |ix.rules| && SameRule(At(ix.store, ix.rules[k]), r) ==>
      Removed(ix, r) == Index(ix.store, Remove(ix.rules, k), Remove(ix.right, FirstIndex(ix.right, ix.rules[k])))
    ensures Valid(Removed(ix, r))
  {
    forall k | 0 <= k < |ix.rules| ensures ix.rules[k] in ix.right {
      assert ix.rules[k] in multiset(ix.rules);
    }
    FoundExactly(ix, r);
    var pos := Search(ix.rules, r, AgainstRule(ix.store));
    if pos >= 0 {
      RightRemovalFinds(ix, r);
      RemovedPairValid(ix, pos, FirstIndex(ix.right, ix.rules[pos]));
    }
  }

  // ---------------------------------------------------------------- queries

  /** The tests the query scans apply to the object behind an id. */
  function LhsIs(store: seq<Rule>, x: Symbol): nat -> bool
  {
    (id: nat) => At(store, id).lhs == x
  }

  function StartsWith(store: seq<Rule>, s: Symbol): nat -> bool
  {
    (id: nat) => At(store, id).rhs != [] && At(store, id).rhs[0] == s
  }

  function RhsIs(store: seq<Rule>, rhs: seq<Symbol>): nat -> bool
  {
    (id: nat) => At(store, id).rhs == rhs
  }

  function OfKind(store: seq<Rule>, t: RuleType): nat -> bool
  {
    (id: nat) => At(store, id).kind == Some(t)
  }

  function Always(): nat -> bool
  {
    (id: nat) => true
  }

  /** getRulesWithLeftSideX: search `rules` by RuleLeftSideComparator for the dummy rule X -> X,
      then collect the block of rules whose left-hand side is X. */
  function RulesWithLeftSide(ix: Index, x: Symbol): seq<nat>
  {
    Scan(ix.rules, Rule(x, [x], None, None), AgainstLeft(ix.store), LhsIs(ix.store, x), Always())
  }

  /** getTerminalRulesWithRightSideX: search rulesRightSorted by RuleRightSideComparator for the
      dummy rule s -> s, walk while the first right-hand symbol is s, keep the TERMINAL rules. */
  function TerminalRulesWithRightSide(ix: Index, s: Symbol): seq<nat>
  {
    Scan(ix.right, Rule(s, [s], None, None), AgainstRight(ix.store), StartsWith(ix.store, s), OfKind(ix.store, Terminal))
  }

  /** getRulesWithRightSideX: the same search, walking while the right-hand side is exactly S
      (first symbol S and length 1), keeping every rule met. */
  function RulesWithRightSide(ix: Index, s: Symbol): seq<nat>
  {
    Scan(ix.right, Rule(s, [s], None, None), AgainstRight(ix.store), RhsIs(ix.store, [s]), Always())
  }

  /** getRulesWithTwoNonTerminalsOnRightSide: search for the dummy rule A -> A B, walking while the
      right-hand side is exactly A B. */
  function RulesWithTwoOnRightSide(ix: Index, a: Symbol, b: Symbol): seq<nat>
  {
    Scan(ix.right, Rule(a, [a, b], None, None), AgainstRight(ix.store), RhsIs(ix.store, [a, b]), Always())
  }

  /** The rule types agree with the right-hand side lengths (what updateTypes establishes and
      the normal-form conversion keeps). */
  predicate Fits(r: Rule)
  {
    match r.kind
    case None => true
    case Some(t) =>
      match t
      case Terminal => |r.rhs| == 1
      case SingleNonTerminal => |r.rhs| == 1
      case TwoNonTerminal => |r.rhs| == 2
      case MultipleNonTerminal => |r.rhs| > 2
  }

  /** Every rule of `rules` satisfies p. */
  predicate RulesAll(ix: Index, p: Rule -> bool)
  {
    forall k :: 0 <= k < |ix.rules| ==> p(At(ix.store, ix.rules[k]))
  }

  predicate KindsFit(ix: Index)
  {
    RulesAll(ix, Fits)
  }

  predicate Scored(r: Rule)
  {
    r.score.Some?
  }

  /** Every rule is a ProbabilisticRule. */
  predicate AllScored(ix: Index)
  {
    RulesAll(ix, Scored)
  }

  /** In `rules`, sorted by RuleComparator, the rules with one left-hand side form one block. */
  lemma LhsConvex(ix: Index, x: Symbol)
    requires StrictlySorted(ix.rules, ByRule(ix.store))
    ensures Convex(ix.rules, LhsIs(ix.store, x))
  {
    forall i, j, k | 0 <= i < j < k < |ix.rules| && LhsIs(ix.store, x)(ix.rules[i]) && LhsIs(ix.store, x)(ix.rules[k])
      ensures LhsIs(ix.store, x)(ix.rules[j])
    {
      var a, b, c := At(ix.store, ix.rules[i]), At(ix.store, ix.rules[j]), At(ix.store, ix.rules[k]);
      assert ByRule(ix.store)(ix.rules[i], ix.rules[j]) < 0;
      assert ByRule(ix.store)(ix.rules[j], ix.rules[k]) < 0;
      RuleOrder.RuleCompareAntisymmetric(a, b);
      RuleOrder.RuleCompareAntisymmetric(b, c);
    }
  }

  /** In rulesRightSorted the rules with one right-hand side form one block. */
  lemma RhsConvex(ix: Index, rhs: seq<Symbol>)
    requires Sorted(ix.right, ByRight(ix.store))
    ensures Convex(ix.right, RhsIs(ix.store, rhs))
  {
    forall i, j, k | 0 <= i < j < k < |ix.right| && RhsIs(ix.store, rhs)(ix.right[i]) && RhsIs(ix.store, rhs)(ix.right[k])
      ensures RhsIs(ix.store, rhs)(ix.right[j])
    {
      var a, b, c := At(ix.store, ix.right[i]), At(ix.store, ix.right[j]), At(ix.store, ix.right[k]);
      assert ByRight(ix.store)(ix.right[i], ix.right[j]) <= 0;
      assert ByRight(ix.store)(ix.right[j], ix.right[k]) <= 0;
      RuleOrder.RuleCompareAntisymmetric(b, c);
    }
  }

  /** ... and so do the rules whose right-hand side starts with one symbol. */
  lemma StartConvex(ix: Index, s: Symbol)
    requires Sorted(ix.right, ByRight(ix.store))
    ensures Convex(ix.right, StartsWith(ix.store, s))
  {
    forall i, j, k | 0 <= i < j < k < |ix.right| && StartsWith(ix.store, s)(ix.right[i]) && StartsWith(ix.store, s)(ix.right[k])
      ensures StartsWith(ix.store, s)(ix.right[j])
    {
      var a, b, c := At(ix.store, ix.right[i]), At(ix.store, ix.right[j]), At(ix.store, ix.right[k]);
      assert ByRight(ix.store)(ix.right[i], ix.right[j]) <= 0;
      assert ByRight(ix.store)(ix.right[j], ix.right[k]) <= 0;
      RuleOrder.PrefixBlock(a.rhs, b.rhs, c.rhs, s);
    }
  }

  /** getRulesWithLeftSideX returns every rule X -> ... of the grammar, each once. */
  lemma RulesWithLeftSideExact(ix: Index, x: Symbol)
    requires Valid(ix)
    ensures forall id :: id in RulesWithLeftSide(ix, x) <==> id in ix.rules && At(ix.store, id).lhs == x
    ensures Distinct(RulesWithLeftSide(ix, x))
  {
    var dummy := Rule(x, [x], None, None);
    LeftPartitioned(ix, dummy);
    LhsConvex(ix, x);
    ScanExact(ix.rules, dummy, AgainstLeft(ix.store), LhsIs(ix.store, x), Always());
  }

  /** On a grammar whose rule types fit, getTerminalRulesWithRightSideX returns every TERMINAL
      rule X -> s, each once. */
  lemma TerminalRulesWithRightSideExact(ix: Index, s: Symbol)
    requires Valid(ix) && KindsFit(ix)
    ensures forall id :: id in TerminalRulesWithRightSide(ix, s) <==>
      id in ix.right && At(ix.store, id).kind == Some(Terminal) && At(ix.store, id).rhs == [s]
    ensures Distinct(TerminalRulesWithRightSide(ix, s))
  {
    var dummy := Rule(s, [s], None, None);
    RightPartitioned(ix, dummy);
    StartConvex(ix, s);
    RightMembers(ix);
    forall k | 0 <= k < |ix.right| && StartsWith(ix.store, s)(ix.right[k]) && OfKind(ix.store, Terminal)(ix.right[k])
      ensures AgainstRight(ix.store)(ix.right[k], dummy) == 0
    {
      var m :| 0 <= m < |ix.rules| && ix.rules[m] == ix.right[k];
      assert Fits(At(ix.store, ix.rules[m]));
      assert At(ix.store, ix.right[k]).rhs == [s];
    }
    ScanExact(ix.right, dummy, AgainstRight(ix.store), StartsWith(ix.store, s), OfKind(ix.store, Terminal));
  }

  /** getRulesWithRightSideX returns every rule X -> S, each once. */
  lemma RulesWithRightSideExact(ix: Index, s: Symbol)
    requires Valid(ix)
    ensures forall id :: id in RulesWithRightSide(ix, s) <==> id in ix.right && At(ix.store, id).rhs == [s]
    ensures Distinct(RulesWithRightSide(ix, s))
  {
    var dummy := Rule(s, [s], None, None);
    RightPartitioned(ix, dummy);
    RhsConvex(ix, [s]);
    ScanExact(ix.right, dummy, AgainstRight(ix.store), RhsIs(ix.store, [s]), Always());
  }

  /** getRulesWithTwoNonTerminalsOnRightSide returns every rule X -> A B, each once. */
  lemma RulesWithTwoOnRightSideExact(ix: Index, a: Symbol, b: Symbol)
    requires Valid(ix)
    ensures forall id :: id in RulesWithTwoOnRightSide(ix, a, b) <==> id in ix.right && At(ix.store, id).rhs == [a, b]
    ensures Distinct(RulesWithTwoOnRightSide(ix, a, b))
  {
    var dummy := Rule(a, [a, b], None, None);
    RightPartitioned(ix, dummy);
    RhsConvex(ix, [a, b]);
    ScanExact(ix.right, dummy, AgainstRight(ix.store), RhsIs(ix.store, [a, b]), Always());
  }

  // ---------------------------------------------------------------- the other read-only operations

  function LhsOf(store: seq<Rule>): nat -> Symbol
  {
    (id: nat) => At(store, id).lhs
  }

  /** Some rule of `rules` is TERMINAL with left-hand side x. */
  predicate TagOf(ix: Index, x: Symbol)
  {
    exists k :: 0 <= k < |ix.rules| && At(ix.store, ix.rules[k]).kind == Some(Terminal) && At(ix.store, ix.rules[k]).lhs == x
  }

  /** Some rule of `rules` has left-hand side x. */
  predicate LeftSideOf(ix: Index, x: Symbol)
  {
    exists k :: 0 <= k < |ix.rules| && At(ix.store, ix.rules[k]).lhs == x
  }

  /** partOfSpeechTags: the left-hand sides of the TERMINAL rules, in order of first appearance
      in `rules`, each once. */
  function PartOfSpeechTags(ix: Index): (tags: seq<Symbol>)
    ensures Distinct(tags)
    ensures forall x :: x in tags <==> TagOf(ix, x)
  {
    var p := Project(ix.rules, OfKind(ix.store, Terminal), LhsOf(ix.store));
    forall x ensures x in p <==> TagOf(ix, x) {
      if x in p {
        var id :| id in ix.rules && OfKind(ix.store, Terminal)(id) && LhsOf(ix.store)(id) == x;
        var k :| 0 <= k < |ix.rules| && ix.rules[k] == id;
      }
      if TagOf(ix, x) {
        var k :| 0 <= k < |ix.rules| && At(ix.store, ix.rules[k]).kind == Some(Terminal) && At(ix.store, ix.rules[k]).lhs == x;
        assert ix.rules[k] in ix.rules && OfKind(ix.store, Terminal)(ix.rules[k]) && LhsOf(ix.store)(ix.rules[k]) == x;
      }
    }
    Dedup(p)
  }

  /** getLeftSide: every left-hand side of the grammar, in order of first appearance, each once. */
  function LeftSides(ix: Index): (xs: seq<Symbol>)
    ensures Distinct(xs)
    ensures forall x :: x in xs <==> LeftSideOf(ix, x)
  {
    var p := Project(ix.rules, Always(), LhsOf(ix.store));
    forall x ensures x in p <==> LeftSideOf(ix, x) {
      if x in p {
        var id :| id in ix.rules && LhsOf(ix.store)(id) == x;
        var k :| 0 <= k < |ix.rules| && ix.rules[k] == id;
      }
      if LeftSideOf(ix, x) {
        var k :| 0 <= k < |ix.rules| && At(ix.store, ix.rules[k]).lhs == x;
        assert ix.rules[k] in ix.rules && Always()(ix.rules[k]) && LhsOf(ix.store)(ix.rules[k]) == x;
      }
    }
    Dedup(p)
  }

  /** searchRule: the object of `rules` equal to r under RuleComparator, or null (None). */
  function SearchRule(ix: Index, r: Rule): (found: Option<nat>)
    ensures found.Some? ==> found.value in ix.rules && SameRule(At(ix.store, found.value), r)
  {
    var pos := Search(ix.rules, r, AgainstRule(ix.store));
    if pos >= 0 then Some(ix.rules[pos]) else None
  }

  /** On a valid index searchRule misses exactly when no rule equal to r is there. */
  lemma SearchRuleExact(ix: Index, r: Rule)
    requires Valid(ix)
    ensures SearchRule(ix, r).None? <==> forall k :: 0 <= k < |ix.rules| ==> !SameRule(At(ix.store, ix.rules[k]), r)
    ensures forall k :: 0 <= k < |ix.rules| && SameRule(At(ix.store, ix.rules[k]), r) ==> SearchRule(ix, r) == Some(ix.rules[k])
  {
    FoundExactly(ix, r);
  }

  /** size: the number of rules; in a consistent index both lists have that length. */
  function Size(ix: Index): (n: nat)
    ensures n == |Contents(ix)|
    ensures Consistent(ix) ==> n == |ix.right|
  {
    assert Consistent(ix) ==> |multiset(ix.rules)| == |multiset(ix.right)|;
    |ix.rules|
  }

  // ---------------------------------------------------------------- the list operations as code

  /** addRule with Collections.binarySearch and ArrayList.add. */
  method AddRule(ix: Index, r: Rule) returns (ix': Index)
    ensures ix' == Added(ix, r)
  {
    var pos := BinarySearch(ix.rules, r, AgainstRule(ix.store));
    if pos >= 0 {
      return ix;
    }
    var pos2 := BinarySearch(ix.right, r, AgainstRight(ix.store));
    var q;
    if pos2 >= 0 {
      q := pos2;
    } else {
      q := -pos2 - 1;
    }
    AddedIs(ix, r, pos, q);
    return Index(ix.store + [r], Insert<nat>(ix.rules, -pos - 1, |ix.store|), Insert<nat>(ix.right, q, |ix.store|));
  }

  lemma AddedIs(ix: Index, r: Rule, pos: int, q: int)
    requires pos == Search(ix.rules, r, AgainstRule(ix.store)) < 0
    requires var pos2 := Search(ix.right, r, AgainstRight(ix.store)); q == if pos2 >= 0 then pos2 else -pos2 - 1
    ensures Added(ix, r) == Index(ix.store + [r], Insert<nat>(ix.rules, -pos - 1, |ix.store|), Insert<nat>(ix.right, q, |ix.store|))
  {
    assert RuleSlot(ix, r) == -pos - 1 && RightSlot(ix, r) == q;
  }

  /** removeRule: the search of `rules`, then the scan of rulesRightSorted upwards from the hit
      and downwards from just below it, each stopping where the right-hand side changes. */
  method RemoveRule(ix: Index, r: Rule) returns (ix': Index)
    requires Valid(ix)
    ensures ix' == Removed(ix, r)
  {
    var pos := BinarySearch(ix.rules, r, AgainstRule(ix.store));
    if pos < 0 {
      return ix;
    }
    var rules := Remove<nat>(ix.rules, pos);
    var pos2 := BinarySearch(ix.right, r, AgainstRight(ix.store));
    RightHit(ix, r);
    var up := FindDownLoop(ix.right, pos2, SameRight(ix.store, r), Matches(ix.store, r));
    var j := up;
    if up < 0 {
      j := FindUpLoop(ix.right, pos2 + 1, SameRight(ix.store, r), Matches(ix.store, r));
    }
    RightRemovalIs(ix, r, pos2, up, j);
    RemovedIs(ix, r, pos, j);
    if j >= 0 {
      return Index(ix.store, rules, Remove<nat>(ix.right, j));
    }
    return Index(ix.store, rules, ix.right);
  }

  /** The scan of removeRule spelled out from the hit pos2 of the search of rulesRightSorted. */
  lemma RightRemovalIs(ix: Index, r: Rule, pos2: int, up: int, j: int)
    requires Valid(ix) && Search(ix.rules, r, AgainstRule(ix.store)) >= 0
    requires pos2 == Search(ix.right, r, AgainstRight(ix.store)) >= 0
    requires up == FindDown(ix.right, pos2, SameRight(ix.store, r), Matches(ix.store, r))
    requires j == if up >= 0 then up else FindUp(ix.right, pos2 + 1, SameRight(ix.store, r), Matches(ix.store, r))
    ensures RightRemoval(ix, r) == j
  {
  }

  /** Removed spelled out once the search of `rules` has hit at pos and the scan has found j. */
  lemma RemovedIs(ix: Index, r: Rule, pos: int, j: int)
    requires Valid(ix) && pos == Search(ix.rules, r, AgainstRule(ix.store)) >= 0
    requires j == RightRemoval(ix, r)
    ensures Removed(ix, r) == Index(ix.store, Remove<nat>(ix.rules, pos), if j >= 0 then Remove<nat>(ix.right, j) else ix.right)
  {
    assert RuleHit(ix, r) == pos;
  }

  // ---------------------------------------------------------------- what addRule and removeRule keep

  /** The store only grows: old ids keep naming the same objects. */
  predicate StoreGrows(a: seq<Rule>, b: seq<Rule>)
  {
    |a| <= |b| && b[..|a|] == a
  }

  lemma StoreGrowsAt(a: seq<Rule>, b: seq<Rule>, id: nat)
    requires StoreGrows(a, b) && id < |a|
    ensures At(b, id) == At(a, id)
  {
    assert b[..|a|][id] == b[id];
  }

  lemma StoreGrowsTransitive(a: seq<Rule>, b: seq<Rule>, c: seq<Rule>)
    requires StoreGrows(a, b) && StoreGrows(b, c)
    ensures StoreGrows(a, c)
  {
    assert c[..|a|] == c[..|b|][..|a|];
  }

  /** addRule keeps every property of rules that the new rule has, keeps the lists consistent
      whatever their order, and only ever adds r. */
  lemma AddedKeeps(ix: Index, r: Rule, p: Rule -> bool)
    requires Consistent(ix)
    ensures Consistent(Added(ix, r))
    ensures StoreGrows(ix.store, Added(ix, r).store)
    ensures RulesAll(ix, p) && p(r) ==> RulesAll(Added(ix, r), p)
    ensures forall id :: id in Added(ix, r).rules ==> id in ix.rules || At(Added(ix, r).store, id) == r
    ensures forall id :: id in ix.rules ==> id in Added(ix, r).rules
  {
    var ix' := Added(ix, r);
    if ix' != ix {
      var id: nat := |ix.store|;
      var ip :| 0 <= ip <= |ix.rules| && ix'.rules == Insert<nat>(ix.rules, ip, id);
      var q :| 0 <= q <= |ix.right| && ix'.right == Insert<nat>(ix.right, q, id);
      InsertedConsistent(ix, r, ip, q);
      InsertedKeeps(ix, r, ip, p);
      forall id | id in ix.rules ensures id in ix'.rules {
        assert id in multiset(ix.rules);
        assert id in multiset(ix'.rules);
      }
    }
  }

  lemma InsertedKeeps(ix: Index, r: Rule, ip: int, p: Rule -> bool)
    requires Consistent(ix) && 0 <= ip <= |ix.rules|
    ensures StoreGrows(ix.store, ix.store + [r])
    ensures var ix' := Index(ix.store + [r], Insert<nat>(ix.rules, ip, |ix.store|), []);
      && (RulesAll(ix, p) && p(r) ==> RulesAll(ix', p))
      && forall id :: id in ix'.rules ==> id in ix.rules || At(ix'.store, id) == r
  {
    var id: nat := |ix.store|;
    var ix' := Index(ix.store + [r], Insert<nat>(ix.rules, ip, id), []);
    StoreExtended(ix.store, r, ix.rules);
    assert (ix.store + [r])[..|ix.store|] == ix.store;
    forall k | 0 <= k < |ix'.rules|
      ensures (ix'.rules[k] in ix.rules && At(ix'.store, ix'.rules[k]) == At(ix.store, ix'.rules[k])) || At(ix'.store, ix'.rules[k]) == r
    {
      InsertedAt(ix.rules, ip, id, k);
    }
  }

  /** removeRule keeps every property of rules and only ever takes objects away. */
  lemma RemovedKeeps(ix: Index, r: Rule, p: Rule -> bool)
    requires Valid(ix)
    ensures Removed(ix, r).store == ix.store
    ensures forall id :: id in Removed(ix, r).rules ==> id in ix.rules
    ensures RulesAll(ix, p) ==> RulesAll(Removed(ix, r), p)
  {
    var pos := Search(ix.rules, r, AgainstRule(ix.store));
    if pos >= 0 {
      var rules' := Removed(ix, r).rules;
      assert rules' == Remove<nat>(ix.rules, pos);
      forall k | 0 <= k < |rules'| ensures rules'[k] in ix.rules {
        RemovedAt(ix.rules, pos, k);
      }
    }
  }

  /** Removing the rule of an object of `rules` takes exactly that object out of `rules`. */
  lemma RemovedObject(ix: Index, id: nat)
    requires Valid(ix) && id in ix.rules
    ensures forall x :: x in Removed(ix, At(ix.store, id)).rules <==> x in ix.rules && x != id
  {
    var k :| 0 <= k < |ix.rules| && ix.rules[k] == id;
    FoundExactly(ix, At(ix.store, id));
    assert Search(ix.rules, At(ix.store, id), AgainstRule(ix.store)) == k;
    assert Removed(ix, At(ix.store, id)).rules == Remove<nat>(ix.rules, k);
    RemoveMembers(ix.rules, k);
  }

  /** What a distinct list holds after the removal at k: everything but xs[k]. */
  lemma RemoveMembers(xs: seq<nat>, k: int)
    requires Distinct(xs) && 0 <= k < |xs|
    ensures forall x :: x in Remove<nat>(xs, k) <==> x in xs && x != xs[k]
  {
    var ys := Remove<nat>(xs, k);
    forall x ensures x in ys <==> x in xs && x != xs[k] {
      if x in ys {
        var m :| 0 <= m < |ys| && ys[m] == x;
        RemovedAt(xs, k, m);
      }
      if x in xs && x != xs[k] {
        var m :| 0 <= m < |xs| && xs[m] == x;
        if m < k {
          RemovedAt(xs, k, m);
        } else {
          RemovedAt(xs, k, m - 1);
        }
      }
    }
  }

  // ---------------------------------------------------------------- changes that keep left and right sides

  /** Two stores whose objects agree on their left- and right-hand sides. */
  predicate SameShapes(a: seq<Rule>, b: seq<Rule>)
  {
    |a| == |b| && forall i :: 0 <= i < |a| ==> a[i].lhs == b[i].lhs && a[i].rhs == b[i].rhs
  }

  /** Changing only types, counts or probabilities of objects cannot unsort either list: both
      comparators read the two sides only. */
  lemma SameShapesValid(ix: Index, store: seq<Rule>)
    requires SameShapes(ix.store, store)
    ensures Consistent(ix) ==> Consistent(Index(store, ix.rules, ix.right))
    ensures Valid(ix) ==> Valid(Index(store, ix.rules, ix.right))
  {
    var ix' := Index(store, ix.rules, ix.right);
    if Valid(ix) {
      forall i, j | 0 <= i < j < |ix.rules| ensures ByRule(store)(ix.rules[i], ix.rules[j]) < 0 {
        assert ByRule(ix.store)(ix.rules[i], ix.rules[j]) < 0;
      }
      forall i, j | 0 <= i < j < |ix.right| ensures ByRight(store)(ix.right[i], ix.right[j]) <= 0 {
        assert ByRight(ix.store)(ix.right[i], ix.right[j]) <= 0;
      }
      forall k | 0 <= k < |ix.rules| ensures At(store, ix.rules[k]).rhs != [] {
        assert At(ix.store, ix.rules[k]).rhs != [];
      }
    }
  }

  /** A property of every rule holds of each object of `rules`. */
  lemma RulesAllAt(ix: Index, p: Rule -> bool, id: nat)
    requires RulesAll(ix, p) && id in ix.rules
    ensures p(At(ix.store, id))
  {
    var k :| 0 <= k < |ix.rules| && ix.rules[k] == id;
  }

  /** Objects with the same two sides compare alike, so the searches and scans over a store
      with the same shapes give the same answers. */
  lemma SameShapesAt(a: seq<Rule>, b: seq<Rule>, id: nat)
    requires SameShapes(a, b)
    ensures At(a, id).lhs == At(b, id).lhs && At(a, id).rhs == At(b, id).rhs
  {
  }

  /** searchRule and getRulesWithLeftSideX read only the two sides of the rules: changing
      types, counts or probabilities changes none of their answers. */
  lemma SameShapesQueries(ix: Index, store: seq<Rule>)
    requires SameShapes(ix.store, store)
    ensures forall r :: SearchRule(Index(store, ix.rules, ix.right), r) == SearchRule(ix, r)
    ensures forall x :: RulesWithLeftSide(Index(store, ix.rules, ix.right), x) == RulesWithLeftSide(ix, x)
  {
    forall r ensures SearchRule(Index(store, ix.rules, ix.right), r) == SearchRule(ix, r) {
      forall k | 0 <= k < |ix.rules|
        ensures AgainstRule(ix.store)(ix.rules[k], r) == AgainstRule(store)(ix.rules[k], r)
      {
        SameShapesAt(ix.store, store, ix.rules[k]);
      }
      SearchSame(ix.rules, r, AgainstRule(ix.store), AgainstRule(store));
    }
    forall x ensures RulesWithLeftSide(Index(store, ix.rules, ix.right), x) == RulesWithLeftSide(ix, x) {
      var key := Rule(x, [x], None, None);
      forall k | 0 <= k < |ix.rules|
        ensures AgainstLeft(ix.store)(ix.rules[k], key) == AgainstLeft(store)(ix.rules[k], key)
        ensures LhsIs(ix.store, x)(ix.rules[k]) == LhsIs(store, x)(ix.rules[k])
      {
        SameShapesAt(ix.store, store, ix.rules[k]);
      }
      ScanSame(ix.rules, key, AgainstLeft(ix.store), AgainstLeft(store), LhsIs(ix.store, x), LhsIs(store, x), Always(), Always());
    }
  }
}
