/** The last step of ProbabilisticContextFreeGrammar's treebank constructor: for every
    left-hand side, the counts of its rules are summed, and each rule's probability becomes its
    count divided by that total, so that the rules of one left-hand side form a distribution. */
module Normalization {
  import opened Wrappers
  import opened Rules
  import opened SortedLists
  import opened RuleIndex
  import opened Treebank

  // ---------------------------------------------------------------- sums

  /** The counts of the objects ids, added up. */
  function SumCounts(store: seq<Rule>, ids: seq<nat>): nat
  {
    if ids == [] then 0 else SumCounts(store, ids[..|ids| - 1]) + CountOf(At(store, ids[|ids| - 1]))
  }

  /** The probability of an object; 0 for a plain Rule. */
  function Probability(r: Rule): real
  {
    if r.score.Some? then r.score.value.probability else 0.0
  }

  /** The probabilities of the objects ids, added up. */
  function SumProbabilities(store: seq<Rule>, ids: seq<nat>): real
  {
    if ids == [] then 0.0 else SumProbabilities(store, ids[..|ids| - 1]) + Probability(At(store, ids[|ids| - 1]))
  }

  /** The total the constructor computes for x: the counts of getRulesWithLeftSideX(x). */
  function Total(ix: Index, x: Symbol): nat
  {
    SumCounts(ix.store, RulesWithLeftSide(ix, x))
  }

  /** normalizeProbability(total) on one object.  The guard never fails on a rule of a grammar
      whose rules have all been counted (TotalPositive). */
  function Share(r: Rule, total: nat): Rule
  {
    if r.score.Some? && total > 0 then Normalized(r, total) else r
  }

  /** normalizeProbability makes probability times total equal to the count. */
  lemma ShareScales(r: Rule, t: nat)
    requires r.score.Some? && t > 0
    ensures Probability(Share(r, t)) * t as real == CountOf(r) as real
  {
  }

  /** A count between 1 and the total gives a probability in (0, 1]. */
  lemma ShareBounds(r: Rule, t: nat)
    requires r.score.Some? && 1 <= CountOf(r) <= t
    ensures 0.0 < Probability(Share(r, t)) <= 1.0
  {
    assert Probability(Share(r, t)) == CountOf(r) as real / t as real;
  }

  lemma {:induction false} SumCountsSame(a: seq<Rule>, b: seq<Rule>, ids: seq<nat>)
    requires forall k :: 0 <= k < |ids| ==> CountOf(At(a, ids[k])) == CountOf(At(b, ids[k]))
    ensures SumCounts(a, ids) == SumCounts(b, ids)
    decreases |ids|
  {
    if ids != [] {
      var init := ids[..|ids| - 1];
      assert forall k :: 0 <= k < |init| ==> init[k] == ids[k];
      SumCountsSame(a, b, init);
    }
  }

  /** Each count is at most the sum it is part of. */
  lemma {:induction false} SumCountsAtLeast(store: seq<Rule>, ids: seq<nat>, k: int)
    requires 0 <= k < |ids|
    ensures CountOf(At(store, ids[k])) <= SumCounts(store, ids)
    decreases |ids|
  {
    if k < |ids| - 1 {
      var init := ids[..|ids| - 1];
      assert init[k] == ids[k];
      SumCountsAtLeast(store, init, k);
    }
  }

  /** Normalised by one total t, probabilities sum to the sum of the counts over t. */
  lemma {:induction false} SumScaled(store: seq<Rule>, store': seq<Rule>, ids: seq<nat>, t: nat)
    requires t > 0
    requires forall k :: 0 <= k < |ids| ==>
      At(store, ids[k]).score.Some? && At(store', ids[k]) == Share(At(store, ids[k]), t)
    ensures SumProbabilities(store', ids) * t as real == SumCounts(store, ids) as real
    decreases |ids|
  {
    if ids != [] {
      var init := ids[..|ids| - 1];
      assert forall k :: 0 <= k < |init| ==> init[k] == ids[k];
      SumScaled(store, store', init, t);
      var last := ids[|ids| - 1];
      ShareScales(At(store, last), t);
      var p := Probability(At(store', last));
      assert (SumProbabilities(store', init) + p) * t as real == SumProbabilities(store', init) * t as real + p * t as real;
    }
  }

  // ---------------------------------------------------------------- what normalising leaves alone

  /** The same two sides, count and kind of object at every position. */
  predicate SameCounts(a: seq<Rule>, b: seq<Rule>)
  {
    && SameShapes(a, b)
    && forall i :: 0 <= i < |a| ==> CountOf(a[i]) == CountOf(b[i]) && a[i].score.Some? == b[i].score.Some?
  }

  /** Rewriting probabilities keeps the grammar valid and its rules counted, and changes
      neither the candidates nor the total of any left-hand side. */
  lemma SameCountsKeeps(ix: Index, ix': Index)
    requires Valid(ix) && RulesAll(ix, Positive)
    requires ix'.rules == ix.rules && ix'.right == ix.right && SameCounts(ix.store, ix'.store)
    ensures Valid(ix') && RulesAll(ix', Positive)
    ensures forall x :: RulesWithLeftSide(ix', x) == RulesWithLeftSide(ix, x) && Total(ix', x) == Total(ix, x)
  {
    assert ix' == Index(ix'.store, ix.rules, ix.right);
    SameShapesValid(ix, ix'.store);
    SameShapesQueries(ix, ix'.store);
    forall k | 0 <= k < |ix'.rules| ensures Positive(At(ix'.store, ix'.rules[k])) {
      assert Positive(At(ix.store, ix.rules[k]));
    }
    forall x ensures Total(ix', x) == Total(ix, x) {
      var ids := RulesWithLeftSide(ix, x);
      SumCountsSame(ix.store, ix'.store, ids);
    }
  }

  /** On a grammar of counted rules, the total of the left side of a rule is at least its count
      and at least 1. */
  lemma TotalPositive(ix: Index, id: nat)
    requires Valid(ix) && RulesAll(ix, Positive) && id in ix.rules
    ensures 1 <= CountOf(At(ix.store, id)) <= Total(ix, At(ix.store, id).lhs)
  {
    var x := At(ix.store, id).lhs;
    RulesWithLeftSideExact(ix, x);
    var ids := RulesWithLeftSide(ix, x);
    var k :| 0 <= k < |ids| && ids[k] == id;
    SumCountsAtLeast(ix.store, ids, k);
    RulesAllAt(ix, Positive, id);
  }

  lemma LeftSideTotal(ix: Index, x: Symbol)
    requires Valid(ix) && RulesAll(ix, Positive) && LeftSideOf(ix, x)
    ensures Total(ix, x) >= 1
  {
    var k :| 0 <= k < |ix.rules| && At(ix.store, ix.rules[k]).lhs == x;
    TotalPositive(ix, ix.rules[k]);
  }

  // ---------------------------------------------------------------- the loops

  /** ix' is ix with every object of `rules` whose left side is in done normalised by the total
      of that left side, and nothing else changed. */
  predicate NormalizedOn(ix: Index, ix': Index, done: seq<Symbol>)
  {
    && ix'.rules == ix.rules && ix'.right == ix.right && |ix'.store| == |ix.store|
    && forall id :: 0 <= id < |ix.store| ==>
      ix'.store[id] == if id in ix.rules && ix.store[id].lhs in done then Share(ix.store[id], Total(ix, ix.store[id].lhs))
        else ix.store[id]
  }

  /** ix' is ix with every object of `rules` normalised by the total of its left side. */
  predicate NormalizedFrom(ix: Index, ix': Index)
  {
    && ix'.rules == ix.rules && ix'.right == ix.right && |ix'.store| == |ix.store|
    && forall id :: 0 <= id < |ix.store| ==>
      ix'.store[id] == if id in ix.rules then Share(ix.store[id], Total(ix, ix.store[id].lhs)) else ix.store[id]
  }

  lemma NormalizedOnSame(ix: Index, ix': Index, done: seq<Symbol>)
    requires NormalizedOn(ix, ix', done)
    ensures SameCounts(ix.store, ix'.store)
  {
    forall i | 0 <= i < |ix.store|
      ensures ix.store[i].lhs == ix'.store[i].lhs && ix.store[i].rhs == ix'.store[i].rhs
      ensures CountOf(ix.store[i]) == CountOf(ix'.store[i]) && ix.store[i].score.Some? == ix'.store[i].score.Some?
    {
    }
  }

  lemma NormalizedFromSame(ix: Index, ix': Index)
    requires NormalizedFrom(ix, ix')
    ensures SameCounts(ix.store, ix'.store)
  {
    forall i | 0 <= i < |ix.store|
      ensures ix.store[i].lhs == ix'.store[i].lhs && ix.store[i].rhs == ix'.store[i].rhs
      ensures CountOf(ix.store[i]) == CountOf(ix'.store[i]) && ix.store[i].score.Some? == ix'.store[i].score.Some?
    {
    }
  }

  /** The first inner loop of the constructor: total += getCount() over the candidates. */
  method SumCandidates(ix: Index, candidates: seq<nat>) returns (total: nat)
    ensures total == SumCounts(ix.store, candidates)
  {
    total := 0;
    for c := 0 to |candidates|
      invariant total == SumCounts(ix.store, candidates[..c])
    {
      assert candidates[..c + 1][..c] == candidates[..c];
      total := total + CountOf(At(ix.store, candidates[c]));
    }
    assert candidates[..|candidates|] == candidates;
  }

  /** The second inner loop: normalizeProbability(total) on every candidate, nothing else. */
  method NormalizeCandidates(ix: Index, candidates: seq<nat>, total: nat) returns (ix': Index)
    requires total > 0
    ensures ix'.rules == ix.rules && ix'.right == ix.right && |ix'.store| == |ix.store|
    ensures forall id :: 0 <= id < |ix.store| ==>
      ix'.store[id] == if id in candidates then Share(ix.store[id], total) else ix.store[id]
  {
    ix' := ix;
    for c := 0 to |candidates|
      invariant ix'.rules == ix.rules && ix'.right == ix.right && |ix'.store| == |ix.store|
      invariant forall id :: 0 <= id < |ix.store| ==>
        ix'.store[id] == if id in candidates[..c] then Share(ix.store[id], total) else ix.store[id]
    {
      var id := candidates[c];
      if id < |ix'.store| && ix'.store[id].score.Some? {
        ix' := ix'.(store := ix'.store[id := Normalized(ix'.store[id], total)]);
      }
      assert forall j :: j in candidates[..c + 1] <==> j in candidates[..c] || j == id;
    }
    assert candidates[..|candidates|] == candidates;
  }

  /** In a list without repeats, an element is not in the prefix before it. */
  lemma PrefixGrows(xs: seq<Symbol>, i: int)
    requires Distinct(xs) && 0 <= i < |xs|
    ensures xs[i] !in xs[..i] && xs[..i + 1] == xs[..i] + [xs[i]]
  {
  }

  /** One pass of the outer loop: the rules of left side x are normalised. */
  lemma NormalizeStep(ix: Index, ix1: Index, done: seq<Symbol>, x: Symbol, ix2: Index)
    requires Valid(ix) && RulesAll(ix, Positive) && NormalizedOn(ix, ix1, done) && x !in done
    requires ix2.rules == ix1.rules && ix2.right == ix1.right && |ix2.store| == |ix1.store|
    requires forall id :: 0 <= id < |ix1.store| ==>
      ix2.store[id] == if id in RulesWithLeftSide(ix1, x) then Share(ix1.store[id], Total(ix1, x)) else ix1.store[id]
    ensures NormalizedOn(ix, ix2, done + [x])
  {
    NormalizedOnSame(ix, ix1, done);
    SameCountsKeeps(ix, ix1);
    RulesWithLeftSideExact(ix, x);
    var candidates := RulesWithLeftSide(ix, x);
    var t := Total(ix, x);
    forall id | 0 <= id < |ix.store|
      ensures ix2.store[id] == if id in ix.rules && ix.store[id].lhs in done + [x]
        then Share(ix.store[id], Total(ix, ix.store[id].lhs)) else ix.store[id]
    {
      assert At(ix.store, id) == ix.store[id];
      NormalizeStepAt(ix.store[id], ix1.store[id], ix2.store[id], id in ix.rules, id in candidates, done, x,
        Total(ix, ix.store[id].lhs), t);
    }
  }

  /** The step of NormalizeStep at one object r, which becomes r1 and then r2. */
  lemma NormalizeStepAt(r: Rule, r1: Rule, r2: Rule, inRules: bool, candidate: bool, done: seq<Symbol>, x: Symbol,
                        own: nat, t: nat)
    requires x !in done && (candidate <==> inRules && r.lhs == x) && (r.lhs == x ==> own == t)
    requires r1 == if inRules && r.lhs in done then Share(r, own) else r
    requires r2 == if candidate then Share(r1, t) else r1
    ensures r2 == if inRules && r.lhs in done + [x] then Share(r, own) else r
  {
  }

  /** Once every left side is done, every rule is. */
  lemma NormalizedAll(ix: Index, ix': Index)
    requires NormalizedOn(ix, ix', LeftSides(ix))
    ensures NormalizedFrom(ix, ix')
  {
    forall id | 0 <= id < |ix.store| && id in ix.rules ensures ix.store[id].lhs in LeftSides(ix) {
      var k :| 0 <= k < |ix.rules| && ix.rules[k] == id;
      assert At(ix.store, ix.rules[k]).lhs == ix.store[id].lhs;
    }
  }

  /** The normalisation loop of ProbabilisticContextFreeGrammar's treebank constructor: for each
      left side of getLeftSide, sum the counts of getRulesWithLeftSideX and normalise each of
      those rules by the sum. */
  method NormalizeProbabilities(ix: Index) returns (ix': Index)
    requires Valid(ix) && RulesAll(ix, Positive)
    ensures NormalizedFrom(ix, ix')
  {
    var variables := LeftSides(ix);
    ix' := ix;
    for v := 0 to |variables|
      invariant NormalizedOn(ix, ix', variables[..v])
    {
      var variable := variables[v];
      NormalizedOnSame(ix, ix', variables[..v]);
      SameCountsKeeps(ix, ix');
      var candidates := RulesWithLeftSide(ix', variable);
      var total := SumCandidates(ix', candidates);
      LeftSideTotal(ix, variable);
      ghost var before := ix';
      ix' := NormalizeCandidates(ix', candidates, total);
      PrefixGrows(variables, v);
      NormalizeStep(ix, before, variables[..v], variable, ix');
    }
    assert variables[..|variables|] == variables;
    NormalizedAll(ix, ix');
  }

  // ---------------------------------------------------------------- what the constructor promises

  /** Normalising keeps the grammar valid and every rule's count, and changes no answer of
      searchRule or getRulesWithLeftSideX. */
  lemma NormalizedKeeps(ix: Index, ix': Index)
    requires Valid(ix) && RulesAll(ix, Positive) && NormalizedFrom(ix, ix')
    ensures Valid(ix') && RulesAll(ix', Positive) && SameCounts(ix.store, ix'.store)
    ensures forall x :: RulesWithLeftSide(ix', x) == RulesWithLeftSide(ix, x)
    ensures forall r :: SearchRule(ix', r) == SearchRule(ix, r)
  {
    NormalizedFromSame(ix, ix');
    SameCountsKeeps(ix, ix');
    SameShapesQueries(ix, ix'.store);
    assert ix' == Index(ix'.store, ix.rules, ix.right);
  }

  /** Every rule's object after normalisation is its object before, normalised by the total
      of its left side, and that total is at least its count. */
  lemma NormalizedShare(ix: Index, ix': Index, id: nat)
    requires Valid(ix) && RulesAll(ix, Positive) && NormalizedFrom(ix, ix') && id in ix'.rules
    ensures At(ix'.store, id) == Share(At(ix.store, id), Total(ix, At(ix.store, id).lhs))
    ensures At(ix.store, id).score.Some? && 1 <= CountOf(At(ix.store, id)) <= Total(ix, At(ix.store, id).lhs)
  {
    TotalPositive(ix, id);
    RulesAllAt(ix, Positive, id);
    var k :| 0 <= k < |ix.rules| && ix.rules[k] == id;
    assert id < |ix.store|;
  }

  /** Each probability lies in (0, 1]. */
  lemma ProbabilityBounds(ix: Index, ix': Index, id: nat)
    requires Valid(ix) && RulesAll(ix, Positive) && NormalizedFrom(ix, ix') && id in ix'.rules
    ensures 0.0 < Probability(At(ix'.store, id)) <= 1.0
  {
    NormalizedShare(ix, ix', id);
    ShareBounds(At(ix.store, id), Total(ix, At(ix.store, id).lhs));
  }

  lemma UnitFromScaled(s: real, t: real, c: real)
    requires t > 0.0 && s * t == c && c == t
    ensures s == 1.0
  {
    assert (s - 1.0) * t == 0.0;
  }

  /** Objects normalised by the sum of their own counts have probabilities summing to 1. */
  lemma SharesSumToOne(store: seq<Rule>, store': seq<Rule>, ids: seq<nat>, t: nat)
    requires t == SumCounts(store, ids) && t > 0
    requires forall k :: 0 <= k < |ids| ==>
      At(store, ids[k]).score.Some? && At(store', ids[k]) == Share(At(store, ids[k]), t)
    ensures SumProbabilities(store', ids) == 1.0
  {
    SumScaled(store, store', ids, t);
    UnitFromScaled(SumProbabilities(store', ids), t as real, SumCounts(store, ids) as real);
  }

  /** The probabilities of the rules of every left-hand side sum to 1. */
  lemma SumsToOne(ix: Index, ix': Index, x: Symbol)
    requires Valid(ix) && RulesAll(ix, Positive) && NormalizedFrom(ix, ix') && LeftSideOf(ix, x)
    ensures SumProbabilities(ix'.store, RulesWithLeftSide(ix', x)) == 1.0
  {
    NormalizedKeeps(ix, ix');
    LeftSideTotal(ix, x);
    RulesWithLeftSideExact(ix, x);
    var ids := RulesWithLeftSide(ix, x);
    var t := Total(ix, x);
    forall k | 0 <= k < |ids| ensures At(ix.store, ids[k]).score.Some? && At(ix'.store, ids[k]) == Share(At(ix.store, ids[k]), t) {
      NormalizedShare(ix, ix', ids[k]);
    }
    SharesSumToOne(ix.store, ix'.store, ids, t);
  }
}
