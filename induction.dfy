/** What the treebank constructors of ContextFreeGrammar and ProbabilisticContextFreeGrammar
    build: the dictionary of the treebank, its trees with rare words and numerals replaced, the
    rules read off those trees, and for the probabilistic grammar their counts and
    probabilities, typed by updateTypes at the end. */
module Induction {
  import opened Wrappers
  import opened Rules
  import opened SortedLists
  import opened RuleIndex
  import opened ParseTrees
  import opened ExceptionalWords
  import opened Treebank
  import opened Normalization
  import opened NormalForm

  /** A tree whose leaves all carry a word and whose rules addRules can read. */
  predicate Usable(t: ParseNode)
  {
    Readable(t) && LeavesNamed(t)
  }

  // ---------------------------------------------------------------- relabelling leaves keeps the inner nodes

  lemma {:induction false} ReplaceKeepsInner(n: ParseNode, ls: seq<Option<Symbol>>)
    requires |ls| == |Yield(n)| && InnerNamed(n)
    ensures InnerNamed(ReplaceLeaves(n, ls))
    ensures (ReplaceLeaves(n, ls).children != []) == (n.children != [])
    decreases n, 1
  {
    if n.children != [] {
      ReplaceChildrenKeepInner(n.children, ls);
    }
  }

  lemma {:induction false} ReplaceChildrenKeepInner(ns: seq<ParseNode>, ls: seq<Option<Symbol>>)
    requires |ls| == |YieldOf(ns)| && forall k :: 0 <= k < |ns| ==> InnerNamed(ns[k])
    ensures forall k :: 0 <= k < |ns| ==> InnerNamed(ReplaceChildren(ns, ls)[k])
    decreases ns, 0
  {
    if ns != [] {
      var k := |Yield(ns[0])|;
      var ms := ReplaceChildren(ns, ls);
      assert ms[0] == ReplaceLeaves(ns[0], ls[..k]) && ms[1..] == ReplaceChildren(ns[1..], ls[k..]);
      ReplaceKeepsInner(ns[0], ls[..k]);
      assert forall j :: 0 <= j < |ns[1..]| ==> ns[1..][j] == ns[j + 1];
      ReplaceChildrenKeepInner(ns[1..], ls[k..]);
      forall j | 0 <= j < |ns| ensures InnerNamed(ms[j]) {
        if j > 0 {
          assert ms[j] == ms[1..][j - 1];
        }
      }
    }
  }

  /** Normalising the words of a tree leaves it readable. */
  lemma NormalizedTreeUsable(t: ParseNode, dictionary: map<string, nat>, minCount: int)
    requires Usable(t)
    ensures Usable(NormalizedTree(t, dictionary, minCount))
  {
    ReplaceKeepsInner(t, Named(NormalizedWords(Words(t), dictionary, minCount)));
  }

  lemma NormalizedTreesUsable(trees: seq<ParseNode>, dictionary: map<string, nat>, minCount: int)
    requires forall k :: 0 <= k < |trees| ==> Usable(trees[k])
    ensures forall k :: 0 <= k < |trees| ==> Usable(trees[k]) && Usable(NormalizedTree(trees[k], dictionary, minCount))
  {
    forall k | 0 <= k < |trees| ensures Usable(trees[k]) && Usable(NormalizedTree(trees[k], dictionary, minCount)) {
      NormalizedTreeUsable(trees[k], dictionary, minCount);
    }
  }

  /** The treebank after updateExceptionalWordsInTree on each of its trees. */
  function NormalizedTrees(trees: seq<ParseNode>, dictionary: map<string, nat>, minCount: int): (ts: seq<ParseNode>)
    requires forall k :: 0 <= k < |trees| ==> Usable(trees[k])
    ensures |ts| == |trees|
    ensures forall k :: 0 <= k < |ts| ==> Usable(trees[k]) && Usable(ts[k]) && ts[k] == NormalizedTree(trees[k], dictionary, minCount)
  {
    NormalizedTreesUsable(trees, dictionary, minCount);
    seq(|trees|, k requires 0 <= k < |trees| => NormalizedTree(trees[k], dictionary, minCount))
  }

  /** One more tree adds its rules after those of the trees before it. */
  /** Every rule read off one tree is among the rules of the treebank. */
  lemma {:induction false} TreeRulesIn(trees: seq<ParseNode>, k: int, oracle: Oracle, probabilistic: bool)
    requires 0 <= k < |trees| && forall t :: 0 <= t < |trees| ==> Rooted(trees[t])
    ensures forall r :: r in TreeRules(trees[k], oracle, probabilistic) ==> r in TreebankRules(trees, oracle, probabilistic)
    decreases |trees|
  {
    var init := trees[..|trees| - 1];
    if k < |trees| - 1 {
      assert init[k] == trees[k];
      TreeRulesIn(init, k, oracle, probabilistic);
    }
  }

  lemma TreebankRulesStep(trees: seq<ParseNode>, i: int, oracle: Oracle, probabilistic: bool)
    requires 0 <= i < |trees| && forall k :: 0 <= k < |trees| ==> Rooted(trees[k])
    ensures TreebankRules(trees[..i + 1], oracle, probabilistic)
      == TreebankRules(trees[..i], oracle, probabilistic) + TreeRules(trees[i], oracle, probabilistic)
  {
    assert trees[..i + 1][..i] == trees[..i];
  }

  // ---------------------------------------------------------------- the plain grammar

  /** The grammar ix is valid and holds exactly the rules of rs: every rule of rs is in it, with
      the same left and right sides, and it holds nothing else. */
  ghost predicate HoldsExactly(ix: Index, rs: seq<Rule>)
  {
    Valid(ix) && HoldsAll(ix, rs) && HoldsOnly(ix, rs)
  }

  predicate HoldsAll(ix: Index, rs: seq<Rule>)
  {
    forall j :: 0 <= j < |rs| ==> HasRule(ix, rs[j].lhs, rs[j].rhs)
  }

  ghost predicate HoldsOnly(ix: Index, rs: seq<Rule>)
  {
    forall id :: id in ix.rules ==> exists j :: 0 <= j < |rs| && SameRule(At(ix.store, id), rs[j])
  }

  /** The grammar the plain constructor builds from the rules rs of its normalised treebank
      holds exactly those rules, and after updateTypes every rule is typed. */
  lemma PlainGrammar(rs: seq<Rule>, oracle: Oracle)
    requires AllExtracted(rs, false)
    ensures RulesAll(AddAll(Index([], [], []), rs), HasRight)
    ensures HoldsExactly(Retyped(AddAll(Index([], [], []), rs), oracle), rs)
    ensures RulesAll(Retyped(AddAll(Index([], [], []), rs), oracle), WellTyped)
  {
    var ix1 := AddAll(Index([], [], []), rs);
    AddedGrammar(rs);
    forall k | 0 <= k < |ix1.rules| ensures HasRight(At(ix1.store, ix1.rules[k])) {
    }
    RetypedSpec(ix1, oracle);
    SameShapesExact(ix1, Retyped(ix1, oracle).store, rs);
  }

  /** The rules of rs added one by one to the empty grammar. */
  lemma AddedGrammar(rs: seq<Rule>)
    ensures var ix := AddAll(Index([], [], []), rs); Consistent(ix) && HoldsAll(ix, rs) && HoldsOnly(ix, rs)
    ensures (forall j :: 0 <= j < |rs| ==> rs[j].rhs != []) ==> HoldsExactly(AddAll(Index([], [], []), rs), rs)
  {
    var ix0 := Index([], [], []);
    EmptyValid();
    AddAllKeeps(ix0, rs);
    AddAllHas(ix0, rs);
    var ix1 := AddAll(ix0, rs);
    forall id | id in ix1.rules ensures exists j :: 0 <= j < |rs| && SameRule(At(ix1.store, id), rs[j]) {
      var j :| 0 <= j < |rs| && At(ix1.store, id) == rs[j];
    }
  }

  /** A store with the same rules in every object holds the same rules. */
  lemma SameShapesExact(ix: Index, store: seq<Rule>, rs: seq<Rule>)
    requires SameShapes(ix.store, store) && HoldsExactly(ix, rs)
    ensures HoldsExactly(Index(store, ix.rules, ix.right), rs)
  {
    SameShapesValid(ix, store);
    SameShapesHoldsAll(ix, store, rs);
    SameShapesHoldsOnly(ix, store, rs);
  }

  lemma SameShapesHoldsAll(ix: Index, store: seq<Rule>, rs: seq<Rule>)
    requires SameShapes(ix.store, store) && HoldsAll(ix, rs)
    ensures HoldsAll(Index(store, ix.rules, ix.right), rs)
  {
    var ix' := Index(store, ix.rules, ix.right);
    forall j | 0 <= j < |rs| ensures HasRule(ix', rs[j].lhs, rs[j].rhs) {
      assert HasRule(ix, rs[j].lhs, rs[j].rhs);
      var id :| id in ix.rules && At(ix.store, id).lhs == rs[j].lhs && At(ix.store, id).rhs == rs[j].rhs;
      SameShapesAt(ix.store, store, id);
    }
  }

  lemma SameShapesHoldsOnly(ix: Index, store: seq<Rule>, rs: seq<Rule>)
    requires SameShapes(ix.store, store) && HoldsOnly(ix, rs)
    ensures HoldsOnly(Index(store, ix.rules, ix.right), rs)
  {
    forall id | id in ix.rules ensures exists j :: 0 <= j < |rs| && SameRule(At(store, id), rs[j]) {
      SameShapesAt(ix.store, store, id);
      var j :| 0 <= j < |rs| && SameRule(At(ix.store, id), rs[j]);
      assert SameRule(At(store, id), rs[j]);
    }
  }

  // ---------------------------------------------------------------- the probabilistic grammar

  /** Two stores whose objects agree on both sides and on count and probability. */
  predicate SameScores(a: seq<Rule>, b: seq<Rule>)
  {
    SameShapes(a, b) && forall i :: 0 <= i < |a| ==> a[i].score == b[i].score
  }

  lemma {:induction false} SumProbabilitiesSame(a: seq<Rule>, b: seq<Rule>, ids: seq<nat>)
    requires forall k :: 0 <= k < |ids| ==> Probability(At(a, ids[k])) == Probability(At(b, ids[k]))
    ensures SumProbabilities(a, ids) == SumProbabilities(b, ids)
    decreases |ids|
  {
    if ids != [] {
      var init := ids[..|ids| - 1];
      assert forall k :: 0 <= k < |init| ==> init[k] == ids[k];
      SumProbabilitiesSame(a, b, init);
    }
  }

  /** The objects at each id agree on left-hand side, count and probability. */
  lemma SameScoresAt(a: seq<Rule>, b: seq<Rule>, id: nat)
    requires SameScores(a, b)
    ensures At(b, id).lhs == At(a, id).lhs && At(b, id).rhs == At(a, id).rhs
    ensures CountOf(At(b, id)) == CountOf(At(a, id)) && Probability(At(b, id)) == Probability(At(a, id))
  {
  }

  /** Changing only rule types changes no answer of searchRule or getRulesWithLeftSideX, and no
      count, total or sum of probabilities. */
  lemma SameScoresQueries(ix: Index, store: seq<Rule>)
    requires SameScores(ix.store, store)
    ensures forall r :: SearchRule(Index(store, ix.rules, ix.right), r) == SearchRule(ix, r)
    ensures forall r :: CountFor(Index(store, ix.rules, ix.right), r) == CountFor(ix, r)
    ensures forall x :: RulesWithLeftSide(Index(store, ix.rules, ix.right), x) == RulesWithLeftSide(ix, x)
    ensures forall x :: Total(Index(store, ix.rules, ix.right), x) == Total(ix, x)
    ensures forall ids :: SumProbabilities(store, ids) == SumProbabilities(ix.store, ids)
  {
    var ix' := Index(store, ix.rules, ix.right);
    SameShapesQueries(ix, store);
    forall r ensures CountFor(ix', r) == CountFor(ix, r) {
      if SearchRule(ix, r).Some? {
        SameScoresAt(ix.store, store, SearchRule(ix, r).value);
      }
    }
    forall x ensures Total(ix', x) == Total(ix, x) {
      var ids := RulesWithLeftSide(ix, x);
      forall k | 0 <= k < |ids| ensures CountOf(At(ix.store, ids[k])) == CountOf(At(store, ids[k])) {
        SameScoresAt(ix.store, store, ids[k]);
      }
      SumCountsSame(ix.store, store, ids);
    }
    forall ids ensures SumProbabilities(store, ids) == SumProbabilities(ix.store, ids) {
      forall k | 0 <= k < |ids| ensures Probability(At(ix.store, ids[k])) == Probability(At(store, ids[k])) {
        SameScoresAt(ix.store, store, ids[k]);
      }
      SumProbabilitiesSame(ix.store, store, ids);
    }
  }

  /** ... and keeps the grammar valid, its rules scored, and its left-hand sides. */
  lemma SameScoresValid(ix: Index, store: seq<Rule>)
    requires SameScores(ix.store, store)
    ensures Valid(ix) ==> Valid(Index(store, ix.rules, ix.right))
    ensures AllScored(ix) ==> AllScored(Index(store, ix.rules, ix.right))
    ensures forall x :: LeftSideOf(Index(store, ix.rules, ix.right), x) == LeftSideOf(ix, x)
  {
    var ix' := Index(store, ix.rules, ix.right);
    SameShapesValid(ix, store);
    forall x ensures LeftSideOf(ix', x) == LeftSideOf(ix, x) {
      if LeftSideOf(ix, x) {
        var k :| 0 <= k < |ix.rules| && At(ix.store, ix.rules[k]).lhs == x;
        SameScoresAt(ix.store, store, ix.rules[k]);
      }
      if LeftSideOf(ix', x) {
        var k :| 0 <= k < |ix'.rules| && At(store, ix'.rules[k]).lhs == x;
        SameScoresAt(ix.store, store, ix.rules[k]);
      }
    }
    if AllScored(ix) {
      forall k | 0 <= k < |ix'.rules| ensures Scored(At(store, ix'.rules[k])) {
        assert Scored(At(ix.store, ix.rules[k]));
        SameScoresAt(ix.store, store, ix.rules[k]);
      }
    }
  }

  /** updateTypes changes types only. */
  lemma RetypedScores(ix: Index, oracle: Oracle)
    requires RulesAll(ix, HasRight)
    ensures Retyped(ix, oracle) == Index(Retyped(ix, oracle).store, ix.rules, ix.right)
    ensures SameScores(ix.store, Retyped(ix, oracle).store)
  {
    RetypedSpec(ix, oracle);
  }

  /** The probability of r is its count over total, so lies in (0, 1]. */
  predicate ShareOf(r: Rule, total: nat)
  {
    Probability(r) * total as real == CountOf(r) as real && 0.0 < Probability(r) <= 1.0
  }

  /** What the probabilistic constructor promises of its grammar ix for the rules rs read off
      the treebank: the grammar is valid and every rule carries a count and a probability;
      searchRule finds exactly the rules occurring in rs, each with its number of occurrences
      as count; the probability of each rule is its count over the total count of its left-hand
      side, so lies in (0, 1]; and the probabilities of each left-hand side sum to 1. */
  ghost predicate CountedAndNormalized(ix: Index, rs: seq<Rule>)
  {
    && Valid(ix) && AllScored(ix)
    && (forall r :: CountFor(ix, r) == Occurrences(rs, r))
    && (forall r :: SearchRule(ix, r).Some? <==> Occurrences(rs, r) > 0)
    && (forall id :: id in ix.rules ==> ShareOf(At(ix.store, id), Total(ix, At(ix.store, id).lhs)))
    && (forall x :: LeftSideOf(ix, x) ==> SumProbabilities(ix.store, RulesWithLeftSide(ix, x)) == 1.0)
  }

  /** The counts of the induced grammar, normalised per left-hand side, give such a grammar. */
  lemma NormalizedGrammar(rs: seq<Rule>, ix2: Index)
    requires AllExtracted(rs, true) && NormalizedFrom(CountAll(Index([], [], []), rs), ix2)
    ensures CountedAndNormalized(ix2, rs) && RulesAll(ix2, HasRight)
  {
    var ix1 := CountAll(Index([], [], []), rs);
    InducedCounts(rs);
    NormalizedKeeps(ix1, ix2);
    forall k | 0 <= k < |ix2.rules| ensures HasRight(At(ix2.store, ix2.rules[k])) && Scored(At(ix2.store, ix2.rules[k])) {
      assert Positive(At(ix2.store, ix2.rules[k]));
    }
    NormalizedCounts(ix1, ix2);
    forall id | id in ix2.rules ensures ShareOf(At(ix2.store, id), Total(ix2, At(ix2.store, id).lhs)) {
      ShareFacts(ix1, ix2, id);
    }
    NormalizedSums(ix1, ix2);
  }

  /** Normalising changes no count searchRule sees. */
  lemma NormalizedCounts(ix1: Index, ix2: Index)
    requires Valid(ix1) && RulesAll(ix1, Positive) && NormalizedFrom(ix1, ix2)
    ensures forall r :: CountFor(ix2, r) == CountFor(ix1, r)
  {
    NormalizedKeeps(ix1, ix2);
    forall r ensures CountFor(ix2, r) == CountFor(ix1, r) {
      if SearchRule(ix1, r).Some? {
        var id := SearchRule(ix1, r).value;
        assert CountOf(At(ix2.store, id)) == CountOf(At(ix1.store, id));
      }
    }
  }

  /** After normalising, the probabilities of each left-hand side sum to 1. */
  lemma NormalizedSums(ix1: Index, ix2: Index)
    requires Valid(ix1) && RulesAll(ix1, Positive) && NormalizedFrom(ix1, ix2)
    ensures forall x :: LeftSideOf(ix2, x) ==> SumProbabilities(ix2.store, RulesWithLeftSide(ix2, x)) == 1.0
  {
    forall x | LeftSideOf(ix2, x) ensures SumProbabilities(ix2.store, RulesWithLeftSide(ix2, x)) == 1.0 {
      var k :| 0 <= k < |ix2.rules| && At(ix2.store, ix2.rules[k]).lhs == x;
      NormalizedFromSame(ix1, ix2);
      SameShapesAt(ix1.store, ix2.store, ix2.rules[k]);
      assert LeftSideOf(ix1, x);
      SumsToOne(ix1, ix2, x);
    }
  }

  /** updateTypes after normalisation keeps every promise and types every rule. */
  lemma TypedGrammar(ix: Index, rs: seq<Rule>, oracle: Oracle)
    requires CountedAndNormalized(ix, rs) && RulesAll(ix, HasRight)
    ensures CountedAndNormalized(Retyped(ix, oracle), rs) && RulesAll(Retyped(ix, oracle), WellTyped)
  {
    RetypedScores(ix, oracle);
    RetypedSpec(ix, oracle);
    SameScoresCounted(ix, Retyped(ix, oracle).store, rs);
  }

  /** A store whose objects agree on sides, counts and probabilities keeps every promise. */
  lemma SameScoresCounted(ix: Index, store: seq<Rule>, rs: seq<Rule>)
    requires SameScores(ix.store, store) && CountedAndNormalized(ix, rs)
    ensures CountedAndNormalized(Index(store, ix.rules, ix.right), rs)
  {
    SameScoresQueries(ix, store);
    SameScoresValid(ix, store);
    SameScoresShares(ix, store);
  }

  lemma SameScoresShares(ix: Index, store: seq<Rule>)
    requires SameScores(ix.store, store)
    requires forall id :: id in ix.rules ==> ShareOf(At(ix.store, id), Total(ix, At(ix.store, id).lhs))
    ensures forall id :: id in ix.rules ==>
      ShareOf(At(store, id), Total(Index(store, ix.rules, ix.right), At(store, id).lhs))
  {
    var ix' := Index(store, ix.rules, ix.right);
    forall id | id in ix.rules ensures ShareOf(At(store, id), Total(ix', At(store, id).lhs)) {
      SameScoresAt(ix.store, store, id);
      SameScoresTotal(ix, store, At(ix.store, id).lhs);
      assert ShareOf(At(ix.store, id), Total(ix, At(ix.store, id).lhs));
      ShareOfSame(At(ix.store, id), At(store, id), Total(ix, At(ix.store, id).lhs), Total(ix', At(store, id).lhs));
    }
  }

  lemma ShareOfSame(a: Rule, b: Rule, t: nat, t': nat)
    requires CountOf(a) == CountOf(b) && Probability(a) == Probability(b) && t == t' && ShareOf(a, t)
    ensures ShareOf(b, t')
  {
  }

  lemma SameScoresTotal(ix: Index, store: seq<Rule>, x: Symbol)
    requires SameScores(ix.store, store)
    ensures Total(Index(store, ix.rules, ix.right), x) == Total(ix, x)
  {
    SameScoresQueries(ix, store);
  }

  /** One rule of the normalised grammar: probability times the total of its left-hand side is
      its count, and the probability is in (0, 1]. */
  lemma ShareFacts(ix1: Index, ix2: Index, id: nat)
    requires Valid(ix1) && RulesAll(ix1, Positive) && NormalizedFrom(ix1, ix2) && id in ix2.rules
    ensures ShareOf(At(ix2.store, id), Total(ix2, At(ix2.store, id).lhs))
  {
    var r := At(ix1.store, id);
    var t := Total(ix1, r.lhs);
    var r2 := At(ix2.store, id);
    NormalizedShare(ix1, ix2, id);
    NormalizedTotals(ix1, ix2, r.lhs);
    ShareAt(r, r2, t, Total(ix2, r2.lhs));
  }

  /** The same for one object r normalised into r2 by the total t of its left-hand side. */
  lemma ShareAt(r: Rule, r2: Rule, t: nat, t2: nat)
    requires r.score.Some? && 1 <= CountOf(r) <= t && r2 == Share(r, t) && t2 == t
    ensures ShareOf(r2, t2)
  {
    ShareKeeps(r, t);
    ShareBounds(r, t);
  }

  /** normalizeProbability keeps both sides and the count, and makes probability times total
      the count. */
  lemma ShareKeeps(r: Rule, t: nat)
    requires r.score.Some? && t > 0
    ensures Share(r, t).lhs == r.lhs && CountOf(Share(r, t)) == CountOf(r)
    ensures Probability(Share(r, t)) * t as real == CountOf(r) as real
  {
    ShareScales(r, t);
  }

  /** Normalising changes no total. */
  lemma NormalizedTotals(ix1: Index, ix2: Index, x: Symbol)
    requires Valid(ix1) && RulesAll(ix1, Positive) && NormalizedFrom(ix1, ix2)
    ensures Total(ix2, x) == Total(ix1, x)
  {
    NormalizedFromSame(ix1, ix2);
    SameCountsKeeps(ix1, ix2);
  }

  /** The grammar the probabilistic constructor builds from the rules rs of its normalised
      treebank: counted, normalised and typed. */
  lemma ProbabilisticGrammar(rs: seq<Rule>, ix2: Index, oracle: Oracle)
    requires AllExtracted(rs, true) && NormalizedFrom(CountAll(Index([], [], []), rs), ix2)
    ensures Valid(ix2) && RulesAll(ix2, HasRight)
    ensures CountedAndNormalized(Retyped(ix2, oracle), rs) && RulesAll(Retyped(ix2, oracle), WellTyped)
  {
    NormalizedGrammar(rs, ix2);
    TypedGrammar(ix2, rs, oracle);
  }
}
