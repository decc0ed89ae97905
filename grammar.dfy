/** ContextFreeGrammar and its subclass ProbabilisticContextFreeGrammar as one class: the word
    dictionary, the rule objects, the two sorted lists of references to them, and minCount.
    The lists are id lists into `store` (see RuleIndex); `probabilistic` tells the subclass,
    whose rules carry a count and a probability, from the plain grammar. */
module Grammar {
  import opened Wrappers
  import opened Rules
  import opened SortedLists
  import opened RuleIndex
  import opened ParseTrees
  import opened ExceptionalWords
  import opened Treebank
  import opened Normalization
  import opened NormalForm
  import opened ChomskyNormalForm
  import opened Induction
  import TreeProbability

  class ContextFreeGrammar {
    var dictionary: map<string, nat>
    var store: seq<Rule>
    var rules: seq<nat>
    var rulesRightSorted: seq<nat>
    var minCount: int
    const probabilistic: bool

    /** The rule index the fields hold. */
    function View(): Index
      reads this
    {
      Index(store, rules, rulesRightSorted)
    }

    /** ContextFreeGrammar() and ProbabilisticContextFreeGrammar(): no words, no rules,
        minCount 1. */
    constructor Empty(probabilistic: bool)
      ensures View() == Index([], [], []) && Valid(View())
      ensures dictionary == map[] && minCount == 1 && this.probabilistic == probabilistic
    {
      dictionary := map[];
      store, rules, rulesRightSorted := [], [], [];
      minCount := 1;
      this.probabilistic := probabilistic;
      EmptyValid();
    }

    /** ContextFreeGrammar(treeBank, minCount): the dictionary of the treebank's words; each
        tree's rare words and numerals replaced; the rules of the trees added; their types set.
        The grammar then holds exactly the rules of the normalised trees, each typed. */
    constructor FromTreebank(trees: seq<ParseNode>, minCount: int, oracle: Oracle)
      requires forall k :: 0 <= k < |trees| ==> Usable(trees[k])
      ensures this.minCount == minCount && !probabilistic
      ensures PlainGrammarOf(View(), dictionary, trees, minCount, oracle)
    {
      var dict, ix := BuildPlainGrammar(trees, minCount, oracle);
      dictionary := dict;
      store, rules, rulesRightSorted := ix.store, ix.rules, ix.right;
      this.minCount := minCount;
      probabilistic := false;
    }

    /** ProbabilisticContextFreeGrammar(treeBank, minCount): as above, but each rule found is
        counted, the counts are turned into probabilities per left-hand side, and the types are
        set.  The grammar then holds exactly the rules of the normalised trees, each with its
        number of occurrences as count and its share of its left-hand side as probability. */
    constructor ProbabilisticFromTreebank(trees: seq<ParseNode>, minCount: int, oracle: Oracle)
      requires forall k :: 0 <= k < |trees| ==> Usable(trees[k])
      ensures this.minCount == minCount && probabilistic
      ensures ProbabilisticGrammarOf(View(), dictionary, trees, minCount, oracle)
    {
      var dict, ix := BuildProbabilisticGrammar(trees, minCount, oracle);
      dictionary := dict;
      store, rules, rulesRightSorted := ix.store, ix.rules, ix.right;
      this.minCount := minCount;
      probabilistic := true;
    }

    /** addRule: a rule equal under RuleComparator to one already held changes nothing;
        otherwise the rule is inserted into both lists at its place. */
    method AddRule(r: Rule)
      modifies this`store, this`rules, this`rulesRightSorted
      ensures View() == Added(old(View()), r)
      ensures old(Valid(View())) && r.rhs != [] ==> Valid(View())
      ensures HasRule(View(), r.lhs, r.rhs)
    {
      var ix0 := View();
      var ix := RuleIndex.AddRule(ix0, r);
      if Valid(ix0) {
        AddedValid(ix0, r);
      }
      AddedHasRule(ix0, r);
      store, rules, rulesRightSorted := ix.store, ix.rules, ix.right;
      assert View() == ix;
    }

    /** removeRule: a rule not held changes nothing; otherwise it leaves `rules` and exactly
        one entry of rulesRightSorted, the first found equal to it, and the grammar stays valid. */
    method RemoveRule(r: Rule)
      requires Valid(View())
      modifies this`store, this`rules, this`rulesRightSorted
      ensures View() == Removed(old(View()), r) && Valid(View())
    {
      var ix0 := View();
      assert Valid(ix0);
      var ix := RuleIndex.RemoveRule(ix0, r);
      RemovedStaysValid(ix0, r);
      store, rules, rulesRightSorted := ix.store, ix.rules, ix.right;
      assert View() == ix;
      assert Valid(ix);
    }

    /** getRulesWithLeftSideX: the rules X -> ..., each once. */
    method GetRulesWithLeftSideX(x: Symbol) returns (result: seq<nat>)
      ensures result == RulesWithLeftSide(View(), x)
      ensures Valid(View()) ==> Distinct(result) && forall id :: id in result <==> id in rules && At(store, id).lhs == x
    {
      result := CollectScan(rules, Rule(x, [x], None, None), AgainstLeft(store), LhsIs(store, x), Always());
      if Valid(View()) {
        RulesWithLeftSideExact(View(), x);
      }
    }

    /** getTerminalRulesWithRightSideX: the TERMINAL rules X -> s, each once. */
    method GetTerminalRulesWithRightSideX(s: Symbol) returns (result: seq<nat>)
      ensures result == TerminalRulesWithRightSide(View(), s)
      ensures Valid(View()) && KindsFit(View()) ==> Distinct(result) && forall id :: id in result <==> id in rulesRightSorted && At(store, id).kind == Some(Terminal) && At(store, id).rhs == [s]
    {
      result := CollectScan(rulesRightSorted, Rule(s, [s], None, None), AgainstRight(store), StartsWith(store, s), OfKind(store, Terminal));
      if Valid(View()) && KindsFit(View()) {
        TerminalRulesWithRightSideExact(View(), s);
      }
    }

    /** getRulesWithRightSideX: the rules X -> S, each once. */
    method GetRulesWithRightSideX(s: Symbol) returns (result: seq<nat>)
      ensures result == RulesWithRightSide(View(), s)
      ensures Valid(View()) ==> Distinct(result) && forall id :: id in result <==> id in rulesRightSorted && At(store, id).rhs == [s]
    {
      result := CollectScan(rulesRightSorted, Rule(s, [s], None, None), AgainstRight(store), RhsIs(store, [s]), Always());
      if Valid(View()) {
        RulesWithRightSideExact(View(), s);
      }
    }

    /** getRulesWithTwoNonTerminalsOnRightSide: the rules X -> A B, each once. */
    method GetRulesWithTwoNonTerminalsOnRightSide(a: Symbol, b: Symbol) returns (result: seq<nat>)
      ensures result == RulesWithTwoOnRightSide(View(), a, b)
      ensures Valid(View()) ==> Distinct(result) && forall id :: id in result <==> id in rulesRightSorted && At(store, id).rhs == [a, b]
    {
      result := CollectScan(rulesRightSorted, Rule(a, [a, b], None, None), AgainstRight(store), RhsIs(store, [a, b]), Always());
      if Valid(View()) {
        RulesWithTwoOnRightSideExact(View(), a, b);
      }
    }

    /** partOfSpeechTags: the left-hand sides of TERMINAL rules, each once. */
    method PartOfSpeechTags() returns (result: seq<Symbol>)
      ensures result == RuleIndex.PartOfSpeechTags(View())
      ensures Distinct(result) && forall x :: x in result <==> TagOf(View(), x)
    {
      result := CollectDistinct(rules, OfKind(store, Terminal), LhsOf(store));
    }

    /** getLeftSide: the left-hand sides of all rules, each once. */
    method GetLeftSide() returns (result: seq<Symbol>)
      ensures result == LeftSides(View())
      ensures Distinct(result) && forall x :: x in result <==> LeftSideOf(View(), x)
    {
      result := CollectDistinct(rules, Always(), LhsOf(store));
    }

    /** updateTypes: every rule typed by the length of its right-hand side and, for a single
        symbol, by whether it is a terminal, punctuation, or no rule's left-hand side. */
    method UpdateTypes(oracle: Oracle)
      requires Consistent(View()) && RulesAll(View(), HasRight)
      modifies this`store, this`rules, this`rulesRightSorted
      ensures View() == Retyped(old(View()), oracle) && RulesAll(View(), WellTyped)
    {
      var ix := NormalForm.UpdateTypes(View(), oracle);
      RetypedSpec(View(), oracle);
      store, rules, rulesRightSorted := ix.store, ix.rules, ix.right;
    }

    /** updateExceptionalWordsInTree(parseTree, minCount): each leaf word that is a numeral
        becomes _num_, each other word seen fewer than minCount times becomes _rare_. */
    method UpdateExceptionalWordsInTree(tree: ParseNode, minCount: int) returns (tree': ParseNode)
      requires LeavesNamed(tree)
      ensures tree' == NormalizedTree(tree, dictionary, minCount)
      ensures LeavesNamed(tree') && Words(tree') == NormalizedWords(Words(tree), dictionary, minCount)
    {
      tree' := ExceptionalWords.UpdateExceptionalWordsInTree(tree, dictionary, minCount);
    }

    /** updateExceptionalWordsInSentence: the same on the words of a sentence, with the
        grammar's own minCount. */
    method UpdateExceptionalWordsInSentence(sentence: seq<string>) returns (sentence': seq<string>)
      ensures |sentence'| == |sentence|
      ensures forall i :: 0 <= i < |sentence| ==> sentence'[i] == NormalizedWord(sentence[i], dictionary, minCount)
    {
      sentence' := ExceptionalWords.UpdateExceptionalWordsInSentence(sentence, dictionary, minCount);
    }

    /** convertToChomskyNormalForm (the probabilistic override when `probabilistic`): every rule
        becomes A -> a, A -> B C or A -> A, both lists are sorted again and hold the same
        objects, and a probabilistic grammar's rules keep their probabilities.  No object
        changes its left-hand side or probability; every TWO_NON_TERMINAL rule stays as it was,
        and so does every TERMINAL rule A -> a unless some SINGLE_NON_TERMINAL rule points at a. */
    method ConvertToChomskyNormalForm()
      requires Valid(View()) && RulesAll(View(), WellTyped) && (probabilistic ==> AllScored(View()))
      modifies this`store, this`rules, this`rulesRightSorted
      ensures Consistent(View()) && Sorted(rules, ByRule(store)) && Sorted(rulesRightSorted, ByRight(store))
      ensures RulesAll(View(), ChomskyRule) && (probabilistic ==> AllScored(View()))
      ensures Unrenamed(old(View()), View())
      ensures forall id :: id in old(rules) && At(old(store), id).kind == Some(TwoNonTerminal) ==> Kept(old(View()), View(), id)
      ensures forall id :: id in old(rules) && At(old(store), id).kind == Some(Terminal) && !Replaceable(old(View()), At(old(store), id)) ==>
        Kept(old(View()), View(), id)
    {
      var ix := ChomskyNormalForm.ConvertToChomskyNormalForm(View(), if probabilistic then Probabilistic else Plain);
      store, rules, rulesRightSorted := ix.store, ix.rules, ix.right;
    }

    /** searchRule: the object in `rules` equal to r under RuleComparator, or null (None). */
    method SearchRule(r: Rule) returns (found: Option<nat>)
      ensures found == RuleIndex.SearchRule(View(), r)
      ensures Valid(View()) ==> (found.None? <==> forall id :: id in rules ==> !SameRule(At(store, id), r))
      ensures found.Some? ==> found.value in rules && SameRule(At(store, found.value), r)
    {
      var pos := BinarySearch(rules, r, AgainstRule(store));
      found := if pos >= 0 then Some(rules[pos]) else None;
      if Valid(View()) {
        SearchRuleExact(View(), r);
        assert forall id :: id in rules ==> exists k :: 0 <= k < |rules| && rules[k] == id;
      }
    }

    /** size: the number of rules. */
    method Size() returns (n: nat)
      ensures n == |rules| && n == RuleIndex.Size(View())
      ensures Consistent(View()) ==> n == |rulesRightSorted|
    {
      n := |rules|;
    }

    /** ProbabilisticContextFreeGrammar.probability(parseTree): the log-probability of the tree,
        None where the Java code dereferences null.  After normalisation it is never positive. */
    method Probability(tree: ParseNode, oracle: Oracle, ln: real -> real) returns (p: Option<real>)
      ensures p == TreeProbability.NodeLogProbability(View(), tree, oracle, ln)
      ensures TreeProbability.Probabilities(View()) && TreeProbability.LogOfFraction(ln) && p.Some? ==> p.value <= 0.0
    {
      p := TreeProbability.NodeProbability(View(), tree, oracle, ln);
      if TreeProbability.Probabilities(View()) && TreeProbability.LogOfFraction(ln) {
        TreeProbability.NodeLogProbabilityBound(View(), tree, oracle, ln);
      }
    }
  }

  /** What the plain treebank constructor builds: the dictionary counts the words of the
      treebank, and the grammar holds exactly the rules of the treebank with its rare words and
      numerals replaced, every rule typed by updateTypes. */
  ghost predicate PlainGrammarOf(ix: Index, dictionary: map<string, nat>, trees: seq<ParseNode>, minCount: int, oracle: Oracle)
  {
    && (forall k :: 0 <= k < |trees| ==> Usable(trees[k]))
    && dictionary == Tally(TreebankWords(trees))
    && var rs := TreebankRules(NormalizedTrees(trees, dictionary, minCount), oracle, false);
       HoldsExactly(ix, rs) && RulesAll(ix, WellTyped)
  }

  /** What the probabilistic treebank constructor builds: the same dictionary, and a grammar
      counted and normalised from the rules of the normalised treebank, every rule typed. */
  ghost predicate ProbabilisticGrammarOf(ix: Index, dictionary: map<string, nat>, trees: seq<ParseNode>, minCount: int, oracle: Oracle)
  {
    && (forall k :: 0 <= k < |trees| ==> Usable(trees[k]))
    && dictionary == Tally(TreebankWords(trees))
    && var rs := TreebankRules(NormalizedTrees(trees, dictionary, minCount), oracle, true);
       CountedAndNormalized(ix, rs) && RulesAll(ix, WellTyped)
  }

  /** The body of the plain treebank constructor. */
  method BuildPlainGrammar(trees: seq<ParseNode>, minCount: int, oracle: Oracle)
    returns (dictionary: map<string, nat>, ix: Index)
    requires forall k :: 0 <= k < |trees| ==> Usable(trees[k])
    ensures PlainGrammarOf(ix, dictionary, trees, minCount, oracle)
  {
    dictionary := ConstructDictionary(trees);
    ix := AddTreebankRules(trees, dictionary, minCount, oracle);
    ghost var rs := TreebankRules(NormalizedTrees(trees, dictionary, minCount), oracle, false);
    PlainGrammar(rs, oracle);
    ix := UpdateTypes(ix, oracle);
  }

  /** The body of the probabilistic treebank constructor. */
  method BuildProbabilisticGrammar(trees: seq<ParseNode>, minCount: int, oracle: Oracle)
    returns (dictionary: map<string, nat>, ix: Index)
    requires forall k :: 0 <= k < |trees| ==> Usable(trees[k])
    ensures ProbabilisticGrammarOf(ix, dictionary, trees, minCount, oracle)
  {
    dictionary := ConstructDictionary(trees);
    ix := CountTreebankRules(trees, dictionary, minCount, oracle);
    ghost var rs := TreebankRules(NormalizedTrees(trees, dictionary, minCount), oracle, true);
    InducedCounts(rs);
    ix := NormalizeProbabilities(ix);
    ProbabilisticGrammar(rs, ix, oracle);
    ix := UpdateTypes(ix, oracle);
  }

  /** The loop of the plain treebank constructor: updateExceptionalWordsInTree, then addRules,
      on each tree in turn. */
  method AddTreebankRules(trees: seq<ParseNode>, dictionary: map<string, nat>, minCount: int, oracle: Oracle)
    returns (ix: Index)
    requires forall k :: 0 <= k < |trees| ==> Usable(trees[k])
    ensures ix == AddAll(Index([], [], []), TreebankRules(NormalizedTrees(trees, dictionary, minCount), oracle, false))
  {
    ghost var normalized := NormalizedTrees(trees, dictionary, minCount);
    ix := Index([], [], []);
    for i := 0 to |trees|
      invariant ix == AddAll(Index([], [], []), TreebankRules(normalized[..i], oracle, false))
    {
      var tree := UpdateExceptionalWordsInTree(trees[i], dictionary, minCount);
      ghost var before := NormalizedStep(trees, dictionary, minCount, i, tree, oracle, false);
      ix := AddRules(ix, tree, oracle);
      AddAllAppend(Index([], [], []), before, TreeRules(tree, oracle, false));
    }
    assert normalized[..|trees|] == normalized;
  }

  /** The loop of the probabilistic treebank constructor: updateExceptionalWordsInTree, then the
      counting addRules, on each tree in turn. */
  method CountTreebankRules(trees: seq<ParseNode>, dictionary: map<string, nat>, minCount: int, oracle: Oracle)
    returns (ix: Index)
    requires forall k :: 0 <= k < |trees| ==> Usable(trees[k])
    ensures ix == CountAll(Index([], [], []), TreebankRules(NormalizedTrees(trees, dictionary, minCount), oracle, true))
  {
    ghost var normalized := NormalizedTrees(trees, dictionary, minCount);
    ix := Index([], [], []);
    for i := 0 to |trees|
      invariant ix == CountAll(Index([], [], []), TreebankRules(normalized[..i], oracle, true))
    {
      var tree := UpdateExceptionalWordsInTree(trees[i], dictionary, minCount);
      ghost var before := NormalizedStep(trees, dictionary, minCount, i, tree, oracle, true);
      ix := AddCountedRules(ix, tree, oracle);
      CountAllAppend(Index([], [], []), before, TreeRules(tree, oracle, true));
    }
    assert normalized[..|trees|] == normalized;
  }

  /** The i-th tree after updateExceptionalWordsInTree is the i-th normalised tree, readable, and
      its rules follow those of the trees before it. */
  lemma NormalizedStep(trees: seq<ParseNode>, dictionary: map<string, nat>, minCount: int, i: int,
                       tree: ParseNode, oracle: Oracle, probabilistic: bool)
    returns (before: seq<Rule>)
    requires forall k :: 0 <= k < |trees| ==> Usable(trees[k])
    requires 0 <= i < |trees|
    requires Usable(trees[i]) && tree == NormalizedTree(trees[i], dictionary, minCount)
    ensures var normalized := NormalizedTrees(trees, dictionary, minCount);
      && Usable(tree) && Rooted(tree)
      && before == TreebankRules(normalized[..i], oracle, probabilistic)
      && TreebankRules(normalized[..i + 1], oracle, probabilistic) == before + TreeRules(tree, oracle, probabilistic)
  {
    var normalized := NormalizedTrees(trees, dictionary, minCount);
    assert tree == normalized[i];
    TreebankRulesStep(normalized, i, oracle, probabilistic);
    before := TreebankRules(normalized[..i], oracle, probabilistic);
  }

  /** addRule keeps a grammar valid and leaves the rule in it. */
  lemma AddedFacts(ix: Index, r: Rule)
    ensures Valid(ix) && r.rhs != [] ==> Valid(Added(ix, r))
    ensures HasRule(Added(ix, r), r.lhs, r.rhs)
  {
    if Valid(ix) {
      AddedValid(ix, r);
    }
    AddedHasRule(ix, r);
  }

  /** removeRule keeps a grammar valid. */
  lemma RemovedStaysValid(ix: Index, r: Rule)
    requires Valid(ix)
    ensures Valid(Removed(ix, r))
  {
    RemovedValid(ix, r);
  }
}
