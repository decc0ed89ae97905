/** The older ContextFreeGrammar under src/ContextFreeGrammar: only the two sorted lists, no
    dictionary, and no constructor that assigns rule types.  Its comparators agree with the
    current ones on every input (LegacyRuleOrder), so the rule index operations are shared;
    what differs is construction, the untyped rules it holds, and the conversion. */
module LegacyGrammar {
  import opened Wrappers
  import opened Rules
  import opened SortedLists
  import opened RuleIndex
  import opened ParseTrees
  import opened Treebank
  import opened NormalForm
  import opened ChomskyNormalForm
  import opened Induction

  /** A rule as toRule and Rule(String) build it: without a type. */
  predicate Untyped(r: Rule)
  {
    r.kind.None?
  }

  /** A rule with an empty right-hand side, on which getRightHandSideAt(0) throws. */
  function EmptyRhs(store: seq<Rule>): nat -> bool
  {
    (id: nat) => At(store, id).rhs == []
  }

  class LegacyContextFreeGrammar {
    var store: seq<Rule>
    var rules: seq<nat>
    var rulesRightSorted: seq<nat>

    function View(): Index
      reads this
    {
      Index(store, rules, rulesRightSorted)
    }

    /** ContextFreeGrammar(): both lists empty. */
    constructor Empty()
      ensures View() == Index([], [], []) && Valid(View())
    {
      store, rules, rulesRightSorted := [], [], [];
      EmptyValid();
    }

    /** ContextFreeGrammar(treeBank): addRules on the root of each tree in turn; no word is
        replaced and no type is set.  The grammar holds exactly the rules of the trees, none of
        them typed; a tree that is a bare leaf adds a rule with an empty right-hand side, so the
        grammar is valid only when every root has children. */
    constructor FromTreebank(trees: seq<ParseNode>, oracle: Oracle)
      requires forall k :: 0 <= k < |trees| ==> Rooted(trees[k])
      ensures var rs := TreebankRules(trees, oracle, false);
        Consistent(View()) && HoldsAll(View(), rs) && HoldsOnly(View(), rs) && RulesAll(View(), Untyped)
      ensures (forall k :: 0 <= k < |trees| ==> Readable(trees[k])) ==> HoldsExactly(View(), TreebankRules(trees, oracle, false))
      ensures forall k :: 0 <= k < |trees| && trees[k].children == [] ==> HasRule(View(), oracle.trim(trees[k].data.value), [])
    {
      var ix := AddTreebankRulesAsRead(trees, oracle);
      ghost var rs := TreebankRules(trees, oracle, false);
      AddedGrammar(rs);
      UntypedGrammar(rs);
      BareLeavesHeld(trees, oracle, ix);
      store, rules, rulesRightSorted := ix.store, ix.rules, ix.right;
    }

    /** addRule, as in the current copy; an untyped rule keeps the grammar untyped. */
    method AddRule(r: Rule)
      modifies this`store, this`rules, this`rulesRightSorted
      ensures View() == Added(old(View()), r)
      ensures old(Valid(View())) && r.rhs != [] ==> Valid(View())
      ensures old(Valid(View())) && old(RulesAll(View(), Untyped)) && Untyped(r) ==> RulesAll(View(), Untyped)
    {
      var ix0 := View();
      var ix := RuleIndex.AddRule(ix0, r);
      if Valid(ix0) {
        AddedValid(ix0, r);
        AddedKeeps(ix0, r, Untyped);
      }
      store, rules, rulesRightSorted := ix.store, ix.rules, ix.right;
      assert View() == ix;
      assert Valid(ix0) && r.rhs != [] ==> Valid(ix);
      assert Valid(ix0) && RulesAll(ix0, Untyped) && Untyped(r) ==> RulesAll(ix, Untyped);
    }

    /** removeRule, as in the current copy. */
    method RemoveRule(r: Rule)
      requires Valid(View())
      modifies this`store, this`rules, this`rulesRightSorted
      ensures View() == Removed(old(View()), r) && Valid(View())
      ensures old(RulesAll(View(), Untyped)) ==> RulesAll(View(), Untyped)
    {
      var ix := RuleIndex.RemoveRule(View(), r);
      RemovedUntyped(View(), r);
      store, rules, rulesRightSorted := ix.store, ix.rules, ix.right;
    }

    /** getRulesWithLeftSideX: the rules X -> ..., each once. */
    method GetRulesWithLeftSideX(x: Symbol) returns (result: seq<nat>)
      ensures result == RulesWithLeftSide(View(), x)
      ensures Valid(View()) ==> Distinct(result) && forall id :: id in result <==> id in rules && At(store, id).lhs == x
    {
      result := CollectScan(rules, Rule(x, [x], None, None), AgainstLeft(store), LhsIs(store, x), Always());
      if Valid(View()) {
        RulesWithLeftSideExact(View(), x);
      }
    }

    /** getTerminalRulesWithRightSideX: the TERMINAL rules X -> s, each once, or None where
        the source throws: a walk reads getRightHandSideAt(0) of a rule with an empty
        right-hand side, which a bare-leaf tree adds.  Without such a rule it never throws, and
        in a grammar whose rules are untyped it finds nothing. */
    method GetTerminalRulesWithRightSideX(s: Symbol) returns (result: Option<seq<nat>>)
      ensures result.None? <==> ScanFaults(rulesRightSorted, Rule(s, [s], None, None), AgainstRight(store), StartsWith(store, s), EmptyRhs(store))
      ensures result.Some? ==> result.value == TerminalRulesWithRightSide(View(), s)
      ensures (forall id :: id in rulesRightSorted ==> At(store, id).rhs != []) ==> result.Some?
      ensures Valid(View()) && KindsFit(View()) ==>
        result.Some? && Distinct(result.value) &&
        forall id :: id in result.value <==> id in rulesRightSorted && At(store, id).kind == Some(Terminal) && At(store, id).rhs == [s]
      ensures Consistent(View()) && RulesAll(View(), Untyped) ==> result == None || result == Some([])
    {
      var found, faulted := CollectScanChecked(rulesRightSorted, Rule(s, [s], None, None), AgainstRight(store),
                                               StartsWith(store, s), OfKind(store, Terminal), EmptyRhs(store));
      result := if faulted then None else Some(found);
      if Valid(View()) {
        assert forall k :: 0 <= k < |rulesRightSorted| ==> At(store, rulesRightSorted[k]).rhs != [] by {
          ValidRightNonEmpty(View());
        }
        if KindsFit(View()) {
          TerminalRulesWithRightSideExact(View(), s);
        }
      }
      if Consistent(View()) && RulesAll(View(), Untyped) {
        UntypedNoTerminals(View(), s);
      }
    }

    /** getRulesWithRightSideX: the rules X -> S, each once, or None where the source throws on
        a rule with an empty right-hand side, as above. */
    method GetRulesWithRightSideX(s: Symbol) returns (result: Option<seq<nat>>)
      ensures result.None? <==> ScanFaults(rulesRightSorted, Rule(s, [s], None, None), AgainstRight(store), RhsIs(store, [s]), EmptyRhs(store))
      ensures result.Some? ==> result.value == RulesWithRightSide(View(), s)
      ensures (forall id :: id in rulesRightSorted ==> At(store, id).rhs != []) ==> result.Some?
      ensures Valid(View()) ==>
        result.Some? && Distinct(result.value) && forall id :: id in result.value <==> id in rulesRightSorted && At(store, id).rhs == [s]
    {
      var found, faulted := CollectScanChecked(rulesRightSorted, Rule(s, [s], None, None), AgainstRight(store),
                                               RhsIs(store, [s]), Always(), EmptyRhs(store));
      result := if faulted then None else Some(found);
      if Valid(View()) {
        assert forall k :: 0 <= k < |rulesRightSorted| ==> At(store, rulesRightSorted[k]).rhs != [] by {
          ValidRightNonEmpty(View());
        }
        RulesWithRightSideExact(View(), s);
      }
    }

    /** getRulesWithTwoNonTerminalsOnRightSide: the rules X -> A B, each once. */
    method GetRulesWithTwoNonTerminalsOnRightSide(a: Symbol, b: Symbol) returns (result: seq<nat>)
      ensures result == RulesWithTwoOnRightSide(View(), a, b)
      ensures Valid(View()) ==> Distinct(result) && forall id :: id in result <==> id in rulesRightSorted && At(store, id).rhs == [a, b]
    {
      result := CollectScan(rulesRightSorted, Rule(a, [a, b], None, None), AgainstRight(store), RhsIs(store, [a, b]), Always());
      if Valid(View()) {
        RulesWithTwoOnRightSideExact(View(), a, b);
      }
    }

    /** partOfSpeechTags: the left-hand sides of TERMINAL rules, each once. */
    method PartOfSpeechTags() returns (result: seq<Symbol>)
      ensures result == RuleIndex.PartOfSpeechTags(View())
      ensures Distinct(result) && forall x :: x in result <==> TagOf(View(), x)
    {
      result := CollectDistinct(rules, OfKind(store, Terminal), LhsOf(store));
    }

    /** getLeftSide: the left-hand sides of all rules, each once. */
    method GetLeftSide() returns (result: seq<Symbol>)
      ensures result == LeftSides(View())
      ensures Distinct(result) && forall x :: x in result <==> LeftSideOf(View(), x)
    {
      result := CollectDistinct(rules, Always(), LhsOf(store));
    }

    /** convertToChomskyNormalForm on a grammar of untyped rules, which is every grammar the
        old constructors build: neither candidate search finds a rule, so neither pass runs, and
        only the two sorts change the lists. */
    method ConvertToChomskyNormalForm()
      requires Valid(View()) && RulesAll(View(), Untyped)
      modifies this`rules, this`rulesRightSorted
      ensures store == old(store)
      ensures multiset(rules) == multiset(old(rules)) && multiset(rulesRightSorted) == multiset(old(rulesRightSorted))
      ensures Consistent(View()) && Sorted(rules, ByRule(store)) && Sorted(rulesRightSorted, ByRight(store))
      ensures RulesAll(View(), Untyped)
    {
      var ix := View();
      var single := GetSingleCandidate(ix, []);
      var multiple := GetMultipleCandidate(ix);
      UntypedNoCandidates(ix, []);
      assert single.None? && multiple.None?;
      ComparatorsTotal(ix.store, ix.rules);
      ComparatorsTotal(ix.store, ix.right);
      var sortedRules := Sort(ix.rules, ByRule(ix.store));
      var sortedRight := Sort(ix.right, ByRight(ix.store));
      ReorderedKeeps(ix, sortedRules, sortedRight, Untyped);
      rules, rulesRightSorted := sortedRules, sortedRight;
    }

    /** searchRule: the object in `rules` equal to r under RuleComparator, or null (None). */
    method SearchRule(r: Rule) returns (found: Option<nat>)
      ensures found == RuleIndex.SearchRule(View(), r)
      ensures Valid(View()) ==> (found.None? <==> forall id :: id in rules ==> !SameRule(At(store, id), r))
      ensures found.Some? ==> found.value in rules && SameRule(At(store, found.value), r)
    {
      var pos := BinarySearch(rules, r, AgainstRule(store));
      found := if pos >= 0 then Some(rules[pos]) else None;
      if Valid(View()) {
        SearchRuleExact(View(), r);
        assert forall id :: id in rules ==> exists k :: 0 <= k < |rules| && rules[k] == id;
      }
    }

    /** size: the number of rules. */
    method Size() returns (n: nat)
      ensures n == |rules| && n == RuleIndex.Size(View())
      ensures Consistent(View()) ==> n == |rulesRightSorted|
    {
      n := |rules|;
    }
  }

  /** A grammar holding every rule read off the trees holds, for each tree that is a bare
      leaf, the rule with the leaf's trimmed symbol on the left and nothing on the right. */
  lemma BareLeavesHeld(trees: seq<ParseNode>, oracle: Oracle, ix: Index)
    requires forall k :: 0 <= k < |trees| ==> Rooted(trees[k])
    requires HoldsAll(ix, TreebankRules(trees, oracle, false))
    ensures forall k :: 0 <= k < |trees| && trees[k].children == [] ==> HasRule(ix, oracle.trim(trees[k].data.value), [])
  {
    var rs := TreebankRules(trees, oracle, false);
    forall k | 0 <= k < |trees| && trees[k].children == [] ensures HasRule(ix, oracle.trim(trees[k].data.value), []) {
      TreeRulesIn(trees, k, oracle, false);
      var r := TreeRules(trees[k], oracle, false)[0];
      assert r in TreeRules(trees[k], oracle, false);
      var j :| 0 <= j < |rs| && rs[j] == r;
    }
  }

  /** The loop of the old treebank constructor: addRules on each tree as it is. */
  method AddTreebankRulesAsRead(trees: seq<ParseNode>, oracle: Oracle) returns (ix: Index)
    requires forall k :: 0 <= k < |trees| ==> Rooted(trees[k])
    ensures ix == AddAll(Index([], [], []), TreebankRules(trees, oracle, false))
  {
    ix := Index([], [], []);
    for i := 0 to |trees|
      invariant ix == AddAll(Index([], [], []), TreebankRules(trees[..i], oracle, false))
    {
      ghost var before := TreebankRules(trees[..i], oracle, false);
      ix := AddRules(ix, trees[i], oracle);
      TreebankRulesStep(trees, i, oracle, false);
      AddAllAppend(Index([], [], []), before, TreeRules(trees[i], oracle, false));
    }
    assert trees[..|trees|] == trees;
  }

  /** Rules read off trees carry no type, so the grammar built from them has none. */
  lemma UntypedGrammar(rs: seq<Rule>)
    requires forall j :: 0 <= j < |rs| ==> Untyped(rs[j])
    ensures RulesAll(AddAll(Index([], [], []), rs), Untyped)
  {
    var ix0 := Index([], [], []);
    EmptyValid();
    AddAllKeeps(ix0, rs);
    var ix := AddAll(ix0, rs);
    forall k | 0 <= k < |ix.rules| ensures Untyped(At(ix.store, ix.rules[k])) {
      assert ix.rules[k] in ix.rules;
      var j :| 0 <= j < |rs| && rs[j] == At(ix.store, ix.rules[k]);
    }
  }

  /** With no rule typed, neither conversion pass finds a candidate. */
  lemma UntypedNoCandidates(ix: Index, removed: seq<Symbol>)
    requires RulesAll(ix, Untyped)
    ensures SingleCandidate(ix, removed).None? && MultipleCandidate(ix).None?
  {
    forall k | 0 <= k < |ix.rules| ensures !SingleTest(ix.store, removed)(ix.rules[k]) {
      assert Untyped(At(ix.store, ix.rules[k]));
    }
  }

  /** removeRule keeps a grammar valid, and untyped when it was. */
  lemma RemovedUntyped(ix: Index, r: Rule)
    requires Valid(ix)
    ensures Valid(Removed(ix, r))
    ensures RulesAll(ix, Untyped) ==> RulesAll(Removed(ix, r), Untyped)
  {
    RemovedValid(ix, r);
    RemovedKeeps(ix, r, Untyped);
  }

  /** With no rule typed, the terminal query finds nothing. */
  lemma UntypedNoTerminals(ix: Index, s: Symbol)
    requires Consistent(ix) && RulesAll(ix, Untyped)
    ensures TerminalRulesWithRightSide(ix, s) == []
  {
    var result := TerminalRulesWithRightSide(ix, s);
    ScanSound(ix.right, Rule(s, [s], None, None), AgainstRight(ix.store), StartsWith(ix.store, s), OfKind(ix.store, Terminal));
    if result != [] {
      var id := result[0];
      assert id in ix.right && At(ix.store, id).kind == Some(Terminal);
      UntypedMember(ix, id);
    }
  }

  /** Every object of rulesRightSorted in an untyped grammar is untyped. */
  lemma UntypedMember(ix: Index, id: nat)
    requires Consistent(ix) && RulesAll(ix, Untyped) && id in ix.right
    ensures At(ix.store, id).kind.None?
  {
    assert id in multiset(ix.right);
    assert id in multiset(ix.rules);
    var k :| 0 <= k < |ix.rules| && ix.rules[k] == id;
    assert Untyped(At(ix.store, ix.rules[k]));
  }

  /** Every object of rulesRightSorted in a valid grammar has a non-empty right-hand side. */
  lemma ValidRightNonEmpty(ix: Index)
    requires Valid(ix)
    ensures forall k :: 0 <= k < |ix.right| ==> At(ix.store, ix.right[k]).rhs != []
  {
    forall k | 0 <= k < |ix.right| ensures At(ix.store, ix.right[k]).rhs != [] {
      assert ix.right[k] in multiset(ix.right);
      var j :| 0 <= j < |ix.rules| && ix.rules[j] == ix.right[k];
    }
  }

  /** The exception path of both right-hand-side queries: when rulesRightSorted, sorted, starts
      with a rule A -> (nothing), as a bare-leaf tree adds, followed by a rule X -> s, the
      search for s hits the block of rules starting with s, the upward walk reaches index 0,
      and reading its first symbol throws. */
  lemma EmptyFirstFaults(ix: Index, s: Symbol)
    requires Sorted(ix.right, ByRight(ix.store)) && |ix.right| >= 2
    requires At(ix.store, ix.right[0]).rhs == [] && At(ix.store, ix.right[1]).rhs == [s]
    ensures ScanFaults(ix.right, Rule(s, [s], None, None), AgainstRight(ix.store), StartsWith(ix.store, s), EmptyRhs(ix.store))
    ensures ScanFaults(ix.right, Rule(s, [s], None, None), AgainstRight(ix.store), RhsIs(ix.store, [s]), EmptyRhs(ix.store))
  {
    var xs, key := ix.right, Rule(s, [s], None, None);
    RightPartitioned(ix, key);
    assert AgainstRight(ix.store)(xs[1], key) == 0;
    var mid := Search(xs, key, AgainstRight(ix.store));
    assert mid >= 1 by {
      assert RuleOrder.RhsCompare([], [s]) != 0;
    }
    StartConvex(ix, s);
    RhsConvex(ix, [s]);
    WalkStopsAtStart(xs, mid, StartsWith(ix.store, s));
    WalkStopsAtStart(xs, mid, RhsIs(ix.store, [s]));
  }

  /** A walk up from mid through a convex block that holds index 1 and mid but not index 0
      stops at index 0. */
  lemma WalkStopsAtStart<T>(xs: seq<T>, mid: int, walk: T -> bool)
    requires 1 <= mid < |xs| && Convex(xs, walk)
    requires walk(xs[1]) && walk(xs[mid]) && !walk(xs[0])
    ensures RunDown(xs, mid, walk) == 0
  {
    ConvexRange(xs, walk, 1, mid);
  }
}
