/** Grammars induced from a treebank.  Every node with children yields one rule: its trimmed
    symbol on the left, the symbols of its children on the right.  ContextFreeGrammar.addRules
    adds each such rule once; ProbabilisticContextFreeGrammar.addRules counts how often each
    occurs, and its treebank constructor then turns the counts into probabilities, one
    distribution per left-hand side.  The probability of a tree is the sum of the logarithms of
    the probabilities of its rules. */
module Treebank {
  import opened Wrappers
  import opened Rules
  import opened SortedLists
  import opened RuleIndex
  import opened ParseTrees

  // ---------------------------------------------------------------- rules read off trees

  /** Every node with children carries a symbol: toRule reads the symbol of each node that
      addRules visits. */
  predicate InnerNamed(n: ParseNode)
    decreases n
  {
    && (n.children != [] ==> n.data.Some?)
    && forall k :: 0 <= k < |n.children| ==> InnerNamed(n.children[k])
  }

  /** The rule addRules reads off one node: ContextFreeGrammar.toRule(node, true) for the plain
      grammar, ProbabilisticContextFreeGrammar.toRule(node, true) for the probabilistic one,
      which builds a ProbabilisticRule with probability 0 and count 0.  With trim set both keep
      terminal children verbatim and trim the others; both fail when a child has no symbol. */
  function NodeRule(n: ParseNode, oracle: Oracle, probabilistic: bool): (r: Option<Rule>)
    requires n.data.Some?
    ensures r.None? <==> exists k :: 0 <= k < |n.children| && n.children[k].data.None?
    ensures r.Some? ==> r.value.lhs == oracle.trim(n.data.value) && |r.value.rhs| == |n.children|
    ensures r.Some? ==> forall k :: 0 <= k < |n.children| ==>
      var d := n.children[k].data.value;
      r.value.rhs[k] == if oracle.isTerminal(d) then d else oracle.trim(d)
    ensures r.Some? ==> Extracted(r.value, probabilistic) || n.children == []
  {
    var rule := ToRule(n, true, oracle, probabilistic);
    if rule.Some? && probabilistic then Some(NewProbabilisticRule(rule.value.lhs, rule.value.rhs, None, 0.0))
    else rule
  }

  /** What every rule read off a tree looks like: a non-empty right-hand side, no type yet, and
      for the probabilistic grammar probability 0 and count 0. */
  predicate Extracted(r: Rule, probabilistic: bool)
  {
    r.rhs != [] && r.kind.None? && r.score == if probabilistic then Some(Score(0.0, 0)) else None
  }

  predicate AllExtracted(rs: seq<Rule>, probabilistic: bool)
  {
    forall j :: 0 <= j < |rs| ==>
      rs[j].rhs != [] && rs[j].kind.None? && rs[j].score == if probabilistic then Some(Score(0.0, 0)) else None
  }

  /** The rule toRule reads off n, when it reads one. */
  function OwnRule(n: ParseNode, oracle: Oracle, probabilistic: bool): (rs: seq<Rule>)
    requires n.data.Some?
    ensures n.children != [] ==> AllExtracted(rs, probabilistic)
    ensures forall j :: 0 <= j < |rs| ==> rs[j].kind.None?
  {
    match NodeRule(n, oracle, probabilistic)
    case Some(r) => [r]
    case None => []
  }

  /** The rules addRules visits below and at a node, in its order: the node's own rule (when
      toRule succeeds), then those of each child that has children, left to right.  A bare leaf
      yields a single rule with an empty right-hand side. */
  function TreeRules(n: ParseNode, oracle: Oracle, probabilistic: bool): (rs: seq<Rule>)
    requires Rooted(n)
    ensures n.children != [] ==> AllExtracted(rs, probabilistic)
    ensures n.children == [] ==> |rs| == 1 && rs[0].lhs == oracle.trim(n.data.value) && rs[0].rhs == []
    ensures forall j :: 0 <= j < |rs| ==> rs[j].kind.None?
    decreases n, 1
  {
    OwnRule(n, oracle, probabilistic) + ChildRules(n.children, oracle, probabilistic)
  }

  function ChildRules(ns: seq<ParseNode>, oracle: Oracle, probabilistic: bool): (rs: seq<Rule>)
    requires forall k :: 0 <= k < |ns| ==> InnerNamed(ns[k])
    ensures AllExtracted(rs, probabilistic)
    decreases ns, 0
  {
    if ns == [] then []
    else
      var last := ns[|ns| - 1];
      ChildRules(ns[..|ns| - 1], oracle, probabilistic)
        + (if last.children != [] then TreeRules(last, oracle, probabilistic) else [])
  }

  /** A tree addRules can start from: its root and every inner node carry a symbol (toRule
      calls trimSymbol on each). */
  predicate Rooted(t: ParseNode)
  {
    InnerNamed(t) && (t.children == [] ==> t.data.Some?)
  }

  /** A tree the current grammars can read: rooted, and its root has children (a bare leaf
      gives a rule with an empty right-hand side, on which updateTypes fails). */
  predicate Readable(t: ParseNode)
  {
    t.children != [] && InnerNamed(t)
  }

  /** The rules of a whole treebank, tree after tree. */
  function TreebankRules(trees: seq<ParseNode>, oracle: Oracle, probabilistic: bool): (rs: seq<Rule>)
    requires forall t :: 0 <= t < |trees| ==> Rooted(trees[t])
    ensures (forall t :: 0 <= t < |trees| ==> Readable(trees[t])) ==> AllExtracted(rs, probabilistic)
    ensures forall j :: 0 <= j < |rs| ==> rs[j].kind.None?
  {
    if trees == [] then []
    else
      assert Rooted(trees[|trees| - 1]);
      TreebankRules(trees[..|trees| - 1], oracle, probabilistic) + TreeRules(trees[|trees| - 1], oracle, probabilistic)
  }

  // ---------------------------------------------------------------- the plain grammar

  /** The grammar after addRule of each rule in turn. */
  function AddAll(ix: Index, rs: seq<Rule>): Index
  {
    if rs == [] then ix else Added(AddAll(ix, rs[..|rs| - 1]), rs[|rs| - 1])
  }

  lemma {:induction false} AddAllAppend(ix: Index, a: seq<Rule>, b: seq<Rule>)
    ensures AddAll(ix, a + b) == AddAll(AddAll(ix, a), b)
    decreases |b|
  {
    if b == [] {
      assert a + b == a;
    } else {
      assert (a + b)[..|a + b| - 1] == a + b[..|b| - 1];
      AddAllAppend(ix, a, b[..|b| - 1]);
    }
  }

  /** The grammar after the loop of addRules over the children ns, starting from ix. */
  function AddedChildren(ix: Index, ns: seq<ParseNode>, oracle: Oracle): Index
    requires forall k :: 0 <= k < |ns| ==> InnerNamed(ns[k])
  {
    if ns == [] then ix
    else
      var last := ns[|ns| - 1];
      var prev := AddedChildren(ix, ns[..|ns| - 1], oracle);
      if last.children != [] then AddAll(prev, TreeRules(last, oracle, false)) else prev
  }

  lemma AddedChildrenStep(ix: Index, ns: seq<ParseNode>, i: int, oracle: Oracle)
    requires 0 <= i < |ns| && forall k :: 0 <= k < |ns| ==> InnerNamed(ns[k])
    ensures AddedChildren(ix, ns[..i + 1], oracle)
      == if ns[i].children != [] then AddAll(AddedChildren(ix, ns[..i], oracle), TreeRules(ns[i], oracle, false))
         else AddedChildren(ix, ns[..i], oracle)
  {
    assert ns[..i + 1][..i] == ns[..i];
  }

  /** The loop over the children adds exactly the children's rules. */
  lemma {:induction false} AddedChildrenIs(ix: Index, ns: seq<ParseNode>, oracle: Oracle)
    requires forall k :: 0 <= k < |ns| ==> InnerNamed(ns[k])
    ensures AddedChildren(ix, ns, oracle) == AddAll(ix, ChildRules(ns, oracle, false))
    decreases |ns|
  {
    if ns != [] {
      var init := ns[..|ns| - 1];
      var last := ns[|ns| - 1];
      AddedChildrenIs(ix, init, oracle);
      if last.children != [] {
        AddAllAppend(ix, ChildRules(init, oracle, false), TreeRules(last, oracle, false));
      } else {
        assert ChildRules(ns, oracle, false) == ChildRules(init, oracle, false) + [];
        assert ChildRules(init, oracle, false) + [] == ChildRules(init, oracle, false);
      }
    }
  }

  /** Adding the rules of a tree keeps the grammar valid, keeps every rule it had, and adds
      nothing but rules of the tree. */
  lemma {:induction false} AddAllKeeps(ix: Index, rs: seq<Rule>)
    requires Consistent(ix)
    ensures Consistent(AddAll(ix, rs)) && StoreGrows(ix.store, AddAll(ix, rs).store)
    ensures Valid(ix) && (forall j :: 0 <= j < |rs| ==> rs[j].rhs != []) ==> Valid(AddAll(ix, rs))
    ensures forall id :: id in ix.rules ==> id in AddAll(ix, rs).rules
    ensures forall id :: id in AddAll(ix, rs).rules ==> id in ix.rules || At(AddAll(ix, rs).store, id) in rs
    decreases |rs|
  {
    if rs != [] {
      var init := rs[..|rs| - 1];
      var last := rs[|rs| - 1];
      AddAllKeeps(ix, init);
      var ix1 := AddAll(ix, init);
      var ix' := Added(ix1, last);
      if Valid(ix) && forall j :: 0 <= j < |rs| ==> rs[j].rhs != [] {
        assert forall j :: 0 <= j < |init| ==> init[j] == rs[j];
        AddedValid(ix1, last);
      }
      AddedKeeps(ix1, last, Scored);
      StoreGrowsTransitive(ix.store, ix1.store, ix'.store);
      forall id | id in ix'.rules ensures id in ix.rules || At(ix'.store, id) in rs {
        if id in ix1.rules {
          RightMembers(ix1);
          StoreGrowsAt(ix1.store, ix'.store, id);
        }
      }
    }
  }

  /** After adding the rules of a tree, every one of them is in the grammar. */
  lemma {:induction false} AddAllHas(ix: Index, rs: seq<Rule>)
    requires Consistent(ix)
    ensures forall j :: 0 <= j < |rs| ==> HasRule(AddAll(ix, rs), rs[j].lhs, rs[j].rhs)
    decreases |rs|
  {
    if rs != [] {
      var init := rs[..|rs| - 1];
      var last := rs[|rs| - 1];
      AddAllHas(ix, init);
      AddAllKeeps(ix, init);
      var ix1 := AddAll(ix, init);
      var ix' := Added(ix1, last);
      AddedKeeps(ix1, last, Scored);
      AddedHasRule(ix1, last);
      forall j | 0 <= j < |rs| - 1 ensures HasRule(ix', rs[j].lhs, rs[j].rhs) {
        assert rs[j] == init[j];
        var id :| id in ix1.rules && At(ix1.store, id).lhs == rs[j].lhs && At(ix1.store, id).rhs == rs[j].rhs;
        RightMembers(ix1);
        StoreGrowsAt(ix1.store, ix'.store, id);
      }
    }
  }

  /** The node's own rule, and no child yet. */
  lemma AddAllOwn(ix: Index, n: ParseNode, oracle: Oracle, after: Index)
    requires n.data.Some?
    requires after == match NodeRule(n, oracle, false) case Some(r) => Added(ix, r) case None => ix
    ensures after == AddAll(ix, OwnRule(n, oracle, false))
  {
    var own := OwnRule(n, oracle, false);
    if own != [] {
      assert own[..0] == [];
    }
  }

  /** The first half of addRules: the node's own rule, when toRule gives one, is added. */
  method AddNodeRule(ix: Index, n: ParseNode, oracle: Oracle) returns (ix': Index)
    requires n.data.Some?
    ensures ix' == AddAll(ix, OwnRule(n, oracle, false))
  {
    var newRule := NodeRule(n, oracle, false);
    ix' := ix;
    if newRule.Some? {
      ix' := AddRule(ix', newRule.value);
    }
    AddAllOwn(ix, n, oracle, ix');
  }

  /** ContextFreeGrammar.addRules: add the node's rule, then recurse into every child that has
      children; the grammar grows by the rules of the tree in visiting order. */
  method AddRules(ix: Index, n: ParseNode, oracle: Oracle) returns (ix': Index)
    requires Rooted(n)
    ensures ix' == AddAll(ix, TreeRules(n, oracle, false))
    decreases n
  {
    ix' := AddNodeRule(ix, n, oracle);
    ghost var start := ix';
    var i := 0;
    while i < |n.children|
      invariant 0 <= i <= |n.children|
      invariant ix' == AddedChildren(start, n.children[..i], oracle)
    {
      var childNode := n.children[i];
      AddedChildrenStep(start, n.children, i, oracle);
      if childNode.children != [] {
        ix' := AddRules(ix', childNode, oracle);
      }
      i := i + 1;
    }
    assert n.children[..i] == n.children;
    AddedChildrenIs(start, n.children, oracle);
    AddAllAppend(ix, OwnRule(n, oracle, false), ChildRules(n.children, oracle, false));
  }

  // ---------------------------------------------------------------- counting

  /** The count of a rule object; 0 for a plain Rule. */
  function CountOf(r: Rule): nat
  {
    if r.score.Some? then r.score.value.count else 0
  }

  /** ProbabilisticRule.increment on one object of the grammar: its count grows by one.  (An
      id outside the store or a plain Rule, which the Java cast refuses, leaves the grammar as
      it is; IncrementKeeps shows that neither occurs in a grammar of ProbabilisticRules.) */
  function Increment(ix: Index, id: nat): Index
  {
    if id < |ix.store| && ix.store[id].score.Some? then ix.(store := ix.store[id := Incremented(ix.store[id])])
    else ix
  }

  /** Incrementing an object of `rules` raises its count by one and changes nothing else. */
  lemma IncrementKeeps(ix: Index, id: nat)
    requires Consistent(ix) && AllScored(ix) && id in ix.rules
    ensures var ix' := Increment(ix, id);
      && ix'.rules == ix.rules && ix'.right == ix.right && SameShapes(ix.store, ix'.store)
      && Consistent(ix') && AllScored(ix')
      && CountOf(At(ix'.store, id)) == CountOf(At(ix.store, id)) + 1
      && forall other :: other != id ==> At(ix'.store, other) == At(ix.store, other)
  {
    RulesAllAt(ix, Scored, id);
    var ix' := Increment(ix, id);
    SameShapesValid(ix, ix'.store);
    forall k | 0 <= k < |ix.rules| ensures Scored(At(ix'.store, ix.rules[k])) {
      assert Scored(At(ix.store, ix.rules[k]));
    }
  }

  /** After a miss of searchRule, addRule appends the new object to the store and puts it in
      `rules`. */
  lemma AddedFresh(ix: Index, r: Rule)
    requires SearchRule(ix, r).None?
    ensures Added(ix, r).store == ix.store + [r] && |ix.store| in Added(ix, r).rules
    ensures forall id :: id in Added(ix, r).rules ==> id in ix.rules || id == |ix.store|
  {
    var ip := -Search(ix.rules, r, AgainstRule(ix.store)) - 1;
    InsertedAt(ix.rules, ip, |ix.store|, ip);
    var rules' := Added(ix, r).rules;
    forall id | id in rules' ensures id in ix.rules || id == |ix.store| {
      assert id in multiset(rules');
    }
  }

  /** The probabilistic addRules on one node's rule: when searchRule finds an equal rule that
      object is incremented, otherwise the new rule is added and then incremented. */
  function Counted(ix: Index, newRule: Rule): Index
  {
    match SearchRule(ix, newRule)
    case Some(id) => Increment(ix, id)
    case None => Increment(Added(ix, newRule), |ix.store|)
  }

  /** Counting each rule in turn. */
  function CountAll(ix: Index, rs: seq<Rule>): Index
  {
    if rs == [] then ix else Counted(CountAll(ix, rs[..|rs| - 1]), rs[|rs| - 1])
  }

  lemma {:induction false} CountAllAppend(ix: Index, a: seq<Rule>, b: seq<Rule>)
    ensures CountAll(ix, a + b) == CountAll(CountAll(ix, a), b)
    decreases |b|
  {
    if b == [] {
      assert a + b == a;
    } else {
      assert (a + b)[..|a + b| - 1] == a + b[..|b| - 1];
      CountAllAppend(ix, a, b[..|b| - 1]);
    }
  }

  /** The grammar after the loop of addRules over the children ns, starting from ix. */
  function CountedChildren(ix: Index, ns: seq<ParseNode>, oracle: Oracle): Index
    requires forall k :: 0 <= k < |ns| ==> InnerNamed(ns[k])
  {
    if ns == [] then ix
    else
      var last := ns[|ns| - 1];
      var prev := CountedChildren(ix, ns[..|ns| - 1], oracle);
      if last.children != [] then CountAll(prev, TreeRules(last, oracle, true)) else prev
  }

  lemma CountedChildrenStep(ix: Index, ns: seq<ParseNode>, i: int, oracle: Oracle)
    requires 0 <= i < |ns| && forall k :: 0 <= k < |ns| ==> InnerNamed(ns[k])
    ensures CountedChildren(ix, ns[..i + 1], oracle)
      == if ns[i].children != [] then CountAll(CountedChildren(ix, ns[..i], oracle), TreeRules(ns[i], oracle, true))
         else CountedChildren(ix, ns[..i], oracle)
  {
    assert ns[..i + 1][..i] == ns[..i];
  }

  /** The loop over the children adds exactly the children's rules. */
  lemma {:induction false} CountedChildrenIs(ix: Index, ns: seq<ParseNode>, oracle: Oracle)
    requires forall k :: 0 <= k < |ns| ==> InnerNamed(ns[k])
    ensures CountedChildren(ix, ns, oracle) == CountAll(ix, ChildRules(ns, oracle, true))
    decreases |ns|
  {
    if ns != [] {
      var init := ns[..|ns| - 1];
      var last := ns[|ns| - 1];
      CountedChildrenIs(ix, init, oracle);
      if last.children != [] {
        CountAllAppend(ix, ChildRules(init, oracle, true), TreeRules(last, oracle, true));
      } else {
        assert ChildRules(ns, oracle, true) == ChildRules(init, oracle, true) + [];
        assert ChildRules(init, oracle, true) + [] == ChildRules(init, oracle, true);
      }
    }
  }

  /** The count the grammar holds for r: that of the object searchRule finds, 0 when none. */
  function CountFor(ix: Index, r: Rule): nat
  {
    match SearchRule(ix, r)
    case Some(id) => CountOf(At(ix.store, id))
    case None => 0
  }

  /** How many rules of rs equal r under RuleComparator. */
  function Occurrences(rs: seq<Rule>, r: Rule): nat
  {
    if rs == [] then 0 else Occurrences(rs[..|rs| - 1], r) + (if SameRule(rs[|rs| - 1], r) then 1 else 0)
  }

  /** A rule that has been counted at least once. */
  predicate Positive(r: Rule)
  {
    r.score.Some? && r.score.value.count >= 1
  }

  /** On a valid grammar searchRule finds exactly the object of `rules` equal to r. */
  lemma SearchRuleIs(ix: Index, r: Rule, id: nat)
    requires Valid(ix) && id in ix.rules && SameRule(At(ix.store, id), r)
    ensures SearchRule(ix, r) == Some(id)
  {
    var k :| 0 <= k < |ix.rules| && ix.rules[k] == id;
    SearchRuleExact(ix, r);
  }

  lemma SearchRuleMisses(ix: Index, r: Rule)
    requires Valid(ix) && forall id :: id in ix.rules ==> !SameRule(At(ix.store, id), r)
    ensures SearchRule(ix, r).None?
  {
    SearchRuleExact(ix, r);
    assert forall k :: 0 <= k < |ix.rules| ==> ix.rules[k] in ix.rules;
  }

  /** The increment of a found object raises the count held for the rules equal to it, and
      only for those. */
  lemma CountedFound(ix: Index, q: Rule, r: Rule, id0: nat)
    requires Valid(ix) && AllScored(ix) && q.score.Some? && SearchRule(ix, q) == Some(id0)
    ensures Valid(Counted(ix, q)) && AllScored(Counted(ix, q))
    ensures CountFor(Counted(ix, q), r) == CountFor(ix, r) + (if SameRule(q, r) then 1 else 0)
  {
    var ix' := Increment(ix, id0);
    IncrementKeeps(ix, id0);
    SameShapesValid(ix, ix'.store);
    SameShapesQueries(ix, ix'.store);
    assert SearchRule(ix', r) == SearchRule(ix, r);
    if SameRule(q, r) {
      SearchRuleIs(ix, r, id0);
    } else {
      match SearchRule(ix, r)
      case Some(id) =>
        assert id != id0;
      case None =>
    }
  }

  /** What a miss of searchRule leads to: the rule is appended to the store and put in
      `rules`, then its count goes from 0 to 1; searchRule then answers as after the addRule. */
  lemma CountedAddedShape(ix: Index, q: Rule)
    requires Valid(ix) && AllScored(ix) && q.score.Some? && CountOf(q) == 0 && q.rhs != []
    requires SearchRule(ix, q).None?
    ensures var ix1 := Added(ix, q); var n := |ix.store|;
      && Valid(ix1) && ix1.store == ix.store + [q]
      && n in ix1.rules && (forall id :: id in ix1.rules ==> id in ix.rules || id == n)
      && (forall id :: id in ix.rules ==> id in ix1.rules)
      && Valid(Counted(ix, q)) && AllScored(Counted(ix, q))
      && (forall r :: SearchRule(Counted(ix, q), r) == SearchRule(ix1, r))
      && CountOf(At(Counted(ix, q).store, n)) == 1
      && (forall id :: id != n ==> At(Counted(ix, q).store, id) == At(ix1.store, id))
  {
    var ix1 := Added(ix, q);
    AddedFresh(ix, q);
    AddedKeeps(ix, q, Scored);
    AddedValid(ix, q);
    var n := |ix.store|;
    var ix' := Increment(ix1, n);
    IncrementKeeps(ix1, n);
    assert Counted(ix, q) == ix';
    SameShapesValid(ix1, ix'.store);
    SameShapesQueries(ix1, ix'.store);
    assert At(ix1.store, n) == q;
  }

  /** A rule that searchRule misses is added with count 1; the counts held for other rules stay. */
  lemma CountedAdded(ix: Index, q: Rule, r: Rule)
    requires Valid(ix) && AllScored(ix) && q.score.Some? && CountOf(q) == 0 && q.rhs != []
    requires SearchRule(ix, q).None?
    ensures Valid(Counted(ix, q)) && AllScored(Counted(ix, q))
    ensures CountFor(Counted(ix, q), r) == CountFor(ix, r) + (if SameRule(q, r) then 1 else 0)
  {
    CountedAddedShape(ix, q);
    var ix1 := Added(ix, q);
    var n := |ix.store|;
    assert At(ix1.store, n) == q;
    RightMembers(ix);
    if SameRule(q, r) {
      SearchRuleIs(ix1, r, n);
      if SearchRule(ix, r).Some? {
        SearchRuleIs(ix, q, SearchRule(ix, r).value);
        assert false;
      }
    } else {
      CountedAddedOther(ix, q, r);
    }
  }

  lemma CountedAddedOther(ix: Index, q: Rule, r: Rule)
    requires Valid(ix) && AllScored(ix) && q.score.Some? && CountOf(q) == 0 && q.rhs != []
    requires SearchRule(ix, q).None? && !SameRule(q, r)
    ensures CountFor(Counted(ix, q), r) == CountFor(ix, r)
  {
    CountedAddedShape(ix, q);
    if SearchRule(ix, r).Some? {
      AddedKeepsHit(ix, q, r);
    } else {
      AddedKeepsMiss(ix, q, r);
    }
  }

  /** A rule searchRule found before an addRule it still finds, at the same object. */
  lemma AddedKeepsHit(ix: Index, q: Rule, r: Rule)
    requires Valid(ix) && q.rhs != [] && SearchRule(ix, q).None? && SearchRule(ix, r).Some?
    ensures SearchRule(Added(ix, q), r) == SearchRule(ix, r) && SearchRule(ix, r).value < |ix.store|
    ensures At(Added(ix, q).store, SearchRule(ix, r).value) == At(ix.store, SearchRule(ix, r).value)
  {
    var id := SearchRule(ix, r).value;
    var ix1 := Added(ix, q);
    AddedFresh(ix, q);
    AddedKeeps(ix, q, Scored);
    AddedValid(ix, q);
    SearchRuleExact(ix, r);
    RightMembers(ix);
    assert id < |ix.store|;
    assert At(ix1.store, id) == At(ix.store, id);
    SearchRuleIs(ix1, r, id);
  }

  /** A rule searchRule missed before an addRule of a different rule it still misses. */
  lemma AddedKeepsMiss(ix: Index, q: Rule, r: Rule)
    requires Valid(ix) && q.rhs != [] && SearchRule(ix, q).None? && SearchRule(ix, r).None? && !SameRule(q, r)
    ensures SearchRule(Added(ix, q), r).None?
  {
    var ix1 := Added(ix, q);
    AddedValid(ix, q);
    forall id | id in ix1.rules ensures !SameRule(At(ix1.store, id), r) {
      AddedNoMatch(ix, q, r, id);
    }
    SearchRuleMisses(ix1, r);
  }

  lemma AddedNoMatch(ix: Index, q: Rule, r: Rule, id: nat)
    requires Valid(ix) && SearchRule(ix, q).None? && SearchRule(ix, r).None? && !SameRule(q, r)
    requires id in Added(ix, q).rules
    ensures !SameRule(At(Added(ix, q).store, id), r)
  {
    var ix1 := Added(ix, q);
    AddedFresh(ix, q);
    if id in ix.rules {
      var k :| 0 <= k < |ix.rules| && ix.rules[k] == id;
      assert At(ix1.store, id) == At(ix.store, id);
      if SameRule(At(ix1.store, id), r) {
        SearchRuleIs(ix, r, id);
      }
    } else {
      assert At(ix1.store, id) == q;
    }
  }

  /** Counting keeps rules that were counted counted. */
  lemma CountedPositive(ix: Index, q: Rule)
    requires Valid(ix) && AllScored(ix) && q.score.Some? && RulesAll(ix, Positive)
    ensures RulesAll(Counted(ix, q), Positive)
  {
    var ix' := Counted(ix, q);
    match SearchRule(ix, q)
    case Some(id0) =>
      IncrementKeeps(ix, id0);
      forall k | 0 <= k < |ix'.rules| ensures Positive(At(ix'.store, ix'.rules[k])) {
        assert Positive(At(ix.store, ix.rules[k]));
        assert Scored(At(ix'.store, ix'.rules[k]));
      }
    case None =>
      AddedFresh(ix, q);
      AddedKeeps(ix, q, Scored);
      var ix1 := Added(ix, q);
      IncrementKeeps(ix1, |ix.store|);
      forall k | 0 <= k < |ix'.rules| ensures Positive(At(ix'.store, ix'.rules[k])) {
        var id := ix'.rules[k];
        assert Scored(At(ix'.store, id));
        if id != |ix.store| {
          assert id in ix1.rules;
          RulesAllAt(ix, Positive, id);
          StoreGrowsAt(ix.store, ix1.store, id);
        }
      }
  }

  /** The counting theorem: after counting the rules rs, the count held for every rule r is the
      count held before plus the number of rules of rs equal to r; the grammar stays valid, and
      counted rules stay counted. */
  lemma {:induction false} CountAllCounts(ix: Index, rs: seq<Rule>)
    requires Valid(ix) && AllScored(ix) && AllExtracted(rs, true)
    ensures Valid(CountAll(ix, rs)) && AllScored(CountAll(ix, rs))
    ensures forall r :: CountFor(CountAll(ix, rs), r) == CountFor(ix, r) + Occurrences(rs, r)
    ensures RulesAll(ix, Positive) ==> RulesAll(CountAll(ix, rs), Positive)
    decreases |rs|
  {
    if rs != [] {
      var init := rs[..|rs| - 1];
      var q := rs[|rs| - 1];
      CountAllCounts(ix, init);
      CountedStep(CountAll(ix, init), q);
    }
  }

  /** Counting one extracted rule: the grammar stays valid, the count held for each rule grows
      by one exactly when the rule equals the counted one, and counted rules stay counted. */
  lemma CountedStep(ix: Index, q: Rule)
    requires Valid(ix) && AllScored(ix) && q.score == Some(Score(0.0, 0)) && q.rhs != []
    ensures Valid(Counted(ix, q)) && AllScored(Counted(ix, q))
    ensures forall r :: CountFor(Counted(ix, q), r) == CountFor(ix, r) + (if SameRule(q, r) then 1 else 0)
    ensures RulesAll(ix, Positive) ==> RulesAll(Counted(ix, q), Positive)
  {
    forall r ensures CountFor(Counted(ix, q), r) == CountFor(ix, r) + (if SameRule(q, r) then 1 else 0) {
      if SearchRule(ix, q).Some? {
        CountedFound(ix, q, r, SearchRule(ix, q).value);
      } else {
        CountedAdded(ix, q, r);
      }
    }
    if SearchRule(ix, q).Some? {
      CountedFound(ix, q, q, SearchRule(ix, q).value);
    } else {
      CountedAdded(ix, q, q);
    }
    if RulesAll(ix, Positive) {
      CountedPositive(ix, q);
    }
  }

  /** The node's own rule counted, and no child yet. */
  lemma CountAllOwn(ix: Index, n: ParseNode, oracle: Oracle, after: Index)
    requires Readable(n)
    requires after == match NodeRule(n, oracle, true) case Some(r) => Counted(ix, r) case None => ix
    ensures after == CountAll(ix, OwnRule(n, oracle, true))
  {
    var own := OwnRule(n, oracle, true);
    if own != [] {
      assert own[..0] == [];
    }
  }

  /** The first half of the probabilistic addRules: the node's own rule is searched; a miss
      adds it, and then the object found or added is incremented. */
  method CountNodeRule(ix: Index, n: ParseNode, oracle: Oracle) returns (ix': Index)
    requires Readable(n)
    ensures ix' == CountAll(ix, OwnRule(n, oracle, true))
  {
    var newRule := NodeRule(n, oracle, true);
    ix' := ix;
    if newRule.Some? {
      var existedRule := SearchRule(ix', newRule.value);
      if existedRule.None? {
        ix' := AddRule(ix', newRule.value);
        ix' := Increment(ix', |ix.store|);
      } else {
        ix' := Increment(ix', existedRule.value);
      }
    }
    CountAllOwn(ix, n, oracle, ix');
  }

  /** ProbabilisticContextFreeGrammar.addRules: count the node's rule, then recurse into every
      child that has children. */
  method AddCountedRules(ix: Index, n: ParseNode, oracle: Oracle) returns (ix': Index)
    requires Readable(n)
    ensures ix' == CountAll(ix, TreeRules(n, oracle, true))
    decreases n
  {
    ix' := CountNodeRule(ix, n, oracle);
    ghost var start := ix';
    var i := 0;
    while i < |n.children|
      invariant 0 <= i <= |n.children|
      invariant ix' == CountedChildren(start, n.children[..i], oracle)
    {
      var childNode := n.children[i];
      CountedChildrenStep(start, n.children, i, oracle);
      if childNode.children != [] {
        ix' := AddCountedRules(ix', childNode, oracle);
      }
      i := i + 1;
    }
    assert n.children[..i] == n.children;
    CountedChildrenIs(start, n.children, oracle);
    CountAllAppend(ix, OwnRule(n, oracle, true), ChildRules(n.children, oracle, true));
  }

  /** Tree induction from an empty grammar: a rule is in the grammar exactly when some inner
      node produces it, and its count is the number of inner nodes producing it. */
  lemma InducedCounts(rs: seq<Rule>)
    requires AllExtracted(rs, true)
    ensures Valid(CountAll(Index([], [], []), rs)) && RulesAll(CountAll(Index([], [], []), rs), Positive)
    ensures forall r :: CountFor(CountAll(Index([], [], []), rs), r) == Occurrences(rs, r)
    ensures forall r :: SearchRule(CountAll(Index([], [], []), rs), r).Some? <==> Occurrences(rs, r) > 0
  {
    var ix := Index([], [], []);
    EmptyValid();
    CountAllCounts(ix, rs);
    var ix' := CountAll(ix, rs);
    forall r ensures SearchRule(ix', r).Some? <==> Occurrences(rs, r) > 0 {
      if SearchRule(ix', r).Some? {
        RulesAllAt(ix', Positive, SearchRule(ix', r).value);
      }
    }
  }
}
