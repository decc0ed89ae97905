/** ProbabilisticContextFreeGrammar.probability: the log-probability of a parse tree under the
    grammar, the sum of the logarithms of the probabilities of the rules used at its nodes.
    Math.log is the parameter `ln`. */
module TreeProbability {
  import opened Wrappers
  import opened Rules
  import opened RuleIndex
  import opened ParseTrees
  import opened Treebank
  import opened Normalization

  /** probability(parseNode): 0 for a leaf.  For a node with children, the log of the
      probability of the grammar's rule equal to the node's rule, plus, unless that rule is
      TERMINAL, the probabilities of all children.  None where the Java code fails with a null
      pointer: the node has no symbol, its rule cannot be built, or searchRule does not find it. */
  function NodeLogProbability(ix: Index, n: ParseNode, oracle: Oracle, ln: real -> real): Option<real>
    decreases n, 1
  {
    if n.children == [] then Some(0.0)
    else if n.data.None? then None
    else
      match NodeRule(n, oracle, true)
      case None => None
      case Some(r) =>
        match SearchRule(ix, r)
        case None => None
        case Some(id) =>
          var own := ln(Probability(At(ix.store, id)));
          if At(ix.store, id).kind == Some(Terminal) then Some(own)
          else
            match ChildrenLogProbability(ix, n.children, oracle, ln)
            case None => None
            case Some(s) => Some(own + s)
  }

  /** The children's probabilities added up, left to right. */
  function ChildrenLogProbability(ix: Index, ns: seq<ParseNode>, oracle: Oracle, ln: real -> real): Option<real>
    decreases ns, 0
  {
    if ns == [] then Some(0.0)
    else
      match ChildrenLogProbability(ix, ns[..|ns| - 1], oracle, ln)
      case None => None
      case Some(s) =>
        match NodeLogProbability(ix, ns[|ns| - 1], oracle, ln)
        case None => None
        case Some(t) => Some(s + t)
  }

  /** Once a prefix of the children has no probability, neither have all of them. */
  lemma {:induction false} ChildrenUndefined(ix: Index, ns: seq<ParseNode>, i: int, oracle: Oracle, ln: real -> real)
    requires 0 <= i <= |ns| && ChildrenLogProbability(ix, ns[..i], oracle, ln).None?
    ensures ChildrenLogProbability(ix, ns, oracle, ln).None?
    decreases |ns| - i
  {
    if i < |ns| {
      assert ns[..i + 1][..i] == ns[..i];
      ChildrenUndefined(ix, ns, i + 1, oracle, ln);
    } else {
      assert ns[..i] == ns;
    }
  }

  /** One more child: its probability added to the sum over the children before it. */
  lemma ChildrenStep(ix: Index, ns: seq<ParseNode>, i: int, s: real, oracle: Oracle, ln: real -> real)
    requires 0 <= i < |ns| && ChildrenLogProbability(ix, ns[..i], oracle, ln) == Some(s)
    ensures NodeLogProbability(ix, ns[i], oracle, ln).None? ==> ChildrenLogProbability(ix, ns[..i + 1], oracle, ln).None?
    ensures NodeLogProbability(ix, ns[i], oracle, ln).Some? ==>
      ChildrenLogProbability(ix, ns[..i + 1], oracle, ln) == Some(s + NodeLogProbability(ix, ns[i], oracle, ln).value)
  {
    assert ns[..i + 1][..i] == ns[..i];
    assert ns[..i + 1][i] == ns[i];
  }

  /** probability(parseNode) as written: the log-probability of the node's rule, then, unless
      that rule is TERMINAL, each child's probability added to the sum. */
  method NodeProbability(ix: Index, n: ParseNode, oracle: Oracle, ln: real -> real) returns (p: Option<real>)
    ensures p == NodeLogProbability(ix, n, oracle, ln)
    decreases n, 1
  {
    if n.children == [] {
      return Some(0.0);
    }
    if n.data.None? {
      return None;
    }
    var rule := NodeRule(n, oracle, true);
    if rule.None? {
      return None;
    }
    var existedRule := SearchRule(ix, rule.value);
    if existedRule.None? {
      return None;
    }
    var sum := ln(Probability(At(ix.store, existedRule.value)));
    if At(ix.store, existedRule.value).kind == Some(Terminal) {
      return Some(sum);
    }
    p := AddChildProbabilities(ix, n.children, sum, oracle, ln);
  }

  /** The loop of probability(parseNode): sum += probability(child) for each child in turn. */
  method AddChildProbabilities(ix: Index, ns: seq<ParseNode>, sum0: real, oracle: Oracle, ln: real -> real)
    returns (p: Option<real>)
    ensures ChildrenLogProbability(ix, ns, oracle, ln).None? ==> p.None?
    ensures ChildrenLogProbability(ix, ns, oracle, ln).Some? ==> p == Some(sum0 + ChildrenLogProbability(ix, ns, oracle, ln).value)
    decreases ns, 0
  {
    var sum := sum0;
    var i := 0;
    while i < |ns|
      invariant 0 <= i <= |ns|
      invariant ChildrenLogProbability(ix, ns[..i], oracle, ln) == Some(sum - sum0)
    {
      ChildrenStep(ix, ns, i, sum - sum0, oracle, ln);
      var childProbability := NodeProbability(ix, ns[i], oracle, ln);
      if childProbability.None? {
        ChildrenUndefined(ix, ns, i + 1, oracle, ln);
        return None;
      }
      sum := sum + childProbability.value;
      i := i + 1;
    }
    assert ns[..i] == ns;
    return Some(sum);
  }

  /** Every rule probability in (0, 1], as ProbabilityBounds proves after normalisation. */
  predicate Probabilities(ix: Index)
  {
    forall k :: 0 <= k < |ix.rules| ==> 0.0 < Probability(At(ix.store, ix.rules[k])) <= 1.0
  }

  /** What the logarithm gives on (0, 1]: a number that is not positive. */
  ghost predicate LogOfFraction(ln: real -> real)
  {
    forall p :: 0.0 < p <= 1.0 ==> ln(p) <= 0.0
  }

  /** A log-probability is never positive. */
  lemma {:induction false} NodeLogProbabilityBound(ix: Index, n: ParseNode, oracle: Oracle, ln: real -> real)
    requires Probabilities(ix) && LogOfFraction(ln)
    ensures NodeLogProbability(ix, n, oracle, ln).Some? ==> NodeLogProbability(ix, n, oracle, ln).value <= 0.0
    decreases n, 1
  {
    if n.children != [] && n.data.Some? && NodeRule(n, oracle, true).Some? {
      var r := NodeRule(n, oracle, true).value;
      if SearchRule(ix, r).Some? {
        var id := SearchRule(ix, r).value;
        var k :| 0 <= k < |ix.rules| && ix.rules[k] == id;
        assert ln(Probability(At(ix.store, id))) <= 0.0;
        ChildrenLogProbabilityBound(ix, n.children, oracle, ln);
      }
    }
  }

  lemma {:induction false} ChildrenLogProbabilityBound(ix: Index, ns: seq<ParseNode>, oracle: Oracle, ln: real -> real)
    requires Probabilities(ix) && LogOfFraction(ln)
    ensures ChildrenLogProbability(ix, ns, oracle, ln).Some? ==> ChildrenLogProbability(ix, ns, oracle, ln).value <= 0.0
    decreases ns, 0
  {
    if ns != [] {
      ChildrenLogProbabilityBound(ix, ns[..|ns| - 1], oracle, ln);
      NodeLogProbabilityBound(ix, ns[|ns| - 1], oracle, ln);
    }
  }

  /** Every node carries a symbol. */
  predicate AllNamed(n: ParseNode)
    decreases n
  {
    && n.data.Some?
    && forall k :: 0 <= k < |n.children| ==> AllNamed(n.children[k])
  }

  /** searchRule finds every rule of rs. */
  predicate AllFound(ix: Index, rs: seq<Rule>)
  {
    forall j :: 0 <= j < |rs| ==> SearchRule(ix, rs[j]).Some?
  }

  lemma AllFoundSplit(ix: Index, a: seq<Rule>, b: seq<Rule>)
    requires AllFound(ix, a + b)
    ensures AllFound(ix, a) && AllFound(ix, b)
  {
    forall j | 0 <= j < |a| ensures SearchRule(ix, a[j]).Some? {
      assert (a + b)[j] == a[j];
    }
    forall j | 0 <= j < |b| ensures SearchRule(ix, b[j]).Some? {
      assert (a + b)[|a| + j] == b[j];
    }
  }

  /** A tree whose every node carries a symbol and whose every rule the grammar holds has a
      probability: the Java code then throws no exception. */
  lemma {:induction false} NodeLogProbabilityDefined(ix: Index, n: ParseNode, oracle: Oracle, ln: real -> real)
    requires AllNamed(n) && n.children != []
    requires InnerNamed(n) && AllFound(ix, TreeRules(n, oracle, true))
    ensures NodeLogProbability(ix, n, oracle, ln).Some?
    decreases n, 1
  {
    var own := OwnRule(n, oracle, true);
    AllFoundSplit(ix, own, ChildRules(n.children, oracle, true));
    assert own == [NodeRule(n, oracle, true).value];
    assert SearchRule(ix, own[0]).Some?;
    ChildrenLogProbabilityDefined(ix, n.children, oracle, ln);
  }

  lemma {:induction false} ChildrenLogProbabilityDefined(ix: Index, ns: seq<ParseNode>, oracle: Oracle, ln: real -> real)
    requires forall k :: 0 <= k < |ns| ==> AllNamed(ns[k])
    requires forall k :: 0 <= k < |ns| ==> InnerNamed(ns[k])
    requires AllFound(ix, ChildRules(ns, oracle, true))
    ensures ChildrenLogProbability(ix, ns, oracle, ln).Some?
    decreases ns, 0
  {
    if ns != [] {
      var init := ns[..|ns| - 1];
      var last := ns[|ns| - 1];
      AllFoundSplit(ix, ChildRules(init, oracle, true),
        if last.children != [] then TreeRules(last, oracle, true) else []);
      ChildrenLogProbabilityDefined(ix, init, oracle, ln);
      if last.children != [] {
        NodeLogProbabilityDefined(ix, last, oracle, ln);
      }
    }
  }

  /** After normalisation every probability is in (0, 1], so every tree's log-probability
      under the grammar is at most 0. */
  lemma NormalizedTreeBound(ix: Index, ix': Index, n: ParseNode, oracle: Oracle, ln: real -> real)
    requires Valid(ix) && RulesAll(ix, Positive) && NormalizedFrom(ix, ix') && LogOfFraction(ln)
    ensures NodeLogProbability(ix', n, oracle, ln).Some? ==> NodeLogProbability(ix', n, oracle, ln).value <= 0.0
  {
    forall k | 0 <= k < |ix'.rules| ensures 0.0 < Probability(At(ix'.store, ix'.rules[k])) <= 1.0 {
      ProbabilityBounds(ix, ix', ix'.rules[k]);
    }
    NodeLogProbabilityBound(ix', n, oracle, ln);
  }
}
