/** The rule-type pass and the conversion to Chomsky normal form shared by ContextFreeGrammar,
    its probabilistic subclass and the legacy copy, as operations on a rule index.  The three
    grammars differ only in the rule pass 1 adds (plain or with a probability), the rule pass 2
    adds (plain or with probability 1) and in the legacy copy's rewrite loop, which runs over
    both lists; a Flavour says which one runs. */
module NormalForm {
  import opened Wrappers
  import opened Rules
  import opened SortedLists
  import opened RuleIndex
  import ParseTrees
  import JavaString
  import RuleOrder

  datatype Flavour = Plain | Probabilistic | Legacy

  predicate IsScored(f: Flavour)
  {
    f == Probabilistic
  }

  // ---------------------------------------------------------------- updateTypes

  /** A rule the index can type: a right-hand side to read the first symbol of. */
  predicate HasRight(r: Rule)
  {
    r.rhs != []
  }

  /** A typed rule whose type agrees with its right-hand side. */
  predicate WellTyped(r: Rule)
  {
    r.rhs != [] && r.kind.Some? && Fits(r)
  }

  /** The names the first loop of updateTypes collects: every left-hand side of `rules`. */
  function NonTerminals(ix: Index): (nt: set<Symbol>)
    ensures forall x :: x in nt <==> LeftSideOf(ix, x)
  {
    set k | 0 <= k < |ix.rules| :: At(ix.store, ix.rules[k]).lhs
  }

  /** The type the second loop gives a rule: by the length of the right-hand side, and for one
      symbol TERMINAL when it is a terminal, punctuation or no left-hand side of the grammar. */
  function Classify(r: Rule, nt: set<Symbol>, oracle: ParseTrees.Oracle): (t: RuleType)
    requires r.rhs != []
    ensures Fits(r.(kind := Some(t)))
    ensures |r.rhs| == 1 ==> (t == Terminal <==>
      oracle.isTerminal(r.rhs[0]) || oracle.isPunctuation(r.rhs[0]) || r.rhs[0] !in nt)
  {
    if |r.rhs| > 2 then MultipleNonTerminal
    else if |r.rhs| == 2 then TwoNonTerminal
    else if oracle.isTerminal(r.rhs[0]) || oracle.isPunctuation(r.rhs[0]) || r.rhs[0] !in nt then Terminal
    else SingleNonTerminal
  }

  function Retype(r: Rule, nt: set<Symbol>, oracle: ParseTrees.Oracle): Rule
    requires r.rhs != []
  {
    r.(kind := Some(Classify(r, nt, oracle)))
  }

  /** updateTypes: every object of `rules` gets the type Classify gives it; nothing else changes. */
  function Retyped(ix: Index, oracle: ParseTrees.Oracle): Index
    requires RulesAll(ix, HasRight)
  {
    var nt := NonTerminals(ix);
    Index(seq(|ix.store|, i requires 0 <= i < |ix.store| =>
      if i in ix.rules then Retype(ix.store[i], nt, oracle) else ix.store[i]), ix.rules, ix.right)
  }

  /** After updateTypes every rule is typed and its type fits its right-hand side; both sides,
      counts and probabilities are left alone, so validity and consistency survive. */
  lemma RetypedSpec(ix: Index, oracle: ParseTrees.Oracle)
    requires RulesAll(ix, HasRight)
    ensures Retyped(ix, oracle).rules == ix.rules && Retyped(ix, oracle).right == ix.right
    ensures SameShapes(ix.store, Retyped(ix, oracle).store)
    ensures forall i :: 0 <= i < |ix.store| ==> Retyped(ix, oracle).store[i].score == ix.store[i].score
    ensures forall k :: 0 <= k < |ix.rules| ==>
      At(Retyped(ix, oracle).store, ix.rules[k]) == Retype(At(ix.store, ix.rules[k]), NonTerminals(ix), oracle)
    ensures Consistent(ix) ==> RulesAll(Retyped(ix, oracle), WellTyped)
    ensures Consistent(ix) ==> Consistent(Retyped(ix, oracle))
    ensures Valid(ix) ==> Valid(Retyped(ix, oracle))
    ensures AllScored(ix) ==> AllScored(Retyped(ix, oracle))
  {
    var ix' := Retyped(ix, oracle);
    SameShapesValid(ix, ix'.store);
    forall k | 0 <= k < |ix.rules| && ix.rules[k] < |ix.store|
      ensures At(ix'.store, ix.rules[k]) == Retype(At(ix.store, ix.rules[k]), NonTerminals(ix), oracle)
    {
      assert HasRight(At(ix.store, ix.rules[k]));
    }
    if Consistent(ix) {
      forall k | 0 <= k < |ix.rules| ensures WellTyped(At(ix'.store, ix.rules[k])) {
        assert HasRight(At(ix.store, ix.rules[k]));
      }
    }
    if AllScored(ix) {
      forall k | 0 <= k < |ix.rules| ensures Scored(At(ix'.store, ix.rules[k])) {
        assert Scored(At(ix.store, ix.rules[k]));
      }
    }
  }

  /** After updateTypes the type of a one-symbol rule depends on its right-hand side alone, so
      no TERMINAL rule A -> a shares its a with a SINGLE_NON_TERMINAL rule: pass 1 may not take
      out any TERMINAL rule of such a grammar. */
  lemma RetypedTerminalsStay(ix: Index, oracle: ParseTrees.Oracle)
    requires Consistent(ix) && RulesAll(ix, HasRight)
    ensures var ix' := Retyped(ix, oracle);
      forall id :: id in ix'.rules && At(ix'.store, id).kind == Some(Terminal) ==> !Replaceable(ix', At(ix'.store, id))
  {
    var ix' := Retyped(ix, oracle);
    RetypedSpec(ix, oracle);
    forall id | id in ix'.rules && At(ix'.store, id).kind == Some(Terminal)
      ensures !Replaceable(ix', At(ix'.store, id))
    {
      var j :| 0 <= j < |ix.rules| && ix.rules[j] == id;
      assert HasRight(At(ix.store, ix.rules[j]));
    }
  }

  /** updateTypes as written: a loop collecting the left-hand sides into a set, then a loop
      setting the type of each object of `rules` in place. */
  method UpdateTypes(ix: Index, oracle: ParseTrees.Oracle) returns (ix': Index)
    requires Consistent(ix) && RulesAll(ix, HasRight)
    ensures ix' == Retyped(ix, oracle)
  {
    var nt: set<Symbol> := {};
    for k := 0 to |ix.rules|
      invariant forall x :: x in nt <==> exists m :: 0 <= m < k && At(ix.store, ix.rules[m]).lhs == x
    {
      nt := nt + {At(ix.store, ix.rules[k]).lhs};
    }
    assert nt == NonTerminals(ix);
    var store := ix.store;
    for k := 0 to |ix.rules|
      invariant |store| == |ix.store|
      invariant forall i :: 0 <= i < |store| ==>
        store[i] == if i in ix.rules[..k] then Retype(ix.store[i], nt, oracle) else ix.store[i]
    {
      var id := ix.rules[k];
      assert HasRight(At(ix.store, ix.rules[k]));
      var r := store[id];
      var t;
      if |r.rhs| > 2 {
        t := MultipleNonTerminal;
      } else if |r.rhs| == 2 {
        t := TwoNonTerminal;
      } else if oracle.isTerminal(r.rhs[0]) || oracle.isPunctuation(r.rhs[0]) || r.rhs[0] !in nt {
        t := Terminal;
      } else {
        t := SingleNonTerminal;
      }
      store := store[id := r.(kind := Some(t))];
      assert ix.rules[..k + 1] == ix.rules[..k] + [id];
    }
    assert ix.rules[..|ix.rules|] == ix.rules;
    return Index(store, ix.rules, ix.right);
  }

  // ---------------------------------------------------------------- the two candidate searches

  /** The test of getSingleNonTerminalCandidateToRemove: a SINGLE_NON_TERMINAL rule that is not
      X -> X and whose right-hand symbol is not in the removed list. */
  function SingleTest(store: seq<Rule>, removed: seq<Symbol>): nat -> bool
  {
    (id: nat) => var r := At(store, id);
      r.kind == Some(SingleNonTerminal) && r.rhs != [] && !LeftRecursive(r) && r.rhs[0] !in removed
  }

  /** Position k of `rules` is the first to pass the test. */
  predicate FirstSingleAt(ix: Index, removed: seq<Symbol>, k: int)
  {
    && 0 <= k < |ix.rules| && SingleTest(ix.store, removed)(ix.rules[k])
    && forall m :: 0 <= m < k ==> !SingleTest(ix.store, removed)(ix.rules[m])
  }

  /** getSingleNonTerminalCandidateToRemove: the right-hand symbol of the first rule in `rules`
      passing the test, or null (None). */
  function SingleCandidate(ix: Index, removed: seq<Symbol>): (c: Option<Symbol>)
    ensures c.None? <==> forall k :: 0 <= k < |ix.rules| ==> !SingleTest(ix.store, removed)(ix.rules[k])
    ensures c.Some? ==> c.value !in removed && exists k :: FirstSingleAt(ix, removed, k) && At(ix.store, ix.rules[k]).rhs[0] == c.value
  {
    var k := First(ix.rules, SingleTest(ix.store, removed));
    if k < 0 then None else Some(At(ix.store, ix.rules[k]).rhs[0])
  }

  method GetSingleCandidate(ix: Index, removed: seq<Symbol>) returns (c: Option<Symbol>)
    ensures c == SingleCandidate(ix, removed)
  {
    var k := FindFirst(ix.rules, SingleTest(ix.store, removed));
    if k < 0 {
      return None;
    }
    return Some(At(ix.store, ix.rules[k]).rhs[0]);
  }

  /** Position k of `rules` holds the first MULTIPLE_NON_TERMINAL object. */
  predicate FirstMultipleAt(ix: Index, k: int)
  {
    && 0 <= k < |ix.rules| && At(ix.store, ix.rules[k]).kind == Some(MultipleNonTerminal)
    && forall m :: 0 <= m < k ==> At(ix.store, ix.rules[m]).kind != Some(MultipleNonTerminal)
  }

  /** getMultipleNonTerminalCandidateToUpdate: the first MULTIPLE_NON_TERMINAL object of `rules`,
      or null (None). */
  function MultipleCandidate(ix: Index): (c: Option<nat>)
    ensures c.None? <==> forall k :: 0 <= k < |ix.rules| ==> At(ix.store, ix.rules[k]).kind != Some(MultipleNonTerminal)
    ensures c.Some? ==> exists k :: FirstMultipleAt(ix, k) && ix.rules[k] == c.value
  {
    var k := First(ix.rules, OfKind(ix.store, MultipleNonTerminal));
    if k < 0 then None else Some(ix.rules[k])
  }

  method GetMultipleCandidate(ix: Index) returns (c: Option<nat>)
    ensures c == MultipleCandidate(ix)
  {
    var k := FindFirst(ix.rules, OfKind(ix.store, MultipleNonTerminal));
    if k < 0 {
      return None;
    }
    return Some(ix.rules[k]);
  }

  // ---------------------------------------------------------------- pass 1: removeSingleNonTerminalFromRightHandSide

  /** No rule of `rules` is X -> p for a symbol p of the removed list. */
  predicate NoUnitOnto(ix: Index, removed: seq<Symbol>)
  {
    forall k, p :: 0 <= k < |ix.rules| && p in removed ==> At(ix.store, ix.rules[k]).rhs != [p]
  }

  /** A right-hand side together with the type of the rule that carries it. */
  type Shape = (seq<Symbol>, Option<RuleType>)

  /** The shapes of the rules of `rules`. */
  function Shapes(ix: Index): (rs: set<Shape>)
    ensures forall k :: 0 <= k < |ix.rules| ==> (At(ix.store, ix.rules[k]).rhs, At(ix.store, ix.rules[k]).kind) in rs
  {
    set k | 0 <= k < |ix.rules| :: (At(ix.store, ix.rules[k]).rhs, At(ix.store, ix.rules[k]).kind)
  }

  /** The symbols that SINGLE_NON_TERMINAL shapes point at. */
  function Singles(rs: set<Shape>): (hs: set<Symbol>)
    ensures forall s :: s in rs && s.1 == Some(SingleNonTerminal) && s.0 != [] ==> s.0[0] in hs
  {
    set s | s in rs && s.1 == Some(SingleNonTerminal) && s.0 != [] :: s.0[0]
  }

  /** Some SINGLE_NON_TERMINAL rule of `rules` is X -> a. */
  predicate UnitOnto(ix: Index, a: Symbol)
  {
    exists k :: 0 <= k < |ix.rules| && At(ix.store, ix.rules[k]).kind == Some(SingleNonTerminal) && At(ix.store, ix.rules[k]).rhs == [a]
  }

  /** In a well-typed grammar the symbols SINGLE_NON_TERMINAL shapes point at are exactly those
      some unit rule points at. */
  lemma SinglesOnto(ix: Index, a: Symbol)
    requires RulesAll(ix, WellTyped)
    ensures a in Singles(Shapes(ix)) <==> UnitOnto(ix, a)
  {
    if a in Singles(Shapes(ix)) {
      var s :| s in Shapes(ix) && s.1 == Some(SingleNonTerminal) && s.0 != [] && s.0[0] == a;
      var k :| 0 <= k < |ix.rules| && (At(ix.store, ix.rules[k]).rhs, At(ix.store, ix.rules[k]).kind) == s;
      assert WellTyped(At(ix.store, ix.rules[k]));
    }
    if UnitOnto(ix, a) {
      var k :| 0 <= k < |ix.rules| && At(ix.store, ix.rules[k]).kind == Some(SingleNonTerminal) && At(ix.store, ix.rules[k]).rhs == [a];
      assert (At(ix.store, ix.rules[k]).rhs, At(ix.store, ix.rules[k]).kind) in Shapes(ix);
    }
  }

  /** What pass 1 keeps true of every rule: well typed, a ProbabilisticRule in the probabilistic
      grammar, and made of a left-hand side and a shape of the grammar it started from. */
  function Pass1Rule(scored: bool, lhss: set<Symbol>, shapes: set<Shape>): Rule -> bool
  {
    (r: Rule) => WellTyped(r) && (scored ==> Scored(r)) && r.lhs in lhss && (r.rhs, r.kind) in shapes
  }

  /** The rule pass 1 adds for a unit rule X -> Y and a rule Y -> beta: X -> beta with the type of
      the latter; in the probabilistic grammar with the product of the two probabilities. */
  function Expansion(rule: Rule, candidate: Rule, scored: bool): (r: Rule)
    requires scored ==> rule.score.Some? && candidate.score.Some?
    ensures r.lhs == rule.lhs && r.rhs == candidate.rhs && r.kind == candidate.kind
    ensures scored ==> r.score == Some(Score(rule.score.value.probability * candidate.score.value.probability, 0))
    ensures !scored ==> r.score.None?
  {
    if scored then
      NewProbabilisticRule(rule.lhs, candidate.rhs, candidate.kind, rule.score.value.probability * candidate.score.value.probability)
    else Rule(rule.lhs, candidate.rhs, candidate.kind, None)
  }

  /** One addRule of the innermost loop.  The rule added onto the symbol being removed can only
      be the unit rule itself, already present, so no new unit rule onto it appears. */
  lemma ExpansionAdded(ix: Index, n: Rule, rule: nat, c: Symbol, removed: seq<Symbol>, p: Rule -> bool)
    requires Valid(ix) && RulesAll(ix, p) && p(n) && n.rhs != [] && NoUnitOnto(ix, removed)
    requires forall q :: q in removed ==> n.rhs != [q]
    requires rule in ix.rules && At(ix.store, rule).rhs == [c] && n.lhs == At(ix.store, rule).lhs
    ensures Valid(Added(ix, n)) && RulesAll(Added(ix, n), p) && NoUnitOnto(Added(ix, n), removed)
    ensures StoreGrows(ix.store, Added(ix, n).store)
    ensures forall id :: id in ix.rules ==> id in Added(ix, n).rules
    ensures forall id :: id in Added(ix, n).rules && At(Added(ix, n).store, id).rhs == [c] ==> id in ix.rules
    ensures HasRule(Added(ix, n), n.lhs, n.rhs)
  {
    AddedValid(ix, n);
    AddedKeeps(ix, n, p);
    ExpansionNoUnit(ix, n, removed);
    ExpansionNotOnto(ix, n, rule, c);
    ExpansionPresent(ix, n);
  }

  /** addRule of a rule that is no unit rule onto a removed symbol adds none. */
  lemma ExpansionNoUnit(ix: Index, n: Rule, removed: seq<Symbol>)
    requires Consistent(ix) && NoUnitOnto(ix, removed)
    requires forall q :: q in removed ==> n.rhs != [q]
    ensures NoUnitOnto(Added(ix, n), removed)
  {
    AddedKeeps(ix, n, (r: Rule) => true);
    NoUnitKept(ix, Added(ix, n), n, removed);
  }

  /** An index whose objects are the old ones, unchanged, or n has no unit rule onto a removed
      symbol when the old one had none and n is none. */
  lemma NoUnitKept(ix: Index, ix': Index, n: Rule, removed: seq<Symbol>)
    requires Consistent(ix) && NoUnitOnto(ix, removed)
    requires forall q :: q in removed ==> n.rhs != [q]
    requires StoreGrows(ix.store, ix'.store)
    requires forall id :: id in ix'.rules ==> id in ix.rules || At(ix'.store, id) == n
    ensures NoUnitOnto(ix', removed)
  {
    forall j, q | 0 <= j < |ix'.rules| && q in removed ensures At(ix'.store, ix'.rules[j]).rhs != [q] {
      NotUnitAt(ix, ix', n, ix'.rules[j], q, removed);
    }
  }

  /** One object of the index after addRule(n): old, so no unit rule onto q, or n itself. */
  lemma NotUnitAt(ix: Index, ix': Index, n: Rule, id: nat, q: Symbol, removed: seq<Symbol>)
    requires Consistent(ix) && NoUnitOnto(ix, removed) && q in removed && n.rhs != [q]
    requires StoreGrows(ix.store, ix'.store)
    requires id in ix.rules || At(ix'.store, id) == n
    ensures At(ix'.store, id).rhs != [q]
  {
    if id in ix.rules {
      var k :| 0 <= k < |ix.rules| && ix.rules[k] == id;
      StoreGrowsAt(ix.store, ix'.store, id);
    }
  }

  /** The rule added onto c, if any, is the unit rule `rule` itself, which is already there. */
  lemma ExpansionNotOnto(ix: Index, n: Rule, rule: nat, c: Symbol)
    requires Valid(ix) && rule in ix.rules && At(ix.store, rule).rhs == [c] && n.lhs == At(ix.store, rule).lhs
    ensures forall id :: id in Added(ix, n).rules && At(Added(ix, n).store, id).rhs == [c] ==> id in ix.rules
  {
    AddedValid(ix, n);
    AddedKeeps(ix, n, (r: Rule) => true);
    var k :| 0 <= k < |ix.rules| && ix.rules[k] == rule;
    if n.rhs == [c] {
      assert SameRule(At(ix.store, ix.rules[k]), n);
    }
  }

  /** After addRule the rule is in the grammar, whether it was added or found. */
  lemma ExpansionPresent(ix: Index, n: Rule)
    requires Valid(ix)
    ensures HasRule(Added(ix, n), n.lhs, n.rhs)
  {
    var ix' := Added(ix, n);
    AddedValid(ix, n);
    if ix' == ix {
      var m :| 0 <= m < |ix.rules| && SameRule(At(ix.store, ix.rules[m]), n);
      assert ix.rules[m] in ix.rules;
    } else {
      var ip :| 0 <= ip <= |ix.rules| && ix'.rules == Insert<nat>(ix.rules, ip, |ix.store|);
      assert ix'.rules[ip] == |ix.store|;
      StoreExtended(ix.store, n, ix.rules);
    }
  }

  /** Once added, a rule stays: addRule only adds objects and never changes old ones. */
  lemma HasRuleKept(a: Index, b: Index, lhs: Symbol, rhs: seq<Symbol>)
    requires Consistent(a) && StoreGrows(a.store, b.store)
    requires forall id :: id in a.rules ==> id in b.rules
    requires HasRule(a, lhs, rhs)
    ensures HasRule(b, lhs, rhs)
  {
    var id :| id in a.rules && At(a.store, id).lhs == lhs && At(a.store, id).rhs == rhs;
    var k :| 0 <= k < |a.rules| && a.rules[k] == id;
    StoreGrowsAt(a.store, b.store, id);
  }

  /** What each addRule of the innermost loop keeps, relative to the index ix0 the loop
      started from: the index valid, every rule as Pass1Rule says, no unit rule onto a removed
      symbol, the old objects unchanged and still present, and no new unit rule onto c. */
  predicate ExpansionState(ix0: Index, ix: Index, c: Symbol, removed: seq<Symbol>, p: Rule -> bool)
  {
    && Valid(ix) && RulesAll(ix, p) && NoUnitOnto(ix, removed)
    && StoreGrows(ix0.store, ix.store)
    && (forall id :: id in ix0.rules ==> id in ix.rules)
    && (forall id :: id in ix.rules && At(ix.store, id).rhs == [c] ==> id in ix0.rules)
  }

  /** The innermost loop of pass 1: for a unit rule X -> Y and the rules Y -> beta found for it,
      addRule(X -> beta) for each.  Every X -> beta is then in the grammar, nothing is taken
      away, and no new rule is a unit rule onto Y or onto a removed symbol. */
  method AddExpansions(ix0: Index, rule: nat, candidates: seq<nat>, scored: bool,
                       ghost c: Symbol, ghost removed: seq<Symbol>, ghost lhss: set<Symbol>, ghost shapes: set<Shape>)
    returns (ix: Index)
    requires Valid(ix0) && RulesAll(ix0, Pass1Rule(scored, lhss, shapes)) && NoUnitOnto(ix0, removed)
    requires rule in ix0.rules && At(ix0.store, rule).rhs == [c]
    requires forall j :: 0 <= j < |candidates| ==> candidates[j] in ix0.rules
    ensures ExpansionState(ix0, ix, c, removed, Pass1Rule(scored, lhss, shapes))
    ensures forall j :: 0 <= j < |candidates| ==>
      HasRule(ix, At(ix0.store, rule).lhs, At(ix0.store, candidates[j]).rhs)
  {
    ix := ix0;
    for j := 0 to |candidates|
      invariant ExpansionState(ix0, ix, c, removed, Pass1Rule(scored, lhss, shapes))
      invariant forall m :: 0 <= m < j ==> HasRule(ix, At(ix0.store, rule).lhs, At(ix0.store, candidates[m]).rhs)
    {
      ExpansionStep(ix0, ix, rule, candidates, j, scored, c, removed, lhss, shapes);
      ix := AddRule(ix, Expansion(At(ix.store, rule), At(ix.store, candidates[j]), scored));
    }
  }

  lemma ExpansionStep(ix0: Index, ix: Index, rule: nat, candidates: seq<nat>, j: int, scored: bool,
                      c: Symbol, removed: seq<Symbol>, lhss: set<Symbol>, shapes: set<Shape>)
    requires Valid(ix0) && ExpansionState(ix0, ix, c, removed, Pass1Rule(scored, lhss, shapes))
    requires rule in ix0.rules && At(ix0.store, rule).rhs == [c]
    requires 0 <= j < |candidates| && candidates[j] in ix0.rules
    requires forall m :: 0 <= m < j ==> HasRule(ix, At(ix0.store, rule).lhs, At(ix0.store, candidates[m]).rhs)
    ensures scored ==> At(ix.store, rule).score.Some? && At(ix.store, candidates[j]).score.Some?
    ensures var ix' := Added(ix, Expansion(At(ix.store, rule), At(ix.store, candidates[j]), scored));
      && ExpansionState(ix0, ix', c, removed, Pass1Rule(scored, lhss, shapes))
      && forall m :: 0 <= m < j + 1 ==> HasRule(ix', At(ix0.store, rule).lhs, At(ix0.store, candidates[m]).rhs)
  {
    var p := Pass1Rule(scored, lhss, shapes);
    StepAt(ix0, ix, rule);
    StepAt(ix0, ix, candidates[j]);
    ExpansionFacts(ix, rule, candidates[j], scored, removed, lhss, shapes);
    var n := Expansion(At(ix.store, rule), At(ix.store, candidates[j]), scored);
    ExpansionAdded(ix, n, rule, c, removed, p);
    ExpansionStateStep(ix0, ix, Added(ix, n), c, removed, p);
    HasRulesStep(ix0, ix, Added(ix, n), rule, candidates, j);
  }

  lemma HasRulesStep(ix0: Index, ix: Index, ix': Index, rule: nat, candidates: seq<nat>, j: int)
    requires Consistent(ix) && StoreGrows(ix.store, ix'.store) && forall id :: id in ix.rules ==> id in ix'.rules
    requires 0 <= j < |candidates|
    requires forall m :: 0 <= m < j ==> HasRule(ix, At(ix0.store, rule).lhs, At(ix0.store, candidates[m]).rhs)
    requires HasRule(ix', At(ix0.store, rule).lhs, At(ix0.store, candidates[j]).rhs)
    ensures forall m :: 0 <= m < j + 1 ==> HasRule(ix', At(ix0.store, rule).lhs, At(ix0.store, candidates[m]).rhs)
  {
    forall m | 0 <= m < j + 1 ensures HasRule(ix', At(ix0.store, rule).lhs, At(ix0.store, candidates[m]).rhs) {
      if m < j {
        HasRuleKept(ix, ix', At(ix0.store, rule).lhs, At(ix0.store, candidates[m]).rhs);
      }
    }
  }

  /** The rule added for two rules of the grammar satisfies what pass 1 keeps. */
  lemma ExpansionFacts(ix: Index, rule: nat, cand: nat, scored: bool, removed: seq<Symbol>,
                       lhss: set<Symbol>, shapes: set<Shape>)
    requires RulesAll(ix, Pass1Rule(scored, lhss, shapes)) && NoUnitOnto(ix, removed)
    requires rule in ix.rules && cand in ix.rules
    ensures scored ==> At(ix.store, rule).score.Some? && At(ix.store, cand).score.Some?
    ensures var n := Expansion(At(ix.store, rule), At(ix.store, cand), scored);
      && Pass1Rule(scored, lhss, shapes)(n) && n.rhs != [] && forall q :: q in removed ==> n.rhs != [q]
  {
    RulesAllAt(ix, Pass1Rule(scored, lhss, shapes), rule);
    RulesAllAt(ix, Pass1Rule(scored, lhss, shapes), cand);
    RulesAllAt(ix, (r: Rule) => forall q :: q in removed ==> r.rhs != [q], cand);
  }

  lemma ExpansionStateStep(ix0: Index, ix: Index, ix': Index, c: Symbol, removed: seq<Symbol>, p: Rule -> bool)
    requires ExpansionState(ix0, ix, c, removed, p)
    requires Valid(ix') && RulesAll(ix', p) && NoUnitOnto(ix', removed) && StoreGrows(ix.store, ix'.store)
    requires forall id :: id in ix.rules ==> id in ix'.rules
    requires forall id :: id in ix'.rules && At(ix'.store, id).rhs == [c] ==> id in ix.rules
    ensures ExpansionState(ix0, ix', c, removed, p)
  {
    StoreGrowsTransitive(ix0.store, ix.store, ix'.store);
    forall id | id in ix'.rules && At(ix'.store, id).rhs == [c] ensures id in ix0.rules {
      var k :| 0 <= k < |ix.rules| && ix.rules[k] == id;
      StoreGrowsAt(ix.store, ix'.store, id);
    }
  }

  /** An object of the starting index reads the same in a later one whose store grew from it. */
  lemma StepAt(ix0: Index, ix: Index, id: nat)
    requires Consistent(ix0) && id in ix0.rules && StoreGrows(ix0.store, ix.store)
    ensures At(ix.store, id) == At(ix0.store, id)
  {
    var k :| 0 <= k < |ix0.rules| && ix0.rules[k] == id;
    StoreGrowsAt(ix0.store, ix.store, id);
  }

  /** What removing one unit rule X -> c leaves, relative to the index ix0 before it. */
  predicate ReplacedState(ix0: Index, ix: Index, rule: nat, c: Symbol, removed: seq<Symbol>, p: Rule -> bool)
  {
    && Valid(ix) && RulesAll(ix, p) && NoUnitOnto(ix, removed)
    && StoreGrows(ix0.store, ix.store)
    && rule !in ix.rules
    && (forall id :: id in ix0.rules && id != rule ==> id in ix.rules)
    && (forall id :: id in ix.rules && At(ix.store, id).rhs == [c] ==> id in ix0.rules)
  }

  /** The body of the middle loop of pass 1 for one unit rule X -> c: getRulesWithLeftSideX(c),
      addRule(X -> beta) for each c -> beta found, then removeRule(X -> c).  The unit rule is
      gone, nothing else is, every X -> beta with beta other than c is in the grammar, and no
      unit rule onto c or onto a removed symbol came in. */
  method ReplaceUnit(ix0: Index, rule: nat, c: Symbol, scored: bool,
                     ghost removed: seq<Symbol>, ghost lhss: set<Symbol>, ghost shapes: set<Shape>)
    returns (ix: Index)
    requires Valid(ix0) && RulesAll(ix0, Pass1Rule(scored, lhss, shapes)) && NoUnitOnto(ix0, removed)
    requires rule in ix0.rules && At(ix0.store, rule).rhs == [c]
    ensures ReplacedState(ix0, ix, rule, c, removed, Pass1Rule(scored, lhss, shapes))
    ensures forall id :: id in ix0.rules && At(ix0.store, id).lhs == c && At(ix0.store, id).rhs != [c] ==>
      HasRule(ix, At(ix0.store, rule).lhs, At(ix0.store, id).rhs)
  {
    var candidates := RulesOf(ix0, c);
    var ix1 := AddExpansions(ix0, rule, candidates, scored, c, removed, lhss, shapes);
    ReplacedAfterRemoval(ix0, ix1, rule, c, candidates, removed, Pass1Rule(scored, lhss, shapes));
    ix := RemoveRule(ix1, At(ix1.store, rule));
  }

  lemma ReplacedAfterRemoval(ix0: Index, ix1: Index, rule: nat, c: Symbol, candidates: seq<nat>,
                             removed: seq<Symbol>, p: Rule -> bool)
    requires Valid(ix0) && rule in ix0.rules && At(ix0.store, rule).rhs == [c]
    requires forall id :: id in candidates <==> id in ix0.rules && At(ix0.store, id).lhs == c
    requires ExpansionState(ix0, ix1, c, removed, p)
    requires forall j :: 0 <= j < |candidates| ==> HasRule(ix1, At(ix0.store, rule).lhs, At(ix0.store, candidates[j]).rhs)
    ensures ReplacedState(ix0, Removed(ix1, At(ix1.store, rule)), rule, c, removed, p)
    ensures forall id :: id in ix0.rules && At(ix0.store, id).lhs == c && At(ix0.store, id).rhs != [c] ==>
      HasRule(Removed(ix1, At(ix1.store, rule)), At(ix0.store, rule).lhs, At(ix0.store, id).rhs)
  {
    var ix := Removed(ix1, At(ix1.store, rule));
    StepAt(ix0, ix1, rule);
    RemovedObject(ix1, rule);
    RemovedValid(ix1, At(ix1.store, rule));
    RemovedKeeps(ix1, At(ix1.store, rule), p);
    RemovedKeeps(ix1, At(ix1.store, rule), (r: Rule) => forall q :: q in removed ==> r.rhs != [q]);
    forall id | id in ix0.rules && At(ix0.store, id).lhs == c && At(ix0.store, id).rhs != [c]
      ensures HasRule(ix, At(ix0.store, rule).lhs, At(ix0.store, id).rhs)
    {
      var j :| 0 <= j < |candidates| && candidates[j] == id;
      var w :| w in ix1.rules && At(ix1.store, w).lhs == At(ix0.store, rule).lhs && At(ix1.store, w).rhs == At(ix0.store, id).rhs;
      assert w != rule;
      assert w in ix.rules;
    }
  }

  /** After pass 1 the only SINGLE_NON_TERMINAL rules left are X -> X. */
  predicate NoChain(r: Rule)
  {
    r.kind == Some(SingleNonTerminal) ==> r.rhs == [r.lhs]
  }

  function ListSet(xs: seq<Symbol>): set<Symbol>
  {
    set x | x in xs
  }

  /** The state of the middle loop of pass 1 after i unit rules onto c have been replaced. */
  predicate UnitLoopState(ix: Index, units: seq<nat>, i: int, c: Symbol, removed: seq<Symbol>, p: Rule -> bool)
  {
    && 0 <= i <= |units|
    && Valid(ix) && RulesAll(ix, p) && NoUnitOnto(ix, removed)
    && (forall j :: i <= j < |units| ==> units[j] in ix.rules && At(ix.store, units[j]).rhs == [c])
    && (forall id :: id in ix.rules && At(ix.store, id).rhs == [c] ==> id in units[i..])
  }

  lemma UnitLoopStep(ix: Index, ix': Index, units: seq<nat>, i: int, c: Symbol, removed: seq<Symbol>, p: Rule -> bool)
    requires UnitLoopState(ix, units, i, c, removed, p) && i < |units| && Distinct(units)
    requires ReplacedState(ix, ix', units[i], c, removed, p)
    ensures UnitLoopState(ix', units, i + 1, c, removed, p)
  {
    forall j | i + 1 <= j < |units| ensures units[j] in ix'.rules && At(ix'.store, units[j]).rhs == [c] {
      StepAt(ix, ix', units[j]);
    }
    forall id | id in ix'.rules && At(ix'.store, id).rhs == [c] ensures id in units[i + 1..] {
      StepAt(ix, ix', id);
      assert id in units[i..] && id != units[i];
      var m :| i <= m < |units| && units[m] == id;
    }
  }

  /** The symbol pass 1 picks is one a SINGLE_NON_TERMINAL rule of the starting grammar points at. */
  lemma CandidateInSingles(ix: Index, removed: seq<Symbol>, scored: bool, lhss: set<Symbol>, shapes: set<Shape>)
    requires SingleCandidate(ix, removed).Some?
    requires RulesAll(ix, Pass1Rule(scored, lhss, shapes))
    ensures SingleCandidate(ix, removed).value in Singles(shapes)
  {
    var k :| FirstSingleAt(ix, removed, k) && At(ix.store, ix.rules[k]).rhs[0] == SingleCandidate(ix, removed).value;
    assert Pass1Rule(scored, lhss, shapes)(At(ix.store, ix.rules[k]));
  }

  /** Each round of pass 1 removes one more symbol of a fixed finite set. */
  lemma MeasureDrops(heads: set<Symbol>, removed: seq<Symbol>, c: Symbol)
    requires c in heads && c !in removed
    ensures |heads - ListSet(removed + [c])| < |heads - ListSet(removed)|
  {
    var a := heads - ListSet(removed + [c]);
    assert heads - ListSet(removed) == a + {c};
  }

  /** When no candidate is left and no unit rule points at a removed symbol, every
      SINGLE_NON_TERMINAL rule is X -> X. */
  lemma NoChainLeft(ix: Index, removed: seq<Symbol>)
    requires RulesAll(ix, WellTyped) && NoUnitOnto(ix, removed) && SingleCandidate(ix, removed).None?
    ensures RulesAll(ix, NoChain)
  {
    forall k | 0 <= k < |ix.rules| ensures NoChain(At(ix.store, ix.rules[k])) {
      var r := At(ix.store, ix.rules[k]);
      assert WellTyped(r) && !SingleTest(ix.store, removed)(ix.rules[k]);
      if r.kind == Some(SingleNonTerminal) {
        assert r.rhs == [r.rhs[0]];
        assert r.rhs[0] !in removed;
      }
    }
  }

  /** A property of Pass1Rule that Pass1Rule implies. */
  lemma Pass1RuleParts(scored: bool, lhss: set<Symbol>, shapes: set<Shape>, r: Rule)
    ensures Pass1Rule(scored, lhss, shapes)(r) ==> (r.rhs, r.kind) in shapes && WellTyped(r) && (scored ==> Scored(r))
  {
  }

  /** The starting grammar satisfies what pass 1 keeps. */
  lemma Pass1Start(ix: Index, scored: bool)
    requires RulesAll(ix, WellTyped) && (scored ==> AllScored(ix))
    ensures RulesAll(ix, Pass1Rule(scored, NonTerminals(ix), Shapes(ix)))
  {
    forall k | 0 <= k < |ix.rules| ensures Pass1Rule(scored, NonTerminals(ix), Shapes(ix))(At(ix.store, ix.rules[k])) {
      assert LeftSideOf(ix, At(ix.store, ix.rules[k]).lhs);
      assert WellTyped(At(ix.store, ix.rules[k]));
      assert scored ==> Scored(At(ix.store, ix.rules[k]));
    }
  }

  /** In a consistent index both lists hold the same objects. */
  lemma SameMembers(ix: Index)
    requires Consistent(ix)
    ensures forall id :: id in ix.right <==> id in ix.rules
  {
    forall id ensures id in ix.right <==> id in ix.rules {
      assert id in ix.right <==> id in multiset(ix.right);
      assert id in ix.rules <==> id in multiset(ix.rules);
    }
  }

  /** The unit rules onto c, that getRulesWithRightSideX(c) finds, replaced one after the
      other: afterwards no rule is X -> c. */
  method RemoveUnitsOnto(ix0: Index, c: Symbol, scored: bool,
                         ghost removed: seq<Symbol>, ghost lhss: set<Symbol>, ghost shapes: set<Shape>)
    returns (ix: Index)
    requires Valid(ix0) && RulesAll(ix0, Pass1Rule(scored, lhss, shapes)) && NoUnitOnto(ix0, removed)
    ensures Valid(ix) && RulesAll(ix, Pass1Rule(scored, lhss, shapes)) && NoUnitOnto(ix, removed + [c])
    ensures StoreGrows(ix0.store, ix.store)
    ensures forall id :: id in ix0.rules && At(ix0.store, id).rhs != [c] ==> id in ix.rules
  {
    ghost var p := Pass1Rule(scored, lhss, shapes);
    var units := UnitRules(ix0, c);
    assert ix0.store[..|ix0.store|] == ix0.store;
    ix := ix0;
    for i := 0 to |units|
      invariant UnitLoopState(ix, units, i, c, removed, p)
      invariant StoreGrows(ix0.store, ix.store)
      invariant forall id :: id in ix0.rules && At(ix0.store, id).rhs != [c] ==> id in ix.rules
    {
      ghost var before := ix;
      ix := ReplaceUnit(ix, units[i], c, scored, removed, lhss, shapes);
      UnitLoopStep(before, ix, units, i, c, removed, p);
      OthersStay(ix0, before, ix, units[i], c);
      StoreGrowsTransitive(ix0.store, before.store, ix.store);
    }
    NoUnitOntoExtended(ix, units, c, removed, p);
  }

  /** Replacing one unit rule X -> c removes no rule of the starting grammar but the unit rules onto c. */
  lemma OthersStay(ix0: Index, ix: Index, ix': Index, rule: nat, c: Symbol)
    requires Valid(ix0) && StoreGrows(ix0.store, ix.store)
    requires rule in ix.rules && At(ix.store, rule).rhs == [c]
    requires forall id :: id in ix0.rules && At(ix0.store, id).rhs != [c] ==> id in ix.rules
    requires forall id :: id in ix.rules && id != rule ==> id in ix'.rules
    ensures forall id :: id in ix0.rules && At(ix0.store, id).rhs != [c] ==> id in ix'.rules
  {
    forall id | id in ix0.rules && At(ix0.store, id).rhs != [c] ensures id in ix'.rules {
      var k :| 0 <= k < |ix0.rules| && ix0.rules[k] == id;
      StoreGrowsAt(ix0.store, ix.store, id);
    }
  }

  /** getRulesWithRightSideX(c) on a valid index: each rule X -> c once. */
  method UnitRules(ix: Index, c: Symbol) returns (units: seq<nat>)
    requires Valid(ix)
    ensures Distinct(units) && forall id :: id in units <==> id in ix.rules && At(ix.store, id).rhs == [c]
  {
    units := CollectScan(ix.right, Rule(c, [c], None, None), AgainstRight(ix.store), RhsIs(ix.store, [c]), Always());
    RulesWithRightSideExact(ix, c);
    SameMembers(ix);
  }

  /** getRulesWithLeftSideX(c) on a valid index: each rule c -> beta once. */
  method RulesOf(ix: Index, c: Symbol) returns (ids: seq<nat>)
    requires Valid(ix)
    ensures forall id :: id in ids <==> id in ix.rules && At(ix.store, id).lhs == c
  {
    ids := CollectScan(ix.rules, Rule(c, [c], None, None), AgainstLeft(ix.store), LhsIs(ix.store, c), Always());
    RulesWithLeftSideExact(ix, c);
  }

  lemma NoUnitOntoExtended(ix: Index, units: seq<nat>, c: Symbol, removed: seq<Symbol>, p: Rule -> bool)
    requires UnitLoopState(ix, units, |units|, c, removed, p)
    ensures NoUnitOnto(ix, removed + [c])
  {
    forall k, q | 0 <= k < |ix.rules| && q in removed + [c] ensures At(ix.store, ix.rules[k]).rhs != [q] {
      if q == c {
        assert ix.rules[k] !in units[|units|..];
      }
    }
  }

  /** getSingleNonTerminalCandidateToRemove during pass 1: a symbol not yet removed, taken
      from a right-hand side of the starting grammar, or None when no rule passes the test. */
  method NextCandidate(ix: Index, removed: seq<Symbol>, ghost scored: bool, ghost lhss: set<Symbol>, ghost shapes: set<Shape>)
    returns (c: Option<Symbol>)
    requires RulesAll(ix, Pass1Rule(scored, lhss, shapes))
    ensures c.None? ==> SingleCandidate(ix, removed).None?
    ensures c.Some? ==> c.value !in removed && c.value in Singles(shapes)
  {
    c := GetSingleCandidate(ix, removed);
    if c.Some? {
      CandidateInSingles(ix, removed, scored, lhss, shapes);
    }
  }

  /** The state of the outer loop of pass 1. */
  predicate Pass1State(ix0: Index, ix: Index, removed: seq<Symbol>, candidate: Option<Symbol>,
                       scored: bool, lhss: set<Symbol>, shapes: set<Shape>)
  {
    && Consistent(ix0) && Valid(ix) && RulesAll(ix, Pass1Rule(scored, lhss, shapes)) && NoUnitOnto(ix, removed)
    && StoreGrows(ix0.store, ix.store)
    && (candidate.None? ==> SingleCandidate(ix, removed).None?)
    && (candidate.Some? ==> candidate.value !in removed && candidate.value in Singles(shapes))
    && (forall q :: q in removed ==> q in Singles(shapes))
    && Survives(ix0, ix, removed)
  }

  /** The rule is X -> q for a symbol q of the removed list. */
  predicate OntoAny(r: Rule, removed: seq<Symbol>)
  {
    |r.rhs| == 1 && r.rhs[0] in removed
  }

  /** Every rule of the starting grammar that is not X -> q for a removed q is still in `rules`. */
  predicate Survives(ix0: Index, ix: Index, removed: seq<Symbol>)
  {
    forall id :: id in ix0.rules && !OntoAny(At(ix0.store, id), removed) ==> id in ix.rules
  }

  lemma SurvivesStep(ix0: Index, ix: Index, ix': Index, removed: seq<Symbol>, c: Symbol)
    requires Consistent(ix0) && StoreGrows(ix0.store, ix.store) && Survives(ix0, ix, removed)
    requires forall id :: id in ix.rules && At(ix.store, id).rhs != [c] ==> id in ix'.rules
    ensures Survives(ix0, ix', removed + [c])
  {
    forall id | id in ix0.rules && !OntoAny(At(ix0.store, id), removed + [c]) ensures id in ix'.rules {
      var k :| 0 <= k < |ix0.rules| && ix0.rules[k] == id;
      StoreGrowsAt(ix0.store, ix.store, id);
      assert !OntoAny(At(ix0.store, id), removed);
    }
  }

  /** One round of the outer loop of pass 1: remove the unit rules onto the candidate, add it to
      the removed list, look for the next candidate. */
  method Pass1Round(ghost ix0: Index, ix: Index, removed: seq<Symbol>, c: Symbol,
                    scored: bool, ghost lhss: set<Symbol>, ghost shapes: set<Shape>)
    returns (ix': Index, removed': seq<Symbol>, candidate': Option<Symbol>)
    requires Pass1State(ix0, ix, removed, Some(c), scored, lhss, shapes)
    ensures Pass1State(ix0, ix', removed', candidate', scored, lhss, shapes)
    ensures |Singles(shapes) - ListSet(removed')| < |Singles(shapes) - ListSet(removed)|
  {
    ix' := RemoveUnitsOnto(ix, c, scored, removed, lhss, shapes);
    SurvivesStep(ix0, ix, ix', removed, c);
    StoreGrowsTransitive(ix0.store, ix.store, ix'.store);
    MeasureDrops(Singles(shapes), removed, c);
    removed' := removed + [c];
    candidate' := NextCandidate(ix', removed', scored, lhss, shapes);
  }

  /** The outer loop of pass 1, run until no candidate is left. */
  method Pass1Loop(ghost ix0: Index, ix1: Index, removed1: seq<Symbol>, candidate1: Option<Symbol>,
                   scored: bool, ghost lhss: set<Symbol>, ghost shapes: set<Shape>)
    returns (ix: Index, removed: seq<Symbol>)
    requires Pass1State(ix0, ix1, removed1, candidate1, scored, lhss, shapes)
    ensures Pass1State(ix0, ix, removed, None, scored, lhss, shapes)
  {
    ix, removed := ix1, removed1;
    var candidate := candidate1;
    while candidate.Some?
      invariant Pass1State(ix0, ix, removed, candidate, scored, lhss, shapes)
      decreases |Singles(shapes) - ListSet(removed)|
    {
      ix, removed, candidate := Pass1Round(ix0, ix, removed, candidate.value, scored, lhss, shapes);
    }
  }

  /** removeSingleNonTerminalFromRightHandSide: while some rule X -> Y (Y not X, not yet
      removed) is left, replace every rule onto Y by the expansions of Y and put Y on the
      removed list.  Afterwards every SINGLE_NON_TERMINAL rule is X -> X, no rule is X -> Y for
      a removed Y, the index is valid, and each rule pairs a left-hand side with a shape both
      found in the grammar before the pass.  Every removed Y is the target of a
      SINGLE_NON_TERMINAL rule of the starting grammar, so the only rules of the starting grammar
      the pass can take out are one-symbol rules onto such a target. */
  method RemoveSingleNonTerminals(ix0: Index, scored: bool) returns (ix: Index, removed: seq<Symbol>)
    requires Valid(ix0) && RulesAll(ix0, WellTyped) && (scored ==> AllScored(ix0))
    ensures Valid(ix) && RulesAll(ix, Pass1Rule(scored, NonTerminals(ix0), Shapes(ix0)))
    ensures NoUnitOnto(ix, removed) && SingleCandidate(ix, removed).None?
    ensures RulesAll(ix, NoChain) && RulesAll(ix, WellTyped) && (scored ==> AllScored(ix))
    ensures StoreGrows(ix0.store, ix.store)
    ensures forall q :: q in removed ==> UnitOnto(ix0, q)
    ensures forall id :: id in ix0.rules && !Replaceable(ix0, At(ix0.store, id)) ==> id in ix.rules
  {
    Pass1Start(ix0, scored);
    ix, removed := Pass1Within(ix0, scored, NonTerminals(ix0), Shapes(ix0));
    OnlyReplaceableGo(ix0, ix, removed);
  }

  /** The rule is X -> a for a symbol a that some SINGLE_NON_TERMINAL rule of the grammar points
      at: the only kind of rule pass 1 may take out. */
  predicate Replaceable(ix: Index, r: Rule)
  {
    |r.rhs| == 1 && UnitOnto(ix, r.rhs[0])
  }

  lemma OnlyReplaceableGo(ix0: Index, ix: Index, removed: seq<Symbol>)
    requires RulesAll(ix0, WellTyped)
    requires (forall q :: q in removed ==> q in Singles(Shapes(ix0))) && Survives(ix0, ix, removed)
    ensures forall q :: q in removed ==> UnitOnto(ix0, q)
    ensures forall id :: id in ix0.rules && !Replaceable(ix0, At(ix0.store, id)) ==> id in ix.rules
  {
    forall q | q in removed ensures UnitOnto(ix0, q) {
      SinglesOnto(ix0, q);
    }
    forall id | id in ix0.rules && !Replaceable(ix0, At(ix0.store, id)) ensures id in ix.rules {
      assert !OntoAny(At(ix0.store, id), removed);
    }
  }

  /** Pass 1 for any bounds on the left- and right-hand sides that the grammar meets. */
  method Pass1Within(ix0: Index, scored: bool, ghost lhss: set<Symbol>, ghost shapes: set<Shape>)
    returns (ix: Index, removed: seq<Symbol>)
    requires Valid(ix0) && RulesAll(ix0, Pass1Rule(scored, lhss, shapes))
    ensures Valid(ix) && RulesAll(ix, Pass1Rule(scored, lhss, shapes))
    ensures NoUnitOnto(ix, removed) && SingleCandidate(ix, removed).None?
    ensures RulesAll(ix, NoChain) && RulesAll(ix, WellTyped) && (scored ==> AllScored(ix))
    ensures StoreGrows(ix0.store, ix.store)
    ensures (forall q :: q in removed ==> q in Singles(shapes)) && Survives(ix0, ix, removed)
  {
    var candidate := NextCandidate(ix0, [], scored, lhss, shapes);
    Pass1Init(ix0, scored, candidate, lhss, shapes);
    ix, removed := Pass1Loop(ix0, ix0, [], candidate, scored, lhss, shapes);
    Pass1Finish(ix0, ix, removed, scored, lhss, shapes);
  }

  lemma Pass1Init(ix0: Index, scored: bool, candidate: Option<Symbol>, lhss: set<Symbol>, shapes: set<Shape>)
    requires Valid(ix0) && RulesAll(ix0, Pass1Rule(scored, lhss, shapes))
    requires candidate.None? ==> SingleCandidate(ix0, []).None?
    requires candidate.Some? ==> candidate.value in Singles(shapes)
    ensures Pass1State(ix0, ix0, [], candidate, scored, lhss, shapes)
  {
    assert ix0.store[..|ix0.store|] == ix0.store;
  }

  lemma Pass1Finish(ix0: Index, ix: Index, removed: seq<Symbol>, scored: bool, lhss: set<Symbol>, shapes: set<Shape>)
    requires Pass1State(ix0, ix, removed, None, scored, lhss, shapes)
    ensures Valid(ix) && RulesAll(ix, Pass1Rule(scored, lhss, shapes))
    ensures NoUnitOnto(ix, removed) && SingleCandidate(ix, removed).None?
    ensures RulesAll(ix, NoChain) && RulesAll(ix, WellTyped) && (scored ==> AllScored(ix))
    ensures StoreGrows(ix0.store, ix.store)
    ensures (forall q :: q in removed ==> q in Singles(shapes)) && Survives(ix0, ix, removed)
  {
    Pass1WellTyped(ix, scored, lhss, shapes);
    NoChainLeft(ix, removed);
  }

  lemma Pass1WellTyped(ix: Index, scored: bool, lhss: set<Symbol>, shapes: set<Shape>)
    requires RulesAll(ix, Pass1Rule(scored, lhss, shapes))
    ensures RulesAll(ix, WellTyped) && (scored ==> AllScored(ix))
  {
    forall k | 0 <= k < |ix.rules| ensures WellTyped(At(ix.store, ix.rules[k])) && (scored ==> Scored(At(ix.store, ix.rules[k]))) {
      Pass1RuleParts(scored, lhss, shapes, At(ix.store, ix.rules[k]));
    }
  }
}
