/** Pass 2 of the conversion to Chomsky normal form (updateMultipleNonTerminalFromRightHandSide,
    with the rewrite loop updateAllMultipleNonTerminalWithNewRule) and convertToChomskyNormalForm
    itself, on a rule index.  Pass 2 rewrites rule objects in place, so after it the two lists
    are no longer in order; the conversion ends by sorting both. */
module ChomskyNormalForm {
  import opened Wrappers
  import opened Rules
  import opened SortedLists
  import opened RuleIndex
  import opened NormalForm
  import JavaString
  import RuleOrder

  // ---------------------------------------------------------------- updateAllMultipleNonTerminalWithNewRule

  /** The body of the rewrite loop on one object: a MULTIPLE_NON_TERMINAL rule has its first
      (first, second) pair replaced by `with`; any other rule is left alone. */
  function RewriteRule(r: Rule, first: Symbol, second: Symbol, with: Symbol): Rule
  {
    if r.kind == Some(MultipleNonTerminal) then Rewritten(r, first, second, with) else r
  }

  /** The loop body applied to the object id names. */
  function RewriteOne(store: seq<Rule>, id: nat, first: Symbol, second: Symbol, with: Symbol): (s: seq<Rule>)
    ensures |s| == |store|
  {
    if id < |store| then store[id := RewriteRule(store[id], first, second, with)] else store
  }

  /** The loop over a list of objects, left to right. */
  function RewriteList(store: seq<Rule>, ids: seq<nat>, first: Symbol, second: Symbol, with: Symbol): (s: seq<Rule>)
    ensures |s| == |store|
    decreases |ids|
  {
    if ids == [] then store
    else RewriteOne(RewriteList(store, ids[..|ids| - 1], first, second, with), ids[|ids| - 1], first, second, with)
  }

  /** Over a list without repeats each listed object is rewritten exactly once and every other
      object is left as it was. */
  lemma {:induction false} RewriteListOnce(store: seq<Rule>, ids: seq<nat>, first: Symbol, second: Symbol, with: Symbol)
    requires Distinct(ids)
    ensures forall id :: 0 <= id < |store| ==>
      RewriteList(store, ids, first, second, with)[id] ==
        if id in ids then RewriteRule(store[id], first, second, with) else store[id]
    decreases |ids|
  {
    if ids != [] {
      var init, last := ids[..|ids| - 1], ids[|ids| - 1];
      assert ids == init + [last];
      assert Distinct(init) by {
        forall i, j | 0 <= i < j < |init| ensures init[i] != init[j] {
          assert init[i] == ids[i] && init[j] == ids[j];
        }
      }
      assert last !in init by {
        forall k | 0 <= k < |init| ensures init[k] != last {
          assert init[k] == ids[k];
        }
      }
      RewriteListOnce(store, init, first, second, with);
      forall id | 0 <= id < |store| ensures id in ids <==> id in init || id == last {
      }
    }
  }

  /** What updateAllMultipleNonTerminalWithNewRule leaves in the store.  The main and the
      probabilistic grammar loop over `rules`; the legacy copy loops over `rules` and then over
      rulesRightSorted, which holds the same objects. */
  function UpdatedAll(ix: Index, first: Symbol, second: Symbol, with: Symbol, legacy: bool): seq<Rule>
  {
    var once := RewriteList(ix.store, ix.rules, first, second, with);
    if legacy then RewriteList(once, ix.right, first, second, with) else once
  }

  /** In a consistent index every object of the grammar is rewritten once (twice in the legacy
      copy) and objects outside the lists are not touched. */
  lemma UpdatedAllSpec(ix: Index, first: Symbol, second: Symbol, with: Symbol, legacy: bool)
    requires Consistent(ix)
    ensures |UpdatedAll(ix, first, second, with, legacy)| == |ix.store|
    ensures forall id :: 0 <= id < |ix.store| ==>
      UpdatedAll(ix, first, second, with, legacy)[id] ==
        if id !in ix.rules then ix.store[id]
        else if legacy then RewriteRule(RewriteRule(ix.store[id], first, second, with), first, second, with)
        else RewriteRule(ix.store[id], first, second, with)
  {
    var once := RewriteList(ix.store, ix.rules, first, second, with);
    RewriteListOnce(ix.store, ix.rules, first, second, with);
    if legacy {
      RewriteListOnce(once, ix.right, first, second, with);
      SameMembers(ix);
    }
  }

  /** The source's two-argument updateMultipleNonTerminal call on the object id, as code. */
  method RewriteAt(store: seq<Rule>, id: nat, first: Symbol, second: Symbol, with: Symbol) returns (store': seq<Rule>)
    requires id < |store|
    ensures store' == RewriteOne(store, id, first, second, with)
  {
    store' := store;
    if store[id].kind == Some(MultipleNonTerminal) {
      var replaced, updated := UpdateMultipleNonTerminal(store[id], first, second, with);
      store' := store[id := updated];
    }
  }

  /** updateAllMultipleNonTerminalWithNewRule: the loop over `rules` (and, in the legacy copy,
      the second loop over rulesRightSorted). */
  method UpdateAll(ix: Index, first: Symbol, second: Symbol, with: Symbol, legacy: bool) returns (store: seq<Rule>)
    requires Consistent(ix)
    ensures store == UpdatedAll(ix, first, second, with, legacy)
  {
    store := ix.store;
    for i := 0 to |ix.rules|
      invariant store == RewriteList(ix.store, ix.rules[..i], first, second, with)
    {
      assert ix.rules[..i + 1][..i] == ix.rules[..i];
      store := RewriteAt(store, ix.rules[i], first, second, with);
    }
    assert ix.rules[..|ix.rules|] == ix.rules;
    if legacy {
      var once := store;
      RightMembers(ix);
      for i := 0 to |ix.right|
        invariant store == RewriteList(once, ix.right[..i], first, second, with)
      {
        assert ix.right[..i + 1][..i] == ix.right[..i];
        store := RewriteAt(store, ix.right[i], first, second, with);
      }
      assert ix.right[..|ix.right|] == ix.right;
    }
  }

  /** The legacy copy rewrites an object a second time when it is still MULTIPLE_NON_TERMINAL and
      still holds the pair: S -> A B A B C becomes S -> X0 A B C in the main grammar and
      S -> X0 X0 C in the legacy copy. */
  lemma LegacyRewritesTwice()
    ensures var ix := Index([Rule("S", ["A", "B", "A", "B", "C"], Some(MultipleNonTerminal), None)], [0], [0]);
      && UpdatedAll(ix, "A", "B", "X0", false)[0].rhs == ["X0", "A", "B", "C"]
      && UpdatedAll(ix, "A", "B", "X0", true)[0].rhs == ["X0", "X0", "C"]
  {
    var r := Rule("S", ["A", "B", "A", "B", "C"], Some(MultipleNonTerminal), None);
    var ix := Index([r], [0], [0]);
    assert ix.rules[..0] == [] && ix.right[..0] == [];
    PairIndexIs(r.rhs, "A", "B", 0);
    var once := Rewritten(r, "A", "B", "X0");
    assert once.rhs == ["X0", "A", "B", "C"];
    assert once.kind == Some(MultipleNonTerminal);
    assert !PairAt(once.rhs, 0, "A", "B");
    PairIndexIs(once.rhs, "A", "B", 1);
    assert Rewritten(once, "A", "B", "X0").rhs == ["X0", "X0", "C"];
  }

  // ---------------------------------------------------------------- what a rewrite keeps

  /** The measure of pass 2: the length of every MULTIPLE_NON_TERMINAL right-hand side. */
  function RuleWeight(r: Rule): nat
  {
    if r.kind == Some(MultipleNonTerminal) then |r.rhs| else 0
  }

  /** A rewrite keeps the left-hand side, the probability, the agreement of type and length, and
      every type but MULTIPLE_NON_TERMINAL, which may become TWO_NON_TERMINAL; it never makes a
      rule heavier, and a rule that starts with the pair becomes lighter. */
  lemma RewriteRuleFacts(r: Rule, first: Symbol, second: Symbol, with: Symbol)
    requires Fits(r)
    ensures var r' := RewriteRule(r, first, second, with);
      && r'.lhs == r.lhs && r'.score == r.score && Fits(r')
      && (r.kind != Some(MultipleNonTerminal) ==> r' == r)
      && (r'.kind == r.kind || (r.kind == Some(MultipleNonTerminal) && r'.kind == Some(TwoNonTerminal)))
      && (|r.rhs| > 0 ==> |r'.rhs| > 0)
      && RuleWeight(r') <= RuleWeight(r)
      && (r.kind == Some(MultipleNonTerminal) && PairAt(r.rhs, 0, first, second) ==> RuleWeight(r') < RuleWeight(r))
  {
    if r.kind == Some(MultipleNonTerminal) {
      var i := PairIndex(r.rhs, first, second, 0);
      if i >= 0 {
        RewrittenShape(r, first, second, with, i);
      }
    }
  }

  /** What every rule satisfies between pass 1 and the end: typed in agreement with its length,
      a ProbabilisticRule in the probabilistic grammar, and no unit rule but X -> X. */
  function Pass2Rule(scored: bool): Rule -> bool
  {
    (r: Rule) => WellTyped(r) && (scored ==> Scored(r)) && NoChain(r)
  }

  lemma Pass2RuleRewrite(r: Rule, scored: bool, first: Symbol, second: Symbol, with: Symbol)
    requires Pass2Rule(scored)(r)
    ensures Pass2Rule(scored)(RewriteRule(r, first, second, with))
  {
    RewriteRuleFacts(r, first, second, with);
  }

  // ---------------------------------------------------------------- the measure

  function Weight(store: seq<Rule>, ids: seq<nat>): nat
    decreases |ids|
  {
    if ids == [] then 0 else Weight(store, ids[..|ids| - 1]) + RuleWeight(At(store, ids[|ids| - 1]))
  }

  lemma {:induction false} WeightAppend(store: seq<Rule>, xs: seq<nat>, ys: seq<nat>)
    ensures Weight(store, xs + ys) == Weight(store, xs) + Weight(store, ys)
    decreases |ys|
  {
    if ys == [] {
      assert xs + ys == xs;
    } else {
      var init := ys[..|ys| - 1];
      assert (xs + ys)[..|xs + ys| - 1] == xs + init;
      WeightAppend(store, xs, init);
    }
  }

  /** Lighter objects make a lighter list, strictly so when one of them is strictly lighter. */
  lemma {:induction false} WeightBelow(a: seq<Rule>, b: seq<Rule>, ids: seq<nat>)
    requires forall k :: 0 <= k < |ids| ==> RuleWeight(At(b, ids[k])) <= RuleWeight(At(a, ids[k]))
    ensures Weight(b, ids) <= Weight(a, ids)
    ensures (exists k :: 0 <= k < |ids| && RuleWeight(At(b, ids[k])) < RuleWeight(At(a, ids[k]))) ==>
      Weight(b, ids) < Weight(a, ids)
    decreases |ids|
  {
    if ids != [] {
      var init := ids[..|ids| - 1];
      forall k | 0 <= k < |init| ensures RuleWeight(At(b, init[k])) <= RuleWeight(At(a, init[k])) {
        assert init[k] == ids[k];
      }
      WeightBelow(a, b, init);
      if exists k :: 0 <= k < |ids| && RuleWeight(At(b, ids[k])) < RuleWeight(At(a, ids[k])) {
        var k :| 0 <= k < |ids| && RuleWeight(At(b, ids[k])) < RuleWeight(At(a, ids[k]));
        if k < |init| {
          assert init[k] == ids[k];
        }
      }
    }
  }

  /** Adding a rule of weight 0 (a TWO_NON_TERMINAL rule) leaves the weight as it was. */
  lemma WeightAdded(ix: Index, r: Rule)
    requires Consistent(ix) && RuleWeight(r) == 0
    ensures Weight(Added(ix, r).store, Added(ix, r).rules) == Weight(ix.store, ix.rules)
  {
    var ix' := Added(ix, r);
    if ix' != ix {
      var ip :| 0 <= ip <= |ix.rules| && ix'.rules == Insert<nat>(ix.rules, ip, |ix.store|);
      WeightInserted(ix.store, r, ix.rules, ip);
    }
  }

  lemma WeightInserted(store: seq<Rule>, r: Rule, ids: seq<nat>, ip: int)
    requires forall k :: 0 <= k < |ids| ==> ids[k] < |store|
    requires RuleWeight(r) == 0 && 0 <= ip <= |ids|
    ensures Weight(store + [r], Insert<nat>(ids, ip, |store|)) == Weight(store, ids)
  {
    StoreExtended(store, r, ids);
    WeightSame(store, store + [r], ids);
    WeightInsert(store + [r], ids, ip, |store|);
  }

  /** Weights are read through the store: the same objects give the same weight. */
  lemma WeightSame(a: seq<Rule>, b: seq<Rule>, ids: seq<nat>)
    requires forall k :: 0 <= k < |ids| ==> At(b, ids[k]) == At(a, ids[k])
    ensures Weight(b, ids) == Weight(a, ids)
  {
    WeightBelow(a, b, ids);
    WeightBelow(b, a, ids);
  }

  /** Inserting an object anywhere adds its weight. */
  lemma WeightInsert(store: seq<Rule>, ids: seq<nat>, ip: int, id: nat)
    requires 0 <= ip <= |ids|
    ensures Weight(store, Insert<nat>(ids, ip, id)) == Weight(store, ids) + RuleWeight(At(store, id))
  {
    var pre, post := ids[..ip], ids[ip..];
    assert ids == pre + post;
    assert Insert<nat>(ids, ip, id) == (pre + [id]) + post;
    WeightAppend(store, pre, post);
    WeightAppend(store, pre + [id], post);
    WeightAppend(store, pre, [id]);
    assert [id][..0] == [];
  }

  // ---------------------------------------------------------------- updateMultipleNonTerminalFromRightHandSide

  /** The name of the count-th new non-terminal, "X" + count. */
  function NewSymbol(count: nat): (x: Symbol)
    ensures |x| > 1 && x[0] == 'X'
  {
    "X" + JavaString.NatToString(count)
  }

  /** Different counts give different names. */
  lemma NewSymbolsDiffer(a: nat, b: nat)
    ensures NewSymbol(a) == NewSymbol(b) ==> a == b
  {
    assert NewSymbol(a)[1..] == JavaString.NatToString(a);
    assert NewSymbol(b)[1..] == JavaString.NatToString(b);
    if NewSymbol(a) == NewSymbol(b) {
      JavaString.NatToStringInjective(a, b);
    }
  }

  /** The rule pass 2 adds: new Rule(newSymbol, rhs, TWO_NON_TERMINAL), and in the probabilistic
      grammar a ProbabilisticRule with probability 1. */
  function PairRule(with: Symbol, pair: seq<Symbol>, flavour: Flavour): (r: Rule)
    ensures r.lhs == with && r.rhs == pair && r.kind == Some(TwoNonTerminal)
    ensures IsScored(flavour) <==> r.score.Some?
    ensures IsScored(flavour) ==> ProbabilityOf(r) == Some(1.0)
  {
    if flavour == Probabilistic then NewProbabilisticRule(with, pair, Some(TwoNonTerminal), 1.0)
    else Rule(with, pair, Some(TwoNonTerminal), None)
  }

  /** What pass 2 keeps of the grammar it starts from: no object leaves `rules`, every object
      keeps its left-hand side and its probability, and every object that is not
      MULTIPLE_NON_TERMINAL is left as it was. */
  predicate Persists(ix0: Index, ix: Index)
  {
    && |ix0.store| <= |ix.store|
    && (forall id :: id in ix0.rules ==> id in ix.rules)
    && (forall id :: 0 <= id < |ix0.store| ==> ix.store[id].lhs == ix0.store[id].lhs && ix.store[id].score == ix0.store[id].score)
    && (forall id :: 0 <= id < |ix0.store| && ix0.store[id].kind != Some(MultipleNonTerminal) ==> ix.store[id] == ix0.store[id])
  }

  lemma PersistsTransitive(a: Index, b: Index, c: Index)
    requires Persists(a, b) && Persists(b, c)
    ensures Persists(a, c)
  {
  }

  /** The state of the loop of pass 2. */
  predicate Pass2State(ix0: Index, ix: Index, candidate: Option<nat>, scored: bool)
  {
    && Consistent(ix) && RulesAll(ix, Pass2Rule(scored)) && Persists(ix0, ix)
    && candidate == MultipleCandidate(ix)
  }

  /** One round of the loop of pass 2 on the candidate c, A -> B C ...: every MULTIPLE_NON_TERMINAL
      rule has its first B C replaced by the new symbol, then the rule new symbol -> B C is added. */
  function Pass2Step(ix: Index, c: nat, count: nat, flavour: Flavour): Index
    requires |At(ix.store, c).rhs| > 2
  {
    var r := At(ix.store, c);
    var w := NewSymbol(count);
    Added(ix.(store := UpdatedAll(ix, r.rhs[0], r.rhs[1], w, flavour == Legacy)), PairRule(w, [r.rhs[0], r.rhs[1]], flavour))
  }

  /** A round keeps the index consistent and every rule in shape, keeps every object with its
      left-hand side and probability, makes the grammar strictly lighter and leaves the rule
      new symbol -> B C in it. */
  lemma Pass2StepFacts(ix: Index, c: nat, count: nat, flavour: Flavour)
    requires Consistent(ix) && RulesAll(ix, Pass2Rule(IsScored(flavour))) && MultipleCandidate(ix) == Some(c)
    ensures |At(ix.store, c).rhs| > 2
    ensures var ix' := Pass2Step(ix, c, count, flavour);
      && Consistent(ix') && RulesAll(ix', Pass2Rule(IsScored(flavour))) && Persists(ix, ix')
      && Weight(ix'.store, ix'.rules) < Weight(ix.store, ix.rules)
      && HasRule(ix', NewSymbol(count), [At(ix.store, c).rhs[0], At(ix.store, c).rhs[1]])
  {
    var scored := IsScored(flavour);
    CandidateShape(ix, c, scored);
    var r := At(ix.store, c);
    var w, legacy := NewSymbol(count), flavour == Legacy;
    var mid := ix.(store := UpdatedAll(ix, r.rhs[0], r.rhs[1], w, legacy));
    RewriteAllKeeps(ix, r.rhs[0], r.rhs[1], w, legacy, scored);
    RewriteAllLighter(ix, c, w, legacy, scored);
    var nr := PairRule(w, [r.rhs[0], r.rhs[1]], flavour);
    AddedPersists(mid, nr, Pass2Rule(scored));
    PersistsTransitive(ix, mid, Added(mid, nr));
  }

  /** The candidate of pass 2 is a MULTIPLE_NON_TERMINAL object of `rules`: three symbols or more. */
  lemma CandidateShape(ix: Index, c: nat, scored: bool)
    requires RulesAll(ix, Pass2Rule(scored)) && MultipleCandidate(ix) == Some(c)
    ensures c in ix.rules && At(ix.store, c).kind == Some(MultipleNonTerminal) && |At(ix.store, c).rhs| > 2
  {
    var k :| FirstMultipleAt(ix, k) && ix.rules[k] == c;
    assert Pass2Rule(scored)(At(ix.store, ix.rules[k]));
  }

  /** The rewrite loop keeps the index consistent, every rule in shape, every object with its
      left-hand side and probability, and makes no object heavier. */
  lemma RewriteAllKeeps(ix: Index, a: Symbol, b: Symbol, w: Symbol, legacy: bool, scored: bool)
    requires Consistent(ix) && RulesAll(ix, Pass2Rule(scored))
    ensures var mid := ix.(store := UpdatedAll(ix, a, b, w, legacy));
      && Consistent(mid) && RulesAll(mid, Pass2Rule(scored)) && Persists(ix, mid)
      && forall k :: 0 <= k < |ix.rules| ==> RuleWeight(At(mid.store, ix.rules[k])) <= RuleWeight(At(ix.store, ix.rules[k]))
  {
    var mid := ix.(store := UpdatedAll(ix, a, b, w, legacy));
    UpdatedAllSpec(ix, a, b, w, legacy);
    forall j | 0 <= j < |ix.rules|
      ensures Pass2Rule(scored)(At(mid.store, ix.rules[j]))
      ensures RuleWeight(At(mid.store, ix.rules[j])) <= RuleWeight(At(ix.store, ix.rules[j]))
    {
      RewriteTwice(At(ix.store, ix.rules[j]), scored, a, b, w);
    }
    forall id | 0 <= id < |ix.store|
      ensures mid.store[id].lhs == ix.store[id].lhs && mid.store[id].score == ix.store[id].score
    {
      if id in ix.rules {
        var j :| 0 <= j < |ix.rules| && ix.rules[j] == id;
        RewriteTwice(At(ix.store, ix.rules[j]), scored, a, b, w);
      }
    }
  }

  /** One rewrite and two rewrites alike keep a rule in shape, with its left-hand side and its
      probability, and make it no heavier. */
  lemma RewriteTwice(r: Rule, scored: bool, a: Symbol, b: Symbol, w: Symbol)
    requires Pass2Rule(scored)(r)
    ensures var once := RewriteRule(r, a, b, w);
      var twice := RewriteRule(once, a, b, w);
      && Pass2Rule(scored)(once) && Pass2Rule(scored)(twice)
      && once.lhs == r.lhs && once.score == r.score && twice.lhs == r.lhs && twice.score == r.score
      && RuleWeight(twice) <= RuleWeight(once) <= RuleWeight(r)
  {
    RewriteRuleFacts(r, a, b, w);
    RewriteRuleFacts(RewriteRule(r, a, b, w), a, b, w);
    Pass2RuleRewrite(r, scored, a, b, w);
    Pass2RuleRewrite(RewriteRule(r, a, b, w), scored, a, b, w);
  }

  /** The candidate starts with the pair, so the rewrite loop makes it, and the grammar, lighter. */
  lemma RewriteAllLighter(ix: Index, c: nat, w: Symbol, legacy: bool, scored: bool)
    requires Consistent(ix) && RulesAll(ix, Pass2Rule(scored)) && MultipleCandidate(ix) == Some(c)
    ensures |At(ix.store, c).rhs| > 2
    ensures var r := At(ix.store, c);
      Weight(UpdatedAll(ix, r.rhs[0], r.rhs[1], w, legacy), ix.rules) < Weight(ix.store, ix.rules)
  {
    CandidateShape(ix, c, scored);
    var r := At(ix.store, c);
    var a, b := r.rhs[0], r.rhs[1];
    var store := UpdatedAll(ix, a, b, w, legacy);
    RewriteAllKeeps(ix, a, b, w, legacy, scored);
    UpdatedAllSpec(ix, a, b, w, legacy);
    var k :| 0 <= k < |ix.rules| && ix.rules[k] == c;
    assert PairAt(r.rhs, 0, a, b);
    RewriteRuleFacts(r, a, b, w);
    RewriteTwice(r, scored, a, b, w);
    assert RuleWeight(At(store, ix.rules[k])) < RuleWeight(At(ix.store, ix.rules[k]));
    WeightBelow(ix.store, store, ix.rules);
  }

  /** addRule of a TWO_NON_TERMINAL rule in shape keeps the index consistent and every rule in
      shape, changes no old object, leaves the weight alone and leaves the rule in the grammar. */
  lemma AddedPersists(ix: Index, r: Rule, p: Rule -> bool)
    requires Consistent(ix) && RulesAll(ix, p) && p(r) && r.kind == Some(TwoNonTerminal)
    ensures var ix' := Added(ix, r);
      && Consistent(ix') && RulesAll(ix', p) && Persists(ix, ix')
      && Weight(ix'.store, ix'.rules) == Weight(ix.store, ix.rules)
      && HasRule(ix', r.lhs, r.rhs)
  {
    AddedKeeps(ix, r, p);
    WeightAdded(ix, r);
    var ix' := Added(ix, r);
    forall id | 0 <= id < |ix.store| ensures ix'.store[id] == ix.store[id] {
      StoreGrowsAt(ix.store, ix'.store, id);
    }
    AddedHasRule(ix, r);
  }

  /** The body of the loop of pass 2 as code: read B and C off the candidate, rewrite every
      rule, add new symbol -> B C, and look for the next candidate. */
  method Pass2Round(ghost ix0: Index, ix: Index, c: nat, count: nat, flavour: Flavour) returns (ix': Index, candidate': Option<nat>)
    requires Pass2State(ix0, ix, Some(c), IsScored(flavour))
    ensures |At(ix.store, c).rhs| > 2 && ix' == Pass2Step(ix, c, count, flavour)
    ensures Pass2State(ix0, ix', candidate', IsScored(flavour))
    ensures Weight(ix'.store, ix'.rules) < Weight(ix.store, ix.rules)
  {
    Pass2StateStep(ix0, ix, c, count, flavour);
    CandidateShape(ix, c, IsScored(flavour));
    var r := ix.store[c];
    var newSymbol := NewSymbol(count);
    var newRightHandSide := [r.rhs[0], r.rhs[1]];
    var store := UpdateAll(ix, r.rhs[0], r.rhs[1], newSymbol, flavour == Legacy);
    ix' := AddRule(ix.(store := store), PairRule(newSymbol, newRightHandSide, flavour));
    candidate' := GetMultipleCandidate(ix');
  }

  lemma Pass2StateStep(ix0: Index, ix: Index, c: nat, count: nat, flavour: Flavour)
    requires Pass2State(ix0, ix, Some(c), IsScored(flavour))
    ensures |At(ix.store, c).rhs| > 2
    ensures var ix' := Pass2Step(ix, c, count, flavour);
      && Pass2State(ix0, ix', MultipleCandidate(ix'), IsScored(flavour))
      && Weight(ix'.store, ix'.rules) < Weight(ix.store, ix.rules)
  {
    Pass2StepFacts(ix, c, count, flavour);
    PersistsTransitive(ix0, ix, Pass2Step(ix, c, count, flavour));
  }

  /** updateMultipleNonTerminalFromRightHandSide: while some MULTIPLE_NON_TERMINAL rule is left,
      take the first, A -> B C ..., rewrite B C into X<count> everywhere, add X<count> -> B C and
      count up.  Afterwards there is no MULTIPLE_NON_TERMINAL rule, every rule is still typed in
      agreement with its length, and no object has left the grammar or changed its left-hand
      side or probability. */
  method UpdateMultipleNonTerminals(ix0: Index, flavour: Flavour) returns (ix: Index)
    requires Consistent(ix0) && RulesAll(ix0, Pass2Rule(IsScored(flavour)))
    ensures Consistent(ix) && RulesAll(ix, Pass2Rule(IsScored(flavour))) && Persists(ix0, ix)
    ensures MultipleCandidate(ix).None?
  {
    ix := ix0;
    var count: nat := 0;
    var candidate := GetMultipleCandidate(ix);
    while candidate.Some?
      invariant Pass2State(ix0, ix, candidate, IsScored(flavour))
      decreases Weight(ix.store, ix.rules)
    {
      ix, candidate := Pass2Round(ix0, ix, candidate.value, count, flavour);
      count := count + 1;
    }
  }

  // ---------------------------------------------------------------- convertToChomskyNormalForm

  /** A rule of a grammar in Chomsky normal form as the conversion leaves it: A -> a, A -> B C, or
      the left-recursive A -> A that pass 1 keeps. */
  predicate ChomskyRule(r: Rule)
  {
    match r.kind
    case Some(Terminal) => |r.rhs| == 1
    case Some(SingleNonTerminal) => r.rhs == [r.lhs]
    case Some(TwoNonTerminal) => |r.rhs| == 2
    case _ => false
  }

  lemma ChomskyRules(ix: Index, scored: bool)
    requires RulesAll(ix, Pass2Rule(scored)) && MultipleCandidate(ix).None?
    ensures RulesAll(ix, ChomskyRule) && (scored ==> AllScored(ix))
  {
    forall k | 0 <= k < |ix.rules| ensures ChomskyRule(At(ix.store, ix.rules[k])) && (scored ==> Scored(At(ix.store, ix.rules[k]))) {
      assert Pass2Rule(scored)(At(ix.store, ix.rules[k]));
    }
  }

  /** Between the passes: what pass 1 leaves is what pass 2 asks for. */
  lemma Pass1ToPass2(ix: Index, scored: bool)
    requires RulesAll(ix, WellTyped) && (scored ==> AllScored(ix)) && RulesAll(ix, NoChain)
    ensures RulesAll(ix, Pass2Rule(scored))
  {
    forall k | 0 <= k < |ix.rules| ensures Pass2Rule(scored)(At(ix.store, ix.rules[k])) {
      assert WellTyped(At(ix.store, ix.rules[k])) && NoChain(At(ix.store, ix.rules[k]));
      assert scored ==> Scored(At(ix.store, ix.rules[k]));
    }
  }

  /** RuleComparator and RuleRightSideComparator are total preorders on the objects of any list. */
  lemma ComparatorsTotal(store: seq<Rule>, xs: seq<nat>)
    ensures TotalPreorderOn(xs, ByRule(store)) && TotalPreorderOn(xs, ByRight(store))
  {
    forall a, b | a in xs && b in xs
      ensures ByRule(store)(a, b) == -ByRule(store)(b, a) && ByRight(store)(a, b) == -ByRight(store)(b, a)
    {
      RuleOrder.RuleCompareAntisymmetric(At(store, a), At(store, b));
    }
    forall a, b, c | a in xs && b in xs && c in xs && ByRule(store)(a, b) <= 0 && ByRule(store)(b, c) <= 0
      ensures ByRule(store)(a, c) <= 0
    {
      RuleOrder.RuleCompareTransitive(At(store, a), At(store, b), At(store, c));
    }
    forall a, b, c | a in xs && b in xs && c in xs && ByRight(store)(a, b) <= 0 && ByRight(store)(b, c) <= 0
      ensures ByRight(store)(a, c) <= 0
    {
      RuleOrder.RightSideCompareTransitive(At(store, a), At(store, b), At(store, c));
    }
  }

  /** Reordering both lists keeps the index consistent and keeps every property of its rules. */
  lemma ReorderedKeeps(ix: Index, rules: seq<nat>, right: seq<nat>, p: Rule -> bool)
    requires Consistent(ix) && multiset(rules) == multiset(ix.rules) && multiset(right) == multiset(ix.right)
    requires RulesAll(ix, p)
    ensures Consistent(Index(ix.store, rules, right)) && RulesAll(Index(ix.store, rules, right), p)
  {
    PermutationDistinct(ix.rules, rules);
    PermutationDistinct(ix.right, right);
    forall k | 0 <= k < |rules| ensures rules[k] < |ix.store| && p(At(ix.store, rules[k])) {
      assert rules[k] in multiset(ix.rules);
      var j :| 0 <= j < |ix.rules| && ix.rules[j] == rules[k];
    }
  }

  /** convertToChomskyNormalForm: pass 1, pass 2, then `rules` sorted by RuleComparator and
      rulesRightSorted by RuleRightSideComparator.  Every rule is then A -> a, A -> B C or A -> A,
      the two lists are in order again and hold the same objects, and in the probabilistic
      grammar every rule still carries a probability.  No object changes its left-hand side or
      probability; every TWO_NON_TERMINAL rule stays as it was, and so does every TERMINAL rule
      A -> a unless some SINGLE_NON_TERMINAL rule points at a as well. */
  method ConvertToChomskyNormalForm(ix0: Index, flavour: Flavour) returns (ix: Index)
    requires Valid(ix0) && RulesAll(ix0, WellTyped) && (IsScored(flavour) ==> AllScored(ix0))
    ensures Consistent(ix) && Sorted(ix.rules, ByRule(ix.store)) && Sorted(ix.right, ByRight(ix.store))
    ensures RulesAll(ix, ChomskyRule)
    ensures IsScored(flavour) ==> AllScored(ix)
    ensures Unrenamed(ix0, ix)
    ensures forall id :: id in ix0.rules && At(ix0.store, id).kind == Some(TwoNonTerminal) ==> Kept(ix0, ix, id)
    ensures forall id :: id in ix0.rules && At(ix0.store, id).kind == Some(Terminal) && !Replaceable(ix0, At(ix0.store, id)) ==>
      Kept(ix0, ix, id)
  {
    var scored := IsScored(flavour);
    var pass1, removed := RemoveSingleNonTerminals(ix0, scored);
    Pass1ToPass2(pass1, scored);
    var pass2 := UpdateMultipleNonTerminals(pass1, flavour);
    ChomskyRules(pass2, scored);
    ComparatorsTotal(pass2.store, pass2.rules);
    ComparatorsTotal(pass2.store, pass2.right);
    var rules := Sort(pass2.rules, ByRule(pass2.store));
    var right := Sort(pass2.right, ByRight(pass2.store));
    ReorderedKeeps(pass2, rules, right, ChomskyRule);
    if scored {
      ReorderedKeeps(pass2, rules, right, Scored);
    }
    ix := Index(pass2.store, rules, right);
    ConvertedKeeps(ix0, pass1, pass2, ix);
  }

  /** Every object of the starting store is still there with its left-hand side and probability. */
  predicate Unrenamed(ix0: Index, ix: Index)
  {
    && |ix0.store| <= |ix.store|
    && forall id :: 0 <= id < |ix0.store| ==> ix.store[id].lhs == ix0.store[id].lhs && ix.store[id].score == ix0.store[id].score
  }

  /** The object id is still in `rules` and unchanged. */
  predicate Kept(ix0: Index, ix: Index, id: nat)
  {
    id in ix.rules && At(ix.store, id) == At(ix0.store, id)
  }

  /** What the two passes and the sorts keep of the starting grammar. */
  lemma ConvertedKeeps(ix0: Index, pass1: Index, pass2: Index, ix: Index)
    requires Consistent(ix0) && RulesAll(ix0, WellTyped) && Consistent(pass1)
    requires StoreGrows(ix0.store, pass1.store)
    requires forall id :: id in ix0.rules && !Replaceable(ix0, At(ix0.store, id)) ==> id in pass1.rules
    requires Persists(pass1, pass2)
    requires ix.store == pass2.store && multiset(ix.rules) == multiset(pass2.rules)
    ensures Unrenamed(ix0, ix)
    ensures forall id :: id in ix0.rules && At(ix0.store, id).kind == Some(TwoNonTerminal) ==> Kept(ix0, ix, id)
    ensures forall id :: id in ix0.rules && At(ix0.store, id).kind == Some(Terminal) && !Replaceable(ix0, At(ix0.store, id)) ==>
      Kept(ix0, ix, id)
  {
    forall id | 0 <= id < |ix0.store|
      ensures ix.store[id].lhs == ix0.store[id].lhs && ix.store[id].score == ix0.store[id].score
    {
      StoreGrowsAt(ix0.store, pass1.store, id);
    }
    forall id | id in ix0.rules && (At(ix0.store, id).kind == Some(TwoNonTerminal) ||
                                    (At(ix0.store, id).kind == Some(Terminal) && !Replaceable(ix0, At(ix0.store, id))))
      ensures Kept(ix0, ix, id)
    {
      var k :| 0 <= k < |ix0.rules| && ix0.rules[k] == id;
      assert WellTyped(At(ix0.store, ix0.rules[k]));
      StoreGrowsAt(ix0.store, pass1.store, id);
      assert pass2.store[id] == pass1.store[id];
      assert id in multiset(pass2.rules);
    }
  }
}
