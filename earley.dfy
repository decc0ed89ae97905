/** EarleyParser and ProbabilisticEarleyParser: constructChart fills one Chart per position
    0..n of the sentence with dotted items, driven by a loop over each chart's discovery list
    that also visits the entries added while it runs.  An incomplete entry whose next category
    is not a part-of-speech tag goes to the predictor, one waiting for a tag to the scanner, and
    a complete entry to the completer.  The two parsers differ only in the entries they build
    (probabilistic entries carry probabilities) and in how the completer inserts (addOrUpdate
    instead of addChartEntry), so both are modelled here, told apart by a Variant. */
module EarleyParser {
  import opened Wrappers
  import opened Rules
  import opened RuleIndex
  import opened SortedLists
  import opened ParseTrees
  import opened ExceptionalWords
  import opened ChartEntries
  import opened Charts
  import opened Grammar
  import Tables

  datatype Variant = PlainParser | ProbabilisticParser

  // ---------------------------------------------------------------- what the parsers ask of the grammar

  /** The answers of getRulesWithLeftSideX and getTerminalRulesWithRightSideX, as the rule
      objects they name, and partOfSpeechTags. */
  datatype Lookups = Lookups(left: Symbol -> seq<Rule>, terminal: Symbol -> seq<Rule>, posTags: seq<Symbol>)

  /** The rule objects behind a list of ids. */
  function RulesAt(store: seq<Rule>, ids: seq<nat>): (rs: seq<Rule>)
    ensures |rs| == |ids| && forall k :: 0 <= k < |ids| ==> rs[k] == At(store, ids[k])
  {
    seq(|ids|, k requires 0 <= k < |ids| => At(store, ids[k]))
  }

  /** The lookups of a grammar index: what its query methods return. */
  function LookupsOf(ix: Index): (g: Lookups)
    ensures forall x :: g.left(x) == RulesAt(ix.store, RulesWithLeftSide(ix, x))
    ensures forall w :: g.terminal(w) == RulesAt(ix.store, TerminalRulesWithRightSide(ix, w))
    ensures g.posTags == PartOfSpeechTags(ix)
  {
    Lookups(x => RulesAt(ix.store, RulesWithLeftSide(ix, x)), w => RulesAt(ix.store, TerminalRulesWithRightSide(ix, w)), PartOfSpeechTags(ix))
  }

  /** The answers keep to their questions: rules X -> ... for X, and rules whose right-hand
      side starts with w for w. */
  ghost predicate Honest(g: Lookups)
  {
    && (forall x, r :: r in g.left(x) ==> r.lhs == x)
    && (forall w, r :: r in g.terminal(w) ==> r.rhs != [] && r.rhs[0] == w)
  }

  /** Whatever state the grammar is in, its queries only return rules that match. */
  lemma LookupsHonest(ix: Index)
    ensures Honest(LookupsOf(ix))
  {
    var g := LookupsOf(ix);
    forall x, r | r in g.left(x) ensures r.lhs == x {
      var ids := RulesWithLeftSide(ix, x);
      ScanSound(ix.rules, Rule(x, [x], None, None), AgainstLeft(ix.store), LhsIs(ix.store, x), Always());
      var k :| 0 <= k < |ids| && r == At(ix.store, ids[k]);
      assert LhsIs(ix.store, x)(ids[k]);
    }
    forall w, r | r in g.terminal(w) ensures r.rhs != [] && r.rhs[0] == w {
      var ids := TerminalRulesWithRightSide(ix, w);
      ScanSound(ix.right, Rule(w, [w], None, None), AgainstRight(ix.store), StartsWith(ix.store, w), OfKind(ix.store, Terminal));
      var k :| 0 <= k < |ids| && r == At(ix.store, ids[k]);
      assert StartsWith(ix.store, w)(ids[k]);
    }
  }

  /** A grammar the parse trees can be read from: every TERMINAL rule found has exactly one
      symbol on its right, and no rule has an empty right-hand side. */
  ghost predicate Proper(g: Lookups)
  {
    && (forall w, r :: r in g.terminal(w) ==> |r.rhs| == 1)
    && (forall x, r :: r in g.left(x) ==> r.rhs != [])
  }

  /** A valid grammar whose types fit its rules (what the constructors and updateTypes leave)
      is proper. */
  lemma LookupsProper(ix: Index)
    requires Valid(ix) && KindsFit(ix)
    ensures Proper(LookupsOf(ix))
  {
    forall w ensures forall r :: r in LookupsOf(ix).terminal(w) ==> |r.rhs| == 1 {
      TerminalSingle(ix, w);
    }
    forall x ensures forall r :: r in LookupsOf(ix).left(x) ==> r.rhs != [] {
      LeftNonEmpty(ix, x);
    }
  }

  lemma TerminalSingle(ix: Index, w: Symbol)
    requires Valid(ix) && KindsFit(ix)
    ensures forall r :: r in LookupsOf(ix).terminal(w) ==> |r.rhs| == 1
  {
    var ids := TerminalRulesWithRightSide(ix, w);
    TerminalRulesWithRightSideExact(ix, w);
    forall r | r in RulesAt(ix.store, ids) ensures |r.rhs| == 1 {
      var k :| 0 <= k < |ids| && r == At(ix.store, ids[k]);
      assert ids[k] in ids;
    }
  }

  lemma LeftNonEmpty(ix: Index, x: Symbol)
    requires Valid(ix)
    ensures forall r :: r in LookupsOf(ix).left(x) ==> r.rhs != []
  {
    var ids := RulesWithLeftSide(ix, x);
    RulesWithLeftSideExact(ix, x);
    forall r | r in RulesAt(ix.store, ids) ensures r.rhs != [] {
      var k :| 0 <= k < |ids| && r == At(ix.store, ids[k]);
      assert ids[k] in ids;
      var m :| 0 <= m < |ix.rules| && ix.rules[m] == ids[k];
    }
  }

  /** Every rule in either list of the grammar is a ProbabilisticRule: what the casts of the
      probabilistic parser demand. */
  predicate AllProbabilistic(ix: Index)
  {
    (forall id :: id in ix.rules ==> Scored(At(ix.store, id))) && (forall id :: id in ix.right ==> Scored(At(ix.store, id)))
  }

  ghost predicate ScoredLookups(g: Lookups)
  {
    (forall x, r :: r in g.left(x) ==> r.score.Some?) && (forall w, r :: r in g.terminal(w) ==> r.score.Some?)
  }

  lemma LookupsScored(ix: Index)
    requires AllProbabilistic(ix)
    ensures ScoredLookups(LookupsOf(ix))
  {
    var g := LookupsOf(ix);
    forall x, r | r in g.left(x) ensures r.score.Some? {
      var ids := RulesWithLeftSide(ix, x);
      ScanSound(ix.rules, Rule(x, [x], None, None), AgainstLeft(ix.store), LhsIs(ix.store, x), Always());
      var k :| 0 <= k < |ids| && r == At(ix.store, ids[k]);
      assert ids[k] in ids;
    }
    forall w, r | r in g.terminal(w) ensures r.score.Some? {
      var ids := TerminalRulesWithRightSide(ix, w);
      ScanSound(ix.right, Rule(w, [w], None, None), AgainstRight(ix.store), StartsWith(ix.store, w), OfKind(ix.store, Terminal));
      var k :| 0 <= k < |ids| && r == At(ix.store, ids[k]);
      assert ids[k] in ids;
    }
  }

  // ---------------------------------------------------------------- what an entry has recognised

  /** The symbols of the right-hand side before the dot that were scanned rather than
      completed: the dot minus the number of backpointers. */
  function Lead(e: ChartEntry): int
  {
    e.dotPlace - |e.states|
  }

  /** What an entry of the chart stands for, given the words ws.  It covers words from..to; its
      dot lies in its right-hand side; it comes from a grammar query (the rules of its left-hand
      side, or, when its first symbol was scanned, the terminal rules of the word at from); an
      entry without backpointers covers nothing (predicted) or that one word (scanned); and its
      backpointers (Link) are complete entries that span in turn. */
  predicate Spans(g: Lookups, ws: seq<Symbol>, e: ChartEntry)
    decreases e.height
  {
    && Local(g, ws, e)
    && forall k :: 0 <= k < |e.states| ==> e.states[k].height < e.height && Spans(g, ws, e.states[k])
  }

  /** The facts about one entry and its backpointers that do not look further down. */
  predicate Local(g: Lookups, ws: seq<Symbol>, e: ChartEntry)
  {
    && 0 <= e.from <= e.to <= |ws|
    && DotInRange(e)
    && (Lead(e) == 0 || Lead(e) == 1)
    && (Lead(e) == 0 ==> e.rule in g.left(e.rule.lhs))
    && (Lead(e) == 1 ==> e.from < |ws| && e.rule in g.terminal(ws[e.from]))
    && (e.states == [] ==> e.to == e.from + Lead(e))
    && forall k :: 0 <= k < |e.states| ==> Link(e, k)
  }

  /** Backpointer k is complete, labelled with the symbol k places after the scanned one, and
      starts where the previous one (or, for the first, the entry's own words) ends; the last
      one ends where the entry does. */
  predicate Link(e: ChartEntry, k: int)
  {
    && 0 <= k < |e.states|
    && 0 <= Lead(e) + k < |e.rule.rhs|
    && Complete(e.states[k])
    && e.states[k].rule.lhs == e.rule.rhs[Lead(e) + k]
    && e.states[k].from == (if k == 0 then e.from + Lead(e) else e.states[k - 1].to)
    && (k == |e.states| - 1 ==> e.states[k].to == e.to)
  }

  /** An entry of chart[k]: it ends at k, its backpointers are lower than it, and it spans. */
  predicate Item(g: Lookups, ws: seq<Symbol>, k: int, e: ChartEntry)
  {
    e.to == k && Ordered(e) && Spans(g, ws, e)
  }

  function ItemAt(g: Lookups, ws: seq<Symbol>, k: int): ChartEntry -> bool
  {
    (e: ChartEntry) => Item(g, ws, k, e)
  }

  /** A predicted entry: the rule r at [i, i] with the dot at 0. */
  lemma PredictedSpans(g: Lookups, ws: seq<Symbol>, e: ChartEntry, B: Symbol)
    requires Honest(g) && e.rule in g.left(B)
    requires 0 <= e.from == e.to <= |ws| && e.dotPlace == 0 && e.states == [] && Ordered(e)
    ensures Item(g, ws, e.to, e)
  {
  }

  /** A scanned entry: a terminal rule of the word at i, spanning [i, i + 1] with the dot at 1. */
  lemma ScannedSpans(g: Lookups, ws: seq<Symbol>, e: ChartEntry)
    requires Honest(g) && 0 <= e.from < |ws| && e.rule in g.terminal(ws[e.from])
    requires e.to == e.from + 1 && e.dotPlace == 1 && e.states == [] && Ordered(e)
    ensures Item(g, ws, e.to, e)
  {
  }

  /** An advanced entry: the completer moves the dot of an entry a waiting for c's category
      over the complete entry c that starts where a ends. */
  lemma AdvancedSpans(g: Lookups, ws: seq<Symbol>, a: ChartEntry, c: ChartEntry, x: ChartEntry)
    requires Spans(g, ws, a) && Spans(g, ws, c) && Complete(c) && Waits(a, c.rule.lhs) && a.to == c.from
    requires x.rule == a.rule && x.from == a.from && x.to == c.to && x.dotPlace == a.dotPlace + 1
    requires x.states == a.states + [c] && Ordered(x)
    ensures Item(g, ws, x.to, x)
  {
    var n := |a.states|;
    assert Lead(x) == Lead(a);
    forall k | 0 <= k < |x.states| ensures Link(x, k) {
      AdvancedLink(a, c, x, k);
    }
    forall k | 0 <= k < |x.states| ensures x.states[k].height < x.height && Spans(g, ws, x.states[k]) {
      if k < n {
        assert x.states[k] == a.states[k];
      }
    }
  }

  lemma AdvancedLink(a: ChartEntry, c: ChartEntry, x: ChartEntry, k: int)
    requires (forall j :: 0 <= j < |a.states| ==> Link(a, j)) && (a.states == [] ==> a.to == a.from + Lead(a))
    requires Complete(c) && Waits(a, c.rule.lhs) && a.to == c.from && DotInRange(a) && 0 <= Lead(a)
    requires x.rule == a.rule && x.from == a.from && x.to == c.to && x.dotPlace == a.dotPlace + 1
    requires x.states == a.states + [c] && 0 <= k < |x.states|
    ensures Link(x, k)
  {
    var n := |a.states|;
    if k < n {
      assert Link(a, k);
      assert x.states[k] == a.states[k];
      if k > 0 {
        assert x.states[k - 1] == a.states[k - 1];
      }
    } else {
      assert x.states[k] == c;
      if k > 0 {
        assert Link(a, n - 1);
        assert x.states[k - 1] == a.states[n - 1];
      }
    }
  }

  // ---------------------------------------------------------------- the charts

  /** What constructChart keeps true of chart[k]: the next-category list is sorted, and every
      entry of every list is an item ending at k. */
  ghost predicate ChartOk(g: Lookups, ws: seq<Symbol>, k: int, c: ChartLists)
  {
    Sorted(c.byNext, NextCompare) && AllOf(c, ItemAt(g, ws, k))
  }

  /** One chart per position 0..n, distinct objects, each one sound. */
  ghost predicate ChartsSound(g: Lookups, ws: seq<Symbol>, chart: seq<Chart>)
    reads chart
  {
    && |chart| == |ws| + 1
    && (forall a, b :: 0 <= a < b < |chart| ==> chart[a] != chart[b])
    && forall k :: 0 <= k < |chart| ==> ChartOk(g, ws, k, chart[k].View())
  }

  /** The discovery list of c' extends that of c: getEntry(j) keeps answering what it did. */
  predicate Grows(c: ChartLists, c': ChartLists)
  {
    |c.entries| <= |c'.entries| && forall j :: 0 <= j < |c.entries| ==> c'.entries[j] == c.entries[j]
  }

  /** addChartEntry as a step of a loop. */
  function Adder(): (ChartLists, ChartEntry) -> ChartLists
  {
    (c: ChartLists, e: ChartEntry) => WithEntry(c, e)
  }

  /** chart[k].addChartEntry(e) for an item e ending at k. */
  method AddAt(g: Lookups, ws: seq<Symbol>, chart: seq<Chart>, k: nat, e: ChartEntry)
    requires ChartsSound(g, ws, chart) && k < |chart| && Item(g, ws, k, e)
    modifies chart[k]
    ensures ChartsSound(g, ws, chart)
    ensures chart[k].View() == WithEntry(old(chart[k].View()), e)
  {
    WithEntrySorted(chart[k].View(), e);
    WithEntryAllOf(chart[k].View(), e, ItemAt(g, ws, k));
    chart[k].AddChartEntry(e);
  }

  /** chart[k].addOrUpdate(e) for an item e ending at k. */
  method UpdateAt(g: Lookups, ws: seq<Symbol>, chart: seq<Chart>, k: nat, e: ChartEntry) returns (b: bool)
    requires ChartsSound(g, ws, chart) && k < |chart| && Item(g, ws, k, e)
    modifies chart[k]
    ensures ChartsSound(g, ws, chart)
    ensures (chart[k].View(), b) == Updated(old(chart[k].View()), e)
  {
    UpdatedSorted(chart[k].View(), e);
    UpdatedAllOf(chart[k].View(), e, ItemAt(g, ws, k));
    b := chart[k].AddOrUpdate(e);
  }

  // ---------------------------------------------------------------- the entries the parsers build

  /** The probability an entry built from r starts with: the rule's own in the probabilistic
      parser (its constructor takes a ProbabilisticRule), 1.0 in the plain one. */
  function RuleProbability(v: Variant, r: Rule): real
  {
    if v.ProbabilisticParser? && r.score.Some? then r.score.value.probability else 1.0
  }

  /** x is what the four-argument constructor of the variant builds. */
  predicate Made(x: ChartEntry, v: Variant, r: Rule, from: int, to: int, dot: int)
  {
    && x.rule == r && x.from == from && x.to == to && x.dotPlace == dot
    && x.states == [] && x.probability == RuleProbability(v, r)
  }

  /** new ChartEntry(rule, from, to, dot), through the ProbabilisticRule constructor in the
      probabilistic parser. */
  method NewEntry(v: Variant, r: Rule, from: int, to: int, dot: int) returns (x: ChartEntry)
    requires v.ProbabilisticParser? ==> r.score.Some?
    ensures fresh(x) && Made(x, v, r, from, to, dot) && Ordered(x)
  {
    if v.PlainParser? {
      x := new ChartEntry(r, from, to, dot);
    } else {
      x := new ChartEntry.Scored(r, from, to, dot);
    }
  }

  /** x advances a over the complete entry c: a's rule and start, c's end, the dot one further,
      c appended to a's backpointers; the product of the probabilities in the probabilistic
      parser, 1.0 in the plain one. */
  predicate AdvancedOver(x: ChartEntry, a: ChartEntry, c: ChartEntry, v: Variant)
  {
    && x.rule == a.rule && x.from == a.from && x.to == c.to && x.dotPlace == a.dotPlace + 1
    && x.states == a.states + [c]
    && x.probability == (if v.ProbabilisticParser? then a.probability * c.probability else 1.0)
  }

  /** The six-argument constructor of the variant. */
  method NewAdvanced(v: Variant, a: ChartEntry, c: ChartEntry) returns (x: ChartEntry)
    requires Ordered(a) && Ordered(c)
    ensures fresh(x) && AdvancedOver(x, a, c, v) && Ordered(x)
  {
    if v.PlainParser? {
      x := new ChartEntry.Advanced(a.rule, a.from, c.to, a.dotPlace + 1, a, c);
    } else {
      x := new ChartEntry.AdvancedScored(a.rule, a.from, c.to, a.dotPlace + 1, a, c);
    }
  }

  // ---------------------------------------------------------------- predictor

  /** The test of line 24: a rule predicted at position at fits before the end of the chart
      array of the given size. */
  function Fits(at: int, size: int): Rule -> bool
  {
    (r: Rule) => |r.rhs| + at < size
  }

  /** The entries built from the rules rs at position at: one per rule, in order, each with
      the dot at 0 and covering nothing. */
  predicate Predictions(v: Variant, rs: seq<Rule>, at: int, added: seq<ChartEntry>)
  {
    |added| == |rs| && forall k :: 0 <= k < |rs| ==> Made(added[k], v, rs[k], at, at, 0)
  }

  /** One more rule, one more entry. */
  lemma PredictionsAppend(v: Variant, rs: seq<Rule>, at: int, added: seq<ChartEntry>, r: Rule, x: ChartEntry)
    requires Predictions(v, rs, at, added) && Made(x, v, r, at, at, 0)
    ensures Predictions(v, rs + [r], at, added + [x])
  {
    forall k | 0 <= k < |rs| + 1 ensures Made((added + [x])[k], v, (rs + [r])[k], at, at, 0) {
      if k < |rs| {
        assert (added + [x])[k] == added[k] && (rs + [r])[k] == rs[k];
      }
    }
  }

  /** The loop of lines 23-27: every rule of B that fits becomes an entry of chart[at]. */
  method PredictAll(g: Lookups, ws: seq<Symbol>, v: Variant, chart: seq<Chart>, at: nat, B: Symbol) returns (ghost added: seq<ChartEntry>)
    requires ChartsSound(g, ws, chart) && at < |chart| && Honest(g) && (v.ProbabilisticParser? ==> ScoredLookups(g))
    modifies chart[at]
    ensures ChartsSound(g, ws, chart)
    ensures Predictions(v, Tables.Filter(g.left(B), Fits(at, |chart|)), at, added)
    ensures chart[at].View() == Tables.Fold(Adder(), old(chart[at].View()), added)
  {
    var candidates := g.left(B);
    added := [];
    Tables.JoinNothing([], candidates);
    for i := 0 to |candidates|
      invariant ChartsSound(g, ws, chart)
      invariant Predictions(v, Tables.Filter(candidates[..i], Fits(at, |chart|)), at, added)
      invariant chart[at].View() == Tables.Fold(Adder(), old(chart[at].View()), added)
    {
      Tables.FilterStep(candidates, Fits(at, |chart|), i);
      if |candidates[i].rhs| + at < |chart| {
        assert candidates[i] in g.left(B);
        var x := NewEntry(v, candidates[i], at, at, 0);
        PredictedSpans(g, ws, x, B);
        Tables.FoldAppend(Adder(), old(chart[at].View()), added, x);
        PredictionsAppend(v, Tables.Filter(candidates[..i], Fits(at, |chart|)), at, added, candidates[i], x);
        AddAt(g, ws, chart, at, x);
        added := added + [x];
      }
    }
    Tables.Whole(candidates);
  }

  /** What the predictor does at position at for the category B: nothing when B was already
      predicted there; otherwise it records B and adds an entry for every rule of B that fits
      before the end of the chart array. */
  predicate Predicted(g: Lookups, v: Variant, size: int, at: int, B: Symbol, predicted: seq<seq<Symbol>>, predicted': seq<seq<Symbol>>, c: ChartLists, c': ChartLists, added: seq<ChartEntry>)
    requires 0 <= at < |predicted|
  {
    && c' == Tables.Fold(Adder(), c, added)
    && if B in predicted[at] then predicted' == predicted && added == []
       else predicted' == predicted[at := predicted[at] + [B]] && Predictions(v, Tables.Filter(g.left(B), Fits(at, size)), at, added)
  }

  /** predictor, for an entry e of chart[e.to]. */
  method Predictor(g: Lookups, ws: seq<Symbol>, v: Variant, chart: seq<Chart>, predicted: seq<seq<Symbol>>, e: ChartEntry) returns (predicted': seq<seq<Symbol>>, ghost added: seq<ChartEntry>)
    requires ChartsSound(g, ws, chart) && 0 <= e.to < |chart| && |predicted| == |chart|
    requires Honest(g) && (v.ProbabilisticParser? ==> ScoredLookups(g))
    modifies chart[e.to]
    ensures ChartsSound(g, ws, chart) && |predicted'| == |predicted|
    ensures Predicted(g, v, |chart|, e.to, NextCategory(e), predicted, predicted', old(chart[e.to].View()), chart[e.to].View(), added)
  {
    var B := NextCategory(e);
    predicted' := predicted;
    added := [];
    if B !in predicted[e.to] {
      added := PredictAll(g, ws, v, chart, e.to, B);
      predicted' := predicted[e.to := predicted[e.to] + [B]];
    }
  }

  /** The loop of lines 83-85: an entry with the dot at 0 at position 0 for every rule of S,
      with no test of its length. */
  method SeedAll(g: Lookups, ws: seq<Symbol>, v: Variant, chart: seq<Chart>) returns (ghost added: seq<ChartEntry>)
    requires ChartsSound(g, ws, chart) && Honest(g) && (v.ProbabilisticParser? ==> ScoredLookups(g))
    modifies chart[0]
    ensures ChartsSound(g, ws, chart)
    ensures Predictions(v, g.left("S"), 0, added)
    ensures chart[0].View() == Tables.Fold(Adder(), old(chart[0].View()), added)
  {
    var initialRules := g.left("S");
    added := [];
    Tables.JoinNothing([], initialRules);
    for i := 0 to |initialRules|
      invariant ChartsSound(g, ws, chart)
      invariant Predictions(v, initialRules[..i], 0, added)
      invariant chart[0].View() == Tables.Fold(Adder(), old(chart[0].View()), added)
    {
      assert initialRules[i] in g.left("S");
      var x := NewEntry(v, initialRules[i], 0, 0, 0);
      PredictedSpans(g, ws, x, "S");
      Tables.FoldAppend(Adder(), old(chart[0].View()), added, x);
      PredictionsAppend(v, initialRules[..i], 0, added, initialRules[i], x);
      SortedLists.Snoc(initialRules, i);
      AddAt(g, ws, chart, 0, x);
      added := added + [x];
    }
    Tables.Whole(initialRules);
  }

  // ---------------------------------------------------------------- scanner

  /** Where the loop of lines 42-47 stops: the index of the first rule of rs with left-hand
      side B, or -1 when there is none. */
  function FirstWithLhs(rs: seq<Rule>, B: Symbol): (k: int)
    ensures -1 <= k < |rs|
    ensures k >= 0 ==> rs[k].lhs == B && forall j :: 0 <= j < k ==> rs[j].lhs != B
    ensures k < 0 ==> forall j :: 0 <= j < |rs| ==> rs[j].lhs != B
  {
    if rs == [] then -1
    else if rs[0].lhs == B then 0
    else
      var k := FirstWithLhs(rs[1..], B);
      assert forall j :: 1 <= j < |rs| ==> rs[j] == rs[1..][j - 1];
      if k < 0 then -1 else k + 1
  }

  /** The search of the loop of lines 42-47. */
  method FindLhs(rs: seq<Rule>, B: Symbol) returns (k: int)
    ensures k == FirstWithLhs(rs, B)
  {
    for i := 0 to |rs|
      invariant forall j :: 0 <= j < i ==> rs[j].lhs != B
    {
      if rs[i].lhs == B {
        return i;
      }
    }
    return -1;
  }

  /** What the scanner does for an entry waiting for B at position at, before the last word:
      the first terminal rule of the word at `at` with left-hand side B, if there is one,
      becomes an entry of chart[at + 1] with the dot at 1 covering that word. */
  predicate Scanned(g: Lookups, ws: seq<Symbol>, v: Variant, at: int, B: Symbol, c: ChartLists, c': ChartLists, added: seq<ChartEntry>)
    requires 0 <= at < |ws|
  {
    && c' == Tables.Fold(Adder(), c, added)
    && var rs := g.terminal(ws[at]);
       var k := FirstWithLhs(rs, B);
       if k < 0 then added == [] else |added| == 1 && Made(added[0], v, rs[k], at, at + 1, 1)
  }

  /** scanner, for an entry e of chart[e.to]: nothing at the end of the sentence. */
  method Scanner(g: Lookups, ws: seq<Symbol>, v: Variant, chart: seq<Chart>, e: ChartEntry) returns (ghost added: seq<ChartEntry>)
    requires ChartsSound(g, ws, chart) && 0 <= e.to < |chart|
    requires Honest(g) && (v.ProbabilisticParser? ==> ScoredLookups(g))
    modifies if e.to < |ws| then {chart[e.to + 1]} else {}
    ensures ChartsSound(g, ws, chart)
    ensures e.to == |ws| ==> added == []
    ensures e.to < |ws| ==> Scanned(g, ws, v, e.to, NextCategory(e), old(chart[e.to + 1].View()), chart[e.to + 1].View(), added)
  {
    var B := NextCategory(e);
    added := [];
    if e.to == |ws| {
      return;
    }
    added := ScanWord(g, ws, v, chart, e.to, B);
  }

  /** The scanner past its test of line 37, for the word at position at. */
  method ScanWord(g: Lookups, ws: seq<Symbol>, v: Variant, chart: seq<Chart>, at: nat, B: Symbol) returns (ghost added: seq<ChartEntry>)
    requires ChartsSound(g, ws, chart) && at < |ws|
    requires Honest(g) && (v.ProbabilisticParser? ==> ScoredLookups(g))
    modifies chart[at + 1]
    ensures ChartsSound(g, ws, chart)
    ensures Scanned(g, ws, v, at, B, old(chart[at + 1].View()), chart[at + 1].View(), added)
  {
    var candidates := g.terminal(ws[at]);
    var k := FindLhs(candidates, B);
    added := [];
    if k >= 0 {
      assert candidates[k] in g.terminal(ws[at]);
      var x := NewEntry(v, candidates[k], at, at + 1, 1);
      ScannedSpans(g, ws, x);
      AddAt(g, ws, chart, at + 1, x);
      added := [x];
    }
  }

  // ---------------------------------------------------------------- completer

  /** The key completedList records for advancing a over c (line 58). */
  function Key(a: ChartEntry, c: ChartEntry): string
    requires Ordered(a) && Ordered(c)
  {
    ExtendedText(a) + ExtendedText(c)
  }

  /** The three tests the completer puts a candidate a through before building its advanced
      entry over c: it fits before the end of the chart array (line 57), its key has not been
      recorded (line 58), and the advanced entry's string differs from c's (line 60). */
  predicate Advances(a: ChartEntry, c: ChartEntry, size: int, completed: set<string>)
  {
    && Ordered(a) && Ordered(c)
    && |a.rule.rhs| - a.dotPlace - 1 + c.to < size
    && Key(a, c) !in completed
    && ItemText(a.rule, a.dotPlace + 1, a.from, c.to) != Text(c)
  }

  /** One turn of the completer's loop for the candidate a, with x the entry built for it:
      when a passes the tests, x goes into the chart and the key is recorded; the plain parser
      uses addChartEntry and always records, the probabilistic one addOrUpdate and records
      only when it answers true. */
  function TurnOf(v: Variant, c: ChartEntry, size: int, s: (ChartLists, set<string>), a: ChartEntry, x: ChartEntry): (ChartLists, set<string>)
  {
    if !Advances(a, c, size, s.1) then s
    else if v.PlainParser? then (WithEntry(s.0, x), s.1 + {Key(a, c)})
    else
      var u := Updated(s.0, x);
      (u.0, if u.1 then s.1 + {Key(a, c)} else s.1)
  }

  function Turn(v: Variant, c: ChartEntry, size: int): ((ChartLists, set<string>), (ChartEntry, ChartEntry)) -> (ChartLists, set<string>)
  {
    (s: (ChartLists, set<string>), p: (ChartEntry, ChartEntry)) => TurnOf(v, c, size, s, p.0, p.1)
  }

  /** What the completer does for the complete entry c: it takes the candidates in turn, in
      the order getNextCategoryX gives them, each paired with the entry it builds over c
      whenever the candidate passes the tests at that point (the pairing is free for the
      others, which build nothing).  s and s' are the chart at c's end and completedList
      before and after. */
  ghost predicate Completed(v: Variant, c: ChartEntry, size: int, candidates: seq<ChartEntry>, s: (ChartLists, set<string>), s': (ChartLists, set<string>), turns: seq<(ChartEntry, ChartEntry)>)
  {
    && |turns| == |candidates|
    && (forall k :: 0 <= k < |turns| ==> turns[k].0 == candidates[k])
    && (forall k :: 0 <= k < |turns| && Advances(turns[k].0, c, size, Tables.Fold(Turn(v, c, size), s, turns[..k]).1) ==>
          AdvancedOver(turns[k].1, turns[k].0, c, v))
    && s' == Tables.Fold(Turn(v, c, size), s, turns)
  }

  /** One more turn of the completer's loop. */
  lemma CompletedAppend(v: Variant, c: ChartEntry, size: int, done: seq<ChartEntry>, s: (ChartLists, set<string>), st: (ChartLists, set<string>),
                        turns: seq<(ChartEntry, ChartEntry)>, a: ChartEntry, x: ChartEntry)
    requires Completed(v, c, size, done, s, st, turns)
    requires Advances(a, c, size, st.1) ==> AdvancedOver(x, a, c, v)
    ensures Completed(v, c, size, done + [a], s, TurnOf(v, c, size, st, a, x), turns + [(a, x)])
  {
    var turns' := turns + [(a, x)];
    Tables.FoldAppend(Turn(v, c, size), s, turns, (a, x));
    Tables.PrefixesKept(turns, (a, x));
    forall k | 0 <= k < |turns'| ensures turns'[k].0 == (done + [a])[k] {
      if k < |turns| {
        assert turns'[k] == turns[k] && (done + [a])[k] == done[k];
      }
    }
    forall k | 0 <= k < |turns'| && Advances(turns'[k].0, c, size, Tables.Fold(Turn(v, c, size), s, turns'[..k]).1)
      ensures AdvancedOver(turns'[k].1, turns'[k].0, c, v)
    {
      if k < |turns| {
        assert turns'[k] == turns[k] && turns'[..k] == turns[..k];
      } else {
        assert turns'[..k] == turns;
      }
    }
  }

  /** completer, for a complete entry c of chart[c.to]. */
  method Completer(g: Lookups, ws: seq<Symbol>, v: Variant, chart: seq<Chart>, completed: set<string>, c: ChartEntry)
    returns (completed': set<string>, ghost turns: seq<(ChartEntry, ChartEntry)>)
    requires ChartsSound(g, ws, chart) && 0 <= c.to < |chart| && Item(g, ws, c.to, c) && Complete(c)
    modifies chart[c.to]
    ensures ChartsSound(g, ws, chart)
    ensures Completed(v, c, |chart|, WaitingFor(old(chart[c.from].byNext), c.rule.lhs), (old(chart[c.to].View()), completed), (chart[c.to].View(), completed'), turns)
  {
    var candidates := chart[c.from].GetNextCategoryX(c.rule.lhs);
    WaitingForExact(chart[c.from].byNext, c.rule.lhs);
    completed', turns := CompleteEach(g, ws, v, chart, completed, c, candidates);
  }

  /** The loop of lines 56-66 (plain) or 59-70 (probabilistic) over the candidates waiting for
      c's category. */
  method CompleteEach(g: Lookups, ws: seq<Symbol>, v: Variant, chart: seq<Chart>, completed: set<string>, c: ChartEntry, candidates: seq<ChartEntry>)
    returns (completed': set<string>, ghost turns: seq<(ChartEntry, ChartEntry)>)
    requires ChartsSound(g, ws, chart) && 0 <= c.to < |chart| && Item(g, ws, c.to, c) && Complete(c)
    requires forall a :: a in candidates ==> Item(g, ws, c.from, a) && Waits(a, c.rule.lhs)
    modifies chart[c.to]
    ensures ChartsSound(g, ws, chart)
    ensures Completed(v, c, |chart|, candidates, (old(chart[c.to].View()), completed), (chart[c.to].View(), completed'), turns)
  {
    ghost var s0 := (chart[c.to].View(), completed);
    completed' := completed;
    turns := [];
    Tables.JoinNothing([], candidates);
    for i := 0 to |candidates|
      invariant ChartsSound(g, ws, chart)
      invariant Completed(v, c, |chart|, candidates[..i], s0, (chart[c.to].View(), completed'), turns)
    {
      ghost var st := (chart[c.to].View(), completed');
      assert candidates[i] in candidates;
      var x;
      completed', x := CompleterTurn(g, ws, v, chart, completed', c, candidates[i]);
      CompletedAppend(v, c, |chart|, candidates[..i], s0, st, turns, candidates[i], x);
      turns := turns + [(candidates[i], x)];
      SortedLists.Snoc(candidates, i);
    }
    Tables.Whole(candidates);
  }

  /** The body of the completer's loop for the candidate a, a waiting entry of chart[c.from]:
      x is the entry built (c itself where none is). */
  method CompleterTurn(g: Lookups, ws: seq<Symbol>, v: Variant, chart: seq<Chart>, completed: set<string>, c: ChartEntry, a: ChartEntry)
    returns (completed': set<string>, x: ChartEntry)
    requires ChartsSound(g, ws, chart) && 0 <= c.to < |chart| && Item(g, ws, c.to, c) && Complete(c)
    requires Item(g, ws, c.from, a) && Waits(a, c.rule.lhs)
    modifies chart[c.to]
    ensures ChartsSound(g, ws, chart)
    ensures (chart[c.to].View(), completed') == TurnOf(v, c, |chart|, (old(chart[c.to].View()), completed), a, x)
    ensures Advances(a, c, |chart|, completed) ==> AdvancedOver(x, a, c, v)
  {
    completed' := completed;
    x := c;
    if |a.rule.rhs| - a.dotPlace - 1 + c.to < |chart| {
      var key := ExtendedText(a) + ExtendedText(c);
      if key !in completed {
        x := NewAdvanced(v, a, c);
        assert Text(x) == ItemText(a.rule, a.dotPlace + 1, a.from, c.to);
        if Text(x) != Text(c) {
          AdvancedSpans(g, ws, a, c, x);
          if v.PlainParser? {
            AddAt(g, ws, chart, c.to, x);
            completed' := completed' + {key};
          } else {
            var b := UpdateAt(g, ws, chart, c.to, x);
            if b {
              completed' := completed' + {key};
            }
          }
        }
      }
    }
  }

  // ---------------------------------------------------------------- the discovery lists only grow

  lemma GrowsTrans(a: ChartLists, b: ChartLists, c: ChartLists)
    requires Grows(a, b) && Grows(b, c)
    ensures Grows(a, c)
  {
  }

  /** Adding entries never removes or moves one in the discovery list. */
  lemma {:induction false} AddingGrows(c: ChartLists, xs: seq<ChartEntry>)
    ensures Grows(c, Tables.Fold(Adder(), c, xs))
  {
    if xs != [] {
      var init := xs[..|xs| - 1];
      AddingGrows(c, init);
      DiscoveryOrder(Tables.Fold(Adder(), c, init), xs[|xs| - 1]);
    }
  }

  /** Nor do the completer's turns, addOrUpdate included. */
  lemma {:induction false} TurnsGrow(v: Variant, c: ChartEntry, size: int, s: (ChartLists, set<string>), turns: seq<(ChartEntry, ChartEntry)>)
    ensures Grows(s.0, Tables.Fold(Turn(v, c, size), s, turns).0)
  {
    if turns != [] {
      var init := turns[..|turns| - 1];
      TurnsGrow(v, c, size, s, init);
      var before := Tables.Fold(Turn(v, c, size), s, init);
      DiscoveryOrder(before.0, turns[|turns| - 1].1);
    }
  }

  // ---------------------------------------------------------------- constructChart

  /** The body of the loop of lines 90-101 for the entry e of chart[i]: the predictor for an
      incomplete entry whose next category is not a part-of-speech tag, the scanner for one
      whose next category is, and the completer for a complete entry. */
  method Process(g: Lookups, ws: seq<Symbol>, v: Variant, chart: seq<Chart>, predicted: seq<seq<Symbol>>, completed: set<string>, i: nat, e: ChartEntry)
    returns (predicted': seq<seq<Symbol>>, completed': set<string>, ghost added: seq<ChartEntry>, ghost turns: seq<(ChartEntry, ChartEntry)>)
    requires ChartsSound(g, ws, chart) && i < |chart| && |predicted| == |chart| && Item(g, ws, i, e)
    requires Honest(g) && (v.ProbabilisticParser? ==> ScoredLookups(g))
    modifies chart[i], if i < |ws| then {chart[i + 1]} else {}
    ensures ChartsSound(g, ws, chart) && |predicted'| == |predicted|
    ensures Grows(old(chart[i].View()), chart[i].View())
    ensures !Complete(e) && NextCategory(e) !in g.posTags ==>
      && completed' == completed
      && Predicted(g, v, |chart|, i, NextCategory(e), predicted, predicted', old(chart[i].View()), chart[i].View(), added)
    ensures !Complete(e) && NextCategory(e) in g.posTags ==>
      && predicted' == predicted && completed' == completed && chart[i].View() == old(chart[i].View())
      && (i < |ws| ==> Scanned(g, ws, v, i, NextCategory(e), old(chart[i + 1].View()), chart[i + 1].View(), added))
    ensures Complete(e) ==>
      && predicted' == predicted
      && Completed(v, e, |chart|, WaitingFor(old(chart[e.from].byNext), e.rule.lhs), (old(chart[i].View()), completed), (chart[i].View(), completed'), turns)
  {
    predicted', completed', added, turns := predicted, completed, [], [];
    if !Complete(e) {
      var tag := e.NextCategoryPartOfSpeech(g.posTags);
      if !tag {
        predicted', added := Predictor(g, ws, v, chart, predicted, e);
        AddingGrows(old(chart[i].View()), added);
      } else {
        added := Scanner(g, ws, v, chart, e);
      }
    } else {
      completed', turns := Completer(g, ws, v, chart, completed, e);
      TurnsGrow(v, e, |chart|, (old(chart[i].View()), completed), turns);
    }
  }

  /** The loop of lines 90-101 at position i: every entry of chart[i], in the order of
      discovery, including those added while it runs, up to fuel entries.  completedList
      starts empty (line 89). */
  method ProcessPosition(g: Lookups, ws: seq<Symbol>, v: Variant, chart: seq<Chart>, predicted: seq<seq<Symbol>>, i: nat, fuel: nat)
    returns (predicted': seq<seq<Symbol>>)
    requires ChartsSound(g, ws, chart) && i < |chart| && |predicted| == |chart|
    requires Honest(g) && (v.ProbabilisticParser? ==> ScoredLookups(g))
    modifies chart[i], if i < |ws| then {chart[i + 1]} else {}
    ensures ChartsSound(g, ws, chart) && |predicted'| == |predicted|
    ensures Grows(old(chart[i].View()), chart[i].View())
  {
    var completed: set<string> := {};
    predicted' := predicted;
    var j := 0;
    while j < chart[i].Size() && j < fuel
      invariant ChartsSound(g, ws, chart) && |predicted'| == |predicted|
      invariant Grows(old(chart[i].View()), chart[i].View())
      decreases fuel - j
    {
      var e := chart[i].GetEntry(j);
      ghost var before := chart[i].View();
      assert e in before.entries;
      ghost var added, turns;
      predicted', completed, added, turns := Process(g, ws, v, chart, predicted', completed, i, e);
      GrowsTrans(old(chart[i].View()), before, chart[i].View());
      j := j + 1;
    }
  }

  /** The allocation loop of lines 78-81: n empty charts and n empty predicted lists. */
  method NewCharts(n: nat) returns (chart: seq<Chart>, predicted: seq<seq<Symbol>>)
    ensures |chart| == n && |predicted| == n
    ensures forall a, b :: 0 <= a < b < n ==> chart[a] != chart[b]
    ensures forall k :: 0 <= k < n ==> fresh(chart[k]) && chart[k].View() == ChartLists([], [], []) && predicted[k] == []
  {
    chart, predicted := [], [];
    for i := 0 to n
      invariant |chart| == i && |predicted| == i
      invariant forall a, b :: 0 <= a < b < i ==> chart[a] != chart[b]
      invariant forall k :: 0 <= k < i ==> fresh(chart[k]) && chart[k].View() == ChartLists([], [], []) && predicted[k] == []
    {
      var c := new Chart();
      chart, predicted := chart + [c], predicted + [[]];
    }
  }

  /** constructChart, with the loop over each chart's entries bounded by fuel: the charts are
      new, one per position 0..n, and sound. */
  method ConstructChart(g: Lookups, ws: seq<Symbol>, v: Variant, fuel: nat) returns (chart: seq<Chart>)
    requires Honest(g) && (v.ProbabilisticParser? ==> ScoredLookups(g))
    ensures ChartsSound(g, ws, chart) && forall k :: 0 <= k < |chart| ==> fresh(chart[k])
  {
    var predicted;
    chart, predicted := NewCharts(|ws| + 1);
    ghost var seeds := SeedAll(g, ws, v, chart);
    for i := 0 to |ws| + 1
      invariant ChartsSound(g, ws, chart) && |predicted| == |chart|
      invariant forall k :: 0 <= k < |chart| ==> fresh(chart[k])
    {
      predicted := ProcessPosition(g, ws, v, chart, predicted, i, fuel);
    }
  }

  // ---------------------------------------------------------------- the trees

  /** Under a proper grammar with honest queries, constructParseNode succeeds on a complete entry that spans, and
      the leaves of its tree are exactly the words the entry covers. */
  lemma {:induction false} EntryYield(g: Lookups, ws: seq<Symbol>, e: ChartEntry)
    requires Honest(g) && Proper(g) && Spans(g, ws, e) && Ordered(e) && Complete(e)
    ensures 0 <= e.from <= e.to <= |ws|
    ensures ParseNodeOf(e).Some? && Yield(ParseNodeOf(e).value) == Named(ws[e.from..e.to])
    decreases e.height, 1
  {
    if e.states == [] {
      assert Lead(e) == 1;
      assert e.rule in g.terminal(ws[e.from]);
      assert e.rule.rhs == [ws[e.from]] && e.to == e.from + 1;
      var t := ParseNodeOf(e).value;
      assert t.children == [Leaf(ws[e.from])];
      assert YieldOf(t.children) == Yield(Leaf(ws[e.from])) + YieldOf([]);
      assert Named(ws[e.from..e.to]) == [Some(ws[e.from])];
    } else {
      assert Link(e, 0);
      assert Lead(e) == 0;
      var n := |e.states|;
      StatesYield(g, ws, e, n);
      assert Link(e, n - 1);
    }
  }

  /** The trees of the first i backpointers of an entry whose first symbol was not scanned
      cover the words from its start to where backpointer i - 1 ends. */
  lemma {:induction false} StatesYield(g: Lookups, ws: seq<Symbol>, e: ChartEntry, i: nat)
    requires Honest(g) && Proper(g) && Spans(g, ws, e) && Ordered(e) && Lead(e) == 0 && 0 < i <= |e.states|
    ensures e.from <= e.states[i - 1].to <= |ws|
    ensures ChildrenOf(e, i).Some? && YieldOf(ChildrenOf(e, i).value) == Named(ws[e.from..e.states[i - 1].to])
    decreases e.height, 0, i
  {
    var s := e.states[i - 1];
    assert Link(e, i - 1);
    EntryYield(g, ws, s);
    var t := ParseNodeOf(s).value;
    if i == 1 {
      assert ChildrenOf(e, 1).value == [t];
      assert YieldOf([t]) == Yield(t) + YieldOf([]);
    } else {
      StatesYield(g, ws, e, i - 1);
      var init := ChildrenOf(e, i - 1).value;
      assert ChildrenOf(e, i).value == init + [t];
      YieldOfAppend(init, [t]);
      assert YieldOf([t]) == Yield(t) + YieldOf([]);
      NamedSplit(ws, e.from, s.from, s.to);
    }
  }

  lemma NamedSplit(ws: seq<Symbol>, i: nat, m: nat, j: nat)
    requires i <= m <= j <= |ws|
    ensures Named(ws[i..j]) == Named(ws[i..m]) + Named(ws[m..j])
  {
    assert ws[i..j] == ws[i..m] + ws[m..j];
  }

  /** The trees of the entries, in order (lines 114-116): None when constructParseNode fails on
      one of them. */
  function TreesOf(es: seq<ChartEntry>): (ts: Option<seq<ParseNode>>)
    requires forall k :: 0 <= k < |es| ==> Ordered(es[k])
    ensures ts.Some? <==> forall k :: 0 <= k < |es| ==> ParseNodeOf(es[k]).Some?
    ensures ts.Some? ==> |ts.value| == |es| && forall k :: 0 <= k < |es| ==> ts.value[k] == ParseNodeOf(es[k]).value
  {
    if es == [] then Some([])
    else
      var init, last := es[..|es| - 1], es[|es| - 1];
      assert forall k :: 0 <= k < |init| ==> init[k] == es[k];
      match TreesOf(init)
      case None => None
      case Some(ts) =>
        match ParseNodeOf(last)
        case None => None
        case Some(t) => Some(ts + [t])
  }

  /** One more entry. */
  lemma TreesStep(es: seq<ChartEntry>, i: nat)
    requires forall k :: 0 <= k < |es| ==> Ordered(es[k])
    requires i < |es|
    ensures TreesOf(es[..i + 1]) ==
      match TreesOf(es[..i])
      case None => None
      case Some(ts) => (match ParseNodeOf(es[i]) case None => None case Some(t) => Some(ts + [t]))
  {
    assert es[..i + 1][..i] == es[..i];
  }

  /** The loop of lines 114-116. */
  method BuildTrees(es: seq<ChartEntry>) returns (ts: Option<seq<ParseNode>>)
    requires forall k :: 0 <= k < |es| ==> Ordered(es[k])
    ensures ts == TreesOf(es)
  {
    var built: seq<ParseNode> := [];
    Tables.JoinNothing([], es);
    for i := 0 to |es|
      invariant TreesOf(es[..i]) == Some(built)
    {
      TreesStep(es, i);
      var node := ParseNodeOf(es[i]);
      if node.None? {
        NoTreesAfter(es, i + 1);
        return None;
      }
      built := built + [node.value];
    }
    Tables.Whole(es);
    return Some(built);
  }

  /** A failure on a prefix is a failure on the whole list. */
  lemma NoTreesAfter(es: seq<ChartEntry>, i: nat)
    requires forall k :: 0 <= k < |es| ==> Ordered(es[k])
    requires i <= |es| && TreesOf(es[..i]).None?
    ensures TreesOf(es).None?
  {
    var k :| 0 <= k < i && ParseNodeOf(es[..i][k]).None?;
    assert es[..i][k] == es[k];
  }

  /** What parse reads off chart[n]: every tree is rooted at S, and in a proper grammar whose
      queries are honest every tree is built and its leaves are the words of the sentence. */
  lemma SentenceTrees(g: Lookups, ws: seq<Symbol>, es: seq<ChartEntry>)
    requires forall k :: 0 <= k < |es| ==> Ordered(es[k]) && Item(g, ws, |ws|, es[k]) && SentenceEntry(es[k], |ws|)
    ensures TreesOf(es).Some? ==> forall t :: t in TreesOf(es).value ==> t.data == Some("S")
    ensures Honest(g) && Proper(g) ==> TreesOf(es).Some? && forall t :: t in TreesOf(es).value ==> Yield(t) == Named(ws)
  {
    if Honest(g) && Proper(g) {
      forall k | 0 <= k < |es| ensures ParseNodeOf(es[k]).Some? && Yield(ParseNodeOf(es[k]).value) == Named(ws) {
        EntryYield(g, ws, es[k]);
        assert ws[0..|ws|] == ws;
      }
    }
  }

  /** EarleyParser.parse.  The trees are those of the complete S entries of chart[n] spanning
      the whole sentence, in the order of its sorted list; None where constructParseNode
      throws.  Every tree is rooted at S; in a valid grammar whose types fit its rules, the
      trees are always built and each one covers exactly the words of the sentence. */
  method Parse(cfg: ContextFreeGrammar, sentence: seq<Symbol>, fuel: nat) returns (parseTrees: Option<seq<ParseNode>>, ghost entries: seq<ChartEntry>)
    ensures forall k :: 0 <= k < |entries| ==> Ordered(entries[k])
    ensures parseTrees == TreesOf(entries)
    ensures forall k :: 0 <= k < |entries| ==> Item(LookupsOf(cfg.View()), sentence, |sentence|, entries[k]) && SentenceEntry(entries[k], |sentence|)
    ensures parseTrees.Some? ==> forall t :: t in parseTrees.value ==> t.data == Some("S")
    ensures Valid(cfg.View()) && KindsFit(cfg.View()) ==> parseTrees.Some? && forall t :: t in parseTrees.value ==> Yield(t) == Named(sentence)
  {
    var g := LookupsOf(cfg.View());
    LookupsHonest(cfg.View());
    var chart := ConstructChart(g, sentence, PlainParser, fuel);
    var found := SentenceChartEntries(g, sentence, chart);
    entries := found;
    parseTrees := BuildTrees(found);
    SentenceTrees(g, sentence, entries);
    if Valid(cfg.View()) && KindsFit(cfg.View()) {
      LookupsProper(cfg.View());
    }
  }

  /** chart[n].getSentenceChartEntries(n) on sound charts: items of chart[n] that are sentence
      entries. */
  method SentenceChartEntries(g: Lookups, ws: seq<Symbol>, chart: seq<Chart>) returns (entries: seq<ChartEntry>)
    requires ChartsSound(g, ws, chart)
    ensures entries == SentenceEntries(chart[|ws|].sorted, |ws|)
    ensures forall k :: 0 <= k < |entries| ==> Item(g, ws, |ws|, entries[k]) && SentenceEntry(entries[k], |ws|)
  {
    entries := chart[|ws|].GetSentenceChartEntries(|ws|);
    assert forall k :: 0 <= k < |entries| ==> entries[k] in chart[|ws|].View().sorted;
  }
}
