/** ChartEntry (the dotted item of the Earley parsers) and its three comparators:
    ChartEntryComparator (rule, then start, then dot, then containment of the backpointers),
    ChartEntryStringComparator (the String order of the dotted-item strings) and
    ChartEntryNextCategoryComparator (complete items first, then by the category after the dot).
    An entry is an object: the chart and the backpointer lists hold references to it, and
    `contains` and `equals` compare those references.  Its fields never change after
    construction, so they are constants. */
module ChartEntries {
  import opened Wrappers
  import opened Rules
  import opened ParseTrees
  import JavaString
  import RuleOrder

  class ChartEntry {
    const rule: Rule
    const from: int
    const to: int
    const dotPlace: int
    const probability: real
    /** The completed entries the dot has moved over, in order (the backpointers). */
    const states: seq<ChartEntry>
    /** Not a field of the Java class: one more than the height of every state, so that the
        recursion over the backpointers visibly ends. */
    const height: nat

    /** ChartEntry(rule, from, to, dotPlace): no backpointers, probability 1.0. */
    constructor (rule: Rule, from: int, to: int, dotPlace: int)
      ensures this.rule == rule && this.from == from && this.to == to && this.dotPlace == dotPlace
      ensures probability == 1.0 && states == [] && Ordered(this)
    {
      this.rule := rule;
      this.from := from;
      this.to := to;
      this.dotPlace := dotPlace;
      probability := 1.0;
      states := [];
      height := 0;
    }

    /** ChartEntry(ProbabilisticRule, from, to, dotPlace): the entry takes the rule's
        probability.  The argument is a ProbabilisticRule (the callers cast to it). */
    constructor Scored(rule: Rule, from: int, to: int, dotPlace: int)
      requires rule.score.Some?
      ensures this.rule == rule && this.from == from && this.to == to && this.dotPlace == dotPlace
      ensures probability == rule.score.value.probability && states == [] && Ordered(this)
    {
      this.rule := rule;
      this.from := from;
      this.to := to;
      this.dotPlace := dotPlace;
      probability := rule.score.value.probability;
      states := [];
      height := 0;
    }

    /** ChartEntry(rule, from, to, dotPlace, current, added): the backpointers of current, copied
        one by one, then added; probability 1.0. */
    constructor Advanced(rule: Rule, from: int, to: int, dotPlace: int, current: ChartEntry, added: ChartEntry)
      requires Ordered(current) && Ordered(added)
      ensures this.rule == rule && this.from == from && this.to == to && this.dotPlace == dotPlace
      ensures probability == 1.0 && states == current.states + [added] && Ordered(this)
    {
      this.rule := rule;
      this.from := from;
      this.to := to;
      this.dotPlace := dotPlace;
      probability := 1.0;
      var copied := CopyStates(current);
      states := copied + [added];
      height := 1 + MaxHeight(copied + [added]);
      new;
      OrderedAdvanced(this, current, added);
    }

    /** The probabilistic advancing constructor: the product of the two probabilities. */
    constructor AdvancedScored(rule: Rule, from: int, to: int, dotPlace: int, current: ChartEntry, added: ChartEntry)
      requires Ordered(current) && Ordered(added)
      ensures this.rule == rule && this.from == from && this.to == to && this.dotPlace == dotPlace
      ensures probability == current.probability * added.probability
      ensures states == current.states + [added] && Ordered(this)
    {
      this.rule := rule;
      this.from := from;
      this.to := to;
      this.dotPlace := dotPlace;
      probability := current.probability * added.probability;
      var copied := CopyStates(current);
      states := copied + [added];
      height := 1 + MaxHeight(copied + [added]);
      new;
      OrderedAdvanced(this, current, added);
    }

    /** nextCategoryPartOfSpeech: whether the category after the dot is one of posTags. */
    method NextCategoryPartOfSpeech(posTags: seq<Symbol>) returns (b: bool)
      ensures b <==> NextCategory(this) in posTags
    {
      for k := 0 to |posTags|
        invariant NextCategory(this) !in posTags[..k]
      {
        if NextCategory(this) == posTags[k] {
          return true;
        }
      }
      return false;
    }
  }

  /** The loop of the advancing constructors that copies the backpointers of current. */
  method CopyStates(current: ChartEntry) returns (copied: seq<ChartEntry>)
    ensures copied == current.states
  {
    copied := [];
    for k := 0 to |current.states|
      invariant copied == current.states[..k]
    {
      copied := copied + [current.states[k]];
    }
  }

  /** The largest height among es (0 for none). */
  function MaxHeight(es: seq<ChartEntry>): (h: nat)
    ensures forall k :: 0 <= k < |es| ==> es[k].height <= h
  {
    if es == [] then 0
    else
      var rest := MaxHeight(es[1..]);
      assert forall k :: 1 <= k < |es| ==> es[k] == es[1..][k - 1];
      if es[0].height > rest then es[0].height else rest
  }

  /** Every backpointer, and every backpointer of a backpointer, is lower than the entry
      holding it: what the constructors establish. */
  predicate Ordered(e: ChartEntry)
    decreases e.height
  {
    forall k :: 0 <= k < |e.states| ==> e.states[k].height < e.height && Ordered(e.states[k])
  }

  lemma OrderedAdvanced(e: ChartEntry, current: ChartEntry, added: ChartEntry)
    requires Ordered(current) && Ordered(added)
    requires e.states == current.states + [added] && e.height == 1 + MaxHeight(current.states + [added])
    ensures Ordered(e)
  {
    forall k | 0 <= k < |e.states| ensures e.states[k].height < e.height && Ordered(e.states[k]) {
      if k < |current.states| {
        assert e.states[k] == current.states[k];
      }
    }
  }

  // ---------------------------------------------------------------- the dot

  /** isComplete: the dot is at the end of the right-hand side. */
  predicate Complete(e: ChartEntry)
  {
    e.dotPlace == |e.rule.rhs|
  }

  /** The dot lies within the right-hand side, as at every construction the parsers perform. */
  predicate DotInRange(e: ChartEntry)
  {
    0 <= e.dotPlace <= |e.rule.rhs|
  }

  /** getNextCategory: the symbol after the dot.  Java throws past the end of the right-hand
      side; an entry whose dot is in range and that is not complete always has one, and no
      caller uses the empty name given elsewhere. */
  function NextCategory(e: ChartEntry): (x: Symbol)
    ensures DotInRange(e) && !Complete(e) ==> x == e.rule.rhs[e.dotPlace]
  {
    if 0 <= e.dotPlace < |e.rule.rhs| then e.rule.rhs[e.dotPlace] else ""
  }

  /** The entry is incomplete and waits for x. */
  predicate Waits(e: ChartEntry, x: Symbol)
  {
    !Complete(e) && NextCategory(e) == x
  }

  // ---------------------------------------------------------------- toString

  /** The loop of toString over the right-hand side from position i: "." before the symbol at
      the dot, " " before every other symbol. */
  function DottedRhs(rhs: seq<Symbol>, dot: int, i: nat): string
    decreases |rhs| - i
  {
    if i >= |rhs| then ""
    else (if dot == i then "." + rhs[i] else " " + rhs[i]) + DottedRhs(rhs, dot, i + 1)
  }

  /** toString: "X -> ", the dotted right-hand side, a final "." when the dot is at the end,
      then " [from,to]". */
  function Text(e: ChartEntry): string
  {
    ItemText(e.rule, e.dotPlace, e.from, e.to)
  }

  /** The string of the dotted item rule with the dot at dot spanning [from, to]. */
  function ItemText(rule: Rule, dot: int, from: int, to: int): string
  {
    rule.lhs + " -> " + DottedRhs(rule.rhs, dot, 0) + (if dot == |rule.rhs| then "." else "")
      + " [" + JavaString.IntToString(from) + "," + JavaString.IntToString(to) + "]"
  }

  /** toStringExtended: toString, then the extended strings of the backpointers in order. */
  function ExtendedText(e: ChartEntry): string
    requires Ordered(e)
    decreases e.height, |e.states| + 1
  {
    Text(e) + StatesText(e, |e.states|)
  }

  /** The extended strings of the first i backpointers, concatenated. */
  function StatesText(e: ChartEntry, i: nat): string
    requires Ordered(e) && i <= |e.states|
    decreases e.height, i
  {
    if i == 0 then "" else StatesText(e, i - 1) + ExtendedText(e.states[i - 1])
  }

  /** Entries sharing their first i backpointers share the concatenation of their strings. */
  lemma {:induction false} StatesTextShared(a: ChartEntry, b: ChartEntry, i: nat)
    requires Ordered(a) && Ordered(b) && i <= |a.states| && i <= |b.states|
    requires a.states[..i] == b.states[..i]
    ensures StatesText(a, i) == StatesText(b, i)
  {
    if i > 0 {
      assert a.states[..i - 1] == a.states[..i][..i - 1] && b.states[..i - 1] == b.states[..i][..i - 1];
      assert a.states[i - 1] == a.states[..i][i - 1] == b.states[..i][i - 1] == b.states[i - 1];
      StatesTextShared(a, b, i - 1);
    }
  }

  /** The extended string of an advanced entry: its own string, the backpointer strings of the
      entry it advances, then the extended string of the entry it advanced over. */
  lemma AdvancedExtendedText(e: ChartEntry, current: ChartEntry, added: ChartEntry)
    requires Ordered(e) && Ordered(current) && Ordered(added)
    requires e.states == current.states + [added]
    ensures ExtendedText(e) == Text(e) + StatesText(current, |current.states|) + ExtendedText(added)
  {
    var n := |current.states|;
    assert e.states[..n] == current.states[..n];
    StatesTextShared(e, current, n);
  }

  // ---------------------------------------------------------------- constructParseNode

  /** Every entry reachable through backpointers that has none has a symbol to show. */
  predicate Buildable(e: ChartEntry)
    decreases e.height
  {
    && (e.states == [] ==> e.rule.rhs != [])
    && forall k :: 0 <= k < |e.states| ==> e.states[k].height < e.height && Buildable(e.states[k])
  }

  /** constructParseNode: without backpointers, the left-hand side over a leaf holding the first
      right-hand symbol; otherwise the left-hand side over the trees of the backpointers, in
      order.  None where Java fails on a missing first symbol. */
  function ParseNodeOf(e: ChartEntry): (n: Option<ParseNode>)
    requires Ordered(e)
    ensures n.Some? ==> n.value.data == Some(e.rule.lhs) && n.value.logProbability.None?
    ensures n.Some? && e.states == [] ==> e.rule.rhs != [] && n.value.children == [Leaf(e.rule.rhs[0])]
    ensures n.Some? && e.states != [] ==> |n.value.children| == |e.states|
    decreases e.height, |e.states| + 1
  {
    if e.states == [] then
      if e.rule.rhs == [] then None else Some(Unary(Leaf(e.rule.rhs[0]), e.rule.lhs))
    else
      match ChildrenOf(e, |e.states|)
      case None => None
      case Some(cs) => Some(ParseNode(Some(e.rule.lhs), cs, None))
  }

  /** The trees of the first i backpointers, each added as a child in turn. */
  function ChildrenOf(e: ChartEntry, i: nat): (cs: Option<seq<ParseNode>>)
    requires Ordered(e) && i <= |e.states|
    ensures cs.Some? ==> |cs.value| == i
    decreases e.height, i
  {
    if i == 0 then Some([])
    else
      match ChildrenOf(e, i - 1)
      case None => None
      case Some(init) =>
        match ParseNodeOf(e.states[i - 1])
        case None => None
        case Some(last) => Some(init + [last])
  }

  /** The children of the tree of an entry are the trees of its backpointers. */
  lemma {:induction false} ChildrenAre(e: ChartEntry, i: nat)
    requires Ordered(e) && i <= |e.states| && ChildrenOf(e, i).Some?
    ensures forall k :: 0 <= k < i ==> ParseNodeOf(e.states[k]) == Some(ChildrenOf(e, i).value[k])
  {
    if i > 0 {
      ChildrenAre(e, i - 1);
    }
  }

  /** constructParseNode succeeds exactly on the entries whose backpointer-free descendants all
      have a right-hand side. */
  lemma {:induction false} ParseNodeDefined(e: ChartEntry)
    requires Ordered(e)
    ensures ParseNodeOf(e).Some? <==> Buildable(e)
    decreases e.height, 1
  {
    if e.states != [] {
      ChildrenDefined(e, |e.states|);
    }
  }

  lemma {:induction false} ChildrenDefined(e: ChartEntry, i: nat)
    requires Ordered(e) && i <= |e.states|
    ensures ChildrenOf(e, i).Some? <==> forall k :: 0 <= k < i ==> Buildable(e.states[k])
    decreases e.height, 0, i
  {
    if i > 0 {
      ChildrenDefined(e, i - 1);
      ParseNodeDefined(e.states[i - 1]);
    }
  }

  // ---------------------------------------------------------------- ChartEntryComparator

  /** ChartEntryComparator.compare: for equal rules (Rule.equals), the start, then the dot, then
      0 exactly when every backpointer of a is (as a reference) among those of b, -1 otherwise;
      for rules that differ, RuleComparator.  `to` and the probability are never consulted. */
  function EntryCompare(a: ChartEntry, b: ChartEntry): int
  {
    if Equals(a.rule, b.rule) then
      if a.from == b.from then
        if a.dotPlace == b.dotPlace then
          if StatesAmong(a.states, b.states) then 0 else -1
        else if a.dotPlace < b.dotPlace then -1 else 1
      else if a.from < b.from then -1 else 1
    else RuleOrder.RuleCompare(a.rule, b.rule)
  }

  /** The loop of compare over the backpointers of A: each of them is, as a reference, among
      those of B. */
  function StatesAmong(s: seq<ChartEntry>, t: seq<ChartEntry>): bool
  {
    s == [] || (s[0] in t && StatesAmong(s[1..], t))
  }

  lemma {:induction false} StatesAmongAll(s: seq<ChartEntry>, t: seq<ChartEntry>)
    ensures StatesAmong(s, t) <==> forall x :: x in s ==> x in t
  {
    if s != [] {
      StatesAmongAll(s[1..], t);
      assert s == [s[0]] + s[1..];
    }
  }

  /** A 0 means the same item with a's backpointers among b's, or two rules with the same
      symbols that Rule.equals tells apart (their probabilities differ). */
  lemma EntryCompareZero(a: ChartEntry, b: ChartEntry)
    requires EntryCompare(a, b) == 0
    ensures Equals(a.rule, b.rule) ==>
      a.from == b.from && a.dotPlace == b.dotPlace && forall s :: s in a.states ==> s in b.states
    ensures !Equals(a.rule, b.rule) ==> a.rule.lhs == b.rule.lhs && a.rule.rhs == b.rule.rhs
  {
    StatesAmongAll(a.states, b.states);
  }

  /** The order is not antisymmetric: two entries for one item whose backpointer lists do not
      contain each other are each below the other. */
  lemma EntryCompareNotAntisymmetric(a: ChartEntry, b: ChartEntry, x: ChartEntry, y: ChartEntry)
    requires Equals(a.rule, b.rule) && a.from == b.from && a.dotPlace == b.dotPlace
    requires x in a.states && x !in b.states && y in b.states && y !in a.states
    ensures EntryCompare(a, b) == -1 && EntryCompare(b, a) == -1
  {
    StatesAmongAll(a.states, b.states);
    StatesAmongAll(b.states, a.states);
  }

  // ---------------------------------------------------------------- ChartEntryStringComparator

  /** ChartEntryStringComparator.compare: the String order of the two toString values. */
  function TextCompare(a: ChartEntry, b: ChartEntry): (r: int)
    ensures r == 0 <==> Text(a) == Text(b)
  {
    JavaString.CompareTo(Text(a), Text(b))
  }

  /** The string order is a total order on dotted items: swapping negates, and it is
      transitive. */
  lemma TextCompareAntisymmetric(a: ChartEntry, b: ChartEntry)
    ensures TextCompare(a, b) == -TextCompare(b, a)
  {
    JavaString.CompareToAntisymmetric(Text(a), Text(b));
  }

  lemma TextCompareTransitive(a: ChartEntry, b: ChartEntry, c: ChartEntry)
    requires TextCompare(a, b) <= 0 && TextCompare(b, c) <= 0
    ensures TextCompare(a, c) <= 0
  {
    JavaString.CompareToTransitiveLe(Text(a), Text(b), Text(c));
  }

  /** Entries that differ only in their backpointers, probability or identity compare 0. */
  lemma TextCompareIgnoresStates(a: ChartEntry, b: ChartEntry)
    requires a.rule.lhs == b.rule.lhs && a.rule.rhs == b.rule.rhs
    requires a.from == b.from && a.to == b.to && a.dotPlace == b.dotPlace
    ensures TextCompare(a, b) == 0
  {
  }

  /** The first field ends where the last c before d stands: strings x + c + d and y + c + e
      with c in neither d nor e are split alike. */
  lemma LastField(x: string, d: string, y: string, e: string, c: char)
    requires x + [c] + d == y + [c] + e
    requires c !in d && c !in e
    ensures x == y && d == e
  {
    var s := x + [c] + d;
    if |d| < |e| {
      FieldAt(x, c, d, -1);
      FieldAt(y, c, e, |x| - |y| - 1);
      assert false;
    } else if |e| < |d| {
      FieldAt(y, c, e, -1);
      FieldAt(x, c, d, |y| - |x| - 1);
      assert false;
    } else {
      assert d == s[|s| - |d|..] == e;
      assert x == s[..|x|] == y;
    }
  }

  /** The character at position |x| + 1 + k of x + [c] + d: c for k = -1, d[k] after it. */
  lemma FieldAt(x: string, c: char, d: string, k: int)
    requires -1 <= k < |d|
    ensures (x + [c] + d)[|x| + 1 + k] == if k < 0 then c else d[k]
  {
  }

  lemma DigitsFree(n: nat)
    ensures ',' !in JavaString.NatToString(n) && '[' !in JavaString.NatToString(n)
  {
    var t := JavaString.NatToString(n);
    forall k | 0 <= k < |t| ensures t[k] != ',' && t[k] != '[' {
      assert '0' <= t[k] <= '9';
    }
  }

  /** The dotted-item string ends in the span, so entries with the same string (both with
      non-negative positions) cover the same span. */
  lemma SameTextSameSpan(a: ChartEntry, b: ChartEntry)
    requires 0 <= a.from && 0 <= a.to && 0 <= b.from && 0 <= b.to
    requires Text(a) == Text(b)
    ensures a.from == b.from && a.to == b.to
  {
    SameItemTextSameSpan(a.rule, a.dotPlace, a.from, a.to, b.rule, b.dotPlace, b.from, b.to);
  }

  lemma SameItemTextSameSpan(ra: Rule, da: int, fa: nat, ta: nat, rb: Rule, db: int, fb: nat, tb: nat)
    requires ItemText(ra, da, fa, ta) == ItemText(rb, db, fb, tb)
    ensures fa == fb && ta == tb
  {
    var sfa, sta := JavaString.NatToString(fa), JavaString.NatToString(ta);
    var sfb, stb := JavaString.NatToString(fb), JavaString.NatToString(tb);
    var pa, pb := ItemHead(ra, da), ItemHead(rb, db);
    ItemTextSplit(ra, da, fa, ta);
    ItemTextSplit(rb, db, fb, tb);
    DigitsFree(fa);
    DigitsFree(ta);
    DigitsFree(fb);
    DigitsFree(tb);
    LastField(pa + ['['] + sfa, sta, pb + ['['] + sfb, stb, ',');
    LastField(pa, sfa, pb, sfb, '[');
    JavaString.NatToStringInjective(fa, fb);
    JavaString.NatToStringInjective(ta, tb);
  }

  /** The item string up to the span. */
  function ItemHead(rule: Rule, dot: int): string
  {
    rule.lhs + " -> " + DottedRhs(rule.rhs, dot, 0) + (if dot == |rule.rhs| then "." else "") + " "
  }

  /** Without its closing bracket, the item string is its head, '[', the start, ',' and the end. */
  lemma ItemTextSplit(rule: Rule, dot: int, from: nat, to: nat)
    ensures |ItemText(rule, dot, from, to)| > 0
    ensures ItemText(rule, dot, from, to)[..|ItemText(rule, dot, from, to)| - 1]
      == (ItemHead(rule, dot) + ['['] + JavaString.NatToString(from)) + [','] + JavaString.NatToString(to)
  {
    var x := ItemText(rule, dot, from, to);
    assert x == ItemHead(rule, dot) + ['['] + JavaString.NatToString(from) + [','] + JavaString.NatToString(to) + "]";
  }

  // ---------------------------------------------------------------- ChartEntryNextCategoryComparator

  /** ChartEntryNextCategoryComparator.compare: complete entries are all alike and below every
      incomplete one; incomplete entries compare by the String order of their next categories. */
  function NextCompare(a: ChartEntry, b: ChartEntry): int
  {
    if Complete(a) && Complete(b) then 0
    else if Complete(a) then -1
    else if Complete(b) then 1
    else JavaString.CompareTo(NextCategory(a), NextCategory(b))
  }

  /** The signs are antisymmetric ... */
  lemma NextCompareAntisymmetric(a: ChartEntry, b: ChartEntry)
    ensures NextCompare(a, b) == -NextCompare(b, a)
  {
    JavaString.CompareToAntisymmetric(NextCategory(a), NextCategory(b));
  }

  /** ... and "not above" is transitive: a total preorder. */
  lemma NextCompareTransitive(a: ChartEntry, b: ChartEntry, c: ChartEntry)
    requires NextCompare(a, b) <= 0 && NextCompare(b, c) <= 0
    ensures NextCompare(a, c) <= 0
  {
    if !Complete(a) && !Complete(b) && !Complete(c) {
      JavaString.CompareToTransitiveLe(NextCategory(a), NextCategory(b), NextCategory(c));
    }
  }

  /** Two entries compare 0 exactly when both are complete or both wait for the same category. */
  lemma NextCompareZero(a: ChartEntry, b: ChartEntry)
    ensures NextCompare(a, b) == 0 <==> (Complete(a) && Complete(b)) || (!Complete(a) && Waits(b, NextCategory(a)))
  {
  }
}
