/**
 * A context-free rule X -> beta (Rule.java) and its probabilistic variant
 * (ProbabilisticRule.java).  A rule is a value; the grammar keeps rule objects
 * in a store addressed by id, so that mutating a rule object is an update of
 * its store entry.
 */
module Rules {
  import opened Wrappers
  import JavaString

  type Symbol = string

  datatype RuleType = Terminal | SingleNonTerminal | TwoNonTerminal | MultipleNonTerminal

  /** The two fields ProbabilisticRule adds: the probability and the occurrence count. */
  datatype Score = Score(probability: real, count: nat)

  /** A Rule object: `kind` is None while the type field is still null, and
      `score` is present exactly for a ProbabilisticRule. */
  datatype Rule = Rule(lhs: Symbol, rhs: seq<Symbol>, kind: Option<RuleType>, score: Option<Score>)

  // ---------------------------------------------------------------- text form

  /** " " + name for every right-hand-side symbol. */
  function RhsText(rhs: seq<Symbol>): string
  {
    if rhs == [] then "" else " " + rhs[0] + RhsText(rhs[1..])
  }

  /** Rule.toString: the LHS, " -> ", then " " + name for each RHS symbol. */
  function RuleText(r: Rule): string
  {
    r.lhs + " -> " + RhsText(r.rhs)
  }

  lemma {:induction false} RhsTextJoin(rhs: seq<Symbol>)
    requires rhs != []
    ensures RhsText(rhs) == " " + JavaString.Join(rhs)
    decreases |rhs|
  {
    if |rhs| >= 2 {
      RhsTextJoin(rhs[1..]);
    }
  }

  /** The rendered rule has a double space after the arrow, then the names joined by single spaces. */
  lemma RuleTextShape(r: Rule)
    requires r.rhs != []
    ensures RuleText(r) == r.lhs + " ->  " + JavaString.Join(r.rhs)
  {
    RhsTextJoin(r.rhs);
  }

  /** ProbabilisticRule.toString appends " [" + probability + "]"; `show` stands for Double.toString. */
  function Display(r: Rule, show: real -> string): string
  {
    match r.score
    case None => RuleText(r)
    case Some(s) => RuleText(r) + " [" + show(s.probability) + "]"
  }

  function ProbabilityOf(r: Rule): Option<real>
  {
    match r.score
    case None => None
    case Some(s) => Some(s.probability)
  }

  /** Rule.equals compares toString values.  The text of a ProbabilisticRule ends in its
      printed probability, and Double.toString gives distinct texts to distinct values, so
      the printed probabilities are compared as values. */
  predicate Equals(a: Rule, b: Rule)
  {
    RuleText(a) == RuleText(b) && ProbabilityOf(a) == ProbabilityOf(b)
  }

  /** Rule.hashCode: the hash of the string form. */
  function HashCode(r: Rule, show: real -> string): (h: int)
    ensures -0x8000_0000 <= h < 0x8000_0000
  {
    JavaString.HashCode(Display(r, show))
  }

  /** Equal rules have equal string forms, hence equal hash codes. */
  lemma EqualRulesHashEqually(a: Rule, b: Rule, show: real -> string)
    requires Equals(a, b)
    ensures Display(a, show) == Display(b, show)
    ensures HashCode(a, show) == HashCode(b, show)
  {
  }

  /** Two probabilistic rules with the same symbols whose probabilities print differently
      have different string forms, so they are not equal. */
  lemma DifferentProbabilitiesDiffer(a: Rule, b: Rule, show: real -> string)
    requires a.score.Some? && b.score.Some? && RuleText(a) == RuleText(b)
    requires show(a.score.value.probability) != show(b.score.value.probability)
    ensures Display(a, show) != Display(b, show)
  {
    var t := RuleText(a);
    var x, y := show(a.score.value.probability), show(b.score.value.probability);
    var da, db := Display(a, show), Display(b, show);
    assert da == t + " [" + x + "]" && db == t + " [" + y + "]";
    if |x| == |y| {
      assert da[|t| + 2..|t| + 2 + |x|] == x;
      assert db[|t| + 2..|t| + 2 + |y|] == y;
    } else {
      assert |da| != |db|;
    }
  }

  // ---------------------------------------------------------------- parsing

  /** Rule(String): the trimmed text before the first "->" is the LHS, the trimmed
      rest is split on single spaces.  Without "->" Java throws; that is None. */
  function ParseRule(line: string): (r: Option<Rule>)
    ensures r.None? <==> (forall k :: !JavaString.OccursAt(line, "->", k))
    ensures r.Some? ==> |r.value.rhs| >= 1 && r.value.kind.None? && r.value.score.None?
    ensures r.Some? ==> r.value.lhs == [] || JavaString.Trimmed(r.value.lhs)
  {
    var arrow := JavaString.IndexOf(line, "->");
    if arrow < 0 then None
    else
      var right := JavaString.Trim(line[arrow + 2..]);
      JavaString.SplitNonEmpty(right);
      Some(Rule(JavaString.Trim(line[..arrow]), JavaString.Split(right), None, None))
  }

  /** A name usable as an LHS in text form: plain and free of "->". */
  predicate PlainLhs(x: Symbol)
  {
    JavaString.PlainName(x) && forall k :: 0 <= k < |x| ==> !JavaString.OccursAt(x, "->", k)
  }

  predicate PlainNames(rhs: seq<Symbol>)
  {
    forall k :: 0 <= k < |rhs| ==> JavaString.PlainName(rhs[k])
  }

  /** In lhs + " -> " + rest the first "->" sits right after the LHS. */
  lemma ArrowAfterLhs(lhs: Symbol, rest: string)
    requires PlainLhs(lhs)
    ensures JavaString.IndexOf(lhs + " -> " + rest, "->") == |lhs| + 1
  {
    var line := lhs + " -> " + rest;
    assert line[|lhs| + 1..|lhs| + 3] == "->";
    assert JavaString.OccursAt(line, "->", |lhs| + 1);
    forall k | 0 <= k < |lhs| + 1
      ensures !JavaString.OccursAt(line, "->", k)
    {
      if k + 2 <= |lhs| {
        assert line[k..k + 2] == lhs[k..k + 2];
        assert !JavaString.OccursAt(lhs, "->", k);
      } else if k == |lhs| - 1 {
        assert line[k + 1] == ' ';
      } else {
        assert line[k] == ' ';
      }
    }
    var r := JavaString.IndexOf(line, "->");
    assert r != -1;
    assert !(r < |lhs| + 1);
    assert !(r > |lhs| + 1);
  }

  lemma BlankPadding()
    ensures JavaString.AllTrimmable("") && JavaString.AllTrimmable(" ") && JavaString.AllTrimmable("  ")
  {
  }

  /** Trimming lhs + " " gives the LHS back. */
  lemma TrimLhs(lhs: Symbol)
    requires JavaString.PlainName(lhs)
    ensures JavaString.Trim(lhs + " ") == lhs
  {
    BlankPadding();
    JavaString.TrimPadded("", lhs, " ");
    assert "" + lhs + " " == lhs + " ";
  }

  /** Trimming the blanks around the joined right-hand side gives the joined text back. */
  lemma TrimRhs(rhs: seq<Symbol>, after: string)
    requires rhs != [] && PlainNames(rhs) && (after == "" || after == " ")
    ensures JavaString.Trim("  " + JavaString.Join(rhs) + after) == JavaString.Join(rhs)
  {
    BlankPadding();
    JavaString.JoinEnds(rhs);
    JavaString.TrimPadded("  ", JavaString.Join(rhs), after);
  }

  /** Round trip: parsing the string form of a rule with plain names gives back its symbols. */
  lemma ParseRuleText(r: Rule)
    requires PlainLhs(r.lhs) && r.rhs != [] && PlainNames(r.rhs)
    ensures ParseRule(RuleText(r)) == Some(Rule(r.lhs, r.rhs, None, None))
  {
    var joined := JavaString.Join(r.rhs);
    RuleTextShape(r);
    var line := RuleText(r);
    RuleLineSlices(r.lhs, joined);
    ArrowAfterLhs(r.lhs, " " + joined);
    var a := |r.lhs| + 1;
    TrimLhs(r.lhs);
    TrimRhs(r.rhs, "");
    JavaString.SplitJoin(r.rhs);
    ParseRuleAt(line, a);
  }

  /** The pieces of the text form of a rule around its arrow. */
  lemma RuleLineSlices(lhs: Symbol, joined: string)
    ensures lhs + " ->  " + joined == lhs + " -> " + (" " + joined)
    ensures (lhs + " ->  " + joined)[..|lhs| + 1] == lhs + " "
    ensures (lhs + " ->  " + joined)[|lhs| + 3..] == "  " + joined + ""
  {
  }

  /** Rule(String) once the arrow is found at a. */
  lemma ParseRuleAt(line: string, a: int)
    requires a == JavaString.IndexOf(line, "->") >= 0
    ensures ParseRule(line) == Some(Rule(JavaString.Trim(line[..a]), JavaString.Split(JavaString.Trim(line[a + 2..])), None, None))
  {
  }

  /** ProbabilisticRule(String): the probability text lies between the first '[' and
      the first ']', the RHS between "->" and '['.  Every substring bound Java would
      reject, and a probability `parse` (Double.parseDouble) rejects, gives None. */
  function ParseScoredRule(line: string, parse: string -> Option<real>): (r: Option<Rule>)
    ensures r.Some? ==> |r.value.rhs| >= 1 && r.value.kind.None?
    ensures r.Some? ==> r.value.score.Some? && r.value.score.value.count == 0
    ensures r.Some? <==>
      var open, close, arrow := JavaString.IndexOf(line, "["), JavaString.IndexOf(line, "]"),
                                JavaString.IndexOf(line, "->");
      0 <= arrow && arrow + 2 <= open < close && parse(line[open + 1..close]).Some?
  {
    var open := JavaString.IndexOf(line, "[");
    var close := JavaString.IndexOf(line, "]");
    var arrow := JavaString.IndexOf(line, "->");
    if close < open + 1 || arrow < 0 || open < arrow + 2 then None
    else
      var right := JavaString.Trim(line[arrow + 2..open]);
      JavaString.SplitNonEmpty(right);
      match parse(line[open + 1..close])
      case None => None
      case Some(p) =>
        Some(Rule(JavaString.Trim(line[..arrow]), JavaString.Split(right), None, Some(Score(p, 0))))
  }

  predicate NoBrackets(s: string)
  {
    '[' !in s && ']' !in s
  }

  lemma {:induction false} NoBracketsRhs(rhs: seq<Symbol>)
    requires forall k :: 0 <= k < |rhs| ==> NoBrackets(rhs[k])
    ensures NoBrackets(RhsText(rhs))
    decreases |rhs|
  {
    if rhs != [] {
      NoBracketsRhs(rhs[1..]);
      assert RhsText(rhs) == " " + rhs[0] + RhsText(rhs[1..]);
    }
  }

  /** In t + " [" + text + "]" with bracket-free t and text, the first '[' and the
      first ']' are the ones added around the text. */
  lemma BracketPositions(t: string, text: string)
    requires NoBrackets(t) && NoBrackets(text)
    ensures JavaString.IndexOf(t + " [" + text + "]", "[") == |t| + 1
    ensures JavaString.IndexOf(t + " [" + text + "]", "]") == |t| + 2 + |text|
  {
    var line := t + " [" + text + "]";
    var open, close := |t| + 1, |t| + 2 + |text|;
    assert line[open..open + 1] == "[";
    assert JavaString.OccursAt(line, "[", open);
    forall k | 0 <= k < open ensures !JavaString.OccursAt(line, "[", k) {
      if k < |t| { assert line[k] == t[k]; assert t[k] in t; } else { assert line[k] == ' '; }
    }
    var r := JavaString.IndexOf(line, "[");
    assert r != -1 && !(r < open) && !(r > open);
    assert line[close..close + 1] == "]";
    assert JavaString.OccursAt(line, "]", close);
    forall k | 0 <= k < close ensures !JavaString.OccursAt(line, "]", k) {
      if k < |t| { assert line[k] == t[k]; assert t[k] in t; }
      else if k < |t| + 2 { assert line[k] == " ["[k - |t|]; }
      else { assert line[k] == text[k - |t| - 2]; assert text[k - |t| - 2] in text; }
    }
    var q := JavaString.IndexOf(line, "]");
    assert q != -1 && !(q < close) && !(q > close);
  }

  /** The positions ParseScoredRule looks up in lhs + " ->  " + joined + " [" + text + "]". */
  lemma ScoredLineParts(lhs: Symbol, joined: string, text: string)
    requires PlainLhs(lhs) && NoBrackets(lhs) && NoBrackets(joined) && NoBrackets(text)
    ensures var line := lhs + " ->  " + joined + " [" + text + "]";
      var t := lhs + " ->  " + joined;
      JavaString.IndexOf(line, "->") == |lhs| + 1 &&
      JavaString.IndexOf(line, "[") == |t| + 1 &&
      JavaString.IndexOf(line, "]") == |t| + 2 + |text| &&
      line[|t| + 2..|t| + 2 + |text|] == text &&
      line[..|lhs| + 1] == lhs + " " &&
      line[|lhs| + 3..|t| + 1] == "  " + joined + " "
  {
    var t := lhs + " ->  " + joined;
    var line := lhs + " ->  " + joined + " [" + text + "]";
    assert NoBrackets(t);
    BracketPositions(t, text);
    assert line == lhs + " -> " + (" " + joined + " [" + text + "]");
    ArrowAfterLhs(lhs, " " + joined + " [" + text + "]");
  }

  /** Parsing the probabilistic text form assembled from its parts. */
  lemma ParseScoredLine(lhs: Symbol, rhs: seq<Symbol>, text: string, p: real, parse: string -> Option<real>)
    requires PlainLhs(lhs) && NoBrackets(lhs) && rhs != [] && PlainNames(rhs)
    requires NoBrackets(JavaString.Join(rhs)) && NoBrackets(text) && parse(text) == Some(p)
    ensures ParseScoredRule(lhs + " ->  " + JavaString.Join(rhs) + " [" + text + "]", parse)
         == Some(Rule(lhs, rhs, None, Some(Score(p, 0))))
  {
    ScoredLineParts(lhs, JavaString.Join(rhs), text);
    TrimLhs(lhs);
    TrimRhs(rhs, " ");
    JavaString.SplitJoin(rhs);
  }

  /** Round trip of the probabilistic form: with plain, bracket-free names and a probability
      text that is bracket-free and parses back, the symbols and the probability survive. */
  lemma ParseScoredRuleText(r: Rule, show: real -> string, parse: string -> Option<real>)
    requires r.score.Some? && PlainLhs(r.lhs) && r.rhs != [] && PlainNames(r.rhs)
    requires NoBrackets(r.lhs) && forall k :: 0 <= k < |r.rhs| ==> NoBrackets(r.rhs[k])
    requires NoBrackets(show(r.score.value.probability))
    requires parse(show(r.score.value.probability)) == Some(r.score.value.probability)
    ensures ParseScoredRule(Display(r, show), parse)
         == Some(NewProbabilisticRule(r.lhs, r.rhs, None, r.score.value.probability))
  {
    var text := show(r.score.value.probability);
    var joined := JavaString.Join(r.rhs);
    RuleTextShape(r);
    NoBracketsRhs(r.rhs);
    RhsTextJoin(r.rhs);
    assert NoBrackets(" " + joined);
    assert NoBrackets(joined) by {
      forall c | c in joined ensures c in " " + joined { }
    }
    ParseScoredLine(r.lhs, r.rhs, text, r.score.value.probability, parse);
    assert Display(r, show) == r.lhs + " ->  " + joined + " [" + text + "]";
  }

  // ---------------------------------------------------------------- predicates

  /** Rule.leftRecursive: X -> X with type SINGLE_NON_TERMINAL (Java reads rhs[0] first). */
  predicate LeftRecursive(r: Rule)
    requires r.rhs != []
  {
    r.rhs[0] == r.lhs && r.kind == Some(SingleNonTerminal)
  }

  // ---------------------------------------------------------------- updateMultipleNonTerminal

  predicate PairAt(s: seq<Symbol>, k: int, first: Symbol, second: Symbol)
  {
    0 <= k && k + 1 < |s| && s[k] == first && s[k + 1] == second
  }

  /** The first position of the adjacent pair (first, second), or -1. */
  function PairIndex(s: seq<Symbol>, first: Symbol, second: Symbol, from: nat): (r: int)
    requires from <= |s|
    ensures r == -1 || (from <= r && PairAt(s, r, first, second))
    ensures r >= 0 ==> forall k :: from <= k < r ==> !PairAt(s, k, first, second)
    ensures r == -1 ==> forall k :: from <= k ==> !PairAt(s, k, first, second)
    decreases |s| - from
  {
    if from + 1 >= |s| then -1
    else if s[from] == first && s[from + 1] == second then from
    else PairIndex(s, first, second, from + 1)
  }

  /** The first position holding the pair is the one PairIndex finds. */
  lemma PairIndexIs(s: seq<Symbol>, first: Symbol, second: Symbol, i: int)
    requires PairAt(s, i, first, second)
    requires forall k :: 0 <= k < i ==> !PairAt(s, k, first, second)
    ensures PairIndex(s, first, second, 0) == i
  {
    var r := PairIndex(s, first, second, 0);
    assert r != -1 && !(r < i) && !(r > i);
  }

  /** Rule.updateMultipleNonTerminal on a rule object: the loop of the source over the
      right-hand side, with the two removals and the insertion it performs on the list. */
  method UpdateMultipleNonTerminal(r: Rule, first: Symbol, second: Symbol, with: Symbol)
    returns (replaced: bool, updated: Rule)
    ensures replaced <==> PairIndex(r.rhs, first, second, 0) >= 0
    ensures !replaced ==> updated == r
    ensures replaced ==>
      var i := PairIndex(r.rhs, first, second, 0);
      && updated.lhs == r.lhs && updated.score == r.score
      && updated.rhs == r.rhs[..i] + [with] + r.rhs[i + 2..]
      && updated.kind == (if |updated.rhs| == 2 then Some(TwoNonTerminal) else r.kind)
  {
    var rhs := r.rhs;
    var i := 0;
    while i < |rhs| - 1
      invariant 0 <= i && rhs == r.rhs
      invariant forall k :: 0 <= k < i ==> !PairAt(rhs, k, first, second)
    {
      if rhs[i] == first && rhs[i + 1] == second {
        PairIndexIs(rhs, first, second, i);
        rhs := rhs[..i + 1] + rhs[i + 2..];
        rhs := rhs[..i] + rhs[i + 1..];
        rhs := rhs[..i] + [with] + rhs[i..];
        assert rhs == r.rhs[..i] + [with] + r.rhs[i + 2..];
        var kind := r.kind;
        if |rhs| == 2 {
          kind := Some(TwoNonTerminal);
        }
        return true, r.(rhs := rhs, kind := kind);
      }
      i := i + 1;
    }
    return false, r;
  }

  /** The rule after updateMultipleNonTerminal, as a value. */
  function Rewritten(r: Rule, first: Symbol, second: Symbol, with: Symbol): Rule
  {
    var i := PairIndex(r.rhs, first, second, 0);
    if i < 0 then r
    else
      var rhs := r.rhs[..i] + [with] + r.rhs[i + 2..];
      r.(rhs := rhs, kind := if |rhs| == 2 then Some(TwoNonTerminal) else r.kind)
  }

  /** Only the first matching pair is replaced: the result is one symbol shorter, and
      the symbols before and after the pair keep their order. */
  lemma RewrittenShape(r: Rule, first: Symbol, second: Symbol, with: Symbol, i: int)
    requires PairAt(r.rhs, i, first, second)
    requires forall k :: 0 <= k < i ==> !PairAt(r.rhs, k, first, second)
    ensures |Rewritten(r, first, second, with).rhs| == |r.rhs| - 1
    ensures Rewritten(r, first, second, with).rhs[..i] == r.rhs[..i]
    ensures Rewritten(r, first, second, with).rhs[i] == with
    ensures Rewritten(r, first, second, with).rhs[i + 1..] == r.rhs[i + 2..]
  {
    PairIndexIs(r.rhs, first, second, i);
  }

  // ---------------------------------------------------------------- ProbabilisticRule

  /** The four-argument ProbabilisticRule constructor: the count starts at 0. */
  function NewProbabilisticRule(lhs: Symbol, rhs: seq<Symbol>, kind: Option<RuleType>, probability: real): (r: Rule)
    ensures r.lhs == lhs && r.rhs == rhs && r.kind == kind
    ensures ProbabilityOf(r) == Some(probability) && r.score.value.count == 0
  {
    Rule(lhs, rhs, kind, Some(Score(probability, 0)))
  }

  /** ProbabilisticRule.increment: the count grows by exactly one. */
  function Incremented(r: Rule): (r': Rule)
    requires r.score.Some?
    ensures r'.score.Some? && r'.score.value.count == r.score.value.count + 1
    ensures r'.score.value.probability == r.score.value.probability
    ensures r'.lhs == r.lhs && r'.rhs == r.rhs && r'.kind == r.kind
  {
    r.(score := Some(r.score.value.(count := r.score.value.count + 1)))
  }

  /** ProbabilisticRule.normalizeProbability: probability := count / total, nothing else
      changes.  (Java divides by zero to NaN; the model requires a non-zero total.) */
  function Normalized(r: Rule, total: int): (r': Rule)
    requires r.score.Some? && total != 0
    ensures r'.score.Some? && r'.score.value.count == r.score.value.count
    ensures r'.score.value.probability * total as real == r.score.value.count as real
    ensures r'.lhs == r.lhs && r'.rhs == r.rhs && r'.kind == r.kind
  {
    r.(score := Some(r.score.value.(probability := r.score.value.count as real / total as real)))
  }
}
