/** ProbabilisticEarleyParser.parse: the charts are built as by the Earley parser, with the
    probabilistic predictor, scanner and completer (the ProbabilisticParser variant), and of the
    trees of the complete S entries of chart[n] only those with the highest log-probability
    under the grammar are handed back.  Math.log is the parameter `ln`. */
module ProbabilisticEarleyParser {
  import opened Wrappers
  import opened Rules
  import opened RuleIndex
  import opened ParseTrees
  import opened ChartEntries
  import opened Charts
  import opened ExceptionalWords
  import opened Grammar
  import opened EarleyParser
  import TreeProbability
  import Tables
  import ProbabilisticCYKParser

  /** The log-probability the grammar gives a tree; None where probability(tree) throws. */
  function ScoreOf(ix: Index, oracle: Oracle, ln: real -> real): ParseNode -> Option<real>
  {
    t => TreeProbability.NodeLogProbability(ix, t, oracle, ln)
  }

  /** The log-probabilities of the trees, in order: None when one of them has none. */
  function Scores(ts: seq<ParseNode>, score: ParseNode -> Option<real>): (ps: Option<seq<real>>)
    ensures ps.Some? <==> forall k :: 0 <= k < |ts| ==> score(ts[k]).Some?
    ensures ps.Some? ==> |ps.value| == |ts| && forall k :: 0 <= k < |ts| ==> ps.value[k] == score(ts[k]).value
  {
    if ts == [] then Some([])
    else
      var init, last := ts[..|ts| - 1], ts[|ts| - 1];
      assert forall k :: 0 <= k < |init| ==> init[k] == ts[k];
      match Scores(init, score)
      case None => None
      case Some(ps) =>
        match score(last)
        case None => None
        case Some(p) => Some(ps + [p])
  }

  /** One more tree. */
  lemma ScoresStep(ts: seq<ParseNode>, score: ParseNode -> Option<real>, i: nat)
    requires i < |ts|
    ensures Scores(ts[..i + 1], score) ==
      match Scores(ts[..i], score)
      case None => None
      case Some(ps) => (match score(ts[i]) case None => None case Some(p) => Some(ps + [p]))
  {
    assert ts[..i + 1][..i] == ts[..i];
  }

  /** bestProbability after the loop of lines 122-129: it starts at -Double.MAX_VALUE and takes
      a log-probability only when strictly larger. */
  function Highest(ps: seq<real>): real
  {
    if ps == [] then ProbabilisticCYKParser.MinusMaxDouble
    else
      var best := Highest(ps[..|ps| - 1]);
      if ps[|ps| - 1] > best then ps[|ps| - 1] else best
  }

  /** What that loop computes: at least -Double.MAX_VALUE, at least every log-probability, and,
      unless it stayed at its start, one of them. */
  lemma {:induction false} HighestIs(ps: seq<real>)
    ensures ProbabilisticCYKParser.MinusMaxDouble <= Highest(ps)
    ensures forall k :: 0 <= k < |ps| ==> ps[k] <= Highest(ps)
    ensures Highest(ps) == ProbabilisticCYKParser.MinusMaxDouble || exists k :: 0 <= k < |ps| && ps[k] == Highest(ps)
  {
    if ps != [] {
      var init := ps[..|ps| - 1];
      HighestIs(init);
      assert forall k :: 0 <= k < |init| ==> init[k] == ps[k];
    }
  }

  /** One more log-probability. */
  lemma HighestStep(ps: seq<real>, i: nat)
    requires i < |ps|
    ensures Highest(ps[..i + 1]) == if ps[i] > Highest(ps[..i]) then ps[i] else Highest(ps[..i])
  {
    assert ps[..i + 1][..i] == ps[..i];
  }

  /** The trees whose log-probability equals best, in order (the test of lines 133-135). */
  function Matching(ts: seq<ParseNode>, ps: seq<real>, best: real): (rs: seq<ParseNode>)
    requires |ts| == |ps|
    ensures |rs| <= |ts|
    ensures forall t :: t in rs <==> exists k :: 0 <= k < |ts| && ts[k] == t && ps[k] == best
  {
    if ts == [] then []
    else
      var n := |ts| - 1;
      var rs := Matching(ts[..n], ps[..n], best);
      assert forall k :: 0 <= k < n ==> ts[..n][k] == ts[k] && ps[..n][k] == ps[k];
      rs + (if ps[n] == best then [ts[n]] else [])
  }

  /** One more tree. */
  lemma MatchingStep(ts: seq<ParseNode>, ps: seq<real>, best: real, i: nat)
    requires |ts| == |ps| && i < |ts|
    ensures Matching(ts[..i + 1], ps[..i + 1], best) == Matching(ts[..i], ps[..i], best) + (if ps[i] == best then [ts[i]] else [])
  {
    assert ts[..i + 1][..i] == ts[..i] && ps[..i + 1][..i] == ps[..i];
  }

  /** What parse returns for the trees of the entries: None when a tree could not be built or
      has no probability, otherwise the trees scoring the highest log-probability. */
  function Best(trees: Option<seq<ParseNode>>, score: ParseNode -> Option<real>): Option<seq<ParseNode>>
  {
    match trees
    case None => None
    case Some(ts) =>
      match Scores(ts, score)
      case None => None
      case Some(ps) => Some(Matching(ts, ps, Highest(ps)))
  }

  // ---------------------------------------------------------------- what the trees are

  /** Every tree returned is one of the trees of the entries, and none of those scores higher. */
  lemma BestMaximal(ts: seq<ParseNode>, score: ParseNode -> Option<real>, t: ParseNode, u: ParseNode)
    requires Best(Some(ts), score).Some? && t in Best(Some(ts), score).value && u in ts
    ensures t in ts && score(t).Some? && score(u).Some?
    ensures score(u).value <= score(t).value
  {
    var ps := Scores(ts, score).value;
    HighestIs(ps);
    var j :| 0 <= j < |ts| && ts[j] == u;
    assert ps[j] <= Highest(ps);
  }

  /** Conversely, a tree scoring at least as high as every other, and at least
      -Double.MAX_VALUE, is returned. */
  lemma BestComplete(ts: seq<ParseNode>, score: ParseNode -> Option<real>, u: ParseNode)
    requires Scores(ts, score).Some? && u in ts
    requires ProbabilisticCYKParser.MinusMaxDouble <= score(u).value
    requires forall w :: w in ts ==> score(w).value <= score(u).value
    ensures u in Best(Some(ts), score).value
  {
    var ps := Scores(ts, score).value;
    HighestIs(ps);
    var j :| 0 <= j < |ts| && ts[j] == u;
    if Highest(ps) != ProbabilisticCYKParser.MinusMaxDouble {
      var k :| 0 <= k < |ps| && ps[k] == Highest(ps);
      assert ts[k] in ts;
    }
    assert ps[j] == Highest(ps);
  }

  /** When one tree scores at least -Double.MAX_VALUE, at least one tree is returned. */
  lemma BestFound(ts: seq<ParseNode>, score: ParseNode -> Option<real>, u: ParseNode)
    requires Scores(ts, score).Some? && u in ts
    requires ProbabilisticCYKParser.MinusMaxDouble <= score(u).value
    ensures Best(Some(ts), score).value != []
  {
    var ps := Scores(ts, score).value;
    HighestIs(ps);
    var j :| 0 <= j < |ts| && ts[j] == u;
    if Highest(ps) == ProbabilisticCYKParser.MinusMaxDouble {
      assert ps[j] == Highest(ps);
      assert u in Best(Some(ts), score).value;
    } else {
      var k :| 0 <= k < |ps| && ps[k] == Highest(ps);
      assert ts[k] in Best(Some(ts), score).value;
    }
  }

  // ---------------------------------------------------------------- the parser

  /** The loop of lines 122-129: builds each tree and scores it, keeping the highest score.
      None when a tree cannot be built or has no probability. */
  method ScoreTrees(pCfg: ContextFreeGrammar, es: seq<ChartEntry>, oracle: Oracle, ln: real -> real) returns (trees: Option<seq<ParseNode>>, bestProbability: real)
    requires forall k :: 0 <= k < |es| ==> Ordered(es[k])
    ensures trees.Some? <==> TreesOf(es).Some? && Scores(TreesOf(es).value, ScoreOf(pCfg.View(), oracle, ln)).Some?
    ensures trees.Some? ==> trees == TreesOf(es) && bestProbability == Highest(Scores(trees.value, ScoreOf(pCfg.View(), oracle, ln)).value)
  {
    var ix := pCfg.View();
    var built: seq<ParseNode> := [];
    ghost var ps: seq<real> := [];
    bestProbability := ProbabilisticCYKParser.MinusMaxDouble;
    Tables.JoinNothing([], es);
    for i := 0 to |es|
      invariant TreesOf(es[..i]) == Some(built)
      invariant Scores(built, ScoreOf(ix, oracle, ln)) == Some(ps) && bestProbability == Highest(ps)
    {
      TreesStep(es, i);
      var node := ParseNodeOf(es[i]);
      if node.None? {
        NoTreesAfter(es, i + 1);
        return None, bestProbability;
      }
      var tree := node.value;
      var probability := pCfg.Probability(tree, oracle, ln);
      if probability.None? {
        if TreesOf(es).Some? {
          assert TreesOf(es).value[i] == tree;
        }
        return None, bestProbability;
      }
      ScoresStep(built + [tree], ScoreOf(ix, oracle, ln), |built|);
      assert (built + [tree])[..|built|] == built;
      HighestStep(ps + [probability.value], |ps|);
      assert (ps + [probability.value])[..|ps|] == ps;
      if probability.value > bestProbability {
        bestProbability := probability.value;
      }
      built := built + [tree];
      ps := ps + [probability.value];
    }
    Tables.Whole(es);
    return Some(built), bestProbability;
  }

  /** The loop of lines 130-136: scores every tree again and keeps those equal to
      bestProbability. */
  method KeepBest(pCfg: ContextFreeGrammar, parseTrees: seq<ParseNode>, bestProbability: real, oracle: Oracle, ln: real -> real) returns (result: seq<ParseNode>)
    requires Scores(parseTrees, ScoreOf(pCfg.View(), oracle, ln)).Some?
    ensures result == Matching(parseTrees, Scores(parseTrees, ScoreOf(pCfg.View(), oracle, ln)).value, bestProbability)
  {
    ghost var ps := Scores(parseTrees, ScoreOf(pCfg.View(), oracle, ln)).value;
    result := [];
    Tables.JoinNothing([], parseTrees);
    Tables.JoinNothing([], ps);
    for i := 0 to |parseTrees|
      invariant result == Matching(parseTrees[..i], ps[..i], bestProbability)
    {
      MatchingStep(parseTrees, ps, bestProbability, i);
      var probability := pCfg.Probability(parseTrees[i], oracle, ln);
      if probability.value == bestProbability {
        result := result + [parseTrees[i]];
      }
    }
    Tables.Whole(parseTrees);
    Tables.Whole(ps);
  }

  /** ProbabilisticEarleyParser.parse, with `ln` standing for Math.log and None where an
      exception escapes.  The result is Best of the trees of the complete S entries of chart[n]:
      the trees scoring the highest log-probability.  Each of them is rooted at S, and in a
      valid grammar whose types fit its rules each covers exactly the words of the sentence. */
  method Parse(pCfg: ContextFreeGrammar, sentence: seq<Symbol>, fuel: nat, oracle: Oracle, ln: real -> real) returns (result: Option<seq<ParseNode>>, ghost entries: seq<ChartEntry>)
    requires AllProbabilistic(pCfg.View())
    ensures forall k :: 0 <= k < |entries| ==> Ordered(entries[k])
    ensures forall k :: 0 <= k < |entries| ==> Item(LookupsOf(pCfg.View()), sentence, |sentence|, entries[k]) && SentenceEntry(entries[k], |sentence|)
    ensures result == Best(TreesOf(entries), ScoreOf(pCfg.View(), oracle, ln))
    ensures result.Some? ==> forall t :: t in result.value ==> t.data == Some("S")
    ensures Valid(pCfg.View()) && KindsFit(pCfg.View()) && result.Some? ==> forall t :: t in result.value ==> Yield(t) == Named(sentence)
  {
    var ix := pCfg.View();
    var g := LookupsOf(ix);
    LookupsHonest(ix);
    LookupsScored(ix);
    var chart := ConstructChart(g, sentence, ProbabilisticParser, fuel);
    var found := SentenceChartEntries(g, sentence, chart);
    entries := found;
    var parseTrees, bestProbability := ScoreTrees(pCfg, found, oracle, ln);
    if parseTrees.None? {
      result := None;
    } else {
      var kept := KeepBest(pCfg, parseTrees.value, bestProbability, oracle, ln);
      result := Some(kept);
    }
    SentenceTrees(g, sentence, entries);
    if Valid(ix) && KindsFit(ix) {
      LookupsProper(ix);
    }
  }
}
