/** ProbabilisticCYKParser.parse: the same table as the CYK parser, but every cell keeps, per
    category, the ProbabilisticParseNode with the best log-probability (updatePartialParse);
    the trees handed back are the S nodes of the top cell scoring the best log-probability. */
module ProbabilisticCYKParser {
  import opened Wrappers
  import opened Rules
  import opened RuleIndex
  import opened ParseTrees
  import opened ExceptionalWords
  import opened PartialParses
  import opened Grammar
  import opened Tables
  import opened CYKTables
  import opened CYKParser

  /** -Double.MAX_VALUE, exactly: -(2^53 - 1) * 2^971. */
  const MinusMaxDouble: real := -179769313486231570814527423731704356798070567525844996598917476803157260780028538760589558632766878171540458953514382464234321326889464182768467546703537516986049910576551282076245490090389328944075868508455133942304583236903222948165808559332123348274797826204144723168738177180919299881250404026184124858368.0

  /** bestProbability after the loop of lines 50-55 over the nodes ps: it starts at
      -Double.MAX_VALUE and takes the log-probability of an S node only when strictly larger. */
  function BestScore(ps: seq<ParseNode>): real
  {
    if ps == [] then MinusMaxDouble
    else
      var best := BestScore(ps[..|ps| - 1]);
      var m := ps[|ps| - 1];
      if Label(m) == "S" && LogScore(m) > best then LogScore(m) else best
  }

  /** What the loop computes: at least -Double.MAX_VALUE, at least the log-probability of every
      S node, and, unless it stayed at its start, the log-probability of one of them. */
  lemma {:induction false} BestScoreIs(ps: seq<ParseNode>)
    ensures MinusMaxDouble <= BestScore(ps)
    ensures forall m :: m in ps && Label(m) == "S" ==> LogScore(m) <= BestScore(ps)
    ensures BestScore(ps) == MinusMaxDouble || exists m :: m in ps && Label(m) == "S" && LogScore(m) == BestScore(ps)
  {
    if ps != [] {
      var init := ps[..|ps| - 1];
      assert ps == init + [ps[|ps| - 1]];
      BestScoreIs(init);
    }
  }

  /** One more node for the loop of lines 50-55. */
  lemma BestScoreStep(ps: seq<ParseNode>, i: nat)
    requires i < |ps|
    ensures BestScore(ps[..i + 1]) == if Label(ps[i]) == "S" && LogScore(ps[i]) > BestScore(ps[..i]) then LogScore(ps[i]) else BestScore(ps[..i])
  {
    assert ps[..i + 1][..i] == ps[..i];
  }

  /** The S nodes of ps scoring exactly best, in order (the test of lines 56-57). */
  function Chosen(ps: seq<ParseNode>, best: real): (rs: seq<ParseNode>)
    ensures forall m :: m in rs <==> m in ps && Label(m) == "S" && LogScore(m) == best
  {
    if ps == [] then []
    else
      var last := ps[|ps| - 1];
      assert ps == ps[..|ps| - 1] + [last];
      Chosen(ps[..|ps| - 1], best) + (if Label(last) == "S" && LogScore(last) == best then [last] else [])
  }

  /** One more node for the loop of lines 56-63. */
  lemma ChosenStep(ps: seq<ParseNode>, best: real, i: nat)
    requires i < |ps|
    ensures Chosen(ps[..i + 1], best) == Chosen(ps[..i], best) + (if Label(ps[i]) == "S" && LogScore(ps[i]) == best then [ps[i]] else [])
  {
    assert ps[..i + 1][..i] == ps[..i];
  }

  /** The roots the parser takes from the top cell: the S nodes with the best log-probability. */
  function Best(top: seq<ParseNode>): seq<ParseNode>
  {
    Chosen(top, BestScore(top))
  }

  /** In a list with distinct categories at most one node is labelled S, so at most one is
      chosen. */
  lemma {:induction false} ChosenAtMostOne(ps: seq<ParseNode>, best: real)
    requires DistinctLabels(ps)
    ensures |Chosen(ps, best)| <= 1
  {
    if ps != [] {
      var init, last := ps[..|ps| - 1], ps[|ps| - 1];
      assert DistinctLabels(init) by {
        forall a, b | 0 <= a < b < |init| ensures Label(init[a]) != Label(init[b]) {
          assert init[a] == ps[a] && init[b] == ps[b];
        }
      }
      ChosenAtMostOne(init, best);
      if Label(last) == "S" {
        forall k | 0 <= k < |init| ensures Label(init[k]) != "S" {
          assert init[k] == ps[k];
        }
        ChosenNone(init, best);
      }
    }
  }

  /** A list without S nodes has none chosen. */
  lemma {:induction false} ChosenNone(ps: seq<ParseNode>, best: real)
    requires forall k :: 0 <= k < |ps| ==> Label(ps[k]) != "S"
    ensures Chosen(ps, best) == []
  {
    if ps != [] {
      var init := ps[..|ps| - 1];
      forall k | 0 <= k < |init| ensures Label(init[k]) != "S" {
        assert init[k] == ps[k];
      }
      ChosenNone(init, best);
    }
  }

  // ---------------------------------------------------------------- the parser

  /** The loop of lines 50-55. */
  method BestProbability(top: seq<ParseNode>) returns (bestProbability: real)
    ensures bestProbability == BestScore(top)
  {
    bestProbability := MinusMaxDouble;
    var i: nat := 0;
    JoinNothing([], top);
    while i < |top|
      invariant i <= |top|
      invariant bestProbability == BestScore(top[..i])
    {
      BestScoreStep(top, i);
      if Label(top[i]) == "S" && LogScore(top[i]) > bestProbability {
        bestProbability := LogScore(top[i]);
      }
      i := i + 1;
    }
    Whole(top);
  }

  /** The loop of lines 56-63: the S nodes scoring bestProbability, X nodes removed. */
  method CollectBest(top: seq<ParseNode>, bestProbability: real, strip: ParseNode -> ParseNode) returns (parseTrees: seq<ParseNode>)
    ensures parseTrees == Stripped(Chosen(top, bestProbability), strip)
  {
    parseTrees := [];
    var i: nat := 0;
    JoinNothing([], top);
    while i < |top|
      invariant i <= |top|
      invariant parseTrees == Stripped(Chosen(top[..i], bestProbability), strip)
    {
      ChosenStep(top, bestProbability, i);
      if Label(top[i]) == "S" && LogScore(top[i]) == bestProbability {
        StrippedStep(Chosen(top[..i], bestProbability), top[i], strip);
        parseTrees := parseTrees + [strip(top[i])];
      }
      i := i + 1;
    }
    Whole(top);
  }

  /** ProbabilisticCYKParser.parse, with `ln` standing for Math.log.  The words are normalised
      (the new words are returned as sentence'), the table is filled keeping the best node per
      category in each cell, and the trees are the best S nodes of table[0][n - 1] with the
      saved words put back.  The sentence must not be empty: the source reads table[0][-1]
      otherwise. */
  method Parse(pCfg: ContextFreeGrammar, sentence: seq<Symbol>, strip: ParseNode -> ParseNode, ln: real -> real) returns (parseTrees: seq<ParseNode>, sentence': seq<Symbol>)
    requires |sentence| > 0 && KeepsLeaves(strip)
    ensures sentence' == NormalizedWords(sentence, pCfg.dictionary, pCfg.minCount)
    ensures parseTrees == Finish(Best(Cell(QueriesOf(pCfg.View()), sentence', 0, |sentence| - 1, Scored(ln))), sentence, strip)
  {
    var backUp := sentence;
    sentence' := pCfg.UpdateExceptionalWordsInSentence(sentence);
    var g := QueriesOf(pCfg.View());
    var table := FillTable(g, sentence', Scored(ln));
    var top := Get(table, 0, |sentence'| - 1);
    TopYield(g, sentence', Scored(ln));
    var bestProbability := BestProbability(top);
    parseTrees := CollectBest(top, bestProbability, strip);
    parseTrees := ReinsertAll(parseTrees, backUp, strip, Best(top), sentence');
  }

  // ---------------------------------------------------------------- what the trees are

  /** Every tree chosen is a parse of the words, and no parse of the words has a higher
      log-probability. */
  lemma BestOptimal(g: Queries, ws: seq<Symbol>, ln: real -> real, m: ParseNode, d: ParseNode)
    requires Exact(g) && |ws| > 0
    requires m in Best(Cell(g, ws, 0, |ws| - 1, Scored(ln))) && SentenceParse(g, ws, Scored(ln), d)
    ensures SentenceParse(g, ws, Scored(ln), m) && LogScore(d) <= LogScore(m)
  {
    var top := Cell(g, ws, 0, |ws| - 1, Scored(ln));
    RootsSound(g, ws, Scored(ln), m);
    TableBuilt(g, ws, Scored(ln));
    assert ws[0..|ws|] == ws;
    CellBest(g, ws, Table(CellRule(g, ws, Scored(ln)), |ws|, |ws|), ln, 0, |ws| - 1, d);
    BestScoreIs(top);
  }

  /** When some parse of the words scores at least -Double.MAX_VALUE, the parser returns at
      least one tree. */
  lemma BestFound(g: Queries, ws: seq<Symbol>, ln: real -> real, d: ParseNode)
    requires Exact(g) && |ws| > 0
    requires SentenceParse(g, ws, Scored(ln), d) && MinusMaxDouble <= LogScore(d)
    ensures Best(Cell(g, ws, 0, |ws| - 1, Scored(ln))) != []
  {
    var top := Cell(g, ws, 0, |ws| - 1, Scored(ln));
    TableBuilt(g, ws, Scored(ln));
    assert ws[0..|ws|] == ws;
    CellBest(g, ws, Table(CellRule(g, ws, Scored(ln)), |ws|, |ws|), ln, 0, |ws| - 1, d);
    var b :| b in top && Label(b) == "S" && LogScore(d) <= LogScore(b);
    BestScoreIs(top);
    if BestScore(top) == MinusMaxDouble {
      assert b in Best(top);
    } else {
      var m :| m in top && Label(m) == "S" && LogScore(m) == BestScore(top);
      assert m in Best(top);
    }
  }

  /** For two words or more the parser returns at most one tree: the top cell keeps one node
      per category, so one S node at most. */
  lemma BestAtMostOne(g: Queries, ws: seq<Symbol>, ln: real -> real)
    requires |ws| >= 2
    ensures |Best(Cell(g, ws, 0, |ws| - 1, Scored(ln)))| <= 1
  {
    var top := Cell(g, ws, 0, |ws| - 1, Scored(ln));
    TableBuilt(g, ws, Scored(ln));
    CellDistinct(g, ws, Table(CellRule(g, ws, Scored(ln)), |ws|, |ws|), ln, 0, |ws| - 1);
    ChosenAtMostOne(top, BestScore(top));
  }
}
