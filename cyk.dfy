/** CYKParser.parse: the table of partial parses filled span length by span length, then the
    trees rooted in S over the whole sentence.  The filling loops are shared with the
    probabilistic parser, which differs only in how a cell keeps its candidates (the Scoring). */
module CYKParser {
  import opened Wrappers
  import opened Rules
  import opened RuleIndex
  import opened ParseTrees
  import opened ExceptionalWords
  import opened PartialParses
  import opened Grammar
  import opened Tables
  import opened CYKTables

  // ---------------------------------------------------------------- filling the table

  /** The seeding loop for one word: a node X over the word for every terminal rule X -> w,
      in the order the grammar returns the rules. */
  method SeedCell(g: Queries, word: Symbol, s: Scoring) returns (cell: seq<ParseNode>)
    ensures cell == Seed(g, word, s)
  {
    ghost var seed := Seed(g, word, s);
    var candidates := g.terminal(word);
    var list := new PartialParseList();
    var c: nat := 0;
    JoinNothing([], seed);
    while c < |candidates|
      invariant c <= |candidates| && |seed| == |candidates|
      invariant list.partialParses == seed[..c]
    {
      var node := SeedNode(word, At(g.store, candidates[c]), s);
      assert seed[c] == node;
      PrefixStep([], seed, c);
      list.AddPartialParse(node);
      c := c + 1;
    }
    Whole(seed);
    cell := list.partialParses;
  }

  /** One new node into the cell: appended by the plain parser (addPartialParse), kept only if
      best for its category by the probabilistic one (updatePartialParse). */
  method Keep(list: PartialParseList, node: ParseNode, s: Scoring, ghost cands: seq<ParseNode>)
    modifies list
    requires list.partialParses == Settle(cands, s)
    ensures list.partialParses == Settle(cands + [node], s)
  {
    SettleStep(cands, node, s);
    if s.Plain? {
      list.AddPartialParse(node);
    } else {
      list.UpdatePartialParse(node);
    }
  }

  /** The loop over the rules X -> A B for one left node l (category A) and one right node r
      (category B): each new node goes into the cell in turn. */
  method AddCandidates(g: Queries, list: PartialParseList, l: ParseNode, r: ParseNode, s: Scoring, ghost before: seq<ParseNode>)
    modifies list
    requires list.partialParses == Settle(before, s)
    ensures list.partialParses == Settle(before + Made(g, l, r, s), s)
  {
    ghost var made := Made(g, l, r, s);
    var candidates := g.pair(Label(l), Label(r));
    var c: nat := 0;
    JoinNothing(before, made);
    while c < |candidates|
      invariant c <= |candidates| && |made| == |candidates|
      invariant list.partialParses == Settle(before + made[..c], s)
    {
      var node := PairNode(l, r, At(g.store, candidates[c]), s);
      assert made[c] == node;
      PrefixStep(before, made, c);
      Keep(list, node, s, before + made[..c]);
      c := c + 1;
    }
    Whole(made);
  }

  /** The y loop: one left node with each right node in turn. */
  method AddRow(g: Queries, list: PartialParseList, l: ParseNode, rs: seq<ParseNode>, s: Scoring, ghost before: seq<ParseNode>)
    modifies list
    requires list.partialParses == Settle(before, s)
    ensures list.partialParses == Settle(before + Row(g, l, rs, s), s)
  {
    var y: nat := 0;
    JoinNone(before, rs, MadeWith(g, l, s));
    while y < |rs|
      invariant y <= |rs|
      invariant list.partialParses == Settle(before + Row(g, l, rs[..y], s), s)
    {
      AddRowStep(g, list, l, rs, y, s, before);
      y := y + 1;
    }
    JoinAll(rs, MadeWith(g, l, s));
  }

  /** One pass of the y loop. */
  method AddRowStep(g: Queries, list: PartialParseList, l: ParseNode, rs: seq<ParseNode>, y: nat, s: Scoring, ghost before: seq<ParseNode>)
    modifies list
    requires y < |rs|
    requires list.partialParses == Settle(before + Row(g, l, rs[..y], s), s)
    ensures list.partialParses == Settle(before + Row(g, l, rs[..y + 1], s), s)
  {
    ConcatStep(rs, y, MadeWith(g, l, s));
    AddCandidates(g, list, l, rs[y], s, before + Row(g, l, rs[..y], s));
    JoinAssoc(before, Row(g, l, rs[..y], s), Made(g, l, rs[y], s));
  }

  /** The x loop: each left node in turn with all the right nodes. */
  method AddPairs(g: Queries, list: PartialParseList, ls: seq<ParseNode>, rs: seq<ParseNode>, s: Scoring, ghost before: seq<ParseNode>)
    modifies list
    requires list.partialParses == Settle(before, s)
    ensures list.partialParses == Settle(before + Pairs(g, ls, rs, s), s)
  {
    var x: nat := 0;
    JoinNone(before, ls, RowWith(g, rs, s));
    while x < |ls|
      invariant x <= |ls|
      invariant list.partialParses == Settle(before + Pairs(g, ls[..x], rs, s), s)
    {
      AddPairsStep(g, list, ls, x, rs, s, before);
      x := x + 1;
    }
    JoinAll(ls, RowWith(g, rs, s));
  }

  /** One pass of the x loop. */
  method AddPairsStep(g: Queries, list: PartialParseList, ls: seq<ParseNode>, x: nat, rs: seq<ParseNode>, s: Scoring, ghost before: seq<ParseNode>)
    modifies list
    requires x < |ls|
    requires list.partialParses == Settle(before + Pairs(g, ls[..x], rs, s), s)
    ensures list.partialParses == Settle(before + Pairs(g, ls[..x + 1], rs, s), s)
  {
    ConcatStep(ls, x, RowWith(g, rs, s));
    AddRow(g, list, ls[x], rs, s, before + Pairs(g, ls[..x], rs, s));
    JoinAssoc(before, Pairs(g, ls[..x], rs, s), Row(g, ls[x], rs, s));
  }

  /** The k loop for cell (i, j): the left cell (i, k) with the right cell (k + 1, j) for every
      k from i to j - 1. */
  method FillCell(g: Queries, t: Grid<ParseNode>, i: nat, j: nat, s: Scoring) returns (cell: seq<ParseNode>)
    requires i < j
    ensures cell == Settle(Candidates(g, t, i, j, j, s), s)
  {
    var list := new PartialParseList();
    CandidatesNone(g, t, i, j, s);
    AddSplits(g, list, t, i, j, s);
    cell := list.partialParses;
  }

  /** The k loop itself, on the list the cell is gathered in. */
  method AddSplits(g: Queries, list: PartialParseList, t: Grid<ParseNode>, i: nat, j: nat, s: Scoring)
    modifies list
    requires i < j && list.partialParses == Settle(Candidates(g, t, i, j, i, s), s)
    ensures list.partialParses == Settle(Candidates(g, t, i, j, j, s), s)
  {
    var k := i;
    while k < j
      invariant i <= k <= j
      invariant list.partialParses == Settle(Candidates(g, t, i, j, k, s), s)
    {
      FillCellStep(g, list, t, i, j, k, s);
      k := k + 1;
    }
  }

  /** One pass of the k loop. */
  method FillCellStep(g: Queries, list: PartialParseList, t: Grid<ParseNode>, i: nat, j: nat, k: nat, s: Scoring)
    modifies list
    requires i <= k
    requires list.partialParses == Settle(Candidates(g, t, i, j, k, s), s)
    ensures list.partialParses == Settle(Candidates(g, t, i, j, k + 1, s), s)
  {
    CandidatesNext(g, t, i, j, k, s);
    AddPairs(g, list, Get(t, i, k), Get(t, k + 1, j), s, Candidates(g, t, i, j, k, s));
  }

  /** The seeding loop of lines 27-32: table[i][i] for every word. */
  method SeedAll(g: Queries, words: seq<Symbol>, s: Scoring, ghost T: Grid<ParseNode>) returns (table: Grid<ParseNode>)
    requires Built(g, words, T, s)
    ensures DoneBelow(table, T, |words|, 1, 0)
  {
    table := map[];
    var i: nat := 0;
    while i < |words|
      invariant i <= |words|
      invariant forall a :: 0 <= a < i ==> Get(table, a, a) == Get(T, a, a)
    {
      var cell := SeedCell(g, words[i], s);
      assert Get(T, i, i) == CellOf(g, words, T, i, i, s);
      DoneSeed(table, T, |words|, i, cell);
      table := table[(i, i) := cell];
      i := i + 1;
    }
    DoneDiagonal(table, T, |words|);
  }

  /** The i loop of lines 34-45 for one end j: the cells (j - 1, j), ..., (0, j) in turn. */
  method FillColumn(g: Queries, words: seq<Symbol>, s: Scoring, ghost T: Grid<ParseNode>, table: Grid<ParseNode>, j: nat) returns (table': Grid<ParseNode>)
    requires Built(g, words, T, s)
    requires 0 < j < |words| && DoneBelow(table, T, |words|, j, j - 1)
    ensures DoneBelow(table', T, |words|, j + 1, j)
  {
    table' := table;
    var i := j - 1;
    while i >= 0
      invariant -1 <= i < j
      invariant DoneBelow(table', T, |words|, j, i)
    {
      table' := FillOne(g, words, s, T, table', i, j);
      i := i - 1;
    }
    DoneColumn(table', T, |words|, j);
  }

  /** One cell (i, j) filled from the cells already done. */
  method FillOne(g: Queries, words: seq<Symbol>, s: Scoring, ghost T: Grid<ParseNode>, table: Grid<ParseNode>, i: nat, j: nat) returns (table': Grid<ParseNode>)
    requires Built(g, words, T, s)
    requires i < j < |words| && DoneBelow(table, T, |words|, j, i)
    ensures DoneBelow(table', T, |words|, j, i - 1)
  {
    var cell := FillCell(g, table, i, j, s);
    DoneAgree(table, T, |words|, i, j);
    CellOfAgree(g, words, table, T, i, j, s);
    assert Get(T, i, j) == CellOf(g, words, T, i, j, s);
    DoneNext(table, T, |words|, i, j, cell);
    table' := table[(i, j) := cell];
  }

  /** The table of the parsers for the words: table[i][i] seeded word by word, then the cells
      of each end j from 1, for i from j - 1 down to 0.  Every cell ends as the canonical
      table built span length by span length says. */
  method FillTable(g: Queries, words: seq<Symbol>, s: Scoring) returns (table: Grid<ParseNode>)
    ensures forall i, j :: 0 <= i <= j < |words| ==> Get(table, i, j) == Cell(g, words, i, j, s)
  {
    ghost var T := Table(CellRule(g, words, s), |words|, |words|);
    TableBuilt(g, words, s);
    table := SeedAll(g, words, s, T);
    var j: nat := 1;
    while j < |words|
      invariant 1 <= j
      invariant DoneBelow(table, T, |words|, j, j - 1)
    {
      table := FillColumn(g, words, s, T, table, j);
      j := j + 1;
    }
    DoneAll(table, T, |words|, j);
  }

  // ---------------------------------------------------------------- the trees handed back

  /** removeXNodes: a rewrite of a tree that keeps its leaves, left as a parameter. */
  ghost predicate KeepsLeaves(strip: ParseNode -> ParseNode)
  {
    forall t :: Yield(strip(t)) == Yield(t)
  }

  /** The nodes of a cell labelled S, in the cell's order. */
  function Roots(ps: seq<ParseNode>): (rs: seq<ParseNode>)
    ensures forall m :: m in rs <==> m in ps && Label(m) == "S"
  {
    if ps == [] then []
    else
      var last := ps[|ps| - 1];
      assert ps == ps[..|ps| - 1] + [last];
      Roots(ps[..|ps| - 1]) + (if Label(last) == "S" then [last] else [])
  }

  /** One more node of the cell: one more root when it is labelled S. */
  lemma RootsStep(ps: seq<ParseNode>, i: nat)
    requires i < |ps|
    ensures Roots(ps[..i + 1]) == Roots(ps[..i]) + (if Label(ps[i]) == "S" then [ps[i]] else [])
  {
    assert ps[..i + 1][..i] == ps[..i];
  }

  /** A root made into the tree the caller gets: X nodes removed, then the words of the saved
      sentence put back at the leaves holding "_rare_" or "_num_".  (A tree with more leaves
      than words would fail in reinsertExceptionalWordsFromSentence; the parsers never build
      one, and it is left as it is here.) */
  function Finished(m: ParseNode, sentence: seq<Symbol>, strip: ParseNode -> ParseNode): ParseNode
  {
    var t := strip(m);
    if LeavesNamed(t) && |Yield(t)| <= |sentence| then ReinsertedTree(t, sentence) else t
  }

  /** The trees for the roots, in order. */
  function Finish(roots: seq<ParseNode>, sentence: seq<Symbol>, strip: ParseNode -> ParseNode): seq<ParseNode>
  {
    seq(|roots|, q requires 0 <= q < |roots| => Finished(roots[q], sentence, strip))
  }

  /** The nodes with X nodes removed, in order. */
  function Stripped(roots: seq<ParseNode>, strip: ParseNode -> ParseNode): seq<ParseNode>
  {
    seq(|roots|, q requires 0 <= q < |roots| => strip(roots[q]))
  }

  /** One more root, one more stripped tree. */
  lemma StrippedStep(roots: seq<ParseNode>, m: ParseNode, strip: ParseNode -> ParseNode)
    ensures Stripped(roots + [m], strip) == Stripped(roots, strip) + [strip(m)]
  {
  }

  /** The loop of lines 47-54: the S nodes of the top cell, in order, X nodes removed. */
  method CollectRoots(top: seq<ParseNode>, strip: ParseNode -> ParseNode) returns (parseTrees: seq<ParseNode>)
    ensures parseTrees == Stripped(Roots(top), strip)
  {
    parseTrees := [];
    var i: nat := 0;
    JoinNothing([], top);
    while i < |top|
      invariant i <= |top|
      invariant parseTrees == Stripped(Roots(top[..i]), strip)
    {
      RootsStep(top, i);
      if Label(top[i]) == "S" {
        StrippedStep(Roots(top[..i]), top[i], strip);
        parseTrees := parseTrees + [strip(top[i])];
      }
      i := i + 1;
    }
    Whole(top);
  }

  /** The loop of lines 55-57: the saved words put back into every tree.  Every root spans the
      normalised words ws, which are as many as the saved ones. */
  method ReinsertAll(parseTrees: seq<ParseNode>, backUp: seq<Symbol>, strip: ParseNode -> ParseNode, ghost roots: seq<ParseNode>, ghost ws: seq<Symbol>) returns (parseTrees': seq<ParseNode>)
    requires KeepsLeaves(strip) && |ws| == |backUp| && parseTrees == Stripped(roots, strip)
    requires forall m :: m in roots ==> Yield(m) == Named(ws)
    ensures parseTrees' == Finish(roots, backUp, strip)
  {
    parseTrees' := parseTrees;
    var q: nat := 0;
    while q < |parseTrees'|
      invariant q <= |parseTrees'| == |roots|
      invariant forall p :: 0 <= p < q ==> parseTrees'[p] == Finished(roots[p], backUp, strip)
      invariant forall p :: q <= p < |parseTrees'| ==> parseTrees'[p] == strip(roots[p])
    {
      assert roots[q] in roots;
      var tree := ReinsertExceptionalWordsFromSentence(parseTrees'[q], backUp);
      parseTrees' := parseTrees'[q := tree];
      q := q + 1;
    }
  }

  /** CYKParser.parse.  The words are normalised first (removeExceptionalWordsFromSentence
      changes the caller's sentence; the new words are returned as sentence'), the table is
      filled with every node kept, and the trees are the S nodes of table[0][n - 1] with the
      saved words put back.  The sentence must not be empty: the source reads table[0][-1]
      otherwise. */
  method Parse(cfg: ContextFreeGrammar, sentence: seq<Symbol>, strip: ParseNode -> ParseNode) returns (parseTrees: seq<ParseNode>, sentence': seq<Symbol>)
    requires |sentence| > 0 && KeepsLeaves(strip)
    ensures sentence' == NormalizedWords(sentence, cfg.dictionary, cfg.minCount)
    ensures parseTrees == Finish(Roots(Cell(QueriesOf(cfg.View()), sentence', 0, |sentence| - 1, Plain)), sentence, strip)
  {
    var backUp := sentence;
    sentence' := cfg.UpdateExceptionalWordsInSentence(sentence);
    var g := QueriesOf(cfg.View());
    var table := FillTable(g, sentence', Plain);
    var top := Get(table, 0, |sentence'| - 1);
    TopYield(g, sentence', Plain);
    parseTrees := CollectRoots(top, strip);
    parseTrees := ReinsertAll(parseTrees, backUp, strip, Roots(top), sentence');
  }

  // ---------------------------------------------------------------- what the trees are

  /** Every node of the finished top cell spans all the words. */
  lemma TopYield(g: Queries, ws: seq<Symbol>, s: Scoring)
    requires |ws| > 0
    ensures forall m :: m in Cell(g, ws, 0, |ws| - 1, s) ==> Yield(m) == Named(ws)
  {
    TableBuilt(g, ws, s);
    var T := Table(CellRule(g, ws, s), |ws|, |ws|);
    forall m | m in Cell(g, ws, 0, |ws| - 1, s) ensures Yield(m) == Named(ws) {
      CellYield(g, ws, T, s, 0, |ws| - 1, m);
      assert ws[0..|ws|] == ws;
    }
  }

  /** A root over the normalised words comes back spelling the original sentence. */
  lemma FinishedWords(m: ParseNode, sentence: seq<Symbol>, dictionary: map<string, nat>, minCount: int, strip: ParseNode -> ParseNode)
    requires KeepsLeaves(strip) && Yield(m) == Named(NormalizedWords(sentence, dictionary, minCount))
    ensures LeavesNamed(Finished(m, sentence, strip)) && Words(Finished(m, sentence, strip)) == sentence
  {
    var ws := NormalizedWords(sentence, dictionary, minCount);
    var t := strip(m);
    assert Yield(t) == Named(ws);
    assert Words(t) == ws;
    ReinsertRestores(ws, sentence, dictionary, minCount);
  }

  /** Every tree a parser hands back has the words of the sentence as its leaves, in order,
      whatever the grammar and however the cells keep their nodes. */
  lemma ResultsSpellSentence(g: Queries, sentence: seq<Symbol>, dictionary: map<string, nat>, minCount: int, s: Scoring, strip: ParseNode -> ParseNode, roots: seq<ParseNode>)
    requires |sentence| > 0 && KeepsLeaves(strip)
    requires forall m :: m in roots ==> m in Cell(g, NormalizedWords(sentence, dictionary, minCount), 0, |sentence| - 1, s)
    ensures forall t :: t in Finish(roots, sentence, strip) ==> LeavesNamed(t) && Words(t) == sentence
  {
    var ws := NormalizedWords(sentence, dictionary, minCount);
    TopYield(g, ws, s);
    forall t | t in Finish(roots, sentence, strip) ensures LeavesNamed(t) && Words(t) == sentence {
      var q :| 0 <= q < |roots| && Finish(roots, sentence, strip)[q] == t;
      assert roots[q] in roots;
      FinishedWords(roots[q], sentence, dictionary, minCount, strip);
    }
  }

  /** A parse of the words: a derivation of the grammar rooted in S whose leaves are the words. */
  ghost predicate SentenceParse(g: Queries, ws: seq<Symbol>, s: Scoring, m: ParseNode)
  {
    Derivation(g, m, s) && Label(m) == "S" && Yield(m) == Named(ws)
  }

  /** Every root a parser takes from the top cell is a parse of the words. */
  lemma RootsSound(g: Queries, ws: seq<Symbol>, s: Scoring, m: ParseNode)
    requires Exact(g) && |ws| > 0 && m in Roots(Cell(g, ws, 0, |ws| - 1, s))
    ensures SentenceParse(g, ws, s, m)
  {
    TableBuilt(g, ws, s);
    var T := Table(CellRule(g, ws, s), |ws|, |ws|);
    CellSound(g, ws, T, s, 0, |ws| - 1, m);
    TopYield(g, ws, s);
  }

  /** The plain parser finds exactly the parses of the words: a node is one of its roots if and
      only if it is a derivation rooted in S over the words. */
  lemma RootsExact(g: Queries, ws: seq<Symbol>, m: ParseNode)
    requires Exact(g) && |ws| > 0
    ensures m in Roots(Cell(g, ws, 0, |ws| - 1, Plain)) <==> SentenceParse(g, ws, Plain, m)
  {
    if SentenceParse(g, ws, Plain, m) {
      TableBuilt(g, ws, Plain);
      var T := Table(CellRule(g, ws, Plain), |ws|, |ws|);
      assert ws[0..|ws|] == ws;
      CellComplete(g, ws, T, 0, |ws| - 1, m);
    }
    if m in Roots(Cell(g, ws, 0, |ws| - 1, Plain)) {
      RootsSound(g, ws, Plain, m);
    }
  }

  /** The same for a grammar whose rule lists are well formed: the parser's roots are exactly
      the parses the grammar's rules allow. */
  lemma ParsesExact(ix: Index, ws: seq<Symbol>, m: ParseNode)
    requires Ready(ix) && |ws| > 0
    ensures m in Roots(Cell(QueriesOf(ix), ws, 0, |ws| - 1, Plain)) <==> SentenceParse(QueriesOf(ix), ws, Plain, m)
  {
    QueriesExact(ix);
    RootsExact(QueriesOf(ix), ws, m);
  }
}
