/** The table both CYK parsers fill, as values: what cell table[i][j] holds once the parser has
    finished it, for the words i..j of the (normalised) sentence.  The plain parser
    (CYKParser.java) keeps every node it builds; the probabilistic one
    (ProbabilisticCYKParser.java) builds ProbabilisticParseNodes and keeps, for each category,
    the best node only.  A Scoring value tells the two apart.  A table is a map from (i, j) to
    the contents of that cell; CellOf says what a cell holds given the shorter cells, Table
    builds the whole table span length by span length, and the lemmas hold for every table
    that satisfies the CellOf equations. */
module CYKTables {
  import opened Wrappers
  import opened Rules
  import opened RuleIndex
  import opened ParseTrees
  import opened ExceptionalWords
  import opened PartialParses
  import opened Tables

  /** Plain: ParseNodes, every node kept.  Scored: ProbabilisticParseNodes, `ln` standing for
      Math.log, the best node per category kept. */
  datatype Scoring = Plain | Scored(ln: real -> real)

  /** Math.log of a ProbabilisticRule's probability (a rule without one would fail the cast;
      it reads as 0 here). */
  function RuleLog(r: Rule, ln: real -> real): real
  {
    if r.score.Some? then ln(r.score.value.probability) else 0.0
  }

  /** The node the seeding loop builds for word w and terminal rule r: X over the word. */
  function SeedNode(w: Symbol, r: Rule, s: Scoring): ParseNode
  {
    match s
    case Plain => Unary(Leaf(w), r.lhs)
    case Scored(ln) => ProbabilisticUnary(Leaf(w), r.lhs, RuleLog(r, ln))
  }

  /** The node the filling loop builds from a left node, a right node and rule X -> A B; the
      probabilistic node adds the rule's log-probability to its children's. */
  function PairNode(l: ParseNode, r: ParseNode, rule: Rule, s: Scoring): ParseNode
  {
    match s
    case Plain => Binary(l, r, rule.lhs)
    case Scored(ln) => ProbabilisticBinary(l, r, rule.lhs, RuleLog(rule, ln) + LogScore(l) + LogScore(r))
  }

  /** What the parsers ask of the grammar: its rule objects, the ids in rulesRightSorted, and
      the answers of getTerminalRulesWithRightSideX and getRulesWithTwoNonTerminalsOnRightSide. */
  datatype Queries = Queries(store: seq<Rule>, right: seq<nat>, terminal: Symbol -> seq<nat>, pair: (Symbol, Symbol) -> seq<nat>)

  /** The queries of a grammar index. */
  function QueriesOf(ix: Index): (g: Queries)
    ensures g.store == ix.store && g.right == ix.right
    ensures forall w :: g.terminal(w) == TerminalRulesWithRightSide(ix, w)
    ensures forall a, b :: g.pair(a, b) == RulesWithTwoOnRightSide(ix, a, b)
  {
    Queries(ix.store, ix.right, w => TerminalRulesWithRightSide(ix, w), (a, b) => RulesWithTwoOnRightSide(ix, a, b))
  }

  /** The queries answer exactly: the TERMINAL rules X -> w, and the rules X -> A B. */
  ghost predicate Exact(g: Queries)
  {
    && (forall w, id :: id in g.terminal(w) <==> id in g.right && At(g.store, id).kind == Some(Terminal) && At(g.store, id).rhs == [w])
    && (forall a, b, id :: id in g.pair(a, b) <==> id in g.right && At(g.store, id).rhs == [a, b])
  }

  /** The grammar the parsers need: a valid index whose rule types fit their right-hand sides. */
  predicate Ready(ix: Index)
  {
    Valid(ix) && KindsFit(ix)
  }

  /** On such a grammar both queries answer exactly. */
  lemma QueriesExact(ix: Index)
    requires Ready(ix)
    ensures Exact(QueriesOf(ix))
  {
    var g := QueriesOf(ix);
    forall w ensures forall id :: id in g.terminal(w) <==> id in g.right && At(g.store, id).kind == Some(Terminal) && At(g.store, id).rhs == [w] {
      TerminalRulesWithRightSideExact(ix, w);
    }
    forall a, b ensures forall id :: id in g.pair(a, b) <==> id in g.right && At(g.store, id).rhs == [a, b] {
      RulesWithTwoOnRightSideExact(ix, a, b);
    }
  }

  /** What the seeding loop adds to table[i][i] for word w: one node per rule
      getTerminalRulesWithRightSideX returns, in that order. */
  function Seed(g: Queries, w: Symbol, s: Scoring): seq<ParseNode>
  {
    var ids := g.terminal(w);
    seq(|ids|, q requires 0 <= q < |ids| => SeedNode(w, At(g.store, ids[q]), s))
  }

  /** The candidates built from one left and one right node: one per rule
      getRulesWithTwoNonTerminalsOnRightSide returns for their categories. */
  function Made(g: Queries, l: ParseNode, r: ParseNode, s: Scoring): seq<ParseNode>
  {
    var ids := g.pair(Label(l), Label(r));
    seq(|ids|, q requires 0 <= q < |ids| => PairNode(l, r, At(g.store, ids[q]), s))
  }

  function MadeWith(g: Queries, l: ParseNode, s: Scoring): ParseNode -> seq<ParseNode>
  {
    r => Made(g, l, r, s)
  }

  function RowWith(g: Queries, rs: seq<ParseNode>, s: Scoring): ParseNode -> seq<ParseNode>
  {
    l => Row(g, l, rs, s)
  }

  /** The candidates of one left node with each right node in turn (the y loop). */
  function Row(g: Queries, l: ParseNode, rs: seq<ParseNode>, s: Scoring): seq<ParseNode>
  {
    Concat(rs, MadeWith(g, l, s))
  }

  /** The candidates of each left node in turn (the x loop). */
  function Pairs(g: Queries, ls: seq<ParseNode>, rs: seq<ParseNode>, s: Scoring): seq<ParseNode>
  {
    Concat(ls, RowWith(g, rs, s))
  }

  /** What a cell keeps of its candidates: all of them (addPartialParse), or the best per
      category (updatePartialParse). */
  function Settle(cands: seq<ParseNode>, s: Scoring): seq<ParseNode>
  {
    if s.Plain? then cands else Kept([], cands)
  }

  /** The candidates for cell (i, j) from split point m: the left cell (i, m-1) joined with
      the right cell (m, j). */
  function SplitOf(g: Queries, t: Grid<ParseNode>, i: nat, j: nat, s: Scoring): nat -> seq<ParseNode>
  {
    m => if m > 0 then Pairs(g, Get(t, i, m - 1), Get(t, m, j), s) else []
  }

  /** The candidates for cell (i, j) from the split points i+1..k, in the order of the k loop. */
  function Candidates(g: Queries, t: Grid<ParseNode>, i: nat, j: nat, k: nat, s: Scoring): seq<ParseNode>
  {
    Concat(Points(i + 1, k + 1), SplitOf(g, t, i, j, s))
  }

  /** What cell (i, j) holds once filled, given the cells of shorter spans. */
  function CellOf(g: Queries, ws: seq<Symbol>, t: Grid<ParseNode>, i: nat, j: nat, s: Scoring): seq<ParseNode>
    requires i <= j < |ws|
  {
    if i == j then Seed(g, ws[i], s) else Settle(Candidates(g, t, i, j, j, s), s)
  }

  /** CellOf as a cell rule for the words ws. */
  function CellRule(g: Queries, ws: seq<Symbol>, s: Scoring): (Grid<ParseNode>, nat, nat) -> seq<ParseNode>
  {
    (t: Grid<ParseNode>, i: nat, j: nat) => if i <= j < |ws| then CellOf(g, ws, t, i, j, s) else []
  }

  /** Every cell of t for the words ws holds what CellOf says. */
  ghost predicate Built(g: Queries, ws: seq<Symbol>, t: Grid<ParseNode>, s: Scoring)
  {
    forall i, j {:trigger CellOf(g, ws, t, i, j, s)} :: 0 <= i <= j < |ws| ==> Get(t, i, j) == CellOf(g, ws, t, i, j, s)
  }

  /** The finished cell table[i][j] of a parser run on the words ws: the table filled span
      length by span length with CellOf. */
  function Cell(g: Queries, ws: seq<Symbol>, i: nat, j: nat, s: Scoring): seq<ParseNode>
  {
    Get(Table(CellRule(g, ws, s), |ws|, |ws|), i, j)
  }

  // ---------------------------------------------------------------- the table is well defined

  /** The candidates up to split point k + 1: those up to k, then those of k + 1. */
  lemma CandidatesNext(g: Queries, t: Grid<ParseNode>, i: nat, j: nat, k: nat, s: Scoring)
    requires i <= k
    ensures Candidates(g, t, i, j, k + 1, s) == Candidates(g, t, i, j, k, s) + Pairs(g, Get(t, i, k), Get(t, k + 1, j), s)
  {
    ConcatPointsNext(i + 1, k + 1, SplitOf(g, t, i, j, s));
  }

  /** Before the k loop no split point has been tried, so the cell is empty. */
  lemma CandidatesNone(g: Queries, t: Grid<ParseNode>, i: nat, j: nat, s: Scoring)
    ensures Settle(Candidates(g, t, i, j, i, s), s) == []
  {
    ConcatEmpty(Points(i + 1, i + 1), SplitOf(g, t, i, j, s));
  }

  /** A cell depends only on the cells strictly inside its span. */
  lemma CellOfAgree(g: Queries, ws: seq<Symbol>, t1: Grid<ParseNode>, t2: Grid<ParseNode>, i: nat, j: nat, s: Scoring)
    requires i <= j < |ws| && AgreeBelow(t1, t2, i, j)
    ensures CellOf(g, ws, t1, i, j, s) == CellOf(g, ws, t2, i, j, s)
  {
    var ps := Points(i + 1, j + 1);
    forall y | 0 <= y < |ps| ensures SplitOf(g, t1, i, j, s)(ps[y]) == SplitOf(g, t2, i, j, s)(ps[y]) {
      var m := ps[y];
      assert Get(t1, i, m - 1) == Get(t2, i, m - 1) && Get(t1, m, j) == Get(t2, m, j);
    }
    ConcatAgree(ps, SplitOf(g, t1, i, j, s), SplitOf(g, t2, i, j, s));
  }

  lemma CellRuleLocal(g: Queries, ws: seq<Symbol>, s: Scoring)
    ensures Local(CellRule(g, ws, s), |ws|)
  {
    forall t1: Grid<ParseNode>, t2: Grid<ParseNode>, i: nat, j: nat | i <= j < |ws| && AgreeBelow(t1, t2, i, j)
      ensures CellRule(g, ws, s)(t1, i, j) == CellRule(g, ws, s)(t2, i, j)
    {
      CellOfAgree(g, ws, t1, t2, i, j, s);
    }
  }

  /** A table satisfies the cell equations exactly when it solves CellRule. */
  lemma BuiltSolves(g: Queries, ws: seq<Symbol>, t: Grid<ParseNode>, s: Scoring)
    ensures Built(g, ws, t, s) <==> Solves(CellRule(g, ws, s), |ws|, t)
  {
    if Solves(CellRule(g, ws, s), |ws|, t) {
      forall i, j | 0 <= i <= j < |ws| ensures Get(t, i, j) == CellOf(g, ws, t, i, j, s) {
        assert Get(t, i, j) == CellRule(g, ws, s)(t, i, j);
      }
    }
  }

  /** The table of a parser run satisfies every cell equation. */
  lemma TableBuilt(g: Queries, ws: seq<Symbol>, s: Scoring)
    ensures Built(g, ws, Table(CellRule(g, ws, s), |ws|, |ws|), s)
  {
    CellRuleLocal(g, ws, s);
    TableSolves(CellRule(g, ws, s), |ws|);
    BuiltSolves(g, ws, Table(CellRule(g, ws, s), |ws|, |ws|), s);
  }

  /** The cell equations determine the table: every table satisfying them holds the cells of a
      parser run. */
  lemma BuiltUnique(g: Queries, ws: seq<Symbol>, t: Grid<ParseNode>, s: Scoring)
    requires Built(g, ws, t, s)
    ensures forall i, j :: 0 <= i <= j < |ws| ==> Get(t, i, j) == Cell(g, ws, i, j, s)
  {
    var full := Table(CellRule(g, ws, s), |ws|, |ws|);
    TableBuilt(g, ws, s);
    CellRuleLocal(g, ws, s);
    BuiltSolves(g, ws, t, s);
    BuiltSolves(g, ws, full, s);
    SolutionUnique(CellRule(g, ws, s), |ws|, t, full);
  }

  /** Appending a node to the candidates: addPartialParse or updatePartialParse on the cell. */
  lemma SettleStep(cs: seq<ParseNode>, n: ParseNode, s: Scoring)
    ensures Settle(cs + [n], s) == if s.Plain? then Settle(cs, s) + [n] else Updated(Settle(cs, s), n)
  {
    assert (cs + [n])[..|cs|] == cs;
  }

  // ---------------------------------------------------------------- derivations

  /** n is a derivation tree of the grammar: X over a word by a TERMINAL rule X -> w, or X over
      two derivations by a rule X -> A B with A and B their categories; a probabilistic node
      carries the sum of the log-probabilities of the rules used. */
  ghost predicate Derivation(g: Queries, n: ParseNode, s: Scoring)
    decreases n
  {
    if |n.children| == 1 then
      var c := n.children[0];
      && c.children == [] && c.data.Some?
      && exists id :: id in g.right && At(g.store, id).kind == Some(Terminal) && At(g.store, id).rhs == [c.data.value]
                      && n == SeedNode(c.data.value, At(g.store, id), s)
    else if |n.children| == 2 then
      var l, r := n.children[0], n.children[1];
      && Derivation(g, l, s) && Derivation(g, r, s)
      && exists id :: id in g.right && At(g.store, id).rhs == [Label(l), Label(r)]
                      && n == PairNode(l, r, At(g.store, id), s)
    else false
  }

  /** The leaves of a pair node are those of its left child, then those of its right child. */
  lemma PairYield(l: ParseNode, r: ParseNode, rule: Rule, s: Scoring)
    ensures Yield(PairNode(l, r, rule, s)) == Yield(l) + Yield(r)
    ensures Label(PairNode(l, r, rule, s)) == rule.lhs && PairNode(l, r, rule, s).children == [l, r]
  {
    var cs := PairNode(l, r, rule, s).children;
    assert cs == [l, r] && cs[1..] == [r] && [r][1..] == [];
    assert YieldOf([r]) == Yield(r) + YieldOf([]);
    assert YieldOf(cs) == Yield(l) + YieldOf([r]);
  }

  /** A node over a single leaf covers that leaf's symbol. */
  lemma UnaryYield(n: ParseNode)
    requires |n.children| == 1 && n.children[0].children == []
    ensures Yield(n) == [n.children[0].data]
  {
    assert n.children[1..] == [];
    assert YieldOf(n.children) == Yield(n.children[0]) + YieldOf([]);
  }

  /** A derivation covers at least one word. */
  lemma {:induction false} DerivationYield(g: Queries, n: ParseNode, s: Scoring)
    requires Derivation(g, n, s)
    ensures |Yield(n)| >= 1
    decreases n
  {
    if |n.children| == 2 {
      var l, r := n.children[0], n.children[1];
      DerivationYield(g, l, s);
      var id :| id in g.right && At(g.store, id).rhs == [Label(l), Label(r)] && n == PairNode(l, r, At(g.store, id), s);
      PairYield(l, r, At(g.store, id), s);
    } else {
      UnaryYield(n);
    }
  }

  lemma NamedSplit(ws: seq<Symbol>, i: nat, m: nat, j: nat)
    requires i <= m <= j <= |ws|
    ensures Named(ws[i..j]) == Named(ws[i..m]) + Named(ws[m..j])
  {
  }

  // ---------------------------------------------------------------- membership

  /** The seed nodes of word w are exactly the TERMINAL rules X -> w over w. */
  lemma SeedExact(g: Queries, w: Symbol, s: Scoring, n: ParseNode)
    requires Exact(g)
    ensures n in Seed(g, w, s) <==>
      exists id :: id in g.right && At(g.store, id).kind == Some(Terminal) && At(g.store, id).rhs == [w]
        && n == SeedNode(w, At(g.store, id), s)
  {
    var ids := g.terminal(w);
    if n in Seed(g, w, s) {
      var q :| 0 <= q < |ids| && Seed(g, w, s)[q] == n;
      assert ids[q] in ids;
    }
    if exists id :: id in g.right && At(g.store, id).kind == Some(Terminal) && At(g.store, id).rhs == [w] && n == SeedNode(w, At(g.store, id), s) {
      var id :| id in g.right && At(g.store, id).kind == Some(Terminal) && At(g.store, id).rhs == [w] && n == SeedNode(w, At(g.store, id), s);
      var q :| 0 <= q < |ids| && ids[q] == id;
      assert Seed(g, w, s)[q] == n;
    }
  }

  /** Whatever the grammar, a seed node of w is some rule's node over w... */
  lemma SeedShape(g: Queries, w: Symbol, s: Scoring, n: ParseNode) returns (rule: Rule)
    requires n in Seed(g, w, s)
    ensures n == SeedNode(w, rule, s)
  {
    var ids := g.terminal(w);
    var q :| 0 <= q < |ids| && Seed(g, w, s)[q] == n;
    rule := At(g.store, ids[q]);
  }

  /** ... and a candidate of l and r is some rule's node over them. */
  lemma MadeShape(g: Queries, l: ParseNode, r: ParseNode, s: Scoring, n: ParseNode) returns (rule: Rule)
    requires n in Made(g, l, r, s)
    ensures n == PairNode(l, r, rule, s)
  {
    var ids := g.pair(Label(l), Label(r));
    var q :| 0 <= q < |ids| && Made(g, l, r, s)[q] == n;
    rule := At(g.store, ids[q]);
  }

  /** The candidates of a left and a right node are exactly the rules X -> A B over them. */
  lemma MadeExact(g: Queries, l: ParseNode, r: ParseNode, s: Scoring, n: ParseNode)
    requires Exact(g)
    ensures n in Made(g, l, r, s) <==>
      exists id :: id in g.right && At(g.store, id).rhs == [Label(l), Label(r)]
        && n == PairNode(l, r, At(g.store, id), s)
  {
    var ids := g.pair(Label(l), Label(r));
    if n in Made(g, l, r, s) {
      var q :| 0 <= q < |ids| && Made(g, l, r, s)[q] == n;
      assert ids[q] in ids;
    }
    if exists id :: id in g.right && At(g.store, id).rhs == [Label(l), Label(r)] && n == PairNode(l, r, At(g.store, id), s) {
      var id :| id in g.right && At(g.store, id).rhs == [Label(l), Label(r)] && n == PairNode(l, r, At(g.store, id), s);
      var q :| 0 <= q < |ids| && ids[q] == id;
      assert Made(g, l, r, s)[q] == n;
    }
  }

  /** A candidate of a left list and a right list joins one node of each. */
  lemma PairsFrom(g: Queries, ls: seq<ParseNode>, rs: seq<ParseNode>, s: Scoring, n: ParseNode) returns (l: ParseNode, r: ParseNode)
    requires n in Pairs(g, ls, rs, s)
    ensures l in ls && r in rs && n in Made(g, l, r, s)
  {
    var x := ConcatFrom(ls, RowWith(g, rs, s), n);
    var y := ConcatFrom(rs, MadeWith(g, ls[x], s), n);
    l, r := ls[x], rs[y];
  }

  /** Every node of the left list meets every node of the right list. */
  lemma PairsOf(g: Queries, ls: seq<ParseNode>, rs: seq<ParseNode>, s: Scoring, l: ParseNode, r: ParseNode, n: ParseNode)
    requires l in ls && r in rs && n in Made(g, l, r, s)
    ensures n in Pairs(g, ls, rs, s)
  {
    var y :| 0 <= y < |rs| && rs[y] == r;
    ConcatOf(rs, MadeWith(g, l, s), y, n);
    var x :| 0 <= x < |ls| && ls[x] == l;
    ConcatOf(ls, RowWith(g, rs, s), x, n);
  }

  /** A candidate of cell (i, j) comes from one split point m and one node on each side. */
  lemma CandidateFrom(g: Queries, t: Grid<ParseNode>, i: nat, j: nat, k: nat, s: Scoring, n: ParseNode)
      returns (m: nat, l: ParseNode, r: ParseNode)
    requires n in Candidates(g, t, i, j, k, s)
    ensures i < m <= k && l in Get(t, i, m - 1) && r in Get(t, m, j) && n in Made(g, l, r, s)
  {
    var ps := Points(i + 1, k + 1);
    var y := ConcatFrom(ps, SplitOf(g, t, i, j, s), n);
    m := ps[y];
    l, r := PairsFrom(g, Get(t, i, m - 1), Get(t, m, j), s, n);
  }

  /** Every split point up to k contributes its candidates. */
  lemma CandidateOf(g: Queries, t: Grid<ParseNode>, i: nat, j: nat, k: nat, s: Scoring, m: nat, l: ParseNode, r: ParseNode, n: ParseNode)
    requires i < m <= k && l in Get(t, i, m - 1) && r in Get(t, m, j) && n in Made(g, l, r, s)
    ensures n in Candidates(g, t, i, j, k, s)
  {
    var ps := Points(i + 1, k + 1);
    PairsOf(g, Get(t, i, m - 1), Get(t, m, j), s, l, r, n);
    assert ps[m - i - 1] == m;
    ConcatOf(ps, SplitOf(g, t, i, j, s), m - i - 1, n);
  }

  /** What a finished cell keeps is among its candidates. */
  lemma SettledWithin(cands: seq<ParseNode>, s: Scoring, n: ParseNode)
    requires n in Settle(cands, s)
    ensures n in cands
  {
    if s.Scored? {
      KeptFirstBest(cands);
      assert FirstBest(cands, n);
    }
  }

  // ---------------------------------------------------------------- what the cells hold

  /** A node of a seed cell is a seed node of its word... */
  lemma SeedMember(g: Queries, ws: seq<Symbol>, t: Grid<ParseNode>, s: Scoring, i: nat, n: ParseNode)
    requires Built(g, ws, t, s) && i < |ws| && n in Get(t, i, i)
    ensures n in Seed(g, ws[i], s)
  {
    assert Get(t, i, i) == CellOf(g, ws, t, i, i, s);
  }

  /** ... and a node of a longer cell (i, j) joins a node of (i, m-1) and a node of (m, j). */
  lemma PairMember(g: Queries, ws: seq<Symbol>, t: Grid<ParseNode>, s: Scoring, i: nat, j: nat, n: ParseNode)
      returns (m: nat, l: ParseNode, r: ParseNode)
    requires Built(g, ws, t, s) && i < j < |ws| && n in Get(t, i, j)
    ensures i < m <= j && l in Get(t, i, m - 1) && r in Get(t, m, j) && n in Made(g, l, r, s)
  {
    assert Get(t, i, j) == CellOf(g, ws, t, i, j, s);
    SettledWithin(Candidates(g, t, i, j, j, s), s, n);
    m, l, r := CandidateFrom(g, t, i, j, j, s, n);
  }

  /** Every node of cell (i, j) has the words i..j as its leaves, whatever the grammar. */
  lemma {:induction false} CellYield(g: Queries, ws: seq<Symbol>, t: Grid<ParseNode>, s: Scoring, i: nat, j: nat, n: ParseNode)
    requires Built(g, ws, t, s) && i <= j < |ws| && n in Get(t, i, j)
    ensures Yield(n) == Named(ws[i..j + 1])
    decreases j - i
  {
    if i == j {
      SeedMember(g, ws, t, s, i, n);
      var rule := SeedShape(g, ws[i], s, n);
      UnaryYield(n);
    } else {
      var m, l, r := PairMember(g, ws, t, s, i, j, n);
      var rule := MadeShape(g, l, r, s, n);
      CellYield(g, ws, t, s, i, m - 1, l);
      CellYield(g, ws, t, s, m, j, r);
      PairYield(l, r, rule, s);
      NamedSplit(ws, i, m, j + 1);
    }
  }

  /** Every node of cell (i, j) is a derivation of the grammar. */
  lemma {:induction false} CellSound(g: Queries, ws: seq<Symbol>, t: Grid<ParseNode>, s: Scoring, i: nat, j: nat, n: ParseNode)
    requires Exact(g) && Built(g, ws, t, s) && i <= j < |ws| && n in Get(t, i, j)
    ensures Derivation(g, n, s)
    decreases j - i
  {
    if i == j {
      SeedMember(g, ws, t, s, i, n);
      SeedExact(g, ws[i], s, n);
      var id :| id in g.right && At(g.store, id).kind == Some(Terminal) && At(g.store, id).rhs == [ws[i]]
        && n == SeedNode(ws[i], At(g.store, id), s);
      assert n.children[0] == Leaf(ws[i]);
    } else {
      var m, l, r := PairMember(g, ws, t, s, i, j, n);
      MadeExact(g, l, r, s, n);
      CellSound(g, ws, t, s, i, m - 1, l);
      CellSound(g, ws, t, s, m, j, r);
      var id :| id in g.right && At(g.store, id).rhs == [Label(l), Label(r)] && n == PairNode(l, r, At(g.store, id), s);
      PairYield(l, r, At(g.store, id), s);
    }
  }

  /** Splitting the words of a binary derivation: its left child covers words i..m-1 and its
      right child words m..j for a split point m inside the span. */
  lemma SplitPoint(g: Queries, ws: seq<Symbol>, i: nat, j: nat, s: Scoring, n: ParseNode) returns (m: nat, l: ParseNode, r: ParseNode, id: nat)
    requires Derivation(g, n, s) && |n.children| == 2 && i <= j < |ws| && Yield(n) == Named(ws[i..j + 1])
    ensures i < m <= j && l == n.children[0] && r == n.children[1]
    ensures Derivation(g, l, s) && Derivation(g, r, s)
    ensures Yield(l) == Named(ws[i..m]) && Yield(r) == Named(ws[m..j + 1])
    ensures id in g.right && At(g.store, id).rhs == [Label(l), Label(r)] && n == PairNode(l, r, At(g.store, id), s)
  {
    l, r := n.children[0], n.children[1];
    id :| id in g.right && At(g.store, id).rhs == [Label(l), Label(r)] && n == PairNode(l, r, At(g.store, id), s);
    PairYield(l, r, At(g.store, id), s);
    DerivationYield(g, l, s);
    DerivationYield(g, r, s);
    m := i + |Yield(l)|;
    NamedSplit(ws, i, m, j + 1);
    assert Yield(n)[..|Yield(l)|] == Yield(l);
    assert Yield(n)[|Yield(l)|..] == Yield(r);
  }

  /** A seed derivation of the words i..j covers one word, and the seed cell holds it. */
  lemma SeedComplete(g: Queries, ws: seq<Symbol>, t: Grid<ParseNode>, s: Scoring, i: nat, j: nat, n: ParseNode)
    requires Exact(g) && Built(g, ws, t, s) && Derivation(g, n, s) && |n.children| != 2
    requires i <= j < |ws| && Yield(n) == Named(ws[i..j + 1])
    ensures i == j && n in Get(t, i, j)
  {
    var c := n.children[0];
    var id :| id in g.right && At(g.store, id).kind == Some(Terminal) && At(g.store, id).rhs == [c.data.value]
      && n == SeedNode(c.data.value, At(g.store, id), s);
    UnaryYield(n);
    assert ws[i] == c.data.value;
    SeedExact(g, ws[i], s, n);
    assert Get(t, i, j) == CellOf(g, ws, t, i, j, s);
  }

  /** The plain table misses no derivation: every derivation of the words i..j is in cell (i, j). */
  lemma {:induction false} CellComplete(g: Queries, ws: seq<Symbol>, t: Grid<ParseNode>, i: nat, j: nat, n: ParseNode)
    requires Exact(g) && Built(g, ws, t, Plain) && i <= j < |ws|
    requires Derivation(g, n, Plain) && Yield(n) == Named(ws[i..j + 1])
    ensures n in Get(t, i, j)
    decreases n
  {
    if |n.children| == 2 {
      var m, l, r, id := SplitPoint(g, ws, i, j, Plain, n);
      CellComplete(g, ws, t, i, m - 1, l);
      CellComplete(g, ws, t, m, j, r);
      MadeExact(g, l, r, Plain, n);
      CandidateOf(g, t, i, j, j, Plain, m, l, r, n);
      assert Get(t, i, j) == CellOf(g, ws, t, i, j, Plain);
    } else {
      SeedComplete(g, ws, t, Plain, i, j, n);
    }
  }

  /** The probabilistic table keeps the best: for every derivation of the words i..j, cell (i, j)
      holds a node of the same category at least as probable. */
  lemma {:induction false} CellBest(g: Queries, ws: seq<Symbol>, t: Grid<ParseNode>, ln: real -> real, i: nat, j: nat, n: ParseNode)
    requires Exact(g) && Built(g, ws, t, Scored(ln)) && i <= j < |ws|
    requires Derivation(g, n, Scored(ln)) && Yield(n) == Named(ws[i..j + 1])
    ensures exists b :: b in Get(t, i, j) && Label(b) == Label(n) && LogScore(n) <= LogScore(b)
    decreases n
  {
    var s := Scored(ln);
    if |n.children| == 2 {
      var m, l, r, id := SplitPoint(g, ws, i, j, s, n);
      CellBest(g, ws, t, ln, i, m - 1, l);
      CellBest(g, ws, t, ln, m, j, r);
      var bl :| bl in Get(t, i, m - 1) && Label(bl) == Label(l) && LogScore(l) <= LogScore(bl);
      var br :| br in Get(t, m, j) && Label(br) == Label(r) && LogScore(r) <= LogScore(br);
      var c := PairNode(bl, br, At(g.store, id), s);
      MadeExact(g, bl, br, s, c);
      CandidateOf(g, t, i, j, j, s, m, bl, br, c);
      BestOfCandidates(Candidates(g, t, i, j, j, s), c);
      assert Get(t, i, j) == CellOf(g, ws, t, i, j, s);
    } else {
      SeedComplete(g, ws, t, s, i, j, n);
    }
  }

  /** For a candidate c, the kept cell holds a node of c's category at least as probable. */
  lemma BestOfCandidates(cands: seq<ParseNode>, c: ParseNode)
    requires c in cands
    ensures exists b :: b in Kept([], cands) && Label(b) == Label(c) && LogScore(c) <= LogScore(b)
  {
    KeptFirstBest(cands);
    var t :| 0 <= t < |cands| && cands[t] == c;
    assert Label(cands[t]) in Labels(Kept([], cands));
    var b :| b in Kept([], cands) && Label(b) == Label(c);
    assert FirstBest(cands, b);
  }

  /** A probabilistic cell spanning two words or more has one node per category. */
  lemma CellDistinct(g: Queries, ws: seq<Symbol>, t: Grid<ParseNode>, ln: real -> real, i: nat, j: nat)
    requires Built(g, ws, t, Scored(ln)) && i < j < |ws|
    ensures DistinctLabels(Get(t, i, j))
  {
    assert Get(t, i, j) == CellOf(g, ws, t, i, j, Scored(ln));
    KeptFirstBest(Candidates(g, t, i, j, j, Scored(ln)));
  }
}
