/** Constituency trees as the grammar and the parsers see them.  A ParseNode carries the symbol
    at the node (null in Java becomes None), its children in order, and, for the
    ProbabilisticParseNode subclass, the log-probability fixed when the node is built.
    Symbol.isTerminal, Symbol.trimSymbol and Word.isPunctuation belong to libraries that are not
    part of this model; they are parameters, gathered in an Oracle. */
module ParseTrees {
  import opened Wrappers
  import opened Rules

  datatype ParseNode = ParseNode(data: Option<Symbol>, children: seq<ParseNode>, logProbability: Option<real>)

  datatype Oracle = Oracle(isTerminal: Symbol -> bool, isPunctuation: Symbol -> bool, trim: Symbol -> Symbol)

  /** new ParseNode(Symbol): a leaf. */
  function Leaf(data: Symbol): (n: ParseNode)
    ensures n.data == Some(data) && n.children == [] && n.logProbability == None
  {
    ParseNode(Some(data), [], None)
  }

  /** new ParseNode(ParseNode left, Symbol data): a node with one child. */
  function Unary(child: ParseNode, data: Symbol): (n: ParseNode)
    ensures n.data == Some(data) && n.children == [child] && n.logProbability == None
  {
    ParseNode(Some(data), [child], None)
  }

  /** new ParseNode(ParseNode left, ParseNode right, Symbol data): a node with two children. */
  function Binary(left: ParseNode, right: ParseNode, data: Symbol): (n: ParseNode)
    ensures n.data == Some(data) && n.children == [left, right] && n.logProbability == None
  {
    ParseNode(Some(data), [left, right], None)
  }

  /** The three ProbabilisticParseNode constructors: the plain node plus a final log-probability. */
  function ProbabilisticBinary(left: ParseNode, right: ParseNode, data: Symbol, lp: real): (n: ParseNode)
    ensures n.children == [left, right] && n.data == Some(data) && LogProbability(n) == Some(lp)
  {
    Binary(left, right, data).(logProbability := Some(lp))
  }

  function ProbabilisticUnary(child: ParseNode, data: Symbol, lp: real): (n: ParseNode)
    ensures n.children == [child] && n.data == Some(data) && LogProbability(n) == Some(lp)
  {
    Unary(child, data).(logProbability := Some(lp))
  }

  function ProbabilisticLeaf(data: Symbol, lp: real): (n: ParseNode)
    ensures n.children == [] && n.data == Some(data) && LogProbability(n) == Some(lp)
  {
    Leaf(data).(logProbability := Some(lp))
  }

  /** getLogProbability: the value given to the constructor (None for a plain ParseNode, on
      which the Java cast would fail). */
  function LogProbability(n: ParseNode): Option<real>
  {
    n.logProbability
  }

  /** The data of the leaves, left to right: what a NodeCollector with IsLeaf gathers. */
  function Yield(n: ParseNode): seq<Option<Symbol>>
    decreases n, 1
  {
    if n.children == [] then [n.data] else YieldOf(n.children)
  }

  function YieldOf(ns: seq<ParseNode>): seq<Option<Symbol>>
    decreases ns, 0
  {
    if ns == [] then [] else Yield(ns[0]) + YieldOf(ns[1..])
  }

  lemma {:induction false} YieldOfAppend(a: seq<ParseNode>, b: seq<ParseNode>)
    ensures YieldOf(a + b) == YieldOf(a) + YieldOf(b)
    decreases |a|
  {
    if a == [] {
      assert a + b == b;
    } else {
      assert (a + b)[0] == a[0] && (a + b)[1..] == a[1..] + b;
      YieldOfAppend(a[1..], b);
      assert YieldOf(a + b) == Yield(a[0]) + (YieldOf(a[1..]) + YieldOf(b));
    }
  }

  /** Every leaf carries a symbol. */
  predicate LeavesNamed(n: ParseNode)
  {
    forall k :: 0 <= k < |Yield(n)| ==> Yield(n)[k].Some?
  }

  /** The symbols at the leaves, for a tree whose leaves all carry one. */
  function Words(n: ParseNode): (ws: seq<Symbol>)
    requires LeavesNamed(n)
    ensures |ws| == |Yield(n)| && forall k :: 0 <= k < |ws| ==> Yield(n)[k] == Some(ws[k])
  {
    seq(|Yield(n)|, k requires 0 <= k < |Yield(n)| => Yield(n)[k].value)
  }

  /** The symbols of a list of children, None as soon as one child has no symbol. */
  function ChildSymbols(ns: seq<ParseNode>, keep: Symbol -> bool, trim: Symbol -> Symbol): (r: Option<seq<Symbol>>)
    ensures r.None? <==> exists k :: 0 <= k < |ns| && ns[k].data.None?
    ensures r.Some? ==> |r.value| == |ns|
    ensures r.Some? ==> forall k :: 0 <= k < |ns| ==>
      r.value[k] == (if keep(ns[k].data.value) then ns[k].data.value else trim(ns[k].data.value))
  {
    if ns == [] then Some([])
    else if ns[0].data.None? then None
    else
      var rest := ChildSymbols(ns[1..], keep, trim);
      if rest.None? then
        var k :| 0 <= k < |ns[1..]| && ns[1..][k].data.None?;
        assert ns[k + 1].data.None?;
        None
      else
        var d := ns[0].data.value;
        Some([if keep(d) then d else trim(d)] + rest.value)
  }

  /** ContextFreeGrammar.toRule: the (optionally trimmed) symbol of the node on the left, the
      symbols of its children on the right, terminals kept verbatim and the others trimmed when
      trim is set; null (None) when a child has no symbol.  `alwaysTrimChildren` selects the rule of
      ProbabilisticContextFreeGrammar.toRule, which trims non-terminal children whatever `trim`
      says.  The node's own symbol is dereferenced, so the caller supplies one. */
  function ToRule(n: ParseNode, trim: bool, oracle: Oracle, alwaysTrimChildren: bool): (r: Option<Rule>)
    requires n.data.Some?
    ensures r.None? <==> exists k :: 0 <= k < |n.children| && n.children[k].data.None?
    ensures r.Some? ==> r.value.lhs == (if trim then oracle.trim(n.data.value) else n.data.value)
    ensures r.Some? ==> |r.value.rhs| == |n.children| && r.value.kind.None? && r.value.score.None?
    ensures r.Some? ==> forall k :: 0 <= k < |n.children| ==>
      var d := n.children[k].data.value;
      r.value.rhs[k] == if oracle.isTerminal(d) || (!trim && !alwaysTrimChildren) then d else oracle.trim(d)
  {
    var keep := (d: Symbol) => oracle.isTerminal(d) || (!trim && !alwaysTrimChildren);
    var right := ChildSymbols(n.children, keep, oracle.trim);
    if right.None? then None
    else Some(Rule(if trim then oracle.trim(n.data.value) else n.data.value, right.value, None, None))
  }
}
