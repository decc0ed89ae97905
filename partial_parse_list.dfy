/** PartialParseList: the contents of one cell of the CYK table, the roots of the partial parses
    found for one span.  The plain parser appends every node; the probabilistic parser keeps,
    for each category, only the node with the best log-probability seen so far. */
module PartialParses {
  import opened Wrappers
  import opened Rules
  import opened ParseTrees

  /** getData().getName(): the category of a node (every node the parsers build has one). */
  function Label(n: ParseNode): Symbol
  {
    if n.data.Some? then n.data.value else ""
  }

  /** getLogProbability of a ProbabilisticParseNode (every node the probabilistic parser builds
      is one). */
  function LogScore(n: ParseNode): real
  {
    if n.logProbability.Some? then n.logProbability.value else 0.0
  }

  /** The position of the first node of ps labelled c, or |ps| when there is none. */
  function FirstWith(ps: seq<ParseNode>, c: Symbol): (k: nat)
    ensures k <= |ps| && (k < |ps| ==> Label(ps[k]) == c)
    ensures forall j :: 0 <= j < k ==> Label(ps[j]) != c
  {
    if ps == [] then 0
    else if Label(ps[0]) == c then 0
    else 1 + FirstWith(ps[1..], c)
  }

  /** updatePartialParse on the list ps: the first node with n's category is replaced, by
      removing it and appending n, when its log-probability is strictly lower; it stays
      otherwise; n is appended when no node has its category. */
  function Updated(ps: seq<ParseNode>, n: ParseNode): seq<ParseNode>
  {
    var k := FirstWith(ps, Label(n));
    if k == |ps| then ps + [n]
    else if LogScore(ps[k]) < LogScore(n) then ps[..k] + ps[k + 1..] + [n]
    else ps
  }

  /** No two nodes of the list share a category. */
  predicate DistinctLabels(ps: seq<ParseNode>)
  {
    forall i, j :: 0 <= i < j < |ps| ==> Label(ps[i]) != Label(ps[j])
  }

  /** The node of ps labelled c, for a list with distinct labels that has one. */
  predicate KeptFor(ps: seq<ParseNode>, c: Symbol, m: ParseNode)
  {
    m in ps && Label(m) == c
  }

  /** What updatePartialParse does, case by case: a new category is appended; a better node
      for a category present takes the old node's place at the end; a node no better than the
      one present changes nothing. */
  lemma UpdatedCases(ps: seq<ParseNode>, n: ParseNode)
    ensures (forall m :: m in ps ==> Label(m) != Label(n)) ==> Updated(ps, n) == ps + [n]
    ensures forall k :: 0 <= k < |ps| && Label(ps[k]) == Label(n) && (forall j :: 0 <= j < k ==> Label(ps[j]) != Label(n)) ==>
      Updated(ps, n) == if LogScore(ps[k]) < LogScore(n) then ps[..k] + ps[k + 1..] + [n] else ps
  {
    var k := FirstWith(ps, Label(n));
    if k < |ps| {
      assert ps[k] in ps;
    }
  }

  /** updatePartialParse keeps the categories distinct, leaves the nodes of every other category
      alone, and keeps for n's category exactly one node whose log-probability is the larger of
      the old node's and n's. */
  lemma UpdatedBest(ps: seq<ParseNode>, n: ParseNode)
    requires DistinctLabels(ps)
    ensures DistinctLabels(Updated(ps, n))
    ensures forall m :: Label(m) != Label(n) ==> (m in Updated(ps, n) <==> m in ps)
    ensures forall m :: m in Updated(ps, n) ==> m in ps || m == n
    ensures exists m :: KeptFor(Updated(ps, n), Label(n), m)
    ensures forall m :: KeptFor(Updated(ps, n), Label(n), m) ==>
      && LogScore(n) <= LogScore(m)
      && (forall o :: KeptFor(ps, Label(n), o) ==> LogScore(o) <= LogScore(m))
      && (m == n || KeptFor(ps, Label(n), m))
  {
    var r := Updated(ps, n);
    var c := Label(n);
    var k := FirstWith(ps, c);
    if k == |ps| {
      assert r == ps + [n];
      assert r[|ps|] == n;
      assert KeptFor(r, c, n);
      forall m | KeptFor(r, c, m) ensures m == n {
        var t :| 0 <= t < |r| && r[t] == m;
      }
    } else if LogScore(ps[k]) < LogScore(n) {
      var rest := ps[..k] + ps[k + 1..];
      assert r == rest + [n];
      forall t | 0 <= t < |rest| ensures rest[t] == ps[if t < k then t else t + 1] && Label(rest[t]) != c {
      }
      forall i, j | 0 <= i < j < |r| ensures Label(r[i]) != Label(r[j]) {
        if j < |rest| {
          assert r[i] == ps[if i < k then i else i + 1] && r[j] == ps[if j < k then j else j + 1];
        }
      }
      forall m | Label(m) != c ensures m in r <==> m in ps {
        if m in ps {
          var t :| 0 <= t < |ps| && ps[t] == m;
          assert t != k;
          assert m == rest[if t < k then t else t - 1];
        }
        if m in r {
          var t :| 0 <= t < |r| && r[t] == m;
          assert t < |rest|;
        }
      }
      forall m | m in r ensures m in ps || m == n {
        var t :| 0 <= t < |r| && r[t] == m;
      }
      forall m | KeptFor(r, c, m) ensures m == n {
        var t :| 0 <= t < |r| && r[t] == m;
      }
      forall o | KeptFor(ps, c, o) ensures LogScore(o) <= LogScore(n) {
        var t :| 0 <= t < |ps| && ps[t] == o;
        assert t == k;
      }
      assert KeptFor(r, c, r[|rest|]);
    } else {
      assert r == ps;
      forall m | KeptFor(r, c, m) ensures m == ps[k] {
        var t :| 0 <= t < |ps| && ps[t] == m;
        assert t == k;
      }
      assert KeptFor(r, c, ps[k]);
    }
  }

  /** updatePartialParse applied to each node of ns in turn. */
  function Kept(ps: seq<ParseNode>, ns: seq<ParseNode>): seq<ParseNode>
  {
    if ns == [] then ps else Updated(Kept(ps, ns[..|ns| - 1]), ns[|ns| - 1])
  }

  /** The position of the first candidate labelled c scoring s, or |ns| when there is none. */
  function FirstScoring(ns: seq<ParseNode>, c: Symbol, s: real): (f: nat)
    ensures f <= |ns| && (f < |ns| ==> Label(ns[f]) == c && LogScore(ns[f]) == s)
    ensures forall j :: 0 <= j < f ==> !(Label(ns[j]) == c && LogScore(ns[j]) == s)
  {
    if ns == [] then 0
    else
      var f := FirstScoring(ns[..|ns| - 1], c, s);
      if f < |ns| - 1 then f
      else if Label(ns[|ns| - 1]) == c && LogScore(ns[|ns| - 1]) == s then |ns| - 1
      else |ns|
  }

  /** m is the first candidate of its category to reach the best log-probability among all
      candidates of that category. */
  predicate FirstBest(ns: seq<ParseNode>, m: ParseNode)
  {
    var f := FirstScoring(ns, Label(m), LogScore(m));
    && f < |ns| && ns[f] == m
    && forall j :: 0 <= j < |ns| && Label(ns[j]) == Label(m) ==> LogScore(ns[j]) <= LogScore(m)
  }

  /** A first best candidate stays first best when a candidate no better is added after it. */
  lemma FirstBestExtend(init: seq<ParseNode>, x: ParseNode, m: ParseNode)
    requires FirstBest(init, m)
    requires Label(x) == Label(m) ==> LogScore(x) <= LogScore(m)
    ensures FirstBest(init + [x], m)
  {
    var ns := init + [x];
    assert ns[..|ns| - 1] == init;
    forall j | 0 <= j < |ns| && Label(ns[j]) == Label(m) ensures LogScore(ns[j]) <= LogScore(m) {
      if j < |init| {
        assert ns[j] == init[j];
      }
    }
  }

  /** A candidate strictly better than every earlier one of its category is first best. */
  lemma FirstBestNew(init: seq<ParseNode>, x: ParseNode)
    requires forall j :: 0 <= j < |init| && Label(init[j]) == Label(x) ==> LogScore(init[j]) < LogScore(x)
    ensures FirstBest(init + [x], x)
  {
    var ns := init + [x];
    assert ns[..|ns| - 1] == init;
    forall j | 0 <= j < |ns| && Label(ns[j]) == Label(x) ensures LogScore(ns[j]) <= LogScore(x) {
      if j < |init| {
        assert ns[j] == init[j];
      }
    }
  }

  /** What the cell holds after updatePartialParse on candidates ns in turn: one node per
      category of ns, each the first best candidate of its category. */
  ghost predicate KeepsBest(ns: seq<ParseNode>, r: seq<ParseNode>)
  {
    && DistinctLabels(r)
    && (forall m :: m in r ==> FirstBest(ns, m))
    && (forall j :: 0 <= j < |ns| ==> Label(ns[j]) in Labels(r))
  }

  /** The categories present in a list. */
  ghost function Labels(ps: seq<ParseNode>): set<Symbol>
  {
    set m | m in ps :: Label(m)
  }

  /** Two nodes of a list with distinct categories that share a category are the same node. */
  lemma SameLabelSame(ps: seq<ParseNode>, a: ParseNode, b: ParseNode)
    requires DistinctLabels(ps) && a in ps && b in ps && Label(a) == Label(b)
    ensures a == b
  {
    var i :| 0 <= i < |ps| && ps[i] == a;
    var j :| 0 <= j < |ps| && ps[j] == b;
  }

  /** updatePartialParse adds n's category to those present and no other. */
  lemma UpdatedLabels(ps: seq<ParseNode>, n: ParseNode)
    requires DistinctLabels(ps)
    ensures Labels(Updated(ps, n)) == Labels(ps) + {Label(n)}
  {
    var r := Updated(ps, n);
    UpdatedBest(ps, n);
    forall l | l in Labels(ps) + {Label(n)} ensures l in Labels(r) {
      if l == Label(n) {
        var m :| KeptFor(r, l, m);
      } else {
        var m :| m in ps && Label(m) == l;
        assert m in r;
      }
    }
  }

  /** Starting from an empty cell, the cell keeps exactly one node per category of the
      candidates, the first candidate of that category to reach its best log-probability. */
  lemma {:induction false} KeptFirstBest(ns: seq<ParseNode>)
    ensures KeepsBest(ns, Kept([], ns))
  {
    if ns != [] {
      var init, x := ns[..|ns| - 1], ns[|ns| - 1];
      assert ns == init + [x];
      KeptFirstBest(init);
      KeepsBestStep(init, x, Kept([], init));
    }
  }

  /** The step of KeptFirstBest: one more candidate. */
  lemma KeepsBestStep(init: seq<ParseNode>, x: ParseNode, before: seq<ParseNode>)
    requires KeepsBest(init, before)
    ensures KeepsBest(init + [x], Updated(before, x))
  {
    UpdatedBest(before, x);
    StepFirstBest(init, x, before);
    StepCovers(init, x, before);
  }

  /** Every node kept after one more candidate is first best among the candidates so far. */
  lemma StepFirstBest(init: seq<ParseNode>, x: ParseNode, before: seq<ParseNode>)
    requires KeepsBest(init, before)
    ensures forall m :: m in Updated(before, x) ==> FirstBest(init + [x], m)
  {
    var r := Updated(before, x);
    var c := Label(x);
    UpdatedBest(before, x);
    forall m | m in r ensures FirstBest(init + [x], m) {
      if m in before {
        if Label(m) == c {
          assert KeptFor(r, c, m);
        }
        FirstBestExtend(init, x, m);
      } else {
        StepNewBest(init, x, before);
      }
    }
  }

  /** When one more candidate enters the cell, it beats every earlier one of its category. */
  lemma StepNewBest(init: seq<ParseNode>, x: ParseNode, before: seq<ParseNode>)
    requires KeepsBest(init, before) && x in Updated(before, x) && x !in before
    ensures FirstBest(init + [x], x)
  {
    var c := Label(x);
    forall j | 0 <= j < |init| && Label(init[j]) == c ensures LogScore(init[j]) < LogScore(x) {
      var o :| o in before && Label(o) == c;
      assert FirstBest(init, o);
      if o in Updated(before, x) {
        UpdatedBest(before, x);
        SameLabelSame(Updated(before, x), o, x);
      }
      KeptStrictlyWorse(before, x, o);
    }
    FirstBestNew(init, x);
  }

  /** Every category of the candidates so far still has a node in the cell. */
  lemma StepCovers(init: seq<ParseNode>, x: ParseNode, before: seq<ParseNode>)
    requires KeepsBest(init, before)
    ensures forall j :: 0 <= j < |init| + 1 ==> Label((init + [x])[j]) in Labels(Updated(before, x))
  {
    UpdatedLabels(before, x);
    forall j | 0 <= j < |init| + 1 ensures Label((init + [x])[j]) in Labels(Updated(before, x)) {
      if j < |init| {
        assert (init + [x])[j] == init[j];
      }
    }
  }

  /** When updatePartialParse replaces the node o of n's category, o scored strictly lower. */
  lemma KeptStrictlyWorse(ps: seq<ParseNode>, n: ParseNode, o: ParseNode)
    requires DistinctLabels(ps) && KeptFor(ps, Label(n), o) && o !in Updated(ps, n)
    ensures LogScore(o) < LogScore(n)
  {
    var k := FirstWith(ps, Label(n));
    var t :| 0 <= t < |ps| && ps[t] == o;
    assert t == k;
  }

  class PartialParseList {
    var partialParses: seq<ParseNode>

    /** PartialParseList(): no partial parse yet. */
    constructor ()
      ensures partialParses == []
    {
      partialParses := [];
    }

    /** addPartialParse: the node joins the end of the list, even when its category is already
        there. */
    method AddPartialParse(parseNode: ParseNode)
      modifies this
      ensures partialParses == old(partialParses) + [parseNode]
    {
      partialParses := partialParses + [parseNode];
    }

    /** updatePartialParse: the search for the first node of the same category, then the
        replacement or the append. */
    method UpdatePartialParse(parseNode: ParseNode)
      modifies this
      ensures partialParses == Updated(old(partialParses), parseNode)
    {
      var found := false;
      var i := 0;
      while i < |partialParses|
        invariant 0 <= i <= |partialParses| && partialParses == old(partialParses)
        invariant forall j :: 0 <= j < i ==> Label(partialParses[j]) != Label(parseNode)
      {
        var partialParse := partialParses[i];
        if Label(partialParse) == Label(parseNode) {
          if LogScore(partialParse) < LogScore(parseNode) {
            partialParses := partialParses[..i] + partialParses[i + 1..] + [parseNode];
          }
          found := true;
          break;
        }
        i := i + 1;
      }
      if !found {
        partialParses := partialParses + [parseNode];
      }
      UpdatedCases(old(partialParses), parseNode);
    }

    /** getPartialParse. */
    function GetPartialParse(index: int): ParseNode
      reads this
      requires 0 <= index < |partialParses|
    {
      partialParses[index]
    }

    /** size. */
    function Size(): nat
      reads this
    {
      |partialParses|
    }
  }
}
