/** The three rule comparators of the grammar: RuleRightSideComparator (right-hand sides,
    lexicographically by symbol name, then by length), RuleLeftSideComparator (left-hand side
    names) and RuleComparator (left-hand side first, then right-hand side). */
module RuleOrder {
  import opened Rules
  import JavaString
  import SortedLists

  /** Integer.compare. */
  function IntCompare(x: int, y: int): (r: int)
    ensures r == -1 || r == 0 || r == 1
    ensures r < 0 <==> x < y
    ensures r == 0 <==> x == y
  {
    if x < y then -1 else if x == y then 0 else 1
  }

  /** The loop of RuleRightSideComparator.compare over two right-hand sides: the first
      position whose names differ decides by String order, otherwise the lengths do. */
  function RhsCompare(a: seq<Symbol>, b: seq<Symbol>): (r: int)
    ensures r == 0 <==> a == b
    decreases |a|
  {
    if a == [] || b == [] then IntCompare(|a|, |b|)
    else if a[0] != b[0] then JavaString.CompareTo(a[0], b[0])
    else
      assert a == [a[0]] + a[1..] && b == [b[0]] + b[1..];
      RhsCompare(a[1..], b[1..])
  }

  /** The first position where the names differ decides the result, in String order. */
  lemma {:induction false} FirstDifferenceDecides(a: seq<Symbol>, b: seq<Symbol>, i: int)
    requires 0 <= i < |a| && i < |b| && a[..i] == b[..i] && a[i] != b[i]
    ensures RhsCompare(a, b) == JavaString.CompareTo(a[i], b[i])
    decreases i
  {
    if i > 0 {
      assert a[0] == a[..i][0] == b[..i][0] == b[0];
      assert a[1..][..i - 1] == a[..i][1..] && b[1..][..i - 1] == b[..i][1..];
      FirstDifferenceDecides(a[1..], b[1..], i - 1);
    }
  }

  /** A proper prefix compares below the longer right-hand side. */
  lemma {:induction false} ProperPrefixSmaller(a: seq<Symbol>, b: seq<Symbol>)
    requires |a| < |b| && b[..|a|] == a
    ensures RhsCompare(a, b) == -1 && RhsCompare(b, a) == 1
    decreases |a|
  {
    if a != [] {
      assert a[0] == b[0];
      assert b[1..][..|a| - 1] == a[1..];
      ProperPrefixSmaller(a[1..], b[1..]);
    }
  }

  lemma {:induction false} RhsCompareAntisymmetric(a: seq<Symbol>, b: seq<Symbol>)
    ensures RhsCompare(a, b) == -RhsCompare(b, a)
    decreases |a|
  {
    if a == [] || b == [] {
    } else if a[0] != b[0] {
      JavaString.CompareToAntisymmetric(a[0], b[0]);
    } else {
      RhsCompareAntisymmetric(a[1..], b[1..]);
    }
  }

  lemma {:induction false} RhsCompareTransitive(a: seq<Symbol>, b: seq<Symbol>, c: seq<Symbol>)
    requires RhsCompare(a, b) < 0 && RhsCompare(b, c) < 0
    ensures RhsCompare(a, c) < 0
    decreases |a|
  {
    if a == [] || b == [] || c == [] {
    } else if a[0] == b[0] && b[0] == c[0] {
      RhsCompareTransitive(a[1..], b[1..], c[1..]);
    } else if a[0] == b[0] {
      assert JavaString.CompareTo(b[0], c[0]) < 0;
    } else if b[0] == c[0] {
      assert JavaString.CompareTo(a[0], b[0]) < 0;
    } else {
      JavaString.CompareToTransitive(a[0], b[0], c[0]);
    }
  }

  lemma RhsCompareTransitiveLe(a: seq<Symbol>, b: seq<Symbol>, c: seq<Symbol>)
    requires RhsCompare(a, b) <= 0 && RhsCompare(b, c) <= 0
    ensures RhsCompare(a, c) <= 0
  {
    if RhsCompare(a, b) < 0 && RhsCompare(b, c) < 0 {
      RhsCompareTransitive(a, b, c);
    }
  }

  /** RuleRightSideComparator.compare: only the right-hand sides are consulted. */
  function RightSideCompare(a: Rule, b: Rule): (r: int)
    ensures r == 0 <==> a.rhs == b.rhs
  {
    RhsCompare(a.rhs, b.rhs)
  }

  /** RuleLeftSideComparator.compare: the String order of the left-hand side names. */
  function LeftSideCompare(a: Rule, b: Rule): (r: int)
    ensures r == 0 <==> a.lhs == b.lhs
  {
    JavaString.CompareTo(a.lhs, b.lhs)
  }

  /** RuleComparator.compare: equal left-hand sides defer to the right-hand sides, otherwise the
      left-hand sides decide.  Symbol.equals is taken to be name equality. */
  function RuleCompare(a: Rule, b: Rule): (r: int)
    ensures a.lhs == b.lhs ==> r == RightSideCompare(a, b)
    ensures a.lhs != b.lhs ==> r == LeftSideCompare(a, b)
    ensures r == 0 <==> a.lhs == b.lhs && a.rhs == b.rhs
  {
    if a.lhs == b.lhs then RightSideCompare(a, b) else LeftSideCompare(a, b)
  }

  lemma RuleCompareAntisymmetric(a: Rule, b: Rule)
    ensures RuleCompare(a, b) == -RuleCompare(b, a)
    ensures RightSideCompare(a, b) == -RightSideCompare(b, a)
    ensures LeftSideCompare(a, b) == -LeftSideCompare(b, a)
  {
    RhsCompareAntisymmetric(a.rhs, b.rhs);
    JavaString.CompareToAntisymmetric(a.lhs, b.lhs);
  }

  lemma RuleCompareTransitive(a: Rule, b: Rule, c: Rule)
    requires RuleCompare(a, b) <= 0 && RuleCompare(b, c) <= 0
    ensures RuleCompare(a, c) <= 0
  {
    if a.lhs == b.lhs && b.lhs == c.lhs {
      RhsCompareTransitiveLe(a.rhs, b.rhs, c.rhs);
    } else if a.lhs == b.lhs {
      assert LeftSideCompare(b, c) < 0;
    } else if b.lhs == c.lhs {
      assert LeftSideCompare(a, b) < 0;
    } else {
      JavaString.CompareToTransitiveLe(a.lhs, b.lhs, c.lhs);
      if a.lhs == c.lhs {
        JavaString.CompareToAntisymmetric(a.lhs, b.lhs);
      }
    }
  }

  lemma RightSideCompareTransitive(a: Rule, b: Rule, c: Rule)
    requires RightSideCompare(a, b) <= 0 && RightSideCompare(b, c) <= 0
    ensures RightSideCompare(a, c) <= 0
  {
    RhsCompareTransitiveLe(a.rhs, b.rhs, c.rhs);
  }

  lemma LeftSideCompareTransitive(a: Rule, b: Rule, c: Rule)
    requires LeftSideCompare(a, b) <= 0 && LeftSideCompare(b, c) <= 0
    ensures LeftSideCompare(a, c) <= 0
  {
    JavaString.CompareToTransitiveLe(a.lhs, b.lhs, c.lhs);
  }

  /** "Not above, then strictly below" is strictly below, in each of the three orders. */
  lemma RuleCompareMixed(a: Rule, b: Rule, c: Rule)
    ensures RuleCompare(a, b) <= 0 && RuleCompare(b, c) < 0 ==> RuleCompare(a, c) < 0
    ensures RuleCompare(a, b) < 0 && RuleCompare(b, c) <= 0 ==> RuleCompare(a, c) < 0
  {
    RuleCompareAntisymmetric(a, b);
    RuleCompareAntisymmetric(b, c);
    if RuleCompare(a, b) <= 0 && RuleCompare(b, c) <= 0 {
      RuleCompareTransitive(a, b, c);
    }
  }

  lemma RightSideCompareMixed(a: Rule, b: Rule, c: Rule)
    ensures RightSideCompare(a, b) <= 0 && RightSideCompare(b, c) < 0 ==> RightSideCompare(a, c) < 0
    ensures RightSideCompare(a, b) < 0 && RightSideCompare(b, c) <= 0 ==> RightSideCompare(a, c) < 0
  {
    RuleCompareAntisymmetric(a, b);
    RuleCompareAntisymmetric(b, c);
    if RightSideCompare(a, b) <= 0 && RightSideCompare(b, c) <= 0 {
      RightSideCompareTransitive(a, b, c);
    }
  }

  lemma LeftSideCompareMixed(a: Rule, b: Rule, c: Rule)
    ensures LeftSideCompare(a, b) <= 0 && LeftSideCompare(b, c) < 0 ==> LeftSideCompare(a, c) < 0
    ensures LeftSideCompare(a, b) < 0 && LeftSideCompare(b, c) <= 0 ==> LeftSideCompare(a, c) < 0
  {
    RuleCompareAntisymmetric(a, b);
    RuleCompareAntisymmetric(b, c);
    if LeftSideCompare(a, b) <= 0 && LeftSideCompare(b, c) <= 0 {
      LeftSideCompareTransitive(a, b, c);
    }
  }

  /** RuleComparator refines RuleLeftSideComparator: a list sorted by the former is sorted by
      the latter, which is what lets the left-hand side query binary-search `rules`. */
  lemma SortedByRuleSortedByLeft(xs: seq<Rule>)
    requires SortedLists.Sorted(xs, RuleCompare)
    ensures SortedLists.Sorted(xs, LeftSideCompare)
  {
    forall i, j | 0 <= i < j < |xs| ensures LeftSideCompare(xs[i], xs[j]) <= 0 {
      assert RuleCompare(xs[i], xs[j]) <= 0;
    }
  }

  /** In a list sorted by right-hand side, the rules whose right-hand side starts with s form
      one block: the terminal query walks exactly that block. */
  lemma {:induction false} PrefixBlock(a: seq<Symbol>, b: seq<Symbol>, c: seq<Symbol>, s: Symbol)
    requires a != [] && c != [] && a[0] == s && c[0] == s
    requires RhsCompare(a, b) <= 0 && RhsCompare(b, c) <= 0
    ensures b != [] && b[0] == s
  {
    if b != [] && b[0] != s {
      assert RhsCompare(a, b) == JavaString.CompareTo(s, b[0]);
      assert RhsCompare(b, c) == JavaString.CompareTo(b[0], s);
      JavaString.CompareToAntisymmetric(s, b[0]);
    }
  }
}
