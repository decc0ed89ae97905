/** The older copies of RuleLeftSideComparator and RuleComparator kept under src/ContextFreeGrammar.
    They are written out again here and shown to agree with the current ones on every input, so
    everything proved about the current order holds for the old grammar index too. */
module LegacyRuleOrder {
  import opened Rules
  import JavaString
  import RuleOrder

  /** The old RuleLeftSideComparator.compare: String order of the left-hand side names. */
  function LeftSideCompare(a: Rule, b: Rule): (r: int)
    ensures r == RuleOrder.LeftSideCompare(a, b)
    ensures r == 0 <==> a.lhs == b.lhs
  {
    JavaString.CompareTo(a.lhs, b.lhs)
  }

  /** The old RuleComparator.compare: the right-hand side comparator for equal left-hand sides,
      the old left-hand side comparator otherwise. */
  function RuleCompare(a: Rule, b: Rule): (r: int)
    ensures r == RuleOrder.RuleCompare(a, b)
    ensures r == 0 <==> a.lhs == b.lhs && a.rhs == b.rhs
  {
    if a.lhs == b.lhs then RuleOrder.RhsCompare(a.rhs, b.rhs) else LeftSideCompare(a, b)
  }

  /** The old orders are exactly antisymmetric and transitive, as the current ones are. */
  lemma LegacyOrdersAreTotal(a: Rule, b: Rule, c: Rule)
    ensures RuleCompare(a, b) == -RuleCompare(b, a)
    ensures LeftSideCompare(a, b) == -LeftSideCompare(b, a)
    ensures RuleCompare(a, b) <= 0 && RuleCompare(b, c) <= 0 ==> RuleCompare(a, c) <= 0
    ensures LeftSideCompare(a, b) <= 0 && LeftSideCompare(b, c) <= 0 ==> LeftSideCompare(a, c) <= 0
  {
    RuleOrder.RuleCompareAntisymmetric(a, b);
    if RuleCompare(a, b) <= 0 && RuleCompare(b, c) <= 0 {
      RuleOrder.RuleCompareTransitive(a, b, c);
    }
    if LeftSideCompare(a, b) <= 0 && LeftSideCompare(b, c) <= 0 {
      RuleOrder.LeftSideCompareTransitive(a, b, c);
    }
  }
}
