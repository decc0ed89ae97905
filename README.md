# SyntacticParser, modelled in Dafny

SyntacticParser is a Java library for constituency parsing with context-free grammars. A
grammar is read off a treebank, or a probabilistic grammar is estimated from one. Rare words
and numerals are replaced by the placeholders `_rare_` and `_num_`. The grammar can be
converted to Chomsky normal form. Sentences are parsed by an Earley parser or a CYK parser,
each in a plain and in a probabilistic variant.

This project models the core of the library and proves properties of the model:

- **Rules and their orders** (`rules.dfy`, `rule_order.dfy`, `legacy_rule_order.dfy`,
  `java_string.dfy`):
  - `Rule` and `ProbabilisticRule`, with their text forms, equality and hash;
  - the in-place pair replacement used by binarisation;
  - the three rule comparators, built on a model of `String.compareTo` over characters (see
    "Left out" for characters outside the Basic Multilingual Plane), proved to be orders;
  - the older copies of the comparators, proved to agree with the current ones.
- **The grammar index** (`sorted_lists.dfy`, `rule_index.dfy`, `grammar.dfy`,
  `legacy_grammar.dfy`):
  - two sorted `ArrayList`s holding references to the same rule objects;
  - insertion and removal by `Collections.binarySearch`, modelled on the JDK's search loop;
  - the four range queries, `partOfSpeechTags`, `getLeftSide`, `searchRule` and `size`.
  - Rule objects live in a store addressed by id, so an object in both lists is one id, and
    changing a rule object changes what both lists see.
- **Grammar construction** (`exceptional_words.dfy`, `treebank.dfy`, `normalization.dfy`,
  `induction.dfy`, `tree_probability.dfy`):
  - the dictionary and the rare-word and numeral placeholders;
  - reading rules off trees, and counting them;
  - normalising the counts into one probability distribution per left-hand side;
  - `updateTypes`, and the log-probability of a tree.
- **Chomsky normal form** (`normal_form.dfy`, `chomsky_normal_form.dfy`): unit-rule removal
  (pass 1), then binarisation with fresh symbols `X0, X1, ...` (pass 2), then re-sorting, for
  the plain, probabilistic and legacy grammars.
- **The Earley parsers** (`chart_entry.dfy`, `chart.dfy`, `earley.dfy`,
  `probabilistic_earley.dfy`):
  - dotted items with backpointers, and their three comparators;
  - a chart with a discovery list and two sorted lists;
  - predictor, scanner and completer;
  - the position loop, and the selection of the best-scoring trees.
- **The CYK parsers** (`partial_parse_list.dfy`, `parse_tree.dfy`, `tables.dfy`,
  `cyk_table.dfy`, `cyk.dfy`, `probabilistic_cyk.dfy`):
  - the triangular table of `PartialParseList` cells, filled span by span;
  - the plain cell keeps every node; the probabilistic cell keeps the best node per category;
  - the selection of the `S` trees over the whole sentence.

State-changing code is written as methods over classes (`ContextFreeGrammar`, `Chart`,
`ChartEntry`, `PartialParseList`) or as loop methods. Each method is proved against a
specification function, and the properties of that function are proved as lemmas.

Probabilities are mathematical reals. `Math.log` is a parameter `ln`, and `Double.toString`
is a parameter `show`. `Symbol.isTerminal`, `Symbol.trimSymbol` and `Word.isPunctuation` are
fields of an `Oracle` value passed in.

## Model

| member | source | states |
|---|---|---|
| Rules.RuleTextShape | src/main/java/ContextFreeGrammar/Rule.java:166-172 | toString is the left-hand side, " ->  ", then the right-hand-side names joined by single spaces |
| Rules.HashCode | src/main/java/ContextFreeGrammar/Rule.java:174-177 | the hash code of the string form is a 32-bit int |
| Rules.EqualRulesHashEqually | src/main/java/ContextFreeGrammar/Rule.java:79-86 | rules equal under equals have the same string form and the same hash code |
| Rules.DifferentProbabilitiesDiffer | src/main/java/ProbabilisticContextFreeGrammar/ProbabilisticRule.java:89-91 | two probabilistic rules whose probabilities print differently have different string forms, so they are not equal |
| Rules.ParseRule | src/main/java/ContextFreeGrammar/Rule.java:67-77 | Rule(String) fails exactly when the line has no "->"; otherwise at least one right-hand-side symbol, no type, no probability, and a trimmed left-hand side |
| Rules.ParseRuleText | src/main/java/ContextFreeGrammar/Rule.java:67-77 | round trip: parsing toString of a rule with plain names gives back its left- and right-hand sides |
| Rules.ParseScoredRule | src/main/java/ProbabilisticContextFreeGrammar/ProbabilisticRule.java:40-52 | ProbabilisticRule(String) succeeds exactly when "->" comes before the first '[', that '[' before the first ']', and the text between them parses as a number; the count starts at 0 |
| Rules.ParseScoredRuleText | src/main/java/ProbabilisticContextFreeGrammar/ProbabilisticRule.java:89-91 | round trip: the string form " [probability]" of a rule with bracket-free names parses back |
| Rules.PairIndex | src/main/java/ContextFreeGrammar/Rule.java:107-108 | the first position of the adjacent pair (first, second) in the right-hand side, or -1 when there is none |
| Rules.UpdateMultipleNonTerminal | src/main/java/ContextFreeGrammar/Rule.java:105-119 | replaces only the first adjacent pair by `with`, sets TWO_NON_TERMINAL when two symbols remain, and reports whether a pair was found; the rule is unchanged otherwise |
| Rules.RewrittenShape | src/main/java/ContextFreeGrammar/Rule.java:109-111 | after the rewrite the right-hand side is one shorter, the prefix and suffix are kept and `with` sits at the pair's position |
| Rules.NewProbabilisticRule | src/main/java/ProbabilisticContextFreeGrammar/ProbabilisticRule.java:21-24 | the four-argument constructor keeps the symbols, type and probability, with count 0 |
| Rules.Incremented | src/main/java/ProbabilisticContextFreeGrammar/ProbabilisticRule.java:65-67 | increment adds exactly one to the count and changes nothing else |
| Rules.Normalized | src/main/java/ProbabilisticContextFreeGrammar/ProbabilisticRule.java:73-75 | normalizeProbability sets probability * total = count and changes nothing else |
| RuleOrder.IntCompare | src/main/java/ContextFreeGrammar/RuleRightSideComparator.java:23 | Integer.compare is -1, 0 or 1, with the sign of x - y |
| RuleOrder.RhsCompare | src/main/java/ContextFreeGrammar/RuleRightSideComparator.java:14-24 | the right-hand-side comparison is 0 exactly when the right-hand sides are equal |
| RuleOrder.FirstDifferenceDecides | src/main/java/ContextFreeGrammar/RuleRightSideComparator.java:16-21 | the first position where the names differ decides, by String.compareTo |
| RuleOrder.ProperPrefixSmaller | src/main/java/ContextFreeGrammar/RuleRightSideComparator.java:23 | a proper prefix compares below the longer right-hand side |
| RuleOrder.RhsCompareAntisymmetric | src/main/java/ContextFreeGrammar/RuleRightSideComparator.java:14-24 | swapping the arguments negates the result |
| RuleOrder.RhsCompareTransitive | src/main/java/ContextFreeGrammar/RuleRightSideComparator.java:14-24 | strictly below is transitive |
| RuleOrder.RhsCompareTransitiveLe | src/main/java/ContextFreeGrammar/RuleRightSideComparator.java:14-24 | below-or-equal is transitive |
| RuleOrder.RightSideCompare | src/main/java/ContextFreeGrammar/RuleRightSideComparator.java:14-24 | two rules compare 0 exactly when their right-hand sides are equal |
| RuleOrder.LeftSideCompare | src/main/java/ContextFreeGrammar/RuleLeftSideComparator.java:14-16 | two rules compare 0 exactly when their left-hand sides are equal |
| RuleOrder.RuleCompare | src/main/java/ContextFreeGrammar/RuleComparator.java:14-22 | equal left-hand sides defer to the right-hand sides, others to the left-hand sides; 0 exactly when both sides are equal |
| RuleOrder.RuleCompareAntisymmetric | src/main/java/ContextFreeGrammar/RuleComparator.java:14-22 | all three comparators are antisymmetric |
| RuleOrder.RuleCompareTransitive | src/main/java/ContextFreeGrammar/RuleComparator.java:14-22 | the rule comparator is transitive |
| RuleOrder.RightSideCompareTransitive | src/main/java/ContextFreeGrammar/RuleRightSideComparator.java:14-24 | the right-hand-side comparator is transitive |
| RuleOrder.LeftSideCompareTransitive | src/main/java/ContextFreeGrammar/RuleLeftSideComparator.java:14-16 | the left-hand-side comparator is transitive |
| RuleOrder.RuleCompareMixed | src/main/java/ContextFreeGrammar/RuleComparator.java:14-22 | "not above, then strictly below" is strictly below |
| RuleOrder.RightSideCompareMixed | src/main/java/ContextFreeGrammar/RuleRightSideComparator.java:14-24 | the same for the right-hand-side comparator |
| RuleOrder.LeftSideCompareMixed | src/main/java/ContextFreeGrammar/RuleLeftSideComparator.java:14-16 | the same for the left-hand-side comparator |
| RuleOrder.SortedByRuleSortedByLeft | src/main/java/ContextFreeGrammar/RuleComparator.java:14-22 | a list sorted by the rule comparator is sorted by the left-hand-side comparator |
| RuleOrder.PrefixBlock | src/main/java/ContextFreeGrammar/RuleRightSideComparator.java:14-24 | in right-hand-side order, rules whose right-hand side starts with the same symbol form one block |
| LegacyRuleOrder.LeftSideCompare | src/ContextFreeGrammar/RuleLeftSideComparator.java:7-9 | the old left-hand-side comparator is the current one: 0 exactly when the left-hand sides are equal |
| LegacyRuleOrder.RuleCompare | src/ContextFreeGrammar/RuleComparator.java:7-15 | the old rule comparator is the current one: 0 exactly when both sides are equal |
| LegacyRuleOrder.LegacyOrdersAreTotal | src/ContextFreeGrammar/RuleComparator.java:7-15 | the old comparators are antisymmetric and transitive |
| JavaString.CompareTo | src/main/java/ContextFreeGrammar/RuleLeftSideComparator.java:15 | String.compareTo is 0 exactly when the strings are equal |
| JavaString.CompareToAntisymmetric | src/main/java/ContextFreeGrammar/RuleLeftSideComparator.java:15 | swapping the arguments of compareTo negates the result |
| JavaString.CompareToTransitive | src/main/java/ContextFreeGrammar/RuleLeftSideComparator.java:15 | compareTo's "below" is transitive |
| JavaString.CompareToTransitiveLe | src/main/java/ContextFreeGrammar/RuleLeftSideComparator.java:15 | compareTo's "below or equal" is transitive |
| JavaString.CompareToStrict | src/main/java/ContextFreeGrammar/RuleLeftSideComparator.java:15 | "not above" followed by "below", in either order, is "below" |
| JavaString.Trim | src/main/java/ContextFreeGrammar/Rule.java:69-70 | trim is no longer than its input and neither starts nor ends with a character up to U+0020 |
| JavaString.TrimPadded | src/main/java/ContextFreeGrammar/Rule.java:69-70 | trimming a text padded with blanks gives the text back |
| JavaString.IndexOf | src/main/java/ContextFreeGrammar/Rule.java:69 | indexOf is the first occurrence, or -1 when there is none |
| JavaString.SplitJoin | src/main/java/ContextFreeGrammar/Rule.java:72 | split(" ") undoes joining plain names with single spaces |
| JavaString.NatToStringInjective | src/main/java/SyntacticParser/ChartEntry.java:103-119 | different positions print differently |
| JavaString.HashCode | src/main/java/ContextFreeGrammar/Rule.java:176 | String.hashCode is a 32-bit int |
| SortedLists.Search | src/main/java/ContextFreeGrammar/ContextFreeGrammar.java:287 | Collections.binarySearch: a hit compares 0 with the key; on a list partitioned by the key a miss encodes the insertion point and happens exactly when no element compares 0 |
| SortedLists.SearchInMiss | src/main/java/ContextFreeGrammar/ContextFreeGrammar.java:287 | on a partitioned list a miss of the bisection loop is the insertion point |
| SortedLists.BinarySearch | src/main/java/ContextFreeGrammar/ContextFreeGrammar.java:287 | the bisection loop of indexedBinarySearch returns Search |
| SortedLists.Insert | src/main/java/ContextFreeGrammar/ContextFreeGrammar.java:289 | ArrayList.add(i, x): x at i, the prefix and suffix kept, one more element in the multiset |
| SortedLists.Remove | src/main/java/ContextFreeGrammar/ContextFreeGrammar.java:309 | ArrayList.remove(i): one shorter, the element at i gone from the multiset, the rest shifted |
| SortedLists.InsertSorted | src/main/java/ContextFreeGrammar/ContextFreeGrammar.java:288-289 | inserting at the insertion point keeps the list sorted |
| SortedLists.RemoveSorted | src/main/java/ContextFreeGrammar/ContextFreeGrammar.java:309 | removing an element keeps the list sorted |
| SortedLists.InsertStrictlySorted | src/main/java/ContextFreeGrammar/ContextFreeGrammar.java:288-289 | inserting strictly between the neighbours keeps the list free of elements comparing 0 |
| SortedLists.RemoveStrictlySorted | src/main/java/ContextFreeGrammar/ContextFreeGrammar.java:309 | removing keeps a strictly sorted list strictly sorted |
| SortedLists.RemoveDistinct | src/main/java/ContextFreeGrammar/ContextFreeGrammar.java:309 | removing keeps a list free of repeats |
| SortedLists.First | src/main/java/ContextFreeGrammar/ContextFreeGrammar.java:483-488 | the index of the first element passing the test, or -1 when none does |
| SortedLists.FindFirst | src/main/java/ContextFreeGrammar/ContextFreeGrammar.java:483-488 | the for-each loop with break returns First |
| SortedLists.SelectBackward | src/main/java/ContextFreeGrammar/ContextFreeGrammar.java:345-349 | the upward walk collects exactly the selected elements of its range, without repeats |
| SortedLists.SelectForward | src/main/java/ContextFreeGrammar/ContextFreeGrammar.java:350-354 | the downward walk collects exactly the selected elements of its range, without repeats |
| SortedLists.WalkUp | src/main/java/ContextFreeGrammar/ContextFreeGrammar.java:345-349 | the loop walking towards index 0 collects SelectBackward of the block it crosses and stops where the walk test first fails |
| SortedLists.WalkDown | src/main/java/ContextFreeGrammar/ContextFreeGrammar.java:350-354 | the loop walking towards the end collects SelectForward of the block it crosses and stops where the walk test first fails |
| SortedLists.Around | src/main/java/ContextFreeGrammar/ContextFreeGrammar.java:344-355 | the two walks from a hit collect exactly the selected elements of the block around it, without repeats |
| SortedLists.CollectAround | src/main/java/ContextFreeGrammar/ContextFreeGrammar.java:344-355 | the two loops return Around, and the indices where they stop |
| SortedLists.CollectStraddle | src/main/java/SyntacticParser/Chart.java:109-120 | the two loops of the chart query return Straddle |
| SortedLists.StraddleExact | src/main/java/SyntacticParser/Chart.java:109-120 | started inside the block of matching entries, the chart walks collect exactly the matching entries, without repeats |
| SortedLists.StraddleSound | src/main/java/SyntacticParser/Chart.java:109-120 | whatever the list, the chart walks return only matching entries of the list |
| SortedLists.StraddleComplete | src/main/java/SyntacticParser/Chart.java:109-120 | started inside the block, the chart walks miss no matching entry |
| SortedLists.ScanExact | src/main/java/ContextFreeGrammar/ContextFreeGrammar.java:338-357 | on a list partitioned by the key, a grammar query returns exactly the list's elements that pass both tests, without repeats |
| SortedLists.ScanSound | src/main/java/ContextFreeGrammar/ContextFreeGrammar.java:338-357 | whatever the order of the list, a grammar query returns only elements of the list that pass both tests |
| SortedLists.CollectScan | src/main/java/ContextFreeGrammar/ContextFreeGrammar.java:338-357 | binary search plus the two loops return Scan |
| SortedLists.CollectScanChecked | src/ContextFreeGrammar/ContextFreeGrammar.java:188-204 | the same search and loops also report whether a walk stopped on a faulty element (ScanFaults); a fault is only reported for an element of the list |
| SortedLists.FindDown | src/main/java/ContextFreeGrammar/ContextFreeGrammar.java:313-319 | walking towards index 0 while the right-hand sides match: the first entry equal to the rule, or -1, every entry passed being unequal |
| SortedLists.FindUp | src/main/java/ContextFreeGrammar/ContextFreeGrammar.java:321-327 | walking towards the end while the right-hand sides match: the first entry equal to the rule, or -1, every entry passed being unequal |
| SortedLists.FindDownLoop | src/main/java/ContextFreeGrammar/ContextFreeGrammar.java:313-319 | the loop returns FindDown |
| SortedLists.FindUpLoop | src/main/java/ContextFreeGrammar/ContextFreeGrammar.java:321-327 | the loop returns FindUp |
| SortedLists.FindDownUnique | src/main/java/ContextFreeGrammar/ContextFreeGrammar.java:313-319 | when exactly one entry is equal and the walk reaches it, the downward walk finds it exactly when it lies at or below the start |
| SortedLists.FindUpUnique | src/main/java/ContextFreeGrammar/ContextFreeGrammar.java:321-327 | when exactly one entry is equal and the walk reaches it, the upward walk finds it |
| SortedLists.ReplaceAround | src/main/java/SyntacticParser/Chart.java:63-80 | the replacement walks change at most entries equal to the one deleted, each into the new entry |
| SortedLists.ReplaceAroundUnique | src/main/java/SyntacticParser/Chart.java:63-80 | when exactly one entry matches, inside the walked block, the walks replace exactly that one |
| SortedLists.Project | src/main/java/ContextFreeGrammar/ContextFreeGrammar.java:363-371 | the values of the elements passing the test, and only those |
| SortedLists.Dedup | src/main/java/ContextFreeGrammar/ContextFreeGrammar.java:366 | the `!result.contains` test keeps each value once, and every value |
| SortedLists.DedupOrder | src/main/java/ContextFreeGrammar/ContextFreeGrammar.java:363-371 | values appear in order of first appearance |
| SortedLists.CollectDistinct | src/main/java/ContextFreeGrammar/ContextFreeGrammar.java:363-385 | the loops of partOfSpeechTags and getLeftSide return Dedup of Project |
| SortedLists.PlaceSorted | src/main/java/ContextFreeGrammar/ContextFreeGrammar.java:578 | placing an element after the last element not above it keeps a list sorted |
| SortedLists.InsertionIndex | src/main/java/ContextFreeGrammar/ContextFreeGrammar.java:578 | the stable insertion point: after every element not above x, before every element above it |
| SortedLists.StableStep | src/main/java/ContextFreeGrammar/ContextFreeGrammar.java:577-580 | inserting the next element after every element not above it keeps, for each element, the elements tying with it in input order |
| SortedLists.Sort | src/main/java/ContextFreeGrammar/ContextFreeGrammar.java:577-580 | List.sort returns a sorted permutation of its input and is stable: for every element, the elements comparing equal to it come out in their input order |
| SortedLists.PermutationDistinct | src/main/java/ContextFreeGrammar/ContextFreeGrammar.java:577-580 | sorting a list without repeats gives a list without repeats |
| SortedLists.ScanSame | src/main/java/ContextFreeGrammar/ContextFreeGrammar.java:338-357 | a query reads its comparator and tests only on the elements of the list |
| ChartEntries.ChartEntry.constructor | src/main/java/SyntacticParser/ChartEntry.java:19-25 | a new entry holds the rule, span and dot, probability 1.0 and no backpointers |
| ChartEntries.ChartEntry.Scored | src/main/java/SyntacticParser/ChartEntry.java:27-30 | the probabilistic constructor also takes the rule's probability |
| ChartEntries.ChartEntry.Advanced | src/main/java/SyntacticParser/ChartEntry.java:32-42 | the advancing constructor copies current's backpointers and appends added |
| ChartEntries.ChartEntry.AdvancedScored | src/main/java/SyntacticParser/ChartEntry.java:44-47 | the probabilistic advancing constructor's probability is the product of the two entries' probabilities |
| ChartEntries.ChartEntry.NextCategoryPartOfSpeech | src/main/java/SyntacticParser/ChartEntry.java:94-101 | true exactly when the category after the dot is one of the tags |
| ChartEntries.CopyStates | src/main/java/SyntacticParser/ChartEntry.java:38-40 | the copy loop yields current's backpointers in order |
| ChartEntries.MaxHeight | src/main/java/SyntacticParser/ChartEntry.java:32-42 | no backpointer is higher than the largest height |
| ChartEntries.OrderedAdvanced | src/main/java/SyntacticParser/ChartEntry.java:32-42 | an advanced entry is above all its backpointers, so constructParseNode terminates |
| ChartEntries.NextCategory | src/main/java/SyntacticParser/ChartEntry.java:90-92 | for an incomplete entry with its dot in range, the symbol after the dot |
| ChartEntries.StatesTextShared | src/main/java/SyntacticParser/ChartEntry.java:121-127 | entries sharing their first backpointers share the text of those backpointers |
| ChartEntries.AdvancedExtendedText | src/main/java/SyntacticParser/ChartEntry.java:121-127 | toStringExtended of an advanced entry is its toString, the backpointer texts of the entry it advances, then the extended text of the entry it advanced over |
| ChartEntries.ParseNodeOf | src/main/java/SyntacticParser/ChartEntry.java:57-68 | the tree is labelled with the left-hand side; without backpointers it is the left-hand side over a leaf of the first symbol; with them it has one child per backpointer |
| ChartEntries.ChildrenOf | src/main/java/SyntacticParser/ChartEntry.java:63-65 | one child per backpointer visited |
| ChartEntries.ChildrenAre | src/main/java/SyntacticParser/ChartEntry.java:63-65 | the children are the trees of the backpointers, in order |
| ChartEntries.ParseNodeDefined | src/main/java/SyntacticParser/ChartEntry.java:57-68 | constructParseNode succeeds exactly when every backpointer-free descendant has a right-hand side |
| ChartEntries.ChildrenDefined | src/main/java/SyntacticParser/ChartEntry.java:63-65 | the children are built exactly when every backpointer is buildable |
| ChartEntries.StatesAmongAll | src/SyntacticParser/ChartEntryComparator.java:14-19 | the containment loop succeeds exactly when every backpointer of A is, by reference, one of B's |
| ChartEntries.EntryCompareZero | src/SyntacticParser/ChartEntryComparator.java:10-38 | 0 means the same rule, start and dot with A's backpointers among B's, or rules with the same symbols that equals tells apart |
| ChartEntries.EntryCompareNotAntisymmetric | src/SyntacticParser/ChartEntryComparator.java:14-18 | two entries for one item whose backpointers do not contain each other are each below the other, so the comparator is not antisymmetric |
| ChartEntries.TextCompare | src/SyntacticParser/ChartEntryStringComparator.java:7-9 | 0 exactly when the two toString values are equal |
| ChartEntries.TextCompareAntisymmetric | src/SyntacticParser/ChartEntryStringComparator.java:7-9 | swapping the entries negates the result |
| ChartEntries.TextCompareTransitive | src/SyntacticParser/ChartEntryStringComparator.java:7-9 | "below or equal" is transitive |
| ChartEntries.TextCompareIgnoresStates | src/SyntacticParser/ChartEntryStringComparator.java:7-9 | entries differing only in backpointers, probability or identity compare 0 |
| ChartEntries.SameTextSameSpan | src/main/java/SyntacticParser/ChartEntry.java:103-119 | entries with the same toString cover the same span |
| ChartEntries.SameItemTextSameSpan | src/main/java/SyntacticParser/ChartEntry.java:117 | the text " [from,to]" at the end determines from and to |
| ChartEntries.ItemTextSplit | src/main/java/SyntacticParser/ChartEntry.java:103-119 | without its closing bracket the item string is its head, '[', the start, ',' and the end |
| ChartEntries.NextCompareAntisymmetric | src/main/java/SyntacticParser/ChartEntryNextCategoryComparator.java:7-21 | swapping the entries negates the result |
| ChartEntries.NextCompareTransitive | src/main/java/SyntacticParser/ChartEntryNextCategoryComparator.java:7-21 | "not above" is transitive, so the comparator is a total preorder |
| ChartEntries.NextCompareZero | src/main/java/SyntacticParser/ChartEntryNextCategoryComparator.java:7-21 | 0 exactly when both entries are complete or both wait for the same category |
| Charts.NextCompareStrict | src/main/java/SyntacticParser/ChartEntryNextCategoryComparator.java:7-21 | "not above" then "below", in either order, is "below" |
| Charts.SortedPartitioned | src/main/java/SyntacticParser/Chart.java:93 | a list sorted by next category is partitioned with respect to any entry, so the binary search is meaningful |
| Charts.SortedBlocks | src/main/java/SyntacticParser/Chart.java:109-120 | in that list the complete entries come first, and the entries waiting for one category stand together |
| Charts.ReplaceSorted | src/main/java/SyntacticParser/Chart.java:59 | replacing an entry by one comparing 0 with it keeps the list sorted |
| Charts.WithEntryCases | src/main/java/SyntacticParser/Chart.java:85-100 | addChartEntry does nothing on a hit of its search; on a miss it appends to the discovery list and inserts into both sorted lists |
| Charts.WithEntryMiss | src/main/java/SyntacticParser/Chart.java:89-98 | the three lists addChartEntry builds on a miss |
| Charts.WithEntryAt | src/main/java/SyntacticParser/Chart.java:89-98 | the insertion points are in range and e lands at them |
| Charts.EntrySlot | src/main/java/SyntacticParser/Chart.java:90 | the insertion point of the missed search lies within the list |
| Charts.NextSlot | src/main/java/SyntacticParser/Chart.java:93-98 | the search hit, or else the insertion point, lies within the list |
| Charts.WithEntryAdds | src/main/java/SyntacticParser/Chart.java:85-100 | e is added exactly when no entry of the sorted list compares 0 with it |
| Charts.WithEntrySorted | src/main/java/SyntacticParser/Chart.java:92-98 | addChartEntry keeps the next-category list sorted |
| Charts.NextSlotSorted | src/main/java/SyntacticParser/Chart.java:93-98 | inserting at the hit, or else at the insertion point, keeps that list sorted |
| Charts.WithEntryAllOf | src/main/java/SyntacticParser/Chart.java:85-100 | addChartEntry keeps every property that e and all entries have |
| Charts.Replaced | src/main/java/SyntacticParser/Chart.java:57-78 | the replacement changes only entries equal to the deleted one, each into the new entry |
| Charts.UpdatedFrom | src/main/java/SyntacticParser/Chart.java:43-83 | the answer is true exactly on a miss of the string search or a higher probability; a false answer changes nothing; a miss is addChartEntry; a hit replaces the sorted-list entry |
| Charts.UpdatedAsWritten | src/main/java/SyntacticParser/Chart.java:57 | addOrUpdate as written touches the next-category list only for a hit above index 0 |
| Charts.Updated | src/main/java/SyntacticParser/Chart.java:43-83 | addOrUpdate with the next-category list updated on every hit |
| Charts.UpdateMissesFirst | src/main/java/SyntacticParser/Chart.java:57 | on a one-entry chart the code as written leaves the stale entry in the next-category list; the corrected update replaces it |
| Charts.UpdatedSorted | src/main/java/SyntacticParser/Chart.java:43-83 | addOrUpdate keeps the next-category list sorted |
| Charts.ReplacedSorted | src/main/java/SyntacticParser/Chart.java:58-76 | each position that gets e held an entry comparing 0 with e, so the list stays sorted |
| Charts.FollowsCompares | src/main/java/SyntacticParser/Chart.java:61-76 | an entry the walks pass compares 0 with e |
| Charts.UpdatedReplaces | src/main/java/SyntacticParser/Chart.java:58-76 | for an incomplete entry the walks do replace the deleted entry by e |
| Charts.UpdatedAllOf | src/main/java/SyntacticParser/Chart.java:43-83 | addOrUpdate keeps every property that e and all entries have |
| Charts.DiscoveryOrder | src/main/java/SyntacticParser/Chart.java:38-40 | the discovery list read by size and getEntry only grows at its end, by the entry added |
| Charts.AgainstCategory | src/main/java/SyntacticParser/Chart.java:107-108 | against the dummy entry X -> X, an entry compares 0 exactly when it waits for X, below exactly when complete or waiting for a smaller category |
| Charts.AgainstDummy | src/main/java/SyntacticParser/Chart.java:107-108 | comparing with the dummy entry is comparing with its category |
| Charts.SortedAgainst | src/main/java/SyntacticParser/Chart.java:108 | a sorted next-category list is partitioned with respect to any category |
| Charts.WaitingForAt | src/main/java/SyntacticParser/Chart.java:102-122 | the intended getNextCategoryX is the walks around a hit, nothing on a miss |
| Charts.WaitingForAsWritten | src/main/java/SyntacticParser/Chart.java:109 | getNextCategoryX as written treats a hit at index 0 as a miss |
| Charts.WaitingHit | src/main/java/SyntacticParser/Chart.java:110-119 | around a hit, the walks collect exactly the entries waiting for X, without repeats |
| Charts.WaitingNone | src/main/java/SyntacticParser/Chart.java:108-109 | a miss on a sorted list means no entry waits for X |
| Charts.WaitingForExact | src/main/java/SyntacticParser/Chart.java:102-122 | on a sorted list the corrected getNextCategoryX returns exactly the entries waiting for X, without repeats |
| Charts.NextCategoryMissesFirst | src/main/java/SyntacticParser/Chart.java:109 | on a one-entry chart waiting for X the code as written returns nothing, the corrected query returns the entry |
| Charts.SentenceEntries | src/main/java/SyntacticParser/Chart.java:128-136 | exactly the complete S entries spanning [0, wordCount], in list order, without repeats |
| Charts.Chart.constructor | src/main/java/SyntacticParser/Chart.java:19-23 | a new chart has three empty lists |
| Charts.Chart.AddChartEntry | src/main/java/SyntacticParser/Chart.java:85-100 | the new lists are WithEntry of the old ones |
| Charts.Chart.AddOrUpdate | src/main/java/SyntacticParser/Chart.java:43-83 | the new lists and the answer are Updated of the old lists: the update with the `middle >= 0` test of the corrected row under Findings, not the source's `middle > 0` |
| Charts.Chart.Replace | src/main/java/SyntacticParser/Chart.java:57-78 | only the next-category list changes, to Replaced |
| Charts.Chart.GetNextCategoryX | src/main/java/SyntacticParser/Chart.java:102-122 | the entries are WaitingFor of the next-category list: the query with the `middle >= 0` test of the corrected row under Findings, not the source's `middle > 0` |
| Charts.Chart.GetSentenceChartEntries | src/main/java/SyntacticParser/Chart.java:128-136 | the entries are SentenceEntries of the sorted list |
| ChomskyNormalForm.RewriteListOnce | src/main/java/ContextFreeGrammar/ContextFreeGrammar.java:542-546 | over a list without repeats each listed rule object is rewritten exactly once and every other object is left as it was |
| ChomskyNormalForm.UpdatedAllSpec | src/main/java/ContextFreeGrammar/ContextFreeGrammar.java:541-547 | updateAllMultipleNonTerminalWithNewRule rewrites every rule of the grammar once (twice in the legacy copy, which walks both lists) and touches nothing else |
| ChomskyNormalForm.RewriteAt | src/main/java/ContextFreeGrammar/ContextFreeGrammar.java:543-545 | the type test and the call of updateMultipleNonTerminal on one rule object |
| ChomskyNormalForm.UpdateAll | src/main/java/ContextFreeGrammar/ContextFreeGrammar.java:541-547 | the loop leaves the store rewritten exactly as UpdatedAllSpec describes |
| ChomskyNormalForm.LegacyRewritesTwice | src/ContextFreeGrammar/ContextFreeGrammar.java:299-310 | the legacy copy's second loop over rulesRightSorted rewrites S -> A B A B C into S -> X0 X0 C where the main grammar gives S -> X0 A B C |
| ChomskyNormalForm.RewriteRuleFacts | src/main/java/ContextFreeGrammar/Rule.java:105-119 | a rewrite keeps the left-hand side, the probability and every type but MULTIPLE_NON_TERMINAL, which becomes TWO_NON_TERMINAL exactly at length 2; it never lengthens a rule and shortens one that holds the pair |
| ChomskyNormalForm.Pass2RuleRewrite | src/main/java/ContextFreeGrammar/Rule.java:105-119 | a rewrite keeps a rule in the shape pass 2 works on |
| ChomskyNormalForm.WeightBelow | src/main/java/ContextFreeGrammar/ContextFreeGrammar.java:556-566 | the measure of pass 2: shorter multiple rules make a lighter grammar, strictly when one is strictly shorter |
| ChomskyNormalForm.WeightAdded | src/main/java/ContextFreeGrammar/ContextFreeGrammar.java:563 | adding a TWO_NON_TERMINAL rule leaves the measure alone |
| ChomskyNormalForm.WeightInsert | src/main/java/ContextFreeGrammar/ContextFreeGrammar.java:563 | inserting an object into a rule list adds its weight |
| ChomskyNormalForm.NewSymbol | src/main/java/ContextFreeGrammar/ContextFreeGrammar.java:558 | the new symbol "X" + count starts with X and has a digit after it |
| ChomskyNormalForm.NewSymbolsDiffer | src/main/java/ContextFreeGrammar/ContextFreeGrammar.java:558 | different counts give different new symbols |
| ChomskyNormalForm.PairRule | src/main/java/ProbabilisticContextFreeGrammar/ProbabilisticContextFreeGrammar.java:213 | the rule added is new symbol -> B C of type TWO_NON_TERMINAL, with probability 1 exactly in the probabilistic grammar |
| ChomskyNormalForm.Pass2StepFacts | src/main/java/ContextFreeGrammar/ContextFreeGrammar.java:557-565 | one round keeps the index consistent and every rule in shape, keeps every object's left-hand side and probability, makes the grammar strictly lighter and leaves new symbol -> B C in it |
| ChomskyNormalForm.CandidateShape | src/main/java/ContextFreeGrammar/ContextFreeGrammar.java:497-506 | the candidate is a MULTIPLE_NON_TERMINAL rule of the grammar, so it has at least three symbols and B and C can be read |
| ChomskyNormalForm.RewriteAllKeeps | src/main/java/ContextFreeGrammar/ContextFreeGrammar.java:541-547 | the rewrite loop keeps the index consistent, every rule in shape and every object's left-hand side and probability, and lengthens no rule |
| ChomskyNormalForm.RewriteAllLighter | src/main/java/ContextFreeGrammar/ContextFreeGrammar.java:559-562 | the candidate begins with B C, so the rewrite shortens it and the grammar gets strictly lighter |
| ChomskyNormalForm.AddedPersists | src/main/java/ContextFreeGrammar/ContextFreeGrammar.java:563 | addRule of the new pair rule keeps the index consistent and the rules in shape, changes no old object, keeps the weight and leaves the pair rule in the grammar |
| ChomskyNormalForm.Pass2Round | src/main/java/ContextFreeGrammar/ContextFreeGrammar.java:557-565 | the loop body as code computes one round, keeps the loop's invariant and makes the grammar strictly lighter |
| ChomskyNormalForm.UpdateMultipleNonTerminals | src/main/java/ContextFreeGrammar/ContextFreeGrammar.java:553-567 | updateMultipleNonTerminalFromRightHandSide terminates with no MULTIPLE_NON_TERMINAL rule left, every rule typed in agreement with its length, every old object kept with its left-hand side and probability, and every object that is not MULTIPLE_NON_TERMINAL unchanged |
| ChomskyNormalForm.ChomskyRules | src/main/java/ContextFreeGrammar/ContextFreeGrammar.java:574-576 | after both passes every rule is A -> a, A -> A or A -> B C, and each rule of the probabilistic grammar still has a probability |
| ChomskyNormalForm.Pass1ToPass2 | src/main/java/ContextFreeGrammar/ContextFreeGrammar.java:575-576 | what pass 1 leaves is what pass 2 needs |
| ChomskyNormalForm.ComparatorsTotal | src/main/java/ContextFreeGrammar/ContextFreeGrammar.java:577-580 | RuleComparator and RuleRightSideComparator are total preorders, so the two sorts are well defined |
| ChomskyNormalForm.ReorderedKeeps | src/main/java/ContextFreeGrammar/ContextFreeGrammar.java:577-580 | sorting the two lists keeps the index consistent and every property of its rules |
| ChomskyNormalForm.ConvertToChomskyNormalForm | src/main/java/ContextFreeGrammar/ContextFreeGrammar.java:574-581 | convertToChomskyNormalForm leaves every rule as A -> a, A -> A or A -> B C, both lists sorted by their comparators and holding the same objects, and every rule of the probabilistic grammar with a probability; no object changes its left-hand side or probability, every TWO_NON_TERMINAL rule stays in the grammar unchanged, and so does every TERMINAL rule A -> a unless a SINGLE_NON_TERMINAL rule of the grammar also points at a |
| NormalForm.NonTerminals | src/main/java/ContextFreeGrammar/ContextFreeGrammar.java:188-191 | the set the first loop of updateTypes builds holds exactly the left-hand sides of the grammar |
| NormalForm.Classify | src/main/java/ContextFreeGrammar/ContextFreeGrammar.java:193-205 | the type given fits the right-hand side's length, and a one-symbol rule is TERMINAL exactly when its symbol is a terminal, punctuation or no left-hand side of the grammar |
| NormalForm.RetypedSpec | src/main/java/ContextFreeGrammar/ContextFreeGrammar.java:187-206 | after updateTypes every rule is typed in agreement with its right-hand side, both sides and probabilities are untouched, and the index stays valid |
| NormalForm.UpdateTypes | src/main/java/ContextFreeGrammar/ContextFreeGrammar.java:187-206 | the two loops compute exactly the retyped grammar |
| NormalForm.SingleCandidate | src/main/java/ContextFreeGrammar/ContextFreeGrammar.java:481-490 | getSingleNonTerminalCandidateToRemove is null exactly when no non-left-recursive SINGLE_NON_TERMINAL rule onto an unremoved symbol is left, and otherwise is the symbol of the first such rule |
| NormalForm.GetSingleCandidate | src/main/java/ContextFreeGrammar/ContextFreeGrammar.java:481-490 | the loop with its break returns that candidate |
| NormalForm.MultipleCandidate | src/main/java/ContextFreeGrammar/ContextFreeGrammar.java:497-506 | getMultipleNonTerminalCandidateToUpdate is null exactly when no MULTIPLE_NON_TERMINAL rule is left, and otherwise the first one |
| NormalForm.GetMultipleCandidate | src/main/java/ContextFreeGrammar/ContextFreeGrammar.java:497-506 | the loop with its break returns that candidate |
| NormalForm.Expansion | src/main/java/ProbabilisticContextFreeGrammar/ProbabilisticContextFreeGrammar.java:187 | the rule added is X -> beta with the candidate's type, with the product of the two probabilities in the probabilistic grammar and none otherwise |
| NormalForm.ExpansionAdded | src/main/java/ContextFreeGrammar/ContextFreeGrammar.java:525 | one addRule of the innermost loop keeps the index valid, adds no unit rule onto a removed symbol or onto Y, keeps every old rule and leaves X -> beta in the grammar |
| NormalForm.ExpansionNoUnit | src/main/java/ContextFreeGrammar/ContextFreeGrammar.java:525 | addRule of a rule that is no unit rule onto a removed symbol adds none |
| NormalForm.ExpansionNotOnto | src/main/java/ContextFreeGrammar/ContextFreeGrammar.java:525 | the only rule onto Y the loop can add is the unit rule X -> Y itself, already present |
| NormalForm.ExpansionPresent | src/main/java/ContextFreeGrammar/ContextFreeGrammar.java:284-298 | after addRule the rule is in the grammar, whether it was inserted or found |
| NormalForm.HasRuleKept | src/main/java/ContextFreeGrammar/ContextFreeGrammar.java:284-298 | addRule never loses a rule: it only adds objects and never changes old ones |
| NormalForm.AddExpansions | src/main/java/ContextFreeGrammar/ContextFreeGrammar.java:524-526 | after the innermost loop every X -> beta is in the grammar, nothing is taken away, and no new rule is a unit rule onto Y or onto a removed symbol |
| NormalForm.ExpansionFacts | src/main/java/ContextFreeGrammar/ContextFreeGrammar.java:525 | the rule added for two rules of the grammar keeps what pass 1 keeps |
| NormalForm.ReplaceUnit | src/main/java/ContextFreeGrammar/ContextFreeGrammar.java:522-528 | for one unit rule X -> Y: the unit rule is gone, nothing else is, and every X -> beta for a rule Y -> beta other than Y -> Y is in the grammar |
| NormalForm.ReplacedAfterRemoval | src/main/java/ContextFreeGrammar/ContextFreeGrammar.java:527 | removeRule(X -> Y) after the expansions removes exactly that rule and keeps the expansions |
| NormalForm.CandidateInSingles | src/main/java/ContextFreeGrammar/ContextFreeGrammar.java:481-490 | the symbol pass 1 picks is the target of a SINGLE_NON_TERMINAL rule of the grammar it started from |
| NormalForm.MeasureDrops | src/main/java/ContextFreeGrammar/ContextFreeGrammar.java:529-530 | each round puts one more symbol of a fixed finite set on the removed list, so pass 1 ends |
| NormalForm.NoChainLeft | src/main/java/ContextFreeGrammar/ContextFreeGrammar.java:520 | when no candidate is left and no unit rule points at a removed symbol, every SINGLE_NON_TERMINAL rule is X -> X |
| NormalForm.Pass1Start | src/main/java/ContextFreeGrammar/ContextFreeGrammar.java:518-519 | the grammar pass 1 starts from satisfies what pass 1 keeps |
| NormalForm.SameMembers | src/main/java/ContextFreeGrammar/ContextFreeGrammar.java:284-298 | the two lists of a consistent grammar hold the same rule objects |
| NormalForm.RemoveUnitsOnto | src/main/java/ContextFreeGrammar/ContextFreeGrammar.java:521-528 | the middle loop over getRulesWithRightSideX(Y) leaves no rule X -> Y, keeps the index valid and takes out no other rule |
| NormalForm.UnitRules | src/main/java/ContextFreeGrammar/ContextFreeGrammar.java:521 | getRulesWithRightSideX(Y) returns each rule X -> Y once |
| NormalForm.RulesOf | src/main/java/ContextFreeGrammar/ContextFreeGrammar.java:523 | getRulesWithLeftSideX(Y) returns exactly the rules Y -> beta |
| NormalForm.NextCandidate | src/main/java/ContextFreeGrammar/ContextFreeGrammar.java:530 | the next candidate is not yet removed and heads a right-hand side of the starting grammar; None means none is left |
| NormalForm.Pass1Round | src/main/java/ContextFreeGrammar/ContextFreeGrammar.java:521-530 | one round keeps the invariant of pass 1 and shrinks its measure |
| NormalForm.Pass1Loop | src/main/java/ContextFreeGrammar/ContextFreeGrammar.java:520-531 | the outer loop runs until no candidate is left, keeping the invariant |
| NormalForm.RetypedTerminalsStay | src/main/java/ContextFreeGrammar/ContextFreeGrammar.java:187-206 | after updateTypes no TERMINAL rule A -> a shares a with a SINGLE_NON_TERMINAL rule, so the conversion keeps every TERMINAL rule of a grammar typed by updateTypes |
| NormalForm.RemoveSingleNonTerminals | src/main/java/ContextFreeGrammar/ContextFreeGrammar.java:513-532 | removeSingleNonTerminalFromRightHandSide ends with every SINGLE_NON_TERMINAL rule X -> X, no rule onto a removed symbol, the index valid, every rule typed and every rule of the probabilistic grammar with a probability; every symbol it removed is the target of a SINGLE_NON_TERMINAL rule of the starting grammar, and every rule of the starting grammar that is not a one-symbol rule onto such a target is still there |
| NormalForm.Pass1Within | src/main/java/ContextFreeGrammar/ContextFreeGrammar.java:513-532 | the same, for any bounds on the sides that the starting grammar meets |
| NormalForm.Pass1WellTyped | src/main/java/ContextFreeGrammar/ContextFreeGrammar.java:513-532 | every rule left by pass 1 is typed in agreement with its length |
| Grammar.ContextFreeGrammar.Empty | src/main/java/ContextFreeGrammar/ContextFreeGrammar.java:26-27 | the empty grammar: no words, no rules, minCount 1, and valid |
| Grammar.ContextFreeGrammar.FromTreebank | src/main/java/ContextFreeGrammar/ContextFreeGrammar.java:82-91 | the treebank constructor leaves exactly the rules of the normalised trees, each typed, over the dictionary of the treebank's words |
| Grammar.ContextFreeGrammar.ProbabilisticFromTreebank | src/main/java/ProbabilisticContextFreeGrammar/ProbabilisticContextFreeGrammar.java:55-78 | the probabilistic treebank constructor leaves exactly the rules of the normalised trees, each counted by its occurrences and with its share of its left-hand side's count as probability |
| Grammar.ContextFreeGrammar.AddRule | src/main/java/ContextFreeGrammar/ContextFreeGrammar.java:284-298 | addRule changes nothing on a hit and otherwise inserts into both lists at their places; the grammar stays valid and holds the rule |
| Grammar.ContextFreeGrammar.RemoveRule | src/main/java/ContextFreeGrammar/ContextFreeGrammar.java:304-329 | removeRule changes nothing on a miss and otherwise removes the rule from both lists; the grammar stays valid |
| Grammar.ContextFreeGrammar.GetRulesWithLeftSideX | src/main/java/ContextFreeGrammar/ContextFreeGrammar.java:338-357 | exactly the rules X -> ..., each once |
| Grammar.ContextFreeGrammar.GetTerminalRulesWithRightSideX | src/main/java/ContextFreeGrammar/ContextFreeGrammar.java:393-416 | exactly the TERMINAL rules X -> s, each once |
| Grammar.ContextFreeGrammar.GetRulesWithRightSideX | src/main/java/ContextFreeGrammar/ContextFreeGrammar.java:424-443 | exactly the rules X -> S, each once |
| Grammar.ContextFreeGrammar.GetRulesWithTwoNonTerminalsOnRightSide | src/main/java/ContextFreeGrammar/ContextFreeGrammar.java:452-472 | exactly the rules X -> A B, each once |
| Grammar.ContextFreeGrammar.PartOfSpeechTags | src/main/java/ContextFreeGrammar/ContextFreeGrammar.java:363-371 | exactly the left-hand sides of TERMINAL rules, each once |
| Grammar.ContextFreeGrammar.GetLeftSide | src/main/java/ContextFreeGrammar/ContextFreeGrammar.java:377-385 | exactly the left-hand sides of all rules, each once |
| Grammar.ContextFreeGrammar.UpdateTypes | src/main/java/ContextFreeGrammar/ContextFreeGrammar.java:187-206 | every rule typed in agreement with its right-hand side, nothing else changed |
| Grammar.ContextFreeGrammar.UpdateExceptionalWordsInTree | src/main/java/ContextFreeGrammar/ContextFreeGrammar.java:120-146 | the tree with each leaf word normalised: numerals to _num_, words seen fewer than minCount times to _rare_ |
| Grammar.ContextFreeGrammar.UpdateExceptionalWordsInSentence | src/main/java/ContextFreeGrammar/ContextFreeGrammar.java:147-169 | the sentence with each word normalised in the same way, position by position |
| Grammar.ContextFreeGrammar.ConvertToChomskyNormalForm | src/main/java/ProbabilisticContextFreeGrammar/ProbabilisticContextFreeGrammar.java:222-229 | every rule becomes A -> a, A -> A or A -> B C, both lists are sorted and hold the same objects, and the probabilistic grammar keeps a probability on every rule; no object changes its left-hand side or probability, and every TWO_NON_TERMINAL rule, and every TERMINAL rule A -> a no SINGLE_NON_TERMINAL rule also points at, stays unchanged |
| Grammar.ContextFreeGrammar.SearchRule | src/main/java/ContextFreeGrammar/ContextFreeGrammar.java:588-597 | the rule object equal to r under RuleComparator, or null exactly when there is none |
| Grammar.ContextFreeGrammar.Size | src/main/java/ContextFreeGrammar/ContextFreeGrammar.java:603-605 | the number of rules, the length of both lists |
| Grammar.ContextFreeGrammar.Probability | src/main/java/ProbabilisticContextFreeGrammar/ProbabilisticContextFreeGrammar.java:165-167 | the log-probability of the tree, missing where the source dereferences null, and never positive once the probabilities are normalised |
| Grammar.BuildPlainGrammar | src/main/java/ContextFreeGrammar/ContextFreeGrammar.java:82-91 | the body of the treebank constructor builds the grammar of the normalised trees |
| Grammar.BuildProbabilisticGrammar | src/main/java/ProbabilisticContextFreeGrammar/ProbabilisticContextFreeGrammar.java:55-78 | the body of the probabilistic treebank constructor builds the counted and normalised grammar of the normalised trees |
| Grammar.AddTreebankRules | src/main/java/ContextFreeGrammar/ContextFreeGrammar.java:84-88 | the loop over the trees adds the rules of every normalised tree, in order |
| Grammar.CountTreebankRules | src/main/java/ProbabilisticContextFreeGrammar/ProbabilisticContextFreeGrammar.java:60-64 | the loop over the trees counts the rules of every normalised tree, in order |
| Grammar.AddedFacts | src/main/java/ContextFreeGrammar/ContextFreeGrammar.java:284-298 | addRule keeps a grammar valid and leaves the rule in it |
| Grammar.RemovedStaysValid | src/main/java/ContextFreeGrammar/ContextFreeGrammar.java:304-329 | removeRule keeps a grammar valid |
| LegacyGrammar.LegacyContextFreeGrammar.Empty | src/ContextFreeGrammar/ContextFreeGrammar.java:13-16 | the empty grammar, valid |
| LegacyGrammar.LegacyContextFreeGrammar.FromTreebank | src/ContextFreeGrammar/ContextFreeGrammar.java:76-81 | the old treebank constructor holds the rules of the trees as read, none of them typed, and nothing else; a tree that is a bare leaf gives the rule with an empty right-hand side, and when no tree is a bare leaf the grammar is valid and holds exactly those rules |
| LegacyGrammar.LegacyContextFreeGrammar.AddRule | src/ContextFreeGrammar/ContextFreeGrammar.java:95-109 | addRule as in the current copy; it keeps the grammar valid and an untyped grammar untyped |
| LegacyGrammar.LegacyContextFreeGrammar.RemoveRule | src/ContextFreeGrammar/ContextFreeGrammar.java:111-137 | removeRule as in the current copy; it keeps the grammar valid and an untyped grammar untyped |
| LegacyGrammar.LegacyContextFreeGrammar.GetRulesWithLeftSideX | src/ContextFreeGrammar/ContextFreeGrammar.java:139-159 | exactly the rules X -> ..., each once |
| LegacyGrammar.LegacyContextFreeGrammar.GetTerminalRulesWithRightSideX | src/ContextFreeGrammar/ContextFreeGrammar.java:183-207 | None (the IndexOutOfBoundsException) exactly when a walk stops on a rule with an empty right-hand side; never without such a rule; otherwise the scan's list, which on a valid typed grammar is exactly the TERMINAL rules X -> s, each once, and on an untyped grammar is empty |
| LegacyGrammar.LegacyContextFreeGrammar.GetRulesWithRightSideX | src/ContextFreeGrammar/ContextFreeGrammar.java:209-229 | None (the IndexOutOfBoundsException) exactly when a walk stops on a rule with an empty right-hand side; never without such a rule; otherwise the scan's list, which on a valid grammar is exactly the rules X -> S, each once |
| LegacyGrammar.LegacyContextFreeGrammar.GetRulesWithTwoNonTerminalsOnRightSide | src/ContextFreeGrammar/ContextFreeGrammar.java:231-252 | exactly the rules X -> A B, each once |
| LegacyGrammar.LegacyContextFreeGrammar.PartOfSpeechTags | src/ContextFreeGrammar/ContextFreeGrammar.java:161-170 | exactly the left-hand sides of TERMINAL rules, each once |
| LegacyGrammar.LegacyContextFreeGrammar.GetLeftSide | src/ContextFreeGrammar/ContextFreeGrammar.java:172-181 | exactly the left-hand sides of all rules, each once |
| LegacyGrammar.BareLeavesHeld | src/ContextFreeGrammar/ContextFreeGrammar.java:38-58 | for a tree that is a bare leaf toRule gives its trimmed symbol with no right-hand side, and the grammar holds that rule |
| LegacyGrammar.LegacyContextFreeGrammar.ConvertToChomskyNormalForm | src/ContextFreeGrammar/ContextFreeGrammar.java:329-336 | on an untyped grammar neither pass finds a candidate: the rules are unchanged and only the two sorts reorder the lists |
| LegacyGrammar.LegacyContextFreeGrammar.SearchRule | src/ContextFreeGrammar/ContextFreeGrammar.java:338-347 | the rule object equal to r under RuleComparator, or null exactly when there is none |
| LegacyGrammar.LegacyContextFreeGrammar.Size | src/ContextFreeGrammar/ContextFreeGrammar.java:349-351 | the number of rules, the length of both lists |
| LegacyGrammar.AddTreebankRulesAsRead | src/ContextFreeGrammar/ContextFreeGrammar.java:77-80 | the loop over the trees adds the rules of every tree as read, in order |
| LegacyGrammar.UntypedGrammar | src/ContextFreeGrammar/ContextFreeGrammar.java:38-58 | the rules read off trees carry no type, so the grammar built from them has none |
| LegacyGrammar.UntypedNoCandidates | src/ContextFreeGrammar/ContextFreeGrammar.java:254-275 | with no rule typed, neither candidate search of the conversion finds a rule |
| LegacyGrammar.RemovedUntyped | src/ContextFreeGrammar/ContextFreeGrammar.java:111-137 | removeRule keeps a grammar valid, and untyped when it was |
| LegacyGrammar.EmptyFirstFaults | src/ContextFreeGrammar/ContextFreeGrammar.java:191 | when rulesRightSorted starts with a rule A -> (nothing) followed by X -> s, both right-hand-side queries for s read the empty rule and throw |
| LegacyGrammar.UntypedNoTerminals | src/ContextFreeGrammar/ContextFreeGrammar.java:183-207 | with no rule typed, the terminal query finds nothing |
| EarleyParser.LookupsOf | src/main/java/ContextFreeGrammar/ContextFreeGrammar.java:338-416 | the parser sees the grammar only through getRulesWithLeftSideX, getTerminalRulesWithRightSideX and partOfSpeechTags, and these lookups are exactly what those queries return |
| EarleyParser.LookupsHonest | src/main/java/ContextFreeGrammar/ContextFreeGrammar.java:338-416 | in any state of the grammar, the queries only return rules that match what was asked |
| EarleyParser.LookupsProper | src/main/java/ContextFreeGrammar/ContextFreeGrammar.java:187-206 | in a valid grammar typed by updateTypes every terminal rule has one symbol and every rule a non-empty right-hand side, which is what the parser needs |
| EarleyParser.TerminalSingle | src/main/java/ContextFreeGrammar/ContextFreeGrammar.java:393-416 | each terminal rule the scanner can get has exactly one symbol on its right-hand side |
| EarleyParser.LeftNonEmpty | src/main/java/ContextFreeGrammar/ContextFreeGrammar.java:338-357 | no rule the predictor gets has an empty right-hand side |
| EarleyParser.LookupsScored | src/main/java/ProbabilisticParser/ProbabilisticEarleyParser.java:28 | in a grammar of ProbabilisticRule objects every rule a query returns has a probability, so the casts succeed |
| EarleyParser.PredictedSpans | src/main/java/SyntacticParser/EarleyParser.java:25 | a predicted entry, rule B -> beta at [i, i] with the dot at 0, is a sound item |
| EarleyParser.ScannedSpans | src/main/java/SyntacticParser/EarleyParser.java:44 | a scanned entry, a terminal rule of the word at i over [i, i + 1] with the dot at 1, is a sound item |
| EarleyParser.AdvancedSpans | src/main/java/SyntacticParser/EarleyParser.java:59 | the completer's entry, whose dot moves over a complete entry starting where the waiting one ends, is a sound item |
| EarleyParser.AddAt | src/main/java/SyntacticParser/EarleyParser.java:25 | chart[k].addChartEntry of a sound item keeps every chart sound |
| EarleyParser.UpdateAt | src/main/java/ProbabilisticParser/ProbabilisticEarleyParser.java:64-66 | chart[k].addOrUpdate of a sound item keeps every chart sound |
| EarleyParser.NewEntry | src/main/java/SyntacticParser/ChartEntry.java:19-25 | a new entry holds the rule, span and dot given, with the rule's probability in the probabilistic parser |
| EarleyParser.NewAdvanced | src/main/java/SyntacticParser/ChartEntry.java:32-42 | the entry built from a waiting entry and a complete one: same rule and start, the end of the complete one, the dot one further, one more backpointer |
| EarleyParser.PredictAll | src/main/java/SyntacticParser/EarleyParser.java:23-27 | every rule of B that fits in the sentence becomes an entry of chart[i], in order, and the charts stay sound |
| EarleyParser.Predictor | src/main/java/SyntacticParser/EarleyParser.java:17-30 | predictor does nothing when B was already predicted at i; otherwise it adds the fitting rules of B and marks B as predicted |
| EarleyParser.SeedAll | src/main/java/SyntacticParser/EarleyParser.java:82-85 | every rule of S becomes an entry of chart[0] with the dot at 0, with no test of its length |
| EarleyParser.FirstWithLhs | src/main/java/SyntacticParser/EarleyParser.java:42-47 | where the loop stops: the first terminal rule with left-hand side B, or none |
| EarleyParser.FindLhs | src/main/java/SyntacticParser/EarleyParser.java:42-47 | the loop with its break finds that rule |
| EarleyParser.Scanner | src/main/java/SyntacticParser/EarleyParser.java:32-48 | scanner does nothing at the end of the sentence and otherwise adds to chart[i + 1] the first terminal rule B -> word found, keeping the charts sound |
| EarleyParser.ScanWord | src/main/java/SyntacticParser/EarleyParser.java:39-47 | scanner past its end test: the first terminal rule B -> word, if any, is added to chart[i + 1] |
| EarleyParser.Completer | src/main/java/SyntacticParser/EarleyParser.java:50-67 | completer turns every entry that the corrected getNextCategoryX (the `middle >= 0` row under Findings) returns as waiting for B at the complete entry's start into an advanced entry, skipping pairs already completed, entries that do not fit and entries that print as the complete one, and keeps the charts sound |
| EarleyParser.CompleteEach | src/main/java/SyntacticParser/EarleyParser.java:56-66 | the loop over the candidates takes each in turn, with the tests of lines 57, 58 and 60 |
| EarleyParser.CompleterTurn | src/main/java/SyntacticParser/EarleyParser.java:57-64 | one turn: on a new pair that fits, build the advanced entry, and add it and record the pair unless it prints as the complete one |
| EarleyParser.AddingGrows | src/main/java/SyntacticParser/Chart.java:85-100 | adding entries never removes or moves one in the list the loop of lines 90-101 walks |
| EarleyParser.TurnsGrow | src/main/java/ProbabilisticParser/ProbabilisticEarleyParser.java:64-66 | nor do the completer's turns, addOrUpdate included |
| EarleyParser.Process | src/main/java/SyntacticParser/EarleyParser.java:91-100 | an incomplete entry waiting for a non-tag goes to the predictor, one waiting for a tag to the scanner, a complete one to the completer; the charts stay sound and chart[i] only grows |
| EarleyParser.ProcessPosition | src/main/java/SyntacticParser/EarleyParser.java:89-101 | every entry of chart[i] is processed in discovery order, including those added meanwhile, with completedList started afresh; the charts stay sound |
| EarleyParser.NewCharts | src/main/java/SyntacticParser/EarleyParser.java:76-81 | n distinct new empty charts and n empty predicted lists |
| EarleyParser.ConstructChart | src/main/java/SyntacticParser/EarleyParser.java:69-106 | constructChart returns one new chart per position 0..n in which every entry is a sound item: its recognised symbols derive exactly the words it spans |
| EarleyParser.EntryYield | src/main/java/SyntacticParser/ChartEntry.java:57-68 | constructParseNode on a complete sound entry succeeds, and the leaves of its tree are exactly the words the entry covers |
| EarleyParser.StatesYield | src/main/java/SyntacticParser/ChartEntry.java:57-68 | the trees of the first i backpointers cover the words from the entry's start to where backpointer i - 1 ends |
| EarleyParser.TreesOf | src/main/java/SyntacticParser/EarleyParser.java:114-116 | one tree per entry, in order, or none exactly when constructParseNode fails on one |
| EarleyParser.BuildTrees | src/main/java/SyntacticParser/EarleyParser.java:114-116 | the loop builds exactly those trees |
| EarleyParser.NoTreesAfter | src/main/java/SyntacticParser/EarleyParser.java:114-116 | once constructParseNode fails, the whole parse fails |
| EarleyParser.SentenceTrees | src/main/java/SyntacticParser/EarleyParser.java:113-116 | every tree read off chart[n] is rooted at S, and in a proper grammar every tree is built and its leaves are the sentence's words |
| EarleyParser.Parse | src/main/java/SyntacticParser/EarleyParser.java:108-118 | parse returns the trees of the complete S entries of chart[n] spanning the sentence, each rooted at S; in a valid grammar typed by updateTypes they are always built and each one's leaves are the words of the sentence |
| EarleyParser.SentenceChartEntries | src/main/java/SyntacticParser/Chart.java:128-136 | the entries taken from chart[n] are sound items that are complete S entries from 0 to n |
| ProbabilisticEarleyParser.Scores | src/main/java/ProbabilisticParser/ProbabilisticEarleyParser.java:124 | the log-probability of each tree, in order, or none exactly when one tree has none |
| ProbabilisticEarleyParser.HighestIs | src/main/java/ProbabilisticParser/ProbabilisticEarleyParser.java:120-127 | the highest score starts at -Double.MAX_VALUE: it is at least that and at least every score, and unless it stayed at its start it is one of them |
| ProbabilisticEarleyParser.Matching | src/main/java/ProbabilisticParser/ProbabilisticEarleyParser.java:131-136 | a tree is kept exactly when its score equals the best one, and the kept trees are no more than the trees |
| ProbabilisticEarleyParser.BestMaximal | src/main/java/ProbabilisticParser/ProbabilisticEarleyParser.java:112-138 | every tree returned is one of the trees of the entries, and none of those scores higher |
| ProbabilisticEarleyParser.BestComplete | src/main/java/ProbabilisticParser/ProbabilisticEarleyParser.java:112-138 | conversely, a tree scoring at least as high as every other and at least -Double.MAX_VALUE is returned |
| ProbabilisticEarleyParser.BestFound | src/main/java/ProbabilisticParser/ProbabilisticEarleyParser.java:120-136 | when some tree scores at least -Double.MAX_VALUE, at least one tree is returned |
| ProbabilisticEarleyParser.ScoreTrees | src/main/java/ProbabilisticParser/ProbabilisticEarleyParser.java:122-129 | the first loop builds and scores every tree, ending with the highest score; it fails exactly when a tree cannot be built or scored |
| ProbabilisticEarleyParser.KeepBest | src/main/java/ProbabilisticParser/ProbabilisticEarleyParser.java:130-136 | the second loop keeps exactly the trees scoring the best probability, in order |
| ProbabilisticEarleyParser.Parse | src/main/java/ProbabilisticParser/ProbabilisticEarleyParser.java:112-138 | parse returns the highest-scoring trees of the complete S entries of chart[n]; each is rooted at S, and in a valid grammar typed by updateTypes each one's leaves are the words of the sentence |
| CYKParser.SeedCell | src/main/java/SyntacticParser/CYKParser.java:28-31 | table[i][i] gets a node X over the word for every terminal rule X -> word, in the order the grammar returns them |
| CYKParser.Keep | src/main/java/ProbabilisticParser/ProbabilisticCYKParser.java:45 | one new node into a cell: appended by the plain parser, kept only if best for its category by the probabilistic one |
| CYKParser.AddCandidates | src/main/java/SyntacticParser/CYKParser.java:40-43 | each rule X -> A B for a left node A and a right node B puts a new node X over them into the cell, in turn |
| CYKParser.AddRow | src/main/java/SyntacticParser/CYKParser.java:37-44 | the y loop: one left node with every right node in turn |
| CYKParser.AddPairs | src/main/java/SyntacticParser/CYKParser.java:36-44 | the x loop: every left node in turn with all the right nodes |
| CYKParser.FillCell | src/main/java/SyntacticParser/CYKParser.java:34-45 | for one (i, j), the k loop fills cell (i, j) from every split (i, k), (k + 1, j) in turn |
| CYKParser.AddSplits | src/main/java/SyntacticParser/CYKParser.java:35-45 | the k loop gathers, in order, the candidates of every split of the span |
| CYKParser.SeedAll | src/main/java/SyntacticParser/CYKParser.java:27-32 | after the seeding loop every table[i][i] is the seed cell of its word |
| CYKParser.FillColumn | src/main/java/SyntacticParser/CYKParser.java:34-45 | the i loop for one end j fills the cells (j - 1, j) down to (0, j) |
| CYKParser.FillOne | src/main/java/SyntacticParser/CYKParser.java:35-45 | one cell filled from the cells already done is the cell the table equations give |
| CYKParser.FillTable | src/main/java/SyntacticParser/CYKParser.java:23-46 | every cell ends as the table built span by span says |
| CYKParser.Roots | src/main/java/SyntacticParser/CYKParser.java:47-48 | the nodes of the top cell labelled S, in the cell's order |
| CYKParser.CollectRoots | src/main/java/SyntacticParser/CYKParser.java:47-54 | the loop takes the S nodes of the top cell, in order, with the X nodes removed |
| CYKParser.ReinsertAll | src/main/java/SyntacticParser/CYKParser.java:55-57 | the saved words are put back into every tree |
| CYKParser.Parse | src/main/java/SyntacticParser/CYKParser.java:12-59 | parse normalises the words, fills the table keeping every node, and returns the S nodes of table[0][n - 1] with the saved words put back |
| CYKParser.TopYield | src/main/java/SyntacticParser/CYKParser.java:47-54 | every node of the top cell spans all the words |
| CYKParser.FinishedWords | src/main/java/ContextFreeGrammar/ContextFreeGrammar.java:170-186 | a root over the normalised words comes back spelling the original sentence |
| CYKParser.ResultsSpellSentence | src/main/java/SyntacticParser/CYKParser.java:47-58 | every tree a parser returns has the words of the sentence as its leaves, in order, whatever the grammar |
| CYKParser.RootsSound | src/main/java/SyntacticParser/CYKParser.java:47-54 | every root taken from the top cell is a parse of the words: a derivation rooted in S whose leaves are the words |
| CYKParser.RootsExact | src/main/java/SyntacticParser/CYKParser.java:12-59 | the plain parser's roots are exactly the parses of the words |
| CYKParser.ParsesExact | src/main/java/SyntacticParser/CYKParser.java:12-59 | the same for any grammar whose rule lists are sorted and typed |
| CYKTables.QueriesOf | src/main/java/ContextFreeGrammar/ContextFreeGrammar.java:393-472 | the parser sees the grammar only through getTerminalRulesWithRightSideX and getRulesWithTwoNonTerminalsOnRightSide, and these queries are exactly what those return |
| CYKTables.QueriesExact | src/main/java/ContextFreeGrammar/ContextFreeGrammar.java:393-472 | on a sorted, typed grammar both queries return exactly the matching rules |
| CYKTables.CellOfAgree | src/main/java/SyntacticParser/CYKParser.java:33-46 | a cell depends only on the cells strictly inside its span, which is why the loop order works |
| CYKTables.BuiltSolves | src/main/java/SyntacticParser/CYKParser.java:27-46 | a table satisfies the cell equations exactly when it solves the cell rule |
| CYKTables.TableBuilt | src/main/java/SyntacticParser/CYKParser.java:27-46 | the table built span by span satisfies every cell equation |
| CYKTables.BuiltUnique | src/main/java/SyntacticParser/CYKParser.java:27-46 | the cell equations determine the table |
| CYKTables.SettleStep | src/main/java/SyntacticParser/PartialParseList.java:22-51 | appending a node to the candidates is addPartialParse in the plain table and updatePartialParse in the probabilistic one |
| CYKTables.PairYield | src/main/java/SyntacticParser/CYKParser.java:42 | the leaves of a pair node are those of its left child, then those of its right child |
| CYKTables.UnaryYield | src/main/java/SyntacticParser/CYKParser.java:30 | a node over a single leaf covers that leaf's symbol |
| CYKTables.DerivationYield | src/main/java/SyntacticParser/CYKParser.java:27-46 | a derivation covers at least one word |
| CYKTables.SeedExact | src/main/java/SyntacticParser/CYKParser.java:28-31 | the seed nodes of a word are exactly the TERMINAL rules X -> word over it |
| CYKTables.SeedShape | src/main/java/SyntacticParser/CYKParser.java:30 | whatever the grammar, a seed node of a word is some rule's node over it |
| CYKTables.MadeShape | src/main/java/SyntacticParser/CYKParser.java:42 | whatever the grammar, a new node of a left and a right node is some rule's node over them |
| CYKTables.MadeExact | src/main/java/SyntacticParser/CYKParser.java:40-43 | the new nodes of a left and a right node are exactly the rules X -> A B over them |
| CYKTables.PairsFrom | src/main/java/SyntacticParser/CYKParser.java:36-44 | a candidate of two lists joins one node of each |
| CYKTables.PairsOf | src/main/java/SyntacticParser/CYKParser.java:36-44 | every node of the left list meets every node of the right list |
| CYKTables.CandidateFrom | src/main/java/SyntacticParser/CYKParser.java:35-45 | a candidate of cell (i, j) comes from one split point and one node on each side |
| CYKTables.CandidateOf | src/main/java/SyntacticParser/CYKParser.java:35-45 | every split point contributes its candidates |
| CYKTables.SettledWithin | src/main/java/SyntacticParser/PartialParseList.java:22-51 | what a finished cell keeps is among its candidates |
| CYKTables.SeedMember | src/main/java/SyntacticParser/CYKParser.java:27-32 | a node of a seed cell is a seed node of its word |
| CYKTables.PairMember | src/main/java/SyntacticParser/CYKParser.java:33-46 | a node of a longer cell joins a node of (i, m - 1) and a node of (m, j) |
| CYKTables.CellYield | src/main/java/SyntacticParser/CYKParser.java:27-46 | every node of cell (i, j) has the words i..j as its leaves, whatever the grammar |
| CYKTables.CellSound | src/main/java/SyntacticParser/CYKParser.java:27-46 | every node of cell (i, j) is a derivation of the grammar |
| CYKTables.SplitPoint | src/main/java/SyntacticParser/CYKParser.java:35-45 | a binary derivation of words i..j splits at a point inside the span, its children covering the two parts |
| CYKTables.SeedComplete | src/main/java/SyntacticParser/CYKParser.java:27-32 | a derivation that is not binary covers one word and is in that word's seed cell |
| CYKTables.CellComplete | src/main/java/SyntacticParser/CYKParser.java:27-46 | the plain table misses no derivation: every derivation of words i..j is in cell (i, j) |
| CYKTables.CellBest | src/main/java/ProbabilisticParser/ProbabilisticCYKParser.java:29-49 | for every derivation of words i..j the probabilistic cell (i, j) holds a node of the same category at least as probable |
| CYKTables.BestOfCandidates | src/main/java/SyntacticParser/PartialParseList.java:30-51 | for every candidate the kept cell holds a node of its category at least as probable |
| CYKTables.CellDistinct | src/main/java/ProbabilisticParser/ProbabilisticCYKParser.java:45 | a probabilistic cell spanning two words or more has one node per category |
| ProbabilisticCYKParser.BestScoreIs | src/main/java/ProbabilisticParser/ProbabilisticCYKParser.java:50-55 | the best score is at least -Double.MAX_VALUE and at least the score of every S node, and unless it stayed at its start it is one of them |
| ProbabilisticCYKParser.Chosen | src/main/java/ProbabilisticParser/ProbabilisticCYKParser.java:56-57 | a node is chosen exactly when it is an S node scoring the best |
| ProbabilisticCYKParser.ChosenAtMostOne | src/main/java/ProbabilisticParser/ProbabilisticCYKParser.java:56-63 | in a cell with one node per category at most one node is chosen |
| ProbabilisticCYKParser.ChosenNone | src/main/java/ProbabilisticParser/ProbabilisticCYKParser.java:56-63 | a cell without S nodes has none chosen |
| ProbabilisticCYKParser.BestProbability | src/main/java/ProbabilisticParser/ProbabilisticCYKParser.java:50-55 | the first loop computes the best score |
| ProbabilisticCYKParser.CollectBest | src/main/java/ProbabilisticParser/ProbabilisticCYKParser.java:56-63 | the second loop takes the chosen nodes, in order, with the X nodes removed |
| ProbabilisticCYKParser.Parse | src/main/java/ProbabilisticParser/ProbabilisticCYKParser.java:13-68 | parse normalises the words, fills the table keeping the best node per category, and returns the best S nodes of table[0][n - 1] with the saved words put back |
| ProbabilisticCYKParser.BestOptimal | src/main/java/ProbabilisticParser/ProbabilisticCYKParser.java:13-68 | every tree chosen is a parse of the words, and no parse of the words scores higher |
| ProbabilisticCYKParser.BestFound | src/main/java/ProbabilisticParser/ProbabilisticCYKParser.java:50-63 | when some parse scores at least -Double.MAX_VALUE, a tree is returned |
| ProbabilisticCYKParser.BestAtMostOne | src/main/java/ProbabilisticParser/ProbabilisticCYKParser.java:56-63 | for two words or more at most one tree is returned |
| PartialParses.FirstWith | src/main/java/SyntacticParser/PartialParseList.java:32-41 | where the search of updatePartialParse stops: the first node of the same category, or the end |
| PartialParses.UpdatedCases | src/main/java/SyntacticParser/PartialParseList.java:30-45 | a new category is appended; a strictly better node for a category present takes the old node's place at the end; a node no better changes nothing |
| PartialParses.UpdatedBest | src/main/java/SyntacticParser/PartialParseList.java:30-45 | updatePartialParse keeps the categories distinct, leaves every other category alone and keeps for the node's category exactly one node, scoring the larger of the two |
| PartialParses.FirstBestExtend | src/main/java/SyntacticParser/PartialParseList.java:34 | the first best candidate stays first best when one no better comes after it, because the test is strict |
| PartialParses.FirstBestNew | src/main/java/SyntacticParser/PartialParseList.java:34 | a candidate strictly better than every earlier one of its category is first best |
| PartialParses.SameLabelSame | src/main/java/SyntacticParser/PartialParseList.java:30-45 | in a cell with distinct categories two nodes of one category are the same node |
| PartialParses.UpdatedLabels | src/main/java/SyntacticParser/PartialParseList.java:30-45 | updatePartialParse adds the node's category to those present and no other |
| PartialParses.KeptFirstBest | src/main/java/SyntacticParser/PartialParseList.java:30-45 | from an empty cell, a run of updatePartialParse keeps exactly one node per category, the first candidate to reach that category's best log-probability |
| PartialParses.KeepsBestStep | src/main/java/SyntacticParser/PartialParseList.java:30-45 | one more candidate keeps that property |
| PartialParses.StepFirstBest | src/main/java/SyntacticParser/PartialParseList.java:30-45 | every node kept after one more candidate is first best among the candidates so far |
| PartialParses.StepNewBest | src/main/java/SyntacticParser/PartialParseList.java:34-36 | a candidate that enters the cell beats every earlier one of its category |
| PartialParses.StepCovers | src/main/java/SyntacticParser/PartialParseList.java:42-44 | every category of the candidates so far has a node in the cell |
| PartialParses.KeptStrictlyWorse | src/main/java/SyntacticParser/PartialParseList.java:34-36 | a node is replaced only by a strictly better one |
| PartialParses.PartialParseList.constructor | src/main/java/SyntacticParser/PartialParseList.java:14-16 | a new list holds no partial parse |
| PartialParses.PartialParseList.AddPartialParse | src/main/java/SyntacticParser/PartialParseList.java:22-24 | the node joins the end of the list, even when its category is already there |
| PartialParses.PartialParseList.UpdatePartialParse | src/main/java/SyntacticParser/PartialParseList.java:30-45 | the list afterwards is the updated cell UpdatedCases and UpdatedBest describe |
| TreeProbability.ChildrenUndefined | src/main/java/ProbabilisticContextFreeGrammar/ProbabilisticContextFreeGrammar.java:151-154 | once one child has no probability, the node has none |
| TreeProbability.ChildrenStep | src/main/java/ProbabilisticContextFreeGrammar/ProbabilisticContextFreeGrammar.java:151-154 | one more child adds its log-probability to the sum, or makes it undefined |
| TreeProbability.NodeProbability | src/main/java/ProbabilisticContextFreeGrammar/ProbabilisticContextFreeGrammar.java:142-158 | probability(parseNode) as written: a leaf scores 0, otherwise the log-probability of the node's rule plus, unless that rule is TERMINAL, the children's scores |
| TreeProbability.AddChildProbabilities | src/main/java/ProbabilisticContextFreeGrammar/ProbabilisticContextFreeGrammar.java:151-154 | the loop adds every child's score to the sum, or fails where one child has none |
| TreeProbability.NodeLogProbabilityBound | src/main/java/ProbabilisticContextFreeGrammar/ProbabilisticContextFreeGrammar.java:142-158 | with probabilities in (0, 1] a tree's log-probability is never positive |
| TreeProbability.ChildrenLogProbabilityBound | src/main/java/ProbabilisticContextFreeGrammar/ProbabilisticContextFreeGrammar.java:151-154 | the same for the sum over the children |
| TreeProbability.NodeLogProbabilityDefined | src/main/java/ProbabilisticContextFreeGrammar/ProbabilisticContextFreeGrammar.java:142-158 | a tree with every node named and every rule held by the grammar has a probability: no null is dereferenced |
| TreeProbability.ChildrenLogProbabilityDefined | src/main/java/ProbabilisticContextFreeGrammar/ProbabilisticContextFreeGrammar.java:151-154 | the same for a list of children |
| TreeProbability.NormalizedTreeBound | src/main/java/ProbabilisticContextFreeGrammar/ProbabilisticContextFreeGrammar.java:66-75 | after normalisation every probability is in (0, 1], so every tree's log-probability is at most 0 |
| ParseTrees.Leaf | src/main/java/SyntacticParser/CYKParser.java:30 | a leaf carries its symbol, no children and no log-probability |
| ParseTrees.Unary | src/main/java/SyntacticParser/CYKParser.java:30 | a node with one child carries its symbol and that child |
| ParseTrees.Binary | src/main/java/SyntacticParser/CYKParser.java:42 | a node with two children carries its symbol and the two children, left first |
| ParseTrees.ProbabilisticBinary | src/main/java/ProbabilisticContextFreeGrammar/ProbabilisticParseNode.java:17-20 | the two-child node plus its log-probability, which getLogProbability returns |
| ParseTrees.ProbabilisticUnary | src/main/java/ProbabilisticContextFreeGrammar/ProbabilisticParseNode.java:28-31 | the one-child node plus its log-probability |
| ParseTrees.ProbabilisticLeaf | src/main/java/ProbabilisticContextFreeGrammar/ProbabilisticParseNode.java:38-41 | the leaf plus its log-probability |
| ParseTrees.Words | src/main/java/ContextFreeGrammar/ContextFreeGrammar.java:121-122 | the words at the leaves, left to right, as the leaf collector finds them |
| ParseTrees.ChildSymbols | src/main/java/ContextFreeGrammar/ContextFreeGrammar.java:224-235 | the children's symbols, or none exactly when one child has no symbol |
| ParseTrees.ToRule | src/main/java/ContextFreeGrammar/ContextFreeGrammar.java:217-237 | toRule: the node's symbol, trimmed when asked, on the left; the children's symbols on the right, non-terminals trimmed when asked; untyped; null exactly when a child has no symbol |
| ExceptionalWords.NormalizedWord | src/main/java/ContextFreeGrammar/ContextFreeGrammar.java:127-133 | a numeral becomes _num_, any other word seen fewer than minCount times becomes _rare_, every other word stays |
| ExceptionalWords.NumIsNoNumeral | src/main/java/ContextFreeGrammar/ContextFreeGrammar.java:123-127 | neither placeholder matches the numeral patterns |
| ExceptionalWords.NumeralExamples | src/main/java/ContextFreeGrammar/ContextFreeGrammar.java:123-127 | the two patterns accept 12, +7, 3.25, .5, 4. and +. and refuse ., +, -1, 1.2.3 and the empty word |
| ExceptionalWords.NormalizedWords | src/main/java/ContextFreeGrammar/ContextFreeGrammar.java:150-159 | the word-by-word update keeps the sentence's length |
| ExceptionalWords.UpdateExceptionalWordsInSentence | src/main/java/ContextFreeGrammar/ContextFreeGrammar.java:147-160 | every word is replaced by its normalised form, with the grammar's minCount |
| ExceptionalWords.ReplaceLeaves | src/main/java/ContextFreeGrammar/ContextFreeGrammar.java:125-134 | relabelling the leaves with a list gives a tree whose leaves are exactly that list |
| ExceptionalWords.ReplaceOwnLeaves | src/main/java/ContextFreeGrammar/ContextFreeGrammar.java:125-134 | relabelling a tree with its own leaves gives it back |
| ExceptionalWords.ReplaceTwice | src/main/java/ContextFreeGrammar/ContextFreeGrammar.java:125-134 | a second relabelling overrides the first: only leaves change |
| ExceptionalWords.Named | src/main/java/ContextFreeGrammar/ContextFreeGrammar.java:173-179 | words as leaf data, one per word |
| ExceptionalWords.RelabelledWords | src/main/java/ContextFreeGrammar/ContextFreeGrammar.java:125-134 | a tree relabelled with words has those words at its leaves |
| ExceptionalWords.NormalizedTree | src/main/java/ContextFreeGrammar/ContextFreeGrammar.java:120-135 | the tree whose words are the normalised words of the tree given |
| ExceptionalWords.UpdateExceptionalWordsInTree | src/main/java/ContextFreeGrammar/ContextFreeGrammar.java:120-135 | every leaf word is normalised with the minCount given and nothing but the leaves changes |
| ExceptionalWords.Reinserted | src/main/java/ContextFreeGrammar/ContextFreeGrammar.java:174-178 | a leaf holding _rare_ or _num_ takes the sentence's word at its position; any other leaf keeps its word |
| ExceptionalWords.ReinsertedWords | src/main/java/ContextFreeGrammar/ContextFreeGrammar.java:173-179 | the words reinsertion leaves, position by position |
| ExceptionalWords.ReinsertedTree | src/main/java/ContextFreeGrammar/ContextFreeGrammar.java:170-180 | the tree whose words are the reinserted words |
| ExceptionalWords.ReinsertExceptionalWordsFromSentence | src/main/java/ContextFreeGrammar/ContextFreeGrammar.java:170-180 | the placeholders take the sentence's words at their positions and nothing but those leaves changes |
| ExceptionalWords.ReinsertRestores | src/main/java/SyntacticParser/CYKParser.java:18-22 | the round trip of the parsers: reinserting the original sentence into its normalised words gives the sentence back |
| ExceptionalWords.Put | src/main/java/ContextFreeGrammar/ContextFreeGrammar.java:104 | one put counts the word once more and no other word |
| ExceptionalWords.TallyCounts | src/main/java/ContextFreeGrammar/ContextFreeGrammar.java:98-107 | the tally counts every word as often as it occurs |
| ExceptionalWords.PutWords | src/main/java/ContextFreeGrammar/ContextFreeGrammar.java:103-105 | the inner loop puts the leaves of one tree one by one |
| ExceptionalWords.ConstructDictionary | src/main/java/ContextFreeGrammar/ContextFreeGrammar.java:98-107 | every word is counted as often as it stands at a leaf of the treebank |
| Treebank.NodeRule | src/main/java/ContextFreeGrammar/ContextFreeGrammar.java:217-237 | the rule addRules reads off a node: its trimmed symbol on the left, its children's symbols on the right with non-terminals trimmed, null exactly when a child has no symbol; the probabilistic toRule of src/main/java/ProbabilisticContextFreeGrammar/ProbabilisticContextFreeGrammar.java:88-108 gives count and probability 0 |
| Treebank.OwnRule | src/main/java/ContextFreeGrammar/ContextFreeGrammar.java:245-250 | the node's own rule, when toRule gives one, is a rule read off a tree |
| Treebank.TreeRules | src/main/java/ContextFreeGrammar/ContextFreeGrammar.java:243-257 | the rules addRules visits, in its order: the node's own rule, then those of each child that has children, left to right; a bare leaf with a symbol gives one rule with an empty right-hand side |
| Treebank.ChildRules | src/main/java/ContextFreeGrammar/ContextFreeGrammar.java:251-256 | the rules of the children that have children, left to right |
| Treebank.TreebankRules | src/main/java/ContextFreeGrammar/ContextFreeGrammar.java:84-88 | the rules of a whole treebank, tree after tree |
| Treebank.AddedChildrenIs | src/main/java/ContextFreeGrammar/ContextFreeGrammar.java:251-256 | the loop over the children adds exactly the children's rules |
| Treebank.AddAllKeeps | src/main/java/ContextFreeGrammar/ContextFreeGrammar.java:243-257 | adding the rules of a tree keeps the lists consistent, keeps every rule it had and adds nothing but rules of the tree; the grammar stays valid when no added rule has an empty right-hand side |
| Treebank.AddAllHas | src/main/java/ContextFreeGrammar/ContextFreeGrammar.java:243-257 | after adding the rules of a tree every one of them is in the grammar |
| Treebank.AddNodeRule | src/main/java/ContextFreeGrammar/ContextFreeGrammar.java:245-250 | the node's own rule, when toRule gives one, is added |
| Treebank.AddRules | src/main/java/ContextFreeGrammar/ContextFreeGrammar.java:243-257 | addRules grows the grammar by the rules of the tree in visiting order |
| Treebank.IncrementKeeps | src/main/java/ProbabilisticContextFreeGrammar/ProbabilisticRule.java:65-67 | increment raises one rule's count by one and changes nothing else |
| Treebank.AddedFresh | src/main/java/ContextFreeGrammar/ContextFreeGrammar.java:284-298 | after a miss of searchRule, addRule appends the new object and puts it in the rule list |
| Treebank.CountedChildrenIs | src/main/java/ProbabilisticContextFreeGrammar/ProbabilisticContextFreeGrammar.java:129-134 | the loop over the children counts exactly the children's rules |
| Treebank.SearchRuleIs | src/main/java/ContextFreeGrammar/ContextFreeGrammar.java:588-597 | on a valid grammar searchRule finds exactly the object equal to the rule |
| Treebank.SearchRuleMisses | src/main/java/ContextFreeGrammar/ContextFreeGrammar.java:588-597 | searchRule answers null when no object is equal to the rule |
| Treebank.CountedFound | src/main/java/ProbabilisticContextFreeGrammar/ProbabilisticContextFreeGrammar.java:123-125 | on a hit the found object is incremented: the count held for rules equal to it grows by one, and only for those |
| Treebank.CountedAddedShape | src/main/java/ProbabilisticContextFreeGrammar/ProbabilisticContextFreeGrammar.java:120-122 | on a miss the rule is appended and put in the list, then its count goes from 0 to 1 |
| Treebank.CountedAdded | src/main/java/ProbabilisticContextFreeGrammar/ProbabilisticContextFreeGrammar.java:120-122 | a rule searchRule misses is added with count 1, and the counts held for other rules stay |
| Treebank.CountedAddedOther | src/main/java/ProbabilisticContextFreeGrammar/ProbabilisticContextFreeGrammar.java:120-122 | adding a rule leaves the count held for every other rule alone |
| Treebank.AddedKeepsHit | src/main/java/ContextFreeGrammar/ContextFreeGrammar.java:284-298 | a rule searchRule found before an addRule it still finds, at the same object |
| Treebank.AddedKeepsMiss | src/main/java/ContextFreeGrammar/ContextFreeGrammar.java:284-298 | a rule searchRule missed before an addRule of a different rule it still misses |
| Treebank.CountedPositive | src/main/java/ProbabilisticContextFreeGrammar/ProbabilisticContextFreeGrammar.java:117-128 | counting keeps counted rules counted |
| Treebank.CountAllCounts | src/main/java/ProbabilisticContextFreeGrammar/ProbabilisticContextFreeGrammar.java:114-135 | after counting rules the count held for every rule is the old one plus its occurrences among them, and the grammar stays valid |
| Treebank.CountedStep | src/main/java/ProbabilisticContextFreeGrammar/ProbabilisticContextFreeGrammar.java:117-128 | counting one rule raises the count held for each rule by one exactly when it equals the counted one |
| Treebank.CountNodeRule | src/main/java/ProbabilisticContextFreeGrammar/ProbabilisticContextFreeGrammar.java:117-128 | the node's own rule is searched; a miss adds it; the object found or added is incremented |
| Treebank.AddCountedRules | src/main/java/ProbabilisticContextFreeGrammar/ProbabilisticContextFreeGrammar.java:114-135 | the probabilistic addRules counts the rules of the tree in visiting order |
| Treebank.InducedCounts | src/main/java/ProbabilisticContextFreeGrammar/ProbabilisticContextFreeGrammar.java:59-64 | from an empty grammar a rule is held exactly when some inner node produces it, with the number of such nodes as its count |
| Normalization.ShareScales | src/main/java/ProbabilisticContextFreeGrammar/ProbabilisticRule.java:73-75 | normalizeProbability makes probability times total equal to the count |
| Normalization.ShareBounds | src/main/java/ProbabilisticContextFreeGrammar/ProbabilisticRule.java:73-75 | a count between 1 and the total gives a probability in (0, 1] |
| Normalization.SumCountsAtLeast | src/main/java/ProbabilisticContextFreeGrammar/ProbabilisticContextFreeGrammar.java:69-71 | each count is at most the total it is part of |
| Normalization.SumScaled | src/main/java/ProbabilisticContextFreeGrammar/ProbabilisticContextFreeGrammar.java:72-74 | probabilities normalised by one total sum to the sum of the counts over that total |
| Normalization.SameCountsKeeps | src/main/java/ProbabilisticContextFreeGrammar/ProbabilisticContextFreeGrammar.java:72-74 | rewriting probabilities keeps the grammar valid and changes neither the candidates nor the total of any left-hand side |
| Normalization.TotalPositive | src/main/java/ProbabilisticContextFreeGrammar/ProbabilisticContextFreeGrammar.java:67-71 | the total of a rule's left-hand side is at least its count and at least 1, so no division by zero |
| Normalization.LeftSideTotal | src/main/java/ProbabilisticContextFreeGrammar/ProbabilisticContextFreeGrammar.java:67-71 | every left-hand side has a total of at least 1 |
| Normalization.SumCandidates | src/main/java/ProbabilisticContextFreeGrammar/ProbabilisticContextFreeGrammar.java:68-71 | the first inner loop sums the counts of the candidates |
| Normalization.NormalizeCandidates | src/main/java/ProbabilisticContextFreeGrammar/ProbabilisticContextFreeGrammar.java:72-74 | the second inner loop normalises every candidate by the total and changes nothing else |
| Normalization.NormalizeStep | src/main/java/ProbabilisticContextFreeGrammar/ProbabilisticContextFreeGrammar.java:66-75 | one pass of the outer loop normalises the rules of one more left-hand side |
| Normalization.NormalizedAll | src/main/java/ProbabilisticContextFreeGrammar/ProbabilisticContextFreeGrammar.java:65-75 | once every left-hand side is done, every rule is normalised |
| Normalization.NormalizeProbabilities | src/main/java/ProbabilisticContextFreeGrammar/ProbabilisticContextFreeGrammar.java:65-75 | the normalisation loop leaves every rule's probability its count over the total of its left-hand side |
| Normalization.NormalizedKeeps | src/main/java/ProbabilisticContextFreeGrammar/ProbabilisticContextFreeGrammar.java:65-75 | normalising keeps the grammar valid and every count, and changes no answer of searchRule or getRulesWithLeftSideX |
| Normalization.NormalizedShare | src/main/java/ProbabilisticContextFreeGrammar/ProbabilisticContextFreeGrammar.java:65-75 | every rule after normalisation is the rule before, normalised by the total of its left-hand side |
| Normalization.ProbabilityBounds | src/main/java/ProbabilisticContextFreeGrammar/ProbabilisticContextFreeGrammar.java:65-75 | each probability lies in (0, 1] |
| Normalization.SharesSumToOne | src/main/java/ProbabilisticContextFreeGrammar/ProbabilisticContextFreeGrammar.java:69-74 | rules normalised by the sum of their own counts have probabilities summing to 1 |
| Normalization.SumsToOne | src/main/java/ProbabilisticContextFreeGrammar/ProbabilisticContextFreeGrammar.java:65-75 | the probabilities of the rules of every left-hand side sum to 1 |
| Induction.NormalizedTreeUsable | src/main/java/ContextFreeGrammar/ContextFreeGrammar.java:120-135 | normalising the words of a tree leaves it readable by addRules |
| Induction.NormalizedTrees | src/main/java/ContextFreeGrammar/ContextFreeGrammar.java:84-88 | the treebank after updateExceptionalWordsInTree on each tree |
| Induction.TreebankRulesStep | src/main/java/ContextFreeGrammar/ContextFreeGrammar.java:84-88 | one more tree adds its rules after those of the trees before it |
| Induction.PlainGrammar | src/main/java/ContextFreeGrammar/ContextFreeGrammar.java:82-91 | the plain constructor's grammar holds exactly the rules of its normalised treebank, each typed after updateTypes |
| Induction.AddedGrammar | src/main/java/ContextFreeGrammar/ContextFreeGrammar.java:284-298 | the rules added one by one to the empty grammar are all held and nothing else is; exactly held when none has an empty right-hand side |
| Induction.SameShapesExact | src/main/java/ContextFreeGrammar/ContextFreeGrammar.java:187-206 | changing only what an object stores besides its sides keeps the rules held |
| Induction.SameScoresQueries | src/main/java/ContextFreeGrammar/ContextFreeGrammar.java:187-206 | changing only rule types changes no answer of searchRule or getRulesWithLeftSideX, and no count, total or sum of probabilities |
| Induction.SameScoresValid | src/main/java/ContextFreeGrammar/ContextFreeGrammar.java:187-206 | nor validity, the probabilities present, or the left-hand sides |
| Induction.RetypedScores | src/main/java/ContextFreeGrammar/ContextFreeGrammar.java:187-206 | updateTypes changes types only |
| Induction.NormalizedGrammar | src/main/java/ProbabilisticContextFreeGrammar/ProbabilisticContextFreeGrammar.java:65-75 | the normalised counts of the induced grammar give every rule its count and its share of its left-hand side |
| Induction.NormalizedCounts | src/main/java/ProbabilisticContextFreeGrammar/ProbabilisticContextFreeGrammar.java:65-75 | normalising changes no count searchRule sees |
| Induction.NormalizedSums | src/main/java/ProbabilisticContextFreeGrammar/ProbabilisticContextFreeGrammar.java:65-75 | after normalising the probabilities of each left-hand side sum to 1 |
| Induction.TypedGrammar | src/main/java/ProbabilisticContextFreeGrammar/ProbabilisticContextFreeGrammar.java:76 | updateTypes after normalisation keeps every promise and types every rule |
| Induction.ShareFacts | src/main/java/ProbabilisticContextFreeGrammar/ProbabilisticContextFreeGrammar.java:72-74 | in the normalised grammar probability times the total of the left-hand side is the count, and the probability is in (0, 1] |
| Induction.ShareKeeps | src/main/java/ProbabilisticContextFreeGrammar/ProbabilisticRule.java:73-75 | normalizeProbability keeps both sides and the count |
| Induction.NormalizedTotals | src/main/java/ProbabilisticContextFreeGrammar/ProbabilisticContextFreeGrammar.java:65-75 | normalising changes no total |
| Induction.ProbabilisticGrammar | src/main/java/ProbabilisticContextFreeGrammar/ProbabilisticContextFreeGrammar.java:55-78 | the probabilistic constructor's grammar holds exactly the rules of its normalised treebank, each counted by its occurrences, with its share of its left-hand side's count as probability, and typed |
| RuleIndex.Contents | src/main/java/ContextFreeGrammar/ContextFreeGrammar.java:19 | the rules of the grammar are the objects of the rules list, in its order |
| RuleIndex.EmptyValid | src/main/java/ContextFreeGrammar/ContextFreeGrammar.java:18-21 | the empty grammar, both lists empty, meets the invariant (both lists sorted, no duplicates, same objects) |
| RuleIndex.RightMembers | src/main/java/ContextFreeGrammar/ContextFreeGrammar.java:19-20 | every object of rulesRightSorted is one of rules |
| RuleIndex.RulesPartitioned | src/main/java/ContextFreeGrammar/ContextFreeGrammar.java:288 | rules sorted by RuleComparator is partitioned for a binary search by any rule |
| RuleIndex.LeftPartitioned | src/main/java/ContextFreeGrammar/ContextFreeGrammar.java:343 | rules sorted by RuleComparator is partitioned for a binary search by left-hand side |
| RuleIndex.RightPartitioned | src/main/java/ContextFreeGrammar/ContextFreeGrammar.java:291 | rulesRightSorted is partitioned for a binary search by right-hand side |
| RuleIndex.DistinctPositionsDiffer | src/main/java/ContextFreeGrammar/ContextFreeGrammar.java:284-298 | no two positions of rules hold rules equal under RuleComparator |
| RuleIndex.Added | src/main/java/ContextFreeGrammar/ContextFreeGrammar.java:284-298 | addRule either changes nothing, and then an equal rule is there, or inserts one fresh object into both lists |
| RuleIndex.RuleSlot | src/main/java/ContextFreeGrammar/ContextFreeGrammar.java:289 | a missed search inserts at a position within the list |
| RuleIndex.RightSlot | src/main/java/ContextFreeGrammar/ContextFreeGrammar.java:292-296 | rulesRightSorted receives the new object at the hit or at the insertion point, within the list |
| RuleIndex.AddedHasRule | src/main/java/ContextFreeGrammar/ContextFreeGrammar.java:284-298 | after addRule a rule equal to the added one is in the grammar |
| RuleIndex.StoreExtended | src/main/java/ContextFreeGrammar/ContextFreeGrammar.java:289 | allocating a new object changes nothing the old objects hold, nor either order |
| RuleIndex.AddedValid | src/main/java/ContextFreeGrammar/ContextFreeGrammar.java:284-298 | addRule is a no-op exactly when an equal rule is present, and otherwise keeps both lists sorted and duplicate-free with the same objects |
| RuleIndex.AddedSorted | src/main/java/ContextFreeGrammar/ContextFreeGrammar.java:287-297 | inserting at the two search positions keeps the invariant |
| RuleIndex.InsertedValid | src/main/java/ContextFreeGrammar/ContextFreeGrammar.java:289-296 | a fresh object inserted into both lists at places that keep them sorted gives a valid grammar |
| RuleIndex.InsertedConsistent | src/main/java/ContextFreeGrammar/ContextFreeGrammar.java:289-296 | inserting one fresh object into both lists keeps them holding the same objects |
| RuleIndex.InsertedNonEmpty | src/main/java/ContextFreeGrammar/ContextFreeGrammar.java:289 | inserting a rule with a right-hand side keeps every rule with one |
| RuleIndex.InsertedAt | src/main/java/ContextFreeGrammar/ContextFreeGrammar.java:289 | ArrayList.add(i, x) shifts the elements from i up by one |
| RuleIndex.InsertFresh | src/main/java/ContextFreeGrammar/ContextFreeGrammar.java:289 | inserting an object not yet in a list keeps it duplicate-free |
| RuleIndex.AddedRulesSorted | src/main/java/ContextFreeGrammar/ContextFreeGrammar.java:287-289 | inserting at the insertion point of a missed search keeps rules strictly sorted |
| RuleIndex.AddedRightSorted | src/main/java/ContextFreeGrammar/ContextFreeGrammar.java:291-296 | inserting at the hit or insertion point keeps rulesRightSorted sorted |
| RuleIndex.RightBelow | src/main/java/ContextFreeGrammar/ContextFreeGrammar.java:291-296 | every entry before the right-hand insertion place has a right-hand side no greater |
| RuleIndex.RightAbove | src/main/java/ContextFreeGrammar/ContextFreeGrammar.java:291-296 | every entry from the right-hand insertion place on has a right-hand side no smaller |
| RuleIndex.RightHit | src/main/java/ContextFreeGrammar/ContextFreeGrammar.java:307-311 | when rules holds a rule equal to r, rulesRightSorted holds its object and the search by right-hand side hits |
| RuleIndex.RightRemoval | src/main/java/ContextFreeGrammar/ContextFreeGrammar.java:311-327 | the scan of removeRule ends at an index of rulesRightSorted or finds nothing |
| RuleIndex.Removed | src/main/java/ContextFreeGrammar/ContextFreeGrammar.java:304-329 | removeRule leaves the objects themselves alone |
| RuleIndex.RuleHit | src/main/java/ContextFreeGrammar/ContextFreeGrammar.java:307-309 | the hit of the search lies within rules |
| RuleIndex.SameRightConvex | src/main/java/ContextFreeGrammar/ContextFreeGrammar.java:313-327 | the entries sharing r's right-hand side form one block of rulesRightSorted |
| RuleIndex.OnlyMatch | src/main/java/ContextFreeGrammar/ContextFreeGrammar.java:314-322 | the only entry of rulesRightSorted equal to r is the object removed from rules |
| RuleIndex.MatchUnique | src/main/java/ContextFreeGrammar/ContextFreeGrammar.java:314-322 | exactly one entry of rulesRightSorted is equal to r |
| RuleIndex.RightRemovalFinds | src/main/java/ContextFreeGrammar/ContextFreeGrammar.java:311-327 | the upward then downward scan finds the position of that object |
| RuleIndex.ScanFinds | src/main/java/ContextFreeGrammar/ContextFreeGrammar.java:312-327 | two scans from a point inside a block, up then down, find the one matching entry of the block |
| RuleIndex.DistinctAt | src/main/java/ContextFreeGrammar/ContextFreeGrammar.java:19-20 | in a duplicate-free list equal entries sit at the same position |
| RuleIndex.FoundExactly | src/main/java/ContextFreeGrammar/ContextFreeGrammar.java:588-597 | the search of rules hits exactly when an equal rule is present, and the hit is its position |
| RuleIndex.RemovedPairValid | src/main/java/ContextFreeGrammar/ContextFreeGrammar.java:309-323 | removing one object from both lists keeps the invariant |
| RuleIndex.RemovedValid | src/main/java/ContextFreeGrammar/ContextFreeGrammar.java:304-329 | removeRule changes nothing when no equal rule is present, otherwise removes that rule's object from both lists and nothing else, and keeps the invariant |
| RuleIndex.LhsConvex | src/main/java/ContextFreeGrammar/ContextFreeGrammar.java:345-354 | the rules with one left-hand side form one block of rules |
| RuleIndex.RhsConvex | src/main/java/ContextFreeGrammar/ContextFreeGrammar.java:431-440 | the rules with one right-hand side form one block of rulesRightSorted |
| RuleIndex.StartConvex | src/main/java/ContextFreeGrammar/ContextFreeGrammar.java:400-413 | the rules whose right-hand side starts with one symbol form one block of rulesRightSorted |
| RuleIndex.RulesWithLeftSideExact | src/main/java/ContextFreeGrammar/ContextFreeGrammar.java:338-357 | getRulesWithLeftSideX returns every rule X -> ... of the grammar and nothing else, each once |
| RuleIndex.TerminalRulesWithRightSideExact | src/main/java/ContextFreeGrammar/ContextFreeGrammar.java:393-416 | getTerminalRulesWithRightSideX returns every terminal rule X -> s and nothing else, each once |
| RuleIndex.RulesWithRightSideExact | src/main/java/ContextFreeGrammar/ContextFreeGrammar.java:424-443 | getRulesWithRightSideX returns every rule X -> S and nothing else, each once |
| RuleIndex.RulesWithTwoOnRightSideExact | src/main/java/ContextFreeGrammar/ContextFreeGrammar.java:452-472 | getRulesWithTwoNonTerminalsOnRightSide returns every rule X -> A B and nothing else, each once |
| RuleIndex.PartOfSpeechTags | src/main/java/ContextFreeGrammar/ContextFreeGrammar.java:363-371 | the left-hand sides of the terminal rules, each once |
| RuleIndex.LeftSides | src/main/java/ContextFreeGrammar/ContextFreeGrammar.java:377-385 | every left-hand side of the grammar, each once |
| RuleIndex.SearchRule | src/main/java/ContextFreeGrammar/ContextFreeGrammar.java:588-597 | a found object is in rules and equal to the rule searched |
| RuleIndex.SearchRuleExact | src/main/java/ContextFreeGrammar/ContextFreeGrammar.java:588-597 | searchRule answers null exactly when no equal rule is there, and otherwise that rule's object |
| RuleIndex.Size | src/main/java/ContextFreeGrammar/ContextFreeGrammar.java:603-605 | size is the number of rules, which is also the length of rulesRightSorted |
| RuleIndex.AddRule | src/main/java/ContextFreeGrammar/ContextFreeGrammar.java:284-298 | the method with binarySearch and ArrayList.add computes addRule as specified |
| RuleIndex.AddedIs | src/main/java/ContextFreeGrammar/ContextFreeGrammar.java:287-296 | addRule after a miss, spelled out from the two search results |
| RuleIndex.RemoveRule | src/main/java/ContextFreeGrammar/ContextFreeGrammar.java:304-329 | the method with the two scan loops computes removeRule as specified |
| RuleIndex.RightRemovalIs | src/main/java/ContextFreeGrammar/ContextFreeGrammar.java:311-327 | the scan of removeRule spelled out from the search hit |
| RuleIndex.RemovedIs | src/main/java/ContextFreeGrammar/ContextFreeGrammar.java:307-327 | removeRule spelled out once the search has hit and the scan has ended |
| RuleIndex.StoreGrowsAt | src/main/java/ContextFreeGrammar/ContextFreeGrammar.java:289 | objects allocated earlier keep what they hold |
| RuleIndex.StoreGrowsTransitive | src/main/java/ContextFreeGrammar/ContextFreeGrammar.java:289 | so over several allocations too |
| RuleIndex.AddedKeeps | src/main/java/ContextFreeGrammar/ContextFreeGrammar.java:284-298 | addRule keeps both lists holding the same objects, keeps every property the new rule shares, and only ever adds that rule |
| RuleIndex.InsertedKeeps | src/main/java/ContextFreeGrammar/ContextFreeGrammar.java:289-296 | inserting one fresh object keeps the lists consistent and allocates one object |
| RuleIndex.RemovedKeeps | src/main/java/ContextFreeGrammar/ContextFreeGrammar.java:304-329 | removeRule keeps every property of the rules and only takes objects away |
| RuleIndex.RemovedObject | src/main/java/ContextFreeGrammar/ContextFreeGrammar.java:304-309 | removing the rule of an object of rules takes exactly that object out |
| RuleIndex.RemoveMembers | src/main/java/ContextFreeGrammar/ContextFreeGrammar.java:309 | ArrayList.remove(k) on a duplicate-free list leaves everything but the k-th element |
| RuleIndex.SameShapesValid | src/main/java/ContextFreeGrammar/ContextFreeGrammar.java:187-206 | changing only types, counts or probabilities keeps both lists sorted, since the comparators read the two sides only |
| RuleIndex.RulesAllAt | src/main/java/ContextFreeGrammar/ContextFreeGrammar.java:19 | a property of every rule holds of each object of rules |
| RuleIndex.SameShapesAt | src/main/java/ContextFreeGrammar/ContextFreeGrammar.java:187-206 | objects keeping their sides keep what the comparators read |
| RuleIndex.SameShapesQueries | src/main/java/ContextFreeGrammar/ContextFreeGrammar.java:187-206 | such changes give the same answers from searchRule and getRulesWithLeftSideX |

## Left out

- File input and output are not modelled. This covers the rule-file and lexicon-reading constructors of all three grammars, `readDictionary`, `writeToFile` of the grammars and of `Chart`, and the legacy file constructor that builds two rule objects per line. Only the per-line parsing of `Rule(String)` and `ProbabilisticRule(String)` is modelled.
- `Rules.ParseRule`: a line without `->`, where Java's `substring` would throw, gives `None`.
- Timing (`System.currentTimeMillis`) and console output (`println`) carry no logic and are left out.
- The Swing annotation panels, the test drivers and the JUnit tests are not part of this model. The two parser interfaces are declarations only.
- Floating point: probabilities and log-probabilities are reals, with no rounding or overflow. `Math.log` is the parameter `ln`, and the decimal printing of a `double` is the parameter `show`.
- Counts are unbounded naturals. The 32-bit `int` wrap-around of `ProbabilisticRule.count` is not modelled, because no treebank comes near it.
- `Symbol.isTerminal`, `Symbol.trimSymbol` and `Word.isPunctuation` come from libraries that are not part of this model; they are the fields of an `Oracle` parameter. `Sentence` and `Word` are sequences of strings, and `CounterHashMap` is a map to naturals.
- `ParseTree.correctParents`, and the parent links it sets, are not modelled: trees are values without parent pointers.
- `removeXNodes` is not part of this model. The CYK parsers take it as a parameter `strip` that keeps the leaves of a tree.
- `removeExceptionalWordsFromSentence`, called by both CYK parsers, is not part of this model. `updateExceptionalWordsInSentence` stands in for it, and the normalised words are returned beside the trees.
- `CYKParser.Parse`, `ProbabilisticCYKParser.Parse`: require a non-empty sentence. On an empty one the source reads `table[0]` of an empty array and throws.
- The CYK table is a map from (i, j) to the contents of each cell, not a 2-D array of `PartialParseList` objects. A fresh `PartialParseList` gathers each cell and hands back its contents. The source's cells are never shared. The `ParseNode` objects in them are: one node sits in several cells and under several returned roots. `removeXNodes` and the reinsertion of exceptional words then change these shared nodes in place, once per root. Both changes are idempotent, so the trees returned are the ones the value model computes.
- The grammar queries the parsers call (`getRulesWithTwoNonTerminalsOnRightSide`, `getTerminalRulesWithRightSideX`, `getRulesWithLeftSideX`, `partOfSpeechTags`) are read as values computed once from the grammar (`CYKTables.QueriesOf`, `EarleyParser.LookupsOf`). They are proved equal to what the grammar's methods return. The parsers do not change the grammar.
- `EarleyParser.ProcessPosition`, `EarleyParser.ConstructChart`: the loop over a chart that grows while it is scanned is bounded by a `fuel` parameter. No termination argument was carried out for the unbounded loop, so a run that needs more steps than `fuel` stops early. What is proved (every entry is a sound item) holds for any fuel.
- `EarleyParser.Parse`, `ProbabilisticEarleyParser.Parse`: soundness only. Every tree returned is an `S` tree covering the sentence. The converse, that every parse of the sentence is found, is not proved.
- `predictedList` and `completedList`, instance fields in the source, are local to each call of `constructChart`. `completedList` is a set of its string keys, since only membership is ever asked.
- The casts to `ProbabilisticRule` in the probabilistic parsers and in `probability` are not modelled as exceptions. The parsers instead require every rule of the grammar to carry a probability (`AllProbabilistic`), which the probabilistic constructor guarantees.
- `Grammar.ContextFreeGrammar.FromTreebank`: every tree must be `Usable`. Its root has children, every inner node carries a symbol, and every leaf carries a word. On a tree that is a bare leaf the source adds a rule with an empty right-hand side, and `updateTypes` then throws on `getRightHandSideAt(0)`. On a node without a symbol, `trimSymbol` or the word update throws a NullPointerException. These exception paths are not modelled.
- `Grammar.ContextFreeGrammar.ProbabilisticFromTreebank`: the same `Usable` requirement and the same exception paths left out, for the same reasons.
- `LegacyGrammar.LegacyContextFreeGrammar.FromTreebank`: every tree must be `Rooted`, that is, every inner node, and a root that is a bare leaf, carries a symbol. A missing symbol makes `trimSymbol` throw a NullPointerException in the source, and that path is not modelled. A bare-leaf root with a symbol is modelled: it adds the rule with an empty right-hand side.
- `LegacyGrammar.LegacyContextFreeGrammar.RemoveRule` and the legacy `ConvertToChomskyNormalForm` require a valid grammar, which has no rule with an empty right-hand side. What they do on a grammar built from a bare-leaf tree is not modelled.
- `Treebank.TreeRules`, `Treebank.TreebankRules`, `Treebank.AddRules`: require `Rooted` trees, for the same NullPointerException.
- `Charts.Chart.AddOrUpdate`: the `middle > 0` test of src/main/java/SyntacticParser/Chart.java:57 is modelled as `middle >= 0`. The as-written update is `Charts.UpdatedAsWritten`, and the two are compared in the Findings row for that line.
- `Charts.Chart.GetNextCategoryX`: the `middle > 0` test of src/main/java/SyntacticParser/Chart.java:109 is modelled as `middle >= 0`. The as-written query is `Charts.WaitingForAsWritten`, and the two are compared in the Findings row for that line.
- `EarleyParser.UpdateAt`: calls the corrected `addOrUpdate`, so the `middle > 0` of src/main/java/SyntacticParser/Chart.java:57 is modelled as `middle >= 0`.
- `EarleyParser.Completer`: calls the corrected `getNextCategoryX`, so the `middle > 0` of src/main/java/SyntacticParser/Chart.java:109 is modelled as `middle >= 0`. As written, the source's completer skips an entry waiting for B when the search hits index 0.
- `JavaString.HashCode`, `Rules.HashCode`: the hash is taken over Unicode scalar values. Java's `String.hashCode` runs over UTF-16 code units, so for text with characters above U+FFFF the two hash codes differ.
- `JavaString.CompareTo`: compares strings character by character, where a Dafny character is a Unicode scalar value. Java's `String.compareTo` compares UTF-16 code units. The two orders differ only on strings with characters above U+FFFF, which Java stores as surrogate pairs.
- `LegacyGrammar.LegacyContextFreeGrammar.ConvertToChomskyNormalForm`: modelled on grammars of untyped rules only. Those are the only grammars the legacy constructors build, and on them both passes find no candidate.

## Findings

| source | as written | input that shows it | evidently intended | confidence | as-written member | corrected member |
|---|---|---|---|---|---|---|
| src/main/java/SyntacticParser/Chart.java:109 | `getNextCategoryX` collects only when the search hit `middle > 0` | a chart whose next-category list holds one entry waiting for X: the search hits index 0 and nothing is returned | `middle >= 0`: every entry waiting for X is returned | not executed | Charts.NextCategoryMissesFirst | Charts.WaitingForExact |
| src/main/java/SyntacticParser/Chart.java:57 | `addOrUpdate` replaces the old entry in the next-category list only when that search hit `middle > 0` | a one-entry chart updated with a better entry for the same item: the old entry stays in the next-category list | `middle >= 0`: the better entry replaces the old one in both sorted lists (the discovery list keeps the old entry, as it does in every case) | not executed | Charts.UpdateMissesFirst | Charts.UpdatedReplaces, Charts.UpdatedSorted |
