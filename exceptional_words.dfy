/** Rare words and numerals.  Before rules are read off a treebank, every leaf that looks like a
    number becomes the terminal "_num_" and every leaf seen fewer than minCount times becomes
    "_rare_"; a sentence to be parsed gets the same treatment, and after parsing the original words
    are put back at the leaves that hold one of the two placeholders.  Trees are values here: a
    method that relabels leaves returns the relabelled tree. */
module ExceptionalWords {
  import opened Wrappers
  import opened Rules
  import opened ParseTrees

  const Num: Symbol := "_num_"
  const Rare: Symbol := "_rare_"

  predicate IsDigit(c: char) { '0' <= c <= '9' }

  predicate AllDigits(s: string) { forall k :: 0 <= k < |s| ==> IsDigit(s[k]) }

  /** The text after the optional leading '+' of both patterns. */
  function Unsigned(s: string): (t: string)
    ensures |t| <= |s| && (s != [] && s[0] == '+' ==> |t| == |s| - 1)
  {
    if s != [] && s[0] == '+' then s[1..] else s
  }

  /** The pattern \+?\d+ matches the whole text. */
  predicate IntegerShape(s: string)
  {
    var t := Unsigned(s);
    t != [] && AllDigits(t)
  }

  /** The unsigned text is digits, the dot at p, digits. */
  predicate DecimalAt(t: string, p: int)
  {
    0 <= p < |t| && t[p] == '.' && AllDigits(t[..p]) && AllDigits(t[p + 1..])
  }

  /** The pattern \+?(\d+)?\.\d* matches the whole text. */
  predicate DecimalShape(s: string)
  {
    exists p | 0 <= p < |Unsigned(s)| :: DecimalAt(Unsigned(s), p)
  }

  /** The test of both update methods: an integer, or a decimal other than the lone dot. */
  predicate IsNumeral(s: string)
  {
    IntegerShape(s) || (DecimalShape(s) && s != ".")
  }

  /** CounterHashMap.count: how often the word was put, 0 for a word never seen. */
  function Count(dictionary: map<string, nat>, w: string): nat
  {
    if w in dictionary then dictionary[w] else 0
  }

  /** What one word becomes: "_num_" for a numeral, else "_rare_" below minCount, else itself. */
  function NormalizedWord(w: string, dictionary: map<string, nat>, minCount: int): (r: string)
    ensures r == w || r == Num || r == Rare
    ensures IsNumeral(w) ==> r == Num
    ensures !IsNumeral(w) && Count(dictionary, w) < minCount ==> r == Rare
    ensures r != w ==> (r == Num && IsNumeral(w)) || (r == Rare && !IsNumeral(w) && Count(dictionary, w) < minCount)
  {
    NumIsNoNumeral();
    if IsNumeral(w) then Num
    else if Count(dictionary, w) < minCount then Rare
    else w
  }

  /** Neither placeholder looks like a number, so the update leaves each placeholder a placeholder. */
  lemma NumIsNoNumeral()
    ensures !IsNumeral(Num) && !IsNumeral(Rare)
  {
    assert !IsDigit(Num[0]) && !IsDigit(Rare[0]);
    assert Unsigned(Num) == Num && Unsigned(Rare) == Rare;
    assert !AllDigits(Num) && !AllDigits(Rare);
    forall p | 0 <= p < |Num| ensures !DecimalAt(Num, p) {
      assert Num[p] != '.';
    }
    forall p | 0 <= p < |Rare| ensures !DecimalAt(Rare, p) {
      assert Rare[p] != '.';
    }
  }

  /** What the two patterns accept and refuse, on the shapes where they differ. */
  lemma NumeralExamples()
    ensures IsNumeral("12") && IsNumeral("+7") && IsNumeral("3.25") && IsNumeral(".5") && IsNumeral("4.")
    ensures IsNumeral("+.")
    ensures !IsNumeral(".") && !IsNumeral("+") && !IsNumeral("-1") && !IsNumeral("1.2.3") && !IsNumeral("")
  {
    assert DecimalAt("3.25", 1);
    assert DecimalAt(".5", 0);
    assert DecimalAt("4.", 1);
    assert Unsigned("+.") == "." && DecimalAt(".", 0);
    assert !AllDigits("-1") by { assert !IsDigit("-1"[0]); }
    forall p | 0 <= p < 2 ensures !DecimalAt("-1", p) {
      assert "-1"[p] != '.';
    }
    assert !AllDigits("1.2.3") by { assert !IsDigit("1.2.3"[1]); }
    forall p | 0 <= p < 5 ensures !DecimalAt("1.2.3", p) {
      if p == 1 {
        assert !AllDigits("1.2.3"[2..]) by { assert "1.2.3"[2..][1] == '.'; }
      } else if p == 3 {
        assert !AllDigits("1.2.3"[..3]) by { assert "1.2.3"[..3][1] == '.'; }
      } else {
        assert "1.2.3"[p] != '.';
      }
    }
    assert !AllDigits(".") by { assert !IsDigit("."[0]); }
  }

  /** The word-by-word update of a whole sentence. */
  function NormalizedWords(ws: seq<string>, dictionary: map<string, nat>, minCount: int): (rs: seq<string>)
    ensures |rs| == |ws|
  {
    seq(|ws|, k requires 0 <= k < |ws| => NormalizedWord(ws[k], dictionary, minCount))
  }

  /** updateExceptionalWordsInSentence: every word of the sentence replaced by its normalised
      form, with the grammar's minCount as the threshold. */
  method UpdateExceptionalWordsInSentence(sentence: seq<string>, dictionary: map<string, nat>, minCount: int)
    returns (sentence': seq<string>)
    ensures |sentence'| == |sentence|
    ensures forall i :: 0 <= i < |sentence| ==> sentence'[i] == NormalizedWord(sentence[i], dictionary, minCount)
  {
    sentence' := sentence;
    var i := 0;
    while i < |sentence|
      invariant 0 <= i <= |sentence| && |sentence'| == |sentence|
      invariant forall k :: 0 <= k < i ==> sentence'[k] == NormalizedWord(sentence[k], dictionary, minCount)
      invariant forall k :: i <= k < |sentence| ==> sentence'[k] == sentence[k]
    {
      var word := sentence'[i];
      if IsNumeral(word) {
        sentence' := sentence'[i := Num];
      } else if Count(dictionary, word) < minCount {
        sentence' := sentence'[i := Rare];
      }
      i := i + 1;
    }
  }

  /** The tree with its leaves relabelled, left to right, by ls; inner nodes stay as they are and
      the new leaves are exactly ls. */
  function ReplaceLeaves(n: ParseNode, ls: seq<Option<Symbol>>): (m: ParseNode)
    requires |ls| == |Yield(n)|
    ensures Yield(m) == ls
    decreases n, 1
  {
    if n.children == [] then n.(data := ls[0]) else n.(children := ReplaceChildren(n.children, ls))
  }

  function ReplaceChildren(ns: seq<ParseNode>, ls: seq<Option<Symbol>>): (ms: seq<ParseNode>)
    requires |ls| == |YieldOf(ns)|
    ensures |ms| == |ns| && YieldOf(ms) == ls
    decreases ns, 0
  {
    if ns == [] then []
    else
      var k := |Yield(ns[0])|;
      var ms := [ReplaceLeaves(ns[0], ls[..k])] + ReplaceChildren(ns[1..], ls[k..]);
      assert ms[0] == ReplaceLeaves(ns[0], ls[..k]) && ms[1..] == ReplaceChildren(ns[1..], ls[k..]);
      assert ls == ls[..k] + ls[k..];
      ms
  }

  /** Relabelling with a tree's own leaves gives back the tree. */
  lemma {:induction false} ReplaceOwnLeaves(n: ParseNode)
    ensures ReplaceLeaves(n, Yield(n)) == n
    decreases n, 1
  {
    if n.children != [] {
      ReplaceOwnChildren(n.children);
    }
  }

  lemma {:induction false} ReplaceOwnChildren(ns: seq<ParseNode>)
    ensures ReplaceChildren(ns, YieldOf(ns)) == ns
    decreases ns, 0
  {
    if ns != [] {
      var k := |Yield(ns[0])|;
      assert YieldOf(ns)[..k] == Yield(ns[0]) && YieldOf(ns)[k..] == YieldOf(ns[1..]);
      ReplaceOwnLeaves(ns[0]);
      ReplaceOwnChildren(ns[1..]);
      assert ns == [ns[0]] + ns[1..];
    }
  }

  /** A second relabelling overrides the first: relabelling changes leaves and nothing else. */
  lemma {:induction false} ReplaceTwice(n: ParseNode, a: seq<Option<Symbol>>, b: seq<Option<Symbol>>)
    requires |a| == |Yield(n)| && |b| == |Yield(n)|
    ensures ReplaceLeaves(ReplaceLeaves(n, a), b) == ReplaceLeaves(n, b)
    decreases n, 1
  {
    if n.children != [] {
      ReplaceChildrenTwice(n.children, a, b);
    }
  }

  lemma {:induction false} ReplaceChildrenTwice(ns: seq<ParseNode>, a: seq<Option<Symbol>>, b: seq<Option<Symbol>>)
    requires |a| == |YieldOf(ns)| && |b| == |YieldOf(ns)|
    ensures ReplaceChildren(ReplaceChildren(ns, a), b) == ReplaceChildren(ns, b)
    decreases ns, 0
  {
    if ns != [] {
      var k := |Yield(ns[0])|;
      var ms := ReplaceChildren(ns, a);
      assert ms[0] == ReplaceLeaves(ns[0], a[..k]) && ms[1..] == ReplaceChildren(ns[1..], a[k..]);
      ReplaceTwice(ns[0], a[..k], b[..k]);
      ReplaceChildrenTwice(ns[1..], a[k..], b[k..]);
    }
  }

  /** Symbols as the data of leaves. */
  function Named(ws: seq<Symbol>): (ls: seq<Option<Symbol>>)
    ensures |ls| == |ws| && forall k :: 0 <= k < |ws| ==> ls[k] == Some(ws[k])
  {
    seq(|ws|, k requires 0 <= k < |ws| => Some(ws[k]))
  }

  /** A tree relabelled with symbols has those symbols as its words. */
  lemma RelabelledWords(n: ParseNode, ws: seq<Symbol>)
    requires |ws| == |Yield(n)|
    ensures LeavesNamed(ReplaceLeaves(n, Named(ws))) && Words(ReplaceLeaves(n, Named(ws))) == ws
  {
  }

  /** The tree with every leaf word replaced by its normalised form. */
  function NormalizedTree(tree: ParseNode, dictionary: map<string, nat>, minCount: int): (t: ParseNode)
    requires LeavesNamed(tree)
    ensures LeavesNamed(t) && Words(t) == NormalizedWords(Words(tree), dictionary, minCount)
  {
    RelabelledWords(tree, NormalizedWords(Words(tree), dictionary, minCount));
    ReplaceLeaves(tree, Named(NormalizedWords(Words(tree), dictionary, minCount)))
  }

  /** updateExceptionalWordsInTree: every leaf relabelled with the normalised form of its word,
      minCount given by the caller; nothing but the leaves changes. */
  method UpdateExceptionalWordsInTree(tree: ParseNode, dictionary: map<string, nat>, minCount: int)
    returns (tree': ParseNode)
    requires LeavesNamed(tree)
    ensures LeavesNamed(tree') && Words(tree') == NormalizedWords(Words(tree), dictionary, minCount)
    ensures ReplaceLeaves(tree', Yield(tree)) == tree
    ensures tree' == NormalizedTree(tree, dictionary, minCount)
  {
    var leafList := Words(tree);
    var updated := UpdateExceptionalWordsInSentence(leafList, dictionary, minCount);
    assert updated == NormalizedWords(leafList, dictionary, minCount);
    tree' := ReplaceLeaves(tree, Named(updated));
    RelabelledWords(tree, updated);
    ReplaceTwice(tree, Named(updated), Yield(tree));
    ReplaceOwnLeaves(tree);
  }

  /** The word put back at leaf i: the sentence's word where the tree holds a placeholder. */
  function Reinserted(treeWord: Symbol, sentenceWord: Symbol): (w: Symbol)
    ensures treeWord == Rare || treeWord == Num ==> w == sentenceWord
    ensures treeWord != Rare && treeWord != Num ==> w == treeWord
  {
    if treeWord == Rare || treeWord == Num then sentenceWord else treeWord
  }

  /** The words reinsertion leaves at the tree's leaves, position by position. */
  function ReinsertedWords(leaves: seq<Symbol>, sentence: seq<Symbol>): (ws: seq<Symbol>)
    requires |sentence| >= |leaves|
    ensures |ws| == |leaves| && forall i :: 0 <= i < |leaves| ==> ws[i] == Reinserted(leaves[i], sentence[i])
  {
    seq(|leaves|, i requires 0 <= i < |leaves| => Reinserted(leaves[i], sentence[i]))
  }

  /** The tree reinsertion builds: its words are the reinserted words, its inner nodes those of
      the tree given. */
  function ReinsertedTree(tree: ParseNode, sentence: seq<Symbol>): (t: ParseNode)
    requires LeavesNamed(tree) && |sentence| >= |Yield(tree)|
    ensures LeavesNamed(t) && Words(t) == ReinsertedWords(Words(tree), sentence)
  {
    RelabelledWords(tree, ReinsertedWords(Words(tree), sentence));
    ReplaceLeaves(tree, Named(ReinsertedWords(Words(tree), sentence)))
  }

  /** reinsertExceptionalWordsFromSentence: the leaves holding "_rare_" or "_num_" take the word
      of the sentence at the same position; the sentence has at least as many words as the tree
      has leaves, and nothing but those leaves changes. */
  method ReinsertExceptionalWordsFromSentence(tree: ParseNode, sentence: seq<Symbol>) returns (tree': ParseNode)
    requires LeavesNamed(tree) && |sentence| >= |Yield(tree)|
    ensures LeavesNamed(tree') && |Words(tree')| == |Words(tree)|
    ensures forall i :: 0 <= i < |Words(tree)| ==> Words(tree')[i] == Reinserted(Words(tree)[i], sentence[i])
    ensures ReplaceLeaves(tree', Yield(tree)) == tree
    ensures tree' == ReinsertedTree(tree, sentence)
  {
    var leafList := Words(tree);
    var updated := leafList;
    var i := 0;
    while i < |leafList|
      invariant 0 <= i <= |leafList| && |updated| == |leafList|
      invariant forall k :: 0 <= k < i ==> updated[k] == Reinserted(leafList[k], sentence[k])
      invariant forall k :: i <= k < |leafList| ==> updated[k] == leafList[k]
    {
      var treeWord := leafList[i];
      var sentenceWord := sentence[i];
      if treeWord == Rare || treeWord == Num {
        updated := updated[i := sentenceWord];
      }
      i := i + 1;
    }
    assert updated == ReinsertedWords(leafList, sentence);
    tree' := ReplaceLeaves(tree, Named(updated));
    RelabelledWords(tree, updated);
    ReplaceTwice(tree, Named(updated), Yield(tree));
    ReplaceOwnLeaves(tree);
  }

  /** The round trip of the parsers: a tree whose words are the normalised sentence gets the
      sentence itself back as its words. */
  lemma ReinsertRestores(leaves: seq<Symbol>, sentence: seq<Symbol>, dictionary: map<string, nat>, minCount: int)
    requires leaves == NormalizedWords(sentence, dictionary, minCount)
    ensures forall i :: 0 <= i < |leaves| ==> Reinserted(leaves[i], sentence[i]) == sentence[i]
  {
  }

  /** CounterHashMap.put: one more occurrence of w. */
  function Put(dictionary: map<string, nat>, w: string): (d: map<string, nat>)
    ensures Count(d, w) == Count(dictionary, w) + 1
    ensures forall v :: v != w ==> Count(d, v) == Count(dictionary, v)
  {
    dictionary[w := Count(dictionary, w) + 1]
  }

  /** The dictionary after putting the words one by one into an empty one. */
  function Tally(ws: seq<string>): map<string, nat>
  {
    if ws == [] then map[] else Put(Tally(ws[..|ws| - 1]), ws[|ws| - 1])
  }

  /** The tally counts every word as often as it occurs. */
  lemma {:induction false} TallyCounts(ws: seq<string>, w: string)
    ensures Count(Tally(ws), w) == multiset(ws)[w]
  {
    if ws != [] {
      TallyCounts(ws[..|ws| - 1], w);
      assert ws == ws[..|ws| - 1] + [ws[|ws| - 1]];
    }
  }

  /** The words at the leaves of a treebank, tree after tree. */
  function TreebankWords(trees: seq<ParseNode>): seq<Symbol>
    requires forall t :: 0 <= t < |trees| ==> LeavesNamed(trees[t])
  {
    if trees == [] then [] else TreebankWords(trees[..|trees| - 1]) + Words(trees[|trees| - 1])
  }

  /** One more word through Tally is one more put. */
  lemma TallyStep(ws: seq<string>, w: string)
    ensures Tally(ws + [w]) == Put(Tally(ws), w)
  {
    assert (ws + [w])[..|ws|] == ws;
  }

  /** The inner loop of constructDictionary: the leaves of one tree put one by one. */
  method PutWords(ghost before: seq<string>, dictionary: map<string, nat>, ws: seq<string>)
    returns (dictionary': map<string, nat>)
    requires dictionary == Tally(before)
    ensures dictionary' == Tally(before + ws)
  {
    dictionary' := dictionary;
    var j := 0;
    assert before + ws[..0] == before;
    while j < |ws|
      invariant 0 <= j <= |ws|
      invariant dictionary' == Tally(before + ws[..j])
    {
      TallyStep(before + ws[..j], ws[j]);
      assert before + ws[..j + 1] == (before + ws[..j]) + [ws[j]];
      dictionary' := Put(dictionary', ws[j]);
      j := j + 1;
    }
    assert ws[..j] == ws;
  }

  /** constructDictionary: every leaf of every tree put into the dictionary, so each word is
      counted as often as it stands at a leaf of the treebank. */
  method ConstructDictionary(trees: seq<ParseNode>) returns (dictionary: map<string, nat>)
    requires forall t :: 0 <= t < |trees| ==> LeavesNamed(trees[t])
    ensures dictionary == Tally(TreebankWords(trees))
    ensures forall w :: Count(dictionary, w) == multiset(TreebankWords(trees))[w]
  {
    dictionary := map[];
    var i := 0;
    while i < |trees|
      invariant 0 <= i <= |trees|
      invariant dictionary == Tally(TreebankWords(trees[..i]))
    {
      var leafList := Words(trees[i]);
      dictionary := PutWords(TreebankWords(trees[..i]), dictionary, leafList);
      assert trees[..i + 1][..i] == trees[..i];
      i := i + 1;
    }
    assert trees[..i] == trees;
    forall w ensures Count(dictionary, w) == multiset(TreebankWords(trees))[w] {
      TallyCounts(TreebankWords(trees), w);
    }
  }
}
