/** The shape of the CYK table, independent of what its cells hold: a map from (i, j) to the
    list in cell table[i][j], filled span length by span length by a rule that computes a cell
    from the cells strictly inside its span; and sequences joined block by block, the shape of
    the parsers' nested loops. */
module Tables {

  /** A table of lists: cell (i, j) covers the words i..j. */
  type Grid<T> = map<(nat, nat), seq<T>>

  /** table[i][j]; a cell not yet allocated reads as an empty list. */
  function Get<T>(t: Grid<T>, i: nat, j: nat): seq<T>
  {
    if (i, j) in t then t[(i, j)] else []
  }

  // ---------------------------------------------------------------- blocks

  /** f of each element of xs in turn, joined. */
  function Concat<T, U>(xs: seq<T>, f: T -> seq<U>): seq<U>
  {
    if xs == [] then [] else Concat(xs[..|xs| - 1], f) + f(xs[|xs| - 1])
  }

  /** An element of the join comes from the block of some element of xs... */
  lemma {:induction false} ConcatFrom<T, U>(xs: seq<T>, f: T -> seq<U>, u: U) returns (y: nat)
    requires u in Concat(xs, f)
    ensures y < |xs| && u in f(xs[y])
  {
    var init := xs[..|xs| - 1];
    if u in f(xs[|xs| - 1]) {
      y := |xs| - 1;
    } else {
      y := ConcatFrom(init, f, u);
      assert init[y] == xs[y];
    }
  }

  /** ... and every block is part of it. */
  lemma {:induction false} ConcatOf<T, U>(xs: seq<T>, f: T -> seq<U>, y: nat, u: U)
    requires y < |xs| && u in f(xs[y])
    ensures u in Concat(xs, f)
  {
    var init := xs[..|xs| - 1];
    if y < |init| {
      ConcatOf(init, f, y, u);
      assert init[y] == xs[y];
    }
  }

  /** The whole prefix is the sequence. */
  lemma Whole<T>(xs: seq<T>)
    ensures xs[..|xs|] == xs
  {
  }

  /** The empty prefix adds nothing after a head. */
  lemma JoinNothing<T>(head: seq<T>, xs: seq<T>)
    ensures xs[..0] == [] && head + xs[..0] == head
  {
    assert xs[..0] == [];
  }

  /** Nothing to join. */
  lemma ConcatEmpty<T, U>(xs: seq<T>, f: T -> seq<U>)
    requires |xs| == 0
    ensures Concat(xs, f) == []
  {
  }

  /** The join over no element adds nothing. */
  lemma JoinNone<T, U>(head: seq<U>, xs: seq<T>, f: T -> seq<U>)
    ensures head + Concat(xs[..0], f) == head
  {
    assert xs[..0] == [];
  }

  /** The join over the whole prefix is the join over xs. */
  lemma JoinAll<T, U>(xs: seq<T>, f: T -> seq<U>)
    ensures Concat(xs[..|xs|], f) == Concat(xs, f)
  {
    assert xs[..|xs|] == xs;
  }

  /** One more element of xs adds its block at the end. */
  lemma ConcatStep<T, U>(xs: seq<T>, y: nat, f: T -> seq<U>)
    requires y < |xs|
    ensures Concat(xs[..y + 1], f) == Concat(xs[..y], f) + f(xs[y])
  {
    assert xs[..y + 1][..y] == xs[..y];
  }

  /** The join depends only on the blocks of the elements of xs. */
  lemma {:induction false} ConcatAgree<T, U>(xs: seq<T>, f1: T -> seq<U>, f2: T -> seq<U>)
    requires forall y :: 0 <= y < |xs| ==> f1(xs[y]) == f2(xs[y])
    ensures Concat(xs, f1) == Concat(xs, f2)
  {
    if xs != [] {
      var init := xs[..|xs| - 1];
      forall y | 0 <= y < |init| ensures f1(init[y]) == f2(init[y]) {
        assert init[y] == xs[y];
      }
      ConcatAgree(init, f1, f2);
    }
  }

  /** One more element of a prefix, after a fixed head. */
  lemma PrefixStep<T>(head: seq<T>, xs: seq<T>, c: nat)
    requires c < |xs|
    ensures head + xs[..c + 1] == (head + xs[..c]) + [xs[c]]
  {
    assert xs[..c + 1] == xs[..c] + [xs[c]];
  }

  /** Joining is associative. */
  lemma JoinAssoc<T>(a: seq<T>, b: seq<T>, c: seq<T>)
    ensures a + (b + c) == (a + b) + c
  {
  }

  /** The elements of xs, fed one by one to f starting from s: a loop that updates s with
      each element in turn. */
  function Fold<S, X>(f: (S, X) -> S, s: S, xs: seq<X>): S
  {
    if xs == [] then s else f(Fold(f, s, xs[..|xs| - 1]), xs[|xs| - 1])
  }

  /** One more element is one more step. */
  lemma FoldAppend<S, X>(f: (S, X) -> S, s: S, xs: seq<X>, x: X)
    ensures Fold(f, s, xs + [x]) == f(Fold(f, s, xs), x)
  {
    assert (xs + [x])[..|xs|] == xs;
  }

  /** Appending keeps every prefix of what was there. */
  lemma PrefixesKept<T>(xs: seq<T>, x: T)
    ensures forall k :: 0 <= k <= |xs| ==> (xs + [x])[..k] == xs[..k]
  {
    forall k | 0 <= k <= |xs| ensures (xs + [x])[..k] == xs[..k] {
      assert (xs + [x])[..k] == xs[..k];
    }
  }

  /** The elements of xs that satisfy p, in order. */
  function Filter<T>(xs: seq<T>, p: T -> bool): (ys: seq<T>)
    ensures forall k :: 0 <= k < |ys| ==> ys[k] in xs && p(ys[k])
    ensures forall k :: 0 <= k < |xs| && p(xs[k]) ==> xs[k] in ys
    ensures |ys| <= |xs|
  {
    if xs == [] then []
    else
      var init, last := xs[..|xs| - 1], xs[|xs| - 1];
      assert xs == init + [last];
      Filter(init, p) + (if p(last) then [last] else [])
  }

  /** One more element of a prefix. */
  lemma FilterStep<T>(xs: seq<T>, p: T -> bool, i: nat)
    requires i < |xs|
    ensures Filter(xs[..i + 1], p) == Filter(xs[..i], p) + (if p(xs[i]) then [xs[i]] else [])
  {
    assert xs[..i + 1][..i] == xs[..i];
  }

  /** lo, lo + 1, ..., hi - 1. */
  function Points(lo: nat, hi: nat): (ps: seq<nat>)
    ensures |ps| == if lo <= hi then hi - lo else 0
    ensures forall q :: 0 <= q < |ps| ==> ps[q] == lo + q
  {
    seq(if lo <= hi then hi - lo else 0, q => lo + q)
  }

  /** The points up to hi + 1 are those up to hi, then hi. */
  lemma PointsNext(lo: nat, hi: nat)
    requires lo <= hi
    ensures Points(lo, hi + 1)[..hi - lo] == Points(lo, hi)
    ensures Points(lo, hi + 1)[..hi - lo + 1] == Points(lo, hi + 1) && Points(lo, hi + 1)[hi - lo] == hi
  {
  }

  /** Joining over the points up to hi + 1: the join up to hi, then the block of hi. */
  lemma ConcatPointsNext<U>(lo: nat, hi: nat, f: nat -> seq<U>)
    requires lo <= hi
    ensures Concat(Points(lo, hi + 1), f) == Concat(Points(lo, hi), f) + f(hi)
  {
    PointsNext(lo, hi);
    ConcatStep(Points(lo, hi + 1), hi - lo, f);
  }

  // ---------------------------------------------------------------- filling by span length

  /** t1 and t2 agree on every cell strictly inside span (i, j). */
  ghost predicate AgreeBelow<T>(t1: Grid<T>, t2: Grid<T>, i: nat, j: nat)
  {
    forall a, b :: i <= a <= b <= j && b - a < j - i ==> Get(t1, a, b) == Get(t2, a, b)
  }

  /** A cell rule for n words reads only the cells strictly inside the span it computes. */
  ghost predicate Local<T(!new)>(f: (Grid<T>, nat, nat) -> seq<T>, n: nat)
  {
    forall t1: Grid<T>, t2: Grid<T>, i: nat, j: nat :: i <= j < n && AgreeBelow(t1, t2, i, j) ==> f(t1, i, j) == f(t2, i, j)
  }

  /** Every cell (i, j) of t, for n words, holds what rule f computes from t. */
  ghost predicate Solves<T>(f: (Grid<T>, nat, nat) -> seq<T>, n: nat, t: Grid<T>)
  {
    forall i, j :: 0 <= i <= j < n ==> Get(t, i, j) == f(t, i, j)
  }

  /** The cells (i, i + len) for i < count, computed by f from t. */
  function Layer<T>(f: (Grid<T>, nat, nat) -> seq<T>, n: nat, t: Grid<T>, len: nat, count: nat): Grid<T>
  {
    if count == 0 then map[]
    else
      var i := count - 1;
      var rest := Layer(f, n, t, len, i);
      if i + len < n then rest[(i, i + len) := f(t, i, i + len)] else rest
  }

  lemma {:induction false} LayerKeys<T>(f: (Grid<T>, nat, nat) -> seq<T>, n: nat, t: Grid<T>, len: nat, count: nat, i: nat, j: nat)
    ensures (i, j) in Layer(f, n, t, len, count) <==> i < count && j < n && j == i + len
  {
    if count > 0 {
      LayerKeys(f, n, t, len, count - 1, i, j);
    }
  }

  lemma {:induction false} LayerAt<T>(f: (Grid<T>, nat, nat) -> seq<T>, n: nat, t: Grid<T>, len: nat, count: nat, i: nat)
    requires i < count && i + len < n
    ensures Get(Layer(f, n, t, len, count), i, i + len) == f(t, i, i + len)
  {
    if i < count - 1 {
      LayerAt(f, n, t, len, count - 1, i);
    }
  }

  /** The cells of span length below d (j - i < d) for n words, each computed by f from the
      shorter ones. */
  function Table<T>(f: (Grid<T>, nat, nat) -> seq<T>, n: nat, d: nat): Grid<T>
  {
    if d == 0 then map[] else Table(f, n, d - 1) + Layer(f, n, Table(f, n, d - 1), d - 1, n)
  }

  /** A cell, once in the table, stays as it is while longer spans are added. */
  lemma {:induction false} TableStable<T>(f: (Grid<T>, nat, nat) -> seq<T>, n: nat, d: nat, i: nat, j: nat)
    requires i <= j < n && j - i < d
    ensures Get(Table(f, n, d), i, j) == Get(Table(f, n, j - i + 1), i, j)
    decreases d
  {
    if j - i < d - 1 {
      LayerKeys(f, n, Table(f, n, d - 1), d - 1, n, i, j);
      TableStable(f, n, d - 1, i, j);
    }
  }

  /** The layer of span j - i computes cell (i, j) from the shorter spans. */
  lemma TableNew<T>(f: (Grid<T>, nat, nat) -> seq<T>, n: nat, i: nat, j: nat)
    requires i <= j < n
    ensures Get(Table(f, n, j - i + 1), i, j) == f(Table(f, n, j - i), i, j)
  {
    var t := Table(f, n, j - i);
    LayerKeys(f, n, t, j - i, n, i, j);
    LayerAt(f, n, t, j - i, n, i);
  }

  /** Filled span by span with a local rule, the table solves the rule's equations. */
  lemma TableSolves<T(!new)>(f: (Grid<T>, nat, nat) -> seq<T>, n: nat)
    requires Local(f, n)
    ensures Solves(f, n, Table(f, n, n))
  {
    var full := Table(f, n, n);
    forall i, j | 0 <= i <= j < n ensures Get(full, i, j) == f(full, i, j) {
      TableStable(f, n, n, i, j);
      TableNew(f, n, i, j);
      var below := Table(f, n, j - i);
      forall a, b | i <= a <= b <= j && b - a < j - i ensures Get(below, a, b) == Get(full, a, b) {
        TableStable(f, n, j - i, a, b);
        TableStable(f, n, n, a, b);
      }
    }
  }

  /** The equations of a local rule have one solution: two tables solving them agree. */
  lemma SolutionUnique<T(!new)>(f: (Grid<T>, nat, nat) -> seq<T>, n: nat, t1: Grid<T>, t2: Grid<T>)
    requires Local(f, n) && Solves(f, n, t1) && Solves(f, n, t2)
    ensures forall i, j :: 0 <= i <= j < n ==> Get(t1, i, j) == Get(t2, i, j)
  {
    forall i, j | 0 <= i <= j < n ensures Get(t1, i, j) == Get(t2, i, j) {
      SolutionAgrees(f, n, t1, t2, i, j);
    }
  }

  lemma {:induction false} SolutionAgrees<T(!new)>(f: (Grid<T>, nat, nat) -> seq<T>, n: nat, t1: Grid<T>, t2: Grid<T>, i: nat, j: nat)
    requires Local(f, n) && Solves(f, n, t1) && Solves(f, n, t2) && i <= j < n
    ensures Get(t1, i, j) == Get(t2, i, j)
    decreases j - i
  {
    forall a, b | i <= a <= b <= j && b - a < j - i ensures Get(t1, a, b) == Get(t2, a, b) {
      SolutionAgrees(f, n, t1, t2, a, b);
    }
  }

  // ---------------------------------------------------------------- filling in the parsers' order

  /** The cells of table that already hold what T holds, when the parser works on the cells
      ending at j from the right: every cell (a, a), every cell ending before j, and the cells
      ending at j that start after i. */
  ghost predicate DoneBelow<T>(table: Grid<T>, t: Grid<T>, n: nat, j: int, i: int)
  {
    forall a, b :: 0 <= a <= b < n && (a == b || b < j || (b == j && a > i)) ==> Get(table, a, b) == Get(t, a, b)
  }

  /** Before cell (i, j) is filled, every cell strictly inside its span is done. */
  lemma DoneAgree<T>(table: Grid<T>, t: Grid<T>, n: nat, i: nat, j: nat)
    requires i <= j < n && DoneBelow(table, t, n, j, i)
    ensures AgreeBelow(table, t, i, j)
  {
  }

  /** Filling cell (i, j) with what t holds there moves the front one cell left. */
  lemma DoneNext<T>(table: Grid<T>, t: Grid<T>, n: nat, i: nat, j: nat, v: seq<T>)
    requires i <= j < n && DoneBelow(table, t, n, j, i) && v == Get(t, i, j)
    ensures DoneBelow(table[(i, j) := v], t, n, j, i - 1)
  {
  }

  /** Filling cell (i, i) with what t holds there. */
  lemma DoneSeed<T>(table: Grid<T>, t: Grid<T>, n: nat, i: nat, v: seq<T>)
    requires i < n && (forall a :: 0 <= a < i ==> Get(table, a, a) == Get(t, a, a)) && v == Get(t, i, i)
    ensures forall a :: 0 <= a <= i ==> Get(table[(i, i) := v], a, a) == Get(t, a, a)
  {
  }

  /** Once the column of j is done, the cells ending before j + 1 are. */
  lemma DoneColumn<T>(table: Grid<T>, t: Grid<T>, n: nat, j: nat)
    requires DoneBelow(table, t, n, j, -1)
    ensures DoneBelow(table, t, n, j + 1, j)
  {
  }

  /** With every cell (a, a) filled, the front starts at the end 1. */
  lemma DoneDiagonal<T>(table: Grid<T>, t: Grid<T>, n: nat)
    requires forall a :: 0 <= a < n ==> Get(table, a, a) == Get(t, a, a)
    ensures DoneBelow(table, t, n, 1, 0)
  {
  }

  /** Past the last end, every cell is done. */
  lemma DoneAll<T>(table: Grid<T>, t: Grid<T>, n: nat, j: nat)
    requires n <= j && DoneBelow(table, t, n, j, j - 1)
    ensures forall a, b :: 0 <= a <= b < n ==> Get(table, a, b) == Get(t, a, b)
  {
  }
}
