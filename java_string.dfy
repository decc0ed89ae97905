/**
 * The parts of java.lang.String (and the decimal printing of int) that the
 * grammar and the parsers rely on: compareTo, trim, indexOf, split(" "),
 * hashCode and Integer.toString.  A Java char is modelled as a Dafny char, a
 * Unicode scalar value; the two agree below U+10000, where Java needs no
 * surrogate pair.
 */
module JavaString {

  /** String.compareTo: the difference of the first two characters that differ,
      or else the difference of the lengths. */
  function CompareTo(a: string, b: string): (r: int)
    ensures r == 0 <==> a == b
    decreases |a|
  {
    if a == [] || b == [] then |a| - |b|
    else if a[0] != b[0] then a[0] as int - b[0] as int
    else
      assert a == [a[0]] + a[1..] && b == [b[0]] + b[1..];
      CompareTo(a[1..], b[1..])
  }

  /** compareTo is exactly antisymmetric: swapping the arguments negates the result. */
  lemma {:induction false} CompareToAntisymmetric(a: string, b: string)
    ensures CompareTo(a, b) == -CompareTo(b, a)
    decreases |a|
  {
    if a != [] && b != [] && a[0] == b[0] {
      CompareToAntisymmetric(a[1..], b[1..]);
    }
  }

  lemma {:induction false} CompareToTransitive(a: string, b: string, c: string)
    requires CompareTo(a, b) < 0 && CompareTo(b, c) < 0
    ensures CompareTo(a, c) < 0
    decreases |a|
  {
    if a != [] && b != [] && c != [] && a[0] == b[0] && b[0] == c[0] {
      CompareToTransitive(a[1..], b[1..], c[1..]);
    }
  }

  /** The non-strict form of transitivity, which sorted lists are stated with. */
  lemma CompareToTransitiveLe(a: string, b: string, c: string)
    requires CompareTo(a, b) <= 0 && CompareTo(b, c) <= 0
    ensures CompareTo(a, c) <= 0
  {
    if CompareTo(a, b) < 0 && CompareTo(b, c) < 0 {
      CompareToTransitive(a, b, c);
    }
  }

  /** Mixed transitivity: "not above" followed by "below", in either order, is "below". */
  lemma CompareToStrict(a: string, b: string, c: string)
    requires (CompareTo(a, b) <= 0 && CompareTo(b, c) < 0) || (CompareTo(a, b) < 0 && CompareTo(b, c) <= 0)
    ensures CompareTo(a, c) < 0
  {
    if a != b && b != c {
      CompareToTransitive(a, b, c);
    }
  }

  // ---------------------------------------------------------------- trim

  /** String.trim removes leading and trailing characters up to U+0020. */
  predicate IsTrimmable(c: char) { c <= ' ' }

  function TrimStart(s: string): (r: string)
    ensures |r| <= |s| && r == s[|s| - |r|..]
    ensures forall k :: 0 <= k < |s| - |r| ==> IsTrimmable(s[k])
    ensures r == [] || !IsTrimmable(r[0])
  {
    if s != [] && IsTrimmable(s[0]) then TrimStart(s[1..]) else s
  }

  function TrimEnd(s: string): (r: string)
    ensures |r| <= |s| && r == s[..|r|]
    ensures forall k :: |r| <= k < |s| ==> IsTrimmable(s[k])
    ensures r == [] || !IsTrimmable(r[|r| - 1])
  {
    if s != [] && IsTrimmable(s[|s| - 1]) then TrimEnd(s[..|s| - 1]) else s
  }

  function Trim(s: string): (r: string)
    ensures |r| <= |s|
    ensures r == [] || (!IsTrimmable(r[0]) && !IsTrimmable(r[|r| - 1]))
  {
    TrimEnd(TrimStart(s))
  }

  predicate AllTrimmable(s: string) { forall k :: 0 <= k < |s| ==> IsTrimmable(s[k]) }

  /** A text without trimmable characters at its ends. */
  predicate Trimmed(x: string) { x != [] && !IsTrimmable(x[0]) && !IsTrimmable(x[|x| - 1]) }

  lemma {:induction false} TrimStartPadded(pre: string, y: string)
    requires AllTrimmable(pre) && y != [] && !IsTrimmable(y[0])
    ensures TrimStart(pre + y) == y
    decreases |pre|
  {
    var s := pre + y;
    if pre == [] {
      assert s == y;
    } else {
      assert s[0] == pre[0] && IsTrimmable(s[0]);
      assert s[1..] == pre[1..] + y;
      TrimStartPadded(pre[1..], y);
      assert TrimStart(s) == TrimStart(s[1..]);
    }
  }

  lemma {:induction false} TrimEndPadded(y: string, post: string)
    requires AllTrimmable(post) && y != [] && !IsTrimmable(y[|y| - 1])
    ensures TrimEnd(y + post) == y
    decreases |post|
  {
    var s := y + post;
    if post == [] {
      assert s == y;
    } else {
      assert s[|s| - 1] == post[|post| - 1] && IsTrimmable(s[|s| - 1]);
      assert s[..|s| - 1] == y + post[..|post| - 1];
      TrimEndPadded(y, post[..|post| - 1]);
      assert TrimEnd(s) == TrimEnd(s[..|s| - 1]);
    }
  }

  /** Trimming a text padded with blanks gives the text back. */
  lemma TrimPadded(pre: string, x: string, post: string)
    requires AllTrimmable(pre) && AllTrimmable(post) && Trimmed(x)
    ensures Trim(pre + x + post) == x
  {
    assert pre + x + post == pre + (x + post);
    TrimStartPadded(pre, x + post);
    TrimEndPadded(x, post);
  }

  // ---------------------------------------------------------------- indexOf

  predicate OccursAt(s: string, p: string, k: int)
  {
    0 <= k && k + |p| <= |s| && s[k..k + |p|] == p
  }

  function IndexFrom(s: string, p: string, i: nat): (r: int)
    requires i <= |s|
    ensures r == -1 || (i <= r && OccursAt(s, p, r))
    ensures r >= 0 ==> forall k :: i <= k < r ==> !OccursAt(s, p, k)
    ensures r == -1 ==> forall k :: i <= k ==> !OccursAt(s, p, k)
    decreases |s| - i
  {
    if i + |p| > |s| then -1
    else if s[i..i + |p|] == p then i
    else IndexFrom(s, p, i + 1)
  }

  /** String.indexOf: the first position where p occurs in s, or -1. */
  function IndexOf(s: string, p: string): (r: int)
    ensures r == -1 || OccursAt(s, p, r)
    ensures r >= 0 ==> forall k :: 0 <= k < r ==> !OccursAt(s, p, k)
    ensures r == -1 ==> forall k :: !OccursAt(s, p, k)
  {
    IndexFrom(s, p, 0)
  }

  // ---------------------------------------------------------------- split(" ")

  /** The pieces of s between its spaces, empty pieces included. */
  function Pieces(s: string): (r: seq<string>)
    ensures |r| >= 1
  {
    if s == [] then [""]
    else
      var rest := Pieces(s[1..]);
      if s[0] == ' ' then [""] + rest else [[s[0]] + rest[0]] + rest[1..]
  }

  function DropTrailingEmpty(ps: seq<string>): (r: seq<string>)
    ensures |r| <= |ps| && r == ps[..|r|]
    ensures r == [] || r[|r| - 1] != ""
    ensures forall k :: |r| <= k < |ps| ==> ps[k] == ""
  {
    if ps != [] && ps[|ps| - 1] == "" then DropTrailingEmpty(ps[..|ps| - 1]) else ps
  }

  /** String.split(" "): no space gives the string itself (so "" gives [""]);
      otherwise the pieces with trailing empty pieces removed. */
  function Split(s: string): seq<string>
  {
    if ' ' !in s then [s] else DropTrailingEmpty(Pieces(s))
  }

  lemma {:induction false} LastPieceNonEmpty(s: string)
    requires s != [] && s[|s| - 1] != ' '
    ensures Pieces(s)[|Pieces(s)| - 1] != ""
    decreases |s|
  {
    if |s| > 1 {
      LastPieceNonEmpty(s[1..]);
    }
  }

  /** A text that does not end in a space splits into at least one piece, so a
      trimmed right-hand side always yields at least one symbol. */
  lemma SplitNonEmpty(s: string)
    requires s == [] || s[|s| - 1] != ' '
    ensures |Split(s)| >= 1
  {
    if ' ' in s {
      LastPieceNonEmpty(s);
    }
  }

  /** The names joined by single spaces. */
  function Join(ss: seq<string>): string
  {
    if |ss| == 0 then ""
    else if |ss| == 1 then ss[0]
    else ss[0] + " " + Join(ss[1..])
  }

  /** A name that survives split(" ") and trim: non-empty and free of trimmable characters. */
  predicate PlainName(s: string) { s != [] && forall k :: 0 <= k < |s| ==> !IsTrimmable(s[k]) }

  lemma {:induction false} PiecesOfWord(a: string, rest: string)
    requires ' ' !in a
    ensures Pieces(a + rest) == [a + Pieces(rest)[0]] + Pieces(rest)[1..]
    decreases |a|
  {
    if a != [] {
      assert a[0] in a;
      assert (a + rest)[0] == a[0] && (a + rest)[1..] == a[1..] + rest;
      PiecesOfWord(a[1..], rest);
      var inner := Pieces(a[1..] + rest);
      assert inner[0] == a[1..] + Pieces(rest)[0] && inner[1..] == Pieces(rest)[1..];
      assert Pieces(a + rest) == [[a[0]] + inner[0]] + inner[1..];
      assert [a[0]] + (a[1..] + Pieces(rest)[0]) == a + Pieces(rest)[0];
    } else {
      assert a + rest == rest && a + Pieces(rest)[0] == Pieces(rest)[0];
      assert Pieces(rest) == [Pieces(rest)[0]] + Pieces(rest)[1..];
    }
  }

  lemma {:induction false} PiecesOfJoin(ss: seq<string>)
    requires |ss| >= 1 && forall k :: 0 <= k < |ss| ==> PlainName(ss[k])
    ensures Pieces(Join(ss)) == ss
    decreases |ss|
  {
    assert ' ' !in ss[0] by {
      assert forall k :: 0 <= k < |ss[0]| ==> ss[0][k] != ' ';
    }
    if |ss| == 1 {
      PiecesOfWord(ss[0], "");
      assert ss[0] + "" == ss[0];
    } else {
      var tail := Join(ss[1..]);
      PiecesOfJoin(ss[1..]);
      assert Join(ss) == ss[0] + (" " + tail);
      PiecesOfWord(ss[0], " " + tail);
      assert (" " + tail)[1..] == tail;
      assert Pieces(" " + tail) == [""] + Pieces(tail);
      assert ss[0] + "" == ss[0];
      assert ss == [ss[0]] + ss[1..];
    }
  }

  lemma {:induction false} JoinEnds(ss: seq<string>)
    requires |ss| >= 1 && forall k :: 0 <= k < |ss| ==> PlainName(ss[k])
    ensures Trimmed(Join(ss))
    ensures |ss| >= 2 <==> ' ' in Join(ss)
    decreases |ss|
  {
    assert ' ' !in ss[0] by {
      assert forall k :: 0 <= k < |ss[0]| ==> ss[0][k] != ' ';
    }
    if |ss| >= 2 {
      JoinEnds(ss[1..]);
      var j := Join(ss);
      assert j == ss[0] + " " + Join(ss[1..]);
      assert j[|ss[0]|] == ' ';
      assert j[|j| - 1] == Join(ss[1..])[|Join(ss[1..])| - 1];
    }
  }

  /** split(" ") undoes Join on plain names. */
  lemma SplitJoin(ss: seq<string>)
    requires |ss| >= 1 && forall k :: 0 <= k < |ss| ==> PlainName(ss[k])
    ensures Split(Join(ss)) == ss
  {
    JoinEnds(ss);
    if |ss| >= 2 {
      PiecesOfJoin(ss);
      assert ss[|ss| - 1] != "";
    }
  }

  // ---------------------------------------------------------------- numbers

  function DigitChar(d: int): (c: char)
    requires 0 <= d < 10
    ensures '0' <= c <= '9' && c as int - '0' as int == d
  {
    ('0' as int + d) as char
  }

  /** The decimal digits of n, without leading zeros. */
  function NatToString(n: nat): (r: string)
    ensures |r| >= 1 && forall k :: 0 <= k < |r| ==> '0' <= r[k] <= '9'
    ensures n >= 10 <==> |r| >= 2
  {
    if n < 10 then [DigitChar(n)] else NatToString(n / 10) + [DigitChar(n % 10)]
  }

  lemma {:induction false} NatToStringInjective(a: nat, b: nat)
    requires NatToString(a) == NatToString(b)
    ensures a == b
    decreases a
  {
    if a >= 10 && b >= 10 {
      var sa, sb := NatToString(a), NatToString(b);
      assert sa[|sa| - 1] == DigitChar(a % 10) && sb[|sb| - 1] == DigitChar(b % 10);
      assert sa[..|sa| - 1] == NatToString(a / 10) && sb[..|sb| - 1] == NatToString(b / 10);
      NatToStringInjective(a / 10, b / 10);
    } else if a < 10 && b < 10 {
      assert NatToString(a)[0] == DigitChar(a);
    }
  }

  /** Integer.toString / string concatenation of an int. */
  function IntToString(n: int): string
  {
    if n < 0 then "-" + NatToString(-n) else NatToString(n)
  }

  // ---------------------------------------------------------------- hashCode

  /** The 32-bit two's complement value of x, as Java int arithmetic wraps it. */
  function Int32(x: int): (r: int)
    ensures -0x8000_0000 <= r < 0x8000_0000
    ensures (x - r) % 0x1_0000_0000 == 0
  {
    var m := x % 0x1_0000_0000;
    if m >= 0x8000_0000 then m - 0x1_0000_0000 else m
  }

  /** String.hashCode: h = 31 * h + c over the characters, in int arithmetic. */
  function HashCode(s: string): (h: int)
    ensures -0x8000_0000 <= h < 0x8000_0000
  {
    if s == [] then 0 else Int32(31 * HashCode(s[..|s| - 1]) + s[|s| - 1] as int)
  }
}
