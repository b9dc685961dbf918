/** The two location lists of day 1: each line holds a left and a right number;
    part 1 pairs the sorted lists and sums the distances, part 2 weighs every left
    number by how often it occurs on the right. */
module ListDistance {
  import opened Wrappers
  import opened Decimal
  import opened Text
  import opened Counting
  import opened Numbers

  /** The three spaces between the two columns of a line. */
  const Separator: string := "   "

  /** Python's `int` on a plain decimal literal: an optional sign and at least one
      digit. */
  function ParseInt(t: string): (r: Option<int>)
    ensures r.Some? ==> |t| > 0 && (IsDigit(t[0]) || t[0] == '-' || t[0] == '+')
    ensures r.Some? ==> AllDigits(t[1..])
  {
    if |t| > 1 && t[0] == '-' && AllDigits(t[1..]) then Some(0 - Value(t[1..]))
    else if |t| > 1 && t[0] == '+' && AllDigits(t[1..]) then Some(Value(t[1..]))
    else if |t| > 0 && AllDigits(t) then Some(Value(t))
    else None
  }

  /** The canonical decimal text of n. */
  function Show(n: int): (t: string)
    ensures |t| > 0
    ensures forall i :: 0 <= i < |t| ==> t[i] != ' '
  {
    if n < 0 then "-" + Digits(-n)
    else if n == 0 then "0"
    else Digits(n)
  }

  lemma ParseNegative(m: nat)
    requires m > 0
    ensures ParseInt("-" + Digits(m)) == Some(0 - m)
  {
    var t := "-" + Digits(m);
    assert t[1..] == Digits(m);
    ValueOfDigits(m);
  }

  lemma ParsePositive(n: nat)
    requires n > 0
    ensures ParseInt(Digits(n)) == Some(n)
  {
    ValueOfDigits(n);
  }

  /** Reading back the text written for n gives n. */
  lemma ParseShow(n: int)
    ensures ParseInt(Show(n)) == Some(n)
  {
    if n < 0 {
      ParseNegative(-n);
    } else if n > 0 {
      ParsePositive(n);
    } else {
      assert Value("0"[..0]) == 0;
    }
  }

  /** One input line split at the separator into exactly two numbers; any other
      number of pieces, or a piece that is not a number, is an error. */
  function ParseLine(line: string): (r: Option<(int, int)>)
    ensures r.Some? ==>
      exists a, b :: line == a + Separator + b
        && ParseInt(a) == Some(r.value.0) && ParseInt(b) == Some(r.value.1)
  {
    var parts := Split(line, Separator);
    if |parts| != 2 then None
    else
      match (ParseInt(parts[0]), ParseInt(parts[1]))
      case (Some(a), Some(b)) =>
        JoinSplit(line, Separator);
        assert line == parts[0] + Separator + parts[1];
        Some((a, b))
      case _ => None
  }

  predicate NoSpace(s: string) {
    forall i :: 0 <= i < |s| ==> s[i] != ' '
  }

  lemma NoSeparatorIn(s: string, j: nat)
    requires NoSpace(s)
    ensures !TextAt(s, j, Separator)
  {
    if j + 3 <= |s| {
      assert s[j..j + 3][0] == s[j];
    }
  }

  /** Two pieces without spaces, joined by the separator, split back into the two. */
  lemma SplitAroundSeparator(x: string, y: string)
    requires NoSpace(x) && NoSpace(y)
    ensures Split(x + Separator + y, Separator) == [x, y]
  {
    var s := x + Separator + y;
    assert TextAt(s, |x|, Separator) by {
      assert s[|x|..|x| + 3] == Separator;
    }
    forall k: nat | k < |x|
      ensures !TextAt(s, k, Separator)
    {
      if k + 3 <= |s| {
        assert s[k..k + 3][0] == s[k] == x[k];
      }
    }
    assert FindFrom(s, Separator, 0) == Some(|x|);
    assert s[..|x|] == x && s[|x| + 3..] == y;
    forall j: nat
      ensures !TextAt(y, j, Separator)
    {
      NoSeparatorIn(y, j);
    }
    assert FindFrom(y, Separator, 0).None? by {
      if FindFrom(y, Separator, 0).Some? {
        NoSeparatorIn(y, FindFrom(y, Separator, 0).value);
      }
    }
    assert Split(y, Separator) == [y];
    assert Split(s, Separator) == [x] + Split(y, Separator);
  }

  /** A line written from two numbers parses back to them. */
  lemma ParseLineShow(a: int, b: int)
    ensures ParseLine(Show(a) + Separator + Show(b)) == Some((a, b))
  {
    SplitAroundSeparator(Show(a), Show(b));
    ParseShow(a);
    ParseShow(b);
  }

  /** The two columns of the input, in input order. */
  datatype Columns = Columns(left: seq<int>, right: seq<int>)

  predicate NonBlank(line: string) {
    line != ""
  }

  /** Empty lines are skipped; every other line must parse, and the error names
      the first one that does not. */
  function ParseColumns(lines: seq<string>): (r: Result<Columns, nat>)
    ensures r.Ok? ==> |r.value.left| == |r.value.right|
    ensures r.Err? ==> r.error < |lines|
  {
    if |lines| == 0 then Ok(Columns([], []))
    else if lines[0] == "" then
      match ParseColumns(lines[1..])
      case Err(k) => Err(k + 1)
      case Ok(c) => Ok(c)
    else
      match ParseLine(lines[0])
      case None => Err(0)
      case Some((a, b)) =>
        match ParseColumns(lines[1..])
        case Err(k) => Err(k + 1)
        case Ok(c) => Ok(Columns([a] + c.left, [b] + c.right))
  }

  /** Each non-empty line contributes one number to each column. */
  lemma {:induction false} ParseColumnsCounts(lines: seq<string>)
    requires ParseColumns(lines).Ok?
    ensures |ParseColumns(lines).value.left| == CountWhere(lines, NonBlank)
  {
    if |lines| > 0 {
      ParseColumnsCounts(lines[1..]);
    }
  }

  /** An error names a non-empty line that does not parse, and every line before it
      is empty or parses. */
  lemma {:induction false} ParseColumnsError(lines: seq<string>)
    requires ParseColumns(lines).Err?
    ensures var e := ParseColumns(lines).error;
      && lines[e] != ""
      && ParseLine(lines[e]).None?
      && forall j :: 0 <= j < e ==> lines[j] == "" || ParseLine(lines[j]).Some?
  {
    if lines[0] == "" || ParseLine(lines[0]).Some? {
      var tail := lines[1..];
      ParseColumnsError(tail);
      assert forall j :: 1 <= j < |lines| ==> lines[j] == tail[j - 1];
    }
  }

  /** A parsed line in front of parsed lines adds its numbers at the front. */
  lemma ParseColumnsCons(line: string, rest: seq<string>, a: int, b: int, c: Columns)
    requires line != "" && ParseLine(line) == Some((a, b)) && ParseColumns(rest) == Ok(c)
    ensures ParseColumns([line] + rest) == Ok(Columns([a] + c.left, [b] + c.right))
  {
    assert ([line] + rest)[1..] == rest;
  }

  /** The input text for two columns of equal length, one line per pair. */
  function Render(c: Columns): (lines: seq<string>)
    requires |c.left| == |c.right|
    decreases |c.left|
  {
    if |c.left| == 0 then []
    else [Show(c.left[0]) + Separator + Show(c.right[0])] + Render(Columns(c.left[1..], c.right[1..]))
  }

  /** Parsing the rendered text gives back the columns. */
  lemma {:induction false} ParseRender(c: Columns)
    requires |c.left| == |c.right|
    ensures ParseColumns(Render(c)) == Ok(c)
    decreases |c.left|
  {
    if |c.left| > 0 {
      var tail := Columns(c.left[1..], c.right[1..]);
      var line := Show(c.left[0]) + Separator + Show(c.right[0]);
      assert Render(c) == [line] + Render(tail);
      ParseRender(tail);
      ParseLineShow(c.left[0], c.right[0]);
      ParseColumnsCons(line, Render(tail), c.left[0], c.right[0], tail);
      assert c.left == [c.left[0]] + tail.left && c.right == [c.right[0]] + tail.right;
    }
  }

  predicate Sorted(xs: seq<int>) {
    forall i, j :: 0 <= i < j < |xs| ==> xs[i] <= xs[j]
  }

  /** A lower bound of the elements at the front of a sorted list keeps it sorted. */
  lemma SortedCons(h: int, r: seq<int>)
    requires Sorted(r) && forall v :: v in multiset(r) ==> h <= v
    ensures Sorted([h] + r)
  {
    forall k | 0 <= k < |r|
      ensures h <= r[k]
    {
      assert r[k] in multiset(r);
    }
  }

  /** The elements after the head of a sorted list are at least the head. */
  lemma TailAtLeastHead(xs: seq<int>)
    requires Sorted(xs) && |xs| > 0
    ensures forall v :: v in multiset(xs[1..]) ==> xs[0] <= v
  {
    forall v | v in multiset(xs[1..])
      ensures xs[0] <= v
    {
      var k :| 0 <= k < |xs[1..]| && xs[1..][k] == v;
      assert v == xs[k + 1];
    }
  }

  /** Putting the head back in front of the tail with x inserted keeps the list
      sorted and adds exactly x. */
  lemma InsertBehindHead(x: int, xs: seq<int>, rest: seq<int>)
    requires Sorted(xs) && |xs| > 0 && xs[0] < x
    requires Sorted(rest) && multiset(rest) == multiset(xs[1..]) + multiset{x}
    ensures Sorted([xs[0]] + rest)
    ensures multiset([xs[0]] + rest) == multiset(xs) + multiset{x}
  {
    assert xs == [xs[0]] + xs[1..];
    TailAtLeastHead(xs);
    SortedCons(xs[0], rest);
  }

  /** xs with x placed before the first element not smaller than it. */
  function Insert(x: int, xs: seq<int>): (r: seq<int>)
    requires Sorted(xs)
    ensures Sorted(r)
    ensures multiset(r) == multiset(xs) + multiset{x}
  {
    if |xs| == 0 || x <= xs[0] then
      SortedCons(x, xs);
      [x] + xs
    else
      SortedTail(xs);
      var rest := Insert(x, xs[1..]);
      InsertBehindHead(x, xs, rest);
      [xs[0]] + rest
  }

  /** The list in ascending order, as `list.sort` leaves it. */
  function Sort(xs: seq<int>): (r: seq<int>)
    ensures Sorted(r)
    ensures multiset(r) == multiset(xs)
  {
    if |xs| == 0 then []
    else
      assert xs == [xs[0]] + xs[1..];
      Insert(xs[0], Sort(xs[1..]))
  }

  lemma SortedHeadIsLeast(xs: seq<int>, v: int)
    requires Sorted(xs) && v in multiset(xs)
    ensures |xs| > 0 && xs[0] <= v
  {
    var i :| 0 <= i < |xs| && xs[i] == v;
  }

  lemma WithoutHead(xs: seq<int>)
    requires |xs| > 0
    ensures multiset(xs[1..]) == multiset(xs) - multiset{xs[0]}
  {
    assert xs == [xs[0]] + xs[1..];
  }

  /** The list without its element at index k. */
  function RemoveAt(xs: seq<int>, k: nat): (r: seq<int>)
    requires k < |xs|
    ensures multiset(r) == multiset(xs) - multiset{xs[k]}
  {
    assert xs == xs[..k] + [xs[k]] + xs[k + 1..];
    xs[..k] + xs[k + 1..]
  }

  lemma SortedTail(xs: seq<int>)
    requires Sorted(xs) && |xs| > 0
    ensures Sorted(xs[1..])
  {
    assert forall i :: 0 <= i < |xs| - 1 ==> xs[1..][i] == xs[i + 1];
  }

  /** Two sorted lists with the same elements start with the same, least, one. */
  lemma SortedHeadsAgree(a: seq<int>, b: seq<int>)
    requires Sorted(a) && Sorted(b) && multiset(a) == multiset(b) && |a| > 0
    ensures |b| > 0 && a[0] == b[0]
  {
    assert a[0] in multiset(a);
    SortedHeadIsLeast(b, a[0]);
    assert b[0] in multiset(b);
    SortedHeadIsLeast(a, b[0]);
  }

  /** A sorted list is determined by its elements: two sorted lists holding the
      same multiset of numbers are equal. */
  lemma {:induction false} SortedUnique(a: seq<int>, b: seq<int>)
    requires Sorted(a) && Sorted(b)
    requires multiset(a) == multiset(b)
    ensures a == b
    decreases |a|
  {
    if |a| == 0 {
      assert |b| == |multiset(b)| == 0;
    } else {
      SortedHeadsAgree(a, b);
      WithoutHead(a);
      WithoutHead(b);
      SortedTail(a);
      SortedTail(b);
      SortedUnique(a[1..], b[1..]);
      assert a == [a[0]] + a[1..] && b == [b[0]] + b[1..];
    }
  }

  /** The distances between the pairs `zip` forms, summed; `zip` stops at the
      shorter list. */
  function PairDistance(ls: seq<int>, rs: seq<int>): (d: nat)
    ensures d == 0 <==> forall i :: 0 <= i < |ls| && i < |rs| ==> ls[i] == rs[i]
  {
    if |ls| == 0 || |rs| == 0 then 0
    else
      assert forall i :: 1 <= i < |ls| && i < |rs| ==> ls[i] == ls[1..][i - 1] && rs[i] == rs[1..][i - 1];
      Abs(ls[0] - rs[0]) + PairDistance(ls[1..], rs[1..])
  }

  /** Part 1: the total distance between the sorted lists. */
  function PartOne(c: Columns): nat {
    PairDistance(Sort(c.left), Sort(c.right))
  }

  /** Part 1 depends only on which numbers each column holds, not their order. */
  lemma PartOneIgnoresOrder(c: Columns, d: Columns)
    requires multiset(c.left) == multiset(d.left) && multiset(c.right) == multiset(d.right)
    ensures PartOne(c) == PartOne(d)
  {
    SortedUnique(Sort(c.left), Sort(d.left));
    SortedUnique(Sort(c.right), Sort(d.right));
  }

  /** For columns of equal length, the distance is zero exactly when they hold the
      same numbers. */
  lemma PartOneZeroIffSameNumbers(c: Columns)
    requires |c.left| == |c.right|
    ensures PartOne(c) == 0 <==> multiset(c.left) == multiset(c.right)
  {
    var ls, rs := Sort(c.left), Sort(c.right);
    assert |ls| == |multiset(ls)| == |c.left| && |rs| == |multiset(rs)| == |c.right|;
    if multiset(c.left) == multiset(c.right) {
      SortedUnique(ls, rs);
    }
    if PartOne(c) == 0 {
      assert ls == rs;
    }
  }

  /** How many times v occurs in xs, as `Counter(xs).get(v, 0)` reports. */
  function Occurrences(xs: seq<int>, v: int): (n: nat)
    ensures n == multiset(xs)[v]
  {
    if |xs| == 0 then 0
    else
      assert xs == [xs[0]] + xs[1..];
      (if xs[0] == v then 1 else 0) + Occurrences(xs[1..], v)
  }

  /** The similarity of ls to rs: each number of ls weighed by its count in rs. */
  function Similarity(ls: seq<int>, rs: seq<int>): int {
    if |ls| == 0 then 0
    else ls[0] * Occurrences(rs, ls[0]) + Similarity(ls[1..], rs)
  }

  /** Part 2: the similarity of the left column to the right one. */
  function PartTwo(c: Columns): int {
    Similarity(c.left, c.right)
  }

  lemma {:induction false} SimilarityAppend(a: seq<int>, b: seq<int>, rs: seq<int>)
    ensures Similarity(a + b, rs) == Similarity(a, rs) + Similarity(b, rs)
    decreases |a|
  {
    if |a| > 0 {
      assert (a + b)[1..] == a[1..] + b;
      SimilarityAppend(a[1..], b, rs);
    } else {
      assert a + b == b;
    }
  }

  /** Each element of the left list contributes its own term: the score is that
      term plus the score of the rest. */
  lemma SimilarityRemoveAt(ls: seq<int>, k: nat, rs: seq<int>)
    requires k < |ls|
    ensures Similarity(ls, rs) == ls[k] * Occurrences(rs, ls[k]) + Similarity(RemoveAt(ls, k), rs)
  {
    assert ls == ls[..k] + ([ls[k]] + ls[k + 1..]);
    SimilarityAppend(ls[..k], [ls[k]] + ls[k + 1..], rs);
    SimilarityAppend(ls[..k], ls[k + 1..], rs);
    assert ([ls[k]] + ls[k + 1..])[1..] == ls[k + 1..];
  }

  /** A number that does not occur on the right contributes nothing: removing it
      from the left leaves the score unchanged. */
  lemma AbsentContributesNothing(ls: seq<int>, k: nat, rs: seq<int>)
    requires k < |ls| && ls[k] !in rs
    ensures Similarity(RemoveAt(ls, k), rs) == Similarity(ls, rs)
  {
    SimilarityRemoveAt(ls, k, rs);
  }

  /** The score depends only on which numbers the left list holds. */
  lemma {:induction false} SimilarityPermuteLeft(ls: seq<int>, ms: seq<int>, rs: seq<int>)
    requires multiset(ls) == multiset(ms)
    ensures Similarity(ls, rs) == Similarity(ms, rs)
    decreases |ls|
  {
    if |ls| == 0 {
      assert |ms| == |multiset(ms)| == 0;
    } else {
      var x := ls[0];
      assert x in multiset(ms);
      var k :| 0 <= k < |ms| && ms[k] == x;
      WithoutHead(ls);
      SimilarityPermuteLeft(ls[1..], RemoveAt(ms, k), rs);
      SimilarityRemoveAt(ms, k, rs);
    }
  }

  /** The score depends only on which numbers the right list holds. */
  lemma {:induction false} SimilarityPermuteRight(ls: seq<int>, rs: seq<int>, ss: seq<int>)
    requires multiset(rs) == multiset(ss)
    ensures Similarity(ls, rs) == Similarity(ls, ss)
    decreases |ls|
  {
    if |ls| > 0 {
      SimilarityPermuteRight(ls[1..], rs, ss);
    }
  }

  /** Part 2 does not depend on the order of either column. */
  lemma PartTwoIgnoresOrder(c: Columns, d: Columns)
    requires multiset(c.left) == multiset(d.left) && multiset(c.right) == multiset(d.right)
    ensures PartTwo(c) == PartTwo(d)
  {
    SimilarityPermuteLeft(c.left, d.left, c.right);
    SimilarityPermuteRight(d.left, c.right, d.right);
  }

  lemma Distribute(a: int, b: int, c: int)
    ensures a * (b + c) == a * b + a * c
  {
  }

  lemma {:induction false} SimilarityConsRight(rs: seq<int>, x: int, ls: seq<int>)
    ensures Similarity(rs, [x] + ls) == Similarity(rs, ls) + x * Occurrences(rs, x)
    decreases |rs|
  {
    if |rs| > 0 {
      var r := rs[0];
      SimilarityConsRight(rs[1..], x, ls);
      assert ([x] + ls)[1..] == ls;
      var e := if x == r then 1 else 0;
      var o1, o2 := Occurrences(ls, r), Occurrences(rs[1..], x);
      var s1 := Similarity(rs[1..], ls);
      assert Occurrences([x] + ls, r) == e + o1;
      assert Occurrences(rs, x) == e + o2;
      assert Similarity(rs, [x] + ls) == r * (e + o1) + s1 + x * o2;
      assert Similarity(rs, ls) == r * o1 + s1;
      Distribute(r, e, o1);
      Distribute(x, e, o2);
      assert r * e == x * e;
    }
  }

  lemma {:induction false} SimilarityAgainstNothing(rs: seq<int>)
    ensures Similarity(rs, []) == 0
    decreases |rs|
  {
    if |rs| > 0 {
      SimilarityAgainstNothing(rs[1..]);
    }
  }

  /** The score is symmetric: weighing the left by the right gives the same total
      as weighing the right by the left. */
  lemma {:induction false} SimilaritySymmetric(ls: seq<int>, rs: seq<int>)
    ensures Similarity(ls, rs) == Similarity(rs, ls)
    decreases |ls|
  {
    if |ls| > 0 {
      SimilaritySymmetric(ls[1..], rs);
      SimilarityConsRight(rs, ls[0], ls[1..]);
      assert ls == [ls[0]] + ls[1..];
      assert Similarity(rs, ls) == Similarity(rs, ls[1..]) + ls[0] * Occurrences(rs, ls[0]);
      assert Similarity(ls, rs) == ls[0] * Occurrences(rs, ls[0]) + Similarity(ls[1..], rs);
    } else {
      SimilarityAgainstNothing(rs);
    }
  }
}
