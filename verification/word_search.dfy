/** The word search of day 4: reading words along the eight straight lines through
    a cell of a letter grid, clipped to the grid. */
module WordSearch {
  import opened Counting

  /** The letters of the puzzle, one sequence per non-blank input line. */
  datatype WordPuzzle = WordPuzzle(rows: seq<seq<char>>)
  {
    /** Every cell below the width exists: there is a first row, and no row is
        shorter than it. */
    predicate Valid() {
      |rows| > 0 && forall y :: 0 <= y < |rows| ==> |rows[y]| >= |rows[0]|
    }

    /** The width is the length of the first row. */
    function Width(): nat
      requires |rows| > 0
    {
      |rows[0]|
    }

    function Height(): nat {
      |rows|
    }

    predicate InBounds(x: int, y: int)
      requires |rows| > 0
    {
      0 <= y < Height() && 0 <= x < Width()
    }
  }

  /** Drops the blank lines of the input; every other line becomes a row. */
  function Load(lines: seq<string>): (p: WordPuzzle)
    ensures |p.rows| <= |lines|
    ensures forall y :: 0 <= y < |p.rows| ==> |p.rows[y]| > 0
    ensures forall l :: l in p.rows <==> l in lines && |l| > 0
    ensures (forall i :: 0 <= i < |lines| ==> |lines[i]| > 0) ==> p.rows == lines
    ensures |lines| == 1 ==> p.rows == if |lines[0]| > 0 then lines else []
    decreases |lines|
  {
    if |lines| == 0 then WordPuzzle([])
    else
      var rest := Load(lines[1..]).rows;
      assert forall l :: l in lines <==> l == lines[0] || l in lines[1..];
      if |lines[0]| == 0 then WordPuzzle(rest) else WordPuzzle([lines[0]] + rest)
  }

  /** The first line contributes its own row, unless it is blank, ahead of the rows
      of the other lines. */
  lemma LoadCons(l: string, rest: seq<string>)
    ensures Load([l] + rest).rows == (if |l| > 0 then [l] else []) + Load(rest).rows
  {
    assert ([l] + rest)[0] == l && ([l] + rest)[1..] == rest;
  }

  /** Loading works line by line: the rows of an input are those of its parts, in
      order, so each row sits where its line did among the non-blank lines. */
  lemma {:induction false} LoadAppend(a: seq<string>, b: seq<string>)
    ensures Load(a + b).rows == Load(a).rows + Load(b).rows
    decreases |a|
  {
    if |a| == 0 {
      assert a + b == b;
    } else {
      var head := if |a[0]| > 0 then [a[0]] else [];
      assert a == [a[0]] + a[1..];
      assert a + b == [a[0]] + (a[1..] + b);
      LoadCons(a[0], a[1..]);
      LoadCons(a[0], a[1..] + b);
      LoadAppend(a[1..], b);
      ConcatAssociative(head, Load(a[1..]).rows, Load(b).rows);
    }
  }

  lemma ConcatAssociative<T>(x: seq<T>, y: seq<T>, z: seq<T>)
    ensures x + (y + z) == (x + y) + z
  {
  }

  type Position = (int, int)

  /** The letters at the given positions, in order, skipping every position that
      lies outside the grid. */
  function ValuesFor(p: WordPuzzle, positions: seq<Position>): (r: seq<char>)
    requires p.Valid()
    ensures |r| <= |positions|
    ensures |r| == |positions| <==>
      forall i :: 0 <= i < |positions| ==> p.InBounds(positions[i].0, positions[i].1)
    ensures |r| == |positions| ==>
      forall i :: 0 <= i < |r| ==> r[i] == p.rows[positions[i].1][positions[i].0]
    decreases |positions|
  {
    if |positions| == 0 then []
    else
      ValuesFor(p, positions[..|positions| - 1]) + Cell(p, positions[|positions| - 1])
  }

  function Reverse<T>(s: seq<T>): (r: seq<T>)
    ensures |r| == |s| && forall i :: 0 <= i < |s| ==> r[i] == s[|s| - 1 - i]
  {
    if |s| == 0 then [] else Reverse(s[1..]) + [s[0]]
  }

  lemma {:induction false} ValuesForAppend(p: WordPuzzle, a: seq<Position>, b: seq<Position>)
    requires p.Valid()
    ensures ValuesFor(p, a + b) == ValuesFor(p, a) + ValuesFor(p, b)
    decreases |b|
  {
    if |b| == 0 {
      assert a + b == a;
    } else {
      var init := b[..|b| - 1];
      var last := b[|b| - 1];
      var c := Cell(p, last);
      calc {
        ValuesFor(p, a + b);
        { assert a + b == (a + init) + [last]; ValuesForSnoc(p, a + init, last); }
        ValuesFor(p, a + init) + c;
        { ValuesForAppend(p, a, init); }
        ValuesFor(p, a) + ValuesFor(p, init) + c;
        { assert b == init + [last]; ValuesForSnoc(p, init, last); }
        ValuesFor(p, a) + ValuesFor(p, b);
      }
    }
  }

  lemma ReverseSnoc<T>(s: seq<T>, x: T)
    ensures Reverse(s + [x]) == [x] + Reverse(s)
  {
    assert forall i :: 0 <= i < |s| ==> Reverse(s + [x])[i + 1] == Reverse(s)[i];
  }

  /** The letter at one position, or nothing when it lies off the grid. */
  function Cell(p: WordPuzzle, q: Position): (r: seq<char>)
    requires p.Valid()
    ensures |r| <= 1
  {
    if p.InBounds(q.0, q.1) then [p.rows[q.1][q.0]] else []
  }

  lemma ValuesForSnoc(p: WordPuzzle, init: seq<Position>, last: Position)
    requires p.Valid()
    ensures ValuesFor(p, init + [last]) == ValuesFor(p, init) + Cell(p, last)
  {
    assert (init + [last])[..|init|] == init;
  }

  lemma ValuesForSingle(p: WordPuzzle, q: Position)
    requires p.Valid()
    ensures ValuesFor(p, [q]) == Cell(p, q)
  {
    ValuesForSnoc(p, [], q);
    assert [] + [q] == [q];
  }

  /** Clipping commutes with reading the positions backwards. */
  lemma {:induction false} ValuesForReverse(p: WordPuzzle, positions: seq<Position>)
    requires p.Valid()
    ensures ValuesFor(p, Reverse(positions)) == Reverse(ValuesFor(p, positions))
    decreases |positions|
  {
    if |positions| > 0 {
      var n := |positions|;
      var init := positions[..n - 1];
      var last := positions[n - 1];
      assert positions == init + [last];
      var v := ValuesFor(p, init);
      var c := Cell(p, last);
      calc {
        ValuesFor(p, Reverse(positions));
        { ReverseSnoc(init, last); }
        ValuesFor(p, [last] + Reverse(init));
        { ValuesForAppend(p, [last], Reverse(init)); ValuesForSingle(p, last); }
        c + ValuesFor(p, Reverse(init));
        { ValuesForReverse(p, init); }
        c + Reverse(v);
      }
      ValuesForSnoc(p, init, last);
      if |c| == 1 {
        ReverseSnoc(v, c[0]);
        assert v + c == v + [c[0]];
      } else {
        assert v + c == v;
      }
    }
  }

  /** The eight straight readings, in the order the source checks them. */
  datatype Reading =
    | LeftToRight | RightToLeft | TopToBottom | BottomToTop
    | TopLeftToBottomRight | TopRightToBottomLeft | BottomLeftToTopRight | BottomRightToTopLeft
  {
    /** The displacement between consecutive cells of the reading. */
    function Delta(): (int, int) {
      match this
      case LeftToRight => (1, 0)
      case RightToLeft => (-1, 0)
      case TopToBottom => (0, 1)
      case BottomToTop => (0, -1)
      case TopLeftToBottomRight => (1, 1)
      case TopRightToBottomLeft => (-1, 1)
      case BottomLeftToTopRight => (1, -1)
      case BottomRightToTopLeft => (-1, -1)
    }

    /** The reading along the same line in the other sense. */
    function Opposite(): (o: Reading)
      ensures o.Delta() == (-Delta().0, -Delta().1)
    {
      match this
      case LeftToRight => RightToLeft
      case RightToLeft => LeftToRight
      case TopToBottom => BottomToTop
      case BottomToTop => TopToBottom
      case TopLeftToBottomRight => BottomRightToTopLeft
      case TopRightToBottomLeft => BottomLeftToTopRight
      case BottomLeftToTopRight => TopRightToBottomLeft
      case BottomRightToTopLeft => TopLeftToBottomRight
    }
  }

  const AllReadings: seq<Reading> := [
    LeftToRight, RightToLeft, TopToBottom, BottomToTop,
    TopLeftToBottomRight, TopRightToBottomLeft, BottomLeftToTopRight, BottomRightToTopLeft
  ]

  /** The len positions a reading visits from (x, y), one per range element of the
      corresponding reader in the source. Each is a fixed step from the last. */
  function Positions(d: Reading, x: int, y: int, len: nat): (r: seq<Position>)
    ensures |r| == len
    ensures forall i :: 0 <= i < len ==> r[i] == (x + i * d.Delta().0, y + i * d.Delta().1)
  {
    match d
    case LeftToRight => seq(len, i => (x + i, y))
    case RightToLeft => seq(len, i => (x - i, y))
    case TopToBottom => seq(len, i => (x, y + i))
    case BottomToTop => seq(len, i => (x, y - i))
    case TopLeftToBottomRight => seq(len, i => (x + i, y + i))
    case TopRightToBottomLeft => seq(len, i => (x - i, y + i))
    case BottomLeftToTopRight => seq(len, i => (x + i, y - i))
    case BottomRightToTopLeft => seq(len, i => (x - i, y - i))
  }

  /** The letters read from (x, y) in direction d, at most len of them. */
  function Read(p: WordPuzzle, d: Reading, x: int, y: int, len: nat): (r: seq<char>)
    requires p.Valid()
    ensures |r| <= len
  {
    ValuesFor(p, Positions(d, x, y, len))
  }

  /** The source's test of one direction: the clipped reading equals the word. */
  predicate Matches(p: WordPuzzle, d: Reading, x: int, y: int, word: string)
    requires p.Valid()
  {
    Read(p, d, x, y, |word|) == word
  }

  /** The direction test at (x, y) for the word, as a function of the direction. */
  function Matcher(p: WordPuzzle, x: int, y: int, word: string): Reading -> bool
    requires p.Valid()
  {
    d => Matches(p, d, x, y, word)
  }

  /** The word is spelled from (x, y) in direction d: each of its letters lies on the
      grid at the corresponding position of the line. */
  predicate Spells(p: WordPuzzle, d: Reading, x: int, y: int, word: string)
    requires p.Valid()
  {
    var ps := Positions(d, x, y, |word|);
    forall i :: 0 <= i < |word| ==> p.InBounds(ps[i].0, ps[i].1) && p.rows[ps[i].1][ps[i].0] == word[i]
  }

  /** Comparing the clipped reading with the word succeeds exactly when every cell is
      on the grid and spells the word: a clipped reading is too short to match. */
  lemma MatchesIffSpells(p: WordPuzzle, d: Reading, x: int, y: int, word: string)
    requires p.Valid()
    ensures Matches(p, d, x, y, word) <==> Spells(p, d, x, y, word)
  {
    var ps := Positions(d, x, y, |word|);
    var r := ValuesFor(p, ps);
    if Spells(p, d, x, y, word) {
      assert forall i :: 0 <= i < |ps| ==> p.InBounds(ps[i].0, ps[i].1);
      assert |r| == |word|;
      assert r == word;
    }
  }

  /** The i-th step back from the far end of a line of len cells is the
      (len - 1 - i)-th step forward from its start. */
  lemma ReflectStep(len: nat, i: int, x: int, dx: int)
    ensures x + (len - 1) * dx + i * -dx == x + (len - 1 - i) * dx
  {
    assert (len - 1 - i) * dx == (len - 1) * dx - i * dx;
  }

  /** The i-th cell of the backward line is the (len - 1 - i)-th of the forward one. */
  lemma PositionOppositeAt(d: Reading, x: int, y: int, len: nat, i: nat)
    requires i < len
    ensures Positions(d.Opposite(), x + (len - 1) * d.Delta().0, y + (len - 1) * d.Delta().1, len)[i]
         == Positions(d, x, y, len)[len - 1 - i]
  {
    var (dx, dy) := d.Delta();
    assert d.Opposite().Delta() == (-dx, -dy);
    ReflectStep(len, i, x, dx);
    ReflectStep(len, i, y, dy);
  }

  lemma PositionsOppositeReverse(d: Reading, x: int, y: int, len: nat)
    requires len > 0
    ensures Positions(d.Opposite(), x + (len - 1) * d.Delta().0, y + (len - 1) * d.Delta().1, len)
         == Reverse(Positions(d, x, y, len))
  {
    var (dx, dy) := d.Delta();
    var fwd := Positions(d, x, y, len);
    var bwd := Positions(d.Opposite(), x + (len - 1) * dx, y + (len - 1) * dy, len);
    forall i | 0 <= i < len
      ensures bwd[i] == fwd[len - 1 - i]
    {
      PositionOppositeAt(d, x, y, len, i);
    }
    assert bwd == Reverse(fwd);
  }

  /** Reading a line backwards from its far end gives the letters of the forward
      reading in reverse, clipped or not. */
  lemma ReadOppositeIsReverse(p: WordPuzzle, d: Reading, x: int, y: int, len: nat)
    requires p.Valid() && len > 0
    ensures Read(p, d.Opposite(), x + (len - 1) * d.Delta().0, y + (len - 1) * d.Delta().1, len)
         == Reverse(Read(p, d, x, y, len))
  {
    PositionsOppositeReverse(d, x, y, len);
    ValuesForReverse(p, Positions(d, x, y, len));
  }

  /** The diagonal pair the X-shaped test compares: bottom-right to top-left from
      (x+1, y+1) is top-left to bottom-right from (x-1, y-1), reversed. */
  lemma CrossDiagonalsReverse(p: WordPuzzle, x: int, y: int)
    requires p.Valid()
    ensures Read(p, BottomRightToTopLeft, x + 1, y + 1, 3)
         == Reverse(Read(p, TopLeftToBottomRight, x - 1, y - 1, 3))
    ensures Read(p, BottomLeftToTopRight, x - 1, y + 1, 3)
         == Reverse(Read(p, TopRightToBottomLeft, x + 1, y - 1, 3))
  {
    ReadOppositeIsReverse(p, TopLeftToBottomRight, x - 1, y - 1, 3);
    ReadOppositeIsReverse(p, TopRightToBottomLeft, x + 1, y - 1, 3);
  }

  lemma AllReadingsComplete(d: Reading)
    ensures d in AllReadings
  {
    match d
    case LeftToRight => assert AllReadings[0] == d;
    case RightToLeft => assert AllReadings[1] == d;
    case TopToBottom => assert AllReadings[2] == d;
    case BottomToTop => assert AllReadings[3] == d;
    case TopLeftToBottomRight => assert AllReadings[4] == d;
    case TopRightToBottomLeft => assert AllReadings[5] == d;
    case BottomLeftToTopRight => assert AllReadings[6] == d;
    case BottomRightToTopLeft => assert AllReadings[7] == d;
  }

  /** The number of the eight readings from (x, y) that match the word. */
  function CountWordAt(p: WordPuzzle, x: int, y: int, word: string): (r: nat)
    requires p.Valid()
    ensures r <= 8
    ensures r > 0 <==> exists d :: Matches(p, d, x, y, word)
  {
    var r := CountWhere(AllReadings, Matcher(p, x, y, word));
    assert (exists d :: Matches(p, d, x, y, word)) ==> r > 0 by {
      if d :| Matches(p, d, x, y, word) {
        AllReadingsComplete(d);
      }
    }
    r
  }

  lemma AllReadingsDistinct()
    ensures forall i, j :: 0 <= i < j < |AllReadings| ==> AllReadings[i] != AllReadings[j]
  {
    var index := (d: Reading) =>
      match d
      case LeftToRight => 0
      case RightToLeft => 1
      case TopToBottom => 2
      case BottomToTop => 3
      case TopLeftToBottomRight => 4
      case TopRightToBottomLeft => 5
      case BottomLeftToTopRight => 6
      case BottomRightToTopLeft => 7;
    assert forall i :: 0 <= i < |AllReadings| ==> index(AllReadings[i]) == i;
  }

  /** The directions of ds in which the word is spelled from (x, y). */
  function SpellingDirections(p: WordPuzzle, ds: seq<Reading>, x: int, y: int, word: string): set<Reading>
    requires p.Valid()
  {
    set d | d in ds && Spells(p, d, x, y, word)
  }

  lemma MatchingAreSpelling(p: WordPuzzle, ds: seq<Reading>, x: int, y: int, word: string)
    requires p.Valid()
    ensures Where(ds, Matcher(p, x, y, word)) == SpellingDirections(p, ds, x, y, word)
  {
    var matching := Where(ds, Matcher(p, x, y, word));
    var spelling := SpellingDirections(p, ds, x, y, word);
    forall d | d in matching
      ensures d in spelling
    {
      MatchesIffSpells(p, d, x, y, word);
    }
    forall d | d in spelling
      ensures d in matching
    {
      MatchesIffSpells(p, d, x, y, word);
    }
  }

  /** The count at a cell is the number of directions in which the word is spelled
      there in full. */
  lemma CountWordAtIsSpellingDirections(p: WordPuzzle, x: int, y: int, word: string)
    requires p.Valid()
    ensures CountWordAt(p, x, y, word) == |SpellingDirections(p, AllReadings, x, y, word)|
  {
    AllReadingsDistinct();
    CountWhereIsSetSize(AllReadings, Matcher(p, x, y, word));
    MatchingAreSpelling(p, AllReadings, x, y, word);
  }

  /** The X-shaped test at an on-grid cell: the centre is 'A' and each diagonal
      reads "MAS" in one of its two senses. */
  function IsXMasCross(p: WordPuzzle, x: int, y: int): bool
    requires p.Valid() && p.InBounds(x, y)
  {
    if p.rows[y][x] != 'A' then false
    else
      var toFind := "MAS";
      var tlToBr := Read(p, TopLeftToBottomRight, x - 1, y - 1, 3);
      var brToTl := Read(p, BottomRightToTopLeft, x + 1, y + 1, 3);
      if !(tlToBr == toFind || brToTl == toFind) then false
      else
        var trToBl := Read(p, TopRightToBottomLeft, x + 1, y - 1, 3);
        var blToTr := Read(p, BottomLeftToTopRight, x - 1, y + 1, 3);
        if !(trToBl == toFind || blToTr == toFind) then false
        else true
  }

  /** The two corners (x1, y1) and (x2, y2) exist and hold 'M' and 'S' in some order. */
  predicate MsPair(p: WordPuzzle, x1: int, y1: int, x2: int, y2: int)
    requires p.Valid()
  {
    && p.InBounds(x1, y1) && p.InBounds(x2, y2)
    && ((p.rows[y1][x1] == 'M' && p.rows[y2][x2] == 'S')
        || (p.rows[y1][x1] == 'S' && p.rows[y2][x2] == 'M'))
  }

  /** A three-cell reading whose middle cell holds an 'A' reads "MAS" exactly when its
      first cell holds an 'M' and its last an 'S', both on the grid. */
  lemma ReadsMasAt(p: WordPuzzle, d: Reading, x: int, y: int, first: Position, last: Position)
    requires p.Valid()
    requires Positions(d, x, y, 3)[0] == first && Positions(d, x, y, 3)[2] == last
    requires var mid := Positions(d, x, y, 3)[1]; p.InBounds(mid.0, mid.1) && p.rows[mid.1][mid.0] == 'A'
    ensures Read(p, d, x, y, 3) == "MAS" <==>
      && p.InBounds(first.0, first.1) && p.InBounds(last.0, last.1)
      && p.rows[first.1][first.0] == 'M' && p.rows[last.1][last.0] == 'S'
  {
    MatchesIffSpells(p, d, x, y, "MAS");
  }

  /** The falling diagonal through an 'A' at (x, y) reads "MAS" one way or the other
      exactly when its two ends are an 'M' and an 'S'. */
  lemma FallingDiagonalReadsMas(p: WordPuzzle, x: int, y: int)
    requires p.Valid() && p.InBounds(x, y) && p.rows[y][x] == 'A'
    ensures (Read(p, TopLeftToBottomRight, x - 1, y - 1, 3) == "MAS"
             || Read(p, BottomRightToTopLeft, x + 1, y + 1, 3) == "MAS")
        <==> MsPair(p, x - 1, y - 1, x + 1, y + 1)
  {
    assert Positions(TopLeftToBottomRight, x - 1, y - 1, 3)[1] == (x, y);
    ReadsMasAt(p, TopLeftToBottomRight, x - 1, y - 1, (x - 1, y - 1), (x + 1, y + 1));
    assert Positions(BottomRightToTopLeft, x + 1, y + 1, 3)[1] == (x, y);
    ReadsMasAt(p, BottomRightToTopLeft, x + 1, y + 1, (x + 1, y + 1), (x - 1, y - 1));
  }

  /** The same for the rising diagonal. */
  lemma RisingDiagonalReadsMas(p: WordPuzzle, x: int, y: int)
    requires p.Valid() && p.InBounds(x, y) && p.rows[y][x] == 'A'
    ensures (Read(p, TopRightToBottomLeft, x + 1, y - 1, 3) == "MAS"
             || Read(p, BottomLeftToTopRight, x - 1, y + 1, 3) == "MAS")
        <==> MsPair(p, x + 1, y - 1, x - 1, y + 1)
  {
    assert Positions(TopRightToBottomLeft, x + 1, y - 1, 3)[1] == (x, y);
    ReadsMasAt(p, TopRightToBottomLeft, x + 1, y - 1, (x + 1, y - 1), (x - 1, y + 1));
    assert Positions(BottomLeftToTopRight, x - 1, y + 1, 3)[1] == (x, y);
    ReadsMasAt(p, BottomLeftToTopRight, x - 1, y + 1, (x - 1, y + 1), (x + 1, y - 1));
  }

  /** The X-shaped test holds exactly when the centre is 'A' and the ends of both
      diagonals are on the grid and hold an 'M' and an 'S'. */
  lemma XMasCrossIff(p: WordPuzzle, x: int, y: int)
    requires p.Valid() && p.InBounds(x, y)
    ensures IsXMasCross(p, x, y) <==>
      && p.rows[y][x] == 'A'
      && MsPair(p, x - 1, y - 1, x + 1, y + 1)
      && MsPair(p, x + 1, y - 1, x - 1, y + 1)
  {
    if p.rows[y][x] == 'A' {
      FallingDiagonalReadsMas(p, x, y);
      RisingDiagonalReadsMas(p, x, y);
    }
  }

  /** g(0) + g(1) + ... + g(n - 1): the source's sums over a range of columns or rows. */
  function SumBelow(g: int -> nat, n: nat): nat {
    if n == 0 then 0 else SumBelow(g, n - 1) + g(n - 1)
  }

  /** A sum of n terms of at most k each is at most k * n. */
  lemma {:induction false} SumBelowBounded(g: int -> nat, n: nat, k: nat)
    requires forall x :: 0 <= x < n ==> g(x) <= k
    ensures SumBelow(g, n) <= k * n
  {
    if n > 0 {
      SumBelowBounded(g, n - 1, k);
      assert k * n == k * (n - 1) + k;
    }
  }

  /** The words counted at each cell of row y, as a function of the column. */
  function CellWordCounts(p: WordPuzzle, y: int, word: string): int -> nat
    requires p.Valid()
  {
    x => CountWordAt(p, x, y, word)
  }

  /** The words counted over cells (0, y) .. (n-1, y). */
  function RowWordCount(p: WordPuzzle, y: int, n: nat, word: string): (r: nat)
    requires p.Valid()
    ensures r <= 8 * n
  {
    SumBelowBounded(CellWordCounts(p, y, word), n, 8);
    SumBelow(CellWordCounts(p, y, word), n)
  }

  /** The words counted in each full row, as a function of the row. */
  function RowWordCounts(p: WordPuzzle, word: string): int -> nat
    requires p.Valid()
  {
    y => RowWordCount(p, y, p.Width(), word)
  }

  /** The words counted over rows 0 .. h-1. */
  function GridWordCount(p: WordPuzzle, h: nat, word: string): (r: nat)
    requires p.Valid()
    ensures r <= 8 * p.Width() * h
  {
    SumBelowBounded(RowWordCounts(p, word), h, 8 * p.Width());
    SumBelow(RowWordCounts(p, word), h)
  }

  /** Part 1: the "XMAS" occurrences over every cell of the grid, at most eight per
      cell. */
  function PartOne(p: WordPuzzle): (r: nat)
    requires p.Valid()
    ensures r <= 8 * p.Width() * p.Height()
  {
    GridWordCount(p, p.Height(), "XMAS")
  }

  /** The cells that centre an X-shaped cross. */
  function CrossAt(p: WordPuzzle): (int, int) -> bool
    requires p.Valid()
  {
    (x, y) => p.InBounds(x, y) && IsXMasCross(p, x, y)
  }

  /** One for each cell of row y that centres a cross, as a function of the column. */
  function CellCrosses(p: WordPuzzle, y: int): int -> nat
    requires p.Valid()
  {
    x => if CrossAt(p)(x, y) then 1 else 0
  }

  /** The X-shaped crosses centred at (0, y) .. (n-1, y). */
  function RowCrossCount(p: WordPuzzle, y: int, n: nat): (r: nat)
    requires p.Valid()
    ensures r <= n
  {
    SumBelowBounded(CellCrosses(p, y), n, 1);
    SumBelow(CellCrosses(p, y), n)
  }

  /** The crosses in each full row, as a function of the row. */
  function RowCrossCounts(p: WordPuzzle): int -> nat
    requires p.Valid()
  {
    y => RowCrossCount(p, y, p.Width())
  }

  /** The X-shaped crosses centred in rows 0 .. h-1. */
  function GridCrossCount(p: WordPuzzle, h: nat): (r: nat)
    requires p.Valid()
    ensures r <= p.Width() * h
  {
    SumBelowBounded(RowCrossCounts(p), h, p.Width());
    SumBelow(RowCrossCounts(p), h)
  }

  /** Part 2: the number of cells that centre an X-shaped "MAS" cross. */
  function PartTwo(p: WordPuzzle): (r: nat)
    requires p.Valid()
    ensures r <= p.Width() * p.Height()
  {
    GridCrossCount(p, p.Height())
  }

  // ---------------------------------------------------------------------------
  // What the two totals count

  /** The (cell, direction) pairs from cells (0, y) .. (n-1, y) that pass f. */
  function RowPairs(f: (int, int, Reading) -> bool, y: int, n: nat): set<(int, int, Reading)> {
    set x, d: Reading | 0 <= x < n && f(x, y, d) :: (x, y, d)
  }

  /** The (cell, direction) pairs from cells (x, y) with x < w and y < h that pass f. */
  function GridPairs(f: (int, int, Reading) -> bool, w: nat, h: nat): set<(int, int, Reading)> {
    set x, y, d: Reading | 0 <= x < w && 0 <= y < h && f(x, y, d) :: (x, y, d)
  }

  /** The directions from (x, y) that pass f, tagged with the cell. */
  function CellPairs(f: (int, int, Reading) -> bool, x: int, y: int): set<(int, int, Reading)> {
    set d: Reading | f(x, y, d) :: (x, y, d)
  }

  /** Tagging a set of directions with a fixed cell keeps its size. */
  lemma {:induction false} TaggedSize(ds: set<Reading>, x: int, y: int)
    ensures |set d | d in ds :: (x, y, d)| == |ds|
    decreases |ds|
  {
    if ds != {} {
      var d :| d in ds;
      TaggedSize(ds - {d}, x, y);
      assert (set e | e in ds :: (x, y, e)) == (set e | e in ds - {d} :: (x, y, e)) + {(x, y, d)};
    }
  }

  /** A row of n cells holds the pairs of its first n - 1 cells and those of its last. */
  lemma RowPairsSplit(f: (int, int, Reading) -> bool, y: int, n: nat)
    requires n > 0
    ensures RowPairs(f, y, n) == RowPairs(f, y, n - 1) + CellPairs(f, n - 1, y)
    ensures RowPairs(f, y, n - 1) * CellPairs(f, n - 1, y) == {}
  {
  }

  /** h rows hold the pairs of the first h - 1 rows and those of the last. */
  lemma GridPairsSplit(f: (int, int, Reading) -> bool, w: nat, h: nat)
    requires h > 0
    ensures GridPairs(f, w, h) == GridPairs(f, w, h - 1) + RowPairs(f, h - 1, w)
    ensures GridPairs(f, w, h - 1) * RowPairs(f, h - 1, w) == {}
  {
  }

  /** The count at a cell is the number of directions f admits there, for any f that
      is the spelling test at that cell. */
  lemma CountWordAtIsCellPairs(p: WordPuzzle, x: int, y: int, word: string, f: (int, int, Reading) -> bool)
    requires p.Valid()
    requires forall d :: f(x, y, d) == Spells(p, d, x, y, word)
    ensures CountWordAt(p, x, y, word) == |CellPairs(f, x, y)|
  {
    var ds := SpellingDirections(p, AllReadings, x, y, word);
    CountWordAtIsSpellingDirections(p, x, y, word);
    forall d: Reading
      ensures d in ds <==> f(x, y, d)
    {
      AllReadingsComplete(d);
    }
    CellPairsTagged(f, x, y, ds);
  }

  /** The pairs f admits at a cell are the directions it admits, tagged with the cell. */
  lemma CellPairsTagged(f: (int, int, Reading) -> bool, x: int, y: int, ds: set<Reading>)
    requires forall d :: d in ds <==> f(x, y, d)
    ensures |CellPairs(f, x, y)| == |ds|
  {
    TaggedSize(ds, x, y);
    assert CellPairs(f, x, y) == set d | d in ds :: (x, y, d);
  }

  /** The sizes of two disjoint sets add up. */
  lemma DisjointUnionSize<T>(a: set<T>, b: set<T>)
    requires a * b == {}
    ensures |a + b| == |a| + |b|
  {
  }

  /** A sum whose x-th term is the number of pairs f admits at cell (x, y) is the
      number of pairs f admits in the first n cells of the row. */
  lemma {:induction false} SumBelowIsRowPairs(g: int -> nat, f: (int, int, Reading) -> bool, y: int, n: nat)
    requires forall x :: 0 <= x < n ==> g(x) == |CellPairs(f, x, y)|
    ensures SumBelow(g, n) == |RowPairs(f, y, n)|
  {
    if n > 0 {
      SumBelowIsRowPairs(g, f, y, n - 1);
      RowPairsSplit(f, y, n);
      DisjointUnionSize(RowPairs(f, y, n - 1), CellPairs(f, n - 1, y));
    }
  }

  /** A sum whose y-th term is the number of pairs f admits in row y is the number
      of pairs f admits in the first h rows. */
  lemma {:induction false} SumBelowIsGridPairs(g: int -> nat, f: (int, int, Reading) -> bool, w: nat, h: nat)
    requires forall y :: 0 <= y < h ==> g(y) == |RowPairs(f, y, w)|
    ensures SumBelow(g, h) == |GridPairs(f, w, h)|
  {
    if h > 0 {
      SumBelowIsGridPairs(g, f, w, h - 1);
      GridPairsSplit(f, w, h);
      DisjointUnionSize(GridPairs(f, w, h - 1), RowPairs(f, h - 1, w));
    }
  }

  /** The count over the whole grid is the number of (cell, direction) pairs along
      which the word is spelled in full. */
  lemma WordCountIsSpellings(p: WordPuzzle, word: string)
    requires p.Valid()
    ensures GridWordCount(p, p.Height(), word) ==
      |set x, y, d | 0 <= x < p.Width() && 0 <= y < p.Height() && d in AllReadings
                     && Spells(p, d, x, y, word) :: (x, y, d)|
  {
    var f := (x: int, y: int, d: Reading) => Spells(p, d, x, y, word);
    var w := p.Width();
    forall y | 0 <= y < p.Height()
      ensures RowWordCounts(p, word)(y) == |RowPairs(f, y, w)|
    {
      forall x | 0 <= x < w
        ensures CellWordCounts(p, y, word)(x) == |CellPairs(f, x, y)|
      {
        CountWordAtIsCellPairs(p, x, y, word, f);
      }
      SumBelowIsRowPairs(CellWordCounts(p, y, word), f, y, w);
    }
    SumBelowIsGridPairs(RowWordCounts(p, word), f, w, p.Height());
    forall d: Reading
      ensures d in AllReadings
    {
      AllReadingsComplete(d);
    }
    assert GridWordCount(p, p.Height(), word) == |GridPairs(f, w, p.Height())|;
    assert GridPairs(f, w, p.Height()) ==
      set x, y, d | 0 <= x < p.Width() && 0 <= y < p.Height() && d in AllReadings
                    && Spells(p, d, x, y, word) :: (x, y, d);
  }

  /** Part 1 counts each cell of the grid once per direction in which "XMAS" is
      spelled from it in full. */
  lemma PartOneCountsSpellings(p: WordPuzzle)
    requires p.Valid()
    ensures PartOne(p) ==
      |set x, y, d | 0 <= x < p.Width() && 0 <= y < p.Height() && d in AllReadings
                     && Spells(p, d, x, y, "XMAS") :: (x, y, d)|
  {
    WordCountIsSpellings(p, "XMAS");
  }

  /** The cells (x, y) with x < n that pass f. */
  function RowCells(f: (int, int) -> bool, y: int, n: nat): set<Position> {
    set x | 0 <= x < n && f(x, y) :: (x, y)
  }

  /** The cells (x, y) with x < w and y < h that pass f. */
  function GridCells(f: (int, int) -> bool, w: nat, h: nat): set<Position> {
    set x, y | 0 <= x < w && 0 <= y < h && f(x, y) :: (x, y)
  }

  lemma RowCellsSplit(f: (int, int) -> bool, y: int, n: nat)
    requires n > 0
    ensures RowCells(f, y, n) == RowCells(f, y, n - 1) + (if f(n - 1, y) then {(n - 1, y)} else {})
    ensures (n - 1, y) !in RowCells(f, y, n - 1)
  {
  }

  lemma GridCellsSplit(f: (int, int) -> bool, w: nat, h: nat)
    requires h > 0
    ensures GridCells(f, w, h) == GridCells(f, w, h - 1) + RowCells(f, h - 1, w)
    ensures GridCells(f, w, h - 1) * RowCells(f, h - 1, w) == {}
  {
  }

  /** A sum of one for each of the first n cells of row y that pass f counts them. */
  lemma {:induction false} SumBelowIsRowCells(g: int -> nat, f: (int, int) -> bool, y: int, n: nat)
    requires forall x :: 0 <= x < n ==> g(x) == if f(x, y) then 1 else 0
    ensures SumBelow(g, n) == |RowCells(f, y, n)|
  {
    if n > 0 {
      SumBelowIsRowCells(g, f, y, n - 1);
      RowCellsSplit(f, y, n);
    }
  }

  /** A sum whose y-th term counts the cells of row y that pass f counts those of
      the first h rows. */
  lemma {:induction false} SumBelowIsGridCells(g: int -> nat, f: (int, int) -> bool, w: nat, h: nat)
    requires forall y :: 0 <= y < h ==> g(y) == |RowCells(f, y, w)|
    ensures SumBelow(g, h) == |GridCells(f, w, h)|
  {
    if h > 0 {
      SumBelowIsGridCells(g, f, w, h - 1);
      GridCellsSplit(f, w, h);
      DisjointUnionSize(GridCells(f, w, h - 1), RowCells(f, h - 1, w));
    }
  }

  /** Part 2 counts the cells of the grid that centre an X-shaped "MAS" cross. */
  lemma PartTwoCountsCrosses(p: WordPuzzle)
    requires p.Valid()
    ensures PartTwo(p) ==
      |set x, y | 0 <= x < p.Width() && 0 <= y < p.Height() && IsXMasCross(p, x, y) :: (x, y)|
  {
    var f := CrossAt(p);
    var w := p.Width();
    forall y | 0 <= y < p.Height()
      ensures RowCrossCounts(p)(y) == |RowCells(f, y, w)|
    {
      SumBelowIsRowCells(CellCrosses(p, y), f, y, w);
    }
    SumBelowIsGridCells(RowCrossCounts(p), f, w, p.Height());
    assert PartTwo(p) == |GridCells(f, w, p.Height())|;
    assert GridCells(f, w, p.Height()) ==
      set x, y | 0 <= x < p.Width() && 0 <= y < p.Height() && IsXMasCross(p, x, y) :: (x, y);
  }
}
