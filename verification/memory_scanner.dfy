/** The corrupted memory of day 3: a left-to-right scan for the instruction
    `mul(A,B)` with one to three digits per operand, and the `do()` / `don't()`
    switches that enable and disable later multiplications. */
module MemoryScanner {
  import opened Wrappers
  import opened Decimal
  import opened Text

  /** The instructions the scanner recognises. */
  datatype Token = Mul(a: nat, b: nat) | Do | Dont

  /** A recognised `mul` instruction: the digits of its two operands (the two groups
      of the pattern) and the index just past it. */
  datatype MulMatch = MulMatch(da: string, db: string, end: nat)

  /** Characters k to k + n - 1 of s are digits. */
  predicate DigitsAt(s: string, k: nat, n: nat)
    requires k + n <= |s|
  {
    forall j :: k <= j < k + n ==> IsDigit(s[j])
  }

  /** The length of the operand at index k: one to three digits followed by the
      character close, which is the pattern `\d{1,3}` and then close. */
  function OperandLength(s: string, k: nat, close: char): (r: Option<nat>)
    requires k <= |s|
    ensures r.Some? ==> 1 <= r.value <= 3 && k + r.value < |s| && s[k + r.value] == close
    ensures r.Some? ==> DigitsAt(s, k, r.value)
  {
    if k + 1 < |s| && IsDigit(s[k]) && s[k + 1] == close then Some(1)
    else if k + 2 < |s| && IsDigit(s[k]) && IsDigit(s[k + 1]) && s[k + 2] == close then Some(2)
    else if k + 3 < |s| && IsDigit(s[k]) && IsDigit(s[k + 1]) && IsDigit(s[k + 2]) && s[k + 3] == close
    then Some(3)
    else None
  }

  /** Digits in place are a digit string. */
  lemma DigitsAtSlice(s: string, k: nat, n: nat)
    requires k + n <= |s| && DigitsAt(s, k, n)
    ensures AllDigits(s[k..k + n])
  {
    var t := s[k..k + n];
    forall j | 0 <= j < |t|
      ensures IsDigit(t[j])
    {
      assert t[j] == s[k + j];
    }
  }

  /** A digit string written at index k of s puts digits there. */
  lemma DigitsInPlace(s: string, k: nat, d: string)
    requires AllDigits(d) && TextAt(s, k, d)
    ensures DigitsAt(s, k, |d|)
  {
    forall j | k <= j < k + |d|
      ensures IsDigit(s[j])
    {
      assert s[j] == s[k..k + |d|][j - k];
    }
  }

  /** Conversely, one to three digits followed by a non-digit close are an operand
      of exactly that length. */
  lemma OperandLengthOf(s: string, k: nat, d: string, close: char)
    requires !IsDigit(close) && AllDigits(d) && 1 <= |d| <= 3 && TextAt(s, k, d)
    requires k + |d| < |s| && s[k + |d|] == close
    ensures OperandLength(s, k, close) == Some(|d|)
  {
    DigitsInPlace(s, k, d);
  }

  /** The text "mul(" starts at index i, compared character by character. */
  predicate MulOpenAt(s: string, i: nat) {
    i + 4 <= |s| && s[i] == 'm' && s[i + 1] == 'u' && s[i + 2] == 'l' && s[i + 3] == '('
  }

  lemma MulOpenAtIsText(s: string, i: nat)
    ensures MulOpenAt(s, i) <==> TextAt(s, i, "mul(")
  {
    if i + 4 <= |s| {
      var w := s[i..i + 4];
      assert w[0] == s[i] && w[1] == s[i + 1] && w[2] == s[i + 2] && w[3] == s[i + 3];
    }
  }

  /** The `mul` instruction starting at index i, if there is one: "mul(", an
      operand closed by ",", and an operand closed by ")". */
  function MulAt(s: string, i: nat): (r: Option<MulMatch>)
    requires i <= |s|
    ensures r.Some? ==> i + 8 <= r.value.end <= |s|
    ensures r.Some? ==> AllDigits(r.value.da) && 1 <= |r.value.da| <= 3
    ensures r.Some? ==> AllDigits(r.value.db) && 1 <= |r.value.db| <= 3
  {
    if MulOpenAt(s, i) then
      var p := i + 4;
      match OperandLength(s, p, ',')
      case None => None
      case Some(n) =>
        var q := p + n + 1;
        match OperandLength(s, q, ')')
        case None => None
        case Some(m) =>
          DigitsAtSlice(s, p, n);
          DigitsAtSlice(s, q, m);
          Some(MulMatch(s[p..p + n], s[q..q + m], q + m + 1))
    else None
  }

  /** t is the text of a `mul` instruction with operand digits da and db. */
  predicate IsMulText(t: string, da: string, db: string) {
    && AllDigits(da) && 1 <= |da| <= 3
    && AllDigits(db) && 1 <= |db| <= 3
    && t == "mul(" + da + "," + db + ")"
  }

  lemma SplitSlice(s: string, a: nat, b: nat, c: nat)
    requires a <= b <= c <= |s|
    ensures s[a..c] == s[a..b] + s[b..c]
  {
  }

  /** A slice cut at four points is the concatenation of its five pieces. */
  lemma SliceFivePieces(s: string, a: nat, b: nat, c: nat, d: nat, e: nat, f: nat)
    requires a <= b <= c <= d <= e <= f <= |s|
    ensures s[a..f] == s[a..b] + s[b..c] + s[c..d] + s[d..e] + s[e..f]
  {
    SplitSlice(s, a, e, f);
    SplitSlice(s, a, d, e);
    SplitSlice(s, a, c, d);
    SplitSlice(s, a, b, c);
  }

  /** Every match is the text of a `mul` instruction whose operands are the
      match's digits. */
  lemma MulAtSound(s: string, i: nat)
    requires i <= |s| && MulAt(s, i).Some?
    ensures var m := MulAt(s, i).value; IsMulText(s[i..m.end], m.da, m.db)
  {
    MulOpenAtIsText(s, i);
    var m := MulAt(s, i).value;
    var c := i + 4 + |m.da|;
    var e := c + 1 + |m.db|;
    assert m.da == s[i + 4..c] && m.db == s[c + 1..e] && m.end == e + 1;
    SliceFivePieces(s, i, i + 4, c, c + 1, e, e + 1);
    assert s[c..c + 1] == [','];
    assert s[e..e + 1] == [')'];
  }

  /** A piece of t at offset off lies in s at i + off when t lies in s at i. */
  lemma PieceAt(s: string, i: nat, t: string, off: nat, piece: string)
    requires TextAt(s, i, t)
    requires off + |piece| <= |t| && t[off..off + |piece|] == piece
    ensures TextAt(s, i + off, piece)
  {
    forall j | 0 <= j < |piece|
      ensures s[i + off + j] == piece[j]
    {
      assert s[i + off + j] == s[i..i + |t|][off + j] == t[off + j];
      assert t[off + j] == t[off..off + |piece|][j];
    }
    assert s[i + off..i + off + |piece|] == piece;
  }

  /** Where the text of a `mul` instruction lies in s, its five parts lie in s. */
  lemma MulTextLayout(s: string, i: nat, t: string, da: string, db: string)
    requires IsMulText(t, da, db) && TextAt(s, i, t)
    ensures TextAt(s, i, "mul(")
    ensures TextAt(s, i + 4, da) && i + 4 + |da| < |s| && s[i + 4 + |da|] == ','
    ensures TextAt(s, i + 4 + |da| + 1, db) && i + 4 + |da| + 1 + |db| < |s|
    ensures s[i + 4 + |da| + 1 + |db|] == ')'
    ensures |t| == |da| + |db| + 6
  {
    var c := 4 + |da|;
    var e := c + 1 + |db|;
    assert t[..4] == "mul(";
    assert t[4..c] == da;
    assert t[c..c + 1] == ",";
    assert t[c + 1..e] == db;
    assert t[e..e + 1] == ")";
    PieceAt(s, i, t, 0, "mul(");
    PieceAt(s, i, t, 4, da);
    PieceAt(s, i, t, c, ",");
    PieceAt(s, i, t, c + 1, db);
    PieceAt(s, i, t, e, ")");
    assert s[i + c..i + c + 1][0] == s[i + c];
    assert s[i + e..i + e + 1][0] == s[i + e];
  }

  /** Conversely, wherever the text of a `mul` instruction starts, it is matched,
      with its operands. */
  lemma MulAtComplete(s: string, i: nat, t: string, da: string, db: string)
    requires IsMulText(t, da, db) && TextAt(s, i, t)
    ensures MulAt(s, i) == Some(MulMatch(da, db, i + |t|))
  {
    MulTextLayout(s, i, t, da, db);
    MulOpenAtIsText(s, i);
    OperandLengthOf(s, i + 4, da, ',');
    OperandLengthOf(s, i + 4 + |da| + 1, db, ')');
  }

  /** An operand of four or more digits never matches. */
  lemma LongOperandNeverMatches(s: string, i: nat)
    requires TextAt(s, i, "mul(") && i + 8 <= |s|
    requires forall j :: i + 4 <= j < i + 8 ==> IsDigit(s[j])
    ensures MulAt(s, i).None?
  {
  }

  /** The tokens found scanning from index i, as Python's `re.findall` does: at each
      index the alternatives are tried in order (a `mul`, then, when the switches are
      recognised, "don't()" and "do()"); a match is recorded and the scan resumes just
      after it, otherwise the scan moves on by one character. */
  function Scan(s: string, i: nat, switches: bool): (ts: seq<Token>)
    requires i <= |s|
    decreases |s| - i
  {
    if i == |s| then []
    else
      match MulAt(s, i)
      case Some(m) => [Mul(Value(m.da), Value(m.db))] + Scan(s, m.end, switches)
      case None =>
        if switches && TextAt(s, i, "don't()") then [Dont] + Scan(s, i + 7, switches)
        else if switches && TextAt(s, i, "do()") then [Do] + Scan(s, i + 4, switches)
        else Scan(s, i + 1, switches)
  }

  /** The `mul` tokens of ts, in order. */
  function Muls(ts: seq<Token>): (r: seq<Token>)
    ensures |r| <= |ts|
    ensures forall t :: t in r <==> t in ts && t.Mul?
  {
    if |ts| == 0 then []
    else (if ts[0].Mul? then [ts[0]] else []) + Muls(ts[1..])
  }

  /** Without the switches the scan finds only `mul` tokens. */
  lemma {:induction false} ScanWithoutSwitchesOnlyMuls(s: string, i: nat)
    requires i <= |s|
    ensures forall t :: t in Scan(s, i, false) ==> t.Mul?
    decreases |s| - i
  {
    if i < |s| {
      match MulAt(s, i)
      case Some(m) => ScanWithoutSwitchesOnlyMuls(s, m.end);
      case None => ScanWithoutSwitchesOnlyMuls(s, i + 1);
    }
  }

  /** No `mul` starts inside [i, j): the scan without switches skips that stretch. */
  lemma {:induction false} ScanSkipsNoMul(s: string, i: nat, j: nat)
    requires i <= j <= |s|
    requires 'm' !in s[i..j]
    ensures Scan(s, i, false) == Scan(s, j, false)
    decreases j - i
  {
    if i < j {
      assert s[i] == s[i..j][0];
      assert s[i + 1..j] == s[i..j][1..];
      ScanSkipsNoMul(s, i + 1, j);
    }
  }

  lemma MulsCons(t: Token, ts: seq<Token>)
    ensures Muls([t] + ts) == (if t.Mul? then [t] else []) + Muls(ts)
  {
    assert ([t] + ts)[1..] == ts;
  }

  /** A switch text w holds no "m", so the scan without switches passes over it. */
  lemma SkipSwitch(s: string, i: nat, w: string)
    requires TextAt(s, i, w) && 'm' !in w
    ensures Scan(s, i, false) == Scan(s, i + |w|, false)
  {
    ScanSkipsNoMul(s, i, i + |w|);
  }

  /** At a `mul`, both scans emit the same token and go on from the same index. */
  lemma KeepMulsAtMatch(s: string, i: nat, m: MulMatch)
    requires i < |s| && MulAt(s, i) == Some(m)
    requires Muls(Scan(s, m.end, true)) == Scan(s, m.end, false)
    ensures Muls(Scan(s, i, true)) == Scan(s, i, false)
  {
    var t := Mul(Value(m.da), Value(m.db));
    assert Scan(s, i, true) == [t] + Scan(s, m.end, true);
    assert Scan(s, i, false) == [t] + Scan(s, m.end, false);
    MulsCons(t, Scan(s, m.end, true));
  }

  /** At a switch text w, the scan with switches emits a switch token that Muls
      drops, and the scan without switches passes over w. */
  lemma KeepMulsAtSwitch(s: string, i: nat, w: string, t: Token)
    requires i < |s| && MulAt(s, i).None? && TextAt(s, i, w)
    requires (w == "don't()" && t == Dont) || (w == "do()" && t == Do && !TextAt(s, i, "don't()"))
    requires Muls(Scan(s, i + |w|, true)) == Scan(s, i + |w|, false)
    ensures Muls(Scan(s, i, true)) == Scan(s, i, false)
  {
    assert Scan(s, i, true) == [t] + Scan(s, i + |w|, true);
    MulsCons(t, Scan(s, i + |w|, true));
    SkipSwitch(s, i, w);
  }

  /** Where nothing is recognised, both scans move on by one character. */
  lemma KeepMulsElsewhere(s: string, i: nat)
    requires i < |s| && MulAt(s, i).None? && !TextAt(s, i, "don't()") && !TextAt(s, i, "do()")
    requires Muls(Scan(s, i + 1, true)) == Scan(s, i + 1, false)
    ensures Muls(Scan(s, i, true)) == Scan(s, i, false)
  {
  }

  /** Recognising the switches does not change which `mul` instructions are found:
      no `mul` starts inside "do()" or "don't()". */
  lemma {:induction false} SwitchesKeepMuls(s: string, i: nat)
    requires i <= |s|
    ensures Muls(Scan(s, i, true)) == Scan(s, i, false)
    decreases |s| - i
  {
    if i < |s| {
      match MulAt(s, i)
      case Some(m) =>
        SwitchesKeepMuls(s, m.end);
        KeepMulsAtMatch(s, i, m);
      case None =>
        if TextAt(s, i, "don't()") {
          SwitchesKeepMuls(s, i + 7);
          KeepMulsAtSwitch(s, i, "don't()", Dont);
        } else if TextAt(s, i, "do()") {
          SwitchesKeepMuls(s, i + 4);
          KeepMulsAtSwitch(s, i, "do()", Do);
        } else {
          SwitchesKeepMuls(s, i + 1);
          KeepMulsElsewhere(s, i);
        }
    }
  }

  /** A "don't" token only arises where the text "don't()" occurs. */
  lemma {:induction false} DontOnlyFromText(s: string, i: nat)
    requires i <= |s|
    requires forall k :: 0 <= k < |s| ==> !TextAt(s, k, "don't()")
    ensures Dont !in Scan(s, i, true)
    decreases |s| - i
  {
    if i < |s| {
      match MulAt(s, i)
      case Some(m) => DontOnlyFromText(s, m.end);
      case None =>
        if TextAt(s, i, "do()") {
          DontOnlyFromText(s, i + 4);
        } else {
          DontOnlyFromText(s, i + 1);
        }
    }
  }

  /** The sum of the products of the `mul` tokens, as in part 1. */
  function SumProducts(ts: seq<Token>): nat {
    if |ts| == 0 then 0
    else (if ts[0].Mul? then ts[0].a * ts[0].b else 0) + SumProducts(ts[1..])
  }

  /** Every `mul` token of a scan has operands of at most three digits. */
  lemma {:induction false} ScanOperandsAtMost999(s: string, i: nat, switches: bool)
    requires i <= |s|
    ensures forall t :: t in Scan(s, i, switches) && t.Mul? ==> t.a <= 999 && t.b <= 999
    decreases |s| - i
  {
    if i < |s| {
      match MulAt(s, i)
      case Some(m) =>
        ThreeDigitsBound(m.da);
        ThreeDigitsBound(m.db);
        ScanOperandsAtMost999(s, m.end, switches);
      case None =>
        if switches && TextAt(s, i, "don't()") {
          ScanOperandsAtMost999(s, i + 7, switches);
        } else if switches && TextAt(s, i, "do()") {
          ScanOperandsAtMost999(s, i + 4, switches);
        } else {
          ScanOperandsAtMost999(s, i + 1, switches);
        }
    }
  }

  /** With operands of at most 999, each token adds at most 999 * 999. */
  lemma {:induction false} SumProductsBound(ts: seq<Token>)
    requires forall t :: t in ts && t.Mul? ==> t.a <= 999 && t.b <= 999
    ensures SumProducts(ts) <= 998001 * |ts|
  {
    if |ts| > 0 {
      assert forall t :: t in ts[1..] ==> t in ts;
      SumProductsBound(ts[1..]);
      if ts[0].Mul? {
        var a, b := ts[0].a, ts[0].b;
        assert a * b <= 999 * b <= 998001;
      }
    }
  }

  /** Part 1: the products of all `mul` instructions, in scan order; each adds at
      most 999 * 999. */
  function PartOne(memory: string): (r: nat)
    ensures r <= 998001 * |Scan(memory, 0, false)|
  {
    ScanOperandsAtMost999(memory, 0, false);
    SumProductsBound(Scan(memory, 0, false));
    SumProducts(Scan(memory, 0, false))
  }

  /** Part 2's accumulation: a `mul` adds its product while the latch is on,
      "do()" turns the latch on and "don't()" turns it off. */
  function LatchSum(ts: seq<Token>, enabled: bool): (r: nat)
    ensures r <= SumProducts(ts)
    ensures (Dont !in ts && enabled) ==> r == SumProducts(ts)
  {
    if |ts| == 0 then 0
    else
      assert Dont !in ts ==> Dont !in ts[1..];
      match ts[0]
      case Mul(a, b) => (if enabled then a * b else 0) + LatchSum(ts[1..], enabled)
      case Do => LatchSum(ts[1..], true)
      case Dont => LatchSum(ts[1..], false)
  }

  /** Part 2: the products of the `mul` instructions met while the latch is on; the
      latch starts on. */
  function PartTwo(memory: string): (r: nat) {
    LatchSum(Scan(memory, 0, true), true)
  }

  lemma {:induction false} SumProductsOfMuls(ts: seq<Token>)
    ensures SumProducts(Muls(ts)) == SumProducts(ts)
  {
    if |ts| > 0 {
      SumProductsOfMuls(ts[1..]);
      if ts[0].Mul? {
        var r := [ts[0]] + Muls(ts[1..]);
        assert r[0] == ts[0] && r[1..] == Muls(ts[1..]);
        assert SumProducts(r) == ts[0].a * ts[0].b + SumProducts(Muls(ts[1..]));
      } else {
        assert Muls(ts) == Muls(ts[1..]);
      }
    }
  }

  /** Part 2 sums a selection of part 1's products, so it is never larger; without
      any "don't()" in the memory the two agree. */
  lemma PartTwoAtMostPartOne(memory: string)
    ensures PartTwo(memory) <= PartOne(memory)
    ensures (forall k :: 0 <= k < |memory| ==> !TextAt(memory, k, "don't()"))
      ==> PartTwo(memory) == PartOne(memory)
  {
    var ts := Scan(memory, 0, true);
    SwitchesKeepMuls(memory, 0);
    SumProductsOfMuls(ts);
    if forall k :: 0 <= k < |memory| ==> !TextAt(memory, k, "don't()") {
      DontOnlyFromText(memory, 0);
    }
  }

  /** The latch just before the token at index j: on unless the nearest switch
      before j is a "don't". */
  function EnabledBefore(ts: seq<Token>, j: nat): bool
    requires j <= |ts|
  {
    if j == 0 then true
    else
      match ts[j - 1]
      case Do => true
      case Dont => false
      case Mul(_, _) => EnabledBefore(ts, j - 1)
  }

  /** The products of the `mul` tokens among the first n that the latch lets
      through. */
  function GatedSum(ts: seq<Token>, n: nat): nat
    requires n <= |ts|
  {
    if n == 0 then 0
    else
      GatedSum(ts, n - 1)
      + (if ts[n - 1].Mul? && EnabledBefore(ts, n - 1) then ts[n - 1].a * ts[n - 1].b else 0)
  }

  lemma {:induction false} LatchSumFrom(ts: seq<Token>, k: nat)
    requires k <= |ts|
    ensures GatedSum(ts, k) + LatchSum(ts[k..], EnabledBefore(ts, k)) == GatedSum(ts, |ts|)
    decreases |ts| - k
  {
    if k < |ts| {
      LatchSumFrom(ts, k + 1);
      assert ts[k..][1..] == ts[k + 1..];
    }
  }

  /** The latch accumulation adds exactly the products of the `mul` tokens whose
      nearest preceding switch is not a "don't". */
  lemma LatchSumIsGatedSum(ts: seq<Token>)
    ensures LatchSum(ts, true) == GatedSum(ts, |ts|)
  {
    LatchSumFrom(ts, 0);
    assert ts[0..] == ts;
  }
}
