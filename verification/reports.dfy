/** The reactor reports of day 2: a report is a sequence of levels, safe when it
    changes gradually in one direction; the dampener forgives one bad level. */
module ReportSafety {
  import opened Counting
  import opened Numbers

  type Report = seq<int>

  /** The differences between adjacent levels, later minus earlier. */
  function LevelDiffs(report: Report): (ds: seq<int>)
    ensures |ds| == if |report| == 0 then 0 else |report| - 1
    ensures forall i :: 0 <= i < |ds| ==> ds[i] == report[i + 1] - report[i]
  {
    if |report| <= 1 then []
    else [report[1] - report[0]] + LevelDiffs(report[1..])
  }

  /** Every adjacent pair rises by one to three. */
  predicate GraduallyIncreasing(report: Report) {
    forall i :: 0 <= i < |report| - 1 ==> 1 <= report[i + 1] - report[i] <= 3
  }

  /** Every adjacent pair falls by one to three. */
  predicate GraduallyDecreasing(report: Report) {
    forall i :: 0 <= i < |report| - 1 ==> 1 <= report[i] - report[i + 1] <= 3
  }

  /** The source's safety test: every difference is between 1 and 3 in size, and the
      differences are all negative or all positive. */
  function IsSafe(report: Report): (safe: bool)
    ensures |report| <= 1 ==> safe
  {
    var ds := LevelDiffs(report);
    var allLevelsValid := forall i :: 0 <= i < |ds| ==> 1 <= Abs(ds[i]) <= 3;
    var allDecreasing := forall i :: 0 <= i < |ds| ==> ds[i] < 0;
    var allIncreasing := forall i :: 0 <= i < |ds| ==> ds[i] > 0;
    allLevelsValid && (allDecreasing || allIncreasing)
  }

  /** A report is safe exactly when it rises by one to three at every step, or falls
      by one to three at every step. */
  lemma SafeIffGradual(report: Report)
    ensures IsSafe(report) <==> GraduallyIncreasing(report) || GraduallyDecreasing(report)
  {
    var ds := LevelDiffs(report);
    if IsSafe(report) {
      if forall i :: 0 <= i < |ds| ==> ds[i] > 0 {
        forall i | 0 <= i < |report| - 1
          ensures 1 <= report[i + 1] - report[i] <= 3
        {
          assert ds[i] > 0 && 1 <= Abs(ds[i]) <= 3;
        }
      } else {
        forall i | 0 <= i < |report| - 1
          ensures 1 <= report[i] - report[i + 1] <= 3
        {
          assert ds[i] < 0 && 1 <= Abs(ds[i]) <= 3;
        }
      }
    }
    if GraduallyIncreasing(report) {
      forall i | 0 <= i < |ds|
        ensures 1 <= Abs(ds[i]) <= 3 && ds[i] > 0
      {
        assert 1 <= report[i + 1] - report[i] <= 3;
      }
    } else if GraduallyDecreasing(report) {
      forall i | 0 <= i < |ds|
        ensures 1 <= Abs(ds[i]) <= 3 && ds[i] < 0
      {
        assert 1 <= report[i] - report[i + 1] <= 3;
      }
    }
  }

  predicate StrictlyIncreasing(report: Report) {
    forall i, j :: 0 <= i < j < |report| ==> report[i] < report[j]
  }

  predicate StrictlyDecreasing(report: Report) {
    forall i, j :: 0 <= i < j < |report| ==> report[i] > report[j]
  }

  lemma {:induction false} IncreasingSteps(report: Report, i: int, j: int)
    requires GraduallyIncreasing(report)
    requires 0 <= i < j < |report|
    ensures report[i] < report[j]
    decreases j - i
  {
    if i + 1 < j {
      IncreasingSteps(report, i + 1, j);
    }
  }

  lemma {:induction false} DecreasingSteps(report: Report, i: int, j: int)
    requires GraduallyDecreasing(report)
    requires 0 <= i < j < |report|
    ensures report[i] > report[j]
    decreases j - i
  {
    if i + 1 < j {
      DecreasingSteps(report, i + 1, j);
    }
  }

  /** A safe report is strictly monotonic: every later level lies strictly above
      every earlier one, or strictly below. */
  lemma SafeIsStrictlyMonotonic(report: Report)
    requires IsSafe(report)
    ensures StrictlyIncreasing(report) || StrictlyDecreasing(report)
  {
    SafeIffGradual(report);
    if GraduallyIncreasing(report) {
      forall i, j | 0 <= i < j < |report|
        ensures report[i] < report[j]
      {
        IncreasingSteps(report, i, j);
      }
    } else {
      forall i, j | 0 <= i < j < |report|
        ensures report[i] > report[j]
      {
        DecreasingSteps(report, i, j);
      }
    }
  }

  /** The report without the level at index k, the others kept in order. */
  function RemoveLevel(report: Report, k: nat): (r: Report)
    requires k < |report|
    ensures |r| == |report| - 1
    ensures forall i :: 0 <= i < k ==> r[i] == report[i]
    ensures forall i :: k <= i < |r| ==> r[i] == report[i + 1]
  {
    report[..k] + report[k + 1..]
  }

  /** Some level at index k or later can be removed to leave a safe report; the
      source tries the indices in increasing order and stops at the first. */
  function SomeRemovalSafe(report: Report, k: nat): (b: bool)
    requires k <= |report|
    ensures b <==> exists j :: k <= j < |report| && IsSafe(RemoveLevel(report, j))
    decreases |report| - k
  {
    if k == |report| then false
    else if IsSafe(RemoveLevel(report, k)) then true
    else SomeRemovalSafe(report, k + 1)
  }

  /** Part 2's test: safe as it is, or safe after removing one level. */
  function IsTolerable(report: Report): (b: bool)
    ensures b <==> IsSafe(report) || exists k :: 0 <= k < |report| && IsSafe(RemoveLevel(report, k))
  {
    IsSafe(report) || SomeRemovalSafe(report, 0)
  }

  /** A gradual report stays gradual, in the same direction, without its first level. */
  lemma GradualTail(report: Report, rising: bool)
    requires |report| > 0
    requires if rising then GraduallyIncreasing(report) else GraduallyDecreasing(report)
    ensures if rising then GraduallyIncreasing(report[1..]) else GraduallyDecreasing(report[1..])
  {
    var r := report[1..];
    if rising {
      forall i | 0 <= i < |r| - 1
        ensures 1 <= r[i + 1] - r[i] <= 3
      {
        assert r[i] == report[i + 1] && r[i + 1] == report[i + 2];
      }
    } else {
      forall i | 0 <= i < |r| - 1
        ensures 1 <= r[i] - r[i + 1] <= 3
      {
        assert r[i] == report[i + 1] && r[i + 1] == report[i + 2];
      }
    }
  }

  /** Dropping the first level of a safe report leaves it safe, so apart from the
      empty report the separate safety check before the removals changes nothing. */
  lemma SafeWithoutFirstLevel(report: Report)
    requires IsSafe(report) && |report| > 0
    ensures IsSafe(RemoveLevel(report, 0))
  {
    var r := RemoveLevel(report, 0);
    assert r == report[1..];
    SafeIffGradual(report);
    SafeIffGradual(r);
    if GraduallyIncreasing(report) {
      GradualTail(report, true);
    } else {
      GradualTail(report, false);
    }
  }

  lemma TolerableIffSomeRemovalSafe(report: Report)
    requires |report| > 0
    ensures IsTolerable(report) <==> exists k :: 0 <= k < |report| && IsSafe(RemoveLevel(report, k))
  {
    if IsSafe(report) {
      SafeWithoutFirstLevel(report);
    }
  }

  /** Part 1: the number of safe reports. */
  function PartOne(reports: seq<Report>): (n: nat)
    ensures n <= |reports|
  {
    CountWhere(reports, IsSafe)
  }

  /** Part 2: the number of tolerable reports, each counted once. */
  function PartTwo(reports: seq<Report>): (n: nat)
    ensures n <= |reports|
  {
    CountWhere(reports, IsTolerable)
  }

  /** Every safe report is tolerable, so the dampener only adds reports. */
  lemma PartOneAtMostPartTwo(reports: seq<Report>)
    ensures PartOne(reports) <= PartTwo(reports) <= |reports|
  {
    CountWhereMonotone(reports, IsSafe, IsTolerable);
  }
}
