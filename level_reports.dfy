/**
 * Day 2: reactor level reports. A report is strictly safe when its levels
 * change monotonically by 1 to 3 per step; with the problem dampener it is
 * also safe when removing any single level makes it strictly safe.
 */
module LevelReports {

  import opened Seqs
  import opened Counting

  /** The differences between consecutive levels: `zip(initial, tail)` mapped to `b - a`. */
  function Deltas(report: seq<int>): (d: seq<int>)
    ensures |d| == if report == [] then 0 else |report| - 1
    ensures forall i :: 0 <= i < |d| ==> d[i] == report[i + 1] - report[i]
  {
    if |report| < 2 then [] else [report[1] - report[0]] + Deltas(report[1..])
  }

  /** Every step goes up by 1, 2 or 3. */
  predicate GraduallyIncreasing(report: seq<int>)
  {
    forall i :: 0 < i < |report| ==> report[i - 1] < report[i] <= report[i - 1] + 3
  }

  /** Every step goes down by 1, 2 or 3. */
  predicate GraduallyDecreasing(report: seq<int>)
  {
    forall i :: 0 < i < |report| ==> report[i - 1] - 3 <= report[i] < report[i - 1]
  }

  /** Deltas between 1 and 3 are exactly gradually increasing steps. */
  lemma DeltasIncreasing(report: seq<int>)
    ensures (forall i :: 0 <= i < |Deltas(report)| ==> 1 <= Deltas(report)[i] <= 3) ==> GraduallyIncreasing(report)
    ensures GraduallyIncreasing(report) ==> (forall i :: 0 <= i < |Deltas(report)| ==> 1 <= Deltas(report)[i] <= 3)
  {
    if GraduallyIncreasing(report) {
      IncreasingDeltas(report);
    }
    if forall i :: 0 <= i < |Deltas(report)| ==> 1 <= Deltas(report)[i] <= 3 {
      DeltasIncreasingSteps(report);
    }
  }

  lemma IncreasingDeltas(report: seq<int>)
    requires GraduallyIncreasing(report)
    ensures forall i :: 0 <= i < |Deltas(report)| ==> 1 <= Deltas(report)[i] <= 3
  {
    var d := Deltas(report);
    forall i | 0 <= i < |d| ensures 1 <= d[i] <= 3 {
      assert report[i] < report[i + 1] <= report[i] + 3;
    }
  }

  lemma DeltasIncreasingSteps(report: seq<int>)
    requires forall i :: 0 <= i < |Deltas(report)| ==> 1 <= Deltas(report)[i] <= 3
    ensures GraduallyIncreasing(report)
  {
    var d := Deltas(report);
    forall i | 0 < i < |report| ensures report[i - 1] < report[i] <= report[i - 1] + 3 {
      assert 1 <= d[i - 1] <= 3;
    }
  }

  /** Deltas between -3 and -1 are exactly gradually decreasing steps. */
  lemma DeltasDecreasing(report: seq<int>)
    ensures (forall i :: 0 <= i < |Deltas(report)| ==> -3 <= Deltas(report)[i] <= -1) ==> GraduallyDecreasing(report)
    ensures GraduallyDecreasing(report) ==> (forall i :: 0 <= i < |Deltas(report)| ==> -3 <= Deltas(report)[i] <= -1)
  {
    if GraduallyDecreasing(report) {
      DecreasingDeltas(report);
    }
    if forall i :: 0 <= i < |Deltas(report)| ==> -3 <= Deltas(report)[i] <= -1 {
      DeltasDecreasingSteps(report);
    }
  }

  lemma DecreasingDeltas(report: seq<int>)
    requires GraduallyDecreasing(report)
    ensures forall i :: 0 <= i < |Deltas(report)| ==> -3 <= Deltas(report)[i] <= -1
  {
    var d := Deltas(report);
    forall i | 0 <= i < |d| ensures -3 <= d[i] <= -1 {
      assert report[i] - 3 <= report[i + 1] < report[i];
    }
  }

  lemma DeltasDecreasingSteps(report: seq<int>)
    requires forall i :: 0 <= i < |Deltas(report)| ==> -3 <= Deltas(report)[i] <= -1
    ensures GraduallyDecreasing(report)
  {
    var d := Deltas(report);
    forall i | 0 < i < |report| ensures report[i - 1] - 3 <= report[i] < report[i - 1] {
      assert -3 <= d[i - 1] <= -1;
    }
  }

  /**
   * `reportIsSafeStrict`: all deltas negative or all positive, and none
   * larger than 3 in absolute value. Vacuous for reports of 0 or 1 levels.
   */
  function IsSafeStrict(report: seq<int>): (safe: bool)
    ensures safe <==> GraduallyIncreasing(report) || GraduallyDecreasing(report)
    ensures |report| <= 1 ==> safe
  {
    var d := Deltas(report);
    DeltasIncreasing(report);
    DeltasDecreasing(report);
    ((forall i :: 0 <= i < |d| ==> d[i] < 0) || (forall i :: 0 <= i < |d| ==> d[i] > 0))
    && (forall i :: 0 <= i < |d| ==> -3 <= d[i] <= 3)
  }

  /** `_.reject(s, (x, index) => i === index)`: `s` without the element at index `i`, if any. */
  function WithoutIndex<T>(s: seq<T>, i: int): (r: seq<T>)
    ensures 0 <= i < |s| ==> r == s[..i] + s[i + 1..]
    ensures !(0 <= i < |s|) ==> r == s
  {
    if s == [] then []
    else
      var rest := WithoutIndex(s[1..], i - 1);
      if i == 0 then rest
      else
        assert 0 < i <= |s| ==> s[..i] == [s[0]] + s[1..][..i - 1];
        [s[0]] + rest
  }

  /** `dampenedLevelReports`: one report per level, with that level removed. */
  function Dampened(report: seq<int>): (ds: seq<seq<int>>)
    ensures |ds| == |report|
    ensures forall i :: 0 <= i < |ds| ==> ds[i] == report[..i] + report[i + 1..] && |ds[i]| == |report| - 1
  {
    seq(|report|, i requires 0 <= i < |report| => WithoutIndex(report, i))
  }

  /** `reportIsSafe`: strictly safe, or strictly safe once one level is removed. */
  function IsSafe(report: seq<int>): (safe: bool)
    ensures safe <==> IsSafeStrict(report) || exists i :: 0 <= i < |report| && IsSafeStrict(report[..i] + report[i + 1..])
  {
    var ds := Dampened(report);
    IsSafeStrict(report) || exists j :: 0 <= j < |ds| && IsSafeStrict(ds[j])
  }

  /** Reports of at most two levels are always safe, with the dampener. */
  lemma ShortReportSafe(report: seq<int>)
    requires |report| <= 2
    ensures IsSafe(report)
  {
    if |report| == 2 {
      assert IsSafeStrict(report[..0] + report[1..]);
    }
  }

  /** Reversing a report turns increasing steps into decreasing ones. */
  lemma ReverseIncreasing(report: seq<int>)
    ensures GraduallyIncreasing(Reverse(report)) <==> GraduallyDecreasing(report)
  {
    var r := Reverse(report);
    var n := |report|;
    if GraduallyDecreasing(report) {
      forall i | 0 < i < n ensures r[i - 1] < r[i] <= r[i - 1] + 3 {
        assert r[i - 1] == report[n - i] && r[i] == report[n - 1 - i];
      }
    }
    if GraduallyIncreasing(r) {
      forall i | 0 < i < n ensures report[i - 1] - 3 <= report[i] < report[i - 1] {
        assert r[n - i] == report[i - 1] && r[n - 1 - i] == report[i];
      }
    }
  }

  /** Reversing a report swaps increasing and decreasing, so keeps strict safety. */
  lemma ReverseSafeStrict(report: seq<int>)
    ensures IsSafeStrict(Reverse(report)) == IsSafeStrict(report)
  {
    ReverseIncreasing(report);
    ReverseIncreasing(Reverse(report));
    ReverseReverse(report);
  }

  /** Removing level `i` and reversing is reversing and removing the mirrored level. */
  lemma ReverseWithout(report: seq<int>, i: nat)
    requires i < |report|
    ensures Reverse(report[..i] + report[i + 1..])
         == Reverse(report)[..|report| - 1 - i] + Reverse(report)[|report| - i..]
  {
  }

  /** Reversing a report keeps safety with the dampener too. */
  lemma ReverseSafe(report: seq<int>)
    ensures IsSafe(Reverse(report)) == IsSafe(report)
  {
    ReverseSafeFrom(report);
    ReverseSafeFrom(Reverse(report));
    ReverseReverse(report);
  }

  lemma ReverseSafeFrom(report: seq<int>)
    ensures IsSafe(report) ==> IsSafe(Reverse(report))
  {
    ReverseSafeStrict(report);
    if !IsSafeStrict(report) && IsSafe(report) {
      var i :| 0 <= i < |report| && IsSafeStrict(report[..i] + report[i + 1..]);
      ReverseRemovalSafe(report, i);
    }
  }

  lemma ReverseRemovalSafe(report: seq<int>, i: nat)
    requires i < |report| && IsSafeStrict(report[..i] + report[i + 1..])
    ensures IsSafe(Reverse(report))
  {
    var r := Reverse(report);
    var j := |report| - 1 - i;
    ReverseWithout(report, i);
    ReverseSafeStrict(report[..i] + report[i + 1..]);
    assert IsSafeStrict(r[..j] + r[j + 1..]);
  }

  /** The key `countSafeReports` files each report under. */
  function SafetyLabel(report: seq<int>): string
  {
    if IsSafe(report) then "safeReports" else "unsafeReports"
  }

  /** The number of safe reports. */
  function NumberSafe(reports: seq<seq<int>>): (n: nat)
    ensures n <= |reports|
  {
    if reports == [] then 0 else (if IsSafe(reports[0]) then 1 else 0) + NumberSafe(reports[1..])
  }

  lemma {:induction false} OccurrencesOfLabels(reports: seq<seq<int>>, k: string)
    ensures Occurrences(reports, SafetyLabel, k)
         == if k == "safeReports" then NumberSafe(reports)
            else if k == "unsafeReports" then |reports| - NumberSafe(reports)
            else 0
  {
    if reports != [] {
      OccurrencesOfLabels(reports[1..], k);
    }
  }

  /**
   * `countSafeReports`: the safe and the unsafe reports together are all of
   * them, no other key occurs, and a key whose count would be 0 is absent.
   */
  function CountSafeReports(reports: seq<seq<int>>): (m: map<string, nat>)
    ensures Lookup(m, "safeReports", 0) == NumberSafe(reports)
    ensures Lookup(m, "safeReports", 0) + Lookup(m, "unsafeReports", 0) == |reports|
    ensures forall k :: k in m ==> (k == "safeReports" || k == "unsafeReports") && m[k] > 0
  {
    var m := CountBy(reports, SafetyLabel);
    OccurrencesOfLabels(reports, "safeReports");
    OccurrencesOfLabels(reports, "unsafeReports");
    forall k | k in m ensures k == "safeReports" || k == "unsafeReports" {
      OccurrencesOfLabels(reports, k);
      assert Lookup(m, k, 0) > 0;
    }
    m
  }

  /** A step of more than 3 between two adjacent levels makes a report strictly unsafe. */
  lemma BigStepUnsafe(report: seq<int>, k: nat)
    requires 0 < k < |report|
    requires report[k] - report[k - 1] > 3 || report[k - 1] - report[k] > 3
    ensures !IsSafeStrict(report)
  {
  }

  /** The sample reports that are safe, the first two without the dampener. */
  lemma SampleSafeReports(a: seq<int>, b: seq<int>, c: seq<int>, d: seq<int>)
    requires a == [7, 6, 4, 2, 1] && b == [1, 3, 6, 7, 9]
    requires c == [1, 3, 2, 4, 5] && d == [8, 6, 4, 4, 1]
    ensures IsSafeStrict(a) && IsSafeStrict(b)
    ensures IsSafe(c) && IsSafe(d)
  {
    assert GraduallyDecreasing(a);
    assert GraduallyIncreasing(b);
    var c' := c[..1] + c[2..];
    assert c' == [1, 2, 4, 5];
    assert GraduallyIncreasing(c');
    var d' := d[..2] + d[3..];
    assert d' == [8, 6, 4, 1];
    assert GraduallyDecreasing(d');
  }

  /** A big step between positions `k - 1` and `k` of the report left after removing level `i`. */
  lemma RemovalBigStep(report: seq<int>, i: nat, k: nat)
    requires i < |report| && 0 < k < |report| - 1
    requires var x, y := report[if k <= i then k - 1 else k], report[if k < i then k else k + 1];
             y - x > 3 || x - y > 3
    ensures !IsSafeStrict(report[..i] + report[i + 1..])
  {
    var t := report[..i] + report[i + 1..];
    assert t[k - 1] == report[if k <= i then k - 1 else k];
    assert t[k] == report[if k < i then k else k + 1];
    BigStepUnsafe(t, k);
  }

  /** `[1, 2, 7, 8, 9]` is unsafe even with the dampener: some step exceeds 3 whichever level is removed. */
  lemma SampleUnsafeIncreasing(a: seq<int>)
    requires a == [1, 2, 7, 8, 9]
    ensures !IsSafe(a)
  {
    BigStepUnsafe(a, 2);
    forall i | 0 <= i < 5 ensures !IsSafeStrict(a[..i] + a[i + 1..]) {
      RemovalBigStep(a, i, [1, 1, 2, 2, 2][i]);
    }
  }

  /** `[9, 7, 6, 2, 1]` is unsafe even with the dampener: some step exceeds 3 whichever level is removed. */
  lemma SampleUnsafeDecreasing(b: seq<int>)
    requires b == [9, 7, 6, 2, 1]
    ensures !IsSafe(b)
  {
    BigStepUnsafe(b, 3);
    forall i | 0 <= i < 5 ensures !IsSafeStrict(b[..i] + b[i + 1..]) {
      RemovalBigStep(b, i, [2, 2, 2, 3, 3][i]);
    }
  }

  lemma NumberSafeOfSix(reports: seq<seq<int>>)
    requires |reports| == 6
    requires IsSafe(reports[0]) && !IsSafe(reports[1]) && !IsSafe(reports[2])
    requires IsSafe(reports[3]) && IsSafe(reports[4]) && IsSafe(reports[5])
    ensures NumberSafe(reports) == 4
  {
    assert NumberSafe(reports[5..]) == 1;
    assert NumberSafe(reports[4..]) == 2;
    assert NumberSafe(reports[3..]) == 3;
    assert NumberSafe(reports[2..]) == 3;
    assert NumberSafe(reports[1..]) == 3;
  }

  lemma CountOfSix(reports: seq<seq<int>>)
    requires |reports| == 6 && NumberSafe(reports) == 4
    ensures CountSafeReports(reports) == map["safeReports" := 4, "unsafeReports" := 2]
  {
    var m := CountSafeReports(reports);
    assert "safeReports" in m && m["safeReports"] == 4;
    assert "unsafeReports" in m && m["unsafeReports"] == 2;
    assert m.Keys == {"safeReports", "unsafeReports"};
  }

  /** The six sample reports: 4 safe and 2 unsafe. */
  lemma SampleCount(reports: seq<seq<int>>)
    requires reports == [[7, 6, 4, 2, 1], [1, 2, 7, 8, 9], [9, 7, 6, 2, 1], [1, 3, 2, 4, 5], [8, 6, 4, 4, 1], [1, 3, 6, 7, 9]]
    ensures CountSafeReports(reports) == map["safeReports" := 4, "unsafeReports" := 2]
  {
    SampleSafeReports(reports[0], reports[5], reports[3], reports[4]);
    SampleUnsafeIncreasing(reports[1]);
    SampleUnsafeDecreasing(reports[2]);
    NumberSafeOfSix(reports);
    CountOfSix(reports);
  }
}
