/**
 * Attendance rates: the counts-plus-formula read side of the attendance views.
 * A view's input is the list of stored statuses it selected (one entry per
 * attendance record); the rate is kept exact, before Python's rounding.
 */
module Rates {
  import opened Models

  /** Number of records whose status is exactly `status`. */
  function Count(statuses: seq<string>, status: string): (n: nat)
    ensures n <= |statuses|
    ensures n == 0 <==> forall i :: 0 <= i < |statuses| ==> statuses[i] != status
    ensures n == |statuses| <==> forall i :: 0 <= i < |statuses| ==> statuses[i] == status
  {
    if |statuses| == 0 then 0
    else Count(statuses[..|statuses| - 1], status) + (if statuses[|statuses| - 1] == status then 1 else 0)
  }

  /** Counting distributes over concatenation of record lists. */
  lemma {:induction false} CountConcat(xs: seq<string>, ys: seq<string>, status: string)
    ensures Count(xs + ys, status) == Count(xs, status) + Count(ys, status)
    decreases |ys|
  {
    if |ys| > 0 {
      var ys' := ys[..|ys| - 1];
      assert (xs + ys)[..|xs + ys| - 1] == xs + ys';
      CountConcat(xs, ys', status);
    } else {
      assert xs + ys == xs;
    }
  }

  /** Attendance points: a present week counts one, a late week one half. */
  function Points(present: nat, late: nat): (p: real)
    ensures p >= 0.0
    ensures p == 0.0 <==> present == 0 && late == 0
  {
    present as real + late as real * 0.5
  }

  /** The attendance rate in percent; zero when there is nothing to divide by. */
  function Rate(present: nat, late: nat, denominator: nat): (r: real)
    ensures denominator == 0 ==> r == 0.0
    ensures r >= 0.0
  {
    if denominator == 0 then 0.0 else Points(present, late) * 100.0 / denominator as real
  }

  /** 6 present and 2 late out of 10 weeks give 70 percent. */
  lemma RateExample()
    ensures Rate(6, 2, 10) == 70.0
  {
  }

  /** A rate never exceeds 100 percent while the attended weeks fit in the denominator. */
  lemma RateAtMostHundred(present: nat, late: nat, denominator: nat)
    requires present + late <= denominator
    ensures Rate(present, late, denominator) <= 100.0
  {
    if denominator > 0 {
      var d := denominator as real;
      DivMonotone(Points(present, late) * 100.0, d * 100.0, d);
      assert d * 100.0 / d == 100.0;
    }
  }

  /** Two late weeks are worth exactly one present week. */
  lemma LateCountsHalf(present: nat, late: nat, denominator: nat)
    ensures Rate(present, late + 2, denominator) == Rate(present + 1, late, denominator)
  {
    assert Points(present, late + 2) == Points(present + 1, late);
  }

  /** More present or late weeks never lower the rate. */
  lemma RateMonotone(present: nat, late: nat, present': nat, late': nat, denominator: nat)
    requires present <= present' && late <= late'
    ensures Rate(present, late, denominator) <= Rate(present', late', denominator)
  {
    if denominator > 0 {
      DivMonotone(Points(present, late) * 100.0, Points(present', late') * 100.0, denominator as real);
    }
  }

  lemma DivMonotone(a: real, b: real, d: real)
    requires a <= b && d > 0.0
    ensures a / d <= b / d
  {
  }

  lemma DivStrict(a: real, b: real, d: real)
    requires a < b && d > 0.0
    ensures a / d < b / d
  {
  }

  lemma ZeroDiv(d: real)
    requires d > 0.0
    ensures 0.0 / d == 0.0
  {
  }

  lemma DivDiv(a: real, n: real, d: real)
    requires n > 0.0 && d > 0.0
    ensures a / (n * d) == a / d / n
  {
  }

  /** A record list's attendance points, times one hundred. */
  function PercentPoints(statuses: seq<string>): real {
    Points(Count(statuses, Present), Count(statuses, Late)) * 100.0
  }

  lemma PercentPointsConcat(xs: seq<string>, ys: seq<string>)
    ensures PercentPoints(xs + ys) == PercentPoints(xs) + PercentPoints(ys)
  {
    CountConcat(xs, ys, Present);
    CountConcat(xs, ys, Late);
  }

  /** A student's rate in a lecture, from that student's records in it (the student statistics view). */
  function StudentRate(statuses: seq<string>, totalWeeks: nat): (r: real)
    ensures totalWeeks == 0 ==> r == 0.0
  {
    Rate(Count(statuses, Present), Count(statuses, Late), totalWeeks)
  }

  lemma StudentRateUnfold(statuses: seq<string>, totalWeeks: nat)
    requires totalWeeks > 0
    ensures StudentRate(statuses, totalWeeks) == PercentPoints(statuses) / totalWeeks as real
  {
  }

  /** Each present record counted by stored value raises a student's rate. */
  lemma PresentRaisesStudentRate(statuses: seq<string>, totalWeeks: nat)
    requires totalWeeks > 0
    ensures StudentRate(statuses + [Present], totalWeeks) > StudentRate(statuses, totalWeeks)
  {
    var more := statuses + [Present];
    assert more[..|statuses|] == statuses;
    assert PercentPoints(more) == PercentPoints(statuses) + 100.0;
    StudentRateUnfold(statuses, totalWeeks);
    StudentRateUnfold(more, totalWeeks);
    DivStrict(PercentPoints(statuses), PercentPoints(more), totalWeeks as real);
  }

  /** Absences, and any status that is neither present nor late, never move a rate. */
  lemma OtherStatusesNeverCount(statuses: seq<string>, status: string, totalWeeks: nat)
    requires status != Present && status != Late
    ensures StudentRate(statuses + [status], totalWeeks) == StudentRate(statuses, totalWeeks)
  {
    assert (statuses + [status])[..|statuses|] == statuses;
  }

  /** A lecture's rate over all its records, against every enrolled student in every week (the professor summary). */
  function SummaryRate(statuses: seq<string>, students: nat, totalWeeks: nat): (r: real)
    ensures students == 0 || totalWeeks == 0 ==> r == 0.0
  {
    Rate(Count(statuses, Present), Count(statuses, Late), students * totalWeeks)
  }

  lemma SummaryRateUnfold(statuses: seq<string>, students: nat, totalWeeks: nat)
    requires students > 0 && totalWeeks > 0
    ensures SummaryRate(statuses, students, totalWeeks)
         == PercentPoints(statuses) / (students * totalWeeks) as real
  {
  }

  /** All lists of a table, one after another. */
  function Flatten(perStudent: seq<seq<string>>): (all: seq<string>)
    ensures |perStudent| == 0 ==> all == []
  {
    if |perStudent| == 0 then [] else Flatten(perStudent[..|perStudent| - 1]) + perStudent[|perStudent| - 1]
  }

  /** The sum of the students' own rates. */
  function SumOfRates(perStudent: seq<seq<string>>, totalWeeks: nat): (sum: real)
    ensures sum >= 0.0
    ensures totalWeeks == 0 ==> sum == 0.0
  {
    if |perStudent| == 0 then 0.0
    else SumOfRates(perStudent[..|perStudent| - 1], totalWeeks) + StudentRate(perStudent[|perStudent| - 1], totalWeeks)
  }

  /** Summed per-student rates equal the points of all their records together, over the term. */
  lemma {:induction false} SumOfRatesIsPoints(perStudent: seq<seq<string>>, totalWeeks: nat)
    requires totalWeeks > 0
    ensures var all := Flatten(perStudent);
            SumOfRates(perStudent, totalWeeks) == PercentPoints(all) / totalWeeks as real
    decreases |perStudent|
  {
    if |perStudent| > 0 {
      var init := perStudent[..|perStudent| - 1];
      var last := perStudent[|perStudent| - 1];
      var all := Flatten(perStudent);
      var x := PercentPoints(Flatten(init));
      var y := PercentPoints(last);
      var z := PercentPoints(all);
      assert all == Flatten(init) + last;
      PercentPointsConcat(Flatten(init), last);
      SumOfRatesIsPoints(init, totalWeeks);
      StudentRateUnfold(last, totalWeeks);
      SumStep(SumOfRates(init, totalWeeks), StudentRate(last, totalWeeks), x, y, z, totalWeeks as real);
    } else {
      assert Flatten(perStudent) == [];
      assert Count([], Present) == 0 && Count([], Late) == 0;
      assert PercentPoints([]) == 0.0;
      ZeroDiv(totalWeeks as real);
    }
  }

  lemma SumStep(s: real, r: real, x: real, y: real, z: real, d: real)
    requires d > 0.0 && s == x / d && r == y / d && z == x + y
    ensures s + r == z / d
  {
  }

  /**
   * When every record of a lecture belongs to one of its students, the
   * professor summary is the mean of the students' own rates.
   */
  lemma SummaryIsMeanOfStudentRates(perStudent: seq<seq<string>>, totalWeeks: nat)
    requires |perStudent| > 0
    ensures SummaryRate(Flatten(perStudent), |perStudent|, totalWeeks)
         == SumOfRates(perStudent, totalWeeks) / (|perStudent| as real)
  {
    var all := Flatten(perStudent);
    if totalWeeks > 0 {
      SumOfRatesIsPoints(perStudent, totalWeeks);
      SummaryRateUnfold(all, |perStudent|, totalWeeks);
      MeanStep(SummaryRate(all, |perStudent|, totalWeeks), SumOfRates(perStudent, totalWeeks),
               PercentPoints(all), |perStudent|, totalWeeks);
    } else {
      assert SumOfRates(perStudent, totalWeeks) == 0.0;
      assert SummaryRate(all, |perStudent|, totalWeeks) == 0.0;
      ZeroDiv(|perStudent| as real);
    }
  }

  lemma MeanStep(summary: real, sum: real, p: real, n: nat, t: nat)
    requires n > 0 && t > 0 && summary == p / (n * t) as real && sum == p / t as real
    ensures summary == sum / n as real
  {
    ProductAsReal(n, t);
    DivDiv(p, n as real, t as real);
  }

  lemma ProductAsReal(n: nat, t: nat)
    ensures (n * t) as real == n as real * t as real
  {
  }

  /* The whole-lecture statistics view counts records by the Korean
     presentation labels for present and late rather than by stored values. */
  const PresentLabel: string := "\U{CD9C}\U{C11D}"
  const LateLabel: string := "\U{C9C0}\U{AC01}"

  /** The statistics view's per-student rate as written: counting records by label. */
  function StatisticsRateAsWritten(statuses: seq<string>, totalWeeks: nat): (r: real)
    ensures totalWeeks == 0 ==> r == 0.0
    ensures r >= 0.0
  {
    Rate(Count(statuses, PresentLabel), Count(statuses, LateLabel), totalWeeks)
  }

  /** Stored statuses are never labels, so as written the statistics view reports a zero rate. */
  lemma StatisticsAsWrittenAlwaysZero(statuses: seq<string>, totalWeeks: nat)
    requires forall i :: 0 <= i < |statuses| ==> IsStatusChoice(statuses[i])
    ensures StatisticsRateAsWritten(statuses, totalWeeks) == 0.0
  {
    assert Count(statuses, PresentLabel) == 0 by {
      forall i | 0 <= i < |statuses| ensures statuses[i] != PresentLabel {
        assert PresentLabel[0] != statuses[i][0];
      }
    }
    assert Count(statuses, LateLabel) == 0 by {
      forall i | 0 <= i < |statuses| ensures statuses[i] != LateLabel {
        assert LateLabel[0] != statuses[i][0];
      }
    }
  }

  /** One present record in a 15-week lecture: the student view reports it, the statistics view does not. */
  lemma StatisticsCounterexample()
    ensures StatisticsRateAsWritten([Present], DefaultTotalWeeks) == 0.0
    ensures StudentRate([Present], DefaultTotalWeeks) > 0.0
  {
    assert [Present][..0] == [];
    StatisticsAsWrittenAlwaysZero([Present], DefaultTotalWeeks);
  }
}
