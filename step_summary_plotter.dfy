/**
 * The numbers `StepSummaryPlotter` puts on its two charts: the step-count
 * label (`format_steps`), the week and three-month averages in the title
 * of the last-week chart, the upper y-limits of both charts, and the
 * x-position of each weekly bucket of the year chart. The drawing itself
 * is not modelled.
 */
module StepSummaryPlotter {
  import opened Wrappers
  import opened Text
  import opened Calendar
  import opened Stats
  import opened StepHistory
  import opened StepHistoryProcessor

  // ---------------------------------------------------------------------
  // format_steps

  function Abs(x: int): nat {
    if x < 0 then -x else x
  }

  /**
   * `format_steps(steps)`: below 1000 in magnitude, `str(steps)`; otherwise
   * the number of thousands with one decimal and a `k` suffix, the tenths
   * rounded to nearest (ties are taken away from zero here).
   */
  function FormatSteps(steps: int): (s: string)
    ensures |s| > 0
    ensures s[|s| - 1] == 'k' <==> Abs(steps) >= 1000
    ensures Abs(steps) < 1000 && steps >= 0 ==> IsDigits(s) && DigitsValue(s) == steps
    ensures Abs(steps) < 1000 && steps < 0 ==> s[0] == '-' && IsDigits(s[1..]) && DigitsValue(s[1..]) == -steps
    ensures Abs(steps) < 1000 && steps >= 0 && |s| > 1 ==> s[0] != '0'
    ensures Abs(steps) < 1000 && steps < 0 ==> s[1] != '0'
  {
    if Abs(steps) >= 1000 then
      var t := (Abs(steps) + 50) / 100;
      (if steps < 0 then "-" else "") + NatToString(t / 10) + "." + [DigitChar(t % 10)] + "k"
    else
      IntToString(steps)
  }

  /**
   * At 1000 and above, the label shows the count rounded to the nearest
   * hundred: when `t` hundreds is within 50 of the magnitude, the label is
   * `t / 10`, a point, the digit `t % 10` and `k`, and the digits before
   * the point read back as `t / 10`.
   */
  lemma FormatStepsThousands(steps: int, t: nat)
    requires Abs(steps) >= 1000
    requires 100 * t - 50 < Abs(steps) < 100 * t + 50
    ensures FormatSteps(steps) ==
      (if steps < 0 then "-" else "") + NatToString(t / 10) + "." + [DigitChar(t % 10)] + "k"
    ensures DigitsValue(NatToString(t / 10)) == t / 10 && t / 10 >= 1
  {
    assert (Abs(steps) + 50) / 100 == t;
    NatToStringRoundTrip(t / 10);
  }

  /** The label of three sample counts. */
  lemma FormatStepsExamples()
    ensures FormatSteps(950) == "950"
    ensures FormatSteps(1000) == "1.0k"
    ensures FormatSteps(8421) == "8.4k"
    ensures FormatSteps(-2500) == "-2.5k"
  {
    FormatStepsThousands(8421, 84);
    FormatStepsThousands(1000, 10);
    assert NatToString(8) == "8";
    assert NatToString(1) == "1";
  }

  // ---------------------------------------------------------------------
  // The last-week chart

  /** The `step_count` column of the table. */
  function StepCountColumn(rows: seq<SummaryRow>): (col: seq<Option<int>>)
    ensures |col| == |rows|
    ensures forall i :: 0 <= i < |rows| ==> col[i] == rows[i].stepCount
  {
    seq(|rows|, i requires 0 <= i < |rows| => rows[i].stepCount)
  }

  /** The `3m_avg` column of the table. */
  function BaselineColumn(rows: seq<SummaryRow>): (col: seq<Option<int>>)
    ensures |col| == |rows|
    ensures forall i :: 0 <= i < |rows| ==> col[i] == rows[i].threeMonthAvg
  {
    seq(|rows|, i requires 0 <= i < |rows| => rows[i].threeMonthAvg)
  }

  /** The values present in a column, skipping missing ones, in order. */
  function Present(col: seq<Option<int>>): (vs: seq<int>)
    ensures |vs| <= |col|
    ensures vs == [] <==> forall i :: 0 <= i < |col| ==> col[i].None?
    ensures forall v :: v in vs <==> exists i :: 0 <= i < |col| && col[i] == Some(v)
    ensures forall v :: multiset(vs)[v] == multiset(col)[Some(v)]
  {
    if col == [] then []
    else
      var rest := Present(col[1..]);
      var vs := if col[0].Some? then [col[0].value] + rest else rest;
      PresentStep(col, rest, vs);
      vs
  }

  /** Keeping the first value when present, or skipping it when missing, extends the values of the rest of the column. */
  lemma PresentStep(col: seq<Option<int>>, rest: seq<int>, vs: seq<int>)
    requires col != [] && |rest| <= |col| - 1
    requires forall v :: multiset(rest)[v] == multiset(col[1..])[Some(v)]
    requires vs == if col[0].Some? then [col[0].value] + rest else rest
    ensures |vs| <= |col|
    ensures vs == [] <==> forall i :: 0 <= i < |col| ==> col[i].None?
    ensures forall v :: v in vs <==> exists i :: 0 <= i < |col| && col[i] == Some(v)
    ensures forall v :: multiset(vs)[v] == multiset(col)[Some(v)]
  {
    assert col == [col[0]] + col[1..];
    assert multiset(col) == multiset{col[0]} + multiset(col[1..]);
    PresentMembership(vs, col);
  }

  /** Values kept as often as the column holds them are exactly the values the column holds. */
  lemma PresentMembership(vs: seq<int>, col: seq<Option<int>>)
    requires forall v :: multiset(vs)[v] == multiset(col)[Some(v)]
    ensures forall v :: v in vs <==> exists i :: 0 <= i < |col| && col[i] == Some(v)
    ensures vs == [] <==> forall i :: 0 <= i < |col| ==> col[i].None?
  {
    forall v ensures v in vs <==> Some(v) in col {
      assert v in vs <==> multiset(vs)[v] > 0;
    }
    if vs != [] {
      assert vs[0] in vs;
    }
  }

  /** The recorded counts of the table, skipping missing ones, in row order. */
  function PresentCounts(rows: seq<SummaryRow>): (cs: seq<int>)
    ensures |cs| <= |rows|
    ensures cs == [] <==> forall i :: 0 <= i < |rows| ==> rows[i].stepCount.None?
    ensures forall c :: c in cs <==> exists i :: 0 <= i < |rows| && rows[i].stepCount == Some(c)
    ensures forall c :: multiset(cs)[c] == multiset(StepCountColumn(rows))[Some(c)]
  {
    Present(StepCountColumn(rows))
  }

  /** The three-month averages of the table, skipping missing ones, in row order. */
  function PresentBaselines(rows: seq<SummaryRow>): (bs: seq<int>)
    ensures |bs| <= |rows|
    ensures bs == [] <==> forall i :: 0 <= i < |rows| ==> rows[i].threeMonthAvg.None?
    ensures forall b :: b in bs <==> exists i :: 0 <= i < |rows| && rows[i].threeMonthAvg == Some(b)
    ensures forall b :: multiset(bs)[b] == multiset(BaselineColumn(rows))[Some(b)]
  {
    Present(BaselineColumn(rows))
  }

  /**
   * `int(df_last_week['step_count'].mean())`: the truncated mean of the
   * recorded counts; missing (the conversion raises) when no day of the
   * table has a count.
   */
  function AvgStepsLastWeek(rows: seq<SummaryRow>): (r: Option<int>)
    ensures r.None? <==> forall i :: 0 <= i < |rows| ==> rows[i].stepCount.None?
    ensures r.Some? ==> |PresentCounts(rows)| > 0 && r.value == Mean(PresentCounts(rows))
  {
    TruncMean(PresentCounts(rows))
  }

  /** `int(df_last_week['3m_avg'].mean())`: the truncated mean of the three-month averages present. */
  function AvgSteps3m(rows: seq<SummaryRow>): (r: Option<int>)
    ensures r.None? <==> forall i :: 0 <= i < |rows| ==> rows[i].threeMonthAvg.None?
    ensures r.Some? ==> |PresentBaselines(rows)| > 0 && r.value == Mean(PresentBaselines(rows))
  {
    TruncMean(PresentBaselines(rows))
  }

  /** The week average lies between the smallest and the largest recorded count. */
  lemma AvgStepsLastWeekBounds(rows: seq<SummaryRow>, lo: int, hi: int)
    requires forall i, c :: 0 <= i < |rows| && rows[i].stepCount == Some(c) ==> lo <= c <= hi
    ensures AvgStepsLastWeek(rows).Some? ==> lo <= AvgStepsLastWeek(rows).value <= hi
  {
    var cs := PresentCounts(rows);
    if cs != [] {
      forall j | 0 <= j < |cs| ensures lo <= cs[j] <= hi {
        assert cs[j] in cs;
      }
      MeanBounds(cs, lo, hi);
    }
  }

  /** The three-month figure lies between the smallest and the largest weekday average shown. */
  lemma AvgSteps3mBounds(rows: seq<SummaryRow>, lo: int, hi: int)
    requires forall i, b :: 0 <= i < |rows| && rows[i].threeMonthAvg == Some(b) ==> lo <= b <= hi
    ensures AvgSteps3m(rows).Some? ==> lo <= AvgSteps3m(rows).value <= hi
  {
    var bs := PresentBaselines(rows);
    if bs != [] {
      forall j | 0 <= j < |bs| ensures lo <= bs[j] <= hi {
        assert bs[j] in bs;
      }
      MeanBounds(bs, lo, hi);
    }
  }

  /**
   * The upper y-limit of the last-week chart, `max(max count + 1000, 12000)`:
   * never below 12000, at least 1000 above every count, and either 12000 or
   * 1000 above the largest count. Missing when no count is recorded.
   */
  function WeekYLimit(rows: seq<SummaryRow>): (r: Option<int>)
    ensures r.None? <==> forall i :: 0 <= i < |rows| ==> rows[i].stepCount.None?
    ensures r.Some? ==> r.value >= 12000
    ensures r.Some? ==> forall i, c :: 0 <= i < |rows| && rows[i].stepCount == Some(c) ==> c + 1000 <= r.value
    ensures r.Some? ==> r.value == 12000 || r.value - 1000 in PresentCounts(rows)
  {
    var cs := PresentCounts(rows);
    if cs == [] then None
    else
      var m := MaxOf(cs);
      forall i, c | 0 <= i < |rows| && rows[i].stepCount == Some(c) ensures c <= m {
        assert c in cs;
      }
      Some(if m + 1000 > 12000 then m + 1000 else 12000)
  }

  // ---------------------------------------------------------------------
  // The year chart

  /**
   * The upper y-limit of the year chart, `max(max bucket mean + 1000, 12000)`:
   * never below 12000, at least 1000 above every bucket, and either 12000 or
   * 1000 above the largest bucket. Missing when there is no bucket.
   */
  function YearYLimit(gs: seq<Group>): (r: Option<int>)
    ensures r.None? <==> gs == []
    ensures r.Some? ==> r.value >= 12000
    ensures r.Some? ==> forall g :: g in gs ==> g.mean + 1000 <= r.value
    ensures r.Some? ==> r.value == 12000 || exists g :: g in gs && g.mean + 1000 == r.value
  {
    if gs == [] then None
    else
      var means := seq(|gs|, i requires 0 <= i < |gs| => gs[i].mean);
      var m := MaxOf(means);
      forall g | g in gs ensures g.mean <= m {
        var i :| 0 <= i < |gs| && gs[i] == g;
        assert means[i] == g.mean;
      }
      assert exists g :: g in gs && g.mean == m by {
        var i :| 0 <= i < |means| && means[i] == m;
        assert gs[i] in gs;
      }
      Some(if m + 1000 > 12000 then m + 1000 else 12000)
  }

  /**
   * Each weekly bucket is drawn at the start of its period: the key of
   * every bucket of the records `w` is the day number of a Monday, and some
   * record of `w` falls in the seven days from it. The year chart draws
   * `CreateYearToDateByWeek(h, today)`, the buckets of the year window.
   */
  lemma WeekBucketsAtMondays(w: seq<StepRecord>)
    requires ValidHistory(w)
    ensures forall g :: g in WeeklyMeans(w) ==>
      IsMonday(g.key) && exists i :: 0 <= i < |w| && g.key <= Ordinal(w[i].date) < g.key + 7
  {
    forall g | g in WeeklyMeans(w)
      ensures IsMonday(g.key) && exists i :: 0 <= i < |w| && g.key <= Ordinal(w[i].date) < g.key + 7
    {
      var i :| 0 <= i < |w| && WeekStart(w[i].date) == g.key;
    }
  }
}
