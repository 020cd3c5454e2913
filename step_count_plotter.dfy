/**
 * `StepCountPlotter` builds its last-week table by itself: the same seven
 * days up to yesterday, left-merged with the history, and a three-month
 * weekday baseline it computes inline from the history rather than
 * through `StepHistoryProcessor`. The model computes that baseline
 * independently (one pass over the history per weekday name) and proves
 * that the table is exactly the one `StepHistoryProcessor` produces. The
 * chart title and y-limit are computed from that table.
 */
module StepCountPlotter {
  import opened Wrappers
  import opened Calendar
  import opened Stats
  import opened StepHistory
  import opened StepHistoryProcessor
  import opened StepSummaryPlotter

  /** The counts of the records dated strictly after day `cutoff` whose weekday is `name`, in history order. */
  function InlineCounts(h: seq<StepRecord>, cutoff: int, name: string): (cs: seq<int>)
    requires ValidHistory(h)
    ensures |cs| > 0 <==> exists x :: x in h && IsAfter(x, cutoff) && DayName(x.date) == name
    ensures forall c :: c in cs ==> exists x :: x in h && IsAfter(x, cutoff) && DayName(x.date) == name && x.stepCount == c
    ensures forall c :: multiset(cs)[c] == InlineCount(h, cutoff, name, c)
  {
    if h == [] then []
    else
      var rest := InlineCounts(h[1..], cutoff, name);
      assert forall x :: x in h <==> x == h[0] || x in h[1..];
      InlineCountCons(h, cutoff, name);
      if IsAfter(h[0], cutoff) && DayName(h[0].date) == name then [h[0].stepCount] + rest else rest
  }

  /** Whether record `x` is dated after day `cutoff`, falls on weekday `name` and counts `c`. */
  predicate Selects(x: StepRecord, cutoff: int, name: string, c: int) {
    IsAfter(x, cutoff) && DayName(x.date) == name && x.stepCount == c
  }

  /** For each record of `h`, whether it is selected with count `c`. */
  function InlineMarks(h: seq<StepRecord>, cutoff: int, name: string, c: int): (marks: seq<bool>)
    ensures |marks| == |h|
    ensures forall i :: 0 <= i < |h| ==> (marks[i] <==> Selects(h[i], cutoff, name, c))
  {
    seq(|h|, i requires 0 <= i < |h| => Selects(h[i], cutoff, name, c))
  }

  /** How many records of `h` dated after day `cutoff` fall on weekday `name` and count `c`. */
  function InlineCount(h: seq<StepRecord>, cutoff: int, name: string, c: int): nat {
    CountTrue(InlineMarks(h, cutoff, name, c))
  }

  lemma InlineCountCons(h: seq<StepRecord>, cutoff: int, name: string)
    requires h != []
    ensures forall c ::
              InlineCount(h, cutoff, name, c) ==
              (if Selects(h[0], cutoff, name, c) then 1 else 0) + InlineCount(h[1..], cutoff, name, c)
  {
    forall c
      ensures InlineCount(h, cutoff, name, c) ==
              (if Selects(h[0], cutoff, name, c) then 1 else 0) + InlineCount(h[1..], cutoff, name, c)
    {
      assert InlineMarks(h, cutoff, name, c)[1..] == InlineMarks(h[1..], cutoff, name, c);
      CountTrueCons(InlineMarks(h, cutoff, name, c));
    }
  }

  /**
   * The inline baseline: for every weekday name of a record dated strictly
   * after day `cutoff`, the truncated mean of that weekday's counts.
   */
  function InlineBaseline(h: seq<StepRecord>, cutoff: int): (avg: map<string, int>)
    requires ValidHistory(h)
    ensures forall name :: name in avg <==> exists x :: x in h && IsAfter(x, cutoff) && DayName(x.date) == name
    ensures forall name :: name in avg ==> avg[name] == Mean(InlineCounts(h, cutoff, name))
  {
    var names := set x | x in h && IsAfter(x, cutoff) :: DayName(x.date);
    map name | name in names :: Mean(InlineCounts(h, cutoff, name))
  }

  lemma {:induction false} CountsOnConcat(a: seq<TaggedRecord>, b: seq<TaggedRecord>, name: string)
    ensures CountsOn(a + b, name) == CountsOn(a, name) + CountsOn(b, name)
    decreases |a|
  {
    if a != [] {
      assert (a + b)[0] == a[0];
      assert (a + b)[1..] == a[1..] + b;
      CountsOnConcat(a[1..], b, name);
    } else {
      assert a + b == b;
    }
  }

  lemma TagConcat(a: seq<StepRecord>, b: seq<StepRecord>)
    requires ValidHistory(a) && ValidHistory(b)
    ensures ValidHistory(a + b)
    ensures Tag(a + b) == Tag(a) + Tag(b)
  {
    assert forall i :: 0 <= i < |a + b| ==> (a + b)[i] == if i < |a| then a[i] else b[i - |a|];
  }

  /** Selecting, tagging and grouping in the processor's order gives the inline counts. */
  lemma InlineCountsAgree(h: seq<StepRecord>, cutoff: int, name: string)
    requires ValidHistory(h)
    ensures CountsOn(TagAfter(h, cutoff), name) == InlineCounts(h, cutoff, name)
  {
    SelectThenGroup(h, cutoff, name);
  }

  lemma {:induction false} SelectThenGroup(h: seq<StepRecord>, cutoff: int, name: string)
    requires ValidHistory(h)
    ensures CountsOn(Tag(After(h, cutoff)), name) == InlineCounts(h, cutoff, name)
    decreases |h|
  {
    if h != [] {
      SelectThenGroup(h[1..], cutoff, name);
      var rest := After(h[1..], cutoff);
      if IsAfter(h[0], cutoff) {
        assert After(h, cutoff) == [h[0]] + rest;
        TagConcat([h[0]], rest);
        CountsOnConcat(Tag([h[0]]), Tag(rest), name);
      } else {
        assert After(h, cutoff) == rest;
      }
    }
  }

  lemma SameWeekdays(h: seq<StepRecord>, cutoff: int)
    requires ValidHistory(h)
    ensures InlineBaseline(h, cutoff).Keys == BaselineAfter(h, cutoff).Keys
  {
  }

  /** The inline baseline is the processor's weekday baseline, entry for entry. */
  lemma InlineBaselineAgrees(h: seq<StepRecord>, cutoff: int)
    requires ValidHistory(h)
    ensures InlineBaseline(h, cutoff) == BaselineAfter(h, cutoff)
  {
    var a := InlineBaseline(h, cutoff);
    var b := BaselineAfter(h, cutoff);
    SameWeekdays(h, cutoff);
    forall name | name in a
      ensures a[name] == b[name]
    {
      InlineCountsAgree(h, cutoff, name);
    }
  }

  /**
   * `_create_last_week_summary_df`: the seven days up to yesterday, left-merged
   * on the date with the history and on the weekday name with the inline
   * three-month baseline. It is the same table as the processor's
   * `create_last_week_summary_by_day`.
   */
  function CreateLastWeekSummaryDf(h: seq<StepRecord>, today: Date): (rs: seq<SummaryRow>)
    requires Valid(today) && ValidHistory(h)
    ensures rs == CreateLastWeekSummaryByDay(h, today)
  {
    InlineBaselineAgrees(h, ThreeMonthCutoff(today));
    LeftJoin(CreateWeekToYesterday(today), h, InlineBaseline(h, ThreeMonthCutoff(today)))
  }

  /**
   * The upper y-limit of the chart, `max(max count, 12000)`: never below
   * 12000, never below a count, and either 12000 or the largest count.
   * Missing when no count is recorded.
   */
  function LastWeekYLimit(rows: seq<SummaryRow>): (r: Option<int>)
    ensures r.None? <==> forall i :: 0 <= i < |rows| ==> rows[i].stepCount.None?
    ensures r.Some? ==> r.value >= 12000
    ensures r.Some? ==> forall i, c :: 0 <= i < |rows| && rows[i].stepCount == Some(c) ==> c <= r.value
    ensures r.Some? ==> r.value == 12000 || r.value in PresentCounts(rows)
  {
    var cs := PresentCounts(rows);
    if cs == [] then None
    else
      var m := MaxOf(cs);
      forall i, c | 0 <= i < |rows| && rows[i].stepCount == Some(c) ensures c <= m {
        assert c in cs;
      }
      Some(if m > 12000 then m else 12000)
  }

  /**
   * The week average in the title, once the dates are unique: missing
   * exactly when no record falls on one of the seven days up to yesterday.
   */
  lemma TitleWeekAverage(h: seq<StepRecord>, today: Date)
    requires Valid(today) && ValidHistory(h) && UniqueDates(h)
    ensures var rows := CreateLastWeekSummaryDf(h, today);
      AvgStepsLastWeek(rows).None? <==>
        forall x :: x in h ==> !(Ordinal(today) - 7 <= Ordinal(x.date) < Ordinal(today))
  {
    var rows := CreateLastWeekSummaryDf(h, today);
    forall x | x in h && Ordinal(today) - 7 <= Ordinal(x.date) < Ordinal(today)
      ensures rows[Ordinal(x.date) - Ordinal(today) + 7].stepCount.Some?
    {
      RecordInWeekIsShown(h, today, x);
    }
    forall i | 0 <= i < |rows| && rows[i].stepCount.Some?
      ensures exists x :: x in h && Ordinal(today) - 7 <= Ordinal(x.date) < Ordinal(today)
    {
      ShownCountIsInWeek(h, today, i);
    }
  }

  lemma RecordInWeekIsShown(h: seq<StepRecord>, today: Date, x: StepRecord)
    requires Valid(today) && ValidHistory(h) && UniqueDates(h)
    requires x in h && Ordinal(today) - 7 <= Ordinal(x.date) < Ordinal(today)
    ensures var rows := CreateLastWeekSummaryByDay(h, today);
      |rows| == 7 && rows[Ordinal(x.date) - Ordinal(today) + 7].stepCount == Some(x.stepCount)
  {
    var week := CreateWeekToYesterday(today);
    var i := Ordinal(x.date) - Ordinal(today) + 7;
    LastWeekSummaryShape(h, today);
    OrdinalInjective(x.date, week[i].date);
  }

  lemma ShownCountIsInWeek(h: seq<StepRecord>, today: Date, i: int)
    requires Valid(today) && ValidHistory(h) && UniqueDates(h)
    requires 0 <= i < |CreateLastWeekSummaryByDay(h, today)|
    requires CreateLastWeekSummaryByDay(h, today)[i].stepCount.Some?
    ensures exists x :: x in h && Ordinal(today) - 7 <= Ordinal(x.date) < Ordinal(today)
  {
    var rows := CreateLastWeekSummaryByDay(h, today);
    var week := CreateWeekToYesterday(today);
    LastWeekSummaryShape(h, today);
    assert 0 <= i < 7 && rows[i].date == week[i].date;
    assert exists x :: x in h && x.date == rows[i].date;
    var x :| x in h && x.date == week[i].date;
    assert Ordinal(x.date) == Ordinal(today) - 7 + i;
  }
}
