/**
 * The reporting views `StepHistoryProcessor` builds from the step history:
 * the seven days up to yesterday, the per-weekday average over the last
 * three calendar months, the last-week table joining the two, and the
 * year-to-date average with its weekly and monthly buckets.
 *
 * Every view is a function of the history and of `today`, the calendar day
 * of the wall clock when the report is made. The history itself is never
 * changed: each view works on a selection of it.
 */
module StepHistoryProcessor {
  import opened Wrappers
  import opened Calendar
  import opened Stats
  import opened StepHistory

  // ---------------------------------------------------------------------
  // The week up to yesterday

  /** A row of the week table: a date and its English weekday name. */
  datatype DayRow = DayRow(date: Date, dayOfWeek: string)

  /** The seven days from `today - 7` to `today - 1`, oldest first, each with its weekday name. */
  function CreateWeekToYesterday(today: Date): (rows: seq<DayRow>)
    requires Valid(today)
    ensures |rows| == 7
    ensures forall i :: 0 <= i < 7 ==> Valid(rows[i].date) && Ordinal(rows[i].date) == Ordinal(today) - 7 + i
    ensures forall i :: 0 <= i < 7 ==> rows[i].dayOfWeek == DayName(rows[i].date)
  {
    seq(7, i requires 0 <= i < 7 => WeekRow(today, i))
  }

  function WeekRow(today: Date, i: nat): (row: DayRow)
    requires Valid(today) && i < 7
    ensures Valid(row.date) && Ordinal(row.date) == Ordinal(today) - 7 + i
    ensures row.dayOfWeek == DayName(row.date)
  {
    var d := SubDays(today, 7 - i);
    DayRow(d, DayName(d))
  }

  /** Seven consecutive days carry seven different weekday names, so every name occurs exactly once. */
  lemma WeekCoversEveryWeekday(today: Date)
    requires Valid(today)
    ensures var rows := CreateWeekToYesterday(today);
      && (forall i, j :: 0 <= i < j < 7 ==> rows[i].dayOfWeek != rows[j].dayOfWeek)
      && (forall name :: name in WeekdayNames ==> exists i :: 0 <= i < 7 && rows[i].dayOfWeek == name)
  {
    var rows := CreateWeekToYesterday(today);
    var o := Ordinal(today);
    WeekNames(today, rows, o);
    NamesOfSevenDays(rows, o - 1);
  }

  lemma WeekNames(today: Date, rows: seq<DayRow>, o: int)
    requires Valid(today) && Ordinal(today) == o
    requires rows == CreateWeekToYesterday(today)
    ensures forall i :: 0 <= i < 7 ==> rows[i].dayOfWeek == WeekdayNames[Residue(o - 1, i)]
  {
    forall i | 0 <= i < 7
      ensures rows[i].dayOfWeek == WeekdayNames[Residue(o - 1, i)]
    {
      NameOfDayNumber(rows[i].date, o - 7 + i);
    }
  }

  /** Rows named after seven consecutive remainders carry each weekday name once. */
  lemma NamesOfSevenDays(rows: seq<DayRow>, a: int)
    requires |rows| == 7
    requires forall i :: 0 <= i < 7 ==> rows[i].dayOfWeek == WeekdayNames[Residue(a, i)]
    ensures forall i, j :: 0 <= i < j < 7 ==> rows[i].dayOfWeek != rows[j].dayOfWeek
    ensures forall name :: name in WeekdayNames ==> exists i :: 0 <= i < 7 && rows[i].dayOfWeek == name
  {
    WeekdayNamesDistinct();
    SevenResidues(a);
    forall name | name in WeekdayNames
      ensures exists i :: 0 <= i < 7 && rows[i].dayOfWeek == name
    {
      var w :| 0 <= w < 7 && WeekdayNames[w] == name;
      var i := Offset(a, w);
      assert rows[i].dayOfWeek == name;
    }
  }

  lemma NameOfDayNumber(d: Date, n: int)
    requires Valid(d) && Ordinal(d) == n
    ensures DayName(d) == WeekdayNames[(n + 6) % 7]
  {
  }

  function Residue(a: int, i: int): int {
    (a + i) % 7
  }

  /** The offset from `a` at which the remainder `w` comes round. */
  function Offset(a: int, w: int): int {
    (w - a) % 7
  }

  /** Seven consecutive integers leave the seven remainders modulo 7, once each. */
  lemma SevenResidues(a: int)
    ensures forall i, j :: 0 <= i < j < 7 ==> Residue(a, i) != Residue(a, j)
    ensures forall w :: 0 <= w < 7 ==> 0 <= Offset(a, w) < 7 && Residue(a, Offset(a, w)) == w
  {
  }

  // ---------------------------------------------------------------------
  // The last three months, by weekday

  /** A history record with its weekday name added. */
  datatype TaggedRecord = TaggedRecord(date: Date, stepCount: int, dayOfWeek: string)

  function Tag(h: seq<StepRecord>): (ts: seq<TaggedRecord>)
    requires ValidHistory(h)
    ensures |ts| == |h|
    ensures forall i :: 0 <= i < |h| ==> ts[i] == TaggedRecord(h[i].date, h[i].stepCount, DayName(h[i].date))
  {
    seq(|h|, i requires 0 <= i < |h| => TaggedRecord(h[i].date, h[i].stepCount, DayName(h[i].date)))
  }

  /** The day number of `today - DateOffset(months=3)`: three calendar months back, the day clamped. */
  function ThreeMonthCutoff(today: Date): int
    requires Valid(today)
  {
    Ordinal(SubMonths(today, 3))
  }

  /** A record with its weekday name. */
  function Tagged(x: StepRecord): TaggedRecord
    requires Valid(x.date)
  {
    TaggedRecord(x.date, x.stepCount, DayName(x.date))
  }

  /** The tagged records dated strictly after day `cutoff`: all of them, and nothing else. */
  function TagAfter(h: seq<StepRecord>, cutoff: int): (ts: seq<TaggedRecord>)
    requires ValidHistory(h)
    ensures |ts| <= |h|
    ensures forall i :: 0 <= i < |ts| ==>
      var x := StepRecord(ts[i].date, ts[i].stepCount);
      x in h && IsAfter(x, cutoff) && ts[i] == Tagged(x)
    ensures forall x :: x in h && IsAfter(x, cutoff) ==> Tagged(x) in ts
    ensures forall x: StepRecord :: Valid(x.date) ==>
      multiset(ts)[Tagged(x)] == if IsAfter(x, cutoff) then multiset(h)[x] else 0
  {
    var kept := After(h, cutoff);
    TagSelection(h, kept, x => IsAfter(x, cutoff));
    Tag(kept)
  }

  /** Tagging a selection of `h`, as counted by `keep`, tags records of `h` only, and every selected one. */
  lemma TagSelection(h: seq<StepRecord>, kept: seq<StepRecord>, keep: StepRecord -> bool)
    requires ValidHistory(h) && ValidHistory(kept)
    requires forall i :: 0 <= i < |kept| ==> keep(kept[i])
    requires forall x :: multiset(kept)[x] == if keep(x) then multiset(h)[x] else 0
    ensures forall i :: 0 <= i < |kept| ==> kept[i] in h && keep(kept[i]) && Tag(kept)[i] == Tagged(kept[i])
    ensures forall x :: x in h && keep(x) ==> Tagged(x) in Tag(kept)
    ensures forall x: StepRecord :: Valid(x.date) ==>
      multiset(Tag(kept))[Tagged(x)] == if keep(x) then multiset(h)[x] else 0
  {
    var ts := Tag(kept);
    TagMultiset(kept);
    forall i | 0 <= i < |kept|
      ensures kept[i] in h
    {
      assert multiset(kept)[kept[i]] > 0;
    }
    forall x | x in h && keep(x)
      ensures Tagged(x) in ts
    {
      assert multiset(kept)[x] == multiset(h)[x] > 0;
      var j :| 0 <= j < |kept| && kept[j] == x;
      assert ts[j] == Tagged(x);
    }
  }

  /** Tagging keeps how often each record occurs. */
  lemma {:induction false} TagMultiset(s: seq<StepRecord>)
    requires ValidHistory(s)
    ensures forall x: StepRecord :: Valid(x.date) ==> multiset(Tag(s))[Tagged(x)] == multiset(s)[x]
    decreases |s|
  {
    if s != [] {
      var tail := s[1..];
      TagMultiset(tail);
      TagCons(s);
      forall x: StepRecord | Valid(x.date)
        ensures multiset(Tag(s))[Tagged(x)] == multiset(s)[x]
      {
        TaggedInjective(s[0], x);
      }
    }
  }

  lemma TagCons(s: seq<StepRecord>)
    requires ValidHistory(s) && s != []
    ensures multiset(s) == multiset{s[0]} + multiset(s[1..])
    ensures multiset(Tag(s)) == multiset{Tagged(s[0])} + multiset(Tag(s[1..]))
  {
    assert s == [s[0]] + s[1..];
    assert Tag(s) == [Tagged(s[0])] + Tag(s[1..]);
  }

  /** Two records with the same tagged form are the same record. */
  lemma TaggedInjective(x: StepRecord, y: StepRecord)
    requires Valid(x.date) && Valid(y.date)
    ensures Tagged(x) == Tagged(y) <==> x == y
  {
  }

  /**
   * The records dated strictly after `today - 3 months`, each tagged with its
   * weekday name: every row comes from the history and lies in the window,
   * and every record of the history in the window appears.
   */
  function Filter3mToDate(h: seq<StepRecord>, today: Date): (ts: seq<TaggedRecord>)
    requires Valid(today) && ValidHistory(h)
    ensures |ts| <= |h|
    ensures forall i :: 0 <= i < |ts| ==>
      var x := StepRecord(ts[i].date, ts[i].stepCount);
      x in h && IsAfter(x, ThreeMonthCutoff(today)) && ts[i] == Tagged(x)
    ensures forall x :: x in h && IsAfter(x, ThreeMonthCutoff(today)) ==> Tagged(x) in ts
    ensures forall x: StepRecord :: Valid(x.date) ==>
      multiset(ts)[Tagged(x)] == if IsAfter(x, ThreeMonthCutoff(today)) then multiset(h)[x] else 0
  {
    TagAfter(h, ThreeMonthCutoff(today))
  }

  /** The counts of the tagged records with weekday `name`, in order. */
  function CountsOn(ts: seq<TaggedRecord>, name: string): (cs: seq<int>)
    ensures |cs| > 0 <==> exists i :: 0 <= i < |ts| && ts[i].dayOfWeek == name
    ensures forall c :: c in cs ==> exists i :: 0 <= i < |ts| && ts[i].dayOfWeek == name && ts[i].stepCount == c
    ensures forall c :: multiset(cs)[c] == NamedCount(ts, name, c)
  {
    if ts == [] then []
    else
      var rest := CountsOn(ts[1..], name);
      var cs := if ts[0].dayOfWeek == name then [ts[0].stepCount] + rest else rest;
      CountsOnStep(ts, name, rest, cs);
      cs
  }

  /** Keeping the first count when its weekday is `name` extends the counts of the rest. */
  lemma CountsOnStep(ts: seq<TaggedRecord>, name: string, rest: seq<int>, cs: seq<int>)
    requires ts != []
    requires |rest| > 0 <==> exists i :: 0 <= i < |ts[1..]| && ts[1..][i].dayOfWeek == name
    requires forall c :: c in rest ==> exists i :: 0 <= i < |ts[1..]| && ts[1..][i].dayOfWeek == name && ts[1..][i].stepCount == c
    requires forall c :: multiset(rest)[c] == NamedCount(ts[1..], name, c)
    requires cs == if ts[0].dayOfWeek == name then [ts[0].stepCount] + rest else rest
    ensures |cs| > 0 <==> exists i :: 0 <= i < |ts| && ts[i].dayOfWeek == name
    ensures forall c :: c in cs ==> exists i :: 0 <= i < |ts| && ts[i].dayOfWeek == name && ts[i].stepCount == c
    ensures forall c :: multiset(cs)[c] == NamedCount(ts, name, c)
  {
    assert forall i :: 1 <= i < |ts| ==> ts[i] == ts[1..][i - 1];
    NamedCountCons(ts, name);
  }

  /** For each record of `ts`, whether it is a `name` record counting `c`. */
  function NamedMarks(ts: seq<TaggedRecord>, name: string, c: int): (marks: seq<bool>)
    ensures |marks| == |ts|
    ensures forall i :: 0 <= i < |ts| ==> (marks[i] <==> ts[i].dayOfWeek == name && ts[i].stepCount == c)
  {
    seq(|ts|, i requires 0 <= i < |ts| => ts[i].dayOfWeek == name && ts[i].stepCount == c)
  }

  /** How many records of `ts` are `name` records counting `c`. */
  function NamedCount(ts: seq<TaggedRecord>, name: string, c: int): nat {
    CountTrue(NamedMarks(ts, name, c))
  }

  lemma NamedCountCons(ts: seq<TaggedRecord>, name: string)
    requires ts != []
    ensures forall c ::
              NamedCount(ts, name, c) ==
              (if ts[0].dayOfWeek == name && ts[0].stepCount == c then 1 else 0) + NamedCount(ts[1..], name, c)
  {
    forall c
      ensures NamedCount(ts, name, c)
        == (if ts[0].dayOfWeek == name && ts[0].stepCount == c then 1 else 0) + NamedCount(ts[1..], name, c)
    {
      assert NamedMarks(ts, name, c)[1..] == NamedMarks(ts[1..], name, c);
      CountTrueCons(NamedMarks(ts, name, c));
    }
  }

  /** The weekday averages of the tagged records: one entry per name present. */
  function AveragesByName(ts: seq<TaggedRecord>): (avg: map<string, int>)
    ensures forall name :: name in avg <==> exists i :: 0 <= i < |ts| && ts[i].dayOfWeek == name
    ensures forall name :: name in avg ==> |CountsOn(ts, name)| > 0 && avg[name] == Mean(CountsOn(ts, name))
  {
    var names := set i | 0 <= i < |ts| :: ts[i].dayOfWeek;
    map name | name in names :: Mean(CountsOn(ts, name))
  }

  /** The weekday averages over the records dated strictly after day `cutoff`. */
  function BaselineAfter(h: seq<StepRecord>, cutoff: int): (avg: map<string, int>)
    requires ValidHistory(h)
    ensures forall name :: name in avg <==> exists x :: x in h && IsAfter(x, cutoff) && DayName(x.date) == name
    ensures forall name :: name in avg ==>
      var cs := CountsOn(TagAfter(h, cutoff), name);
      |cs| > 0 && avg[name] == Mean(cs)
  {
    var ts := TagAfter(h, cutoff);
    var avg := AveragesByName(ts);
    forall name | exists x :: x in h && IsAfter(x, cutoff) && DayName(x.date) == name
      ensures name in avg
    {
      var x :| x in h && IsAfter(x, cutoff) && DayName(x.date) == name;
      var i :| 0 <= i < |ts| && ts[i] == Tagged(x);
    }
    avg
  }

  /**
   * `groupby('day_of_week')['step_count'].mean().astype(int)` over the
   * three-month window, as a map from weekday name to the truncated mean
   * of that weekday's counts. A weekday with no record in the window has
   * no entry (it is absent, not zero).
   */
  function Create3mAvgByWeekday(h: seq<StepRecord>, today: Date): (avg: map<string, int>)
    requires Valid(today) && ValidHistory(h)
    ensures forall name :: name in avg <==>
      exists x :: x in h && IsAfter(x, ThreeMonthCutoff(today)) && DayName(x.date) == name
    ensures forall name :: name in avg ==>
      var cs := CountsOn(Filter3mToDate(h, today), name);
      |cs| > 0 && avg[name] == Mean(cs)
  {
    BaselineAfter(h, ThreeMonthCutoff(today))
  }

  /** When every record after the cutoff counts `k` steps, every weekday present averages `k`. */
  lemma BaselineAfterOfConstant(h: seq<StepRecord>, cutoff: int, k: int)
    requires ValidHistory(h)
    requires forall x :: x in h && IsAfter(x, cutoff) ==> x.stepCount == k
    ensures forall name :: name in BaselineAfter(h, cutoff) ==> BaselineAfter(h, cutoff)[name] == k
  {
    var ts := TagAfter(h, cutoff);
    forall name | name in BaselineAfter(h, cutoff)
      ensures BaselineAfter(h, cutoff)[name] == k
    {
      var cs := CountsOn(ts, name);
      forall j | 0 <= j < |cs| ensures cs[j] == k {
        assert cs[j] in cs;
        var i :| 0 <= i < |ts| && ts[i].dayOfWeek == name && ts[i].stepCount == cs[j];
        assert StepRecord(ts[i].date, ts[i].stepCount) in h;
      }
      MeanOfConstant(cs, k);
    }
  }

  /** When every record of the three-month window counts `k` steps, every weekday present averages `k`. */
  lemma BaselineOfConstant(h: seq<StepRecord>, today: Date, k: int)
    requires Valid(today) && ValidHistory(h)
    requires forall x :: x in h && IsAfter(x, ThreeMonthCutoff(today)) ==> x.stepCount == k
    ensures forall name :: name in Create3mAvgByWeekday(h, today) ==> Create3mAvgByWeekday(h, today)[name] == k
  {
    BaselineAfterOfConstant(h, ThreeMonthCutoff(today), k);
  }

  /** Every weekday average after the cutoff lies between the smallest and the largest count there. */
  lemma BaselineAfterBounds(h: seq<StepRecord>, cutoff: int, lo: int, hi: int)
    requires ValidHistory(h)
    requires forall x :: x in h && IsAfter(x, cutoff) ==> lo <= x.stepCount <= hi
    ensures forall name :: name in BaselineAfter(h, cutoff) ==> lo <= BaselineAfter(h, cutoff)[name] <= hi
  {
    var ts := TagAfter(h, cutoff);
    forall name | name in BaselineAfter(h, cutoff)
      ensures lo <= BaselineAfter(h, cutoff)[name] <= hi
    {
      var cs := CountsOn(ts, name);
      forall j | 0 <= j < |cs| ensures lo <= cs[j] <= hi {
        assert cs[j] in cs;
        var i :| 0 <= i < |ts| && ts[i].dayOfWeek == name && ts[i].stepCount == cs[j];
        assert StepRecord(ts[i].date, ts[i].stepCount) in h;
      }
      MeanBounds(cs, lo, hi);
    }
  }

  /** Every weekday average lies between the smallest and the largest count of the three-month window. */
  lemma BaselineBounds(h: seq<StepRecord>, today: Date, lo: int, hi: int)
    requires Valid(today) && ValidHistory(h)
    requires forall x :: x in h && IsAfter(x, ThreeMonthCutoff(today)) ==> lo <= x.stepCount <= hi
    ensures forall name :: name in Create3mAvgByWeekday(h, today) ==> lo <= Create3mAvgByWeekday(h, today)[name] <= hi
  {
    BaselineAfterBounds(h, ThreeMonthCutoff(today), lo, hi);
  }

  // ---------------------------------------------------------------------
  // The last-week table: week ⋈ history on date, then ⋈ baseline on weekday

  /** A row of the last-week table; a missing value is `None` (NaN in the frame). */
  datatype SummaryRow = SummaryRow(date: Date, dayOfWeek: string, stepCount: Option<int>, threeMonthAvg: Option<int>)

  /** The counts of the records dated `d`, in history order. */
  function CountsDated(h: seq<StepRecord>, d: Date): (cs: seq<int>)
    ensures |cs| <= |h|
    ensures cs == [] <==> forall x :: x in h ==> x.date != d
    ensures forall x :: x in h && x.date == d && UniqueDates(h) ==> cs == [x.stepCount]
  {
    if h == [] then []
    else
      var rest := CountsDated(h[1..], d);
      assert forall x :: x in h <==> x == h[0] || x in h[1..];
      assert UniqueDates(h) ==> UniqueDates(h[1..]) && forall x :: x in h[1..] ==> x.date != h[0].date by {
        if UniqueDates(h) {
          forall x | x in h[1..] ensures x.date != h[0].date {
            var j :| 0 <= j < |h[1..]| && h[1..][j] == x;
            assert h[j + 1] == x;
          }
        }
      }
      if h[0].date == d then [h[0].stepCount] + rest else rest
  }

  /** The weekday average for `name`, or missing. */
  function Lookup(avg: map<string, int>, name: string): (r: Option<int>)
    ensures r.Some? <==> name in avg
    ensures r.Some? ==> r.value == avg[name]
  {
    if name in avg then Some(avg[name]) else None
  }

  /**
   * The rows a left merge produces for one day: one row per matching record,
   * or a single row with a missing count when no record has that date.
   */
  function JoinDay(row: DayRow, h: seq<StepRecord>, avg: map<string, int>): (rs: seq<SummaryRow>)
    ensures |rs| >= 1
    ensures forall i :: 0 <= i < |rs| ==>
      rs[i].date == row.date && rs[i].dayOfWeek == row.dayOfWeek && rs[i].threeMonthAvg == Lookup(avg, row.dayOfWeek)
    ensures CountsDated(h, row.date) == [] ==> rs == [SummaryRow(row.date, row.dayOfWeek, None, Lookup(avg, row.dayOfWeek))]
    ensures CountsDated(h, row.date) != [] ==>
      |rs| == |CountsDated(h, row.date)| &&
      forall i :: 0 <= i < |rs| ==> rs[i].stepCount == Some(CountsDated(h, row.date)[i])
  {
    var cs := CountsDated(h, row.date);
    var b := Lookup(avg, row.dayOfWeek);
    if cs == [] then [SummaryRow(row.date, row.dayOfWeek, None, b)]
    else seq(|cs|, i requires 0 <= i < |cs| => SummaryRow(row.date, row.dayOfWeek, Some(cs[i]), b))
  }

  /**
   * `pd.merge(rows, ..., how='left')`: each row's matches, in the order of
   * the rows. `LeftJoinFromDays` and `LeftJoinCoversDays` relate the merged
   * rows to the days, and `LeftJoinOneRowEach` gives the exact shape when
   * dates are unique.
   */
  function LeftJoin(rows: seq<DayRow>, h: seq<StepRecord>, avg: map<string, int>): (rs: seq<SummaryRow>)
    ensures |rs| >= |rows|
  {
    if rows == [] then [] else JoinDay(rows[0], h, avg) + LeftJoin(rows[1..], h, avg)
  }

  /** `r` carries the date, the weekday name and the baseline of the day `row`. */
  predicate FromDay(r: SummaryRow, row: DayRow, avg: map<string, int>) {
    r.date == row.date && r.dayOfWeek == row.dayOfWeek && r.threeMonthAvg == Lookup(avg, row.dayOfWeek)
  }

  /** Every merged row carries the date, the weekday name and the baseline of one of the days. */
  lemma {:induction false} LeftJoinFromDays(rows: seq<DayRow>, h: seq<StepRecord>, avg: map<string, int>)
    ensures forall r :: r in LeftJoin(rows, h, avg) ==> exists i :: 0 <= i < |rows| && FromDay(r, rows[i], avg)
  {
    if rows != [] {
      LeftJoinFromDays(rows[1..], h, avg);
      var head, rest := JoinDay(rows[0], h, avg), LeftJoin(rows[1..], h, avg);
      forall r | r in head + rest ensures exists i :: 0 <= i < |rows| && FromDay(r, rows[i], avg) {
        if r in head {
          var k :| 0 <= k < |head| && head[k] == r;
          assert FromDay(r, rows[0], avg);
        } else {
          var k :| 0 <= k < |rows[1..]| && FromDay(r, rows[1..][k], avg);
          assert FromDay(r, rows[k + 1], avg);
        }
      }
    }
  }

  /** Every day is represented in the merge by the first row `JoinDay` builds for it. */
  lemma {:induction false} LeftJoinCoversDays(rows: seq<DayRow>, h: seq<StepRecord>, avg: map<string, int>)
    ensures forall i :: 0 <= i < |rows| ==> JoinDay(rows[i], h, avg)[0] in LeftJoin(rows, h, avg)
  {
    if rows != [] {
      LeftJoinCoversDays(rows[1..], h, avg);
      forall i | 1 <= i < |rows| ensures JoinDay(rows[i], h, avg)[0] in LeftJoin(rows, h, avg) {
        assert rows[i] == rows[1..][i - 1];
      }
    }
  }

  /** With at most one record per date, the left merge keeps one row per day, in order. */
  lemma {:induction false} LeftJoinOneRowEach(rows: seq<DayRow>, h: seq<StepRecord>, avg: map<string, int>)
    requires UniqueDates(h)
    ensures |LeftJoin(rows, h, avg)| == |rows|
    ensures forall i :: 0 <= i < |rows| ==> LeftJoin(rows, h, avg)[i] == JoinDay(rows[i], h, avg)[0]
  {
    if rows != [] {
      LeftJoinOneRowEach(rows[1..], h, avg);
      var cs := CountsDated(h, rows[0].date);
      assert |JoinDay(rows[0], h, avg)| == 1 by {
        if cs != [] {
          var x :| x in h && x.date == rows[0].date;
        }
      }
    }
  }

  /** The last-week table: the week, its recorded counts and each weekday's three-month average. */
  function CreateLastWeekSummaryByDay(h: seq<StepRecord>, today: Date): (rs: seq<SummaryRow>)
    requires Valid(today) && ValidHistory(h)
    ensures |rs| >= 7
    ensures forall r :: r in rs ==> exists i :: 0 <= i < 7 && r.date == CreateWeekToYesterday(today)[i].date
  {
    LastWeekRowsFromWeek(CreateWeekToYesterday(today), h, Create3mAvgByWeekday(h, today));
    LeftJoin(CreateWeekToYesterday(today), h, Create3mAvgByWeekday(h, today))
  }

  lemma {:induction false} LastWeekRowsFromWeek(rows: seq<DayRow>, h: seq<StepRecord>, avg: map<string, int>)
    ensures forall r :: r in LeftJoin(rows, h, avg) ==> exists i :: 0 <= i < |rows| && r.date == rows[i].date
  {
    if rows != [] {
      LastWeekRowsFromWeek(rows[1..], h, avg);
      forall r | r in LeftJoin(rows, h, avg)
        ensures exists i :: 0 <= i < |rows| && r.date == rows[i].date
      {
        if r in JoinDay(rows[0], h, avg) {
          assert r.date == rows[0].date;
        } else {
          var i :| 0 <= i < |rows[1..]| && r.date == rows[1..][i].date;
          assert r.date == rows[i + 1].date;
        }
      }
    }
  }

  /**
   * With unique history dates the last-week table has exactly seven rows,
   * the days `today - 7` to `today - 1` in order; each holds the count
   * recorded for that date or a missing count, and that weekday's
   * three-month average or a missing average.
   */
  lemma LastWeekSummaryShape(h: seq<StepRecord>, today: Date)
    requires Valid(today) && ValidHistory(h) && UniqueDates(h)
    ensures var rs := CreateLastWeekSummaryByDay(h, today);
      var week := CreateWeekToYesterday(today);
      var avg := Create3mAvgByWeekday(h, today);
      && |rs| == 7
      && (forall i :: 0 <= i < 7 ==> rs[i].date == week[i].date && rs[i].dayOfWeek == week[i].dayOfWeek)
      && (forall i :: 0 <= i < 7 ==> (rs[i].stepCount.Some? <==> exists x :: x in h && x.date == rs[i].date))
      && (forall i, x :: 0 <= i < 7 && x in h && x.date == rs[i].date ==> rs[i].stepCount == Some(x.stepCount))
      && (forall i :: 0 <= i < 7 ==> rs[i].threeMonthAvg == Lookup(avg, rs[i].dayOfWeek))
  {
    var week := CreateWeekToYesterday(today);
    var avg := Create3mAvgByWeekday(h, today);
    LeftJoinOneRowEach(week, h, avg);
  }

  /**
   * A day of the week that has a recorded count always has a three-month
   * average: the week lies well inside the three-month window, which is at
   * least 84 days long.
   */
  lemma CountedDayHasBaseline(h: seq<StepRecord>, today: Date)
    requires Valid(today) && ValidHistory(h)
    ensures forall r :: r in CreateLastWeekSummaryByDay(h, today) && r.stepCount.Some? ==> r.threeMonthAvg.Some?
  {
    var week := CreateWeekToYesterday(today);
    var avg := Create3mAvgByWeekday(h, today);
    SubMonthsDistance(today, 3);
    forall i | 0 <= i < 7 && CountsDated(h, week[i].date) != []
      ensures week[i].dayOfWeek in avg
    {
      var x :| x in h && x.date == week[i].date;
      assert IsAfter(x, ThreeMonthCutoff(today));
    }
    LastWeekCountsHaveBaseline(week, h, avg);
  }

  lemma {:induction false} LastWeekCountsHaveBaseline(rows: seq<DayRow>, h: seq<StepRecord>, avg: map<string, int>)
    requires forall i :: 0 <= i < |rows| && CountsDated(h, rows[i].date) != [] ==> rows[i].dayOfWeek in avg
    ensures forall r :: r in LeftJoin(rows, h, avg) && r.stepCount.Some? ==> r.threeMonthAvg.Some?
  {
    if rows != [] {
      LastWeekCountsHaveBaseline(rows[1..], h, avg);
      assert forall i :: 1 <= i < |rows| ==> rows[i] == rows[1..][i - 1];
    }
  }

  // ---------------------------------------------------------------------
  // Year to date

  /** The day one calendar year before `today`; 29 February becomes 28 February. */
  function OneYearAgo(today: Date): Date
    requires Valid(today)
  {
    SubYears(today, 1)
  }

  /** The records dated strictly after `today - 1 year`, with their multiplicity, in history order. */
  function FilterYearToDate(h: seq<StepRecord>, today: Date): (r: seq<StepRecord>)
    requires Valid(today) && ValidHistory(h)
    ensures ValidHistory(r) && |r| <= |h|
    ensures forall i :: 0 <= i < |r| ==> Ordinal(r[i].date) > Ordinal(OneYearAgo(today))
    ensures forall x :: multiset(r)[x] == if IsAfter(x, Ordinal(OneYearAgo(today))) then multiset(h)[x] else 0
  {
    After(h, Ordinal(OneYearAgo(today)))
  }

  /**
   * `int(df['step_count'].mean())` over the year window: missing exactly
   * when no record falls in the window (`int(NaN)` raises).
   */
  function GetYearToDateAvgStepCount(h: seq<StepRecord>, today: Date): (r: Option<int>)
    requires Valid(today) && ValidHistory(h)
    ensures r.None? <==> forall x :: x in h ==> Ordinal(x.date) <= Ordinal(OneYearAgo(today))
    ensures r.Some? ==> |FilterYearToDate(h, today)| > 0 && r.value == Mean(Counts(FilterYearToDate(h, today)))
  {
    var w := FilterYearToDate(h, today);
    assert w == [] <==> forall x :: x in h ==> Ordinal(x.date) <= Ordinal(OneYearAgo(today)) by {
      if w == [] {
        forall x | x in h ensures Ordinal(x.date) <= Ordinal(OneYearAgo(today)) {
          assert multiset(w)[x] == 0;
        }
      } else {
        assert w[0] in h by {
          assert multiset(w)[w[0]] > 0;
        }
      }
    }
    TruncMean(Counts(w))
  }

  /** The year-to-date average does not depend on the order of the records. */
  lemma YearToDateAvgOrderIndependent(a: seq<StepRecord>, b: seq<StepRecord>, today: Date)
    requires Valid(today) && ValidHistory(a) && ValidHistory(b) && multiset(a) == multiset(b)
    ensures GetYearToDateAvgStepCount(a, today) == GetYearToDateAvgStepCount(b, today)
  {
    var cutoff := Ordinal(OneYearAgo(today));
    AfterPermutation(a, b, cutoff);
    CountsPermutation(After(a, cutoff), After(b, cutoff));
    MeanPermutation(Counts(After(a, cutoff)), Counts(After(b, cutoff)));
  }

  /** Day number `k` is a Monday: day 1, 1 January of year 1, was a Monday. */
  predicate IsMonday(k: int) {
    (k + 6) % 7 == 0
  }

  /** The Monday on or before day number `o`, stepping back a day at a time. */
  function MondayOnOrBefore(o: int): (k: int)
    ensures IsMonday(k)
    ensures k <= o < k + 7
    decreases (o + 6) % 7
  {
    if IsMonday(o) then o else MondayOnOrBefore(o - 1)
  }

  /** The day number of the Monday that starts the Monday–Sunday week of `d` (pandas period `'W'`). */
  function WeekStart(d: Date): (k: int)
    requires Valid(d)
    ensures IsMonday(k)
    ensures k <= Ordinal(d) < k + 7
  {
    MondayOnOrBefore(Ordinal(d))
  }

  /** Two days fall in the same bucket exactly when they lie in the same Monday–Sunday week. */
  lemma SameWeekIff(a: Date, b: Date)
    requires Valid(a) && Valid(b)
    ensures WeekStart(a) == WeekStart(b) <==> (Ordinal(a) + 6) / 7 == (Ordinal(b) + 6) / 7
  {
    MondayFormula(Ordinal(a));
    MondayFormula(Ordinal(b));
  }

  /** The week of `d` starts `Weekday(d)` days before it. */
  lemma WeekStartIsWeekdayOffset(d: Date)
    requires Valid(d)
    ensures WeekStart(d) == Ordinal(d) - Weekday(d)
  {
    MondayFormula(Ordinal(d));
  }

  /** The Monday on or before day `o`, in closed form. */
  lemma MondayFormula(o: int)
    ensures MondayOnOrBefore(o) == 7 * ((o + 6) / 7) - 6
    ensures MondayOnOrBefore(o) == o - (o + 6) % 7
  {
    var k := MondayOnOrBefore(o);
    var q := (k + 6) / 7;
    assert k + 6 == 7 * q;
    assert 7 * q <= o + 6 < 7 * q + 7;
    assert (o + 6) / 7 == q;
  }

  /** The calendar month of `d` as one number, counting months from year 0 (pandas period `'M'`). */
  function MonthKey(d: Date): (k: int)
    requires Valid(d)
    ensures k / 12 == d.year && k % 12 + 1 == d.month
  {
    d.year * 12 + d.month - 1
  }

  /** Month keys are ordered as the months are. */
  lemma MonthKeyOrder(a: Date, b: Date)
    requires Valid(a) && Valid(b)
    ensures MonthKey(a) < MonthKey(b) <==> a.year < b.year || (a.year == b.year && a.month < b.month)
  {
  }

  /** Each record of `w` keyed by the Monday of its week. */
  function ByWeek(w: seq<StepRecord>): (ps: seq<Keyed>)
    requires ValidHistory(w)
    ensures |ps| == |w|
    ensures forall i :: 0 <= i < |w| ==> ps[i] == Keyed(WeekStart(w[i].date), w[i].stepCount)
  {
    seq(|w|, i requires 0 <= i < |w| => Keyed(WeekStart(w[i].date), w[i].stepCount))
  }

  /** Each record of `w` keyed by its month. */
  function ByMonth(w: seq<StepRecord>): (ps: seq<Keyed>)
    requires ValidHistory(w)
    ensures |ps| == |w|
    ensures forall i :: 0 <= i < |w| ==> ps[i] == Keyed(MonthKey(w[i].date), w[i].stepCount)
  {
    seq(|w|, i requires 0 <= i < |w| => Keyed(MonthKey(w[i].date), w[i].stepCount))
  }

  /** `GroupMeans` has a row for the key of every input row, and only for those keys. */
  lemma GroupMeansCoversKeys(ps: seq<Keyed>)
    ensures forall i :: 0 <= i < |ps| ==> HasGroup(GroupMeans(ps), ps[i].key)
    ensures forall g :: g in GroupMeans(ps) ==> exists i :: 0 <= i < |ps| && ps[i].key == g.key
  {
    GroupForEveryRow(ps, GroupMeans(ps));
    RowForEveryGroup(ps, GroupMeans(ps));
  }

  lemma GroupForEveryRow(ps: seq<Keyed>, gs: seq<Group>)
    requires forall k :: k in Keys(ps) ==> HasGroup(gs, k)
    ensures forall i :: 0 <= i < |ps| ==> HasGroup(gs, ps[i].key)
  {
    forall i | 0 <= i < |ps|
      ensures HasGroup(gs, ps[i].key)
    {
      GroupForRow(ps, gs, i);
    }
  }

  lemma GroupForRow(ps: seq<Keyed>, gs: seq<Group>, i: int)
    requires forall k :: k in Keys(ps) ==> HasGroup(gs, k)
    requires 0 <= i < |ps|
    ensures HasGroup(gs, ps[i].key)
  {
    RowHasKey(ps, i);
    var k := ps[i].key;
    assert k in Keys(ps);
    var g :| g in gs && g.key == k;
  }

  lemma RowForEveryGroup(ps: seq<Keyed>, gs: seq<Group>)
    requires forall g :: g in gs ==> g.key in Keys(ps)
    ensures forall g :: g in gs ==> exists i :: 0 <= i < |ps| && ps[i].key == g.key
  {
    forall g | g in gs
      ensures exists i :: 0 <= i < |ps| && ps[i].key == g.key
    {
      KeyHasRow(ps, g.key);
    }
  }

  /** One row per week of the records of `w`: ascending Mondays, each with the mean of its week's counts. */
  function WeeklyMeans(w: seq<StepRecord>): (gs: seq<Group>)
    requires ValidHistory(w)
    ensures StrictlyAscending(gs)
    ensures forall g :: g in gs ==> exists i :: 0 <= i < |w| && WeekStart(w[i].date) == g.key
    ensures forall i :: 0 <= i < |w| ==> HasGroup(gs, WeekStart(w[i].date))
    ensures forall g :: g in gs ==> |ValuesAt(ByWeek(w), g.key)| > 0 && g.mean == Mean(ValuesAt(ByWeek(w), g.key))
  {
    GroupMeansCoversKeys(ByWeek(w));
    GroupMeans(ByWeek(w))
  }

  /** Every weekly bucket is keyed by the Monday that starts it. */
  lemma WeeklyMeansOnMondays(w: seq<StepRecord>)
    requires ValidHistory(w)
    ensures forall g :: g in WeeklyMeans(w) ==> IsMonday(g.key)
  {
    forall g | g in WeeklyMeans(w)
      ensures IsMonday(g.key)
    {
      var i :| 0 <= i < |w| && WeekStart(w[i].date) == g.key;
    }
  }

  /**
   * Year to date by week: one row per Monday–Sunday week holding at least
   * one record of the year window, weeks ascending, each with the truncated
   * mean of that week's counts; weeks without records are absent.
   */
  function CreateYearToDateByWeek(h: seq<StepRecord>, today: Date): (gs: seq<Group>)
    requires Valid(today) && ValidHistory(h)
    ensures StrictlyAscending(gs)
    ensures forall g :: g in gs ==> IsMonday(g.key)
    ensures var w := FilterYearToDate(h, today);
      forall g :: g in gs ==> exists i :: 0 <= i < |w| && WeekStart(w[i].date) == g.key
    ensures var w := FilterYearToDate(h, today);
      forall i :: 0 <= i < |w| ==> HasGroup(gs, WeekStart(w[i].date))
    ensures var w := FilterYearToDate(h, today);
      forall g :: g in gs ==> |ValuesAt(ByWeek(w), g.key)| > 0 && g.mean == Mean(ValuesAt(ByWeek(w), g.key))
  {
    WeeklyMeansOnMondays(FilterYearToDate(h, today));
    WeeklyMeans(FilterYearToDate(h, today))
  }

  /** One row per month of the records of `w`: ascending months, each with the mean of its counts. */
  function MonthlyMeans(w: seq<StepRecord>): (gs: seq<Group>)
    requires ValidHistory(w)
    ensures StrictlyAscending(gs)
    ensures forall g :: g in gs ==> exists i :: 0 <= i < |w| && MonthKey(w[i].date) == g.key
    ensures forall i :: 0 <= i < |w| ==> HasGroup(gs, MonthKey(w[i].date))
    ensures forall g :: g in gs ==> |ValuesAt(ByMonth(w), g.key)| > 0 && g.mean == Mean(ValuesAt(ByMonth(w), g.key))
  {
    GroupMeansCoversKeys(ByMonth(w));
    GroupMeans(ByMonth(w))
  }

  /**
   * Year to date by month: one row per calendar month holding at least one
   * record of the year window, months ascending, each with the truncated
   * mean of that month's counts; months without records are absent.
   */
  function CreateYearToDateByMonth(h: seq<StepRecord>, today: Date): (gs: seq<Group>)
    requires Valid(today) && ValidHistory(h)
    ensures StrictlyAscending(gs)
    ensures var w := FilterYearToDate(h, today);
      forall g :: g in gs ==> exists i :: 0 <= i < |w| && MonthKey(w[i].date) == g.key
    ensures var w := FilterYearToDate(h, today);
      forall i :: 0 <= i < |w| ==> HasGroup(gs, MonthKey(w[i].date))
    ensures var w := FilterYearToDate(h, today);
      forall g :: g in gs ==> |ValuesAt(ByMonth(w), g.key)| > 0 && g.mean == Mean(ValuesAt(ByMonth(w), g.key))
  {
    MonthlyMeans(FilterYearToDate(h, today))
  }
}
