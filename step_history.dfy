/**
 * The step history every report is computed from: one record per stored
 * day, a calendar date and the number of steps walked that day (the
 * `date` and `step_count` columns of the history frame). The reports
 * select records by comparing dates with a cutoff day number.
 */
module StepHistory {
  import opened Calendar

  datatype StepRecord = StepRecord(date: Date, stepCount: int)

  /** Every record carries a real calendar date. */
  predicate ValidHistory(h: seq<StepRecord>) {
    forall i :: 0 <= i < |h| ==> Valid(h[i].date)
  }

  /** No two records share a date, as when every record comes from one document per day. */
  predicate UniqueDates(h: seq<StepRecord>) {
    forall i, j :: 0 <= i < j < |h| ==> h[i].date != h[j].date
  }

  /** The `step_count` column. */
  function Counts(h: seq<StepRecord>): (cs: seq<int>)
    ensures |cs| == |h|
    ensures forall i :: 0 <= i < |h| ==> cs[i] == h[i].stepCount
  {
    seq(|h|, i requires 0 <= i < |h| => h[i].stepCount)
  }

  /** Reordering the records reorders the counts the same way. */
  lemma {:induction false} CountsPermutation(a: seq<StepRecord>, b: seq<StepRecord>)
    requires multiset(a) == multiset(b)
    ensures multiset(Counts(a)) == multiset(Counts(b))
    decreases |a|
  {
    if a != [] {
      assert a[0] in multiset(b);
      var i :| 0 <= i < |b| && b[i] == a[0];
      var rest := b[..i] + b[i + 1..];
      CountsRemoveAt(b, i);
      CountsCons(a);
      CountsPermutation(a[1..], rest);
    }
  }

  lemma CountsCons(a: seq<StepRecord>)
    requires a != []
    ensures multiset(a[1..]) == multiset(a) - multiset{a[0]}
    ensures multiset(Counts(a)) == multiset(Counts(a[1..])) + multiset{a[0].stepCount}
  {
    var tail := a[1..];
    assert a == [a[0]] + tail;
    CountsConcat([a[0]], tail);
    assert Counts([a[0]]) == [a[0].stepCount];
    assert Counts(a) == [a[0].stepCount] + Counts(tail);
  }

  /** Taking out the record at `i` takes its count out of the counts. */
  lemma CountsRemoveAt(b: seq<StepRecord>, i: int)
    requires 0 <= i < |b|
    ensures multiset(b[..i] + b[i + 1..]) == multiset(b) - multiset{b[i]}
    ensures multiset(Counts(b)) == multiset(Counts(b[..i] + b[i + 1..])) + multiset{b[i].stepCount}
  {
    AroundIndex(b, i);
    CountsRemoveMiddle(b[..i], b[i], b[i + 1..]);
  }

  lemma AroundIndex(b: seq<StepRecord>, i: int)
    requires 0 <= i < |b|
    ensures b == b[..i] + [b[i]] + b[i + 1..]
  {
  }

  lemma CountsRemoveMiddle(l: seq<StepRecord>, x: StepRecord, r: seq<StepRecord>)
    ensures multiset(l + r) == multiset(l + [x] + r) - multiset{x}
    ensures multiset(Counts(l + [x] + r)) == multiset(Counts(l + r)) + multiset{x.stepCount}
  {
    CountsConcat(l + [x], r);
    CountsConcat(l, [x]);
    CountsConcat(l, r);
  }

  lemma CountsConcat(a: seq<StepRecord>, b: seq<StepRecord>)
    ensures Counts(a + b) == Counts(a) + Counts(b)
  {
  }

  /**
   * `df[df['date'] > cutoff]` with the cutoff given as a day number: the
   * records dated strictly after it, each as many times as it occurs and in
   * the order of the history.
   */
  function After(h: seq<StepRecord>, cutoff: int): (r: seq<StepRecord>)
    requires ValidHistory(h)
    ensures ValidHistory(r) && |r| <= |h|
    ensures forall i :: 0 <= i < |r| ==> IsAfter(r[i], cutoff)
    ensures forall x :: multiset(r)[x] == if IsAfter(x, cutoff) then multiset(h)[x] else 0
  {
    if h == [] then []
    else
      var rest := After(h[1..], cutoff);
      ConsMultiset(h);
      if IsAfter(h[0], cutoff) then [h[0]] + rest else rest
  }

  lemma ConsMultiset(h: seq<StepRecord>)
    requires h != []
    ensures multiset(h) == multiset{h[0]} + multiset(h[1..])
  {
    assert h == [h[0]] + h[1..];
  }

  /** The selection test of `After`. */
  predicate IsAfter(x: StepRecord, cutoff: int) {
    Valid(x.date) && Ordinal(x.date) > cutoff
  }

  /** Selecting by date keeps two histories with the same records in agreement. */
  lemma AfterPermutation(a: seq<StepRecord>, b: seq<StepRecord>, cutoff: int)
    requires ValidHistory(a) && ValidHistory(b) && multiset(a) == multiset(b)
    ensures multiset(After(a, cutoff)) == multiset(After(b, cutoff))
  {
    assert forall x :: multiset(After(a, cutoff))[x] == multiset(After(b, cutoff))[x];
  }
}
