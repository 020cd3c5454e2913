/**
 * The pandas reductions the reports use, on integer step counts:
 * `Series.mean()` followed by `int(...)` / `.astype(int)` (a truncating
 * mean over the values present), and `groupby(key).mean().astype(int)`
 * (one row per key present, keys ascending).
 */
module Stats {
  import opened Wrappers

  function Sum(xs: seq<int>): int {
    if xs == [] then 0 else xs[0] + Sum(xs[1..])
  }

  /** Division of `a` by a positive count, truncated toward zero as Python's `int()` does. */
  function TruncDiv(a: int, n: int): (q: int)
    requires n > 0
    ensures a >= 0 ==> q >= 0 && q * n <= a < q * n + n
    ensures a < 0 ==> q <= 0 && q * n - n < a <= q * n
  {
    if a >= 0 then a / n else -((-a) / n)
  }

  /** The truncated arithmetic mean of a non-empty list of counts. */
  function Mean(xs: seq<int>): int
    requires |xs| > 0
  {
    TruncDiv(Sum(xs), |xs|)
  }

  /**
   * `int(series.mean())` over the values present: missing when there are
   * none (pandas gives NaN and `int(NaN)` raises).
   */
  function TruncMean(xs: seq<int>): (r: Option<int>)
    ensures r.None? <==> xs == []
  {
    if xs == [] then None else Some(Mean(xs))
  }

  lemma {:induction false} SumConcat(a: seq<int>, b: seq<int>)
    ensures Sum(a + b) == Sum(a) + Sum(b)
  {
    if a != [] {
      assert (a + b)[0] == a[0];
      assert (a + b)[1..] == a[1..] + b;
      SumConcat(a[1..], b);
    } else {
      assert a + b == b;
    }
  }

  /** The sum does not depend on the order of the values. */
  lemma {:induction false} SumPermutation(a: seq<int>, b: seq<int>)
    requires multiset(a) == multiset(b)
    ensures Sum(a) == Sum(b)
    decreases |a|
  {
    if a != [] {
      assert a[0] in multiset(b);
      var i :| 0 <= i < |b| && b[i] == a[0];
      var rest := b[..i] + b[i + 1..];
      RemoveAt(b, i);
      assert a == [a[0]] + a[1..];
      assert multiset(a[1..]) == multiset(a) - multiset{a[0]};
      SumPermutation(a[1..], rest);
    }
  }

  /** Taking out the value at `i`. */
  lemma RemoveAt(b: seq<int>, i: int)
    requires 0 <= i < |b|
    ensures multiset(b[..i] + b[i + 1..]) == multiset(b) - multiset{b[i]}
    ensures Sum(b) == b[i] + Sum(b[..i] + b[i + 1..])
  {
    AroundIndex(b, i);
    RemoveMiddle(b[..i], b[i], b[i + 1..]);
  }

  lemma AroundIndex(b: seq<int>, i: int)
    requires 0 <= i < |b|
    ensures b == b[..i] + [b[i]] + b[i + 1..]
  {
  }

  lemma RemoveMiddle(l: seq<int>, x: int, r: seq<int>)
    ensures multiset(l + r) == multiset(l + [x] + r) - multiset{x}
    ensures Sum(l + [x] + r) == x + Sum(l + r)
  {
    SumConcat(l + [x], r);
    SumConcat(l, [x]);
    SumConcat(l, r);
    assert Sum([x]) == x + Sum([]);
  }

  /** The truncated mean does not depend on the order of the values. */
  lemma MeanPermutation(a: seq<int>, b: seq<int>)
    requires multiset(a) == multiset(b)
    ensures TruncMean(a) == TruncMean(b)
  {
    SumPermutation(a, b);
    assert |a| == |multiset(a)| == |multiset(b)| == |b|;
  }

  lemma {:induction false} SumOfConstant(xs: seq<int>, k: int)
    requires forall i :: 0 <= i < |xs| ==> xs[i] == k
    ensures Sum(xs) == k * |xs|
  {
    if xs != [] {
      SumOfConstant(xs[1..], k);
    }
  }

  /** When every value equals `k`, so does the mean. */
  lemma MeanOfConstant(xs: seq<int>, k: int)
    requires |xs| > 0
    requires forall i :: 0 <= i < |xs| ==> xs[i] == k
    ensures Mean(xs) == k
  {
    SumOfConstant(xs, k);
    var n, q := |xs|, Mean(xs);
    if k >= 0 {
      MulCancel(q, k, n);
      MulCancel(k, q, n);
    } else {
      MulCancel(q, k, n);
      MulCancel(k, q, n);
    }
  }

  /** Cancelling a positive factor: `x * n < (y + 1) * n` gives `x <= y`. */
  lemma MulCancel(x: int, y: int, n: int)
    requires n > 0
    ensures x * n < (y + 1) * n ==> x <= y
  {
    assert (y + 1) * n - x * n == (y + 1 - x) * n;
  }

  lemma {:induction false} SumBounds(xs: seq<int>, lo: int, hi: int)
    requires forall i :: 0 <= i < |xs| ==> lo <= xs[i] <= hi
    ensures lo * |xs| <= Sum(xs) <= hi * |xs|
  {
    if xs != [] {
      SumBounds(xs[1..], lo, hi);
    }
  }

  /** The largest value of a non-empty list (`Series.max()`). */
  function MaxOf(xs: seq<int>): (m: int)
    requires |xs| > 0
    ensures m in xs
    ensures forall i :: 0 <= i < |xs| ==> xs[i] <= m
  {
    if |xs| == 1 then xs[0]
    else
      var m := MaxOf(xs[1..]);
      if xs[0] >= m then xs[0] else m
  }

  /** The truncated mean lies between the smallest and the largest value. */
  lemma MeanBounds(xs: seq<int>, lo: int, hi: int)
    requires |xs| > 0
    requires forall i :: 0 <= i < |xs| ==> lo <= xs[i] <= hi
    ensures lo <= Mean(xs) <= hi
  {
    SumBounds(xs, lo, hi);
    TruncDivBounds(Sum(xs), |xs|, lo, hi);
  }

  lemma TruncDivBounds(a: int, n: int, lo: int, hi: int)
    requires n > 0 && lo * n <= a <= hi * n
    ensures lo <= TruncDiv(a, n) <= hi
  {
    var q := TruncDiv(a, n);
    MulCancel(q, hi, n);
    MulCancel(lo, q, n);
    MulCancel(q - 1, hi - 1, n);
  }

  // ---------------------------------------------------------------------
  // Counting positions

  /** Every position moved one place on. */
  function Shift(s: set<int>): set<int> {
    set i | i in s :: i + 1
  }

  /** Moving a set of positions below `n` one place on keeps its size. */
  lemma {:induction false} ShiftCard(s: set<int>, n: nat)
    requires forall i :: i in s ==> 0 <= i < n
    ensures |Shift(s)| == |s|
    decreases n
  {
    if n == 0 {
      forall i ensures i !in s { }
      assert s == {};
      assert Shift(s) == {};
    } else {
      var r := s - {n - 1};
      ShiftCard(r, n - 1);
      if n - 1 in s {
        forall j | j in Shift(s) ensures j in Shift(r) + {n} {
          assert j - 1 in s;
          if j != n { assert j - 1 in r; }
        }
        assert Shift(s) == Shift(r) + {n};
      } else {
        assert s == r;
      }
    }
  }

  /** How many entries of `marks` are true. */
  function CountTrue(marks: seq<bool>): nat {
    |set i | 0 <= i < |marks| && marks[i]|
  }

  /** Counting the true entries: the first one, then the rest. */
  lemma CountTrueCons(marks: seq<bool>)
    requires marks != []
    ensures CountTrue(marks) == (if marks[0] then 1 else 0) + CountTrue(marks[1..])
  {
    var tail := set i | 0 <= i < |marks[1..]| && marks[1..][i];
    ShiftCard(tail, |marks| - 1);
    var head: set<int> := if marks[0] then {0} else {};
    assert (set i | 0 <= i < |marks| && marks[i]) == head + Shift(tail) by {
      forall i | 0 < i < |marks| && marks[i] ensures i in Shift(tail) {
        assert marks[1..][i - 1] == marks[i];
        assert i - 1 in tail;
      }
    }
  }

  // ---------------------------------------------------------------------
  // groupby(key).mean().astype(int)

  /** One row before grouping: the group key and the value. */
  datatype Keyed = Keyed(key: int, value: int)

  /** One row after grouping: the key and the truncated mean of its values. */
  datatype Group = Group(key: int, mean: int)

  function Keys(ps: seq<Keyed>): set<int> {
    set p | p in ps :: p.key
  }

  lemma KeysCons(ps: seq<Keyed>)
    requires ps != []
    ensures Keys(ps) == {ps[0].key} + Keys(ps[1..])
  {
    assert forall p :: p in ps <==> p == ps[0] || p in ps[1..];
  }

  lemma KeyHasRow(ps: seq<Keyed>, k: int)
    requires k in Keys(ps)
    ensures exists i :: 0 <= i < |ps| && ps[i].key == k
  {
    var p :| p in ps && p.key == k;
    var i :| 0 <= i < |ps| && ps[i] == p;
  }

  lemma RowHasKey(ps: seq<Keyed>, i: int)
    requires 0 <= i < |ps|
    ensures ps[i].key in Keys(ps)
  {
    assert ps[i] in ps;
  }

  /** The values with key `k`, in input order. */
  function ValuesAt(ps: seq<Keyed>, k: int): (vs: seq<int>)
    ensures |vs| <= |ps|
    ensures |vs| > 0 <==> k in Keys(ps)
    ensures forall v :: v in vs <==> Keyed(k, v) in ps
    ensures forall v :: multiset(vs)[v] == multiset(ps)[Keyed(k, v)]
  {
    if ps == [] then []
    else
      KeysCons(ps);
      assert ps == [ps[0]] + ps[1..];
      if ps[0].key == k then [ps[0].value] + ValuesAt(ps[1..], k)
      else ValuesAt(ps[1..], k)
  }

  /** The rows whose key is not `k`, in input order. */
  function Without(ps: seq<Keyed>, k: int): (qs: seq<Keyed>)
    ensures |qs| + |ValuesAt(ps, k)| == |ps|
    ensures Keys(qs) == Keys(ps) - {k}
    ensures forall k' :: k' != k ==> ValuesAt(qs, k') == ValuesAt(ps, k')
  {
    if ps == [] then []
    else
      KeysCons(ps);
      if ps[0].key == k then Without(ps[1..], k)
      else
        var qs := [ps[0]] + Without(ps[1..], k);
        KeysCons(qs);
        assert qs[1..] == Without(ps[1..], k);
        qs
  }

  /** The smallest key present. */
  function MinKey(ps: seq<Keyed>): (k: int)
    requires ps != []
    ensures k in Keys(ps)
    ensures forall p :: p in ps ==> k <= p.key
  {
    if |ps| == 1 then ps[0].key
    else
      var k := MinKey(ps[1..]);
      if ps[0].key <= k then ps[0].key else k
  }

  /** Some row of `gs` is keyed `k`. */
  predicate HasGroup(gs: seq<Group>, k: int) {
    exists g :: g in gs && g.key == k
  }

  predicate StrictlyAscending(gs: seq<Group>) {
    forall i, j :: 0 <= i < j < |gs| ==> gs[i].key < gs[j].key
  }

  /**
   * `groupby(key).mean().astype(int).reset_index()`: exactly one row per key
   * present, keys strictly ascending, each row holding the truncated mean of
   * the values with that key. Keys without values do not appear.
   */
  function GroupMeans(ps: seq<Keyed>): (gs: seq<Group>)
    ensures StrictlyAscending(gs)
    ensures forall g :: g in gs ==> g.key in Keys(ps)
    ensures forall k :: k in Keys(ps) ==> exists g :: g in gs && g.key == k
    ensures forall g :: g in gs ==> |ValuesAt(ps, g.key)| > 0 && g.mean == Mean(ValuesAt(ps, g.key))
    decreases |ps|
  {
    if ps == [] then []
    else
      var k := MinKey(ps);
      var qs := Without(ps, k);
      var rest := GroupMeans(qs);
      GroupMeansStep(ps, k, rest);
      [Group(k, Mean(ValuesAt(ps, k)))] + rest
  }

  /** The inductive step of `GroupMeans`: the smallest key's row in front of the other keys' rows. */
  lemma GroupMeansStep(ps: seq<Keyed>, k: int, rest: seq<Group>)
    requires ps != [] && k == MinKey(ps)
    requires StrictlyAscending(rest)
    requires forall g :: g in rest ==> g.key in Keys(Without(ps, k))
    requires forall k' :: k' in Keys(Without(ps, k)) ==> exists g :: g in rest && g.key == k'
    requires forall g :: g in rest ==> |ValuesAt(Without(ps, k), g.key)| > 0 && g.mean == Mean(ValuesAt(Without(ps, k), g.key))
    ensures var gs := [Group(k, Mean(ValuesAt(ps, k)))] + rest;
      && StrictlyAscending(gs)
      && (forall g :: g in gs ==> g.key in Keys(ps))
      && (forall k' :: k' in Keys(ps) ==> exists g :: g in gs && g.key == k')
      && (forall g :: g in gs ==> |ValuesAt(ps, g.key)| > 0 && g.mean == Mean(ValuesAt(ps, g.key)))
  {
    var gs := [Group(k, Mean(ValuesAt(ps, k)))] + rest;
    GroupRestFacts(ps, k, rest);
    GroupAscending(k, gs, rest);
    GroupRows(ps, k, gs, rest);
    GroupCovers(ps, k, gs, rest);
  }

  lemma GroupRows(ps: seq<Keyed>, k: int, gs: seq<Group>, rest: seq<Group>)
    requires ps != [] && k == MinKey(ps)
    requires gs == [Group(k, Mean(ValuesAt(ps, k)))] + rest
    requires forall g :: g in rest ==> g.key in Keys(ps) && |ValuesAt(ps, g.key)| > 0 && g.mean == Mean(ValuesAt(ps, g.key))
    ensures forall g :: g in gs ==> g.key in Keys(ps) && |ValuesAt(ps, g.key)| > 0 && g.mean == Mean(ValuesAt(ps, g.key))
  {
    forall g | g in gs
      ensures g.key in Keys(ps) && |ValuesAt(ps, g.key)| > 0 && g.mean == Mean(ValuesAt(ps, g.key))
    {
      if g != gs[0] {
        assert g in rest;
      }
    }
  }

  lemma GroupCovers(ps: seq<Keyed>, k: int, gs: seq<Group>, rest: seq<Group>)
    requires ps != [] && k == MinKey(ps)
    requires gs == [Group(k, Mean(ValuesAt(ps, k)))] + rest
    requires forall k' :: k' in Keys(Without(ps, k)) ==> exists g :: g in rest && g.key == k'
    ensures forall k' :: k' in Keys(ps) ==> exists g :: g in gs && g.key == k'
  {
    forall k' | k' in Keys(ps)
      ensures exists g :: g in gs && g.key == k'
    {
      if k' == k {
        assert gs[0] in gs;
      } else {
        assert k' in Keys(Without(ps, k));
        var g :| g in rest && g.key == k';
        assert g in gs;
      }
    }
  }

  /** The rows computed from `Without(ps, k)` are rows of `ps` whose key lies above `k`. */
  lemma GroupRestFacts(ps: seq<Keyed>, k: int, rest: seq<Group>)
    requires ps != [] && k == MinKey(ps)
    requires forall g :: g in rest ==> g.key in Keys(Without(ps, k))
    requires forall g :: g in rest ==> |ValuesAt(Without(ps, k), g.key)| > 0 && g.mean == Mean(ValuesAt(Without(ps, k), g.key))
    ensures forall g :: g in rest ==> g.key in Keys(ps) && g.key > k
    ensures forall g :: g in rest ==> |ValuesAt(ps, g.key)| > 0 && g.mean == Mean(ValuesAt(ps, g.key))
  {
    var qs := Without(ps, k);
    forall g | g in rest
      ensures g.key in Keys(ps) && g.key > k
      ensures ValuesAt(qs, g.key) == ValuesAt(ps, g.key)
    {
      assert g.key in Keys(ps) - {k};
      var p :| p in ps && p.key == g.key;
    }
  }

  lemma GroupAscending(k: int, gs: seq<Group>, rest: seq<Group>)
    requires gs != [] && gs[0].key == k && gs[1..] == rest
    requires StrictlyAscending(rest)
    requires forall g :: g in rest ==> g.key > k
    ensures StrictlyAscending(gs)
  {
    forall i, j | 0 <= i < j < |gs|
      ensures gs[i].key < gs[j].key
    {
      assert gs[j] == rest[j - 1];
      if i > 0 {
        assert gs[i] == rest[i - 1];
      }
    }
  }
}
