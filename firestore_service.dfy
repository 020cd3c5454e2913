/**
 * `FirestoreService` over the `step_history` collection, seen as a map
 * from document id to document, each document a map from field name to
 * value. `upload_dict` writes one document per dictionary entry, replacing
 * the whole document; `read_collection_to_dataframe` turns every document
 * into a dated record and sorts the records by date.
 */
module FirestoreService {
  import opened Wrappers
  import opened Calendar
  import opened StepHistory

  type Document = map<string, int>
  type Collection = map<string, Document>

  /** The field the step counts are stored under. */
  const StepCountField := "step_count"

  /**
   * The collection after writing `{fieldName: v}` as the whole document of
   * every entry `k: v` of `myDict`: those documents are replaced, every
   * other document stays as it was, and no document is removed.
   */
  function Upload(c: Collection, myDict: map<string, int>, fieldName: string): (r: Collection)
    ensures r.Keys == c.Keys + myDict.Keys
    ensures forall k :: k in myDict ==> r[k] == map[fieldName := myDict[k]]
    ensures forall k :: k in c && k !in myDict ==> r[k] == c[k]
  {
    map k | k in c.Keys + myDict.Keys :: if k in myDict then map[fieldName := myDict[k]] else c[k]
  }

  /** Uploading the same dictionary twice leaves the collection as uploading it once. */
  lemma UploadIdempotent(c: Collection, myDict: map<string, int>, fieldName: string)
    ensures Upload(Upload(c, myDict, fieldName), myDict, fieldName) == Upload(c, myDict, fieldName)
  {
    var once := Upload(c, myDict, fieldName);
    var twice := Upload(once, myDict, fieldName);
    assert twice.Keys == once.Keys;
    forall k | k in twice ensures twice[k] == once[k] {
    }
  }

  /** Uploads with disjoint keys can be made in either order. */
  lemma UploadsCommute(c: Collection, a: map<string, int>, b: map<string, int>, fieldName: string)
    requires a.Keys !! b.Keys
    ensures Upload(Upload(c, a, fieldName), b, fieldName) == Upload(Upload(c, b, fieldName), a, fieldName)
  {
    var ca, cb := Upload(c, a, fieldName), Upload(c, b, fieldName);
    var ab, ba := Upload(ca, b, fieldName), Upload(cb, a, fieldName);
    forall k | k in ab ensures k in ba && ab[k] == ba[k] {
      if k in b {
        assert ab[k] == map[fieldName := b[k]] == cb[k];
      } else if k in a {
        assert ab[k] == ca[k] == map[fieldName := a[k]];
      } else {
        assert ab[k] == ca[k] == c[k] == cb[k];
      }
    }
    assert ab.Keys == ba.Keys;
  }

  /** Why reading the collection fails. */
  datatype ReadError =
    | BadDocumentId(id: string)   // `strptime(doc.id, '%Y-%m-%d')` raises
    | EmptyCollection             // no rows, so the frame has no `date` column

  /**
   * One document as a record, given what parsing its id gave: the parsed
   * date and the document's `step_count` field, or 0 when it has none.
   */
  function RecordOf(id: string, date: Result<Date, DateError>, doc: Document): (r: Result<StepRecord, ReadError>)
    ensures r.Err? <==> date.Err?
    ensures r.Err? ==> r.error == BadDocumentId(id)
    ensures r.Ok? ==> Ok(r.value.date) == date
    ensures r.Ok? && StepCountField in doc ==> r.value.stepCount == doc[StepCountField]
    ensures r.Ok? && StepCountField !in doc ==> r.value.stepCount == 0
  {
    match date
    case Err(_) => Err(BadDocumentId(id))
    case Ok(d) => Ok(StepRecord(d, if StepCountField in doc then doc[StepCountField] else 0))
  }

  /** One document as a record: the date its id names, and its `step_count` field or 0. */
  function ToRecord(id: string, doc: Document): (r: Result<StepRecord, ReadError>)
    ensures r.Err? <==> ParseIsoDate(id).Err?
    ensures r.Err? ==> r.error == BadDocumentId(id)
    ensures r.Ok? ==> Ok(r.value.date) == ParseIsoDate(id) && InPythonRange(r.value.date)
    ensures r.Ok? && StepCountField in doc ==> r.value.stepCount == doc[StepCountField]
    ensures r.Ok? && StepCountField !in doc ==> r.value.stepCount == 0
  {
    RecordOf(id, ParseIsoDate(id), doc)
  }

  /** Every id parsed as a date. */
  function ParseIds(ids: seq<string>): (ps: seq<Result<Date, DateError>>)
    ensures |ps| == |ids|
    ensures forall i :: 0 <= i < |ids| ==> ps[i] == ParseIsoDate(ids[i])
  {
    seq(|ids|, i requires 0 <= i < |ids| => ParseIsoDate(ids[i]))
  }

  /** The records of the documents `ids` with their parsed ids `ps`; the first bad id ends the pass. */
  function Gather(c: Collection, ids: seq<string>, ps: seq<Result<Date, DateError>>): (r: Result<seq<StepRecord>, ReadError>)
    requires |ps| == |ids| && forall i :: 0 <= i < |ids| ==> ids[i] in c
    ensures r.Ok? ==> |r.value| == |ids|
    ensures r.Ok? ==> forall i :: 0 <= i < |ids| ==> RecordOf(ids[i], ps[i], c[ids[i]]) == Ok(r.value[i])
    ensures r.Err? ==> r.error.BadDocumentId?
    decreases |ids|
  {
    if ids == [] then Ok([])
    else match RecordOf(ids[0], ps[0], c[ids[0]])
      case Err(e) => Err(e)
      case Ok(x) =>
        match Gather(c, ids[1..], ps[1..])
        case Err(e) => Err(e)
        case Ok(rest) =>
          assert forall i :: 1 <= i < |ids| ==> ids[i] == ids[1..][i - 1] && ps[i] == ps[1..][i - 1];
          Ok([x] + rest)
  }

  lemma {:induction false} GatherAllOk(c: Collection, ids: seq<string>, ps: seq<Result<Date, DateError>>, data: seq<StepRecord>)
    requires |ps| == |ids| && forall i :: 0 <= i < |ids| ==> ids[i] in c
    requires |data| == |ids|
    requires forall i :: 0 <= i < |ids| ==> RecordOf(ids[i], ps[i], c[ids[i]]) == Ok(data[i])
    ensures Gather(c, ids, ps) == Ok(data)
    decreases |ids|
  {
    if ids != [] {
      var tail, tailPs, rest := ids[1..], ps[1..], data[1..];
      forall i | 0 <= i < |tail| ensures tail[i] in c && RecordOf(tail[i], tailPs[i], c[tail[i]]) == Ok(rest[i]) {
        assert tail[i] == ids[i + 1] && tailPs[i] == ps[i + 1] && rest[i] == data[i + 1];
      }
      GatherAllOk(c, tail, tailPs, rest);
      assert data == [data[0]] + rest;
    }
  }

  lemma {:induction false} GatherFirstBad(c: Collection, ids: seq<string>, ps: seq<Result<Date, DateError>>, i: int)
    requires |ps| == |ids| && forall j :: 0 <= j < |ids| ==> ids[j] in c
    requires 0 <= i < |ids| && ps[i].Err?
    requires forall j :: 0 <= j < i ==> ps[j].Ok?
    ensures Gather(c, ids, ps) == Err(BadDocumentId(ids[i]))
    decreases i
  {
    if i > 0 {
      var tail, tailPs := ids[1..], ps[1..];
      assert forall j :: 0 <= j < |tail| ==> tail[j] == ids[j + 1] && tailPs[j] == ps[j + 1];
      GatherFirstBad(c, tail, tailPs, i - 1);
    }
  }

  /** The records of the documents `ids`, in that order; the first bad id ends the pass with its error. */
  function Collect(c: Collection, ids: seq<string>): (r: Result<seq<StepRecord>, ReadError>)
    requires forall i :: 0 <= i < |ids| ==> ids[i] in c
    ensures r.Ok? ==> |r.value| == |ids|
    ensures r.Ok? ==> forall i :: 0 <= i < |ids| ==> ToRecord(ids[i], c[ids[i]]) == Ok(r.value[i])
    ensures r.Err? ==> r.error.BadDocumentId?
  {
    Gather(c, ids, ParseIds(ids))
  }

  /** When every document reads as a record, the pass yields exactly those records, in order. */
  lemma CollectAllOk(c: Collection, ids: seq<string>, data: seq<StepRecord>)
    requires forall i :: 0 <= i < |ids| ==> ids[i] in c
    requires |data| == |ids|
    requires forall i :: 0 <= i < |ids| ==> ToRecord(ids[i], c[ids[i]]) == Ok(data[i])
    ensures Collect(c, ids) == Ok(data)
  {
    GatherAllOk(c, ids, ParseIds(ids), data);
  }

  /** The pass fails with the first id that is not a date. */
  lemma CollectFirstBad(c: Collection, ids: seq<string>, i: int)
    requires forall j :: 0 <= j < |ids| ==> ids[j] in c
    requires 0 <= i < |ids| && ParseIsoDate(ids[i]).Err?
    requires forall j :: 0 <= j < i ==> ParseIsoDate(ids[j]).Ok?
    ensures Collect(c, ids) == Err(BadDocumentId(ids[i]))
  {
    GatherFirstBad(c, ids, ParseIds(ids), i);
  }

  /** Records in ascending date order. */
  predicate SortedByDate(s: seq<StepRecord>) {
    forall i, j :: 0 <= i < j < |s| ==> NotLater(s[i].date, s[j].date)
  }

  /** In records sorted by date the day numbers never decrease. */
  lemma SortedDayNumbers(s: seq<StepRecord>)
    requires ValidHistory(s) && SortedByDate(s)
    ensures forall i, j :: 0 <= i < j < |s| ==> Ordinal(s[i].date) <= Ordinal(s[j].date)
  {
    forall i, j | 0 <= i < j < |s| ensures Ordinal(s[i].date) <= Ordinal(s[j].date) {
      NotLaterOrdinal(s[i].date, s[j].date);
    }
  }

  /** `x` placed into the sorted `s` after every record dated no later. */
  function Insert(x: StepRecord, s: seq<StepRecord>): (r: seq<StepRecord>)
    requires SortedByDate(s)
    ensures SortedByDate(r)
    ensures multiset(r) == multiset(s) + multiset{x}
    decreases |s|
  {
    if s == [] then [x]
    else if !NotLater(s[0].date, x.date) then
      PrependSorted(x, s);
      [x] + s
    else
      var rest := Insert(x, s[1..]);
      assert s == [s[0]] + s[1..];
      forall y | y in rest ensures NotLater(s[0].date, y.date) {
        assert y in multiset(rest);
        if y != x {
          assert y in multiset(s[1..]);
        }
      }
      PrependSorted(s[0], rest);
      [s[0]] + rest
  }

  lemma PrependSorted(y: StepRecord, s: seq<StepRecord>)
    requires SortedByDate(s)
    requires forall z :: z in s ==> NotLater(y.date, z.date)
    ensures SortedByDate([y] + s)
  {
    var r := [y] + s;
    forall i, j | 0 <= i < j < |r| ensures NotLater(r[i].date, r[j].date) {
      assert r[j] == s[j - 1];
      if i > 0 {
        assert r[i] == s[i - 1];
      } else {
        assert s[j - 1] in s;
      }
    }
  }

  /** `df.sort_values(by='date')`: the same records in ascending date order. */
  function SortByDate(s: seq<StepRecord>): (r: seq<StepRecord>)
    ensures SortedByDate(r)
    ensures multiset(r) == multiset(s)
    decreases |s|
  {
    if s == [] then []
    else
      assert s == [s[0]] + s[1..];
      Insert(s[0], SortByDate(s[1..]))
  }

  /**
   * `read_collection_to_dataframe` as a value: the records of all documents
   * sorted by date; a bad document id fails, and so does an empty
   * collection.
   */
  function ReadCollection(c: Collection, ids: seq<string>): (r: Result<seq<StepRecord>, ReadError>)
    requires forall i :: 0 <= i < |ids| ==> ids[i] in c
    ensures r.Ok? ==> SortedByDate(r.value) && |r.value| == |ids| > 0
    ensures r.Ok? ==> forall i :: 0 <= i < |ids| ==> ToRecord(ids[i], c[ids[i]]).Ok? && ToRecord(ids[i], c[ids[i]]).value in r.value
    ensures r.Ok? ==> Collect(c, ids).Ok? && multiset(r.value) == multiset(Collect(c, ids).value)
  {
    match Collect(c, ids)
    case Err(e) => Err(e)
    case Ok(rs) =>
      if rs == [] then Err(EmptyCollection)
      else
        var sorted := SortByDate(rs);
        assert |sorted| == |multiset(sorted)| == |rs|;
        assert forall i :: 0 <= i < |ids| ==> rs[i] in multiset(sorted);
        Ok(sorted)
  }

  /**
   * The read succeeds exactly when there is a document and every id is a
   * date; with no document it fails as empty, otherwise with the first id
   * that is not a date.
   */
  lemma ReadCollectionOutcome(c: Collection, ids: seq<string>)
    requires forall i :: 0 <= i < |ids| ==> ids[i] in c
    ensures ReadCollection(c, ids).Ok? <==> |ids| > 0 && forall i :: 0 <= i < |ids| ==> ParseIsoDate(ids[i]).Ok?
    ensures ReadCollection(c, ids) == Err(EmptyCollection) <==> ids == []
    ensures forall i :: 0 <= i < |ids| && ParseIsoDate(ids[i]).Err? && (forall j :: 0 <= j < i ==> ParseIsoDate(ids[j]).Ok?) ==>
      ReadCollection(c, ids) == Err(BadDocumentId(ids[i]))
  {
    forall i | 0 <= i < |ids| && ParseIsoDate(ids[i]).Err? && (forall j :: 0 <= j < i ==> ParseIsoDate(ids[j]).Ok?)
      ensures ReadCollection(c, ids) == Err(BadDocumentId(ids[i]))
    {
      CollectFirstBad(c, ids, i);
    }
    if forall i :: 0 <= i < |ids| ==> ParseIsoDate(ids[i]).Ok? {
      var data := seq(|ids|, i requires 0 <= i < |ids| => ToRecord(ids[i], c[ids[i]]).value);
      CollectAllOk(c, ids, data);
    } else {
      FirstFailure(ids, id => ParseIsoDate(id).Ok?);
    }
  }

  /** Some element that fails `ok` has only elements passing `ok` before it. */
  lemma FirstFailure<T>(xs: seq<T>, ok: T -> bool)
    requires exists i :: 0 <= i < |xs| && !ok(xs[i])
    ensures exists i :: 0 <= i < |xs| && !ok(xs[i]) && forall j :: 0 <= j < i ==> ok(xs[j])
  {
    var k :| 0 <= k < |xs| && !ok(xs[k]);
    var i := 0;
    while ok(xs[i])
      invariant 0 <= i <= k
      invariant forall j :: 0 <= j < i ==> ok(xs[j])
      decreases k - i
    {
      i := i + 1;
    }
  }

  /** `ids` lists the documents of `c`: every id names a document and every document is listed. */
  predicate Streams(ids: seq<string>, c: Collection) {
    (forall i :: 0 <= i < |ids| ==> ids[i] in c) && (forall k :: k in c ==> k in ids)
  }

  /**
   * A count uploaded under `step_count` for a date-named key is read back:
   * once the read of the whole collection succeeds, it holds the record of
   * that date with that count.
   */
  lemma UploadThenRead(c: Collection, myDict: map<string, int>, ids: seq<string>, k: string)
    requires Streams(ids, Upload(c, myDict, StepCountField))
    requires k in myDict && ParseIsoDate(k).Ok?
    requires ReadCollection(Upload(c, myDict, StepCountField), ids).Ok?
    ensures StepRecord(ParseIsoDate(k).value, myDict[k]) in ReadCollection(Upload(c, myDict, StepCountField), ids).value
  {
    var u := Upload(c, myDict, StepCountField);
    assert k in u;
    var i :| 0 <= i < |ids| && ids[i] == k;
    assert ToRecord(ids[i], u[ids[i]]).value == StepRecord(ParseIsoDate(k).value, myDict[k]);
  }

  class FirestoreService {
    /** The documents of the `step_history` collection, by id. */
    var collection: Collection

    constructor(c: Collection)
      ensures collection == c
    {
      collection := c;
    }

    /**
     * `upload_dict`: for each entry `key: value`, set the document `key` to
     * `{fieldName: value}`. The entries are taken in any order.
     */
    method UploadDict(myDict: map<string, int>, fieldName: string)
      modifies this
      ensures collection == Upload(old(collection), myDict, fieldName)
    {
      var remaining := myDict.Keys;
      ghost var done: set<string> := {};
      while remaining != {}
        invariant remaining + done == myDict.Keys && remaining !! done
        invariant collection.Keys == old(collection).Keys + done
        invariant forall k :: k in done ==> collection[k] == map[fieldName := myDict[k]]
        invariant forall k :: k in old(collection) && k !in done ==> collection[k] == old(collection)[k]
        decreases remaining
      {
        var key :| key in remaining;
        collection := collection[key := map[fieldName := myDict[key]]];
        remaining := remaining - {key};
        done := done + {key};
      }
      assert collection == Upload(old(collection), myDict, fieldName);
    }

    /**
     * `read_collection_to_dataframe`: visit the documents in the order the
     * client streams them (`ids`), turn each into a record, then sort the
     * records by date.
     */
    method ReadCollectionToRecords(ids: seq<string>) returns (r: Result<seq<StepRecord>, ReadError>)
      requires forall i :: 0 <= i < |ids| ==> ids[i] in collection
      ensures r == ReadCollection(collection, ids)
    {
      var c := collection;
      ghost var ps := ParseIds(ids);
      var data: seq<StepRecord> := [];
      var i := 0;
      while i < |ids|
        invariant 0 <= i <= |ids| && |data| == i
        invariant forall j :: 0 <= j < i ==> RecordOf(ids[j], ps[j], c[ids[j]]) == Ok(data[j])
      {
        var docDict := c[ids[i]];
        var dateStr := ids[i];
        var parsed := ParseIsoDate(dateStr);
        assert parsed == ps[i];
        match parsed
        case Err(_) =>
          GatherFirstBad(c, ids, ps, i);
          return Err(BadDocumentId(dateStr));
        case Ok(date) =>
          var stepCount := if StepCountField in docDict then docDict[StepCountField] else 0;
          data := data + [StepRecord(date, stepCount)];
        i := i + 1;
      }
      GatherAllOk(c, ids, ps, data);
      if data == [] {
        return Err(EmptyCollection);
      }
      return Ok(SortByDate(data));
    }
  }
}
