/**
 * `parse_email_to_dict`: the body of a step-report email holds one line per
 * day, `D Mon YYYY, N`, the lines separated by `<br/>`. Every line becomes
 * an entry of a dictionary from the full-date id `YYYY-MM-DD` (section 5.6
 * of RFC 3339) to the step count; a later line for the same date replaces
 * an earlier one, and any malformed line makes the whole call fail.
 */
module GmailToFirestore {
  import opened Wrappers
  import opened Text
  import opened Calendar

  /** Why a line was refused: the `", "` split, the date, or the count. */
  datatype ParseError =
    | NotTwoFields(line: string)
    | BadDate(error: DateError)
    | BadCount(text: string)

  /** One parsed line: the document id of the day and its count. */
  datatype Reading = Reading(key: string, count: nat)

  /** The lines of a body: `<br/>` turned into line breaks, the whole stripped, then cut at each `\n`. */
  function Lines(body: string): seq<string> {
    Split(Strip(Replace(body, "<br/>", "\n")), "\n")
  }

  /** `int(s)` for a count written as decimal digits. */
  function ParseCount(s: string): (r: Option<nat>)
    ensures r.Some? <==> IsDigits(s)
    ensures r.Some? ==> r.value == DigitsValue(s)
    ensures r.Some? ==> NatToString(r.value) == s || s[0] == '0'
  {
    if IsDigits(s) then
      CanonicalDigits(s);
      Some(DigitsValue(s))
    else None
  }

  /** Digits without a leading zero are the canonical form of their value. */
  lemma {:induction false} CanonicalDigits(s: string)
    requires IsDigits(s)
    ensures NatToString(DigitsValue(s)) == s || s[0] == '0'
    decreases |s|
  {
    if |s| > 1 && s[0] != '0' {
      var p := s[..|s| - 1];
      assert IsDigits(p) && p[0] == s[0];
      CanonicalDigits(p);
      PositiveDigits(p);
      var v := DigitsValue(s);
      assert v == DigitsValue(p) * 10 + DigitValue(s[|s| - 1]);
      assert v / 10 == DigitsValue(p) && v % 10 == DigitValue(s[|s| - 1]);
      DigitCharOfValue(s[|s| - 1]);
      assert s == p + [s[|s| - 1]];
    } else if |s| == 1 {
      DigitCharOfValue(s[0]);
    }
  }

  lemma {:induction false} PositiveDigits(s: string)
    requires IsDigits(s) && s[0] != '0'
    ensures DigitsValue(s) >= 1
    decreases |s|
  {
    if |s| > 1 {
      var p := s[..|s| - 1];
      assert IsDigits(p) && p[0] == s[0];
      PositiveDigits(p);
    }
  }

  lemma DigitCharOfValue(c: char)
    requires IsDigitChar(c)
    ensures DigitChar(DigitValue(c)) == c
  {
  }

  /**
   * One line: exactly two fields around `", "`, a `D Mon YYYY` date that
   * names a real day, and a count of digits. The key is the date written
   * as `YYYY-MM-DD`, which always reads back as a date. `ParseLineOutcome`
   * gives each failure and the value read.
   */
  function ParseLine(line: string): (r: Result<Reading, ParseError>)
    ensures r.Ok? ==> ParseIsoDate(r.value.key).Ok?
    ensures r == Err(NotTwoFields(line)) <==> |Split(line, ", ")| != 2
  {
    var fields := Split(line, ", ");
    if |fields| != 2 then Err(NotTwoFields(line))
    else match ParseDayMonthYear(fields[0])
      case Err(e) => Err(BadDate(e))
      case Ok(d) =>
        IsoRoundTrip(d);
        match ParseCount(fields[1])
        case None => Err(BadCount(fields[1]))
        case Some(n) => Ok(Reading(IsoString(d), n))
  }

  /**
   * Each check of a line that fails gives its own error, the first failing
   * one in the order fields, date, count; a line that passes them all reads
   * as the date written `YYYY-MM-DD` and the value of the count's digits.
   */
  lemma ParseLineOutcome(line: string)
    ensures var r, fields := ParseLine(line), Split(line, ", ");
      |fields| == 2 ==>
        && (r.Err? && r.error.BadDate? <==> ParseDayMonthYear(fields[0]).Err?)
        && (ParseDayMonthYear(fields[0]).Err? ==> r == Err(BadDate(ParseDayMonthYear(fields[0]).error)))
        && (r == Err(BadCount(fields[1])) <==> ParseDayMonthYear(fields[0]).Ok? && !IsDigits(fields[1]))
        && (r.Ok? <==> ParseDayMonthYear(fields[0]).Ok? && IsDigits(fields[1]))
    ensures var r, fields := ParseLine(line), Split(line, ", ");
      r.Ok? ==>
        && |fields| == 2 && ParseDayMonthYear(fields[0]).Ok?
        && r.value == Reading(IsoString(ParseDayMonthYear(fields[0]).value), DigitsValue(fields[1]))
  {
  }

  /** The line a report writes for `n` steps on day `d`. */
  function ReportLine(d: Date, n: nat): string
    requires InPythonRange(d)
  {
    DayMonthYearString(d) + ", " + NatToString(n)
  }

  /** Reading a written line gives back its day, as a document id, and its count. */
  lemma ReportLineRoundTrip(d: Date, n: nat)
    requires InPythonRange(d)
    ensures ParseLine(ReportLine(d, n)) == Ok(Reading(IsoString(d), n))
  {
    var a, b := DayMonthYearString(d), NatToString(n);
    DayMonthYearFields(d);
    NoCommaInDate(d);
    assert ',' !in b by {
      assert forall i :: 0 <= i < |b| ==> IsDigitChar(b[i]);
    }
    SplitWhole(b, ", ");
    SplitConcat(a, ", ", b);
    DayMonthYearRoundTrip(d);
    NatToStringRoundTrip(n);
  }

  /** A date written `D Mon YYYY` holds no comma. */
  lemma NoCommaInDate(d: Date)
    requires InPythonRange(d)
    ensures ',' !in DayMonthYearString(d)
  {
    var a := DayMonthYearString(d);
    assert a == NatToString(d.day) + " " + MonthAbbreviation(d.month) + " " + Pad4(d.year);
    assert forall i :: 0 <= i < |a| ==> a[i] != ',';
  }

  /** Each line parsed on its own. */
  function ParseEach(lines: seq<string>): (ps: seq<Result<Reading, ParseError>>)
    ensures |ps| == |lines|
    ensures forall i :: 0 <= i < |lines| ==> ps[i] == ParseLine(lines[i])
  {
    seq(|lines|, i requires 0 <= i < |lines| => ParseLine(lines[i]))
  }

  /**
   * The loop of `parse_email_to_dict` as a fold over the parsed lines: each
   * reading in turn is stored into `acc`, overwriting the entry of its date;
   * the first failed line ends the fold with its error.
   */
  function Store(ps: seq<Result<Reading, ParseError>>, acc: map<string, nat>): (r: Result<map<string, nat>, ParseError>)
    ensures r.Ok? ==> acc.Keys <= r.value.Keys
    decreases |ps|
  {
    if ps == [] then Ok(acc)
    else match ps[0]
      case Err(e) => Err(e)
      case Ok(rd) => Store(ps[1..], acc[rd.key := rd.count])
  }

  /** `p` is a reading for document id `k`. */
  predicate ReadsAs(p: Result<Reading, ParseError>, k: string) {
    p.Ok? && p.value.key == k
  }

  /** The fold succeeds exactly when every line parses; otherwise it fails with the first bad line's error. */
  lemma {:induction false} StoreOk(ps: seq<Result<Reading, ParseError>>, acc: map<string, nat>)
    ensures Store(ps, acc).Ok? <==> forall i :: 0 <= i < |ps| ==> ps[i].Ok?
    ensures forall i :: 0 <= i < |ps| && ps[i].Err? && (forall j :: 0 <= j < i ==> ps[j].Ok?) ==>
      Store(ps, acc) == Err(ps[i].error)
    decreases |ps|
  {
    if ps != [] && ps[0].Ok? {
      var rd := ps[0].value;
      StoreOk(ps[1..], acc[rd.key := rd.count]);
      assert forall i :: 1 <= i < |ps| ==> ps[i] == ps[1..][i - 1];
    }
  }

  /**
   * What a successful fold holds: the keys of `acc` and the keys of the
   * readings, nothing else; each reading's key maps to the count of the
   * last reading with that key; a key of `acc` no reading mentions keeps
   * its value.
   */
  lemma {:induction false} StoreEntries(ps: seq<Result<Reading, ParseError>>, acc: map<string, nat>)
    requires Store(ps, acc).Ok?
    ensures var m := Store(ps, acc).value;
      forall k :: k in m <==> k in acc || exists i :: 0 <= i < |ps| && ReadsAs(ps[i], k)
    ensures var m := Store(ps, acc).value;
      forall i :: 0 <= i < |ps| && ps[i].Ok? && (forall j :: i < j < |ps| ==> !ReadsAs(ps[j], ps[i].value.key)) ==>
        m[ps[i].value.key] == ps[i].value.count
    ensures var m := Store(ps, acc).value;
      forall k :: k in acc && (forall i :: 0 <= i < |ps| ==> !ReadsAs(ps[i], k)) ==> m[k] == acc[k]
    decreases |ps|
  {
    if ps != [] {
      var rd := ps[0].value;
      var acc' := acc[rd.key := rd.count];
      var rest := ps[1..];
      StoreEntries(rest, acc');
      assert forall i :: 1 <= i < |ps| ==> ps[i] == rest[i - 1];
      var m := Store(ps, acc).value;
      assert m == Store(rest, acc').value;
      forall i | 0 <= i < |ps| && ps[i].Ok? && (forall j :: i < j < |ps| ==> !ReadsAs(ps[j], ps[i].value.key))
        ensures m[ps[i].value.key] == ps[i].value.count
      {
        if i > 0 {
          forall j | i - 1 < j < |rest| ensures !ReadsAs(rest[j], rest[i - 1].value.key) {
            assert rest[j] == ps[j + 1];
          }
        } else {
          forall j | 0 <= j < |rest| ensures !ReadsAs(rest[j], rd.key) {
            assert rest[j] == ps[j + 1];
          }
        }
      }
    }
  }

  /**
   * `parse_email_to_dict`: parse each line of the body in turn, storing its
   * count under its date; fail on the first malformed line.
   */
  method ParseEmailToDict(body: string) returns (r: Result<map<string, nat>, ParseError>)
    ensures r == Store(ParseEach(Lines(body)), map[])
  {
    var lines := Split(Strip(Replace(body, "<br/>", "\n")), "\n");
    ghost var ps := ParseEach(lines);
    var dataDict: map<string, nat> := map[];
    var i := 0;
    while i < |lines|
      invariant 0 <= i <= |lines|
      invariant Store(ps[i..], dataDict) == Store(ps, map[])
    {
      assert ps[i..][1..] == ps[i + 1..];
      var parsed := ParseLine(lines[i]);
      if parsed.Err? {
        return Err(parsed.error);
      }
      dataDict := dataDict[parsed.value.key := parsed.value.count];
      i := i + 1;
    }
    return Ok(dataDict);
  }

  /** An empty or all-whitespace body fails: its only line is empty and has no `", "`. */
  lemma BlankBodyFails(body: string)
    requires forall i :: 0 <= i < |body| ==> IsSpace(body[i])
    ensures Store(ParseEach(Lines(body)), map[]) == Err(NotTwoFields(""))
  {
    assert '<' !in body by {
      assert forall i :: 0 <= i < |body| ==> body[i] != '<';
    }
    ReplaceAbsent(body, "<br/>", "\n");
    assert Strip(body) == "";
    SplitWhole("", "\n");
    SplitWhole("", ", ");
  }

  /** A one-line report of `n` steps on day `d` gives the dictionary `{YYYY-MM-DD: n}`. */
  lemma OneLineRoundTrip(d: Date, n: nat)
    requires InPythonRange(d)
    ensures Store(ParseEach(Lines(ReportLine(d, n))), map[]) == Ok(map[IsoString(d) := n])
  {
    OneLineReadings(d, n);
    StoreSingle(ParseEach(Lines(ReportLine(d, n))), Reading(IsoString(d), n));
  }

  lemma OneLineReadings(d: Date, n: nat)
    requires InPythonRange(d)
    ensures ParseEach(Lines(ReportLine(d, n))) == [Ok(Reading(IsoString(d), n))]
  {
    OneLineBody(d, n);
    ReportLineRoundTrip(d, n);
  }

  lemma StoreSingle(ps: seq<Result<Reading, ParseError>>, rd: Reading)
    requires ps == [Ok(rd)]
    ensures Store(ps, map[]) == Ok(map[rd.key := rd.count])
  {
    assert ps[1..] == [];
  }

  /** The report line `10 Aug 2024, 8421` gives `{"2024-08-10": 8421}`. */
  lemma SampleLine()
    ensures Store(ParseEach(Lines("10 Aug 2024, 8421")), map[]) == Ok(map["2024-08-10" := 8421])
  {
    SampleText();
    OneLineRoundTrip(Date(2024, 8, 10), 8421);
  }

  lemma SampleText()
    ensures ReportLine(Date(2024, 8, 10), 8421) == "10 Aug 2024, 8421"
    ensures IsoString(Date(2024, 8, 10)) == "2024-08-10"
  {
    SampleDigits();
    assert MonthAbbreviation(8) == "Aug";
  }

  lemma SampleDigits()
    ensures NatToString(10) == "10" && NatToString(8421) == "8421"
    ensures Pad4(2024) == "2024" && Pad2(8) == "08" && Pad2(10) == "10"
  {
    assert NatToString(842) == "842";
    assert NatToString(84) == "84";
  }

  /** The body of a one-line report is that one line. */
  lemma OneLineBody(d: Date, n: nat)
    requires InPythonRange(d)
    ensures Lines(ReportLine(d, n)) == [ReportLine(d, n)]
  {
    var line := ReportLine(d, n);
    LineCharacters(d, n);
    SingleLine(line);
  }

  /** A line without `<` or line breaks that neither starts nor ends with white space is a body of one line. */
  lemma SingleLine(line: string)
    requires |line| > 0 && !IsSpace(line[0]) && !IsSpace(line[|line| - 1])
    requires forall i :: 0 <= i < |line| ==> line[i] != '<' && line[i] != '\n'
    ensures Lines(line) == [line]
  {
    ReplaceAbsent(line, "<br/>", "\n");
    assert Strip(line) == line;
    SplitWhole(line, "\n");
  }

  /** A report line starts and ends with a digit and holds neither `<` nor a line break. */
  lemma LineCharacters(d: Date, n: nat)
    requires InPythonRange(d)
    ensures var line := ReportLine(d, n);
      |line| > 0 && IsDigitChar(line[0]) && IsDigitChar(line[|line| - 1]) &&
      forall i :: 0 <= i < |line| ==> line[i] != '<' && line[i] != '\n'
  {
    var ds, ms, ys, ns := NatToString(d.day), MonthAbbreviation(d.month), Pad4(d.year), NatToString(n);
    var line := ReportLine(d, n);
    assert line == ds + " " + ms + " " + ys + ", " + ns;
    assert line[0] == ds[0];
    assert line[|line| - 1] == ns[|ns| - 1];
  }
}
