/** The record decoder: newPlacementRecord and its parse helpers turn one
    13-column CSV row into a PlacementRecord, converting seven columns
    independently and collecting one error per failed conversion. */
module Records {
  import opened Text
  import opened Errors
  import Numbers
  import opened Times

  /** rdr.FieldsPerRecord: every row the CSV reader hands out has 13 fields. */
  const FieldCount: nat := 13

  type Row = r: seq<string> | |r| == FieldCount witness ["", "", "", "", "", "", "", "", "", "", "", "", ""]

  /** A float64 kept as its bit pattern; floating-point arithmetic is not modelled. */
  datatype Float64 = Float64(bits: bv64)

  /** What strconv.ParseFloat(s, 64) returns: the value (0, or an infinity on a
      range error) and whether an error came with it. */
  datatype FloatParse = FloatParse(value: Float64, failed: bool)

  datatype PlacementRecord = PlacementRecord(
    name: string,
    studentId: string,
    email: string,
    lastLogin: DateTime,
    placementAssessmentNumber: int,
    totalNumberOfPlacementsTaken: int,
    startTime: DateTime,
    endTime: DateTime,
    proctoredAssessment: string,
    hoursInPlacement: Float64,
    placementResults: Float64)

  /** A decoded row: the record, always present, and the conversion errors. */
  datatype Decoded = Decoded(record: PlacementRecord, errors: seq<Error>)

  /** parseDate: layout 01/02/2006. The error list gains nothing exactly when
      the text is accepted, and the date is then the one the text renders;
      otherwise it gains one error naming the text, and the date is zero. */
  function ParseDate(value: string, errs: seq<Error>, field: Field): (r: (DateTime, seq<Error>))
    ensures r.1 == errs <==> ParseUsDate(value).Some?
    ensures r.1 == errs ==> ValidDate(r.0) && FormatUsDate(r.0) == value
    ensures r.1 != errs ==> r.1 == errs + [ConversionError(field, value)] && r.0 == ZeroTime
  {
    match ParseUsDate(value)
    case Some(t) => FormatParseUsDate(value); (t, errs)
    case None => (ZeroTime, errs + [ConversionError(field, value)])
  }

  /** parseInt: strconv.ParseInt(value, 10, 64). Without an error the text is
      a signed decimal and the value is what it denotes; with one, the error
      names the text and the value Go returns (0 or a bound) is kept. */
  function ParseInt(value: string, errs: seq<Error>, field: Field): (r: (int, seq<Error>))
    ensures r.1 == errs <==> !Numbers.ParseInt(value).failed
    ensures r.1 == errs ==> Numbers.IsSignedDecimal(value) && r.0 == Numbers.SignedValue(value)
    ensures r.1 != errs ==> r.1 == errs + [ConversionError(field, value)] && r.0 == Numbers.ParseInt(value).value
    ensures r.1 != errs ==> r.0 in {0, Numbers.MaxInt64, Numbers.MinInt64}
  {
    var p := Numbers.ParseInt(value);
    Numbers.ParseIntExact(value);
    (p.value, if p.failed then errs + [ConversionError(field, value)] else errs)
  }

  /** parseFloat: every '%' is removed before strconv.ParseFloat sees the
      text, so the text parsed, and the one an error names, holds no '%'. */
  function ParseFloat(value: string, errs: seq<Error>, field: Field, parseFloat: string -> FloatParse): (r: (Float64, seq<Error>))
    ensures r.0 == parseFloat(Without(value, '%')).value
    ensures r.1 == errs <==> !parseFloat(Without(value, '%')).failed
    ensures r.1 != errs ==> r.1 == errs + [ConversionError(field, Without(value, '%'))]
    ensures r.1 != errs ==> !Contains(r.1[|errs|].input, "%")
  {
    var stripped := RemoveAll(value, "%");
    RemovePercent(value);
    var p := parseFloat(stripped);
    (p.value, if p.failed then errs + [ConversionError(field, stripped)] else errs)
  }

  /** parseTime: layout 01/02/2006 03:04 PM. The error list gains nothing
      exactly when the text is accepted, and the time is then a calendar
      date and clock time whose rendering parses back to it; otherwise one
      error names the text and the time is zero. */
  function ParseTime(value: string, errs: seq<Error>, field: Field): (r: (DateTime, seq<Error>))
    ensures r.1 == errs <==> ParseTimestamp(value).Some?
    ensures r.1 == errs ==> ValidDate(r.0) && ValidClock(r.0) && ParseTimestamp(FormatTimestamp(r.0)) == Some(r.0)
    ensures r.1 != errs ==> r.1 == errs + [ConversionError(field, value)] && r.0 == ZeroTime
  {
    match ParseTimestamp(value)
    case Some(t) => ParseFormatTimestamp(t); (t, errs)
    case None => (ZeroTime, errs + [ConversionError(field, value)])
  }

  /** newPlacementRecord(rec). */
  function NewPlacementRecord(rec: Row, parseFloat: string -> FloatParse): (d: Decoded)
    ensures d.record.name == rec[0] && d.record.studentId == rec[1] && d.record.email == rec[2]
    ensures d.record.proctoredAssessment == rec[10]
    ensures d.record.lastLogin == DateOrZero(ParseUsDate(rec[3]))
    ensures d.record.placementAssessmentNumber == Numbers.ParseInt(rec[4]).value
    ensures d.record.totalNumberOfPlacementsTaken == Numbers.ParseInt(rec[5]).value
    ensures d.record.startTime == DateOrZero(ParseTimestamp(rec[6] + " " + rec[7]))
    ensures d.record.endTime == DateOrZero(ParseTimestamp(rec[8] + " " + rec[9]))
    ensures d.record.hoursInPlacement == parseFloat(RemoveAll(rec[11], "%")).value
    ensures d.record.placementResults == parseFloat(RemoveAll(rec[12], "%")).value
  {
    var (lastLogin, e1) := ParseDate(rec[3], [], LastLogin);
    var (placementAssessmentNumber, e2) := ParseInt(rec[4], e1, PlacementAssessmentNumber);
    var (totalNumberOfPlacementsTaken, e3) := ParseInt(rec[5], e2, TotalNumberOfPlacementsTaken);
    var (startTime, e4) := ParseTime(rec[6] + " " + rec[7], e3, StartTime);
    var (endTime, e5) := ParseTime(rec[8] + " " + rec[9], e4, EndTime);
    var (hoursInPlacement, e6) := ParseFloat(rec[11], e5, HoursInPlacement, parseFloat);
    var (placementResults, e7) := ParseFloat(rec[12], e6, PlacementResults, parseFloat);
    Decoded(
      PlacementRecord(
        rec[0], rec[1], rec[2], lastLogin, placementAssessmentNumber, totalNumberOfPlacementsTaken,
        startTime, endTime, rec[10], hoursInPlacement, placementResults),
      e7)
  }

  /** newPlacementRecord's errors: at most seven, one for each conversion that
      fails and none for one that succeeds, each carrying the text that
      conversion parsed, in the order the fields are converted. */
  lemma RecordErrors(rec: Row, parseFloat: string -> FloatParse)
    ensures var errs := NewPlacementRecord(rec, parseFloat).errors;
      && |errs| <= 7
      && (forall e | e in errs :: e.ConversionError? && e == ConversionError(e.field, ConversionInput(rec, e.field)))
      && (forall k, l | 0 <= k < l < |errs| :: FieldOrder(errs[k].field) < FieldOrder(errs[l].field))
      && (forall f :: ConversionError(f, ConversionInput(rec, f)) in errs <==> ConversionFails(rec, f, parseFloat))
  {
    ThreadedErrors(rec, parseFloat);
    FieldErrorsInOrder(rec, 7, parseFloat);
    forall f
      ensures ConversionError(f, ConversionInput(rec, f)) in NewPlacementRecord(rec, parseFloat).errors <==> ConversionFails(rec, f, parseFloat)
    {
      assert FieldOrder(f) < 7;
    }
  }

  function DateOrZero(t: Option<DateTime>): DateTime
  {
    match t
    case Some(v) => v
    case None => ZeroTime
  }

  /** The text each conversion of newPlacementRecord parses. */
  function ConversionInput(rec: Row, f: Field): string
  {
    match f
    case LastLogin => rec[3]
    case PlacementAssessmentNumber => rec[4]
    case TotalNumberOfPlacementsTaken => rec[5]
    case StartTime => rec[6] + " " + rec[7]
    case EndTime => rec[8] + " " + rec[9]
    case HoursInPlacement => RemoveAll(rec[11], "%")
    case PlacementResults => RemoveAll(rec[12], "%")
  }

  /** Whether the conversion of field f rejects its text. */
  predicate ConversionFails(rec: Row, f: Field, parseFloat: string -> FloatParse)
  {
    var input := ConversionInput(rec, f);
    match f
    case LastLogin => ParseUsDate(input).None?
    case PlacementAssessmentNumber => Numbers.ParseInt(input).failed
    case TotalNumberOfPlacementsTaken => Numbers.ParseInt(input).failed
    case StartTime => ParseTimestamp(input).None?
    case EndTime => ParseTimestamp(input).None?
    case HoursInPlacement => parseFloat(input).failed
    case PlacementResults => parseFloat(input).failed
  }

  /** The error list newPlacementRecord threads through its seven conversions
      is the per-field errors in conversion order. */
  lemma ThreadedErrors(rec: Row, parseFloat: string -> FloatParse)
    ensures
      var e1 := ParseDate(rec[3], [], LastLogin).1;
      var e2 := ParseInt(rec[4], e1, PlacementAssessmentNumber).1;
      var e3 := ParseInt(rec[5], e2, TotalNumberOfPlacementsTaken).1;
      var e4 := ParseTime(rec[6] + " " + rec[7], e3, StartTime).1;
      var e5 := ParseTime(rec[8] + " " + rec[9], e4, EndTime).1;
      var e6 := ParseFloat(rec[11], e5, HoursInPlacement, parseFloat).1;
      var e7 := ParseFloat(rec[12], e6, PlacementResults, parseFloat).1;
      e7 == FieldErrorsUpTo(rec, 7, parseFloat)
  {
    var e1 := ParseDate(rec[3], [], LastLogin).1;
    FieldStep(rec, 0, parseFloat);
    assert e1 == FieldErrorsUpTo(rec, 1, parseFloat);
    var e2 := ParseInt(rec[4], e1, PlacementAssessmentNumber).1;
    FieldStep(rec, 1, parseFloat);
    assert e2 == e1 + FieldError(rec, PlacementAssessmentNumber, parseFloat);
    var e3 := ParseInt(rec[5], e2, TotalNumberOfPlacementsTaken).1;
    FieldStep(rec, 2, parseFloat);
    assert e3 == e2 + FieldError(rec, TotalNumberOfPlacementsTaken, parseFloat);
    var e4 := ParseTime(rec[6] + " " + rec[7], e3, StartTime).1;
    FieldStep(rec, 3, parseFloat);
    assert e4 == e3 + FieldError(rec, StartTime, parseFloat);
    var e5 := ParseTime(rec[8] + " " + rec[9], e4, EndTime).1;
    FieldStep(rec, 4, parseFloat);
    assert e5 == e4 + FieldError(rec, EndTime, parseFloat);
    var e6 := ParseFloat(rec[11], e5, HoursInPlacement, parseFloat).1;
    FieldStep(rec, 5, parseFloat);
    assert e6 == e5 + FieldError(rec, HoursInPlacement, parseFloat);
    var e7 := ParseFloat(rec[12], e6, PlacementResults, parseFloat).1;
    FieldStep(rec, 6, parseFloat);
    assert e7 == e6 + FieldError(rec, PlacementResults, parseFloat);
  }

  /** One more conversion appends its own error, if any. */
  lemma FieldStep(rec: Row, n: nat, parseFloat: string -> FloatParse)
    requires n < 7
    ensures FieldErrorsUpTo(rec, n + 1, parseFloat) == FieldErrorsUpTo(rec, n, parseFloat) + FieldError(rec, FieldAt(n), parseFloat)
  {
  }

  /** The field converted in position k, the inverse of FieldOrder. */
  function FieldAt(k: nat): (f: Field)
    requires k < 7
    ensures FieldOrder(f) == k
  {
    if k == 0 then LastLogin
    else if k == 1 then PlacementAssessmentNumber
    else if k == 2 then TotalNumberOfPlacementsTaken
    else if k == 3 then StartTime
    else if k == 4 then EndTime
    else if k == 5 then HoursInPlacement
    else PlacementResults
  }

  /** The error the conversion of f contributes: one if it fails, none otherwise. */
  function FieldError(rec: Row, f: Field, parseFloat: string -> FloatParse): seq<Error>
  {
    if ConversionFails(rec, f, parseFloat) then [ConversionError(f, ConversionInput(rec, f))] else []
  }

  /** The errors of the first n conversions, in conversion order. */
  function FieldErrorsUpTo(rec: Row, n: nat, parseFloat: string -> FloatParse): seq<Error>
    requires n <= 7
  {
    if n == 0 then [] else FieldErrorsUpTo(rec, n - 1, parseFloat) + FieldError(rec, FieldAt(n - 1), parseFloat)
  }

  lemma {:induction false} FieldErrorsInOrder(rec: Row, n: nat, parseFloat: string -> FloatParse)
    requires n <= 7
    ensures var errs := FieldErrorsUpTo(rec, n, parseFloat);
      && |errs| <= n
      && (forall e | e in errs :: e.ConversionError? && FieldOrder(e.field) < n
            && e == ConversionError(e.field, ConversionInput(rec, e.field)) && ConversionFails(rec, e.field, parseFloat))
      && (forall k, l | 0 <= k < l < |errs| :: FieldOrder(errs[k].field) < FieldOrder(errs[l].field))
      && (forall f | FieldOrder(f) < n :: ConversionError(f, ConversionInput(rec, f)) in errs <==> ConversionFails(rec, f, parseFloat))
  {
    if n > 0 {
      FieldErrorsInOrder(rec, n - 1, parseFloat);
      var prev := FieldErrorsUpTo(rec, n - 1, parseFloat);
      var f := FieldAt(n - 1);
      var errs := prev + FieldError(rec, f, parseFloat);
      assert errs == FieldErrorsUpTo(rec, n, parseFloat);
      forall g | FieldOrder(g) < n
        ensures ConversionError(g, ConversionInput(rec, g)) in errs <==> ConversionFails(rec, g, parseFloat)
      {
        if FieldOrder(g) == n - 1 {
          assert g == f;
        }
      }
    }
  }
}
