/** One page of the placement report: expectedHeaders, validateHeaders and
    getPlacementRecordsForPage, which reads the page as CSV, checks the first
    row against the expected column titles and decodes every later row. */
module Pages {
  import opened Errors
  import opened Records

  /** expectedHeaders(): the thirteen column titles, in column order. */
  function ExpectedHeaders(): (h: seq<string>)
    ensures |h| == FieldCount
  {
    ["Name", "Student Id", "Email", "Last login", "Placement Assessment Number",
     "Total Number of Placements Taken", "Start Date", "Start Time", "End Date",
     "End Time", "Proctored Assessment", "Time in Placement (in hours)", "Placement Results %"]
  }

  /** The error validateHeaders reports for column i, if any. */
  function HeaderCheck(record: Row, expected: seq<string>, i: nat): seq<Error>
    requires i < FieldCount == |expected|
  {
    if record[i] != expected[i] then [HeaderMismatch(i, record[i], expected[i])] else []
  }

  /** The errors validateHeaders has collected after the first n columns,
      against the given titles. */
  function HeaderErrorsUpTo(record: Row, expected: seq<string>, n: nat): seq<Error>
    requires n <= FieldCount == |expected|
  {
    if n == 0 then [] else HeaderErrorsUpTo(record, expected, n - 1) + HeaderCheck(record, expected, n - 1)
  }

  function HeaderErrors(record: Row): seq<Error>
  {
    HeaderErrorsUpTo(record, ExpectedHeaders(), |record|)
  }

  /** validateHeaders(record). */
  method ValidateHeaders(record: Row) returns (errs: seq<Error>)
    ensures errs == HeaderErrors(record)
  {
    errs := [];
    var expected := ExpectedHeaders();
    var idx := 0;
    while idx < |record|
      invariant idx <= |record|
      invariant errs == HeaderErrorsUpTo(record, expected, idx)
    {
      var exp := expected[idx];
      if record[idx] != exp {
        errs := errs + [HeaderMismatch(idx, record[idx], exp)];
      }
      idx := idx + 1;
    }
  }

  /** A mismatch names a column, the row's title and the expected title. */
  predicate IsMismatchOf(record: Row, expected: seq<string>, e: Error)
    requires |expected| == FieldCount
  {
    e.HeaderMismatch? && e.index < FieldCount && e.found == record[e.index]
    && e.wanted == expected[e.index] && e.found != e.wanted
  }

  /** The column a header error names; -1 for any other error. */
  function MismatchIndex(e: Error): int
  {
    if e.HeaderMismatch? then e.index else -1
  }

  lemma {:induction false} HeaderErrorsUpToExact(record: Row, expected: seq<string>, n: nat)
    requires n <= FieldCount == |expected|
    ensures var errs := HeaderErrorsUpTo(record, expected, n);
      && |errs| <= n
      && (forall e | e in errs :: IsMismatchOf(record, expected, e) && e.index < n)
      && (forall k, l | 0 <= k < l < |errs| :: MismatchIndex(errs[k]) < MismatchIndex(errs[l]))
      && (forall i | 0 <= i < n :: HeaderMismatch(i, record[i], expected[i]) in errs <==> record[i] != expected[i])
  {
    if n > 0 {
      HeaderErrorsUpToExact(record, expected, n - 1);
    }
  }

  /** validateHeaders reports one error per column whose title differs from
      the expected one, in column order, and nothing else. */
  lemma HeaderErrorsExact(record: Row)
    ensures var errs := HeaderErrors(record);
      && (forall e | e in errs :: IsMismatchOf(record, ExpectedHeaders(), e))
      && (forall k, l | 0 <= k < l < |errs| :: MismatchIndex(errs[k]) < MismatchIndex(errs[l]))
      && (forall i | 0 <= i < FieldCount :: HeaderMismatch(i, record[i], ExpectedHeaders()[i]) in errs <==> record[i] != ExpectedHeaders()[i])
  {
    HeaderErrorsUpToExact(record, ExpectedHeaders(), |record|);
  }

  /** The header row passes exactly when it is the thirteen expected titles. */
  lemma HeadersAccepted(record: Row)
    ensures HeaderErrors(record) == [] <==> record == ExpectedHeaders()
  {
    var expected := ExpectedHeaders();
    HeaderErrorsUpToExact(record, expected, |record|);
    if HeaderErrors(record) == [] {
      forall i | 0 <= i < FieldCount
        ensures record[i] == ExpectedHeaders()[i]
      {
        assert HeaderMismatch(i, record[i], ExpectedHeaders()[i]) !in HeaderErrors(record);
      }
    } else {
      var e := HeaderErrors(record)[0];
      assert IsMismatchOf(record, expected, e);
    }
  }

  /** One result of csv.Reader.Read before io.EOF: a row of exactly 13 fields
      (FieldsPerRecord is 13) or an error, a wrong field count included. */
  datatype RowRead = Read(fields: Row) | ReadFailed(cause: Failure)

  /** Records and errors, as the pipeline's functions return them together. */
  datatype Batch = Batch(records: seq<PlacementRecord>, errors: seq<Error>)

  const Empty: Batch := Batch([], [])

  function Concat(a: Batch, b: Batch): (c: Batch)
  {
    Batch(a.records + b.records, a.errors + b.errors)
  }

  /** The libraries the decoder calls: the CSV reader over a page, as the
      sequence of its Read results, and strconv.ParseFloat(_, 64). */
  datatype Decoders = Decoders(readCsv: string -> seq<RowRead>, parseFloat: string -> FloatParse)

  /** What the page loop does with a successful read: validateHeaders on the
      first row, newPlacementRecord on every later one. */
  datatype RowHandlers = RowHandlers(header: Row -> seq<Error>, decode: Row -> Decoded)

  function PageHandlers(parseFloat: string -> FloatParse): RowHandlers
  {
    RowHandlers(HeaderErrors, (r: Row) => NewPlacementRecord(r, parseFloat))
  }

  /** What one Read adds: a failed read one error; the first read, when it
      succeeds, its header errors; any later row its record and errors. */
  function ReadOutcome(read: RowRead, first: bool, h: RowHandlers): Batch
  {
    match read
    case ReadFailed(cause) => Batch([], [CsvError(cause)])
    case Read(fields) =>
      if first then Batch([], h.header(fields))
      else
        var d := h.decode(fields);
        Batch([d.record], d.errors)
  }

  /** The page decoder's records and errors after the given reads. */
  function DecodeReads(results: seq<RowRead>, h: RowHandlers): Batch
  {
    if results == [] then Empty
    else Concat(DecodeReads(results[..|results| - 1], h), ReadOutcome(results[|results| - 1], |results| == 1, h))
  }

  /** The records and errors of a page whose CSV reads are `results`. */
  function DecodePage(results: seq<RowRead>, parseFloat: string -> FloatParse): Batch
  {
    DecodeReads(results, PageHandlers(parseFloat))
  }

  lemma DecodeReadsStep(results: seq<RowRead>, i: nat, h: RowHandlers)
    requires i < |results|
    ensures DecodeReads(results[..i + 1], h) == Concat(DecodeReads(results[..i], h), ReadOutcome(results[i], i == 0, h))
  {
    assert results[..i + 1][..i] == results[..i];
  }

  /** A read's outcome under the page's own handlers. */
  lemma PageOutcome(read: RowRead, first: bool, parseFloat: string -> FloatParse)
    ensures ReadOutcome(read, first, PageHandlers(parseFloat)) ==
      match read
      case ReadFailed(cause) => Batch([], [CsvError(cause)])
      case Read(fields) =>
        if first then Batch([], HeaderErrors(fields))
        else Batch([NewPlacementRecord(fields, parseFloat).record], NewPlacementRecord(fields, parseFloat).errors)
  {
  }

  /** getPlacementRecordsForPage(data); the end of the read sequence is io.EOF. */
  method GetPlacementRecordsForPage(data: string, dec: Decoders) returns (rep: seq<PlacementRecord>, errs: seq<Error>)
    ensures Batch(rep, errs) == DecodePage(dec.readCsv(data), dec.parseFloat)
  {
    var results := dec.readCsv(data);
    ghost var h := PageHandlers(dec.parseFloat);
    rep, errs := [], [];
    var first := true;
    var i := 0;
    while true
      invariant i <= |results|
      invariant first <==> i == 0
      invariant Batch(rep, errs) == DecodeReads(results[..i], h)
      decreases |results| - i
    {
      if i == |results| {
        break;
      }
      var read := results[i];
      DecodeReadsStep(results, i, h);
      PageOutcome(read, first, dec.parseFloat);
      i := i + 1;
      if read.ReadFailed? {
        errs := errs + [CsvError(read.cause)];
      } else if first {
        var headerErrs := ValidateHeaders(read.fields);
        errs := errs + headerErrs;
      } else {
        var d := NewPlacementRecord(read.fields, dec.parseFloat);
        errs := errs + d.errors;
        rep := rep + [d.record];
      }
      first := false;
    }
    assert results[..i] == results;
  }

  /** The rows after the header slot, decoded front to back. */
  function DecodeRows(results: seq<RowRead>, h: RowHandlers): Batch
  {
    if results == [] then Empty else Concat(ReadOutcome(results[0], false, h), DecodeRows(results[1..], h))
  }

  lemma {:induction false} DecodeRowsSnoc(results: seq<RowRead>, last: RowRead, h: RowHandlers)
    ensures DecodeRows(results + [last], h) == Concat(DecodeRows(results, h), ReadOutcome(last, false, h))
  {
    if results == [] {
      assert [last][1..] == [];
    } else {
      assert (results + [last])[1..] == results[1..] + [last];
      DecodeRowsSnoc(results[1..], last, h);
    }
  }

  /** The page is its first read, taken as the header slot, followed by the
      remaining rows, each decoded as a record row. */
  lemma {:induction false} PageStructure(results: seq<RowRead>, h: RowHandlers)
    requires results != []
    ensures DecodeReads(results, h) == Concat(ReadOutcome(results[0], true, h), DecodeRows(results[1..], h))
  {
    if |results| == 1 {
      assert results[1..] == [];
    } else {
      var init := results[..|results| - 1];
      PageStructure(init, h);
      assert init[1..] + [results[|results| - 1]] == results[1..];
      DecodeRowsSnoc(init[1..], results[|results| - 1], h);
    }
  }

  /** The rows of successful reads, in order. */
  function SuccessfulRows(results: seq<RowRead>): (rows: seq<Row>)
    ensures |rows| <= |results|
  {
    if results == [] then []
    else (if results[0].Read? then [results[0].fields] else []) + SuccessfulRows(results[1..])
  }

  function FailedReads(results: seq<RowRead>): nat
  {
    if results == [] then 0 else (if results[0].ReadFailed? then 1 else 0) + FailedReads(results[1..])
  }

  function CsvErrorCount(errs: seq<Error>): nat
  {
    if errs == [] then 0 else (if errs[0].CsvError? then 1 else 0) + CsvErrorCount(errs[1..])
  }

  lemma {:induction false} CsvErrorCountConcat(a: seq<Error>, b: seq<Error>)
    ensures CsvErrorCount(a + b) == CsvErrorCount(a) + CsvErrorCount(b)
  {
    if a == [] {
      assert a + b == b;
    } else {
      assert (a + b)[1..] == a[1..] + b;
      CsvErrorCountConcat(a[1..], b);
    }
  }

  lemma {:induction false} CsvErrorCountNone(errs: seq<Error>)
    requires forall e | e in errs :: !e.CsvError?
    ensures CsvErrorCount(errs) == 0
  {
    if errs != [] {
      CsvErrorCountNone(errs[1..]);
    }
  }

  /** On every successful read among `results`, the header check yields header
      errors only and the row decoder conversion errors only. */
  predicate RowsClean(results: seq<RowRead>, h: RowHandlers)
  {
    forall k | 0 <= k < |results| && results[k].Read? ::
      (forall e | e in h.decode(results[k].fields).errors :: e.ConversionError?)
      && (forall e | e in h.header(results[k].fields) :: e.HeaderMismatch?)
  }

  /** A read adds a CSV error exactly when it fails. */
  lemma ReadOutcomeCsvErrors(read: RowRead, first: bool, h: RowHandlers)
    requires RowsClean([read], h)
    ensures CsvErrorCount(ReadOutcome(read, first, h).errors) == if read.ReadFailed? then 1 else 0
    ensures forall e | e in ReadOutcome(read, first, h).errors && e.HeaderMismatch? :: first
  {
    match read
    case ReadFailed(cause) =>
      assert ReadOutcome(read, first, h).errors == [CsvError(cause)];
    case Read(fields) =>
      assert [read][0] == read;
      if first {
        CsvErrorCountNone(h.header(fields));
      } else {
        CsvErrorCountNone(h.decode(fields).errors);
      }
  }

  lemma RowsCleanSplit(results: seq<RowRead>, h: RowHandlers)
    requires results != [] && RowsClean(results, h)
    ensures RowsClean([results[0]], h) && RowsClean(results[1..], h)
  {
    forall k | 0 <= k < |results| - 1 && results[1..][k].Read?
      ensures (forall e | e in h.decode(results[1..][k].fields).errors :: e.ConversionError?)
        && (forall e | e in h.header(results[1..][k].fields) :: e.HeaderMismatch?)
    {
      assert results[1..][k] == results[k + 1];
    }
  }

  /** Every row after the header slot contributes its decoded record, failed
      reads contribute none, and every failed read contributes one CSV error. */
  lemma {:induction false} DecodeRowsCounts(results: seq<RowRead>, h: RowHandlers)
    requires RowsClean(results, h)
    ensures var b := DecodeRows(results, h);
      var rows := SuccessfulRows(results);
      && |b.records| == |rows|
      && (forall k | 0 <= k < |rows| :: b.records[k] == h.decode(rows[k]).record)
      && CsvErrorCount(b.errors) == FailedReads(results)
      && (forall e | e in b.errors :: !e.HeaderMismatch?)
  {
    if results != [] {
      RowsCleanSplit(results, h);
      DecodeRowsCounts(results[1..], h);
      var head := ReadOutcome(results[0], false, h);
      ReadOutcomeCsvErrors(results[0], false, h);
      CsvErrorCountConcat(head.errors, DecodeRows(results[1..], h).errors);
    }
  }

  /** validateHeaders yields header errors only and newPlacementRecord
      conversion errors only. */
  lemma PageHandlersClean(results: seq<RowRead>, parseFloat: string -> FloatParse)
    ensures RowsClean(results, PageHandlers(parseFloat))
  {
    var h := PageHandlers(parseFloat);
    forall k | 0 <= k < |results| && results[k].Read?
      ensures (forall e | e in h.decode(results[k].fields).errors :: e.ConversionError?)
        && (forall e | e in h.header(results[k].fields) :: e.HeaderMismatch?)
    {
      RecordErrors(results[k].fields, parseFloat);
      HeaderErrorsExact(results[k].fields);
    }
  }

  lemma DecodeReadsCounts(results: seq<RowRead>, h: RowHandlers)
    requires results != [] && RowsClean(results, h)
    ensures var b := DecodeReads(results, h);
      var rows := SuccessfulRows(results[1..]);
      && |b.records| == |rows|
      && (forall k | 0 <= k < |rows| :: b.records[k] == h.decode(rows[k]).record)
      && CsvErrorCount(b.errors) == FailedReads(results)
      && (results[0].Read? ==>
            |h.header(results[0].fields)| <= |b.errors|
            && b.errors[..|h.header(results[0].fields)|] == h.header(results[0].fields))
      && (forall e | e in b.errors && e.HeaderMismatch? :: results[0].Read? && e in h.header(results[0].fields))
  {
    RowsCleanSplit(results, h);
    PageStructure(results, h);
    DecodeRowsCounts(results[1..], h);
    var b := DecodeReads(results, h);
    var head := ReadOutcome(results[0], true, h);
    var rest := DecodeRows(results[1..], h);
    assert b.records == rest.records && b.errors == head.errors + rest.errors;
    ReadOutcomeCsvErrors(results[0], true, h);
    CsvErrorCountConcat(head.errors, rest.errors);
    assert FailedReads(results) == (if results[0].ReadFailed? then 1 else 0) + FailedReads(results[1..]);
    if results[0].Read? {
      assert head.errors == h.header(results[0].fields);
      assert b.errors[..|head.errors|] == head.errors;
    } else {
      assert head.errors == [CsvError(results[0].cause)];
    }
  }

  /** getPlacementRecordsForPage: the records are those of the successful
      rows after the first read, in row order; each failed read adds exactly
      one CSV error; header errors come only from a successful first read
      and then lead the error list. An empty page yields nothing. */
  lemma PageProperties(results: seq<RowRead>, parseFloat: string -> FloatParse)
    ensures results == [] ==> DecodePage(results, parseFloat) == Batch([], [])
    ensures results != [] ==> var b := DecodePage(results, parseFloat);
      var rows := SuccessfulRows(results[1..]);
      && |b.records| == |rows|
      && (forall k | 0 <= k < |rows| :: b.records[k] == NewPlacementRecord(rows[k], parseFloat).record)
      && CsvErrorCount(b.errors) == FailedReads(results)
      && (results[0].Read? ==>
            |HeaderErrors(results[0].fields)| <= |b.errors|
            && b.errors[..|HeaderErrors(results[0].fields)|] == HeaderErrors(results[0].fields))
      && (forall e | e in b.errors && e.HeaderMismatch? :: results[0].Read? && e in HeaderErrors(results[0].fields))
  {
    if results == [] {
      return;
    }
    var h := PageHandlers(parseFloat);
    PageHandlersClean(results, parseFloat);
    DecodeReadsCounts(results, h);
    var rows := SuccessfulRows(results[1..]);
    forall k | 0 <= k < |rows|
      ensures DecodePage(results, parseFloat).records[k] == NewPlacementRecord(rows[k], parseFloat).record
    {
      assert h.decode(rows[k]) == NewPlacementRecord(rows[k], parseFloat);
    }
    if results[0].Read? {
      assert h.header(results[0].fields) == HeaderErrors(results[0].fields);
    }
  }
}
