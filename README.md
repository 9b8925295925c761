# aleks-client placement reports, modelled in Dafny

This project models how the ALEKS client library retrieves placement
reports. `GetPlacementReport` proceeds in three stages:

- It checks the two completion dates and the class codes.
- It fetches every class code's report page by page, over the XML-RPC method
  `getPlacementReport`, until the server answers `No records found`.
- It decodes each page as CSV. The first read is the header slot. Every later
  row of 13 columns becomes a `PlacementRecord`.

The errors of every stage are collected alongside the records. The model also
covers two smaller pieces:

- the HTTP round-tripper that sets the `Accept`, `User-Agent` and `Host`
  headers and strips CDATA tags from response bodies;
- `newClient`, which defaults the URL and checks the credentials.

The modules follow the program's layers:

| module | file | models |
|---|---|---|
| `Text` | text.dfy | substring search, `strings.ReplaceAll(s, p, "")`, `strings.Trim(s, " \t\n")`, base-10 rendering |
| `Errors` | errors.dfy | the error values of the pipeline and their messages |
| `Numbers` | numbers.dfy | `strconv.ParseInt(s, 10, 64)` with its syntax and range errors, and `strconv.FormatInt` |
| `Times` | times.dfy | `time.Parse` for the layouts `2006-01-02`, `01/02/2006` and `01/02/2006 03:04 PM`, where formatting a value then parsing it recovers the value; for dates every accepted text is also a rendering, but the clock and timestamp parses accept texts no rendering produces (hour `00`, runs of spaces) |
| `Records` | records.dfy | `newPlacementRecord` and its parse helpers |
| `Pages` | pages.dfy | `expectedHeaders`, `validateHeaders`, `getPlacementRecordsForPage` |
| `Requests` | requests.dfy | `validateRequestDate`, `validateClasscodes` |
| `Fetcher` | fetcher.dfy | `getPlacementReportForClasscode`, the page loop |
| `Reports` | reports.dfy | `GetPlacementReport`: the validation guard, the scatter and the gather |
| `Clients` | clients.dfy | `newClient` |
| `Transport` | transport.dfy | `RoundTripper.RoundTrip` |

Foreign libraries and I/O enter the model as parameters:

- The CSV reader is `Decoders.readCsv`. It maps a page's text to the sequence
  of results its `Read` calls produce before `io.EOF`. Each result is a row of
  exactly 13 fields, or an error.
- `strconv.ParseFloat` is `Decoders.parseFloat`. It yields an abstract 64-bit
  float and a failure flag.
- The XML-RPC server is a script of answers (`seq<CallResult>`), one per call,
  each either a failure or a string.
- `url.Parse` is the `parseUrl` parameter of `Clients.NewClient`.
- A request's URL host name is the `hostname` field of `Transport.Request`.
- The inner HTTP round trip is the `inner` and `innerErr` arguments of
  `Transport.RoundTrip`.

Code that loops and appends is written as methods. Each is proved equal to a
specification function: `ValidateHeaders`, `ValidateClasscodes`,
`GetPlacementRecordsForPage`, `GetPlacementReportForClasscode`, `Scatter`,
`Gather` and `GetPlacementReport`. The lemmas then state the promised
properties about those functions. The request header map and the response
body are fields of the classes `Request` and `Response`, which `RoundTrip`
updates in place.

Where the code and its documentation differ, the model follows the code:

- A failed XML-RPC call makes the page loop return no records, not the records
  gathered so far. The errors gathered so far are kept
  (pkg/aleks/placementreport.go:155-157).
- The header-mismatch message puts the row's value after "expected:" and the
  expected title after "actual:" (pkg/aleks/placementreport.go:219).
  `Errors.HeaderMessage` keeps that order.
- The source revision is inconsistent:
  - client.go and transport_test.go build `RoundTripper{Trans: ...}`, a field
    that transport.go does not declare;
  - the test calls `validateClassCodes`, but the function is
    `validateClasscodes`.

  The model follows transport.go and placementreport.go. Its `RoundTrip`
  wraps an abstract inner round trip.

## Model

| member | source | states |
|---|---|---|
| Text.Decimal | pkg/aleks/placementreport.go:152 | the page number rendered in base 10 is a non-empty digit string with no leading zero |
| Text.DecimalValue | pkg/aleks/placementreport.go:152 | the rendered digits denote the page number back |
| Text.DigitsValueAppend2 | pkg/aleks/placementreport.go:228 | two more digits multiply a numeral's value by a hundred and add their own |
| Text.RemoveAll | pkg/aleks/placementreport.go:316 | deleting every occurrence of a pattern never lengthens a string |
| Text.RemoveAllChar | pkg/aleks/placementreport.go:316 | deleting a one-character pattern is filtering that character out |
| Text.WithoutLacks | pkg/aleks/placementreport.go:316 | the filtered text holds no occurrence of the removed character |
| Text.WithoutBag | pkg/aleks/placementreport.go:316 | the filtered text keeps every other character as often as the input has it |
| Text.RemovePercent | pkg/aleks/placementreport.go:316 | removing every `%` leaves none, and keeps every other character, in order and as often as before |
| Text.RemoveAllSkips | pkg/aleks/transport.go:77-78 | a prefix in which the pattern starts nowhere is kept as it is, and deletion continues after it |
| Text.RemoveAllShort | pkg/aleks/transport.go:77-78 | a string shorter than the pattern is unchanged |
| Text.RemoveAllAbsent | pkg/aleks/placementreport.go:316 | a string that does not contain the pattern is unchanged |
| Text.OccursAtTail | pkg/aleks/transport.go:77-78 | an occurrence in the tail of a string is an occurrence one position later in the string |
| Text.TrimLeftShape | pkg/aleks/placementreport.go:159 | trimming the left produces a suffix; what it removes is blank; the result does not start with a blank |
| Text.TrimRightShape | pkg/aleks/placementreport.go:159 | trimming the right produces a prefix; what it removes is blank; the result does not end with a blank |
| Text.Trim | pkg/aleks/placementreport.go:159 | strings.Trim with the cutset space, tab, newline never lengthens the reply, and a non-empty result neither starts nor ends with a blank |
| Text.TrimShape | pkg/aleks/placementreport.go:159 | strings.Trim with the cutset space, tab, newline keeps an infix; both removed sides are blank; the result neither starts nor ends with a blank |
| Text.TrimLeftPadded | pkg/aleks/placementreport.go:159 | blanks before a text that starts with a non-blank are removed, and nothing else |
| Text.TrimRightPadded | pkg/aleks/placementreport.go:159 | blanks after a text that ends with a non-blank are removed, and nothing else |
| Text.TrimPadded | pkg/aleks/placementreport.go:159-160 | blank padding on both sides of a text with non-blank ends is removed, and the text is kept |
| Text.SkipSpaces | pkg/aleks/placementreport.go:325 | the run of spaces that one layout space matches is dropped, and only spaces are dropped |
| Numbers.ScanUintDigits | pkg/aleks/placementreport.go:308 | the unsigned digit scan succeeds exactly on all-digit text whose value fits in 64 bits, and yields that value |
| Numbers.ParseUint | pkg/aleks/placementreport.go:308 | the unsigned parse yields a value exactly for non-empty all-digit text that fits in 64 bits, and then its value; all-digit text that does not fit is a range error; the empty text is a syntax error |
| Numbers.ParseInt | pkg/aleks/placementreport.go:307-313 | the result is always a 64-bit integer; a failure yields 0 or one of the two bounds |
| Numbers.ScanUintShort | pkg/aleks/placementreport.go:308 | a digit scan over at most 19 characters stays below ten to their number and never overflows |
| Numbers.ParseIntSyntaxError | pkg/aleks/placementreport.go:307-313 | a text that is not an optionally signed decimal, with at most 19 characters after the sign, fails with the value 0 |
| Numbers.ScanSticks | pkg/aleks/placementreport.go:308 | once the digit scan has failed with a syntax or range error, the characters after it do not change the outcome |
| Numbers.ParseIntSyntaxGeneral | pkg/aleks/placementreport.go:307-313 | a text of any length whose first non-digit after the sign comes before the digits overflow fails with the value 0 |
| Numbers.ParseIntRangeFirst | pkg/aleks/placementreport.go:307-313 | a text of any length whose digits after the sign overflow 64 bits before any non-digit fails with the bound of its sign |
| Numbers.ParseIntExact | pkg/aleks/placementreport.go:307-313 | ParseInt succeeds exactly on an optionally signed decimal within the int64 range and yields its value; out of range it fails and yields the nearer bound |
| Numbers.FormatInt | pkg/aleks/placementreport.go:152 | the base-10 rendering is a signed decimal that denotes the number, with a minus sign exactly for a negative number |
| Numbers.ParseFormatInt | pkg/aleks/placementreport.go:152 | every int64 formatted in base 10 parses back to itself with no error |
| Times.DaysIn | pkg/aleks/placementreport.go:228 | every month has 28 to 31 days |
| Times.ParseIsoDate | pkg/aleks/placementreport.go:226-233 | a date accepted under 2006-01-02 is a calendar date at midnight |
| Times.ParseUsDate | pkg/aleks/placementreport.go:299-305 | a date accepted under 01/02/2006 is a calendar date at midnight |
| Times.Hour24 | pkg/aleks/placementreport.go:324-330 | the 12-hour clock maps into 0..23, and the hour is 12 or later exactly for PM |
| Times.Hour12Inverse | pkg/aleks/placementreport.go:324-330 | every hour of the day, written on the 12-hour clock with its marker, converts back to itself |
| Times.ParseClock | pkg/aleks/placementreport.go:324-330 | an accepted 03:04 PM clock is an hour below 24 and a minute below 60 |
| Times.ParseClockOf | pkg/aleks/placementreport.go:324-330 | a rendered hh:mm clock with an AM or PM marker parses to that 24-hour time |
| Times.ClockText | pkg/aleks/placementreport.go:325 | where the hour, the colon, the minute and the marker sit in a clock text |
| Times.ParseTimestamp | pkg/aleks/placementreport.go:324-330 | an accepted timestamp is a calendar date with a valid clock time |
| Times.ParseFormatIsoDate | pkg/aleks/placementreport.go:226-233 | every calendar date rendered as YYYY-MM-DD parses back to itself |
| Times.FormatParseIsoDate | pkg/aleks/placementreport.go:226-233 | every accepted YYYY-MM-DD text is the rendering of the date it parses to |
| Times.ParseFormatUsDate | pkg/aleks/placementreport.go:299-305 | every calendar date rendered as MM/DD/YYYY parses back to itself |
| Times.FormatParseUsDate | pkg/aleks/placementreport.go:299-305 | every accepted MM/DD/YYYY text is the rendering of the date it parses to |
| Times.IsoDateExact | pkg/aleks/placementreport.go:226-233 | a request date is accepted exactly when it renders some calendar date |
| Times.SkipOneSpace | pkg/aleks/placementreport.go:280 | the single space that joins the date and the time is consumed |
| Times.ParseFormatClock | pkg/aleks/placementreport.go:324-330 | every 24-hour clock time rendered as 03:04 PM parses back to itself, 12 AM and 12 PM included |
| Times.ParseFormatTimestamp | pkg/aleks/placementreport.go:324-330 | every date and time rendered as 01/02/2006 03:04 PM parses back to itself |
| Times.ExampleTimestamp | pkg/aleks/placementreport.go:280 | the date "03/06/2016" and the time "01:42 PM", joined by a space, parse to 13:42 on 6 March 2016 |
| Records.ParseDate | pkg/aleks/placementreport.go:299-305 | no error is added exactly when the text is an accepted MM/DD/YYYY date, which is then the rendering of the date returned; otherwise one error naming the text is appended and the date is zero |
| Records.ParseInt | pkg/aleks/placementreport.go:307-313 | no error is added exactly when the text is a signed decimal within int64, whose value is returned; otherwise one error naming the text is appended and the value is what strconv.ParseInt returns, 0 or a bound |
| Records.ParseFloat | pkg/aleks/placementreport.go:315-322 | the float parse sees the text with every `%` filtered out; an error is appended exactly when that parse fails, and it names the filtered text, which holds no `%` |
| Records.ParseTime | pkg/aleks/placementreport.go:324-330 | no error is added exactly when the text is an accepted timestamp, which is then a valid date and clock time that renders and parses back to itself; otherwise one error naming the text is appended and the time is zero |
| Records.NewPlacementRecord | pkg/aleks/placementreport.go:274-297 | name, student id, email and proctored come verbatim from columns 0, 1, 2 and 10; each converted field is its parse of the cited columns, with `%` removed before the float parses and the zero time for a rejected date |
| Records.RecordErrors | pkg/aleks/placementreport.go:276-283 | at most seven errors, one per conversion that fails and none for one that succeeds, each naming its input, in conversion order |
| Records.ThreadedErrors | pkg/aleks/placementreport.go:277-283 | the error list threaded through the seven helpers is the per-field errors in conversion order |
| Records.FieldAt | pkg/aleks/placementreport.go:277-283 | the field converted in each position, inverse to the conversion order |
| Records.FieldErrorsInOrder | pkg/aleks/placementreport.go:277-283 | after n conversions, the errors are the failing fields among the first n, each once, in order |
| Errors.HeaderMessage | pkg/aleks/placementreport.go:219 | the message starts with the fixed title text, the column index in base 10 and ") - ", then the row's value follows "expected: " and the expected title follows ", actual: " at the end |
| Pages.ExpectedHeaders | pkg/aleks/placementreport.go:235-251 | thirteen column titles, matching the record width |
| Pages.ValidateHeaders | pkg/aleks/placementreport.go:214-224 | the loop yields exactly the specified header errors of the row |
| Pages.HeaderErrorsUpToExact | pkg/aleks/placementreport.go:214-224 | over the first n columns: one error per differing column, naming its index, the row's value and the expected title, in index order |
| Pages.HeaderErrorsExact | pkg/aleks/placementreport.go:214-224 | validateHeaders reports exactly the differing columns, in column order |
| Pages.HeadersAccepted | pkg/aleks/placementreport.go:214-251 | no header error exactly when the row equals the thirteen expected titles |
| Pages.DecodeReadsStep | pkg/aleks/placementreport.go:179-196 | one more read appends its own outcome to the decoded page |
| Pages.PageOutcome | pkg/aleks/placementreport.go:184-195 | a failed read adds its error; a successful first read adds the header errors; a later row adds its record and its conversion errors |
| Pages.GetPlacementRecordsForPage | pkg/aleks/placementreport.go:172-198 | the read loop, with its `first` flag and `continue`, yields exactly the specified decoding of the reads |
| Pages.DecodeRowsSnoc | pkg/aleks/placementreport.go:179-196 | the rows after the header slot decode one after another |
| Pages.PageStructure | pkg/aleks/placementreport.go:179-191 | the first read fills the header slot whether or not it succeeds; the rest decode as rows |
| Pages.SuccessfulRows | pkg/aleks/placementreport.go:184-187 | no more rows succeed than were read |
| Pages.CsvErrorCountConcat | pkg/aleks/placementreport.go:185 | CSV errors of appended lists add up |
| Pages.CsvErrorCountNone | pkg/aleks/placementreport.go:189-194 | a list with no CSV error counts zero |
| Pages.ReadOutcomeCsvErrors | pkg/aleks/placementreport.go:184-195 | a read adds one CSV error exactly when it fails, and header errors only in the header slot |
| Pages.RowsCleanSplit | pkg/aleks/placementreport.go:179-196 | the error-kind discipline of the reads holds for the head and for the rest |
| Pages.DecodeRowsCounts | pkg/aleks/placementreport.go:184-196 | the rows give one record per successful read, in order, and one CSV error per failed read, and no header errors |
| Pages.PageHandlersClean | pkg/aleks/placementreport.go:189-194 | validateHeaders yields only header errors and newPlacementRecord only conversion errors |
| Pages.DecodeReadsCounts | pkg/aleks/placementreport.go:179-196 | with any handlers: the records are the decoded successful rows after the first read; failed reads count the CSV errors; header errors come only from a successful first read and lead the error list |
| Pages.PageProperties | pkg/aleks/placementreport.go:172-198 | getPlacementRecordsForPage: one record per successful row after the first read, in row order; one error per failed read; header errors only from a successful first read, and then first; an empty page yields no records and no errors |
| Requests.ValidateRequestDate | pkg/aleks/placementreport.go:226-233 | at most one error, naming the rejected date |
| Requests.RequestDateAccepted | pkg/aleks/placementreport.go:226-233 | no error exactly when the date is the YYYY-MM-DD rendering of a calendar date |
| Requests.RequestDateExamples | pkg/aleks/placementreport_test.go:37-57 | "2019-10-11" passes and "10/11/2019" yields one error |
| Requests.ValidateClasscodes | pkg/aleks/placementreport.go:200-211 | the loop yields exactly the specified class-code errors |
| Requests.ClasscodeErrorsConcat | pkg/aleks/placementreport.go:206-210 | the errors of a list of codes are those of its parts, in order |
| Requests.ClasscodeErrorsExact | pkg/aleks/placementreport.go:200-211 | one error per code with no substring matching [A-Z]{5}-[A-Z]{5}, naming that code, none for the others; none at all exactly when every code matches |
| Requests.ClasscodeMessages | pkg/aleks/placementreport.go:208 | every message is the fixed prefix followed by the code verbatim |
| Requests.ClasscodeExamples | pkg/aleks/placementreport_test.go:11-35 | "ABCDE-FGHIJ" passes; the empty code yields one error whose text is the prefix alone |
| Requests.UnanchoredExamples | pkg/aleks/placementreport.go:207 | the match is unanchored: surrounding text and a longer first group pass, a missing dash does not |
| Fetcher.TerminatesTail | pkg/aleks/placementreport.go:151-168 | if the first answer does not end the loop, a later one does |
| Fetcher.FirstFinal | pkg/aleks/placementreport.go:151-162 | the loop stops at the first failed call or trimmed end marker, and at no earlier call |
| Fetcher.FetchCalls | pkg/aleks/placementreport.go:151-154 | one call per page asked for |
| Fetcher.FetchCallsStep | pkg/aleks/placementreport.go:151-154 | setting page_num on the previous page's map gives the next page's parameters, and the call is appended |
| Fetcher.GetPlacementReportForClasscode | pkg/aleks/placementreport.go:148-170 | the page loop, which updates `params` in place, yields exactly the specified result and makes exactly the calls up to the stopping one |
| Fetcher.FetchCallParams | pkg/aleks/placementreport.go:152-154 | every call is getPlacementReport; the k-th carries page_num parsing to k from 1, and every other parameter as given |
| Fetcher.PagesUpToPrefix | pkg/aleks/placementreport.go:151-168 | the pages decoded so far do not depend on later answers |
| Fetcher.FetchIgnoresLater | pkg/aleks/placementreport.go:151-169 | answers after the stopping one change neither where the loop stops nor its result |
| Fetcher.FirstFinalUnique | pkg/aleks/placementreport.go:151-162 | a final answer with none before it is where the loop stops |
| Fetcher.PagesUpToTail | pkg/aleks/placementreport.go:165-167 | the first page's records and errors come before those of the later pages |
| Fetcher.FetchUnroll | pkg/aleks/placementreport.go:151-169 | one data page followed by the rest: its records lead unless a later call fails, which drops every record but keeps its errors before the call error |
| Fetcher.MarkerFirst | pkg/aleks/placementreport.go:159-161 | an end marker padded with blanks as the first answer ends the loop after one call with nothing decoded |
| Reports.ValidationAccepts | pkg/aleks/placementreport.go:82-87 | validation passes exactly when both dates are calendar dates and every class code matches |
| Reports.Range | pkg/aleks/placementreport.go:116 | the codes 0 ..n-1 in order |
| Reports.PermutationBounds | pkg/aleks/placementreport.go:116-117 | an arrival order lists exactly `len(classcodes)` results, all within range |
| Reports.CodeResults | pkg/aleks/placementreport.go:96-112 | one fetch result per class code |
| Reports.CodeCalls | pkg/aleks/placementreport.go:96-112 | per class code, one call for each page up to the one that ends its loop |
| Reports.GetPlacementReport | pkg/aleks/placementreport.go:78-122 | on a validation error: no records, the errors in date, date, class-code order, and no call; otherwise the gather of every code's fetch in arrival order, and each code's calls |
| Reports.Scatter | pkg/aleks/placementreport.go:95-113 | each class code is fetched with the credentials, both dates and its own class_code |
| Reports.ScatterStep | pkg/aleks/placementreport.go:96-113 | fetching one more code appends its result and its calls |
| Reports.CodeResultsStep | pkg/aleks/placementreport.go:96-113 | one more endpoint appends its fetch result |
| Reports.CodeCallsStep | pkg/aleks/placementreport.go:96-113 | one more endpoint appends its calls |
| Reports.Gather | pkg/aleks/placementreport.go:115-121 | the gather loop appends the results in arrival order |
| Reports.GatheredConcat | pkg/aleks/placementreport.go:116-120 | gathering two runs of arrivals is gathering each, concatenated |
| Reports.WithinReorder | pkg/aleks/placementreport.go:116-117 | reordering arrivals keeps them within range |
| Reports.RemoveMatching | pkg/aleks/placementreport.go:116-117 | removing one code from two arrival orders with the same codes leaves orders with the same codes |
| Reports.ConcatBags | pkg/aleks/placementreport.go:118-119 | appending adds the multisets of records and of errors |
| Reports.BagsStep | pkg/aleks/placementreport.go:118-119 | appending the same result to equal multisets keeps them equal |
| Reports.GatheredSplit | pkg/aleks/placementreport.go:116-120 | gathering around one arrival splits into the arrivals before it, it, and those after |
| Reports.GatheredReorder | pkg/aleks/placementreport.go:115-121 | two arrival orders with the same codes gather the same records and errors, each as often |
| Reports.GatherPermutation | pkg/aleks/placementreport.go:93-121 | whatever the arrival order, the report holds every code's records and every code's errors exactly once |
| Clients.EffectiveUrl | pkg/aleks/client.go:84-86 | an empty URL becomes https://secure.aleks.com/xmlrpc; any other is kept verbatim |
| Clients.NewClient | pkg/aleks/client.go:83-100 | a client exactly when the defaulted URL parses and both credentials are non-empty, holding exactly the inputs; a parse error takes precedence; otherwise the fixed credentials message |
| Transport.Request.constructor | pkg/aleks/transport.go:58 | a request with the given header map and host name |
| Transport.Response.constructor | pkg/aleks/transport.go:66 | a response with the given body |
| Transport.InjectHeaders | pkg/aleks/transport.go:60-63 | Accept, User-Agent and Host hold `*/*`, `aleks-client` and the host name, overriding earlier values; every other key is unchanged; no other key appears |
| Transport.InjectIntoEmpty | pkg/aleks/transport_test.go:61-73 | from an empty header map exactly three entries result |
| Transport.StripCdata | pkg/aleks/transport.go:76-79 | the body never grows |
| Transport.StripCdataClean | pkg/aleks/transport.go:77-78 | a body with neither tag is unchanged |
| Transport.NoOpenBeforeClose | pkg/aleks/transport.go:77 | appending `]]>` creates no opening tag |
| Transport.NoEarlyClose | pkg/aleks/transport.go:78 | in s + `]]>`, with no closing tag in s, no closing tag starts inside s |
| Transport.StripCdataWrapped | pkg/aleks/transport.go:77-78 | `<![CDATA[` + s + `]]>` becomes s for any s holding neither tag |
| Transport.StripCdataExample | pkg/aleks/transport_test.go:53-80 | "<![CDATA[This is a test]]>" becomes "This is a test" |
| Transport.OpenHasNoClose | pkg/aleks/transport.go:78 | an opening tag holds no closing tag |
| Transport.StripCdataLeavesJoinedTag | pkg/aleks/transport.go:77 | a single left-to-right pass can leave a tag that the deletion itself joined: "<![<![CDATA[CDATA[" becomes "<![CDATA[" |
| Transport.RoundTrip | pkg/aleks/transport.go:58-82 | the request always gets the three headers; an inner error is returned unchanged with the body untouched; a body-read failure is returned; otherwise the same response comes back with its body stripped and no error |

## Left out

- Goroutines and the result channel of `GetPlacementReport`: the fetches run one after another, and the scheduler's choice of delivery order is the `arrival` parameter, which must be a permutation of the class codes.
- Reports.GetPlacementReport: requires that every `xmlrpc.NewClient` succeeds (`Ready`). When one fails, the source appends the error and starts one goroutine fewer, but the gather still waits for `len(classcodes)` results and blocks forever; a run that does not return is not modelled.
- Fetcher.GetPlacementReportForClasscode: requires that the server's answers reach a failure or the end marker (`Terminates`); a server that never ends the loop makes the source loop forever, which is not modelled.
- Fetcher.GetPlacementReportForClasscode: the caller's `params` map, which the source updates in place with `page_num`, is a local copy here; the model records the calls made instead. No caller reads the map afterwards, since each code gets a fresh one.
- The XML-RPC encoding, the HTTP transport configuration (`aleksTransport`) and `ioutil.ReadAll`: foreign code; calls, responses and body reads are parameters.
- CSV tokenisation (quoting, line splitting, the field-count check): the reader is the `readCsv` parameter, which yields the row results directly.
- `strconv.ParseFloat` and float arithmetic: the parse is the `parseFloat` parameter and floats are kept as 64-bit patterns; only the `%` removal and the error it adds are modelled.
- `url.Parse` and `URL.Hostname`: a parameter and a field.
- The texts of errors made by `time.Parse`, `strconv`, `encoding/csv`, `url.Parse` and the XML-RPC library: each error value records which check failed and on what input, not the library's message.
- The `regexp.Compile` error branch of `validateClasscodes`: the pattern is a fixed valid constant, so the branch is unreachable.
- `time.Time` beyond year, month, day, hour and minute: the layouts used carry no seconds or zone, and the zero time stands for the value returned with a parse error.
- `GetPlacementReportFromEnv`, `NewClientFromEnv` and the public `NewClient` wrapper: environment loading and wiring.
- Logging calls, pkg/aleks/pkg.go (package documentation) and cmd/placementreport/main.go (the entry point): no behaviour to state.
