/** getPlacementReportForClasscode: the page loop that calls the XML-RPC
    method getPlacementReport with page_num = 1, 2, 3, ... until the server
    answers with the end marker or a call fails. */
module Fetcher {
  import opened Text
  import opened Errors
  import opened Records
  import opened Pages
  import Numbers

  const ReportMethod: string := "getPlacementReport"

  const EndMarker: string := "No records found"

  const PageKey: string := "page_num"

  /** The outcome of one xc.Call: a failure, or the string the server returned. */
  datatype CallResult = CallFailed(cause: Failure) | Reply(data: string)

  /** One call as the server sees it: the method name and the parameter map. */
  datatype RpcCall = RpcCall(methodName: string, params: map<string, string>)

  /** A call outcome that ends the loop: a failed call, or the end marker once
      spaces, tabs and newlines are trimmed from both ends. */
  predicate Final(r: CallResult)
  {
    r.CallFailed? || Trim(r.data) == EndMarker
  }

  /** The server's answers end the loop somewhere. */
  predicate Terminates(responses: seq<CallResult>)
  {
    exists i | 0 <= i < |responses| :: Final(responses[i])
  }

  lemma TerminatesTail(responses: seq<CallResult>)
    requires Terminates(responses) && !Final(responses[0])
    ensures Terminates(responses[1..])
  {
    var i :| 0 <= i < |responses| && Final(responses[i]);
    assert responses[1..][i - 1] == responses[i];
  }

  /** The call on which the loop stops, counted from 0. */
  function FirstFinal(responses: seq<CallResult>): (k: nat)
    requires Terminates(responses)
    ensures k < |responses| && Final(responses[k])
    ensures forall j | 0 <= j < k :: !Final(responses[j])
    decreases |responses|
  {
    if Final(responses[0]) then 0
    else
      TerminatesTail(responses);
      var k := FirstFinal(responses[1..]);
      assert forall j | 1 <= j < k + 1 :: responses[j] == responses[1..][j - 1];
      k + 1
  }

  /** What the loop makes of one data reply: it is trimmed, then decoded by
      getPlacementRecordsForPage. */
  function PageDecoder(dec: Decoders): string -> Batch
  {
    (data: string) => DecodePage(dec.readCsv(Trim(data)), dec.parseFloat)
  }

  /** The records and errors the loop has accumulated over the first n
      replies, each decoded by `page`. */
  function PagesUpTo(responses: seq<CallResult>, n: nat, page: string -> Batch): Batch
    requires n <= |responses|
    requires forall j | 0 <= j < n :: responses[j].Reply?
  {
    if n == 0 then Empty else Concat(PagesUpTo(responses, n - 1, page), page(responses[n - 1].data))
  }

  /** What getPlacementReportForClasscode returns when each data page is
      decoded by `page`: the pages before the marker; on a failed call, no
      records and the earlier errors followed by the call's error. */
  function FetchResult(responses: seq<CallResult>, page: string -> Batch): Batch
    requires Terminates(responses)
  {
    var k := FirstFinal(responses);
    var pages := PagesUpTo(responses, k, page);
    match responses[k]
    case CallFailed(cause) => Batch([], pages.errors + [CallError(cause)])
    case Reply(_) => pages
  }

  /** The parameter map with page_num set to the page number in base 10. */
  function PageParams(params: map<string, string>, page: nat): map<string, string>
  {
    params[PageKey := Decimal(page)]
  }

  /** The calls of the first n pages, in order. */
  function FetchCalls(params: map<string, string>, n: nat): (calls: seq<RpcCall>)
    ensures |calls| == n
  {
    seq(n, i requires 0 <= i < n => RpcCall(ReportMethod, PageParams(params, i + 1)))
  }

  /** getPlacementReportForClasscode(xc, params): `responses` are the server's
      answers to the successive calls; the calls made are returned as well. */
  method GetPlacementReportForClasscode(responses: seq<CallResult>, params: map<string, string>, dec: Decoders)
    returns (rep: seq<PlacementRecord>, errs: seq<Error>, calls: seq<RpcCall>)
    requires Terminates(responses)
    ensures Batch(rep, errs) == FetchResult(responses, PageDecoder(dec))
    ensures calls == FetchCalls(params, FirstFinal(responses) + 1)
  {
    ghost var stop := FirstFinal(responses);
    ghost var decode := PageDecoder(dec);
    rep, errs, calls := [], [], [];
    var current := params;
    var page := 1;
    while true
      invariant 1 <= page <= stop + 1
      invariant Batch(rep, errs) == PagesUpTo(responses, page - 1, decode)
      invariant calls == FetchCalls(params, page - 1)
      invariant current == if page == 1 then params else PageParams(params, page - 1)
      decreases stop + 1 - page
    {
      current := current[PageKey := Decimal(page)];
      FetchCallsStep(params, page - 1);
      var result := responses[page - 1];
      calls := calls + [RpcCall(ReportMethod, current)];
      if result.CallFailed? {
        assert page - 1 == stop;
        return [], errs + [CallError(result.cause)], calls;
      }
      var data := Trim(result.data);
      if data == EndMarker {
        assert page - 1 == stop;
        break;
      }
      var r, e := GetPlacementRecordsForPage(data, dec);
      assert Batch(r, e) == decode(result.data);
      rep := rep + r;
      errs := errs + e;
      page := page + 1;
    }
  }

  /** The loop's next call sets page_num on the map it updated before, and is
      appended to the calls made so far. */
  lemma FetchCallsStep(params: map<string, string>, n: nat)
    ensures (if n == 0 then params else PageParams(params, n))[PageKey := Decimal(n + 1)] == PageParams(params, n + 1)
    ensures FetchCalls(params, n + 1) == FetchCalls(params, n) + [RpcCall(ReportMethod, PageParams(params, n + 1))]
  {
    assert FetchCalls(params, n + 1)[..n] == FetchCalls(params, n);
  }

  /** Every call asks for getPlacementReport; the k-th carries page_num = k,
      starting from 1, and every other parameter as the caller gave it. */
  lemma FetchCallParams(params: map<string, string>, n: nat)
    requires n <= Numbers.MaxInt64
    ensures forall i | 0 <= i < n :: FetchCalls(params, n)[i].methodName == ReportMethod
    ensures forall i | 0 <= i < n :: FetchCalls(params, n)[i].params.Keys == params.Keys + {PageKey}
    ensures forall i | 0 <= i < n :: Numbers.ParseInt(FetchCalls(params, n)[i].params[PageKey]) == Numbers.IntParse(i + 1, false)
    ensures forall i, key | 0 <= i < n && key in params && key != PageKey :: FetchCalls(params, n)[i].params[key] == params[key]
  {
    forall i | 0 <= i < n
      ensures Numbers.ParseInt(FetchCalls(params, n)[i].params[PageKey]) == Numbers.IntParse(i + 1, false)
    {
      Numbers.ParseFormatInt(i + 1);
    }
  }

  lemma {:induction false} PagesUpToPrefix(responses: seq<CallResult>, more: seq<CallResult>, n: nat, page: string -> Batch)
    requires n <= |responses|
    requires forall j | 0 <= j < n :: responses[j].Reply?
    ensures forall j | 0 <= j < n :: (responses + more)[j] == responses[j]
    ensures PagesUpTo(responses + more, n, page) == PagesUpTo(responses, n, page)
  {
    if n > 0 {
      PagesUpToPrefix(responses, more, n - 1, page);
    }
  }

  /** Answers after the one that ends the loop are never asked for: they
      change neither the calls made nor the result. */
  lemma FetchIgnoresLater(responses: seq<CallResult>, more: seq<CallResult>, page: string -> Batch)
    requires Terminates(responses)
    ensures Terminates(responses + more)
    ensures FirstFinal(responses + more) == FirstFinal(responses)
    ensures FetchResult(responses + more, page) == FetchResult(responses, page)
  {
    var k := FirstFinal(responses);
    var all := responses + more;
    assert all[k] == responses[k];
    assert forall j | 0 <= j < k :: all[j] == responses[j];
    FirstFinalUnique(all, k);
    PagesUpToPrefix(responses, more, k, page);
  }

  /** The first final answer is the only final answer with none before it. */
  lemma FirstFinalUnique(responses: seq<CallResult>, k: nat)
    requires k < |responses| && Final(responses[k])
    requires forall j | 0 <= j < k :: !Final(responses[j])
    ensures Terminates(responses) && FirstFinal(responses) == k
  {
    var f := FirstFinal(responses);
  }

  lemma {:induction false} PagesUpToTail(responses: seq<CallResult>, n: nat, page: string -> Batch)
    requires 1 <= n <= |responses|
    requires forall j | 0 <= j < n :: responses[j].Reply?
    ensures forall j | 0 <= j < n - 1 :: responses[1..][j].Reply?
    ensures PagesUpTo(responses, n, page) == Concat(page(responses[0].data), PagesUpTo(responses[1..], n - 1, page))
  {
    assert forall j | 0 <= j < n - 1 :: responses[1..][j] == responses[j + 1];
    if n > 1 {
      PagesUpToTail(responses, n - 1, page);
    }
  }

  /** The loop's result unrolled by one page: a data page's records come
      first and its errors are kept even when a later call fails, in which
      case every record is dropped. */
  lemma FetchUnroll(responses: seq<CallResult>, page: string -> Batch)
    requires Terminates(responses) && !Final(responses[0])
    ensures Terminates(responses[1..])
    ensures var first := page(responses[0].data);
      var rest := FetchResult(responses[1..], page);
      var k := FirstFinal(responses[1..]);
      && FirstFinal(responses) == k + 1
      && (responses[1..][k].CallFailed? ==> FetchResult(responses, page) == Batch([], first.errors + rest.errors))
      && (responses[1..][k].Reply? ==> FetchResult(responses, page) == Concat(first, rest))
  {
    TerminatesTail(responses);
    var tail := responses[1..];
    var k := FirstFinal(tail);
    assert forall j | 1 <= j < k + 1 :: responses[j] == tail[j - 1];
    FirstFinalUnique(responses, k + 1);
    PagesUpToTail(responses, k + 1, page);
    var first, pages := page(responses[0].data), PagesUpTo(tail, k, page);
    assert PagesUpTo(responses, k + 1, page) == Concat(first, pages);
    assert responses[k + 1] == tail[k];
    match tail[k]
    case CallFailed(cause) =>
      assert FetchResult(tail, page) == Batch([], pages.errors + [CallError(cause)]);
      assert FetchResult(responses, page) == Batch([], (first.errors + pages.errors) + [CallError(cause)]);
    case Reply(_) =>
      assert FetchResult(tail, page) == pages;
  }

  /** A first answer that is the marker, padded with blanks, ends the loop
      after one call with nothing decoded. */
  lemma MarkerFirst(page: string -> Batch, more: seq<CallResult>)
    ensures Terminates([Reply(" " + EndMarker + "\n")] + more)
    ensures FirstFinal([Reply(" " + EndMarker + "\n")] + more) == 0
    ensures FetchResult([Reply(" " + EndMarker + "\n")] + more, page) == Empty
  {
    TrimPadded(" ", EndMarker, "\n");
    var rs := [Reply(" " + EndMarker + "\n")] + more;
    assert rs[0] == Reply(" " + EndMarker + "\n");
  }
}
