/** GetPlacementReport: validate the request, fetch every class code and
    gather the per-code results. The fetches run concurrently in the source
    and deliver their results in an order the scheduler picks; here the
    fetches run one after another and `arrival` is that order. */
module Reports {
  import opened Errors
  import opened Records
  import opened Pages
  import opened Requests
  import opened Fetcher
  import opened Clients
  import Times

  /** The connection xmlrpc.NewClient(c.url, c.trans) yields for one class
      code: its construction error, if any, and the server's answers. */
  datatype Endpoint = Endpoint(constructionError: Option<Failure>, responses: seq<CallResult>)

  /** The errors of the three request checks, in the order they are appended. */
  function ValidationErrors(from: string, to: string, classcodes: seq<string>): seq<Error>
  {
    ValidateRequestDate(from) + ValidateRequestDate(to) + ClasscodeErrors(classcodes)
  }

  /** The request passes validation exactly when both dates are calendar
      dates in the layout 2006-01-02 and every class code contains a match
      of [A-Z]{5}-[A-Z]{5}. */
  lemma ValidationAccepts(from: string, to: string, classcodes: seq<string>)
    ensures ValidationErrors(from, to, classcodes) == [] <==>
      && Times.ParseIsoDate(from).Some?
      && Times.ParseIsoDate(to).Some?
      && forall c | c in classcodes :: MatchesClasscode(c)
  {
    ClasscodeErrorsExact(classcodes);
  }

  /** The parameters of every call made for one class code, before page_num. */
  function BaseParams<T>(c: Client<T>, from: string, to: string, code: string): map<string, string>
  {
    map["username" := c.username, "password" := c.password, "from_completion_date" := from,
        "to_completion_date" := to, "class_code" := code]
  }

  /** Every endpoint was built and its answers end the page loop. */
  predicate Ready(endpoints: seq<Endpoint>)
  {
    forall i | 0 <= i < |endpoints| :: endpoints[i].constructionError == None && Terminates(endpoints[i].responses)
  }

  function Range(n: nat): (r: seq<nat>)
    ensures |r| == n && forall i | 0 <= i < n :: r[i] == i
  {
    seq(n, i requires 0 <= i < n => i)
  }

  /** `order` lists 0 .. n-1, each exactly once. */
  predicate IsPermutation(order: seq<nat>, n: nat)
  {
    multiset(order) == multiset(Range(n))
  }

  lemma PermutationBounds(order: seq<nat>, n: nat)
    requires IsPermutation(order, n)
    ensures |order| == n && Within(order, n)
  {
    assert |multiset(order)| == |multiset(Range(n))|;
    forall j | 0 <= j < |order|
      ensures order[j] < n
    {
      assert order[j] in multiset(order);
      assert order[j] in Range(n);
    }
  }

  /** The per-code results, in class-code order. */
  function CodeResults(endpoints: seq<Endpoint>, dec: Decoders): (rs: seq<Batch>)
    requires Ready(endpoints)
    ensures |rs| == |endpoints|
  {
    seq(|endpoints|, i requires 0 <= i < |endpoints| => FetchResult(endpoints[i].responses, PageDecoder(dec)))
  }

  /** The calls made for every class code, in class-code order: page 1 up to
      the page whose answer ends that code's loop. */
  function CodeCalls<T>(c: Client<T>, from: string, to: string, classcodes: seq<string>,
                        endpoints: seq<Endpoint>): (cs: seq<seq<RpcCall>>)
    requires |endpoints| == |classcodes| && Ready(endpoints)
    ensures |cs| == |classcodes|
    ensures forall i | 0 <= i < |classcodes| :: |cs[i]| == FirstFinal(endpoints[i].responses) + 1
  {
    seq(|classcodes|, i requires 0 <= i < |classcodes| =>
      FetchCalls(BaseParams(c, from, to, classcodes[i]), FirstFinal(endpoints[i].responses) + 1))
  }

  predicate Within(order: seq<nat>, n: nat)
  {
    forall j | 0 <= j < |order| :: order[j] < n
  }

  /** The gather loop after receiving the results of the codes in `order`. */
  function Gathered(results: seq<Batch>, order: seq<nat>): Batch
    requires Within(order, |results|)
  {
    if order == [] then Empty
    else Concat(Gathered(results, order[..|order| - 1]), results[order[|order| - 1]])
  }

  /** GetPlacementReport(from, to, classcodes...). `endpoints[i]` is the
      connection for classcodes[i]; `arrival` is the order in which the
      fetches deliver their results. calls[i] lists the calls made for
      classcodes[i]. */
  method GetPlacementReport<T>(c: Client<T>, from: string, to: string, classcodes: seq<string>,
                               endpoints: seq<Endpoint>, arrival: seq<nat>, dec: Decoders)
    returns (pr: seq<PlacementRecord>, errs: seq<Error>, calls: seq<seq<RpcCall>>)
    requires |endpoints| == |classcodes|
    requires ValidationErrors(from, to, classcodes) == [] ==> Ready(endpoints) && IsPermutation(arrival, |classcodes|)
    ensures ValidationErrors(from, to, classcodes) != [] ==>
      pr == [] && errs == ValidationErrors(from, to, classcodes) && calls == []
    ensures ValidationErrors(from, to, classcodes) == [] ==>
      && Ready(endpoints)
      && IsPermutation(arrival, |classcodes|)
      && Within(arrival, |classcodes|)
      && Batch(pr, errs) == Gathered(CodeResults(endpoints, dec), arrival)
      && calls == CodeCalls(c, from, to, classcodes, endpoints)
  {
    pr, errs := [], [];
    errs := errs + ValidateRequestDate(from);
    errs := errs + ValidateRequestDate(to);
    var codeErrs := ValidateClasscodes(classcodes);
    errs := errs + codeErrs;
    assert errs == ValidationErrors(from, to, classcodes);
    if |errs| > 0 {
      return pr, errs, [];
    }
    PermutationBounds(arrival, |classcodes|);
    var results;
    results, calls := Scatter(c, from, to, classcodes, endpoints, dec);
    pr, errs := Gather(results, arrival);
  }

  /** Scatter: every xmlrpc.NewClient succeeds (Ready), so each code is
      fetched with the shared parameters and its own class_code. */
  method Scatter<T>(c: Client<T>, from: string, to: string, classcodes: seq<string>,
                    endpoints: seq<Endpoint>, dec: Decoders)
    returns (results: seq<Batch>, calls: seq<seq<RpcCall>>)
    requires |endpoints| == |classcodes| && Ready(endpoints)
    ensures results == CodeResults(endpoints, dec)
    ensures calls == CodeCalls(c, from, to, classcodes, endpoints)
  {
    results, calls := [], [];
    for i := 0 to |classcodes|
      invariant Ready(endpoints[..i])
      invariant results == CodeResults(endpoints[..i], dec)
      invariant calls == CodeCalls(c, from, to, classcodes[..i], endpoints[..i])
    {
      var params := BaseParams(c, from, to, classcodes[i]);
      var r, e, cs := GetPlacementReportForClasscode(endpoints[i].responses, params, dec);
      ScatterStep(c, from, to, classcodes, endpoints, dec, i);
      results := results + [Batch(r, e)];
      calls := calls + [cs];
    }
    assert classcodes[..|classcodes|] == classcodes && endpoints[..|endpoints|] == endpoints;
  }

  /** One more code fetched appends its result and its calls. */
  lemma ScatterStep<T>(c: Client<T>, from: string, to: string, classcodes: seq<string>,
                       endpoints: seq<Endpoint>, dec: Decoders, i: nat)
    requires |endpoints| == |classcodes| && Ready(endpoints) && i < |classcodes|
    ensures Ready(endpoints[..i]) && Ready(endpoints[..i + 1])
    ensures CodeResults(endpoints[..i + 1], dec)
      == CodeResults(endpoints[..i], dec) + [FetchResult(endpoints[i].responses, PageDecoder(dec))]
    ensures CodeCalls(c, from, to, classcodes[..i + 1], endpoints[..i + 1])
      == CodeCalls(c, from, to, classcodes[..i], endpoints[..i])
         + [FetchCalls(BaseParams(c, from, to, classcodes[i]), FirstFinal(endpoints[i].responses) + 1)]
  {
    var short, long := endpoints[..i], endpoints[..i + 1];
    assert forall k | 0 <= k < i + 1 :: long[k] == endpoints[k];
    assert forall k | 0 <= k < i :: short[k] == endpoints[k];
    CodeResultsStep(short, long, dec);
    CodeCallsStep(c, from, to, classcodes[..i], classcodes[..i + 1], short, long);
  }

  lemma CodeResultsStep(short: seq<Endpoint>, long: seq<Endpoint>, dec: Decoders)
    requires Ready(long) && |long| == |short| + 1
    requires forall k | 0 <= k < |short| :: short[k] == long[k]
    ensures Ready(short)
    ensures CodeResults(long, dec) == CodeResults(short, dec) + [FetchResult(long[|short|].responses, PageDecoder(dec))]
  {
    assert CodeResults(long, dec)[..|short|] == CodeResults(short, dec);
  }

  lemma CodeCallsStep<T>(c: Client<T>, from: string, to: string, codes: seq<string>, codes': seq<string>,
                         short: seq<Endpoint>, long: seq<Endpoint>)
    requires Ready(long) && |long| == |short| + 1 && |codes| == |short| && |codes'| == |long|
    requires forall k | 0 <= k < |short| :: short[k] == long[k] && codes[k] == codes'[k]
    ensures Ready(short)
    ensures CodeCalls(c, from, to, codes', long) == CodeCalls(c, from, to, codes, short)
      + [FetchCalls(BaseParams(c, from, to, codes'[|short|]), FirstFinal(long[|short|].responses) + 1)]
  {
    assert CodeCalls(c, from, to, codes', long)[..|short|] == CodeCalls(c, from, to, codes, short);
  }

  /** Gather: one result per code, appended in arrival order. */
  method Gather(results: seq<Batch>, arrival: seq<nat>) returns (pr: seq<PlacementRecord>, errs: seq<Error>)
    requires Within(arrival, |results|)
    ensures Batch(pr, errs) == Gathered(results, arrival)
  {
    pr, errs := [], [];
    for j := 0 to |arrival|
      invariant Batch(pr, errs) == Gathered(results, arrival[..j])
    {
      var res := results[arrival[j]];
      assert arrival[..j + 1][..j] == arrival[..j];
      errs := errs + res.errors;
      pr := pr + res.records;
    }
    assert arrival[..|arrival|] == arrival;
  }

  lemma {:induction false} GatheredConcat(results: seq<Batch>, a: seq<nat>, b: seq<nat>)
    requires Within(a, |results|) && Within(b, |results|)
    ensures Within(a + b, |results|)
    ensures Gathered(results, a + b) == Concat(Gathered(results, a), Gathered(results, b))
    decreases |b|
  {
    assert forall j | 0 <= j < |a + b| :: (a + b)[j] == if j < |a| then a[j] else b[j - |a|];
    if b == [] {
      assert a + b == a;
    } else {
      var init := b[..|b| - 1];
      assert (a + b)[..|a + b| - 1] == a + init;
      GatheredConcat(results, a, init);
    }
  }

  /** The records and errors gathered, as multisets. */
  predicate SameBags(x: Batch, y: Batch)
  {
    multiset(x.records) == multiset(y.records) && multiset(x.errors) == multiset(y.errors)
  }

  lemma WithinReorder(a: seq<nat>, b: seq<nat>, n: nat)
    requires Within(a, n) && multiset(a) == multiset(b)
    ensures Within(b, n)
  {
    forall j | 0 <= j < |b|
      ensures b[j] < n
    {
      assert b[j] in multiset(a);
    }
  }

  /** Taking the last code of `a` and the same code out of `b` at k leaves
      two orders that still list the same codes. */
  lemma RemoveMatching(a: seq<nat>, b: seq<nat>, k: nat)
    requires multiset(a) == multiset(b) && a != []
    requires k < |b| && b[k] == a[|a| - 1]
    ensures multiset(a[..|a| - 1]) == multiset(b[..k] + b[k + 1..])
  {
    var x := a[|a| - 1];
    assert a == a[..|a| - 1] + [x];
    assert b == b[..k] + [x] + b[k + 1..];
    assert multiset(b) == multiset(b[..k]) + multiset{x} + multiset(b[k + 1..]);
    assert multiset(a) == multiset(a[..|a| - 1]) + multiset{x};
    assert multiset(b[..k] + b[k + 1..]) == multiset(b[..k]) + multiset(b[k + 1..]);
    var rest, kept := multiset(a[..|a| - 1]), multiset(b[..k] + b[k + 1..]);
    assert rest + multiset{x} == kept + multiset{x};
    forall y
      ensures rest[y] == kept[y]
    {
      assert (rest + multiset{x})[y] == (kept + multiset{x})[y];
    }
  }

  /** Multisets of a concatenation add up. */
  lemma ConcatBags(x: Batch, y: Batch)
    ensures multiset(Concat(x, y).records) == multiset(x.records) + multiset(y.records)
    ensures multiset(Concat(x, y).errors) == multiset(x.errors) + multiset(y.errors)
  {
  }

  /** Adding x's batch to both sides keeps the bags equal. */
  lemma BagsStep(gi: Batch, gl: Batch, gx: Batch, gr: Batch)
    requires SameBags(gi, Concat(gl, gr))
    ensures SameBags(Concat(gi, gx), Concat(Concat(gl, gx), gr))
  {
    ConcatBags(gi, gx);
    ConcatBags(gl, gr);
    ConcatBags(gl, gx);
    ConcatBags(Concat(gl, gx), gr);
  }

  /** Gathering `left + [x] + right` is gathering `left`, then x, then `right`. */
  lemma GatheredSplit(results: seq<Batch>, left: seq<nat>, x: nat, right: seq<nat>)
    requires Within(left, |results|) && x < |results| && Within(right, |results|)
    ensures Within(left + [x] + right, |results|) && Within(left + right, |results|)
    ensures Gathered(results, left + [x] + right) == Concat(Concat(Gathered(results, left), results[x]), Gathered(results, right))
    ensures Gathered(results, left + right) == Concat(Gathered(results, left), Gathered(results, right))
  {
    assert Within([x], |results|);
    assert Gathered(results, [x]) == results[x] by {
      assert [x][..0] == [];
    }
    GatheredConcat(results, left, right);
    GatheredConcat(results, left, [x]);
    GatheredConcat(results, left + [x], right);
  }

  /** Gathering in two orders that list the same codes yields the same
      records and the same errors, each as often. */
  lemma {:induction false} GatheredReorder(results: seq<Batch>, a: seq<nat>, b: seq<nat>)
    requires Within(a, |results|)
    requires multiset(a) == multiset(b)
    ensures Within(b, |results|)
    ensures SameBags(Gathered(results, a), Gathered(results, b))
    decreases |a|
  {
    WithinReorder(a, b, |results|);
    if a != [] {
      var x := a[|a| - 1];
      var init := a[..|a| - 1];
      assert x in multiset(b) by {
        assert x in multiset(a);
      }
      var k :| 0 <= k < |b| && b[k] == x;
      var left, right := b[..k], b[k + 1..];
      assert b == left + [x] + right;
      assert Within(left, |results|) && Within(right, |results|);
      RemoveMatching(a, b, k);
      GatheredReorder(results, init, left + right);
      GatheredSplit(results, left, x, right);
      var gi, gl, gr, gx := Gathered(results, init), Gathered(results, left), Gathered(results, right), results[x];
      assert Gathered(results, a) == Concat(gi, gx);
      BagsStep(gi, gl, gx, gr);
    }
  }

  /** Gather: whatever order the results arrive in, the report holds every
      code's records and the errors every code's errors, each exactly once,
      as in the class-code order concatenation. */
  lemma GatherPermutation(results: seq<Batch>, arrival: seq<nat>)
    requires IsPermutation(arrival, |results|)
    ensures Within(arrival, |results|)
    ensures SameBags(Gathered(results, arrival), Gathered(results, Range(|results|)))
  {
    GatheredReorder(results, Range(|results|), arrival);
  }
}
