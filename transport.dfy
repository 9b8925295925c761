/** RoundTripper.RoundTrip: the HTTP interceptor the XML-RPC client sends
    every call through. It sets the headers the XML-RPC specification asks
    for on the request and strips CDATA tags from the response body. */
module Transport {
  import opened Text
  import opened Errors

  const CdataOpen: string := "<![CDATA["

  const CdataClose: string := "]]>"

  /** The outgoing request: its header map, which RoundTrip updates in place,
      and the host name of its URL. */
  class Request {
    var header: map<string, seq<string>>
    const hostname: string

    constructor (header: map<string, seq<string>>, hostname: string)
      ensures this.header == header && this.hostname == hostname
    {
      this.header := header;
      this.hostname := hostname;
    }
  }

  /** A response body: its text and the error reading it to the end gives, if any. */
  datatype Body = Body(content: string, readFailure: Option<Failure>)

  /** The response of the inner round trip; RoundTrip replaces its body. */
  class Response {
    var body: Body

    constructor (body: Body)
      ensures this.body == body
    {
      this.body := body;
    }
  }

  /** The header map after the three assignments: Accept, User-Agent and Host
      hold the fixed values and the host name, whatever they held before, and
      every other key keeps its values. */
  function InjectHeaders(h: map<string, seq<string>>, host: string): (r: map<string, seq<string>>)
    ensures r.Keys == h.Keys + {"Accept", "User-Agent", "Host"}
    ensures r["Accept"] == ["*/*"] && r["User-Agent"] == ["aleks-client"] && r["Host"] == [host]
    ensures forall k | k in h && k !in {"Accept", "User-Agent", "Host"} :: r[k] == h[k]
  {
    h["Accept" := ["*/*"]]["User-Agent" := ["aleks-client"]]["Host" := [host]]
  }

  /** Starting from an empty header map, as the round-trip test does, the
      request ends with exactly three header entries. */
  lemma InjectIntoEmpty(host: string)
    ensures |InjectHeaders(map[], host)| == 3
  {
    var r := InjectHeaders(map[], host);
    assert r.Keys == {"Accept", "User-Agent", "Host"};
    assert |r.Keys| == 3 by {
      assert {"Accept", "User-Agent", "Host"} == {"Accept"} + {"User-Agent"} + {"Host"};
    }
  }

  /** The two strings.ReplaceAll calls on the body: every opening tag is
      deleted left to right, then every closing tag. */
  function StripCdata(body: string): (r: string)
    ensures |r| <= |body|
  {
    RemoveAll(RemoveAll(body, CdataOpen), CdataClose)
  }

  /** A body with neither tag in it passes through unchanged. */
  lemma StripCdataClean(body: string)
    requires !Contains(body, CdataOpen) && !Contains(body, CdataClose)
    ensures StripCdata(body) == body
  {
    RemoveAllAbsent(body, CdataOpen);
    RemoveAllAbsent(body, CdataClose);
  }

  /** Appending the closing tag to a text without an opening tag creates none:
      the last character of an opening tag is '[', which the closing tag lacks. */
  lemma NoOpenBeforeClose(s: string)
    requires !Contains(s, CdataOpen)
    ensures !Contains(s + CdataClose, CdataOpen)
  {
    var t := s + CdataClose;
    forall i: nat | i + |CdataOpen| <= |t|
      ensures !OccursAt(t, CdataOpen, i)
    {
      if i + |CdataOpen| <= |s| {
        assert t[i..i + |CdataOpen|] == s[i..i + |CdataOpen|];
        assert !OccursAt(s, CdataOpen, i);
      } else {
        assert t[i + 8] == CdataClose[i + 8 - |s|];
        assert t[i..i + |CdataOpen|][8] == t[i + 8];
      }
    }
  }

  /** In a text without a closing tag, the only closing tag of s + "]]>" is
      the one appended: none starts before position |s|. */
  lemma NoEarlyClose(s: string)
    requires !Contains(s, CdataClose)
    ensures forall i: nat | i < |s| :: !OccursAt(s + CdataClose, CdataClose, i)
  {
    var t := s + CdataClose;
    forall i: nat | i < |s|
      ensures !OccursAt(t, CdataClose, i)
    {
      if i + |CdataClose| <= |s| {
        assert t[i..i + |CdataClose|] == s[i..i + |CdataClose|];
        assert !OccursAt(s, CdataClose, i);
      } else {
        assert t[i + 2] == CdataClose[i + 2 - |s|];
        assert t[i..i + |CdataClose|][2] == t[i + 2];
      }
    }
  }

  /** A string value wrapped in one CDATA section comes out unwrapped, when
      the value itself holds neither tag. */
  lemma StripCdataWrapped(s: string)
    requires !Contains(s, CdataOpen) && !Contains(s, CdataClose)
    ensures StripCdata(CdataOpen + s + CdataClose) == s
  {
    var body := CdataOpen + s + CdataClose;
    assert OccursAt(body, CdataOpen, 0) by {
      assert body[..|CdataOpen|] == CdataOpen;
    }
    assert body[|CdataOpen|..] == s + CdataClose;
    NoOpenBeforeClose(s);
    RemoveAllAbsent(s + CdataClose, CdataOpen);
    assert RemoveAll(body, CdataOpen) == s + CdataClose;
    NoEarlyClose(s);
    RemoveAllSkips(s + CdataClose, |s|, CdataClose);
    assert (s + CdataClose)[..|s|] == s;
    assert (s + CdataClose)[|s|..] == CdataClose;
    assert RemoveAll(CdataClose, CdataClose) == [] by {
      assert OccursAt(CdataClose, CdataClose, 0);
      assert CdataClose[|CdataClose|..] == [];
    }
    assert s + [] == s;
  }

  /** The body of the round-trip test. */
  lemma StripCdataExample()
    ensures StripCdata("<![CDATA[This is a test]]>") == "This is a test"
  {
    var s := "This is a test";
    forall i: nat | i + |CdataOpen| <= |s|
      ensures !OccursAt(s, CdataOpen, i)
    {
      assert s[i..i + |CdataOpen|][0] == s[i];
    }
    forall i: nat | i + |CdataClose| <= |s|
      ensures !OccursAt(s, CdataClose, i)
    {
      assert s[i..i + |CdataClose|][0] == s[i];
    }
    StripCdataWrapped(s);
    assert CdataOpen + s + CdataClose == "<![CDATA[This is a test]]>";
  }

  /** An opening tag holds no closing tag. */
  lemma OpenHasNoClose()
    ensures !Contains(CdataOpen, CdataClose)
  {
    forall i: nat | i + |CdataClose| <= |CdataOpen|
      ensures !OccursAt(CdataOpen, CdataClose, i)
    {
      assert CdataOpen[i..i + |CdataClose|][2] == CdataOpen[i + 2];
    }
  }

  /** Deletion is a single pass, so removing an opening tag can join its
      neighbours into a new one, which stays in the body: "<![<![CDATA[CDATA["
      becomes "<![CDATA[". */
  lemma StripCdataLeavesJoinedTag()
    ensures StripCdata("<![" + CdataOpen + "CDATA[") == CdataOpen
  {
    var p, q := "<![", "CDATA[";
    var body := p + CdataOpen + q;
    forall i: nat | i < 3
      ensures !OccursAt(body, CdataOpen, i)
    {
      assert body[i..i + |CdataOpen|][3 - i] == body[3];
    }
    assert body[..3] == p && body[3..] == CdataOpen + q;
    RemoveAllSkips(body, 3, CdataOpen);
    assert OccursAt(CdataOpen + q, CdataOpen, 0) by {
      assert (CdataOpen + q)[..|CdataOpen|] == CdataOpen;
    }
    assert (CdataOpen + q)[|CdataOpen|..] == q;
    RemoveAllShort(q, CdataOpen);
    assert p + q == CdataOpen;
    OpenHasNoClose();
    RemoveAllAbsent(CdataOpen, CdataClose);
  }

  /** RoundTrip(req). `inner` and `innerErr` are what the customised inner
      transport answers for the request. The headers are always set first;
      an inner error and a body that cannot be read are returned as they
      are; otherwise the same response is returned with its body replaced
      by the stripped text. */
  method RoundTrip(req: Request, inner: Response?, innerErr: Option<Failure>)
    returns (resp: Response?, err: Option<Failure>)
    requires innerErr.None? ==> inner != null
    modifies req, inner
    ensures req.header == InjectHeaders(old(req.header), req.hostname)
    ensures resp == inner
    ensures innerErr.Some? ==> err == innerErr && (inner != null ==> inner.body == old(inner.body))
    ensures innerErr.None? && old(inner.body.readFailure).Some? ==>
      err == old(inner.body.readFailure) && inner.body == old(inner.body)
    ensures innerErr.None? && old(inner.body.readFailure).None? ==>
      err == None && inner.body == Body(StripCdata(old(inner.body.content)), None)
  {
    req.header := req.header["Accept" := ["*/*"]];
    req.header := req.header["User-Agent" := ["aleks-client"]];
    var host := req.hostname;
    req.header := req.header["Host" := [host]];

    resp, err := inner, innerErr;
    if err.Some? {
      return;
    }

    var body := resp.body.content;
    err := resp.body.readFailure;
    if err.Some? {
      return;
    }
    var bodyStr := body;
    bodyStr := RemoveAll(bodyStr, CdataOpen);
    bodyStr := RemoveAll(bodyStr, CdataClose);
    resp.body := Body(bodyStr, None);
  }
}
