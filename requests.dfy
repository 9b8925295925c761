/** The request checks GetPlacementReport runs before any call:
    validateRequestDate on both completion dates and validateClasscodes on
    the class codes. */
module Requests {
  import opened Text
  import opened Errors
  import opened Times

  /** validateRequestDate(value): one error when time.Parse rejects the date
      under the layout 2006-01-02, none otherwise. */
  function ValidateRequestDate(value: string): (errs: seq<Error>)
    ensures |errs| <= 1
    ensures forall e | e in errs :: e == RequestDateError(value)
  {
    if ParseIsoDate(value).None? then [RequestDateError(value)] else []
  }

  /** A request date is accepted exactly when it is the YYYY-MM-DD rendering
      of a calendar date. */
  lemma RequestDateAccepted(value: string)
    ensures ValidateRequestDate(value) == [] <==>
      exists t :: ValidDate(t) && t.hour == 0 && t.minute == 0 && FormatIsoDate(t) == value
  {
    IsoDateExact(value);
  }

  /** The two dates of the request date test: the ISO date passes, the US-style one fails. */
  lemma RequestDateExamples()
    ensures ValidateRequestDate("2019-10-11") == []
    ensures ValidateRequestDate("10/11/2019") == [RequestDateError("10/11/2019")]
  {
    var t := DateTime(2019, 10, 11, 0, 0);
    assert Pad4(2019) == "2019" && Pad2(10) == "10" && Pad2(11) == "11";
    assert FormatIsoDate(t) == "2019-10-11";
    ParseFormatIsoDate(t);
    assert "10/11/2019"[4] == '1';
  }

  predicate AllUpper(s: string) { forall k | 0 <= k < |s| :: IsUpper(s[k]) }

  /** The pattern [A-Z]{5}-[A-Z]{5} matches s at index i. */
  predicate ClasscodeAt(s: string, i: nat)
  {
    i + 11 <= |s| && AllUpper(s[i..i + 5]) && s[i + 5] == '-' && AllUpper(s[i + 6..i + 11])
  }

  /** re.Match: the pattern is not anchored, so any substring may match. */
  predicate MatchesClasscode(s: string)
  {
    exists i: nat | i + 11 <= |s| :: ClasscodeAt(s, i)
  }

  /** The error validateClasscodes reports for one code, if any. */
  function ClasscodeCheck(code: string): seq<Error>
  {
    if MatchesClasscode(code) then [] else [ClasscodeError(code)]
  }

  /** The errors validateClasscodes has collected after the given codes. */
  function ClasscodeErrors(codes: seq<string>): seq<Error>
  {
    if codes == [] then [] else ClasscodeErrors(codes[..|codes| - 1]) + ClasscodeCheck(codes[|codes| - 1])
  }

  /** validateClasscodes(classcodes); the pattern is a constant that compiles,
      so regexp.Compile never fails. */
  method ValidateClasscodes(classcodes: seq<string>) returns (errs: seq<Error>)
    ensures errs == ClasscodeErrors(classcodes)
  {
    errs := [];
    var i := 0;
    while i < |classcodes|
      invariant i <= |classcodes|
      invariant errs == ClasscodeErrors(classcodes[..i])
    {
      var classcode := classcodes[i];
      assert classcodes[..i + 1][..i] == classcodes[..i];
      if !MatchesClasscode(classcode) {
        errs := errs + [ClasscodeError(classcode)];
      }
      i := i + 1;
    }
    assert classcodes[..i] == classcodes;
  }

  /** The errors of a list of codes are those of its parts, in order. */
  lemma {:induction false} ClasscodeErrorsConcat(a: seq<string>, b: seq<string>)
    ensures ClasscodeErrors(a + b) == ClasscodeErrors(a) + ClasscodeErrors(b)
    decreases |b|
  {
    if b == [] {
      assert a + b == a;
    } else {
      var init := b[..|b| - 1];
      assert (a + b)[..|a + b| - 1] == a + init;
      assert (a + b)[|a + b| - 1] == b[|b| - 1];
      ClasscodeErrorsConcat(a, init);
    }
  }

  /** validateClasscodes reports one error per code that no substring of
      matches the pattern, naming that code, and nothing for the others. */
  lemma {:induction false} ClasscodeErrorsExact(codes: seq<string>)
    ensures var errs := ClasscodeErrors(codes);
      && |errs| <= |codes|
      && (forall e | e in errs :: e.ClasscodeError? && e.classcode in codes && !MatchesClasscode(e.classcode))
      && (forall c | c in codes :: ClasscodeError(c) in errs <==> !MatchesClasscode(c))
      && (errs == [] <==> forall c | c in codes :: MatchesClasscode(c))
  {
    if codes != [] {
      var init := codes[..|codes| - 1];
      var last := codes[|codes| - 1];
      ClasscodeErrorsExact(init);
      assert codes == init + [last];
      forall c | c in codes
        ensures ClasscodeError(c) in ClasscodeErrors(codes) <==> !MatchesClasscode(c)
      {
        if c != last {
          assert c in init;
        }
      }
    }
  }

  /** Every class-code error carries the message prefix followed by the code verbatim. */
  lemma ClasscodeMessages(codes: seq<string>)
    ensures forall e | e in ClasscodeErrors(codes) :: e.ClasscodeError? && ErrorText(e) == Some(ClasscodeMessage + e.classcode)
  {
    ClasscodeErrorsExact(codes);
  }

  /** The code of the class-code test passes; an empty code fails with the
      message followed by nothing. */
  lemma ClasscodeExamples()
    ensures ClasscodeErrors(["ABCDE-FGHIJ"]) == []
    ensures ClasscodeErrors([""]) == [ClasscodeError("")]
    ensures ErrorText(ClasscodeError("")) == Some("Class code does not match required format: ")
  {
    assert ClasscodeAt("ABCDE-FGHIJ", 0);
    assert ["ABCDE-FGHIJ"][..0] == [];
    assert [""][..0] == [];
    assert ClasscodeMessage + "" == ClasscodeMessage;
  }

  /** Because the match is unanchored, text around a well-formed code and a
      longer first group are accepted; a code with the dash missing is not. */
  lemma UnanchoredExamples()
    ensures MatchesClasscode("xABCDE-FGHIJx")
    ensures MatchesClasscode("ABCDEF-GHIJK")
    ensures !MatchesClasscode("ABCDEFGHIJK")
  {
    assert ClasscodeAt("xABCDE-FGHIJx", 1);
    var longer := "ABCDEF-GHIJK";
    assert longer[1..6] == "BCDEF" && longer[6] == '-' && longer[7..12] == "GHIJK";
    assert ClasscodeAt(longer, 1);
    forall i: nat | i + 11 <= |"ABCDEFGHIJK"|
      ensures !ClasscodeAt("ABCDEFGHIJK", i)
    {
      assert i == 0;
      assert "ABCDEFGHIJK"[5] != '-';
    }
  }
}
