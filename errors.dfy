/** The error values the retrieval pipeline accumulates, and the small
    Option and Result wrappers used for the outcomes of library calls. */
module Errors {
  import opened Text

  datatype Option<+T> = None | Some(value: T)

  datatype Result<+T, +E> = Ok(value: T) | Err(error: E)

  /** An error produced inside a library the model does not describe (the
      XML-RPC client, the CSV reader, the HTTP transport, net/url), kept
      only as its description. */
  datatype Failure = Failure(detail: string)

  /** The record fields that go through a conversion, in the order
      newPlacementRecord converts them. */
  datatype Field =
    | LastLogin
    | PlacementAssessmentNumber
    | TotalNumberOfPlacementsTaken
    | StartTime
    | EndTime
    | HoursInPlacement
    | PlacementResults

  function FieldOrder(f: Field): (k: nat)
    ensures k < 7
  {
    match f
    case LastLogin => 0
    case PlacementAssessmentNumber => 1
    case TotalNumberOfPlacementsTaken => 2
    case StartTime => 3
    case EndTime => 4
    case HoursInPlacement => 5
    case PlacementResults => 6
  }

  const ClasscodeMessage: string := "Class code does not match required format: "

  datatype Error =
      /** time.Parse rejected a request date under the layout 2006-01-02. */
    | RequestDateError(value: string)
      /** A class code in which no substring matches [A-Z]{5}-[A-Z]{5}. */
    | ClasscodeError(classcode: string)
      /** Header column `index` holds `found` where `wanted` was expected. */
    | HeaderMismatch(index: nat, found: string, wanted: string)
      /** A failed Read of the CSV reader (including a row without 13 fields). */
    | CsvError(cause: Failure)
      /** The conversion of `field` rejected the text `input`; the field tag
          is the model's, the Go error carries only the text. */
    | ConversionError(field: Field, input: string)
      /** A failed XML-RPC call. */
    | CallError(cause: Failure)

  /** The text of the header-mismatch error as placementreport.go formats it:
      the row's value follows "expected:" and the expected title follows "actual:". */
  function HeaderMessage(index: nat, found: string, wanted: string): (m: string)
    ensures var j := |m| - |wanted|; var i := j - 10 - |found|;
      && 47 <= i && m[i - 10..i] == "expected: " && m[i..j - 10] == found
      && m[j - 10..j] == ", actual: " && m[j..] == wanted
    ensures var i := |m| - |wanted| - 10 - |found|;
      m[..32] == "Unexpected header column title ("
      && m[32..i - 14] == Decimal(index) && m[i - 14..i - 10] == ") - "
  {
    var head := "Unexpected header column title (" + Decimal(index) + ") - expected: ";
    var m := head + found + ", actual: " + wanted;
    assert m == head + (found + (", actual: " + wanted));
    assert m[..32] == head[..32];
    assert m[|head| - 10..|head|] == head[|head| - 10..];
    m
  }

  /** The message of the errors built with errors.New; None for errors whose
      text the wrapped library decides. */
  function ErrorText(e: Error): Option<string>
  {
    match e
    case ClasscodeError(code) => Some(ClasscodeMessage + code)
    case HeaderMismatch(i, found, wanted) => Some(HeaderMessage(i, found, wanted))
    case _ => None
  }
}
