/*
 * Validation errors raised by the entity framework when a flush finds
 * entities that break their field rules, and the multi-line message the
 * ORM facade builds from them:
 *
 *   Property: <name> Error: <message><newline>
 *
 * once per field error, entity result by entity result, error by error.
 * The platform newline is a parameter `nl` of every function here.
 */
module Validation {

  /** One field-level rule violation: the property and the reason. */
  datatype ValidationError = ValidationError(propertyName: string, errorMessage: string)

  /** The validation outcome of one tracked entity: its field errors, in order. */
  datatype EntityValidationResult = EntityValidationResult(validationErrors: seq<ValidationError>)

  /** The exception raised at flush time: the results of every invalid entity. */
  datatype EntityValidationException = EntityValidationException(entityValidationErrors: seq<EntityValidationResult>)

  /** The facade's own exception kind, carrying a readable message and its cause. */
  datatype OrmException = OrmException(message: string, innerException: EntityValidationException)

  datatype Option<T> = None | Some(value: T)

  const PropertyLabel: string := "Property: "
  const ErrorLabel: string := " Error: "

  // ---------------------------------------------------------------------------
  // The message, as a specification
  // ---------------------------------------------------------------------------

  /** The expansion of the format "Property: {0} Error: {1}{2}" for one error. */
  function Segment(e: ValidationError, nl: string): string
  {
    PropertyLabel + e.propertyName + ErrorLabel + e.errorMessage + nl
  }

  /** The segments of a list of errors, in order. */
  function ErrorsText(errors: seq<ValidationError>, nl: string): string
  {
    if errors == [] then "" else Segment(errors[0], nl) + ErrorsText(errors[1..], nl)
  }

  /** The full message: the segments of every result, results in order. */
  function FullErrorText(results: seq<EntityValidationResult>, nl: string): string
  {
    if results == [] then ""
    else ErrorsText(results[0].validationErrors, nl) + FullErrorText(results[1..], nl)
  }

  /** Every error of every result, flattened in visiting order. */
  function AllErrors(results: seq<EntityValidationResult>): seq<ValidationError>
  {
    if results == [] then [] else results[0].validationErrors + AllErrors(results[1..])
  }

  /** The total number of errors, summed over the results. */
  function ErrorCount(results: seq<EntityValidationResult>): nat
  {
    if results == [] then 0 else |results[0].validationErrors| + ErrorCount(results[1..])
  }

  /** The results that hold at least one error, in their order. */
  function WithoutEmpty(results: seq<EntityValidationResult>): (r: seq<EntityValidationResult>)
    ensures |r| <= |results|
    ensures forall k :: 0 <= k < |r| ==> r[k].validationErrors != []
    ensures forall k :: 0 <= k < |r| ==> r[k] in results
    ensures AllErrors(r) == AllErrors(results)
  {
    if results == [] then []
    else
      var rest := WithoutEmpty(results[1..]);
      assert AllErrors(results) == results[0].validationErrors + AllErrors(results[1..]);
      assert forall x :: x in results[1..] ==> x in results;
      if results[0].validationErrors == [] then
        assert results[0].validationErrors + AllErrors(results[1..]) == AllErrors(results[1..]);
        rest
      else
        assert ([results[0]] + rest)[1..] == rest;
        [results[0]] + rest
  }

  /**
   * What each call site does with a validation failure: the message is the
   * full error text and the original exception is kept as the cause.
   */
  function WrapValidationException(exc: EntityValidationException, nl: string): (r: OrmException)
    ensures r.innerException == exc
    ensures r.message == ErrorsText(AllErrors(exc.entityValidationErrors), nl)
    ensures r.message == "" <==> ErrorCount(exc.entityValidationErrors) == 0
  {
    FullErrorTextFlattens(exc.entityValidationErrors, nl);
    EmptyIffNoErrors(exc.entityValidationErrors, nl);
    OrmException(FullErrorText(exc.entityValidationErrors, nl), exc)
  }

  // ---------------------------------------------------------------------------
  // Order, distribution over concatenation, and the flattened view
  // ---------------------------------------------------------------------------

  lemma {:induction false} ErrorsTextAppend(a: seq<ValidationError>, b: seq<ValidationError>, nl: string)
    ensures ErrorsText(a + b, nl) == ErrorsText(a, nl) + ErrorsText(b, nl)
  {
    if a == [] {
      assert a + b == b;
    } else {
      assert (a + b)[1..] == a[1..] + b;
      ErrorsTextAppend(a[1..], b, nl);
    }
  }

  /** Formatting two result lists one after the other equals formatting their concatenation. */
  lemma {:induction false} FullErrorTextAppend(r1: seq<EntityValidationResult>, r2: seq<EntityValidationResult>, nl: string)
    ensures FullErrorText(r1 + r2, nl) == FullErrorText(r1, nl) + FullErrorText(r2, nl)
  {
    if r1 == [] {
      assert r1 + r2 == r2;
    } else {
      assert (r1 + r2)[1..] == r1[1..] + r2;
      FullErrorTextAppend(r1[1..], r2, nl);
    }
  }

  /** The message is the segments of the flattened error list, in that order. */
  lemma {:induction false} FullErrorTextFlattens(results: seq<EntityValidationResult>, nl: string)
    ensures FullErrorText(results, nl) == ErrorsText(AllErrors(results), nl)
  {
    if results != [] {
      FullErrorTextFlattens(results[1..], nl);
      ErrorsTextAppend(results[0].validationErrors, AllErrors(results[1..]), nl);
    }
  }

  /** There are as many flattened errors, hence segments, as errors in all results. */
  lemma {:induction false} AllErrorsCount(results: seq<EntityValidationResult>)
    ensures |AllErrors(results)| == ErrorCount(results)
  {
    if results != [] {
      AllErrorsCount(results[1..]);
    }
  }

  /**
   * Visiting order: error j of result i is at position
   * ErrorCount(results[..i]) + j of the flattened list.
   */
  lemma {:induction false} AllErrorsAt(results: seq<EntityValidationResult>, i: nat, j: nat)
    requires i < |results| && j < |results[i].validationErrors|
    ensures ErrorCount(results[..i]) + j < |AllErrors(results)|
    ensures AllErrors(results)[ErrorCount(results[..i]) + j] == results[i].validationErrors[j]
  {
    AllErrorsCount(results);
    AllErrorsCount(results[1..]);
    if i == 0 {
      assert results[..0] == [];
    } else {
      AllErrorsAt(results[1..], i - 1, j);
      assert results[..i][1..] == results[1..][..i - 1];
      assert results[..i][0] == results[0];
    }
  }

  /** Error j of errors is formatted at the offset where the segments before it end. */
  lemma ErrorsTextAt(errors: seq<ValidationError>, j: nat, nl: string)
    requires j < |errors|
    ensures ErrorsText(errors, nl)
      == ErrorsText(errors[..j], nl) + Segment(errors[j], nl) + ErrorsText(errors[j + 1..], nl)
  {
    assert errors == errors[..j] + ([errors[j]] + errors[j + 1..]);
    ErrorsTextAppend(errors[..j], [errors[j]] + errors[j + 1..], nl);
    ErrorsTextAppend([errors[j]], errors[j + 1..], nl);
    assert ErrorsText([errors[j]], nl) == Segment(errors[j], nl) + ErrorsText([], nl);
  }

  /** One loop step over errors: the first j + 1 errors format as the first j and then error j. */
  lemma ErrorsTextSnoc(errors: seq<ValidationError>, j: nat, nl: string)
    requires j < |errors|
    ensures ErrorsText(errors[..j + 1], nl) == ErrorsText(errors[..j], nl) + Segment(errors[j], nl)
  {
    assert errors[..j + 1] == errors[..j] + [errors[j]];
    ErrorsTextAppend(errors[..j], [errors[j]], nl);
    assert ErrorsText([errors[j]], nl) == Segment(errors[j], nl) + ErrorsText([], nl);
  }

  /** One loop step over results: the first i + 1 results format as the first i and then result i. */
  lemma FullErrorTextSnoc(results: seq<EntityValidationResult>, i: nat, nl: string)
    requires i < |results|
    ensures FullErrorText(results[..i + 1], nl)
         == FullErrorText(results[..i], nl) + ErrorsText(results[i].validationErrors, nl)
  {
    assert results[..i + 1] == results[..i] + [results[i]];
    FullErrorTextAppend(results[..i], [results[i]], nl);
    assert FullErrorText([results[i]], nl) == ErrorsText(results[i].validationErrors, nl) + FullErrorText([], nl);
  }

  /**
   * The segment of error j of result i sits in the message right after the
   * text of every earlier result and every earlier error of result i, and
   * is followed by the text of every later one.
   */
  lemma SegmentInOrder(results: seq<EntityValidationResult>, i: nat, j: nat, nl: string)
    requires i < |results| && j < |results[i].validationErrors|
    ensures var errors := results[i].validationErrors;
      FullErrorText(results, nl)
      == FullErrorText(results[..i], nl)
         + (ErrorsText(errors[..j], nl) + Segment(errors[j], nl) + ErrorsText(errors[j + 1..], nl))
         + FullErrorText(results[i + 1..], nl)
  {
    var errors := results[i].validationErrors;
    var before, after := FullErrorText(results[..i], nl), FullErrorText(results[i + 1..], nl);
    var mid := ErrorsText(errors, nl);
    assert results == results[..i + 1] + results[i + 1..];
    FullErrorTextAppend(results[..i + 1], results[i + 1..], nl);
    FullErrorTextSnoc(results, i, nl);
    assert FullErrorText(results, nl) == before + mid + after;
    ErrorsTextAt(errors, j, nl);
  }

  // ---------------------------------------------------------------------------
  // Empty cases, shape, length and line count
  // ---------------------------------------------------------------------------

  /** The message is empty exactly when there is no error at all. */
  lemma {:induction false} EmptyIffNoErrors(results: seq<EntityValidationResult>, nl: string)
    ensures FullErrorText(results, nl) == "" <==> ErrorCount(results) == 0
  {
    if results != [] {
      EmptyIffNoErrors(results[1..], nl);
      var errors := results[0].validationErrors;
      if errors != [] {
        assert |ErrorsText(errors, nl)| >= |Segment(errors[0], nl)| >= |PropertyLabel|;
      }
    }
  }

  /** With at least one error the message starts with the property label and ends with the newline. */
  lemma NonEmptyShape(results: seq<EntityValidationResult>, nl: string)
    requires ErrorCount(results) > 0
    ensures var text := FullErrorText(results, nl);
      |text| >= |PropertyLabel| + |nl| && text[..|PropertyLabel|] == PropertyLabel && text[|text| - |nl|..] == nl
  {
    FullErrorTextFlattens(results, nl);
    AllErrorsCount(results);
    var all := AllErrors(results);
    var n := |all|;
    var text := ErrorsText(all, nl);
    var first, last := Segment(all[0], nl), Segment(all[n - 1], nl);
    assert text == first + ErrorsText(all[1..], nl);
    assert first[..|PropertyLabel|] == PropertyLabel;
    assert text[..|PropertyLabel|] == first[..|PropertyLabel|];
    ErrorsTextSnoc(all, n - 1, nl);
    assert all[..n] == all;
    assert text == ErrorsText(all[..n - 1], nl) + last;
    assert last[|last| - |nl|..] == nl;
    assert text[|text| - |nl|..] == last[|last| - |nl|..];
  }

  /** An entity result with no errors contributes nothing, wherever it is inserted. */
  lemma InsertEmptyResult(results: seq<EntityValidationResult>, i: nat, nl: string)
    requires i <= |results|
    ensures FullErrorText(results[..i] + [EntityValidationResult([])] + results[i..], nl)
         == FullErrorText(results, nl)
  {
    var empty := EntityValidationResult([]);
    assert results[..i] + [empty] + results[i..] == results[..i] + ([empty] + results[i..]);
    FullErrorTextAppend(results[..i], [empty] + results[i..], nl);
    assert ([empty] + results[i..])[1..] == results[i..];
    assert FullErrorText([empty] + results[i..], nl) == FullErrorText(results[i..], nl);
    FullErrorTextAppend(results[..i], results[i..], nl);
    assert results[..i] + results[i..] == results;
  }

  /** Dropping every result without errors leaves the message unchanged. */
  lemma {:induction false} WithoutEmptyPreserves(results: seq<EntityValidationResult>, nl: string)
    ensures FullErrorText(WithoutEmpty(results), nl) == FullErrorText(results, nl)
  {
    if results != [] {
      WithoutEmptyPreserves(results[1..], nl);
      if results[0].validationErrors != [] {
        FullErrorTextAppend([results[0]], WithoutEmpty(results[1..]), nl);
      }
    }
  }

  /** The length of one segment: ten for the property label, eight for the error label. */
  function SegmentLength(e: ValidationError, nl: string): nat
  {
    10 + |e.propertyName| + 8 + |e.errorMessage| + |nl|
  }

  function SumSegmentLengths(errors: seq<ValidationError>, nl: string): nat
  {
    if errors == [] then 0 else SegmentLength(errors[0], nl) + SumSegmentLengths(errors[1..], nl)
  }

  /** The length of the message is the sum of the segment lengths over all errors. */
  lemma {:induction false} FullErrorTextLength(results: seq<EntityValidationResult>, nl: string)
    ensures |FullErrorText(results, nl)| == SumSegmentLengths(AllErrors(results), nl)
  {
    FullErrorTextFlattens(results, nl);
    ErrorsTextLength(AllErrors(results), nl);
  }

  lemma {:induction false} ErrorsTextLength(errors: seq<ValidationError>, nl: string)
    ensures |ErrorsText(errors, nl)| == SumSegmentLengths(errors, nl)
  {
    if errors != [] {
      ErrorsTextLength(errors[1..], nl);
    }
  }

  /** How often character c occurs in s. */
  function Occurrences(c: char, s: string): nat
  {
    if s == [] then 0 else (if s[0] == c then 1 else 0) + Occurrences(c, s[1..])
  }

  lemma {:induction false} OccurrencesAppend(c: char, a: string, b: string)
    ensures Occurrences(c, a + b) == Occurrences(c, a) + Occurrences(c, b)
  {
    if a == [] {
      assert a + b == b;
    } else {
      assert (a + b)[1..] == a[1..] + b;
      OccurrencesAppend(c, a[1..], b);
    }
  }

  lemma {:induction false} OccurrencesAbsent(c: char, s: string)
    requires c !in s
    ensures Occurrences(c, s) == 0
  {
    if s != [] {
      OccurrencesAbsent(c, s[1..]);
    }
  }

  /** How often character c occurs in the names and messages of the errors. */
  function ContentOccurrences(errors: seq<ValidationError>, c: char): nat
  {
    if errors == [] then 0
    else Occurrences(c, errors[0].propertyName) + Occurrences(c, errors[0].errorMessage)
         + ContentOccurrences(errors[1..], c)
  }

  /** A segment holds character c as often as its newline does, plus its uses in the name and message. */
  lemma SegmentOccurrences(e: ValidationError, c: char, nl: string)
    requires c !in PropertyLabel && c !in ErrorLabel
    ensures Occurrences(c, Segment(e, nl))
         == Occurrences(c, nl) + Occurrences(c, e.propertyName) + Occurrences(c, e.errorMessage)
  {
    var name, msg := e.propertyName, e.errorMessage;
    OccurrencesAbsent(c, PropertyLabel);
    OccurrencesAbsent(c, ErrorLabel);
    OccurrencesAppend(c, PropertyLabel, name);
    OccurrencesAppend(c, PropertyLabel + name, ErrorLabel);
    OccurrencesAppend(c, PropertyLabel + name + ErrorLabel, msg);
    OccurrencesAppend(c, PropertyLabel + name + ErrorLabel + msg, nl);
  }

  /**
   * For a character c that the labels do not use, the text holds the
   * newline's c's once per error, plus those inside names and messages.
   */
  lemma {:induction false} NewlineOccurrences(errors: seq<ValidationError>, c: char, nl: string)
    requires c !in PropertyLabel && c !in ErrorLabel
    ensures Occurrences(c, ErrorsText(errors, nl))
         == |errors| * Occurrences(c, nl) + ContentOccurrences(errors, c)
  {
    if errors != [] {
      var segment, rest := Segment(errors[0], nl), ErrorsText(errors[1..], nl);
      NewlineOccurrences(errors[1..], c, nl);
      SegmentOccurrences(errors[0], c, nl);
      OccurrencesAppend(c, segment, rest);
      MultiplySucc(|errors| - 1, Occurrences(c, nl));
    }
  }

  lemma MultiplySucc(n: nat, k: nat)
    ensures (n + 1) * k == k + n * k
  {
  }

  /**
   * When the newline holds its line-ending character c exactly once and no
   * name or message holds c, the message has exactly one line end per error.
   */
  lemma LineCount(results: seq<EntityValidationResult>, c: char, nl: string)
    requires c !in PropertyLabel && c !in ErrorLabel
    requires Occurrences(c, nl) == 1
    requires forall e :: e in AllErrors(results) ==> c !in e.propertyName && c !in e.errorMessage
    ensures Occurrences(c, FullErrorText(results, nl)) == ErrorCount(results)
  {
    var all := AllErrors(results);
    FullErrorTextFlattens(results, nl);
    AllErrorsCount(results);
    NewlineOccurrences(all, c, nl);
    NoContentOccurrences(all, c);
  }

  /** The Windows newline "\r\n": one line feed per error when names and messages hold none. */
  lemma CrLfLineCount(results: seq<EntityValidationResult>)
    requires forall e :: e in AllErrors(results) ==> '\n' !in e.propertyName && '\n' !in e.errorMessage
    ensures Occurrences('\n', FullErrorText(results, "\r\n")) == ErrorCount(results)
  {
    assert Occurrences('\n', "\r\n") == 1 by {
      assert "\r\n"[1..] == "\n";
      assert "\n"[1..] == "";
    }
    LineCount(results, '\n', "\r\n");
  }

  lemma {:induction false} NoContentOccurrences(errors: seq<ValidationError>, c: char)
    requires forall e :: e in errors ==> c !in e.propertyName && c !in e.errorMessage
    ensures ContentOccurrences(errors, c) == 0
  {
    if errors != [] {
      assert errors[0] in errors;
      OccurrencesAbsent(c, errors[0].propertyName);
      OccurrencesAbsent(c, errors[0].errorMessage);
      NoContentOccurrences(errors[1..], c);
    }
  }

  // ---------------------------------------------------------------------------
  // Reading a segment back: the format loses nothing when the property name
  // cannot be confused with the error label
  // ---------------------------------------------------------------------------

  predicate LabelAt(s: string, i: nat)
  {
    i + |ErrorLabel| <= |s| && s[i..i + |ErrorLabel|] == ErrorLabel
  }

  /** The first position at or after `from` where the error label starts. */
  function FirstLabel(s: string, from: nat): (r: Option<nat>)
    decreases |s| - from
    ensures r.Some? ==> from <= r.value && LabelAt(s, r.value)
    ensures r.Some? ==> forall k :: from <= k < r.value ==> !LabelAt(s, k)
    ensures r.None? ==> forall k :: from <= k ==> !LabelAt(s, k)
  {
    if |s| < from + |ErrorLabel| then None
    else if LabelAt(s, from) then Some(from)
    else FirstLabel(s, from + 1)
  }

  /** The name does not let the error label start before the label that follows it. */
  predicate UnambiguousName(name: string)
  {
    forall k :: 0 <= k < |name| ==> !LabelAt(name + ErrorLabel, k)
  }

  /** Recovers the error from one segment, if the string is one. */
  function ParseSegment(s: string, nl: string): Option<ValidationError>
  {
    if |s| < |PropertyLabel| + |nl| || s[..|PropertyLabel|] != PropertyLabel || s[|s| - |nl|..] != nl then None
    else
      var body := s[|PropertyLabel|..|s| - |nl|];
      match FirstLabel(body, 0)
      case None => None
      case Some(i) => Some(ValidationError(body[..i], body[i + |ErrorLabel|..]))
  }

  /** Every error whose name is unambiguous is read back from its segment. */
  lemma SegmentRoundTrip(e: ValidationError, nl: string)
    requires UnambiguousName(e.propertyName)
    ensures ParseSegment(Segment(e, nl), nl) == Some(e)
  {
    var s := Segment(e, nl);
    var name := e.propertyName;
    var body := name + ErrorLabel + e.errorMessage;
    assert s == PropertyLabel + body + nl;
    assert s[|PropertyLabel|..|s| - |nl|] == body;
    assert s[..|PropertyLabel|] == PropertyLabel;
    assert s[|s| - |nl|..] == nl;
    assert body[|name|..|name| + |ErrorLabel|] == ErrorLabel;
    forall k | 0 <= k < |name|
      ensures !LabelAt(body, k)
    {
      assert !LabelAt(name + ErrorLabel, k);
      assert body[k..k + |ErrorLabel|] == (name + ErrorLabel)[k..k + |ErrorLabel|];
    }
    var r := FirstLabel(body, 0);
    assert LabelAt(body, |name|);
    assert r == Some(|name|);
    assert body[..|name|] == name;
    assert body[|name| + |ErrorLabel|..] == e.errorMessage;
  }

  /** Whatever is read back is an unambiguous error that formats to the same string. */
  lemma ParseSegmentSound(s: string, nl: string, e: ValidationError)
    requires ParseSegment(s, nl) == Some(e)
    ensures UnambiguousName(e.propertyName)
    ensures Segment(e, nl) == s
  {
    var body := s[|PropertyLabel|..|s| - |nl|];
    var i := FirstLabel(body, 0).value;
    var name, msg := body[..i], body[i + |ErrorLabel|..];
    assert e == ValidationError(name, msg);
    assert body[i..i + |ErrorLabel|] == ErrorLabel;
    var head := body[..i + |ErrorLabel|];
    assert head == name + ErrorLabel;
    forall k | 0 <= k < |name|
      ensures !LabelAt(name + ErrorLabel, k)
    {
      assert !LabelAt(body, k);
      assert body[k..k + |ErrorLabel|] == head[k..k + |ErrorLabel|];
    }
    assert body == head + msg;
    assert s == PropertyLabel + body + nl;
    assert PropertyLabel + name + ErrorLabel + msg == PropertyLabel + body;
  }
}
