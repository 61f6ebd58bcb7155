/*
 * The validation-error formatter of the ORM facade: a string builder is
 * created empty and, for every entity result and every error in it, gets
 * one "Property: <name> Error: <message><newline>" segment appended;
 * what it holds at the end is the message.
 */
module DbContextHelper {
  import opened Validation

  /** A growable text buffer that is only ever appended to. */
  class StringBuilder {
    var content: string

    constructor ()
      ensures content == ""
    {
      content := "";
    }

    /** Appends the expansion of the format "Property: {0} Error: {1}{2}". */
    method AppendFormat(propertyName: string, errorMessage: string, newLine: string)
      modifies this
      ensures content == old(content) + (PropertyLabel + propertyName + ErrorLabel + errorMessage + newLine)
    {
      content := content + (PropertyLabel + propertyName + ErrorLabel + errorMessage + newLine);
    }

    /** The text appended so far. */
    function ToString(): (s: string)
      reads this
      ensures s == content
    {
      content
    }
  }

  /** The message for a validation exception, built by two nested loops over one builder. */
  method GetFullErrorText(exc: EntityValidationException, newLine: string) returns (text: string)
    ensures text == FullErrorText(exc.entityValidationErrors, newLine)
  {
    var builder := new StringBuilder();
    var results := exc.entityValidationErrors;
    for i := 0 to |results|
      invariant builder.content == FullErrorText(results[..i], newLine)
    {
      var errors := results[i].validationErrors;
      ghost var done := builder.content;
      for j := 0 to |errors|
        invariant builder.content == done + ErrorsText(errors[..j], newLine)
      {
        var error := errors[j];
        ghost var before := builder.content;
        builder.AppendFormat(error.propertyName, error.errorMessage, newLine);
        ErrorsTextSnoc(errors, j, newLine);
        assert builder.content == before + Segment(error, newLine);
      }
      assert errors[..|errors|] == errors;
      FullErrorTextSnoc(results, i, newLine);
    }
    assert results[..|results|] == results;
    text := builder.ToString();
  }
}
