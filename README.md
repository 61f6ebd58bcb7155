# Validation-error message of the XiangJiang Entity Framework facade

The facade wraps Entity Framework. When a flush (`SaveChanges`) raises a
`DbEntityValidationException`, the facade rethrows it as an `OrmException`.
The message of that exception is built by `DbContextHelper.GetFullErrorText`.
A `StringBuilder` starts empty. The method then visits every entity
validation result in order, and every validation error inside it in order.
For each error it appends `Property: <name> Error: <message><newline>`. The
builder's final text is the message.

This project models that formatter in two modules:

- `Validation` (Validation.dfy) holds the data model. It has the validation
  error, the per-entity result, the validation exception and the facade's
  `OrmException`. It also has the specification of the message as recursive
  functions (`Segment`, `ErrorsText`, `FullErrorText`), the flattened error
  list (`AllErrors`, `ErrorCount`), and lemmas about all of these. A parser
  for one segment (`ParseSegment`) serves as the inverse of the segment
  format.
- `DbContextHelper` (DbContextHelper.dfy) holds the imperative formatter. It
  has a `StringBuilder` class with the one `AppendFormat` the source uses.
  `GetFullErrorText` runs two nested loops over one builder and is proved
  equal to `FullErrorText`.

`Environment.NewLine` is a parameter (`nl`, `newLine`) and can be any string.
The lemmas hold for every newline string. The line-count lemma counts a
line-ending character that the two labels do not use and that occurs once in
the newline, such as `'\n'` in `"\n"` or in Windows' `"\r\n"`.

## Model

| member | source | states |
|---|---|---|
| `DbContextHelper.GetFullErrorText` | XiangJiang.Orm.EntityFramework/Helper/DbContextHelper.cs:14-22 | The two nested loops over the builder return exactly the specified message for the exception's results. |
| `DbContextHelper.StringBuilder.constructor` | XiangJiang.Orm.EntityFramework/Helper/DbContextHelper.cs:16 | A new builder holds the empty text. |
| `DbContextHelper.StringBuilder.AppendFormat` | XiangJiang.Orm.EntityFramework/Helper/DbContextHelper.cs:19-20 | Appending puts the expansion of `"Property: {0} Error: {1}{2}"` after the old text and changes nothing else. |
| `DbContextHelper.StringBuilder.ToString` | XiangJiang.Orm.EntityFramework/Helper/DbContextHelper.cs:21 | Reading the builder out gives exactly the text appended so far. |
| `Validation.WrapValidationException` | XiangJiang.Orm.EntityFramework/EfDbContextBase.cs:93-96 | The rethrown exception keeps the original as its cause. Its message is the segments of all errors in visiting order. The message is empty exactly when there are no errors. |
| `Validation.ErrorsTextAppend` | XiangJiang.Orm.EntityFramework/Helper/DbContextHelper.cs:18-20 | Formatting the concatenation of two error lists gives the first list's text followed by the second's. |
| `Validation.FullErrorTextAppend` | XiangJiang.Orm.EntityFramework/Helper/DbContextHelper.cs:16-21 | Formatting the concatenation of two result lists gives the concatenation of their formatted texts. This holds because the builder is only ever appended to. |
| `Validation.FullErrorTextFlattens` | XiangJiang.Orm.EntityFramework/Helper/DbContextHelper.cs:17-20 | The message is the segments of the flattened error list. That list holds results in order, with each result's errors in order. |
| `Validation.AllErrorsCount` | XiangJiang.Orm.EntityFramework/Helper/DbContextHelper.cs:17-18 | The flattened list has as many entries as the summed error count, one segment per error. |
| `Validation.AllErrorsAt` | XiangJiang.Orm.EntityFramework/Helper/DbContextHelper.cs:17-18 | Error j of result i is at index (errors in results before i) + j of the visiting order. |
| `Validation.ErrorsTextAt` | XiangJiang.Orm.EntityFramework/Helper/DbContextHelper.cs:18-20 | In a result's text, error j's segment comes after the segments of errors before j and before the segments of errors after j. |
| `Validation.ErrorsTextSnoc` | XiangJiang.Orm.EntityFramework/Helper/DbContextHelper.cs:18-20 | One pass of the inner loop adds exactly the segment of the next error. |
| `Validation.FullErrorTextSnoc` | XiangJiang.Orm.EntityFramework/Helper/DbContextHelper.cs:17-20 | One pass of the outer loop adds exactly the text of the next result. |
| `Validation.SegmentInOrder` | XiangJiang.Orm.EntityFramework/Helper/DbContextHelper.cs:17-20 | Error j of result i's segment comes after the text of all earlier results and earlier errors, and before the text of all later ones. |
| `Validation.EmptyIffNoErrors` | XiangJiang.Orm.EntityFramework/Helper/DbContextHelper.cs:16-21 | The message is empty if and only if there is no error. This covers no results and results whose error lists are all empty. |
| `Validation.NonEmptyShape` | XiangJiang.Orm.EntityFramework/Helper/DbContextHelper.cs:19-21 | With at least one error, the message starts with `Property: ` and ends with the newline string. |
| `Validation.InsertEmptyResult` | XiangJiang.Orm.EntityFramework/Helper/DbContextHelper.cs:18 | Inserting a result with no errors anywhere leaves the message unchanged. |
| `Validation.WithoutEmpty` | XiangJiang.Orm.EntityFramework/Helper/DbContextHelper.cs:18 | The filtered list keeps only results from the input that have at least one error, and it is no longer than the input. It loses no error: its flattened errors equal the input's, in the same order. |
| `Validation.WithoutEmptyPreserves` | XiangJiang.Orm.EntityFramework/Helper/DbContextHelper.cs:17-18 | Removing every result with no errors leaves the message unchanged. |
| `Validation.ErrorsTextLength` | XiangJiang.Orm.EntityFramework/Helper/DbContextHelper.cs:19-20 | The length of a result's text is the sum over its errors of 10 + name length + 8 + message length + newline length. |
| `Validation.FullErrorTextLength` | XiangJiang.Orm.EntityFramework/Helper/DbContextHelper.cs:19-20 | The message length is that same sum taken over all errors of all results. |
| `Validation.SegmentOccurrences` | XiangJiang.Orm.EntityFramework/Helper/DbContextHelper.cs:19-20 | For a character the labels do not use, a segment holds it as often as the newline does, plus its uses in the name and the message. |
| `Validation.NewlineOccurrences` | XiangJiang.Orm.EntityFramework/Helper/DbContextHelper.cs:19-20 | For a character the labels do not use, a result's text holds it (number of errors) times (its count in the newline), plus its uses in names and messages. |
| `Validation.NoContentOccurrences` | XiangJiang.Orm.EntityFramework/Helper/DbContextHelper.cs:19-20 | If no name or message holds the character, names and messages contribute none of it. |
| `Validation.LineCount` | XiangJiang.Orm.EntityFramework/Helper/DbContextHelper.cs:17-20 | For any newline string that holds its line-ending character exactly once, where the labels and every name and message do not hold that character, the message holds it exactly once per validation error. |
| `Validation.CrLfLineCount` | XiangJiang.Orm.EntityFramework/Helper/DbContextHelper.cs:19-20 | With the Windows newline `"\r\n"`, the message holds one line feed per validation error when no name or message holds a line feed. |
| `Validation.FirstLabel` | XiangJiang.Orm.EntityFramework/Helper/DbContextHelper.cs:19 | The search returns the first position of ` Error: ` at or after the start point, or reports that there is none. |
| `Validation.SegmentRoundTrip` | XiangJiang.Orm.EntityFramework/Helper/DbContextHelper.cs:19-20 | If a property name cannot be confused with the ` Error: ` label, its segment is read back to the same name and message. |
| `Validation.ParseSegmentSound` | XiangJiang.Orm.EntityFramework/Helper/DbContextHelper.cs:19-20 | A string read back as an error is exactly that error's segment, and that error's name is unambiguous. |

## Left out

- The entity operations of `EfDbContextBase` (`Create`, `Delete`, `Update`, `Exist`, `GetByKeyId`, `GetList`, `GetFirstOrDefault`, `Query`) are not modelled. Each one delegates to Entity Framework's change tracker, `SaveChanges`, `Find` or LINQ, and that library is not part of this model. Only their shared `catch` clause is modelled, by `WrapValidationException`.
- Transaction control (`BeginTransaction`, `Commit`, `Rollback`) is not modelled. It depends only on Entity Framework's `CurrentTransaction` object. `Commit`'s unwrapping of SQL exceptions depends on Entity Framework and SqlClient exception types, which are not part of this model.
- The constructor's configuration flags and `SqlQuery` are not modelled. They are Entity Framework runtime settings and a raw-SQL passthrough to the database, which is I/O.
- The argument guards `Checker.Begin().NotNull / NotNullOrEmpty` are not modelled. They come from XiangJiang.Core, which is not part of this model.
- `Environment.NewLine` is a parameter rather than the platform's value.
- Null property names and null messages are not modelled. Names and messages are plain strings, so .NET's formatting of `null` as empty text is not captured.
- `DbContextHelper.StringBuilder.AppendFormat` models only the one fixed format string the source passes. General composite formatting (placeholders, `{{` escapes, format providers) is not modelled.
- Capacity growth and chunking inside .NET's `StringBuilder` are not modelled. The builder is modelled as the text it holds.
- .NET strings are UTF-16 code-unit sequences with a maximum length, and `StringBuilder` throws `ArgumentOutOfRangeException` or `OutOfMemoryException` past it. The model's strings are unbounded sequences of characters. So no overflow error path is modelled, and the lengths in `FullErrorTextLength` and `ErrorsTextLength` count characters, not UTF-16 code units. They differ from .NET's `String.Length` when a name or message holds a character outside the Basic Multilingual Plane. An unpaired surrogate cannot be represented.
