# Detailed error messages and the wrapper exception

A Dafny model of `src/exception.py`, the error-reporting helper of an ML-ops
project. It has two parts:

- `build_detailed_error_message` turns an error into a one-line message. With no
  active traceback the message is `Error: <error>`. With one, it is
  `Error occurred in Python script [<file>] at line [<line>] : <error>`. The file
  and line come from the frame that caught the error (the first traceback
  entry), so the line is the one in that frame's `try` body.
- `CustomException` computes that message once, at construction. It keeps an
  optional context dictionary, with a missing or empty one normalised to `{}`.
  Its string conversion is the message alone when the context is empty. Otherwise
  it is the message followed by ` | context=<dict>`.

Files:

- `wrappers.dfy`: the `Option` datatype.
- `decimal.dfy`: how a line number is shown (`NatToString`) and its inverse (`DigitsToNat`).
- `dict_display.dfy`: how a dictionary is shown: `{k: v, ...}` in insertion order.
- `exception.dfy`: the message builder, its inverse `ReadLocation`, and the `CustomException` class.

The interpreter's traceback (`sys.exc_info()`) becomes an explicit
`Option<Location>` argument. An error object is given by its text, `str(error)`.

The partner of the message builder is `ReadLocation`. Given the error text, it
reads the location back from a message. The round trip is proved
(`ReadLocationInverts`), so the message determines both the file name and the
line number. Without the error text it does not:
`LocationAmbiguousWithoutErrorText` exhibits two different (error, location)
pairs with the same message.

String conversion (`__str__`) is a Dafny function whose frame is the two fields
`context` and `errorMessage`. So it depends on nothing else, changes no field, and
calling it twice on the same state gives the same string.

## Model

| member | source | states |
|---|---|---|
| `Exception.BuildDetailedErrorMessage` | src/exception.py:8-35 | The message starts with `Error`, ends with the error text and is longer than it, so it is never empty. It starts with `Error: ` exactly when no location is given. Without a location it is exactly `Error: ` + text. With one it is exactly the detailed form, with file and line between brackets. |
| `Exception.ReadLocationInverts` | src/exception.py:32-35 | Reading the location back from a built message, given the error text, returns the location it was built with. This holds for the plain form (no location) and for the file name and line number of the detailed form. |
| `Exception.MessageDeterminesLocation` | src/exception.py:18-35 | For a fixed error text, two messages that are equal come from the same location (both present or both absent, same file, same line). |
| `Exception.MessageDeterminesErrorText` | src/exception.py:30-35 | For a fixed location, two messages that are equal come from the same error text. |
| `Exception.LocationAmbiguousWithoutErrorText` | src/exception.py:35 | A file name containing `] at line [` gives two different (error text, location) pairs the same detailed message. |
| `Exception.DivisionByZeroScenario` | src/exception.py:32-35 | A `division by zero` error caught at line 42 of `calc.py` gives exactly `Error occurred in Python script [calc.py] at line [42] : division by zero`. |
| `Decimal.NatToString` | src/exception.py:35 | The line number is shown as a non-empty string of decimal digits. It has no leading zero unless the number is 0. |
| `Decimal.NatToStringRoundTrip` | src/exception.py:33-35 | Reading the shown line number back as decimal gives the original number. |
| `Decimal.NatToStringInjective` | src/exception.py:33-35 | Different line numbers are shown differently. |
| `DictDisplay.RenderContext` | src/exception.py:63 | The shown dictionary is enclosed in `{` and `}`. It is `{}` exactly when the dictionary is empty. |
| `DictDisplay.RenderContextShowsEntry` | src/exception.py:63 | For every item of the dictionary, `key: value` appears as a contiguous piece of the shown dictionary. |
| `Exception.CustomException.constructor` | src/exception.py:47-56 | `args` is the error text alone. The context is `[]` when it is omitted (`None`) or empty; otherwise it is the given dictionary. The message is the builder's result for the error text and the traceback active at construction. The object invariant `Valid()` holds. |
| `Exception.CustomException.ToString` | src/exception.py:58-64 | The rendered text starts with the message. It equals the message exactly when the context is empty. With a non-empty context it is the message + `CONTEXT_TAG` (space, bar, space, `context=`) + the shown dictionary. It reads only `errorMessage` and `context` and changes no field. |
| `Exception.ToStringDescribesError` | src/exception.py:53-64 | For a valid exception, the rendered text starts with `Error`, so it is never empty. The location it was built with can be read back from its message. With an empty context the text ends with the wrapped error's text. |
| `Exception.ContextInclusionLaw` | src/exception.py:55-64 | For two exceptions with the same message, the second having an empty context: the first renders as the second when its own context is empty. Otherwise it renders as the second followed by `CONTEXT_TAG` and its shown dictionary. Omitting the context and passing `{}` therefore render the same. |

## Left out

- Reading the traceback (`sys.exc_info()`, `tb_frame.f_code.co_filename`, `tb_lineno`) is interpreter state behind a foreign call. It is the `Option<Location>` argument instead, so the rule that the helper be called inside the `except` block, on the same thread, no longer applies.
- `str(error)` of an arbitrary exception object is not modelled; the error is given by its text.
- The `repr` of each dictionary key and value is not modelled. Each item carries the display text of its key and of its value. Python's rule that equal keys collapse into one item is not enforced on that list.
- Inheritance from `Exception` is not modelled, nor raising and catching. Only the `args` that `super().__init__(str(error))` stores is kept, as a field.
- Aliasing of `context` is not modelled. A non-empty caller dictionary is stored by reference, so the caller's later mutations show in the rendering; here the context is a value. The field can still be reassigned.
- The second, logging-based variant of this helper is not part of this model. Neither is any logging collaborator.
- Line numbers are unbounded naturals. Python's `int` is unbounded too, and a traceback line number is never negative.
