# Sensor dashboard handler: row shaping and timestamp normalising

The Flask application in `ECS-FARGATE/Application-Files/Flask/v3/app.py` serves one page. Its handler `index()` works in five steps:

1. It asks the time-series service for its endpoints and takes the first address.
2. It sends a fixed query for the ten newest sensor rows to that endpoint.
3. It turns every returned row into a record keyed by six column names:
   - `DeviceId` and `MeasureName` are copied as they are;
   - `Time` is re-printed without its fraction of a second;
   - `Temperature`, `Humidity` and `AirQuality` become numbers;
   - a cell without a scalar becomes `None`.
4. It renders the records.
5. If anything raises on the way, it replies with the text `An error occurred: ` followed by the exception's message, and shows no table.

This project models steps 1 to 3 and 5 in Dafny and proves what they promise. For step 4, the reply carries the records the template would receive. Renderer, service and logging calls are left out; see below.

The files:

- `results.dfy`: the `Option` and `Result` types.
- `matcher.dfy`: the part of Python's regular-expression matching that `datetime.strptime` relies on. CPython's `_strptime` compiles the format into:
  - groups of fixed-width alternatives, tried left to right;
  - greedy repetitions (`\s+`, `[0-9]{1,6}`);
  - literal characters.

  `re.match` then returns the first path in backtracking order. It is anchored at the start of the input only. `Match` is that search. It is proved sound and complete with respect to `Path` (a way of matching), and proved to return the first path.
- `timestamp.dfy`: models `datetime.strptime(v, '%Y-%m-%d %H:%M:%S.%f000000').strftime('%Y-%m-%d %H:%M:%S')`, with the following parts:
  - the regular expression each directive compiles to;
  - the "unconverted data remains" check;
  - the checks of the `date` and `datetime` constructors, in their order: year 0, day of month, second 60 and 61;
  - the message text of each `ValueError`, as CPython 3.12 words it;
  - the printer.
- `shaping.dfy`: covers:
  - the cell, value and record types;
  - the per-cell rule, as functions `ShapeCell`, `ShapeRow` and `Shape`;
  - the handler's two nested loops, as the method `ShapeRows`, proved equal to `Shape`.

  The records are maps keyed by a `Column` enumeration; `Name` gives the text of each key. The number conversion `round(float(..), 3)` is a parameter `measure`, a partial function onto an abstract number type. The stamp conversion is a parameter `time`. The handler passes `Timestamp.Reformat` for it, and the stamp properties are proved for that instance.
- `handler.dfy`: covers:
  - the first-endpoint pick;
  - the endpoint URL and the query text;
  - the `try`/`except` envelope, as the function `Fetch` and the reply `Respond`;
  - the method `Index`, which runs these steps in order and is proved equal to `Respond(Fetch(..))`.

  The two service calls are inputs: the discovered addresses (or the message of the exception that call raised), and a query function from URL and query text to rows (or a message).

Two consequences of the code that are easy to miss:

- Line 39 accepts a fraction only when it has 7 to 12 digits and ends in `000000`. `%f` takes one to six digits, and the literal `000000` must then follow and end the text.
  - A nine-digit fraction whose last six digits are not all zero, such as `2024-01-01 10:00:00.123456000`, is rejected. `Timestamp.RejectsMicrosecondStamp` proves this for every canonical date and time.
  - `…10:00:00.123456000000` is accepted (`Timestamp.AcceptsTwelveDigitFraction`).
- The loop raises `IndexError` for a seventh cell even when that cell has no scalar, because line 43 also indexes `column_names[i]`.

## Model

| member | source | states |
|---|---|---|
| Handler.Index | ECS-FARGATE/Application-Files/Flask/v3/app.py:17-52 | the handler run step by step replies exactly as the envelope over discovery, query and shaping prescribes |
| Handler.NoEndpointNoQuery | ECS-FARGATE/Application-Files/Flask/v3/app.py:13-14 | with no endpoint discovered, the reply is the IndexError's error text, whatever the query would return |
| Handler.OnlyFirstEndpointQueried | ECS-FARGATE/Application-Files/Flask/v3/app.py:20-24 | the reply depends on the query only through the request to the first address with the fixed query text |
| Handler.PageExactly | ECS-FARGATE/Application-Files/Flask/v3/app.py:18-52 | a page is sent if and only if discovery returned an address, the query to the first one returned rows, and every row shapes; any other reply is `An error occurred: ` followed by a message |
| Handler.PageHoldsEveryRow | ECS-FARGATE/Application-Files/Flask/v3/app.py:24-49 | a rendered page holds one record per returned row, in order, each the shaping of its row |
| Handler.ShapingFailureReply | ECS-FARGATE/Application-Files/Flask/v3/app.py:31-52 | when shaping fails, the reply is the error text of the first failing cell of the first failing row, and every earlier row and cell was shaped |
| Handler.BadCellReply | ECS-FARGATE/Application-Files/Flask/v3/app.py:35-39 | one cell that raises, in any row, makes the reply the error text |
| Handler.LongRowReply | ECS-FARGATE/Application-Files/Flask/v3/app.py:35-37 | a returned row with more than six cells makes the reply the error text |
| Shaping.ShapeRows | ECS-FARGATE/Application-Files/Flask/v3/app.py:29-44 | the nested loops return exactly the records of `Shape`, or its exception, leaving no partial result |
| Shaping.ShapeInOrder | ECS-FARGATE/Application-Files/Flask/v3/app.py:29-31 | on success, one record per row, in row order, record k being the shaping of row k |
| Shaping.ShapeSucceeds | ECS-FARGATE/Application-Files/Flask/v3/app.py:31-44 | the step succeeds if and only if every row does |
| Shaping.ShapeFailure | ECS-FARGATE/Application-Files/Flask/v3/app.py:31-44 | a failing step raises the exception of its first failing row, and all rows before it shape |
| Shaping.RowSucceeds | ECS-FARGATE/Application-Files/Flask/v3/app.py:33-43 | a row shapes if and only if each of its cells does |
| Shaping.RowFailure | ECS-FARGATE/Application-Files/Flask/v3/app.py:33-43 | a failing row raises the exception of its first failing cell, and all cells before it shape |
| Shaping.RowContents | ECS-FARGATE/Application-Files/Flask/v3/app.py:30-43 | a shaped row of n cells has exactly the first n column names as keys, and under `column_names[i]` the value of cell i |
| Shaping.RowValues | ECS-FARGATE/Application-Files/Flask/v3/app.py:34-43 | per column: `None` for a cell without a scalar; the scalar unchanged under `DeviceId` and `MeasureName`; the converted stamp under `Time`; the converted number under the measures |
| Shaping.RowTime | ECS-FARGATE/Application-Files/Flask/v3/app.py:37-39 | with the handler's conversion, `Time` holds 19 characters and no `.`, and the scalar had a `.` followed by a well-formed fraction |
| Shaping.TimeCellCanonical | ECS-FARGATE/Application-Files/Flask/v3/app.py:37-39 | the `Time` cell of a valid canonical stamp with a well-formed fraction stores exactly its first 19 characters |
| Shaping.CellFailures | ECS-FARGATE/Application-Files/Flask/v3/app.py:35-43 | a cell raises if and only if it is past the sixth column, or is a `Time` scalar the stamp conversion refuses, or is a measure scalar the number conversion refuses; each with that exception |
| Shaping.CellFailureAborts | ECS-FARGATE/Application-Files/Flask/v3/app.py:31-44 | one failing cell anywhere aborts the whole step |
| Shaping.RowTooLong | ECS-FARGATE/Application-Files/Flask/v3/app.py:35-37 | a row with more than six cells raises, and raises IndexError when its first six cells shape |
| Shaping.LongRowAborts | ECS-FARGATE/Application-Files/Flask/v3/app.py:31-37 | one row with more than six cells aborts the whole step |
| Shaping.NameInjective | ECS-FARGATE/Application-Files/Flask/v3/app.py:30 | the six column names are pairwise different, so keying by column is keying by name |
| Timestamp.ReformatCanonical | ECS-FARGATE/Application-Files/Flask/v3/app.py:39 | a canonical `YYYY-MM-DD HH:MM:SS` head, `.`, and one to six digits followed by `000000` is re-printed as the head, or fails exactly as the calendar checks say |
| Timestamp.ReformatNeedsFraction | ECS-FARGATE/Application-Files/Flask/v3/app.py:39 | after a canonical head and `.`, only one to six digits followed by exactly `000000` and nothing else are accepted |
| Timestamp.ReformatShape | ECS-FARGATE/Application-Files/Flask/v3/app.py:39 | every accepted input holds a `.` followed by a well-formed fraction, and the stored text is 19 characters with no `.` |
| Timestamp.ReformatRejectsTrailing | ECS-FARGATE/Application-Files/Flask/v3/app.py:39 | a character other than `0` at the end makes the parse fail: nothing may follow the literal zeros |
| Timestamp.AcceptsMillisecondStamp | ECS-FARGATE/Application-Files/Flask/v3/app.py:39 | `….123000000` is accepted, with the same result as the calendar check of the head |
| Timestamp.AcceptsTwelveDigitFraction | ECS-FARGATE/Application-Files/Flask/v3/app.py:39 | `….123456000000` is accepted for every canonical head, with the result of its calendar check: six significant digits pass when six zeros follow |
| Timestamp.RejectsMicrosecondStamp | ECS-FARGATE/Application-Files/Flask/v3/app.py:39 | `….123456000` is rejected for every canonical head |
| Timestamp.RejectsThirtiethOfFebruary | ECS-FARGATE/Application-Files/Flask/v3/app.py:39 | `2024-02-30 10:00:00.123000000` fails with "day is out of range for month" |
| Timestamp.ThirtiethOfFebruary | ECS-FARGATE/Application-Files/Flask/v3/app.py:39 | `2024-02-30 10:00:00` has the canonical shape but fails the day check |
| Timestamp.CanonicalMatch | ECS-FARGATE/Application-Files/Flask/v3/app.py:39 | on a canonical stamp the compiled format matches with each field at its fixed width, `%f` backtracking to the width that leaves six zeros |
| Timestamp.PrintHead | ECS-FARGATE/Application-Files/Flask/v3/app.py:39 | printing the fields parsed from a canonical head gives the head back |
| Timestamp.ReprPlain | ECS-FARGATE/Application-Files/Flask/v3/app.py:39 | in the "does not match format" message, printable input without quotes or backslashes appears as itself in single quotes |
| Matcher.MatchSound | ECS-FARGATE/Application-Files/Flask/v3/app.py:39 | what the search returns is a way of matching the pattern |
| Matcher.MatchComplete | ECS-FARGATE/Application-Files/Flask/v3/app.py:39 | whenever some way of matching exists, the search finds one |
| Matcher.FirstMatchDown | ECS-FARGATE/Application-Files/Flask/v3/app.py:39 | a greedy repetition settles on the longest width from which the rest matches |
| Matcher.LiteralMatch | ECS-FARGATE/Application-Files/Flask/v3/app.py:39 | literal format text matches exactly when the input holds that text |

## Left out

- The service calls `describe_endpoints` and `query`, and the construction of both clients, are left out because they are network I/O. The model takes their results as inputs. It also takes as input the message of any exception they raise, including a `KeyError` on a malformed response.
- `round(float(..), 3)` is left out because it is floating point. It is the partial function `measure`, and no rounding facts are proved.
- `logging.info` and `logging.error` are left out because they are side effects with no bearing on the reply.
- `render_template`, the route decorator and `app.run` are left out because they are framework wiring. The HTML template is not part of this model. The reply `Page` carries the records the template would receive.
- Handler.Respond: always sends `Page` once shaping succeeds. In the source `render_template` (line 49) runs inside the `try`, so an exception while rendering would also become `An error occurred: …`; the model has no rendering step that can fail.
- Shaping.Shape: a row without a `'Data'` entry (line 33) is not modelled. The source raises `KeyError` at that row, in row order, after the earlier rows were shaped. The model can only express a malformed response as the query call itself failing, so for such a row placed after a row with a bad `Time` the model replies with the `KeyError` text, where the source replies with the `Time` error.
- The module-level client and its shadowing by the per-request client are left out because they are process-wide client state.
- Shaping.Record: a map, so it does not keep the insertion order of the Python `dict`.
- Matcher.In: `\d` is modelled as the ASCII digits only. Python's `\d` in a `str` pattern also accepts other Unicode decimal digits.
- Timestamp.Strftime: `%Y` for a year below 1000 is printed zero-padded to four digits. CPython 3.12 on Linux with glibc passes `%Y` to the C library and prints such a year without padding; some other platforms and releases pad it. Years from 1000 on print the same either way.
- Timestamp.Message: the error texts are those of CPython 3.12 (`_strptime` and the C `datetime` constructors); other releases word some of them differently, for instance the day-out-of-range message.
- Timestamp.Repr: characters outside ASCII are copied unescaped. Python escapes the non-printable ones.
- Timestamp.Fields: reads each field's digits through `Slice`, which falls back to the empty text for bounds that do not fit. That case never arises on a match.
