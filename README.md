# SeaverStrike task logger: the `add_task` pipeline in Dafny

SeaverStrike is a small HTTP service. It appends task records to a Google Sheets worksheet. A
record is a six-cell row: timestamp, task, assignee, priority, deadline, notes. This project models
the one piece of the service with real logic, the `POST /add_task` handler in `app.py`:

1. bearer-token authorization against the configured `API_KEY` (401 / 403);
2. stripping the task and deadline, and validating the deadline (422);
3. the duplicate check `_dedupe`: a scan over the last 150 rows of the sheet. It reports a
   duplicate when a row with the same task and deadline was logged within the last 24 hours, and
   it fails open on any error;
4. appending one row (500 when the append call fails).

Files:

- `wrappers.dfy`: `Option`, standing for Python's `Optional`.
- `text.dfy`: the Python `str` operations the handler uses. `strip()` becomes `Trim`, over the
  exact whitespace set of `str.isspace()`. `startswith` becomes `StartsWith`.
  `split(" ", 1)[1]` becomes `AfterFirstSpace`. `replace("Z", "+00:00")` becomes `ReplaceZ`.
- `dedupe.dfy`: `_dedupe` as the recursive function `Scan` over the visited rows, and
  `IsDuplicate` over the whole sheet. It also holds independent row-level definitions
  (`Suppresses`, `Aborts`) and the lemmas that characterise the scan exactly.
- `handler.dfy`: the enumerations `Priority` and `Assignee`, the request `TaskIn`, the
  `Response`, and the specification function `Decide` of the whole handler. It also holds the
  lemmas about authorization, validation, stage order, the appended row and resubmission.
- `logger.dfy`: class `TaskLogger`, whose `rows` field is the worksheet. Its `AddTask` method
  performs the handler step by step. It is proved to answer as `Decide` does, to append exactly
  `NewRow(...)` when the answer is `Logged`, and otherwise to leave the sheet untouched. Its
  invariant `Valid()` says every row it wrote is a well-formed record.

The world outside the handler is an input, bundled in `Handler.Context`:

- the clock `now`, an integer number of seconds;
- `iso`, the rendering `datetime.isoformat()`, an arbitrary function;
- `parse`, the parsing `datetime.fromisoformat`, a function to `Option<int>`. `None` stands for
  every input on which parsing raises, and for a naive datetime that cannot be subtracted from
  the aware `now`;
- `readFailed`: whether `_get_sheet()` or `get_all_values()` raised during the duplicate check;
- `appendError`: the error, if any, raised by `append_row`.

The code is followed where it differs from the prose description of the service:

- The description says the task must be non-empty after trimming. `add_task` does not check
  this, so the model accepts an empty task.
- The duplicate check skips the first row of the 150-row tail as if it were the header. This
  is reproduced literally, even when the sheet holds more than 150 rows and that row is an
  ordinary record (`Dedupe.IgnoresRowsBeforeWindow`).

## Model

| member | source | states |
|---|---|---|
| `Text.TrimShape` | app.py:78-81 | `strip()` keeps one contiguous slice of its argument, with only whitespace removed on either side, and the slice neither starts nor ends with whitespace; together these fix the result |
| `Text.TrimIdempotent` | app.py:78-81 | stripping a stripped string changes nothing |
| `Text.TrimStripped` | app.py:81 | a string with no whitespace at its ends is its own `strip()` |
| `Text.AfterFirstSpaceSpec` | app.py:75 | `split(" ", 1)[1]` exists exactly when the header holds a space, and is the text after the first space |
| `Text.BearerToken` | app.py:73-75 | for a header starting with `Bearer `, the compared token is everything after those seven characters |
| `Text.ReplaceZSpec` | app.py:58 | after `replace("Z", "+00:00")` no `Z` remains, and a string without `Z` is unchanged |
| `Dedupe.Padded` | app.py:55 | `(r + [""] * 6)[:6]` has six cells: the row's own cells where it has them, empty strings after |
| `Dedupe.Examined` | app.py:53-54 | the visited rows are the last min(150, n) rows of the sheet without the first of them, in order |
| `Dedupe.ScanStep` | app.py:55-60 | one loop iteration: a suppressing row answers true, an aborting row answers false, any other row moves on to the next |
| `Dedupe.ScanIff` | app.py:54-62 | the loop answers true exactly when some visited row suppresses and no earlier visited row aborted the scan |
| `Dedupe.IsDuplicateIff` | app.py:51-63 | `_dedupe` is true exactly when the read succeeded and some sheet row at an index past the tail's first row suppresses (same task and deadline, non-empty timestamp that parses, at most 24 hours old, future included), with no aborting row of the tail before it |
| `Dedupe.AppendedRowFound` | app.py:53-60 | a suppressing row appended to a sheet that already holds a row, with no aborting row before it, makes `_dedupe` report a duplicate: the last row is always visited |
| `Dedupe.FailOpen` | app.py:56-62 | a matching row whose non-empty timestamp does not parse makes the answer "no duplicate", whatever later rows hold |
| `Dedupe.IgnoresRowsBeforeWindow` | app.py:53-54 | overwriting any row before the 150-row tail, or the tail's first row, never changes the answer |
| `Dedupe.IgnoresOlderHistory` | app.py:53 | once the sheet has at least 150 rows, prepending older rows never changes the answer |
| `Handler.OpenModeNeverRejects` | app.py:72 | with an empty `API_KEY` the answer is never 401 or 403 |
| `Handler.MissingBearerIs401` | app.py:72-74 | with a key configured, a missing header or one not starting with `Bearer ` is answered 401 "Missing bearer token" |
| `Handler.WrongTokenIs403` | app.py:75-76 | with a key configured and a `Bearer ` header, the answer is 403 exactly when the text after `Bearer ` differs from the key |
| `Handler.AuthorizationStage` | app.py:72-76 | a request gets past 401 and 403 exactly when no key is configured or the header is `Bearer ` followed by the key |
| `Handler.BadDeadlineIs422` | app.py:80-84 | an authorized request is answered 422 exactly when its stripped deadline is non-empty and not ten characters long |
| `Handler.AuthRejectionComesFirst` | app.py:72-84 | an unauthorized request gets an error, the same one whatever its body, the sheet or the context |
| `Handler.DeadlineRejectionPrecedesSheet` | app.py:83-86 | an authorized request with a malformed deadline is answered 422 whatever the sheet holds and whatever the sheet calls would do |
| `Handler.AcceptedRequest` | app.py:86-94 | an authorized, well-shaped request is a duplicate exactly when `_dedupe` says so; otherwise it is logged, or answered 500 with the append's error |
| `Handler.LoggedIff` | app.py:70-94 | a row is appended exactly when the request is authorized, its deadline well shaped, no duplicate is found and the append succeeds |
| `Handler.AssigneeNameStripped` | app.py:12 | every assignee literal is unchanged by `strip()` |
| `Handler.NewRowContents` | app.py:78-91 | the appended row is the timestamp `iso(now)`, the stripped task, the assignee or `Other`, the priority literal, the stripped deadline and an empty notes cell, and is a well-formed record |
| `Handler.LoggedRowWellFormed` | app.py:83-92 | every row the handler appends is a well-formed record |
| `Handler.NewRowSuppresses` | app.py:55-91 | the row written at time `now` suppresses an identical request at any time up to 24 hours later (or earlier), provided its timestamp parses back to `now` |
| `Handler.ResubmissionIsDuplicate` | app.py:53-91 | resubmitting a logged request within 24 hours is answered as a duplicate, provided the sheet held at least a header row, the written timestamp parses back to its time, and no earlier row aborts the scan |
| `Logger.TaskLogger.AddTask` | app.py:70-94 | answers as `Decide` does; the sheet becomes the old rows plus the new row exactly when the answer is `Logged`, and is unchanged on 401, 403, 422, a duplicate or a failed append; every row it wrote stays a well-formed record |

## Left out

- FastAPI routing, the `/health` endpoint (app.py:65-68) and pydantic parsing of the body
  (app.py:15-23): requests arrive already typed, with enum-valued priority and assignee. A body
  the schema rejects never reaches the handler.
- `_get_sheet` (app.py:37-49): credential loading, `json.loads`, oauth2client and gspread, and
  the lazily cached global handle. Its failures appear only as `readFailed` and `appendError`.
- Environment variables (app.py:25-26, 42): `API_KEY` is a constructor argument. `SHEET_NAME`
  only names the remote sheet.
- The ISO-8601 grammar of `fromisoformat` and the text of `isoformat()`. Both are arbitrary
  functions given in `Context`.
- Handler.Decide: uses one clock reading per request. The source reads the clock again for each
  matching row and once more for the appended timestamp.
- Dedupe.Scan: time is whole seconds, so the 24-hour comparison ignores sub-second precision.
- Logger.TaskLogger.AddTask: a failed `append_row` is taken to write nothing.
- Concurrency: two simultaneous requests can both pass the duplicate check before either appends.
  The model is sequential, one request at a time.
