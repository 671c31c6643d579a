/** The service's state: the rows of the log worksheet, which `add_task` reads for the duplicate
    check and extends with `append_row`. */
module Logger {
  import opened Wrappers
  import opened Text
  import opened Dedupe
  import opened Handler

  class TaskLogger {
    /** The configured `API_KEY`; empty means authorization is off. */
    const apiKey: string
    /** The worksheet's rows, oldest first; the service only ever appends to it. */
    var rows: seq<Row>
    /** How many rows the sheet held before this service wrote to it (the header, at least). */
    ghost const inherited: nat

    /** Rows already present are kept as they were; every row after them was written by
        `AddTask` and is a well-formed record. */
    ghost predicate Valid()
      reads this
    {
      inherited <= |rows| && forall k :: inherited <= k < |rows| ==> WellFormedRecord(rows[k])
    }

    constructor (apiKey: string, rows: seq<Row>)
      ensures Valid()
      ensures this.apiKey == apiKey && this.rows == rows && inherited == |rows|
    {
      this.apiKey := apiKey;
      this.rows := rows;
      inherited := |rows|;
    }

    /** `POST /add_task`. The answer is the one `Decide` specifies; the sheet gains exactly the new
        row when the answer is `Logged` and is left untouched otherwise (on 401, 403, 422, a
        duplicate, or a failed append). */
    method AddTask(p: TaskIn, authorization: Option<string>, ctx: Context) returns (resp: Response)
      requires Valid()
      modifies this
      ensures Valid()
      ensures resp == Decide(apiKey, authorization, p, old(rows), ctx)
      ensures rows == if resp.Logged? then old(rows) + [NewRow(p, ctx.now, ctx.iso)] else old(rows)
    {
      if apiKey != "" {
        if authorization.None? || authorization.value == "" || !StartsWith(authorization.value, "Bearer ") {
          return HttpError(401, MissingToken);
        }
        if AfterFirstSpace(authorization.value) != Some(apiKey) {
          return HttpError(403, InvalidToken);
        }
      }

      var task := Trim(p.task);
      var priority := p.priority.Name();
      var deadline := Trim(p.deadline);
      var assignedTo := Trim(p.assignedTo.GetOr(Other).Name());

      if deadline != "" && |deadline| != 10 {
        return HttpError(422, BadDeadline);
      }

      if IsDuplicate(rows, ctx.readFailed, task, deadline, ctx.now, ctx.parse) {
        return Duplicate;
      }

      match ctx.appendError {
        case Some(e) =>
          return HttpError(500, e);
        case None =>
          // The notes list is always empty, so its "; "-join is the empty string.
          var row := [ctx.iso(ctx.now), task, assignedTo, priority, deadline, ""];
          NewRowContents(p, ctx.now, ctx.iso);
          rows := rows + [row];
          return Logged;
      }
    }
  }
}
