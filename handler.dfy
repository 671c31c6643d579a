/** The `POST /add_task` handler: bearer-token authorization, trimming and deadline validation,
    the duplicate check, and the six-column row that is appended to the task log. */
module Handler {
  import opened Wrappers
  import opened Text
  import opened Dedupe

  /** The `Priority` literal type. */
  datatype Priority = MissionCritical | Tactical | CanWait {
    function Name(): string
    {
      match this
      case MissionCritical => "Mission-Critical"
      case Tactical => "Tactical"
      case CanWait => "Can Wait"
    }
  }

  /** The `Assigned` literal type. */
  datatype Assignee = Shannon | Kari | Sonya | Michael | Other {
    function Name(): string
    {
      match this
      case Shannon => "Shannon"
      case Kari => "Kari"
      case Sonya => "Sonya"
      case Michael => "Michael"
      case Other => "Other"
    }
  }

  /** The validated request body `TaskIn`. */
  datatype TaskIn = TaskIn(task: string, priority: Priority, deadline: string, assignedTo: Option<Assignee>)

  /** What the handler answers: `{"ok": true}`, `{"ok": true, "duplicate": true}`, or an
      `HTTPException` with its status code and detail. */
  datatype Response = Logged | Duplicate | HttpError(status: int, detail: string)

  /** What the handler observes outside the request: the clock (`_now()`, in seconds), the
      rendering `isoformat()` and parsing `fromisoformat` of timestamps (`None` wherever parsing
      raises or the result cannot be compared with an aware time), whether reading the sheet
      raised, and the error, if any, raised by `append_row`. */
  datatype Context = Context(now: int, iso: int -> string, parse: string -> Option<int>,
                             readFailed: bool, appendError: Option<string>)

  const MissingToken := "Missing bearer token"
  const InvalidToken := "Invalid token"
  const BadDeadline := "Deadline must be YYYY-MM-DD or empty"

  /** The row `append_row` receives: timestamp, task, assignee (default `Other`), priority,
      deadline and the notes joined by `"; "` (there are none, so the cell is empty). */
  function NewRow(p: TaskIn, now: int, iso: int -> string): Row
  {
    [iso(now), Trim(p.task), Trim(p.assignedTo.GetOr(Other).Name()), p.priority.Name(), Trim(p.deadline), ""]
  }

  /** `add_task`, as a function of the configured `API_KEY`, the `Authorization` header, the body,
      the rows of the sheet and the context. The sheet gains `NewRow(...)` exactly when the
      answer is `Logged`. */
  function Decide(apiKey: string, authorization: Option<string>, p: TaskIn, sheet: seq<Row>,
                  ctx: Context): Response
  {
    if apiKey != "" && (authorization.None? || authorization.value == ""
                        || !StartsWith(authorization.value, "Bearer ")) then
      HttpError(401, MissingToken)
    // The header starts with "Bearer ", so split(" ", 1) always yields a second part.
    else if apiKey != "" && AfterFirstSpace(authorization.value) != Some(apiKey) then
      HttpError(403, InvalidToken)
    else
      var task := Trim(p.task);
      var deadline := Trim(p.deadline);
      if deadline != "" && |deadline| != 10 then
        HttpError(422, BadDeadline)
      else if IsDuplicate(sheet, ctx.readFailed, task, deadline, ctx.now, ctx.parse) then
        Duplicate
      else
        match ctx.appendError
        case Some(e) => HttpError(500, e)
        case None => Logged
  }

  // Reference definitions of each stage, stated independently of Decide.

  /** The request passes authorization: no key is configured, or the header is `Bearer ` followed
      by exactly the key. */
  predicate Authorized(apiKey: string, authorization: Option<string>)
  {
    apiKey == "" ||
    (authorization.Some? && StartsWith(authorization.value, "Bearer ") && authorization.value[7..] == apiKey)
  }

  /** A deadline that, once stripped, is empty or exactly ten characters long. */
  predicate DeadlineShape(deadline: string)
  {
    deadline == "" || |deadline| == 10
  }

  /** What every row this service writes looks like. */
  predicate WellFormedRecord(r: Row)
  {
    |r| == RowWidth
    && Stripped(r[1])
    && r[2] in {"Shannon", "Kari", "Sonya", "Michael", "Other"}
    && r[3] in {"Mission-Critical", "Tactical", "Can Wait"}
    && Stripped(r[4]) && DeadlineShape(r[4])
    && r[5] == ""
  }

  /** With no API key configured, authorization never rejects a request. */
  lemma OpenModeNeverRejects(authorization: Option<string>, p: TaskIn, sheet: seq<Row>, ctx: Context)
    ensures var r := Decide("", authorization, p, sheet, ctx);
      !(r.HttpError? && (r.status == 401 || r.status == 403))
  {
  }

  /** With an API key configured, a missing, empty or non-`Bearer ` header is answered with 401
      before anything else happens. */
  lemma MissingBearerIs401(apiKey: string, authorization: Option<string>, p: TaskIn, sheet: seq<Row>,
                           ctx: Context)
    requires apiKey != ""
    requires authorization.None? || !StartsWith(authorization.value, "Bearer ")
    ensures Decide(apiKey, authorization, p, sheet, ctx) == HttpError(401, MissingToken)
  {
  }

  /** With an API key configured and a `Bearer ` header, the answer is 403 exactly when the text
      after `Bearer ` differs from the key. */
  lemma WrongTokenIs403(apiKey: string, h: string, p: TaskIn, sheet: seq<Row>, ctx: Context)
    requires apiKey != "" && StartsWith(h, "Bearer ")
    ensures var r := Decide(apiKey, Some(h), p, sheet, ctx);
      (r.HttpError? && r.status == 403) <==> h[7..] != apiKey
    ensures h[7..] != apiKey ==> Decide(apiKey, Some(h), p, sheet, ctx) == HttpError(403, InvalidToken)
  {
    BearerToken(h);
  }

  /** The handler's authorization stage agrees with `Authorized`: a request gets past the 401 and
      403 checks exactly when it is authorized. */
  lemma AuthorizationStage(apiKey: string, authorization: Option<string>, p: TaskIn, sheet: seq<Row>,
                           ctx: Context)
    ensures var r := Decide(apiKey, authorization, p, sheet, ctx);
      !(r.HttpError? && (r.status == 401 || r.status == 403)) <==> Authorized(apiKey, authorization)
  {
    if apiKey != "" && authorization.Some? && StartsWith(authorization.value, "Bearer ") {
      BearerToken(authorization.value);
    }
  }

  /** Once authorized, the request is answered with 422 exactly when the stripped deadline is
      non-empty and not ten characters long. */
  lemma BadDeadlineIs422(apiKey: string, authorization: Option<string>, p: TaskIn, sheet: seq<Row>,
                         ctx: Context)
    requires Authorized(apiKey, authorization)
    ensures var r := Decide(apiKey, authorization, p, sheet, ctx);
      (r == HttpError(422, BadDeadline)) <==> !DeadlineShape(Trim(p.deadline))
  {
    if apiKey != "" {
      BearerToken(authorization.value);
    }
  }

  /** Stage order, first half: a request rejected by authorization gets the same answer whatever
      its body, the sheet or the context. */
  lemma AuthRejectionComesFirst(apiKey: string, authorization: Option<string>, p: TaskIn, sheet: seq<Row>,
                                ctx: Context, p': TaskIn, sheet': seq<Row>, ctx': Context)
    requires !Authorized(apiKey, authorization)
    ensures Decide(apiKey, authorization, p, sheet, ctx) == Decide(apiKey, authorization, p', sheet', ctx')
    ensures Decide(apiKey, authorization, p, sheet, ctx).HttpError?
  {
    if authorization.Some? && StartsWith(authorization.value, "Bearer ") {
      BearerToken(authorization.value);
    }
  }

  /** Stage order, second half: an authorized request with a malformed deadline is rejected before
      the sheet is read or written, so its answer does not depend on the sheet or the context. */
  lemma DeadlineRejectionPrecedesSheet(apiKey: string, authorization: Option<string>, p: TaskIn,
                                       sheet: seq<Row>, ctx: Context, sheet': seq<Row>, ctx': Context)
    requires Authorized(apiKey, authorization)
    requires !DeadlineShape(Trim(p.deadline))
    ensures Decide(apiKey, authorization, p, sheet, ctx) == HttpError(422, BadDeadline)
    ensures Decide(apiKey, authorization, p, sheet', ctx') == HttpError(422, BadDeadline)
  {
    BadDeadlineIs422(apiKey, authorization, p, sheet, ctx);
    BadDeadlineIs422(apiKey, authorization, p, sheet', ctx');
  }

  /** The full decision: authorized and well-shaped requests get `Duplicate` exactly when
      `_dedupe` says so, otherwise `Logged` when the append succeeds and 500 with the append's
      error when it does not. */
  lemma AcceptedRequest(apiKey: string, authorization: Option<string>, p: TaskIn, sheet: seq<Row>,
                        ctx: Context)
    requires Authorized(apiKey, authorization) && DeadlineShape(Trim(p.deadline))
    ensures Decide(apiKey, authorization, p, sheet, ctx) ==
      if IsDuplicate(sheet, ctx.readFailed, Trim(p.task), Trim(p.deadline), ctx.now, ctx.parse) then Duplicate
      else if ctx.appendError.Some? then HttpError(500, ctx.appendError.value)
      else Logged
  {
    if apiKey != "" {
      BearerToken(authorization.value);
    }
  }

  /** A row is appended (the answer is `Logged`) exactly when every stage passes: authorized,
      deadline well shaped, no duplicate found and the append call succeeded. */
  lemma LoggedIff(apiKey: string, authorization: Option<string>, p: TaskIn, sheet: seq<Row>, ctx: Context)
    ensures Decide(apiKey, authorization, p, sheet, ctx) == Logged <==>
      Authorized(apiKey, authorization) && DeadlineShape(Trim(p.deadline))
      && !IsDuplicate(sheet, ctx.readFailed, Trim(p.task), Trim(p.deadline), ctx.now, ctx.parse)
      && ctx.appendError.None?
  {
    AuthorizationStage(apiKey, authorization, p, sheet, ctx);
    if Authorized(apiKey, authorization) {
      BadDeadlineIs422(apiKey, authorization, p, sheet, ctx);
      if DeadlineShape(Trim(p.deadline)) {
        AcceptedRequest(apiKey, authorization, p, sheet, ctx);
      }
    }
  }

  /** Assignee names carry no surrounding whitespace, so `.strip()` leaves them as they are. */
  lemma AssigneeNameStripped(a: Assignee)
    ensures Trim(a.Name()) == a.Name()
    ensures a.Name() in {"Shannon", "Kari", "Sonya", "Michael", "Other"}
  {
    var n := a.Name();
    assert Stripped(n) by {
      match a
      case Shannon => assert n[0] == 'S' && n[|n| - 1] == 'n';
      case Kari => assert n[0] == 'K' && n[|n| - 1] == 'i';
      case Sonya => assert n[0] == 'S' && n[|n| - 1] == 'a';
      case Michael => assert n[0] == 'M' && n[|n| - 1] == 'l';
      case Other => assert n[0] == 'O' && n[|n| - 1] == 'r';
    }
    TrimStripped(n);
  }

  /** The row built for a request whose stripped deadline is well shaped carries the stripped task
      and deadline, the assignee (or `Other` when absent), the priority's literal and an empty
      notes cell, and is a well-formed record. */
  lemma NewRowContents(p: TaskIn, now: int, iso: int -> string)
    requires DeadlineShape(Trim(p.deadline))
    ensures var r := NewRow(p, now, iso);
      WellFormedRecord(r) && r[0] == iso(now)
      && r[1] == Trim(p.task) && r[4] == Trim(p.deadline)
      && r[2] == (if p.assignedTo.None? then "Other" else p.assignedTo.value.Name())
      && r[3] == p.priority.Name()
  {
    AssigneeNameStripped(p.assignedTo.GetOr(Other));
    var _, _ := TrimShape(p.task);
    var _, _ := TrimShape(p.deadline);
    assert p.priority.Name() in {"Mission-Critical", "Tactical", "Can Wait"};
  }

  /** Every row the handler appends is a well-formed record. */
  lemma LoggedRowWellFormed(apiKey: string, authorization: Option<string>, p: TaskIn, sheet: seq<Row>,
                            ctx: Context)
    requires Decide(apiKey, authorization, p, sheet, ctx) == Logged
    ensures WellFormedRecord(NewRow(p, ctx.now, ctx.iso))
  {
    LoggedIff(apiKey, authorization, p, sheet, ctx);
    NewRowContents(p, ctx.now, ctx.iso);
  }

  /** The logged row suppresses a later identical request while it is at most 24 hours old,
      provided its timestamp parses back to the time it was written. */
  lemma NewRowSuppresses(p: TaskIn, ctx: Context, ctx': Context)
    requires ctx.iso(ctx.now) != "" && ctx.parse(ReplaceZ(ctx.iso(ctx.now))) == Some(ctx.now)
    requires ctx'.parse == ctx.parse && ctx'.now - ctx.now <= DaySeconds
    ensures Suppresses(NewRow(p, ctx.now, ctx.iso), Trim(p.task), Trim(p.deadline), ctx'.now, ctx'.parse)
  {
  }

  /** Submitting the same request again within 24 hours of a logged one is reported as a duplicate
      and appends nothing: the new row is inside the fetched tail (the sheet already held at least
      its header), its timestamp parses back to the time it was written, and no row of the sheet
      stops the scan early. */
  lemma ResubmissionIsDuplicate(apiKey: string, authorization: Option<string>, p: TaskIn,
                                sheet: seq<Row>, ctx: Context, ctx': Context)
    requires Decide(apiKey, authorization, p, sheet, ctx) == Logged
    requires sheet != []
    requires ctx.iso(ctx.now) != "" && ctx.parse(ReplaceZ(ctx.iso(ctx.now))) == Some(ctx.now)
    requires ctx'.parse == ctx.parse && !ctx'.readFailed && ctx'.now - ctx.now <= DaySeconds
    requires forall k :: 0 <= k < |sheet| ==> !Aborts(sheet[k], Trim(p.task), Trim(p.deadline), ctx.parse)
    ensures Decide(apiKey, authorization, p, sheet + [NewRow(p, ctx.now, ctx.iso)], ctx') == Duplicate
  {
    LoggedIff(apiKey, authorization, p, sheet, ctx);
    var row := NewRow(p, ctx.now, ctx.iso);
    NewRowSuppresses(p, ctx, ctx');
    AppendedRowFound(sheet, row, Trim(p.task), Trim(p.deadline), ctx'.now, ctx'.parse);
    AcceptedRequest(apiKey, authorization, p, sheet + [row], ctx');
  }
}
