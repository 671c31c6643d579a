/** The duplicate check `_dedupe`: a scan over the most recent rows of the sheet that reports a
    duplicate when a row with the same task and deadline was logged at most 24 hours ago, and
    that fails open (answers "no duplicate") whenever reading or parsing goes wrong. */
module Dedupe {
  import opened Wrappers
  import opened Text

  /** One spreadsheet row: its cells as text, oldest row first in the sheet. */
  type Row = seq<string>

  /** How many of the most recent rows the check fetches (`[-150:]`). */
  const TailSize: nat := 150
  /** Columns each row is padded or cut to before unpacking. */
  const RowWidth: nat := 6
  /** The recency window, `timedelta(hours=24)`, in seconds. */
  const DaySeconds: int := 24 * 60 * 60

  /** `(r + [""] * 6)[:6]`: short rows are padded with empty cells, long rows cut. */
  function Padded(r: Row): (p: Row)
    ensures |p| == RowWidth
    ensures forall k :: 0 <= k < RowWidth ==> p[k] == (if k < |r| then r[k] else "")
  {
    (r + seq(RowWidth, _ => ""))[..RowWidth]
  }

  /** Index in the sheet of the first of the fetched rows. */
  function TailStart(sheet: seq<Row>): nat
  {
    if |sheet| <= TailSize then 0 else |sheet| - TailSize
  }

  /** `get_all_values()[-150:][1:]`: the rows the loop visits. The first fetched row is skipped as
      if it were the header, whether or not it is. */
  function Examined(sheet: seq<Row>): (rows: seq<Row>)
    ensures |rows| == |sheet| - TailStart(sheet) - (if sheet == [] then 0 else 1)
    ensures forall i :: 0 <= i < |rows| ==> rows[i] == sheet[TailStart(sheet) + 1 + i]
  {
    var tail := sheet[TailStart(sheet)..];
    if tail == [] then [] else tail[1..]
  }

  /** The loop of `_dedupe`, row by row. A matching row whose non-empty timestamp does not parse
      makes `fromisoformat` raise; the `except` clause then answers `False` for the whole scan. */
  function Scan(rows: seq<Row>, task: string, deadline: string, now: int,
                parse: string -> Option<int>): bool
  {
    if rows == [] then false
    else
      var p := Padded(rows[0]);
      var ts, t, d := p[0], p[1], p[4];
      if t == task && d == deadline && ts != "" then
        match parse(ReplaceZ(ts))
        case None => false
        case Some(dt) => if now - dt <= DaySeconds then true else Scan(rows[1..], task, deadline, now, parse)
      else Scan(rows[1..], task, deadline, now, parse)
  }

  /** `_dedupe(task, deadline)`; `readFailed` stands for `_get_sheet()` or `get_all_values()`
      raising, which the `except` clause also turns into `False`. */
  function IsDuplicate(sheet: seq<Row>, readFailed: bool, task: string, deadline: string, now: int,
                       parse: string -> Option<int>): bool
  {
    !readFailed && Scan(Examined(sheet), task, deadline, now, parse)
  }

  // Row-level reference definitions, written from the columns rather than from the loop.

  /** Column 1 (task) and column 4 (deadline) of the padded row equal the request's. */
  predicate SameTask(r: Row, task: string, deadline: string)
  {
    (if 1 < |r| then r[1] else "") == task && (if 4 < |r| then r[4] else "") == deadline
  }

  /** The row's timestamp cell, column 0 of the padded row. */
  function Stamp(r: Row): string
  {
    if 0 < |r| then r[0] else ""
  }

  /** The row is a recent duplicate: same task and deadline, a timestamp that parses, and at most
      24 hours old (a timestamp in the future also counts). */
  predicate Suppresses(r: Row, task: string, deadline: string, now: int, parse: string -> Option<int>)
  {
    SameTask(r, task, deadline) && Stamp(r) != ""
    && parse(ReplaceZ(Stamp(r))).Some? && now - parse(ReplaceZ(Stamp(r))).value <= DaySeconds
  }

  /** The row stops the scan with "no duplicate": same task and deadline, but a non-empty
      timestamp that does not parse. */
  predicate Aborts(r: Row, task: string, deadline: string, parse: string -> Option<int>)
  {
    SameTask(r, task, deadline) && Stamp(r) != "" && parse(ReplaceZ(Stamp(r))).None?
  }

  /** Some row of `rows` suppresses and no row before it aborts the scan. */
  ghost predicate FoundBeforeAbort(rows: seq<Row>, task: string, deadline: string, now: int,
                                   parse: string -> Option<int>)
  {
    exists i :: 0 <= i < |rows| && Suppresses(rows[i], task, deadline, now, parse)
      && forall j :: 0 <= j < i ==> !Aborts(rows[j], task, deadline, parse)
  }

  /** One iteration of the loop, in terms of the row-level definitions. */
  lemma ScanStep(rows: seq<Row>, task: string, deadline: string, now: int,
                 parse: string -> Option<int>)
    requires rows != []
    ensures Scan(rows, task, deadline, now, parse) ==
      if Suppresses(rows[0], task, deadline, now, parse) then true
      else if Aborts(rows[0], task, deadline, parse) then false
      else Scan(rows[1..], task, deadline, now, parse)
  {
    var p := Padded(rows[0]);
    assert p[0] == Stamp(rows[0]) && p[1] == (if 1 < |rows[0]| then rows[0][1] else "");
    assert p[4] == (if 4 < |rows[0]| then rows[0][4] else "");
  }

  /** A suppressing row after a non-aborting first row is found in the whole sequence. */
  lemma FoundFromTail(rows: seq<Row>, task: string, deadline: string, now: int,
                      parse: string -> Option<int>)
    requires rows != [] && !Aborts(rows[0], task, deadline, parse)
    requires FoundBeforeAbort(rows[1..], task, deadline, now, parse)
    ensures FoundBeforeAbort(rows, task, deadline, now, parse)
  {
    var tl := rows[1..];
    var i :| 0 <= i < |tl| && Suppresses(tl[i], task, deadline, now, parse)
      && forall j :: 0 <= j < i ==> !Aborts(tl[j], task, deadline, parse);
    assert rows[i + 1] == tl[i];
    forall j | 0 <= j < i + 1 ensures !Aborts(rows[j], task, deadline, parse) {
      if j > 0 { assert rows[j] == tl[j - 1]; }
    }
  }

  /** When the first row does not suppress, a find in the whole sequence lies after it. */
  lemma TailFromFound(rows: seq<Row>, task: string, deadline: string, now: int,
                      parse: string -> Option<int>)
    requires rows != [] && !Suppresses(rows[0], task, deadline, now, parse)
    requires FoundBeforeAbort(rows, task, deadline, now, parse)
    ensures !Aborts(rows[0], task, deadline, parse) && FoundBeforeAbort(rows[1..], task, deadline, now, parse)
  {
    var tl := rows[1..];
    var i :| 0 <= i < |rows| && Suppresses(rows[i], task, deadline, now, parse)
      && forall j :: 0 <= j < i ==> !Aborts(rows[j], task, deadline, parse);
    assert i > 0;
    assert tl[i - 1] == rows[i];
    forall j | 0 <= j < i - 1 ensures !Aborts(tl[j], task, deadline, parse) {
      assert tl[j] == rows[j + 1];
    }
  }

  /** The same unfolding for the reference definition. */
  lemma FoundStep(rows: seq<Row>, task: string, deadline: string, now: int,
                  parse: string -> Option<int>)
    requires rows != []
    ensures FoundBeforeAbort(rows, task, deadline, now, parse) <==>
      Suppresses(rows[0], task, deadline, now, parse)
      || (!Aborts(rows[0], task, deadline, parse) && FoundBeforeAbort(rows[1..], task, deadline, now, parse))
  {
    if !Suppresses(rows[0], task, deadline, now, parse) {
      if FoundBeforeAbort(rows, task, deadline, now, parse) {
        TailFromFound(rows, task, deadline, now, parse);
      } else if !Aborts(rows[0], task, deadline, parse) && FoundBeforeAbort(rows[1..], task, deadline, now, parse) {
        FoundFromTail(rows, task, deadline, now, parse);
      }
    }
  }

  /** The loop answers `True` exactly when some visited row suppresses and no row visited before
      it aborted the scan. */
  lemma {:induction false} ScanIff(rows: seq<Row>, task: string, deadline: string, now: int,
                                   parse: string -> Option<int>)
    ensures Scan(rows, task, deadline, now, parse) <==>
      exists i :: 0 <= i < |rows| && Suppresses(rows[i], task, deadline, now, parse)
        && forall j :: 0 <= j < i ==> !Aborts(rows[j], task, deadline, parse)
  {
    if rows != [] {
      ScanIff(rows[1..], task, deadline, now, parse);
      ScanStep(rows, task, deadline, now, parse);
      FoundStep(rows, task, deadline, now, parse);
    }
  }

  /** Some sheet row past the first row of the tail suppresses, and no row of the tail between
      them aborts the scan. */
  ghost predicate SuppressedInTail(sheet: seq<Row>, task: string, deadline: string, now: int,
                                   parse: string -> Option<int>)
  {
    exists k :: TailStart(sheet) < k < |sheet| && Suppresses(sheet[k], task, deadline, now, parse)
      && forall j :: TailStart(sheet) < j < k ==> !Aborts(sheet[j], task, deadline, parse)
  }

  /** A find among the visited rows, restated with sheet indices. */
  lemma TailFromRows(sheet: seq<Row>, task: string, deadline: string, now: int,
                     parse: string -> Option<int>)
    requires FoundBeforeAbort(Examined(sheet), task, deadline, now, parse)
    ensures SuppressedInTail(sheet, task, deadline, now, parse)
  {
    var rows := Examined(sheet);
    var s := TailStart(sheet);
    var i :| 0 <= i < |rows| && Suppresses(rows[i], task, deadline, now, parse)
      && forall j :: 0 <= j < i ==> !Aborts(rows[j], task, deadline, parse);
    var k := s + 1 + i;
    assert sheet[k] == rows[i];
    forall j | s < j < k ensures !Aborts(sheet[j], task, deadline, parse) {
      assert sheet[j] == rows[j - s - 1];
    }
  }

  /** A find at a sheet index, restated with indices into the visited rows. */
  lemma RowsFromTail(sheet: seq<Row>, task: string, deadline: string, now: int,
                     parse: string -> Option<int>)
    requires SuppressedInTail(sheet, task, deadline, now, parse)
    ensures FoundBeforeAbort(Examined(sheet), task, deadline, now, parse)
  {
    var rows := Examined(sheet);
    var s := TailStart(sheet);
    var k :| s < k < |sheet| && Suppresses(sheet[k], task, deadline, now, parse)
      && forall j :: s < j < k ==> !Aborts(sheet[j], task, deadline, parse);
    var i := k - s - 1;
    assert rows[i] == sheet[k];
    forall j | 0 <= j < i ensures !Aborts(rows[j], task, deadline, parse) {
      assert rows[j] == sheet[s + 1 + j];
    }
  }

  /** Exact characterisation of `_dedupe` over the whole sheet: it reports a duplicate exactly
      when the read succeeded and some row at sheet index `k` suppresses, where `k` lies in the
      fetched tail but is not its first row, and no row of the tail between them aborted the
      scan. */
  lemma IsDuplicateIff(sheet: seq<Row>, readFailed: bool, task: string, deadline: string, now: int,
                       parse: string -> Option<int>)
    ensures IsDuplicate(sheet, readFailed, task, deadline, now, parse) <==>
      !readFailed &&
      exists k :: TailStart(sheet) < k < |sheet| && Suppresses(sheet[k], task, deadline, now, parse)
        && forall j :: TailStart(sheet) < j < k ==> !Aborts(sheet[j], task, deadline, parse)
  {
    ScanIff(Examined(sheet), task, deadline, now, parse);
    if FoundBeforeAbort(Examined(sheet), task, deadline, now, parse) {
      TailFromRows(sheet, task, deadline, now, parse);
    }
    if SuppressedInTail(sheet, task, deadline, now, parse) {
      RowsFromTail(sheet, task, deadline, now, parse);
    }
  }

  /** A suppressing row appended to a non-empty sheet with no aborting row is found: the new last
      row is always inside the tail and never its first row. */
  lemma AppendedRowFound(sheet: seq<Row>, r: Row, task: string, deadline: string, now: int,
                         parse: string -> Option<int>)
    requires sheet != []
    requires Suppresses(r, task, deadline, now, parse)
    requires forall k :: 0 <= k < |sheet| ==> !Aborts(sheet[k], task, deadline, parse)
    ensures IsDuplicate(sheet + [r], false, task, deadline, now, parse)
  {
    var sheet' := sheet + [r];
    var k := |sheet|;
    assert sheet'[k] == r;
    assert forall j :: TailStart(sheet') < j < k ==> sheet'[j] == sheet[j];
    assert SuppressedInTail(sheet', task, deadline, now, parse);
    IsDuplicateIff(sheet', false, task, deadline, now, parse);
  }

  /** Fail-open: once a matching row with an unparseable timestamp is reached, the answer is "no
      duplicate", even when a later row of the tail would have suppressed. */
  lemma FailOpen(sheet: seq<Row>, readFailed: bool, task: string, deadline: string, now: int,
                 parse: string -> Option<int>, k: nat)
    requires TailStart(sheet) < k < |sheet|
    requires Aborts(sheet[k], task, deadline, parse)
    requires forall j :: TailStart(sheet) < j < k ==> !Suppresses(sheet[j], task, deadline, now, parse)
    ensures !IsDuplicate(sheet, readFailed, task, deadline, now, parse)
  {
    IsDuplicateIff(sheet, readFailed, task, deadline, now, parse);
  }

  /** Rows before the fetched tail, and the first row of the tail, never influence the answer:
      overwriting any of them leaves `_dedupe` unchanged. */
  lemma IgnoresRowsBeforeWindow(sheet: seq<Row>, readFailed: bool, task: string, deadline: string,
                                now: int, parse: string -> Option<int>, k: nat, x: Row)
    requires k <= TailStart(sheet) && k < |sheet|
    ensures IsDuplicate(sheet[k := x], readFailed, task, deadline, now, parse)
         == IsDuplicate(sheet, readFailed, task, deadline, now, parse)
  {
    assert Examined(sheet[k := x]) == Examined(sheet);
  }

  /** Once the sheet holds at least 150 rows, whatever precedes them is never read. */
  lemma IgnoresOlderHistory(older: seq<Row>, sheet: seq<Row>, readFailed: bool, task: string,
                            deadline: string, now: int, parse: string -> Option<int>)
    requires |sheet| >= TailSize
    ensures IsDuplicate(older + sheet, readFailed, task, deadline, now, parse)
         == IsDuplicate(sheet, readFailed, task, deadline, now, parse)
  {
    assert Examined(older + sheet) == Examined(sheet);
  }
}
