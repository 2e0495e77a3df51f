/** The application's session state and the two operations that change it
    (data_quality_app.py: the fields set up in `__init__`, `validate_data` and the
    `save_callback` built by `show_error_entries`). */
module App {
  import opened Strings
  import opened Sales
  import opened Email
  import opened Rules
  import opened Report

  /** How a correction ends: written into the row, or stopped by an index that names no row
      (Python raises `IndexError` at the first assignment). */
  datatype FixOutcome = Applied | IndexOutOfRange

  /** The body of the validation loop for one row: the sales check, then the email check, each
      adding its issue and recording the field's raw value when it fails. */
  method CheckRow(row: Row) returns (issues: seq<Issue>, rowErrors: Row)
    ensures issues == RowIssues(row) && rowErrors == RowErrors(row)
  {
    issues := [];
    rowErrors := map[];
    var sales := Get(row, "sales", SalesDefault);
    ghost var salesFinding := SalesIssue(row);
    SalesReadsDefault(row);
    match ClassifySales(sales) {
      case Negative =>
        issues := issues + [NegativeSales];
        rowErrors := rowErrors["sales" := Get(row, "sales", "")];
        assert salesFinding == Some(NegativeSales);
      case Unparseable =>
        issues := issues + [InvalidSales];
        rowErrors := rowErrors["sales" := Get(row, "sales", "")];
        assert salesFinding == Some(InvalidSales);
      case NonNegative =>
        assert salesFinding == None;
    }
    assert issues == ListOf(salesFinding);
    assert rowErrors == ErrorsOf(salesFinding, None, Get(row, "sales", ""), "");
    var email := Get(row, "email", "");
    ghost var emailFinding := EmailIssue(row);
    ValidEmailIff(email);
    if !ValidEmail(email) {
      issues := issues + [InvalidEmailFormat];
      rowErrors := rowErrors["email" := email];
      assert emailFinding == Some(InvalidEmailFormat);
    } else {
      assert emailFinding == None;
    }
    assert issues == IssuesOf(salesFinding, emailFinding);
    assert rowErrors == ErrorsOf(salesFinding, emailFinding, Get(row, "sales", ""), email);
  }

  /** The loop body on the row at index `i`: its verdict is the `i`-th of the run. */
  method JudgeRow(rows: seq<Row>, i: nat) returns (issues: seq<Issue>, rowErrors: Row)
    requires i < |rows|
    ensures Verdict(issues, rowErrors) == Verdicts(rows)[i]
  {
    issues, rowErrors := CheckRow(rows[i]);
    VerdictAt(rows, i);
  }

  class DataQualityApp {
    /** The loaded rows, `self.data`. */
    var data: seq<Row>
    /** The log lines of the last validation run, `self.log`. */
    var log: seq<string>
    /** The error ledger of the last validation run, `self.errors`. */
    var errors: seq<LedgerEntry>
    /** The rows as the last validation run saw them. */
    ghost var validated: seq<Row>

    /** The log and the ledger are the report of a validation run over `validated`. */
    ghost predicate Valid()
      reads this
    {
      log == ValidationLog(validated) && errors == ValidationLedger(validated)
    }

    /** Whether the log and the ledger are the report of a validation run over the current rows. */
    ghost predicate ReportCurrent()
      reads this
    {
      log == ValidationLog(data) && errors == ValidationLedger(data)
    }

    /** A new session holds no rows, no log and no ledger. */
    constructor ()
      ensures data == [] && log == [] && errors == [] && validated == []
      ensures Valid() && ReportCurrent()
    {
      data := [];
      log := [];
      errors := [];
      validated := [];
    }

    /** A successful load replaces the rows and leaves the previous report in place: it still
        describes the rows of the last run, which may differ from the new ones. */
    method Load(rows: seq<Row>)
      modifies this`data
      ensures data == rows
      ensures log == old(log) && errors == old(errors) && validated == old(validated)
      ensures old(Valid()) ==> Valid()
    {
      data := rows;
    }

    /** One validation run: the log and the ledger are reset and rebuilt row by row, and the
        rows are not changed (only `log`, `errors` and the ghost `validated` are in the frame). The run collects its
        lines and entries in local sequences and stores them when the loop ends. The new report depends on the rows alone, so a second run without
        changes in between gives the same report. */
    method Validate()
      modifies this`log, this`errors, this`validated
      ensures validated == data && Valid() && ReportCurrent()
    {
      var rows := data;
      ghost var verdicts := Verdicts(rows);
      var runLog: seq<string> := [];
      var runErrors: seq<LedgerEntry> := [];
      var i: nat := 0;
      while i < |rows|
        invariant i <= |rows|
        invariant runLog == LogUpTo(verdicts, i) && runErrors == LedgerUpTo(verdicts, i)
      {
        var issues, rowErrors := JudgeRow(rows, i);
        if issues != [] {
          runLog := runLog + [LogLine(i, issues)];
          runErrors := runErrors + [(i, rowErrors)];
        }
        i := i + 1;
      }
      log, errors := runLog, runErrors;
      validated := rows;
    }

    /** The loop of `save_callback`: each edited field in turn is written into row `rowIdx`. */
    method WriteFields(rowIdx: nat, edits: map<string, string>)
      requires rowIdx < |data|
      modifies this`data
      ensures data == old(data)[rowIdx := old(data)[rowIdx] + edits]
    {
      var rest := edits.Keys;
      ghost var done: map<string, string> := map[];
      assert old(data)[rowIdx] + done == old(data)[rowIdx];
      while rest != {}
        invariant rest <= edits.Keys && done.Keys == edits.Keys - rest
        invariant forall f :: f in done ==> done[f] == edits[f]
        invariant data == old(data)[rowIdx := old(data)[rowIdx] + done]
        decreases rest
      {
        var f :| f in rest;
        assert old(data)[rowIdx] + done[f := edits[f]] == (old(data)[rowIdx] + done)[f := edits[f]];
        data := data[rowIdx := data[rowIdx][f := edits[f]]];
        done := done[f := edits[f]];
        rest := rest - {f};
      }
      assert done == edits;
    }

    /** `save_callback`: writes each edited field into row `rowIdx`, adding the field when the row
        lacks it. The log and the ledger are left as they were, stale until the next run. */
    method ApplyFix(rowIdx: nat, edits: map<string, string>) returns (outcome: FixOutcome)
      modifies this`data
      ensures log == old(log) && errors == old(errors) && validated == old(validated)
      ensures old(Valid()) ==> Valid()
      ensures rowIdx < |old(data)| && old(ReportCurrent()) && RowIssues(old(data)[rowIdx]) != [] && CleansRow(old(data)[rowIdx], edits)
        ==> !ReportCurrent()
      ensures rowIdx < |old(data)| ==> outcome == Applied && data == old(data)[rowIdx := old(data)[rowIdx] + edits]
      ensures rowIdx < |old(data)| ==>
        && |data| == |old(data)|
        && (forall k :: 0 <= k < |data| && k != rowIdx ==> data[k] == old(data)[k])
        && data[rowIdx].Keys == old(data)[rowIdx].Keys + edits.Keys
        && (forall f :: f in edits ==> data[rowIdx][f] == edits[f])
        && (forall f :: f in old(data)[rowIdx] && f !in edits ==> data[rowIdx][f] == old(data)[rowIdx][f])
      ensures rowIdx >= |old(data)| ==> data == old(data) && (outcome == IndexOutOfRange <==> edits != map[])
    {
      if rowIdx >= |data| {
        outcome := if edits == map[] then Applied else IndexOutOfRange;
        return;
      }
      WriteFields(rowIdx, edits);
      if old(ReportCurrent()) && RowIssues(old(data)[rowIdx]) != [] && CleansRow(old(data)[rowIdx], edits) {
        assert errors != ValidationLedger(data) by {
          StaleAfterCleanFix(old(data), rowIdx, edits);
        }
      }
      outcome := Applied;
    }
  }

  /** A session over `rows`: load, validate, validate again, apply one correction, read the
      report, validate once more. The second run repeats the first; the correction leaves the
      report stale; the last run reports on the corrected rows, and a correction that cleans
      its row drops exactly that row from the ledger. */
  method Session(rows: seq<Row>, rowIdx: nat, edits: map<string, string>)
    returns (first: seq<string>, firstLedger: seq<LedgerEntry>,
             again: seq<string>, againLedger: seq<LedgerEntry>,
             stale: seq<string>, staleLedger: seq<LedgerEntry>,
             outcome: FixOutcome, last: seq<string>, lastLedger: seq<LedgerEntry>)
    ensures first == ValidationLog(rows) && firstLedger == ValidationLedger(rows)
    ensures again == first && againLedger == firstLedger
    ensures stale == first && staleLedger == firstLedger
    ensures rowIdx < |rows| ==>
      (outcome == Applied
       && last == ValidationLog(rows[rowIdx := rows[rowIdx] + edits])
       && lastLedger == ValidationLedger(rows[rowIdx := rows[rowIdx] + edits]))
    ensures rowIdx < |rows| && CleansRow(rows[rowIdx], edits) ==>
      lastLedger == Without(firstLedger, rowIdx) && !Listed(lastLedger, rowIdx)
    ensures rowIdx >= |rows| ==> (outcome == IndexOutOfRange <==> edits != map[]) && last == first && lastLedger == firstLedger
  {
    var app := new DataQualityApp();
    app.Load(rows);
    app.Validate();
    first, firstLedger := app.log, app.errors;
    app.Validate();
    again, againLedger := app.log, app.errors;
    outcome := app.ApplyFix(rowIdx, edits);
    stale, staleLedger := app.log, app.errors;
    app.Validate();
    last, lastLedger := app.log, app.errors;
    if rowIdx < |rows| && CleansRow(rows[rowIdx], edits) {
      RevalidationAfterFix(rows, rowIdx, edits);
    }
  }
}
