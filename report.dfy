/** What one run of `validate_data` produces from the rows (data_quality_app.py:59-85):
    the log lines and the error ledger, as functions of the rows, and their properties. */
module Report {
  import opened Strings
  import opened Rules

  /** One entry of `self.errors`: the 0-based row index and that row's `row_errors` dict. */
  type LedgerEntry = (nat, Row)

  function Descriptions(issues: seq<Issue>): seq<string> {
    seq(|issues|, k requires 0 <= k < |issues| => Describe(issues[k]))
  }

  /** `f"Row {i+1}: {', '.join(issues)}"`. */
  function LogLine(i: nat, issues: seq<Issue>): string {
    "Row " + NatToString(i + 1) + ": " + Join(Descriptions(issues), ", ")
  }

  /** What the rules say about one row: its `issues` list and its `row_errors` dict. */
  datatype Verdict = Verdict(issues: seq<Issue>, errors: Row)

  ghost function Check(row: Row): Verdict {
    Verdict(RowIssues(row), RowErrors(row))
  }

  /** The verdict on every row, in row order. */
  ghost function Verdicts(rows: seq<Row>): (v: seq<Verdict>)
    ensures |v| == |rows|
  {
    if rows == [] then [] else Verdicts(rows[..|rows| - 1]) + [Check(rows[|rows| - 1])]
  }

  lemma {:induction false} VerdictAt(rows: seq<Row>, i: nat)
    requires i < |rows|
    ensures Verdicts(rows)[i] == Check(rows[i])
  {
    if i < |rows| - 1 {
      VerdictAt(rows[..|rows| - 1], i);
    }
  }

  /** The verdicts are the rules' verdicts on the rows, index by index. */
  lemma VerdictsOfRows(rows: seq<Row>)
    ensures |Verdicts(rows)| == |rows|
    ensures forall i :: 0 <= i < |rows| ==> Verdicts(rows)[i] == Check(rows[i])
  {
    forall i | 0 <= i < |rows| ensures Verdicts(rows)[i] == Check(rows[i]) {
      VerdictAt(rows, i);
    }
  }

  /** The log after the loop has visited the first `n` rows, given their verdicts. */
  function LogUpTo(verdicts: seq<Verdict>, n: nat): seq<string>
    requires n <= |verdicts|
  {
    if n == 0 then []
    else
      var issues := verdicts[n - 1].issues;
      LogUpTo(verdicts, n - 1) + if issues != [] then [LogLine(n - 1, issues)] else []
  }

  /** The ledger after the loop has visited the first `n` rows, given their verdicts. */
  function LedgerUpTo(verdicts: seq<Verdict>, n: nat): seq<LedgerEntry>
    requires n <= |verdicts|
  {
    if n == 0 then []
    else
      var v := verdicts[n - 1];
      LedgerUpTo(verdicts, n - 1) + if v.issues != [] then [(n - 1, v.errors)] else []
  }

  /** `self.log` after a validation run over `rows`. */
  ghost function ValidationLog(rows: seq<Row>): seq<string> {
    LogUpTo(Verdicts(rows), |rows|)
  }

  /** `self.errors` after a validation run over `rows`. */
  ghost function ValidationLedger(rows: seq<Row>): seq<LedgerEntry> {
    LedgerUpTo(Verdicts(rows), |rows|)
  }

  /** A ledger entry and its log line describe a failing row with the given verdicts. */
  predicate Describes(verdicts: seq<Verdict>, entry: LedgerEntry, line: string) {
    && entry.0 < |verdicts|
    && verdicts[entry.0].issues != []
    && entry.1 == verdicts[entry.0].errors
    && line == LogLine(entry.0, verdicts[entry.0].issues)
  }

  predicate Ascending(ledger: seq<LedgerEntry>) {
    forall a, b :: 0 <= a < b < |ledger| ==> ledger[a].0 < ledger[b].0
  }

  predicate Listed(ledger: seq<LedgerEntry>, i: nat) {
    exists k :: 0 <= k < |ledger| && ledger[k].0 == i
  }

  /** The run only appends: the log and the ledger after `n` rows are prefixes of the log and
      the ledger after any later number `m` of rows. */
  lemma {:induction false} UpToExtends(verdicts: seq<Verdict>, n: nat, m: nat)
    requires n <= m <= |verdicts|
    ensures |LogUpTo(verdicts, n)| <= |LogUpTo(verdicts, m)| && LogUpTo(verdicts, m)[..|LogUpTo(verdicts, n)|] == LogUpTo(verdicts, n)
    ensures |LedgerUpTo(verdicts, n)| <= |LedgerUpTo(verdicts, m)| && LedgerUpTo(verdicts, m)[..|LedgerUpTo(verdicts, n)|] == LedgerUpTo(verdicts, n)
  {
    if n < m {
      UpToExtends(verdicts, n, m - 1);
      LogUpToInit(verdicts, m);
      LedgerUpToInit(verdicts, m);
    }
  }

  lemma LogUpToInit(verdicts: seq<Verdict>, n: nat)
    requires 0 < n <= |verdicts|
    ensures var l := LogUpTo(verdicts, n);
      if verdicts[n - 1].issues != [] then l != [] && l[..|l| - 1] == LogUpTo(verdicts, n - 1) && l[|l| - 1] == LogLine(n - 1, verdicts[n - 1].issues)
      else l == LogUpTo(verdicts, n - 1)
  {
  }

  /** After `n` rows the log and the ledger have the same length, and the ledger's indices are
      below `n` and ascend. */
  lemma {:induction false} UpToLengths(verdicts: seq<Verdict>, n: nat)
    requires n <= |verdicts|
    ensures |LogUpTo(verdicts, n)| == |LedgerUpTo(verdicts, n)|
    ensures forall k :: 0 <= k < |LedgerUpTo(verdicts, n)| ==> LedgerUpTo(verdicts, n)[k].0 < n
    ensures Ascending(LedgerUpTo(verdicts, n))
  {
    if n > 0 {
      UpToLengths(verdicts, n - 1);
    }
  }

  /** After `n` rows, the `k`-th ledger entry and the `k`-th log line describe the same failing row. */
  lemma {:induction false} UpToDescribes(verdicts: seq<Verdict>, n: nat)
    requires n <= |verdicts|
    ensures |LogUpTo(verdicts, n)| == |LedgerUpTo(verdicts, n)|
    ensures forall k :: 0 <= k < |LedgerUpTo(verdicts, n)| ==>
      Describes(verdicts, LedgerUpTo(verdicts, n)[k], LogUpTo(verdicts, n)[k])
  {
    UpToLengths(verdicts, n);
    if n > 0 {
      UpToDescribes(verdicts, n - 1);
      LogUpToInit(verdicts, n);
      LedgerUpToInit(verdicts, n);
      var log, ledger := LogUpTo(verdicts, n), LedgerUpTo(verdicts, n);
      var log0, ledger0 := LogUpTo(verdicts, n - 1), LedgerUpTo(verdicts, n - 1);
      forall k | 0 <= k < |ledger| ensures Describes(verdicts, ledger[k], log[k]) {
        if k < |ledger0| {
          assert ledger[k] == ledger0[k] && log[k] == log0[k];
        }
      }
    }
  }

  /** After `n` rows, every failing row among them has a ledger entry. */
  lemma {:induction false} UpToComplete(verdicts: seq<Verdict>, n: nat)
    requires n <= |verdicts|
    ensures forall i :: 0 <= i < n && verdicts[i].issues != [] ==> Listed(LedgerUpTo(verdicts, n), i)
  {
    if n > 0 {
      UpToComplete(verdicts, n - 1);
      LedgerUpToInit(verdicts, n);
      var before := LedgerUpTo(verdicts, n - 1);
      var after := LedgerUpTo(verdicts, n);
      forall i | 0 <= i < n && verdicts[i].issues != [] ensures Listed(after, i) {
        if i < n - 1 {
          var k :| 0 <= k < |before| && before[k].0 == i;
          assert after[k] == before[k];
        } else {
          assert after[|before|].0 == i;
        }
      }
    }
  }

  /** After `n` rows, the log and the ledger run in parallel, in ascending row order, with one
      entry for every failing row among the first `n` and no other. */
  lemma UpToShape(verdicts: seq<Verdict>, n: nat)
    requires n <= |verdicts|
    ensures |LogUpTo(verdicts, n)| == |LedgerUpTo(verdicts, n)|
    ensures forall k :: 0 <= k < |LedgerUpTo(verdicts, n)| ==>
      LedgerUpTo(verdicts, n)[k].0 < n && Describes(verdicts, LedgerUpTo(verdicts, n)[k], LogUpTo(verdicts, n)[k])
    ensures Ascending(LedgerUpTo(verdicts, n))
    ensures forall i :: 0 <= i < n && verdicts[i].issues != [] ==> Listed(LedgerUpTo(verdicts, n), i)
  {
    UpToLengths(verdicts, n);
    UpToDescribes(verdicts, n);
    UpToComplete(verdicts, n);
  }

  /** One validation run: `log` and `errors` have equal length and correspond pairwise; each
      entry names a failing row with exactly its `row_errors` and its log line; indices ascend;
      a row has an entry iff it produced an issue; empty data gives an empty report. */
  lemma ValidationReport(rows: seq<Row>)
    ensures |ValidationLog(rows)| == |ValidationLedger(rows)|
    ensures forall k :: 0 <= k < |ValidationLedger(rows)| ==>
      var (i, errors) := ValidationLedger(rows)[k];
      && i < |rows| && RowIssues(rows[i]) != [] && errors == RowErrors(rows[i])
      && ValidationLog(rows)[k] == LogLine(i, RowIssues(rows[i]))
    ensures Ascending(ValidationLedger(rows))
    ensures forall i :: 0 <= i < |rows| ==> (Listed(ValidationLedger(rows), i) <==> RowIssues(rows[i]) != [])
    ensures rows == [] ==> ValidationLog(rows) == [] && ValidationLedger(rows) == []
  {
    var verdicts := Verdicts(rows);
    VerdictsOfRows(rows);
    UpToShape(verdicts, |rows|);
  }

  /** The text of the log line for two findings: the sales finding before the email finding,
      separated by ", " when there are both. */
  lemma LogLineOfFindings(i: nat, sales: Option<Issue>, email: Option<Issue>)
    requires Findings(sales, email) && IssuesOf(sales, email) != []
    ensures LogLine(i, IssuesOf(sales, email)) ==
              "Row " + NatToString(i + 1) + ": "
              + (if sales.Some? then Describe(sales.value) else "")
              + (if sales.Some? && email.Some? then ", " else "")
              + (if email.Some? then "Invalid email format" else "")
  {
    var issues := IssuesOf(sales, email);
    var d := Descriptions(issues);
    if |issues| == 1 {
      assert d == [Describe(issues[0])];
    } else {
      assert d == [Describe(issues[0]), Describe(issues[1])];
      JoinTwo(d[0], d[1], ", ");
    }
  }

  /** The text of a row's log line: the 1-based row number, then the sales finding before the
      email finding, separated by ", " when there are both. */
  lemma LogLineText(i: nat, row: Row)
    requires RowIssues(row) != []
    ensures var sales := SalesIssue(row);
            var email := EmailIssue(row);
            LogLine(i, RowIssues(row)) ==
              "Row " + NatToString(i + 1) + ": "
              + (if sales.Some? then Describe(sales.value) else "")
              + (if sales.Some? && email.Some? then ", " else "")
              + (if email.Some? then "Invalid email format" else "")
  {
    FindingsOfRow(row);
    LogLineOfFindings(i, SalesIssue(row), EmailIssue(row));
  }

  /** A row number written in digits ends where the `:` after it starts. */
  lemma NumberBeforeColon(x: string, y: string, s1: string, s2: string)
    requires AllDigits(x) && AllDigits(y) && |s1| > 0 && |s2| > 0 && s1[0] == ':' && s2[0] == ':'
    requires x + s1 == y + s2
    ensures x == y
  {
    var line := x + s1;
    assert line[|x|] == ':' && line[|y|] == ':' && !IsDigit(':');
    assert forall k :: 0 <= k < |x| ==> IsDigit(line[k]);
    assert forall k :: 0 <= k < |y| ==> IsDigit(line[k]);
    assert |x| == |y|;
    assert x == line[..|x|] == y;
  }

  /** A log line is the prefix `Row `, the row number, then the text from the colon on. */
  lemma LogLinePieces(i: nat, issues: seq<Issue>)
    ensures LogLine(i, issues) == "Row " + (NatToString(i + 1) + (": " + Join(Descriptions(issues), ", ")))
  {
  }

  lemma PrefixCancel(p: string, s: string, t: string)
    requires p + s == p + t
    ensures s == t
  {
    assert s == (p + s)[|p|..];
    assert t == (p + t)[|p|..];
  }

  /** Two log lines with the same text are about the same row. */
  lemma LogLineNamesRow(i: nat, j: nat, a: seq<Issue>, b: seq<Issue>)
    requires LogLine(i, a) == LogLine(j, b)
    ensures i == j
  {
    var x, y := NatToString(i + 1), NatToString(j + 1);
    var s1, s2 := ": " + Join(Descriptions(a), ", "), ": " + Join(Descriptions(b), ", ");
    LogLinePieces(i, a);
    LogLinePieces(j, b);
    PrefixCancel("Row ", x + s1, y + s2);
    NumberBeforeColon(x, y, s1, s2);
    NatToStringInjective(i + 1, j + 1);
  }

  /** The ledger without the entries for row `i`. */
  function Without(ledger: seq<LedgerEntry>, i: nat): (r: seq<LedgerEntry>)
  {
    if ledger == [] then []
    else Without(ledger[..|ledger| - 1], i) + if ledger[|ledger| - 1].0 == i then [] else [ledger[|ledger| - 1]]
  }

  lemma {:induction false} WithoutAbsent(ledger: seq<LedgerEntry>, i: nat)
    requires !Listed(ledger, i)
    ensures Without(ledger, i) == ledger
  {
    if ledger != [] {
      var init := ledger[..|ledger| - 1];
      assert forall k :: 0 <= k < |init| ==> init[k] == ledger[k];
      WithoutAbsent(init, i);
    }
  }

  lemma LedgerUpToInit(verdicts: seq<Verdict>, n: nat)
    requires 0 < n <= |verdicts|
    ensures var l := LedgerUpTo(verdicts, n);
      if verdicts[n - 1].issues != [] then l != [] && l[..|l| - 1] == LedgerUpTo(verdicts, n - 1) && l[|l| - 1] == (n - 1, verdicts[n - 1].errors)
      else l == LedgerUpTo(verdicts, n - 1)
  {
  }

  lemma WithoutSnoc(ledger: seq<LedgerEntry>, e: LedgerEntry, i: nat)
    ensures Without(ledger + [e], i) == Without(ledger, i) + if e.0 == i then [] else [e]
  {
    assert (ledger + [e])[..|ledger|] == ledger;
  }

  /** One more row visited, seen through `Without(_, i)`. */
  lemma WithoutStep(verdicts: seq<Verdict>, n: nat, i: nat)
    requires 0 < n <= |verdicts|
    ensures Without(LedgerUpTo(verdicts, n), i)
         == Without(LedgerUpTo(verdicts, n - 1), i) + if verdicts[n - 1].issues != [] && n - 1 != i then [(n - 1, verdicts[n - 1].errors)] else []
  {
    var before := LedgerUpTo(verdicts, n - 1);
    if verdicts[n - 1].issues != [] {
      assert LedgerUpTo(verdicts, n) == before + [(n - 1, verdicts[n - 1].errors)];
      WithoutSnoc(before, (n - 1, verdicts[n - 1].errors), i);
    } else {
      assert LedgerUpTo(verdicts, n) == before + [];
      assert before + [] == before;
    }
  }

  /** Changing the verdict on row `i` changes no ledger entry of another row. */
  lemma {:induction false} OtherEntriesUnchanged(verdicts: seq<Verdict>, n: nat, i: nat, v: Verdict)
    requires n <= |verdicts| && i < |verdicts|
    ensures Without(LedgerUpTo(verdicts[i := v], n), i) == Without(LedgerUpTo(verdicts, n), i)
  {
    if n > 0 {
      OtherEntriesUnchanged(verdicts, n - 1, i, v);
      WithoutStep(verdicts[i := v], n, i);
      WithoutStep(verdicts, n, i);
      if n - 1 != i {
        assert verdicts[i := v][n - 1] == verdicts[n - 1];
      }
    }
  }

  /** A row whose verdict has no issue has no ledger entry. */
  lemma CleanRowUnlisted(verdicts: seq<Verdict>, n: nat, i: nat)
    requires n <= |verdicts| && i < |verdicts| && verdicts[i].issues == []
    ensures !Listed(LedgerUpTo(verdicts, n), i)
  {
    UpToDescribes(verdicts, n);
  }

  /** Editing one row changes only that row's verdict. */
  lemma VerdictsUpdate(rows: seq<Row>, i: nat, row: Row)
    requires i < |rows|
    ensures Verdicts(rows[i := row]) == Verdicts(rows)[i := Check(row)]
  {
    var fixed := rows[i := row];
    var updated := Verdicts(rows)[i := Check(row)];
    forall k | 0 <= k < |rows|
      ensures Verdicts(fixed)[k] == updated[k]
    {
      VerdictAt(fixed, k);
      if k != i {
        VerdictAt(rows, k);
      }
    }
  }

  /** After a correction that replaces every failing field of row `i` by a valid value, the next
      validation run drops row `i` from the ledger and keeps every other entry as it was. */
  lemma RevalidationAfterFix(rows: seq<Row>, i: nat, edits: map<string, string>)
    requires i < |rows| && CleansRow(rows[i], edits)
    ensures ValidationLedger(rows[i := rows[i] + edits]) == Without(ValidationLedger(rows), i)
    ensures !Listed(ValidationLedger(rows[i := rows[i] + edits]), i)
  {
    var fixed := rows[i := rows[i] + edits];
    var v := Check(rows[i] + edits);
    CleanFixClearsRow(rows[i], edits);
    assert v.issues == [];
    var verdicts := Verdicts(rows);
    VerdictsUpdate(rows, i, rows[i] + edits);
    var after := verdicts[i := v];
    assert ValidationLedger(fixed) == LedgerUpTo(after, |rows|);
    OtherEntriesUnchanged(verdicts, |rows|, i, v);
    CleanRowUnlisted(after, |rows|, i);
    WithoutAbsent(LedgerUpTo(after, |rows|), i);
  }

  /** A correction that cleans a failing row makes the ledger of the last run disagree with the
      rows: without a new run the ledger is stale. */
  lemma StaleAfterCleanFix(rows: seq<Row>, i: nat, edits: map<string, string>)
    requires i < |rows| && RowIssues(rows[i]) != [] && CleansRow(rows[i], edits)
    ensures ValidationLedger(rows) != ValidationLedger(rows[i := rows[i] + edits])
  {
    ValidationReport(rows);
    RevalidationAfterFix(rows, i, edits);
  }
}
