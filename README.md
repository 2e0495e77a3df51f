# Data quality app: validation and correction engine

A Dafny model of the engine inside `DataQualityApp` (a tkinter tool for sales records). A
session holds three things:

- the loaded rows (`self.data`), each a map from field name to raw string;
- the log of the last validation run (`self.log`);
- the error ledger of that run (`self.errors`), a list of `(row index, {field: raw value})`.

Validation walks the rows in order and applies two rules to each:

- **sales**: `float(row.get("sales", "0"))` fails, giving "Invalid sales", or is below zero,
  giving "Negative sales";
- **email**: `re.match(r"[^@]+@[^@]+\.[^@]+", row.get("email", ""))` finds no match, giving
  "Invalid email format".

Each row with an issue adds the line `Row {i+1}: {issues joined by ", "}` to the log. It also
adds `(i, row_errors)` to the ledger, which maps each failing field to its raw value. A
correction writes new strings into the fields of one row. It does not run validation again.

Modules:

- `Strings`: first occurrence of a character, decimal digits and `str` of a natural number,
  and `", ".join`.
- `Sales`: the decimal grammar the sales rule accepts. It parses to an exact `real` and
  classifies the value as `Unparseable`, `Negative` or `NonNegative`.
- `Email`: the start-anchored pattern, as a decision procedure (`ValidEmail`) and as the
  existence of a match (`RegexMatches`), proved equivalent. The rules state the email check as
  `RegexMatches`; the loop body in `App` runs `ValidEmail`.
- `Rules`: one row's `issues` list and `row_errors` dict.
- `Report`: the log and ledger after a run, as functions of the rows, and their invariants.
- `App`: the class `DataQualityApp` with fields `data`, `log` and `errors`:
  - the methods `Validate` (the loop of `validate_data`) and `ApplyFix` (`save_callback`);
  - `Load`, and the loop body `CheckRow`;
  - `Session`, a whole load–validate–correct–validate sequence.
- `Scenario`: a worked three-row session with its reports spelled out.

Two points where the model follows the code:

- **Loading keeps the old report.** `load_file` replaces `self.data` and nothing else, so
  `App.DataQualityApp.Load` leaves `log` and `errors` as they were.
- **An empty correction on a missing row does nothing.** `save_callback` indexes the row only
  inside its loop over the edited fields. So a correction for a row index past the end raises
  (`ApplyFix` returns `IndexOutOfRange` and changes nothing) only when it edits at least one
  field. With no fields it completes.

The worked session in `Scenario` corrects `{sales: "5"}` on the row at index 2 and
`{email: "bad@fixed.com"}` on the row at index 1. The row at index 1 (`sales` "-5") keeps its
negative figure, so the next run still reports `Row 2: Negative sales`
(`Scenario.CorrectedReport`). The report is empty only once that figure is corrected too
(`Scenario.FullyCorrectedReport`).

## Model

| member | source | states |
|---|---|---|
| Strings.NatToStringRoundTrip | data_quality_app.py:84 | the row number written by `str` reads back as the same number and has no leading zero |
| Sales.UnparseableIff | data_quality_app.py:69-75 | the model's parse fails, and the sales rule takes the except branch, exactly when the value is not a decimal literal: an optional sign, then digits with an optional `.` and optional fraction digits, or `.` and digits |
| Sales.NegativeIff | data_quality_app.py:69-72 | the value is "Negative sales" exactly when it is a decimal literal with a leading `-` and a nonzero digit (so `-0`, `-0.00` are not negative) |
| Sales.NonNegativeIff | data_quality_app.py:69-70 | the value passes exactly when it is a decimal literal that is not a negative one |
| Sales.ParseNatToString | data_quality_app.py:69 | the decimal text of any natural number parses back to that number and passes |
| Sales.ParseNegatedNat | data_quality_app.py:69-71 | `-` followed by the text of a positive number parses to its negation and is "Negative sales" |
| Sales.ZeroIsNonNegative | data_quality_app.py:69 | the default `"0"` read for a missing field passes |
| Sales.EmptyIsUnparseable | data_quality_app.py:73-75 | the empty value does not parse |
| Sales.UnparseableExamples | data_quality_app.py:73-74 | `abc`, the empty string, `.`, `-`, `1.2.3`, `oops` take the except branch |
| Sales.ParsedExamples | data_quality_app.py:69-72 | `-5.0`, `-5` are negative; `-0`, `-0.00`, `0`, `100`, `+7`, `120.50`, `.5`, `5.` pass |
| Email.ValidEmailIff | data_quality_app.py:79 | the email check accepts exactly the values that some split of some prefix matches `[^@]+@[^@]+\.[^@]+` against |
| Email.TrailingContentAllowed | data_quality_app.py:79 | a value that passes still passes with anything appended (the match is not anchored at the end) |
| Email.NoAtFails | data_quality_app.py:78-79 | a value without `@`, the empty default among them, fails |
| Email.EmailExamples | data_quality_app.py:79 | `a@b.com`, `x@y.com`, `a@b.c`, `a@b.c.extra`, `a@b.c@d` pass; `not-an-email`, `bad`, the empty string, `@b.com`, `a@.com`, `a@b.@c`, `a@bcom` fail |
| Rules.SalesOutcomes | data_quality_app.py:68-75 | the three outcomes of the sales rule on a row, each as an iff on the raw text; a value that does not parse is never also negative |
| Rules.SalesReadsDefault | data_quality_app.py:69 | the sales finding of a row is the rule applied to `row.get("sales", "0")` |
| Rules.SalesDefaults | data_quality_app.py:69-75 | a missing `sales` field gives no issue and no ledger key; an empty one gives "Invalid sales" with `""` recorded |
| Rules.EmailOutcome | data_quality_app.py:78-81 | the email issue is reported iff the pattern does not match `row.get("email", "")`; a missing email fails with `""` recorded |
| Rules.FindingsOfRow | data_quality_app.py:68-81 | the sales rule reports only sales issues and the email rule only the email issue |
| Rules.EntryOfFindings | data_quality_app.py:64-81 | the `row_errors` built from two findings has exactly the fields of the issues as keys, within {sales, email}, each with its raw value; it is empty iff there is no issue; issues come sales first |
| Rules.RowEntry | data_quality_app.py:64-85 | a row's ledger entry has exactly the failing fields as keys, each mapped to the row's raw value (`""` when absent); empty iff no issue; at most one issue per field, sales before email |
| Rules.RowErrorsKeys | data_quality_app.py:72-81 | a field is recorded exactly when its rule reported an issue |
| Rules.CleanFixClearsRow | data_quality_app.py:166-168 | a correction that gives every failing field a valid value, and no rule field an invalid one, leaves the row with no issue |
| Rules.UnfixedFieldStillFails | data_quality_app.py:166-168 | a failing field the correction does not touch still fails with the same recorded value |
| Report.VerdictsOfRows | data_quality_app.py:63-81 | the loop judges row `i` by the rules applied to `data[i]`, for every `i` |
| Report.VerdictsUpdate | data_quality_app.py:63-81 | editing one row changes only that row's verdict |
| Report.UpToExtends | data_quality_app.py:83-85 | the run only appends: the log and the ledger after `n` rows are prefixes of those after any `m >= n` rows |
| Report.UpToLengths | data_quality_app.py:83-85 | after any number of rows the log and the ledger have equal length, and ledger indices are below that number and strictly ascend |
| Report.UpToDescribes | data_quality_app.py:83-85 | the `k`-th log line and the `k`-th ledger entry are about the same failing row: its `row_errors` and its log line |
| Report.UpToComplete | data_quality_app.py:63-85 | every failing row visited so far has a ledger entry |
| Report.UpToShape | data_quality_app.py:63-85 | the four loop facts above together |
| Report.ValidationReport | data_quality_app.py:59-85 | one run: equal lengths, pairwise correspondence, ascending indices, an entry for row `i` iff row `i` has an issue, and an empty report for empty data |
| Report.LogLineOfFindings | data_quality_app.py:84 | a log line is `Row `, the 1-based number, `: `, then the sales description before the email description, with `, ` between them when both occur |
| Report.LogLineText | data_quality_app.py:84 | the same text for a row's own findings |
| Report.LogLineNamesRow | data_quality_app.py:84 | two equal log lines name the same row |
| Report.OtherEntriesUnchanged | data_quality_app.py:63-85 | changing one row's verdict changes no ledger entry of another row |
| Report.CleanRowUnlisted | data_quality_app.py:83-85 | a row with no issue has no ledger entry |
| Report.RevalidationAfterFix | data_quality_app.py:166-168 | after a correction that cleans row `i`, the next run's ledger is the old ledger without row `i`'s entry, and row `i` is not listed |
| Report.StaleAfterCleanFix | data_quality_app.py:166-168 | when a correction cleans a failing row, the ledger of the last run no longer matches the rows |
| App.CheckRow | data_quality_app.py:64-81 | the loop body, step by step, builds exactly the row's `issues` list and `row_errors` dict |
| App.JudgeRow | data_quality_app.py:63-81 | the loop body on the row at index `i` yields the `i`-th verdict of the run |
| App.DataQualityApp.constructor | data_quality_app.py:11-13 | a new session has no rows, no log and no ledger; its report is current and is the report of the (empty) rows last validated |
| App.DataQualityApp.Load | data_quality_app.py:46 | the rows are replaced; log, ledger and the rows last validated are kept, so the log and the ledger still describe the last run |
| App.DataQualityApp.Validate | data_quality_app.py:59-85 | only log, ledger and the rows last validated may change, so the rows stay as they are; log and ledger are reset and rebuilt to the report of the current rows, whatever they held before, and the report is current |
| App.DataQualityApp.WriteFields | data_quality_app.py:166-168 | the loop over the edited fields leaves row `rowIdx` as the old row overwritten by the edits, and every other row as it was |
| App.DataQualityApp.ApplyFix | data_quality_app.py:166-168 | the edited fields of row `rowIdx` take the new values, added when absent, and every other field and row is unchanged; an index past the end changes nothing and fails iff a field is edited; log and ledger never change and still describe the last run; a correction that cleans a failing row of a current report leaves the report stale |
| App.Session | data_quality_app.py:59-85 | validating twice gives the same report; a correction leaves it stale; the next run reports on the corrected rows and, when the correction cleans its row, drops exactly that row's entry |
| Scenario.LoadedReport | data_quality_app.py:59-85 | for the three sample rows, the log is `Row 2: Negative sales, Invalid email format`, `Row 3: Invalid sales` and the ledger records `-5`/`bad` and `oops` |
| Scenario.CorrectedReport | data_quality_app.py:59-85 | after correcting the sales of row index 2 and the email of row index 1, the report is `Row 2: Negative sales` with `-5` recorded |
| Scenario.FullyCorrectedReport | data_quality_app.py:59-85 | once the remaining sales figure is corrected too, the log and the ledger are empty |

## Left out

- Widgets, tabs, the text area, the "All data passed validation." message and every message box (lines 15-31, 34-38, 53-57, 87-94, 139-171 outside the correction loop): user interface, no engine state.
- `load_file`'s file dialog and CSV reading (lines 40-50): I/O and a foreign library. `Load` receives the rows a successful read produces; a failed read changes nothing and is not modelled.
- The password gate and the first-rows preview (lines 97-136): a placeholder check and text rendering, not part of the engine.
- `None` values that the CSV reader puts in short rows: rows are maps from strings to strings.
- General regular expressions: only the one email pattern is modelled, by a hand-written predicate.
- Sales.ClassifySales: Python's `float` also accepts surrounding whitespace, exponents, `inf`/`nan`/`infinity`, underscores between digits and non-ASCII digits. The model classifies all of these as `Unparseable`.
- Sales.ClassifySales: it compares the exact decimal value with zero, not a double. A negative literal too small for a double (hundreds of zeros after the point) rounds to `-0.0` in Python and passes there, but is `Negative` here.
- App.DataQualityApp.Validate: the run appends to local sequences and stores them in `log` and `errors` when the loop ends, where the source appends to `self.log` and `self.errors` in place. Nothing reads the two fields during the loop, so the final state is the same.
- App.DataQualityApp.ApplyFix: the row index is a natural number. The ledger only ever holds such indices, so Python's negative indexing is not modelled.
- The order in which `save_callback` visits the edited fields is not modelled: the fields are distinct keys, so the order does not change the result.
