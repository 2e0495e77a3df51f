/** The rule set applied to one row (data_quality_app.py, the body of the loop in
    `validate_data`): the sales rule, then the email rule, and the ledger entry they build. */
module Rules {
  import opened Strings
  import opened Sales
  import opened Email

  /** One loaded record: field name to raw string value. */
  type Row = map<string, string>

  /** The findings a rule can report, in the words the log uses. */
  datatype Issue = InvalidSales | NegativeSales | InvalidEmailFormat

  function Describe(issue: Issue): string {
    match issue
    case InvalidSales => "Invalid sales"
    case NegativeSales => "Negative sales"
    case InvalidEmailFormat => "Invalid email format"
  }

  /** The field whose rule reports the issue. */
  function FieldOf(issue: Issue): string {
    if issue == InvalidEmailFormat then "email" else "sales"
  }

  /** Python's `row.get(field, default)`. */
  function Get(row: Row, field: string, default: string): string {
    if field in row then row[field] else default
  }

  /** The sales rule on a raw value: `float(value)` failing, or succeeding below zero. */
  function SalesFinding(raw: string): Option<Issue> {
    match ClassifySales(raw)
    case Unparseable => Some(InvalidSales)
    case Negative => Some(NegativeSales)
    case NonNegative => None
  }

  /** The email rule on a raw value: `re.match` finds no match. */
  ghost function EmailFinding(raw: string): Option<Issue> {
    if RegexMatches(raw) then None else Some(InvalidEmailFormat)
  }

  /** What the sales rule reads when a row has no `sales` field. */
  const SalesDefault: string := "0"

  /** The sales rule on a row; a row without the field is read as "0", which passes
      (`SalesReadsDefault`). */
  function SalesIssue(row: Row): Option<Issue> {
    if "sales" in row then SalesFinding(row["sales"]) else None
  }

  /** The sales rule on a row is the rule on `row.get("sales", "0")`. */
  lemma SalesReadsDefault(row: Row)
    ensures SalesIssue(row) == SalesFinding(Get(row, "sales", SalesDefault))
  {
    ZeroIsNonNegative();
  }

  /** The email rule on a row reads `row.get("email", "")`. */
  ghost function EmailIssue(row: Row): Option<Issue> {
    EmailFinding(Get(row, "email", ""))
  }

  function ListOf(o: Option<Issue>): seq<Issue> {
    if o.Some? then [o.value] else []
  }

  /** The `issues` list a row with these two findings produces: the sales finding, then the email finding. */
  function IssuesOf(sales: Option<Issue>, email: Option<Issue>): seq<Issue> {
    ListOf(sales) + ListOf(email)
  }

  /** The `row_errors` dict a row with these two findings produces. */
  function ErrorsOf(sales: Option<Issue>, email: Option<Issue>, salesRaw: string, emailRaw: string): Row {
    var recorded := if sales.Some? then map["sales" := salesRaw] else map[];
    if email.Some? then recorded["email" := emailRaw] else recorded
  }

  /** The `issues` list of one row. */
  ghost function RowIssues(row: Row): seq<Issue> {
    IssuesOf(SalesIssue(row), EmailIssue(row))
  }

  /** The `row_errors` dict of one row: each failing field with its raw value, `""` when absent. */
  ghost function RowErrors(row: Row): Row {
    ErrorsOf(SalesIssue(row), EmailIssue(row), Get(row, "sales", ""), Get(row, "email", ""))
  }

  /** The sales rule's three outcomes, stated on the raw text; at most one sales issue per row,
      and a value that does not parse is never also reported as negative. */
  lemma SalesOutcomes(row: Row)
    ensures SalesIssue(row) == Some(InvalidSales) <==> "sales" in row && !DecimalLiteral(row["sales"])
    ensures SalesIssue(row) == Some(NegativeSales)
        <==> "sales" in row && DecimalLiteral(row["sales"]) && row["sales"][0] == '-' && HasNonzeroDigit(row["sales"])
    ensures SalesIssue(row) == None
        <==> "sales" !in row || (DecimalLiteral(row["sales"]) && !(row["sales"][0] == '-' && HasNonzeroDigit(row["sales"])))
  {
    ZeroIsNonNegative();
    if "sales" in row {
      UnparseableIff(row["sales"]);
      NegativeIff(row["sales"]);
    }
  }

  /** A missing `sales` field is read as "0" and never fails; an empty one fails to parse and
      the ledger records the empty string. */
  lemma SalesDefaults(row: Row)
    ensures "sales" !in row ==> SalesIssue(row) == None && "sales" !in RowErrors(row)
    ensures "sales" in row && row["sales"] == "" ==>
      SalesIssue(row) == Some(InvalidSales) && "sales" in RowErrors(row) && RowErrors(row)["sales"] == ""
  {
    ZeroIsNonNegative();
    EmptyIsUnparseable();
    RowEntry(row);
  }

  /** The email rule fails exactly when the start-anchored pattern does not match the value,
      and a missing email fails with `""` recorded. */
  lemma EmailOutcome(row: Row)
    ensures EmailIssue(row) == Some(InvalidEmailFormat) <==> !RegexMatches(Get(row, "email", ""))
    ensures EmailIssue(row) == None <==> RegexMatches(Get(row, "email", ""))
    ensures "email" !in row ==> EmailIssue(row) == Some(InvalidEmailFormat) && "email" in RowErrors(row) && RowErrors(row)["email"] == ""
  {
    ValidEmailIff(Get(row, "email", ""));
    NoAtFails("");
    RowEntry(row);
  }

  /** Issues come in rule order: at most one per field, sales before email. */
  predicate RuleOrder(issues: seq<Issue>) {
    forall a, b :: 0 <= a < b < |issues| ==> FieldOf(issues[a]) == "sales" && FieldOf(issues[b]) == "email"
  }

  /** Whether the two findings are ones the sales and the email rule can report. */
  predicate Findings(sales: Option<Issue>, email: Option<Issue>) {
    (sales.Some? ==> sales.value != InvalidEmailFormat) && (email.Some? ==> email.value == InvalidEmailFormat)
  }

  /** The two findings of a row are ones the sales and the email rule can report. */
  lemma FindingsOfRow(row: Row)
    ensures Findings(SalesIssue(row), EmailIssue(row))
  {
  }

  /** The entry built from two findings lists exactly the fields of the issues, with their raw values. */
  lemma EntryOfFindings(sales: Option<Issue>, email: Option<Issue>, salesRaw: string, emailRaw: string)
    requires Findings(sales, email)
    ensures var issues, errors := IssuesOf(sales, email), ErrorsOf(sales, email, salesRaw, emailRaw);
      && errors.Keys == (set issue | issue in issues :: FieldOf(issue))
      && errors.Keys <= {"sales", "email"}
      && ("sales" in errors ==> errors["sales"] == salesRaw)
      && ("email" in errors ==> errors["email"] == emailRaw)
      && (errors == map[] <==> issues == [])
      && |issues| == |errors| <= 2
      && RuleOrder(issues)
  {
    var issues := IssuesOf(sales, email);
    var errors := ErrorsOf(sales, email, salesRaw, emailRaw);
    var fields := set issue | issue in issues :: FieldOf(issue);
    var salesKey: set<string> := if sales.Some? then {"sales"} else {};
    var emailKey: set<string> := if email.Some? then {"email"} else {};
    assert fields == salesKey + emailKey by {
      forall f | f in fields ensures f in salesKey + emailKey {
        var issue :| issue in issues && FieldOf(issue) == f;
        if issue in ListOf(email) {
          assert issue == InvalidEmailFormat;
        } else {
          assert issue in ListOf(sales);
        }
      }
      if sales.Some? {
        assert sales.value in issues;
      }
      if email.Some? {
        assert InvalidEmailFormat in issues;
      }
    }
    assert errors.Keys == salesKey + emailKey;
    assert |errors| == |errors.Keys|;
    if |issues| == 2 {
      assert issues[0] == sales.value && issues[1] == InvalidEmailFormat;
    }
  }

  /** The ledger entry of a row lists exactly the fields of the issues the row produced, each with
      the row's raw value for it, and is empty exactly when the row has no issue. */
  lemma RowEntry(row: Row)
    ensures RowErrors(row).Keys == set issue | issue in RowIssues(row) :: FieldOf(issue)
    ensures RowErrors(row).Keys <= {"sales", "email"}
    ensures forall f :: f in RowErrors(row) ==> RowErrors(row)[f] == Get(row, f, "")
    ensures RowErrors(row) == map[] <==> RowIssues(row) == []
    ensures |RowIssues(row)| == |RowErrors(row)| <= 2
    ensures RuleOrder(RowIssues(row))
  {
    EntryOfFindings(SalesIssue(row), EmailIssue(row), Get(row, "sales", ""), Get(row, "email", ""));
  }

  /** Whether `edits` replace every failing field of `row` and give valid values to whatever
      rule fields they touch. */
  ghost predicate CleansRow(row: Row, edits: map<string, string>) {
    && (forall f :: f in RowErrors(row) ==> f in edits)
    && ("sales" in edits ==> ClassifySales(edits["sales"]) == NonNegative)
    && ("email" in edits ==> ValidEmail(edits["email"]))
  }

  /** A field is in a row's ledger entry exactly when its rule reported an issue. */
  lemma RowErrorsKeys(row: Row)
    ensures "sales" in RowErrors(row) <==> SalesIssue(row).Some?
    ensures "email" in RowErrors(row) <==> EmailIssue(row).Some?
  {
  }

  lemma FixedSalesPasses(row: Row, edits: map<string, string>)
    requires CleansRow(row, edits)
    ensures SalesIssue(row + edits) == None
  {
    var fixed := row + edits;
    if "sales" in edits {
      assert Get(fixed, "sales", SalesDefault) == edits["sales"];
    } else {
      RowErrorsKeys(row);
      assert Get(fixed, "sales", SalesDefault) == Get(row, "sales", SalesDefault);
    }
  }

  lemma FixedEmailPasses(row: Row, edits: map<string, string>)
    requires CleansRow(row, edits)
    ensures EmailIssue(row + edits) == None
  {
    var fixed := row + edits;
    if "email" in edits {
      ValidEmailIff(edits["email"]);
      assert Get(fixed, "email", "") == edits["email"];
    } else {
      RowErrorsKeys(row);
      assert Get(fixed, "email", "") == Get(row, "email", "");
    }
  }

  /** A correction that replaces every failing field by a valid value leaves a row with no issue. */
  lemma CleanFixClearsRow(row: Row, edits: map<string, string>)
    requires CleansRow(row, edits)
    ensures RowIssues(row + edits) == []
  {
    FixedSalesPasses(row, edits);
    FixedEmailPasses(row, edits);
  }

  /** A failing field a correction leaves alone still fails, with the same recorded value. */
  lemma UnfixedFieldStillFails(row: Row, edits: map<string, string>, f: string)
    requires f in RowErrors(row) && f !in edits
    ensures f in RowErrors(row + edits) && RowErrors(row + edits)[f] == RowErrors(row)[f]
  {
    RowEntry(row);
    var fixed := row + edits;
    RowEntry(fixed);
    assert Get(fixed, f, "") == Get(row, f, "");
    if f == "sales" {
      assert Get(fixed, "sales", SalesDefault) == Get(row, "sales", SalesDefault);
      assert SalesIssue(fixed) == SalesIssue(row);
    } else {
      assert Get(fixed, "email", "") == Get(row, "email", "");
      assert EmailIssue(fixed) == EmailIssue(row);
    }
  }
}
