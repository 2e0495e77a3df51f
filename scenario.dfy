/** A worked session over three rows: one clean, one with a negative sales figure and a malformed
    email, one whose sales figure does not parse. The report of the first run, the report after
    two corrections, and the empty report once every failing field is corrected. */
module Scenario {
  import opened Strings
  import opened Sales
  import opened Email
  import opened Rules
  import opened Report

  const Clean: Row := map["sales" := "100", "email" := "x@y.com"]
  const NegativeBadEmail: Row := map["sales" := "-5", "email" := "bad"]
  const UnparsedSales: Row := map["sales" := "oops", "email" := "a@b.c"]

  /** The rows as loaded. */
  const Loaded: seq<Row> := [Clean, NegativeBadEmail, UnparsedSales]

  const EmailCorrected: Row := map["sales" := "-5", "email" := "bad@fixed.com"]
  const BothCorrected: Row := map["sales" := "5", "email" := "bad@fixed.com"]
  const SalesCorrected: Row := map["sales" := "5", "email" := "a@b.c"]

  /** The rows after correcting the sales figure of the row at index 2 and the email of the row
      at index 1. */
  const Corrected: seq<Row> := [Clean, EmailCorrected, SalesCorrected]

  /** The rows after also correcting the sales figure of the row at index 1. */
  const FullyCorrected: seq<Row> := [Clean, BothCorrected, SalesCorrected]

  /** The verdict on a row holding both fields is the two rules' findings on their values. */
  lemma VerdictOfFields(row: Row, sales: string, email: string, s: Option<Issue>, e: Option<Issue>)
    requires "sales" in row && row["sales"] == sales && "email" in row && row["email"] == email
    requires SalesFinding(sales) == s && EmailFinding(email) == e
    ensures Check(row) == Verdict(IssuesOf(s, e), ErrorsOf(s, e, sales, email))
  {
  }

  lemma HundredPasses()
    ensures SalesFinding("100") == None
  {
    IntegerExamples();
  }

  lemma MinusFiveIsNegative()
    ensures SalesFinding("-5") == Some(NegativeSales)
  {
    IntegerExamples();
  }

  lemma OopsIsInvalid()
    ensures SalesFinding("oops") == Some(InvalidSales)
  {
    OopsUnparseable();
  }

  lemma CorrectedSalesPasses()
    ensures SalesFinding("5") == None
  {
    ParseNatToString(5);
    assert NatToString(5) == "5";
  }

  /** A value with a match of the pattern passes the email rule. */
  lemma MatchedEmailPasses(s: string, at: int, dot: int, end: int)
    requires MatchAt(s, at, dot, end)
    ensures EmailFinding(s) == None
  {
  }

  lemma BadEmailFails()
    ensures EmailFinding("bad") == Some(InvalidEmailFormat)
  {
    BadFails();
  }

  lemma CleanVerdict()
    ensures Check(Clean) == Verdict([], map[])
  {
    HundredPasses();
    MatchedEmailPasses("x@y.com", 1, 3, 5);
    VerdictOfFields(Clean, "100", "x@y.com", None, None);
  }

  lemma NegativeBadEmailVerdict()
    ensures Check(NegativeBadEmail) == Verdict([NegativeSales, InvalidEmailFormat], map["sales" := "-5", "email" := "bad"])
  {
    MinusFiveIsNegative();
    BadEmailFails();
    VerdictOfFields(NegativeBadEmail, "-5", "bad", Some(NegativeSales), Some(InvalidEmailFormat));
  }

  lemma UnparsedSalesVerdict()
    ensures Check(UnparsedSales) == Verdict([InvalidSales], map["sales" := "oops"])
  {
    OopsIsInvalid();
    MatchedEmailPasses("a@b.c", 1, 3, 5);
    VerdictOfFields(UnparsedSales, "oops", "a@b.c", Some(InvalidSales), None);
  }

  lemma EmailCorrectedVerdict()
    ensures Check(EmailCorrected) == Verdict([NegativeSales], map["sales" := "-5"])
  {
    MinusFiveIsNegative();
    MatchedEmailPasses("bad@fixed.com", 3, 9, 11);
    VerdictOfFields(EmailCorrected, "-5", "bad@fixed.com", Some(NegativeSales), None);
  }

  lemma BothCorrectedVerdict()
    ensures Check(BothCorrected) == Verdict([], map[])
  {
    CorrectedSalesPasses();
    MatchedEmailPasses("bad@fixed.com", 3, 9, 11);
    VerdictOfFields(BothCorrected, "5", "bad@fixed.com", None, None);
  }

  lemma SalesCorrectedVerdict()
    ensures Check(SalesCorrected) == Verdict([], map[])
  {
    CorrectedSalesPasses();
    MatchedEmailPasses("a@b.c", 1, 3, 5);
    VerdictOfFields(SalesCorrected, "5", "a@b.c", None, None);
  }

  lemma BothIssuesSpelling()
    ensures "Row " + "2" + ": " + "Negative sales" + ", " + "Invalid email format" == "Row 2: Negative sales, Invalid email format"
  {
    assert "Row " + "2" + ": " == "Row 2: ";
    assert "Row 2: " + "Negative sales" == "Row 2: Negative sales";
    assert "Row 2: Negative sales" + ", " == "Row 2: Negative sales, ";
  }

  lemma NegativeSalesSpelling()
    ensures "Row " + "2" + ": " + "Negative sales" == "Row 2: Negative sales"
  {
    assert "Row " + "2" + ": " == "Row 2: ";
  }

  lemma InvalidSalesSpelling()
    ensures "Row " + "3" + ": " + "Invalid sales" == "Row 3: Invalid sales"
  {
    assert "Row " + "3" + ": " == "Row 3: ";
  }

  lemma SecondRowPieces()
    ensures LogLine(1, [NegativeSales, InvalidEmailFormat]) == "Row " + "2" + ": " + "Negative sales" + ", " + "Invalid email format"
  {
    LogLineOfFindings(1, Some(NegativeSales), Some(InvalidEmailFormat));
    assert NatToString(2) == "2";
  }

  lemma SecondRowSalesPieces()
    ensures LogLine(1, [NegativeSales]) == "Row " + "2" + ": " + "Negative sales"
  {
    LogLineOfFindings(1, Some(NegativeSales), None);
    assert NatToString(2) == "2";
  }

  lemma ThirdRowPieces()
    ensures LogLine(2, [InvalidSales]) == "Row " + "3" + ": " + "Invalid sales"
  {
    LogLineOfFindings(2, Some(InvalidSales), None);
    assert NatToString(3) == "3";
  }

  /** The log lines of the session, spelled out. */
  lemma SessionLines()
    ensures LogLine(1, [NegativeSales, InvalidEmailFormat]) == "Row 2: Negative sales, Invalid email format"
    ensures LogLine(1, [NegativeSales]) == "Row 2: Negative sales"
    ensures LogLine(2, [InvalidSales]) == "Row 3: Invalid sales"
  {
    SecondRowPieces();
    SecondRowSalesPieces();
    ThirdRowPieces();
    BothIssuesSpelling();
    NegativeSalesSpelling();
    InvalidSalesSpelling();
  }

  /** The verdicts on three rows are the verdicts on each, in order. */
  lemma VerdictsOfThree(a: Row, b: Row, c: Row)
    ensures Verdicts([a, b, c]) == [Check(a), Check(b), Check(c)]
  {
    assert [a][..0] == [];
    assert Verdicts([a]) == [Check(a)];
    assert [a, b][..1] == [a];
    assert Verdicts([a, b]) == [Check(a), Check(b)];
    assert [a, b, c][..2] == [a, b];
  }

  function LineOf(i: nat, v: Verdict): seq<string> {
    if v.issues != [] then [LogLine(i, v.issues)] else []
  }

  function EntryOf(i: nat, v: Verdict): seq<LedgerEntry> {
    if v.issues != [] then [(i, v.errors)] else []
  }

  /** The report over three verdicts: each failing one contributes its line and its entry, in order. */
  lemma ReportOfThree(a: Verdict, b: Verdict, c: Verdict)
    ensures LogUpTo([a, b, c], 3) == LineOf(0, a) + LineOf(1, b) + LineOf(2, c)
    ensures LedgerUpTo([a, b, c], 3) == EntryOf(0, a) + EntryOf(1, b) + EntryOf(2, c)
  {
    var v := [a, b, c];
    assert LogUpTo(v, 1) == LineOf(0, a) && LedgerUpTo(v, 1) == EntryOf(0, a);
    assert LogUpTo(v, 2) == LineOf(0, a) + LineOf(1, b) && LedgerUpTo(v, 2) == EntryOf(0, a) + EntryOf(1, b);
  }

  lemma LoadedVerdicts()
    ensures Verdicts(Loaded) == [Verdict([], map[]),
                                 Verdict([NegativeSales, InvalidEmailFormat], map["sales" := "-5", "email" := "bad"]),
                                 Verdict([InvalidSales], map["sales" := "oops"])]
  {
    VerdictsOfThree(Clean, NegativeBadEmail, UnparsedSales);
    CleanVerdict();
    NegativeBadEmailVerdict();
    UnparsedSalesVerdict();
  }

  lemma CorrectedVerdicts()
    ensures Verdicts(Corrected) == [Verdict([], map[]), Verdict([NegativeSales], map["sales" := "-5"]), Verdict([], map[])]
  {
    VerdictsOfThree(Clean, EmailCorrected, SalesCorrected);
    CleanVerdict();
    EmailCorrectedVerdict();
    SalesCorrectedVerdict();
  }

  lemma FullyCorrectedVerdicts()
    ensures Verdicts(FullyCorrected) == [Verdict([], map[]), Verdict([], map[]), Verdict([], map[])]
  {
    VerdictsOfThree(Clean, BothCorrected, SalesCorrected);
    CleanVerdict();
    BothCorrectedVerdict();
    SalesCorrectedVerdict();
  }

  /** The report of the first run: rows 2 and 3 fail, row 2 on both rules. */
  lemma LoadedReport()
    ensures ValidationLog(Loaded) == ["Row 2: Negative sales, Invalid email format", "Row 3: Invalid sales"]
    ensures ValidationLedger(Loaded) == [(1, map["sales" := "-5", "email" := "bad"]), (2, map["sales" := "oops"])]
  {
    LoadedVerdicts();
    ReportOfThree(Verdict([], map[]),
                  Verdict([NegativeSales, InvalidEmailFormat], map["sales" := "-5", "email" := "bad"]),
                  Verdict([InvalidSales], map["sales" := "oops"]));
    SessionLines();
  }

  /** After the two corrections the row at index 1 still has its negative sales figure, so the
      report is not empty. */
  lemma CorrectedReport()
    ensures ValidationLog(Corrected) == ["Row 2: Negative sales"]
    ensures ValidationLedger(Corrected) == [(1, map["sales" := "-5"])]
  {
    CorrectedVerdicts();
    ReportOfThree(Verdict([], map[]), Verdict([NegativeSales], map["sales" := "-5"]), Verdict([], map[]));
    assert LineOf(1, Verdict([NegativeSales], map["sales" := "-5"])) == [LogLine(1, [NegativeSales])];
    SecondRowSalesPieces();
    NegativeSalesSpelling();
  }

  /** Once every failing field holds a valid value, the report is empty. */
  lemma FullyCorrectedReport()
    ensures ValidationLog(FullyCorrected) == [] && ValidationLedger(FullyCorrected) == []
  {
    FullyCorrectedVerdicts();
    ReportOfThree(Verdict([], map[]), Verdict([], map[]), Verdict([], map[]));
  }

  /** The two corrections of the session, written into the loaded rows, give the corrected rows. */
  lemma FirstCorrections()
    ensures Loaded[2 := Loaded[2] + map["sales" := "5"]][1 := Loaded[1] + map["email" := "bad@fixed.com"]] == Corrected
  {
    assert UnparsedSales + map["sales" := "5"] == SalesCorrected;
    assert NegativeBadEmail + map["email" := "bad@fixed.com"] == EmailCorrected;
  }

  /** The third correction gives the fully corrected rows. */
  lemma LastCorrection()
    ensures Corrected[1 := Corrected[1] + map["sales" := "5"]] == FullyCorrected
  {
    assert EmailCorrected + map["sales" := "5"] == BothCorrected;
  }
}
