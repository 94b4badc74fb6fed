/**
 * `scrape_index` and the driver at the bottom of the script: parse the
 * filename, consult the duplicate guard and the OCR flag, extract and filter
 * the terms, append them to the ledger; and, for the whole run, create a
 * missing ledger and process every listed PDF until one fails fatally.
 */
module Scrape {
  import opened Wrappers
  import opened Text
  import opened Listing
  import opened FileName
  import opened Pages
  import opened Terms
  import opened Masterlist

  /** The failures that the source does not catch and that end the whole run. */
  datatype Fatal =
    | NoIsbnMatch     // `.group(1)` on the None of a failed search
    | LedgerMissing   // `read_csv` on a missing masterlist
    | PdfUnreadable   // opening or reading the PDF fails

  /** What processing one file comes to. */
  datatype Outcome =
    | Failed(reason: Fatal)
    | SkippedDuplicate
    | SkippedOcr
    | Appended(rows: seq<Row>)

  /** The rows an outcome adds to the ledger. */
  function Added(o: Outcome): seq<Row>
  {
    if o.Appended? then o.rows else []
  }

  /**
   * The decision `scrape_index` makes for `filename`, in the source's order:
   * ISBN first, then reading the ledger, then the duplicate guard `seen`
   * (applied to the ledger's rows and the ISBN), then the OCR flag, then the
   * PDF (None when it cannot be opened or read). Terms are appended exactly
   * when the ISBN is found, the ledger exists, the guard passes, the name is
   * not flagged for OCR and the PDF can be read. The failure is fatal exactly
   * when the ISBN is missing, the ledger is missing, or the PDF cannot be read
   * for a file that neither the guard nor the OCR flag skipped.
   */
  function Decide(filename: string, present: bool, rows: seq<Row>,
                  seen: (seq<Row>, string) -> bool, pdf: Option<Pdf>): (r: Outcome)
    ensures r.Appended? <==>
      Isbn(filename).Some? && present && !seen(rows, Isbn(filename).value) && !NeedsOcr(filename) && pdf.Some?
    ensures r.Failed? <==>
      Isbn(filename).None? || !present || (!seen(rows, Isbn(filename).value) && !NeedsOcr(filename) && pdf.None?)
  {
    match Isbn(filename)
    case None => Failed(NoIsbnMatch)
    case Some(isbn) =>
      if !present then Failed(LedgerMissing)
      else if seen(rows, isbn) then SkippedDuplicate
      else if NeedsOcr(filename) then SkippedOcr
      else if pdf.None? then Failed(PdfUnreadable)
      else Appended(Keep(TermsOf(RevConcat(PageTexts(pdf.value))), isbn))
  }

  /** A row the filter can produce: its term holds a letter and neither a comma nor a line feed. */
  predicate WellFormed(row: Row)
  {
    HasLetter(row.term) && ',' !in row.term && '\n' !in row.term
  }

  /**
   * Every appended row carries the filename's ISBN, a run of digits, and a
   * well-formed term; the rows are exactly the lettered terms of the
   * reversed-page text, in order.
   */
  lemma DecideRows(filename: string, present: bool, rows: seq<Row>,
                   seen: (seq<Row>, string) -> bool, pdf: Option<Pdf>)
    requires Decide(filename, present, rows, seen, pdf).Appended?
    ensures Isbn(filename).Some? && pdf.Some?
    ensures Decide(filename, present, rows, seen, pdf).rows ==
      Keep(TermsOf(RevConcat(PageTexts(pdf.value))), Isbn(filename).value)
    ensures forall row :: row in Decide(filename, present, rows, seen, pdf).rows ==>
      row.isbn == Isbn(filename).value && WellFormed(row)
    ensures forall row :: row in Decide(filename, present, rows, seen, pdf).rows ==>
      row.term in TermsOf(RevConcat(PageTexts(pdf.value)))
  {
    var text := RevConcat(PageTexts(pdf.value));
    TermsOfSpec(text);
    var pieces := TermsOf(text);
    forall row | row in Decide(filename, present, rows, seen, pdf).rows
      ensures row.isbn == Isbn(filename).value && WellFormed(row)
    {
      var k :| 0 <= k < |pieces| && pieces[k] == row.term;
    }
  }

  /**
   * Once the ISBN is found, the ledger is read and the guard passes, the file
   * is skipped for OCR exactly when its name holds `ocry` in any case.
   */
  lemma OcrSkipIff(filename: string, rows: seq<Row>,
                   seen: (seq<Row>, string) -> bool, pdf: Option<Pdf>)
    requires Isbn(filename).Some? && !seen(rows, Isbn(filename).value)
    ensures Decide(filename, true, rows, seen, pdf) == SkippedOcr <==> exists i: nat :: OcryAt(filename, i)
  {
  }

  /**
   * A file the duplicate guard flags is skipped before its PDF is touched, so
   * it never ends the run, even when the PDF cannot be read.
   */
  lemma DuplicateIsSkipped(rows: seq<Row>, f: string, rest: seq<string>,
                           seen: (seq<Row>, string) -> bool, pdfOf: string -> Option<Pdf>)
    requires Isbn(f).Some? && seen(rows, Isbn(f).value)
    ensures Decide(f, true, rows, seen, pdfOf(f)) == SkippedDuplicate
    ensures Run(rows, [f] + rest, seen, pdfOf) == Run(rows, rest, seen, pdfOf)
  {
    assert ([f] + rest)[1..] == rest;
    assert rows + [] == rows;
  }

  /** A name flagged for OCR but without an ISBN match still fails fatally. */
  lemma NoIsbnBeatsOcr(filename: string, present: bool, rows: seq<Row>,
                       seen: (seq<Row>, string) -> bool, pdf: Option<Pdf>)
    requires !exists j: nat, m: nat :: MatchesAt(filename, j, m)
    ensures Decide(filename, present, rows, seen, pdf) == Failed(NoIsbnMatch)
  {
  }

  /** `scrape_index(filename)` acting on the ledger. */
  method ScrapeIndex(ledger: Ledger, filename: string,
                     seen: (seq<Row>, string) -> bool, pdf: Option<Pdf>) returns (outcome: Outcome)
    requires ledger.Valid()
    modifies ledger
    ensures ledger.Valid()
    ensures outcome == Decide(filename, old(ledger.present), old(ledger.rows), seen, pdf)
    ensures ledger.present == old(ledger.present) && ledger.header == old(ledger.header)
    ensures ledger.rows == old(ledger.rows) + Added(outcome)
  {
    var found := Isbn(filename);
    if found.None? {
      return Failed(NoIsbnMatch);
    }
    var isbn := found.value;
    if !ledger.present {
      return Failed(LedgerMissing);
    }
    if seen(ledger.rows, isbn) {
      return SkippedDuplicate;
    }
    if NeedsOcr(filename) {
      return SkippedOcr;
    }
    if pdf.None? {
      return Failed(PdfUnreadable);
    }
    var df := CollectPages(pdf.value);
    assert df == PageTexts(pdf.value);
    var text := Accumulate(df);
    var filtered := FilterTerms(TermsOf(text), isbn);
    ledger.Append(filtered);
    outcome := Appended(filtered);
  }

  /** How a run ends: every file handled, or stopped by a fatal failure in `file`. */
  datatype Status = Completed | Aborted(file: string, reason: Fatal)

  /** The ledger rows and the status at the end of a run. */
  datatype RunResult = RunResult(rows: seq<Row>, status: Status)

  /**
   * Processing `names` in order against an existing ledger holding `rows`;
   * the first fatal failure ends the run with the rows appended so far.
   * The ledger is append-only: every earlier row stays in place.
   */
  function Run(rows: seq<Row>, names: seq<string>,
               seen: (seq<Row>, string) -> bool, pdfOf: string -> Option<Pdf>): (r: RunResult)
    ensures rows <= r.rows
    ensures r.status.Aborted? ==> r.status.file in names
    decreases |names|
  {
    if names == [] then RunResult(rows, Completed)
    else
      var o := Decide(names[0], true, rows, seen, pdfOf(names[0]));
      if o.Failed? then RunResult(rows, Aborted(names[0], o.reason))
      else Run(rows + Added(o), names[1..], seen, pdfOf)
  }

  /** Every row a run adds is well-formed, whatever the ledger held before. */
  lemma {:induction false} RunAddsWellFormedRows(rows: seq<Row>, names: seq<string>,
                                                 seen: (seq<Row>, string) -> bool, pdfOf: string -> Option<Pdf>)
    ensures forall k :: |rows| <= k < |Run(rows, names, seen, pdfOf).rows| ==>
      WellFormed(Run(rows, names, seen, pdfOf).rows[k])
    decreases |names|
  {
    if names != [] {
      var o := Decide(names[0], true, rows, seen, pdfOf(names[0]));
      if !o.Failed? {
        var next := rows + Added(o);
        var r := Run(next, names[1..], seen, pdfOf);
        RunAddsWellFormedRows(next, names[1..], seen, pdfOf);
        if o.Appended? {
          DecideRows(names[0], true, rows, seen, pdfOf(names[0]));
        }
        forall k | |rows| <= k < |next| ensures WellFormed(r.rows[k]) {
          assert r.rows[k] == next[k] == o.rows[k - |rows|];
          assert o.rows[k - |rows|] in o.rows;
        }
      }
    }
  }

  /** Files are handled one after another: a run over `a + b` is a run over `a`, then, unless it aborted, over `b`. */
  lemma {:induction false} RunConcat(rows: seq<Row>, a: seq<string>, b: seq<string>,
                                     seen: (seq<Row>, string) -> bool, pdfOf: string -> Option<Pdf>)
    ensures Run(rows, a + b, seen, pdfOf) ==
      var r := Run(rows, a, seen, pdfOf);
      if r.status.Completed? then Run(r.rows, b, seen, pdfOf) else r
    decreases |a|
  {
    if a == [] {
      assert a + b == b;
    } else {
      assert (a + b)[0] == a[0];
      assert (a + b)[1..] == a[1..] + b;
      var o := Decide(a[0], true, rows, seen, pdfOf(a[0]));
      if !o.Failed? {
        RunConcat(rows + Added(o), a[1..], b, seen, pdfOf);
      }
    }
  }

  /** The driver: ensure the ledger exists, then scrape every listed PDF in listing order. */
  method ScrapeAll(ledger: Ledger, listing: seq<string>,
                   seen: (seq<Row>, string) -> bool, pdfOf: string -> Option<Pdf>) returns (status: Status)
    requires ledger.Valid()
    modifies ledger
    ensures ledger.Valid() && ledger.present
    ensures ledger.header == if old(ledger.present) then old(ledger.header) else Header
    ensures RunResult(ledger.rows, status) == Run(old(ledger.rows), PdfNames(listing), seen, pdfOf)
  {
    ledger.EnsureExists();
    ghost var goal := Run(ledger.rows, PdfNames(listing), seen, pdfOf);
    var i := 0;
    while i < |listing|
      invariant 0 <= i <= |listing|
      invariant ledger.Valid() && ledger.present
      invariant ledger.header == if old(ledger.present) then old(ledger.header) else Header
      invariant Run(ledger.rows, PdfNames(listing[i..]), seen, pdfOf) == goal
    {
      var name := listing[i];
      assert listing[i..][1..] == listing[i + 1..];
      if IsPdfName(name) {
        var outcome := ScrapeIndex(ledger, name, seen, pdfOf(name));
        if outcome.Failed? {
          return Aborted(name, outcome.reason);
        }
      }
      i := i + 1;
    }
    status := Completed;
  }

  /** Without any PDF in the listing, a run changes no row. */
  lemma NoPdfsNoChange(rows: seq<Row>, listing: seq<string>,
                       seen: (seq<Row>, string) -> bool, pdfOf: string -> Option<Pdf>)
    requires forall k :: 0 <= k < |listing| ==> !IsPdfName(listing[k])
    ensures Run(rows, PdfNames(listing), seen, pdfOf) == RunResult(rows, Completed)
  {
    PdfNamesNonePass(listing);
  }

  /**
   * Pages `A\nB` and `C\nD` give the terms `C`, `DA`, `B`: the pages are
   * joined last-first with nothing between them, so `D` and `A` meet.
   */
  lemma TwoPageTerms()
    ensures TermsOf(RevConcat(["A\nB", "C\nD"])) == ["C", "DA", "B"]
  {
    TwoPages("A\nB", "C\nD");
    assert ReplaceNewlines("C\nD" + "A\nB") == "C,DA,B";
    assert Join(["C", "DA", "B"], ',') == "C,DA,B";
    SplitJoin(["C", "DA", "B"], ',');
  }

  /**
   * A template name whose only `pdf` is the upper-case extension, such as
   * `Smith_ocrN_9780131.PDF`, passes the filter, but the ISBN pattern wants
   * lower-case `pdf`, so the run stops on it with a fatal failure.
   */
  lemma UpperCaseExtensionAborts(rows: seq<Row>,
                                 seen: (seq<Row>, string) -> bool, pdfOf: string -> Option<Pdf>)
    ensures IsPdfName("Smith_ocrN_9780131.PDF")
    ensures Run(rows, PdfNames(["Smith_ocrN_9780131.PDF"]), seen, pdfOf) ==
      RunResult(rows, Aborted("Smith_ocrN_9780131.PDF", NoIsbnMatch))
  {
    var s := "Smith_ocrN_9780131.PDF";
    assert forall k :: 0 <= k < |s| ==> s[k] != 'p';
    forall j: nat, m: nat ensures !MatchesAt(s, j, m) {
      if j + m + 4 <= |s| {
        assert s[j + m + 1..j + m + 4][0] == s[j + m + 1] != 'p';
      }
    }
    assert PdfNames([s]) == [s];
  }
}
