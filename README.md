# textbook-scraper: a Dafny model of `scrape_all.py`

`scrape_all.py` is a batch script that builds a cross-textbook term index. It
lists a directory of index PDFs named `<Author>_ocr<Y|N>_<ISBN>.pdf` and keeps
the names ending in `pdf` (any case). It makes sure the CSV ledger
("masterlist") exists. Then it runs `scrape_index` on each file in turn.
`scrape_index` takes the ISBN from the filename with the regular expression
`(\d+).pdf`. It skips the file when the duplicate guard fires or when the name
holds `ocry` in any case. Otherwise it reads every page's text and builds one
text by prepending each page, so the last page comes first. It turns line
feeds into commas, splits on commas, keeps the pieces that hold a letter, and
appends them to the ledger as `(term, ISBN)` rows.

The model, one module per concern:

- `Text` (text.dfy): ASCII lower-casing, digits, letters, and counting.
- `Listing` (listing.dfy): the extension filter `s[-3:].lower() == "pdf"` and the filtered listing.
- `FileName` (filename.dfy): the ISBN search and the OCR flag.
  - The ISBN search is modelled as the regex engine runs it. It tries the leftmost start first. There it takes the greedy digit run and backtracks to shorter runs. `.` matches any character except a line feed.
  - Its contract says the match is leftmost, has the longest group at that start, and that no match is missed.
- `Pages` (pages.dfy): the loop that collects one text per page, and the loop that prepends each page to the text.
- `Terms` (terms.dfy): `replace("\n", ",")`, Python's `split(",")`, and the loop that keeps lettered pieces.
- `Masterlist` (masterlist.dfy): the ledger file as a class. Its state is whether it exists, its header columns and its rows. Its two methods are creation and append.
- `Scrape` (scrape.dfy): the decision `scrape_index` makes for one file, the method that carries it out on the ledger, and the driver loop.
  - An uncaught exception ends the whole run. The driver therefore returns `Aborted(file, reason)` with the rows appended so far.

Inputs the script reads from outside are parameters:

- the directory listing (`seq<string>`);
- whether the ledger exists and what it holds (a `Ledger` object);
- for each file name, the PDF reader's page count and page texts, or `None` when the file cannot be opened or read;
- the duplicate guard, as a function `seen(rows, isbn)` of the ledger rows and the ISBN.

Two behaviours of the code that are easy to misread:

- Pages are joined with nothing between them, so the last line of one page and the first line of the next form one term. With page texts `A\nB` and `C\nD`, the terms are `C`, `DA`, `B` (`Scrape.TwoPageTerms`).
- The ISBN is not simply the digits before `.pdf`: the dot in the pattern is a wildcard, and the leftmost match wins. In `123pdf` the group is `12` (`FileName.DotTakesLastDigit`).

The extension filter ignores case, but the ISBN pattern needs a lower-case `pdf` somewhere in the name. A template name whose only `pdf` is an upper-case extension, such as `Smith_ocrN_9780131.PDF`, therefore passes the filter and then ends the run with a fatal failure (`Scrape.UpperCaseExtensionAborts`).

## Model

A few definitions state what a source expression computes and serve as the reference the rows below are proved against:
- `Listing.LastThree` is `s[-3:]` (scrape_all.py:71).
- `Text.HasLetter` is `any(c.isalpha() for c in str(term))` (scrape_all.py:63).
- `Pages.PageTexts` is the page list (scrape_all.py:47-52).
- `Pages.RevConcat` is the closed form of the prepend loop (scrape_all.py:54-56).

| member | source | states |
|---|---|---|
| `Listing.IsPdfName` | scrape_all.py:71 | the filter keeps a name exactly when it has at least three characters and the last three lower-case to `p`, `d`, `f`; no dot is needed and shorter names are dropped |
| `Listing.PdfNames` | scrape_all.py:69-71 | the filtered listing holds exactly the listed names that pass the filter and is no longer than the listing |
| `Listing.PdfNamesConcat` | scrape_all.py:71 | filtering distributes over concatenation of listings, so listing order is kept |
| `Listing.PdfNamesAllPass` | scrape_all.py:71 | a listing whose names all pass comes through unchanged |
| `Listing.PdfNamesNonePass` | scrape_all.py:71 | a listing in which no name passes filters down to nothing |
| `FileName.DigitRun` | scrape_all.py:29 | greedy `\d+` takes the maximal run of digits at the start position |
| `FileName.Backtrack` | scrape_all.py:29 | backtracking from `n` digits returns the longest group length of at most `n` after which one non-line-feed character and `pdf` follow, or reports that no such length exists |
| `FileName.TryAt` | scrape_all.py:29 | an attempt at one start finds the longest group with which the pattern matches there, or none when no group length matches |
| `FileName.Search` | scrape_all.py:29 | the search returns the leftmost start at which the pattern matches, with the longest group there; it returns nothing only when no start matches |
| `FileName.Isbn` | scrape_all.py:29 | an ISBN is found exactly when the pattern matches somewhere; it is a non-empty run of digits, the group of the leftmost match with the longest group there |
| `FileName.IsbnIsLeftmostLongest` | scrape_all.py:29 | conversely, a match with nothing further left and no longer group at its start is the ISBN returned |
| `FileName.TemplateIsbn` | scrape_all.py:29 | for a name in the template `<Author>_ocr<Y|N>_<ISBN>.pdf` whose author part has no digit, the ISBN extracted is the ISBN digits |
| `FileName.TemplateExample` | scrape_all.py:29-41 | `Smith_ocrN_9780131.pdf` yields `9780131` and is not flagged for OCR |
| `FileName.DotTakesLastDigit` | scrape_all.py:29 | in `123pdf` the wildcard takes the `3`, so the ISBN is `12` |
| `FileName.Find` | scrape_all.py:39 | the literal search reports a hit exactly when the pattern occurs at or after the start position |
| `FileName.NeedsOcr` | scrape_all.py:39 | the OCR flag fires exactly when the name holds `ocry` in any mixture of cases |
| `FileName.NoOcryNotFlagged` | scrape_all.py:39 | a name with no `y` or `Y` three places after any `o` or `O` is never flagged for OCR |
| `Pages.CollectPages` | scrape_all.py:47-52 | the page list has exactly `numPages` entries, entry `i` being page `i`'s text |
| `Pages.Accumulate` | scrape_all.py:54-56 | the prepending loop yields the pages concatenated from last to first |
| `Pages.RevConcatIsReversedConcat` | scrape_all.py:54-56 | that text is the reading-order concatenation of the reversed page list |
| `Pages.RevConcatLength` | scrape_all.py:54-56 | its length is the sum of the page lengths |
| `Pages.RevConcatAppend` | scrape_all.py:54-56 | text of later pages precedes text of earlier pages |
| `Pages.TwoPages` | scrape_all.py:54-56 | pages 0 and 1 give page 1's text followed by page 0's |
| `Terms.Split` | scrape_all.py:59 | a split always yields at least one piece |
| `Terms.SplitCount` | scrape_all.py:59 | a split yields one piece more than there are separators |
| `Terms.SplitPieces` | scrape_all.py:59 | every piece holds only characters of the input and never the separator |
| `Terms.JoinSplit` | scrape_all.py:59 | joining the pieces with the separator gives the input back |
| `Terms.SplitJoin` | scrape_all.py:59 | splitting a join of separator-free pieces gives the pieces back |
| `Terms.ReplaceNewlines` | scrape_all.py:58 | the replaced text is as long as the original, holds no line feed, has a comma where each line feed was, and keeps every other character in place |
| `Terms.CountReplaced` | scrape_all.py:58 | after the replacement the commas number the original commas plus line feeds |
| `Terms.TermsOf` | scrape_all.py:58-59 | the terms number the commas plus line feeds of the text, plus one |
| `Terms.TermsOfSpec` | scrape_all.py:58-59 | no term holds a comma or line feed, joining the terms with commas gives the newline-replaced text, and empty text gives one empty term |
| `Terms.Keep` | scrape_all.py:61-64 | the rows are exactly the pieces holding a letter, each paired with the ISBN, and are no more than the pieces |
| `Terms.KeepConcat` | scrape_all.py:61-64 | the filter distributes over concatenation of pieces, so piece order is kept |
| `Terms.KeepAllLettered` | scrape_all.py:61-64 | when every piece holds a letter, row `k` is piece `k` with the ISBN |
| `Terms.FilterTerms` | scrape_all.py:61-64 | the filtering loop returns the kept rows in piece order |
| `Masterlist.Ledger.EnsureExists` | scrape_all.py:74-75 | a missing ledger is created holding only the header `Term`, `ISBN`; an existing one keeps its header; the rows are unchanged (a missing ledger has none) |
| `Masterlist.Ledger.Append` | scrape_all.py:65-66 | appending puts the rows after the existing ones, with no header and earlier rows unchanged |
| `Scrape.Decide` | scrape_all.py:29-64 | terms are appended exactly when the ISBN is found, the ledger exists, the guard passes, the name is not flagged for OCR and the PDF can be read; the outcome is fatal exactly when the ISBN is missing, the ledger is missing, or the PDF is unreadable for a file neither skip applied to |
| `Scrape.DuplicateIsSkipped` | scrape_all.py:35-37 | a file the guard flags is skipped, and the run goes on past it even when its PDF cannot be read |
| `Scrape.DecideRows` | scrape_all.py:58-64 | the appended rows are the lettered terms of the reversed-page text, in order, each with the filename's ISBN; every term holds a letter and no comma or line feed |
| `Scrape.OcrSkipIff` | scrape_all.py:39-41 | once the ISBN is found, the ledger read and the guard passed, the file is skipped for OCR exactly when its name holds `ocry` in any case |
| `Scrape.NoIsbnBeatsOcr` | scrape_all.py:29-41 | a name with no ISBN match fails fatally, even when it is flagged for OCR |
| `Scrape.ScrapeIndex` | scrape_all.py:29-66 | one file's processing: the outcome is the decision for the ledger as it was, the ledger gains exactly the appended rows, and skips and failures leave it unchanged |
| `Scrape.Run` | scrape_all.py:80-82 | a run keeps every earlier ledger row in place, and an aborted run names a file of the listing |
| `Scrape.RunAddsWellFormedRows` | scrape_all.py:61-66 | every row a run adds has a term that holds a letter and no comma or line feed, whatever the ledger held before |
| `Scrape.RunConcat` | scrape_all.py:80-82 | files are handled in listing order, and an abort ends the run |
| `Scrape.ScrapeAll` | scrape_all.py:69-82 | the driver creates a missing ledger with the header, then its rows and status are those of processing the filtered listing in order from the rows found |
| `Scrape.NoPdfsNoChange` | scrape_all.py:71-82 | with no PDF in the listing, no row changes |
| `Scrape.TwoPageTerms` | scrape_all.py:54-59 | page texts `A\nB` and `C\nD` give the terms `C`, `DA`, `B` |
| `Scrape.UpperCaseExtensionAborts` | scrape_all.py:29 | `Smith_ocrN_9780131.PDF`, whose only `pdf` is the upper-case extension, passes the filter but makes the run abort with no ISBN match |

## Left out

- PDF reading (PyPDF2's `PdfFileReader`, `numPages`, `getPage`, `extractText`) is a foreign library. A PDF is its page count and page texts, or `None` for any failure to open or read it.
- The duplicate guard `ISBN in temp` over a pandas DataFrame (scrape_all.py:33-35) is library semantics. It is the parameter `seen(rows, isbn)`.
- A `read_csv` failure on an existing ledger is not modelled. An empty file raises `EmptyDataError` and a malformed one a parser error, and either ends the run; only a missing ledger is fatal here (`LedgerMissing`).
- On a DataFrame, `in` tests the column labels, which come from the header line, not from the rows. A `seen` that ignores its rows and compares the ISBN with a fixed header fits the parameter. On a ledger this script created (header `Term,ISBN`) the guard therefore never fires, since an ISBN is all digits.
- CSV serialisation by `to_csv` is not modelled: quoting, escaping, the delimiter, and what an empty frame writes. The ledger is a header plus a sequence of `(term, ISBN)` rows.
- File-system plumbing is not modelled: `os.listdir` and its order, `os.path.exists`, `open`, and the hard-coded paths. The listing and the ledger's state are inputs.
- A write that fails part-way is not modelled. The append is atomic.
- Console output and the commented-out prompt (scrape_all.py:19-26) are not modelled.
- Text.Lower: ASCII only. Python's `str.lower` and `re.IGNORECASE` are Unicode-aware. For the letters of `pdf` and `ocry` no other character lower-cases to them, but a character that changes length when lower-cased is not modelled.
- Text.IsDigit: ASCII digits only, where Python's `\d` accepts every Unicode decimal digit.
- Text.IsLetter: ASCII letters only, where `str.isalpha` accepts every Unicode letter.
