/**
 * The filename parser of `scrape_index`: the ISBN is group 1 of
 * `re.search("(\d+).pdf", filename)`, and a file needs OCR when
 * `re.search("ocry", filename, re.IGNORECASE)` finds something.
 */
module FileName {
  import opened Wrappers
  import opened Text

  /** A match of the ISBN pattern: group 1 is `s[start..start + len]`. */
  datatype Match = Match(start: nat, len: nat)

  /**
   * The pattern `(\d+).pdf` matches at `start` with a group of `len` digits:
   * at least one digit, then one character that `.` accepts (anything but a
   * line feed), then the literal `pdf`.
   */
  predicate MatchesAt(s: string, start: nat, len: nat)
  {
    && 1 <= len
    && start + len + 4 <= |s|
    && (forall k :: start <= k < start + len ==> IsDigit(s[k]))
    && s[start + len] != '\n'
    && s[start + len + 1..start + len + 4] == "pdf"
  }

  /** How far the greedy `\d+` runs from `i`: the maximal block of digits there. */
  function DigitRun(s: string, i: nat): (n: nat)
    requires i <= |s|
    ensures i + n <= |s|
    ensures forall k :: i <= k < i + n ==> IsDigit(s[k])
    ensures i + n == |s| || !IsDigit(s[i + n])
    decreases |s| - i
  {
    if i < |s| && IsDigit(s[i]) then 1 + DigitRun(s, i + 1) else 0
  }

  /**
   * Backtracking over the greedy group: try `n` digits, then `n - 1`, ...
   * and stop at the first length after which `.pdf` matches.
   */
  function Backtrack(s: string, i: nat, n: nat): (r: Option<nat>)
    requires i + n <= |s|
    requires forall k :: i <= k < i + n ==> IsDigit(s[k])
    ensures r.Some? ==> r.value <= n && MatchesAt(s, i, r.value)
    ensures r.Some? ==> forall m: nat :: r.value < m <= n ==> !MatchesAt(s, i, m)
    ensures r.None? ==> forall m: nat :: m <= n ==> !MatchesAt(s, i, m)
    decreases n
  {
    if n == 0 then None
    else if i + n + 4 <= |s| && s[i + n] != '\n' && s[i + n + 1..i + n + 4] == "pdf" then Some(n)
    else Backtrack(s, i, n - 1)
  }

  /** One attempt of the regex engine at start position `i`. */
  function TryAt(s: string, i: nat): (r: Option<nat>)
    requires i <= |s|
    ensures r.Some? ==> MatchesAt(s, i, r.value) && forall m: nat :: r.value < m ==> !MatchesAt(s, i, m)
    ensures r.None? ==> forall m: nat :: !MatchesAt(s, i, m)
  {
    var run := DigitRun(s, i);
    assert forall m: nat :: run < m ==> !MatchesAt(s, i, m);
    Backtrack(s, i, run)
  }

  /**
   * `re.search` from position `from`: the leftmost start at which the pattern
   * matches, with the longest group there (what greedy `\d+` with backtracking
   * finds), or nothing when no start matches.
   */
  function Search(s: string, from: nat): (r: Option<Match>)
    requires from <= |s|
    ensures r.Some? ==> from <= r.value.start && MatchesAt(s, r.value.start, r.value.len)
    ensures r.Some? ==> forall j: nat, m: nat :: from <= j < r.value.start ==> !MatchesAt(s, j, m)
    ensures r.Some? ==> forall m: nat :: r.value.len < m ==> !MatchesAt(s, r.value.start, m)
    ensures r.None? ==> forall j: nat, m: nat :: from <= j ==> !MatchesAt(s, j, m)
    decreases |s| - from
  {
    if from == |s| then None
    else match TryAt(s, from)
      case Some(n) => Some(Match(from, n))
      case None => Search(s, from + 1)
  }

  /**
   * `re.search("(\d+).pdf", filename).group(1)`, with None where the search
   * finds nothing (where the source calls `.group` on None and fails). The
   * value is the group of the leftmost match, taken as long as it can be.
   */
  function Isbn(filename: string): (r: Option<string>)
    ensures r.Some? <==> exists j: nat, m: nat :: MatchesAt(filename, j, m)
    ensures r.Some? ==> exists j: nat, m: nat ::
      && MatchesAt(filename, j, m)
      && r.value == filename[j..j + m]
      && (forall j': nat, m': nat :: j' < j ==> !MatchesAt(filename, j', m'))
      && (forall m': nat :: m < m' ==> !MatchesAt(filename, j, m'))
    ensures r.Some? ==> |r.value| >= 1 && forall k :: 0 <= k < |r.value| ==> IsDigit(r.value[k])
  {
    match Search(filename, 0)
    case Some(mt) => Some(filename[mt.start..mt.start + mt.len])
    case None => None
  }

  /**
   * The converse of Search's contract: a match at `i` with no match further
   * left and no longer group at `i` is the one `Isbn` returns.
   */
  lemma IsbnIsLeftmostLongest(s: string, i: nat, n: nat)
    requires MatchesAt(s, i, n)
    requires forall j: nat, m: nat :: j < i ==> !MatchesAt(s, j, m)
    requires forall m: nat :: n < m ==> !MatchesAt(s, i, m)
    ensures Isbn(s) == Some(s[i..i + n])
  {
  }

  /** True when `t[i..]` starts with `pat`. */
  predicate OccursAt(t: string, pat: string, i: nat)
  {
    i + |pat| <= |t| && t[i..i + |pat|] == pat
  }

  /** The scan `re.search` performs for a literal pattern, from position `i`. */
  function Find(t: string, pat: string, i: nat): (r: bool)
    requires i <= |t|
    ensures r <==> exists j: nat :: i <= j && OccursAt(t, pat, j)
    decreases |t| - i
  {
    if OccursAt(t, pat, i) then true
    else if i == |t| then false
    else Find(t, pat, i + 1)
  }

  /** `ocry` starts at `i` in some mixture of upper and lower case. */
  predicate OcryAt(s: string, i: nat)
  {
    && i + 4 <= |s|
    && (s[i] == 'o' || s[i] == 'O')
    && (s[i + 1] == 'c' || s[i + 1] == 'C')
    && (s[i + 2] == 'r' || s[i + 2] == 'R')
    && (s[i + 3] == 'y' || s[i + 3] == 'Y')
  }

  /** Lower-casing the name and then looking for `ocry` finds it in any case. */
  lemma LoweredOcry(s: string)
    ensures forall i: nat :: OccursAt(LowerStr(s), "ocry", i) <==> OcryAt(s, i)
  {
    var t := LowerStr(s);
    forall i: nat ensures OccursAt(t, "ocry", i) <==> OcryAt(s, i) {
      if i + 4 <= |s| {
        var w := t[i..i + 4];
        assert w[0] == Lower(s[i]) && w[1] == Lower(s[i + 1]) && w[2] == Lower(s[i + 2]) && w[3] == Lower(s[i + 3]);
        assert w == "ocry" <==> w[0] == 'o' && w[1] == 'c' && w[2] == 'r' && w[3] == 'y';
      }
    }
  }

  /**
   * `re.search("ocry", filename, re.IGNORECASE) is not None`: the OCR flag
   * fires exactly when the name holds `ocry` in any case.
   */
  predicate NeedsOcr(filename: string)
    ensures NeedsOcr(filename) <==> exists i: nat :: OcryAt(filename, i)
  {
    LoweredOcry(filename);
    Find(LowerStr(filename), "ocry", 0)
  }

  /**
   * The filename template `<Author>_ocr<Y|N>_<ISBN>.pdf`: when the author part
   * holds no digit, the ISBN extracted is exactly the ISBN digits.
   */
  lemma TemplateIsbn(author: string, flag: char, isbn: string)
    requires forall k :: 0 <= k < |author| ==> !IsDigit(author[k])
    requires flag == 'Y' || flag == 'N'
    requires |isbn| >= 1 && forall k :: 0 <= k < |isbn| ==> IsDigit(isbn[k])
    ensures Isbn(author + "_ocr" + [flag] + "_" + isbn + ".pdf") == Some(isbn)
  {
    var s := author + "_ocr" + [flag] + "_" + isbn + ".pdf";
    var i := |author| + 6;
    var n := |isbn|;
    assert |s| == i + n + 4;
    assert s[i..i + n] == isbn;
    assert s[i + n] == '.';
    assert s[i + n + 1..i + n + 4] == "pdf";
    forall k | i <= k < i + n ensures IsDigit(s[k]) {
      assert s[k] == isbn[k - i];
    }
    assert MatchesAt(s, i, n);
    assert s[..i] == author + "_ocr" + [flag] + "_";
    forall j: nat | j < i ensures !IsDigit(s[j]) {
      assert s[j] == s[..i][j];
      if j < |author| {
        assert s[j] == author[j];
      }
    }
    forall j: nat, m: nat | j < i ensures !MatchesAt(s, j, m) {
      assert !IsDigit(s[j]);
    }
    IsbnIsLeftmostLongest(s, i, n);
  }

  /** The example name from the template yields its ISBN and is not flagged for OCR. */
  lemma TemplateExample()
    ensures Isbn("Smith_ocrN_9780131.pdf") == Some("9780131")
    ensures !NeedsOcr("Smith_ocrN_9780131.pdf")
  {
    assert "Smith" + "_ocr" + ['N'] + "_" + "9780131" + ".pdf" == "Smith_ocrN_9780131.pdf";
    TemplateIsbn("Smith", 'N', "9780131");
    TemplateExampleNotFlagged();
  }

  /** The example name holds `ocrN`, not `ocry`, so it is not flagged. */
  lemma TemplateExampleNotFlagged()
    ensures !NeedsOcr("Smith_ocrN_9780131.pdf")
  {
    var s := "Smith_ocrN_9780131.pdf";
    forall k | 0 <= k && k + 3 < |s| && (s[k] == 'o' || s[k] == 'O') ensures s[k + 3] != 'y' && s[k + 3] != 'Y' {
    }
    NoOcryNotFlagged(s);
  }

  /** A name in which no `y` or `Y` stands three places after an `o` or `O` is not flagged for OCR. */
  lemma NoOcryNotFlagged(s: string)
    requires forall k :: 0 <= k && k + 3 < |s| && (s[k] == 'o' || s[k] == 'O') ==> s[k + 3] != 'y' && s[k + 3] != 'Y'
    ensures !NeedsOcr(s)
  {
  }

  /** Backtracking edge case: in `123pdf` the dot takes the `3`, so the ISBN is `12`. */
  lemma DotTakesLastDigit()
    ensures Isbn("123pdf") == Some("12")
  {
    var s := "123pdf";
    assert MatchesAt(s, 0, 2);
    assert !MatchesAt(s, 0, 3);
    IsbnIsLeftmostLongest(s, 0, 2);
    assert s[0..2] == "12";
  }
}
