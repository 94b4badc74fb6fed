/**
 * The text extractor of `scrape_index`: one string per page in page order,
 * then the document text built by prepending each page to what came before,
 * so that the last page comes first.
 */
module Pages {

  /**
   * What the PDF reader offers: its page count and the text `extractText`
   * yields for each page index.
   */
  datatype Pdf = Pdf(numPages: nat, pageText: nat -> string)

  /** The pages of `pdf` in page order. */
  function PageTexts(pdf: Pdf): seq<string>
  {
    seq(pdf.numPages, (i: int) requires 0 <= i => pdf.pageText(i))
  }

  /** The loop that appends `getPage(i).extractText()` to `df` for every page index. */
  method CollectPages(pdf: Pdf) returns (df: seq<string>)
    ensures |df| == pdf.numPages
    ensures forall i :: 0 <= i < |df| ==> df[i] == pdf.pageText(i)
  {
    df := [];
    var i := 0;
    while i < pdf.numPages
      invariant 0 <= i <= pdf.numPages
      invariant |df| == i
      invariant forall k :: 0 <= k < i ==> df[k] == pdf.pageText(k)
    {
      df := df + [pdf.pageText(i)];
      i := i + 1;
    }
  }

  /** The accumulated text: the pages concatenated from the last to the first. */
  function RevConcat(pages: seq<string>): string
  {
    if pages == [] then "" else pages[|pages| - 1] + RevConcat(pages[..|pages| - 1])
  }

  /** The loop `text = df[i] + text` over every page index. */
  method Accumulate(df: seq<string>) returns (text: string)
    ensures text == RevConcat(df)
  {
    text := "";
    var i := 0;
    while i < |df|
      invariant 0 <= i <= |df|
      invariant text == RevConcat(df[..i])
    {
      assert df[..i + 1][..i] == df[..i];
      text := df[i] + text;
      i := i + 1;
    }
    assert df[..|df|] == df;
  }

  /** The pages concatenated in reading order. */
  function Concat(pages: seq<string>): string
  {
    if pages == [] then "" else pages[0] + Concat(pages[1..])
  }

  /** The pages in reverse order. */
  function Reversed(pages: seq<string>): (r: seq<string>)
    ensures |r| == |pages|
  {
    if pages == [] then [] else Reversed(pages[1..]) + [pages[0]]
  }

  /** The summed lengths of the pages. */
  function TotalLength(pages: seq<string>): nat
  {
    if pages == [] then 0 else |pages[0]| + TotalLength(pages[1..])
  }

  lemma {:induction false} ReversedSnoc(pages: seq<string>, x: string)
    ensures Reversed(pages + [x]) == [x] + Reversed(pages)
  {
    if pages != [] {
      assert (pages + [x])[1..] == pages[1..] + [x];
      ReversedSnoc(pages[1..], x);
    } else {
      assert pages + [x] == [x];
    }
  }

  /** Prepending page by page reads the pages in reverse order. */
  lemma {:induction false} RevConcatIsReversedConcat(pages: seq<string>)
    ensures RevConcat(pages) == Concat(Reversed(pages))
  {
    if pages != [] {
      var init, last := pages[..|pages| - 1], pages[|pages| - 1];
      assert pages == init + [last];
      RevConcatIsReversedConcat(init);
      ReversedSnoc(init, last);
      assert ([last] + Reversed(init))[1..] == Reversed(init);
    }
  }

  lemma {:induction false} TotalLengthSnoc(pages: seq<string>, x: string)
    ensures TotalLength(pages + [x]) == TotalLength(pages) + |x|
  {
    if pages != [] {
      assert (pages + [x])[1..] == pages[1..] + [x];
      TotalLengthSnoc(pages[1..], x);
    } else {
      assert pages + [x] == [x];
    }
  }

  /** The accumulated text is as long as all pages together. */
  lemma {:induction false} RevConcatLength(pages: seq<string>)
    ensures |RevConcat(pages)| == TotalLength(pages)
  {
    if pages != [] {
      var init, last := pages[..|pages| - 1], pages[|pages| - 1];
      assert pages == init + [last];
      RevConcatLength(init);
      TotalLengthSnoc(init, last);
    }
  }

  /** Text from later pages precedes text from earlier pages. */
  lemma {:induction false} RevConcatAppend(a: seq<string>, b: seq<string>)
    ensures RevConcat(a + b) == RevConcat(b) + RevConcat(a)
  {
    if b == [] {
      assert a + b == a;
    } else {
      var init, last := b[..|b| - 1], b[|b| - 1];
      assert (a + b)[..|a + b| - 1] == a + init;
      RevConcatAppend(a, init);
    }
  }

  /** Two pages read as page 1 followed by page 0. */
  lemma TwoPages(p0: string, p1: string)
    ensures RevConcat([p0, p1]) == p1 + p0
  {
    assert [p0, p1][..1] == [p0];
    assert [p0][..0] == [];
    assert RevConcat([p0]) == p0 + "" == p0;
  }
}
