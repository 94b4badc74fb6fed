/**
 * The file enumerator's filter: `filter(lambda s: s[-3:].lower() == "pdf", names)`
 * over the directory listing, kept in listing order.
 */
module Listing {
  import opened Text

  /** Python's `s[-3:]`: the last three characters, or all of `s` when it is shorter. */
  function LastThree(s: string): string
  {
    if |s| >= 3 then s[|s| - 3..] else s
  }

  lemma LastThreeLowered(s: string)
    ensures LowerStr(LastThree(s)) == "pdf" <==>
      |s| >= 3 && Lower(s[|s| - 3]) == 'p' && Lower(s[|s| - 2]) == 'd' && Lower(s[|s| - 1]) == 'f'
  {
    var t := LowerStr(LastThree(s));
    if |s| >= 3 {
      assert |t| == 3 && t[0] == Lower(s[|s| - 3]) && t[1] == Lower(s[|s| - 2]) && t[2] == Lower(s[|s| - 1]);
    } else {
      assert |t| < 3;
    }
  }

  /**
   * The filter's lambda: it accepts exactly the names of at least three
   * characters whose last three lower-case to `p`, `d`, `f`; no dot is needed
   * before them.
   */
  predicate IsPdfName(s: string)
    ensures IsPdfName(s) <==>
      |s| >= 3 && Lower(s[|s| - 3]) == 'p' && Lower(s[|s| - 2]) == 'd' && Lower(s[|s| - 1]) == 'f'
  {
    LastThreeLowered(s);
    LowerStr(LastThree(s)) == "pdf"
  }

  /** The filtered listing. */
  function PdfNames(names: seq<string>): (r: seq<string>)
    ensures |r| <= |names|
    ensures forall x :: x in r <==> x in names && IsPdfName(x)
  {
    if names == [] then []
    else if IsPdfName(names[0]) then [names[0]] + PdfNames(names[1..])
    else PdfNames(names[1..])
  }

  /** Filtering keeps listing order: it distributes over concatenation of listings. */
  lemma {:induction false} PdfNamesConcat(a: seq<string>, b: seq<string>)
    ensures PdfNames(a + b) == PdfNames(a) + PdfNames(b)
  {
    if a != [] {
      assert (a + b)[0] == a[0];
      assert (a + b)[1..] == a[1..] + b;
      PdfNamesConcat(a[1..], b);
    } else {
      assert a + b == b;
    }
  }

  /** A listing in which every name passes comes through unchanged. */
  lemma {:induction false} PdfNamesAllPass(names: seq<string>)
    requires forall k :: 0 <= k < |names| ==> IsPdfName(names[k])
    ensures PdfNames(names) == names
  {
    if names != [] {
      PdfNamesAllPass(names[1..]);
    }
  }

  /** A listing in which no name passes filters down to nothing. */
  lemma {:induction false} PdfNamesNonePass(names: seq<string>)
    requires forall k :: 0 <= k < |names| ==> !IsPdfName(names[k])
    ensures PdfNames(names) == []
  {
    if names != [] {
      PdfNamesNonePass(names[1..]);
    }
  }
}
