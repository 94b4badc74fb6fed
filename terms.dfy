/**
 * The term filter of `scrape_index`: line feeds become commas, the text is
 * split on commas, and every piece holding a letter is paired with the ISBN.
 */
module Terms {
  import opened Text

  /** One ledger row: a candidate term and the ISBN of the file it came from. */
  datatype Row = Row(term: string, isbn: string)

  /** `text.replace("\n", ",")`: as long as `text`, without line feeds, and unchanged elsewhere. */
  function ReplaceNewlines(text: string): (r: string)
    ensures |r| == |text| && '\n' !in r
    ensures forall k :: 0 <= k < |text| && text[k] != '\n' ==> r[k] == text[k]
    ensures forall k :: 0 <= k < |text| && text[k] == '\n' ==> r[k] == ','
  {
    seq(|text|, k requires 0 <= k < |text| => if text[k] == '\n' then ',' else text[k])
  }

  /** Python's `str.split(sep)` with an explicit one-character separator. */
  function Split(s: string, sep: char): (r: seq<string>)
    ensures |r| >= 1
  {
    if s == [] then [""]
    else
      var rest := Split(s[1..], sep);
      if s[0] == sep then [""] + rest else [[s[0]] + rest[0]] + rest[1..]
  }

  /** `sep.join(pieces)`. */
  function Join(pieces: seq<string>, sep: char): string
  {
    if pieces == [] then ""
    else if |pieces| == 1 then pieces[0]
    else pieces[0] + [sep] + Join(pieces[1..], sep)
  }

  /**
   * The candidate terms: `text.replace("\n", ",").split(",")`. There is one
   * more term than there are commas and line feeds in `text`.
   */
  function TermsOf(text: string): (r: seq<string>)
    ensures |r| == Count(text, ',') + Count(text, '\n') + 1
  {
    SplitCount(ReplaceNewlines(text), ',');
    CountReplaced(text);
    Split(ReplaceNewlines(text), ',')
  }

  /** There is one more piece than there are separators. */
  lemma {:induction false} SplitCount(s: string, sep: char)
    ensures |Split(s, sep)| == Count(s, sep) + 1
  {
    if s != [] {
      SplitCount(s[1..], sep);
    }
  }

  /** Every character of `p` occurs in `s` and differs from `sep`. */
  predicate Within(p: string, s: string, sep: char)
  {
    forall c :: c in p ==> c in s && c != sep
  }

  /** Every character of every piece occurs in the input, and none is the separator. */
  lemma {:induction false} SplitPieces(s: string, sep: char)
    ensures forall k :: 0 <= k < |Split(s, sep)| ==> Within(Split(s, sep)[k], s, sep)
  {
    if s != [] {
      SplitPieces(s[1..], sep);
      var rest := Split(s[1..], sep);
      var r := Split(s, sep);
      assert forall c :: c in s[1..] ==> c in s;
      forall k | 0 <= k < |r| ensures Within(r[k], s, sep) {
        if s[0] != sep && k == 0 {
          assert r[k] == [s[0]] + rest[0];
          assert Within(rest[0], s[1..], sep);
        } else if s[0] != sep {
          assert r[k] == rest[k];
          assert Within(rest[k], s[1..], sep);
        } else if k > 0 {
          assert r[k] == rest[k - 1];
          assert Within(rest[k - 1], s[1..], sep);
        } else {
          assert r[k] == "";
        }
      }
    } else {
      assert Split(s, sep) == [""];
    }
  }

  /** Joining the pieces with the separator gives the input back. */
  lemma {:induction false} JoinSplit(s: string, sep: char)
    ensures Join(Split(s, sep), sep) == s
  {
    if s != [] {
      var rest := Split(s[1..], sep);
      JoinSplit(s[1..], sep);
      if s[0] == sep {
        assert ([""] + rest)[1..] == rest;
      } else {
        var r := [[s[0]] + rest[0]] + rest[1..];
        assert r[1..] == rest[1..];
        if |rest| > 1 {
          assert Join(rest, sep) == rest[0] + [sep] + Join(rest[1..], sep);
        }
      }
    }
  }

  lemma {:induction false} SplitPrefix(p: string, t: string, sep: char)
    requires sep !in p
    ensures Split(p + t, sep) == [p + Split(t, sep)[0]] + Split(t, sep)[1..]
  {
    if p == [] {
      var r := Split(t, sep);
      assert p + t == t;
      assert p + r[0] == r[0];
      assert r == [r[0]] + r[1..];
    } else {
      assert (p + t)[0] == p[0];
      assert (p + t)[1..] == p[1..] + t;
      SplitPrefix(p[1..], t, sep);
      assert [p[0]] + (p[1..] + Split(t, sep)[0]) == p + Split(t, sep)[0];
    }
  }

  /** Splitting a join of separator-free pieces gives the pieces back. */
  lemma {:induction false} SplitJoin(pieces: seq<string>, sep: char)
    requires |pieces| >= 1
    requires forall k :: 0 <= k < |pieces| ==> sep !in pieces[k]
    ensures Split(Join(pieces, sep), sep) == pieces
  {
    var p := pieces[0];
    if |pieces| == 1 {
      SplitPrefix(p, "", sep);
      assert p + "" == p;
    } else {
      var j := Join(pieces[1..], sep);
      SplitJoin(pieces[1..], sep);
      assert Join(pieces, sep) == p + ([sep] + j);
      SplitPrefix(p, [sep] + j, sep);
      assert ([sep] + j)[1..] == j;
      assert p + "" == p;
    }
  }

  lemma {:induction false} CountReplaced(text: string)
    ensures Count(ReplaceNewlines(text), ',') == Count(text, ',') + Count(text, '\n')
  {
    if text != [] {
      assert ReplaceNewlines(text)[1..] == ReplaceNewlines(text[1..]);
      CountReplaced(text[1..]);
    }
  }

  /**
   * The replace-and-split step: no piece holds a comma or a line feed,
   * joining the pieces with commas gives the newline-replaced text, and an
   * empty text gives one empty piece.
   */
  lemma TermsOfSpec(text: string)
    ensures forall k :: 0 <= k < |TermsOf(text)| ==> ',' !in TermsOf(text)[k] && '\n' !in TermsOf(text)[k]
    ensures Join(TermsOf(text), ',') == ReplaceNewlines(text)
    ensures text == "" ==> TermsOf(text) == [""]
  {
    var t := ReplaceNewlines(text);
    SplitPieces(t, ',');
    JoinSplit(t, ',');
    assert '\n' !in t;
    forall k | 0 <= k < |TermsOf(text)| ensures ',' !in TermsOf(text)[k] && '\n' !in TermsOf(text)[k] {
      assert Within(TermsOf(text)[k], t, ',');
    }
  }

  /**
   * The loop's result, one row per piece that holds a letter, in the order
   * of the pieces.
   */
  function Keep(pieces: seq<string>, isbn: string): (r: seq<Row>)
    ensures |r| <= |pieces|
    ensures forall row :: row in r <==> row.term in pieces && HasLetter(row.term) && row.isbn == isbn
  {
    if pieces == [] then []
    else if HasLetter(pieces[0]) then [Row(pieces[0], isbn)] + Keep(pieces[1..], isbn)
    else Keep(pieces[1..], isbn)
  }

  /** The filter keeps order: it distributes over concatenation of the pieces. */
  lemma {:induction false} KeepConcat(a: seq<string>, b: seq<string>, isbn: string)
    ensures Keep(a + b, isbn) == Keep(a, isbn) + Keep(b, isbn)
  {
    if a == [] {
      assert a + b == b;
    } else {
      assert (a + b)[0] == a[0];
      assert (a + b)[1..] == a[1..] + b;
      KeepConcat(a[1..], b, isbn);
    }
  }

  /** When every piece holds a letter, every piece is kept, in order. */
  lemma {:induction false} KeepAllLettered(pieces: seq<string>, isbn: string)
    requires forall k :: 0 <= k < |pieces| ==> HasLetter(pieces[k])
    ensures |Keep(pieces, isbn)| == |pieces|
    ensures forall k :: 0 <= k < |pieces| ==> Keep(pieces, isbn)[k] == Row(pieces[k], isbn)
  {
    if pieces != [] {
      KeepAllLettered(pieces[1..], isbn);
    }
  }

  /** The loop over the pieces that appends `(term, ISBN)` when the term holds a letter. */
  method FilterTerms(pieces: seq<string>, isbn: string) returns (filtered: seq<Row>)
    ensures filtered == Keep(pieces, isbn)
  {
    filtered := [];
    var i := 0;
    while i < |pieces|
      invariant 0 <= i <= |pieces|
      invariant filtered == Keep(pieces[..i], isbn)
    {
      assert pieces[..i + 1] == pieces[..i] + [pieces[i]];
      KeepConcat(pieces[..i], [pieces[i]], isbn);
      if HasLetter(pieces[i]) {
        filtered := filtered + [Row(pieces[i], isbn)];
      }
      i := i + 1;
    }
    assert pieces[..|pieces|] == pieces;
  }
}
