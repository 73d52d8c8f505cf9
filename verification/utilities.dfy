/** `extract_titles` of `utilities.py`: the `path_title` column, a bracketed
    list of quoted titles, turned into the list of titles. */
module Utilities {
  import opened Text

  const Brackets: set<char> := {'[', ']'}
  const Padding: set<char> := {' ', '"'}

  /** `title_string.strip("[]")`, then `split(",")`, then `strip(' "')` on
      each piece. Splitting does not look at quotes, so a comma inside a
      title cuts it in two. */
  function ExtractTitles(s: string): (r: seq<string>)
    ensures |r| > 0
    ensures forall i :: 0 <= i < |r| ==> ',' !in r[i]
    ensures forall i :: 0 <= i < |r| && |r[i]| > 0 ==> r[i][0] !in Padding && r[i][|r[i]| - 1] !in Padding
  {
    var parts := Split(Strip(s, Brackets), ',');
    StripEachAvoids(parts, Padding, ',');
    StripEach(parts, Padding)
  }

  /** One title more than there are commas left once the brackets are
      stripped. */
  lemma ExtractTitlesCount(s: string)
    ensures |ExtractTitles(s)| == multiset(Strip(s, Brackets))[','] + 1
  {
    SplitCount(Strip(s, Brackets), ',');
  }

  /** `ExtractTitles` read off from the bracket strip and the split. */
  lemma ExtractTitlesOf(s: string, inner: string, parts: seq<string>, r: seq<string>)
    requires Strip(s, Brackets) == inner
    requires Split(inner, ',') == parts
    requires |r| == |parts|
    requires forall i :: 0 <= i < |parts| ==> Strip(parts[i], Padding) == r[i]
    ensures ExtractTitles(s) == r
  {
  }

  /** An empty list `[]` gives one empty title: the result is never empty. */
  lemma ExtractTitlesEmptyList()
    ensures ExtractTitles("[]") == [""]
  {
    assert Strip("[]", Brackets) == "" by {
      StripWrapped("[]", "", "", Brackets);
      assert "[]" + "" + "" == "[]";
    }
    assert Split("", ',') == [""] by {
      SplitWhole("", ',');
    }
    assert Strip("", Padding) == "" by {
      StripWrapped("", "", "", Padding);
    }
    ExtractTitlesOf("[]", "", [""], [""]);
  }

  /** Every bracket at either end is stripped, not just one pair. */
  lemma ExtractTitlesNestedBrackets(x: char)
    requires x !in Brackets && x !in Padding && x != ','
    ensures ExtractTitles(['[', '[', x, ']', ']']) == [[x]]
  {
    assert Strip(['[', '[', x, ']', ']'], Brackets) == [x] by {
      StripWrapped("[[", [x], "]]", Brackets);
      assert "[[" + [x] + "]]" == ['[', '[', x, ']', ']'];
    }
    assert Split([x], ',') == [[x]] by {
      SplitWhole([x], ',');
    }
    assert Strip([x], Padding) == [x] by {
      StripWrapped("", [x], "", Padding);
      assert "" + [x] + "" == [x];
    }
    ExtractTitlesOf(['[', '[', x, ']', ']'], [x], [[x]], [[x]]);
  }

  /** A title as it appears in the column: quoted, and after the first one
      preceded by a space. */
  function Quote(t: string, first: bool): string
  {
    (if first then "" else " ") + "\"" + t + "\""
  }

  function Quoted(ts: seq<string>): (r: seq<string>)
    ensures |r| == |ts|
  {
    seq(|ts|, i requires 0 <= i < |ts| => Quote(ts[i], i == 0))
  }

  /** The stored form `["t1", "t2", ...]` of a list of titles. */
  function Format(ts: seq<string>): string
  {
    "[" + Join(Quoted(ts), ',') + "]"
  }

  /** A title the column can carry unambiguously. */
  predicate Title(t: string)
  {
    ',' !in t && '"' !in t && (|t| > 0 ==> t[0] != ' ' && t[|t| - 1] != ' ')
  }

  lemma QuoteStrips(t: string, first: bool)
    requires Title(t)
    ensures Strip(Quote(t, first), Padding) == t
    ensures ',' !in Quote(t, first)
  {
    var l := (if first then "" else " ") + "\"";
    assert Quote(t, first) == l + t + "\"";
    StripWrapped(l, t, "\"", Padding);
  }

  /** The joined body of a formatted list starts and ends with a quote. */
  lemma FormatBodyEnds(ts: seq<string>)
    requires |ts| > 0
    ensures |Join(Quoted(ts), ',')| > 0
    ensures Join(Quoted(ts), ',')[0] == '"'
    ensures Join(Quoted(ts), ',')[|Join(Quoted(ts), ',')| - 1] == '"'
  {
    var qs := Quoted(ts);
    JoinEnds(qs, ',');
    var last := qs[|qs| - 1];
    assert qs[0] == "\"" + ts[0] + "\"";
    assert |last| > 0 && last[|last| - 1] == '"';
    var j := Join(qs, ',');
    assert j[|j| - |last|..][|last| - 1] == j[|j| - 1];
  }

  /** Splitting ignores quotes: a list holding a title with a comma does not
      come back whole. */
  lemma ExtractFormatSplitsCommas(ts: seq<string>, i: nat)
    requires i < |ts| && ',' in ts[i]
    ensures ExtractTitles(Format(ts)) != ts
  {
    var r := ExtractTitles(Format(ts));
    if |r| == |ts| {
      assert ',' !in r[i];
    }
  }

  /** A single title `a,b` is stored as `["a,b"]`. */
  lemma FormatOne(t: string)
    ensures Format([t]) == "[" + ("\"" + t + "\"") + "]"
  {
    assert Quoted([t]) == [Quote(t, true)];
    assert Quote(t, true) == "\"" + t + "\"";
  }

  /** The body `"a,b"` splits at its comma into `"a` and `b"`. */
  lemma SplitCommaBody(a: string, b: string)
    requires ',' !in a && ',' !in b
    ensures Split("\"" + (a + "," + b) + "\"", ',') == ["\"" + a, b + "\""]
  {
    var p0 := "\"" + a;
    var p1 := b + "\"";
    JoinCons(p0, [p1], ',');
    assert "\"" + (a + "," + b) + "\"" == p0 + [','] + p1;
    SplitJoin([p0, p1], ',');
  }

  /** Both halves of the split lose their quote to the padding strip. */
  lemma StripHalves(a: string, b: string)
    requires Title(a) && Title(b)
    ensures Strip("\"" + a, Padding) == a
    ensures Strip(b + "\"", Padding) == b
  {
    StripWrapped("\"", a, "", Padding);
    assert "\"" + a + "" == "\"" + a;
    StripWrapped("", b, "\"", Padding);
    assert "" + b + "\"" == b + "\"";
  }

  /** Splitting ignores quotes: a title `a,b` stored alone comes back as the
      two titles `a` and `b`. */
  lemma ExtractCommaTitle(a: string, b: string)
    requires Title(a) && Title(b)
    ensures ExtractTitles(Format([a + "," + b])) == [a, b]
  {
    var t := a + "," + b;
    var body := "\"" + t + "\"";
    FormatOne(t);
    StripWrapped("[", body, "]", Brackets);
    SplitCommaBody(a, b);
    StripHalves(a, b);
    ExtractTwo(Format([t]), body, "\"" + a, b + "\"", a, b);
  }

  /** `ExtractTitles` of a list whose body splits into exactly two pieces. */
  lemma ExtractTwo(s: string, body: string, p0: string, p1: string, a: string, b: string)
    requires Strip(s, Brackets) == body
    requires Split(body, ',') == [p0, p1]
    requires Strip(p0, Padding) == a && Strip(p1, Padding) == b
    ensures ExtractTitles(s) == [a, b]
  {
    ExtractTitlesOf(s, body, [p0, p1], [a, b]);
  }

  /** Every quoted title is free of commas and strips back to the title. */
  lemma QuotedStrips(ts: seq<string>)
    requires forall i :: 0 <= i < |ts| ==> Title(ts[i])
    ensures forall i :: 0 <= i < |ts| ==> ',' !in Quoted(ts)[i] && Strip(Quoted(ts)[i], Padding) == ts[i]
  {
    forall i | 0 <= i < |ts|
      ensures ',' !in Quoted(ts)[i] && Strip(Quoted(ts)[i], Padding) == ts[i]
    {
      QuoteStrips(ts[i], i == 0);
    }
  }

  /** Stripping the brackets of a formatted non-empty list leaves its body. */
  lemma FormatStrip(ts: seq<string>)
    requires |ts| > 0
    ensures Strip(Format(ts), Brackets) == Join(Quoted(ts), ',')
  {
    var j := Join(Quoted(ts), ',');
    FormatBodyEnds(ts);
    StripWrapped("[", j, "]", Brackets);
  }

  /** Extracting the titles of a formatted non-empty list gives the list back. */
  lemma ExtractFormat(ts: seq<string>)
    requires |ts| > 0
    requires forall i :: 0 <= i < |ts| ==> Title(ts[i])
    ensures ExtractTitles(Format(ts)) == ts
  {
    var qs := Quoted(ts);
    QuotedStrips(ts);
    FormatStrip(ts);
    SplitJoin(qs, ',');
    ExtractTitlesOf(Format(ts), Join(qs, ','), qs, ts);
  }
}
