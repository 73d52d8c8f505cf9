/** The web front end `online.py`: its copy of `solve_query`, and the text
    cleaning of `search_results`, which also splits the article into lines. */
module Web {
  import opened Text
  import opened Tags
  import opened Assoc
  import opened InvertedIndex
  import opened Bm25
  import opened Ranking
  import opened Results

  /** The loop of `solve_query` as a recursion over the remaining ids, with
      the lookups collected so far in `acc`. */
  function Collect(rows: seq<Article>, ids: seq<string>, acc: seq<seq<Article>>): (r: seq<seq<Article>>)
    requires |acc| <= Limit
    ensures acc <= r
    ensures |r| <= Limit + 1
    decreases |ids|
  {
    if |ids| == 0 then acc
    else
      var article := Lookup(rows, ids[0]);
      var acc' := if |article| > 0 then acc + [article] else acc;
      if |acc'| > Limit then acc' else Collect(rows, ids[1..], acc')
  }

  /** The loop's step: the lookup of the next id is appended when it matched,
      and the loop stops once more than `Limit` lookups are held. */
  lemma CollectStep(rows: seq<Article>, ids: seq<string>, acc: seq<seq<Article>>, next: seq<seq<Article>>)
    requires |ids| > 0 && |acc| <= Limit
    requires next == acc + Entry(rows, ids[0])
    ensures |next| > Limit ==> Collect(rows, ids, acc) == next
    ensures |next| <= Limit ==> Collect(rows, ids, acc) == Collect(rows, ids[1..], next)
  {
  }

  /** Collecting from position `i` with the lookups of the ids before it
      already gathered ends with the truncated resolved list. */
  lemma {:induction false} CollectFrom(rows: seq<Article>, ids: seq<string>, i: nat)
    requires i <= |ids|
    requires |Resolved(rows, ids[..i])| <= Limit
    ensures Collect(rows, ids[i..], Resolved(rows, ids[..i])) == Top(rows, ids)
    decreases |ids| - i
  {
    if i == |ids| {
      assert ids[..i] == ids;
      TopOfShort(rows, ids);
    } else {
      var next := Resolved(rows, ids[..i + 1]);
      ResolvedStep(rows, ids, i);
      assert ids[i..][0] == ids[i];
      CollectStep(rows, ids[i..], Resolved(rows, ids[..i]), next);
      if |next| > Limit {
        TopOfPrefix(rows, ids, i + 1);
        assert Collect(rows, ids[i..], Resolved(rows, ids[..i])) == next;
        assert Top(rows, ids) == next;
      } else {
        assert ids[i..][1..] == ids[i + 1..];
        CollectFrom(rows, ids, i + 1);
        assert Collect(rows, ids[i..], Resolved(rows, ids[..i])) == Collect(rows, ids[i + 1..], next);
      }
    }
  }

  /** `solve_query` returns the first `Limit + 1` ids of the ranking that
      match a row, looked up, in ranking order. */
  lemma CollectIsTop(rows: seq<Article>, ids: seq<string>)
    ensures Collect(rows, ids, []) == Top(rows, ids)
  {
    assert ids[..0] == [];
    assert Resolved(rows, []) == [];
    assert ids[0..] == ids;
    CollectFrom(rows, ids, 0);
  }

  /** `solve_query(query)` on the module-level engine and dataset. */
  function SolveQuery(rows: seq<Article>, idx: Index, p: Params, query: string): (r: seq<seq<Article>>)
    requires p.avgdl > 0.0
    ensures r == Top(rows, KeySeq(Rank(idx, QueryTerms(idx, p.n, query), p)))
    ensures |r| <= Limit + 1
    ensures forall i :: 0 <= i < |r| ==> |r[i]| > 0
  {
    var ids := KeySeq(Search(idx, p, query).ranking);
    CollectIsTop(rows, ids);
    TopShape(rows, ids);
    Collect(rows, ids, [])
  }

  /** The replacements of `search_results` (`<p>` removed, `</p>` and `<br/>`
      turned into newlines) followed by the tag deletion. */
  function CleanText(text: string): (r: string)
    ensures |r| <= |text|
  {
    DeleteTags(Replace(Replace(Replace(text, "<p>", ""), "</p>", "\n"), "<br/>", "\n"))
  }

  /** `texte.split("\n")` on the cleaned text: no line holds a newline. */
  function Lines(text: string): (r: seq<string>)
    ensures |r| > 0
    ensures forall i :: 0 <= i < |r| ==> '\n' !in r[i]
  {
    Split(CleanText(text), '\n')
  }

  /** There is one line more than the cleaned text has newlines. */
  lemma LinesCount(text: string)
    ensures |Lines(text)| == multiset(CleanText(text))['\n'] + 1
  {
    SplitCount(CleanText(text), '\n');
  }

  /** The lines rejoined with newlines give back the cleaned text. */
  lemma LinesJoin(text: string)
    ensures Join(Lines(text), '\n') == CleanText(text)
  {
    JoinSplit(CleanText(text), '\n');
  }

  /** A line holds no `<` followed later by a `>`. */
  predicate NoTag(line: string)
  {
    forall i, j :: 0 <= i < j < |line| && line[i] == '<' ==> line[j] != '>'
  }

  lemma NoTagOnLineSuffix(s: string)
    requires |s| > 0 && NoTagOnLine(s)
    ensures NoTagOnLine(s[1..])
  {
    forall i, j | 0 <= i < j < |s| - 1 && s[1..][i] == '<' && s[1..][j] == '>'
      ensures '\n' in s[1..][i + 1..j]
    {
      assert s[i + 1] == '<' && s[j + 1] == '>';
      assert s[1..][i + 1..j] == s[i + 2..j + 1];
    }
  }

  /** Every line of a text in which no tag spans a line is free of tags. */
  lemma {:induction false} SplitNoTag(s: string)
    requires NoTagOnLine(s)
    ensures forall k :: 0 <= k < |Split(s, '\n')| ==> NoTag(Split(s, '\n')[k])
    decreases |s|
  {
    if |s| > 0 {
      NoTagOnLineSuffix(s);
      SplitNoTag(s[1..]);
      var rest := Split(s[1..], '\n');
      if s[0] != '\n' {
        var head := [s[0]] + rest[0];
        assert rest[0] <= s[1..];
        forall i, j | 0 <= i < j < |head| && head[i] == '<'
          ensures head[j] != '>'
        {
          if i > 0 {
            assert head[i] == rest[0][i - 1] && head[j] == rest[0][j - 1];
          } else {
            assert s[1..j] == rest[0][..j - 1];
            assert '\n' !in s[1..j];
            assert head[j] == s[j];
          }
        }
        assert Split(s, '\n') == [head] + rest[1..];
        forall k | 0 <= k < |Split(s, '\n')|
          ensures NoTag(Split(s, '\n')[k])
        {
          if k > 0 {
            assert Split(s, '\n')[k] == rest[k];
          }
        }
      } else {
        assert Split(s, '\n') == [""] + rest;
        forall k | 0 <= k < |Split(s, '\n')|
          ensures NoTag(Split(s, '\n')[k])
        {
          if k > 0 {
            assert Split(s, '\n')[k] == rest[k - 1];
          }
        }
      }
    }
  }

  /** No displayed line holds `<` followed later by `>`. */
  lemma LinesHaveNoTag(text: string)
    ensures forall k :: 0 <= k < |Lines(text)| ==> NoTag(Lines(text)[k])
  {
    var before := Replace(Replace(Replace(text, "<p>", ""), "</p>", "\n"), "<br/>", "\n");
    DeleteTagsLeavesNoTag(before);
    SplitNoTag(CleanText(text));
  }

  /** A paragraph's text, free of the characters cleaning acts on. */
  predicate Plain(x: string)
  {
    '<' !in x && '>' !in x && '\n' !in x
  }

  /** The stored form of a list of paragraphs: `<p>x</p>` for each. */
  function Paragraphs(xs: seq<string>): string
    decreases |xs|
  {
    if |xs| == 0 then "" else "<p>" + xs[0] + "</p>" + Paragraphs(xs[1..])
  }

  /** Each paragraph followed by a newline. */
  function Terminated(xs: seq<string>): string
    decreases |xs|
  {
    if |xs| == 0 then "" else xs[0] + "\n" + Terminated(xs[1..])
  }

  /** `</p>` starts with `<` but is not `<p>`. */
  lemma ClosingShape(rest: string)
    ensures "</p>" + rest == ['<'] + ("/p>" + rest)
    ensures !("<p>" <= "</p>" + rest)
    ensures '<' !in "/p>"
  {
    assert ("</p>" + rest)[1] == '/';
  }

  lemma ConsClosing(x: string)
    ensures ['<'] + ("/p>" + x) == "</p>" + x
  {
  }

  /** A closing `</p>` is not an opening `<p>`, so it survives removing those. */
  lemma ClosingSurvives(rest: string)
    ensures Replace("</p>" + rest, "<p>", "") == "</p>" + Replace(rest, "<p>", "")
  {
    ClosingShape(rest);
    ReplaceMiss('<', "/p>" + rest, "<p>", "");
    ReplaceSkip("/p>", rest, "<p>", "");
    ConsClosing(Replace(rest, "<p>", ""));
  }

  lemma DropOpeningOne(x: string, rest: string)
    requires Plain(x)
    ensures Replace("<p>" + x + "</p>" + rest, "<p>", "") == x + "</p>" + Replace(rest, "<p>", "")
  {
    assert "<p>" + x + "</p>" + rest == "<p>" + (x + ("</p>" + rest));
    ReplaceFront(x + ("</p>" + rest), "<p>", "");
    ReplaceSkip(x, "</p>" + rest, "<p>", "");
    ClosingSurvives(rest);
  }

  /** Removing `<p>` leaves each paragraph followed by `</p>`. */
  lemma {:induction false} DropOpening(xs: seq<string>)
    requires forall i :: 0 <= i < |xs| ==> Plain(xs[i])
    ensures Replace(Paragraphs(xs), "<p>", "") == ClosedParagraphs(xs)
    decreases |xs|
  {
    if |xs| > 0 {
      DropOpening(xs[1..]);
      DropOpeningOne(xs[0], Paragraphs(xs[1..]));
    }
  }

  /** Each paragraph followed by `</p>`. */
  function ClosedParagraphs(xs: seq<string>): string
    decreases |xs|
  {
    if |xs| == 0 then "" else xs[0] + "</p>" + ClosedParagraphs(xs[1..])
  }

  /** Turning `</p>` into a newline terminates each paragraph. */
  lemma {:induction false} CloseToNewline(xs: seq<string>)
    requires forall i :: 0 <= i < |xs| ==> Plain(xs[i])
    ensures Replace(ClosedParagraphs(xs), "</p>", "\n") == Terminated(xs)
    decreases |xs|
  {
    if |xs| > 0 {
      var x := xs[0];
      var rest := ClosedParagraphs(xs[1..]);
      CloseToNewline(xs[1..]);
      assert ClosedParagraphs(xs) == x + ("</p>" + rest);
      ReplaceSkip(x, "</p>" + rest, "</p>", "\n");
      ReplaceFront(rest, "</p>", "\n");
      assert Terminated(xs) == x + ("\n" + Terminated(xs[1..]));
    }
  }

  lemma {:induction false} TerminatedPlain(xs: seq<string>)
    requires forall i :: 0 <= i < |xs| ==> Plain(xs[i])
    ensures '<' !in Terminated(xs)
    decreases |xs|
  {
    if |xs| > 0 {
      TerminatedPlain(xs[1..]);
    }
  }

  lemma {:induction false} SplitTerminated(xs: seq<string>)
    requires forall i :: 0 <= i < |xs| ==> Plain(xs[i])
    ensures Split(Terminated(xs), '\n') == xs + [""]
    decreases |xs|
  {
    if |xs| > 0 {
      SplitTerminated(xs[1..]);
      SplitPiece(xs[0], Terminated(xs[1..]), '\n');
      assert xs == [xs[0]] + xs[1..];
    }
  }

  /** An article stored as paragraphs `<p>x</p>` of plain text is displayed
      as those paragraphs, one per line, followed by one empty line. */
  lemma ParagraphLines(xs: seq<string>)
    requires forall i :: 0 <= i < |xs| ==> Plain(xs[i])
    ensures Lines(Paragraphs(xs)) == xs + [""]
  {
    DropOpening(xs);
    CloseToNewline(xs);
    TerminatedPlain(xs);
    SplitTerminated(xs);
  }

  /** The loop of `search_results`: each result's first row has its text
      cleaned and split into lines. Joined back, the lines of a result are
      its cleaned text, and none of them holds a tag. */
  function Display(results: seq<seq<Article>>): (r: seq<seq<string>>)
    requires forall i :: 0 <= i < |results| ==> |results[i]| > 0
    ensures |r| == |results|
    ensures forall i :: 0 <= i < |r| ==> r[i] == Lines(results[i][0].text)
    ensures forall i :: 0 <= i < |r| ==> Join(r[i], '\n') == CleanText(results[i][0].text)
    ensures forall i, k :: 0 <= i < |r| && 0 <= k < |r[i]| ==> NoTag(r[i][k]) && '\n' !in r[i][k]
  {
    var r := seq(|results|, i requires 0 <= i < |results| => Lines(results[i][0].text));
    assert forall i :: 0 <= i < |r| ==> Join(r[i], '\n') == CleanText(results[i][0].text) by {
      forall i | 0 <= i < |r|
        ensures Join(r[i], '\n') == CleanText(results[i][0].text)
      {
        LinesJoin(results[i][0].text);
      }
    }
    assert forall i, k :: 0 <= i < |r| && 0 <= k < |r[i]| ==> NoTag(r[i][k]) by {
      forall i | 0 <= i < |r|
        ensures forall k :: 0 <= k < |r[i]| ==> NoTag(r[i][k])
      {
        LinesHaveNoTag(results[i][0].text);
      }
    }
    r
  }

  /** `search_results(query)`: the lines handed to `results.html`, one list
      per article of the ranking's first six matching ids. */
  function SearchResults(rows: seq<Article>, idx: Index, p: Params, query: string): (r: seq<seq<string>>)
    requires p.avgdl > 0.0
    ensures var top := Top(rows, KeySeq(Rank(idx, QueryTerms(idx, p.n, query), p)));
      && |r| == |top| <= Limit + 1
      && forall i :: 0 <= i < |r| ==> |top[i]| > 0 && Join(r[i], '\n') == CleanText(top[i][0].text)
    ensures forall i, k :: 0 <= i < |r| && 0 <= k < |r[i]| ==> NoTag(r[i][k])
  {
    Display(SolveQuery(rows, idx, p, query))
  }
}
