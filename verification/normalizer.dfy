/** Text normalization of `SearchEngine`: the tokenizer applied to whole
    article texts at indexing time, and the much lighter treatment a single
    query keyword receives. */
module Normalizer {
  import opened Text
  import opened Tags
  import opened Seqs

  /** Characters stripped from both ends of words and queries. */
  const Punct: set<char> := {'.', ',', ';', ':', '(', ')', '°'}

  /** Glue the citation prefixes `l. `, `r. ` and `d. ` to what follows. */
  function CollapseCitations(t: string): string
  {
    Replace(Replace(Replace(t, "l. ", "l"), "r. ", "r"), "d. ", "d")
  }

  /** The whole-text rewrites applied before splitting: lower-case, collapse
      citations, split the elided article `l'` and delete markup tags. */
  function Prepare(text: string): string
  {
    DeleteTags(Replace(CollapseCitations(Lower(text)), "l'", "l "))
  }

  function NotStopWord(stop: set<string>): string -> bool
  {
    (w: string) => w !in stop
  }

  function NonEmpty(w: string): bool
  {
    w != ""
  }

  /** The two filtering passes: stop words first, then empty words. */
  function Clean(words: seq<string>, stop: set<string>): (ws: seq<string>)
    ensures forall i :: 0 <= i < |ws| ==> ws[i] in words && ws[i] !in stop && ws[i] != ""
    ensures forall w :: w in words && w !in stop && w != "" ==> w in ws
  {
    var kept := Filter(words, NotStopWord(stop));
    var ws := Filter(kept, NonEmpty);
    assert forall i :: 0 <= i < |ws| ==> ws[i] in kept && NonEmpty(ws[i]);
    assert forall i :: 0 <= i < |kept| ==> kept[i] in words && NotStopWord(stop)(kept[i]);
    assert forall i :: 0 <= i < |words| && NotStopWord(stop)(words[i]) ==> words[i] in kept;
    assert forall i :: 0 <= i < |kept| && NonEmpty(kept[i]) ==> kept[i] in ws;
    ws
  }

  /** Each kept word keeps its number of occurrences; stop words and the
      empty word are gone entirely. */
  lemma CleanCount(words: seq<string>, stop: set<string>, w: string)
    ensures multiset(Clean(words, stop))[w] == if w !in stop && w != "" then multiset(words)[w] else 0
  {
    var kept := Filter(words, NotStopWord(stop));
    FilterCount(words, NotStopWord(stop), w);
    FilterCount(kept, NonEmpty, w);
  }

  /** What the index accepts as a word. */
  predicate IsToken(w: string, stop: set<string>)
  {
    && w != ""
    && w !in stop
    && ' ' !in w
    && w[0] !in Punct
    && w[|w| - 1] !in Punct
  }

  /** Stripped pieces of a space split hold no space and no outer punctuation. */
  lemma StrippedPieces(s: string)
    ensures forall i :: 0 <= i < |StripEach(Split(s, ' '), Punct)| ==>
      var w := StripEach(Split(s, ' '), Punct)[i];
      ' ' !in w && (|w| > 0 ==> w[0] !in Punct && w[|w| - 1] !in Punct)
  {
    var pieces := Split(s, ' ');
    var ws := StripEach(pieces, Punct);
    forall i | 0 <= i < |ws|
      ensures ' ' !in ws[i] && (|ws[i]| > 0 ==> ws[i][0] !in Punct && ws[i][|ws[i]| - 1] !in Punct)
    {
      StripChars(pieces[i], Punct);
      assert ws[i] == Strip(pieces[i], Punct);
    }
  }

  /** `_get_words_from_row`: split the prepared text on single spaces, strip
      punctuation from each piece, then drop stop words and empty pieces. */
  function Tokens(text: string, stop: set<string>): (ws: seq<string>)
    ensures forall i :: 0 <= i < |ws| ==> IsToken(ws[i], stop)
  {
    var words := StripEach(Split(Prepare(text), ' '), Punct);
    StrippedPieces(Prepare(text));
    Clean(words, stop)
  }

  /** A word is a token of `text` exactly when it is the strip of one of the
      space-separated pieces and is neither a stop word nor empty. */
  lemma TokensExactly(text: string, stop: set<string>, w: string)
    ensures w in Tokens(text, stop) <==>
      && w in StripEach(Split(Prepare(text), ' '), Punct)
      && w !in stop
      && w != ""
  {
  }

  /** A token occurs in a text's token list exactly as often as it occurs
      among the stripped space-separated pieces of the prepared text; the
      counts of the index are built from these multiplicities. */
  lemma TokensCount(text: string, stop: set<string>, w: string)
    ensures multiset(Tokens(text, stop))[w] ==
      if w !in stop && w != "" then multiset(StripEach(Split(Prepare(text), ' '), Punct))[w] else 0
  {
    CleanCount(StripEach(Split(Prepare(text), ' '), Punct), stop, w);
  }

  /** After lower-casing, `L. ` followed by anything but `. ` collapses to
      exactly what `L` followed by the same text gives. */
  lemma CollapseAfterLower(x: string)
    requires !(|x| >= 2 && x[0] == '.' && x[1] == ' ')
    ensures CollapseCitations(Lower("L. " + x)) == CollapseCitations(Lower("L" + x))
  {
    var y := Lower(x);
    LowerAppend("L. ", x);
    LowerAppend("L", x);
    assert Lower("L. ") == "l. ";
    assert Lower("L") == "l";
    ReplaceFront(y, "l. ", "l");
    assert |y| < 2 || y[0] != '.' || y[1] != ' ' by {
      if |y| >= 2 {
        assert y[0] == LowerChar(x[0]);
        assert y[1] == LowerChar(x[1]);
      }
    }
    assert !("l. " <= "l" + y) by {
      if |y| >= 2 {
        assert ("l" + y)[1] == y[0];
        assert ("l" + y)[2] == y[1];
      }
    }
    assert ("l" + y)[1..] == y;
    assert Replace("l" + y, "l. ", "l") == "l" + Replace(y, "l. ", "l");
  }

  /** A citation written `L. 1234` is indexed like `L1234`. */
  lemma CitationCollapse(x: string, stop: set<string>)
    requires !(|x| >= 2 && x[0] == '.' && x[1] == ' ')
    ensures Tokens("L. " + x, stop) == Tokens("L" + x, stop)
  {
    CollapseAfterLower(x);
  }

  lemma LowerL1234()
    ensures Lower("L1234") == "l1234"
  {
  }

  lemma CollapseL1234()
    ensures CollapseCitations("l1234") == "l1234"
  {
    assert "l1234"[1] == '1';
    assert "l1234"[1..] == "1234";
    assert Replace("1234", "l. ", "l") == "1234";
  }

  lemma ElisionL1234()
    ensures Replace("l1234", "l'", "l ") == "l1234"
  {
    assert "l1234"[1] == '1';
    assert "l1234"[1..] == "1234";
    assert Replace("1234", "l'", "l ") == "1234";
  }

  lemma PrepareL1234()
    ensures Prepare("L1234") == "l1234"
  {
    LowerL1234();
    CollapseL1234();
    ElisionL1234();
  }

  /** Text that prepares to a single clean word yields exactly that word. */
  lemma TokensOfOneWord(text: string, w: string, stop: set<string>)
    requires Prepare(text) == w && IsToken(w, stop)
    ensures Tokens(text, stop) == [w]
  {
    SplitWhole(w, ' ');
    StripNoop(w, Punct);
    var words := StripEach([w], Punct);
    assert words == [w];
    var kept := Filter(words, NotStopWord(stop));
    assert kept == [w] by {
      assert NotStopWord(stop)(w);
      assert words[1..] == [];
    }
    assert Filter(kept, NonEmpty) == [w] by {
      assert NonEmpty(w);
      assert kept[1..] == [];
    }
  }

  lemma IsTokenL1234(stop: set<string>)
    requires "l1234" !in stop
    ensures IsToken("l1234", stop)
  {
    var w := "l1234";
    assert forall i :: 0 <= i < |w| ==> w[i] in "l1234";
    assert w[0] == 'l' && w[4] == '4';
  }

  lemma TokensL1234(stop: set<string>)
    requires "l1234" !in stop
    ensures Tokens("L1234", stop) == ["l1234"]
  {
    IsTokenL1234(stop);
    PrepareL1234();
    TokensOfOneWord("L1234", "l1234", stop);
  }

  /** The concrete case: `L. 1234` and `L1234` both give the single token `l1234`. */
  lemma CitationExample(stop: set<string>)
    requires "l1234" !in stop
    ensures Tokens("L. 1234", stop) == Tokens("L1234", stop) == ["l1234"]
  {
    assert Tokens("L. 1234", stop) == Tokens("L1234", stop) by {
      var x := "1234";
      assert "L. " + x == "L. 1234";
      assert "L" + x == "L1234";
      CitationCollapse(x, stop);
    }
    assert Tokens("L1234", stop) == ["l1234"] by {
      TokensL1234(stop);
    }
  }

  /** `_get_articles_from_word`'s normalization of one keyword: lower-case and
      strip punctuation, but no citation collapse, no tag deletion and no
      stop-word test. */
  function LookupForm(w: string): (r: string)
    ensures AllLower(r)
    ensures |r| > 0 ==> r[0] !in Punct && r[|r| - 1] !in Punct
  {
    StripChars(Lower(w), Punct);
    Strip(Lower(w), Punct)
  }

  /** `search`'s keyword extraction. The lower-cased copy of the query is
      discarded, so keywords keep their case; only the ends of the whole
      query lose their punctuation. */
  function QueryKeywords(query: string): (kws: seq<string>)
    ensures |kws| > 0
    ensures forall i :: 0 <= i < |kws| ==> ' ' !in kws[i]
    ensures Join(kws, ' ') == Strip(query, Punct)
  {
    JoinSplit(Strip(query, Punct), ' ');
    Split(Strip(query, Punct), ' ')
  }

  predicate AllLower(s: string)
  {
    forall i :: 0 <= i < |s| ==> !IsUpper(s[i])
  }

  lemma LowerNoop(s: string)
    requires AllLower(s)
    ensures Lower(s) == s
  {
  }

  lemma {:induction false} ReplaceKeepsLower(s: string, pat: string, rep: string)
    requires |pat| > 0 && AllLower(s) && AllLower(rep)
    ensures AllLower(Replace(s, pat, rep))
    decreases |s|
  {
    if |s| > 0 {
      if pat <= s {
        ReplaceKeepsLower(s[|pat|..], pat, rep);
      } else {
        ReplaceKeepsLower(s[1..], pat, rep);
      }
    }
  }

  lemma {:induction false} DeleteTagsKeepsLower(s: string)
    requires AllLower(s)
    ensures AllLower(DeleteTags(s))
    decreases |s|
  {
    if |s| > 0 {
      if s[0] == '<' && CloseAt(s, 1).Some? {
        DeleteTagsKeepsLower(s[CloseAt(s, 1).value + 1..]);
      } else {
        DeleteTagsKeepsLower(s[1..]);
      }
    }
  }

  lemma {:induction false} SplitKeepsLower(s: string, sep: char)
    requires AllLower(s)
    ensures forall i :: 0 <= i < |Split(s, sep)| ==> AllLower(Split(s, sep)[i])
    decreases |s|
  {
    if |s| > 0 {
      SplitKeepsLower(s[1..], sep);
    }
  }

  lemma PrepareIsLower(text: string)
    ensures AllLower(Prepare(text))
  {
    var t1 := Replace(Lower(text), "l. ", "l");
    ReplaceKeepsLower(Lower(text), "l. ", "l");
    var t2 := Replace(t1, "r. ", "r");
    ReplaceKeepsLower(t1, "r. ", "r");
    ReplaceKeepsLower(t2, "d. ", "d");
    var t3 := CollapseCitations(Lower(text));
    ReplaceKeepsLower(t3, "l'", "l ");
    DeleteTagsKeepsLower(Replace(t3, "l'", "l "));
  }

  lemma PiecesAreLower(text: string)
    ensures forall i :: 0 <= i < |Split(Prepare(text), ' ')| ==> AllLower(Split(Prepare(text), ' ')[i])
  {
    PrepareIsLower(text);
    SplitKeepsLower(Prepare(text), ' ');
  }

  /** The strip of a lower-case piece is its own lookup form. */
  lemma StrippedLowerIsLookupForm(p: string)
    requires AllLower(p)
    ensures LookupForm(Strip(p, Punct)) == Strip(p, Punct)
  {
    var w := Strip(p, Punct);
    assert AllLower(w) by {
      StripChars(p, Punct);
      forall m | 0 <= m < |w|
        ensures !IsUpper(w[m])
      {
        assert w[m] in p;
      }
    }
    assert Lower(w) == w by {
      LowerNoop(w);
    }
    assert Strip(w, Punct) == w by {
      StripNoop(w, Punct);
    }
  }

  /** Every indexed word is already in lookup form, so a keyword typed
      exactly as indexed finds its posting list. */
  lemma TokensAreLookupForms(text: string, stop: set<string>, w: string)
    requires w in Tokens(text, stop)
    ensures LookupForm(w) == w
  {
    var pieces := Split(Prepare(text), ' ');
    PiecesAreLower(text);
    TokensExactly(text, stop, w);
    var i :| 0 <= i < |pieces| && StripEach(pieces, Punct)[i] == w;
    StrippedLowerIsLookupForm(pieces[i]);
  }
}
