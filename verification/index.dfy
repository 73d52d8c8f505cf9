/** The inverted index of `SearchEngine`: word -> article id -> occurrence
    count, built in one pass over the articles (`_index_content`). Each
    posting list is an insertion-ordered dictionary, so the order in which
    articles first mention a word is kept, as in the Python `defaultdict`. */
module InvertedIndex {
  import opened Assoc
  import opened Normalizer
  import opened Seqs

  /** One row of the corpus. */
  datatype Article = Article(id: string, num: string, date: string, text: string, pathTitle: string)

  type Postings = seq<Pair<nat>>
  type Index = map<string, Postings>

  /** `index[w]` read without inserting: the empty list for an unseen word. */
  function PostingsOf(idx: Index, w: string): Postings
  {
    if w in idx then idx[w] else []
  }

  /** `index[w][a]`, zero when absent. */
  function Count(idx: Index, w: string, a: string): nat
  {
    GetOr(PostingsOf(idx, w), a, 0)
  }

  /** Number of articles whose posting for `w` exists. */
  function DocFreq(idx: Index, w: string): nat
  {
    |PostingsOf(idx, w)|
  }

  /** Posting lists are dictionaries and every stored count is positive. */
  ghost predicate WellFormed(idx: Index)
  {
    forall w :: w in idx ==> Unique(idx[w]) && forall i :: 0 <= i < |idx[w]| ==> idx[w][i].val >= 1
  }

  function PlusNat(x: nat, y: nat): nat
  {
    x + y
  }

  /** Looking up `index[w]` on the `defaultdict`: an unseen word gets an empty
      posting list, and no posting list changes. */
  function Access(idx: Index, w: string): (r: Index)
    ensures r.Keys == idx.Keys + {w}
    ensures forall v :: v in idx ==> v in r && r[v] == idx[v]
    ensures w !in idx ==> r[w] == []
    ensures forall v :: PostingsOf(r, v) == PostingsOf(idx, v)
  {
    if w in idx then idx else idx[w := []]
  }

  /** `index[w][a] += 1`. */
  function AddWord(idx: Index, w: string, a: string): (r: Index)
    ensures r.Keys == idx.Keys + {w}
    ensures forall v :: v != w ==> PostingsOf(r, v) == PostingsOf(idx, v)
    ensures Keys(PostingsOf(r, w)) == Keys(PostingsOf(idx, w)) + {a}
    ensures WellFormed(idx) ==> WellFormed(r)
    ensures WellFormed(idx) ==> forall b :: Count(r, w, b) == Count(idx, w, b) + (if b == a then 1 else 0)
  {
    var p := PostingsOf(idx, w);
    var q := Upsert(p, a, 1, PlusNat);
    var r := idx[w := q];
    assert WellFormed(idx) ==> WellFormed(r) by {
      if WellFormed(idx) {
        forall i | 0 <= i < |q|
          ensures q[i].val >= 1
        {
          if i < |p| && p[i].key != a {
            assert q[i] == p[i];
          }
        }
      }
    }
    assert WellFormed(idx) ==> forall b :: Count(r, w, b) == Count(idx, w, b) + (if b == a then 1 else 0) by {
      if WellFormed(idx) {
        forall b
          ensures Count(r, w, b) == Count(idx, w, b) + (if b == a then 1 else 0)
        {
          if b == a {
            UpsertGet(p, a, 1, PlusNat, 0);
          } else {
            UpsertOther(p, a, 1, PlusNat, b, 0);
          }
        }
      }
    }
    r
  }

  /** `for word in word_list: index[word][a] += 1`. */
  function AddWords(idx: Index, ws: seq<string>, a: string): (r: Index)
    ensures r.Keys == idx.Keys + SetOf(ws)
    decreases |ws|
  {
    if |ws| == 0 then idx
    else
      assert SetOf(ws) == {ws[0]} + SetOf(ws[1..]) by {
        assert ws == [ws[0]] + ws[1..];
      }
      AddWords(AddWord(idx, ws[0], a), ws[1..], a)
  }

  /** One count posts the article under its word and nowhere else. */
  lemma AddWordPostings(idx: Index, w: string, a: string, v: string)
    ensures Keys(PostingsOf(AddWord(idx, w, a), v)) == Keys(PostingsOf(idx, v)) + (if v == w then {a} else {})
  {
  }

  lemma InCons(ws: seq<string>, v: string)
    requires |ws| > 0
    ensures v in ws <==> v == ws[0] || v in ws[1..]
  {
    assert ws == [ws[0]] + ws[1..];
  }

  /** Counting a word list posts its article under exactly the words of the
      list and leaves every other posting list's keys alone. */
  lemma {:induction false} AddWordsPostings(idx: Index, ws: seq<string>, a: string, v: string)
    ensures Keys(PostingsOf(AddWords(idx, ws, a), v)) == Keys(PostingsOf(idx, v)) + (if v in ws then {a} else {})
    decreases |ws|
  {
    if |ws| > 0 {
      AddWordPostings(idx, ws[0], a, v);
      AddWordsPostings(AddWord(idx, ws[0], a), ws[1..], a, v);
      InCons(ws, v);
    }
  }

  /** Counting keeps every posting list a dictionary of positive counts. */
  lemma {:induction false} AddWordsWellFormed(idx: Index, ws: seq<string>, a: string)
    requires WellFormed(idx)
    ensures WellFormed(AddWords(idx, ws, a))
    decreases |ws|
  {
    if |ws| > 0 {
      AddWordsWellFormed(AddWord(idx, ws[0], a), ws[1..], a);
    }
  }

  /** One count: `index[w][a] += 1` moves exactly the count of `a` under `w`. */
  lemma AddWordCount(idx: Index, w: string, a: string, v: string, b: string)
    requires WellFormed(idx)
    ensures WellFormed(AddWord(idx, w, a))
    ensures Count(AddWord(idx, w, a), v, b) == Count(idx, v, b) + if v == w && b == a then 1 else 0
  {
    if v != w {
      assert PostingsOf(AddWord(idx, w, a), v) == PostingsOf(idx, v);
    }
  }

  lemma MultisetCount(ws: seq<string>, v: string)
    requires |ws| > 0
    ensures multiset(ws)[v] == multiset(ws[1..])[v] + if ws[0] == v then 1 else 0
  {
    assert ws == [ws[0]] + ws[1..];
  }

  /** Counting a word list adds, for its own article, exactly the number of
      times each word occurs in it, and nothing for other articles. */
  lemma {:induction false} AddWordsCount(idx: Index, ws: seq<string>, a: string, v: string, b: string)
    requires WellFormed(idx)
    ensures Count(AddWords(idx, ws, a), v, b) == Count(idx, v, b) + if b == a then multiset(ws)[v] else 0
    decreases |ws|
  {
    if |ws| > 0 {
      AddWordCount(idx, ws[0], a, v, b);
      AddWordsCount(AddWord(idx, ws[0], a), ws[1..], a, v, b);
      MultisetCount(ws, v);
    }
  }

  /** The corpus as the indexer sees it: each row's id with its token list. */
  datatype Doc = Doc(id: string, words: seq<string>)

  /** One document per row, in corpus order: the documents carry exactly the
      corpus's ids, and every word they hold is one the index accepts. */
  function Docs(rows: seq<Article>, stop: set<string>): (ds: seq<Doc>)
    ensures |ds| == |rows|
    ensures forall i :: 0 <= i < |rows| ==> ds[i] == Doc(rows[i].id, Tokens(rows[i].text, stop))
    ensures DocIds(ds) == Ids(rows)
    ensures forall i, j :: 0 <= i < |ds| && 0 <= j < |ds[i].words| ==> IsToken(ds[i].words[j], stop)
  {
    var ds := seq(|rows|, i requires 0 <= i < |rows| => Doc(rows[i].id, Tokens(rows[i].text, stop)));
    assert DocIds(ds) == Ids(rows) by {
      assert forall i :: 0 <= i < |ds| ==> ds[i].id == rows[i].id;
    }
    ds
  }

  /** Ids of the documents that contain `w`. */
  function ContainingIds(ds: seq<Doc>, w: string): set<string>
  {
    set i | 0 <= i < |ds| && w in ds[i].words :: ds[i].id
  }

  /** Every word of every document. */
  function AllWords(ds: seq<Doc>): set<string>
  {
    set i, w | 0 <= i < |ds| && w in ds[i].words :: w
  }

  /** Reference count: occurrences of `w` in the documents with id `a`. */
  function Occurrences(ds: seq<Doc>, w: string, a: string): nat
    decreases |ds|
  {
    if |ds| == 0 then 0
    else Occurrences(ds[1..], w, a) + if ds[0].id == a then multiset(ds[0].words)[w] else 0
  }

  lemma ContainingIdsSnoc(ds: seq<Doc>, w: string)
    requires |ds| > 0
    ensures ContainingIds(ds, w) ==
      ContainingIds(ds[..|ds| - 1], w) + if w in ds[|ds| - 1].words then {ds[|ds| - 1].id} else {}
  {
    var init := ds[..|ds| - 1];
    assert forall i :: 0 <= i < |init| ==> init[i] == ds[i];
  }

  lemma AllWordsSnoc(ds: seq<Doc>)
    requires |ds| > 0
    ensures AllWords(ds) == AllWords(ds[..|ds| - 1]) + SetOf(ds[|ds| - 1].words)
  {
    var init := ds[..|ds| - 1];
    assert forall i :: 0 <= i < |init| ==> init[i] == ds[i];
    var last := ds[|ds| - 1].words;
    forall w | w in AllWords(ds)
      ensures w in AllWords(init) + SetOf(last)
    {
      var i :| 0 <= i < |ds| && w in ds[i].words;
      if i < |init| {
        assert w in init[i].words;
      } else {
        var k :| 0 <= k < |last| && last[k] == w;
      }
    }
    forall w | w in SetOf(last)
      ensures w in AllWords(ds)
    {
      var k :| 0 <= k < |last| && last[k] == w;
      assert w in ds[|ds| - 1].words;
    }
  }

  lemma {:induction false} OccurrencesSnoc(ds: seq<Doc>, w: string, a: string)
    requires |ds| > 0
    ensures Occurrences(ds, w, a) ==
      Occurrences(ds[..|ds| - 1], w, a) + if ds[|ds| - 1].id == a then multiset(ds[|ds| - 1].words)[w] else 0
    decreases |ds|
  {
    if |ds| > 1 {
      OccurrencesSnoc(ds[1..], w, a);
      assert ds[1..][..|ds[1..]| - 1] == ds[..|ds| - 1][1..];
    }
  }

  /** The counting loop of `_index_content`, over documents in order. */
  function BuildDocs(ds: seq<Doc>): (idx: Index)
    ensures WellFormed(idx)
    ensures idx.Keys == AllWords(ds)
    ensures forall w :: Keys(PostingsOf(idx, w)) == ContainingIds(ds, w)
    decreases |ds|
  {
    if |ds| == 0 then map[]
    else
      var last := ds[|ds| - 1];
      var prev := BuildDocs(ds[..|ds| - 1]);
      AllWordsSnoc(ds);
      AddWordsWellFormed(prev, last.words, last.id);
      forall w
        ensures Keys(PostingsOf(AddWords(prev, last.words, last.id), w)) == ContainingIds(ds, w)
      {
        ContainingIdsSnoc(ds, w);
        AddWordsPostings(prev, last.words, last.id, w);
      }
      AddWords(prev, last.words, last.id)
  }

  /** After a fresh build, `index[w][a]` is the number of occurrences of `w`
      among the tokens of the rows with id `a`. */
  lemma {:induction false} BuildDocsCount(ds: seq<Doc>, w: string, a: string)
    ensures Count(BuildDocs(ds), w, a) == Occurrences(ds, w, a)
    decreases |ds|
  {
    if |ds| > 0 {
      var last := ds[|ds| - 1];
      BuildDocsCount(ds[..|ds| - 1], w, a);
      AddWordsCount(BuildDocs(ds[..|ds| - 1]), last.words, last.id, w, a);
      OccurrencesSnoc(ds, w, a);
    }
  }

  /** `_index_content` on a missing cache file: every token of every row,
      visited in order, is counted under the row's id. */
  function Build(rows: seq<Article>, stop: set<string>): Index
  {
    BuildDocs(Docs(rows, stop))
  }

  /** Ids present among the documents. */
  function DocIds(ds: seq<Doc>): set<string>
  {
    set i | 0 <= i < |ds| :: ds[i].id
  }

  lemma {:induction false} DocIdsBound(ds: seq<Doc>)
    ensures |DocIds(ds)| <= |ds|
    decreases |ds|
  {
    if |ds| > 0 {
      var init := ds[..|ds| - 1];
      DocIdsBound(init);
      assert DocIds(ds) == DocIds(init) + {ds[|ds| - 1].id} by {
        assert forall i :: 0 <= i < |init| ==> init[i] == ds[i];
      }
    }
  }

  /** A word is indexed exactly when some document holds it, and then it is
      posted for at least one and at most all of the distinct ids. */
  lemma DocFreqBoundsDocs(ds: seq<Doc>, w: string)
    ensures DocFreq(BuildDocs(ds), w) <= |DocIds(ds)| <= |ds|
    ensures w in BuildDocs(ds) <==> DocFreq(BuildDocs(ds), w) > 0
  {
    var idx := BuildDocs(ds);
    var p := PostingsOf(idx, w);
    assert Unique(p);
    UniqueSize(p);
    assert Keys(p) == ContainingIds(ds, w);
    assert ContainingIds(ds, w) <= DocIds(ds);
    DocIdsBound(ds);
    assert |Keys(p)| <= |DocIds(ds)| by {
      SubsetSize(Keys(p), DocIds(ds));
    }
    if w in idx {
      assert w in AllWords(ds);
      var i, v :| 0 <= i < |ds| && v in ds[i].words && v == w;
      assert ds[i].id in ContainingIds(ds, w);
    }
  }

  lemma SubsetSize<T>(a: set<T>, b: set<T>)
    requires a <= b
    ensures |a| <= |b|
  {
    assert b == a + (b - a);
  }

  /** Ids present in the corpus. */
  function Ids(rows: seq<Article>): set<string>
  {
    set i | 0 <= i < |rows| :: rows[i].id
  }

  /** Document frequency of every indexed word lies between one and the
      number of distinct ids, hence the number of rows. */
  lemma DocFreqBounds(rows: seq<Article>, stop: set<string>, w: string)
    ensures DocFreq(Build(rows, stop), w) <= |Ids(rows)| <= |rows|
    ensures w in Build(rows, stop) <==> DocFreq(Build(rows, stop), w) > 0
  {
    DocFreqBoundsDocs(Docs(rows, stop), w);
  }

  /** After a fresh build, `index[w][a]` counts the occurrences of `w` among
      the tokens of the rows with id `a`, and the posting list of `w` holds
      exactly the ids of the rows whose tokens include `w`. */
  lemma BuildCount(rows: seq<Article>, stop: set<string>, w: string, a: string)
    ensures Count(Build(rows, stop), w, a) == Occurrences(Docs(rows, stop), w, a)
    ensures a in Keys(PostingsOf(Build(rows, stop), w)) <==>
      exists i :: 0 <= i < |rows| && rows[i].id == a && w in Tokens(rows[i].text, stop)
  {
    var ds := Docs(rows, stop);
    BuildDocsCount(ds, w, a);
    assert a in ContainingIds(ds, w) <==> exists i :: 0 <= i < |ds| && ds[i].id == a && w in ds[i].words;
  }
}
