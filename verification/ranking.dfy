/** `search`: the query is split into keywords, reduced, each surviving
    keyword's BM25 score map is merged into the running total with
    `_update_scores`, and the total is ordered by decreasing score with
    Python's stable `sorted(..., reverse=True)`. */
module Ranking {
  import opened Seqs
  import opened Assoc
  import opened InvertedIndex
  import opened Normalizer
  import opened QueryReducer
  import opened Bm25

  type Scores = seq<Pair<real>>

  function AddReal(x: real, y: real): real
  {
    x + y
  }

  /** `_update_scores`: each entry of the word's map is added to the running
      total, an article seen for the first time being appended. */
  function UpdateScores(acc: Scores, ws: Scores): (r: Scores)
    ensures Keys(r) == Keys(acc) + Keys(ws)
    ensures |acc| <= |r|
    ensures forall i :: 0 <= i < |acc| ==> r[i].key == acc[i].key
    ensures Unique(acc) ==> Unique(r)
    decreases |ws|
  {
    if |ws| == 0 then acc
    else
      KeysCons(ws[0], ws[1..]);
      assert ws == [ws[0]] + ws[1..];
      UpdateScores(Upsert(acc, ws[0].key, ws[0].val, AddReal), ws[1..])
  }

  function NotIn(ks: set<string>): string -> bool
  {
    k => k !in ks
  }

  /** The head of a dictionary does not recur in its tail. */
  lemma UniqueTail(ws: Scores)
    requires |ws| > 0 && Unique(ws)
    ensures Unique(ws[1..])
    ensures ws[0].key !in KeySeq(ws[1..])
  {
    var rest := KeySeq(ws[1..]);
    forall i | 0 <= i < |rest|
      ensures rest[i] != ws[0].key
    {
      assert rest[i] == ws[i + 1].key;
    }
  }

  /** One entry of the word's map: its article is appended when new, and the
      remaining new articles are the same whether judged against the total
      before or after it. */
  lemma UpdateOrderStep(acc: Scores, ws: Scores)
    requires |ws| > 0 && Unique(ws)
    ensures KeySeq(Upsert(acc, ws[0].key, ws[0].val, AddReal)) +
      Filter(KeySeq(ws[1..]), NotIn(Keys(Upsert(acc, ws[0].key, ws[0].val, AddReal)))) ==
      KeySeq(acc) + Filter(KeySeq(ws), NotIn(Keys(acc)))
  {
    var k := ws[0].key;
    var next := Upsert(acc, k, ws[0].val, AddReal);
    var rest := KeySeq(ws[1..]);
    var e := if k in Keys(acc) then [] else [k];
    UniqueTail(ws);
    UpsertKeySeq(acc, k, ws[0].val, AddReal);
    FilterCongruent(rest, NotIn(Keys(next)), NotIn(Keys(acc)));
    KeySeqCons(ws);
    FilterCons(k, rest, NotIn(Keys(acc)));
    var f := Filter(rest, NotIn(Keys(acc)));
    assert Filter(KeySeq(ws), NotIn(Keys(acc))) == e + f;
    AppendAssoc(KeySeq(acc), e, f);
  }

  /** Insertion order of the merge: the running total's articles stay first,
      in their order, followed by the word's new articles in the order of
      the word's map. */
  lemma {:induction false} UpdateScoresOrder(acc: Scores, ws: Scores)
    requires Unique(ws)
    ensures KeySeq(UpdateScores(acc, ws)) == KeySeq(acc) + Filter(KeySeq(ws), NotIn(Keys(acc)))
    decreases |ws|
  {
    if |ws| > 0 {
      var next := Upsert(acc, ws[0].key, ws[0].val, AddReal);
      UniqueTail(ws);
      UpdateScoresOrder(next, ws[1..]);
      UpdateOrderStep(acc, ws);
    } else {
      assert KeySeq(ws) == [];
    }
  }

  /** Reading the merged map: the two scores of an article add up, an absent
      score counting as zero. */
  lemma {:induction false} UpdateScoresGet(acc: Scores, ws: Scores, k: string)
    requires Unique(acc) && Unique(ws)
    ensures GetOr(UpdateScores(acc, ws), k, 0.0) == GetOr(acc, k, 0.0) + GetOr(ws, k, 0.0)
    decreases |ws|
  {
    if |ws| > 0 {
      var next := Upsert(acc, ws[0].key, ws[0].val, AddReal);
      assert Unique(ws[1..]);
      UpdateScoresGet(next, ws[1..], k);
      GetOrCons(ws, k, 0.0);
      if k == ws[0].key {
        UpsertGet(acc, k, ws[0].val, AddReal, 0.0);
        assert k !in Keys(ws[1..]);
      } else {
        UpsertOther(acc, ws[0].key, ws[0].val, AddReal, k, 0.0);
      }
    }
  }

  /** `_update_scores` is a merge: shared articles get the sum, the others
      keep the score of the one map that has them, and no other article
      appears. */
  lemma UpdateScoresMerge(acc: Scores, ws: Scores, k: string)
    requires Unique(acc) && Unique(ws)
    ensures k in Keys(acc) && k in Keys(ws) ==>
      GetOr(UpdateScores(acc, ws), k, 0.0) == GetOr(acc, k, 0.0) + GetOr(ws, k, 0.0)
    ensures k in Keys(acc) && k !in Keys(ws) ==> GetOr(UpdateScores(acc, ws), k, 0.0) == GetOr(acc, k, 0.0)
    ensures k !in Keys(acc) && k in Keys(ws) ==> GetOr(UpdateScores(acc, ws), k, 0.0) == GetOr(ws, k, 0.0)
    ensures k in Keys(UpdateScores(acc, ws)) <==> k in Keys(acc) || k in Keys(ws)
  {
    UpdateScoresGet(acc, ws, k);
  }

  /** Non-increasing scores. */
  predicate SortedDesc(s: Scores)
  {
    forall i, j :: 0 <= i < j < |s| ==> s[i].val >= s[j].val
  }

  /** Places `x` in front of the first entry that does not score more. */
  function Insert(x: Pair<real>, r: Scores): (t: Scores)
    ensures |t| == |r| + 1
    ensures multiset(t) == multiset(r) + multiset{x}
    decreases |r|
  {
    if |r| == 0 then [x]
    else if r[0].val <= x.val then [x] + r
    else
      assert r == [r[0]] + r[1..];
      [r[0]] + Insert(x, r[1..])
  }

  /** Inserting into a sorted list keeps it sorted. */
  lemma {:induction false} InsertSorted(x: Pair<real>, r: Scores)
    requires SortedDesc(r)
    ensures SortedDesc(Insert(x, r))
    decreases |r|
  {
    if |r| > 0 && r[0].val > x.val {
      var t' := Insert(x, r[1..]);
      InsertSorted(x, r[1..]);
      assert forall k :: 0 <= k < |r[1..]| ==> r[0].val >= r[1..][k].val by {
        forall k | 0 <= k < |r[1..]|
          ensures r[0].val >= r[1..][k].val
        {
          assert r[1..][k] == r[k + 1];
        }
      }
      HeadAbove(r[0], x, r[1..], t');
      ConsSorted(r[0], t');
    }
  }

  /** An entry scoring at least every entry of `u`, and more than `x`, scores
      at least every entry of a permutation of `u` with `x` added. */
  lemma HeadAbove(h: Pair<real>, x: Pair<real>, u: Scores, t: Scores)
    requires multiset(t) == multiset(u) + multiset{x}
    requires h.val > x.val
    requires forall k :: 0 <= k < |u| ==> h.val >= u[k].val
    ensures forall k :: 0 <= k < |t| ==> h.val >= t[k].val
  {
    forall k | 0 <= k < |t|
      ensures h.val >= t[k].val
    {
      var e := t[k];
      assert e in multiset(t);
      if e != x {
        assert e in multiset(u);
        var m :| 0 <= m < |u| && u[m] == e;
      }
    }
  }

  /** A head scoring at least every entry of a sorted tail keeps it sorted. */
  lemma ConsSorted(h: Pair<real>, t: Scores)
    requires SortedDesc(t)
    requires forall k :: 0 <= k < |t| ==> h.val >= t[k].val
    ensures SortedDesc([h] + t)
  {
    var s := [h] + t;
    forall i, j | 0 <= i < j < |s|
      ensures s[i].val >= s[j].val
    {
      assert s[j] == t[j - 1];
      if i > 0 {
        assert s[i] == t[i - 1];
      }
    }
  }

  /** Inserting adds exactly the new key, and keeps a dictionary one when the
      key is new. */
  lemma {:induction false} InsertKeys(x: Pair<real>, r: Scores)
    ensures Keys(Insert(x, r)) == Keys(r) + {x.key}
    ensures Unique(r) && x.key !in Keys(r) ==> Unique(Insert(x, r))
    decreases |r|
  {
    if |r| > 0 {
      if r[0].val <= x.val {
        KeysCons(x, r);
        UniqueCons(x, r);
      } else {
        InsertKeys(x, r[1..]);
        assert r == [r[0]] + r[1..];
        InsertKeysStep(r[0], x, r[1..], Insert(x, r[1..]));
      }
    }
  }

  /** Putting the same head in front of a list and of its insertion of `x`
      keeps their key sets and key uniqueness related. */
  lemma InsertKeysStep(h: Pair<real>, x: Pair<real>, u: Scores, t: Scores)
    requires Keys(t) == Keys(u) + {x.key}
    requires Unique(u) && x.key !in Keys(u) ==> Unique(t)
    ensures Keys([h] + t) == Keys([h] + u) + {x.key}
    ensures Unique([h] + u) && x.key !in Keys([h] + u) ==> Unique([h] + t)
  {
    KeysCons(h, t);
    KeysCons(h, u);
    UniqueCons(h, t);
    UniqueCons(h, u);
  }

  /** `sorted(items, key=score, reverse=True)`, a stable insertion sort. */
  function SortDesc(s: Scores): (r: Scores)
    ensures |r| == |s|
    ensures multiset(r) == multiset(s)
    ensures SortedDesc(r)
    ensures Keys(r) == Keys(s)
    ensures Unique(s) ==> Unique(r)
    decreases |s|
  {
    if |s| == 0 then []
    else
      var t := SortDesc(s[1..]);
      SortStep(s, t);
      Insert(s[0], t)
  }

  /** One step of the insertion sort: inserting `s[0]` into a sorted
      permutation `t` of the rest gives a sorted permutation of `s`. */
  lemma SortStep(s: Scores, t: Scores)
    requires |s| > 0
    requires multiset(t) == multiset(s[1..]) && SortedDesc(t) && Keys(t) == Keys(s[1..])
    requires Unique(s[1..]) ==> Unique(t)
    ensures multiset(Insert(s[0], t)) == multiset(s)
    ensures SortedDesc(Insert(s[0], t))
    ensures Keys(Insert(s[0], t)) == Keys(s)
    ensures Unique(s) ==> Unique(Insert(s[0], t))
  {
    assert s == [s[0]] + s[1..];
    KeysCons(s[0], s[1..]);
    UniqueCons(s[0], s[1..]);
    InsertKeys(s[0], t);
    InsertSorted(s[0], t);
  }

  function ScoreIs(v: real): Pair<real> -> bool
  {
    (e: Pair<real>) => e.val == v
  }

  /** Inserting only passes entries that score strictly more, so among the
      entries of one score `x` keeps its place in front. */
  lemma {:induction false} InsertStable(x: Pair<real>, r: Scores, v: real)
    ensures Filter(Insert(x, r), ScoreIs(v)) == Filter([x] + r, ScoreIs(v))
    decreases |r|
  {
    if |r| > 0 && r[0].val > x.val {
      var u := r[1..];
      var t := Insert(x, u);
      InsertStable(x, u, v);
      assert Insert(x, r) == [r[0]] + t;
      assert r == [r[0]] + u;
      FilterSwap(r[0], x, u, t, ScoreIs(v));
    } else {
      assert Insert(x, r) == [x] + r;
    }
  }

  /** When at most one of `h` and `x` passes, the filter does not see their
      order. */
  lemma FilterSwap<T>(h: T, x: T, u: seq<T>, t: seq<T>, keep: T -> bool)
    requires Filter(t, keep) == Filter([x] + u, keep)
    requires !(keep(h) && keep(x))
    ensures Filter([h] + t, keep) == Filter([x] + ([h] + u), keep)
  {
    FilterCons(h, t, keep);
    FilterCons(x, u, keep);
    FilterCons(x, [h] + u, keep);
    FilterCons(h, u, keep);
  }

  /** Stability: the entries of any one score come out in their original
      order. */
  lemma {:induction false} SortStable(s: Scores, v: real)
    ensures Filter(SortDesc(s), ScoreIs(v)) == Filter(s, ScoreIs(v))
    decreases |s|
  {
    if |s| > 0 {
      SortStable(s[1..], v);
      InsertStable(s[0], SortDesc(s[1..]), v);
      assert ([s[0]] + SortDesc(s[1..]))[1..] == SortDesc(s[1..]);
    }
  }

  /** The `for word in query_keywords` loop, each word already in lookup
      form: score maps merged left to right. */
  function Accumulate(idx: Index, terms: seq<string>, p: Params): (r: Scores)
    requires p.avgdl > 0.0
    ensures WellFormed(idx) ==> Unique(r)
    ensures Keys(r) == PostedIds(idx, terms)
    decreases |terms|
  {
    if |terms| == 0 then []
    else
      PostedIdsSnoc(idx, terms);
      UpdateScores(Accumulate(idx, terms[..|terms| - 1], p), ScoreTerm(idx, terms[|terms| - 1], p))
  }

  /** Ids posted under some term. */
  function PostedIds(idx: Index, terms: seq<string>): set<string>
  {
    set i, a | 0 <= i < |terms| && a in Keys(PostingsOf(idx, terms[i])) :: a
  }

  lemma PostedIdsSnoc(idx: Index, terms: seq<string>)
    requires |terms| > 0
    ensures PostedIds(idx, terms) == PostedIds(idx, terms[..|terms| - 1]) + Keys(PostingsOf(idx, terms[|terms| - 1]))
  {
    var init := terms[..|terms| - 1];
    assert forall i :: 0 <= i < |init| ==> init[i] == terms[i];
    forall a | a in PostedIds(idx, terms)
      ensures a in PostedIds(idx, init) + Keys(PostingsOf(idx, terms[|terms| - 1]))
    {
      var i :| 0 <= i < |terms| && a in Keys(PostingsOf(idx, terms[i]));
      if i < |init| {
        assert a in Keys(PostingsOf(idx, init[i]));
      }
    }
  }

  /** Reference score: the sum over the terms of each one's weight for
      article `a`, zero where the article is not posted. */
  function TotalScore(idx: Index, terms: seq<string>, p: Params, a: string): real
    requires p.avgdl > 0.0
    decreases |terms|
  {
    if |terms| == 0 then 0.0
    else TotalScore(idx, terms[..|terms| - 1], p, a) + GetOr(ScoreTerm(idx, terms[|terms| - 1], p), a, 0.0)
  }

  /** Each article's accumulated score is the sum of its per-term weights. */
  lemma {:induction false} AccumulateGet(idx: Index, terms: seq<string>, p: Params, a: string)
    requires p.avgdl > 0.0
    requires WellFormed(idx)
    ensures GetOr(Accumulate(idx, terms, p), a, 0.0) == TotalScore(idx, terms, p, a)
    decreases |terms|
  {
    if |terms| > 0 {
      var init := terms[..|terms| - 1];
      var last := terms[|terms| - 1];
      AccumulateGet(idx, init, p, a);
      assert Unique(PostingsOf(idx, last));
      UpdateScoresGet(Accumulate(idx, init, p), ScoreTerm(idx, last, p), a);
    }
  }

  /** The lookup forms of the keywords, read by `_get_articles_from_word`. */
  function LookupForms(ws: seq<string>): (r: seq<string>)
    ensures |r| == |ws|
    ensures forall i :: 0 <= i < |ws| ==> r[i] == LookupForm(ws[i])
  {
    seq(|ws|, i requires 0 <= i < |ws| => LookupForm(ws[i]))
  }

  /** The terms that get scored: the lookup forms of the keywords that
      survive the reduction. */
  function QueryTerms(idx: Index, n: nat, query: string): seq<string>
  {
    LookupForms(Reduced(idx, n, QueryKeywords(query)))
  }

  /** The total of the terms' scores, best first. */
  function Rank(idx: Index, terms: seq<string>, p: Params): (r: Scores)
    requires p.avgdl > 0.0
    ensures SortedDesc(r)
    ensures WellFormed(idx) ==> Unique(r)
    ensures Keys(r) == PostedIds(idx, terms)
    ensures multiset(r) == multiset(Accumulate(idx, terms, p))
  {
    SortDesc(Accumulate(idx, terms, p))
  }

  /** Each entry of a ranking carries its article's total score. */
  lemma RankScore(idx: Index, terms: seq<string>, p: Params, i: nat)
    requires p.avgdl > 0.0
    requires WellFormed(idx)
    requires i < |Rank(idx, terms, p)|
    ensures Rank(idx, terms, p)[i].val == TotalScore(idx, terms, p, Rank(idx, terms, p)[i].key)
  {
    var scores := Accumulate(idx, terms, p);
    var r := Rank(idx, terms, p);
    assert r[i] in multiset(scores);
    var j :| 0 <= j < |scores| && scores[j] == r[i];
    AccumulateGet(idx, terms, p, r[i].key);
  }

  datatype SearchOutcome = SearchOutcome(ranking: Scores, index: Index)

  /** `search(query)`, together with the index as it is afterwards: reading
      raw keywords in `_reduce_query` and lookup forms while scoring may add
      empty posting lists, and changes no posting list. */
  function Search(idx: Index, p: Params, query: string): (r: SearchOutcome)
    requires p.avgdl > 0.0
    ensures r.ranking == Rank(idx, QueryTerms(idx, p.n, query), p)
    ensures forall v :: PostingsOf(r.index, v) == PostingsOf(idx, v)
  {
    var terms := QueryTerms(idx, p.n, query);
    var touched := AccessAll(idx, QueryKeywords(query));
    AccessAllSamePostings(idx, QueryKeywords(query));
    AccessAllSamePostings(touched, terms);
    SearchOutcome(Rank(idx, terms, p), AccessAll(touched, terms))
  }

  /** The ranking `search` returns: every article posted under a surviving
      term, each once, in non-increasing order of its total score. */
  lemma SearchRanking(idx: Index, p: Params, query: string, i: nat)
    requires p.avgdl > 0.0
    requires WellFormed(idx)
    ensures SortedDesc(Search(idx, p, query).ranking)
    ensures Unique(Search(idx, p, query).ranking)
    ensures Keys(Search(idx, p, query).ranking) == PostedIds(idx, QueryTerms(idx, p.n, query))
    ensures i < |Search(idx, p, query).ranking| ==>
      Search(idx, p, query).ranking[i].val ==
      TotalScore(idx, QueryTerms(idx, p.n, query), p, Search(idx, p, query).ranking[i].key)
  {
    if i < |Search(idx, p, query).ranking| {
      RankScore(idx, QueryTerms(idx, p.n, query), p, i);
    }
  }

  /** The entries of the ranking that share a score are listed in the order
      in which their articles were first scored. */
  lemma SearchTies(idx: Index, p: Params, query: string, v: real)
    requires p.avgdl > 0.0
    ensures Filter(Search(idx, p, query).ranking, ScoreIs(v)) ==
      Filter(Accumulate(idx, QueryTerms(idx, p.n, query), p), ScoreIs(v))
  {
    SortStable(Accumulate(idx, QueryTerms(idx, p.n, query), p), v);
  }
}
