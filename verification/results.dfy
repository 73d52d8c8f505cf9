/** Turning a ranking into articles, as both front ends' `solve_query` do:
    each ranked id is looked up with `dataset[dataset['article_id'] == id]`,
    ids that match no row are skipped, and collection stops as soon as more
    than `Limit` lookups have been kept. */
module Results {
  import opened Seqs
  import opened InvertedIndex

  /** The bound tested by `len(results) > 5`. */
  const Limit: nat := 5

  function HasId(id: string): Article -> bool
  {
    (row: Article) => row.id == id
  }

  /** `dataset[dataset['article_id'] == id]`: every row with that id, in
      corpus order. */
  function Lookup(rows: seq<Article>, id: string): (r: seq<Article>)
    ensures forall i :: 0 <= i < |r| ==> r[i].id == id && r[i] in rows
    ensures forall i :: 0 <= i < |rows| && rows[i].id == id ==> rows[i] in r
    ensures IsSubseq(r, rows)
  {
    var r := Filter(rows, HasId(id));
    assert forall i :: 0 <= i < |r| ==> HasId(id)(r[i]);
    assert forall i :: 0 <= i < |rows| && rows[i].id == id ==> HasId(id)(rows[i]);
    r
  }

  /** Each row with the id is in the lookup as often as in the corpus, and
      no other row is. */
  lemma LookupCount(rows: seq<Article>, id: string, x: Article)
    ensures multiset(Lookup(rows, id))[x] == if x.id == id then multiset(rows)[x] else 0
  {
    FilterCount(rows, HasId(id), x);
  }

  /** `not article.empty`. */
  function Known(rows: seq<Article>): string -> bool
  {
    id => |Lookup(rows, id)| > 0
  }

  function LookupAll(rows: seq<Article>, ids: seq<string>): (r: seq<seq<Article>>)
    ensures |r| == |ids|
    ensures forall i :: 0 <= i < |ids| ==> r[i] == Lookup(rows, ids[i])
  {
    seq(|ids|, i requires 0 <= i < |ids| => Lookup(rows, ids[i]))
  }

  /** What one ranked id contributes: its lookup when that is not empty. */
  function Entry(rows: seq<Article>, id: string): seq<seq<Article>>
  {
    var article := Lookup(rows, id);
    if |article| > 0 then [article] else []
  }

  /** The lookups of the ranked ids that match some row, in ranking order,
      built one id at a time as the loop of `solve_query` does. */
  function Resolved(rows: seq<Article>, ids: seq<string>): seq<seq<Article>>
    decreases |ids|
  {
    if |ids| == 0 then [] else Resolved(rows, ids[..|ids| - 1]) + Entry(rows, ids[|ids| - 1])
  }

  function Min(a: nat, b: nat): nat
  {
    if a <= b then a else b
  }

  /** What `solve_query` returns: the first `Limit + 1` resolved lookups. */
  function Top(rows: seq<Article>, ids: seq<string>): seq<seq<Article>>
  {
    var all := Resolved(rows, ids);
    all[..Min(|all|, Limit + 1)]
  }

  lemma LookupAllAppend(rows: seq<Article>, a: seq<string>, b: seq<string>)
    ensures LookupAll(rows, a + b) == LookupAll(rows, a) + LookupAll(rows, b)
  {
  }

  /** Filtering one more id and looking the known ones up appends its entry. */
  lemma LookupKnownSnoc(rows: seq<Article>, ids: seq<string>, id: string)
    ensures LookupAll(rows, Filter(ids + [id], Known(rows))) ==
      LookupAll(rows, Filter(ids, Known(rows))) + Entry(rows, id)
  {
    FilterSnoc(ids, id, Known(rows));
    LookupAllAppend(rows, Filter(ids, Known(rows)), if Known(rows)(id) then [id] else []);
  }

  /** The resolved list is the lookup of every id that matches some row,
      i.e. the ranking filtered to known ids and then looked up. */
  lemma {:induction false} ResolvedIsFiltered(rows: seq<Article>, ids: seq<string>)
    ensures Resolved(rows, ids) == LookupAll(rows, Filter(ids, Known(rows)))
    decreases |ids|
  {
    if |ids| > 0 {
      var init := ids[..|ids| - 1];
      var id := ids[|ids| - 1];
      ResolvedIsFiltered(rows, init);
      LookupKnownSnoc(rows, init, id);
      assert ids == init + [id];
    }
  }

  /** The step of the loop over the ranking. */
  lemma ResolvedStep(rows: seq<Article>, ids: seq<string>, i: nat)
    requires i < |ids|
    ensures Resolved(rows, ids[..i + 1]) == Resolved(rows, ids[..i]) + Entry(rows, ids[i])
  {
    assert ids[..i + 1][..i] == ids[..i];
  }

  /** Resolving a prefix of the ranking gives a prefix of the resolved list. */
  lemma {:induction false} ResolvedPrefix(rows: seq<Article>, ids: seq<string>, k: nat)
    requires k <= |ids|
    ensures Resolved(rows, ids[..k]) <= Resolved(rows, ids)
    decreases |ids| - k
  {
    if k == |ids| {
      assert ids[..k] == ids;
    } else {
      ResolvedStep(rows, ids, k);
      ResolvedPrefix(rows, ids, k + 1);
    }
  }

  /** Once more than `Limit` lookups of a prefix of the ranking resolve,
      the rest of the ranking no longer matters. */
  lemma TopOfPrefix(rows: seq<Article>, ids: seq<string>, k: nat)
    requires k <= |ids|
    requires |Resolved(rows, ids[..k])| == Limit + 1
    ensures Top(rows, ids) == Resolved(rows, ids[..k])
  {
    ResolvedPrefix(rows, ids, k);
  }

  /** A ranking resolving to at most `Limit` lookups is kept whole. */
  lemma TopOfShort(rows: seq<Article>, ids: seq<string>)
    requires |Resolved(rows, ids)| <= Limit
    ensures Top(rows, ids) == Resolved(rows, ids)
  {
  }

  /** Every entry of the resolved list is a non-empty lookup. */
  lemma {:induction false} ResolvedNonEmpty(rows: seq<Article>, ids: seq<string>)
    ensures forall i :: 0 <= i < |Resolved(rows, ids)| ==> |Resolved(rows, ids)[i]| > 0
    decreases |ids|
  {
    if |ids| > 0 {
      ResolvedNonEmpty(rows, ids[..|ids| - 1]);
    }
  }

  /** The ids behind the truncated list: a subsequence of the ranking whose
      lookups are the entries. */
  lemma TopSelection(rows: seq<Article>, ids: seq<string>) returns (sel: seq<string>)
    ensures IsSubseq(sel, ids) && |sel| == |Top(rows, ids)|
    ensures forall i :: 0 <= i < |sel| ==> Top(rows, ids)[i] == Lookup(rows, sel[i])
  {
    var known := Filter(ids, Known(rows));
    ResolvedIsFiltered(rows, ids);
    var t := Top(rows, ids);
    sel := known[..|t|];
    PrefixOfSubseq(sel, known, ids);
  }

  /** What the truncated list holds: at most `Limit + 1` lookups, none empty,
      each made of the rows of one ranked id, ids in ranking order; and when
      fewer than `Limit + 1` ids match a row, all of them. */
  lemma TopShape(rows: seq<Article>, ids: seq<string>)
    ensures |Top(rows, ids)| <= Limit + 1
    ensures forall i :: 0 <= i < |Top(rows, ids)| ==> |Top(rows, ids)[i]| > 0
    ensures exists sel :: (IsSubseq(sel, ids) && |sel| == |Top(rows, ids)| &&
      forall i :: 0 <= i < |sel| ==> Top(rows, ids)[i] == Lookup(rows, sel[i]))
    ensures |Resolved(rows, ids)| <= Limit ==> Top(rows, ids) == Resolved(rows, ids)
  {
    ResolvedNonEmpty(rows, ids);
    var sel := TopSelection(rows, ids);
  }
}
