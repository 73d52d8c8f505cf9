/** The command-line front end `main.py`: `solve_query`, the text cleaning
    of `display_results`, and the guard that decides whether `--retrain`
    deletes the cached index file. */
module Cli {
  import opened Text
  import opened Tags
  import opened Assoc
  import opened InvertedIndex
  import opened Bm25
  import opened Ranking
  import opened Results

  /** The loop of `solve_query` over the ids of the ranking: a lookup that
      matches rows is kept, and the loop stops once more than `Limit` are kept. */
  method CollectTop(rows: seq<Article>, ids: seq<string>) returns (results: seq<seq<Article>>)
    ensures results == Top(rows, ids)
  {
    results := [];
    var i := 0;
    while i < |ids|
      invariant 0 <= i <= |ids|
      invariant results == Resolved(rows, ids[..i])
      invariant |results| <= Limit
    {
      var article := Lookup(rows, ids[i]);
      ResolvedStep(rows, ids, i);
      if |article| > 0 {
        results := results + [article];
      }
      if |results| > Limit {
        TopOfPrefix(rows, ids, i + 1);
        return;
      }
      i := i + 1;
    }
    assert ids[..|ids|] == ids;
    TopOfShort(rows, ids);
  }

  /** `solve_query(query, dataset, engine)`: the articles of the best ranked
      ids, together with the engine's index after the search. */
  method SolveQuery(rows: seq<Article>, idx: Index, p: Params, query: string)
    returns (results: seq<seq<Article>>, index: Index)
    requires p.avgdl > 0.0
    ensures results == Top(rows, KeySeq(Rank(idx, QueryTerms(idx, p.n, query), p)))
    ensures |results| <= Limit + 1
    ensures forall v :: PostingsOf(index, v) == PostingsOf(idx, v)
  {
    var outcome := Search(idx, p, query);
    results := CollectTop(rows, KeySeq(outcome.ranking));
    TopShape(rows, KeySeq(outcome.ranking));
    index := outcome.index;
  }

  /** `texte.replace("<p>", "").replace("</p>", "\n\n")` followed by the tag
      deletion. */
  function CleanText(text: string): (r: string)
    ensures |r| <= |text|
  {
    DeleteTags(Replace(Replace(text, "<p>", ""), "</p>", "\n\n"))
  }

  /** The displayed text holds no tag: no `<` is closed by a `>` on its line. */
  lemma CleanTextHasNoTag(text: string)
    ensures NoTagOnLine(CleanText(text))
  {
    DeleteTagsLeavesNoTag(Replace(Replace(text, "<p>", ""), "</p>", "\n\n"));
  }

  /** `.pkl` occurs at position `k`, with no newline between the leading dot
      and it: the regular expression `^\..*\.pkl` matches through `k`. */
  predicate PklAt(path: string, k: nat)
  {
    1 <= k && k + 4 <= |path| && path[k..k + 4] == ".pkl" && '\n' !in path[1..k]
  }

  /** Scan for the first `.pkl` at or after `k` on the first line. */
  function PklFrom(path: string, k: nat): (b: bool)
    requires 1 <= k
    decreases |path| - k
  {
    if k + 4 > |path| then false
    else if path[k..k + 4] == ".pkl" then true
    else if path[k] == '\n' then false
    else PklFrom(path, k + 1)
  }

  /** `re.match("^\..*\.pkl", index)`. */
  function RetrainGuard(path: string): bool
  {
    |path| > 0 && path[0] == '.' && PklFrom(path, 1)
  }

  lemma {:induction false} PklFromSound(path: string, k: nat)
    requires 1 <= k
    requires PklFrom(path, k)
    requires '\n' !in path[1..k]
    ensures exists j :: PklAt(path, j)
    decreases |path| - k
  {
    if path[k..k + 4] == ".pkl" {
      assert PklAt(path, k);
    } else {
      assert path[1..k + 1] == path[1..k] + [path[k]];
      PklFromSound(path, k + 1);
    }
  }

  lemma {:induction false} PklFromComplete(path: string, k: nat, j: nat)
    requires 1 <= k <= j
    requires PklAt(path, j)
    ensures PklFrom(path, k)
    decreases j - k
  {
    if path[k..k + 4] != ".pkl" {
      assert k != j;
      assert path[k] != '\n' by {
        assert path[k] == path[1..j][k - 1];
      }
      PklFromComplete(path, k + 1, j);
    }
  }

  /** The guard accepts exactly the paths that start with a dot and hold
      `.pkl` at position one or later on the first line; nothing is said
      about what follows. */
  lemma RetrainGuardExactly(path: string)
    ensures RetrainGuard(path) <==> |path| > 0 && path[0] == '.' && exists k :: PklAt(path, k)
  {
    if |path| > 0 && path[0] == '.' {
      if PklFrom(path, 1) {
        PklFromSound(path, 1);
      }
      if exists k :: PklAt(path, k) {
        var k :| PklAt(path, k);
        PklFromComplete(path, 1, k);
      }
    }
  }

  /** The default index path is accepted, and so is one that merely contains
      `.pkl`. */
  lemma RetrainGuardAccepts()
    ensures RetrainGuard("./index_cdt.pkl")
    ensures RetrainGuard("./index.pkl.bak")
  {
    assert PklAt("./index_cdt.pkl", 11) by {
      assert "./index_cdt.pkl"[11..15] == ".pkl";
      assert "./index_cdt.pkl"[1..11] == "/index_cdt";
    }
    RetrainGuardExactly("./index_cdt.pkl");
    assert PklAt("./index.pkl.bak", 7) by {
      assert "./index.pkl.bak"[7..11] == ".pkl";
      assert "./index.pkl.bak"[1..7] == "/index";
    }
    RetrainGuardExactly("./index.pkl.bak");
  }

  /** A path without the leading dot, or the bare `.pkl`, is rejected. */
  lemma RetrainGuardRejects()
    ensures !RetrainGuard("index_cdt.pkl")
    ensures !RetrainGuard(".pkl")
  {
  }

  /** `--retrain` removes the file only if it exists and the guard accepts
      its path; the file's existence is an input. */
  function RemovesIndex(retrain: bool, exists_: bool, path: string): (b: bool)
    ensures b <==> retrain && exists_ && |path| > 0 && path[0] == '.' && exists k :: PklAt(path, k)
  {
    RetrainGuardExactly(path);
    retrain && exists_ && RetrainGuard(path)
  }
}
