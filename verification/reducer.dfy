/** `_reduce_query`: when the query holds at least one keyword that few
    articles mention, the common keywords are dropped. Document frequencies
    are read on the `defaultdict` index with the keyword exactly as typed, so
    an unseen keyword gains an empty posting list on the way. */
module QueryReducer {
  import opened Seqs
  import opened InvertedIndex

  /** `len(self.index[word]) < len(self.database) / 4`, a true division. */
  predicate Unusual(idx: Index, n: nat, w: string)
  {
    (DocFreq(idx, w) as real) < (n as real) / 4.0
  }

  function UnusualIn(idx: Index, n: nat): string -> bool
  {
    w => Unusual(idx, n, w)
  }

  predicate HasUnusual(idx: Index, n: nat, kws: seq<string>)
  {
    exists i :: 0 <= i < |kws| && Unusual(idx, n, kws[i])
  }

  lemma HasUnusualSnoc(idx: Index, n: nat, ws: seq<string>, w: string)
    ensures HasUnusual(idx, n, ws + [w]) <==> HasUnusual(idx, n, ws) || Unusual(idx, n, w)
  {
    var s := ws + [w];
    if HasUnusual(idx, n, ws) {
      var j :| 0 <= j < |ws| && Unusual(idx, n, ws[j]);
      assert s[j] == ws[j];
    }
    if Unusual(idx, n, w) {
      assert s[|ws|] == w;
    }
    if HasUnusual(idx, n, s) {
      var j :| 0 <= j < |s| && Unusual(idx, n, s[j]);
      if j < |ws| {
        assert s[j] == ws[j];
      }
    }
  }

  /** Reference definition of the reduced query. */
  function Reduced(idx: Index, n: nat, kws: seq<string>): (r: seq<string>)
    ensures IsSubseq(r, kws)
    ensures |kws| > 0 ==> |r| > 0
  {
    if HasUnusual(idx, n, kws) then
      var i :| 0 <= i < |kws| && Unusual(idx, n, kws[i]);
      assert UnusualIn(idx, n)(kws[i]);
      Filter(kws, UnusualIn(idx, n))
    else
      SubseqRefl(kws);
      kws
  }

  /** The threshold in integers: a keyword is unusual exactly when four times
      its document frequency is below the number of articles. */
  lemma UnusualInIntegers(idx: Index, n: nat, w: string)
    ensures Unusual(idx, n, w) <==> 4 * DocFreq(idx, w) < n
  {
    var d := DocFreq(idx, w) as real;
    assert d < (n as real) / 4.0 <==> 4.0 * d < n as real;
  }

  /** When some keyword is unusual, a keyword survives exactly when it is one
      of the unusual keywords; otherwise every keyword survives. */
  lemma ReducedMembers(idx: Index, n: nat, kws: seq<string>, w: string)
    ensures HasUnusual(idx, n, kws) ==> (w in Reduced(idx, n, kws) <==> w in kws && Unusual(idx, n, w))
    ensures !HasUnusual(idx, n, kws) ==> Reduced(idx, n, kws) == kws
  {
    if HasUnusual(idx, n, kws) {
      var r := Reduced(idx, n, kws);
      if w in r {
        var i :| 0 <= i < |r| && r[i] == w;
        assert UnusualIn(idx, n)(r[i]);
      }
      if w in kws && Unusual(idx, n, w) {
        var i :| 0 <= i < |kws| && kws[i] == w;
        assert UnusualIn(idx, n)(kws[i]);
      }
    }
  }

  /** Reducing an already reduced query changes nothing. */
  lemma ReducedIdempotent(idx: Index, n: nat, kws: seq<string>)
    ensures Reduced(idx, n, Reduced(idx, n, kws)) == Reduced(idx, n, kws)
  {
    var r := Reduced(idx, n, kws);
    if HasUnusual(idx, n, kws) {
      var p := UnusualIn(idx, n);
      assert forall i :: 0 <= i < |r| ==> p(r[i]);
      assert HasUnusual(idx, n, r) by {
        assert p(r[0]);
      }
      FilterKeepsAll(r, p);
    }
  }

  /** Only document frequencies matter: two indexes with the same posting
      lists reduce every query alike. */
  lemma ReducedSamePostings(idx: Index, idx': Index, n: nat, kws: seq<string>)
    requires forall v :: PostingsOf(idx', v) == PostingsOf(idx, v)
    ensures Reduced(idx', n, kws) == Reduced(idx, n, kws)
  {
    assert forall w :: Unusual(idx', n, w) == Unusual(idx, n, w) by {
      forall w
        ensures Unusual(idx', n, w) == Unusual(idx, n, w)
      {
        assert DocFreq(idx', w) == DocFreq(idx, w);
      }
    }
    assert HasUnusual(idx', n, kws) == HasUnusual(idx, n, kws);
    FilterCongruent(kws, UnusualIn(idx', n), UnusualIn(idx, n));
  }

  /** The index after reading `index[w]` for every `w` of `ws` in turn. */
  function AccessAll(idx: Index, ws: seq<string>): (r: Index)
    ensures r.Keys == idx.Keys + SetOf(ws)
    ensures forall v :: v in idx ==> r[v] == idx[v]
    ensures forall v :: v in r && v !in idx ==> r[v] == []
    decreases |ws|
  {
    if |ws| == 0 then idx
    else
      var init := ws[..|ws| - 1];
      assert SetOf(ws) == SetOf(init) + {ws[|ws| - 1]} by {
        assert ws == init + [ws[|ws| - 1]];
      }
      Access(AccessAll(idx, init), ws[|ws| - 1])
  }

  /** Reading posting lists adds empty ones and changes none. */
  lemma AccessAllSamePostings(idx: Index, ws: seq<string>)
    ensures forall v :: PostingsOf(AccessAll(idx, ws), v) == PostingsOf(idx, v)
  {
    var r := AccessAll(idx, ws);
    forall v
      ensures PostingsOf(r, v) == PostingsOf(idx, v)
    {
      if v in idx {
        assert r[v] == idx[v];
      } else if v in r {
        assert r[v] == [];
      }
    }
  }

  /** The first loop of `_reduce_query`: every keyword's document frequency
      is read, and the unusual ones are counted. */
  method ReadFrequencies(idx: Index, n: nat, kws: seq<string>) returns (freq: seq<nat>, unusualCount: nat)
    ensures |freq| == |kws|
    ensures forall j :: 0 <= j < |kws| ==> freq[j] == DocFreq(idx, kws[j])
    ensures unusualCount > 0 <==> HasUnusual(idx, n, kws)
  {
    freq := [];
    unusualCount := 0;
    var i := 0;
    while i < |kws|
      invariant 0 <= i <= |kws|
      invariant |freq| == i
      invariant forall j :: 0 <= j < i ==> freq[j] == DocFreq(idx, kws[j])
      invariant unusualCount > 0 <==> HasUnusual(idx, n, kws[..i])
    {
      assert kws[..i + 1] == kws[..i] + [kws[i]];
      HasUnusualSnoc(idx, n, kws[..i], kws[i]);
      freq := freq + [DocFreq(idx, kws[i])];
      if (freq[i] as real) < (n as real) / 4.0 {
        unusualCount := unusualCount + 1;
      }
      i := i + 1;
    }
    assert kws[..|kws|] == kws;
  }

  /** The second loop: the keywords whose recorded frequency is below the
      threshold, in query order. */
  method KeepUnusual(idx: Index, n: nat, kws: seq<string>, freq: seq<nat>) returns (kept: seq<string>)
    requires |freq| == |kws|
    requires forall j :: 0 <= j < |kws| ==> freq[j] == DocFreq(idx, kws[j])
    ensures kept == Filter(kws, UnusualIn(idx, n))
  {
    kept := [];
    var p := UnusualIn(idx, n);
    var i := 0;
    while i < |kws|
      invariant 0 <= i <= |kws|
      invariant kept == Filter(kws[..i], p)
    {
      FilterStep(kws, i, p);
      assert p(kws[i]) <==> (freq[i] as real) < (n as real) / 4.0;
      if (freq[i] as real) < (n as real) / 4.0 {
        kept := kept + [kws[i]];
      }
      i := i + 1;
    }
    assert kws[..|kws|] == kws;
  }

  /** `_reduce_query`: the reduced query, and the index after the reads.
      Each read `self.index[word]` leaves the posting lists alone, so the
      frequencies the loop sees are those of the index before the call. */
  method ReduceQuery(idx: Index, n: nat, kws: seq<string>) returns (kept: seq<string>, touched: Index)
    ensures kept == Reduced(idx, n, kws)
    ensures touched.Keys == idx.Keys + SetOf(kws)
    ensures forall v :: v in idx ==> touched[v] == idx[v]
    ensures forall v :: v in touched && v !in idx ==> touched[v] == []
  {
    touched := AccessAll(idx, kws);
    var freq, unusualCount := ReadFrequencies(idx, n, kws);
    if unusualCount > 0 {
      kept := KeepUnusual(idx, n, kws, freq);
    } else {
      kept := kws;
    }
  }

  /** A concrete reduction: with more than eight articles, a keyword posted
      for two of them is unusual and one posted for all of them is not, so
      only the first is kept. */
  lemma ReduceExample(idx: Index, n: nat, a: string, b: string)
    requires n > 8
    requires DocFreq(idx, a) == 2 && DocFreq(idx, b) == n
    ensures Reduced(idx, n, [a, b]) == [a]
  {
    UnusualInIntegers(idx, n, a);
    UnusualInIntegers(idx, n, b);
    var kws := [a, b];
    assert Unusual(idx, n, kws[0]);
    var p := UnusualIn(idx, n);
    assert p(a) && !p(b);
    assert Filter(kws, p) == [a] + Filter([b], p);
    assert Filter([b], p) == Filter([b][1..], p);
  }
}
