/** The BM25 weight of `_compute_bm25_score` and `_inverse_document_frequency`,
    over exact reals. The natural logarithm is a parameter; the lemmas that
    need it assume only that it is strictly increasing (and, for the sign of
    the weight, that it vanishes at one). */
module Bm25 {
  import opened Assoc
  import opened InvertedIndex

  /** `saturation_parameter`, k1. */
  const K1: real := 1.2
  /** `length_parameter`, b. */
  const B: real := 0.75

  /** What scoring needs from the corpus: the number of rows, the average
      raw text length, each article's raw text length, and the logarithm. */
  datatype Params = Params(n: nat, avgdl: real, length: string -> nat, ln: real -> real)

  ghost predicate Increasing(ln: real -> real)
  {
    forall x, y :: 0.0 < x < y ==> ln(x) < ln(y)
  }

  /** `(N - df + 0.5) / (df + 0.5)`. */
  function IdfRatio(n: nat, df: nat): (r: real)
    ensures df <= n ==> r > 0.0
  {
    ((n as real) - (df as real) + 0.5) / ((df as real) + 0.5)
  }

  /** Comparing two quotients with positive denominators by cross-multiplying. */
  lemma QuotientLess(a: real, b: real, c: real, d: real)
    requires b > 0.0 && d > 0.0
    requires a * d < c * b
    ensures a / b < c / d
  {
    var q1 := a / b;
    var q2 := c / d;
    assert q1 * b == a;
    assert q2 * d == c;
    assert q1 * (b * d) == a * d;
    assert q2 * (b * d) == c * b;
  }

  /** The argument of the logarithm, `1 + (N - df + 0.5) / (df + 0.5)`. */
  function LogArg(n: nat, df: nat): real
  {
    1.0 + IdfRatio(n, df)
  }

  /** The argument is `(N + 1) / (df + 0.5)`. */
  lemma LogArgClosedForm(n: nat, df: nat)
    ensures LogArg(n, df) == ((n as real) + 1.0) / ((df as real) + 0.5)
  {
    var den := (df as real) + 0.5;
    var q := IdfRatio(n, df);
    assert q * den == (n as real) - (df as real) + 0.5;
    assert (1.0 + q) * den == (n as real) + 1.0;
  }

  /** The logarithm is always taken of a positive number, even for a
      document frequency above `N`. */
  lemma LogArgPositive(n: nat, df: nat)
    ensures LogArg(n, df) > 0.0
  {
    LogArgClosedForm(n, df);
  }

  /** The argument exceeds one exactly when `df <= N`. */
  lemma LogArgAboveOne(n: nat, df: nat)
    ensures LogArg(n, df) > 1.0 <==> df <= n
  {
    LogArgClosedForm(n, df);
    var num := (n as real) + 1.0;
    var den := (df as real) + 0.5;
    if df <= n {
      QuotientLess(den, den, num, den);
    } else {
      assert num <= den;
      assert num / den <= 1.0;
    }
  }

  /** The ratio strictly decreases as the document frequency grows. */
  lemma IdfRatioDecreasing(n: nat, d1: nat, d2: nat)
    requires d1 < d2
    ensures IdfRatio(n, d2) < IdfRatio(n, d1)
  {
    var a := (n as real) + 0.5;
    var x1 := d1 as real;
    var x2 := d2 as real;
    assert (a - x2) * (x1 + 0.5) == a * x1 + 0.5 * a - x1 * x2 - 0.5 * x2;
    assert (a - x1) * (x2 + 0.5) == a * x2 + 0.5 * a - x1 * x2 - 0.5 * x1;
    assert a * x1 < a * x2;
    QuotientLess(a - x2, x2 + 0.5, a - x1, x1 + 0.5);
  }

  /** `math.log(1 + result)`. */
  function Idf(n: nat, df: nat, ln: real -> real): real
  {
    ln(LogArg(n, df))
  }

  /** Rarer words weigh more. */
  lemma IdfDecreasing(n: nat, d1: nat, d2: nat, ln: real -> real)
    requires Increasing(ln)
    requires d1 < d2
    ensures Idf(n, d2, ln) < Idf(n, d1, ln)
  {
    IdfRatioDecreasing(n, d1, d2);
    LogArgPositive(n, d2);
  }

  /** With the true logarithm's `ln(1) = 0`, a word posted for at most `N`
      articles has a positive weight. */
  lemma IdfPositive(n: nat, df: nat, ln: real -> real)
    requires Increasing(ln) && ln(1.0) == 0.0
    requires df <= n
    ensures Idf(n, df, ln) > 0.0
  {
    LogArgAboveOne(n, df);
  }

  /** The length normalisation `1 - b + b * L / avgdl`, at least `1 - b`. */
  function LengthNorm(len: nat, avgdl: real): (r: real)
    requires avgdl > 0.0
    ensures r >= 1.0 - B
  {
    1.0 - B + B * (len as real) / avgdl
  }

  /** `x / (x + c)` grows with `x` for a fixed positive `c`. */
  lemma SaturationIncreasing(x1: real, x2: real, c: real)
    requires 0.0 <= x1 < x2 && c > 0.0
    ensures x1 / (x1 + c) < x2 / (x2 + c)
  {
    assert x1 * (x2 + c) == x1 * x2 + x1 * c;
    assert x2 * (x1 + c) == x1 * x2 + x2 * c;
    assert x1 * c < x2 * c;
    QuotientLess(x1, x1 + c, x2, x2 + c);
  }

  /** `x / (x + c)` shrinks as `c` grows, for a fixed positive `x`. */
  lemma SaturationDecreasing(x: real, c1: real, c2: real)
    requires x > 0.0 && 0.0 < c1 < c2
    ensures x / (x + c2) < x / (x + c1)
  {
    assert x * (x + c1) == x * x + x * c1;
    assert x * (x + c2) == x * x + x * c2;
    assert x * c1 < x * c2;
    QuotientLess(x, x + c2, x, x + c1);
  }

  /** The saturated term frequency
      `f * (k1 + 1) / (f + k1 * (1 - b + b * L / avgdl))`. */
  function Tf(f: nat, len: nat, avgdl: real): (r: real)
    requires avgdl > 0.0
    ensures r >= 0.0
    ensures f >= 1 ==> 0.0 < r < K1 + 1.0
  {
    var x := f as real;
    var c := K1 * LengthNorm(len, avgdl);
    QuotientLess(x, x + c, 1.0, 1.0);
    assert x * (K1 + 1.0) / (x + c) == (K1 + 1.0) * (x / (x + c));
    x * (K1 + 1.0) / (x + c)
  }

  /** `Tf` as `(k1 + 1)` times the saturation `f / (f + c)`. */
  lemma TfShape(f: nat, len: nat, avgdl: real)
    requires avgdl > 0.0
    ensures Tf(f, len, avgdl) == (K1 + 1.0) * ((f as real) / ((f as real) + K1 * LengthNorm(len, avgdl)))
  {
  }

  /** More occurrences in the same article give a larger term frequency. */
  lemma TfIncreasing(f1: nat, f2: nat, len: nat, avgdl: real)
    requires avgdl > 0.0
    requires f1 < f2
    ensures Tf(f1, len, avgdl) < Tf(f2, len, avgdl)
  {
    SaturationIncreasing(f1 as real, f2 as real, K1 * LengthNorm(len, avgdl));
    TfShape(f1, len, avgdl);
    TfShape(f2, len, avgdl);
  }

  /** The same count in a longer article gives a smaller term frequency. */
  lemma TfLengthDecreasing(f: nat, l1: nat, l2: nat, avgdl: real)
    requires avgdl > 0.0
    requires f >= 1 && l1 < l2
    ensures Tf(f, l2, avgdl) < Tf(f, l1, avgdl)
  {
    QuotientLess(B * (l1 as real), avgdl, B * (l2 as real), avgdl);
    SaturationDecreasing(f as real, K1 * LengthNorm(l1, avgdl), K1 * LengthNorm(l2, avgdl));
    TfShape(f, l1, avgdl);
    TfShape(f, l2, avgdl);
  }

  /** One article's contribution for a word posted `f` times in it. */
  function Weight(p: Params, df: nat, a: string, f: nat): real
    requires p.avgdl > 0.0
  {
    Idf(p.n, df, p.ln) * Tf(f, p.length(a), p.avgdl)
  }

  /** `_compute_bm25_score` once the word is in lookup form: one entry per
      article of the term's posting list, in posting order. */
  function ScoreTerm(idx: Index, term: string, p: Params): (r: seq<Pair<real>>)
    requires p.avgdl > 0.0
    ensures KeySeq(r) == KeySeq(PostingsOf(idx, term))
    ensures Keys(r) == Keys(PostingsOf(idx, term))
    ensures Unique(PostingsOf(idx, term)) ==> Unique(r)
  {
    var post := PostingsOf(idx, term);
    var df := |post|;
    var r := seq(|post|, i requires 0 <= i < |post| => Pair(post[i].key, Weight(p, df, post[i].key, post[i].val)));
    assert Keys(r) == Keys(post) by {
      assert forall i :: 0 <= i < |r| ==> r[i].key == post[i].key;
    }
    r
  }

  /** Every entry of a term's score map carries the weight of that article's
      count; on an index whose counts are positive and whose document
      frequencies do not exceed `N`, every such weight is positive. */
  lemma ScoreTermPositive(idx: Index, term: string, p: Params, i: nat)
    requires p.avgdl > 0.0
    requires WellFormed(idx)
    requires Increasing(p.ln) && p.ln(1.0) == 0.0
    requires DocFreq(idx, term) <= p.n
    requires i < |ScoreTerm(idx, term, p)|
    ensures ScoreTerm(idx, term, p)[i].val > 0.0
  {
    var post := PostingsOf(idx, term);
    IdfPositive(p.n, |post|, p.ln);
    assert post[i].val >= 1;
    var idf := Idf(p.n, |post|, p.ln);
    var tf := Tf(post[i].val, p.length(post[i].key), p.avgdl);
    assert idf * tf > 0.0;
  }

  /** Within one term's scores, of two articles of equal length the one
      holding the term more often scores higher. */
  lemma ScoreTermPrefersFrequent(idx: Index, term: string, p: Params, i: nat, j: nat)
    requires p.avgdl > 0.0
    requires Increasing(p.ln) && p.ln(1.0) == 0.0
    requires DocFreq(idx, term) <= p.n
    requires i < |PostingsOf(idx, term)| && j < |PostingsOf(idx, term)|
    requires p.length(PostingsOf(idx, term)[i].key) == p.length(PostingsOf(idx, term)[j].key)
    requires PostingsOf(idx, term)[i].val < PostingsOf(idx, term)[j].val
    ensures ScoreTerm(idx, term, p)[i].val < ScoreTerm(idx, term, p)[j].val
  {
    var post := PostingsOf(idx, term);
    WeightIncreasing(p, |post|, post[i].key, post[j].key, post[i].val, post[j].val);
  }

  /** Of two articles of equal length, the one with more occurrences of a
      word posted for at most `N` articles weighs more. */
  lemma WeightIncreasing(p: Params, df: nat, a1: string, a2: string, f1: nat, f2: nat)
    requires p.avgdl > 0.0
    requires Increasing(p.ln) && p.ln(1.0) == 0.0
    requires df <= p.n
    requires p.length(a1) == p.length(a2) && f1 < f2
    ensures Weight(p, df, a1, f1) < Weight(p, df, a2, f2)
  {
    IdfPositive(p.n, df, p.ln);
    TfIncreasing(f1, f2, p.length(a1), p.avgdl);
    ScaleIncreasing(Idf(p.n, df, p.ln), Tf(f1, p.length(a1), p.avgdl), Tf(f2, p.length(a1), p.avgdl));
  }

  lemma ScaleIncreasing(c: real, x: real, y: real)
    requires c > 0.0 && x < y
    ensures c * x < c * y
  {
  }
}
