/** Insertion-ordered dictionaries with string keys, the behaviour of a
    Python `dict`: a key that is already present is updated in place, a new
    key is appended at the end. Posting lists and score maps are both of
    this shape. */
module Assoc {

  datatype Pair<V> = Pair(key: string, val: V)

  function Keys<V>(s: seq<Pair<V>>): set<string>
  {
    set i | 0 <= i < |s| :: s[i].key
  }

  /** The keys in iteration order, what `d.keys()` enumerates. */
  function KeySeq<V>(s: seq<Pair<V>>): (ks: seq<string>)
    ensures |ks| == |s|
    ensures forall i :: 0 <= i < |s| ==> ks[i] == s[i].key
  {
    seq(|s|, i requires 0 <= i < |s| => s[i].key)
  }

  /** A dictionary holds each key at most once. */
  predicate Unique<V>(s: seq<Pair<V>>)
  {
    forall i, j :: 0 <= i < j < |s| ==> s[i].key != s[j].key
  }

  /** Position of the first entry with key `k`, or `|s|` when there is none. */
  function IndexOf<V>(s: seq<Pair<V>>, k: string): (i: nat)
    ensures i <= |s|
    ensures i < |s| ==> s[i].key == k
    ensures forall j :: 0 <= j < i ==> s[j].key != k
    ensures i == |s| <==> k !in Keys(s)
    decreases |s|
  {
    if |s| == 0 then 0
    else if s[0].key == k then 0
    else
      KeysCons(s[0], s[1..]);
      assert s == [s[0]] + s[1..];
      1 + IndexOf(s[1..], k)
  }

  /** `d.get(k, absent)`. */
  function GetOr<V>(s: seq<Pair<V>>, k: string, absent: V): (v: V)
    ensures k !in Keys(s) ==> v == absent
    ensures forall i :: 0 <= i < |s| && s[i].key == k && Unique(s) ==> v == s[i].val
  {
    var i := IndexOf(s, k);
    if i < |s| then s[i].val else absent
  }

  /** `d[k] = add(d[k], v)` when `k` is present, `d[k] = v` otherwise. */
  function Upsert<V>(s: seq<Pair<V>>, k: string, v: V, add: (V, V) -> V): (r: seq<Pair<V>>)
    ensures Keys(r) == Keys(s) + {k}
    ensures |r| == if k in Keys(s) then |s| else |s| + 1
    ensures forall i :: 0 <= i < |s| ==> r[i].key == s[i].key
    ensures forall i :: 0 <= i < |s| && s[i].key != k ==> r[i] == s[i]
    ensures k !in Keys(s) ==> r[|s|] == Pair(k, v)
    ensures Unique(s) ==> Unique(r)
  {
    var i := IndexOf(s, k);
    if i < |s| then
      var r := s[i := Pair(k, add(s[i].val, v))];
      assert Keys(r) == Keys(s) by {
        assert forall j :: 0 <= j < |s| ==> r[j].key == s[j].key;
      }
      r
    else
      var r := s + [Pair(k, v)];
      assert Keys(r) == Keys(s) + {k} by {
        assert r[|s|].key == k;
        assert forall j :: 0 <= j < |s| ==> r[j] == s[j];
      }
      r
  }

  /** The key order after an update: unchanged, or the new key last. */
  lemma UpsertKeySeq<V>(s: seq<Pair<V>>, k: string, v: V, add: (V, V) -> V)
    ensures KeySeq(Upsert(s, k, v, add)) == KeySeq(s) + if k in Keys(s) then [] else [k]
  {
    var r := Upsert(s, k, v, add);
    if k !in Keys(s) {
      assert r[|s|].key == k;
    }
  }

  lemma KeySeqCons<V>(s: seq<Pair<V>>)
    requires |s| > 0
    ensures KeySeq(s) == [s[0].key] + KeySeq(s[1..])
  {
  }

  lemma KeysCons<V>(p: Pair<V>, t: seq<Pair<V>>)
    ensures Keys([p] + t) == {p.key} + Keys(t)
  {
    var s := [p] + t;
    forall x
      ensures x in Keys(s) <==> x in {p.key} + Keys(t)
    {
      if x in Keys(s) {
        var i :| 0 <= i < |s| && s[i].key == x;
        if i > 0 {
          assert t[i - 1].key == x;
        }
      }
      if x in Keys(t) {
        var i :| 0 <= i < |t| && t[i].key == x;
        assert s[i + 1].key == x;
      }
      if x == p.key {
        assert s[0].key == x;
      }
    }
  }

  /** In a dictionary, the number of entries is the number of keys. */
  lemma {:induction false} UniqueSize<V>(s: seq<Pair<V>>)
    requires Unique(s)
    ensures |Keys(s)| == |s|
    decreases |s|
  {
    if |s| > 0 {
      assert Keys(s) == {s[0].key} + Keys(s[1..]);
      assert s[0].key !in Keys(s[1..]);
      UniqueSize(s[1..]);
    }
  }

  /** The updated key now holds the combined (or the new) value. */
  lemma UpsertGet<V>(s: seq<Pair<V>>, k: string, v: V, add: (V, V) -> V, absent: V)
    requires Unique(s)
    ensures GetOr(Upsert(s, k, v, add), k, absent) == if k in Keys(s) then add(GetOr(s, k, absent), v) else v
  {
    var r := Upsert(s, k, v, add);
    var i := IndexOf(s, k);
    if i < |s| {
      assert r[i] == Pair(k, add(s[i].val, v));
    } else {
      assert r[|s|] == Pair(k, v);
    }
  }

  /** Every other key keeps its value. */
  lemma UpsertOther<V>(s: seq<Pair<V>>, k: string, v: V, add: (V, V) -> V, b: string, absent: V)
    requires Unique(s) && b != k
    ensures GetOr(Upsert(s, k, v, add), b, absent) == GetOr(s, b, absent)
  {
    var r := Upsert(s, k, v, add);
    if b in Keys(s) {
      var i :| 0 <= i < |s| && s[i].key == b;
      assert r[i] == s[i];
    } else {
      assert b !in Keys(r);
    }
  }

  /** Reading a dictionary whose first entry is `p`. */
  lemma GetOrCons<V>(s: seq<Pair<V>>, k: string, absent: V)
    requires |s| > 0
    ensures GetOr(s, k, absent) == if s[0].key == k then s[0].val else GetOr(s[1..], k, absent)
  {
    if s[0].key != k {
      KeysCons(s[0], s[1..]);
      assert s == [s[0]] + s[1..];
      assert IndexOf(s, k) == 1 + IndexOf(s[1..], k);
    }
  }

  /** A dictionary with `p` in front: `p`'s key is not among the rest. */
  lemma UniqueCons<V>(p: Pair<V>, t: seq<Pair<V>>)
    ensures Unique([p] + t) <==> p.key !in Keys(t) && Unique(t)
  {
    var s := [p] + t;
    if Unique(s) {
      forall i, j | 0 <= i < j < |t|
        ensures t[i].key != t[j].key
      {
        assert s[i + 1] == t[i] && s[j + 1] == t[j];
      }
      forall i | 0 <= i < |t|
        ensures t[i].key != p.key
      {
        assert s[0] == p && s[i + 1] == t[i];
        assert s[0].key != s[i + 1].key;
      }
    }
    if p.key !in Keys(t) && Unique(t) {
      forall i, j | 0 <= i < j < |s|
        ensures s[i].key != s[j].key
      {
        if i == 0 {
          assert s[j] == t[j - 1];
        } else {
          assert s[i] == t[i - 1] && s[j] == t[j - 1];
        }
      }
    }
  }
}
