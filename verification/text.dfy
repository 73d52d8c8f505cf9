/** The Python `str` methods the search engine and its front ends use,
    written as explicit left-to-right scans over `seq<char>`. */
module Text {

  /** ASCII upper-case letter. */
  predicate IsUpper(c: char)
  {
    'A' <= c <= 'Z'
  }

  /** `str.lower` on one character, restricted to ASCII letters. */
  function LowerChar(c: char): (r: char)
    ensures !IsUpper(r)
    ensures !IsUpper(c) ==> r == c
    ensures IsUpper(c) ==> r as int - c as int == 32
  {
    if IsUpper(c) then (c as int + 32) as char else c
  }

  /** `str.lower`: each upper-case letter becomes its lower-case letter, 32
      code points further, and nothing else changes. */
  function Lower(s: string): (r: string)
    ensures |r| == |s|
    ensures forall i :: 0 <= i < |r| ==> !IsUpper(r[i])
    ensures forall i :: 0 <= i < |s| && IsUpper(s[i]) ==> r[i] as int == s[i] as int + 32
    ensures forall i :: 0 <= i < |s| && !IsUpper(s[i]) ==> r[i] == s[i]
  {
    seq(|s|, i requires 0 <= i < |s| => LowerChar(s[i]))
  }

  lemma LowerIdempotent(s: string)
    ensures Lower(Lower(s)) == Lower(s)
  {
  }

  lemma LowerAppend(a: string, b: string)
    ensures Lower(a + b) == Lower(a) + Lower(b)
  {
    forall i | 0 <= i < |a + b|
      ensures Lower(a + b)[i] == (Lower(a) + Lower(b))[i]
    {
      if i < |a| {
        assert (a + b)[i] == a[i];
      } else {
        assert (a + b)[i] == b[i - |a|];
      }
    }
  }

  /** `str.replace(pat, rep)`: every non-overlapping occurrence of `pat`,
      found scanning left to right, is replaced by `rep`. */
  function Replace(s: string, pat: string, rep: string): (r: string)
    requires |pat| > 0
    ensures |rep| <= |pat| ==> |r| <= |s|
    ensures |rep| == |pat| ==> |r| == |s|
    ensures pat[0] !in s ==> r == s
    decreases |s|
  {
    if |s| == 0 then ""
    else if pat <= s then rep + Replace(s[|pat|..], pat, rep)
    else [s[0]] + Replace(s[1..], pat, rep)
  }

  /** A prefix that cannot start an occurrence of `pat` passes through unchanged. */
  lemma {:induction false} ReplaceSkip(x: string, rest: string, pat: string, rep: string)
    requires |pat| > 0 && pat[0] !in x
    ensures Replace(x + rest, pat, rep) == x + Replace(rest, pat, rep)
    decreases |x|
  {
    if |x| > 0 {
      assert (x + rest)[0] == x[0];
      assert !(pat <= x + rest);
      assert (x + rest)[1..] == x[1..] + rest;
      ReplaceSkip(x[1..], rest, pat, rep);
    } else {
      assert x + rest == rest;
    }
  }

  /** A character that does not start an occurrence of `pat` is kept. */
  lemma ReplaceMiss(c: char, rest: string, pat: string, rep: string)
    requires |pat| > 0 && !(pat <= [c] + rest)
    ensures Replace([c] + rest, pat, rep) == [c] + Replace(rest, pat, rep)
  {
    assert ([c] + rest)[1..] == rest;
  }

  /** An occurrence of `pat` at the front is replaced and scanning resumes after it. */
  lemma ReplaceFront(rest: string, pat: string, rep: string)
    requires |pat| > 0
    ensures Replace(pat + rest, pat, rep) == rep + Replace(rest, pat, rep)
  {
    assert pat <= pat + rest;
    assert (pat + rest)[|pat|..] == rest;
  }

  /** `pat` occurs in `s` starting at index `k`. */
  predicate OccursAt(s: string, pat: string, k: nat)
  {
    k + |pat| <= |s| && s[k..k + |pat|] == pat
  }

  /** Text without any occurrence of `pat` is left unchanged. */
  lemma {:induction false} ReplaceAbsent(s: string, pat: string, rep: string)
    requires |pat| > 0
    requires forall k: nat :: !OccursAt(s, pat, k)
    ensures Replace(s, pat, rep) == s
    decreases |s|
  {
    if |s| > 0 {
      assert !OccursAt(s, pat, 0);
      assert !(pat <= s);
      forall k: nat
        ensures !OccursAt(s[1..], pat, k)
      {
        assert !OccursAt(s, pat, k + 1);
        if k + |pat| <= |s[1..]| {
          assert s[1..][k..k + |pat|] == s[k + 1..k + 1 + |pat|];
        }
      }
      ReplaceAbsent(s[1..], pat, rep);
      assert s == [s[0]] + s[1..];
    }
  }

  /** Replacing a pattern by itself changes nothing. */
  lemma {:induction false} ReplaceSelf(s: string, pat: string)
    requires |pat| > 0
    ensures Replace(s, pat, pat) == s
    decreases |s|
  {
    if |s| > 0 {
      if pat <= s {
        var rest := s[|pat|..];
        assert Replace(s, pat, pat) == pat + Replace(rest, pat, pat);
        ReplaceSelf(rest, pat);
        assert s == pat + rest;
      } else {
        var rest := s[1..];
        assert Replace(s, pat, pat) == [s[0]] + Replace(rest, pat, pat);
        ReplaceSelf(rest, pat);
        assert s == [s[0]] + rest;
      }
    }
  }

  /** `str.lstrip(cs)`: the longest suffix that does not start with a character of `cs`. */
  function TrimLeft(s: string, cs: set<char>): (r: string)
    ensures |r| <= |s| && r == s[|s| - |r|..]
    ensures forall i :: 0 <= i < |s| - |r| ==> s[i] in cs
    ensures |r| > 0 ==> r[0] !in cs
    decreases |s|
  {
    if |s| > 0 && s[0] in cs then TrimLeft(s[1..], cs) else s
  }

  /** `str.rstrip(cs)`: the longest prefix that does not end with a character of `cs`. */
  function TrimRight(s: string, cs: set<char>): (r: string)
    ensures |r| <= |s| && r == s[..|r|]
    ensures forall i :: |r| <= i < |s| ==> s[i] in cs
    ensures |r| > 0 ==> r[|r| - 1] !in cs
    decreases |s|
  {
    if |s| > 0 && s[|s| - 1] in cs then TrimRight(s[..|s| - 1], cs) else s
  }

  /** `r` is the slice of `s` starting at `i`, with only characters of `cs` around it. */
  predicate StrippedAt(s: string, cs: set<char>, r: string, i: int)
  {
    && 0 <= i <= i + |r| <= |s|
    && r == s[i..i + |r|]
    && (forall k :: 0 <= k < i ==> s[k] in cs)
    && (forall k :: i + |r| <= k < |s| ==> s[k] in cs)
  }

  /** `str.strip(cs)`: removes every leading and every trailing character of `cs`. */
  function Strip(s: string, cs: set<char>): (r: string)
    ensures |r| <= |s|
    ensures |r| > 0 ==> r[0] !in cs && r[|r| - 1] !in cs
  {
    TrimRight(TrimLeft(s, cs), cs)
  }

  /** The strip is a slice of `s` with only characters of `cs` around it. */
  lemma StripSlice(s: string, cs: set<char>)
    ensures exists i :: StrippedAt(s, cs, Strip(s, cs), i)
  {
    var left := TrimLeft(s, cs);
    var r := TrimRight(left, cs);
    var i := |s| - |left|;
    assert r == s[i..i + |r|] by {
      assert left == s[i..];
      assert r == left[..|r|];
    }
    assert forall k :: i + |r| <= k < |s| ==> s[k] in cs by {
      forall k | i + |r| <= k < |s|
        ensures s[k] in cs
      {
        assert s[k] == left[k - i];
      }
    }
    assert r == Strip(s, cs);
    assert StrippedAt(s, cs, r, i);
  }

  /** Every character of a strip comes from the stripped string. */
  lemma StripChars(s: string, cs: set<char>)
    ensures forall k :: 0 <= k < |Strip(s, cs)| ==> Strip(s, cs)[k] in s
  {
    var r := Strip(s, cs);
    StripSlice(s, cs);
    var i :| StrippedAt(s, cs, r, i);
    forall k | 0 <= k < |r|
      ensures r[k] in s
    {
      assert r[k] == s[i + k];
    }
  }

  /** A character absent from `s` is absent from its strip. */
  lemma StripAvoids(s: string, cs: set<char>, c: char)
    requires c !in s
    ensures c !in Strip(s, cs)
  {
    StripChars(s, cs);
  }

  /** Every piece stripped, as in `[p.strip(cs) for p in parts]`. */
  function StripEach(parts: seq<string>, cs: set<char>): (r: seq<string>)
    ensures |r| == |parts|
    ensures forall i :: 0 <= i < |parts| ==> r[i] == Strip(parts[i], cs)
  {
    seq(|parts|, i requires 0 <= i < |parts| => Strip(parts[i], cs))
  }

  /** A character absent from every piece is absent from every stripped piece. */
  lemma StripEachAvoids(parts: seq<string>, cs: set<char>, c: char)
    requires forall i :: 0 <= i < |parts| ==> c !in parts[i]
    ensures forall i :: 0 <= i < |parts| ==> c !in StripEach(parts, cs)[i]
  {
    forall i | 0 <= i < |parts|
      ensures c !in StripEach(parts, cs)[i]
    {
      StripAvoids(parts[i], cs, c);
    }
  }

  /** A string with no character of `cs` at either end is its own strip. */
  lemma StripNoop(s: string, cs: set<char>)
    requires |s| > 0 ==> s[0] !in cs && s[|s| - 1] !in cs
    ensures Strip(s, cs) == s
  {
  }

  /** Leading characters of `cs` are all stripped by `lstrip`. */
  lemma {:induction false} TrimLeftPrefix(l: string, t: string, cs: set<char>)
    requires forall k :: 0 <= k < |l| ==> l[k] in cs
    ensures TrimLeft(l + t, cs) == TrimLeft(t, cs)
    decreases |l|
  {
    if |l| > 0 {
      assert (l + t)[0] == l[0];
      assert (l + t)[1..] == l[1..] + t;
      TrimLeftPrefix(l[1..], t, cs);
    } else {
      assert l + t == t;
    }
  }

  /** Trailing characters of `cs` are all stripped by `rstrip`. */
  lemma {:induction false} TrimRightSuffix(t: string, r: string, cs: set<char>)
    requires forall k :: 0 <= k < |r| ==> r[k] in cs
    ensures TrimRight(t + r, cs) == TrimRight(t, cs)
    decreases |r|
  {
    if |r| > 0 {
      var s := t + r;
      assert s[|s| - 1] == r[|r| - 1];
      assert s[..|s| - 1] == t + r[..|r| - 1];
      TrimRightSuffix(t, r[..|r| - 1], cs);
    } else {
      assert t + r == t;
    }
  }

  /** Stripping a string wrapped in characters of `cs` gives it back, when
      neither of its own ends is in `cs`. */
  lemma StripWrapped(l: string, m: string, r: string, cs: set<char>)
    requires forall k :: 0 <= k < |l| ==> l[k] in cs
    requires forall k :: 0 <= k < |r| ==> r[k] in cs
    requires |m| > 0 ==> m[0] !in cs && m[|m| - 1] !in cs
    ensures Strip(l + m + r, cs) == m
  {
    assert l + m + r == l + (m + r);
    TrimLeftPrefix(l, m + r, cs);
    if |m| > 0 {
      assert (m + r)[0] == m[0];
      TrimRightSuffix(m, r, cs);
    } else {
      assert m + r == r;
      TrimLeftPrefix(r, "", cs);
      assert r + "" == r;
    }
  }

  /** `str.split(sep)` for a one-character separator. */
  function Split(s: string, sep: char): (r: seq<string>)
    ensures |r| > 0
    ensures forall i :: 0 <= i < |r| ==> sep !in r[i]
    ensures r[0] <= s
    decreases |s|
  {
    if |s| == 0 then [""]
    else
      assert s == [s[0]] + s[1..];
      if s[0] == sep then [""] + Split(s[1..], sep)
      else
        var rest := Split(s[1..], sep);
        [[s[0]] + rest[0]] + rest[1..]
  }

  /** There is one piece more than there are separators. */
  lemma {:induction false} SplitCount(s: string, sep: char)
    ensures |Split(s, sep)| == multiset(s)[sep] + 1
    decreases |s|
  {
    if |s| > 0 {
      SplitCount(s[1..], sep);
      assert s == [s[0]] + s[1..];
      assert multiset(s) == multiset([s[0]]) + multiset(s[1..]);
    }
  }

  /** `sep.join(xs)`. */
  function Join(xs: seq<string>, sep: char): string
    decreases |xs|
  {
    if |xs| == 0 then ""
    else if |xs| == 1 then xs[0]
    else xs[0] + [sep] + Join(xs[1..], sep)
  }

  lemma JoinCons(a: string, xs: seq<string>, sep: char)
    requires |xs| > 0
    ensures Join([a] + xs, sep) == a + [sep] + Join(xs, sep)
  {
    assert ([a] + xs)[1..] == xs;
  }

  lemma JoinExtendHead(c: char, xs: seq<string>, sep: char)
    requires |xs| > 0
    ensures Join([[c] + xs[0]] + xs[1..], sep) == [c] + Join(xs, sep)
  {
    var ys := [[c] + xs[0]] + xs[1..];
    if |xs| > 1 {
      assert ys[1..] == xs[1..];
    }
  }

  /** A join starts with its first piece and ends with its last. */
  lemma {:induction false} JoinEnds(xs: seq<string>, sep: char)
    requires |xs| > 0
    ensures xs[0] <= Join(xs, sep)
    ensures |xs[|xs| - 1]| <= |Join(xs, sep)|
    ensures Join(xs, sep)[|Join(xs, sep)| - |xs[|xs| - 1]|..] == xs[|xs| - 1]
    decreases |xs|
  {
    if |xs| > 1 {
      JoinEnds(xs[1..], sep);
      var j := Join(xs, sep);
      var rest := Join(xs[1..], sep);
      assert j == xs[0] + [sep] + rest;
      assert xs[1..][|xs[1..]| - 1] == xs[|xs| - 1];
      assert j[|j| - |rest|..] == rest;
    }
  }

  /** Joining the pieces of a split gives back the original string. */
  lemma {:induction false} JoinSplit(s: string, sep: char)
    ensures Join(Split(s, sep), sep) == s
    decreases |s|
  {
    if |s| > 0 {
      var rest := Split(s[1..], sep);
      JoinSplit(s[1..], sep);
      assert s == [s[0]] + s[1..];
      if s[0] == sep {
        JoinCons("", rest, sep);
      } else {
        JoinExtendHead(s[0], rest, sep);
      }
    }
  }

  /** Splitting a piece free of the separator followed by the separator. */
  lemma {:induction false} SplitPiece(a: string, b: string, sep: char)
    requires sep !in a
    ensures Split(a + [sep] + b, sep) == [a] + Split(b, sep)
    decreases |a|
  {
    if |a| == 0 {
      assert a + [sep] + b == [sep] + b;
      assert ([sep] + b)[1..] == b;
    } else {
      assert (a + [sep] + b)[1..] == a[1..] + [sep] + b;
      SplitPiece(a[1..], b, sep);
      assert a == [a[0]] + a[1..];
    }
  }

  /** A string free of the separator splits into itself. */
  lemma {:induction false} SplitWhole(a: string, sep: char)
    requires sep !in a
    ensures Split(a, sep) == [a]
    decreases |a|
  {
    if |a| > 0 {
      SplitWhole(a[1..], sep);
      assert a == [a[0]] + a[1..];
    }
  }

  /** Splitting a join of separator-free pieces gives back the pieces. */
  lemma {:induction false} SplitJoin(xs: seq<string>, sep: char)
    requires |xs| > 0
    requires forall i :: 0 <= i < |xs| ==> sep !in xs[i]
    ensures Split(Join(xs, sep), sep) == xs
    decreases |xs|
  {
    if |xs| == 1 {
      SplitWhole(xs[0], sep);
    } else {
      SplitJoin(xs[1..], sep);
      SplitPiece(xs[0], Join(xs[1..], sep), sep);
      assert xs == [xs[0]] + xs[1..];
    }
  }
}
