/** Deletion of inline markup with the regular expression `<.*?>` under
    Python's `re.sub`: the lazy `.*?` stops at the first `>`, and `.` never
    matches a newline, so a tag cannot span two lines. */
module Tags {

  datatype Option<T> = None | Some(value: T)

  /** Where a tag opened just before position `k` closes: the first `>` at or
      after `k`, provided no newline comes first. */
  function CloseAt(s: string, k: nat): (r: Option<nat>)
    requires k <= |s|
    ensures r.Some? ==> k <= r.value < |s| && s[r.value] == '>'
    ensures r.Some? ==> '\n' !in s[k..r.value] && '>' !in s[k..r.value]
    ensures r.None? ==> forall j :: k <= j < |s| && s[j] == '>' ==> '\n' in s[k..j]
    decreases |s| - k
  {
    if k == |s| || s[k] == '\n' then None
    else if s[k] == '>' then Some(k)
    else
      var r := CloseAt(s, k + 1);
      assert r.Some? ==> s[k..r.value] == [s[k]] + s[k + 1..r.value];
      assert r.None? ==> forall j :: k < j < |s| ==> s[k..j] == [s[k]] + s[k + 1..j];
      r
  }

  /** A `<` whose line holds no `>` does not start a tag. */
  lemma {:induction false} CloseAtNone(s: string, k: nat)
    requires k <= |s|
    requires forall j :: k <= j < |s| && s[j] == '>' ==> '\n' in s[k..j]
    ensures CloseAt(s, k).None?
    decreases |s| - k
  {
    if k < |s| && s[k] != '\n' {
      assert s[k] != '>' by {
        assert s[k..k] == [];
      }
      forall j | k + 1 <= j < |s| && s[j] == '>'
        ensures '\n' in s[k + 1..j]
      {
        assert s[k..j] == [s[k]] + s[k + 1..j];
      }
      CloseAtNone(s, k + 1);
    }
  }

  /** `re.sub('<.*?>', '', s)`: scanning left to right, a `<` that closes on
      its own line is deleted together with everything up to the `>`; any
      other character is kept. */
  function DeleteTags(s: string): (r: string)
    ensures |r| <= |s|
    ensures '<' !in s ==> r == s
    decreases |s|
  {
    if |s| == 0 then ""
    else if s[0] == '<' then
      match CloseAt(s, 1)
      case Some(j) => DeleteTags(s[j + 1..])
      case None => "<" + DeleteTags(s[1..])
    else [s[0]] + DeleteTags(s[1..])
  }

  /** The first `>` after `k`, with no newline before it, is where the tag closes. */
  lemma {:induction false} CloseAtFirst(s: string, k: nat, j: nat)
    requires k <= j < |s| && s[j] == '>'
    requires forall m :: k <= m < j ==> s[m] != '>' && s[m] != '\n'
    ensures CloseAt(s, k) == Some(j)
    decreases j - k
  {
    if k < j {
      CloseAtFirst(s, k + 1, j);
    }
  }

  /** Text before the first `<` is kept as it is. */
  lemma {:induction false} DeleteTagsPlainPrefix(a: string, b: string)
    requires '<' !in a
    ensures DeleteTags(a + b) == a + DeleteTags(b)
    decreases |a|
  {
    if |a| > 0 {
      assert (a + b)[0] == a[0];
      assert (a + b)[1..] == a[1..] + b;
      DeleteTagsPlainPrefix(a[1..], b);
      assert DeleteTags(a + b) == [a[0]] + DeleteTags(a[1..] + b);
      assert a == [a[0]] + a[1..];
    } else {
      assert a + b == b;
    }
  }

  /** A tag `<t>` with neither `>` nor a newline inside is deleted whole, and
      the scan resumes right after it. */
  lemma DeleteTagsTag(t: string, b: string)
    requires '>' !in t && '\n' !in t
    ensures DeleteTags("<" + t + ">" + b) == DeleteTags(b)
  {
    var s := "<" + t + ">" + b;
    assert s[0] == '<';
    assert s[|t| + 1] == '>';
    forall m | 1 <= m < |t| + 1
      ensures s[m] != '>' && s[m] != '\n'
    {
      assert s[m] == t[m - 1];
    }
    CloseAtFirst(s, 1, |t| + 1);
    assert s[|t| + 2..] == b;
  }

  /** A `<` with no `>` later on its line is kept, and so is what follows it
      on that line. */
  lemma DeleteTagsUnclosed(b: string)
    requires FirstLineFreeOfClose(b)
    ensures DeleteTags("<" + b) == "<" + DeleteTags(b)
  {
    var s := "<" + b;
    assert s[1..] == b;
    forall j | 1 <= j < |s| && s[j] == '>'
      ensures '\n' in s[1..j]
    {
      assert s[j] == b[j - 1];
      assert s[1..j] == b[..j - 1];
    }
    CloseAtNone(s, 1);
  }

  /** A concrete deletion: `x<y>z` becomes `xz`. */
  lemma DeleteTagsExample(x: char, y: char, z: char)
    requires x != '<' && z != '<' && y != '>' && y != '\n'
    ensures DeleteTags([x, '<', y, '>', z]) == [x, z]
  {
    DeleteTagsPlainPrefix([x], "<" + [y] + ">" + [z]);
    assert [x] + ("<" + [y] + ">" + [z]) == [x, '<', y, '>', z];
    DeleteTagsTag([y], [z]);
    assert DeleteTags([z]) == [z];
  }

  /** No `<` is followed on the same line by a `>`: nothing tag-shaped is left. */
  predicate NoTagOnLine(s: string)
  {
    forall i, j :: 0 <= i < j < |s| && s[i] == '<' && s[j] == '>' ==> '\n' in s[i + 1..j]
  }

  /** Every `>` comes after a newline: the first line holds no `>`. */
  predicate FirstLineFreeOfClose(s: string)
  {
    forall j :: 0 <= j < |s| && s[j] == '>' ==> '\n' in s[..j]
  }

  /** Past a first character that is not a newline, the rest of the first
      line still holds no `>`, and neither does that character. */
  lemma FirstLineTail(s: string)
    requires |s| > 0 && s[0] != '\n'
    requires FirstLineFreeOfClose(s)
    ensures s[0] != '>'
    ensures FirstLineFreeOfClose(s[1..])
    ensures forall j :: 1 <= j < |s| && s[j] == '>' ==> '\n' in s[1..j]
  {
    assert s[..0] == [];
    forall j | 1 <= j < |s| && s[j] == '>'
      ensures '\n' in s[1..j]
    {
      assert s[..j] == [s[0]] + s[1..j];
    }
    forall j | 0 <= j < |s[1..]| && s[1..][j] == '>'
      ensures '\n' in s[1..][..j]
    {
      assert s[1..][..j] == s[1..j + 1];
    }
  }

  /** Putting a character other than `>` in front keeps the first line free
      of `>` when the character is a newline or the rest already was. */
  lemma ConsFirstLine(c: char, t: string)
    requires c != '>'
    requires c == '\n' || FirstLineFreeOfClose(t)
    ensures FirstLineFreeOfClose([c] + t)
  {
    var r := [c] + t;
    forall j | 0 <= j < |r| && r[j] == '>'
      ensures '\n' in r[..j]
    {
      assert r[..j] == [c] + t[..j - 1];
    }
  }

  /** Deleting tags never moves a `>` onto the first line. */
  lemma {:induction false} DeleteTagsKeepsFirstLine(s: string)
    requires FirstLineFreeOfClose(s)
    ensures FirstLineFreeOfClose(DeleteTags(s))
    decreases |s|
  {
    if |s| > 0 {
      if s[0] == '\n' {
        assert DeleteTags(s) == [s[0]] + DeleteTags(s[1..]);
        ConsFirstLine(s[0], DeleteTags(s[1..]));
      } else {
        FirstLineTail(s);
        if s[0] == '<' {
          CloseAtNone(s, 1);
        }
        assert DeleteTags(s) == [s[0]] + DeleteTags(s[1..]);
        DeleteTagsKeepsFirstLine(s[1..]);
        ConsFirstLine(s[0], DeleteTags(s[1..]));
      }
    }
  }

  /** A `<` that opens no tag leaves the rest of its line free of `>`. */
  lemma OpenWithoutClose(s: string)
    requires |s| > 0 && s[0] == '<' && CloseAt(s, 1).None?
    ensures FirstLineFreeOfClose(s[1..])
  {
    forall j | 0 <= j < |s[1..]| && s[1..][j] == '>'
      ensures '\n' in s[1..][..j]
    {
      assert s[1..j + 1] == s[1..][..j];
    }
  }

  /** Putting a character in front keeps a text tag-free when the character
      is not `<` or the first line of the rest holds no `>`. */
  lemma ConsNoTag(c: char, t: string)
    requires NoTagOnLine(t)
    requires c == '<' ==> FirstLineFreeOfClose(t)
    ensures NoTagOnLine([c] + t)
  {
    var r := [c] + t;
    forall i, j | 0 <= i < j < |r| && r[i] == '<' && r[j] == '>'
      ensures '\n' in r[i + 1..j]
    {
      if i == 0 {
        assert t[j - 1] == '>';
        assert r[1..j] == t[..j - 1];
      } else {
        assert r[i + 1..j] == t[i..j - 1];
      }
    }
  }

  /** The output of `DeleteTags` never holds a `<` closed by a `>` on the same line. */
  lemma {:induction false} DeleteTagsLeavesNoTag(s: string)
    ensures NoTagOnLine(DeleteTags(s))
    decreases |s|
  {
    if |s| > 0 {
      if s[0] == '<' && CloseAt(s, 1).Some? {
        DeleteTagsLeavesNoTag(s[CloseAt(s, 1).value + 1..]);
      } else {
        DeleteTagsLeavesNoTag(s[1..]);
        if s[0] == '<' {
          OpenWithoutClose(s);
          DeleteTagsKeepsFirstLine(s[1..]);
        }
        assert DeleteTags(s) == [s[0]] + DeleteTags(s[1..]);
        ConsNoTag(s[0], DeleteTags(s[1..]));
      }
    }
  }

  /** Dropping the first character keeps a text tag-free, and a leading `<`
      then has no `>` later on its line. */
  lemma NoTagOnLineTail(s: string)
    requires |s| > 0
    requires NoTagOnLine(s)
    ensures NoTagOnLine(s[1..])
    ensures s[0] == '<' ==> forall j :: 1 <= j < |s| && s[j] == '>' ==> '\n' in s[1..j]
  {
    forall i, j | 0 <= i < j < |s[1..]| && s[1..][i] == '<' && s[1..][j] == '>'
      ensures '\n' in s[1..][i + 1..j]
    {
      assert s[1..][i + 1..j] == s[i + 2..j + 1];
    }
  }

  /** Text without tags is left alone. */
  lemma {:induction false} DeleteTagsNoop(s: string)
    requires NoTagOnLine(s)
    ensures DeleteTags(s) == s
    decreases |s|
  {
    if |s| > 0 {
      NoTagOnLineTail(s);
      if s[0] == '<' {
        CloseAtNone(s, 1);
      }
      DeleteTagsNoop(s[1..]);
      assert s == [s[0]] + s[1..];
    }
  }

  /** Deleting tags twice is the same as deleting them once. */
  lemma DeleteTagsIdempotent(s: string)
    ensures DeleteTags(DeleteTags(s)) == DeleteTags(s)
  {
    DeleteTagsLeavesNoTag(s);
    DeleteTagsNoop(DeleteTags(s));
  }
}
