/** The Python string operations the producers rely on: `str.find`, the `in`
    substring test and `str.split(sep, 1)`. */
module Strings {
  import opened Yields

  /** The separator between a level and its message, and between a key and its value. */
  const Delimiter: string := ": "

  /** p occurs in s starting at index i. */
  predicate OccursAt(s: string, p: string, i: int) {
    0 <= i && i + |p| <= |s| && s[i..i + |p|] == p
  }

  /** `s.find(p, start)`: the lowest index at or after start where p occurs in s, or -1. */
  function Find(s: string, p: string, start: nat): (r: int)
    ensures r == -1 || (start <= r && OccursAt(s, p, r))
    ensures forall j :: start <= j && (r == -1 || j < r) ==> !OccursAt(s, p, j)
    decreases |s| - start
  {
    if start + |p| > |s| then -1
    else if s[start..start + |p|] == p then start
    else Find(s, p, start + 1)
  }

  /** `p in s`. */
  predicate Contains(s: string, p: string)
    ensures p == [] ==> Contains(s, p)
    ensures Contains(s, p) ==> |p| <= |s|
  {
    Find(s, p, 0) != -1
  }

  /** The substring test holds exactly when p occurs somewhere in s. */
  lemma ContainsIff(s: string, p: string)
    ensures Contains(s, p) <==> exists i :: OccursAt(s, p, i)
  {
    if Contains(s, p) {
      assert OccursAt(s, p, Find(s, p, 0));
    }
  }

  /** `s.split(sep, 1)` unpacked into two names: the text before the first
      occurrence of sep and the text after it, or None when sep does not occur
      (Python's unpacking then raises ValueError). */
  function SplitOnce(s: string, sep: string): (r: Option<(string, string)>)
    requires sep != ""
    ensures r.None? <==> !Contains(s, sep)
    ensures r.Some? ==> r.value.0 + sep + r.value.1 == s
    ensures r.Some? ==> !Contains(r.value.0, sep)
  {
    var i := Find(s, sep, 0);
    if i == -1 then None
    else
      assert forall j :: OccursAt(s[..i], sep, j) ==> OccursAt(s, sep, j) && j < i by {
        forall j | OccursAt(s[..i], sep, j) ensures OccursAt(s, sep, j) && j < i {
          assert s[..i][j..j + |sep|] == s[j..j + |sep|];
        }
      }
      Some((s[..i], s[i + |sep|..]))
  }

  /** Text lacking the first character of a non-empty pattern does not contain it. */
  lemma FirstCharAbsent(s: string, p: string)
    requires p != [] && p[0] !in s
    ensures !Contains(s, p)
  {
    forall j ensures !OccursAt(s, p, j) {
      if 0 <= j && j + |p| <= |s| {
        assert s[j..j + |p|][0] == s[j];
        assert s[j] in s;
      }
    }
    ContainsIff(s, p);
  }

  /** Splitting at the first ": " is the inverse of joining with ": " whenever the
      first part holds no ": ", whatever the second part holds. */
  lemma SplitAtDelimiterUnique(a: string, b: string)
    requires !Contains(a, Delimiter)
    ensures SplitOnce(a + Delimiter + b, Delimiter) == Some((a, b))
  {
    var s := a + Delimiter + b;
    assert s[|a|..|a| + 2] == Delimiter;
    assert OccursAt(s, Delimiter, |a|);
    forall j | 0 <= j < |a| ensures !OccursAt(s, Delimiter, j) {
      if j + 2 <= |a| {
        assert s[j..j + 2] == a[j..j + 2];
        assert !OccursAt(a, Delimiter, j);
      } else {
        assert s[j + 1] == ':';
      }
    }
    var i := Find(s, Delimiter, 0);
    assert i == |a|;
    assert s[..|a|] == a;
    assert s[|a| + 2..] == b;
  }
}
