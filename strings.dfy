/**
  The .NET string operations the core relies on, with ordinal (char by
  char) comparison: `StartsWith`, `EndsWith`, `Contains`, `IndexOf(char)`
  and `Replace(" ", "")`.
 */
module Strings {

  predicate StartsWith(s: string, prefix: string) {
    |prefix| <= |s| && s[..|prefix|] == prefix
  }

  predicate EndsWith(s: string, suffix: string) {
    |suffix| <= |s| && s[|s| - |suffix|..] == suffix
  }

  /** `s.Contains(t)`: `t` occurs in `s` starting at some index. */
  predicate Contains(s: string, t: string)
    decreases |s|
  {
    StartsWith(s, t) || (|s| > 0 && Contains(s[1..], t))
  }

  /** `s.IndexOf(c)`: the first index holding `c`, or -1. */
  function IndexOf(s: string, c: char): (k: int)
    ensures -1 <= k < |s|
    ensures k == -1 <==> c !in s
    ensures k >= 0 ==> s[k] == c && c !in s[..k]
  {
    if |s| == 0 then -1
    else if s[0] == c then 0
    else
      var k := IndexOf(s[1..], c);
      if k == -1 then -1 else (assert s[..k + 1] == [s[0]] + s[1..][..k]; k + 1)
  }

  /** `s.Replace(" ", "")`: every space removed, everything else kept in order. */
  function RemoveSpaces(s: string): (r: string)
    ensures ' ' !in r
    ensures |r| <= |s|
    ensures forall c :: c != ' ' ==> multiset(r)[c] == multiset(s)[c]
  {
    if |s| == 0 then ""
    else
      assert s == [s[0]] + s[1..];
      if s[0] == ' ' then RemoveSpaces(s[1..]) else [s[0]] + RemoveSpaces(s[1..])
  }

  /** Removing spaces works piece by piece, so the kept characters stay in their order. */
  lemma {:induction false} RemoveSpacesConcat(a: string, b: string)
    ensures RemoveSpaces(a + b) == RemoveSpaces(a) + RemoveSpaces(b)
  {
    if |a| > 0 {
      assert (a + b)[1..] == a[1..] + b;
      RemoveSpacesConcat(a[1..], b);
    } else {
      assert a + b == b;
    }
  }

  /** A string without spaces is left as it is. */
  lemma {:induction false} RemoveSpacesNoSpace(s: string)
    requires ' ' !in s
    ensures RemoveSpaces(s) == s
  {
    if |s| > 0 {
      assert s[0] in s;
      assert forall i :: 0 <= i < |s| - 1 ==> s[1..][i] == s[i + 1];
      RemoveSpacesNoSpace(s[1..]);
      assert s == [s[0]] + s[1..];
    }
  }

  /** `t` occurs in `s` at offset `i`. */
  predicate OccursAt(s: string, t: string, i: int) {
    0 <= i <= |s| - |t| && s[i..i + |t|] == t
  }

  /** `Contains` finds exactly the occurrences at some offset. */
  lemma {:induction false} ContainsAt(s: string, t: string)
    ensures Contains(s, t) <==> exists i :: OccursAt(s, t, i)
  {
    if StartsWith(s, t) {
      assert OccursAt(s, t, 0);
    }
    if |s| > 0 {
      ContainsAt(s[1..], t);
      if Contains(s[1..], t) {
        var i :| OccursAt(s[1..], t, i);
        assert s[1..][i..i + |t|] == s[i + 1..i + 1 + |t|];
        assert OccursAt(s, t, i + 1);
      }
      if i :| OccursAt(s, t, i) {
        if i > 0 {
          assert s[1..][i - 1..i - 1 + |t|] == s[i..i + |t|];
          assert OccursAt(s[1..], t, i - 1);
        }
      }
    } else {
      if i :| OccursAt(s, t, i) {
        assert StartsWith(s, t);
      }
    }
  }

  /** Every string contains the empty string, and a string contains itself. */
  lemma ContainsTrivial(s: string)
    ensures Contains(s, "") && Contains(s, s)
  {
    assert StartsWith(s, "") && StartsWith(s, s);
  }
}
