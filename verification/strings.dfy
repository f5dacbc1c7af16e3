/** The string operations the dashboard relies on: ASCII case folding, Python's string order,
    and the list and text shapes its error reports are built from. */
module Strings {

  predicate IsUpper(c: char) {
    'A' <= c <= 'Z'
  }

  function LowerChar(c: char): char {
    if IsUpper(c) then (c as int + 32) as char else c
  }

  /** `str.lower()` restricted to ASCII letters. */
  function Lower(s: string): (r: string)
    ensures |r| == |s|
    ensures forall i :: 0 <= i < |r| ==> !IsUpper(r[i])
    ensures forall i :: 0 <= i < |s| && !IsUpper(s[i]) ==> r[i] == s[i]
    ensures forall i :: 0 <= i < |s| && IsUpper(s[i]) ==> r[i] as int == s[i] as int + 32
  {
    seq(|s|, i requires 0 <= i < |s| => LowerChar(s[i]))
  }

  /** Folding case twice is folding it once. */
  lemma LowerIdempotent(s: string)
    ensures Lower(Lower(s)) == Lower(s)
  {
  }

  /** Python's `<` on `str`: lexicographic order by code point, a proper prefix first. */
  predicate StrLt(a: string, b: string)
    decreases |a|
  {
    if |a| == 0 then |b| > 0
    else if |b| == 0 then false
    else a[0] < b[0] || (a[0] == b[0] && StrLt(a[1..], b[1..]))
  }

  /** Strictly increasing in Python's string order, hence also free of duplicates. */
  predicate StrictlySorted(xs: seq<string>) {
    forall i, j :: 0 <= i < j < |xs| ==> StrLt(xs[i], xs[j])
  }

  /** `a` can be obtained from `b` by deleting elements, so `a` keeps `b`'s order. */
  predicate IsSubsequence<T(==)>(a: seq<T>, b: seq<T>)
    decreases |b|
  {
    if |a| == 0 then true
    else if |b| == 0 then false
    else if a[0] == b[0] then IsSubsequence(a[1..], b[1..])
    else IsSubsequence(a, b[1..])
  }

  /** A subsequence of a strictly sorted list is strictly sorted. */
  lemma {:induction false} SubsequenceKeepsSorted(a: seq<string>, b: seq<string>)
    requires IsSubsequence(a, b)
    requires StrictlySorted(b)
    ensures StrictlySorted(a)
    decreases |b|
  {
    if |a| == 0 || |b| == 0 {
    } else if a[0] == b[0] {
      assert StrictlySorted(b[1..]) by {
        forall i, j | 0 <= i < j < |b[1..]| ensures StrLt(b[1..][i], b[1..][j]) {
          assert b[1..][i] == b[i + 1] && b[1..][j] == b[j + 1];
        }
      }
      SubsequenceKeepsSorted(a[1..], b[1..]);
      SubsequenceMembers(a[1..], b[1..]);
      forall i, j | 0 <= i < j < |a| ensures StrLt(a[i], a[j]) {
        if i == 0 {
          assert a[j] == a[1..][j - 1];
          var k :| 0 <= k < |b[1..]| && b[1..][k] == a[j];
          assert b[k + 1] == a[j];
        } else {
          assert a[i] == a[1..][i - 1] && a[j] == a[1..][j - 1];
        }
      }
    } else {
      assert StrictlySorted(b[1..]) by {
        forall i, j | 0 <= i < j < |b[1..]| ensures StrLt(b[1..][i], b[1..][j]) {
          assert b[1..][i] == b[i + 1] && b[1..][j] == b[j + 1];
        }
      }
      SubsequenceKeepsSorted(a, b[1..]);
    }
  }

  /** Every element of a subsequence occurs in the sequence it was taken from. */
  lemma {:induction false} SubsequenceMembers<T>(a: seq<T>, b: seq<T>)
    requires IsSubsequence(a, b)
    ensures forall i :: 0 <= i < |a| ==> exists k :: 0 <= k < |b| && b[k] == a[i]
    decreases |b|
  {
    if |a| == 0 || |b| == 0 {
    } else if a[0] == b[0] {
      SubsequenceMembers(a[1..], b[1..]);
      forall i | 0 <= i < |a| ensures exists k :: 0 <= k < |b| && b[k] == a[i] {
        if i == 0 {
          assert b[0] == a[0];
        } else {
          assert a[i] == a[1..][i - 1];
          var k :| 0 <= k < |b[1..]| && b[1..][k] == a[1..][i - 1];
          assert b[k + 1] == a[i];
        }
      }
    } else {
      SubsequenceMembers(a, b[1..]);
      forall i | 0 <= i < |a| ensures exists k :: 0 <= k < |b| && b[k] == a[i] {
        var k :| 0 <= k < |b[1..]| && b[1..][k] == a[i];
        assert b[k + 1] == a[i];
      }
    }
  }

  /** Python's `sep.join(xs)`. */
  function Join(xs: seq<string>, sep: string): string
    decreases |xs|
  {
    if |xs| == 0 then ""
    else if |xs| == 1 then xs[0]
    else xs[0] + sep + Join(xs[1..], sep)
  }

  /** `a` occurs in `b` starting at position `k`. */
  predicate OccursAt(a: string, b: string, k: int) {
    0 <= k && k + |a| <= |b| && b[k..k + |a|] == a
  }

  /** Python's `a in b` on strings. */
  predicate Contains(b: string, a: string) {
    exists k :: 0 <= k <= |b| && OccursAt(a, b, k)
  }

  lemma ContainsInContext(a: string, b: string, before: string, after: string)
    requires Contains(b, a)
    ensures Contains(before + b + after, a)
  {
    var k :| 0 <= k <= |b| && OccursAt(a, b, k);
    var whole := before + b + after;
    var found, original := whole[|before| + k..|before| + k + |a|], b[k..k + |a|];
    assert found == original by {
      forall m | 0 <= m < |a| ensures found[m] == original[m] {
        assert whole[|before| + k + m] == b[k + m];
      }
    }
    assert OccursAt(a, whole, |before| + k);
  }

  /** Every joined item can be found in the joined text. */
  lemma {:induction false} JoinContainsEach(xs: seq<string>, sep: string, i: int)
    requires 0 <= i < |xs|
    ensures Contains(Join(xs, sep), xs[i])
    decreases |xs|
  {
    if |xs| == 1 {
      assert OccursAt(xs[0], Join(xs, sep), 0);
    } else if i == 0 {
      assert Join(xs, sep)[0..|xs[0]|] == xs[0];
      assert OccursAt(xs[0], Join(xs, sep), 0);
    } else {
      JoinContainsEach(xs[1..], sep, i - 1);
      ContainsInContext(xs[i], Join(xs[1..], sep), xs[0] + sep, "");
      assert xs[0] + sep + Join(xs[1..], sep) + "" == Join(xs, sep);
    }
  }
}
