/**
 * Facts about sequences shared by the player registry (whose keys keep
 * their insertion order) and the shot list (which is filtered, never
 * reordered).
 */
module Sequences {

  /** No element occurs twice. */
  ghost predicate Distinct<T>(s: seq<T>) {
    forall i, j :: 0 <= i < j < |s| ==> s[i] != s[j]
  }

  /** `a` is obtained from `b` by deleting elements, the rest keeping their order. */
  ghost predicate SubsequenceOf<T>(a: seq<T>, b: seq<T>)
    decreases |b|
  {
    a == [] ||
    (b != [] &&
      ((a[|a| - 1] == b[|b| - 1] && SubsequenceOf(a[..|a| - 1], b[..|b| - 1])) ||
       SubsequenceOf(a, b[..|b| - 1])))
  }

  /** A subsequence is no longer than the sequence and holds only its elements. */
  lemma {:induction false} SubsequenceBounds<T>(a: seq<T>, b: seq<T>)
    requires SubsequenceOf(a, b)
    ensures |a| <= |b|
    ensures forall x :: x in a ==> x in b
    decreases |b|
  {
    if a != [] {
      var b' := b[..|b| - 1];
      assert b == b' + [b[|b| - 1]];
      if a[|a| - 1] == b[|b| - 1] && SubsequenceOf(a[..|a| - 1], b') {
        SubsequenceBounds(a[..|a| - 1], b');
        assert a == a[..|a| - 1] + [a[|a| - 1]];
      } else {
        SubsequenceBounds(a, b');
      }
    }
  }

  lemma {:induction false} SubsequenceTransitive<T>(a: seq<T>, b: seq<T>, c: seq<T>)
    requires SubsequenceOf(a, b) && SubsequenceOf(b, c)
    ensures SubsequenceOf(a, c)
    decreases |c|
  {
    if a != [] {
      var c' := c[..|c| - 1];
      if SubsequenceOf(b, c') {
        SubsequenceTransitive(a, b, c');
      } else {
        var b' := b[..|b| - 1];
        if a[|a| - 1] == b[|b| - 1] && SubsequenceOf(a[..|a| - 1], b') {
          SubsequenceTransitive(a[..|a| - 1], b', c');
        } else {
          SubsequenceTransitive(a, b', c');
        }
      }
    }
  }

  /**
   * `s` without the elements of `gone`, order kept. Models both
   * `shots.filter(s => s !== shot)` and the removal of a key from the
   * iteration order of a JavaScript object by `delete`.
   */
  function RemoveAll<T(==)>(s: seq<T>, gone: set<T>): (r: seq<T>)
    ensures forall x :: x in r ==> x in s && x !in gone
    ensures forall x :: x in s && x !in gone ==> x in r
    ensures Distinct(s) ==> Distinct(r)
    decreases |s|
  {
    if s == [] then []
    else
      var init := RemoveAll(s[..|s| - 1], gone);
      var last := s[|s| - 1];
      assert s == s[..|s| - 1] + [last];
      if last in gone then init else init + [last]
  }

  /** What RemoveAll keeps stays in its original order. */
  lemma {:induction false} RemoveAllIsSubsequence<T>(s: seq<T>, gone: set<T>)
    ensures SubsequenceOf(RemoveAll(s, gone), s)
    decreases |s|
  {
    if s != [] {
      var init := RemoveAll(s[..|s| - 1], gone);
      RemoveAllIsSubsequence(s[..|s| - 1], gone);
      if s[|s| - 1] !in gone {
        assert (init + [s[|s| - 1]])[..|init|] == init;
      }
    }
  }

  /** Removing nothing that occurs leaves the sequence as it was. */
  lemma {:induction false} RemoveAllAbsent<T>(s: seq<T>, gone: set<T>)
    requires forall x :: x in s ==> x !in gone
    ensures RemoveAll(s, gone) == s
    decreases |s|
  {
    if s != [] {
      RemoveAllAbsent(s[..|s| - 1], gone);
      assert s == s[..|s| - 1] + [s[|s| - 1]];
    }
  }

  /** Two successive removals are one removal of both sets. */
  lemma {:induction false} RemoveAllTwice<T>(s: seq<T>, a: set<T>, b: set<T>)
    ensures RemoveAll(RemoveAll(s, a), b) == RemoveAll(s, a + b)
    decreases |s|
  {
    if s != [] {
      var s' := s[..|s| - 1];
      var last := s[|s| - 1];
      RemoveAllTwice(s', a, b);
      var once := RemoveAll(s', a);
      if last !in a {
        assert RemoveAll(s, a) == once + [last];
        assert (once + [last])[..|once|] == once;
      }
    }
  }
}
