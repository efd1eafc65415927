/** Sorting: `qsort` under a comparator, and lists strictly sorted by a text key. */
module Sorting {
  import opened Bytes

  // ---------- strictly sorted lists ----------

  ghost predicate StrictlySorted<T>(s: seq<T>, key: T -> Text) {
    forall i, j :: 0 <= i < j < |s| ==> Less(key(s[i]), key(s[j]))
  }

  lemma SortedConcat<T>(a: seq<T>, b: seq<T>, key: T -> Text)
    requires StrictlySorted(a, key) && StrictlySorted(b, key)
    requires forall x, y :: x in a && y in b ==> Less(key(x), key(y))
    ensures StrictlySorted(a + b, key)
  {
  }

  /** A strictly sorted list is determined by its elements. */
  lemma {:induction false} SortedUnique<T>(a: seq<T>, b: seq<T>, key: T -> Text)
    requires StrictlySorted(a, key) && StrictlySorted(b, key)
    requires forall x :: x in a <==> x in b
    ensures a == b
  {
    assert b != [] ==> b[0] in a;
    if a != [] {
      assert a[0] in b;
      assert b[0] in a;
      HeadLeast(a, b[0], key);
      HeadLeast(b, a[0], key);
      if a[0] != b[0] { LessAsymmetric(key(a[0]), key(b[0])); }
      forall x ensures x in a[1..] <==> x in b[1..] {
        TailMembers(a, x, key);
        TailMembers(b, x, key);
      }
      SortedUnique(a[1..], b[1..], key);
      assert a == [a[0]] + a[1..] && b == [b[0]] + b[1..];
    }
  }

  lemma HeadLeast<T>(s: seq<T>, x: T, key: T -> Text)
    requires StrictlySorted(s, key) && x in s
    ensures x == s[0] || Less(key(s[0]), key(x))
  {
  }

  lemma TailMembers<T>(s: seq<T>, x: T, key: T -> Text)
    requires StrictlySorted(s, key) && s != []
    ensures x in s[1..] <==> x in s && x != s[0]
  {
    if x in s[1..] {
      LessIrreflexive(key(x));
    }
  }

  // ---------- qsort ----------

  ghost predicate PreorderOn<T>(s: seq<T>, cmp: (T, T) -> int) {
    && (forall x, y :: x in s && y in s ==> cmp(x, y) <= 0 || cmp(y, x) <= 0)
    && (forall x, y, z :: x in s && y in s && z in s && cmp(x, y) <= 0 && cmp(y, z) <= 0 ==> cmp(x, z) <= 0)
  }

  ghost predicate SortedBy<T>(s: seq<T>, cmp: (T, T) -> int) {
    forall i, j :: 0 <= i < j < |s| ==> cmp(s[i], s[j]) <= 0
  }

  /** `vec_sort`, that is `qsort`: some sorted permutation; callers learn nothing more. */
  method QSort<T>(s: seq<T>, cmp: (T, T) -> int) returns (r: seq<T>)
    requires PreorderOn(s, cmp)
    ensures SortedBy(r, cmp)
    ensures multiset(r) == multiset(s)
  {
    r := [];
    for i := 0 to |s|
      invariant SortedBy(r, cmp)
      invariant multiset(r) == multiset(s[..i])
    {
      assert s[..i + 1] == s[..i] + [s[i]];
      assert forall x :: x in r ==> x in multiset(s[..i]);
      r := InsertSorted(r, s[i], cmp, s);
    }
    assert s[..|s|] == s;
  }

  method InsertSorted<T>(s: seq<T>, x: T, cmp: (T, T) -> int, ghost all: seq<T>) returns (r: seq<T>)
    requires PreorderOn(all, cmp) && x in all && forall y :: y in s ==> y in all
    requires SortedBy(s, cmp)
    ensures SortedBy(r, cmp)
    ensures multiset(r) == multiset(s) + multiset{x}
  {
    hide PreorderOn;
    var k := |s|;
    while k > 0 && cmp(s[k - 1], x) > 0
      invariant 0 <= k <= |s|
      invariant forall i :: k <= i < |s| ==> cmp(x, s[i]) <= 0
    {
      Comparable(all, cmp, s[k - 1], x);
      k := k - 1;
    }
    assert k > 0 ==> cmp(s[k - 1], x) <= 0;
    InsertKeepsSorted(s, k, x, cmp, all);
    InsertedMultiset(s, k, x);
    r := s[..k] + [x] + s[k..];
  }

  lemma InsertedMultiset<T>(s: seq<T>, k: nat, x: T)
    requires k <= |s|
    ensures multiset(s[..k] + [x] + s[k..]) == multiset(s) + multiset{x}
  {
    assert s == s[..k] + s[k..];
  }

  lemma Comparable<T>(all: seq<T>, cmp: (T, T) -> int, x: T, y: T)
    requires PreorderOn(all, cmp) && x in all && y in all
    ensures cmp(x, y) <= 0 || cmp(y, x) <= 0
  {
  }

  lemma Transitive<T>(all: seq<T>, cmp: (T, T) -> int, x: T, y: T, z: T)
    requires PreorderOn(all, cmp) && x in all && y in all && z in all
    requires cmp(x, y) <= 0 && cmp(y, z) <= 0
    ensures cmp(x, z) <= 0
  {
  }

  lemma InsertKeepsSorted<T>(s: seq<T>, k: nat, x: T, cmp: (T, T) -> int, all: seq<T>)
    requires PreorderOn(all, cmp) && x in all && forall y :: y in s ==> y in all
    requires SortedBy(s, cmp) && k <= |s|
    requires k > 0 ==> cmp(s[k - 1], x) <= 0
    requires forall i :: k <= i < |s| ==> cmp(x, s[i]) <= 0
    ensures SortedBy(s[..k] + [x] + s[k..], cmp)
  {
    hide PreorderOn;
    forall i | 0 <= i < k ensures cmp(s[i], x) <= 0 {
      if i < k - 1 { Transitive(all, cmp, s[i], s[k - 1], x); }
    }
  }

  lemma PermutationMembers<T>(a: seq<T>, b: seq<T>)
    requires multiset(a) == multiset(b)
    ensures |a| == |b| && forall x :: x in a <==> x in b
  {
    assert |a| == |multiset(a)| && |b| == |multiset(b)|;
    forall x ensures x in a <==> x in b {
      assert x in a <==> x in multiset(a);
      assert x in b <==> x in multiset(b);
    }
  }

  ghost predicate NoDuplicates<T>(s: seq<T>) {
    forall i, j :: 0 <= i < j < |s| ==> s[i] != s[j]
  }

  lemma {:induction false} OnceInMultiset<T>(s: seq<T>, x: T)
    requires NoDuplicates(s)
    ensures multiset(s)[x] <= 1
  {
    if s != [] {
      assert s == [s[0]] + s[1..];
      OnceInMultiset(s[1..], x);
      if x == s[0] { assert x !in s[1..]; }
    }
  }

  lemma PermutationNoDuplicates<T>(a: seq<T>, b: seq<T>)
    requires multiset(a) == multiset(b) && NoDuplicates(a)
    ensures NoDuplicates(b)
  {
    forall i, j | 0 <= i < j < |b| ensures b[i] != b[j] {
      OnceInMultiset(a, b[i]);
      assert b == b[..j] + [b[j]] + b[j + 1..];
      assert b[i] in b[..j];
    }
  }
}
