/** The growable array (vector.c) and the binary heap built on it (heap.c). */
module Heap {

  // ---------- vector.c ----------

  const MINCAP: nat := 16

  class Vector<T(0)> {
    var buf: array<T>
    var sz: nat

    ghost predicate Valid()
      reads this
    {
      sz <= buf.Length
    }

    ghost function Contents(): (s: seq<T>)
      requires Valid()
      reads this, buf
      ensures |s| == sz
    {
      buf[..sz]
    }

    constructor ()
      ensures Valid() && Contents() == [] && fresh(buf)
    {
      buf := new T[0];
      sz := 0;
    }

    /** `vec_pushback`: doubles the capacity when the buffer is full. */
    method PushBack(x: T)
      requires Valid()
      modifies this, buf
      ensures Valid() && Contents() == old(Contents()) + [x]
      ensures buf == old(buf) || fresh(buf)
    {
      if sz == buf.Length {
        var grown := new T[if buf.Length == 0 then MINCAP else buf.Length * 2];
        for i := 0 to sz
          invariant forall k :: 0 <= k < i ==> grown[k] == buf[k]
          modifies grown
        {
          grown[i] := buf[i];
        }
        buf := grown;
      }
      buf[sz] := x;
      sz := sz + 1;
    }

    /** `swap` of two elements. */
    method Swap(i: nat, j: nat)
      requires Valid() && i < sz && j < sz
      modifies buf
      ensures Valid() && Contents() == Swapped(old(Contents()), i, j)
    {
      buf[i], buf[j] := buf[j], buf[i];
    }

    /** `vec_clear`. */
    method Clear()
      requires Valid()
      modifies this`sz
      ensures Valid() && Contents() == []
    {
      sz := 0;
    }
  }

  function Swapped<T>(s: seq<T>, i: nat, j: nat): seq<T>
    requires i < |s| && j < |s|
  {
    s[i := s[j]][j := s[i]]
  }

  lemma SwappedMultiset<T>(s: seq<T>, i: nat, j: nat)
    requires i < |s| && j < |s|
    ensures multiset(Swapped(s, i, j)) == multiset(s)
  {
  }

  // ---------- heap order ----------

  type Cmp<!T> = (T, T) -> int

  /** `x` may come before `y`. */
  predicate Le<T>(cmp: Cmp<T>, x: T, y: T) {
    !(cmp(y, x) < 0)
  }

  /** What `cmp` must be: the strict part of a total preorder. */
  ghost predicate WeakOrder<T(!new)>(cmp: Cmp<T>) {
    && (forall x, y :: Le(cmp, x, y) || Le(cmp, y, x))
    && (forall x, y, z :: Le(cmp, x, y) && Le(cmp, y, z) ==> Le(cmp, x, z))
  }

  lemma LeTotal<T(!new)>(cmp: Cmp<T>, x: T, y: T)
    requires WeakOrder(cmp)
    ensures Le(cmp, x, y) || Le(cmp, y, x)
  {
  }

  lemma LeTrans<T(!new)>(cmp: Cmp<T>, x: T, y: T, z: T)
    requires WeakOrder(cmp) && Le(cmp, x, y) && Le(cmp, y, z)
    ensures Le(cmp, x, z)
  {
  }

  function Parent(i: nat): nat
    requires i > 0
  {
    (i - 1) / 2
  }

  ghost predicate HeapOrdered<T>(s: seq<T>, cmp: Cmp<T>) {
    forall i :: 0 < i < |s| ==> Le(cmp, s[Parent(i)], s[i])
  }

  ghost predicate LeastIn<T>(x: T, m: multiset<T>, cmp: Cmp<T>) {
    x in m && forall y :: y in m ==> Le(cmp, x, y)
  }

  lemma {:induction false} RootBelow<T(!new)>(s: seq<T>, cmp: Cmp<T>, i: nat)
    requires WeakOrder(cmp) && HeapOrdered(s, cmp) && i < |s|
    ensures Le(cmp, s[0], s[i])
    decreases i
  {
    if i > 0 {
      RootBelow(s, cmp, Parent(i));
      assert Le(cmp, s[Parent(i)], s[i]);
    }
  }

  lemma RootLeast<T(!new)>(s: seq<T>, cmp: Cmp<T>)
    requires WeakOrder(cmp) && HeapOrdered(s, cmp) && s != []
    ensures LeastIn(s[0], multiset(s), cmp)
  {
    forall y | y in multiset(s) ensures Le(cmp, s[0], y) {
      assert y in s;
      var i :| 0 <= i < |s| && s[i] == y;
      RootBelow(s, cmp, i);
    }
  }

  /** Heap order everywhere but between `i` and its parent, which is already below `i`'s children. */
  ghost predicate OrderedAbove<T>(s: seq<T>, cmp: Cmp<T>, i: nat) {
    && (forall k :: 0 < k < |s| && k != i ==> Le(cmp, s[Parent(k)], s[k]))
    && (forall k :: 0 < k < |s| && i > 0 && Parent(k) == i ==> Le(cmp, s[Parent(i)], s[k]))
  }

  /** Heap order everywhere but between `i` and its children, which `i`'s parent is already below. */
  ghost predicate OrderedBelow<T>(s: seq<T>, cmp: Cmp<T>, i: nat) {
    && (forall k :: 0 < k < |s| && Parent(k) != i ==> Le(cmp, s[Parent(k)], s[k]))
    && (forall k :: 0 < k < |s| && i > 0 && i < |s| && Parent(k) == i ==> Le(cmp, s[Parent(i)], s[k]))
  }

  lemma UpStep<T(!new)>(s: seq<T>, cmp: Cmp<T>, i: nat)
    requires WeakOrder(cmp) && 0 < i < |s| && OrderedAbove(s, cmp, i) && cmp(s[i], s[Parent(i)]) < 0
    ensures OrderedAbove(Swapped(s, i, Parent(i)), cmp, Parent(i))
  {
    var p := Parent(i);
    var t := Swapped(s, i, p);
    forall k | 0 < k < |t| && k != p ensures Le(cmp, t[Parent(k)], t[k]) {
      if Parent(k) == p && k != i { assert Le(cmp, s[p], s[k]); }
    }
    forall k | 0 < k < |t| && p > 0 && Parent(k) == p ensures Le(cmp, t[Parent(p)], t[k]) {
      assert Le(cmp, s[Parent(p)], s[p]);
      if k != i { assert Le(cmp, s[p], s[k]); }
    }
  }

  lemma DownStep<T(!new)>(s: seq<T>, cmp: Cmp<T>, i: nat, c: nat)
    requires WeakOrder(cmp) && 0 < c < |s| && Parent(c) == i && OrderedBelow(s, cmp, i)
    requires cmp(s[c], s[i]) < 0
    requires forall k :: 0 < k < |s| && Parent(k) == i ==> Le(cmp, s[c], s[k])
    ensures OrderedBelow(Swapped(s, i, c), cmp, c)
  {
    var t := Swapped(s, i, c);
    forall k | 0 < k < |t| && Parent(k) != c ensures Le(cmp, t[Parent(k)], t[k]) {
      if k == i {
        assert Le(cmp, s[Parent(i)], s[c]);
      }
    }
    forall k | 0 < k < |t| && Parent(k) == c ensures Le(cmp, t[Parent(c)], t[k]) {
      assert Le(cmp, s[Parent(k)], s[k]);
    }
  }

  // ---------- heap.c ----------

  class Heap<T(0, !new)> {
    const cmp: Cmp<T>
    const vec: Vector<T>

    ghost predicate Valid()
      reads this, vec, vec.buf
    {
      vec.Valid() && WeakOrder(cmp) && HeapOrdered(vec.Contents(), cmp)
    }

    /** The elements, with multiplicity. */
    ghost function Elements(): multiset<T>
      requires Valid()
      reads this, vec, vec.buf
    {
      multiset(vec.Contents())
    }

    constructor (cmp: Cmp<T>)
      requires WeakOrder(cmp)
      ensures Valid() && Elements() == multiset{} && this.cmp == cmp
      ensures fresh(vec) && fresh(vec.buf)
    {
      this.cmp := cmp;
      vec := new Vector();
    }

    /** `heap_empty`. */
    method Empty() returns (b: bool)
      requires Valid()
      ensures b <==> Elements() == multiset{}
    {
      b := vec.sz == 0;
      if !b { assert vec.Contents()[0] in Elements(); }
    }

    /** `heap_push`. */
    method Push(x: T)
      requires Valid()
      modifies vec, vec.buf
      ensures Valid() && Elements() == old(Elements()) + multiset{x}
      ensures vec.buf == old(vec.buf) || fresh(vec.buf)
    {
      vec.PushBack(x);
      if vec.sz == 1 { return; }
      ShiftUp(vec.sz - 1);
    }

    method ShiftUp(start: nat)
      requires vec.Valid() && WeakOrder(cmp)
      requires start < vec.sz && OrderedAbove(vec.Contents(), cmp, start)
      modifies vec.buf
      ensures Valid() && Elements() == old(multiset(vec.Contents()))
    {
      var idx: nat := start;
      while idx > 0 && cmp(vec.buf[idx], vec.buf[Parent(idx)]) < 0
        invariant vec.Valid() && idx < vec.sz
        invariant OrderedAbove(vec.Contents(), cmp, idx)
        invariant multiset(vec.Contents()) == old(multiset(vec.Contents()))
      {
        ghost var s := vec.Contents();
        UpStep(s, cmp, idx);
        SwappedMultiset(s, idx, Parent(idx));
        vec.Swap(idx, Parent(idx));
        idx := Parent(idx);
      }
    }

    /** `heap_pop`: fails on an empty heap, otherwise removes a least element. */
    method Pop() returns (ok: bool, x: T)
      requires Valid()
      modifies vec, vec.buf
      ensures Valid() && vec.buf == old(vec.buf)
      ensures ok <==> old(Elements()) != multiset{}
      ensures ok ==> LeastIn(x, old(Elements()), cmp) && Elements() == old(Elements()) - multiset{x}
      ensures !ok ==> Elements() == old(Elements())
    {
      hide HeapOrdered, WeakOrder, OrderedBelow, LeastIn;
      ghost var s := vec.Contents();
      if vec.sz == 0 {
        x := *;
        return false, x;
      }
      assert s[0] in multiset(s);
      RootLeast(s, cmp);
      ok, x := true, vec.buf[0];
      if vec.sz > 1 {
        vec.buf[0] := vec.buf[vec.sz - 1];
      }
      vec.sz := vec.sz - 1;
      AfterRemoval(s, vec.Contents(), cmp);
      if vec.sz == 0 {
        NoneOrdered(vec.Contents(), cmp);
        return;
      }
      ShiftDown(0);
    }

    method ShiftDown(start: nat)
      requires vec.Valid() && WeakOrder(cmp)
      requires start < vec.sz && OrderedBelow(vec.Contents(), cmp, start)
      modifies vec.buf
      ensures Valid() && Elements() == old(multiset(vec.Contents()))
    {
      hide WeakOrder, OrderedBelow, HeapOrdered;
      var idx: nat := start;
      while true
        invariant vec.Valid() && idx < vec.sz
        invariant OrderedBelow(vec.Contents(), cmp, idx)
        invariant multiset(vec.Contents()) == old(multiset(vec.Contents()))
        decreases vec.sz - idx
      {
        var i := Smallest(idx);
        ghost var s := vec.Contents();
        SmallestChild(s, cmp, idx, i);
        if i == idx { break; }
        DownStep(s, cmp, idx, i);
        SwappedMultiset(s, idx, i);
        vec.Swap(idx, i);
        idx := i;
      }
    }

    /** The choice of `shift_down`: a smaller child, the smaller of two, or the element itself. */
    method Smallest(idx: nat) returns (i: nat)
      requires vec.Valid() && idx < vec.sz
      ensures i < vec.sz && i == SmallestOf(vec.Contents(), cmp, idx)
    {
      i := idx;
      var l, r := 2 * idx + 1, 2 * idx + 2;
      if l < vec.sz && cmp(vec.buf[l], vec.buf[i]) < 0 { i := l; }
      if r < vec.sz && cmp(vec.buf[r], vec.buf[i]) < 0 { i := r; }
    }

    /** Popping until nothing is left. */
    method Drain() returns (xs: seq<T>)
      requires Valid()
      modifies vec, vec.buf
      ensures Valid() && Elements() == multiset{}
      ensures Drains(old(Elements()), xs, multiset{}, cmp)
      ensures multiset(xs) == old(Elements()) && Ascending(xs, cmp)
    {
      hide LeastIn, Ascending, HeapOrdered, WeakOrder;
      ghost var all := Elements();
      xs := [];
      ghost var rest := Elements();
      while true
        invariant Valid() && vec.buf == old(vec.buf) && rest == Elements()
        invariant Drains(all, xs, rest, cmp)
        decreases |rest|
      {
        var ok, x := Pop();
        if !ok { break; }
        OneMore(all, xs, rest, x, cmp);
        xs, rest := xs + [x], Elements();
      }
      DrainSorted(all, xs, multiset{}, cmp);
    }

    /** `heap_clear`. */
    method Clear()
      requires Valid()
      modifies vec`sz
      ensures Valid() && Elements() == multiset{}
    {
      vec.Clear();
    }
  }

  function SmallestOf<T>(s: seq<T>, cmp: Cmp<T>, idx: nat): nat
    requires idx < |s|
  {
    var l, r := 2 * idx + 1, 2 * idx + 2;
    var i := if l < |s| && cmp(s[l], s[idx]) < 0 then l else idx;
    if r < |s| && cmp(s[r], s[i]) < 0 then r else i
  }

  lemma SmallestChild<T(!new)>(s: seq<T>, cmp: Cmp<T>, idx: nat, i: nat)
    requires WeakOrder(cmp) && idx < |s| && OrderedBelow(s, cmp, idx) && i == SmallestOf(s, cmp, idx)
    ensures i == idx ==> HeapOrdered(s, cmp)
    ensures i != idx ==> 0 < i < |s| && Parent(i) == idx && cmp(s[i], s[idx]) < 0
    ensures i != idx ==> forall k :: 0 < k < |s| && Parent(k) == idx ==> Le(cmp, s[i], s[k])
  {
    assert forall k :: 0 < k < |s| && Parent(k) == idx ==> k == 2 * idx + 1 || k == 2 * idx + 2;
    hide WeakOrder;
    var l, r := 2 * idx + 1, 2 * idx + 2;
    LeTotal(cmp, s[idx], s[idx]);
    if l < |s| { LeTotal(cmp, s[idx], s[l]); }
    if l < |s| { LeTotal(cmp, s[l], s[l]); }
    if r < |s| {
      LeTotal(cmp, s[l], s[r]);
      LeTotal(cmp, s[r], s[r]);
      LeTotal(cmp, s[idx], s[r]);
      if Le(cmp, s[r], s[idx]) && Le(cmp, s[idx], s[l]) { LeTrans(cmp, s[r], s[idx], s[l]); }
      if Le(cmp, s[l], s[idx]) && Le(cmp, s[idx], s[r]) { LeTrans(cmp, s[l], s[idx], s[r]); }
    }
  }

  lemma NoneOrdered<T>(s: seq<T>, cmp: Cmp<T>)
    requires s == []
    ensures HeapOrdered(s, cmp)
  {
  }

  lemma AfterRemoval<T(!new)>(s: seq<T>, t: seq<T>, cmp: Cmp<T>)
    requires s != [] && HeapOrdered(s, cmp)
    requires t == if |s| > 1 then s[0 := s[|s| - 1]][..|s| - 1] else []
    ensures OrderedBelow(t, cmp, 0)
    ensures multiset(t) == multiset(s) - multiset{s[0]}
  {
    if |s| > 1 {
      var u := s[0 := s[|s| - 1]];
      assert u == t + [s[|s| - 1]];
      assert multiset(u) == multiset(t) + multiset{s[|s| - 1]};
      assert multiset(u) == multiset(s) - multiset{s[0]} + multiset{s[|s| - 1]};
      forall x ensures multiset(t)[x] == (multiset(s) - multiset{s[0]})[x] {
        assert multiset(u)[x] == multiset(t)[x] + multiset{s[|s| - 1]}[x];
      }
    } else {
      assert s == [s[0]];
    }
  }

  // ---------- popping one after the other ----------

  ghost predicate Ascending<T(!new)>(xs: seq<T>, cmp: Cmp<T>) {
    forall i, j :: 0 <= i < j < |xs| ==> Le(cmp, xs[i], xs[j])
  }

  /** `xs` is a possible outcome of popping elements of `m` until `rest` is left. */
  ghost predicate Drains<T(!new)>(m: multiset<T>, xs: seq<T>, rest: multiset<T>, cmp: Cmp<T>)
    decreases |xs|
  {
    if xs == [] then m == rest
    else LeastIn(xs[0], m, cmp) && Drains(m - multiset{xs[0]}, xs[1..], rest, cmp)
  }

  lemma {:induction false} OneMore<T(!new)>(m: multiset<T>, xs: seq<T>, rest: multiset<T>, x: T, cmp: Cmp<T>)
    requires Drains(m, xs, rest, cmp) && LeastIn(x, rest, cmp)
    ensures Drains(m, xs + [x], rest - multiset{x}, cmp)
    ensures |rest - multiset{x}| < |rest|
    decreases |xs|
  {
    if xs == [] {
      assert (xs + [x])[1..] == [];
    } else {
      assert (xs + [x])[1..] == xs[1..] + [x];
      OneMore(m - multiset{xs[0]}, xs[1..], rest, x, cmp);
    }
  }

  /** Popping gives the least elements in order: with what is left they are what was in the heap. */
  lemma {:induction false} DrainSorted<T(!new)>(m: multiset<T>, xs: seq<T>, rest: multiset<T>, cmp: Cmp<T>)
    requires Drains(m, xs, rest, cmp)
    ensures multiset(xs) + rest == m && Ascending(xs, cmp)
    ensures forall x, y :: x in xs && y in rest ==> Le(cmp, x, y)
    decreases |xs|
  {
    if xs != [] {
      var tail := xs[1..];
      DrainSorted(m - multiset{xs[0]}, tail, rest, cmp);
      assert xs == [xs[0]] + tail;
      forall y | y in multiset(tail) + rest ensures Le(cmp, xs[0], y) {
        assert y in m - multiset{xs[0]};
      }
      forall i, j | 0 <= i < j < |xs| ensures Le(cmp, xs[i], xs[j]) {
        assert xs[j] == tail[j - 1] && tail[j - 1] in multiset(tail) + rest;
        assert i > 0 ==> xs[i] == tail[i - 1];
      }
      forall x, y | x in xs && y in rest ensures Le(cmp, x, y) {
        assert y in multiset(tail) + rest && (x == xs[0] || x in tail);
      }
    }
  }
}
