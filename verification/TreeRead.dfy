/** Walking stored trees (tree_walk.c) and reading a tree into the index (index_read_tree.c). */
module TreeRead {
  import opened Bytes
  import opened Index
  import IndexCodec
  import opened Odb
  import opened Options
  import opened Sorting
  import opened TreeBuild
  import opened TreeCodec
  import opened Trees

  datatype WalkMode = Pre | Post

  /** A callback: from the directory, the entry and the payload to the result and the new payload. */
  type Callback<!S> = (Text, TreeEntry, S) -> (int, S)

  /** Every chain of stored subtrees ends within `d` steps. */
  ghost predicate Finite(T: Store, es: seq<TreeEntry>, d: nat)
    decreases d
  {
    forall i :: 0 <= i < |es| && IsDir(es[i].mode) && es[i].oid in T ==>
      d > 0 && Finite(T, T[es[i].oid], d - 1)
  }

  /** `foreach` on one entry: whether the walk goes on, and the payload. */
  ghost function WalkItem<S>(T: Store, x: TreeEntry, cb: Callback<S>, mode: WalkMode, s: S, root: Text, d: nat)
    : (bool, S)
    requires Finite(T, [x], d)
    decreases d, 0
  {
    if IsDir(x.mode) then
      assert [x][0] == x;
      var subpath := Join(root, x.name);
      if |subpath| >= PATH_MAX then (false, s)
      else if mode.Pre? then
        var (ret, s1) := cb(root, x, s);
        if ret > 0 then (false, s1)
        else if ret < 0 then (true, s1)
        else if x.oid !in T then (false, s1)
        else Walk(T, T[x.oid], cb, mode, s1, subpath, d - 1)
      else if x.oid !in T then (false, s)
      else
        var (ok, s1) := Walk(T, T[x.oid], cb, mode, s, subpath, d - 1);
        if !ok then (false, s1)
        else
          var (ret, s2) := cb(root, x, s1);
          (ret <= 0, s2)
    else
      var (ret, s1) := cb(root, x, s);
      (ret <= 0, s1)
  }

  ghost function Walk<S>(T: Store, es: seq<TreeEntry>, cb: Callback<S>, mode: WalkMode, s: S, root: Text, d: nat)
    : (bool, S)
    requires Finite(T, es, d)
    decreases d, 1, |es|
  {
    if es == [] then (true, s)
    else
      FiniteParts(T, es, d);
      var (ok, s1) := WalkItem(T, es[0], cb, mode, s, root, d);
      if !ok then (false, s1) else Walk(T, es[1..], cb, mode, s1, root, d)
  }

  lemma FiniteParts(T: Store, es: seq<TreeEntry>, d: nat)
    requires Finite(T, es, d) && es != []
    ensures Finite(T, [es[0]], d) && Finite(T, es[1..], d)
  {
    assert forall i :: 0 <= i < |es[1..]| ==> es[1..][i] == es[i + 1];
  }

  lemma WalkFrom<S>(T: Store, es: seq<TreeEntry>, i: nat, cb: Callback<S>, mode: WalkMode, s: S, root: Text, d: nat)
    requires Finite(T, es, d) && i < |es|
    ensures Finite(T, [es[i]], d) && Finite(T, es[i..], d) && Finite(T, es[i + 1..], d)
    ensures var step := WalkItem(T, es[i], cb, mode, s, root, d);
            Walk(T, es[i..], cb, mode, s, root, d) ==
            if step.0 then Walk(T, es[i + 1..], cb, mode, step.1, root, d) else step
  {
    assert forall k :: 0 <= k < |es[i..]| ==> es[i..][k] == es[i + k];
    assert es[i..][1..] == es[i + 1..];
    FiniteParts(T, es[i..], d);
  }

  /** `foreach` (tree_walk.c). */
  method Foreach<S>(odb: Odb, es: seq<TreeEntry>, cb: Callback<S>, mode: WalkMode, payload: S, root: Text, ghost d: nat)
    returns (ok: bool, s: S)
    requires Finite(odb.Trees(), es, d)
    ensures (ok, s) == Walk(odb.Trees(), es, cb, mode, payload, root, d)
    decreases d, 1
  {
    ghost var T := odb.Trees();
    assert es[0..] == es;
    assert forall s :: Walk(T, [], cb, mode, s, root, d) == (true, s);
    hide *;
    s := payload;
    for i := 0 to |es|
      invariant Finite(T, es[i..], d)
      invariant Walk(T, es, cb, mode, payload, root, d) == Walk(T, es[i..], cb, mode, s, root, d)
    {
      WalkFrom(T, es, i, cb, mode, s, root, d);
      ok, s := ForeachEntry(odb, es[i], cb, mode, s, root, d);
      if !ok { return; }
    }
    assert es[|es|..] == [];
    return true, s;
  }

  /** One round of the loop. */
  method ForeachEntry<S>(odb: Odb, entry: TreeEntry, cb: Callback<S>, mode: WalkMode, payload: S, root: Text,
                         ghost d: nat)
    returns (ok: bool, s: S)
    requires Finite(odb.Trees(), [entry], d)
    ensures (ok, s) == WalkItem(odb.Trees(), entry, cb, mode, payload, root, d)
    decreases d, 0
  {
    assert [entry][0] == entry;
    hide Decode, Walk, Join;
    s := payload;
    if IsDir(entry.mode) {
      var subpath := Join(root, entry.name);
      if |subpath| >= PATH_MAX { return false, s; }
      if mode == Pre {
        var (ret, s1) := cb(root, entry, s);
        s := s1;
        if ret > 0 { return false, s; }
        if ret < 0 { return true, s; }
        var subtree := odb.LookupTree(entry.oid);
        if subtree.None? { return false, s; }
        ok, s := Foreach(odb, subtree.value, cb, mode, s, subpath, d - 1);
      } else {
        var subtree := odb.LookupTree(entry.oid);
        if subtree.None? { return false, s; }
        ok, s := Foreach(odb, subtree.value, cb, mode, s, subpath, d - 1);
        if !ok { return; }
        var (ret, s1) := cb(root, entry, s);
        return ret <= 0, s1;
      }
    } else {
      var (ret, s1) := cb(root, entry, s);
      return ret <= 0, s1;
    }
  }

  // ---------- a walk as a list of calls ----------

  /** A call of the callback, with the number of calls that skipping leaves out, or the end of the walk. */
  datatype Call = Call(root: Text, entry: TreeEntry, below: nat) | Fail

  ghost function CallsOf(T: Store, x: TreeEntry, mode: WalkMode, root: Text, d: nat): seq<Call>
    requires Finite(T, [x], d)
    decreases d, 0
  {
    if x.mode / 0x1000 % 0x10 != 4 then [Call(root, x, 0)]
    else
      assert [x][0] == x;
      var subpath := Join(root, x.name);
      var sub := if x.oid in T then Calls(T, T[x.oid], mode, subpath, d - 1) else [Fail];
      if |subpath| >= 4096 then [Fail]
      else if mode.Pre? then [Call(root, x, |sub|)] + sub
      else sub + [Call(root, x, 0)]
  }

  /** What a walk calls one after the other; it fails at a directory that is not stored or has too long a path. */
  ghost function Calls(T: Store, es: seq<TreeEntry>, mode: WalkMode, root: Text, d: nat): seq<Call>
    requires Finite(T, es, d)
    decreases d, 1, |es|
  {
    if es == [] then []
    else
      FiniteParts(T, es, d);
      CallsOf(T, es[0], mode, root, d) + Calls(T, es[1..], mode, root, d)
  }

  /** A positive answer ends the walk, a negative one leaves out the calls below. */
  ghost function Perform<S>(cb: Callback<S>, calls: seq<Call>, s: S): (bool, S)
    decreases |calls|
  {
    if calls == [] then (true, s)
    else if calls[0].Fail? then (false, s)
    else
      var (ret, s1) := cb(calls[0].root, calls[0].entry, s);
      var rest := calls[1..];
      if ret > 0 then (false, s1)
      else if ret < 0 && calls[0].below <= |rest| then Perform(cb, rest[calls[0].below..], s1)
      else Perform(cb, rest, s1)
  }

  /** Nothing outside the list is left out. */
  ghost predicate Closed(calls: seq<Call>) {
    forall i :: 0 <= i < |calls| && calls[i].Call? ==> i + 1 + calls[i].below <= |calls|
  }

  lemma {:induction false} PerformJoin<S>(cb: Callback<S>, a: seq<Call>, b: seq<Call>, s: S)
    requires Closed(a)
    ensures var first := Perform(cb, a, s);
      Perform(cb, a + b, s) == if first.0 then Perform(cb, b, first.1) else first
    decreases |a|
  {
    if a == [] {
      assert a + b == b;
    } else if a[0].Call? {
      var (ret, s1) := cb(a[0].root, a[0].entry, s);
      var rest := a[1..];
      var n := if ret < 0 then a[0].below else 0;
      assert (a + b)[1..] == rest + b && (rest + b)[n..] == rest[n..] + b;
      assert rest[0..] == rest && (rest + b)[0..] == rest + b;
      forall i | 0 <= i < |rest[n..]| && rest[n..][i].Call? ensures i + 1 + rest[n..][i].below <= |rest[n..]| {
        assert rest[n..][i] == a[i + 1 + n];
      }
      PerformJoin(cb, rest[n..], b, s1);
    }
  }

  lemma ClosedJoin(a: seq<Call>, b: seq<Call>)
    requires Closed(a) && Closed(b)
    ensures Closed(a + b)
  {
    forall i | 0 <= i < |a + b| && (a + b)[i].Call? ensures i + 1 + (a + b)[i].below <= |a + b| {
      assert i >= |a| ==> (a + b)[i] == b[i - |a|];
    }
  }

  lemma ClosedFront(c: Call, a: seq<Call>)
    requires Closed(a) && c.Call? && c.below <= |a|
    ensures Closed([c] + a)
  {
    forall i | 0 <= i < |[c] + a| && ([c] + a)[i].Call? ensures i + 1 + ([c] + a)[i].below <= |[c] + a| {
      assert i > 0 ==> ([c] + a)[i] == a[i - 1];
    }
  }

  /** For any callback, in both orders and whatever is stored, the walk performs its calls. */
  lemma {:induction false} WalkPerforms<S>(T: Store, es: seq<TreeEntry>, cb: Callback<S>, mode: WalkMode, s: S,
                                           root: Text, d: nat)
    requires Finite(T, es, d)
    ensures Closed(Calls(T, es, mode, root, d))
    ensures Walk(T, es, cb, mode, s, root, d) == Perform(cb, Calls(T, es, mode, root, d), s)
    decreases d, 1, |es|
  {
    if es != [] {
      FiniteParts(T, es, d);
      hide WalkItem, CallsOf, Perform, Closed, Finite;
      var first, others := CallsOf(T, es[0], mode, root, d), Calls(T, es[1..], mode, root, d);
      var step := WalkItem(T, es[0], cb, mode, s, root, d);
      ItemPerforms(T, es[0], cb, mode, s, root, d);
      WalkPerforms(T, es[1..], cb, mode, step.1, root, d);
      PerformJoin(cb, first, others, s);
      ClosedJoin(first, others);
    }
  }

  lemma {:induction false} ItemPerforms<S>(T: Store, x: TreeEntry, cb: Callback<S>, mode: WalkMode, s: S,
                                           root: Text, d: nat)
    requires Finite(T, [x], d)
    ensures Closed(CallsOf(T, x, mode, root, d))
    ensures WalkItem(T, x, cb, mode, s, root, d) == Perform(cb, CallsOf(T, x, mode, root, d), s)
    decreases d, 0
  {
    assert [x][0] == x;
    hide Join, Walk, Calls;
    if IsDir(x.mode) && x.oid in T {
      var sub, s1 := Calls(T, T[x.oid], mode, Join(root, x.name), d - 1), cb(root, x, s).1;
      WalkPerforms(T, T[x.oid], cb, mode, if mode.Pre? then s1 else s, Join(root, x.name), d - 1);
      if mode.Pre? {
        ClosedFront(Call(root, x, |sub|), sub);
        assert ([Call(root, x, |sub|)] + sub)[1..] == sub && sub[|sub|..] == [];
      } else {
        ClosedJoin(sub, [Call(root, x, 0)]);
        PerformJoin(cb, sub, [Call(root, x, 0)], s);
        OneCall(cb, root, x, Perform(cb, sub, s).1);
      }
    } else {
      OneCall(cb, root, x, s);
      assert [Call(root, x, 1), Fail][1..] == [Fail] && [Fail][1..] == [];
      assert [Call(root, x, 1)] + [Fail] == [Call(root, x, 1), Fail];
    }
  }

  lemma OneCall<S>(cb: Callback<S>, root: Text, x: TreeEntry, s: S)
    ensures Perform(cb, [Call(root, x, 0)], s) == (cb(root, x, s).0 <= 0, cb(root, x, s).1)
  {
    assert [Call(root, x, 0)][1..] == [];
  }

  /** An entry of any other type than a directory is given to the callback, and nothing is looked up. */
  lemma WalkOfFile<S>(T: Store, x: TreeEntry, cb: Callback<S>, mode: WalkMode, s: S, root: Text, d: nat,
                      kind: nat, permissions: nat)
    requires kind < 0x10 && kind != 4 && permissions < 0x1000 && x.mode == 0x1000 * kind + permissions
    ensures Finite(T, [x], d) && Finite(map[], [x], 0)
    ensures WalkItem(T, x, cb, mode, s, root, d) == (cb(root, x, s).0 <= 0, cb(root, x, s).1)
    ensures WalkItem(map[], x, cb, mode, s, root, 0) == WalkItem(T, x, cb, mode, s, root, d)
  {
    IsDirExactly(0, kind, permissions);
  }

  /** A tree of one regular file is read as one entry of that path and mode, with nothing else known of the file. */
  lemma FileRead(T: Store, name: Text, oid: Oid)
    ensures var es := [TreeEntry(0x81A4, name, oid)];
      var length := if |name| < 0xFFF then |name| else 0xFFF;
      && Complete(T, es, 0) && Finite(T, es, 0)
      && Walk(T, es, TreeWalkCb, Pre, [], [], 0) ==
        if |name| < 4096 then (true, [IndexEntry(0, 0, 0, 0, 0, 0, 0x81A4, 0, 0, 0, oid, length, name)])
        else (false, [])
  {
    var x := TreeEntry(0x81A4, name, oid);
    IsDirExactly(0, 8, 0x1A4);
    WalkOfFile(T, x, TreeWalkCb, Pre, [], [], 0, 8, 0x1A4);
    var e := EntryOf(Leaf(name, 0x81A4, oid));
    assert [] + [e] == [e];
    assert WalkItem(T, x, TreeWalkCb, Pre, [], [], 0) == if |name| < PATH_MAX then (true, [e]) else (false, []);
    WalkFrom(T, [x], 0, TreeWalkCb, Pre, [], [], 0);
    assert [x][0..] == [x] && [x][1..] == [];
  }

  // ---------- what a walk visits ----------

  /** A visit: the directory and the entry in it. */
  type Visit = (Text, TreeEntry)

  ghost function VisitItem(T: Store, x: TreeEntry, mode: WalkMode, root: Text, d: nat): seq<Visit>
    requires Complete(T, [x], d)
    decreases d, 0
  {
    if !IsDir(x.mode) then [(root, x)]
    else
      assert [x][0] == x;
      var below := Visits(T, T[x.oid], mode, Join(root, x.name), d - 1);
      if mode.Pre? then [(root, x)] + below else below + [(root, x)]
  }

  /** All entries of a complete tree: each directory before what is below it, or behind. */
  ghost function Visits(T: Store, es: seq<TreeEntry>, mode: WalkMode, root: Text, d: nat): seq<Visit>
    requires Complete(T, es, d)
    decreases d, 1, |es|
  {
    if es == [] then []
    else
      CompleteParts(T, es, d);
      VisitItem(T, es[0], mode, root, d) + Visits(T, es[1..], mode, root, d)
  }

  lemma CompleteParts(T: Store, es: seq<TreeEntry>, d: nat)
    requires Complete(T, es, d) && es != []
    ensures Complete(T, [es[0]], d) && Complete(T, es[1..], d)
  {
    assert forall i :: 0 <= i < |es[1..]| ==> es[1..][i] == es[i + 1];
    assert es[0] in es;
  }

  /** Both orders visit the same entries equally often. */
  lemma {:induction false} SameVisits(T: Store, es: seq<TreeEntry>, root: Text, d: nat)
    requires Complete(T, es, d)
    ensures multiset(Visits(T, es, Pre, root, d)) == multiset(Visits(T, es, Post, root, d))
    decreases d, 1, |es|
  {
    if es != [] {
      CompleteParts(T, es, d);
      SameItemVisits(T, es[0], root, d);
      SameVisits(T, es[1..], root, d);
    }
  }

  lemma {:induction false} SameItemVisits(T: Store, x: TreeEntry, root: Text, d: nat)
    requires Complete(T, [x], d)
    ensures multiset(VisitItem(T, x, Pre, root, d)) == multiset(VisitItem(T, x, Post, root, d))
    decreases d, 0
  {
    if IsDir(x.mode) {
      assert [x][0] == x;
      SameVisits(T, T[x.oid], Join(root, x.name), d - 1);
    }
  }

  /** The callback on every visit in turn. */
  ghost function Fold<S>(cb: Callback<S>, visits: seq<Visit>, s: S): S {
    if visits == [] then s else Fold(cb, visits[1..], cb(visits[0].0, visits[0].1, s).1)
  }

  lemma {:induction false} FoldJoin<S>(cb: Callback<S>, a: seq<Visit>, b: seq<Visit>, s: S)
    ensures Fold(cb, a + b, s) == Fold(cb, b, Fold(cb, a, s))
  {
    if a == [] {
      assert a + b == b;
    } else {
      assert (a + b)[1..] == a[1..] + b;
      FoldJoin(cb, a[1..], b, cb(a[0].0, a[0].1, s).1);
    }
  }

  lemma FoldOne<S>(cb: Callback<S>, v: Visit, s: S)
    ensures Fold(cb, [v], s) == cb(v.0, v.1, s).1
  {
  }

  /** The callback never asks to skip or to stop. */
  ghost predicate Continues<S(!new)>(cb: Callback<S>) {
    forall root: Text, x: TreeEntry, s: S :: cb(root, x, s).0 == 0
  }

  /** Every directory path fits into PATH_MAX. */
  ghost predicate DirsFit(T: Store, es: seq<TreeEntry>, root: Text, d: nat)
    requires Complete(T, es, d)
    decreases d
  {
    forall i :: 0 <= i < |es| && IsDir(es[i].mode) ==>
      |Join(root, es[i].name)| < PATH_MAX && DirsFit(T, T[es[i].oid], Join(root, es[i].name), d - 1)
  }

  lemma DirsFitParts(T: Store, es: seq<TreeEntry>, root: Text, d: nat)
    requires Complete(T, es, d) && es != []
    ensures Complete(T, [es[0]], d) && Complete(T, es[1..], d)
    ensures DirsFit(T, es, root, d) <==> DirsFit(T, [es[0]], root, d) && DirsFit(T, es[1..], root, d)
  {
    CompleteParts(T, es, d);
    assert es == [es[0]] + es[1..];
    assert forall i :: 0 <= i < |es[1..]| ==> es[1..][i] == es[i + 1];
  }

  /** A walk that nothing stops is the callback on all entries, in the order of the mode. */
  lemma {:induction false} WalkIsFold<S(!new)>(T: Store, es: seq<TreeEntry>, cb: Callback<S>, mode: WalkMode, s: S,
                                               root: Text, d: nat)
    requires Complete(T, es, d) && Continues(cb)
    ensures Finite(T, es, d)
    ensures var (ok, s') := Walk(T, es, cb, mode, s, root, d);
      && (ok <==> DirsFit(T, es, root, d))
      && (ok ==> s' == Fold(cb, Visits(T, es, mode, root, d), s))
    decreases d, 1, |es|
  {
    CompleteFinite(T, es, d);
    if es != [] {
      DirsFitParts(T, es, root, d);
      WalkItemIsFold(T, es[0], cb, mode, s, root, d);
      var step := WalkItem(T, es[0], cb, mode, s, root, d);
      WalkIsFold(T, es[1..], cb, mode, step.1, root, d);
      FoldJoin(cb, VisitItem(T, es[0], mode, root, d), Visits(T, es[1..], mode, root, d), s);
      hide WalkItem, VisitItem, Fold, Complete, Finite, DirsFit, Continues;
    }
  }

  lemma {:induction false} WalkItemIsFold<S(!new)>(T: Store, x: TreeEntry, cb: Callback<S>, mode: WalkMode, s: S,
                                                   root: Text, d: nat)
    requires Complete(T, [x], d) && Continues(cb)
    ensures Finite(T, [x], d)
    ensures var (ok, s') := WalkItem(T, x, cb, mode, s, root, d);
      && (ok <==> DirsFit(T, [x], root, d))
      && (ok ==> s' == Fold(cb, VisitItem(T, x, mode, root, d), s))
    decreases d, 0
  {
    CompleteFinite(T, [x], d);
    assert [x][0] == x;
    FoldOne(cb, (root, x), s);
    if IsDir(x.mode) {
      var sub, subpath := T[x.oid], Join(root, x.name);
      var below := Visits(T, sub, mode, subpath, d - 1);
      var start := if mode.Pre? then cb(root, x, s).1 else s;
      WalkIsFold(T, sub, cb, mode, start, subpath, d - 1);
      if mode.Pre? {
        FoldJoin(cb, [(root, x)], below, s);
      } else {
        FoldJoin(cb, below, [(root, x)], s);
        FoldOne(cb, (root, x), Fold(cb, below, s));
      }
      hide Fold, Walk, Visits;
    }
  }

  /** A pre-order callback that asks to skip every subtree sees the entries of the top level only. */
  ghost predicate Skips<S(!new)>(cb: Callback<S>) {
    forall root: Text, x: TreeEntry, s: S :: if IsDir(x.mode) then cb(root, x, s).0 < 0 else cb(root, x, s).0 == 0
  }

  function TopLevel(es: seq<TreeEntry>, root: Text): (vs: seq<Visit>)
    ensures |vs| == |es|
  {
    if es == [] then [] else [(root, es[0])] + TopLevel(es[1..], root)
  }

  lemma {:induction false} SkippingWalk<S(!new)>(T: Store, es: seq<TreeEntry>, cb: Callback<S>, s: S,
                                                 root: Text, d: nat)
    requires Finite(T, es, d) && Skips(cb)
    requires forall i :: 0 <= i < |es| && IsDir(es[i].mode) ==> |Join(root, es[i].name)| < PATH_MAX
    ensures Walk(T, es, cb, Pre, s, root, d) == (true, Fold(cb, TopLevel(es, root), s))
    decreases |es|
  {
    if es != [] {
      FiniteParts(T, es, d);
      assert forall i :: 0 <= i < |es[1..]| ==> es[1..][i] == es[i + 1];
      var x := es[0];
      FoldOne(cb, (root, x), s);
      SkippingWalk(T, es[1..], cb, cb(root, x, s).1, root, d);
      FoldJoin(cb, [(root, x)], TopLevel(es[1..], root), s);
    }
  }

  // ---------- the pre-order listing as a walk ----------

  function EntryOf(leaf: Leaf): IndexEntry {
    IndexEntry(0, 0, 0, 0, 0, 0, leaf.mode, 0, 0, 0, leaf.oid,
               if |leaf.path| < NAMEMASK then |leaf.path| else NAMEMASK, leaf.path)
  }

  function EntriesOf(leaves: seq<Leaf>): (es: seq<IndexEntry>)
    ensures |es| == |leaves|
    ensures forall i :: 0 <= i < |es| ==> es[i] == EntryOf(leaves[i])
  {
    seq(|leaves|, i requires 0 <= i < |leaves| => EntryOf(leaves[i]))
  }

  /** `tree_walk_cb`: skip trees, append everything else. */
  function TreeWalkCb(root: Text, x: TreeEntry, entries: seq<IndexEntry>): (int, seq<IndexEntry>) {
    if IsDir(x.mode) then (0, entries)
    else
      var fullpath := Join(root, x.name);
      if |fullpath| >= PATH_MAX then (1, entries)
      else (0, entries + [EntryOf(Leaf(fullpath, x.mode, x.oid))])
  }

  /** Every path the walk forms fits into PATH_MAX. */
  ghost predicate Fits(T: Store, es: seq<TreeEntry>, root: Text, d: nat)
    requires Complete(T, es, d)
    decreases d
  {
    forall i :: 0 <= i < |es| ==>
      && |Join(root, es[i].name)| < PATH_MAX
      && (IsDir(es[i].mode) ==> Fits(T, T[es[i].oid], Join(root, es[i].name), d - 1))
  }

  lemma {:induction false} CompleteFinite(T: Store, es: seq<TreeEntry>, d: nat)
    requires Complete(T, es, d)
    ensures Finite(T, es, d)
    decreases d
  {
    forall i | 0 <= i < |es| && IsDir(es[i].mode) ensures Finite(T, T[es[i].oid], d - 1) {
      CompleteFinite(T, T[es[i].oid], d - 1);
    }
  }

  /** Reading a complete tree appends its listing, and fails exactly when a path is too long. */
  lemma {:induction false} WalkLists(T: Store, es: seq<TreeEntry>, acc: seq<IndexEntry>, root: Text, d: nat)
    requires Complete(T, es, d)
    ensures Finite(T, es, d)
    ensures var walked := Walk(T, es, TreeWalkCb, Pre, acc, root, d);
            && (walked.0 <==> Fits(T, es, root, d))
            && (walked.0 ==> walked.1 == acc + EntriesOf(Flat(T, es, root, d)))
    decreases d, 1, |es|
  {
    CompleteFinite(T, es, d);
    if es == [] {
      assert acc + EntriesOf([]) == acc;
    } else {
      FiniteParts(T, es, d);
      FitsParts(T, es, root, d);
      hide Complete, Finite, Fits, Flat, FlatItem, WalkItem, TreeWalkCb, EntriesOf;
      var x, rest := es[0], es[1..];
      var step := WalkItem(T, x, TreeWalkCb, Pre, acc, root, d);
      ItemLists(T, x, acc, root, d);
      if step.0 {
        WalkLists(T, rest, step.1, root, d);
        EntriesConcat(acc, FlatItem(T, x, root, d), Flat(T, rest, root, d));
      }
    }
  }

  lemma {:induction false} ItemLists(T: Store, x: TreeEntry, acc: seq<IndexEntry>, root: Text, d: nat)
    requires Complete(T, [x], d) && Finite(T, [x], d)
    ensures var step := WalkItem(T, x, TreeWalkCb, Pre, acc, root, d);
            && (step.0 <==> Fits(T, [x], root, d))
            && (step.0 ==> step.1 == acc + EntriesOf(FlatItem(T, x, root, d)))
    decreases d, 0
  {
    hide Flat, Walk;
    assert [x][0] == x;
    if IsDir(x.mode) {
      WalkLists(T, T[x.oid], acc, Join(root, x.name), d - 1);
    } else {
      assert EntriesOf(FlatItem(T, x, root, d)) == [EntryOf(Leaf(Join(root, x.name), x.mode, x.oid))];
    }
  }

  lemma EntriesConcat(acc: seq<IndexEntry>, a: seq<Leaf>, b: seq<Leaf>)
    ensures acc + EntriesOf(a) + EntriesOf(b) == acc + EntriesOf(a + b)
  {
  }

  // ---------- reading back what was written ----------

  function LeafOf(e: IndexEntry): Leaf {
    Leaf(e.path, e.mode, e.oid)
  }

  ghost predicate IsLive(E: seq<IndexEntry>, i: nat)
    requires i < |E|
  {
    Staged(E[i]) && !Shadowed(E, 0, |E|, E[i].path)
  }

  /** The stage-0 entries not overwritten by a directory, in index order. */
  ghost function LiveLeaves(E: seq<IndexEntry>, from: nat := 0): seq<Leaf>
    decreases |E| - from
  {
    if from >= |E| then []
    else (if IsLive(E, from) then [LeafOf(E[from])] else []) + LiveLeaves(E, from + 1)
  }

  ghost predicate LiveAt(E: seq<IndexEntry>, i: nat, leaf: Leaf)
    requires i < |E|
  {
    IsLive(E, i) && LeafOf(E[i]) == leaf
  }

  lemma {:induction false} LiveLeavesMembers(E: seq<IndexEntry>, from: nat, leaf: Leaf)
    ensures leaf in LiveLeaves(E, from) <==> exists i :: from <= i < |E| && LiveAt(E, i, leaf)
    decreases |E| - from
  {
    hide *;
    LiveLeavesStep(E, from, leaf);
    if from < |E| { LiveLeavesMembers(E, from + 1, leaf); }
  }

  lemma {:induction false} LiveLeavesStep(E: seq<IndexEntry>, from: nat, leaf: Leaf)
    ensures leaf in LiveLeaves(E, from) <==>
      from < |E| && (LiveAt(E, from, leaf) || leaf in LiveLeaves(E, from + 1))
  {
    hide Shadowed, Staged;
  }

  lemma LiveLeavesAreLive(E: seq<IndexEntry>, leaf: Leaf)
    ensures leaf in LiveLeaves(E) <==> Live(E, 0, |E|, leaf.path, leaf.mode, leaf.oid)
  {
    LiveLeavesMembers(E, 0, leaf);
    if Live(E, 0, |E|, leaf.path, leaf.mode, leaf.oid) {
      var j :| 0 <= j < |E| && Staged(E[j]) && E[j].path == leaf.path && E[j].mode == leaf.mode && E[j].oid == leaf.oid;
      assert LiveAt(E, j, leaf);
    }
  }

  lemma {:induction false} LiveLeavesSorted(E: seq<IndexEntry>, from: nat)
    requires Ordered(E)
    ensures StrictlySorted(LiveLeaves(E, from), PathOf)
    decreases |E| - from
  {
    if from < |E| {
      LiveLeavesSorted(E, from + 1);
      if IsLive(E, from) {
        forall x, y | x in [LeafOf(E[from])] && y in LiveLeaves(E, from + 1)
          ensures Less(PathOf(x), PathOf(y))
        {
          LiveLeavesMembers(E, from + 1, y);
        }
        SortedConcat([LeafOf(E[from])], LiveLeaves(E, from + 1), PathOf);
      } else {
        assert [] + LiveLeaves(E, from + 1) == LiveLeaves(E, from + 1);
      }
    }
  }

  /** No stage-0 path starts with '/'. */
  predicate NoLeadingSlash(E: seq<IndexEntry>) {
    forall i :: 0 <= i < |E| && Staged(E[i]) ==> !([SLASH] <= E[i].path)
  }

  lemma RootNamesKept(T: Store, oid: Oid, E: seq<IndexEntry>, d: nat, id: seq<TreeEntry> -> Oid)
    requires Encodes(T, oid, E, 0, |E|, [], d, id) && NoLeadingSlash(E)
    ensures RootNamed(T[oid], [])
  {
    var es := T[oid];
    forall i | 0 <= i < |es| && IsDir(es[i].mode) ensures es[i].name != [] {
      var leaf := SomeLeaf(T, es, d, id, i);
      assert Has(T, es, leaf.path, leaf.mode, leaf.oid);
      assert [] + leaf.path == leaf.path;
      assert Live(E, 0, |E|, leaf.path, leaf.mode, leaf.oid);
      assert Key(es[i]) <= leaf.path && Key(es[i]) == es[i].name + [SLASH];
    }
  }

  lemma EncodesParts(T: Store, oid: Oid, E: seq<IndexEntry>, d: nat, id: seq<TreeEntry> -> Oid)
    requires Encodes(T, oid, E, 0, |E|, [], d, id)
    ensures oid in T && Complete(T, T[oid], d) && Canonical(T, T[oid], d, id) && DeepSorted(T, T[oid], d)
  {
    CanonicalDeepSorted(T, T[oid], d, id);
  }

  lemma EncodesLeaf(T: Store, oid: Oid, E: seq<IndexEntry>, d: nat, id: seq<TreeEntry> -> Oid, leaf: Leaf)
    requires Encodes(T, oid, E, 0, |E|, [], d, id) && oid in T
    ensures Has(T, T[oid], leaf.path, leaf.mode, leaf.oid) <==> Live(E, 0, |E|, leaf.path, leaf.mode, leaf.oid)
  {
    hide Has, Live, Complete, Canonical;
    assert [] + leaf.path == leaf.path;
  }

  lemma RootLeaf(T: Store, es: seq<TreeEntry>, d: nat, leaf: Leaf)
    requires Complete(T, es, d) && RootNamed(es, [])
    ensures leaf in Flat(T, es, [], d) <==> Has(T, es, leaf.path, leaf.mode, leaf.oid)
  {
    hide Has, Flat, Complete;
    FlatMembers(T, es, [], d, leaf);
    assert leaf.path[0..] == leaf.path;
  }

  /** Reading the written tree lists exactly the live entries, in index order. */
  lemma {:induction false} ReadsBack(T: Store, oid: Oid, E: seq<IndexEntry>, d: nat, id: seq<TreeEntry> -> Oid)
    requires Buildable(E) && Encodes(T, oid, E, 0, |E|, [], d, id) && NoLeadingSlash(E)
    ensures oid in T && Complete(T, T[oid], d) && Flat(T, T[oid], [], d) == LiveLeaves(E)
  {
    hide *;
    EncodesParts(T, oid, E, d, id);
    var flat, live := Flat(T, T[oid], [], d), LiveLeaves(E, 0);
    RootNamesKept(T, oid, E, d, id);
    FlatSorted(T, T[oid], [], d);
    BuildableOrdered(E);
    LiveLeavesSorted(E, 0);
    forall leaf ensures leaf in flat <==> leaf in live {
      RootLeaf(T, T[oid], d, leaf);
      EncodesLeaf(T, oid, E, d, id, leaf);
      LiveLeavesAreLive(E, leaf);
    }
    SortedUnique(flat, live, PathOf);
  }

  lemma BuildableOrdered(E: seq<IndexEntry>)
    requires Buildable(E)
    ensures Ordered(E)
  {
  }

  /** A walk never forms a path that starts with '/'. */
  lemma {:induction false} FlatNoLeadingSlash(T: Store, es: seq<TreeEntry>, root: Text, d: nat, leaf: Leaf)
    requires Complete(T, es, d) && DeepSorted(T, es, d)
    requires !([SLASH] <= root) && leaf in Flat(T, es, root, d)
    ensures !([SLASH] <= leaf.path)
    decreases d, |es|
  {
    var x, rest := es[0], es[1..];
    assert forall i :: 0 <= i < |rest| ==> rest[i] == es[i + 1];
    assert [x][0] == x;
    assert ValidName(x.name) && (x.name != [] ==> x.name[0] != SLASH);
    assert root != [] ==> Join(root, x.name)[0] == root[0];
    if leaf in FlatItem(T, x, root, d) {
      if IsDir(x.mode) { FlatNoLeadingSlash(T, T[x.oid], Join(root, x.name), d - 1, leaf); }
    } else {
      FlatNoLeadingSlash(T, rest, root, d, leaf);
    }
  }

  /** So many times '/'. */
  function Slashes(n: nat): (s: Text)
    ensures |s| == n && forall i :: 0 <= i < n ==> s[i] == SLASH
  {
    seq(n, _ => SLASH)
  }

  /** An entry holds the leaf once so many '/' stand before its path. */
  ghost predicate HeldBehind(T: Store, x: TreeEntry, leaf: Leaf, n: nat) {
    ItemHas(T, x, Slashes(n) + leaf.path, leaf.mode, leaf.oid)
  }

  ghost predicate FoundBehind(T: Store, es: seq<TreeEntry>, leaf: Leaf, n: nat) {
    Has(T, es, Slashes(n) + leaf.path, leaf.mode, leaf.oid)
  }

  ghost predicate Relative(path: Text) {
    !([SLASH] <= path)
  }

  lemma {:induction false} ListedItem(T: Store, x: TreeEntry, d: nat, leaf: Leaf)
    requires Complete(T, [x], d) && ValidName(x.name)
    requires IsDir(x.mode) ==> x.oid in T && d > 0 && Complete(T, T[x.oid], d - 1) && DeepSorted(T, T[x.oid], d - 1)
    ensures leaf in FlatItem(T, x, [], d) <==> Relative(leaf.path) && exists n: nat :: HeldBehind(T, x, leaf, n)
    decreases d, 0
  {
    if IsDir(x.mode) && x.name == [] {
      ListedExactly(T, T[x.oid], d - 1, leaf);
      if Relative(leaf.path) { BelowNameless(T, x, leaf); }
    } else {
      FlatItemMembers(T, x, [], d, leaf);
      hide ItemHas, FlatItem;
      assert leaf.path[0..] == leaf.path && Slashes(0) + leaf.path == leaf.path;
      assert ItemHas(T, x, leaf.path, leaf.mode, leaf.oid) <==> HeldBehind(T, x, leaf, 0);
      forall n: nat | HeldBehind(T, x, leaf, n) ensures n == 0 && Relative(leaf.path) {
        NamedHolds(T, x, leaf, n);
      }
    }
  }

  lemma SlashesFirst(n: nat, path: Text)
    ensures n > 0 ==> (Slashes(n) + path)[0] == SLASH
    ensures n == 0 ==> Slashes(n) + path == path
  {
  }

  /** What an entry with a name holds has a path that starts with the name. */
  lemma NamedHolds(T: Store, x: TreeEntry, leaf: Leaf, n: nat)
    requires ValidName(x.name) && (x.name != [] || !IsDir(x.mode)) && HeldBehind(T, x, leaf, n)
    ensures n == 0 && Relative(leaf.path)
  {
    hide Has;
    var rel := Slashes(n) + leaf.path;
    SlashesFirst(n, leaf.path);
    assert x.name <= rel && (x.name == [] ==> rel == []);
    assert x.name != [] ==> rel[0] == x.name[0] && x.name[0] != SLASH;
  }

  /** A directory without a name takes one '/' away. */
  lemma BelowNameless(T: Store, x: TreeEntry, leaf: Leaf)
    requires IsDir(x.mode) && x.name == [] && x.oid in T && Relative(leaf.path)
    ensures (exists n: nat :: HeldBehind(T, x, leaf, n)) <==> exists n: nat :: FoundBehind(T, T[x.oid], leaf, n)
  {
    assert Key(x) == [SLASH];
    forall n: nat ensures HeldBehind(T, x, leaf, n) <==> n > 0 && FoundBehind(T, T[x.oid], leaf, n - 1) {
      var rel := Slashes(n) + leaf.path;
      if n > 0 {
        assert rel[0] == SLASH && rel[1..] == Slashes(n - 1) + leaf.path;
      } else {
        assert rel == leaf.path;
      }
    }
    if n: nat :| FoundBehind(T, T[x.oid], leaf, n) { assert HeldBehind(T, x, leaf, n + 1); }
  }

  /**
   * The listing of any tree in Git tree order, whatever its names: the paths that do not start with
   * '/', of all leaves that are found once some number of '/' stands before the path.
   */
  lemma {:induction false} ListedExactly(T: Store, es: seq<TreeEntry>, d: nat, leaf: Leaf)
    requires Complete(T, es, d) && DeepSorted(T, es, d)
    ensures leaf in Flat(T, es, [], d) <==> Relative(leaf.path) && exists n: nat :: FoundBehind(T, es, leaf, n)
    decreases d, 1, |es|
  {
    if es == [] {
      assert forall n: nat :: !FoundBehind(T, es, leaf, n);
    } else {
      var x, rest := es[0], es[1..];
      SortedRest(T, es, d);
      ListedItem(T, x, d, leaf);
      ListedExactly(T, rest, d, leaf);
      assert Flat(T, es, [], d) == FlatItem(T, x, [], d) + Flat(T, rest, [], d);
      hide ItemHas, Flat, FlatItem, DeepSorted, Complete, Slashes, Relative;
      forall n: nat
        ensures FoundBehind(T, es, leaf, n) <==> HeldBehind(T, x, leaf, n) || FoundBehind(T, rest, leaf, n)
      {
        HasParts(T, es, Slashes(n) + leaf.path, leaf.mode, leaf.oid);
      }
    }
  }

  lemma HasParts(T: Store, es: seq<TreeEntry>, rel: Text, mode: nat, oid: Oid)
    requires es != []
    ensures Has(T, es, rel, mode, oid) <==> ItemHas(T, es[0], rel, mode, oid) || Has(T, es[1..], rel, mode, oid)
  {
    hide ItemHas;
    assert forall i :: 0 <= i < |es[1..]| ==> es[1..][i] == es[i + 1];
    if Has(T, es, rel, mode, oid) {
      var i :| 0 <= i < |es| && ItemHas(T, es[i], rel, mode, oid);
      assert i > 0 ==> ItemHas(T, es[1..][i - 1], rel, mode, oid);
    }
  }

  lemma SortedRest(T: Store, es: seq<TreeEntry>, d: nat)
    requires Complete(T, es, d) && DeepSorted(T, es, d) && es != []
    ensures Complete(T, es[1..], d) && DeepSorted(T, es[1..], d)
    ensures Complete(T, [es[0]], d) && ValidName(es[0].name)
    ensures var x := es[0];
      IsDir(x.mode) ==> x.oid in T && d > 0 && Complete(T, T[x.oid], d - 1) && DeepSorted(T, T[x.oid], d - 1)
  {
    assert forall i :: 0 <= i < |es[1..]| ==> es[1..][i] == es[i + 1];
    assert [es[0]][0] == es[0];
  }

  /**
   * What comes back from a tree written from any index: the live entries, without the '/' their
   * paths start with.
   */
  lemma {:induction false} ReadsBackStripped(T: Store, oid: Oid, E: seq<IndexEntry>, d: nat,
                                             id: seq<TreeEntry> -> Oid, leaf: Leaf)
    requires Encodes(T, oid, E, 0, |E|, [], d, id)
    ensures oid in T && Complete(T, T[oid], d)
    ensures leaf in Flat(T, T[oid], [], d) <==>
      Relative(leaf.path) && exists n: nat :: Live(E, 0, |E|, Slashes(n) + leaf.path, leaf.mode, leaf.oid)
  {
    EncodesParts(T, oid, E, d, id);
    hide Encodes, Has, Flat, Complete, DeepSorted, Live, Slashes, Relative;
    ListedExactly(T, T[oid], d, leaf);
    forall n: nat ensures FoundBehind(T, T[oid], leaf, n)
      <==> Live(E, 0, |E|, Slashes(n) + leaf.path, leaf.mode, leaf.oid)
    {
      EncodesLeaf(T, oid, E, d, id, leaf.(path := Slashes(n) + leaf.path));
    }
  }

  /** A longest stage-0 path with the same beginning is live. */
  lemma LiveBelow(E: seq<IndexEntry>, i: nat, lead: Text) returns (j: nat)
    requires i < |E| && Staged(E[i]) && lead <= E[i].path
    ensures j < |E| && IsLive(E, j) && lead <= E[j].path
    decreases MaxPathLen(E) - |E[i].path|
  {
    if Shadowed(E, 0, |E|, E[i].path) {
      var k :| 0 <= k < |E| && Staged(E[k]) && E[i].path + [SLASH] <= E[k].path;
      assert PathsWithin(E, MaxPathLen(E));
      assert |E[k].path| > |E[i].path|;
      assert lead <= E[i].path <= E[i].path + [SLASH];
      j := LiveBelow(E, k, lead);
    } else {
      j := i;
    }
  }

  /** The exact condition: the listing is that of the live entries if and only if no path starts with '/'. */
  lemma ReadsBackExactly(T: Store, oid: Oid, E: seq<IndexEntry>, d: nat, id: seq<TreeEntry> -> Oid)
    requires Buildable(E) && Encodes(T, oid, E, 0, |E|, [], d, id)
    ensures Flat(T, T[oid], [], d) == LiveLeaves(E) <==> NoLeadingSlash(E)
  {
    if NoLeadingSlash(E) {
      ReadsBack(T, oid, E, d, id);
    } else {
      var i :| 0 <= i < |E| && Staged(E[i]) && [SLASH] <= E[i].path;
      var j := LiveBelow(E, i, [SLASH]);
      var leaf := LeafOf(E[j]);
      LiveLeavesMembers(E, 0, leaf);
      assert LiveAt(E, j, leaf);
      CanonicalDeepSorted(T, T[oid], d, id);
      if leaf in Flat(T, T[oid], [], d) {
        FlatNoLeadingSlash(T, T[oid], [], d, leaf);
      }
    }
  }

  /** No stage-0 path is a directory of another stage-0 path. */
  ghost predicate NoClash(E: seq<IndexEntry>) {
    forall i :: 0 <= i < |E| && Staged(E[i]) ==> !Shadowed(E, 0, |E|, E[i].path)
  }

  /** The leaves of all stage-0 entries, in index order. */
  function StagedLeaves(E: seq<IndexEntry>, from: nat := 0): seq<Leaf>
    decreases |E| - from
  {
    if from >= |E| then []
    else (if Staged(E[from]) then [LeafOf(E[from])] else []) + StagedLeaves(E, from + 1)
  }

  /** Without clashes nothing staged is lost. */
  lemma {:induction false} NoClashAllLive(E: seq<IndexEntry>, from: nat)
    requires NoClash(E)
    ensures LiveLeaves(E, from) == StagedLeaves(E, from)
    decreases |E| - from
  {
    if from < |E| { NoClashAllLive(E, from + 1); }
  }

  /** The root tree's name depends on the live entries alone: not on the index, the store or its history. */
  lemma {:induction false} SameLiveSameTree(T: Store, oid: Oid, E: seq<IndexEntry>, d: nat,
                         T': Store, oid': Oid, E': seq<IndexEntry>, d': nat, id: seq<TreeEntry> -> Oid)
    requires Encodes(T, oid, E, 0, |E|, [], d, id) && Encodes(T', oid', E', 0, |E'|, [], d', id)
    requires forall leaf :: leaf in LiveLeaves(E) <==> leaf in LiveLeaves(E')
    ensures oid == oid'
  {
    forall rel, mode, oid1 ensures Has(T, T[oid], rel, mode, oid1) <==> Has(T', T'[oid'], rel, mode, oid1) {
      var leaf := Leaf(rel, mode, oid1);
      assert [] + rel == rel;
      LiveLeavesAreLive(E, leaf);
      LiveLeavesAreLive(E', leaf);
    }
    CanonicalUnique(T, T[oid], d, T', T'[oid'], d', id);
  }

  /** Among leaves read back from an index none shadows another, so all of them are live again. */
  lemma LiveAgain(E: seq<IndexEntry>, leaf: Leaf)
    ensures leaf in LiveLeaves(EntriesOf(LiveLeaves(E))) <==> leaf in LiveLeaves(E)
  {
    var live := LiveLeaves(E);
    var E' := EntriesOf(live);
    assert forall i :: 0 <= i < |E'| ==> Staged(E'[i]) && LeafOf(E'[i]) == live[i];
    forall i | 0 <= i < |E'| ensures !Shadowed(E', 0, |E'|, E'[i].path) {
      LiveLeavesAreLive(E, live[i]);
      forall k | 0 <= k < |E'| ensures !(E'[i].path + [SLASH] <= E'[k].path) {
        LiveLeavesAreLive(E, live[k]);
      }
    }
    assert forall i :: 0 <= i < |E'| ==> LiveAt(E', i, live[i]);
    LiveLeavesMembers(E', 0, leaf);
  }

  ghost predicate PathsFit(leaves: seq<Leaf>) {
    forall leaf :: leaf in leaves ==> |leaf.path| < PATH_MAX
  }

  lemma FitsParts(T: Store, es: seq<TreeEntry>, root: Text, d: nat)
    requires Complete(T, es, d) && es != []
    ensures Complete(T, [es[0]], d) && Complete(T, es[1..], d)
    ensures Fits(T, es, root, d) <==> Fits(T, [es[0]], root, d) && Fits(T, es[1..], root, d)
    ensures Flat(T, es, root, d) == FlatItem(T, es[0], root, d) + Flat(T, es[1..], root, d)
  {
    assert forall i :: 0 <= i < |es[1..]| ==> es[1..][i] == es[i + 1];
    assert es == [es[0]] + es[1..];
  }

  /** A directory's own path is shorter than that of some leaf below it. */
  lemma LongerBelow(T: Store, x: TreeEntry, root: Text, d: nat, id: seq<TreeEntry> -> Oid)
    requires Complete(T, [x], d) && Canonical(T, [x], d, id) && RootNamed([x], root) && IsDir(x.mode)
    ensures exists leaf :: leaf in FlatItem(T, x, root, d) && |Join(root, x.name)| < |leaf.path|
  {
    assert [x][0] == x;
    var path := Join(root, x.name);
    LeadJoin(root, x);
    var rel := SomeLeaf(T, T[x.oid], d - 1, id, 0);
    var leaf := Leaf(Lead(path) + rel.path, rel.mode, rel.oid);
    assert leaf.path[|Lead(path)|..] == rel.path;
    assert Has(T, T[x.oid], rel.path, rel.mode, rel.oid);
    FlatMembers(T, T[x.oid], path, d - 1, leaf);
    assert leaf in FlatItem(T, x, root, d);
  }

  lemma FitsItem(T: Store, x: TreeEntry, root: Text, d: nat, id: seq<TreeEntry> -> Oid)
    requires Complete(T, [x], d) && Canonical(T, [x], d, id) && RootNamed([x], root)
    requires IsDir(x.mode) ==>
      && x.oid in T && d > 0 && Complete(T, T[x.oid], d - 1)
      && (Fits(T, T[x.oid], Join(root, x.name), d - 1) <==> PathsFit(Flat(T, T[x.oid], Join(root, x.name), d - 1)))
    ensures Fits(T, [x], root, d) <==> PathsFit(FlatItem(T, x, root, d))
  {
    assert [x][0] == x;
    var path := Join(root, x.name);
    if IsDir(x.mode) {
      LongerBelow(T, x, root, d, id);
    } else {
      assert Leaf(path, x.mode, x.oid) in FlatItem(T, x, root, d);
    }
  }

  lemma CanonicalParts(T: Store, es: seq<TreeEntry>, root: Text, d: nat, id: seq<TreeEntry> -> Oid)
    requires Complete(T, es, d) && Canonical(T, es, d, id) && RootNamed(es, root) && es != []
    ensures Complete(T, [es[0]], d) && Canonical(T, [es[0]], d, id) && RootNamed([es[0]], root)
    ensures Complete(T, es[1..], d) && Canonical(T, es[1..], d, id) && RootNamed(es[1..], root)
    ensures IsDir(es[0].mode) ==>
      && es[0].oid in T && d > 0 && Complete(T, T[es[0].oid], d - 1) && Canonical(T, T[es[0].oid], d - 1, id)
      && RootNamed(T[es[0].oid], Join(root, es[0].name))
  {
    assert forall i :: 0 <= i < |es[1..]| ==> es[1..][i] == es[i + 1];
  }

  lemma NothingFits(T: Store, root: Text, d: nat)
    ensures Complete(T, [], d) && Fits(T, [], root, d) && PathsFit(Flat(T, [], root, d))
  {
  }

  lemma PathsFitJoin(a: seq<Leaf>, b: seq<Leaf>)
    ensures PathsFit(a + b) <==> PathsFit(a) && PathsFit(b)
  {
  }

  /** In a canonical tree the walk's paths fit exactly when the leaves' paths do. */
  lemma {:induction false} FitsByLeaves(T: Store, es: seq<TreeEntry>, root: Text, d: nat, id: seq<TreeEntry> -> Oid)
    requires Complete(T, es, d) && Canonical(T, es, d, id) && RootNamed(es, root)
    ensures Fits(T, es, root, d) <==> PathsFit(Flat(T, es, root, d))
    decreases d, |es|
  {
    hide *;
    if es == [] {
      NothingFits(T, root, d);
    } else {
      var x := es[0];
      CanonicalParts(T, es, root, d, id);
      FitsParts(T, es, root, d);
      PathsFitJoin(FlatItem(T, x, root, d), Flat(T, es[1..], root, d));
      FitsByLeaves(T, es[1..], root, d, id);
      if IsDir(x.mode) { FitsByLeaves(T, T[x.oid], Join(root, x.name), d - 1, id); }
      FitsItem(T, x, root, d, id);
    }
  }

  /** `qgit_index_read_tree`: on failure the index is left alone. */
  method ReadTree(index: Index, odb: Odb, tree: seq<TreeEntry>, ghost d: nat) returns (ok: bool)
    requires Finite(odb.Trees(), tree, d)
    modifies index`entries
    ensures ok == Walk(odb.Trees(), tree, TreeWalkCb, Pre, [], [], d).0
    ensures index.entries == if ok then Walk(odb.Trees(), tree, TreeWalkCb, Pre, [], [], d).1 else old(index.entries)
    ensures Complete(odb.Trees(), tree, d) ==>
      && (ok <==> Fits(odb.Trees(), tree, [], d))
      && (ok ==> index.entries == EntriesOf(Flat(odb.Trees(), tree, [], d)))
  {
    ghost var T := odb.Trees();
    var entries: seq<IndexEntry>;
    ok, entries := Foreach(odb, tree, TreeWalkCb, Pre, [], [], d);
    if Complete(T, tree, d) {
      WalkLists(T, tree, [], [], d);
      assert [] + EntriesOf(Flat(T, tree, [], d)) == EntriesOf(Flat(T, tree, [], d));
    }
    if ok { index.entries := entries; }
  }

  /** Every live path fits into PATH_MAX. */
  ghost predicate LivePathsFit(E: seq<IndexEntry>) {
    PathsFit(LiveLeaves(E))
  }

  /**
   * `read-tree` of a tree written from an index: the listing comes back, which is that of exactly the
   * live entries unless some path starts with '/'.
   */
  method RestoreIndex(index: Index, odb: Odb, oid: Oid, ghost E: seq<IndexEntry>, ghost d: nat) returns (ok: bool)
    requires Buildable(E) && Encodes(odb.Trees(), oid, E, 0, |E|, [], d, IdOf(odb.sha1))
    modifies index`entries
    ensures var T := odb.Trees();
      && oid in T && Complete(T, T[oid], d) && (ok <==> Fits(T, T[oid], [], d))
      && index.entries == if ok then EntriesOf(Flat(T, T[oid], [], d)) else old(index.entries)
    ensures NoLeadingSlash(E) ==>
      (ok <==> LivePathsFit(E)) && (ok ==> index.entries == EntriesOf(LiveLeaves(E)))
  {
    ghost var T, id := odb.Trees(), IdOf(odb.sha1);
    EncodesTree(T, oid, E, d, id);
    hide *;
    var tree := odb.LookupTree(oid);
    ok := ReadTree(index, odb, tree.value, d);
  }

  lemma {:induction false} EncodesTree(T: Store, oid: Oid, E: seq<IndexEntry>, d: nat, id: seq<TreeEntry> -> Oid)
    requires Buildable(E) && Encodes(T, oid, E, 0, |E|, [], d, id)
    ensures oid in T && Complete(T, T[oid], d) && Finite(T, T[oid], d)
    ensures NoLeadingSlash(E) ==>
      Flat(T, T[oid], [], d) == LiveLeaves(E) && (Fits(T, T[oid], [], d) <==> LivePathsFit(E))
  {
    hide *;
    EncodesParts(T, oid, E, d, id);
    CompleteFinite(T, T[oid], d);
    if NoLeadingSlash(E) {
      ReadsBack(T, oid, E, d, id);
      RootNamesKept(T, oid, E, d, id);
      FitsByLeaves(T, T[oid], [], d, id);
      LiveFit(E);
    }
  }

  lemma LiveFit(E: seq<IndexEntry>)
    ensures LivePathsFit(E) <==> PathsFit(LiveLeaves(E))
  {
  }

  /** Writing the index that was read back gives the same root tree name. */
  lemma {:induction false} RewriteSameTree(T: Store, oid: Oid, E: seq<IndexEntry>, d: nat,
                        T': Store, oid': Oid, E': seq<IndexEntry>, d': nat, id: seq<TreeEntry> -> Oid)
    requires Encodes(T, oid, E, 0, |E|, [], d, id) && Encodes(T', oid', E', 0, |E'|, [], d', id)
    requires E' == EntriesOf(LiveLeaves(E))
    ensures oid == oid'
  {
    forall leaf ensures leaf in LiveLeaves(E) <==> leaf in LiveLeaves(E') {
      LiveAgain(E, leaf);
    }
    SameLiveSameTree(T, oid, E, d, T', oid', E', d', id);
  }

  /** Entries made of leaves in the order of their paths are in index order: sorting them changes nothing. */
  lemma {:induction false} SortedLeaves(leaves: seq<Leaf>, sorted: seq<IndexEntry>)
    requires StrictlySorted(leaves, PathOf)
    requires multiset(sorted) == multiset(EntriesOf(leaves)) && SortedBy(sorted, IndexEntryCmp)
    ensures sorted == EntriesOf(leaves) && Ordered(sorted) && UniqueSlots(sorted)
  {
    var listed := EntriesOf(leaves);
    forall i, j | 0 <= i < j < |listed|
      ensures Less(listed[i].path, listed[j].path) && !SameSlot(listed[i], listed[j])
    {
      assert Less(PathOf(leaves[i]), PathOf(leaves[j]));
      LessAsymmetric(listed[i].path, listed[j].path);
    }
    SortedIsOrdered(listed, sorted);
    PermutationMembers(listed, sorted);
    forall i, j | 0 <= i < j < |sorted| ensures Less(sorted[i].path, sorted[j].path) {
      assert sorted[i] in listed && sorted[j] in listed;
    }
    SortedUnique(sorted, listed, EntryPath);
  }

  /** A freshly read index is already in index order: sorting it changes nothing. */
  lemma {:induction false} FreshIndexSorted(T: Store, es: seq<TreeEntry>, d: nat, sorted: seq<IndexEntry>)
    requires Complete(T, es, d) && DeepSorted(T, es, d) && RootNamed(es, [])
    requires multiset(sorted) == multiset(EntriesOf(Flat(T, es, [], d))) && SortedBy(sorted, IndexEntryCmp)
    ensures sorted == EntriesOf(Flat(T, es, [], d)) && Ordered(sorted) && UniqueSlots(sorted)
  {
    hide *;
    FlatSorted(T, es, [], d);
    SortedLeaves(Flat(T, es, [], d), sorted);
  }

  /** The entries read back from a written index can be written again. */
  lemma LiveWellFormed(E: seq<IndexEntry>)
    requires StagedWellFormed(E)
    ensures StagedWellFormed(EntriesOf(LiveLeaves(E)))
  {
    var live := LiveLeaves(E);
    var again := EntriesOf(live);
    forall i | 0 <= i < |again| ensures IsCString(again[i].path) && !IsDir(again[i].mode) && again[i].mode < UINT {
      assert live[i] in live;
      LiveLeavesMembers(E, 0, live[i]);
    }
  }

  function EntryPath(e: IndexEntry): Text { e.path }

  /** An index read from a tree survives being written to its file and parsed again. */
  lemma {:induction false} FreshIndexStored(sha1: Text -> Oid, leaves: seq<Leaf>)
    requires |leaves| < IndexCodec.WORD
    requires forall i :: 0 <= i < |leaves| ==> IsCString(leaves[i].path) && leaves[i].mode < IndexCodec.WORD
    ensures var es := EntriesOf(leaves);
      IndexCodec.ParseIndex(sha1, IndexCodec.PrintIndex(sha1, INDEX_VERSION, es)) == Some(es)
  {
    var es := EntriesOf(leaves);
    hide IndexCodec.ParseIndex, IndexCodec.PrintIndex;
    IndexCodec.IndexRoundTrip(sha1, INDEX_VERSION, es);
    assert IndexCodec.StoredAll(es) == es;
  }
}
