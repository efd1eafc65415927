/** In which order a revision walk emits commits: exact conditions (revwalk_next.c, revwalk_new.c). */
module RevOrder {
  import opened Bytes
  import opened Heap
  import opened RevWalk
  import opened Sorting

  /** `out` is a possible emission of a walk from `start`, finished or not. */
  ghost predicate Runs(repo: Repo, mode: Mode, start: Oid, out: seq<Commit>) {
    WellKeyed(repo) && start in repo && Emits(repo, mode, StartAt(repo[start]), out)
  }

  ghost function After(repo: Repo, mode: Mode, start: Oid, out: seq<Commit>): State
    requires start in repo
  {
    StateAfter(repo, mode, StartAt(repo[start]), out)
  }

  ghost predicate Done(out: seq<Commit>, o: Oid) {
    exists k: nat :: k < |out| && out[k].id == o
  }

  // ---------- one moment of a run ----------

  lemma {:induction false} RunPrefix(repo: Repo, mode: Mode, start: Oid, out: seq<Commit>, e: nat)
    requires Runs(repo, mode, start, out) && e <= |out|
    ensures Runs(repo, mode, start, out[..e])
    decreases |out|
  {
    hide WellKeyed, LeastIn, Emit, StateAfter;
    if e == |out| {
      assert out[..e] == out;
    } else {
      var init := out[..|out| - 1];
      RunPrefix(repo, mode, start, init, e);
      assert init[..e] == out[..e];
    }
  }

  /** Each emitted commit was a newest one of the frontier. */
  lemma {:induction false} EmittedAt(repo: Repo, mode: Mode, start: Oid, out: seq<Commit>, e: nat)
    requires Runs(repo, mode, start, out) && e < |out|
    ensures Runs(repo, mode, start, out[..e])
    ensures LeastIn(out[e], After(repo, mode, start, out[..e]).frontier, CmpTime)
  {
    hide WellKeyed, LeastIn, Emit, StateAfter;
    RunPrefix(repo, mode, start, out, e);
    RunPrefix(repo, mode, start, out, e + 1);
    assert out[..e + 1][..e] == out[..e];
  }

  lemma {:induction false} DonePrefix(out: seq<Commit>, e: nat, f: nat, o: Oid)
    requires e <= f <= |out| && Done(out[..e], o)
    ensures Done(out[..f], o)
  {
    var k: nat :| k < e && out[..e][k].id == o;
    assert out[..f][k].id == o;
  }

  /** A commit that is the start or a parent of an emitted one, and not yet emitted, waits in the frontier. */
  lemma {:induction false} Waiting(repo: Repo, mode: Mode, start: Oid, out: seq<Commit>, o: Oid, child: Oid)
    requires Runs(repo, mode, start, out) && !Done(out, o)
    requires o == start || (Done(out, child) && child in repo && o in Followed(repo[child], mode))
    ensures o in repo && repo[o] in After(repo, mode, start, out).frontier
  {
    hide Emits, StateAfter, Reachable, Followed;
    RunInv(repo, mode, start, out);
    if o != start {
      var k: nat :| k < |out| && out[k].id == child;
      assert out[k] in out;
    }
    assert forall c :: c in out ==> Done(out, c.id) by { EmittedDone(out); }
  }

  lemma {:induction false} EmittedDone(out: seq<Commit>)
    ensures forall c :: c in out ==> Done(out, c.id)
  {
  }

  /** So what is emitted meanwhile is at least as new. */
  lemma {:induction false} Passed(repo: Repo, mode: Mode, start: Oid, out: seq<Commit>, e: nat, o: Oid, child: Oid)
    requires Runs(repo, mode, start, out) && e < |out| && !Done(out[..e], o)
    requires o == start || (Done(out[..e], child) && child in repo && o in Followed(repo[child], mode))
    ensures o in repo && repo[o].time <= out[e].time
  {
    var m := After(repo, mode, start, out[..e]).frontier;
    assert forall t :: NoneNewer(m, t) && o in repo && repo[o] in m ==> repo[o].time <= t;
    hide Runs, Done, After, Followed, LeastIn, NoneNewer;
    EmittedAt(repo, mode, start, out, e);
    Waiting(repo, mode, start, out[..e], o, child);
    Newest(out[e], m);
  }

  /** The first commit of a path that has not been emitted. */
  lemma {:induction false} FirstLeft(out: seq<Commit>, p: seq<Oid>, last: nat) returns (s: nat)
    requires last < |p| && !Done(out, p[last])
    ensures s <= last && !Done(out, p[s])
    ensures forall l :: 0 <= l < s ==> Done(out, p[l])
  {
    hide Done;
    s := 0;
    while Done(out, p[s])
      invariant s <= last
      invariant forall l :: 0 <= l < s ==> Done(out, p[l])
      decreases last - s
    {
      s := s + 1;
    }
  }

  /** Of a path to a commit not yet emitted, some commit waits, so what is emitted is at least as new as that one. */
  lemma {:induction false} PathAhead(repo: Repo, mode: Mode, start: Oid, out: seq<Commit>, e: nat,
                                     p: seq<Oid>, last: nat) returns (s: nat)
    requires Runs(repo, mode, start, out) && e < |out|
    requires Path(repo, mode, p) && (p[0] == start || Done(out[..e], p[0]))
    requires last < |p| && !Done(out[..e], p[last])
    ensures s <= last && !Done(out[..e], p[s]) && forall l :: 0 <= l < s ==> Done(out[..e], p[l])
    ensures p[s] in repo && repo[p[s]].time <= out[e].time
  {
    hide Runs, Done, Followed;
    s := FirstLeft(out[..e], p, last);
    if s == 0 {
      Passed(repo, mode, start, out, e, p[0], p[0]);
    } else {
      assert p[s - 1] in repo && p[s - 1 + 1] in Followed(repo[p[s - 1]], mode);
      Passed(repo, mode, start, out, e, p[s], p[s - 1]);
    }
  }

  // ---------- how a commit was found ----------

  /** `d` leads from `start` to its last commit through the commits emitted at the moments `ks`, in this order. */
  ghost predicate FoundVia(repo: Repo, mode: Mode, start: Oid, out: seq<Commit>, o: Oid, d: seq<Oid>, ks: seq<nat>) {
    && PathTo(repo, mode, start, o, d)
    && |ks| == |d| - 1
    && (forall m :: 0 <= m < |ks| ==> ks[m] < |out| && out[ks[m]].id == d[m])
    && (forall m, n :: 0 <= m < n < |ks| ==> ks[m] < ks[n])
  }

  lemma {:induction false} EnqueueVisits(repo: Repo, parents: seq<Oid>, s: State, o: Oid)
    requires o in Enqueue(repo, parents, s).1.visited
    ensures o in s.visited || o in parents
    decreases |parents|
  {
    if parents != [] {
      if parents[0] in s.visited {
        EnqueueVisits(repo, parents[1..], s, o);
      } else if parents[0] in repo {
        EnqueueVisits(repo, parents[1..],
                      State(s.frontier + multiset{repo[parents[0]]}, s.visited + {parents[0]}), o);
      }
    }
  }

  lemma {:induction false} EmitVisits(repo: Repo, mode: Mode, s: State, c: Commit, o: Oid)
    requires o in Emit(repo, mode, s, c).1.visited
    ensures o in s.visited || o in Followed(c, mode)
  {
    EnqueueVisits(repo, Followed(c, mode), State(s.frontier - multiset{c}, s.visited), o);
  }

  lemma {:induction false} FoundLonger(repo: Repo, mode: Mode, start: Oid, out: seq<Commit>, c: Commit, o: Oid,
                                       d: seq<Oid>, ks: seq<nat>)
    requires FoundVia(repo, mode, start, out, o, d, ks)
    ensures FoundVia(repo, mode, start, out + [c], o, d, ks)
  {
    hide PathTo;
  }

  lemma {:induction false} FoundStep(repo: Repo, mode: Mode, start: Oid, out: seq<Commit>, c: Commit, o: Oid,
                                     d: seq<Oid>, ks: seq<nat>)
    requires FoundVia(repo, mode, start, out, c.id, d, ks) && c.id in repo && repo[c.id] == c && o in Followed(c, mode)
    ensures FoundVia(repo, mode, start, out + [c], o, d + [o], ks + [|out|])
  {
    hide Followed;
  }

  /** Every visited commit was found through emitted ones. */
  lemma {:induction false} FoundPath(repo: Repo, mode: Mode, start: Oid, out: seq<Commit>, o: Oid)
    returns (d: seq<Oid>, ks: seq<nat>)
    requires Runs(repo, mode, start, out) && o in After(repo, mode, start, out).visited
    ensures FoundVia(repo, mode, start, out, o, d, ks)
    decreases |out|
  {
    if out == [] {
      d, ks := [start], [];
    } else {
      var init, c := out[..|out| - 1], out[|out| - 1];
      var s := After(repo, mode, start, init);
      hide Emits, StateAfter, Followed, Emit, FoundVia, Inv;
      LastStep(repo, mode, StartAt(repo[start]), out);
      RunInv(repo, mode, start, init);
      FrontierVisited(repo, mode, start, init, s, c);
      if o in s.visited {
        d, ks := FoundPath(repo, mode, start, init, o);
        FoundLonger(repo, mode, start, init, c, o, d, ks);
      } else {
        EmitVisits(repo, mode, s, c, o);
        d, ks := FoundPath(repo, mode, start, init, c.id);
        FoundStep(repo, mode, start, init, c, o, d, ks);
        d, ks := d + [o], ks + [|init|];
      }
    }
  }

  /** Every emitted commit was found through commits emitted before it. */
  lemma {:induction false} EmittedPath(repo: Repo, mode: Mode, start: Oid, out: seq<Commit>, e: nat)
    returns (d: seq<Oid>, ks: seq<nat>)
    requires Runs(repo, mode, start, out) && e < |out|
    ensures FoundVia(repo, mode, start, out[..e], out[e].id, d, ks)
  {
    hide Emits, StateAfter, FoundVia, Inv, LeastIn;
    EmittedAt(repo, mode, start, out, e);
    var s := After(repo, mode, start, out[..e]);
    Newest(out[e], s.frontier);
    RunInv(repo, mode, start, out[..e]);
    FrontierVisited(repo, mode, start, out[..e], s, out[e]);
    d, ks := FoundPath(repo, mode, start, out[..e], out[e].id);
  }

  lemma {:induction false} EmittedStoredAt(repo: Repo, mode: Mode, start: Oid, out: seq<Commit>, e: nat)
    requires Runs(repo, mode, start, out) && e < |out|
    ensures out[e].id in repo && repo[out[e].id] == out[e]
    ensures forall f :: 0 <= f < |out| && f != e ==> out[f].id != out[e].id
  {
    hide Emits, StateAfter, Reachable;
    RunInv(repo, mode, start, out);
    assert out[e] in out;
    forall f | 0 <= f < |out| && f != e ensures out[f].id != out[e].id {
      assert out[f] in out;
    }
  }

  // ---------- newest first, exactly ----------

  /** Some path leads to the commit through commits that are at least as new. */
  ghost predicate NewPath(repo: Repo, mode: Mode, start: Oid, c: Commit) {
    exists p :: PathTo(repo, mode, start, c.id, p) && AllAsNew(repo, p, c.time)
  }

  ghost predicate AllAsNew(repo: Repo, p: seq<Oid>, time: int) {
    forall i :: 0 <= i < |p| ==> p[i] in repo && repo[p[i]].time >= time
  }

  /**
   * The times of a run never increase if and only if each emitted commit is reached by a path of
   * commits at least as new as it.
   */
  lemma {:induction false} NewestFirstExactly(repo: Repo, mode: Mode, start: Oid, out: seq<Commit>)
    requires Runs(repo, mode, start, out)
    ensures NewestFirst(out) <==> forall c :: c in out ==> NewPath(repo, mode, start, c)
  {
    if NewestFirst(out) {
      forall c | c in out ensures NewPath(repo, mode, start, c) {
        var e: nat :| e < |out| && out[e] == c;
        NewestFirstPath(repo, mode, start, out, e);
      }
    }
    if forall c :: c in out ==> NewPath(repo, mode, start, c) {
      forall i, j | 0 <= i < j < |out| ensures out[j].time <= out[i].time {
        assert out[j] in out;
        NewPathWaits(repo, mode, start, out, i, j);
      }
    }
  }

  lemma {:induction false} NewestFirstPath(repo: Repo, mode: Mode, start: Oid, out: seq<Commit>, e: nat)
    requires Runs(repo, mode, start, out) && NewestFirst(out) && e < |out|
    ensures NewPath(repo, mode, start, out[e])
  {
    hide Runs, PathTo;
    var d, ks := EmittedPath(repo, mode, start, out, e);
    EmittedStoredAt(repo, mode, start, out, e);
    forall i | 0 <= i < |d| ensures d[i] in repo && repo[d[i]].time >= out[e].time {
      if i < |ks| {
        assert out[..e][ks[i]].id == d[i];
        EmittedStoredAt(repo, mode, start, out, ks[i]);
      } else {
        LastOfPath(repo, mode, start, out[e].id, d);
      }
    }
  }

  lemma LastOfPath(repo: Repo, mode: Mode, from: Oid, to: Oid, d: seq<Oid>)
    requires PathTo(repo, mode, from, to, d)
    ensures d != [] && d[|d| - 1] == to && d[0] == from && Path(repo, mode, d)
  {
  }

  lemma {:induction false} NewPathWaits(repo: Repo, mode: Mode, start: Oid, out: seq<Commit>, i: nat, j: nat)
    requires Runs(repo, mode, start, out) && i < j < |out| && NewPath(repo, mode, start, out[j])
    ensures out[j].time <= out[i].time
  {
    hide Runs;
    var p :| PathTo(repo, mode, start, out[j].id, p) && AllAsNew(repo, p, out[j].time);
    EmittedStoredAt(repo, mode, start, out, j);
    assert !Done(out[..i], out[j].id);
    hide Done;
    var s := PathAhead(repo, mode, start, out, i, p, |p| - 1);
  }

  // ---------- one commit before another, exactly ----------

  ghost predicate NoNewer(repo: Repo, a: Oid, b: Oid) {
    a in repo && b in repo && repo[a].time <= repo[b].time
  }

  /** Behind its first commit the path has one that is no newer than `o`. */
  ghost predicate Blocked(repo: Repo, r: seq<Oid>, o: Oid) {
    exists m: nat :: 1 <= m < |r| && NoNewer(repo, r[m], o)
  }

  /**
   * `q` leads to `p` around `x`, and is never overtaken: no path turns off it towards `x` through
   * commits that are all newer than some later commit of `q`.
   */
  ghost predicate Clear(repo: Repo, mode: Mode, start: Oid, q: seq<Oid>, x: Oid, p: Oid) {
    && PathTo(repo, mode, start, p, q) && x !in q
    && forall i, j, r :: 0 <= j < i < |q| && PathTo(repo, mode, q[j], x, r) ==> Blocked(repo, r, q[i])
  }

  ghost predicate Before(out: seq<Commit>, p: Oid, x: Oid) {
    exists i, j :: 0 <= i < j < |out| && out[i].id == p && out[j].id == x
  }

  /** When `q[i]` was emitted, on the way found to the commit at `b`. */
  function Moment(ks: seq<nat>, b: nat, i: nat): nat {
    if i < |ks| then ks[i] else b
  }

  /** The way by which a commit was found, before `x` came out, is clear. */
  lemma {:induction false} ClearOfRun(repo: Repo, mode: Mode, start: Oid, out: seq<Commit>, b: nat, x: Oid)
    returns (q: seq<Oid>)
    requires Runs(repo, mode, start, out) && b < |out| && !Done(out[..b + 1], x)
    ensures Clear(repo, mode, start, q, x, out[b].id)
  {
    hide Runs, Blocked, Path;
    var ks;
    q, ks := EmittedPath(repo, mode, start, out, b);
    forall i | 0 <= i < |q| ensures Moment(ks, b, i) <= b && out[Moment(ks, b, i)].id == q[i] {
      assert i < |ks| ==> out[..b][ks[i]] == out[ks[i]];
    }
    forall i | 0 <= i < |q| ensures q[i] != x {
      assert out[..b + 1][Moment(ks, b, i)].id == q[i];
    }
    forall i, j, r | 0 <= j < i < |q| && PathTo(repo, mode, q[j], x, r) ensures Blocked(repo, r, q[i]) {
      assert out[..Moment(ks, b, i)][Moment(ks, b, j)].id == q[j];
      BlockedAt(repo, mode, start, out, Moment(ks, b, i), x, r);
    }
  }

  lemma PathNotEmpty(repo: Repo, mode: Mode, r: seq<Oid>)
    requires Path(repo, mode, r)
    ensures r != []
  {
  }

  /** While `x` waits to be reached, every path to it from an emitted commit is blocked. */
  lemma {:induction false} BlockedAt(repo: Repo, mode: Mode, start: Oid, out: seq<Commit>, e: nat, x: Oid, r: seq<Oid>)
    requires Runs(repo, mode, start, out) && e < |out|
    requires Path(repo, mode, r) && Done(out[..e], r[0]) && r[|r| - 1] == x && !Done(out[..e + 1], x)
    ensures Blocked(repo, r, out[e].id)
  {
    hide Runs, Path;
    if Done(out[..e], x) { DonePrefix(out, e, e + 1, x); }
    hide Done;
    assert r != [] by { PathNotEmpty(repo, mode, r); }
    var s := PathAhead(repo, mode, start, out, e, r, |r| - 1);
    EmittedStoredAt(repo, mode, start, out, e);
    assert NoNewer(repo, r[s], out[e].id);
  }

  // ---------- a run that follows a path ----------

  /** `q[i]` is the first commit of the path that has not been emitted. */
  ghost predicate Next(q: seq<Oid>, out: seq<Commit>, i: nat) {
    i < |q| && !Done(out, q[i]) && forall l :: 0 <= l < i ==> Done(out, q[l])
  }

  /** Whatever is emitted is the next commit of the path or newer than that. */
  ghost predicate Favours(repo: Repo, q: seq<Oid>, out: seq<Commit>) {
    forall e: nat, i: nat :: e < |out| && Next(q, out[..e], i) ==>
      out[e].id == q[i] || (q[i] in repo && repo[q[i]].time < out[e].time)
  }

  lemma {:induction false} FavoursAt(repo: Repo, q: seq<Oid>, out: seq<Commit>, e: nat, i: nat)
    requires Favours(repo, q, out) && e < |out| && Next(q, out[..e], i)
    ensures out[e].id == q[i] || (q[i] in repo && repo[q[i]].time < out[e].time)
  {
  }

  lemma {:induction false} FavoursLonger(repo: Repo, q: seq<Oid>, out: seq<Commit>, c: Commit, i: nat)
    requires Favours(repo, q, out) && Next(q, out, i)
    requires c.id == q[i] || (q[i] in repo && repo[q[i]].time < c.time)
    ensures Favours(repo, q, out + [c])
  {
    var all := out + [c];
    forall e: nat, k: nat | e < |all| && Next(q, all[..e], k)
      ensures all[e].id == q[k] || (q[k] in repo && repo[q[k]].time < all[e].time)
    {
      if e < |out| {
        assert all[..e] == out[..e];
        FavoursAt(repo, q, out, e, k);
      } else {
        assert all[..e] == out;
        NextUnique(q, out, i, k);
      }
    }
  }

  lemma {:induction false} NextUnique(q: seq<Oid>, out: seq<Commit>, i: nat, k: nat)
    requires Next(q, out, i) && Next(q, out, k)
    ensures i == k
  {
    hide Done;
  }

  lemma {:induction false} SomeNewest(m: multiset<Commit>) returns (c: Commit)
    requires m != multiset{}
    ensures LeastIn(c, m, CmpTime)
    decreases |m|
  {
    c :| c in m;
    var rest := m - multiset{c};
    if rest != multiset{} {
      var d := SomeNewest(rest);
      if d.time > c.time {
        assert forall y :: y in m ==> y == c || y in rest;
        c := d;
      } else {
        assert forall y :: y in m ==> y == c || (y in rest && Le(CmpTime, d, y));
      }
    } else {
      assert forall y :: y in m ==> y == c || y in rest;
    }
  }

  /** One more step of a run, with ties broken in favour of the path. */
  lemma {:induction false} FavouredStep(repo: Repo, mode: Mode, start: Oid, q: seq<Oid>, out: seq<Commit>, i: nat)
    returns (c: Commit)
    requires Runs(repo, mode, start, out) && AllReachableStored(repo, mode, start)
    requires Path(repo, mode, q) && q[0] == start && Next(q, out, i) && Favours(repo, q, out)
    ensures Runs(repo, mode, start, out + [c]) && Favours(repo, q, out + [c]) && |out| < |repo|
  {
    var s := After(repo, mode, start, out);
    assert i > 0 ==> q[i - 1] in repo && q[i - 1 + 1] in Followed(repo[q[i - 1]], mode);
    hide Favours, Done, Path, AllReachableStored, Emits, StateAfter, LeastIn, Emit, Followed;
    Waiting(repo, mode, start, out, q[i], if i == 0 then q[0] else q[i - 1]);
    var n := SomeNewest(s.frontier);
    Newest(n, s.frontier);
    c := n;
    if n.time <= repo[q[i]].time {
      c := repo[q[i]];
      AlsoNewest(c, n, s.frontier);
    }
    Newest(c, s.frontier);
    var t := Emit(repo, mode, s, c);
    if !t.0 { StuckMeansMissing(repo, mode, start, out, c); }
    NextEmitted(repo, mode, start, out, s, c, t.1);
    FavoursLonger(repo, q, out, c, i);
  }

  lemma {:induction false} AlsoNewest(c: Commit, n: Commit, m: multiset<Commit>)
    requires LeastIn(n, m, CmpTime) && c in m && n.time <= c.time
    ensures LeastIn(c, m, CmpTime)
  {
    forall y | y in m ensures Le(CmpTime, c, y) {
      assert Le(CmpTime, n, y);
    }
  }

  /** A run that follows the path until its last commit comes out. */
  lemma {:induction false} FavouredRun(repo: Repo, mode: Mode, start: Oid, q: seq<Oid>, out: seq<Commit>)
    returns (all: seq<Commit>)
    requires Runs(repo, mode, start, out) && AllReachableStored(repo, mode, start)
    requires Path(repo, mode, q) && q[0] == start && Favours(repo, q, out) && !Done(out, q[|q| - 1])
    ensures Runs(repo, mode, start, all) && Favours(repo, q, all)
    ensures all != [] && all[|all| - 1].id == q[|q| - 1] && !Done(all[..|all| - 1], q[|q| - 1])
    decreases |repo| - |out|
  {
    hide Runs, Path, AllReachableStored, Favours, Done;
    PathNotEmpty(repo, mode, q);
    var i := FirstLeft(out, q, |q| - 1);
    var c := FavouredStep(repo, mode, start, q, out, i);
    if c.id == q[|q| - 1] {
      all := out + [c];
      assert all[..|all| - 1] == out;
    } else {
      NotDoneYet(out, c, q[|q| - 1]);
      RunLength(repo, mode, start, out + [c]);
      all := FavouredRun(repo, mode, start, q, out + [c]);
    }
  }

  lemma {:induction false} RunLength(repo: Repo, mode: Mode, start: Oid, out: seq<Commit>)
    requires Runs(repo, mode, start, out)
    ensures |out| <= |repo|
  {
    RunBounded(repo, mode, start, out);
  }

  lemma {:induction false} NotDoneYet(out: seq<Commit>, c: Commit, o: Oid)
    requires !Done(out, o) && c.id != o
    ensures !Done(out + [c], o)
  {
    forall k: nat | k < |out| + 1 ensures (out + [c])[k].id != o {
      assert k < |out| ==> (out + [c])[k] == out[k];
    }
  }

  // ---------- such a run does not meet the other commit ----------

  /**
   * Were `x` emitted at `e` while `q[i]` is next: on the way by which it was found, everything
   * behind the last commit of `q[..i]` is newer than `q[i]`.
   */
  lemma {:induction false} NewerBehind(repo: Repo, mode: Mode, start: Oid, out: seq<Commit>, e: nat,
                                       q: seq<Oid>, i: nat, d: seq<Oid>, ks: seq<nat>, r: nat, m: nat)
    requires Runs(repo, mode, start, out) && e < |out| && Path(repo, mode, q) && q[0] == start
    requires Favours(repo, q, out) && Next(q, out[..e], i) && out[e].id !in q
    requires FoundVia(repo, mode, start, out[..e], out[e].id, d, ks)
    requires r < m < |d| && forall l :: r < l < |d| ==> d[l] !in q[..i]
    ensures q[i] in repo && d[m] in repo && repo[q[i]].time < repo[d[m]].time
    decreases |d| - m
  {
    hide Runs, Favours, Path, Done;
    FavoursAt(repo, q, out, e, i);
    EmittedStoredAt(repo, mode, start, out, e);
    LastOfPath(repo, mode, start, out[e].id, d);
    if m < |d| - 1 {
      var f := ks[m];
      assert out[..e][f] == out[f];
      EmittedStoredAt(repo, mode, start, out, f);
      NotDoneEarlier(out, f, e, q[i]);
      var l := FirstLeft(out[..f], q, i);
      FavoursAt(repo, q, out, f, l);
      DoneAt(out, f, e);
      assert l < i ==> q[l] in q[..i] && Done(out[..e], q[l]);
      if l < i {
        var g := EmittedLater(out, f, e, q[l]);
        var s := StillOnTheWay(repo, mode, start, out, e, d, m, f, g);
        EmittedStoredAt(repo, mode, start, out, g);
        NewerBehind(repo, mode, start, out, e, q, i, d, ks, r, s);
      }
    }
  }

  lemma {:induction false} NotDoneEarlier(out: seq<Commit>, f: nat, e: nat, o: Oid)
    requires f <= e <= |out| && !Done(out[..e], o)
    ensures !Done(out[..f], o)
  {
    if Done(out[..f], o) { DonePrefix(out, f, e, o); }
  }

  lemma {:induction false} DoneAt(out: seq<Commit>, f: nat, e: nat)
    requires f < e <= |out|
    ensures Done(out[..e], out[f].id)
  {
    assert out[..e][f] == out[f];
  }

  lemma {:induction false} EmittedLater(out: seq<Commit>, f: nat, e: nat, o: Oid) returns (g: nat)
    requires f < e <= |out| && Done(out[..e], o) && !Done(out[..f], o) && out[f].id != o
    ensures f < g < e && out[g].id == o
  {
    forall k: nat | k < f ensures out[k].id != o {
      assert out[..f][k] == out[k];
    }
    g :| g < e && out[..e][g].id == o;
  }

  /** Between two commits of the way by which a commit was found, the next one on the way waits. */
  lemma {:induction false} StillOnTheWay(repo: Repo, mode: Mode, start: Oid, out: seq<Commit>, e: nat,
                                         d: seq<Oid>, m: nat, f: nat, g: nat)
    returns (s: nat)
    requires Runs(repo, mode, start, out) && f < g < e < |out|
    requires Path(repo, mode, d) && m < |d| - 1 && d[|d| - 1] == out[e].id && d[m] == out[f].id
    ensures m < s < |d| && d[s] in repo && repo[d[s]].time <= out[g].time
  {
    DoneAt(out, f, g);
    EmittedStoredAt(repo, mode, start, out, e);
    assert !Done(out[..g], out[e].id);
    PathSuffix(repo, mode, d, m);
    hide Runs, Path, Done;
    var k := PathAhead(repo, mode, start, out, g, d[m..], |d| - 1 - m);
    assert k != 0;
    s := m + k;
  }

  lemma {:induction false} PathSuffix(repo: Repo, mode: Mode, d: seq<Oid>, m: nat)
    requires Path(repo, mode, d) && m < |d|
    ensures Path(repo, mode, d[m..])
  {
    var t := d[m..];
    forall i | 0 <= i < |t| - 1 ensures t[i] in repo && t[i + 1] in Followed(repo[t[i]], mode) {
      assert d[m + i] in repo && d[m + i + 1] in Followed(repo[d[m + i]], mode);
    }
  }

  /** The last commit of the way that belongs to a set of commits. */
  lemma {:induction false} LastIn(d: seq<Oid>, among: seq<Oid>) returns (r: nat)
    requires d != [] && d[0] in among && d[|d| - 1] !in among
    ensures r < |d| - 1 && d[r] in among
    ensures forall l :: r < l < |d| ==> d[l] !in among
  {
    r := |d| - 1;
    while d[r] !in among
      invariant 0 <= r < |d|
      invariant forall l :: r < l < |d| ==> d[l] !in among
      decreases r
    {
      r := r - 1;
    }
  }

  /** If `x` comes out before the path's end, the way to it has turned off the path and overtaken a commit of it. */
  lemma {:induction false} Overtakes(repo: Repo, mode: Mode, start: Oid, q: seq<Oid>, out: seq<Commit>, e: nat)
    returns (i: nat, j: nat, way: seq<Oid>)
    requires Runs(repo, mode, start, out) && Favours(repo, q, out) && e < |out|
    requires Path(repo, mode, q) && q[0] == start && out[e].id !in q && !Done(out[..e], q[|q| - 1])
    ensures 0 <= j < i < |q| && PathTo(repo, mode, q[j], out[e].id, way) && !Blocked(repo, way, q[i])
  {
    hide Runs, Favours, Done, FoundVia, Path;
    PathNotEmpty(repo, mode, q);
    i := FirstLeft(out[..e], q, |q| - 1);
    var d, ks := EmittedPath(repo, mode, start, out, e);
    FoundIsPath(repo, mode, start, out[..e], out[e].id, d, ks);
    StartDone(repo, mode, start, out, e, d, ks);
    assert i > 0;
    assert q[0] in q[..i];
    var r := LastIn(d, q[..i]);
    PathSuffix(repo, mode, d, r);
    way := d[r..];
    forall m: nat | 1 <= m < |way| ensures !NoNewer(repo, way[m], q[i]) {
      NewerBehind(repo, mode, start, out, e, q, i, d, ks, r, r + m);
    }
    j :| 0 <= j < i && q[j] == d[r];
  }

  /** When anything but the start comes out, the start already has. */
  lemma {:induction false} StartDone(repo: Repo, mode: Mode, start: Oid, out: seq<Commit>, e: nat,
                                     d: seq<Oid>, ks: seq<nat>)
    requires e < |out| && out[e].id != start && FoundVia(repo, mode, start, out[..e], out[e].id, d, ks)
    ensures Done(out[..e], start)
  {
    assert out[..e][ks[0]].id == d[0];
  }

  /** A run that favours a clear path does not emit `x` before the path's end. */
  lemma {:induction false} NotOvertaken(repo: Repo, mode: Mode, start: Oid, q: seq<Oid>, x: Oid, p: Oid,
                                        out: seq<Commit>, e: nat)
    requires Runs(repo, mode, start, out) && Favours(repo, q, out) && Clear(repo, mode, start, q, x, p)
    requires e < |out| && !Done(out[..e], p)
    ensures out[e].id != x
  {
    hide Runs, Favours, Done, Blocked, Path;
    LastOfPath(repo, mode, start, p, q);
    if out[e].id == x {
      var i, j, way := Overtakes(repo, mode, start, q, out, e);
    }
  }

  lemma {:induction false} FoundIsPath(repo: Repo, mode: Mode, start: Oid, out: seq<Commit>, o: Oid,
                                       d: seq<Oid>, ks: seq<nat>)
    requires FoundVia(repo, mode, start, out, o, d, ks)
    ensures Path(repo, mode, d) && d[0] == start && d[|d| - 1] == o
  {
  }

  // ---------- the exact condition ----------

  /** Along a clear path some run brings out `p` while `x` is still to come. */
  lemma {:induction false} RunOfClear(repo: Repo, mode: Mode, start: Oid, q: seq<Oid>, x: Oid, p: Oid)
    returns (out: seq<Commit>)
    requires WellKeyed(repo) && start in repo && AllReachableStored(repo, mode, start)
    requires Clear(repo, mode, start, q, x, p)
    ensures Runs(repo, mode, start, out) && Done(out, p) && !Done(out, x)
  {
    LastOfPath(repo, mode, start, p, q);
    EmptyRun(repo, mode, start, q);
    assert p != x;
    hide Clear, Runs, Favours, Done, Path, AllReachableStored, WellKeyed;
    out := FavouredRun(repo, mode, start, q, []);
    var last := |out| - 1;
    DoneAt(out, last, |out|);
    assert out[..|out|] == out;
    forall e | 0 <= e < |out| ensures out[e].id != x {
      if e < last { NotDoneEarlier(out, e, last, p); }
      if e != last { NotOvertaken(repo, mode, start, q, x, p, out, e); }
    }
    NeverDone(out, x);
  }

  lemma EmptyRun(repo: Repo, mode: Mode, start: Oid, q: seq<Oid>)
    requires WellKeyed(repo) && start in repo
    ensures Runs(repo, mode, start, []) && Favours(repo, q, [])
    ensures forall o :: !Done([], o)
  {
  }

  lemma NeverDone(out: seq<Commit>, x: Oid)
    requires forall e :: 0 <= e < |out| ==> out[e].id != x
    ensures !Done(out, x)
  {
  }

  /** Any run goes on to a finished one. */
  lemma {:induction false} RunToEnd(repo: Repo, mode: Mode, start: Oid, out: seq<Commit>) returns (all: seq<Commit>)
    requires Runs(repo, mode, start, out) && AllReachableStored(repo, mode, start)
    ensures Finished(repo, mode, start, all) && out <= all
    decreases |repo| - |out|
  {
    var s := After(repo, mode, start, out);
    if s.frontier == multiset{} {
      all := out;
    } else {
      hide AllReachableStored, Emits, StateAfter, LeastIn, Emit, Finished;
      var c := SomeNewest(s.frontier);
      Newest(c, s.frontier);
      var t := Emit(repo, mode, s, c);
      if !t.0 { StuckMeansMissing(repo, mode, start, out, c); }
      NextEmitted(repo, mode, start, out, s, c, t.1);
      RunLength(repo, mode, start, out + [c]);
      all := RunToEnd(repo, mode, start, out + [c]);
    }
  }

  /** No run at all brings out `p` before `x` without a clear path. */
  lemma {:induction false} BeforeNeedsClear(repo: Repo, mode: Mode, start: Oid, out: seq<Commit>, p: Oid, x: Oid)
    returns (q: seq<Oid>)
    requires Runs(repo, mode, start, out) && Before(out, p, x)
    ensures Clear(repo, mode, start, q, x, p)
  {
    var i, j :| 0 <= i < j < |out| && out[i].id == p && out[j].id == x;
    hide Runs, Clear;
    EmittedStoredAt(repo, mode, start, out, j);
    assert forall k :: 0 <= k < i + 1 ==> out[..i + 1][k] == out[k];
    NeverDone(out[..i + 1], x);
    q := ClearOfRun(repo, mode, start, out, i, x);
  }

  /** Along a clear path to `p`, with `x` reachable, some finished run brings out `p` before `x`. */
  lemma {:induction false} ClearGivesBefore(repo: Repo, mode: Mode, start: Oid, q: seq<Oid>, p: Oid, x: Oid)
    returns (out: seq<Commit>)
    requires WellKeyed(repo) && start in repo && AllReachableStored(repo, mode, start)
    requires Reachable(repo, mode, start, x) && Clear(repo, mode, start, q, x, p)
    ensures Finished(repo, mode, start, out) && Before(out, p, x)
  {
    hide Clear, Reachable, AllReachableStored, Emits, StateAfter, WellKeyed, Done;
    var first := RunOfClear(repo, mode, start, q, x, p);
    out := RunToEnd(repo, mode, start, first);
    WalkExact(repo, mode, start, out);
    assert repo[x].id == x by { KeyOf(repo, x); }
    BeforeInLonger(first, out, repo, p, x);
  }

  lemma KeyOf(repo: Repo, x: Oid)
    requires WellKeyed(repo) && x in repo
    ensures repo[x].id == x
  {
  }

  lemma {:induction false} BeforeInLonger(first: seq<Commit>, out: seq<Commit>, repo: Repo, p: Oid, x: Oid)
    requires first <= out && Done(first, p) && !Done(first, x) && x in repo && repo[x] in out && repo[x].id == x
    ensures Before(out, p, x)
  {
    var i: nat :| i < |first| && first[i].id == p;
    assert forall k: nat :: k < |first| ==> out[k] == first[k] && first[k].id != x;
    var j: nat :| j < |out| && out[j] == repo[x];
  }

  /**
   * Some finished run brings out `p` before a reachable `x` if and only if a path leads to `p` around
   * `x` that is never overtaken on the way to `x`.
   */
  lemma {:induction false} BeforeExactly(repo: Repo, mode: Mode, start: Oid, p: Oid, x: Oid)
    requires WellKeyed(repo) && start in repo && AllReachableStored(repo, mode, start)
    requires Reachable(repo, mode, start, x)
    ensures (exists out :: Finished(repo, mode, start, out) && Before(out, p, x))
      <==> exists q :: Clear(repo, mode, start, q, x, p)
  {
    hide Clear, Reachable, AllReachableStored, Before, WellKeyed;
    if out :| Finished(repo, mode, start, out) && Before(out, p, x) {
      FinishedRuns(repo, mode, start, out);
      var q := BeforeNeedsClear(repo, mode, start, out, p, x);
    }
    if q :| Clear(repo, mode, start, q, x, p) {
      var out := ClearGivesBefore(repo, mode, start, q, p, x);
    }
  }

  lemma FinishedRuns(repo: Repo, mode: Mode, start: Oid, out: seq<Commit>)
    requires WellKeyed(repo) && Finished(repo, mode, start, out)
    ensures Runs(repo, mode, start, out)
  {
  }

  /** Every commit comes out before its followed parents. */
  ghost predicate ChildrenFirstIn(mode: Mode, out: seq<Commit>) {
    forall i, j :: 0 <= i < |out| && 0 <= j < |out| && out[j].id in Followed(out[i], mode) ==> i < j
  }

  /** A commit can be passed by one of its followed parents. */
  ghost predicate Passable(repo: Repo, mode: Mode, start: Oid, x: Oid, p: Oid) {
    x in repo && Reachable(repo, mode, start, x) && p in Followed(repo[x], mode)
    && (p == x || exists q :: Clear(repo, mode, start, q, x, p))
  }

  /**
   * All finished runs bring out every commit before its parents if and only if no commit can be
   * passed by one of its parents.
   */
  lemma {:induction false} ChildrenFirstExactly(repo: Repo, mode: Mode, start: Oid)
    requires WellKeyed(repo) && start in repo && AllReachableStored(repo, mode, start)
    ensures (forall out: seq<Commit> :: Finished(repo, mode, start, out) ==> ChildrenFirstIn(mode, out))
      <==> forall x, p :: !Passable(repo, mode, start, x, p)
  {
    hide Clear, Reachable, AllReachableStored, WellKeyed, Finished, Followed;
    if forall out: seq<Commit> :: Finished(repo, mode, start, out) ==> ChildrenFirstIn(mode, out) {
      forall x, p ensures !Passable(repo, mode, start, x, p) {
        if Passable(repo, mode, start, x, p) {
          var out := PassingRun(repo, mode, start, x, p);
        }
      }
    }
    if forall x, p :: !Passable(repo, mode, start, x, p) {
      forall out: seq<Commit> | Finished(repo, mode, start, out) ensures ChildrenFirstIn(mode, out) {
        forall i, j | 0 <= i < |out| && 0 <= j < |out| && out[j].id in Followed(out[i], mode) ensures i < j {
          if j <= i { PassedMeansPassable(repo, mode, start, out, i, j); }
        }
      }
    }
  }

  lemma {:induction false} PassingRun(repo: Repo, mode: Mode, start: Oid, x: Oid, p: Oid) returns (out: seq<Commit>)
    requires WellKeyed(repo) && start in repo && AllReachableStored(repo, mode, start)
    requires Passable(repo, mode, start, x, p)
    ensures Finished(repo, mode, start, out) && !ChildrenFirstIn(mode, out)
  {
    hide Clear, Reachable, AllReachableStored, Followed, Emits, StateAfter;
    if p == x {
      EmptyRun(repo, mode, start, []);
      out := RunToEnd(repo, mode, start, []);
      WalkExact(repo, mode, start, out);
      var i :| 0 <= i < |out| && out[i] == repo[x];
      assert out[i].id in Followed(out[i], mode);
    } else {
      var q :| Clear(repo, mode, start, q, x, p);
      out := ClearGivesBefore(repo, mode, start, q, p, x);
      WalkExact(repo, mode, start, out);
      var i, j :| 0 <= i < j < |out| && out[i].id == p && out[j].id == x;
      assert out[j] in out;
      assert out[i].id in Followed(out[j], mode);
    }
  }

  lemma {:induction false} PassedMeansPassable(repo: Repo, mode: Mode, start: Oid, out: seq<Commit>, i: nat, j: nat)
    requires WellKeyed(repo) && Finished(repo, mode, start, out)
    requires i < |out| && j < |out| && out[j].id in Followed(out[i], mode) && j <= i
    ensures Passable(repo, mode, start, out[i].id, out[j].id)
  {
    hide Clear, Reachable, Followed, Emits, StateAfter;
    WalkExact(repo, mode, start, out);
    assert out[i] in out;
    FinishedRuns(repo, mode, start, out);
    if j < i {
      EmittedStoredAt(repo, mode, start, out, i);
      var q := BeforeNeedsClear(repo, mode, start, out, out[j].id, out[i].id);
    }
  }
}
