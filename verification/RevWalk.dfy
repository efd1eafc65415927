/** Walking a commit graph, newest commit first (revwalk/, log.c). */
module RevWalk {
  import opened Bytes
  import opened Heap
  import opened OidSet
  import opened Options
  import opened Sorting

  datatype Commit = Commit(id: Oid, time: int, parents: seq<Oid>)

  datatype Mode = All | FirstParent

  /** What looking a commit up by its id finds. */
  type Repo = map<Oid, Commit>

  ghost predicate WellKeyed(repo: Repo) {
    forall o :: o in repo ==> repo[o].id == o
  }

  /** `pq_commit_cmp_time`. */
  function CmpTime(a: Commit, b: Commit): int {
    if a.time > b.time then -1 else if a.time < b.time then 1 else 0
  }

  /** `set_oid_hash`: the first four bytes, read as a little-endian word. */
  function OidHash(oid: Oid): nat {
    var b: seq<int> := oid;
    b[0] + 0x100 * b[1] + 0x1_0000 * b[2] + 0x100_0000 * b[3]
  }

  /** The parents a walk goes on to. */
  function Followed(c: Commit, mode: Mode): seq<Oid> {
    if mode.All? || c.parents == [] then c.parents else c.parents[..1]
  }

  // ---------- paths ----------

  ghost predicate Path(repo: Repo, mode: Mode, p: seq<Oid>) {
    && p != []
    && forall i :: 0 <= i < |p| - 1 ==> p[i] in repo && p[i + 1] in Followed(repo[p[i]], mode)
  }

  ghost predicate PathTo(repo: Repo, mode: Mode, from: Oid, to: Oid, p: seq<Oid>) {
    Path(repo, mode, p) && p[0] == from && p[|p| - 1] == to
  }

  /** `to` can be reached from `from` along followed parents; `to` itself may be missing. */
  ghost predicate Reachable(repo: Repo, mode: Mode, from: Oid, to: Oid) {
    exists p :: PathTo(repo, mode, from, to, p)
  }

  ghost predicate AllReachableStored(repo: Repo, mode: Mode, start: Oid) {
    forall o :: Reachable(repo, mode, start, o) ==> o in repo
  }

  lemma ReachSelf(repo: Repo, mode: Mode, o: Oid)
    ensures Reachable(repo, mode, o, o)
  {
    assert PathTo(repo, mode, o, o, [o]);
  }

  lemma ReachStep(repo: Repo, mode: Mode, from: Oid, o: Oid, parent: Oid)
    requires Reachable(repo, mode, from, o) && o in repo && parent in Followed(repo[o], mode)
    ensures Reachable(repo, mode, from, parent)
  {
    var p :| PathTo(repo, mode, from, o, p);
    assert PathTo(repo, mode, from, parent, p + [parent]);
  }

  /** A set with all followed parents of its members contains what its members reach. */
  lemma {:induction false} ClosedReach(repo: Repo, mode: Mode, closed: set<Oid>, p: seq<Oid>)
    requires Path(repo, mode, p) && p[0] in closed
    requires forall o, q :: o in closed && o in repo && q in Followed(repo[o], mode) ==> q in closed
    ensures p[|p| - 1] in closed
  {
    if |p| > 1 {
      assert p[1] in Followed(repo[p[0]], mode);
      assert Path(repo, mode, p[1..]);
      ClosedReach(repo, mode, closed, p[1..]);
    }
  }

  // ---------- the steps of a walk ----------

  datatype State = State(frontier: multiset<Commit>, visited: set<Oid>)

  const BLANK := State(multiset{}, {})

  function StartAt(c: Commit): State {
    State(multiset{c}, {c.id})
  }

  /** Visiting parents in order; stops at the first that is neither visited nor stored. */
  function Enqueue(repo: Repo, parents: seq<Oid>, s: State): (bool, State) {
    if parents == [] then (true, s)
    else if parents[0] in s.visited then Enqueue(repo, parents[1..], s)
    else if parents[0] !in repo then (false, s)
    else Enqueue(repo, parents[1..], State(s.frontier + multiset{repo[parents[0]]}, s.visited + {parents[0]}))
  }

  /** Emitting `c`: whether that succeeds, and the state it leaves. */
  function Emit(repo: Repo, mode: Mode, s: State, c: Commit): (bool, State) {
    Enqueue(repo, Followed(c, mode), State(s.frontier - multiset{c}, s.visited))
  }

  /** The state after emitting `out`. */
  function StateAfter(repo: Repo, mode: Mode, s: State, out: seq<Commit>): State {
    if out == [] then s
    else Emit(repo, mode, StateAfter(repo, mode, s, out[..|out| - 1]), out[|out| - 1]).1
  }

  /** `out` is a possible emission from `s`: each commit is a newest one of the frontier. */
  ghost predicate Emits(repo: Repo, mode: Mode, s: State, out: seq<Commit>) {
    out == []
    || var init, c := out[..|out| - 1], out[|out| - 1];
      && Emits(repo, mode, s, init)
      && LeastIn(c, StateAfter(repo, mode, s, init).frontier, CmpTime)
      && Emit(repo, mode, StateAfter(repo, mode, s, init), c).0
  }

  // ---------- the invariant ----------

  /** What has been visited is what was emitted plus the frontier, each once and all reachable. */
  ghost predicate Inv(repo: Repo, mode: Mode, start: Oid, out: seq<Commit>, s: State) {
    && (forall c :: c in s.frontier ==> c.id in repo && repo[c.id] == c && s.frontier[c] == 1 && c !in out)
    && (forall c :: c in out ==> c.id in repo && repo[c.id] == c)
    && NoDuplicates(out)
    && (forall o :: o in s.visited <==> o in repo && (repo[o] in out || repo[o] in s.frontier))
    && (forall o :: o in s.visited ==> Reachable(repo, mode, start, o))
  }

  /** The parents of every emitted commit have been visited. */
  ghost predicate Closed(mode: Mode, out: seq<Commit>, visited: set<Oid>) {
    forall c, q :: c in out && q in Followed(c, mode) ==> q in visited
  }

  lemma {:induction false} EnqueueInv(repo: Repo, mode: Mode, start: Oid, out: seq<Commit>, parents: seq<Oid>, s: State)
    requires WellKeyed(repo) && Inv(repo, mode, start, out, s)
    requires forall q :: q in parents ==> Reachable(repo, mode, start, q)
    ensures var (ok, t) := Enqueue(repo, parents, s);
      && Inv(repo, mode, start, out, t) && s.visited <= t.visited
      && (ok ==> forall q :: q in parents ==> q in t.visited)
      && (!ok ==> exists q :: q in parents && q !in repo)
    decreases |parents|
  {
    if parents != [] {
      var q := parents[0];
      if q in s.visited {
        EnqueueInv(repo, mode, start, out, parents[1..], s);
      } else if q in repo {
        EnqueueOne(repo, mode, start, out, q, s);
        EnqueueInv(repo, mode, start, out, parents[1..], State(s.frontier + multiset{repo[q]}, s.visited + {q}));
      } else {
        assert q in parents;
      }
    }
  }

  lemma EnqueueOne(repo: Repo, mode: Mode, start: Oid, out: seq<Commit>, q: Oid, s: State)
    requires WellKeyed(repo) && Inv(repo, mode, start, out, s)
    requires q in repo && q !in s.visited && Reachable(repo, mode, start, q)
    ensures Inv(repo, mode, start, out, State(s.frontier + multiset{repo[q]}, s.visited + {q}))
  {
    hide Reachable;
  }

  lemma EmitOne(repo: Repo, mode: Mode, start: Oid, out: seq<Commit>, s: State, c: Commit)
    requires WellKeyed(repo) && Inv(repo, mode, start, out, s) && c in s.frontier
    ensures Inv(repo, mode, start, out + [c], State(s.frontier - multiset{c}, s.visited))
  {
    hide Reachable;
  }

  /** Emitting a commit of the frontier keeps the invariant; it fails only for a missing parent. */
  lemma EmitInv(repo: Repo, mode: Mode, start: Oid, out: seq<Commit>, s: State, c: Commit)
    requires WellKeyed(repo) && Inv(repo, mode, start, out, s) && c in s.frontier
    ensures var (ok, t) := Emit(repo, mode, s, c);
      && Inv(repo, mode, start, out + [c], t) && s.visited <= t.visited
      && (ok ==> forall q :: q in Followed(c, mode) ==> q in t.visited)
      && (!ok ==> exists q :: Reachable(repo, mode, start, q) && q !in repo)
  {
    hide Inv;
    EmitOne(repo, mode, start, out, s, c);
    assert c.id in s.visited && repo[c.id] == c by { FrontierVisited(repo, mode, start, out, s, c); }
    forall q | q in Followed(c, mode) ensures Reachable(repo, mode, start, q) {
      FrontierVisited(repo, mode, start, out, s, c);
      ReachStep(repo, mode, start, c.id, q);
    }
    EnqueueInv(repo, mode, start, out + [c], Followed(c, mode), State(s.frontier - multiset{c}, s.visited));
  }

  lemma FrontierVisited(repo: Repo, mode: Mode, start: Oid, out: seq<Commit>, s: State, c: Commit)
    requires Inv(repo, mode, start, out, s) && c in s.frontier
    ensures c.id in repo && repo[c.id] == c && c.id in s.visited && Reachable(repo, mode, start, c.id)
  {
  }

  /** The last step of a run. */
  lemma LastStep(repo: Repo, mode: Mode, s: State, out: seq<Commit>)
    requires Emits(repo, mode, s, out) && out != []
    ensures var init, c := out[..|out| - 1], out[|out| - 1];
      var t := StateAfter(repo, mode, s, init);
      && out == init + [c] && Emits(repo, mode, s, init)
      && LeastIn(c, t.frontier, CmpTime) && c in t.frontier
      && Emit(repo, mode, t, c) == (true, StateAfter(repo, mode, s, out))
  {
    hide Emit;
  }

  /** Every state of a run satisfies the invariant. */
  lemma {:induction false} RunInv(repo: Repo, mode: Mode, start: Oid, out: seq<Commit>)
    requires WellKeyed(repo) && start in repo && Emits(repo, mode, StartAt(repo[start]), out)
    ensures Inv(repo, mode, start, out, StateAfter(repo, mode, StartAt(repo[start]), out))
    ensures Closed(mode, out, StateAfter(repo, mode, StartAt(repo[start]), out).visited)
    ensures start in StateAfter(repo, mode, StartAt(repo[start]), out).visited
    decreases |out|
  {
    if out == [] {
      ReachSelf(repo, mode, start);
      assert forall o :: o in repo && repo[o] == repo[start] ==> repo[o].id == o;
    } else {
      hide *;
      var init, c := out[..|out| - 1], out[|out| - 1];
      LastStep(repo, mode, StartAt(repo[start]), out);
      RunInv(repo, mode, start, init);
      var s := StateAfter(repo, mode, StartAt(repo[start]), init);
      EmitInv(repo, mode, start, init, s, c);
      ClosedStep(mode, init, s.visited, c, StateAfter(repo, mode, StartAt(repo[start]), out).visited);
    }
  }

  lemma ClosedStep(mode: Mode, out: seq<Commit>, visited: set<Oid>, c: Commit, grown: set<Oid>)
    requires Closed(mode, out, visited) && visited <= grown
    requires forall q :: q in Followed(c, mode) ==> q in grown
    ensures Closed(mode, out + [c], grown)
  {
  }

  // ---------- what a whole run emits ----------

  /** A finished run has emitted exactly the reachable commits, each once. */
  lemma {:induction false} WalkExact(repo: Repo, mode: Mode, start: Oid, out: seq<Commit>)
    requires WellKeyed(repo) && start in repo && Emits(repo, mode, StartAt(repo[start]), out)
    requires StateAfter(repo, mode, StartAt(repo[start]), out).frontier == multiset{}
    ensures NoDuplicates(out)
    ensures forall o :: Reachable(repo, mode, start, o) <==> o in repo && repo[o] in out
    ensures forall c :: c in out ==> c.id in repo && repo[c.id] == c
  {
    hide StateAfter, Emits;
    var s := StateAfter(repo, mode, StartAt(repo[start]), out);
    RunInv(repo, mode, start, out);
    forall o | Reachable(repo, mode, start, o) ensures o in s.visited {
      var p :| PathTo(repo, mode, start, o, p);
      ClosedReach(repo, mode, s.visited, p);
    }
  }

  /** A run is never longer than there are commits. */
  lemma RunBounded(repo: Repo, mode: Mode, start: Oid, out: seq<Commit>)
    requires WellKeyed(repo) && start in repo && Emits(repo, mode, StartAt(repo[start]), out)
    ensures |out| <= |repo|
  {
    RunInv(repo, mode, start, out);
    DistinctBounded(repo, out);
  }

  lemma {:induction false} DistinctBounded(repo: Repo, out: seq<Commit>)
    requires NoDuplicates(out) && forall c :: c in out ==> c.id in repo && repo[c.id] == c
    ensures |out| <= |repo|
    decreases |out|
  {
    if out != [] {
      var c := out[0];
      var rest := repo - {c.id};
      assert out[0] !in out[1..];
      DistinctBounded(rest, out[1..]);
      assert repo == rest[c.id := c];
    }
  }

  /** A run that is not finished can go on if and only if no reachable commit it needs is missing. */
  lemma StuckMeansMissing(repo: Repo, mode: Mode, start: Oid, out: seq<Commit>, c: Commit)
    requires WellKeyed(repo) && start in repo && Emits(repo, mode, StartAt(repo[start]), out)
    requires c in StateAfter(repo, mode, StartAt(repo[start]), out).frontier
    requires !Emit(repo, mode, StateAfter(repo, mode, StartAt(repo[start]), out), c).0
    ensures !AllReachableStored(repo, mode, start)
  {
    hide Inv, Reachable, Emit;
    RunInv(repo, mode, start, out);
    EmitInv(repo, mode, start, out, StateAfter(repo, mode, StartAt(repo[start]), out), c);
  }

  // ---------- in which order ----------

  /** No followed parent is newer than its child. */
  ghost predicate ParentsNotNewer(repo: Repo, mode: Mode) {
    forall o, q :: o in repo && q in repo && q in Followed(repo[o], mode) ==> repo[q].time <= repo[o].time
  }

  ghost predicate ParentsOlder(repo: Repo, mode: Mode) {
    forall o, q :: o in repo && q in repo && q in Followed(repo[o], mode) ==> repo[q].time < repo[o].time
  }

  ghost predicate NewestFirst(out: seq<Commit>) {
    forall i, j :: 0 <= i < j < |out| ==> out[j].time <= out[i].time
  }

  ghost predicate NoneNewer(m: multiset<Commit>, time: int) {
    forall c :: c in m ==> c.time <= time
  }

  lemma {:induction false} EnqueueNotNewer(repo: Repo, parents: seq<Oid>, s: State, time: int)
    requires NoneNewer(s.frontier, time)
    requires forall q :: q in parents && q in repo ==> repo[q].time <= time
    ensures NoneNewer(Enqueue(repo, parents, s).1.frontier, time)
    decreases |parents|
  {
    if parents != [] {
      if parents[0] in s.visited {
        EnqueueNotNewer(repo, parents[1..], s, time);
      } else if parents[0] in repo {
        EnqueueNotNewer(repo, parents[1..],
                        State(s.frontier + multiset{repo[parents[0]]}, s.visited + {parents[0]}), time);
      }
    }
  }

  lemma Newest(c: Commit, m: multiset<Commit>)
    requires LeastIn(c, m, CmpTime)
    ensures c in m && NoneNewer(m, c.time)
  {
    forall y | y in m ensures y.time <= c.time {
      assert Le(CmpTime, c, y);
    }
  }

  lemma NewestFirstStep(out: seq<Commit>, c: Commit)
    requires NewestFirst(out) && (out != [] ==> c.time <= out[|out| - 1].time)
    ensures NewestFirst(out + [c])
  {
  }

  /** What has been emitted is stored, and its stored parents are no newer. */
  lemma EmittedStored(repo: Repo, mode: Mode, start: Oid, out: seq<Commit>, s: State)
    requires Inv(repo, mode, start, out, s)
    ensures forall c :: c in out ==> c.id in repo && repo[c.id] == c
  {
  }

  lemma EmitNotNewer(repo: Repo, mode: Mode, s: State, c: Commit)
    requires NoneNewer(s.frontier, c.time) && ParentsNotNewer(repo, mode) && c.id in repo && repo[c.id] == c
    ensures NoneNewer(Emit(repo, mode, s, c).1.frontier, c.time)
  {
    EnqueueNotNewer(repo, Followed(c, mode), State(s.frontier - multiset{c}, s.visited), c.time);
  }

  /** With no parent newer than its child, the times of a run never increase. */
  lemma {:induction false} TimesFall(repo: Repo, mode: Mode, start: Oid, out: seq<Commit>)
    requires WellKeyed(repo) && start in repo && Emits(repo, mode, StartAt(repo[start]), out)
    requires ParentsNotNewer(repo, mode)
    ensures NewestFirst(out)
    ensures out != [] ==>
      NoneNewer(StateAfter(repo, mode, StartAt(repo[start]), out).frontier, out[|out| - 1].time)
    decreases |out|
  {
    if out != [] {
      var init, c := out[..|out| - 1], out[|out| - 1];
      var s := StateAfter(repo, mode, StartAt(repo[start]), init);
      assert forall t :: NoneNewer(s.frontier, t) && c in s.frontier ==> c.time <= t;
      hide *;
      LastStep(repo, mode, StartAt(repo[start]), out);
      TimesFall(repo, mode, start, init);
      RunInv(repo, mode, start, init);
      Newest(c, s.frontier);
      FrontierVisited(repo, mode, start, init, s, c);
      EmitNotNewer(repo, mode, s, c);
      NewestFirstStep(init, c);
    }
  }

  /** With parents strictly older, every commit comes out before its parents. */
  lemma {:induction false} ChildrenFirst(repo: Repo, mode: Mode, start: Oid, out: seq<Commit>)
    requires WellKeyed(repo) && start in repo && Emits(repo, mode, StartAt(repo[start]), out)
    requires ParentsOlder(repo, mode)
    ensures forall i, j :: 0 <= i < |out| && 0 <= j < |out| && out[j].id in Followed(out[i], mode) ==> i < j
  {
    hide *;
    OlderIsNotNewer(repo, mode);
    TimesFall(repo, mode, start, out);
    RunInv(repo, mode, start, out);
    EmittedStored(repo, mode, start, out, StateAfter(repo, mode, StartAt(repo[start]), out));
    OlderComesLater(repo, mode, out);
  }

  lemma OlderIsNotNewer(repo: Repo, mode: Mode)
    requires ParentsOlder(repo, mode)
    ensures ParentsNotNewer(repo, mode)
  {
  }

  lemma OlderComesLater(repo: Repo, mode: Mode, out: seq<Commit>)
    requires ParentsOlder(repo, mode) && NewestFirst(out)
    requires forall c :: c in out ==> c.id in repo && repo[c.id] == c
    ensures forall i, j :: 0 <= i < |out| && 0 <= j < |out| && out[j].id in Followed(out[i], mode) ==> i < j
  {
    hide Followed;
    forall i, j | 0 <= i < |out| && 0 <= j < |out| && out[j].id in Followed(out[i], mode) ensures i < j {
      assert out[i] in out && out[j] in out;
      assert repo[out[j].id].time < repo[out[i].id].time;
    }
  }

  // ---------- following first parents only ----------

  /** `out` follows first parents from `start`. */
  ghost predicate FirstParents(start: Oid, out: seq<Commit>) {
    && (out != [] ==> out[0].id == start)
    && forall i, j :: 0 <= i < |out| && j == i + 1 < |out| ==> IsFirstParent(out[j].id, out[i])
  }

  predicate IsFirstParent(o: Oid, c: Commit) {
    c.parents != [] && o == c.parents[0]
  }

  /** What a first-parent walk has left to do after emitting `out`: the one commit that comes next, or nothing. */
  ghost predicate NextFirstParent(repo: Repo, start: Oid, out: seq<Commit>, m: multiset<Commit>) {
    if out == [] then start in repo && m == multiset{repo[start]}
    else
      var c := out[|out| - 1];
      && (m == multiset{} ==> c.parents == [] || (c.parents[0] in repo && repo[c.parents[0]] in out))
      && (m != multiset{} ==> c.parents != [] && c.parents[0] in repo && m == multiset{repo[c.parents[0]]})
  }

  /** In first-parent mode a run follows the first-parent chain, until a commit without parents or one met before. */
  lemma {:induction false} FirstParentRun(repo: Repo, start: Oid, out: seq<Commit>)
    requires WellKeyed(repo) && start in repo && Emits(repo, FirstParent, StartAt(repo[start]), out)
    ensures FirstParents(start, out)
    ensures NextFirstParent(repo, start, out, StateAfter(repo, FirstParent, StartAt(repo[start]), out).frontier)
    decreases |out|
  {
    if out != [] {
      hide *;
      LastStep(repo, FirstParent, StartAt(repo[start]), out);
      FirstParentRun(repo, start, out[..|out| - 1]);
      RunInv(repo, FirstParent, start, out);
      FirstParentStep(repo, start, out[..|out| - 1], out[|out| - 1],
                      StateAfter(repo, FirstParent, StartAt(repo[start]), out[..|out| - 1]),
                      StateAfter(repo, FirstParent, StartAt(repo[start]), out));
    }
  }

  lemma FirstParentStep(repo: Repo, start: Oid, out: seq<Commit>, c: Commit, s: State, t: State)
    requires WellKeyed(repo) && FirstParents(start, out) && NextFirstParent(repo, start, out, s.frontier)
    requires c in s.frontier && Emit(repo, FirstParent, s, c) == (true, t)
    requires Inv(repo, FirstParent, start, out + [c], t)
    ensures FirstParents(start, out + [c]) && NextFirstParent(repo, start, out + [c], t.frontier)
  {
    hide Inv, Enqueue, Followed;
    assert s.frontier == multiset{c};
    assert s.frontier - multiset{c} == multiset{};
    EnqueueFollowed(repo, c, State(multiset{}, s.visited));
    VisitedEmitted(repo, start, out + [c], t);
  }

  /** With an empty frontier all that has been visited has been emitted. */
  lemma VisitedEmitted(repo: Repo, start: Oid, out: seq<Commit>, t: State)
    requires Inv(repo, FirstParent, start, out, t)
    ensures t.frontier == multiset{} ==> forall o :: o in t.visited ==> o in repo && repo[o] in out
    ensures forall o :: o in t.visited ==> o in repo
  {
    hide Reachable;
  }

  lemma EnqueueFollowed(repo: Repo, c: Commit, s: State)
    requires Enqueue(repo, Followed(c, FirstParent), s).0
    ensures Enqueue(repo, Followed(c, FirstParent), s).1
      == if c.parents == [] || c.parents[0] in s.visited then s
         else State(s.frontier + multiset{repo[c.parents[0]]}, s.visited + {c.parents[0]})
    ensures c.parents == [] || c.parents[0] in s.visited || c.parents[0] in repo
  {
    if c.parents != [] {
      var ps := Followed(c, FirstParent);
      assert ps[0] == c.parents[0] && ps[1..] == [];
    }
  }

  /** Parents rank strictly below their children, so there is no cycle. */
  ghost predicate Ranked(repo: Repo, rank: Oid -> nat) {
    forall o, q :: o in repo && q in repo[o].parents ==> rank(q) < rank(o)
  }

  lemma {:induction false} RanksFall(repo: Repo, rank: Oid -> nat, start: Oid, out: seq<Commit>, i: nat, j: nat)
    requires Ranked(repo, rank) && FirstParents(start, out) && i <= j < |out|
    requires forall c :: c in out ==> c.id in repo && repo[c.id] == c
    ensures rank(out[j].id) <= rank(out[i].id)
    decreases j
  {
    if i < j {
      RanksFall(repo, rank, start, out, i, j - 1);
      assert out[j - 1] in out && IsFirstParent(out[j].id, out[j - 1]);
    }
  }

  /** Without cycles a finished first-parent run is the whole chain, down to a commit without parents. */
  lemma FirstParentToRoot(repo: Repo, rank: Oid -> nat, start: Oid, out: seq<Commit>)
    requires WellKeyed(repo) && start in repo && Emits(repo, FirstParent, StartAt(repo[start]), out)
    requires StateAfter(repo, FirstParent, StartAt(repo[start]), out).frontier == multiset{}
    requires Ranked(repo, rank)
    ensures FirstParents(start, out) && out != [] && out[|out| - 1].parents == []
  {
    FirstParentRun(repo, start, out);
    WalkExact(repo, FirstParent, start, out);
    assert repo[start] in multiset{repo[start]};
    var n := |out| - 1;
    assert out[n] in out;
    if out[n].parents != [] {
      var q := out[n].parents[0];
      var i :| 0 <= i < |out| && out[i] == repo[q];
      RanksFall(repo, rank, start, out, i, n);
    }
  }

  // ---------- when a parent is newer than its child ----------

  function SomeOid(b: Byte): Oid {
    seq(20, _ => b)
  }

  /** A merge of 1 and 2, where 2 is also a parent of 1 but has a later time than it. */
  function Skewed(): Repo {
    map[SomeOid(0) := Commit(SomeOid(0), 30, [SomeOid(1), SomeOid(2)]),
        SomeOid(1) := Commit(SomeOid(1), 10, [SomeOid(2)]),
        SomeOid(2) := Commit(SomeOid(2), 20, [])]
  }

  /** Then the parent comes out before its child. */
  lemma ParentBeforeChild()
    ensures WellKeyed(Skewed()) && !ParentsNotNewer(Skewed(), All)
    ensures var repo := Skewed();
      var out := [repo[SomeOid(0)], repo[SomeOid(2)], repo[SomeOid(1)]];
      && Emits(repo, All, StartAt(out[0]), out)
      && StateAfter(repo, All, StartAt(out[0]), out).frontier == multiset{}
      && out[1].id in Followed(out[2], All)
  {
    hide Emits, StateAfter;
    DistinctOids();
    SkewedRun();
    var repo := Skewed();
    assert repo[SomeOid(1)].parents[0] == SomeOid(2);
  }

  lemma SkewedRun()
    ensures var repo := Skewed();
      var out := [repo[SomeOid(0)], repo[SomeOid(2)], repo[SomeOid(1)]];
      && Emits(repo, All, StartAt(out[0]), out)
      && StateAfter(repo, All, StartAt(out[0]), out).frontier == multiset{}
  {
    hide Emits, StateAfter;
    DistinctOids();
    var repo := Skewed();
    NewParentFirst(repo, repo[SomeOid(0)], repo[SomeOid(1)], repo[SomeOid(2)]);
  }

  /** A merge of `b` and its parent `c`, with `c` newer than `b`. */
  lemma {:induction false} NewParentFirst(repo: Repo, a: Commit, b: Commit, c: Commit)
    requires a.parents == [b.id, c.id] && b.parents == [c.id] && c.parents == [] && b.time < c.time
    requires a.id != b.id && a.id != c.id && b.id != c.id
    requires b.id in repo && repo[b.id] == b && c.id in repo && repo[c.id] == c
    ensures Emits(repo, All, StartAt(a), [a, c, b])
    ensures StateAfter(repo, All, StartAt(a), [a, c, b]).frontier == multiset{}
  {
    hide Emits, StateAfter, Emit;
    var all := {a.id, b.id, c.id};
    var s1, s2, s3 := State(multiset{b, c}, all), State(multiset{b}, all), State(multiset{}, all);
    EmitTwo(repo, a, b, c);
    EmitRoot(repo, c, s1);
    assert multiset{b, c} - multiset{c} == multiset{b};
    EmitLast(repo, b, s2);
    assert multiset{b} - multiset{b} == multiset{};
    NoRun(repo, All, StartAt(a));
    SnocRun(repo, All, StartAt(a), [], StartAt(a), a, s1);
    assert [] + [a] == [a];
    SnocRun(repo, All, StartAt(a), [a], s1, c, s2);
    assert [a] + [c] == [a, c];
    SnocRun(repo, All, StartAt(a), [a, c], s2, b, s3);
    assert [a, c] + [b] == [a, c, b];
  }

  lemma EmitTwo(repo: Repo, a: Commit, b: Commit, c: Commit)
    requires a.parents == [b.id, c.id] && a.id != b.id && a.id != c.id && b.id != c.id
    requires b.id in repo && repo[b.id] == b && c.id in repo && repo[c.id] == c
    ensures Emit(repo, All, StartAt(a), a) == (true, State(multiset{b, c}, {a.id, b.id, c.id}))
  {
    var m := State(multiset{}, {a.id});
    assert State(StartAt(a).frontier - multiset{a}, StartAt(a).visited) == m;
    assert a.parents[0..] == a.parents && a.parents[2..] == [];
    EnqueueNext(repo, a.parents, 0, m);
    EnqueueNext(repo, a.parents, 1, State(multiset{b}, {a.id, b.id}));
    assert multiset{} + multiset{b} == multiset{b} && multiset{b} + multiset{c} == multiset{b, c};
    assert {a.id} + {b.id} == {a.id, b.id} && {a.id, b.id} + {c.id} == {a.id, b.id, c.id};
  }

  lemma EmitRoot(repo: Repo, c: Commit, s: State)
    requires c.parents == []
    ensures Emit(repo, All, s, c) == (true, State(s.frontier - multiset{c}, s.visited))
  {
  }

  /** A commit whose one parent has been visited. */
  lemma EmitLast(repo: Repo, b: Commit, s: State)
    requires |b.parents| == 1 && b.parents[0] in s.visited
    ensures Emit(repo, All, s, b) == (true, State(s.frontier - multiset{b}, s.visited))
  {
    assert Followed(b, All) == b.parents;
    EnqueueNext(repo, b.parents, 0, State(s.frontier - multiset{b}, s.visited));
    assert b.parents[0..] == b.parents && b.parents[1..] == [];
  }

  lemma NoRun(repo: Repo, mode: Mode, s: State)
    ensures Emits(repo, mode, s, []) && StateAfter(repo, mode, s, []) == s
  {
  }

  lemma DistinctOids()
    ensures SomeOid(0) != SomeOid(1) && SomeOid(0) != SomeOid(2) && SomeOid(1) != SomeOid(2)
  {
    assert SomeOid(0)[0] == 0 && SomeOid(1)[0] == 1 && SomeOid(2)[0] == 2;
  }

  lemma SnocRun(repo: Repo, mode: Mode, s: State, out: seq<Commit>, t: State, c: Commit, u: State)
    requires Emits(repo, mode, s, out) && StateAfter(repo, mode, s, out) == t
    requires LeastIn(c, t.frontier, CmpTime) && Emit(repo, mode, t, c) == (true, u)
    ensures Emits(repo, mode, s, out + [c]) && StateAfter(repo, mode, s, out + [c]) == u
  {
    assert (out + [c])[..|out|] == out;
  }

  // ---------- the walker ----------

  lemma EnqueueNext(repo: Repo, ps: seq<Oid>, i: nat, s: State)
    requires i < |ps|
    ensures Enqueue(repo, ps[i..], s) ==
      if ps[i] in s.visited then Enqueue(repo, ps[i + 1..], s)
      else if ps[i] !in repo then (false, s)
      else Enqueue(repo, ps[i + 1..], State(s.frontier + multiset{repo[ps[i]]}, s.visited + {ps[i]}))
  {
    assert ps[i..][1..] == ps[i + 1..];
  }

  lemma FollowedParents(c: Commit, mode: Mode)
    ensures |Followed(c, mode)| == if mode.All? || c.parents == [] then |c.parents| else 1
    ensures Followed(c, mode) <= c.parents
  {
  }

  lemma EnqueueDone(repo: Repo, ps: seq<Oid>, s: State)
    requires ps == []
    ensures Enqueue(repo, ps, s) == (true, s)
  {
  }

  lemma EmitIs(repo: Repo, mode: Mode, s: State)
    ensures forall c ::
      Emit(repo, mode, s, c) == Enqueue(repo, Followed(c, mode), State(s.frontier - multiset{c}, s.visited))
  {
  }

  lemma CmpTimeWeakOrder()
    ensures WeakOrder(CmpTime)
  {
  }

  class RevWalker {
    const repo: Repo
    var mode: Mode
    /** Commits still to be emitted, newest first. */
    const pq: Heap<Commit>
    const visited: Set<Oid>

    ghost function Repr(): set<object>
      reads this, pq.vec, visited.tbl
    {
      {pq.vec, pq.vec.buf, visited.tbl, visited.tbl.buckets} + visited.tbl.own
    }

    ghost predicate Valid()
      reads this, Repr(), pq, visited
    {
      && pq.Valid() && visited.Valid() && pq.cmp == CmpTime && WellKeyed(repo)
      && {pq.vec as object, pq.vec.buf} !! {visited.tbl as object, visited.tbl.buckets} + visited.tbl.own
      && this !in Repr()
    }

    ghost function Now(): State
      requires Valid()
      reads this, Repr(), pq, visited
    {
      State(pq.Elements(), visited.Elements())
    }

    /** `qgit_revwalk_new`. */
    constructor (repo: Repo)
      requires WellKeyed(repo)
      ensures Valid() && Now() == BLANK && mode == All && this.repo == repo
      ensures forall o :: o in Repr() ==> !old(allocated(o))
    {
      hide Heap.Valid, Heap.Elements, Set.Valid, Set.Elements, WeakOrder, WellKeyed;
      CmpTimeWeakOrder();
      this.repo, mode := repo, All;
      pq := new Heap(CmpTime);
      visited := new Set(OidHash);
    }

    lemma Separate()
      requires Valid()
      ensures this !in Repr() && WellKeyed(repo)
    {
    }

    /** `qgit_revwalk_set_mode`. */
    method SetMode(mode: Mode)
      requires Valid()
      modifies this`mode
      ensures Valid() && this.mode == mode && Now() == old(Now()) && Repr() == old(Repr())
    {
      hide Heap.Valid, Heap.Elements, Set.Valid, Set.Elements;
      this.mode := mode;
    }

    /** `qgit_revwalk_reset`. */
    method Reset()
      requires Valid()
      modifies Repr()
      ensures Valid() && Now() == BLANK && Repr() == old(Repr())
    {
      hide Heap.Valid, Heap.Elements, Set.Valid, Set.Elements;
      pq.Clear();
      visited.Clear();
    }

    /** `qgit_revwalk_push`: only a blank walker can be given a commit to start from. */
    method Push(oid: Oid) returns (ok: bool)
      requires Valid()
      modifies Repr()
      ensures Valid() && forall o :: o in Repr() ==> o in old(Repr()) || !old(allocated(o))
      ensures ok <==> old(Now()) == BLANK && oid in repo
      ensures Now() == if ok then StartAt(repo[oid]) else old(Now())
    {
      hide Heap.Valid, Heap.Elements, Set.Valid, Set.Elements;
      var pqEmpty := pq.Empty();
      var setEmpty := visited.Empty();
      if !pqEmpty || !setEmpty { return false; }
      if oid !in repo { return false; }
      pq.Push(repo[oid]);
      ok := visited.Insert(oid);
    }

    /** The loop of `next_commit` over the parents of the popped commit. */
    method EnqueueParents(c: Commit) returns (ok: bool)
      requires Valid()
      modifies Repr()
      ensures Valid() && forall o :: o in Repr() ==> o in old(Repr()) || !old(allocated(o))
      ensures (ok, Now()) == Enqueue(repo, Followed(c, mode), old(Now()))
    {
      hide *;
      Separate();
      ghost var ps := Followed(c, mode);
      FollowedParents(c, mode);
      var parentcount := if mode.All? then |c.parents| else 1;
      if c.parents == [] {
        EnqueueDone(repo, ps, Now());
        return true;
      }
      assert ps[0..] == ps;
      var i := 0;
      while i < parentcount
        invariant Valid() && forall o :: o in Repr() ==> o in old(Repr()) || !old(allocated(o))
        invariant i <= parentcount == |ps|
        invariant Enqueue(repo, ps, old(Now())) == Enqueue(repo, ps[i..], Now())
      {
        EnqueueNext(repo, ps, i, Now());
        ok := EnqueueParent(c.parents[i]);
        if !ok { return; }
        i := i + 1;
      }
      ok := true;
      EnqueueDone(repo, ps[i..], Now());
    }

    method EnqueueParent(parent: Oid) returns (ok: bool)
      requires Valid()
      modifies Repr()
      ensures Valid() && forall o :: o in Repr() ==> o in old(Repr()) || !old(allocated(o))
      ensures ok <==> parent in old(Now()).visited || parent in repo
      ensures Now() == if parent in old(Now()).visited || !ok then old(Now())
                       else State(old(Now()).frontier + multiset{repo[parent]}, old(Now()).visited + {parent})
    {
      hide Heap.Valid, Heap.Elements, Set.Valid, Set.Elements;
      var seen := visited.Contains(parent);
      if seen { return true; }
      if parent !in repo { return false; }
      pq.Push(repo[parent]);
      ok := visited.Insert(parent);
    }

    /** The newest commit of the queue, if it is not empty. */
    method PopNewest() returns (empty: bool, c: Commit)
      requires Valid()
      modifies Repr()
      ensures Valid() && Repr() == old(Repr())
      ensures empty <==> old(Now()).frontier == multiset{}
      ensures empty ==> Now() == old(Now())
      ensures !empty ==> LeastIn(c, old(Now()).frontier, CmpTime)
      ensures !empty ==> Now() == State(old(Now()).frontier - multiset{c}, old(Now()).visited)
    {
      hide Heap.Valid, Heap.Elements, Set.Valid, Set.Elements, LeastIn;
      c := *;
      empty := pq.Empty();
      if !empty {
        var popped, commit := pq.Pop();
        c := commit;
      }
    }

    /** `qgit_revwalk_next`: 0 with the emitted commit, 1 at the end of the walk, -1 on failure. */
    method Next() returns (ret: int, oid: Oid, ghost c: Commit)
      requires Valid()
      modifies Repr()
      ensures Valid() && forall o :: o in Repr() ==> o in old(Repr()) || !old(allocated(o))
      ensures ret == 1 <==> old(Now()).frontier == multiset{}
      ensures ret == 1 ==> Now() == BLANK
      ensures ret != 1 ==>
        && LeastIn(c, old(Now()).frontier, CmpTime)
        && (ret == 0, Now()) == Emit(repo, mode, old(Now()), c)
        && (ret == 0 || ret == -1) && (ret == 0 ==> oid == c.id)
    {
      oid, c := *, *;
      hide *;
      Separate();
      EmitIs(repo, mode, Now());
      var empty, commit := PopNewest();
      if empty {
        Reset();
        ret := 1;
        return;
      }
      c := commit;
      var ok := EnqueueParents(commit);
      if !ok { return -1, oid, c; }
      return 0, commit.id, c;
    }
  }

  // ---------- log ----------

  /**
   * `log`: walks from a commit, at most `limit` commits far, and prints what comes out.
   * Without a limit it succeeds if and only if every reachable commit is stored, and then has
   * finished; with one, it may stop early.
   */
  method Log(repo: Repo, mode: Mode, start: Oid, limit: Option<nat>) returns (ok: bool, out: seq<Commit>)
    requires WellKeyed(repo)
    ensures start in repo ==> Emits(repo, mode, StartAt(repo[start]), out)
    ensures ok && (limit.None? || |out| < limit.value) ==> Finished(repo, mode, start, out)
    ensures limit.Some? ==> |out| <= limit.value
    ensures AllReachableStored(repo, mode, start) ==> ok
    ensures ok ==> start in repo
    ensures ok && limit.None? ==> AllReachableStored(repo, mode, start)
  {
    hide *;
    out := [];
    var walker := new RevWalker(repo);
    walker.SetMode(mode);
    walker.Separate();
    StartStored(repo, mode, start);
    ok := walker.Push(start);
    if !ok { return; }
    ghost var first := StartAt(repo[start]);
    NoRun(repo, mode, first);
    while limit.None? || |out| < limit.value
      invariant walker.Valid() && fresh(walker) && walker.repo == repo && walker.mode == mode
      invariant forall o :: o in walker.Repr() ==> !old(allocated(o))
      invariant Emits(repo, mode, first, out) && StateAfter(repo, mode, first, out) == walker.Now()
      invariant limit.Some? ==> |out| <= limit.value
      decreases |repo| - |out|
    {
      var ret, oid := OneMore(walker, start, out);
      if ret == 1 { return; }
      if ret == -1 { return false, out; }
      out := out + [repo[oid]];
    }
  }

  /** One turn of the loop: the run so far gets longer, or the walk is over, or a commit is missing. */
  method OneMore(walker: RevWalker, ghost start: Oid, ghost out: seq<Commit>) returns (ret: int, oid: Oid)
    requires walker.Valid() && start in walker.repo
    requires Emits(walker.repo, walker.mode, StartAt(walker.repo[start]), out)
    requires StateAfter(walker.repo, walker.mode, StartAt(walker.repo[start]), out) == walker.Now()
    modifies walker.Repr()
    ensures walker.Valid() && walker.mode == old(walker.mode)
    ensures forall o :: o in walker.Repr() ==> o in old(walker.Repr()) || !old(allocated(o))
    ensures ret == 0 || ret == 1 || ret == -1
    ensures ret == 0 ==> oid in walker.repo && |out| < |walker.repo|
    ensures ret == 0 ==> Emits(walker.repo, walker.mode, StartAt(walker.repo[start]), out + [walker.repo[oid]])
    ensures ret == 0 ==>
      StateAfter(walker.repo, walker.mode, StartAt(walker.repo[start]), out + [walker.repo[oid]]) == walker.Now()
    ensures ret == 1 ==> Finished(walker.repo, walker.mode, start, out)
    ensures ret == 1 ==> AllReachableStored(walker.repo, walker.mode, start) && walker.Now() == BLANK
    ensures ret == -1 ==> !AllReachableStored(walker.repo, walker.mode, start)
  {
    hide *;
    walker.Separate();
    ghost var s := walker.Now();
    ghost var c;
    ret, oid, c := walker.Next();
    if ret == 1 {
      WalkedAll(walker.repo, walker.mode, start, out);
    } else if ret == -1 {
      Newest(c, s.frontier);
      StuckMeansMissing(walker.repo, walker.mode, start, out, c);
    } else {
      NextEmitted(walker.repo, walker.mode, start, out, s, c, walker.Now());
    }
  }

  /** `out` is all that comes out of a walk from `start`. */
  ghost predicate Finished(repo: Repo, mode: Mode, start: Oid, out: seq<Commit>) {
    && start in repo
    && Emits(repo, mode, StartAt(repo[start]), out)
    && StateAfter(repo, mode, StartAt(repo[start]), out).frontier == multiset{}
  }

  lemma StartStored(repo: Repo, mode: Mode, start: Oid)
    ensures AllReachableStored(repo, mode, start) ==> start in repo
  {
    ReachSelf(repo, mode, start);
  }

  lemma {:induction false} WalkedAll(repo: Repo, mode: Mode, start: Oid, out: seq<Commit>)
    requires WellKeyed(repo) && start in repo && Emits(repo, mode, StartAt(repo[start]), out)
    requires StateAfter(repo, mode, StartAt(repo[start]), out).frontier == multiset{}
    ensures AllReachableStored(repo, mode, start) && Finished(repo, mode, start, out)
  {
    WalkExact(repo, mode, start, out);
  }

  /** A run made one commit longer. */
  lemma {:induction false} NextEmitted(repo: Repo, mode: Mode, start: Oid, out: seq<Commit>,
                                       s: State, c: Commit, t: State)
    requires WellKeyed(repo) && start in repo && Emits(repo, mode, StartAt(repo[start]), out)
    requires s == StateAfter(repo, mode, StartAt(repo[start]), out)
    requires LeastIn(c, s.frontier, CmpTime) && Emit(repo, mode, s, c) == (true, t)
    ensures Emits(repo, mode, StartAt(repo[start]), out + [c])
    ensures StateAfter(repo, mode, StartAt(repo[start]), out + [c]) == t
    ensures |out| < |repo| && c.id in repo && repo[c.id] == c
  {
    assert c in s.frontier;
    hide *;
    RunInv(repo, mode, start, out);
    FrontierVisited(repo, mode, start, out, s, c);
    SnocRun(repo, mode, StartAt(repo[start]), out, s, c, t);
    RunBounded(repo, mode, start, out + [c]);
  }
}
