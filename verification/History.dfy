/** The log of a run of commits: what a walk over the stored objects brings out (log.c, commit.c). */
module History {
  import opened Bytes
  import opened CommitCodec
  import opened Commits
  import opened Odb
  import opened Options
  import opened Refs
  import RevWalk

  /** The commits of the store as a walk sees them: `qgit_commit_lookup`, with the time of the committer. */
  ghost function RepoOf(objects: Objects): RevWalk.Repo {
    map o | o in objects && CommitAt(objects, o).Some?
      :: RevWalk.Commit(o, CommitAt(objects, o).value.committer.time, CommitAt(objects, o).value.parents)
  }

  lemma RepoAt(objects: Objects, oid: Oid)
    ensures oid in RepoOf(objects) <==> CommitAt(objects, oid).Some?
    ensures oid in RepoOf(objects) ==> RepoOf(objects)[oid].id == oid
    ensures var p := FirstParent(objects, oid);
      oid in RepoOf(objects) ==>
        && (p.Some? <==> RepoOf(objects)[oid].parents != [])
        && (p.Some? ==> RepoOf(objects)[oid].parents[0] == p.value)
  {
    hide ParseCommit;
  }

  lemma RepoKeyed(objects: Objects)
    ensures RevWalk.WellKeyed(RepoOf(objects))
  {
    hide CommitAt;
  }

  /** Keeping the objects keeps the commits. */
  lemma RepoKept(objects: Objects, objects': Objects)
    requires Keeps(objects, objects')
    ensures forall o :: o in RepoOf(objects) ==> o in RepoOf(objects') && RepoOf(objects')[o] == RepoOf(objects)[o]
  {
    hide ParseCommit;
  }

  // ---------- chains of first parents ----------

  /** The first-parent chain from `start`, to a commit without parents. */
  ghost predicate Chain(repo: RevWalk.Repo, start: Oid, out: seq<RevWalk.Commit>)
    decreases |out|
  {
    && out != [] && start in repo && out[0] == repo[start]
    && if |out| == 1 then out[0].parents == []
       else out[0].parents != [] && Chain(repo, out[0].parents[0], out[1..])
  }

  lemma {:induction false} OneChain(repo: RevWalk.Repo, start: Oid, a: seq<RevWalk.Commit>, b: seq<RevWalk.Commit>)
    requires Chain(repo, start, a) && Chain(repo, start, b)
    ensures a == b
    decreases |a|
  {
    if |a| > 1 {
      OneChain(repo, a[0].parents[0], a[1..], b[1..]);
      assert a == [a[0]] + a[1..] && b == [b[0]] + b[1..];
    }
  }

  /** A chain is one in any repository that has its commits. */
  lemma {:induction false} ChainKept(repo: RevWalk.Repo, repo': RevWalk.Repo, start: Oid, out: seq<RevWalk.Commit>)
    requires Chain(repo, start, out) && forall o :: o in repo ==> o in repo' && repo'[o] == repo[o]
    ensures Chain(repo', start, out)
    decreases |out|
  {
    if |out| > 1 { ChainKept(repo, repo', out[0].parents[0], out[1..]); }
  }

  lemma {:induction false} ChainFrom(repo: RevWalk.Repo, start: Oid, out: seq<RevWalk.Commit>)
    requires RevWalk.FirstParents(start, out) && out != [] && out[|out| - 1].parents == []
    requires forall c :: c in out ==> c.id in repo && repo[c.id] == c
    ensures Chain(repo, start, out)
    decreases |out|
  {
    assert out[0] in out;
    if |out| > 1 {
      var rest := out[1..];
      assert RevWalk.IsFirstParent(out[1].id, out[0]);
      forall i, j | 0 <= i < |rest| && j == i + 1 < |rest| ensures RevWalk.IsFirstParent(rest[j].id, rest[i]) {
        assert rest[i] == out[i + 1] && rest[j] == out[j + 1];
      }
      assert rest[|rest| - 1] == out[|out| - 1];
      ChainFrom(repo, out[0].parents[0], rest);
    }
  }

  /** What a finished first-parent walk brings out, in a graph without cycles, is the chain. */
  lemma {:induction false} WalkedChain(repo: RevWalk.Repo, rank: Oid -> nat, start: Oid, out: seq<RevWalk.Commit>)
    requires RevWalk.WellKeyed(repo) && RevWalk.Finished(repo, RevWalk.FirstParent, start, out)
    requires RevWalk.Ranked(repo, rank)
    ensures Chain(repo, start, out)
  {
    hide Chain, RevWalk.FirstParents, RevWalk.Ranked, RevWalk.Emits, RevWalk.StateAfter;
    RevWalk.FirstParentToRoot(repo, rank, start, out);
    RevWalk.WalkExact(repo, RevWalk.FirstParent, start, out);
    ChainFrom(repo, start, out);
  }

  // ---------- the log of a run ----------

  function Ids(out: seq<RevWalk.Commit>): seq<Oid> {
    if out == [] then [] else [out[0].id] + Ids(out[1..])
  }

  lemma {:induction false} ChainLonger(objects: Objects, oid: Oid, parent: Option<Oid>, rest: seq<RevWalk.Commit>)
    returns (out: seq<RevWalk.Commit>)
    requires CommitAt(objects, oid).Some? && FirstParent(objects, oid) == parent
    requires if parent.Some? then Chain(RepoOf(objects), parent.value, rest) else rest == []
    ensures Chain(RepoOf(objects), oid, out) && Ids(out) == [oid] + Ids(rest)
  {
    hide CommitAt, FirstParent, RepoOf;
    RepoAt(objects, oid);
    out := [RepoOf(objects)[oid]] + rest;
    assert out[1..] == rest;
  }

  /** The chain from the newest commit of a run: the run in reverse, then the chain from the old tip. */
  lemma {:induction false} ChainOfRun(objects: Objects, tip: Outcome, steps: seq<Step>, old': seq<RevWalk.Commit>)
    returns (out: seq<RevWalk.Commit>)
    requires Linked(objects, tip, steps) && steps != []
    requires if tip.Resolved? then Chain(RepoOf(objects), tip.oid, old') else Lines(steps[0].commit) && old' == []
    ensures Chain(RepoOf(objects), steps[|steps| - 1].oid, out) && Ids(out) == OidsBack(steps) + Ids(old')
    decreases |steps|
  {
    hide CommitAt, FirstParent, Lines, Chain, RepoOf, Ids;
    var k := |steps| - 1;
    var init := steps[..k];
    assert Follows(objects, steps[k], Previous(tip, steps, k));
    if k == 0 {
      assert OidsBack(init) == [];
      out := ChainLonger(objects, steps[k].oid, Previous(tip, steps, k), old');
    } else {
      LinkedInit(objects, tip, steps);
      var rest := ChainOfRun(objects, tip, init, old');
      out := ChainLonger(objects, steps[k].oid, Previous(tip, steps, k), rest);
      assert [steps[k].oid] + (OidsBack(init) + Ids(old')) == [steps[k].oid] + OidsBack(init) + Ids(old');
    }
  }

  /**
   * The first-parent log after a run of commits: the run in reverse, then the log before the run. A
   * run that starts without a commit needs its first one to have name and address on one line.
   */
  lemma {:induction false} LogAfterRun(w: World, steps: seq<Step>, w': World, rank: Oid -> nat,
                                       before: seq<RevWalk.Commit>, after: seq<RevWalk.Commit>)
    requires SettlesAt(w.refs, HEAD) && LookupRef(w.refs, HEAD).Found?
    requires Run(w, steps, w') && steps != [] && RevWalk.Ranked(RepoOf(w'.objects), rank)
    requires var tip := Tip(w.refs, HEAD);
      if tip.Resolved? then RevWalk.Finished(RepoOf(w.objects), RevWalk.FirstParent, tip.oid, before)
      else Lines(steps[0].commit) && before == []
    requires SettlesAt(w'.refs, HEAD) && Tip(w'.refs, HEAD).Resolved?
    requires RevWalk.Finished(RepoOf(w'.objects), RevWalk.FirstParent, Tip(w'.refs, HEAD).oid, after)
    ensures Ids(after) == OidsBack(steps) + Ids(before)
  {
    hide *;
    var tip, repo := Tip(w.refs, HEAD), RepoOf(w'.objects);
    RunOfCommits(w, steps, w');
    RepoKeyed(w.objects);
    RepoKeyed(w'.objects);
    if tip.Resolved? {
      RunKeeps(w, steps, w');
      RepoKept(w.objects, w'.objects);
      RankedBefore(RepoOf(w.objects), repo, rank);
      WalkedChain(RepoOf(w.objects), rank, tip.oid, before);
      ChainKept(RepoOf(w.objects), repo, tip.oid, before);
    }
    var out := ChainOfRun(w'.objects, tip, steps, before);
    WalkedChain(repo, rank, Tip(w'.refs, HEAD).oid, after);
    OneChain(repo, Tip(w'.refs, HEAD).oid, after, out);
  }

  lemma RankedBefore(repo: RevWalk.Repo, repo': RevWalk.Repo, rank: Oid -> nat)
    requires RevWalk.Ranked(repo', rank) && forall o :: o in repo ==> o in repo' && repo'[o] == repo[o]
    ensures RevWalk.Ranked(repo, rank)
  {
  }

  lemma {:induction false} RunKeeps(w: World, steps: seq<Step>, w': World)
    requires Run(w, steps, w')
    ensures Keeps(w.objects, w'.objects)
    decreases |steps|
  {
    hide *;
    if steps == [] {
      NoCommits(w, w');
      KeepsReflexive(w.objects);
    } else {
      var mid := LastCommit(w, steps, w');
      RunKeeps(w, steps[..|steps| - 1], mid);
      StepOfRun(mid, steps[|steps| - 1], w');
      KeepsTransitive(w.objects, mid.objects, w'.objects);
    }
  }
}
