/** Making commits: reading HEAD, writing tree and commit, advancing the branch (commit.c, commit_create.c). */
module Commits {
  import opened Bytes
  import opened CommitCodec
  import opened Index
  import Ini
  import opened Odb
  import opened Options
  import opened Payload
  import opened Readability
  import opened Refs
  import opened Signatures
  import opened TreeBuild
  import Trees

  type Objects = map<Oid, RawObj>

  // ---------- commit objects ----------

  /** `qgit_commit_lookup`: the object must be there, be a commit and parse. */
  function CommitAt(objects: Objects, oid: Oid): Option<Commit> {
    if oid in objects && objects[oid].kind.CommitObj? then ParseCommit(objects[oid].data) else None
  }

  method LookupCommit(odb: Odb, oid: Oid) returns (r: Option<Commit>)
    ensures r == CommitAt(odb.objects, oid)
  {
    if oid !in odb.objects || odb.objects[oid].kind != CommitObj { return None; }
    var data := odb.objects[oid].data;
    var buf := new Byte[|data|](i requires 0 <= i < |data| => data[i]);
    assert buf[..] == data;
    r := CommitParse(buf);
  }

  function FirstParent(objects: Objects, oid: Oid): Option<Oid> {
    var c := CommitAt(objects, oid);
    if c.Some? && c.value.parents != [] then Some(c.value.parents[0]) else None
  }

  /** The commit and up to `n` more, following first parents. */
  function Ancestors(objects: Objects, oid: Oid, n: nat): seq<Oid>
    decreases n
  {
    var p := FirstParent(objects, oid);
    if n == 0 || p.None? then [oid] else [oid] + Ancestors(objects, p.value, n - 1)
  }

  /** The name of a printed commit. */
  function NameOf(odb: Odb, c: Commit): Oid {
    odb.sha1(RawObj(CommitObj, PrintCommit(c)))
  }

  /** `qgit_commit_create`: the object is stored even if the reference then cannot be advanced. */
  method CommitCreate(store: RefStore, odb: Odb, updateRef: Option<Text>, c: Commit) returns (ok: bool, oid: Oid)
    requires odb.Valid() && (updateRef.Some? ==> SettlesAt(store.refs, updateRef.value))
    modifies store, odb
    ensures odb.Valid() && (old(odb.collided) ==> odb.collided)
    ensures oid == NameOf(odb, c)
    ensures odb.objects == old(odb.objects)[oid := RawObj(CommitObj, PrintCommit(c))]
    ensures !odb.collided ==> Trees.Extends(old(odb.Trees()), odb.Trees()) && Keeps(old(odb.objects), odb.objects)
    ensures ok <==> updateRef.None? || Advanced(old(store.refs), updateRef.value, oid).Some?
    ensures store.refs ==
      if ok && updateRef.Some? then Advanced(old(store.refs), updateRef.value, oid).value else old(store.refs)
  {
    hide PrintCommit, Advanced, SettlesAt;
    var printed, data := CommitData(c);
    oid := odb.Write(CommitObj, data);
    ok := true;
    if updateRef.Some? {
      ok := Advance(store, updateRef.value, oid);
    }
  }

  // ---------- one commit command ----------

  datatype World = World(refs: Refs, objects: Objects)
  datatype Step = Step(oid: Oid, commit: Commit)

  /** What the new commit gets as parents. */
  function TipList(tip: Outcome): seq<Oid> {
    if tip.Resolved? then [tip.oid] else []
  }

  /** A successful commit command: a new commit on what HEAD resolves to, and HEAD's reference advanced to it. */
  ghost predicate Committed(w: World, s: Step, w': World) {
    && SettlesAt(w.refs, HEAD) && LookupRef(w.refs, HEAD).Found? && !Tip(w.refs, HEAD).Failed?
    && CommitCodec.Representable(s.commit) && s.commit.parents == TipList(Tip(w.refs, HEAD))
    && (forall o :: o in s.commit.parents ==> CommitAt(w.objects, o).Some?)
    && Keeps(w.objects, w'.objects)
    && s.oid in w'.objects && w'.objects[s.oid] == RawObj(CommitObj, PrintCommit(s.commit))
    && CommitAt(w'.objects, s.oid).Some?
    && Advanced(w.refs, HEAD, s.oid) == Some(w'.refs)
  }

  /** A commit of sound signatures is found again under its name. */
  lemma {:induction false} WrittenCommit(objects: Objects, oid: Oid, c: Commit)
    requires CommitCodec.Representable(c) && Sound(c.author) && Sound(c.committer)
    requires oid in objects && objects[oid] == RawObj(CommitObj, PrintCommit(c))
    ensures CommitAt(objects, oid) == Some(ReadBack(c))
    ensures FirstParent(objects, oid) == if c.parents == [] then None else Some(c.parents[0])
  {
    hide PrintCommit, ParseCommit;
    CommitRoundTrip(c);
  }

  /** A stored commit is found exactly if it can be read. */
  lemma StoredCommit(objects: Objects, oid: Oid, c: Commit)
    requires oid in objects && objects[oid] == RawObj(CommitObj, PrintCommit(c))
    ensures CommitAt(objects, oid) == ParseCommit(PrintCommit(c))
  {
  }

  /** The parents for a new commit: HEAD must be there, and what it resolves to must be a commit. */
  ghost function ParentsAt(refs: Refs, objects: Objects): Option<seq<Oid>>
    requires SettlesAt(refs, HEAD)
  {
    if !LookupRef(refs, HEAD).Found? then None
    else
      match Tip(refs, HEAD)
      case Resolved(_, oid) => if CommitAt(objects, oid).Some? then Some([oid]) else None
      case Missing => Some([])
      case Failed => None
  }

  /** What a commit needs of HEAD: a commit it resolves to, or a branch it names that is not there yet. */
  ghost predicate CanCommit(refs: Refs, objects: Objects)
    requires SettlesAt(refs, HEAD)
  {
    && LookupRef(refs, HEAD).Found?
    && match Tip(refs, HEAD)
       case Resolved(_, oid) => CommitAt(objects, oid).Some?
       case Missing => LookupRef(refs, HEAD).ref.target !in refs
       case Failed => false
  }

  lemma CanCommitIs(refs: Refs, objects: Objects, oid: Oid)
    requires SettlesAt(refs, HEAD)
    ensures CanCommit(refs, objects) <==> ParentsAt(refs, objects).Some? && Advanced(refs, HEAD, oid).Some?
    ensures CanCommit(refs, objects) ==> LookupRef(refs, HEAD).Found?
    ensures CanCommit(refs, objects) ==>
      Advanced(refs, HEAD, oid) == Some(refs[Branch(refs) := Direct(oid)])
  {
    hide Resolve, Advanced, CommitAt, ValidName, Settles;
    if LookupRef(refs, HEAD).Found? {
      CanAdvance(refs, oid);
      if Advanced(refs, HEAD, oid).Some? { HeadAdvanced(refs, oid); }
    }
  }

  /** HEAD and what it resolves to. */
  method ReadHead(store: RefStore) returns (r: Option<Outcome>)
    requires SettlesAt(store.refs, HEAD)
    ensures r == if LookupRef(store.refs, HEAD).Found? then Some(Tip(store.refs, HEAD)) else None
  {
    hide Resolve, ValidName, Settles;
    var head := LookupRef(store.refs, HEAD);
    if !head.Found? { return None; }
    var resolved := store.ResolveRef(HEAD, head.ref);
    r := Some(resolved);
  }

  /** The reading half: HEAD and the commit it resolves to. */
  method ReadParents(store: RefStore, odb: Odb) returns (r: Option<seq<Oid>>)
    requires SettlesAt(store.refs, HEAD)
    ensures r == ParentsAt(store.refs, odb.objects)
    ensures r.Some? ==> LookupRef(store.refs, HEAD).Found? && r.value == TipList(Tip(store.refs, HEAD))
  {
    hide Tip, LookupRef, CommitAt, SettlesAt;
    var tip := ReadHead(store);
    if tip.None? || tip.value.Failed? { return None; }
    if tip.value.Missing? { return Some([]); }
    var parent := LookupCommit(odb, tip.value.oid);
    if parent.None? { return None; }
    r := Some([tip.value.oid]);
  }

  /** The writing half: the commit is stored and HEAD advanced before the commit is looked up again. */
  method WriteCommit(store: RefStore, odb: Odb, c: Commit) returns (r: Option<Oid>)
    requires odb.Valid() && SettlesAt(store.refs, HEAD) && LookupRef(store.refs, HEAD).Found?
    modifies store, odb
    ensures odb.Valid() && (old(odb.collided) ==> odb.collided)
    ensures !odb.collided ==> Trees.Extends(old(odb.Trees()), odb.Trees()) && Keeps(old(odb.objects), odb.objects)
    ensures var goes := Advanced(old(store.refs), HEAD, NameOf(odb, c));
      && store.refs == (if goes.Some? then goes.value else old(store.refs))
      && r == (if goes.Some? && ParseCommit(PrintCommit(c)).Some? then Some(NameOf(odb, c)) else None)
    ensures NameOf(odb, c) in odb.objects && odb.objects[NameOf(odb, c)] == RawObj(CommitObj, PrintCommit(c))
  {
    hide *;
    ghost var refs := store.refs;
    var ok, oid := CommitCreate(store, odb, Some(HEAD), c);
    if !ok { return None; }
    StoredCommit(odb.objects, oid, c);
    var made := LookupCommit(odb, oid);
    if made.None? { return None; }
    HeadAdvanced(refs, oid);
    var tip := ReadHead(store);
    if tip.None? || !tip.value.Resolved? { return None; }
    r := Some(oid);
  }

  /** The stored tree encodes the stage-0 entries of the index. */
  ghost predicate Snapshot(T: Trees.Store, tree: Oid, E: seq<IndexEntry>, sha1: RawObj -> Oid) {
    Encodes(T, tree, E, 0, |E|, [], MaxPathLen(E), IdOf(sha1))
  }

  lemma SnapshotKept(T: Trees.Store, T': Trees.Store, tree: Oid, E: seq<IndexEntry>, sha1: RawObj -> Oid)
    requires Encodes(T, tree, E, 0, |E|, [], MaxPathLen(E), IdOf(sha1)) && Trees.Extends(T, T')
    ensures Snapshot(T', tree, E, sha1)
  {
    hide Encodes;
    EncodesExtends(T, T', tree, E, 0, |E|, [], MaxPathLen(E), IdOf(sha1));
  }

  lemma SnapshotStored(T: Trees.Store, tree: Oid, E: seq<IndexEntry>, sha1: RawObj -> Oid)
    requires Encodes(T, tree, E, 0, |E|, [], MaxPathLen(E), IdOf(sha1))
    ensures tree in T
  {
  }

  /** The commit that the command makes of its parts. */
  predicate MadeOf(c: Commit, parents: seq<Oid>, signature: Signature, message: Text) {
    c.parents == parents && c.author == c.committer == signature && c.message == Some(message)
  }

  lemma MadeReadable(c: Commit, parents: seq<Oid>, signature: Signature, message: Text)
    requires MadeOf(c, parents, signature, message) && Signatures.Representable(signature) && IsCString(message)
    ensures CommitCodec.Representable(c)
    ensures OnOneLine(signature) ==> (ParseCommit(PrintCommit(c)).Some? <==> CanBeRead(signature))
  {
    hide PrintCommit, ParseCommit, OnOneLine, CanBeRead;
    if OnOneLine(signature) { CommitReadable(c); }
  }

  /**
   * The commit command. HEAD's branch is advanced exactly for what HEAD is and for paths that fit,
   * and no other reference changes. The command succeeds if moreover the commit can be read again:
   * with a name and an address on one line, exactly if they are readable. Otherwise it fails after
   * HEAD has been advanced.
   */
  method CommitCmd(store: RefStore, odb: Odb, index: Index, signature: Signature, message: Text)
    returns (r: Option<Oid>, ghost c: Commit)
    requires odb.Valid() && UniqueSlots(index.entries) && StagedWellFormed(index.entries)
    requires SettlesAt(store.refs, HEAD)
    requires Signatures.Representable(signature) && IsCString(message)
    modifies store, odb, index`entries
    ensures odb.Valid() && (old(odb.collided) ==> odb.collided)
    ensures !odb.collided ==>
      var refs := old(store.refs);
      var goes := CanCommit(refs, old(odb.objects)) && !TooDeep(index.entries, 0, []);
      && store.refs == (if goes then refs[Branch(refs) := Direct(NameOf(odb, c))] else refs)
      && r == (if goes && ParseCommit(PrintCommit(c)).Some? then Some(NameOf(odb, c)) else None)
      && (goes ==> MadeOf(c, TipList(Tip(refs, HEAD)), signature, message))
      && (goes ==> Snapshot(odb.Trees(), c.tree, index.entries, odb.sha1))
      && (goes && OnOneLine(signature) ==> (r.Some? <==> CanBeRead(signature)))
    ensures r.Some? && !odb.collided ==>
      Committed(World(old(store.refs), old(odb.objects)), Step(r.value, c), World(store.refs, odb.objects))
  {
    hide *;
    ghost var refs, objects := store.refs, odb.objects;
    c := *;
    CanCommitIs(refs, objects, NameOf(odb, c));
    var parents := ReadParents(store, odb);
    if parents.None? { return None, c; }
    var tree := CreateFromIndex(index, odb);
    if tree.None? { return None, c; }
    ghost var withTree, trees := odb.objects, odb.Trees();
    if !odb.collided { SnapshotStored(trees, tree.value, index.entries, odb.sha1); }
    var t := odb.LookupTree(tree.value);
    if t.None? { return None, c; }
    var commit := CommitCodec.Commit(tree.value, parents.value, signature, signature, Some(message));
    c := commit;
    MadeFrom(c, signature, message);
    MadeReadable(c, parents.value, signature, message);
    CanCommitIs(refs, objects, NameOf(odb, c));
    r := WriteCommit(store, odb, commit);
    if !odb.collided {
      KeepsTransitive(objects, withTree, odb.objects);
      SnapshotKept(trees, odb.Trees(), tree.value, index.entries, odb.sha1);
      if r.Some? {
        StoredCommit(odb.objects, r.value, c);
        MakesCommitted(World(refs, objects), Step(r.value, c), World(store.refs, odb.objects));
      }
    }
  }

  /** Once HEAD has been advanced to a commit that cannot be read, no further commit can be made. */
  lemma NoMoreCommits(refs: Refs, objects: Objects, oid: Oid, c: Commit)
    requires SettlesAt(refs, HEAD) && LookupRef(refs, HEAD).Found? && Advanced(refs, HEAD, oid).Some?
    requires oid in objects && objects[oid] == RawObj(CommitObj, PrintCommit(c)) && ParseCommit(PrintCommit(c)).None?
    ensures var refs' := refs[Branch(refs) := Direct(oid)];
      SettlesAt(refs', HEAD) && !CanCommit(refs', objects)
  {
    hide Tip, SettlesAt, Advanced, Branch, LookupRef;
    HeadAdvanced(refs, oid);
    StoredCommit(objects, oid, c);
  }

  /** "user", "name" and "email". */
  const USER: Text := [117, 115, 101, 114]
  const NAME: Text := [110, 97, 109, 101]
  const EMAIL: Text := [101, 109, 97, 105, 108]

  /** Whatever configuration files hold as name and address is on one line. */
  lemma ConfiguredOnOneLine(names: Text, emails: Text, s: Signature)
    requires Ini.ValueOf(Ini.Parse(names).1, USER, NAME) == Some(Some(s.name))
    requires Ini.ValueOf(Ini.Parse(emails).1, USER, EMAIL) == Some(Some(s.email))
    ensures OnOneLine(s) && IsCString(s.name) && IsCString(s.email)
  {
    hide Ini.Parse, Ini.ValueOf;
    Ini.AllParsedPlain(names);
    Ini.AllParsedPlain(emails);
    Ini.FoundPlain(Ini.Parse(names).1, USER, NAME);
    Ini.FoundPlain(Ini.Parse(emails).1, USER, EMAIL);
  }

  lemma MadeFrom(c: Commit, signature: Signature, message: Text)
    requires c.author == c.committer == signature && c.message == Some(message)
    ensures MadeOf(c, c.parents, signature, message)
  {
  }

  lemma MakesCommitted(w: World, s: Step, w': World)
    requires SettlesAt(w.refs, HEAD) && LookupRef(w.refs, HEAD).Found?
    requires ParentsAt(w.refs, w.objects) == Some(s.commit.parents) && CommitCodec.Representable(s.commit)
    requires Keeps(w.objects, w'.objects) && CommitAt(w'.objects, s.oid).Some?
    requires s.oid in w'.objects && w'.objects[s.oid] == RawObj(CommitObj, PrintCommit(s.commit))
    requires Advanced(w.refs, HEAD, s.oid) == Some(w'.refs)
    ensures Committed(w, s, w')
  {
    hide Tip, LookupRef, CommitAt, SettlesAt, Advanced, PrintCommit, Keeps, CommitCodec.Representable;
  }

  // ---------- whole runs of commits ----------

  ghost predicate Run(w: World, steps: seq<Step>, w': World)
    decreases |steps|, 1
  {
    if steps == [] then w' == w else exists mid :: RunVia(w, steps, mid, w')
  }

  /** A run whose last step starts from `mid`. */
  ghost predicate RunVia(w: World, steps: seq<Step>, mid: World, w': World)
    requires steps != []
    decreases |steps|, 0
  {
    Run(w, steps[..|steps| - 1], mid) && Committed(mid, steps[|steps| - 1], w')
  }

  lemma LastCommit(w: World, steps: seq<Step>, w': World) returns (mid: World)
    requires Run(w, steps, w') && steps != []
    ensures Run(w, steps[..|steps| - 1], mid) && Committed(mid, steps[|steps| - 1], w')
  {
    mid :| RunVia(w, steps, mid, w');
  }

  /** Name and address of the commit's signatures hold no newline. */
  ghost predicate Lines(c: Commit) {
    OnOneLine(c.author) && OnOneLine(c.committer)
  }

  /** One commit, seen from the whole run. */
  lemma StepOfRun(w: World, s: Step, w': World)
    requires Committed(w, s, w')
    ensures SettlesAt(w.refs, HEAD) && LookupRef(w.refs, HEAD).Found? && Keeps(w.objects, w'.objects)
    ensures w'.refs == w.refs[Branch(w.refs) := Direct(s.oid)]
    ensures SettlesAt(w'.refs, HEAD) && LookupRef(w'.refs, HEAD).Found?
    ensures Tip(w'.refs, HEAD) == Resolved(Branch(w.refs), s.oid) && Branch(w'.refs) == Branch(w.refs)
    ensures CommitAt(w'.objects, s.oid).Some?
    ensures Tip(w.refs, HEAD).Resolved? ==> FirstParent(w'.objects, s.oid) == Some(Tip(w.refs, HEAD).oid)
    ensures !Tip(w.refs, HEAD).Resolved? && Lines(s.commit) ==> FirstParent(w'.objects, s.oid) == None
  {
    hide Branch, Tip, LookupRef, SettlesAt, Keeps, Advanced, ParseCommit, PrintCommit, OnOneLine,
         CommitCodec.Representable;
    HeadAdvanced(w.refs, s.oid);
    StoredCommit(w'.objects, s.oid, s.commit);
    ParentsFirst(s.commit);
    if Lines(s.commit) { CommitReadable(s.commit); }
  }

  /** The commit that comes before the `k`th of the run. */
  function Previous(tip: Outcome, steps: seq<Step>, k: nat): Option<Oid>
    requires k < |steps|
  {
    if k > 0 then Some(steps[k - 1].oid) else if tip.Resolved? then Some(tip.oid) else None
  }

  /** The commit can be read, and has the given first parent; without one, if its signatures are on one line. */
  ghost predicate Follows(objects: Objects, s: Step, previous: Option<Oid>) {
    && CommitAt(objects, s.oid).Some?
    && (previous.Some? || Lines(s.commit) ==> FirstParent(objects, s.oid) == previous)
  }

  /** The first parents of the run's commits are the commits before them. */
  ghost predicate Linked(objects: Objects, tip: Outcome, steps: seq<Step>) {
    forall k :: 0 <= k < |steps| ==> Follows(objects, steps[k], Previous(tip, steps, k))
  }

  lemma LinkedKept(objects: Objects, objects': Objects, tip: Outcome, steps: seq<Step>)
    requires Keeps(objects, objects') && Linked(objects, tip, steps)
    ensures Linked(objects', tip, steps)
  {
    hide ParseCommit, Lines;
    forall k | 0 <= k < |steps| ensures Follows(objects', steps[k], Previous(tip, steps, k)) {
      assert Follows(objects, steps[k], Previous(tip, steps, k));
    }
  }

  lemma LinkedStep(objects: Objects, tip: Outcome, steps: seq<Step>, s: Step)
    requires Linked(objects, tip, steps)
    requires Follows(objects, s, Previous(tip, steps + [s], |steps|))
    ensures Linked(objects, tip, steps + [s])
  {
    hide Follows;
    var all := steps + [s];
    forall k | 0 <= k < |all| ensures Follows(objects, all[k], Previous(tip, all, k)) {
      if k < |steps| {
        assert all[k] == steps[k] && Follows(objects, steps[k], Previous(tip, steps, k));
        assert k > 0 ==> all[k - 1] == steps[k - 1];
      }
    }
  }

  /**
   * Over a run of successful commits, whether HEAD was attached, detached or unborn: HEAD resolves to
   * the newest, through the same reference; no other reference changes; every commit can be read; and
   * the first parent of each is the commit before it, that of the first one the tip from which the run
   * started. If there was none, the first one has no parent, if its name and address are on one line.
   */
  lemma {:induction false} RunOfCommits(w: World, steps: seq<Step>, w': World)
    requires SettlesAt(w.refs, HEAD) && LookupRef(w.refs, HEAD).Found?
    requires Run(w, steps, w')
    ensures SettlesAt(w'.refs, HEAD) && LookupRef(w'.refs, HEAD).Found? && Branch(w'.refs) == Branch(w.refs)
    ensures steps == [] ==> w' == w
    ensures steps != [] ==>
      var oid := steps[|steps| - 1].oid;
      w'.refs == w.refs[Branch(w.refs) := Direct(oid)] && Tip(w'.refs, HEAD) == Resolved(Branch(w.refs), oid)
    ensures Linked(w'.objects, Tip(w.refs, HEAD), steps)
    decreases |steps|
  {
    hide *;
    if steps == [] {
      NoCommits(w, w');
      NothingLinked(w.objects, Tip(w.refs, HEAD));
    } else {
      var init, s := steps[..|steps| - 1], steps[|steps| - 1];
      var mid := LastCommit(w, steps, w');
      assert steps == init + [s];
      StepOfRun(mid, s, w');
      RunOfCommits(w, init, mid);
      LinkedKept(mid.objects, w'.objects, Tip(w.refs, HEAD), init);
      BeforeLast(Tip(w.refs, HEAD), init, s);
      FollowsIs(w'.objects, s, Previous(Tip(w.refs, HEAD), init + [s], |init|));
      LinkedStep(w'.objects, Tip(w.refs, HEAD), init, s);
      assert init == [] ==> mid == w;
    }
  }

  lemma NoCommits(w: World, w': World)
    requires Run(w, [], w')
    ensures w' == w
  {
  }

  lemma BeforeLast(tip: Outcome, init: seq<Step>, s: Step)
    ensures Previous(tip, init + [s], |init|) ==
      if init != [] then Some(init[|init| - 1].oid) else if tip.Resolved? then Some(tip.oid) else None
  {
  }

  lemma FollowsIs(objects: Objects, s: Step, previous: Option<Oid>)
    ensures Follows(objects, s, previous) <==>
      && CommitAt(objects, s.oid).Some?
      && (previous.Some? || Lines(s.commit) ==> FirstParent(objects, s.oid) == previous)
  {
  }

  lemma NothingLinked(objects: Objects, tip: Outcome)
    ensures Linked(objects, tip, [])
  {
  }

  function OidsBack(steps: seq<Step>): seq<Oid> {
    if steps == [] then [] else [steps[|steps| - 1].oid] + OidsBack(steps[..|steps| - 1])
  }

  /** Following first parents from the newest commit lists the run in reverse, then the original tip. */
  lemma {:induction false} HistoryOfRun(objects: Objects, tip: Outcome, steps: seq<Step>)
    requires Linked(objects, tip, steps) && steps != []
    requires tip.Resolved? || Lines(steps[0].commit)
    ensures Ancestors(objects, steps[|steps| - 1].oid, |steps|) == OidsBack(steps) + TipList(tip)
    decreases |steps|
  {
    hide CommitAt, FirstParent, Lines, Ancestors, Linked;
    var k := |steps| - 1;
    var init := steps[..k];
    LastFollows(objects, tip, steps);
    AncestorsStep(objects, steps[k].oid, |steps|);
    if k == 0 {
      assert OidsBack(init) == [];
      if tip.Resolved? { AncestorsStep(objects, tip.oid, 0); }
    } else {
      LinkedInit(objects, tip, steps);
      HistoryOfRun(objects, tip, init);
    }
  }

  lemma LastFollows(objects: Objects, tip: Outcome, steps: seq<Step>)
    requires Linked(objects, tip, steps) && steps != []
    ensures Follows(objects, steps[|steps| - 1], Previous(tip, steps, |steps| - 1))
  {
  }

  lemma AncestorsStep(objects: Objects, oid: Oid, n: nat)
    ensures var p := FirstParent(objects, oid);
      Ancestors(objects, oid, n) == if n == 0 || p.None? then [oid] else [oid] + Ancestors(objects, p.value, n - 1)
  {
  }

  lemma LinkedInit(objects: Objects, tip: Outcome, steps: seq<Step>)
    requires Linked(objects, tip, steps) && steps != []
    ensures Linked(objects, tip, steps[..|steps| - 1])
  {
    hide Follows;
    var init := steps[..|steps| - 1];
    forall k | 0 <= k < |init| ensures Follows(objects, init[k], Previous(tip, init, k)) {
      assert Follows(objects, steps[k], Previous(tip, steps, k));
    }
  }
}
