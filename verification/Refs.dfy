/** The reference store, and updating it with update-ref (refs/, update-ref.c). */
module Refs {
  import opened Bytes
  import opened Options

  /** What a reference file holds; `Broken` is any content that does not parse. */
  datatype Ref = Direct(oid: Oid) | Symbolic(target: Text) | Broken

  type Refs = map<Text, Ref>

  /** "HEAD" and "refs/". */
  const HEAD: Text := [72, 69, 65, 68]
  const REFS: Text := [114, 101, 102, 115, 47]

  /** `qgit_reference_validate_name`. */
  predicate ValidName(name: Text) {
    (name == HEAD || REFS <= name) && !(exists i :: 0 <= i < |name| - 1 && name[i] == 46 && name[i + 1] == 46)
  }

  /** The names that can be references: HEAD and what begins with "refs/", without two dots in a row. */
  lemma ValidNameExactly(name: Text)
    ensures ValidName(name) <==>
      && (name == Ascii("HEAD") || Ascii("refs/") <= name)
      && !(exists a: Text, b: Text :: name == a + Ascii("..") + b)
  {
    assert HEAD == Ascii("HEAD") && REFS == Ascii("refs/");
    var dots := Ascii("..");
    if a: Text, b: Text :| name == a + dots + b {
      assert name[|a|] == 46 && name[|a| + 1] == 46;
    }
    if i :| 0 <= i < |name| - 1 && name[i] == 46 && name[i + 1] == 46 {
      assert name == name[..i] + dots + name[i + 2..];
    }
  }

  datatype Found = Found(ref: Ref) | NoEntry | Error

  /** `qgit_reference_lookup`. */
  function LookupRef(refs: Refs, name: Text): Found {
    if !ValidName(name) then Error
    else if name !in refs then NoEntry
    else if refs[name].Broken? then Error
    else Found(refs[name])
  }

  // ---------- following symbolic references ----------

  datatype Outcome = Resolved(name: Text, oid: Oid) | Missing | Failed

  /** Following the reference ends within `n` steps. */
  ghost predicate Ends(refs: Refs, ref: Ref, n: nat)
    decreases n
  {
    ref.Symbolic? ==>
      n > 0 && (LookupRef(refs, ref.target).Found? ==> Ends(refs, LookupRef(refs, ref.target).ref, n - 1))
  }

  ghost predicate Settles(refs: Refs, ref: Ref) {
    exists n: nat :: Ends(refs, ref, n)
  }

  /** No chain of symbolic references runs in a circle. */
  ghost predicate Acyclic(refs: Refs) {
    forall name :: name in refs ==> Settles(refs, refs[name])
  }

  ghost function Follow(refs: Refs, name: Text, ref: Ref, n: nat): Outcome
    requires Ends(refs, ref, n)
    decreases n
  {
    match ref
    case Direct(oid) => Resolved(name, oid)
    case Broken => Failed
    case Symbolic(target) =>
      match LookupRef(refs, target)
      case NoEntry => Missing
      case Error => Failed
      case Found(next) => Follow(refs, target, next, n - 1)
  }

  lemma {:induction false} FollowSame(refs: Refs, name: Text, ref: Ref, n: nat, m: nat)
    requires Ends(refs, ref, n) && Ends(refs, ref, m)
    ensures Follow(refs, name, ref, n) == Follow(refs, name, ref, m)
    decreases n
  {
    hide ValidName;
    if ref.Symbolic? && LookupRef(refs, ref.target).Found? {
      FollowSame(refs, ref.target, LookupRef(refs, ref.target).ref, n - 1, m - 1);
    }
  }

  /** What `qgit_reference_resolve` finds for a reference read under this name. */
  ghost function Resolve(refs: Refs, name: Text, ref: Ref): Outcome
    requires Settles(refs, ref)
  {
    var n: nat :| Ends(refs, ref, n);
    Follow(refs, name, ref, n)
  }

  lemma ResolveIs(refs: Refs, name: Text, ref: Ref, n: nat)
    requires Ends(refs, ref, n)
    ensures Settles(refs, ref) && Resolve(refs, name, ref) == Follow(refs, name, ref, n)
  {
    var m: nat :| Ends(refs, ref, m) && Resolve(refs, name, ref) == Follow(refs, name, ref, m);
    FollowSame(refs, name, ref, n, m);
  }

  /** One step of a resolution. */
  lemma ResolveStep(refs: Refs, name: Text, target: Text)
    requires Settles(refs, Symbolic(target))
    ensures LookupRef(refs, target).Found? ==> Settles(refs, LookupRef(refs, target).ref)
    ensures Resolve(refs, name, Symbolic(target)) ==
      match LookupRef(refs, target)
      case NoEntry => Missing
      case Error => Failed
      case Found(next) => Resolve(refs, target, next)
  {
    hide ValidName;
    var n: nat :| Ends(refs, Symbolic(target), n);
    ResolveIs(refs, name, Symbolic(target), n);
    match LookupRef(refs, target)
    case NoEntry =>
    case Error =>
    case Found(next) => ResolveIs(refs, target, next, n - 1);
  }

  lemma ResolveDirect(refs: Refs, name: Text, oid: Oid)
    ensures Settles(refs, Direct(oid)) && Resolve(refs, name, Direct(oid)) == Resolved(name, oid)
  {
    ResolveIs(refs, name, Direct(oid), 0);
  }

  ghost predicate SettlesAt(refs: Refs, name: Text) {
    LookupRef(refs, name).Found? ==> Settles(refs, LookupRef(refs, name).ref)
  }

  lemma AcyclicSettles(refs: Refs, name: Text)
    requires Acyclic(refs)
    ensures SettlesAt(refs, name)
  {
  }

  /** The object a name stands for in the end, with the direct reference that says so. */
  ghost function Tip(refs: Refs, name: Text): Outcome
    requires SettlesAt(refs, name)
  {
    match LookupRef(refs, name)
    case NoEntry => Missing
    case Error => Failed
    case Found(ref) => Resolve(refs, name, ref)
  }

  /** A resolution ends at a direct reference. */
  lemma {:induction false} FollowDirect(refs: Refs, name: Text, ref: Ref, n: nat)
    requires Ends(refs, ref, n) && LookupRef(refs, name) == Found(ref)
    ensures var r := Follow(refs, name, ref, n);
      r.Resolved? ==> ValidName(r.name) && r.name in refs && refs[r.name] == Direct(r.oid)
    decreases n
  {
    if ref.Symbolic? && LookupRef(refs, ref.target).Found? {
      FollowDirect(refs, ref.target, LookupRef(refs, ref.target).ref, n - 1);
    }
  }

  lemma TipDirect(refs: Refs, name: Text)
    requires SettlesAt(refs, name) && Tip(refs, name).Resolved?
    ensures var r := Tip(refs, name); ValidName(r.name) && r.name in refs && refs[r.name] == Direct(r.oid)
  {
    var ref := LookupRef(refs, name).ref;
    var n: nat :| Ends(refs, ref, n);
    ResolveIs(refs, name, ref, n);
    FollowDirect(refs, name, ref, n);
  }

  // ---------- what a write does to resolution ----------

  /** Writing an object name into a file, or removing a file, makes no chain longer. */
  ghost predicate Shortens(refs: Refs, refs': Refs) {
    forall name :: name in refs' ==> refs'[name].Direct? || (name in refs && refs'[name] == refs[name])
  }

  lemma {:induction false} StillEnds(refs: Refs, refs': Refs, ref: Ref, n: nat)
    requires Shortens(refs, refs') && Ends(refs, ref, n)
    ensures Ends(refs', ref, n)
    decreases n
  {
    hide ValidName;
    if ref.Symbolic? && LookupRef(refs', ref.target).Found? && LookupRef(refs', ref.target).ref.Symbolic? {
      StillEnds(refs, refs', LookupRef(refs', ref.target).ref, n - 1);
    }
  }

  lemma StillAcyclic(refs: Refs, refs': Refs)
    requires Shortens(refs, refs') && Acyclic(refs)
    ensures Acyclic(refs')
  {
    forall name | name in refs' ensures Settles(refs', refs'[name]) {
      if refs'[name].Direct? {
        ResolveDirect(refs', name, refs'[name].oid);
      } else {
        var n: nat :| Ends(refs, refs[name], n);
        StillEnds(refs, refs', refs[name], n);
      }
    }
  }

  /** Once the reference at the end of a chain is rewritten, the chain ends there with the new object. */
  lemma {:induction false} FollowWritten(refs: Refs, name: Text, ref: Ref, n: nat, oid: Oid)
    requires Ends(refs, ref, n) && LookupRef(refs, name) == Found(ref)
    requires Follow(refs, name, ref, n).Resolved?
    ensures var at := Follow(refs, name, ref, n).name;
      var refs' := refs[at := Direct(oid)];
      var ref' := if name == at then Direct(oid) else ref;
      && LookupRef(refs', name) == Found(ref')
      && Ends(refs', ref', n) && Follow(refs', name, ref', n) == Resolved(at, oid)
    decreases n
  {
    FollowDirect(refs, name, ref, n);
    hide ValidName;
    var at := Follow(refs, name, ref, n).name;
    if ref.Symbolic? {
      FollowWritten(refs, ref.target, LookupRef(refs, ref.target).ref, n - 1, oid);
    }
  }

  lemma TipWritten(refs: Refs, name: Text, oid: Oid)
    requires SettlesAt(refs, name) && Tip(refs, name).Resolved?
    ensures var at := Tip(refs, name).name;
      var refs' := refs[at := Direct(oid)];
      SettlesAt(refs', name) && Tip(refs', name) == Resolved(at, oid)
  {
    var ref := LookupRef(refs, name).ref;
    var n: nat :| Ends(refs, ref, n);
    ResolveIs(refs, name, ref, n);
    FollowWritten(refs, name, ref, n, oid);
    var at := Tip(refs, name).name;
    ResolveIs(refs[at := Direct(oid)], name, if name == at then Direct(oid) else ref, n);
  }

  // ---------- the store ----------

  class RefStore {
    var refs: Refs

    constructor ()
      ensures refs == map[]
    {
      refs := map[];
    }

    /** `qgit_reference_resolve`. */
    method ResolveRef(name: Text, ref: Ref) returns (r: Outcome)
      requires Settles(refs, ref)
      ensures r == Resolve(refs, name, ref)
    {
      hide ValidName;
      ghost var n: nat :| Ends(refs, ref, n);
      ResolveIs(refs, name, ref, n);
      if ref.Direct? { return Resolved(name, ref.oid); }
      if !ref.Symbolic? { return Failed; }
      var at := ref.target;
      var got := LookupRef(refs, at);
      if got.NoEntry? { return Missing; }
      if got.Error? { return Failed; }
      var cur := got.ref;
      n := n - 1;
      while cur.Symbolic?
        invariant !cur.Broken? && Ends(refs, cur, n) && Follow(refs, at, cur, n) == Resolve(refs, name, ref)
        decreases n
      {
        at := cur.target;
        var next := LookupRef(refs, at);
        if next.NoEntry? { return Missing; }
        if next.Error? { return Failed; }
        cur, n := next.ref, n - 1;
      }
      return Resolved(at, cur.oid);
    }

    /** `qgit_reference_create_oid`. */
    method CreateOid(name: Text, oid: Oid, force: bool) returns (ok: bool)
      modifies this
      ensures ok <==> ValidName(name) && (force || name !in old(refs))
      ensures refs == if ok then old(refs)[name := Direct(oid)] else old(refs)
    {
      if !ValidName(name) { return false; }
      if name in refs && !force { return false; }
      refs := refs[name := Direct(oid)];
      ok := true;
    }

    /** `qgit_reference_set_oid`, for a reference read under this name. */
    method SetOid(name: Text, ref: Ref, oid: Oid) returns (ok: bool)
      modifies this
      ensures ok <==> ref.Direct?
      ensures refs == if ok then old(refs)[name := Direct(oid)] else old(refs)
    {
      if !ref.Direct? { return false; }
      refs := refs[name := Direct(oid)];
      ok := true;
    }

    /** `qgit_reference_delete`. */
    method Delete(name: Text) returns (ok: bool)
      modifies this
      ensures ok <==> name in old(refs)
      ensures refs == old(refs) - {name}
    {
      if name !in refs { return false; }
      refs := refs - {name};
      ok := true;
    }
  }

  // ---------- update-ref ----------

  /** The third argument: none, forty zeros, or an object (if what is given resolves to one). */
  datatype Expected = Unchecked | Zeros | Old(oid: Option<Oid>)

  /** The reference a command acts on: the named one, or the one it resolves to. */
  ghost function Aimed(refs: Refs, name: Text, noDeref: bool): Option<(Text, Ref)>
    requires SettlesAt(refs, name)
  {
    match LookupRef(refs, name)
    case NoEntry => None
    case Error => None
    case Found(ref) =>
      if noDeref || !ref.Symbolic? then Some((name, ref))
      else
        match Resolve(refs, name, ref)
        case Resolved(at, oid) => Some((at, Direct(oid)))
        case Missing => None
        case Failed => None
  }

  /** The check against the expected old object. */
  predicate Verified(ref: Ref, expected: Expected) {
    expected.Old? ==> expected.oid.Some? && ref == Direct(expected.oid.value)
  }

  /** The store after a successful `update-ref`. */
  ghost function Updated(refs: Refs, name: Text, newOid: Option<Oid>, expected: Expected, noDeref: bool): Option<Refs>
    requires SettlesAt(refs, name)
  {
    if newOid.None? || LookupRef(refs, name).Error? then None
    else if LookupRef(refs, name).NoEntry? then
      if expected.Old? then None else Some(refs[name := Direct(newOid.value)])
    else if expected.Zeros? then None
    else
      match Aimed(refs, name, noDeref)
      case None => None
      case Some((at, ref)) => if Verified(ref, expected) then Some(refs[at := Direct(newOid.value)]) else None
  }

  /** The store after a successful `update-ref -d`. */
  ghost function Deleted(refs: Refs, name: Text, expected: Expected, noDeref: bool): Option<Refs>
    requires SettlesAt(refs, name)
  {
    match Aimed(refs, name, noDeref)
    case None => None
    case Some((at, ref)) => if Verified(ref, expected) then Some(refs - {at}) else None
  }

  lemma AimedStored(refs: Refs, name: Text, noDeref: bool)
    requires SettlesAt(refs, name) && Aimed(refs, name, noDeref).Some?
    ensures var (at, ref) := Aimed(refs, name, noDeref).value;
      ValidName(at) && at in refs && refs[at] == ref && (ref.Direct? || (noDeref && at == name && ref.Symbolic?))
  {
    hide ValidName;
    var ref := LookupRef(refs, name).ref;
    if !noDeref && ref.Symbolic? { TipDirect(refs, name); }
  }

  /** The reference that a command acts on, read the way update-ref reads it. */
  method Aim(store: RefStore, name: Text, noDeref: bool) returns (r: Option<(Text, Ref)>)
    requires SettlesAt(store.refs, name)
    ensures r == Aimed(store.refs, name, noDeref)
  {
    hide ValidName;
    var got := LookupRef(store.refs, name);
    if !got.Found? { return None; }
    var at, ref := name, got.ref;
    if !noDeref && ref.Symbolic? {
      var deref := store.ResolveRef(name, ref);
      if !deref.Resolved? { return None; }
      at, ref := deref.name, Direct(deref.oid);
    }
    return Some((at, ref));
  }

  /** `update-ref`: a rejected call changes nothing. */
  method UpdateRef(store: RefStore, name: Text, newOid: Option<Oid>, expected: Expected, noDeref: bool)
    returns (ok: bool)
    requires SettlesAt(store.refs, name)
    modifies store
    ensures ok <==> Updated(old(store.refs), name, newOid, expected, noDeref).Some?
    ensures store.refs ==
      if ok then Updated(old(store.refs), name, newOid, expected, noDeref).value else old(store.refs)
  {
    if newOid.None? { return false; }
    var got := LookupRef(store.refs, name);
    if got.Error? { return false; }
    if expected.Zeros? {
      if got.Found? { return false; }
    } else if expected.Old? {
      if got.NoEntry? { return false; }
    }
    if got.NoEntry? {
      ok := store.CreateOid(name, newOid.value, false);
      return;
    }
    var aim := Aim(store, name, noDeref);
    if aim.None? { return false; }
    AimedStored(store.refs, name, noDeref);
    var (at, ref) := aim.value;
    if expected.Old? {
      if expected.oid.None? { return false; }
      if !ref.Direct? { return false; }
      if ref.oid != expected.oid.value { return false; }
    }
    if noDeref && ref.Symbolic? {
      ok := store.CreateOid(name, newOid.value, true);
    } else {
      ok := store.SetOid(at, ref, newOid.value);
    }
  }

  /** `update-ref -d`. */
  method DeleteRef(store: RefStore, name: Text, expected: Expected, noDeref: bool) returns (ok: bool)
    requires SettlesAt(store.refs, name)
    modifies store
    ensures ok <==> Deleted(old(store.refs), name, expected, noDeref).Some?
    ensures store.refs == if ok then Deleted(old(store.refs), name, expected, noDeref).value else old(store.refs)
  {
    var aim := Aim(store, name, noDeref);
    if aim.None? { return false; }
    AimedStored(store.refs, name, noDeref);
    var (at, ref) := aim.value;
    if expected.Old? {
      if expected.oid.None? { return false; }
      if !ref.Direct? { return false; }
      if ref.oid != expected.oid.value { return false; }
    }
    ok := store.Delete(at);
  }

  // ---------- what update-ref guarantees ----------

  /**
   * With an expected object the update goes through if and only if the name resolves to a direct
   * reference that holds it; then the name resolves to the new object, through the same reference.
   */
  lemma CompareAndSwap(refs: Refs, name: Text, newOid: Oid, expected: Oid)
    requires SettlesAt(refs, name)
    ensures Updated(refs, name, Some(newOid), Old(Some(expected)), false).Some?
      <==> Tip(refs, name).Resolved? && Tip(refs, name).oid == expected
    ensures Tip(refs, name).Resolved? && Tip(refs, name).oid == expected ==>
      var at := Tip(refs, name).name;
      var refs' := refs[at := Direct(newOid)];
      && at in refs && refs[at] == Direct(expected)
      && Updated(refs, name, Some(newOid), Old(Some(expected)), false) == Some(refs')
      && SettlesAt(refs', name) && Tip(refs', name) == Resolved(at, newOid)
  {
    hide ValidName;
    match LookupRef(refs, name)
    case NoEntry =>
    case Error =>
    case Found(ref) =>
      if ref.Direct? { ResolveDirect(refs, name, ref.oid); }
      if Tip(refs, name).Resolved? {
        TipDirect(refs, name);
        TipWritten(refs, name, newOid);
      }
  }

  /** Of two updates that expect the same old object, the second is rejected unless the first changed nothing. */
  lemma SecondSwapLoses(refs: Refs, name: Text, first: Oid, second: Oid, expected: Oid)
    requires SettlesAt(refs, name)
    requires Updated(refs, name, Some(first), Old(Some(expected)), false).Some?
    ensures var refs' := Updated(refs, name, Some(first), Old(Some(expected)), false).value;
      && SettlesAt(refs', name)
      && (Updated(refs', name, Some(second), Old(Some(expected)), false).Some? <==> first == expected)
  {
    CompareAndSwap(refs, name, first, expected);
    CompareAndSwap(refs[Tip(refs, name).name := Direct(first)], name, second, expected);
  }

  /** Forty zeros: the update goes through if and only if the name is a valid one without a reference. */
  lemma ZerosCreate(refs: Refs, name: Text, newOid: Oid, noDeref: bool)
    requires SettlesAt(refs, name)
    ensures Updated(refs, name, Some(newOid), Zeros, noDeref) ==
      if ValidName(name) && name !in refs then Some(refs[name := Direct(newOid)]) else None
  {
  }

  /** The name a command writes or removes: the one it resolves to, unless told not to follow or none is there. */
  ghost function Goal(refs: Refs, name: Text, noDeref: bool): Text
    requires SettlesAt(refs, name)
  {
    if !noDeref && Tip(refs, name).Resolved? then Tip(refs, name).name else name
  }

  lemma AimedGoal(refs: Refs, name: Text, noDeref: bool)
    requires SettlesAt(refs, name) && Aimed(refs, name, noDeref).Some?
    ensures Aimed(refs, name, noDeref).value.0 == Goal(refs, name, noDeref)
  {
    hide ValidName, Resolve;
    ResolveDirectOnly(refs, name);
  }

  /**
   * An accepted update changes exactly one name, to the new object: the one the given name resolves
   * to, or that name itself. If an object was expected it held that one. The store stays acyclic.
   */
  lemma UpdateChangesOne(refs: Refs, name: Text, newOid: Option<Oid>, expected: Expected, noDeref: bool)
    requires Acyclic(refs) && SettlesAt(refs, name) && Updated(refs, name, newOid, expected, noDeref).Some?
    ensures var refs' := Updated(refs, name, newOid, expected, noDeref).value;
      var at := Goal(refs, name, noDeref);
      && newOid.Some? && Acyclic(refs') && Shortens(refs, refs')
      && ValidName(at) && refs' == refs[at := Direct(newOid.value)]
      && (expected.Old? ==> expected.oid.Some? && at in refs && refs[at] == Direct(expected.oid.value))
      && (expected.Zeros? ==> at == name && at !in refs)
  {
    if LookupRef(refs, name).Found? {
      AimedStored(refs, name, noDeref);
      AimedGoal(refs, name, noDeref);
    }
    hide ValidName;
    StillAcyclic(refs, Updated(refs, name, newOid, expected, noDeref).value);
  }

  /** An accepted deletion removes exactly one name, which was there, and keeps the store acyclic. */
  lemma DeleteRemovesOne(refs: Refs, name: Text, expected: Expected, noDeref: bool)
    requires Acyclic(refs) && SettlesAt(refs, name) && Deleted(refs, name, expected, noDeref).Some?
    ensures var refs' := Deleted(refs, name, expected, noDeref).value;
      var at := Goal(refs, name, noDeref);
      && Acyclic(refs') && Shortens(refs, refs')
      && at in refs && refs' == refs - {at}
      && (expected.Old? ==> expected.oid.Some? && refs[at] == Direct(expected.oid.value))
  {
    AimedStored(refs, name, noDeref);
    AimedGoal(refs, name, noDeref);
    hide ValidName;
    StillAcyclic(refs, Deleted(refs, name, expected, noDeref).value);
  }

  /** With an expected object a deletion goes through if and only if the name resolves to it; then that one goes. */
  lemma CompareAndDelete(refs: Refs, name: Text, expected: Oid)
    requires SettlesAt(refs, name)
    ensures Deleted(refs, name, Old(Some(expected)), false).Some?
      <==> Tip(refs, name).Resolved? && Tip(refs, name).oid == expected
    ensures Tip(refs, name).Resolved? && Tip(refs, name).oid == expected ==>
      Deleted(refs, name, Old(Some(expected)), false) == Some(refs - {Tip(refs, name).name})
  {
    hide ValidName, Resolve;
    ResolveDirectOnly(refs, name);
  }

  /** In delete mode forty zeros check nothing at all. */
  lemma DeleteZerosUnchecked(refs: Refs, name: Text, noDeref: bool)
    requires SettlesAt(refs, name)
    ensures Deleted(refs, name, Zeros, noDeref) == Deleted(refs, name, Unchecked, noDeref)
    ensures Deleted(refs, name, Unchecked, noDeref).Some? <==> Aimed(refs, name, noDeref).Some?
  {
  }

  /** A branch without commits cannot be updated through a symbolic reference to it, whatever is expected. */
  lemma UnbornRejected(refs: Refs, name: Text, newOid: Option<Oid>, expected: Expected)
    requires SettlesAt(refs, name) && LookupRef(refs, name).Found? && Tip(refs, name).Missing?
    ensures Updated(refs, name, newOid, expected, false) == None
  {
    ResolveDirectOnly(refs, name);
  }

  /** An unchecked update goes through if and only if the name resolves, or is a valid one without a reference. */
  lemma UncheckedUpdate(refs: Refs, name: Text, newOid: Option<Oid>)
    requires SettlesAt(refs, name)
    ensures Updated(refs, name, newOid, Unchecked, false) ==
      if newOid.None? then None
      else if Tip(refs, name).Resolved? then Some(refs[Tip(refs, name).name := Direct(newOid.value)])
      else if ValidName(name) && name !in refs then Some(refs[name := Direct(newOid.value)])
      else None
  {
    hide ValidName, Resolve;
    ResolveDirectOnly(refs, name);
  }

  /**
   * Without following references an unchecked update writes any valid name, over whatever can be read
   * there; with an expected object only over a direct reference that holds it.
   */
  lemma DirectUpdate(refs: Refs, name: Text, newOid: Oid, expected: Oid)
    requires SettlesAt(refs, name)
    ensures Updated(refs, name, Some(newOid), Unchecked, true) ==
      if ValidName(name) && (name !in refs || !refs[name].Broken?) then Some(refs[name := Direct(newOid)]) else None
    ensures Updated(refs, name, Some(newOid), Old(Some(expected)), true) ==
      if ValidName(name) && name in refs && refs[name] == Direct(expected) then Some(refs[name := Direct(newOid)])
      else None
  {
    hide ValidName;
  }

  /** HEAD can be detached from a branch. */
  lemma Detach(refs: Refs, branch: Text, oid: Oid)
    requires SettlesAt(refs, HEAD) && HEAD in refs && refs[HEAD] == Symbolic(branch)
    ensures Updated(refs, HEAD, Some(oid), Unchecked, true) == Some(refs[HEAD := Direct(oid)])
  {
    DirectUpdate(refs, HEAD, oid, oid);
    HeadValid();
  }

  lemma HeadValid()
    ensures ValidName(HEAD)
  {
  }

  /** The same for deletions: an unchecked one removes what can be read, or what it resolves to. */
  lemma UncheckedDelete(refs: Refs, name: Text, expected: Oid)
    requires SettlesAt(refs, name)
    ensures Deleted(refs, name, Unchecked, true) ==
      if ValidName(name) && name in refs && !refs[name].Broken? then Some(refs - {name}) else None
    ensures Deleted(refs, name, Old(Some(expected)), true) ==
      if ValidName(name) && name in refs && refs[name] == Direct(expected) then Some(refs - {name}) else None
    ensures Deleted(refs, name, Unchecked, false) ==
      if Tip(refs, name).Resolved? then Some(refs - {Tip(refs, name).name}) else None
  {
    hide ValidName, Resolve;
    ResolveDirectOnly(refs, name);
  }

  /** An expected object that cannot be found is never held. */
  lemma UnknownExpected(refs: Refs, name: Text, newOid: Option<Oid>, noDeref: bool)
    requires SettlesAt(refs, name)
    ensures Updated(refs, name, newOid, Old(None), noDeref) == None
    ensures Deleted(refs, name, Old(None), noDeref) == None
    ensures Updated(refs, name, None, Unchecked, noDeref) == None && Updated(refs, name, None, Zeros, noDeref) == None
  {
    hide ValidName, Resolve;
  }

  lemma ResolveDirectOnly(refs: Refs, name: Text)
    requires SettlesAt(refs, name)
    ensures var got := LookupRef(refs, name);
      got.Found? && got.ref.Direct? ==> Tip(refs, name) == Resolved(name, got.ref.oid)
  {
    var got := LookupRef(refs, name);
    if got.Found? && got.ref.Direct? { ResolveDirect(refs, name, got.ref.oid); }
  }

  // ---------- advancing a reference ----------

  /** The store after `qgit_commit_create` has advanced the reference to the new commit. */
  ghost function Advanced(refs: Refs, name: Text, oid: Oid): Option<Refs>
    requires SettlesAt(refs, name)
  {
    match LookupRef(refs, name)
    case NoEntry => Some(refs[name := Direct(oid)])
    case Error => None
    case Found(ref) =>
      if ref.Direct? then Some(refs[name := Direct(oid)])
      else
        match Resolve(refs, name, ref)
        case Resolved(at, _) => Some(refs[at := Direct(oid)])
        case Missing =>
          if ValidName(ref.target) && ref.target !in refs then Some(refs[ref.target := Direct(oid)]) else None
        case Failed => None
  }

  method Advance(store: RefStore, name: Text, oid: Oid) returns (ok: bool)
    requires SettlesAt(store.refs, name)
    modifies store
    ensures ok <==> Advanced(old(store.refs), name, oid).Some?
    ensures store.refs == if ok then Advanced(old(store.refs), name, oid).value else old(store.refs)
  {
    var got := LookupRef(store.refs, name);
    if got.NoEntry? {
      ok := store.CreateOid(name, oid, false);
      return;
    }
    if got.Error? { return false; }
    var at, ref := name, got.ref;
    if ref.Symbolic? {
      var resolved := store.ResolveRef(name, ref);
      if resolved.Missing? {
        ok := store.CreateOid(ref.target, oid, false);
        return;
      }
      if resolved.Failed? { return false; }
      at, ref := resolved.name, Direct(resolved.oid);
    }
    ok := store.SetOid(at, ref, oid);
  }

  /** The reference that commits go to: what HEAD resolves to, or the unborn branch it names. */
  ghost function Branch(refs: Refs): Text
    requires SettlesAt(refs, HEAD) && LookupRef(refs, HEAD).Found?
  {
    var tip := Tip(refs, HEAD);
    if tip.Resolved? then tip.name
    else if LookupRef(refs, HEAD).ref.Symbolic? then LookupRef(refs, HEAD).ref.target
    else HEAD
  }

  /** After a commit HEAD resolves to it, and no reference has changed but the branch. */
  lemma HeadAdvanced(refs: Refs, oid: Oid)
    requires SettlesAt(refs, HEAD) && LookupRef(refs, HEAD).Found? && Advanced(refs, HEAD, oid).Some?
    ensures var refs' := Advanced(refs, HEAD, oid).value;
      && refs' == refs[Branch(refs) := Direct(oid)]
      && SettlesAt(refs', HEAD) && LookupRef(refs', HEAD).Found?
      && Tip(refs', HEAD) == Resolved(Branch(refs), oid) && Branch(refs') == Branch(refs)
  {
    hide ValidName, Resolve, Settles;
    ResolveDirectOnly(refs, HEAD);
    if Tip(refs, HEAD).Resolved? {
      TipWritten(refs, HEAD, oid);
    } else {
      var target := LookupRef(refs, HEAD).ref.target;
      var refs' := refs[target := Direct(oid)];
      ResolveDirect(refs', target, oid);
      SettlesOne(refs', target);
      ResolveStep(refs', HEAD, target);
    }
  }

  lemma SettlesOne(refs: Refs, target: Text)
    requires LookupRef(refs, target).Found? && LookupRef(refs, target).ref.Direct?
    ensures Settles(refs, Symbolic(target))
  {
    assert Ends(refs, LookupRef(refs, target).ref, 0);
    assert Ends(refs, Symbolic(target), 1);
  }

  /**
   * Committing can advance HEAD if and only if HEAD resolves, or names directly a valid branch that
   * is not there: an unborn branch behind a further symbolic reference cannot be born.
   */
  lemma CanAdvance(refs: Refs, oid: Oid)
    requires SettlesAt(refs, HEAD) && LookupRef(refs, HEAD).Found?
    ensures Advanced(refs, HEAD, oid).Some? <==>
      || Tip(refs, HEAD).Resolved?
      || (Tip(refs, HEAD).Missing? && LookupRef(refs, HEAD).ref.target !in refs)
  {
    var ref := LookupRef(refs, HEAD).ref;
    ResolveDirectOnly(refs, HEAD);
    if ref.Symbolic? { ResolveStep(refs, HEAD, ref.target); }
    hide Resolve, Settles;
  }

  /**
   * Advancing a name writes what it resolves to, or the name itself if it is a valid one without a
   * reference, or the valid name without a reference that it names directly; otherwise it is refused.
   */
  lemma AdvancedExactly(refs: Refs, name: Text, oid: Oid)
    requires SettlesAt(refs, name)
    ensures Advanced(refs, name, oid) ==
      if Tip(refs, name).Resolved? then Some(refs[Tip(refs, name).name := Direct(oid)])
      else if ValidName(name) && name !in refs then Some(refs[name := Direct(oid)])
      else if ValidName(name) && refs[name].Symbolic? && ValidName(refs[name].target) && refs[name].target !in refs
        then Some(refs[refs[name].target := Direct(oid)])
      else None
  {
    ResolveDirectOnly(refs, name);
    if LookupRef(refs, name).Found? && refs[name].Symbolic? { ResolveStep(refs, name, refs[name].target); }
    hide ValidName, Resolve, Settles;
  }

  /** An accepted advance changes exactly one name, to the new object, and keeps the store acyclic. */
  lemma AdvanceChangesOne(refs: Refs, name: Text, oid: Oid)
    requires Acyclic(refs) && SettlesAt(refs, name) && Advanced(refs, name, oid).Some?
    ensures var refs' := Advanced(refs, name, oid).value;
      && Acyclic(refs') && Shortens(refs, refs')
      && exists at :: ValidName(at) && refs' == refs[at := Direct(oid)]
  {
    hide ValidName;
    if Tip(refs, name).Resolved? { TipDirect(refs, name); }
    StillAcyclic(refs, Advanced(refs, name, oid).value);
  }

  // ---------- runs of commands ----------

  /** Updating and deleting with update-ref, and the last step of a commit. */
  datatype Command =
    | Update(name: Text, newOid: Option<Oid>, expected: Expected, noDeref: bool)
    | Delete(name: Text, expected: Expected, noDeref: bool)
    | Commit(name: Text, made: Oid)

  /** The store after a command, accepted or not. */
  ghost function Apply(refs: Refs, c: Command): (r: Refs)
    requires Acyclic(refs)
    ensures Acyclic(r) && Shortens(refs, r)
  {
    AcyclicSettles(refs, c.name);
    match c
    case Update(name, newOid, expected, noDeref) =>
      var r := Updated(refs, name, newOid, expected, noDeref);
      if r.Some? then UpdateChangesOne(refs, name, newOid, expected, noDeref); r.value else refs
    case Delete(name, expected, noDeref) =>
      var r := Deleted(refs, name, expected, noDeref);
      if r.Some? then DeleteRemovesOne(refs, name, expected, noDeref); r.value else refs
    case Commit(name, made) =>
      var r := Advanced(refs, name, made);
      if r.Some? then AdvanceChangesOne(refs, name, made); r.value else refs
  }

  /**
   * After any run of commands on an acyclic store resolution still terminates, and every reference
   * is as it was or direct: none has been made or turned symbolic.
   */
  ghost function ApplyAll(refs: Refs, cs: seq<Command>): (r: Refs)
    requires Acyclic(refs)
    ensures Acyclic(r) && Shortens(refs, r)
    decreases |cs|
  {
    if cs == [] then refs else Apply(ApplyAll(refs, cs[..|cs| - 1]), cs[|cs| - 1])
  }
}
