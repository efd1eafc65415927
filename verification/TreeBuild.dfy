/** Writing the tree objects for an index (tree_create_fromindex.c). */
module TreeBuild {
  import opened Bytes
  import opened Index
  import opened Libc
  import opened Odb
  import opened Options
  import opened Sorting
  import opened TreeCodec
  import opened Trees

  predicate Staged(e: IndexEntry) {
    Stage(e) == 0
  }

  // ---------- what a tree for part of the index must hold ----------

  ghost predicate InRange(E: seq<IndexEntry>, lo: nat, hi: nat, path: Text, mode: nat, oid: Oid) {
    exists j :: lo <= j < hi <= |E| && Staged(E[j]) && E[j].path == path && E[j].mode == mode && E[j].oid == oid
  }

  /** `path` is also a directory of another stage-0 path. */
  ghost predicate Shadowed(E: seq<IndexEntry>, lo: nat, hi: nat, path: Text) {
    exists j :: lo <= j < hi <= |E| && Staged(E[j]) && path + [SLASH] <= E[j].path
  }

  /** A stage-0 entry that is not overwritten by a directory. */
  ghost predicate Live(E: seq<IndexEntry>, lo: nat, hi: nat, path: Text, mode: nat, oid: Oid) {
    InRange(E, lo, hi, path, mode, oid) && !Shadowed(E, lo, hi, path)
  }

  /** What the index must be like for trees to be built from it; `Ordered` is what sorting achieves. */
  ghost predicate Buildable(E: seq<IndexEntry>) {
    Ordered(E) && StagedWellFormed(E)
  }

  /** The leaves below these entries are the live entries of the range, relative to the prefix. */
  ghost predicate Holds(T: Store, es: seq<TreeEntry>, E: seq<IndexEntry>, lo: nat, hi: nat, prefix: Text) {
    forall rel, mode, oid ::
      Has(T, es, rel, mode, oid) <==> Live(E, lo, hi, prefix + rel, mode, oid)
  }

  /** The subtree an entry names, when it is a directory, is stored in canonical form. */
  ghost predicate ItemStored(T: Store, x: TreeEntry, d: nat, id: seq<TreeEntry> -> Oid) {
    IsDir(x.mode) ==>
      && x.mode == DIR_MODE && x.oid in T && T[x.oid] != [] && x.oid == id(T[x.oid])
      && d > 0 && Complete(T, T[x.oid], d - 1) && Canonical(T, T[x.oid], d - 1, id)
  }

  /** The builder's state after the entries [lo..cur) have been consumed. */
  ghost predicate Built(T: Store, b: seq<TreeEntry>, E: seq<IndexEntry>, lo: nat, cur: nat, prefix: Text,
                        d: nat, id: seq<TreeEntry> -> Oid)
  {
    && (forall i :: 0 <= i < |b| ==> ItemStored(T, b[i], d, id))
    && Holds(T, b, E, lo, cur, prefix)
  }

  /** Each name in the builder comes from a consumed entry. */
  ghost predicate NamesFrom(b: seq<TreeEntry>, E: seq<IndexEntry>, lo: nat, cur: nat, prefix: Text) {
    && NamesValid(b) && NamesDistinct(b) && Printable(b)
    && forall i :: 0 <= i < |b| ==> NameFrom(b[i], E, lo, cur, prefix)
  }

  ghost predicate NameFrom(x: TreeEntry, E: seq<IndexEntry>, lo: nat, cur: nat, prefix: Text) {
    exists j :: lo <= j < cur <= |E| && Staged(E[j]) &&
      if IsDir(x.mode) then prefix + Key(x) <= E[j].path else E[j].path == prefix + x.name
  }

  /** No directory directly below the prefix has entries on both sides of the cursor. */
  ghost predicate Separated(E: seq<IndexEntry>, lo: nat, cur: nat, prefix: Text) {
    forall j, k, q | lo <= j < cur <= k < |E| && Staged(E[j]) && Staged(E[k]) && SlashFree(q) ::
      !(prefix + q + [SLASH] <= E[j].path && prefix + q + [SLASH] <= E[k].path)
  }

  // ---------- paths ----------

  lemma StagedOrder(E: seq<IndexEntry>, i: nat, j: nat)
    requires Ordered(E) && i < j < |E| && Staged(E[i]) && Staged(E[j])
    ensures Less(E[i].path, E[j].path)
  {
  }

  /** Two slash-free names, each followed by '/', leading the same text are equal. */
  lemma FirstNameUnique(p: Text, a: Text, b: Text)
    requires SlashFree(a) && SlashFree(b)
    requires a + [SLASH] <= p && b + [SLASH] <= p
    ensures a == b
  {
    assert p[|a|] == (a + [SLASH])[|a|] && p[|b|] == (b + [SLASH])[|b|];
    assert forall i :: 0 <= i < |a| ==> p[i] == a[i];
    assert forall i :: 0 <= i < |b| ==> p[i] == b[i];
    assert |a| == |b|;
    assert a == p[..|a|] && b == p[..|b|];
  }

  lemma PrefixSplit(prefix: Text, a: Text, path: Text)
    ensures prefix + a <= path <==> prefix <= path && a <= path[|prefix|..]
  {
    if prefix <= path {
      assert path == prefix + path[|prefix|..];
    }
    if prefix + a <= path {
      assert prefix == (prefix + a)[..|prefix|] == path[..|prefix|];
    }
  }

  // ---------- one file ----------

  lemma {:induction false} NewFileName(b: seq<TreeEntry>, E: seq<IndexEntry>, lo: nat, cur: nat,
                                       prefix: Text, name: Text)
    requires Ordered(E) && lo <= cur < |E| && Staged(E[cur]) && E[cur].path == prefix + name
    requires NamesFrom(b, E, lo, cur, prefix)
    ensures IndexOfName(b, name) == |b|
  {
    var i := IndexOfName(b, name);
    if i < |b| {
      var j :| lo <= j < cur <= |E| && Staged(E[j]) &&
        if IsDir(b[i].mode) then prefix + Key(b[i]) <= E[j].path else E[j].path == prefix + b[i].name;
      StagedOrder(E, j, cur);
      LessIrreflexive(E[cur].path);
      assert IsDir(b[i].mode);
      assert E[cur].path <= prefix + Key(b[i]);
      ProperPrefixLess(E[cur].path, E[j].path);
      LessAsymmetric(E[j].path, E[cur].path);
    }
  }

  lemma LiveAfterFile(E: seq<IndexEntry>, lo: nat, cur: nat, prefix: Text, name: Text,
                      rel: Text, mode: nat, oid: Oid)
    requires Ordered(E) && lo <= cur < |E| && Staged(E[cur]) && E[cur].path == prefix + name && SlashFree(name)
    ensures Live(E, lo, cur + 1, prefix + rel, mode, oid) <==>
            || Live(E, lo, cur, prefix + rel, mode, oid)
            || (rel == name && mode == E[cur].mode && oid == E[cur].oid)
  {
    var p := prefix + rel;
    // the new entry shadows nothing
    assert !(p + [SLASH] <= E[cur].path) by {
      assert p + [SLASH] == prefix + (rel + [SLASH]);
      PrefixSplit(prefix, rel + [SLASH], E[cur].path);
      assert E[cur].path[|prefix|..] == name;
      assert (rel + [SLASH])[|rel|] == SLASH;
    }
    assert Shadowed(E, lo, cur + 1, p) <==> Shadowed(E, lo, cur, p);
    // and nothing consumed shadows it
    assert !Shadowed(E, lo, cur, E[cur].path) by {
      forall j | lo <= j < cur && Staged(E[j]) ensures !(E[cur].path + [SLASH] <= E[j].path) {
        StagedOrder(E, j, cur);
        LessAsymmetric(E[j].path, E[cur].path);
        if E[cur].path + [SLASH] <= E[j].path { ProperPrefixLess(E[cur].path, E[j].path); }
      }
    }
    assert p == E[cur].path <==> rel == name by {
      assert p[|prefix|..] == rel && E[cur].path[|prefix|..] == name;
    }
  }

  lemma AddFile(T: Store, b: seq<TreeEntry>, E: seq<IndexEntry>, lo: nat, cur: nat, prefix: Text, name: Text,
                d: nat, id: seq<TreeEntry> -> Oid)
    requires Buildable(E) && lo <= cur < |E| && Staged(E[cur])
    requires E[cur].path == prefix + name && SlashFree(name)
    requires NamesFrom(b, E, lo, cur, prefix) && Built(T, b, E, lo, cur, prefix, d, id)
    ensures Built(T, Put(b, TreeEntry(E[cur].mode, name, E[cur].oid)), E, lo, cur + 1, prefix, d, id)
  {
    var x := TreeEntry(E[cur].mode, name, E[cur].oid);
    NewFileName(b, E, lo, cur, prefix, name);
    var b' := b + [x];
    assert Put(b, x) == b';
    forall rel, mode, oid
      ensures Has(T, b', rel, mode, oid) <==> Live(E, lo, cur + 1, prefix + rel, mode, oid)
    {
      HasAppend(T, b, x, rel, mode, oid);
      LiveAfterFile(E, lo, cur, prefix, name, rel, mode, oid);
    }
  }

  lemma HasAppend(T: Store, b: seq<TreeEntry>, x: TreeEntry, rel: Text, mode: nat, oid: Oid)
    ensures Has(T, b + [x], rel, mode, oid) <==> Has(T, b, rel, mode, oid) || ItemHas(T, x, rel, mode, oid)
  {
    var b' := b + [x];
    assert b'[|b|] == x;
    assert forall i :: 0 <= i < |b| ==> b'[i] == b[i];
  }

  lemma NamesAfterPut(b: seq<TreeEntry>, x: TreeEntry, E: seq<IndexEntry>, lo: nat, cur: nat, next: nat, prefix: Text)
    requires NamesFrom(b, E, lo, cur, prefix) && cur <= next <= |E|
    requires ValidName(x.name) && x.mode < UINT && NameFrom(x, E, lo, next, prefix)
    ensures NamesFrom(Put(b, x), E, lo, next, prefix)
  {
    forall i | 0 <= i < |b| ensures NameFrom(b[i], E, lo, next, prefix) {
      assert NameFrom(b[i], E, lo, cur, prefix);
    }
    hide NameFrom;
    var k, b' := IndexOfName(b, x.name), Put(b, x);
    assert b'[k] == x;
    assert forall i :: 0 <= i < |b| && i != k ==> b'[i] == b[i] && b[i].name != x.name;
  }

  lemma FileNames(b: seq<TreeEntry>, E: seq<IndexEntry>, lo: nat, cur: nat, prefix: Text, name: Text)
    requires Buildable(E) && lo <= cur < |E| && Staged(E[cur])
    requires E[cur].path == prefix + name && SlashFree(name)
    requires NamesFrom(b, E, lo, cur, prefix)
    ensures NamesFrom(Put(b, TreeEntry(E[cur].mode, name, E[cur].oid)), E, lo, cur + 1, prefix)
  {
    var x := TreeEntry(E[cur].mode, name, E[cur].oid);
    NewFileName(b, E, lo, cur, prefix, name);
    assert forall i :: 0 <= i < |name| ==> name[i] == E[cur].path[|prefix| + i];
    assert NameFrom(x, E, lo, cur + 1, prefix);
    NamesAfterPut(b, x, E, lo, cur, cur + 1, prefix);
  }

  lemma FileSeparated(E: seq<IndexEntry>, lo: nat, cur: nat, prefix: Text, name: Text)
    requires Separated(E, lo, cur, prefix) && lo <= cur < |E|
    requires E[cur].path == prefix + name && SlashFree(name)
    ensures Separated(E, lo, cur + 1, prefix)
  {
    forall j, k, q | lo <= j < cur + 1 <= k < |E| && Staged(E[j]) && Staged(E[k]) && SlashFree(q)
      ensures !(prefix + q + [SLASH] <= E[j].path && prefix + q + [SLASH] <= E[k].path)
    {
      if j == cur {
        assert prefix + q + [SLASH] == prefix + (q + [SLASH]);
        PrefixSplit(prefix, q + [SLASH], E[cur].path);
        assert E[cur].path[|prefix|..] == name;
        assert (q + [SLASH])[|q|] == SLASH;
      }
    }
  }

  // ---------- one directory ----------

  /** The entries [cur..next) are the stage-0 entries under `prefix/name/`, and no later one is. */
  ghost predicate DirRun(E: seq<IndexEntry>, cur: nat, next: nat, prefix: Text, name: Text) {
    var nest := prefix + name + [SLASH];
    && cur < next <= |E| && Staged(E[cur]) && nest <= E[cur].path
    && (forall j :: cur <= j < next && Staged(E[j]) ==> nest <= E[j].path)
    && (forall k :: next <= k < |E| && Staged(E[k]) ==> !(nest <= E[k].path))
  }

  /** When a directory is met, the builder may hold a file of that name, but not a directory. */
  lemma NotYetDir(b: seq<TreeEntry>, E: seq<IndexEntry>, lo: nat, cur: nat, prefix: Text, name: Text, i: nat)
    requires lo <= cur < |E| && Staged(E[cur]) && SlashFree(name) && prefix + name + [SLASH] <= E[cur].path
    requires NamesFrom(b, E, lo, cur, prefix) && Separated(E, lo, cur, prefix)
    requires i < |b| && b[i].name == name
    ensures !IsDir(b[i].mode)
  {
    assert NameFrom(b[i], E, lo, cur, prefix);
    assert prefix + (name + [SLASH]) == prefix + name + [SLASH];
  }

  /** Whether a path is live changes only for the directory's own name and what is below it. */
  lemma LiveAfterDir(E: seq<IndexEntry>, lo: nat, cur: nat, next: nat, prefix: Text, name: Text,
                     rel: Text, mode: nat, oid: Oid)
    requires lo <= cur && DirRun(E, cur, next, prefix, name) && SlashFree(name)
    requires Separated(E, lo, cur, prefix)
    ensures name + [SLASH] <= rel ==>
      (Live(E, lo, next, prefix + rel, mode, oid) <==> Live(E, cur, next, prefix + rel, mode, oid))
    ensures !(name + [SLASH] <= rel) ==>
      (Live(E, lo, next, prefix + rel, mode, oid) <==> Live(E, lo, cur, prefix + rel, mode, oid) && rel != name)
  {
    var p, nest := prefix + rel, prefix + name + [SLASH];
    assert nest == prefix + (name + [SLASH]);
    if name + [SLASH] <= rel {
      assert nest <= p;
      assert forall j :: lo <= j < cur && Staged(E[j]) ==> !(nest <= E[j].path);
      assert forall j :: lo <= j < cur && Staged(E[j]) && p + [SLASH] <= E[j].path ==> nest <= E[j].path;
    } else {
      forall j | cur <= j < next && Staged(E[j])
        ensures E[j].path != p
        ensures p + [SLASH] <= E[j].path <==> rel == name
      {
        OutsideDir(prefix, name, rel, E[j].path);
      }
      assert rel == name ==> Shadowed(E, lo, next, p);
    }
  }

  lemma OutsideDir(prefix: Text, name: Text, rel: Text, path: Text)
    requires SlashFree(name) && prefix + name + [SLASH] <= path && !(name + [SLASH] <= rel)
    ensures path != prefix + rel
    ensures prefix + rel + [SLASH] <= path <==> rel == name
  {
    assert prefix + name + [SLASH] == prefix + (name + [SLASH]);
    assert prefix + rel + [SLASH] == prefix + (rel + [SLASH]);
    PrefixSplit(prefix, name + [SLASH], path);
    PrefixSplit(prefix, rel + [SLASH], path);
    var rest := path[|prefix|..];
    assert (prefix + rel)[|prefix|..] == rel;
    if rel + [SLASH] <= rest { SameComponent(name, rel, rest); }
  }

  lemma SameComponent(name: Text, rel: Text, rest: Text)
    requires SlashFree(name) && name + [SLASH] <= rest && rel + [SLASH] <= rest
    requires !(name + [SLASH] <= rel)
    ensures rel == name
  {
    assert rest[|rel|] == (rel + [SLASH])[|rel|] && rest[|name|] == (name + [SLASH])[|name|];
    assert forall i :: 0 <= i < |name| ==> rest[i] == name[i];
    assert rel <= rest && name <= rest;
    if |rel| > |name| { ShorterPrefix(name + [SLASH], rel, rest); }
    assert |rel| == |name|;
  }

  lemma ShorterPrefix(a: Text, b: Text, s: Text)
    requires a <= s && b <= s && |a| <= |b|
    ensures a <= b
  {
  }

  lemma HasPut(T: Store, b: seq<TreeEntry>, x: TreeEntry, rel: Text, mode: nat, oid: Oid)
    requires NamesDistinct(b)
    ensures Has(T, Put(b, x), rel, mode, oid) <==>
            || ItemHas(T, x, rel, mode, oid)
            || exists i :: 0 <= i < |b| && b[i].name != x.name && ItemHas(T, b[i], rel, mode, oid)
  {
    hide ItemHas;
    var k, b' := IndexOfName(b, x.name), Put(b, x);
    assert b'[k] == x;
    assert forall i :: 0 <= i < |b| && i != k ==> b'[i] == b[i] && b[i].name != x.name;
  }

  lemma NamesOk(b: seq<TreeEntry>, E: seq<IndexEntry>, lo: nat, cur: nat, prefix: Text)
    requires NamesFrom(b, E, lo, cur, prefix)
    ensures NamesValid(b) && NamesDistinct(b)
  {
  }

  lemma DirRunStart(E: seq<IndexEntry>, cur: nat, next: nat, prefix: Text, name: Text)
    requires DirRun(E, cur, next, prefix, name)
    ensures cur < |E| && Staged(E[cur]) && prefix + name + [SLASH] <= E[cur].path
  {
  }

  lemma HoldsAfterDir(T: Store, b: seq<TreeEntry>, E: seq<IndexEntry>, lo: nat, cur: nat, next: nat,
                      prefix: Text, name: Text, sub: Oid, rel: Text, mode: nat, oid: Oid)
    requires lo <= cur && DirRun(E, cur, next, prefix, name) && SlashFree(name)
    requires NamesFrom(b, E, lo, cur, prefix) && Separated(E, lo, cur, prefix)
    requires Holds(T, b, E, lo, cur, prefix)
    requires sub in T && Holds(T, T[sub], E, cur, next, prefix + name + [SLASH])
    ensures Has(T, Put(b, TreeEntry(DIR_MODE, name, sub)), rel, mode, oid) <==>
            Live(E, lo, next, prefix + rel, mode, oid)
  {
    hide Live, DirRun, Put, NamesFrom, NamesValid, Separated, SlashFree, ItemHas, Key, IsDir;
    var x := TreeEntry(DIR_MODE, name, sub);
    NewDirHas(T, name, sub, rel, mode, oid);
    NamesOk(b, E, lo, cur, prefix);
    HasPut(T, b, x, rel, mode, oid);
    LiveAfterDir(E, lo, cur, next, prefix, name, rel, mode, oid);
    DirRunStart(E, cur, next, prefix, name);
    if name + [SLASH] <= rel {
      BelowNewDir(T, b, name, rel, mode, oid);
      assert prefix + rel == prefix + name + [SLASH] + rel[|name| + 1..];
    } else {
      BesideNewDir(T, b, E, lo, cur, prefix, name, rel, mode, oid);
      assert Has(T, b, rel, mode, oid) <==> Live(E, lo, cur, prefix + rel, mode, oid);
    }
  }

  lemma NewDirHas(T: Store, name: Text, sub: Oid, rel: Text, mode: nat, oid: Oid)
    requires sub in T
    ensures ItemHas(T, TreeEntry(DIR_MODE, name, sub), rel, mode, oid) <==>
            name + [SLASH] <= rel && Has(T, T[sub], rel[|name| + 1..], mode, oid)
  {
    assert Key(TreeEntry(DIR_MODE, name, sub)) == name + [SLASH];
  }

  lemma BelowNewDir(T: Store, b: seq<TreeEntry>, name: Text, rel: Text, mode: nat, oid: Oid)
    requires NamesValid(b) && SlashFree(name) && name + [SLASH] <= rel
    ensures forall i :: 0 <= i < |b| && ItemHas(T, b[i], rel, mode, oid) ==> b[i].name == name
  {
    assert rel[|name|] == (name + [SLASH])[|name|];
    forall i | 0 <= i < |b| && ItemHas(T, b[i], rel, mode, oid) ensures b[i].name == name {
      assert IsDir(b[i].mode);
      FirstNameUnique(rel, name, b[i].name);
    }
  }

  lemma BesideNewDir(T: Store, b: seq<TreeEntry>, E: seq<IndexEntry>, lo: nat, cur: nat,
                     prefix: Text, name: Text, rel: Text, mode: nat, oid: Oid)
    requires lo <= cur < |E| && Staged(E[cur]) && SlashFree(name) && prefix + name + [SLASH] <= E[cur].path
    requires NamesFrom(b, E, lo, cur, prefix) && Separated(E, lo, cur, prefix)
    requires !(name + [SLASH] <= rel)
    ensures forall i :: 0 <= i < |b| && ItemHas(T, b[i], rel, mode, oid) ==>
              (b[i].name == name <==> rel == name)
  {
    forall i | 0 <= i < |b| && ItemHas(T, b[i], rel, mode, oid) ensures b[i].name == name <==> rel == name {
      if b[i].name == name { NotYetDir(b, E, lo, cur, prefix, name, i); }
      assert IsDir(b[i].mode) ==> rel[|b[i].name|] == SLASH;
    }
  }

  lemma {:induction false} AddDir(T: Store, b: seq<TreeEntry>, E: seq<IndexEntry>, lo: nat, cur: nat, next: nat,
               prefix: Text, name: Text, sub: Oid, d: nat, id: seq<TreeEntry> -> Oid)
    requires Buildable(E) && lo <= cur && DirRun(E, cur, next, prefix, name) && SlashFree(name)
    requires NamesFrom(b, E, lo, cur, prefix) && Separated(E, lo, cur, prefix)
    requires Built(T, b, E, lo, cur, prefix, d, id)
    requires ItemStored(T, TreeEntry(DIR_MODE, name, sub), d, id)
    requires Holds(T, T[sub], E, cur, next, prefix + name + [SLASH])
    ensures Built(T, Put(b, TreeEntry(DIR_MODE, name, sub)), E, lo, next, prefix, d, id)
  {
    hide Has, Live, Canonical, Complete, DirRun, NamesFrom, Separated;
    var x := TreeEntry(DIR_MODE, name, sub);
    forall rel, mode, oid
      ensures Has(T, Put(b, x), rel, mode, oid) <==> Live(E, lo, next, prefix + rel, mode, oid)
    {
      HoldsAfterDir(T, b, E, lo, cur, next, prefix, name, sub, rel, mode, oid);
    }
  }

  lemma {:induction false} DirNames(b: seq<TreeEntry>, E: seq<IndexEntry>, lo: nat, cur: nat, next: nat,
                 prefix: Text, name: Text, sub: Oid)
    requires Buildable(E) && lo <= cur && DirRun(E, cur, next, prefix, name) && SlashFree(name)
    requires NamesFrom(b, E, lo, cur, prefix)
    ensures NamesFrom(Put(b, TreeEntry(DIR_MODE, name, sub)), E, lo, next, prefix)
  {
    var x := TreeEntry(DIR_MODE, name, sub);
    assert prefix + Key(x) == prefix + name + [SLASH];
    assert NameFrom(x, E, lo, next, prefix);
    assert forall i :: 0 <= i < |name| ==>
      name[i] == (prefix + name + [SLASH])[|prefix| + i] == E[cur].path[|prefix| + i];
    NamesAfterPut(b, x, E, lo, cur, next, prefix);
  }

  lemma DirSeparated(E: seq<IndexEntry>, lo: nat, cur: nat, next: nat, prefix: Text, name: Text)
    requires lo <= cur && Separated(E, lo, cur, prefix)
    requires DirRun(E, cur, next, prefix, name) && SlashFree(name)
    ensures Separated(E, lo, next, prefix)
  {
    forall j, k, q | lo <= j < next <= k < |E| && Staged(E[j]) && Staged(E[k]) && SlashFree(q)
      ensures !(prefix + q + [SLASH] <= E[j].path && prefix + q + [SLASH] <= E[k].path)
    {
      if cur <= j && prefix + q + [SLASH] <= E[j].path {
        assert prefix + q + [SLASH] == prefix + (q + [SLASH]);
        assert prefix + name + [SLASH] == prefix + (name + [SLASH]);
        PrefixSplit(prefix, q + [SLASH], E[j].path);
        PrefixSplit(prefix, name + [SLASH], E[j].path);
        FirstNameUnique(E[j].path[|prefix|..], q, name);
      }
    }
  }

  // ---------- more objects in the store ----------

  lemma ItemStoredExtends(T: Store, T': Store, x: TreeEntry, d: nat, id: seq<TreeEntry> -> Oid)
    requires ItemStored(T, x, d, id) && Extends(T, T')
    ensures ItemStored(T', x, d, id)
  {
    if IsDir(x.mode) { CanonicalExtends(T, T', T[x.oid], d - 1, id); }
  }

  lemma BuiltExtends(T: Store, T': Store, b: seq<TreeEntry>, E: seq<IndexEntry>, lo: nat, cur: nat, prefix: Text,
                     d: nat, id: seq<TreeEntry> -> Oid)
    requires Built(T, b, E, lo, cur, prefix, d, id) && Extends(T, T')
    ensures Built(T', b, E, lo, cur, prefix, d, id)
  {
    assert Complete(T, b, d);
    forall i | 0 <= i < |b| ensures ItemStored(T', b[i], d, id) {
      ItemStoredExtends(T, T', b[i], d, id);
    }
    forall rel, mode, oid ensures Has(T', b, rel, mode, oid) <==> Live(E, lo, cur, prefix + rel, mode, oid) {
      HasExtends(T, T', b, d, rel, mode, oid);
    }
  }

  /** The stored tree for the range. */
  ghost predicate Encodes(T: Store, oid: Oid, E: seq<IndexEntry>, lo: nat, hi: nat, prefix: Text,
                          d: nat, id: seq<TreeEntry> -> Oid)
  {
    && oid in T && oid == id(T[oid])
    && Complete(T, T[oid], d) && Canonical(T, T[oid], d, id)
    && Holds(T, T[oid], E, lo, hi, prefix)
  }

  /** It stays one as more is stored. */
  lemma EncodesExtends(T: Store, T': Store, oid: Oid, E: seq<IndexEntry>, lo: nat, hi: nat, prefix: Text,
                       d: nat, id: seq<TreeEntry> -> Oid)
    requires Encodes(T, oid, E, lo, hi, prefix, d, id) && Extends(T, T')
    ensures Encodes(T', oid, E, lo, hi, prefix, d, id)
  {
    hide Canonical, Complete, Has, Live;
    CanonicalExtends(T, T', T[oid], d, id);
    forall rel, mode, o ensures Has(T', T[oid], rel, mode, o) <==> Live(E, lo, hi, prefix + rel, mode, o) {
      HasExtends(T, T', T[oid], d, rel, mode, o);
    }
  }

  lemma Finish(T: Store, T': Store, b: seq<TreeEntry>, oid: Oid, E: seq<IndexEntry>, lo: nat, hi: nat,
               prefix: Text, d: nat, id: seq<TreeEntry> -> Oid)
    requires Progress(T, true, b, E, lo, hi, prefix, d, id) && Extends(T, T')
    requires oid in T' && oid == id(T'[oid]) && TreeSorted(T'[oid])
    requires forall x :: x in T'[oid] <==> x in b
    ensures Encodes(T', oid, E, lo, hi, prefix, d, id)
    ensures b != [] ==> T'[oid] != []
  {
    assert b != [] ==> b[0] in T'[oid];
    var es := T'[oid];
    BuiltExtends(T, T', b, E, lo, hi, prefix, d, id);
    forall i | 0 <= i < |es| ensures ItemStored(T', es[i], d, id) && ValidName(es[i].name) {
      assert es[i] in es;
      var k :| 0 <= k < |b| && b[k] == es[i];
    }
    forall rel, mode, oid ensures Has(T', es, rel, mode, oid) <==> Has(T', b, rel, mode, oid) {
      if Has(T', es, rel, mode, oid) { SameMembersHas(T', es, b, rel, mode, oid); }
      if Has(T', b, rel, mode, oid) { SameMembersHas(T', b, es, rel, mode, oid); }
    }
  }

  lemma SameMembersHas(T: Store, a: seq<TreeEntry>, b: seq<TreeEntry>, rel: Text, mode: nat, oid: Oid)
    requires forall x :: x in a ==> x in b
    requires Has(T, a, rel, mode, oid)
    ensures Has(T, b, rel, mode, oid)
  {
    var i :| 0 <= i < |a| && ItemHas(T, a[i], rel, mode, oid);
    assert a[i] in b;
    var k :| 0 <= k < |b| && b[k] == a[i];
  }

  // ---------- write_tree ----------

  ghost function IdOf(sha1: RawObj -> Oid): seq<TreeEntry> -> Oid {
    es => TreeId(sha1, es)
  }

  lemma IdOfTree(sha1: RawObj -> Oid, es: seq<TreeEntry>)
    ensures IdOf(sha1)(es) == TreeId(sha1, es)
  {
  }

  /** Some directory name below the prefix does not fit into PATH_MAX. */
  ghost predicate TooDeep(E: seq<IndexEntry>, lo: nat, prefix: Text) {
    exists j, k :: lo <= j < |E| && Staged(E[j]) && prefix <= E[j].path && DeepAt(E[j].path, |prefix|, k)
  }

  ghost predicate DeepAt(path: Text, from: nat, k: nat) {
    from <= k < |path| && path[k] == SLASH && k + 2 >= PATH_MAX
  }

  /** The entries [lo..cur) with stage 0 start with the prefix and have no overlong directory. */
  ghost predicate Consumed(E: seq<IndexEntry>, lo: nat, cur: nat, prefix: Text) {
    && lo <= cur <= |E|
    && forall j :: lo <= j < cur && Staged(E[j]) ==>
         prefix <= E[j].path && forall k: nat :: !DeepAt(E[j].path, |prefix|, k)
  }

  /** A stage-0 entry without the prefix. */
  predicate StopsAt(e: IndexEntry, prefix: Text) {
    Staged(e) && !(prefix <= e.path)
  }

  ghost predicate NoneFrom(E: seq<IndexEntry>, cur: nat, prefix: Text) {
    forall k :: cur <= k < |E| && Staged(E[k]) ==> !(prefix <= E[k].path)
  }

  ghost predicate Enters(E: seq<IndexEntry>, cur: nat, prefix: Text) {
    cur < |E| && Staged(E[cur]) && prefix <= E[cur].path
  }

  lemma StopsHere(E: seq<IndexEntry>, lo: nat, cur: nat, prefix: Text)
    requires Ordered(E) && Enters(E, lo, prefix) && lo < cur < |E| && Staged(E[cur]) && !(prefix <= E[cur].path)
    ensures NoneFrom(E, cur, prefix)
  {
    StagedOrder(E, lo, cur);
    forall k | cur <= k < |E| && Staged(E[k]) ensures !(prefix <= E[k].path) {
      LessPastPrefix(prefix, E[lo].path, E[cur].path, E[k].path);
    }
  }

  lemma NotTooDeep(E: seq<IndexEntry>, lo: nat, cur: nat, prefix: Text)
    requires Consumed(E, lo, cur, prefix) && NoneFrom(E, cur, prefix)
    ensures !TooDeep(E, lo, prefix)
  {
  }

  /** Overlong names below a subdirectory are overlong names below the directory. */
  lemma DeepInside(E: seq<IndexEntry>, lo: nat, cur: nat, prefix: Text, nest: Text)
    requires lo <= cur && prefix <= nest && TooDeep(E, cur, nest)
    ensures TooDeep(E, lo, prefix)
  {
    var j, k :| cur <= j < |E| && Staged(E[j]) && nest <= E[j].path && DeepAt(E[j].path, |nest|, k);
    assert prefix <= E[j].path && DeepAt(E[j].path, |prefix|, k);
  }

  lemma ConsumedDir(E: seq<IndexEntry>, lo: nat, cur: nat, next: nat, prefix: Text, name: Text)
    requires Consumed(E, lo, cur, prefix) && Consumed(E, cur, next, prefix + name + [SLASH]) && SlashFree(name)
    requires |prefix| + |name| + 2 < PATH_MAX
    ensures Consumed(E, lo, next, prefix)
  {
    var nest := prefix + name + [SLASH];
    forall j | cur <= j < next && Staged(E[j])
      ensures prefix <= E[j].path && forall k: nat :: !DeepAt(E[j].path, |prefix|, k)
    {
      var p := E[j].path;
      assert prefix == nest[..|prefix|] == p[..|prefix|];
      assert forall k :: |prefix| <= k < |prefix| + |name| ==> p[k] == nest[k] == name[k - |prefix|];
      forall k: nat ensures !DeepAt(p, |prefix|, k) {
        assert !DeepAt(p, |nest|, k);
      }
    }
  }

  /** No path is longer than `n`. */
  ghost predicate PathsWithin(E: seq<IndexEntry>, n: nat) {
    forall i :: 0 <= i < |E| ==> |E[i].path| <= n
  }

  lemma SubtreeItem(T: Store, name: Text, sub: Oid, E: seq<IndexEntry>, cur: nat, next: nat, nest: Text,
                    d: nat, d': nat, id: seq<TreeEntry> -> Oid)
    requires Encodes(T, sub, E, cur, next, nest, d', id) && T[sub] != [] && d' < d
    ensures ItemStored(T, TreeEntry(DIR_MODE, name, sub), d, id)
  {
    CanonicalDeeper(T, T[sub], d', d - 1, id);
  }

  /** The state of the builder loop; the part about the store holds unless SHA-1 has collided. */
  ghost predicate Progress(T: Store, clean: bool, b: seq<TreeEntry>, E: seq<IndexEntry>, lo: nat, cur: nat,
                           prefix: Text, d: nat, id: seq<TreeEntry> -> Oid)
  {
    && Consumed(E, lo, cur, prefix)
    && NamesFrom(b, E, lo, cur, prefix)
    && Separated(E, lo, cur, prefix)
    && (lo < cur && Staged(E[lo]) ==> b != [])
    && (clean ==> Built(T, b, E, lo, cur, prefix, d, id))
  }

  lemma ProgressStart(T: Store, clean: bool, E: seq<IndexEntry>, lo: nat, prefix: Text,
                      d: nat, id: seq<TreeEntry> -> Oid)
    requires lo <= |E|
    ensures Progress(T, clean, [], E, lo, lo, prefix, d, id)
  {
  }

  lemma ProgressSkip(T: Store, clean: bool, b: seq<TreeEntry>, E: seq<IndexEntry>, lo: nat, cur: nat,
                     prefix: Text, d: nat, id: seq<TreeEntry> -> Oid)
    requires Progress(T, clean, b, E, lo, cur, prefix, d, id) && cur < |E| && !Staged(E[cur])
    ensures Progress(T, clean, b, E, lo, cur + 1, prefix, d, id)
  {
    forall i | 0 <= i < |b| ensures NameFrom(b[i], E, lo, cur + 1, prefix) {
      assert NameFrom(b[i], E, lo, cur, prefix);
    }
    if clean {
      forall rel, mode, oid
        ensures Live(E, lo, cur + 1, prefix + rel, mode, oid) <==> Live(E, lo, cur, prefix + rel, mode, oid)
      {
      }
    }
  }

  lemma ProgressFile(T: Store, clean: bool, b: seq<TreeEntry>, E: seq<IndexEntry>, lo: nat, cur: nat,
                     prefix: Text, name: Text, d: nat, id: seq<TreeEntry> -> Oid)
    requires Progress(T, clean, b, E, lo, cur, prefix, d, id)
    requires Buildable(E) && cur < |E| && Staged(E[cur]) && E[cur].path == prefix + name && SlashFree(name)
    ensures Progress(T, clean, Put(b, TreeEntry(E[cur].mode, name, E[cur].oid)), E, lo, cur + 1, prefix, d, id)
  {
    hide Built, NamesFrom, Separated, Put, Buildable;
    FileNames(b, E, lo, cur, prefix, name);
    FileSeparated(E, lo, cur, prefix, name);
    PutNonEmpty(b, TreeEntry(E[cur].mode, name, E[cur].oid));
    if clean { AddFile(T, b, E, lo, cur, prefix, name, d, id); }
    forall k: nat ensures !DeepAt(E[cur].path, |prefix|, k) {
      if |prefix| <= k < |E[cur].path| { assert E[cur].path[k] == name[k - |prefix|]; }
    }
  }

  lemma PutNonEmpty(b: seq<TreeEntry>, x: TreeEntry)
    ensures Put(b, x) != []
  {
  }

  lemma ProgressDir(T: Store, T': Store, clean: bool, b: seq<TreeEntry>, E: seq<IndexEntry>,
                    lo: nat, cur: nat, next: nat, prefix: Text, name: Text, sub: Oid,
                    d: nat, d': nat, id: seq<TreeEntry> -> Oid)
    requires Progress(T, clean, b, E, lo, cur, prefix, d, id) && Buildable(E) && SlashFree(name)
    requires |prefix| + |name| + 2 < PATH_MAX && d' < d
    requires Consumed(E, cur, next, prefix + name + [SLASH]) && DirRun(E, cur, next, prefix, name)
    requires clean ==> Extends(T, T') && sub in T' && T'[sub] != []
                       && Encodes(T', sub, E, cur, next, prefix + name + [SLASH], d', id)
    ensures Progress(T', clean, Put(b, TreeEntry(DIR_MODE, name, sub)), E, lo, next, prefix, d, id)
  {
    DirNames(b, E, lo, cur, next, prefix, name, sub);
    DirSeparated(E, lo, cur, next, prefix, name);
    ConsumedDir(E, lo, cur, next, prefix, name);
    if clean {
      hide Canonical, Complete, Has, Live, DirRun, NamesFrom, Separated, Consumed, Buildable;
      SubtreeItem(T', name, sub, E, cur, next, prefix + name + [SLASH], d, d', id);
      BuiltExtends(T, T', b, E, lo, cur, prefix, d, id);
      AddDir(T', b, E, lo, cur, next, prefix, name, sub, d, id);
    }
  }

  lemma ProgressClean(T: Store, T': Store, clean: bool, clean': bool, b: seq<TreeEntry>, E: seq<IndexEntry>,
                      lo: nat, cur: nat, prefix: Text, d: nat, id: seq<TreeEntry> -> Oid)
    requires Progress(T, clean, b, E, lo, cur, prefix, d, id) && (clean' ==> clean && T == T')
    ensures Progress(T', clean', b, E, lo, cur, prefix, d, id)
  {
  }

  /**
   * `write_tree`: the tree for the consecutive stage-0 entries under `prefix`,
   * starting at the shared cursor. Fails exactly when a directory name is too long.
   */
  method WriteTree(index: Index, odb: Odb, start: nat, prefix: Text, ghost maxLen: nat)
    returns (r: Option<Oid>, cur: nat)
    requires odb.Valid() && Buildable(index.entries) && PathsWithin(index.entries, maxLen)
    requires start <= |index.entries| && (prefix == [] || Enters(index.entries, start, prefix))
    requires |prefix| <= maxLen
    modifies odb
    ensures odb.Valid()
    ensures old(odb.collided) ==> odb.collided
    ensures !odb.collided ==> Extends(old(odb.Trees()), odb.Trees()) && Keeps(old(odb.objects), odb.objects)
    ensures r.None? <==> TooDeep(index.entries, start, prefix)
    ensures r.Some? ==> cur <= |index.entries| && (cur == |index.entries| || StopsAt(index.entries[cur], prefix))
    ensures r.Some? ==> Consumed(index.entries, start, cur, prefix) && NoneFrom(index.entries, cur, prefix)
    ensures r.Some? && Enters(index.entries, start, prefix) ==> start < cur
    ensures r.Some? && !odb.collided ==> r.value in odb.Trees()
    ensures r.Some? && !odb.collided ==>
      Encodes(odb.Trees(), r.value, index.entries, start, cur, prefix, maxLen - |prefix|, IdOf(odb.sha1))
    ensures r.Some? && !odb.collided && Enters(index.entries, start, prefix) ==> odb.Trees()[r.value] != []
    decreases |index.entries| - start,
              (if start < |index.entries| then |index.entries[start].path| - |prefix| else 0), 1
  {
    hide *;
    ghost var E, d, id := index.entries, maxLen - |prefix|, IdOf(odb.sha1);
    ghost var T0, O0 := odb.Trees(), odb.objects;
    ProgressStart(T0, !odb.collided, E, start, prefix, d, id);
    ExtendsReflexive(T0);
    KeepsReflexive(O0);
    var builder := new TreeBuilder();
    cur := start;
    while cur < |index.entries|
      invariant start <= cur <= |E| && E == index.entries
      invariant odb.Valid() && (old(odb.collided) ==> odb.collided)
      invariant !odb.collided ==> Extends(T0, odb.Trees()) && Keeps(O0, odb.objects)
      invariant Progress(odb.Trees(), !odb.collided, builder.entries, E, start, cur, prefix, d, id)
      decreases |index.entries| - cur
    {
      var entry := index.entries[cur];
      ghost var T, O, clean, b := odb.Trees(), odb.objects, !odb.collided, builder.entries;
      if !Staged(entry) {
        ProgressSkip(T, clean, b, E, start, cur, prefix, d, id);
        cur := cur + 1;
        continue;
      }
      if !(prefix <= entry.path) { break; } // str_startswith
      var rest := entry.path[|prefix|..];
      assert entry.path == prefix + rest;
      var dirlen := Find(rest, SLASH); // strchr
      NameBeforeSlash(rest);
      if dirlen == |rest| {
        ProgressFile(T, clean, b, E, start, cur, prefix, rest, d, id);
        builder.Insert(rest, entry.oid, entry.mode);
        cur := cur + 1;
      } else {
        var ok, next := WriteSubtree(index, odb, builder, start, cur, prefix, rest, dirlen, maxLen);
        if !odb.collided {
          ExtendsTransitive(T0, T, odb.Trees());
          KeepsTransitive(O0, O, odb.objects);
        }
        if !ok { return None, cur; }
        cur := next;
      }
    }
    ghost var T, O, clean, b := odb.Trees(), odb.objects, !odb.collided, builder.entries;
    LoopDone(E, start, cur, prefix, T, clean, b, d, id);
    if cur < |E| { Stopped(E[cur], prefix); }
    var oid := WriteBuilt(builder, odb, E, start, cur, prefix, d);
    if !odb.collided {
      ExtendsTransitive(T0, T, odb.Trees());
      KeepsTransitive(O0, O, odb.objects);
    }
    r := Some(oid);
  }

  /** The end of `write_tree`: what the builder holds is stored. */
  method WriteBuilt(builder: TreeBuilder, odb: Odb, ghost E: seq<IndexEntry>, ghost start: nat, ghost cur: nat,
                    ghost prefix: Text, ghost d: nat) returns (oid: Oid)
    requires odb.Valid()
    requires NamesValid(builder.entries) && NamesDistinct(builder.entries) && Printable(builder.entries)
    requires Progress(odb.Trees(), !odb.collided, builder.entries, E, start, cur, prefix, d, IdOf(odb.sha1))
    modifies odb, builder
    ensures odb.Valid()
    ensures old(odb.collided) ==> odb.collided
    ensures !odb.collided ==> Extends(old(odb.Trees()), odb.Trees()) && Keeps(old(odb.objects), odb.objects)
    ensures !odb.collided ==> oid in odb.Trees()
    ensures !odb.collided ==> Encodes(odb.Trees(), oid, E, start, cur, prefix, d, IdOf(odb.sha1))
    ensures !odb.collided && old(builder.entries) != [] ==> odb.Trees()[oid] != []
  {
    hide *;
    ghost var T, b := odb.Trees(), builder.entries;
    oid := builder.Write(odb);
    if !odb.collided {
      IdOfTree(odb.sha1, odb.Trees()[oid]);
      Finish(T, odb.Trees(), b, oid, E, start, cur, prefix, d, IdOf(odb.sha1));
    }
  }

  /** The "build subtree" branch of `write_tree`: one nested call for a subdirectory. */
  method WriteSubtree(index: Index, odb: Odb, builder: TreeBuilder, ghost start: nat, cur: nat, prefix: Text,
                      rest: Text, dirlen: nat, ghost maxLen: nat)
    returns (ok: bool, next: nat)
    requires odb.Valid() && Buildable(index.entries) && PathsWithin(index.entries, maxLen)
    requires start <= cur < |index.entries| && Staged(index.entries[cur]) && |prefix| <= maxLen
    requires index.entries[cur].path == prefix + rest
    requires dirlen < |rest| && rest[dirlen] == SLASH && SlashFree(rest[..dirlen])
    requires Progress(odb.Trees(), !odb.collided, builder.entries, index.entries, start, cur, prefix,
                      maxLen - |prefix|, IdOf(odb.sha1))
    modifies odb, builder
    ensures odb.Valid()
    ensures old(odb.collided) ==> odb.collided
    ensures !odb.collided ==> Extends(old(odb.Trees()), odb.Trees()) && Keeps(old(odb.objects), odb.objects)
    ensures !ok ==> TooDeep(index.entries, start, prefix)
    ensures ok ==> cur < next <= |index.entries|
    ensures ok ==> Progress(odb.Trees(), !odb.collided, builder.entries, index.entries, start, next, prefix,
                            maxLen - |prefix|, IdOf(odb.sha1))
    decreases |index.entries| - cur, |index.entries[cur].path| - |prefix|, 0
  {
    hide *;
    ghost var E, d, id := index.entries, maxLen - |prefix|, IdOf(odb.sha1);
    ghost var T, clean, b := odb.Trees(), !odb.collided, builder.entries;
    ExtendsReflexive(T);
    KeepsReflexive(odb.objects);
    EntersDir(E, cur, prefix, rest, dirlen);
    if dirlen + |prefix| + 2 >= PATH_MAX {
      DeepHere(E, start, cur, prefix, dirlen);
      return false, cur;
    }
    var dirname := rest[..dirlen];
    var nestprefix := prefix + dirname + [SLASH];
    WithinBound(E, cur, nestprefix, maxLen);
    var sub;
    sub, next := WriteTree(index, odb, cur, nestprefix, maxLen);
    if sub.None? {
      DeepInside(E, start, cur, prefix, nestprefix);
      return false, cur;
    }
    DirRunFrom(E, cur, next, prefix, dirname);
    ProgressClean(T, T, clean, !odb.collided, b, E, start, cur, prefix, d, id);
    ProgressDir(T, odb.Trees(), !odb.collided, b, E, start, cur, next, prefix, dirname, sub.value,
                d, maxLen - |nestprefix|, id);
    builder.Insert(dirname, sub.value, DIR_MODE);
    ok := true;
    ConsumedWithin(E, cur, next, nestprefix);
  }

  lemma ConsumedWithin(E: seq<IndexEntry>, lo: nat, cur: nat, prefix: Text)
    requires Consumed(E, lo, cur, prefix)
    ensures cur <= |E|
  {
  }

  lemma ExtendsReflexive(T: Store)
    ensures Extends(T, T)
  {
  }

  lemma ExtendsTransitive(T: Store, T': Store, T'': Store)
    requires Extends(T, T') && Extends(T', T'')
    ensures Extends(T, T'')
  {
  }

  lemma NameBeforeSlash(rest: Text)
    ensures SlashFree(rest[..Find(rest, SLASH)])
    ensures Find(rest, SLASH) == |rest| ==> SlashFree(rest)
  {
  }

  lemma DeepHere(E: seq<IndexEntry>, lo: nat, cur: nat, prefix: Text, dirlen: nat)
    requires lo <= cur && Enters(E, cur, prefix) && |prefix| + dirlen < |E[cur].path|
    requires E[cur].path[|prefix| + dirlen] == SLASH && dirlen + |prefix| + 2 >= PATH_MAX
    ensures TooDeep(E, lo, prefix)
  {
    assert DeepAt(E[cur].path, |prefix|, |prefix| + dirlen);
  }

  lemma EntersDir(E: seq<IndexEntry>, cur: nat, prefix: Text, rest: Text, dirlen: nat)
    requires cur < |E| && Staged(E[cur]) && E[cur].path == prefix + rest
    requires dirlen < |rest| && rest[dirlen] == SLASH
    ensures Enters(E, cur, prefix + rest[..dirlen] + [SLASH])
  {
    assert rest == rest[..dirlen] + [SLASH] + rest[dirlen + 1..];
  }

  lemma WithinBound(E: seq<IndexEntry>, cur: nat, prefix: Text, n: nat)
    requires PathsWithin(E, n) && Enters(E, cur, prefix)
    ensures |prefix| <= n
  {
  }

  lemma DirRunFrom(E: seq<IndexEntry>, cur: nat, next: nat, prefix: Text, name: Text)
    requires Enters(E, cur, prefix + name + [SLASH]) && cur < next
    requires Consumed(E, cur, next, prefix + name + [SLASH]) && NoneFrom(E, next, prefix + name + [SLASH])
    ensures DirRun(E, cur, next, prefix, name)
  {
  }

  lemma Stopped(e: IndexEntry, prefix: Text)
    ensures StopsAt(e, prefix) <==> Staged(e) && !(prefix <= e.path)
  {
  }

  /** The loop ends at the first stage-0 entry without the prefix. */
  lemma LoopDone(E: seq<IndexEntry>, lo: nat, cur: nat, prefix: Text, T: Store, clean: bool,
                 b: seq<TreeEntry>, d: nat, id: seq<TreeEntry> -> Oid)
    requires Buildable(E) && Progress(T, clean, b, E, lo, cur, prefix, d, id)
    requires prefix == [] || Enters(E, lo, prefix)
    requires cur == |E| || (Staged(E[cur]) && !(prefix <= E[cur].path))
    ensures Consumed(E, lo, cur, prefix) && NoneFrom(E, cur, prefix) && !TooDeep(E, lo, prefix)
    ensures Enters(E, lo, prefix) ==> lo < cur && b != []
    ensures NamesValid(b) && NamesDistinct(b) && Printable(b)
  {
    if cur < |E| { StopsHere(E, lo, cur, prefix); }
    NotTooDeep(E, lo, cur, prefix);
  }

  /** `qgit_tree_create_fromindex`: sort the index, then write the root tree. */
  method CreateFromIndex(index: Index, odb: Odb) returns (r: Option<Oid>)
    requires odb.Valid() && UniqueSlots(index.entries) && StagedWellFormed(index.entries)
    modifies index`entries, odb
    ensures odb.Valid()
    ensures multiset(index.entries) == multiset(old(index.entries)) && Buildable(index.entries)
    ensures old(odb.collided) ==> odb.collided
    ensures !odb.collided ==> Extends(old(odb.Trees()), odb.Trees()) && Keeps(old(odb.objects), odb.objects)
    ensures r.None? <==> TooDeep(index.entries, 0, [])
    ensures r.Some? && !odb.collided ==>
      Encodes(odb.Trees(), r.value, index.entries, 0, |index.entries|, [],
              MaxPathLen(index.entries), IdOf(odb.sha1))
  {
    hide *;
    ghost var before := index.entries;
    index.Sort();
    SortedBuildable(before, index.entries);
    ghost var maxLen := MaxPathLen(index.entries);
    var cur;
    r, cur := WriteTree(index, odb, 0, [], maxLen);
    if r.Some? && !odb.collided {
      RootComplete(odb.Trees(), r.value, index.entries, cur, maxLen, IdOf(odb.sha1));
    }
  }

  /** Stage-0 entries have NUL-free paths and 32-bit modes that are not directory modes. */
  ghost predicate StagedWellFormed(E: seq<IndexEntry>) {
    forall i :: 0 <= i < |E| && Staged(E[i]) ==>
      IsCString(E[i].path) && !IsDir(E[i].mode) && E[i].mode < UINT
  }

  ghost function MaxPathLen(E: seq<IndexEntry>): (n: nat)
    ensures PathsWithin(E, n)
  {
    if E == [] then 0
    else
      var m := MaxPathLen(E[1..]);
      assert forall i :: 0 < i < |E| ==> E[i] == E[1..][i - 1];
      if |E[0].path| > m then |E[0].path| else m
  }

  lemma SortedBuildable(before: seq<IndexEntry>, after: seq<IndexEntry>)
    requires multiset(after) == multiset(before) && Ordered(after)
    requires StagedWellFormed(before)
    ensures Buildable(after)
  {
    PermutationMembers(before, after);
    forall i | 0 <= i < |after| ensures after[i] in before {
      assert after[i] in after;
    }
  }

  /** Whatever is left after the root call has a stage other than 0. */
  lemma RootComplete(T: Store, oid: Oid, E: seq<IndexEntry>, cur: nat, d: nat, id: seq<TreeEntry> -> Oid)
    requires Encodes(T, oid, E, 0, cur, [], d, id) && Consumed(E, 0, cur, []) && NoneFrom(E, cur, [])
    ensures Encodes(T, oid, E, 0, |E|, [], d, id)
  {
    forall k | cur <= k < |E| ensures !Staged(E[k]) {
      assert [] <= E[k].path;
    }
    forall path, mode, oid ensures Live(E, 0, cur, path, mode, oid) <==> Live(E, 0, |E|, path, mode, oid) {
    }
  }

  /** Only a '/' behind 4094 bytes of the path of a stage-0 entry is too far. */
  lemma TooDeepExactly(E: seq<IndexEntry>)
    ensures TooDeep(E, 0, []) <==>
      exists j, k: nat :: 0 <= j < |E| && E[j].flags / 0x1000 % 4 == 0
                          && 4094 <= k < |E[j].path| && E[j].path[k] == SLASH
  {
    if j, k: nat :| 0 <= j < |E| && E[j].flags / 0x1000 % 4 == 0 && 4094 <= k < |E[j].path| && E[j].path[k] == SLASH {
      assert [] <= E[j].path && DeepAt(E[j].path, 0, k);
    }
    if j, k: nat :| 0 <= j < |E| && Staged(E[j]) && [] <= E[j].path && DeepAt(E[j].path, 0, k) {
      assert E[j].path[k] == SLASH;
    }
  }
}
