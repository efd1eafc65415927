/**
 * Tree objects as values: Git tree order, looking a path up through nested
 * trees, and the pre-order listing of all leaves.
 *
 * `Store` is the decoded view of the object database: the entries of every
 * tree object, by object name.
 */
module Trees {
  import opened Bytes
  import opened Sorting

  /** One entry of a tree object (tree.h). */
  datatype TreeEntry = TreeEntry(mode: nat, name: Text, oid: Oid)

  type Store = map<Oid, seq<TreeEntry>>

  /** A non-directory entry with its full path. */
  datatype Leaf = Leaf(path: Text, mode: nat, oid: Oid)

  const DIR_MODE: nat := 0x4000 // 040000

  /** `S_ISDIR`: (mode & 0170000) == 0040000. */
  predicate IsDir(mode: nat) {
    (mode / 0x1000) % 16 == 4
  }

  /** The type is what the four bits above the permissions hold: only the type 4 is a directory. */
  lemma IsDirExactly(high: nat, kind: nat, permissions: nat)
    requires kind < 0x10 && permissions < 0x1000
    ensures IsDir(0x10000 * high + 0x1000 * kind + permissions) <==> kind == 4
  {
  }

  // ---------- Git tree order ----------

  /** The byte compared after the common part: the terminator counts as '/' for directories. */
  function CharAt(x: TreeEntry, k: nat): Byte
    requires k <= |x.name|
  {
    if k < |x.name| then x.name[k] else if IsDir(x.mode) then SLASH else NUL
  }

  /** `tree_entry_cmp`. */
  function TreeEntryCmp(a: TreeEntry, b: TreeEntry): int {
    var len := if |a.name| < |b.name| then |a.name| else |b.name|;
    var cmp := StrCmp(a.name[..len], b.name[..len]);
    if cmp != 0 then cmp
    else
      var c1, c2 := CharAt(a, len), CharAt(b, len);
      if c1 < c2 then -1 else if c1 > c2 then 1 else 0
  }

  predicate ValidName(name: Text) {
    IsCString(name) && SlashFree(name)
  }

  /** The text an entry contributes to the paths below it. */
  function Key(x: TreeEntry): Text {
    if IsDir(x.mode) then x.name + [SLASH] else x.name
  }

  lemma {:induction false} LessSplit(p: Text, a: Text, b: Text)
    requires p <= a && p <= b
    ensures Less(a, b) <==> Less(a[|p|..], b[|p|..])
  {
    assert a == p + a[|p|..] && b == p + b[|p|..];
    LessAfterPrefix(p, a[|p|..], b[|p|..]);
  }

  function Shorter(a: Text, b: Text): (n: nat)
    ensures n <= |a| && n <= |b| && (n == |a| || n == |b|)
  {
    if |a| < |b| then |a| else |b|
  }

  /** On file names, `tree_entry_cmp` is exactly the lexicographic order of the keys. */
  lemma CmpIsKeyOrder(a: TreeEntry, b: TreeEntry)
    requires ValidName(a.name) && ValidName(b.name)
    ensures TreeEntryCmp(a, b) < 0 <==> Less(Key(a), Key(b))
    ensures TreeEntryCmp(a, b) == 0 <==> Key(a) == Key(b)
    ensures TreeEntryCmp(a, b) == -TreeEntryCmp(b, a)
  {
    hide *;
    var len := Shorter(a.name, b.name);
    if a.name[..len] == b.name[..len] {
      CmpSamePrefix(a, b, len);
    } else {
      CmpOtherPrefix(a, b, len);
    }
  }

  lemma CmpSamePrefix(a: TreeEntry, b: TreeEntry, len: nat)
    requires ValidName(a.name) && ValidName(b.name)
    requires len == Shorter(a.name, b.name) && a.name[..len] == b.name[..len]
    ensures TreeEntryCmp(a, b) < 0 <==> Less(Key(a), Key(b))
    ensures TreeEntryCmp(a, b) == 0 <==> Key(a) == Key(b)
    ensures TreeEntryCmp(a, b) == -TreeEntryCmp(b, a)
  {
    var p := a.name[..len];
    LessIrreflexive(p);
    LessSplit(p, Key(a), Key(b));
    LessSplit(p, Key(b), Key(a));
    assert Key(a) == p + Key(a)[len..] && Key(b) == p + Key(b)[len..];
  }

  lemma CmpOtherPrefix(a: TreeEntry, b: TreeEntry, len: nat)
    requires len == Shorter(a.name, b.name) && a.name[..len] != b.name[..len]
    ensures TreeEntryCmp(a, b) < 0 <==> Less(Key(a), Key(b))
    ensures TreeEntryCmp(a, b) == 0 <==> Key(a) == Key(b)
    ensures TreeEntryCmp(a, b) == -TreeEntryCmp(b, a)
  {
    hide Less, CharAt;
    var p, q := a.name[..len], b.name[..len];
    LessTotal(p, q);
    LessTotal(Key(a), Key(b));
    assert Key(a) == p + Key(a)[len..] && Key(b) == q + Key(b)[len..];
    if Less(p, q) {
      LessAsymmetric(p, q);
      LessExtends(p, q, Key(a)[len..], Key(b)[len..]);
    } else {
      LessAsymmetric(q, p);
      LessExtends(q, p, Key(b)[len..], Key(a)[len..]);
    }
    if Less(Key(a), Key(b)) { LessAsymmetric(Key(a), Key(b)); } else { LessAsymmetric(Key(b), Key(a)); }
  }

  /** The name, with a '/' behind it for the type bits of a directory. */
  function SortKey(x: TreeEntry): Text {
    if x.mode / 0x1000 % 0x10 == 4 then x.name + [SLASH] else x.name
  }

  /** Git tree order in terms of bytes. */
  lemma TreeSortedBytes(es: seq<TreeEntry>)
    ensures TreeSorted(es) <==> forall i, j :: 0 <= i < j < |es| ==> ByteBefore(SortKey(es[i]), SortKey(es[j]))
  {
    hide Less, ByteBefore;
    forall i, j | 0 <= i < j < |es|
      ensures Less(Key(es[i]), Key(es[j])) <==> ByteBefore(SortKey(es[i]), SortKey(es[j]))
    {
      LessExactly(Key(es[i]), Key(es[j]));
    }
  }

  /** Strictly increasing in Git tree order. */
  ghost predicate TreeSorted(es: seq<TreeEntry>) {
    forall i, j :: 0 <= i < j < |es| ==> Less(Key(es[i]), Key(es[j]))
  }

  ghost predicate NamesValid(es: seq<TreeEntry>) {
    forall i :: 0 <= i < |es| ==> ValidName(es[i].name)
  }

  ghost predicate NamesDistinct(es: seq<TreeEntry>) {
    forall i, j :: 0 <= i < j < |es| ==> es[i].name != es[j].name
  }

  // ---------- looking a path up ----------

  /** The entry `x`, or the tree below it, has a leaf at relative path `rel`. */
  ghost predicate ItemHas(T: Store, x: TreeEntry, rel: Text, mode: nat, oid: Oid)
    decreases |rel|, 0
  {
    if IsDir(x.mode) then
      Key(x) <= rel && x.oid in T && Has(T, T[x.oid], rel[|Key(x)|..], mode, oid)
    else
      rel == x.name && mode == x.mode && oid == x.oid
  }

  ghost predicate Has(T: Store, es: seq<TreeEntry>, rel: Text, mode: nat, oid: Oid)
    decreases |rel|, 1
  {
    exists i :: 0 <= i < |es| && ItemHas(T, es[i], rel, mode, oid)
  }

  /** Every subtree named below is stored, to a depth of at most `d`. */
  ghost predicate Complete(T: Store, es: seq<TreeEntry>, d: nat)
    decreases d
  {
    forall i :: 0 <= i < |es| && IsDir(es[i].mode) ==>
      es[i].oid in T && d > 0 && Complete(T, T[es[i].oid], d - 1)
  }

  lemma {:induction false} CompleteDeeper(T: Store, es: seq<TreeEntry>, d: nat, d': nat)
    requires Complete(T, es, d) && d <= d'
    ensures Complete(T, es, d')
    decreases d
  {
    forall i | 0 <= i < |es| && IsDir(es[i].mode)
      ensures d' > 0 && Complete(T, T[es[i].oid], d' - 1)
    {
      CompleteDeeper(T, T[es[i].oid], d - 1, d' - 1);
    }
  }

  ghost predicate Extends(T: Store, T': Store) {
    forall o :: o in T ==> o in T' && T'[o] == T[o]
  }

  lemma {:induction false} CompleteExtends(T: Store, T': Store, es: seq<TreeEntry>, d: nat)
    requires Complete(T, es, d) && Extends(T, T')
    ensures Complete(T', es, d)
    decreases d
  {
    forall i | 0 <= i < |es| && IsDir(es[i].mode)
      ensures es[i].oid in T' && Complete(T', T'[es[i].oid], d - 1)
    {
      CompleteExtends(T, T', T[es[i].oid], d - 1);
    }
  }

  /** Storing more objects does not change what a complete tree holds. */
  lemma {:induction false} HasExtends(T: Store, T': Store, es: seq<TreeEntry>, d: nat,
                                      rel: Text, mode: nat, oid: Oid)
    requires Complete(T, es, d) && Extends(T, T')
    ensures Has(T, es, rel, mode, oid) <==> Has(T', es, rel, mode, oid)
    ensures forall i :: 0 <= i < |es| ==>
      (ItemHas(T, es[i], rel, mode, oid) <==> ItemHas(T', es[i], rel, mode, oid))
    decreases d
  {
    forall i | 0 <= i < |es|
      ensures ItemHas(T, es[i], rel, mode, oid) <==> ItemHas(T', es[i], rel, mode, oid)
    {
      if IsDir(es[i].mode) && Key(es[i]) <= rel {
        HasExtends(T, T', T[es[i].oid], d - 1, rel[|Key(es[i])|..], mode, oid);
      }
    }
  }

  // ---------- the pre-order listing ----------

  /** `"%s%s%s", root, root[0] ? "/" : "", name`. */
  function Join(root: Text, name: Text): Text {
    if root == [] then name else root + [SLASH] + name
  }

  /** What `Join` puts before the name. */
  function Lead(root: Text): Text {
    if root == [] then [] else root + [SLASH]
  }

  ghost function FlatItem(T: Store, x: TreeEntry, root: Text, d: nat): seq<Leaf>
    requires Complete(T, [x], d)
    decreases d, 0
  {
    if IsDir(x.mode) then
      assert [x][0] == x;
      Flat(T, T[x.oid], Join(root, x.name), d - 1)
    else [Leaf(Join(root, x.name), x.mode, x.oid)]
  }

  /** All leaves of a tree in pre-order, with their full paths. */
  ghost function Flat(T: Store, es: seq<TreeEntry>, root: Text, d: nat): seq<Leaf>
    requires Complete(T, es, d)
    decreases d, 1, |es|
  {
    if es == [] then []
    else
      assert forall i :: 0 <= i < |es[1..]| ==> es[1..][i] == es[i + 1];
      assert es[0] in es;
      FlatItem(T, es[0], root, d) + Flat(T, es[1..], root, d)
  }

  /** At the root a directory with an empty name would lose the '/' that follows it. */
  ghost predicate RootNamed(es: seq<TreeEntry>, root: Text) {
    root == [] ==> forall i :: 0 <= i < |es| && IsDir(es[i].mode) ==> es[i].name != []
  }

  lemma LeadJoin(root: Text, x: TreeEntry)
    requires IsDir(x.mode)
    requires root != [] || x.name != []
    ensures Lead(Join(root, x.name)) == Lead(root) + Key(x)
    ensures Join(root, x.name) != []
  {
  }

  /** A path below a directory, seen from the root and from the directory above. */
  lemma PathBelow(lead: Text, key: Text, path: Text)
    ensures lead + key <= path <==> lead <= path && key <= path[|lead|..]
    ensures lead + key <= path ==> path[|lead + key|..] == path[|lead|..][|key|..]
  {
    if lead <= path {
      assert path == lead + path[|lead|..];
    }
    if lead + key <= path {
      assert lead == (lead + key)[..|lead|] == path[..|lead|];
    }
  }

  lemma {:induction false} FlatItemMembers(T: Store, x: TreeEntry, root: Text, d: nat, leaf: Leaf)
    requires Complete(T, [x], d) && RootNamed([x], root)
    ensures leaf in FlatItem(T, x, root, d) <==>
            Lead(root) <= leaf.path && ItemHas(T, x, leaf.path[|Lead(root)|..], leaf.mode, leaf.oid)
    decreases d, 0
  {
    var lead := Lead(root);
    if IsDir(x.mode) {
      assert [x][0] == x;
      LeadJoin(root, x);
      FlatMembers(T, T[x.oid], Join(root, x.name), d - 1, leaf);
      PathBelow(lead, Key(x), leaf.path);
    } else {
      assert Join(root, x.name) == lead + x.name;
      if lead <= leaf.path {
        assert leaf.path == lead + leaf.path[|lead|..];
      }
    }
  }

  /** The listing holds exactly the leaves that path lookup finds. */
  lemma {:induction false} FlatMembers(T: Store, es: seq<TreeEntry>, root: Text, d: nat, leaf: Leaf)
    requires Complete(T, es, d) && RootNamed(es, root)
    ensures leaf in Flat(T, es, root, d) <==>
            Lead(root) <= leaf.path && Has(T, es, leaf.path[|Lead(root)|..], leaf.mode, leaf.oid)
    decreases d, 1, |es|
  {
    if es != [] {
      var rest := es[1..];
      assert forall i :: 0 <= i < |rest| ==> rest[i] == es[i + 1];
      assert es == [es[0]] + rest;
      assert RootNamed([es[0]], root);
      FlatItemMembers(T, es[0], root, d, leaf);
      FlatMembers(T, rest, root, d, leaf);
    }
  }

  // ---------- order of the listing ----------

  ghost predicate DeepSorted(T: Store, es: seq<TreeEntry>, d: nat)
    requires Complete(T, es, d)
    decreases d
  {
    && TreeSorted(es)
    && NamesValid(es)
    && forall i :: 0 <= i < |es| && IsDir(es[i].mode) ==> DeepSorted(T, T[es[i].oid], d - 1)
  }

  function PathOf(leaf: Leaf): Text { leaf.path }

  lemma KeyNotPrefix(x: TreeEntry, y: TreeEntry)
    requires ValidName(x.name) && ValidName(y.name) && Key(x) <= Key(y)
    ensures IsDir(x.mode) ==> Key(x) == Key(y)
  {
    assert IsDir(x.mode) ==> Key(y)[|x.name|] == SLASH;
  }

  /** Everything below an entry precedes everything below a later one. */
  lemma BelowInOrder(T: Store, x: TreeEntry, y: TreeEntry, a: Leaf, b: Leaf)
    requires ValidName(x.name) && ValidName(y.name) && Less(Key(x), Key(y))
    requires ItemHas(T, x, a.path, a.mode, a.oid) && ItemHas(T, y, b.path, b.mode, b.oid)
    ensures Less(a.path, b.path)
  {
    LessAsymmetric(Key(x), Key(y));
    if Key(x) <= Key(y) {
      KeyNotPrefix(x, y);
      ProperPrefixLess(a.path, b.path);
    } else {
      LessExtends(Key(x), Key(y), a.path[|Key(x)|..], b.path[|Key(y)|..]);
      assert a.path == Key(x) + a.path[|Key(x)|..] && b.path == Key(y) + b.path[|Key(y)|..];
    }
  }

  lemma {:induction false} FlatSorted(T: Store, es: seq<TreeEntry>, root: Text, d: nat)
    requires Complete(T, es, d) && DeepSorted(T, es, d) && RootNamed(es, root)
    ensures StrictlySorted(Flat(T, es, root, d), PathOf)
    decreases d, |es|
  {
    if es != [] {
      var x, rest := es[0], es[1..];
      assert forall i :: 0 <= i < |rest| ==> rest[i] == es[i + 1];
      assert [x][0] == x && RootNamed([x], root);
      var first, others := FlatItem(T, x, root, d), Flat(T, rest, root, d);
      if IsDir(x.mode) {
        LeadJoin(root, x);
        FlatSorted(T, T[x.oid], Join(root, x.name), d - 1);
      }
      FlatSorted(T, rest, root, d);
      forall a, b | a in first && b in others ensures Less(a.path, b.path) {
        FlatItemMembers(T, x, root, d, a);
        FlatMembers(T, rest, root, d, b);
        var lead := Lead(root);
        var ra, rb := a.path[|lead|..], b.path[|lead|..];
        var i :| 0 <= i < |rest| && ItemHas(T, rest[i], rb, b.mode, b.oid);
        BelowInOrder(T, x, rest[i], Leaf(ra, a.mode, a.oid), Leaf(rb, b.mode, b.oid));
        LessSplit(lead, a.path, b.path);
      }
      SortedConcat(first, others, PathOf);
    }
  }

  // ---------- trees are determined by their leaves ----------

  /** As `qgit_treebuilder_write` leaves them: sorted, subtrees non-empty and named by content. */
  ghost predicate Canonical(T: Store, es: seq<TreeEntry>, d: nat, id: seq<TreeEntry> -> Oid)
    requires Complete(T, es, d)
    decreases d
  {
    && TreeSorted(es)
    && NamesValid(es)
    && forall i :: 0 <= i < |es| && IsDir(es[i].mode) ==>
         && es[i].mode == DIR_MODE
         && T[es[i].oid] != []
         && es[i].oid == id(T[es[i].oid])
         && Canonical(T, T[es[i].oid], d - 1, id)
  }

  lemma {:induction false} CanonicalDeepSorted(T: Store, es: seq<TreeEntry>, d: nat, id: seq<TreeEntry> -> Oid)
    requires Complete(T, es, d) && Canonical(T, es, d, id)
    ensures DeepSorted(T, es, d)
    decreases d
  {
    forall i | 0 <= i < |es| && IsDir(es[i].mode) ensures DeepSorted(T, T[es[i].oid], d - 1) {
      CanonicalDeepSorted(T, T[es[i].oid], d - 1, id);
    }
  }

  lemma {:induction false} CanonicalDeeper(T: Store, es: seq<TreeEntry>, d: nat, d': nat, id: seq<TreeEntry> -> Oid)
    requires Complete(T, es, d) && Canonical(T, es, d, id) && d <= d'
    ensures Complete(T, es, d') && Canonical(T, es, d', id)
    decreases d
  {
    CompleteDeeper(T, es, d, d');
    forall i | 0 <= i < |es| && IsDir(es[i].mode) ensures Canonical(T, T[es[i].oid], d' - 1, id) {
      CanonicalDeeper(T, T[es[i].oid], d - 1, d' - 1, id);
    }
  }

  lemma {:induction false} CanonicalExtends(T: Store, T': Store, es: seq<TreeEntry>, d: nat,
                                            id: seq<TreeEntry> -> Oid)
    requires Complete(T, es, d) && Canonical(T, es, d, id) && Extends(T, T')
    ensures Complete(T', es, d) && Canonical(T', es, d, id)
    decreases d
  {
    CompleteExtends(T, T', es, d);
    forall i | 0 <= i < |es| && IsDir(es[i].mode) ensures Canonical(T', T'[es[i].oid], d - 1, id) {
      CanonicalExtends(T, T', T[es[i].oid], d - 1, id);
    }
  }

  /** A non-empty canonical tree has a leaf somewhere below each of its entries. */
  lemma {:induction false} SomeLeaf(T: Store, es: seq<TreeEntry>, d: nat, id: seq<TreeEntry> -> Oid, i: nat)
    returns (leaf: Leaf)
    requires Complete(T, es, d) && Canonical(T, es, d, id) && i < |es|
    ensures ItemHas(T, es[i], leaf.path, leaf.mode, leaf.oid)
    decreases d
  {
    var x := es[i];
    if IsDir(x.mode) {
      var below := SomeLeaf(T, T[x.oid], d - 1, id, 0);
      leaf := Leaf(Key(x) + below.path, below.mode, below.oid);
      assert leaf.path[|Key(x)|..] == below.path;
    } else {
      leaf := Leaf(x.name, x.mode, x.oid);
    }
  }

  ghost predicate SameLeaves(T: Store, es: seq<TreeEntry>, T': Store, es': seq<TreeEntry>) {
    forall rel, mode, oid :: Has(T, es, rel, mode, oid) <==> Has(T', es', rel, mode, oid)
  }

  /** The name of the entry above a leaf can be read off the leaf's path. */
  lemma SameFirstName(T: Store, x: TreeEntry, T': Store, y: TreeEntry, leaf: Leaf)
    requires ValidName(x.name) && ValidName(y.name)
    requires ItemHas(T, x, leaf.path, leaf.mode, leaf.oid)
    requires ItemHas(T', y, leaf.path, leaf.mode, leaf.oid)
    ensures Key(x) == Key(y) && IsDir(x.mode) == IsDir(y.mode)
  {
    var p := leaf.path;
    if IsDir(x.mode) {
      assert p[|x.name|] == SLASH;
    }
    if IsDir(y.mode) {
      assert p[|y.name|] == SLASH;
    }
    if IsDir(x.mode) && IsDir(y.mode) {
      assert |x.name| == |y.name|;
      assert x.name == p[..|x.name|] == y.name;
    }
  }

  lemma {:induction false} SubtreeLeaves(T: Store, es: seq<TreeEntry>, x: TreeEntry,
                                         rel: Text, mode: nat, oid: Oid)
    requires TreeSorted(es) && NamesValid(es) && x in es && IsDir(x.mode) && x.oid in T
    ensures Has(T, T[x.oid], rel, mode, oid) <==> Has(T, es, Key(x) + rel, mode, oid)
  {
    hide Less;
    var p := Key(x) + rel;
    assert p[|Key(x)|..] == rel;
    assert Has(T, T[x.oid], rel, mode, oid) <==> ItemHas(T, x, p, mode, oid);
    if Has(T, es, p, mode, oid) {
      var j :| 0 <= j < |es| && ItemHas(T, es[j], p, mode, oid);
      var i :| 0 <= i < |es| && es[i] == x;
      var y := es[j];
      assert p[|x.name|] == SLASH;
      assert IsDir(y.mode) && p[|y.name|] == SLASH;
      assert |x.name| == |y.name|;
      assert x.name == p[..|x.name|] == y.name;
      LessIrreflexive(Key(x));
    }
  }

  /** One inclusion of `CanonicalUnique`; the subtrees are equal by induction. */
  lemma {:induction false} CanonicalIncluded(T: Store, es: seq<TreeEntry>, d: nat,
                                             T': Store, es': seq<TreeEntry>, d': nat,
                                             id: seq<TreeEntry> -> Oid, i: nat)
    requires Complete(T, es, d) && Canonical(T, es, d, id)
    requires Complete(T', es', d') && Canonical(T', es', d', id)
    requires SameLeaves(T, es, T', es') && i < |es|
    ensures es[i] in es'
    decreases d + d', 0
  {
    var x := es[i];
    var leaf := SomeLeaf(T, es, d, id, i);
    assert Has(T, es, leaf.path, leaf.mode, leaf.oid);
    var j :| 0 <= j < |es'| && ItemHas(T', es'[j], leaf.path, leaf.mode, leaf.oid);
    var y := es'[j];
    SameFirstName(T, x, T', y, leaf);
    if IsDir(x.mode) {
      forall rel, mode, oid
        ensures Has(T, T[x.oid], rel, mode, oid) <==> Has(T', T'[y.oid], rel, mode, oid)
      {
        SubtreeLeaves(T, es, x, rel, mode, oid);
        SubtreeLeaves(T', es', y, rel, mode, oid);
      }
      CanonicalUnique(T, T[x.oid], d - 1, T', T'[y.oid], d' - 1, id);
      assert x.name == Key(x)[..|x.name|] == y.name;
    }
  }

  /** Two canonical trees, in any two stores, with the same leaves are the same tree. */
  lemma {:induction false} CanonicalUnique(T: Store, es: seq<TreeEntry>, d: nat,
                                           T': Store, es': seq<TreeEntry>, d': nat,
                                           id: seq<TreeEntry> -> Oid)
    requires Complete(T, es, d) && Canonical(T, es, d, id)
    requires Complete(T', es', d') && Canonical(T', es', d', id)
    requires SameLeaves(T, es, T', es')
    ensures es == es'
    decreases d + d', 1
  {
    forall x | x in es ensures x in es' {
      var i :| 0 <= i < |es| && es[i] == x;
      CanonicalIncluded(T, es, d, T', es', d', id, i);
    }
    forall y | y in es' ensures y in es {
      var i :| 0 <= i < |es'| && es'[i] == y;
      CanonicalIncluded(T', es', d', T, es, d, id, i);
    }
    SortedUnique(es, es', Key);
  }
}
