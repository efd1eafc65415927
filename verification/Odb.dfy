/** The object database: objects stored under the SHA-1 of their type and content. */
module Odb {
  import opened Bytes
  import opened Options
  import opened Sorting
  import opened TreeCodec
  import opened Trees

  datatype ObjType = CommitObj | TreeObj | BlobObj | TagObj

  datatype RawObj = RawObj(kind: ObjType, data: Text)

  /** The tree objects, decoded. */
  ghost function Decode(objects: map<Oid, RawObj>): Store {
    map o | o in objects && objects[o].kind.TreeObj? && ParseTree(objects[o].data).Some?
      :: ParseTree(objects[o].data).value
  }

  /** Every object is still there. */
  ghost predicate Keeps(objects: map<Oid, RawObj>, objects': map<Oid, RawObj>) {
    forall o :: o in objects ==> o in objects' && objects'[o] == objects[o]
  }

  lemma KeepsReflexive(a: map<Oid, RawObj>)
    ensures Keeps(a, a)
  {
  }

  lemma KeepsTransitive(a: map<Oid, RawObj>, b: map<Oid, RawObj>, c: map<Oid, RawObj>)
    requires Keeps(a, b) && Keeps(b, c)
    ensures Keeps(a, c)
  {
  }

  class Odb {
    const sha1: RawObj -> Oid
    var objects: map<Oid, RawObj>
    /** Some write has replaced a different object: a SHA-1 collision. */
    ghost var collided: bool

    ghost predicate Valid()
      reads this
    {
      forall o :: o in objects ==> sha1(objects[o]) == o
    }

    ghost function Trees(): Store
      reads this
    {
      Decode(objects)
    }

    constructor (sha1: RawObj -> Oid)
      ensures Valid() && objects == map[] && !collided && this.sha1 == sha1
    {
      this.sha1 := sha1;
      objects := map[];
      collided := false;
    }

    /** `qgit_odb_write`. */
    method Write(kind: ObjType, data: Text) returns (oid: Oid)
      requires Valid()
      modifies this
      ensures Valid()
      ensures oid == sha1(RawObj(kind, data))
      ensures objects == old(objects)[oid := RawObj(kind, data)]
      ensures collided == (old(collided) || (oid in old(objects) && old(objects)[oid] != RawObj(kind, data)))
      ensures !collided ==> Extends(old(Trees()), Trees()) && Keeps(old(objects), objects)
    {
      var obj := RawObj(kind, data);
      oid := sha1(obj);
      collided := collided || (oid in objects && objects[oid] != obj);
      objects := objects[oid := obj];
    }

    /** `qgit_tree_lookup`: the object must exist, be a tree and parse. */
    method LookupTree(oid: Oid) returns (r: Option<seq<TreeEntry>>)
      ensures r == if oid in Trees() then Some(Trees()[oid]) else None
    {
      if oid !in objects || objects[oid].kind != TreeObj { return None; }
      r := TreeParse(objects[oid].data);
    }
  }

  /** The name under which a tree with these entries is stored. */
  function TreeId(sha1: RawObj -> Oid, es: seq<TreeEntry>): Oid {
    sha1(RawObj(TreeObj, PrintTree(es)))
  }

  // ---------- tree builders ----------

  /** The position of the entry with this name, or the length. */
  function IndexOfName(es: seq<TreeEntry>, name: Text): (i: nat)
    ensures i <= |es|
    ensures i < |es| ==> es[i].name == name
    ensures forall k :: 0 <= k < i ==> es[k].name != name
  {
    if es == [] || es[0].name == name then 0 else 1 + IndexOfName(es[1..], name)
  }

  /** Replace the entry of that name, or append. */
  function Put(es: seq<TreeEntry>, x: TreeEntry): seq<TreeEntry> {
    var i := IndexOfName(es, x.name);
    if i < |es| then es[i := x] else es + [x]
  }

  class TreeBuilder {
    var entries: seq<TreeEntry>

    constructor ()
      ensures entries == []
    {
      entries := [];
    }

    /** `qgit_treebuilder_get`, as a position. */
    method Get(name: Text) returns (i: nat)
      ensures i == IndexOfName(entries, name)
    {
      i := 0;
      assert entries[0..] == entries;
      while i < |entries|
        invariant 0 <= i <= |entries|
        invariant IndexOfName(entries, name) == i + IndexOfName(entries[i..], name)
      {
        if entries[i].name == name { return; }
        i := i + 1;
      }
    }

    /** `qgit_treebuilder_insert`. */
    method Insert(name: Text, oid: Oid, attributes: nat)
      modifies this
      ensures entries == Put(old(entries), TreeEntry(attributes, name, oid))
    {
      var i := Get(name);
      if i < |entries| {
        entries := entries[i := entries[i].(oid := oid, mode := attributes)];
      } else {
        entries := entries + [TreeEntry(attributes, name, oid)];
      }
    }

    /** `tree_entry_sort`: afterwards the entries are strictly in Git tree order. */
    method Sort()
      requires NamesValid(entries) && NamesDistinct(entries)
      modifies this
      ensures TreeSorted(entries)
      ensures forall i, j :: 0 <= i < j < |entries| ==> ByteBefore(SortKey(entries[i]), SortKey(entries[j]))
      ensures multiset(entries) == multiset(old(entries))
      ensures forall x :: x in entries <==> x in old(entries)
    {
      CmpPreorder(entries);
      ghost var before := entries;
      entries := QSort(entries, TreeEntryCmp);
      SortedIsTreeSorted(before, entries);
      TreeSortedBytes(entries);
    }

    /** `qgit_treebuilder_write`: dry run, real run, then store the payload. */
    method Write(odb: Odb) returns (oid: Oid)
      requires odb.Valid()
      requires NamesValid(entries) && NamesDistinct(entries) && Printable(entries)
      modifies this, odb
      ensures odb.Valid()
      ensures TreeSorted(entries)
      ensures forall x :: x in entries <==> x in old(entries)
      ensures oid == TreeId(odb.sha1, entries)
      ensures old(odb.collided) ==> odb.collided
      ensures !odb.collided ==> Extends(old(odb.Trees()), odb.Trees()) && Keeps(old(odb.objects), odb.objects)
      ensures oid in odb.Trees() && odb.Trees()[oid] == entries
    {
      Sort();
      assert forall i :: 0 <= i < |entries| ==> entries[i] in old(entries);
      var buflen := TreeEntriesSize(entries);
      var buf := new Byte[buflen];
      var total := TreeEntriesFmt(entries, buf);
      assert total == buflen && buf[..] == buf[..total];
      oid := odb.Write(TreeObj, buf[..]);
      TreeRoundTrip(entries);
    }
  }

  lemma CmpPreorder(es: seq<TreeEntry>)
    requires NamesValid(es)
    ensures PreorderOn(es, TreeEntryCmp)
  {
    hide TreeEntryCmp;
    forall a, b | a in es && b in es ensures TreeEntryCmp(a, b) <= 0 || TreeEntryCmp(b, a) <= 0 {
      CmpIsKeyOrder(a, b);
    }
    forall a, b, c | a in es && b in es && c in es && TreeEntryCmp(a, b) <= 0 && TreeEntryCmp(b, c) <= 0
      ensures TreeEntryCmp(a, c) <= 0
    {
      CmpIsKeyOrder(a, b);
      CmpIsKeyOrder(b, c);
      CmpIsKeyOrder(a, c);
      if Less(Key(a), Key(b)) && Less(Key(b), Key(c)) { LessTrans(Key(a), Key(b), Key(c)); }
    }
  }

  lemma SortedIsTreeSorted(before: seq<TreeEntry>, after: seq<TreeEntry>)
    requires NamesValid(before) && NamesDistinct(before)
    requires multiset(before) == multiset(after) && SortedBy(after, TreeEntryCmp)
    ensures TreeSorted(after)
    ensures forall x :: x in after <==> x in before
  {
    hide TreeEntryCmp;
    PermutationMembers(before, after);
    PermutationNoDuplicates(before, after);
    forall i, j | 0 <= i < j < |after| ensures Less(Key(after[i]), Key(after[j])) {
      var a, b := after[i], after[j];
      assert a in before && b in before;
      CmpIsKeyOrder(a, b);
      if Key(a) == Key(b) { SameKeySameName(a, b); }
    }
  }

  lemma SameKeySameName(a: TreeEntry, b: TreeEntry)
    requires ValidName(a.name) && ValidName(b.name) && Key(a) == Key(b)
    ensures a.name == b.name
  {
    var k := Key(a);
    assert IsDir(a.mode) ==> k[|k| - 1] == SLASH && a.name == k[..|k| - 1];
    assert IsDir(b.mode) ==> k[|k| - 1] == SLASH && b.name == k[..|k| - 1];
  }
}
