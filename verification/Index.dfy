/** The in-memory index: entries, their order, and lookup by path and stage. */
module Index {
  import opened Bytes
  import opened Options
  import opened Sorting

  datatype IndexEntry = IndexEntry(
    ctimeSeconds: int, ctimeNanoseconds: nat,
    mtimeSeconds: int, mtimeNanoseconds: nat,
    dev: nat, ino: nat, mode: nat, uid: nat, gid: nat, fileSize: nat,
    oid: Oid, flags: nat, path: Text)

  const INDEX_VERSION: nat := 2
  const NAMEMASK: nat := 0x0fff

  /** `qgit_index_entry_stage`: bits 12 and 13 of the flags. */
  function Stage(e: IndexEntry): nat {
    (e.flags / 0x1000) % 4
  }

  /** The stage is held by bits 12 and 13, whatever the other bits are. */
  lemma StageBits(e: IndexEntry, high: nat, stage: nat, low: nat)
    requires e.flags == 0x4000 * high + 0x1000 * stage + low && stage < 4 && low < 0x1000
    ensures Stage(e) == stage
  {
  }

  predicate SameSlot(a: IndexEntry, b: IndexEntry) {
    a.path == b.path && Stage(a) == Stage(b)
  }

  /** At most one entry for each path and stage. */
  ghost predicate UniqueSlots(es: seq<IndexEntry>) {
    forall i, j :: 0 <= i < j < |es| ==> !SameSlot(es[i], es[j])
  }

  /** `index_entry_cmp`: by path, then by stage. */
  function IndexEntryCmp(a: IndexEntry, b: IndexEntry): int {
    var n := StrCmp(a.path, b.path);
    if n != 0 then n else Stage(a) - Stage(b)
  }

  lemma IndexCmpPreorder(es: seq<IndexEntry>)
    ensures PreorderOn(es, IndexEntryCmp)
  {
    forall a: IndexEntry, b: IndexEntry ensures IndexEntryCmp(a, b) <= 0 || IndexEntryCmp(b, a) <= 0 {
      LessTotal(a.path, b.path);
      if Less(a.path, b.path) { LessAsymmetric(a.path, b.path); }
    }
    forall a: IndexEntry, b: IndexEntry, c: IndexEntry
      | IndexEntryCmp(a, b) <= 0 && IndexEntryCmp(b, c) <= 0
      ensures IndexEntryCmp(a, c) <= 0
    {
      LessTotal(a.path, b.path);
      LessTotal(b.path, c.path);
      if Less(a.path, b.path) && Less(b.path, c.path) { LessTrans(a.path, b.path, c.path); }
    }
  }

  /** By the first difference of the paths, and where they are the same by the stage. */
  ghost predicate InByteOrder(es: seq<IndexEntry>) {
    forall i, j :: 0 <= i < j < |es| ==>
      ByteBefore(es[i].path, es[j].path) || (es[i].path == es[j].path && Stage(es[i]) <= Stage(es[j]))
  }

  lemma {:induction false} SortedInByteOrder(es: seq<IndexEntry>)
    ensures SortedBy(es, IndexEntryCmp) <==> InByteOrder(es)
  {
    hide Less, ByteBefore, Stage;
    forall i, j | 0 <= i < j < |es|
      ensures IndexEntryCmp(es[i], es[j]) <= 0 <==>
        ByteBefore(es[i].path, es[j].path) || (es[i].path == es[j].path && Stage(es[i]) <= Stage(es[j]))
    {
      var p, q := es[i].path, es[j].path;
      LessExactly(p, q);
      LessTotal(p, q);
      LessIrreflexive(p);
      if Less(p, q) { LessAsymmetric(p, q); }
    }
  }

  /** Entries in index order, one for each path and stage. */
  ghost predicate Ordered(es: seq<IndexEntry>) {
    forall i, j :: 0 <= i < j < |es| ==>
      Less(es[i].path, es[j].path) || (es[i].path == es[j].path && Stage(es[i]) < Stage(es[j]))
  }

  lemma SortedIsOrdered(before: seq<IndexEntry>, after: seq<IndexEntry>)
    requires UniqueSlots(before)
    requires multiset(before) == multiset(after) && SortedBy(after, IndexEntryCmp)
    ensures Ordered(after)
    ensures UniqueSlots(after)
  {
    PermutationMembers(before, after);
    PermutationNoDuplicates(before, after);
    forall i, j | 0 <= i < j < |after|
      ensures Less(after[i].path, after[j].path)
              || (after[i].path == after[j].path && Stage(after[i]) < Stage(after[j]))
      ensures !SameSlot(after[i], after[j])
    {
      var a, b := after[i], after[j];
      assert a in before && b in before;
      LessTotal(a.path, b.path);
      if Less(a.path, b.path) { LessAsymmetric(a.path, b.path); }
    }
  }

  predicate InSlot(e: IndexEntry, path: Text, stage: nat) {
    e.path == path && Stage(e) == stage
  }

  /** The position of the entry for this path and stage, or the length. */
  function SlotIndex(es: seq<IndexEntry>, path: Text, stage: nat): (i: nat)
    ensures i <= |es|
    ensures i < |es| ==> InSlot(es[i], path, stage)
    ensures forall k :: 0 <= k < i ==> !InSlot(es[k], path, stage)
  {
    if es == [] || InSlot(es[0], path, stage) then 0
    else 1 + SlotIndex(es[1..], path, stage)
  }

  lemma FirstSlot(es: seq<IndexEntry>, path: Text, stage: nat, i: nat)
    requires i <= |es|
    requires i < |es| ==> InSlot(es[i], path, stage)
    requires forall k :: 0 <= k < i ==> !InSlot(es[k], path, stage)
    ensures SlotIndex(es, path, stage) == i
  {
  }

  /** The entry in a slot, if any. */
  function Lookup(es: seq<IndexEntry>, path: Text, stage: nat): Option<IndexEntry> {
    var i := SlotIndex(es, path, stage);
    if i < |es| then Some(es[i]) else None
  }

  lemma LookupAfterReplace(es: seq<IndexEntry>, i: nat, x: IndexEntry, path: Text, stage: nat)
    requires i == SlotIndex(es, x.path, Stage(x)) && i < |es|
    ensures Lookup(es[i := x], path, stage) ==
            if path == x.path && stage == Stage(x) then Some(x) else Lookup(es, path, stage)
  {
    var es' := es[i := x];
    assert forall j :: 0 <= j < |es| ==> InSlot(es'[j], path, stage) == InSlot(es[j], path, stage);
    FirstSlot(es', path, stage, SlotIndex(es, path, stage));
  }

  lemma {:induction false} LookupAfterAppend(es: seq<IndexEntry>, x: IndexEntry, path: Text, stage: nat)
    requires SlotIndex(es, x.path, Stage(x)) == |es|
    ensures Lookup(es + [x], path, stage) ==
            if path == x.path && stage == Stage(x) then Some(x) else Lookup(es, path, stage)
  {
    var es' := es + [x];
    var k := SlotIndex(es, path, stage);
    FirstSlot(es', path, stage, if k == |es| && !InSlot(x, path, stage) then k + 1 else k);
  }

  class Index {
    var entries: seq<IndexEntry>
    var version: nat

    constructor ()
      ensures entries == [] && version == INDEX_VERSION
    {
      entries := [];
      version := INDEX_VERSION;
    }

    /** `qgit_index_sort`. */
    method Sort()
      modifies this`entries
      ensures multiset(entries) == multiset(old(entries))
      ensures SortedBy(entries, IndexEntryCmp) && InByteOrder(entries)
      ensures UniqueSlots(old(entries)) ==> Ordered(entries) && UniqueSlots(entries)
    {
      IndexCmpPreorder(entries);
      ghost var before := entries;
      entries := QSort(entries, IndexEntryCmp);
      SortedInByteOrder(entries);
      if UniqueSlots(before) { SortedIsOrdered(before, entries); }
    }

    /** `qgit_index_find2`. */
    method Find2(path: Text, stage: nat) returns (position: int)
      ensures position == if SlotIndex(entries, path, stage) < |entries|
                          then SlotIndex(entries, path, stage) else -1
    {
      position := 0;
      while position < |entries|
        invariant 0 <= position <= |entries|
        invariant forall k :: 0 <= k < position ==> !InSlot(entries[k], path, stage)
      {
        if InSlot(entries[position], path, stage) { return; }
        position := position + 1;
      }
      return -1;
    }

    /** `qgit_index_add2`: an update of the slot the entry names, and of no other. */
    method Add2(source: IndexEntry)
      modifies this`entries
      ensures UniqueSlots(old(entries)) ==> UniqueSlots(entries)
      ensures forall path, stage ::
        Lookup(entries, path, stage) ==
          if path == source.path && stage == Stage(source) then Some(source)
          else Lookup(old(entries), path, stage)
    {
      var position := Find2(source.path, Stage(source));
      ghost var before := entries;
      if position != -1 {
        entries := entries[position := source];
      } else {
        entries := entries + [source];
      }
      forall path, stage
        ensures Lookup(entries, path, stage) ==
          if path == source.path && stage == Stage(source) then Some(source) else Lookup(before, path, stage)
      {
        if position != -1 {
          LookupAfterReplace(before, position, source, path, stage);
        } else {
          LookupAfterAppend(before, source, path, stage);
        }
      }
    }
  }
}
