/** Sets on top of the hash table (set.c). */
module OidSet {
  import opened HashTable

  class Set<T(==)> {
    const tbl: HashTable<T, T>

    ghost predicate Valid()
      reads this, tbl, tbl.buckets, tbl.own
    {
      tbl.Valid() && forall x :: x in tbl.model ==> tbl.model[x] == x
    }

    ghost function Elements(): set<T>
      reads tbl
    {
      tbl.model.Keys
    }

    constructor (hash: T -> nat)
      ensures Valid() && Elements() == {} && fresh(tbl) && fresh(tbl.buckets) && tbl.own == {}
    {
      tbl := new HashTable(hash);
    }

    /** `set_empty`. */
    method Empty() returns (b: bool)
      requires Valid()
      ensures b <==> Elements() == {}
    {
      b := tbl.Empty();
      assert Elements() == {} <==> tbl.model == map[];
    }

    /** `set_contains`. */
    method Contains(x: T) returns (b: bool)
      requires Valid()
      ensures b <==> x in Elements()
    {
      var val := tbl.Find(x);
      b := val.Some?;
    }

    /** `set_insert`: inserting a present element changes nothing. */
    method Insert(x: T) returns (ok: bool)
      requires Valid()
      modifies tbl, tbl.buckets, tbl.own
      ensures Valid() && ok && Elements() == old(Elements()) + {x}
      ensures fresh({tbl.buckets} - {old(tbl.buckets)}) && fresh(tbl.own - old(tbl.own))
    {
      var present := Contains(x);
      if present { return true; }
      ok := tbl.Insert(x, x);
    }

    /** `set_remove`: removing an absent element changes nothing. */
    method Remove(x: T) returns (ok: bool)
      requires Valid()
      modifies tbl, tbl.buckets, tbl.own
      ensures Valid() && ok && Elements() == old(Elements()) - {x}
      ensures tbl.buckets == old(tbl.buckets) && tbl.own == old(tbl.own)
    {
      var present := Contains(x);
      if !present { return true; }
      var dest := tbl.Remove(x);
      ok := dest.Some?;
    }

    /** `set_clear`. */
    method Clear()
      requires Valid()
      modifies tbl, tbl.buckets
      ensures Valid() && Elements() == {}
      ensures tbl.buckets == old(tbl.buckets) && tbl.own == old(tbl.own)
    {
      tbl.Clear();
    }
  }
}
