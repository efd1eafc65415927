/** Looking an object up by an abbreviated name in the loose object directories (loose_read_prefix.c). */
module LoosePrefix {
  import opened Bytes
  import opened OidHex
  import opened Options
  import opened Sorting

  const MINPREFIXLEN: nat := 4

  /** The object directories: for the first two digits of a name, the entries in reading order. */
  type Dirs = map<Text, seq<Text>>

  const DOT: Text := [46]
  const DOTDOT: Text := [46, 46]

  predicate Matches(name: Text, rest: Text) {
    |name| == HEXSZ - 2 && rest <= name
  }

  ghost predicate OnlyMatch(names: seq<Text>, rest: Text, i: nat) {
    i < |names| && Matches(names[i], rest) && forall j :: 0 <= j < |names| && j != i ==> !Matches(names[j], rest)
  }

  /** `r` is what reading by prefix finds: the one matching entry, if its name is a name in hexadecimal. */
  ghost predicate Finds(dirs: Dirs, shortId: Oid, len: nat, r: Option<Oid>)
    requires 2 <= len <= 40
  {
    var head, rest := Hex(shortId)[..2], Hex(shortId)[2..len];
    if head !in dirs then r == None
    else
      && (forall i: nat :: OnlyMatch(dirs[head], rest, i) ==> r == FromStrN(head + dirs[head][i], 40))
      && (r.Some? ==> exists i: nat :: OnlyMatch(dirs[head], rest, i))
  }

  /** `qgit_loose_backend_read_prefix`, up to reading the object found. */
  method ReadPrefix(dirs: Dirs, shortId: Oid, len: nat) returns (r: Option<Oid>)
    requires MINPREFIXLEN <= len <= 40
    ensures Finds(dirs, shortId, len, r)
  {
    hide Hex;
    var shortHex := new Byte[41];
    OidFmt(shortHex, shortId);
    var sh := shortHex[..40];
    var head, rest := sh[..2], sh[2..len];
    assert rest == Hex(shortId)[2..len];
    if head !in dirs { return None; }
    var names := dirs[head];
    var found, hex := false, head + rest;
    ghost var at := 0;
    for i := 0 to |names|
      invariant found ==> at < i && Matches(names[at], rest) && hex == head + names[at]
      invariant !found ==> hex == head + rest
      invariant forall j :: 0 <= j < i && Matches(names[j], rest) ==> found && j == at
    {
      if names[i] == DOT || names[i] == DOTDOT { continue; }
      assert hex[2..len] == rest;
      if |names[i]| == HEXSZ - 2 && hex[2..len] <= names[i] {
        if found { return None; }
        found, at := true, i;
        hex := hex[..2] + names[i];
      }
    }
    if !found { return None; }
    assert OnlyMatch(names, rest, at);
    r := OidFromStrN(hex, 40);
  }

  /** The directories list exactly these objects, besides entries that cannot be objects. */
  ghost predicate Listing(stored: set<Oid>, dirs: Dirs) {
    && (forall o :: o in stored ==> Hex(o)[..2] in dirs && Hex(o)[2..] in dirs[Hex(o)[..2]])
    && (forall head :: head in dirs ==> Listed(stored, head, dirs[head]))
  }

  ghost predicate Listed(stored: set<Oid>, head: Text, names: seq<Text>) {
    && NoDuplicates(names)
    && forall name :: name in names && |name| == HEXSZ - 2 ==> exists o :: o in stored && Hex(o) == head + name
  }

  ghost predicate HasPrefix(o: Oid, digits: Text) {
    digits <= Hex(o)
  }

  /** `o` is the one stored name that begins with these digits. */
  ghost predicate Unique(stored: set<Oid>, digits: Text, o: Oid) {
    o in stored && HasPrefix(o, digits) && forall p :: p in stored && HasPrefix(p, digits) ==> p == o
  }

  /**
   * Looking up four to forty hex digits, in either case, finds a name if and only if exactly one
   * stored name begins with them, and finds that one.
   */
  lemma {:induction false} PrefixLookup(stored: set<Oid>, dirs: Dirs, str: Text, len: nat, r: Option<Oid>)
    requires Listing(stored, dirs)
    requires 4 <= len <= 40 && len <= |str| && AllHex(str[..len])
    requires Finds(dirs, FromStrN(str, len).value, len, r)
    ensures r.Some? ==> Unique(stored, Lower(str[..len]), r.value)
    ensures forall o :: Unique(stored, Lower(str[..len]), o) ==> r == Some(o)
  {
    var digits, shortId := Lower(str[..len]), FromStrN(str, len).value;
    var head, rest := Hex(shortId)[..2], Hex(shortId)[2..len];
    ParsedPrefix(str, len);
    assert Hex(shortId)[..len] == digits;
    hide *;
    assert digits == head + rest;
    ScanIsUnique(stored, dirs, shortId, len, r);
  }

  lemma ScanIsUnique(stored: set<Oid>, dirs: Dirs, shortId: Oid, len: nat, r: Option<Oid>)
    requires Listing(stored, dirs) && 2 <= len <= 40 && Finds(dirs, shortId, len, r)
    ensures var digits := Hex(shortId)[..2] + Hex(shortId)[2..len];
      && (r.Some? ==> Unique(stored, digits, r.value))
      && (forall o :: Unique(stored, digits, o) ==> r == Some(o))
  {
    hide Unique, FromStrN, Matches, Hex, Listing;
    var head, rest := Hex(shortId)[..2], Hex(shortId)[2..len];
    var digits := head + rest;
    forall o | Unique(stored, digits, o) ensures r == Some(o) {
      var i := MatchOfUnique(stored, dirs, head, rest, o);
    }
    if r.Some? {
      var i: nat :| OnlyMatch(dirs[head], rest, i);
      UniqueOfMatch(stored, dirs, head, rest, i);
    }
  }

  lemma MatchOfUnique(stored: set<Oid>, dirs: Dirs, head: Text, rest: Text, o: Oid) returns (i: nat)
    requires Listing(stored, dirs) && |head| == 2 && Unique(stored, head + rest, o)
    ensures head in dirs && OnlyMatch(dirs[head], rest, i) && FromStrN(head + dirs[head][i], 40) == Some(o)
  {
    hide Hex, FromStrN;
    SplitPrefix(Hex(o), head, rest);
    assert Listed(stored, head, dirs[head]);
    var names := dirs[head];
    i :| 0 <= i < |names| && names[i] == Hex(o)[2..];
    forall j | 0 <= j < |names| && Matches(names[j], rest) ensures j == i {
      var p :| p in stored && Hex(p) == head + names[j];
      assert head + rest <= head + names[j];
      assert p == o;
      assert names[j] == Hex(p)[2..];
    }
    assert head + names[i] == Hex(o);
    HexRoundTrip(o, []);
    assert Hex(o) + [] == Hex(o);
  }

  lemma UniqueOfMatch(stored: set<Oid>, dirs: Dirs, head: Text, rest: Text, i: nat)
    requires Listing(stored, dirs) && |head| == 2 && head in dirs && OnlyMatch(dirs[head], rest, i)
    ensures var o := FromStrN(head + dirs[head][i], 40); o.Some? && Unique(stored, head + rest, o.value)
  {
    hide Hex, FromStrN;
    var names := dirs[head];
    assert Listed(stored, head, names);
    assert names[i] in names;
    var o :| o in stored && Hex(o) == head + names[i];
    HexRoundTrip(o, []);
    assert Hex(o) + [] == Hex(o);
    assert head + rest <= head + names[i];
    forall p | p in stored && HasPrefix(p, head + rest) ensures p == o {
      SplitPrefix(Hex(p), head, rest);
      var j :| 0 <= j < |names| && names[j] == Hex(p)[2..];
      assert Matches(names[j], rest);
      assert j == i && Hex(p) == head + Hex(p)[2..];
      HexInjective(p, o);
    }
  }

  lemma SplitPrefix(s: Text, head: Text, rest: Text)
    requires |head| == 2 && head + rest <= s
    ensures s[..2] == head && rest <= s[2..] && s == head + s[2..]
  {
    assert s[..2] == (head + rest)[..2];
    assert s[..|head + rest|] == head + rest;
    assert s[2..][..|rest|] == rest;
  }

  /** Beginning with the digits of an abbreviated name is comparing equal to it up to that length. */
  lemma PrefixIsNCmp(str: Text, len: nat, o: Oid)
    requires 0 < len <= 40 && len <= |str| && AllHex(str[..len])
    ensures OidNCmp(o, FromStrN(str, len).value, len) == 0 <==> HasPrefix(o, Lower(str[..len]))
  {
    var shortId, digits := FromStrN(str, len).value, Lower(str[..len]);
    ParsedPrefix(str, len);
    assert Hex(shortId)[..len] == digits;
    hide *;
    NCmpIsPrefix(o, shortId, len);
    PrefixSlice(o, digits);
  }

  lemma PrefixSlice(o: Oid, digits: Text)
    requires |digits| <= 40
    ensures HasPrefix(o, digits) <==> Hex(o)[..|digits|] == digits
  {
    hide Hex;
  }
}
