/** The payload of a tree object: printing it and parsing it back. */
module TreeCodec {
  import opened Bytes
  import opened Libc
  import opened Options
  import opened Trees

  const UINT: nat := 0x1_0000_0000

  /** `"%o %s"`, the NUL that `snprintf` leaves behind it, and the raw object name. */
  function Header(e: TreeEntry): Text {
    Digits(e.mode, 8) + [SPACE] + e.name
  }

  function PrintEntry(e: TreeEntry): Text {
    Header(e) + [NUL] + e.oid
  }

  function PrintTree(es: seq<TreeEntry>): Text {
    if es == [] then [] else PrintEntry(es[0]) + PrintTree(es[1..])
  }

  /** `parse_entry`: the entry at the start of `s` and the number of bytes it takes. */
  function ParseEntry(s: Text): (r: Option<(TreeEntry, nat)>)
    ensures r.Some? ==> 0 < r.value.1 <= |s|
  {
    var n := StrToUl(s, 8);
    if n.overflow || n.length == 0 || n.length >= |s| || s[n.length] != SPACE then None
    else
      match ParseNameAndOid(s[n.length + 1..])
      case None => None
      case Some((name, oid, used)) =>
        Some((TreeEntry(n.value % UINT, name, oid), n.length + 1 + used))
  }

  function ParseNameAndOid(t: Text): (r: Option<(Text, Oid, nat)>)
    ensures r.Some? ==> 0 < r.value.2 <= |t|
  {
    var z := Find(t, NUL);
    if t == [] || z >= |t| || z + 1 + RAWSZ > |t| then None
    else Some((t[..z], t[z + 1..z + 1 + RAWSZ], z + 1 + RAWSZ))
  }

  function ParseTree(s: Text): Option<seq<TreeEntry>>
    decreases |s|
  {
    if s == [] then Some([])
    else
      match ParseEntry(s)
      case None => None
      case Some((e, used)) =>
        match ParseTree(s[used..])
        case None => None
        case Some(es) => Some([e] + es)
  }

  ghost predicate Printable(es: seq<TreeEntry>) {
    forall i :: 0 <= i < |es| ==> es[i].mode < UINT && IsCString(es[i].name)
  }

  lemma NameAndOidRoundTrip(name: Text, oid: Oid, rest: Text)
    requires IsCString(name)
    ensures ParseNameAndOid(name + [NUL] + oid + rest) == Some((name, oid, |name| + 1 + RAWSZ))
  {
    var t := name + [NUL] + oid + rest;
    assert t == name + ([NUL] + oid + rest);
    FindExact(name, NUL, [NUL] + oid + rest);
    var z := |name|;
    assert t[..z] == name;
    assert t[z + 1..z + 1 + RAWSZ] == oid;
  }

  lemma EntryFromParts(s: Text, n: nat, e: TreeEntry, used: nat)
    requires e.mode < UINT && 0 < n < |s| && s[n] == SPACE
    requires StrToUl(s, 8) == Number(e.mode, n, false)
    requires ParseNameAndOid(s[n + 1..]) == Some((e.name, e.oid, used))
    ensures ParseEntry(s) == Some((e, n + 1 + used))
  {
  }

  lemma EntryRoundTrip(e: TreeEntry, rest: Text)
    requires e.mode < UINT && IsCString(e.name)
    ensures ParseEntry(PrintEntry(e) + rest) == Some((e, |PrintEntry(e)|))
  {
    hide StrToUl, ParseEntry, ParseNameAndOid, Digits;
    var d := Digits(e.mode, 8);
    var t := e.name + [NUL] + e.oid + rest;
    var s := PrintEntry(e) + rest;
    assert s == d + ([SPACE] + t) by {
      assert PrintEntry(e) == d + ([SPACE] + e.name + [NUL] + e.oid);
    }
    assert s[|d|] == SPACE && s[|d| + 1..] == t;
    ReadBackUnsigned(e.mode, 8, [SPACE] + t);
    NameAndOidRoundTrip(e.name, e.oid, rest);
    EntryFromParts(s, |d|, e, |e.name| + 1 + RAWSZ);
  }

  /** Any mode, any NUL-free name and any raw object name survives printing and parsing. */
  lemma {:induction false} TreeRoundTrip(es: seq<TreeEntry>)
    requires Printable(es)
    ensures ParseTree(PrintTree(es)) == Some(es)
  {
    hide PrintEntry, ParseEntry;
    if es != [] {
      var rest := PrintTree(es[1..]);
      EntryRoundTrip(es[0], rest);
      TreeRoundTrip(es[1..]);
      assert (PrintEntry(es[0]) + rest)[|PrintEntry(es[0])|..] == rest;
      assert es == [es[0]] + es[1..];
    }
  }

  lemma {:induction false} PrintSplit(a: seq<TreeEntry>, b: seq<TreeEntry>)
    ensures PrintTree(a + b) == PrintTree(a) + PrintTree(b)
  {
    if a == [] {
      assert a + b == b;
    } else {
      assert (a + b)[1..] == a[1..] + b;
      PrintSplit(a[1..], b);
    }
  }

  lemma PrintPrefix(es: seq<TreeEntry>, i: nat)
    requires i < |es|
    ensures PrintTree(es[..i + 1]) == PrintTree(es[..i]) + PrintEntry(es[i])
    ensures |PrintTree(es[..i + 1])| <= |PrintTree(es)|
  {
    assert es[..i + 1] == es[..i] + [es[i]];
    PrintSplit(es[..i], [es[i]]);
    assert PrintTree([es[i]]) == PrintEntry(es[i]);
    assert es == es[..i + 1] + es[i + 1..];
    PrintSplit(es[..i + 1], es[i + 1..]);
  }

  /** The dry run of `tree_entries_fmt`. */
  method TreeEntriesSize(es: seq<TreeEntry>) returns (total: nat)
    ensures total == |PrintTree(es)|
  {
    total := 0;
    for i := 0 to |es|
      invariant total == |PrintTree(es[..i])|
    {
      PrintPrefix(es, i);
      total := total + |Header(es[i])|;
      total := total + RAWSZ + 1;
    }
    assert es[..|es|] == es;
  }

  /** One round of the writing pass, at offset `at`. */
  method EntryFmt(e: TreeEntry, buf: array<Byte>, at: nat) returns (n: int)
    requires at <= buf.Length
    modifies buf
    ensures n == if at + |PrintEntry(e)| <= buf.Length then |PrintEntry(e)| else -1
    ensures n >= 0 ==> buf[at..at + n] == PrintEntry(e)
    ensures buf[..at] == old(buf[..at])
  {
    hide Header;
    var head := Header(e);
    n := Snprintf(buf, at, buf.Length - at, head);
    if n >= buf.Length - at { return -1; }
    if buf.Length - at - n < RAWSZ + 1 { return -1; }
    CopyTo(buf, at + n + 1, e.oid);
    assert buf[at..at + n] == head && buf[at + n] == NUL;
    assert buf[at..at + n + 1 + RAWSZ] == head + [NUL] + e.oid;
    n := n + RAWSZ + 1;
  }

  /** The writing pass of `tree_entries_fmt`: -1 exactly when the payload does not fit. */
  method TreeEntriesFmt(es: seq<TreeEntry>, buf: array<Byte>) returns (total: int)
    modifies buf
    ensures total == if |PrintTree(es)| <= buf.Length then |PrintTree(es)| else -1
    ensures total >= 0 ==> buf[..total] == PrintTree(es)
  {
    assert PrintTree(es[..0]) == [];
    hide PrintEntry, PrintTree;
    total := 0;
    for i := 0 to |es|
      invariant 0 <= total <= buf.Length
      invariant total == |PrintTree(es[..i])|
      invariant buf[..total] == PrintTree(es[..i])
    {
      PrintPrefix(es, i);
      var n := EntryFmt(es[i], buf, total);
      if n < 0 { return -1; }
      assert buf[..total + n] == buf[..total] + buf[total..total + n];
      total := total + n;
    }
    assert es[..|es|] == es;
  }

  function Prepend(es: seq<TreeEntry>, more: Option<seq<TreeEntry>>): Option<seq<TreeEntry>> {
    match more
    case None => None
    case Some(rest) => Some(es + rest)
  }

  lemma ParseTreeAt(buf: Text, p: nat, es: seq<TreeEntry>)
    requires p < |buf|
    ensures var got := ParseEntry(buf[p..]);
            got.Some? ==> p < p + got.value.1 <= |buf|
    ensures var got := ParseEntry(buf[p..]);
            Prepend(es, ParseTree(buf[p..])) ==
            if got.None? then None
            else Prepend(es + [got.value.0], ParseTree(buf[p + got.value.1..]))
  {
    hide ParseEntry;
    match ParseEntry(buf[p..])
    case None =>
    case Some((e, used)) =>
      assert buf[p..][used..] == buf[p + used..];
      match ParseTree(buf[p + used..])
      case None =>
      case Some(rest) => assert es + ([e] + rest) == es + [e] + rest;
  }

  /** `tree_parse`. */
  method TreeParse(buf: Text) returns (r: Option<seq<TreeEntry>>)
    ensures r == ParseTree(buf)
  {
    hide ParseEntry;
    var p, es := 0, [];
    assert buf[0..] == buf;
    ghost var whole := ParseTree(buf);
    assert whole == Prepend(es, whole) by {
      match whole { case Some(all) => assert [] + all == all; case None => }
    }
    while p < |buf|
      invariant 0 <= p <= |buf|
      invariant whole == Prepend(es, ParseTree(buf[p..]))
    {
      ParseTreeAt(buf, p, es);
      var got := ParseEntry(buf[p..]);
      if got.None? { return None; }
      var e, used := got.value.0, got.value.1;
      es := es + [e];
      p := p + used;
    }
    assert buf[p..] == [] && es + [] == es;
    return Some(es);
  }

  // ---------- the payload as text ----------

  /** Modes are printed in octal without leading zeros. */
  lemma {:induction false} EntryText(name: Text, oid: Oid)
    ensures PrintEntry(TreeEntry(0x81A4, name, oid)) == Ascii("100644 ") + name + [NUL] + oid
    ensures PrintEntry(TreeEntry(0x81ED, name, oid)) == Ascii("100755 ") + name + [NUL] + oid
    ensures PrintEntry(TreeEntry(0xA000, name, oid)) == Ascii("120000 ") + name + [NUL] + oid
    ensures PrintEntry(TreeEntry(DIR_MODE, name, oid)) == Ascii("40000 ") + name + [NUL] + oid
  {
    hide *;
    ModeTexts();
    ModeText(TreeEntry(0x81A4, name, oid), Ascii("100644 "));
    ModeText(TreeEntry(0x81ED, name, oid), Ascii("100755 "));
    ModeText(TreeEntry(0xA000, name, oid), Ascii("120000 "));
    ModeText(TreeEntry(DIR_MODE, name, oid), Ascii("40000 "));
  }

  lemma ModeText(e: TreeEntry, text: Text)
    requires Digits(e.mode, 8) + [SPACE] == text
    ensures PrintEntry(e) == text + e.name + [NUL] + e.oid
  {
    hide Digits;
  }

  lemma {:induction false} ModeTexts()
    ensures Digits(0x81A4, 8) + [SPACE] == Ascii("100644 ") && Digits(0x81ED, 8) + [SPACE] == Ascii("100755 ")
    ensures Digits(0xA000, 8) + [SPACE] == Ascii("120000 ") && Digits(DIR_MODE, 8) + [SPACE] == Ascii("40000 ")
  {
    hide *;
    FileMode();
    ExecutableMode();
    LinkMode();
    DirectoryMode();
  }

  lemma FileMode()
    ensures Digits(0x81A4, 8) + [SPACE] == Ascii("100644 ")
  {
    hide Digits;
    SixDigits(1, 0, 0, 6, 4, 4);
  }

  lemma ExecutableMode()
    ensures Digits(0x81ED, 8) + [SPACE] == Ascii("100755 ")
  {
    hide Digits;
    SixDigits(1, 0, 0, 7, 5, 5);
  }

  lemma LinkMode()
    ensures Digits(0xA000, 8) + [SPACE] == Ascii("120000 ")
  {
    hide Digits;
    SixDigits(1, 2, 0, 0, 0, 0);
  }

  lemma DirectoryMode()
    ensures Digits(DIR_MODE, 8) + [SPACE] == Ascii("40000 ")
  {
    hide Digits;
    FiveDigits(4, 0, 0, 0, 0);
  }

  lemma {:induction false} FiveDigits(a: nat, b: nat, c: nat, d: nat, e: nat)
    requires 0 < a < 8 && b < 8 && c < 8 && d < 8 && e < 8
    ensures Digits((((a * 8 + b) * 8 + c) * 8 + d) * 8 + e, 8) == [48 + a, 48 + b, 48 + c, 48 + d, 48 + e]
  {
    MoreDigits(a, b);
    MoreDigits(a * 8 + b, c);
    MoreDigits((a * 8 + b) * 8 + c, d);
    MoreDigits(((a * 8 + b) * 8 + c) * 8 + d, e);
    assert Digits(a, 8) == [48 + a];
    hide Digits;
  }

  lemma {:induction false} SixDigits(a: nat, b: nat, c: nat, d: nat, e: nat, f: nat)
    requires 0 < a < 8 && b < 8 && c < 8 && d < 8 && e < 8 && f < 8
    ensures Digits(((((a * 8 + b) * 8 + c) * 8 + d) * 8 + e) * 8 + f, 8)
         == [48 + a, 48 + b, 48 + c, 48 + d, 48 + e, 48 + f]
  {
    FiveDigits(a, b, c, d, e);
    MoreDigits((((a * 8 + b) * 8 + c) * 8 + d) * 8 + e, f);
    hide Digits;
  }

  lemma MoreDigits(n: nat, d: nat)
    requires n > 0 && d < 8
    ensures Digits(n * 8 + d, 8) == Digits(n, 8) + [48 + d]
  {
  }

  /** An entry is read whatever octal digits its mode is written with; the mode keeps 32 bits. */
  lemma {:induction false} AnyEntryRead(digits: Text, name: Text, oid: Oid, rest: Text)
    requires digits != [] && (forall i :: 0 <= i < |digits| ==> IsDigit(digits[i], 8)) && IsCString(name)
    ensures ParseEntry(digits + [SPACE] + name + [NUL] + oid + rest) ==
      if Value(digits, 8) < 0x1_0000_0000_0000_0000 then
        Some((TreeEntry(Value(digits, 8) % 0x1_0000_0000, name, oid), |digits| + |name| + 22))
      else None
  {
    hide StrToUl, ParseNameAndOid, Value;
    var t := name + [NUL] + oid + rest;
    var s := digits + [SPACE] + name + [NUL] + oid + rest;
    assert s == [] + [] + digits + ([SPACE] + t);
    NumberRead([], [], digits, [SPACE] + t, 8);
    assert s[|digits|] == SPACE && s[|digits| + 1..] == t;
    NameAndOidRoundTrip(name, oid, rest);
  }

  /** A payload that ends within an entry is refused. */
  lemma {:induction false} TruncatedEntry(e: TreeEntry, k: nat)
    requires e.mode < UINT && IsCString(e.name) && k < |PrintEntry(e)|
    ensures ParseEntry(PrintEntry(e)[..k]) == None
  {
    hide StrToUl, Value, Digits;
    var d := Digits(e.mode, 8);
    var whole := PrintEntry(e);
    assert whole == d + ([SPACE] + (e.name + [NUL] + e.oid));
    var s := whole[..k];
    if k <= |d| {
      assert s == d[..k] && [] + [] + d[..k] + [] == s;
      NumberRead([], [], d[..k], [], 8);
    } else {
      var t := (e.name + [NUL] + e.oid)[..k - |d| - 1];
      assert s == d + ([SPACE] + t);
      ReadBackUnsigned(e.mode, 8, [SPACE] + t);
      assert s[|d|] == SPACE && s[|d| + 1..] == t;
      TruncatedName(e.name, e.oid, k - |d| - 1);
    }
  }

  lemma TruncatedName(name: Text, oid: Oid, k: nat)
    requires IsCString(name) && k < |name| + 21
    ensures ParseNameAndOid((name + [NUL] + oid)[..k]) == None
  {
    var whole := name + [NUL] + oid;
    var t := whole[..k];
    assert forall i :: 0 <= i < k && i < |name| ==> t[i] == name[i];
    assert k > |name| ==> t[|name|] == NUL;
  }
}
