/** Configuration files: the table, its parser and its printer (iniparse/). */
module Ini {
  import opened Bytes
  import opened Libc
  import opened Options

  const EQUALS: Byte := 61
  const OPEN: Byte := 91
  const CLOSE: Byte := 93
  const SEMICOLON: Byte := 59
  const HASH: Byte := 35
  const TAB: Byte := 9

  /** An unset entry keeps its place without a key. */
  datatype Entry = Entry(key: Option<Text>, val: Option<Text>)
  datatype Section = Section(name: Text, entries: seq<Entry>)
  type Table = seq<Section>

  // ---------- looking up ----------

  /** The first section of that name, or the number of sections. */
  function SectionIndex(t: Table, name: Text): (i: nat)
    ensures i <= |t|
    ensures i < |t| ==> t[i].name == name
    ensures forall k :: 0 <= k < i ==> t[k].name != name
  {
    if t == [] || t[0].name == name then 0 else 1 + SectionIndex(t[1..], name)
  }

  /** The first live entry with that key, or the number of entries. */
  function EntryIndex(es: seq<Entry>, key: Text): (j: nat)
    ensures j <= |es|
    ensures j < |es| ==> es[j].key == Some(key)
    ensures forall k :: 0 <= k < j ==> es[k].key != Some(key)
  {
    if es == [] || es[0].key == Some(key) then 0 else 1 + EntryIndex(es[1..], key)
  }

  /** The value of a key in a list of entries; an entry may have none. */
  function ValueIn(es: seq<Entry>, key: Text): Option<Option<Text>> {
    var j := EntryIndex(es, key);
    if j < |es| then Some(es[j].val) else None
  }

  /** `getentry`: only the first section of a name counts. */
  function ValueOf(t: Table, sec: Text, key: Text): Option<Option<Text>> {
    var i := SectionIndex(t, sec);
    if i < |t| then ValueIn(t[i].entries, key) else None
  }

  /** `put`: appends, to the section if there is one. */
  function Put(t: Table, sec: Text, key: Text, val: Option<Text>): Table {
    var i := SectionIndex(t, sec);
    if i < |t| then t[i := t[i].(entries := t[i].entries + [Entry(Some(key), val)])]
    else t + [Section(sec, [Entry(Some(key), val)])]
  }

  lemma FirstSection(t: Table, name: Text, i: nat)
    requires i <= |t| && (i < |t| ==> t[i].name == name) && forall k :: 0 <= k < i ==> t[k].name != name
    ensures SectionIndex(t, name) == i
  {
  }

  lemma FirstEntry(es: seq<Entry>, key: Text, j: nat)
    requires j <= |es| && (j < |es| ==> es[j].key == Some(key)) && forall k :: 0 <= k < j ==> es[k].key != Some(key)
    ensures EntryIndex(es, key) == j
  {
  }

  lemma ValueAfterAppend(es: seq<Entry>, e: Entry, key: Text)
    ensures ValueIn(es + [e], key) ==
      if ValueIn(es, key).Some? then ValueIn(es, key) else if e.key == Some(key) then Some(e.val) else None
  {
    var j := EntryIndex(es, key);
    var all := es + [e];
    assert forall k :: 0 <= k < |es| ==> all[k] == es[k];
    FirstEntry(all, key, if j == |es| && e.key != Some(key) then j + 1 else j);
  }

  /** An appended entry is found unless an earlier one hides it. */
  lemma ValueAfterPut(t: Table, sec: Text, key: Text, val: Option<Text>, s: Text, k: Text)
    ensures ValueOf(Put(t, sec, key, val), s, k) ==
      if ValueOf(t, s, k).Some? then ValueOf(t, s, k) else if s == sec && k == key then Some(val) else None
  {
    hide ValueIn;
    var i, n := SectionIndex(t, sec), SectionIndex(t, s);
    var t', e := Put(t, sec, key, val), Entry(Some(key), val);
    if i < |t| {
      FirstSection(t', s, n);
      if n == i { ValueAfterAppend(t[i].entries, e, k); }
    } else {
      assert forall m :: 0 <= m < |t| ==> t'[m] == t[m];
      FirstSection(t', s, if n == |t| && s != sec then n + 1 else n);
      ValueAfterAppend([], e, k);
      assert [] + [e] == [e];
      NoValue(k);
    }
  }

  lemma NoValue(key: Text)
    ensures ValueIn([], key) == None
  {
  }

  /** Section names differ, and in a section the keys of live entries. */
  ghost predicate OneLive(t: Table) {
    UniqueNames(t) && forall i :: 0 <= i < |t| ==> UniqueKeys(t[i].entries)
  }

  ghost predicate UniqueNames(t: Table) {
    forall i, j :: 0 <= i < j < |t| ==> t[i].name != t[j].name
  }

  ghost predicate UniqueKeys(es: seq<Entry>) {
    forall i, j :: 0 <= i < j < |es| && es[i].key.Some? ==> es[i].key != es[j].key
  }

  lemma PutUnique(t: Table, sec: Text, key: Text, val: Option<Text>)
    ensures UniqueNames(t) ==> UniqueNames(Put(t, sec, key, val))
    ensures OneLive(t) && ValueOf(t, sec, key).None? ==> OneLive(Put(t, sec, key, val))
  {
  }

  lemma ValueAfterReplace(t: Table, i: nat, j: nat, e: Entry, s: Text, k: Text)
    requires i < |t| && i == SectionIndex(t, t[i].name) && j < |t[i].entries| && e.key.Some?
    requires j == EntryIndex(t[i].entries, e.key.value)
    ensures ValueOf(t[i := t[i].(entries := t[i].entries[j := e])], s, k) ==
      if s == t[i].name && Some(k) == e.key then Some(e.val) else ValueOf(t, s, k)
  {
    var es := t[i].entries;
    var t' := t[i := t[i].(entries := es[j := e])];
    FirstSection(t', s, SectionIndex(t, s));
    if s == t[i].name {
      assert forall m :: 0 <= m < |es| ==> es[j := e][m].key == es[m].key;
      FirstEntry(es[j := e], k, EntryIndex(es, k));
    }
  }

  /** The table with the first live entry of the key taken away. */
  function Without(t: Table, sec: Text, key: Text): Table {
    if ValueOf(t, sec, key).None? then t
    else
      var i := SectionIndex(t, sec);
      var j := EntryIndex(t[i].entries, key);
      t[i := t[i].(entries := t[i].entries[j := Entry(None, None)])]
  }

  lemma WithoutUnique(t: Table, sec: Text, key: Text)
    requires OneLive(t)
    ensures OneLive(Without(t, sec, key))
  {
  }

  lemma OtherKeysKept(es: seq<Entry>, key: Text, k: Text)
    requires k != key && EntryIndex(es, key) < |es|
    ensures ValueIn(es[EntryIndex(es, key) := Entry(None, None)], k) == ValueIn(es, k)
  {
    var es' := es[EntryIndex(es, key) := Entry(None, None)];
    assert forall m :: 0 <= m < |es| ==> (es'[m].key == Some(k) <==> es[m].key == Some(k));
    FirstEntry(es', k, EntryIndex(es, k));
  }

  lemma {:induction false} ValueAfterUnset(t: Table, sec: Text, key: Text, s: Text, k: Text)
    ensures (s != sec || k != key) ==> ValueOf(Without(t, sec, key), s, k) == ValueOf(t, s, k)
    ensures OneLive(t) ==> ValueOf(Without(t, sec, key), sec, key) == None
  {
    if ValueOf(t, sec, key).Some? {
      UnsetExact(t, sec, key);
      var i := SectionIndex(t, sec);
      var t' := Without(t, sec, key);
      FirstSection(t', s, SectionIndex(t, s));
      if s == sec && k != key { OtherKeysKept(t[i].entries, key, k); }
    }
  }

  /** A key is gone after it has been unset if and only if it had no second live entry in its section. */
  lemma UnsetExact(t: Table, sec: Text, key: Text)
    requires ValueOf(t, sec, key).Some?
    ensures var es := t[SectionIndex(t, sec)].entries;
      ValueOf(Without(t, sec, key), sec, key) == None <==>
        forall m :: EntryIndex(es, key) < m < |es| ==> es[m].key != Some(key)
  {
    hide *;
    WithoutOne(t, sec, key);
    GoneExact(t[SectionIndex(t, sec)].entries, key);
  }

  lemma WithoutOne(t: Table, sec: Text, key: Text)
    requires ValueOf(t, sec, key).Some?
    ensures SectionIndex(t, sec) < |t|
    ensures EntryIndex(t[SectionIndex(t, sec)].entries, key) < |t[SectionIndex(t, sec)].entries|
    ensures var es := t[SectionIndex(t, sec)].entries;
      ValueOf(Without(t, sec, key), sec, key) == ValueIn(es[EntryIndex(es, key) := Entry(None, None)], key)
  {
    FirstSection(Without(t, sec, key), sec, SectionIndex(t, sec));
  }

  lemma GoneExact(es: seq<Entry>, key: Text)
    requires EntryIndex(es, key) < |es|
    ensures var j := EntryIndex(es, key);
      ValueIn(es[j := Entry(None, None)], key) == None <==> forall m :: j < m < |es| ==> es[m].key != Some(key)
  {
    var j := EntryIndex(es, key);
    var es' := es[j := Entry(None, None)];
    var n := EntryIndex(es', key);
    assert forall m :: 0 <= m < |es| && m != j ==> es'[m] == es[m];
    if n < |es| {
      assert n != j;
      assert es[n].key == Some(key);
    } else {
      forall m | j < m < |es| ensures es[m].key != Some(key) {
        assert es'[m].key != Some(key);
      }
    }
  }

  // ---------- the text of a table ----------

  function PrintEntry(e: Entry): Text {
    if e.key.None? then []
    else [TAB] + e.key.value + [EQUALS] + (if e.val.Some? then e.val.value else []) + [NEWLINE]
  }

  function PrintEntries(es: seq<Entry>): Text {
    if es == [] then [] else PrintEntry(es[0]) + PrintEntries(es[1..])
  }

  /** What `iniparse_writeto` puts into the file. */
  function Print(t: Table): Text {
    if t == [] then []
    else [OPEN] + t[0].name + [CLOSE, NEWLINE] + PrintEntries(t[0].entries) + Print(t[1..])
  }

  // ---------- parsing ----------

  /** How far to the first of these bytes, a newline or the end of the C string. */
  function Until(s: Text, c: Byte): (n: nat)
    ensures n <= |s|
    ensures forall i :: 0 <= i < n ==> s[i] != c && s[i] != NEWLINE && s[i] != NUL
    ensures n < |s| ==> s[n] == c || s[n] == NEWLINE || s[n] == NUL
  {
    if s == [] || s[0] == c || s[0] == NEWLINE || s[0] == NUL then 0 else 1 + Until(s[1..], c)
  }

  /** `skipline`. */
  function SkipLine(s: Text): (r: Text)
    ensures |r| <= |s|
  {
    var n := Until(s, NEWLINE);
    if n < |s| && s[n] == NEWLINE then s[n + 1..] else s[n..]
  }

  /** The blanks `skipspace` skips: `isspace` but not a newline. */
  function Blanks(s: Text): (n: nat)
    ensures n <= |s|
    ensures forall i :: 0 <= i < n ==> IsSpace(s[i]) && s[i] != NEWLINE
    ensures n < |s| ==> !IsSpace(s[n]) || s[n] == NEWLINE
  {
    if s == [] || !IsSpace(s[0]) || s[0] == NEWLINE then 0 else 1 + Blanks(s[1..])
  }

  /** The text without the spaces at its end. */
  function StripEnd(s: Text): (r: Text)
    ensures r <= s && (r == [] || !IsSpace(r[|r| - 1]))
    ensures forall i :: |r| <= i < |s| ==> IsSpace(s[i])
  {
    if s == [] || !IsSpace(s[|s| - 1]) then s else StripEnd(s[..|s| - 1])
  }

  /** What is left behind position `n`, which may be the end. */
  function After(s: Text, n: nat): (r: Text)
    requires n <= |s|
    ensures |r| <= |s|
  {
    if n < |s| then s[n + 1..] else []
  }

  /** `parse_section`, at an opening bracket: the name, if the line has a closing one, and what is left. */
  function ParseSection(s: Text): (r: (Option<Text>, Text))
    requires s != []
    ensures |r.1| < |s|
  {
    var t := s[1..][Blanks(s[1..])..];
    var n := Until(t, CLOSE);
    if n == |t| || t[n] != CLOSE then (None, After(t, n))
    else (Some(StripEnd(t[..n])), SkipLine(t[n + 1..]))
  }

  /** What follows an equals sign: the value without spaces around it, and the next line. */
  function ParseValue(s: Text): (r: (Text, Text))
    ensures |r.1| <= |s|
  {
    var v := s[Blanks(s)..];
    var m := Until(v, NEWLINE);
    (StripEnd(v[..m]), After(v, m))
  }

  /** `parse_entry`: a line without an equals sign takes the next line with it. */
  function ParseEntry(s: Text): (r: (Text, Option<Text>, Text))
    requires s != [] && s[0] != NEWLINE && s[0] != NUL
    ensures |r.2| < |s|
  {
    var n := Until(s, EQUALS);
    var key := StripEnd(s[..n]);
    if n < |s| && s[n] == EQUALS then
      var (val, rest) := ParseValue(s[n + 1..]);
      (key, Some(val), rest)
    else (key, None, SkipLine(After(s, n)))
  }

  /**
   * `iniparse_parse`, on the rest of the buffer and with the current section: whether it succeeds, and
   * the table. An entry outside a section makes it fail, with what the table then holds.
   */
  function ParseFrom(s: Text, sec: Option<Text>, t: Table): (bool, Table)
    decreases |s|
  {
    var u := s[Blanks(s)..];
    if u == [] || u[0] == NUL then (true, t)
    else if u[0] == NEWLINE || u[0] == SEMICOLON || u[0] == HASH then
      SkipLineShorter(u);
      ParseFrom(SkipLine(u), sec, t)
    else if u[0] == OPEN then
      var (name, rest) := ParseSection(u);
      ParseFrom(rest, name, t)
    else
      var (key, val, rest) := ParseEntry(u);
      if sec.None? then (false, t) else ParseFrom(rest, sec, Put(t, sec.value, key, val))
  }

  lemma SkipLineShorter(s: Text)
    requires s != [] && s[0] != NUL
    ensures |SkipLine(s)| < |s|
  {
  }

  function Parse(b: Text): (bool, Table) {
    ParseFrom(b, None, [])
  }

  // ---------- the round trip ----------

  predicate NoSpaceAround(s: Text) {
    s != [] ==> !IsSpace(s[0]) && !IsSpace(s[|s| - 1])
  }

  /** One line of text, without spaces around it and without this byte. */
  predicate Plain(s: Text, c: Byte) {
    NoSpaceAround(s) && forall i :: 0 <= i < |s| ==> s[i] != NUL && s[i] != NEWLINE && s[i] != c
  }

  predicate PlainKey(key: Text) {
    Plain(key, EQUALS) && (key != [] ==> key[0] != SEMICOLON && key[0] != HASH && key[0] != OPEN)
  }

  predicate PlainEntry(e: Entry) {
    && (e.key.Some? ==> PlainKey(e.key.value))
    && (e.val.Some? ==> Plain(e.val.value, NEWLINE))
  }

  ghost predicate PlainTable(t: Table) {
    forall i :: 0 <= i < |t| ==>
      Plain(t[i].name, CLOSE) && forall j :: 0 <= j < |t[i].entries| ==> PlainEntry(t[i].entries[j])
  }

  lemma UntilExact(a: Text, c: Byte, rest: Text)
    requires forall i :: 0 <= i < |a| ==> a[i] != c && a[i] != NEWLINE && a[i] != NUL
    requires rest != [] && (rest[0] == c || rest[0] == NEWLINE)
    ensures Until(a + rest, c) == |a|
  {
    var s := a + rest;
    assert s[|a|] == rest[0];
    assert forall i :: 0 <= i < |a| ==> s[i] == a[i];
  }

  lemma BlanksNone(s: Text)
    requires s != [] && (!IsSpace(s[0]) || s[0] == NEWLINE)
    ensures Blanks(s) == 0 && s[0..] == s
  {
  }

  lemma StripNone(s: Text)
    requires NoSpaceAround(s)
    ensures StripEnd(s) == s
  {
  }

  /** A section line is read as the name of the section. */
  lemma {:induction false} SectionRead(name: Text, rest: Text, sec: Option<Text>, t: Table)
    requires Plain(name, CLOSE)
    ensures ParseFrom([OPEN] + name + [CLOSE, NEWLINE] + rest, sec, t) == ParseFrom(rest, Some(name), t)
  {
    hide Plain, ParseSection, Blanks;
    var s := [OPEN] + name + [CLOSE, NEWLINE] + rest;
    assert s == [OPEN] + (name + ([CLOSE] + ([NEWLINE] + rest)));
    BlanksNone(s);
    SectionParsed(name, rest);
  }

  lemma {:induction false} SectionParsed(name: Text, rest: Text)
    requires Plain(name, CLOSE)
    ensures ParseSection([OPEN] + (name + ([CLOSE] + ([NEWLINE] + rest)))) == (Some(name), rest)
  {
    var line := [NEWLINE] + rest;
    var t := name + ([CLOSE] + line);
    assert ([OPEN] + t)[1..] == t;
    assert t[0] == if name == [] then CLOSE else name[0];
    BlanksNone(t);
    UntilExact(name, CLOSE, [CLOSE] + line);
    StripNone(name);
    hide Blanks, Until, StripEnd, SkipLine;
    assert t[..|name|] == name && t[|name|] == CLOSE;
    assert t[|name| + 1..] == line;
    LineSkipped(rest);
  }

  lemma LineSkipped(rest: Text)
    ensures SkipLine([NEWLINE] + rest) == rest
  {
    assert ([NEWLINE] + rest)[1..] == rest;
  }

  /** An entry line is read as the entry, a missing value as an empty one. */
  lemma {:induction false} EntryRead(key: Text, val: Text, rest: Text, sec: Text, t: Table)
    requires PlainKey(key) && Plain(val, NEWLINE)
    ensures ParseFrom([TAB] + key + [EQUALS] + val + [NEWLINE] + rest, Some(sec), t)
         == ParseFrom(rest, Some(sec), Put(t, sec, key, Some(val)))
  {
    hide Put, Blanks, ParseEntry, Plain, PlainKey;
    var s := [TAB] + key + [EQUALS] + val + [NEWLINE] + rest;
    var u := key + ([EQUALS] + (val + ([NEWLINE] + rest)));
    assert s[1..] == u;
    EntryStart(key, val + ([NEWLINE] + rest));
    assert s == [TAB] + u;
    EntryParsed(key, val, rest);
  }

  /** The tab before a key is all that is skipped, and what follows starts no section or comment. */
  lemma EntryStart(key: Text, w: Text)
    requires PlainKey(key)
    ensures var u := key + ([EQUALS] + w);
      && Blanks([TAB] + u) == 1
      && u[0] != NUL && u[0] != NEWLINE && u[0] != SEMICOLON && u[0] != HASH && u[0] != OPEN
  {
    var u := key + ([EQUALS] + w);
    assert u[0] == if key == [] then EQUALS else key[0];
    BlanksNone(u);
    assert ([TAB] + u)[1..] == u;
  }

  lemma {:induction false} EntryParsed(key: Text, val: Text, rest: Text)
    requires PlainKey(key) && Plain(val, NEWLINE)
    ensures var u := key + ([EQUALS] + (val + ([NEWLINE] + rest)));
      u[0] != NEWLINE && u[0] != NUL && ParseEntry(u) == (key, Some(val), rest)
  {
    var w := val + ([NEWLINE] + rest);
    KeyFirst(key, w);
    ValueParsed(val, rest);
    hide ParseValue, Plain;
    KeyParsed(key, w);
  }

  lemma {:induction false} KeyParsed(key: Text, w: Text)
    requires PlainKey(key)
    ensures var r := ParseValue(w); ParseEntry(key + ([EQUALS] + w)) == (key, Some(r.0), r.1)
  {
    var u := key + ([EQUALS] + w);
    UntilExact(key, EQUALS, [EQUALS] + w);
    StripNone(key);
    hide ParseValue, Until, StripEnd, SkipLine, Plain, PlainKey;
    assert u[..|key|] == key && u[|key|] == EQUALS && u[|key| + 1..] == w;
  }

  lemma KeyFirst(key: Text, w: Text)
    requires PlainKey(key)
    ensures var u := key + ([EQUALS] + w); u[0] != NEWLINE && u[0] != NUL
  {
    var u := key + ([EQUALS] + w);
    assert u[0] == if key == [] then EQUALS else key[0];
  }

  lemma ValueParsed(val: Text, rest: Text)
    requires Plain(val, NEWLINE)
    ensures ParseValue(val + ([NEWLINE] + rest)) == (val, rest)
  {
    var w := val + ([NEWLINE] + rest);
    assert w[0] == if val == [] then NEWLINE else val[0];
    BlanksNone(w);
    UntilExact(val, NEWLINE, [NEWLINE] + rest);
    StripNone(val);
    hide Blanks, Until, StripEnd, Plain;
    assert w[..|val|] == val && w[|val| + 1..] == rest;
  }

  function Shown(val: Option<Text>): Option<Text> {
    Some(if val.Some? then val.value else [])
  }

  /** Putting the live entries of a section into a table, in order. */
  function PutAll(t: Table, sec: Text, es: seq<Entry>): Table
    decreases |es|
  {
    if es == [] then t
    else PutAll(if es[0].key.Some? then Put(t, sec, es[0].key.value, Shown(es[0].val)) else t, sec, es[1..])
  }

  function Rebuild(acc: Table, t: Table): Table
    decreases |t|
  {
    if t == [] then acc else Rebuild(PutAll(acc, t[0].name, t[0].entries), t[1..])
  }

  lemma {:induction false} EntriesRead(es: seq<Entry>, rest: Text, sec: Text, t: Table)
    requires forall j :: 0 <= j < |es| ==> PlainEntry(es[j])
    ensures ParseFrom(PrintEntries(es) + rest, Some(sec), t) == ParseFrom(rest, Some(sec), PutAll(t, sec, es))
    decreases |es|
  {
    hide ParseFrom, Put;
    if es == [] {
      assert PrintEntries(es) + rest == rest;
    } else {
      var more := PrintEntries(es[1..]) + rest;
      var e := es[0];
      assert PrintEntries(es) + rest == PrintEntry(e) + more;
      if e.key.Some? {
        var val := Shown(e.val).value;
        assert PlainEntry(e);
        EmptyPlain();
        EntryRead(e.key.value, val, more, sec, t);
        assert PrintEntry(e) + more == [TAB] + e.key.value + [EQUALS] + val + [NEWLINE] + more;
        EntriesRead(es[1..], rest, sec, Put(t, sec, e.key.value, Some(val)));
      } else {
        assert PrintEntry(e) + more == more;
        EntriesRead(es[1..], rest, sec, t);
      }
    }
  }

  lemma EmptyPlain()
    ensures Plain([], NEWLINE)
  {
  }

  lemma {:induction false} TableRead(t: Table, sec: Option<Text>, acc: Table)
    requires PlainTable(t)
    ensures ParseFrom(Print(t), sec, acc) == (true, Rebuild(acc, t))
    decreases |t|
  {
    hide *;
    if t == [] {
      NothingToRead(sec, acc);
    } else {
      var rest := Print(t[1..]);
      var body := PrintEntries(t[0].entries) + rest;
      PlainParts(t);
      TableParts(t, acc);
      SectionRead(t[0].name, body, sec, acc);
      EntriesRead(t[0].entries, rest, t[0].name, acc);
      TableRead(t[1..], Some(t[0].name), PutAll(acc, t[0].name, t[0].entries));
    }
  }

  lemma NothingToRead(sec: Option<Text>, acc: Table)
    ensures ParseFrom(Print([]), sec, acc) == (true, Rebuild(acc, []))
  {
  }

  lemma PlainParts(t: Table)
    requires PlainTable(t) && t != []
    ensures Plain(t[0].name, CLOSE) && PlainTable(t[1..])
    ensures forall j :: 0 <= j < |t[0].entries| ==> PlainEntry(t[0].entries[j])
  {
    hide Plain, PlainEntry;
  }

  lemma {:induction false} TableParts(t: Table, acc: Table)
    requires t != []
    ensures Print(t) == [OPEN] + t[0].name + [CLOSE, NEWLINE] + (PrintEntries(t[0].entries) + Print(t[1..]))
    ensures Rebuild(acc, t) == Rebuild(PutAll(acc, t[0].name, t[0].entries), t[1..])
  {
    hide PrintEntries, PutAll;
  }

  lemma ValueInTail(es: seq<Entry>, k: Text)
    requires es != []
    ensures ValueIn(es, k) == if es[0].key == Some(k) then Some(es[0].val) else ValueIn(es[1..], k)
  {
  }

  lemma {:induction false} ValueAfterPutAll(t: Table, sec: Text, es: seq<Entry>, s: Text, k: Text)
    ensures ValueOf(PutAll(t, sec, es), s, k) ==
      if ValueOf(t, s, k).Some? then ValueOf(t, s, k)
      else if s == sec && ValueIn(es, k).Some? then Some(Shown(ValueIn(es, k).value))
      else None
    decreases |es|
  {
    hide Put, ValueOf;
    if es == [] {
      NoValue(k);
    } else {
      var e := es[0];
      ValueInTail(es, k);
      if e.key.Some? {
        ValueAfterPut(t, sec, e.key.value, Shown(e.val), s, k);
        ValueAfterPutAll(Put(t, sec, e.key.value, Shown(e.val)), sec, es[1..], s, k);
      } else {
        ValueAfterPutAll(t, sec, es[1..], s, k);
      }
    }
  }

  lemma {:induction false} ValueAfterRebuild(acc: Table, t: Table, s: Text, k: Text)
    requires UniqueNames(t)
    ensures ValueOf(Rebuild(acc, t), s, k) ==
      if ValueOf(acc, s, k).Some? then ValueOf(acc, s, k)
      else if ValueOf(t, s, k).Some? then Some(Shown(ValueOf(t, s, k).value))
      else None
    decreases |t|
  {
    hide PutAll, ValueIn;
    if t != [] {
      var first := PutAll(acc, t[0].name, t[0].entries);
      ValueAfterPutAll(acc, t[0].name, t[0].entries, s, k);
      ValueAfterRebuild(first, t[1..], s, k);
      if s == t[0].name {
        assert forall i :: 0 <= i < |t[1..]| ==> t[1..][i].name != s;
      }
    }
  }

  /** A key has the same value in both tables, a missing one being an empty one. */
  predicate SameLookup(t: Table, t': Table, s: Text, k: Text) {
    ValueOf(t', s, k) == if ValueOf(t, s, k).Some? then Some(Shown(ValueOf(t, s, k).value)) else None
  }

  /**
   * Parsing a printed table of plain texts succeeds and preserves every lookup; a missing value reads
   * back as an empty one.
   */
  lemma {:induction false} PrintedTableRead(t: Table, s: Text, k: Text)
    requires PlainTable(t) && UniqueNames(t)
    ensures Parse(Print(t)).0 && SameLookup(t, Parse(Print(t)).1, s, k)
  {
    TableRead(t, None, []);
    ValueAfterRebuild([], t, s, k);
  }

  // ---------- which texts are read back ----------

  /** A printed value is read back if and only if it is plain. */
  lemma ValueExactly(val: Text, rest: Text)
    ensures ParseValue(val + ([NEWLINE] + rest)).0 == val <==> Plain(val, NEWLINE)
    ensures Plain(val, NEWLINE) ==> ParseValue(val + ([NEWLINE] + rest)).1 == rest
  {
    if Plain(val, NEWLINE) { ValueParsed(val, rest); }
    ValuePlain(val + ([NEWLINE] + rest));
  }

  /** What a scan has passed, without the spaces at its end, is plain if it does not start with a space. */
  lemma {:induction false} PassedPlain(t: Text, c: Byte)
    requires Until(t, c) > 0 ==> !IsSpace(t[0])
    ensures Plain(StripEnd(t[..Until(t, c)]), c)
  {
    hide Until, StripEnd, IsSpace;
    var r := StripEnd(t[..Until(t, c)]);
    assert forall i :: 0 <= i < |r| ==> r[i] == t[i];
  }

  /** Whatever is read as a value is plain. */
  lemma {:induction false} ValuePlain(s: Text)
    ensures Plain(ParseValue(s).0, NEWLINE)
  {
    hide Until, StripEnd, Plain, Blanks;
    PassedPlain(s[Blanks(s)..], NEWLINE);
  }

  /** The line is taken for an entry with this key. */
  predicate ReadAsKey(line: Text, key: Text) {
    var u := line[Blanks(line)..];
    && u != [] && u[0] != NUL && u[0] != NEWLINE && u[0] != SEMICOLON && u[0] != HASH && u[0] != OPEN
    && ParseEntry(u).0 == key
  }

  lemma {:induction false} KeyPlain(u: Text)
    requires u != [] && u[0] != NUL && u[0] != NEWLINE && u[0] != SEMICOLON && u[0] != HASH && u[0] != OPEN
    requires !IsSpace(u[0])
    ensures PlainKey(ParseEntry(u).0)
    ensures ParseEntry(u).1.Some? ==> Plain(ParseEntry(u).1.value, NEWLINE)
  {
    hide ParseValue, Until, StripEnd, Plain, SkipLine, IsSpace;
    PassedPlain(u, EQUALS);
    var n := Until(u, EQUALS);
    if n < |u| { ValuePlain(u[n + 1..]); }
  }

  /** The line of an entry is read as one of its key if and only if the key is plain. */
  lemma KeyExactly(key: Text, w: Text)
    ensures ReadAsKey([TAB] + key + ([EQUALS] + w), key) <==> PlainKey(key)
  {
    hide ParseEntry, Plain;
    var line := [TAB] + key + ([EQUALS] + w);
    assert line == [TAB] + (key + ([EQUALS] + w));
    if PlainKey(key) {
      EntryStart(key, w);
      KeyParsed(key, w);
      assert line[1..] == key + ([EQUALS] + w);
    }
    if ReadAsKey(line, key) { KeyPlain(line[Blanks(line)..]); }
  }

  /** The line of a section is read as one of its name if and only if the name is plain. */
  lemma SectionExactly(name: Text, rest: Text)
    ensures ParseSection([OPEN] + (name + ([CLOSE] + ([NEWLINE] + rest)))).0 == Some(name) <==> Plain(name, CLOSE)
  {
    if Plain(name, CLOSE) { SectionParsed(name, rest); }
    NamePlain([OPEN] + (name + ([CLOSE] + ([NEWLINE] + rest))));
  }

  lemma {:induction false} NamePlain(s: Text)
    requires s != []
    ensures ParseSection(s).0.Some? ==> Plain(ParseSection(s).0.value, CLOSE)
  {
    hide Until, StripEnd, Plain, Blanks, SkipLine;
    PassedPlain(s[1..][Blanks(s[1..])..], CLOSE);
  }

  lemma PutPlain(t: Table, sec: Text, key: Text, val: Option<Text>)
    requires PlainTable(t) && Plain(sec, CLOSE) && PlainEntry(Entry(Some(key), val))
    ensures PlainTable(Put(t, sec, key, val))
  {
    hide Plain, PlainEntry;
  }

  /** All texts of a parsed table are plain, whatever was parsed. */
  lemma {:induction false} ParsedPlain(s: Text, sec: Option<Text>, t: Table)
    requires PlainTable(t) && (sec.Some? ==> Plain(sec.value, CLOSE))
    ensures PlainTable(ParseFrom(s, sec, t).1)
    decreases |s|
  {
    hide PlainTable, Plain, PlainKey, ParseSection, ParseEntry, Put, SkipLine;
    var u := s[Blanks(s)..];
    if u != [] && u[0] != NUL {
      if u[0] == NEWLINE || u[0] == SEMICOLON || u[0] == HASH {
        SkipLineShorter(u);
        ParsedPlain(SkipLine(u), sec, t);
      } else if u[0] == OPEN {
        NamePlain(u);
        ParsedPlain(ParseSection(u).1, ParseSection(u).0, t);
      } else if sec.Some? {
        var (key, val, rest) := ParseEntry(u);
        KeyPlain(u);
        PutPlain(t, sec.value, key, val);
        ParsedPlain(rest, sec, Put(t, sec.value, key, val));
      }
    }
  }

  /** What a lookup finds in a table of plain texts. */
  lemma FoundPlain(t: Table, s: Text, k: Text)
    requires PlainTable(t) && ValueOf(t, s, k).Some?
    ensures Plain(s, CLOSE) && PlainKey(k)
    ensures var v := ValueOf(t, s, k).value; v.Some? ==> Plain(v.value, NEWLINE)
  {
    hide Plain, PlainKey;
    var i := SectionIndex(t, s);
    var j := EntryIndex(t[i].entries, k);
    assert PlainEntry(t[i].entries[j]);
  }

  /** Every section has a live entry, and a cleared entry has no value. */
  ghost predicate NoneHidden(t: Table) {
    && OneLive(t)
    && forall i :: 0 <= i < |t| ==>
      && (exists j :: 0 <= j < |t[i].entries| && t[i].entries[j].key.Some?)
      && forall j :: 0 <= j < |t[i].entries| && t[i].entries[j].key.None? ==> t[i].entries[j].val.None?
  }

  lemma {:induction false} LiveFound(t: Table, i: nat, j: nat)
    requires OneLive(t) && i < |t| && j < |t[i].entries| && t[i].entries[j].key.Some?
    ensures ValueOf(t, t[i].name, t[i].entries[j].key.value) == Some(t[i].entries[j].val)
  {
    FirstSection(t, t[i].name, i);
    FirstEntry(t[i].entries, t[i].entries[j].key.value, j);
  }

  /**
   * For a table with one live entry per key and no section without one: printing and parsing
   * preserves every lookup if and only if all its texts are plain.
   */
  lemma {:induction false} PrintedTableExactly(t: Table)
    requires NoneHidden(t)
    ensures (Parse(Print(t)).0 && forall s, k :: SameLookup(t, Parse(Print(t)).1, s, k)) <==> PlainTable(t)
  {
    hide Parse, Print, ValueOf, PlainKey, Plain, OneLive;
    var t' := Parse(Print(t)).1;
    if PlainTable(t) {
      assert UniqueNames(t) by { Names(t); }
      PrintedTableRead(t, [], []);
      forall s, k ensures SameLookup(t, t', s, k) { PrintedTableRead(t, s, k); }
    }
    if forall s, k :: SameLookup(t, t', s, k) {
      AllParsedPlain(Print(t));
      forall i, j | 0 <= i < |t| && 0 <= j < |t[i].entries| && t[i].entries[j].key.Some?
        ensures Plain(t[i].name, CLOSE) && PlainEntry(t[i].entries[j])
      {
        LiveFound(t, i, j);
        assert SameLookup(t, t', t[i].name, t[i].entries[j].key.value);
        FoundPlain(t', t[i].name, t[i].entries[j].key.value);
      }
    }
  }

  lemma Names(t: Table)
    requires OneLive(t)
    ensures UniqueNames(t)
  {
  }

  lemma AllParsedPlain(b: Text)
    ensures PlainTable(Parse(b).1)
  {
    ParsedPlain(b, None, []);
  }

  // ---------- printing ----------

  /** A section with one entry: the name in brackets, and behind a tab the key, an equals sign and the value. */
  lemma {:induction false} TableText(name: Text, key: Text, val: Text)
    ensures Print([Section(name, [Entry(Some(key), Some(val))])]) ==
      Ascii("[") + name + Ascii("]\n") + (Ascii("\t") + key + Ascii("=") + val + Ascii("\n"))
    ensures [SEMICOLON, HASH] == Ascii(";#")
  {
    var e := Entry(Some(key), Some(val));
    assert [OPEN] == Ascii("[") && [CLOSE, NEWLINE] == Ascii("]\n") && [TAB] == Ascii("\t");
    assert [EQUALS] == Ascii("=") && [NEWLINE] == Ascii("\n");
    OneEntry(e);
    OneSection(Section(name, [e]));
  }

  lemma OneEntry(e: Entry)
    ensures PrintEntries([e]) == PrintEntry(e)
  {
    hide PrintEntry;
    assert [e][1..] == [] && PrintEntries([]) == [];
  }

  lemma OneSection(x: Section)
    ensures Print([x]) == [OPEN] + x.name + [CLOSE, NEWLINE] + PrintEntries(x.entries)
  {
    hide PrintEntries;
    assert [x][1..] == [] && Print([]) == [];
  }

  lemma EntriesStep(es: seq<Entry>, j: nat)
    requires j < |es|
    ensures PrintEntries(es[..j + 1]) == PrintEntries(es[..j]) + PrintEntry(es[j])
  {
    hide PrintEntry;
    assert es[..j + 1] == es[..j] + [es[j]];
    EntriesJoin(es[..j], [es[j]]);
    assert [es[j]][1..] == [];
  }

  lemma {:induction false} EntriesJoin(a: seq<Entry>, b: seq<Entry>)
    ensures PrintEntries(a + b) == PrintEntries(a) + PrintEntries(b)
  {
    hide PrintEntry;
    if a == [] {
      assert a + b == b;
    } else {
      assert (a + b)[1..] == a[1..] + b;
      EntriesJoin(a[1..], b);
    }
  }

  function PrintSection(s: Section): Text {
    [OPEN] + s.name + [CLOSE, NEWLINE] + PrintEntries(s.entries)
  }

  lemma {:induction false} TablesJoin(a: Table, b: Table)
    ensures Print(a + b) == Print(a) + Print(b)
  {
    hide PrintEntries;
    if a == [] {
      assert a + b == b;
    } else {
      assert (a + b)[1..] == a[1..] + b;
      TablesJoin(a[1..], b);
    }
  }

  lemma TableStep(t: Table, i: nat)
    requires i < |t|
    ensures Print(t[..i + 1]) == Print(t[..i]) + PrintSection(t[i])
  {
    hide PrintEntries;
    assert t[..i + 1] == t[..i] + [t[i]];
    TablesJoin(t[..i], [t[i]]);
    assert [t[i]][1..] == [];
  }

  /** `iniparse_writeto`, up to the file itself: what is written, and the count of bytes returned. */
  method WriteTo(secs: Table) returns (stream: Text, nw: nat)
    ensures stream == Print(secs) && nw == |stream|
  {
    hide PrintEntries, PrintEntry, PrintSection, Print;
    stream, nw := [], 0;
    assert secs[..0] == [] && secs[..|secs|] == secs;
    NothingPrinted();
    for i := 0 to |secs|
      invariant stream == Print(secs[..i]) && nw == |stream|
    {
      TableStep(secs, i);
      stream, nw := WriteSection(secs[i], stream, nw);
    }
  }

  lemma NothingPrinted()
    ensures Print([]) == [] && PrintEntries([]) == []
  {
  }

  method WriteSection(sec: Section, before: Text, count: nat) returns (stream: Text, nw: nat)
    requires count == |before|
    ensures stream == before + PrintSection(sec) && nw == |stream|
  {
    hide PrintEntries;
    var line := [OPEN] + sec.name + [CLOSE, NEWLINE];
    stream, nw := before + line, count + |line|;
    var es := sec.entries;
    NothingPrinted();
    assert es[..0] == [] && es[..|es|] == es;
    for j := 0 to |es|
      invariant stream == before + line + PrintEntries(es[..j]) && nw == |stream|
    {
      EntriesStep(es, j);
      var entry := es[j];
      if entry.key.Some? {
        var text := [TAB] + entry.key.value + [EQUALS] + (if entry.val.Some? then entry.val.value else []) + [NEWLINE];
        stream, nw := stream + text, nw + |text|;
      }
    }
  }

  // ---------- parsing in place ----------

  /** A buffer with a NUL behind its content. */
  ghost predicate Terminated(buf: array<Byte>)
    reads buf
  {
    buf.Length > 0 && buf[buf.Length - 1] == NUL
  }

  /** What the parser has still to read at `p`. */
  ghost function Rest(b: Text, p: nat): Text
    requires b != []
  {
    if p < |b| then b[p..|b| - 1] else []
  }

  /** The scanning loops: they stop at `c`, a newline or the end of the C string. */
  method ScanUntil(buf: array<Byte>, start: nat, c: Byte) returns (p: nat)
    requires Terminated(buf) && start < buf.Length
    ensures p == start + Until(Rest(buf[..], start), c) && p < buf.Length
  {
    p := start;
    while buf[p] != NUL && buf[p] != c && buf[p] != NEWLINE
      invariant start <= p < buf.Length
      invariant forall i :: start <= i < p ==> buf[i] != NUL && buf[i] != c && buf[i] != NEWLINE
      decreases buf.Length - p
    {
      p := p + 1;
    }
    UntilAt(buf[..], start, p, c);
  }

  lemma UntilAt(b: Text, start: nat, p: nat, c: Byte)
    requires start <= p < |b| && forall i :: start <= i < p ==> b[i] != NUL && b[i] != c && b[i] != NEWLINE
    requires b[p] == NUL || b[p] == c || b[p] == NEWLINE
    ensures p == start + Until(Rest(b, start), c)
  {
    var s := Rest(b, start);
    var n := Until(s, c);
    assert n < |s| ==> s[n] == b[start + n];
    assert p - start < |s| ==> s[p - start] == b[p];
  }

  lemma BlanksAt(b: Text, start: nat, p: nat)
    requires start <= p < |b| && forall i :: start <= i < p ==> IsSpace(b[i]) && b[i] != NEWLINE
    requires p == |b| - 1 || !IsSpace(b[p]) || b[p] == NEWLINE
    ensures p == start + Blanks(Rest(b, start))
  {
    var s := Rest(b, start);
    var n := Blanks(s);
    assert n < |s| ==> s[n] == b[start + n];
    assert p - start < |s| ==> s[p - start] == b[p];
  }

  /** `skipspace`. */
  method ScanBlanks(buf: array<Byte>, start: nat) returns (p: nat)
    requires Terminated(buf) && start < buf.Length
    ensures p == start + Blanks(Rest(buf[..], start)) && p < buf.Length
  {
    p := start;
    while buf[p] != NUL && buf[p] != NEWLINE && IsSpace(buf[p])
      invariant start <= p < buf.Length
      invariant forall i :: start <= i < p ==> IsSpace(buf[i]) && buf[i] != NEWLINE
      decreases buf.Length - p
    {
      p := p + 1;
    }
    BlanksAt(buf[..], start, p);
  }

  /** The loops that step back over spaces. */
  method ScanBack(buf: array<Byte>, start: nat, end: nat) returns (p: nat)
    requires start <= end <= buf.Length
    ensures start <= p <= end && buf[start..p] == StripEnd(buf[start..end])
  {
    p := end;
    assert buf[start..end][..end - start] == buf[start..end];
    while p > start && IsSpace(buf[p - 1])
      invariant start <= p <= end
      invariant StripEnd(buf[start..p]) == StripEnd(buf[start..end])
    {
      StripOne(buf[start..p]);
      assert buf[start..p][..p - start - 1] == buf[start..p - 1];
      p := p - 1;
    }
    assert p > start ==> buf[start..p][p - start - 1] == buf[p - 1];
  }

  lemma StripOne(s: Text)
    requires s != [] && IsSpace(s[|s| - 1])
    ensures StripEnd(s) == StripEnd(s[..|s| - 1])
  {
  }

  lemma RestSkip(b: Text, p: nat, n: nat)
    requires b != [] && n <= |Rest(b, p)|
    ensures Rest(b, p)[n..] == Rest(b, p + n)
    ensures n < |Rest(b, p)| ==> Rest(b, p)[n] == b[p + n]
  {
  }

  /** Changes before `p` do not matter to what is read from there. */
  lemma RestKept(b: Text, c: Text, p: nat)
    requires |b| == |c| > 0 && forall i :: p <= i < |b| ==> b[i] == c[i]
    ensures Rest(b, p) == Rest(c, p)
  {
  }

  lemma {:induction false} SkipLineAt(b: Text, p: nat)
    requires b != [] && p < |b|
    ensures var n := Until(Rest(b, p), NEWLINE);
      SkipLine(Rest(b, p)) == if n < |Rest(b, p)| && b[p + n] == NEWLINE then Rest(b, p + n + 1) else Rest(b, p + n)
  {
    hide Until, Rest;
    var n := Until(Rest(b, p), NEWLINE);
    RestSkip(b, p, n);
    if n < |Rest(b, p)| { RestSkip(b, p, n + 1); }
  }

  /** `skipline`. */
  method ScanLine(buf: array<Byte>, start: nat) returns (p: nat)
    requires Terminated(buf) && start < buf.Length
    ensures start <= p < buf.Length && Rest(buf[..], p) == SkipLine(Rest(buf[..], start))
  {
    p := ScanUntil(buf, start, NEWLINE);
    SkipLineAt(buf[..], start);
    if buf[p] == NEWLINE { p := p + 1; }
  }

  /** The text stands in the buffer at `at`, with a NUL behind it that is before `p`. */
  ghost predicate HeldAt(b: Text, p: nat, at: nat, t: Text) {
    at + |t| < p <= |b| && b[at..at + |t|] == t && b[at + |t|] == NUL && IsCString(t)
  }

  /** It does so somewhere from `from` on. */
  ghost predicate Held(b: Text, from: nat, p: nat, t: Text) {
    exists at: nat :: from <= at && HeldAt(b, p, at, t)
  }

  lemma HeldString(b: Text, p: nat, at: nat, t: Text)
    requires HeldAt(b, p, at, t)
    ensures CString(b[at..]) == t
  {
    assert forall i :: 0 <= i < |t| ==> b[at..][i] == b[at..at + |t|][i];
    assert b[at..][|t|] == NUL;
  }

  /** Changes outside leave it alone. */
  lemma HeldKept(b: Text, c: Text, from: nat, p: nat, p': nat, t: Text)
    requires Held(b, from, p, t) && p <= p' <= |c| == |b| && forall i :: from <= i < p ==> c[i] == b[i]
    ensures Held(c, from, p', t)
  {
    var at: nat :| from <= at && HeldAt(b, p, at, t);
    assert b[at..at + |t|] == c[at..at + |t|];
    assert HeldAt(c, p', at, t);
  }

  lemma HeldFrom(b: Text, from: nat, from': nat, p: nat, t: Text)
    requires Held(b, from, p, t) && from' <= from
    ensures Held(b, from', p, t)
  {
  }

  /** Ends the text between two positions with a NUL behind its last byte that is no space, and reads it. */
  method Cut(buf: array<Byte>, start: nat, end: nat) returns (text: Text)
    requires start <= end < buf.Length && forall i :: start <= i < end ==> buf[i] != NUL
    modifies buf
    ensures text == StripEnd(old(buf[start..end]))
    ensures HeldAt(buf[..], end + 1, start, text) && CString(buf[start..]) == text
    ensures forall i :: 0 <= i < buf.Length && (i < start || i > end) ==> buf[i] == old(buf[i])
    ensures old(Terminated(buf)) ==> Terminated(buf)
  {
    var p := ScanBack(buf, start, end);
    ghost var t := buf[start..p];
    buf[p] := NUL;
    assert buf[start..p] == t;
    HeldString(buf[..], end + 1, start, t);
    assert buf[..][start..] == buf[start..];
    text := CString(buf[start..]);
  }

  lemma RestSlice(b: Text, p: nat, n: nat)
    requires b != [] && n <= |Rest(b, p)|
    ensures p < |b| ==> p + n < |b| && Rest(b, p)[..n] == b[p..p + n]
    ensures After(Rest(b, p), n) == Rest(b, p + n + 1)
    ensures p < |b| ==> (n == |Rest(b, p)| <==> p + n == |b| - 1)
  {
    if p < |b| {
      var r := Rest(b, p);
      assert |r| == |b| - 1 - p;
      assert forall k :: 0 <= k < n ==> r[k] == b[p + k];
    }
  }

  /** What is parsed of a section, by positions. */
  lemma {:induction false} SectionAt(b: Text, start: nat, q: nat, p: nat)
    requires start + 1 < |b| && q == start + 1 + Blanks(Rest(b, start + 1))
    requires p == q + Until(Rest(b, q), CLOSE)
    ensures q <= p < |b|
    ensures ParseSection(Rest(b, start)) ==
      if p == |b| - 1 || b[p] != CLOSE then (None, Rest(b, p + 1))
      else (Some(StripEnd(b[q..p])), SkipLine(Rest(b, p + 1)))
    ensures forall i :: q <= i < p ==> b[i] != NUL
  {
    hide *;
    SomeAhead(b, start);
    RestSkip(b, start, 1);
    assert Rest(b, start)[1..] == Rest(b, start + 1);
    RestSkip(b, start + 1, q - start - 1);
    RestSlice(b, start + 1, q - start - 1);
    TextAhead(b, q, p - q);
    SectionFrom(Rest(b, start), Rest(b, q));
  }

  lemma {:induction false} SectionFrom(s: Text, t: Text)
    requires s != [] && t == s[1..][Blanks(s[1..])..]
    ensures var n := Until(t, CLOSE);
      ParseSection(s) ==
        if n == |t| || t[n] != CLOSE then (None, After(t, n)) else (Some(StripEnd(t[..n])), SkipLine(After(t, n)))
  {
    hide *;
    SectionOf(s);
  }

  lemma SomeAhead(b: Text, p: nat)
    requires p + 1 < |b|
    ensures |Rest(b, p)| >= 1
  {
  }

  lemma SectionOf(s: Text)
    requires s != []
    ensures var t := s[1..][Blanks(s[1..])..];
      var n := Until(t, CLOSE);
      ParseSection(s) ==
        if n == |t| || t[n] != CLOSE then (None, After(t, n)) else (Some(StripEnd(t[..n])), SkipLine(After(t, n)))
  {
    hide Blanks, Until, StripEnd, SkipLine;
  }

  lemma ValueOfText(s: Text)
    ensures var v := s[Blanks(s)..];
      var m := Until(v, NEWLINE);
      ParseValue(s) == (StripEnd(v[..m]), After(v, m))
  {
    hide Blanks, Until, StripEnd;
  }

  lemma EntryOf(s: Text)
    requires s != [] && s[0] != NEWLINE && s[0] != NUL
    ensures var n := Until(s, EQUALS);
      ParseEntry(s) ==
        if n < |s| && s[n] == EQUALS then
          var (val, rest) := ParseValue(After(s, n)); (StripEnd(s[..n]), Some(val), rest)
        else (StripEnd(s[..n]), None, SkipLine(After(s, n)))
  {
    hide Until, StripEnd, SkipLine, ParseValue;
  }

  /** The text from `p` on, up to where a scan has stopped. */
  lemma TextAhead(b: Text, p: nat, n: nat)
    requires p < |b| && n <= |Rest(b, p)|
    requires forall i :: 0 <= i < n ==> Rest(b, p)[i] != NUL
    ensures p + n < |b| && Rest(b, p)[..n] == b[p..p + n] && After(Rest(b, p), n) == Rest(b, p + n + 1)
    ensures n == |Rest(b, p)| <==> p + n == |b| - 1
    ensures n < |Rest(b, p)| ==> Rest(b, p)[n] == b[p + n]
    ensures forall i :: p <= i < p + n ==> b[i] != NUL
  {
    RestSlice(b, p, n);
    RestSkip(b, p, n);
    var r := Rest(b, p);
    assert |r| == |b| - 1 - p;
    forall i | p <= i < p + n ensures b[i] != NUL {
      assert b[i] == r[i - p];
    }
  }

  lemma ValueAt(b: Text, start: nat, v: nat, p: nat)
    requires start < |b| && v == start + Blanks(Rest(b, start)) && p == v + Until(Rest(b, v), NEWLINE)
    ensures v <= p < |b|
    ensures ParseValue(Rest(b, start)) == (StripEnd(b[v..p]), Rest(b, p + 1))
    ensures forall i :: v <= i < p ==> b[i] != NUL
  {
    hide *;
    RestSkip(b, start, v - start);
    RestSlice(b, start, v - start);
    TextAhead(b, v, p - v);
    ValueOfText(Rest(b, start));
  }

  lemma {:induction false} EntryAt(b: Text, start: nat, p: nat)
    requires start + 1 < |b| && b[start] != NEWLINE && b[start] != NUL && p == start + Until(Rest(b, start), EQUALS)
    ensures start <= p < |b| && Rest(b, start) != [] && Rest(b, start)[0] == b[start]
    ensures Rest(b, start)[0] != NEWLINE && Rest(b, start)[0] != NUL
    ensures ParseEntry(Rest(b, start)) ==
      if p < |b| - 1 && b[p] == EQUALS then
        var (val, rest) := ParseValue(Rest(b, p + 1)); (StripEnd(b[start..p]), Some(val), rest)
      else (StripEnd(b[start..p]), None, SkipLine(Rest(b, p + 1)))
    ensures forall i :: start <= i < p ==> b[i] != NUL
  {
    hide *;
    NotAtEnd(b, start);
    TextAhead(b, start, p - start);
    EntryOf(Rest(b, start));
  }

  lemma NotAtEnd(b: Text, start: nat)
    requires start + 1 < |b| && b[start] != NEWLINE && b[start] != NUL
    ensures Rest(b, start) != [] && Rest(b, start)[0] == b[start]
    ensures Rest(b, start)[0] != NEWLINE && Rest(b, start)[0] != NUL
  {
  }

  /** `parse_section`, at the opening bracket. */
  method SectionParse(buf: array<Byte>, start: nat) returns (name: Option<Text>, next: nat)
    requires Terminated(buf) && start + 1 < buf.Length
    modifies buf
    ensures Terminated(buf) && start < next <= buf.Length
    ensures (name, Rest(old(buf[..]), next)) == ParseSection(Rest(old(buf[..]), start))
    ensures name.Some? ==> Held(buf[..], start, next, name.value)
    ensures forall i :: 0 <= i < start || next <= i < buf.Length ==> buf[i] == old(buf[i])
  {
    hide *;
    ghost var b := buf[..];
    LastIsNul(buf);
    var q := ScanBlanks(buf, start + 1);
    Delimiters();
    var p := ScanUntil(buf, q, CLOSE);
    SectionAt(b, start, q, p);
    if buf[p] != CLOSE { return None, p + 1; }
    assert buf[q..p] == b[q..p];
    var text := Cut(buf, q, p);
    RestKept(b, buf[..], p + 1);
    next := ScanLine(buf, p + 1);
    RestKept(b, buf[..], next);
    IsHeld(buf[..], start, p + 1, q, next, text);
    name := Some(text);
  }

  lemma IsHeld(b: Text, from: nat, p: nat, at: nat, p': nat, t: Text)
    requires HeldAt(b, p, at, t) && from <= at && p <= p' <= |b|
    ensures Held(b, from, p', t)
  {
    assert HeldAt(b, p', at, t);
  }

  lemma Delimiters()
    ensures CLOSE != NUL && EQUALS != NUL
  {
  }

  lemma LastIsNul(buf: array<Byte>)
    requires Terminated(buf)
    ensures buf.Length > 0 && buf[buf.Length - 1] == NUL
  {
  }

  method ValueParse(buf: array<Byte>, start: nat) returns (val: Text, next: nat)
    requires Terminated(buf) && start < buf.Length
    modifies buf
    ensures Terminated(buf) && start < next <= buf.Length
    ensures (val, Rest(old(buf[..]), next)) == ParseValue(Rest(old(buf[..]), start))
    ensures Held(buf[..], start, next, val)
    ensures forall i :: 0 <= i < start || next <= i < buf.Length ==> buf[i] == old(buf[i])
  {
    hide *;
    ghost var b := buf[..];
    var v := ScanBlanks(buf, start);
    var p := ScanUntil(buf, v, NEWLINE);
    ValueAt(b, start, v, p);
    assert buf[v..p] == b[v..p];
    val := Cut(buf, v, p);
    next := p + 1;
    IsHeld(buf[..], start, next, v, next, val);
  }

  /** `parse_entry`. */
  method EntryParse(buf: array<Byte>, start: nat) returns (key: Text, val: Option<Text>, next: nat)
    requires Terminated(buf) && start + 1 < buf.Length && buf[start] != NEWLINE && buf[start] != NUL
    modifies buf
    ensures Terminated(buf) && start < next <= buf.Length
    ensures Rest(old(buf[..]), start) != [] && Rest(old(buf[..]), start)[0] == old(buf[start])
    ensures Rest(old(buf[..]), start)[0] != NEWLINE && Rest(old(buf[..]), start)[0] != NUL
    ensures (key, val, Rest(old(buf[..]), next)) == ParseEntry(Rest(old(buf[..]), start))
    ensures CString(buf[start..]) == key && (val.Some? ==> Held(buf[..], start, next, val.value))
    ensures forall i :: 0 <= i < start || next <= i < buf.Length ==> buf[i] == old(buf[i])
  {
    hide *;
    ghost var b := buf[..];
    LastIsNul(buf);
    Delimiters();
    var p := ScanUntil(buf, start, EQUALS);
    EntryAt(b, start, p);
    assert buf[start..p] == b[start..p];
    if buf[p] == EQUALS {
      var text;
      text, next := ValueParse(buf, p + 1);
      val := Some(text);
      assert buf[start..p] == b[start..p];
    } else {
      val := None;
      if p + 1 < buf.Length {
        next := ScanLine(buf, p + 1);
      } else {
        next := p + 1;
        NoLine();
        RestEnd(b, next);
      }
    }
    assert forall i :: start <= i < p ==> buf[i] != NUL;
    ghost var c := buf[..];
    key := Cut(buf, start, p);
    if val.Some? {
      HeldKept(c, buf[..], p + 1, next, next, val.value);
      HeldFrom(buf[..], p + 1, start, next, val.value);
    }
  }

  lemma RestEnd(b: Text, p: nat)
    requires b != [] && p >= |b|
    ensures Rest(b, p) == []
  {
  }

  lemma WholeRest(b: Text)
    requires b != []
    ensures Rest(b, 0) == b[..|b| - 1]
  {
  }

  lemma NothingLeft(b: Text, p: nat, sec: Option<Text>, t: Table)
    requires b != [] && p >= |b| - 1
    ensures ParseFrom(Rest(b, p), sec, t) == (true, t)
  {
  }

  /** A line skipped ends further on. */
  lemma LineTaken(b: Text, q: nat, p: nat)
    requires q + 1 < |b| && b[q] != NUL && p < |b| && Rest(b, p) == SkipLine(Rest(b, q))
    ensures q < p
  {
    assert Rest(b, q)[0] == b[q];
    SkipLineShorter(Rest(b, q));
  }

  /** The line at `p`, whose blanks end at `q`. */
  lemma {:induction false} LineAt(b: Text, p: nat, q: nat, sec: Option<Text>, t: Table)
    requires p < |b| && q == p + Blanks(Rest(b, p)) && b[|b| - 1] == NUL
    ensures q < |b| && (b[q] != NUL ==> q + 1 < |b|)
    ensures b[q] == NUL ==> ParseFrom(Rest(b, p), sec, t) == (true, t)
    ensures b[q] == NEWLINE || b[q] == SEMICOLON || b[q] == HASH ==>
      ParseFrom(Rest(b, p), sec, t) == ParseFrom(SkipLine(Rest(b, q)), sec, t)
    ensures b[q] == OPEN ==>
      && Rest(b, q) != []
      && ParseFrom(Rest(b, p), sec, t) == ParseFrom(ParseSection(Rest(b, q)).1, ParseSection(Rest(b, q)).0, t)
    ensures b[q] != NUL && b[q] != NEWLINE && b[q] != SEMICOLON && b[q] != HASH && b[q] != OPEN ==>
      var u := Rest(b, q);
      && u != [] && u[0] != NEWLINE && u[0] != NUL
      && ParseFrom(Rest(b, p), sec, t) ==
        if sec.None? then (false, t)
        else ParseFrom(ParseEntry(u).2, sec, Put(t, sec.value, ParseEntry(u).0, ParseEntry(u).1))
  {
    hide Blanks, SkipLine, ParseSection, ParseEntry, Put;
    RestSkip(b, p, q - p);
    RestSlice(b, p, q - p);
    assert b[q] != NUL ==> Rest(b, q)[0] == b[q];
  }

  lemma NoLine()
    ensures SkipLine([]) == []
  {
  }

  // ---------- the file ----------

  class IniFile {
    var secs: Table

    constructor ()
      ensures secs == []
    {
      secs := [];
    }

    /** `getentry`: where the entry is. */
    method GetEntry(sec: Text, key: Text) returns (found: bool, i: nat, j: nat)
      ensures found <==> ValueOf(secs, sec, key).Some?
      ensures found ==> i == SectionIndex(secs, sec) && i < |secs|
      ensures found ==> j == EntryIndex(secs[i].entries, key) && j < |secs[i].entries|
    {
      i, j := 0, 0;
      while i < |secs|
        invariant i <= |secs| && forall k :: 0 <= k < i ==> secs[k].name != sec
      {
        if secs[i].name == sec {
          FirstSection(secs, sec, i);
          while j < |secs[i].entries|
            invariant j <= |secs[i].entries| && forall k :: 0 <= k < j ==> secs[i].entries[k].key != Some(key)
          {
            if secs[i].entries[j].key == Some(key) {
              FirstEntry(secs[i].entries, key, j);
              return true, i, j;
            }
            j := j + 1;
          }
          FirstEntry(secs[i].entries, key, j);
          return false, i, j;
        }
        i := i + 1;
      }
      FirstSection(secs, sec, i);
      found := false;
    }

    /** `iniparse_get`. */
    method Get(sec: Text, key: Text) returns (val: Option<Text>)
      ensures val == if ValueOf(secs, sec, key).Some? then ValueOf(secs, sec, key).value else None
    {
      var found, i, j := GetEntry(sec, key);
      if !found { return None; }
      val := secs[i].entries[j].val;
    }

    method PutEntry(sec: Text, key: Text, val: Option<Text>)
      modifies this
      ensures secs == Put(old(secs), sec, key, val)
    {
      var i := 0;
      while i < |secs|
        invariant i <= |secs| && secs == old(secs) && forall k :: 0 <= k < i ==> secs[k].name != sec
      {
        if secs[i].name == sec {
          FirstSection(secs, sec, i);
          secs := secs[i := secs[i].(entries := secs[i].entries + [Entry(Some(key), val)])];
          return;
        }
        i := i + 1;
      }
      FirstSection(secs, sec, i);
      secs := secs + [Section(sec, [Entry(Some(key), val)])];
    }

    /** `iniparse_set`: an update of this key of this section, and of no other. */
    method Set(sec: Text, key: Text, val: Option<Text>)
      modifies this
      ensures forall s, k ::
        ValueOf(secs, s, k) == if s == sec && k == key then Some(val) else ValueOf(old(secs), s, k)
      ensures OneLive(old(secs)) ==> OneLive(secs)
    {
      ghost var t := secs;
      var found, i, j := GetEntry(sec, key);
      if found {
        secs := secs[i := secs[i].(entries := secs[i].entries[j := Entry(Some(key), val)])];
        forall s, k ensures ValueOf(secs, s, k) == if s == sec && k == key then Some(val) else ValueOf(t, s, k) {
          ValueAfterReplace(t, i, j, Entry(Some(key), val), s, k);
        }
      } else {
        PutEntry(sec, key, val);
        PutUnique(t, sec, key, val);
        forall s, k ensures ValueOf(secs, s, k) == if s == sec && k == key then Some(val) else ValueOf(t, s, k) {
          ValueAfterPut(t, sec, key, val, s, k);
        }
      }
    }

    /** `iniparse_parse`, on a buffer that a NUL follows. */
    method Parse(buf: array<Byte>) returns (ok: bool)
      requires Terminated(buf)
      modifies this, buf
      ensures (ok, secs) == ParseFrom(old(buf[..buf.Length - 1]), None, old(secs))
    {
      hide *;
      LastIsNul(buf);
      ghost var b, whole := buf[..], ParseFrom(buf[..buf.Length - 1], None, secs);
      WholeRest(b);
      assert buf[..buf.Length - 1] == b[..|b| - 1];
      var p, sec := 0, None;
      while p < buf.Length - 1
        invariant p <= buf.Length && Terminated(buf)
        invariant forall i :: p <= i < buf.Length ==> buf[i] == b[i]
        invariant whole == ParseFrom(Rest(b, p), sec, secs)
        invariant sec.Some? ==> Held(buf[..], 0, p, sec.value)
        decreases buf.Length - p
      {
        LastIsNul(buf);
        RestKept(b, buf[..], p);
        var q := ScanBlanks(buf, p);
        LineAt(b, p, q, sec, secs);
        ghost var now, done := buf[..], p;
        RestKept(b, now, q);
        if buf[q] == NUL { return true; }
        if buf[q] == NEWLINE || buf[q] == SEMICOLON || buf[q] == HASH {
          p := ScanLine(buf, q);
          RestKept(b, now, p);
          LineTaken(b, q, p);
          if sec.Some? { HeldKept(now, buf[..], 0, done, p, sec.value); }
        } else if buf[q] == OPEN {
          sec, p := SectionParse(buf, q);
          if sec.Some? { HeldFrom(buf[..], q, 0, p, sec.value); }
          RestKept(b, now, p);
        } else {
          var key, val, next := EntryParse(buf, q);
          RestKept(b, now, next);
          if sec.None? { return false; }
          PutEntry(sec.value, key, val);
          HeldKept(now, buf[..], 0, done, next, sec.value);
          p := next;
        }
      }
      NothingLeft(b, p, sec, secs);
      ok := true;
    }

    /** `iniparse_unset`: fails without such an entry, otherwise takes away the key and the value. */
    method Unset(sec: Text, key: Text) returns (ok: bool)
      modifies this
      ensures ok <==> ValueOf(old(secs), sec, key).Some?
      ensures secs == Without(old(secs), sec, key)
      ensures OneLive(old(secs)) ==> OneLive(secs) && forall s, k ::
        ValueOf(secs, s, k) == if s == sec && k == key then None else ValueOf(old(secs), s, k)
    {
      ghost var t := secs;
      var found, i, j := GetEntry(sec, key);
      if found {
        secs := secs[i := secs[i].(entries := secs[i].entries[j := Entry(None, None)])];
      }
      if OneLive(t) {
        WithoutUnique(t, sec, key);
        forall s, k ensures ValueOf(secs, s, k) == if s == sec && k == key then None else ValueOf(t, s, k) {
          ValueAfterUnset(t, sec, key, s, k);
        }
      }
      ok := found;
    }
  }
}
