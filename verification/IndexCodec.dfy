/** The index file, version 2: writing it and parsing it back (index_write.c, index_parse.c). */
module IndexCodec {
  import opened Bytes
  import opened Index
  import opened Libc
  import opened Options
  import opened Sorting

  const WORD: nat := 0x1_0000_0000
  const HALF: nat := 0x1_0000
  const HEADER_SIZE: nat := 12
  /** "DIRC". */
  const MAGIC: Text := [68, 73, 82, 67]

  // ---------- big-endian integers ----------

  /** `put_be32`: keeps the low 32 bits. */
  function Be32(x: int): (s: Text)
    ensures |s| == 4
  {
    var w := x % WORD;
    [w / 0x100_0000, w / 0x1_0000 % 0x100, w / 0x100 % 0x100, w % 0x100]
  }

  /** `get_be32` at offset `i`. */
  function GetBe32(s: Text, i: nat): (x: nat)
    requires i + 4 <= |s|
    ensures x < WORD
  {
    var a: int, b: int, c: int, d: int := s[i], s[i + 1], s[i + 2], s[i + 3];
    0x100_0000 * a + 0x1_0000 * b + 0x100 * c + d
  }

  function Be16(x: nat): (s: Text)
    ensures |s| == 2
  {
    [x / 0x100 % 0x100, x % 0x100]
  }

  function GetBe16(s: Text, i: nat): (x: nat)
    requires i + 2 <= |s|
    ensures x < HALF
  {
    var a: int, b: int := s[i], s[i + 1];
    0x100 * a + b
  }

  lemma {:induction false} Be32RoundTrip(x: int, s: Text, i: nat)
    requires i + 4 <= |s| && s[i..i + 4] == Be32(x)
    ensures GetBe32(s, i) == x % WORD
  {
    assert s[i..i + 4][0] == s[i] && s[i..i + 4][1] == s[i + 1];
    assert s[i..i + 4][2] == s[i + 2] && s[i..i + 4][3] == s[i + 3];
    BytesOf(x % WORD);
  }

  lemma BytesOf(w: nat)
    ensures w == 0x100_0000 * (w / 0x100_0000) + 0x1_0000 * (w / 0x1_0000 % 0x100)
                 + 0x100 * (w / 0x100 % 0x100) + w % 0x100
  {
    assert w / 0x100 / 0x100 == w / 0x1_0000 && w / 0x1_0000 / 0x100 == w / 0x100_0000;
  }

  lemma Be16RoundTrip(x: nat, s: Text, i: nat)
    requires i + 2 <= |s| && s[i..i + 2] == Be16(x) && x < HALF
    ensures GetBe16(s, i) == x
  {
    assert s[i..i + 2][0] == s[i] && s[i..i + 2][1] == s[i + 1];
  }

  /** Consecutive 32-bit words. */
  function Words(ws: seq<int>): (s: Text)
    ensures |s| == 4 * |ws|
  {
    if ws == [] then [] else Be32(ws[0]) + Words(ws[1..])
  }

  lemma {:induction false} WordsSnoc(ws: seq<int>, x: int)
    ensures Words(ws + [x]) == Words(ws) + Be32(x)
  {
    if ws == [] {
      assert ws + [x] == [x] && Words([x][1..]) == [];
    } else {
      assert (ws + [x])[1..] == ws[1..] + [x];
      WordsSnoc(ws[1..], x);
    }
  }

  lemma {:induction false} WordAt(ws: seq<int>, k: nat)
    requires k < |ws|
    ensures Words(ws)[4 * k..4 * k + 4] == Be32(ws[k])
  {
    if k > 0 {
      WordAt(ws[1..], k - 1);
      assert Words(ws)[4 * k..4 * k + 4] == Words(ws[1..])[4 * (k - 1)..4 * (k - 1) + 4];
    }
  }

  // ---------- one entry ----------

  /** `ALIGN(n, 8)`. */
  function Align8(n: nat): (m: nat)
    ensures n <= m < n + 8 && m % 8 == 0
  {
    (n + 7) / 8 * 8
  }

  function Zeros(n: nat): (s: Text)
    ensures |s| == n
  {
    seq(n, _ => NUL)
  }

  /** The ten leading words of an entry. */
  function Fields(e: IndexEntry): (ws: seq<int>)
    ensures |ws| == 10
  {
    [e.ctimeSeconds, e.ctimeNanoseconds, e.mtimeSeconds, e.mtimeNanoseconds,
     e.dev, e.ino, e.mode, e.uid, e.gid, e.fileSize]
  }

  function EntrySize(e: IndexEntry): nat {
    Align8(63 + |e.path|)
  }

  function PrintEntry(e: IndexEntry): (s: Text)
    ensures |s| == EntrySize(e)
  {
    Words(Fields(e)) + e.oid + Be16(e.flags) + e.path + [NUL] + Zeros(EntrySize(e) - (63 + |e.path|))
  }

  /** The length field says 0xFFF for every path of that length or more. */
  function LengthField(path: Text): nat {
    if |path| < NAMEMASK then |path| else NAMEMASK
  }

  /** The flags agree with the path, and the extended bit is clear. */
  predicate FlagsOk(e: IndexEntry) {
    e.flags % 0x1000 == LengthField(e.path) && e.flags / 0x4000 % 2 == 0
  }

  /** What the C types can hold: words of 32 bits, flags of 16 and a C string. */
  predicate Representable(e: IndexEntry) {
    && e.ctimeNanoseconds < WORD && e.mtimeNanoseconds < WORD
    && e.dev < WORD && e.ino < WORD && e.mode < WORD && e.uid < WORD && e.gid < WORD && e.fileSize < WORD
    && e.flags < HALF && IsCString(e.path)
  }

  /** The file keeps 32 bits of the times. */
  function Stored(e: IndexEntry): IndexEntry {
    e.(ctimeSeconds := e.ctimeSeconds % WORD, mtimeSeconds := e.mtimeSeconds % WORD)
  }

  /** `parse_entry` on the bytes up to the checksum: the entry and how many bytes it takes. */
  function ParseEntry(s: Text): (r: Option<(IndexEntry, nat)>)
    ensures r.Some? ==> 0 < r.value.1 <= |s|
  {
    if |s| < 62 then None
    else
      var flags := GetBe16(s, 60);
      var z := Find(s[62..], NUL);
      if flags / 0x4000 % 2 == 1 || z == |s| - 62 then None
      else if flags % 0x1000 != (if z < NAMEMASK then z else NAMEMASK) then None
      else if Align8(63 + z) > |s| then None
      else Some((EntryOf(s, flags, s[62..62 + z]), Align8(63 + z)))
  }

  function EntryOf(s: Text, flags: nat, path: Text): IndexEntry
    requires |s| >= 60
  {
    IndexEntry(GetBe32(s, 0), GetBe32(s, 4), GetBe32(s, 8), GetBe32(s, 12), GetBe32(s, 16), GetBe32(s, 20),
               GetBe32(s, 24), GetBe32(s, 28), GetBe32(s, 32), GetBe32(s, 36), s[40..60], flags, path)
  }

  lemma FieldsReadBack(e: IndexEntry, s: Text)
    requires Representable(e) && Words(Fields(e)) + e.oid <= s
    ensures EntryOf(s, e.flags, e.path) == Stored(e)
  {
    hide GetBe32, Be32, Words;
    var ws := Fields(e);
    forall k | 0 <= k < 10 ensures GetBe32(s, 4 * k) == ws[k] % WORD {
      WordAt(ws, k);
      assert s[4 * k..4 * k + 4] == Words(ws)[4 * k..4 * k + 4];
      Be32RoundTrip(ws[k], s, 4 * k);
    }
    assert GetBe32(s, 4 * 0) == ws[0] % WORD && GetBe32(s, 4 * 1) == ws[1] % WORD;
    assert GetBe32(s, 4 * 2) == ws[2] % WORD && GetBe32(s, 4 * 3) == ws[3] % WORD;
    assert GetBe32(s, 4 * 4) == ws[4] % WORD && GetBe32(s, 4 * 5) == ws[5] % WORD;
    assert GetBe32(s, 4 * 6) == ws[6] % WORD && GetBe32(s, 4 * 7) == ws[7] % WORD;
    assert GetBe32(s, 4 * 8) == ws[8] % WORD && GetBe32(s, 4 * 9) == ws[9] % WORD;
    assert s[40..60] == e.oid;
  }

  /** A printed entry is read back if its flags are consistent, and refused otherwise. */
  lemma EntryRoundTrip(e: IndexEntry, rest: Text)
    requires Representable(e)
    ensures ParseEntry(PrintEntry(e) + rest) == if FlagsOk(e) then Some((Stored(e), EntrySize(e))) else None
  {
    hide *;
    PrintedWith(e);
    EntryRead(e, Zeros(EntrySize(e) - (63 + |e.path|)), rest);
  }

  lemma PrintedWith(e: IndexEntry)
    ensures EntrySize(e) >= 63 + |e.path|
    ensures PrintEntry(e) ==
      Words(Fields(e)) + e.oid + Be16(e.flags) + e.path + [NUL] + Zeros(EntrySize(e) - (63 + |e.path|))
  {
  }

  lemma EntryRead(e: IndexEntry, pad: Text, rest: Text)
    requires Representable(e) && |pad| == EntrySize(e) - (63 + |e.path|)
    ensures ParseEntry(Words(Fields(e)) + e.oid + Be16(e.flags) + e.path + [NUL] + pad + rest) ==
      if FlagsOk(e) then Some((Stored(e), EntrySize(e))) else None
  {
    hide GetBe32, GetBe16, Be16, Words, Fields, EntryOf, Find;
    var s := Words(Fields(e)) + e.oid + Be16(e.flags) + e.path + [NUL] + pad + rest;
    var head := Words(Fields(e)) + e.oid;
    assert s == head + (Be16(e.flags) + e.path + [NUL] + pad + rest);
    FieldsReadBack(e, s);
    assert s[60..62] == Be16(e.flags);
    Be16RoundTrip(e.flags, s, 60);
    assert s[62..] == e.path + ([NUL] + pad + rest);
    FindExact(e.path, NUL, [NUL] + pad + rest);
    assert s[62..62 + |e.path|] == e.path;
  }

  /** What the parser accepts is representable and consistent, and nothing of it is lost in a file. */
  lemma ParsedEntry(s: Text)
    requires ParseEntry(s).Some?
    ensures var e := ParseEntry(s).value.0; Representable(e) && FlagsOk(e) && Stored(e) == e
    ensures ParseEntry(s).value.1 == EntrySize(ParseEntry(s).value.0)
  {
  }

  // ---------- a whole file ----------

  function PrintEntries(es: seq<IndexEntry>): Text {
    if es == [] then [] else PrintEntry(es[0]) + PrintEntries(es[1..])
  }

  /** Every entry starts at a multiple of eight bytes after the header. */
  lemma {:induction false} EntriesAligned(es: seq<IndexEntry>)
    ensures |PrintEntries(es)| % 8 == 0
  {
    if es != [] {
      EntriesAligned(es[1..]);
    }
  }

  function PrintHeader(version: nat, count: nat): (s: Text)
    ensures |s| == HEADER_SIZE
  {
    MAGIC + Be32(version) + Be32(count)
  }

  /** The bytes that the checksum covers. */
  function PrintBody(version: nat, es: seq<IndexEntry>): Text {
    PrintHeader(version, |es|) + PrintEntries(es)
  }

  function PrintIndex(sha1: Text -> Oid, version: nat, es: seq<IndexEntry>): Text {
    var body := PrintBody(version, es);
    body + sha1(body)
  }

  function ParseEntries(s: Text, count: nat): (r: Option<(seq<IndexEntry>, nat)>)
    ensures r.Some? ==> |r.value.0| == count && r.value.1 <= |s|
  {
    if count == 0 then Some(([], 0))
    else
      match ParseEntry(s)
      case None => None
      case Some((e, used)) =>
        match ParseEntries(s[used..], count - 1)
        case None => None
        case Some((es, more)) => Some(([e] + es, used + more))
  }

  /** Blocks of an eight-byte header and as many bytes as it says, up to the checksum. */
  predicate Extensions(s: Text) {
    s == [] || (|s| >= 8 && GetBe32(s, 4) <= |s| - 8 && Extensions(s[8 + GetBe32(s, 4)..]))
  }

  predicate HeaderOk(buf: Text) {
    |buf| >= HEADER_SIZE + RAWSZ && buf[..4] == MAGIC && GetBe32(buf, 4) == INDEX_VERSION
  }

  function Body(buf: Text): Text
    requires HeaderOk(buf)
  {
    buf[HEADER_SIZE..|buf| - RAWSZ]
  }

  predicate ChecksumOk(sha1: Text -> Oid, buf: Text)
    requires HeaderOk(buf)
  {
    sha1(buf[..|buf| - RAWSZ]) == buf[|buf| - RAWSZ..]
  }

  function ParseIndex(sha1: Text -> Oid, buf: Text): Option<seq<IndexEntry>> {
    if !HeaderOk(buf) then None
    else
      match ParseEntries(Body(buf), GetBe32(buf, 8))
      case None => None
      case Some((es, used)) =>
        if Extensions(Body(buf)[used..]) && ChecksumOk(sha1, buf) then Some(es) else None
  }

  function StoredAll(es: seq<IndexEntry>): (r: seq<IndexEntry>)
    ensures |r| == |es| && forall i :: 0 <= i < |es| ==> r[i] == Stored(es[i])
  {
    seq(|es|, i requires 0 <= i < |es| => Stored(es[i]))
  }

  ghost predicate AllRepresentable(es: seq<IndexEntry>) {
    forall i :: 0 <= i < |es| ==> Representable(es[i])
  }

  ghost predicate AllFlagsOk(es: seq<IndexEntry>) {
    forall i :: 0 <= i < |es| ==> FlagsOk(es[i])
  }

  lemma {:induction false} EntriesRoundTrip(es: seq<IndexEntry>)
    requires AllRepresentable(es)
    ensures ParseEntries(PrintEntries(es), |es|) ==
      if AllFlagsOk(es) then Some((StoredAll(es), |PrintEntries(es)|)) else None
  {
    hide ParseEntry, PrintEntry, FlagsOk, Representable, Stored;
    if es == [] {
      assert StoredAll(es) == [];
    } else {
      var s := PrintEntries(es);
      EntryRoundTrip(es[0], PrintEntries(es[1..]));
      assert es == [es[0]] + es[1..];
      if FlagsOk(es[0]) {
        assert s[EntrySize(es[0])..] == PrintEntries(es[1..]);
        EntriesRoundTrip(es[1..]);
        assert AllFlagsOk(es) <==> AllFlagsOk(es[1..]);
        assert StoredAll(es) == [Stored(es[0])] + StoredAll(es[1..]);
      }
    }
  }

  lemma {:induction false} HeaderReadBack(sha1: Text -> Oid, version: nat, es: seq<IndexEntry>)
    requires version < WORD && |es| < WORD
    ensures var buf := PrintIndex(sha1, version, es);
      && (HeaderOk(buf) <==> version == INDEX_VERSION)
      && GetBe32(buf, 8) == |es|
      && (HeaderOk(buf) ==> Body(buf) == PrintEntries(es) && ChecksumOk(sha1, buf))
  {
    hide *;
    var head, entries := PrintHeader(version, |es|), PrintEntries(es);
    IndexParts(sha1, version, es);
    assert head + entries + sha1(head + entries) == head + (entries + sha1(head + entries));
    HeadReadBack(version, |es|, entries + sha1(head + entries));
    BodyReadBack(head, entries, sha1);
  }

  lemma IndexParts(sha1: Text -> Oid, version: nat, es: seq<IndexEntry>)
    ensures var head, entries := PrintHeader(version, |es|), PrintEntries(es);
      PrintIndex(sha1, version, es) == head + entries + sha1(head + entries)
  {
  }

  lemma HeadReadBack(version: nat, count: nat, rest: Text)
    requires version < WORD && count < WORD && |rest| >= 20
    ensures var buf := PrintHeader(version, count) + rest;
      (HeaderOk(buf) <==> version == INDEX_VERSION) && GetBe32(buf, 8) == count
  {
    hide Be32, GetBe32;
    var buf := PrintHeader(version, count) + rest;
    assert buf[..4] == MAGIC;
    assert buf[4..8] == Be32(version) && buf[8..12] == Be32(count);
    Be32RoundTrip(version, buf, 4);
    Be32RoundTrip(count, buf, 8);
  }

  lemma BodyReadBack(head: Text, entries: Text, sha1: Text -> Oid)
    requires |head| == HEADER_SIZE
    ensures var buf := head + entries + sha1(head + entries);
      HeaderOk(buf) ==> Body(buf) == entries && ChecksumOk(sha1, buf)
  {
    hide GetBe32;
    var buf := head + entries + sha1(head + entries);
    assert buf[..|buf| - RAWSZ] == head + entries && buf[|buf| - RAWSZ..] == sha1(head + entries);
    assert (head + entries)[HEADER_SIZE..] == entries;
  }

  /**
   * Parsing a written index gives the entries back, field for field, if and only if all flags are
   * consistent with the paths (of any length); otherwise it is refused.
   */
  lemma {:induction false} IndexRoundTrip(sha1: Text -> Oid, version: nat, es: seq<IndexEntry>)
    requires AllRepresentable(es) && version < WORD && |es| < WORD
    ensures ParseIndex(sha1, PrintIndex(sha1, version, es)) ==
      if version == INDEX_VERSION && AllFlagsOk(es) then Some(StoredAll(es)) else None
  {
    hide PrintIndex, HeaderOk, Body, ChecksumOk, ParseEntries, PrintEntries, GetBe32, AllFlagsOk;
    HeaderReadBack(sha1, version, es);
    EntriesRoundTrip(es);
    assert PrintEntries(es)[|PrintEntries(es)|..] == [];
  }

  lemma {:induction false} ParsedEntries(s: Text, count: nat)
    requires ParseEntries(s, count).Some?
    ensures var es := ParseEntries(s, count).value.0;
      AllRepresentable(es) && AllFlagsOk(es) && StoredAll(es) == es
    decreases count
  {
    hide ParseEntry, FlagsOk, Representable, Stored;
    if count == 0 {
      assert StoredAll([]) == [];
    } else {
      var e, used := ParseEntry(s).value.0, ParseEntry(s).value.1;
      ParsedEntry(s);
      ParsedEntries(s[used..], count - 1);
    }
  }

  /**
   * Whatever the parser accepts, with any extensions and padding: written again in index order, it
   * is accepted again, with the same entries.
   */
  lemma {:induction false} AcceptedAgain(sha1: Text -> Oid, buf: Text, es: seq<IndexEntry>)
    requires ParseIndex(sha1, buf).Some?
    requires multiset(es) == multiset(ParseIndex(sha1, buf).value)
    ensures ParseIndex(sha1, PrintIndex(sha1, INDEX_VERSION, es)) == Some(es)
  {
    var was := ParseIndex(sha1, buf).value;
    ParsedEntries(Body(buf), GetBe32(buf, 8));
    hide ParseEntries, PrintIndex, FlagsOk, Representable, Stored, ParseIndex, GetBe32;
    PermutationMembers(was, es);
    forall i | 0 <= i < |es| ensures Representable(es[i]) && FlagsOk(es[i]) && Stored(es[i]) == es[i] {
      assert es[i] in was;
      var j :| 0 <= j < |was| && was[j] == es[i];
      assert StoredAll(was)[j] == Stored(was[j]);
    }
    IndexRoundTrip(sha1, INDEX_VERSION, es);
    assert StoredAll(es) == es;
  }

  /** The flags that adding a file to the index gives its entry are consistent, and hold the stage. */
  lemma AddedFlagsOk(e: IndexEntry, stage: nat)
    requires stage < 4 && e.flags == stage * 0x1000 + LengthField(e.path)
    ensures FlagsOk(e) && Stage(e) == stage && e.flags < HALF
  {
  }

  // ---------- writing ----------

  lemma PrintPrefix(es: seq<IndexEntry>, i: nat)
    requires i < |es|
    ensures PrintEntries(es[..i + 1]) == PrintEntries(es[..i]) + PrintEntry(es[i])
    ensures |PrintEntries(es[..i + 1])| <= |PrintEntries(es)|
  {
    assert es[..i + 1] == es[..i] + [es[i]];
    PrintSplit(es[..i], [es[i]]);
    assert PrintEntries([es[i]]) == PrintEntry(es[i]);
    assert es == es[..i + 1] + es[i + 1..];
    PrintSplit(es[..i + 1], es[i + 1..]);
  }

  lemma {:induction false} PrintSplit(a: seq<IndexEntry>, b: seq<IndexEntry>)
    ensures PrintEntries(a + b) == PrintEntries(a) + PrintEntries(b)
  {
    hide PrintEntry;
    if a == [] {
      assert a + b == b;
    } else {
      assert (a + b)[1..] == a[1..] + b;
      PrintSplit(a[1..], b);
    }
  }

  /** The dry run of `index_entries_fmt`. */
  method EntriesSize(es: seq<IndexEntry>) returns (total: nat)
    ensures total == |PrintEntries(es)|
  {
    hide *;
    NoEntries();
    total := 0;
    assert es[..0] == [] && es[..|es|] == es;
    for i := 0 to |es|
      invariant total == |PrintEntries(es[..i])|
    {
      PrintPrefix(es, i);
      var n := Align8(4 * 10 + |es[i].path| + 1 + 20 + 2);
      EntryTakes(es[i]);
      total := total + n;
    }
  }

  lemma NoEntries()
    ensures PrintEntries([]) == []
  {
  }

  lemma EntryTakes(e: IndexEntry)
    ensures |PrintEntry(e)| == Align8(63 + |e.path|)
  {
  }

  /** `memcpy` at the moving pointer `p`, which then points behind what was written. */
  method Put(buf: array<Byte>, ghost at: nat, p: nat, text: Text) returns (q: nat)
    requires at <= p && p + |text| <= buf.Length
    modifies buf
    ensures q == p + |text|
    ensures buf[at..q] == old(buf[at..p]) + text
    ensures buf[..at] == old(buf[..at])
  {
    CopyTo(buf, p, text);
    q := p + |text|;
    assert buf[at..q] == buf[at..p] + buf[p..q];
  }

  /** `put_be32` at the moving pointer. */
  method PutWord(buf: array<Byte>, ghost at: nat, p: nat, ghost ws: seq<int>, ghost k: nat, x: int) returns (q: nat)
    requires at <= p && p + 4 <= buf.Length && k < |ws| && ws[k] == x
    requires buf[at..p] == Words(ws[..k])
    modifies buf
    ensures q == p + 4 && buf[at..q] == Words(ws[..k + 1]) && buf[..at] == old(buf[..at])
  {
    WordsSnoc(ws[..k], x);
    assert ws[..k] + [x] == ws[..k + 1];
    q := Put(buf, at, p, Be32(x));
  }

  method PutFields(buf: array<Byte>, at: nat, e: IndexEntry) returns (p: nat)
    requires at + 40 <= buf.Length
    modifies buf
    ensures p == at + 40 && buf[at..p] == Words(Fields(e)) && buf[..at] == old(buf[..at])
  {
    hide Words;
    ghost var ws := Fields(e);
    NoWords();
    assert ws[..0] == [] && ws[..10] == ws;
    p := PutWord(buf, at, at, ws, 0, e.ctimeSeconds);
    p := PutWord(buf, at, p, ws, 1, e.ctimeNanoseconds);
    p := PutWord(buf, at, p, ws, 2, e.mtimeSeconds);
    p := PutWord(buf, at, p, ws, 3, e.mtimeNanoseconds);
    p := PutWord(buf, at, p, ws, 4, e.dev);
    p := PutWord(buf, at, p, ws, 5, e.ino);
    p := PutWord(buf, at, p, ws, 6, e.mode);
    p := PutWord(buf, at, p, ws, 7, e.uid);
    p := PutWord(buf, at, p, ws, 8, e.gid);
    p := PutWord(buf, at, p, ws, 9, e.fileSize);
  }

  lemma NoWords()
    ensures Words([]) == []
  {
  }

  /** One round of the writing pass. */
  method EntryFmt(buf: array<Byte>, at: nat, e: IndexEntry) returns (p: nat)
    requires at + EntrySize(e) <= buf.Length
    modifies buf
    ensures p == at + EntrySize(e)
    ensures buf[at..p] == PrintEntry(e) && buf[..at] == old(buf[..at])
  {
    hide Words, Fields, Be16, Zeros;
    p := PutFields(buf, at, e);
    p := Put(buf, at, p, e.oid);
    p := Put(buf, at, p, Be16(e.flags));
    p := Put(buf, at, p, e.path);
    p := Put(buf, at, p, [NUL]);
    var padding := EntrySize(e) - (p - at);
    p := Put(buf, at, p, Zeros(padding));
  }

  /** `index_entries_fmt` into a buffer of `len` bytes at `at`: -1 exactly when the entries do not fit. */
  method EntriesFmt(es: seq<IndexEntry>, buf: array<Byte>, at: nat, len: nat) returns (total: int)
    requires at + len <= buf.Length && len > 0
    modifies buf
    ensures total == if |PrintEntries(es)| <= len then |PrintEntries(es)| else -1
    ensures total >= 0 ==> buf[at..at + total] == PrintEntries(es)
    ensures buf[..at] == old(buf[..at])
  {
    hide *;
    NoEntries();
    assert es[..0] == [] && es[..|es|] == es;
    var p := at;
    total := 0;
    for i := 0 to |es|
      invariant 0 <= total <= len && p == at + total
      invariant buf[at..p] == PrintEntries(es[..i])
      invariant buf[..at] == old(buf[..at])
    {
      PrintPrefix(es, i);
      EntryTakes(es[i]);
      SizeTakes(es[i]);
      var n := Align8(63 + |es[i].path|);
      if total + n > len { return -1; }
      total := total + n;
      ghost var done := buf[..p];
      assert done[at..] == buf[at..p] && done[..at] == buf[..at];
      p := EntryFmt(buf, p, es[i]);
      assert buf[..p] == buf[..p - n] + buf[p - n..p] && buf[..p - n] == done;
      assert buf[at..p] == done[at..] + buf[p - n..p];
    }
  }

  lemma SizeTakes(e: IndexEntry)
    ensures EntrySize(e) == Align8(63 + |e.path|)
  {
  }

  /** `qgit_index_write`: sorts the index, then puts out exactly the bytes of its entries. It never fails. */
  method IndexWrite(index: Index, sha1: Text -> Oid) returns (ok: bool, file: Text)
    modifies index`entries
    ensures multiset(index.entries) == multiset(old(index.entries)) && SortedBy(index.entries, IndexEntryCmp)
    ensures UniqueSlots(old(index.entries)) ==> Ordered(index.entries) && UniqueSlots(index.entries)
    ensures ok && file == PrintIndex(sha1, index.version, index.entries)
  {
    hide *;
    index.Sort();
    var es := index.entries;
    var total := EntriesSize(es);
    var buf := new Byte[total + 12 + 20];
    var p := PutHeader(buf, index.version, |es|);
    ghost var head := buf[..p];
    var nwrite := 0;
    if total > 0 { nwrite := EntriesFmt(es, buf, p, total); }
    assert nwrite == total;
    if nwrite < 0 || nwrite != total { return false, []; }
    assert buf[p..p + nwrite] == PrintEntries(es);
    p := p + nwrite;
    assert buf[..p] == head + PrintEntries(es);
    var checksum := sha1(buf[..p]);
    p := Put(buf, 0, p, checksum);
    IndexParts(sha1, index.version, es);
    file := buf[..];
    assert file == buf[0..p];
    ok := true;
  }

  method PutHeader(buf: array<Byte>, version: nat, count: nat) returns (p: nat)
    requires buf.Length >= 12
    modifies buf
    ensures p == 12 && buf[..p] == PrintHeader(version, count)
  {
    hide Be32;
    p := Put(buf, 0, 0, MAGIC);
    p := Put(buf, 0, p, Be32(version));
    p := Put(buf, 0, p, Be32(count));
  }

  // ---------- parsing ----------

  /** `parse_entry`: reads the entry at `start`, never past `end`. */
  method EntryParse(buf: Text, start: nat, end: nat) returns (r: Option<(IndexEntry, nat)>)
    requires start <= end <= |buf|
    ensures r == match ParseEntry(buf[start..end])
                 case None => None
                 case Some((e, used)) => Some((e, start + used))
  {
    hide GetBe32, GetBe16;
    ghost var s := buf[start..end];
    var p := start;
    if p + 40 > end { return None; }
    var cs, cn, ms, mn := GetBe32(buf, p), GetBe32(buf, p + 4), GetBe32(buf, p + 8), GetBe32(buf, p + 12);
    var dev, ino, mode := GetBe32(buf, p + 16), GetBe32(buf, p + 20), GetBe32(buf, p + 24);
    var uid, gid, size := GetBe32(buf, p + 28), GetBe32(buf, p + 32), GetBe32(buf, p + 36);
    p := p + 40;
    if p + 20 > end { return None; }
    var oid := buf[p..p + 20];
    p := p + 20;
    if p + 2 > end { return None; }
    var flags := GetBe16(buf, p);
    p := p + 2;
    var namelen := flags % 0x1000;
    SameWords(buf, start, end);
    if flags / 0x4000 % 2 == 1 { return None; }
    SliceOfSlice(buf, start, end, 62, end - start);
    assert s[62..] == s[62..end - start] == buf[p..end];
    var z := Find(buf[p..end], NUL);
    if z == end - p { return None; }
    if (namelen == 0xFFF && z < 0xFFF) || (namelen < 0xFFF && z != namelen) { return None; }
    var len := if namelen < 0xFFF then namelen else z;
    if p + len + 1 > end { return None; }
    var path := buf[p..p + len];
    SliceOfSlice(buf, start, end, 62, 62 + z);
    assert len == z && s[62..62 + z] == path;
    p := p + len + 1;
    p := start + Align8(p - start);
    if p > end { return None; }
    return Some((IndexEntry(cs, cn, ms, mn, dev, ino, mode, uid, gid, size, oid, flags, path), p));
  }

  lemma SameWords(buf: Text, start: nat, end: nat)
    requires start <= end <= |buf| && start + 62 <= end
    ensures var s := buf[start..end];
      && (forall i :: 0 <= i <= 36 ==> GetBe32(s, i) == GetBe32(buf, start + i))
      && GetBe16(s, 60) == GetBe16(buf, start + 60)
      && s[40..60] == buf[start + 40..start + 60]
  {
    SliceOfSlice(buf, start, end, 40, 60);
  }

  lemma ParseEntriesAt(s: Text, es: seq<IndexEntry>, count: nat)
    requires count > 0
    ensures Onward(es, s, count) ==
      match ParseEntry(s)
      case None => None
      case Some((e, used)) =>
        match Onward(es + [e], s[used..], count - 1)
        case None => None
        case Some((all, more)) => Some((all, used + more))
  {
    hide ParseEntry;
    match ParseEntry(s)
    case None =>
    case Some((e, used)) =>
      match ParseEntries(s[used..], count - 1)
      case None =>
      case Some((rest, more)) => assert es + ([e] + rest) == es + [e] + rest;
  }

  /** What the loop over the entries still has to find, after those already parsed. */
  function Onward(es: seq<IndexEntry>, s: Text, count: nat): Option<(seq<IndexEntry>, nat)> {
    match ParseEntries(s, count)
    case None => None
    case Some((rest, used)) => Some((es + rest, used))
  }

  lemma NothingParsed(es: seq<IndexEntry>, s: Text)
    ensures Onward(es, s, 0) == Some((es, 0))
  {
    assert es + [] == es;
  }

  lemma FirstParsed(s: Text, count: nat)
    ensures Onward([], s, count) == ParseEntries(s, count)
  {
    match ParseEntries(s, count) { case Some((es, _)) => assert [] + es == es; case None => }
  }

  /** The loop over the entries, between the header and the checksum. */
  method EntriesParse(buf: Text, start: nat, end: nat, count: nat) returns (r: Option<(seq<IndexEntry>, nat)>)
    requires start <= end <= |buf|
    ensures r == match ParseEntries(buf[start..end], count)
                 case None => None
                 case Some((es, used)) => Some((es, start + used))
    ensures r.Some? ==> start <= r.value.1 <= end
  {
    hide ParseEntries, ParseEntry, Onward;
    var p, es, i := start, [], 0;
    ghost var whole := ParseEntries(buf[start..end], count);
    FirstParsed(buf[start..end], count);
    while i < count
      invariant i <= count && start <= p <= end
      invariant whole == match Onward(es, buf[p..end], count - i)
                         case None => None
                         case Some((all, used)) => Some((all, p - start + used))
    {
      ParseEntriesAt(buf[p..end], es, count - i);
      var got := EntryParse(buf, p, end);
      if got.None? { return None; }
      ghost var used := got.value.1 - p;
      assert buf[p..end][used..] == buf[got.value.1..end];
      es, p, i := es + [got.value.0], got.value.1, i + 1;
    }
    NothingParsed(es, buf[p..end]);
    return Some((es, p));
  }

  /** The loop over the extensions: whether it stops exactly at the checksum. */
  method ExtensionsParse(buf: Text, start: nat, end: nat) returns (ok: bool)
    requires start <= end <= |buf|
    ensures ok == Extensions(buf[start..end])
  {
    var p := start;
    while p < end
      invariant start <= p <= end
      invariant Extensions(buf[start..end]) == Extensions(buf[p..end])
    {
      ExtensionsAt(buf, p, end);
      if p + 8 > end { return false; }
      var size := GetBe32(buf, p + 4);
      if size <= end - p - 8 {
        p := p + 8 + size;
      } else {
        return false;
      }
      if p > end { return false; }
    }
    ok := p == end;
  }

  lemma ExtensionsAt(buf: Text, p: nat, end: nat)
    requires p < end <= |buf|
    ensures Extensions(buf[p..end]) ==
      (p + 8 <= end && GetBe32(buf, p + 4) <= end - p - 8
       && Extensions(buf[p + 8 + GetBe32(buf, p + 4)..end]))
  {
    hide GetBe32;
    var s := buf[p..end];
    if p + 8 <= end {
      SameWord(buf, p, end);
      var size := GetBe32(buf, p + 4);
      if size <= end - p - 8 { assert s[8 + size..] == buf[p + 8 + size..end]; }
    }
  }

  lemma SameWord(buf: Text, p: nat, end: nat)
    requires p + 8 <= end <= |buf|
    ensures GetBe32(buf[p..end], 4) == GetBe32(buf, p + 4)
  {
  }

  /** `qgit_index_parse`. */
  method IndexParse(sha1: Text -> Oid, buf: Text) returns (r: Option<seq<IndexEntry>>)
    ensures r == ParseIndex(sha1, buf)
  {
    hide GetBe32, ParseEntries, Extensions;
    if |buf| < HEADER_SIZE + RAWSZ { return None; }
    var checksum := |buf| - RAWSZ;
    var p := 0;
    if buf[p..p + 4] != MAGIC { return None; }
    p := p + 4;
    var version := GetBe32(buf, p);
    p := p + 4;
    if version != INDEX_VERSION { return None; }
    var count := GetBe32(buf, p);
    p := p + 4;
    var got := EntriesParse(buf, p, checksum, count);
    if got.None? { return None; }
    p := got.value.1;
    var ok := ExtensionsParse(buf, p, checksum);
    assert Body(buf)[p - HEADER_SIZE..] == buf[p..checksum];
    if !ok { return None; }
    var computed := sha1(buf[..checksum]);
    if computed != buf[checksum..] { return None; }
    return Some(got.value.0);
  }
}
