/** The index file byte by byte: exactly which files are read, and as what (index_parse.c, index_write.c). */
module IndexFile {
  import opened Bytes
  import opened Index
  import opened IndexCodec
  import opened Libc
  import opened Options

  // ---------- words ----------

  /** The most significant byte comes first. */
  lemma Be32Bytes(a: Byte, b: Byte, c: Byte, d: Byte)
    ensures Be32(((a * 0x100 + b) * 0x100 + c) * 0x100 + d) == [a, b, c, d]
    ensures GetBe32([a, b, c, d], 0) == ((a * 0x100 + b) * 0x100 + c) * 0x100 + d
  {
    FourBytes(a, b, c, d);
    var w := ((a * 0x100 + b) * 0x100 + c) * 0x100 + d;
    assert w % WORD == w;
  }

  lemma {:induction false} FourBytes(a: Byte, b: Byte, c: Byte, d: Byte)
    ensures var w := ((a * 0x100 + b) * 0x100 + c) * 0x100 + d;
      && w < 0x1_0000_0000 && w % 0x100 == d && w / 0x100 % 0x100 == c
      && w / 0x1_0000 % 0x100 == b && w / 0x100_0000 == a
  {
    hide *;
    var x, y := a * 0x100 + b, (a * 0x100 + b) * 0x100 + c;
    Shifted(a, b);
    Shifted(x, c);
    Shifted(y, d);
    DivTwice(y * 0x100 + d);
    DivTwice(y);
  }

  lemma Shifted(x: nat, b: Byte)
    ensures (x * 0x100 + b) / 0x100 == x && (x * 0x100 + b) % 0x100 == b
  {
  }

  lemma DivTwice(w: nat)
    ensures w / 0x1_0000 == w / 0x100 / 0x100 && w / 0x100_0000 == w / 0x100 / 0x1_0000
  {
  }

  lemma Be16Bytes(a: Byte, b: Byte)
    ensures Be16(a * 0x100 + b) == [a, b] && GetBe16([a, b], 0) == a * 0x100 + b
  {
  }

  lemma WordBack(s: Text, i: nat)
    requires i + 4 <= |s|
    ensures Be32(GetBe32(s, i)) == s[i..i + 4]
  {
    Be32Bytes(s[i], s[i + 1], s[i + 2], s[i + 3]);
    hide Be32;
    assert s[i..i + 4] == [s[i], s[i + 1], s[i + 2], s[i + 3]];
  }

  lemma HalfBack(s: Text, i: nat)
    requires i + 2 <= |s|
    ensures Be16(GetBe16(s, i)) == s[i..i + 2]
  {
    Be16Bytes(s[i], s[i + 1]);
    hide Be16;
    assert s[i..i + 2] == [s[i], s[i + 1]];
  }

  // ---------- one entry ----------

  /** The ten words, in the order of the file. */
  function Stat(e: IndexEntry): (s: Text)
    ensures |s| == 40
  {
    Be32(e.ctimeSeconds) + Be32(e.ctimeNanoseconds) + Be32(e.mtimeSeconds) + Be32(e.mtimeNanoseconds)
    + Be32(e.dev) + Be32(e.ino) + Be32(e.mode) + Be32(e.uid) + Be32(e.gid) + Be32(e.fileSize)
  }

  /** An entry with any bytes as padding. */
  function EntryBytes(e: IndexEntry, pad: Text): (s: Text)
    ensures |s| == 63 + |e.path| + |pad|
  {
    Stat(e) + e.oid + Be16(e.flags) + e.path + [NUL] + pad
  }

  /** So many that the entry takes a multiple of eight bytes: one to eight with the NUL. */
  predicate Pads(e: IndexEntry, pad: Text) {
    |pad| < 8 && (63 + |e.path| + |pad|) % 8 == 0
  }

  lemma PadsExactly(e: IndexEntry, pad: Text)
    ensures Pads(e, pad) <==> |pad| == EntrySize(e) - (63 + |e.path|)
  {
  }

  lemma {:induction false} StatWords(e: IndexEntry)
    ensures Words(Fields(e)) == Stat(e)
  {
    var w := Words(Fields(e));
    WordAt(Fields(e), 0);
    WordAt(Fields(e), 1);
    WordAt(Fields(e), 2);
    WordAt(Fields(e), 3);
    WordAt(Fields(e), 4);
    WordAt(Fields(e), 5);
    WordAt(Fields(e), 6);
    WordAt(Fields(e), 7);
    WordAt(Fields(e), 8);
    WordAt(Fields(e), 9);
    hide Be32, Words;
    TenWords(w);
  }

  lemma TenWords(w: Text)
    requires |w| == 40
    ensures w == w[0..4] + w[4..8] + w[8..12] + w[12..16] + w[16..20]
                 + w[20..24] + w[24..28] + w[28..32] + w[32..36] + w[36..40]
  {
  }

  /** The bits of the flags: the top one is ignored, the next must be clear, then two of stage and twelve of length. */
  lemma FlagsOkExactly(e: IndexEntry, valid: nat, extended: nat, stage: nat, length: nat)
    requires extended < 2 && stage < 4 && length < 0x1000
    requires e.flags == 0x8000 * valid + 0x4000 * extended + 0x1000 * stage + length
    ensures FlagsOk(e) <==> extended == 0 && length == (if |e.path| < 0xFFF then |e.path| else 0xFFF)
  {
    var high := 2 * valid + extended;
    assert e.flags == 0x4000 * high + (0x1000 * stage + length) && 0x1000 * stage + length < 0x4000;
    assert e.flags / 0x4000 == high && high % 2 == extended;
    assert e.flags == 0x1000 * (4 * high + stage) + length;
    assert e.flags % 0x1000 == length;
  }

  /** An entry is read whatever its padding is, if its flags are consistent, and refused otherwise. */
  lemma {:induction false} EntryAccepted(e: IndexEntry, pad: Text, rest: Text)
    requires Representable(e) && Pads(e, pad)
    ensures ParseEntry(EntryBytes(e, pad) + rest) == if FlagsOk(e) then Some((Stored(e), EntrySize(e))) else None
  {
    hide Stat;
    PadsExactly(e, pad);
    StatWords(e);
    EntryRead(e, pad, rest);
    assert EntryBytes(e, pad) + rest == Stat(e) + e.oid + Be16(e.flags) + e.path + [NUL] + pad + rest;
  }

  /** Nothing else is read as an entry. */
  lemma {:induction false} EntryOnly(s: Text) returns (pad: Text)
    requires ParseEntry(s).Some?
    ensures var (e, used) := ParseEntry(s).value;
      && Representable(e) && FlagsOk(e) && Stored(e) == e && Pads(e, pad)
      && used <= |s| && s[..used] == EntryBytes(e, pad)
  {
    ParsedEntry(s);
    var (e, used) := ParseEntry(s).value;
    pad := s[63 + |e.path|..used];
    PadsExactly(e, pad);
    EntryParts(s);
    hide *;
    StatOf(s, e);
    HalfBack(s, 60);
    Pieces(s, |e.path|, used);
  }

  lemma EntryParts(s: Text)
    requires ParseEntry(s).Some?
    ensures var (e, used) := ParseEntry(s).value;
      && e == EntryOf(s, GetBe16(s, 60), e.path) && e.flags == GetBe16(s, 60) && e.oid == s[40..60]
      && 63 + |e.path| <= used <= |s| && s[62..62 + |e.path|] == e.path && s[62 + |e.path|] == NUL
  {
    hide GetBe32, GetBe16;
  }

  lemma StatOf(s: Text, e: IndexEntry)
    requires |s| >= 62 && e == EntryOf(s, GetBe16(s, 60), e.path)
    ensures Stat(e) == s[..40]
  {
    hide GetBe32, GetBe16, Be32;
    WordBack(s, 0);
    WordBack(s, 4);
    WordBack(s, 8);
    WordBack(s, 12);
    WordBack(s, 16);
    WordBack(s, 20);
    WordBack(s, 24);
    WordBack(s, 28);
    WordBack(s, 32);
    WordBack(s, 36);
  }

  lemma Pieces(s: Text, n: nat, used: nat)
    requires 63 + n <= used <= |s| && s[62 + n] == NUL
    ensures s[..used] == s[..40] + s[40..60] + s[60..62] + s[62..62 + n] + [NUL] + s[63 + n..used]
  {
  }

  // ---------- the entries ----------

  function EntriesBytes(es: seq<IndexEntry>, pads: seq<Text>): Text
    requires |es| == |pads|
  {
    if es == [] then [] else EntryBytes(es[0], pads[0]) + EntriesBytes(es[1..], pads[1..])
  }

  ghost predicate AllPad(es: seq<IndexEntry>, pads: seq<Text>) {
    |es| == |pads| && forall i :: 0 <= i < |es| ==> Pads(es[i], pads[i])
  }

  lemma {:induction false} EntriesAccepted(es: seq<IndexEntry>, pads: seq<Text>, rest: Text)
    requires AllRepresentable(es) && AllPad(es, pads)
    ensures ParseEntries(EntriesBytes(es, pads) + rest, |es|) ==
      if AllFlagsOk(es) then Some((StoredAll(es), |EntriesBytes(es, pads)|)) else None
    decreases |es|
  {
    hide EntryBytes, ParseEntry, FlagsOk, Representable, Stored, Pads;
    if es == [] {
      assert StoredAll([]) == [];
    } else {
      var more := EntriesBytes(es[1..], pads[1..]) + rest;
      var s := EntriesBytes(es, pads) + rest;
      assert s == EntryBytes(es[0], pads[0]) + more;
      PadsExactly(es[0], pads[0]);
      EntryAccepted(es[0], pads[0], more);
      EntriesAccepted(es[1..], pads[1..], rest);
      assert s[EntrySize(es[0])..] == more;
      assert FlagsOk(es[0]) && AllFlagsOk(es[1..]) <==> AllFlagsOk(es) by { FlagsParts(es); }
      assert StoredAll(es) == [Stored(es[0])] + StoredAll(es[1..]);
    }
  }

  lemma FlagsParts(es: seq<IndexEntry>)
    requires es != []
    ensures AllFlagsOk(es) <==> FlagsOk(es[0]) && AllFlagsOk(es[1..])
  {
    hide FlagsOk;
    if AllFlagsOk(es[1..]) {
      forall i | 1 <= i < |es| ensures FlagsOk(es[i]) {
        assert es[i] == es[1..][i - 1];
      }
    }
  }

  lemma {:induction false} EntriesOnly(s: Text, count: nat) returns (pads: seq<Text>)
    requires ParseEntries(s, count).Some?
    ensures var (es, used) := ParseEntries(s, count).value;
      && AllRepresentable(es) && AllFlagsOk(es) && StoredAll(es) == es && AllPad(es, pads)
      && used <= |s| && s[..used] == EntriesBytes(es, pads)
    decreases count
  {
    ParsedEntries(s, count);
    hide *;
    if count == 0 {
      NoneParsed(s);
      pads := [];
    } else {
      FirstAndRest(s, count);
      var (e, n) := ParseEntry(s).value;
      var pad := EntryOnly(s);
      var others := EntriesOnly(s[n..], count - 1);
      var (es, m) := ParseEntries(s[n..], count - 1).value;
      pads := [pad] + others;
      FirstEntry(s, e, n, pad, es, m, others);
    }
  }

  lemma NoneParsed(s: Text)
    ensures ParseEntries(s, 0) == Some(([], 0)) && AllPad([], []) && EntriesBytes([], []) == []
  {
  }

  lemma FirstAndRest(s: Text, count: nat)
    requires count > 0 && ParseEntries(s, count).Some?
    ensures ParseEntry(s).Some? && ParseEntries(s[ParseEntry(s).value.1..], count - 1).Some?
    ensures var (e, n) := ParseEntry(s).value;
      var (es, m) := ParseEntries(s[n..], count - 1).value;
      ParseEntries(s, count).value == ([e] + es, n + m)
  {
    hide ParseEntry;
  }

  lemma FirstEntry(s: Text, e: IndexEntry, n: nat, pad: Text, es: seq<IndexEntry>, m: nat, others: seq<Text>)
    requires n <= |s| && m <= |s| - n && s[..n] == EntryBytes(e, pad) && Pads(e, pad)
    requires AllPad(es, others) && s[n..][..m] == EntriesBytes(es, others)
    ensures AllPad([e] + es, [pad] + others) && s[..n + m] == EntriesBytes([e] + es, [pad] + others)
  {
    hide EntryBytes, Pads;
    assert ([e] + es)[1..] == es && ([pad] + others)[1..] == others;
    assert s[..n + m] == s[..n] + s[n..][..m];
  }

  // ---------- the extensions ----------

  /** A block that is skipped: four bytes, the length and as many bytes. */
  datatype Block = Block(signature: Text, data: Text)

  predicate BlockOk(x: Block) {
    |x.signature| == 4 && |x.data| < WORD
  }

  function BlocksBytes(blocks: seq<Block>): Text {
    if blocks == [] then []
    else blocks[0].signature + Be32(|blocks[0].data|) + blocks[0].data + BlocksBytes(blocks[1..])
  }

  lemma {:induction false} BlocksAccepted(blocks: seq<Block>)
    requires forall i :: 0 <= i < |blocks| ==> BlockOk(blocks[i])
    ensures Extensions(BlocksBytes(blocks))
  {
    hide Be32, GetBe32;
    if blocks != [] {
      var s, x := BlocksBytes(blocks), blocks[0];
      assert s[4..8] == Be32(|x.data|);
      Be32RoundTrip(|x.data|, s, 4);
      assert GetBe32(s, 4) == |x.data|;
      assert s[8 + |x.data|..] == BlocksBytes(blocks[1..]);
      BlocksAccepted(blocks[1..]);
    }
  }

  lemma {:induction false} BlocksOnly(s: Text) returns (blocks: seq<Block>)
    requires Extensions(s)
    ensures (forall i :: 0 <= i < |blocks| ==> BlockOk(blocks[i])) && s == BlocksBytes(blocks)
    decreases |s|
  {
    hide Be32, GetBe32;
    if s == [] {
      blocks := [];
    } else {
      var n := GetBe32(s, 4);
      var others := BlocksOnly(s[8 + n..]);
      var x := Block(s[..4], s[8..8 + n]);
      blocks := [x] + others;
      WordBack(s, 4);
      assert blocks[1..] == others;
      assert s == s[..4] + s[4..8] + s[8..8 + n] + s[8 + n..];
    }
  }

  // ---------- the file ----------

  /** "DIRC", version 2, the number of entries, the entries and the blocks. */
  function FileBytes(es: seq<IndexEntry>, pads: seq<Text>, blocks: seq<Block>): Text
    requires |es| == |pads|
  {
    Ascii("DIRC") + [0, 0, 0, 2] + Be32(|es|) + (EntriesBytes(es, pads) + BlocksBytes(blocks))
  }

  ghost predicate FileOk(es: seq<IndexEntry>, pads: seq<Text>, blocks: seq<Block>) {
    && |es| < WORD && AllRepresentable(es) && AllPad(es, pads)
    && forall i :: 0 <= i < |blocks| ==> BlockOk(blocks[i])
  }

  lemma {:induction false} HeaderExactly(buf: Text)
    ensures HeaderOk(buf) <==> |buf| >= 32 && buf[..8] == Ascii("DIRC") + [0, 0, 0, 2]
  {
    var head := Ascii("DIRC") + [0, 0, 0, 2];
    assert MAGIC == Ascii("DIRC");
    if |buf| >= 32 {
      assert buf[..8] == buf[..4] + buf[4..8];
      WordBack(buf, 4);
      Be32Bytes(0, 0, 0, 2);
      if buf[..8] == head {
        assert buf[..4] == head[..4] && buf[4..8] == head[4..8] == [0, 0, 0, 2];
        Be32RoundTrip(2, buf, 4);
      }
    }
  }

  /**
   * A file of entries with any padding and of any blocks is read as its entries, if all flags are
   * consistent and it ends with its checksum; otherwise it is refused.
   */
  lemma {:induction false} FileAccepted(sha1: Text -> Oid, es: seq<IndexEntry>, pads: seq<Text>, blocks: seq<Block>,
                                        checksum: Oid)
    requires FileOk(es, pads, blocks)
    ensures var bytes := FileBytes(es, pads, blocks);
      ParseIndex(sha1, bytes + checksum) ==
        if AllFlagsOk(es) && checksum == sha1(bytes) then Some(StoredAll(es)) else None
  {
    hide EntriesBytes, BlocksBytes, ParseEntries, Extensions, AllFlagsOk, StoredAll, Be32, GetBe32, HeaderOk,
         AllRepresentable, AllPad;
    SameCount(es, pads);
    var bytes, entries, more := FileBytes(es, pads, blocks), EntriesBytes(es, pads), BlocksBytes(blocks);
    var buf := bytes + checksum;
    assert buf[..8] == Ascii("DIRC") + [0, 0, 0, 2];
    HeaderExactly(buf);
    assert buf[8..12] == Be32(|es|);
    Be32RoundTrip(|es|, buf, 8);
    assert Body(buf) == entries + more;
    assert (entries + more)[|entries|..] == more;
    EntriesAccepted(es, pads, more);
    BlocksAccepted(blocks);
    assert buf[..|buf| - 20] == bytes && buf[|buf| - 20..] == checksum;
  }

  /** Nothing else is read: an accepted file is such a file, and ends with the checksum of what is before it. */
  lemma {:induction false} FileOnly(sha1: Text -> Oid, buf: Text) returns (pads: seq<Text>, blocks: seq<Block>)
    requires ParseIndex(sha1, buf).Some?
    ensures var es := ParseIndex(sha1, buf).value;
      && FileOk(es, pads, blocks) && AllFlagsOk(es)
      && buf == FileBytes(es, pads, blocks) + sha1(FileBytes(es, pads, blocks))
    ensures |buf| >= 32 && sha1(buf[..|buf| - 20]) == buf[|buf| - 20..]
  {
    hide EntriesBytes, BlocksBytes, ParseEntries, Extensions, AllFlagsOk, StoredAll, Be32, GetBe32, HeaderOk,
         AllRepresentable, AllPad;
    HeaderExactly(buf);
    var body, count := Body(buf), GetBe32(buf, 8);
    var (es, used) := ParseEntries(body, count).value;
    pads := EntriesOnly(body, count);
    blocks := BlocksOnly(body[used..]);
    SameCount(es, pads);
    WordBack(buf, 8);
    assert body == body[..used] + body[used..];
    assert buf == buf[..8] + buf[8..12] + body + buf[|buf| - 20..];
    assert buf[..|buf| - 20] == buf[..8] + buf[8..12] + body;
  }

  lemma SameCount(es: seq<IndexEntry>, pads: seq<Text>)
    requires AllPad(es, pads)
    ensures |es| == |pads|
  {
  }
}
