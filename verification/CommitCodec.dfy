/** The payload of a commit: printing it in two passes and parsing it (commit_create.c, commit_parse.c). */
module CommitCodec {
  import opened Bytes
  import opened Libc
  import opened OidHex
  import opened Options
  import opened Payload
  import opened Signatures

  datatype Commit = Commit(tree: Oid, parents: seq<Oid>, author: Signature, committer: Signature, message: Option<Text>)

  /** "tree ", "parent ", "author " and "committer ". */
  const TREE: Text := [116, 114, 101, 101, 32]
  const PARENT: Text := [112, 97, 114, 101, 110, 116, 32]
  const AUTHOR: Text := [97, 117, 116, 104, 111, 114, 32]
  const COMMITTER: Text := [99, 111, 109, 109, 105, 116, 116, 101, 114, 32]

  // ---------- the text of a commit ----------

  function ParentLines(parents: seq<Oid>): Text {
    if parents == [] then [] else OidLine(PARENT, parents[0]) + ParentLines(parents[1..])
  }

  function PrintHeader(c: Commit): Text {
    OidLine(TREE, c.tree) + ParentLines(c.parents)
    + (AUTHOR + PrintSignature(c.author)) + (COMMITTER + PrintSignature(c.committer))
  }

  function MessageText(message: Option<Text>): Text {
    if message.Some? then message.value else []
  }

  function PrintCommit(c: Commit): Text {
    PrintHeader(c) + [NEWLINE] + MessageText(c.message) + [NEWLINE]
  }

  // ---------- parsing ----------

  /** The fields found so far. */
  datatype Draft = Draft(tree: Option<Oid>, parents: seq<Oid>, author: Option<Signature>, committer: Option<Signature>)

  const EMPTY := Draft(None, [], None, None)

  /** One turn of the loop of `parse_header`, at `p`: where it goes on and with what, or an error. */
  function ParseLine(b: Text, p: nat, end: nat, d: Draft): (r: Option<(nat, Draft)>)
    requires p < end <= |b|
    ensures r.Some? ==> p < r.value.0 <= end
  {
    if b[p] == NEWLINE then Some((p + 1, d))
    else if KeywordAt(b, p, end, TREE) then
      if d.tree.Some? || p + 5 + HEXSZ >= end then None
      else
        var oid := FromStrN(b[p + 5..], HEXSZ);
        if oid.None? then None else Some((p + 5 + HEXSZ, d.(tree := oid)))
    else if KeywordAt(b, p, end, PARENT) then
      if p + 7 + HEXSZ >= end then None
      else
        var oid := FromStrN(b[p + 7..], HEXSZ);
        if oid.None? then None else Some((p + 7 + HEXSZ, d.(parents := d.parents + [oid.value])))
    else if KeywordAt(b, p, end, AUTHOR) then
      if d.author.Some? || p + 7 >= end then None
      else
        match ParseSignature(b, p + 7, end)
        case None => None
        case Some((s, next)) => Some((next, d.(author := Some(s))))
    else if KeywordAt(b, p, end, COMMITTER) then
      if d.committer.Some? || p + 10 >= end then None
      else
        match ParseSignature(b, p + 10, end)
        case None => None
        case Some((s, next)) => Some((next, d.(committer := Some(s))))
    else Some((p + Find(b[p..end], NEWLINE), d))
  }

  function ParseHeader(b: Text, p: nat, end: nat, d: Draft): (r: Option<Draft>)
    requires end <= |b|
    ensures r.Some? ==> r.value.tree.Some? && r.value.author.Some? && r.value.committer.Some?
    decreases end - p
  {
    if p >= end then
      if d.tree.Some? && d.author.Some? && d.committer.Some? then Some(d) else None
    else
      match ParseLine(b, p, end, d)
      case None => None
      case Some((next, d')) => ParseHeader(b, next, end, d')
  }

  /** `commit_parse`. */
  function ParseCommit(b: Text): Option<Commit> {
    match ParseHeader(b, 0, HeaderEnd(b), EMPTY)
    case None => None
    case Some(d) => Some(Commit(d.tree.value, d.parents, d.author.value, d.committer.value, Message(b)))
  }

  // ---------- the round trip ----------

  predicate Representable(c: Commit) {
    && Signatures.Representable(c.author) && Signatures.Representable(c.committer)
    && (c.message.Some? ==> IsCString(c.message.value))
  }

  /** A field once found is kept. */
  lemma {:induction false} FieldsKept(b: Text, p: nat, end: nat, d: Draft)
    requires end <= |b| && ParseHeader(b, p, end, d).Some?
    ensures var r := ParseHeader(b, p, end, d).value;
      && (d.author.Some? ==> r.author == d.author)
      && (d.committer.Some? ==> r.committer == d.committer)
    decreases end - p
  {
    hide ParseSignature, FromStrN, Find, KeywordAt;
    if p < end {
      var line := ParseLine(b, p, end, d);
      assert line.Some?;
      FieldsKept(b, line.value.0, end, line.value.1);
    }
  }

  lemma LineRead(b: Text, p: nat, end: nat, d: Draft, next: nat, d': Draft)
    requires p < end <= |b| && ParseLine(b, p, end, d) == Some((next, d'))
    ensures ParseHeader(b, p, end, d) == ParseHeader(b, next, end, d')
  {
    hide ParseLine;
  }

  lemma NewlineRead(b: Text, p: nat, end: nat, d: Draft)
    requires p < end <= |b| && b[p] == NEWLINE
    ensures ParseHeader(b, p, end, d) == ParseHeader(b, p + 1, end, d)
  {
    hide KeywordAt, FromStrN, ParseSignature, Find;
  }

  lemma {:induction false} TreeRead(b: Text, oid: Oid)
    requires At(b, 0, OidLine(TREE, oid))
    ensures HeaderEnd(b) >= 46
    ensures ParseHeader(b, 0, HeaderEnd(b), EMPTY) == ParseHeader(b, 46, HeaderEnd(b), EMPTY.(tree := Some(oid)))
  {
    OidLineRead(b, 0, TREE, oid);
    hide At, OidLine, HeaderEnd, FromStrN, ParseSignature, Find;
    assert b[0..5][0] == b[0];
    LineRead(b, 0, HeaderEnd(b), EMPTY, 45, EMPTY.(tree := Some(oid)));
    NewlineRead(b, 45, HeaderEnd(b), EMPTY.(tree := Some(oid)));
  }

  lemma ParentRead(b: Text, p: nat, d: Draft, oid: Oid)
    requires At(b, p, OidLine(PARENT, oid)) && HeaderEnd(b) >= p
    ensures HeaderEnd(b) >= p + 48
    ensures ParseHeader(b, p, HeaderEnd(b), d)
         == ParseHeader(b, p + 48, HeaderEnd(b), d.(parents := d.parents + [oid]))
  {
    OidLineRead(b, p, PARENT, oid);
    hide At, OidLine, HeaderEnd, FromStrN, ParseSignature, Find;
    assert b[p..p + 7][0] == b[p];
    assert p + 5 <= |b| ==> b[p..p + 5][0] == b[p];
    LineRead(b, p, HeaderEnd(b), d, p + 47, d.(parents := d.parents + [oid]));
    NewlineRead(b, p + 47, HeaderEnd(b), d.(parents := d.parents + [oid]));
  }

  lemma {:induction false} ParentsRead(b: Text, p: nat, d: Draft, parents: seq<Oid>)
    requires At(b, p, ParentLines(parents)) && HeaderEnd(b) >= p
    ensures HeaderEnd(b) >= p + |ParentLines(parents)|
    ensures ParseHeader(b, p, HeaderEnd(b), d)
         == ParseHeader(b, p + |ParentLines(parents)|, HeaderEnd(b), d.(parents := d.parents + parents))
    decreases |parents|
  {
    hide At, HeaderEnd, ParseHeader;
    if parents == [] {
      assert d.parents + parents == d.parents;
    } else {
      AtParts(b, p, OidLine(PARENT, parents[0]), ParentLines(parents[1..]));
      ParentRead(b, p, d, parents[0]);
      ParentsRead(b, p + 48, d.(parents := d.parents + [parents[0]]), parents[1..]);
      assert d.parents + [parents[0]] + parents[1..] == d.parents + parents;
    }
  }

  /** Reading the line of a signature: the parse goes on behind it, with whatever signature was found. */
  lemma {:induction false} AuthorRead(b: Text, p: nat, d: Draft, s: Signature)
    requires At(b, p, AUTHOR + PrintSignature(s)) && HeaderEnd(b) >= p && d.author.None?
    ensures HeaderEnd(b) > p + 7 && At(b, p + 7, PrintSignature(s))
    ensures ParseHeader(b, p, HeaderEnd(b), d) ==
      match ParseSignature(b, p + 7, HeaderEnd(b))
      case None => None
      case Some((s', next)) => ParseHeader(b, next, HeaderEnd(b), d.(author := Some(s')))
  {
    hide *;
    AuthorKeyword();
    SignatureNotEmpty(s);
    KeywordRead(b, p, AUTHOR, PrintSignature(s));
    AuthorLine(b, p, HeaderEnd(b), d);
    HeaderStep(b, p, HeaderEnd(b), d);
  }

  lemma {:induction false} AuthorLine(b: Text, p: nat, end: nat, d: Draft)
    requires p + 7 < end <= |b| && KeywordAt(b, p, end, AUTHOR) && d.author.None?
    ensures ParseLine(b, p, end, d) ==
      match ParseSignature(b, p + 7, end)
      case None => None
      case Some((s, next)) => Some((next, d.(author := Some(s))))
  {
    hide FromStrN, ParseSignature, Find;
    assert b[p..p + 7][0] == b[p] && b[p..p + 7][1] == b[p + 1];
    assert b[p..p + 5][0] == b[p];
  }

  lemma {:induction false} CommitterLine(b: Text, p: nat, end: nat, d: Draft)
    requires p + 10 < end <= |b| && KeywordAt(b, p, end, COMMITTER) && d.committer.None?
    ensures ParseLine(b, p, end, d) ==
      match ParseSignature(b, p + 10, end)
      case None => None
      case Some((s, next)) => Some((next, d.(committer := Some(s))))
  {
    hide FromStrN, ParseSignature, Find;
    assert b[p..p + 10][0] == b[p];
    assert b[p..p + 5][0] == b[p];
    assert b[p..p + 7][0] == b[p];
  }

  lemma HeaderStep(b: Text, p: nat, end: nat, d: Draft)
    requires p < end <= |b|
    ensures ParseHeader(b, p, end, d) ==
      match ParseLine(b, p, end, d)
      case None => None
      case Some((next, d')) => ParseHeader(b, next, end, d')
  {
    hide ParseLine;
  }

  lemma {:induction false} CommitterRead(b: Text, p: nat, d: Draft, s: Signature)
    requires At(b, p, COMMITTER + PrintSignature(s)) && HeaderEnd(b) >= p && d.committer.None?
    ensures HeaderEnd(b) > p + 10 && At(b, p + 10, PrintSignature(s))
    ensures ParseHeader(b, p, HeaderEnd(b), d) ==
      match ParseSignature(b, p + 10, HeaderEnd(b))
      case None => None
      case Some((s', next)) => ParseHeader(b, next, HeaderEnd(b), d.(committer := Some(s')))
  {
    hide *;
    CommitterKeyword();
    SignatureNotEmpty(s);
    KeywordRead(b, p, COMMITTER, PrintSignature(s));
    CommitterLine(b, p, HeaderEnd(b), d);
    HeaderStep(b, p, HeaderEnd(b), d);
  }

  /** Where the parts of a printed commit stand. */
  lemma {:induction false} CommitLayout(c: Commit)
    ensures var b := PrintCommit(c);
      var t := 46 + |ParentLines(c.parents)|;
      var q := t + 7 + |PrintSignature(c.author)|;
      var e := q + 10 + |PrintSignature(c.committer)|;
      && At(b, 0, OidLine(TREE, c.tree)) && At(b, 46, ParentLines(c.parents))
      && At(b, t, AUTHOR + PrintSignature(c.author)) && At(b, q, COMMITTER + PrintSignature(c.committer))
      && e < |b| && b[e - 1] == NEWLINE && b[e] == NEWLINE && b[e + 1..] == MessageText(c.message) + [NEWLINE]
  {
    hide *;
    var tree, parents := OidLine(TREE, c.tree), ParentLines(c.parents);
    var author, committer := AUTHOR + PrintSignature(c.author), COMMITTER + PrintSignature(c.committer);
    var tail := [NEWLINE] + MessageText(c.message) + [NEWLINE];
    var b := PrintCommit(c);
    CommitParts(c);
    AuthorKeyword();
    CommitterKeyword();
    FiveParts(tree, parents, author, committer, tail);
    var e := |tree| + |parents| + |author| + |committer|;
    LastAt(b, e - |committer|, committer);
    TailAt(b, e, MessageText(c.message));
  }

  lemma TailAt(b: Text, e: nat, message: Text)
    requires e <= |b| && b[e..] == [NEWLINE] + message + [NEWLINE]
    ensures e < |b| && b[e] == NEWLINE && b[e + 1..] == message + [NEWLINE]
  {
    assert b[e] == b[e..][0];
    assert b[e + 1..] == b[e..][1..];
    assert ([NEWLINE] + message + [NEWLINE])[1..] == message + [NEWLINE];
  }

  lemma {:induction false} CommitParts(c: Commit)
    ensures var tree, parents := OidLine(TREE, c.tree), ParentLines(c.parents);
      var author, committer := AUTHOR + PrintSignature(c.author), COMMITTER + PrintSignature(c.committer);
      var tail := [NEWLINE] + MessageText(c.message) + [NEWLINE];
      && PrintCommit(c) == tree + (parents + (author + (committer + tail)))
      && |tree| == 46 && committer[|committer| - 1] == NEWLINE
  {
    TreeLineLength(c.tree);
    SignatureLastByte(c.committer);
    hide OidLine, ParentLines, PrintSignature, MessageText;
    var tree, parents := OidLine(TREE, c.tree), ParentLines(c.parents);
    var author, committer := AUTHOR + PrintSignature(c.author), COMMITTER + PrintSignature(c.committer);
    var tail := [NEWLINE] + MessageText(c.message) + [NEWLINE];
    assert PrintCommit(c) == PrintHeader(c) + tail;
    assert PrintHeader(c) == tree + parents + author + committer;
    Assoc5(tree, parents, author, committer, tail);
  }

  lemma TreeLineLength(oid: Oid)
    ensures |OidLine(TREE, oid)| == 46
  {
  }

  /** From the parents on to the author. */
  lemma {:induction false} TreeAndParentsRead(c: Commit)
    ensures var b := PrintCommit(c);
      var t := 46 + |ParentLines(c.parents)|;
      HeaderEnd(b) >= t
      && ParseHeader(b, 0, HeaderEnd(b), EMPTY)
         == ParseHeader(b, t, HeaderEnd(b), Draft(Some(c.tree), c.parents, None, None))
  {
    hide *;
    CommitLayout(c);
    var b := PrintCommit(c);
    TreeRead(b, c.tree);
    ParentsRead(b, 46, Draft(Some(c.tree), [], None, None), c.parents);
    EmptyTree(c.tree);
    assert [] + c.parents == c.parents;
  }

  lemma EmptyTree(oid: Oid)
    ensures EMPTY.(tree := Some(oid)) == Draft(Some(oid), [], None, None)
  {
  }

  /** A commit with the message as it is read back: one more newline. */
  function ReadBack(c: Commit): Commit {
    c.(message := Some(MessageText(c.message) + [NEWLINE]))
  }

  /**
   * Parsing a printed commit gives back the tree, the parents in order, both signatures and the
   * message with one more newline, if and only if both signatures are sound.
   */
  lemma {:induction false} CommitRoundTrip(c: Commit)
    requires Representable(c)
    ensures ParseCommit(PrintCommit(c)) == Some(ReadBack(c)) <==> Sound(c.author) && Sound(c.committer)
  {
    hide *;
    var b := PrintCommit(c);
    var end := HeaderEnd(b);
    var t := 46 + |ParentLines(c.parents)|;
    var q := t + 7 + |PrintSignature(c.author)|;
    var e := q + 10 + |PrintSignature(c.committer)|;
    var d := Draft(Some(c.tree), c.parents, None, None);
    PartsRepresentable(c);
    CommitLayout(c);
    TreeAndParentsRead(c);
    AuthorKeyword();
    AuthorRead(b, t, d, c.author);
    SignatureLine(b, t, AUTHOR, c.author);
    if Sound(c.author) {
      var d' := d.(author := Some(c.author));
      CommitterKeyword();
      CommitterRead(b, q, d', c.committer);
      SignatureLine(b, q, COMMITTER, c.committer);
      if Sound(c.committer) {
        HeaderStops(b, e);
        MessageReadBack(c);
        HeaderDone(b, e, d'.(committer := Some(c.committer)));
        Parsed(b, d'.(committer := Some(c.committer)));
      } else {
        WrongCommitter(b, q + 10, d', c.committer);
        NotReadBack(c, b);
      }
    } else {
      WrongAuthor(b, t + 7, d, c.author);
      NotReadBack(c, b);
    }
  }

  lemma PartsRepresentable(c: Commit)
    requires Representable(c)
    ensures Signatures.Representable(c.author) && Signatures.Representable(c.committer)
    ensures IsCString(MessageText(c.message))
  {
  }

  lemma AuthorKeyword()
    ensures Keyword(AUTHOR) && |AUTHOR| == 7 && AUTHOR[6] == SPACE
  {
  }

  lemma CommitterKeyword()
    ensures Keyword(COMMITTER) && |COMMITTER| == 10 && COMMITTER[9] == SPACE
  {
  }

  lemma MessageReadBack(c: Commit)
    requires IsCString(MessageText(c.message))
    ensures CString(MessageText(c.message) + [NEWLINE]) == MessageText(c.message) + [NEWLINE]
    ensures ReadBack(c) == c.(message := Some(MessageText(c.message) + [NEWLINE]))
  {
  }

  lemma HeaderDone(b: Text, end: nat, d: Draft)
    requires end <= |b| && d.tree.Some? && d.author.Some? && d.committer.Some?
    ensures ParseHeader(b, end, end, d) == Some(d)
  {
  }

  lemma Parsed(b: Text, d: Draft)
    requires ParseHeader(b, 0, HeaderEnd(b), EMPTY) == Some(d)
    requires d.tree.Some? && d.author.Some? && d.committer.Some?
    ensures ParseCommit(b) == Some(Commit(d.tree.value, d.parents, d.author.value, d.committer.value, Message(b)))
  {
    hide ParseHeader, Message;
  }

  lemma NotReadBack(c: Commit, b: Text)
    requires var r := ParseHeader(b, 0, HeaderEnd(b), EMPTY);
      r.Some? ==> r.value.author != Some(c.author) || r.value.committer != Some(c.committer)
    ensures ParseCommit(b) != Some(ReadBack(c))
  {
    hide ParseHeader, Message;
  }

  /** A committer found that is another than the one printed stays another to the end. */
  lemma {:induction false} WrongCommitter(b: Text, p: nat, d: Draft, s: Signature)
    requires p <= HeaderEnd(b)
    requires var r := ParseSignature(b, p, HeaderEnd(b)); r.Some? ==> r.value.0 != s
    ensures match ParseSignature(b, p, HeaderEnd(b))
      case None => true
      case Some((s', next)) =>
        var r := ParseHeader(b, next, HeaderEnd(b), d.(committer := Some(s')));
        r.Some? ==> r.value.committer != Some(s)
  {
    hide ParseHeader, ParseSignature;
    match ParseSignature(b, p, HeaderEnd(b))
    case None =>
    case Some((s', next)) =>
      if ParseHeader(b, next, HeaderEnd(b), d.(committer := Some(s'))).Some? {
        FieldsKept(b, next, HeaderEnd(b), d.(committer := Some(s')));
      }
  }

  lemma {:induction false} WrongAuthor(b: Text, p: nat, d: Draft, s: Signature)
    requires p <= HeaderEnd(b)
    requires var r := ParseSignature(b, p, HeaderEnd(b)); r.Some? ==> r.value.0 != s
    ensures match ParseSignature(b, p, HeaderEnd(b))
      case None => true
      case Some((s', next)) =>
        var r := ParseHeader(b, next, HeaderEnd(b), d.(author := Some(s')));
        r.Some? ==> r.value.author != Some(s)
  {
    hide ParseHeader, ParseSignature;
    match ParseSignature(b, p, HeaderEnd(b))
    case None =>
    case Some((s', next)) =>
      if ParseHeader(b, next, HeaderEnd(b), d.(author := Some(s'))).Some? {
        FieldsKept(b, next, HeaderEnd(b), d.(author := Some(s')));
      }
  }

  // ---------- printing in two passes ----------

  lemma {:induction false} ParentLinesLength(parents: seq<Oid>)
    ensures |ParentLines(parents)| == |parents| * 48
  {
    if parents != [] { ParentLinesLength(parents[1..]); }
  }

  lemma {:induction false} ParentLinesJoin(a: seq<Oid>, b: seq<Oid>)
    ensures ParentLines(a + b) == ParentLines(a) + ParentLines(b)
  {
    hide OidLine;
    if a == [] {
      assert a + b == b;
    } else {
      assert (a + b)[1..] == a[1..] + b;
      ParentLinesJoin(a[1..], b);
    }
  }

  lemma ParentLinesStep(parents: seq<Oid>, i: nat)
    requires i < |parents|
    ensures ParentLines(parents[..i + 1]) == ParentLines(parents[..i]) + OidLine(PARENT, parents[i])
    ensures |ParentLines(parents[..i + 1])| <= |ParentLines(parents)|
  {
    hide OidLine;
    assert parents[..i + 1] == parents[..i] + [parents[i]];
    ParentLinesJoin(parents[..i], [parents[i]]);
    assert ParentLines([parents[i]]) == OidLine(PARENT, parents[i]);
    assert parents == parents[..i + 1] + parents[i + 1..];
    ParentLinesJoin(parents[..i + 1], parents[i + 1..]);
  }

  lemma PrintedLength(c: Commit)
    ensures |PrintCommit(c)| == 46 + |ParentLines(c.parents)| + 7 + |PrintSignature(c.author)|
                                + 10 + |PrintSignature(c.committer)| + |MessageText(c.message)| + 2
  {
    CommitParts(c);
    hide ParentLines, PrintSignature, MessageText;
  }

  /** The dry run of `commit_fmt`. */
  method CommitSize(c: Commit) returns (total: nat)
    ensures total == |PrintCommit(c)|
  {
    PrintedLength(c);
    ParentLinesLength(c.parents);
    hide PrintCommit, PrintSignature;
    total := 40 + 4 + 2;
    total := total + |c.parents| * (40 + 6 + 2);
    var nwrite := |AUTHOR + PrintSignature(c.author)|;
    total := total + nwrite;
    nwrite := |COMMITTER + PrintSignature(c.committer)|;
    total := total + nwrite;
    total := total + (if c.message.Some? then |c.message.value| else 0) + 2;
  }

  /** One `snprintf` of the writing pass, at the end of what is already there. */
  method LineFmt(buf: array<Byte>, total: nat, line: Text) returns (r: int)
    requires total <= buf.Length
    modifies buf
    ensures r == if total + |line| < buf.Length then total + |line| else -1
    ensures r >= 0 ==> buf[..r] == old(buf[..total]) + line
  {
    var nwrite := Snprintf(buf, total, buf.Length - total, line);
    if nwrite >= buf.Length - total { return -1; }
    assert buf[..total + nwrite] == buf[..total] + buf[total..total + nwrite];
    r := total + nwrite;
  }

  /** The writing pass of `commit_fmt`: -1 exactly when the payload does not fit. */
  method CommitFmt(buf: array<Byte>, c: Commit) returns (total: int)
    modifies buf
    ensures total == if |PrintCommit(c)| <= buf.Length then |PrintCommit(c)| else -1
    ensures total >= 0 ==> buf[..total] == PrintCommit(c)
  {
    hide *;
    PrintedLength(c);
    AuthorKeyword();
    CommitterKeyword();
    TreeLineLength(c.tree);
    total := LineFmt(buf, 0, OidLine(TREE, c.tree));
    if total < 0 { return; }
    assert buf[..total] == OidLine(TREE, c.tree);
    total := ParentsFmt(buf, total, c.parents);
    if total < 0 { return; }
    total := LineFmt(buf, total, AUTHOR + PrintSignature(c.author));
    if total < 0 { return; }
    total := LineFmt(buf, total, COMMITTER + PrintSignature(c.committer));
    if total < 0 { return; }
    HeaderParts(c);
    assert buf[..total] == PrintHeader(c);
    total := MessageFmt(buf, total, c.message);
    Whole(c);
  }

  lemma HeaderParts(c: Commit)
    ensures PrintHeader(c) == OidLine(TREE, c.tree) + ParentLines(c.parents)
      + (AUTHOR + PrintSignature(c.author)) + (COMMITTER + PrintSignature(c.committer))
  {
  }

  lemma Whole(c: Commit)
    ensures PrintCommit(c) == PrintHeader(c) + [NEWLINE] + MessageText(c.message) + [NEWLINE]
  {
  }

  method ParentsFmt(buf: array<Byte>, start: nat, parents: seq<Oid>) returns (total: int)
    requires start <= buf.Length
    modifies buf
    ensures total == if parents == [] then start
                     else if start + |ParentLines(parents)| < buf.Length then start + |ParentLines(parents)| else -1
    ensures total >= 0 ==> buf[..total] == old(buf[..start]) + ParentLines(parents)
  {
    hide OidLine;
    total := start;
    assert parents[..0] == [] && parents[..|parents|] == parents;
    for i := 0 to |parents|
      invariant start <= total <= buf.Length
      invariant i > 0 ==> total < buf.Length
      invariant total == start + |ParentLines(parents[..i])|
      invariant buf[..total] == old(buf[..start]) + ParentLines(parents[..i])
    {
      ParentLinesStep(parents, i);
      total := LineFmt(buf, total, OidLine(PARENT, parents[i]));
      if total < 0 { return; }
    }
  }

  /** The blank line, the message and the last newline. */
  method MessageFmt(buf: array<Byte>, start: nat, message: Option<Text>) returns (total: int)
    requires start <= buf.Length
    modifies buf
    ensures total == if start + |MessageText(message)| + 2 <= buf.Length then start + |MessageText(message)| + 2 else -1
    ensures total >= 0 ==> buf[..total] == old(buf[..start]) + [NEWLINE] + MessageText(message) + [NEWLINE]
  {
    ghost var head := buf[..start];
    total := start;
    if total + 1 > buf.Length { return -1; }
    buf[total] := NEWLINE;
    total := total + 1;
    assert buf[..total] == head + [NEWLINE];
    if message.Some? {
      if total + |message.value| + 1 > buf.Length { return -1; }
      total := TextFmt(buf, total, message.value);
    }
    if total + 1 > buf.Length { return -1; }
    ghost var body := buf[..total];
    buf[total] := NEWLINE;
    total := total + 1;
    assert buf[..total] == body + [NEWLINE];
  }

  /** `memcpy` of a message with its NUL, behind what is already there. */
  method TextFmt(buf: array<Byte>, start: nat, text: Text) returns (total: nat)
    requires start + |text| + 1 <= buf.Length
    modifies buf
    ensures total == start + |text| && buf[..total] == old(buf[..start]) + text
  {
    ghost var head := buf[..start];
    total := start + |text|;
    CopyTo(buf, start, text + [NUL]);
    assert buf[start..total] == buf[start..total + 1][..|text|] == text;
    assert buf[..start] == head;
    assert buf[..total] == buf[..start] + buf[start..total];
  }

  /** `qgit_commit_create` up to writing the object: the second pass never fails, the payload fills the buffer. */
  method CommitData(c: Commit) returns (ok: bool, data: Text)
    ensures ok && data == PrintCommit(c)
  {
    var buflen := CommitSize(c);
    var buf := new Byte[buflen];
    var total := CommitFmt(buf, c);
    if total < 0 { return false, []; }
    assert buf[..] == buf[..total];
    return true, buf[..];
  }

  // ---------- parsing in place ----------

  /** One line, with the parts of a signature ended by NULs in the buffer. */
  method LineParse(buf: array<Byte>, p: nat, end: nat, d: Draft) returns (r: Option<(nat, Draft)>)
    requires p < end <= buf.Length
    modifies buf
    ensures r == ParseLine(old(buf[..]), p, end, d)
    ensures r.Some? ==> forall i :: r.value.0 <= i < buf.Length ==> buf[i] == old(buf[i])
  {
    hide KeywordAt, FromStrN, ParseSignature, Find;
    ghost var b := buf[..];
    if buf[p] == NEWLINE { return Some((p + 1, d)); }
    if KeywordAt(buf[..], p, end, TREE) {
      if d.tree.Some? || p + 5 + HEXSZ >= end { return None; }
      var oid := OidFromStrN(buf[p + 5..], HEXSZ);
      assert buf[p + 5..] == b[p + 5..];
      if oid.None? { return None; }
      return Some((p + 5 + HEXSZ, d.(tree := oid)));
    }
    if KeywordAt(buf[..], p, end, PARENT) {
      if p + 7 + HEXSZ >= end { return None; }
      var oid := OidFromStrN(buf[p + 7..], HEXSZ);
      assert buf[p + 7..] == b[p + 7..];
      if oid.None? { return None; }
      return Some((p + 7 + HEXSZ, d.(parents := d.parents + [oid.value])));
    }
    if KeywordAt(buf[..], p, end, AUTHOR) {
      if d.author.Some? || p + 7 >= end { return None; }
      var got := SignatureParse(buf, p + 7, end);
      if got.None? { return None; }
      return Some((got.value.1, d.(author := Some(got.value.0))));
    }
    if KeywordAt(buf[..], p, end, COMMITTER) {
      if d.committer.Some? || p + 10 >= end { return None; }
      var got := SignatureParse(buf, p + 10, end);
      if got.None? { return None; }
      return Some((got.value.1, d.(committer := Some(got.value.0))));
    }
    var nl := Scan(buf, p, end, NEWLINE);
    assert buf[p..end] == b[p..end];
    return Some((nl, d));
  }

  lemma {:induction false} LineSuffix(b: Text, c: Text, p: nat, end: nat, d: Draft)
    requires |b| == |c| && p < end <= |b| && b[p..] == c[p..]
    ensures ParseLine(b, p, end, d) == ParseLine(c, p, end, d)
  {
    hide KeywordAt, FromStrN, ParseSignature, Find;
    KeywordSuffix(b, c, p, end, TREE);
    KeywordSuffix(b, c, p, end, PARENT);
    KeywordSuffix(b, c, p, end, AUTHOR);
    KeywordSuffix(b, c, p, end, COMMITTER);
    assert b[p] == b[p..][0] == c[p..][0] == c[p];
    SuffixSlice(b, c, p, p, end);
    if p + 5 <= |b| { FromHere(b, c, p, p + 5); }
    if p + 7 <= |b| { FromHere(b, c, p, p + 7); }
    if p + 7 <= end { SignatureSuffix(b, c, p + 7, end); }
    if p + 10 <= |b| { FromHere(b, c, p, p + 10); }
    if p + 10 <= end { SignatureSuffix(b, c, p + 10, end); }
  }

  /** `parse_header`. */
  method HeaderParse(buf: array<Byte>, end: nat) returns (r: Option<Draft>)
    requires end <= buf.Length
    modifies buf
    ensures r == ParseHeader(old(buf[..]), 0, end, EMPTY)
  {
    hide *;
    ghost var b := buf[..];
    var p, d := 0, EMPTY;
    while p < end
      invariant p <= end
      invariant buf[p..] == b[p..]
      invariant ParseHeader(b, 0, end, EMPTY) == ParseHeader(b, p, end, d)
    {
      HeaderStep(b, p, end, d);
      LineSuffix(b, buf[..], p, end, d);
      ghost var rest := buf[p..];
      var line := LineParse(buf, p, end, d);
      if line.None? { return None; }
      assert buf[line.value.0..] == rest[line.value.0 - p..] == b[line.value.0..];
      p, d := line.value.0, line.value.1;
    }
    HeaderEnded(b, end, d);
    if d.tree.None? || d.author.None? || d.committer.None? { return None; }
    return Some(d);
  }

  lemma HeaderEnded(b: Text, end: nat, d: Draft)
    requires end <= |b|
    ensures ParseHeader(b, end, end, d) == if d.tree.Some? && d.author.Some? && d.committer.Some? then Some(d) else None
  {
  }

  /** `commit_parse`. */
  method CommitParse(buf: array<Byte>) returns (r: Option<Commit>)
    modifies buf
    ensures r == ParseCommit(old(buf[..]))
  {
    hide ParseHeader, BlankLine, CString;
    ghost var b := buf[..];
    var body := BlankLine(buf[..]);
    var message, end := None, buf.Length;
    if body < buf.Length {
      end := body + 1;
      message := Some(CString(buf[body + 2..]));
      assert buf[body + 2..] == b[body + 2..];
    }
    var d := HeaderParse(buf, end);
    if d.None? { return None; }
    return Some(Commit(d.value.tree.value, d.value.parents, d.value.author.value, d.value.committer.value, message));
  }

  // ---------- the payload as text ----------

  /** A merge commit, line by line. */
  lemma {:induction false} CommitText(c: Commit, p: Oid, q: Oid)
    requires c.parents == [p, q]
    ensures PrintCommit(c) ==
      (Ascii("tree ") + Hex(c.tree) + Ascii("\n"))
      + ((Ascii("parent ") + Hex(p) + Ascii("\n")) + (Ascii("parent ") + Hex(q) + Ascii("\n")))
      + (Ascii("author ") + PrintSignature(c.author)) + (Ascii("committer ") + PrintSignature(c.committer))
      + Ascii("\n") + (if c.message.Some? then c.message.value else []) + Ascii("\n")
  {
    hide *;
    KeywordsText();
    HeaderParts(c);
    Whole(c);
    TwoParents(p, q);
    LineIs(TREE, c.tree);
    LineIs(PARENT, p);
    LineIs(PARENT, q);
    MessageIs(c.message);
  }

  lemma KeywordsText()
    ensures TREE == Ascii("tree ") && PARENT == Ascii("parent ") && [NEWLINE] == Ascii("\n")
    ensures AUTHOR == Ascii("author ") && COMMITTER == Ascii("committer ")
  {
  }

  lemma LineIs(kw: Text, oid: Oid)
    ensures OidLine(kw, oid) == kw + Hex(oid) + [NEWLINE]
  {
  }

  lemma MessageIs(message: Option<Text>)
    ensures MessageText(message) == if message.Some? then message.value else []
  {
  }

  lemma TwoParents(p: Oid, q: Oid)
    ensures ParentLines([p, q]) == OidLine(PARENT, p) + OidLine(PARENT, q)
  {
    hide OidLine, PARENT;
    assert [p, q][1..] == [q] && [q][1..] == [];
    assert ParentLines([q]) == OidLine(PARENT, q) + ParentLines([]);
  }
}
