/** Commit payloads with their header lines in any order, and lines the parser does not know (commit_parse.c). */
module CommitLines {
  import opened Bytes
  import opened CommitCodec
  import opened Libc
  import opened OidHex
  import opened Options
  import opened Payload
  import opened Signatures

  /** A header line; `Other` is one that none of the four keywords begins, without its newline. */
  datatype Line = Tree(oid: Oid) | Parent(oid: Oid) | Author(signature: Signature) | Committer(signature: Signature)
                | Other(text: Text)

  function LineText(line: Line): Text {
    match line
    case Tree(oid) => OidLine(TREE, oid)
    case Parent(oid) => OidLine(PARENT, oid)
    case Author(s) => AUTHOR + PrintSignature(s)
    case Committer(s) => COMMITTER + PrintSignature(s)
    case Other(text) => text + [NEWLINE]
  }

  function LinesText(lines: seq<Line>): Text {
    if lines == [] then [] else LineText(lines[0]) + LinesText(lines[1..])
  }

  /** Signatures are sound, and an unknown line is a line that starts with no keyword. */
  ghost predicate Proper(line: Line) {
    match line
    case Tree(_) => true
    case Parent(_) => true
    case Author(s) => Signatures.Representable(s) && Sound(s)
    case Committer(s) => Signatures.Representable(s) && Sound(s)
    case Other(text) => Unknown(text)
  }

  predicate Unknown(text: Text) {
    && text != [] && (forall i :: 0 <= i < |text| ==> text[i] != NEWLINE)
    && !(TREE <= text) && !(PARENT <= text) && !(AUTHOR <= text) && !(COMMITTER <= text)
  }

  /** What a line adds to the fields; tree, author and committer may come once. */
  function Add(d: Draft, line: Line): Option<Draft> {
    match line
    case Tree(oid) => if d.tree.Some? then None else Some(d.(tree := Some(oid)))
    case Parent(oid) => Some(d.(parents := d.parents + [oid]))
    case Author(s) => if d.author.Some? then None else Some(d.(author := Some(s)))
    case Committer(s) => if d.committer.Some? then None else Some(d.(committer := Some(s)))
    case Other(_) => Some(d)
  }

  function AddAll(d: Draft, lines: seq<Line>): Option<Draft>
    decreases |lines|
  {
    if lines == [] then Some(d)
    else
      match Add(d, lines[0])
      case None => None
      case Some(d') => AddAll(d', lines[1..])
  }

  // ---------- the header, in terms of its lines ----------

  /** A line of no known keyword is skipped, up to its newline or the end of the header. */
  lemma {:induction false} UnknownSkipped(b: Text, p: nat, end: nat, d: Draft)
    requires p < end <= |b| && b[p] != NEWLINE
    requires !KeywordAt(b, p, end, TREE) && !KeywordAt(b, p, end, PARENT)
    requires !KeywordAt(b, p, end, AUTHOR) && !KeywordAt(b, p, end, COMMITTER)
    ensures ParseHeader(b, p, end, d) == ParseHeader(b, p + Find(b[p..end], NEWLINE), end, d)
  {
    hide KeywordAt, FromStrN, ParseSignature, Find;
    assert ParseLine(b, p, end, d) == Some((p + Find(b[p..end], NEWLINE), d));
  }

  /** The header is the lines: it goes on behind each with what the line adds, or fails there. */
  lemma {:induction false} LineTaken(b: Text, p: nat, d: Draft, line: Line)
    requires At(b, p, LineText(line)) && Proper(line) && HeaderEnd(b) >= p
    ensures HeaderEnd(b) >= p + |LineText(line)|
    ensures ParseHeader(b, p, HeaderEnd(b), d) ==
      match Add(d, line)
      case None => None
      case Some(d') => ParseHeader(b, p + |LineText(line)|, HeaderEnd(b), d')
  {
    hide *;
    LineCases(line);
    AddCases(d, line);
    match line
    case Tree(oid) => TreeTaken(b, p, d, oid);
    case Parent(oid) => ParentRead(b, p, d, oid);
    case Author(s) => AuthorTaken(b, p, d, s);
    case Committer(s) => CommitterTaken(b, p, d, s);
    case Other(text) => OtherTaken(b, p, d, text);
  }

  lemma LineCases(line: Line)
    ensures LineText(line) ==
      match line
      case Tree(oid) => OidLine(TREE, oid)
      case Parent(oid) => OidLine(PARENT, oid)
      case Author(s) => AUTHOR + PrintSignature(s)
      case Committer(s) => COMMITTER + PrintSignature(s)
      case Other(text) => text + [NEWLINE]
    ensures Proper(line) ==>
      match line
      case Tree(_) => |LineText(line)| == 46
      case Parent(_) => |LineText(line)| == 48
      case Author(s) => Signatures.Representable(s) && Sound(s) && |LineText(line)| == 7 + |PrintSignature(s)|
      case Committer(s) => Signatures.Representable(s) && Sound(s) && |LineText(line)| == 10 + |PrintSignature(s)|
      case Other(text) => Unknown(text) && |LineText(line)| == |text| + 1
  {
    hide PrintSignature, Sound, Unknown, Signatures.Representable;
  }

  lemma AddCases(d: Draft, line: Line)
    ensures Add(d, line) ==
      match line
      case Tree(oid) => if d.tree.Some? then None else Some(d.(tree := Some(oid)))
      case Parent(oid) => Some(d.(parents := d.parents + [oid]))
      case Author(s) => if d.author.Some? then None else Some(d.(author := Some(s)))
      case Committer(s) => if d.committer.Some? then None else Some(d.(committer := Some(s)))
      case Other(_) => Some(d)
  {
  }

  lemma {:induction false} TreeTaken(b: Text, p: nat, d: Draft, oid: Oid)
    requires At(b, p, OidLine(TREE, oid)) && HeaderEnd(b) >= p
    ensures HeaderEnd(b) >= p + 46
    ensures ParseHeader(b, p, HeaderEnd(b), d) ==
      if d.tree.Some? then None else ParseHeader(b, p + 46, HeaderEnd(b), d.(tree := Some(oid)))
  {
    OidLineRead(b, p, TREE, oid);
    hide At, OidLine, HeaderEnd, FromStrN, ParseSignature, Find;
    assert b[p..p + 5][0] == b[p];
    if d.tree.Some? {
      assert ParseLine(b, p, HeaderEnd(b), d) == None;
    } else {
      LineRead(b, p, HeaderEnd(b), d, p + 45, d.(tree := Some(oid)));
      NewlineRead(b, p + 45, HeaderEnd(b), d.(tree := Some(oid)));
    }
  }

  lemma {:induction false} AuthorTaken(b: Text, p: nat, d: Draft, s: Signature)
    requires At(b, p, AUTHOR + PrintSignature(s)) && HeaderEnd(b) >= p && Signatures.Representable(s) && Sound(s)
    ensures HeaderEnd(b) >= p + 7 + |PrintSignature(s)|
    ensures ParseHeader(b, p, HeaderEnd(b), d) ==
      if d.author.Some? then None
      else ParseHeader(b, p + 7 + |PrintSignature(s)|, HeaderEnd(b), d.(author := Some(s)))
  {
    hide *;
    AuthorKeyword();
    SignatureNotEmpty(s);
    SignatureLine(b, p, AUTHOR, s);
    KeywordRead(b, p, AUTHOR, PrintSignature(s));
    if d.author.Some? { AuthorTwice(b, p, HeaderEnd(b), d); } else { AuthorRead(b, p, d, s); }
  }

  lemma {:induction false} AuthorTwice(b: Text, p: nat, end: nat, d: Draft)
    requires p + 7 < end <= |b| && KeywordAt(b, p, end, AUTHOR) && d.author.Some?
    ensures ParseHeader(b, p, end, d) == None
  {
    hide FromStrN, ParseSignature, Find;
    assert b[p..p + 7][0] == b[p] && b[p..p + 7][1] == b[p + 1];
    assert b[p..p + 5][0] == b[p];
    assert ParseLine(b, p, end, d) == None;
  }

  lemma {:induction false} CommitterTaken(b: Text, p: nat, d: Draft, s: Signature)
    requires At(b, p, COMMITTER + PrintSignature(s)) && HeaderEnd(b) >= p && Signatures.Representable(s) && Sound(s)
    ensures HeaderEnd(b) >= p + 10 + |PrintSignature(s)|
    ensures ParseHeader(b, p, HeaderEnd(b), d) ==
      if d.committer.Some? then None
      else ParseHeader(b, p + 10 + |PrintSignature(s)|, HeaderEnd(b), d.(committer := Some(s)))
  {
    hide *;
    CommitterKeyword();
    SignatureNotEmpty(s);
    SignatureLine(b, p, COMMITTER, s);
    KeywordRead(b, p, COMMITTER, PrintSignature(s));
    if d.committer.Some? { CommitterTwice(b, p, HeaderEnd(b), d); } else { CommitterRead(b, p, d, s); }
  }

  lemma {:induction false} CommitterTwice(b: Text, p: nat, end: nat, d: Draft)
    requires p + 10 < end <= |b| && KeywordAt(b, p, end, COMMITTER) && d.committer.Some?
    ensures ParseHeader(b, p, end, d) == None
  {
    hide FromStrN, ParseSignature, Find;
    assert b[p..p + 10][0] == b[p];
    assert b[p..p + 5][0] == b[p];
    assert b[p..p + 7][0] == b[p];
    assert ParseLine(b, p, end, d) == None;
  }

  lemma {:induction false} OtherTaken(b: Text, p: nat, d: Draft, text: Text)
    requires At(b, p, text + [NEWLINE]) && Unknown(text) && HeaderEnd(b) >= p
    ensures HeaderEnd(b) >= p + |text| + 1
    ensures ParseHeader(b, p, HeaderEnd(b), d) == ParseHeader(b, p + |text| + 1, HeaderEnd(b), d)
  {
    hide *;
    UnknownLine(b, p, text);
    HeaderReaches(b, p, text + [NEWLINE]);
    var end := HeaderEnd(b);
    UnknownAt(b, p, end, text);
    FindAt(b, p, end, text, NEWLINE);
    UnknownSkipped(b, p, end, d);
    NewlineRead(b, p + |text|, end, d);
  }

  lemma UnknownLine(b: Text, p: nat, text: Text)
    requires Unknown(text) && At(b, p, text + [NEWLINE])
    ensures text != [] && (text + [NEWLINE])[0] != NEWLINE && Unbroken(text + [NEWLINE])
    ensures b[p] != NEWLINE && b[p + |text|] == NEWLINE && forall i :: 0 <= i < |text| ==> text[i] != NEWLINE
  {
    var t := text + [NEWLINE];
    assert forall i :: 0 <= i < |text| ==> t[i] == text[i];
    assert b[p + 0] == t[0] && b[p + |text|] == t[|text|];
  }

  lemma UnknownAt(b: Text, p: nat, end: nat, text: Text)
    requires Unknown(text) && At(b, p, text + [NEWLINE]) && p + |text| + 1 <= end <= |b|
    ensures !KeywordAt(b, p, end, TREE) && !KeywordAt(b, p, end, PARENT)
    ensures !KeywordAt(b, p, end, AUTHOR) && !KeywordAt(b, p, end, COMMITTER)
  {
    TreeKeyword();
    ParentKeyword();
    AuthorKeyword();
    CommitterKeyword();
    hide TREE, PARENT, AUTHOR, COMMITTER, KeywordAt, At;
    NotAt(b, p, end, text, TREE);
    NotAt(b, p, end, text, PARENT);
    NotAt(b, p, end, text, AUTHOR);
    NotAt(b, p, end, text, COMMITTER);
  }

  lemma TreeKeyword()
    ensures Keyword(TREE)
  {
  }

  lemma ParentKeyword()
    ensures Keyword(PARENT)
  {
  }

  lemma {:induction false} LinesTaken(b: Text, p: nat, d: Draft, lines: seq<Line>)
    requires At(b, p, LinesText(lines)) && HeaderEnd(b) >= p && forall i :: 0 <= i < |lines| ==> Proper(lines[i])
    ensures HeaderEnd(b) >= p + |LinesText(lines)| || AddAll(d, lines) == None
    ensures ParseHeader(b, p, HeaderEnd(b), d) ==
      match AddAll(d, lines)
      case None => None
      case Some(d') => ParseHeader(b, p + |LinesText(lines)|, HeaderEnd(b), d')
    decreases |lines|
  {
    hide LineText, Proper, At, HeaderEnd, ParseHeader, Add;
    if lines != [] {
      AtParts(b, p, LineText(lines[0]), LinesText(lines[1..]));
      LineTaken(b, p, d, lines[0]);
      var d' := Add(d, lines[0]);
      if d'.Some? { LinesTaken(b, p + |LineText(lines[0])|, d'.value, lines[1..]); }
    }
  }

  /** A header that ends within the object name of a line, or right behind a keyword, is refused. */
  lemma {:induction false} CutShort(b: Text, p: nat, end: nat, d: Draft)
    requires p < end <= |b|
    requires || (KeywordAt(b, p, end, TREE) && end <= p + 45) || (KeywordAt(b, p, end, PARENT) && end <= p + 47)
             || (KeywordAt(b, p, end, AUTHOR) && end <= p + 7) || (KeywordAt(b, p, end, COMMITTER) && end <= p + 10)
    ensures ParseHeader(b, p, end, d) == None
  {
    hide FromStrN, ParseSignature, Find;
    assert p + 5 <= end ==> b[p..p + 5][0] == b[p];
    assert p + 7 <= end ==> b[p..p + 7][0] == b[p] && b[p..p + 7][1] == b[p + 1];
    assert p + 10 <= end ==> b[p..p + 10][0] == b[p];
    assert ParseLine(b, p, end, d) == None;
  }

  /** So is one with a byte that is no hex digit in such a name. */
  lemma {:induction false} NoObjectName(b: Text, p: nat, end: nat, d: Draft)
    requires p < end <= |b|
    requires || (KeywordAt(b, p, end, TREE) && p + 45 < end && !AllHex(b[p + 5..p + 45]))
             || (KeywordAt(b, p, end, PARENT) && p + 47 < end && !AllHex(b[p + 7..p + 47]))
    ensures ParseHeader(b, p, end, d) == None
  {
    assert p + 45 < end ==> b[p + 5..][..40] == b[p + 5..p + 45];
    assert p + 47 < end ==> b[p + 7..][..40] == b[p + 7..p + 47];
    assert p + 5 <= end ==> b[p..p + 5][0] == b[p];
    assert p + 7 <= end ==> b[p..p + 7][0] == b[p];
    hide AllHex, ParseSignature, Find;
    assert ParseLine(b, p, end, d) == None;
  }

  // ---------- the whole payload ----------

  function PayloadText(lines: seq<Line>, message: Option<Text>): Text {
    LinesText(lines) + (if message.Some? then [NEWLINE] + message.value else [])
  }

  /** The commit that the fields make, if none is missing. */
  function CommitOf(d: Option<Draft>, message: Option<Text>): Option<Commit> {
    if d.Some? && d.value.tree.Some? && d.value.author.Some? && d.value.committer.Some? then
      Some(Commit(d.value.tree.value, d.value.parents, d.value.author.value, d.value.committer.value, message))
    else None
  }

  /**
   * A payload of proper lines, in any order, with or without a message, is read as the commit of
   * their fields: the one tree, author and committer and all parents in the order of their lines. If
   * one of the three is missing or comes twice, it is refused.
   */
  lemma {:induction false} LinesExactly(lines: seq<Line>, message: Option<Text>)
    requires lines != [] && forall i :: 0 <= i < |lines| ==> Proper(lines[i])
    requires message.Some? ==> IsCString(message.value)
    ensures ParseCommit(PayloadText(lines, message)) == CommitOf(AddAll(EMPTY, lines), message)
  {
    hide *;
    var b, text := PayloadText(lines, message), LinesText(lines);
    var d, e := AddAll(EMPTY, lines), |text|;
    Parts(lines, message);
    AtFirst(b, text);
    LinesTaken(b, 0, EMPTY, lines);
    ParsedAs(b);
    CommitOfCases(d, message);
    if d.Some? {
      if message.Some? {
        HeaderStops(b, e);
        WholeString(message.value);
      } else {
        NoMessage(b);
      }
      HeaderEnded(b, e, d.value);
    }
  }

  lemma CommitOfCases(d: Option<Draft>, message: Option<Text>)
    ensures CommitOf(d, message) ==
      if d.Some? && d.value.tree.Some? && d.value.author.Some? && d.value.committer.Some? then
        Some(Commit(d.value.tree.value, d.value.parents, d.value.author.value, d.value.committer.value, message))
      else None
  {
  }

  lemma ParsedAs(b: Text)
    ensures ParseCommit(b) ==
      match ParseHeader(b, 0, HeaderEnd(b), EMPTY)
      case None => None
      case Some(d) => Some(Commit(d.tree.value, d.parents, d.author.value, d.committer.value, Message(b)))
  {
  }

  lemma {:induction false} Parts(lines: seq<Line>, message: Option<Text>)
    requires lines != [] && forall i :: 0 <= i < |lines| ==> Proper(lines[i])
    ensures var b, text := PayloadText(lines, message), LinesText(lines);
      && text <= b && text != [] && b[|text| - 1] == NEWLINE
      && (message.Some? ==> |text| < |b| && b[|text|] == NEWLINE && b[|text| + 1..] == message.value)
      && (message.None? ==> b == text)
  {
    LastNewline(lines);
    hide LinesText, Proper;
    var text := LinesText(lines);
    if message.Some? {
      var b := PayloadText(lines, message);
      assert b == text + ([NEWLINE] + message.value);
    }
  }

  lemma {:induction false} LastNewline(lines: seq<Line>)
    requires lines != [] && forall i :: 0 <= i < |lines| ==> Proper(lines[i])
    ensures LinesText(lines) != [] && LinesText(lines)[|LinesText(lines)| - 1] == NEWLINE
    decreases |lines|
  {
    LineLastNewline(lines[0]);
    hide LineText, Proper;
    if |lines| > 1 {
      LastNewline(lines[1..]);
    } else {
      assert LinesText(lines[1..]) == [];
    }
  }

  lemma LineLastNewline(line: Line)
    ensures LineText(line) != [] && LineText(line)[|LineText(line)| - 1] == NEWLINE
  {
    match line
    case Author(s) => SignatureLastByte(s);
    case Committer(s) => SignatureLastByte(s);
    case Tree(_) =>
    case Parent(_) =>
    case Other(_) =>
  }

  // ---------- printed commits with more lines ----------

  function ParentsOf(parents: seq<Oid>): seq<Line> {
    if parents == [] then [] else [Parent(parents[0])] + ParentsOf(parents[1..])
  }

  /** The lines of a printed commit. */
  function LinesOf(c: Commit): seq<Line> {
    [Tree(c.tree)] + (ParentsOf(c.parents) + [Author(c.author), Committer(c.committer)])
  }

  function Known(lines: seq<Line>): seq<Line> {
    if lines == [] then [] else (if lines[0].Other? then [] else [lines[0]]) + Known(lines[1..])
  }

  lemma {:induction false} AddKnown(d: Draft, lines: seq<Line>)
    ensures AddAll(d, Known(lines)) == AddAll(d, lines)
    decreases |lines|
  {
    if lines != [] {
      var d' := Add(d, lines[0]);
      if d'.Some? { AddKnown(d'.value, lines[1..]); }
      if !lines[0].Other? { assert ([lines[0]] + Known(lines[1..]))[1..] == Known(lines[1..]); }
      assert [] + Known(lines[1..]) == Known(lines[1..]);
    }
  }

  lemma {:induction false} AddParents(d: Draft, parents: seq<Oid>, more: seq<Line>)
    ensures AddAll(d, ParentsOf(parents) + more) == AddAll(d.(parents := d.parents + parents), more)
    decreases |parents|
  {
    hide *;
    ParentsCases(parents, more);
    if parents == [] {
      assert d.parents + parents == d.parents;
    } else {
      var line := Parent(parents[0]);
      AddCases(d, line);
      AddOne(d, line, ParentsOf(parents[1..]) + more);
      AddParents(d.(parents := d.parents + [parents[0]]), parents[1..], more);
      assert d.parents + [parents[0]] + parents[1..] == d.parents + parents;
    }
  }

  lemma ParentsCases(parents: seq<Oid>, more: seq<Line>)
    ensures ParentsOf(parents) + more ==
      if parents == [] then more else [Parent(parents[0])] + (ParentsOf(parents[1..]) + more)
  {
  }

  lemma {:induction false} AddPrinted(c: Commit)
    ensures AddAll(EMPTY, LinesOf(c)) == Some(Draft(Some(c.tree), c.parents, Some(c.author), Some(c.committer)))
  {
    var last := [Author(c.author), Committer(c.committer)];
    var d := Draft(Some(c.tree), [], None, None);
    assert LinesOf(c)[1..] == ParentsOf(c.parents) + last;
    AddParents(d, c.parents, last);
    assert [] + c.parents == c.parents;
    var d' := d.(parents := c.parents);
    AddOne(d', Author(c.author), [Committer(c.committer)]);
    AddOne(d'.(author := Some(c.author)), Committer(c.committer), []);
    AddOne(EMPTY, Tree(c.tree), ParentsOf(c.parents) + last);
  }

  lemma AddOne(d: Draft, line: Line, rest: seq<Line>)
    requires Add(d, line).Some?
    ensures AddAll(d, [line] + rest) == AddAll(Add(d, line).value, rest)
    ensures rest == [] ==> AddAll(d, [line]) == Add(d, line)
  {
    assert ([line] + rest)[1..] == rest;
  }

  lemma TwoLines(x: Line, y: Line)
    ensures LinesText([x, y]) == LineText(x) + LineText(y)
  {
    assert [x, y][1..] == [y] && [y][1..] == [];
    assert LinesText([y]) == LineText(y) + LinesText([]);
  }

  /** A printed commit is the text of its lines. */
  lemma {:induction false} PrintedLines(c: Commit)
    ensures PrintCommit(c) == PayloadText(LinesOf(c), Some(MessageText(c.message) + [NEWLINE]))
  {
    hide OidLine, PrintSignature, MessageText;
    var last := [Author(c.author), Committer(c.committer)];
    JoinLines(ParentsOf(c.parents), last);
    ParentsText(c.parents);
    assert LinesOf(c)[1..] == ParentsOf(c.parents) + last;
    var author, committer := AUTHOR + PrintSignature(c.author), COMMITTER + PrintSignature(c.committer);
    TwoLines(Author(c.author), Committer(c.committer));
    var tree, parents, tail := OidLine(TREE, c.tree), ParentLines(c.parents), MessageText(c.message) + [NEWLINE];
    assert LinesText(LinesOf(c)) == tree + (parents + (author + committer));
    assert PrintCommit(c) == tree + parents + author + committer + [NEWLINE] + MessageText(c.message) + [NEWLINE];
    Rebracket(tree, parents, author, committer, MessageText(c.message));
  }

  lemma Rebracket(a: Text, b: Text, c: Text, d: Text, m: Text)
    ensures a + b + c + d + [NEWLINE] + m + [NEWLINE] == a + (b + (c + d)) + ([NEWLINE] + (m + [NEWLINE]))
  {
  }

  lemma {:induction false} ParentsText(parents: seq<Oid>)
    ensures LinesText(ParentsOf(parents)) == ParentLines(parents)
  {
    hide OidLine;
    if parents != [] {
      ParentsText(parents[1..]);
      assert ParentsOf(parents)[1..] == ParentsOf(parents[1..]);
    }
  }

  lemma {:induction false} JoinLines(a: seq<Line>, b: seq<Line>)
    ensures LinesText(a + b) == LinesText(a) + LinesText(b)
    decreases |a|
  {
    hide LineText;
    if a == [] {
      assert a + b == b;
    } else {
      assert (a + b)[1..] == a[1..] + b;
      JoinLines(a[1..], b);
    }
  }

  /** Lines the parser does not know, put in anywhere among the lines of a printed commit, change nothing. */
  lemma {:induction false} UnknownLinesIgnored(c: Commit, lines: seq<Line>)
    requires CommitCodec.Representable(c) && Known(lines) == LinesOf(c)
    requires forall i :: 0 <= i < |lines| ==> Proper(lines[i])
    ensures ParseCommit(PayloadText(lines, Some(MessageText(c.message) + [NEWLINE]))) == Some(ReadBack(c))
  {
    hide LinesText, Proper, ParseCommit, EMPTY, AddAll, CommitCodec.Representable;
    PartsRepresentable(c);
    var text := MessageText(c.message) + [NEWLINE];
    assert lines != [];
    assert IsCString(text);
    LinesExactly(lines, Some(text));
    AddKnown(EMPTY, lines);
    AddPrinted(c);
  }
}
