/** Tag payloads with their header lines in any order, and lines the parser does not know (tag_parse.c). */
module TagLines {
  import opened Bytes
  import opened Libc
  import Odb
  import opened OidHex
  import opened Options
  import opened Payload
  import opened Signatures
  import opened TagCodec

  /** A header line; `Other` is one that none of the four keywords begins, without its newline. */
  datatype Line = Object(oid: Oid) | Type(name: Text) | Name(name: Text) | Tagger(signature: Signature)
                | Other(text: Text)

  function LineText(line: Line): Text {
    match line
    case Object(oid) => OidLine(OBJECT, oid)
    case Type(name) => TYPE + (name + [NEWLINE])
    case Name(name) => TAG + (name + [NEWLINE])
    case Tagger(s) => TAGGER + PrintSignature(s)
    case Other(text) => text + [NEWLINE]
  }

  function LinesText(lines: seq<Line>): Text {
    if lines == [] then [] else LineText(lines[0]) + LinesText(lines[1..])
  }

  /** Names are C strings of one line, signatures are sound, and an unknown line starts with no keyword. */
  ghost predicate Proper(line: Line) {
    match line
    case Object(_) => true
    case Type(name) => IsCString(name) && OneLine(name)
    case Name(name) => IsCString(name) && OneLine(name)
    case Tagger(s) => Signatures.Representable(s) && Sound(s)
    case Other(text) => Unknown(text)
  }

  predicate Unknown(text: Text) {
    && text != [] && OneLine(text)
    && !(OBJECT <= text) && !(TYPE <= text) && !(TAG <= text) && !(TAGGER <= text)
  }

  /** What a line adds to the fields; each may come once, and the type must be one of the four. */
  function Add(d: Draft, line: Line): Option<Draft> {
    match line
    case Object(oid) => if d.target.Some? then None else Some(d.(target := Some(oid)))
    case Type(name) => if d.kind.Some? || TypeOf(name).None? then None else Some(d.(kind := TypeOf(name)))
    case Name(name) => if d.name.Some? then None else Some(d.(name := Some(name)))
    case Tagger(s) => if d.tagger.Some? then None else Some(d.(tagger := Some(s)))
    case Other(_) => Some(d)
  }

  function AddAll(d: Draft, lines: seq<Line>): Option<Draft>
    decreases |lines|
  {
    if lines == [] then Some(d)
    else
      match Add(d, lines[0])
      case None => None
      case Some(d') => AddAll(d', lines[1..])
  }

  /** The types that can be tagged are these four words. */
  lemma TypeOfExactly(name: Text)
    ensures TypeOf(name) == Some(Odb.CommitObj) <==> name == Ascii("commit")
    ensures TypeOf(name) == Some(Odb.TreeObj) <==> name == Ascii("tree")
    ensures TypeOf(name) == Some(Odb.BlobObj) <==> name == Ascii("blob")
    ensures TypeOf(name) == Some(Odb.TagObj) <==> name == Ascii("tag")
  {
    TypesText();
    assert |Ascii("commit")| == 6 && Ascii("tree")[0] == 116 && Ascii("blob")[0] == 98;
  }

  // ---------- the header, in terms of its lines ----------

  /** A line of no known keyword is skipped, up to its newline or the end of the header. */
  lemma {:induction false} UnknownSkipped(b: Text, p: nat, end: nat, d: Draft)
    requires p < end <= |b| && b[p] != NEWLINE
    requires !KeywordAt(b, p, end, OBJECT) && !KeywordAt(b, p, end, TYPE)
    requires !KeywordAt(b, p, end, TAG) && !KeywordAt(b, p, end, TAGGER)
    ensures ParseHeader(b, p, end, d) == ParseHeader(b, p + Find(b[p..end], NEWLINE), end, d)
  {
    hide KeywordAt, FromStrN, ParseSignature, Find, TypeOf, CString, UpToNewline;
    assert ParseLine(b, p, end, d) == Some((p + Find(b[p..end], NEWLINE), d));
  }

  /** The header is the lines: it goes on behind each with what the line adds, or fails there. */
  lemma {:induction false} LineTaken(b: Text, p: nat, d: Draft, line: Line)
    requires At(b, p, LineText(line)) && Proper(line) && HeaderEnd(b) >= p
    ensures HeaderEnd(b) >= p + |LineText(line)|
    ensures ParseHeader(b, p, HeaderEnd(b), d) ==
      match Add(d, line)
      case None => None
      case Some(d') => ParseHeader(b, p + |LineText(line)|, HeaderEnd(b), d')
  {
    hide *;
    LineCases(line);
    AddCases(d, line);
    match line
    case Object(oid) => ObjectTaken(b, p, d, oid);
    case Type(name) => TypeTaken(b, p, d, name);
    case Name(name) => NameTaken(b, p, d, name);
    case Tagger(s) => TaggerTaken(b, p, d, s);
    case Other(text) => OtherTaken(b, p, d, text);
  }

  lemma LineCases(line: Line)
    ensures LineText(line) ==
      match line
      case Object(oid) => OidLine(OBJECT, oid)
      case Type(name) => TYPE + (name + [NEWLINE])
      case Name(name) => TAG + (name + [NEWLINE])
      case Tagger(s) => TAGGER + PrintSignature(s)
      case Other(text) => text + [NEWLINE]
    ensures Proper(line) ==>
      match line
      case Object(_) => |LineText(line)| == 48
      case Type(name) => IsCString(name) && OneLine(name) && |LineText(line)| == 6 + |name|
      case Name(name) => IsCString(name) && OneLine(name) && |LineText(line)| == 5 + |name|
      case Tagger(s) => Signatures.Representable(s) && Sound(s) && |LineText(line)| == 7 + |PrintSignature(s)|
      case Other(text) => Unknown(text) && |LineText(line)| == |text| + 1
  {
    hide PrintSignature, Sound, Unknown, Signatures.Representable, IsCString, OneLine;
  }

  lemma AddCases(d: Draft, line: Line)
    ensures Add(d, line) ==
      match line
      case Object(oid) => if d.target.Some? then None else Some(d.(target := Some(oid)))
      case Type(name) => if d.kind.Some? || TypeOf(name).None? then None else Some(d.(kind := TypeOf(name)))
      case Name(name) => if d.name.Some? then None else Some(d.(name := Some(name)))
      case Tagger(s) => if d.tagger.Some? then None else Some(d.(tagger := Some(s)))
      case Other(_) => Some(d)
  {
    hide TypeOf;
  }

  lemma {:induction false} ObjectTaken(b: Text, p: nat, d: Draft, oid: Oid)
    requires At(b, p, OidLine(OBJECT, oid)) && HeaderEnd(b) >= p
    ensures HeaderEnd(b) >= p + 48
    ensures ParseHeader(b, p, HeaderEnd(b), d) ==
      if d.target.Some? then None else ParseHeader(b, p + 48, HeaderEnd(b), d.(target := Some(oid)))
  {
    hide *;
    Keywords();
    OidLineRead(b, p, OBJECT, oid);
    HeaderStep(b, p, HeaderEnd(b), d);
    if d.target.Some? {
      ObjectTwice(b, p, HeaderEnd(b), d);
    } else {
      ObjectLine(b, p, HeaderEnd(b), d, oid);
      NewlineRead(b, p + 47, HeaderEnd(b), d.(target := Some(oid)));
    }
  }

  lemma {:induction false} ObjectTwice(b: Text, p: nat, end: nat, d: Draft)
    requires p < end <= |b| && KeywordAt(b, p, end, OBJECT) && d.target.Some?
    ensures ParseLine(b, p, end, d) == None
  {
    hide FromStrN, ParseSignature, Find, TypeOf, CString, UpToNewline;
    assert b[p..p + 7][0] == b[p];
  }

  lemma {:induction false} TypeTaken(b: Text, p: nat, d: Draft, name: Text)
    requires At(b, p, TYPE + (name + [NEWLINE])) && HeaderEnd(b) >= p && IsCString(name) && OneLine(name)
    ensures HeaderEnd(b) >= p + 6 + |name|
    ensures ParseHeader(b, p, HeaderEnd(b), d) ==
      if d.kind.Some? || TypeOf(name).None? then None
      else ParseHeader(b, p + 6 + |name|, HeaderEnd(b), d.(kind := TypeOf(name)))
  {
    hide *;
    Keywords();
    KeywordRead(b, p, TYPE, name + [NEWLINE]);
    NoNewline(name);
    LineUnbroken(TYPE, name);
    HeaderReaches(b, p, TYPE + (name + [NEWLINE]));
    FindAt(b, p + 5, HeaderEnd(b), name, NEWLINE);
    AtParts(b, p + 5, name, [NEWLINE]);
    CStringAt(b, p + 5, name);
    HeaderStep(b, p, HeaderEnd(b), d);
    AnyTypeLine(b, p, HeaderEnd(b), d, name);
  }

  lemma NoNewline(name: Text)
    requires OneLine(name)
    ensures forall i :: 0 <= i < |name| ==> name[i] != NEWLINE
  {
  }

  lemma {:induction false} AnyTypeLine(b: Text, p: nat, end: nat, d: Draft, name: Text)
    requires p + 5 < end <= |b| && KeywordAt(b, p, end, TYPE)
    requires p + 5 + |name| < end && Find(b[p + 5..end], NEWLINE) == |name|
    requires CString(b[p + 5..p + 5 + |name|]) == name
    ensures ParseLine(b, p, end, d) ==
      if d.kind.Some? || TypeOf(name).None? then None else Some((p + 6 + |name|, d.(kind := TypeOf(name))))
  {
    hide FromStrN, ParseSignature, Find, TypeOf, CString, UpToNewline;
    assert b[p..p + 5][0] == b[p];
    assert p + 7 <= |b| ==> b[p..p + 7][0] == b[p];
  }

  lemma {:induction false} NameTaken(b: Text, p: nat, d: Draft, name: Text)
    requires At(b, p, TAG + (name + [NEWLINE])) && HeaderEnd(b) >= p && IsCString(name) && OneLine(name)
    ensures HeaderEnd(b) >= p + 5 + |name|
    ensures ParseHeader(b, p, HeaderEnd(b), d) ==
      if d.name.Some? then None else ParseHeader(b, p + 5 + |name|, HeaderEnd(b), d.(name := Some(name)))
  {
    hide *;
    Keywords();
    NameFound(name);
    KeywordRead(b, p, TAG, name + [NEWLINE]);
    NoNewline(name);
    LineUnbroken(TAG, name);
    HeaderReaches(b, p, TAG + (name + [NEWLINE]));
    if d.name.Some? {
      HeaderStep(b, p, HeaderEnd(b), d);
      NameTwice(b, p, HeaderEnd(b), d);
    } else {
      NameRead(b, p, d, name);
    }
  }

  lemma {:induction false} NameTwice(b: Text, p: nat, end: nat, d: Draft)
    requires p + 4 < end <= |b| && KeywordAt(b, p, end, TAG) && d.name.Some?
    ensures ParseLine(b, p, end, d) == None
  {
    hide FromStrN, ParseSignature, Find, TypeOf, CString, UpToNewline;
    assert b[p..p + 4][0] == b[p] && b[p..p + 4][1] == b[p + 1];
    assert b[p..p + 5][1] == b[p + 1];
    assert p + 7 <= |b| ==> b[p..p + 7][0] == b[p];
  }

  lemma {:induction false} TaggerTaken(b: Text, p: nat, d: Draft, s: Signature)
    requires At(b, p, TAGGER + PrintSignature(s)) && HeaderEnd(b) >= p && Signatures.Representable(s) && Sound(s)
    ensures HeaderEnd(b) >= p + 7 + |PrintSignature(s)|
    ensures ParseHeader(b, p, HeaderEnd(b), d) ==
      if d.tagger.Some? then None
      else ParseHeader(b, p + 7 + |PrintSignature(s)|, HeaderEnd(b), d.(tagger := Some(s)))
  {
    hide *;
    Keywords();
    SignatureNotEmpty(s);
    SignatureLine(b, p, TAGGER, s);
    KeywordRead(b, p, TAGGER, PrintSignature(s));
    if d.tagger.Some? {
      HeaderStep(b, p, HeaderEnd(b), d);
      TaggerTwice(b, p, HeaderEnd(b), d);
    } else {
      TaggerRead(b, p, d, s);
    }
  }

  lemma {:induction false} TaggerTwice(b: Text, p: nat, end: nat, d: Draft)
    requires p + 7 < end <= |b| && KeywordAt(b, p, end, TAGGER) && d.tagger.Some?
    ensures ParseLine(b, p, end, d) == None
  {
    hide FromStrN, ParseSignature, Find, TypeOf, CString, UpToNewline;
    assert b[p..p + 7][0] == b[p] && b[p..p + 7][1] == b[p + 1] && b[p..p + 7][3] == b[p + 3];
    assert b[p..p + 5][1] == b[p + 1];
    assert b[p..p + 4][3] == b[p + 3];
  }

  lemma {:induction false} OtherTaken(b: Text, p: nat, d: Draft, text: Text)
    requires At(b, p, text + [NEWLINE]) && Unknown(text) && HeaderEnd(b) >= p
    ensures HeaderEnd(b) >= p + |text| + 1
    ensures ParseHeader(b, p, HeaderEnd(b), d) == ParseHeader(b, p + |text| + 1, HeaderEnd(b), d)
  {
    hide *;
    UnknownLine(b, p, text);
    HeaderReaches(b, p, text + [NEWLINE]);
    var end := HeaderEnd(b);
    UnknownAt(b, p, end, text);
    FindAt(b, p, end, text, NEWLINE);
    UnknownSkipped(b, p, end, d);
    NewlineRead(b, p + |text|, end, d);
  }

  lemma UnknownLine(b: Text, p: nat, text: Text)
    requires Unknown(text) && At(b, p, text + [NEWLINE])
    ensures text != [] && (text + [NEWLINE])[0] != NEWLINE && Unbroken(text + [NEWLINE])
    ensures b[p] != NEWLINE && b[p + |text|] == NEWLINE && forall i :: 0 <= i < |text| ==> text[i] != NEWLINE
  {
    var t := text + [NEWLINE];
    assert forall i :: 0 <= i < |text| ==> t[i] == text[i];
    assert b[p + 0] == t[0] && b[p + |text|] == t[|text|];
  }

  lemma UnknownAt(b: Text, p: nat, end: nat, text: Text)
    requires Unknown(text) && At(b, p, text + [NEWLINE]) && p + |text| + 1 <= end <= |b|
    ensures !KeywordAt(b, p, end, OBJECT) && !KeywordAt(b, p, end, TYPE)
    ensures !KeywordAt(b, p, end, TAG) && !KeywordAt(b, p, end, TAGGER)
  {
    Keywords();
    hide OBJECT, TYPE, TAG, TAGGER, KeywordAt, At;
    NotAt(b, p, end, text, OBJECT);
    NotAt(b, p, end, text, TYPE);
    NotAt(b, p, end, text, TAG);
    NotAt(b, p, end, text, TAGGER);
  }

  lemma {:induction false} LinesTaken(b: Text, p: nat, d: Draft, lines: seq<Line>)
    requires At(b, p, LinesText(lines)) && HeaderEnd(b) >= p && forall i :: 0 <= i < |lines| ==> Proper(lines[i])
    ensures HeaderEnd(b) >= p + |LinesText(lines)| || AddAll(d, lines) == None
    ensures ParseHeader(b, p, HeaderEnd(b), d) ==
      match AddAll(d, lines)
      case None => None
      case Some(d') => ParseHeader(b, p + |LinesText(lines)|, HeaderEnd(b), d')
    decreases |lines|
  {
    hide LineText, Proper, At, HeaderEnd, ParseHeader, Add;
    if lines != [] {
      AtParts(b, p, LineText(lines[0]), LinesText(lines[1..]));
      LineTaken(b, p, d, lines[0]);
      var d' := Add(d, lines[0]);
      if d'.Some? { LinesTaken(b, p + |LineText(lines[0])|, d'.value, lines[1..]); }
    }
  }

  /** A header that ends within the object name of a line, or right behind a keyword, is refused. */
  lemma {:induction false} CutShort(b: Text, p: nat, end: nat, d: Draft)
    requires p < end <= |b|
    requires || (KeywordAt(b, p, end, OBJECT) && end <= p + 47) || (KeywordAt(b, p, end, TYPE) && end <= p + 5)
             || (KeywordAt(b, p, end, TAG) && end <= p + 4) || (KeywordAt(b, p, end, TAGGER) && end <= p + 7)
    ensures ParseHeader(b, p, end, d) == None
  {
    hide FromStrN, ParseSignature, Find, TypeOf, CString, UpToNewline;
    assert p + 4 <= end ==> b[p..p + 4][0] == b[p] && b[p..p + 4][1] == b[p + 1] && b[p..p + 4][3] == b[p + 3];
    assert p + 5 <= end ==> b[p..p + 5][0] == b[p] && b[p..p + 5][1] == b[p + 1];
    assert p + 7 <= end ==> b[p..p + 7][0] == b[p] && b[p..p + 7][1] == b[p + 1] && b[p..p + 7][3] == b[p + 3];
    assert ParseLine(b, p, end, d) == None;
  }

  /** So is one with a byte that is no hex digit in the object name, or a type or a name without its newline. */
  lemma {:induction false} NotALine(b: Text, p: nat, end: nat, d: Draft)
    requires p < end <= |b|
    requires || (KeywordAt(b, p, end, OBJECT) && p + 47 < end && !AllHex(b[p + 7..p + 47]))
             || (KeywordAt(b, p, end, TYPE) && forall i :: p + 5 <= i < end ==> b[i] != NEWLINE)
             || (KeywordAt(b, p, end, TAG) && forall i :: p + 4 <= i < |b| ==> b[i] != NEWLINE)
    ensures ParseHeader(b, p, end, d) == None
  {
    assert p + 47 < end ==> b[p + 7..][..40] == b[p + 7..p + 47];
    assert p + 4 <= end ==> b[p..p + 4][0] == b[p] && b[p..p + 4][1] == b[p + 1];
    assert p + 5 <= end ==> b[p..p + 5][0] == b[p] && b[p..p + 5][1] == b[p + 1];
    assert p + 7 <= end ==> b[p..p + 7][0] == b[p];
    hide AllHex, ParseSignature, TypeOf, CString;
    assert ParseLine(b, p, end, d) == None;
  }

  /** And one whose name holds a NUL. */
  lemma {:induction false} NulInName(b: Text, p: nat, end: nat, d: Draft, k: nat)
    requires p + 4 < end <= |b| && KeywordAt(b, p, end, TAG)
    requires p + 4 <= k < |b| && b[k] == NUL && forall i :: p + 4 <= i < k ==> b[i] != NEWLINE
    ensures ParseHeader(b, p, end, d) == None
  {
    var t := b[p + 4..];
    assert t[k - p - 4] == NUL && forall i :: 0 <= i < k - p - 4 ==> t[i] == b[p + 4 + i];
    assert UpToNewline(t) == None;
    hide UpToNewline;
    HeaderStep(b, p, end, d);
    if d.name.Some? { NameTwice(b, p, end, d); } else { TagLine(b, p, end, d); }
  }

  // ---------- the whole payload ----------

  function PayloadText(lines: seq<Line>, message: Option<Text>): Text {
    LinesText(lines) + (if message.Some? then [NEWLINE] + message.value else [])
  }

  /** The tag that the fields make, if none is missing. */
  function TagOf(d: Option<Draft>, message: Option<Text>): Option<Tag> {
    if d.Some? && d.value.target.Some? && d.value.kind.Some? && d.value.name.Some? && d.value.tagger.Some? then
      Some(Tag(d.value.target.value, d.value.kind.value, d.value.name.value, d.value.tagger.value, message))
    else None
  }

  /**
   * A payload of proper lines, in any order, with or without a message, is read as the tag of their
   * fields. If one of the four is missing or comes twice, or the type is none, it is refused.
   */
  lemma {:induction false} LinesExactly(lines: seq<Line>, message: Option<Text>)
    requires lines != [] && forall i :: 0 <= i < |lines| ==> Proper(lines[i])
    requires message.Some? ==> IsCString(message.value)
    ensures ParseTag(PayloadText(lines, message)) == TagOf(AddAll(EMPTY, lines), message)
  {
    hide *;
    var b, text := PayloadText(lines, message), LinesText(lines);
    var d, e := AddAll(EMPTY, lines), |text|;
    Parts(lines, message);
    AtFirst(b, text);
    LinesTaken(b, 0, EMPTY, lines);
    ParsedAs(b);
    TagOfCases(d, message);
    if d.Some? {
      if message.Some? {
        HeaderStops(b, e);
        WholeString(message.value);
      } else {
        NoMessage(b);
      }
      FullCases(d.value);
      HeaderEnded(b, e, e, d.value);
    }
  }

  lemma FullCases(d: Draft)
    ensures Full(d) <==> d.target.Some? && d.kind.Some? && d.name.Some? && d.tagger.Some?
  {
  }

  lemma TagOfCases(d: Option<Draft>, message: Option<Text>)
    ensures TagOf(d, message) ==
      if d.Some? && d.value.target.Some? && d.value.kind.Some? && d.value.name.Some? && d.value.tagger.Some? then
        Some(Tag(d.value.target.value, d.value.kind.value, d.value.name.value, d.value.tagger.value, message))
      else None
  {
  }

  lemma ParsedAs(b: Text)
    ensures ParseTag(b) ==
      match ParseHeader(b, 0, HeaderEnd(b), EMPTY)
      case None => None
      case Some(d) => Some(Tag(d.target.value, d.kind.value, d.name.value, d.tagger.value, Message(b)))
  {
  }

  lemma {:induction false} Parts(lines: seq<Line>, message: Option<Text>)
    requires lines != []
    ensures var b, text := PayloadText(lines, message), LinesText(lines);
      && text <= b && text != [] && b[|text| - 1] == NEWLINE
      && (message.Some? ==> |text| < |b| && b[|text|] == NEWLINE && b[|text| + 1..] == message.value)
      && (message.None? ==> b == text)
  {
    LastNewline(lines);
    hide LinesText;
    var text := LinesText(lines);
    if message.Some? {
      var b := PayloadText(lines, message);
      assert b == text + ([NEWLINE] + message.value);
    }
  }

  lemma {:induction false} LastNewline(lines: seq<Line>)
    requires lines != []
    ensures LinesText(lines) != [] && LinesText(lines)[|LinesText(lines)| - 1] == NEWLINE
    decreases |lines|
  {
    LineLastNewline(lines[0]);
    hide LineText;
    if |lines| > 1 {
      LastNewline(lines[1..]);
    } else {
      assert LinesText(lines[1..]) == [];
    }
  }

  lemma LineLastNewline(line: Line)
    ensures LineText(line) != [] && LineText(line)[|LineText(line)| - 1] == NEWLINE
  {
    if line.Tagger? { SignatureLastByte(line.signature); }
  }

  // ---------- printed tags with more lines ----------

  /** The lines of a printed tag. */
  function LinesOf(t: Tag): seq<Line> {
    [Object(t.target), Type(TypeName(t.kind)), Name(t.name), Tagger(t.tagger)]
  }

  function Known(lines: seq<Line>): seq<Line> {
    if lines == [] then [] else (if lines[0].Other? then [] else [lines[0]]) + Known(lines[1..])
  }

  lemma {:induction false} AddKnown(d: Draft, lines: seq<Line>)
    ensures AddAll(d, Known(lines)) == AddAll(d, lines)
    decreases |lines|
  {
    if lines != [] {
      var d' := Add(d, lines[0]);
      if d'.Some? { AddKnown(d'.value, lines[1..]); }
      if !lines[0].Other? { assert ([lines[0]] + Known(lines[1..]))[1..] == Known(lines[1..]); }
      assert [] + Known(lines[1..]) == Known(lines[1..]);
    }
  }

  lemma AddOne(d: Draft, lines: seq<Line>)
    requires lines != [] && Add(d, lines[0]).Some?
    ensures AddAll(d, lines) == AddAll(Add(d, lines[0]).value, lines[1..])
  {
  }

  lemma {:induction false} AddPrinted(t: Tag)
    ensures AddAll(EMPTY, LinesOf(t)) == Some(Draft(Some(t.target), Some(t.kind), Some(t.name), Some(t.tagger)))
  {
    TypeNameRead(t.kind);
    hide TypeOf, TypeName, AddAll;
    var lines, d := LinesOf(t), EMPTY.(target := Some(t.target));
    AddOne(EMPTY, lines);
    AddOne(d, lines[1..]);
    AddOne(d.(kind := Some(t.kind)), lines[2..]);
    AddOne(d.(kind := Some(t.kind), name := Some(t.name)), lines[3..]);
    AddNone(d.(kind := Some(t.kind), name := Some(t.name), tagger := Some(t.tagger)), lines[4..]);
  }

  lemma AddNone(d: Draft, lines: seq<Line>)
    requires lines == []
    ensures AddAll(d, lines) == Some(d)
  {
  }

  /** A printed tag is the text of its lines and its message. */
  lemma {:induction false} PrintedLines(t: Tag)
    ensures PrintTag(t) == PayloadText(LinesOf(t), Some(MessageText(t.message)))
  {
    hide *;
    TagParts(t);
    LinesOfText(t);
    var target, kind := OidLine(OBJECT, t.target), TYPE + (TypeName(t.kind) + [NEWLINE]);
    var name, tagger := TAG + (t.name + [NEWLINE]), TAGGER + PrintSignature(t.tagger);
    var tail := [NEWLINE] + MessageText(t.message);
    assert target + (kind + (name + (tagger + tail))) == target + (kind + (name + tagger)) + tail;
    PayloadIs(LinesOf(t), MessageText(t.message));
  }

  lemma PayloadIs(lines: seq<Line>, message: Text)
    ensures PayloadText(lines, Some(message)) == LinesText(lines) + ([NEWLINE] + message)
  {
  }

  lemma {:induction false} LinesOfText(t: Tag)
    ensures LinesText(LinesOf(t)) == OidLine(OBJECT, t.target) + (TYPE + (TypeName(t.kind) + [NEWLINE])
      + (TAG + (t.name + [NEWLINE]) + (TAGGER + PrintSignature(t.tagger))))
  {
    hide OidLine, TypeName, PrintSignature, LinesText, OBJECT, TYPE, TAG, TAGGER;
    var lines := LinesOf(t);
    FirstLine(lines);
    FirstLine(lines[1..]);
    FirstLine(lines[2..]);
    FirstLine(lines[3..]);
    NoLines(lines[4..]);
  }

  lemma FirstLine(lines: seq<Line>)
    requires lines != []
    ensures LinesText(lines) == LineText(lines[0]) + LinesText(lines[1..])
  {
  }

  lemma NoLines(lines: seq<Line>)
    requires lines == []
    ensures LinesText(lines) == []
  {
  }

  /** Lines the parser does not know, put in anywhere among the lines of a printed tag, change nothing. */
  lemma {:induction false} UnknownLinesIgnored(t: Tag, lines: seq<Line>)
    requires TagCodec.Representable(t) && Known(lines) == LinesOf(t)
    requires forall i :: 0 <= i < |lines| ==> Proper(lines[i])
    ensures ParseTag(PayloadText(lines, Some(MessageText(t.message)))) == Some(ReadBack(t))
  {
    hide LinesText, Proper, ParseTag, EMPTY, AddAll, TagCodec.Representable, MessageText;
    PartsRepresentable(t);
    assert lines != [];
    LinesExactly(lines, Some(MessageText(t.message)));
    AddKnown(EMPTY, lines);
    AddPrinted(t);
  }
}
