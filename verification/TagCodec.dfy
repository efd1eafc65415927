/** The payload of an annotated tag: printing it in two passes and parsing it (tag_create.c, tag_parse.c). */
module TagCodec {
  import opened Bytes
  import opened Libc
  import Odb
  import opened OidHex
  import opened Options
  import opened Payload
  import opened Signatures

  datatype Tag = Tag(target: Oid, kind: Odb.ObjType, name: Text, tagger: Signature, message: Option<Text>)

  /** "object ", "type ", "tag " and "tagger ". */
  const OBJECT: Text := [111, 98, 106, 101, 99, 116, 32]
  const TYPE: Text := [116, 121, 112, 101, 32]
  const TAG: Text := [116, 97, 103, 32]
  const TAGGER: Text := [116, 97, 103, 103, 101, 114, 32]

  /** "commit", "tree", "blob" or "tag". */
  function TypeName(kind: Odb.ObjType): Text {
    match kind
    case CommitObj => [99, 111, 109, 109, 105, 116]
    case TreeObj => [116, 114, 101, 101]
    case BlobObj => [98, 108, 111, 98]
    case TagObj => [116, 97, 103]
  }

  /** `qgit_object_string2type`. */
  function TypeOf(name: Text): Option<Odb.ObjType> {
    if name == TypeName(Odb.CommitObj) then Some(Odb.CommitObj)
    else if name == TypeName(Odb.TreeObj) then Some(Odb.TreeObj)
    else if name == TypeName(Odb.BlobObj) then Some(Odb.BlobObj)
    else if name == TypeName(Odb.TagObj) then Some(Odb.TagObj)
    else None
  }

  lemma TypeNameRead(kind: Odb.ObjType)
    ensures TypeOf(TypeName(kind)) == Some(kind) && IsCString(TypeName(kind)) && TypeName(kind) != []
    ensures forall i :: 0 <= i < |TypeName(kind)| ==> TypeName(kind)[i] != NEWLINE
  {
    assert TypeName(Odb.CommitObj)[0] == 99 && TypeName(Odb.BlobObj)[0] == 98;
    assert |TypeName(Odb.TreeObj)| == 4 && |TypeName(Odb.TagObj)| == 3;
  }

  // ---------- the text of a tag ----------

  function PrintHeader(t: Tag): Text {
    OidLine(OBJECT, t.target) + (TYPE + (TypeName(t.kind) + [NEWLINE])) + (TAG + (t.name + [NEWLINE]))
    + (TAGGER + PrintSignature(t.tagger))
  }

  /** A message is followed by a newline; without one there is nothing. */
  function MessageText(message: Option<Text>): Text {
    if message.Some? then message.value + [NEWLINE] else []
  }

  function PrintTag(t: Tag): Text {
    PrintHeader(t) + ([NEWLINE] + MessageText(t.message))
  }

  // ---------- parsing ----------

  datatype Draft = Draft(target: Option<Oid>, kind: Option<Odb.ObjType>, name: Option<Text>, tagger: Option<Signature>)

  const EMPTY := Draft(None, None, None, None)

  /** `strchr` for a newline: the text before it, not looking past a NUL. */
  function UpToNewline(b: Text): (r: Option<Text>)
    ensures r.Some? ==> |r.value| < |b|
  {
    var n := Find(b, NEWLINE);
    if n == |b| || Find(b, NUL) < n then None else Some(b[..n])
  }

  /** One turn of the loop of `parse_header`. The name of the tag is not looked for in the header only. */
  function ParseLine(b: Text, p: nat, end: nat, d: Draft): (r: Option<(nat, Draft)>)
    requires p < end <= |b|
    ensures r.Some? ==> p < r.value.0 <= |b|
  {
    if b[p] == NEWLINE then Some((p + 1, d))
    else if KeywordAt(b, p, end, OBJECT) then
      if d.target.Some? || p + 7 + HEXSZ >= end then None
      else
        var oid := FromStrN(b[p + 7..], HEXSZ);
        if oid.None? then None else Some((p + 7 + HEXSZ, d.(target := oid)))
    else if KeywordAt(b, p, end, TYPE) then
      if d.kind.Some? || p + 5 >= end then None
      else
        var nl := p + 5 + Find(b[p + 5..end], NEWLINE);
        if nl >= end then None
        else
          var kind := TypeOf(CString(b[p + 5..nl]));
          if kind.None? then None else Some((nl + 1, d.(kind := kind)))
    else if KeywordAt(b, p, end, TAG) then
      if d.name.Some? || p + 4 >= end then None
      else
        match UpToNewline(b[p + 4..])
        case None => None
        case Some(name) => Some((p + 4 + |name| + 1, d.(name := Some(name))))
    else if KeywordAt(b, p, end, TAGGER) then
      if d.tagger.Some? || p + 7 >= end then None
      else
        match ParseSignature(b, p + 7, end)
        case None => None
        case Some((s, next)) => Some((next, d.(tagger := Some(s))))
    else Some((p + Find(b[p..end], NEWLINE), d))
  }

  predicate Full(d: Draft) {
    d.target.Some? && d.kind.Some? && d.name.Some? && d.tagger.Some?
  }

  function ParseHeader(b: Text, p: nat, end: nat, d: Draft): (r: Option<Draft>)
    requires end <= |b|
    ensures r.Some? ==> Full(r.value)
    decreases end - p
  {
    if p >= end then
      if Full(d) then Some(d) else None
    else
      match ParseLine(b, p, end, d)
      case None => None
      case Some((next, d')) => ParseHeader(b, next, end, d')
  }

  /** `tag_parse`. */
  function ParseTag(b: Text): Option<Tag> {
    match ParseHeader(b, 0, HeaderEnd(b), EMPTY)
    case None => None
    case Some(d) => Some(Tag(d.target.value, d.kind.value, d.name.value, d.tagger.value, Message(b)))
  }

  // ---------- the round trip ----------

  predicate Representable(t: Tag) {
    IsCString(t.name) && Signatures.Representable(t.tagger) && (t.message.Some? ==> IsCString(t.message.value))
  }

  predicate OneLine(name: Text) {
    forall i :: 0 <= i < |name| ==> name[i] != NEWLINE
  }

  /** A field once found is kept. */
  lemma {:induction false} FieldsKept(b: Text, p: nat, end: nat, d: Draft)
    requires end <= |b| && ParseHeader(b, p, end, d).Some?
    ensures var r := ParseHeader(b, p, end, d).value;
      && (d.name.Some? ==> r.name == d.name)
      && (d.tagger.Some? ==> r.tagger == d.tagger)
    decreases end - p
  {
    hide ParseSignature, FromStrN, Find, KeywordAt, TypeOf, CString, UpToNewline;
    if p < end {
      var line := ParseLine(b, p, end, d);
      assert line.Some?;
      FieldsKept(b, line.value.0, end, line.value.1);
    }
  }

  lemma HeaderStep(b: Text, p: nat, end: nat, d: Draft)
    requires p < end <= |b|
    ensures ParseHeader(b, p, end, d) ==
      match ParseLine(b, p, end, d)
      case None => None
      case Some((next, d')) => ParseHeader(b, next, end, d')
  {
    hide ParseLine;
  }

  lemma Keywords()
    ensures Keyword(OBJECT) && |OBJECT| == 7
    ensures Keyword(TYPE) && |TYPE| == 5 && TYPE[4] == SPACE
    ensures Keyword(TAG) && |TAG| == 4 && TAG[3] == SPACE
    ensures Keyword(TAGGER) && |TAGGER| == 7 && TAGGER[6] == SPACE
  {
  }

  lemma ObjectLine(b: Text, p: nat, end: nat, d: Draft, oid: Oid)
    requires p + 47 < end <= |b| && KeywordAt(b, p, end, OBJECT) && d.target.None?
    requires FromStrN(b[p + 7..], 40) == Some(oid)
    ensures ParseLine(b, p, end, d) == Some((p + 47, d.(target := Some(oid))))
  {
    hide FromStrN, ParseSignature, Find, TypeOf, CString, UpToNewline;
    assert b[p..p + 7][0] == b[p];
  }

  lemma TypeLine(b: Text, p: nat, end: nat, d: Draft, kind: Odb.ObjType)
    requires p + 5 < end <= |b| && KeywordAt(b, p, end, TYPE) && d.kind.None?
    requires p + 5 + |TypeName(kind)| < end && Find(b[p + 5..end], NEWLINE) == |TypeName(kind)|
    requires CString(b[p + 5..p + 5 + |TypeName(kind)|]) == TypeName(kind)
    ensures ParseLine(b, p, end, d) == Some((p + 5 + |TypeName(kind)| + 1, d.(kind := Some(kind))))
  {
    hide FromStrN, ParseSignature, Find, TypeOf, CString, UpToNewline, TypeName;
    TypeNameRead(kind);
    assert b[p..p + 5][0] == b[p];
    assert p + 7 <= |b| ==> b[p..p + 7][0] == b[p];
  }

  lemma TagLine(b: Text, p: nat, end: nat, d: Draft)
    requires p + 4 < end <= |b| && KeywordAt(b, p, end, TAG) && d.name.None?
    ensures ParseLine(b, p, end, d) ==
      match UpToNewline(b[p + 4..])
      case None => None
      case Some(name) => Some((p + 4 + |name| + 1, d.(name := Some(name))))
  {
    hide FromStrN, ParseSignature, Find, TypeOf, CString, UpToNewline;
    assert b[p..p + 4][0] == b[p] && b[p..p + 4][1] == b[p + 1];
    assert b[p..p + 5][1] == b[p + 1];
    assert p + 7 <= |b| ==> b[p..p + 7][0] == b[p];
  }

  lemma {:induction false} TaggerLine(b: Text, p: nat, end: nat, d: Draft)
    requires p + 7 < end <= |b| && KeywordAt(b, p, end, TAGGER) && d.tagger.None?
    ensures ParseLine(b, p, end, d) ==
      match ParseSignature(b, p + 7, end)
      case None => None
      case Some((s, next)) => Some((next, d.(tagger := Some(s))))
  {
    hide FromStrN, ParseSignature, Find, TypeOf, CString, UpToNewline;
    assert b[p..p + 7][0] == b[p] && b[p..p + 7][1] == b[p + 1] && b[p..p + 7][3] == b[p + 3];
    assert b[p..p + 5][1] == b[p + 1];
    assert b[p..p + 4][3] == b[p + 3];
  }

  lemma NewlineRead(b: Text, p: nat, end: nat, d: Draft)
    requires p < end <= |b| && b[p] == NEWLINE
    ensures ParseHeader(b, p, end, d) == ParseHeader(b, p + 1, end, d)
  {
    hide KeywordAt, FromStrN, ParseSignature, Find, TypeOf, CString, UpToNewline;
  }

  lemma {:induction false} ObjectRead(b: Text, oid: Oid)
    requires At(b, 0, OidLine(OBJECT, oid))
    ensures HeaderEnd(b) >= 48
    ensures ParseHeader(b, 0, HeaderEnd(b), EMPTY)
         == ParseHeader(b, 48, HeaderEnd(b), Draft(Some(oid), None, None, None))
  {
    hide *;
    Keywords();
    OidLineRead(b, 0, OBJECT, oid);
    EmptyObject(oid);
    ObjectLine(b, 0, HeaderEnd(b), EMPTY, oid);
    HeaderStep(b, 0, HeaderEnd(b), EMPTY);
    NewlineRead(b, 47, HeaderEnd(b), EMPTY.(target := Some(oid)));
  }

  lemma EmptyObject(oid: Oid)
    ensures EMPTY.target.None? && EMPTY.(target := Some(oid)) == Draft(Some(oid), None, None, None)
  {
  }

  lemma TypeRead(b: Text, p: nat, d: Draft, kind: Odb.ObjType)
    requires At(b, p, TYPE + (TypeName(kind) + [NEWLINE])) && HeaderEnd(b) >= p && d.kind.None?
    ensures var next := p + 5 + |TypeName(kind)| + 1;
      && HeaderEnd(b) >= next
      && ParseHeader(b, p, HeaderEnd(b), d) == ParseHeader(b, next, HeaderEnd(b), d.(kind := Some(kind)))
  {
    hide *;
    Keywords();
    TypeNameRead(kind);
    var t := TypeName(kind);
    KeywordRead(b, p, TYPE, t + [NEWLINE]);
    LineUnbroken(TYPE, t);
    HeaderReaches(b, p, TYPE + (t + [NEWLINE]));
    FindAt(b, p + 5, HeaderEnd(b), t, NEWLINE);
    AtParts(b, p + 5, t, [NEWLINE]);
    CStringAt(b, p + 5, t);
    TypeLine(b, p, HeaderEnd(b), d, kind);
    HeaderStep(b, p, HeaderEnd(b), d);
  }

  lemma LineUnbroken(kw: Text, t: Text)
    requires Keyword(kw) && forall i :: 0 <= i < |t| ==> t[i] != NEWLINE
    ensures var u := kw + (t + [NEWLINE]); u != [] && u[0] != NEWLINE && Unbroken(u)
  {
    var u := kw + (t + [NEWLINE]);
    forall i | 0 <= i < |u| - 1 ensures u[i] != NEWLINE {
      if i < |kw| { assert u[i] == kw[i]; } else { assert u[i] == t[i - |kw|]; }
    }
  }

  /** Reading the line of the name: what is found is the name up to its first newline. */
  lemma {:induction false} NameRead(b: Text, p: nat, d: Draft, name: Text)
    requires At(b, p, TAG + (name + [NEWLINE])) && HeaderEnd(b) >= p && d.name.None? && IsCString(name)
    ensures var n := Find(name, NEWLINE); var found := name[..n];
      && ParseHeader(b, p, HeaderEnd(b), d)
         == ParseHeader(b, p + 4 + n + 1, HeaderEnd(b), d.(name := Some(found)))
      && (n == |name| ==> HeaderEnd(b) >= p + 4 + n + 1)
  {
    hide *;
    Keywords();
    KeywordRead(b, p, TAG, name + [NEWLINE]);
    AtSlice(b, p + 4, name + [NEWLINE]);
    var rest := b[p + 4 + |name| + 1..];
    assert b[p + 4..] == name + [NEWLINE] + rest;
    NewlineIn(name, rest);
    TagLine(b, p, HeaderEnd(b), d);
    HeaderStep(b, p, HeaderEnd(b), d);
    if Find(name, NEWLINE) == |name| {
      LineUnbroken(TAG, name);
      HeaderReaches(b, p, TAG + (name + [NEWLINE]));
    }
  }

  lemma NewlineIn(name: Text, rest: Text)
    requires IsCString(name)
    ensures UpToNewline(name + [NEWLINE] + rest) == Some(name[..Find(name, NEWLINE)])
  {
    var b, n := name + [NEWLINE] + rest, Find(name, NEWLINE);
    assert b[|name|] == NEWLINE;
    assert forall i :: 0 <= i < |name| ==> b[i] == name[i];
    assert Find(b, NEWLINE) == n;
    assert b[..n] == name[..n];
    assert Find(b, NUL) >= n;
  }

  lemma {:induction false} TaggerRead(b: Text, p: nat, d: Draft, s: Signature)
    requires At(b, p, TAGGER + PrintSignature(s)) && HeaderEnd(b) >= p && d.tagger.None?
    ensures p + 7 <= HeaderEnd(b)
    ensures ParseHeader(b, p, HeaderEnd(b), d) ==
      match ParseSignature(b, p + 7, HeaderEnd(b))
      case None => None
      case Some((s', next)) => ParseHeader(b, next, HeaderEnd(b), d.(tagger := Some(s')))
  {
    hide *;
    Keywords();
    SignatureNotEmpty(s);
    KeywordRead(b, p, TAGGER, PrintSignature(s));
    TaggerLine(b, p, HeaderEnd(b), d);
    HeaderStep(b, p, HeaderEnd(b), d);
  }

  /** Where the parts of a printed tag stand. */
  lemma {:induction false} TagLayout(t: Tag)
    ensures var b := PrintTag(t);
      var n := 48 + 5 + |TypeName(t.kind)| + 1;
      var q := n + 4 + |t.name| + 1;
      var e := q + 7 + |PrintSignature(t.tagger)|;
      && At(b, 0, OidLine(OBJECT, t.target)) && At(b, 48, TYPE + (TypeName(t.kind) + [NEWLINE]))
      && At(b, n, TAG + (t.name + [NEWLINE])) && At(b, q, TAGGER + PrintSignature(t.tagger))
      && e < |b| && b[e - 1] == NEWLINE && b[e] == NEWLINE && b[e + 1..] == MessageText(t.message)
  {
    hide *;
    var target, kind := OidLine(OBJECT, t.target), TYPE + (TypeName(t.kind) + [NEWLINE]);
    var name, tagger := TAG + (t.name + [NEWLINE]), TAGGER + PrintSignature(t.tagger);
    var tail := [NEWLINE] + MessageText(t.message);
    var b := PrintTag(t);
    TagParts(t);
    Keywords();
    FiveParts(target, kind, name, tagger, tail);
    var e := |target| + |kind| + |name| + |tagger|;
    LastAt(b, e - |tagger|, tagger);
    assert b[e] == b[e..][0] && b[e + 1..] == b[e..][1..] && tail[1..] == MessageText(t.message);
  }

  lemma TagParts(t: Tag)
    ensures var target, kind := OidLine(OBJECT, t.target), TYPE + (TypeName(t.kind) + [NEWLINE]);
      var name, tagger := TAG + (t.name + [NEWLINE]), TAGGER + PrintSignature(t.tagger);
      var tail := [NEWLINE] + MessageText(t.message);
      && PrintTag(t) == target + (kind + (name + (tagger + tail)))
      && |target| == 48 && tagger != [] && tagger[|tagger| - 1] == NEWLINE
  {
    ObjectLineLength(t.target);
    SignatureLastByte(t.tagger);
    hide OidLine, PrintSignature, MessageText, TypeName;
    var target, kind := OidLine(OBJECT, t.target), TYPE + (TypeName(t.kind) + [NEWLINE]);
    var name, tagger := TAG + (t.name + [NEWLINE]), TAGGER + PrintSignature(t.tagger);
    var tail := [NEWLINE] + MessageText(t.message);
    assert PrintHeader(t) == target + kind + name + tagger;
    assert PrintTag(t) == PrintHeader(t) + tail;
    Assoc5(target, kind, name, tagger, tail);
  }

  lemma ObjectLineLength(oid: Oid)
    ensures |OidLine(OBJECT, oid)| == 48
  {
  }

  /** A tag as it is read back: a missing message is an empty one, any other has one more newline. */
  function ReadBack(t: Tag): Tag {
    t.(message := Some(MessageText(t.message)))
  }

  /**
   * Parsing a printed tag gives back the object, its type, the name, the tagger and the message
   * with one more newline, if and only if the name is one line and the signature is sound.
   */
  lemma {:induction false} TagRoundTrip(t: Tag)
    requires Representable(t)
    ensures ParseTag(PrintTag(t)) == Some(ReadBack(t)) <==> OneLine(t.name) && Sound(t.tagger)
  {
    hide *;
    var b := PrintTag(t);
    var end := HeaderEnd(b);
    var n := 48 + 5 + |TypeName(t.kind)| + 1;
    var q := n + 4 + |t.name| + 1;
    var e := q + 7 + |PrintSignature(t.tagger)|;
    var d := Draft(Some(t.target), Some(t.kind), None, None);
    PartsRepresentable(t);
    TagLayout(t);
    Keywords();
    ObjectRead(b, t.target);
    TypeRead(b, 48, Draft(Some(t.target), None, None, None), t.kind);
    NameRead(b, n, d, t.name);
    NameFound(t.name);
    if OneLine(t.name) {
      var d' := d.(name := Some(t.name));
      TaggerRead(b, q, d', t.tagger);
      SignatureLine(b, q, TAGGER, t.tagger);
      if Sound(t.tagger) {
        HeaderStops(b, e);
        MessageReadBack(t);
        HeaderDone(b, e, d'.(tagger := Some(t.tagger)));
        Parsed(t, b, d'.(tagger := Some(t.tagger)));
      } else {
        WrongTagger(b, q + 7, d', t.tagger);
        NotReadBack(t, b);
      }
    } else {
      WrongName(b, n + 4 + Find(t.name, NEWLINE) + 1, d, t.name);
      NotReadBack(t, b);
    }
  }

  lemma PartsRepresentable(t: Tag)
    requires Representable(t)
    ensures IsCString(t.name) && Signatures.Representable(t.tagger) && IsCString(MessageText(t.message))
  {
  }

  lemma NameFound(name: Text)
    ensures OneLine(name) <==> Find(name, NEWLINE) == |name|
    ensures OneLine(name) <==> name[..Find(name, NEWLINE)] == name
  {
  }

  lemma MessageReadBack(t: Tag)
    requires IsCString(MessageText(t.message))
    ensures CString(MessageText(t.message)) == MessageText(t.message)
  {
  }

  lemma HeaderDone(b: Text, end: nat, d: Draft)
    requires end <= |b| && d.target.Some? && d.kind.Some? && d.name.Some? && d.tagger.Some?
    ensures ParseHeader(b, end, end, d) == Some(d)
  {
  }

  lemma Parsed(t: Tag, b: Text, d: Draft)
    requires ParseHeader(b, 0, HeaderEnd(b), EMPTY) == Some(d)
    requires d == Draft(Some(t.target), Some(t.kind), Some(t.name), Some(t.tagger))
    requires Message(b) == Some(MessageText(t.message))
    ensures ParseTag(b) == Some(ReadBack(t))
  {
    hide ParseHeader, Message, MessageText;
  }

  lemma NotReadBack(t: Tag, b: Text)
    requires var r := ParseHeader(b, 0, HeaderEnd(b), EMPTY);
      r.Some? ==> r.value.name != Some(t.name) || r.value.tagger != Some(t.tagger)
    ensures ParseTag(b) != Some(ReadBack(t))
  {
    hide ParseHeader, Message;
  }

  lemma {:induction false} WrongTagger(b: Text, p: nat, d: Draft, s: Signature)
    requires p <= HeaderEnd(b)
    requires var r := ParseSignature(b, p, HeaderEnd(b)); r.Some? ==> r.value.0 != s
    ensures match ParseSignature(b, p, HeaderEnd(b))
      case None => true
      case Some((s', next)) =>
        var r := ParseHeader(b, next, HeaderEnd(b), d.(tagger := Some(s')));
        r.Some? ==> r.value.tagger != Some(s)
  {
    hide ParseHeader, ParseSignature;
    match ParseSignature(b, p, HeaderEnd(b))
    case None =>
    case Some((s', next)) =>
      if ParseHeader(b, next, HeaderEnd(b), d.(tagger := Some(s'))).Some? {
        FieldsKept(b, next, HeaderEnd(b), d.(tagger := Some(s')));
      }
  }

  lemma WrongName(b: Text, p: nat, d: Draft, name: Text)
    requires name[..Find(name, NEWLINE)] != name
    ensures var r := ParseHeader(b, p, HeaderEnd(b), d.(name := Some(name[..Find(name, NEWLINE)])));
      r.Some? ==> r.value.name != Some(name)
  {
    hide ParseHeader;
    var d' := d.(name := Some(name[..Find(name, NEWLINE)]));
    if ParseHeader(b, p, HeaderEnd(b), d').Some? { FieldsKept(b, p, HeaderEnd(b), d'); }
  }

  // ---------- printing in two passes ----------

  /** `tag_fmt`: sizes both parts, then prints them; the payload is what both passes agree on. */
  method TagFmt(t: Tag) returns (data: Text)
    ensures data == PrintTag(t)
  {
    hide OidLine, PrintSignature, TypeName;
    var len := 0;
    var n := |PrintHeader(t)|;
    len := len + n;
    n := |[NEWLINE] + MessageText(t.message)|;
    len := len + n;
    var buf := new Byte[len + 1];
    var buflen := len;
    n := Snprintf(buf, 0, len + 1, PrintHeader(t));
    len := len - n;
    var p := n;
    ghost var head := buf[..p];
    assert head == PrintHeader(t);
    n := Snprintf(buf, p, len + 1, [NEWLINE] + MessageText(t.message));
    assert buf[..p] == head;
    data := buf[..buflen];
    assert data == buf[..p] + buf[p..p + n];
  }

  // ---------- parsing in place ----------

  method LineParse(buf: array<Byte>, p: nat, end: nat, d: Draft) returns (r: Option<(nat, Draft)>)
    requires p < end <= buf.Length
    modifies buf
    ensures r == ParseLine(old(buf[..]), p, end, d)
    ensures r.Some? ==> forall i :: r.value.0 <= i < buf.Length ==> buf[i] == old(buf[i])
  {
    hide KeywordAt, FromStrN, ParseSignature, Find, TypeOf, CString;
    ghost var b := buf[..];
    if buf[p] == NEWLINE { return Some((p + 1, d)); }
    if KeywordAt(buf[..], p, end, OBJECT) {
      if d.target.Some? || p + 7 + HEXSZ >= end { return None; }
      var oid := OidFromStrN(buf[p + 7..], HEXSZ);
      assert buf[p + 7..] == b[p + 7..];
      if oid.None? { return None; }
      return Some((p + 7 + HEXSZ, d.(target := oid)));
    }
    if KeywordAt(buf[..], p, end, TYPE) {
      if d.kind.Some? || p + 5 >= end { return None; }
      var nl := Scan(buf, p + 5, end, NEWLINE);
      assert buf[p + 5..end] == b[p + 5..end];
      if nl >= end { return None; }
      buf[nl] := NUL;
      CutAtNul(buf[p + 5..], b[p + 5..nl]);
      var kind := TypeOf(CString(buf[p + 5..]));
      if kind.None? { return None; }
      return Some((nl + 1, d.(kind := kind)));
    }
    if KeywordAt(buf[..], p, end, TAG) {
      if d.name.Some? || p + 4 >= end { return None; }
      var name := UpToNewline(buf[p + 4..]);
      assert buf[p + 4..] == b[p + 4..];
      if name.None? { return None; }
      buf[p + 4 + |name.value|] := NUL;
      return Some((p + 4 + |name.value| + 1, d.(name := name)));
    }
    if KeywordAt(buf[..], p, end, TAGGER) {
      if d.tagger.Some? || p + 7 >= end { return None; }
      var got := SignatureParse(buf, p + 7, end);
      if got.None? { return None; }
      return Some((got.value.1, d.(tagger := Some(got.value.0))));
    }
    var nl := Scan(buf, p, end, NEWLINE);
    assert buf[p..end] == b[p..end];
    return Some((nl, d));
  }

  lemma LineSuffix(b: Text, c: Text, p: nat, end: nat, d: Draft)
    requires |b| == |c| && p < end <= |b| && b[p..] == c[p..]
    ensures ParseLine(b, p, end, d) == ParseLine(c, p, end, d)
  {
    hide KeywordAt, FromStrN, ParseSignature, Find, TypeOf, CString, UpToNewline;
    KeywordSuffix(b, c, p, end, OBJECT);
    KeywordSuffix(b, c, p, end, TYPE);
    KeywordSuffix(b, c, p, end, TAG);
    KeywordSuffix(b, c, p, end, TAGGER);
    assert b[p] == b[p..][0] == c[p..][0] == c[p];
    SuffixSlice(b, c, p, p, end);
    if p + 7 <= |b| { FromHere(b, c, p, p + 7); }
    if p + 4 <= |b| { FromHere(b, c, p, p + 4); }
    if p + 5 <= end {
      SuffixSlice(b, c, p, p + 5, end);
      SuffixSlice(b, c, p, p + 5, p + 5 + Find(b[p + 5..end], NEWLINE));
    }
    if p + 7 <= end { SignatureSuffix(b, c, p + 7, end); }
  }

  /** `parse_header`. */
  method HeaderParse(buf: array<Byte>, end: nat) returns (r: Option<Draft>)
    requires end <= buf.Length
    modifies buf
    ensures r == ParseHeader(old(buf[..]), 0, end, EMPTY)
  {
    hide *;
    ghost var b := buf[..];
    var p, d := 0, EMPTY;
    while p < end
      invariant p <= buf.Length
      invariant buf[p..] == b[p..]
      invariant ParseHeader(b, 0, end, EMPTY) == ParseHeader(b, p, end, d)
    {
      HeaderStep(b, p, end, d);
      LineSuffix(b, buf[..], p, end, d);
      ghost var rest := buf[p..];
      var line := LineParse(buf, p, end, d);
      if line.None? { return None; }
      assert buf[line.value.0..] == rest[line.value.0 - p..] == b[line.value.0..];
      p, d := line.value.0, line.value.1;
    }
    HeaderEnded(b, p, end, d);
    if d.target.None? || d.kind.None? || d.name.None? || d.tagger.None? { return None; }
    return Some(d);
  }

  lemma HeaderEnded(b: Text, p: nat, end: nat, d: Draft)
    requires end <= |b| && p >= end
    ensures ParseHeader(b, p, end, d) ==
      if d.target.Some? && d.kind.Some? && d.name.Some? && d.tagger.Some? then Some(d) else None
  {
  }

  /** `tag_parse`. */
  method TagParse(buf: array<Byte>) returns (r: Option<Tag>)
    modifies buf
    ensures r == ParseTag(old(buf[..]))
  {
    hide ParseHeader, BlankLine, CString;
    ghost var b := buf[..];
    var body := BlankLine(buf[..]);
    var message, end := None, buf.Length;
    if body < buf.Length {
      end := body + 1;
      message := Some(CString(buf[body + 2..]));
      assert buf[body + 2..] == b[body + 2..];
    }
    var d := HeaderParse(buf, end);
    if d.None? { return None; }
    return Some(Tag(d.value.target.value, d.value.kind.value, d.value.name.value, d.value.tagger.value, message));
  }

  // ---------- the payload as text ----------

  /** A tag, line by line. */
  lemma {:induction false} TagText(t: Tag)
    ensures PrintTag(t) ==
      (Ascii("object ") + Hex(t.target) + Ascii("\n"))
      + ((Ascii("type ") + (TypeName(t.kind) + Ascii("\n")))
         + ((Ascii("tag ") + (t.name + Ascii("\n")))
            + ((Ascii("tagger ") + PrintSignature(t.tagger))
               + (Ascii("\n") + (if t.message.Some? then t.message.value + Ascii("\n") else [])))))
    ensures TypeName(Odb.CommitObj) == Ascii("commit") && TypeName(Odb.TreeObj) == Ascii("tree")
    ensures TypeName(Odb.BlobObj) == Ascii("blob") && TypeName(Odb.TagObj) == Ascii("tag")
  {
    hide *;
    KeywordsText();
    TypesText();
    TagParts(t);
    MessageIs(t.message);
    LineIs(t.target);
  }

  lemma KeywordsText()
    ensures OBJECT == Ascii("object ") && TYPE == Ascii("type ") && TAG == Ascii("tag ")
    ensures TAGGER == Ascii("tagger ") && [NEWLINE] == Ascii("\n")
  {
  }

  lemma TypesText()
    ensures TypeName(Odb.CommitObj) == Ascii("commit") && TypeName(Odb.TreeObj) == Ascii("tree")
    ensures TypeName(Odb.BlobObj) == Ascii("blob") && TypeName(Odb.TagObj) == Ascii("tag")
  {
  }

  lemma LineIs(oid: Oid)
    ensures OidLine(OBJECT, oid) == OBJECT + Hex(oid) + [NEWLINE]
  {
  }

  lemma MessageIs(message: Option<Text>)
    ensures MessageText(message) == if message.Some? then message.value + [NEWLINE] else []
  {
  }
}
