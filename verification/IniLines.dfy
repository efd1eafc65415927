/** Configuration files line by line: spaces, comments, lines without '=' or ']' (parser.c). */
module IniLines {
  import opened Bytes
  import opened Ini
  import opened Libc
  import opened Options

  /**
   * A line of a configuration file. `Broken` is a section line without a closing bracket; `Bare` is an
   * entry without '=', with the line behind it, which is lost.
   */
  datatype Line =
    | Blank(indent: Text)
    | Comment(indent: Text, text: Text)
    | Header(indent: Text, left: Text, name: Text, right: Text, trailing: Text)
    | Broken(indent: Text, text: Text)
    | Assign(indent: Text, key: Text, right: Text, left: Text, val: Text, trailing: Text)
    | Bare(indent: Text, key: Text, right: Text, lost: Text)

  /** A line from behind its indentation on, and what follows it. */
  function Content(line: Line, rest: Text): Text {
    match line
    case Blank(_) => [NEWLINE] + rest
    case Comment(_, text) => text + ([NEWLINE] + rest)
    case Header(_, left, name, right, trailing) =>
      [OPEN] + (left + ((name + right) + ([CLOSE] + (trailing + ([NEWLINE] + rest)))))
    case Broken(_, text) => [OPEN] + (text + ([NEWLINE] + rest))
    case Assign(_, key, right, left, val, trailing) =>
      (key + right) + ([EQUALS] + (left + ((val + trailing) + ([NEWLINE] + rest))))
    case Bare(_, key, right, lost) => (key + right) + ([NEWLINE] + (lost + ([NEWLINE] + rest)))
  }

  function LinesText(lines: seq<Line>): Text {
    if lines == [] then [] else lines[0].indent + Content(lines[0], LinesText(lines[1..]))
  }

  /** Spaces on one line. */
  predicate Gap(s: Text) {
    forall i :: 0 <= i < |s| ==> IsSpace(s[i]) && s[i] != NEWLINE
  }

  predicate OneLine(s: Text) {
    forall i :: 0 <= i < |s| ==> s[i] != NEWLINE && s[i] != NUL
  }

  predicate Without(s: Text, c: Byte) {
    OneLine(s) && forall i :: 0 <= i < |s| ==> s[i] != c
  }

  predicate Proper(line: Line) {
    match line
    case Blank(indent) => Gap(indent)
    case Comment(indent, text) =>
      Gap(indent) && OneLine(text) && text != [] && (text[0] == SEMICOLON || text[0] == HASH)
    case Header(indent, left, name, right, trailing) =>
      Gap(indent) && Gap(left) && Plain(name, CLOSE) && Gap(right) && (name == [] ==> right == []) && OneLine(trailing)
    case Broken(indent, text) => Gap(indent) && Without(text, CLOSE)
    case Assign(indent, key, right, left, val, trailing) =>
      && Gap(indent) && PlainKey(key) && Gap(right) && (key == [] ==> right == [])
      && Gap(left) && Plain(val, NEWLINE) && Gap(trailing) && (val == [] ==> trailing == [])
    case Bare(indent, key, right, lost) =>
      Gap(indent) && PlainKey(key) && key != [] && Gap(right) && OneLine(lost)
  }

  /** What a line does to the current section and the table; an entry outside a section ends the parse. */
  function Step(line: Line, sec: Option<Text>, t: Table): Option<(Option<Text>, Table)> {
    match line
    case Blank(_) => Some((sec, t))
    case Comment(_, _) => Some((sec, t))
    case Header(_, _, name, _, _) => Some((Some(name), t))
    case Broken(_, _) => Some((None, t))
    case Assign(_, key, _, _, val, _) => if sec.None? then None else Some((sec, Put(t, sec.value, key, Some(val))))
    case Bare(_, key, _, _) => if sec.None? then None else Some((sec, Put(t, sec.value, key, None)))
  }

  function Steps(lines: seq<Line>, sec: Option<Text>, t: Table): (bool, Table)
    decreases |lines|
  {
    if lines == [] then (true, t)
    else
      match Step(lines[0], sec, t)
      case None => (false, t)
      case Some((sec', t')) => Steps(lines[1..], sec', t')
  }

  // ---------- spaces ----------

  lemma {:induction false} GapSkipped(gap: Text, rest: Text)
    requires Gap(gap) && rest != [] && (!IsSpace(rest[0]) || rest[0] == NEWLINE)
    ensures Blanks(gap + rest) == |gap| && (gap + rest)[|gap|..] == rest
  {
    if gap == [] {
      assert gap + rest == rest;
    } else {
      assert (gap + rest)[1..] == gap[1..] + rest;
      GapSkipped(gap[1..], rest);
    }
  }

  lemma {:induction false} GapStripped(s: Text, gap: Text)
    requires Gap(gap) && (s != [] ==> !IsSpace(s[|s| - 1]))
    ensures StripEnd(s + gap) == s
    decreases |gap|
  {
    if gap == [] {
      assert s + gap == s;
    } else {
      var n := |gap| - 1;
      assert (s + gap)[..|s + gap| - 1] == s + gap[..n];
      assert (s + gap)[|s + gap| - 1] == gap[n];
      GapStripped(s, gap[..n]);
    }
  }

  lemma {:induction false} LineSkipped(text: Text, rest: Text)
    requires OneLine(text)
    ensures SkipLine(text + ([NEWLINE] + rest)) == rest
  {
    UntilExact(text, NEWLINE, [NEWLINE] + rest);
    assert (text + ([NEWLINE] + rest))[|text|] == NEWLINE;
    assert (text + ([NEWLINE] + rest))[|text| + 1..] == rest;
  }

  /** A plain text with a gap behind it, up to the byte that ends it. */
  lemma {:induction false} PlainTaken(s: Text, gap: Text, c: Byte, rest: Text)
    requires Plain(s, c) && Gap(gap) && !IsSpace(c) && rest != [] && (rest[0] == c || rest[0] == NEWLINE)
    ensures Until((s + gap) + rest, c) == |s + gap| && StripEnd(((s + gap) + rest)[..|s + gap|]) == s
    ensures ((s + gap) + rest)[|s + gap|] == rest[0] && ((s + gap) + rest)[|s + gap| + 1..] == rest[1..]
  {
    var t := s + gap;
    forall i | 0 <= i < |t| ensures t[i] != c && t[i] != NEWLINE && t[i] != NUL {
      if i < |s| { assert t[i] == s[i]; } else { assert t[i] == gap[i - |s|]; }
    }
    UntilExact(t, c, rest);
    GapStripped(s, gap);
    assert (t + rest)[..|t|] == t;
  }

  // ---------- one line ----------

  /** What is left of a line behind its indentation decides what it is. */
  lemma {:induction false} Indented(indent: Text, u: Text, sec: Option<Text>, t: Table)
    requires Gap(indent) && u != [] && (!IsSpace(u[0]) || u[0] == NEWLINE) && u[0] != NUL
    ensures ParseFrom(indent + u, sec, t) ==
      if u[0] == NEWLINE || u[0] == SEMICOLON || u[0] == HASH then ParseFrom(SkipLine(u), sec, t)
      else if u[0] == OPEN then ParseFrom(ParseSection(u).1, ParseSection(u).0, t)
      else if sec.None? then (false, t)
      else ParseFrom(ParseEntry(u).2, sec, Put(t, sec.value, ParseEntry(u).0, ParseEntry(u).1))
  {
    GapSkipped(indent, u);
    hide Blanks, SkipLine, ParseSection, ParseEntry, Put;
  }

  lemma {:induction false} SectionTaken(left: Text, name: Text, right: Text, trailing: Text, rest: Text)
    requires Gap(left) && Plain(name, CLOSE) && Gap(right) && (name == [] ==> right == []) && OneLine(trailing)
    ensures ParseSection([OPEN] + (left + ((name + right) + ([CLOSE] + (trailing + ([NEWLINE] + rest))))))
         == (Some(name), rest)
  {
    hide *;
    var more := [CLOSE] + (trailing + ([NEWLINE] + rest));
    var v := (name + right) + more;
    var u := [OPEN] + (left + v);
    Bytewise();
    PlainStarts(name, right, CLOSE, more);
    GapSkipped(left, v);
    PlainTaken(name, right, CLOSE, more);
    LineSkipped(trailing, rest);
    assert u[1..] == left + v && more[1..] == trailing + ([NEWLINE] + rest);
    SectionOf(u);
    AfterIs(v, |name + right|);
  }

  lemma Bytewise()
    ensures !IsSpace(CLOSE) && !IsSpace(EQUALS) && CLOSE != NUL && EQUALS != NUL && EQUALS != NEWLINE
    ensures EQUALS != SEMICOLON && EQUALS != HASH && EQUALS != OPEN
  {
  }

  lemma AfterIs(s: Text, n: nat)
    requires n < |s|
    ensures After(s, n) == s[n + 1..]
  {
  }

  /** The first byte of a plain text, or of what follows an empty one. */
  lemma PlainStarts(s: Text, gap: Text, c: Byte, rest: Text)
    requires Plain(s, c) && (s == [] ==> gap == []) && rest != []
    ensures ((s + gap) + rest)[0] == if s == [] then rest[0] else s[0]
    ensures s != [] ==> !IsSpace(s[0]) && s[0] != NUL && s[0] != NEWLINE
  {
  }

  lemma {:induction false} BrokenTaken(text: Text, rest: Text)
    requires Without(text, CLOSE)
    ensures ParseSection([OPEN] + (text + ([NEWLINE] + rest))) == (None, rest)
  {
    var u := [OPEN] + (text + ([NEWLINE] + rest));
    var v := text + ([NEWLINE] + rest);
    var n := Blanks(v);
    assert u[1..] == v && v[|text|] == NEWLINE;
    assert n <= |text|;
    assert v[n..] == text[n..] + ([NEWLINE] + rest);
    UntilExact(text[n..], CLOSE, [NEWLINE] + rest);
    hide Blanks, Until;
    assert v[n..][|text| - n] == NEWLINE && v[n..][|text| - n + 1..] == rest;
  }

  lemma {:induction false} ValueTaken(left: Text, val: Text, trailing: Text, rest: Text)
    requires Gap(left) && Plain(val, NEWLINE) && Gap(trailing) && (val == [] ==> trailing == [])
    ensures ParseValue(left + ((val + trailing) + ([NEWLINE] + rest))) == (val, rest)
  {
    var v := (val + trailing) + ([NEWLINE] + rest);
    assert v[0] == if val == [] then NEWLINE else val[0];
    GapSkipped(left, v);
    ValueEnds(val, trailing, rest);
    hide Blanks, Until, StripEnd;
  }

  lemma {:induction false} ValueEnds(val: Text, trailing: Text, rest: Text)
    requires Plain(val, NEWLINE) && Gap(trailing)
    ensures var v, n := (val + trailing) + ([NEWLINE] + rest), |val + trailing|;
      Until(v, NEWLINE) == n && StripEnd(v[..n]) == val && After(v, n) == rest
  {
    var s := val + trailing;
    var v := s + ([NEWLINE] + rest);
    forall i | 0 <= i < |s| ensures s[i] != NEWLINE && s[i] != NUL {
      if i < |val| { assert s[i] == val[i]; } else { assert s[i] == trailing[i - |val|]; }
    }
    UntilExact(s, NEWLINE, [NEWLINE] + rest);
    GapStripped(val, trailing);
    assert v[..|s|] == s && v[|s| + 1..] == rest;
  }

  lemma {:induction false} AssignTaken(key: Text, right: Text, left: Text, val: Text, trailing: Text, rest: Text)
    requires Proper(Assign([], key, right, left, val, trailing))
    ensures var u := (key + right) + ([EQUALS] + (left + ((val + trailing) + ([NEWLINE] + rest))));
      EntryStarts(u) && ParseEntry(u) == (key, Some(val), rest)
  {
    var w := left + ((val + trailing) + ([NEWLINE] + rest));
    var u := (key + right) + ([EQUALS] + w);
    hide *;
    AssignParts(key, right, left, val, trailing);
    Bytewise();
    PlainStarts(key, right, EQUALS, [EQUALS] + w);
    PlainTaken(key, right, EQUALS, [EQUALS] + w);
    ValueTaken(left, val, trailing, rest);
    assert ([EQUALS] + w)[1..] == w;
    Starts(u);
    EntryOf(u);
    AfterIs(u, |key + right|);
  }

  lemma AssignParts(key: Text, right: Text, left: Text, val: Text, trailing: Text)
    requires Proper(Assign([], key, right, left, val, trailing))
    ensures Plain(key, EQUALS) && Gap(right) && (key == [] ==> right == [])
    ensures key != [] ==> key[0] != SEMICOLON && key[0] != HASH && key[0] != OPEN
    ensures Gap(left) && Plain(val, NEWLINE) && Gap(trailing) && (val == [] ==> trailing == [])
  {
    hide Plain, Gap;
  }

  lemma Starts(u: Text)
    ensures EntryStarts(u) <==>
      && u != [] && !IsSpace(u[0]) && u[0] != NUL && u[0] != NEWLINE
      && u[0] != SEMICOLON && u[0] != HASH && u[0] != OPEN
  {
  }

  /** What starts an entry: no space, and none of the bytes that start another line. */
  predicate EntryStarts(u: Text) {
    && u != [] && !IsSpace(u[0]) && u[0] != NUL && u[0] != NEWLINE
    && u[0] != SEMICOLON && u[0] != HASH && u[0] != OPEN
  }

  lemma {:induction false} BareTaken(key: Text, right: Text, lost: Text, rest: Text)
    requires PlainKey(key) && key != [] && Gap(right) && OneLine(lost)
    ensures var u := (key + right) + ([NEWLINE] + (lost + ([NEWLINE] + rest)));
      EntryStarts(u) && ParseEntry(u) == (key, None, rest)
  {
    var w := lost + ([NEWLINE] + rest);
    var u := (key + right) + ([NEWLINE] + w);
    assert u[0] == key[0];
    PlainTaken(key, right, EQUALS, [NEWLINE] + w);
    LineSkipped(lost, rest);
    hide ParseValue, Until, StripEnd, SkipLine, Plain;
    assert ([NEWLINE] + w)[1..] == w;
  }

  /** One line is taken as its step says, with any spaces around its parts. */
  lemma {:induction false} LineTaken(line: Line, rest: Text, sec: Option<Text>, t: Table)
    requires Proper(line)
    ensures ParseFrom(line.indent + Content(line, rest), sec, t) ==
      match Step(line, sec, t)
      case None => (false, t)
      case Some((sec', t')) => ParseFrom(rest, sec', t')
  {
    hide *;
    ContentTaken(line, rest);
    Indented(line.indent, Content(line, rest), sec, t);
    StepIs(line, sec, t);
  }

  lemma StepIs(line: Line, sec: Option<Text>, t: Table)
    ensures Step(line, sec, t) ==
      match line
      case Blank(_) => Some((sec, t))
      case Comment(_, _) => Some((sec, t))
      case Header(_, _, name, _, _) => Some((Some(name), t))
      case Broken(_, _) => Some((None, t))
      case Assign(_, key, _, _, val, _) => if sec.None? then None else Some((sec, Put(t, sec.value, key, Some(val))))
      case Bare(_, key, _, _) => if sec.None? then None else Some((sec, Put(t, sec.value, key, None)))
  {
    hide Put;
  }

  lemma {:induction false} ContentTaken(line: Line, rest: Text)
    requires Proper(line)
    ensures var u := Content(line, rest);
      && Gap(line.indent) && u != [] && (!IsSpace(u[0]) || u[0] == NEWLINE) && u[0] != NUL
      && if u[0] == NEWLINE || u[0] == SEMICOLON || u[0] == HASH then
           (line.Blank? || line.Comment?) && SkipLine(u) == rest
         else if u[0] == OPEN then
           && (line.Header? || line.Broken?)
           && ParseSection(u) == (if line.Header? then Some(line.name) else None, rest)
         else
           && (line.Assign? || line.Bare?) && EntryStarts(u)
           && ParseEntry(u) == (line.key, if line.Assign? then Some(line.val) else None, rest)
  {
    hide SkipLine, ParseSection, ParseEntry, Plain;
    match line
    case Blank(indent) =>
      LineSkipped([], rest);
      assert [] + ([NEWLINE] + rest) == [NEWLINE] + rest;
    case Comment(_, text) =>
      LineSkipped(text, rest);
      assert (text + ([NEWLINE] + rest))[0] == text[0];
    case Header(_, left, name, right, trailing) => SectionTaken(left, name, right, trailing, rest);
    case Broken(_, text) => BrokenTaken(text, rest);
    case Assign(_, key, right, left, val, trailing) => AssignTaken(key, right, left, val, trailing, rest);
    case Bare(_, key, right, lost) => BareTaken(key, right, lost, rest);
  }

  /**
   * A file of proper lines is parsed line by line: comments and blank lines change nothing, a section
   * line opens its section and one without its bracket closes it, an entry is put into the section, and
   * one without '=' without a value, with the loss of the next line. An entry outside a section makes
   * the parse fail, with the table as it then is.
   */
  lemma {:induction false} LinesExactly(lines: seq<Line>, sec: Option<Text>, t: Table)
    requires forall i :: 0 <= i < |lines| ==> Proper(lines[i])
    ensures ParseFrom(LinesText(lines), sec, t) == Steps(lines, sec, t)
    decreases |lines|
  {
    hide Content, Proper, Step, ParseFrom;
    if lines == [] {
      NothingLeft([NUL], 0, sec, t);
      assert Rest([NUL], 0) == [];
    } else {
      var rest := LinesText(lines[1..]);
      LineTaken(lines[0], rest, sec, t);
      var next := Step(lines[0], sec, t);
      if next.Some? { LinesExactly(lines[1..], next.value.0, next.value.1); }
    }
  }
}
