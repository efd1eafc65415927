/** Which names and addresses leave a commit that can be read (signature_parse.c, commit_create.c, commit_parse.c). */
module Readability {
  import opened Bytes
  import opened CommitCodec
  import opened Libc
  import opened OidHex
  import opened Options
  import opened Payload
  import opened Signatures

  // ---------- the condition ----------

  predicate OneLine(t: Text) {
    forall i :: 0 <= i < |t| ==> t[i] != NEWLINE
  }

  /** A number begins the text, and a space follows it. */
  predicate NumberAhead(x: Text) {
    var n := StrToUl(x, 10);
    n.length > 0 && !n.overflow && n.length < |x| && x[n.length] == SPACE
  }

  /** The text before the bracket that closes the address in print. */
  function Names(name: Text, email: Text): (s: Text)
    ensures Find(s, LT) < |s|
  {
    var s := name + [SPACE, LT] + email;
    assert s[|name| + 1] == LT;
    s
  }

  /** What stands behind the first opening bracket. */
  function Address(name: Text, email: Text): Text {
    Names(name, email)[Find(Names(name, email), LT) + 1..]
  }

  /** Behind the first opening bracket no closing one, or at the very end only, or with a number behind it. */
  predicate Readable(name: Text, email: Text) {
    var v := Address(name, email);
    var j := Find(v, GT);
    j + 1 >= |v| || NumberAhead(v[j + 2..])
  }

  // ---------- numbers ----------

  lemma {:induction false} SpaceRunBefore(x: Text, y: Text)
    requires y != [] && !IsSpace(y[0])
    ensures SpaceRun(x + y) == SpaceRun(x)
  {
    if x == [] {
      assert x + y == y;
    } else {
      assert (x + y)[1..] == x[1..] + y;
      SpaceRunBefore(x[1..], y);
    }
  }

  lemma {:induction false} DigitRunBefore(x: Text, y: Text)
    requires y != [] && !IsDigit(y[0], 10)
    ensures DigitRun(x + y, 10) == DigitRun(x, 10)
  {
    if x == [] {
      assert x + y == y;
    } else {
      assert (x + y)[1..] == x[1..] + y;
      DigitRunBefore(x[1..], y);
    }
  }

  /** Where the digits of a number would begin. */
  function DigitsAt(s: Text): (start: nat)
    ensures start <= |s|
  {
    var sp := SpaceRun(s);
    if sp < |s| && (s[sp] == PLUS || s[sp] == MINUS) then sp + 1 else sp
  }

  /** The same number behind `k` more bytes. */
  lemma {:induction false} SameNumber(s: Text, x: Text, k: nat)
    requires SpaceRun(s) == SpaceRun(x) + k && DigitsAt(s) == DigitsAt(x) + k
    requires DigitsAt(x) > SpaceRun(x) ==> s[SpaceRun(s)] == x[SpaceRun(x)]
    requires var n := DigitRun(x[DigitsAt(x)..], 10);
      DigitRun(s[DigitsAt(s)..], 10) == n && s[DigitsAt(s)..][..n] == x[DigitsAt(x)..][..n]
    ensures var n := StrToUl(x, 10);
      StrToUl(s, 10) == if n.length > 0 then n.(length := n.length + k) else n
  {
    hide SpaceRun, DigitRun, Value;
  }

  lemma {:induction false} DigitsBefore(x: Text, y: Text)
    requires y != [] && y[0] == GT
    ensures SpaceRun(x + y) == SpaceRun(x) && DigitsAt(x + y) == DigitsAt(x)
    ensures DigitsAt(x) > SpaceRun(x) ==> SpaceRun(x) < |x| && (x + y)[SpaceRun(x)] == x[SpaceRun(x)]
  {
    hide SpaceRun;
    SpaceRunBefore(x, y);
    assert SpaceRun(x) < |x| ==> (x + y)[SpaceRun(x)] == x[SpaceRun(x)];
  }

  /** A closing bracket ends every number. */
  lemma {:induction false} NumberBefore(x: Text, y: Text)
    requires y != [] && y[0] == GT
    ensures StrToUl(x + y, 10) == StrToUl(x, 10)
  {
    hide SpaceRun, DigitRun, StrToUl, DigitsAt;
    var s, start := x + y, DigitsAt(x);
    DigitsBefore(x, y);
    assert s[start..] == x[start..] + y;
    DigitRunBefore(x[start..], y);
    assert s[start..][..DigitRun(x[start..], 10)] == x[start..][..DigitRun(x[start..], 10)];
    SameNumber(s, x, 0);
  }

  /** Leading space is skipped. */
  lemma {:induction false} NumberAfterSpace(s: Text)
    requires StrToUl(s, 10).length > 0
    ensures StrToUl([SPACE] + s, 10) == StrToUl(s, 10).(length := StrToUl(s, 10).length + 1)
  {
    hide DigitRun, StrToUl;
    var t := [SPACE] + s;
    assert t[1..] == s;
    assert SpaceRun(t) == SpaceRun(s) + 1;
    assert t[DigitsAt(s) + 1..] == s[DigitsAt(s)..];
    SameNumber(t, s, 1);
  }

  // ---------- one line ----------

  /** A number, a space and a long enough line are a time and a zone. */
  lemma {:induction false} WhenTaken(t: Text, m: nat, q: nat, z: Text)
    requires m <= |t| && 1 < q && q + 2 + |z| <= m && t[q] == SPACE && At(t, q + 1, z + [NEWLINE])
    requires |z| >= 5 && IsCString(z) && OneLine(z)
    requires var n := StrToUl(t[1..], 10); !n.overflow && n.length == q - 1
    ensures ParseWhen(t, m).Some? && ParseWhen(t, m).value.2 == q + 2 + |z|
  {
    hide StrToUl, AsSigned, CString, Find, ParseWhen, At;
    AtParts(t, q + 1, z, [NEWLINE]);
    FindAt(t, q + 1, m, z, NEWLINE);
    CStringAt(t, q + 1, z);
    WhenFrom(t, m, AsSigned(StrToUl(t[1..], 10).value), q, z);
  }

  lemma PlainZone(time: int, offset: int)
    ensures |SignedDigits(time)| > 0 && IsCString(SignedDigits(time)) && OneLine(SignedDigits(time))
    ensures |Zone(offset)| >= 5 && IsCString(Zone(offset)) && OneLine(Zone(offset))
  {
    ZoneIsCString(offset);
    DigitsPlain(time);
  }

  lemma WhenIs(time: int, offset: int)
    ensures PrintWhen(time, offset) == [SPACE] + SignedDigits(time) + [SPACE] + Zone(offset) + [NEWLINE]
  {
  }

  /** One more closing bracket before the time is the byte that is skipped. */
  lemma {:induction false} WhenAfterBracket(time: int, offset: int, rest: Text, m: nat)
    requires -(ULONG / 2) <= time < ULONG / 2
    requires |PrintWhen(time, offset)| + 1 <= m <= |PrintWhen(time, offset) + rest| + 1
    ensures var t := [GT] + (PrintWhen(time, offset) + rest);
      ParseWhen(t, m).Some? && ParseWhen(t, m).value.2 == |PrintWhen(time, offset)| + 1
  {
    hide *;
    var d, z := SignedDigits(time), Zone(offset);
    var t, s := [GT] + (PrintWhen(time, offset) + rest), d + ([SPACE] + (z + [NEWLINE] + rest));
    PlainZone(time, offset);
    WhenIs(time, offset);
    TimeRead(time, z + [NEWLINE] + rest);
    NumberAfterSpace(s);
    assert t[1..] == [SPACE] + s;
    var q := 2 + |d|;
    assert t == [GT] + [SPACE] + d + [SPACE] + (z + [NEWLINE] + rest);
    assert t[q + 1..] == z + [NEWLINE] + rest;
    AtPrefix(t, q + 1, z + [NEWLINE], rest);
    WhenTaken(t, m, q, z);
  }

  /** With more behind the closing bracket than the byte that is skipped, a number must begin there. */
  lemma {:induction false} WhenBehind(y: Byte, x: Text, time: int, offset: int, rest: Text, m: nat)
    requires IsCString(x) && OneLine(x)
    requires |PrintWhen(time, offset)| + |x| + 2 <= m <= |PrintWhen(time, offset) + rest| + |x| + 2
    ensures var t := [y] + (x + [GT] + PrintWhen(time, offset) + rest);
      && (ParseWhen(t, m).Some? <==> NumberAhead(x))
      && (ParseWhen(t, m).Some? ==> ParseWhen(t, m).value.2 == |PrintWhen(time, offset)| + |x| + 2)
  {
    hide *;
    var w := PrintWhen(time, offset);
    var t := [y] + (x + [GT] + w + rest);
    NumberBefore(x, [GT] + w + rest);
    assert t[1..] == x + ([GT] + w + rest);
    if NumberAhead(x) {
      WhenNumbered(y, x, time, offset, rest, m);
    } else {
      NoNumberThere(t, x, m);
    }
  }

  lemma {:induction false} WhenNumbered(y: Byte, x: Text, time: int, offset: int, rest: Text, m: nat)
    requires IsCString(x) && OneLine(x) && NumberAhead(x)
    requires |PrintWhen(time, offset)| + |x| + 2 <= m <= |PrintWhen(time, offset) + rest| + |x| + 2
    requires var t := [y] + (x + [GT] + PrintWhen(time, offset) + rest); StrToUl(t[1..], 10) == StrToUl(x, 10)
    ensures var t := [y] + (x + [GT] + PrintWhen(time, offset) + rest);
      ParseWhen(t, m).Some? && ParseWhen(t, m).value.2 == |PrintWhen(time, offset)| + |x| + 2
  {
    hide *;
    NumberThere(x);
    var n, d, zone := StrToUl(x, 10).length, SignedDigits(time), Zone(offset);
    PlainZone(time, offset);
    WhenIs(time, offset);
    var z := x[n + 1..] + [GT] + [SPACE] + d + [SPACE] + zone;
    PlainJoin(x, n + 1, d, zone);
    NumberText(y, x, n, d, zone, rest);
    var t := [y] + (x + [GT] + PrintWhen(time, offset) + rest);
    AtPrefix(t, n + 2, z + [NEWLINE], rest);
    WhenTaken(t, m, n + 1, z);
  }

  lemma {:induction false} NumberText(y: Byte, x: Text, n: nat, d: Text, zone: Text, rest: Text)
    requires n < |x| && x[n] == SPACE
    ensures var t := [y] + (x + [GT] + ([SPACE] + d + [SPACE] + zone + [NEWLINE]) + rest);
      var z := x[n + 1..] + [GT] + [SPACE] + d + [SPACE] + zone;
      n + 2 <= |t| && t[n + 1] == SPACE && t[n + 2..] == z + [NEWLINE] + rest
  {
    hide *;
    var t := [y] + (x + [GT] + ([SPACE] + d + [SPACE] + zone + [NEWLINE]) + rest);
    var front, z := [y] + x[..n] + [SPACE], x[n + 1..] + [GT] + [SPACE] + d + [SPACE] + zone;
    assert x == x[..n] + [SPACE] + x[n + 1..];
    assert t == front + (z + [NEWLINE] + rest);
    assert t[n + 1] == front[n + 1];
  }

  lemma NumberThere(x: Text)
    requires NumberAhead(x)
    ensures var n := StrToUl(x, 10); n.length > 0 && !n.overflow && n.length < |x| && x[n.length] == SPACE
  {
    hide StrToUl;
  }

  lemma NoNumberThere(t: Text, x: Text, m: nat)
    requires m <= |t| && !NumberAhead(x) && |x| + 1 < |t| && t[1..|x| + 1] == x && t[|x| + 1] == GT
    requires StrToUl(t[1..], 10) == StrToUl(x, 10)
    ensures ParseWhen(t, m).None?
  {
    hide StrToUl, CString, Find;
    var n := StrToUl(x, 10);
    assert n.length < |x| ==> t[1..|x| + 1][n.length] == t[1 + n.length];
  }

  lemma PlainJoin(x: Text, k: nat, d: Text, zone: Text)
    requires k <= |x| && IsCString(x) && OneLine(x) && IsCString(d) && OneLine(d) && IsCString(zone) && OneLine(zone)
    ensures var z := x[k..] + [GT] + [SPACE] + d + [SPACE] + zone; IsCString(z) && OneLine(z)
  {
  }

  // ---------- a printed signature ----------

  lemma {:induction false} SignatureVia(b: Text, p: nat, end: nat, lt: nat, gt: nat)
    requires p <= lt < gt < end <= |b|
    requires lt == p + Find(b[p..end], LT) && gt == lt + 1 + Find(b[lt + 1..end], GT)
    ensures var r, w := ParseSignature(b, p, end), ParseWhen(b[gt + 1..], end - gt - 1);
      && (r.Some? <==> w.Some?) && (r.Some? ==> r.value.1 == gt + 1 + w.value.2)
  {
    hide ParseWhen, NameText, Find, CString;
  }

  /** The brackets of a printed signature as the parser sees them. */
  lemma {:induction false} Brackets(name: Text, email: Text) returns (k: nat, v: Text, j: nat)
    ensures k < |Names(name, email)| && Names(name, email)[k] == LT
    ensures forall i :: 0 <= i < k ==> Names(name, email)[i] != LT
    ensures v == Names(name, email)[k + 1..] && j <= |v|
    ensures forall i :: 0 <= i < j ==> v[i] != GT
    ensures j < |v| ==> v[j] == GT
    ensures Readable(name, email) <==> j + 1 >= |v| || NumberAhead(v[j + 2..])
  {
    hide NumberAhead, Find, Names;
    k := Find(Names(name, email), LT);
    v := Address(name, email);
    j := Find(v, GT);
  }

  lemma SignatureText(s: Signature, k: nat)
    requires k < |Names(s.name, s.email)| && Names(s.name, s.email)[k] == LT
    ensures var h := Names(s.name, s.email);
      PrintSignature(s) == (h[..k] + [LT]) + ((h[k + 1..] + [GT]) + PrintWhen(s.time, s.offset))
  {
    hide PrintWhen;
    var h, w := Names(s.name, s.email), PrintWhen(s.time, s.offset);
    assert PrintSignature(s) == h + [GT] + w;
    assert h == h[..k] + [LT] + h[k + 1..];
  }

  lemma NamesPlain(s: Signature, k: nat)
    requires OneLine(s.name) && OneLine(s.email) && IsCString(s.name) && IsCString(s.email)
    requires k <= |Names(s.name, s.email)|
    ensures OneLine(Names(s.name, s.email)[k..]) && IsCString(Names(s.name, s.email)[k..])
  {
  }

  lemma PlainTail(x: Text, k: nat)
    requires OneLine(x) && IsCString(x) && k <= |x|
    ensures OneLine(x[k..]) && IsCString(x[k..])
  {
  }

  /** Where the brackets of a printed signature are found, and what follows the closing one. */
  lemma {:induction false} BracketsFound(b: Text, p: nat, end: nat, h: Text, k: nat, v: Text, j: nat, w: Text)
    requires k < |h| && v == h[k + 1..] && At(b, p, (h[..k] + [LT]) + ((v + [GT]) + w))
    requires p + |h| + 1 + |w| <= end <= |b|
    requires forall i :: 0 <= i < k ==> h[i] != LT
    requires j <= |v| && (forall i :: 0 <= i < j ==> v[i] != GT) && (j < |v| ==> v[j] == GT)
    ensures Find(b[p..end], LT) == k && Find(b[p + k + 1..end], GT) == j
    ensures b[p + k + 1 + j + 1..] == ((v + [GT]) + w)[j + 1..] + b[p + |h| + 1 + |w|..]
  {
    hide *;
    var u := v + [GT];
    AtParts(b, p, h[..k] + [LT], u + w);
    FindAt(b, p, end, h[..k], LT);
    var at := p + k + 1;
    AtSuffix(b, at, u + w, j + 1);
    AtParts(b, at, u, w);
    ClosingFound(b, at, end, v, j);
  }

  lemma {:induction false} ClosingFound(b: Text, at: nat, end: nat, v: Text, j: nat)
    requires At(b, at, v + [GT]) && at + |v| < end <= |b|
    requires j <= |v| && (forall i :: 0 <= i < j ==> v[i] != GT) && (j < |v| ==> v[j] == GT)
    ensures Find(b[at..end], GT) == j
  {
    hide *;
    TextAt(b, at, v + [GT], j, GT);
    assert (v + [GT])[..j] == v[..j];
    FindAt(b, at, end, v[..j], GT);
  }

  /**
   * A signature printed on one line can be parsed, in a header that holds the line, if and only if
   * its name and address are readable; then the parse goes on behind the line.
   */
  lemma {:induction false} LineReadable(b: Text, p: nat, end: nat, s: Signature)
    requires p + |PrintSignature(s)| <= end <= |b| && At(b, p, PrintSignature(s))
    requires Signatures.Representable(s) && OneLine(s.name) && OneLine(s.email)
    ensures var r := ParseSignature(b, p, end);
      && (r.Some? <==> Readable(s.name, s.email))
      && (r.Some? ==> r.value.1 == p + |PrintSignature(s)|)
  {
    hide *;
    var k, v, j := Brackets(s.name, s.email);
    var h, w := Names(s.name, s.email), PrintWhen(s.time, s.offset);
    Signatures.Fits(s);
    SignatureText(s, k);
    NamesPlain(s, k + 1);
    BracketsFound(b, p, end, h, k, v, j, w);
    var gt := p + k + 1 + j;
    SignatureVia(b, p, end, p + k, gt);
    WhenOnLine(s, v, j, b[gt + 1..], b[p + |h| + 1 + |w|..], end - gt - 1);
  }

  lemma AtSuffix(b: Text, p: nat, t: Text, i: nat)
    requires At(b, p, t) && i <= |t|
    ensures b[p + i..] == t[i..] + b[p + |t|..]
  {
  }

  lemma {:induction false} WhenOnLine(s: Signature, v: Text, j: nat, t: Text, rest: Text, m: nat)
    requires -(ULONG / 2) <= s.time < ULONG / 2 && IsCString(v) && OneLine(v)
    requires j <= |v| && (j < |v| ==> v[j] == GT)
    requires t == (v + [GT] + PrintWhen(s.time, s.offset))[j + 1..] + rest && m <= |t|
    requires m >= |v| - j + |PrintWhen(s.time, s.offset)|
    ensures ParseWhen(t, m).Some? <==> j + 1 >= |v| || NumberAhead(v[j + 2..])
    ensures ParseWhen(t, m).Some? ==> ParseWhen(t, m).value.2 == |v| - j + |PrintWhen(s.time, s.offset)|
  {
    hide *;
    var w := PrintWhen(s.time, s.offset);
    if j == |v| {
      assert t == w + rest;
      WhenRoundTrip(s.time, s.offset, rest, m);
    } else if j + 1 == |v| {
      assert t == [GT] + (w + rest);
      WhenAfterBracket(s.time, s.offset, rest, m);
    } else {
      var y, x := v[j + 1], v[j + 2..];
      assert t == [y] + (x + [GT] + w + rest);
      PlainTail(v, j + 2);
      WhenBehind(y, x, s.time, s.offset, rest, m);
    }
  }

  // ---------- a printed commit ----------

  ghost predicate OnOneLine(s: Signature) {
    OneLine(s.name) && OneLine(s.email)
  }

  predicate CanBeRead(s: Signature) {
    Readable(s.name, s.email)
  }

  lemma OneLineUnbroken(s: Signature)
    requires OnOneLine(s)
    ensures Unbroken(s.name) && Unbroken(s.email)
  {
  }

  /** The line of a signature that holds no newline is within the header. */
  lemma {:induction false} LineInHeader(b: Text, p: nat, kw: Text, s: Signature)
    requires At(b, p, kw + PrintSignature(s)) && Keyword(kw) && kw[|kw| - 1] == SPACE && HeaderEnd(b) >= p
    requires Signatures.Representable(s) && OnOneLine(s)
    ensures var q, next := p + |kw|, p + |kw| + |PrintSignature(s)|;
      && next <= HeaderEnd(b)
      && (ParseSignature(b, q, HeaderEnd(b)).Some? <==> CanBeRead(s))
      && (ParseSignature(b, q, HeaderEnd(b)).Some? ==> ParseSignature(b, q, HeaderEnd(b)).value.1 == next)
  {
    hide ParseSignature, PrintSignature, HeaderEnd, At, Unbroken, OneLine, Readable;
    var t := PrintSignature(s);
    OneLineUnbroken(s);
    SignatureUnbroken(s);
    SignatureNotEmpty(s);
    UnbrokenLine(kw, t);
    HeaderReaches(b, p, kw + t);
    AtParts(b, p, kw, t);
    LineReadable(b, p + |kw|, HeaderEnd(b), s);
  }

  /**
   * A commit of one-line signatures can be read if and only if both are readable; then it has the
   * tree, the parents and the message that were printed.
   */
  lemma {:induction false} CommitReadable(c: Commit)
    requires CommitCodec.Representable(c) && OnOneLine(c.author) && OnOneLine(c.committer)
    ensures var r := ParseCommit(PrintCommit(c));
      && (r.Some? <==> CanBeRead(c.author) && CanBeRead(c.committer))
      && (r.Some? ==> r.value.tree == c.tree && r.value.parents == c.parents && r.value.message == ReadBack(c).message)
  {
    hide *;
    var b := PrintCommit(c);
    var end := HeaderEnd(b);
    var t := 46 + |ParentLines(c.parents)|;
    var q := t + 7 + |PrintSignature(c.author)|;
    var e := q + 10 + |PrintSignature(c.committer)|;
    var d := Draft(Some(c.tree), c.parents, None, None);
    PartsRepresentable(c);
    CommitLayout(c);
    TreeAndParentsRead(c);
    AuthorKeyword();
    AuthorRead(b, t, d, c.author);
    LineInHeader(b, t, AUTHOR, c.author);
    var author := ParseSignature(b, t + 7, end);
    if author.None? {
      NotParsed(b);
    } else {
      var d' := d.(author := Some(author.value.0));
      CommitterKeyword();
      CommitterRead(b, q, d', c.committer);
      LineInHeader(b, q, COMMITTER, c.committer);
      var committer := ParseSignature(b, q + 10, end);
      if committer.None? {
        NotParsed(b);
      } else {
        HeaderStops(b, e);
        MessageReadBack(c);
        var d'' := d'.(committer := Some(committer.value.0));
        HeaderDone(b, e, d'');
        Parsed(b, d'');
      }
    }
  }

  lemma NotParsed(b: Text)
    requires ParseHeader(b, 0, HeaderEnd(b), EMPTY).None?
    ensures ParseCommit(b).None?
  {
  }

  /** Tree and parents once found are kept. */
  lemma {:induction false} LinesKept(b: Text, p: nat, end: nat, d: Draft)
    requires end <= |b| && ParseHeader(b, p, end, d).Some?
    ensures var r := ParseHeader(b, p, end, d).value;
      (d.tree.Some? ==> r.tree == d.tree) && d.parents <= r.parents
    decreases end - p
  {
    hide ParseSignature, FromStrN, Find, KeywordAt;
    if p < end {
      var line := ParseLine(b, p, end, d);
      assert line.Some?;
      LinesKept(b, line.value.0, end, line.value.1);
    }
  }

  /** Whatever the signatures hold: a commit that can be read has the printed tree, and the printed parents first. */
  lemma {:induction false} ParentsFirst(c: Commit)
    requires ParseCommit(PrintCommit(c)).Some?
    ensures var r := ParseCommit(PrintCommit(c)).value; r.tree == c.tree && c.parents <= r.parents
  {
    hide PrintCommit, ParseHeader, HeaderEnd, ParentLines;
    var b := PrintCommit(c);
    TreeAndParentsRead(c);
    LinesKept(b, 46 + |ParentLines(c.parents)|, HeaderEnd(b), Draft(Some(c.tree), c.parents, None, None));
  }

  /** "A" and "a>b", as they may stand in a configuration file: the commit cannot be read. */
  lemma UnreadableCommit(tree: Oid, parents: seq<Oid>, message: Option<Text>)
    requires message.Some? ==> IsCString(message.value)
    ensures var s := Signature([65], [97, GT, 98], 17, 0);
      ParseCommit(PrintCommit(Commit(tree, parents, s, s, message))).None?
  {
    hide *;
    var s := Signature([65], [97, GT, 98], 17, 0);
    NotReadable(s);
    var c := Commit(tree, parents, s, s, message);
    OneLineCommit(c);
    CommitReadable(c);
  }

  lemma OneLineCommit(c: Commit)
    requires Signatures.Representable(c.author) && c.committer == c.author && OnOneLine(c.author)
    requires c.message.Some? ==> IsCString(c.message.value)
    ensures CommitCodec.Representable(c) && OnOneLine(c.author) && OnOneLine(c.committer)
  {
  }

  lemma NotReadable(s: Signature)
    requires s == Signature([65], [97, GT, 98], 17, 0)
    ensures Signatures.Representable(s) && OnOneLine(s) && !CanBeRead(s)
  {
    hide StrToUl, Find;
    var h := Names([65], [97, GT, 98]);
    assert h == [65, SPACE, LT, 97, GT, 98];
    assert h[2] == LT;
    var v := Address([65], [97, GT, 98]);
    assert v == [97, GT, 98] && v[1] == GT && v[3..] == [];
    NoNumber();
  }

  lemma NoNumber()
    ensures StrToUl([], 10).length == 0
  {
  }

  /** "A <B" as a name: the commit can be read, with another name and address. */
  lemma OpeningBracketReadable(email: Text)
    requires forall i :: 0 <= i < |email| ==> email[i] != GT
    ensures Readable([65, SPACE, LT, 66], email)
  {
    var h := Names([65, SPACE, LT, 66], email);
    assert h[2] == LT;
    assert Find(h, LT) == 2;
    var v := Address([65, SPACE, LT, 66], email);
    assert v == [66, SPACE, LT] + email;
    assert Find(v, GT) == |v|;
  }

  /** A sound signature on one line is readable. */
  lemma SoundReadable(s: Signature)
    requires Sound(s)
    ensures CanBeRead(s)
  {
    var h := Names(s.name, s.email);
    FindExact(s.name + [SPACE], LT, [LT] + s.email);
    assert h == s.name + [SPACE] + ([LT] + s.email);
    assert Address(s.name, s.email) == s.email;
  }
}
