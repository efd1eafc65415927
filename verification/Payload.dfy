/** What commits and tags have in common: a header of lines, a blank line and a message. */
module Payload {
  import opened Bytes
  import opened Libc
  import opened OidHex
  import opened Options
  import opened Signatures

  // ---------- the blank line ----------

  /** `memmem` for two newlines: the first position, or the length. */
  function BlankLine(b: Text): (n: nat)
    ensures n <= |b|
    ensures n < |b| ==> n + 1 < |b| && b[n] == NEWLINE && b[n + 1] == NEWLINE
  {
    if |b| < 2 then |b|
    else if b[0] == NEWLINE && b[1] == NEWLINE then 0
    else 1 + BlankLine(b[1..])
  }

  /** No blank line begins before the one found. */
  lemma {:induction false} BlankLineFirst(b: Text, i: nat)
    requires i < BlankLine(b) && i + 1 < |b|
    ensures b[i] != NEWLINE || b[i + 1] != NEWLINE
  {
    if i > 0 { BlankLineFirst(b[1..], i - 1); }
  }

  /** Where the header ends: behind the newline of its last line. */
  function HeaderEnd(b: Text): (end: nat)
    ensures end <= |b|
  {
    if BlankLine(b) < |b| then BlankLine(b) + 1 else |b|
  }

  function Message(b: Text): Option<Text> {
    if BlankLine(b) < |b| then Some(CString(b[BlankLine(b) + 2..])) else None
  }

  /** No two newlines in a row. */
  ghost predicate Unbroken(t: Text) {
    forall i, j :: 0 <= i < |t| && j == i + 1 && j < |t| ==> t[i] != NEWLINE || t[j] != NEWLINE
  }

  /** A header that reaches some text without blank lines reaches its end. */
  lemma HeaderReaches(b: Text, k: nat, t: Text)
    requires HeaderEnd(b) >= k && At(b, k, t) && t != [] && t[0] != NEWLINE && Unbroken(t)
    ensures HeaderEnd(b) >= k + |t|
  {
    hide BlankLine;
    assert b[k + 0] == t[0];
    forall i, j | k <= i && j == i + 1 && j < k + |t| ensures b[i] != NEWLINE || b[j] != NEWLINE {
      assert b[k + (i - k)] == t[i - k] && b[k + (j - k)] == t[j - k];
    }
    assert BlankLine(b) < |b| ==> b[BlankLine(b) + 1] == NEWLINE;
  }

  /** What the header holds has no blank lines. */
  lemma InHeader(b: Text, k: nat, t: Text)
    requires At(b, k, t) && k + |t| <= HeaderEnd(b)
    ensures Unbroken(t)
  {
    forall i, j | 0 <= i < |t| && j == i + 1 && j < |t| ensures t[i] != NEWLINE || t[j] != NEWLINE {
      assert b[k + i] == t[i] && b[k + j] == t[j];
      BlankLineFirst(b, k + i);
    }
  }

  /** A header that reaches a blank line ends there. */
  lemma HeaderStops(b: Text, k: nat)
    requires HeaderEnd(b) >= k && 0 < k < |b| && b[k - 1] == NEWLINE && b[k] == NEWLINE
    ensures HeaderEnd(b) == k && Message(b) == Some(CString(b[k + 1..]))
  {
    if BlankLine(b) > k - 1 { BlankLineFirst(b, k - 1); }
  }

  lemma SignatureUnbroken(s: Signature)
    ensures Unbroken(PrintSignature(s)) <==> Unbroken(s.name) && Unbroken(s.email)
  {
    var when := PrintWhen(s.time, s.offset);
    WhenOneLine(s.time, s.offset);
    hide PrintWhen;
    var tail := s.email + ([GT] + when);
    assert PrintSignature(s) == s.name + ([SPACE, LT] + tail);
    UnbrokenJoin([GT], when);
    UnbrokenJoin(s.email, [GT] + when);
    UnbrokenJoin([SPACE, LT], tail);
    UnbrokenJoin(s.name, [SPACE, LT] + tail);
  }

  lemma UnbrokenJoin(x: Text, y: Text)
    requires x == [] || x[|x| - 1] != NEWLINE || (y != [] && y[0] != NEWLINE)
    requires y != []
    requires y[0] != NEWLINE || x == [] || x[|x| - 1] != NEWLINE
    ensures Unbroken(x + y) <==> Unbroken(x) && Unbroken(y)
  {
    var t := x + y;
    if Unbroken(t) {
      forall i, j | 0 <= i < |x| && j == i + 1 && j < |x| ensures x[i] != NEWLINE || x[j] != NEWLINE {
        assert t[i] == x[i] && t[j] == x[j];
      }
      forall i, j | 0 <= i < |y| && j == i + 1 && j < |y| ensures y[i] != NEWLINE || y[j] != NEWLINE {
        assert t[|x| + i] == y[i] && t[|x| + j] == y[j];
      }
    }
    if Unbroken(x) && Unbroken(y) {
      forall i, j | 0 <= i < |t| && j == i + 1 && j < |t| ensures t[i] != NEWLINE || t[j] != NEWLINE {
        if j < |x| {
          assert t[i] == x[i] && t[j] == x[j];
        } else if i >= |x| {
          assert t[i] == y[i - |x|] && t[j] == y[j - |x|];
        }
      }
    }
  }

  lemma WhenOneLine(time: int, offset: int)
    ensures var w := PrintWhen(time, offset); w != [] && w[0] == SPACE && Unbroken(w)
  {
    var w, d, z := PrintWhen(time, offset), SignedDigits(time), Zone(offset);
    assert w == [SPACE] + d + [SPACE] + z + [NEWLINE];
    DigitsPlain(time);
    ZoneIsCString(offset);
    forall i | 0 <= i < |w| - 1 ensures w[i] != NEWLINE {
      if i == 0 || i == 1 + |d| {
      } else if i <= |d| {
        assert w[i] == d[i - 1];
      } else {
        assert w[i] == z[i - 2 - |d|];
      }
    }
  }

  // ---------- lines that hold an object name ----------

  /** The keyword stands at `p`, before `end`. */
  predicate KeywordAt(b: Text, p: nat, end: nat, kw: Text)
    requires end <= |b|
  {
    p + |kw| <= end && b[p..p + |kw|] == kw
  }

  function OidLine(kw: Text, oid: Oid): Text {
    kw + Hex(oid) + [NEWLINE]
  }

  predicate Keyword(kw: Text) {
    kw != [] && forall i :: 0 <= i < |kw| ==> kw[i] != NEWLINE
  }

  lemma OidLineRead(b: Text, p: nat, kw: Text, oid: Oid)
    requires At(b, p, OidLine(kw, oid)) && Keyword(kw) && HeaderEnd(b) >= p
    ensures var q := p + |kw|;
      && HeaderEnd(b) >= q + 41 && KeywordAt(b, p, HeaderEnd(b), kw)
      && FromStrN(b[q..], 40) == Some(oid) && b[q + 40] == NEWLINE
  {
    var q, h := p + |kw|, Hex(oid);
    OidLineUnbroken(kw, oid);
    HeaderReaches(b, p, OidLine(kw, oid));
    hide HeaderEnd, Hex, FromStrN, At;
    assert OidLine(kw, oid) == kw + (h + [NEWLINE]);
    AtParts(b, p, kw, h + [NEWLINE]);
    AtParts(b, q, h, [NEWLINE]);
    AtSlice(b, p, kw);
    AtSlice(b, q, h);
    AtSlice(b, q + 40, [NEWLINE]);
    assert b[q + 40..q + 41][0] == NEWLINE;
    assert b[q..] == h + b[q + 40..];
    HexRoundTrip(oid, b[q + 40..]);
  }

  lemma OidLineUnbroken(kw: Text, oid: Oid)
    requires Keyword(kw)
    ensures var t := OidLine(kw, oid); t != [] && t[0] != NEWLINE && Unbroken(t) && |t| == |kw| + 41
  {
    hide Half;
    var t := OidLine(kw, oid);
    forall i | 0 <= i < |t| - 1 ensures t[i] != NEWLINE {
      if i < |kw| { assert t[i] == kw[i]; } else { assert t[i] == Hex(oid)[i - |kw|]; }
    }
  }

  /** The header reaches into a line that begins with a keyword and goes on with some text. */
  lemma KeywordRead(b: Text, p: nat, kw: Text, t: Text)
    requires At(b, p, kw + t) && Keyword(kw) && kw[|kw| - 1] == SPACE && t != [] && HeaderEnd(b) >= p
    ensures HeaderEnd(b) > p + |kw| && KeywordAt(b, p, HeaderEnd(b), kw) && At(b, p + |kw|, t)
  {
    AtParts(b, p, kw, t);
    AtSlice(b, p, kw);
    var u := kw + [t[0]];
    assert kw + t == u + t[1..];
    AtParts(b, p, u, t[1..]);
    HeaderReaches(b, p, u);
  }

  // ---------- lines that hold a signature ----------

  /** Both brackets can be found again, the offset is short, and no blank line ends the header early. */
  ghost predicate Sound(s: Signature) {
    Plain(s) && Unbroken(s.name) && Unbroken(s.email)
  }

  /** The signature on a line of a header is read back if and only if it is sound. */
  lemma SignatureLine(b: Text, p: nat, kw: Text, s: Signature)
    requires At(b, p, kw + PrintSignature(s)) && Keyword(kw) && kw[|kw| - 1] == SPACE
    requires HeaderEnd(b) >= p && Signatures.Representable(s)
    ensures p + |kw| <= HeaderEnd(b)
    ensures var r, next := ParseSignature(b, p + |kw|, HeaderEnd(b)), p + |kw| + |PrintSignature(s)|;
      && (r.Some? && r.value.0 == s <==> Sound(s))
      && (Sound(s) ==> r == Some((s, next)) && next <= HeaderEnd(b))
  {
    hide *;
    var t := PrintSignature(s);
    SignatureNotEmpty(s);
    KeywordRead(b, p, kw, t);
    SignatureRoundTrip(b, p + |kw|, HeaderEnd(b), s);
    SignatureUnbroken(s);
    SoundMeans(s);
    if Sound(s) {
      UnbrokenLine(kw, t);
      HeaderReaches(b, p, kw + t);
    }
    if p + |kw| + |t| <= HeaderEnd(b) { InHeader(b, p + |kw|, t); }
  }

  lemma SoundMeans(s: Signature)
    ensures Sound(s) <==> Plain(s) && Unbroken(s.name) && Unbroken(s.email)
  {
  }

  lemma SignatureNotEmpty(s: Signature)
    ensures PrintSignature(s) != []
  {
  }

  lemma UnbrokenLine(kw: Text, t: Text)
    requires Keyword(kw) && kw[|kw| - 1] == SPACE && t != [] && Unbroken(t)
    ensures kw + t != [] && (kw + t)[0] != NEWLINE && Unbroken(kw + t)
  {
    var u := kw + t;
    forall i, j | 0 <= i < |u| && j == i + 1 && j < |u| ensures u[i] != NEWLINE || u[j] != NEWLINE {
      if i < |kw| {
        assert u[i] == kw[i];
      } else {
        assert u[i] == t[i - |kw|] && u[j] == t[j - |kw|];
      }
    }
  }

  // ---------- parts of a text, and what lies ahead ----------

  lemma FiveParts(v: Text, w: Text, x: Text, y: Text, z: Text)
    ensures var b := v + (w + (x + (y + z)));
      && At(b, 0, v) && At(b, |v|, w) && At(b, |v| + |w|, x) && At(b, |v| + |w| + |x|, y)
      && b[|v| + |w| + |x| + |y|..] == z
  {
    hide *;
    var xyz, yz := x + (y + z), y + z;
    var b := v + (w + xyz);
    AtWhole(b);
    AtParts(b, 0, v, w + xyz);
    AtParts(b, |v|, w, xyz);
    AtParts(b, |v| + |w|, x, yz);
    AtParts(b, |v| + |w| + |x|, y, z);
    AtSlice(b, |v| + |w| + |x| + |y|, z);
  }

  lemma LastAt(b: Text, p: nat, t: Text)
    requires At(b, p, t) && t != [] && t[|t| - 1] == NEWLINE
    ensures p + |t| <= |b| && b[p + |t| - 1] == NEWLINE
  {
    assert b[p + (|t| - 1)] == t[|t| - 1];
  }

  lemma Assoc5(a: Text, b: Text, c: Text, d: Text, e: Text)
    ensures a + b + c + d + e == a + (b + (c + (d + e)))
  {
  }

  lemma SignatureLastByte(s: Signature)
    ensures var t := PrintSignature(s); t != [] && t[|t| - 1] == NEWLINE
  {
  }

  lemma KeywordSuffix(b: Text, c: Text, p: nat, end: nat, kw: Text)
    requires |b| == |c| && p < end <= |b| && b[p..] == c[p..]
    ensures KeywordAt(b, p, end, kw) == KeywordAt(c, p, end, kw)
  {
    if p + |kw| <= end { SuffixSlice(b, c, p, p, p + |kw|); }
  }

  lemma FromHere(b: Text, c: Text, p: nat, i: nat)
    requires |b| == |c| && p <= i <= |b| && b[p..] == c[p..]
    ensures b[i..] == c[i..]
  {
    SuffixSlice(b, c, p, i, |b|);
    assert b[i..|b|] == b[i..] && c[i..|c|] == c[i..];
  }

  lemma AtWhole(b: Text)
    ensures At(b, 0, b)
  {
  }

  lemma NotAt(b: Text, p: nat, end: nat, text: Text, kw: Text)
    requires At(b, p, text + [NEWLINE]) && p + |text| + 1 <= end <= |b| && Keyword(kw) && !(kw <= text)
    ensures !KeywordAt(b, p, end, kw)
  {
    if KeywordAt(b, p, end, kw) { KeywordStarts(b, p, end, text, kw); }
  }

  lemma KeywordStarts(b: Text, p: nat, end: nat, text: Text, kw: Text)
    requires At(b, p, text + [NEWLINE]) && p + |text| + 1 <= end <= |b| && Keyword(kw) && KeywordAt(b, p, end, kw)
    ensures kw <= text
  {
    var t := text + [NEWLINE];
    assert b[p + |text|] == t[|text|];
    assert forall i :: 0 <= i < |kw| ==> kw[i] == b[p..p + |kw|][i] == b[p + i];
    assert forall i :: 0 <= i < |text| ==> b[p + i] == t[i] == text[i];
  }

  lemma WholeString(t: Text)
    requires IsCString(t)
    ensures CString(t) == t
  {
  }

  lemma AtFirst(b: Text, text: Text)
    requires text <= b
    ensures At(b, 0, text)
  {
  }

  lemma NoMessage(b: Text)
    requires HeaderEnd(b) >= |b|
    ensures HeaderEnd(b) == |b| && Message(b) == None
  {
  }

  /** The header ends at the first blank line; what follows, up to a NUL, is the message. Without one there is none. */
  lemma {:induction false} MessageExactly(header: Text, rest: Text)
    requires Unbroken(header + [NEWLINE])
    ensures var b := header + [NEWLINE, NEWLINE] + rest;
      HeaderEnd(b) == |header| + 1 && Message(b) == Some(CString(rest))
    ensures HeaderEnd(header) == |header| && Message(header) == None
  {
    hide CString;
    var b, h := header + [NEWLINE, NEWLINE] + rest, header + [NEWLINE];
    assert b[|header|] == NEWLINE && b[|header| + 1] == NEWLINE && b[|header| + 2..] == rest;
    var n := BlankLine(b);
    if n > |header| { BlankLineFirst(b, |header|); }
    assert forall i :: 0 <= i <= |header| ==> b[i] == h[i];
    var m := BlankLine(header);
    assert forall i :: 0 <= i < |header| ==> header[i] == h[i];
  }
}
