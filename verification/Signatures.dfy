/** Who and when: printing signatures and parsing them in place (signature_parse.c, commit_create.c). */
module Signatures {
  import opened Bytes
  import opened Libc
  import opened Options

  const LT: Byte := 60
  const GT: Byte := 62

  datatype Signature = Signature(name: Text, email: Text, time: int, offset: int)

  // ---------- time zones ----------

  function Abs(n: int): nat {
    if n < 0 then -n else n
  }

  /** `%.2d` of a number that is not negative. */
  function Two(n: nat): (s: Text)
    ensures |s| >= 2 && forall i :: 0 <= i < |s| ==> IsDigit(s[i], 10)
  {
    if n < 10 then [48, 48 + n] else Digits2(n)
  }

  function Digits2(n: nat): (s: Text)
    requires n >= 10
    ensures |s| >= 2 && forall i :: 0 <= i < |s| ==> IsDigit(s[i], 10)
  {
    assert Digits(n, 10) == Digits(n / 10, 10) + [48 + n % 10];
    Digits(n, 10)
  }

  /** `%c%.2d%.2d` of the sign, hours and minutes of an offset in minutes. */
  function Zone(offset: int): (z: Text)
    ensures |z| >= 5 && forall i :: 0 < i < |z| ==> IsDigit(z[i], 10)
    ensures z[0] == if offset < 0 then MINUS else PLUS
  {
    [if offset < 0 then MINUS else PLUS] + Two(Abs(offset) / 60) + Two(Abs(offset) % 60)
  }

  /** What the first five characters of a zone stand for. */
  function OffsetFromTimezone(zone: Text): int
    requires |zone| >= 5
  {
    var z: seq<int> := zone;
    var hours, minutes := (z[1] - 48) * 10 + (z[2] - 48), (z[3] - 48) * 10 + (z[4] - 48);
    (if zone[0] == PLUS then 1 else -1) * (hours * 60 + minutes)
  }

  lemma TwoDigits(n: nat)
    requires n < 100
    ensures Two(n) == [48 + n / 10, 48 + n % 10]
  {
    if n >= 10 {
      assert Digits(n / 10, 10) == [48 + n / 10];
    }
  }

  /** The first two of at least three digits stand for at most a tenth of the number. */
  lemma {:induction false} LeadingDigits(n: nat)
    requires n >= 100
    ensures var d: seq<int> := Digits(n, 10);
      |d| >= 3 && (d[0] - 48) * 10 + (d[1] - 48) <= n / 10
    decreases n
  {
    var m := n / 10;
    assert Digits(n, 10) == Digits(m, 10) + [48 + n % 10];
    if m < 100 {
      TwoDigits(m);
      assert Digits(m, 10) == Two(m);
    } else {
      LeadingDigits(m);
    }
  }

  /** A printed zone is read back if and only if it is less than a hundred hours. */
  lemma OffsetRoundTrip(offset: int)
    ensures OffsetFromTimezone(Zone(offset)) == offset <==> Abs(offset) < 6000
  {
    var hours, minutes := Abs(offset) / 60, Abs(offset) % 60;
    var z := Zone(offset);
    TwoDigits(minutes);
    if hours < 100 {
      TwoDigits(hours);
      assert z[1] == 48 + hours / 10 && z[2] == 48 + hours % 10;
      assert z[3] == 48 + minutes / 10 && z[4] == 48 + minutes % 10;
    } else {
      LeadingDigits(hours);
      var d := Digits(hours, 10);
      assert Two(hours) == d;
      assert z[1] == d[0] && z[2] == d[1];
      assert IsDigit(z[3], 10) && IsDigit(z[4], 10);
    }
  }

  // ---------- printing ----------

  lemma Fits(s: Signature)
    requires Representable(s)
    ensures IsCString(s.name) && IsCString(s.email) && -(ULONG / 2) <= s.time < ULONG / 2
  {
  }

  /** What follows the closing bracket of the e-mail address. */
  function PrintWhen(time: int, offset: int): Text {
    [SPACE] + SignedDigits(time) + [SPACE] + Zone(offset) + [NEWLINE]
  }

  function PrintSignature(s: Signature): Text {
    s.name + [SPACE, LT] + s.email + [GT] + PrintWhen(s.time, s.offset)
  }

  /** Both texts are C strings and the time is a 64-bit `time_t`. */
  predicate Representable(s: Signature) {
    IsCString(s.name) && IsCString(s.email) && -(ULONG / 2) <= s.time < ULONG / 2
  }

  // ---------- parsing ----------

  /**
   * What follows a closing bracket, in a header that goes on for `m` bytes: the time, the offset
   * and how many bytes they take with the newline. The first byte is skipped.
   */
  function ParseWhen(t: Text, m: nat): (r: Option<(int, int, nat)>)
    requires m <= |t|
    ensures r.Some? ==> 0 < r.value.2 <= m
  {
    if t == [] then None
    else
      var n := StrToUl(t[1..], 10);
      var q := 1 + n.length;
      if n.length == 0 || n.overflow || q >= |t| || t[q] != SPACE || q + 1 > m then None
      else
        var nl := q + 1 + Find(t[q + 1..m], NEWLINE);
        if nl >= m then None
        else
          var zone := CString(t[q + 1..nl]);
          if |zone| < 5 then None else Some((AsSigned(n.value), OffsetFromTimezone(zone), nl + 1))
  }

  /** The C string at `start` once NULs stand before the opening and in place of the closing bracket. */
  function NameText(b: Text, start: nat, lt: nat, gt: nat): Text
    requires start <= lt < gt <= |b|
  {
    CString(if lt == start then b[start..gt] else b[start..lt - 1])
  }

  /** The signature at `start`, and the position of the next line. */
  function ParseSignature(b: Text, start: nat, end: nat): (r: Option<(Signature, nat)>)
    requires start <= end <= |b|
    ensures r.Some? ==> start < r.value.1 <= end
  {
    var lt := start + Find(b[start..end], LT);
    if lt >= end then None
    else
      var gt := lt + 1 + Find(b[lt + 1..end], GT);
      if gt >= end then None
      else
        match ParseWhen(b[gt + 1..], end - gt - 1)
        case None => None
        case Some((time, offset, used)) =>
          Some((Signature(NameText(b, start, lt, gt), CString(b[lt + 1..gt]), time, offset), gt + 1 + used))
  }

  /** The text `t` stands in `b` at position `p`. */
  ghost predicate At(b: Text, p: nat, t: Text) {
    p + |t| <= |b| && forall i :: 0 <= i < |t| ==> b[p + i] == t[i]
  }

  lemma AtParts(b: Text, p: nat, x: Text, y: Text)
    requires At(b, p, x + y)
    ensures At(b, p, x) && At(b, p + |x|, y)
  {
    assert forall i :: 0 <= i < |x| ==> (x + y)[i] == x[i];
    assert forall i :: 0 <= i < |y| ==> (x + y)[|x| + i] == y[i];
  }

  lemma AtSlice(b: Text, p: nat, t: Text)
    requires At(b, p, t)
    ensures p + |t| <= |b| && b[p..p + |t|] == t
  {
  }

  /** The first `c` is behind `x`, if it is within the limit. */
  lemma FindAt(b: Text, p: nat, end: nat, x: Text, c: Byte)
    requires p <= end <= |b| && At(b, p, x + [c]) && forall i :: 0 <= i < |x| ==> x[i] != c
    ensures Find(b[p..end], c) == if p + |x| < end then |x| else end - p
  {
    AtParts(b, p, x, [c]);
    var s := b[p..end];
    assert [c][0] == c;
    assert b[p + |x|] == c;
    assert forall i :: 0 <= i < |s| && i < |x| ==> s[i] == x[i];
  }

  lemma CStringAt(b: Text, p: nat, x: Text)
    requires At(b, p, x) && IsCString(x)
    ensures CString(b[p..p + |x|]) == x
  {
    AtSlice(b, p, x);
  }

  /** A printed time and zone, within the header, is read back but for long offsets. */
  lemma {:induction false} WhenRoundTrip(time: int, offset: int, rest: Text, m: nat)
    requires -(ULONG / 2) <= time < ULONG / 2 && m <= |PrintWhen(time, offset) + rest|
    ensures var used := |PrintWhen(time, offset)|;
      ParseWhen(PrintWhen(time, offset) + rest, m) ==
        if used <= m then Some((time, OffsetFromTimezone(Zone(offset)), used)) else None
  {
    hide *;
    var d, z, t := SignedDigits(time), Zone(offset), PrintWhen(time, offset) + rest;
    WhenText(time, offset, rest);
    ZoneIsCString(offset);
    var q := 1 + |d|;
    TimeRead(time, z + [NEWLINE] + rest);
    if q + 1 <= m {
      AtPrefix(t, q + 1, z + [NEWLINE], rest);
      AtParts(t, q + 1, z, [NEWLINE]);
      FindAt(t, q + 1, m, z, NEWLINE);
      CStringAt(t, q + 1, z);
    }
    WhenFrom(t, m, time, q, z);
  }

  lemma {:induction false} WhenText(time: int, offset: int, rest: Text)
    ensures var d, z, t := SignedDigits(time), Zone(offset), PrintWhen(time, offset) + rest;
      && |PrintWhen(time, offset)| == |d| + |z| + 3
      && t[1..] == d + ([SPACE] + (z + [NEWLINE] + rest))
      && t[1 + |d|] == SPACE
      && t[2 + |d|..] == z + [NEWLINE] + rest
  {
    hide SignedDigits, Zone;
    var d, z, t := SignedDigits(time), Zone(offset), PrintWhen(time, offset) + rest;
    var tail := z + [NEWLINE] + rest;
    assert t == [SPACE] + d + [SPACE] + tail;
    assert [SPACE] + d + [SPACE] + tail == [SPACE] + (d + ([SPACE] + tail));
    assert t[2 + |d|..] == tail;
  }

  lemma TimeRead(time: int, tail: Text)
    requires -(ULONG / 2) <= time < ULONG / 2
    ensures |SignedDigits(time)| > 0
    ensures var n := StrToUl(SignedDigits(time) + ([SPACE] + tail), 10);
      !n.overflow && n.length == |SignedDigits(time)| && AsSigned(n.value) == time
  {
    ReadBackSigned(time, [SPACE] + tail);
  }

  lemma AtPrefix(b: Text, p: nat, x: Text, rest: Text)
    requires p <= |b| && b[p..] == x + rest
    ensures At(b, p, x)
  {
    assert forall i :: 0 <= i < |x| ==> b[p + i] == b[p..][i];
  }

  lemma WhenFrom(t: Text, m: nat, time: int, q: nat, zone: Text)
    requires m <= |t| && 1 <= q && q + 1 + |zone| < |t| && t[q] == SPACE && |zone| >= 5
    requires var n := StrToUl(t[1..], 10);
      !n.overflow && n.length == q - 1 && n.length > 0 && AsSigned(n.value) == time
    requires q + 1 <= m ==>
      && Find(t[q + 1..m], NEWLINE) == (if q + 1 + |zone| < m then |zone| else m - (q + 1))
      && CString(t[q + 1..q + 1 + |zone|]) == zone
    ensures ParseWhen(t, m) ==
      if q + 2 + |zone| <= m then Some((time, OffsetFromTimezone(zone), q + 2 + |zone|)) else None
  {
    hide StrToUl, Find, AsSigned, CString, OffsetFromTimezone;
  }

  lemma DigitsPlain(n: int)
    ensures var d := SignedDigits(n); forall i :: 0 <= i < |d| ==> d[i] != NEWLINE && d[i] != NUL
  {
  }

  lemma ZoneIsCString(offset: int)
    ensures |Zone(offset)| >= 5 && IsCString(Zone(offset))
    ensures forall i :: 0 <= i < |Zone(offset)| ==> Zone(offset)[i] != NEWLINE
  {
  }

  // ---------- when a signature is read back ----------

  /** No bracket where it would be taken for the closing one of a part. */
  predicate Plain(s: Signature) {
    && (forall i :: 0 <= i < |s.name| ==> s.name[i] != LT)
    && (forall i :: 0 <= i < |s.email| ==> s.email[i] != GT)
    && Abs(s.offset) < 6000
  }

  lemma SignatureParts(b: Text, p: nat, s: Signature)
    requires At(b, p, PrintSignature(s))
    ensures var when := PrintWhen(s.time, s.offset);
      && |PrintSignature(s)| == |s.name| + |s.email| + |when| + 3
      && At(b, p, s.name) && At(b, p, s.name + [SPACE] + [LT])
      && At(b, p + |s.name| + 2, s.email) && At(b, p + |s.name| + 2, s.email + [GT])
      && At(b, p + |s.name| + |s.email| + 3, when)
  {
    var when := PrintWhen(s.time, s.offset);
    hide PrintWhen;
    var head, tail := s.name + [SPACE] + [LT], s.email + [GT];
    assert PrintSignature(s) == head + (tail + when);
    AtParts(b, p, head, tail + when);
    AtParts(b, p + |head|, tail, when);
    AtParts(b, p + |head|, s.email, [GT]);
    assert head == s.name + [SPACE, LT];
    AtParts(b, p, s.name, [SPACE, LT]);
  }

  /**
   * A printed signature is read back, from a header that ends at `end`, if and only if the header
   * holds all of it and no bracket or long offset stands in the way.
   */
  lemma {:induction false} SignatureRoundTrip(b: Text, p: nat, end: nat, s: Signature)
    requires p <= end <= |b| && At(b, p, PrintSignature(s)) && Representable(s)
    ensures var r, next := ParseSignature(b, p, end), p + |PrintSignature(s)|;
      && (r.Some? && r.value.0 == s <==> Plain(s) && next <= end)
      && (r.Some? && r.value.0 == s ==> r.value.1 == next)
  {
    hide *;
    SignatureParts(b, p, s);
    OffsetRoundTrip(s.offset);
    Fits(s);
    if Find(s.name, LT) < |s.name| {
      BadName(b, p, end, s);
    } else if Find(s.email, GT) < |s.email| {
      BadEmail(b, p, end, s);
    } else {
      GoodNames(b, p, end, s);
    }
  }

  lemma TextAt(b: Text, p: nat, x: Text, k: nat, c: Byte)
    requires At(b, p, x) && k < |x| && x[k] == c
    ensures p + |x| <= |b| && b[p + k] == c && At(b, p, x[..k] + [c])
  {
  }

  /** A name with an opening bracket is not read back. */
  lemma {:induction false} BadName(b: Text, p: nat, end: nat, s: Signature)
    requires p <= end <= |b| && At(b, p, s.name + [SPACE] + [LT]) && Find(s.name, LT) < |s.name|
    ensures var r := ParseSignature(b, p, end); r.Some? ==> r.value.0.name != s.name
    ensures !Plain(s)
  {
    hide *;
    var k := Find(s.name, LT);
    assert s.name[k] == LT;
    NotPlain(s);
    var x := s.name + [SPACE] + [LT];
    TextAt(b, p, x, k, LT);
    TextAt(b, p, x, |s.name|, x[|s.name|]);
    assert x[..k] == s.name[..k];
    FindAt(b, p, end, s.name[..k], LT);
    var r := ParseSignature(b, p, end);
    if r.Some? {
      NameParsed(b, p, end);
      var gt := p + k + 1 + Find(b[p + k + 1..end], GT);
      NameDiffers(b, p, gt, k, |s.name|);
    }
  }

  lemma NotPlain(s: Signature)
    requires Find(s.name, LT) < |s.name| || Find(s.email, GT) < |s.email|
    ensures !Plain(s)
  {
  }

  lemma {:induction false} NameParsed(b: Text, p: nat, end: nat)
    requires p <= end <= |b| && ParseSignature(b, p, end).Some?
    ensures var lt := p + Find(b[p..end], LT);
      && lt < end && lt + 1 + Find(b[lt + 1..end], GT) < end
      && ParseSignature(b, p, end).value.0.name == NameText(b, p, lt, lt + 1 + Find(b[lt + 1..end], GT))
  {
    hide ParseWhen, NameText, Find, CString;
  }

  lemma NameDiffers(b: Text, p: nat, gt: nat, k: nat, n: nat)
    requires k < n && p + n < |b| && b[p + n] == SPACE && p + k < gt < |b| && b[gt] == GT
    ensures |NameText(b, p, p + k, gt)| != n
  {
    if k == 0 {
      NotUpToGt(b, p, gt, n);
    }
  }

  lemma NotUpToGt(b: Text, p: nat, gt: nat, n: nat)
    requires p <= gt < |b| && b[gt] == GT && p + n < |b| && b[p + n] == SPACE
    ensures |CString(b[p..gt])| != n
  {
    var m := Find(b[p..gt], NUL);
    assert m < gt - p ==> b[p + m] == NUL;
  }

  /** An address with a closing bracket is not read back. */
  lemma {:induction false} BadEmail(b: Text, p: nat, end: nat, s: Signature)
    requires p <= end <= |b| && At(b, p, s.name + [SPACE] + [LT]) && At(b, p + |s.name| + 2, s.email)
    requires Find(s.name, LT) == |s.name| && Find(s.email, GT) < |s.email|
    ensures var r := ParseSignature(b, p, end); r.Some? ==> r.value.0.email != s.email
    ensures !Plain(s)
  {
    hide *;
    var k, e := Find(s.email, GT), p + |s.name| + 2;
    NotPlain(s);
    LtAt(b, p, end, s.name);
    TextAt(b, e, s.email, k, GT);
    if e <= end { FindAt(b, e, end, s.email[..k], GT); }
    if ParseSignature(b, p, end).Some? { EmailParsed(b, p, end); }
  }

  lemma {:induction false} EmailParsed(b: Text, p: nat, end: nat)
    requires p <= end <= |b| && ParseSignature(b, p, end).Some?
    ensures var e := p + Find(b[p..end], LT) + 1;
      && e <= end && e + Find(b[e..end], GT) < end
      && |ParseSignature(b, p, end).value.0.email| <= Find(b[e..end], GT)
  {
    hide ParseWhen, NameText, Find;
  }

  lemma {:induction false} GoodNames(b: Text, p: nat, end: nat, s: Signature)
    requires p <= end <= |b| && IsCString(s.name) && IsCString(s.email)
    requires -(ULONG / 2) <= s.time < ULONG / 2
    requires At(b, p, s.name) && At(b, p, s.name + [SPACE] + [LT])
    requires At(b, p + |s.name| + 2, s.email) && At(b, p + |s.name| + 2, s.email + [GT])
    requires At(b, p + |s.name| + |s.email| + 3, PrintWhen(s.time, s.offset))
    requires Find(s.name, LT) == |s.name| && Find(s.email, GT) == |s.email|
    ensures var next := p + |s.name| + |s.email| + 3 + |PrintWhen(s.time, s.offset)|;
      ParseSignature(b, p, end) ==
        if next <= end then Some((s.(offset := OffsetFromTimezone(Zone(s.offset))), next)) else None
    ensures Plain(s) <==> Abs(s.offset) < 6000
  {
    hide *;
    PlainIff(s);
    var e := p + |s.name| + 2;
    LtAt(b, p, end, s.name);
    WhenNotEmpty(s.time, s.offset);
    AtSlice(b, e, s.email);
    if e <= end {
      FindAt(b, e, end, s.email, GT);
      CStringAt(b, e, s.email);
      NameAt(b, p, s.name, e + |s.email|);
      if e + |s.email| < end { WhenAt(b, e + |s.email|, end, s.time, s.offset); }
    }
    SignatureFrom(b, p, end, s.name, s.email);
  }

  lemma WhenAt(b: Text, gt: nat, end: nat, time: int, offset: int)
    requires gt < end <= |b| && -(ULONG / 2) <= time < ULONG / 2 && At(b, gt + 1, PrintWhen(time, offset))
    ensures var used := |PrintWhen(time, offset)|;
      ParseWhen(b[gt + 1..], end - gt - 1) ==
        if gt + 1 + used <= end then Some((time, OffsetFromTimezone(Zone(offset)), used)) else None
  {
    hide *;
    var t := PrintWhen(time, offset);
    AtSlice(b, gt + 1, t);
    assert b[gt + 1..] == t + b[gt + 1 + |t|..];
    WhenRoundTrip(time, offset, b[gt + 1 + |t|..], end - gt - 1);
  }

  lemma PlainIff(s: Signature)
    requires Find(s.name, LT) == |s.name| && Find(s.email, GT) == |s.email|
    ensures Plain(s) <==> Abs(s.offset) < 6000
  {
  }

  lemma {:induction false} LtAt(b: Text, p: nat, end: nat, name: Text)
    requires p <= end <= |b| && At(b, p, name + [SPACE] + [LT]) && Find(name, LT) == |name|
    ensures Find(b[p..end], LT) == if p + |name| + 1 < end then |name| + 1 else end - p
  {
    hide At;
    FindAt(b, p, end, name + [SPACE], LT);
  }

  /** What is parsed, once the brackets have been found. */
  lemma {:induction false} SignatureFrom(b: Text, p: nat, end: nat, name: Text, email: Text)
    requires p <= end <= |b|
    requires Find(b[p..end], LT) == if p + |name| + 1 < end then |name| + 1 else end - p
    requires var e := p + |name| + 2; e <= end ==>
      && Find(b[e..end], GT) == (if e + |email| < end then |email| else end - e)
    requires var e := p + |name| + 2; e + |email| < end ==>
      CString(b[e..e + |email|]) == email && NameText(b, p, e - 1, e + |email|) == name
    ensures var gt := p + |name| + 2 + |email|;
      ParseSignature(b, p, end) ==
        if gt >= end then None
        else
          match ParseWhen(b[gt + 1..], end - gt - 1)
          case None => None
          case Some((time, offset, used)) => Some((Signature(name, email, time, offset), gt + 1 + used))
  {
    hide ParseWhen, NameText, CString, Find;
  }

  lemma WhenNotEmpty(time: int, offset: int)
    ensures |PrintWhen(time, offset)| >= 3
  {
  }

  lemma NameAt(b: Text, p: nat, name: Text, gt: nat)
    requires At(b, p, name) && IsCString(name) && p + |name| + 1 < gt <= |b|
    ensures NameText(b, p, p + |name| + 1, gt) == name
  {
    CStringAt(b, p, name);
  }

  // ---------- parsing in place ----------

  /** The loops that look for a byte before `end`. */
  method Scan(buf: array<Byte>, start: nat, end: nat, c: Byte) returns (p: nat)
    requires start <= end <= buf.Length
    ensures p == start + Find(buf[start..end], c)
  {
    p := start;
    while p < end && buf[p] != c
      invariant start <= p <= end
      invariant forall i :: start <= i < p ==> buf[i] != c
    {
      p := p + 1;
    }
    ghost var s := buf[start..end];
    assert forall i :: 0 <= i < p - start ==> s[i] == buf[start + i];
    assert p < end ==> s[p - start] == c;
  }

  /** Nothing has changed but bytes that are NUL now. */
  twostate predicate OnlyNuls(buf: array<Byte>)
    reads buf
  {
    forall i :: 0 <= i < buf.Length ==> buf[i] == old(buf[i]) || buf[i] == NUL
  }

  /** The zone is a C string that starts behind the NUL that ends the time, and ends at `p`. */
  ghost predicate ZoneAt(b: Text, from: nat, p: nat, offset: int) {
    exists q: nat :: from < q < p < |b| && b[q] == NUL && b[p] == NUL
                     && var zone := CString(b[q + 1..]); |zone| >= 5 && OffsetFromTimezone(zone) == offset
  }

  /** The time and the zone, each ended with a NUL. */
  method WhenParse(buf: array<Byte>, gt: nat, end: nat) returns (r: Option<(int, int, nat)>)
    requires gt < end <= buf.Length
    modifies buf
    ensures r == ParseWhen(old(buf[gt + 1..]), end - gt - 1)
    ensures r.Some? ==> ZoneAt(buf[..], gt + 1, gt + r.value.2, r.value.1)
    ensures OnlyNuls(buf) && forall i :: 0 <= i <= gt ==> buf[i] == old(buf[i])
    ensures r.Some? ==> forall i :: gt + 1 + r.value.2 <= i < buf.Length ==> buf[i] == old(buf[i])
  {
    hide StrToUl, OffsetFromTimezone, AsSigned, Find, CString, ZoneAt;
    ghost var t := buf[gt + 1..];
    var p := gt + 2;
    if p > buf.Length { return None; }
    assert buf[p..] == t[1..];
    var n := StrToUl(buf[p..], 10);
    p := p + n.length;
    if n.length == 0 || n.overflow || p >= buf.Length || buf[p] != SPACE { return None; }
    ghost var q := p - gt - 1;
    buf[p] := NUL;
    p := p + 1;
    if p > end { return None; }
    var zone := p;
    ghost var cut := buf[..];
    assert cut[zone..] == t[zone - gt - 1..];
    var offset;
    p, offset := ZoneParse(buf, zone, end);
    ZoneText(t, cut, gt, zone, p, end);
    if offset.None? { return None; }
    ZoneHeld(buf[..], gt + 1, zone, p, offset.value);
    return Some((AsSigned(n.value), offset.value, p - gt));
  }

  /** The zone, which a newline ends. */
  method ZoneParse(buf: array<Byte>, zone: nat, end: nat) returns (p: nat, offset: Option<int>)
    requires zone <= end <= buf.Length
    modifies buf
    ensures p <= end && p == zone + Find(old(buf[..])[zone..end], NEWLINE)
    ensures offset == ZoneOf(old(buf[..])[zone..p], p < end)
    ensures offset.Some? ==> p < end && buf[p] == NUL && ZoneOf(CString(buf[..][zone..]), true) == offset
    ensures forall i :: 0 <= i < buf.Length ==> buf[i] == old(buf[i]) || (i == p && buf[i] == NUL)
  {
    hide OffsetFromTimezone, Find;
    ghost var b := buf[..];
    p := Scan(buf, zone, end, NEWLINE);
    assert buf[zone..end] == b[zone..end];
    if p >= end { return p, None; }
    buf[p] := NUL;
    CutAtNul(buf[..][zone..], b[zone..p]);
    CStringAgain(b[zone..p]);
    assert buf[..][zone..] == buf[zone..];
    var tz := CString(buf[zone..]);
    offset := if |tz| < 5 then None else Some(OffsetFromTimezone(tz));
  }

  /** The offset that a text stands for, up to a NUL, if it is ended and long enough. */
  function ZoneOf(text: Text, ended: bool): Option<int> {
    var zone := CString(text);
    if !ended || |zone| < 5 then None else Some(OffsetFromTimezone(zone))
  }

  lemma CStringAgain(t: Text)
    ensures CString(CString(t)) == CString(t)
  {
  }

  /** The zone as part of what follows the closing bracket. */
  lemma ZoneText(t: Text, b: Text, gt: nat, zone: nat, p: nat, end: nat)
    requires gt + 1 < zone <= p <= end <= |b| == |t| + gt + 1 && b[zone..] == t[zone - gt - 1..]
    ensures t[zone - gt - 1..end - gt - 1] == b[zone..end] && t[zone - gt - 1..p - gt - 1] == b[zone..p]
  {
    assert b[zone..end] == b[zone..][..end - zone] && b[zone..p] == b[zone..][..p - zone];
  }

  lemma ZoneHeld(b: Text, from: nat, zone: nat, p: nat, offset: int)
    requires from < zone - 1 && zone <= p < |b| && b[zone - 1] == NUL && b[p] == NUL
    requires ZoneOf(CString(b[zone..]), true) == Some(offset)
    ensures ZoneAt(b, from, p, offset)
  {
    hide OffsetFromTimezone;
    CStringAgain(b[zone..]);
    assert b[zone - 1 + 1..] == b[zone..];
  }

  /** `qgit_signature_parse`: ends each part with a NUL in the buffer itself, and leaves what follows alone. */
  method SignatureParse(buf: array<Byte>, start: nat, end: nat) returns (r: Option<(Signature, nat)>)
    requires 1 <= start <= end <= buf.Length
    modifies buf
    ensures r == ParseSignature(old(buf[..]), start, end)
    ensures r.Some? ==> CString(buf[start..]) == r.value.0.name && EmailAt(buf[..], start, r.value.1, r.value.0.email)
    ensures OnlyNuls(buf) && forall i :: 0 <= i < start - 1 ==> buf[i] == old(buf[i])
    ensures r.Some? ==> forall i :: r.value.1 <= i < buf.Length ==> buf[i] == old(buf[i])
  {
    hide ParseWhen, Find, CString, ZoneAt;
    ghost var b := buf[..];
    var lt := Scan(buf, start, end, LT);
    assert buf[start..end] == b[start..end];
    if lt >= end { return None; }
    buf[lt - 1] := NUL;
    var gt := Scan(buf, lt + 1, end, GT);
    assert buf[lt + 1..end] == b[lt + 1..end];
    if gt >= end { return None; }
    buf[gt] := NUL;
    assert buf[gt + 1..] == b[gt + 1..];
    ghost var cut := buf[..];
    var when := WhenParse(buf, gt, end);
    if when.None? { return None; }
    var (time, offset, used) := when.value;
    var name, email := CString(buf[start..]), CString(buf[lt + 1..]);
    assert buf[..gt + 1] == cut[..gt + 1];
    TextsCut(b, buf[..], start, lt, gt);
    assert buf[..][lt + 1..] == buf[lt + 1..];
    return Some((Signature(name, email, time, offset), gt + 1 + used));
  }

  /** The address is a C string in the buffer, behind the NUL that ends the name. */
  ghost predicate EmailAt(b: Text, start: nat, next: nat, email: Text) {
    exists e :: start < e < next <= |b| && CString(b[e..]) == email
  }

  lemma TextsCut(b: Text, c: Text, start: nat, lt: nat, gt: nat)
    requires |b| == |c| && 1 <= start <= lt < gt < |b|
    requires c[..gt + 1] == b[lt - 1 := NUL][gt := NUL][..gt + 1]
    ensures CString(c[lt + 1..]) == CString(b[lt + 1..gt]) && CString(c[start..]) == NameText(b, start, lt, gt)
  {
    hide CString;
    var d := b[lt - 1 := NUL][gt := NUL];
    assert forall i :: 0 <= i <= gt ==> c[i] == c[..gt + 1][i] == d[i];
    CutAtNul(c[lt + 1..], b[lt + 1..gt]);
    if lt == start {
      CutAtNul(c[start..], b[start..gt]);
    } else {
      CutAtNul(c[start..], b[start..lt - 1]);
    }
  }

  /** A text up to the NUL that ends it. */
  lemma CutAtNul(s: Text, t: Text)
    requires |t| < |s| && t <= s && s[|t|] == NUL
    ensures CString(s) == CString(t)
  {
    assert forall i :: 0 <= i < |t| ==> s[i] == t[i];
  }

  /** Parsing depends only on what is at and behind the starting point. */
  lemma {:induction false} SignatureSuffix(b: Text, c: Text, start: nat, end: nat)
    requires |b| == |c| && start <= end <= |b| && b[start..] == c[start..]
    ensures ParseSignature(b, start, end) == ParseSignature(c, start, end)
  {
    hide ParseWhen, Find, CString;
    SuffixSlice(b, c, start, start, end);
    var lt := start + Find(b[start..end], LT);
    if lt < end {
      SuffixSlice(b, c, start, lt + 1, end);
      var gt := lt + 1 + Find(b[lt + 1..end], GT);
      if gt < end {
        SuffixSlice(b, c, start, gt + 1, |b|);
        assert b[gt + 1..] == b[gt + 1..|b|] && c[gt + 1..] == c[gt + 1..|b|];
        SuffixSlice(b, c, start, lt + 1, gt);
        SuffixSlice(b, c, start, start, gt);
        if lt > start { SuffixSlice(b, c, start, start, lt - 1); }
      }
    }
  }

  // ---------- signatures as text ----------

  /** Every 64-bit time can be held. */
  lemma AnyTime(time: int, offset: int)
    requires -0x8000_0000_0000_0000 <= time <= 0x7FFF_FFFF_FFFF_FFFF
    ensures Representable(Signature([], [], time, offset))
  {
  }

  /** A zone of less than a hundred hours: the sign, two digits of hours and two of minutes. */
  lemma ZoneText5(offset: int)
    requires -6000 < offset < 6000
    ensures var h, m := Abs(offset) / 60, Abs(offset) % 60;
      Zone(offset) == [if offset < 0 then MINUS else PLUS] + [48 + h / 10, 48 + h % 10, 48 + m / 10, 48 + m % 10]
  {
    TwoDigits(Abs(offset) / 60);
    TwoDigits(Abs(offset) % 60);
  }

  /** Reading a zone: hours and minutes, east for a plus sign and west for anything else; more is ignored. */
  lemma ZoneValue(sign: Byte, h: nat, hh: nat, m: nat, mm: nat, more: Text)
    requires h < 10 && hh < 10 && m < 10 && mm < 10
    ensures var minutes := 60 * (10 * h + hh) + 10 * m + mm;
      OffsetFromTimezone([sign, 48 + h, 48 + hh, 48 + m, 48 + mm] + more) == if sign == PLUS then minutes else -minutes
  {
    var z := [sign, 48 + h, 48 + hh, 48 + m, 48 + mm] + more;
    assert z[0] == sign && z[1] == 48 + h && z[2] == 48 + hh && z[3] == 48 + m && z[4] == 48 + mm;
  }

  /** The name, the address in brackets, the time in seconds and the zone. */
  lemma {:induction false} SignatureText(name: Text, email: Text)
    ensures PrintSignature(Signature(name, email, 1700, -330)) == name + Ascii(" <") + email + Ascii("> 1700 -0530\n")
    ensures PrintSignature(Signature(name, email, -17, 60)) == name + Ascii(" <") + email + Ascii("> -17 +0100\n")
    ensures PrintSignature(Signature(name, email, 0, 0)) == name + Ascii(" <") + email + Ascii("> 0 +0000\n")
  {
    hide *;
    Bracketed(name, email, 1700, -330);
    Bracketed(name, email, -17, 60);
    Bracketed(name, email, 0, 0);
    WhenThen();
    WhenBefore();
    WhenZero();
  }

  lemma Bracketed(name: Text, email: Text, time: int, offset: int)
    ensures PrintSignature(Signature(name, email, time, offset))
         == name + Ascii(" <") + email + ([GT] + PrintWhen(time, offset))
  {
    hide PrintWhen;
    assert [SPACE, LT] == Ascii(" <");
  }

  lemma WhenThen()
    ensures [GT] + PrintWhen(1700, -330) == Ascii("> 1700 -0530\n")
  {
    ZoneText5(-330);
    FourDigits();
    hide Digits, Zone;
  }

  lemma WhenBefore()
    ensures [GT] + PrintWhen(-17, 60) == Ascii("> -17 +0100\n")
  {
    ZoneText5(60);
    FourDigits();
    hide Digits, Zone;
  }

  lemma WhenZero()
    ensures [GT] + PrintWhen(0, 0) == Ascii("> 0 +0000\n")
  {
    ZoneText5(0);
    FourDigits();
    hide Digits, Zone;
  }

  lemma {:induction false} FourDigits()
    ensures Digits(1700, 10) == [49, 55, 48, 48] && Digits(17, 10) == [49, 55] && Digits(0, 10) == [48]
  {
    assert Digits(1, 10) == [49];
    assert Digits(17, 10) == Digits(1, 10) + [55];
    assert Digits(170, 10) == Digits(17, 10) + [48];
    assert Digits(1700, 10) == Digits(170, 10) + [48];
  }
}
