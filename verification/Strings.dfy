/** Growable strings: replacing in place, splitting and joining (string.c). */
module Strings {
  import opened Bytes
  import opened Libc
  import opened Options

  // ---------- strstr, split, join, replace ----------

  /** `strstr`: the first occurrence, not looking past a NUL. */
  function StrStr(s: Text, p: Text): (r: Option<nat>)
    requires p != []
    ensures r.Some? ==> r.value + |p| <= |s| && s[r.value..r.value + |p|] == p
  {
    if p <= s then Some(0)
    else if s == [] || s[0] == NUL then None
    else
      match StrStr(s[1..], p)
      case None => None
      case Some(n) =>
        assert s[n + 1..n + 1 + |p|] == s[1..][n..n + |p|];
        Some(n + 1)
  }

  /** An occurrence is found unless a NUL stands before it. */
  lemma {:induction false} StrStrFinds(s: Text, p: Text, k: nat)
    requires p != [] && k + |p| <= |s| && s[k..k + |p|] == p
    requires forall i :: 0 <= i < k ==> s[i] != NUL
    ensures StrStr(s, p).Some? && StrStr(s, p).value <= k
    decreases k
  {
    if k == 0 {
      assert p <= s;
    } else {
      assert s[1..][k - 1..k - 1 + |p|] == s[k..k + |p|];
      StrStrFinds(s[1..], p, k - 1);
    }
  }

  function Split(s: Text, sep: Text): (parts: seq<Text>)
    requires sep != []
    ensures parts != []
    decreases |s|
  {
    match StrStr(s, sep)
    case None => [s]
    case Some(n) => [s[..n]] + Split(s[n + |sep|..], sep)
  }

  function Join(parts: seq<Text>, sep: Text): Text {
    if parts == [] then []
    else if |parts| == 1 then parts[0]
    else parts[0] + sep + Join(parts[1..], sep)
  }

  function ReplaceAll(s: Text, p: Text, r: Text): Text
    requires p != []
    decreases |s|
  {
    match StrStr(s, p)
    case None => s
    case Some(n) => s[..n] + r + ReplaceAll(s[n + |p|..], p, r)
  }

  /** Replacing is splitting and joining with something else, whatever it contains. */
  lemma {:induction false} ReplaceIsJoin(s: Text, p: Text, r: Text)
    requires p != []
    ensures ReplaceAll(s, p, r) == Join(Split(s, p), r)
    decreases |s|
  {
    hide StrStr;
    match StrStr(s, p)
    case None =>
    case Some(n) =>
      ReplaceIsJoin(s[n + |p|..], p, r);
      assert ([s[..n]] + Split(s[n + |p|..], p))[1..] == Split(s[n + |p|..], p);
  }

  /** Joining with the separator undoes splitting. */
  lemma {:induction false} JoinSplit(s: Text, sep: Text)
    requires sep != []
    ensures Join(Split(s, sep), sep) == s
    decreases |s|
  {
    hide StrStr;
    match StrStr(s, sep)
    case None =>
    case Some(n) =>
      var rest := s[n + |sep|..];
      JoinSplit(rest, sep);
      assert ([s[..n]] + Split(rest, sep))[1..] == Split(rest, sep);
      assert s == s[..n] + sep + rest;
  }

  predicate OccursAt(s: Text, p: Text, k: nat) {
    k + |p| <= |s| && s[k..k + |p|] == p
  }

  ghost predicate Contains(s: Text, p: Text) {
    exists k: nat :: OccursAt(s, p, k)
  }

  /** No part of a C string contains the separator. */
  lemma {:induction false} PartsWithoutSep(s: Text, sep: Text)
    requires sep != [] && IsCString(s)
    ensures forall part :: part in Split(s, sep) ==> !Contains(part, sep)
    decreases |s|
  {
    hide StrStr;
    match StrStr(s, sep)
    case None =>
      if Contains(s, sep) {
        var k: nat :| OccursAt(s, sep, k);
        StrStrFinds(s, sep, k);
      }
    case Some(n) =>
      if Contains(s[..n], sep) {
        var k: nat :| OccursAt(s[..n], sep, k);
        assert s[..n][k..k + |sep|] == s[k..k + |sep|];
        StrStrFinds(s, sep, k);
      }
      PartsWithoutSep(s[n + |sep|..], sep);
  }

  /** Splitting finds these parts again: a part and the separator hold no earlier occurrence of it. */
  ghost predicate Separable(parts: seq<Text>, sep: Text)
    requires sep != []
  {
    && parts != []
    && StrStr(parts[|parts| - 1], sep) == None
    && forall i :: 0 <= i < |parts| - 1 ==> StrStr(parts[i] + sep, sep) == Some(|parts[i]|)
  }

  /** An occurrence that fits is found whatever follows. */
  lemma {:induction false} StrStrPrefix(s: Text, rest: Text, p: Text)
    requires p != [] && StrStr(s, p).Some?
    ensures StrStr(s + rest, p) == StrStr(s, p)
    decreases |s|
  {
    assert |p| <= |s| && (s + rest)[..|p|] == s[..|p|];
    if !(p <= s) {
      assert (s + rest)[1..] == s[1..] + rest;
      StrStrPrefix(s[1..], rest, p);
    }
  }

  /** A search that a NUL stops within the first part does not go on behind it. */
  lemma {:induction false} StrStrStopped(first: Text, p: Text, rest: Text)
    requires p != [] && StrStr(first + p, p).None?
    ensures StrStr(first + p + rest, p).None?
    decreases |first|
  {
    var s, t := first + p, first + p + rest;
    assert s[..|p|] == t[..|p|];
    assert first == [] ==> s == p;
    if first[0] != NUL {
      assert s[1..] == first[1..] + p && t[1..] == first[1..] + p + rest;
      StrStrStopped(first[1..], p, rest);
    }
  }

  /** Splitting undoes joining with the same separator if and only if the parts are separable. */
  lemma {:induction false} SplitJoin(parts: seq<Text>, sep: Text)
    requires sep != [] && parts != []
    ensures Split(Join(parts, sep), sep) == parts <==> Separable(parts, sep)
    decreases |parts|
  {
    hide StrStr;
    if |parts| == 1 {
      assert StrStr(parts[0], sep).Some? ==> |Split(parts[0], sep)| > 1;
    } else {
      var first, rest := parts[0], parts[1..];
      var tail := Join(rest, sep);
      var s := first + sep + tail;
      SplitJoin(rest, sep);
      if StrStr(first + sep, sep).None? {
        StrStrStopped(first, sep, tail);
      } else {
        StrStrPrefix(first + sep, tail, sep);
        var n := StrStr(s, sep).value;
        if n == |first| {
          assert s[..n] == first && s[n + |sep|..] == tail;
          assert parts == [first] + rest;
          SeparableRest(parts, sep);
        } else {
          assert Split(s, sep)[0] == s[..n];
        }
      }
    }
  }

  lemma SeparableRest(parts: seq<Text>, sep: Text)
    requires sep != [] && |parts| > 1 && StrStr(parts[0] + sep, sep) == Some(|parts[0]|)
    ensures Separable(parts, sep) <==> Separable(parts[1..], sep)
  {
    hide StrStr;
    var rest := parts[1..];
    assert forall i :: 0 <= i < |rest| ==> rest[i] == parts[i + 1];
    if Separable(rest, sep) {
      forall i | 0 <= i < |parts| - 1 ensures StrStr(parts[i] + sep, sep) == Some(|parts[i]|) {
        if i > 0 { assert StrStr(rest[i - 1] + sep, sep) == Some(|rest[i - 1]|); }
      }
    }
  }

  // ---------- the string object ----------

  class Str {
    var buf: array<Byte>
    var len: nat
    var cap: nat

    ghost predicate Valid()
      reads this, buf
    {
      len <= cap && buf.Length == cap + 1 && buf[len] == NUL
    }

    ghost function Contents(): Text
      requires Valid()
      reads this, buf
    {
      buf[..len]
    }

    /** `string_init_bufn`. */
    constructor (src: Text)
      ensures Valid() && Contents() == src && fresh(buf)
    {
      var b := new Byte[|src| + 1];
      CopyTo(b, 0, src);
      b[|src|] := NUL;
      buf, len, cap := b, |src|, |src|;
      new;
      assert buf[..len] == src;
    }

    /** `string_reserve`. */
    method Reserve(newcap: nat)
      requires Valid()
      modifies this
      ensures Valid() && Contents() == old(Contents()) && cap >= newcap && len == old(len)
      ensures buf == old(buf) || fresh(buf)
    {
      if cap >= newcap { return; }
      var newbuf := new Byte[newcap + 1];
      CopyTo(newbuf, 0, buf[..len]);
      newbuf[len] := NUL;
      buf, cap := newbuf, newcap;
    }

    /** `string_appendn`. */
    method Append(src: Text)
      requires Valid()
      modifies this, buf
      ensures Valid() && Contents() == old(Contents()) + src
      ensures buf == old(buf) || fresh(buf)
    {
      if src == [] {
        assert Contents() + src == Contents();
        return;
      }
      if |src| > cap - len { Reserve(len + |src|); }
      CopyTo(buf, len, src);
      assert buf[..len + |src|] == buf[..len] + buf[len..len + |src|];
      len := len + |src|;
      buf[len] := NUL;
    }

    /** One replacement: what follows the occurrence is moved, then the new text is copied in. */
    method ReplaceAt(pos: nat, patternlen: nat, replacement: Text)
      requires Valid() && pos + patternlen <= len
      modifies this, buf
      ensures Valid() && Contents() == old(Contents()[..pos] + replacement + Contents()[pos + patternlen..])
      ensures buf == old(buf) || fresh(buf)
    {
      ghost var was := Contents();
      if |replacement| > patternlen { Reserve(len + (|replacement| - patternlen)); }
      Shift(buf, len, pos, patternlen, replacement);
      len := len - patternlen + |replacement|;
      buf[len] := NUL;
      assert buf[..len] == was[..pos] + replacement + was[pos + patternlen..];
    }

    /** The `memmove` and the `memcpy` of a replacement. */
    static method Shift(buf: array<Byte>, len: nat, pos: nat, patternlen: nat, replacement: Text)
      requires pos + patternlen <= len <= buf.Length && len - patternlen + |replacement| <= buf.Length
      modifies buf
      ensures buf[..len - patternlen + |replacement|]
           == old(buf[..len])[..pos] + replacement + old(buf[..len])[pos + patternlen..]
    {
      ghost var was := buf[..len];
      var moved := buf[pos + patternlen..len];
      assert moved == was[pos + patternlen..];
      CopyTo(buf, pos + |replacement|, moved);
      CopyTo(buf, pos, replacement);
      var q := pos + |replacement|;
      assert buf[q..q + |moved|] == moved && buf[..pos] == was[..pos];
      assert buf[..q + |moved|] == buf[..pos] + buf[pos..q] + buf[q..q + |moved|];
    }

    /** `string_replace_all`: also ends when the replacement contains the pattern. */
    method ReplaceEach(pattern: Text, replacement: Text)
      requires Valid() && IsCString(pattern) && IsCString(replacement)
      modifies this, buf
      ensures Valid() && (buf == old(buf) || fresh(buf))
      ensures Contents() == if pattern == [] then old(Contents()) else ReplaceAll(old(Contents()), pattern, replacement)
    {
      hide StrStr, ReplaceAll;
      if pattern == [] { return; }
      var off: nat := 0;
      assert Contents()[0..] == Contents();
      while off <= len
        invariant Valid() && off <= len
        invariant buf == old(buf) || fresh(buf)
        invariant Contents()[..off] + ReplaceAll(Contents()[off..], pattern, replacement)
               == ReplaceAll(old(Contents()), pattern, replacement)
        decreases len - off
      {
        var at := StrStr(buf[off..len], pattern);
        ghost var s := Contents();
        assert s[off..] == buf[off..len];
        if at.None? {
          NoneReplaced(s[off..], pattern, replacement);
          assert s[..off] + s[off..] == s;
          return;
        }
        var pos := off + at.value;
        ReplaceAt(pos, |pattern|, replacement);
        Replaced(s, off, at.value, pattern, replacement, Contents());
        off := pos + |replacement|;
      }
    }
  }

  /** After one replacement, what is done and what is left. */
  lemma {:induction false} Replaced(s: Text, off: nat, n: nat, p: Text, r: Text, t: Text)
    requires p != [] && off <= |s| && StrStr(s[off..], p) == Some(n) && off + n + |p| <= |s|
    requires t == s[..off + n] + r + s[off + n + |p|..]
    ensures t[..off + n + |r|] + ReplaceAll(t[off + n + |r|..], p, r) == s[..off] + ReplaceAll(s[off..], p, r)
  {
    hide *;
    Resume(s, off, n, |p|);
    TakeDrop(s[..off + n] + r, s[off + n + |p|..]);
    ReplacedOff(s[..off], s[off..], s[off..off + n], s[off + n + |p|..], n, p, r);
  }

  lemma ReplacedOff(a: Text, u: Text, x: Text, y: Text, n: nat, p: Text, r: Text)
    requires p != [] && n + |p| <= |u| && x == u[..n] && y == u[n + |p|..] && StrStr(u, p) == Some(n)
    ensures a + x + r + ReplaceAll(y, p, r) == a + ReplaceAll(u, p, r)
  {
    hide *;
    FirstReplaced(u, p, r);
    Assoc4(a, x, r, ReplaceAll(y, p, r));
  }

  lemma Resume(s: Text, off: nat, n: nat, m: nat)
    requires off + n + m <= |s|
    ensures s[..off + n] == s[..off] + s[off..][..n] && s[off..][n + m..] == s[off + n + m..]
    ensures s[off..][..n] == s[off..off + n]
  {
  }

  lemma TakeDrop(a: Text, b: Text)
    ensures (a + b)[..|a|] == a && (a + b)[|a|..] == b
  {
  }

  lemma Assoc4(a: Text, b: Text, c: Text, d: Text)
    ensures a + b + c + d == a + (b + c + d)
  {
  }

  lemma FirstReplaced(u: Text, p: Text, r: Text)
    requires p != [] && StrStr(u, p).Some?
    ensures var n := StrStr(u, p).value; ReplaceAll(u, p, r) == u[..n] + r + ReplaceAll(u[n + |p|..], p, r)
  {
    hide StrStr;
  }

  lemma NoneReplaced(u: Text, p: Text, r: Text)
    requires p != [] && StrStr(u, p).None?
    ensures ReplaceAll(u, p, r) == u
  {
    hide StrStr;
  }

  lemma {:induction false} SplitMore(s: Text, cur: nat, n: nat, sep: Text, parts: seq<Text>)
    requires sep != [] && cur + n + |sep| <= |s| && StrStr(s[cur..], sep) == Some(n)
    ensures parts + Split(s[cur..], sep) == parts + [s[cur..cur + n]] + Split(s[cur + n + |sep|..], sep)
  {
    hide *;
    Resume(s, cur, n, |sep|);
    SplitOff(s[cur..], s[cur..cur + n], s[cur + n + |sep|..], n, sep, parts);
  }

  lemma SplitOff(u: Text, x: Text, y: Text, n: nat, sep: Text, parts: seq<Text>)
    requires sep != [] && n + |sep| <= |u| && x == u[..n] && y == u[n + |sep|..] && StrStr(u, sep) == Some(n)
    ensures parts + Split(u, sep) == parts + [x] + Split(y, sep)
  {
    hide *;
    FirstSplit(u, sep);
    PartsAssoc(parts, x, Split(y, sep));
  }

  lemma PartsAssoc(parts: seq<Text>, part: Text, more: seq<Text>)
    ensures parts + ([part] + more) == parts + [part] + more
  {
  }

  lemma FirstSplit(u: Text, sep: Text)
    requires sep != [] && StrStr(u, sep).Some?
    ensures var n := StrStr(u, sep).value; Split(u, sep) == [u[..n]] + Split(u[n + |sep|..], sep)
  {
    hide StrStr;
  }

  lemma LastSplit(u: Text, sep: Text)
    requires sep != [] && StrStr(u, sep).None?
    ensures Split(u, sep) == [u]
  {
    hide StrStr;
  }

  /** `string_split`: fails for an empty separator. */
  method SplitAll(s: Text, sep: Text) returns (parts: Option<seq<Text>>)
    requires IsCString(sep)
    ensures parts == if sep == [] then None else Some(Split(s, sep))
  {
    hide *;
    if sep == [] { return None; }
    var out, cur, end := [], 0, |s|;
    assert s[0..] == s;
    assert out + Split(s, sep) == Split(s, sep);
    while cur <= end
      invariant cur <= end && Split(s, sep) == out + Split(s[cur..], sep)
      decreases end - cur
    {
      var at := StrStr(s[cur..], sep);
      var next := if at.None? then end else cur + at.value;
      if at.None? { LastSplit(s[cur..], sep); } else { SplitMore(s, cur, at.value, sep, out); }
      assert s[cur..end] == s[cur..];
      out := out + [s[cur..next]];
      if next == end { break; }
      cur := next + |sep|;
    }
    parts := Some(out);
  }

  lemma JoinStep(parts: seq<Text>, i: nat, sep: Text)
    requires i < |parts|
    ensures Join(parts[..i + 1], sep) == if i == 0 then parts[0] else Join(parts[..i], sep) + sep + parts[i]
  {
    if i == 0 {
      assert parts[..1] == [parts[0]];
    } else {
      JoinStep(parts[1..], i - 1, sep);
      assert parts[..i + 1][1..] == parts[1..][..i];
      assert parts[..i][1..] == parts[1..][..i - 1];
    }
  }

  /** `string_join_str`. */
  method JoinAll(parts: seq<Text>, sep: Text) returns (out: Str)
    ensures out.Valid() && fresh(out) && fresh(out.buf) && out.Contents() == Join(parts, sep)
  {
    out := new Str([]);
    var first := true;
    assert parts[..0] == [] && parts[..|parts|] == parts;
    for i := 0 to |parts|
      invariant out.Valid() && fresh(out) && fresh(out.buf) && first == (i == 0)
      invariant out.Contents() == Join(parts[..i], sep)
    {
      JoinStep(parts, i, sep);
      if !first { out.Append(sep); }
      out.Append(parts[i]);
      first := false;
    }
  }
}
