/** Bytes, C strings and the order `strcmp` and `memcmp` compare them by. */
module Bytes {

  type Byte = x: int | 0 <= x < 256

  type Text = seq<Byte>

  /** A raw object name: 20 bytes (`QGIT_OID_RAWSZ`). */
  type Oid = s: Text | |s| == 20 witness seq(20, _ => 0)

  const NUL: Byte := 0
  const NEWLINE: Byte := 10
  const SPACE: Byte := 32
  const PLUS: Byte := 43
  const MINUS: Byte := 45
  const SLASH: Byte := 47

  const PATH_MAX: nat := 4096

  /** The length of a raw object name. */
  const RAWSZ: nat := 20

  /** The text can be a C string: it holds no NUL byte. */
  predicate IsCString(s: Text) {
    forall i :: 0 <= i < |s| ==> s[i] != NUL
  }

  /** The bytes of a text in ASCII. */
  function Ascii(s: string): (t: Text)
    requires forall i :: 0 <= i < |s| ==> s[i] < 128 as char
    ensures |t| == |s| && forall i :: 0 <= i < |s| ==> t[i] == s[i] as int
  {
    seq(|s|, i requires 0 <= i < |s| => s[i] as int)
  }

  lemma NamedBytes()
    ensures [NEWLINE, SPACE, PLUS, MINUS, SLASH] == Ascii("\n +-/") && NUL == 0
  {
  }

  predicate SlashFree(s: Text) {
    forall i :: 0 <= i < |s| ==> s[i] != SLASH
  }

  /** Strict lexicographic order on unsigned bytes. */
  predicate Less(a: Text, b: Text) {
    if b == [] then false
    else if a == [] then true
    else a[0] < b[0] || (a[0] == b[0] && Less(a[1..], b[1..]))
  }

  /** The texts agree up to `k`; there the first has ended, or has the smaller byte. */
  predicate FirstDiffers(a: Text, b: Text, k: nat) {
    k <= |a| && k < |b| && a[..k] == b[..k] && (k == |a| || a[k] < b[k])
  }

  ghost predicate ByteBefore(a: Text, b: Text) {
    exists k: nat :: FirstDiffers(a, b, k)
  }

  lemma SameFirstByte(a: Text, b: Text, k: nat)
    requires FirstDiffers(a, b, k)
    ensures k > 0 ==> a != [] && b != [] && a[0] == b[0]
  {
    assert k > 0 ==> a[0] == a[..k][0] && b[0] == b[..k][0];
  }

  /** The order is that of the first difference, the shorter text first where one is the start of the other. */
  lemma {:induction false} LessExactly(a: Text, b: Text)
    ensures Less(a, b) <==> ByteBefore(a, b)
  {
    if a != [] && b != [] && a[0] == b[0] {
      LessExactly(a[1..], b[1..]);
      if k: nat :| FirstDiffers(a[1..], b[1..], k) {
        assert a[..k + 1] == [a[0]] + a[1..][..k] && b[..k + 1] == [b[0]] + b[1..][..k];
        assert FirstDiffers(a, b, k + 1);
      }
      if k: nat :| FirstDiffers(a, b, k) {
        assert k > 0 && a[1..][..k - 1] == a[..k][1..] && b[1..][..k - 1] == b[..k][1..];
        assert FirstDiffers(a[1..], b[1..], k - 1);
      }
    } else {
      if Less(a, b) { assert FirstDiffers(a, b, 0); }
      if k: nat :| FirstDiffers(a, b, k) { SameFirstByte(a, b, k); }
    }
  }

  /** `strcmp`: the sign of the comparison. */
  function StrCmp(a: Text, b: Text): int {
    if Less(a, b) then -1 else if Less(b, a) then 1 else 0
  }

  lemma {:induction false} LessTrans(a: Text, b: Text, c: Text)
    requires Less(a, b) && Less(b, c)
    ensures Less(a, c)
  {
    if a != [] && a[0] == b[0] && b[0] == c[0] {
      LessTrans(a[1..], b[1..], c[1..]);
    }
  }

  lemma {:induction false} LessIrreflexive(a: Text)
    ensures !Less(a, a)
  {
    if a != [] { LessIrreflexive(a[1..]); }
  }

  lemma LessAsymmetric(a: Text, b: Text)
    requires Less(a, b)
    ensures !Less(b, a) && a != b
  {
    LessIrreflexive(a);
    if Less(b, a) { LessTrans(a, b, a); }
  }

  lemma {:induction false} LessTotal(a: Text, b: Text)
    ensures Less(a, b) || a == b || Less(b, a)
  {
    if a != [] && b != [] && a[0] == b[0] {
      LessTotal(a[1..], b[1..]);
      assert a == [a[0]] + a[1..] && b == [b[0]] + b[1..];
    }
  }

  /** A common prefix does not matter. */
  lemma {:induction false} LessAfterPrefix(p: Text, a: Text, b: Text)
    ensures Less(p + a, p + b) <==> Less(a, b)
  {
    if p == [] {
      assert p + a == a && p + b == b;
    } else {
      assert (p + a)[1..] == p[1..] + a && (p + b)[1..] == p[1..] + b;
      LessAfterPrefix(p[1..], a, b);
    }
  }

  lemma {:induction false} ProperPrefixLess(a: Text, b: Text)
    requires a <= b && a != b
    ensures Less(a, b)
  {
    if a != [] { ProperPrefixLess(a[1..], b[1..]); }
  }

  /** Once two texts differ at a byte both have, what follows is irrelevant. */
  lemma {:induction false} LessExtends(a: Text, b: Text, s: Text, t: Text)
    requires Less(a, b) && !(a <= b)
    ensures Less(a + s, b + t)
  {
    assert (a + s)[1..] == a[1..] + s && (b + t)[1..] == b[1..] + t;
    if a[0] == b[0] {
      assert a == [a[0]] + a[1..] && b == [b[0]] + b[1..];
      LessExtends(a[1..], b[1..], s, t);
    }
  }

  /** Texts with a given prefix are contiguous in the order. */
  lemma {:induction false} PrefixConvex(p: Text, a: Text, b: Text, c: Text)
    requires Less(a, b) && Less(b, c) && p <= a && p <= c
    ensures p <= b
  {
    if p != [] {
      assert a[0] == p[0] == c[0];
      assert p[1..] <= a[1..] && p[1..] <= c[1..];
      PrefixConvex(p[1..], a[1..], b[1..], c[1..]);
      assert p == [p[0]] + p[1..] && b == [b[0]] + b[1..];
    }
  }

  /** What does not have a prefix, but follows a text that has, stays after all of them. */
  lemma LessPastPrefix(p: Text, a: Text, b: Text, c: Text)
    requires p <= a && !(p <= b) && Less(a, b) && (b == c || Less(b, c))
    ensures !(p <= c)
  {
    if p <= c { PrefixConvex(p, a, b, c); }
  }

  lemma SliceOfSlice(s: Text, start: nat, end: nat, i: nat, j: nat)
    requires start <= end <= |s| && i <= j <= end - start
    ensures s[start..end][i..j] == s[start + i..start + j]
  {
    var a, b := s[start..end][i..j], s[start + i..start + j];
    assert |a| == |b|;
    assert forall k :: 0 <= k < |a| ==> a[k] == b[k];
  }

  lemma SuffixSlice(b: Text, c: Text, from: nat, i: nat, j: nat)
    requires |b| == |c| && from <= i <= j <= |b| && b[from..] == c[from..]
    ensures b[i..j] == c[i..j]
  {
    SliceOfSlice(b, from, |b|, i - from, j - from);
    SliceOfSlice(c, from, |c|, i - from, j - from);
    assert b[from..|b|] == b[from..] && c[from..|c|] == c[from..];
  }
}
