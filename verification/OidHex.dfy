/** Object names in hexadecimal: printing, parsing in full or in part, comparing prefixes (oid/). */
module OidHex {
  import opened Bytes
  import opened Options

  const HEXSZ: nat := 40

  /** The lower-case digit for four bits. */
  function HexDigit(n: nat): Byte
    requires n < 16
  {
    if n < 10 then 48 + n else 87 + n
  }

  /** `hexval`: -1 for what is not a hex digit. */
  function HexVal(c: Byte): (v: int)
    ensures -1 <= v < 16
  {
    if 48 <= c <= 57 then c - 48
    else if 97 <= c <= 102 then c - 97 + 10
    else if 65 <= c <= 70 then c - 65 + 10
    else -1
  }

  predicate AllHex(s: Text) {
    forall i :: 0 <= i < |s| ==> HexVal(s[i]) >= 0
  }

  /** The same digits in lower case. */
  function Lower(s: Text): (r: Text)
    ensures |r| == |s|
    ensures AllHex(s) ==> forall i :: 0 <= i < |s| ==> r[i] == HexDigit(HexVal(s[i]))
  {
    seq(|s|, i requires 0 <= i < |s| => if 65 <= s[i] <= 70 then s[i] + 32 else s[i])
  }

  /** The digits and what they stand for, in both cases. */
  lemma HexTable(c: Byte, v: nat)
    requires v < 16
    ensures HexVal(c) == v <==> c == "0123456789abcdef"[v] as int || c == "0123456789ABCDEF"[v] as int
    ensures HexDigit(v) == "0123456789abcdef"[v] as int
  {
  }

  /** The `k`th half of a byte of `s`. */
  function Half(s: Text, k: nat): (v: nat)
    requires k / 2 < |s|
    ensures v < 16
  {
    if k % 2 == 0 then s[k / 2] / 16 else s[k / 2] % 16
  }

  /** Two digits for every byte. */
  function Hex(s: Text): (r: Text)
    ensures |r| == 2 * |s|
    ensures forall k :: 0 <= k < |r| ==> r[k] == HexDigit(Half(s, k))
  {
    seq(2 * |s|, k requires 0 <= k < 2 * |s| => HexDigit(Half(s, k)))
  }

  /** `qgit_oid_fmt`. */
  method OidFmt(str: array<Byte>, oid: Oid)
    requires str.Length >= 40
    modifies str
    ensures str[..40] == Hex(oid)
    ensures forall i :: 40 <= i < str.Length ==> str[i] == old(str[i])
  {
    hide Hex;
    for i := 0 to 20
      invariant str[..2 * i] == Hex(oid)[..2 * i]
      invariant forall k :: 40 <= k < str.Length ==> str[k] == old(str[k])
    {
      HexStep(oid, i);
      str[i * 2] := HexDigit(oid[i] / 16);
      str[i * 2 + 1] := HexDigit(oid[i] % 16);
      assert str[..2 * (i + 1)] == str[..2 * i] + [str[2 * i], str[2 * i + 1]];
    }
    assert str[..2 * 20] == Hex(oid)[..2 * 20] == Hex(oid);
  }

  lemma HexStep(s: Text, i: nat)
    requires i < |s|
    ensures Hex(s)[..2 * (i + 1)] == Hex(s)[..2 * i] + [HexDigit(s[i] / 16), HexDigit(s[i] % 16)]
  {
    HalfOf(s, i);
    var h := Hex(s);
    hide *;
    assert h[..2 * (i + 1)] == h[..2 * i] + [h[2 * i], h[2 * i + 1]];
  }

  lemma HalfOf(s: Text, i: nat)
    requires i < |s|
    ensures Half(s, 2 * i) == s[i] / 16 && Half(s, 2 * i + 1) == s[i] % 16
  {
  }

  // ---------- parsing ----------

  /** The name whose first `length` hex digits are the given ones, the others zero. */
  function FromStrN(str: Text, length: nat): (r: Option<Oid>)
    requires length <= |str|
  {
    if length > HEXSZ || length == 0 || !AllHex(str[..length]) then None
    else Some(seq(20, i requires 0 <= i < 20 => 16 * Nibble(str[..length], 2 * i) + Nibble(str[..length], 2 * i + 1)))
  }

  /** The digit at a position, zero behind the end. */
  function Nibble(s: Text, i: nat): (v: nat)
    requires AllHex(s)
    ensures v < 16
  {
    if i < |s| then HexVal(s[i]) else 0
  }

  /** `qgit_oid_fromstrn`. */
  method OidFromStrN(str: Text, length: nat) returns (r: Option<Oid>)
    requires length <= |str|
    ensures r == FromStrN(str, length)
  {
    hide HexVal;
    if length > HEXSZ || length == 0 { return None; }
    ghost var s := str[..length];
    var id := new Byte[20];
    var p := 0;
    while p + 1 < length
      invariant p % 2 == 0 && p <= length
      invariant AllHex(str[..p])
      invariant forall i :: 0 <= i < p / 2 ==> id[i] == 16 * HexVal(str[2 * i]) + HexVal(str[2 * i + 1])
    {
      var hi, lo := HexVal(str[p]), HexVal(str[p + 1]);
      if hi < 0 || lo < 0 {
        assert s[p] == str[p] && s[p + 1] == str[p + 1];
        return None;
      }
      id[p / 2] := hi * 16 + lo;
      p := p + 2;
    }
    if length % 2 == 1 {
      var hi := HexVal(str[p]);
      if hi < 0 {
        assert s[p] == str[p];
        return None;
      }
      id[p / 2] := hi * 16;
      p := p + 2;
    }
    assert AllHex(s);
    for i := p / 2 to 20
      invariant forall k :: 0 <= k < 20 && (k < p / 2 || k < i) ==>
        id[k] == 16 * Nibble(s, 2 * k) + Nibble(s, 2 * k + 1)
    {
      id[i] := 0;
    }
    assert id[..] == FromStrN(str, length).value;
    r := Some(id[..]);
  }

  /** Parsing succeeds on hex digits only, in either case, and the result begins with these digits. */
  lemma ParsedPrefix(str: Text, length: nat)
    requires length <= |str|
    ensures FromStrN(str, length).Some? <==> 0 < length <= 40 && AllHex(str[..length])
    ensures 0 < length <= 40 && AllHex(str[..length]) ==>
      Hex(FromStrN(str, length).value) == Lower(str[..length]) + seq(40 - length, _ => 48)
  {
    if 0 < length <= 40 && AllHex(str[..length]) {
      var s := str[..length];
      var oid := FromStrN(str, length).value;
      forall k | 0 <= k < 40 ensures Half(oid, k) == Nibble(s, k) {
        var i := k / 2;
        assert oid[i] == 16 * Nibble(s, 2 * i) + Nibble(s, 2 * i + 1);
        assert oid[i] / 16 == Nibble(s, 2 * i) && oid[i] % 16 == Nibble(s, 2 * i + 1);
        assert k == 2 * i || k == 2 * i + 1;
      }
    }
  }

  /** Upper case makes no difference. */
  lemma CaseIgnored(str: Text, length: nat)
    requires length <= |str|
    ensures FromStrN(Lower(str), length) == FromStrN(str, length)
  {
    var s, t := str[..length], Lower(str)[..length];
    hide HexDigit;
    forall i | 0 <= i < length ensures HexVal(t[i]) == HexVal(s[i]) {
      assert t[i] == Lower(str)[i] && s[i] == str[i];
      LowerVal(str[i]);
    }
    assert AllHex(t) <==> AllHex(s);
    assert FromStrN(str, length).Some? ==> FromStrN(Lower(str), length).value == FromStrN(str, length).value;
  }

  lemma LowerVal(c: Byte)
    ensures HexVal(if 65 <= c <= 70 then c + 32 else c) == HexVal(c)
  {
  }

  lemma HexDigitVal(n: nat)
    requires n < 16
    ensures HexVal(HexDigit(n)) == n
  {
  }

  lemma HexIsHex(s: Text)
    ensures AllHex(Hex(s)) && Lower(Hex(s)) == Hex(s)
  {
    hide Half;
  }

  lemma HexInjective(a: Text, b: Text)
    requires Hex(a) == Hex(b)
    ensures a == b
  {
    assert |a| == |b|;
    SameHalves(a, b, 2 * |a|);
    assert a[..2 * |a| / 2] == a && b[..2 * |a| / 2] == b;
  }

  /** Printing and then parsing a name gives it back. */
  lemma HexRoundTrip(oid: Oid, rest: Text)
    ensures FromStrN(Hex(oid) + rest, 40) == Some(oid)
  {
    var h := Hex(oid);
    var str := h + rest;
    assert str[..40] == h;
    HexIsHex(oid);
    ParsedPrefix(str, 40);
    assert Lower(h) + [] == Hex(oid);
    HexInjective(FromStrN(str, 40).value, oid);
  }

  // ---------- comparing prefixes ----------

  /** `qgit_oid_ncmp`; only the sign matters. */
  function OidNCmp(a: Oid, b: Oid, len: nat): int {
    var n := if len > HEXSZ then HEXSZ else len;
    var ret := StrCmp(a[..n / 2], b[..n / 2]);
    if ret != 0 then ret
    else if n % 2 == 1 then
      var x: int, y: int := a[n / 2], b[n / 2];
      x / 16 - y / 16
    else 0
  }

  /** Two names compare equal up to `len` digits if and only if these digits are the same. */
  lemma NCmpIsPrefix(a: Oid, b: Oid, len: nat)
    requires len <= 40
    ensures OidNCmp(a, b, len) == 0 <==> Hex(a)[..len] == Hex(b)[..len]
  {
    SameText(a[..len / 2], b[..len / 2]);
    hide StrCmp, Hex;
    if Hex(a)[..len] == Hex(b)[..len] { SameHalves(a, b, len); }
    if a[..len / 2] == b[..len / 2] && (len % 2 == 1 ==> a[len / 2] / 16 == b[len / 2] / 16) { SameDigits(a, b, len); }
  }

  /** Otherwise the comparison goes by the digits. */
  lemma {:induction false} NCmpByDigits(a: Oid, b: Oid, len: nat)
    requires len <= 40
    ensures OidNCmp(a, b, len) < 0 <==> ByteBefore(Hex(a)[..len], Hex(b)[..len])
  {
    hide StrCmp, Hex, ByteBefore, Less;
    var p, q := Hex(a)[..len], Hex(b)[..len];
    NCmpIsPrefix(a, b, len);
    if OidNCmp(a, b, len) < 0 { NCmpBefore(a, b, len); }
    if OidNCmp(b, a, len) < 0 { NCmpBefore(b, a, len); }
    NCmpOpposite(a, b, len);
    LessExactly(p, q);
    LessExactly(q, p);
    LessTotal(p, q);
    LessIrreflexive(p);
    if Less(p, q) { LessAsymmetric(p, q); }
  }

  lemma NCmpOpposite(a: Oid, b: Oid, len: nat)
    ensures OidNCmp(a, b, len) == -OidNCmp(b, a, len)
  {
    hide Less;
    var n := if len > HEXSZ then HEXSZ else len;
    if Less(a[..n / 2], b[..n / 2]) { LessAsymmetric(a[..n / 2], b[..n / 2]); }
  }

  lemma {:induction false} NCmpBefore(a: Oid, b: Oid, len: nat)
    requires len <= 40 && OidNCmp(a, b, len) < 0
    ensures ByteBefore(Hex(a)[..len], Hex(b)[..len])
  {
    hide Hex, Less, ByteBefore;
    var s, t := a[..len / 2], b[..len / 2];
    LessExactly(s, t);
    if Less(s, t) {
      var k := FirstDifference(s, t);
      DigitsDiffer(a, b, len, k);
    } else {
      SameText(s, t);
      assert s == t;
      DigitsDiffer(a, b, len, len / 2);
    }
  }

  lemma FirstDifference(s: Text, t: Text) returns (k: nat)
    requires ByteBefore(s, t)
    ensures FirstDiffers(s, t, k)
  {
    k :| FirstDiffers(s, t, k);
  }

  /** Where the first byte that differs is smaller, so is the first digit that differs. */
  lemma {:induction false} DigitsDiffer(a: Oid, b: Oid, len: nat, k: nat)
    requires len <= 40 && k < 20 && a[..k] == b[..k]
    requires if 2 * k + 1 < len then a[k] < b[k] else 2 * k < len && a[k] / 16 < b[k] / 16
    ensures ByteBefore(Hex(a)[..len], Hex(b)[..len])
  {
    var j := if a[k] / 16 == b[k] / 16 then 2 * k + 1 else 2 * k;
    forall i | 0 <= i < j ensures Hex(a)[i] == Hex(b)[i] {
      assert i / 2 < k ==> a[..k][i / 2] == b[..k][i / 2];
      assert i / 2 >= k ==> i == 2 * k;
    }
    HalfOf(a, k);
    HalfOf(b, k);
    DigitOrder(Half(a, j), Half(b, j));
    hide Hex, Half, HexDigit;
    assert Hex(a)[..len][..j] == Hex(b)[..len][..j];
    assert FirstDiffers(Hex(a)[..len], Hex(b)[..len], j);
  }

  lemma DigitOrder(m: nat, n: nat)
    requires m < 16 && n < 16
    ensures m < n ==> HexDigit(m) < HexDigit(n)
  {
  }

  lemma SameText(a: Text, b: Text)
    ensures StrCmp(a, b) == 0 <==> a == b
  {
    LessIrreflexive(a);
    LessTotal(a, b);
  }

  lemma SameHalf(x: Byte, y: Byte)
    requires x / 16 == y / 16 && x % 16 == y % 16
    ensures x == y
  {
  }

  lemma SameHalves(a: Text, b: Text, len: nat)
    requires len <= |Hex(a)| && len <= |Hex(b)| && Hex(a)[..len] == Hex(b)[..len]
    ensures a[..len / 2] == b[..len / 2] && (len % 2 == 1 ==> a[len / 2] / 16 == b[len / 2] / 16)
  {
    forall k | 0 <= k < len ensures Half(a, k) == Half(b, k) {
      assert Hex(a)[..len][k] == Hex(b)[..len][k];
      HexDigitVal(Half(a, k));
      HexDigitVal(Half(b, k));
    }
    hide Hex, HexDigit;
    forall i | 0 <= i < len / 2 ensures a[i] == b[i] {
      HalfOf(a, i);
      HalfOf(b, i);
      SameHalf(a[i], b[i]);
    }
    if len % 2 == 1 {
      HalfOf(a, len / 2);
      HalfOf(b, len / 2);
    }
  }

  lemma SameDigits(a: Oid, b: Oid, len: nat)
    requires len <= 40 && a[..len / 2] == b[..len / 2] && (len % 2 == 1 ==> a[len / 2] / 16 == b[len / 2] / 16)
    ensures Hex(a)[..len] == Hex(b)[..len]
  {
    forall k | 0 <= k < len ensures Half(a, k) == Half(b, k) {
      if k / 2 < len / 2 { assert a[..len / 2][k / 2] == b[..len / 2][k / 2]; }
    }
    hide Half;
  }
}
