/** The C library functions the codecs rest on: number formatting, `strtoul`, `memchr`, `snprintf`. */
module Libc {
  import opened Bytes

  // ---------- printing and reading numbers ----------

  const ULONG: nat := 0x1_0000_0000_0000_0000

  predicate IsDigit(c: Byte, base: nat) {
    48 <= c < 48 + base
  }

  /** The digits of a base, and no other byte. */
  lemma IsDigitExactly(c: Byte, base: nat)
    requires 2 <= base <= 10
    ensures IsDigit(c, base) <==> exists v :: 0 <= v < base && c == "0123456789"[v] as int
  {
    var digits := "0123456789";
    assert forall v :: 0 <= v < 10 ==> digits[v] as int == 48 + v;
    if IsDigit(c, base) { assert c == digits[c - 48] as int; }
  }

  /** `%o` (base 8) and `%lu` (base 10): the digits of `n`, no leading zeros. */
  function Digits(n: nat, base: nat): (s: Text)
    requires 2 <= base <= 10
    ensures s != [] && forall i :: 0 <= i < |s| ==> IsDigit(s[i], base)
    decreases n
  {
    if n < base then [48 + n] else Digits(n / base, base) + [48 + n % base]
  }

  /** The number a run of digits stands for. */
  function Value(s: Text, base: nat): nat
    requires 2 <= base <= 10
    requires forall i :: 0 <= i < |s| ==> IsDigit(s[i], base)
  {
    if s == [] then 0
    else
      var high, low: int := Value(s[..|s| - 1], base), s[|s| - 1];
      assert IsDigit(s[|s| - 1], base) && high * base >= 0;
      high * base + (low - 48)
  }

  lemma {:induction false} ValueOfDigits(n: nat, base: nat)
    requires 2 <= base <= 10
    ensures Value(Digits(n, base), base) == n
    decreases n
  {
    if n < base {
      assert Value([], base) == 0;
      ValueSnoc([], 48 + n, base);
      assert [] + [48 + n] == [48 + n];
    } else {
      var high := Digits(n / base, base);
      ValueOfDigits(n / base, base);
      assert IsDigit(48 + n % base, base);
      ValueSnoc(high, 48 + n % base, base);
      hide Value;
      DivMod(n, base);
    }
  }

  lemma ValueSnoc(d: Text, c: Byte, base: nat)
    requires 2 <= base <= 10 && IsDigit(c, base) && forall i :: 0 <= i < |d| ==> IsDigit(d[i], base)
    ensures var s := d + [c];
      (forall i :: 0 <= i < |s| ==> IsDigit(s[i], base)) && Value(s, base) == Value(d, base) * base + (c - 48)
  {
    var s := d + [c];
    assert s[..|s| - 1] == d && s[|s| - 1] == c;
  }

  lemma DivMod(n: nat, base: nat)
    requires base > 0
    ensures n / base * base + n % base == n
  {
  }

  /** The number of leading digits. */
  function DigitRun(s: Text, base: nat): (n: nat)
    requires 2 <= base <= 10
    ensures n <= |s|
    ensures forall i :: 0 <= i < n ==> IsDigit(s[i], base)
    ensures n < |s| ==> !IsDigit(s[n], base)
  {
    if s == [] || !IsDigit(s[0], base) then 0 else 1 + DigitRun(s[1..], base)
  }

  /** `isspace` in the C locale. */
  predicate IsSpace(c: Byte) {
    c == SPACE || 9 <= c <= 13
  }

  function SpaceRun(s: Text): (n: nat)
    ensures n <= |s|
    ensures forall i :: 0 <= i < n ==> IsSpace(s[i])
    ensures n < |s| ==> !IsSpace(s[n])
  {
    if s == [] || !IsSpace(s[0]) then 0 else 1 + SpaceRun(s[1..])
  }

  /** The outcome of `strtoul`: the value, how much was read, and whether `errno` was set. */
  datatype Number = Number(value: nat, length: nat, overflow: bool)

  /** `strtoul(s, &end, base)`; `length` is 0 when there are no digits. */
  function StrToUl(s: Text, base: nat): (r: Number)
    requires 2 <= base <= 10
    ensures r.length <= |s| && r.value < ULONG
  {
    var sp := SpaceRun(s);
    var signed := sp < |s| && (s[sp] == PLUS || s[sp] == MINUS);
    var start := if signed then sp + 1 else sp;
    var n := DigitRun(s[start..], base);
    var v := Value(s[start..][..n], base);
    if n == 0 then Number(0, 0, false)
    else if v >= ULONG then Number(ULONG - 1, start + n, true)
    else if signed && s[sp] == MINUS then Number((ULONG - v) % ULONG, start + n, false)
    else Number(v, start + n, false)
  }

  lemma {:induction false} DigitRunExact(d: Text, rest: Text, base: nat)
    requires 2 <= base <= 10
    requires forall i :: 0 <= i < |d| ==> IsDigit(d[i], base)
    requires rest == [] || !IsDigit(rest[0], base)
    ensures DigitRun(d + rest, base) == |d|
  {
    if d == [] {
      assert d + rest == rest;
    } else {
      assert (d + rest)[1..] == d[1..] + rest;
      DigitRunExact(d[1..], rest, base);
    }
  }

  /** The six characters of the C locale that are skipped. */
  lemma IsSpaceExactly(c: Byte)
    ensures IsSpace(c) <==> exists i :: 0 <= i < 6 && c == " \t\n\U{0B}\U{0C}\r"[i] as int
  {
    var spaces := " \t\n\U{0B}\U{0C}\r";
    assert spaces[0] as int == 32 && spaces[1] as int == 9 && spaces[2] as int == 10;
    assert spaces[3] as int == 11 && spaces[4] as int == 12 && spaces[5] as int == 13;
  }

  lemma {:induction false} SpaceRunExact(spaces: Text, rest: Text)
    requires forall i :: 0 <= i < |spaces| ==> IsSpace(spaces[i])
    requires rest == [] || !IsSpace(rest[0])
    ensures SpaceRun(spaces + rest) == |spaces|
  {
    if spaces == [] {
      assert spaces + rest == rest;
    } else {
      assert (spaces + rest)[1..] == spaces[1..] + rest;
      SpaceRunExact(spaces[1..], rest);
    }
  }

  /**
   * What `strtoul` makes of any text: behind spaces and a sign the digits are taken, a number that
   * does not fit is an error, and a minus sign wraps around.
   */
  lemma {:induction false} NumberRead(spaces: Text, sign: Text, digits: Text, rest: Text, base: nat)
    requires 2 <= base <= 10 && (sign == [] || sign == [PLUS] || sign == [MINUS])
    requires forall i :: 0 <= i < |spaces| ==> IsSpace(spaces[i])
    requires forall i :: 0 <= i < |digits| ==> IsDigit(digits[i], base)
    requires rest == [] || !IsDigit(rest[0], base)
    requires sign + digits == [] ==> rest == [] || !(IsSpace(rest[0]) || rest[0] == PLUS || rest[0] == MINUS)
    ensures var n, v := |spaces| + |sign| + |digits|, Value(digits, base);
      StrToUl(spaces + sign + digits + rest, base) ==
        if digits == [] then Number(0, 0, false)
        else if v >= ULONG then Number(ULONG - 1, n, true)
        else if sign == [MINUS] then Number((ULONG - v) % ULONG, n, false)
        else Number(v, n, false)
  {
    hide *;
    var tail := digits + rest;
    var more := sign + tail;
    var s := spaces + sign + digits + rest;
    Assoc4(spaces, sign, digits, rest);
    NoSpaceFirst(sign, digits, rest, base);
    SpaceRunExact(spaces, more);
    DigitRunExact(digits, rest, base);
    Behind(spaces, more);
    Behind(sign, tail);
    Behind(digits, rest);
    assert s[|spaces| + |sign|..] == s[|spaces|..][|sign|..];
    assert |spaces| < |s| ==> s[|spaces|] == more[0];
    NumberFrom(s, |spaces|, sign, digits, base);
  }

  lemma Assoc4(a: Text, b: Text, c: Text, d: Text)
    ensures a + b + c + d == a + (b + (c + d))
  {
  }

  lemma Behind(a: Text, b: Text)
    ensures (a + b)[|a|..] == b && (a + b)[..|a|] == a
  {
  }

  lemma NoSpaceFirst(sign: Text, digits: Text, rest: Text, base: nat)
    requires 2 <= base <= 10 && (sign == [] || sign == [PLUS] || sign == [MINUS])
    requires forall i :: 0 <= i < |digits| ==> IsDigit(digits[i], base)
    requires sign + digits == [] ==> rest == [] || !(IsSpace(rest[0]) || rest[0] == PLUS || rest[0] == MINUS)
    ensures var more := sign + (digits + rest);
      && (more != [] ==> !IsSpace(more[0]))
      && (if sign != [] then more != [] && more[0] == sign[0] else more != [] ==> more[0] != PLUS && more[0] != MINUS)
  {
    var more := sign + (digits + rest);
    assert sign == [] && digits != [] ==> more[0] == digits[0] && IsDigit(digits[0], base);
    assert sign + digits == [] ==> more == rest;
  }

  lemma {:induction false} NumberFrom(s: Text, sp: nat, sign: Text, digits: Text, base: nat)
    requires 2 <= base <= 10 && (sign == [] || sign == [PLUS] || sign == [MINUS])
    requires forall i :: 0 <= i < |digits| ==> IsDigit(digits[i], base)
    requires SpaceRun(s) == sp && sp + |sign| + |digits| <= |s|
    requires if sign != [] then s[sp] == sign[0] else sp < |s| ==> s[sp] != PLUS && s[sp] != MINUS
    requires var t := s[sp + |sign|..]; DigitRun(t, base) == |digits| && t[..|digits|] == digits
    ensures var n, v := sp + |sign| + |digits|, Value(digits, base);
      StrToUl(s, base) ==
        if digits == [] then Number(0, 0, false)
        else if v >= ULONG then Number(ULONG - 1, n, true)
        else if sign == [MINUS] then Number((ULONG - v) % ULONG, n, false)
        else Number(v, n, false)
  {
    hide SpaceRun, DigitRun, Value;
  }

  /** `strtoul` reads back what `%o` or `%lu` printed. */
  lemma {:induction false} ReadBackUnsigned(n: nat, base: nat, rest: Text)
    requires 2 <= base <= 10 && n < ULONG
    requires rest == [] || !IsDigit(rest[0], base)
    ensures StrToUl(Digits(n, base) + rest, base) == Number(n, |Digits(n, base)|, false)
  {
    hide *;
    var d := Digits(n, base);
    var s := d + rest;
    assert s[0] == d[0] && s[..|d|] == d;
    ValueOfDigits(n, base);
    DigitRunExact(d, rest, base);
    UnsignedRead(s, base);
  }

  lemma UnsignedRead(s: Text, base: nat)
    requires 2 <= base <= 10 && s != [] && IsDigit(s[0], base)
    requires DigitRun(s, base) > 0 && Value(s[..DigitRun(s, base)], base) < ULONG
    ensures StrToUl(s, base) == Number(Value(s[..DigitRun(s, base)], base), DigitRun(s, base), false)
  {
    hide DigitRun, Value;
    assert s[0..] == s;
  }

  /** `%ld` for any integer. */
  function SignedDigits(n: int): Text {
    if n < 0 then [MINUS] + Digits(-n, 10) else Digits(n, 10)
  }

  /** The `long` with the given unsigned representation. */
  function AsSigned(v: nat): int {
    if v < ULONG / 2 then v else v - ULONG
  }

  /** `strtoul` and the conversion to `time_t` read back what `%ld` printed, also below zero. */
  lemma ReadBackSigned(n: int, rest: Text)
    requires -(ULONG / 2) <= n < ULONG / 2
    requires rest == [] || !IsDigit(rest[0], 10)
    ensures var r := StrToUl(SignedDigits(n) + rest, 10);
            !r.overflow && r.length == |SignedDigits(n)| && AsSigned(r.value) == n
  {
    if n >= 0 {
      ReadBackUnsigned(n, 10, rest);
    } else {
      ReadBackNegative(-n, rest);
    }
  }

  lemma ReadBackNegative(m: nat, rest: Text)
    requires 0 < m <= ULONG / 2
    requires rest == [] || !IsDigit(rest[0], 10)
    ensures StrToUl([MINUS] + Digits(m, 10) + rest, 10) == Number(ULONG - m, |Digits(m, 10)| + 1, false)
  {
    hide *;
    var d := Digits(m, 10);
    ValueOfDigits(m, 10);
    DigitRunExact(d, rest, 10);
    var s := [MINUS] + d + rest;
    assert s[1..] == d + rest && (d + rest)[..|d|] == d;
    NegativeRead(s, m);
  }

  lemma NegativeRead(s: Text, m: nat)
    requires 0 < m <= ULONG / 2 && s != [] && s[0] == MINUS
    requires DigitRun(s[1..], 10) > 0 && Value(s[1..][..DigitRun(s[1..], 10)], 10) == m
    ensures StrToUl(s, 10) == Number(ULONG - m, DigitRun(s[1..], 10) + 1, false)
  {
    hide DigitRun, Value;
  }

  // ---------- searching ----------

  /** `memchr`: the first position of `c`, or the length. */
  function Find(s: Text, c: Byte): (n: nat)
    ensures n <= |s|
    ensures forall i :: 0 <= i < n ==> s[i] != c
    ensures n < |s| ==> s[n] == c
  {
    if s == [] || s[0] == c then 0 else 1 + Find(s[1..], c)
  }

  lemma FindExact(a: Text, c: Byte, rest: Text)
    requires forall i :: 0 <= i < |a| ==> a[i] != c
    requires rest != [] && rest[0] == c
    ensures Find(a + rest, c) == |a|
  {
    var s := a + rest;
    assert s[|a|] == c;
    assert forall i :: 0 <= i < |a| ==> s[i] == a[i];
  }

  /** The C string at the start of a buffer. */
  function CString(s: Text): (r: Text)
    ensures IsCString(r)
  {
    s[..Find(s, NUL)]
  }

  // ---------- snprintf ----------

  /**
   * `snprintf(buf + at, rem, "%s", text)`: writes what fits, always followed by
   * a NUL when there is room for anything, and returns the full length.
   */
  method Snprintf(buf: array<Byte>, at: nat, rem: nat, text: Text) returns (n: nat)
    requires at + rem <= buf.Length
    modifies buf
    ensures n == |text|
    ensures |text| < rem ==> buf[at..at + |text|] == text && buf[at + |text|] == NUL
    ensures forall i :: 0 <= i < at || at + rem <= i < buf.Length ==> buf[i] == old(buf[i])
  {
    n := |text|;
    if rem > 0 {
      var k := if n < rem then n else rem - 1;
      CopyTo(buf, at, text[..k]);
      buf[at + k] := NUL;
    }
  }

  /** `memcpy(buf + at, src, strlen(src))`. */
  method CopyTo(buf: array<Byte>, at: nat, src: Text)
    requires at + |src| <= buf.Length
    modifies buf
    ensures buf[at..at + |src|] == src
    ensures forall i :: 0 <= i < at || at + |src| <= i < buf.Length ==> buf[i] == old(buf[i])
  {
    for i := 0 to |src|
      invariant forall k :: 0 <= k < i ==> buf[at + k] == src[k]
      invariant forall k :: 0 <= k < at || at + |src| <= k < buf.Length ==> buf[k] == old(buf[k])
    {
      buf[at + i] := src[i];
    }
  }
}
