/**
 Byte strings, and the library and utility functions on them that the other modules rely on:
 `std::string::find`, `std::getline` on a string stream, the trimming and lower-casing of
 `util.cc`, and the number parsing of the C library.
 */
module Bytes {

  /** A C `char` seen as one of 256 byte values. */
  type byte = c: char | c as int < 256 witness 'a'

  type bytes = seq<byte>

  const CR: byte := '\r'
  const LF: byte := '\n'
  const NUL: byte := '\0'
  const CRLF: bytes := ['\r', '\n']
  const HEAD_END: bytes := ['\r', '\n', '\r', '\n']

  datatype Option<+T> = None | Some(value: T)

  function Min(a: int, b: int): int {
    if a < b then a else b
  }

  /** The text that C string functions see: everything before the first NUL. */
  function CString(s: bytes): (r: bytes)
    ensures |r| <= |s| && r == s[..|r|] && NUL !in r && (|r| < |s| ==> s[|r|] == NUL)
  {
    if s == [] || s[0] == NUL then [] else
      var r := CString(s[1..]);
      assert s == [s[0]] + s[1..];
      [s[0]] + r
  }

  function Concat(pieces: seq<bytes>): bytes {
    if pieces == [] then [] else pieces[0] + Concat(pieces[1..])
  }

  lemma ConcatOne(a: bytes)
    ensures Concat([a]) == a
  {
    assert [a][1..] == [] && a + [] == a;
  }

  // ---------------------------------------------------------------- searching

  predicate OccursAt(s: bytes, pat: bytes, i: int) {
    0 <= i && i + |pat| <= |s| && s[i..i + |pat|] == pat
  }

  /** `std::string::find(pat, start)`; -1 stands for `npos`. */
  function Find(s: bytes, pat: bytes, start: nat): (r: int)
    ensures r == -1 || (start <= r && OccursAt(s, pat, r))
    ensures forall i :: start <= i < (if r == -1 then |s| + 1 else r) ==> !OccursAt(s, pat, i)
    decreases |s| - start
  {
    if start + |pat| > |s| then -1
    else if s[start..start + |pat|] == pat then start
    else Find(s, pat, start + 1)
  }

  /** A search is determined by its first occurrence. */
  lemma FindIs(s: bytes, pat: bytes, start: nat, at: nat)
    requires start <= at && OccursAt(s, pat, at)
    requires forall i :: start <= i < at ==> !OccursAt(s, pat, i)
    ensures Find(s, pat, start) == at
  {
  }

  // ---------------------------------------------------------------- comparing

  /** `memcmp` on two buffers of the same size: zero or the sign that the first difference decides. */
  function MemCmp(a: bytes, b: bytes): int
    requires |a| == |b|
  {
    if a == [] then 0
    else if a[0] != b[0] then a[0] as int - b[0] as int
    else MemCmp(a[1..], b[1..])
  }

  lemma {:induction false} MemCmpIsEquality(a: bytes, b: bytes)
    requires |a| == |b|
    ensures MemCmp(a, b) == 0 <==> a == b
  {
    if a != [] {
      MemCmpIsEquality(a[1..], b[1..]);
      assert a == [a[0]] + a[1..] && b == [b[0]] + b[1..];
    }
  }

  /** The first difference decides the sign. */
  lemma {:induction false} MemCmpDecides(a: bytes, b: bytes, i: nat)
    requires |a| == |b| && i < |a| && a[..i] == b[..i] && a[i] != b[i]
    ensures MemCmp(a, b) < 0 <==> a[i] < b[i]
    decreases i
  {
    if i > 0 {
      assert a[..i][0] == b[..i][0];
      assert a[1..][..i - 1] == a[..i][1..] && b[1..][..i - 1] == b[..i][1..];
      MemCmpDecides(a[1..], b[1..], i - 1);
    }
  }

  // ---------------------------------------------------------------- character classes

  /** `isspace` in the "C" locale. */
  predicate IsSpace(c: byte) {
    c == ' ' || '\t' <= c <= '\r'
  }

  /** `isprint` in the "C" locale. */
  predicate IsPrint(c: byte) {
    ' ' <= c <= '~'
  }

  function Lower(c: byte): byte {
    if 'A' <= c <= 'Z' then (c as int + 32) as char else c
  }

  const CAPITALS: bytes := "ABCDEFGHIJKLMNOPQRSTUVWXYZ"
  const SMALL_LETTERS: bytes := "abcdefghijklmnopqrstuvwxyz"

  /** The classes by the numbers of their characters. */
  lemma ClassesExactly(c: byte)
    ensures IsSpace(c) <==> 9 <= c as int <= 13 || c as int == 32
    ensures IsPrint(c) <==> 32 <= c as int <= 126
  {
  }

  /** `tolower` on the two alphabets, and on everything else. */
  lemma LowerExactly(c: byte)
    ensures forall i :: 0 <= i < 26 && c == CAPITALS[i] ==> Lower(c) == SMALL_LETTERS[i]
    ensures c !in CAPITALS ==> Lower(c) == c
  {
    CapitalsInOrder(c);
  }

  lemma CapitalsInOrder(c: byte)
    ensures |CAPITALS| == |SMALL_LETTERS| == 26
    ensures forall i :: 0 <= i < 26 ==> CAPITALS[i] as int == 65 + i && SMALL_LETTERS[i] as int == 97 + i
    ensures 'A' <= c <= 'Z' ==> CAPITALS[c as int - 65] == c
  {
  }

  /** The same letter of the two alphabets, or the same character. */
  predicate SameLetter(c: byte, d: byte) {
    c == d || exists i :: 0 <= i < 26 && c in [CAPITALS[i], SMALL_LETTERS[i]] && d in [CAPITALS[i], SMALL_LETTERS[i]]
  }

  /** The same text up to case. */
  predicate SameText(s: bytes, t: bytes) {
    |s| == |t| && forall i :: 0 <= i < |s| ==> SameLetter(s[i], t[i])
  }

  lemma LowerIsSameLetter(c: byte, d: byte)
    ensures Lower(c) == Lower(d) <==> SameLetter(c, d)
  {
    hide CAPITALS, SMALL_LETTERS;
    CapitalsInOrder(c);
    CapitalsInOrder(d);
    if Lower(c) == Lower(d) && c != d {
      var i := Lower(c) as int - 97;
      assert c in [CAPITALS[i], SMALL_LETTERS[i]] && d in [CAPITALS[i], SMALL_LETTERS[i]];
    }
  }

  /** Two texts have the same lower-case form exactly when they agree letter by letter, up to case. */
  lemma ToLowerExactly(s: bytes, t: bytes)
    ensures ToLower(s) == ToLower(t) <==> SameText(s, t)
  {
    hide Lower, SameLetter;
    forall i | 0 <= i < |s| && i < |t|
      ensures Lower(s[i]) == Lower(t[i]) <==> SameLetter(s[i], t[i])
    {
      LowerIsSameLetter(s[i], t[i]);
    }
    if ToLower(s) == ToLower(t) {
      assert forall i :: 0 <= i < |s| ==> ToLower(s)[i] == Lower(s[i]) && ToLower(t)[i] == Lower(t[i]);
    }
  }

  // ---------------------------------------------------------------- util.cc

  function TrimLeft(s: bytes): (r: bytes)
    ensures |r| <= |s|
  {
    if s != [] && IsSpace(s[0]) then TrimLeft(s[1..]) else s
  }

  function TrimRight(s: bytes): (r: bytes) {
    if s != [] && IsSpace(s[|s| - 1]) then TrimRight(s[..|s| - 1]) else s
  }

  function Trim(s: bytes): bytes {
    TrimRight(TrimLeft(s))
  }

  function ToLower(s: bytes): (r: bytes)
    ensures |r| == |s|
  {
    seq(|s|, i requires 0 <= i < |s| => Lower(s[i]))
  }

  predicate AllSpace(s: bytes) {
    forall i :: 0 <= i < |s| ==> IsSpace(s[i])
  }

  /** Neither end is white space. */
  predicate Trimmed(s: bytes) {
    s != [] ==> !IsSpace(s[0]) && !IsSpace(s[|s| - 1])
  }

  /** Trimming removes exactly the white space put around a trimmed string. */
  lemma {:induction false} TrimPadded(a: bytes, s: bytes, b: bytes)
    requires AllSpace(a) && AllSpace(b) && Trimmed(s)
    ensures Trim(a + s + b) == s
  {
    if s == [] {
      assert a + s + b == a + b;
      AllSpaceTrimsAway(a + b);
    } else {
      TrimLeftPadded(a, s, b);
      TrimRightPadded(s, b);
    }
  }

  lemma {:induction false} TrimLeftPadded(a: bytes, s: bytes, b: bytes)
    requires AllSpace(a) && s != [] && !IsSpace(s[0])
    ensures TrimLeft(a + s + b) == s + b
  {
    if a == [] {
      assert a + s + b == s + b;
    } else {
      assert (a + s + b)[1..] == a[1..] + s + b;
      TrimLeftPadded(a[1..], s, b);
    }
  }

  lemma {:induction false} TrimRightPadded(s: bytes, b: bytes)
    requires AllSpace(b) && s != [] && !IsSpace(s[|s| - 1])
    ensures TrimRight(s + b) == s
  {
    if b == [] {
      assert s + b == s;
    } else {
      assert (s + b)[..|s + b| - 1] == s + b[..|b| - 1];
      TrimRightPadded(s, b[..|b| - 1]);
    }
  }

  lemma {:induction false} AllSpaceTrimsAway(s: bytes)
    requires AllSpace(s)
    ensures TrimLeft(s) == []
  {
    if s != [] {
      AllSpaceTrimsAway(s[1..]);
    }
  }

  // ---------------------------------------------------------------- std::getline

  /** One `std::getline`: nothing when the stream is exhausted, else the text up to the delimiter
      (which is dropped) and what is left. */
  function GetLine(s: bytes, delim: byte): (r: Option<(bytes, bytes)>)
    ensures r.None? <==> s == []
    ensures r.Some? ==> |r.value.1| < |s|
  {
    if s == [] then None
    else if s[0] == delim then Some(([], s[1..]))
    else match GetLine(s[1..], delim)
      case None => Some((s, []))
      case Some((token, rest)) => Some(([s[0]] + token, rest))
  }

  lemma {:induction false} GetLineAtDelim(token: bytes, delim: byte, rest: bytes)
    requires delim !in token
    ensures GetLine(token + [delim] + rest, delim) == Some((token, rest))
  {
    var s := token + [delim] + rest;
    if token == [] {
      assert s[1..] == rest;
    } else {
      assert s[1..] == token[1..] + [delim] + rest;
      GetLineAtDelim(token[1..], delim, rest);
      assert token == [token[0]] + token[1..];
    }
  }

  lemma {:induction false} GetLineToEnd(token: bytes, delim: byte)
    requires delim !in token && token != []
    ensures GetLine(token, delim) == Some((token, []))
  {
    if |token| > 1 {
      GetLineToEnd(token[1..], delim);
      assert token == [token[0]] + token[1..];
    }
  }

  // ---------------------------------------------------------------- strtoul

  const ULONG_MAX: nat := 0xFFFF_FFFF_FFFF_FFFF

  function DigitValue(c: byte): (v: nat)
    ensures v <= 16
  {
    if '0' <= c <= '9' then c as int - '0' as int
    else if 'a' <= c <= 'f' then c as int - 'a' as int + 10
    else if 'A' <= c <= 'F' then c as int - 'A' as int + 10
    else 16
  }

  predicate IsDigit(c: byte, base: nat) {
    DigitValue(c) < base
  }

  const DIGITS: bytes := "0123456789abcdef"
  const CAPITAL_DIGITS: bytes := "0123456789ABCDEF"

  /** The digits, in either case. */
  lemma DigitsExactly(c: byte, v: nat)
    requires v < 16
    ensures DigitValue(c) == v <==> c == DIGITS[v] || c == CAPITAL_DIGITS[v]
  {
  }

  lemma IsDigitExactly(c: byte)
    ensures IsDigit(c, 16) <==> c in "0123456789abcdefABCDEF"
    ensures IsDigit(c, 10) <==> c in "0123456789"
  {
  }

  predicate AllDigits(s: bytes, base: nat) {
    forall i :: 0 <= i < |s| ==> IsDigit(s[i], base)
  }

  /** The number of leading digits. */
  function DigitRun(s: bytes, base: nat): (n: nat)
    ensures n <= |s| && AllDigits(s[..n], base) && (n < |s| ==> !IsDigit(s[n], base))
  {
    if s == [] || !IsDigit(s[0], base) then 0
    else
      var n := DigitRun(s[1..], base);
      assert s[..n + 1] == [s[0]] + s[1..][..n];
      n + 1
  }

  /** The value of a digit string, most significant digit first. */
  function Value(s: bytes, base: nat): nat {
    if s == [] then 0 else Value(s[..|s| - 1], base) * base + DigitValue(s[|s| - 1])
  }

  function Power(base: nat, k: nat): nat {
    if k == 0 then 1 else base * Power(base, k - 1)
  }

  /** The number that digits stand for: each of them times the power of the base for its place. */
  function Number(s: bytes, base: nat): nat {
    if s == [] then 0 else DigitValue(s[0]) * Power(base, |s| - 1) + Number(s[1..], base)
  }

  lemma {:induction false} NumberSnoc(s: bytes, c: byte, base: nat)
    ensures Number(s + [c], base) == Number(s, base) * base + DigitValue(c)
    decreases |s|
  {
    var t := s + [c];
    if s == [] {
      assert t[1..] == [] && Power(base, 0) == 1;
    } else {
      assert t[1..] == s[1..] + [c];
      NumberSnoc(s[1..], c, base);
      TimesBase(DigitValue(s[0]), base, |s| - 1, Number(s[1..], base));
    }
  }

  lemma TimesBase(d: nat, base: nat, k: nat, n: nat)
    ensures (d * Power(base, k) + n) * base == d * Power(base, k + 1) + n * base
  {
    assert d * Power(base, k) * base == d * (base * Power(base, k));
  }

  /** Reading digits from the front is the same number. */
  lemma {:induction false} ValueIsNumber(s: bytes, base: nat)
    ensures Value(s, base) == Number(s, base)
    decreases |s|
  {
    if s != [] {
      ValueIsNumber(s[..|s| - 1], base);
      NumberSnoc(s[..|s| - 1], s[|s| - 1], base);
      assert s == s[..|s| - 1] + [s[|s| - 1]];
    }
  }

  datatype Parsed = Parsed(value: nat, end: nat, overflow: bool)

  function AfterSign(t: bytes): bytes {
    if t != [] && (t[0] == '+' || t[0] == '-') then t[1..] else t
  }

  /** Past `0x`, which counts only when a digit follows it. */
  function AfterMark(u: bytes, base: nat): bytes {
    if base == 16 && |u| >= 3 && u[0] == '0' && (u[1] == 'x' || u[1] == 'X') && IsDigit(u[2], 16) then u[2..] else u
  }

  /** `strtoul(s, &end, base)` for base 10 or 16: leading white space, a sign, an optional `0x`
      for base 16, digits; `end == 0` when there is no digit. A value that does not fit 64 bits
      saturates, and a minus sign negates modulo 2^64. */
  function Strtoul(s: bytes, base: nat): Parsed
    requires base == 10 || base == 16
  {
    var t := TrimLeft(s);
    var w := AfterMark(AfterSign(t), base);
    var n := DigitRun(w, base);
    if n == 0 then Parsed(0, 0, false)
    else
      var v := Value(w[..n], base);
      var end := |s| - |w| + n;
      if v > ULONG_MAX then Parsed(ULONG_MAX, end, true)
      else if t[0] == '-' && v > 0 then Parsed(ULONG_MAX + 1 - v, end, false)
      else Parsed(v, end, false)
  }

  /** Conversion of an `unsigned long` to a 32-bit `int`. */
  function ToInt32(v: nat): (r: int)
    ensures -0x8000_0000 <= r < 0x8000_0000
    ensures v < 0x8000_0000 ==> r == v
    ensures (v - r) % 0x1_0000_0000 == 0
  {
    var low := v % 0x1_0000_0000;
    if low < 0x8000_0000 then low else low - 0x1_0000_0000
  }

  lemma {:induction false} DigitRunIs(digits: bytes, rest: bytes, base: nat)
    requires AllDigits(digits, base) && (rest != [] ==> !IsDigit(rest[0], base))
    ensures DigitRun(digits + rest, base) == |digits|
  {
    var s := digits + rest;
    if digits == [] {
      assert s == rest;
    } else {
      assert s[1..] == digits[1..] + rest;
      DigitRunIs(digits[1..], rest, base);
    }
  }

  predicate IsSign(sign: bytes) {
    sign == [] || sign == "+" || sign == "-"
  }

  predicate IsHexMark(mark: bytes) {
    mark == [] || mark == "0x" || mark == "0X"
  }

  /** What `strtoul` makes of a number with a sign. */
  function Signed(sign: bytes, n: nat): nat {
    if n >= 0x1_0000_0000_0000_0000 then 0xFFFF_FFFF_FFFF_FFFF
    else if sign == "-" && n > 0 then 0x1_0000_0000_0000_0000 - n
    else n
  }

  /** White space, a sign, for base 16 a mark, and digits up to something that is no digit: `strtoul` reads
      the number and stops after its last digit. */
  lemma StrtoulRead(spaces: bytes, sign: bytes, mark: bytes, digits: bytes, rest: bytes, base: nat)
    requires base == 10 || base == 16
    requires AllSpace(spaces) && IsSign(sign) && IsHexMark(mark) && (base == 10 ==> mark == [])
    requires digits != [] && AllDigits(digits, base) && (rest != [] ==> !IsDigit(rest[0], base))
    requires base == 16 && mark == [] && digits == "0" && rest != [] ==> rest[0] != 'x' && rest[0] != 'X'
    ensures Strtoul(spaces + (sign + (mark + (digits + rest))), base)
         == Parsed(Signed(sign, Number(digits, base)), |spaces| + |sign| + |mark| + |digits|,
                   Number(digits, base) >= 0x1_0000_0000_0000_0000)
  {
    hide Value, DigitRun, Number, TrimLeft, AfterSign, AfterMark, IsSpace, IsDigit;
    var w := digits + rest;
    var t := sign + (mark + w);
    DigitsApart(digits[0], base);
    FirstOfParts(sign, mark, digits, rest);
    TrimLeftStops(spaces, t);
    SignSkipped(sign, mark + w);
    MarkSkipped(mark, digits, rest, base);
    DigitRunIs(digits, rest, base);
    assert w[..|digits|] == digits;
    ValueIsNumber(digits, base);
  }

  lemma FirstOfParts(sign: bytes, mark: bytes, digits: bytes, rest: bytes)
    requires IsSign(sign) && IsHexMark(mark) && digits != []
    requires !IsSpace(digits[0]) && digits[0] != '+' && digits[0] != '-'
    ensures var u := mark + (digits + rest);
            var t := sign + u;
            && !IsSpace(t[0]) && u[0] != '+' && u[0] != '-'
            && (t[0] == '-' <==> sign == "-")
  {
  }

  lemma SignSkipped(sign: bytes, u: bytes)
    requires IsSign(sign) && (sign == [] && u != [] ==> u[0] != '+' && u[0] != '-')
    ensures AfterSign(sign + u) == u
  {
    assert sign == [] ==> sign + u == u;
    assert sign != [] ==> (sign + u)[1..] == u;
  }

  lemma DigitsApart(c: byte, base: nat)
    requires IsDigit(c, base) && base <= 16
    ensures !IsSpace(c) && c != '+' && c != '-' && c != 'x' && c != 'X'
  {
  }

  lemma MarkSkipped(mark: bytes, digits: bytes, rest: bytes, base: nat)
    requires IsHexMark(mark) && (base == 10 ==> mark == []) && (base == 10 || base == 16)
    requires digits != [] && AllDigits(digits, base)
    requires base == 16 && mark == [] && digits == "0" && rest != [] ==> rest[0] != 'x' && rest[0] != 'X'
    ensures AfterMark(mark + (digits + rest), base) == digits + rest
  {
    var u := mark + (digits + rest);
    if mark == [] {
      assert u == digits + rest;
      if |digits| > 1 {
        DigitsApart(digits[1], base);
      } else {
        assert digits == [digits[0]];
      }
    } else {
      assert u[2..] == digits + rest && u[2] == digits[0];
    }
  }

  lemma {:induction false} TrimLeftStops(spaces: bytes, t: bytes)
    requires AllSpace(spaces) && t != [] && !IsSpace(t[0])
    ensures TrimLeft(spaces + t) == t
    decreases |spaces|
  {
    if spaces == [] {
      assert spaces + t == t;
    } else {
      assert (spaces + t)[1..] == spaces[1..] + t;
      TrimLeftStops(spaces[1..], t);
    }
  }

  /** Without a digit there it stops at once. */
  lemma StrtoulNothing(spaces: bytes, sign: bytes, rest: bytes, base: nat)
    requires base == 10 || base == 16
    requires AllSpace(spaces) && IsSign(sign) && (rest != [] ==> !IsDigit(rest[0], base))
    requires sign == [] && rest != [] ==> !IsSpace(rest[0]) && rest[0] != '+' && rest[0] != '-'
    ensures Strtoul(spaces + (sign + rest), base) == Parsed(0, 0, false)
  {
    hide Value, DigitRun, AfterSign;
    var t := sign + rest;
    SignSkipped(sign, rest);
    if t == [] {
      assert spaces + t == spaces;
      AllSpaceTrimsAway(spaces);
    } else {
      TrimLeftStops(spaces, t);
    }
    DigitRunIs([], rest, base);
    assert [] + rest == rest;
    assert rest != [] ==> rest[0] != '0';
  }

  /** Plain digits followed by something that is no digit are read as their value. */
  lemma StrtoulDigits(digits: bytes, rest: bytes, base: nat)
    requires base == 10 || base == 16
    requires digits != [] && AllDigits(digits, base)
    requires rest != [] ==> !IsDigit(rest[0], base) && rest[0] != 'x' && rest[0] != 'X'
    requires Value(digits, base) <= ULONG_MAX
    ensures Strtoul(digits + rest, base) == Parsed(Value(digits, base), |digits|, false)
  {
    hide Value, Strtoul, Number;
    StrtoulRead([], [], [], digits, rest, base);
    ValueIsNumber(digits, base);
    assert [] + ([] + ([] + (digits + rest))) == digits + rest;
  }

  // ---------------------------------------------------------------- printing numbers

  function DigitChar(d: nat): (c: byte)
    requires d < 16
    ensures DigitValue(c) == d && c == DIGITS[d]
  {
    if d < 10 then ('0' as int + d) as char else ('a' as int + d - 10) as char
  }

  /** A number in lower-case digits without leading zeros (`std::to_string`, `std::hex`). */
  function Print(n: nat, base: nat): (s: bytes)
    requires base == 10 || base == 16
    ensures s != [] && AllDigits(s, base)
  {
    if n < base then [DigitChar(n)] else Print(n / base, base) + [DigitChar(n % base)]
  }

  lemma ValueAppend(s: bytes, c: byte, base: nat)
    ensures Value(s + [c], base) == Value(s, base) * base + DigitValue(c)
  {
    assert (s + [c])[..|s|] == s;
  }

  lemma {:induction false} ValueOfPrint(n: nat, base: nat)
    requires base == 10 || base == 16
    ensures Value(Print(n, base), base) == n
  {
    hide Value;
    if n < base {
      ValueAppend([], DigitChar(n), base);
      assert [] + [DigitChar(n)] == Print(n, base);
      NoDigits(base);
    } else {
      ValueOfPrint(n / base, base);
      ValueAppend(Print(n / base, base), DigitChar(n % base), base);
      DivMod(n, base);
    }
  }

  /** Lower-case digits without leading zeros. */
  predicate Canonical(s: bytes, base: nat)
    requires base <= 16
  {
    s != [] && (forall i :: 0 <= i < |s| ==> s[i] in DIGITS[..base]) && (|s| > 1 ==> s[0] != '0')
  }

  lemma {:induction false} PrintIsCanonical(n: nat, base: nat)
    requires base == 10 || base == 16
    ensures Canonical(Print(n, base), base) && (n > 0 ==> Print(n, base)[0] != '0')
  {
    if n < base {
      assert DIGITS[..base][n] == DigitChar(n);
    } else {
      PrintIsCanonical(n / base, base);
      assert DIGITS[..base][n % base] == DigitChar(n % base);
    }
  }

  lemma DigitOf(c: byte, base: nat)
    requires base <= 16 && c in DIGITS[..base]
    ensures DigitValue(c) < base && DigitChar(DigitValue(c)) == c && (c != '0' ==> DigitValue(c) > 0)
  {
  }

  lemma CanonicalParts(s: bytes, base: nat)
    requires base <= 16 && Canonical(s, base)
    ensures s != [] && s[|s| - 1] in DIGITS[..base]
    ensures |s| > 1 ==> Canonical(s[..|s| - 1], base) && s[..|s| - 1][0] == s[0] != '0'
  {
  }

  lemma {:induction false} PrintOfCanonical(s: bytes, base: nat)
    requires (base == 10 || base == 16) && Canonical(s, base)
    ensures Print(Value(s, base), base) == s && (s[0] != '0' ==> Value(s, base) > 0)
    decreases |s|
  {
    hide DigitValue, DigitChar, Canonical, IsDigit, Print, Value;
    CanonicalParts(s, base);
    var before, c := s[..|s| - 1], s[|s| - 1];
    DigitOf(c, base);
    assert s == before + [c];
    ValueAppend(before, c, base);
    if |s| == 1 {
      NoDigits(base);
      PrintDigit(DigitValue(c), base);
    } else {
      PrintOfCanonical(before, base);
      PrintSnoc(Value(before, base), DigitValue(c), base);
    }
  }

  lemma PrintDigit(d: nat, base: nat)
    requires d < base && (base == 10 || base == 16)
    ensures Print(d, base) == [DigitChar(d)]
  {
  }

  lemma PrintSnoc(n: nat, d: nat, base: nat)
    requires n > 0 && d < base && (base == 10 || base == 16)
    ensures n * base + d > 0 && Print(n * base + d, base) == Print(n, base) + [DigitChar(d)]
  {
    assert (n * base + d) / base == n && (n * base + d) % base == d;
  }

  /** The printed form of a number is the one text of lower-case digits without leading zeros that stands
      for it. */
  lemma PrintExactly(n: nat, base: nat, s: bytes)
    requires base == 10 || base == 16
    ensures s == Print(n, base) <==> Canonical(s, base) && Number(s, base) == n
  {
    hide Print, Number, Value;
    ValueIsNumber(s, base);
    if Canonical(s, base) {
      PrintOfCanonical(s, base);
    }
    PrintIsCanonical(n, base);
    ValueOfPrint(n, base);
  }

  lemma NoDigits(base: nat)
    ensures Value([], base) == 0
  {
  }

  lemma DivMod(n: nat, base: nat)
    requires base == 10 || base == 16
    ensures n / base * base + n % base == n
  {
  }

  lemma PrintInjective(m: nat, n: nat, base: nat)
    requires base == 10 || base == 16
    requires Print(m, base) == Print(n, base)
    ensures m == n
  {
    ValueOfPrint(m, base);
    ValueOfPrint(n, base);
  }
}
