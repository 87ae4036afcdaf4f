/**
  The JavaScript number built-ins the application relies on, restricted to
  integer values: the global parseInt, Number.prototype.toString(16),
  String.prototype.padStart, Math.round and the remainder operator %.
  NaN is represented by None.
 */
module JsNumber {
  import opened Wrappers

  /** The radix argument of parseInt: absent (Auto), 10 or 16. */
  datatype Radix = Auto | Decimal | Hex

  /** White space and line terminators that parseInt skips before the number
      (StrWhiteSpaceChar of ECMA-262: TAB, VT, FF, SP, NBSP, ZWNBSP, the
      space separators of Unicode category Zs, LF, CR, LS and PS). */
  predicate IsWhitespace(c: char) {
    || c == '\t' || c == '\U{B}' || c == '\U{C}' || c == ' ' || c == '\U{A0}'
    || c == '\U{FEFF}' || c == '\n' || c == '\r' || c == '\U{2028}' || c == '\U{2029}'
    || c == '\U{1680}' || ('\U{2000}' <= c <= '\U{200A}') || c == '\U{202F}'
    || c == '\U{205F}' || c == '\U{3000}'
  }

  /** The string with its leading white space removed. */
  function TrimStart(s: string): (r: string)
    ensures r == [] || !IsWhitespace(r[0])
  {
    if s != [] && IsWhitespace(s[0]) then TrimStart(s[1..]) else s
  }

  /** TrimStart drops a prefix made only of white space. */
  lemma {:induction false} TrimStartDrops(s: string)
    ensures |TrimStart(s)| <= |s| && TrimStart(s) == s[|s| - |TrimStart(s)|..]
    ensures forall k :: 0 <= k < |s| - |TrimStart(s)| ==> IsWhitespace(s[k])
  {
    if s != [] && IsWhitespace(s[0]) {
      TrimStartDrops(s[1..]);
      assert forall k :: 0 <= k < |s| - 1 ==> s[1..][k] == s[k + 1];
    }
  }

  /** White space at the front of a string followed by something else is
      skipped by TrimStart. */
  lemma {:induction false} TrimStartBlanks(b: string, x: string)
    requires forall i :: 0 <= i < |b| ==> IsWhitespace(b[i])
    requires x == [] || !IsWhitespace(x[0])
    ensures TrimStart(b + x) == x
  {
    if b == [] {
      assert b + x == x;
    } else {
      assert (b + x)[1..] == b[1..] + x;
      TrimStartBlanks(b[1..], x);
    }
  }

  /** The string without its trailing white space. */
  function TrimEnd(s: string): (r: string)
    ensures r == [] || !IsWhitespace(r[|r| - 1])
    ensures |r| <= |s| && r == s[..|r|]
    ensures forall k :: |r| <= k < |s| ==> IsWhitespace(s[k])
  {
    if s != [] && IsWhitespace(s[|s| - 1]) then TrimEnd(s[..|s| - 1]) else s
  }

  /** String.prototype.trim: white space removed from both ends, and only
      there: the result is a slice of the string with nothing but white
      space before and after it. */
  function Trim(s: string): (r: string)
    ensures r == [] || (!IsWhitespace(r[0]) && !IsWhitespace(r[|r| - 1]))
    ensures exists i, j :: (0 <= i <= j <= |s| && r == s[i..j]
      && (forall k :: 0 <= k < i ==> IsWhitespace(s[k]))
      && (forall k :: j <= k < |s| ==> IsWhitespace(s[k])))
  {
    var t := TrimStart(s);
    TrimStartDrops(s);
    var r := TrimEnd(t);
    var i := |s| - |t|;
    assert r == s[i..i + |r|];
    assert forall k :: i + |r| <= k < |s| ==> s[k] == t[k - i];
    r
  }

  /** Trimming a trimmed string changes nothing. */
  lemma TrimTwice(s: string)
    ensures Trim(Trim(s)) == Trim(s)
  {
    var t := Trim(s);
    assert TrimStart(t) == t;
  }

  /** The value of c as a digit in any radix up to 36 (letters of either case
      stand for 10..35), or None when c is not a digit at all. */
  function DigitValue(c: char): (d: Option<nat>)
    ensures d.Some? ==> d.value < 36
  {
    if '0' <= c <= '9' then Some(c as int - '0' as int)
    else if 'a' <= c <= 'z' then Some(c as int - 'a' as int + 10)
    else if 'A' <= c <= 'Z' then Some(c as int - 'A' as int + 10)
    else None
  }

  predicate IsDigit(c: char, radix: nat) {
    DigitValue(c).Some? && DigitValue(c).value < radix
  }

  /** The longest prefix of s made of digits of the given radix. */
  function DigitPrefix(s: string, radix: nat): (r: string)
    ensures |r| <= |s| && r == s[..|r|]
    ensures forall i :: 0 <= i < |r| ==> IsDigit(r[i], radix)
    ensures |r| < |s| ==> !IsDigit(s[|r|], radix)
  {
    if s != [] && IsDigit(s[0], radix) then [s[0]] + DigitPrefix(s[1..], radix) else []
  }

  /** The value of a digit string, most significant digit first. */
  function DigitsValue(s: string, radix: nat): (v: nat)
    requires forall i :: 0 <= i < |s| ==> IsDigit(s[i], radix)
  {
    if s == [] then 0
    else
      var init := s[..|s| - 1];
      assert forall i :: 0 <= i < |init| ==> init[i] == s[i];
      var last := DigitValue(s[|s| - 1]);
      assert IsDigit(s[|s| - 1], radix);
      NatProduct(DigitsValue(init, radix), radix);
      DigitsValue(init, radix) * radix + last.value
  }

  lemma NatProduct(a: nat, b: nat)
    ensures a * b >= 0
  {
  }

  /** The global parseInt(s, radix) for the radixes the application uses:
      leading white space is skipped, one sign is accepted, "0x"/"0X" is
      skipped unless the radix is 10, and the longest digit prefix is read;
      with no digit the result is NaN. */
  function ParseInt(s: string, radix: Radix): Option<int> {
    var t := TrimStart(s);
    var negative := |t| > 0 && t[0] == '-';
    var u := if |t| > 0 && (t[0] == '-' || t[0] == '+') then t[1..] else t;
    var m := ParseMagnitude(u, radix);
    if m.None? then None else if negative then Some(-m.value) else m
  }

  predicate HasHexPrefix(u: string) {
    |u| >= 2 && u[0] == '0' && (u[1] == 'x' || u[1] == 'X')
  }

  /** parseInt after white space and sign: the radix prefix and the digits. */
  function ParseMagnitude(u: string, radix: Radix): Option<int> {
    var skip := radix != Decimal && HasHexPrefix(u);
    ReadDigits(if skip then u[2..] else u, if skip || radix == Hex then 16 else 10)
  }

  /** The value of the longest digit prefix, or NaN when there is none. */
  function ReadDigits(w: string, radix: nat): (r: Option<int>)
    ensures r.Some? <==> w != [] && IsDigit(w[0], radix)
  {
    var d := DigitPrefix(w, radix);
    if d == [] then None else Some(DigitsValue(d, radix))
  }

  const HexDigits: string := "0123456789abcdef"

  predicate IsLowerHexDigit(c: char) {
    '0' <= c <= '9' || 'a' <= c <= 'f'
  }

  /** The lower-case hexadecimal digit for d. */
  function HexChar(d: nat): (c: char)
    requires d < 16
    ensures IsLowerHexDigit(c) && DigitValue(c) == Some(d)
  {
    HexDigits[d]
  }

  /** The digits of a natural number in base 16, without leading zeros. */
  function HexNat(n: nat): (r: string)
    ensures |r| >= 1
    ensures forall i :: 0 <= i < |r| ==> IsLowerHexDigit(r[i]) && IsDigit(r[i], 16)
    ensures DigitsValue(r, 16) == n
  {
    if n < 16 then [HexChar(n)] else HexNat(n / 16) + [HexChar(n % 16)]
  }

  /** Number.prototype.toString(16) of an integer. */
  function ToStringHex(n: int): string {
    if n < 0 then "-" + HexNat(-n) else HexNat(n)
  }

  /** String.prototype.padStart(target, fill) with a one-character filler. */
  function PadStart(s: string, target: nat, fill: char): string {
    if |s| >= target then s else seq(target - |s|, _ => fill) + s
  }

  function Abs(n: int): nat {
    if n < 0 then -n else n
  }

  /** The remainder operator % of JavaScript on integers: truncating
      division, so the result takes the sign of the dividend. */
  function JsRem(a: int, b: int): (r: int)
    requires b != 0
    ensures Abs(r) < Abs(b)
    ensures a >= 0 ==> r >= 0
    ensures a <= 0 ==> r <= 0
  {
    if a >= 0 then a % Abs(b) else -((-a) % Abs(b))
  }

  /** JavaScript's remainder is a true remainder of truncating division:
      the dividend is a whole multiple of the divisor away from it. */
  lemma JsRemQuotient(a: int, b: int)
    requires b != 0
    ensures exists q :: a == q * b + JsRem(a, b)
  {
    var m := Abs(b);
    var q0 := if a >= 0 then a / m else -((-a) / m);
    if a >= 0 {
      assert a == q0 * m + JsRem(a, b);
    } else {
      assert -a == ((-a) / m) * m + (-a) % m;
      assert a == q0 * m + JsRem(a, b);
    }
    var q := if b > 0 then q0 else -q0;
    assert q * b == q0 * m;
  }

  /** A non-negative dividend below the divisor's magnitude is its own
      remainder, and the divisor's magnitude leaves none. */
  lemma JsRemSmall(a: int, b: int)
    requires b != 0 && 0 <= a <= Abs(b)
    ensures JsRem(a, b) == if a == Abs(b) then 0 else a
  {
    if a == Abs(b) {
      ModUnique(a, Abs(b), 1, 0);
    } else {
      ModUnique(a, Abs(b), 0, a);
    }
  }

  /** Euclidean division is unique: a quotient and an in-range remainder
      that rebuild x are x / n and x % n. */
  lemma ModUnique(x: int, n: int, q: int, r: int)
    requires n > 0 && 0 <= r < n && x == q * n + r
    ensures x % n == r && x / n == q
  {
    var q0, r0 := x / n, x % n;
    assert q0 * n + r0 == q * n + r;
    assert (q - q0) * n == r0 - r;
    if q > q0 {
      MulAtLeast(q - q0, n);
    } else if q < q0 {
      MulAtLeast(q0 - q, n);
    }
  }

  lemma MulAtLeast(k: int, n: int)
    requires k >= 1 && n > 0
    ensures k * n >= n
  {
  }

  /** Math.round: the integer nearest to x, halves rounded up. */
  function Round(x: real): (r: int)
    ensures x - 0.5 < r as real <= x + 0.5
  {
    (x + 0.5).Floor
  }

  /** The digits of a natural number in base 10, without leading zeros. */
  function DecimalNat(n: nat): (r: string)
    ensures |r| >= 1
    ensures forall i :: 0 <= i < |r| ==> IsDigit(r[i], 10)
    ensures DigitsValue(r, 10) == n
  {
    if n < 10 then [HexChar(n)] else DecimalNat(n / 10) + [HexChar(n % 10)]
  }

  /** String(n) of an integer: its decimal digits, after a minus sign when
      it is negative. */
  function ToStringDecimal(n: int): string {
    if n < 0 then "-" + DecimalNat(-n) else DecimalNat(n)
  }

  /** The longest digit prefix of a run of digits followed by a non-digit
      is that run. */
  lemma {:induction false} DigitPrefixStops(w: string, rest: string, radix: nat)
    requires forall i :: 0 <= i < |w| ==> IsDigit(w[i], radix)
    requires rest == [] || !IsDigit(rest[0], radix)
    ensures DigitPrefix(w + rest, radix) == w
  {
    if w == [] {
      assert w + rest == rest;
    } else {
      assert (w + rest)[1..] == w[1..] + rest;
      DigitPrefixStops(w[1..], rest, radix);
    }
  }

  lemma Regroup(a: string, b: string, c: string, d: string)
    ensures a + b + c + d == a + (b + (c + d))
  {
  }

  lemma Regroup5(a: string, b: string, c: string, d: string, e: string)
    ensures a + b + c + d + e == a + (b + (c + d + e))
  {
  }

  /** A run of digits followed by a non-digit is read as the run. */
  lemma ReadDigitsStops(w: string, rest: string, radix: nat)
    requires w != [] && forall i :: 0 <= i < |w| ==> IsDigit(w[i], radix)
    requires rest == [] || !IsDigit(rest[0], radix)
    ensures ReadDigits(w + rest, radix) == Some(DigitsValue(w, radix))
  {
    DigitPrefixStops(w, rest, radix);
  }

  /** parseInt ignores the white space before the number. */
  lemma ParseSkipsBlanks(b: string, x: string, radix: Radix)
    requires forall i :: 0 <= i < |b| ==> IsWhitespace(b[i])
    requires x == [] || !IsWhitespace(x[0])
    ensures ParseInt(b + x, radix) == ParseInt(x, radix)
  {
    TrimStartBlanks(b, x);
    assert TrimStart(x) == x;
  }

  /** parseInt of a plus sign followed by anything is the magnitude of
      what follows. */
  lemma Plus(w: string, radix: Radix)
    ensures ParseInt("+" + w, radix) == ParseMagnitude(w, radix)
  {
    var s := "+" + w;
    assert TrimStart(s) == s;
    assert s[1..] == w;
  }

  /** Without a "0x" prefix, or with radix 10, the magnitude is read in decimal. */
  lemma DecimalMagnitude(u: string, radix: Radix)
    requires radix == Decimal || (radix == Auto && !HasHexPrefix(u))
    ensures ParseMagnitude(u, radix) == ReadDigits(u, 10)
  {
  }

  /** Unless the radix is 10, a "0x" prefix is skipped and the rest read in hexadecimal. */
  lemma HexMagnitude(u: string, radix: Radix)
    requires radix != Decimal && HasHexPrefix(u)
    ensures ParseMagnitude(u, radix) == ReadDigits(u[2..], 16)
  {
  }

  /** The white space before a sign or a digit is skipped. */
  lemma SkipToNumeral(blanks: string, sign: string, w: string, rest: string, radix: Radix)
    requires forall i :: 0 <= i < |blanks| ==> IsWhitespace(blanks[i])
    requires sign == "" || sign == "+" || sign == "-"
    requires w != [] && DigitValue(w[0]).Some?
    ensures ParseInt(blanks + sign + w + rest, radix) == ParseInt(sign + (w + rest), radix)
  {
    Regroup(blanks, sign, w, rest);
    DigitIsNotBlank(w[0]);
    assert (sign + (w + rest))[0] == if sign == "" then w[0] else sign[0];
    ParseSkipsBlanks(blanks, sign + (w + rest), radix);
  }

  /** The magnitude of a run of decimal digits followed by a non-digit. */
  lemma DecimalRun(w: string, rest: string, radix: Radix)
    requires w != [] && forall i :: 0 <= i < |w| ==> IsDigit(w[i], 10)
    requires rest == [] || !IsDigit(rest[0], 10)
    requires radix == Decimal || (radix == Auto && !HasHexPrefix(w + rest))
    ensures ParseMagnitude(w + rest, radix) == Some(DigitsValue(w, 10) as int)
  {
    ReadDigitsStops(w, rest, 10);
    DecimalMagnitude(w + rest, radix);
  }

  /** The sign written before a number, if any. */
  datatype Sign = NoSign | PlusSign | MinusSign

  function SignText(sign: Sign): string {
    match sign
    case NoSign => ""
    case PlusSign => "+"
    case MinusSign => "-"
  }

  function Signed(sign: Sign, m: nat): int {
    if sign == MinusSign then -(m as int) else m
  }

  /** parseInt(s, 10), and parseInt(s) when no "0x" follows the sign: white
      space, an optional sign and a run of decimal digits, followed by
      anything that does not start with a digit, read as the signed value
      of the run. */
  lemma ParseNumeral(blanks: string, sign: Sign, w: string, rest: string, radix: Radix)
    requires forall i :: 0 <= i < |blanks| ==> IsWhitespace(blanks[i])
    requires w != [] && forall i :: 0 <= i < |w| ==> IsDigit(w[i], 10)
    requires rest == [] || !IsDigit(rest[0], 10)
    requires radix == Decimal || (radix == Auto && !HasHexPrefix(w + rest))
    ensures ParseInt(blanks + SignText(sign) + w + rest, radix) == Some(Signed(sign, DigitsValue(w, 10)))
  {
    SkipToNumeral(blanks, SignText(sign), w, rest, radix);
    DecimalRun(w, rest, radix);
    SignedSome(sign, SignText(sign) + (w + rest), w + rest, radix, DigitsValue(w, 10));
  }

  /** parseInt(s, 16) and parseInt(s): white space, an optional sign, "0x"
      or "0X" and a run of hexadecimal digits, followed by anything that
      does not start with one, read as the signed value of the run. */
  lemma ParseHexNumeral(blanks: string, sign: Sign, x: char, w: string, rest: string, radix: Radix)
    requires forall i :: 0 <= i < |blanks| ==> IsWhitespace(blanks[i])
    requires x == 'x' || x == 'X'
    requires w != [] && forall i :: 0 <= i < |w| ==> IsDigit(w[i], 16)
    requires rest == [] || !IsDigit(rest[0], 16)
    requires radix != Decimal
    ensures ParseInt(blanks + SignText(sign) + ['0', x] + w + rest, radix) == Some(Signed(sign, DigitsValue(w, 16)))
  {
    var u := ['0', x] + w + rest;
    SkipToHexNumeral(blanks, SignText(sign), x, w, rest, radix);
    HexRun(u, x, w, rest, radix);
    SignedSome(sign, SignText(sign) + u, u, radix, DigitsValue(w, 16));
  }

  /** The white space before a sign or "0x" is skipped. */
  lemma SkipToHexNumeral(blanks: string, sign: string, x: char, w: string, rest: string, radix: Radix)
    requires forall i :: 0 <= i < |blanks| ==> IsWhitespace(blanks[i])
    requires sign == "" || sign == "+" || sign == "-"
    ensures ParseInt(blanks + sign + ['0', x] + w + rest, radix) == ParseInt(sign + (['0', x] + w + rest), radix)
  {
    Regroup5(blanks, sign, ['0', x], w, rest);
    assert (sign + (['0', x] + w + rest))[0] == if sign == "" then '0' else sign[0];
    ParseSkipsBlanks(blanks, sign + (['0', x] + w + rest), radix);
  }

  /** After "0x", the magnitude of a run of hexadecimal digits followed by
      a non-digit. */
  lemma HexRun(u: string, x: char, w: string, rest: string, radix: Radix)
    requires x == 'x' || x == 'X'
    requires w != [] && forall i :: 0 <= i < |w| ==> IsDigit(w[i], 16)
    requires rest == [] || !IsDigit(rest[0], 16)
    requires radix != Decimal
    requires u == ['0', x] + w + rest
    ensures ParseMagnitude(u, radix) == Some(DigitsValue(w, 16) as int)
  {
    HexPrefixDrop(x, w, rest);
    ReadDigitsStops(w, rest, 16);
    HexMagnitude(u, radix);
  }

  lemma HexPrefixDrop(x: char, w: string, rest: string)
    requires x == 'x' || x == 'X'
    ensures HasHexPrefix(['0', x] + w + rest) && (['0', x] + w + rest)[2..] == w + rest
  {
  }

  /** A minus sign before a magnitude m gives -m. */
  lemma NegatedSome(s: string, u: string, radix: Radix, m: int)
    requires s == "-" + u && ParseMagnitude(u, radix) == Some(m)
    ensures ParseInt(s, radix) == Some(-m)
  {
    Negated(u, radix);
  }

  /** A sign, or none, before a magnitude m gives the signed m. */
  lemma SignedSome(sign: Sign, s: string, u: string, radix: Radix, m: int)
    requires s == SignText(sign) + u && ParseMagnitude(u, radix) == Some(m)
    requires u != [] && DigitValue(u[0]).Some?
    ensures ParseInt(s, radix) == Some(Signed(sign, m))
  {
    match sign
    case MinusSign => NegatedSome(s, u, radix, m);
    case PlusSign => Plus(u, radix);
    case NoSign =>
      assert s == u;
      DigitIsNotBlank(u[0]);
      Unsigned(u, radix);
  }

  /** With no decimal digit after the white space and the sign, parseInt(s)
      and parseInt(s, 10) are NaN. */
  lemma ParseNoDigits(blanks: string, sign: Sign, rest: string, radix: Radix)
    requires forall i :: 0 <= i < |blanks| ==> IsWhitespace(blanks[i])
    requires radix != Hex
    requires rest == [] || !IsDigit(rest[0], 10)
    requires sign == NoSign && rest != [] ==> !IsWhitespace(rest[0]) && rest[0] != '+' && rest[0] != '-'
    ensures ParseInt(blanks + SignText(sign) + rest, radix) == None
  {
    SkipToRest(blanks, sign, rest, radix);
    NoDigitsMagnitude(rest, radix);
    SignedNone(sign, SignText(sign) + rest, rest, radix);
  }

  /** The white space before a sign, or before a rest that starts with
      neither white space nor a sign, is skipped. */
  lemma SkipToRest(blanks: string, sign: Sign, rest: string, radix: Radix)
    requires forall i :: 0 <= i < |blanks| ==> IsWhitespace(blanks[i])
    requires sign == NoSign && rest != [] ==> !IsWhitespace(rest[0])
    ensures ParseInt(blanks + SignText(sign) + rest, radix) == ParseInt(SignText(sign) + rest, radix)
  {
    var t := SignText(sign) + rest;
    assert blanks + SignText(sign) + rest == blanks + t;
    assert t == [] || t[0] == if sign == NoSign then rest[0] else SignText(sign)[0];
    ParseSkipsBlanks(blanks, t, radix);
  }

  /** Without a leading decimal digit there is no decimal magnitude. */
  lemma NoDigitsMagnitude(rest: string, radix: Radix)
    requires radix != Hex
    requires rest == [] || !IsDigit(rest[0], 10)
    ensures ParseMagnitude(rest, radix) == None
  {
    assert !HasHexPrefix(rest);
    DecimalMagnitude(rest, radix);
  }

  /** A sign, or none, before a missing magnitude gives NaN. */
  lemma SignedNone(sign: Sign, s: string, u: string, radix: Radix)
    requires s == SignText(sign) + u && ParseMagnitude(u, radix) == None
    requires sign == NoSign && u != [] ==> !IsWhitespace(u[0]) && u[0] != '+' && u[0] != '-'
    ensures ParseInt(s, radix) == None
  {
    match sign
    case MinusSign => Negated(u, radix);
    case PlusSign => Plus(u, radix);
    case NoSign =>
      assert s == u;
      if u != [] {
        Unsigned(u, radix);
      }
  }

  /** parseInt(s) and parseInt(s, 10) invert String(n) on every integer. */
  lemma ParseDecimalOfToString(n: int, radix: Radix)
    requires radix != Hex
    ensures ParseInt(ToStringDecimal(n), radix) == Some(n)
  {
    var m: nat := if n < 0 then -n else n;
    var w := DecimalNat(m);
    var sign := if n < 0 then MinusSign else NoSign;
    ToStringShape(n, sign, w);
    DecimalNatNoHexPrefix(m);
    ParseNumeral("", sign, w, "", if radix == Auto then Auto else Decimal);
  }

  /** String(n) is a sign, or none, and the digits of |n|. */
  lemma ToStringShape(n: int, sign: Sign, w: string)
    requires sign == (if n < 0 then MinusSign else NoSign)
    requires w == DecimalNat(if n < 0 then -n else n)
    ensures ToStringDecimal(n) == "" + SignText(sign) + w + ""
  {
  }

  /** Decimal digits never spell a "0x" prefix. */
  lemma DecimalNatNoHexPrefix(m: nat)
    ensures !HasHexPrefix(DecimalNat(m) + "")
  {
    var w := DecimalNat(m);
    assert w + "" == w;
    if |w| >= 2 {
      assert IsDigit(w[1], 10);
    }
  }

  /** A string of hexadecimal digits, of either case, is read by
      parseInt(_, 16) as the number it spells ('x' is not a digit, so no
      "0x" prefix can be skipped). */
  lemma ParseHexDigits(w: string)
    requires w != []
    requires forall i :: 0 <= i < |w| ==> IsDigit(w[i], 16)
    ensures ParseInt(w, Hex) == Some(DigitsValue(w, 16))
  {
    DigitsNoHexPrefix(w);
    ReadAllDigits(w, 16);
    assert ParseMagnitude(w, Hex) == ReadDigits(w, 16);
    DigitIsNotBlank(w[0]);
    Unsigned(w, Hex);
  }

  /** 'x' is not a hexadecimal digit, so a string of them has no "0x" prefix. */
  lemma DigitsNoHexPrefix(w: string)
    requires forall i :: 0 <= i < |w| ==> IsDigit(w[i], 16)
    ensures !HasHexPrefix(w)
  {
    if |w| >= 2 {
      assert IsDigit(w[1], 16);
    }
  }

  /** A string made only of digits is read whole. */
  lemma ReadAllDigits(w: string, radix: nat)
    requires w != []
    requires forall i :: 0 <= i < |w| ==> IsDigit(w[i], radix)
    ensures ReadDigits(w, radix) == Some(DigitsValue(w, radix))
  {
    DigitPrefixAll(w, radix);
  }

  /** A digit is neither white space nor a sign. */
  lemma DigitIsNotBlank(c: char)
    requires DigitValue(c).Some?
    ensures !IsWhitespace(c) && c != '-' && c != '+'
  {
  }

  /** parseInt of a string that starts with neither white space nor a sign
      is its magnitude. */
  lemma Unsigned(w: string, radix: Radix)
    requires w != [] && !IsWhitespace(w[0]) && w[0] != '-' && w[0] != '+'
    ensures ParseInt(w, radix) == ParseMagnitude(w, radix)
  {
    assert TrimStart(w) == w;
  }

  /** parseInt of a minus sign followed by something that is neither white
      space nor a sign is the negated magnitude. */
  lemma Negated(w: string, radix: Radix)
    ensures ParseInt("-" + w, radix) == match ParseMagnitude(w, radix) case None => None case Some(m) => Some(-m)
  {
    var s := "-" + w;
    assert TrimStart(s) == s;
    assert s[1..] == w;
  }

  /** Two hexadecimal digits, of either case, are read by parseInt(_, 16)
      as the byte they spell. */
  lemma ParseHexPair(a: char, b: char)
    requires IsDigit(a, 16) && IsDigit(b, 16)
    ensures ParseInt([a, b], Hex) == Some(16 * DigitValue(a).value + DigitValue(b).value)
  {
    var s := [a, b];
    ParseHexDigits(s);
    assert DigitsValue([a], 16) == DigitValue(a).value by {
      assert [a][..0] == [];
    }
    assert s[..1] == [a];
  }

  /** toString(16) of a byte, padded to two characters, is its two
      hexadecimal digits. */
  lemma ByteToHex(n: int)
    requires 0 <= n < 256
    ensures PadStart(ToStringHex(n), 2, '0') == [HexChar(n / 16), HexChar(n % 16)]
  {
    if n < 16 {
      assert ToStringHex(n) == [HexChar(n)];
      assert PadStart([HexChar(n)], 2, '0') == PadStart(['0', HexChar(n)], 2, '0');
    } else {
      assert HexNat(n / 16) == [HexChar(n / 16)];
    }
  }

  /** parseInt(_, 16) inverts toString(16) on every integer. */
  lemma ParseHexOfToString(n: int)
    ensures ParseInt(ToStringHex(n), Hex) == Some(n)
  {
    if n < 0 {
      ParseHexNegative(-n);
    } else {
      ParseHexNonNegative(n);
    }
  }

  lemma ParseHexNonNegative(m: nat)
    ensures ParseInt(ToStringHex(m), Hex) == Some(m)
  {
    ParseHexDigits(HexNat(m));
  }

  lemma ParseHexNegative(m: nat)
    requires m > 0
    ensures ParseInt(ToStringHex(-(m as int)), Hex) == Some(-(m as int))
  {
    ParseHexMagnitude(m);
    Negated(HexNat(m), Hex);
  }

  lemma ParseHexMagnitude(n: nat)
    ensures ParseMagnitude(HexNat(n), Hex) == Some(n)
  {
    HexNatNoPrefix(n);
    DigitPrefixAll(HexNat(n), 16);
    assert ReadDigits(HexNat(n), 16) == Some(DigitsValue(HexNat(n), 16));
  }

  /** toString(16) never writes a leading zero before another digit, so its
      digits never look like a "0x" prefix. */
  lemma HexNatNoPrefix(n: nat)
    ensures !HasHexPrefix(HexNat(n))
  {
    if n >= 16 {
      HexNatNoPrefix(n / 16);
    }
  }

  lemma {:induction false} DigitPrefixAll(s: string, radix: nat)
    requires forall i :: 0 <= i < |s| ==> IsDigit(s[i], radix)
    ensures DigitPrefix(s, radix) == s
  {
    if s != [] {
      DigitPrefixAll(s[1..], radix);
    }
  }
}
