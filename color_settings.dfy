/**
  The colour panel of colorSettings.js: the #rrggbb codec used between the
  colour inputs and the segment list, and the in-place edits of the list of
  colour segments (window.colorSegments).
 */
module ColorSettings {
  import opened Wrappers
  import opened JsNumber
  import opened Lists

  /** A colour as the array the page keeps: one entry per component, None
      standing for NaN (what parseInt returns for a malformed pair). */
  type Color = seq<Option<int>>

  /** A run of the colour pattern: how many pixels it lasts and its colour. */
  datatype Segment = Segment(length: int, pixelColor: Color)

  const Red: Color := [Some(255), Some(0), Some(0)]

  /** The segment both the initial list and addColorSegment use: 10 red. */
  const NewSegment: Segment := Segment(10, Red)

  predicate IsByte(c: Option<int>) {
    c.Some? && 0 <= c.value < 256
  }

  predicate IsByteColor(rgb: Color) {
    forall i :: 0 <= i < |rgb| ==> IsByte(rgb[i])
  }

  function Min(a: int, b: int): int {
    if a < b then a else b
  }

  /** String.prototype.substring(start, end) for start <= end: both ends
      are clamped to the length of the string. */
  function Substring(s: string, start: nat, end: nat): string
    requires start <= end
  {
    s[Min(start, |s|)..Min(end, |s|)]
  }

  /** x.toString(16).padStart(2, '0') for one component; NaN prints as "NaN". */
  function ComponentHex(c: Option<int>): string {
    match c
    case Some(n) => PadStart(ToStringHex(n), 2, '0')
    case None => "NaN"
  }

  /** xs.map(f).join(''): the strings f makes of the elements, concatenated
      in order. */
  function MapJoin(xs: Color, f: Option<int> -> string): string {
    if xs == [] then "" else f(xs[0]) + MapJoin(xs[1..], f)
  }

  /** rgbToHex: "#" and then each component in hexadecimal. */
  function RgbToHex(rgb: Color): (r: string)
    ensures |r| >= 1 && r[0] == '#'
  {
    "#" + MapJoin(rgb, ComponentHex)
  }

  /** hex without one leading '#', if it has one. */
  function Stripped(hex: string): (h: string)
    ensures |hex| > 0 && hex[0] == '#' ==> h == hex[1..]
    ensures (|hex| == 0 || hex[0] != '#') ==> h == hex
  {
    if |hex| > 0 && hex[0] == '#' then hex[1..] else hex
  }

  /** hexToRgb: the three pairs of characters after an optional '#', each
      read by parseInt(_, 16). A component whose pair is missing altogether
      is NaN. */
  function HexToRgb(hex: string): (r: Color)
    ensures |r| == 3
    ensures |Stripped(hex)| <= 4 ==> r[2] == None
    ensures |Stripped(hex)| <= 2 ==> r[1] == None && r[2] == None
    ensures |Stripped(hex)| == 0 ==> r == [None, None, None]
  {
    var h := Stripped(hex);
    assert ParseInt("", Hex) == None;
    [ParseInt(Substring(h, 0, 2), Hex), ParseInt(Substring(h, 2, 4), Hex), ParseInt(Substring(h, 4, 6), Hex)]
  }

  /** The length typed into a segment's length input: parseInt(value) || 1,
      so NaN and 0 both become 1 and a stored length is never 0. */
  function LengthInput(value: string): (r: int)
    ensures r != 0
    ensures ParseInt(value, Auto).Some? && ParseInt(value, Auto).value != 0 ==> r == ParseInt(value, Auto).value
    ensures ParseInt(value, Auto).None? || ParseInt(value, Auto) == Some(0) ==> r == 1
  {
    match ParseInt(value, Auto)
    case Some(n) => if n != 0 then n else 1
    case None => 1
  }

  /** A byte prints as its high and its low hexadecimal digit. */
  lemma ComponentHexOfByte(c: Option<int>)
    requires IsByte(c)
    ensures ComponentHex(c) == [HexChar(c.value / 16), HexChar(c.value % 16)]
  {
    ByteToHex(c.value);
  }

  /** When f makes two characters of every element, the joined string has
      two characters per element, element k's at 2k and 2k + 1. */
  lemma {:induction false} MapJoinOfPairs(xs: Color, f: Option<int> -> string)
    requires forall i :: 0 <= i < |xs| ==> |f(xs[i])| == 2
    ensures |MapJoin(xs, f)| == 2 * |xs|
    ensures forall k :: 0 <= k < |xs| ==> MapJoin(xs, f)[2 * k] == f(xs[k])[0]
    ensures forall k :: 0 <= k < |xs| ==> MapJoin(xs, f)[2 * k + 1] == f(xs[k])[1]
  {
    if xs != [] {
      var rest := xs[1..];
      assert |f(xs[0])| == 2;
      MapJoinOfPairs(rest, f);
      assert MapJoin(xs, f) == f(xs[0]) + MapJoin(rest, f);
      forall k | 0 <= k < |xs|
        ensures MapJoin(xs, f)[2 * k] == f(xs[k])[0]
        ensures MapJoin(xs, f)[2 * k + 1] == f(xs[k])[1]
      {
        if k > 0 {
          assert xs[k] == rest[k - 1];
          assert MapJoin(xs, f)[2 * k] == MapJoin(rest, f)[2 * (k - 1)];
          assert MapJoin(xs, f)[2 * k + 1] == MapJoin(rest, f)[2 * (k - 1) + 1];
        }
      }
    }
  }

  /** Joining three elements concatenates their three strings. */
  lemma MapJoinOfTriple(p: Option<int>, q: Option<int>, r: Option<int>, f: Option<int> -> string)
    ensures MapJoin([p, q, r], f) == f(p) + f(q) + f(r)
  {
    assert [p, q, r][1..] == [q, r];
    assert [q, r][1..] == [r];
    assert [r][1..] == [];
    assert MapJoin([r], f) == f(r) + MapJoin([], f);
    assert MapJoin([q, r], f) == f(q) + MapJoin([r], f);
    assert MapJoin([p, q, r], f) == f(p) + MapJoin([q, r], f);
    assert f(r) + "" == f(r);
  }

  /** For components in [0, 255], rgbToHex writes '#' followed by exactly
      two lower-case hexadecimal digits per component, the high digit
      first: seven characters for a triple. */
  lemma RgbToHexShape(rgb: Color)
    requires IsByteColor(rgb)
    ensures |RgbToHex(rgb)| == 1 + 2 * |rgb|
    ensures forall k :: 0 <= k < |rgb| ==> RgbToHex(rgb)[2 * k + 1] == HexChar(rgb[k].value / 16)
    ensures forall k :: 0 <= k < |rgb| ==> RgbToHex(rgb)[2 * k + 2] == HexChar(rgb[k].value % 16)
    ensures forall i :: 1 <= i < |RgbToHex(rgb)| ==> IsLowerHexDigit(RgbToHex(rgb)[i])
  {
    forall i | 0 <= i < |rgb|
      ensures ComponentHex(rgb[i]) == [HexChar(rgb[i].value / 16), HexChar(rgb[i].value % 16)]
    {
      ComponentHexOfByte(rgb[i]);
    }
    var j := MapJoin(rgb, ComponentHex);
    MapJoinOfPairs(rgb, ComponentHex);
    var r := RgbToHex(rgb);
    assert r == "#" + j;
    PairsOfHexDigits(j, |rgb|);
    assert forall i :: 1 <= i < |r| ==> r[i] == j[i - 1];
    forall k | 0 <= k < |rgb|
      ensures r[2 * k + 1] == HexChar(rgb[k].value / 16)
      ensures r[2 * k + 2] == HexChar(rgb[k].value % 16)
    {
      assert r[2 * k + 1] == j[2 * k];
      assert r[2 * k + 2] == j[2 * k + 1];
    }
  }

  /** A string made of n pairs of lower-case hexadecimal digits is made of
      lower-case hexadecimal digits. */
  lemma PairsOfHexDigits(j: string, n: nat)
    requires |j| == 2 * n
    requires forall k :: 0 <= k < n ==> IsLowerHexDigit(j[2 * k]) && IsLowerHexDigit(j[2 * k + 1])
    ensures forall i :: 0 <= i < |j| ==> IsLowerHexDigit(j[i])
  {
    forall i | 0 <= i < |j|
      ensures IsLowerHexDigit(j[i])
    {
      var k := i / 2;
      if i % 2 == 0 {
        assert i == 2 * k;
      } else {
        assert i == 2 * k + 1;
      }
    }
  }

  /** hexToRgb ignores one leading '#': "#abcdef" and "abcdef" decode alike. */
  lemma HexToRgbIgnoresHash(h: string)
    requires h == [] || h[0] != '#'
    ensures HexToRgb("#" + h) == HexToRgb(h)
  {
    assert ("#" + h)[1..] == h;
  }

  /** Two hexadecimal digits read as a byte. */
  lemma PairIsByte(a: char, b: char)
    requires IsDigit(a, 16) && IsDigit(b, 16)
    ensures IsByte(ParseInt([a, b], Hex))
    ensures ParseInt([a, b], Hex).value == 16 * DigitValue(a).value + DigitValue(b).value
  {
    ParseHexPair(a, b);
  }

  /** hexToRgb of six characters after an optional '#' reads their three pairs. */
  lemma HexToRgbOfSix(hex: string)
    requires |Stripped(hex)| == 6
    ensures var h := Stripped(hex);
      HexToRgb(hex) == [ParseInt([h[0], h[1]], Hex), ParseInt([h[2], h[3]], Hex), ParseInt([h[4], h[5]], Hex)]
  {
    var h := Stripped(hex);
    assert Substring(h, 0, 2) == [h[0], h[1]];
    assert Substring(h, 2, 4) == [h[2], h[3]];
    assert Substring(h, 4, 6) == [h[4], h[5]];
  }

  /** Six hexadecimal digits, of either case, with or without a leading
      '#', decode to three components, each in [0, 255]. */
  lemma HexToRgbBytes(hex: string)
    requires |Stripped(hex)| == 6
    requires forall i :: 0 <= i < 6 ==> IsDigit(Stripped(hex)[i], 16)
    ensures IsByteColor(HexToRgb(hex))
  {
    var h := Stripped(hex);
    HexToRgbOfSix(hex);
    PairIsByte(h[0], h[1]);
    PairIsByte(h[2], h[3]);
    PairIsByte(h[4], h[5]);
    var c := HexToRgb(hex);
    forall k | 0 <= k < 3
      ensures IsByte(c[k])
    {
      if k == 0 {} else if k == 1 {} else {}
    }
  }

  /** The hexadecimal digits of a byte's high and low halves read back as
      the byte. */
  lemma ByteFromDigits(n: int)
    requires 0 <= n < 256
    ensures ParseInt([HexChar(n / 16), HexChar(n % 16)], Hex) == Some(n)
  {
    ParseHexPair(HexChar(n / 16), HexChar(n % 16));
    DivMod16(n);
  }

  lemma DivMod16(n: int)
    requires 0 <= n
    ensures 16 * (n / 16) + n % 16 == n
  {
  }

  /** Pair k of what rgbToHex writes reads back as component k. */
  lemma PairOfRgbToHex(c: Color, k: nat)
    requires |c| == 3 && IsByteColor(c) && k < 3
    ensures HexToRgb(RgbToHex(c))[k] == c[k]
  {
    var s := RgbToHex(c);
    RgbToHexShape(c);
    var h := s[1..];
    assert Stripped(s) == h;
    assert Substring(h, 2 * k, 2 * k + 2) == [s[2 * k + 1], s[2 * k + 2]];
    assert IsByte(c[k]);
    ByteFromDigits(c[k].value);
    ComponentOfHexToRgb(s, k);
  }

  /** Component k of hexToRgb is pair k after the '#', read in base 16. */
  lemma ComponentOfHexToRgb(hex: string, k: nat)
    requires k < 3
    ensures HexToRgb(hex)[k] == ParseInt(Substring(Stripped(hex), 2 * k, 2 * k + 2), Hex)
  {
    if k == 0 {
    } else if k == 1 {
    } else {
    }
  }

  /** Round trip: decoding what rgbToHex writes for a triple of bytes gives
      the triple back. */
  lemma HexToRgbOfRgbToHex(c: Color)
    requires |c| == 3 && IsByteColor(c)
    ensures HexToRgb(RgbToHex(c)) == c
  {
    PairOfRgbToHex(c, 0);
    PairOfRgbToHex(c, 1);
    PairOfRgbToHex(c, 2);
    SameTriple(HexToRgb(RgbToHex(c)), c);
  }

  lemma SameTriple(a: Color, b: Color)
    requires |a| == 3 && |b| == 3
    requires a[0] == b[0] && a[1] == b[1] && a[2] == b[2]
    ensures a == b
  {
    assert a == [a[0], a[1], a[2]];
    assert b == [b[0], b[1], b[2]];
  }

  /** A lower-case hexadecimal digit is the digit HexChar writes for its value. */
  lemma HexCharOfDigit(a: char)
    requires IsLowerHexDigit(a)
    ensures DigitValue(a).Some? && DigitValue(a).value < 16
    ensures HexChar(DigitValue(a).value) == a
  {
    var c := HexChar(DigitValue(a).value);
    assert IsLowerHexDigit(c) && DigitValue(c) == DigitValue(a);
  }

  /** The byte that two lower-case digits spell is written back as them. */
  lemma DigitsFromByte(a: char, b: char)
    requires IsLowerHexDigit(a) && IsLowerHexDigit(b)
    ensures ComponentHex(ParseInt([a, b], Hex)) == [a, b]
  {
    HexCharOfDigit(a);
    HexCharOfDigit(b);
    PairIsByte(a, b);
    var n := ParseInt([a, b], Hex).value;
    ModUnique(n, 16, DigitValue(a).value, DigitValue(b).value);
    ComponentHexOfByte(ParseInt([a, b], Hex));
  }

  lemma HashAndPairs(h: string)
    requires |h| == 7 && h[0] == '#'
    ensures h == "#" + ([h[1], h[2]] + [h[3], h[4]] + [h[5], h[6]])
  {
  }

  /** Round trip: encoding what hexToRgb reads from '#' and six lower-case
      hexadecimal digits gives the string back. */
  lemma RgbToHexOfHexToRgb(h: string)
    requires |h| == 7 && h[0] == '#'
    requires forall i :: 1 <= i < 7 ==> IsLowerHexDigit(h[i])
    ensures RgbToHex(HexToRgb(h)) == h
  {
    var s := h[1..];
    assert Stripped(h) == s;
    assert [s[0], s[1]] == [h[1], h[2]] && [s[2], s[3]] == [h[3], h[4]] && [s[4], s[5]] == [h[5], h[6]];
    HexToRgbOfSix(h);
    var p, q, r := ParseInt([h[1], h[2]], Hex), ParseInt([h[3], h[4]], Hex), ParseInt([h[5], h[6]], Hex);
    DigitsFromByte(h[1], h[2]);
    DigitsFromByte(h[3], h[4]);
    DigitsFromByte(h[5], h[6]);
    assert HexToRgb(h) == [p, q, r];
    MapJoinOfTriple(p, q, r, ComponentHex);
    assert RgbToHex([p, q, r]) == "#" + MapJoin([p, q, r], ComponentHex);
    HashAndPairs(h);
  }

  /** The segment list of the colour panel, edited in place by its buttons
      and inputs. */
  class ColorPanel {
    var segments: seq<Segment>

    /** The list the page starts with: one segment of 10 red pixels. */
    constructor ()
      ensures segments == [NewSegment]
    {
      segments := [NewSegment];
    }

    /** addColorSegment: appends 10 red pixels and leaves the earlier
        segments as they are. */
    method AddColorSegment()
      modifies this
      ensures segments == old(segments) + [NewSegment]
      ensures |segments| == |old(segments)| + 1 && segments[..|old(segments)|] == old(segments)
    {
      segments := segments + [NewSegment];
    }

    /** The Delete button of row idx: splice(idx, 1), which removes exactly
        that segment and keeps the others in order. */
    method DeleteSegment(idx: nat)
      modifies this
      ensures segments == RemoveAt(old(segments), idx)
    {
      segments := RemoveAt(segments, idx);
    }

    /** The length input of row idx: the new length, parsed, replaces that
        segment's length and nothing else. */
    method EditLength(idx: nat, value: string)
      requires idx < |segments|
      modifies this
      ensures |segments| == |old(segments)|
      ensures segments[idx] == old(segments)[idx].(length := LengthInput(value))
      ensures segments[idx].length != 0
      ensures forall k :: 0 <= k < |segments| && k != idx ==> segments[k] == old(segments)[k]
    {
      segments := segments[idx := segments[idx].(length := LengthInput(value))];
    }

    /** The colour input of row idx: the picked #rrggbb value, decoded,
        replaces that segment's colour and nothing else. */
    method EditColor(idx: nat, value: string)
      requires idx < |segments|
      modifies this
      ensures |segments| == |old(segments)|
      ensures segments[idx] == old(segments)[idx].(pixelColor := HexToRgb(value))
      ensures forall k :: 0 <= k < |segments| && k != idx ==> segments[k] == old(segments)[k]
    {
      segments := segments[idx := segments[idx].(pixelColor := HexToRgb(value))];
    }
  }
}
