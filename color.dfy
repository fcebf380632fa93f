/**
 * Colour-code helpers of the web client (Client/src/utils/color.js):
 * validation of a `#RRGGBB` code by a case-insensitive regular expression,
 * and the choice of a readable font colour from the code's three channels.
 */
module Color {
  import opened Wrappers

  // ----- Regular expression `/^#[0-9A-F]{6}$/i` -----

  /** ASCII upper-casing: the case canonicalisation of a non-Unicode `/i` pattern on ASCII letters. */
  function UpperChar(c: char): char
  {
    if 'a' <= c <= 'z' then (c as int - 32) as char else c
  }

  /** A pattern element that matches exactly one character. */
  datatype Atom = Literal(ch: char) | Ranges(ranges: seq<(char, char)>)

  /**
   * Whether atom `a` matches `c`. Under `ignoreCase` both sides are compared
   * in canonical (upper) case; for a class this is exact when its ranges are
   * closed under upper-casing, as `[0-9A-F]` is.
   */
  predicate AtomMatches(a: Atom, c: char, ignoreCase: bool)
  {
    var k := if ignoreCase then UpperChar(c) else c;
    match a
    case Literal(x) => k == (if ignoreCase then UpperChar(x) else x)
    case Ranges(rs) => exists i :: 0 <= i < |rs| && rs[i].0 <= k <= rs[i].1
  }

  /** `^a1 a2 … an$`: one atom per character, nothing before or after (no multiline flag). */
  predicate MatchesAnchored(pattern: seq<Atom>, s: string, ignoreCase: bool)
    decreases |pattern|
  {
    if pattern == [] then s == []
    else s != [] && AtomMatches(pattern[0], s[0], ignoreCase) && MatchesAnchored(pattern[1..], s[1..], ignoreCase)
  }

  /** An anchored match pairs the pattern's atoms with the string's characters one to one. */
  lemma {:induction false} MatchesAnchoredPointwise(pattern: seq<Atom>, s: string, ignoreCase: bool)
    ensures MatchesAnchored(pattern, s, ignoreCase) <==>
      |s| == |pattern| && forall i :: 0 <= i < |s| ==> AtomMatches(pattern[i], s[i], ignoreCase)
  {
    if pattern != [] && s != [] {
      MatchesAnchoredPointwise(pattern[1..], s[1..], ignoreCase);
      if |s| == |pattern| && forall i :: 0 <= i < |s| ==> AtomMatches(pattern[i], s[i], ignoreCase) {
        forall i | 0 <= i < |s[1..]| ensures AtomMatches(pattern[1..][i], s[1..][i], ignoreCase) {
          assert pattern[1..][i] == pattern[i + 1];
        }
      }
    }
  }

  const HexClass: Atom := Ranges([('0', '9'), ('A', 'F')])

  /** `#[0-9A-F]{6}` with the repetition written out. */
  const ColorPattern: seq<Atom> := [Literal('#'), HexClass, HexClass, HexClass, HexClass, HexClass, HexClass]

  predicate IsHexDigit(c: char)
  {
    '0' <= c <= '9' || 'a' <= c <= 'f' || 'A' <= c <= 'F'
  }

  lemma HexClassMatchesHexDigits(c: char)
    ensures AtomMatches(HexClass, c, true) <==> IsHexDigit(c)
  {
    var rs := HexClass.ranges;
    if IsHexDigit(c) {
      if '0' <= c <= '9' {
        assert rs[0].0 <= UpperChar(c) <= rs[0].1;
      } else {
        assert rs[1].0 <= UpperChar(c) <= rs[1].1;
      }
    }
  }

  /** The colour pattern accepts `#` followed by exactly six hex digits, in either case. */
  lemma ColorPatternMeaning(color: string)
    ensures MatchesAnchored(ColorPattern, color, true) <==>
      |color| == 7 && color[0] == '#' && forall i :: 1 <= i < 7 ==> IsHexDigit(color[i])
  {
    MatchesAnchoredPointwise(ColorPattern, color, true);
    if |color| == 7 {
      forall i | 1 <= i < 7 ensures AtomMatches(ColorPattern[i], color[i], true) <==> IsHexDigit(color[i]) {
        HexClassMatchesHexDigits(color[i]);
      }
    }
  }

  /** `isValidColor`: whether the regular expression finds a match. */
  function IsValidColor(color: string): (r: bool)
    ensures r <==> |color| == 7 && color[0] == '#' && forall i :: 1 <= i < 7 ==> IsHexDigit(color[i])
  {
    ColorPatternMeaning(color);
    MatchesAnchored(ColorPattern, color, true)
  }

  function UpperString(s: string): string
  {
    seq(|s|, i requires 0 <= i < |s| => UpperChar(s[i]))
  }

  /** Validity does not depend on the case of the letters. */
  lemma ValidityIgnoresCase(color: string)
    ensures IsValidColor(color) <==> IsValidColor(UpperString(color))
  {
    var u := UpperString(color);
    assert forall i :: 0 <= i < |color| ==> (IsHexDigit(color[i]) <==> IsHexDigit(u[i]));
  }

  lemma ValidityExamples()
    ensures IsValidColor("#AABBCC") && IsValidColor("#aabbcc") && IsValidColor("#09afAF")
    ensures !IsValidColor("AABBCC") && !IsValidColor("#ZZZZZZ")
    ensures !IsValidColor(" #AABBCC") && !IsValidColor("#AABBCC ") && !IsValidColor("#AABBCC\n")
  {
    assert !IsHexDigit("#ZZZZZZ"[1]);
  }

  // ----- `parseInt(s, 16)` -----

  /** ECMAScript white space and line terminators, which `parseInt` skips at the front. */
  predicate IsJsWhiteSpace(c: char)
  {
    || c == '\t' || c == '\n' || c == '\U{000B}' || c == '\U{000C}' || c == '\r' || c == ' '
    || c == '\U{00A0}' || c == '\U{1680}' || ('\U{2000}' <= c <= '\U{200A}')
    || c == '\U{2028}' || c == '\U{2029}' || c == '\U{202F}' || c == '\U{205F}' || c == '\U{3000}'
    || c == '\U{FEFF}'
  }

  function TrimStart(s: string): (r: string)
    ensures |r| <= |s|
    ensures r != [] ==> !IsJsWhiteSpace(r[0])
  {
    if s != [] && IsJsWhiteSpace(s[0]) then TrimStart(s[1..]) else s
  }

  function HexDigitValue(c: char): (v: nat)
    requires IsHexDigit(c)
    ensures v < 16
  {
    if '0' <= c <= '9' then c as int - '0' as int
    else if 'a' <= c <= 'f' then c as int - 'a' as int + 10
    else c as int - 'A' as int + 10
  }

  /** The longest prefix of `s` made of hex digits. */
  function LeadingHexDigits(s: string): (r: string)
    ensures |r| <= |s| && r == s[..|r|]
    ensures forall i :: 0 <= i < |r| ==> IsHexDigit(r[i])
    ensures |r| < |s| ==> !IsHexDigit(s[|r|])
  {
    if s != [] && IsHexDigit(s[0]) then [s[0]] + LeadingHexDigits(s[1..]) else []
  }

  /** The number written by hex digits, most significant first. */
  function HexValue(digits: string): (v: nat)
    requires forall i :: 0 <= i < |digits| ==> IsHexDigit(digits[i])
    ensures v < Pow16(|digits|)
  {
    if digits == [] then 0
    else HexValue(digits[..|digits| - 1]) * 16 + HexDigitValue(digits[|digits| - 1])
  }

  function Pow16(n: nat): (p: nat)
    ensures p > 0
  {
    if n == 0 then 1 else 16 * Pow16(n - 1)
  }

  lemma {:induction false} Pow16Monotone(m: nat, n: nat)
    requires m <= n
    ensures Pow16(m) <= Pow16(n)
  {
    if m < n {
      Pow16Monotone(m, n - 1);
    }
  }

  /**
   * `parseInt(s, 16)`: skip leading white space, take an optional sign and an
   * optional `0x`/`0X` prefix, then read the longest run of hex digits;
   * `None` stands for `NaN` (no digit at all).
   */
  function ParseIntHex(s: string): (r: Option<int>)
    ensures r.Some? ==> -(Pow16(|s|) as int) < r.value < Pow16(|s|)
  {
    var t := TrimStart(s);
    var sign := if t != [] && t[0] == '-' then -1 else 1;
    var u := if t != [] && (t[0] == '-' || t[0] == '+') then t[1..] else t;
    var v := if |u| >= 2 && u[0] == '0' && (u[1] == 'x' || u[1] == 'X') then u[2..] else u;
    var z := LeadingHexDigits(v);
    Pow16Monotone(|z|, |s|);
    if z == [] then None else Some(sign * HexValue(z))
  }

  /** `String.prototype.substring(start, end)`: indices clamped to the string and swapped if reversed. */
  function Substring(s: string, start: int, end: int): (r: string)
    ensures |r| <= |s|
    ensures start <= end ==> |r| <= end - start
    ensures 0 <= start <= end <= |s| ==> r == s[start..end]
  {
    var a := if start < 0 then 0 else if start > |s| then |s| else start;
    var b := if end < 0 then 0 else if end > |s| then |s| else end;
    if a <= b then s[a..b] else s[b..a]
  }

  /** The red, green and blue values at the top of `getFontColor`. */
  function Channel(color: string, start: int): (r: Option<int>)
    ensures r.Some? ==> -256 < r.value < 256
  {
    var sub := Substring(color, start, start + 2);
    Pow16Monotone(|sub|, 2);
    ParseIntHex(sub)
  }

  /** Two hex digits parse to the number they write, in 0..255. */
  lemma ParseTwoHexDigits(hi: char, lo: char)
    requires IsHexDigit(hi) && IsHexDigit(lo)
    ensures ParseIntHex([hi, lo]) == Some(16 * HexDigitValue(hi) + HexDigitValue(lo))
    ensures 16 * HexDigitValue(hi) + HexDigitValue(lo) <= 255
  {
    var sub := [hi, lo];
    assert TrimStart(sub) == sub;
    assert sub[0] != '-' && sub[0] != '+' && sub[1] != 'x' && sub[1] != 'X';
    var z := LeadingHexDigits(sub);
    assert |z| == 2;
    assert z == sub;
    assert z[..1][..0] == [];
    assert HexValue(z[..1]) == HexDigitValue(hi);
  }

  /** Each channel of a valid code is the two-digit hex number at its position, in 0..255. */
  lemma {:induction false} ValidColorChannel(color: string, start: int)
    requires IsValidColor(color)
    requires start == 1 || start == 3 || start == 5
    ensures Channel(color, start) == Some(16 * HexDigitValue(color[start]) + HexDigitValue(color[start + 1]))
    ensures 0 <= Channel(color, start).value <= 255
  {
    assert IsHexDigit(color[start]) && IsHexDigit(color[start + 1]);
    assert Substring(color, start, start + 2) == color[start..start + 2];
    assert color[start..start + 2] == [color[start], color[start + 1]];
    ParseTwoHexDigits(color[start], color[start + 1]);
  }

  lemma {:induction false} ValidColorChannels(color: string)
    requires IsValidColor(color)
    ensures Channel(color, 1) == Some(16 * HexDigitValue(color[1]) + HexDigitValue(color[2]))
    ensures Channel(color, 3) == Some(16 * HexDigitValue(color[3]) + HexDigitValue(color[4]))
    ensures Channel(color, 5) == Some(16 * HexDigitValue(color[5]) + HexDigitValue(color[6]))
  {
    ValidColorChannel(color, 1);
    ValidColorChannel(color, 3);
    ValidColorChannel(color, 5);
  }

  /**
   * `getFontColor`'s choice. The source compares the weighted mean
   * `(0.299 r + 0.587 g + 0.114 b) / 255` with 0.5 in floating point; here
   * the same comparison is made exactly, scaled by 255000. A `NaN` channel
   * makes the comparison false, hence "white".
   */
  function GetFontColor(color: string): (r: string)
    ensures r == "black" || r == "white"
    ensures IsValidColor(color) ==>
      (r == "black" <==>
        299 * (16 * HexDigitValue(color[1]) + HexDigitValue(color[2]))
        + 587 * (16 * HexDigitValue(color[3]) + HexDigitValue(color[4]))
        + 114 * (16 * HexDigitValue(color[5]) + HexDigitValue(color[6])) >= 127500)
  {
    var red := Channel(color, 1);
    var green := Channel(color, 3);
    var blue := Channel(color, 5);
    var choice :=
      if red.Some? && green.Some? && blue.Some?
         && 299 * red.value + 587 * green.value + 114 * blue.value >= 127500
      then "black"
      else "white";
    if IsValidColor(color) then ValidColorChannels(color); choice else choice
  }

  lemma FontColorExamples()
    ensures GetFontColor("#FFFFFF") == "black"
    ensures GetFontColor("#000000") == "white"
  {
    assert IsValidColor("#FFFFFF");
    assert IsValidColor("#000000");
  }
}
