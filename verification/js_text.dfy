/**
 JavaScript string values as the form validator sees them.

 A JavaScript string is a sequence of UTF-16 code units: `length`,
 `String.prototype.trim` and a regular expression without the `u` flag all
 work unit by unit. This module fixes that representation, the whitespace
 set of ECMA-262 (WhiteSpace, section 12.2, together with LineTerminator,
 section 12.3) used both by `trim` and by the `\s` class, and the encoding
 of a Dafny `string` (Unicode scalar values) into code units.
 */
module JsText {

  datatype Option<+T> = None | Some(value: T)

  /** One UTF-16 code unit. */
  type CodeUnit = x: int | 0 <= x < 0x1_0000

  /** A JavaScript string value. */
  type JsString = seq<CodeUnit>

  /** ECMA-262 WhiteSpace: TAB, VT, FF, ZWNBSP and every code point of
      general category Zs. */
  predicate IsWhiteSpace(c: CodeUnit) {
    || c == 0x0009 || c == 0x000B || c == 0x000C || c == 0xFEFF
    || c == 0x0020 || c == 0x00A0 || c == 0x1680
    || (0x2000 <= c <= 0x200A)
    || c == 0x202F || c == 0x205F || c == 0x3000
  }

  /** ECMA-262 LineTerminator: LF, CR, LINE SEPARATOR, PARAGRAPH SEPARATOR. */
  predicate IsLineTerminator(c: CodeUnit) {
    c == 0x000A || c == 0x000D || c == 0x2028 || c == 0x2029
  }

  /** The one whitespace notion shared by `trim` and by `\s`. */
  predicate IsWs(c: CodeUnit) {
    IsWhiteSpace(c) || IsLineTerminator(c)
  }

  predicate AllWs(s: JsString) {
    forall k | 0 <= k < |s| :: IsWs(s[k])
  }

  /** True when the string neither starts nor ends with whitespace. */
  predicate NoEdgeWs(s: JsString) {
    |s| == 0 || (!IsWs(s[0]) && !IsWs(s[|s| - 1]))
  }

  /** A UTF-16 surrogate (high or low). */
  predicate IsSurrogate(c: CodeUnit) {
    0xD800 <= c <= 0xDFFF
  }

  predicate IsHighSurrogate(c: CodeUnit) {
    0xD800 <= c <= 0xDBFF
  }

  predicate IsLowSurrogate(c: CodeUnit) {
    0xDC00 <= c <= 0xDFFF
  }

  /** The code point a high/low surrogate pair stands for. */
  function PairValue(hi: CodeUnit, lo: CodeUnit): int {
    (hi - 0xD800) * 0x400 + (lo - 0xDC00) + 0x1_0000
  }

  predicate IsBmp(c: char) {
    c as int < 0x1_0000
  }

  /** The UTF-16 code units of one Unicode scalar value: one unit in the
      Basic Multilingual Plane, a high/low surrogate pair above it. */
  function EncodeChar(c: char): (r: JsString)
    ensures IsBmp(c) ==> |r| == 1 && r[0] == c as int
    ensures !IsBmp(c) ==> |r| == 2 && IsHighSurrogate(r[0]) && IsLowSurrogate(r[1])
    ensures !IsBmp(c) ==> PairValue(r[0], r[1]) == c as int
  {
    if IsBmp(c) then [c as int]
    else
      var v := c as int - 0x1_0000;
      [0xD800 + v / 0x400, 0xDC00 + v % 0x400]
  }

  /** The JavaScript string value holding the Dafny string `s`. */
  function Utf16(s: string): (r: JsString)
    ensures |r| >= |s|
    ensures |r| == |s| <==> forall i | 0 <= i < |s| :: IsBmp(s[i])
    ensures (forall i | 0 <= i < |s| :: IsBmp(s[i])) ==> forall i | 0 <= i < |s| :: r[i] == s[i] as int
  {
    if |s| == 0 then [] else EncodeChar(s[0]) + Utf16(s[1..])
  }

  /** Reads a JavaScript string back as Unicode scalar values; `None` when
      it holds a surrogate that is not part of a high/low pair. */
  function FromUtf16(u: JsString): Option<string>
  {
    if |u| == 0 then Some([])
    else if !IsSurrogate(u[0]) then
      match FromUtf16(u[1..])
      case Some(rest) => Some([u[0] as char] + rest)
      case None => None
    else if |u| >= 2 && IsHighSurrogate(u[0]) && IsLowSurrogate(u[1]) then
      match FromUtf16(u[2..])
      case Some(rest) => Some([PairValue(u[0], u[1]) as char] + rest)
      case None => None
    else None
  }

  /** Encoding then decoding gives back the original string. */
  lemma {:induction false} Utf16RoundTrip(s: string)
    ensures FromUtf16(Utf16(s)) == Some(s)
  {
    if |s| > 0 {
      var e := EncodeChar(s[0]);
      var u := Utf16(s);
      Utf16RoundTrip(s[1..]);
      assert u[|e|..] == Utf16(s[1..]);
      if IsBmp(s[0]) {
        assert u[0] == s[0] as int;
        assert (s[0] as int) as char == s[0];
      } else {
        assert u[0] == e[0] && u[1] == e[1];
        assert PairValue(u[0], u[1]) as char == s[0];
      }
      assert [s[0]] + s[1..] == s;
    }
  }

  /** A character outside the Basic Multilingual Plane leaves a surrogate
      code unit in the encoded string; `m` is its position. */
  lemma {:induction false} AstralLeavesSurrogate(s: string, k: nat) returns (m: nat)
    requires k < |s| && !IsBmp(s[k])
    ensures m < |Utf16(s)| && IsSurrogate(Utf16(s)[m])
  {
    if k == 0 {
      m := 0;
    } else {
      var m' := AstralLeavesSurrogate(s[1..], k - 1);
      m := |EncodeChar(s[0])| + m';
    }
  }
}
