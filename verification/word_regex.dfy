/**
 The pattern `/^[a-zA-Z\s-]+$/` of the `word` field.

 The pattern carries no flags, so it runs on UTF-16 code units, `[a-zA-Z]`
 is the two ASCII letter ranges, `\s` is the ECMA-262 whitespace set, the
 trailing `-` is a literal hyphen, and `^`/`$` anchor at the two ends of the
 whole string. `Matches` follows the shape of the pattern (one class
 character, then the `+` repetition); `MatchesIff` proves it equal to the
 flat reading "non-empty and every unit allowed".
 */
module WordRegex {
  import opened JsText

  const Hyphen: CodeUnit := 0x2D

  predicate IsAsciiLetter(c: CodeUnit) {
    (0x41 <= c <= 0x5A) || (0x61 <= c <= 0x7A)
  }

  /** Membership in the class `[a-zA-Z\s-]`. */
  predicate IsAllowedChar(c: CodeUnit) {
    IsAsciiLetter(c) || IsWs(c) || c == Hyphen
  }

  predicate AllAllowed(s: JsString) {
    forall k | 0 <= k < |s| :: IsAllowedChar(s[k])
  }

  /** The anchored pattern: one or more class characters and nothing else. */
  predicate Matches(t: JsString) {
    |t| >= 1 && IsAllowedChar(t[0]) && (|t| == 1 || Matches(t[1..]))
  }

  lemma {:induction false} MatchesIff(t: JsString)
    ensures Matches(t) <==> |t| >= 1 && AllAllowed(t)
  {
    if |t| > 1 {
      MatchesIff(t[1..]);
      if AllAllowed(t) {
        assert forall k | 0 <= k < |t| - 1 :: t[1..][k] == t[k + 1];
      }
      if Matches(t) {
        forall k | 0 <= k < |t| ensures IsAllowedChar(t[k]) {
          if k > 0 { assert t[k] == t[1..][k - 1]; }
        }
      }
    }
  }
}
