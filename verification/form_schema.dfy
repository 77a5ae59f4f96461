/**
 The `word` field of the dictionary search form (`formSchema` in
 src/lib/schema/form.ts).

 The field is a string checked in declaration order: `.trim()` replaces the
 value by its trimmed copy, then `.min(1, "Cannot be empty")`, `.max(50)` and
 `.regex(/^[a-zA-Z\s-]+$/, "Only letters, hyphens, and spaces are allowed")`
 each test that trimmed value. None of the three checks stops the others, so
 every failing check contributes its message; when none fails the parsed
 value is the trimmed string.
 */
module FormSchema {
  import opened JsText
  import opened Trimming
  import opened WordRegex

  const MinLength := 1
  const MaxLength := 50

  /** One failed check, named by the message it reports. */
  datatype Issue =
    | Empty     // min(1): "Cannot be empty"
    | TooLong   // max(50): the schema library's default message
    | BadChars  // regex: "Only letters, hyphens, and spaces are allowed"

  datatype Verdict = Valid(word: JsString) | Invalid(issues: seq<Issue>)

  /** What a value accepted for the field looks like. */
  predicate IsWord(w: JsString) {
    && MinLength <= |w| <= MaxLength
    && AllAllowed(w)
    && NoEdgeWs(w)
  }

  /** Parse one raw form value. */
  function Validate(raw: JsString): (v: Verdict)
    ensures v.Valid? ==> IsWord(v.word)
    ensures v.Invalid? ==> |v.issues| > 0
  {
    var t := Trim(raw);
    var issues :=
      (if |t| < MinLength then [Empty] else [])
      + (if |t| > MaxLength then [TooLong] else [])
      + (if Matches(t) then [] else [BadChars]);
    MatchesIff(t);
    if issues == [] then Valid(t) else Invalid(issues)
  }

  /** The value is accepted exactly when its trimmed copy has 1 to 50 units,
      all from the allowed class; the parsed value is that trimmed copy. */
  lemma AcceptanceCharacterised(s: JsString, w: JsString)
    ensures Validate(s) == Valid(w)
            <==> IsTrimOf(w, s) && MinLength <= |w| <= MaxLength && AllAllowed(w)
  {
    TrimCharacterised(s, w);
    MatchesIff(Trim(s));
  }

  /** "Cannot be empty" is reported exactly for blank input. */
  lemma EmptyIssueIff(s: JsString)
    ensures (Validate(s).Invalid? && Empty in Validate(s).issues) <==> AllWs(s)
  {
  }

  /** The length message is reported exactly when the trimmed value is
      longer than 50 units; surrounding whitespace never counts. */
  lemma TooLongIssueIff(s: JsString)
    ensures (Validate(s).Invalid? && TooLong in Validate(s).issues) <==> |Trim(s)| > MaxLength
  {
  }

  /** The character message is reported exactly when the input is blank or
      holds a unit outside `[a-zA-Z\s-]` anywhere, edges included. */
  lemma BadCharsIssueIff(s: JsString)
    ensures (Validate(s).Invalid? && BadChars in Validate(s).issues) <==> AllWs(s) || !AllAllowed(s)
  {
    var i, j := TrimSplit(s);
    MatchesIff(Trim(s));
    if !AllAllowed(s) {
      var k :| 0 <= k < |s| && !IsAllowedChar(s[k]);
      assert i <= k < j;
      assert Trim(s)[k - i] == s[k];
    }
    if !AllAllowed(Trim(s)) {
      var k :| 0 <= k < |Trim(s)| && !IsAllowedChar(Trim(s)[k]);
      assert s[i + k] == Trim(s)[k];
    }
  }

  /** Whitespace around the input never changes the verdict. */
  lemma PaddingIrrelevant(p: JsString, s: JsString, q: JsString)
    requires AllWs(p) && AllWs(q)
    ensures Validate(p + s + q) == Validate(s)
  {
    TrimIgnoresPadding(p, s, q);
  }

  /** Every well-formed word is accepted as itself, however it is padded. */
  lemma PaddedWordAccepted(p: JsString, w: JsString, q: JsString)
    requires AllWs(p) && AllWs(q) && IsWord(w)
    ensures Validate(p + w + q) == Valid(w)
  {
    TrimIgnoresPadding(p, w, q);
    assert w[0..|w|] == w;
    TrimUnique(w, 0, |w|);
    MatchesIff(w);
  }

  /** The length limit is inclusive: a word of exactly 50 units passes. */
  lemma FiftyUnitsAccepted(w: JsString)
    requires |w| == MaxLength && AllAllowed(w) && NoEdgeWs(w)
    ensures Validate(w) == Valid(w)
  {
    PaddedWordAccepted([], w, []);
    assert [] + w + [] == w;
  }

  /** The accepted value is a contiguous piece of the input, with only
      whitespace cut away before and after it. */
  lemma AcceptedSlice(s: JsString, w: JsString) returns (i: nat)
    requires Validate(s) == Valid(w)
    ensures i + |w| <= |s| && w == s[i..i + |w|]
    ensures AllWs(s[..i]) && AllWs(s[i + |w|..])
  {
    var j;
    i, j := TrimSplit(s);
  }

  /** The verdict depends only on the trimmed value. */
  lemma VerdictDependsOnTrimOnly(s: JsString)
    ensures Validate(Trim(s)) == Validate(s)
  {
    TrimIdempotent(s);
  }

  /** Validating an accepted value again accepts it unchanged. */
  lemma ValidateIdempotent(s: JsString, w: JsString)
    requires Validate(s) == Valid(w)
    ensures Validate(w) == Valid(w)
  {
    VerdictDependsOnTrimOnly(s);
  }

  /** `\s` admits every whitespace unit between letters, not only the space:
      a tab, a line feed or a no-break space inside the word is accepted. */
  lemma InteriorWhitespaceAccepted(a: CodeUnit, c: CodeUnit, b: CodeUnit)
    requires IsAsciiLetter(a) && IsWs(c) && IsAsciiLetter(b)
    ensures Validate([a, c, b]) == Valid([a, c, b])
  {
    PaddedWordAccepted([], [a, c, b], []);
    assert [] + [a, c, b] + [] == [a, c, b];
  }

  /** A character beyond the Basic Multilingual Plane reaches the pattern as
      a surrogate pair and is rejected with the character message. */
  lemma AstralRejected(s: string, k: nat)
    requires k < |s| && !IsBmp(s[k])
    ensures Validate(Utf16(s)).Invalid? && BadChars in Validate(Utf16(s)).issues
  {
    var m := AstralLeavesSurrogate(s, k);
    SurrogateRejected(Utf16(s), m);
  }

  /** A lone or paired surrogate unit anywhere draws the character message. */
  lemma SurrogateRejected(u: JsString, m: nat)
    requires m < |u| && IsSurrogate(u[m])
    ensures Validate(u).Invalid? && BadChars in Validate(u).issues
  {
    assert !IsAllowedChar(u[m]);
    BadCharsIssueIff(u);
  }
}
