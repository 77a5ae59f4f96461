# Dictionary search form: the `word` field validator

The application is a SvelteKit page that looks up one English word in a
public dictionary service. Its one piece of self-contained logic is the
schema for the search form: the single field `word` is a string that is
trimmed, must then be 1 to 50 characters long, and must match
`/^[a-zA-Z\s-]+$/`. This project models that validator in Dafny and proves
what it accepts, what it rejects and with which messages.

Files and modules:

- `js_text.dfy`, module `JsText`: JavaScript string values as sequences of
  UTF-16 code units, the ECMA-262 whitespace set (WhiteSpace, section 12.2,
  and LineTerminator, section 12.3, of ECMA-262), and the UTF-16 encoding of
  a Dafny `string`.
- `trimming.dfy`, module `Trimming`: `String.prototype.trim`, an
  independent description of it (`IsTrimOf`), uniqueness, idempotence,
  padding, and an inward scan that finds the same bounds.
- `word_regex.dfy`, module `WordRegex`: the character class
  `[a-zA-Z\s-]` and the anchored pattern `^[…]+$`.
- `form_schema.dfy`, module `FormSchema`: `Validate`, the verdict datatype
  and the properties of the whole schema.

Design decisions:

- Lengths and the pattern work on UTF-16 code units, as JavaScript does.
  The pattern has no `u` flag, so a character above U+FFFF reaches it as
  two surrogate units. `JsText.Utf16` connects Dafny strings to this
  representation, and `JsText.FromUtf16` reads it back.
- `trim` and `\s` share one predicate, `JsText.IsWs`. It covers TAB, VT,
  FF, ZWNBSP, the Zs space separators, LF, CR, U+2028 and U+2029. U+180E is
  not in the set; Unicode 6.3 took it out of Zs.
- The checks run in the order they are declared. `trim` replaces the value
  first. `min`, `max` and `regex` then each test the trimmed value. A
  failing check does not stop the later ones, so `Invalid` carries one
  `Issue` for every check that failed, in declaration order. The lemmas
  speak only about which issues are present, never about their order.
- A blank value fails two checks at once. It fails `min(1)`, and it fails
  the pattern because `+` needs at least one character. The model keeps
  both issues.

The field's own message (src/lib/schema/form.ts:8) says "letters, hyphens,
and spaces", but `\s` in the pattern also admits tab, line feed, carriage
return, no-break space and every other ECMA-262 whitespace unit inside the
word. `FormSchema.InteriorWhitespaceAccepted` states this.

## Model

| member | source | states |
|---|---|---|
| `FormSchema.Validate` | src/lib/schema/form.ts:3-9 | an accepted value is a word: 1 to 50 units, every unit a letter, whitespace or hyphen, and no whitespace at either edge; a rejection always carries at least one message |
| `FormSchema.AcceptanceCharacterised` | src/lib/schema/form.ts:4-8 | the input is accepted as `w` exactly when `w` is the input with edge whitespace stripped, `w` has 1 to 50 units, and every unit of `w` is in the allowed class |
| `FormSchema.EmptyIssueIff` | src/lib/schema/form.ts:5-6 | "Cannot be empty" is reported exactly when the input is empty or all whitespace |
| `FormSchema.TooLongIssueIff` | src/lib/schema/form.ts:5-7 | the length message is reported exactly when the trimmed value is longer than 50 units |
| `FormSchema.BadCharsIssueIff` | src/lib/schema/form.ts:5-8 | the character message is reported exactly when the input is blank or has a unit outside `[a-zA-Z\s-]` anywhere in it |
| `FormSchema.PaddingIrrelevant` | src/lib/schema/form.ts:5-8 | whitespace added before or after the input never changes the verdict |
| `FormSchema.PaddedWordAccepted` | src/lib/schema/form.ts:5-8 | every well-formed word is accepted as itself, with any whitespace padding around it |
| `FormSchema.FiftyUnitsAccepted` | src/lib/schema/form.ts:7 | the length limit is inclusive: a well-formed word of exactly 50 units is accepted |
| `FormSchema.AcceptedSlice` | src/lib/schema/form.ts:5 | the accepted value is a contiguous slice of the input, with only whitespace before and after it |
| `FormSchema.VerdictDependsOnTrimOnly` | src/lib/schema/form.ts:5-8 | validating the trimmed input gives the same verdict as validating the raw input |
| `FormSchema.ValidateIdempotent` | src/lib/schema/form.ts:5-8 | validating an accepted value again accepts it unchanged |
| `FormSchema.InteriorWhitespaceAccepted` | src/lib/schema/form.ts:8 | a letter, any whitespace unit and a letter form an accepted word, so tabs and line breaks may appear inside a word |
| `FormSchema.AstralRejected` | src/lib/schema/form.ts:8 | a character above U+FFFF anywhere in the input is rejected with the character message |
| `FormSchema.SurrogateRejected` | src/lib/schema/form.ts:8 | a surrogate code unit anywhere in the input draws the character message, because the pattern has no `u` flag and surrogates are outside the class |
| `Trimming.Trim` | src/lib/schema/form.ts:5 | the trimmed value is no longer than the input and has no whitespace at either edge; it is empty exactly when the input is all whitespace |
| `Trimming.TrimCharacterised` | src/lib/schema/form.ts:5 | `t` is the trimmed value exactly when the input splits into a whitespace prefix, `t`, and a whitespace suffix, with no whitespace at the edges of `t` |
| `Trimming.TrimUnique` | src/lib/schema/form.ts:5 | any such split of the input has the trimmed value as its middle part |
| `Trimming.TrimIdempotent` | src/lib/schema/form.ts:5 | trimming a trimmed value changes nothing |
| `Trimming.TrimIgnoresPadding` | src/lib/schema/form.ts:5 | trimming removes any whitespace added at either end |
| `Trimming.ScanTrim` | src/lib/schema/form.ts:5 | scanning inwards from both ends past whitespace finds the bounds of the trimmed value |
| `Trimming.LeadingWs` | src/lib/schema/form.ts:5 | the count is the length of the longest whitespace prefix: every unit before it is whitespace and the next one is not |
| `Trimming.TrailingWs` | src/lib/schema/form.ts:5 | the count is the length of the longest whitespace suffix |
| `WordRegex.MatchesIff` | src/lib/schema/form.ts:8 | the anchored pattern `^[a-zA-Z\s-]+$` matches exactly the non-empty strings whose every unit is in the class |
| `JsText.IsWs` | src/lib/schema/form.ts:5-8 | the one whitespace set shared by `.trim()` and by `\s`: ECMA-262 WhiteSpace (TAB, VT, FF, ZWNBSP, the Zs separators) and LineTerminator (LF, CR, U+2028, U+2029) |
| `WordRegex.IsAllowedChar` | src/lib/schema/form.ts:8 | membership in the class `[a-zA-Z\s-]`: an ASCII letter, a whitespace unit, or a literal hyphen |
| `WordRegex.Matches` | src/lib/schema/form.ts:8 | the anchored pattern `^[a-zA-Z\s-]+$` as written: one class unit followed by the `+` repetition up to the end of the string |
| `Trimming.IsTrimOf` | src/lib/schema/form.ts:5 | the reference description of `trim`: a whitespace prefix, a body with no whitespace at either edge, and a whitespace suffix |
| `JsText.EncodeChar` | src/lib/schema/form.ts:4 | a character up to U+FFFF is one code unit with its own value; a higher one is a high surrogate followed by a low surrogate that together decode back to the character |
| `JsText.Utf16RoundTrip` | src/lib/schema/form.ts:4 | decoding the JavaScript string of a Dafny string gives back that string |
| `JsText.Utf16` | src/lib/schema/form.ts:4 | a string's JavaScript length is at least its number of characters, and equal to it exactly when no character is above U+FFFF; in that case each code unit is the value of the character at the same position |
| `JsText.AstralLeavesSurrogate` | src/lib/schema/form.ts:4 | a character above U+FFFF puts a surrogate code unit into the JavaScript string |

## Left out

- The lookup route (src/routes/api/v1/words/[word]/+server.ts) is not part of
  this model. It forwards the word to an external dictionary service over
  HTTP and maps the reply to a status code, so its behaviour is network
  I/O.
- src/routes/+page.server.ts is not part of this model. Its `load` hook
  only builds an empty form object through the forms library.
- svelte.config.js is not part of this model. It is build and deployment
  configuration.
- The form library's issue objects are not modelled: field paths, issue
  codes and the default text of the `max(50)` message. `Issue` names each
  failed check by a tag.
- Non-string input to `z.string()` is not modelled. The form always submits
  the field as a string.
- Rendering, form submission and the client/server round trip are not
  modelled. They are UI plumbing.
