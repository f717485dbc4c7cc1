# Registration form validation, modelled in Dafny

`script.js` drives a registration form with four inputs: e-mail, phone
number, password and password confirmation. This project models what that
script decides, not how it talks to the page:

- the three field rules: `isValidPassword`, `isValidEmail` (the regular
  expression `^[^\s@]+@[^\s@]+\.[^\s@]{2,}$`) and `isValidPhone`;
- the phone field's input handler, which keeps only the digits and cuts
  them to ten;
- `escapeHtml`;
- the submit handler's validation pass, which builds the ordered list of
  error messages, and the HTML list it shows for them;
- the `formStartTime` state, which is set on the first focus and cleared by
  a successful submit;
- the show/hide flip of an input's `type` between `password` and `text`.

Modules, in dependency order:

- `JsText`: the JavaScript string built-ins the script relies on. It covers
  the character classes `[A-Z]`, `[a-z]`, `\d` and `\s`, `trim()`, and
  `length` counted in UTF-16 code units.
- `FieldRules`: the three field rules.
  - Each rule is a hand-written matcher. For the password and phone rules
    the matcher's own contract states the language it accepts; for the
    e-mail rule `EmailMatcherCorrect` states it.
  - The e-mail matcher is proved equal to a direct reading of the regular
    expression as a split at an `@` and a later `.`.
- `PhoneInput`: the phone sanitiser.
- `HtmlEscape`: `escapeHtml` as four chained global replacements.
  - It is proved equal to escaping each character on its own.
  - It is proved free of markup characters, with every `&` starting an
    entity.
  - It is proved undone by entity decoding.
- `SubmitErrors`: the validation pass.
  - `CollectErrors` is the push-by-push method.
  - It is proved equal to `ExpectedErrors`, the reference definition: the
    checks that fire, kept in source order. The listed properties are
    proved about that.
- `Wrappers`: `Option`, standing for JavaScript `null` or a missing
  attribute.
- `FormSession`: the `Form` class. Its fields are `formStartTime` and the
  message box, and its methods are the focus and submit handlers.
- `PasswordToggle`: the `type` flip.

Strings are sequences of Unicode scalar values.

- JavaScript counts `length` and the `{2,}` quantifier in UTF-16 code
  units, so the password length and the final e-mail segment are measured
  with `Utf16Length`.
- Every character that a class or a delimiter in the script names lies in
  the Basic Multilingual Plane, so no surrogate pair is ever split.
- `\s` and `trim()` use the ECMAScript WhiteSpace and LineTerminator code
  points, which `IsWhitespace` lists.

The clock is a parameter: `OnFocus(now)` receives the time that `Date.now()`
would return.

## Model

| member | source | states |
|---|---|---|
| JsText.IsDigit | script.js:27 | definition, no contract: `\d` without the `u` flag is the ASCII digits `0`-`9` (also `\d{10}` at line 38 and `\D` at line 64) |
| JsText.IsUpper | script.js:25 | definition, no contract: `[A-Z]` is the range `A`-`Z` |
| JsText.IsLower | script.js:26 | definition, no contract: `[a-z]` is the range `a`-`z` |
| JsText.IsWhitespace | script.js:18 | definition, no contract: `\s`, and the set `trim()` strips at lines 82-83, taken to be the ECMAScript WhiteSpace and LineTerminator code points as listed in the predicate |
| JsText.Utf16Length | script.js:24 | `password.length`: between the number of scalar values and twice that, and equal to it when every character is in the Basic Multilingual Plane |
| JsText.Utf16LengthOne | script.js:24 | a single character counts as its own UTF-16 units: 1 in the Basic Multilingual Plane, 2 above it; with `Utf16LengthAppend` this fixes `length` of every string |
| JsText.Utf16LengthAppend | script.js:24 | the code-unit length of a concatenation is the sum of the lengths |
| JsText.TrimStart | script.js:82 | the result is a suffix of the input, everything dropped is whitespace, and the result is empty or starts with a non-whitespace character |
| JsText.TrimEnd | script.js:82 | the result is a prefix of the input, everything dropped is whitespace, and the result is empty or ends with a non-whitespace character |
| JsText.TrimOffset | script.js:82 | the number of leading characters `trim()` removes: all of them whitespace, followed by the end or a non-whitespace character |
| JsText.Trim | script.js:82-83 | the trimmed value neither starts nor ends with whitespace |
| JsText.TrimIsPiece | script.js:82-83 | the trimmed value is the contiguous piece of the input that starts at `TrimOffset` |
| JsText.TrimCutsWhitespace | script.js:82-83 | everything cut away after the piece is whitespace |
| JsText.TrimEmptyIffBlank | script.js:82-83 | the trimmed value is empty exactly when the raw value is all whitespace |
| JsText.TrimIdempotent | script.js:82-83 | trimming twice gives what trimming once gives |
| FieldRules.Occurs | script.js:25-27 | an unanchored one-character class test holds exactly when some character of the string is in the class |
| FieldRules.Repeats | script.js:38 | `^[X]{n}$` holds exactly when the string has length n and every character is in the class |
| FieldRules.IsValidPassword | script.js:21-29 | true exactly when the UTF-16 length is at least 8 and there is an upper-case letter, a lower-case letter and a digit |
| FieldRules.IsValidPhone | script.js:37-39 | true exactly when the value has length 10 and every character is a decimal digit |
| FieldRules.PlainPrefix | script.js:18 | length of the longest leading run of characters that are neither whitespace nor `@` |
| FieldRules.IsValidEmail | script.js:32-34 | no contract of its own: `emailRegex.test(email)` as a matcher for the plain prefix, an `@` and a domain; `EmailMatcherCorrect` states the language it accepts |
| FieldRules.EmailMatcherCorrect | script.js:32-34 | `isValidEmail` accepts exactly the strings that split as local `@` domain `.` final segment, where each part is free of whitespace and `@` and the final segment has at least 2 code units |
| FieldRules.EmailAcceptedShape | script.js:18 | an accepted address contains exactly one `@`, contains no whitespace, and has a non-empty part before the `@` |
| FieldRules.EmailAcceptedDomain | script.js:18 | after the `@` of an accepted address come a non-empty segment, a `.` and a final segment of at least 2 code units free of whitespace and `@` |
| FieldRules.EmailWithoutAtRejected | script.js:32-34 | a string with no `@` is rejected |
| FieldRules.EmailWithoutDotRejected | script.js:32-34 | a string with no `.` after an `@` is rejected |
| FieldRules.EmailFromParts | script.js:18 | conversely, any non-empty plain local part, `@`, non-empty plain domain, `.` and plain final segment of at least 2 code units is accepted |
| FieldRules.SingleAt | script.js:18 | an `@` with only plain characters on both sides is the only `@` in the string |
| FieldRules.ExampleEmail | script.js:18 | `user@example.com`, the address the error message suggests, is accepted |
| FieldRules.ExampleEmailNoDot | script.js:18 | `user@example` is rejected |
| FieldRules.ExampleEmailNoLocalPart | script.js:18 | `@example.com` is rejected |
| FieldRules.ExamplePhone | script.js:38 | `1234567890` is accepted |
| FieldRules.ExamplePhoneShort | script.js:38 | `12345` is rejected |
| FieldRules.ExamplePhoneLetters | script.js:38 | `12345abcde` is rejected |
| FieldRules.ExamplePassword | script.js:21-29 | `Abcdefg1` is accepted |
| FieldRules.ExamplePasswordNoUpper | script.js:25 | `abcdefg1` is rejected |
| FieldRules.ExamplePasswordNoLower | script.js:26 | `ABCDEFG1` is rejected |
| FieldRules.ExamplePasswordNoDigit | script.js:27 | `Abcdefgh` is rejected |
| FieldRules.ExamplePasswordShort | script.js:24 | `Ab1` is rejected |
| PhoneInput.KeepDigits | script.js:64 | `replace(/\D/g, '')` keeps only digits and never lengthens the value |
| PhoneInput.KeepDigitsDropsOthers | script.js:64 | a value without digits is stripped to the empty string: non-digits are removed, not replaced |
| PhoneInput.SanitizeDropsTrailingOthers | script.js:64 | up to 10 digits followed by non-digits are sanitised to exactly those digits |
| PhoneInput.ExampleSanitizeLetters | script.js:64 | `12345abcde` is sanitised to `12345` |
| PhoneInput.SliceTo | script.js:64 | `slice(0, n)` is the prefix of length min(length, n) |
| PhoneInput.SanitizePhone | script.js:64 | the sanitised value holds only digits and has at most 10 characters |
| PhoneInput.KeepDigitsAppend | script.js:64 | stripping non-digits distributes over concatenation |
| PhoneInput.KeepDigitsKeepsEveryDigit | script.js:64 | every digit of the input is kept |
| PhoneInput.SanitizeKeepsCleanInput | script.js:64 | an input of at most 10 digits comes back unchanged |
| PhoneInput.SanitizeIdempotent | script.js:64 | sanitising twice gives what sanitising once gives |
| PhoneInput.SanitizedPhoneValid | script.js:64 | the result is the first digits of the input, and it passes `isValidPhone` exactly when the input held at least 10 digits |
| HtmlEscape.EscapeHtml | script.js:137-143 | no contract of its own: the four chained global replacements, `&` first; the rows below state what they produce |
| HtmlEscape.EscapeHtmlIsPerCharacter | script.js:137-143 | the four chained replacements, `&` first, equal escaping each character on its own, so no entity is escaped twice |
| HtmlEscape.EscapeHtmlNoMarkup | script.js:137-143 | the escaped text contains no `<`, `>` or `"` |
| HtmlEscape.EscapeHtmlAmpersands | script.js:137-143 | every `&` in the escaped text begins `&amp;`, `&quot;`, `&lt;` or `&gt;` |
| HtmlEscape.EscapeHtmlPlainText | script.js:137-143 | text with none of `& " < >` is returned unchanged |
| HtmlEscape.EscapeHtmlRoundTrip | script.js:137-143 | decoding the four entities in the escaped text gives back the original text |
| HtmlEscape.EscapeHtmlChar | script.js:139-142 | escaping one character yields its entity, or the character itself when it is not special |
| SubmitErrors.Error.Text | script.js:88-107 | no contract of its own: the eight message texts the handler pushes |
| SubmitErrors.ReadFields | script.js:82-85 | no contract of its own: e-mail and phone are read trimmed, the passwords as typed; `RequiredAfterTrim` and `Validate` state what that means for the checks |
| SubmitErrors.Rank | script.js:88-108 | every error has a position in the handler's check order |
| SubmitErrors.CollectErrors | script.js:79-108 | the list the pushes build equals `ExpectedErrors`: the checks that fire, in source order |
| SubmitErrors.Validate | script.js:81-108 | the validation pass on raw inputs (e-mail and phone trimmed, passwords as typed) builds `ExpectedErrors` of the values read |
| SubmitErrors.FilterCheckOrder | script.js:88-108 | the expected list is one optional entry per check, taken in source order |
| SubmitErrors.ErrorsReported | script.js:88-108 | an error is in the list exactly when its check fires |
| SubmitErrors.ErrorsInCheckOrder | script.js:88-108 | the list is strictly in check order, so it has no repeats; every required error precedes every other error, and no format error follows the mismatch error |
| SubmitErrors.NoFieldReportedTwice | script.js:88-104 | no field is reported both as missing and as malformed |
| SubmitErrors.MismatchReportedLast | script.js:106-108 | the mismatch error is present exactly when both passwords are non-empty and differ, and then it is the last entry |
| SubmitErrors.MismatchIsLast | script.js:106-108 | in any list in check order, the mismatch error can only be last |
| SubmitErrors.AllEmptyErrors | script.js:88-91 | all four fields empty give exactly the four required messages, in the order e-mail, phone, password, confirmation |
| SubmitErrors.NoErrorsIffValid | script.js:88-111 | the list is empty exactly when all four fields are filled, each passes its rule and the two passwords are equal |
| SubmitErrors.OnlyMismatch | script.js:106-108 | valid fields with a different non-empty confirmation give only the mismatch message |
| SubmitErrors.RequiredAfterTrim | script.js:82-89 | the e-mail or phone required error fires exactly when the raw input is all whitespace |
| SubmitErrors.ListItem | script.js:114 | no contract of its own: one escaped message inside `<li>` tags; `ListItemCount` counts its tags |
| SubmitErrors.ListItems | script.js:114 | no contract of its own: the items joined without separator; `ListItemsTags` counts their tags |
| SubmitErrors.ErrorListHtml | script.js:113-115 | no contract of its own: the header, the items and the closing `</ul>`; `ErrorListHtmlTags` counts its tags |
| SubmitErrors.ErrorListHtmlTags | script.js:113-115 | the error HTML holds the header's `<` and `>`, two more of each per error, and one more for `</ul>`: no message text can add a tag |
| SubmitErrors.ListItemsTags | script.js:113-115 | whatever the messages say, the item part of the error HTML has exactly two `<` and two `>` per message, all from the `<li>` tags |
| SubmitErrors.ListItemCount | script.js:114 | one `<li>` item holds exactly two `<` and two `>` |
| SubmitErrors.EscapedCounts | script.js:114 | an escaped message adds no `<` or `>` to the item |
| FormSession.Form.constructor | script.js:7 | the start time begins as `null`; the message box beginning hidden and empty is an assumption about the page's markup, which the script does not set |
| FormSession.Form.OnFocus | script.js:69-73 | a focus records `now` only when no start time is set; otherwise it leaves the start time unchanged |
| FormSession.Form.OnSubmit | script.js:76-129 | returns `ExpectedErrors` of the values read. With errors, it shows the error list HTML and keeps the start time. Without errors, it shows the success message and resets the start time to `null` |
| FormSession.Form.Show | script.js:111-129 | shows the error HTML for a non-empty list; for an empty list, shows the success message and clears the start time |
| FormSession.FocusSubmitFocus | script.js:69-129 | on a new form, a second focus is ignored. A rejected submit keeps the first start time. An accepted submit clears it, so the next focus starts a new measurement |
| PasswordToggle.NextType | script.js:54-55 | the new type is `text` exactly when the current type is `password`, and `password` otherwise |
| PasswordToggle.ToggleTwice | script.js:54-55 | two clicks restore a `password` or `text` field |
| PasswordToggle.ToggleFromOther | script.js:54-55 | any other type becomes `password`, and then `text` |

## Left out

- jQuery wiring is not modelled: caching the selectors, registering the
  handlers, and `event.preventDefault()` (script.js:10-15, 50, 62, 69, 76-77).
  These are browser side effects with no decision in them.
- `showMessage` (script.js:42-47) is modelled only as the two fields it
  leaves behind: the HTML and whether the box is an error or a success. Its
  class toggling on the element is not modelled.
- The phone handler's write-back into the input (script.js:65) is left out,
  because it is a DOM update. `SanitizePhone` is the value written.
- The toggle handler's lookup of its target through `data-target`, and its
  early return when nothing matches (script.js:51-53), are left out as DOM
  queries. `NextType` is the flip applied to a target that exists.
- The toggle label (script.js:57-58) is left out: both branches give the
  same text.
- The elapsed-time computation on a successful submit (script.js:118-124) is
  left out. It reads the clock and formats a floating-point number with
  `toFixed`, and `elapsedText` is never shown.
- The `typeof password !== 'string'` guard (script.js:22) is left out,
  because the model's inputs are always strings, as `.val()` returns for
  text inputs. For the same reason, the `String(str)` conversion in
  `escapeHtml` is the identity here.
- The `i` flag of the e-mail regular expression does not matter, because
  the pattern names no letter.
- Lone surrogate code units cannot occur in a Dafny string. Inputs holding
  them are outside the model.
- HtmlEscape.ReplaceAll carries no contract of its own. It stands for
  `String.prototype.replace` with a global one-character pattern, and
  what it does is stated through `EscapeHtmlIsPerCharacter`.
