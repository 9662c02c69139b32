# Brightwood Academy page script: validation, submission, navigation and phone mask

This project models in Dafny the parts of the Brightwood Academy admissions
page script (`script.js`) that hold its logic. The parts are:

- **Phone mask** (`formatPhoneNumber`). Every non-digit is deleted. The
  digits are then laid out as `ddd`, `(ddd) ddd` or `(ddd) ddd-dddd`, and
  at most ten are kept. Module `PhoneFormat` proves the following about it:
  - the output digits are the first ten input digits, in order;
  - every output has the mask's shape;
  - the mask is idempotent;
  - shape and digits together determine the output.
- **Field rules** (`validateField`). The value is trimmed, then four rules
  apply in order: required-and-blank, the email pattern, the telephone
  pattern, and the date-of-birth range. Module `FieldRules` models the two
  regular expressions as predicates on strings. It shows that the email
  pattern matches exactly the strings of one structural description. It
  shows that the telephone rule accepts exactly the values with 7 to 15
  digits, separators anywhere, and at most one `+`, placed before every
  digit. It proves which message each input produces.
- **Field state** (`showFieldError`, `clearFieldError`, `validateField`,
  and the `input` listeners). Module `FieldState` has a class `Field`. Its
  fields are the control's value, its `is-invalid` flag and the list of
  `.invalid-feedback` texts in its container. Between events the page shows
  at most one message. After a validation the page shows exactly the
  verdict of the rule chain.
- **Submission** (`validateForm`, `handleFormSubmission`, the 2000 ms timer).
  Module `Submission` has a class `Form` that owns the controls, the
  button, the form's visibility and the acknowledgment panel. Validation
  visits every required control; a failure does not stop it. An accepted
  submission moves Idle -> Submitting. The timer callback is an explicit
  step and moves the form to Acknowledged.
- **Navigation highlighting** (`updateActiveNavLink`). Module `Navigation`
  has a loop that finds the last section whose adjusted range holds the
  scroll offset. A second loop sets each link's `active` flag exactly when
  its href names that section.

Module `Text` holds JavaScript's white-space class, `trim`, and the
character-deleting `replace` calls. Module `Wrappers` holds `Option`.

Values the browser supplies are parameters of the operations:
- `window.scrollY`;
- the navbar's height;
- each section's `offsetTop` and `offsetHeight`;
- what `new Date(...)` makes of a field's text, as an optional day number;
- the date bounds that `today` yields.

The model follows the code in these cases:
- A date text that does not parse gives an invalid `Date`. Both of its
  comparisons with the bounds are false, so the date rule accepts it.
- The telephone rule deletes every JavaScript white-space character, not
  only the space.
- When no section holds the scroll offset, `currentSection` is `''`. A link
  whose href is exactly `#` then becomes active. This is stated in
  `Navigation.NoMatchActivatesBareHash`.

## Model

| member | source | states |
|---|---|---|
| Text.KeepFacts | script.js:292 | deleting a character class only deletes: the result is no longer than the input, every kept character is in the class, and an input wholly in the class is unchanged |
| Text.KeepAppend | script.js:292 | deleting characters distributes over concatenation |
| Text.KeepKeep | script.js:141-142 | deleting with a weaker class and then a stronger one equals deleting with the stronger one |
| Text.KeepAgree | script.js:142 | two classes that agree on every character of the input leave the same string |
| Text.KeepNone | script.js:292 | the filter leaves the empty string exactly when no character of the input is in the class |
| Text.DigitsFacts | script.js:292 | `replace(/\D/g, '')` leaves only ASCII digits, is no longer than its input, and leaves an all-digit string alone |
| Text.DigitsAppend | script.js:292 | the digits of a concatenation are the concatenated digits |
| Text.TrimStartFacts | script.js:125 | removing leading white space removes a white-space prefix and nothing more, and leaves no white space first |
| Text.TrimEndFacts | script.js:125 | removing trailing white space removes a white-space suffix and nothing more, and leaves no white space last |
| Text.TrimIsSlice | script.js:125 | `trim()` yields one contiguous slice of the input with only white space outside it and none at either end |
| Text.TrimEmptyIff | script.js:131 | the trimmed value is empty exactly when every character is white space |
| PhoneFormat.DigitsSkip | script.js:293-295 | punctuation between two strings adds no digits |
| PhoneFormat.DigitsOfMask | script.js:294-295 | the parentheses, space and dash of the mask add no digits |
| PhoneFormat.RenderDigits | script.js:293-295 | the digits of the laid-out string are the first ten digits of the digit string |
| PhoneFormat.RenderWellFormatted | script.js:293-295 | each of the three layouts has the mask's shape |
| PhoneFormat.RenderTake10 | script.js:295 | digits past the tenth never change the layout |
| PhoneFormat.WellFormattedIsFixed | script.js:291-296 | formatting a string already in the mask's shape returns it unchanged |
| PhoneFormat.FormatKeepsDigits | script.js:291-296 | the output's digits are the first min(10, n) digits of the input, in order |
| PhoneFormat.FormatIsWellFormatted | script.js:291-296 | every output is `ddd` (up to three digits), `(ddd) d..ddd`, or `(ddd) ddd-d..dddd` |
| PhoneFormat.FormatIdempotent | script.js:286-288 | reformatting the mask's own output changes nothing, so reformatting on every keystroke is stable |
| PhoneFormat.FormatCharacterized | script.js:291-296 | any string with the mask's shape whose digits are the input's first ten digits is the mask's output |
| PhoneFormat.FormatExample | script.js:291-296 | `(555) 123-4567` is left as it is |
| FieldRules.IndexOf | script.js:135 | the first position of a character, or the length when there is none |
| FieldRules.NoAtCount | script.js:135 | a string without `@` counts no `@` |
| FieldRules.IndexOfAt | script.js:135 | a position holding `c` with no `c` before it is the first `c` |
| FieldRules.PatternGivesShape | script.js:135 | a split matching `^[^\s@]+@[^\s@]+\.[^\s@]+$` means no white space, exactly one `@`, and a dot after it with characters on both sides |
| FieldRules.ShapeGivesPattern | script.js:135 | the converse: such a string splits as the pattern requires at its only `@` |
| FieldRules.EmailPatternIff | script.js:135-136 | the email pattern accepts exactly the strings of that shape |
| FieldRules.TelValidSound | script.js:141-142 | an accepted telephone value has 7 to 15 digits, only digits, separators and `+`, at most one `+`, and no digit before a `+` |
| FieldRules.PatternFacts | script.js:141 | a match of `^[\+]?[0-9]{7,15}$` has 7 to 15 digits, only digits and `+`, and at most one `+`, which can only be the first character |
| FieldRules.StripAround | script.js:142 | around a `+`, stripping separators and extracting digits work on the two sides separately, and the `+` is counted once |
| FieldRules.PlusLeads | script.js:141-142 | in an accepted value no digit comes before a `+` |
| FieldRules.StrippedCharacters | script.js:142 | each character of the value is a separator or survives the deletion of separators |
| FieldRules.PlusCount | script.js:142 | deleting separators keeps every `+` |
| FieldRules.TelValidComplete | script.js:141-142 | every value with 7 to 15 digits, separators anywhere and at most one `+` ahead of all digits is accepted |
| FieldRules.StripIsDigits | script.js:142 | without `+`, stripping the separators leaves exactly the digits |
| FieldRules.TelValidIff | script.js:141-142 | the telephone rule accepts exactly the values of that shape |
| FieldRules.DigitRunAccepted | script.js:141 | 7 to 15 bare digits are accepted |
| FieldRules.LeadingPlusAccepted | script.js:141 | a `+` followed by 7 to 15 digits is accepted |
| FieldRules.TrailingPlusRejected | script.js:141-142 | a `+` after a digit is rejected |
| FieldRules.FormattedPhonePassesTel | script.js:141-142 | the mask's output passes the telephone rule once seven digits have been typed |
| FieldRules.CheckValidIff | script.js:123-159 | a field passes exactly when it is not required-and-blank and its type's rule holds of the trimmed value |
| FieldRules.CheckMessage | script.js:131-155 | each of the four messages appears exactly when its rule is the first to fail, and no other message appears |
| FieldRules.RequiredBlankFails | script.js:131-133 | a required field of white space fails with the required message, whatever its type |
| FieldRules.OptionalBlankEmailOrTelFails | script.js:134-144 | an optional blank email or telephone field still fails |
| FieldRules.OptionalBlankDatePasses | script.js:146 | an optional blank date field passes |
| FieldRules.DateRangeIff | script.js:146-154 | a non-blank date passes exactly when its day lies in the closed range, and always when it does not parse |
| FieldRules.DateExamples | script.js:146-154 | ten years ago passes; twenty-six years ago and two years ago fail with the date message |
| FieldRules.EmailExamples | script.js:135 | `a@b.co` matches and `bad@` does not |
| FieldRules.TelExamples | script.js:141-142 | `1234567` is accepted and `123` is not |
| FieldState.Messages | script.js:157 | at most one message, and none exactly for a pass |
| FieldState.DropFirst | script.js:172 | the list loses its first node when it has one, and a list of at most one node becomes empty |
| FieldState.Field.constructor | script.js:78-81 | a fresh control shows no error |
| FieldState.Field.ClearFieldError | script.js:169-173 | the error class is gone and the first feedback node removed; from a consistent state nothing is left |
| FieldState.Field.ShowFieldError | script.js:161-167 | the error class is set and one node with the message is appended |
| FieldState.Field.ValidateField | script.js:123-159 | the result is true exactly when the rule chain passes; the error class is its negation; the feedback is the old list minus its first node plus the verdict's message, and from a consistent state exactly that message |
| FieldState.Field.OnInput | script.js:286-288 | the typed text is stored and masked on the contact-number field; the error is cleared first |
| FieldState.RepeatedBlur | script.js:79 | blurring a valid control twice shows the same list both times: the rule chain's message, at most one node |
| Submission.Form.constructor | script.js:72-82 | after page load: no errors, button ready, form shown, panel hidden, no timer |
| Submission.Form.ValidateForm | script.js:115-121 | every required control shows its own verdict, other controls are untouched, and the result is true exactly when every required control passes |
| Submission.Form.HandleFormSubmission | script.js:84-96 | accepted exactly when validation passes; then the button is disabled, shows the busy label and one more timer is pending, Idle becoming Submitting; otherwise the button, form and panel are unchanged |
| Submission.Form.TimerFires | script.js:98-109 | the form is hidden, the panel shown, the button restored, one timer consumed: the phase is Acknowledged |
| Submission.ValidSubmissionRun | script.js:84-109 | a form whose only required control is filled goes Idle, Submitting, Acknowledged |
| Submission.BlankRequiredRun | script.js:131-133 | a blank required control blocks the submission with exactly the required message, and an untouched optional control shows nothing |
| Navigation.LastMatch | script.js:55-62 | the index returned is in range, its section contains the offset and no later one does; no index means no section does |
| Navigation.FindCurrentSection | script.js:55-62 | the loop ends with the id of the last containing section, or `''` |
| Navigation.NavLink.constructor | script.js:52 | a link starts inactive with its href |
| Navigation.UpdateActiveNavLink | script.js:50-67 | the current section is found as above, and each link is active exactly when its href is `#` followed by that id |
| Navigation.DisjointRangesSelect | script.js:55-62 | when sections do not overlap, the section containing the offset is the current one |
| Navigation.OnlyOneActive | script.js:64-66 | with distinct hrefs, an active link is the only active one |
| Navigation.NoMatchActivatesBareHash | script.js:55-66 | with no containing section the current id is `''` and a bare `#` link is active |
| Navigation.ThreeSectionsRun | script.js:50-66 | with three stacked sections and the offset in the second one's adjusted range, the current section is the second and only its link is active |

## Left out

- Smooth scrolling on link clicks, the collapsing mobile menu, and `scrollIntoView` are left out. They are browser and Bootstrap calls with no logic of their own.
- The 50 ms `debounce` is left out. It changes only when `updateActiveNavLink` runs, not what it computes.
- The navbar style set at load, the scroll-triggered fade-in, the parallax hero, and the confetti of `showSuccessAnimation` are left out. They are decorative style changes.
- `console.log` and `FormData` are left out. They are output and a snapshot with no effect on the page state.
- Date parsing and `new Date()` are parameters: a field's parsed date is an optional day number, and the bounds are two day numbers. Calendar arithmetic on years and months is not modelled. Nor is the time of day at which an ISO date string and the local bounds fall.
- `FieldRules.DateExamples` states the calendar examples with day numbers that stand for the dates, because the calendar is not modelled.
- DOM queries are replaced by the collections they return. `Form.fields` holds the controls that `[required]` selects, together with the others. The links are the sequence passed in.
- Each control's feedback list is the `.invalid-feedback` nodes of its own container. Controls that share a container are not modelled.
- Scroll offsets and element sizes are integers. Fractional `scrollY` values are not modelled.
- Unicode beyond single code points is not modelled. JavaScript strings are UTF-16, while Dafny's `char` is a code point. No pattern here treats surrogate pairs differently.
- `Submission.Form` assumes that the submit button and the `#acknowledgmentMessage` panel exist. Without them the script throws part-way through a submission or a timer callback; those paths are not modelled.
- `Submission.Form.HandleFormSubmission`: `e.preventDefault()` is not modelled. It only keeps the browser from navigating.
