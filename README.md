# Contact-form validation, modelled in Dafny

This project models the contact-form part of the site's `script.js`:

- Each field has a rule, `validateField`. It trims the value, then picks at most one error message through a fixed chain:
  1. required;
  2. email address (`isValidEmail`);
  3. length of a textarea or of an input;
  4. suspicious content (`containsSuspiciousContent`).
- Each field shows or hides its error: the `error` class on the control and an `error-message` box after it (`showFieldError`, `clearFieldError`).
- The whole form is validated by `validateForm`, and all errors are cleared by `clearErrors`.
- The handlers that `initContactForm` installs:
  - blur validates one field;
  - input hides its error;
  - submit first checks the `website` honeypot, then validates, then shows success, resets the form and clears its errors.

The project has four modules.

- `Options` holds the optional-value datatype.
- `Text` holds the string primitives the script relies on:
  - `String.prototype.trim`, and the regex class `\s` with ECMAScript's exact whitespace set;
  - `String.prototype.length`, which counts UTF-16 code units;
  - substring search, with and without ASCII case folding.
- `Rules` holds the pure rule of one field and the two patterns it uses.
  - The regexes are replaced by explicit decision procedures.
  - Each procedure is proved to accept exactly what the regex accepts.
- `ContactForm` holds the form.
  - A field is a value: its control, its current value, its error class and its error box.
  - Pure functions describe what each operation does to a field or to the whole form.
  - Lemmas state what the script promises about those functions.
  - The class `Form` holds the page's fields as a `seq` that its methods update in place.
    - `ValidateForm` walks the fields in a loop, as the `forEach` in `validateForm` does.
    - `ClearErrors` does the same two passes as `clearErrors`.
    - Each method is proved against the pure function that describes it.

Some behaviour comes from the code, not from the documentation around it:

- Lengths are compared in UTF-16 code units, so a character outside the Basic Multilingual Plane counts twice.
- An email field never reaches the content check. `<script@x.io` is accepted as an address.
- The honeypot check tests the raw, untrimmed value of the first control named `website`, whatever its tag.
- Only inputs named `website` are excluded from validation and from the blur and input handlers.
- `form.reset()` restores values and leaves the error display alone.
  - A bot submission that hits the honeypot keeps every error that was showing.
  - After a successful submit the errors are cleared explicitly, after the reset.

## Model

| member | source | states |
|---|---|---|
| `Text.TrimIsTrimmedSlice` | script.js:102 | trim returns the one slice with only whitespace outside it and non-whitespace at both its ends |
| `Text.TrimEmptyIff` | script.js:102 | a value trims to the empty string exactly when every character of it is whitespace |
| `Text.TrimIdempotent` | script.js:102 | trimming a trimmed value changes nothing |
| `Text.TrimPadded` | script.js:102 | whitespace added on either side does not change what a value trims to |
| `Text.Utf16Length` | script.js:118-120 | the length lies between the character count and twice it, and equals the count exactly when every character is in the Basic Multilingual Plane |
| `Text.IndexOf` | script.js:142 | the first position of a character, or none exactly when it does not occur |
| `Text.ContainsIff` | script.js:150-151 | the unanchored search finds a token exactly when it occurs at some position |
| `Rules.IsValidEmailMatchesPattern` | script.js:141-144 | the address check accepts exactly the strings that split into a run, '@', a run, '.', a run, each run non-empty without whitespace or '@' |
| `Rules.SuspiciousIffBlockedToken` | script.js:149-152 | content is suspicious exactly when one of the five blocked tokens occurs in it, ignoring ASCII case |
| `Rules.ChosenErrorIsMessage` | script.js:104-127 | a chosen error is always one of the five fixed messages |
| `Rules.RequiredIffBlank` | script.js:102-109 | "This field is required" is chosen exactly for a required field whose value is all whitespace |
| `Rules.OptionalBlankPasses` | script.js:107-127 | a blank field that is not required always passes |
| `Rules.EmailFieldOutcome` | script.js:111-115 | a non-blank email field fails only with the email message, and exactly when its trimmed value does not match the address pattern |
| `Rules.LengthLimit` | script.js:117-122 | a non-blank non-email field gets its tag's length message exactly when the trimmed value has more UTF-16 units than 500 (textarea) or 100 (input), and never the other tag's message |
| `Rules.ContentCheck` | script.js:123-126 | within the length limit, such a field fails with "Invalid characters detected" exactly when a blocked token occurs, and passes otherwise |
| `Rules.PaddingIsIgnored` | script.js:102 | whitespace around a value never changes the outcome |
| `Rules.AddressWithoutAtIsRefused` | script.js:111-115 | a non-blank email field without '@' is refused as an address |
| `Rules.NotAnEmailIsRefused` | script.js:111-115 | "not-an-email" in an email field is refused as an address |
| `Rules.LongMessageIsRefused` | script.js:118-119 | 501 letters in a textarea are too long |
| `Rules.ScriptTagIsRefused` | script.js:123-126 | a script tag in an input is refused for its content |
| `Rules.EmailSkipsContentCheck` | script.js:111-127 | a well-formed address in an email field is accepted, whatever tokens it holds |
| `Rules.ScriptAddressBypassesContentCheck` | script.js:111-127 | "<script@x.io" matches the address pattern and holds a blocked token |
| `ContactForm.FirstNamed` | script.js:49 | the first field with the name, or none exactly when no field has it |
| `ContactForm.CheckedAgrees` | script.js:129-135 | after validation a field displays exactly its verdict, its error class is on exactly when an error was chosen, and its value and control are unchanged |
| `ContactForm.CheckedFixesAgreeing` | script.js:129-135 | validation leaves a field unchanged exactly when its display already agrees with its value |
| `ContactForm.CheckedIdempotent` | script.js:101-136 | validating an unchanged field twice gives the same verdict and the same state as once |
| `ContactForm.ClearedHidesOnly` | script.js:174-180 | clearing removes the error class and hides the box, and keeps the box's text, the value and the control |
| `ContactForm.CheckAllVisitsEveryField` | script.js:85-96 | form validation updates the display of every validated field, not only up to the first failure, and leaves the honeypot alone |
| `ContactForm.AllValidIffNoErrorShown` | script.js:85-96 | the form is valid exactly when no validated field shows an error afterwards |
| `ContactForm.HoneypotSubmitOnlyResets` | script.js:48-54 | a filled honeypot resets every value, validates nothing, fires no success and leaves every error display as it was |
| `ContactForm.SubmitSucceedsIff` | script.js:45-66 | success fires exactly when the honeypot is empty and every validated field passes |
| `ContactForm.SuccessfulSubmitResets` | script.js:59-65 | after a success every value is back to its default and no error is showing |
| `ContactForm.FailedSubmitKeepsValues` | script.js:56-65 | a rejected submit keeps every value, shows each validated field's verdict and shows at least one error |
| `ContactForm.StepsKeepConsistency` | script.js:157-194 | validation, reset, clearing and submit keep each field's error class and visible box together |
| `ContactForm.Form.constructor` | script.js:41-43 | the page starts with default values and no error shown |
| `ContactForm.Form.ShowFieldError` | script.js:157-169 | the error class goes on, and the field's box (created if missing) shows the message; no other field changes |
| `ContactForm.Form.ClearFieldError` | script.js:174-180 | the error class goes off and an existing box is hidden; no other field changes |
| `ContactForm.Form.ValidateField` | script.js:101-136 | returns true exactly when no message is chosen, and leaves the field showing its verdict |
| `ContactForm.Form.ValidateForm` | script.js:85-96 | validates every validated field in order and returns whether all passed |
| `ContactForm.Form.ClearErrors` | script.js:185-194 | hides every box and removes every error class, keeping values and texts |
| `ContactForm.Form.ResetForm` | script.js:52 | every value goes back to its default, and the error display is untouched |
| `ContactForm.Form.ShowSuccessMessage` | script.js:199-213 | the success message fires once more and no field changes |
| `ContactForm.Form.OnBlur` | script.js:69-73 | validates the field unless it is an input named "website" |
| `ContactForm.Form.OnInput` | script.js:75-78 | hides the field's error at once, without validating, unless it is an input named "website" |
| `ContactForm.Form.OnSubmit` | script.js:45-66 | the fields and the success count end as the submit outcome describes |

## Left out

- `initNavigation` (script.js:19-36) is not modelled. It only toggles a CSS class on the menu.
- `initContactInfoProtection` (script.js:218-243) is not modelled. It decodes Base64 with the browser's `atob` and rewrites the DOM.
- `showSuccessMessage` is modelled as a counter of how often it fired. Not modelled:
  - its text and styling;
  - its two timers, which fade the message after 4 s and remove it 300 ms later.
- Page wiring is not modelled:
  - the `DOMContentLoaded` listener;
  - the `if (!form) return` guard;
  - listener registration;
  - `e.preventDefault()`.

  The `Form` class stands for a page on which the form exists.
- The DOM is replaced by a sequence of fields.
  - A field's error box belongs to the field. The model does not represent sibling order, `nextElementSibling`, or another element that happens to follow a control.
  - Only inputs and textareas are represented. A select or button element is not.
  - `field.name || field.id` is computed by `validateField` and never used, so it is left out.
- The user's typing is an explicit `Form.Edit` call. The browser's event loop and the order in which events arrive are outside the model.
- JavaScript strings can hold lone surrogates. Dafny's `char` cannot, so such values are outside the model.
- The two regular expressions are not run by a regex engine. Each is replaced by a decision procedure that is proved to accept exactly what the expression describes.
