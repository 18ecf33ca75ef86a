# Portfolio page behaviour, modelled in Dafny

This project models the decision logic of a single-page portfolio site. The
source is `app.js`, a `PortfolioApp` class that wires DOM event handlers. The
model keeps the rules those handlers apply and drops the DOM:

- **Text** (`text.dfy`): ECMAScript white space, and `String.prototype.trim`.
  `IsWhitespace` is the WhiteSpace and LineTerminator set, the same set the
  regular-expression class `\s` uses.
- **Addresses** (`email.dfy`): the contact form's address pattern
  `/^[^\s@]+@[^\s@]+\.[^\s@]+$/`. It is read two ways: literally, as a split
  into run, "@", run, ".", run; and as an executable check (no white space,
  one "@", non-empty local part, a "." inside the domain). A lemma proves
  the two accept the same strings.
- **Validator** (`validator.dfy`): `validateField` as a pure verdict per
  field kind, plus the way the verdict is painted onto an input and its error
  element. Also `clearError`, the input handler that removes an error.
- **ContactForm** (`contact_form.dfy`): the submit handler and the delayed
  completion of `handleFormSubmission`. The form holds four optional inputs,
  the submit button's label and disabled flag, a queue of submissions whose
  timers have not fired yet, and the notifications shown. Submit validates
  every input; on success it disables the button and queues the send. The
  timer's firing is a separate transition, `Complete`.
- **Reveal** (`reveal.dfy`): the scroll-animation observer callback, which
  marks intersecting elements `animate-in` and never unmarks anything.
- **ActiveLinks** (`active_links.dfy`): the active-nav-link observer
  callback. Each intersecting entry clears every link and activates the first
  link whose `href` is `#id`.
- **Navigation** (`navigation.dfy`): the navbar's `scrolled` flag, the
  offset an in-page anchor scrolls to, and the mobile menu. A click is
  composed in bubbling order: the anchor's own listener, the hamburger
  toggle, then the document's outside-click close.
- **Options** (`options.dfy`): the `Option` type used throughout.

Where the page may lack an element and the source checks for it (an input,
an error element, the hamburger or the menu), the model carries an `Option`.
The source then skips the corresponding update, and so does the model. The
navbar and the form's submit button are not checked by the source, and the
model assumes both are present. The form itself is checked (app.js:126): on a
page without `#contactForm` no field listener or submit listener is attached.
The model assumes the form exists.

## Model

| member | source | states |
|---|---|---|
| Text.Trim | app.js:164 | The trimmed text has no white space at either end and is no longer than the input. |
| Text.TrimStripsPadding | app.js:164 | `Trim(s)` is a slice of `s` with only white space cut off before and after it. |
| Text.TrimUnique | app.js:164 | Any unpadded string obtained from `s` by cutting white space off both ends equals `Trim(s)`. Trim is therefore exactly the standard trim. |
| Text.TrimIdempotent | app.js:164 | Trimming twice gives the same result as trimming once. |
| Text.TrimPadded | app.js:164 | White space wrapped around an unpadded string is removed, and nothing more. |
| Text.TrimEmptyIffBlank | app.js:164 | The trimmed text is empty exactly when every character of the raw text is white space. |
| Addresses.IndexOf | app.js:180 | Returns the first position holding the character: it holds it, and no earlier position does. |
| Addresses.MatchesEmailPattern | app.js:180 | The literal reading of the anchored pattern: the whole string splits into run, "@", run, ".", run. Any string it accepts is at least five characters long and does not start with "@". |
| Addresses.IsEmailAddress | app.js:180 | The descriptive reading: no white space, exactly one "@", something before it, and an inner "." in the domain. Any string it accepts is at least five characters long and does not start with "@". |
| Addresses.EmailPatternCharacterized | app.js:180 | A string is accepted by the anchored address pattern if and only if it has no white space, exactly one "@", a non-empty part before it, and a domain with a "." that is neither its first nor its last character. |
| Addresses.MatchImpliesShape | app.js:180 | Any split of a string into run "@" run "." run gives the described address shape. |
| Addresses.ShapeImpliesMatch | app.js:180 | A string of the described shape has such a split, so the pattern matches it. |
| Addresses.OnlyAtPosition | app.js:180 | In a string holding exactly one "@", no position other than the first "@" holds one. |
| Addresses.RunBetween | app.js:180 | A non-empty stretch without white space or "@" is matched by the class run `[^\s@]+`. |
| Validator.Validate | app.js:163-209 | The verdict is valid exactly when its message is empty. |
| Validator.BlankIsRequired | app.js:164-203 | A field whose text is entirely white space is invalid for every kind, with that kind's "... is required" message. |
| Validator.LengthRule | app.js:173-207 | For name, subject and message, a non-blank field is valid iff its trimmed length is at least 2, 5 or 10. Otherwise the message is that kind's "must be at least N characters long". |
| Validator.EmailRule | app.js:180-187 | A non-blank email field is valid iff its trimmed text matches the address pattern. Otherwise the message is "Please enter a valid email address". |
| Validator.ValidateSeesTrimmedText | app.js:164 | The verdict depends only on the trimmed text. |
| Validator.ValidateField | app.js:211-225 | Returns the verdict's validity and leaves the value alone. Sets the `error` class iff the field is invalid. Gives an existing error element the message as text and `show` iff invalid. Never creates or removes an error element. |
| Validator.ValidateFieldConsistent | app.js:211-225 | After validation, the error class, the error text and the `show` class agree with each other. |
| Validator.ValidateFieldIdempotent | app.js:211-225 | Validating a field a second time changes nothing. |
| Validator.ClearError | app.js:228-236 | A field without the error class, or whose text is all white space, is returned unchanged. Otherwise the error class is removed, an existing error element is emptied and hidden, and the value is kept. |
| Validator.ClearErrorConsistent | app.js:228-236 | Clearing keeps a consistent field consistent. |
| Validator.ClearErrorIdempotent | app.js:228-236 | Clearing never adds an error, and clearing twice equals clearing once. |
| Validator.ClearAfterValidNoop | app.js:211-236 | Typing into a field that just validated successfully leaves it as it is. |
| Validator.ClearErrorDoesNotRevalidate | app.js:228-236 | Clearing removes the error from the name "A" even though the name is still too short: clearing does not re-run the rules. |
| Validator.NameTooShortExample | app.js:173-176 | The name "A" is rejected with the minimum-length message. |
| Validator.NameLongEnoughExample | app.js:173-176 | The name "Al" is accepted. |
| Validator.EmailAcceptedExample | app.js:180-187 | "a@b.com" is accepted as an email. |
| Validator.EmailRejectedExample | app.js:180-187 | "a@b" is rejected with the invalid-address message. |
| Text.TrimOfUnpadded | app.js:164 | Trimming a string without white space at either end returns it unchanged. |
| Addresses.SampleAddressShape | app.js:180 | "a@b.com" is unpadded and has the address shape. |
| ContactForm.EveryKindPasses | app.js:140-148 | All four kinds pass exactly when each of name, email, subject and message passes. |
| ContactForm.Visit | app.js:143-147 | A present input is replaced by its validated form and reports its verdict. A missing input stays missing and counts as passing. |
| ContactForm.ValidateInputs | app.js:140-148 | Every present input is validated, even after an earlier one failed, and none goes missing. The combined flag holds iff every present input passes. |
| ContactForm.VisitVerdicts | app.js:140-148 | The conjunction of the four per-input verdicts is "every kind passes". |
| ContactForm.VisitedEveryInput | app.js:143-147 | Validating the four slots paints each present input exactly as `ValidateField` does. |
| ContactForm.FirstError | app.js:154-157 | Returns a field carrying the error class, if there is one. It returns none only when no field carries it. |
| ContactForm.Submit | app.js:137-243 | Every present input is validated. The submission is accepted iff all pass. If accepted, the button reads "Sending..." and is disabled, and the old label is queued. If rejected, the button and queue are untouched and the scroll goes to the first invalid field in page order. Notifications are untouched. |
| ContactForm.Reset | app.js:251 | Every present input has its text emptied; nothing else about it changes. |
| ContactForm.Complete | app.js:246-256 | With a send pending, the oldest pending send finishes. The success notification is appended, the inputs are emptied, and the button gets back the label captured at submit and is enabled. With nothing pending, nothing happens. |
| ContactForm.SubmitCompleteRoundTrip | app.js:140-257 | From an idle form whose inputs all pass, submit then completion restores the button exactly and leaves no pending send. It shows one more notification, the success message, and leaves every present input empty. |
| ContactForm.BlankMessageRejected | app.js:137-158 | With the other three fields valid and a blank message, the submission is rejected and scrolls to the message. The message alone is flagged, and its error element reads "Message is required" and is shown. |
| Reveal.Observe | app.js:309-315 | The marked set after a batch is the set before it plus the targets of the intersecting entries. |
| Reveal.Step | app.js:311-313 | One entry never removes a mark and can add only its own target. Its target ends marked iff it was already marked or the entry is intersecting. |
| Reveal.ObserveMonotonic | app.js:309-315 | A batch never removes a mark. |
| Reveal.ObserveAddsExactlyEntered | app.js:309-315 | An unmarked element becomes marked iff some entry of the batch targets it while intersecting. |
| Reveal.ObserveConcat | app.js:309-315 | Processing two batches in turn equals processing their concatenation. |
| Reveal.ObserveIdempotent | app.js:309-315 | Delivering the same batch again changes nothing. |
| Reveal.ObserveOrderInsensitive | app.js:309-315 | The order of entries within a batch does not matter. |
| ActiveLinks.LinkFor | app.js:351 | Returns a link whose href is "#id" and none before it does. Returns none only when no link has that href. |
| ActiveLinks.Observe | app.js:342-357 | A batch with no intersecting entry leaves the active set unchanged. Otherwise the active set is the first link matching the last intersecting entry's id, or empty when no link matches. |
| ActiveLinks.Step | app.js:344-355 | A non-intersecting entry leaves the active set as it is. An intersecting entry leaves at most one link active, one whose href is "#id". The set is empty iff no link has that href. |
| ActiveLinks.LastIntersectingSplit | app.js:343-356 | The last intersecting entry of a batch is its final entry if that one intersects, and otherwise the last intersecting entry of the rest. |
| ActiveLinks.SelectionSingle | app.js:348-354 | An intersecting entry leaves at most one link active, and that link's href is "#id". |
| ActiveLinks.AtMostOneActive | app.js:342-357 | From at most one active link, or after any batch with an intersecting entry, at most one link is active. |
| ActiveLinks.LastIntersectingIndex | app.js:343-356 | A batch with an intersecting entry has a last one. |
| ActiveLinks.ObserveConcat | app.js:342-357 | Processing two batches in turn equals processing their concatenation. |
| ActiveLinks.LastWins | app.js:342-357 | After a batch with an intersecting entry, the previous active set is irrelevant. |
| ActiveLinks.ActivatesMatchingLink | app.js:344-354 | A single intersecting entry for `id` makes link `k` active iff `k` is the first link whose href is "#id". |
| Navigation.OnScroll | app.js:21-29 | The `scrolled` flag is on iff the scroll offset exceeds 100. The offset is `pageYOffset`, or the root element's `scrollTop` when `pageYOffset` is zero. |
| Navigation.OnScrollMemoryless | app.js:25-29 | The flag after a scroll event does not depend on its value before. |
| Navigation.ScrollTop | app.js:22 | The offset is `pageYOffset` when that is non-zero, and otherwise the root element's `scrollTop`. |
| Navigation.ScrolledMonotone | app.js:22-29 | Scrolling to an equal or larger offset never removes `scrolled`. |
| Navigation.PageOffsetHidesRoot | app.js:22 | While `pageYOffset` is non-zero, the root element's `scrollTop` has no influence on the flag. |
| Navigation.Resolve | app.js:42-45 | For hrefs of the form "#" followed by an id, the href resolves iff a section has that id, and then to that section's top. Other hrefs never resolve. |
| Navigation.ScrollTarget | app.js:45-69 | A resolved target scrolls to 80 pixels above its top. A missing target scrolls nowhere. |
| Navigation.ScrollTargetOfAnchor | app.js:42-46 | The href "#id" scrolls exactly when a section with that id exists, and then to 80 pixels above its top. |
| Navigation.OnlyAnchorsResolve | app.js:42-46 | Any href that scrolls is "#" followed by the id of a section on the page. |
| Navigation.Toggle | app.js:86-89 | Both `active` classes flip. Without the menu elements, nothing happens. |
| Navigation.Close | app.js:100-108 | Both `active` classes end up off. Without the menu elements, nothing happens. |
| Navigation.ToggleInvolution | app.js:86-89 | Two hamburger clicks restore the menu. |
| Navigation.CloseIdempotent | app.js:100-108 | Closing a closed menu changes nothing. |
| Navigation.AnchorHandler | app.js:39-77 | A nav link or the scroll indicator scrolls to its target and closes the menu when the target exists, and does nothing otherwise. A hero button scrolls the same way but never touches the menu. A hero button without a "#" href has no listener. |
| Navigation.Click | app.js:40-96 | The scroll is the one the clicked element's own listener requests; it is only ever the scroll target of a clicked anchor's href. After that listener, the menu is toggled if the click is in the hamburger, left alone if it is in the menu, and closed if it is anywhere else. |
| Navigation.HamburgerClickFlips | app.js:86-96 | A click on the hamburger flips the menu, and the document listener leaves it alone. |
| Navigation.OutsideClickCloses | app.js:92-96 | Any click outside the hamburger and the menu closes the menu, including a click on a hero button. |
| Navigation.NavLinkInMenu | app.js:40-56 | A nav-link click inside the menu scrolls to its section and closes the menu. When the section is missing, it changes nothing. |
| Navigation.ClickKeepsLockstep | app.js:86-108 | Every click keeps the hamburger's and the menu's `active` classes equal. |

## Left out

- Validator.Validate: lengths count Unicode code points (Dafny `char`), whereas JavaScript's `length` counts UTF-16 code units. A name made of one astral-plane character is 1 long here but 2 long in the browser.
- Text.IsWhitespace is the fixed ECMAScript white-space and line-terminator list. It follows the Unicode version that list was taken from.
- The notification presenter (app.js:259-300): DOM creation, CSS text, and its show and hide timers. The model keeps only the appended notification's message and severity.
- Timers: the 2000 ms send delay and the presenter's delays. A queued send completes only when `Complete` is applied. Sends complete in submission order, since their delays are equal.
- Submitting while the button is disabled: the model accepts and queues such a submission, as the submit handler itself does not check the button. In a browser a disabled default button also blocks submission by the Enter key, so this case normally cannot arise.
- `form.reset()` restores each input to its markup default. The model assumes that default is empty. Reset does not touch error classes or error elements, and neither does the model.
- The first field with the `error` class (app.js:154) is found in document order. The model assumes the page lists name, email, subject, message in that order.
- `scrollIntoView` and `window.scrollTo`: smooth animation, and clamping of offsets outside the page. The model records only the requested offset. Offsets are integers, whereas the browser's may be fractional.
- IntersectionObserver geometry (thresholds 0.1 and 0.3, root margins, app.js:304-307, 337-340): only the delivered (element, isIntersecting) batches are modelled.
- There is no fallback when `IntersectionObserver` is missing. The source would throw there, and the model does not describe that case.
- The `animate-on-scroll` tagging of sections and cards (app.js:317-329) is a one-time class addition, so it is not modelled.
- CSS-selector syntax: `querySelector` throws on an href or id that is not a valid selector, for example one containing a quote. The model treats such a target as a plain lookup by id.
- A hero button without an `href` attribute makes the setup throw. The model assumes every hero button has one.
- Navigation.Resolve: every href is treated as "#" followed by an id and looked up in the page's section offsets. The source passes the whole href to `querySelector`, so an href such as `section` resolves to the first `<section>`, and `#a.b` means id `a` with class `b`. The model leaves such selectors unresolved.
- Navigation.OnScroll: assumes the page has a `.navbar`. Without one, the source throws on every scroll event (app.js:18, 26-28), and the model still returns a flag.
- ContactForm.Submit: assumes the page has a `#contactForm`. Without one, the source attaches no blur, input or submit listener (app.js:126-159), so no field is ever validated or cleared and nothing is submitted. The model has no state for a missing form, so `ValidateField`, `ClearError` and `Submit` always apply.
- ContactForm.Submit: assumes the form has a `button[type="submit"]`. Without one, the source throws at app.js:240-241 after validation has painted the inputs, so no "Sending..." label is shown and no send is queued. The model always has a button.
- `lastScrollTop` (app.js:19, 31) is written but never read, so it is not modelled.
- `handleExternalLinks` (app.js:365-373), image load and error handlers, the visibility title swap and the injected CSS (app.js:377-467) only set attributes and styles.
