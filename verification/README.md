# Portfolio page script, modelled in Dafny

`script.js` drives a one-page portfolio site: a light/dark theme toggle
remembered in local storage, a mobile menu opened by a hamburger button, a
contact form validated in the browser and posted with `fetch`, a typing
effect cycling through three phrases, and a scrollspy marking the nav link
of the section in view. This project models those parts.

| file | module | what it models |
|---|---|---|
| `whitespace.dfy` | `Whitespace` | the white-space set shared by `String.prototype.trim` and the regular-expression class `\s`; `Trim` |
| `email.dfy` | `EmailCheck` | the e-mail pattern `^[^\s@]+@[^\s@]+\.[^\s@]+$`, and its character-level meaning |
| `validation.dfy` | `FieldValidation` | the per-field rules and messages, the submit gate |
| `contact.dfy` | `Contact` | class `ContactForm`: `setError`, the live `input`/`blur` listener, the submit listener |
| `typing.dfy` | `Typing` | the typing cursor as a state machine; class `Typewriter` holding the closure variables |
| `theme.dfy` | `Theme` | class `ThemeToggle`: page load and the click handler |
| `menu.dfy` | `Menu` | class `MobileMenu`: the hamburger, menu-link and document click listeners, both as written (`OnClickAsWritten`, identity with the button) and corrected (`OnClick`, containment in the button) |
| `scrollspy.dfy` | `Scrollspy` | the current-section rule and the `aria-current` marking |

Timers, the network and the DOM are not modelled directly:
- The outcome of the `fetch` is a parameter of `Submit`: an `ok` response, a response that is not `ok`, or a thrown error.
- A tick of the typing effect and the expiry of its hold timer are separate events, applied in whatever order they fire.
- Which inputs the page has is a constructor parameter, and so is whether it has a submit button, a `.theme-toggle` button or a `.typing` element.
- Where a click lands is a `ClickTarget`.

Two things the code does that a reader might not expect:
- The typing effect does not pause while the hold timer runs. Ticks keep firing at the typing speed, so the character count passes the phrase's length. `String.prototype.slice` clamps the display, so the element keeps showing the whole phrase. `Typing.HoldOvershoots` and `Typing.Overshoot` state this.
- On load the theme is only ever added (`classList.add`), never removed, so a `light` class already in the markup stays.

## Model

| member | source | states |
|---|---|---|
| Whitespace.Trim | script.js:144 | `trim` never lengthens a value, and what it leaves neither starts nor ends with white space |
| Whitespace.TrimStartSpec | script.js:144 | the start of `trim`: the result is a suffix of the input, all it drops is white space, and it does not begin with white space |
| Whitespace.TrimEndSpec | script.js:144 | the end of `trim`: the result is a prefix of the input, all it drops is white space, and it does not end with white space |
| Whitespace.TrimSpec | script.js:144 | `trim` yields "" exactly when the value is all white space; otherwise it is the contiguous middle part with white space on either side and none at its ends |
| Whitespace.TrimNoSpace | script.js:150 | a value with no white space is returned unchanged |
| Whitespace.TrimIdempotent | script.js:150 | trimming twice is trimming once |
| EmailCheck.EmailPattern | script.js:108 | a string the pattern accepts has at least five characters and neither starts nor ends with `@` |
| EmailCheck.SplitCovers | script.js:108 | a match of the pattern has no white space and no `@` other than the separator |
| EmailCheck.EmailPatternIff | script.js:108 | the pattern matches exactly the strings that have no white space, one `@` not at the start, and a `.` after it with at least one character on each side |
| EmailCheck.EmailExamples | script.js:108 | `a@b.co` matches; `a@b`, the empty string, `a@@b.co`, `@b.co` and `a@.co` do not |
| FieldValidation.Text | script.js:145-167 | the wording of each message; only the cleared message is the empty text |
| FieldValidation.AriaInvalid | script.js:129 | `aria-invalid` is "true" exactly when the message written is non-empty, and "false" otherwise |
| FieldValidation.FieldError | script.js:144-168 | a field's message is its "missing" message exactly when the trimmed value is empty; otherwise it is cleared, or, for the e-mail only, "malformed" |
| FieldValidation.FieldErrorIff | script.js:240-248 | a name, subject or message is flagged missing exactly when it is all white space; the e-mail is "missing" exactly when all white space, "malformed" exactly when its trimmed value lacks the e-mail shape, and clear otherwise |
| FieldValidation.Passes | script.js:142-170 | the gate passes exactly when every present input's error node would be left empty by the checks |
| FieldValidation.Checked | script.js:144-168 | after a submit, every input on the page has an error entry, and no other input has one |
| FieldValidation.RecheckAll | script.js:144-168 | the four checks in page order overwrite whatever an earlier check left, leaving exactly the rule's message for each present input |
| FieldValidation.PassesIff | script.js:142-173 | the submit gate opens exactly when every present text input has a non-blank value and a present e-mail input has the e-mail shape; absent inputs impose nothing |
| Contact.Restored | script.js:186-189 | the button text restored is the original text, or "Send" when that was empty, and never empty |
| Contact.ToastText | script.js:199-214 | every toast has a non-empty text |
| Contact.ToastFor | script.js:198-214 | the success toast is shown exactly for an `ok` response, and the network-error toast exactly when `fetch` threw |
| Contact.ToastsDistinct | script.js:199-214 | the three toast texts differ, so each outcome reads differently |
| Contact.ContactForm.constructor | script.js:102-107 | a form on load: no error nodes written yet, no request, no toast, the button enabled with its markup label, and the inputs at their defaults |
| Contact.ContactForm.SetError | script.js:125-130 | for an input on the page, writes the message and the matching `aria-invalid`; for an absent input, does nothing |
| Contact.ContactForm.OnInputOrBlur | script.js:235-252 | a live event on an input writes exactly that input's rule message, and `aria-invalid` is "true" exactly when the message is non-empty |
| Contact.ContactForm.Check | script.js:144-168 | one submit check: the present input gets its rule's message, and the result says whether it passed; an absent input passes |
| Contact.ContactForm.CheckAll | script.js:142-168 | the four checks leave exactly `Checked` as the errors, and `valid` holds exactly when `Passes` does |
| Contact.ContactForm.Send | script.js:176-227 | a filled honeypot aborts before any request; otherwise one request is made and its outcome toasted, and only an `ok` response resets the form; on every path a present button ends enabled with its original label (or "Send") |
| Contact.ContactForm.Submit | script.js:140-228 | the whole listener: errors are as checked; no request is made unless the gate passes and the honeypot is empty; the request count, toasts, form values and button state are as `Send` states |
| Typing.SliceTo | script.js:274 | `slice(0, end)` gives a prefix of the phrase, of length `end` clamped to the phrase's length |
| Typing.TickStep | script.js:265-285 | one tick keeps the phrase index within the three phrases |
| Typing.Shown | script.js:274 | the element shows a prefix of the phrase: nothing for a count of zero or below, the first `chars` characters within the phrase, the whole phrase once the count reaches its length |
| Typing.HoldStep | script.js:277-279 | the hold's expiry starts deleting and uses up a pending hold, without changing the phrase or the count, hence the text shown |
| Typing.StartInv | script.js:258-260 | the initial cursor (first phrase, no characters, typing, no hold pending) satisfies the invariant |
| Typing.TickInv | script.js:265-289 | a tick keeps the invariant: phrase index in range, count non-negative, at most one hold pending and only once the phrase is typed out, deleting never below one character |
| Typing.HoldInv | script.js:276-280 | the hold timer's expiry keeps the invariant |
| Typing.AdvanceRule | script.js:282-285 | the phrase changes on a tick exactly when deleting takes the last character; it then moves one place forward modulo three, with typing resumed from zero |
| Typing.HoldOvershoots | script.js:274-280 | a tick taken while the hold is pending pushes the count past the phrase's length, yet the element still shows the whole phrase |
| Typing.Step | script.js:265-289 | each timer event keeps the phrase index in range |
| Typing.Run | script.js:265-289 | any run of timer events keeps the phrase index within the three phrases |
| Typing.RunInv | script.js:265-289 | any sequence of timer events from a reachable state keeps the invariant |
| Typing.WrapsAreDeletions | script.js:282-285 | from a reachable state, the steps of a run that change the phrase index are exactly the ticks that take the last character while deleting |
| Typing.RunWraps | script.js:284 | after any run, the phrase index is the starting one plus the number of steps that changed it, modulo three |
| Typing.RunPhrase | script.js:282-285 | after any run, the phrase index is the starting one plus the number of completed deletions, modulo three |
| Typing.FirstPhraseTyped | script.js:265-280 | from page load, `k` ticks type the first `k` characters of the first phrase, and the tick that completes it schedules the hold |
| Typing.Overshoot | script.js:265-280 | a reachable state has a count one past the first phrase's length |
| Typing.Typewriter.Tick | script.js:265-289 | a tick steps the cursor by the state machine, shows a prefix of the current phrase, and schedules the next tick at the deleting or typing speed; with no `.typing` element nothing changes |
| Typing.Typewriter.HoldFires | script.js:277-279 | the hold timer sets deleting, consumes the pending hold and leaves the text alone |
| Typing.Typewriter.constructor | script.js:256-290 | page load runs one tick: the element shows "C" and the next tick is at the typing speed |
| Theme.StoredValue | script.js:14 | the stored preference is "light" or "dark" |
| Theme.Label | script.js:8-15 | the button shows the moon exactly while the page is light |
| Theme.LoadsLight | script.js:6 | the page loads light exactly when the stored value is the one a toggle to light stores |
| Theme.StoredRoundTrip | script.js:5-14 | the preference a toggle stores is read back as the same mode on the next load |
| Theme.ToggleParity | script.js:13 | an even number of toggles returns to the starting mode, an odd number flips it |
| Theme.ThemeToggle.Load | script.js:5-11 | load adds the class exactly when "light" is stored (a class from the markup stays), and labels the button from the stored value |
| Theme.ThemeToggle.Toggle | script.js:12-16 | a click flips the mode, and storage and label then both agree with it |
| Menu.Expanded | script.js:29 | `aria-expanded` is "true" exactly when the menu is shown |
| Menu.ClickAsWritten | script.js:27-38 | the listeners as written: a click on the button element toggles, a click elsewhere in the menu changes nothing, and every other click, including one on an element inside the button, ends closed |
| Menu.ChildClickNeverOpens | script.js:34-38 | as written, a click on an element inside the hamburger always leaves the menu closed, while a click on the button itself opens a closed menu |
| Menu.Click | script.js:27-38 | with the corrected listener, a click on or inside the button toggles, a click on a menu link or outside closes, and a click elsewhere in the menu changes nothing |
| Menu.ClickAgreesExceptInsideButton | script.js:34-38 | the corrected listeners act as written everywhere except a click inside the button, which now acts like a click on the button |
| Menu.OnlyButtonOpens | script.js:22-38 | a closed menu is opened by a click on or inside the hamburger, and by no other click |
| Menu.MobileMenu.constructor | script.js:20-22 | the menu starts with the markup's class and `aria-expanded` attribute |
| Menu.MobileMenu.CloseMenu | script.js:23-26 | `closeMenu` hides the menu and sets `aria-expanded` to "false" |
| Menu.MobileMenu.ToggleMenu | script.js:27-30 | the hamburger flips the menu and mirrors it into `aria-expanded` |
| Menu.MobileMenu.OnClickAsWritten | script.js:27-38 | a click runs the listeners as written and ends in the state `ClickAsWritten` gives |
| Menu.MobileMenu.OnClick | script.js:27-38 | a click runs the listeners it reaches, with the document's listener corrected to test containment in the button, and ends in the state `Click` gives |
| Scrollspy.IdOrHome | script.js:317 | a section's id, or "home" exactly when it has none; never empty |
| Scrollspy.Selected | script.js:312-319 | the selection is never empty, and a reached last section decides it |
| Scrollspy.SelectedSpec | script.js:311-319 | the current section is "home" when no section is reached; otherwise it is the last reached section in document order |
| Scrollspy.AppendSection | script.js:312-319 | a further section decides the selection when reached and leaves it alone otherwise |
| Scrollspy.CurrentId | script.js:311-319 | the loop over the sections computes the selection |
| Scrollspy.Marks | script.js:321-323 | a link is marked exactly when its `href` is `#` followed by the current id |
| Scrollspy.MarkLinks | script.js:320-328 | every link is rewritten; marked exactly when it points at the current section |
| Scrollspy.UpdateActiveLink | script.js:309-329 | one scroll: the current id is the selection and never empty, and the links marked are exactly those pointing at it |

## Left out

- Smooth scrolling of nav links, the back-to-top button and the reveal-on-scroll observer (script.js:40-99, 292-305): they are pixel geometry, `scrollTo` and `IntersectionObserver`, with no logic beyond browser calls.
- Scroll positions are whole pixels in `Scrollspy`; `getBoundingClientRect` and `scrollY` are fractional, and the header allowance (`navbar` height plus 16) is folded into `offset`.
- The scrollspy block (script.js:308-331) sits outside the `DOMContentLoaded` listener but uses `navbar` and `navLinks`, which are declared inside it; as written, the first call throws a `ReferenceError` and the scroll listener is never added. `Scrollspy` models the rule the block evidently intends.
- `ensureErrorNode` (script.js:111-123) creating the error node and its styling: the model treats every present input as having its error node. An error node supplied by the markup starts with whatever text it holds; the model starts with no entries.
- `setCustomValidity` (script.js:134-138) and `preventDefault`: browser state with no effect on the modelled values.
- `liveValidate` (script.js:230-233) is defined but never called.
- The toast elements: their creation, the `show` class and the removal timers (script.js:200-221). A toast is modelled as an entry appended to `toasts`.
- The request body, headers and URL (script.js:193-197): only the number of requests and their outcome are modelled.
- Contact.ContactForm.Submit: runs to completion in one step. The `await` lets other events (a second submit, live validation, typing) run between the request and its outcome; that interleaving is not modelled.
- Typing: the hold time (1100 ms) and the tick delays are not modelled as time. The order of events is free, so every interleaving of ticks and hold expiries is covered, including ones the real delays rule out.
- Typing.Typewriter.HoldFires: requires a pending hold, because a hold expiry is only ever scheduled by a tick.
- Theme: `localStorage` failures (storage disabled or full) are not modelled.

## Findings

| source | as written | input that shows it | evidently intended | confidence | as-written member | corrected member |
|---|---|---|---|---|---|---|
| script.js:35 | the document's click listener keeps the menu open only if the target is inside the menu or is the hamburger element itself (`e.target !== hamburger`) | a click on an element inside the hamburger button (such as an icon bar): the button's listener opens the menu, then the document's listener closes it | a click anywhere inside the button toggles the menu (`hamburger.contains(e.target)`) | not executed; medium, since it depends on the button having child elements in the markup | Menu.ChildClickNeverOpens | Menu.OnlyButtonOpens |
