# Portfolio page interactions: a Dafny model

This project models the decision logic inside the contact-form, theme,
menu, keyboard, typing and notification handlers of a personal portfolio
site (`script.js`). Each piece is a pure function over
immutable data, with the DOM, timers and storage reduced to plain values.

- **E-mail check** (`Email`). The contact form tests addresses against the
  pattern `^[^\s@]+@[^\s@]+\.[^\s@]+$`. The model states it three ways and
  proves they agree:
  - a structural reading, `local @ domain . tld`, with each part a non-empty
    run of characters that are neither `@` nor whitespace;
  - a character-level characterisation;
  - a one-pass scanner driven by a seven-state automaton.

  The domain and the top-level part may hold dots, so `a@b.c.d` is accepted.
- **Contact form** (`ContactForm`). The submit handler first checks that all
  four fields are present and non-empty. Then it checks the address. Only a
  complete form with a valid address shows the success toast and resets the
  form.
- **Toasts** (`Notifications`). `showNotification` removes every element
  with the class `notification` and appends one new toast carrying that
  class. Its background colour depends on its
  type.
- **Theme preference** (`Theme`). At start-up the stored value is used, or
  `'light'` when nothing is stored. The toggle turns `'light'` into `'dark'`
  and every other value into `'light'`, and stores the result. The icon
  shows a sun exactly on the dark theme.
- **Mobile menu** (`NavMenu`, `Keyboard`). The menu is open or closed, and
  each hamburger bar has an inline style. The toggle button flips the menu.
  A link click closes it and resets the bars. Escape closes it and leaves
  the bars as they are. Ctrl+K or Cmd+K clicks the theme toggle.
- **Typing effect** (`Typewriter`). A step function appends the next
  character of the title until the whole text is shown.

Facts about the code that the model keeps:
- Any non-empty stored theme is kept as it is, even one that names no
  theme (`'blue'`); there is no fallback to light.
- Toggling twice gives back the original theme only for `'light'` and
  `'dark'`. `'blue'` goes to `'light'` and then to `'dark'`.
- A toast's type is any string. Types other than `'success'` and `'error'`
  get the information colour.
- The address pattern requires a non-empty local part, exactly one `@`, and
  a dot that is neither the first nor the last character after the `@`.

## Model

| member | source | states |
|---|---|---|
| Email.MatchesPatternIffEmailOk | script.js:224 | The pattern matches an address exactly when some position `k > 0` holds the `@`, every other character is neither `@` nor whitespace, and a `.` lies strictly inside the part after the `@` |
| Email.StartAccepts | script.js:224-225 | The scanning automaton, started fresh, accepts exactly the addresses of the character-level characterisation |
| Email.ScanEmail | script.js:224-225 | One left-to-right pass returns true exactly when the address matches the pattern, stopping early once rejected |
| Email.AcceptedExamples | script.js:224 | `a@b.co` passes, and so does `a@b.c.d`, whose domain holds a dot |
| Email.RejectedExamples | script.js:224 | `bad` (no `@`), `@b.co` (empty local part) and `a@b.` (nothing after the dot) fail |
| ContactForm.Validate | script.js:217-228 | The verdict is "missing" exactly when some field is absent or empty; "invalid e-mail" exactly when all are filled and the address fails the structural pattern; "sent" exactly when all are filled and the address matches it |
| ContactForm.Submit | script.js:207-235 | After a submit exactly one notification is shown. A missing field shows "Please fill in all fields" and keeps the form. A bad address shows "Please enter a valid email address" and keeps the form. Otherwise the success toast is shown, the form is blank, and the toast is green exactly in this case. The page without its notifications is unchanged, in the same order |
| ContactForm.EmptyEmailIsMissing | script.js:218-221 | An absent or empty address is reported as a missing field, never as an invalid address |
| ContactForm.AnyEmptyFieldIsMissing | script.js:218-221 | Leaving any one of the four fields empty gives the missing-field verdict and shows only that error toast |
| ContactForm.ResubmitAfterSent | script.js:230-234 | The reset after a successful submit blanks the form, so an immediate second submit reports missing fields |
| ContactForm.BadAddressScenario | script.js:224-228 | Name "A", e-mail "bad", subject "S", message "M" is rejected as an invalid address, and the form is kept |
| ContactForm.GoodFormScenario | script.js:230-234 | A complete form with address `a@b.co` is sent, and the form is cleared |
| Notifications.Background | script.js:259 | The background is `#10b981` exactly for `'success'`, `#ef4444` exactly for `'error'`, and `#3b82f6` for every other type |
| Notifications.ClassName | script.js:246 | The class attribute holds the class `notification`, which the `.notification` selector of the next call matches, and for a one-token type also the class `notification-` followed by the type |
| Notifications.ClassNameDeterminesKind | script.js:246 | Two toasts get the same class attribute exactly when they have the same type, so the type can be read back from the class |
| Notifications.ClearToasts | script.js:241-242 | Every element carrying the class `notification` is removed, whether or not the presenter built it. Every other child of the body remains, and only the matched elements are lost |
| Notifications.Show | script.js:239-271 | Afterwards exactly one element carries the class `notification`. It is the last child and carries the given message and type. The page without its notifications is unchanged, in the same order |
| Notifications.ForeignNotificationRemoved | script.js:241-242 | An element of the page that the presenter did not build but that carries the class `notification` is removed by the next toast |
| Notifications.ShowReplaces | script.js:239-271 | Showing two toasts in a row leaves the page as if only the second had been shown |
| Theme.IconFor | script.js:34-40 | The icon is the sun exactly on the `'dark'` theme and the moon on every other value |
| Theme.Init | script.js:13-15 | A non-empty stored value is displayed unchanged, even one that names no theme. An absent or empty one gives `'light'`. Nothing is written, and the icon matches the theme |
| Theme.Toggle | script.js:18-24 | The result is `'dark'` exactly when the theme was `'light'`, and `'light'` otherwise. The stored value then equals the displayed theme, one more write is made, and the icon follows |
| Theme.ToggleTwiceOnRealTheme | script.js:19-24 | On `'light'` and `'dark'`, two toggles give back the theme and icon after two writes |
| Theme.ToggleTwiceFromUnknown | script.js:13-24 | A stored `'blue'` is displayed as `'blue'`, then toggles to `'light'`, then to `'dark'` |
| Theme.ToggleTimesTheme | script.js:18-24 | After `n >= 1` toggles the theme is light or dark. It is dark exactly when the parity of `n` matches whether the start was light. Storage and icon follow, and `n` writes were made |
| Theme.ToggleTimesCoherent | script.js:18-24 | Any number of toggles keeps the icon and the stored value in step with the theme |
| Theme.FirstVisitScenario | script.js:13-24 | With empty storage the page is light with a moon. One click makes it dark with a sun and stores `'dark'` |
| NavMenu.Toggle | script.js:46-61 | The toggle flips the menu. When it opens, the first three bars form a cross, every style property the source does not set keeps its value, and any further bars keep their style. When it closes, every bar is reset |
| NavMenu.LinkClick | script.js:64-75 | A link click closes the menu and resets every bar |
| NavMenu.Escape | script.js:488-490 | Escape closes the menu and leaves the bars untouched. A closed menu is unchanged |
| NavMenu.ToggleTwice | script.js:46-47 | Two clicks on the toggle give back the open/closed state and the number of bars |
| NavMenu.ToggleAndLinkKeepCoherent | script.js:46-75 | The toggle and the link click keep the button drawing (cross when open, plain when closed) in step with the menu |
| NavMenu.EscapeLeavesCross | script.js:488-490 | Escape on an open menu leaves the first bar rotated, so the closed menu still shows the cross |
| NavMenu.EscapeIdempotent | script.js:488-490 | Pressing Escape twice is the same as pressing it once |
| Keyboard.KeyDown | script.js:486-497 | Escape closes the menu and never touches the theme. Ctrl+K or Cmd+K toggles the theme. No key changes the bars, and other keys change nothing |
| Keyboard.UpperCaseKIgnored | script.js:493-496 | The shortcut is case-sensitive: a key reported as `"K"` changes nothing |
| Keyboard.ShortcutTwice | script.js:493-496 | Pressing the shortcut twice on a light or dark page gives back the theme and icon and leaves the menu alone |
| Typewriter.Step | script.js:331-337 | A pending step appends the next character and moves on. A finished one changes nothing. Both keep the content equal to the visited prefix |
| Typewriter.RunFrom | script.js:331-337 | From any state whose content is its visited prefix, `k` steps reach the prefix of length `min(next + k, length)` |
| Typewriter.RunPrefix | script.js:327-340 | After `k` steps from the start the content is the first `min(k, length)` characters of the text |
| Typewriter.StopsAfterLength | script.js:327-340 | The effect is still pending after `k` steps exactly when `k` is less than the text's length. From then on the content is the whole text |
| Typewriter.TypeOut | script.js:327-340 | Driving the effect to its end appends exactly one character per step, takes as many steps as the text is long, and yields the text |

## Left out

- The DOM is left out: element lookup, listener registration, `FormData`
  extraction and `localStorage`. Form fields and the stored theme are
  plain values. `null` becomes `None`.
- The form's `reset()` is modelled as every field returning to the empty
  string. Non-empty default values in the markup are not modelled, because
  the markup is not part of this model.
- Timers and animation frames are left out. This covers the 300 ms theme
  transition flag, the toast's slide-in, close button, 5-second auto-dismiss
  and 300 ms removal, the 100/150 ms delay between typing steps, `debounce`,
  `throttle`, and the one-per-frame scroll guard.
- The intersection-observer callbacks are left out. They react to
  visibility reported by the browser: section reveals, skill bars, timeline
  items, lazy images and the statistics counters.
- The other scroll and click handlers are left out, because they act on
  layout positions the browser measures. These are the smooth scroll on
  navigation-link clicks (script.js:78-92), which runs beside
  `NavMenu.LinkClick` on the same links; the navbar background on scroll
  (script.js:97-111), which picks its colour from `scrollY > 100` and from
  whether the theme is `'dark'`; and the `.reveal` scroll handler
  `revealOnScroll` (script.js:417-431).
- The hover styling of project cards and other interactive elements is
  left out. It only sets inline styles on `mouseenter` and `mouseleave`.
- Floating-point effects are left out: the scroll-progress percentage (its
  divisor can be zero), eased smooth scrolling, the cube rotation, and the
  counters' `Math.ceil` increments.
- The random particles are left out. So is the parallax handler, whose
  selector `.hero::before` matches no element and so never acts.
- `Email.IsSpace` lists JavaScript's `\s` characters. The proofs never
  depend on that list, except that `.` and `@` are not in it.
- Typewriter.Step: the text is a sequence of Unicode scalar values. The
  browser steps through UTF-16 code units. Characters outside the Basic
  Multilingual Plane therefore take one step here but two in the browser.
  Appending through `innerHTML` is modelled as a plain string append, with
  no HTML parsing.
- Notifications.ClearToasts: the page is modelled as the body's direct
  children. An element with the class `notification` nested deeper, which
  the selector would also remove, is not modelled.
- Notifications.Show: the message is modelled as text. It is interpolated
  into `innerHTML` and so could carry markup, which is not modelled.
