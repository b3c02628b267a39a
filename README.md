# FFF Advising site script: a verified model

This project models, in Dafny, the logic of the site's `index.js`. It covers three parts.

- **The responsive navigation toggle** (`setupNavToggle`). There are two logical booleans: the `nav--open` class and whether the `(min-width: 769px)` media query matches. From them the controller derives four things:
  - `aria-expanded` on the toggle;
  - `aria-hidden` on the collapsible panel;
  - `inert` on the collapsible panel;
  - the state of a *focus gate*.

  The focus gate takes every focusable element of the panel out of the tab order (`tabindex="-1"`). It records each element's original `tabindex` in `data-original-tabindex` and later puts it back.
- **Contact-form validation.** All three fields must be non-empty, and the email must match `^[^\s@]+@[^\s@]+\.[^\s@]+$`.
- **The `mailto:` link** that hands an accepted form to the mail client. Its `subject` and `body` values go through `encodeURIComponent`.

Modules:

- `FocusGate` (`focus_gate.dfy`) is `toggleFocusableState`.
  - Each focusable element is a record `Element(tag, tabindex, saved)`. `saved` is the `dataset` entry; `None` means undefined.
  - A specification works on sequences: `Disabled`/`Enabled` per element, `DisableAll`/`EnableAll` over a sequence, and `Toggled`.
  - The class `Gate` holds the elements in an `array<Element>` that it updates in place with two loops, plus the closure flag `focusDisabled`.
  - The Shoelace asymmetry is kept exactly: an `SL-BUTTON` whose recorded value is empty or missing gets `tabindex="0"`, and any other element loses the attribute.
  - The recorded value `""` stands for "no attribute". So an element whose markup has a literal `tabindex=""` comes back as if it had none: `"0"` on an `SL-BUTTON`, no attribute elsewhere.
- `NavToggle` (`nav_toggle.dfy`) is the controller.
  - `NavState` holds everything the handlers read or write.
  - One function per handler: `SyncCollapse`, `Close`, `Open`, `ToggleClicked`, `CollapseClicked`, `DocumentClicked`, `KeyPressed`, `ViewportChanged`, plus `Setup`.
  - `Step`/`Run` replay a sequence of events.
  - The class `NavController` keeps the same state in fields and holds a `Gate`. Each of its handler methods is proved to follow the corresponding function.
  - DOM queries become boolean inputs: `closest("a")`, `closest("sl-button")` with `href`, `instanceof Node`, `nav.contains`, the media query result and the key.
- `UriComponent` (`uri_component.dfy`) is `encodeURIComponent`, working on the UTF-8 bytes of every Unicode scalar value. It is paired with a decoder that follows `decodeURIComponent`: it rejects overlong forms, surrogates and bad escapes.
- `Mailto` (`mailto.dfy`) builds the link. It also has a reader for the `mailto:` syntax of section 2 of RFC 6068: recipient, `?`, then `&`-separated `name=value` fields, each percent-decoded.
- `ContactForm` (`contact_form.dfy`) covers the submit handler:
  - the whitespace class of ECMAScript's `\s` (WhiteSpace and LineTerminator code points);
  - a computed email check, proved equal to the pattern's meaning;
  - `Submit`, which validates and builds the link;
  - the class `ContactFormView`, whose `OnSubmit` changes the response text and colour, the location, the fields and the submit button.
- `Strings` and `Wrappers` are helpers: first-index search, splitting, and `Option`.

Setup does not write `aria-expanded` in compact mode (index.js:135-142, 150), so `SetupConsistent` needs the markup's `aria-expanded` to match its `nav--open` class.

## Model

| member | source | states |
|---|---|---|
| FocusGate.Gate.Toggle | index.js:30-70 | A request for the state already in effect changes neither the elements nor `focusDisabled`. Otherwise the array becomes `DisableAll`/`EnableAll` of its old contents and the flag takes the requested value. The gate invariant is kept, and it is established whenever the flag changes. |
| FocusGate.Gate.constructor | index.js:28 | A new gate starts with `focusDisabled` false over the given elements. |
| FocusGate.DisableGates | index.js:37-45 | After disabling, every element has `tabindex` "-1" and a recorded value. An existing record is never overwritten. Otherwise the current `tabindex` is recorded, or "" when it is absent. Tags are unchanged. |
| FocusGate.EnableRestores | index.js:46-66 | After enabling, no element has a record. A non-empty record comes back as the `tabindex`. With an empty or missing record, an SL-BUTTON gets "0" and any other element loses the attribute. |
| FocusGate.RoundTrip | index.js:37-66 | Disable then enable, from elements with no records, restores each element's original non-empty `tabindex`. Two exceptions: a missing `tabindex` comes back as "0" on an SL-BUTTON and stays absent elsewhere, and an empty `tabindex=""` is treated the same way ("0" on an SL-BUTTON, absent elsewhere). |
| FocusGate.RoundTripIdentity | index.js:37-66 | When every element has no record and either a non-empty `tabindex` or (not being an SL-BUTTON) none at all, disable then enable gives back exactly the original elements. |
| FocusGate.DisableIdempotent | index.js:39-44 | Disabling twice equals disabling once, so the first-recorded original survives. |
| FocusGate.ToggledKeepsValid | index.js:30-70 | The invariant "records exist exactly while the gate is closed" is preserved by every request, and established by every request that changes the flag. |
| FocusGate.ToggledTracksOrigin | index.js:30-70 | However many times the gate has closed and opened, any request to a valid gate keeps every element's tag and keeps its tabindex with the gate open (now, or once reopened) equal to its original value, or, when that was missing or empty, the natural one of its tag. |
| FocusGate.DisableAllAt | index.js:38-45 | The sequence-level disable acts on each element independently and keeps positions. |
| FocusGate.EnableAllAt | index.js:47-66 | The sequence-level enable acts on each element independently and keeps positions. |
| NavToggle.SyncCollapse | index.js:72-83 | In desktop mode, `aria-hidden` is "false", `inert` is absent and focus is enabled. In compact mode, `aria-hidden` is "true" when the nav is closed and "false" when it is open, and `inert` is present and focus is disabled exactly when the nav is closed. `open`, `desktop` and `aria-expanded` are unchanged, and the gate invariant is kept. |
| NavToggle.Close | index.js:85-89 | The nav is closed with `aria-expanded` "false". If the gate invariant held before, all four derived attributes now agree with the state. |
| NavToggle.Open | index.js:91-95 | The nav is open with `aria-expanded` "true". If the gate invariant held before, all four derived attributes now agree with the state. |
| NavToggle.ToggleClicked | index.js:97-103 | The toggle click flips `open`, and `aria-expanded` is "true" exactly when the nav ends open. |
| NavToggle.CollapseClicked | index.js:105-116 | A click inside an anchor, or inside an `sl-button` with `href`, closes the nav. Any other click in the panel changes nothing. |
| NavToggle.DocumentClicked | index.js:118-127 | A document click closes the nav only when it is open and the target is a node outside the nav. Otherwise nothing changes. |
| NavToggle.KeyPressed | index.js:129-133 | Escape always leaves the nav closed with `aria-expanded` "false". Any other key changes nothing. |
| NavToggle.ViewportChanged | index.js:135-142 | `desktop` takes the new query result. Entering desktop mode forces the nav closed with `aria-expanded` "false". Entering compact mode keeps `open` and `aria-expanded`. |
| NavToggle.Setup | index.js:135-150 | Setup's one viewport synchronisation: `desktop` takes the query result. In desktop mode the nav starts closed, with `aria-expanded` "false", not hidden and not inert. In compact mode it keeps the markup's class and `aria-expanded`, and is hidden, inert and gated exactly when it is closed. |
| NavToggle.SetupConsistent | index.js:135-150 | After setup's synchronisation, the controller is consistent. This holds when the markup has no recorded values and, in compact mode, `aria-expanded` matches the `nav--open` class. |
| NavToggle.Step | index.js:97-142 | Every event handler preserves consistency of the derived attributes with `(desktop, open)`. |
| NavToggle.RunKeepsConsistent | index.js:72-142 | After any sequence of events, the four derived attributes agree with `(desktop, open)`. |
| NavToggle.DesktopAlwaysReachable | index.js:73-76 | After any sequence of events from a consistent state, in desktop mode the panel is not hidden, not inert, the focus gate is off and no element keeps a record. |
| NavToggle.DesktopRestoresTabindex | index.js:37-83 | From setup on any markup without recorded values (whatever its `aria-expanded`), after any sequence of events, in desktop mode every focusable element keeps its tag, has no record, and has its original `tabindex`, or, when that was missing or empty, "0" on an SL-BUTTON and no attribute elsewhere. |
| NavToggle.EscapeIdempotent | index.js:129-133 | Escape closes the nav, and a second Escape changes nothing. On a consistent closed nav, even the first Escape changes nothing. |
| NavToggle.CloseReopenRestores | index.js:47-66 | In compact mode, closing and reopening a consistent open nav gives back exactly the same state, when every focusable element is restorable. |
| NavToggle.NavController.constructor | index.js:5-150 | Setup state: the markup's class and attributes, a fresh gate over the panel's elements, then one viewport synchronisation. |
| NavToggle.NavController.SyncCollapseState | index.js:72-83 | The new state is `SyncCollapse` of the old one. |
| NavToggle.NavController.CloseNav | index.js:85-89 | The new state is `Close` of the old one. |
| NavToggle.NavController.OpenNav | index.js:91-95 | The new state is `Open` of the old one. |
| NavToggle.NavController.OnToggleClick | index.js:97-103 | The new state is `ToggleClicked` of the old one, and `open` is flipped. |
| NavToggle.NavController.OnCollapseClick | index.js:105-116 | The new state is `CollapseClicked` of the old one. |
| NavToggle.NavController.OnDocumentClick | index.js:118-127 | The new state is `DocumentClicked` of the old one. |
| NavToggle.NavController.OnKeyDown | index.js:129-133 | The new state is `KeyPressed` of the old one. |
| NavToggle.NavController.HandleViewportChange | index.js:135-142 | The new state is `ViewportChanged` of the old one. |
| NavToggle.NavController.Dispatch | index.js:97-148 | Dispatching an event follows `Step`, and a consistent controller stays consistent. |
| UriComponent.Encode | index.js:241-242 | `encodeURIComponent`. Its properties are in `DecodeEncode` (the decoder inverts it), `EncodeAlphabet`, `EncodeUnreserved` and `EncodeAppend`. |
| UriComponent.DecodeEncode | index.js:241-242 | `decodeURIComponent(encodeURIComponent(s)) == s` for every string. |
| UriComponent.EncodeAlphabet | index.js:241-242 | Encoded text holds only A–Z a–z 0–9 `-_.!~*'()`, `%` and upper-case hex digits. |
| UriComponent.EncodeUnreserved | index.js:241-242 | Text made only of unreserved characters is left unchanged by the encoder. |
| UriComponent.EncodeAppend | index.js:241-242 | Encoding works character by character: it distributes over concatenation. |
| UriComponent.DecodeEscapeOfChar | index.js:241-242 | The `%XX` escapes of any non-unreserved character's UTF-8 bytes decode back to that character. |
| Mailto.NoDelimiters | index.js:241-243 | An encoded subject or body contains no `&`, `=` or `?`, so it cannot break the link's structure. |
| Mailto.Link | index.js:243 | The `mailto:` link. Its meaning is stated in `ParseLink`: read back, it gives the recipient, then the `subject` and `body` fields with their original texts. |
| Mailto.ParseLink | index.js:243 | Read as a `mailto:` URI, the built link gives back its recipient and exactly two header fields: `subject` and `body`, with their original (decoded) texts, in that order. |
| ContactForm.ValidEmail | index.js:226-227 | `emailRegex.test(email)`, computed from the first `@`. `ValidEmailIffPattern` proves it accepts exactly the language of the pattern. |
| ContactForm.ValidEmailIffPattern | index.js:226-227 | The computed email check accepts exactly the strings the pattern `^[^\s@]+@[^\s@]+\.[^\s@]+$` matches. |
| ContactForm.Subject | index.js:241 | The subject text, "FFF Advising Contact: " followed by the name. `Submit` proves that the link carries it as its `subject` field. |
| ContactForm.Body | index.js:242 | The body text with the name, email and message. `Submit` proves that the link carries it whole as its `body` field. |
| ContactForm.Submit | index.js:219-243 | The form is rejected for missing fields exactly when one of name, email or message is empty. It is rejected for the email exactly when all three are filled and the email does not match the pattern. An accepted form's link reads back as addressed to hello@fffadvising.com with subject "FFF Advising Contact: " + name and the full body text. |
| ContactForm.ContactFormView.OnSubmit | index.js:212-263 | On rejection, the matching error text is shown in the error colour, and nothing else changes. On acceptance, the button shows "Sending..." and is disabled during the hand-off. Then it navigates to the link, shows the thank-you text and clears the fields, or on a failed hand-off shows the retry text. In both accepted cases the button's text is restored and it is re-enabled. |

## Left out

- The Shoelace CDN import and `setBasePath` (index.js:1-3): module loading from a third-party host.
- `setFooterYear` (index.js:153-161): it only writes the current year, which comes from the wall clock.
- `setupImageErrorHandling` (index.js:163-202): inline styling, layout reads (`offsetWidth`) and shadow-DOM access, with no computed behaviour beyond replacing a node.
- Registering listeners, `DOMContentLoaded`, `matchMedia` and its `addListener` fallback (index.js:144-148, 266-271). Each event is instead a method call, and the media query's value is an argument of `HandleViewportChange` and of setup.
- The early returns when the nav, toggle, panel, form or response element is missing (index.js:6-16, 205-210). The model assumes they exist; a missing submit button (a TypeError at index.js:235) is not modelled either.
- Re-querying the focusable set on every gate call (index.js:19-27, 35). The gate works over a fixed array of elements given at setup.
- `event.preventDefault()`, `FormData` and `form.reset()`. The field values are plain strings, where a missing field is the empty string, and a reset clears all three to "".
- Browser navigation (index.js:246). It is recorded as the new `location`. A throwing hand-off is the input `handoffFails`, standing for the catch branch (index.js:255-257); with Dafny's characters, `encodeURIComponent` itself cannot throw.
- NavToggle.SetupConsistent: it assumes the markup's `aria-expanded` agrees with its `nav--open` class in compact mode, because setup does not rewrite `aria-expanded` there.
- `Mailto.Parse`: a reader for the link's own shape only. It does not handle the case-insensitive scheme, several recipients or other parts of RFC 6068.
