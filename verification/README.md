# Page behaviour of a static site, modelled in Dafny

The site's `script.js` wires a handful of event handlers into every page. This
project models the decision logic inside them as pure functions and small
immutable state machines, and proves what the handlers promise:

- **Active-link highlighting** (`Paths`, `ActiveLink`). The current file name
  is the last `/`-separated segment of the location's pathname, or
  `index.html` when that segment is empty. A navigation anchor gets the
  `active` class when its `href`, or the last segment of its `href`, is that
  file name. `LastSegment` is proved equal to `split('/').pop()` over an
  explicit `Split`/`Join` pair, and that pair is proved to round-trip.
- **Mobile navigation menu** (`NavMenu`). The state is a record of three flags:
  the menu list's `show` class, the toggle button's `aria-expanded`, and
  whether the button shows the close cross or the hamburger. The events are a
  toggle click, a navigation-link click at some viewport width, and a key
  press. Every event preserves the agreement of the button with the menu.
  Escape restores the glyph and `aria-expanded`, and moves focus, only when
  the toggle button exists; without it, Escape only closes the menu.
- **Back-to-top control** (`BackToTop`). It is visible exactly when the
  vertical scroll offset exceeds 220.
- **Mock form submission** (`Whitespace`, `Form`). Every `required` field
  whose value is empty after `trim()` is marked with `error` and
  `aria-invalid`; every other required field loses those marks. Focus goes to
  the first marked field. When nothing is blank, the submit button runs
  through "Sending...", then "Sent ✅", then back to its own text, and the
  form is reset. Both happen only when the form contains a `<button>`
  element: the first `button[type="submit"]`, otherwise the first `button` of
  any type. An `<input type="submit">` is not found. Resetting restores each
  field's markup default, which need not be empty.

`Optional` holds the `Option` type. It stands for an absent `href` attribute,
a form with no `<button>` element, or a search that finds nothing.

## Model

| member | source | states |
|---|---|---|
| Paths.LastSegment | script.js:54 | the result has no '/', is a suffix of the input, and is the whole input or starts right after a '/' (the longest '/'-free suffix) |
| Paths.Split | script.js:44 | `split('/')` yields at least one segment, none holding '/', and joining them with '/' gives the input back |
| Paths.SplitJoin | script.js:44 | the other round trip: splitting the join of '/'-free segments gives those segments back |
| Paths.LastSegmentIsLastPart | script.js:44 | `LastSegment(s)` is the last element of `Split(s)`, i.e. `s.split('/').pop()` |
| Paths.LastSegmentUnique | script.js:54 | any '/'-free suffix that is the whole string or follows a '/' is the last segment |
| ActiveLink.CurrentFile | script.js:44 | the current file name is never empty and holds no '/'; it is the pathname's last segment when that is non-empty, and otherwise `index.html` |
| ActiveLink.MarksActive | script.js:48-55 | a missing or empty `href` never matches; for a non-empty file name, an anchor matches iff its `href` is that name or its last segment is |
| ActiveLink.IsActive | script.js:44-55 | an active anchor has a present, non-empty `href`; every such `href` whose last segment is the current file name is active |
| ActiveLink.RootAlternativeIsDead | script.js:50 | the `href === 'index.html' && path === ''` alternative never changes the outcome: dropping it leaves the test equivalent |
| ActiveLink.IsActiveReduces | script.js:47-55 | an anchor is active iff its `href` is present, non-empty, and its last segment equals the current file name |
| ActiveLink.Mark | script.js:47-56 | marking one anchor keeps its `href` and never clears `active` |
| ActiveLink.Highlight | script.js:45-57 | highlighting keeps the number of anchors and every `href`, and never clears an `active` mark |
| ActiveLink.HighlightMarksMatches | script.js:46-56 | after highlighting, an anchor is active iff it already was or its `href`'s last segment is the current file name |
| ActiveLink.HighlightIdempotent | script.js:46-57 | highlighting twice gives the same anchors as highlighting once |
| ActiveLink.AboutPageExample | script.js:44-55 | on `/about.html` the anchor `about.html` is active and `contact.html` is not |
| ActiveLink.RootPageExample | script.js:44-55 | on the empty pathname and on `/`, the anchors `index.html` and `/index.html` are active |
| NavMenu.AriaControls | script.js:18 | `aria-controls` is the menu's id when it has one and `nav-menu` when it has none |
| NavMenu.Setup | script.js:17 | wiring sets `aria-expanded` to false and leaves `open` and the glyph alone, so the menu is consistent after setup iff the page was served closed with the hamburger |
| NavMenu.Toggle | script.js:20-25 | a toggle click flips `open`, and afterwards `aria-expanded` and the close glyph both equal `open`, whatever the state before |
| NavMenu.ToggleTwice | script.js:20-25 | two toggle clicks return a consistent menu to where it was |
| NavMenu.NavLinkClick | script.js:29-34 | a link click closes an open menu (to the closed state with the hamburger and `aria-expanded` false) iff the width is at most 768; otherwise it leaves the state unchanged; it never opens the menu |
| NavMenu.KeyDown | script.js:143-154 | only Escape on an open menu acts; it closes the menu, and only when the toggle button exists does it restore the hamburger, set `aria-expanded` false and move focus to the button |
| NavMenu.Step | script.js:20-154 | each of the three events keeps `aria-expanded` and the glyph in agreement with `open`, and only a toggle click can open the menu |
| NavMenu.Run | script.js:15-154 | any sequence of events from a consistent menu ends consistent, and a sequence with no toggle click never opens a closed menu |
| NavMenu.EscapeAfterAnyRun | script.js:143-152 | after any events, Escape leaves a consistent menu closed, with the hamburger, and with `aria-expanded` false |
| NavMenu.ServedClosedStaysConsistent | script.js:15-36 | a page served closed with the hamburger keeps the button in agreement with the menu forever |
| BackToTop.OnScroll | script.js:65-68 | the control is shown iff the scroll offset is at least 221, i.e. greater than 220 |
| BackToTop.Boundary | script.js:65-68 | an offset of exactly 220 hides the control and 221 shows it |
| BackToTop.Monotone | script.js:66-68 | scrolling further down never hides the control, and the previous state plays no part |
| Whitespace.TrimStartSpec | script.js:100 | the leading trim keeps a suffix, drops only white space, and keeps nothing that starts with white space |
| Whitespace.TrimEndSpec | script.js:100 | the trailing trim keeps a prefix, drops only white space, and keeps nothing that ends with white space |
| Whitespace.TrimStart | script.js:100 | the leading trim is never longer than its input (weaker: see "## Left out") |
| Whitespace.TrimEnd | script.js:100 | the trailing trim is never longer than its input (weaker: see "## Left out") |
| Whitespace.TrimFacts | script.js:100 | trimming both ends leaves nothing iff the string is blank, and otherwise leaves no white space at either end |
| Whitespace.Trim | script.js:100 | `trim()` is empty iff the string is all white space; otherwise it starts and ends with a non-white-space character |
| Whitespace.TrimIsInfix | script.js:100 | `trim()` returns a contiguous piece of the string with only white space before and after it |
| Whitespace.TrimIdempotent | script.js:100 | trimming twice is trimming once |
| Form.Missing | script.js:100 | a value counts as missing (empty, or empty after `trim()`) iff it is all white space |
| Form.Mark | script.js:100-107 | a checked field keeps its values, is marked in error iff its value is blank, and has `aria-invalid` iff it has `error` |
| Form.MarkAll | script.js:99-108 | every required field keeps its values, is marked in error iff its value is blank, and has `aria-invalid` iff it has `error` |
| Form.Validate | script.js:97-108 | the checking loop marks every field as `Mark` does, and its `ok` flag is true iff no required value is blank |
| Form.FirstMarked | script.js:113 | `querySelector('.error')` finds nothing iff no field is marked, and otherwise the lowest-indexed marked field |
| Form.Submit | script.js:95-137 | a submission is rejected iff some required value is blank, and then focus goes to the lowest-indexed blank field; otherwise it runs the button phases and the reset when the form contains a `<button>` element (the first `button[type="submit"]`, else the first `button`), and neither when it contains none; after an accepted submission with such a button, every field holds its default value and none is marked in error |
| Form.Phases | script.js:120-135 | the button is disabled with "Sending..." and its style untouched, then disabled with "Sent ✅" and the success style, then enabled with its original text and no style |
| Form.PhasesReturnToIdle | script.js:122-132 | an enabled, unstyled button ends the cycle exactly as it began |
| Form.Reset | script.js:133 | `form.reset()` returns every field to its markup default and leaves its marks alone |
| Form.AcceptedSubmitResetsForm | script.js:129-134 | when every required field is filled, the reset leaves each field at its markup default with neither `error` nor `aria-invalid` |
| Form.ErrorLookupEmptyIffFilled | script.js:110-115 | the lookup for the first field marked `error` finds nothing iff every required field is filled, i.e. iff the submission is accepted rather than rejected |

## Left out

- DOM lookups, listener registration, `innerHTML` and `classList` mechanics are out. They are modelled as record fields and sequences.
- The back-to-top click (script.js:71-74) is out. It only calls the browser's smooth `scrollTo`.
- The in-page anchor scroller (script.js:80-88) is out. It is a CSS-selector lookup plus `scrollIntoView`, both browser APIs.
- The page-transition fader (script.js:158-173) is out. It depends on the browser's hostname resolution and on `window.location` navigation.
- The 900/1600 ms timers are out, and so is the race when a form is submitted again while they run. `Form.Phases` keeps only the order of the button states.
- The `try/catch` around highlighting (script.js:43, 58) is out. The modelled path logic is total, so nothing can throw.
- `focus()` is represented only by a flag or an index. These are `KeyOutcome.focusToggle` and the `Rejected` focus.
- The gradient string is represented only by the `successStyle` flag.
- `Form.FirstMarked` searches only the required fields. The page's `querySelector('.error')` would also find an element that the page's author had already given an `error` class.
- `Whitespace.IsWhitespace` lists the Unicode space separators explicitly. It follows the current Unicode version and will not track future additions to that category.
- `BackToTop.OnScroll` takes the offset as an integer, but browsers can report a fractional `scrollY`.
- The button lookup on line 120 is modelled only by its result, `Option<Button>`. An `<input type="submit">` is never found by it, so a form whose only submit control is such an input gets neither the phases nor the reset. A form whose only button is `<button type="button">` gets both.
- `Form.Reset` models only the restoration of the value. The reset of checkedness and selection state for other input kinds is out.
- Whitespace.TrimStart: its contract states only that the result is no longer than the input. The full characterisation is the lemma `Whitespace.TrimStartSpec`. It is kept out of the function's contract because there it makes every caller of `Trim` far more expensive to verify.
- Whitespace.TrimEnd: its contract states only that the result is no longer than the input. The full characterisation is the lemma `Whitespace.TrimEndSpec`, kept separate for the same reason.
