# Landing-page interaction rules, modelled in Dafny

`script.js` wires a marketing landing page to its DOM once the document is
loaded. Beneath the event wiring sit four small pieces of logic, each
modelled here in its own module:

- **Navigation** (`nav_menu.dfy`): the mobile menu's three class markers
  (`active` on the nav-links list, `active` on the navbar's CTA buttons,
  `open` on the hamburger icon). A hamburger click toggles all three. A click
  on a nav link, and a click on any in-page anchor, removes all three, but
  only when the nav-links list is `active`. The class `NavMenu` holds the
  three markers as fields. Its handlers are specified by the functions
  `Toggled` and `ClosedIfOpen`, and lemmas replay arbitrary click sequences.
- **FaqAccordion** (`faq_accordion.dfy`): one `active` marker per question and
  one per answer (the question's next sibling), paired by index. The class
  `Accordion` holds them in two arrays. `Click(i)` walks the questions that
  were active when the handler started and collapses each one other than `i`
  with its answer. It then toggles question `i` and its answer. The proved
  invariant is that at most one question is open after any click, given the
  markup assumptions listed under "## Left out".
- **RevealOnScroll** (`reveal_on_scroll.dfy`): the `active` markers of the
  page's elements in an array. The intersection observer's callback only ever
  adds the marker, to intersecting entries, and start-up activates the hero
  heading, paragraph and call-to-action when the page has them.
- **Parallax** (`parallax.dfy`): the scroll handler's viewport test
  `scroll + innerHeight > top && scroll < top + height`. The handler writes
  styles only for sections that pass it. The offsets it writes are modelled
  over Dafny reals.

## Model

| member | source | states |
|---|---|---|
| `Navigation.Toggled` | script.js:39-43 | a hamburger click flips each of the three markers, and the markers agree after it exactly when they agreed before |
| `Navigation.ClosedIfOpen` | script.js:47-53 | after a nav-link click the nav-links list is not active; when it was inactive nothing changes, otherwise all three markers are cleared |
| `Navigation.Step` | script.js:39-66 | one click dispatched to its handler (hamburger, nav link, in-page anchor): after a nav-link or anchor click the nav-links list is inactive, and markers in lock step stay in lock step |
| `Navigation.Replay` | script.js:39-66 | a sequence of clicks handled one after another: when the last one was on a nav link or an in-page anchor, the nav-links list is inactive, whatever came before |
| `Navigation.ToggledTwiceRestores` | script.js:39-43 | two hamburger clicks restore all three markers |
| `Navigation.EvenHamburgerClicksRestore` | script.js:39-43 | any even number of hamburger clicks in a row restores all three markers |
| `Navigation.ClosedIfOpenIdempotent` | script.js:46-66 | a link that runs both the nav-link and the anchor handler has the effect of one close |
| `Navigation.ReplayKeepsLockStep` | script.js:39-66 | from markers that agree (such as the closed menu), any sequence of hamburger, nav-link and anchor clicks keeps the three markers in agreement |
| `Navigation.NavMenu.constructor` | script.js:35-37 | the three marker elements as found at start-up, assuming the markup sets no marker (see Left out): the menu is closed |
| `Navigation.NavMenu.ToggleHamburger` | script.js:39-43 | the handler's new markers are `Toggled` of the old ones |
| `Navigation.NavMenu.CloseIfOpen` | script.js:61-66 | the nav-link handler and the anchor handler's menu-closing step leave the markers `ClosedIfOpen` of the old ones |
| `FaqAccordion.ActiveQuestions` | script.js:124-126 | the list the `.faq-question.active` selector returns: exactly the active questions, in document order, without repeats |
| `FaqAccordion.AfterClick` | script.js:120-138 | a click on `i` negates question `i` and answer `i`, leaves no other question active, clears the answer of every other question that was active, leaves every pair whose question was inactive untouched, so at most one question is open afterwards, and keeps every question equal to its answer if that held before |
| `FaqAccordion.ClicksLeaveAtMostOneOpen` | script.js:119-139 | after any non-empty sequence of clicks, whatever the markers were before, at most one question is open; with at most one open before, that holds after any sequence of clicks |
| `FaqAccordion.ClicksKeepPaired` | script.js:119-139 | if every question's marker equals its answer's, that holds after any sequence of clicks |
| `FaqAccordion.NoneOpenNoneListed` | script.js:124-126 | with no question open, the selector of active questions lists nothing |
| `FaqAccordion.AtMostOneListed` | script.js:124-132 | with at most one question open, the selector lists at most one question, so a click collapses at most one other pair |
| `FaqAccordion.DoubleClickRestores` | script.js:120-138 | with no other question open, two clicks on the same question restore every marker |
| `FaqAccordion.Accordion.constructor` | script.js:117 | a page with `n` pairs, all collapsed, satisfies the single-open invariant and the question/answer pairing |
| `FaqAccordion.Accordion.CollapseOthers` | script.js:124-132 | every question other than `i` that was active is cleared with its answer; every other marker keeps its value |
| `FaqAccordion.Accordion.Click` | script.js:120-138 | the handler's new markers are `AfterClick` of the old ones |
| `RevealOnScroll.AfterCallback` | script.js:83-95 | after a callback a marker is set exactly when it was set before or an intersecting entry targets its element |
| `RevealOnScroll.CallbackNeverClears` | script.js:85-93 | a callback never clears a set marker |
| `RevealOnScroll.NotIntersectingChangesNothing` | script.js:89-93 | a batch of non-intersecting entries changes no marker |
| `RevealOnScroll.MarkersOnlyGrow` | script.js:83-95 | once set, a marker stays set through any number of callbacks |
| `RevealOnScroll.AfterHeroStart` | script.js:103-114 | after start-up a marker is set exactly when it was set before or its element is one of the hero elements the page has |
| `RevealOnScroll.ActivateIfPresent` | script.js:104-106 | one guarded `add`: the element's marker is set if the page has the element, and no other marker changes |
| `RevealOnScroll.RevealMarkers.Process` | script.js:84-94 | the callback's loop over its entries leaves the markers `AfterCallback` of the old ones |
| `RevealOnScroll.RevealMarkers.ActivateHero` | script.js:103-114 | the three guarded `add` calls leave the markers `AfterHeroStart` of the old ones |
| `RevealOnScroll.RevealMarkers.constructor` | script.js:75 | the page's `n` elements, assuming the markup sets no `active` marker (see Left out): none is active |
| `Parallax.InView` | script.js:12-15 | the handler's test; as a condition on the scroll position it holds exactly on the open range from `top - innerHeight` to `top + height` |
| `Parallax.ZeroHeightNearView` | script.js:11-15 | the test also passes a section of height 0 whose top lies strictly inside the viewport, though it shares no pixel row with it: the "near" of the handler's comment |
| `Parallax.InViewIffOverlap` | script.js:12-15 | for a positive viewport height and a positive section height, the test holds exactly when some pixel row lies in both the viewport and the section |
| `Parallax.Scrolled` | script.js:12-29 | a section failing the test is left as it was; one passing it gets background position `-(scroll - top) * 0.5` and layer `k` the translation `(scroll - top) * 0.5 * (k + 1) * 0.2`; its geometry and layer count never change |
| `Parallax.ScrollOffset` | script.js:16-17 | `yPos`, half the distance scrolled past the section's top: positive exactly when the viewport is below the top, zero exactly when it is at the top |
| `Parallax.LayerSpeed` | script.js:26 | the speed `(index + 1) * 0.2` of a layer: never below the step speed 0.2 |
| `Parallax.DeeperLayerOneStepFaster` | script.js:24-26 | each layer moves one step (0.2) faster than the layer before it |
| `Parallax.BackgroundSlope` | script.js:16-20 | while the test holds, the background position moves linearly with the scroll position, with slope `-0.5` |
| `Parallax.LayerSlope` | script.js:16-28 | while the test holds, layer `k` moves linearly with the scroll position, with slope `0.5 * (k + 1) * 0.2` |
| `Parallax.StyleLayers` | script.js:23-29 | the layer loop gives layer `k` the translation `yPos * (k + 1) * 0.2`, for every layer |
| `Parallax.OnScroll` | script.js:5-32 | every section becomes `Scrolled` of its old value: styles are written for exactly the sections that pass the test, and the others are untouched |

## Left out

- Smooth scrolling (script.js:68-70): `scrollIntoView` is a browser animation. The target lookup is unguarded and throws when no element matches the fragment. Only the anchor handler's menu-closing step is modelled.
- `preventDefault`, `DOMContentLoaded`, `querySelector`/`querySelectorAll` lookups and listener registration are plumbing and are not modelled. The elements they find are indices into arrays, and the elements the listeners are attached to are the indices a handler may be called with (hence the `requires` on index ranges).
- When an element intersects is decided by the browser, from the observer's options (threshold 0.1, no root margin, script.js:77-81, 97-99). The model takes each entry's `isIntersecting` as given. The `unobserve` line (script.js:88) and the `remove('active')` line (script.js:92) are commented out, so the callback only adds markers.
- The hero lookups (script.js:103, 107, 111) are parameters of type `Option<nat>`. `None` means the page has no such element.
- The FAQ answer is the question's `nextElementSibling`. The model pairs them by index. A question with no following sibling would make the source throw, and that case is not modelled.
- Parallax: `pageYOffset`, `offsetTop`, `offsetHeight` and `innerHeight` are whole numbers here. `pageYOffset` can be fractional in a browser. The offsets are Dafny reals, which idealise JavaScript doubles, so rounding is not modelled. The CSS strings (`…px`, `translateY(…)`) are not modelled; only the numbers written into them are.
- Parallax: the handler re-reads `pageYOffset` for every section. Nothing changes it during the loop, so the model reads it once.
- The nav-link and anchor handlers test only the nav-links marker (script.js:48, 62). From the closed page `ReplayKeepsLockStep` shows the three markers agree, so this equals testing whether the menu is open.
- The invariants "at most one question is open" and "the three nav markers agree" rest on three assumptions about the page's markup, and the parallax model on a fourth, which script.js does not enforce: (a) the page loads with every `active`/`open` marker off (script.js:35-37 and 117 only look elements up; the constructors of `NavMenu`, `Accordion` and `RevealMarkers` encode this initial state); (b) no nav-links, CTA or FAQ element is also an `.animate-on-scroll` or hero element, since the observer and hero start-up (script.js:86, 105, 109, 113) add the same `active` class that the close test (script.js:48, 62) and the FAQ selector (script.js:125) read — the three modules are modelled as separate marker sets; (c) all three nav elements exist: without `.navbar .cta-buttons` the hamburger handler toggles nav-links and then throws at script.js:41, and without `.hamburger-menu` script.js:39 throws and none of the later handlers is registered; (d) no `.parallax` section lies inside another, so every `.parallax-layer` belongs to exactly one section's list — script.js:3 and 23 collect nested sections and all descendant layers, so an in-view outer section would also write the layers of a nested section that fails the test, and a layer in two in-view sections would keep the value written last, neither of which `Parallax.Section`, `Parallax.Scrolled` and `Parallax.OnScroll` can express. Under other markup the model's promises do not hold.
