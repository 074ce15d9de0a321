# Page behaviour of the music-portfolio site, in Dafny

A model of `js/script.js`, the single script that drives the portfolio page. It
covers the mobile menu, smooth scrolling to in-page anchors, the header shadow, the
fade-in revealer, the active-link highlighter, the hero parallax guard, `debounce`,
and the "click to reveal" email widget. The DOM is replaced by records and
fields: each listener becomes one method call, delivered in the order the listeners run.

- `optional.dfy` — `Option`.
- `mobile_menu.dfy` (module `MobileMenu`) — the three menu flags as a value, the
  four handlers as functions, and the consistency invariant over any run of events.
- `scroll_rules.dfy` (module `ScrollRules`) — the 80-unit smooth-scroll offset, the
  50-unit shadow threshold and the parallax guard.
- `highlight.dfy` (module `Highlight`) — `highlightNavigation` as a function over the
  sections (`Highlighted`). It comes with its pointwise meaning, its idempotence, and
  the span test each section decides. The first-match link lookup is `FirstLink`.
- `fade_in.dfy` (module `FadeIn`) — the observer callback as a function (`Revealed`)
  and the fact that it only ever shows elements.
- `debounce.dfy` (module `Debounce`) — the single `timeout` slot as a transition
  function, trace lemmas, and the class `Debouncer`.
- `email_protection.dfy` (module `EmailProtection`) — string reversal and the decoded
  address, the widget's state and transitions, the trace lemmas, and the class
  `EmailLink` whose methods follow those transitions.
- `page.dfy` (module `Page`) — the class `Page`: one method per menu, anchor, scroll,
  debounce and observer event, each proved against the functions above.

Details of the code's behaviour that are easy to misread; the model follows the code:
- The highlighter's span is `(offsetTop − 100, offsetTop − 100 + offsetHeight]`,
  so the upper end is also shifted by 100, not `top + height`.
- Only sections that share an id, and so the same link, compete: that link is
  decided by the last of them in document order. Overlapping sections with
  different ids each set their own link, so several links can be active at once
  (`HighlightedAt`).
- A copy's revert restores the text shown when that copy settled, not always the
  address. So two copies that settle before the first revert leave
  "Email copied!" on screen (`OverlappingCopiesKeepNotice`).
- A page without `.header` does not degrade silently: the header listener throws
  before it writes `lastScroll`, so that handler changes nothing.
- The parallax guard is `scrolled < offsetHeight`, so it is also frozen at exactly the hero's height.
- Copy listeners react to every click on the revealed link, trusted or not. Only the reveal checks `isTrusted`.
- Without `navigator.clipboard` (insecure origins, older browsers), `writeText` throws inside each copy listener before a promise exists. So the `.catch` fallback never runs, and "Email copied!" never appears (`NoticeNeedsClipboard`).

## Model

| member | source | states |
|---|---|---|
| `MobileMenu.ToggleClick` | js/script.js:10-14 | a toggle click flips both classes, locks scrolling iff the menu is now open, and keeps consistent flags consistent |
| `MobileMenu.LinkClick` | js/script.js:17-23 | a nav-link click leaves the menu closed, consistent and scrollable whatever the state before |
| `MobileMenu.DocumentClick` | js/script.js:26-32 | a click outside both toggle and menu closes the menu and clears the lock; a click inside either changes nothing |
| `MobileMenu.ToggleKeyDown` | js/script.js:244-249 | Enter or Space flips the menu; any other key changes nothing; consistency is kept |
| `MobileMenu.ActivationKey` | js/script.js:245 | the keys that activate the toggle are exactly Enter and Space |
| `MobileMenu.ActivationKeyIsClick` | js/script.js:244-249 | Enter or Space has exactly the effect of a toggle click |
| `MobileMenu.ToggleTwiceRestores` | js/script.js:10-14 | two toggle clicks restore the original consistent state |
| `MobileMenu.ToggleOpensThenCloses` | js/script.js:10-14 | from the loaded state one click opens the menu with scrolling locked, a second closes it |
| `MobileMenu.RunKeepsConsistent` | js/script.js:10-32 | from a consistent state, any sequence of menu events keeps toggle = menu and overflow-hidden = menu |
| `ScrollRules.SmoothScrollTop` | js/script.js:44-46 | the scroll target puts the element's top exactly 80 units below the viewport top |
| `ScrollRules.SmoothScrollIgnoresStart` | js/script.js:45-46 | the destination depends only on the element's document position, not on the current scroll |
| `ScrollRules.HasShadow` | js/script.js:67 | the header carries its shadow iff the scroll is strictly greater than 50 |
| `ScrollRules.ParallaxApplies` | js/script.js:166 | the hero transform is rewritten iff the hero exists and the scroll is below its height |
| `ScrollRules.ParallaxFrozenPastHero` | js/script.js:166 | once the scroll reaches the hero's height, further scrolling never updates the transform |
| `Highlight.InSection` | js/script.js:113-118 | an offset y is in a section's span iff (offsetTop − 100) < y ≤ (offsetTop − 100) + offsetHeight |
| `Highlight.LinkHref` | js/script.js:116 | the href a section's link must carry is `#` followed by exactly the section id |
| `Highlight.FirstLink` | js/script.js:116 | the lookup returns the first link with that href, or None exactly when no link has it |
| `Highlight.Step` | js/script.js:113-122 | one loop iteration keeps the number of links |
| `Highlight.Highlighted` | js/script.js:112-123 | the whole loop keeps the number of links |
| `Highlight.HighlightedAt` | js/script.js:112-123 | after the loop, a link keeps its flag if no section points at it, else it holds the span test of the last section that does |
| `Highlight.HighlightIdempotent` | js/script.js:109-124 | running the highlighter twice at the same offset equals running it once |
| `Highlight.SectionDecidesLink` | js/script.js:118-122 | a section not overridden by a later one leaves its link active iff the offset is in its span |
| `Highlight.SameLinkSameId` | js/script.js:116 | two sections that resolve to the same link have the same id |
| `Highlight.HighlightMatchesSpans` | js/script.js:112-123 | with distinct ids, every linked section's link is active iff (top−100) < y ≤ (top−100)+height |
| `Highlight.UnmatchedLinkUnchanged` | js/script.js:116-122 | sections without a matching link are skipped: links nobody points at keep their class |
| `Highlight.AdjacentSpansDisjoint` | js/script.js:118 | back-to-back sections never both contain an offset |
| `FadeIn.Revealed` | js/script.js:85-92 | the callback keeps one style per observed element |
| `FadeIn.RevealedAt` | js/script.js:86-91 | an element ends shown iff it was shown or some entry reports it intersecting; otherwise its style is kept |
| `FadeIn.RevealedOnlyGrows` | js/script.js:86-91 | a shown element stays shown; an element hidden afterwards was hidden before and was not reported intersecting |
| `FadeIn.ShownSetGrows` | js/script.js:85-92 | across successive callbacks the set of shown elements only grows |
| `Debounce.Step` | js/script.js:203-210 | a call replaces the pending slot with its own arguments and runs nothing; a firing runs the pending arguments and empties the slot |
| `Debounce.BurstRunsOnce` | js/script.js:201-211 | a burst of calls and one firing run the function once, with the last call's arguments |
| `Debounce.RunsAtMostCalls` | js/script.js:201-211 | the function never runs more often than it was called (plus one already pending) |
| `Debounce.Debouncer.constructor` | js/script.js:202 | a fresh debounced function has nothing pending |
| `Debounce.Debouncer.Call` | js/script.js:208-209 | a call cancels the pending invocation and schedules one with its arguments |
| `Debounce.Debouncer.Fire` | js/script.js:204-207 | firing returns the most recent arguments and leaves the slot empty |
| `EmailProtection.Reverse` | js/script.js:261-262 | reversal keeps the length |
| `EmailProtection.ReverseAt` | js/script.js:261-262 | each position of the reversal holds the mirrored character |
| `EmailProtection.ReverseInvolutive` | js/script.js:261-262 | reversing twice gives back the original string |
| `EmailProtection.Decode` | js/script.js:261-263 | the address is the reversed user part, then '@', then the reversed domain part |
| `EmailProtection.Mailto` | js/script.js:273 | the revealed href is "mailto:" followed by exactly the address |
| `EmailProtection.UserDecodes` | js/script.js:261 | "ofni" reverses to "info" |
| `EmailProtection.DomainDecodes` | js/script.js:262 | "moc.sqerfytrid" reverses to "dirtyfreqs.com" |
| `EmailProtection.AddressIs` | js/script.js:261-273 | the literals decode to "info@dirtyfreqs.com" and the href to "mailto:info@dirtyfreqs.com" |
| `EmailProtection.AddressDistinguishable` | js/script.js:263-320 | the address differs from the copied notice and both prompts |
| `EmailProtection.Initial` | js/script.js:256-266 | after initialisation the link keeps its markup text and href, records whether the clipboard API exists, and has no copy listener and nothing pending |
| `EmailProtection.Click` | js/script.js:266-307 | an untrusted click changes neither text, href nor styles; a trusted one writes the address and the mailto href, disables pointer events, sets the text cursor and schedules one more copy listener; each attached copy listener starts one write when the clipboard API exists and none otherwise |
| `EmailProtection.EnableFires` | js/script.js:278-305 | the 100 ms timer attaches exactly one copy listener and re-enables pointer events; text, href, pending writes and reverts untouched |
| `EmailProtection.CopySettles` | js/script.js:281-301 | success or fallback alike, the text becomes "Email copied!" and a revert of the prior text is queued; href, styles, listeners and timers are unchanged |
| `EmailProtection.RevertFires` | js/script.js:284-286 | the earliest revert restores its saved text; every other field is unchanged |
| `EmailProtection.HoverEnter` | js/script.js:310-314 | the hidden prompt becomes the hover prompt; any other text stays |
| `EmailProtection.HoverLeave` | js/script.js:316-320 | the hover prompt becomes the hidden prompt; any other text stays |
| `EmailProtection.HoverRoundTrip` | js/script.js:310-320 | mouse-enter then mouse-leave restores "Click to reveal email" |
| `EmailProtection.HoverKeepsOtherTexts` | js/script.js:310-320 | hover never changes any other text, such as the revealed address |
| `EmailProtection.CopyThenRevertRestores` | js/script.js:281-300 | one copy shows "Email copied!" and its revert restores the prior text, whichever path copied |
| `EmailProtection.OverlappingCopiesKeepNotice` | js/script.js:282-286 | two copies settling before the first revert leave "Email copied!" on screen after both reverts |
| `EmailProtection.NoRevealWithoutTrustedClick` | js/script.js:266-320 | without a trusted click, no run of events puts the address into the text, the href or a pending revert |
| `EmailProtection.NoticeNeedsClipboard` | js/script.js:279-301 | without the clipboard API no run of events ever shows "Email copied!" |
| `EmailProtection.ListenersCountTrustedClicks` | js/script.js:266-305 | attached plus scheduled copy listeners grow by exactly the number of trusted clicks |
| `EmailProtection.EmailLink.constructor` | js/script.js:256-263 | the link starts from its markup with the decoded address "info@dirtyfreqs.com" and the browser's clipboard capability |
| `EmailProtection.EmailLink.OnClick` | js/script.js:266-307 | the new state is `Click` of the old one |
| `EmailProtection.EmailLink.OnEnableTimer` | js/script.js:278-305 | the new state is `EnableFires` of the old one |
| `EmailProtection.EmailLink.OnCopySettled` | js/script.js:281-301 | the new state is `CopySettles` of the old one |
| `EmailProtection.EmailLink.OnRevertTimer` | js/script.js:284-286 | the new state is `RevertFires` of the old one |
| `EmailProtection.EmailLink.OnMouseEnter` | js/script.js:310-314 | only the text changes, to `HoverEnter` of the old text |
| `EmailProtection.EmailLink.OnMouseLeave` | js/script.js:316-320 | only the text changes, to `HoverLeave` of the old text |
| `Page.Page.constructor` | js/script.js:95-101 | the page loads with the menu closed and consistent, exactly `animatedCount` animated elements each styled hidden, nothing pending |
| `Page.Page.ClickToggle` | js/script.js:10-14 | the menu flags become `ToggleClick` of the old ones; consistency kept |
| `Page.Page.ClickNavLink` | js/script.js:17-23 | the menu flags become `LinkClick` of the old ones |
| `Page.Page.ClickDocument` | js/script.js:26-32 | the menu flags become `DocumentClick` of the old ones |
| `Page.Page.KeyDownOnToggle` | js/script.js:244-249 | the menu flags become `ToggleKeyDown` of the old ones |
| `Page.Page.ClickAnchor` | js/script.js:38-54 | a scroll is requested iff the target exists, to an offset 80 above the target's document top; nothing else changes |
| `Page.Page.ScrollHeader` | js/script.js:63-74 | with a header, the shadow is set iff the scroll is above 50 and `lastScroll` becomes the scroll; without one nothing changes |
| `Page.Page.HighlightNavigation` | js/script.js:109-124 | the loop leaves the link classes equal to `Highlighted` of the old ones at the current offset |
| `Page.Page.ScrollParallax` | js/script.js:162-169 | the hero transform is recomputed iff the hero exists and the scroll is below its height, else left unchanged |
| `Page.Page.Scroll` | js/script.js:63-214 | a scroll runs header, highlighter, parallax and the debounced call in registration order, with the effects of each |
| `Page.Page.DebounceFires` | js/script.js:201-214 | the debounce timer runs the highlighter at the current offset iff a call was pending, and empties the slot |
| `Page.Page.Intersect` | js/script.js:85-92 | the callback leaves the styles equal to `Revealed` of the old ones |
| `Page.ScrollThenDebounce` | js/script.js:213-214 | with the layout unchanged, a scroll followed by the debounced firing leaves the links as the raw handler alone did |

## Left out

- DOM querying, selectors and event bubbling: elements are given records. The lists of sections and links are fixed at load, as the script's `querySelectorAll` results are.
- Layout changes are not modelled. The script re-reads `offsetTop` and `offsetHeight` of every section, `hero.offsetHeight`, and the link lookup on each event, but the model fixes section geometry, hero height and link hrefs per page. So `Page.ScrollThenDebounce` covers an unchanged layout only.
- Scroll offsets and bounding-box tops are integers here. In the browser they are fractional numbers.
- A click that bubbles is delivered as separate calls (`ClickNavLink`, `ClickAnchor`, `ClickDocument`). `contains` is a pair of booleans.
- `Highlight.LinkHref`: ids are compared literally with the link's href. The script puts the id inside a CSS string (`.nav-link[href="#id"]`), where a backslash starts an escape. So for an id containing `\`, the script matches a different href than `#` followed by the id, and such ids are outside the model.
- Selector failures are not modelled. An anchor href that is not a valid selector (for example the bare `#`) makes `querySelector` throw, with the same outcome as a missing target: no scroll. A section id is placed inside the quoted string of `.nav-link[href="#id"]`, so an id containing `"` or a line break makes that selector throw. The exception would end the highlighter's loop early, and the model does not capture that.
- `Page.Page.ClickAnchor` returns the offset passed to `window.scrollTo`. It leaves out the browser's smooth animation and its clamping to the scrollable range. The resulting position reaches the page as ordinary `Scroll` events.
- `Page.Page.ScrollParallax` records the scroll offset the transform is computed from, not the floating-point `translateY(scrolled * 0.5px)` string.
- When an element intersects (`threshold`, `rootMargin`) is decided by the browser, so observer entries are given.
- Timer durations (10, 100 and 2000 ms) are not modelled. Each timer firing is its own event. Revert timers fire in the order they were scheduled, which their equal durations imply.
- The clipboard API and `document.execCommand('copy')` are browser calls. Whether `navigator.clipboard` exists is a constant of the link. When it exists, a write's outcome is a boolean that does not affect the state, because both paths make the same text change.
- `Page.Page.constructor`: the menu is assumed to start closed (the markup is not part of this model). The consistency invariant depends on that.
- The model assumes both `.nav-toggle` and `.nav-menu` exist. Without `.nav-toggle`, the script throws at load (js/script.js:10) and registers nothing after it. Without `.nav-menu`, the page loads, but each menu handler throws part-way through. A toggle click flips the toggle's class and then throws before touching the menu and overflow. A link click clears the toggle and then throws. A document click outside the toggle throws before closing anything.
- A page without `#email-link` never constructs an `EmailLink`.
- `EmailProtection.EmailLink.OnClick` can be called even while `pointer-events` is `none`: that style blocks mouse clicks but not keyboard activation or script clicks.
- `preventDefault` calls are not modelled, because the model has no navigation state.
- Presentational styling is left out: opacity and transform strings, transitions, the video-wrapper hover scale, the skip link with its focus and blur offsets, and the body's `loaded` class.
- Console messages and the page-load timing are left out.
- Iframe lazy loading is dead code, because its observer is never attached.
