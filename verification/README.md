# Navigation header and process cycler, modelled in Dafny

This project models the logic of the site's floating navigation header
(`components/custom/navbar.tsx`) and of the `ProcessCycler` step label
(`components/custom/design-process.tsx`), with rendering, styling and browser
plumbing stripped away. What is left is pure functions over strings, small
integers and an explicit clock:

- path and href helpers: `samePath` normalisation (`Paths`), `splitBaseAndHash`
  on top of a model of JavaScript's `split` (`Text`, `Hrefs`);
- the active-link rule `isActive` over the header's link table, and the list
  of in-page anchors the scroll-spy watches (`Active`);
- the scroll-spy callback: the 600 ms suppression window after a manual
  click, the stable sort of intersecting entries by ratio, and `setHashSafe`
  writing the fragment by replacement (`ScrollSpy`);
- `markManualNavWithHref` and the bounded `tryScroll` retry loop (`ManualNav`);
- the reference-counted history patch `ensureHistoryPatched` and its disposer
  (`HistoryPatch`);
- the mobile menu flag and the events that toggle or clear it (`MobileMenu`);
- the four-label `ProcessCycler` index (`ProcessCycler`).

Time is an `int` of milliseconds standing for `performance.now()`. An
intersection entry is `(id, isIntersecting, ratio)` with a `real` ratio. "The
element exists at lookup k" is an oracle `found: nat -> bool`. The viewport
breakpoint `isMdUp` is an input.

Behaviour the proofs bring out, all as the code is written:

- There is no precedence between a plain link and a fragment link on the same
  page. Both are current when the fragment matches
  (`Active.NoPrecedenceBetweenPlainAndHashLinks`). A "most specific link wins"
  rule would be a different program, and the model does not add one. With the
  header's actual table at most one link is current, because the three paths
  are different (`Active.StaticTableAtMostOneActive`).
- None of the header's three links has a fragment. So `inPageAnchors` is empty
  on every page, the scroll-spy effect returns before creating an observer,
  and the spy never changes the history (`ScrollSpy.HeaderSpyNeverWrites`). For the same reason a click never
  requests a fragment, so the scroll retries never start
  (`ManualNav.StaticLinksRequestNothing`). The comment above the table speaks
  of a "/#home" link, but the table holds "/".
- The 2000 ms limit is checked once, before the first lookup. It is not a
  deadline for the retries: six lookups are spread over at least 500 ms
  (nominally 500 ms, `spanMs` in `ManualNav.ScrollToRequested`), because each
  `setTimeout` delay is a minimum. So a retry run that starts at 1999 ms ends
  no earlier than about 2499 ms after the click.
- Pending retries are not cancelled when the header unmounts or the route
  changes. Every run of the effect starts its own chain of timers.
- While the header is mounted its hash store holds the history patch, so a
  spy write goes through the patched `replaceState`, which schedules a
  `hashchange` itself; `setHashSafe` then schedules a second one
  (`ScrollSpy.SubscribedWriteNotifiesTwice`).
- Escape and outside pointer-downs are only listened to while the panel is
  shown. Escape pressed on a wide viewport therefore leaves the flag set, and
  the panel comes back when the viewport narrows
  (`MobileMenu.EscapeOnWideViewportKeepsFlag`).
- The reference count stays balanced only if each disposer runs at most once.
  Running one twice drives the count to -1, and the next subscriber then
  installs the patch with a count of 0 (`HistoryPatch.DoubleDisposeUnbalances`).
  React calls each unsubscribe once, so this is a usage condition rather than
  a defect.

## Model

| member | source | states |
|---|---|---|
| Text.Split | components/custom/navbar.tsx:162 | `split` yields at least one piece and no piece contains the separator |
| Text.SplitJoin | components/custom/navbar.tsx:162 | splitting at '#' and joining the pieces back with '#' gives the original string, so `split` loses nothing by itself |
| Text.SplitCount | components/custom/navbar.tsx:162 | `split` returns exactly one more piece than there are separators |
| Text.StripTrailing | components/custom/navbar.tsx:169 | removing the trailing run of '/' leaves a prefix that does not end in '/', and every dropped character was '/' |
| Paths.Normalize | components/custom/navbar.tsx:168-171 | the normal form is never empty and ends in '/' only when it is exactly "/"; an empty or all-slash path becomes "/"; otherwise it is the path minus its trailing slashes |
| Paths.SamePath | components/custom/navbar.tsx:168-171 | two paths are the same exactly when they agree after dropping trailing slashes, so "", "/" and "///" are all the root |
| Paths.NormalizeIdempotent | components/custom/navbar.tsx:169 | normalising a normal form changes nothing |
| Paths.SamePathEquivalence | components/custom/navbar.tsx:168-171 | `samePath` is reflexive, symmetric and transitive |
| Paths.NormalizeFixesCleanPath | components/custom/navbar.tsx:169 | a non-empty path with no trailing slash is its own normal form |
| Hrefs.SplitBaseAndHash | components/custom/navbar.tsx:159-166 | with no '#' the result is (href, ""); with a leading '#' it is ("", href); otherwise the base is the '#'-free text before the first '#', and the hash is '#' plus the '#'-free text up to the next '#' or the end |
| Hrefs.SplitAtFirstHash | components/custom/navbar.tsx:161-163 | the `split("#")` branch yields a non-empty page part, and a fragment that together with it forms a prefix of the href ending at a '#' or at the end |
| Hrefs.PartsPresence | components/custom/navbar.tsx:159-166 | the hash is non-empty exactly when the href contains '#', and then starts with '#'; the base is empty exactly when the href is empty or starts with '#' |
| Hrefs.PartsRejoin | components/custom/navbar.tsx:159-166 | base followed by hash equals the href exactly when the href starts with '#' or has at most one '#'; text after a second '#' is dropped |
| Active.IsActive | components/custom/navbar.tsx:237-242 | a link without '#' is current iff its path matches the route; a fragment-only link iff the fragment is textually equal; a link with both needs both |
| Active.PlainLinkActive | components/custom/navbar.tsx:239 | a plain link is current exactly when `samePath(pathname, href)` holds |
| Active.PlainLinkIgnoresHash | components/custom/navbar.tsx:239 | a plain link's state does not depend on the location fragment |
| Active.AtMostOneActive | components/custom/navbar.tsx:237-242 | in a table of plain links with pairwise different paths, at most one link is current, and it is the one whose path matches the route |
| Active.StaticTablePlainAndDistinct | components/custom/navbar.tsx:32-36 | the header's three links have no fragment, and their paths normalise to three different paths |
| Active.StaticTableIsPlain | components/custom/navbar.tsx:32-36 | no href of the header's table contains '#' |
| Active.StaticTableDistinctPaths | components/custom/navbar.tsx:32-36 | the three hrefs of the header's table have pairwise different normal forms |
| Active.StaticTableAtMostOneActive | components/custom/navbar.tsx:237-242 | with the header's table, no two links are current together for any route and fragment |
| Active.CleanLinkActive | components/custom/navbar.tsx:239 | a plain link in normal form is current exactly when the route normalises to it |
| Active.NoPrecedenceBetweenPlainAndHashLinks | components/custom/navbar.tsx:239-241 | "/" and "/#home" are both current on "/" with fragment "#home": there is no tie-break |
| Active.InPageAnchors | components/custom/navbar.tsx:245-250 | the id of every link with a fragment whose base is empty or the current page is an anchor; there are no more anchors than links; the list is empty iff no link qualifies |
| Active.InPageAnchorsOnlyWatched | components/custom/navbar.tsx:245-250 | conversely, every anchor is the id (fragment minus '#') of such a link |
| Active.InPageAnchorsAppend | components/custom/navbar.tsx:245-250 | the anchors of two tables in sequence are the first table's anchors then the second's, so link order is kept |
| Active.PlainTableHasNoAnchors | components/custom/navbar.tsx:248 | a table of links without fragments yields no anchors on any page |
| Active.StaticTableHasNoAnchors | components/custom/navbar.tsx:245-250 | with the header's table the anchor list is empty on every page |
| ScrollSpy.Visible | components/custom/navbar.tsx:293 | the kept entries are all intersecting and come from the batch, and every intersecting entry is kept |
| ScrollSpy.VisibleAppend | components/custom/navbar.tsx:293 | filtering distributes over concatenation, so entry order is kept |
| ScrollSpy.SortByRatio | components/custom/navbar.tsx:295 | the sort by `b.intersectionRatio - a.intersectionRatio` is a permutation of the visible entries, ordered by decreasing ratio |
| ScrollSpy.FirstMaxIndex | components/custom/navbar.tsx:295-296 | the index returned holds a largest ratio, and every earlier entry has a strictly smaller one |
| ScrollSpy.FirstMaxUnique | components/custom/navbar.tsx:295-296 | there is only one first position of a largest ratio |
| ScrollSpy.SortHeadIsFirstMax | components/custom/navbar.tsx:295-296 | the head of the stable sort is the first entry of largest ratio; a later entry with an equal ratio never wins |
| ScrollSpy.ReplaceNotifications | components/custom/navbar.tsx:77-84 | a `replaceState` call schedules a `hashchange` of its own exactly when the slot holds the patch's wrapper |
| ScrollSpy.SetHashSafe | components/custom/navbar.tsx:277-284 | afterwards the fragment is "#id" and path and query are unchanged; the history is untouched exactly when the fragment already was "#id"; the current entry is replaced and no entry is pushed; a write schedules one notification, two when `replaceState` is the patched wrapper |
| ScrollSpy.SetHashSafeIdempotent | components/custom/navbar.tsx:277-284 | writing the same id twice equals writing it once, so at most two notifications are scheduled |
| ScrollSpy.SubscribedWriteNotifiesTwice | components/custom/navbar.tsx:277-284 | while a subscriber holds the history patch, a write that changes the fragment schedules two notifications: the wrapper's and `setHashSafe`'s own |
| ScrollSpy.OnIntersect | components/custom/navbar.tsx:287-298 | earlier history entries stay; nothing changes within 600 ms of a manual click; any change is the write of the id of an intersecting entry with a non-empty id |
| ScrollSpy.OnIntersectSpec | components/custom/navbar.tsx:287-298 | nothing changes without an intersecting entry or when the winner has no id; otherwise the fragment becomes the id of the first intersecting entry of largest ratio |
| ScrollSpy.MostVisibleSectionWins | components/custom/navbar.tsx:287-298 | with "home" at ratio 0.3 and "services" at 0.8, both intersecting, the fragment becomes "#services"; with neither intersecting nothing changes |
| ScrollSpy.SpyEffect | components/custom/navbar.tsx:273-312 | the effect never touches earlier history entries, and with no in-page anchor it creates no observer, so the history stays as it is |
| ScrollSpy.SpyWritesOnlyAnchors | components/custom/navbar.tsx:306-309 | when the observed entries are the elements looked up by the anchors, the spy writes nothing or the id of an in-page anchor of the current page |
| ScrollSpy.HeaderSpyNeverWrites | components/custom/navbar.tsx:274-275 | with the header's table the spy never changes the history, on any page and for any batch of entries |
| ManualNav.MarkManualNavWithHref | components/custom/navbar.tsx:263-271 | the click time is recorded; a missing or empty href requests nothing; otherwise a fragment is requested exactly when the href has a '#', and it is the href's hash |
| ManualNav.StaticLinksRequestNothing | components/custom/navbar.tsx:263-271 | a click on any link of the header's table leaves no requested fragment |
| ManualNav.TargetId | components/custom/navbar.tsx:322 | the looked-up id is the requested fragment minus a leading '#' when there is one, else the fragment itself |
| ManualNav.ClickTargetsAnchor | components/custom/navbar.tsx:263-271 | after a click on an href with '#', the id looked up is the id the href's fragment names |
| ManualNav.TryScroll | components/custom/navbar.tsx:325-342 | a present element is scrolled to without counting an attempt; a missing one counts an attempt and schedules a retry 100 ms later while fewer than six were made, else gives up; scrolling or giving up clears the request, a retry keeps it |
| ManualNav.ScrollToRequested | components/custom/navbar.tsx:317-352 | no lookup when nothing is requested or the click is 2000 ms or more old; otherwise 1 to 6 lookups, a scroll exactly at the first successful lookup, 6 lookups when none succeeds, the request cleared in both cases, and a nominal 100 ms between lookups |
| HistoryPatch.Acquire | components/custom/navbar.tsx:59-86 | a subscription adds one reference and leaves the patch installed; only when unpatched does it save the current functions |
| HistoryPatch.Release | components/custom/navbar.tsx:87-96 | a disposal removes one reference; only when the count reaches 0 while patched does it restore the saved functions, clear them and unpatch |
| HistoryPatch.Replay | components/custom/navbar.tsx:54-97 | whatever the order of subscriptions and disposals, the count rises by one per subscription and falls by one per disposal, and handles are numbered consecutively |
| HistoryPatch.AcquireKeepsBalance | components/custom/navbar.tsx:62-66 | taking a reference preserves "patched iff refs > 0"; the saved originals change only on the 0 -> 1 step |
| HistoryPatch.ReleaseKeepsBalance | components/custom/navbar.tsx:88-95 | dropping a held reference preserves the balance; the browser's functions come back exactly on the 1 -> 0 step |
| HistoryPatch.ReplayKeepsBalance | components/custom/navbar.tsx:54-97 | for any sequence of subscriptions and disposals where each disposer runs at most once, the count equals the number of live subscriptions and the balance invariant holds |
| HistoryPatch.BalancedReplayRestores | components/custom/navbar.tsx:87-96 | once every subscriber has disposed, the state is the initial one with the browser's functions back in place |
| HistoryPatch.DoubleDisposeUnbalances | components/custom/navbar.tsx:87-96 | running one disposer twice breaks the balance: a later subscription finds the patch installed with a count of 0 |
| MobileMenu.IsMobileOpen | components/custom/navbar.tsx:209 | the panel is never shown on a wide viewport, and on a narrow one it is shown exactly when the flag is set |
| MobileMenu.Step | components/custom/navbar.tsx:355-496 | the toggle (line 409) flips the flag; a mobile link click (493-496) clears it; Escape, a pointer-down outside the island element and the backdrop (385) clear it only while the panel is shown; other keys, pointer-downs inside the island and desktop link clicks change nothing |
| MobileMenu.DismissAndOpen | components/custom/navbar.tsx:209 | every dismissing event hides a shown panel; only the toggle sets the flag; on a wide viewport the panel is never shown |
| MobileMenu.ToggleTwice | components/custom/navbar.tsx:409 | two toggles restore the flag |
| MobileMenu.EscapeOnWideViewportKeepsFlag | components/custom/navbar.tsx:355-367 | Escape on a wide viewport leaves the flag set, so the panel shows again on a narrow one |
| ProcessCycler.Tick | components/custom/design-process.tsx:96 | a tick stays below 4 and advances to the next index, wrapping from the last to 0 |
| ProcessCycler.IndexAfter | components/custom/design-process.tsx:92-96 | the index after any number of ticks from 0 is a valid step index, so `steps[index]` is always defined |
| ProcessCycler.IndexAfterIsMod | components/custom/design-process.tsx:92-96 | after n ticks the index is n mod 4 |
| ProcessCycler.LabelsRepeatEveryFourTicks | components/custom/design-process.tsx:91-96 | every four ticks the same label returns, and the label shown is always one of the four steps |
| ProcessCycler.LabelOrder | components/custom/design-process.tsx:91-96 | the labels run RESEARCH, DESIGN, FINALIZE, APPLICATION and back to RESEARCH |

## Left out

- Rendering: JSX, CSS class strings, `motion`/`AnimatePresence` props, the
  logo, the `hasMounted` animation flag and the panel height measured with
  `ResizeObserver`. They are presentation.
- `scrolled = window.scrollY > 8`: a float read from the browser with a
  trivial comparison.
- `useMediaQuery`: its result is the `isMdUp` input of `MobileMenu`.
- `useHash` and `useSyncExternalStore`: the subscription plumbing appears only
  as the `Subscribe`/`Dispose` events of `HistoryPatch`. The wrappers' own
  behaviour (call the saved function, then schedule a `hashchange`) is
  represented only by which function occupies each history slot.
- `scheduleHashChange`: `requestAnimationFrame`/`setTimeout` and the event
  dispatch are left out. `ScrollSpy.SetHashSafe` counts the notifications
  scheduled instead: its own, plus the patched wrapper's when
  `history.replaceState` is the wrapper.
- IntersectionObserver geometry (`rootMargin`, thresholds) and which anchors
  have an element in the document: the callback's entries are an input,
  constrained only by `ScrollSpy.ObservedOnly` to ids of anchors.
- URL handling inside `history.replaceState`: the new location is taken to
  have the old path and query and the fragment "#id", with no percent-encoding.
- Interleaving during the retries: `ManualNav.ScrollToRequested` runs the
  whole retry chain as one call, so a click that lands between two retries is
  not modelled. Timer cancellation is not modelled either; the code has none.
- The server-side branches (`typeof window === "undefined"`), which return
  no-op values.
- `performance.now()` is a float in the browser; the model uses whole
  milliseconds.
- ManualNav.ScrollToRequested: reports `spanMs`, the sum of the nominal
  100 ms delays between the first and the last lookup, not absolute times.
  The first lookup waits for an animation frame of unknown length, and each
  `setTimeout` delay is only a minimum, so the real span is at least
  `spanMs`.
- The 2000 ms interval timer of `ProcessCycler` is scheduling; a tick is one
  firing of it.
- The static content components (hero, profile, services, portfolio, footer,
  layout and pages). They hold fixed copy and images only.
