# BollyFlix front-end script, modelled in Dafny

`script.js` adds a few behaviours to the pages of a film-listing site:

- a mobile menu toggle,
- a scroll-to-top button,
- a search box that redirects to the site's search page,
- a lazy-loading fallback for images,
- keyboard activation of grid items,
- smooth scrolling for in-page anchors and a skip link,
- highlighting of the current navigation link,
- loading/error classes on grid images.

It also defines two rate-limiting combinators, `throttle` and `debounce`.

This project models two parts of the script.

**The combinators** are timed state machines (`throttling.dfy`, `debouncing.dfy`).
- Each has a pure state datatype with one step function per event.
  - `OnCall` handles a call of the wrapper at time `t`.
  - `OnTimer` handles a scheduled callback going off.
- Each also has a class with the same fields (`Throttled`, `Debounced`). Its methods `Call` and `TimerFires` are proved to perform exactly those steps.
- Time is a `nat` count of milliseconds.
- The host's timers are part of the state, so the claim "at most one timer is ever pending" is proved, not assumed.
  - For `throttle` they are a list of due times.
  - For `debounce` they are a table keyed by the handle that `setTimeout` returns and `clearTimeout` takes.

Two levels of time are modelled.
- **Event traces.** `Invoke` and `Expire` events arrive in whatever order the event loop runs them. A timer may go off at or after its due time. When a call and a timer expiry land on the same millisecond, the trace's order decides which runs first. The invariants hold for every trace:
  - runs of a throttled handler are at least `limit` apart, as long as every run returns normally;
  - a throttled run always happens at the time of a call, with that call's arguments;
  - a debounced wrapper has at most one pending timer, and it is the one the latest call scheduled.
- **Prompt delivery.** Timers go off exactly when due. A `TieOrder` parameter (`TimerFirst` or `CallFirst`) settles same-instant ties. Under this discipline each combinator equals an independent reference definition written only in terms of call times:
  - `ThrottleRef`: a call runs exactly when the window of the previous run is over;
  - `Coalesced`: a scheduled run survives exactly when the next call comes after its due time.

  For both combinators, the prompt schedule is shown to be one of the traces the event loop can produce. Prompt delivery assumes that `func` returns normally.

**The event handlers** are in `handlers.dfy`, over the element model of `dom.dfy`.
- An element is an object with a set of class names, a map of attributes and a `src`.
- The handlers update elements in place. Each one is proved against a pure function of the element's old state, and the lemmas about those functions carry the properties.
- Effects that leave the page model are returned as the element or address they would act on: navigation, `scrollIntoView`, `focus` and `link.click()`.

The page registers `toggleScrollButton` twice on `scroll`:
- unthrottled at script.js:39;
- through `throttle(toggleScrollButton, 100)` at script.js:264-265.

`OnWindowScroll` models both listeners. Its contract says the button is correct for the current offset after every scroll event. The throttle therefore limits nothing on this page. `debounce` is defined but never used.

`debounce` does not forward the receiver: script.js:242 calls `func(...args)`, so `Debounced` records arguments only, while `Throttled`'s argument type `A` bundles the receiver and the arguments (`func.apply(context, args)`).

`throttle` runs `func` before it raises its flag and schedules the timer (script.js:256-258). A `func` that throws therefore leaves the flag down and no timer pending, and the next call runs it again at once. The model gives each call a `returned` outcome:
- the spacing of runs is proved for traces in which every run returns;
- the one-timer shape is proved for every trace;
- a sequence of throwing calls is proved to run `func` every time, however close together the calls come.

In `debounce`, `later` clears the handle before it calls `func` (script.js:240-241), so a throwing `func` leaves the same state as a returning one.

## Model

| member | source | states |
|---|---|---|
| `Throttling.Throttled.constructor` | script.js:250-251 | a fresh wrapper has its flag down, no pending timer and no runs |
| `Throttling.Throttled.Call` | script.js:252-260 | a call with the flag down runs the handler now with its own arguments; if the handler returns, the flag goes up and one timer is scheduled `limit` later; if it throws, the flag stays down and no timer is scheduled; a call with the flag up changes neither the log nor the timers; the one-timer shape is kept, and the full invariant too while every run has returned |
| `Throttling.Throttled.TimerFires` | script.js:258 | the timer lowers the flag, retires itself and runs no handler |
| `Throttling.StepShape` | script.js:255-258 | every event, including a call whose handler throws, keeps the shape: the flag is up exactly while one timer is pending, and that timer is due `limit` after the latest run |
| `Throttling.OneTimerAtMost` | script.js:255-258 | for every trace, whether or not the handler throws, at most one timer is pending and the flag is up exactly while it is |
| `Throttling.StepInv` | script.js:255-258 | every event whose handler run returns keeps the full invariant: the shape, and runs `limit` apart |
| `Throttling.ExecutionsSpaced` | script.js:255-258 | for every trace in which the handler returns, whatever the interleaving and however late timers run, any two runs are at least `limit` apart and at most one timer is pending |
| `Throttling.ThrowingHandlerRunsEveryCall` | script.js:255-258 | while the handler throws, every call runs it, each at its own time with its own arguments, and the flag stays down with no timer scheduled |
| `Throttling.ExecutionsAreLeadingCalls` | script.js:255-260 | runs are only ever appended, and each happens at the time of a call in the trace with that call's arguments: dropped calls are not queued and there is no trailing run |
| `Throttling.ThrottleMatchesReference` | script.js:250-261 | with prompt timers and either tie order, the runs are exactly those of `ThrottleRef`: a call runs iff there was no earlier run or the latest run's window is over |
| `Throttling.PromptIsTrace` | script.js:252-260 | prompt delivery of time-ordered calls is an enabled trace of the event model and ends in the state it computes |
| `Throttling.ThrottleScenario` | script.js:250-261 | `throttle(fn, 100)` called at 0, 10, 50, 110 and 120 runs `fn` exactly for the calls at 0 and 110 |
| `Debouncing.Debounced.constructor` | script.js:237-238 | a fresh wrapper has no handle, no live timer and no runs |
| `Debouncing.Debounced.Call` | script.js:239-246 | a call cancels the timer its handle names; the only live timer is then a new one due `wait` later that carries this call's arguments; nothing runs |
| `Debouncing.Debounced.TimerFires` | script.js:240-243 | the live timer runs the handler once with the arguments it captured and leaves no timer live |
| `Debouncing.Cleared` | script.js:244 | `clearTimeout` removes only the named timer; without a handle it removes nothing |
| `Debouncing.InvAtMostOne` | script.js:239-246 | under the invariant, whose only live timer can be the one `timeout` names, at most one timer is pending |
| `Debouncing.StepInv` | script.js:239-246 | every event keeps the invariant that every live timer is the one `timeout` names, so at most one is pending |
| `Debouncing.PendingIsLatestCall` | script.js:239-246 | for every trace, at most one timer is live, and once there has been a call it is the timer of the latest call, due `wait` after it, with its arguments |
| `Debouncing.FiresWithLatestArgs` | script.js:240-245 | a timer going off after any trace from the start runs the handler with the latest call's arguments, no earlier than `wait` after that call, and leaves nothing pending |
| `Debouncing.PromptIsTrace` | script.js:239-246 | prompt delivery of time-ordered calls is an enabled trace of the event model and ends in the state it computes |
| `Debouncing.DebounceMatchesReference` | script.js:237-247 | with prompt timers, either tie order and a final quiet period, the runs are exactly those of `Coalesced` |
| `Debouncing.BurstRunsOnce` | script.js:239-246 | calls each less than `wait` after the previous one make the handler run exactly once, `wait` after the last call, with its arguments |
| `Debouncing.IsolatedCallsAllRun` | script.js:239-246 | calls that each come after the previous call's timer has gone off each produce their own run, `wait` after the call, with its arguments |
| `Debouncing.DebounceScenario` | script.js:237-247 | `debounce(fn, 50)` called at 0, 20 and 40 runs `fn` once, at 90, with the arguments of the call at 40 |
| `Dom.Toggled` | script.js:11-12 | `classList.toggle(c)` flips membership of `c` and keeps every other class |
| `Dom.ToggledTwice` | script.js:11-12 | toggling the same class twice restores the class list |
| `Handlers.ExpandedAfterClick` | script.js:9-10 | the new `aria-expanded` is always "true" or "false", and it is "false" exactly when the old value was exactly "true" |
| `Handlers.MenuButtonAfterClick` | script.js:9-12 | one click gives the button the new `aria-expanded` and toggles its `active` class; no other attribute changes |
| `Handlers.MenuTwoClicks` | script.js:8-13 | two clicks restore both class lists; they leave `aria-expanded` "true" iff it started "true", and they restore the button iff `aria-expanded` started as "true" or "false" |
| `Handlers.OnMenuToggleClick` | script.js:8-13 | the listener updates the button as above and toggles `nav`'s `active` class; if `nav` is the button itself, its class list ends as it was |
| `Handlers.ScrollButtonAfter` | script.js:22-28 | the button has `visible` exactly when `pageYOffset > 300` (strictly); no other class, attribute or source changes |
| `Handlers.ScrollButtonLatestWins` | script.js:22-28 | only the latest offset matters, so a repeated call with the same offset changes nothing |
| `Handlers.ToggleScrollButton` | script.js:22-28 | `toggleScrollButton` updates the button in place as `ScrollButtonAfter` says |
| `Handlers.OnWindowScroll` | script.js:263-265 | a scroll event runs the plain listener (script.js:39) and then the throttled one; the button is right for the current offset whether or not the throttle ran, and the throttle takes one call step |
| `Handlers.SearchRedirect` | script.js:53-58 | a redirect happens exactly when the trimmed input is non-empty; its address is the fixed prefix followed by the encoded trimmed term |
| `Handlers.OnSearchSubmit` | script.js:51-59 | submitting always prevents the default action and yields `SearchRedirect`'s address |
| `Handlers.LazyLoaded` | script.js:76-78 | an entering image takes its `data-src` as source when that is set and non-empty, otherwise keeps its source; it gains `loaded`; nothing else changes |
| `Handlers.LazyLoadedTwice` | script.js:76-78 | handling the same image twice changes nothing more |
| `Handlers.LazyImageObserver.constructor` | script.js:84 | the observer starts by watching every lazy image |
| `Handlers.LazyImageObserver.OnIntersection` | script.js:73-82 | each intersecting entry's image is updated as `LazyLoaded` says and is no longer observed; other entries' images are unchanged |
| `Handlers.OnGridItemKeydown` | script.js:94-102 | Enter or Space prevents the default action and clicks the item's first link if there is one; any other key does nothing |
| `Handlers.OnAnchorClick` | script.js:118-130 | `href == "#"` leaves the default action and scrolls nothing; any other `href` prevents the default and scrolls to what `querySelector(href)` finds |
| `Handlers.OnSkipLinkClick` | script.js:220-229 | the default is prevented; a found `.main` gets `tabindex="-1"` and is the element to focus and scroll to |
| `Handlers.NavLinkAfter` | script.js:140-145 | a link whose `href` equals the current path gains `active` and `aria-current="page"`; any other link is unchanged; classes are never removed |
| `Handlers.NavLinkAfterTwice` | script.js:141-144 | marking is idempotent, because it never changes `href` |
| `Handlers.MarkCurrentNavLinks` | script.js:140-145 | every link in the list is updated as `NavLinkAfter` says, including links listed twice |
| `Handlers.ImageLoading` | script.js:154 | a grid image gains `loading` and nothing else changes |
| `Handlers.ImageLoaded` | script.js:157-160 | on `load`, `loading` is replaced by `loaded`; other classes stay |
| `Handlers.ImageFailed` | script.js:163-168 | on `error`, `loading` is replaced by `error`; other classes stay |
| `Handlers.LazyLoadedWhileLoading` | script.js:78 | the fallback's `loaded` can arrive before the `load` event; then the image carries `loading` and `loaded` together |
| `Handlers.MarkImagesLoading` | script.js:152-154 | every grid image gains `loading` |
| `Handlers.OnImageLoad` | script.js:157-160 | the `load` listener updates the image as `ImageLoaded` says |
| `Handlers.OnImageError` | script.js:163-168 | the `error` listener updates the image as `ImageFailed` says |

## Left out

- Document queries and listener registration (`querySelector`, `querySelectorAll`, `getElementById`, `addEventListener`). Each handler receives the elements its listener would find.
- The real timer facility and event loop. Time is an explicit `nat`, and timer expiry is an explicit event.
- Browser effects: `window.scrollTo`, `scrollIntoView`, `focus`, `link.click()` and the `location.href` redirect. These are returned as the target they would act on, not performed.
- `scrollToTop` and its click listener (script.js:31-36, 41), and the pagination links' scroll reset (script.js:174-184). They consist only of `window.scrollTo`.
- The touch feedback on grid items (script.js:105-111). It only writes `style.transform`, which the element model does not hold.
- `String.prototype.trim` and `encodeURIComponent`. They are function parameters, because their whitespace and Unicode rules are library behaviour.
- `IntersectionObserver` itself and the native lazy-loading feature test (script.js:66-71). Only the callback's per-entry step and the initial `observe` calls are modelled.
- Console logging, the load-time log (script.js:208-213), the `DOMContentLoaded` body class (script.js:270-277) and the commented-out service-worker block (script.js:190-202).
- Host failures: `querySelector(href)` throwing on a malformed selector (script.js:122); `scrollToTopBtn`, `nav` or `searchInput` being null where the code dereferences them (script.js:11, 24, 53).
- URL resolution: reading `img.src` gives an absolute URL in a browser; the model keeps `src` as the plain string that was assigned.
- The `class` attribute: the model keeps class lists and attributes apart, so `attrs` never holds `class`.
- `Handlers.ScrollButtonAfter`: `pageYOffset` is a `real`, so browser floating-point rounding is not modelled.
- `Throttling.Throttled.Call`: `A` bundles the receiver and the arguments. The receiver is not a separate parameter.
- `Throttling.Throttled.Call`: a `func` that calls the wrapper again from inside itself is not modelled. In the source, such a nested call finds the flag still down, so it runs `func` again and schedules a second timer. The model treats each call as one step.
- `Handlers.OnAnchorClick`: a missing `href` becomes the selector "null", as `querySelector(null)` would see it. Which element that finds is the caller's `lookup`.
