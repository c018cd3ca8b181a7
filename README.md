# FontDetect in Dafny

A verified model of `FontDetect`, a browser utility that checks whether a web font is
available. It finds out by comparing rendered text widths. The model covers the decision
logic of its four parts:

- **`_init`**: creates the hidden measuring span exactly once.
- **`isFontLoaded`**: renders a 52-letter sample with the chain `name,generic` for each of
  the five generic families `serif`, `sans-serif`, `monospace`, `cursive` and `fantasy`. It
  answers `true` when every width equals the previous one, and stops at the first width
  that differs.
- **`onFontLoaded`**: a guarded call that either answers at once or starts an interval.
  Each firing of the interval either succeeds, times out or keeps waiting.
- **`whichFont`**: splits an element's `font-family` value on commas and cleans each entry
  with one anchored regular expression. It returns the first entry the presence check
  accepts.

The browser is replaced by parameters:

- **Rendering.** `width: string -> int` is the span's `offsetWidth` for a given
  `font-family` value.
- **Time.** Each firing of the interval is a call `Tick(now, width)`, where `now` is the
  clock reading.
- **Callbacks.** The caller's callbacks and the timer calls are recorded, in order, in an
  event log.
- **jQuery.** The element's computed `font-family` is passed in as a string.

Files:

| file | contents |
|---|---|
| `wrappers.dfy` | `Option` |
| `jsstring.dfy` | the JavaScript `\s` class, `String.prototype.split` on one character, and its inverse `Join` |
| `strip.dfy` | the clean-up regular expression `^\s*['"]?\s*([^'"]*)\s*['"]?\s*$` → `$1`, as a greedy scan, with proofs that the scan is what the regular expression matches |
| `presence.dfy` | the fallback list, the widths, the `Loaded` specification, what the loop probes, and the "first available family is rendered" argument from the source comments |
| `poll.dfy` | one `onFontLoaded` session as a state machine over values (`Begin`, `Step`, `Run`), with its invariants |
| `resolve.dfy` | the search of `whichFont` as a function, with its properties and worked examples |
| `fontdetect.dfy` | the object itself, as classes: `Span` is the helper span, `Detector` holds `_isInitialized`, `span` and the public methods, and `PollSession` is one interval. Each method is proved against the functions above. |

Two details of the source are kept as written:

- **`onLoad` without a null check.** The interval callback calls `p_onLoad` without
  checking that it was given. The model records this as the event `LoadNotAFunction`
  (a `TypeError` in the browser), which comes after the interval is cleared.
- **The position of `onFail`.** The usage comment at the top of `lib/fontdetect.js` puts
  `onFail` inside the options object. The code takes `p_onFail` as the third parameter and
  reads only `msInterval` and `msTimeout` from the options. The model follows the code.

## Model

| member | source | states |
|---|---|---|
| JsString.Split | lib/fontdetect.js:184 | `split(',')` always yields at least one piece, and no piece contains the separator |
| JsString.JoinSplit | lib/fontdetect.js:184 | joining the pieces with the separator gives back the split string, so no character is lost or invented |
| JsString.SplitJoin | lib/fontdetect.js:184 | separator-free pieces survive a join followed by a split unchanged |
| Strip.Capture | lib/fontdetect.js:189 | a reported group lies within the entry |
| Strip.CaptureSound | lib/fontdetect.js:189 | when the greedy scan reports a group, the whole entry matches the pattern (padding, quote-free group, padding) with that group |
| Strip.CaptureComplete | lib/fontdetect.js:189 | when the entry matches the pattern in any way, the greedy scan finds a match, so the replacement never keeps an entry the pattern matches |
| Strip.CaptureOfLayout | lib/fontdetect.js:189 | for an entry laid out as spaces, optional quote, spaces, a name starting with a non-space, optional quote and spaces, the group is the name, extended to the end when there is no closing quote |
| Strip.StripEntry | lib/fontdetect.js:189 | the `replace` itself: the group when the pattern matches the whole entry, else the entry unchanged. Its meaning is carried by `Strip.CaptureSound`, `Strip.CaptureComplete`, `Strip.StripResult`, `Strip.StripQuoted` and `Strip.StripIdempotent`. |
| Strip.StripResult | lib/fontdetect.js:189 | the cleaned entry is the entry itself or a quote-free group of a full match |
| Strip.StripQuoted | lib/fontdetect.js:189 | an optionally quoted name surrounded by whitespace is reduced to the bare name; with no closing quote the trailing whitespace stays |
| Strip.StripKeepsInnerQuote | lib/fontdetect.js:189 | an entry with a quote that has non-space text on both sides (e.g. `Foo's Font`) is returned unchanged |
| Strip.StripIdempotent | lib/fontdetect.js:189 | cleaning an entry twice gives the same result as cleaning it once |
| Presence.Chains | lib/fontdetect.js:152-154 | exactly five chains `name + ',' + g`, one per generic family, in the source's order |
| Presence.Widths | lib/fontdetect.js:154-155 | the width read for each chain, in probing order |
| Presence.FirstChange | lib/fontdetect.js:152-163 | the first index `ix > 0` whose width differs from the previous one: all earlier neighbours are equal, and it differs (or is the end) |
| Presence.NeighboursEqualIffAllEqual | lib/fontdetect.js:156-168 | comparing each width with the previous one decides the same thing as comparing all widths with each other (both directions) |
| Presence.Loaded | lib/fontdetect.js:156-168 | the answer of `isFontLoaded`: all five widths agree. `Presence.LoadedIffNoChange` ties it to the loop's early exit, and `Presence.AvailableIsLoaded` and `Presence.UnavailableIsNotLoaded` to the rendering model. |
| Presence.LoadedIffNoChange | lib/fontdetect.js:152-168 | the font counts as loaded exactly when the loop never finds a differing width |
| Presence.Probed | lib/fontdetect.js:152-163 | the chains the span is given: all five when loaded; otherwise a prefix of at least two that ends at the first width differing from its predecessor, with no later family probed |
| Presence.AvailableIsLoaded | lib/fontdetect.js:165-167 | when the named font is available and rendered for every chain, the check answers true |
| Presence.UnavailableIsNotLoaded | lib/fontdetect.js:157-159 | when the named font is missing and two consecutively probed generic families differ in width, the check answers false |
| Presence.IdenticalGenericsFalsePositive | lib/fontdetect.js:165-167 | the accepted limitation: a missing font is reported as loaded when all generic families have the same width |
| Poll.IntervalOf | lib/fontdetect.js:83 | the period is the supplied `msInterval` when it is truthy, and 100 otherwise |
| Poll.TimeoutOf | lib/fontdetect.js:84 | the time-out is the supplied `msTimeout` when it is truthy, and 2000 otherwise |
| Poll.Callbacks | lib/fontdetect.js:95-128 | the number of callback events is zero exactly when the log holds none |
| Poll.Begin | lib/fontdetect.js:78-110 | the session `onFontLoaded` leaves when it returns; its properties are stated by `Poll.BeginSpec` |
| Poll.BeginSpec | lib/fontdetect.js:78-110 | a falsy name, or a call with no callback, does nothing: no interval, no callback, empty log. A loaded font calls `onLoad` (when given) once, synchronously, with the font name, and creates no interval: the log is exactly that one `onLoad` call, or empty. Otherwise exactly one interval is created with the chosen period, starting at `now`. The result is well formed. |
| Poll.Step | lib/fontdetect.js:111-130 | one firing of the interval. `Poll.StepWellFormed` shows it keeps the session invariants, and `Poll.NeverLoadedTimesOut` and `Poll.LoadedInTime` give its two endings. |
| Poll.Run | lib/fontdetect.js:110-132 | the firings the host delivers until the interval is cleared. `Poll.RunWellFormed` and `Poll.RunOutcome` state what it does. |
| Poll.StepWellFormed | lib/fontdetect.js:111-130 | a tick keeps every session invariant: at most one callback, none after it, each callback right after the interval is cleared, one interval cleared at most once |
| Poll.RunWellFormed | lib/fontdetect.js:110-132 | any sequence of ticks keeps the session invariants |
| Poll.AtMostOneCallback | lib/fontdetect.js:76-133 | whatever the ticks, one call runs at most one callback, and only after the interval is cleared when an interval exists |
| Poll.FirstDecisive | lib/fontdetect.js:113-122 | the first tick at which the font is loaded or the time-out has passed strictly; no earlier tick is decisive |
| Poll.RunOutcome | lib/fontdetect.js:110-132 | ticks before the first decisive one change nothing; that tick alone determines how the session ends |
| Poll.NeverLoadedTimesOut | lib/fontdetect.js:119-128 | a font that never loads: the first tick strictly past the time-out clears the interval, then calls `onFail` when given, and nothing else happens |
| Poll.LoadedInTime | lib/fontdetect.js:113-117 | a font that loads before the time-out: the interval is cleared, then `onLoad` is called with the font name (a `TypeError` event when no `onLoad` was given) |
| Poll.FailsAfterTwoHundredMs | lib/fontdetect.js:83-132 | with a 50 ms period and a 200 ms time-out, the first tick that ends the session is the fifth (at 250 ms): the tick at exactly 200 ms is not past the time-out, because the comparison is strict. The log is then created, cleared, `onFail`. |
| Resolve.FirstLoaded | lib/fontdetect.js:186-197 | the search loop as a function over the entries. `Resolve.NoneIffNoneLoaded`, `Resolve.FoundAt` and `Resolve.FoundIsLoadedCandidate` state its result. |
| Resolve.WhichFont | lib/fontdetect.js:183-197 | `whichFont` on a `font-family` string: split on commas, then `Resolve.FirstLoaded` with the regex clean-up; `FontDetect.Detector.WhichFont` is proved to return it |
| Resolve.Candidates | lib/fontdetect.js:186-194 | the raw entries the loop reaches: a prefix of the split, all non-empty, stopping at the first empty entry |
| Resolve.NoneIffNoneLoaded | lib/fontdetect.js:186-197 | the search finds nothing exactly when no reached entry, after clean-up, passes the presence check |
| Resolve.FoundAt | lib/fontdetect.js:186-193 | when entry `k` is the first reached entry that passes, the result is that entry after clean-up |
| Resolve.FoundIsLoadedCandidate | lib/fontdetect.js:186-193 | a result always passes the presence check and is a reached entry after clean-up |
| Resolve.StripPadded | lib/fontdetect.js:189 | a plain name after leading whitespace is cleaned up to the name |
| Resolve.StripPlain | lib/fontdetect.js:189 | a plain name is its own clean-up |
| Resolve.StripSingleQuoted | lib/fontdetect.js:189 | ` 'name' ` is cleaned up to `name` |
| Resolve.SkipsMissingFont | lib/fontdetect.js:181-198 | in a three-entry stack whose first font is missing and whose second is loaded, the result is the second, with its space removed |
| Resolve.QuotedFirstChoice | lib/fontdetect.js:181-198 | in ` 'name' , generic` the result is the bare `name` when loaded, else `generic` when loaded, else nothing |
| FontDetect.Span.constructor | lib/fontdetect.js:45-46 | the new span holds the 52-letter sample text, with no `font-family` assigned yet |
| FontDetect.Span.Probe | lib/fontdetect.js:152-168 | the loop answers the `Loaded` specification, and assigns to the span exactly the chains `Presence.Probed` lists, in order |
| FontDetect.Span.Render | lib/fontdetect.js:154-155 | the span's `font-family` becomes the chain, and the width read is the layout's width of that chain |
| FontDetect.Detector.constructor | lib/fontdetect.js:28-30 | the object starts uninitialized, with no span and no helper created |
| FontDetect.Detector.Init | lib/fontdetect.js:32-58 | after `_init` the object is initialized. The creation count rises by one only on the first call, when the span is fresh. A repeated call creates nothing and keeps the existing span. |
| FontDetect.Detector.IsFontLoaded | lib/fontdetect.js:143-169 | initializes on first use only: the creation count rises only when the object was uninitialized, and otherwise the span is kept. The answer is the `Loaded` specification, and the probes are those `Presence.Probed` lists. |
| FontDetect.Detector.OnFontLoaded | lib/fontdetect.js:76-133 | the session left behind is the one `Poll.Begin` describes. An ignored call neither initializes nor probes. Any other call runs exactly one presence check. A helper is created only by a call that is not ignored, on an uninitialized object. An initialized object keeps its span, and a span the call creates is fresh. |
| FontDetect.Detector.WhichFont | lib/fontdetect.js:181-198 | the result is `Resolve.WhichFont` of the stack under the presence check. The span is given the chains of each reached entry up to the first loaded one. The object ends up initialized exactly when it was already, or when the first entry is non-empty. A helper is created only in the second case. An initialized object keeps its span, and a span the call creates is fresh. |
| FontDetect.PollSession.constructor | lib/fontdetect.js:108-110 | the session object holds the given session state and the detector it polls with |
| FontDetect.PollSession.Tick | lib/fontdetect.js:111-130 | the interval callback changes the session exactly as `Poll.Step` says. The presence check runs once on the shared detector. That detector keeps its span, and gains a helper, with a fresh span, only if it was uninitialized. |

## Left out

- The DOM work of `_init` (lib/fontdetect.js:40-57) is not modelled. This covers creating the `div` and `span`, inserting them into the body, and setting the styles. It is browser I/O: the model keeps only the flag, the span, the sample text, and a ghost count of how many times the helper elements were created, which each method's contract says it raises only on an uninitialized object.
- Text layout (`span.offsetWidth`) is not modelled: it is the parameter `width`.
- Assignments to `span.style.fontFamily` are modelled as a ghost log `history`. The browser's normalisation of the assigned value is not modelled.
- jQuery's `$(p_element).css('font-family')` is not modelled: the stack is an input string. As a result, the `p_element` selector and element forms are not distinguished.
- `setInterval`, `clearInterval` and `new Date().getTime()` are not modelled: they become events and the `now` argument of `Tick`. The asynchronous scheduling of the host is not modelled.
- FontDetect.PollSession.Tick: requires `active`, because the host does not fire an interval once it has been cleared.
- What the caller's callbacks do is not modelled: only their invocations are recorded.
- FontDetect.Detector.OnFontLoaded: callbacks are present or absent (`hasOnLoad`, `hasOnFail`), not arbitrary JavaScript values. A truthy value that is not a function is not modelled.
- A falsy font name is modelled as the empty string only. `null`, `undefined` and `0` have no counterpart in `string`.
- Poll.IntervalOf: option values are `Option<int>`. `NaN`, non-numeric and fractional values are not modelled. Falsy means absent or `0`.
- Strings are sequences of Unicode scalar values. JavaScript's UTF-16 code units are not modelled, so surrogate pairs count as one character.
- `aStack.shift()` on an empty array yields `undefined`. The model yields `""` instead, which ends the loop in the same way.
- Resolve.SkipsMissingFont: stated over stacks built with `JsString.Join` from arbitrary plain names, rather than over one literal string.
- Resolve.QuotedFirstChoice: stated over stacks built with `JsString.Join` from arbitrary plain names, rather than over one literal string.
