# Focus lock, modelled in Dafny

LockIn is a browser extension that locks the browser to one site for a set
number of minutes. This project models the three pieces that enforce the lock:

- `background.js`, the prefix-matching background worker (module
  `PrefixBackground`). While the lock runs, it cancels every request whose URL
  does not start with the locked URL. Starting the lock closes every open tab
  that does not start with it. New tabs are redirected to it. On start-up the
  worker restarts a lock it finds in storage.
- `src/background.js`, the exact-match draft of the same worker (module
  `ExactBackground`). On start-up it restarts a stored lock. It installs a
  `redirectListener` closure that sends a tab back to the locked URL whenever
  the tab's URL changes to anything other than exactly that URL. One timer
  clears the stored record and another removes that same closure.
- The popup's lock logic in `src/components/FocusLock.tsx` (module
  `FocusLock`): form validation, starting and ending a lock, the
  once-per-second countdown, restoring a running lock, and the `m: ss` display.

Shared pieces: module `Chrome` holds `chrome.storage.local` as a
`map<string, Value>`, the stored lock record with JavaScript truthiness,
`startsWith`, and the deadline `startTime + duration * 60 * 1000`. Module
`JsText` holds `parseInt`, integer `toString` and `padStart`. Module
`Scenarios` holds verified client methods that drive the model through concrete lock scenarios.

How the browser is represented:

- Time is a `now: int` parameter.
- A timer is an entry in a pending list, recorded with the time it is due.
  The browser fires it by calling `FireExpiry`, `FireClearTimer` or
  `FireRemovalTimer`.
- `setTimeout(f, ms)` is due after `TimerDelay(ms)`. Following the HTML
  standard's timer initialization steps, the delay is converted to a WebIDL
  `long` (wrapping modulo 2^32) and a negative result becomes 0. A delay
  above 2^31 - 1 ms (about 24.8 days) is therefore not honoured.
- The `setInterval` tick is the `Tick` method.
- Registered listeners are counters (`blockingListeners`, `newTabHandlers`) or
  a sequence of closures (`onUpdated`).
- Open tabs are a sequence of `Tab(id, url)` in query order (background.js) or
  a map from id to URL (src/background.js).
- In background.js, the reply to `chrome.tabs.query` is a separate step,
  `QueryReply`, that the browser may deliver before or after a pending timer.
- The popup's sent messages are recorded in `sent`.

Where the code falls short of what a focus lock should do, the model follows
the code:

- An empty locked URL ought to mean "no lock". background.js has no such
  check. Since every URL starts with the empty string, it still blocks
  nothing and closes no tab (`EmptyLockedUrlEnforcesNothing`).
- An expired stored record ought to be cleared on restart, with nothing
  installed. background.js restarts it anyway and never removes the record.
  Nothing is blocked. The expiry delay depends on the record's age modulo
  2^32, written `a` here (`Chrome.ExpiredDelayByAge`). When `a` is at most
  2^31 (an age up to about 24.8 days, or between 2^32 and 2^32 + 2^31 ms, and
  so on), the expiry callback is due at once, and whether the tabs not on the
  stale URL are closed depends on the order of two callbacks. If the
  `tabs.query` reply comes first, they are closed. If the expiry callback
  comes first, the locked URL is already "" and nothing is closed
  (`Scenarios.StaleRecordSweepDependsOnOrder`). When `a` exceeds 2^31, the
  callback is due 2^32 - a ms later, between 1 ms and 2^31 - 1 ms. When that
  leaves time for the reply to be handled first, the tabs are closed; for an
  age of 2^31 + 1 ms the delay is 2^31 - 1 ms (`Scenarios.AncientRecordStillSweeps`).
  src/background.js then keeps the stale closure installed for those 2^32 - a
  ms, sending tabs back for up to about 24.8 days
  (`Scenarios.ExactDraftAncientRecordKeepsRedirecting`).
- Starting a lock ought to install each listener once. background.js does
  remove `blockWebRequests` before adding it again, so it stays registered
  exactly once. But every start adds another `blockNewTabs`, so after two
  starts a new tab gets two redirects (`Scenarios.NewTabRedirects`).
- A lock ought to expire once, at its own deadline. In background.js every
  start arms its own expiry callback and none is ever cancelled. The callback
  from an earlier start ends a later lock early
  (`Scenarios.EarlierTimerEndsLaterLock`).
- A lock of 35,792 minutes or more, which the popup accepts, needs a delay
  beyond the largest one `setTimeout` honours (`Chrome.DelayRunsAtOnceExactly`).
  A delay from 2^31 up to 2^32 - 1 ms (locks of 35,792 to 71,582 minutes)
  wraps to a negative one: background.js then ends the lock as soon as its
  callback runs (`Scenarios.LongLockExpiresAtOnce`), and src/background.js
  clears the record and removes its closure at once
  (`Scenarios.ExactDraftLongLockEndsAtOnce`). A longer delay wraps to one in
  [0, 2^31): a 71,583-minute lock ends after 12,704 ms in both drafts
  (`Scenarios.LongerLockEndsWithinSeconds`).
- Unlocking ought to stop enforcement. The popup's `handleUnlock` only resets
  the popup and removes the stored keys. Neither worker receives any unlock
  signal.
- Pages under the locked site ought to stay reachable. src/background.js
  compares with `!==`, so even a page under the locked site is sent back to
  the exact locked URL (`SubPageIsRedirected`).
- The popup keeps its own counter and only derives it from the deadline when
  restoring (`FocusLock.RestoredSeconds`). When the popup is restored with
  less than a second left, it unlocks at once, while the worker still blocks
  until the deadline.

## Model

| member | source | states |
|---|---|---|
| `Chrome.ReadLock` | background.js:71-78 | a record is read only when `lockedUrl`, `startTime` and `duration` are all truthy; then its URL is non-empty and both numbers are non-zero |
| `Chrome.WriteLock` | src/components/FocusLock.tsx:30-35 | the three keys are merged into the store; every other stored key keeps its value |
| `Chrome.RemoveLock` | src/components/FocusLock.tsx:59 | exactly the keys `lockedUrl`, `startTime`, `duration` are removed; the rest is untouched |
| `Chrome.StartsWith` | background.js:14 | `s.startsWith(prefix)`: the prefix is no longer than `s` and equals its first characters; StartsWithSelf and StartsWithExtension are its partners |
| `Chrome.StartsWithSelf` | background.js:49 | every string starts with itself and with the empty string |
| `Chrome.StartsWithExtension` | background.js:14 | every extension of a prefix starts with it |
| `Chrome.LockEndTime` | background.js:27 | for a positive duration the deadline lies exactly `duration * 60000` ms after the start (the same formula as src/background.js:5) |
| `Chrome.ToInt32` | background.js:40-44 | the WebIDL `long` conversion of a delay: the value in [-2^31, 2^31) congruent to it modulo 2^32, and the delay itself when it is already in that range |
| `Chrome.TimerDelay` | background.js:40-44 | the delay `setTimeout` applies lies in [0, 2^31 - 1]; it is the requested delay exactly when that is in range, 0 exactly when the conversion is not positive, and otherwise congruent to the request modulo 2^32 |
| `Chrome.DelayPastMaximumRunsAtOnce` | src/background.js:11-13 | every delay from 2^31 up to 2^32 - 1 ms runs the timer at once |
| `Chrome.ExpiredDelayByAge` | background.js:40-44 | for a deadline passed `age` ms ago, with `a` the age modulo 2^32, the timer runs at once when `a` is at most 2^31, and otherwise after exactly 2^32 - a ms, which is in (0, 2^31) |
| `Chrome.DelayRunsAtOnceExactly` | src/background.js:27-29 | for delays within one wrap of zero, the timer runs at once exactly when the delay lies in [-2^31, 0] or [2^31, 2^32); a delay below -2^31 is moved up by 2^32 |
| `Chrome.ReadAfterWrite` | src/components/FocusLock.tsx:30-35 | reading a written record returns it when its fields are all truthy, and returns no lock otherwise |
| `Chrome.ReadAfterRemove` | src/background.js:9-14 | once the three keys are removed, no component sees a lock |
| `JsText.NatToString` | src/components/FocusLock.tsx:51 | decimal notation is non-empty and all digits; it is one character exactly for numbers below 10 |
| `JsText.LeadingDigits` | src/components/FocusLock.tsx:21 | the result is the longest prefix of the input made of digits |
| `JsText.TrimStart` | src/components/FocusLock.tsx:21 | every character removed is white space, and what is left does not start with white space |
| `JsText.TrimStartSuffix` | src/components/FocusLock.tsx:21 | what is left is the rest of the input after the removed characters, so only leading white space is removed |
| `JsText.IntToString` | src/components/FocusLock.tsx:84 | `n.toString()` starts with a minus sign exactly for negative `n`, and the rest is decimal digits |
| `JsText.ParseInt` | src/components/FocusLock.tsx:21 | blank input is NaN; a negative result needs a leading minus after the white space; a result without a sign starts with a digit |
| `JsText.PadStart2` | src/components/FocusLock.tsx:51 | `padStart(2, "0")` yields at least two characters and never shortens |
| `JsText.DigitsValueOfNatToString` | src/components/FocusLock.tsx:21 | the digits of `n.toString()` denote `n` |
| `JsText.NatToStringInjective` | src/components/FocusLock.tsx:51 | distinct numbers have distinct decimal notations |
| `JsText.ParseIntOfNumeral` | src/components/FocusLock.tsx:21 | `parseInt` reads a numeral up to the first non-digit, so "30", "30.5" and "30e1" all parse to 30 |
| `JsText.ParseIntOfIntToString` | src/components/FocusLock.tsx:21 | `parseInt` inverts `toString` on every integer, negative ones included |
| `FocusLock.CheckInput` | src/components/FocusLock.tsx:17-25 | the missing-input error exactly when the URL or duration is empty; the invalid-duration error exactly when both are given but `parseInt` is NaN or at most 0; otherwise the parsed positive minutes |
| `FocusLock.AcceptsPositiveNumeral` | src/components/FocusLock.tsx:21-25 | every positive whole number typed as duration is accepted as that many minutes |
| `FocusLock.RejectsNonPositive` | src/components/FocusLock.tsx:21-25 | zero and negative durations get the invalid-duration error |
| `FocusLock.RemainingMs` | src/components/FocusLock.tsx:79-80 | `duration*60000 - (now - startTime)` equals the workers' deadline minus now; it is positive exactly before the deadline |
| `FocusLock.RestoredSeconds` | src/components/FocusLock.tsx:78-86 | a countdown is restored exactly when a complete record is stored and now is before its deadline; the value is the floor of the milliseconds left divided by 1000 |
| `FocusLock.JsRemainder` | src/components/FocusLock.tsx:50 | JavaScript `%`: for a non-negative dividend the remainder is below the divisor and rebuilds the dividend with the floor quotient; for a negative one it lies in (-divisor, 0] and equals the dividend plus the divisor times the quotient of the magnitudes |
| `FocusLock.FormatTime` | src/components/FocusLock.tsx:48-52 | for a non-negative count the display is the minutes in decimal and ": ", followed by exactly two characters (FormatTimeDigits gives them) |
| `FocusLock.FormatTimeDigits` | src/components/FocusLock.tsx:48-52 | for `s >= 0` the display is the minutes in decimal, ": ", and two seconds digits, with `minutes*60 + secs == s` and `secs < 60` |
| `FocusLock.FormatTimeInjective` | src/components/FocusLock.tsx:48-52 | distinct non-negative counts are displayed differently |
| `FocusLock.Popup.constructor` | src/components/FocusLock.tsx:10-14 | the initial state: empty form, unlocked, zero count, no error |
| `FocusLock.Popup.ActiveTabUrl` | src/components/FocusLock.tsx:104-107 | the form's URL becomes the active tab's URL when that URL is present and non-empty |
| `FocusLock.Popup.DurationInput` | src/components/FocusLock.tsx:148 | the duration field holds what was typed |
| `FocusLock.Popup.CountdownEffect` | src/components/FocusLock.tsx:62-72 | the interval is armed exactly while locked with time left; a locked popup at exactly 0 unlocks; from a non-negative count the invariant holds |
| `FocusLock.Popup.Tick` | src/components/FocusLock.tsx:64-67 | while ticking, each second takes exactly 1 off the count and unlocks at 0; otherwise nothing changes; the count never goes negative |
| `FocusLock.Popup.HandleLock` | src/components/FocusLock.tsx:16-47 | a rejected form sets only the error; an accepted one clears the error, locks, sets `minutes*60`, stores the record and sends it as START_LOCK |
| `FocusLock.Popup.HandleUnlock` | src/components/FocusLock.tsx:54-60 | unlocked, empty form, zero count, the three stored keys removed, error and sent messages unchanged |
| `FocusLock.Popup.Restore` | src/components/FocusLock.tsx:74-90 | with a stored lock still running: the count, URL and duration text come from the record, and the popup is locked when at least a second is left; otherwise nothing changes |
| `PrefixBackground.Worker.constructor` | background.js:1-3 | lock down, empty URL, deadline 0, no listeners or timers |
| `PrefixBackground.Worker.IsLockActive` | background.js:5-7 | the lock is active while the flag is up and now is before the deadline; BlockingEndsAtDeadline is its partner |
| `PrefixBackground.Worker.NewTabViolates` | background.js:57 | the condition of blockNewTabs: the lock is active and the URL does not start with the locked URL; RedirectTargetConforms is its partner |
| `PrefixBackground.Conforming` | background.js:47-53 | the tabs the sweep leaves open, in order, never more than were open; ConformingExactly characterises them |
| `PrefixBackground.Worker.BlockWebRequests` | background.js:9-20 | allow when the lock is not active; while active, cancel exactly the URLs that do not start with the locked URL |
| `PrefixBackground.Worker.OnBeforeRequest` | background.js:5-20 | a request is cancelled exactly when the flag is up, now is before the deadline and the URL does not start with the locked URL (so at now == deadline it is allowed) |
| `PrefixBackground.Worker.SweepTabs` | background.js:48-52 | the tabs left open are exactly the conforming ones, in order |
| `PrefixBackground.Worker.StartLock` | background.js:22-61 | flag raised, URL set, deadline `startTime + duration*60000` independent of now, `blockWebRequests` registered exactly once whatever came before, one expiry timer due after `TimerDelay(lockEndTime - now)`, one tabs.query pending with the tabs untouched, one more `blockNewTabs` |
| `PrefixBackground.Worker.QueryReply` | background.js:47-53 | the pending query's reply closes exactly the tabs that do not start with the locked URL as it stands when the reply is handled |
| `PrefixBackground.Worker.FireExpiry` | background.js:39-44 | flag down, URL empty, `blockWebRequests` unregistered; afterwards every URL is allowed at every time |
| `PrefixBackground.Worker.TabCreated` | background.js:55-60 | when the lock is active and the new tab's URL does not start with the locked URL, each registered handler issues one redirect and the tab ends on the locked URL; otherwise nothing is issued |
| `PrefixBackground.Worker.OnMessage` | background.js:63-68 | a START_LOCK message starts its lock, with its expiry timer and its pending tab query; any other message changes nothing |
| `PrefixBackground.Worker.Reconcile` | background.js:70-79 | a complete stored record restarts the lock with its own start time, so the deadline is unchanged, and arms its expiry timer and tab query; otherwise nothing changes |
| `PrefixBackground.ConformingExactly` | background.js:47-53 | the sweep keeps a tab exactly when it was open and its URL starts with the locked URL |
| `PrefixBackground.ConformingIdempotent` | background.js:47-53 | sweeping again with the same URL closes nothing more |
| `PrefixBackground.EmptyLockedUrlEnforcesNothing` | background.js:14-16 | with an empty locked URL, the sweep closes no tab and no request is cancelled |
| `PrefixBackground.LockedSiteNeverBlocked` | background.js:14-16 | the locked URL and every page under it are never cancelled |
| `PrefixBackground.BlockingEndsAtDeadline` | background.js:5-7 | a request blocked at some time was blocked at every earlier time; from the deadline on, nothing is blocked |
| `PrefixBackground.RedirectTargetConforms` | background.js:57-58 | the redirect target never meets the handler's redirect condition |
| `ExactBackground.RedirectListener` | src/background.js:16-21 | an update is issued exactly when `changeInfo.url` is present, non-empty and not equal to the locked URL; its target is always the locked URL |
| `ExactBackground.Dispatch` | src/background.js:24 | one event produces at most as many updates as there are registered closures, all for the tab of the event, and none for an event without a URL |
| `ExactBackground.ApplyRedirects` | src/background.js:19 | the browser performs the `tabs.update` calls in order: a tab no update names keeps its URL, and a tab some update names ends on the URL of the last such update |
| `ExactBackground.DispatchExactly` | src/background.js:16-24 | an event yields an update exactly when some registered closure issues it |
| `ExactBackground.NoRedirectLoop` | src/background.js:17-19 | an event reporting the locked URL makes the same closure do nothing; an event without a URL redirects nothing |
| `ExactBackground.SubPageIsRedirected` | src/background.js:17 | any other page under the locked site is redirected to the exact locked URL |
| `ExactBackground.SingleLockCorrectsOnce` | src/background.js:16-24 | with one closure, leaving the locked URL produces exactly one update, the tab ends on the locked URL, and the follow-up event produces none |
| `ExactBackground.WithoutClosure` | src/background.js:28 | `removeListener` leaves no closure with the removed id and never lengthens the registry |
| `ExactBackground.WithoutClosureExactly` | src/background.js:27-29 | removal keeps exactly the closures with other ids |
| `ExactBackground.WithoutClosureRemovesOne` | src/background.js:27-29 | with distinct ids, removing a registered closure removes exactly one |
| `ExactBackground.RemovalKeepsOthers` | src/background.js:26-29 | removing one closure from a registry with distinct ids keeps every other closure and no other, shortens it by one when that closure was registered, keeps the ids distinct, and leaves no update from the removed closure |
| `ExactBackground.Worker.StartLock` | src/background.js:3-30 | a storage-clearing timer due after `TimerDelay` of the time left, only when time is left; a fresh closure capturing the locked URL; a removal timer for that same closure due after `TimerDelay` of the time left |
| `ExactBackground.Worker.Startup` | src/background.js:32-37 | the lock starts exactly when a complete record is stored, with the closure and both timers StartLock arms for it, due as setTimeout makes them due; otherwise nothing changes |
| `ExactBackground.Worker.FireClearTimer` | src/background.js:9-14 | removes exactly the three keys; afterwards no lock is stored |
| `ExactBackground.Worker.FireRemovalTimer` | src/background.js:26-29 | removes exactly the closure its own startLock registered; afterwards no update comes from that closure |
| `ExactBackground.Worker.TabUpdated` | src/background.js:16-24 | the updates issued are those of the registered closures, and the browser carries them out |
| `Scenarios.PrefixLockWindow` | background.js:5-20 | for a one-minute lock from t=1000: at 31000 the docs page is allowed and another site cancelled; at 62000 both are allowed |
| `Scenarios.NewTabRedirects` | background.js:55-60 | one start gives one redirect to the locked URL; a second start of the same lock gives two |
| `Scenarios.ZeroDurationRefused` | src/components/FocusLock.tsx:21-25 | a duration of "0" gives the invalid-duration error; nothing is locked, stored or sent |
| `Scenarios.PopupLocks` | src/components/FocusLock.tsx:16-47 | the message sent and the record stored are the same, and the store reads back as that record |
| `Scenarios.RestartKeepsDeadline` | background.js:70-79 | the worker started by the message and the worker restarted from storage give every request the same verdict; both keep the original deadline; the reopened popup counts the whole seconds left |
| `Scenarios.StaleRecordSweepDependsOnOrder` | background.js:40-53 | restarting an expired record blocks nothing and arms its expiry callback for now; the tab on another site is closed when the query reply comes first, and stays open when the callback comes first |
| `Scenarios.AncientRecordStillSweeps` | background.js:40-53 | a record that expired 2^31 + 1 ms before the restart blocks nothing, arms its expiry callback 2^31 - 1 ms later, and the query reply closes the tab on another site |
| `Scenarios.EarlierTimerEndsLaterLock` | background.js:39-44 | the first lock's expiry callback, due at 61000 and fired then, also ends a second, longer lock that was blocking at 30000 |
| `Scenarios.LongLockExpiresAtOnce` | background.js:40-44 | a 35,792-minute lock's expiry callback is due at once, while a 35,791-minute lock's is due at its deadline |
| `Scenarios.ExactDraftLongLockEndsAtOnce` | src/background.js:9-29 | restarting a stored 35,792-minute lock arms the storage-clearing and closure-removal timers for now |
| `Scenarios.LongerLockEndsWithinSeconds` | background.js:40-44 | a 71,583-minute lock's delay wraps past 2^32: both drafts arm its end 12,704 ms after the start |
| `Scenarios.ExactDraftAncientRecordStarted` | src/background.js:9-37 | restarting a record that expired 2^31 + 1 ms ago installs its closure, arms no clearing timer, and arms the removal timer 2^31 - 1 ms later |
| `Scenarios.ExactDraftAncientRecordKeepsRedirecting` | src/background.js:16-29 | until that removal timer, the stale closure still sends a moved tab back |
| `Scenarios.ExactDraftRedirectsUntilRemoved` | src/background.js:16-29 | a move to a sub-page is sent back once; after the removal timer fires the same move goes through |

## Left out

- The JSX rendering (src/components/FocusLock.tsx:122-171): it is presentation only.
- The active-tab query and the `onActivated` subscription (src/components/FocusLock.tsx:92-121). They query the browser and have no decision logic. Only the resulting `setUrl` (lines 105-107) is modelled, as `ActiveTabUrl`.
- The browser APIs themselves (`chrome.webRequest`, `chrome.tabs`, `chrome.storage`, `chrome.runtime`). They are represented by counters, sequences and maps. Delivering a START_LOCK message from the popup to the worker is done by the `Scenarios` clients.
- Asynchrony and event-loop interleaving, except for the tabs.query reply of background.js, which is its own step. Every other handler and storage callback runs as one atomic step. The reply sweeps the tabs as they are when it is handled, not as they were when the query was made.
- Real clocks and timers. handleLock's two `Date.now()` calls are one `now`.
- PrefixBackground.Worker.FireExpiry: the model lets the browser fire any pending timer at any moment. It records each timer's due time but does not require `now` to have reached it.
- ExactBackground.Worker.FireClearTimer: as for FireExpiry, the due time is recorded, not enforced.
- ExactBackground.Worker.FireRemovalTimer: as for FireExpiry, the due time is recorded, not enforced.
- JavaScript numbers are modelled as unbounded integers; the 32-bit conversion of timer delays is modelled (`TimerDelay`). Non-integral stored durations, floating-point rounding and numbers beyond 2^53 are not modelled.
- `parseInt` skips only ASCII white space and always uses radix 10. The "0x" prefix that selects hexadecimal is not modelled; a number input never produces it.
- A stored value of an unexpected type (a number under `lockedUrl`, a string under `startTime`) is treated as absent. JavaScript would coerce it instead.
- A tab without a `url` (which would make `tab.url.startsWith` throw) is not modelled. Closing a tab by id is modelled as removing its entry, which takes tab ids to be unique.
- Redirects that do not come back as the locked URL. `NoRedirectLoop` covers only an `onUpdated` event reporting exactly the locked URL. If the locked page redirects elsewhere on the server or rewrites its own URL, the event reports another URL, and the closure sends the tab back again. The model can drive that through `TabUpdated`, but it does not model such pages.
- `addListener` and `removeListener` are modelled as adding and removing one registration.
- The `remainingTime` key read at src/components/FocusLock.tsx:76 is never used by the code, so it is not modelled.
- FocusLock.Popup.Tick: an interval firing and the effect's re-run are one step. Two firings of the same interval without a re-render in between are not modelled.
