# Hide Menu Extras — a verified model of the controller

Hide Menu Extras is a macOS menu-bar utility. It places two status-bar icons,
a *spacer* and a *menu* (arrow) icon, and hides the other menu-bar extras by
swapping the spacer's image; it shows them again on request. The whole program
is one controller class, `HideMenuExtraApp`, in two variants:

- **countdown variant** (`dist/main.js`): showing all icons starts a countdown of
  `AUTOHIDE_TIMEOUT = 10` one-second ticks, shown as the menu icon's title, that
  hides the extras when it runs out;
- **timeout variant** (`src/main.ts`, and `main.js`, its compiled output with the
  same logic): showing all icons from the menu icon arms one plain timeout that
  requests hiding when it fires.

The model is functional: an immutable state record per variant and one pure
transition function per event handler. The controller's only observation of
the world, `checkBounds()`, is a predicate over a `Screen` (the bounds of both
icons) carried by each event. Host effects are recorded in the state: the
images last assigned (an enum, not file paths), the menu icon's title, the set
of timer handles the host still has scheduled, the number of dialogs shown and
the number of quit requests.

Files:

- `tray.dfy` — module `Tray`: images, icon rendering (`Renders`), bounds and
  `CheckBounds`, the host's timer registry, dialogs, quit, and the events.
- `decimal.dfy` — module `Decimal`: the title text `'' + n` for an integer of
  magnitude below 10^21 (the countdown shows only 0 to 10), with a parser that
  reads it back.
- `countdown.dfy` — module `Countdown`: the countdown variant.
- `timeout.dfy` — module `Timeout`: the timeout variant, and a corrected form of it
  (see Findings).

Both variants share one guard in `showIconMode`: a request to hide while the
menu icon is to the left of the spacer is refused, and the function returns
`true` without changing any image. For the countdown variant the model proves
that in every state reachable after `OnAppReady` the mode flag and the images
agree, at most one interval is scheduled, and a scheduled one belongs to a
show-all countdown with 1 to 10 seconds left. For the timeout variant that
agreement is not invariant: the model characterises exactly which event breaks
it and exhibits a run that does.

The countdown shows the seconds left as the menu icon's title. The
image-interpolation formula and the context menu are commented out
(dist/main.js:58-63, 105-118). `showIconMode` never changes the highlight mode.

The two variants have some handlers in common: right-click and the quit
lemmas are written out once per module on purpose, because each module
models its own source file and its own `Step`.

## Model

| member | source | states |
|---|---|---|
| Countdown.ShowIconMode | dist/main.js:88-96 | a hide request while misaligned returns show-all and leaves the images and title untouched; otherwise the result is the requested mode, the images render it and the title is cleared; the result is hide only if the icons are in order |
| Countdown.ShowIconModeIdempotent | dist/main.js:91-95 | a second call with the same mode changes nothing: always for show-all, and for hide while the icons' order is unchanged |
| Countdown.RefusedIffMisalignedHide | dist/main.js:65-68 | the result differs from the request exactly when hiding is requested and the menu icon's x is less than the spacer's x |
| Countdown.CancelCountdownTimer | dist/main.js:97-103 | with no interval nothing changes; otherwise the interval is unscheduled, the handle dropped and the title cleared, with mode, images and seconds left unchanged |
| Countdown.EnableCountdownTimer | dist/main.js:111-128 | a fresh interval is scheduled after the previous one is unscheduled, so at most one is live; 10 seconds are left and shown as the title; mode and images unchanged |
| Countdown.OnTick | dist/main.js:128-135 | a tick takes one second off and shows it; when none is left the interval is gone, the title empty and the mode is hide exactly when the icons are in order |
| Countdown.OnClickMenuIcon | dist/main.js:69-76 | the mode flips unless the hide is refused; show-all schedules a fresh interval with 10 seconds shown as the title and cancels the previous one; a flip renders the new mode's images; hide leaves no interval, hide images and an empty title |
| Countdown.OnClickSpacerIcon | dist/main.js:77-84 | with a countdown live the click only cancels it and keeps the mode; otherwise it flips the mode through showIconMode, rendering the new mode with an empty title, or keeps the icons when the hide is refused; either way no interval remains |
| Countdown.OnRightClickMenuIcon | dist/main.js:85-87 | one more quit request; mode, images, timer, scheduled timers, next handle and dialog count are unchanged |
| Countdown.VerifyIconsAccessible | dist/main.js:137-146 | no-op when aligned; when misaligned the mode becomes show-all with show-all images, the title is blanked, exactly one more dialog is shown, and the countdown and quit count are untouched |
| Countdown.OnAppReady | dist/main.js:40-46 | startup ends in show-all mode with show-all images and one live countdown showing 10 |
| Countdown.StepPreservesInv | dist/main.js:69-87 | every handler keeps the invariant: scheduled intervals are exactly the held one, images agree with the flag, a live countdown implies show-all and 1..10 seconds left |
| Countdown.RunPreservesInv | dist/main.js:128-146 | the invariant survives any sequence of events, including ticks and health checks |
| Countdown.ReachableStates | dist/main.js:40-46 | after startup, whatever events arrive, flag and images agree, at most one interval is live, and a live one implies show-all |
| Countdown.CountdownRunning | dist/main.js:128-131 | before the countdown runs out each tick takes off exactly one second, shows the rest and keeps the interval and show-all mode |
| Countdown.CountdownExpires | dist/main.js:131-134 | after exactly as many ticks as seconds left the interval is gone, the title empty and the mode is hide unless misaligned |
| Countdown.TenTicksHide | dist/main.js:122-135 | from startup with aligned icons, 9 ticks leave the countdown live with 1 second and the 10th hides with no interval |
| Countdown.QuitIffRightClick | dist/main.js:85-86 | quit is requested once exactly when a right-click is delivered, and never otherwise |
| Countdown.NothingAfterQuit | dist/main.js:86-87 | once quit is requested no later event changes the state |
| Decimal.ParseShow | dist/main.js:119 | the countdown title reads back as the number of seconds left |
| Decimal.ShowInjective | dist/main.js:111-120 | a shown number is never the empty title, and different numbers give different titles |
| Tray.CreateIcons | src/main.ts:75-85 | freshly created icons: the menu icon has the expand image and expand pressed image, the spacer the image for the starting mode, no title; so they render hide mode only when starting hidden |
| Timeout.ShowIconMode | src/main.ts:112-119 | a hide request while misaligned returns show-all with no image change; otherwise the requested mode is returned and the images render it |
| Timeout.ShowIconModeIdempotent | main.js:78-85 | a second call with the same mode changes nothing: always for show-all, and for hide while the icons' order is unchanged |
| Timeout.RefusedIffMisalignedHide | src/main.ts:95-99 | the result differs from the request exactly when hiding is requested and the menu icon's x is less than the spacer's x |
| Timeout.ResetAutoHideTimer | src/main.ts:121-127 | the pending timeout is cleared before a fresh one is armed, so at most one is pending; mode, images, dialogs and quits unchanged |
| Timeout.OnTimeout | main.js:89-92 | a pending timeout firing forgets its handle and requests hiding: hide images when aligned, show-all with images unchanged when not; no dialog, quit or new handle |
| Timeout.OnClickMenuIcon | src/main.ts:101-104 | the mode flips unless the hide is refused; show-all arms a fresh timeout; hiding leaves the pending timeout in place; no dialog or quit either way |
| Timeout.OnClickSpacerIcon | main.js:72-74 | the mode flips unless the hide is refused and the timeout is never touched |
| Timeout.OnRightClickMenuIcon | src/main.ts:108-110 | one more quit request; mode, images, timer, scheduled timers, next handle and dialog count are unchanged |
| Timeout.VerifyIconsAccessible | main.js:94-103 | no-op when aligned; when misaligned the mode becomes show-all with show-all images and exactly one more dialog |
| Timeout.OnAppReady | src/main.ts:67-73 | startup ends in show-all mode with show-all images and no timeout pending |
| Timeout.StepPreservesInv | main.js:67-103 | every handler keeps the host's pending timeouts equal to the one held, the title empty and quits at most one |
| Timeout.RunPreservesInv | src/main.ts:121-127 | over any sequence of events at most one timeout is ever pending |
| Timeout.AgreementBreaksIff | src/main.ts:123-126 | from an agreeing state, an event breaks flag/image agreement exactly when the pending timeout fires while misaligned and the flag is already hide |
| Timeout.FlagImagesDisagree | src/main.ts:105-107 | a concrete run from startup ends with the flag saying show-all while the images show hide mode |
| Timeout.QuitIffRightClick | main.js:75-77 | quit is requested once exactly when a right-click is delivered, and never otherwise |
| Timeout.NothingAfterQuit | src/main.ts:108-110 | once quit is requested no later event changes the state |
| Timeout.CancelAutoHideTimer | src/main.ts:122 | corrected variant: the pending timeout, if any, is cleared and mode and images kept |
| Timeout.OnClickMenuIconCorrected | src/main.ts:101-104 | corrected variant: the mode flips unless refused, and a timeout is pending exactly when the result is show-all |
| Timeout.OnClickSpacerIconCorrected | src/main.ts:105-107 | corrected variant: the mode flips unless refused, and a click that hides clears the pending timeout |
| Timeout.StepCorrectedPreservesInv | src/main.ts:101-138 | corrected variant: every handler keeps flag/image agreement and "a pending timeout implies show-all" |
| Timeout.CorrectedAgreement | src/main.ts:112-127 | corrected variant: flag and images agree after any sequence of events |

## Findings

| source | as written | input that shows it | evidently intended | confidence | as-written member | corrected member |
|---|---|---|---|---|---|---|
| src/main.ts:101-107 | a click that hides leaves the pending auto-hide timeout armed; when it fires while the icons are out of order, the refused hide returns `true`, which is stored as the flag, while the images still show hide mode (same in main.js:67-74) | from startup with aligned icons: menu click (hide), menu click (show, arms timeout 0), spacer click (hide), then timeout 0 fires with the menu icon left of the spacer | the mode flag always matches the images; hiding from a click cancels the pending timeout, as dist/main.js does | medium, not executed | Timeout.FlagImagesDisagree | Timeout.CorrectedAgreement |

`Timeout.Step` and `Timeout.Run` model the code as written; `Timeout.StepCorrected`
and `Timeout.RunCorrected` model the corrected behaviour, in which
`OnClickMenuIconCorrected` and `OnClickSpacerIconCorrected` clear the pending
timeout whenever the click ends in hide mode.

## Left out

- Electron objects (`Tray`, `Menu`, `dialog.showMessageBox`, `app.dock.hide`, `app.quit`) are not modelled as calls: icon images, the title, scheduled timers, dialogs and quit requests are recorded in the state.
- Image paths built with `path.join` in the URL getters are replaced by the `Image` enum.
- `setHighlightMode('never')` is called once per icon at creation and never changed, so the highlight mode is not part of the state.
- Real-time scheduling: the 1000 ms tick, the 2000 ms health check and the 15000 ms timeout (`AUTOHIDE_TIMEOUT` in the timeout variant) are discrete `TimerFire` and `HealthCheck` events; the order in which they arrive is left to the event sequence.
- The health-check interval set up in `OnAppReady` is never cleared, so it is not entered in the timer registry; every `HealthCheck` event stands for one of its firings.
- `run`, the singleton `Instance` getter and the constructor's null icon handles: events exist only after `OnAppReady`, since the click handlers are bound when the icons are created and the health check is scheduled there.
- `console.log` output, and the commented-out image-interpolation formula and context menu, which are not live code.
- Process exit after `app.quit()` is modelled by `Step` ignoring every event once a quit was requested.
- Timer handles are natural numbers handed out in increasing order; Node's handle objects are always truthy, so `if (this.m_hTimer)` is a test for presence.
- Countdown.StepPreservesInv: the invariant allows an empty title while a countdown is live, because a health check that finds the icons misaligned calls `showIconMode(true)`, which clears the title until the next tick.
- Countdown.CountdownExpires: every tick in the run observes the same screen; only the last tick consults `checkBounds`, so the earlier screens do not matter.
- Decimal.Show: JavaScript writes integral numbers of magnitude 10^21 or more in exponent form (`'' + 1e21` is `"1e+21"`); `Show` always writes plain digits, which agrees with the source only below 10^21, and the countdown title only ever shows 0 to 10.
