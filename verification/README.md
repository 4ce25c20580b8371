# SafeStep escalation core, in Dafny

SafeStep is an iOS app that listens for sudden movements. When its fall detector
raises a flag, the home screen starts a countdown, configured in minutes and
seconds. If nobody answers "I Am Okay." before the countdown reaches zero, the app
escalates. It logs the fall in its history, emails the user's emergency contacts
when a profile name and at least one contact are set, and raises a local alert.
"I Am Not Okay." escalates at once, but only with the local alert. A countdown of
length zero shows a "Fall Detected" banner instead, and escalates three seconds
later.

This project models that logic and proves what it guarantees. It has three parts.

- `content_view.dfy`, module `Countdown`, models the home screen's state machine.
  Class `Controller` holds `remain`, `running`, `notified` and `showImmediate`, the
  detector flag, and a count of local alerts. The asynchronous hops that other
  events can interleave with become explicit event methods:
  - the detector flag changing is `SetDetector`, and SwiftUI delivering that change
    is `DetectorChanged`;
  - one whole second of the tick loop is `ElapseSecond`;
  - the loop run to its end with nothing in between is `Tick`;
  - the three-second delayed timeout is `DelayElapsed`.

  The remaining hops are folded into the event that issues them, as listed under
  "Left out". These are the detector reset after "I Am Okay.", the `Task` that runs
  `notifyNotOkay()`, and the awaited alert with its main-actor tail in
  `notifyTimeout()` and `notifyNotOkay()`.

  The pure parts, `total` and `fmt`, are functions with lemmas.
- `app_data.dfy`, module `AppStore`, models the shared store. Class `AppData` holds:
  - the clamped threshold;
  - the ten-second cooldown gate in front of the fall notification;
  - the fall history and the contact list;
  - the email decision;
  - the notification payload.

  Notifications handed to the notification centre and emails handed to the email
  service are recorded in the fields `scheduled` and `outbox`.
- `email_check.dfy`, module `EmailCheck`, models `isValidEmail`. The link detector
  is a parameter: a function from the trimmed text to the links it reports.

`text.dfy` holds the Foundation string behaviour the app relies on:
- trimming with the Unicode white-space-and-newline set;
- `split(separator:)`, which drops empty pieces;
- `%d` and `%02d`.

`base.dfy` holds `Option`, and the UUIDs and dates that the model receives as
parameters.

## Model

| member | source | states |
|---|---|---|
| Countdown.Total | ContentView.swift:19 | The total is never negative, and equals `mins*60+secs` whenever that sum is not negative. |
| Countdown.Fmt | ContentView.swift:167-171 | `fmt` always contains the colon. For `v >= 0`, the colon is the third character from the end, after at least one digit of minutes. |
| Countdown.FmtShape | ContentView.swift:167-171 | For `v >= 0`, `fmt(v)` is the decimal minutes, a colon and exactly two digits. Those two digits denote `v % 60`, which is below 60. |
| Countdown.FmtRoundTrip | ContentView.swift:167-171 | For `v >= 0`, reading the displayed `m:ss` back as `m*60+ss` gives `v`. |
| Countdown.Controller.constructor | ContentView.swift:10-22 | The screen starts idle: nothing remains, nothing runs, nothing has escalated, no banner shows, and no alert has been raised. |
| Countdown.Controller.Start | ContentView.swift:151-161 | `start()` sets `remain` to the total, runs exactly when the total is positive, and clears `notified`. It starts a tick loop when it runs. The invariant `0 <= remain <= total` holds afterwards. |
| Countdown.Controller.SetDetector | ContentView.swift:7 | The detector's flag changes and nothing else does. |
| Countdown.Controller.DetectorChanged | ContentView.swift:111-129 | On a raise, the banner shows and one delayed timeout is queued exactly when the total is zero, and then `start()` runs. On a drop, the countdown stops, `notified` clears, `remain` returns to the total and the banner hides. With no change, nothing happens. |
| Countdown.Controller.NotifyTimeout | ContentView.swift:196-206 | Exactly one history record, one email decision and one local alert. Afterwards `notified` is set, `running` is cleared, the detector is reset and the banner hides. Nothing else changes. |
| Countdown.Controller.Okay | ContentView.swift:67-72 | "I Am Okay." stops the countdown, clears `notified` and resets the detector. The store is untouched: no history, no email. No alert is raised. |
| Countdown.Controller.NotOkay | ContentView.swift:208-215 | "I Am Not Okay." sets `notified`, stops the countdown, raises one alert and resets the detector. The store is untouched: no history record and no email. |
| Countdown.Controller.ElapseSecond | ContentView.swift:177-193 | One second lowers `remain` by at most one and never below zero. A stopped countdown ends its loop without escalating. Reaching zero while running ends the loop and escalates, because the `running && remain == 0 && !notified` guard holds. |
| Countdown.Controller.Tick | ContentView.swift:173-194 | The loop runs to its end. A running countdown takes `remain` seconds and escalates exactly once, with one record appended, one email decision and one alert. A stopped one ends after one wake-up, and the store is untouched. |
| Countdown.Controller.DelayElapsed | ContentView.swift:115-118 | The delayed timeout of a zero-length countdown escalates without checking any flag. |
| Countdown.Controller.SetTimer | ContentView.swift:130-136 | Changing the configured total restarts the countdown when the detector is raised. Otherwise it resets `remain` to the new total. An unchanged total changes nothing but the setting. |
| Countdown.Controller.Appear | ContentView.swift:105-108 | On appearing, a raised detector starts the countdown. Otherwise nothing changes. |
| Countdown.TimeoutScenario | ContentView.swift:111-194 | A ten-second countdown that nobody answers escalates after exactly ten seconds. It produces one alert and one timeout record with its email decision. |
| Countdown.CancelScenario | ContentView.swift:67-72 | Answering "I Am Okay." four seconds before the end restores the full ten seconds and ends the loop. Nothing is logged, mailed or alerted. |
| Countdown.ImmediateScenario | ContentView.swift:113-118 | A zero-length countdown shows the banner without counting down, and then escalates exactly once through the delayed timeout. |
| AppStore.Clamp | AppData.swift:31-33 | A written threshold ends up in `[1.2, 4.0]`. An in-range value is kept as it is. |
| AppStore.ClampNearest | AppData.swift:31-33 | The stored threshold is the in-range value nearest to the one written. |
| AppStore.ClampIdempotent | AppData.swift:31-33 | Clamping twice is clamping once. |
| AppStore.ClampMonotone | AppData.swift:31-33 | A larger written value never gives a smaller threshold. |
| AppStore.Recipients | AppData.swift:211-213 | There is one address per contact, with the same length and the same order. |
| AppStore.RemoveWhere | AppData.swift:140-142 | `removeAll(where:)` never lengthens the list. RemoveWhereKeeps, RemoveWhereAppend and RemoveWhereNothing say which elements remain, and in which order. |
| AppStore.RemoveWhereKeeps | AppData.swift:140-142 | `removeAll(where:)` keeps exactly the elements the predicate rejects, each as often as before, and nothing the predicate accepts. |
| AppStore.RemoveWhereAppend | AppData.swift:158-160 | Removal distributes over concatenation, so the kept elements stay in their original relative order. |
| AppStore.RemoveWhereNothing | AppData.swift:158-160 | Deleting an id that is absent leaves the list as it was. |
| AppStore.FirstIndexOf | AppData.swift:153 | `firstIndex(where:)` gives the first entry with the id, or reports that no entry has it. |
| AppStore.UpdateConnections | AppData.swift:150-156 | Length and ids are kept. When the trimmed address is not empty, the first entry with the id takes it, with its id unchanged. No other entry changes. An empty trimmed address or an unknown id changes nothing. |
| AppStore.LatestIndex | AppData.swift:204 | The head of the history sorted by descending date: no record is later than it, and every record before it is strictly earlier. |
| AppStore.FallPayload | AppData.swift:76-79 | The payload has the key `fallSpeedG` exactly when a g-force is known. It then holds that g-force, and the payload has no other key. |
| AppStore.SpeedOf | AppData.swift:200-201 | A g-force is read exactly when the payload holds a `Double` under `fallSpeedG`, and it is that `Double`. |
| AppStore.PayloadRoundTrip | AppData.swift:76-79 | Reading a built payload back gives the g-force it was built from. |
| AppStore.EmailPlan | AppData.swift:119-131 | An email is sent if and only if the name has a visible character and there is a contact. It goes to every contact's address in order, under the trimmed name, with the age and the last peak. |
| AppStore.AppData.constructor | AppData.swift:219-221 | The store starts with the saved history and contacts and the default threshold. The cooldown is off, and nothing is scheduled or sent. |
| AppStore.AppData.SetThreshold | AppData.swift:31-33 | After any write, the stored threshold is the clamped value and the threshold invariant holds. |
| AppStore.AppData.ScheduleFallNotification | AppData.swift:72-95 | Exactly one more notice is scheduled, with the fixed title and category and the payload for the g-force. |
| AppStore.AppData.HandleFallDetected | AppData.swift:97-111 | Inside the cooldown window nothing happens. Otherwise exactly one notice is scheduled, and the window opens with its timer armed. |
| AppStore.AppData.FallDetectedBroadcast | AppData.swift:222-227 | A broadcast g-force becomes the last peak, and then the fall is handled under the cooldown gate. |
| AppStore.AppData.CooldownElapsed | AppData.swift:107-109 | The timer firing closes the cooldown window. |
| AppStore.AppData.LogFallOnTimeout | AppData.swift:113-117 | Exactly one record is appended at the end, with earlier records unchanged. Its g-force is the last peak if known, else the threshold. |
| AppStore.AppData.SendEmailOnTimeout | AppData.swift:119-131 | One email is sent if and only if the trimmed name and the recipients are both non-empty. Otherwise nothing is sent. |
| AppStore.AppData.ClearHistory | AppData.swift:133-138 | The history is emptied and the cooldown window closes. |
| AppStore.AppData.DeleteFall | AppData.swift:140-142 | Every record with the id is removed and the rest are kept in order. |
| AppStore.AppData.AddConnection | AppData.swift:144-148 | A blank address changes nothing. Otherwise exactly one contact is appended, carrying the trimmed address. |
| AppStore.AppData.UpdateConnection | AppData.swift:150-156 | The contact list becomes UpdateConnections of the old one, and nothing else changes. |
| AppStore.AppData.DeleteConnection | AppData.swift:158-160 | Every contact with the id is removed and the rest are kept in order. |
| AppStore.AppData.HandleNotificationPayload | AppData.swift:200-209 | A `Double` under `fallSpeedG` becomes the last peak. The latest record becomes pending when the history is non-empty. Any other payload changes nothing, and the history is never written. |
| Text.Trim | AppData.swift:145 | The result is what lies between a white-space prefix and a white-space suffix, and it neither starts nor ends with white space. |
| Text.TrimEmptyIff | AppData.swift:146 | A string trims to nothing exactly when it is all white space. |
| Text.TrimIdempotent | ConnectionsView.swift:134 | Trimming twice is trimming once. |
| Text.Split | ConnectionsView.swift:152 | Every piece is non-empty and free of the separator. |
| Text.SplitKeepsText | ConnectionsView.swift:152 | Joining the pieces gives the input with every separator removed, in order. |
| Text.SplitEmptyIff | ConnectionsView.swift:152-153 | Splitting gives no pieces exactly when the input is only separators. |
| Text.SplitWhole | ConnectionsView.swift:152 | A non-empty text free of the separator is a single piece: itself. |
| Text.SplitNoSeparator | ConnectionsView.swift:152-153 | A text without the separator never gives two pieces. |
| Text.SplitAppend | ConnectionsView.swift:152-155 | A separator cuts the text in two. The pieces of `a + sep + b` are the pieces of `a` followed by the pieces of `b`. With SplitWhole and the empty case, this fixes every piece as a maximal run free of the separator. |
| Text.DigitsRoundTrip | ContentView.swift:170 | `%d` of a natural number reads back as that number. |
| Text.DecimalString | ContentView.swift:170 | `%d` writes only digits for a number that is not negative, and they denote it. A negative number gets a minus sign before the digits of its magnitude. |
| Text.Pad2 | ContentView.swift:170 | `%02d` of a value from 0 to 99 is exactly two digits, and they denote that value. |
| EmailCheck.RemoveAll | ConnectionsView.swift:148 | Removing `mailto:` never lengthens the text, and adds no character. MailtoRemovedAnywhere says every occurrence is cut out, and RemoveAllNone that nothing else is. |
| EmailCheck.RemoveAllSplice | ConnectionsView.swift:148 | An occurrence of the pattern anywhere is cut out, and the text on either side is processed as if it stood alone. This holds for any pattern whose last character does not occur earlier in it. |
| EmailCheck.MailtoRemovedAnywhere | ConnectionsView.swift:148 | Every `mailto:` is cut out, wherever it stands, and the rest is kept. |
| EmailCheck.RemoveAllAbsent | ConnectionsView.swift:148 | Text without a `:` loses nothing to the `mailto:` removal. |
| EmailCheck.RemoveAllNone | ConnectionsView.swift:148 | Text in which the pattern occurs nowhere is left unchanged, so only occurrences are removed. With RemoveAllSplice, this fixes the result on every text. |
| EmailCheck.RemoveAllPrefix | ConnectionsView.swift:148 | A leading `mailto:` is removed. |
| EmailCheck.WellShaped | ConnectionsView.swift:151-159 | An address that passes the structural checks holds an `@` and no white space. |
| EmailCheck.IsValidEmail | ConnectionsView.swift:133-162 | Empty or white-space input is invalid. A valid input has exactly one `mailto` link, at location 0, spanning the whole trimmed text. The address in that link, with `mailto:` removed, is WellShaped: two `@`-pieces, a host with at least two `.`-pieces whose last piece has two or more characters, and no white space. |
| EmailCheck.TrimmedInputSameVerdict | ConnectionsView.swift:134 | White space around the input never changes the verdict. |
| EmailCheck.PlainAddressWellShaped | ConnectionsView.swift:151-161 | Every ordinary `local@domain.tld`, with a TLD of two or more characters, passes the structural checks. |
| EmailCheck.PlainAddressAccepted | ConnectionsView.swift:133-162 | An ordinary address that the detector reports as one whole-text `mailto` link is accepted. Together with IsValidEmail, this is the converse direction. |
| EmailCheck.DoubledAtWellShaped | ConnectionsView.swift:152-153 | Because empty pieces are dropped, `local@@domain.tld` also passes the one-`@` check. |

## Left out

- The SwiftUI view bodies, layout, colours, accessibility identifiers and the
  `accentColor` mapping are left out. So are the other screens (history,
  appearance, profile) and the list UI of the contacts screen. They hold no
  logic beyond presentation.
- Persistence is left out: `UserDefaults`, `@AppStorage`, JSON encoding and the
  `didSet` save hooks. The store receives its saved history, contacts, name and
  age at construction, and starts with the default threshold of 2.2. A stored
  threshold outside the range, loaded without passing through `didSet`, is not
  modelled.
- `UNUserNotificationCenter`, `EmailService`, `EmergencyNotifier` and
  `FallDetector` are foreign code. The model records what is handed to them:
  notices in `scheduled`, emails in `outbox` and alerts in `alerts`. The detector
  is reduced to its boolean flag, and `fd.reset()` sets that flag to false.
- Permission requests, the notification category registration, the theme toggle
  and the printed log lines are left out.
- The body texts formatted with `%.2f` are left out, because they are floating
  point presentation. The age is given to the model as an optional integer, so
  `Int(agstr)` parsing is not modelled.
- Timing and concurrency are replaced by sequential events. The model has:
  - no dispatch queue, so the main-queue append of `logFallOnTimeout` happens
    inside `NotifyTimeout` (the email does not read the history, so the result is
    the same);
  - no race on `incd`, which is set inside an asynchronous block;
  - at most one live tick loop, so a `start()` issued while a loop is alive joins
    that loop rather than starting a second one.
- Some asynchronous hops are not separate events:
  - the `Task` that resets the detector after "I Am Okay." (ContentView.swift:70-72)
    runs inside `Okay`;
  - the `Task` that runs `notifyNotOkay()` (ContentView.swift:84) runs inside
    `NotOkay`;
  - the awaited `notifyImmediate` call and the main-actor block after it
    (ContentView.swift:201-205 and 211-214) run inside `NotifyTimeout` and
    `NotOkay`.

  No other event can land between these steps in the model, so the model does not
  capture an interleaving such as the detector rising again before a pending
  reset runs.
- The 60 Hz progress animation and its floating-point second counting are
  abstracted to whole-second ticks.
- The unused private `reset()` of the home screen is left out.
- `Int` overflow of `mins * 60 + secs` is left out; integers are unbounded.
- Swift `Double` values (the g-force, the threshold) are modelled as exact reals,
  with no NaN, infinity or rounding. The clamp invariant `1.2 <= thrg <= 4.0` is
  therefore proved for every real write, which covers only non-NaN writes in
  Swift: `min(max(.nan, 1.2), 4.0)` is NaN and would pass the clamp.
- `split(separator:)` on `@` and `.` is modelled on single characters, not on
  Swift `Character`s. A separator followed by a combining mark forms one
  grapheme cluster, which Swift does not split at, but Text.Split does.
- Lengths are counted in characters, not in UTF-16 units (`NSString.length`) or
  grapheme clusters (`String.count`).
- The internals of `NSDataDetector` are left out. Which links it reports is a
  parameter of IsValidEmail.
- AppStore.LatestIndex: among records with equal dates it picks the earliest
  entry, as a stable sort would. `sorted(by:)` does not promise stability, so the
  source may pick another of the tied records.
- AppStore.AppData.CooldownElapsed: invalidating and re-arming the timer is
  reduced to a flag, `cooldownTimer`, that is up exactly while the window is open.
