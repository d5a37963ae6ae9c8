# certificate-sentry, modelled in Dafny

certificate-sentry watches the TLS certificates of a configured list of
domains. Every twelve hours it probes each domain in order, keeps two maps
for the whole process lifetime, and sends at most one chat alert per cycle:

- `willExpireSoon`: domain → remaining lifetime, present while that lifetime
  is at most the configured threshold `BeforeExpired`;
- `continuousErrorCounts`: domain → number of consecutive failed probes,
  reset to zero by any successful probe.

The alert lists every near-expiry domain with its remaining whole days, then
every domain whose count reached five. The configuration is checked once at
start-up by `Config.Complete`.

The model is split into modules:

| file | module | contents |
|---|---|---|
| `sentry.dfy` | `Sentry` | class `App` with the two maps and `CheckOnce`, class `FeishuRobot` (the notifier, recording every send in a ghost `sent`) |
| `domain_state.dfy` | `DomainState` | the per-domain update `Step` and the pass `Sweep` as pure functions, with lemmas about them |
| `alert_message.dfy` | `AlertMessage` | the alert text: lines, sections, headers, with lemmas about them |
| `config.dfy` | `Configuration` | class `Config` and the validation method `Complete` |
| `durations.dfy` | `Durations` | nanosecond constants, Go's truncating division, the day count |
| `decimal.dfy` | `Decimal` | Go's `%d` rendering of integers, with its inverse |
| `wrappers.dfy` | `Wrappers` | `Option` and `Result` |

Inputs that depend on the outside world are parameters:

- `CheckOnce(outcomes, transportError)` receives one `Probe` per configured
  domain: the remaining lifetime in nanoseconds (what `time.Until` of the
  certificate's expiry gives), or a failure flagged with whether the process
  context was already cancelled.
- `transportError` is the error the webhook transport would report.
- `Complete` receives the duration parser and `url.ParseRequestURI` as oracle
  functions.

Go visits map entries in no fixed order. `CheckOnce` therefore picks the next
key with `:|` and returns, as ghost values, the order in which each
section's domains were written. Its contract says that every such order is a
duplicate-free enumeration of the right set of domains: every key of
`willExpireSoon` for the expiry section, and the domains with a count of at
least 5 for the failure section. The lemmas show that the multiset
of lines does not depend on that order.

Durations are integer nanoseconds, as in Go's `time.Duration`. Every
comparison against the threshold and the 72h/720h bounds is done on whole
nanoseconds. The day count follows the code: whole hours truncated toward
zero, then Go's integer division by 24, which also truncates toward zero.

Three behaviours of the code are easy to misread:

- Cancellation is only looked at when a probe fails (app.go:63-66). A probe
  that succeeds after cancellation is still processed.
- The day count truncates toward zero rather than flooring. This matters for
  a certificate that has already expired, where the remaining lifetime is
  negative.
- Running the same probe results twice keeps `willExpireSoon` unchanged
  (`RepeatedCycleKeepsExpiry`). When every probe succeeds, the whole state
  repeats (`RepeatedHealthyCycleIsIdempotent`). A domain that never succeeds
  in the cycle keeps raising its count (`FailuresAccumulate`).
  After an all-success cycle is repeated, the alert has the same lines, but
  they may be listed in a different order, because Go visits the maps in a
  new order each time (`RepeatedHealthyCycleRepeatsAlert`).

## Model

| member | source | states |
|---|---|---|
| `Sentry.App.constructor` | app.go:24-35 | a new checker starts with both maps empty |
| `Sentry.App.CheckOnce` | app.go:59-123 | the maps end as `Sweep` gives for the configured domains, outcomes and threshold; an abandoned cycle sends nothing; a completed cycle sends exactly one message (title, content, footer) when an alert is warranted and none otherwise; the dispatch error affects nothing |
| `Sentry.App.ExpiryMessage` | app.go:92-98 | the expiry text is the header followed by one line per key of `willExpireSoon` in a duplicate-free visiting order covering every key; it is empty exactly when the map is empty, and otherwise starts with the header |
| `Sentry.App.FailureMessage` | app.go:100-110 | the failure text has one line per domain whose count is at least 5, in a duplicate-free visiting order covering exactly those domains; it is empty exactly when no count has reached 5, and otherwise starts with the header |
| `Sentry.FeishuRobot.SendWarnMessage` | template.go:55-62 | each call records exactly one message; the returned error is the transport's |
| `DomainState.Count` | app.go:70 | a domain's recorded error count, or Go's zero value 0 when the map has no entry for it |
| `DomainState.Cycles` | app.go:49-52 | the state after one pass per round, in order; domains not in the list keep their state |
| `Durations.TruncDiv` | app.go:96 | Go's integer `/` for a positive divisor: the quotient keeps the dividend's sign and is 0 whenever the dividend is smaller in magnitude than the divisor, negative dividends included |
| `Durations.WholeHours` | app.go:96 | `int64(d.Hours())`: the whole hours in the lifetime, truncated toward zero, so h hours lie within one hour of the lifetime, on the side of zero |
| `Durations.Days` | app.go:96 | `int64(d.Hours())/24` is the lifetime divided by a whole day, truncated toward zero, for positive and negative lifetimes |
| `AlertMessage.ExpiryLine` | app.go:96 | the line is "- ", the domain, " (remaining: ", the day count in `%d` form (`FormatInt`), and "d)<br>"; that number reads back as the day count |
| `AlertMessage.FailureLine` | app.go:104 | the line is "- ", the domain, " (errorCount: ", the count in `%d` form (`FormatInt`), and ")<br>"; that number reads back as the count |
| `AlertMessage.FailingDomains` | app.go:101-103 | exactly the domains whose count, with a missing entry read as 0, is at least 5; all of them are keys of the map |
| `AlertMessage.ExpirySection` | app.go:92-98 | the expiry text is empty exactly when `willExpireSoon` is empty, and otherwise starts with the expiry header |
| `AlertMessage.FailureSection` | app.go:100-110 | the failure text is empty exactly when no domain was written, and otherwise starts with the failure header |
| `AlertMessage.Content` | app.go:111 | the alert text is empty exactly when both sections are empty; it starts with the expiry header when some domain is near expiry, and with the failure header when none is but some domain was written to the failure section |
| `AlertMessage.Warranted` | app.go:113 | a message is due exactly when some domain is near expiry or some domain's count is at least 5 |
| `DomainState.Step` | app.go:62-88 | a failure raises the domain's count by one (a missing count is 0) and leaves `willExpireSoon` unchanged; a success sets the count to 0 and keeps the domain in `willExpireSoon` with its remaining lifetime exactly when that lifetime is at most the threshold; no other domain changes |
| `DomainState.Sweep` | app.go:61-89 | a pass completes exactly when no probe failed after cancellation; domains not in the list keep their state |
| `DomainState.StopsAtCancel` | app.go:63-66 | a failure observed after cancellation at position k ends the pass: the updates of positions before k remain and nothing after them is applied |
| `DomainState.AbandonedIsFinal` | app.go:61-66 | once a prefix of the list has been abandoned, the rest of the list changes nothing |
| `DomainState.SweepNext` | app.go:61-89 | a pass over one more domain is the shorter pass followed by that domain's update, unless abandoned |
| `DomainState.LastProbeDecides` | app.go:74-87 | when the last probe of d in a completed pass succeeded, d's count is 0 afterwards, and d is in `willExpireSoon` with that remaining lifetime exactly when it is at most the threshold (equality counts as near expiry) |
| `DomainState.FailuresAccumulate` | app.go:63-71 | a domain that never succeeds during a completed pass keeps its near-expiry entry, and its count grows by exactly its number of failures |
| `DomainState.ExpiryForgetsStart` | app.go:74-87 | where d succeeds at least once in a completed pass, its near-expiry entry afterwards does not depend on the starting state |
| `DomainState.RepeatedCycleKeepsExpiry` | app.go:61-89 | two completed cycles with the same outcomes leave the same `willExpireSoon` as one |
| `DomainState.SuccessesResetCounts` | app.go:74-75 | when every probe of a cycle succeeds, every listed domain ends with count 0 |
| `DomainState.RepeatedHealthyCycleIsIdempotent` | app.go:61-89 | two all-success cycles with the same outcomes leave the same state as one |
| `AlertMessage.RepeatedHealthyCycleRepeatsAlert` | app.go:61-113 | after two all-success cycles with the same outcomes, an alert is warranted after the second exactly when after the first, and each section has the same multiset of lines, whatever orders the maps are visited in |
| `DomainState.FailureStreak` | app.go:70 | a domain listed once that fails in each of k successive cycles has its count raised by exactly k |
| `DomainState.SingleFailure` | app.go:63-71 | a domain listed once whose probe failed has one failure and no success in that pass |
| `DomainState.ThresholdBoundary` | app.go:79 | one second above the threshold is healthy; one second below and exactly at the threshold are near expiry |
| `AlertMessage.ContentIffWarranted` | app.go:92-113 | the alert text is non-empty exactly when `willExpireSoon` is non-empty or some count is at least 5, so a message is sent in exactly those cycles |
| `AlertMessage.FailureSectionPresent` | app.go:107-109 | the failure header appears exactly when some domain has a count of at least 5, and it precedes the failure lines |
| `AlertMessage.ExpiryLinesIgnoreVisitOrder` | app.go:95-97 | the expiry section has exactly as many lines as `willExpireSoon` has keys, and the same multiset of lines for every visiting order |
| `AlertMessage.FailureLinesIgnoreVisitOrder` | app.go:102-106 | the failure section has exactly one line per failing domain, and the same multiset of lines for every visiting order |
| `AlertMessage.LinesPermute` | app.go:95-106 | visiting a permutation of the same domains gives a permutation of the same lines |
| `AlertMessage.EnumerationsPermute` | app.go:95 | two duplicate-free enumerations of one set of keys are permutations of each other |
| `AlertMessage.LinesOf` | app.go:95-106 | the i-th line is the rendering of the i-th visited domain and its value |
| `AlertMessage.ExtendSection` | app.go:96 | appending the next visited domain's line to the text so far gives the text of the longer visit |
| `AlertMessage.JoinLinesSnoc` | app.go:104 | appending one more line extends the concatenated text by that line |
| `AlertMessage.ReportedFromFifthFailure` | app.go:103 | starting from no recorded failures, a domain listed once is reported as failing after exactly five consecutive failed cycles and not after four |
| `AlertMessage.TwoDomainScenario` | app.go:61-89 | with a 7-day threshold, "a.example" expiring in 5 days and "b.example" failing once leave a.example near expiry with count 0, b.example with count 1, and an alert warranted |
| `AlertMessage.TwoDomainScenarioMessage` | app.go:92-111 | for every order in which the two maps may be visited, that cycle's alert is the expiry header and a.example's "(remaining: 5d)" line, with no failure section |
| `AlertMessage.FiveDaysShowAsFive` | app.go:96 | exactly five days of remaining lifetime are shown as 5 |
| `Durations.TruncDivBounds` | app.go:96 | Go's integer division: the quotient times the divisor never passes the dividend and misses it by less than the divisor |
| `Decimal.FormatInt` | app.go:96 | `%d` renders an optional '-' (exactly for negative numbers) followed by decimal digits, with no leading zero except for 0 itself |
| `Decimal.NatDigits` | app.go:104 | the digits of a natural number: non-empty, all decimal digits, without a leading zero except for 0 itself |
| `Decimal.FormatIntRoundTrip` | app.go:96 | the `%d` text parses back to the integer it came from |
| `Configuration.Config.constructor` | config.go:11-18 | the record as loaded: domains, URL and threshold text set, `BeforeExpired` still zero |
| `Configuration.Config.Complete` | config.go:20-41 | an empty domain list is rejected before anything else; then an unparsable threshold; then a threshold above 720h or below 72h (both bounds accepted); then an invalid URL; success happens exactly when all four checks pass, and only then is `BeforeExpired` set, to the parsed value, which lies in [72h, 720h]; on every error it keeps its old value |

## Left out

- `parseCertExpiredTime` (app.go:125-145) is the TCP+TLS dial with its 3-second timeout; its result is an input `Probe`.
- `time.Until` (app.go:77) reads the wall clock; the remaining lifetime is part of the input `Probe`.
- `Run` (app.go:43-57), the 12-hour ticker, the `cancel` closure of `NewApp` (app.go:37-40) and signal handling are timers and concurrency. Successive cycles appear as `DomainState.Cycles`, used to state `FailureStreak` and `ReportedFromFifthFailure`, and as two nested `Sweep`s in the `Repeated*` lemmas.
- template.go is not part of this model beyond the call `SendWarnMessage`: template loading and execution and the HTTP POST are reduced to a recorded, possibly failing call.
- main.go (flags, file reading, YAML decoding, logger set-up) is not part of this model.
- Logging calls are left out; a failed dispatch is only logged in the code, so it has no effect in the model.
- `ParseDuration` is defined elsewhere in the program and `url.ParseRequestURI` is library code; both are oracle parameters of `Complete`.
- `Duration.Hours()` returns a float. The model compares whole nanoseconds and truncates whole hours exactly. It does not model float rounding, which could round an hour count up when the count is very large and the remainder is within a float step of a whole hour.
- Sentry.App.CheckOnce: does not model the 64-bit range of Go's `int` error count or of `time.Duration` (including `time.Until` saturating at the int64 bounds), because integers here are unbounded and the counts reachable in practice are far below the limit.
- The order of lines within each section is whatever order the map was visited in, as in Go; the model fixes no order and proves statements that hold for every order.
