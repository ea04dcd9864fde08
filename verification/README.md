# Verified core of the palisade reverse proxy

This project models the parts of the proxy whose correctness is hardest to see from the code: the smooth
weighted round-robin balancer, the health and half-open recovery machine it consults, the masking of
sensitive parameters in response bodies, and the header stages of an outbound request. Everything is
stated for all inputs, all runs or all reachable states.

| file | contents |
|---|---|
| `Sums.dfy`, `MachineInts.dfy`, `Wrappers.dfy` | sums over index sets; wrapping and saturating machine integers; `Option` |
| `RoundRobin.dfy` | one selection as a function, and the subset bound that every selection keeps |
| `Runs.dfy` | whole runs with changing eligible sets: bounds, fair shares, bounded waiting |
| `Rotation.dfy`, `Period.dfy` | a fixed eligible set: how far ahead or behind a backend can be; the exact period and proportions |
| `DocumentedBound.dfy` | exactly when the bound in the field comment holds, for changing and for steady pools |
| `Balancer.dfy` | the balancer as a class over an array of 64-bit accumulators, refined to the ideal selection |
| `Upstream.dfy`, `HealthHistory.dfy` | the per-backend health class; what its wrapping counters mean |
| `PoolRuns.dfy`, `RecoveryRuns.dfy` | runs of selections, outcomes and probes on monotone clocks: what health and eligibility are in every reachable state, trial spacing, waiting, recovery time and runs that attain it |
| `SelectionRaces.dfy`, `SelectionDrift.dfy`, `DriftBound.dfy` | concurrent selections split at every atomic operation: conservation, what each call decides by, a bound on drift, bounded waiting |
| `HealthRaces.dfy`, `RacingTrials.dfy` | concurrent selections and outcome reports on one backend; runs that attain the bound on racing trials |
| `Templates.dfy` | how replacement texts are expanded, and which expand to themselves |
| `Masking.dfy` | the fold of replacements, and exactly when it is one pass over the segments |
| `Connection.dfy`, `Headers.dfy` | what a Connection value declares; the four header passes in place, and exactly what comes out, name by name |

Notation: `n` backends with weights `w[i]` and configured total `W`; an eligible set with total `T`; `H(m)`
is the harmonic number `1 + 1/2 + ... + 1/m`.

How the layers connect. `RoundRobin.Next` is one ideal call. `Balancer.LoadBalancer.Next` is the loop on
machine integers, proved to be that call on every pool of up to 65535 backends, over runs of any length.
`Runs` folds the call over arbitrary sequences of eligible sets, and `PoolRuns` shows that every run of the
whole system - health, clocks and all - is such a fold, so the bounds of `Runs` hold in every reachable state. The health class is
tied to the `Health` datatype by its `ensures`, and `HealthHistory`, `PoolRuns` and `HealthRaces` all
speak about that datatype; likewise the header class and the functions on maps that the header lemmas
describe. The concurrent systems are tied to the atomic ones by lemmas that an uninterrupted caller does
exactly what the atomic operation does.

The invariant behind the bounds is over all subsets: any `k` of the `n` backends hold at most
`W * k * (n - k) / 2` together, whatever the eligible sets were. Under concurrency the same shape of
invariant survives with a cap of `(2k(n - k) + 1) * C * W` for at most `C` calls in flight: near its cap a
group's members are above all others even when the two are read at different times, so a call that begins
then must pick inside the group, and only the calls already in flight can still raise it.

## Where code and documentation differ

- The field comment at `src/balancer.rs:35` says running weights stay within plus or minus the total
  weight. That is true of every pool of `n` backends exactly when `n <= 3`, and just so when every backend
  stays healthy and eligible: for every larger size (up to 65535) there are weights for which 26 requests
  to a healthy pool break it (`DocumentedBound.DocumentedBoundIffSmall`,
  `DocumentedBound.SteadyBoundIffSmall`, `DocumentedBound.SystemPassesTotal`).
- The comment at `src/upstream.rs:120-123` promises at most one trial per window. With atomic calls this
  holds except when a cooldown saturates at the end of the 64-bit millisecond clock
  (`PoolRuns.CooldownEnds`, `PoolRuns.CooldownCutShort`). With racing calls the exact bound is one trial per
  call that held its answer when the cooldown was armed, and for every number of calls some run attains it
  (`HealthRaces.TrialsBoundedByCallsInFlight`, `RacingTrials.RacingTrialsAttainBound`).
- `src/headers.rs:13-18` refers to section 7.6.1 of RFC 9110. The code reads only the first Connection
  value; the two readings agree exactly when no later value names a further header that is present
  (`Headers.StripMeetsRfcIff`, and `Headers.SecondConnectionValueMissed` for a map on which they differ).
  The code strips `trailers`, not the registered name `trailer`; the model does what the code does.
- `src/headers.rs:50-55` says the trust setting selects how client-supplied forwarding metadata is treated.
  The forwarded host does not depend on it: when no host value of the client survives stripping, the
  client's own forwarded host is passed on, trusted or not (`Headers.ForwardedExactly`,
  `Headers.UntrustedHostForwarded`).
- `src/config.rs:722-726` says masking replaces the values of configured parameters by stars. The
  replacement text is a template, and the pattern may match across `&`. One rule cuts every text segment by
  segment exactly when its name contains no `&` and no template syntax (`Masking.RuleIsOnePassIff`), and all
  lists of rules drawn from a set of names do exactly when each of the names is such
  (`Masking.OnePassSufficesIffPlain`). The rule `$1` shows the value it should hide
  (`Masking.TemplateShowsValue`). A single list can agree with the single pass although one of its names
  does not, as when an earlier plain name covers it (`Masking.CoveredRuleHarmless`).

## Model

| member | source | states |
|---|---|---|
| RoundRobin.Leader | src/balancer.rs:60-73 | after `n` backends the scan holds nobody exactly when none of them is eligible, and otherwise the first of the eligible ones whose credited weight is largest |
| RoundRobin.FirstMaximumUnique | src/balancer.rs:69-72 | the selection rule (largest credited weight, earliest on a tie) determines the winner |
| RoundRobin.NextSum | src/balancer.rs:53-86 | what one call adds to any group of backends: their eligible weights, less the eligible total exactly when the winner is among them |
| RoundRobin.NextKeepsBalanced | src/balancer.rs:53-86 | the invariant of every run: if all running weights sum to zero and every group of k holds at most W·k·(n−k)/2, both hold after one call with any eligible set (exchange of the group against the group without those the winner beats and the group with the winner) |
| RoundRobin.BalancedEntry | src/balancer.rs:33-36 | under that invariant every running weight lies within ±(n−1)·W/2 |
| Runs.RunningWeightsBounded | src/balancer.rs:53-86 | for every sequence of calls and every sequence of eligible sets from a fresh balancer: the running weights sum to zero, any k of n hold at most W·k·(n−k)/2, and each stays within ±(n−1)·W/2 |
| Runs.Ledger | src/balancer.rs:60-77 | a running weight is exactly what the backend was owed (its weight per call that found it eligible) less the totals it was charged |
| Runs.FairShare | src/balancer.rs:3-11 | whatever the health history, the totals charged to a backend never stray from weight times offers by more than (n−1)·W/2 |
| Runs.BoundedWaiting | src/balancer.rs:53-86 | from any reachable state and whatever the others do, a backend passed over by a stretch of calls was eligible in at most (n−1)·W/w of them |
| DocumentedBound.SmallPoolsWithinTotal | src/balancer.rs:34-36 | with at most three backends running weights stay within plus or minus the total, for all weights and eligible sets |
| DocumentedBound.HealthyPoolPassesTotal | src/balancer.rs:34-36 | for every pool size from four up there are `u32` weights with which a pool that is entirely eligible all along has a running weight above the total after 26 calls |
| DocumentedBound.SteadyBoundIffSmall | src/balancer.rs:34-36 | for a steady eligible set of m backends, and their own total, the commented bound holds for all weights and at all times if and only if m ≤ 3 |
| DocumentedBound.DocumentedBoundIffSmall | src/balancer.rs:34-36 | the commented bound holds for all pools of n backends and all sequences of eligible sets if and only if n ≤ 3 |
| DocumentedBound.SystemPassesTotal | src/balancer.rs:34-36 | the whole system, health and clocks included, breaks the bound from its fresh state by 26 routed requests with nobody ever unhealthy |
| Rotation.StateIsRun | src/balancer.rs:53-86 | a stretch with a fixed eligible set is a run in the general sense, so every general bound applies to it |
| Rotation.StateAbove | src/balancer.rs:53-86 | with a fixed eligible set no eligible running weight ever falls to minus the eligible total |
| Rotation.StateProfile | src/balancer.rs:53-86 | any k of the m eligible backends are together behind by at most g(k) eligible totals, for every profile g that the exchange step respects |
| Rotation.NeverOverServed | src/balancer.rs:3-11 | after any k calls a backend has had less than one pick more than its exact share k·w/T, and is short of it by at most H(m)−1 picks |
| Rotation.StreakBounded | src/balancer.rs:7-9 | n picks in a row of one backend satisfy n·(T−w) < T·H(m): heavy backends are spread out, not served in one block |
| Period.ReturnsToZero | src/balancer.rs:41-86 | after (total)/(common divisor) calls every running weight is zero again |
| Period.ExactProportions | src/balancer.rs:41-86 | every window of T/gcd calls, at any offset, picks each eligible backend exactly w/gcd times and ends in the state it started from |
| Period.PicksRepeat | src/balancer.rs:41-86 | running weights and picks repeat with the period |
| Period.ReturnsExactlyAtMultiples | src/balancer.rs:41-86 | the fresh state recurs after exactly the multiples of T/gcd calls, so no shorter period exists |
| Balancer.ScanTo | src/balancer.rs:56-73 | the loop with wrapping accumulators and saturating locals only ever holds a visited, eligible backend as best |
| Balancer.NobodyFoundIffNobodyEligible | src/balancer.rs:58-72 | starting the comparison at `i64::MIN` is safe in any state, even a saturated one: nobody is found exactly when nobody is eligible |
| Balancer.SmallPoolsFit | src/balancer.rs:56-77 | every pool of up to 65535 backends with any `u32` weights satisfies the no-overflow condition (n+1)·W/2 ≤ `i64::MAX` |
| Balancer.ScanIsIdeal | src/balancer.rs:56-73 | in every state a fitting pool can reach, no `fetch_add` or `saturating_add` of the scan wraps or saturates: it is the unbounded-integer scan, variable by variable |
| Balancer.MachineNextIsIdeal | src/balancer.rs:53-86 | the whole call in machine arithmetic equals the ideal one, errs exactly when nobody is eligible, and leaves a state of which the same is true again |
| Balancer.MachineRunIsIdeal | src/balancer.rs:53-86 | no overflow over any run: from zeros, for any sequence of eligible sets, the run in machine arithmetic is the ideal run |
| Balancer.LoadBalancer.constructor | src/balancer.rs:41-47 | one zero accumulator per backend; a pool that fits starts in bounds |
| Balancer.LoadBalancer.ScanBackends | src/balancer.rs:56-73 | the loop over the shared array leaves array, total and best as the machine-arithmetic scan does, in any state |
| Balancer.LoadBalancer.ScanAndCharge | src/balancer.rs:53-86 | in any state: the winner is charged, only an unhealthy winner has its cooldown re-armed, and every other backend is untouched |
| Balancer.LoadBalancer.Next | src/balancer.rs:49-86 | in bounds: the new running weights are those of the ideal rule and the result is the first maximum; the error is returned exactly when every backend is unhealthy with its cooldown still running, so any healthy backend, whatever its counters, makes the call succeed; only an unhealthy winner is re-armed; the balancer stays in bounds |
| Upstream.UpstreamState.constructor | src/upstream.rs:76-92 | a backend starts healthy with clear counters and no cooldown |
| Upstream.UpstreamState.RecordSuccess | src/upstream.rs:141-163 | the new state, and true exactly on the transition from unhealthy to healthy, which happens exactly when the threshold is reached |
| Upstream.UpstreamState.RecordFailure | src/upstream.rs:171-186 | the new state, and true exactly on the transition from healthy to unhealthy, which happens exactly when the threshold is reached |
| HealthHistory.FailureEjects | src/upstream.rs:165-186 | by the history alone: a failure leaves a backend ejected exactly when it was ejected or this failure completes a full run of failures |
| HealthHistory.SuccessKeepsEjected | src/upstream.rs:133-163 | by the history alone: a success leaves a backend ejected exactly when it was and no full run of successes is completed |
| HealthHistory.CountersRefineHistory | src/upstream.rs:141-186 | for every history of any length the wrapping counters agree with it: unhealthy exactly when some F failures in a row have no H successes in a row after them; healthy implies failures < F, unhealthy implies successes < H |
| HealthHistory.UntilRefinesHistory | src/upstream.rs:141-186 | reports alone leave the cooldown of an ejected backend where the failure that ejected it put it, and a healthy backend without one |
| PoolRuns.PoolRunIsRun | src/balancer.rs:53-86 | in every run of selections, outcomes and probes the running weights are those of the selections alone on the eligible sets they found |
| PoolRuns.ReachableBalanced | src/balancer.rs:53-86 | the subset bound holds in every reachable state of the whole system |
| PoolRuns.HealthFollowsOutcomes | src/proxy.rs:234-271 | in every run, after any number of actions, flag and counters of a backend are what the outcomes reported on it explain; selections, re-armed cooldowns, abandoned requests and other backends change none of the three |
| PoolRuns.UntilFollowsArms | src/upstream.rs:120-127 | in every reachable state a healthy backend has no cooldown and an unhealthy one the cooldown armed last, by its ejection or a trial |
| PoolRuns.EligibleExactly | src/upstream.rs:106-118 | in every reachable state a backend may be picked exactly when its reported outcomes do not leave it ejected, or a full cooldown has passed since its ejection or last trial (or the clock ended in a saturated cooldown) |
| PoolRuns.RequestsConserved | src/proxy.rs:187 | every routed request is pending or has ended exactly once, by an answer, a failure or abandonment |
| PoolRuns.ClockNeverGoesBack | src/upstream.rs:129-132 | the clock of a backend, its last reading, never goes back over a run |
| PoolRuns.AnyoneMayAct | src/balancer.rs:13-17 | in any state a selection, a probe, and the end of any pending request are possible at any readings that do not go back |
| PoolRuns.HealthyPoolRun | src/balancer.rs:53-86 | requests routed to a pool that stays healthy are a reachable run of the whole system, and its running weights are those of the fixed eligible set |
| PoolRuns.TrialComes | src/balancer.rs:60-81 | from any reachable state a backend, an ejected one awaiting its trial included, is passed over by at most (n−1)·W/w of the selections that find it eligible |
| PoolRuns.CooldownEnds | src/upstream.rs:110-127 | an armed backend is eligible exactly when the cooldown has passed, or the clock is at its last reading and the cooldown saturated |
| PoolRuns.CooldownCutShort | src/upstream.rs:124-127 | a concrete reading at which saturation ends a cooldown early |
| PoolRuns.TrialsSpaced | src/balancer.rs:75-83 | while a backend stays unhealthy every selection of it comes at least one cooldown after its ejection and after each earlier trial, whatever comes between (unless the clock is at its last reading) |
| PoolRuns.PassiveRecoveryTime | src/proxy.rs:234-271 | without active probes a backend ejected at t with `left` requests still pending is promoted no earlier than t + (H − left) cooldowns (unless the clock is at its last reading) |
| PoolRuns.SequentialRecoveryTime | src/proxy.rs:187 | when requests are handled one at a time the ejecting failure leaves none pending, so promotion takes H full cooldowns |
| RecoveryRuns.RecoveryAttained | src/upstream.rs:8-13 | passive recovery happens and the bound is exact: for all thresholds and cooldowns a run without probes, one request at a time, promotes a backend ejected at 0 at exactly H cooldowns and leaves it as good as new |
| SelectionRaces.EveryInterleavingConserves | src/balancer.rs:56-77 | for any number of concurrent calls split at each atomic operation, the accumulators always sum to the partial totals of the calls in flight, modulo 2^64, and no call's total saturates |
| SelectionRaces.NobodyWaits | src/balancer.rs:13-17 | in every reachable state a new call may begin whoever is in flight, a scanning call may find the next backend eligible or not, a finished scan may charge exactly when it has a best backend and give up exactly when it has none, and a returned call does nothing more |
| SelectionRaces.ManyCallsMidway | src/balancer.rs:66-68 | for every m there is a run with m calls in flight at once, each past a credit of the first backend before any has charged, and the accumulator holds m times the weight, wrapped |
| SelectionRaces.QuietSumsToZero | src/balancer.rs:13-17 | whenever no call is in flight the accumulators sum to zero modulo 2^64, and to zero outright if the sum lies within the range |
| SelectionRaces.ExactWhileShort | src/balancer.rs:56-77 | as long as steps times W fit in an `i64`, no interleaving wraps an accumulator and the conservation law is an equality of integers |
| SelectionRaces.UninterruptedIsAtomic | src/balancer.rs:53-86 | the step system is the right one: a call that nobody interrupts, among any suspended calls, leaves exactly the accumulators of the atomic call and fails exactly when it does |
| SelectionDrift.CallEndsByItsOwnReads | src/balancer.rs:60-85 | under every interleaving, and whatever wraps, a call fails exactly when none of its own eligibility reads was positive, and otherwise charges a backend that it credited itself, with exactly the weights that it credited; then it has returned |
| SelectionDrift.BestIsLargestRead | src/balancer.rs:66-72 | under every interleaving the backend a call holds as best is one whose value, at the moment it was read, is the largest of the values the call read |
| DriftBound.HighGroupLeadsAcrossTime | src/balancer.rs:60-77 | at any two moments at which a group of accumulators is near its cap, each member at one moment is above each outsider at the other |
| DriftBound.ConcurrentDriftBounded | src/balancer.rs:13-17 | with at most C calls in flight, under every interleaving, for any run length and whatever each call finds eligible: any k accumulators sum to at most (2k(n−k)+1)·C·W, each stays within ±(2n−1)·C·W, none wraps, and together they equal what the calls in flight hold, provided (2n−1)·C·W + W fits in an `i64` |
| DriftBound.ConcurrentBoundedWaiting | src/balancer.rs:13-17 | under the same condition a backend that no call picks in some stretch of steps is credited in it at most 2(2n−1)·C·W/w times |
| HealthRaces.UninterruptedFailure | src/upstream.rs:171-186 | the operations of a failure report, listed in order, performed without interruption are the atomic report |
| HealthRaces.UninterruptedSuccess | src/upstream.rs:141-163 | the same for a success report, which clears the cooldown before it declares the backend healthy |
| HealthRaces.UninterruptedEligibility | src/upstream.rs:110-118 | without interruption a selection holds the answer that the backend may be picked exactly when the flag is set or the clock has reached the end of the cooldown; its operations are listed in order |
| HealthRaces.UninterruptedSelection | src/balancer.rs:60-83 | it changes the backend exactly when the scan picks it and it is unhealthy, as the atomic selection does |
| HealthRaces.FieldWriters | src/upstream.rs:116-186 | which operation writes which field, in whatever state it meets: each writes at most one |
| HealthRaces.InterruptedAnswers | src/upstream.rs:110-118 | what interruption changes: a backend promoted between the two looks is passed over, one promoted before the last look is picked without a re-arm, and the cooldown is compared with the caller's own old clock reading |
| HealthRaces.NobodyBlocks | src/upstream.rs:1-7 | selections and reports may arrive and unfinished callers go on in every state, and time may pass |
| HealthRaces.EjectionsCounted | src/upstream.rs:141-186 | under every interleaving reported ejections never exceed one plus the promotions written, and never exceed the promotions while healthy |
| HealthRaces.EjectionsSeparated | src/upstream.rs:171-186 | two failure reports that both return true always have a write of healthy between them |
| HealthRaces.FailureCounter | src/upstream.rs:141-180 | under every interleaving the failure counter is the number of failures counted since it was last cleared, modulo 2^32 |
| HealthRaces.EjectionEarned | src/upstream.rs:171-186 | under every interleaving the caller that reports an ejection had itself counted a failure that was at least the threshold's worth since the last clearing |
| HealthRaces.TrialsReadBeforeArm | src/balancer.rs:60-81 | after an arm at t, and with no promotion in between, every trial dispatched before t + cooldown comes from a call whose eligibility read preceded that arm |
| HealthRaces.OneTrialPerCall | src/balancer.rs:75-83 | a call dispatches at most one trial |
| HealthRaces.TrialsBoundedByCallsInFlight | src/upstream.rs:110-127 | so within one cooldown of an arm the trials, the one that armed it included, are at most as many as the calls that then held a positive answer |
| RacingTrials.RacingTrialsAttainBound | src/upstream.rs:120-127 | for every m and all thresholds there is a run in which m calls hold their answer when the cooldown is armed and all m dispatch a trial within it |
| Templates.EscapedDollarExpands | src/config.rs:730 | `$$` stands for a dollar |
| Templates.UnbracedExpands | src/config.rs:730 | `$` and the letters, digits and underscores that follow stand for the whole match if they are zeros, for the value if they are zeros and a one, and for nothing otherwise |
| Templates.BracedExpands | src/config.rs:730 | the same for `${` up to the next `}` |
| Templates.LoneDollarExpands | src/config.rs:730 | any other dollar stands for itself |
| Templates.LiteralExpands | src/config.rs:730 | a replacement text without references and escaped dollars is inserted as it is, whatever was matched |
| Templates.NotLiteralChanges | src/config.rs:730 | any other replacement text comes out with another length once the value is long enough |
| Masking.ReplaceIsOnePass | src/config.rs:528-542 | a rule whose name has no `&` and no template syntax, applied by a leftmost, greedy, non-overlapping scan, cuts exactly each segment after the first occurrence of its `name=` that something follows |
| Masking.RuleIsOnePassIff | src/config.rs:727-733 | one rule does that on all texts if and only if its name contains no `&` and no template syntax |
| Masking.MaskTwice | src/config.rs:727-733 | masking a masked segment with further names is masking it once with all of them: the earliest cut wins |
| Masking.PassTwice | src/config.rs:727-733 | the same for whole texts |
| Masking.FoldIsOnePass | src/config.rs:727-733 | for such names, applying the rules one after another is a single pass that cuts each segment after the first `=` ending an occurrence of any configured name and appends the stars |
| Masking.OnePassSufficesIffPlain | src/config.rs:528-542 | all lists of rules drawn from a set of names, in any order, mask all texts as the single pass does if and only if no name in the set contains `&` or template syntax |
| Masking.CoveredRuleHarmless | src/config.rs:727-733 | a rule whose name contains `&` and ends in the plain name of the rule before it changes nothing: that list is the single pass although one of its names is not plain |
| Masking.OrderIrrelevant | src/config.rs:727-733 | neither the order of the rules nor repeating one changes the result |
| Masking.MaskingIdempotent | src/config.rs:727-733 | masking a masked text changes nothing |
| Masking.MaskingComplete | src/config.rs:722-733 | in the final text every configured `name=` that has a value is followed by the stars and the end of its segment |
| Masking.MaskingHidesExactlyValues | src/config.rs:722-733 | two texts give the same output if and only if they differ in nothing but non-empty masked values |
| Masking.MaskingGrowth | src/config.rs:727-733 | however many rules there are, a text grows by at most three characters per segment |
| Masking.OrderMattersAcrossSegments | src/config.rs:528-542 | with a name containing `&` the result can depend on the rule order: a concrete pair of rules and text |
| Masking.TemplateShowsValue | src/config.rs:730 | the rule `$1` turns `$1=value` into `value=****`, for every value |
| Masking.TemplateGrows | src/config.rs:730 | the rule `$1-$1` grows a segment by the length of its value, so no fixed bound per segment holds |
| Connection.SplitJoins | src/headers.rs:23-27 | the parts of a Connection value, joined by commas, are the value again |
| Connection.SplitHoldsNoComma | src/headers.rs:23-27 | no part holds a comma, so the parts are the pieces between commas |
| Connection.TrimTrims | src/headers.rs:25 | trimming takes off blanks only, and all of them at either end |
| Connection.ParseAllFinds | src/headers.rs:20-28 | a name is declared exactly when some part, trimmed, parses to it; parts that do not parse are skipped |
| Connection.PieceIsPart | src/headers.rs:24 | every comma-free stretch of the value between commas or ends is a part |
| Connection.PartIsPiece | src/headers.rs:24 | and every part is such a stretch |
| Connection.TrimUnique | src/headers.rs:25 | the trimmed text is the only middle that starts and ends without blanks |
| Connection.DeclaredExactly | src/headers.rs:20-28 | a readable value declares exactly the names that its stretches between commas, without their blanks, parse to |
| Headers.HeaderMap.RemoveAll | src/headers.rs:30-47 | removing names one by one removes exactly that set |
| Headers.HeaderMap.StripHopByHop | src/headers.rs:19-48 | exactly the names survive, with all their values, that are none of the eight written out and that no piece of a readable first Connection value names |
| Headers.HeaderMap.PrepareForUpstream | src/proxy.rs:194-210 | for every name, what the four stages leave in place is what is expected of the client's headers, the connection, the trust setting, the upstream and the blocked names |
| Headers.StrippedExactly | src/headers.rs:19-48 | stripping leaves exactly the surviving names, and their first values |
| Headers.ForwardedExactly | src/headers.rs:50-96 | for every name and every combination of trust, presence and readability: the address list is the trusted surviving one extended by the client or else the client alone, the scheme is the trusted surviving one or else that of the connection, the forwarded host is the client's surviving host or else the client's own, the host is the upstream's, every other name is kept exactly when it survives, and blocked names are gone |
| Headers.NothingForbiddenForwarded | src/proxy.rs:194-210 | none of the eight hop-by-hop names survives stripping, and neither they nor blocked names leave the proxy |
| Headers.UntrustedForwardingFixed | src/headers.rs:50-81 | without trust the forwarded address and scheme are the same for any two sets of client headers: only the connection decides them |
| Headers.UntrustedHostForwarded | src/headers.rs:50-86 | without trust a client that sends no host chooses the forwarded host |
| Headers.StripIdempotent | src/headers.rs:19-48 | stripping twice is stripping once, although the second pass finds no Connection header |
| Headers.StripMeetsRfcIff | src/headers.rs:13-48 | the surviving names are those of reading all Connection values, as section 7.6.1 of RFC 9110 asks, if and only if every header that a later value names is hop-by-hop, absent, or named by the first value too |
| Headers.SecondConnectionValueMissed | src/headers.rs:20-22 | a header declared only by a second Connection value is forwarded by the code and removed by the RFC reading |

The remaining methods of the classes (eligibility tests, arming, inserting and removing headers) only link
a class to the datatype or map that the lemmas above speak about.

## Left out

- Masking.FoldIsOnePass: which single lists with a name that is not plain are still the single pass is not characterised beyond `CoveredRuleHarmless`; the exact conditions are per rule and per set of names.
- Masking.MaskingComplete: for names with `&` or template syntax the counterexamples and the exact condition of the single pass are given, not what the fold then computes.
- DriftBound.ConcurrentDriftBounded: the constants are not shown to be the best possible, and exact proportions under concurrency are not stated.
- HealthRaces.TrialsReadBeforeArm: reading the clock and storing the end of the cooldown in `arm_cooldown` is one step, so a caller delayed between the two is not modelled.
- DocumentedBound.DocumentedBoundIffSmall: pools of more than 65535 backends are not covered; beyond that size the machine arithmetic itself may wrap.
- Clock readings, request outcomes, probe results and which caller moves next are parameters or nondeterministic steps; memory orderings weaker than interleaving are not modelled.
- `mark_healthy` and `mark_unhealthy` of the backend state, which only the test suites call.
- Header name parsing and the readability and validity of header values are parameters standing for the HTTP library; the order of different names in a header map is not modelled.
- The regular-expression library is modelled for the one pattern shape and the replacement templates that the rules use.
- Lossy UTF-8 decoding before masking and the size limits around it; the model starts from text.
- Rate limiting, TLS, metrics, the admin endpoints, the accept loop and the connection limits in the server, and the error-to-status table.
- TOML loading and the one-line validation checks; their results (positive weights, thresholds of at least 1) are preconditions.
- Query inspection, URI building, request identifiers, body limiting and streaming, response header stripping.
