# Plecto: a verified model of the fast path's deterministic cores

Plecto is a reverse proxy that runs WebAssembly filters in front of its upstreams. This project models, in
Dafny, the algorithms and lock-protected state machines under its fast path and proves what they promise.
`dafny verify dfyconfig.toml` checks all of it.

| file | what it models |
|---|---|
| `Words.dfy`, `Arith.dfy`, `Counting.dfy`, `Measure.dfy`, `Bytes.dfy` | machine words, integer facts, counts and sums, little-endian bytes |
| `Primes.dfy`, `ValidateLb.dfy`, `Maglev.dfy` | the primality test, load-balancing validation, the weighted Maglev table |
| `Apportion.dfy`, `WeightedBackends.dfy` | the maximum-deficit rule, and the precomputed schedule that serves it by a cursor |
| `Rng.dfy` | SplitMix64 and Lemire's bounded integers |
| `TokenBucket.dfy`, `NativeRateLimit.dfy` | the token bucket and the native per-route limiter |
| `KvBackend.dfy`, `HostState.dfy`, `HostRuns.dfy`, `HostReads.dfy` | the in-memory store, key namespaces, the quota, all runs of host calls, and what a filter reads back |
| `NonInterference.dfy`, `SixteenFilters.dfy` | isolation between filters, and how many filters it holds for |
| `Pool.dfy`, `PoolRuns.dfy` | the trusted instance pool, and every interleaving of requests through it |
| `NormalizePath.dfy`, `SelectRoute.dfy` | path normalisation and route selection |
| `Forward.dfy` | the retry loop |

## How the source is rendered

- Rust objects that update fields become classes (`SplitMix64`, `Backends`, `Limiter`, `MemoryBackend`, `KvQuota`,
  `FilterHandle`, `PoolInner`); loops become loops. Each method is tied by its postcondition to a function on values,
  and the theorems are about those functions and about all sequences of their steps.
- 64-bit arithmetic is explicit: wrapping products and saturating sums are written out, and where the source relies on
  them not wrapping (`Maglev.NoWrap`, `Maglev.NoOverflow`, `TokenBucket.RefillIsExact`) that is proved.
- Hash words, clocks, build and call results, upstream replies, alternate instances and eligibility are inputs, so every
  theorem holds for all of them. Clocks may step backwards.
- Strings are sequences of characters. The bytes the path code tests for are all ASCII, so this agrees with the UTF-8
  view. Prefix lengths are counted in characters; two matching prefixes are nested, so the order is the same as in bytes.
- A pool run is a sequence of labelled steps of numbered threads; a step that is not enabled changes nothing. Each lock
  section, each build and each call is one step. A host call on the store is one step.

## Where the code does not meet its own documentation

- `plecto/crates/control/src/weighted.rs:16-18` says every backend stays within one request of its ideal count.
  `Apportion.WithinOneExactlyUpToThree` shows that this holds for all weights exactly when at most three backends have a
  positive weight: with weights 1, 9, 37, 37 the last backend is 85/84 of a request behind after 25 picks
  (`Apportion.FourBehind`), and for every larger number `Apportion.AWholeRequestBehind` gives a list of positive weights
  (one that `validate_split` accepts up to 32 backends; beyond that the list may exceed its schedule length).
  The other half (never a whole request ahead) and a bound of `(n - 1) / 2` requests behind hold for any number.
- `plecto/crates/host/src/backend.rs:97-101` says the retry hint never invites a retry that is too early.
  `TokenBucket.RetryHintIsSufficientExactlyWhen` shows when that is true: the cost fits the bucket, the clock was not
  behind the refill time at the refusal, and the hint fits in 64 bits; or the hinted time is past the last 64-bit clock
  value, so that no retry comes after it. A hint that was cut off, or stands for "no refills", is `2^64 - 1`, so for those
  two the hinted time is a clock value only when the refusal was at clock 0. `TokenBucket.HintTooEarlyExample` is a
  failing case.
- `plecto/crates/host/src/backend.rs:62-64` says a zero cell reads as a full bucket on first use. It does exactly when
  the refills since the epoch reach the capacity (`TokenBucket.ZeroCellIsFullExactlyWhen`). A route limiter with a burst
  of 2,000,000,000 at one request a second starts below its burst (`TokenBucket.ZeroCellNotFullExample`), and a bucket
  without refills starts, and stays, empty (`TokenBucket.ZeroCellStaysEmpty`).
- `plecto/crates/host/src/lib.rs:1556-1558` says how long the breaker stays open once tripped. A trap recorded after the
  wall clock stepped back overwrites the end of the cooldown with an earlier one: `PoolRuns.BackwardClockAdmitsEarly` is a
  run in which a request is admitted at 700 although a trap opened the breaker until 1500. The promise holds at every
  point of a run exactly when no later trap, before a success, expires sooner (`PoolRuns.BreakerHoldsExactlyWhen`).
- `plecto/crates/control/src/ratelimit.rs:145-149` speaks of one key per client. The same client always has one key, but a
  v4 host shares it with the v6 network whose first four octets are the same and whose next four are zero
  (`NativeRateLimit.SameKeyExactlyWhen`, `NativeRateLimit.CoincidenceExample`).
- The host-wide quota couples filters: with seventeen of them, sixteen can make the seventeenth's first write disappear
  (`SixteenFilters.SeventeenInterfere`); with at most sixteen, none can notice another.

## Model

| member | source | states |
|---|---|---|
| Primes.IsPrime | plecto/crates/control/src/manifest/validate.rs:94-110 | trial division by 2 and the odd numbers up to the square root answers true exactly on primes |
| Primes.HasInverse | plecto/crates/control/src/maglev.rs:57-58 | every skip in `[1, M-1]` has an inverse modulo a prime `M` (the coprimality the permutation needs) |
| Maglev.SlotFromHashes | plecto/crates/control/src/maglev.rs:55-58 | an instance's j-th preference in its two hash words: `h1`, then steps of `1 + h2 mod (M-1)` around the table |
| Maglev.SamePreferencesExactlyWhen | plecto/crates/control/src/maglev.rs:6-8 | two instances prefer the slots in the same order if and only if `h1` agrees modulo `M` and `h2` modulo `M-1` |
| ValidateLb.Validate | plecto/crates/control/src/manifest/validate.rs:16-88 | accepts exactly the upstreams that satisfy all listed conditions; an error names a fault that is there and comes first in the order of the checks |
| ValidateLb.SpacesAre | plecto/crates/control/src/manifest/validate.rs:16-88 | the characters trimmed from a header name, by Unicode's list |
| ValidateLb.ValidIsBuildable | plecto/crates/control/src/manifest/validate.rs:61-86 | validation supplies everything the table construction demands |
| ValidateLb.ValidatedTable | plecto/crates/control/src/upstream/registry.rs:41-99 | from validation to table: every slot names an instance and every instance occurs |
| Maglev.SlotInjective | plecto/crates/control/src/maglev.rs:6-8 | for prime `M` an instance's preference list repeats no slot |
| Maglev.SlotSurjective | plecto/crates/control/src/maglev.rs:88-90 | and reaches every slot within `M` positions |
| Maglev.NoWrap | plecto/crates/control/src/maglev.rs:91-94 | the wrapping product never wraps for admitted sizes |
| Maglev.NoOverflow | plecto/crates/control/src/maglev.rs:84-87 | the round and target products stay within 64 bits |
| Maglev.TakeTurn | plecto/crates/control/src/maglev.rs:88-98 | probing from the saved position ends, claims exactly the instance's first empty preference, and saves the next position |
| Maglev.TargetTest | plecto/crates/control/src/maglev.rs:67-87 | the running `target` test is the exact turn count's growth in that round |
| Maglev.TurnsCount | plecto/crates/control/src/maglev.rs:78-103 | after `r` full rounds instance `i` has taken exactly `(r-1)*w/max_w` rounded down, plus one, turns |
| Maglev.RoundIsNotEmpty | plecto/crates/control/src/maglev.rs:78-103 | the heaviest instance takes a turn every round, so the fill loop progresses |
| Maglev.Populate | plecto/crates/control/src/maglev.rs:61-103 | the nested loops terminate with the table in which instances take turns by weight and claim their first empty preference |
| Maglev.Build | plecto/crates/control/src/maglev.rs:49-109 | the whole construction: terminates, full, every entry a valid index, no loss in the 16-bit entries |
| Maglev.FullTable | plecto/crates/control/src/maglev.rs:92-103 | no slot is left empty, and an instance has as many slots as it took turns |
| Maglev.WeightedShare | plecto/crates/control/src/maglev.rs:13-20 | one round number explains every share: each count is within one of `(r-1)*w/max_w` |
| Maglev.SharesAreProportional | plecto/crates/control/src/maglev.rs:13-20 | counts of any two instances are in the ratio of their weights up to less than one turn each |
| Maglev.EveryInstanceHasASlot | plecto/crates/control/src/maglev.rs:67-68 | with at least as many slots as instances every positive weight gets one |
| Maglev.EqualShares | plecto/crates/control/src/maglev.rs:9-11 | equal weights give every instance `M/N` slots rounded down or up |
| Maglev.ScalingKeepsTable | plecto/crates/control/src/maglev.rs:61-87 | multiplying all weights by a factor leaves the table unchanged |
| Maglev.Lookup | plecto/crates/control/src/maglev.rs:116-124 | no answer exactly on an empty table, otherwise an entry of it |
| Maglev.LookupIsPeriodic | plecto/crates/control/src/maglev.rs:116-124 | a hash below the table's length is answered by that slot, and adding the length changes no answer |
| Maglev.KeysFollowSlots | plecto/crates/control/src/maglev.rs:116-124 | among any `M` consecutive key hashes an instance serves exactly as many as it has slots |
| Maglev.KeysAreShared | plecto/crates/control/src/maglev.rs:13-20 | so the weighted share holds of the keys: of any `M` consecutive hashes each instance serves within one of `(r-1)*w/max_w` |
| Maglev.BuildThenLookup | plecto/crates/control/src/maglev.rs:116-124 | any key of a built table is served by one of its instances |
| Apportion.DeficitsSumToZero | plecto/crates/control/src/weighted.rs:174-185 | after every step the deficits add up to zero |
| Apportion.DeficitIsDeviation | plecto/crates/control/src/weighted.rs:161-163 | a deficit is `t * w[i] - total * served` |
| Apportion.NeverAWholeRequestAhead | plecto/crates/control/src/weighted.rs:15-18 | no backend is ever a whole request ahead, for any number of backends |
| Apportion.BehindBound | plecto/crates/control/src/weighted.rs:15-18 | no backend falls `(n-1)/2` requests behind, nor one request when `n <= 3` |
| Apportion.BehindBoundUndrained | plecto/crates/control/src/weighted.rs:15-18 | the same bounds with `n` the number of backends of positive weight, for every backend of the list |
| Apportion.LightNewcomersWait | plecto/crates/control/src/weighted.rs:169-187 | backends of weight 1 beside heavy ones in ascending order change none of the first choices |
| Apportion.FourBehind | plecto/crates/control/src/weighted.rs:16-18 | weights 1, 9, 37, 37: after 25 picks the last backend is owed 85/84 of a request |
| Apportion.AWholeRequestBehind | plecto/crates/control/src/weighted.rs:16-18 | for every number of backends from four on there are positive weights that leave one a whole request behind; up to 32 backends their schedule fits the table |
| Apportion.WithinOneExactlyUpToThree | plecto/crates/control/src/weighted.rs:163-165 | the documented two-sided bound holds for all splits with `n` backends of positive weight exactly when `n <= 3` |
| Apportion.FullPeriod | plecto/crates/control/src/weighted.rs:24-27 | after as many steps as the weights add up to the deficits are zero and each backend was served its weight |
| Apportion.ChoicePeriodic | plecto/crates/control/src/weighted.rs:24-28 | the choices repeat with that period for ever |
| Apportion.WindowIsFair | plecto/crates/control/src/weighted.rs:24-28 | any window of one period, wherever it starts, serves each backend exactly its weight |
| Apportion.ScalingKeepsChoices | plecto/crates/control/src/weighted.rs:71-80 | dividing by a common factor changes no choice and no tie-break |
| Apportion.DrainedNeverChosen | plecto/crates/control/src/weighted.rs:71-78 | a weight-0 backend is never chosen, and dropping such backends changes nothing |
| WeightedBackends.Gcd | plecto/crates/control/src/weighted.rs:151-157 | the common divisor that every common divisor divides; 0 only for two zeros |
| WeightedBackends.Divisor | plecto/crates/control/src/weighted.rs:79-79 | the reduction over the list is the greatest common divisor of all of it |
| WeightedBackends.ValidateSplit | plecto/crates/control/src/weighted.rs:127-147 | accepts exactly the splits whose reduced schedule fits, returns its length, and each error names a real fault |
| WeightedBackends.CreditAll | plecto/crates/control/src/weighted.rs:175-182 | the inner loop credits everyone and finds the lowest index of the greatest deficit |
| WeightedBackends.Schedule | plecto/crates/control/src/weighted.rs:169-187 | the table is one period of the rule's choices, and the 16-bit entries lose nothing |
| WeightedBackends.TableServesTheRule | plecto/crates/control/src/weighted.rs:21-28 | table position `t mod L`, mapped back, is what step `t` of the unbounded rule chooses on the raw manifest weights |
| WeightedBackends.New | plecto/crates/control/src/weighted.rs:67-87 | succeeds exactly on valid splits, with a table that serves the rule and holds every group |
| WeightedBackends.Backends.Pick | plecto/crates/control/src/weighted.rs:96-119 | nothing exactly when no group is eligible; otherwise the first eligible group the rule serves from the cursor on |
| Rng.MixIsPermutation | plecto/crates/control/src/rng.rs:47-51 | the finalizer is a bijection on 64-bit words, with an explicit inverse |
| Rng.MixInBits | plecto/crates/control/src/rng.rs:45-51 | the finalizer bit by bit: three folds by 30, 27 and 31 places with the two wrapping multiplications between them |
| Rng.StreamIsPermutation | plecto/crates/control/src/rng.rs:53-61 | from any seed one period of draws visits every word exactly once |
| Rng.ThresholdIsRemainder | plecto/crates/control/src/rng.rs:72-72 | the wrapping negation modulo `n` is `2^64 mod n` |
| Rng.ShortcutIsExact | plecto/crates/control/src/rng.rs:71-77 | skipping the division when the low word is at least `n` accepts the same draws |
| Rng.SplitMix64.Below | plecto/crates/control/src/rng.rs:66-79 | the rejection loop ends within one period, with the value of the first accepted draw, below `n` |
| Rng.BelowIsUnbiased | plecto/crates/control/src/rng.rs:63-79 | for every value below `n` exactly `2^64 / n` draws are accepted and mean it |
| Rng.PeriodIsUnbiased | plecto/crates/control/src/rng.rs:53-79 | over one period of the generator, from any seed, every value is offered equally often |
| Rng.DistinctPairsBijection | plecto/crates/control/src/rng.rs:81-91 | the two draws map one-to-one onto the ordered pairs of distinct indices |
| Rng.DistinctPairsAreUnbiased | plecto/crates/control/src/rng.rs:81-91 | every ordered pair of distinct indices stands for exactly `(2^64 / n) * (2^64 / (n - 1))` pairs of accepted draws |
| Rng.SplitMix64.TwoDistinctBelow | plecto/crates/control/src/rng.rs:83-91 | two distinct indices in range, made in that way from two first accepted draws, the second from where the first left the generator |
| TokenBucket.RefillIsExact | plecto/crates/host/src/backend.rs:76-83 | the saturating refill equals the unbounded one capped at the capacity, and never passes the clock |
| TokenBucket.AcquireExactly | plecto/crates/host/src/backend.rs:71-118 | for every state, cost, bucket and clock: allowed exactly when the capped unbounded refill covers the cost, what is left, and that `remaining` says so |
| TokenBucket.FirstSight | plecto/crates/host/src/backend.rs:73-74 | a bucket first seen is full: it grants exactly what fits the capacity and has the rest left |
| TokenBucket.RefillComposes | plecto/crates/host/src/backend.rs:56-58 | a consultation of cost 0 in between changes no later outcome, so no fraction of an interval is lost |
| TokenBucket.Conservation | plecto/crates/host/src/backend.rs:71-118 | over any run and any clock, granted + left + overflowed = start + refills of the intervals passed |
| TokenBucket.LastNeverAhead | plecto/crates/host/src/backend.rs:77-82 | the refill time never passes both its start and the greatest clock seen |
| TokenBucket.GrantBound | plecto/crates/host/src/backend.rs:65-119 | no run grants more than the tokens at hand plus the refills up to the latest clock |
| TokenBucket.GrantBoundFromFirstSight | plecto/crates/host/src/backend.rs:73-74 | a bucket first seen at `now` grants at most its capacity plus the refills since `now` |
| TokenBucket.WindowBound | plecto/crates/host/src/backend.rs:65-119 | any stretch of requests grants at most the capacity plus the refills of the intervals it touches |
| TokenBucket.OneShotBound | plecto/crates/host/src/backend.rs:71-75 | without refills nothing beyond the tokens at hand is ever granted |
| TokenBucket.RetryHintIsSufficientExactlyWhen | plecto/crates/host/src/backend.rs:97-109 | every retry from the hinted time on succeeds if and only if the cost fits, the clock was not behind and the hint was not cut off, or no clock value reaches the hinted time |
| TokenBucket.RetryHintIsTight | plecto/crates/host/src/backend.rs:97-101 | the hint is late by less than one interval |
| TokenBucket.HintTooEarlyExample | plecto/crates/host/src/backend.rs:97-101 | a backward clock step after which the hinted time is still too early |
| TokenBucket.ZeroCellIsFullExactlyWhen | plecto/crates/host/src/backend.rs:62-64 | for every bucket and clock, a zero cell reads as full if and only if the refills since the epoch reach the capacity |
| TokenBucket.ZeroCellNotFullExample | plecto/crates/host/src/backend.rs:62-64 | a limiter whose zero cell is not full on first use |
| TokenBucket.ZeroCellStaysEmpty | plecto/crates/host/src/backend.rs:71-75 | without refills a zero cell never grants anything |
| NativeRateLimit.SameKeyExactlyWhen | plecto/crates/control/src/ratelimit.rs:145-168 | two peers share a key if and only if they are the same v4 host (mapped or not), the same v6 /64, or a v4 host and the one /64 that coincides with it |
| NativeRateLimit.HostsExactly | plecto/crates/control/src/ratelimit.rs:150-157 | a v4 host is seen as its own address or as `::ffff:` and it, and in no other way |
| NativeRateLimit.CoincidenceExample | plecto/crates/control/src/ratelimit.rs:150-168 | 32.1.13.184 and 2001:db8::/64 are two clients with one key |
| NativeRateLimit.SlotsAreIndependent | plecto/crates/control/src/ratelimit.rs:123-142 | each slot's bucket runs as if its own requests were the only ones |
| NativeRateLimit.ClientIsLimited | plecto/crates/control/src/ratelimit.rs:92-143 | over any stretch of traffic one slot lets through at most the burst plus the rate per second touched |
| NativeRateLimit.Limiter.SlotsExactlyWhen | plecto/crates/control/src/ratelimit.rs:170-174 | one client has one slot; two peers share a slot exactly when their keys' hashes differ by a multiple of 65,536; no slot is unreachable |
| NativeRateLimit.Limiter.CheckAt | plecto/crates/control/src/ratelimit.rs:123-142 | charges exactly the peer's cell, leaves all others, and allows exactly when that bucket grants |
| KvBackend.I64RoundTrip | plecto/crates/host/src/backend.rs:121-128 | a stored counter decodes to itself |
| KvBackend.BucketRoundTrip | plecto/crates/host/src/backend.rs:130-146 | a stored bucket decodes to itself |
| Bytes.LeDigit | plecto/crates/host/src/backend.rs:121-146 | byte `i` of a stored number is its i-th digit to base 256 |
| KvBackend.CorruptBucketFailsClosed | plecto/crates/host/src/backend.rs:148-155 | malformed bucket bytes are denied every non-zero cost |
| KvBackend.CounterReadsBack | plecto/crates/host/src/backend.rs:178-189 | an increment answers the plain sum, or the nearer end of the 64-bit range; a read answers that and changes nothing; an absent counter reads 0 |
| KvBackend.BucketResumes | plecto/crates/host/src/backend.rs:191-197 | an acquire resumes from exactly the state the last one left |
| KvBackend.MemoryBackend.Increment | plecto/crates/host/src/backend.rs:178-189 | the new store and answer are those `CounterReadsBack` is about |
| KvBackend.MemoryBackend.TryAcquire | plecto/crates/host/src/backend.rs:191-197 | the new store and answer are those `BucketResumes`, `FirstSight` and `AcquireExactly` are about |
| HostState.NsKeyIsInjective | plecto/crates/host/src/lib.rs:753-761 | namespaced keys of delimiter-free ids determine filter, primitive and key |
| HostState.KeyLayout | plecto/crates/host/src/lib.rs:753-761 | the stored key, byte by byte |
| HostState.CapsHold | plecto/crates/host/src/lib.rs:623-654 | no sequence of charges and releases takes recorded usage past a cap |
| HostState.AdmitsExactlyWhen | plecto/crates/host/src/lib.rs:626-649 | the caps in numbers; a charge that fits is recorded once in its namespace and once in the totals, clamped at 0, and any other changes nothing |
| HostState.KvQuota.Charge | plecto/crates/host/src/lib.rs:626-649 | rejects exactly a growth past a cap, and otherwise records both namespace and totals |
| HostState.KvQuota.Release | plecto/crates/host/src/lib.rs:652-654 | gives back the given amount |
| HostState.FilterHandle.KvGet | plecto/crates/host/src/lib.rs:836-838 | reads the filter's own key and changes nothing |
| HostState.FilterHandle.KvSet | plecto/crates/host/src/lib.rs:839-859 | the host's new state is that of the specified step |
| HostState.FilterHandle.KvDelete | plecto/crates/host/src/lib.rs:860-866 | the host's new state is that of the specified step |
| HostState.FilterHandle.CounterIncrement | plecto/crates/host/src/lib.rs:870-891 | new state and answer are those of the specified step (`HostReads.IncrementAnswers`) |
| HostState.FilterHandle.TryAcquire | plecto/crates/host/src/lib.rs:895-926 | new state and answer are those of the specified step (`HostReads.FirstAcquire`, `HostReads.DeniedAcquire`) |
| HostRuns.AccountingIsExact | plecto/crates/host/src/lib.rs:602-654 | over every run of calls by any filters, recorded usage equals the store's real keys and bytes per prefix, totals are the sums, caps hold, and no clamp fires |
| HostRuns.EntriesAreKeys | plecto/crates/host/src/lib.rs:590-600 | the measured entries are the number of stored keys under the prefix |
| HostRuns.ClampNeverFires | plecto/crates/host/src/lib.rs:643-647 | where usage is exact no charge a call makes goes below zero |
| HostRuns.CallKeepsExact | plecto/crates/host/src/lib.rs:835-927 | every host call keeps the accounting exact |
| HostRuns.CallsAreIsolated | plecto/crates/host/src/lib.rs:571-581 | a call changes no value of another filter, another primitive or another key |
| HostRuns.OthersChangeNothing | plecto/crates/host/src/lib.rs:571-576 | over any stretch of calls by others everything a filter can read stays as it was |
| HostReads.IncrementAnswers | plecto/crates/host/src/lib.rs:870-891 | one increment in every case: refused and unchanged, the plain sum, or a saturated end; and that a read answers it from then on |
| HostReads.CounterIsTheSum | plecto/crates/host/src/lib.rs:870-891 | over every run by any filters, a counter whose partial sums fit reads the plain sum of its admitted increments, and each increment answers it |
| HostReads.ReadsLastWrite | plecto/crates/host/src/lib.rs:835-866 | over every run by any filters, a read answers the filter's own last admitted write, or nothing after a delete |
| HostReads.FirstAcquire | plecto/crates/host/src/lib.rs:895-926 | the first acquire on a key is let through exactly when its cost fits the capacity |
| HostReads.DeniedAcquire | plecto/crates/host/src/lib.rs:895-915 | without a configured bucket, or past a quota, an acquire is denied and changes nothing |
| HostReads.BucketFollowsItsRequests | plecto/crates/host/src/lib.rs:895-926 | over every run by any filters, a key's stored bucket and grants are those of a bucket first seen at its first acquire and run on its own acquires |
| HostReads.FilterIsLimited | plecto/crates/host/src/lib.rs:895-926 | so over every run a key is granted at most the capacity plus the refills since its first acquire |
| NonInterference.HostCapNeverBinds | plecto/crates/host/src/lib.rs:141-148 | with at most sixteen namespaces the host-wide caps refuse nothing that the namespace caps allow |
| NonInterference.LooksAlone | plecto/crates/host/src/lib.rs:835-927 | at every point of every such run the host looks to a filter as if only it had run |
| NonInterference.AnsweredAsIfAlone | plecto/crates/host/src/lib.rs:835-927 | in every run by at most sixteen filters each call is answered as if the others had never called |
| SixteenFilters.SeventeenInterfere | plecto/crates/host/src/lib.rs:634-642 | a run of seventeen filters in which one filter's write is lost because of the others |
| SixteenFilters.IsolatedExactlyUpToSixteen | plecto/crates/host/src/lib.rs:141-148 | groups of at most `n` filters are isolated in all runs if and only if `n <= 16` |
| Pool.CheckOutAccounts | plecto/crates/host/src/lib.rs:1413-1433 | a checkout is refused exactly in a cooldown, waits exactly when all slots are reserved, and otherwise reserves one slot, keeping `live` exact |
| Pool.GivingBackAccounts | plecto/crates/host/src/lib.rs:1443-1528 | every way of giving a slot back keeps `live` exact, and no decrement saturates |
| Pool.PoolInner.LockedCheckOut | plecto/crates/host/src/lib.rs:1413-1433 | keeps `live` equal to idle plus reserved within the cap; refused exactly in a cooldown, waiting exactly when every slot is reserved; a popped instance was the last idle one |
| Pool.PoolInner.LockedRollBack | plecto/crates/host/src/lib.rs:1443-1450 | a failed build gives its slot back by an exact decrement and keeps the accounting |
| Pool.PoolInner.LockedRecycle | plecto/crates/host/src/lib.rs:1502-1508 | a recycled instance clears the breaker and releases its slot by an exact decrement, keeping the accounting |
| Pool.PoolInner.LockedReturn | plecto/crates/host/src/lib.rs:1509-1513 | a returned instance clears the breaker and turns its request's reservation into an idle instance |
| Pool.PoolInner.LockedTrap | plecto/crates/host/src/lib.rs:1521-1528 | a trap releases the slot by an exact decrement, counts, and opens the cooldown at the threshold, keeping the accounting |
| PoolRuns.StepKeepsSlots | plecto/crates/host/src/lib.rs:1402-1456 | every step of every thread keeps `live` equal to idle plus reserved, within the cap |
| PoolRuns.EveryRunIsSafe | plecto/crates/host/src/lib.rs:1402-1533 | every interleaving keeps all the pool's invariants |
| PoolRuns.CapIsNeverExceeded | plecto/crates/host/src/lib.rs:1568-1578 | `live` is exact, the instances that exist never exceed the cap, and no decrement saturates |
| PoolRuns.HeldByOneRequest | plecto/crates/host/src/lib.rs:1486-1495 | an instance is never with two requests at once, nor idle while it is with one |
| PoolRuns.BoundedReuse | plecto/crates/host/src/lib.rs:1497-1521 | no instance is given more than `max(1, max_requests)` calls, and none after its call trapped |
| PoolRuns.LeavesOnlyWorn | plecto/crates/host/src/lib.rs:1497-1521 | conversely every instance that was built is idle, with a request, has trapped, or has been given exactly that many calls |
| PoolRuns.SingleCallerReuses | plecto/crates/host/src/lib.rs:1589-1614 | a single caller's `n` successful requests build one instance for each started batch of `max(1, max_requests)`, and the idle one has served the remainder |
| PoolRuns.LockExactly | plecto/crates/host/src/lib.rs:1413-1433 | in every reachable state: refused exactly in a cooldown, given the last idle instance exactly when there is one, else building below the cap and waiting at it |
| PoolRuns.EveryStepAdvances | plecto/crates/host/src/lib.rs:1402-1533 | only a thread's next step changes the pool, it moves that thread alone, and a request takes at most five steps between waits |
| PoolRuns.BreakerCountsTraps | plecto/crates/host/src/lib.rs:1522-1527 | the counter is the traps recorded since the last recorded success, and the cooldown the one they opened |
| PoolRuns.RefusedExactlyWhen | plecto/crates/host/src/lib.rs:1413-1421 | in every reachable state a checkout is refused if and only if three or more traps were recorded since the last success and the last one has not expired |
| PoolRuns.CooldownHoldsExactlyWhen | plecto/crates/host/src/lib.rs:1524-1527 | every checkout before the expiry of a given trap is refused if and only if the last trap expires no sooner |
| PoolRuns.BreakerHoldsExactlyWhen | plecto/crates/host/src/lib.rs:1556-1558 | that holds at every point of a run up to the next success if and only if no trap recorded in between expires sooner |
| PoolRuns.NothingAdmittedWhileOpen | plecto/crates/host/src/lib.rs:1413-1421 | whatever the clocks did, no admission before the next success precedes the last trap's expiry; nor the first trap's, if no later trap was recorded at a clock behind it |
| PoolRuns.BackwardClockAdmitsEarly | plecto/crates/host/src/lib.rs:1524-1527 | a run of 25 steps in which a trap opens the breaker until 1500 and a request is admitted at 700 |
| NormalizePath.NormalizeTarget | plecto/crates/control/src/route.rs:219-262 | the loop over segments computes the specified normal form |
| NormalizePath.ResolveKeeps | plecto/crates/control/src/route.rs:238-252 | the i-th segment of the result is the one at which the depth rose to `i + 1` for good |
| NormalizePath.KeptIsUnique | plecto/crates/control/src/route.rs:238-252 | that description determines the result |
| NormalizePath.RejectsExactlyWhen | plecto/crates/control/src/route.rs:215-218 | a target with a leading slash is rejected exactly for a control byte, a backslash, one of the encoded dots or separators written out, or a `..` above the root |
| NormalizePath.OthersPassThrough | plecto/crates/control/src/route.rs:224-228 | any other target is returned unchanged |
| NormalizePath.QuerySplits | plecto/crates/control/src/route.rs:220-223 | path and query are what stands before and after the first question mark |
| NormalizePath.AcceptedIsNormal | plecto/crates/control/src/route.rs:208-218 | an accepted target becomes a rooted path without dot segments or encoded separators, its query kept verbatim |
| NormalizePath.NormalIsFixed | plecto/crates/control/src/route.rs:208-218 | a normal path is left exactly as it is, with any query |
| NormalizePath.NormalizeIsIdempotent | plecto/crates/control/src/route.rs:211-213 | normalising twice is normalising once, for every target |
| SelectRoute.Select | plecto/crates/control/src/route.rs:355-375 | no route exactly when none matches, otherwise the matching route that beats every other |
| SelectRoute.WinnerIsUnique | plecto/crates/control/src/route.rs:350-354 | no two routes beat each other |
| SelectRoute.BeatsExactly | plecto/crates/control/src/route.rs:350-354 | the precedence field by field: host, longer prefix, method, more headers, more query matches, earlier route |
| SelectRoute.MatchesExactly | plecto/crates/control/src/route.rs:293-333 | a route matches exactly when every dimension it specifies does |
| SelectRoute.HeaderExactly | plecto/crates/control/src/route.rs:316-326 | a header condition is decided by the first header of the name, names compared without case |
| SelectRoute.ParamExactly | plecto/crates/control/src/route.rs:335-348 | a query condition is decided by the first `name=value` pair of the name |
| SelectRoute.QueryIs | plecto/crates/control/src/route.rs:357-357 | the query is what follows the first question mark, or nothing |
| SelectRoute.HostOfName | plecto/crates/control/src/route.rs:185-209 | a host name is compared without its port, its case and one trailing dot |
| SelectRoute.HostOfBracket | plecto/crates/control/src/route.rs:189-194 | a bracketed address is compared without what follows the bracket |
| SelectRoute.HostOfOpenBracket | plecto/crates/control/src/route.rs:189-194 | an authority with an open bracket is kept whole |
| SelectRoute.LowerFolds | plecto/crates/control/src/route.rs:199-199 | lower-casing folds the ASCII capitals and nothing else |
| SelectRoute.MatchingPrefixesNest | plecto/crates/control/src/route.rs:282-291 | prefixes of routes that match one request are nested, so equally long ones are equal |
| SelectRoute.WinnerHasLongestPrefix | plecto/crates/control/src/route.rs:350-354 | among equally host-constrained routes the winner's prefix extends every other matching one |
| SelectRoute.UnderPrefixIsSegmentwise | plecto/crates/control/src/route.rs:277-291 | a prefix matches exactly when its segments begin the path's segments |
| Forward.ForwardWithRetry | plecto/crates/server/src/forward.rs:47-187 | the loop terminates with the verdict and the sends of the specification |
| Forward.SendsAreBounded | plecto/crates/server/src/forward.rs:60-63 | at most `max_retries + 1` sends, and one for a request with a body |
| Forward.BodyIsSentOnce | plecto/crates/server/src/forward.rs:70-76 | a streamed body goes out with the first send only |
| Forward.RetriedForAReason | plecto/crates/server/src/retry.rs:126-149 | every attempt but the last ended in a way that permits a retry, and the next went to the alternate offered |
| Forward.NonIdempotentReachesOnce | plecto/crates/server/src/retry.rs:26-37 | for a method that is not idempotent only the last attempt can have reached an upstream |
| Forward.AnsweredOnce | plecto/crates/server/src/retry.rs:39-46 | nothing is repeated after an answer other than 502, 503 or 504 |
| Forward.DeadlineIsKept | plecto/crates/server/src/retry.rs:93-110 | under a deadline every attempt starts before it with a set timer: the per-try bound, or what is left of the deadline if that is less |
| Forward.PerTryBoundIsKept | plecto/crates/server/src/retry.rs:108-108 | without a deadline every attempt gets the per-try bound |
| Forward.SendsFollowTheWorld | plecto/crates/server/src/forward.rs:60-187 | every send read off the outside world: when it started, to which instance, with how many retries left, how it ended; and each but the last met the full condition for going on |
| Forward.VerdictFollowsTheWorld | plecto/crates/server/src/forward.rs:101-186 | the verdict read off the outside world: the last attempt's own response, failure or timeout unless it goes on, else a passed deadline or a request that cannot be built |
| Forward.PolicyIsGoesOn | plecto/crates/server/src/retry.rs:126-149 | the coded retry policy is that condition, spelled out in methods, statuses, body, budget, deadline and alternate |

## Left out

- wasmtime instantiation, linking, metering, signatures and SBOM checks: a build or a call is an arbitrary success or failure.
- Liveness of the pool's waits: only safety is proved; a waiter may time out or be woken at any point.
- Panics inside a guest call, and the cursor's wrap-around after 2^64 picks.
- The redb backend, and a durable store that is not empty at the start.
- The interleaving of two host calls on one key: a host call is one atomic step here, while the source reads, charges and writes under separate locks. The caps (`HostState.CapsHold`) hold for any order of charges.
- MurmurHash3 and the disruption of a Maglev table when instances change: hash words are arbitrary inputs.
- Seeding of the generator, retry backoff and jitter.
- Upstream groups' own health, outlier and least-request state: a group is an eligibility answer, an alternate an arbitrary instance.
- The listener, TLS, HTTP/3, admin endpoint, OCI reading, outbound connector, streaming, metrics, access log, header copying, chain edits and reload sequencing: input and output, or short case analyses.
