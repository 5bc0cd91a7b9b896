# Verified models of flock's stateful cores

A Dafny project that models the parts of flock whose correctness rests on state carried
from call to call, and proves what they promise for every input, run and interleaving.
`dafny verify dfyconfig.toml` checks all of it. Where the code changes things in place, the
model is a class or a loop proved against a specification function, and the theorems are
lemmas about that function over whole runs.

| file | models |
|---|---|
| `SlidingWindow.dfy` | the per-key rate window of the mock upstream, one key over one run |
| `Referee.dfy` | its shared state, the three critical sections, and every interleaving of handler threads |
| `Circuit.dfy` | the circuit breaker over runs of calls |
| `Restart.dfy` | its snapshot/restore path, compared to a run without restarts |
| `KeyPool.dfy` | the client's key rotation |
| `RetryLoop.dfy` | the client's request loop, with an arbitrary clock and server |
| `StreamSplitter.dfy` | the client's incremental line splitter |
| `EventStream.dfy` | the bounded reader of captured event streams |
| `JsonText.dfy` | how strings and whole numbers are written as JSON, and read back |
| `CanonicalJson.dfy` | the canonical serialiser of the render harness |
| `JsonReader.dfy` | a reader of JSON text, the reference for the serialiser |
| `Graphs.dfy` | paths, cycles and topological order (shared by the next two) |
| `Prerequisites.dfy` | the fixture prerequisite checks and the flattening of prerequisites |
| `ProcessTree.dfy` | the collection of a process's descendants |
| `LocaleText.dfy` | what the locale validator sees of a text, and the validator |
| `Pseudolocale.dfy` | the pseudolocale transform and its catalog |
| `Whitespace.dfy` | trimming, as the client's two parsers use it |
| `Numbers.dfy`, `Sequences.dfy`, `Wrappers.dfy` | minimum, maximum and remainders, lists without repeats, the stock option type |

## Conventions and assumptions

- **Rate window.** Times are real seconds. A handler reads its clock before it takes the
  lock, so the stamps of a key, listed in lock order, may be out of order; `Skewed(ts, d)`
  bounds by how much. `rpm >= 1` is assumed, since the code reads the front of a deque that
  would otherwise be empty. Map entries that a `defaultdict` creates on reading are not
  told apart from missing ones.
- **Two bounds are sharper than one would expect.** Any `rpm + 1` admitted requests span
  `60 - d` seconds; from two requests a minute on this is the best possible bound for every
  skew `d`, while at one a minute it is 60 s whatever the skew. And a sender needs a margin
  of only jitter plus skew (61 s for 1 s of jitter and exact order), because an entry can
  become the front of the deque only by being younger than the front that expired.
- **Circuit breaker.** Instants and durations are whole nanoseconds, counters `u32`. For
  claims about restarts the wall clock does not run backwards, has left second zero, and
  the parameters are the defaults, the only ones `restore` can rebuild. That a restarted
  breaker always answers alike is *false*: `RestartCanLetThroughEarly` gives a concrete
  case, and `RestartDiffersExactly` the exact condition for whole runs with any number of
  restarts. It can be evaluated from the run without restarts and the instants of the
  restarts alone: no `allow` may fall between the true end of a cool-off and the end that
  the latest restart since the opening rebuilds from the whole second of the stamp.
- **Key pool and request loop.** Times are whole milliseconds. The clock moves by an
  arbitrary non-negative amount at every reading and past the end of every sleep; nobody
  else uses the pool, and no sleep ends early. The error thrown when no key is free after
  the wait is the `assert false` in `ChooseKey`: it is proved unreachable. `fetch` and the
  Retry-After header (section 10.2.3 of RFC 9110) are inputs. The log of a request is a
  ghost: it lists each fetch with the key, the clock readings and the outcome, and the
  pool's records after the request are proved to be those the log accounts for.
- **Line splitter.** Chunks are already decoded text; the JSON parser is a parameter that
  may reject.
- **Event reader.** The constants are the code's. A round of the loop is a read that returns
  any non-empty part of what was asked for, or one of the ways a round can be cut short. A
  read never returns more than it was asked for.
- **Canonical JSON.** Strings are sequences of UTF-16 code units, lone surrogates included;
  objects are lists of members in insertion order with distinct keys; numbers are whole
  (all integers, so in particular those a JavaScript number prints exactly).
- **Locale validation.** `ids` and `tokens` are what `sorted` gives: the ids of both
  catalogs, and the never-translate list, in ascending code-point order.
- **Prerequisites.** The cycle check follows the *last* row with an id (a `Map` built from
  the rows) and the flattening the *first* (`find`); both are modelled, so ids may repeat.
  What the row loop says about the other parts of a recipe enters as two functions of the
  row, one for the checks before the prerequisites and one for those after.
- **Pseudolocale.** The theorems hold for any list of brace-free tokens in any order, and
  `NeverTranslateHasNoBrace` shows that the generator's own list qualifies. The 35% padding
  is rounded exactly, halves to even. `validate` is modelled with all its checks; the entity
  decoder is a parameter.

## Model

| member | source | states |
|---|---|---|
| SlidingWindow.ExpireKeepsASuffix | proxy/scripts/mock_nim.py:84-85 | popping from the front keeps a contiguous suffix: all that goes is 60 s old, the new front is younger |
| SlidingWindow.WindowIsSuffix | proxy/scripts/mock_nim.py:77-94 | for stamps in any order the deque is a suffix of what was admitted, at most `rpm` long, and everything admitted before it has expired |
| SlidingWindow.FrontBoundsWindow | proxy/scripts/mock_nim.py:82-94 | whatever the skew, no entry of the deque is 60 s younger than its front |
| SlidingWindow.SafetyUnderSkew | proxy/scripts/mock_nim.py:77-94 | with stamps at most `d` out of order, any `rpm + 1` admitted requests span at least `60 - d` seconds |
| SlidingWindow.SafetyBoundIsTight | proxy/scripts/mock_nim.py:77-94 | for every rate from two a minute on and every skew `d`, some run with that skew admits `rpm + 1` requests in a row that span exactly `60 - d` |
| SlidingWindow.OneAMinuteIgnoresSkew | proxy/scripts/mock_nim.py:77-94 | at one request a minute any two admissions are 60 s apart, whatever the order of the stamps |
| SlidingWindow.RefusedIffWindowFull | proxy/scripts/mock_nim.py:82-94 | with ordered stamps a request is refused if and only if `rpm` requests were admitted in the last 60 s |
| SlidingWindow.Exchange | proxy/scripts/mock_nim.py:82-94 | the i-th request the window admits is never later than the i-th of any schedule whose every `rpm + 1` requests span 60 s |
| SlidingWindow.AdmissionIsOptimal | proxy/scripts/mock_nim.py:82-94 | after every prefix of the arrivals the window has admitted at least as many requests as any schedule |
| SlidingWindow.AdmissionIsASchedule | proxy/scripts/mock_nim.py:82-94 | the window's own admissions are such a schedule, so the optimum is attained |
| SlidingWindow.PacedSenderIsNeverRefused | proxy/README.md:182 | if among any `rpm + 1` requests two sends are 60 s plus jitter plus skew apart (61 s for 1 s of jitter), none is refused, even if sends overtake one another |
| SlidingWindow.RetryAfterIsExact | proxy/scripts/mock_nim.py:86-93 | a retry after the returned Retry-After is admitted if nothing else was admitted meanwhile; one more than a second earlier is refused |
| Referee.MockNim.EnterWindow | proxy/scripts/mock_nim.py:79-94 | the first critical section: counters, expiry loop, refusal or admission |
| Referee.MockNim.TakeSlot | proxy/scripts/mock_nim.py:100-110 | the second: a worker slot of the model or a refusal, and the recorded peak |
| Referee.MockNim.ReleaseSlot | proxy/scripts/mock_nim.py:113-116 | the third: the slot is given back, whether or not the generation raised |
| Referee.RequestsAreConserved | proxy/scripts/mock_nim.py:79-108 | in every interleaving the requests received are violations plus worker refusals plus admissions, and the sum of the per-key counts |
| Referee.SlotsAreConserved | proxy/scripts/mock_nim.py:100-116 | in every interleaving, failed generations included, a model's counter is the number of threads generating for it and never exceeds the cap |
| Referee.RefusedIffFull | proxy/scripts/mock_nim.py:100-107 | in every interleaving a slot is refused exactly when as many threads as the cap are generating for the model |
| Referee.PeakIsTheMaximum | proxy/scripts/mock_nim.py:108-110 | the recorded peak is the greatest number of concurrent generations at any moment of the run |
| Referee.SwitchedOffNeverRefuses | proxy/scripts/mock_nim.py:79-110 | without enforcement nothing is a violation, without worker slots nothing is refused for want of one |
| Referee.KeysDoNotInterfere | proxy/scripts/mock_nim.py:79-94 | a key's deque and its refusals are those of a run with that key alone |
| Referee.PacedSendersCauseNoViolation | proxy/scripts/mock_nim.py:7-10 | if every key's sender is paced, the violation counter is zero after every interleaving over any number of keys |
| Circuit.CircuitBreaker.constructor | proxy/src/circuit.rs:47-58 | a new breaker is closed and clean, its limits at least one |
| Circuit.CircuitBreaker.Restore | proxy/src/circuit.rs:159-174 | a rebuilt breaker has the snapshot's counters, default limits, and a failure instant only if the stamp is nonzero |
| Circuit.CircuitBreaker.Allow | proxy/src/circuit.rs:77-91 | the answer and the move to half-open after the timeout; a trial starts from no success |
| Circuit.CircuitBreaker.RecordSuccess | proxy/src/circuit.rs:95-110 | the new state, from every state whose counter has room, restored ones included; limits that held still hold |
| Circuit.CircuitBreaker.RecordFailure | proxy/src/circuit.rs:115-128 | the new state, from every state whose counter has room, restored ones included; limits that held still hold |
| Circuit.CircuitBreaker.ForceOpen | proxy/src/circuit.rs:138-140 | opens from any state |
| Circuit.AlwaysValid | proxy/src/circuit.rs:47-140 | in every reachable state closed means failures below the limit, half-open means successes below the limit, failures never exceed it: no counter overflows |
| Circuit.LeavesClosedIffBurst | proxy/src/circuit.rs:3-7 | without `force_open`, a run ever leaves closed if and only if its trace contains `max_failures` failures with no success between them |
| Circuit.LeavesClosedAgainIffBurst | proxy/src/circuit.rs:93-128 | the same from any moment at which a breaker is closed without failures, such as the end of a trial |
| Circuit.TrialOutcome | proxy/src/circuit.rs:77-128 | over runs of a fresh breaker, from the `allow` that admits a trial on: it closes exactly at `half_open_max` successes without failure, failures reset, and re-opens exactly at the first failure |
| Circuit.FailuresStandWhileOpen | proxy/src/circuit.rs:93-128 | without `force_open`, the failure count of a breaker that is not closed is `max_failures` |
| Circuit.AllowedIffCooledOff | proxy/src/circuit.rs:77-91 | after any run an open breaker lets a call through exactly from `timeout` after the latest opening on |
| Circuit.NoTrialDuringCoolOff | proxy/src/circuit.rs:77-91 | `allow` is false throughout the timeout after the latest opening, forced or not, whatever was called in between |
| Circuit.OpeningsSpan | proxy/src/circuit.rs:77-135 | without `force_open`, n openings span at least n-1 timeouts |
| Circuit.AlwaysRecovers | proxy/src/circuit.rs:77-110 | from every reachable state, waiting the timeout, one `allow` and `half_open_max` successes give closed with zero failures |
| Restart.Reboot | proxy/src/circuit.rs:143-174 | snapshot then restore is the restart step of the run theorems |
| Restart.RestartFidelity | proxy/src/circuit.rs:143-174 | over any number of restarts: same state, counters, stamp; failure instant less than a second off, not accumulating; same answers if no `allow` is within a second of a cool-off end |
| Restart.RestartDiffersExactly | proxy/src/circuit.rs:143-174 | over any run with any number of restarts the answers are those of a breaker that never restarted if and only if no `allow` falls between the true and the rebuilt end of a cool-off |
| Restart.RestartCanLetThroughEarly | proxy/src/circuit.rs:159-167 | a concrete run in which a restarted breaker is let through half a second early |
| Restart.ValidAcrossRestarts | proxy/src/circuit.rs:159-174 | the counter limits also hold across restarts |
| KeyPool.FlockKeyPool.constructor | client/src/keypool.ts:39-54 | the pool starts with one clean record for each distinct trimmed key, in order of first occurrence |
| KeyPool.DistinctIsExact | client/src/keypool.ts:39-54 | registration keeps every distinct non-blank key exactly once and nothing else |
| KeyPool.DistinctKeepsTheOrder | client/src/keypool.ts:39-54 | the keys stand in the order of their first mention |
| Whitespace.TrimDropsTheEnds | client/src/keypool.ts:42 | trimming drops the white space around a text and nothing else |
| KeyPool.DistinctTwice | client/src/client.ts:31-39 | registering an already split list changes nothing, so the client and its pool agree on the number of keys |
| KeyPool.FlockKeyPool.NextAvailable | client/src/keypool.ts:65-75 | the scan returns the first key from the cursor that is not limited, and moves the cursor past it |
| KeyPool.FlockKeyPool.RecordSuccess | client/src/keypool.ts:77-83 | counts, un-parks and clears the reason of that key only; unknown keys change nothing |
| KeyPool.FlockKeyPool.RecordFailure | client/src/keypool.ts:85-90 | counts and notes the reason of that key only |
| KeyPool.FlockKeyPool.RecordRateLimit | client/src/keypool.ts:92-98 | counts and parks that key for the Retry-After or 60 s |
| KeyPool.PickedIffSomeFree | client/src/keypool.ts:64-75 | a key is found if and only if some key is not limited |
| KeyPool.Earliest | client/src/keypool.ts:101-106 | the result is a recorded instant, none is earlier, and it is null only if none is recorded |
| KeyPool.WaitIsExact | client/src/keypool.ts:65-106 | when all keys are limited, the earliest instant is in the future, every call before it finds nothing and every call from it on finds a key |
| KeyPool.ParkedForItsRetryAfter | client/src/keypool.ts:60-98 | after a 429 the key is limited at `t` if and only if `t` is before the end of its wait, short of a success or another 429 for it |
| KeyPool.NoStarvation | client/src/keypool.ts:60-106 | a key not limited at any of n consecutive calls (n keys) is handed out by one of them, whatever is recorded in between |
| KeyPool.PickedIsNearest | client/src/keypool.ts:65-75 | the key handed out is the first free one from the cursor on |
| KeyPool.FairRotation | client/src/keypool.ts:65-75 | with any keys parked and anything recorded meanwhile: before a key is handed out again, every other key that was free at each call since is handed out |
| KeyPool.FullRotation | client/src/keypool.ts:65-75 | if no key is limited, n calls hand out every key exactly once, each at its distance from the cursor |
| KeyPool.SuccessUnparks | client/src/keypool.ts:77-83 | after a success the key is limited at no instant until its next 429 |
| KeyPool.RecordsAreTallies | client/src/keypool.ts:77-98 | after any run a key's counters have grown by its successes, failures and 429s, and its reason is that of the latest of them |
| RetryLoop.FlockClient.ChooseKey | client/src/client.ts:58-67 | a key that is not limited is always obtained, without waiting if one is free and never past the instant at which the first comes free; the throw is unreachable |
| RetryLoop.FlockClient.TryOnce | client/src/client.ts:55-116 | one attempt: a key that is not parked when chosen, the backoff due, and every record of the pool after the outcome: counters, parking and reason, `HTTP` and the status included |
| RetryLoop.FlockClient.Request | client/src/client.ts:46-133 | ends after at most `maxRetries + 1` fetches, at the first success or non-retryable outcome; every key was free when chosen, by the attempts before it, and never before the wait its 429 asked for is over; the pool ends as the log accounts for and its counters grow by the responses received; single-key backoff totals `retryDelay * (2^a - 1)` |
| RetryLoop.ParkedUntilTheWaitIsOver | client/src/client.ts:101-102 | in any log, after a 429 the key is limited exactly until 1000 ms for each second asked for, until the date less the instant it was read, or for a minute, short of a success or another 429 with that key |
| RetryLoop.DecimalSpells | client/src/client.ts:104 | the status in a failure's reason is written in decimal |
| RetryLoop.EveryResponseCountsOnce | client/src/client.ts:93-115 | each counter of each key moves by the log's successes, 429s and other failures with that key, which together are its completed responses |
| RetryLoop.PoolCountsEveryResponse | client/src/client.ts:93-115 | over the whole pool the counters grow by exactly the number of completed responses |
| RetryLoop.BackoffDoubles | client/src/client.ts:71-74 | doubling delays add up to `retryDelay * (2^n - 1)` |
| StreamSplitter.Stream | client/src/client.ts:164-188 | for every cutting of the text into chunks the output is that of the whole text |
| StreamSplitter.SplitIsLinesOf | client/src/client.ts:174-175 | joining the pieces gives the text back, and no newline is left in a piece |
| StreamSplitter.SplitJoined | client/src/client.ts:174-175 | splitting what was joined gives the pieces back |
| StreamSplitter.YieldedIsEmitted | client/src/client.ts:173-187 | the newline-terminated lines contribute in order, nothing else does |
| StreamSplitter.UnterminatedLineIsDropped | client/src/client.ts:173-177 | text after the last newline is never yielded |
| StreamSplitter.LinesAfterDoneAreProcessed | client/src/client.ts:178-180 | lines after `[DONE]` are yielded as if it were not there |
| StreamSplitter.DataLineYieldsItsPayload | client/src/client.ts:177-186 | a `data: ` line yields what its payload parses to, or nothing if the parser rejects it, whatever white space surrounds it |
| StreamSplitter.OtherLinesYieldNothing | client/src/client.ts:177-186 | any other line, and `[DONE]`, yields nothing |
| EventStream.ReadBounded | proxy/scripts/capture_nim.py:514-554 | for every chunking the longest prefix of whole events within both caps, marked complete exactly when the body fits; if a round is cut short, exactly the whole events among the bytes delivered before it, marked truncated |
| EventStream.Absorb | proxy/scripts/capture_nim.py:542-554 | the byte loop keeps line, event count and boundary those of the bytes so far, or stops at the event cap |
| EventStream.LastEndIsLongest | proxy/scripts/capture_nim.py:504-511 | rolling back to the last boundary loses no whole event |
| JsonText.StringRoundTrip | proxy/scripts/render_check.js:2521-2523 | a written string reads back as itself and ends at its own closing quote, escapes and lone surrogates included |
| JsonText.UnitText | proxy/scripts/render_check.js:2521-2523 | which of the three kinds of text each code unit is written as |
| JsonText.BodyAppends | proxy/scripts/render_check.js:2521-2523 | a string's text is that of its parts, surrogate pairs kept together |
| JsonText.IntRoundTrip | proxy/scripts/render_check.js:2523 | a written whole number reads back as itself when no digit follows |
| JsonText.IntText | proxy/scripts/render_check.js:2523 | a minus sign exactly for negative numbers, and no leading zero |
| CanonicalJson.LessAtFirstDifference | proxy/scripts/render_check.js:2520 | keys compare at the first code unit in which they differ, a prefix first |
| CanonicalJson.SortedKeys | proxy/scripts/render_check.js:2520 | the keys written are sorted by code units and are exactly the object's keys |
| CanonicalJson.Unambiguous | proxy/scripts/render_check.js:2517-2524 | canonical text followed by anything that is no digit determines the value up to key order, and what follows |
| CanonicalJson.InjectiveUpToKeyOrder | proxy/scripts/render_check.js:2517-2524 | two values print to the same text if and only if they are equal with key order ignored |
| JsonReader.CanonicalReadsBack | proxy/scripts/render_check.js:2517-2524 | what is printed is JSON: read back by an independent reader it is the value, members in key order, and what follows is left |
| JsonReader.OrderedIsSame | proxy/scripts/render_check.js:2517-2524 | the value read back is the one printed, up to key order |
| Prerequisites.OrderProblems | proxy/scripts/render_check.js:2398-2471 | the problems of the row loop, row by row in order; a problem is listed if and only if some row has it, the two kinds of prerequisite problem told apart |
| Prerequisites.UniqueIffNoRepeats | proxy/scripts/render_check.js:2436-2437 | the set of a list is as large as the list exactly when nothing is listed twice |
| Prerequisites.CleanIffSound | proxy/scripts/render_check.js:2402-2471 | there are none exactly when every row lists, without repeats, other rows placed before it, and nothing else is wrong with any row |
| Prerequisites.NeedsIsTheLastRow | proxy/scripts/render_check.js:2399-2401 | the cycle check follows the list of the last row with an id |
| Prerequisites.FirstNeedsIsTheFirstRow | proxy/scripts/render_check.js:5053-5061 | the flattening follows the list of the first |
| Prerequisites.CycleFinder.Visit | proxy/scripts/render_check.js:2474-2484 | the recursion ends on every graph, restores the visiting set, reports only ids on a cycle, and otherwise completes a topological order |
| Prerequisites.CycleFinder.VisitAll | proxy/scripts/render_check.js:2472-2485 | a cycle is reported if and only if the prerequisite graph has one |
| Prerequisites.PrerequisiteProblems | proxy/scripts/render_check.js:2398-2487 | the whole check: the problems of the row loop, then cycle reports if and only if there is a cycle; nothing at all exactly for sound rows |
| Prerequisites.CleanOrderHasNoCycle | proxy/scripts/render_check.js:2436-2447 | rows whose lists are sound have no cycle, by either lookup |
| Prerequisites.Flattener.AddDependency | proxy/scripts/render_check.js:5054-5060 | adds exactly the id and its closure, keeping the list free of repeats and in topological order |
| Prerequisites.Flatten | proxy/scripts/render_check.js:5053-5061 | the flattened list has no repeats, is the transitive closure of the row's prerequisites, places each entry after its own prerequisites, and omits the row |
| ProcessTree.ProcessDescendants | proxy/scripts/render_check.js:3469-3484 | lists exactly the descendants, none twice, each after its parent, also on cyclic tables |
| LocaleText.UnbalancedBraces | proxy/scripts/locale_v1.py:63-74 | the depth loop answers whether the braces are other than a sequence of `{}` pairs |
| LocaleText.Validate | proxy/scripts/locale_v1.py:77-145 | the full list of problems: a problem is reported if and only if it is there, then once, in sorted order; the list is empty if and only if the ids agree and every message passes every check |
| LocaleText.ValuePlaceholdersAre | proxy/scripts/locale_v1.py:58-60 | the value placeholders of a text are what stands in it between two braces with no brace inside, inline markers excepted |
| LocaleText.InlinesAreMarkers | proxy/scripts/locale_v1.py:112-113 | the inline structure is the markers of the text in order, none missed |
| LocaleText.ReportedIffWrong | proxy/scripts/locale_v1.py:77-145 | for every candidate: each check is reported for exactly the ids whose message fails it, said of the text itself; a frozen token by name |
| LocaleText.ReportIsInOrder | proxy/scripts/locale_v1.py:82-145 | missing ids, orphans, then shared messages, each in ascending order of id and the problems of one message in the order of the checks |
| Pseudolocale.SplittingLosesNothing | proxy/scripts/gen_pseudolocale.py:58-63 | the parts of a text join to the text |
| Pseudolocale.PartsAreInTurn | proxy/scripts/gen_pseudolocale.py:58-63 | the parts are prose and segments in turn: prose holds no token and no placeholder, a segment is one |
| Pseudolocale.LongestTokenWins | proxy/scripts/gen_pseudolocale.py:55-58 | with the longest tokens listed first, the longest that matches is taken |
| Pseudolocale.ProseIsAccentedSegmentsStay | proxy/scripts/gen_pseudolocale.py:63-64 | the full-match test accents exactly the prose and leaves every placeholder and token |
| Pseudolocale.AccentedLetters | proxy/scripts/gen_pseudolocale.py:42-45 | exactly the letters other than M, x and X are changed, none to an ASCII character |
| Pseudolocale.NeedIsNearest | proxy/scripts/gen_pseudolocale.py:66-69 | the padding is the whole number nearest to 35% of the prose, ties to even, at least 1 |
| Pseudolocale.PseudoReads | proxy/scripts/gen_pseudolocale.py:61-71 | position by position: bracket, accented text, blank, the pad word over and over, bracket |
| Pseudolocale.AccentingKeepsStructure | proxy/scripts/gen_pseudolocale.py:63-64 | accenting leaves every brace, angle bracket and placeholder where it was |
| Pseudolocale.StructureIsPreserved | proxy/scripts/gen_pseudolocale.py:61-71 | for every text the ordered placeholders, the ordered inline markers, the brace verdict and the markup verdict are the same before and after |
| Pseudolocale.Build | proxy/scripts/gen_pseudolocale.py:74-87 | the catalog is `en-XA`, `Generated`, and has the source's ids, each with its transformed text, the source's hash, and its description and length cap if any |
| Pseudolocale.GeneratedCatalogIsSound | proxy/scripts/locale_v1.py:77-126 | validating a generated catalog reports syntax exactly for unbalanced source texts, markup exactly for source texts with markup, length exactly where the padded text exceeds the cap, an entity problem only where the source has an ampersand, and never a placeholder, inline, completeness, orphan or staleness problem |
| Pseudolocale.NeverTranslateHasNoBrace | proxy/scripts/check_i18n.py:161-166 | no never-translate token contains a brace |

## Left out

- HTTP servers, sockets, TLS, signals, descriptors and cleanup; `fetch`, abort timers and text decoding: their outcomes are inputs of the model.
- The process-wide capture alarm: it appears only as a round of the reader that is cut short.
- `write_all`: a loop over short writes, an easy member beside the reader.
- Non-integer numbers, `undefined` and values that are not JSON in `canonicalJson`; numbers so large that JavaScript prints them with an exponent.
- The key, page, role, fixture and boundary checks of a recipe: easy members; what they report is an input of `OrderProblems`. A `requires` that is neither an array nor null.
- The browser-driving part of the render harness, its tables of rows, and the regular-expression linters.
- Pseudolocale.GeneratedCatalogIsSound: says of the entity check only that a source text without an ampersand passes it. Accenting changes the letters of an entity, so a text whose entity encodes markup may pass once it is accented.
- Pseudolocale.GeneratedMessageIsSound: does not say whether a generated text keeps every frozen token. Tokens may overlap in a source text, so the generator does not promise it.
- Circuit.CircuitBreaker.Restore: does not model the panic of `Instant::now() - Duration` on platforms whose instants cannot go back as far as the age of the stamp.
- Floating-point ties in the padding: the 35% is exact here; the structure theorems hold for any amount of padding.
- Snapshots edited by hand, an open snapshot with stamp zero, and clocks that run backwards.
- Comma-splitting of a single key string, parsing of HTTP dates, a Retry-After with a fraction of a second, and `getStats`: plumbing.
- The stream request's own key choice and error path: no loop and no state beyond the pool's.
- The rate limiter, pool, dispatcher and governor of the Rust proxy, which are not part of this model.
