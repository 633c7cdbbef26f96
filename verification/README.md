# Verified model of the inference server's core

This project models the stateful and concurrent heart of an LLM inference server and the algorithms in it that
carry real arithmetic, and proves what they guarantee. Code that changes state step by step is modelled by
classes, methods and loops that are proved against functions; the laws are then lemmas about those functions.
Concurrent protocols are state machines whose steps are single atomic actions, and their theorems hold for every
interleaving.

| files | what they model |
|---|---|
| `Coordinator.dfy`, `CoordinatorLaws.dfy`, `BatchLoop.dfy` | the batching coordinator: any number of submitters, permits, bounded channel, background loop, oneshots; as a state machine, and as the object whose methods take its steps |
| `JsonGrammar.dfy`, `Grammar.dfy`, `GrammarExactness.dfy` | the scanner behind constrained decoding, against the derivation trees of RFC 8259 |
| `RecencyList.dfy`, `Cache.dfy`, `CacheRuns.dfy`, `CacheInterleaving.dfy`, `CacheEviction.dfy`, `CacheAgreement.dfy` | the LRU cache with lifetimes: used by one thread it is a recency list; with many threads, at the granularity of its locks; and that the two agree |
| `Fnv.dfy`, `Delta.dfy` | delta updates and their 64-bit hash |
| `RealSeq.dfy`, `Sampler.dfy`, `SamplerLaws.dfy`, `Survival.dfy`, `Temperature.dfy` | the token sampler, over real numbers |
| `PriorityOrder.dfy`, `PriorityQueue.dfy`, `QueueLaws.dfy`, `Admission.dfy` | the four-level priority queue and its check-then-push admission |
| `RealFacts.dfy`, `Correlation.dfy` | Pearson correlation and the insights made from it |
| `Download.dfy` | the resumable download, with crashes and a server that follows RFC 9110 |
| `Session.dfy`, `Compaction.dfy` | chat sessions: append, fork, compact, and how compactions compose |
| `Routing.dfy` | the A/B router |
| `Collections.dfy`, `Numbers.dfy` | shared datatypes, and facts about sequences and sets |

Where the code does not do what one would expect of it, the code is modelled as it is, and a lemma says exactly
when the expectation holds:

- `max_wait_ms` is documented as the longest time spent filling a batch, but the timer restarts with every receive:
  `CoordinatorLaws.DocumentedWaitHoldsIff`; the true bound, which is reached, is `CoordinatorLaws.WaitBound`.
- JSON completion is exact for arrays, objects and strings nested less than 2^32 deep (the depth is a 32-bit
  integer), and for numbers and literals only when they are one character long:
  `GrammarExactness.CompletesExactlyAtEndIff`, with the number 12 in `GrammarExactness.TwelveCompletesEarly`.
  Numbers and literals are also blocked at their first character (`GrammarExactness.NeverBlockedIff`), and a token of
  several characters can be blocked for what it holds inside a string (`GrammarExactness.NoSplitBlockedIff`, with
  the array ["!"] in `GrammarExactness.ExclamationBlocked`).
- The eviction loop of an undisturbed `set` ends only if fewer than `max_entries` keys of the map are missing from the
  deque (`CacheEviction.SoloEvictionExitsIff`), so for one thread only if the limit is not zero
  (`CacheEviction.SequentialEvictionExitsIff`); two threads can bring about a state in which it never ends
  (`CacheEviction.EvictionLoopCanSpin`).
- A chunk offset close to 2^64 makes `apply` panic instead of returning an error: `Delta.SlicePanicsIff`, with a
  manifest that does it in `Delta.LastOffsetPanics`. The hash that comments call SHA256 is a 64-bit multiplicative
  hash; what it does detect is `Fnv.ShortBurstDetected`.
- A delta cannot shorten its base, although the target size is documented as the total size of the result:
  `Delta.ReachableTargetIff`.
- Top-k compares with the entry at position k and so keeps more than k tokens (`SamplerLaws.TopKKeepsMoreThanK`);
  `min_p` above one removes everything (`SamplerLaws.MaximalTokenSurvivesIff`); a draw of exactly zero returns the
  first token even if it was filtered out (`SamplerLaws.WalkReturnsSurvivorIff`, with calls that do it in
  `SamplerLaws.ZeroDrawReturnsFiltered`).
- The queue limit can be exceeded, by at most the number of producers less one: `Admission.LimitHoldsIff`.
- The coefficient of rescaled data can be missing, because the denominator is compared with a fixed epsilon:
  `Correlation.CoefficientRescaled`.
- A download may report success for a part of the object when it is given too small an expected size:
  `Download.SuccessIsWholeIff`. A complete file is recognised only with a known expected size not above the real one
  (`Download.CompleteFileRecognisedIff`); otherwise it is fetched again or reported as an error.
- Compacting again to at least as many messages changes nothing (`Compaction.CompactedTwice`), and compacting to fewer
  is compacting to fewer at once while identifiers differ (`Compaction.CompactionsCompose`). Repeated identifiers can
  break the second law, as in `Compaction.SharedIdHidesLast`; when exactly is `Compaction.CompactionsComposeIff`.
- The router rounds a fractional percentage up in every hundred requests, so its error grows without bound:
  `Routing.LeadBoundedIff`. One measurement decides a rollback whatever number of samples is asked for:
  `Routing.DocumentedRollbackHoldsIff`.

## Model

| member | source | states |
|---|---|---|
| `Coordinator.InvariantKept` | src/inference/coordinator.rs:87-216 | each of the 18 atomic steps of submitters and loop keeps the invariant: permits and active counter account for every submitter; every sent request is in exactly one place; filled oneshots are the answered calls; the totals agree at every point of the loop; sizes and waiting time are bounded |
| `CoordinatorLaws.ExactlyOnceInOrder` | src/inference/coordinator.rs:109-140 | in every reachable state the requests sent, in send order, are the backend calls, then the batch, then the channel; none occurs twice; the backend gets each submitter's own handle and request |
| `CoordinatorLaws.ReplyIsOwn` | src/inference/coordinator.rs:207-213 | a reply a submitter holds is what the backend returned for that submitter's own job |
| `CoordinatorLaws.FilledAtMostOnce` | src/inference/coordinator.rs:119-133 | a oneshot is empty when it is sent on, and keeps its value over any further run |
| `CoordinatorLaws.SendNeverBlocks` | src/inference/coordinator.rs:88-128 | a submitter about to send always finds the channel less than half full |
| `CoordinatorLaws.ConcurrencyBounds` | src/inference/coordinator.rs:88-117 | in-flight submits and the active counter stay within `max_concurrent`; every batch holds between one and min(max(1, `max_batch_size`), `max_concurrent`) requests |
| `CoordinatorLaws.ActiveNeverUnderflows` | src/inference/coordinator.rs:117-137 | when a submitter decrements the active counter, it is positive |
| `CoordinatorLaws.TotalsAtBoundary` | src/inference/coordinator.rs:198-205 | between two rounds the total of requests, of batch items, the sum of the batch sizes and the number of backend calls are equal |
| `CoordinatorLaws.WaitBound` | src/inference/coordinator.rs:178-196 | collecting a batch never takes longer than `max_wait_ms` times min(max(1, `max_batch_size`) - 1, `max_concurrent`, submitters) |
| `CoordinatorLaws.WaitBoundReached` | src/inference/coordinator.rs:178-196 | some run spends all of that bound |
| `CoordinatorLaws.ShortBatchWaited` | src/inference/coordinator.rs:178-196 | in every reachable state, collecting has stopped below the batch limit only after at least one full timer period |
| `CoordinatorLaws.DocumentedWaitHoldsIff` | src/inference/coordinator.rs:20-21 | the documented limit of `max_wait_ms` holds in every run if and only if the timer is zero, batches hold at most two, or at most one request can be in flight or submitted |
| `CoordinatorLaws.StepDecreases` | src/inference/coordinator.rs:109-216 | every step of whichever task lowers one well-founded measure of the whole system |
| `CoordinatorLaws.RunsTerminate` | src/inference/coordinator.rs:109-216 | no interleaving is longer than eighteen steps per submitter |
| `CoordinatorLaws.DeadlockFree` | src/inference/coordinator.rs:87-103 | with at least one permit, a reachable state with an unfinished submitter always has a next step |
| `CoordinatorLaws.MaximalRunsComplete` | src/inference/coordinator.rs:109-216 | a run that cannot go on has answered every submitter with the reply to its own job; all permits are back, nothing is active, and the totals count each submitter once |
| `BatchLoop.InferenceCoordinator.constructor` | src/inference/coordinator.rs:87-104 | a new coordinator is in the machine's initial state |
| `BatchLoop.InferenceCoordinator.Submit` | src/inference/coordinator.rs:109-140 | advancing `submit` takes exactly the next step of that submitter if it is not blocked, and none otherwise; the whole new state is the one after that step |
| `BatchLoop.InferenceCoordinator.Poll` | src/inference/coordinator.rs:180-196 | one poll times out exactly if the channel is empty at the look and, after whoever runs during the timer, is still empty or its request came later than `max_wait_ms`; otherwise the front of the channel, and nothing else, joins the batch |
| `BatchLoop.InferenceCoordinator.Collect` | src/inference/coordinator.rs:176-196 | whoever runs in between, the collecting loop is a run of the machine; it starts with the first request and ends with a batch within the limit, below it only after a full timer period, and exactly the batch that polling in turn collects |
| `BatchLoop.InferenceCoordinator.Drain` | src/inference/coordinator.rs:209-213 | the batch is answered in order, each request by the backend's answer to its own handle and request |
| `BatchLoop.InferenceCoordinator.ServeBatch` | src/inference/coordinator.rs:168-214 | one round of the loop, with others running between any two of its actions, is a run of the machine; it serves nothing exactly if the channel is empty when it looks, and otherwise starts with the front of the channel, adds one batch to each total and serves exactly that batch |
| `BatchLoop.InferenceCoordinator.Run` | src/inference/coordinator.rs:168-214 | with whatever runs in between, r rounds make at least r backend calls or one for every request that was sent before; so as many rounds as requests waited in the channel have put the answer to its own handle and request on the oneshot of every one of these |
| `BatchLoop.InferenceCoordinator.Stats` | src/inference/coordinator.rs:143-158 | the four counters at one moment; the average times the number of batches is the number of items, and it is zero without batches |
| `BatchLoop.SnapshotBounds` | src/inference/coordinator.rs:143-158 | whatever happens between loading the batches and loading the items, also in the middle of a round, the average falls short of one by at most the share of one batch, and the items are within the limit for the batches counted by then |
| `BatchLoop.AverageWithin` | src/inference/coordinator.rs:143-158 | between two rounds the reported average times the number of batches is the sum of their sizes, and lies between one and max(1, `max_batch_size`); before the first batch it is zero |
| `Grammar.GrammarState.constructor` | src/inference/grammar.rs:30-38 | the scanner starts at depth zero, outside a string, with no output |
| `Grammar.GrammarState.Advance` | src/inference/grammar.rs:50-70 | updating the three fields per character, with a wrapping 32-bit depth, is scanning with an unbounded depth and wrapping once at the end |
| `Grammar.GrammarState.Complete` | src/inference/grammar.rs:73-80 | true exactly for a regular expression, or outside a string at depth zero after some output that is not white |
| `Grammar.GrammarState.MaskLogits` | src/inference/grammar.rs:113-119 | exactly the logits of blocked vocabulary entries become minus infinity, and all others, and those beyond the vocabulary, keep their value; blocked is said character by character: outside a string, an entry that is not all white is blocked before any output exactly if its first character that is not white is none of the three that may open a text, and later exactly if some character between its first and last one that is not white is neither alphanumeric nor listed |
| `Grammar.AllowedIff` | src/inference/grammar.rs:41-148 | for every kind of grammar, state and token: the filter, which trims and scans, allows a token exactly if it is not blocked in that sense |
| `Grammar.WhitespaceExactly` | src/inference/grammar.rs:123-124 | trimming removes exactly the twenty-five Unicode White_Space code points, listed by number |
| `Grammar.NextWrapped` | src/inference/grammar.rs:61-66 | wrapping the depth after each character and wrapping the true depth once give the same |
| `GrammarExactness.ChunkingIrrelevant` | src/inference/grammar.rs:50-70 | the state after any sequence of tokens depends on their concatenation only |
| `GrammarExactness.ScannerMeaning` | src/inference/grammar.rs:50-70 | after any text, valid or not, the depth is the balance of the brackets outside strings, a string is open exactly after an odd number of unescaped quotation marks, and an escape is pending exactly after an odd number of backslashes in it |
| `GrammarExactness.TextBalanced` | src/inference/grammar.rs:51-68 | from any depth t, scanning the text of any derivation tree returns to depth t, outside a string and unescaped, and on the way stays between t and t plus the tree's nesting |
| `GrammarExactness.CompletesExactlyAtEndIff` | src/inference/grammar.rs:50-80 | for every RFC 8259 text: completion is reported at exactly those prefixes that contain the whole value, if and only if the value is an array, object or string nested less than 2^32 deep, or a number or literal of one character |
| `GrammarExactness.ScalarAtRest` | src/inference/grammar.rs:61-66 | while a number or literal is read the scanner never leaves its rest state |
| `GrammarExactness.DeepNestingCompletesEarly` | src/inference/grammar.rs:61-77 | nested 2^32 deep or more, some proper prefix of the value is reported complete (wrap-around of the depth) |
| `GrammarExactness.TwelveCompletesEarly` | src/inference/grammar.rs:73-80 | the number 12 is reported complete after its first digit |
| `GrammarExactness.NeverBlockedIff` | src/inference/grammar.rs:113-148 | generated one character at a time, an RFC 8259 text passes the token filter at every character if and only if its value is an array, object or string |
| `GrammarExactness.NoSplitBlockedIff` | src/inference/grammar.rs:121-148 | an RFC 8259 text passes the token filter under every cutting into tokens if and only if its value is a string, or an array or object all of whose characters, inside strings too, are alphanumeric or in the filter's list |
| `GrammarExactness.ExclamationBlocked` | src/inference/grammar.rs:139-147 | the array ["!"], cut after its bracket, is blocked |
| `Cache.InferenceCache.Get` | src/inference/cache.rs:104-133 | result, map, deque and counters change together as the recency list does; an enabled cache counts one hit or one miss, a disabled one nothing |
| `Cache.InferenceCache.Set` | src/inference/cache.rs:136-156 | likewise for `set`, including the eviction loop; map and deque keep the same keys, each once |
| `Cache.InferenceCache.MakeRoom` | src/inference/cache.rs:142-144 | the loop ends and drops exactly the oldest items above the limit, counting each |
| `Cache.InferenceCache.EvictLru` | src/inference/cache.rs:198-209 | the last key of the deque, and only it, leaves deque and map |
| `Cache.InferenceCache.Contains` | src/inference/cache.rs:159-167 | true exactly when a `get` at that moment would hit; changes nothing |
| `Cache.InferenceCache.Clear` | src/inference/cache.rs:170-175 | empties the list and the hit and miss counters, and keeps the eviction counter |
| `CacheRuns.ListInvariant` | src/inference/cache.rs:104-175 | over any run keys are distinct and at most `max_entries` items are stored |
| `CacheRuns.CountersCoverGets` | src/inference/cache.rs:104-175 | hits plus misses are the gets since the last clear |
| `CacheRuns.OrderedByLastUse` | src/inference/cache.rs:115-156 | after any run the list is ordered by each key's last hit or set in the history |
| `CacheRuns.EvictsLeastRecentlyUsed` | src/inference/cache.rs:142-155 | a `set` into a full cache evicts one item, the one whose last hit or set is oldest, and keeps all others |
| `CacheRuns.HitReturnsLatestSet` | src/inference/cache.rs:110-121 | a hit returns the value of the latest `set` of that key since the last clear, not older than the lifetime |
| `CacheRuns.HitIff` | src/inference/cache.rs:41-43 | after any run, a `get` hits exactly if its key is stored and the latest `set` of it lies at most the configured number of seconds, of 10^9 nanoseconds each, back; it then returns the value set, and otherwise the key is gone afterwards |
| `CacheRuns.GuaranteedHit` | src/inference/cache.rs:104-156 | a `set` followed by fewer than `max_entries` operations that neither name its key nor clear is hit by every `get` within the lifetime, with the value set |
| `CacheRuns.EntriesFromLastSet` | src/inference/cache.rs:146-152 | every stored entry is the one its key's latest `set` made |
| `CacheRuns.RetainedAfterUse` | src/inference/cache.rs:104-156 | an item just used survives any `max_entries` - 1 operations that neither name its key nor clear |
| `CacheInterleaving.BoundedKept` | src/inference/cache.rs:104-209 | map size plus threads past the capacity check is kept within `max_entries` + threads - 1 by every atomic step |
| `CacheInterleaving.InterleavingBounds` | src/inference/cache.rs:104-209 | in every reachable state the map holds at most `max_entries` + threads - 1 entries, and no key is twice in the deque |
| `CacheInterleaving.BoundReached` | src/inference/cache.rs:142-152 | some interleaving reaches that bound |
| `CacheAgreement.GetAlone` | src/inference/cache.rs:104-133 | while map and deque hold the same keys, a `get` that runs alone in the lock-level machine ends with the recency list, counters included, that the sequential `get` gives |
| `CacheAgreement.SetAlone` | src/inference/cache.rs:136-156 | likewise for `set`, however many rounds its eviction loop takes |
| `CacheAgreement.ClearAlone` | src/inference/cache.rs:170-175 | likewise for `clear` |
| `CacheEviction.EvictingRound` | src/inference/cache.rs:142-209 | undisturbed, the four steps of one round take the oldest key out of deque and map and count it |
| `CacheEviction.EmptyRound` | src/inference/cache.rs:142-144 | with an empty deque and a full map, check and pop lead back to the same state |
| `CacheEviction.StuckForever` | src/inference/cache.rs:142-209 | while `max_entries` or more keys are out of the deque's reach, no number of steps of the thread alone leaves the loop |
| `CacheEviction.SoloEvictionExitsIff` | src/inference/cache.rs:142-144 | from any state in which a thread stands at the check of the loop, some number of its own steps leads out of the loop if and only if fewer than `max_entries` keys of the map are missing from the deque |
| `CacheEviction.SequentialEvictionExitsIff` | src/inference/cache.rs:104-209 | in every state that one thread alone can reach with a `set` at the check, it gets out of the loop if and only if the limit is not zero |
| `CacheEviction.EvictionLoopCanSpin` | src/inference/cache.rs:142-175 | with two threads a full map and an empty deque are reachable with a thread at the check, which then never leaves the loop on its own |
| `Fnv.MixBijective` | src/model/delta.rs:29-33 | for every byte, the hash step is a bijection of the 64-bit states |
| `Fnv.MixInjectiveInByte` | src/model/delta.rs:29-33 | from one state, different bytes lead to different states |
| `Fnv.TwoMixesInjective` | src/model/delta.rs:29-33 | from one state, different pairs of bytes lead to different states |
| `Fnv.FoldInjectiveInState` | src/model/delta.rs:29-33 | a difference in the state survives any further bytes |
| `Fnv.HexInjective` | src/model/delta.rs:34-34 | the hexadecimal text determines the state |
| `Fnv.ShortBurstDetected` | src/model/delta.rs:27-35 | equal-length byte strings that differ in one byte only, or in two neighbouring bytes only, never have the same hash text |
| `Fnv.HashReads` | src/model/delta.rs:27-35 | the hash text of any data is sixteen digits of 0 to 9 and a to f, and read to base sixteen it is the final state |
| `Fnv.XorBit` | src/model/delta.rs:31-31 | bit k of an exclusive-or is the sum modulo two of the bits k of its operands |
| `Fnv.HashOfNothing` | src/model/delta.rs:29-29 | the hash of no data is cbf29ce484222325 |
| `Fnv.HashOfLetterA` | src/model/delta.rs:30-33 | the hash of the one byte 97 is the published af63dc4c8601ec8c |
| `Delta.ComputeHash` | src/model/delta.rs:27-35 | the loop computes the hash that these laws are about; its text is sixteen lower-case hexadecimal digits that read as the final state |
| `Delta.ValidIff` | src/model/delta.rs:81-96 | validation passes if and only if both versions are named and every chunk's data has the chunk's hash |
| `Delta.MismatchIff` | src/model/delta.rs:87-94 | a mismatch is reported if and only if there is one, and then the first with its index and offset |
| `Delta.Apply` | src/model/delta.rs:105-139 | the in-place buffer ends as the overlay says, with the same errors in the same order |
| `Delta.OverlaySucceedsIff` | src/model/delta.rs:115-127 | the chunk loop succeeds if and only if every chunk lies inside the buffer, and keeps its length |
| `Delta.OverlayBytes` | src/model/delta.rs:115-127 | each byte comes from the last chunk that covers it, else from the buffer |
| `Delta.AppliedContents` | src/model/delta.rs:105-139 | a successful `apply` has length max(base, target size), and each byte is the last covering chunk's, else the base's, else zero |
| `Delta.AppliedSucceedsIff` | src/model/delta.rs:105-139 | `apply` succeeds if and only if the manifest validates, the target size is one a vector can have, all chunks fit and the built bytes have the target hash |
| `Delta.SlicePanicsIff` | src/model/delta.rs:105-127 | `apply` panics in a slice if and only if the manifest validates, and the first chunk that does not fit has its true end between 2^64 and 2^64 plus the buffer length |
| `Delta.CapacityPanicsIff` | src/model/delta.rs:111-113 | `apply` panics for want of capacity if and only if the manifest validates and its target size is 2^63 or more |
| `Delta.LastOffsetPanics` | src/model/delta.rs:116-126 | one byte at the last 64-bit offset, applied to nothing, is such a manifest |
| `Delta.RebuildsTarget` | src/model/delta.rs:105-139 | chunks that are slices of a target and cover every position where it differs from the zero-extended base build exactly the target, in any order and overlap |
| `Delta.ReachableTargetIff` | src/model/delta.rs:50-51 | some manifest with the target's size leads from a base to the target if and only if the base is no longer: the documented total size never shortens anything |
| `Delta.DamagedChunkRejected` | src/model/delta.rs:38-41 | a manifest with a chunk changed in one byte or in two neighbouring bytes is rejected |
| `Delta.NearMissRejected` | src/model/delta.rs:129-136 | a result that passes the target check is not one byte, or two neighbouring bytes, off the target |
| `Sampler.ApplyRepetitionPenalty` | src/inference/sampler.rs:142-153 | the in-place loop, one penalty per occurrence of a token |
| `SamplerLaws.RepetitionCompounds` | src/inference/sampler.rs:142-153 | for a positive penalty a token that occurred n times is damped by the n-th power of the penalty, its sign kept; under a negative one every second update undoes the one before; other tokens are untouched |
| `Sampler.ApplyFrequencyPresencePenalty` | src/inference/sampler.rs:156-173 | whatever the iteration order of the counts, each logit loses the frequency penalty per occurrence and the presence penalty once |
| `Temperature.AdjustedLogit` | src/inference/sampler.rs:51-64 | for a positive repetition penalty: a token that occurred n times has its logit divided, or if not positive multiplied, by the n-th power of it, less n times the frequency penalty, less the presence penalty if n is not zero |
| `Sampler.ArgMax` | src/inference/sampler.rs:124-131 | the last of the largest values, or 0 if there are none |
| `SamplerLaws.SoftmaxDistribution` | src/inference/sampler.rs:134-139 | positive probabilities with sum one |
| `SamplerLaws.SoftmaxMonotone` | src/inference/sampler.rs:134-139 | probabilities are in the order of the logits |
| `Sampler.ApplyTopK` | src/inference/sampler.rs:176-186 | the in-place filter is the threshold function of the top-k laws |
| `SamplerLaws.TopKKeepsIff` | src/inference/sampler.rs:176-186 | an entry survives top-k if and only if at most k entries are strictly larger, so none of the k largest is dropped |
| `SamplerLaws.TopKKeepsMoreThanK` | src/inference/sampler.rs:180-185 | with positive probabilities at least k + 1 entries survive |
| `Sampler.FindCutoff` | src/inference/sampler.rs:193-201 | the loop finds the cutoff of the top-p laws |
| `SamplerLaws.CutoffShortest` | src/inference/sampler.rs:193-201 | the cutoff is the shortest sorted prefix with mass above `top_p`, or everything if there is none |
| `Sampler.ApplyTopP` | src/inference/sampler.rs:189-211 | exactly the entries outside that prefix become zero, in place |
| `SamplerLaws.TopPKeepsPrefix` | src/inference/sampler.rs:203-210 | kept entries keep their value, and no dropped entry is larger than a kept one |
| `Sampler.ApplyMinP` | src/inference/sampler.rs:214-222 | the in-place filter is the threshold function of the min-p law |
| `SamplerLaws.MaximalTokenSurvivesIff` | src/inference/sampler.rs:81-106 | the first maximal token keeps its probability through all three filters, and their sum stays positive, if and only if `min_p` is at most one |
| `Survival.SurvivesIff` | src/inference/sampler.rs:81-94 | for any positive probabilities and parameters, a token passes all three filters, which run one on the result of the other, if and only if at most `top_k` tokens are likelier, the likelier ones and the equally likely earlier ones have together at most `top_p` of the mass (or none), and it is at least `min_p` times as likely as the likeliest; each condition speaks of the original probabilities, which survivors keep |
| `Survival.MassOfPrefix` | src/inference/sampler.rs:191-201 | the mass of a prefix of the sorted order is the mass of the tokens that are likelier than, or equally likely and earlier than, the one that follows it |
| `SamplerLaws.RenormalisedSums` | src/inference/sampler.rs:96-106 | the result is a distribution with the same support, or uniform if nothing was left |
| `SamplerLaws.RatiosKept` | src/inference/sampler.rs:97-101 | renormalisation keeps the ratio of any two tokens |
| `Sampler.Renormalise` | src/inference/sampler.rs:97-106 | the two loops compute that distribution in place |
| `Sampler.WalkOver` | src/inference/sampler.rs:111-119 | the cumulative loop is the walk of the laws below |
| `SamplerLaws.WalkInvertsSum` | src/inference/sampler.rs:111-119 | a draw in (0, 1] returns token i if and only if it lies in the i-th slice of the cumulative distribution |
| `SamplerLaws.WalkReturnsSurvivorIff` | src/inference/sampler.rs:109-119 | a draw in [0, 1) returns a token of positive probability if and only if it is not zero or the first token has positive probability |
| `SamplerLaws.ZeroDrawReturnsFiltered` | src/inference/sampler.rs:91-117 | with `min_p` one, a first logit below another is filtered out, and a draw of zero returns it all the same |
| `Sampler.Sample` | src/inference/sampler.rs:47-120 | the whole call: error for no logits, the last maximum at temperature zero, else the walk over the filtered distribution |
| `Temperature.TemperatureRatio` | src/inference/sampler.rs:71-79 | for an exponential that turns sums into products: the probabilities of any two tokens that pass the filters have the quotient exp((a - b) / temperature), where a and b are their logits after the penalties |
| `Temperature.ColderFavoursMaximum` | src/inference/sampler.rs:71-79 | without filters, lowering a positive temperature never lowers the probability of a token with a maximal logit |
| `SamplerLaws.SampledTokenSurvives` | src/inference/sampler.rs:47-120 | for `min_p` at most one and a positive draw, the sampled token passed all three filters (`Survival.SurvivesIff`), and its slice of the distribution contains the draw |
| `PriorityQueue.PriorityQueue.Push` | src/queue.rs:168-173 | appends to its own priority's queue; the cached count stays the sum of the four lengths |
| `PriorityQueue.PriorityQueue.Pop` | src/queue.rs:175-184 | removes the front of the highest queue that is not empty, or nothing |
| `PriorityQueue.PriorityQueue.PopFair` | src/queue.rs:186-209 | for every random choice, the front of the chosen queue or of the highest one, with the count corrected; a draw not below the weight is an ordinary pop |
| `PriorityQueue.PriorityQueue.Len` | src/queue.rs:211-213 | the cached count is the number of requests queued |
| `PriorityQueue.PriorityQueue.LenByPriority` | src/queue.rs:220-222 | the number of requests of one priority |
| `PriorityOrder.IndexOrder` | src/queue.rs:168-184 | the queues are ranked by name: critical above high above normal above low |
| `PriorityOrder.PoppedIsHighest` | src/queue.rs:175-184 | a pop fails only when all queues are empty, and otherwise no request queued is of a higher priority than the one returned |
| `QueueLaws.DrainIsTheStableSort` | src/queue.rs:168-184 | pushing any sequence and popping until empty returns its stable sort by descending priority, and no other sequence is that |
| `QueueLaws.EveryClassIsFifo` | src/queue.rs:168-209 | in any run of pushes and pops, fair or not, what was popped of a priority followed by what is queued of it is what was pushed of it, in order |
| `QueueLaws.Conserved` | src/queue.rs:168-223 | requests pushed are requests popped plus requests queued, as multisets and in number |
| `QueueLaws.PoppedFrom` | src/queue.rs:186-209 | a pop takes the front of some queue and fails only when all are empty, whatever the random choices |
| `QueueLaws.FairServesAnyQueue` | src/queue.rs:190-204 | every queue that is not empty is served by some random choice |
| `QueueLaws.WaitAccounting` | src/queue.rs:175-184 | while a request waits, the pops so far plus those due before it are the requests that were ahead plus the higher ones that arrived |
| `QueueLaws.ServedExactlyInTurn` | src/queue.rs:175-184 | a waiting request is returned by exactly the pop after as many as were ahead of it plus the strictly higher ones that arrived meanwhile |
| `QueueLaws.WaitsAtMost` | src/queue.rs:175-184 | a request still waits only while no more pops have happened than there were requests ahead plus strictly higher ones arriving |
| `Admission.BoundedKept` | src/queue.rs:297-311 | queue length plus admitted producers is kept within `max_size` + producers - 1 by every step |
| `Admission.QueueBound` | src/queue.rs:297-311 | in any interleaving of checks, pushes and pops the queue never exceeds `max_size` + producers - 1 |
| `Admission.LimitHoldsIff` | src/queue.rs:297-311 | the configured limit holds in every run if and only if there is one producer or the limit is zero; otherwise the bound above is reached |
| `Correlation.PearsonCorrelation` | src/devices/correlator.rs:133-158 | the loop computes covariance and variances about the means; no result for fewer than two points or a denominator below epsilon |
| `Correlation.DeviationsCancel` | src/devices/correlator.rs:138-147 | the deviations from the mean sum to zero |
| `Correlation.NoCoefficientIff` | src/devices/correlator.rs:135-155 | there is no coefficient exactly for fewer than two points or a root of the product of the variances below 2^-52 |
| `Correlation.CauchySchwarz` | src/devices/correlator.rs:142-151 | for any two series the accumulators satisfy cov^2 <= var_a * var_b |
| `Correlation.CoefficientBound` | src/devices/correlator.rs:153-157 | a returned coefficient lies in [-1, 1] |
| `Correlation.CoefficientSymmetric` | src/devices/correlator.rs:133-158 | it does not depend on the order of the arguments |
| `Correlation.DenominatorRescaled` | src/devices/correlator.rs:153-153 | scaling and shifting both series multiplies the denominator by the absolute value of the product of the factors |
| `Correlation.CoefficientRescaled` | src/devices/correlator.rs:153-157 | for any factors and shifts of both series: the rescaled pair has a coefficient if and only if that absolute value times the old denominator reaches epsilon; when both have one, it is the same, or its negative if the product of the factors is negative |
| `Correlation.PerfectIffLinear` | src/devices/correlator.rs:133-158 | the coefficient is 1 or -1 if and only if the second series is a linear function of the first |
| `Correlation.CorrelatePairs` | src/devices/correlator.rs:89-121 | the nested loops report the insights of all pairs in order |
| `Correlation.InsightsIff` | src/devices/correlator.rs:89-121 | an insight is reported if and only if its pair of distinct metrics correlates on the common prefix |
| `Correlation.InsightIff` | src/devices/correlator.rs:93-118 | a pair has an insight exactly if both metrics have at least three readings and the coefficient over the common prefix is above 0.7 or below -0.7; its confidence is the distance from zero, and its sign that of the coefficient |
| `Correlation.ConfidenceRange` | src/devices/correlator.rs:95-117 | a reported confidence is above 0.7 and at most 1, from at least three readings that both metrics have |
| `Download.PrefixAlways` | src/model/huggingface.rs:151-232 | over any sequence of calls, chunks, write-backs, errors and crashes, with a conforming server, the file is a prefix of the object, and the reported count is what is on disk plus what is buffered |
| `Download.StepConsistent` | src/model/huggingface.rs:151-232 | the invariant behind it, for each event |
| `Download.SuccessIsWholeIff` | src/model/huggingface.rs:152-158 | success means the whole object, after any history, if and only if the expected size is zero or not below the true one |
| `Download.LossNeedsWholeReply` | src/model/huggingface.rs:151-232 | over any run, bytes on disk are lost only if some reply was a 200 with the whole object |
| `Download.CompleteFileRecognisedIff` | src/model/huggingface.rs:151-158 | a call leaves a complete file alone and reports success, whatever the server would answer, if and only if it resumes with a known expected size not above the real one |
| `Download.CompleteFileAskedFor` | src/model/huggingface.rs:160-232 | a resuming call that does not recognise a complete file fails and leaves it, or starts over on a 200 reply |
| `Download.DownloadFile` | src/model/huggingface.rs:133-237 | result, file and reported progress of one call, for any server and any amount of data that reaches the disk when the stream breaks |
| `Download.StatusDecides` | src/model/huggingface.rs:179-205 | a status outside 200 to 299 is an error and leaves the file; a 206 to a ranged request appends what arrives, any other success starts over; how many bytes the file then has |
| `Download.ProgressCounts` | src/model/huggingface.rs:206-230 | one progress report for each chunk: the bytes kept from the old file and those of all chunks so far; the last one of a successful call is the size of the file |
| `Download.AttemptIsRun` | src/model/huggingface.rs:151-232 | the effect of one call is that of a run of the event model, so its theorems apply to the call |
| `Download.FailuresBounded` | src/model/huggingface.rs:151-232 | resuming calls that each save at least one new byte fail at most as often as the object has bytes, and the one that succeeds leaves exactly the object |
| `Session.Session.Append` | src/agents/session.rs:68-81 | the message goes to the end, and both counters follow |
| `Session.Session.Fork` | src/agents/session.rs:84-99 | a fresh session with the same messages and counters and the parent's identifier; the parent is unchanged |
| `Session.Session.Compact` | src/agents/session.rs:103-130 | the three loops compute the compaction of the laws below, recount, and return how many messages went |
| `Session.CompactedSubsequence` | src/agents/session.rs:109-120 | what compaction keeps is in the old order, duplicate identifiers or not |
| `Session.DedupIdentityIff` | src/agents/session.rs:118-120 | the deduplication pass removes nothing if and only if all identifiers differ |
| `Session.StaysIff` | src/agents/session.rs:103-120 | with distinct identifiers a message stays if and only if it is pinned, a system message or among the last k |
| `Compaction.CompactedTwice` | src/agents/session.rs:103-130 | for every list, compacting again to at least as many messages changes nothing; in particular compaction is idempotent |
| `Compaction.CompactionsCompose` | src/agents/session.rs:103-130 | with distinct identifiers, compacting to k and then to j is compacting to min(j, k) |
| `Compaction.CompactionsComposeIff` | src/agents/session.rs:103-130 | for every list the same holds if and only if j is not below k, or k covers the list, or no message that must stay repeats an earlier ordinary one and the ordinary ones the second window reaches back to come again, identical, as the first new ones of the last j |
| `Compaction.DistinctWindowsAgreeIff` | src/agents/session.rs:103-130 | that condition when no message occurs twice: nothing that must stay repeats an earlier ordinary message's identifier, none of the last j repeats an identifier that only ordinary ones have, and the messages just before the last j, one per repeat among these, must all stay |
| `Compaction.CompactionsCollapse` | src/agents/session.rs:103-130 | with distinct identifiers any number of compactions is the one with the least window, in whatever order |
| `Compaction.SharedIdHidesLast` | src/agents/session.rs:118-120 | a shared identifier can break the law for j below k: of three ordinary messages the last two of which share one, compacting to two and then to one leaves another message than compacting to one |
| `Session.CountersAgree` | src/agents/session.rs:68-130 | over any run of creating, appending, pinning, forking and compacting, every session's counters are the sum of its tokens and the number of its messages |
| `Session.Independent` | src/agents/session.rs:84-99 | a session's value depends on its own events only, whatever happens to its forks or parent |
| `Routing.AcceptedSplitShares` | src/inference/ab_testing.rs:16-35 | in any hundred consecutive requests of an accepted split A gets its percentage rounded up and B its own rounded down; A gets none only at zero percent and all only above 99 |
| `Routing.ABRouter.New` | src/inference/ab_testing.rs:80-125 | a router is made if and only if the name is not empty, at least one sample is asked for and the models differ; otherwise the first of these that fails is the error |
| `Routing.ABRouter.Route` | src/inference/ab_testing.rs:129-144 | the variant of the next request number with the name of its model, or an error and no change when disabled |
| `Routing.ABRouter.RecordMetric` | src/inference/ab_testing.rs:160-165 | the measurement is added to its own variant only |
| `Routing.ABRouter.Rollback` | src/inference/ab_testing.rs:209-225 | disables the test and returns the model with the better average speed, if any was measured |
| `Routing.AverageLaws` | src/inference/ab_testing.rs:189-199 | an average times the number of measurements is their sum |
| `Routing.AverageOfEquals` | src/inference/ab_testing.rs:189-199 | equal measurements average to themselves |
| `Routing.FasterWins` | src/inference/ab_testing.rs:213-220 | with measurements of both models A wins exactly if its sum divided by its number is not below that of B |
| `Routing.DocumentedRollbackHoldsIff` | src/inference/ab_testing.rs:201-225 | a rollback returns no model only without any measurement, so the documented "None if insufficient data" holds if and only if there are enough measurements of both variants or none at all |
| `Routing.OneMeasurementDecides` | src/inference/ab_testing.rs:207-225 | a single measurement decides the rollback, however many samples are asked for |
| `Routing.ExactCount` | src/inference/ab_testing.rs:135-143 | for every percentage, also one set outside 0 to 100: after n requests A was chosen (n / 100) * q + min(n % 100, q) times, where the quota q is ceil(p) kept between 0 and 100 |
| `Routing.AnyHundred` | src/inference/ab_testing.rs:135-143 | any hundred consecutive requests, wherever they start, hold exactly that quota of A's |
| `Routing.WholeLeadBounded` | src/inference/ab_testing.rs:135-143 | for a whole percentage, 100 times the A's less n * p lies between 0 and p * (100 - p), at most 2500 |
| `Routing.WholeLeadReached` | src/inference/ab_testing.rs:135-143 | that bound is met in every hundred |
| `Routing.LeadBoundedIff` | src/inference/ab_testing.rs:135-143 | the share of A stays within some fixed distance of the percentage if and only if the percentage is a whole number from 0 to 100 |
| `Routing.RunCount` | src/inference/ab_testing.rs:129-225 | over any run of a fresh router with measurements and rollbacks in between, its successful routes chose A exactly as often as the closed form says |
| `Routing.DisabledForGood` | src/inference/ab_testing.rs:129-225 | after a rollback no route succeeds |

## Left out

- Coordinator: `max_concurrent` of zero (the channel cannot be created), cancelled `submit` futures, closed-channel
  errors and a backend that never returns; the counters are 64-bit in the program and unbounded here.
- `BatchLoop.InferenceCoordinator.Stats`: reads the four counters at one moment, while the program loads them one after
  the other; what then still holds of the average is `BatchLoop.SnapshotBounds`.
- `BatchLoop.SnapshotBounds`: takes the loads to happen in program order; they are relaxed, so on some machines the
  items may be older than the batches.
- Coordinator: submitters are a fixed finite list, so completion is shown for every finite set of calls; fairness of
  the scheduler is not needed for it.
- `Cache.InferenceCache.Set`: requires `max_entries` of at least one when the cache is enabled, because the eviction
  loop would otherwise never end (see `CacheEviction.SequentialEvictionExitsIff`).
- `Cache.InferenceCache.MakeRoom`: likewise.
- Cache: key generation by the standard library's hasher; the deque and the map are locked separately, and equality
  of their keys is claimed for use by one thread only.
- `Delta.Apply`: a target size that a vector could have but memory has no room for; the addition of offset and length
  wraps as in a release build, while a debug build panics there.
- `total_delta_size` and `add_chunk` of the delta manifest: a sum and a push.
- `Grammar.GrammarState.Advance`: the depth wraps as in a release build, while a debug build panics on overflow.
- Grammar: `validate_output`, schema contents and regular expressions; `is_alphanumeric` is a parameter of which
  only the ASCII letters and digits are fixed.
- `Sampler.ApplyRepetitionPenalty`: a penalty of zero, which makes a positive logit infinite.
- `Sampler.Sample`: likewise; after it every probability is not a number.
- `SamplerLaws.RepetitionCompounds`: likewise.
- `SamplerLaws.SampledTokenSurvives`: likewise.
- `Temperature.AdjustedLogit`: a penalty that is not positive; what the repetition penalty then does is
  `SamplerLaws.RepetitionCompounds`.
- `Temperature.TemperatureRatio`: likewise a penalty of zero; `exp` is any positive function that turns sums into
  products.
- `Temperature.ColderFavoursMaximum`: likewise, and `exp` does not decrease.
- Sampler: 32-bit rounding, infinities and NaN; `exp` is any positive function (monotone where needed), and the random
  draw is a parameter.
- `QueueLaws.ServedExactlyInTurn`: speaks of `pop`; under `pop_fair` a request can be overtaken as often as the
  random choices say.
- Queue: per-model concurrency, timeouts, persistence, statistics and request metadata.
- Correlation: floating-point rounding; the square root is any function that is one. Per-metric trend and
  variability insights, and the texts of all insights, are not modelled; metrics come in an arbitrary order.
- Download: concurrent downloads to one destination, a remote object that changes between calls, and buffered data
  of a failed call that reaches the disk only after the next call has looked at the file; writes reach the disk in
  order. Speed, total size and authentication are not modelled, and a failure to create or open the file leaves it
  as an unreachable server does.
- Session: identifiers drawn for new messages are parameters; timestamps, and the session store on disk.
- Router: the request counter is unbounded here and 64-bit in the program; averages of latency, user ratings,
  stochastic routing by an explicit value.
- Connection pool, web widget, local engine, agents' state tables, device connectors, fleet, command line and
  configuration.
