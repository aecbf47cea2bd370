# RamTracker: a verified model

RamTracker watches marketplaces for server memory. A listing arrives from a source, its text is
read into a specification (by part number, grammar or, later, a language model), the decision
rules judge the price per gigabyte, and an anti-spam filter decides whether an alert goes out. The
tables survive between cycles. Beside it, a Worker queues eBay's account-closure notices, and
RamTracker pulls them and erases the sellers concerned.

The project models those parts and proves what they keep over all inputs, all runs and all
interleavings.

| file | what it holds |
|---|---|
| Rounding, Money, Models, Tables | both rounding modes, amounts, the immutable records, the five tables (`Db` as a value, `Conn` as the connection that updates them) |
| Grammar, Prefilter, Cascade | the text grammar, the admissible bound on capacity, the extraction stages |
| Thresholds, Auction, Market | the decision rules, the bid ceiling, percentiles and references |
| RateLimit, Pipeline, LlmQueue, Deletion | one listing, one drain, one notification: the functions that say what each does to the tables, and the methods that do it in place |
| Runs, AlertLog, Provenance, References, Ratchet, Erasure, SpecCache, Scenarios | what every run of any mix of steps keeps; short concrete runs |
| Protocol, Allowlist, EndToEnd, Der, Breaker | the deletion protocol as a step relation, the seller filter across isolates, both composed, the signature decoder, the circuit breaker |

Conventions. Money, rates and percentages are exact reals; the two rounding modes are written out
(`ROUND_HALF_UP` in the money module, half-even wherever the source calls a plain `quantize`).
Instants are integers (microseconds UTC; minutes for the breaker). A confidence is the shortest
decimal of the stored double, by a table, since 0.6 + 0.1 + 0.1 lands just below 0.80. A text is
its normalised string, which stands for its hash, and what each regular expression finds in it, in
text order; the two capacity expressions are computed from the digit runs, so their relation is
proved, and `Grammar.Consistent` lists what the scan of any text satisfies. SHA-256 is injective on
keys. A run of `Runs` is any sequence of: a collected listing with the world's answers, the insert
or the loss of its alert, a mute, a purchase mark, an account deletion, a language-model drain. The
connection is in autocommit mode, so a cycle cut short by an exception leaves its rows behind.

What a step is. One collector goes from listing to listing; the end points for mutes and account
closures are other processes. Between the decision to alert and its row the notifier is called, so
collecting a listing and recording its alert are two steps, with mutes, purchase marks, deletions
and crashes in between; the collector records before it goes on. What else a collection reads and
writes gives the same tables whether another process writes before it or in its midst.

Where the documentation and the code part, the model follows the code and states when the
documentation holds:

- The bound of `optimistic_total_gb` is documented to hold for every listing. The grammar accepts
  multipliers up to 32, the bound drops counts above 16: `BoundDominatesExactly` and
  `SingleCapacityBound` give the exact conditions. It never matters there while the minimum
  confidence is at most 0.85 (the default is 0.80): `OwnReadingIsHiddenExactly`.
- "No false negative by construction" compares the raw price. It holds exactly for EUR and rates of
  at least one (`RejectionHidesNoDeal`, `ForeignDealIsHiddenExactly`); what one rejection hides is
  the finite test of `RejectionHidesExactly`, and `DollarListingHidden` is a listing.
- A price-dependent rejection is cached by text alone: `PricesAreReadAlike`,
  `TransparentExactlyWhenFaithful` and `TwinIsQueuedExactly` say when that shows.
- A mute is promised for 24 hours; an alert in flight escapes it: `MuteLastsADay`,
  `RaceIsReachable`.
- A fingerprint is promised one alert unless the price drops; lot and piece prices of one
  fingerprint are compared as they are: `AlertedAtMostOnce`, `MixedUnitsAlertTwice`.
- The seller filter is promised to follow within five minutes; a failing read keeps the older list:
  `ListedClosureIsKept`, `DropIsExplained`.
- The upsert renames the hash of a row but not its text: `HashStaysWithText`,
  `QueuedTextKeepsListing`.
- The market sample ignores that a price is one module's, and the currency:
  `SampleFollowsTotal`, `UnitSamplesUnderstate`, `ForeignSampleErrsWithRate`.
- A publication of the seller list whose response is lost leaves the marker lying until the next
  confirmed one: `SyncedExactly`, `LostResponseFoolsTheMarker`.
- An archived payload that does not decompress ends every drain that pulls its seller:
  `DrainRaisesExactly`, `CorruptPayloadBlocks`.
- The signature decoder accepts encodings cut short: `PrefixDecodesExactly`.

## Model

| member | source | states |
|---|---|---|
| Grammar.ModuleCapacityIsSecondLargest | src/ramtracker/extract/grammar.py:220-233 | the capacity taken is a known size written with its unit; exactly one written size lies above it if any lies below, so the largest of several is dropped as the announced total and the next one taken |
| Grammar.Capacity | src/ramtracker/extract/grammar.py:220-233 | the loop over the capacity matches computes that choice |
| Grammar.PlainCountOrigin | src/ramtracker/extract/grammar.py:205-214 | the plain multiplier is the first match of the first pattern offering one within 1..32, every earlier pattern offering none |
| Grammar.CountAndCapacity | src/ramtracker/extract/grammar.py:197-217 | the early exits and the pattern loop compute the count, capacity and explicitness the specification functions give |
| Grammar.MaxPlausibleCount | src/ramtracker/extract/grammar.py:252-272 | the loops that extend one list compute the generous count |
| Grammar.GenerousCountExactly | src/ramtracker/extract/grammar.py:252-272 | the generous count is the largest count within 1..16 that any expression finds; with none found, 16 for a plural and 1 otherwise |
| Grammar.GenerousCountsExactly | src/ramtracker/extract/grammar.py:258-266 | the counts considered are those of the N x M forms, of every multiplier match and of the number words, and no other number |
| Grammar.StrictExactly | src/ramtracker/extract/grammar.py:56-56 | the strict capacity expression reads exactly the runs of up to three digits with a boundary before and a unit after |
| Grammar.ParsesExactly | src/ramtracker/extract/grammar.py:107-139 | a declared total is the total; the first N x M form of a known size, bare before parenthesised, is count, capacity and a lot; else the plain multiplier and the capacity written; a unit marker outranks every count |
| Grammar.ConfidenceIsSum | src/ramtracker/extract/grammar.py:118-127 | the confidence is the sum of what was found up to 0.95, but for the one sum that doubles put just below 0.80 |
| Grammar.ParseConfidence | src/ramtracker/extract/grammar.py:118-127 | what counts: a capacity, an explicit count, a registered or load-reduced kind, a speed |
| Prefilter.ComputeOptimisticTotal | src/ramtracker/extract/prefilter.py:35-59 | the candidate list grown source by source computes the bound |
| Prefilter.ModuleCapacityIsLenient | src/ramtracker/extract/prefilter.py:42 | whatever capacity the grammar settles on, the lenient expression has read too |
| Prefilter.LenientExactly | src/ramtracker/extract/prefilter.py:26-26 | the lenient expression reads every run with a unit, boundary or not, by its last four digits |
| Prefilter.LastFourIsRemainder | src/ramtracker/extract/prefilter.py:26-26 | the last four digits are the number modulo ten thousand |
| Prefilter.BoundExactly | src/ramtracker/extract/prefilter.py:35-59 | a text is bounded if and only if it has a reading (total, product, largest capacity alone or times the most modules) and none exceeds 2048, and then by the largest |
| Prefilter.ModulesExactly | src/ramtracker/extract/prefilter.py:47-49 | the most modules a text could mean: the generous count, or 16 when it counts one and prices by the unit |
| Prefilter.BoundDominatesParse | src/ramtracker/extract/prefilter.py:35-59 | whenever the bound exists it is at least the total the grammar reads, unless a plain multiplier above 16 set the count |
| Prefilter.BoundDominatesExactly | src/ramtracker/extract/prefilter.py:35-59 | if and only if: inside the over-count family the bound holds only when another capacity or N x M form is large enough |
| Prefilter.SingleCapacityBound | src/ramtracker/extract/grammar.py:211-214 | for one written capacity and no N x M form, the bound holds if and only if the count is at most 16 |
| Prefilter.NoSpecBeatsTheBound | src/ramtracker/extract/prefilter.py:62-69 | in any currency with a rate, no specification within the bound is judged cheaper per gigabyte than one displayed price over the whole bound |
| Prefilter.BestCaseBelowRules | src/ramtracker/extract/prefilter.py:69 | a best case above the ceiling, rounded half-even on the bare price, forces the half-up cost at the bound above it too, for any conversion that does not lower the price |
| Prefilter.RejectionHidesNoDeal | src/ramtracker/extract/cascade.py:66-70 | for a price in whole cents of EUR or of any currency worth at least a euro, a best case above the ceiling means no deal for any specification within the bound, any basis, sale type, index and clock |
| Prefilter.HasDealExactly | src/ramtracker/decide/thresholds.py:56-153 | some reading with a total in a range is a deal if and only if some number of displayed prices over some total of the range passes floor, minimum, ceiling, some reference of the index and, for an auction, the end window and the next bid: any currency with a rate, either mode |
| Prefilter.HasDealAtTheTop | src/ramtracker/extract/prefilter.py:62-69 | unless the largest total makes the price implausible, that is decided by one displayed price over the largest total |
| Prefilter.HasDealFinitely | src/ramtracker/decide/thresholds.py:68-92 | and always by a finite search: no more displayed prices need trying than make every total plausible |
| Prefilter.LotOfTwentyIsUnderbound | src/ramtracker/extract/grammar.py:205-214 | "Lot de 20 barrettes 16Go" reads 320 GB against a bound of 256 |
| Cascade.Check | src/ramtracker/extract/coherence.py:19-42 | the cross-checks change nothing but the confidence, lower it to every cap that applies (incoherent, unknown size, PC4 mismatch, unknown basis) and to nothing else |
| Cascade.Qualify | src/ramtracker/extract/qualify.py:62-82 | the matrix changes nothing but the rejection; a specification stays unrejected if and only if capacity, kind and speed are accepted |
| Cascade.KeywordSettlesIt | src/ramtracker/extract/cascade.py:30-32 | a rejecting keyword is the verdict, with certainty, whatever else the text says |
| Cascade.UnrejectedExactly | src/ramtracker/extract/cascade.py:30-64 | the result is unrejected if and only if there is no keyword, the matrix accepts, and a known part vouches or the basis is known and the checked confidence reaches the gate |
| Cascade.UnrejectedIsCoherent | src/ramtracker/extract/cascade.py:30-64 | an unrejected result is never the language model's, multiplies out, and has a known basis unless a part number vouches for it, if the gate lies above 0.30 |
| Cascade.CoherenceNeedsTheGate | src/ramtracker/extract/cascade.py:63-64 | for a matrix that accepts 8 GB modules, every unrejected reading multiplies out if and only if the minimum confidence exceeds the incoherence cap; the failing text is "RDIMM 512 Go total 2x8Go" |
| Cascade.CeilingTurnsLowConfidence | src/ramtracker/extract/cascade.py:66-82 | with it on, the price changes one answer only: low confidence becomes best case above the ceiling exactly when the prefilter rejects |
| Cascade.OnlyThePrefilterSaysSo | src/ramtracker/extract/cascade.py:66-70 | the best-case rejection comes from nowhere but the armed prefilter |
| Cascade.PrefilterRejectionIsSound | src/ramtracker/extract/cascade.py:66-70 | when the cascade rejects a listing for the best case, in EUR or a currency worth at least a euro, no reading with the grammar's total could have been a deal: always with a gate up to 0.85, above it if the count was not over-read |
| Cascade.RejectedOvercountNeedsAHighGate | src/ramtracker/extract/cascade.py:63-70 | an over-read count leaves a confidence of at least 0.85, so the prefilter can only reject it under a higher gate |
| Cascade.OwnReadingIsHiddenExactly | src/ramtracker/extract/cascade.py:63-70 | in such currencies the grammar's own reading is ever a hidden deal if and only if the gate lies above 0.85; the witness is a lot of twenty at 600 EUR |
| Cascade.ForeignDealIsHiddenExactly | src/ramtracker/extract/prefilter.py:69 | in a foreign currency the cascade's best-case rejection can hide a deal within the bound if and only if the rate is below one |
| Cascade.RejectionHidesExactly | src/ramtracker/extract/cascade.py:66-70 | for one rejected listing, in any currency, a reading within the bound is a deal if and only if a finite search succeeds: some total up to the bound and a limited number of prices pass every barrier |
| Cascade.RejectionHidesAtTheBound | src/ramtracker/extract/prefilter.py:67-69 | the same as one comparison at the bound, unless the bound makes the price implausibly low |
| Cascade.OwnTotalIsHiddenExactly | src/ramtracker/extract/cascade.py:66-70 | the grammar's own total is a deal for some reading if and only if a limited number of prices over exactly that total passes every barrier |
| Cascade.DollarListingHidden | src/ramtracker/extract/prefilter.py:69 | "RDIMM 16GB" at 33 USD: the cascade rejects it although its reading, as a lot, is a deal in both modes |
| Thresholds.DealExactly | src/ramtracker/decide/thresholds.py:56-153 | a deal comes out if and only if the order-free conditions hold, the discount barrier read as a price below (1 - minimum) times the reference |
| Thresholds.FloorExactly | src/ramtracker/decide/thresholds.py:80-85 | the refusal that asks for the language model falls exactly on readings sound enough to be judged whose price per gigabyte is under the floor, whatever their volume |
| Thresholds.SellersAgreeExactly | src/ramtracker/core/hashing.py:44-44 | two sellers share a fingerprint's name if and only if they differ in surrounding blanks and case alone |
| Thresholds.AnonymousSellers | src/ramtracker/core/hashing.py:44-44 | listings without a seller share one name |
| Thresholds.FingerprintsAgreeExactly | src/ramtracker/core/hashing.py:36-46 | two readings share a fingerprint if and only if seller names, capacity and count agree and the prices lie in one ten-euro bucket |
| Thresholds.DealTotalIsExact | src/ramtracker/decide/thresholds.py:65-75 | in whole euro cents the advertised total is exactly price times modules paid for plus shipping |
| Thresholds.DealPriceIsTrue | src/ramtracker/core/money.py:48-83 | and its price per gigabyte is within half a ten-thousandth of price times modules plus shipping over capacity, three roundings together |
| Thresholds.DealFields | src/ramtracker/decide/thresholds.py:98-145 | a deal says its shipping was estimated exactly when none is shown, and carries a maximum bid, after the shipping charged, exactly for an auction |
| Thresholds.SampleAgainstDeal | src/ramtracker/decide/market.py:69-75 | the market sample of a euro deal never exceeds its judged price and equals it when the price is the whole lot's |
| Thresholds.UnitSamplesUnderstate | src/ramtracker/decide/market.py:69-75 | for a price per module the sample is strictly below the judged price, as soon as one module costs a ten-thousandth of a euro per gigabyte of the lot |
| Thresholds.SampleFollowsTotal | src/ramtracker/decide/market.py:69-75 | in any currency and basis the sample is the judged price when the unconverted total is the advertised one, and lies on that total's side once the two are a ten-thousandth of a euro per gigabyte apart |
| Thresholds.ForeignSampleErrsWithRate | src/ramtracker/decide/market.py:69-75 | for a foreign lot with shown shipping the sample errs on the side of the rate, and is the judged price at a rate of one |
| Thresholds.AuctionDealWithinMaxBid | src/ramtracker/decide/thresholds.py:100-132 | for every auction deal, with a ceiling on the four-decimal grid and a whole-cent estimate, the next bid in EUR is at most the advertised maximum |
| Auction.BelowCeilingExact | src/ramtracker/core/money.py:79-83 | a rounded price per gigabyte below a grid ceiling means the exact cost is below ceiling times capacity |
| Auction.BidFitsUnderMaxBid | src/ramtracker/decide/auction.py:34-42 | a bid under the half-up ceiling test fits under the half-even maximum |
| Auction.MaxBidIsTight | src/ramtracker/decide/auction.py:40-42 | when ceiling times capacity is whole cents, paying the maximum plus shipping costs exactly the ceiling per gigabyte |
| Auction.MaxBidIsNearest | src/ramtracker/decide/auction.py:40-42 | the maximum is the cent nearest to ceiling times capacity less shipping, the even one on a tie |
| Market.Nearest | src/ramtracker/decide/market.py:141-142 | the chosen bucket is at minimal distance and the first such one |
| Market.PercentileMonotone | src/ramtracker/decide/market.py:32-40 | a higher quartile is never smaller, after interpolation and half-even rounding |
| Market.PercentileEnds | src/ramtracker/decide/market.py:32-40 | the extreme percentiles are elements of the sample |
| Market.PercentilesAreOrdered | src/ramtracker/decide/market.py:32-40 | min <= p25 <= p50 <= p75 <= max for every non-empty sample |
| Market.InterpolatedIsLinear | src/ramtracker/decide/market.py:36-40 | on an evenly spaced sample the interpolation is exact at every quartile position |
| Market.MedianExactly | src/ramtracker/decide/market.py:32-40 | the median of an odd sample is its middle element, of an even one half-way between the two, to even |
| Market.StatsAreOrdered | src/ramtracker/decide/market.py:78-86 | what is published of a bucket is its quartiles in order, elements where the sample size allows, and its size |
| Market.GroupMember | src/ramtracker/decide/market.py:68-75 | a bucket's samples are those of its own rows, each at its own price per gigabyte |
| Market.PercentileIgnoresOrder | src/ramtracker/decide/market.py:32-40 | samples with the same elements have the same percentiles |
| Market.ComputeStats | src/ramtracker/decide/market.py:68-86 | the grouping loop yields, for exactly the non-empty buckets, the percentiles of that bucket's samples |
| RateLimit.LastAlert | src/ramtracker/notify/ratelimit.py:29-35 | the row answered is a latest one of the fingerprint, whichever the database picks among ties; none exactly when there is none |
| RateLimit.AllowedExactly | src/ramtracker/notify/ratelimit.py:55-78 | an alert is allowed if and only if the latest one of its fingerprint is neither muted nor undercut by too little, and, if urgent, its day is below the cap; with the priority it goes out at |
| RateLimit.DaysAreDays | src/ramtracker/notify/ratelimit.py:38-43 | the days of the cap are 24 hours each, from midnight UTC |
| RateLimit.QuietHoursWrap | src/ramtracker/notify/ratelimit.py:46-52 | the quiet hours run round the clock from their start, past midnight if they end before they begin, never if both coincide |
| RateLimit.Mute | src/ramtracker/runtime/feedback.py:27-38 | every row of the fingerprint is silenced for 24 hours, no other row changes, not found exactly when none matched |
| RateLimit.Bought | src/ramtracker/runtime/feedback.py:40-50 | the purchase mark changes the outcome of the fingerprint's rows and nothing else, mutes included |
| AlertLog.DailyCapHolds | src/ramtracker/notify/ratelimit.py:70-71 | in every reachable state no UTC day holds more immediate alerts than the cap, the one in flight included, whatever the clock does and whatever falls between a decision and its insert |
| AlertLog.AcceptedAreLoggedOrLost | src/ramtracker/runtime/pipeline.py:333-361 | the immediate alerts the notifier accepted for a day are those logged, the one in flight and those lost to crashes: at most the cap plus the crashes |
| AlertLog.MuteLastsADay | src/ramtracker/runtime/pipeline.py:333-361 | after a mute that found a row, a row of that fingerprint with a send time within the next 24 hours is added if and only if its alert was in flight at the mute and then landed: across cycles, crashes and repeated mutes, if neither clock runs backwards |
| AlertLog.RacingAlertLiftsSilence | src/ramtracker/runtime/feedback.py:27-38 | an alert in flight at the mute lands unmuted and, as the newest row, lifts the mute of its fingerprint |
| Scenarios.RaceIsReachable | src/ramtracker/runtime/pipeline.py:333-361 | five steps from the empty tables get there: 39 EUR, then 31 EUR with the mute between decision and insert |
| AlertLog.SentByCollection | src/ramtracker/runtime/pipeline.py:333-361 | every row of a run, recorded or in flight, was sent by one of its collection steps, on the tables as they stood when the log ended just before it |
| AlertLog.PriceLadder | src/ramtracker/notify/ratelimit.py:60-68 | with increasing alert times, each alert of a fingerprint costs at most (1 - drop%) of the previous positive one |
| AlertLog.NoDropWithinBucket | src/ramtracker/core/hashing.py:18-43 | a 10 EUR bucket of lots of the same number of units cannot contain the required drop once bucket times drop% reaches 100 |
| AlertLog.AlertedAtMostOnce | src/ramtracker/notify/ratelimit.py:60-68 | a fingerprint of such a bucket whose alerts come from EUR listings priced by the same number of units, the lot or the module, is alerted at most once ever, at any times |
| Scenarios.MixedUnitsAlertTwice | src/ramtracker/decide/thresholds.py:66-98 | mixing the two breaks it: a lot of four at 105 EUR, then the four at 26 EUR apiece, one fingerprint alerted twice |
| Pipeline.UpsertListing | src/ramtracker/runtime/pipeline.py:423-460 | no other row changes; a known one keeps seller, payload, text, currency, sale type and end, and takes price, shipping, bid, hash and last-seen; an unknown one takes everything |
| Pipeline.HintSettlesPrice | src/ramtracker/runtime/pipeline.py:278-319 | for a qualified reading of several modules, several copies on offer make the lot price the displayed one times the modules, a real lot makes it the displayed one unless the text prices by the unit, and anything else leaves it |
| Pipeline.UnverifiedStands | src/ramtracker/runtime/pipeline.py:289-299 | without verification, a hint, several modules or a qualified reading, the reading stands |
| Pipeline.VerifyPriceBasis | src/ramtracker/runtime/pipeline.py:278-319 | the method settles the basis that way and stores it only when it changed |
| Pipeline.Send | src/ramtracker/runtime/pipeline.py:333-361 | an allowed alert, accepted at the first or second attempt, appends its row; otherwise the log is unchanged |
| Pipeline.HandleListing | src/ramtracker/runtime/pipeline.py:221-275 | the in-place steps leave exactly the tables and outcome of the specification function the run lemmas are about |
| Pipeline.Process | src/ramtracker/runtime/pipeline.py:150-171 | the batch loop, exceptions included, equals the fold of single listings |
| Pipeline.AbortIsFinal | src/ramtracker/runtime/pipeline.py:164-171 | once a listing raised, the rest of the batch changes nothing |
| Runs.AlertedExactly | src/ramtracker/runtime/pipeline.py:221-275 | a collected listing is alerted if and only if it is new or cheaper by the required share, eligible, a bargain as judged, let through by the anti-spam rules, and accepted by the notifier in one of two attempts |
| Runs.QueuedExactly | src/ramtracker/runtime/pipeline.py:260-270 | its text joins the language model's queue if and only if the model is on and the listing, looked at and eligible, is of low confidence or implausibly cheap; rows already queued keep lane and attempts |
| Runs.QueuedRowExactly | src/ramtracker/runtime/pipeline.py:322-330 | a new queue row carries the best case, in the urgent lane exactly when that stays under the ceiling by the margin |
| Runs.CollectedRow | src/ramtracker/runtime/pipeline.py:230-254 | a listing neither new nor cheaper only has its last-seen instant moved; any other leaves its own price, hash and instant; no other row changes |
| Runs.ParserVersionDecides | src/ramtracker/runtime/pipeline.py:368-391 | a cached reading of the running parser or a later one is used as it is, and an older one is as good as none |
| Runs.CachedExactly | src/ramtracker/runtime/pipeline.py:239-266 | what a call leaves cached is the reading as settled by the quantity if the listing was judged, else as first read, at the running version or later |
| Runs.LogGrows | src/ramtracker/runtime/pipeline.py:333-361 | the log grows by at most the alert in flight, only when the collector records it, and feedback never rewrites what was sent |
| Provenance.RunKeepsTrust | src/ramtracker/runtime/pipeline.py:239-251 | in every reachable cache, drains included, an unrejected specification is accepted by the matrix, and multiplies out unless it is the language model's |
| Provenance.EveryAlertIsJustified | src/ramtracker/decide/thresholds.py:56-153 | every alerts row stems from a step whose listing was eligible and a bargain under the specification judged, with the row's own figures between floor and ceiling, above the discount barrier, and coherent off the language-model path |
| Provenance.EveryAlertIsPricedByHint | src/ramtracker/runtime/pipeline.py:278-319 | every row of a reading of several modules with a quantity hint is priced by all modules if several copies were on offer, by the displayed price if it was a lot not read by the unit |
| Provenance.KeywordTextsAreNotAlerted | src/ramtracker/extract/cascade.py:30-32 | over any run whose texts of one hash agree on their keyword, no alert comes from a text with one unless the language model vouched for it |
| References.RunKeepsIntact | src/ramtracker/runtime/pipeline.py:239-257 | every listing and queued hash keeps a specification row, every alert its listing, over all runs |
| References.CycleKeepsIntact | src/ramtracker/runtime/pipeline.py:150-171 | so does every cycle, aborted ones too |
| References.CountsAreGrowth | src/ramtracker/runtime/pipeline.py:164-171 | the counters of new and alerted listings are the growth of the tables, duplicates in a batch included; an aborted cycle loses at most the one listing it stopped on |
| References.QualifiedIsCounted | src/ramtracker/runtime/pipeline.py:164-171 | the third counter is the number of listings looked at and not rejected, and no fewer than those alerted |
| References.ConvertibleCycleCompletes | src/ramtracker/core/money.py:48-57 | a cycle whose listings all have a rate is never aborted, so its counters are exact |
| References.BatchIsRun | src/ramtracker/runtime/pipeline.py:164-171 | an uninterrupted batch is a run of collections, each recorded at once, over a prefix of it, all of it unless aborted |
| References.HashStaysWithText | src/ramtracker/runtime/pipeline.py:434-437 | rows keep naming their own text exactly when the listing is unchanged, new or still carries the text first stored |
| References.QueuedTextKeepsListing | src/ramtracker/runtime/pipeline.py:434-437 | a queued text keeps a listing row exactly when no re-evaluation renames its last one |
| Ratchet.StoredPriceIsRatchet | src/ramtracker/decide/dedupe.py:32-38 | over any run the stored price is the ratchet of the observed prices of that listing |
| Ratchet.RatchetTracksLowest | src/ramtracker/runtime/pipeline.py:230-238 | over any run of positive prices the stored price is one of those observed and (1 - drop%) times it is below every one of them |
| Ratchet.ReevaluationsMoveTheRatchet | src/ramtracker/runtime/pipeline.py:230-253 | the pipeline re-evaluates a stored listing exactly as often as the ratchet is lowered |
| Ratchet.ReevaluationsDecay | src/ramtracker/runtime/pipeline.py:230-253 | k re-evaluations of a listing in a run force its stored price to at most (1 - drop%)^k times the first price seen |
| Ratchet.RatchetNeverRises | src/ramtracker/runtime/pipeline.py:230-238 | the stored price never rises; at or below zero it is frozen |
| Ratchet.ReevaluationsAreBounded | src/ramtracker/runtime/pipeline.py:230-253 | for whole-cent prices the re-evaluations of a run are at most the cents between the first price seen and the stored one |
| Ratchet.AlertsPerListing | src/ramtracker/runtime/pipeline.py:230-275 | a listing is alerted at most once for its first sight and once per re-evaluation, so never before its price drops, whatever a drain resolves meanwhile |
| SpecCache.CacheIsTransparent | src/ramtracker/runtime/pipeline.py:239-251 | quantity verification off, offers whose texts normalise alike read alike: same tables and outcomes as a pipeline calling the cascade each time, with the language model on or off |
| SpecCache.TransparentExactlyWhenFaithful | src/ramtracker/runtime/pipeline.py:239-251 | the cache is transparent for every run over a set of texts and prices if and only if those whose texts normalise alike are read alike, with the language model on or off |
| SpecCache.PricesAreReadAlike | src/ramtracker/extract/cascade.py:66-70 | two prices of one text are read alike if and only if the language model is off, the text settles before the gate, or the prefilter treats both alike |
| SpecCache.TwoPricesReadApart | src/ramtracker/extract/cascade.py:66-82 | such a pair: "RDIMM 16GB" at 33 and at 20 EUR under a ceiling of 2 |
| SpecCache.CachedBasisOnlyClimbs | src/ramtracker/runtime/pipeline.py:278-319 | without drains the cached basis of a text moves only along unknown, lot, unit, and nothing else of it changes |
| SpecCache.TwinIsQueuedExactly | src/ramtracker/runtime/pipeline.py:239-251 | of two listings of one ambiguous text, the second is queued if and only if the prefilter did not reject the first for its price; otherwise it is dropped however cheap |
| LlmQueue.DrainLane | src/ramtracker/runtime/llm_queue.py:109-188 | the drain loops leave exactly the tables and count of the specification function |
| LlmQueue.DeferredIgnoresRemote | src/ramtracker/runtime/llm_queue.py:147-153 | neither the remote key nor the fallback flag can change anything a deferred drain does |
| LlmQueue.DrainRemovesExactly | src/ramtracker/runtime/llm_queue.py:125-188 | a successful drain resolves as many entries as it removes, min(budget, lane size) if and only if every picked text still has a listing row |
| LlmQueue.DrainTouchesOnlyItsPicks | src/ramtracker/runtime/llm_queue.py:158-185 | each picked text with a listing gets a language-model specification the matrix has qualified and leaves the queue; nothing else changes |
| LlmQueue.AnswersGoToTheirTexts | src/ramtracker/runtime/llm_queue.py:156-184 | each is its own answer, position by position, but for its origin and a rejection by the matrix, under the running parser's version |
| LlmQueue.FailedDrainOnlyCounts | src/ramtracker/runtime/llm_queue.py:120-123 | a drain skipped or without a backend resolves nothing and counts one attempt for the rows it bumps |
| LlmQueue.BackendExactly | src/ramtracker/runtime/llm_queue.py:147-153 | when the local server answers a batch, and when the remote one does |
| LlmQueue.DrainsEmptyTheLane | src/ramtracker/runtime/llm_queue.py:125-188 | k successful drains of a fully listed lane of n leave n - min(k * budget, n), and empty it if and only if k * budget >= n |
| Deletion.ScrubPayload | src/ramtracker/runtime/ebay_deletion.py:102-112 | the payload is seller-free afterwards, every other top-level field kept; it raises exactly for a frame that does not decompress |
| Deletion.ErasureCoversExactly | src/ramtracker/runtime/ebay_deletion.py:87-99 | after a committed deletion no eBay row keeps the name, each that had it keeps every column but seller and payload, every other row is untouched, and the event counts those rows |
| Deletion.RaisesExactly | src/ramtracker/runtime/ebay_deletion.py:102-112 | it raises exactly for an unseen id and a corrupt payload among those rows |
| Deletion.Scrub | src/ramtracker/runtime/ebay_deletion.py:87-99 | the row loop scrubs exactly the seller's eBay rows and counts them, unless one of their payloads is corrupt |
| Deletion.Process | src/ramtracker/runtime/ebay_deletion.py:63-84 | one transaction: nothing for a seen id, a rollback for a corrupt payload, otherwise scrubbed rows plus one event with their number |
| Deletion.DrainQueue | src/ramtracker/runtime/ebay_deletion.py:160-169 | the drain loop commits each well-formed entry before its id joins the list to acknowledge; an exception ends it |
| Deletion.DrainRaisesExactly | src/ramtracker/runtime/ebay_deletion.py:160-177 | a drain raises, and acknowledges nothing, if and only if its answer names a seller with a corrupt payload under an id neither committed nor earlier in it; otherwise exactly the ids named are committed |
| Erasure.ErasureIsPermanent | src/ramtracker/runtime/pipeline.py:434-437 | every row a deletion covered keeps a NULL seller and a seller-free payload through all later steps |
| Erasure.ScrubbedRowsAreConserved | src/ramtracker/runtime/ebay_deletion.py:63-84 | the rows counted by all events are the distinct rows ever erased |
| Erasure.ErasedByExactly | src/ramtracker/runtime/ebay_deletion.py:63-99 | the rows a step erases are the eBay rows of that seller, for a new id and readable payloads |
| Protocol.ReachableIsSafe | src/ramtracker/runtime/ebay_deletion.py:131-182 | in every interleaving each notification id has at most one event, only queued ids are processed, acknowledgements name only committed ids |
| Protocol.UnprocessedLeavesOnlyByExpiry | deploy/worker/src/worker.js:281-292 | in every safe state, so every reachable one, an id leaves the queue only by its own expiry or after its event was committed |
| Protocol.OnlyNotifiedAreErased | deploy/worker/src/worker.js:238-248 | no seller is erased without a queued notification for that id and name |
| Protocol.ReachableErasure | src/ramtracker/runtime/ebay_deletion.py:63-84 | whatever is delivered how often, the events count exactly the distinct rows erased and each is still erased |
| Protocol.ProcessesFollowTheLoop | src/ramtracker/runtime/ebay_deletion.py:160-169 | in every interleaving a drain part-way has gathered exactly the ids the loop would have |
| Protocol.UndisturbedDrainClears | src/ramtracker/runtime/ebay_deletion.py:160-177 | a drain that is not disturbed and does not raise leaves the tables of the loop, acknowledges every well-formed entry it pulled, and once that is delivered none of those ids is queued |
| Protocol.CorruptPayloadBlocks | src/ramtracker/runtime/ebay_deletion.py:102-108 | a seller's deletion that raises for a corrupt payload keeps raising over any further run |
| Protocol.DrainErasesSellers | src/ramtracker/runtime/ebay_deletion.py:160-169 | a completed drain leaves no row of a seller it was told to erase under a fresh id |
| Protocol.DrainIsIdempotent | src/ramtracker/runtime/ebay_deletion.py:71-77 | pulling the same entries again changes nothing and acknowledges them again |
| EndToEnd.ListedClosureIsKept | deploy/worker/src/worker.js:214-252 | a closure whose seller every list names that the store held within the horizon (five minutes, or since the last refresh if the read fails, plus the lag of reads) is queued if its put succeeds, and at every later moment it is still queued or its event is committed, unless that entry expired |
| EndToEnd.TrackedSellerIsKept | src/ramtracker/runtime/ebay_deletion.py:185-239 | the same for a seller with rows once a publication naming them was accepted, after whatever earlier lists: from five minutes and the lag on, for every closure that meets a fresh or refreshed list, until a drain erases their account |
| EndToEnd.DroppedWasUnlisted | deploy/worker/src/worker.js:238-252 | a notice eBay need not deliver again is queued unless a list the store held within the horizon lacks the name |
| EndToEnd.SellersExactly | src/ramtracker/runtime/ebay_deletion.py:201-209 | the published names are exactly the non-empty sellers of eBay rows |
| Allowlist.Isolate.IsTracked | deploy/worker/src/worker.js:55-71 | the cache after the call and the answer, for a fresh, stale, failing or empty read |
| Allowlist.ReadExactlyWhenOld | deploy/worker/src/worker.js:55-71 | a list up to five minutes old is used without a read; an older one is reread, and kept if the read brings none |
| Allowlist.Publisher.Push | src/ramtracker/runtime/ebay_deletion.py:185-239 | a request exactly when the marker differs from the sellers; the marker moves only on a confirmed one |
| Allowlist.DropsOnlyWhatARecentListLacks | deploy/worker/src/worker.js:55-71 | with any number of isolates and reads up to a lag behind, a list that is fresh or refreshed drops a notification only if some list lacks the name that the store held within five minutes plus that lag, never before a first publication |
| Allowlist.DropIsExplained | deploy/worker/src/worker.js:55-71 | whatever the read does, the list to blame was held since the isolate's last refresh, less the lag |
| Allowlist.SyncedExactly | src/ramtracker/runtime/ebay_deletion.py:208-239 | over any run the marker tells the truth if and only if there is none or the last accepted publication was confirmed |
| Allowlist.MatchingMarkerIsTrueExactly | src/ramtracker/runtime/ebay_deletion.py:208-239 | when the marker matches the current sellers, the store holds exactly them if and only if the last accepted publication was confirmed |
| Allowlist.LostResponseFoolsTheMarker | src/ramtracker/runtime/ebay_deletion.py:223-239 | for any two lists, a run in which the marker matches and the store holds the other one |
| Der.ReadInteger | deploy/worker/src/worker.js:141-153 | one integer field: tag, content, zero-stripping loop, bound and padding, at any offset |
| Der.DerToP1363 | deploy/worker/src/worker.js:136-160 | the offset-mutating decoder computes the field-by-field specification |
| Der.HalfKeepsValue | deploy/worker/src/worker.js:147-152 | a half is accepted exactly when its unsigned value fits, and keeps that value on exactly the given octets |
| Der.DecodeExactly | deploy/worker/src/worker.js:136-160 | acceptance if and only if both tags are in place and both values are below 256^size; the halves carry the same values |
| Der.DecodeEncoded | deploy/worker/src/worker.js:136-160 | every pair that fits, encoded as an Ecdsa-Sig-Value, decodes to its two big-endian forms |
| Der.DecodeSeparates | deploy/worker/src/worker.js:136-160 | distinct encoded pairs decode differently |
| Der.PrefixDecodesExactly | deploy/worker/src/worker.js:141-153 | a prefix of an encoded signature is accepted if and only if it reaches past the second tag, and then as the first integer and the second one shifted right by the content octets cut off |
| Breaker.Breaker.Allow | src/ramtracker/runtime/breaker.py:38-45 | allowed exactly when no reopening instant lies ahead; an unknown source gets a closed state |
| Breaker.Breaker.IsOpen | src/ramtracker/runtime/breaker.py:73-79 | open from the third failure of a streak until the next attempt is due |
| Breaker.Breaker.RecordFailure | src/ramtracker/runtime/breaker.py:55-71 | one more failure, the next attempt after the jittered backoff, "just opened" exactly at the third |
| Breaker.Breaker.RecordSuccess | src/ramtracker/runtime/breaker.py:47-53 | that source's state is closed, the others untouched |
| Breaker.Breaker.RunSource | src/ramtracker/runtime/pipeline.py:109-146 | one scheduled cycle's effect on the breaker, and the announcement exactly for a block that is the third failure of its streak |
| Breaker.SourcesAreIndependent | src/ramtracker/runtime/breaker.py:35-36 | in any mix of sources, a source's state is that of its own history |
| Breaker.FailuresAreSpacedOut | src/ramtracker/runtime/breaker.py:38-71 | the n-th consecutive failure comes at least 0.85 * (15 + 60 + 240 + 720 (n - 4)) minutes after the first, and a streak of three or more reported "just opened" exactly once |
| Breaker.RetriedInTime | src/ramtracker/runtime/breaker.py:38-71 | a cycle that comes the longest wait after the last failure (17.25, 69, 276, then 828 minutes) is never skipped: success closes the streak, a failure of any kind lengthens it, a changed schema leaves it |
| Breaker.RetriedInTheBreaker | src/ramtracker/runtime/breaker.py:38-71 | and the breaker's own state changes accordingly |
| Breaker.DelaysGrow | src/ramtracker/runtime/breaker.py:17-62 | whatever the jitters, delays strictly grow over the first four failures and level off after |

## Left out

- Collectors, OAuth, HTML and JSON scraping: a collector step is "some listing arrives", a fetch is one of five results.
- Regular-expression semantics beyond digit runs: which strings the count, total and marker expressions match is given by the match lists; the plain-multiplier digits and number words are not re-read from characters.
- The part-number tables and the keyword lists: the first recognised reference and the first rejecting keyword are part of the scanned text.
- The order of the memory-kind and speed expressions, ranks, part number, country and url columns: they reach no decision modelled here.
- Unicode normalisation, and upper-casing of currency codes: a listing carries its normalised text and its upper-cased code; seller names are lowered in A to Z and trimmed of spaces.
- The language-model callback inside the cascade: the pipeline never passes one, so that stage answers low confidence. The model's answers in a drain are an argument, and a batch that does not answer every listing is outside the success lemmas.
- Binary floating point: percentages, discounts and the interpolation weight are exact; Decimal's 28 digits are treated as exact.
- Sub-second text comparison of instants: instants are compared as numbers, which is the order of the ISO strings the program writes.
- The text order of `best_case` in the queue: a drain may pick any entries of its lane.
- The urgent lane's liveness: no caller drains it, so nothing is claimed about it emptying unless drains are made.
- `market_stats` as a table, the SQL filter on the window and the buckets, and observation mode's own criterion: the index and the mode are inputs of a cycle, the filtered rows inputs of the statistics. `ComputeStats` therefore takes rows already limited to the given buckets and positive totals.
- `source_runs`, run reports, technical alerts, templates, logging, watchdog, replay, settings.
- The FastAPI deletion end point and the challenge response; signature verification beyond decoding; the 412 answer.
- Nested seller data deeper than the top level of a payload, and the seller inside an alert fingerprint: the program does not scrub them either.
- A notification whose id is the reserved key of the seller list, two RamTracker processes publishing at once, and clocks of isolates that disagree: the filter's clock is one and monotone.
- AlertedAtMostOnce: for EUR listings; a foreign bucket is cut from the converted, rounded price and the drop measured on the displayed one.
- HasDealAtTheTop: with the cost at the largest total not below the plausibility floor; below it only smaller totals or several prices could be deals, and `HasDealExactly` is the test.
- OwnTotalIsHiddenExactly: the totals are the grammar's, the number of modules a price pays for is left open, since the displayed basis is what such a text leaves unknown.
- ReevaluationsAreBounded: for prices in whole cents; without a smallest coin only the geometric decay of `ReevaluationsDecay` holds.
- CacheIsTransparent: without drains and without quantity verification, which overwrite a text's reading on purpose.
- DecodeEncoded: for sizes whose signatures need one length octet (up to 60), which covers the decoder's default of 32.
- Two collectors at once (`run` or `backfill` beside the loop): the cap and the price ladder are proved for one.
- DrainErasesSellers: for an uninterrupted drain that does not raise; interleaved ones are covered by `ReachableErasure`.
