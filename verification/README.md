# FirmScout: a verified model

FirmScout collects firmware and software releases from vendors' pages, weighs what several sources say
about the same product, publishes what passes its checks, and asks a human about the rest. This project
models the parts of it whose guarantees no single function shows, and proves them in Dafny. The file
`dfyconfig.toml` lists the sources, so `dafny verify dfyconfig.toml` checks the whole project.

## What is modelled

**The ingestion, conflict and review protocol** is the core. `Tables.dfy` holds the rows and the ports,
`Ingest.dfy` and `Review.dfy` say as functions on those tables what extraction, validation, publication and
a human's decision do, and `Runs.dfy` lets any of them happen in any order, any number of times: validation
jobs at will, publication jobs once enqueued and then repeatedly, decisions from pages that are up to date
or stale. `Store.dfy` carries the same use cases out the way the Go code does, one write at a time against
repositories in memory with a unit of work around them, and every method there is proved to do exactly what
the functions say, or nothing. The invariants of all runs are in `Coverage.dfy` (the queue answers every open
conflict), `Uniqueness.dfy` (one open conflict a key, one open item a subject), `Provenance.dfy` (histories and
releases), `Causes.dfy` (why a release exists), `Audit.dfy` (audit rows, the latest flag), `Observations.dfy`
(what each source last said), `Idempotence.dfy` (redelivery) and `Parking.dfy` (who waits for a human, and on
whose page); `Scenarios.dfy` holds four short runs that end in what they cannot promise.

What those functions decide and write is said a second time in plain terms, of dates, instants, texts and stored
rows, without the functions themselves, so that each has a meaning apart from its body: `Verdicts.dfy` (when a
validation passes, rejects or asks), `Filed.dfy` (the item it files and the row it leaves), `Disputes.dfy` (what a
conflict records and why it closes), `Announcements.dfy` (its events), `Latest.dfy` (which release is the latest) and
`Origins.dfy` (where every candidate and release comes from, field by field).

The domain rules they rest on are in `Gates.dfy`, `Conflicts.dfy`, `Candidates.dfy`, `Releases.dfy` and `Text.dfy`.

**The robots.txt engine**: `RobotsMatch.dfy` (wildcards, the longest rule, the most specific group),
`RobotsLine.dfy` (what a line says, however it is written) and `RobotsFile.dfy` (reading a body into groups), against
sections 2.2.1 to 2.2.3 of RFC 9309.

**Rate arithmetic**: `RateLimit.dfy` (the token bucket and its eviction) and `Pacing.dfy` (send slots reserved
under a lock by callers that interleave).

**Registry sync**: `Registry.dfy` says what the successive passes compute, `RegistryStore.dfy` is the loops, and
`Keyed.dfy` the tables with natural keys beneath them.

**Dates and text**: `Calendar.dfy` and `Dates.dfy` (partial dates, the history window), `Utf8.dfy` (the
truncators, with section 4 of RFC 3629 as the definition of well-formed text), `Whitespace.dfy` (collapsing and
joining before hashing).

A row's identifier is its position in a table that only grows, so a fresh identifier is the length. Instants
are integers and the zero time is 0. A use-case call is one atomic step, except that a decision may be made
from a page loaded earlier. The source registry, alias resolution, the plausibility of a version step and the
review score are parameters of each call, free to change between calls.

## What the proofs turned up

- **A hint-matched duplicate passes once.** The duplicate and previous-version lookups run only for a product
  the candidate came with. A candidate whose hint is resolved during validation skips them: if the product
  already has that release, the first delivery passes the candidate and enqueues its publication, and the same
  job delivered again rejects it (`Idempotence.HintedDuplicatePassesOnce`, with concrete tables in
  `Idempotence.HintedDuplicateExample`). Validation is idempotent exactly when those lookups would not have
  mattered, which is always so for a candidate that carries its product
  (`Idempotence.ValidatingAgainChangesNothingIff`).
- **An open item can be undecidable.** A human can decide an open item exactly while the conflict it names, if
  any, is open, in every state reached without a page that no longer applied (`Coverage.OpenItemIsDecidableIff`;
  `Coverage.DecidableIff` for any tables). The pipeline closes conflicts on its own and leaves the item: two
  sources disagree, the first moves to the second's version, and the item is open, names the closed conflict and
  can be neither accepted nor rejected (`Scenarios.StrandedItemExample`).
- **A stale page can leave a conflict uncovered.** Resolve guards only the item's state. A page loaded before the
  item came to cover a conflict resolves the item and leaves the conflict open with no open item
  (`Coverage.StalePageUncoversConflict`, on the run of `Scenarios.StalePageExample`);
  `Coverage.DecisionKeepsQueueIff` says exactly when a decision does that.
- **A parked candidate can drop off the queue.** The comment at `internal/application/ingest.go:576-581` says no
  candidate waits for a human with nothing in the queue referencing it. It holds of a run exactly as long as no
  delivery forgets a candidate that only the item it rewrites or resolves names (`Parking.RunsNameTheParkedIff`,
  with `Parking.RoutingKeepsParkedNamedIff` and `Parking.DecisionKeepsParkedNamedIff` for the two steps that
  can). Rejecting one side of a dispute forgets the other (`Scenarios.DecisionForgetsExample`), and so does
  describing the item again after a source moved on to a third version (`Scenarios.ValidationForgetsExample`):
  only a subject that is replaced is released, not a candidate the payload listed.
- **A release without a channel may never hold the channel-less flag**, because an empty channel asks for the
  latest of any channel. A release takes the flag exactly when it is later than every eligible release published
  in its channel, or in any channel if it has none (`Releases.TakesFlagIff`; two such publications are in
  `Releases.ChannellessMayStayUnflagged`). The any-channel answer is right all the same.
- **Eviction is invisible only up to ten minutes' refill.** Under a policy no run of calls, made in order and
  without a reset, can tell the evicting limiter from one that never evicts if and only if the burst is at most ten times the per-minute rate
  (`RateLimit.EvictionIsInvisibleIff`): past that, draining a bucket and coming back just after the time to live
  shows it (`RateLimit.EvictionShows`). Every default policy, and every contracted rate laid over one, is within
  the bound.
- **A comment is out of date.** `collectors/sdk/collector.go:244-250` says TruncateExcerpt can return 4002 bytes;
  the code accounts for the ellipsis and never exceeds 4000 (`Utf8.TruncateExcerpt`). The code is what is
  modelled.

## Model

| member | source | states |
|---|---|---|
| Coverage.RunsKeepTheQueue | internal/application/ingest.go:257-479 | in every state reachable by deliveries whose late decisions, if any, come from pages that still name what their item covers, every open conflict is linked to an open item whose payload names it, one conflict is open a product and channel, item subjects share their conflict's product and channel, and no two open items share a subject |
| Coverage.ValidationKeepsQueue | internal/application/ingest.go:257-387 | one validation keeps all of that, whichever way reconciliation and routing go |
| Coverage.RoutingCompletes | internal/application/ingest.go:407-479 | from a state where only this run's conflict may be uncovered, routing restores the whole invariant, by filing, rewriting or retargeting an item |
| Coverage.ReconcilingAwaits | internal/application/ingest.go:857-937 | reconciliation leaves this run's conflict the one open for the candidate's key, or leaves none open for it |
| Coverage.DecisionKeepsQueueIff | internal/application/review.go:124-252 | a decision keeps the queue invariant if and only if its page named the open conflict, if any, the item covers now; an up-to-date page always does |
| Coverage.ReportedItemCoversCandidate | internal/application/ingest.go:1188-1222 | a validation reports an item exactly when it asks for a human or finds a disagreement; the item is open, names the run's conflict, and is about the candidate or lists it among those in dispute |
| Coverage.DecidableIff | internal/application/review.go:124-252 | some answer to an item goes through if and only if actor and reason are given, the item is open, its candidate exists and is not superseded, and the conflict it names, if any, is still open |
| Coverage.OpenItemIsDecidableIff | internal/application/review.go:157-210 | in every reachable state whose pages still applied an open item can be decided exactly while its conflict is open |
| Coverage.StalePageUncoversConflict | internal/application/review.go:157-210 | a decision from a page that did not yet name the conflict leaves it open and uncovered |
| Scenarios.StalePageExample | internal/application/review.go:157-210 | a run of two sources, ending in a decision from a page that went stale, which leaves the conflict open and uncovered |
| Scenarios.StrandedItemExample | internal/application/ingest.go:921-937 | a run in which the first of two disagreeing sources moves to the second's version: the item stays open, its conflict is closed, and no decision on it succeeds |
| Parking.RoutingKeepsParkedNamedIff | internal/application/ingest.go:407-479 | after routing every parked candidate is named by an open item if and only if those named by no item but the rewritten one are in the new payload, are its subject, or were the subject given up |
| Parking.ValidationKeepsParkedNamedIff | internal/application/ingest.go:257-387 | one validation keeps every parked candidate named exactly when its routing, if any, forgets none |
| Parking.DecisionKeepsParkedNamedIff | internal/application/review.go:124-252 | after a decision every parked candidate is named by an open item if and only if nobody but the decided candidate was named by that item alone |
| Parking.RunsNameTheParkedIff | internal/application/ingest.go:576-581 | a run keeps every parked candidate named throughout exactly when none of its deliveries forgets one |
| Scenarios.DecisionForgetsExample | internal/application/review.go:162-190 | a run in which rejecting one side of a dispute leaves the other parked and named by no open item |
| Scenarios.ValidationForgetsExample | internal/application/ingest.go:407-479 | a run in which describing an item again leaves the candidate it listed before parked and named by no open item |
| Verdicts.ValidationDecides | internal/application/ingest.go:721-853 | a validation rejects exactly when the candidate names no product, lacks a version or evidence, comes from a source that may not be collected from, repeats a published version or is dated before the bound; else it passes exactly when its product is unambiguous, its date not beyond now and the tolerance, its step from the latest published version plausible, its source official, its confidence at or above the threshold, 0.85 when unset, and no source of its rank or above claims another version |
| Verdicts.JudgedBy | internal/domain/validation.go:196-304 | the same for the ten gates alone, of the candidate and what is known about it |
| Verdicts.ValidationSucceedsIff | internal/application/ingest.go:857-937 | with sound observations and a started clock a validation fails only for an unknown candidate or source, or over a white product it would record |
| Verdicts.HeardMeans | internal/application/ingest.go:801-853 | a claim is heard exactly when the source may be collected from and a product is settled, and it is the candidate's own words, observed now |
| Filed.ItemMeans | internal/application/ingest.go:407-525 | the item a validation leaves names the first gate to object, the disputed versions, sources and candidates as the stored claims have them, its kind by what was asked, and its priority; an item in place keeps kind and subject exactly while its subject is still argued about |
| Filed.RowMeans | internal/application/ingest.go:276-337 | the candidate's row ends with the settled product, each gate's own outcome in order up to the first refusal, and the state the verdict leads to |
| Filed.DuplicateIsVerified | internal/application/ingest.go:308-320 | a validation refreshes the verification time of a published duplicate and changes the catalogue in nothing else |
| Disputes.ConflictMeans | internal/application/ingest.go:857-937 | a conflict is named exactly when a collectable source is contradicted from no lower a rank; its row then records the versions, sources and rank of the claims stored and is linked to the item; otherwise an open one of the key is closed, by authority or by agreement |
| Disputes.OpenConflictTellsLastArgument | internal/application/ports.go:449-453 | over every run an open conflict's product, channel, versions, sources, rank and time are those of the last validation caught up in it |
| Announcements.EventsTellChanges | internal/application/ingest.go:321-387 | a validation announces an event exactly when it is true of what changed: a state reached, a conflict opened, a conflict closed |
| Uniqueness.RunsKeepOneOpen | internal/application/ingest.go:407-479 | over every run, stale decisions included, at most one conflict is open a product and channel and at most one open item is about a subject |
| Uniqueness.RoutingKeepsOneOpen | internal/application/ingest.go:431-463 | creation and retargeting alike never give a subject a second open item |
| Idempotence.ValidatingAgainChangesNothingIff | internal/application/ingest.go:257-387 | a second delivery at the same clock reading succeeds with the same tables, decision, conflict and item and no event, if and only if looking up the settled product's duplicate and previous version would have changed neither the verdict nor a verification time; so for every candidate that carries its product |
| Idempotence.RedeliveryChangesNothing | internal/application/ingest.go:246-256 | in every reachable state a repeated validation job of a candidate with a product is a no-op |
| Idempotence.HintedDuplicatePassesOnce | internal/application/ingest.go:765-795 | a duplicate whose product only its hint names passes and is queued for publication, and is rejected by the next delivery |
| Idempotence.HintedDuplicateExample | internal/application/ingest.go:765-795 | concrete tables on which that happens |
| Idempotence.RoutingAgain | internal/application/ingest.go:407-479 | routing a decision the queue already describes changes nothing and releases nobody |
| Idempotence.ReconcilingAgain | internal/application/ingest.go:857-937 | reconciling the same story again finds the conflict it left, or none, writes the same rows and announces nothing |
| Idempotence.SecondAssessment | internal/application/ingest.go:801-853 | assessing again after the claim was recorded gives the same subject and verdict, and nothing left to record |
| Provenance.PublishedExactlyOnce | internal/application/ingest.go:1005-1137 | in every reachable state a candidate's history is a path of the declared graph, it is published exactly when exactly one release cites it, and validated only with ten passes, in order, as its recorded verdict |
| Provenance.PublishedIsFinal | internal/domain/candidate.go:29-41 | whatever is delivered, published is never left and the release a candidate became never changes |
| Provenance.PublicationKeepsRows | internal/application/ingest.go:1005-1137 | publication keeps releases and published candidates in one-to-one correspondence |
| Provenance.HistoriesReadSo | internal/domain/candidate.go:29-41 | over every run publication follows only validation or a wait for a human, nothing but supersession follows it, and a rejection leads only back to a human |
| Origins.ReleasesAreSourced | internal/application/ingest.go:1048-1079 | over every run each release has one mapping and carries the version, type, channel, date, evidence and confidence of the candidate it cites, for that candidate's product |
| Origins.ReleasesAreEntered | internal/application/ingest.go:1048-1066 | each release was entered by some delivery, at its time and under the vendor its candidate's source had then |
| Origins.PublicationWrites | internal/application/ingest.go:1097-1117 | everything one publication writes, field by field, and nothing else |
| Origins.PublishesIff | internal/application/ingest.go:1005-1071 | publication succeeds exactly for a published candidate, writing nothing, or for a publishable one, in terms of its state, product, source, version, evidence, confidence and type |
| Origins.RowsAreCollectedOnce | internal/application/ingest.go:126-205 | over every run each candidate row is what one extraction handed over, and no two rows of a source share a key |
| Origins.ExtractionAdds | internal/application/ingest.go:161-185 | extraction adds a row exactly for a sound candidate whose source has none under its key |
| Causes.EveryReleaseHasACause | internal/application/ingest.go:297-360 | over every run a publication job exists only for a candidate some earlier validation passed through all ten gates, and a release only for such a one or for one a human accepted by name |
| Causes.WhatAStepAdds | internal/application/ingest.go:321-337 | one delivery adds jobs only by a passing validation and releases only by a queued job or an acceptance |
| Audit.ResolvedExactlyOnce | internal/application/review.go:157-237 | over every run, however decisions race, a resolved item has exactly one audit row and any other item none |
| Audit.DecisionRecords | internal/application/review.go:124-237 | the audit row of a decision gives actor, reason, answer and time, the candidate's state in the tables before and after, and the release an accepted candidate is linked to |
| Audit.DecisionCloses | internal/application/review.go:157-210 | a decision closes its item and the conflict named in the same words, by the same person, at the same time, and touches no other |
| Audit.DecisionSucceedsIff | internal/application/review.go:124-210 | from whatever page, exactly which decisions go through |
| Audit.AuditTellsTheQueue | internal/application/review.go:157-237 | over every run every audit row agrees with its item: same person, time and words |
| Audit.SecondReviewerIsRefused | internal/application/ports.go:332-334 | after one decision on an item commits, every further one on it fails, whatever page it was made from |
| Audit.LatestOverRuns | internal/application/ingest.go:1081-1113 | the invariant of the latest flag holds in every reachable state |
| Latest.LatestIsNewest | internal/domain/release.go:182-205 | over every run the latest answer for a product, in a channel or any, is on offer and dated if anything on offer is, no earlier than any, and where dates are level or missing first observed no earlier; and there is none exactly when nothing is on offer |
| Latest.NewestTakesFlag | internal/application/ingest.go:1081-1113 | over every run a publication is flagged exactly when it may be the latest and is newer, in dates and instants, than all on offer in its channel, or any if it has none; only the flag it replaces moves |
| Releases.PublishKeepsLatest | internal/application/ingest.go:1081-1113 | publishing any release for any product keeps: one flag at most a product and channel, flags on eligible releases only, and every eligible release matched or beaten by a flagged one of its product, and of its channel when named |
| Releases.LatestIsMaximum | internal/application/ports.go:221-246 | the latest answer for a product, in a named channel or any, is a flagged comparison maximum of all eligible releases published there, and there is none exactly when there are none |
| Releases.TakesFlagIff | internal/application/ingest.go:1081-1095 | while the flags are right, an eligible release takes the flag if and only if it is later than every eligible release of its product published in its channel, or in any channel if it has none |
| Releases.ChannellessMayStayUnflagged | internal/application/ingest.go:772-787 | two publications after which the only channel-less release of a product is eligible and unflagged |
| Releases.ComparisonIsTotalPreorder | internal/domain/release.go:182-205 | the comparison is antisymmetric in sign and transitive in not-earlier-than |
| Releases.LatestAmong | internal/application/ports.go:221-246 | the rows read yield a flagged, unwithdrawn release of the product, in the channel if one is named, that no other such row beats |
| Releases.DuplicateAmong | internal/application/ports.go:206-208 | a duplicate is found exactly when some mapping has the product, channel and normalised version |
| Observations.StoredIsMaximumOfHeard | internal/application/ingest.go:857-873 | over every run, whatever an eligible source once claimed, the table ends with one row for its source, product and channel, and the claim is not later than it |
| Observations.StoredIsAsRecentAsHeard | internal/domain/conflict.go:94-110 | the same in dates and instants: the one stored row of a heard claim's key is dated if the claim is, no earlier, and where dates are level or missing observed no earlier |
| Observations.StoredWasHeard | internal/application/ingest.go:863-870 | over every run each stored row is a claim some validation in the run heard an eligible source make: with the bound above, it is the maximum of what was heard |
| Observations.RowsTellWhenFirstHeard | internal/application/ingest.go:801-853 | over every run a stored row's first-seen instant is that of the first validation that heard its source about its product and channel |
| Observations.ValidationSucceeds | internal/application/ingest.go:857-937 | in every state with sound observations a validation of a stored candidate of a registered source cannot fail: every conflict it opens passes Validate |
| Observations.ValidationKeepsObservations | internal/application/ingest.go:863-870 | stored claims stay one a key, storable, and about the candidate they cite |
| Conflicts.NoDisagreementIsSilent | internal/domain/conflict.go:160-211 | of two eligible sources that disagree, at least one is left unresolved and neither sees no conflict |
| Conflicts.AssessmentIgnoresOrder | internal/domain/conflict.go:160-211 | the verdict depends only on which claims of other sources there are, not on their order or on the subject's own row |
| Conflicts.VerdictMembers | internal/domain/conflict.go:160-211 | the verdict is unresolved exactly when some claim contests it from no lower authority, and its lists hold exactly the contesting versions |
| Conflicts.OpenedConflictIsValid | internal/domain/conflict.go:241-269 | the conflict an unresolved verdict gives rise to names two versions and two sources at least, and passes Validate |
| Conflicts.CollectVerdict | internal/domain/conflict.go:160-211 | the one-pass loop computes the verdict |
| PartialDates.LaterIsStrictWeakOrder | internal/domain/conflict.go:94-110 | the recency order of observations is irreflexive, transitive, and so is being level |
| Text.LessIsLexicographic | internal/domain/conflict.go:298-316 | the order is the dictionary's: a proper prefix first, else the first character that differs decides |
| Text.CollectSortedSet | internal/domain/conflict.go:298-316 | the loop with its seen map yields the sorted set |
| Text.SortedSetIsCanonical | internal/domain/conflict.go:298-316 | the result is strictly ascending and holds exactly the non-blank members |
| Text.SortedSetIgnoresOrder | internal/domain/conflict.go:292-297 | lists with the same members give the same result |
| Gates.RunValidationGates | internal/domain/validation.go:166-304 | the ten blocks with their early returns compute the verdict of running the gates in order until one rejects |
| Gates.VerdictMeaning | internal/domain/validation.go:166-304 | rejected exactly when some gate rejects, passed exactly when all ten pass, and exactly then the record is ten passes in order |
| Gates.RunGatesGiveReason | internal/domain/validation.go:170-193 | the reason given is the gate that rejected, or the last of those that asked for a human |
| Gates.RunGatesResults | internal/domain/validation.go:170-193 | every recorded result is its gate's own outcome at its own place, and nothing is recorded after a rejection |
| Gates.GateIndex | internal/domain/validation.go:48-55 | the scan finds the gate's place in the order |
| Candidates.PathToArrivesOrStays | internal/application/ingest.go:663-687 | the walk follows declared edges, arrives at a verdict or does not set out, does the latter exactly in the listed cases, and has nothing left to do a second time |
| Candidates.WalkIsLegal | internal/application/ingest.go:671-686 | whatever chain is offered, the states kept form a declared path |
| Ingest.RowsAfterValidation | internal/application/ingest.go:277-289 | validation leaves every candidate's claim as it was, and fills in at most an absent product |
| Ingest.OnlyEligibleReachReview | internal/domain/validation.go:217-224 | a candidate that is not rejected comes from a source that may be collected from |
| Store.Repositories.ValidateCandidate | internal/application/ingest.go:257-387 | the use case, write by write, leaves exactly the specified tables, events and report, or on failure the tables it found |
| Store.Repositories.WriteVerdict | internal/application/ingest.go:276-360 | its writes before the queue: product, verdict, observation, conflict, verification, states, job |
| Store.Repositories.BuildContext | internal/application/ingest.go:721-853 | the lookups assemble the specified match, context and assessment |
| Store.Repositories.ReconcileConflict | internal/application/ingest.go:857-937 | records the claim and opens, refreshes or closes the conflict as specified |
| Store.Repositories.RouteToReview | internal/application/ingest.go:407-479 | creates or rewrites one item, links it and releases the superseded candidate as specified |
| Store.Repositories.DesiredItem | internal/application/ingest.go:482-525 | the item this run would file |
| Store.Repositories.ReleaseSuperseded | internal/application/ingest.go:582-610 | rejects a parked candidate the queue stopped naming, and no other |
| Store.Repositories.Transition | internal/application/ingest.go:645-658 | one state update a step of the walk, and whether there was any |
| Store.Repositories.PublishRelease | internal/application/ingest.go:1005-1137 | publishes once, clears and sets the flag, and refuses what the source refuses, changing nothing |
| Store.Repositories.Decide | internal/application/review.go:124-252 | resolves, publishes or rejects, closes the conflict and audits, or changes nothing at all |
| Store.Repositories.ExtractCandidate | internal/application/ingest.go:126-204 | stores a valid candidate once a source and dedupe key |
| Store.FindPath | internal/application/ingest.go:663-687 | the loop computes the walk |
| Store.IsStillInDispute | internal/application/ingest.go:622-638 | the scan decides whether an item's subject is still contested |
| Store.CollectDisputing | internal/application/ingest.go:1213-1222 | the candidates behind every other eligible claim, and the subject's own |
| Store.FindReviewKind | internal/application/ingest.go:1153-1170 | the kind of the first gate that asked for a human |
| Store.FindFailingGate | internal/application/ingest.go:1176-1183 | the first gate that did not pass |
| Tables.ClaimsFor | internal/application/ports.go:443-447 | exactly the stored claims of the product and channel, joined with what the registry says of their sources now |
| Tables.OpenConflictFor | internal/application/ports.go:467-469 | an open conflict of the key, or proof that there is none |
| Tables.FindOpenBySubject | internal/application/ports.go:336-344 | an open item of the subject, or proof that there is none |
| RobotsMatch.RobotsPathMatch | internal/adapters/fetch/robots.go:383-424 | the greedy scan says yes exactly when the non-empty pattern matches: some choice of strings for its stars makes it a prefix of the path, or the whole path when it ends in a dollar |
| RobotsMatch.SimplePatterns | internal/adapters/fetch/robots.go:383-424 | patterns with at most one star, with or without a dollar, said as prefixes, suffixes and equality |
| RobotsMatch.FirstOccurrenceSuffices | internal/adapters/fetch/robots.go:412-417 | taking the first occurrence of a segment loses no match as long as something may follow it |
| RobotsMatch.MatchingIsLaying | internal/adapters/fetch/robots.go:392-392 | choosing strings for the stars comes to laying the split segments out along the path |
| RobotsMatch.Allows | internal/adapters/fetch/robots.go:360-379 | a path is allowed exactly when every Disallow that matches it is answered by an Allow at least as long |
| RobotsMatch.SelectGroup | internal/adapters/fetch/robots.go:328-354 | the first group naming the crawler with the longest agent, else the first wildcard group, else none |
| RobotsLine.LineMeans | internal/adapters/fetch/robots.go:259-309 | a line gives a directive exactly when it can be written as a field in any letter case, a colon and a value, with any white space around them and any comment after, that say it; any other line gives none |
| RobotsFile.ParseRobots | internal/adapters/fetch/robots.go:251-309 | the line loop computes the reading of the classified lines |
| RobotsFile.GroupsHoldTheirLines | internal/adapters/fetch/robots.go:273-304 | there are as many groups as are started, each holding exactly the agents and rules of its own lines in order |
| RobotsFile.SitemapsAreKept | internal/adapters/fetch/robots.go:304-305 | the addresses on sitemap lines are kept in order |
| RobotsFile.NearestAgentDecides | internal/adapters/fetch/robots.go:284-293 | a rule belongs to the group of the nearest agent line before it, and to none when there is none |
| RobotsFile.AgentsShareGroupIffUnruled | internal/adapters/fetch/robots.go:274-283 | two agent lines share a group exactly when no rule or crawl-delay stands between them |
| RobotsFile.PrintedFilesAreReadBack | internal/adapters/fetch/robots.go:251-309 | reading what a canonical printer writes gives the same groups back |
| RateLimit.TokenBucketLimiter.Allow | internal/adapters/httpapi/ratelimit.go:158-200 | sweeps, refills, takes or denies and describes the bucket as specified |
| RateLimit.TokenBucketLimiter.SweepLocked | internal/adapters/httpapi/ratelimit.go:210-224 | drops exactly the idle buckets when a sweep is due, and resets a map still over its ceiling |
| RateLimit.EvictionIsInvisible | internal/adapters/httpapi/ratelimit.go:158-224 | the evicting limiter decides as one that never evicts, over every run with a clock that does not go back, one policy a key, bursts of at most ten times the per-minute rate and no reset; tokens stay between none and the burst |
| RateLimit.EvictionIsInvisibleIff | internal/adapters/httpapi/ratelimit.go:135-224 | under a valid policy the evicting limiter decides every run made in order and without a reset as one that never evicts if and only if the burst is at most ten times the per-minute rate |
| RateLimit.EvictionShows | internal/adapters/httpapi/ratelimit.go:210-224 | past that bound, draining the bucket and calling once just after the time to live is decided differently, without any reset |
| RateLimit.IdleMeansFullIff | internal/adapters/httpapi/ratelimit.go:138-141 | idle past the time to live means full exactly when the burst is at most ten times the per-minute rate |
| RateLimit.CallsAreRateBounded | internal/adapters/httpapi/ratelimit.go:158-200 | of one key's calls between s and t at most Burst + (t - s) x PerMinute / 60 are allowed |
| RateLimit.RetryAfterIsEnough | internal/adapters/httpapi/ratelimit.go:183-190 | a denied caller that waits as told is allowed, whatever other keys did, evictions and resets included |
| RateLimit.RetryAfterIsLeast | internal/adapters/httpapi/ratelimit.go:183-190 | after whole seconds a denied caller's bucket holds a token if and only if they are at least as many as it was told |
| RateLimit.RemainingIsExact | internal/adapters/httpapi/ratelimit.go:191-194 | of further calls made at once exactly the remaining number is let through, while the map is within its ceiling |
| RateLimit.ResetIsWhenFull | internal/adapters/httpapi/ratelimit.go:195-198 | the reset told is the first instant at which the bucket, left alone, is full |
| RateLimit.ContractedRateIsInForce | internal/adapters/httpapi/middleware.go:567-582 | which configured policy applies, and that a positive contracted rate replaces its rate and caps its burst |
| RateLimit.MapStaysSmall | internal/adapters/httpapi/ratelimit.go:210-224 | the map never holds more than maxEntries + 1 buckets, whatever the calls |
| RateLimit.MiddlewarePoliciesAreBounded | internal/adapters/httpapi/middleware.go:567-582 | every policy built from the defaults, with any contracted rate, is valid and within the burst bound |
| Pacing.SlotsAreSpacedAndKept | internal/adapters/fetch/fetcher.go:574-597 | under any interleaving each slot comes at least the interval of every earlier one of its host after it, and no request, a host's first included, starts before its slot |
| Pacing.SlotIsEarliest | internal/adapters/fetch/fetcher.go:578-585 | under any interleaving a slot is the caller's own reading or the instant some earlier reservation of the host ends |
| Pacing.InFlightIsCapped | internal/adapters/fetch/fetcher.go:548-569 | requests in flight to a host never exceed the cap |
| Pacing.StartsAreRateBounded | internal/adapters/fetch/fetcher.go:548-597 | with a minimum interval, by time T at most 1 + (T - t0) / interval requests to a host have started, t0 being its first slot, and none before t0 |
| Pacing.HostGate.TryEnter | internal/adapters/fetch/fetcher.go:548-563 | the caller gets through exactly when fewer callers than the cap hold the host, is then one of the holders, and the holders never exceed the cap; the maps stay those of the run of the moves made |
| Pacing.HostGate.Pace | internal/adapters/fetch/fetcher.go:564-597 | without an interval the caller may send at once; with one it waits for a slot no earlier than now and clear of every earlier reservation of the host |
| Pacing.HostGate.Delay | internal/adapters/fetch/fetcher.go:255-255 | honouring a crawl-delay reserves such a slot before a place is taken |
| Pacing.HostGate.Leave | internal/adapters/fetch/fetcher.go:562-567 | a caller that is done, or gave its wait up, stops holding the host, and nobody else does |
| Registry.SyncIsIdempotent | internal/application/registry.go:139-533 | a successful sync, whatever its documents repeat, succeeds again at any later time, keeps every row's identifier and adds none, and leaves the database as it was, seen by slug |
| Registry.SyncIgnoresOrder | internal/application/registry.go:139-533 | for distinct documents neither success nor the database seen by slug depends on their order |
| Registry.SyncSucceedsIff | internal/application/registry.go:139-533 | a sync of any documents succeeds exactly when every document is valid and refers only to what is stored or declared somewhere in the list |
| Registry.ProductAfter | internal/application/registry.go:301-438 | a declared product ends with exactly its document's vendor, family, aliases and outgoing edges; an undeclared one is as it was |
| Registry.SourceAfter | internal/application/registry.go:441-508 | a source reads as its document says, but the change-detection state of one that was there is never altered, nor its health once past discovered |
| Registry.SourceStateMeans | internal/application/registry.go:441-508 | a new source is discovered and due at once unless its document says otherwise; a known one keeps its detection state, and its health once past discovered |
| Registry.FoldingSourcesAgain | internal/application/registry.go:441-508 | however often documents declare one source, applying them all again leaves it as it was: health sticks at the first value past discovered and detection state is kept |
| Registry.CategoryAfter | internal/application/registry.go:195-259 | a declared category ends with exactly its document's parent, or none |
| Registry.VendorAfter | internal/application/registry.go:148-178 | a declared vendor reads as its document says and keeps when it was created |
| Registry.VendorIsStamped | internal/application/registry.go:148-178 | a declared vendor is stamped with the time of the sync, and any other is untouched |
| Registry.FamilyAfter | internal/application/registry.go:261-290 | likewise for the families of a vendor |
| Registry.SyncStaysSound | internal/application/registry.go:139-533 | whatever is synced, natural keys stay unique and references stay references to rows |
| Registry.DedupedMeans | internal/application/registry.go:352-370 | each normalised alias of a document is kept exactly once and nothing else is |
| Registry.DedupedKeepsFirst | internal/application/registry.go:352-370 | of spellings that share a normalised form the first in the document is kept |
| RegistryStore.Database.Execute | internal/application/registry.go:139-533 | the loops succeed exactly when the passes do and then leave what they specify |
| RegistryStore.Database.SyncProducts | internal/application/registry.go:301-370 | the product loop, with its alias loop, is the product pass |
| RegistryStore.Database.LinkProducts | internal/application/registry.go:401-438 | the relationship loop is the relationship pass |
| RegistryStore.Database.SyncSources | internal/application/registry.go:441-508 | the source loop is the source pass |
| Calendar.RealDatesRoundTrip | internal/domain/partialdate.go:57-62 | a real date is the date of its own day |
| Calendar.MonthIsAStretch | internal/domain/partialdate.go:192-195 | the days of a month run from its first to the day before the next one's first, whatever its length |
| Calendar.FixedPoints | internal/domain/partialdate.go:57-62 | where Unix time starts, the 400-year cycle, and which century years are leap |
| Dates.ExactDatesAreReal | internal/domain/partialdate.go:53-64 | an exact date is accepted exactly when it is a real day of a year in range |
| Dates.BuiltIff | internal/domain/partialdate.go:53-89 | the constructors build exactly the dates anchored on the first day they could denote, in a year in range |
| Dates.StoredDatesRoundTrip | internal/domain/partialdate.go:95-123 | rebuilding a date from its stored anchor and precision gives it back |
| Dates.RebuiltDatesAreAnchored | internal/domain/partialdate.go:105-118 | no stored anchor and precision rebuild into a badly anchored date |
| Dates.DenotesAnchorToPeriodEnd | internal/domain/partialdate.go:188-201 | a date denotes exactly the days from its anchor to its period's end, leap years included |
| Dates.PrintedDatesParse | internal/domain/partialdate.go:206-268 | parsing what a built date prints gives it back |
| Dates.ParsedDatesPrint | internal/domain/partialdate.go:242-268 | printing what any accepted string parses to gives the string back, trimmed |
| Dates.WindowShowsWhatMayBeInside | internal/application/entitlements.go:75-94 | a dated release is shown exactly when some day it could denote falls on or after the boundary's UTC day, an undated one exactly when first observed by then or later, and the outside flag is raised exactly for dated ones not shown |
| Dates.UtcDayHoldsInstant | internal/application/entitlements.go:91-94 | the boundary's day is the one the instant falls in |
| Utf8.CharactersAreCodePoints | internal/domain/evidence.go:114-129 | a string starts with a character of n bytes exactly when it starts with the n bytes UTF-8 gives some code point that is no surrogate |
| Utf8.TruncateOnRuneBoundary | internal/application/queries.go:481-490 | well-formed text keeps its longest whole-character prefix within the budget, at most three bytes short of it |
| Utf8.TruncateExcerpt | internal/domain/evidence.go:114-129 | at most 4000 bytes: the trimmed text, or its longest prefix that leaves room for the ellipsis, and the ellipsis |
| Utf8.BoundExcerpt | collectors/sdk/collector.go:261-271 | the same for well-formed text, by stepping back to a starting byte |
| Utf8.BoundThenTruncate | internal/application/ingest.go:149-152 | truncating what the collector bounded is the identity on well-formed text |
| Utf8.BoundedIsFinal | internal/domain/evidence.go:76-91 | a bounded excerpt is well-formed, trimmed, within the limit, storable unless blank, and bounding it again changes nothing |
| Utf8.PrefixIsValidIffStart | collectors/sdk/collector.go:266-269 | in well-formed text the whole-character prefixes are those that stop before a starting byte |
| Whitespace.CollapseWhitespace | internal/adapters/normalize/normalize.go:249-270 | the one pass equals dropping zero-width characters, splitting on white space and joining with single spaces |
| Whitespace.CollapsingIsIdempotent | internal/adapters/normalize/normalize.go:246-270 | collapsing twice is collapsing once, and the only white space left is single spaces |
| Whitespace.NormalizeSections | internal/adapters/normalize/normalize.go:139-153 | the section loop yields the collapsed, non-empty sections joined with newlines |
| Whitespace.SectionsDoNotCollide | internal/adapters/normalize/normalize.go:145-153 | two pages have the same bytes before hashing exactly when they have the same sections |

## Left out

- Races between a use case's reads before its transaction and other commits: a call is one atomic step, but for
  decisions made from a page loaded earlier.
- Product summaries, evidence rows, collector runs, and item titles, details and SLA classes: written beside the
  modelled rows and read by none of the modelled rules.
- Withdrawal of releases, deletion of rows, dismissal of items and a missing conflict port: no modelled use case
  does the first three, and the code calls the last a wiring defect.
- The plausibility of a version step, review scoring and alias resolution: arbitrary functions, chosen anew for
  every call.
- Unknown enum spellings (states, precisions, quality classes, release types): the datatypes exclude them, so the
  checks that refuse them have nothing to do.
- Store.Repositories.ExtractCandidate: one candidate of the collector's list; the dedupe key is taken as given and
  its hash is not computed, and the validation job it enqueues is not recorded, because validation may be
  delivered at any time anyway.
- Store.Repositories.Decide: an actor's request and trace identifiers are not carried to the audit row, and the
  item-resolved event is not announced.
- RobotsFile.ParseRobots: field names and agents are lower-cased for the letters A to Z only, and crawl-delay
  values are not read, only that the line counts as a rule.
- RobotsMatch.SelectGroup: groups that repeat an agent are not merged, as the code does not merge them either.
- RateLimit.TokenBucketLimiter.Allow: tokens and instants are reals, so float rounding and the truncation of
  durations to nanoseconds are not modelled.
- Pacing.HostGate.TryEnter: a full semaphore makes a caller try again later instead of blocking it; which of the
  blocked callers the channel lets through first is not modelled.
- Registry.SyncIsIdempotent: alias and edge identifiers and update times are not compared; they do change.
- RegistryStore.Database.Execute: what a failed sync leaves half written is not described, and the report's
  counters and warnings, the summary refresh and the source-to-product coverage are not modelled.
- Dates.ParsedDatesPrint: strings are characters, where the code counts bytes; strings with characters beyond
  ASCII are refused either way.
- Utf8.TruncateExcerpt: trimming is that of well-formed text; on other bytes it may see spaces where the code
  sees an invalid character.
- Whitespace.CollapseWhitespace: works on characters; that invalid bytes become replacement characters first is
  not modelled.
- HTML parsing, attribute cleaning and hashing, HTTP, SQL, the scheduler's backoff and the web application.
