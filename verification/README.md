# Verified models of the gateway's stateful cores

This project models, in Dafny, the parts of the AI API gateway whose correctness depends on
many steps working together, and proves what they promise for all inputs, all runs and all
interleavings.

| module(s) | what is modelled |
|---|---|
| `OrderLock`, `Payment` | the reference-counted lock per top-up order, as a transition system with one step per access to shared memory, and the payment handlers that run under it |
| `RateLimiter`, `RateLimiterBounds` | the in-memory sliding-window limiter with its background cleaner, against a limiter that remembers everything |
| `Text`, `MultiKey`, `MultiKeyTable`, `MultiKeyChannel` | channels with many keys: a joined key text and three sparse index maps, against a list of per-key records |
| `ModelNames`, `UpstreamModels`, `UpstreamChannel` | reconciliation of a channel's model list with its upstream |
| `PricingDiff`, `PricingSync` | the multi-pass price comparison, against a declarative definition |
| `StringOrder`, `ModelsDev`, `ModelsDevSync` | selection of one price per model among many providers, and the error of the emitted ratios |
| `Opus` | the Ogg page scanner, against encoded pages of section 6 of RFC 3533 |
| `BodyBuffer`, `BodyStorage`, `RequestBody`, `StorageAccounting` | request bodies in memory or on disk as one abstract buffer, and the global counters under any interleaving |
| `Midjourney` | the poller that returns a failed task's quota under a compare-and-set |
| `Int64`, `Decimal`, `RedisHash` | the struct-to-hash codec with decimal printing and parsing |
| `ModelSync` | conditional fetches with an ETag cache (sections 13.1.2 and 15.4.5 of RFC 9110) |
| `Wrappers`, `Bytes`, `Maps` | shared types |

Concurrent protocols are transition systems whose runs are sequences of states. Objects that
the source updates in place are classes, loops are loops with invariants, and each method is
tied to a specification function about which the lemmas speak.

## Where the code does less than it seems to promise

Each point is proved, with the exact condition under which the promise holds.

- An action on a multi-key channel does what it is meant to exactly when the key list it leaves can be
  stored: it is not empty and has no blank key at either end (`MultiKeyTable.StepRefinesIff`,
  `MultiKeyTable.RunRefinesIff`). A line of spaces is stored as a blank key
  (`MultiKeyTable.SpacesBecomeBlankKey`); deleting the key before it moves the details of the others, so
  that an auto-disabled key comes back enabled and its disable time stays outside the list
  (`MultiKeyTable.DeletionEnablesDisabledKey`, `MultiKeyTable.ReachableLoss`). `MultiKeyTable.RewrittenIs` and
  `MultiKeyTable.NothingToStore` say what happens in every such case.
- Deleting the auto-disabled keys of a channel whose keys are all auto-disabled deletes nothing
  and enables every key again, because the emptied key text is taken as "not provided"
  (`MultiKeyTable.DeleteAutoDisabledMeetsIntent`, `MultiKeyTable.AllAutoDisabledRevives`).
- The recorded size of a new channel is wrong exactly when its first or last non-empty line is spaces
  (`MultiKeyTable.CreatedInStepIff`).
- A relay that re-enables a key leaves its disable time and reason behind (`MultiKey.TidyIff`,
  `MultiKey.TidyRunIff`).
- Detect, apply, detect again reaches a fixpoint exactly when no added name contains a comma and
  no ignore rule that was still needed is itself among the added names
  (`UpstreamModels.FixpointIff`; `UpstreamModels.CommaWitness` and `UpstreamModels.RuleWitness` are
  inputs). A pending name that is itself a stored rule and is not selected ends up both ignored and
  pending (`UpstreamModels.EachPendingGoesToOnePlace`).
- A pricing value spelled "same" is never reported, and a JSON null beside a local price keeps a
  row (`PricingDiff.LiteralSameIsHidden`, `PricingDiff.NullKeepsRow`; `PricingDiff.RowIff` and
  `PricingDiff.PresenceMeansDifferenceIff` are exact).
- "Cheapest non-zero input cost" (controller/ratio_sync.go:903-905) holds up to epsilon
  (`ModelsDev.SelectsCheapest`): of two prices half an epsilon apart the dearer one is selected if its
  provider's name comes first (`ModelsDev.SortedMissesCheapest`). The cheapest is selected under every
  assignment of the offers to provider names if and only if no offer lies strictly between the minimum
  and epsilon above it (`ModelsDev.AlwaysCheapestIff`).
- A rate limit of zero admits one request (`RateLimiterBounds.ZeroLimitAdmitsOne`), and a cleaner period
  shorter than the window forgets admissions and lets too many through (`RateLimiterBounds.AgreesIff`,
  `RateLimiterBounds.NeverExceedsIff`).
- An upstream that sends a fail reason without the status FAILURE, or that status without a failure
  the poller recognises, gets a quota returned twice (`Midjourney.AtMostOnceIff`). The second of two
  pollers may write a row equal to the stored one; it wins because the database is taken to report
  matched rows, which MySQL does only with the clientFoundRows option (model/midjourney.go:165-171).
- A task that is failed in bulk gets no quota back, and a refund that meets a database error is not tried
  again (`Midjourney.BulkFails`, `Midjourney.FailedRefundIsLost`); otherwise every failed task is refunded
  exactly once (`Midjourney.RefundedIffFailed`).
- The disk limit is checked before the usage is counted, so n concurrent creations can fill it n
  times over (`StorageAccounting.UsageBound`, `StorageAccounting.BoundReached`).
- An empty read at the end of a body reports the end from memory but not from disk
  (`BodyBuffer.KindsAgreeIff`).
- A size limit of the largest int64 wraps around, so that every body is taken to be empty
  (`RequestBody.AdmitWraps`); the request path cannot reach it (`RequestBody.MaxBytesInRange`).
- A pointer to an empty string comes back from Redis as nil (`RedisHash.RoundTripIff`).
- A 200 without an ETag leaves the old tag beside the new body, which a later 304 then delivers
  (`ModelSync.KeepsCoherentIff`, `ModelSync.NotModifiedDeliversIff`, `ModelSync.UntaggedGoesStale`).

## Model

| member | source | states |
|---|---|---|
| `OrderLock.NextInv` | controller/topup.go:279-308 | every atomic step of LockOrder and UnlockOrder, by any thread, keeps the whole invariant: exact counts, exact owners, one object per order, no unused entry |
| `OrderLock.RunInv` | controller/topup.go:269-308 | the invariant holds in every state of every interleaving of any number of threads |
| `OrderLock.MutualExclusion` | controller/topup.go:279-308 | at most one thread is inside the critical section of an order |
| `OrderLock.RefCountIsUserCount` | controller/topup.go:273-308 | the count of the object in the table is the number of threads waiting, holding or leaving, and all of them have that very object |
| `OrderLock.EntryIffUsed` | controller/topup.go:279-308 | whenever the creation lock is free, an order is in the table exactly while it has a user |
| `OrderLock.UnlockFindsOwnLock` | controller/topup.go:294-300 | a holder's UnlockOrder never takes the not-found return, finds the object it locked and is its owner |
| `OrderLock.NoEntryLeaks` | controller/topup.go:302-307 | when no thread is inside, the table is empty |
| `OrderLock.DeadlockFree` | controller/topup.go:279-308 | while a thread is inside the lock code, some such thread can take a step |
| `OrderLock.KeepsOrder` | controller/topup.go:279-308 | an idle thread that calls LockOrder goes after exactly the order it was called with, and no step, of its own or of another thread, changes the order a thread works on |
| `OrderLock.RunHasTrace` | controller/topup.go:279-308 | every run is the run of some sequence of calls and steps |
| `OrderLock.LocksWhatWasAsked` | controller/topup.go:279-308 | in every run, from the call LockOrder(tn) until UnlockOrder has dropped the count, the thread waits for, holds and releases the lock of that very tn |
| `OrderLock.ExclusionAsAsked` | controller/topup.go:279-308 | two calls of LockOrder with one trade number have never both returned without an unlock in between |
| `Payment.HandleInv` | controller/topup.go:373-408 | every handler step, with database calls that may fail before or after their effect, keeps the ledger invariant |
| `Payment.StepInv` | controller/topup.go:373-408 | so does every step of the whole system, lock steps, new orders and failure reports without the lock included |
| `Payment.FailReportInv` | controller/topup_waffo.go:377-387 | the failure report of another provider, which takes no lock, keeps the ledger and disturbs no callback |
| `Payment.CreditedAtMostOnce` | controller/topup.go:373-408 | in every interleaving of callbacks, manual completions and expiries an order is credited at most once, to its own user, and only with a stored status of success |
| `Payment.CreditIsTruncatedProduct` | model/topup.go:354-366 | every credit of every run is non-negative and exactly the product of quotaPerUnit with the money of a Stripe order, or with the amount of any other order, truncated toward zero, and goes to the user of the order |
| `Payment.PaidIffCredited` | controller/topup.go:373-408 | at rest, an order without database faults has status success if and only if it was credited |
| `Payment.CreditOnlyAfterStatusWritten` | controller/topup.go:389-404 | when a callback is about to increase the quota, the stored order has left pending and nothing was credited for it yet |
| `Payment.SettledForever` | model/topup.go:82-105 | an order that has left pending never changes again |
| `Payment.WhoSettles` | model/topup.go:82-105 | an order becomes a success only through a callback or an administrator holding its lock, expired only through an expiry by its own provider holding its lock, failed only through a report of its own provider, never for Epay |
| `Payment.CallSettles` | controller/topup.go:373-408 | in every run, a handler called for an order it is meant for and not hurt by a database error leaves that very order settled, and credited once if it is paid and no other handler of it met an error |
| `Payment.CallbackPays` | controller/topup.go:373-408 | in every run, from a callback for a pending Epay order, without database errors on that order and without an expiry of it in between, to the end of its handler: that very order is paid and credited exactly once |
| `Payment.UndisturbedCallback` | controller/topup.go:386-408 | a callback for a pending Epay order: which columns are written, that nothing is credited before, and the one credit after |
| `Payment.UndisturbedCompletion` | model/topup.go:335-381 | a completion by hand pays and credits a pending order worth at least one unit and leaves every other as it is |
| `Payment.UndisturbedExpiry` | model/topup.go:82-105 | an expiry closes a pending order of its own provider and leaves every other as it is |
| `Payment.ReportCloses` | controller/topup_waffo.go:377-387 | so does a failure report |
| `Payment.FailedAfterIsDone` | controller/topup.go:393-408 | a write that fails after its effect has its whole effect |
| `Payment.FaultHasCause` | controller/topup.go:393-408 | an order counts as faulty only through a database error of its own handler or a negative amount |
| `Payment.LocksMove` | controller/topup.go:373-375 | the handlers run the lock code above and nothing else touches it |
| `Payment.NeverStuck` | controller/topup.go:373-408 | in every run, while a thread is inside a handler or the lock code, some such thread can act |
| `Payment.OwnAdmin` | model/topup.go:320-390 | the manual completion keeps the ledger of its order |
| `RateLimiter.InMemoryRateLimiter.Request` | common/rate-limit.go:46-70 | decision and new store of one request |
| `RateLimiter.InMemoryRateLimiter.ClearExpired` | common/rate-limit.go:28-42 | one cleaner round keeps exactly the unexpired queues, in any visiting order |
| `RateLimiter.SameDecision` | common/rate-limit.go:46-70 | a queue that represents the full history decides as counting in that history does |
| `RateLimiter.ExecRepresents` | common/rate-limit.go:28-70 | over every run, requests and cleaner rounds in any order, each queue represents the full history |
| `RateLimiter.DecisionsAgree` | common/rate-limit.go:28-70 | every decision equals "fewer than limit past admissions are younger than duration" |
| `RateLimiterBounds.GrantedIsAdmitted` | common/rate-limit.go:28-70 | the times at which the limiter itself lets requests through are those of the reference |
| `RateLimiterBounds.SpanBound` | common/rate-limit.go:28-70 | no span of duration seconds holds more of the limiter's own admissions than the limit |
| `RateLimiterBounds.ShortExpirationExceeds` | common/rate-limit.go:28-42 | with a shorter cleaner period a run exists with one admission too many in a window |
| `RateLimiterBounds.NeverExceedsIff` | common/rate-limit.go:28-70 | the window is respected in all runs if and only if the period plus one second is at least the window |
| `RateLimiterBounds.ShortExpirationForgets` | common/rate-limit.go:28-42 | with a shorter cleaner period a run exists that disagrees with the reference |
| `RateLimiterBounds.AgreesIff` | common/rate-limit.go:28-70 | the limiter equals its reference on all runs if and only if the period plus one second is at least the window |
| `RateLimiterBounds.ZeroLimitAdmitsOne` | common/rate-limit.go:64-69 | a limit of zero lets the first request through |
| `Text.SplitJoin` | model/channel.go:195-196 | splitting a joined list gives the list back when no element contains the separator |
| `Text.JoinSplit` | model/channel.go:293-293 | joining a split text gives the text back |
| `Text.DecodeJoin` | model/channel.go:175-197 | a stored list is read back unchanged if and only if neither end is blank |
| `Text.DecodeJoinIs` | model/channel.go:175-197 | what any stored list is read back as: without the blanks at its ends, or one blank |
| `Text.DecodeEnds` | model/channel.go:175-197 | a list read from a text is empty, one blank, or has no blank at its ends |
| `Text.SpaceCodes` | controller/channel.go:627-627 | exactly which characters trimming takes for blank |
| `MultiKeyChannel.DropBeyond` | model/channel.go:552-558 | the statuses of indices past the key count go, the others stay |
| `MultiKeyChannel.ReadNewKeys` | controller/channel.go:622-629 | the loop of AddChannel keeps every non-empty line, trimmed, a line of spaces as a blank key |
| `MultiKeyChannel.Channel.constructor` | controller/channel.go:622-631 | the keys and the recorded size of a new channel |
| `MultiKeyChannel.Channel.Update` | model/channel.go:526-573 | the size follows the key text, statuses past it go, and an empty text keeps the stored one |
| `MultiKeyChannel.Channel.DisableKey` | controller/channel.go:1407-1448 | for every stored channel, the table action; refused outside the recorded size |
| `MultiKeyChannel.Channel.EnableKey` | controller/channel.go:1450-1490 | for every stored channel, the table action; refused outside the recorded size |
| `MultiKeyChannel.Channel.EnableAllKeys` | controller/channel.go:1492-1514 | for every stored channel, the table action |
| `MultiKeyChannel.SwitchOff` | controller/channel.go:1528-1540 | the loop disables exactly the enabled indices and counts them |
| `MultiKeyChannel.Channel.DisableAllKeys` | controller/channel.go:1516-1561 | for every stored channel, the table action, and how many keys it disabled |
| `MultiKeyChannel.DropOne` | controller/channel.go:1582-1618 | the re-indexing loop yields keys and maps of the record list without the one record |
| `MultiKeyChannel.Channel.DeleteKey` | controller/channel.go:1563-1641 | for every stored channel, blank keys included, the table action; deleting the last key is refused |
| `MultiKeyChannel.DropAutoDisabled` | controller/channel.go:1643-1685 | the re-indexing loop yields keys and maps of the records that are not auto-disabled |
| `MultiKeyChannel.Channel.DeleteDisabledKeys` | controller/channel.go:1643-1710 | for every stored channel, blank keys included, the table action, and how many keys it deleted |
| `MultiKeyChannel.Dedupe` | controller/channel.go:957-969 | the loop keeps each unseen trimmed key once |
| `MultiKeyChannel.AppendedKeys` | controller/channel.go:939-969 | the keys appended are the new trimmed non-blank lines, each once, in order of first appearance |
| `MultiKeyChannel.Channel.AppendKeys` | controller/channel.go:900-972 | for every stored channel, the table action |
| `MultiKeyChannel.Channel.AutoUpdate` | model/channel.go:641-690 | for every stored channel, the table action on the first key equal to the reported one |
| `MultiKeyChannel.Channel.PerformAll` | controller/channel.go:1407-1710 | every run of all actions on every stored channel is the run of the table; it refines the record list, map domains inside the list, when the lists it leaves can be stored |
| `MultiKeyTable.StepRefinesIff` | controller/channel.go:1407-1710 | an action refines the record list if and only if the key list it leaves is unchanged or non-empty without a blank at its ends |
| `MultiKeyTable.RunRefinesIff` | controller/channel.go:1407-1710 | a run refines the record list throughout if and only if that holds of every action in it |
| `MultiKeyTable.RewrittenIs` | model/channel.go:526-573 | what any deletion leaves otherwise: keys without the blanks at the ends, details at their old indices, times and reasons past the end left behind |
| `MultiKeyTable.SyncedIs` | model/channel.go:526-573 | storing a key list records its number and drops exactly the statuses past it; times and reasons stay |
| `MultiKeyTable.RefusedOutside` | controller/channel.go:1407-1470 | switching a key on or off outside the recorded size changes nothing |
| `MultiKeyTable.OnCountIs` | controller/channel.go:1528-1541 | the number of keys that disabling all reports is the number of enabled indices |
| `MultiKeyTable.NothingToStore` | model/channel.go:530-537 | if nothing or one blank key is left, the old keys stay and take over what details are left |
| `MultiKeyTable.CreatedInStepIff` | controller/channel.go:622-631 | the recorded size of a new channel fits its keys iff neither the first nor the last one is blank |
| `MultiKeyTable.SpacesBecomeBlankKey` | controller/channel.go:622-631 | a line of spaces between two keys is stored as a blank key |
| `MultiKeyTable.BlankKeyWitness` | controller/channel.go:622-631 | for instance the submitted text "a", a space, "b" on three lines |
| `MultiKeyTable.DeletionEnablesDisabledKey` | controller/channel.go:1582-1626 | deleting the key before a blank one enables the auto-disabled key behind it and leaves its time and reason outside the list |
| `MultiKeyTable.ReachableLoss` | controller/channel.go:1582-1626 | that loss on a run from creation: a submitted line of one space, one relay report, one deletion; and what was meant |
| `MultiKeyTable.LeadingSpacesMiscount` | controller/channel.go:622-631 | a text that starts with a line of one space records one key too many |
| `MultiKeyTable.DeleteAutoDisabledMeetsIntent` | controller/channel.go:1643-1710 | exactly the auto-disabled keys are deleted iff there are none, or the rest is non-empty without a blank at its ends |
| `MultiKeyTable.AllAutoDisabledRevives` | controller/channel.go:1696-1701 | if every key is auto-disabled, every key stays and is enabled again |
| `MultiKeyTable.TidyRun` | controller/channel.go:1407-1710 | on runs that refine, times and reasons of the stored channel stay on disabled keys |
| `MultiKey.SurvivorsKeepOrder` | controller/channel.go:1651-1685 | each kept key lands, with its own status and, if disabled, its details, at the number of kept keys before it |
| `MultiKey.DeletesStatusThree` | controller/channel.go:1645-1680 | deleting the disabled keys keeps every key whose status is not 3, in its status, and none whose status is 3 |
| `MultiKey.OffByHandSurvives` | controller/channel.go:1651-1666 | a key that an administrator disabled, alone or with all others, survives it unchanged |
| `MultiKey.ReportedKeyGoes` | model/channel.go:669-681 | a key that a relay reported with status 3 does not |
| `MultiKey.TidyIff` | model/channel.go:669-681 | times and reasons stay on disabled keys only, for every action, except exactly when a relay re-enables a key that has some |
| `MultiKey.ReenableLeavesDetails` | model/channel.go:669-681 | for instance a relay that disables a key and enables it again |
| `MultiKey.TidyRunIff` | model/channel.go:669-681 | over every run they stay there throughout if and only if no step is that one |
| `MultiKey.NewKeysDistinct` | controller/channel.go:949-969 | appended keys are distinct and exactly the unseen input keys |
| `ModelNames.NormalizeMembers` | controller/channel_upstream_update.go:98-103 | exactly the non-blank trimmed forms survive |
| `ModelNames.MergeMembers` | controller/channel_upstream_update.go:105-119 | a merge is duplicate-free and is the union |
| `ModelNames.ApplySelectedIs` | controller/channel_upstream_update.go:143-148 | survivors in their old order, then the additions in theirs, nothing twice |
| `UpstreamChannel.MergeModelNames` | controller/channel_upstream_update.go:105-119 | the loop computes the merge |
| `UpstreamChannel.SubtractModelNames` | controller/channel_upstream_update.go:121-130 | the loop computes the difference |
| `UpstreamChannel.IntersectModelNames` | controller/channel_upstream_update.go:132-141 | the loop computes the intersection |
| `UpstreamChannel.CollectPending` | controller/channel_upstream_update.go:177-236 | the set-building loops compute the pending additions and removals, in any order of the mapping |
| `UpstreamChannel.SelectPending` | controller/channel_upstream_update.go:798-804 | only requested names that are pending are selected, an addition before a removal |
| `UpstreamChannel.ApplySelection` | controller/channel_upstream_update.go:806-820 | the new settings and whether the model list differs |
| `UpstreamChannel.Channel.ApplyUpdates` | controller/channel_upstream_update.go:785-833 | new settings, reported lists and the changed flag of one application |
| `UpstreamChannel.Channel.Check` | controller/channel_upstream_update.go:365-412 | the skip by interval, the failed fetch, the stored detection and the automatic additions |
| `UpstreamModels.Detected` | controller/channel_upstream_update.go:177-236 | name by name: pending for addition iff upstream, not covered and not ignored; pending for removal iff local, no alias source and not upstream |
| `UpstreamModels.ProposedIff` | controller/channel_upstream_update.go:196-225 | in terms of the stored rules and the mapping: a name is proposed iff it is upstream, no local model, not the target of any alias and caught by no rule, where "regex:" introduces a trimmed pattern |
| `UpstreamModels.NextModelsIs` | controller/channel_upstream_update.go:806-811 | the new model list: survivors in order, then additions, nothing twice |
| `UpstreamModels.ChangedIff` | controller/channel_upstream_update.go:806-808 | changed is reported iff something was selected for addition or removal |
| `UpstreamModels.LocalAfter` | controller/channel_upstream_update.go:809-811 | the stored text is read back as the new list |
| `UpstreamModels.EachPendingGoesToOnePlace` | controller/channel_upstream_update.go:798-820 | where each pending name goes, for every selection; exactly one of model list, ignore list and still pending iff it is selected or is no stored rule; addition wins over ignoring |
| `UpstreamModels.AliasSourcesStay` | controller/channel_upstream_update.go:226-234 | the source of an alias is never pending for removal and never removed, whatever is selected |
| `UpstreamModels.FixpointReached` | controller/channel_upstream_update.go:177-236 | detect, apply all, detect again leaves nothing pending |
| `UpstreamModels.FixpointIff` | controller/channel_upstream_update.go:785-833 | it does so if and only if no addition has a comma and the surviving ignore rules suffice |
| `UpstreamModels.CommaNameComesBack` | controller/channel_upstream_update.go:809-811 | a name with a comma is proposed again for ever |
| `UpstreamModels.CommaNameStaysPending` | controller/channel_upstream_update.go:809-811 | a channel and an upstream on which that happens, for any name with a comma |
| `UpstreamModels.CommaWitness` | controller/channel_upstream_update.go:809-811 | "a,b" is such a name |
| `UpstreamModels.RuleListedShows` | controller/channel_upstream_update.go:814-816 | a rule that is also listed as a model: adding it makes the name it ignored pending |
| `UpstreamModels.RuleWitness` | controller/channel_upstream_update.go:215-221 | "regex:^x$" beside "x" is such a rule |
| `UpstreamModels.LostRuleShows` | controller/channel_upstream_update.go:814-816 | a name kept out only by a rule that is itself added becomes pending |
| `UpstreamModels.PlainNamesSuffice` | controller/channel_upstream_update.go:215-221 | without additions that start with "regex:" the surviving rules always suffice |
| `UpstreamModels.AutoFixpointIff` | controller/channel_upstream_update.go:389-401 | detect, add automatically, detect again leaves no addition pending iff none of them has a comma |
| `UpstreamModels.AutoAddIsManualAdd` | controller/channel_upstream_update.go:389-401 | automatic additions give the models that adding everything by hand gives |
| `PricingSync.CollectModels` | controller/ratio_sync.go:542-556 | all models of all sources |
| `PricingSync.CollectConfidence` | controller/ratio_sync.go:558-591 | which price of which channel is the pricing endpoint's placeholder |
| `PricingSync.BuildItem` | controller/ratio_sync.go:600-652 | the channel loop of one row and whether the row is included |
| `PricingSync.BuildRaw` | controller/ratio_sync.go:540-654 | the first pass, in any order of the models |
| `PricingSync.CollectShown` | controller/ratio_sync.go:656-665 | the channels with a visible value somewhere |
| `PricingSync.Prune` | controller/ratio_sync.go:667-693 | the in-place deletion pass, in any order |
| `PricingSync.PruneItem` | controller/ratio_sync.go:669-674 | the innermost loop takes silent channels out of both maps of a row |
| `PricingSync.BuildDifferences` | controller/ratio_sync.go:536-696 | all passes together compute the declarative result |
| `PricingDiff.ShownIff` | controller/ratio_sync.go:656-665 | a channel stays iff it has a visible value somewhere, in terms of the inputs only |
| `PricingDiff.RowIff` | controller/ratio_sync.go:536-696 | exactly which rows are present, for all inputs with distinct channel names |
| `PricingDiff.RowMeansDifference` | controller/ratio_sync.go:536-696 | without hidden values, a row is present iff some channel's value differs or has no local counterpart |
| `PricingDiff.PresenceMeansDifferenceIff` | controller/ratio_sync.go:596-687 | per model and field, for all inputs with distinct names, exactly when presence of a row means a difference |
| `PricingDiff.InvisibleRowIff` | controller/ratio_sync.go:596-687 | a row without a visible value is there iff a "same" or null flags it and a silent channel that is shown elsewhere keeps it |
| `PricingDiff.RowLists` | controller/ratio_sync.go:667-687 | without hidden values, a row lists exactly the channels that differ somewhere, with the same keys in the confidence map |
| `PricingDiff.RowReports` | controller/ratio_sync.go:557-648 | in terms of the raw prices, for every present row and every channel it lists: the current value, the shown value or "same", and confidence false iff the channel gives model_ratio 37.5 and completion_ratio 1, as floats or integers, within 1e-9 |
| `PricingDiff.RowIffOtherPrice` | controller/ratio_sync.go:536-696 | in terms of the raw prices, where no channel says "same" or null against a local price: a row is present iff some channel gives a price that is 1e-9 or more away from the local one, or not the same value |
| `PricingDiff.RowListsOtherPrices` | controller/ratio_sync.go:656-687 | and it lists exactly the channels that give such a price anywhere |
| `PricingDiff.RowNamesChannels` | controller/ratio_sync.go:667-687 | a row names only existing channels, and confidence has the same keys |
| `PricingDiff.LiteralSameIsHidden` | controller/ratio_sync.go:612-624 | a differing value spelled "same" is not reported |
| `PricingDiff.NullKeepsRow` | controller/ratio_sync.go:612-624 | a null beside a local price keeps a row although no channel differs in it |
| `StringOrder.ListingUnique` | controller/ratio_sync.go:915-919 | the sorted list of a set of strings is unique |
| `StringOrder.LessIff` | controller/ratio_sync.go:919-919 | the order of the listing: a string comes before another iff they agree up to where it ends or has the smaller character |
| `StringOrder.SortedKeys` | controller/ratio_sync.go:928-932 | collecting the keys of a map and sorting them |
| `ModelsDev.SelectsCandidate` | controller/ratio_sync.go:934-943 | a candidate is selected iff some provider has a valid one, and it is one of those |
| `ModelsDev.SelectsListed` | controller/ratio_sync.go:845-879 | what is selected is a price its provider lists, non-negative, with an output price only where the ratios can express it |
| `ModelsDev.SelectsCheapest` | controller/ratio_sync.go:881-893 | a non-zero price is selected whenever there is one, less than epsilon above every non-zero price |
| `ModelsDev.SelectsFirstFree` | controller/ratio_sync.go:881-893 | among zero prices the first provider wins |
| `ModelsDev.SelectsOffer` | controller/ratio_sync.go:845-879 | in terms of the listed costs, a model gets a price iff some provider offers one that ratios can express, and it gets such an offer |
| `ModelsDev.SelectsCheapestOffer` | controller/ratio_sync.go:881-893 | no offer with a non-zero price is a billionth or more below the selected price, which is non-zero itself |
| `ModelsDev.SelectsFirstFreeOffer` | controller/ratio_sync.go:881-893 | if all offers are free the selected provider comes before every other that offers the model |
| `ModelsDev.OrderIrrelevant` | controller/ratio_sync.go:915-944 | the selection does not depend on map iteration order |
| `ModelsDev.SelectsMinimum` | controller/ratio_sync.go:881-893 | in any catalogue whose non-zero prices leave the gap above the least one empty, the least one is selected |
| `ModelsDev.EmptyGapSelectsCheapest` | controller/ratio_sync.go:903-905 | with an empty gap the cheapest offer is selected, whatever the provider names |
| `ModelsDev.FirstInGapStays` | controller/ratio_sync.go:881-893 | an offer in the gap that is visited first is never replaced |
| `ModelsDev.AlwaysCheapestIff` | controller/ratio_sync.go:903-905 | the cheapest is selected under every assignment of offers to names iff no offer lies strictly between the minimum and epsilon above it |
| `ModelsDev.SortedMissesCheapest` | controller/ratio_sync.go:881-893 | two near-equal prices in sorted order, of which the dearer one is selected |
| `ModelsDevSync.VisitProvider` | controller/ratio_sync.go:928-943 | the model loop of one provider |
| `ModelsDevSync.SelectCandidates` | controller/ratio_sync.go:915-944 | both loops compute the selection over the sorted providers |
| `ModelsDevSync.ToRatios` | controller/ratio_sync.go:950-972 | exactly which ratios are emitted for which model |
| `ModelsDevSync.Convert` | controller/ratio_sync.go:906-985 | the errors and the emitted ratios of the whole conversion |
| `ModelsDevSync.RoundError` | controller/ratio_sync.go:698-700 | rounding moves a ratio by at most half a millionth |
| `ModelsDevSync.EmittedPriceError` | controller/ratio_sync.go:954-966 | the product of the two rounded ratios is within h(M + C) + h² of the true output price |
| `ModelsDevSync.ConvertedPriceError` | controller/ratio_sync.go:954-966 | so is the product of the two ratios emitted for a model by the conversion, against the price its selected provider lists |
| `ModelsDevSync.ConvertedMeansPrices` | controller/ratio_sync.go:954-972 | in terms of the listed costs: a free model gets ratio 0 and nothing else, any other half its dollar price and its output and cache prices over its input price, each to six places with halves up, and each only if listed |
| `Opus.GetOpusDuration` | common/audio.go:196-254 | terminates on every byte string, through the back-seek, and returns the highest granule found over 48000 |
| `Opus.CaptureBytes` | common/audio.go:214-226 | a page starts where the bytes are O, g, g, S |
| `Opus.GranuleBytes` | common/audio.go:228-229 | the granule position is bytes 6 to 13, least significant first, as a signed 64-bit number |
| `Opus.ReadPage` | common/audio.go:206-247 | one turn of the loop: the position strictly increases and the highest granule seen so far and still ahead stays the same |
| `Opus.ScanPage` | common/audio.go:214-246 | one encoded page is read and the scan goes on right behind it |
| `Opus.ScanNoise` | common/audio.go:220-226 | bytes in which no capture pattern starts are skipped one by one |
| `Opus.SumIs` | common/audio.go:241-246 | the body length that a segment table announces is the sum of its bytes |
| `Opus.ScanStream` | common/audio.go:206-247 | on well-formed pages with noise between them the scanner stops at exactly the page boundaries |
| `Opus.StreamHighest` | common/audio.go:228-232 | the result is the largest granule position of the pages, or zero |
| `Opus.LittleEndianRoundTrip` | common/audio.go:229-229 | little-endian decoding inverts encoding |
| `Opus.GranuleRoundTrip` | common/audio.go:229-229 | so do the 64-bit two's-complement granules |
| `Opus.CutPageCounts` | common/audio.go:235-239 | a page cut off behind its header still counts and ends the scan |
| `BodyBuffer.KindsAgreeIff` | common/body_storage.go:47-54 | over every run of calls, memory and disk give the same answers iff no empty read happens at the end |
| `BodyBuffer.BytesNeverChange` | common/body_storage.go:47-81 | no call changes the bytes, and only Close closes |
| `BodyBuffer.ReadsInOrder` | common/body_storage.go:169-176 | reads of any sizes deliver the body in order without gap or repetition |
| `BodyBuffer.EndMeansAll` | common/body_storage.go:169-176 | once the end is reported, everything has been delivered |
| `BodyBuffer.ReadTakes` | common/body_storage.go:47-54 | a read takes the bytes at the cursor, as many as there are and were asked for, and moves past them |
| `BodyBuffer.ReadReportsEnd` | common/body_storage.go:169-176 | when each kind reports the end |
| `BodyBuffer.SeekMoves` | common/body_storage.go:56-63 | the same position counted from the start, the cursor or the end; one before the start is refused and changes nothing |
| `BodyBuffer.RewindAndRead` | common/body_storage.go:56-63 | rewound to any position, either kind delivers any stretch of the body from there |
| `BodyBuffer.ClosedRefuses` | common/body_storage.go:65-81 | after a close every call but another close is refused, and nothing changes any more |
| `BodyStorage.MemoryStorage.Read` | common/body_storage.go:47-54 | refines the abstract read, fills exactly the prefix of the slice |
| `BodyStorage.MemoryStorage.Seek` | common/body_storage.go:56-63 | refines the abstract seek, errors included |
| `BodyStorage.MemoryStorage.Close` | common/body_storage.go:65-72 | refines the abstract close; the counters move on the first close only |
| `BodyStorage.MemoryStorage.Bytes` | common/body_storage.go:74-81 | refines the abstract Bytes |
| `BodyStorage.DiskStorage.Read` | common/body_storage.go:169-176 | refines the abstract read over the file |
| `BodyStorage.DiskStorage.Seek` | common/body_storage.go:178-185 | refines the abstract seek over the file |
| `BodyStorage.DiskStorage.Close` | common/body_storage.go:187-196 | refines the abstract close; file closed and removed, counters moved once |
| `BodyStorage.DiskStorage.Bytes` | common/body_storage.go:198-230 | seek, full read and restoring seek return all bytes and leave the cursor where it was |
| `BodyStorage.Storage.Perform` | common/body_storage.go:14-23 | any call on any storage refines the abstract buffer and moves only its own counters |
| `BodyStorage.OpenedCountsIn` | common/disk_cache_config.go:109-134 | what a creation does to the counters is the two steps of the interleaved model |
| `BodyStorage.ReleasedCountsOut` | common/disk_cache_config.go:109-134 | what a close does is its steps there, stores of zero included |
| `BodyStorage.ReleasedUndoesOpened` | common/disk_cache_config.go:109-134 | closing gives back exactly what creating added, in every counter |
| `BodyStorage.StatsExact` | common/disk_cache_config.go:109-146 | after any creations and closes, in any order, the gauges are creations minus closes and their bytes, per kind, and the hits are the creations |
| `RequestBody.CopyLimited` | common/body_storage.go:140-145 | the copy loop, over a source that delivers pieces of any size, stores the limited prefix |
| `RequestBody.ReadLimited` | common/body_storage.go:284-287 | so does the read-all loop |
| `RequestBody.AdmitIff` | common/body_storage.go:288-290 | a body is accepted, whole, iff it is at most maxBytes long |
| `RequestBody.AdmitWraps` | common/body_storage.go:284-290 | with the largest int64 as limit every body is taken to be empty |
| `RequestBody.StreamsIff` | common/body_storage.go:262-266 | a body is streamed to disk iff its length is known, the cache is on, and it is at least the threshold and fits |
| `RequestBody.NewDiskStorageFromReader` | common/body_storage.go:132-167 | success, every error, stored bytes and counters of streaming to disk |
| `RequestBody.CreateBodyStorage` | common/body_storage.go:241-259 | which kind is chosen, the fallback to memory, stored bytes and counters |
| `RequestBody.CreateBodyStorageFromReader` | common/body_storage.go:262-303 | accepted iff admitted and no disk fault; kind, bytes, counters and hits |
| `RequestBody.MaxBytesInRange` | common/gin.go:61-65 | the limit is the configured number of MiB, or 128 MiB, and never meets the wrap-around of adding one |
| `RequestBody.Context.constructor` | common/gin.go:36-83 | a fresh request can hand out its body iff the body fits and the disk it would be streamed to can be written |
| `RequestBody.Context.GetRequestBody` | common/gin.go:36-83 | succeeds iff there is a body to hand out, gives all of it from offset 0, and changes no later answer |
| `RequestBody.Context.CleanupBodyStorage` | common/gin.go:99-106 | closes and forgets the storage, gives back what it was counted for |
| `RequestBody.Context.Serve` | common/gin.go:36-83 | every handler before cleanup starts with the whole body, however earlier ones read and sought |
| `StorageAccounting.RunInv` | common/disk_cache_config.go:109-134 | in every interleaving of creates, fallbacks to memory and repeated closes the counters are exact sums over the storages' phases |
| `StorageAccounting.Lifecycle` | common/disk_cache_config.go:109-134 | what a step can do to a storage: its phases in their order, a change from disk to memory only before anything is counted, its sizes never |
| `StorageAccounting.CreationFails` | common/body_storage.go:132-167 | a creation can fail until something is counted for it, and changes no counter |
| `StorageAccounting.CreationFallsBack` | common/body_storage.go:246-256 | until then a creation on disk can turn to memory instead |
| `StorageAccounting.ClampsNeverFire` | common/disk_cache_config.go:115-122 | no counter goes below zero, so the stores of zero never happen |
| `StorageAccounting.QuiescentCounters` | common/body_storage.go:37-45 | at rest the counters are the number and total size of the open storages of each kind |
| `StorageAccounting.UsageBound` | common/disk_cache_config.go:170-177 | with n creations at a time the disk usage stays within the maximum plus n - 1 bodies |
| `StorageAccounting.SerialUsageBound` | common/disk_cache_config.go:170-177 | with one at a time it stays within the maximum |
| `StorageAccounting.PromisedIff` | common/body_storage.go:241-246 | a creation goes to disk iff the cache is on, the body is at least the threshold and it still fits |
| `StorageAccounting.SmallStaysInMemory` | common/body_storage.go:241-246 | in every run, with the cache off or for a body below the threshold nothing is ever on disk |
| `StorageAccounting.BoundReached` | common/body_storage.go:241-259 | for every n and maximum the bound is reached |
| `StorageAccounting.UnderdeclaredOvershoots` | common/body_storage.go:262-282 | a body longer than declared exceeds the maximum even alone |
| `Midjourney.UpdateNeededIff` | controller/midjourney.go:202-255 | an unfinished task is written exactly when writing would change its row |
| `Midjourney.HandleInv` | controller/midjourney.go:121-196 | handling one consistent response keeps the invariant, whatever snapshot it is based on |
| `Midjourney.EffectiveConsistent` | controller/midjourney.go:124-129 | the one-hour timeout never makes a consistent response inconsistent |
| `Midjourney.RunInv` | controller/midjourney.go:121-196 | the invariant holds over every run of any number of pollers |
| `Midjourney.RefundedAtMostOnce` | controller/midjourney.go:169-196 | a quota is returned at most once, whole, and only if the task is stored as failed at 100% |
| `Midjourney.ConsistentIff` | controller/midjourney.go:161-168 | a response is consistent iff the failure test means what its status says |
| `Midjourney.WinnerStores` | controller/midjourney.go:131-178 | which row the winner of the update leaves, column by column, and that nobody else leaves another |
| `Midjourney.HandlePollers` | controller/midjourney.go:161-196 | the poller that stores a task as failed goes on to return its whole non-zero quota, every other is idle again |
| `Midjourney.TimeoutFails` | controller/midjourney.go:124-129 | a response handled more than an hour after the submission fails the task, whatever it says |
| `Midjourney.NoTimeout` | controller/midjourney.go:124-129 | up to then it counts as it came |
| `Midjourney.FailedStays` | controller/midjourney.go:169-178 | once a task is stored as failed only a bulk failure writes to it, and changes at most the reason |
| `Midjourney.BulkFails` | controller/midjourney.go:50-92 | a bulk failure finishes the task as failed and returns nothing |
| `Midjourney.FailedRefundIsLost` | controller/midjourney.go:175-178 | a refund that meets an error leaves its poller idle with nothing returned |
| `Midjourney.RefundedIffFailed` | controller/midjourney.go:121-196 | in every run from a task that is not failed and has a quota, with consistent responses, no bulk failure and no failing refund: whenever all pollers are idle the whole quota has been returned once if the task is stored as failed at 100%, and nothing otherwise |
| `Midjourney.InconsistentRefundsTwice` | controller/midjourney.go:169-178 | any inconsistent response admits a run that returns it twice |
| `Midjourney.AtMostOnceIff` | controller/midjourney.go:121-196 | at most once in all runs if and only if every response is consistent |
| `Decimal.ValueOfDigits` | common/redis.go:146-146 | the decimal digits of a number have its value |
| `Decimal.ParsePrint` | common/redis.go:204-208 | parsing a printed integer gives it back for every int64, and a range error beyond |
| `Decimal.ParsesNumerals` | common/redis.go:210-214 | a numeral, leading zeros included, is read as its value iff that fits an int64 |
| `Decimal.ParsesPositive` | common/redis.go:210-214 | so it is behind a plus |
| `Decimal.ParsesNegative` | common/redis.go:210-214 | and negated behind a minus |
| `Decimal.RefusesOthers` | common/redis.go:210-214 | any other text is a syntax error |
| `Int64.WrapIs` | common/body_storage.go:284-287 | wrapping changes a number by a multiple of 2^64 into the range of int64 and leaves that range alone |
| `RedisHash.Write` | common/redis.go:115-147 | the hash holds exactly the stored fields, each as its text |
| `RedisHash.Read` | common/redis.go:186-236 | every field the hash mentions is read, up to the first error, and nothing behind it is touched |
| `RedisHash.ReadsThroughPointer` | common/redis.go:194-221 | a text is read into what a pointer points to; where it cannot be, a nil pointer is left at a zero value |
| `RedisHash.ReadsDeletedAt` | common/redis.go:222-230 | a deletion time is read, or refused and left alone |
| `RedisHash.BoolTexts` | common/redis.go:216-220 | exactly which texts are read as true and as false |
| `RedisHash.Redis.HSetObj` | common/redis.go:107-159 | the texts are added to what the key held; no field at all is an error |
| `RedisHash.Redis.HGetObj` | common/redis.go:161-239 | an empty hash is not found and leaves the target alone |
| `RedisHash.ReadBack` | common/redis.go:161-239 | reading a written hash into a zero value fails iff some field has a refused kind, and otherwise every field comes back as stated |
| `RedisHash.RoundTripIff` | common/redis.go:107-239 | the struct comes back iff no field is refused, no pointer has an empty text, no deletion time is set and no other struct is non-zero |
| `ModelSync.Client.FetchJSON` | controller/model_sync.go:133-235 | the retry loop: result and caches |
| `ModelSync.Client.Try` | controller/model_sync.go:163-225 | the switch on one response: result and caches |
| `ModelSync.AttemptCurrent` | controller/model_sync.go:163-225 | one attempt keeps the caches coherent and delivers the server's current body iff it can |
| `ModelSync.FetchCurrent` | controller/model_sync.go:133-235 | a fetch succeeds iff an attempt can deliver, with the body the server held at the first such attempt |
| `ModelSync.WhyItFails` | controller/model_sync.go:152-225 | the error of each kind of reply; none but a 200 touches the caches |
| `ModelSync.LastErrorReported` | controller/model_sync.go:133-235 | a fetch that fails has made every attempt and reports why the last one failed |
| `ModelSync.RequestAnswered` | controller/model_sync.go:147-152 | a request goes out with the cached tag or without one, and its reply is what the caches take in |
| `ModelSync.RunInv` | controller/model_sync.go:133-235 | over any run of requests sent and replies handled, overlapping over the shared caches, every cached tag stands for its body and every request under way carries the tag still cached |
| `ModelSync.AlwaysCurrent` | controller/model_sync.go:133-235 | in any such run, with one fetch per URL at a time and fetches of different URLs overlapping in any way, an attempt succeeds iff it can deliver, and then with the body the server held when it replied, whether by 200 or by 304 |
| `ModelSync.EntryIsOwn` | controller/model_sync.go:147-180 | what is cached for a URL depends on its own attempts only |
| `ModelSync.OverlappingFetchCurrent` | controller/model_sync.go:312-324 | a whole call that overlaps others ends as the same call made alone, with the body of the first attempt that can deliver |
| `ModelSync.NotModifiedDeliversIff` | controller/model_sync.go:199-222 | for an injective decoding, a 304 delivers what the server holds iff the cached body is the one the sent tag stands for |
| `ModelSync.KeepsCoherentIff` | controller/model_sync.go:166-180 | exactly when a 200 keeps tag and body together |
| `ModelSync.UntaggedGoesStale` | controller/model_sync.go:174-180 | a 200 without an ETag makes a later 304 deliver the wrong body |

## Left out

- HTTP handlers, sessions, JSON binding, logging and translations around the modelled logic.
- Payment signatures and the other recharge handlers of model/topup.go; the payment model takes a verified callback.
- Floating point: prices, money and quota factors are real numbers, so NaN, infinities and binary rounding do not occur.
- Values of other JSON types (arrays, objects) in the price comparison.
- Fetching and converting the other price sources of controller/ratio_sync.go.
- Regular-expression matching, time parsing and JSON decoding, which are arbitrary function parameters.
- Key texts that are JSON arrays, Vertex AI keys, the "replace" key mode, the channel-wide status a relay report may set, and the guard by which UpdateChannelStatus drops a report of the status the channel already has (model/channel.go:750-752).
- The choice of the next key for a request (polling and random modes) in model/channel.go.
- Database failures in the upstream and multi-key actions: a write is taken to succeed.
- Update in place through shared slices: the bytes that memory storage returns from Bytes are its own slice in the source and a value here.
- Other values of `whence` than start, current and end; short reads of cache files and of the Opus reader.
- Errors from writing, seeking or reading a cache file once it is created; only its creation may fail.
- The locks inside one storage: its methods are atomic steps here.
- CleanupOldDiskCacheFiles, SyncDiskCacheStats and ResetDiskCacheUsage, which overwrite the counters on purpose, and a disk configuration that changes between requests.
- Several items for one task in one Midjourney response, the copied buttons and properties, a database error reported after a compare-and-set took effect, and a database that counts changed rather than matched rows.
- Redis expiry, connection errors, unexported fields, pointers to pointers, named types with their own String method, and HGetObj on something that is no pointer to a struct.
- What a failed decode leaves behind in the output of fetchJSON, its waiting times, and concurrent fetches of one URL.
- RateLimiter.InMemoryRateLimiter.Request: negative limits, on which the source panics when it creates the queue.
- Payment.CreditedAtMostOnce: the quota is added to a ledger, not to a user row, so overflow of the balance is not modelled.
- Every other package of the repository: relaying, channel selection, OAuth, passkeys, settings, the web frontend.
