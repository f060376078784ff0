# Verified model of the LLM gateway's stateful core

The gateway relays requests to many upstream providers. Most of it is plumbing; the parts modelled here are
the ones that keep state of their own, where a promise must hold over whole runs. Methods that update fields,
maps or slices in the Go code are Dafny classes and methods with loops, each proved against a function or
relation on values; the theorems are about those functions, over every input and every run.

| part | files | the question answered |
|---|---|---|
| rate limiter | `RateLimitSpec`, `RateLimitRuns`, `RateLimiter` | does a bounded queue that is swept and evicted decide like the full request log? |
| upstream models | `ModelNames`, `UpstreamUpdate`, `UpstreamProtocol`, `UpstreamChannel` | are the stored pending lists what a new detection would find? |
| multi-key channel | `MultiKeySpec`, `MultiKeyRefinement`, `MultiKeyCreation`, `MultiKeyReports`, `MultiKeyHistory`, `MultiKeyChannel`, `MultiKeyAppend`, `MultiKeyPages` | do a key string and sparse index maps behave as a list of records? |
| price differences | `PriceTable`, `PriceTableTheorems`, `PriceTableBuilder` | does the table show all and only the differences? |
| price source | `PriceSource`, `PriceSourceTheorems` | is the price picked by a non-transitive comparison a good one? |
| video task | `VideoTask`, `VideoTaskTheorems` | is money conserved over polls? |
| top-up lock | `TopUpLock` | is it a mutual exclusion per user, in every interleaving? |
| request bodies | `BodyStream`, `BodyStorage`, `BodyCreation`, `BodyRuns` | are memory and disk interchangeable, and do the counters tell the truth? |
| verification codes | `VerificationSpec`, `VerificationRuns`, `VerificationStore` | does a code verify exactly when it is the latest valid one? |

`Options`, `Clock`, `Sequences`, `Strings`, `Sorting`, `StringOrder`, `Maps` and `OldestFirst` hold what several parts share.
Clocks, the answers of upstreams, and whether a write to the database, the quota store or the disk succeeds
are parameters of the methods.

## Where the code falls short of what one would expect

Each of these is proved, with the exact condition under which the expectation does hold unless noted.

- A rate limit of zero requests acts as a limit of one: the first request of a key is always recorded
  (`RateLimitSpec.Quota`). Forgetting idle keys is invisible iff no sweeper runs or no window is longer than the
  key expiration by more than a second (`ForgettingInvisibleIff`).
- An upstream model name with a comma is stored in pieces and offered again; an ignored name that starts with `regex:`
  is read back as a pattern. `ApplyStaysInStepIff` gives the exact condition for any selection, `EveryRunStaysInStepIff`
  for any run, and `ApplyStaysInStepIffNoComma`, `EveryRunStaysInStep`, `AutoSyncSettlesIff` their simple cases; `CommaFails` and `PatternFails`
  are inputs on which it does not hold.
- Deleting the disabled keys when every key was disabled automatically leaves all keys in place and enables them,
  because an empty key column is not written (`DeletingAllDisabledEnablesThem`, `DeleteDisabledRefinesIff`). Deleting a
  key such that a blank one becomes the first or the last loses that one too (`DeleteKeyRefinesIff`).
  `EveryRunRefinesIff` says exactly which runs of management actions are unharmed, and `EveryHistoryFollowsIff` which
  histories of all edits are. A text whose first or last line is all spaces makes a
  channel that counts one key too many (`CreatedAlignedIff`), and blank lines inside make blank keys. Appending to a
  field of newlines replaces the blank key (`AppendKeepsPrefixIff`).
- Times and reasons outlive what they belong to: replacing keys by fewer leaves them past the end, where an appended key
  takes them over (`ReplaceKeepsAlignedIff`, `AppendRefinesIff`, `ReplacementLeavesTime`, `StaleTimeComesBack`), and a
  key that works again keeps them (`ReportsLeaveTime`). A report about an unknown key marks the first key
  (`UnknownKeyMarksTheFirst`). On a channel that was counted too large at creation, deleting an index past the keys
  is reported as a success and deletes nothing (`DeletePastEnd`).
- A null upstream value, or one that is literally `"same"`, can leave a cell without any difference in the price
  table (`SoundAndCompleteIff`, `PhantomsExist`).
- A poll whose quota settlement succeeds but whose task update fails, or a refund that fails, changes the sum of
  balance and charge; a failed task that is reported live and failed again is refunded twice (`ConservedIffFair`,
  `ConservedAllAlongIff`, `UnfairDrift`, `RevivedTaskRefundedTwice`). The tasks of a channel that cannot be found fail
  without a refund (`AbandoningLosesTheCharge`).
- An empty read at the end of a body reports the end in memory and not on disk, and nothing else tells the two apart
  (`StoragesAgreeIff`, `PlayTwins`). An understated length can push the disk usage over its maximum (`UsageBoundIff`,
  `UnderstatedLengthOverflows`); a truthful one never does (`Serve`).

## Model

| member | source | states |
|---|---|---|
| `RateLimitRuns.EveryRequestDecidedAsFullLog` | common/rate-limit.go:161-187 | in every run with a non-decreasing clock, mixing requests, sweeps and deletions, a request is granted iff fewer than the quota of the grants in the key's full log lie inside the window |
| `RateLimitRuns.LogIsGrants` | common/rate-limit.go:134-187 | the full log lists, in order, the instants of the key's grants since it was last deleted or thrown out without being idle |
| `RateLimitRuns.RecentMeaning` | common/rate-limit.go:161-187 | and what is counted are its entries less than the window back |
| `RateLimitRuns.ForgettingInvisibleIff` | common/rate-limit.go:52-72 | the previous law holds on every run iff no sweeper runs or every window is at most the key expiration in whole seconds plus one; the failing run is built for any limit outside that |
| `RateLimitRuns.SweepShows` | common/rate-limit.go:60-68 | for a longer window there is a run (a full burst, a sweep, one more request) whose last decision differs from the full log's |
| `RateLimitRuns.GrantsAreSpread` | common/rate-limit.go:161-187 | any quota + 1 consecutive grants of a key span at least the window |
| `RateLimitRuns.FirstRequestsGranted` | common/rate-limit.go:134-139 | after a deletion, as long as fewer than the quota were granted since, a request is granted, whatever was swept or evicted and however long the window |
| `RateLimitRuns.QueueWithinLog` | common/rate-limit.go:166-176 | the queue never holds more than the log nor more than the quota |
| `RateLimitRuns.RunsStayLinked` | common/rate-limit.go:161-187 | in every run the queue is linked to the full log: the last grants, or fewer when the missing ones lie outside the window |
| `RateLimitRuns.LinkedDecides` | common/rate-limit.go:145-158 | under that link, looking at the oldest queued entry decides what counting the log would decide |
| `RateLimitRuns.PeekIsRequest` | common/rate-limit.go:141-187 | a request is granted iff a peek at the same instant says so; a grant queues the instant within the quota, a refusal changes nothing |
| `RateLimitRuns.StoreNeverOverCap` | common/rate-limit.go:84-132 | in every run the store holds at most the cap of keys, which is 100000 unless a positive one is set |
| `RateLimitRuns.NewKeyEvicts` | common/rate-limit.go:84-132 | what a new key does to the others in a run: nothing below the cap; at the cap every idle key goes; one that is not idle goes only when none is, and none that stays was active before it |
| `RateLimitRuns.SweepMeaning` | common/rate-limit.go:60-68 | a sweep keeps exactly the keys whose last grant is no older than the expiration in whole seconds |
| `RateLimitRuns.EveryRunWellKept` | common/rate-limit.go:161-187 | in every run no stored queue is empty |
| `RateLimitRuns.ForcedEvictionSize` | common/rate-limit.go:119-131 | an eviction throws out unexpired keys only when nothing has expired, and then exactly max(1, cap/10) of them |
| `RateLimiter.InMemoryRateLimiter.ClearExpiredItems` | common/rate-limit.go:52-72 | the sweep loop leaves exactly the keys that are not stale, queues untouched |
| `RateLimiter.InMemoryRateLimiter.DropExpired` | common/rate-limit.go:94-102 | the first eviction phase leaves exactly the live keys, queues untouched |
| `RateLimiter.InMemoryRateLimiter.ActivityOf` | common/rate-limit.go:108-118 | lists every key once, with the time of its last grant |
| `RateLimiter.InMemoryRateLimiter.EvictIfFullLocked` | common/rate-limit.go:84-132 | nothing below the cap; else the live keys if that is enough; else the target number of keys, none of them less recently active than a key thrown out, queues untouched |
| `RateLimiter.InMemoryRateLimiter.Delete` | common/rate-limit.go:134-139 | forgets that key and no other |
| `RateLimiter.InMemoryRateLimiter.Peek` | common/rate-limit.go:145-158 | answers the admission test and changes nothing |
| `RateLimiter.InMemoryRateLimiter.Request` | common/rate-limit.go:161-187 | answer and whole new store: append, slide, refuse, or evict and start a queue |
| `OldestFirst.ByAge` | common/rate-limit.go:119 | the same keys with the same times, in ascending order of time |
| `OldestFirst.DropOldest` | common/rate-limit.go:129-131 | exactly the target number of keys stay, with their values, and none that goes is newer than one that stays |
| `Sorting.SortByKey` | common/rate-limit.go:119 | an ascending permutation |
| `ModelNames.NormalizeMeaning` | controller/channel_upstream_update.go:97-102 | exactly the trimmed non-blank names, each once |
| `ModelNames.NormalizeOrder` | controller/channel_upstream_update.go:97-102 | names keep the order in which they first occur |
| `ModelNames.NormalizeFixedPoints` | controller/channel_upstream_update.go:97-102 | a list is its own normal form iff it is trimmed, without blanks and without repeats |
| `ModelNames.MergeModelNames` | controller/channel_upstream_update.go:104-118 | the merging loop computes the normal form of the concatenation, which is the first list followed by what is new in the second |
| `ModelNames.NormalizeConcat` | controller/channel_upstream_update.go:97-118 | normalizing a concatenation is merging |
| `ModelNames.SubtractMeaning` | controller/channel_upstream_update.go:120-129 | set difference of the normalized lists, in normal form |
| `ModelNames.IntersectMeaning` | controller/channel_upstream_update.go:131-140 | set intersection of the normalized lists, in normal form |
| `ModelNames.ApplySelectedMeaning` | controller/channel_upstream_update.go:142-147 | as a set, (origin minus removed) union added, an addition winning; survivors first in their order, then the new names in theirs |
| `UpstreamProtocol.DetectionMeaning` | controller/channel_upstream_update.go:176-235 | a name is offered for addition iff it is upstream, not local, no redirect target and not ignored; for removal iff it is local, no redirect source and not upstream; both lists are in normal form |
| `UpstreamProtocol.OfferedIff` | controller/channel_upstream_update.go:176-235 | a name is offered for addition iff it is upstream, not local, no redirect target, matched by no `regex:` entry of the ignore list (whose rest, trimmed, is the pattern) and equal to no other entry |
| `UpstreamProtocol.RemovalOfferedIff` | controller/channel_upstream_update.go:176-235 | a name is offered for removal iff it is local, not upstream and not redirected |
| `UpstreamProtocol.PatternHides` | controller/channel_upstream_update.go:214-219 | a channel that ignores one pattern is not offered what it matches |
| `UpstreamProtocol.PatternHidesName` | controller/channel_upstream_update.go:214-219 | an instance: regex:^x hides xa |
| `UpstreamProtocol.SelectionMeaning` | controller/channel_upstream_update.go:793-799 | from lists in step, a selection takes exactly the requested names that are pending now, for each of add, ignore and remove |
| `UpstreamProtocol.ApplyStaysInStepIff` | controller/channel_upstream_update.go:780-828 | for any selection: a new detection after applying it finds exactly the stored remaining lists iff each upstream name is afterwards local or ignored exactly when it was ignored before or selected (commas split added names, the ignore list may hold patterns), and no piece of a split name is one that upstream lacks |
| `UpstreamProtocol.WithoutCommas` | controller/channel_upstream_update.go:801-811 | when no added name holds a comma, the condition of `ApplyStaysInStepIff` is that the new ignore list ignores what it did before and the names just ignored |
| `UpstreamProtocol.AppliedNames` | controller/channel_upstream_update.go:801-806 | for any selection, the stored model field reads back as the surviving names in order, then the trimmed pieces of the added names that are new |
| `UpstreamProtocol.CommaNameComesBack` | controller/channel_upstream_update.go:801-806 | an added name with a comma is found again by the next detection although it is not stored as remaining |
| `UpstreamProtocol.IgnoredPatternComesBack` | controller/channel_upstream_update.go:214-219 | an ignored name that reads as a pattern, matched by no ignored pattern, puts the lists out of step |
| `UpstreamProtocol.CommaFails` | controller/channel_upstream_update.go:801-806 | on a channel without models, adding the one upstream name, when it holds a comma, leaves the lists out of step |
| `UpstreamProtocol.PatternFails` | controller/channel_upstream_update.go:214-219 | on a channel without models, ignoring the one upstream name, when it is a pattern not matching itself, leaves the lists out of step |
| `UpstreamProtocol.CommaName` | controller/channel_upstream_update.go:801-806 | "a,b" is a name for `CommaFails` |
| `UpstreamProtocol.PatternName` | controller/channel_upstream_update.go:214-219 | "regex:^x" is a name for `PatternFails` |
| `UpstreamProtocol.LiteralNamesTakeEffect` | controller/channel_upstream_update.go:808-811 | with no pattern-like name selected, a name is ignored afterwards iff it was before or was selected for it |
| `UpstreamProtocol.AddsInStepIff` | controller/channel_upstream_update.go:812-815 | the stored remaining additions, order included, equal the newly detected ones iff each upstream name is dealt with as asked |
| `UpstreamProtocol.RemovesInStepIff` | controller/channel_upstream_update.go:812-815 | the stored remaining removals, order included, equal the newly detected ones iff no piece of an added name is one that upstream lacks and no redirect protects |
| `UpstreamProtocol.EveryPendingNameSettled` | controller/channel_upstream_update.go:793-815 | each pending name ends up arrived and un-ignored, or ignored, or still pending, adding winning over ignoring; without commas it arrives iff it was to be added |
| `UpstreamProtocol.ApplyAllLeavesNothing` | controller/channel_upstream_update.go:876-886 | applying all pending changes leaves both stored lists empty |
| `UpstreamProtocol.ApplyAllSettlesIff` | controller/channel_upstream_update.go:876-886 | after applying everything pending, the next detection finds nothing iff that selection takes effect; with no pattern among the additions, iff none of them held a comma |
| `UpstreamProtocol.EveryRunStaysInStepIff` | controller/channel_upstream_update.go:780-828 | whatever the upstream names: the stored lists equal a new detection all along a run of selections iff each selection takes effect on the row it finds |
| `UpstreamProtocol.AutoSyncSettlesIff` | controller/channel_upstream_update.go:384-396 | automatic application leaves the stored lists in step iff no detected name holds a comma |
| `UpstreamProtocol.AutoAddedIsFound` | controller/channel_upstream_update.go:384-396 | an automatic application counts every name it found as added |
| `UpstreamProtocol.UntouchedFields` | controller/channel_upstream_update.go:812-817 | what detections and applications leave alone, and the time they note |
| `UpstreamChannel.CollectPendingUpstreamModelChanges` | controller/channel_upstream_update.go:176-235 | the two collecting passes compute the two pending lists |
| `UpstreamChannel.RedirectSets` | controller/channel_upstream_update.go:195-200 | the sources and the targets of the redirects |
| `UpstreamChannel.Plan` | controller/channel_upstream_update.go:384-396 | the row a detection wants, with and without automatic application |
| `UpstreamChannel.Channel.Save` | controller/channel_upstream_update.go:349-358 | writes the settings and, when asked, the models column, or nothing when the write fails |
| `UpstreamChannel.Channel.CheckAndPersist` | controller/channel_upstream_update.go:360-407 | too early: nothing; fetch failed: only the timestamp; else the planned row; the database row follows iff the write works |
| `UpstreamChannel.Channel.ApplyUpstreamModelUpdates` | controller/channel_upstream_update.go:780-828 | the new row, the effective selection, and success iff every write it needed worked |
| `Strings.ReadListRoundTrip` | model/channel.go:194-199 | a joined list reads back as itself iff it is empty or has a non-empty first and last entry |
| `Strings.ReadListShape` | model/channel.go:81-103 | every list read from a field has non-empty ends, or is one blank entry, or empty exactly for the empty field |
| `Strings.TrimSplits` | model/channel.go:81-103 | trimming takes cut characters off the ends and nothing else |
| `MultiKeyRefinement.MarkingRefines` | controller/channel.go:1495-1649 | for any marks, and a size that is right or too large: disabling and enabling one key or all acts on the records one by one and keeps the keys |
| `MultiKeyRefinement.DeletingRefinesIff` | controller/channel.go:1669-1717 | for any marks: after re-indexing, exactly the other records remain, in order, with status, time and reason, iff the remaining keys have non-blank ends |
| `MultiKeyRefinement.MarkingMeaning` | controller/channel.go:1495-1649 | on the list, disabling sets status 2 and keeps time and reason, enabling sets status 1 and clears both, each on the asked record or on all that are enabled, or all |
| `MultiKeyRefinement.DeletingMeaning` | controller/channel.go:1651-1798 | on the list, deleting takes out one of several records, or every record of status 3, and keeps the others in order |
| `MultiKeyRefinement.DeleteKeyRefinesIff` | controller/channel.go:1651-1729 | for any marks, and a size that is right or too large: deleting key i removes record i and nothing else iff no blank key moves to an end |
| `MultiKeyRefinement.LastKeyStays` | controller/channel.go:1703-1709 | the last key is never deleted |
| `MultiKeyRefinement.DeletePastEnd` | controller/channel.go:1651-1729 | an index past the keys, which a size counted too large lets through to a successful reply, deletes nothing |
| `MultiKeyRefinement.DeleteDisabledRefinesIff` | controller/channel.go:1731-1798 | for any state: deleting the automatically disabled keys keeps exactly the other records iff there is none to delete, or one key stays, the staying keys have non-blank ends and no enabled key has a time or reason to lose |
| `MultiKeyRefinement.DeletingAllDisabledEnablesThem` | controller/channel.go:1771-1788 | for any state: when all keys were disabled automatically, all of them stay and become enabled |
| `MultiKeyRefinement.OneStepRefinesIff` | controller/channel.go:1495-1798 | for any marks, and a size that is right or too large: each action does to the records what it does to a plain list iff the list fits it (deleting a key moves no blank key to an end; deleting the disabled ones as in `DeleteDisabledRefinesIff`) |
| `MultiKeyRefinement.EveryRunRefinesIff` | controller/channel.go:1495-1798 | from any such state: every run of actions is the plain list all along iff each action fits the list it finds; a fitting run keeps aligned maps aligned (size, ranges, times and reasons only on keys that are not enabled) |
| `MultiKeyRefinement.OnlyMisfit` | controller/channel.go:1731-1798 | without blank keys an action fits unless it deletes disabled keys when no other stays or an enabled one has a time or reason |
| `MultiKeyRefinement.EveryRunStaysAligned` | controller/channel.go:1495-1798 | without blank keys, every run of any actions keeps size and map ranges aligned with the keys |
| `MultiKeyHistory.EveryHistoryFollowsIff` | controller/channel.go:632-1798 | from creation on, through every history of management actions, appends, replacements and relay reports, the channel is a plain list of records all along iff each edit fits the channel it finds |
| `MultiKeyHistory.EditRefinesIff` | controller/channel.go:978-1798 | one edit does to the records what it does to the list iff it fits; the size never becomes too small |
| `MultiKeyHistory.ReplaceRefinesIff` | controller/channel.go:1050-1055 | a replacement gives each position its new key with the marks it had, and new positions none, iff no mark waits past the old end |
| `MultiKeyHistory.ReplaceKeepsAlignedIff` | model/channel.go:486-493 | a replacement leaves aligned maps aligned iff no time or reason lies past the new end |
| `MultiKeyHistory.EveryHistoryStaysCounted` | model/channel.go:485-493 | in every history the size is at least the key count, and every status entry belongs to a key that is not enabled |
| `MultiKeyHistory.EveryHistoryDisablesIff` | model/channel.go:598-604 | in every history a report finds all keys disabled iff the size is right and all of them are |
| `MultiKeyHistory.ReplacementLeavesTime` | model/channel.go:486-493 | the third key fails, two keys replace the three: its time and reason stay behind |
| `MultiKeyHistory.StaleTimeComesBack` | controller/channel.go:1046-1048 | a key appended then is born with that time and reason |
| `MultiKeyHistory.ReportsLeaveTime` | model/channel.go:587-597 | a key that fails and works again keeps its old time and reason although it is enabled |
| `MultiKeyHistory.StaleTimeGetsLost` | controller/channel.go:1732-1769 | deleting another key for being disabled then takes them away |
| `MultiKeyReports.ReportRefinesIff` | model/channel.go:571-606 | a report does to the first record with its key what it says, and nothing else, iff the key exists and, when enabled again, has no time or reason, or the key is unknown and the report true of the first key anyway |
| `MultiKeyReports.UnknownKeyMarksTheFirst` | model/channel.go:576-582 | a report with a key the channel does not have marks its first key |
| `MultiKeyReports.AllSeemDisabledIff` | model/channel.go:598-604 | counting status entries finds all keys disabled iff the size is right and every key is |
| `MultiKeyCreation.CreatedCounted` | controller/channel.go:632-642 | creation never records a size below the key count |
| `MultiKeyCreation.CleanLinesMeaning` | controller/channel.go:632-642 | every line that is not empty makes one key, its trimmed text, in order |
| `MultiKeyCreation.CreatedAlignedIff` | controller/channel.go:632-642 | a new channel has the size of its key list iff it has no key, or neither its first nor its last key is blank |
| `MultiKeyCreation.MisalignedCreation` | controller/channel.go:632-642 | a first line of one space is counted in the size but is no key afterwards |
| `MultiKeyCreation.BlankInTheMiddle` | controller/channel.go:632-642 | a line of one space between two keys is stored as a blank key |
| `MultiKeyCreation.BlankKeyGoesToo` | controller/channel.go:1669-1717 | deleting the first of three keys takes a blank second one along |
| `MultiKeyCreation.DisabledKeyComesBack` | controller/channel.go:1771-1788 | a channel of one automatically disabled key: deleting the disabled keys enables it |
| `MultiKeyChannel.Channel.Create` | controller/channel.go:632-642 | the loop over the lines stores the non-empty ones, trimmed, and their number as the size |
| `MultiKeyChannel.Channel.GetKeys` | model/channel.go:81-103 | the list of lines that joins to the field without the newlines at its ends; empty iff the field is |
| `MultiKeyChannel.Channel.Update` | model/channel.go:456-503 | recounts the keys, drops statuses past the end, does not write an empty key column; nothing changes when the row cannot be written, and a failing index is an error over a changed row |
| `MultiKeyChannel.Channel.DisableKey` | controller/channel.go:1495-1536 | replies to a missing or out-of-range index without a change; else the disabling action iff the row is written, and success iff the index is written too |
| `MultiKeyChannel.Channel.EnableKey` | controller/channel.go:1538-1578 | the same for enabling |
| `MultiKeyChannel.Channel.EnableAllKeys` | controller/channel.go:1580-1602 | the action iff the row is written; success, with the number of marks lifted, iff both writes work |
| `MultiKeyChannel.Channel.DisableAllKeys` | controller/channel.go:1604-1649 | nothing to do iff no key is enabled; else the action iff the row is written, and the number of keys disabled iff both writes work |
| `MultiKeyChannel.Channel.DeleteKey` | controller/channel.go:1651-1729 | whatever the recorded size is: refuses a missing or bad index and to delete the last key; else the deletion iff the row is written, with a successful reply even when the index lies past the keys |
| `MultiKeyChannel.Channel.DeleteDisabledKeys` | controller/channel.go:1731-1798 | whatever the recorded size and marks are: nothing to do iff no key was disabled automatically; else the deletion iff the row is written, and how many keys went iff both writes work |
| `MultiKeyChannel.Channel.AddKeys` | controller/channel.go:978-1048 | the appending edit iff the row is written, success iff the index is written too |
| `MultiKeyChannel.Channel.ReplaceKeys` | controller/channel.go:1050-1055 | the replacing edit iff the row is written, success iff the index is written too |
| `MultiKeyChannel.Channel.HandleReport` | model/channel.go:571-606 | the reporting edit iff it is saved, and whether the whole channel is to be disabled |
| `MultiKeyChannel.FindKey` | model/channel.go:576-582 | the first position of the key, or zero |
| `MultiKeyChannel.DropPastEnd` | model/channel.go:486-493 | the pruning loop keeps exactly the statuses below the size |
| `MultiKeyChannel.DisableEnabled` | controller/channel.go:1616-1628 | marks exactly the enabled positions, keeps the other marks, counts what it marked |
| `MultiKeyChannel.EnabledAmongMeaning` | controller/channel.go:1616-1628 | the positions counted are those without a status or with status 1 |
| `MultiKeyChannel.StayingCount` | controller/channel.go:1732-1769 | as many keys stay as there are positions without status 3 |
| `MultiKeyChannel.WithoutKey` | controller/channel.go:1669-1701 | the re-indexing loop computes the keys and maps without that position, if there is one |
| `MultiKeyChannel.WithoutAutoDisabled` | controller/channel.go:1732-1769 | the re-indexing loop computes the keys and maps without the automatically disabled positions, and forgets times and reasons of enabled ones |
| `MultiKeyAppend.AppendKeys` | controller/channel.go:993-1048 | the existing keys untouched, then the keys to add |
| `MultiKeyAppend.RequestedKeys` | controller/channel.go:1017-1023 | the trimmed non-blank lines of the request |
| `MultiKeyAppend.TrimmedSet` | controller/channel.go:1026-1033 | the trimmed non-blank existing keys |
| `MultiKeyAppend.Deduplicate` | controller/channel.go:1034-1045 | the loop with a growing seen-set keeps the first occurrence of each unknown key, in order |
| `MultiKeyAppend.NewKeysMeaning` | controller/channel.go:1017-1045 | a key is added iff it was requested and the channel lacks it; trimmed, non-blank, each once |
| `MultiKeyAppend.NewKeysInOrder` | controller/channel.go:1034-1045 | the added keys come in the order of their first lines in the request |
| `MultiKeyAppend.AppendKeepsPrefixIff` | controller/channel.go:993-1048 | for any state: the existing records stay an unchanged prefix iff the channel held a real key, or none at all, or nothing was added |
| `MultiKeyAppend.AppendRefinesIff` | controller/channel.go:993-1048 | for any state: the result is the existing records followed by fresh, enabled ones iff the prefix stays and no mark waits at the new positions |
| `MultiKeyAppend.AppendedKeyFreshIff` | controller/channel.go:1046-1048 | an appended key is enabled and has no time or reason iff no mark waits at its position |
| `MultiKeyAppend.AppendedKeys` | controller/channel.go:993-1048 | for any state: the keys after an append, each with whatever marks its position has |
| `MultiKeyAppend.AppendKeepsAligned` | controller/channel.go:993-1048 | aligned maps stay aligned with the keys |
| `MultiKeyAppend.AppendTwice` | controller/channel.go:978-1048 | for any state: appending the same request again changes no key and no record |
| `MultiKeyAppend.AppendToBlank` | controller/channel.go:1046-1048 | a channel of one blank key reads back as just the added keys |
| `MultiKeyPages.StatusList` | controller/channel.go:1394-1442 | one entry per key in order, and the three counts |
| `MultiKeyPages.CountStatusMeaning` | controller/channel.go:1410-1418 | a status is counted as often as it occurs |
| `MultiKeyPages.ShownMeaning` | controller/channel.go:1420-1441 | an entry shows status, index, time and reason only while the key is disabled, and ten characters and dots for a longer key |
| `MultiKeyPages.FilterByStatus` | controller/channel.go:1444-1454 | the entries with the asked status, or all |
| `MultiKeyPages.Paginate` | controller/channel.go:1456-1477 | the asked page, or the last one, and the number of pages |
| `MultiKeyPages.GetKeyStatus` | controller/channel.go:1381-1493 | the whole reply: defaults for bad page numbers and sizes, totals of the filtered list; the counts are how often 1, 2 and 3 occur among all statuses |
| `MultiKeyPages.PagesShowEverything` | controller/channel.go:1456-1477 | for every page size, the pages concatenate to exactly the filtered list |
| `MultiKeyPages.PagesPastTheEnd` | controller/channel.go:1456-1477 | a larger page number shows the last page; a page is empty iff the list is |
| `MultiKeyPages.PageSizes` | controller/channel.go:1456-1477 | every page but the last is full and none holds more; an empty list has one page |
| `MultiKeyPages.CountsAddUpIff` | controller/channel.go:1394-1418 | the counts sum to the number of keys iff every status is one of the three known ones |
| `MultiKeyPages.ShownInOrder` | controller/channel.go:1394-1442 | entry i of the unfiltered view shows key i |
| `MultiKeyPages.MatchingMeaning` | controller/channel.go:1444-1454 | the filtered view holds exactly the entries with that status |
| `MultiKeyPages.MatchingInOrder` | controller/channel.go:1444-1454 | the filtered view keeps the order, and without a filter it is the whole list |
| `PriceTableTheorems.NoDifferenceLost` | controller/ratio_sync.go:659-698 | every value that is new or different stays in the table, in its cell, under its source, through the pruning pass |
| `PriceTableTheorems.SoundAndCompleteIff` | controller/ratio_sync.go:539-699 | the cells are exactly the real differences iff no cell is a phantom (a null or a literal "same" that disagrees beside a source with a difference elsewhere) |
| `PriceTableTheorems.GenuineTablesAreExact` | controller/ratio_sync.go:539-699 | with genuine upstream values, a cell is there iff some source has a value that is new or differs from the local one |
| `PriceTableTheorems.CellContent` | controller/ratio_sync.go:596-698 | a surviving cell lists a source iff that source differs somewhere in the table, with its value, "same" or nil, and its confidence |
| `PriceTableTheorems.NumbersShownIff` | controller/ratio_sync.go:49-62 | an upstream number is shown against a local one iff they are a billionth or more apart; if listed otherwise, the marker is |
| `PriceTableTheorems.ValuesShownIff` | controller/ratio_sync.go:56-62 | any other upstream value is shown iff it is not the local one |
| `PriceTableTheorems.NewValueShown` | controller/ratio_sync.go:625-629 | a value without a local one is always shown |
| `PriceTableTheorems.MissingValueShown` | controller/ratio_sync.go:609-623 | a listed source without a value shows nil beside a local value, and the marker without one |
| `PriceTableTheorems.ShowsValueIff` | controller/ratio_sync.go:608-629 | a source shows a value of its own iff the field is one of the ten and the data really differ |
| `PriceTableTheorems.ListedIff` | controller/ratio_sync.go:659-696 | a surviving cell lists a source iff its data really differ somewhere |
| `PriceTableTheorems.LocalShown` | controller/ratio_sync.go:598-601 | a cell says what the local value is, or nil |
| `PriceTableTheorems.ConfidenceIff` | controller/ratio_sync.go:561-594 | a listed source is trusted unless it gives the model the ratios 37.5 and 1, to a billionth |
| `PriceTableTheorems.PhantomSurvives` | controller/ratio_sync.go:670-696 | each phantom does leave a cell |
| `PriceTableTheorems.PhantomsExist` | controller/ratio_sync.go:670-696 | an input with a phantom cell: a null for a price we have, beside a source that differs on another model |
| `PriceTableTheorems.UnrealCellsArePhantoms` | controller/ratio_sync.go:670-696 | a cell without a real difference is a phantom |
| `PriceTableTheorems.TableDetermined` | controller/ratio_sync.go:539-699 | the cells determine the table, so map iteration order cannot show |
| `PriceTableTheorems.ArrivalOrderIrrelevant` | controller/ratio_sync.go:509-528 | the same upstream answers in any order of arrival give the same table |
| `PriceTableBuilder.BuildDifferences` | controller/ratio_sync.go:539-699 | the two passes compute exactly the specified cells |
| `PriceTableBuilder.AllModels` | controller/ratio_sync.go:545-594 | every model mentioned locally or by some source |
| `PriceTableBuilder.BuildItem` | controller/ratio_sync.go:599-644 | what each source shows, how far it is trusted, and whether some source makes the cell worth keeping |
| `PriceTableBuilder.BuildRow` | controller/ratio_sync.go:597-656 | the row of a model holds exactly its first-pass cells |
| `PriceTableBuilder.FirstPass` | controller/ratio_sync.go:596-657 | the table after the first pass, without empty rows |
| `PriceTableBuilder.NamesWithDifference` | controller/ratio_sync.go:659-668 | the sources that show a value of their own somewhere |
| `PriceTableBuilder.PruneRow` | controller/ratio_sync.go:671-692 | other sources are dropped from each cell, and cells where all agree are dropped |
| `PriceTableBuilder.Prune` | controller/ratio_sync.go:670-696 | the same for every row, without rows left empty |
| `PriceSource.BuildCandidate` | controller/ratio_sync.go:848-882 | a candidate iff input is given and not negative, and output is absent, zero, or positive over a positive input; it keeps both, and the cache price iff that is not negative |
| `PriceSource.VisitProvider` | controller/ratio_sync.go:925-947 | one provider changes exactly the models where its offer is new or better |
| `PriceSource.SelectCandidates` | controller/ratio_sync.go:915-951 | visits the providers in name order and ends with the fold of all offers for each model; the two error replies |
| `PriceSourceTheorems.ChoiceStep` | controller/ratio_sync.go:884-896 | a best choice stays one when the next provider is compared with it |
| `PriceSourceTheorems.RankedPickIsBest` | controller/ratio_sync.go:884-896 | in name order the choice is non-zero if any offer is, less than epsilon above every non-zero offer, and the first at its exact price |
| `PriceSourceTheorems.SelectedPriceIsGood` | controller/ratio_sync.go:915-947 | a model is priced iff some provider has a usable price, and the price is a best one |
| `PriceSourceTheorems.SelectionMeaning` | controller/ratio_sync.go:884-947 | read off the price list: a model is priced iff somebody sells it; the price is one that is asked, not zero unless all are, less than a billionth above every other, and its provider the first by name to ask exactly it |
| `PriceSourceTheorems.SelectionDetermined` | controller/ratio_sync.go:915-947 | the selection depends on the price list alone, not on iteration order |
| `PriceSourceTheorems.UnrankedPickDrifts` | controller/ratio_sync.go:918-922 | against the name order, near ties add up to a choice more than epsilon off the cheapest |
| `PriceSourceTheorems.OffersRanked` | controller/ratio_sync.go:918-935 | the offers for a model are exactly those of its providers, in name order |
| `StringOrder.SortedKeys` | controller/ratio_sync.go:918-922 | the keys of a map in ascending order, each once |
| `StringOrder.AscendingUnique` | controller/ratio_sync.go:918-922 | there is only one such list |
| `StringOrder.LessMeaning` | controller/ratio_sync.go:918-922 | names are compared character by character, and a prefix comes first |
| `VideoTask.Poller.Poll` | controller/task_video.go:121-278 | the balance and the stored task after one poll, for every reported status and every combination of failing writes |
| `VideoTaskTheorems.SuccessSettlesAtPrice` | controller/task_video.go:152-240 | a success with tokens and a ratio settles at tokens times model ratio times group ratio, rounded down, and the balance falls by what the quota rises by |
| `VideoTaskTheorems.NothingToSettle` | controller/task_video.go:152-182 | without tokens, rates or a positive model ratio, and in every other state, quota and balance stay |
| `VideoTaskTheorems.NegativePriceRoundsUp` | controller/task_video.go:182 | a negative price is rounded towards zero |
| `VideoTaskTheorems.StoredOfReport` | controller/task_video.go:131-263 | status, progress, times and reason stored of each kind of report |
| `VideoTaskTheorems.EmptyStatusFails` | controller/task_video.go:122-125 | a report without a status is a failure with a fixed reason |
| `VideoTask.Poller.Settle` | controller/task_video.go:184-235 | the balance moves by exactly what the recorded quota moves by |
| `VideoTask.Poller.Abandon` | controller/task_video.go:37-49 | the task of a channel that cannot be found fails, with the balance untouched |
| `VideoTask.Poller.IncreaseUserQuota` | model/user.go:1066-1081 | refuses a negative amount; else adds it iff the write works |
| `VideoTask.Poller.DecreaseUserQuota` | model/user.go:1092-1106 | refuses a negative amount; else subtracts it iff the write works |
| `VideoTaskTheorems.ConservedIffFair` | controller/task_video.go:127-276 | one poll conserves balance plus charge iff its status is unknown, or it is live and neither revives a failed paid task nor settles without being stored, or it is a failure that is not stored, is a repetition, or has its refund go through |
| `VideoTaskTheorems.UnfairDrift` | controller/task_video.go:127-276 | how much money any other poll creates or loses |
| `VideoTaskTheorems.AbandoningLosesTheCharge` | controller/task_video.go:37-49 | that loses exactly the charge, which is nothing for a free or already failed task |
| `VideoTaskTheorems.EventConservesIffFair` | controller/task_video.go:37-276 | a poll or an abandonment conserves balance plus charge iff it is fair |
| `VideoTaskTheorems.ConservedAllAlongIff` | controller/task_video.go:37-276 | whatever writes fail, whatever is reported and whether or not the channel disappears, a run conserves balance plus charge all along iff each event is fair to the task as it finds it |
| `VideoTaskTheorems.EveryOrderlyRunConserves` | controller/task_video.go:127-276 | over every orderly run of polls balance plus charge is constant, and the task ends failed iff it failed at some point |
| `VideoTaskTheorems.FailureRefundedOnce` | controller/task_video.go:241-276 | a run that sees a failure gives back everything charged, once, however often it is reported |
| `VideoTaskTheorems.SameSuccessChargesOnce` | controller/task_video.go:152-240 | reporting the same success again moves no money |
| `VideoTaskTheorems.RevivedTaskRefundedTwice` | controller/task_video.go:241-276 | a failed task reported live and failed again is refunded twice |
| `TopUpLock.TryLock.Try` | controller/user.go:1283-1290 | acquires iff the channel was empty; full afterwards |
| `TopUpLock.TryLock.Unlock` | controller/user.go:1292-1297 | empties the channel, and never blocks |
| `TopUpLock.EveryRunKeepsInvariant` | controller/user.go:1283-1320 | in every interleaving: one creator at a time, no lock shared between users, requests agree with the map, a channel is full iff exactly one request holds it |
| `TopUpLock.SameUserSameLock` | controller/user.go:1299-1311 | two requests have the same lock iff they are of the same user |
| `TopUpLock.MutualExclusion` | controller/user.go:1313-1320 | at most one request of a user is between its TryLock and its Unlock |
| `TopUpLock.RejectedIffUserBusy` | controller/user.go:1316-1319 | a request is turned away iff another of the same user holds the lock at that moment |
| `TopUpLock.OnlyTheHolderReleases` | controller/user.go:1292-1297 | a channel is emptied only by the request that holds it, and no other channel with it |
| `TopUpLock.UnlockFindsFull` | controller/user.go:1292-1297 | the empty case of Unlock never happens |
| `TopUpLock.LocksAreNeverReplaced` | controller/user.go:1299-1311 | a lock in the map stays there for good |
| `TopUpLock.NoDeadlock` | controller/user.go:1299-1320 | while a request is unfinished, some request can take a step |
| `TopUpLock.AllFreeAtTheEnd` | controller/user.go:1313-1320 | when all requests are over, every channel is empty and the creation mutex free |
| `BodyStream.ReadsAgreeIff` | common/body_storage.go:47-54 | memory and disk answer a read alike unless it is an empty read at the end of an open body |
| `BodyStream.ReadMeaning` | common/body_storage.go:47-54 | which bytes, how many and which error a read gives from memory and from disk: closed iff closed, the end iff the position is at or past it (on disk, unless the read is empty) |
| `BodyStream.SeekMeaning` | common/body_storage.go:56-63 | where each kind of seek goes and when it fails |
| `BodyStream.StoragesAgreeIff` | common/body_storage.go:47-81 | every sequence of reads, seeks, Bytes and closes gets the same answers from both iff it never reads into an empty buffer at the end of the open body |
| `BodyStream.DrainReadsTheRest` | common/body_storage.go:169-176 | reading to the end in chunks of any size yields exactly the bytes from the position on |
| `BodyStream.ReadsInPieces` | common/body_storage.go:47-54 | reads of any size from the start give one piece after the other without an error, then the end of the file each time |
| `BodyStream.BytesGivesAll` | common/body_storage.go:74-81 | Bytes gives the whole body after any calls, as long as it is open |
| `BodyStream.ClosedIff` | common/body_storage.go:65-72 | a body is closed exactly from its first Close on |
| `BodyStream.BytesIsInvisible` | common/body_storage.go:198-230 | a call of Bytes, anywhere in a sequence, changes no later answer and not the place reached |
| `BodyStorage.MemoryStorage.Read` | common/body_storage.go:47-54 | the abstract memory read and the abstract move |
| `BodyStorage.MemoryStorage.Seek` | common/body_storage.go:56-63 | the abstract seek, with its errors |
| `BodyStorage.MemoryStorage.Bytes` | common/body_storage.go:74-81 | all bytes, or the error when closed |
| `BodyStorage.MemoryStorage.Close` | common/body_storage.go:65-72 | takes this buffer and its size, once, out of the counted ones |
| `BodyStorage.DiskStorage.Read` | common/body_storage.go:169-176 | the abstract disk read and the abstract move |
| `BodyStorage.DiskStorage.Seek` | common/body_storage.go:178-185 | the abstract seek, with its errors |
| `BodyStorage.DiskStorage.Bytes` | common/body_storage.go:198-230 | all bytes, with the offset put back where it was |
| `BodyStorage.DiskStorage.Close` | common/body_storage.go:187-196 | closes and removes the file and takes it and its size, once, out of the counted ones |
| `BodyStorage.CacheStats.DecrementDiskFiles` | common/disk_cache_config.go:115-122 | one file and its size less, each clamped at zero |
| `BodyStorage.CacheStats.DecrementMemoryBuffers` | common/disk_cache_config.go:131-134 | one buffer and its size less, not clamped |
| `BodyStorage.CacheStats.IncrementDiskFiles` | common/disk_cache_config.go:109-112 | keeps each counter equal to the number or total size of the open storages |
| `BodyStorage.CacheStats.IncrementMemoryBuffers` | common/disk_cache_config.go:125-128 | the same for memory |
| `BodyStorage.TotalSplit` | common/disk_cache_config.go:109-134 | taking one storage out of a set lowers the total by its size, whatever the order |
| `BodyCreation.NewMemoryStorage` | common/body_storage.go:37-45 | a fresh counted storage at position zero holding the data |
| `BodyCreation.WriteCacheFile` | common/body_storage.go:100-130 | a rewound file holding the data iff creating, writing and rewinding all work |
| `BodyCreation.NewDiskStorage` | common/body_storage.go:100-130 | the same as a counted storage; on failure the counters are untouched |
| `BodyCreation.CreateBodyStorage` | common/body_storage.go:241-259 | always a storage of the data; on disk iff the cache is on, the body large enough, there is room and the disk works; usage stays within the maximum |
| `BodyCreation.PrefersDiskIff` | common/body_storage.go:246-248 | the disk is chosen iff the cache is on, the body has the threshold size and fits under the maximum, both in megabytes |
| `BodyCreation.ReadToDisk` | common/body_storage.go:132-167 | stored iff nothing fails and the body fits the limit, holding exactly the input |
| `BodyCreation.ReadToMemory` | common/body_storage.go:283-302 | stored iff the read works and the body fits the limit, holding exactly the input |
| `BodyCreation.CreateBodyStorageFromReader` | common/body_storage.go:262-303 | stored iff the read works, the body fits the limit and, when it streams, the disk works; which error each refusal gives and which storage is chosen; the exact usage afterwards; hits counted once |
| `BodyCreation.UsageBoundIff` | common/body_storage.go:262-303 | from every usage within the maximum, whatever is read and whatever fails, a creation stays within it iff the declared length cannot stream to disk or the limit is at most the declared length |
| `BodyCreation.UnderstatedLengthOverflows` | common/body_storage.go:262-303 | a call that overflows: one byte declared, a megabyte and one byte read, a cache of one megabyte |
| `BodyRuns.Perform` | common/body_storage.go:47-230 | one call on a storage of either kind answers and moves as the abstract stream, and keeps the counters true |
| `BodyRuns.PlayTwins` | common/body_storage.go:47-230 | the same calls on the memory object and the disk object of one body leave both at the same place, and get the same answers iff none reads into an empty buffer at the end of the open body |
| `BodyRuns.Serve` | common/body_storage.go:37-303 | over any run of creations, reads, seeks and (repeated) closes the counters are the numbers and sizes of the open storages; disk usage stays within the maximum when each body is no longer than declared or each creation bounded |
| `BodyRuns.Add` | common/body_storage.go:262-303 | one creation in such a run |
| `BodyRuns.UseOne` | common/body_storage.go:47-230 | one call in such a run never raises the disk usage |
| `VerificationRuns.VerifiesIffLatest` | common/verification.go:94-101 | in every run a code verifies iff it is the latest registered under the key, still valid, and neither deleted nor forced out |
| `VerificationRuns.LatestMeaning` | common/verification.go:76-101 | the latest code of a key is one that was registered and that no registration, deletion or eviction has ended since |
| `VerificationRuns.EveryRunRemembers` | common/verification.go:76-101 | in every run the store holds the latest entry of a key, or lacks it because it has expired |
| `VerificationRuns.StoreWithinCap` | common/verification.go:141-172 | in every run the store stays within its cap |
| `VerificationRuns.RegistrationEvicts` | common/verification.go:141-172 | what a registration evicts in a run: nothing within the cap; beyond it every entry of ten minutes; a younger one only when there is none, and none that stays is older |
| `VerificationRuns.TimesInThePast` | common/verification.go:76-82 | in every run no stored entry is newer than the last change |
| `VerificationRuns.AtMostOneForcedOut` | common/verification.go:155-170 | a registration forces out at most one unexpired entry, and none that stays is older |
| `VerificationRuns.NewCodeStays` | common/verification.go:155-170 | a new code is itself forced out only if every entry that stays has exactly its time |
| `VerificationRuns.ExpiryExact` | common/verification.go:98 | although the age is truncated to whole seconds, an entry is valid for exactly ten minutes, to the nanosecond |
| `VerificationStore.Codes.Register` | common/verification.go:76-82 | the new entry replaces the old one, then the eviction |
| `VerificationStore.Codes.Verify` | common/verification.go:94-101 | whether the code is the stored, unexpired one |
| `VerificationStore.Codes.Has` | common/verification.go:118-124 | holds iff some code would verify |
| `VerificationStore.Codes.DeleteKey` | common/verification.go:134-136 | forgets that key and no other |
| `VerificationStore.Codes.DropExpired` | common/verification.go:146-150 | leaves exactly the unexpired entries |
| `VerificationStore.Codes.TimesOf` | common/verification.go:160-163 | lists every key once, with its time |
| `VerificationStore.Codes.EvictLocked` | common/verification.go:141-172 | nothing within the cap; else the unexpired entries if that is enough; else the cap of them, none older than one thrown out |

## Left out

- HTTP handlers, JSON binding, translation of messages and logging have no invariant of their own.
- The database, Redis, the file system and the network appear only as success or failure, or as an abstract file. The Redis branches of the limiter and of the verification store are not modelled.
- Each method runs as one atomic step under its mutex, except the top-up protocol, which is modelled step by step.
- Numbers are unbounded integers and reals: 64-bit overflow, floating-point rounding, NaN and infinities are not modelled.
- Strings are sequences of characters, so the preview of the first ten bytes of a key is one of ten characters.
- Rate limiter: starting and stopping the sweeper goroutine, and callers that change the limit of one key between calls; the theorems fix a limit per key.
- Upstream models: regular expressions are an arbitrary relation between pattern and name, the model mapping is given parsed, and fetching, notifying and rebuilding the ability table are outside (the last as success or failure).
- Multi-key channel: key fields holding a JSON array and Vertex keys, choosing the key for a request, the cached copy of the channel, and the channel's own status; a report that comes while the channel as a whole has the reported status already is ignored, so it is no edit.
- Price table: source names are assumed to be distinct (the caller appends the id to a name unless it is zero, so two requested upstreams can share one); Go's numeric types are all reals and nested JSON values are left out; the conversion of chosen prices to ratios and its rounding is not modelled.
- Video task: the lookups of model and group ratios are one optional pair; statistics of used quota and the task log are outside; the balance is that of one user.
- Request bodies: the slice returned by `Bytes` is a copy, reads are never short, whence values beyond the three standard ones are errors; removing cache files by age and resetting counters are outside, and the exact counter invariant does not survive them.
- BodyCreation.CreateBodyStorageFromReader: the configuration is fixed during one call, and creations do not interleave; between two concurrent admissions the usage bound need not hold.
- Verification codes: keys are taken as already joined with their purpose, comparison in constant time is equality, and generating codes is outside.
- Midjourney refunds, the relay retry loop, OAuth, passkeys and two-factor login are not part of this model.
