# ClassGuard: verified model of the filtering, addressing and HA logic

ClassGuard filters DNS for a school network, manages its addresses, keeps a small cluster of
servers alive, and serves lessons. This project models the parts of it that are algorithms
rather than plumbing and proves what they promise, for all inputs and over whole runs:

* **`DomainWalk.dfy`, `Resolver.dfy`**: how a queried name is matched against domain sets, and
  the ordered cascade of filtering stages with its dry-run twins.
* **`Ipv4.dfy`, `SubnetPolicy.dfy`, `Ipam.dfy`**: JavaScript's 32-bit operators, dotted quads and
  CIDR blocks; longest-prefix policy choice; host listing, paging, splitting and overlap.
* **`LogDrain.dfy`**: the ring buffer of the query log and its background drain.
* **`AutoPromote.dfy`, `PgHba.dfy`, `UpdateSchedule.dfy`**: the promotion vote and countdown, the
  replication section of `pg_hba.conf`, and the update-schedule table with its relays.
* **`ScreenTime.dfy`**: heartbeats stitched into intervals.
* **`RestrictChain.dfy`**: VPN restrictions compiled into a first-match chain.
* **`Plist.dfy`, `PlistDocument.dfy`, `Csv.dfy`**: the printers, with readers that invert them.
* **`LessonPages.dfy`**: page numbering and session navigation.
* **`Upstream.dfy`**: the resolver-client memo and failover.
* **`Versions.dfy`**: comparison of dotted versions.
* **`Text.dfy`, `Decimal.dfy`, `Wrappers.dfy`**: split, join, lower-casing, decimal text and optional
  values shared by the above.

Code that updates state is a class whose methods are proved against a specification function;
the theorems are lemmas about that function. Redis, PostgreSQL and HTTP appear as sets, maps,
tables and outcomes passed in. A call that may fail has its failure as a value. Where the code
awaits between reading and writing shared state, a method takes what others do meanwhile as a
parameter, and the run theorems range over the interleaved steps.

## What the proofs found

Places where the code, its comments or an obvious expectation part, each with the exact condition:

* A per-command error inside a live pipeline is read as a miss. The blocklist lookup therefore
  fails closed only when the whole pipeline rejects; a listed name passes the blocklist exactly
  when the command of every listed parent failed (`DomainWalk.CommandErrorsFailOpen`), and is then
  forwarded exactly when its category, as looked up, is not blocked
  (`Resolver.FailsClosedOnlyOnRejection`).
* `resolver.js:110-113` says a monitor-only session still tags the log; the code takes the tag
  from the enforced policy, so it is lost (`Resolver.SessionTagOfStudent`,
  `Resolver.MonitorOnlySessionLosesItsTag`).
* `ha.js:201-204` describes a majority of the OTHER nodes; the code counts this node's own vote
  as well. The two differ exactly on two kinds of tie (`AutoPromote.OwnVoteDecidesTies`).
* A heartbeat that never reaches the evaluation does not reset the promotion countdown
  (`AutoPromote.SkippedHeartbeatsDoNotReset`).
* Evaluations of the promotion countdown may overlap, since the timer does not wait for them. An
  attempt is then backed by an unbroken grace period exactly when nothing ended the countdown
  between the latest arming and the attempt (`AutoPromote.AttemptBackedIff`), which only another
  evaluation can do (`AutoPromote.OnlyOthersBreakBacking`). A reset in that window makes an attempt
  at once (`AutoPromote.ResetWhileReadingGrace`), and two waiting evaluations attempt twice
  (`AutoPromote.OverlapAttemptsTwice`). Without overlap every attempt is backed.
* Removing peer `x` from `pg_hba.conf` also drops a peer whose name begins with `x/32`, and no
  other (`PgHba.DropsExactly`). URL host names hold no slash, so runs are exact for them.
* An undocumented status in a progress report closes the open row without a completion time
  (`UpdateSchedule.ReportKeepsConsistentIff`).
* `UNIQUE(lesson_id, position)` (`091_classpulse.sql:34`) is not deferrable, so a bulk update is
  checked row by row. Deleting a page commits exactly when the scan meets the pages above the gap
  upwards, and is rolled back otherwise (`LessonPages.DeleteKeepsNumbered`,
  `LessonPages.DownwardScanFails`).
* A reorder request may list anything. It commits exactly when it lists UUIDs only and no known
  page for a position that a page outside the list holds (`LessonPages.ReorderCommitsIff`). The
  numbering survives exactly when it is rolled back or no known page is listed beyond index n-1
  (`LessonPages.ReorderKeepsNumberedIff`, `LessonPages.ReorderBeyondLastLosesNumbering`).
* Creating a page reads the greatest position and inserts in two statements. The insert keeps the
  numbering exactly when the lesson has not shrunk in between (`LessonPages.CreateKeepsNumberedIff`,
  `LessonPages.DeleteDuringCreateLeavesGap`). A whole run keeps it exactly when each insert and each
  reorder meets its condition (`LessonPages.EveryRunStaysNumbered`).
* A press of next moves a session on by one exactly when no other press has moved it between its
  read and its write (`LessonPages.PressMovesOnIff`).
* The unique index on open screen-time intervals cannot see a missing device. However heartbeats
  overlap, one open interval per key is kept exactly as long as no heartbeat without a device
  inserts next to an open interval (`ScreenTime.OneOpenThroughoutIff`, `ScreenTime.OverlapOfOneKey`).
  Heartbeats of different keys may overlap freely (`ScreenTime.EveryInterleavingAddsUp`).
* The memo key does not tell all resolver settings apart. Settings share their key with others
  exactly when the key can be cut at another bar with a list of entries on either side
  (`Upstream.SharesKeyIff`), never without a bar in an address (`Upstream.NoBarNoAmbiguity`). The
  memo then serves stale clients: exactly when the settings with which the present stretch of
  equal keys began were others (`Upstream.StaleExactly`, `Upstream.BarMakesStale`).
* The `",` check of the SEB configuration skips keys, so it guards the printed text exactly for
  trees whose keys are free of it (`PlistDocument.CheckGuardsTextUpToKeys`).
* An export with no rows reads back with one extra record (`Csv.ExportRoundTrip`).
* The free rows listed for a subnet are never fewer than the utilization figure, and equal it
  exactly when the non-free documents name distinct hosts or every host is taken
  (`Ipam.FreeRowsAgainstUtilization`).
* While the restriction chain is rebuilt, a packet the full chain drops falls through until
  exactly the last of its client's own rules stands (`RestrictChain.PartialVerdict`).
* The agent ignores failing `iptables` commands. On a flushed chain nothing beyond the map is ever
  accepted; what the map drops falls through exactly when that client's drop failed; what it
  accepts is dropped exactly when the accepts for it failed and the drop did not
  (`RestrictChain.FailedCommands`). After a failed flush the old rules decide first
  (`RestrictChain.FailedFlush`).

## Model

| member | source | states |
|---|---|---|
| `DomainWalk.GetDomainsToCheck` | dns-engine/src/blocklistLoader.js:10-19 | the loop yields every label suffix of at least two labels, longest first |
| `DomainWalk.IsBlocked` | dns-engine/src/blocklistLoader.js:25-36 | true exactly when a checked name is listed and its own command succeeded; rejects only with the pipeline |
| `DomainWalk.GetCategoryForDomain` | dns-engine/src/categoryLookup.js:13-27 | the first successful non-empty category in walk order, or none |
| `DomainWalk.WalkIsSuffixTest` | dns-engine/src/blocklistLoader.js:10-19 | the walk visits exactly the dotted names the suffix test accepts (section 3.1 of RFC 1034) |
| `DomainWalk.BlocklistAgreesWithAllowList` | dns-engine/src/resolver.js:11-18 | for names without a trailing dot the blocklist test is the allow-list test on the dotted entries |
| `DomainWalk.CommandErrorsFailOpen` | dns-engine/src/blocklistLoader.js:34-35 | a listed name reads as not blocked exactly when every listed parent's command failed |
| `DomainWalk.MostSpecificCategoryWins` | dns-engine/src/categoryLookup.js:22-26 | the category returned is that of the longest dotted suffix with a non-empty one; none exactly when there is none |
| `Text.LowerForgetsCase` | dns-engine/src/blocklistLoader.js:11 | folding makes two texts equal exactly when they differ in the case of ASCII letters only |
| `DomainWalk.CaseNeverMatters` | dns-engine/src/resolver.js:11-18 | blocklist, category table and allow lists treat names that differ in letter case only alike |
| `DomainWalk.TrailingDotNeverMatters` | dns-engine/src/blocklistLoader.js:11 | one trailing dot goes, no more, and the walk is that of the bare name |
| `Resolver.Engine.ForwardToUpstream` | dns-engine/src/resolver.js:277-295 | cache first; upstream failure, failing rcode or failed cache write mean unresolvable; only non-empty answers are cached |
| `Resolver.Engine.DryRunForward` | dns-engine/src/resolver.js:247-250 | forwarded answers or none, no log entry |
| `Resolver.Engine.ForwardAndLog` | dns-engine/src/resolver.js:252-260 | one log entry: allowed with the cache flag, or blocked as unresolvable |
| `Resolver.Engine.ChoosePolicy` | dns-engine/src/resolver.js:83-108 | lesson or penalty box of a known student, else the floor; subnet before floor for unknown devices |
| `Resolver.Engine.FilterStages` | dns-engine/src/resolver.js:116-155 | allow lists, penalty box and lesson with their dry-run twins, then the other stages, implement the verdict |
| `Resolver.Engine.ModeStages` | dns-engine/src/resolver.js:157-182 | open mode, override code and default deny with its dry-run twin, then the safety lookups, implement the rest of the verdict |
| `Resolver.Engine.SafetyStages` | dns-engine/src/resolver.js:184-229 | blocklist and category stages, each closed when its lookup rejects, implement the safety objection |
| `Resolver.Engine.ResolveQuery` | dns-engine/src/resolver.js:30-230 | result, log and cache of the whole pipeline are those of the verdict specification |
| `Resolver.LocalRecordsDecideAlone` | dns-engine/src/resolver.js:43-52 | a local record answers whatever else the world holds, logged without identity and uncached |
| `Resolver.ZonesBypassTheFilter` | dns-engine/src/resolver.js:54-61 | otherwise the first zone at or above the name answers, unfiltered, unlogged, uncached |
| `Resolver.SubnetGovernsUnknownDevices` | dns-engine/src/resolver.js:103-108 | for a device without student only the subnet policy counts: any network policy gives the same outcome |
| `Resolver.FloorGovernsTheRest` | dns-engine/src/resolver.js:103-108 | without a subnet policy the network floor alone decides |
| `Resolver.LessonGovernsItsStudents` | dns-engine/src/resolver.js:89-102 | in a lesson or penalty box the own policy alone decides, whatever floor and subnet say |
| `Resolver.MissingIsStandard` | dns-engine/src/resolver.js:110-120 | a missing policy or mode is judged as a standard one |
| `Resolver.ReasonExactly` | dns-engine/src/resolver.js:137-226 | each objection has its own reason, the strongest one |
| `Resolver.ExemptExactly` | dns-engine/src/resolver.js:126-171 | exactly who is exempt: global and own allow list, open mode, standard mode with a usable override |
| `Resolver.ForwardedTruly` | dns-engine/src/resolver.js:252-260 | without objection the result is what cache or upstream has, and only an unresolvable name is refused |
| `Resolver.RefusedTruly` | dns-engine/src/resolver.js:137-229 | with an objection the result is a block with that reason, or under dry-run marked with it |
| `Resolver.OneTrueLogEntry` | dns-engine/src/resolver.js:247-260 | a filtered query is logged once, with its name, address, device, session and what was answered |
| `Resolver.UpstreamMeans` | dns-engine/src/resolver.js:277-295 | exactly which replies count as unresolvable, and what is cached |
| `Resolver.QueriesIgnoreCase` | dns-engine/src/resolver.js:31 | names that differ in letter case only have one outcome |
| `Resolver.QueriesIgnoreTrailingDot` | dns-engine/src/resolver.js:31 | a name and the same name with a trailing dot have one outcome |
| `Resolver.DryRunShadow` | dns-engine/src/resolver.js:120-260 | dry-run logs the one entry of the block with the same reason and forwards; every other query is identical |
| `Resolver.AllowingMoreNeverBlocks` | dns-engine/src/resolver.js:116-136 | longer allow lists, global or of any policy, never turn a forward into a block |
| `Resolver.BlockingMoreNeverForwards` | dns-engine/src/resolver.js:184-226 | more blocklist entries or blocked categories never turn a block into a forward |
| `Resolver.OrdinaryStudentsSeeTheFloor` | dns-engine/src/resolver.js:89-108 | a student in neither lesson nor penalty box is judged by the network floor alone |
| `Resolver.OrdinaryStudentsGetTheSameAnswers` | dns-engine/src/resolver.js:89-230 | two such students get the same result for the same query |
| `Resolver.SessionTagOfStudent` | dns-engine/src/resolver.js:110-114 | the logged session is the own policy's in a lesson or penalty box, else the floor's; above a floor without one the own session is lost exactly when it exists and is not enforced |
| `Resolver.MonitorOnlySessionLosesItsTag` | dns-engine/src/resolver.js:110-114 | a monitor-only session is logged without its id |
| `Resolver.FailsClosedOnlyOnRejection` | dns-engine/src/resolver.js:184-226 | either lookup rejected, all but exempt queries are blocked; with both alive a listed name left to the lookups is forwarded exactly when command errors cover it and its category is not blocked |
| `Resolver.BlockedExactly` | dns-engine/src/resolver.js:127-230 | which queries the verdict blocks, as one condition: a direct reading of the definitions |
| `Resolver.ModesDecideWithoutLookups` | dns-engine/src/resolver.js:127-182 | cases in which the verdict does not read the lookups: a direct reading of the definitions |
| `Resolver.ResolvedNamesStayResolved` | dns-engine/src/resolver.js:277-295 | non-empty answers repeat from the cache, failures leave no trace, other names are untouched: a direct reading of the cache step |
| `Ipv4.ParsersAgree` | dns-engine/src/policyCache.js:217-221 | both ipToInt versions read a canonical quad as the same 32-bit number |
| `Ipv4.FoldsAgree` | backend/src/routes/ipam.js:1463-1465 | the shifting and the multiplying fold agree for any number of byte octets |
| `Ipv4.ParseOfIntToIp` | backend/src/routes/ipam.js:1463-1469 | parsing a printed address gives the number back, with either parser |
| `Ipv4.IntToIpOfParse` | backend/src/routes/ipam.js:1463-1469 | printing a parsed canonical quad gives the quad back |
| `Ipv4.MaskTestIsInterval` | dns-engine/src/policyCache.js:223-235 | the mask test is membership of [base, base + 2^(32-bits)), for prefixes 0 to 32 |
| `Ipv4.OddPrefixes` | dns-engine/src/policyCache.js:223-235 | prefix 0 masks everything, others count modulo 32, and what is no number compares whole addresses |
| `Ipv4.BadOctets` | dns-engine/src/policyCache.js:217-221 | a part without a number is 0 to one fold and clears what came before for the other |
| `Ipv4.WordSemantics` | backend/src/routes/ipam.js:1463-1469 | signed 32-bit results keep the bit pattern and shift counts wrap at 32 |
| `SubnetPolicy.GetSubnetPolicy` | dns-engine/src/policyCache.js:294-305 | the policy of the first matching entry of greatest prefix length; null exactly when none matches |
| `SubnetPolicy.SubnetTestIsInterval` | dns-engine/src/policyCache.js:223-235 | on canonical text the subnet test is membership of the CIDR interval |
| `SubnetPolicy.SmallestBlockGoverns` | dns-engine/src/policyCache.js:294-305 | over written blocks the chosen row is the smallest enabled block around the address, the first of equal ones |
| `SubnetPolicy.BareAddressIsOneHost` | dns-engine/src/policyCache.js:298-300 | a bare address is the block of that address alone, of prefix length 32 |
| `SubnetPolicy.DisabledRowsMatchNothing` | dns-engine/src/policyCache.js:296-301 | rows without subnet, policy or a prefix of 0 or more govern nothing |
| `SubnetPolicy.OtherShapesMatchNothing` | dns-engine/src/policyCache.js:217-235 | an address not written in four parts is in no subnet |
| `SubnetPolicy.EqualLengthMatchesCoincide` | dns-engine/src/policyCache.js:294-305 | two matches of one prefix length are the same block |
| `SubnetPolicy.OnCampusIsUnionOfBlocks` | dns-engine/src/policyCache.js:265-269 | on campus exactly when some campus block contains the address |
| `SubnetPolicy.NetworkPolicyMemo.GetNetworkPolicy` | dns-engine/src/policyCache.js:320-347 | the memo never shows: result as if the cached string were parsed on every call |
| `Ipam.EnumerateHosts` | backend/src/routes/ipam.js:955-972 | the masked 32-bit loop lists the rows of all hosts from first to last |
| `Ipam.HostMaskFacts` | backend/src/routes/ipam.js:962-964 | the signed shift and complement give the block's base, for every enumerable prefix |
| `Ipam.EnumeratesFromSlash16` | backend/src/routes/ipam.js:948-951 | free addresses are enumerated exactly for /16 to /32 |
| `Ipam.HostRange` | backend/src/routes/ipam.js:1454-1461 | the hosts are hostCount consecutive addresses, including /31 and /32 |
| `Ipam.EveryHostOnce` | backend/src/routes/ipam.js:955-972 | each host appears at exactly one row, in ascending order |
| `Ipam.PagesConcatenateToRows` | backend/src/routes/ipam.js:991-998 | pages 1 to total_pages concatenate to the whole list, none of them is empty unless the list is, which still has one |
| `Ipam.FreeRowsAgainstUtilization` | backend/src/routes/ipam.js:937-972 | free rows are at least utilization.free, and equal exactly for distinct host documents or when every host is taken |
| `Ipam.TakenWithOneMore` | backend/src/routes/ipam.js:957 | of several documents of one address the last in the map decides |
| `Ipam.SubnetTable.Split` | backend/src/routes/ipam.js:1222-1259 | exactly when which of the four refusals is returned; else the absent children are appended and created plus skipped is the count |
| `Ipam.MissingMembers` | backend/src/routes/ipam.js:1250-1253 | exactly the children not yet in the table are inserted |
| `Ipam.ChildInside` | backend/src/routes/ipam.js:1236-1249 | every child is an aligned block inside the parent |
| `Ipam.SplitPartitions` | backend/src/routes/ipam.js:1236-1249 | every address of the parent lies in exactly one child |
| `Ipam.ContainmentIsOverlap` | backend/src/routes/ipam.js:40-49 | two blocks share an address exactly when one contains the other (section 3.1 of RFC 4632) |
| `Ipam.NoOverlapIffDisjoint` | backend/src/routes/ipam.js:40-49 | no conflict is found exactly when no other subnet of the VRF shares an address |
| `LogDrain.Logger.Enqueue` | dns-engine/src/logger.js:14-24 | the ring appends and drops its oldest entry when full |
| `LogDrain.Logger.DequeueAll` | dns-engine/src/logger.js:26-36 | everything held comes out in order and the ring is empty |
| `LogDrain.Logger.OnTick` | dns-engine/src/logger.js:46-54 | a tick starts a flush with all held entries unless one is running or nothing is held |
| `LogDrain.Logger.OnChunk` | dns-engine/src/logger.js:52-80 | the commands that took effect extend the stream whatever became of the others; a rejected chunk abandons the rest |
| `LogDrain.EveryRunIsSound` | dns-engine/src/logger.js:8-80 | over every interleaving, with commands failing one by one: ordered subsequence, none twice, logged = sent + lost + dropped + held + unsent |
| `LogDrain.RunningFlushUndisturbed` | dns-engine/src/logger.js:46-48 | logging, ticks and trimming leave the items and the position of a running flush as they are |
| `LogDrain.BurstKeepsNewest` | dns-engine/src/logger.js:14-24 | a burst leaves the newest capacity entries and counts the dropped ones |
| `LogDrain.QuietFlushSendsAll` | dns-engine/src/logger.js:52-74 | a flush without failures appends exactly what it took, in order |
| `LogDrain.TickSendsWhatWasHeld` | dns-engine/src/logger.js:46-84 | a tick and chunk replies without failures send all that was held, in order, and leave the logger idle and empty |
| `LogDrain.TrimsAddUp` | dns-engine/src/logger.js:56-60 | the stream loses its oldest entries, one trim after the other adding up, never beyond its end |
| `LogDrain.RejectedChunkEndsFlush` | dns-engine/src/logger.js:73-78 | after a rejected chunk nothing more of the flush is sent, whatever replies come, and the rest is lost |
| `AutoPromote.VoteSaysDown` | backend/src/routes/ha.js:211-250 | down exactly when a primary is known and nobody else answered and the own probe failed, or a strict majority of answers plus self says so |
| `AutoPromote.OwnVoteDecidesTies` | backend/src/routes/ha.js:201-208 | when the code's vote and the documented majority of the other nodes agree, both directions |
| `AutoPromote.Standby.MaybeAutoPromote` | backend/src/routes/ha.js:285-321 | whatever other evaluations do at each await: attempt and countdown are those of all steps in order; alone it is one step of a serial run |
| `AutoPromote.Standby.OnHeartbeat` | backend/src/routes/ha.js:325-332 | a heartbeat without evaluation leaves the countdown alone; otherwise as the evaluation |
| `AutoPromote.AttemptBackedIff` | backend/src/routes/ha.js:285-321 | however evaluations overlap: an attempt has an unbroken countdown over the grace exactly when nothing ended it since the latest arming |
| `AutoPromote.FireAttemptsIff` | backend/src/routes/ha.js:299-311 | with a clock that never runs back: a measurement attempts exactly when backed on a running countdown, and at once on an ended one |
| `AutoPromote.OnlyOthersBreakBacking` | backend/src/routes/ha.js:285-332 | an attempt lacks its backing exactly when another evaluation reset or attempted since the latest arming |
| `AutoPromote.ResetWhileReadingGrace` | backend/src/routes/ha.js:297-305 | a reset during the grace query makes an attempt at once |
| `AutoPromote.OverlapAttemptsTwice` | backend/src/routes/ha.js:297-313 | two evaluations waiting for the grace query both attempt |
| `AutoPromote.SerialIsInterleaved` | backend/src/routes/ha.js:325-332 | a run without overlap is a run of steps with the same countdown and attempts |
| `AutoPromote.AttemptImpliesUnbrokenGrace` | backend/src/routes/ha.js:285-321 | without overlap: an attempt implies an unbroken candidate series over the configured grace with no attempt inside |
| `AutoPromote.AttemptIffUnbrokenGrace` | backend/src/routes/ha.js:285-321 | without overlap and with a clock that never runs back this is exact |
| `AutoPromote.AttemptWaitsItsSeconds` | backend/src/routes/ha.js:285-311 | in clock time and in the readings themselves: 300 s without a setting or with 0, otherwise the setting in seconds, of enabled, master and voted-down evaluations; both directions |
| `AutoPromote.SkippedHeartbeatsDoNotReset` | backend/src/routes/ha.js:325-332 | any number of skipped heartbeats between two evaluations still leads to an attempt |
| `PgHba.HbaFile.UpdateReplication` | backend/src/routes/ha.js:99-118 | the file after one add or remove |
| `PgHba.ReadBack` | backend/src/routes/ha.js:102-110 | re-reading base text plus entry lines gives those lines; the marker is found nowhere earlier |
| `PgHba.GeneratedLineReads` | backend/src/routes/ha.js:108-113 | a generated line matches the line pattern |
| `PgHba.EntryLineShape` | backend/src/routes/ha.js:107 | a line is kept for an entry exactly when it begins with the three words, each followed by white space |
| `PgHba.OthersNeedPassword` | backend/src/routes/ha.js:93-94 | the last base rule, for all other connections, asks for a password |
| `PgHba.DropsExactly` | backend/src/routes/ha.js:114 | the filter drops a line exactly when its host is the ip or begins with ip/32 |
| `PgHba.SlashedHostIsDropped` | backend/src/routes/ha.js:114 | a different host's line that is dropped |
| `PgHba.FileFollowsPeers` | backend/src/routes/ha.js:74-118 | after any run of adds and removes the file is base text plus one line per peer in order |
| `PgHba.PeersAreLatestAdds` | backend/src/routes/ha.js:99-118 | the peers are the hosts whose latest operation is an add, each once, by latest add |
| `UpdateSchedule.Primary.DoScheduleUpdate` | backend/src/routes/ha.js:1265-1280 | one upsert per active node, in order |
| `UpdateSchedule.Primary.DoCancelSchedule` | backend/src/routes/ha.js:1282-1289 | open rows of the node fail with a completion time; tells whether there were any |
| `UpdateSchedule.Primary.HandleFor` | backend/src/routes/ha.js:1328-1375 | table effect and response code of the endpoints on the primary |
| `UpdateSchedule.Primary.HandleOnStandby` | backend/src/routes/ha.js:1301-1363 | a delivered relay has the table effect and code of the direct request; otherwise 503 or 500 |
| `UpdateSchedule.CodesTellEffects` | backend/src/routes/ha.js:1328-1461 | which code each request gets and what it changes: 400 changes nothing, 404 exactly when nothing is open |
| `UpdateSchedule.ScheduleReachesActive` | backend/src/routes/ha.js:1265-1280 | every active node gets an open row with target and time; all other nodes keep theirs |
| `UpdateSchedule.ReportWrites` | backend/src/routes/ha.js:1444-1461 | a report writes its status and log into open rows of its node, and a completion time with a terminal status only |
| `UpdateSchedule.CancelWrites` | backend/src/routes/ha.js:1282-1289 | a cancellation writes failed, its log text and the time into open rows of its node |
| `UpdateSchedule.StatementKeepsConsistent` | backend/src/routes/ha.js:1265-1289 | each statement keeps one open row per node and completion times exactly on terminal rows, freezes terminal rows, and keeps every requester and creation time |
| `UpdateSchedule.EveryRunKeepsConsistent` | backend/src/routes/ha.js:1265-1495 | the same over every run |
| `UpdateSchedule.ReportKeepsConsistentIff` | backend/src/routes/ha.js:1444-1461 | a report keeps the table consistent exactly when its status is documented or nothing is open |
| `UpdateSchedule.UpsertSchedules` | backend/src/routes/ha.js:1270-1276 | afterwards the node has an open row with the new target and time; an open row keeps its requester and creation time, and only without one a row joins |
| `UpdateSchedule.ClosingCloses` | backend/src/routes/ha.js:1283-1287 | a cancellation or terminal report leaves nothing open and changes nothing if nothing was |
| `ScreenTime.Intervals.RecordScreenTimeHeartbeat` | backend/src/routes/extension.js:209-248 | the table after one heartbeat whose statements, planned at its read, run between those of others; alone it is the recorded beat |
| `ScreenTime.OwnBeatCounts` | backend/src/routes/extension.js:209-248 | a beat extends its key's total by exactly the counted gap |
| `ScreenTime.OtherKeyUntouched` | backend/src/routes/extension.js:213-218 | a beat leaves other students' and devices' intervals alone |
| `ScreenTime.EveryTraceAddsUp` | backend/src/routes/extension.js:207-248 | intervals are ordered and disjoint and add up to the gaps of at most 90 s after active beats |
| `ScreenTime.OneOpenInterval` | backend/src/routes/extension.js:213-219 | at most one open interval per key in every serial trace |
| `ScreenTime.OneOpenThroughoutIff` | backend/src/db/migrations/057_screen_time.sql:21-25 | for any statements in any order: one open interval per key is kept exactly when no insert without a device meets an open one |
| `ScreenTime.OverlapOfOneKey` | backend/src/routes/extension.js:213-229 | two overlapping first beats open two intervals without a device, and lose counted time with one |
| `ScreenTime.EveryInterleavingAddsUp` | backend/src/routes/extension.js:207-248 | heartbeats of different keys interleaved statement by statement: intervals ordered, disjoint, one open, and the closed-form total |
| `ScreenTime.UndisturbedIsRecorded` | backend/src/routes/extension.js:209-248 | among interleaved statements, a heartbeat whose writes directly follow its read is the recorded beat |
| `RestrictChain.Firewall.EnsureRestrictChain` | infrastructure/vpn/vpn-agent.py:119-128 | which commands worked decides whether the chain exists and is hooked in; if all did, it is hooked in front of FORWARD once |
| `RestrictChain.Firewall.ApplyClientRestrictions` | infrastructure/vpn/vpn-agent.py:131-145 | the state after a poll whatever commands failed, and the chain after each number of appends; the compiled map if all worked |
| `RestrictChain.ChainMeansMap` | infrastructure/vpn/vpn-agent.py:131-145 | first-match evaluation equals the restriction map for every packet |
| `RestrictChain.PartialChainNeverDropsMore` | infrastructure/vpn/vpn-agent.py:139-145 | a partly built chain never drops what the full one passes, and falls through exactly where none of its rules matches |
| `RestrictChain.LiveVerdict` | infrastructure/vpn/vpn-agent.py:139-145 | the verdict on a restricted client after any number of appends of which any failed: accepted by a standing rule, else dropped if its drop stands, else passed on |
| `RestrictChain.FailedCommands` | infrastructure/vpn/vpn-agent.py:139-145 | against the map: nothing more is accepted, and exactly when failed commands let a drop through or drop what is accepted |
| `RestrictChain.FailedFlush` | infrastructure/vpn/vpn-agent.py:139 | after a failed flush the old rules decide first |
| `RestrictChain.PartialVerdict` | infrastructure/vpn/vpn-agent.py:139-145 | without failures: accepted once a rule allowing the destination stands, dropped exactly from the client's last rule on, passed on before |
| `RestrictChain.OnlyTheLastMapCounts` | infrastructure/vpn/vpn-agent.py:119-145 | after any polls with any failures a flushed chain depends on the last map and poll only; without failures it is the compiled map and FORWARD holds one jump |
| `RestrictChain.WhatFailedSetupLeaves` | infrastructure/vpn/vpn-agent.py:119-128 | without the chain a poll changes nothing, without the insert FORWARD stays, and a failed check inserts again |
| `RestrictChain.WhereTheJumpDecides` | infrastructure/vpn/vpn-agent.py:124-128 | a new jump decides before every rule of FORWARD; an old one only for what the rules in front of it pass on |
| `Plist.EscapesCharByChar` | scripts/seb-spike/make-config.js:59-61 | three replacements in sequence escape each character on its own |
| `Plist.UnescapeInvertsEscape` | scripts/seb-spike/make-config.js:59-61 | unescaping inverts the escape and no raw markup is left (section 2.4 of XML 1.0) |
| `Plist.ThrowsIffNotPrintable` | scripts/seb-spike/make-config.js:67-84 | the printer throws exactly on an empty dict or unsupported value anywhere |
| `Plist.BodyReadsBack` | scripts/seb-spike/make-config.js:67-84 | each kind of value reads back after its opening tag |
| `Plist.ValueRoundTrip` | scripts/seb-spike/make-config.js:67-84 | at any indent and before any text a printed value reads back as itself |
| `PlistDocument.PrintNormalized` | scripts/seb-spike/make-config.js:67-84 | line-end normalisation of the text is the print of the normalised tree |
| `PlistDocument.DocumentRoundTrip` | scripts/seb-spike/make-config.js:86-90 | the document reads back as the tree exactly when no string or key holds a carriage return |
| `Plist.HeaderIsPrologue` | scripts/seb-spike/make-config.js:87-89 | the header is the declaration, document type and opening tag the reader asks for, a line each |
| `PlistDocument.DocumentsAreDistinct` | scripts/seb-spike/make-config.js:86-90 | distinct trees without carriage returns never print alike |
| `PlistDocument.CheckGuardsTextUpToKeys` | scripts/seb-spike/make-config.js:92-97 | the text holds `",` exactly when a string value or a key does |
| `Csv.FieldOfEscaped` | backend/src/routes/fleet.js:43-47 | an escaped cell reads back as itself |
| `Csv.ReadOfRow` | backend/src/routes/ipam.js:1370-1376 | a printed record reads back as its cells |
| `Csv.TableRoundTrip` | backend/src/routes/fleet.js:166-177 | every non-empty table survives print and read (section 2 of RFC 4180) |
| `Csv.PrintingIsInjective` | backend/src/routes/fleet.js:166-177 | distinct tables print differently |
| `Csv.ExportRoundTrip` | backend/src/routes/ipam.js:1378-1394 | header and rendered rows come back; without rows there is one extra empty record |
| `Csv.CellsShowTheirValues` | backend/src/routes/ipam.js:1370-1376 | a missing value shows nothing, a text itself, and a list comes back by splitting at semicolons |
| `Versions.CompareVersions` | backend/src/routes/fleet.js:30-41 | unknown without a version; behind exactly when the first differing part, missing and unreadable parts being 0 and `0x` parts hexadecimal, is smaller |
| `Versions.PartReadsNumber` | backend/src/routes/fleet.js:32 | a part is the number it begins with, signed or not, whatever follows |
| `Versions.PartReadsHex` | backend/src/routes/fleet.js:32 | behind `0x` a part is the hexadecimal number, in either case |
| `Decimal.ParseInt10Reads` | backend/src/routes/ipam.js:1223 | parseInt reads the number a text begins with behind blanks and one sign, and nothing otherwise |
| `Versions.PartsOfDotted` | backend/src/routes/fleet.js:32 | numbers written between dots are exactly the parts |
| `Versions.OlderIsLexicographic` | backend/src/routes/fleet.js:35-39 | the order is lexicographic, and trailing zero parts do not matter |
| `Versions.OlderIsTransitive` | backend/src/routes/fleet.js:35-39 | being behind is transitive |
| `Versions.Trichotomy` | backend/src/routes/fleet.js:35-40 | one is behind, the other is, or they are one release up to trailing zero parts |
| `LessonPages.Lesson.CreatePage` | backend/src/routes/classpulse.js:744-757 | inserts behind the greatest position read before, into the table as others left it; refused when that position is held |
| `LessonPages.Lesson.Reorder` | backend/src/routes/classpulse.js:767-798 | both phases as one transaction, rolled back on a conflict |
| `LessonPages.Lesson.DeletePage` | backend/src/routes/classpulse.js:842-854 | delete and gap closing as one transaction, rolled back on a conflict |
| `LessonPages.SweepExactly` | backend/src/db/migrations/091_classpulse.sql:23-35 | a bulk update commits exactly when each row can move at its turn |
| `LessonPages.CreateKeepsNumberedIff` | backend/src/routes/classpulse.js:744-757 | the insert keeps 1..n exactly when the lesson has not shrunk since the read: appended if as long, refused if longer |
| `LessonPages.DeleteDuringCreateLeavesGap` | backend/src/routes/classpulse.js:744-757 | a delete between read and insert leaves a gap |
| `LessonPages.CreateKeepsNumbered` | backend/src/routes/classpulse.js:744-757 | undisturbed, the new page is number n+1 |
| `LessonPages.DeleteKeepsNumbered` | backend/src/routes/classpulse.js:842-854 | commits exactly for an upward scan, then the rest closes up to 1..n-1 |
| `LessonPages.DownwardScanFails` | backend/src/routes/classpulse.js:848-853 | a scan that meets the upper page first fails |
| `LessonPages.ShiftNeverConflicts` | backend/src/routes/classpulse.js:783-787 | phase 1 keeps positions unique after every row |
| `LessonPages.AssignMeans` | backend/src/routes/classpulse.js:788-794 | a committed phase 2 puts each page at its last listed index and touches no other |
| `LessonPages.ReorderCommitsIff` | backend/src/routes/classpulse.js:767-798 | any request on at most a million pages commits exactly when it lists UUIDs only and no known page for a position held by a page outside the list |
| `LessonPages.ReorderKeepsNumberedIff` | backend/src/routes/classpulse.js:767-798 | any request on at most a million pages keeps 1..n exactly when it is rolled back or lists no known page at index n or more |
| `LessonPages.ReorderBeyondLastLosesNumbering` | backend/src/routes/classpulse.js:788-794 | a request that is carried out and loses the numbering |
| `LessonPages.PermutationReorders` | backend/src/routes/classpulse.js:767-798 | a full permutation of at most 200 pages commits and lists the pages in the requested order |
| `LessonPages.FirstTwoHundredDecide` | backend/src/routes/classpulse.js:764-776 | of a longer request only the first 200 entries are read |
| `LessonPages.EveryRunStaysNumbered` | backend/src/routes/classpulse.js:734-857 | reads, inserts, deletes and reorders in any order, rescanned at will: positions stay 1..n exactly when each insert and reorder meets its condition |
| `LessonPages.NumberedInAnyOrder` | backend/src/db/migrations/091_classpulse.sql:23-35 | the numbering is a property of the set of rows, not of their scan order |
| `LessonPages.NextIsLeastAbove` | backend/src/routes/classpulse.js:1180-1185 | next is the page of least position above the current one |
| `LessonPages.PreviousIsGreatestBelow` | backend/src/routes/classpulse.js:1214-1219 | previous is the page of greatest position below |
| `LessonPages.Session.Next` | backend/src/routes/classpulse.js:1167-1198 | one press: moves to the page after the one it read, or reports the end exactly when there is none and leaves the session as others left it |
| `LessonPages.Session.Previous` | backend/src/routes/classpulse.js:1201-1232 | moves to the page before the one it read, or reports the start exactly when there is none and leaves the session as others left it |
| `LessonPages.Session.NextThenPrevious` | backend/src/routes/classpulse.js:1167-1232 | next followed by previous leaves the session where it was |
| `LessonPages.PreviousUndoesNext` | backend/src/routes/classpulse.js:1167-1232 | previous undoes next and next undoes previous |
| `LessonPages.WalkVisitsEachOnce` | backend/src/routes/classpulse.js:1167-1198 | pressing next, one press after the other, shows each later page at exactly one press, in order, and then stays on the last |
| `LessonPages.PressMovesOnIff` | backend/src/routes/classpulse.js:1167-1192 | a press moves the session on by one exactly when no other has moved it since its read |
| `Upstream.KeyInjective` | dns-engine/src/upstream.js:27-28 | among settings without a bar in an IPv4 entry equal keys mean equal settings |
| `Upstream.SharesKeyIff` | dns-engine/src/upstream.js:28 | settings share their key with others exactly when the key can be cut at another bar with a list of entries on either side |
| `Upstream.NoBarNoAmbiguity` | dns-engine/src/upstream.js:28 | without a bar in any address there is no such cut |
| `Upstream.ServedStartsStretch` | dns-engine/src/upstream.js:26-35 | the settings served are those with which the present stretch of equal keys began |
| `Upstream.StaleExactly` | dns-engine/src/upstream.js:26-35 | over any history: stale exactly when that stretch began with other settings, which takes an ambiguous key |
| `Upstream.BarMakesStale` | dns-engine/src/upstream.js:26-35 | two settings of one key, the second of which is served the clients of the first |
| `Upstream.Memo.GetClients` | dns-engine/src/upstream.js:26-35 | for any settings, the clients are those of the current ones exactly unless the remembered key is the same but its settings were others |
| `Upstream.Memo.Resolve` | dns-engine/src/upstream.js:52-75 | over the settings served: the first success of the IPv6 list (AAAA only) then the IPv4 list; fails exactly when all fail, with the last IPv4 error |
| `Upstream.CandidatesInOrder` | dns-engine/src/upstream.js:52-75 | AAAA queries go to the IPv6 list and then the IPv4 list, all others to the IPv4 list only, in order |

## Left out

- `ha.js` split-brain probe: the code does not promise that two primaries never exist, and neither does this model.
- A rejected `cache.get` in the resolver, and all Redis expiry, JSON parsing and backend fetch fallbacks: their results are inputs.
- Local zone lookup (`localRecords.js`), TTL clamping (`cache.js`) and the response builder: inputs or easy members.
- Case folding outside ASCII; names arrive as decoded DNS labels.
- Decimal text of more than 15 digits in addresses, prefixes and versions, where JavaScript rounds, and white space outside ASCII in front of a number.
- IPv6 arithmetic: such an address is text that the IPv4 readers take as JavaScript would; split parents are IPv4 blocks.
- The text search and status filter of the address listing: plain filters in front of paging, which is proved for any list.
- Ipam.SubnetTable.Split: the insert is one atomic statement over a table of blocks; parent, owner and version columns are not modelled.
- Values longer than their columns in `update_schedule`, which the database refuses.
- `promoteThisNode` and its mails: only the fact that an attempt was made.
- Which scan order PostgreSQL picks: lesson tables are sequences in scan order, and a run takes any new order after every operation. Statements and transactions are atomic.
- Pages that change between the two reads of one press of next or previous.
- Totals of screen time when heartbeats of one key overlap: only the one open interval is characterised there. Deleting a device, which moves its intervals to the missing one.
- Another query's cache write between the cache lookup and the cache write of one query: queries of the resolver are taken one after the other.
- Integers beyond 2^53 in a configuration, where JavaScript prints a rounded decimal or an exponent: `Plist` prints every integer exactly.
- Dates, binary data and duplicate keys in a configuration: the writer has no such values; a dict is its entry list in enumeration order.
- A CSV reader that treats CR as a line end: cells holding only CR are printed without quotes.
- Intervals still open are measured to their last beat; reports that extend them to the present are not part of this model.
- Routing, authentication, mail, Google, Zammad, Kea and Mosyle calls, encryption of the join response, and the user interfaces.
