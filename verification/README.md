# Verification of the node's core logic

This project models the parts of the proxy node that keep state in step with a panel, and proves what they
keep. It is written in Dafny 4.11; `dafny verify dfyconfig.toml` checks all of it.

## What is modelled

* **The comment stripper** (`Json5Scanner`, `Json5Laws`, `Json5Lexemes`, `Json5Twice`, `Json5Strict`). The
  in-place scanner of `common/json5/json5.go` runs on an `array<byte>` and is proved equal to a declarative scan.
  That scan obeys laws stated on byte numbers. It is compared with an independent lexer, in both directions: when
  the result is the input with comments and trailing commas blanked, when a second pass changes nothing, and when
  the scanner changes nothing at all.
* **The limiter and the user lists** (`Formats`, `UserDiff`, `Limiter`, `LimiterRuns`, `Convergence`,
  `DeviceLimits`, `Refusals`, `SharedUids`). The limiter is a class whose methods update its maps; each method is
  tied to a function of the old state and states what becomes of its fields. The properties of whole runs are
  proved about these functions: of one node, and of several that share the uids of one core.
* **Traffic accounting** (`Sing`, `Traffic`, `Report`, `TrafficRaces`, `CounterRaces`). The proxy core is a
  class holding inbounds, uids and heap-allocated counters. Conservation is proved for the sequential methods;
  two transition systems split the concurrent code at its atomic accesses.
* **Machines and tasks** (`Controller`, `Nodes`, `Machine`, `MachineRuns`, `TaskRaces`). Controllers and machines
  are classes that share one core and one registry of limiters. `MachineRuns.Run` performs an arbitrary list of
  events on them. The start/close protocol of a periodic task is a transition system.

What the panel answers, whether an inbound or a certificate can be set up, and the clock are parameters. The
order of a map iteration is arbitrary: rows and deleted users are specified up to some order. A log call that
panics is a result `survives == false`.

The ghost field `closes` of a controller counts its calls of Close.

## Where names and comments promise something else

* `node/user.go:28` speaks of users with more than 100 kB of traffic. The code leaves out only users that have a
  traffic row below the configured threshold; users without a row are reported (`Report.OnlineSentOnce`).
* `limiter/dynamic.go:19` promises the least rate that is not zero. Beside a limit of zero the code returns the
  greater of the two, so that a negative one counts for nothing there, while beside any other limit it wins.
  `Limiter.DetermineSpeedLimitExactly` says when the result is the least positive limit. The node's limit cannot be
  negative: `conf/node.go:115-142` accepts no limits in a configuration file, and no names.
* A block comment is not always blanked, and not always ended, when its body holds a star
  (`Json5Lexemes.StripCleansExactly`).
* The look-ahead behind a comma takes one byte after a slash unseen (`Json5Strict.BareSlashFalseCloser`).
* A refresh deletes the uids of the users it removes although another node may list them
  (`SharedUids.NodesAgreeExactly`).
* The device limit in force for a user is not always that of the list the node holds
  (`DeviceLimits.DeviceLimitOfLastAdding`).
* Two users can share the key by which lists are compared (`UserDiff.DiffIsExactExactly`).
* Plain stream reads and writes overwrite the counters that all other paths add to, and the reporter zeroes
  counters that may have grown since it loaded them (`TrafficRaces.AccountedExactly`).
* A task that is closed and started again can have several workers (`TaskRaces.OneWorkerExactly`), and closing it
  does not always let them all leave (`TaskRaces.AllCanLeaveExactly`).

## Model

| member | source | states |
|---|---|---|
| Json5Scanner.ConsumeComment | common/json5/json5.go:21-47 | called one past a slash, it blanks the comment in the buffer and leaves every other byte and the rest of the text exactly as the declarative scan does; the index it returns is at most one past the end |
| Json5Scanner.BlankLine | common/json5/json5.go:22-27 | a line comment is blanked up to, and without, the first line break; nothing else changes |
| Json5Scanner.BlankBlock | common/json5/json5.go:28-45 | the block-comment loop leaves the buffer and the index of the declarative block scan, with the byte after a star skipped |
| Json5Scanner.SkipString | common/json5/json5.go:60-70 | from an opening quote the index ends behind the closing one, escapes included, or at most one past the end of an open string |
| Json5Scanner.SkipComma | common/json5/json5.go:73-87 | what the look-ahead behind a comma does to the buffer is what the rest of the scan, started at the comma, calls for; the index passes the end by at most two; Json5Laws says which bytes it passes and which close |
| Json5Scanner.Prep | common/json5/json5.go:49-93 | for every byte buffer the in-place scanner terminates, never indexes out of range, and leaves the buffer the declarative scan `Strip` describes; Json5Laws pins that scan byte by byte |
| Json5Scanner.StripOnlyBlanks | common/json5/json5.go:49-93 | for every input at all the length is kept and a byte changes only to a space |
| Json5Laws.CommaBeforeCloser | common/json5/json5.go:73-81 | by byte numbers: a comma (44) is blanked when, over any run of the bytes 9, 10, 13 and 32, a 93 or a 125 follows; the rest is scanned as if it stood alone |
| Json5Laws.CommaBeforeOther | common/json5/json5.go:73-87 | before any other byte that is neither one of these four nor a slash, and at the end of the text, the comma stays |
| Json5Laws.LineComment | common/json5/json5.go:11-27 | a comment opened by 47, 47 is blanked up to the first 10 or 13, or the end |
| Json5Laws.BlockComment | common/json5/json5.go:28-45 | a comment opened by 47, 42 ends at the first 42 with a 47 behind it, where a 42 takes the byte behind it along; all is blanked but those bytes |
| Json5Laws.StringLiteral | common/json5/json5.go:59-70 | a string ends at the first 34, where a 92 takes the byte behind it along, and is left alone |
| Json5Laws.PlainByte | common/json5/json5.go:88-90 | any byte but 34, 44 and 47 is left alone |
| Json5Laws.PlainSlash | common/json5/json5.go:21-47 | so is a 47 that is followed by neither a 47 nor a 42 |
| Json5Lexemes.FlattenLex | common/json5/json5.go:49-93 | the reference lexer, which knows nothing of the scanner, loses no byte: the lexemes of a text spell the text |
| Json5Lexemes.RemarkGood | common/json5/json5.go:21-47 | a comment whose inner stars are all followed by a space is blanked entirely, its terminator included |
| Json5Lexemes.RemarkBad | common/json5/json5.go:31-44 | any other comment keeps a byte that is not a space, at a position the lemma returns |
| Json5Lexemes.StripCleansExactly | common/json5/json5.go:49-93 | on every text in which no slash behind a comma hides a quote, the scanner returns the input with comment bytes and trailing commas turned into spaces and all else untouched, if and only if in every block comment each star but the closing one is followed by a space, and behind no comma the look-ahead gets past a slash that opens no comment to a closer |
| Json5Lexemes.LookGood | common/json5/json5.go:73-87 | past well-behaved comments the look-ahead behind a comma sees a closer exactly where the lexemes say so, slashes and the bytes they hide passed over; it writes what the main loop would have written unless that closer is not the next lexeme |
| Json5Lexemes.StripCleansComments | common/json5/json5.go:49-93 | on the texts the stripper is meant for, in which every slash outside strings opens a comment, the spaced stars alone decide it: each of them meets the premise and the second condition |
| Json5Twice.LexOfClean | common/json5/json5.go:49-93 | lexing the cleaned text gives the cleaned lexemes: the blanks join nothing and split nothing |
| Json5Twice.TokensOfStrip | common/json5/json5.go:49-93 | on a text that StripCleansExactly says is cleaned, the tokens of the result are the tokens of the input without comments and trailing commas |
| Json5Twice.StripTwiceExactly | common/json5/json5.go:73-87 | on such a text a second pass changes nothing if and only if behind no comma that stays the look-ahead ends at a trailing comma |
| Json5Twice.StripKeepsExactly | common/json5/json5.go:49-93 | on every text in which no slash behind a comma hides a quote, the scanner is the identity if and only if the text holds no comment and no trailing comma, and behind no comma the look-ahead gets past a slash to a closer |
| Json5Strict.StripKeepsJson | common/json5/json5.go:49-93 | the scanner is the identity on every JSON text of section 2 of RFC 8259 |
| Json5Strict.StrayStarLeavesAByte | common/json5/json5.go:33-43 | witness: a star inside a block comment leaves the byte behind it in place |
| Json5Strict.BareSlashHidesAByte | common/json5/json5.go:82-83 | witness of a hidden quote: behind a comma, a slash that opens no comment hides the next byte, so that a comma before a string is taken for a trailing one |
| Json5Strict.BareSlashFalseCloser | common/json5/json5.go:79-83 | witness without a hidden quote: past a slash and a plain byte the look-ahead finds a closer, and the comma is taken for a trailing one |
| Json5Strict.DoubledCommaNeedsTwoPasses | common/json5/json5.go:73-87 | witness: two commas before a closer lose one comma in each pass |
| Formats.UserKeyInjective | node/user.go:65-70 | for uuids of equal length the uuid followed by the decimal speed limit determines both, and conversely |
| Formats.UserKeysCollide | node/user.go:65-70 | witness: uuids of different lengths can share a key |
| Formats.UserTagInjective | common/format/user.go:7-9 | under one tag the tagged uuids of two uuids are equal exactly when the uuids are |
| Formats.ItoaMeans | node/controller.go:130-132 | the numeral of a number stands for that number in base ten, with a sign in front of a negative one |
| Formats.TagsAsWritten | node/controller.go:130-132 | tags, names and keys as they are written, on one example each |
| Formats.NodeTagExactly | node/controller.go:130-132 | with protocols that hold no closing bracket the tag of an unnamed node determines host, protocol and id, so that machines of different hosts share no tag |
| Formats.NodeTagInjective | node/controller.go:130-132 | the tag of an unnamed node determines its id whatever the protocol strings are, colons included |
| Formats.NamedTagInjective | node/machine.go:217-219 | the name a machine gives a node determines the id |
| UserDiff.CompareUserList | node/user.go:62-83 | added are, in their order, the new users whose key no old user has or an earlier new one has used up; deleted are, in some order and once each, the last old users of the keys that no new user has |
| UserDiff.DiffIsExactExactly | node/user.go:62-83 | for every set of users: each comparison of lists with distinct uuids drawn from it returns exactly the old entries absent from new and the new entries absent from old by (uuid, speed limit), each once, if and only if no two users of the set share a key without sharing uuid and speed limit |
| UserDiff.SeparatedDiffIsExact | node/user.go:62-83 | the sufficient half, for two given lists |
| UserDiff.CollidingDiff | node/user.go:65-70 | the necessary half: of any two users that share a key but not the pair, one replaces the other with nothing deleted and nothing added |
| UserDiff.NothingFoundWhenSeparated | node/user.go:65-70 | for users that their keys tell apart nothing is found exactly when the two lists have the same (uuid, speed limit) pairs |
| UserDiff.DiffIsExact | node/user.go:62-83 | uuids of equal length are told apart: with distinct ones, deleted and added hold exactly the old entries absent from new and the new entries absent from old by (uuid, speed limit), each once |
| UserDiff.DiffConverges | node/user.go:62-83 | removing the deleted and adding the added pairs turns the old set of (uuid, speed limit) pairs into the new one |
| UserDiff.NothingFoundExactly | node/user.go:65-70 | the same for uuids of equal length: nothing is found exactly when the two lists have the same (uuid, speed limit) pairs, so that a change of the device limit alone goes unseen |
| UserDiff.CollisionGoesUnnoticed | node/user.go:62-83 | witness: two users with uuids of different lengths and one key, one of which replaces the other unnoticed |
| Limiter.DetermineSpeedLimitExactly | limiter/dynamic.go:19-38 | it returns the least positive of two limits, or zero when neither is positive, if and only if no negative limit meets a limit other than zero |
| Limiter.RateExactly | limiter/limiter.go:188 | the 64-bit rate is 125000 bytes a second per megabit exactly below the point of overflow |
| Limiter.RateWraps | limiter/limiter.go:188 | for every limit, negative and overflowing ones included, eight times the rate is the product wrapped to 64 bits |
| Limiter.DetermineSpeedLimitMeans | limiter/dynamic.go:19-38 | it is one of the two limits: the greater one if one of them is zero, and the lesser otherwise |
| Limiter.Limiter.constructor | limiter/limiter.go:44-66 | a new limiter holds for every uuid of the list an entry with uid, speed limit and device limit of its last occurrence and no dynamic limit, the given alive counts, and nothing else |
| Limiter.Limiter.UpdateUser | limiter/limiter.go:90-113 | every deleted user leaves the user table, the online map, the bucket cache, the uid map and the alive counts; then every added uuid gets an entry with uid, speed limit and device limit of its last occurrence; all other entries stay |
| Limiter.Limiter.CheckLimit | limiter/limiter.go:126-200 | stated on the fields: it rejects if and only if the user is unknown, or tracking is on, the address is not among the user's online ones nor among those of the last round, and 0 < device limit <= alive count; without tracking and on a rejection the online and last-round maps stay; otherwise the address is online under the user's uid, is forgotten from the last round if it was there for that uid, and nothing else changes; the returned bucket is the cached one |
| Limiter.TrimMeans | limiter/limiter.go:128 | the prefix of an IPv4 address mapped to IPv6 is taken off, and nothing else |
| Limiter.UsersAfterMeans | limiter/limiter.go:136-149 | a connection changes the user table only by an expired dynamic limit: it is taken off, and the entry goes if it has no limit of its own |
| Limiter.UserRateMeans | limiter/limiter.go:136-188 | the rate comes from the node's limit and the user's own one, joined with the dynamic one unless that has expired |
| Limiter.Limiter.GetOnlineDevice | limiter/limiter.go:202-220 | one row for each online (tagged uuid, address) pair in some order, an empty online map, and a last-round map that has for each address the uid of its last row |
| Limiter.DrainedIps | limiter/limiter.go:202-220 | the addresses of the rows, the addresses remembered and the addresses that were online are one and the same set |
| Limiter.WithoutUsersFields | limiter/limiter.go:91-97 | what deleting a list of users takes from each table and from the alive counts, as set differences |
| Limiter.WithUsersStores | limiter/limiter.go:98-112 | after adding a list, the entry of a uuid is that of its last occurrence |
| LimiterRuns.NewAddressAdmitted | limiter/limiter.go:153-220 | in every run, an address that a drain reports and an earlier drain did not was let in between the two, by a tracked connection of a known user that had no device limit or an alive count below it at that moment; RoundReportsExactly has the converse |
| LimiterRuns.RoundReportsExactly | limiter/limiter.go:90-220 | in every run, with no premise on the events between, a drain reports exactly the addresses that a tracked connection was let in with, since the drain before it, for some user that no update has taken out since |
| LimiterRuns.RoundsShrinkExactly | limiter/limiter.go:90-220 | so a drain reports only addresses that an earlier drain reported if and only if the addresses let in and left in since the drain before it are among those |
| LimiterRuns.RoundsShrink | limiter/limiter.go:153-220 | hence, if between two drains each user has a positive device limit not above its alive count, the addresses reported by the later drain are among those of the earlier one, so their number does not grow |
| LimiterRuns.RoundsGrowBelowTheLimit | limiter/limiter.go:153-220 | witness of the other case of RoundsShrinkExactly: below the limit a later round can report more |
| LimiterRuns.RemembersExactly | limiter/limiter.go:153-220 | in every run, the addresses remembered are those the last drain reported, with the uid of the last such row, but for those that a connection of a user with that uid has taken over since |
| LimiterRuns.LetInExactly | limiter/limiter.go:153-186 | in every run, a tracked connection of a known user is let in if and only if the user has no device limit or is below it, or the address was let in for it since the last drain and the user not deleted, or the last drain reported the address and no user with the uid it was reported for has taken it over |
| LimiterRuns.ReturningDeviceLetIn | limiter/limiter.go:163-177 | so a device that the last drain reported gets in again, however many are alive |
| LimiterRuns.NoEmptyEntryInRuns | limiter/limiter.go:153-186 | in every reachable state no user has an empty map of online addresses |
| Sing.Sing.AddNode | core/sing/node.go:479-499 | the threshold of the tag is set to 1024 times the option even when the inbound cannot be created; a created inbound has no user of the panel |
| Sing.Sing.DelNode | core/sing/node.go:501-508 | it fails exactly when there is no such inbound |
| Sing.Sing.AddUsers | core/sing/user.go:23-133 | without the inbound nothing changes; otherwise each uuid gets the id of its last occurrence, other uids stay, and the inbound has the users if it accepts them |
| Sing.Sing.DelUsers | core/sing/user.go:189-231 | without the inbound nothing changes; otherwise the uids and the counters of all users go, and the inbound loses the users if it accepts that |
| Sing.Sing.GetCounter | common/counter/traffic.go:21-30 | a user's counters are returned if there are any and are otherwise new and zero; no two users or tags ever share counters |
| Sing.Sing.GetUserTrafficSlice | core/sing/user.go:148-183 | one row, in some order, with the uid and both totals, for exactly the users with a uid other than zero and up + down above the threshold of the tag, or above 0 without one; with reset their counters are zero afterwards; users without such a uid that are above it are deleted, and every entry at or below it stays, whoever it belongs to; what stays keeps its counter objects |
| Traffic.SliceConserves | core/sing/user.go:148-183 | bytes pending before a slice = bytes in its rows + bytes pending after it + bytes of unknown users dropped by it, for each direction |
| Traffic.BooksBalance | core/sing/user.go:148-231 | over any run of counted transfers, slices with reset and deletions of users: bytes counted = bytes reported + bytes pending + bytes discarded |
| Traffic.SliceStep | core/sing/user.go:148-183 | a slice with reset of the modelled core is the slice step of these runs, with the same rows, threshold and counters |
| Traffic.DelStep | core/sing/user.go:189-231 | a deletion of users of the modelled core is the deletion step, whether or not the inbound obeys; without an inbound nothing changes |
| Traffic.AddStep | core/sing/user.go:23-35 | entering users is the step that enters their uids |
| Traffic.ConnectStep | common/counter/traffic.go:21-30 | getting the counters of a connection is the connecting step |
| Traffic.CountStep | common/counter/conn.go:47-68 | adding to the counters a connection holds is the counting step; no other entry changes |
| Report.BuildPayload | api/panel/user.go:131-135 | the payload has exactly the uids of the rows, each with the two totals of its last row |
| Report.PayloadKeepsExactly | api/panel/user.go:131-135 | every row's totals are in the payload if and only if no two different rows have the same uid |
| Report.SlicePayloadKeeps | api/panel/user.go:131-135 | the payload of a slice keeps every row's totals whenever no two known uuids share a uid |
| Report.BuildOnline | node/user.go:27-46 | a drained row survives with its multiplicity unless some traffic row of its uid has less than 1000 times the option in total; under each uid of a surviving row its addresses are sent as often as they survive |
| Report.SurvivingCount | node/user.go:30-41 | a drained row survives with its multiplicity or, when its uid has a below-threshold row, not at all |
| Report.GroupedCount | node/user.go:42-46 | grouping loses and invents nothing: an address occurs under a uid as often as the row did, and no uid has an empty list |
| Report.OnlineSentOnce | node/user.go:25-46 | from the online map to the payload: under a surviving uid an address is sent once for each tagged uuid of that uid under which it was online, under the others never, and the online map is empty afterwards |
| Report.ReportTask | node/user.go:10-60 | from the state to what is sent: the totals of the known users above the threshold by uid, and an address under a uid once for each tagged uuid it is online for with that uid, unless some reported user of the uid has little traffic; nobody is online afterwards |
| TrafficRaces.NeverOverReported | common/counter/conn.go:35-68 | at every step of every interleaving of any number of stream and packet connections with one reporter, overwriting reads and writes included, no more bytes have been reported for a user than were moved for it |
| TrafficRaces.AccountedExactly | core/sing/user.go:155-176 | conservation over the interleavings: at every step of a run, each byte written to a counter has been reported, dropped for want of a uid, is in the counter or in the hands of the reporter that zeroed it, if and only if the run never overwrites a counter that is not zero and never zeroes one whose value is not the one loaded |
| TrafficRaces.OverwritingLoses | common/counter/conn.go:35-39 | witness of the first loss: two plain reads of five bytes and of one leave one byte in the counter |
| TrafficRaces.AddedWhileReportingLost | core/sing/user.go:158-164 | witness of the second: three bytes added between the reporter's load and its store are neither reported nor left, though nothing was overwritten by a read or a write |
| TrafficRaces.ReportsUndisturbed | core/sing/user.go:155-176 | in any state, a turn of the reporter that nothing disturbs reports both values of an entry, or drops both for want of a uid, and leaves two zeros |
| TrafficRaces.CountsUndisturbed | common/counter/conn.go:35-68 | in any state, bytes moved and written undisturbed are added to the counter or replace it |
| CounterRaces.ReturnsAnEntry | common/counter/traffic.go:21-30 | under every interleaving of lookups, split at their two accesses, and deletions, the storage a call returns was the map's entry at some moment of that call |
| CounterRaces.SameBetweenDeletions | common/counter/traffic.go:21-30 | calls for one uuid that run between two deletions of it return the same storage |
| CounterRaces.NeverShared | common/counter/traffic.go:21-30 | calls for different uuids never return the same storage |
| CounterRaces.NewAfterDeletion | common/counter/traffic.go:21-30 | a call made after a deletion of its uuid returns none of the counters that any call had returned before it |
| CounterRaces.HitReturnsAtOnce | common/counter/traffic.go:21-24 | a call that finds an entry returns it and allocates nothing |
| TaskRaces.NeverPanics | common/task/task.go:62-69 | in every interleaving of Start, Close and any number of workers no closed channel is closed again |
| TaskRaces.LeavesExactly | common/task/task.go:16-69 | once the task is not running, a worker waiting in its select can leave if and only if the channel it waits on was not abandoned by a failing worker |
| TaskRaces.StopsWithoutFailures | common/task/task.go:16-69 | if Execute never fails, every channel but the current one of a running task is closed, and once the task is not running every waiting worker can leave |
| TaskRaces.OneWorkerExactly | common/task/task.go:16-26 | all along a run there is at most one worker if and only if no Start finds the task not running while a worker is still alive |
| TaskRaces.AllCanLeaveExactly | common/task/task.go:43-69 | all along a run every waiting worker can leave whenever the task is not running, if and only if no worker fails under a running task beside one that waits on its channel, and none comes to wait on an abandoned channel |
| TaskRaces.CloseStopsWithoutOverlap | common/task/task.go:16-69 | without overlapping starts Close does what it is for, failing executions or not: once the task is not running its worker can leave if it waits, and otherwise will wait on a closed channel |
| TaskRaces.AbandonedStays | common/task/task.go:50-55 | a channel that a failing worker leaves open is never closed afterwards |
| TaskRaces.ComesToExecute | common/task/task.go:28-56 | in any state, each worker can come to execute by steps of its own, over its select and a tick, and nothing else changes |
| TaskRaces.NoneWithoutTick | common/task/task.go:43-48 | after an execution that succeeds a worker does not execute again before a tick |
| TaskRaces.LeavesThroughClosed | common/task/task.go:43-48 | a worker leaves its select exactly when the channel it waits on is closed, and nothing else changes |
| TaskRaces.WorkerSurvivesRestart | common/task/task.go:43-56 | witness of an overlapping start (OneWorkerExactly): a worker inside Execute during Close and Start goes on beside its successor, on the new channel, though nothing fails |
| TaskRaces.FailureStrandsSuccessor | common/task/task.go:50-55 | witness of a stranded worker (AllCanLeaveExactly): an old worker's failure marks the restarted task as not running, so that no Close will ever close the channel its worker waits on, and the worker goes on executing at every tick until a later Start gives it another channel |
| Convergence.SteadyRateExactly | limiter/limiter.go:188-196 | without dynamic limits the rate of a bucket is 125000 times the least positive of the node's and the user's limit exactly below the point of overflow |
| Convergence.RefreshKeepsInv | node/task.go:192-244 | a successful refresh with sound lists that keep their ids leaves the limiter's table, its uid map, the inbound's users and the shared uid map holding the users of the new list, and no stale bucket |
| Convergence.ReloadKeepsInv | node/task.go:81-159 | so does a successful reload of an unnamed node |
| Convergence.StartHolds | node/controller.go:43-99 | a successful start makes the tables agree, whatever uids other nodes have entered |
| Convergence.CheckKeepsInv | limiter/limiter.go:188-199 | a connection leaves the tables alone, and a bucket it caches has the current rate of its user |
| Convergence.TablesConverge | node/task.go:81-244 | after any run of connections, drains, refreshes and reloads all user tables hold exactly the users of the last adopted list with ids and speed limits, and every cached bucket is one of a known user at the current rate |
| Convergence.AdoptsNonEmptyExactly | node/task.go:81-86 | the node holds the last non-empty list it fetched if and only if it is not so that some reload fetched an empty list and no later refresh or reload has brought a list |
| Convergence.EmptyReloadAdopted | node/task.go:84-86 | witness: one reload with an empty list leaves a node that had a user without any |
| DeviceLimits.DeviceLimitOfLastAdding | node/user.go:62-83 | at any time of any run, a user's entry has the device limit of the list that last added the user: by a start or a reload, or by a refresh that found it new or with another speed limit |
| DeviceLimits.DeviceLimitStays | limiter/limiter.go:90-113 | over any part of a run that does not add the user, its entry keeps the device limit it had |
| DeviceLimits.StartedDeviceLimit | limiter/limiter.go:61-63 | after a start every user's entry has the device limit of the list |
| DeviceLimits.NewDeviceLimitUnseen | node/user.go:65-70 | a refresh that lists a user with the speed limit it had leaves its device limit as it was, whatever the list says of it |
| Controller.Controller.Start | node/controller.go:43-103 | which tables a start has changed at each point where it can fail, the registry, the inbound, the uids and the reporting threshold included; after a successful one the tag leads to the new limiter and the tables are those of a reload from scratch |
| Controller.Controller.Close | node/controller.go:106-128 | the limiter and the inbound of the tag go; it fails exactly when there is no such inbound, and even then the limiter is gone |
| Controller.Controller.NodeInfoMonitor | node/task.go:53-250 | each turn without failures is one step of the convergence runs: nothing, new alive counts, a refresh or a reload; only a reload moves the tag, and then the tag leads to the new limiter in the registry, with all other tags as before, and the inbound moves with it if and only if rules and certificate are in order and it can be created; a reload panics exactly when the old inbound is missing or the new one cannot be created; a refresh is a step or a refusal; other nodes' inbounds are never touched; a reload of a named node is ReloadedNamed: new list, inbound and uids, old limiter |
| Controller.Controller.RefreshUsers | node/task.go:196-244 | whatever fails, the tables are those of AfterRefresh for the diff of the lists, and the counters of the deleted users go as soon as there is an inbound |
| Controller.Controller.ReloadNode | node/task.go:81-191 | a reload rebuilds the tables of an unnamed node from the adopted list, takes its old tag out of the registry and registers the new limiter under the new one; a named node keeps tag, limiter and registry; whatever fails, which inbounds, limiters and thresholds are left, and whether it panics |
| Refusals.AfterRefreshMeans | node/task.go:196-244 | field by field, what a refresh leaves: only the list changed when the diff is empty; nothing without an inbound; the uids of the deleted users gone when the inbound keeps them; these users out of the inbound and the new uids in when it refuses the new ones; and otherwise all tables changed |
| Refusals.RefreshMendsExactly | node/task.go:196-244 | from any state in which the limiter agrees with the list and the inbound has no user that is not listed, a successful refresh makes all tables agree if and only if every user it does not add is in the inbound and has its uid |
| Refusals.RefreshAfterRefusalsExactly | node/task.go:196-244 | after any number of refreshes whose deletion or addition the inbound refuses, with connections, drains and alive counts between them, the next successful one makes all tables agree again if and only if no user that some refusal was to delete is in its list with the speed limit the node still holds |
| Refusals.RefreshAfterRefusalExactly | node/task.go:200-226 | the same for one refusal with the success right after it |
| Refusals.NamedReloadExactly | node/task.go:99-115 | after a reload of a named node the tables agree if and only if the adopted list has exactly the users, ids and speed limits the limiter held already |
| SharedUids.StepKeepsAllExactly | core/sing/user.go:23-35 | several nodes on one core: from a state in which all tables of all nodes agree, they agree after a step of one node if and only if it is no refresh that removes, without adding it back, a uuid that is in another node's list |
| SharedUids.UidsExactly | core/sing/user.go:189-231 | at any time of any run of such nodes, a uuid that some node lists has the panel's id in the shared map if and only if no refresh of any node has removed it without some node having added it since |
| SharedUids.NodesAgreeExactly | core/sing/user.go:189-231 | hence all tables of all nodes agree at that time if and only if no listed uuid is gone in that way |
| SharedUids.RefreshTakesUid | core/sing/user.go:219-224 | witness: a refresh of one node replaces a user that another still lists; the other still serves it, without a uid |
| Machine.Machine.TagsDiffer | node/machine.go:214-233 | controllers that a machine made for different nodes have different tags, named or not |
| Machine.Machine.CarriedTag | node/machine.go:214-233 | the tag of a controller, written out: host, protocol and id of an unnamed node, name and id of a named one |
| Machine.Machine.StartOne | node/machine.go:173-192 | a start enters the controller if and only if it succeeds and touches no other node's inbound; from an exact state, in which inbounds are those of the live nodes and their tags lead to their limiters, the state stays exact if and only if the start did not fail after creating its inbound |
| Machine.Machine.CloseOne | node/machine.go:202-205 | a close fails exactly when the inbound is missing; otherwise the controller is forgotten, and no other node's inbound is touched |
| Machine.Machine.Rollback | node/machine.go:183-189 | closing what was started leaves the controllers, their tags and their inbounds as they were on entry, each started controller closed once |
| Machine.Machine.StartWanted | node/machine.go:169-197 | it fails if and only if it is strict and some attempt fails; then the table is as before and the controllers started up to the first failure are closed once; otherwise exactly the wanted nodes with a successful start have joined it, duplicates included |
| Machine.Machine.DropExcept | node/machine.go:198-210 | in any iteration order, all unwanted controllers are closed once and forgotten if and only if each of them has its inbound; otherwise some of those that have it are, the loop ends with the close of one that has not, which stays in the table, and no other controller is touched; wanted ones never are |
| Machine.Machine.SyncNodes | node/machine.go:163-212 | strict rollback and reconciliation: a failed strict call leaves the table as it was, what it started closed exactly once and nothing else closed; otherwise new controllers have joined for exactly the wanted nodes that start, never closed, and the same objects are left for the old nodes but those dropped; without a failing close these are all the unwanted ones, each closed once; with one, which is when an unwanted node has lost its inbound, they are unwanted nodes with an inbound, and the one the loop ended at is closed and stays |
| Machine.Machine.Start | node/machine.go:47-60 | a start that succeeds leaves exactly the listed nodes live; one that fails to start a node leaves the table as it was; from an exact state it fails in no other way |
| Machine.Machine.SyncTask | node/machine.go:81-101 | from an exact state the task always reconciles: the live nodes are the old ones still wanted and the wanted ones that start |
| Machine.Machine.Close | node/machine.go:62-79 | it panics exactly when a live node has lost its inbound, having closed and forgotten some that have theirs and closed that one; otherwise every controller is closed once and forgotten, and from an exact state no inbound is left |
| Machine.Machine.Monitor | node/task.go:53-250 | a turn of a live node's monitor panics exactly in a reload whose old inbound is missing or whose new one cannot be created; from an exact state the machine stays exact, whether or not the tag moves, if and only if the turn is no reload or rules and certificate are in order and the new inbound can be created: that its users are refused does no harm |
| MachineRuns.Run | node/machine.go:47-212 | after any run of starts, synchronisations, node monitor turns and closes, in which no start fails after creating its inbound and every reload sets up its inbound, nothing panics, live controllers have pairwise distinct tags, each tag leads to the limiter its controller uses, and the inbounds are exactly the live tags |

## Left out

- Json5Lexemes.StripCleansExactly: says nothing about texts in which the look-ahead behind a comma passes a slash that opens no comment and has a quote behind it: from there on scanner and lexer disagree on what is inside a string. `Json5Strict.BareSlashHidesAByte` shows such a text, which is no JSON with comments. `StripCleansComments` states it for all texts in which every slash outside strings opens a comment.
- Json5Twice.TokensOfStrip: is about the texts of which StripCleansExactly says that they are cleaned; of others bytes of comments are left, or a comma is lost.
- Json5Twice.StripTwiceExactly: is about these texts too.
- Json5Twice.StripKeepsExactly: needs the premise of StripCleansExactly; `Prep` and `StripOnlyBlanks` need none.
- Json5Scanner.Prep: starts from the bytes read; an error of the reader, on which the source returns early, is not part of this model.
- LimiterRuns.RoundsShrink: assumes the limit reached for every user between the two rounds; without it rounds can grow (`RoundsGrowBelowTheLimit`), and `RoundReportsExactly` and `RoundsShrinkExactly` say for every run what a round reports and when it reports nothing new.
- Convergence.TablesConverge: is about one node without a configured name and without dynamic limits, with distinct uuids of one length that keep their ids over a refresh, and about successful refreshes and reloads; `SharedUids` is about several such nodes; `Controller.Controller.NodeInfoMonitor` says what a refresh leaves that fails, and what a reload of a named node leaves, and `Refusals` when the tables agree again.
- Traffic.BooksBalance: counts in unbounded integers; the 64-bit counters of the source wrap after 2^63 bytes.
- Sing.Sing.AddNode: the random placeholder user that a new shadowsocks or naive inbound is created with (core/sing/node.go:320 and 412) is not part of this model.
- Sing.Sing.DelUsers: deletes the counters of all users before their uids; the source alternates the two under one lock.
- Sing.Sing.GetCounter: creates the counter table of a tag atomically; the unsynchronised load and store of that table in core/sing/hook.go is not part of this model.
- TrafficRaces.NeverOverReported: there is one reporter, as the periodic task provides; it may turn to any counter at any time, also to one whose entry has been deleted.
- TaskRaces.LeavesExactly: says that the exit of a waiting worker is enabled, not that a scheduler takes it; ticks are not timed.
- Machine.Machine.Start: the periodic tasks that updateTasks starts, restarts and stops, and their intervals, are not part of this model, so a synchronisation that already holds a response may still run after Close.
- MachineRuns.Run: runs the public operations one after the other, as the machine's lock does; a turn of a node monitor, which takes no lock in the source, is one step.
- Controller.Controller.Start: certificates and rules are success flags; the tasks a controller starts and closes are not part of this model.
- The HTTP client, ETags, decoding and the panel's types beyond the fields used.
- The inbounds of the proxy core: an inbound is a tag with a set of uuids, replaced by a later one with the same tag.
- Token buckets: a bucket is a value with a rate; the one extra store of a bucket that the cache already holds is not visible in the model.
- Dynamic speed limits: the limiter handles them where it meets them, but nothing in the repository sets them on a running node, and whole-run properties assume there are none.
- Regular-expression rules, certificates, encryption, machine status, configuration files and commands.
