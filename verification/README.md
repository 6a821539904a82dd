# Server Box protocols in Dafny

A model of the parts of Server Box in which several steps, runs or formats have to agree,
and proofs that they do. The application itself is Flutter, with a Rust monitor agent, and
with Swift and C on iOS.

Check everything with `dafny verify dfyconfig.toml`.

| modules | what they model |
|---|---|
| `IshTables`, `IshMounts`, `IshMountsProofs`, `IshMountsTheorems`, `IshRuns`, `IshPieces`, `IshMarks`, `IshSlots`, `IshAnswers`, `IshRollback` | the embedded Linux machine's attach, detach, open and close: the fixed tables as arrays, and the two-lock protocol as an interleaving of steps of any number of threads over an abstract mount table |
| `IshConsole` | a session's output ring, as a class over its array |
| `Text`, `Utf8`, `Utf8Lossy`, `Base64`, `Base64Bits`, `Markers`, `Segments` | the script output format: marker lines, the section parser, and the printer it inverts |
| `FileNames`, `FileNameReading`, `Listing`, `ListingReading`, `CustomCmds` | custom commands as file names, as a printed listing, and as a directory |
| `DirReplace` | replacing that directory over an abstract file system in which any operation can fail, stop half way, or be the last before a crash |
| `LoginThrottle`, `ThrottleHistory`, `ThrottleRate`, `ThrottlePruning`, `ThrottleForgetting` | the login throttle, what it remembers of a key, its rate bound, and when it answers as a table that never forgets |
| `LiveActivity`, `LiveActivityEnds`, `LiveActivityDoubles` | the Live Activity actor, every `await` an interleaving point |
| `SizeCap`, `History`, `WatchIngest`, `DiskUsage`, `ChildSlots` | the size-cap loop, the metrics history, the watch's configuration, disk totals, and the slots for killed children |
| `Wrappers` | optional values, error returns and bytes |

Where the source updates state in place the model has a class with the same fields, and its
methods are proved against functions of the old state; where several threads or calls
interleave, a state machine uses the same functions, one step for each stretch that nothing
can interrupt. A history the program does not keep (what was written, which outcome a call
had) is carried beside the state where a theorem speaks about it.

Some promises turn out false of the code as stated. In each case the code is modelled as it
is, one lemma (a method, for replacements) gives a concrete failure, and another
says exactly when the promise holds:

| promise | fails | holds exactly when |
|---|---|---|
| a recorded system is whole | `IshPieces.DetachLeavesPieces` | `IshMountsTheorems.RecordedIsWholeIff`, `IshMountsTheorems.DetachLeavesPiecesIff` |
| a blocked reader never sees a reused slot | `IshConsole.ReusedSlotIsRead` | `IshConsole.ReusedSlotIff` |
| there is one Live Activity at a time | `LiveActivityDoubles.TwoActivities` | `LiveActivityDoubles.SecondActivityIff` |
| attempts are spaced by their delays, where the clock is read before the lock | `ThrottleRate.StaleReadingBreaksRate` | `ThrottleRate.NextCanBeEarlyIff` |
| dropping idle throttle entries is invisible | `ThrottleForgetting.OverlapForgets`, `ThrottleForgetting.StaleReadingForgets` | `ThrottlePruning.TracksIff`, `ThrottlePruning.PruningInvisibleIff` |
| a replaced directory reads back in order | `CustomCmds.ThousandComeBackOtherwise` | `CustomCmds.ListAfterReplace` |
| a replacement installs its own files only, whatever goes wrong | `DirReplace.StaleSurvives` | the set overwrites every file of a fresh directory that is there before the call: `DirReplace.Store.WriteDir` one way, `DirReplace.InstallsMore` the other |
| an open keeps the slot it reserved | `IshSlots.OpenLosesSlot` | `IshSlots.AlwaysOwnedIff` |
| the history window divides into no more buckets than were asked for, as the comment at `monitor/src/api/server.rs:1076` has it | `History.DefaultReachesExtraBucket` | `History.ExtraBucketIff` |

The history endpoint itself never answers with more points than were asked for: it cuts the
extra one.

## Model

| member | source | states |
|---|---|---|
| `IshMountsTheorems.NeverStacked` | ios/Runner/ish/sbm_ish.c:573-588 | In every run of any number of threads that attach, detach, open and close, failed attaches and failed rollbacks included, no mount point of any profile carries two mounts, and no name is recorded or marked twice. |
| `IshMountsTheorems.RecordedIsWholeIff` | ios/Runner/ish/sbm_ish.c:622-697 | In every run, a recorded profile has one mount at each of its points, except exactly those that detaches took down after it was recorded; so it is whole if and only if no detach, at work on it or unable to finish, took any. |
| `IshPieces.DetachInPiecesIff` | ios/Runner/ish/sbm_ish.c:573-588 | A detach that unmounts a whole profile with no other thread stepping in between leaves exactly the points that are held when it comes to them; the name stays if and only if one was; so it leaves the profile recorded in pieces if and only if some are held and some are not. |
| `IshMountsTheorems.DetachLeavesPiecesIff` | ios/Runner/ish/sbm_ish.c:780-801 | In every run, whatever other threads do in between: when a detach has unmounted what it could, its recorded profile stays recorded if and only if something of it is still mounted, so in pieces if and only if some of it is and some is not. |
| `IshMountsTheorems.DetachFailsIff` | ios/Runner/ish/sbm_ish.c:780-823 | In every run, a detach that comes as far as unmounting answers an error if and only if something of its profile is then still mounted. |
| `IshPieces.DetachLeavesPieces` | ios/Runner/ish/sbm_ish.c:780-801 | A run of one thread from the start, an attach and a detach that finds `/dev` held, ends with the name recorded and only `/dev` mounted. |
| `IshMountsTheorems.AttachAnswersZero` | ios/Runner/ish/sbm_ish.c:622-697 | An attach that answers 0 leaves its profile recorded; whole if it mounted it itself, and whole if it found it recorded if and only if no detach that could not finish took any of it down. |
| `IshAnswers.CallAnswers` | ios/Runner/ish/sbm_ish.c:622-1066 | In every run, whatever other threads and the kernel do in between, a whole attach, detach, open or close answers the first thing that refuses it; if nothing does it answers 0, or, if it is an open, the slot it reserved. So it answers below 0 if and only if something refused it: an attach, a machine that is not booted, a bad name, the mark, a full table when the profile is not in it, a stale mount that is held, or the kernel. |
| `IshAnswers.RecordedAttaches` | ios/Runner/ish/sbm_ish.c:634-637 | In every run, an attach that finds its profile recorded answers 0, and changes no mount and no table. |
| `IshAnswers.OnlyLocks` | ios/Runner/ish/sbm_ish.c:622-644 | Until it has looked at both tables an attach changes nothing but the locks, and so does a detach until it marks. |
| `IshAnswers.SweptIff` | ios/Runner/ish/sbm_ish.c:664-690 | In every interleaving, when the rollback of a failed attach is done, a point of the profile carries a mount if and only if the kernel would not give it up when its turn came; so too for the sweep that begins an attach and that of a detach. |
| `IshRollback.FailedAttachIff` | ios/Runner/ish/sbm_ish.c:646-692 | So in every run, whatever other threads do in between: an attach that has begun to clear or to mount and answers an error leaves a point of its profile mounted if and only if the kernel would not give it up when asked to. |
| `IshMountsTheorems.DetachAnswersZero` | ios/Runner/ish/sbm_ish.c:734-824 | A detach of a booted machine that answers 0 leaves none of the three points mounted, and the profile neither recorded nor marked. |
| `IshMountsTheorems.MarkNeedsNoBareSession` | ios/Runner/ish/sbm_ish.c:756-781 | A detach marks a profile only while no session of that profile is reserved without a pid, and only one nobody else has marked. |
| `IshMountsTheorems.MarkExcludes` | ios/Runner/ish/sbm_ish.c:627-633 | While a profile is marked, no step of any other thread mounts or unmounts anything of it, records or forgets it, or reserves a session for it. |
| `IshMarks.MarkedIffDetaching` | ios/Runner/ish/sbm_ish.c:756-823 | In every run a profile is marked if and only if a detach of it is at work between setting its mark and its end, whatever that answers: no mark is left behind. |
| `IshMountsTheorems.NoSessionsWhenUnmounting` | ios/Runner/ish/sbm_ish.c:756-781 | In every run, when a detach takes filesystems down no session slot in use belongs to its profile. |
| `IshSlots.AlwaysOwnedIff` | ios/Runner/ish/sbm_ish.c:938-1066 | In every run, each open owns the slot it reserved until it returns, alone, and without a pid until it publishes its own, if and only if no call ever frees the slot of another open that has not returned. |
| `IshSlots.OwnedStepIff` | ios/Runner/ish/sbm_ish.c:938-1066 | One step, from any state in which every open owns its slot. |
| `IshSlots.FreedByClose` | ios/Runner/ish/sbm_ish.c:1157-1211 | The first step of a run that does free one is a close called with its number, or the sweep of a detach; if that open has not published its pid, the former. |
| `IshSlots.MarksNoOpenInProgress` | ios/Runner/ish/sbm_ish.c:754-774 | While none is freed, a detach never marks a profile of which an open has reserved a slot and not published its pid. |
| `IshSlots.OpenEnds` | ios/Runner/ish/sbm_ish.c:1013-1066 | While none is freed, an open that succeeds leaves its profile and its child's pid in the slot it answers; one that fails publishes the pid of its child, if it has one, and then leaves the slot free and every other as it was. |
| `IshSlots.PidKept` | ios/Runner/ish/sbm_ish.c:967-1014 | From its child on, an open works with the pid of that child. |
| `IshSlots.CloseFrees` | ios/Runner/ish/sbm_ish.c:1157-1211 | A close of a slot by number answers 0, and frees that slot and touches no other. |
| `IshSlots.OpenLosesSlot` | ios/Runner/ish/sbm_ish.c:951-997 | A run of three threads in which a close of its number makes an open publish its pid in the slot of another, which then has a session with a pid before it has one itself. |
| `IshMountsTheorems.StepDescends` | ios/Runner/ish/sbm_ish.c:622-697 | Every step either waits for a lock or brings its call nearer its end. |
| `IshMountsTheorems.NoDeadlock` | ios/Runner/ish/sbm_ish.c:734-824 | From every reachable state in which some call is unfinished, some thread can take a step: the two locks never deadlock. |
| `IshMountsTheorems.CallsComplete` | ios/Runner/ish/sbm_ish.c:923-1066 | From every reachable state there is a schedule, no longer than the work left, after which every call has returned. |
| `IshMountsProofs.StepKeepsInv` | ios/Runner/ish/sbm_ish.c:622-697 | The whole invariant (tables, locks, stacking, per-thread facts, one detach a profile) survives every step of every thread. |
| `IshMountsProofs.RunKeepsInv` | ios/Runner/ish/sbm_ish.c:734-824 | So it holds in every state any run can reach. |
| `IshTables.Machine.IsAttached` | ios/Runner/ish/sbm_ish.c:525-529 | The scan finds a name exactly when the table of attached profiles holds it. |
| `IshTables.Machine.IsDetaching` | ios/Runner/ish/sbm_ish.c:531-535 | The scan finds a name exactly when the table of detaching profiles holds it. |
| `IshTables.Machine.MarkDetaching` | ios/Runner/ish/sbm_ish.c:537-545 | Refuses a marked name and a full table, and otherwise changes the first empty entry and nothing else. |
| `IshTables.Machine.ClearDetaching` | ios/Runner/ish/sbm_ish.c:547-553 | Empties the first entry that holds the name and nothing else. |
| `IshTables.Machine.ForgetAttached` | ios/Runner/ish/sbm_ish.c:789-801 | Empties the entry of the profile in the table of attached profiles and nothing else. |
| `IshTables.Machine.UnmountProfile` | ios/Runner/ish/sbm_ish.c:573-588 | Takes one mount off every point of the profile that has one and is not held, going on past those that are, and changes nothing else; it answers 0 exactly when none was held, an empty point being no failure. |
| `IshTables.Machine.ReserveSession` | ios/Runner/ish/sbm_ish.c:938-963 | Refuses a profile that is being detached, then a full table, and otherwise takes the first free slot with no pid. |
| `IshTables.Machine.CloseSession` | ios/Runner/ish/sbm_ish.c:1157-1168 | Frees a slot only if it is in use and of this profile, or of any when none is given, answering its pid, and changes no other slot. |
| `IshTables.Machine.AnyBare` | ios/Runner/ish/sbm_ish.c:756-770 | Finds a reserved session without a pid exactly when the profile has one. |
| `IshTables.CheckProfile` | ios/Runner/ish/sbm_ish.c:517-523 | Accepts exactly the names of one component other than `.` and `..` that are shorter than 64, and says whether another is bad or too long. |
| `IshTables.AddedMembers` | ios/Runner/ish/sbm_ish.c:537-545 | Marking adds that name and loses no other. |
| `IshTables.RemovedMembers` | ios/Runner/ish/sbm_ish.c:547-553 | In a table of distinct names, clearing removes that name and loses no other, and names stay distinct. |
| `IshConsole.Console.Write` | ios/Runner/ish/sbm_ish.c:213-235 | The ring then holds the last 262143 bytes of what it held and what was written: only the oldest bytes are dropped, and only past that limit. |
| `IshConsole.Console.Drain` | ios/Runner/ish/sbm_ish.c:1101-1109 | Returns the oldest bytes in order, as many as asked for or there are, and leaves the rest; answers -1 exactly when there were none and the process has exited. |
| `IshConsole.Console.Read` | ios/Runner/ish/sbm_ish.c:1068-1109 | Refuses a bad length, answers -1 for a free slot and touches nothing; otherwise, if it has to wait, goes on with whatever writes, other reads, exits, closes and opens made of the slot meanwhile. Of the slot it goes on with it returns the oldest bytes, and answers -1 exactly when its process has exited and everything retained was read. |
| `IshConsole.SameSession` | ios/Runner/ish/sbm_ish.c:1088-1097 | While the session is not closed during a wait, the read goes on with that session: what it had written is still the start of what is written, and an exit stays. |
| `IshConsole.ReusedSlotIff` | ios/Runner/ish/sbm_ish.c:1097-1109 | A read that waits goes on with another session than its own if and only if its own is closed and the slot taken again meanwhile. |
| `IshConsole.ReusedSlotIsRead` | ios/Runner/ish/sbm_ish.c:1097-1109 | And then it answers with the new session's output: a concrete course of events. |
| `IshConsole.OutputInOrder` | ios/Runner/ish/sbm_ish.c:213-235 | Under every sequence of writes and reads, the buffer is a suffix of everything written, within the limit, and reads return stretches of it in order and without overlap. |
| `IshConsole.PutKeepsFaithful` | ios/Runner/ish/sbm_ish.c:221-229 | How much a write drops: nothing while the unread bytes fit the limit, and otherwise exactly the excess, from the oldest end. |
| `IshConsole.NothingLost` | ios/Runner/ish/sbm_ish.c:1101-1109 | While every write fits, everything read and everything left are together everything written. |
| `IshConsole.KeepLastAppend` | ios/Runner/ish/sbm_ish.c:221-229 | Writing in pieces keeps the same bytes as writing at once. |
| `IshConsole.ExitStatusTellsSignals` | ios/Runner/ish/sbm_ish.c:313-341 | A normal exit keeps its code and a death by signal, core dump or not, reads as 128 and the signal. |
| `Markers.NameRoundTrip` | crates/sbm_parser/src/script.rs:154-165 | An encoded name decodes to itself, for every string. |
| `Markers.NameCanonical` | crates/sbm_parser/src/script.rs:159-165 | The decoder accepts nothing but what the encoder makes. |
| `Markers.BuiltinKeyIff` | crates/sbm_parser/src/script.rs:168-173 | A line is the built-in marker of a key exactly when it is the line printed for that key. |
| `Markers.CustomKeyIff` | crates/sbm_parser/src/script.rs:176-190 | A line is a custom marker exactly when it is the line printed for some name, and its key is that name in the custom namespace. |
| `Markers.FamiliesApart` | crates/sbm_parser/src/script.rs:644-658 | No line is a marker of both families. |
| `Markers.CustomResultNameOfKey` | crates/sbm_parser/src/script.rs:188-200 | The name comes back out of a custom key, and the empty name does not count. |
| `Markers.OutputLineIsData` | crates/sbm_parser/src/script.rs:614-658 | An encoded-output line is never a marker. |
| `Base64.DecodeEncode` | crates/sbm_parser/src/script.rs:154-157 | RFC 4648 base64, either alphabet: decoding an encoding gives the bytes back. |
| `Base64.EncodeDecode` | crates/sbm_parser/src/script.rs:159-165 | What decodes at all is the canonical encoding of what it decodes to: padding and spare bits are checked. |
| `Base64Bits.BitsKept` | crates/sbm_parser/src/script.rs:154-157 | The encoding is the bits of the bytes, three bytes and four sextets at a time, with zero bits after what is left over. |
| `Base64Bits.AlphabetIs` | crates/sbm_parser/src/script.rs:154-157 | Both alphabets are those of RFC 4648, symbol by symbol. |
| `Utf8.DecodeEncode` | crates/sbm_parser/src/script.rs:154-165 | Every string survives UTF-8, strictly and lossily decoded. |
| `Utf8.EncodeDecode` | crates/sbm_parser/src/script.rs:159-165 | Bytes that decode strictly are the encoding of the result: no overlong or surrogate forms. |
| `Utf8Lossy.LossyReads` | crates/sbm_parser/src/script.rs:614-616 | Lossy decoding of any bytes is the one text that has their characters in order and one U+FFFD for each maximal ill-formed prefix, where what a character is, and the beginning of one, is told by the encoder alone. |
| `Utf8Lossy.TextAround` | crates/sbm_parser/src/script.rs:614-616 | Whatever bytes stand between two texts, both texts survive whole. |
| `Utf8Lossy.CutText` | crates/sbm_parser/src/script.rs:614-616 | A text cut anywhere keeps its characters before the cut, and has one U+FFFD if the cut falls inside a character. |
| `Segments.ParseScriptSegments` | crates/sbm_parser/src/script.rs:586-642 | The loop over lines computes the fold of the line step, for every input. |
| `Segments.ParseScriptOutput` | crates/sbm_parser/src/script.rs:569-578 | The map holds, for every key, the text of the first segment with that key and nothing else. |
| `Segments.RoundTrip` | crates/sbm_parser/src/script.rs:586-642 | Built-in sections followed by custom ones, printed as the script prints them after any marker-free whole lines, parse back to the same keys and texts in the same order. A custom command can print any bytes, and comes back as the reading of the first 64 KiB of them; a custom section that is not an encoding comes back as it is. |
| `Segments.RoundTripCrlf` | crates/sbm_parser/src/script.rs:623-626 | The same when every newline has become CRLF. |
| `Segments.CustomOutputReads` | crates/sbm_parser/src/script.rs:806 | The text of a custom section is the one reading of the bytes that are sent, at most 65536 of them. |
| `Segments.CustomTextReads` | crates/sbm_parser/src/script.rs:806 | Of a command that prints text all of it comes back if it was sent whole, and otherwise the characters before the cut, with one U+FFFD if the cut falls inside one. |
| `Segments.LastCrDropped` | crates/sbm_parser/src/script.rs:595-603 | A carriage return left at the end of the last line is no part of the text of a section. |
| `Segments.CustomStays` | crates/sbm_parser/src/script.rs:623-636 | From a named custom section on, parsing only adds custom segments after those already found, whatever lines follow, as long as none is the empty-named custom marker. |
| `Segments.BuiltinsIsolated` | crates/sbm_parser/src/script.rs:623-636 | After a named custom marker, no later text without an empty-named custom marker changes or adds a built-in segment. |
| `Segments.BuiltinLookupsIsolated` | crates/sbm_parser/src/script.rs:569-578 | Nor does it change what a built-in key maps to. |
| `Segments.SegmentsOrdered` | crates/sbm_parser/src/script.rs:623-658 | Without an empty-named custom marker line, the segments of every text are built-ins and then customs. |
| `Segments.UnnamedReopens` | crates/sbm_parser/src/script.rs:623-658 | The guard is needed: inside a named custom section, a custom marker without a name lets the next built-in marker add a built-in section. |
| `Segments.ContainsIffParsed` | crates/sbm_parser/src/script.rs:665-673 | The cheap test accepts exactly the texts in which the parser finds a segment. |
| `FileNames.FileNameRoundTrip` | crates/sbm_parser/src/script.rs:110-143 | The name, and the order, come back out of a file name on either platform, whatever the name contains. |
| `FileNames.FileNameSplits` | crates/sbm_parser/src/script.rs:126-133 | The first underscore separates order from name though an encoded name may contain underscores. |
| `FileNames.OrdersSort` | crates/sbm_parser/src/script.rs:104-112 | Below 100000, file names sort as their orders do, whatever the command names are. |
| `FileNames.OrdersStopSorting` | crates/sbm_parser/src/script.rs:99-112 | The bound is tight: order 100000 sorts before order 99900. |
| `FileNameReading.NameFromFileIff` | crates/sbm_parser/src/script.rs:126-133 | A file has a name if and only if it is a number, an underscore and the encoding of that name, with or without one `.ps1`. |
| `FileNameReading.NameForIff` | crates/sbm_parser/src/script.rs:135-143 | It is this platform's if and only if it also has, or has not, the extension of Windows. |
| `Listing.ParseCustomCmdsListing` | crates/sbm_parser/src/script.rs:396-440 | The loop computes the entries of the last complete listing, or None, for every input. |
| `Listing.EntryRoundTrip` | crates/sbm_parser/src/script.rs:417-438 | One printed line parses back to its order, name and command. |
| `Listing.ListingRoundTrip` | crates/sbm_parser/src/script.rs:396-440 | A printed listing, LF or CRLF, parses back to exactly its entries, whatever whole lines precede it and whatever follows that neither ends a listing nor reports a missing one. |
| `Listing.LaterMissingWins` | crates/sbm_parser/src/script.rs:404-412 | A missing-directory report after every listing end yields None. |
| `ListingReading.EntryIff` | crates/sbm_parser/src/script.rs:417-438 | A line is an entry if and only if it is a file name without a space, a space, and the base64 of the command with at most white space around it, the number of the file being the order. |
| `ListingReading.ListingIff` | crates/sbm_parser/src/script.rs:404-416 | A text has a listing if and only if some start line comes before its last end line and no missing line after that; the listing is the entries between the last such start and that end. |
| `ListingReading.EntriesAround` | crates/sbm_parser/src/script.rs:417-438 | A line inside a listing that is no entry adds none, wherever it stands. |
| `CustomCmds.Validate` | monitor/src/monitoring/custom_cmds.rs:211-240 | Accepts exactly the sets of acceptable commands with distinct names; otherwise points at the first command that breaks the set, with a reason that holds of it. |
| `CustomCmds.PaddedRefused` | monitor/src/monitoring/custom_cmds.rs:211-240 | A name with white space around it is refused, one without is measured in bytes, at most 64, and a command of nothing but white space is refused. |
| `CustomCmds.ReadDir` | monitor/src/monitoring/custom_cmds.rs:80-105 | Fails if and only if the directory or one of its entries cannot be read; otherwise reads exactly the regular, readable files that are commands, sorted by file name; a missing directory is empty. |
| `CustomCmds.SortedUnique` | monitor/src/monitoring/custom_cmds.rs:101-104 | That listing does not depend on the order the directory was read in. |
| `CustomCmds.FilesDiffer` | monitor/src/monitoring/custom_cmds.rs:133-142 | Two commands are written to one file if and only if they have one name and one order, orders wrapping at 32 bits; so commands of different names never are. |
| `CustomCmds.OrderWraps` | monitor/src/monitoring/custom_cmds.rs:135-136 | The order of a command wraps around at 32 bits, and repeats every 2^30 positions. |
| `CustomCmds.ListAfterReplace` | monitor/src/monitoring/custom_cmds.rs:80-142 | What was written reads back as the same commands in the same order if and only if there are at most 999 of them, for sets of every size. |
| `CustomCmds.ThousandComeBackOtherwise` | monitor/src/monitoring/custom_cmds.rs:133-142 | A thousand commands called by their numbers are accepted, and read back in another order. |
| `DirReplace.Store.Recover` | monitor/src/monitoring/custom_cmds.rs:197-209 | Recovery, crash at any point included, never changes what the directories stand for; when it finishes there is no backup and the directory holds that. |
| `DirReplace.Store.Prepare` | monitor/src/monitoring/custom_cmds.rs:127-142 | Writing aside changes nothing but the fresh directory, which ends up with exactly the files, over what was already in it; after one failed call, nothing of it is left. |
| `DirReplace.Store.Install` | monitor/src/monitoring/custom_cmds.rs:144-161 | The two renames put exactly the fresh directory in place or leave what was there, at every crash and failure; after one failed call the old directory is back and no backup is left. |
| `DirReplace.Store.WriteDir` | monitor/src/monitoring/custom_cmds.rs:117-174 | Every outcome leaves the old set or the new one, whole; success means the new one is in place, an error that it is not. What can be under the new set are files the fresh directory had before the call, so a set that overwrites all of those is installed as it is under every course of faults. With no fault it succeeds, and the directory, holding exactly the set, is all that is left. |
| `DirReplace.InstallsMore` | monitor/src/monitoring/custom_cmds.rs:126-161 | For every other set and tree there is a course of faults, the first call of the ignored removal failing and nothing else, in which the call succeeds and installs more than the set. |
| `DirReplace.ReplaceRun` | monitor/src/monitoring/custom_cmds.rs:117-209 | After any number of replacements cut short anywhere, recovery leaves exactly the set of the last one whose rename into place happened, over the files that one could not clear away beforehand: none if it could, and otherwise only some that the fresh directory had at the start or earlier calls wrote. If each set overwrites all of those, exactly that set. |
| `DirReplace.RecoveredExactlyIff` | monitor/src/monitoring/custom_cmds.rs:126-161 | What is recovered is the last installed set if and only if that set overwrites every file left from before it. |
| `DirReplace.LastInstalledIs` | monitor/src/monitoring/custom_cmds.rs:144-161 | What "last installed" means for a run, stated by position. |
| `DirReplace.StaleSurvives` | monitor/src/monitoring/custom_cmds.rs:127-161 | A replacement by no commands that cannot remove what an interrupted one wrote succeeds, and installs that. |
| `LoginThrottle.Throttle.Begin` | monitor/src/api/ratelimit.rs:100-146 | Prunes, refuses with the longest remaining wait, or reserves every key; the whole new table is stated. |
| `LoginThrottle.Throttle.RecordFailure` | monitor/src/api/ratelimit.rs:172-184 | Turns the reservation of each key into a failure; the whole new table is stated. |
| `LoginThrottle.Throttle.RecordSuccess` | monitor/src/api/ratelimit.rs:160-166 | Forgets each key; the whole new table is stated. |
| `LoginThrottle.Throttle.Cancel` | monitor/src/api/ratelimit.rs:187-200 | Takes the reservation of each key back and drops an entry that counts nothing any more; the whole new table is stated. |
| `LoginThrottle.ReserveAllAt` | monitor/src/api/ratelimit.rs:129-140 | Reserving several keys is, key by key, reserving that key, whatever the others are. |
| `LoginThrottle.AdmitsIff` | monitor/src/api/ratelimit.rs:114-127 | An attempt is admitted exactly when none of its keys has time left to wait. |
| `LoginThrottle.Keys` | monitor/src/api/ratelimit.rs:202-211 | The address if it is known and the lower-cased name if there is one, each once, and nothing else. |
| `LoginThrottle.DelayGrows` | monitor/src/api/ratelimit.rs:60-71 | The delay never falls as attempts count up. |
| `LoginThrottle.DelayValues` | monitor/src/api/ratelimit.rs:60-71 | The delays are none up to three, then 1, 2, 4, ... 256 seconds, and 300 for every higher count. |
| `ThrottleHistory.EntryIsHistory` | monitor/src/api/ratelimit.rs:100-200 | In every run from the empty table, the entry of a key is its history: the failures recorded since it was last forgotten, up to saturation, the attempts not resolved, and the reading of the last attempt admitted or failed. It is forgotten by a success, by an admission that finds it idle for an hour, or by pruning of a table of more than 1024 entries that does; by nothing else, and never by a cancel. |
| `ThrottleHistory.AdmittedIff` | monitor/src/api/ratelimit.rs:100-146 | So after every such run an attempt is admitted if and only if the last reading of each of its keys is as far back as the delay for its failures and its attempts not resolved. |
| `ThrottleHistory.CancelForgetsNothing` | monitor/src/api/ratelimit.rs:187-200 | A cancel changes no key's failures and no reading of an entry that has any, and drops an entry only if it has none. |
| `ThrottleHistory.RefusalHolds` | monitor/src/api/ratelimit.rs:114-127 | A refusal says how long it holds: any retry before that is refused, and any later one admitted, unless an entry has a reading later than the refusal's own. |
| `ThrottleRate.StepCharges` | monitor/src/api/ratelimit.rs:100-184 | Every operation keeps the attempts charged to a key, an admission adds one, whatever the readings; and none comes before the delay for those already charged has passed since the reading in the entry. |
| `ThrottleRate.AdmissionsSpaced` | monitor/src/api/ratelimit.rs:58-71 | In every run with no success, cancel or idle reset of a key, in which the admissions of it that are delayed find an entry whose reading is not older than the admission before, the n-th comes at least the delay for n - 1 attempts after the one before, however many are concurrent. From the fifth on; the first four are not delayed. |
| `ThrottleRate.InOrderIsCurrent` | monitor/src/api/ratelimit.rs:129-183 | Readings that arrive in order are enough for that. |
| `ThrottleRate.GuessingRate` | monitor/src/api/ratelimit.rs:100-146 | So from the fourth admission to the n-th, n at least 13, is at least 511 + 300 (n - 13) seconds, and from the first too if the first four have their readings in order. |
| `ThrottleRate.NextCanBeEarlyIff` | monitor/src/api/ratelimit.rs:105-127 | After any run that leaves a key delayed, its next admission can come before the penalty has passed since the last one if and only if the reading in the entry is older than the last admission. |
| `ThrottleRate.StaleReadingBreaksRate` | monitor/src/api/ratelimit.rs:105-107 | A clock reading taken before the lock and used after a later admission does let an attempt in early, in a run that does not relieve the key. |
| `ThrottlePruning.InFlightExact` | monitor/src/api/ratelimit.rs:187-200 | In every orderly run the count in flight in each entry of the table, pruned as the source prunes it, is exactly the number of outstanding attempts on its key, and a key without an entry has none. |
| `ThrottlePruning.ExactKept` | monitor/src/api/ratelimit.rs:129-200 | One orderly operation keeps that in a table that is not pruned. |
| `ThrottlePruning.SameAfterIff` | monitor/src/api/ratelimit.rs:108-184 | One operation, with any reading and any overlap, is answered alike by the pruned table and an unpruned one and leaves them alike if and only if it does not touch a dropped entry that still had failures. |
| `ThrottlePruning.TracksIff` | monitor/src/api/ratelimit.rs:108-184 | Lifted to every run from an empty table, with readings in any order and any overlap. |
| `ThrottlePruning.HarmShows` | monitor/src/api/ratelimit.rs:108-138 | An operation that does touch one is answered differently, or one of three attempts made right after it is. |
| `ThrottlePruning.PruningInvisibleIff` | monitor/src/api/ratelimit.rs:108-138 | For every run whose readings are in order, whatever overlaps: no answer of the run, and no attempt made right after any step of it, can tell pruning from never pruning, if and only if no failure lands on a key whose entry was dropped with failures in it. |
| `ThrottlePruning.PruningInvisible` | monitor/src/api/ratelimit.rs:108-138 | So in runs in which no success overlaps another attempt on its key, the table that drops idle entries gives the same answers, with the same waits. |
| `ThrottleForgetting.OverlapForgets` | monitor/src/api/ratelimit.rs:160-184 | For every crowd of at least 1024 other users, a run from an empty table with readings in order in which a success overlaps another attempt and a later answer differs with pruning and without. |
| `ThrottleForgetting.SuccessLosesCount` | monitor/src/api/ratelimit.rs:160-166 | A success beside another attempt on the key leaves that attempt outstanding and not counted. |
| `ThrottleForgetting.StaleReadingForgets` | monitor/src/api/ratelimit.rs:105-140 | For every such crowd, a run without overlaps in which one stale reading makes an answer differ. |
| `LiveActivity.StepKeepsInv` | ios/Runner/LiveActivityManager.swift:120-207 | The invariant over requests, owners, tags and generations survives every step of every interleaving. |
| `LiveActivity.OneRequestInFlight` | ios/Runner/LiveActivityManager.swift:157-163 | In every interleaving at most one request is unanswered, and it is the one in `pending`. |
| `LiveActivity.NeverWaitsTwice` | ios/Runner/LiveActivityManager.swift:141-149 | No call waits twice on one request: the tags it waits on, and the one it makes at last, strictly increase. |
| `LiveActivity.NothingLost` | ios/Runner/LiveActivityManager.swift:162-172 | Every activity a request returned is still to be taken by its owner, was kept in `current`, or has been ended. |
| `LiveActivity.OwnerKeepsOrEnds` | ios/Runner/LiveActivityManager.swift:162-172 | The owner keeps what it was granted, an activity or none, exactly when no stop has come in between; otherwise it ends it and leaves `current` alone. |
| `LiveActivity.StopLeavesNothing` | ios/Runner/LiveActivityManager.swift:185-193 | After a stop, once every call has returned, each activity requested before it has been ended or is gone from the system. |
| `LiveActivityEnds.CallEndsOthers` | ios/Runner/LiveActivityManager.swift:195-206 | In every interleaving, a start or update that found an activity and has returned has ended every other activity the system listed when it found it. It ends no others, and never the one it found, which is the one kept if that can be updated and else the first listed one that can; and it returns once it has been resumed often enough. |
| `LiveActivityEnds.StopEndsAll` | ios/Runner/LiveActivityManager.swift:185-193 | In every interleaving, a stop that has returned has ended every activity the system listed or the actor kept when it began, and nothing else. |
| `LiveActivityEnds.LookFinds` | ios/Runner/LiveActivityManager.swift:81-91 | A call that looks for an activity finds one exactly when one that is listed or kept can be updated; otherwise it keeps none, ends none, and waits, asks or returns. |
| `LiveActivityDoubles.SecondActivityIff` | ios/Runner/LiveActivityManager.swift:141-160 | In every run, a second activity is asked for in a generation beside one of it that is live if and only if somewhere a call resumes from an obsolete request, finds none in flight and leaves the loop beside a live one. |
| `LiveActivityDoubles.OneActivity` | ios/Runner/LiveActivityManager.swift:120-193 | So when every call of a run has returned, at most one of the activities it asked for is still standing, unless a call left the loop that way. |
| `LiveActivityDoubles.TwoActivities` | ios/Runner/LiveActivityManager.swift:141-160 | A run of three starts and a stop ends, with every call returned, in two activities that nobody has ended, only one of them in `current`. |
| `SizeCap.Cleanup.TrimOldest` | monitor/src/db/cleanup.rs:113-120 | Deletes at most a tenth of one table and one row, never goes below the floor, and takes less only when that is all there is above the floor; every row left is at least as new as every row deleted. |
| `SizeCap.Cleanup.TrimRound` | monitor/src/db/cleanup.rs:84-98 | One pass deletes what it says; if it deletes nothing, every table is at or below its floor. |
| `SizeCap.Cleanup.EnforceDbSizeLimit` | monitor/src/db/cleanup.rs:70-111 | Ends for every database. The size is then within the cap or every table is at its floor; the total is the rows removed; the newest survive; audit tables keep their last 100 rows; and the size was over the cap before the last trim, which took at most a tenth of one table and one row. |
| `SizeCap.Cleanup.MaxBytes` | monitor/src/db/cleanup.rs:71-74 | The cap in bytes: none for a setting of 0, and at most the largest 64-bit number. |
| `SizeCap.NewestTransitive` | monitor/src/db/cleanup.rs:113-120 | Keeping the newest of the newest is keeping the newest. |
| `WatchIngest.Parse` | ios/WatchApp/PhoneConnMgr.swift:151-179 | Reads the list and the tokens of a payload, dropping entries without id or address; anything without a server list is no configuration. |
| `WatchIngest.TokensOfServers` | ios/WatchApp/PhoneConnMgr.swift:159-176 | There is a token entry for exactly the servers of the list. |
| `WatchIngest.ServersFrom` | ios/WatchApp/PhoneConnMgr.swift:159-172 | The list holds exactly the servers of the entries with an id and an address that is not blank. |
| `WatchIngest.UsableIff` | ios/WatchApp/PhoneConnMgr.swift:160-164 | An entry counts if and only if it has an id and an address with something in it. |
| `WatchIngest.SentComesBack` | ios/WatchApp/PhoneConnMgr.swift:159-172 | A server comes back as the phone sent it, white space around its address aside; of one sent by id and address alone the address is the name, and nothing is allowed that was not asked for. |
| `WatchIngest.ListComesBack` | ios/WatchApp/PhoneConnMgr.swift:159-172 | So does a whole list, in its order. |
| `WatchIngest.LastTokenDecides` | ios/WatchApp/PhoneConnMgr.swift:173-175 | Where an id is repeated the last usable entry decides its token; an absent one reads as empty. |
| `WatchIngest.WatchStore.SetToken` | ios/WatchApp/Store.swift:127-148 | Stores a token, or clears it when there is none, and the legacy password of that server with it. |
| `WatchIngest.WatchStore.SetServers` | ios/WatchApp/Store.swift:36-52 | Stores the list and drops exactly the tokens, legacy passwords and readings of servers outside it. |
| `WatchIngest.PhoneConnMgr.Ingest` | ios/WatchApp/PhoneConnMgr.swift:116-140 | One delivery either changes nothing or applies the whole configuration; which, and to what, is stated for the whole store. |
| `WatchIngest.Converges` | ios/WatchApp/PhoneConnMgr.swift:128-135 | Whatever the order and however often each is delivered, the watch ends with the list and tokens of the newest stamped payload. |
| `WatchIngest.OrderDoesNotMatter` | ios/WatchApp/PhoneConnMgr.swift:128-135 | So two deliveries of the same payloads agree on list and tokens. |
| `WatchIngest.OneMoreDelivery` | ios/WatchApp/PhoneConnMgr.swift:120-140 | After any deliveries one more is applied whole, exactly when it is a configuration without a stamp or with one beyond any before, and then leaves the readings of its servers as they were; otherwise it changes nothing. |
| `WatchIngest.StampIsLargest` | ios/WatchApp/PhoneConnMgr.swift:128-129 | The stamp kept is the largest of all configurations delivered, so one without a stamp does not take it back. |
| `WatchIngest.TokensAlwaysMatch` | ios/WatchApp/Store.swift:40-51 | From the first configuration that is applied on, whatever was stored before, no token or reading is left for a server outside the list; until then nothing changes. |
| `WatchIngest.ReadingsDependOnOrder` | ios/WatchApp/Store.swift:40-45 | Readings do depend on the order: an older list applied first drops one the other order keeps. |
| `DiskUsage.Totals.Visit` | crates/sbm_parser/src/types.rs:339-355 | The recursion adds exactly the nodes it comes to, in order, each id once. |
| `DiskUsage.DiskUsage` | crates/sbm_parser/src/types.rs:338-361 | Both totals are sums over the first node of each distinct id among the nodes visited. |
| `DiskUsage.ListedTwice` | crates/sbm_parser/src/types.rs:338-361 | Appending the same list again changes neither total. |
| `DiskUsage.BelowDataIgnored` | crates/sbm_parser/src/types.rs:349-351 | For every forest, dropping everything below every node with data of its own, at any depth, changes neither total. |
| `DiskUsage.BelowDataIrrelevant` | crates/sbm_parser/src/types.rs:349-351 | So forests that differ only there have the same totals. |
| `DiskUsage.VisitedIff` | crates/sbm_parser/src/types.rs:339-355 | A node counts if and only if it and every node above it are to be reported, and none above it has data of its own. |
| `DiskUsage.ReportedIff` | crates/sbm_parser/src/types.rs:126-141 | A device is reported unless it is mounted at or inside `/dev`, `/proc` or `/sys`, or its source begins like one that is not storage and its mount not with `/mnt`. |
| `DiskUsage.SameIdIff` | crates/sbm_parser/src/types.rs:343 | Devices whose paths have no colon are one exactly when they have one path and one kernel name, none being called unknown. |
| `DiskUsage.IdsClash` | crates/sbm_parser/src/types.rs:343-347 | With colons two devices can have one id, and the second is not counted. |
| `DiskUsage.OrderDoesNotMatter` | crates/sbm_parser/src/types.rs:338-361 | When nodes of one id always report the same numbers, the totals depend only on which ids appear. |
| `History.MetricsHistory` | monitor/src/api/server.rs:1092-1136 | The loop computes each rate from the row before it, over the whole series, and then cuts from the old end. |
| `History.FewBuckets` | monitor/src/api/server.rs:1065-1081 | For every window and point count a caller can ask for, rows inside the window fall into at most one bucket more than asked for. |
| `History.AskedIsUsed` | monitor/src/api/server.rs:1065-1074 | What is asked for is used if and only if it is in range, and anything else is taken to the nearer end; a caller that names nothing gets an hour in 300 points. |
| `History.WidthIsSmallest` | monitor/src/api/server.rs:1076-1081 | The bucket width is the smallest with which the points asked for cover the window. |
| `History.PointOfEachRow` | monitor/src/api/server.rs:1101-1128 | Every row has its point; the first, and one whose bucket is not later than that of the row before, has rates of 0. |
| `History.ExtraBucketIff` | monitor/src/api/server.rs:1076-1081 | Rows inside the window can fall into that extra bucket if and only if what precedes it in its first bucket, and the window, fill all those asked for. |
| `History.DefaultReachesExtraBucket` | monitor/src/api/server.rs:1065-1081 | With the counts of a caller that names none they can at every moment: 301 buckets of 12 seconds. |
| `History.CutDropsAtMostOldest` | monitor/src/api/server.rs:1092-1136 | For every window and count asked for, when the rows are the buckets of samples in the window, the answer is the whole series, or all of it but the oldest point when there is one bucket too many. |
| `History.RatesNonNegative` | monitor/src/api/server.rs:1101-1113 | No rate is ever negative. |
| `History.RatesConserveIff` | monitor/src/api/server.rs:1101-1113 | For each of the four counters, rate times gap sums to the last average less the first and what the averages fell on the way; so it is the growth if and only if they never fall. |
| `History.AveragesDoNotFall` | monitor/src/api/server.rs:1081-1090 | A counter that never falls has bucket averages that never fall. |
| `ChildSlots.ChildReaper.Reserve` | crates/sbm_native/src/linux.rs:57-64 | Reaps, then reserves exactly when children and slots together are below four. |
| `ChildSlots.ChildReaper.RunCommand` | crates/sbm_native/src/linux.rs:108-163 | One call gives its slot back on every path, retains the child exactly when it killed it, and ends as its last poll says, within the timeout. |
| `ChildSlots.SlotsBounded` | crates/sbm_native/src/linux.rs:47-75 | With any number of concurrent callers: never more than four children and slots together, slots equal the calls in flight, and each admitted call gives its slot back exactly once. |
| `ChildSlots.StepAgrees` | crates/sbm_native/src/linux.rs:57-163 | A call beside others is admitted, goes on, and ends, its child kept exactly when it was killed, as a call alone does. |
| `ChildSlots.ChildrenAreUnreaped` | crates/sbm_native/src/linux.rs:47-75 | In every run the children kept are exactly those that calls have killed and no later call has found gone. |
| `ChildSlots.NeverSaturates` | crates/sbm_native/src/linux.rs:66-74 | The saturating subtractions never saturate. |

## Left out

- The kernel below the iSH bridge: mounting, unmounting and making a child succeed or fail as each step chooses. Terminals, signals, the crash handler and the mounts a guest makes itself are not modelled; booting only sets and clears a flag.
- `IshMounts`: attach, detach and open as whole calls are steps on values, because other threads run between them; the helpers and scans they are made of are also array methods, in `IshTables.Machine`, proved against the functions the steps use.
- Wake-up order and fairness of the two locks: a step that needs a held lock does nothing, and any thread may move next.
- A read's check of its session number and its retries for the lock, after which it answers that it is busy.
- The shell and PowerShell text the scripts are made of: only the lines they print. What the file size limit of a Unix custom command stops it from writing is not modelled.
- Which files a script lists: a listing is any sequence of entries, with orders of any width.
- JSON, sqlite, the keychain, the clock, HTTP and all user interface: what they return is a parameter or an argument.
- `DirReplace.Store.WriteDir`: one writer at a time, as the file lock ensures; creating the parent directory, paths outside the three directories, and the application's own installer, which uses another backup name, are not modelled. A crash keeps what was done before it: write-back caching is not modelled.
- `CustomCmds.ListAfterReplace`: orders wrap around at 32 bits, as in a release build; that a debug build stops there is not modelled.
- A reader of the directory between the two renames finds none; it is not modelled as a separate process.
- `ThrottleRate.AdmissionsSpaced`: not for admissions that find a reading older than the admission before; `ThrottleRate.NextCanBeEarlyIff` shows that those can come early, so nothing holds of them.
- `ThrottlePruning.PruningInvisible`: for orderly runs with fewer than 2^32 attempts outstanding; `ThrottlePruning.TracksIff` and `ThrottlePruning.PruningInvisibleIff` say what holds of the others.
- Lower-casing of user names is a parameter; parsing of peer addresses is left out.
- `LiveActivityDoubles.SecondActivityIff`: for runs in which the system does not report an activity as over and later as active again.
- `LiveActivity`: modelled on values rather than as a class, because its calls interleave at every `await`; the content of an activity, and payloads that do not parse, are left out. The system may drop an activity or change its state at any step.
- `SizeCap`: the live size is an arbitrary function of the rows, and nothing else writes while the loop runs; rows with equal timestamps are deleted in some order.
- `History`: averages and rates are real numbers, so rounding is left out, and so are the columns that are averaged without a rate and the parsing of the query string.
- `DiskUsage`: totals are unbounded; the source's 64-bit sums are not modelled.
- `ChildSlots.ChildReaper.RunCommand`: the output file and what is returned from it are left out.
- `WatchIngest`: whether the list can be encoded, and writes the keychain refuses, are left out.
- The per-platform text parsers, the file browser's roots, configuration and generated bindings: field extraction with shallow properties.
