# Verified model of the IRC services

This project models the parts of the services daemon that keep state by rules of their own, and
proves what those rules promise. Each module follows one part of the program:

- `CText`: the C library's numerals (`strtol`, `strtoul`, `%d` in 32 bits) and case folding.
- `ChannelModes`, `ModeReplay`, `ModeLetters`, `ChannelRecord`, `ModeLock`, `ModeSync`, `SyncUsers`,
  `BanExpiry`: reading a MODE command, repairing a channel against its mode lock and printing the
  commands that tell everyone else, SET MLOCK, SYNC and ban expiry. `ChannelModes` is the
  specification as functions on values, `ModeLetters` says what each letter of it is for, and
  `ChannelRecord.Channel` is the record that is changed in place, proved against it. The commands
  sent are kept as a trace. The MODE message is section 4.2.3 of RFC 1459, with the local modes M, R,
  c and O.
- `NodeLists`, `ChannelMembers`, `ChannelTable`, `AutoLimit`: lists known by their first node, the user,
  op and voice lists and the chains of the hash table of channels built on them, automatic limits.
- `Timeouts`: the list of delayed actions, walked while its actions change it.
- `Wildcards`, `NumLists`: the hand-written matcher and the two evaluators of number lists.
- `NickRemoval`, `NickLinks`, `AccessList`: who owns a channel when a nick goes, linked nicks, the
  access list; tables are maps and sets, a query is one update of them.
- `NickCache`: the hash of sorted circular lists in front of the nick table.
- `Dlink`, `FloodServ`: the general linked lists, and the tracking of repeated texts on one of them.
- `SeqSets`: sequences with elements taken out or put in.

Clocks, the answers of look-ups elsewhere (passwords, who is online, `check_valid_op`) and the order
of selected rows are parameters.

## Where the code departs from its intent

The model follows the code. Where the two differ, the condition under which the code does what it is
for is proved, in both directions:

- `cs_mysql_remove_nick` uses one variable for the number of selected rows and for the result of the
  UPDATE inside the loop, so the loop ends with the first transfer. `NickRemoval.FounderGoneIff` says
  exactly when no channel keeps the dropped founder; `NickRemoval.SecondChannelStays` is an example
  where one does.
- A successor at his limit is refused the channel of a nick he is linked to, although it counts for him
  already: `NickRemoval.RefusedIffOver`.
- `irc_stricmp` does not fold brackets, which its comment promises: `CText.SameNameIff` says which names
  it keeps apart.
- The matcher drops a `*` that is followed by `?`s and then the end or an ordinary character:
  `Wildcards.CompleteIffNoGap`, `Wildcards.StarQuestionRejects`.
- The query builder lowers both ends of a range to the maximum, the number list only the upper one,
  and one reads with `strtoul` where the other uses `strtol`. `NumLists.ReadAlikeIff` says which
  numerals are read alike, `NumLists.OneItemAgrees` and `NumLists.AgreeIffAtTurns` when the two agree
  on any entry and on any list, `NumLists.ListsAgreeIff` what is left of it when all numbers are read
  alike; `NumLists.SixIsLost` is a list they disagree on.
- LINK asks whether the effective nick has links, not the nick being linked:
  `NickLinks.LinkKeepsOneLevelIff`; `NickLinks.StaleNickBreaksOneLevel` reaches a bad table by commands.
- `check_modes` settles and its commands replay for well-formed locks, which are all that SET MLOCK
  stores; for others `ModeReplay.SettlesIffWellFormed` and `ModeReplay.ReplayExact` are exact.
- Ban expiry removes by mask: `BanExpiry.ExpiryExact`; a clock that does not go back is enough.
- The guard of SYNC's ban loop counts the space before a mask or the terminator of the text, not both,
  so a text can fill its buffer to the brim. `ModeSync.CutWithinBufferIff` says exactly when no text
  does, `ModeSync.TwoMasksBrim` is an example where one does.
- SYNC counts a user before it sends the batch that is full, so the last of a multiple of six users is
  in no command: `SyncUsers.UserCutLosesIff`, `SyncUsers.SyncUsersReach`.
- The automatic limit is evaluated without a look at the mode lock:
  `AutoLimit.EvaluationKeepsLockIff` says exactly when the two agree.
- `nickcache_del` never removes the nick it is asked for; `NickCache.Chain.DelAsWritten` is what it does
  instead.
- A limit more than 2^31 above the wanted one is not lowered when raising is forbidden, since the
  unsigned difference reads as positive: `AutoLimit.LoweringIff`, `AutoLimit.LargestLimitStays`.
- The field `time` of a flood text is described as when it was last said; it is set when it is said
  first, and the windows begin there.

## Model

| member | source | states |
|---|---|---|
| `CText.PrintedLimitReadsBack` | src/channels.c:575 | a limit printed with `%d`, as MODE commands print it, is read back by `strtoul` as the same 32-bit value, also when it was printed as a negative number |
| `CText.ScanDec` | src/channels.c:575 | a printed number is scanned whole and as itself, whatever comes after its digits |
| `CText.ReadingsAre` | src/chanserv.c:2489 | `strtol` and `strtoul` into 32 bits: alike up to 2^63, modulo 2^32 with the sign, and saturated beyond 64 bits |
| `CText.SameTextIff` | src/compat.c:56-67 | texts compare as equal exactly if they have the same letters up to case, place by place |
| `CText.SameNameIff` | src/misc.c:50-88 | of two names that are the same under the folding with brackets the program sees one name if and only if they differ in the case of letters alone |
| `ChannelModes.DropKey` | src/channels.c:550-565 | reading "-k" with a parameter leaves the channel without a key and everything else alone |
| `ModeReplay.CheckModesRepairs` | src/chanserv.c:405-550 | on every path, key change included, the channel ends with the lock laid over it field by field |
| `ModeReplay.LockIsEnforced` | src/channels.c:458-727 | after any MODE command: locked-on modes set, locked-off modes clear, locked limit and key in force, everything the lock leaves open (and bans, ops, voices) as the command left it |
| `ModeReplay.SettlesIffWellFormed` | src/chanserv.c:367-577 | a second check changes nothing, and it sends nothing if and only if the lock is well formed |
| `ModeReplay.BufferSuffices` | src/chanserv.c:371 | no composed mode string reaches the 32 characters of the buffer, for any lock |
| `ModeReplay.NestsAtMostOnce` | src/chanserv.c:470-486 | the channel the nested check is given has no key to change, so the change nests once; at most one command is sent without a key change and at most three with one |
| `ModeReplay.FinishIsHeard` | src/chanserv.c:488-570 | what a reader at any channel makes of the command composed by the second half of the check |
| `ModeReplay.HeardParts` | src/channels.c:458-580 | the parser on a printed string of plus flags, "lk", minus flags and "kl" with its parameters: modes, limit and key it ends with |
| `ModeReplay.ReplayKeyChange` | src/chanserv.c:470-486 | the key-change path: its "-k", the commands of the nested check and the final command, read in order, give the stored channel exactly when the lock is replayable there |
| `ModeReplay.ReplayExact` | src/chanserv.c:407-570 | the commands sent, read in order from the channel before the check, give exactly the stored modes, limit and key, if and only if the lock is replayable on that channel |
| `ModeReplay.WellFormedIsReplayable` | src/chanserv.c:407-570 | every well-formed lock is replayable on every channel |
| `ModeReplay.RunConcat` | src/channels.c:458 | reading two strings of mode letters one after the other is reading them joined |
| `ModeReplay.RunFlags` | src/channels.c:471-539 | a run of flag letters sets, or takes off, exactly the set of these flags |
| `ModeLetters.OpGained` | src/channels.c:625-657 | +o uses up one parameter and makes an op of that user if he is online and may be one; nobody else gains or loses anything |
| `ModeLetters.OpLost` | src/channels.c:659-671 | -o uses up one parameter and takes the op from that user and nobody else |
| `ModeLetters.VoiceGained` | src/channels.c:675-702 | +v uses up one parameter and gives voice to that user if he is online |
| `ModeLetters.VoiceLost` | src/channels.c:703-720 | -v uses up one parameter and takes voice from that user and nobody else |
| `ModeLetters.ReadOp` | src/channels.c:625-673 | who is op after a MODE +o or -o command, in both directions; all else is as it was |
| `ModeLetters.ReadVoice` | src/channels.c:675-720 | who has voice after a MODE +v or -v command, in both directions; all else is as it was |
| `ModeLetters.ReadBan` | src/channels.c:582-623 | +b puts a ban of now at the end, -b takes off the first one with the mask, if there is one |
| `ModeLetters.ReadFlag` | src/channels.c:471-540 | each of the ten binary modes is set by + and cleared by -, and no other |
| `ModeLetters.ReadKey` | src/channels.c:550-565 | +k sets the key given and -k leaves none |
| `ModeLetters.ReadLimit` | src/channels.c:567-580 | +l sets the limit typed in decimal, -l without a parameter takes it off |
| `ModeLetters.ReadNothing` | src/channels.c:550-580 | a letter without the parameter it wants, or with no meaning, changes nothing |
| `ChannelRecord.Channel.AddBan` | src/channels.c:589-602 | +b appends the ban with its time and the array stays within its allocated size |
| `ChannelRecord.Channel.DelBan` | src/channels.c:603-621 | -b removes the first ban with that mask and closes the gap |
| `ChannelRecord.Channel.ListMode` | src/channels.c:582-720 | +b, -b, +o, -o, +v and -v change bans, ops and voices as one step of the parser does |
| `ChannelRecord.Channel.ReadModes` | src/channels.c:454-724 | the loop over the letters ends with the channel the step-by-step reading gives |
| `ChannelRecord.Channel.RaiseLocked` | src/chanserv.c:407-461 | first half: missing flags and limit are set and written down in order |
| `ChannelRecord.Channel.ReplaceKey` | src/chanserv.c:470-486 | the old key is dropped through `do_cmode`, then the new one is set; commands in the order sent |
| `ChannelRecord.Channel.TrimSign` | src/chanserv.c:488-489 | a sign that no letter follows is taken back |
| `ChannelRecord.Channel.DropLocked` | src/chanserv.c:491-547 | second half: what is locked off is cleared and written down |
| `ChannelRecord.Channel.Send` | src/chanserv.c:555-570 | the four forms in which the command is sent |
| `ChannelRecord.Channel.CheckModes` | src/chanserv.c:367-577 | the imperative check stores the specified channel, sends the specified commands and keeps the record valid |
| `ChannelRecord.Channel.DoCmode` | src/channels.c:416-728 | the channel ends as the lock laid over what the command asked for, and the commands sent replay to exactly that channel |
| `ModeLock.LastAtIsLast` | src/chanserv.c:2436-2441 | the writer of a mode is the last position that names it with a sign in force; it exists unless no such position does |
| `ModeLock.SpellsFlag` | src/chanserv.c:2448-2592 | a flag read with a sign moves to that side of the lock, for every prefix of the string |
| `ModeLock.SpellsKeptFlag` | src/chanserv.c:2572-2582 | O named by a non-oper is kept as stored |
| `ModeLock.SpellsWord` | src/chanserv.c:2457-2494 | +k and +l take the next word, -k and -l lock off and forget it |
| `ModeLock.Turn` | src/chanserv.c:2436-2597 | one turn of the loop: the complaint of that position, or the lock spelled by one more position |
| `ModeLock.SetMlock` | src/chanserv.c:2418-2604 | stores a lock if and only if the parameter is OFF, or a sign was given and every +k and +l has a fitting word; the lock is last-writer-wins per mode; a rejection names the first fault |
| `ModeLock.SpelledLockIsWellFormed` | src/chanserv.c:2436-2598 | whatever the string, the spelled lock is well formed: nothing on and off at once, no key or limit locked both ways |
| `ModeLock.OnlyOpersAddOperMode` | src/chanserv.c:2559-2583 | a non-oper never brings O into either half of the lock; naming it keeps it where it was |
| `ModeLock.SignAtIs` | src/chanserv.c:2436-2447 | the sign in force at a place is a plus exactly if the nearest sign before it is one, a minus likewise, and none if there is no sign before it |
| `ModeLock.SpelledFlag` | src/chanserv.c:2448-2592 | a flag is locked on if and only if the nearest sign before its last mention in the string is a plus, and off if and only if it is a minus |
| `ModeLock.UnnamedIsOpen` | src/chanserv.c:2436-2597 | a mode the string does not name is locked neither way |
| `ModeLock.SpelledKey` | src/chanserv.c:2457-2477 | the key is the word whose number is that of the places before the last k that take a word, if a plus is in force there, and empty otherwise |
| `ModeLock.SpelledLimit` | src/chanserv.c:2478-2494 | the limit is that word read as a number, likewise |
| `ModeLock.WordIsLimit` | src/chanserv.c:2485-2489 | a decimal word is accepted as a limit if and only if it is above 0, and is stored as that number |
| `ModeLock.FaultIs` | src/chanserv.c:2459-2488 | which complaint a place of the string gives rise to, from the signs, the words and their number |
| `ChannelRecord.Channel.DoSetMlock` | src/chanserv.c:2405-2694 | a stored lock is put into force at once and its commands replay; a rejected parameter changes nothing |
| `ModeSync.CutKeepsAll` | src/chanserv.c:5320-5351 | every mask is in one batch, in the order of the list, and no batch has more than six |
| `ModeSync.CutIsGreedy` | src/chanserv.c:5320-5324 | a batch is sent only when it has six masks or the next mask would not have gone into its text |
| `ModeSync.TextLenIs` | src/chanserv.c:5336-5339 | the length kept is that of the text with its spaces |
| `ModeSync.CutWithinBufferIff` | src/chanserv.c:5320-5339 | every batch text is within its buffer, terminator included, if and only if every mask is and no batch with text in it is filled to the brim |
| `ModeSync.TwoMasksBrim` | src/chanserv.c:5320-5339 | masks of 127 and 128 characters go into one batch whose text takes all 256 characters and leaves no room for the terminator |
| `ModeSync.CutBans` | src/chanserv.c:5320-5351 | the loop cuts the ban list as its guard says: the batches are the specified cut; joined they are the list, none is sent before it has to be, and they are within the text buffer under the exact condition |
| `ModeSync.RunUnban` | src/chanserv.c:5329-5331 | a string of b letters with the first masks takes off exactly the first bans |
| `ModeSync.ReadBatch` | src/chanserv.c:5329-5334 | one batch off and on again moves its bans to the end of the list |
| `ModeSync.ReadBatches` | src/chanserv.c:5320-5351 | all batches in turn rotate the ban list |
| `ModeSync.ReadModeCmds` | src/chanserv.c:5287-5317 | the reset and restore commands bring a reader at any modes, key and limit to those of the channel |
| `ModeSync.SyncReaches` | src/chanserv.c:5287-5351 | all commands of a SYNC bring any reader with the same ban masks to the modes, key and limit of the channel, with the bans in the same order |
| `ModeSync.SyncIsIdentity` | src/chanserv.c:5287-5351 | SYNC read by the parser returns the same modes, key and limit and the same bans in the same order, repeated masks included, set now |
| `ModeSync.DoSync` | src/chanserv.c:5287-5351 | the commands sent are the reset, the restore and the batches of the cut the loop makes, off and on; they are the identity on the channel and none carries more than six bans |
| `SyncUsers.UserCutIs` | src/chanserv.c:5359-5463 | the users of one kind are all in the batches, in order, except the last one when the count ends at 0 |
| `SyncUsers.UserCutLosesIff` | src/chanserv.c:5359-5463 | with nicks of less than 32 characters every user is in one batch if and only if their number is no multiple of six; otherwise exactly the last is in none |
| `SyncUsers.ReadUsers` | src/chanserv.c:5369-5374 | a reader of one command of o or v letters gives or takes exactly the status of its nicks |
| `SyncUsers.ReadUserBatches` | src/chanserv.c:5359-5463 | and of all batches, off and on or off alone, that of all nicks in them |
| `SyncUsers.SyncUsersReach` | src/chanserv.c:5359-5463 | whatever a reader takes for the ops or voices, each user of the list is right afterwards, except the last of a multiple of six, who is left as he was; everybody else stays |
| `SyncUsers.CutUsers` | src/chanserv.c:5359-5463 | the walk over the users makes the specified batches of those with the status and of those without |
| `BanExpiry.ExpiryExact` | src/channels.c:823-849 | removal by mask leaves exactly the recent bans in order, if and only if no recent ban stands before an old one with the same mask |
| `BanExpiry.OrderedIsNeverShadowed` | src/channels.c:807-853 | a ban list in order of time never has such a pair |
| `BanExpiry.RunKeepsOrder` | src/channels.c:582-623 | any MODE string read at a time not before the last ban keeps the bans ordered by time |
| `BanExpiry.ExpiryOverRuns` | src/channels.c:807-853 | in every run of MODE commands and sweeps with a clock that does not go back the bans stay ordered, and a sweep leaves exactly those not older than its threshold |
| `BanExpiry.RecentByAge` | src/channels.c:817-826 | the bans a sweep is to leave are those whose age is at most the ban time in minutes, in 32-bit seconds |
| `BanExpiry.SweepLeavesYoung` | src/channels.c:807-853 | a sweep of bans in order leaves a ban if and only if it is no older than the ban time |
| `BanExpiry.PickOld` | src/channels.c:823-835 | the masks of the old bans in array order |
| `BanExpiry.SweepIsHeard` | src/channels.c:837-849 | the commands of a sweep, with those of the lock checks between them, bring a reader to the channel the sweep ends with |
| `BanExpiry.ExpireBans` | src/channels.c:807-853 | the sweep of one channel through `do_cmode -b`: the channel it ends with, the commands it sends and that they replay; within the allocated size, ops and voices untouched |
| `ChannelMembers.JoinIsSoundIff` | src/channels.c:270-298 | a join keeps the lists duplicate-free and ops and voices within the users if and only if the user was not there |
| `ChannelMembers.JoinIs` | src/channels.c:269-298 | after a join the user is on the channel, opped if he is to be, otherwise with voice if he is to have it; everybody and everything else is as before |
| `ChannelMembers.LeaveIsSound` | src/channels.c:311-360 | a departure takes the user and nobody else off all three lists; when the last user leaves, ops and voices are empty |
| `ChannelMembers.StepIsSoundIff` | src/channels.c:625-720 | a mode letter keeps the lists sound if and only if a +o or +v that takes effect names a user of the channel |
| `ChannelMembers.RunsAreSound` | src/channels.c:237-404 | in every run of joins, departures and MODE commands that fit, the lists stay sound |
| `NodeLists.NodeList.Push` | src/channels.c:271-278 | a new node in front, links in both directions right; the same for users, ops, voices and the channels of a chain |
| `NodeLists.NodeList.Bypass` | src/channels.c:397-402 | the two assignments around a node that goes leave all links right, at the head, in the middle and at the end |
| `NodeLists.NodeList.Unlink` | src/channels.c:397-402 | unlinking a node, of a chain or of a user list, takes that place out of the list and no other |
| `ChannelMembers.RemoveUser` | src/channels.c:319-334 | the first node of the user goes, if there is one |
| `ChannelMembers.MemberLists.AddUser` | src/channels.c:270-298 | the three linked lists after a join stand for the specified lists: the user on the channel, opped or else with voice as he is to be |
| `ChannelMembers.MemberLists.DelUser` | src/channels.c:311-363 | the three linked lists after a departure, and whether the channel is to go |
| `ChannelMembers.MemberLists.ChangeStatus` | src/channels.c:625-720 | +o, -o, +v and -v on the linked lists |
| `ChannelTable.EqualNamesShareChain` | src/channels.c:16 | names equal under `irc_stricmp` have the same hash |
| `ChannelTable.InChainIff` | src/channels.c:164-169 | a name is found on a chain exactly if it is there, and there is one place for it |
| `ChannelTable.Table.ScanAgrees` | src/channels.c:158-173 | a walk over all channels finds a name exactly if the hashed look-up does, and the same record |
| `ChannelTable.Table.FindChan` | src/channels.c:158-173 | returns the record of the name or nothing, whichever the table holds |
| `ChannelTable.Table.AddUser` | src/channels.c:237-299 | the table as a map from names: the named channel gets the user; if absent it is made first, at the modes its lock asks for, with the commands of that check sent; opped or else with voice as he is to be; no other name changes |
| `ChannelTable.Table.DelUser` | src/channels.c:362-404 | the channel loses the user and is unlinked with its last one; no other name changes |
| `ChannelTable.Table.Destroy` | src/channels.c:397-402 | unlinking the node of a channel from its chain makes its name unknown and leaves every other name |
| `AutoLimit.RaisingLeavesRoom` | src/channels.c:961-971 | with raising allowed: users + offset - tolerance <= limit <= users + offset and at least one free slot, for every previous limit, in unsigned arithmetic |
| `AutoLimit.EvaluationKeepsLockIff` | src/channels.c:955-972 | an evaluation leaves the limit as the mode lock wants it if and only if the lock leaves the limit open, or locks it on within the tolerance |
| `AutoLimit.LoweringIff` | src/channels.c:961-971 | with raising forbidden the limit never grows, and ends at most at users + offset if and only if it was at most 2^31 above that |
| `AutoLimit.NewLimitIff` | src/channels.c:955-972 | exactly when the limit moves, and then to users + offset |
| `AutoLimit.LargestLimitStays` | src/channels.c:961-971 | the limit 4294967295 of an empty channel is not lowered |
| `AutoLimit.NewLimitIsHeard` | src/channels.c:970-971 | the +l that is sent is read back as the new limit |
| `AutoLimit.AskedIsSane` | src/chanserv.c:2962-3046 | every accepted setting is off, or has tolerance < offset <= 500 and 1 <= period <= 60 |
| `AutoLimit.WrittenSettingIsStored` | src/chanserv.c:2975-3046 | a sane setting written as offset:tolerance:period is stored unchanged |
| `AutoLimit.AskedWords` | src/chanserv.c:2965-2971 | ON stands for 5:2:2 and OFF for no limit, in any case |
| `AutoLimit.AskedNumbers` | src/chanserv.c:2972-3041 | three typed numbers are stored with offset, tolerance and period cut to their ranges; offset 0 disables |
| `AutoLimit.LimitedChannel.CheckAutolimit` | src/channels.c:940-973 | the evaluation, due exactly when more than ten seconds have passed, the bounds it leaves, and that a +l is sent exactly when the limit changes |
| `AutoLimit.LimitedChannel.MakeSane` | src/chanserv.c:3020-3041 | the corrections clamp the three numbers |
| `AutoLimit.LimitedChannel.SetAutolimit` | src/chanserv.c:2955-3048 | the parameter decides the stored setting and the commands sent, -l on disabling; a syntax error changes nothing; the bounds hold at once |
| `Timeouts.DeletionsDecide` | src/timeout.c:58-81 | which entries run is determined by list, due times and deletions: two passes that agree on these run the same entries |
| `Timeouts.PassRun` | src/timeout.c:67-80 | running a due entry that is still there adds it to those that have run and its deletions to those gone |
| `Timeouts.PassIs` | src/timeout.c:49-84 | entry by entry: run if and only if its time has come and none run before deleted it; still listed if and only if none deleted it and, when run, it repeats |
| `Timeouts.PassOver` | src/timeout.c:59-62 | an entry that is deleted or not due is passed over |
| `Timeouts.TimeoutList.LinksDiffer` | src/timeout.c:94-107 | the links back tell the entries apart, so that none is in the list twice |
| `Timeouts.TimeoutList.AddTimeout` | src/timeout.c:94-107 | the new entry is first, prev and next right |
| `Timeouts.TimeoutList.Unlink` | src/timeout.c:72-80 | the entry goes, the others keep their order, prev and next right |
| `Timeouts.TimeoutList.DelTimeout` | src/timeout.c:113-130 | removes the entry if it is in the list |
| `Timeouts.TimeoutList.RunCode` | src/timeout.c:67 | an action: any additions, and deletions of entries other than the running one; it is recorded with what it deleted and added |
| `Timeouts.TimeoutList.RunEntry` | src/timeout.c:67-80 | the action of the entry is run and recorded; after it, and the removal of an entry that does not repeat, the walk goes on at the next entry that was there and is left |
| `Timeouts.TimeoutList.CheckTimeouts` | src/timeout.c:49-84 | the actions recorded in this pass are of exactly the due entries present at the start and not deleted before their turn, once each in list order; the list is what they added and left, all new, in front of the survivors in order |
| `Wildcards.DoMatchWild` | src/misc.c:225-266 | terminates and decides acceptance as specified, recursion at "*" included |
| `Wildcards.AcceptsOnlyMatches` | mysql/blitzed_udf.c:92-167 | only strings the pattern means are accepted, for every pattern |
| `Wildcards.AcceptsAllMatches` | src/misc.c:246-258 | all of them are accepted when no "*" is followed by "?"s and then the end or an ordinary character |
| `Wildcards.CompleteIffNoGap` | src/misc.c:225-266 | the matcher is complete for a pattern if and only if it has no such gap |
| `Wildcards.StarQuestionRejects` | src/misc.c:246-258 | "*?" rejects "ab" |
| `Wildcards.NoCaseIsFolded` | src/misc.c:251-261 | matching without case is matching the lower-case strings with case |
| `NumLists.MarkItems` | src/misc.c:302-351 | every listed number within the bounds is flagged and no other; every index is below 65537 |
| `NumLists.CallMarked` | src/misc.c:353-372 | the flagged numbers are called in ascending order up to the first negative result; sum and count match the calls |
| `NumLists.ProcessNumlist` | src/misc.c:294-379 | the callback is called on exactly the union of the listed ranges within the bounds, each number once, ascending, until the first negative result; sum and count match |
| `NumLists.BuildQuery` | src/mysql.c:394-483 | the clauses select exactly the ranges with both ends lowered to the maximum |
| `NumLists.EvaluatorsCompare` | src/mysql.c:427-477 | with numbers read alike, the query selects from `min` up what the list selects and, when an entry lies beyond the maximum, the row `max` besides |
| `NumLists.ListsAgreeIff` | src/mysql.c:427-477 | so on such a list the two agree if and only if no entry lies beyond the maximum or the maximum is listed anyway |
| `NumLists.AgreeIffAtTurns` | src/mysql.c:394-483 | on any list, whatever its numbers, the two agree on all indices from `min` up if and only if they agree at `min` and at the four turning points of each entry |
| `NumLists.OneItemAgrees` | src/mysql.c:427-477 | one entry, whatever its numbers: the two agree on it if and only if they arrive at the same two ends or both at nothing |
| `NumLists.AlikeItemAgrees` | src/mysql.c:427-477 | one entry with numbers read alike: they agree if and only if it does not begin beyond the maximum and reach it |
| `NumLists.ReadAlikeIff` | src/mysql.c:400 | `strtol` and `strtoul` give the same 32 bits exactly for the numerals described, of either sign and any size |
| `NumLists.LargeEndIsReadApart` | src/mysql.c:422 | a written range whose end fits an unsigned long but no signed one: the list takes indices that the query does not, although the range begins within the maximum |
| `NumLists.SixIsLost` | src/mysql.c:422 | "1-9223372036854775813" with maximum 10: the list takes 6, the query does not |
| `NumLists.ItemsOfRender` | src/misc.c:316-351 | a list as it is written is scanned back entry by entry |
| `NumLists.WrittenListDenotes` | src/misc.c:283-292 | a written list selects the union of its numbers and ranges within the bounds |
| `NickRemoval.DropTwice` | src/chanserv.c:5762-5829 | deleting channels one after the other is deleting them together |
| `NickRemoval.HandOverIs` | src/chanserv.c:1160-1202 | the first loop deletes the channels before the first successor with room, transfers that one and stops |
| `NickRemoval.FirstHeirIs` | src/chanserv.c:1164-1192 | the first heir is where the limit test fails for the first time, with the earlier channels gone |
| `NickRemoval.LimitCheckIs` | src/chanserv.c:1378-1403 | the three answers of the limit check: the channels of the master and all nicks linked to it are below, at or above a positive channelmax, or 65535 |
| `NickRemoval.RefusedIffOver` | src/chanserv.c:1160-1189 | a successor is refused a channel if and only if taking it over would bring him over his limit; one linked to the founder, whose count does not change, already at the limit |
| `NickRemoval.OnlyChannel` | src/chanserv.c:1135-1215 | the only channel of a nick goes to its successor if he has room, and is forgotten otherwise |
| `NickRemoval.OtherRowsStay` | src/chanserv.c:1135-1240 | levels, suspensions, memos and autojoins lose the rows of the channels that go, and no others |
| `NickRemoval.EveryChannelSettled` | src/chanserv.c:1134-1242 | what becomes of every channel: kept, transferred with successor 0, left with its founder, or forgotten with all its rows |
| `NickRemoval.NickIsForgotten` | src/chanserv.c:1230-1241 | no channel has the nick as successor and no access or autokick row names it; other rows stay unless their channel went |
| `NickRemoval.FounderGoneIff` | src/chanserv.c:1160-1228 | no channel keeps the dropped nick as founder if and only if at most the last listed channel has a successor with room |
| `NickRemoval.SecondChannelStays` | src/chanserv.c:1184-1189 | two channels whose successor has room: the second keeps the founder that is gone |
| `NickRemoval.TransferKeepsLimit` | src/chanserv.c:1381-1405 | a transfer never lifts a link group above the larger of its limit and what it had |
| `NickRemoval.LimitsHold` | src/chanserv.c:1381-1509 | the same for the whole removal and every master nick |
| `NickRemoval.Registry.DelChan` | src/chanserv.c:5762-5838 | the queries one by one leave no row of the channel in any table |
| `NickRemoval.Registry.HandOverChannels` | src/chanserv.c:1160-1202 | the loop whose row count is overwritten by the UPDATE inside it |
| `NickRemoval.Registry.CsRemoveNick` | src/chanserv.c:1134-1242 | the whole removal, for some order of the selected rows |
| `NickLinks.GetLinkIsIdempotent` | src/nickserv.c:679-696 | with one-level links one look-up reaches the master |
| `NickLinks.LinkKeepsOneLevelIff` | src/nickserv.c:2562-2656 | an accepted LINK keeps links one level deep if and only if no nick links to the one being linked |
| `NickLinks.CurrentLinkIsSafe` | src/nickserv.c:2562-2656 | that is so when the effective nick is the one the user sits on or its present master |
| `NickLinks.LinkIff` | src/nickserv.c:2562-2656 | exactly when a LINK is accepted, and the one row it changes |
| `NickLinks.DelNickIs` | src/nickserv.c:862-886 | the dropped nick goes, every other stays, with only its link to it cleared |
| `NickLinks.DelinkIs` | src/nickserv.c:889-962 | an unlinked nick is a master; no other row changes |
| `NickLinks.StaleNickBreaksOneLevel` | src/nickserv.c:2562-2742 | a run of registrations, a LINK, an UNLINK by someone else and another LINK leaves a user with a stale effective nick, and his LINK makes links two levels deep |
| `NickLinks.StepKeepsOneLevel` | src/nickserv.c:862-926 | LINK, UNLINK, drop, forbid and register keep links one level deep |
| `NickLinks.RunsKeepOneLevel` | src/nickserv.c:3795-3828 | and so does every run of them |
| `NickLinks.UnlinkUndoesLink` | src/nickserv.c:889-962 | UNLINK after LINK restores the nick up to what it takes over from the master |
| `NickLinks.NickTable.DoLink` | src/nickserv.c:2562-2656 | the checks in their order, the reply and the new table |
| `NickLinks.NickTable.DoDelink` | src/nickserv.c:889-962 | the queries one by one give the specified row |
| `NickLinks.NickTable.DoDelNick` | src/nickserv.c:862-886 | links to the nick are cleared before its row goes |
| `AccessList.NoOverreach` | src/cs_access.c:182-366 | nobody inserts, changes or deletes an entry at or above his own level, by what it was or by what it becomes |
| `AccessList.HighestNeverRises` | src/cs_access.c:204-249 | unless the founder acts the highest level (floor 0) does not rise |
| `AccessList.AddIff` | src/cs_access.c:182-253 | ACCESS ADD puts the nick at the level if and only if command, level, nick, old entry and room allow it, each condition given; otherwise nothing changes |
| `AccessList.XopIff` | src/cs_access.c:596-942 | VOP, AOP and SOP put the nick at the level of autovoice, autoop and autokick management, if and only if that is positive, below the actor and all else allows it |
| `AccessList.DelNickIff` | src/cs_access.c:311-365 | ACCESS DEL of a nick takes its entry out if and only if it is below the actor |
| `AccessList.DelListIff` | src/cs_access.c:44-106 | ACCESS DEL of numbers takes out an entry if and only if it is named, below the actor and, when negative, he is above autokick management |
| `AccessList.CountStaysBelow` | src/cs_access.c:243-249 | the number of entries stays within the maximum |
| `AccessList.CallsNameAll` | src/cs_access.c:282-287 | the numbers `process_numlist` calls the callback for are exactly the entries the text names |
| `AccessList.StepKeepsSound` | src/cs_access.c:596-942 | after each command levels are in range, the count within its limit and the numbers 1..n in descending order of level |
| `AccessList.RunsAreSafe` | src/cs_access.c:596-942 | the same over every run of ACCESS, VOP, AOP and SOP commands, and without the founder no level exceeds the first highest one |
| `AccessList.ChannelAccess.SortChanAccess` | src/cs_access.c:1056-1082 | numbers the entries 1..n by descending level and leaves the levels alone |
| `AccessList.ChannelAccess.AccessDelCallback` | src/cs_access.c:44-106 | deletes the numbered entry if there is one and its level allows it |
| `AccessList.ChannelAccess.DelNumbers` | src/cs_access.c:282-310 | the numbered deletion takes out exactly the deletable entries named |
| `AccessList.ChannelAccess.DelNickEntry` | src/cs_access.c:311-365 | ACCESS DEL of a nick |
| `AccessList.ChannelAccess.AddEntry` | src/cs_access.c:182-253 | ACCESS ADD, with its order of refusals |
| `AccessList.ChannelAccess.XopEntry` | src/cs_access.c:596-942 | VOP, AOP and SOP insert or change at their level |
| `AccessList.ChannelAccess.Do` | src/cs_access.c:108-180 | one command, permission checks included, is one step of the run |
| `NickCache.InsertAscending` | src/cache.c:120-129 | inserting before the first larger nick keeps a chain ascending and adds just that nick |
| `NickCache.LinkedAfter` | src/cache.c:128-129 | the two assignments link the new node in; the last node still points at the head |
| `NickCache.Chain.Find` | src/cache.c:155-196 | the early exit is exact: nothing is returned if and only if the nick is not on the chain |
| `NickCache.Chain.Insert` | src/cache.c:79-137 | the chain stays sorted and circular and stands for the map with the nick added |
| `NickCache.Chain.Set` | src/cache.c:345-357 | overwriting a found node changes just that nick of the map |
| `NickCache.Chain.DelAsWritten` | src/cache.c:199-219 | the removal as it is written keeps the node of the nick, frees the one before it while it is still linked, and takes the next one off the chain, or closes the circle past the head |
| `NickCache.Cache.constructor` | src/cache.c:50-59 | all chains empty, each with a head that points at itself |
| `NickCache.Cache.Load` | src/cache.c:79-137 | an uncached nick is loaded from its row, if it has one |
| `NickCache.Cache.GetNickStatus` | src/cache.c:311-338 | returns the status in the table for every registered nick, cached, stale or not cached, and leaves the cache in step; an entry younger than an hour stays as it is, an older one is fetched afresh; for other nicks the cached status, or 0 once it is too old |
| `NickCache.Cache.ChangeStatus` | src/cache.c:341-398 | set, add and remove status on the cached entry or on one loaded first |
| `NickCache.Cache.StoredTwice` | src/cache.c:361-398 | a bit operation made to the row and again to an entry loaded from that row has the effect of one |
| `NickCache.Cache.JoinSets` | src/cache.c:375 | added bits are set |
| `NickCache.Cache.JoinKeeps` | src/cache.c:375 | and no other bit changes |
| `NickCache.Cache.ClearClears` | src/cache.c:395 | removed bits are clear |
| `NickCache.Cache.ClearKeeps` | src/cache.c:395 | and no other bit changes |
| `NickCache.Cache.ChangeNickStatus` | src/nickserv.c:3982-4050 | after the wrappers the cache agrees with the table again, whatever was cached |
| `NickCache.Cache.InsertNewNick` | src/nickserv.c:4078-4102 | a new row and the cache agree |
| `Dlink.LinkedInserted` | include/tools.h:115-158 | the links around an inserted node make a well-linked list of the longer sequence |
| `Dlink.LinkedWithout` | include/tools.h:163-180 | the links around a removed node make a well-linked list of the shorter one |
| `Dlink.LinkedJoined` | include/tools.h:220-233 | two lists bridged end to end are one well-linked list |
| `Dlink.DlinkList.Add` | include/tools.h:115-127 | prepends, with head, tail, links and length right |
| `Dlink.DlinkList.AddBefore` | include/tools.h:129-143 | inserts before the given node |
| `Dlink.DlinkList.AddTail` | include/tools.h:145-158 | appends |
| `Dlink.DlinkList.Delete` | include/tools.h:163-180 | removes the node and clears its links |
| `Dlink.DlinkList.Find` | include/tools.h:189-199 | the first node with the data, or nothing if there is none |
| `Dlink.DlinkList.MoveTo` | include/tools.h:201-233 | the elements go in front of the other list and this one is empty |
| `FloodServ.AgainIsRecorded` | src/floodserv.c:99-100 | a repeat is counted and its host listed once |
| `FloodServ.PunishIsJust` | src/floodserv.c:101-122 | what is done about a repeated text is just; within the first window either the one warning is given or everyone who said it is akilled |
| `FloodServ.PunishIff` | src/floodserv.c:101-122 | exactly when a repeated text brings a warning, an akill of everyone who said it, in the first or in the second window, or nothing |
| `FloodServ.StripIs` | src/floodserv.c:269-286 | a text keeps exactly its printable characters other than the blank, in order |
| `FloodServ.KillIsJust` | src/floodserv.c:135-175 | each akill is of a host that said the text, often enough, in a live window, for the first time for this entry, and after a warning if one comes first |
| `FloodServ.LiveIsSound` | src/floodserv.c:238-264 | expiry takes out exactly the entries past their window, which is the longer one after a warning |
| `FloodServ.HearIsSound` | src/floodserv.c:60-128 | a message keeps one entry per channel and text, all as recorded, in a record of just events |
| `FloodServ.HearAnew` | src/floodserv.c:126-128 | a text said anew gets one entry from now with its one sayer, beside all that have not expired |
| `FloodServ.HearAgain` | src/floodserv.c:88-100 | a repeat counts one more for the entry of the text, with its first time and its sayer among its hosts; other live entries stay |
| `FloodServ.HearActs` | src/floodserv.c:101-124 | what a repeat brings about in the record: warning, akill of all sayers, or nothing, with the exact conditions |
| `FloodServ.HearElsewhere` | src/floodserv.c:70-86 | a message from an oper or an unknown sender does nothing, one on an unprotected channel lets entries expire |
| `FloodServ.RunsAreJust` | src/floodserv.c:60-128 | and so does every run of messages, settings changing in between |
| `FloodServ.EveryRunIsJust` | src/floodserv.c:41 | in particular every run from the empty list the program starts with |
| `FloodServ.FloodList.ExpireFloodtxt` | src/floodserv.c:238-264 | the walk over the linked list, which deletes nodes as it goes, leaves exactly the live entries in order |
| `FloodServ.FloodList.AddFloodtxtUser` | src/floodserv.c:209-232 | the host is added unless it is listed |
| `FloodServ.FloodList.FsAddAkill` | src/floodserv.c:135-175 | every host not yet akilled is, in list order |
| `FloodServ.FloodList.FindText` | src/floodserv.c:88-96 | the walk finds the first entry of the channel and text, or none |
| `FloodServ.FloodList.Repeated` | src/floodserv.c:96-124 | a repeated text: its user is added, the repeat counted, and it is acted on as specified |
| `FloodServ.FloodList.PrivmsgFlood` | src/floodserv.c:60-128 | the whole handling of a message on the linked list is the specified step |

## Left out

- Sockets, replies and notices, logging, language files, mail, configuration: input and output only.
- The counters of bouncing modes in `check_modes` and `do_cmode`: they only decide what is logged, the flag they were meant for is never set.
- Splitting a message line into words: a MODE command is its letters and its parameters.
- A user's nick as identity: users are known by their nick in lower case, so a change of nick is not modelled; nicks are taken to be unique.
- ChannelRecord.Channel: its op and voice lists are sequences; `ChannelMembers.MemberLists` shows that the linked lists behave as such.
- ChannelRecord.Channel.ListMode: the "-o" that `check_valid_op` sends when it refuses an op (src/chanserv.c:600, 608, 614) is not in the record of commands sent; that record holds those of `check_modes` and of the ban sweep.
- ChannelTable.Table: topic, FloodServ's own join, the registration look-up and the cut of a long channel name are not part of it; what a record holds is a value, whose lists are linked in `ChannelMembers`; the evaluation of the limit at a departure is in `AutoLimit`.
- FloodServ.FloodList: the texts are on a linked list, the hosts of one text are a sequence. The repeat count is unbounded; kills, notices and the look-up of users by host are not modelled, and a warning or akill is an entry in the record.
- FloodServ.Flooder: the nick is not cut to its maximum length.
- ModeSync.DoSync: modes, key, limit and bans; ops and voices are in `SyncUsers`.
- SyncUsers.CutUsers: one status at a time; in the program one walk serves ops and voices, so that the commands of the four kinds come mixed, and no two of them name the same user for the same status.
- ModeSync.CutBans: what a text past its buffer overwrites is not modelled; the batches are then those of unlimited text.
- AutoLimit.LimitedChannel: its limit is its own; how the evaluation meets the lock of a channel is stated on the channel's value by `AutoLimit.EvaluationKeepsLockIff`.
- ModeLock.SetMlock: the escaping of the key for the database, and its way back, are the identity.
- Timeouts.TimeoutList.RunCode: actions add and delete entries but do not change the fields of an entry, and an address is not used again after it was freed.
- NumLists.ProcessNumlist: the callback's result is a function of the number, and the returned sum does not overflow 32 bits.
- NumLists.BuildQuery: the conditions are values, not their SQL text.
- AccessList.ChannelAccess.Highest: which of several entries of one level is numbered first is left open.
- NickRemoval.Registry.DelChan: the renumbering of autojoins is not modelled.
- NickRemoval.Registry.CsRemoveNick: identifiers are not limited to 32 bits, and nothing else writes to the tables meanwhile.
- NickCache.Chain.Remove: the removal as it is meant; `NickCache.Chain.DelAsWritten` is the one in the code, up to its `free`.
- NickCache.Cache.GetNickStatus: an old entry of a nick that is no longer registered is removed as is meant. The code goes on with a chain that holds a freed node, which has no further meaning to model.
- NickCache: the branch of `cancel_user` that writes a guest status past the wrappers, and the reading side of the cached language, are not modelled.
- Dlink.DlinkList.Add: the new node must come without a back link, as all callers make it; the function itself does not clear it.
- The second timeout list of NickServ, whose insertion never sets the old head's back link.
- `do_set_founder`, `do_set_successor`, news, quarantines, session limits, HelpServ, memos: thin wrappers or tables without rules that interact.
- `strnrepl`, `stristr`, `remove_mlock_off` and the early exit of `firstchan` and `nextchan`: they do not meet their comments and nothing here needs them.
- The case equivalence of brackets and braces in section 2.2 of RFC 1459: the program compares with its own `tolower`, and so does the model (`CText.SameNameIff`).
- A 64-bit `long` and signed characters are assumed.
- MySQL itself, `SHA1()`, passwords, memory freeing, signals and restart.
