# A verified model of the RomM streaming broker

The broker runs one play session per container: it lays a player's saves down before a game
starts and captures them when it ends, seats viewers in a room around the game, and relays
their audio, video and chat to each other. This project models the parts of it that lean on
an invariant no line of the code checks, and proves those invariants.

- **The outbound queue of one recipient** (`Outbox*.dfy`). `OutboxLane` keeps the whole
  history of a media lane: what was enqueued, and the fate of each frame. `OutboxQueue` is
  ageing, byte eviction and the gap set; `OutboxDrain` is the drain task as a machine that
  moves from await to await; `OutboxClass` is the object itself, updated in place. However
  frames age out or are evicted, the video a recipient is handed stays decodable, no wake-up
  is lost, and a `True` from `flush` is honest.
- **Restoring and dumping saves** (`Paths`, `Tree`, `Conflicts`, `V1Plan`, `Manifest`,
  `Preflight`, `Restore`, `RestoreSafety`, `Activate`, `ZipTime`, `Dump`, `RoundTrip`).
  Paths are sequences of components, the save tree is a map from path to bytes and mtime, an
  archive is a sequence of entries. Everything is decided before the working slot is cleared,
  and the decision implies that the writes cannot collide afterwards. The dictionary-based
  conflict check equals the pairwise one, a dump restores to itself, and the dump's report is
  honest about every pattern of failures.
- **The room** (`Seats`, `Admission`, `RoomRuns`, `RoomChanges`, `RoomClass`). Runs of activate, join,
  reclaim, connect, replace, assign, disconnect and end keep one holder per gamepad, one
  holder of mouse and keyboard, a speaker who is there, and the seat cap.
- **The browser's media machinery** (`Jitter`, `JitterClass`, `Credit`, `CreditClass`,
  `Capture`). The audio worklet plays whole packets in order, sample for sample; the page and
  the media worker never lose a credit or a frame.
- **Cards and settings** (`CardSwap`, `CardCapture`, `CardPlan`, `Ini`, `IniPatch`). A card is
  swapped whole or not at all whatever step fails, DuckStation's plan check and the shared one
  split their work without gap or overlap, and the settings rewrite changes only what it was
  asked to change.

Where the broker updates state in place the model does too: the classes `Outbox`, `PlayRoom`,
`AudioPlayer`, `VideoSink` and `MemcardDir` hold the fields the source holds, and each method's
contract equates the new state with a function of the old one. The properties are then proved
about those functions, over every input and every run.

## Where the code does not do what one would like

What fails is shown by a concrete input wherever the wish is a plain statement, and what holds
instead is proved for all inputs, with its exact condition.

- A dump restored over the very file it came from is skipped by the newer-file guard in three
  cases and no other: the stored time lies ahead of the restoring clock, the file is stamped past
  2107, or its time is one `gmtime` refuses and lies past 1980 by more than the guard's slack, so
  that its dump says 1980 (`ZipTime.UnchangedFileRestored`; a file of each kind in `ZipTime.FutureFileIsSkipped`,
  `ZipTime.LateFileIsSkipped`, `ZipTime.RefusedFileIsSkipped`). That is for clocks from 1980 on;
  the lemma has the condition for any clock.
- A dump report can show neither an error nor an archive although a declared file was left
  out: exactly when nothing that could be stat'ed had changed, something could be stat'ed, and
  some declared file could not; that file is then listed as skipped
  (`Dump.DeclaredFileCanBeLost`, `Dump.DeclaredLeftOut`).
- Between the worker giving a video sink up and the page hearing of it, presents are discarded
  without an ack, so the page's count exceeds what is on its way
  (`Credit.CountCanOutrunChannels`, `Credit.CreditIsExact`).
- `handle_assign_slot` stops at the first previous holder. That is enough if and only if there
  is at most one (`Seats.FirstHolderIsEnough`, `Seats.TwoHoldersBreakIt`), which every run
  keeps true.
- A public id resolves back to its own seat if and only if no earlier member carries the same
  one; the broker does not check that its random ids differ, and with two equal ones it names the
  wrong seat (`Seats.ResolveInverts`, `Seats.EqualIdsMislead`).
- `memcard.replace` has one end that is neither the new image nor what was there: an old backup
  card appears in an empty slot. A refused push into an empty slot ends so exactly when the image
  was acceptable, so that staging or swapping is what failed, the first clean-up had left the old
  backup lying, and the rename that restores it succeeds (`CardSwap.MemcardDir.Replace`). Before
  anything is touched only the heads of the members are read, and only for a placement hook, so a
  member damaged further in is enough (`CardSwap.StrandedBackupReturns`,
  `CardSwap.DamagedBodyStrands`).
- `memcard.replace` does not handle every error that reading a damaged member can raise. It then
  raises itself, exactly when the first head that cannot be read, or the first member that cannot
  be staged, fails that way; nothing is rolled back, and the card is as it was
  (`CardSwap.MemcardDir.Replace`, `CardSwap.RaisedReadRollsNothingBack`).
- `build_archive` raises instead of answering exactly when the first file it cannot zip carries a
  time no zip can hold (`CardCapture.BuildArchive`, `CardCapture.UndatedFileRaises`).

## Model

| member | source | states |
|---|---|---|
| OutboxFrames.StampedFrame | webstation_broker/outbox.py:342-363 | of a frame stamped with its sender the outbox reads the sender, whether it is video, audio or a video config, and whether it is a keyframe, from the bytes the clients put there |
| OutboxLane.SettleVideo | webstation_broker/outbox.py:230-300 | handing out or dropping one queued video frame keeps the lane's history in order, every handed delta decodable, every drop justified, and the gap set equal to the senders whose last settled frame was lost |
| OutboxLane.DecodableRun | webstation_broker/outbox.py:270-300 | a handed-out frame ends an unbroken handed-out run of its sender's frames that starts at a keyframe or at the sender's first frame |
| OutboxQueue.PushMediaInv | webstation_broker/outbox.py:139-152 | queueing a frame keeps the byte count exact and the history in order |
| OutboxQueue.EvictDownInv | webstation_broker/outbox.py:248-268 | evicting down to the budget keeps every rule of the queue and only extends its history |
| OutboxQueue.EvictDownBound | webstation_broker/outbox.py:139-152 | after eviction the backlog fits or only video configs remain, audio went only once no droppable video was queued, and a backlog that fitted is untouched |
| OutboxQueue.EvictDownNeeded | webstation_broker/outbox.py:139-152 | eviction stops as soon as it can: put the frame evicted last, which was queued before, back and the backlog would be over the budget |
| OutboxQueue.NextMediaInv | webstation_broker/outbox.py:270-300 | taking the next frame keeps every rule of the queue and only extends its history |
| OutboxQueue.NextMediaHands | webstation_broker/outbox.py:270-300 | exactly the returned frame is handed out, audio before video, and nothing is returned only when both lanes are empty |
| OutboxQueue.Accounted | webstation_broker/outbox.py:120-152 | until a close every frame was handed out, dropped or is queued, and no config was ever dropped |
| OutboxDrain.StepGood | webstation_broker/outbox.py:302-339 | every step between two awaits keeps queue and events consistent, and a closed outbox hands out nothing more |
| OutboxDrain.RunDecodable | webstation_broker/outbox.py:230-300 | over every run, whatever ages out or is evicted, each handed-out video frame has an unbroken chain back to a keyframe or the sender's first frame |
| OutboxDrain.RunWakes | webstation_broker/outbox.py:204-209 | no lost wake-up: while the outbox is open and anything is queued, the drain is sending, or has its wake event set |
| OutboxDrain.FlushHonest | webstation_broker/outbox.py:154-168 | if the idle event was seen after a flush began and the outbox is still open, every JSON message queued by then was handed over (sent, or discarded because the socket was gone) and every media frame handed over or dropped by the rules |
| OutboxDrain.SendMediaBounded | webstation_broker/outbox.py:139-152 | after `send_media` the bytes fit the budget or only configs are left; audio was evicted only with no droppable video queued |
| OutboxDrain.SendJsonQueues | webstation_broker/outbox.py:120-137 | a JSON message goes to the back of its queue and the drain is woken; at a full backlog the recipient is shut and abandoned; a closed outbox takes nothing |
| OutboxDrain.SendMediaQueues | webstation_broker/outbox.py:139-152 | a frame enters the lane of its kind and no other, whatever is evicted for it, and one that fits the budget costs no other frame its place |
| OutboxDrain.ClosingDiscards | webstation_broker/outbox.py:170-219 | shutting and closing throw the backlog away and hand nothing more over; what was handed over or dropped stays so, and only a shut abandons the recipient |
| OutboxDrain.ResumeSends | webstation_broker/outbox.py:302-339 | on a connected socket the drain goes on to send the oldest JSON message; with none queued, the media frame it hands out; it waits only when neither is left |
| OutboxDrain.ResumeDiscards | webstation_broker/outbox.py:302-339 | on a socket that is gone nothing is ever sent: the drain empties every lane and waits |
| OutboxDrain.ResumeOtherwise | webstation_broker/outbox.py:302-339 | a send that stalls shuts the outbox; a drain not started, or gone, stays as it is |
| OutboxDrain.RunSendsInOrder | webstation_broker/outbox.py:302-339 | over every run, what the socket is busy with is the entry taken last, JSON is taken in the order it was queued, and audio leaves its lane oldest first |
| OutboxClass.Outbox.DropVideo | webstation_broker/outbox.py:230-246 | the object's drop counts the frame, puts its sender in the gap set, and asks the sender for a keyframe on every drop |
| OutboxClass.Outbox.EvictOldest | webstation_broker/outbox.py:248-268 | the object evicts the oldest droppable video frame, else the oldest audio, else reports that nothing can go |
| OutboxClass.Outbox.NextMedia | webstation_broker/outbox.py:270-300 | the object's loops hand out what the queue's rules say, with the same drops and gap changes |
| OutboxClass.Outbox.SendJson | webstation_broker/outbox.py:120-137 | the object queues the message first in first out, or shuts a recipient whose JSON backlog is full |
| OutboxClass.Outbox.SendMedia | webstation_broker/outbox.py:139-152 | the object queues the frame, evicts until the backlog fits, and wakes the drain; a closed one does nothing |
| OutboxClass.Outbox.Shut | webstation_broker/outbox.py:211-219 | giving up on a recipient empties every lane, sets abandoned and idle, and ends the drain |
| OutboxClass.Outbox.AClose | webstation_broker/outbox.py:170-202 | closing empties every lane and ends the drain |
| OutboxClass.Outbox.RunDrain | webstation_broker/outbox.py:302-339 | the drain's loops, run from one await to the next, move the object exactly as the machine steps |
| Paths.PartsOfJoin | webstation_broker/saves.py:595-626 | a path of plain components survives being written as an archive name and read back |
| Paths.PartsConcat | webstation_broker/saves.py:595-626 | the components of a name are those before any slash of it and then those behind; a text without one is its own component, unless empty or a dot |
| Paths.BelowIsPrefix | webstation_broker/saves.py:595-626 | one path lies strictly below another exactly when its text starts with the other's and a slash |
| Paths.PrefixesOfKey | webstation_broker/imports.py:1423-1429 | joining the first components of a key gives exactly the texts before its slashes |
| Tree.WritesSucceed | webstation_broker/saves.py:1142-1197 | writes whose paths are pairwise apart and free in the tree all succeed, and add exactly their files |
| Tree.NewerFileKept | webstation_broker/saves.py:1177-1178 | a file more than the slack newer than its guarded member is left exactly as it was, any other is replaced |
| Tree.DirectoryKept | webstation_broker/saves.py:1177-1197 | a directory standing in a file's place stays, with everything else: the write is skipped when the guard finds the directory newer, and fails otherwise |
| Tree.NewFileWritten | webstation_broker/saves.py:1142-1197 | where nothing stands yet a file is written, with exactly the directories above it, if and only if its bytes can be read and no file stands for one of these |
| Conflicts.SharesStep | webstation_broker/imports.py:1419-1422 | remembering only the first owner of each key still finds every pair of entries with one key |
| Conflicts.FoundIsComplete | webstation_broker/imports.py:1423-1429 | looking up only the paths above each entry finds every file and directory crossing, once members that share a file are refused |
| Conflicts.DestinationConflicts | webstation_broker/imports.py:1378-1429 | a member is named if and only if it is an import that shares a key with another member or is a strict prefix or extension of any entry; the detail says which |
| Conflicts.AsPosixMeans | webstation_broker/imports.py:1400-1405 | a name written out again keeps what it starts with: no slash, exactly two, or else one |
| Manifest.ParseManifestV2 | webstation_broker/imports.py:514-590 | a path is accepted if and only if it is declared once, well formed and present, with exactly the entry its declaration describes; every other import name is refused by name, once, or the archive is refused as a whole; nothing is refused exactly for a clean manifest |
| Manifest.UsableMeans | webstation_broker/imports.py:528-543 | a manifest is usable if and only if it was read without an error and is an object of version 2 with a list of files |
| Manifest.FlawlessMeans | webstation_broker/imports.py:566-585 | a declaration can be used if and only if it names a known kind, its path lies under that kind's own directory, and the archive holds it |
| Manifest.WellDeclaredMeans | webstation_broker/imports.py:548-590 | a path is accepted if and only if the archive holds it and one sound entry, and no other entry at all, declares it |
| Manifest.EntryOfMeans | webstation_broker/imports.py:578-585 | an accepted entry keeps its path, its kind, and its origin if that is a known one |
| Preflight.SpecFor | webstation_broker/imports.py:742-770 | the kind found is the one asked for, and none is found only when none matches |
| Preflight.GateMeans | webstation_broker/imports.py:742-770 | a kind is let through if and only if the emulator takes it and, where it wants a resume slot, the launch has one; each refusal has its own exact condition |
| Preflight.AnswerMeans | webstation_broker/imports.py:1728-1779 | a member is placed if and only if its name is sound, its kind is let through and the emulator takes it, and then where the emulator says; the first that says no gives the reason |
| Preflight.ConflictRefusals | webstation_broker/imports.py:1518-1523 | exactly the clashing members are refused as destination conflicts, each once |
| Preflight.CountRefusals | webstation_broker/imports.py:1525-1550 | exactly the members of an over-full kind that no clash refused already are refused |
| Preflight.OverLimitMeans | webstation_broker/imports.py:1525-1550 | a kind is over its limit exactly when the members that count toward it, companions left out, and the archive's own of that kind are together more than it allows |
| Preflight.KindIsDeclared | webstation_broker/imports.py:1525-1550 | the kind a member counts toward by its path is the kind its manifest entry declares |
| Preflight.BytesAddUp | webstation_broker/imports.py:1573-1575 | the size a plan is held to is that of the archive's own members and, for each placement wherever it stands, its member's declared size and every byte of its sidecars |
| Preflight.EntriesMean | webstation_broker/imports.py:1574-1575 | the entries a plan is held to are the archive's own members and exactly the files the plan writes |
| Preflight.UnitRefusals | webstation_broker/imports.py:1585-1604 | exactly the members of an incomplete unit are refused, by the emulator's own rule on what a unit must hold |
| Preflight.NeededIsPlaced | webstation_broker/imports.py:1585-1604 | in a plan of whole units every file a unit needs is placed right beside each of its members |
| Preflight.TreeRefusalNone | webstation_broker/imports.py:1432-1480 | a placement no tree rule refuses has each of its files below a save subtree and outside the excluded ones |
| Preflight.TreeMeans | webstation_broker/imports.py:1432-1480 | a placement is refused by the tree's rules if and only if one of its files may not land where it would, told from the text of its path |
| Preflight.CheckPlan | webstation_broker/imports.py:1496-1612 | nothing is refused if and only if no destination clashes, no kind is over-full, every file keeps the tree's rules, every unit is complete, sizes fit and the emulator's own check is content |
| Preflight.PlaceMembers | webstation_broker/imports.py:1728-1779 | every member is placed or refused on its own account: the refusals are exactly those of names that come twice and of answers that refuse, the placements exactly those of the others, in zip order |
| Preflight.Preflight | webstation_broker/imports.py:1685-1785 | placements are made only when nothing is refused, and then match the archive's import members one for one; nothing is refused if and only if no v1 problem came along and every import is declared once, well formed, placed by its hook and part of a plan that passes the check |
| Preflight.AcceptedIsApproved | webstation_broker/imports.py:1378-1480 | with hooks that keep their files apart, accepted placements lie in the subtrees the plan restores, excluded ones left out, without a clash among themselves or with the archive |
| V1Plan.LongestSubtree | webstation_broker/saves.py:748-759 | the longest subtree a member sits strictly inside, none exactly when it is inside none |
| V1Plan.Survey | webstation_broker/saves.py:1027-1031 | the repeated paths and needed directories collected in one pass are exactly those of the pairwise definitions |
| V1Plan.SecondPass | webstation_broker/saves.py:1027-1094 | the names kept and the problems listed, each repeated path and locked directory reported on its first member only |
| V1Plan.PlanV1 | webstation_broker/saves.py:946-1094 | the plan keeps exactly the members fit to write, in zip order, and lists every problem truthfully and in zip order; there is no problem if and only if every member is either unopposed or under an excluded subtree, and the excluded count is the number of the latter |
| V1Plan.AloneMeans | webstation_broker/saves.py:946-1025 | a member on its own is kept if and only if nothing is against it, passed over if and only if it is a sound name under an excluded subtree, and refused only for a problem it has |
| V1Plan.FateMeans | webstation_broker/saves.py:946-1094 | in its archive a member is kept if and only if nothing is against it there either, neither a repeated path nor a file in a directory's place nor a locked directory |
| V1Plan.DroppedIsPassed | webstation_broker/saves.py:1000-1012 | the number reported as excluded is the number of members under an excluded subtree |
| V1Plan.NothingRefused | webstation_broker/saves.py:1027-1094 | although duplicates are dropped silently after the first report, a plan with no problem has refused no member at all |
| V1Plan.NothingLost | webstation_broker/saves.py:1027-1094 | when no problem is reported, every member is in the plan but for those under an excluded subtree |
| V1Plan.KeptIsSafe | webstation_broker/saves.py:946-1025 | a kept member is relative, strictly inside a save subtree and outside the excluded ones, not named like scratch, readable by its header, and fits the filesystem |
| V1Plan.KeptCompatible | webstation_broker/saves.py:1027-1094 | two kept members never have one path, nor one inside the other |
| Restore.WriteSaveArchive | webstation_broker/saves.py:1200-1309 | the loops over members, imports and sidecars leave the tree and the counts of running the planned writes in order |
| Restore.RunAllWritten | webstation_broker/saves.py:1246-1309 | when every write succeeds the report counts exactly the members and imports, with nothing skipped or failed |
| Restore.ReportMeans | webstation_broker/saves.py:1246-1309 | whatever fails, the report counts the members written, the members skipped for a newer file, the imports written, and everything that failed, sidecars included, each exactly once |
| Restore.V1Over | webstation_broker/saves.py:1246-1280 | an ordinary member over a file that is there: a file newer by more than the slack stays unless its name is exempt, any other is replaced by the member's bytes with the member's time |
| Restore.PlacedOver | webstation_broker/saves.py:1281-1295 | an import replaces the file that is there however new that is, stamped with the clock |
| Restore.MissingFails | webstation_broker/saves.py:1246-1256 | a member the archive turned out not to hold is counted as failed and changes nothing |
| RestoreSafety.ImportsApart | webstation_broker/imports.py:1378-1429 | two files of an approved import plan never need the same place |
| RestoreSafety.ImportApartFromV1 | webstation_broker/imports.py:1400-1429 | a file of an approved import plan never needs the place of an ordinary member |
| RestoreSafety.StepsApart | webstation_broker/saves.py:1248-1309 | any two writes of an approved restore are apart, whichever kinds they are |
| RestoreSafety.NoFailureAfterClear | webstation_broker/saves.py:1200-1309 | after the clear an approved restore fails nowhere and skips nothing, and adds exactly the planned files with their bytes |
| RestoreSafety.RestoredBytes | webstation_broker/saves.py:1246-1309 | every ordinary member's file holds that member's bytes and lands at its stored time, set back if that is ahead of the clock; every import's holds the bytes it was declared with, at the clock's time |
| RestoreSafety.RestoredSidecars | webstation_broker/saves.py:1296-1309 | every sidecar's file holds exactly what was to be put there |
| Activate.ReadArchiveMeans | webstation_broker/saves.py:526-570 | an archive is too large exactly when its files' declared sizes exceed the limit, and otherwise refused exactly when it has too many files; directories count for neither |
| Activate.MemberRoutes | webstation_broker/saves.py:526-570 | every entry goes its way by its name: directories and the manifest none, what is under the import prefix as an import, all else as an ordinary member |
| Activate.V1BytesMean | webstation_broker/api.py:805-876 | what the archive weighs beside its imports is the sizes of its ordinary members, but for those under an excluded subtree |
| Activate.SizesAreDeclared | webstation_broker/api.py:805-876 | an import is weighed at the size its last entry declares |
| Activate.VerifiesMeans | webstation_broker/saves.py:665-745 | a name verifies if and only if its last entry is unencrypted, stored or deflated, and reads back whole |
| Activate.YieldMeans | webstation_broker/saves.py:696-745 | the bytes counted for a name are what came out of its last entry: all of it, what came before a failure, or none if its header rules the read out |
| Activate.VerifyMembers | webstation_broker/saves.py:696-745 | nothing is wrong exactly when every member reads back whole and the bytes read stay within the budget; the archive is at fault exactly when they do not, and until then exactly the members that are missing, encrypted, oddly compressed or unreadable are reported |
| Activate.BudgetSuffices | webstation_broker/saves.py:696-745 | an archive within the whole-archive limit, no entry longer than declared, never exhausts the read budget on members that verify, however often a name repeats |
| Activate.Decide | webstation_broker/api.py:805-876 | an archive is accepted if and only if it is within the limits, no member is refused, its imports can all be placed and everything to be written reads back; what is accepted is approved in full, for synced cards too |
| Activate.RestoreArchive | webstation_broker/api.py:805-915 | end to end, a launch with a synced memory card included: exactly the archives that are not acceptable are refused and leave the tree as it was; any other is written with nothing failed or skipped and adds exactly its planned files |
| ZipTime.PackedIsEvenFloor | webstation_broker/saves.py:227-256 | packing a second of the years 1980 to 2107 into the DOS date and time words and reading it back loses exactly the odd second |
| ZipTime.StampClose | webstation_broker/saves.py:227-256 | from 1980 to 2107, unless the time is refused, the stored time is less than two seconds behind the file's |
| ZipTime.UnchangedFileRestored | webstation_broker/saves.py:1246-1269 | a dump restored over its own unchanged file is skipped if and only if the stored time is ahead of the clock, the file is past 2107, or its time was refused and is past 1980; the condition for a clock before 1980 is given too |
| ZipTime.ClampedFileRestored | webstation_broker/saves.py:227-256 | a file from before 1980 never blocks the restore of its own dump |
| ZipTime.FutureFileIsSkipped | webstation_broker/saves.py:1246-1269 | a file stamped in the future does have its own dump skipped |
| ZipTime.RefusedFileIsSkipped | webstation_broker/saves.py:245-249 | so does a file with a time `gmtime` refuses, its stored time ahead of no clock |
| ZipTime.LateFileIsSkipped | webstation_broker/saves.py:253-255 | so does a file stamped past 2107, even restored later than that |
| ZipTime.RestoredFileShips | webstation_broker/saves.py:392-406 | an untouched restored file looks changed at a later baseline exactly when stamped within the slack before it, so a backdated future member never does |
| Dump.InIter | webstation_broker/saves.py:159-190 | the candidates are exactly the files strictly inside a subtree that are neither scratch nor the mount marker |
| Dump.ShipsMeans | webstation_broker/saves.py:144-190 | a file is a candidate of a subtree exactly when it lies below it, no component from there on is scratch, it is not named like the manifest, and it is not the mount marker |
| Dump.BuildSaveArchive | webstation_broker/saves.py:330-471 | the loops weigh and read every candidate once and report what the dump's rules say, error cases included |
| Dump.DumpFails | webstation_broker/saves.py:388-441 | a dump fails in three cases and no other, each with its exact condition: nothing could be stat'ed, what changed is over the size limit, or nothing of what changed could be read |
| Dump.ChangedIsShipped | webstation_broker/saves.py:388-441 | within the limit every candidate that changed, or is always included, and can be read is archived with the bytes and the time it was read with |
| Dump.HonestReport | webstation_broker/saves.py:388-441 | whatever stat and read calls fail, each candidate is unchanged, archived or listed as skipped, unless the size limit stopped the dump |
| Dump.TruthfulReport | webstation_broker/saves.py:388-441 | what is archived is a changed candidate read whole, and is never listed as skipped |
| Dump.CleanReport | webstation_broker/saves.py:286-300 | neither error nor archive exactly when nothing that could be stat'ed had changed and not every candidate failed to stat |
| Dump.DeclaredLeftOut | webstation_broker/saves.py:388-441 | a report with neither error nor archive leaves a declared file out if and only if nothing stat'ed had changed, something was stat'ed and some declared candidate was not; every declared candidate of a clean report is listed as skipped |
| Dump.DeclaredFileCanBeLost | webstation_broker/saves.py:388-441 | such a clean report exists |
| RoundTrip.DumpPlanned | webstation_broker/saves.py:946-1094 | the plan for a dump's own archive keeps every member, refuses none and drops none |
| RoundTrip.DumpAccepted | webstation_broker/saves.py:330-471 | a dump within the restore limits meets every condition of acceptance: plan, import check and read budget |
| RoundTrip.DumpThenRestore | webstation_broker/saves.py:330-471 | dump then restore is the identity on what was dumped: an archive within the limits is accepted, every member is written, none skipped or failed, and the tree holds what it held plus the same bytes at the same paths; when the dump kept to its size limit these are all the files that changed |
| Seats.ResolveInverts | webstation_broker/session.py:224-263 | resolving a seat's public id gives the seat back if and only if no earlier member carries the same id |
| Seats.ControllerResolves | webstation_broker/session.py:224-263 | the controller's public id always resolves back to the controller, and exactly the members have one |
| Seats.EqualIdsMislead | webstation_broker/session.py:242-263 | with two equal public ids the second seat's id resolves to the first seat |
| Seats.OneHolder | webstation_broker/session.py:562-622 | with exclusive slots two holders of a gamepad are one member |
| Seats.FirstHolderIsEnough | webstation_broker/session.py:600-622 | freeing only the first previous holder equals freeing all of them if and only if there is at most one |
| Seats.TwoHoldersBreakIt | webstation_broker/session.py:600-622 | with two previous holders the early break leaves one gamepad with two holders |
| Admission.Stalest | webstation_broker/session.py:397-409 | the seat chosen is reclaimable and out of touch longest; none is chosen only when none is reclaimable |
| Admission.JoinOk | webstation_broker/session.py:337-434 | a join keeps tokens distinct, slots exclusive, roles held by members and the cap, whether the seat was free, replaced or reclaimed |
| Admission.GrantedSeat | webstation_broker/session.py:337-434 | the seat a join grants carries the joiner's id and name, the minted token and public id, the permission and the time, holds no slot, and is anonymous if and only if the joiner has neither id nor name |
| Admission.OneSeatPerUser | webstation_broker/session.py:365-384 | whatever comes of a join, no earlier seat of the joining user is left, and every other seat left is as it was |
| Admission.JoinReleases | webstation_broker/session.py:306-424 | a join takes roles and sockets from the seats it ends and from no other |
| Admission.RefusedWhen | webstation_broker/session.py:375-416 | a join is refused if and only if the user has no seat, the room is full and every seat but the controller's is a named user's, connected, or still in its grace time |
| Admission.ReclaimedSeat | webstation_broker/session.py:386-424 | the only other seat a join takes was minted for neither id nor name, is offline, past the grace window and longest idle among those |
| Admission.NobodyMakesWay | webstation_broker/session.py:386-409 | no seat but the joining user's own is taken while the room has one to spare, or when the user comes back |
| RoomRuns.AssignSlotOk | webstation_broker/session.py:562-641 | in a session that has kept the rules the broker's assignment means what it should, and keeps them |
| RoomRuns.DepartOk | webstation_broker/room.py:541-572 | a departing viewer keeps its seat but holds no slot and no role afterwards, and every rule is kept |
| RoomRuns.StepOk | webstation_broker/room.py:251-578 | every event of a room keeps every rule |
| RoomRuns.InputIsExclusive | webstation_broker/session.py:600-662 | after any run no gamepad has two holders, mouse and keyboard and the speaker role are held by members or nobody, and the cap holds |
| RoomRuns.ReplacedSocketLeavesNoTrace | webstation_broker/room.py:527-541 | the teardown of a socket already replaced on its token changes nothing, whatever happened in between |
| RoomRuns.StrangeSocketLeavesSessionAlone | webstation_broker/room.py:541-578 | the teardown of a socket whose seat is gone changes no seat, slot or role |
| RoomChanges.SlotMeans | webstation_broker/session.py:582-641 | assigning gamepad n to the member an id names leaves that member holding it and no other, whoever held it none, everyone else what they held; an unknown id or a number that is no gamepad changes nothing |
| RoomChanges.MkMeans | webstation_broker/session.py:643-662 | mouse and keyboard go to the viewer an id names, and for anything else back to the controller; nothing else changes |
| RoomChanges.SpeakerMeans | webstation_broker/room.py:350-363 | the member an id names becomes the speaker, no id clears it, an unknown one changes nothing |
| RoomChanges.NameMeans | webstation_broker/room.py:365-400 | a viewer is renamed to a name of 1 to 25 characters, keeping all else; no other seat changes |
| RoomChanges.ActivateMeans | webstation_broker/session.py:127-178 | a session begins with the controller on gamepad 1, granted mouse and keyboard, and nobody else |
| RoomChanges.CloseMeans | webstation_broker/room.py:527-572 | a viewer whose live socket closes keeps the seat, out of touch from then on, without slot or role; nobody else is touched |
| RoomChanges.SessionOnRecord | webstation_broker/session.py:127-196 | over every run a session is on exactly when one has begun and none has begun or ended since |
| RoomChanges.ControllerOnRecord | webstation_broker/room.py:251-258 | over every run the controller's socket on record is exactly the one opened last, until it closes or the room is reset |
| RoomChanges.ViewerOnRecord | webstation_broker/room.py:251-258 | over every run a viewer's socket on record is the one opened last on its token, and has not closed since |
| RoomChanges.SeatsAreMinted | webstation_broker/session.py:426-434 | over every run each seat was minted for an arrival in this very session, and still carries what it was minted with |
| RoomChanges.OnlyGuestsMakeWay | webstation_broker/session.py:386-424 | over every run a seat a join takes from somebody else was minted for a guest with neither id nor name |
| RoomChanges.UsersSitOnce | webstation_broker/session.py:365-384 | over every run a user known by an id has one seat at most |
| RoomRuns.TokenMapCovers | webstation_broker/selkies.py:20-48 | the map lists every member and no one else, each with the slot it holds |
| RoomRuns.NoGamepadTwice | webstation_broker/selkies.py:20-48 | no two tokens are routed to one gamepad |
| RoomRuns.OneGrant | webstation_broker/selkies.py:33-48 | exactly one token is granted mouse and keyboard if and only if their owner is nobody or a member |
| RoomRuns.OneGrantAlways | webstation_broker/selkies.py:33-48 | after any run exactly one token is granted mouse and keyboard |
| RoomClass.PlayRoom.NewSession | webstation_broker/session.py:127-178 | a new session starts with the controller on gamepad 1, no viewers and no roles given |
| RoomClass.PlayRoom.RetireSession | webstation_broker/session.py:180-196 | ending the session leaves no session and touches no socket |
| RoomClass.PlayRoom.ReleaseSeat | webstation_broker/session.py:306-334 | a removed seat's roles are cleared and its socket detached, everything else kept |
| RoomClass.PlayRoom.AddViewer | webstation_broker/session.py:337-434 | the object's loops seat, replace, reclaim or refuse exactly as a join does |
| RoomClass.PlayRoom.HandleAssignSlot | webstation_broker/session.py:582-622 | the object's search and early break change the session exactly as the assignment rule says |
| RoomClass.PlayRoom.HandleAssignMk | webstation_broker/session.py:656-662 | the object hands mouse and keyboard over, the controller's own token meaning nobody's |
| RoomClass.PlayRoom.SetDesignatedSpeaker | webstation_broker/room.py:350-363 | the object names the speaker, ignores an unknown id and clears on none |
| RoomClass.PlayRoom.ConnectViewer | webstation_broker/room.py:251-258 | a new socket takes over its token, and no other changes |
| RoomClass.PlayRoom.DisconnectViewer | webstation_broker/room.py:527-572 | the object's teardown releases slot and roles only for the live socket |
| RoomClass.PlayRoom.ResolvePublicId | webstation_broker/session.py:242-263 | the object's search finds the first member with the id |
| RoomClass.PlayRoom.BuildTokenMap | webstation_broker/selkies.py:20-48 | the object's loop fills exactly the session's token map |
| Jitter.EnqueueInv | frontend/src/room.js:1458-1463 | a packet's arrival keeps the queue the newest of what arrived and at most five packets |
| Jitter.PullInv | frontend/src/room.js:1492-1497 | pulling a packet keeps the played samples the exact concatenation of those taken |
| Jitter.ProcessInv | frontend/src/room.js:1476-1538 | a callback keeps order, exactness, the bounds on target and counters, and the least slack seen |
| Jitter.EnqueueMeans | frontend/src/room.js:1458-1463 | an arriving packet becomes the last in the queue, and only a full queue loses its first for it |
| Jitter.ProcessPlays | frontend/src/room.js:1476-1538 | a callback is silent and changes nothing exactly while it waits for enough packets; from then on it plays every sample there is, in order, and is silent only past the last of them, when it starts to wait for one packet more |
| Jitter.SettleMeans | frontend/src/room.js:1510-1538 | a packet is skipped only after a full window of callbacks above the target, and the target falls by one exactly at the end of a clean window whose every pull left the slack for it |
| Jitter.ProcessDelivers | frontend/src/room.js:1476-1538 | a callback fills exactly its output: the samples newly played, then silence, and silence only while packets are lacking |
| Jitter.DecayIsProven | frontend/src/room.js:1528-1535 | the target shrinks by one at most, and only if every pull of the window left two packets |
| Jitter.HeardExactly | frontend/src/room.js:1458-1538 | over any run what was heard is whole packets in the order they arrived, the last one perhaps unfinished |
| JitterClass.AudioPlayer.Enqueue | frontend/src/room.js:1458-1463 | the processor drops the oldest packet of a full queue and appends the new one |
| JitterClass.AudioPlayer.Process | frontend/src/room.js:1476-1538 | the copy loop terminates even on empty packets and leaves output and state as the callback's rules say |
| Credit.CreditIsExact | frontend/src/room.js:682-741 | a live sink's count is at most three and equals presents, pending writes and acks on their way if and only if no frame was discarded unacked, which never happens while the worker's sink is open |
| Credit.NoAckIsAbsorbed | frontend/src/room.js:698 | no ack a live page hears finds its count at zero |
| Credit.NoCreditLeaks | frontend/src/room.js:719-740 | with nothing on its way a live sink has all its credits back and posts the next frame |
| Credit.BurstPosts | frontend/src/room.js:719-740 | of frames offered with nothing coming back, a live page posts as many as it has credits, oldest first, and closes the rest |
| Credit.FailedPostEnds | frontend/src/room.js:719-740 | a page gives its sink up exactly when a post it has the credit for fails, and then closes the frame and tells the worker |
| Credit.OpenSinkWrites | frontend/src/room.js:138-163 | while the generator keeps up every frame posted is written, in the order posted, and none is closed |
| Credit.StalledSinkEnds | frontend/src/room.js:138-163 | while the generator is backed up every frame is closed and acked until the thirtieth in a row, which ends the sink with an error; what follows is closed without an ack |
| Credit.ClosedSinkDiscards | frontend/src/room.js:138-145 | a closed sink writes nothing and says nothing |
| Credit.HearingPaysBack | frontend/src/room.js:319-328 | a page survives what it hears exactly when no error is among it, and then has one credit back for every ack |
| Credit.WholeTrip | frontend/src/room.js:138-170 | a frame offered to an idle sink is written, and once settled the sink is as idle as before, or given up by both sides, the frame released either way |
| Credit.SettledAlone | frontend/src/room.js:155-163 | whichever write finishes, its frame alone leaves, with one ack; only a failure ends the sink |
| Credit.FramesStayInOrder | frontend/src/room.js:138-187 | over every run what is being written and what is on its way is in the order it was offered, the page's close is its last message, and an open sink is short of its stall limit |
| Credit.EndIsFinal | frontend/src/room.js:138-187 | a dead page offers nothing more and a closed sink starts no write |
| Credit.OnePlaceEach | frontend/src/room.js:138-170 | every frame is in exactly one place: on its way, being written, or released once |
| Credit.AllReleased | frontend/src/room.js:138-170 | once nothing is on its way or being written, every frame offered has been released exactly once |
| Credit.CountCanOutrunChannels | frontend/src/room.js:138-170 | a failed write with a present behind it makes the count exceed what is on its way |
| CreditClass.VideoSink.Write | frontend/src/room.js:719-740 | the page posts a frame and counts it, drops it at the limit, or leaves it with a dead sink's caller |
| CreditClass.VideoSink.WorkerOnMessage | frontend/src/room.js:172-187 | the worker takes the page's messages in order, presenting each frame or closing the sink |
| CreditClass.VideoSink.OnMessage | frontend/src/room.js:319-328 | an ack gives one credit back, an error ends the sink, and a dead sink hears nothing |
| CreditClass.VideoSink.PresentToSink | frontend/src/room.js:138-163 | the worker writes, drops with an ack, gives a stalled sink up after thirty drops, or discards for a closed one |
| CreditClass.VideoSink.OnSettled | frontend/src/room.js:155-163 | a settled write acks its frame, and a failed one also gives the sink up and reports it |
| Capture.CreditIsExact | frontend/src/room.js:81-114 | while the worker reads, its count for a capture source equals frames and acks on their way plus the frames a stopping page closed, and never exceeds its limit; until the page stops there are none of the latter |
| Capture.BurstLends | frontend/src/room.js:81-114 | of frames read with no reply, a reading worker lends as many as it has credits, oldest first, and closes the rest |
| Capture.OpenPageHands | frontend/src/room.js:340-408 | a page that captures hands every frame to the encoder in order, or closes them all while the encoder is behind, and acks each either way |
| Capture.StoppedPageCloses | frontend/src/room.js:340-408 | a page that has stopped closes what still arrives and acks none of it |
| Capture.RepliesPayBack | frontend/src/room.js:172-187 | a worker goes on reading exactly when no stop is among the replies, and then has one credit back for every ack |
| Capture.EncodedInOrder | frontend/src/room.js:340-408 | over every run the encoder is given frames in the order they were captured, and each side's goodbye is its last message |
| Capture.OnePlaceEach | frontend/src/room.js:340-408 | every captured frame is on its way, with the encoder, or closed once |
| Ini.NamesOne | webstation_broker/emulators/duckstation.py:211-215 | read the way the broker matches keys, a line names at most one well-formed key |
| Ini.SpacesAre | webstation_broker/emulators/duckstation.py:201-215 | the characters stripped off a line are exactly those Python strips |
| Ini.StripMeans | webstation_broker/emulators/duckstation.py:201-215 | stripping takes off blanks alone, from both ends, and all of them |
| Ini.HeaderMeans | webstation_broker/emulators/duckstation.py:201-215 | a line is a section's header exactly when it reads as the name in brackets |
| Ini.NamesMeans | webstation_broker/emulators/duckstation.py:211-215 | a line sets a key exactly when it reads as the key, a space or none, an equals sign and any value, even an empty one |
| Ini.EverySettingForced | webstation_broker/emulators/duckstation.py:201-243 | every forced setting is present afterwards, and every line that sets it is the forced one |
| Ini.OtherSettingsUnchanged | webstation_broker/emulators/duckstation.py:201-243 | every other section and key reads as it did |
| Ini.RewriteOnce | webstation_broker/emulators/duckstation.py:201-243 | rewriting twice is rewriting once |
| Ini.OtherLinesKept | webstation_broker/emulators/duckstation.py:201-243 | all other lines stay in order; beside forced lines only a blank and a header are added for each section the file lacked |
| IniPatch.TableIsGood | webstation_broker/emulators/duckstation.py:176-195 | the nine forced settings are well formed and distinct, so the rewrite's meaning holds for them |
| IniPatch.CardIsPinned | webstation_broker/emulators/duckstation.py:176-195 | whatever the file said, every line naming card 1 afterwards names the pinned card |
| IniPatch.PatchIni | webstation_broker/emulators/duckstation.py:201-243 | the loops over lines, settings and sections compute exactly the rewrite |
| CardSwap.CheckAnswer | webstation_broker/memcard.py:192-209 | a hook's answer is accepted if and only if it places every member inside the card on a file of its own |
| CardSwap.PlacedInside | webstation_broker/memcard.py:192-209 | an accepted answer puts every member on a path of its own strictly inside the card, reached by no `..` |
| CardSwap.SizesAdd | webstation_broker/memcard.py:241-256 | the size an image is held to is that of all its members, wherever each comes |
| CardSwap.ImageMeans | webstation_broker/memcard.py:271-294 | the new card holds every member where the hook puts it, or under its own name without one, with its bytes; the marker, empty unless a member brought its own; and nothing else |
| CardSwap.ImageExists | webstation_broker/memcard.py:271-294 | the image can be put together if and only if every member reads whole and no place in it is needed as a directory by another or by the marker |
| CardSwap.HeadIsFirst | webstation_broker/memcard.py:170-209 | a placement hook is shown the first 64 bytes of a member, or all of a shorter one |
| CardSwap.MemcardDir.Replace | webstation_broker/memcard.py:212-312 | the new image is laid down if and only if it is acceptable, every member can be staged and no step up to the swap fails; the call raises if and only if a head or a body it reaches fails in a way it does not handle, and leaves the card then; a refusal leaves the card as it was, or whole at the backup path if the restoring rename fails too, or, exactly as described above, fills an empty slot with a stranded backup |
| CardSwap.StrandedBackupReturns | webstation_broker/memcard.py:262-308 | a concrete failing push into an empty slot puts a stranded backup card there, whatever card it is |
| CardSwap.DamagedBodyStrands | webstation_broker/memcard.py:186-192 | with no step failing, a member damaged behind its head puts the stranded backup in the empty slot |
| CardSwap.RaisedReadRollsNothingBack | webstation_broker/memcard.py:289-310 | a member whose body raises what is not handled leaves the slot empty and the stranded backup where it lay |
| CardSwap.MemcardDir.Swap | webstation_broker/memcard.py:271-294 | the staged image is swapped in whole, or the old card is still in one of its two places; an unhandled error strikes before either is touched |
| CardCapture.BuildArchive | webstation_broker/memcard.py:117-167 | a card is captured whole or not at all, scaffolding alone counts as no card, and the call raises exactly when the first file that cannot be zipped has a time no zip can hold |
| CardCapture.RealMeans | webstation_broker/memcard.py:76-97 | a card counts as none exactly when it is empty or holds its marker alone, empty and readable |
| CardCapture.SizesAdd | webstation_broker/memcard.py:137-150 | a card is weighed by the sizes of its files, wherever each is listed, but for those that cannot be told |
| CardCapture.UndatedFileRaises | webstation_broker/memcard.py:150-166 | the capture of a sound card of one such file raises |
| CardCapture.CaptureComesBack | webstation_broker/memcard.py:137-167 | staging a captured card gives exactly the card again, its own marker winning over the blank one |
| CardCapture.MoveCard | webstation_broker/memcard.py:117-312 | capture then replace reproduces every file, whatever the slot held before |
| CardPlan.PlacedCardsFit | webstation_broker/emulators/duckstation.py:539-581 | a placed card member is the pinned file alone or goes among the states |
| CardPlan.PlacementMeans | webstation_broker/emulators/duckstation.py:539-581 | a member is taken exactly when it is one file that is marked as an owner's or untrusted, or a raw image of a card's exact size; what is refused is told to be converted exactly when it is another tool's card |
| CardPlan.SharedFinds | webstation_broker/imports.py:1400-1429 | the shared check refuses an imported card whenever another card or an archive file meets its path |
| CardPlan.ExactlyOneRefusal | webstation_broker/emulators/duckstation.py:792-837 | an imported card is refused if and only if the archive carries a card file or something meets its path, and then by exactly one of the two checks |
| CardPlan.NoCardIsLostSilently | webstation_broker/emulators/duckstation.py:792-837 | no accepted import puts a card in the slot beside one the archive carries, nor beside another imported one |

## Left out

- HTTP routes, uploads, selkies posts with their retry, screenshots, settings and the FastAPI app: plumbing without a hard invariant.
- The claim that no push follows a clear (the session lock in `api.py`): room-socket pushes run outside that lock, so it does not follow from the code.
- Process killing, `/proc` scans and pid records: foreign, racy state.
- Symlinks, `pathconf` and write probes appear as answers in `V1Plan.Env`; the staging file of `_write_member` as one atomic write; storage itself does not fail during a restore.
- Zip decompression and CRCs: a member's data is there or cannot be read; of a card image's member, whether its head and its body read, and whether the error is one `replace` handles, are given. How many bytes come out before a read fails is a parameter of the read budget.
- JSON parsing, regular expressions and `casefold`: parsed values, predicates on components, and a folding that works component by component.
- A float mtime is a real number, and so is a sample.
- Placement hooks and their identity rules are functions of the emulator. That they put the member they were given where they say, and a sidecar apart from its member, is an assumption (`Preflight.HooksBehave`).
- A placed import whose member is missing from the zip counts as failed; the source would raise, but never gets there once members are verified.
- The outbox's clock is read once per backlog size within a step. Two shuts racing through the event loop, and the socket's own close, are not modelled.
- The room's chat, usernames' cooldowns and trimming, resolution messages, invites and the broadcast of its state.
- That every connected socket belongs to a seat: a reconnect during the exit grace window can outlive the session, so the room's claims are about seats, slots and roles.
- A minted token is assumed never to repeat; public ids are not.
- The two halves of a capture source (`Capture`) are modelled on values alone; updating them in place is shown only for the mirror image, the video sink.
- A media worker that crashes, and the browser's own track generators and streams, which take a frame or refuse it.
- Reading an ini file into lines and writing it back: the rewrite is modelled on the lines.
- DuckStation's naming of an imported state: only that it lands under `savestates/` with its marker.
- The rest of `room.js` (DOM, chat, drag, gaming mode, codecs), translations, documentation and scripts.
- OutboxDrain.FlushHonest: speaks of the moment the idle event is seen; the timeout of `flush` is not modelled.
- Activate.RestoreArchive: takes the cleared tree as given rather than modelling each emulator's clearing of its slot; a synced card's directory need not be empty.
- CardSwap.MemcardDir.Replace: a directory left over from the first clean-up is taken to be non-empty, so that nothing can be renamed onto it.
