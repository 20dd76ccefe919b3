# A verified model of the GPU-IOV host driver's stateful cores

This project models, in Dafny, the parts of the host driver that keep intricate state in memory, and proves what
they are relied on for. Each part is modelled in the form its code has: objects whose methods update fields are
classes whose methods are proved against functions on values; loops are loops with invariants; the laws are lemmas
about those functions.

| files | part of the driver |
|---|---|
| `Arith`, `Bytes`, `Bitmap` | arithmetic, little-endian words, block writes, bit operations, bitmaps |
| `MigMessage` | the migration message: layout, header, checksum, export, import |
| `MigPages`, `MigRuns` | the dirty-page enumeration, page by page and in runs |
| `MigRing`, `MigMask`, `MigUser` | the byte ring, its masked arithmetic, user-space copies |
| `MigTransfer`, `MigCalls`, `MigFile` | one end of a migration: steps, calls, and the class with the code's loops |
| `MigSystem`, `MigSections`, `MigProgress`, `MigRefine` | a whole migration as a step system: safety, what is sent and when, progress; the class's threads refine it |
| `MigRounds` | how user space accounts for the bytes of a round |
| `DiagRing`, `DiagLoggers`, `DiagPostLog` | ring logs and their writers |
| `DiagBlocks`, `DiagFile`, `DiagCollect` | chained blocks, file builder, relocation and collection |
| `SentinelIndex`, `SentinelHeap` | the three-level free index and the allocation wrappers |
| `GpaMap`, `GpaExchange` | guest memory through folio chunks |
| `ConfigText`, `Config`, `ConfigJunk`, `ConfigFile`, `ConfigTable` | configuration text, parser and printer, an uninitialised number in the parser, file, built-in table |
| `CperTime`, `CperRing`, `CperFilter`, `CperPatch` | error records: calendar, ring and paging, filtering for a VF |
| `Dirtybit`, `DirtyRuns`, `SetBits` | accumulated dirty bits, set-bit iteration |

`dafny verify dfyconfig.toml` checks everything.

## The migration, in one paragraph

`MigSystem` has eleven kinds of steps: the guest writes a page; a dirty-bit query, with or without dynamic data, or a
size query; an idle source is woken; the source thread starts a message, moves a page or ends a round; user space
reads or writes any number of bytes; the target thread moves a page or ends a round. Steps come in any order. The history variable `expected` is the framebuffer
the target will have once it has read all that is under way; the central invariant says that decoding the bytes under way,
as the target does, yields exactly `expected` and leaves the target's bitmap equal to the source's. Both sides find page
numbers only by walking their own copy of the bitmap, so this is where a disagreement would show. `MigFile` holds
the loops as the code writes them (runs of pages, blocks up to the end of the ring, two user segments), proved
equal to page-by-page steps, and `MigRefine` shows each turn of a thread to be a run of the system. `MigSections` says what a
query asks for and what travels when, and `MigProgress` that no reachable state is stuck and that from each of them the
migration can be completed: framebuffers equal, and context, static and dynamic data at the target.

## Where the code does less than it looks

Each of these is stated as a lemma or a clause of a contract; where a law fails, the exact condition is given.

- Some devices clear the caller's bitmap at the start of a dirty-bit query
  (`libgv/core/hw/navi3/navi32_dirtybit.c:476`), others OR their bits into it (`libgv/core/hw/AI/mi300/mi300_dirtybit.c:234`). The shadow bitmap is passed
  directly (`gim/gim_shim/gim_mig.c:85`), so on the former a second query before an export drops pages:
  `TwoOverwritingQueriesLose`, `LostStaysLost`. What a query keeps can be told beforehand from the shadow bitmap, the hardware's
  bits and the round under way: `OverwriteKeepsIff`. Where an export stands between any two queries, and the size is not
  queried, such devices are safe too: `AlternatingConverges`, `MigrationCompletes`.
- `copied_size` is assigned in the user loop and the write loop passes the same buffer each time: `CountIsRightIff`, `WriteIntactIff`.
- `bits >> 3` drops a partial byte of the bitmap: `BitmapCoversIff`.
- A ring log without memory gets a header but no data, and the cursor stays short of its next offset: second part of `AddRingBuffer`.
- The count of bytes left in a round is picked up from the block copied first, which may be too short to hold it, and a
  read may run into the next round: `AccountsIff`. Such a read, or a first read of a session that short, makes every later
  one fail: `OverreadRefuses`, `ShortStartRefuses`.
- The error logger computes one index for all errors a call drains, so all but the last are lost and stale slots are
  reported: `BatchesRightIff`, `TwoErrorsAtOnce`. The 32-bit counts of all ring logs start over at the number of
  entries, which keeps the order only in rings of certain sizes: `RestartKeepsOrderIff`, `ShippedRings`.
- The POST logger writes its slot before it knows whether the entry counts, and remembers the slot logged last from one
  POST to the next: `PostInOrder`, `NextPostIsEmptyIff`.
- An access whose 32-bit offset and length wrap passes the range check and fails only after filling the range, or
  the buffer, up to the range's end: `MovedIs`, `FailsCleanlyIff`, `WrappingAccess`.
- Translation is asked for the first byte of a chunk only: `AllTranslatedIff`.
- The comment on the forced-dirty fill says the rest of the buffer is cleared; the code
  leaves it (`libgv/core/amdgv_dirtybit.c:247-252`): `SetQueryBufferToDirty` follows the code.
- Offsets and sizes of a dirty-bit query are truncated to whole bytes of the bitmap; a window that is not made of
  whole bytes can lose pages: `QueryKeepsIff`.
- Putting a section descriptor back sets the serial number's valid bit instead of restoring it: `PutBackIsSameIff`.
- After a live import the CPER ring has holes, which pages pass over without counting: `CursorIsRightIff`,
  `CursorAfterImportIff`, `StuckCursor`.
- The configuration file is overwritten, not truncated: `StaleTailDecides`, `OverwrittenReadsBackIff`. With the built-in
  table a list of VF numbers that is two to nine characters shorter than the last one makes the next
  start reset every option.
- A run-time change of an array option sets its first value only: `SetFirstComesBackIff`.
- The parser range-checks a number it failed to read; what the variable holds then is the parameter `junk` of the
  model: `ParseIsSoiled`, `JunkMattersIff`.
- Freeing refuses "invalid" entries by comparing an unsigned 16-bit field with -1, which never holds
  (`gim/gim_shim/gim_memory_sentinel.c:775`); `RemoveEntry` follows the code.

## Model

| member | source | states |
|---|---|---|
| `MigFile.MigFile.constructor` | gim/gim_shim/gim_mig.c:1260-1300 | a new session: empty ring, nothing copied or pending, only the target's thread running |
| `MigFile.MigFile.VfDirtyFbCopy` | gim/gim_shim/gim_mig.c:885-956 | the loops over runs of dirty pages move exactly what a page-at-a-time reading of the bitmap would, in either direction, and report done iff no bit is left |
| `MigFile.MigFile.CountRun` | gim/gim_shim/gim_mig.c:907-923 | the inner loop counts pages that are all dirty and adjacent and that fit the room left, and stops only where the next is not dirty or would not leave room |
| `MigFile.MigFile.CopyBatch` | gim/gim_shim/gim_mig.c:925-939 | one block copy moves the run, clears exactly its bits, advances the position and leaves no offset inside a page |
| `MigFile.MigFile.MoveDirtyPages` | gim/gim_shim/gim_mig.c:895-955 | the outer loop ends; pages moved equal bits cleared, and it stops early only when no bit is left |
| `MigFile.MigFile.FinishRound` | gim/gim_shim/gim_mig.c:898-905 | end of a round: buffer and position cleared, an idle source pauses |
| `MigFile.MigFile.FindNextBit` | gim/gim_shim/gim_mig.c:897 | find_next_bit on the bitmap in the message buffer by its specification |
| `MigFile.MigFile.BitmapClear` | gim/gim_shim/gim_mig.c:938 | bitmap_clear changes the named bits of the message and no other |
| `MigFile.MigFile.VfDataExport` | gim/gim_shim/gim_mig.c:245-329 | with nothing pending nothing changes; otherwise the buffer becomes the exported message, pending sections become copied ones, the sequence number wraps at 64 bits, the shadow bitmap is emptied iff it was sent |
| `MigFile.MigFile.ExportSection` | gim/gim_shim/gim_mig.c:262-322 | one section: bytes, header field and mask bits change iff it is pending |
| `MigFile.MigFile.SealHeader` | gim/gim_shim/gim_mig.c:249-326 | the header written last is the sealed one, checksum over the finished fields |
| `MigFile.MigFile.VfDataImport` | gim/gim_shim/gim_mig.c:159-243 | import accepts exactly the messages ImportMsg accepts; the mask keeps what was taken before a failure |
| `MigFile.MigFile.HeaderCheck` | gim/gim_shim/gim_mig.c:131-145 | the version and checksum check |
| `MigFile.MigFile.MsgOut` | gim/gim_shim/gim_mig.c:959-985 | the message part of a call on the source: export before the first byte, then the next bytes of the message go out |
| `MigFile.MigFile.MsgIn` | gim/gim_shim/gim_mig.c:959-985 | the message part of a call on the target: bytes in place, import when the last one arrived |
| `MigFile.MigFile.SourceCopy` | gim/gim_shim/gim_mig.c:987-1016 | a call on the source puts exactly the next len bytes of message and dirty pages into the ring, or what is left of the round |
| `MigFile.MigFile.TargetCopy` | gim/gim_shim/gim_mig.c:987-1016 | a call on the target stores exactly what page-by-page reading of its bytes would; it fails iff import rejects the message it completed |
| `MigFile.MigFile.ThreadSpace` | gim/gim_shim/gim_mig.c:1018-1063 | free or filled space by end, and the part of it before the wrap in whole pages |
| `MigFile.MigFile.SourceThread` | gim/gim_shim/gim_mig.c:1183-1222 | one turn of the source thread: the emitted bytes are appended to the ring contents, nothing else in the ring changes |
| `MigFile.MigFile.TargetThread` | gim/gim_shim/gim_mig.c:1183-1222 | one turn of the target thread: the bytes used are a prefix of the ring contents and are gone from it; a rejected message leaves ring and framebuffer alone and the thread abnormal |
| `MigFile.MigFile.Advance` | gim/gim_shim/gim_mig.c:1214-1218 | the thread's pointer wraps and stays page aligned |
| `MigFile.MigFile.UserSegments` | gim/gim_shim/gim_mig.c:1112-1145 | at most two blocks round the end of the ring, together min(len, space) bytes, in order |
| `MigFile.MigFile.UserSpace` | gim/gim_shim/gim_mig.c:1065-1084 | space seen from user space, a page less than free on the target |
| `MigFile.MigFile.UserCopy` | gim/gim_shim/gim_mig.c:1148-1180 | a read takes, a write appends, min(len, space) bytes of the ring contents, in order; the thread's state is untouched |
| `MigPages.RoundDelivers` | gim/gim_shim/gim_mig.c:885-956 | for every bitmap, sending the dirty pages and storing what arrives copies exactly those pages |
| `MigPages.StreamSplit` | gim/gim_shim/gim_mig.c:895-955 | the source's enumeration does not depend on how the room is cut up |
| `MigPages.ApplySplit` | gim/gim_shim/gim_mig.c:895-955 | nor does the target's |
| `MigPages.RunStream` | gim/gim_shim/gim_mig.c:925-930 | a block of adjacent dirty pages is the same bytes as its pages one by one |
| `MigPages.RunApply` | gim/gim_shim/gim_mig.c:925-930 | storing a block is the same as storing its pages one by one |
| `MigPages.DropCount` | gim/gim_shim/gim_mig.c:936-939 | each page taken clears one bit, never sets one |
| `MigMessage.RoundupFormula` | gim/gim_shim/gim_mig.h:139-144 | the roundup of the layout macros in closed form |
| `MigMessage.BitmapCoversIff` | gim/gim_shim/gim_mig.h:137-140 | `bits >> 3` drops a partial byte; the bitmap still covers every page iff the bit count is a multiple of 8 or the whole bytes do not end on a page boundary |
| `MigMessage.PageSizes` | gim/gim_shim/gim_mig.h:131-144 | the granularity is the exponent of the page size in units of 4 KiB; which configurations are meant, for every page size of 16 |
| `MigMessage.ComputeChecksum` | gim/gim_shim/gim_mig.c:115-129 | the 32-bit loop computes the word sum without the checksum word |
| `MigMessage.AlteredWordRejected` | gim/gim_shim/gim_mig.c:115-145 | changing any single header word of an accepted message makes it rejected |
| `MigMessage.SectionsDisjoint` | gim/gim_shim/gim_mig.h:131-144 | sections lie behind the header, inside the message, pairwise disjoint |
| `MigMessage.HeaderRoundTrip` | gim/gim_shim/gim_mig.c:245-329 | the header fields survive packing into words and back |
| `MigMessage.HeaderInMemory` | gim/gim_shim/gim_mig.h:48-54 | an exported message has version, length and sequence number at bytes 0, 8 and 16, low word first, the word sum at byte 104, and zero padding |
| `MigMessage.SectionInMemory` | gim/gim_shim/gim_mig.h:38-54 | the 16 bytes of a section in the header: its valid bit is set iff it is sent, and offset and length lead to exactly its data; the granularity of the bitmap is that of the pages |
| `MigMessage.ExportWords` | gim/gim_shim/gim_mig.c:245-329 | an exported message passes the check and reads back as the header that was sealed |
| `MigMessage.ExportParts` | gim/gim_shim/gim_mig.c:262-322 | each section of an exported message holds that section's bytes, or zeros |
| `MigMessage.ExportBits` | gim/gim_shim/gim_mig.c:99-113 | the bitmap the copy loops read from the message is the shadow bitmap |
| `MigMessage.ImportExport` | gim/gim_shim/gim_mig.c:159-329 | import of an exported message takes every section's bytes unchanged, and rejects iff a once-only section was taken before |
| `MigMessage.ImportedIff` | gim/gim_shim/gim_mig.c:131-243 | any bytes at all are taken as a message iff version and checksum are right, each valid section is new, inside the message and accepted by the device, and the bitmap is inside it and of this granularity |
| `MigMessage.ImportedHas` | gim/gim_shim/gim_mig.c:159-243 | then exactly the valid sections are delivered, each with its own bytes |
| `MigMessage.MaskAfter` | gim/gim_shim/gim_mig.c:159-243 | taken or not, the mask gains a section iff it is valid and it and those before it can be taken |
| `MigMessage.ClearMsgBits` | gim/gim_shim/gim_mig.c:938 | clearing a bit of the message clears that bit of the bitmap only |
| `MigRing.PutContents` | gim/gim_shim/gim_mig.c:1041-1145 | appending to the ring, across the wrap, appends to its contents |
| `MigRing.TakeContents` | gim/gim_shim/gim_mig.c:1041-1145 | taking from the ring removes a prefix of its contents |
| `MigRing.SpaceFormulas` | gim/gim_shim/gim_mig.c:1018-1084 | the three space formulas are exactly fill and room, so with one page kept free full and empty never look alike |
| `MigRing.RoomFormula` | gim/gim_shim/gim_mig.c:1041-1063 | the part of the space before the wrap, in whole pages, is what one thread call is given |
| `MigRing.RoomFacts` | gim/gim_shim/gim_mig.c:1041-1063 | an enabled thread call is given at least one whole page and never runs past the buffer |
| `MigRing.SegmentsMoved` | gim/gim_shim/gim_mig.c:1112-1145 | the two blocks of a user copy are one put or one take |
| `MigRing.RoomAfter` | gim/gim_shim/gim_mig.c:1160-1176 | after one turn the user loop has met the request or finds no space |
| `MigMask.MaskedDifference` | gim/gim_shim/gim_mig.h:129 | masking a 64-bit difference, wrapped below zero or not, is its remainder by the ring size |
| `MigMask.MaskedSpaces` | gim/gim_shim/gim_mig.c:1018-1084 | the masked expressions as written are fill and room |
| `MigMask.MaskedPointer` | gim/gim_shim/gim_mig.c:1172-1218 | the masked pointer update is wrapping round the end |
| `MigTransfer.InStepFb` | gim/gim_shim/gim_mig.c:885-956 | with both ends in step, the next page sent lands at the same page number on the target, and both stay in step |
| `MigTransfer.InStepMsg` | gim/gim_shim/gim_mig.c:959-985 | a page of the message that does not complete it keeps both ends in step |
| `MigTransfer.InStepImport` | gim/gim_shim/gim_mig.c:959-985 | the page that completes a message makes the target import it and take its sections |
| `MigTransfer.FirstPage` | gim/gim_shim/gim_mig.c:959-985 | a target between rounds takes the first page of a newly exported message |
| `MigTransfer.DecodeAppend` | gim/gim_shim/gim_mig.c:987-1016 | what the target makes of a byte stream can be computed page by page from either end |
| `MigRuns.EmitSplit` | gim/gim_shim/gim_mig.c:987-1016 | a call for a + b pages emits what a call for a and then one for b would |
| `MigRuns.AbsorbSplit` | gim/gim_shim/gim_mig.c:987-1016 | the same for what the target stores |
| `MigRuns.AbsorbDecodes` | gim/gim_shim/gim_mig.c:987-1016 | many pages at once are stored as page-by-page decoding would |
| `MigRuns.BatchStream` | gim/gim_shim/gim_mig.c:925-939 | one block copy on the source continues the page-by-page stream |
| `MigRuns.BatchApply` | gim/gim_shim/gim_mig.c:925-939 | one block copy on the target continues the page-by-page storing |
| `MigRuns.BatchBits` | gim/gim_shim/gim_mig.c:936-939 | clearing a run at once clears the bits that page by page would |
| `MigCalls.SourceCallPut` | gim/gim_shim/gim_mig.c:1183-1222 | what a source call wrote, once the pointer moves, is one put of exactly those bytes |
| `MigCalls.TargetCallTake` | gim/gim_shim/gim_mig.c:1183-1222 | what a target call used, once the pointer moves, is one take of exactly those bytes |
| `MigCalls.SourceJoin` | gim/gim_shim/gim_mig.c:987-1016 | message part and dirty-page part of a source call together are the next len bytes of the round |
| `MigCalls.TargetJoin` | gim/gim_shim/gim_mig.c:987-1016 | the same for what a target call reads |
| `MigSystem.Converges` | gim/gim_shim/gim_mig.c:885-1222 | every run, on merging devices and on overwriting ones whose queries find each shadow page also in the hardware bits or the round under way: no message is rejected, and once all under way has arrived each page equals the source's or is still reported dirty; with nothing left to report the framebuffers are equal |
| `MigSystem.RoundCopiesExactly` | gim/gim_shim/gim_mig.c:885-1016 | one round, any schedule of thread and user chunks: drained, the target has the source's bytes on exactly the pages of the exported bitmap and both bitmaps are empty |
| `MigSystem.RingsSafe` | gim/gim_shim/gim_mig.c:1018-1222 | every run: both fills stay a page below the size, all pointers inside, thread-side pointers page aligned |
| `MigSystem.SectionsOnce` | gim/gim_shim/gim_mig.c:245-478 | every run: context, static and dynamic section each travel in at most one message; pending and copied masks stay disjoint on them |
| `MigSections.QueryPends` | gim/gim_shim/gim_mig.c:432-478 | after a query context and static data, and in the last phase dynamic data, are pending or were copied; the bitmap is pending if a page is dirty; nothing else is asked for |
| `MigSections.QueryGathers` | gim/gim_shim/gim_mig.c:78-97 | every query moves the hardware's pages to the shadow bitmap, a merging one keeps those there, and no other page appears; a size query asks for nothing |
| `MigSections.PrecopyNoDynamic` | gim/gim_shim/gim_mig.c:451-458 | on every run without a query of the last phase the dynamic data is in no message and not pending |
| `MigSections.TakenIsSent` | gim/gim_shim/gim_mig.c:245-478 | with nothing under way the target has taken exactly the once-only sections that were sent, each of them sent in exactly one message |
| `MigSections.MessagesNumbered` | gim/gim_shim/gim_mig.c:323 | every run: the n-th message carries the n-th number behind the first, in 64 bits |
| `MigSections.OnlyTouchedPages` | gim/gim_shim/gim_mig.c:78-97 | every run on any device: only pages that were dirty at the start or written since are reported or sent |
| `MigSystem.RoundConservesBytes` | gim/gim_shim/gim_mig.c:306-326 | every run: at a done point the source has put message size plus page size times the bitmap's population count, the announced length |
| `MigSystem.NextInv` | gim/gim_shim/gim_mig.c:885-1222 | the invariant behind these holds after every step: bytes under way, decoded, put the target in step with the source |
| `MigSystem.RunInv` | gim/gim_shim/gim_mig.c:885-1222 | and so over every run |
| `MigSystem.NextDirty` | gim/gim_shim/gim_mig.c:78-97 | every step forgets no page, if an overwriting query finds each shadow page also in the hardware bits or the bitmap of the round under way |
| `MigSystem.OverwriteKeepsIff` | libgv/core/hw/navi3/navi32_dirtybit.c:476-478 | a query that clears the shadow bitmap first keeps the no-loss invariant, for every content of the framebuffer, iff each page in the shadow is in the hardware bits or still to be sent in the round under way |
| `MigSystem.ContentIsFree` | gim/gim_shim/gim_mig.c:885-956 | the framebuffer contents that statement ranges over are all allowed by the invariant |
| `MigSystem.AlternatingKeeps` | gim/gim_shim/gim_mig.c:78-97 | if a message is exported between any two queries, and the size is not queried, every query finds the shadow bitmap empty, so the guard holds before each of them |
| `MigSystem.AlternatingConverges` | libgv/core/hw/navi3/navi32_dirtybit.c:476-478 | on every device, overwriting ones included, a session in which queries and exports alternate converges |
| `MigSystem.LostStaysLost` | libgv/core/hw/navi3/navi32_dirtybit.c:476-478 | a page lost that way stays lost until the guest writes it again |
| `MigSystem.TwoOverwritingQueriesLose` | libgv/core/hw/navi3/navi32_dirtybit.c:476-478 | on such a device two queries before the first export lose every page that differed, in every session |
| `MigRefine.SourceTurnRuns` | gim/gim_shim/gim_mig.c:1183-1222 | a turn of the source thread, as the class performs it, is a run of page steps of the system |
| `MigRefine.TargetTurnRuns` | gim/gim_shim/gim_mig.c:1183-1222 | so is a turn of the target thread |
| `MigRefine.TurnAccepted` | gim/gim_shim/gim_mig.c:159-243 | no duplicate, version, checksum, bounds or granularity check fires in a session, whatever bytes the next turn takes |
| `MigRefine.NeverRejected` | gim/gim_shim/gim_mig.c:1203-1211 | no reachable state has an abnormal target thread |
| `MigProgress.SessionExists` | gim/gim_shim/gim_mig.c:1260-1300 | any two framebuffers can start a session |
| `MigProgress.NeverStuck` | gim/gim_shim/gim_mig.c:1018-1222 | no deadlock: in every reachable state with bytes under way or pages to send, some thread or user step can be taken |
| `MigProgress.EveryMoveAdvances` | gim/gim_shim/gim_mig.c:1018-1222 | every step that moves bytes, in whatever piece, lowers a well-founded measure, so no schedule keeps a round from draining |
| `MigProgress.CanDrain` | gim/gim_shim/gim_mig.c:1018-1222 | from every reachable state everything under way can be brought to the target without a guest step or query |
| `MigProgress.CanFinish` | gim/gim_shim/gim_mig.c:432-1222 | from every reachable state, on either kind of device, a run without guest writes ends with equal framebuffers and with context, static and dynamic data at the target, each having been in exactly one message; on an overwriting device where no page waits in the shadow without the bitmap being pending |
| `MigProgress.MigrationCompletes` | gim/gim_shim/gim_mig.c:432-1222 | the same after any run at all, nothing rejected; on an overwriting device after any run in which queries and exports alternate, using such queries only |
| `MigUser.CountIsRightIff` | gim/gim_shim/gim_mig.c:1148-1180 | the count is assigned, not added to: with a peer that moves in between, the returned count is the bytes moved iff the first turn met the request or no second turn moved anything |
| `MigUser.WriteIntactIff` | gim/gim_shim/gim_mig.c:668-692 | the write loop passes the same buffer each time: every buffer of a length arrives unchanged iff the first turn that finds room finds room for all of it |
| `MigRounds.AccountsIff` | gim/gim_shim/gim_mig.c:1107-1146 | over any rounds and copies of any sizes: `left_bytes_fd` is the number of bytes left in the round after every copy iff no copy goes past the end of a round and the first of each takes in the header's length field, unless the round is as long as the last one |
| `MigRounds.SeenIff` | gim/gim_shim/gim_mig.c:496-510 | the length is picked up iff the block reaches to byte 16, from bytes 8 to 15 |
| `MigRounds.OverreadRefuses` | gim/gim_shim/gim_mig.c:568-571 | a read past the end of a round leaves a negative count: every later read is refused |
| `MigRounds.RightIsServed` | gim/gim_shim/gim_mig.c:568-571 | while the count is right no read is refused |
| `MigRounds.ShortStartRefuses` | gim/gim_shim/gim_mig.c:1128-1143 | so does a first read of a session that is shorter than the length field's end |
| `MigRounds.RemainingIs` | gim/gim_shim/gim_mig.c:480-494 | with a right count the two numbers reported are what is left of the message and of its pages |
| `MigRounds.HeaderAnnounces` | gim/gim_shim/gim_mig.c:306-326 | the length field of an exported message is the length of its round |
| `MigRounds.ReadsAreRound` | gim/gim_shim/gim_mig.c:1183-1222 | from a message started on an empty ring until it is sent and read, what user space reads in whatever pieces is a round: whole pages, of the number its header announces |
| `DiagRing.MaskIsModulo` | libgv/core/amdgv_diag_data_host_drv.h:70-73 | for powers of two the mask is the remainder |
| `DiagRing.IndexIsModulo` | libgv/core/amdgv_diag_data_host_drv.h:70-73 | for every capacity, power of two or not, the macro is the remainder |
| `DiagRing.NextIndex` | libgv/core/amdgv_diag_data_host_drv.h:74-76 | the keep-first index advances by one, and from the last slot to the first that is not kept |
| `DiagRing.LinearIsRetained` | libgv/core/amdgv_diag_data.c:403-453 | for every number of writes, each under its own index: the first kept entries, then the most recent others, oldest first (for the writers as they are see `DiagLoggers` and `DiagPostLog`) |
| `DiagRing.LinearBytesAre` | libgv/core/amdgv_diag_data.c:403-453 | the same for the bytes in memory, under the same condition |
| `DiagRing.LinearSize` | libgv/core/amdgv_diag_data.c:468-472 | the bytes copied are min(written, capacity) entries |
| `DiagRing.LinearKeepsChecksum` | libgv/core/amdgv_diag_data.c:455-486 | the checksum taken over the raw ring is that of the bytes as they stand in the file |
| `DiagRing.FtraceCopy` | gim/gim_shim/gim_ftrace.c:506-546 | the caller's buffer receives the longest prefix of the linearised log that fits, and nothing else is written |
| `DiagRing.CopyTwo` | gim/gim_shim/gim_ftrace.c:524-545 | two blocks copied with a shrinking remainder are the prefix of their concatenation |
| `DiagLoggers.SameSlot` | libgv/core/amdgv_diag_data_host_drv.h:70-76 | the different macros the three writers use name the same slot |
| `DiagLoggers.RecordedIs` | libgv/core/amdgv_diag_data_host_drv.c:524-526 | writes one at a time fill the ring as the true number of writes would, beyond 2^32 if the restart of the count fits the ring |
| `DiagLoggers.RecordedLinear` | libgv/core/amdgv_diag_data_host_drv.c:531-592 | so the log is copied out in order |
| `DiagLoggers.RestartKeepsOrderIff` | libgv/core/amdgv_diag_data_host_drv.c:577-579 | for every log, however long, order survives the count starting over iff 2^32 minus the kept entries is a multiple of the entries that are not kept |
| `DiagLoggers.ShippedRings` | libgv/core/amdgv_diag_data_host_drv.h:19-23 | that holds of the error dump and not of the POST log |
| `DiagLoggers.BatchesRightIff` | libgv/core/amdgv_diag_data_host_drv.c:467-529 | over runs of calls: the log is right after each of them for all entries iff no call adds two entries at once, or only where all slots that are not kept are one, and the count does not start over or does so where it fits |
| `DiagLoggers.MissingEntry` | libgv/core/amdgv_diag_data_host_drv.c:487-493 | an entry that is not the last of its batch and should be retained is missing |
| `DiagLoggers.TwoErrorsAtOnce` | libgv/core/amdgv_diag_data_host_drv.c:487-529 | two errors added by one call to an empty error dump: the first is gone and a stale slot is reported |
| `DiagLoggers.HostLog.constructor` | libgv/core/amdgv_diag_data_host_drv.c:25-86 | nothing written or read yet |
| `DiagLoggers.HostLog.AddErrors` | libgv/core/amdgv_diag_data_host_drv.c:467-529 | the loop drains what lies between the two 32-bit counts, or all but one entry of the error buffer if it was overrun, into one slot, and counts each |
| `DiagLoggers.DrainedAre` | libgv/core/amdgv_diag_data_host_drv.c:467-529 | on an error buffer of a power of two entries a call drains, in order, exactly the errors written since the last one, or if it was overrun the last of them, one fewer than it holds |
| `DiagLoggers.HostLog.AddTraceLog` | libgv/core/amdgv_diag_data_host_drv.c:531-592 | one entry goes under its index and is counted |
| `DiagPostLog.PostLog.constructor` | libgv/core/amdgv_diag_data_host_drv.c:25-86 | an empty POST log |
| `DiagPostLog.PostLog.VbiosPostStart` | libgv/core/amdgv_diag_data_host_drv.c:120-144 | the header takes the kept slot, the count is one, nothing else changes |
| `DiagPostLog.PostLog.VbiosPostEnd` | libgv/core/amdgv_diag_data_host_drv.c:107-118 | only the count is cleared |
| `DiagPostLog.PostLog.AddVbiosPostLog` | libgv/core/amdgv_diag_data_host_drv.c:146-214 | the entry is written before it is compared with the one logged last; a similar one wipes the slot and does not count |
| `DiagPostLog.OverlayIs` | libgv/core/amdgv_diag_data_host_drv.c:167-190 | byte by byte what the slot holds then: the entry, but for the data bytes the operation does not have, which stay |
| `DiagPostLog.SimilarIff` | libgv/core/amdgv_diag_data_host_drv.c:191-198 | two entries count as the same iff they differ in the time stamp at most |
| `DiagPostLog.PostInOrder` | libgv/core/amdgv_diag_data_host_drv.c:120-214 | after any POST the counted entries are copied out in order, except that one dropped just before wipes the oldest of them once the ring is full |
| `DiagPostLog.NextPostIsEmptyIff` | libgv/core/amdgv_diag_data_host_drv.c:107-214 | whatever its operations are, the next POST logs nothing iff the slot logged last is the first behind the header |
| `DiagBlocks.EncodeConcat` | libgv/core/amdgv_diag_data.c:603-632 | a log appended to another is the log of both, at the shifted offset |
| `DiagBlocks.BlockInMemory` | libgv/core/amdgv_diag_data.c:123-180 | where a block has signature, id, size, next offset, checksum, flags and data |
| `DiagBlocks.WalkEncoded` | libgv/core/amdgv_diag_data.c:123-180 | following next offsets visits every block once, in order, and ends exactly at the end of the file |
| `DiagBlocks.PatchHeader` | libgv/core/amdgv_diag_data.c:387-398 | updating a header word in place changes that word only |
| `DiagFile.DiagFile.constructor` | libgv/core/amdgv_diag_data.c:515-522 | an empty log on a buffer |
| `DiagFile.DiagFile.GenBlkFileHdr` | libgv/core/amdgv_diag_data.c:123-180 | header written at the cursor iff there is some data, no 32-bit overflow and room; otherwise nothing changes |
| `DiagFile.DiagFile.RoomIs` | libgv/core/amdgv_diag_data.c:131-150 | the three checks together: some data, no 32-bit overflow, header and data fit behind the cursor |
| `DiagFile.DiagFile.AddBlk` | libgv/core/amdgv_diag_data.c:321-349 | the log grows by one block with these bytes and their checksum, or nothing changes |
| `DiagFile.DiagFile.AddBlkWithoutHdr` | libgv/core/amdgv_diag_data.c:351-401 | the last block grows by these bytes, its size, next offset and checksum following, or nothing changes |
| `DiagFile.DiagFile.Copy` | libgv/core/amdgv_diag_data.c:403-453 | the ring is appended in order, kept part, oldest part, newest part |
| `DiagFile.DiagFile.AddRingBuffer` | libgv/core/amdgv_diag_data.c:455-486 | a ring log becomes one block with this id, stamp, flags and checksum; without memory the header alone is written, its next offset points past the cursor, and a walk that starts at it yields nothing |
| `DiagFile.Checksum` | libgv/core/amdgv_vfmgr.c:2814-2835 | the byte sum, as a 32-bit loop |
| `DiagCollect.UpdateCacheBlockHeader` | libgv/core/amdgv_diag_data.c:489-505 | every header of a cached log is relocated; its flags keep their bits and gain those of the type from bit 24 on; data and what lies behind the log stay |
| `DiagCollect.CopyCacheLogs` | libgv/core/amdgv_diag_data.c:603-632 | the logs that still fit follow each other, relocated; the bytes in front stay |
| `DiagCollect.TagFlagsBits` | libgv/core/amdgv_diag_data.c:489-505 | bit by bit: flags or the type shifted by 24 |
| `DiagCollect.ChosenIs` | libgv/core/amdgv_diag_data.c:603-632 | a log is in the file iff it fits behind those taken before it, and its blocks follow each other with the bits of its type |
| `DiagCollect.AllTaken` | libgv/core/amdgv_diag_data.c:603-632 | logs that fit together are all taken |
| `DiagCollect.Collect` | libgv/core/amdgv_diag_data.c:634-682 | walking from the file header yields, in order, exactly the blocks of each log that fits behind those taken before it, their flags with the bits of their log's type, and ends at the returned length; the file header holds signature, version, date, ids and size; 0 iff there is none |
| `SentinelIndex.InsertTakesLeast` | gim/gim_shim/gim_memory_sentinel.c:499-551 | insert takes the least free index, changes no other, keeps the three levels consistent; it fails iff every created table is full |
| `SentinelIndex.RemoveFreesOne` | gim/gim_shim/gim_memory_sentinel.c:782-790 | remove frees exactly that index and clears its entry |
| `SentinelIndex.RemoveUndoesInsert` | gim/gim_shim/gim_memory_sentinel.c:499-551 | removing what was just inserted restores all three levels and every entry |
| `SentinelIndex.ExtendAdds` | gim/gim_shim/gim_memory_sentinel.c:352-372 | a new table adds exactly its 4096 indices to the free ones |
| `SentinelIndex.InitOk` | gim/gim_shim/gim_memory_sentinel.c:248-266 | fresh tables: every index of theirs is free and no other |
| `SentinelHeap.Sentinel.constructor` | gim/gim_shim/gim_memory_sentinel.c:374-439 | four tables, nothing live |
| `SentinelHeap.Sentinel.ExtendTable` | gim/gim_shim/gim_memory_sentinel.c:352-372 | the live allocations and the index still agree after an extension; the 65th table is refused |
| `SentinelHeap.Sentinel.InsertEntry` | gim/gim_shim/gim_memory_sentinel.c:499-551 | the bit operations on the three words are the insertion on the free set |
| `SentinelHeap.Sentinel.RemoveEntry` | gim/gim_shim/gim_memory_sentinel.c:751-795 | the bit operations are the removal; a bad index or an internal entry named from outside is refused |
| `SentinelHeap.Sentinel.MallocHelper` | gim/gim_shim/gim_memory_sentinel.c:553-588 | a new live allocation under the least free index, in either layout, with the words that free looks for; or, with full tables, the unmonitored block; all other user data stays |
| `SentinelHeap.Sentinel.GetEntryByIndex` | gim/gim_shim/gim_memory_sentinel.c:115-132 | an entry is found iff its table exists |
| `SentinelHeap.Sentinel.FreeHelper` | gim/gim_shim/gim_memory_sentinel.c:867-940 | without the table-search fallback, whatever memory holds: a live pointer is freed iff its header bytes are those of malloc, no other pointer is; its original base is returned and only its entry goes; the warning is given iff the eight bytes behind the region are not those of malloc |
| `SentinelHeap.Sentinel.UserWrite` | gim/gim_shim/gim_memory_sentinel.c:553-588 | a user writing inside its region disturbs no header, rear word or other region |
| `SentinelHeap.Sentinel.WriteThenFree` | gim/gim_shim/gim_memory_sentinel.c:867-940 | a user writes from inside its region on, perhaps over its end, and frees: the free succeeds and warns iff the write changed a byte behind the region |
| `SentinelHeap.IsU64Iff` | gim/gim_shim/gim_memory_sentinel.c:928 | the comparison of the rear word is one of eight bytes |
| `SentinelHeap.IntactIff` | gim/gim_shim/gim_memory_sentinel.c:867-925 | the two words read from the header are its eight bytes |
| `SentinelHeap.LayoutIs` | gim/gim_shim/gim_memory_sentinel.c:553-588 | both layouts: eight bytes or a page in front, eight bytes or a page behind |
| `SentinelHeap.PagesAligned` | gim/gim_shim/gim_memory_sentinel.c:553-588 | a page-aligned block gives a page-aligned user pointer |
| `SentinelHeap.WordsApart` | gim/gim_shim/gim_memory_sentinel.c:553-588 | no live user region overlaps any header or rear word |
| `SentinelHeap.OwnIndex` | gim/gim_shim/gim_memory_sentinel.c:553-588 | two live allocations never share an index |
| `SentinelHeap.CheckedEntryIsLive` | gim/gim_shim/gim_memory_sentinel.c:867-925 | an entry that passes free's checks for a pointer is that of the live allocation at the pointer, whatever the header said |
| `GpaMap.ChunkOf` | gim/gim_shim/gim_os_service.c:2459-2513 | the chunks partition the range: every byte lies in exactly one |
| `GpaMap.ReadAfterWriteIff` | gim/gim_shim/gim_os_service.c:2584-2651 | reading back returns what was written, for every buffer, iff no two written offsets share a physical byte |
| `GpaMap.ReadElsewhere` | gim/gim_shim/gim_os_service.c:2584-2651 | a range sharing no physical byte with a write reads the same before and after |
| `GpaMap.WriteBlock` | gim/gim_shim/gim_os_service.c:2584-2651 | a block copy inside a chunk is the byte-by-byte write through the map |
| `GpaMap.WriteAppend` | gim/gim_shim/gim_os_service.c:2584-2651 | two writes behind each other are one |
| `GpaMap.ReadAppend` | gim/gim_shim/gim_os_service.c:2584-2651 | two reads behind each other are one |
| `GpaExchange.GpaExchange.InitGpaChunks` | gim/gim_shim/gim_os_service.c:2459-2513 | on success no gap and no overlap, each chunk where translation put its first byte, at a valid address that is not 0; on failure the first byte not covered is one without such an address |
| `GpaExchange.AllTranslatedIff` | gim/gim_shim/gim_os_service.c:2459-2513 | only the first byte of a chunk is translated: every byte of the range is where translation puts it iff inside each chunk translation goes on as it began |
| `GpaExchange.GpaExchange.CopyInChunk` | gim/gim_shim/gim_os_service.c:2608-2642 | the page loop inside a chunk is one block copy |
| `GpaExchange.GpaExchange.Access` | gim/gim_shim/gim_os_service.c:2584-2651 | an access at any offset and size, across pages and chunks, is a copy on one flat byte array; past the end it stops there and fails |
| `GpaExchange.GpaExchange.Checked` | gim/gim_shim/gim_os_service.c:2653-2689 | what is returned and what is moved, for reads and writes and every offset and length: all bytes, none, or those up to the end of the range; nothing else changes |
| `GpaExchange.MovedIs` | gim/gim_shim/gim_os_service.c:2653-2689 | all of them if the range holds them, those up to its end if the 32-bit sum wraps below the size, otherwise none |
| `GpaExchange.FailsCleanlyIff` | gim/gim_shim/gim_os_service.c:2653-2689 | an access that fails leaves memory and buffer as they were, whatever they hold, iff the sum does not wrap past the check |
| `GpaExchange.WrappingAccess` | gim/gim_shim/gim_os_service.c:2653-2689 | one that does: offset 0x800 and length 0xfffff900 in a range of 0x1000 bytes |
| `GpaExchange.GpaExchange.GpaToSpa` | gim/gim_shim/gim_os_service.c:2691-2710 | the address and size of a chunk, or failure past the last |
| `ConfigText.DecRoundTrip` | gim/gim_shim/gim_config.c:628-652 | printing an int and parsing it gives the int |
| `ConfigText.ReadsIff` | gim/gim_shim/gim_config.c:628-652 | a field is a number iff it is an optional sign, digits and an optional newline, with a value in range |
| `ConfigText.KeyWithTail` | gim/gim_shim/gim_config.c:577-591 | a key matches with letters of either case and anything behind the name |
| `ConfigText.OtherKey` | gim/gim_shim/gim_config.c:577-591 | and not with another letter or one missing |
| `ConfigText.TokensAppend` | gim/gim_shim/gim_config.c:701-710 | text ending in a delimiter is tokenised apart from what follows |
| `ConfigText.FieldsOfJoin` | gim/gim_shim/gim_config.c:632-652 | the printed values of an array option come apart into themselves |
| `Config.SaveParseRoundTrip` | gim/gim_shim/gim_config.c:694-917 | for every table and every state initialisation leaves: parsing the printed text gives back every persistent option, repeated tail and count included, and leaves the others alone |
| `Config.ArrayComesBackIff` | gim/gim_shim/gim_config.c:618-654 | an array option survives printing and parsing iff its values are in range, its count is 1 to 32 and its tail repeats the last value |
| `Config.SetFirstComesBackIff` | gim/gim_shim/gim_config.c:606-615 | after a run-time change, which sets the first value only, an array option survives iff more than one value was given or the value did not change |
| `Config.RefilledIs` | gim/gim_shim/gim_config.c:771-813 | maximum or default for all values of the persistent options but the first; nothing else changes |
| `Config.SampleLine` | gim/gim_shim/gim_config.c:876-905 | a line as it stands in the file |
| `Config.LineTokens` | gim/gim_shim/gim_config.c:876-905 | a printed line is exactly a key and a value to the parser |
| `Config.ParseAppend` | gim/gim_shim/gim_config.c:694-769 | parsing the rest of a file continues from what the first part gave |
| `Config.ParseKeepsOk` | gim/gim_shim/gim_config.c:694-769 | whatever the file holds, and whatever the uninitialised number holds, parsing leaves options in range and well formed |
| `Config.StaleTailDecides` | gim/gim_shim/gim_config.c:844-860 | the file is not truncated on writing: what a longer older file leaves behind is parsed on top of what was saved |
| `ConfigJunk.ParseIsSoiled` | gim/gim_shim/gim_config.c:694-769 | the parse is that in which unreadable numbers are skipped, with the uninitialised value put into the options whose last effective line was one, where their ranges let it in |
| `ConfigJunk.JunkMattersIff` | gim/gim_shim/gim_config.c:735-760 | the result does not depend on the uninitialised value iff there is no such option whose range leaves room for a difference |
| `ConfigTable.BuiltInGood` | gim/gim_shim/gim_config.c:37-283 | in the built-in table every persistent option is found under its own name, not under an earlier prefix |
| `ConfigTable.BuiltInExists` | gim/gim_shim/gim_config.c:37-283 | whatever the ranges of the options that are not persistent, there is such a table with them |
| `ConfigTable.BuiltInFits` | gim/gim_shim/gim_config.c:862-917 | its text is at most 166 of the 1024 characters |
| `ConfigTable.BuiltInAlwaysFits` | gim/gim_shim/gim_config.c:862-917 | so no text the built-in table prints reaches the limit of 1024 characters |
| `ConfigTable.OverwrittenReadsBackIff` | gim/gim_shim/gim_config.c:844-860 | saved over a file k characters longer: read back as saved if k is at most 1, with older trailing lines overriding if k is 10, 11, 34, 35, 63 or 64, and with every option reset for any other k |
| `ConfigFile.GimConf.constructor` | gim/gim_shim/gim_config.c:37-283 | the table as compiled in |
| `ConfigFile.GimConf.SearchConfigKey` | gim/gim_shim/gim_config.c:577-591 | the first option whose name starts the key, letter case aside |
| `ConfigFile.GimConf.HandleArrayToken` | gim/gim_shim/gim_config.c:618-654 | up to 32 fields in order: each its number if it is one and in range, else the default; the last one repeated |
| `ConfigFile.GimConf.NextToken` | gim/gim_shim/gim_config.c:701-710 | the next non-empty token and what is left behind it |
| `ConfigFile.GimConf.TruncConfFile` | gim/gim_shim/gim_config.c:668-692 | the nested loops end with every value a reader of the options can see at its default, repeat counts and what lies behind a single value kept, and the file empty |
| `ConfigFile.EmptyFileLoads` | gim/gim_shim/gim_config.c:668-769 | with the file emptied a later start finds every option at its default |
| `ConfigFile.GimConf.ParseConfFile` | gim/gim_shim/gim_config.c:694-769 | the cursor loop computes the parse of the token list; an unknown or non-persistent key empties the file |
| `ConfigFile.GimConf.LineText` | gim/gim_shim/gim_config.c:876-905 | the printing loop yields the line of an option |
| `ConfigFile.GimConf.Print` | gim/gim_shim/gim_config.c:862-908 | one line per persistent option, in table order |
| `ConfigFile.GimConf.Save` | gim/gim_shim/gim_config.c:844-917 | the text replaces the start of an existing file; without a file nothing is written |
| `ConfigFile.GimConf.SetArrayValue` | gim/gim_shim/gim_config.c:919-960 | each value given becomes itself if in range, else the default, up to 32 of them; the last one repeats; a changed number of VFs is noted |
| `ConfigFile.GimConf.SetOpt` | gim/gim_shim/gim_config.c:1450-1469 | a value in range is set in first place and, if persistent, saved; otherwise nothing changes |
| `ConfigFile.GimConf.Refill` | gim/gim_shim/gim_config.c:771-813 | all values of a persistent option but the number of VFs are at its maximum, or its default; the others stay |
| `ConfigFile.GimConf.Init` | gim/gim_shim/gim_config.c:962-1175 | every option holds what its last argument says, without one what the file or its absence says; but where a file was read and an argument changed the number of VFs the other persistent options are at their defaults; the result is saved and is always a state that printing and parsing preserve |
| `ConfigFile.InitialisedSettled` | gim/gim_shim/gim_config.c:962-1175 | the same of the value computed, for every option |
| `ConfigFile.FirstStart` | gim/gim_shim/gim_config.c:771-787 | without file and argument a persistent option but the number of VFs is at its maximum, any other at its default |
| `ConfigFile.AppliedChanges` | gim/gim_shim/gim_config.c:919-960 | the note taken along the way is that some argument gave the number of VFs a value other than before |
| `CperTime.FillTimestamp` | libgv/core/amdgv_cper.c:36-80 | for every timestamp the fields are those of the valid Gregorian date with that number of seconds; year and century bytes are right iff the year is below 25600 |
| `CperTime.FindYear` | libgv/core/amdgv_cper.c:45-55 | the year loop ends with the year and the day in it |
| `CperTime.FindMonth` | libgv/core/amdgv_cper.c:57-65 | the month loop never leaves the table and ends with a valid month and day |
| `CperTime.DatesDiffer` | libgv/core/amdgv_cper.c:36-80 | two valid dates with the same number of seconds are equal, so the conversion can be undone |
| `CperRing.Cper.constructor` | libgv/core/amdgv_cper.c:368-384 | an empty ring of the configured or the allowed size |
| `CperRing.Cper.ImportLiveData` | libgv/core/amdgv_cper.c:669-704 | the write pointer moves, the slots keep what they hold: the log becomes what they amount to, holes on a fresh ring |
| `CperRing.Cper.CommitEntry` | libgv/core/amdgv_cper.c:307-325 | the record is appended to the log; the ring holds its most recent part |
| `CperRing.Cper.GetCount` | libgv/core/amdgv_cper.c:405-435 | records still held from the cursor on, and their size |
| `CperRing.Cper.GetEntries` | libgv/core/amdgv_cper.c:437-483 | the longest run of records from the cursor that fits, in commit order; what was lost before it and the size of what is left |
| `CperRing.RecordStands` | libgv/core/amdgv_cper.c:437-483 | each record of a page stands whole at the place the sizes of those before it give |
| `CperRing.FirstIsHeld` | libgv/core/amdgv_cper.c:405-435 | a page starts with the first record from the cursor on whose slot was not used again |
| `CperRing.PageIsLongest` | libgv/core/amdgv_cper.c:463-472 | a page fits, and the next record would not |
| `CperRing.CountIsWrittenPlusLeft` | libgv/core/amdgv_cper.c:405-483 | the size announced is the bytes written plus the size left |
| `CperRing.CursorIsRightIff` | libgv/core/amdgv_cper.c:437-483 | with h holes in front, the cursor advanced by overflow and write count is where the page ended, for a page of any size, iff the first record still held is behind them |
| `CperRing.FreshImport` | libgv/core/amdgv_cper.c:669-704 | an import on a fresh ring leaves a log of holes |
| `CperRing.CursorAfterImportIff` | libgv/core/amdgv_cper.c:437-483 | after it and any commits a reader's cursor is right iff it has passed the imported count or as many records were committed as the ring holds |
| `CperRing.StuckCursor` | libgv/core/amdgv_cper.c:437-483 | one record imported and a reader that starts at 0: the page ends at 1 and the cursor stays |
| `CperRing.CountsAllIff` | libgv/core/amdgv_cper.c:463-472 | as many records as numbers iff there is no hole |
| `CperRing.PagingAccounts` | libgv/core/amdgv_cper.c:307-483 | over every run of commits and pages of any size without holes: each record at or after the cursor is delivered once, in order, or counted as lost |
| `CperFilter.FilteredParses` | libgv/core/amdgv_cper.c:584-631 | the record for the VF parses to exactly the allowed sections, in order, with right count, length and offsets |
| `CperFilter.PatchedDescReads` | libgv/core/amdgv_cper.c:549-573 | a patched descriptor differs only in bytes 0 to 3, the offset, in bit 0 of byte 10 and in bytes 32 to 47, the serial number |
| `CperFilter.PatchedHeaderReads` | libgv/core/amdgv_cper.c:525-547 | a patched header differs only in bytes 10 and 11, the count, and 20 to 23, the length |
| `CperFilter.ChosenFacts` | libgv/core/amdgv_cper.c:600-602 | the allowed sections, each once, in order |
| `CperFilter.LayoutIs` | libgv/inc/amd_cper.h:123-151 | descriptors of 72 bytes behind a header of 128, offset and length first |
| `CperFilter.PutBackIsSameIff` | libgv/core/amdgv_cper.c:549-573 | the valid bit is set, not restored, afterwards: the host's record is unchanged iff that bit was set in every section copied, and nothing else can differ |
| `CperPatch.VfCopy.Copy` | libgv/core/amdgv_vfmgr.c:1079-1088 | checksum over the bytes, copied or refused |
| `CperPatch.VfCopy.PatchHdr` | libgv/core/amdgv_cper.c:525-547 | patched header out, host's header as before |
| `CperPatch.VfCopy.PatchDesc` | libgv/core/amdgv_cper.c:549-573 | patched descriptor out, host's descriptor put back |
| `CperPatch.VfCopy.PatchOne` | libgv/core/amdgv_cper.c:604-619 | section and descriptor in their places; the host's descriptor put back on success and left alone on failure |
| `CperPatch.VfCopy.PatchTurn` | libgv/core/amdgv_cper.c:600-620 | one turn of the loop over the sections, allowed or not |
| `CperPatch.VfCopy.PatchToVf` | libgv/core/amdgv_cper.c:584-631 | it succeeds iff none of its copies is refused; on success the exchange area holds the filtered record and the cursor stands behind it; on failure the cursor stays; either way the host's record is put back |
| `Dirtybit.OrWord` | libgv/core/amdgv_dirtybit.c:219-222 | or-ing a word is or-ing its four bytes |
| `Dirtybit.OrInto` | libgv/core/amdgv_dirtybit.c:181-233 | word loop and byte tail are a bytewise or of the window; nothing outside changes |
| `Dirtybit.ByteSizeBits` | libgv/core/amdgv_dirtybit.h:18-19 | eight pages a byte: the bytes of a size hold its pages in whole groups of eight |
| `Dirtybit.OrAtBits` | libgv/core/amdgv_dirtybit.c:181-233 | or-ing bytes is or-ing the bits of the window and no others |
| `Dirtybit.CarvedApart` | libgv/core/amdgv_dirtybit.c:81-113 | framebuffer ranges that do not overlap get regions that do not, truncation included |
| `Dirtybit.WindowInside` | libgv/core/amdgv_dirtybit.c:181-233 | a query inside a VF's framebuffer stays inside its region |
| `Dirtybit.AccBits.AssignAccBitsToVf` | libgv/core/amdgv_dirtybit.c:81-113 | one region per VF with a bit for each page of whole groups of eight, starting with that of its first page in its group; regions apart |
| `Dirtybit.AccBits.MergeBitmap` | libgv/core/amdgv_dirtybit.c:181-245 | page by page: in either direction a bit of the window is set afterwards iff it was set on one of the two sides, where the window is the pages of whole groups of eight; all other bits, and other VFs' regions, stay |
| `Dirtybit.AccBits.SetVfAccBits` | libgv/core/amdgv_dirtybit.c:137-146 | one region filled, the others kept |
| `Dirtybit.AccBits.QueryAndAccumulate` | libgv/core/amdgv_dirtybit.c:325-346 | success merges the window, page by page; any failure sets every bit of the region; other regions stay |
| `Dirtybit.SetQueryBufferToDirty` | libgv/core/amdgv_dirtybit.c:253-285 | exactly the bits of the queried pages in the bytes that hold them; the bytes behind keep what they held |
| `DirtyRuns.NoPageLost` | libgv/core/amdgv_dirtybit.c:325-427 | over every run of writes, queries on whole bytes, failures and clears: every page dirtied since the last clear is in the hardware bits or the accumulated ones |
| `DirtyRuns.QueryVf` | libgv/core/amdgv_dirtybit.c:325-346 | the driver's query and accumulation, in bytes of the framebuffer and on the hardware's answer bit by bit, is a step of these runs, failure included |
| `DirtyRuns.ClearVf` | libgv/core/amdgv_dirtybit.c:400-427 | so is its clear |
| `DirtyRuns.WindowIsRecorded` | libgv/core/amdgv_dirtybit.c:325-427 | after a clearing query of whole bytes each page of the window written since the last clear is in the accumulated bits |
| `DirtyRuns.QueryKeepsIff` | libgv/core/amdgv_dirtybit.c:181-233 | a clearing query loses no page, whatever the state, iff its window is made of whole bytes of the bitmap |
| `SetBits.Ffs` | libgv/core/amdgv_device.h:115-149 | the lowest set bit, counted from one, 0 for none |
| `SetBits.FillIs` | libgv/core/amdgv_device.h:152-169 | every entry of the table is 2^32 - 2^(i+1) |
| `SetBits.FillBeyond` | libgv/core/amdgv_device.h:164-165 | an index past the table fills nothing |
| `SetBits.FilledBits` | libgv/core/amdgv_device.h:152-169 | masking keeps exactly the bits above i |
| `SetBits.ForEachId` | libgv/core/amdgv_device.h:182 | every set bit, bit 31 included, once, in increasing order |

## Left out

Migration:
- Sleeping, wait queues, timeouts, abort requests and scheduler-state checks: only enabled steps are modelled.
- Failures of the device (framebuffer copy, export of firmware data, queries): the device's answers are parameters that succeed.
- The VFIO state handlers and the ioctl interface; of the file's byte accounting the reset between sessions.
- Memory ordering and true concurrency: each thread turn and each user copy is one atomic step, except in `MigUser`, where the peer moves between the turns of one copy.
- VfDataImport: 64-bit wrap of a section's offset plus length is not modelled; sums are unbounded.
- ImportedIff: the same.
- TargetCopy: a message whose bitmap section lies elsewhere than export puts it is accepted by import but excluded by its precondition; no session of `MigSystem` produces one (`TurnAccepted`).
- TargetThread: the same exclusion.
- MsgIn: the same exclusion.
- MsgOut: a thread that runs between rounds with nothing pending is excluded; `MessageOk` shows that no session has one.
- SourceCopy: the same exclusion.
- SourceThread: the same exclusion.
- UserCopy: the peer's pointer stands still during one copy; `MigUser` is about the other case.
- Converges: on overwriting devices the guard of `OverwriteKeepsIff` is asked of each query; where it fails a page can be lost for good.
- Page sizes the 4-bit granularity field cannot express, and framebuffers whose bitmap does not cover every page (`BitmapCoversIff` says which).
- The migration context's own contents and the hash-based dirty-page detection.

Diagnosis data:
- Register dumps, the collection of the activity buffer when no cached log exists, freeing of copied caches, locks.
- Block versions, time stamps and md5 are parameters.
- LinearIsRetained: each entry is written under its own index, which the error logger does not do for a batch (`BatchesRightIff` says what follows).
- AddErrors: the GPU time stamp, which is only replaced when one can be read, is part of the entry.
- AddVbiosPostLog: operations logged before the first `VbiosPostStart`, which the driver does not issue, are outside `PostInOrder`.

Memory sentinel:
- The overflow and leak scans, stack symbols, locks.
- FreeHelper: the table search for a pointer whose header is damaged is not modelled; its contract is that of the path before it.
- MallocHelper: allocations of 4 GiB and more, whose size does not fit the header, are excluded.
- ExtendTable: an allocation failure for the new table is not modelled; it changes nothing.

Guest memory:
- Mapping failures of a page, the xarray's own failures, reference counts of folios, wrap of guest addresses at 64 bits.

Configuration:
- Ranges of options that are not persistent are left open in the built-in table; the table is the one with the debugging options compiled in.
- Command-line options that are single numbers, none of which is persistent; I/O errors other than a missing file; a NUL character inside the file, where the parser would stop.
- Save: a text of 1024 characters or more, which no table with `Fits` can produce, is excluded (`BuiltInAlwaysFits`).
- Print: the same exclusion.
- Init: arguments that are single numbers are not among its parameters.
- Parse: the uninitialised number is one value per parse.

CPER:
- Record allocation and filling, the disabled ring, export of live data, crash-dump accessors.
- PatchToVf: what a refused copy left in the exchange area is not described, only that the cursor stays and the host's record is put back; an allowed count other than the number of flags is excluded.
- CommitEntry: records above the interface's own limit of 8 KiB are excluded.
- GetEntries: records above the interface's own limit of 8 KiB (`libgv/inc/amdgv_api.h:784`) are excluded, so that the 32-bit offset cannot wrap.

Dirty bits:
- QueryAndAccumulate: what the hardware wrote into the caller's bitmap is a parameter; a VF without a region is not modelled.
- MergeBitmap: a VF without a region, and a bitmap that is the region itself, for both of which the code does nothing, are excluded.
- NoPageLost: queries are on whole bytes of the bitmap; `QueryKeepsIff` shows that others lose pages.
- The hash state beside the accumulated bits and live export and import.

Wrappers that lock, call and unlock, enum conversions, logging and statistics are left out everywhere.
