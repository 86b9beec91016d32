# Verification of the K64F web server firmware

Dafny models of the parts of the firmware that carry state and loops, and proofs of
what they guarantee. `dafny verify dfyconfig.toml` checks everything.

**Interrupt handshakes** (`Sources/Events.c`). A port interrupt sets a `volatile` flag;
a timer interrupt tests it, clears it and drives an output. `Handshake.dfy` is the
transition system whose steps are single statements of either handler, so that a
schedule is any statement-level interleaving and every assignment of interrupt
priorities is covered. It is compared with a machine that executes handler bodies
atomically (linearizability, and the converse). `Guarantees.dfy` states what a press is
promised. `Lamps.dfy` composes two flags, the debounce loop and the two-lamp timer body
and projects every run onto two independent handshakes. `Activations.dfy` says what whole
activations of the card handler decide, read off its samples. `Events.dfy`, `Debounce.dfy`
and `Relay.dfy` are the handlers as code, proved against these machines; the relay pin has
a second writer, the relay page of `Sources/httpd.c`, which is modelled with it.

**PHY management driver** (`Sources/fsl_phy_driver.c`). The hardware is arbitrary: three
functions that answer each access depending on everything done before (`Smi.dfy`). The
log of accesses is the ghost record of frames and polls. `PhyInit.dfy` bounds the
bring-up, `PhyBringUp.dfy` characterises its success and its Reset frames,
`PhySharp.dfy` gives hardware on which these statements are sharp, `PhyLink.dfy` covers
the scan and the change detector, and `PhyDriver.dfy` is the code.

**ROM file system** (`Sources/fs.c`): `RomFs.dfy`, with files as a linked chain of
nodes, the custom hooks as parameters, and runs of reads, made by code.

**FatFs field access and cluster allocation** (`Middleware/fatfs/ff.h`, `ff.c`).
`FieldCodec.dfy` proves the byte-wise macros equal to direct little-endian access.
`FatTable.dfy` adds the three entry formats. `FatChain.dfy` has freeing and searching on
any table of links, corrupt ones included, and `FatBatch.dfy` the search for a run of
clusters that `f_write` makes in this configuration (`ffconf.h`, line 219), of which
`FatStretch.dfy` says, read off the table, which run it takes. `FatLinks.dfy`,
`FatVolume.dfy` and `FatClusters.dfy` are the code over bytes and a disk that may fail at
any access; `FatBlind.dfy` is about one failure that the code does not notice.
`FatFiles.dfy` has whole runs of creating, stretching, writing and deleting files,
`FatSuccess.dfy` says when the steps succeed, `FatDisk.dfy` takes them as code and says
what a disk failure leaves of the files, and `FatRuns.dfy` does so for whole runs.

`FatWindow.dfy`, `FatSectors.dfy` and `FatBuffers.dfy` are the layer below: the sector window
with its two labelled buffers, its dirty bits and the medium, on which a failed read leaves
anything in the buffer and a failed write anything on the medium. They prove when that window
is the flat table that the modules above work on: always, unless a read fails harmfully. This
is the **hypothesis of the flat table**, which every statement of `FatVolume`, `FatClusters`,
`FatBlind`, `FatDisk` and `FatRuns` about a failing disk stands under: *no read of a sector
fails while the buffer that is to give way to it holds a sector of the table, or while only
one buffer has ever been used* (`FatWindow.Harmless`). Failed writes need no hypothesis.

## What turned out not to hold

Each of these is proved, with the exact condition where there is one.

- `PHY_DRV_Write` polls for the flag to be clear. On hardware whose flag reports
  completion it succeeds exactly when the frame is not finished at the first poll
  (`WriteSucceedsOnlyUnfinished`), although the comment says that it waits for completion.
- `PHY_DRV_Init` reports a timeout although its last allowed control read saw Reset
  clear (`LateClearIsATimeout`); so at most N-1 reads can lead to success, and the tight
  bound on frames is 2N+4 (`InitBound`, `InitBoundIsTight`).
- The loopback frame repeats Reset when the re-read control word shows it
  (`ResetFrames`, `TwoResetFramesHappen`); a PHY that keeps Reset clear excludes it.
- A failed negotiation, or a failed re-read for loopback, does not show in the status of
  `PHY_DRV_Init` (`InitSucceedsIff`); both occur (`FailedNegotiationIsSuccess`,
  `FailedLoopbackIsSuccess`).
- `PHY_DRV_Autodiscover` never returns its discovery failure code; a scan that finds
  nothing can return Success (`EmptyScanCanSucceed`).
- `PHY_DRV_GetLinkStatus` returns Success without writing its result exactly when the
  control register shows Reset (`LinkUnwrittenIff`, `UnwrittenLinkHappens`).
- The speed bit of the status words is never cleared (`RecordSpeed`), so a call may
  report a change when the link did not rise (`ReportedIff`, `TruesCountRises`).
- `fs_open` leaves the cursor at the end of the file, so that every read behind it is an
  EOF (`OpenAndRead`). This fits the default of `fs.h`, lines 57-59, without dynamic reads;
  with them the built-in files cannot be read.
- The relay pin does not latch what the buttons decided last: a request to the relay page
  overrides them, and one that does not select the relay switches it off (`Happens`).
- `create_chain` can stretch a chain only if `last_clust` is neither 0, its value after
  mounting, nor all ones (`SearchFindsIff`); deleting a file without clusters sets it to
  all ones (`EmptyDeletionStopsStretching`). From a start beyond the table the search on
  a full volume never ends (`SearchNeverEndsIff`).
- `create_chain` does not check for a disk error when it reads the link of a cluster. The
  chain survives exactly if that read works, or no cluster is free, or a later access fails
  too and leaves the link as it was; on FAT12 that access may also leave it half written,
  to the same or another value (`Follow`, with the condition `Keeps` on the state before the
  call). Otherwise the chain is cut, and it happens (`CutHappens`).
  `create_chain_for_clusts` has the same fault (`FollowForRun`).
- `create_chain_for_clusts` subtracts from the free count what was asked for, not what was
  taken: an accurate count stays accurate exactly if the run that the table has for the
  request is as long as the request, and becomes the mark for `unknown` exactly if one more
  cluster was asked for than are free (`CountAfterRun`). Shorter runs happen, and the volume is then said to be full while a
  cluster is free (`ShortRunMiscounts`).
- It can report a full volume although clusters are free: exactly when its search is back
  at its start before its second try is over (`BatchFullIff`, `EmptyVolumeGivesUp`), never
  for a request of less than about half the volume (`GivesUpOnlySmall`,
  `WriteOnLargeVolume`).
- Asked for one cluster of a chain that goes on, it counts all that follow contiguously
  (`FollowMeaning`).
- A FAT12 file is spoilt when the only access of stretching it to fail behind the look is
  the very last one, which an entry needs that lies in two sectors, and its end mark, half
  overwritten by the number of the new cluster, is the number of an entry (`SpoiltIff`);
  never on a volume of at most 3840 entries. It happens, and deleting the file then frees
  another one (`HalfLinkHappens`). FAT16 and FAT32 files survive every failure
  under the hypothesis above (`FatRuns.Execute`).
- The window does not survive every failed read: `move_window` (`ff.c`, line 1152) reads into
  a buffer that keeps its old label, and `put_fat` marks it as dirty all the same (line 1357).
  The failures that leave the table as it was, whatever came in, are exactly the harmless
  ones (`HarmlessIff`). The others lose a sector of links, in the buffers (`SectorIsLost`) and
  then on the medium, on FAT16 as a run of the code (`SectorIsDestroyed`); take one sector
  for another (`SectorsAreConfused`); or overwrite sector 0 (`BootSectorIsDestroyed`).

## Model

`Middleware/fatfs/ff.c` is not UTF-8 text. The rows about it cite the declarations, in
`ff.h`, of the state or the error codes they speak of, and name the lines of `ff.c` in
the last column.

| member | source | states |
|---|---|---|
| Handshake.Linearizable | Sources/Events.c:105-190 | Every statement-level interleaving of setter and timer tick has an atomic run with the same flag (up to a pending clear), the same output writes, each finished handler exactly once with the pin it sampled, and the order of non-overlapping handlers kept |
| Handshake.LinearStep | Sources/Events.c:115-123 | The linearization invariant survives each single statement: a tick takes effect at the clear, or at the test that saw false |
| Handshake.AtomicRunsHappen | Sources/Events.c:105-190 | Conversely every atomic run is realised by some interleaving, so the atomic machine has exactly the observable behaviours |
| Handshake.WholeIsAtomic | Sources/Events.c:115-123 | An uninterrupted handler body has exactly the effect of the atomic operation |
| Handshake.TickToIdle | Sources/Events.c:115-123 | From any point of its body a tick left alone finishes in the given number of statements, writing the output once and leaving the flag clear unless it was set behind its test |
| Handshake.PortToIdle | Sources/Events.c:179-190 | From any point of its body the setter left alone finishes, and leaves the flag set if it saw the pin low |
| Guarantees.PendingRun | Sources/Events.c:115-123 | A set that no tick has served yet is still in the flag or about to be driven, in every interleaving |
| Guarantees.EveryRunIsGuaranteed | Sources/Events.c:115-188 | No press lost (after any set, a 1 is written before the end of the first tick starting after it), no phantom beep (a set between one tick's clear and the next test that sees true), and ones never outnumber sets, over every run |
| Guarantees.OnesArePaidFor | Sources/Events.c:115-188 | Ones written, plus a standing flag, plus a one about to be written, never exceed the sets plus one if the flag began true |
| Guarantees.FlagHasCauseRun | Sources/Events.c:115-188 | Whenever the flag is up there was a set since every earlier clear, and if it began false there was a set at all; every test that sees true has such a cause |
| Events.UninterruptedTick | Sources/Events.c:105-130 | The whole state and trace after one undisturbed tick |
| Events.Buzzer.Pit1Statement | Sources/Events.c:105-130 | Each statement of the handler is the tick step of the machine, on the shared flag |
| Events.Buzzer.PortDStatement | Sources/Events.c:179-190 | Each statement of the handler is the setter step; the flag is set exactly when INT2 was sampled low |
| Events.Buzzer.Pit1IrqHandler | Sources/Events.c:105-130 | Undisturbed, the handler writes the old flag once and leaves the flag clear |
| Events.Buzzer.Interleave | Sources/Events.c:105-190 | The code under any schedule reaches the machine's state and keeps the guarantees |
| Lamps.RunProjects | Sources/Events.c:260-333 | Composition: every run of PIT2 with the card setter and an arbitrary led7 setter is, seen from either lamp, a run of that lamp's own handshake |
| Lamps.LampsKeepGuarantees | Sources/Events.c:306-333 | LED5 and LED7 both keep the three guarantees and have an explaining atomic run |
| Lamps.LampsDoNotInterfere | Sources/Events.c:306-333 | What one lamp shows also happens in a run in which the other flag is never set: neither flag affects the other lamp |
| Lamps.DebounceHolds | Sources/Events.c:278-287 | Under any schedule of the other handlers, while no two successive samples of its own agree the card handler stays in its loop, decides no card state and sets no flag |
| Lamps.DebounceEnds | Sources/Events.c:278-290 | Under any schedule, at its first equal pair it leaves the loop with the card state the parity of the samples decides |
| Activations.BoardDecides | Sources/Events.c:260-293 | Over any schedule that begins between two activations of the card handler it decides what its own samples say, activation by activation: nothing if the pin tests high, else the level of the first two successive samples that agree; and it has come back as often as such activations fit in |
| Activations.OneActivation | Sources/Events.c:260-293 | A whole activation, from entry to end, under any schedule: if its first sample (behind the entry) is 1 it takes no other and decides nothing; if it is 0 it debounces up to the first adjacent pair that agrees, and cardInserted is what their parity decides |
| Events.CardBoard.Pit2Statement | Sources/Events.c:306-333 | Each statement of the two-lamp handler is the machine's step |
| Events.CardBoard.PorteStatement | Sources/Events.c:260-293 | Each statement of the card handler, the test that leads into the debounce and the debounce included, is the machine's step; what whole activations of it decide is Activations.BoardDecides |
| Events.CardBoard.Interleave | Sources/Events.c:260-333 | The code under any schedule reaches the machine's state and both lamps keep the guarantees; from between two activations the debounces that end, the card state and the activations that end are those that the samples of the pin say |
| Debounce.Alternates | Sources/Events.c:278-287 | As long as nothing has settled, sample i is the first one flipped i times |
| Debounce.CardDetect.CheckCardInserted | Sources/Events.c:272-293 | Exits exactly when some adjacent pair agrees, at the first such pair i, after i+2 samples, with cardInserted = (first sample is 1) xor (i odd); an alternating stream never lets it exit |
| Relay.RelayLatch.PortBIrqHandler | Sources/Events.c:152-167 | Undisturbed: INT1 low switches off, else INT0 low switches on, else the relay stays |
| Relay.RelayLatch.Happens | Sources/httpd.c:2400-2436 | Over any interleaving of the tests of the PORTB handler with the statements of the relay page, the pin holds what the last event that wrote it decided, its initial value if none did |
| Relay.RelayLatch.RelayPage | Sources/httpd.c:2401-2436 | An undisturbed request leaves the relay on exactly if one of its parameters is rele with the value 5 |
| Relay.RelayLatch.PageAmongInterrupts | Sources/httpd.c:2401-2436 | With tests between its statements: a later test that saw its pin low decides, and without one the page does, whatever came before |
| Relay.PageWritesEnd | Sources/httpd.c:2406-2434 | A request writes off first, and on last exactly if it selects the relay |
| Relay.PageInsideHandler | SDK/platform/drivers/inc/fsl_enet_driver.h:60-61 | Requests are received in the ENET interrupt, so a page may run between the two tests of the handler: it then leaves what it would leave before the handler, if INT1 is low, or behind it |
| Relay.HandlerInsidePage | Sources/Events.c:152-167 | And a handler between two writes of a page leaves what it would leave before the page, if a write follows, or behind it |
| Smi.PollForMeaning | Sources/fsl_phy_driver.c:71-77 | Polling times out exactly when the first N polls all miss, and otherwise stops right after the first hit |
| Smi.ReadMeaning | Sources/fsl_phy_driver.c:99-149 | An unconfigured read touches nothing; a configured one times out exactly when N consecutive polls are clear, having made just these; otherwise it returns the data sampled after the first set poll and its last action clears the flag |
| Smi.WriteMeaning | Sources/fsl_phy_driver.c:50-89 | A write succeeds exactly when it is configured and some poll within the bound sees the flag clear, times out exactly when none does, and has made no other access |
| Smi.WriteSucceedsOnlyUnfinished | Sources/fsl_phy_driver.c:70-82 | With a flag that reports completion and stays up, a write succeeds if and only if its frame is unfinished at the first poll |
| Smi.RegisterBits | Sources/fsl_phy_driver.h:48-80 | The masks and register numbers of the driver are the bits of the standard: bits 15, 14 and 12 of register 0 reset, loop back and negotiate; bits 5, 3 and 2 of register 1 say negotiated, able and link up |
| PhyInit.InitGenuine | Sources/fsl_phy_driver.c:160-223 | The exchanges on which the bring-up theorems are stated are those that took place on the hardware, with these values and statuses |
| PhyInit.InitBound | Sources/fsl_phy_driver.c:160-223 | For every hardware and N >= 1 the bring-up ends within 2N+4 frames and (2N+4)N polls |
| PhySharp.InitBoundIsTight | Sources/fsl_phy_driver.c:160-223 | For every N >= 2 some hardware attains both bounds, in a run that succeeds |
| PhyBringUp.InitResetPhase | Sources/fsl_phy_driver.c:167-188 | The first frame writes bit 15; the bring-up goes on exactly when one of at most N-1 following control reads saw it clear; if it does not, the status is that of the exchange that failed, or a timeout if none did |
| PhyBringUp.InitAfterReset | Sources/fsl_phy_driver.c:190-222 | What follows, in the bits of the words sampled: negotiation exactly when bit 3 of the status word is set and bit 5 clear, its polling until bit 5 is set, loopback with bit 14 added, and the status returned |
| PhyBringUp.InitSucceedsIff | Sources/fsl_phy_driver.c:160-223 | Success exactly when the reset was seen to end in time, the status read worked and no loopback frame failed |
| PhyBringUp.NegotiationFrame | Sources/fsl_phy_driver.c:196-199 | A negotiation frame is written exactly if the reset was seen to end, the status read worked, and the word sampled has bit 3 set and bit 5 clear; it carries the control word that showed Reset clear plus bit 12, with bit 15 still clear |
| PhyBringUp.OnlyTheResetFrame | Sources/fsl_phy_driver.c:190-222 | For every hardware that never shows bit 3 in register 1 a bring-up without loopback writes no frame but the reset |
| PhyBringUp.ResetFrames | Sources/fsl_phy_driver.c:167-220 | A successful run issues one Reset frame, or two exactly when the loopback re-read shows Reset |
| PhyBringUp.OneResetFrame | Sources/fsl_phy_driver.c:167-220 | On synchronous hardware that keeps Reset clear once read clear, a successful run issues exactly one Reset frame, loopback or not |
| PhySharp.TwoResetFramesHappen | Sources/fsl_phy_driver.c:212-219 | Without that assumption two Reset frames occur |
| PhySharp.LateClearIsATimeout | Sources/fsl_phy_driver.c:174-187 | For every N some hardware clears Reset at the last allowed read and is reported as a timeout |
| PhySharp.EmptyScanCanSucceed | Sources/fsl_phy_driver.c:244-253 | A scan with no answering address can still return Success |
| PhySharp.FailedNegotiationIsSuccess | Sources/fsl_phy_driver.c:196-222 | For every N >= 2 some hardware never completes negotiation and the bring-up returns Success |
| PhySharp.FailedLoopbackIsSuccess | Sources/fsl_phy_driver.c:199-222 | Some hardware refuses the negotiation frame and the re-read for loopback, and the bring-up returns Success |
| PhySharp.UnwrittenLinkHappens | Sources/fsl_phy_driver.c:310-328 | Some hardware makes the link query return Success without a result |
| PhyLink.LinkUnwrittenIff | Sources/fsl_phy_driver.c:299-329 | Success without a written result exactly when the control read worked and showed Reset |
| PhyLink.AnswersIff | Sources/fsl_phy_driver.c:244-253 | An address answers the scan exactly if the read of its register 2 works and the word has a bit that is set and one that is clear |
| PhyLink.LinkMeaning | Sources/fsl_phy_driver.c:299-329 | If bit 15 of the word sampled for register 0 is clear, the link is bit 2 of the word sampled for register 1; statuses and frames as sampled |
| PhyLink.SpeedMeaning | Sources/fsl_phy_driver.c:263-289 | The speed is 100M exactly if bit 1 of the word sampled for register 30 is set and bit 0 clear |
| PhyLink.AllSampled | Sources/fsl_phy_driver.c:374-415 | Every observation of a run of calls is of the words sampled by that call: bit 2 of register 1 for the link, the readability of register 30 for the speed |
| PhyLink.WordsRecord | Sources/fsl_phy_driver.c:374-415 | Between calls the two status words are equal and record exactly the latest link value and whether the speed was ever read |
| PhyLink.ReportedIff | Sources/fsl_phy_driver.c:401-414 | A call returns true exactly when the link is on after it and either was off before or the speed is now read for the first time |
| PhyLink.TruesCountRises | Sources/fsl_phy_driver.c:374-415 | Over every run from the zero state, true results number the 0-to-1 changes of the link plus one exactly if the speed was first read while the link was and stayed on |
| PhyDriver.Driver.AwaitMiiFlag | Sources/fsl_phy_driver.c:71-77 | The polling loop performs exactly the polls of the specification |
| PhyDriver.Driver.Write | Sources/fsl_phy_driver.c:50-89 | The code issues exactly the specified accesses and status |
| PhyDriver.Driver.Read | Sources/fsl_phy_driver.c:99-149 | Likewise; the caller's word changes only on Success, and a null pointer touches nothing |
| PhyDriver.Driver.Init | Sources/fsl_phy_driver.c:160-223 | The code issues exactly the exchanges the theorems are about, PhyBringUp.NegotiationFrame and InitAfterReset among them |
| PhyDriver.Driver.Autodiscover | Sources/fsl_phy_driver.c:233-254 | Stores the smallest answering address and probes nothing after it; otherwise leaves the word, has probed all 32, and returns the last probe's status |
| PhyDriver.Driver.GetLinkSpeed | Sources/fsl_phy_driver.c:263-289 | 100M exactly if bits 1 and 0 of the word sampled for register 30 are set and clear, the result written only on Success |
| PhyDriver.Driver.GetLinkStatus | Sources/fsl_phy_driver.c:299-329 | Bit 2 of the word sampled for register 1, written only if bit 15 of the word sampled for register 0 is clear |
| PhyDriver.Driver.RecordSpeed | Sources/fsl_phy_driver.c:378-388 | The speed bit is set by every successful query and never cleared |
| PhyDriver.Driver.RecordLink | Sources/fsl_phy_driver.c:389-399 | The link bit follows the query, or the unwritten variable when the query wrote nothing |
| PhyDriver.Driver.UpdateSpeed | Sources/fsl_phy_driver.c:374-415 | One call is one step of the change detector on the two global words, with the link and speed bits that this call has sampled |
| PhyDriver.Driver.Monitor | Sources/fsl_phy_driver.c:374-415 | Any run of calls from the zero state returns true as often as the link rose, which is bit 2 of the words sampled for register 1, plus once exactly if the speed was first read while the link was and stayed on; the words record link and speed |
| RomFs.SameString | Sources/fs.c:96 | Equality of the characters before the first NUL, whatever follows it |
| RomFs.Lookup | Sources/fs.c:94-112 | The loop ends on every acyclic chain and finds the first file of that name, or null exactly if there is none |
| RomFs.Open | Sources/fs.c:76-115 | First match fills every field of the handle, the cursor at the end; no match leaves it; a custom file wins; null arguments are rejected |
| RomFs.FsFile.Read | Sources/fs.c:133-169 | Delivers the next min(count, left) bytes into the buffer and no more, or EOF, or a delay that changes nothing |
| RomFs.FsFile.BytesLeft | Sources/fs.c:196-199 | The number of bytes not yet delivered, 0 exactly at EOF |
| RomFs.ReadsAccountForAll | Sources/fs.c:137-169 | At every moment of every run of reads the bytes delivered followed by the bytes left are the file; EOF only when all are delivered |
| RomFs.ChunkIndependence | Sources/fs.c:137-169 | Runs that reach EOF deliver the same bytes, however buffers are sized and delays interspersed |
| RomFs.PositiveBuffersReachEof | Sources/fs.c:137-169 | With positive buffers a run reaches EOF once it has more undelayed calls than bytes |
| RomFs.FixedSizeReads | Sources/fs.c:159-168 | With a fixed positive count c, EOF comes after exactly ceil(left/c) calls that return data |
| RomFs.ReadAll | Sources/fs.c:133-169 | Any run of calls of fs_read on one handle delivers exactly the bytes of the specification, leaves the handle with the rest, and has delivered the file at the first EOF |
| RomFs.OpenAndRead | Sources/fs.c:76-169 | fs_open followed by any run of reads: Ok exactly if a file has the name, and then nothing but EOFs |
| RomFs.OpenedHandleIsAtEof | Sources/fs.c:140-143 | With nothing left every read of a run is an EOF |
| FieldCodec.StWord | Middleware/fatfs/ff.h:396 | The two byte stores in place |
| FieldCodec.StDword | Middleware/fatfs/ff.h:397 | The four byte stores in place |
| FieldCodec.LoadWordAgrees | Middleware/fatfs/ff.h:389-394 | The byte-wise word load is the number in little-endian memory |
| FieldCodec.LoadDwordAgrees | Middleware/fatfs/ff.h:390-395 | The byte-wise double-word load is the number in little-endian memory |
| FieldCodec.StoresAgree | Middleware/fatfs/ff.h:391-397 | Byte-wise and word-access stores leave the same buffer |
| FieldCodec.EveryByteHasItsLastWriter | Middleware/fatfs/ff.h:396-397 | After any run of stores, overlapping or not, each byte is its last writer's, and unwritten bytes are unchanged |
| FieldCodec.LoadReturnsLastStore | Middleware/fatfs/ff.h:394-397 | A load returns the field's last store if no later store overlaps it |
| FieldCodec.DisjointStoresCommute | Middleware/fatfs/ff.h:396-397 | Disjoint stores commute |
| FieldCodec.StoreOfLoad | Middleware/fatfs/ff.h:394-397 | Storing back what was loaded changes nothing |
| FatTable.EntryOfUpdated | Middleware/fatfs/ff.h:394-397 | get_fat after put_fat (ff.c 1256-1361) returns the value cut to the width of the entry, in all three formats; FAT16 and FAT32 entries go through these macros, FAT12 through single bytes |
| FatTable.OtherEntriesStay | Middleware/fatfs/ff.h:363-365 | In none of the three formats does put_fat (ff.c 1325-1351) change another entry, not even the FAT12 neighbour that shares a byte, nor when the disk fails between its two bytes |
| FatTable.ReservedBitsStay | Middleware/fatfs/ff.h:395-397 | The load, merge and store of a FAT32 entry (ff.c 1346-1351) never clear its four reserved bits and add those of the value, of which a cluster number has none |
| FatLinks.LinkInMemory | Middleware/fatfs/ff.h:394-395 | A link is the number in memory (get_fat, ff.c 1264-1291): of FAT12 the lower or upper twelve bits of the bytes from 3c/2 on, of FAT16 the two bytes from 2c on, of FAT32 the lower twenty-eight bits of the four from 4c on |
| FatVolume.Volume.GetFat | Middleware/fatfs/ff.h:130-136 | get_fat (ff.c 1256-1292): 1 for an index that is no cluster among n_fatent entries, all ones exactly when the disk failed, else the link |
| FatVolume.Volume.PutFat | Middleware/fatfs/ff.h:243-245 | put_fat (ff.c 1305-1361): on FR_OK one assignment in the table of links, FR_INT_ERR exactly for an index that is no cluster, FR_DISK_ERR exactly when the disk failed; under the hypothesis of the flat table every other link stays in all cases, and this one too, except that a FAT12 link is left half written exactly if its first access worked |
| FatLinks.LinksHalfUpdated | Middleware/fatfs/ff.h:363 | put_fat failing between the two bytes of a FAT12 entry (ff.c 1327-1337): its link keeps its high bits and takes the low eight or four of the new one; all others stay |
| FatChain.RemoveMeaning | Middleware/fatfs/ff.h:130 | remove_chain (ff.c 1394-1416) on any table of n_fatent entries, cyclic and corrupt ones included: it ends, frees exactly the clusters of the walk, touches nothing else, and fails exactly at an invalid link |
| FatChain.RemoveFrees | Middleware/fatfs/ff.h:124 | As many more clusters are free as remove_chain freed (ff.c 1400-1404) |
| FatChain.RemoveWholeChain | Middleware/fatfs/ff.h:163 | From its start cluster on, every cluster of a sound chain is freed (ff.c 1394-1416) |
| FatVolume.Volume.RemoveChain | Middleware/fatfs/ff.h:122-130 | remove_chain (ff.c 1375-1420) as code: on a disk failure, under the hypothesis of the flat table, the first `done` clusters are freed and counted, the next one is half written exactly if it is FAT12 and the last of its four accesses failed, all others are as before; free_clust, if it was the number of free clusters, is that again, and unknown stays unknown |
| FatChain.SearchFindsIff | Middleware/fatfs/ff.h:123 | On a table without invalid links and with a free cluster the search of create_chain (ff.c 1463-1476) finds one if and only if last_clust, where it starts, is neither 0 nor all ones |
| FatChain.SearchFullIff | Middleware/fatfs/ff.h:123-130 | The search (ff.c 1463-1476) reports a full volume exactly when it starts inside the table and no entry is free or invalid |
| FatChain.SearchNeverEndsIff | Middleware/fatfs/ff.h:123-130 | The search (ff.c 1463-1476) runs for ever exactly when it starts beyond the table and no entry is free or invalid |
| FatChain.SearchStopsAt | Middleware/fatfs/ff.h:123-130 | The first free or invalid entry, going up and around from the start, decides the search (ff.c 1463-1476) |
| FatChain.ExtendedChain | Middleware/fatfs/ff.h:163-164 | Linking a free cluster behind the last one of a chain (ff.c 1478-1481) gives the longer chain and one free cluster fewer, and leaves chains that do not meet it alone |
| FatChain.BlindStretch | Middleware/fatfs/ff.h:163-164 | Linking a free cluster behind one inside a chain makes two chains: the front with the new cluster, and the rest, which nothing leads to |
| FatBlind.Follow | Middleware/fatfs/ff.h:244 | create_chain asked for the cluster behind one inside a chain (ff.c 1453-1455): the chain survives exactly if the read of the link works, or no free cluster is found, or a later access fails as well and has not left the link half written to another value, all settled before the call; else it is cut into those two. Under the hypothesis of the flat table |
| FatBlind.CutHappens | Middleware/fatfs/ff.h:244 | A volume and a disk that fails at its first access, on which the code cuts a chain |
| FatBlind.FollowForRun | Middleware/fatfs/ff.h:244 | create_chain_for_clusts, the allocator of f_write, reads the link in the same way (ff.c 1521): the chain survives exactly if that read works, or no run is found, or linking it fails before it reaches the link; condition on the state before the call, FAT12 half links and the fallback included. Under the hypothesis of the flat table |
| FatBlind.RunKeptIff | Middleware/fatfs/ff.h:163-164 | And if it does not, the front with the run behind it is a chain, and so is the rest, which nothing leads to |
| FatVolume.Volume.FindFree | Middleware/fatfs/ff.h:123-130 | The search loop (ff.c 1462-1476), whenever it ends, returns the outcome of the search, or all ones exactly when the disk failed; it ends exactly if the search does or the disk fails |
| FatVolume.SearchMeaning | Middleware/fatfs/ff.h:122-130 | The search (ff.c 1462-1476) answers 0 exactly if it starts inside the table and no entry is free or invalid, 1 exactly from 0 or all ones, or if the first such entry in cyclic order is invalid, and otherwise that entry |
| FatVolume.Volume.NewChainsEnd | Middleware/fatfs/ff.h:123-130 | The search for a new chain, which starts inside the table (ff.c 1448-1451), ends on every table |
| FatVolume.Volume.CreateChain | Middleware/fatfs/ff.h:122-130 | create_chain (ff.c 1436-1492) as code: the successor if the chain goes on, 1 if the cluster or its link is invalid, else what the search answers, read off the table (FatVolume.SearchMeaning), with the table extended accordingly; the 32-bit decrement of free_clust, the number of accesses; if free_clust was the number of free clusters it is that again, and unknown stays unknown. On a disk failure the exact table that is left, under the hypothesis of the flat table |
| FatFiles.RunKeepsFiles | Middleware/fatfs/ff.h:156-164 | Over every run of creations and stretchings (create_chain, ff.c 1436-1492), writes (create_chain_for_clusts, ff.c 1495-1678) and deletions (ff.c 4471-4476) files remain sound chains that share no cluster, no allocated cluster is lost, and free plus owned clusters stay constant |
| FatFiles.StepIsKept | Middleware/fatfs/ff.h:156-164 | Each step keeps the files sound, also on a volume that has lost clusters, and loses no more |
| FatSuccess.FormattedIsConsistent | Middleware/fatfs/ff.h:124-130 | A volume without files is a consistent start, with all n_fatent - 2 clusters free |
| FatSuccess.CreateSucceedsIff | Middleware/fatfs/ff.h:122-130 | Creating (ff.c 1448-1476) succeeds exactly while a cluster is free |
| FatSuccess.StretchSucceedsIff | Middleware/fatfs/ff.h:122-130 | Stretching (ff.c 1452-1476) succeeds exactly while a cluster is free and last_clust is neither 0 nor all ones |
| FatSuccess.WriteSucceedsIff | Middleware/fatfs/ffconf.h:219-225 | Writing behind a file (ff.c 1495-1678) gets clusters exactly while one is free, last_clust is neither 0 nor all ones, and the search for a run does not give up |
| FatSuccess.WriteNewSucceedsIff | Middleware/fatfs/ffconf.h:219-225 | Writing a new file gets clusters exactly with one free and while the search does not give up |
| FatSuccess.WriteOnLargeVolume | Middleware/fatfs/ffconf.h:223 | On a volume of more than 2 * want + 1 clusters writing never gives up: it succeeds exactly when creating, or stretching, does; f_write asks for at most 64 KiB at a time |
| FatSuccess.WriteGetsAll | Middleware/fatfs/ffconf.h:219-225 | If as many clusters behind last_clust as asked for are free, writing behind a file gets it these, in a row |
| FatSuccess.WriteNewGetsAll | Middleware/fatfs/ffconf.h:219-225 | And writing a new file, from where its search starts |
| FatSuccess.WriteGains | Middleware/fatfs/ffconf.h:219-225 | In every case the file grows by the length of the stretch that the table has for the request, or by one cluster when it has none and some is free |
| FatSuccess.WriteNewGains | Middleware/fatfs/ffconf.h:219-225 | So does a new file |
| FatSuccess.WriteFallsBack | Middleware/fatfs/ff.h:122-130 | When there is no stretch the one cluster is the first free one, in cyclic order, behind the first free one that the search has seen (ff.c 1604-1633), or behind the start |
| FatSuccess.WriteNewFallsBack | Middleware/fatfs/ff.h:122-130 | The same for a new file |
| FatSuccess.LastIsGiven | Middleware/fatfs/ff.h:123 | Whatever gives clusters to a file leaves last_clust at the last one given (ff.c 1482, 1651) |
| FatSuccess.HoleIsReused | Middleware/fatfs/ff.h:163 | After the deletion of a file (ff.c 4471-4476) the next cluster given out, to a file created or stretched, is its first one, cluster 2 included |
| FatSuccess.PlaceIsReused | Middleware/fatfs/ff.h:163 | A deleted file whose clusters lay in a row leaves its place to a new file of up to the same length |
| FatSuccess.EmptyVolumeGivesUp | Middleware/fatfs/ffconf.h:225 | After mounting, an empty volume has nothing for a request of more clusters than there are |
| FatSuccess.LastStaysKnown | Middleware/fatfs/ff.h:123 | Once last_clust is inside the table it stays there over every run without the deletion of a file that has no clusters (ff.c 1482, 1651, 4475) |
| FatSuccess.EmptyDeletionStopsStretching | Middleware/fatfs/ff.h:163 | The deletion of a file whose start cluster is 0 (ff.c 4471-4476) makes every stretching and writing behind a file fail although clusters are free, until a file is created |
| FatBatch.BatchIsFree | Middleware/fatfs/ffconf.h:223-225 | The search for a run (ff.c 1552-1602) takes only free clusters in a row, at least one and not more than asked for; how many, and which, is FatStretch.OutlineIsRight |
| FatStretch.OutlineIsRight | Middleware/fatfs/ffconf.h:219-225 | For every table, start and request the loop (ff.c 1551-1603) comes to what the first two used entries behind the start say: which run is taken and how long it is, the one cluster searched for from the first free one, full, or corrupt |
| FatStretch.AskedIsTaken | Middleware/fatfs/ffconf.h:219-225 | If as many clusters behind the start as asked for are free, exactly these are taken |
| FatStretch.NextIsTaken | Middleware/fatfs/ffconf.h:219-225 | Otherwise, with z the first used entry: the clusters behind z if as many as asked for are free there, else all those in front of z |
| FatBatch.BatchFullIff | Middleware/fatfs/ffconf.h:225 | It reports a full volume (ff.c 1564-1585) exactly in the closed case GivesUp: at most one used cluster behind the start, no run long enough, and back at the start before the second try is over |
| FatBatch.GivesUpOnlySmall | Middleware/fatfs/ffconf.h:223-225 | And that takes a request of about half the volume |
| FatBatch.BatchCorruptIff | Middleware/fatfs/ff.h:123 | On a table without invalid links it fails as corrupt exactly from a last_clust of 0 or all ones |
| FatBatch.AppendedChain | Middleware/fatfs/ff.h:163-164 | Linking a free run behind a chain, back to front (ff.c 1635-1649), gives the chain with the run behind it |
| FatBatch.AppendedFree | Middleware/fatfs/ff.h:124 | As many clusters fewer are free as the run has |
| FatBatch.FollowMeaning | Middleware/fatfs/ffconf.h:223 | On a chain that goes on (ff.c 1524-1544) the count is the number of contiguous clusters, capped at what was asked for, except that a request for one is answered with all of them; it fails exactly if they lead into a free link or a 1 before the cap |
| FatClusters.FindRun | Middleware/fatfs/ffconf.h:225 | The search loop (ff.c 1552-1594) ends on every table and every disk with the outcome of the specification, or all ones exactly when the disk failed |
| FatClusters.TakeRun | Middleware/fatfs/ff.h:122-130 | The run is linked behind the chain; last_clust and free_clust move only on success, and on a disk failure, under the hypothesis of the flat table, no link outside the run is touched but, on FAT12, the one behind which it goes, half written exactly if all accesses up to its first byte worked (ff.c 1603-1662) |
| FatClusters.FollowRun | Middleware/fatfs/ffconf.h:223 | The loop that counts the contiguous clusters (ff.c 1526-1542) |
| FatClusters.CountAfterRun | Middleware/fatfs/ff.h:124 | free_clust, if it was the number of free clusters, is that again exactly if the run taken is as long as the request, and becomes the mark for unknown exactly if the request is one more than are free (ff.c 1652-1656) |
| FatClusters.ShortRunMiscounts | Middleware/fatfs/ff.h:124 | A volume on which the code takes one cluster where two were asked for, and free_clust is 0 while one cluster is free |
| FatClusters.CreateChainForClusts | Middleware/fatfs/ff.h:122-130 | create_chain_for_clusts (ff.c 1495-1678) as code: the run that the stretches of the table give for the request, its first cluster and its length handed back, its links, and all others as before; the fallback on create_chain, the free count, the number of accesses, and, under the hypothesis of the flat table, what a disk failure leaves |
| FatDisk.CreateFile | Middleware/fatfs/ff.h:122-130 | create_chain on the bytes of a sound volume takes the creation step, or the disk failed and, under the hypothesis of the flat table, no link in use is touched and at most one cluster is lost (ff.c 1436-1492) |
| FatDisk.StretchFile | Middleware/fatfs/ff.h:122-130 | create_chain, given the last cluster of a file, takes the stretching step, or the disk failed and, under the hypothesis of the flat table, the other files are sound and at most one cluster is lost; this one is sound exactly if its last link, which is given as a function of the state before the call, still is an end mark: always on FAT16 and FAT32, and on FAT12 with at most 3840 entries if it ended in a mark of the format |
| FatDisk.WriteNewFile | Middleware/fatfs/ff.h:122-130 | As CreateFile, for create_chain_for_clusts and a new file (ff.c 3504), with no more clusters lost than asked for |
| FatDisk.WriteFile | Middleware/fatfs/ff.h:122-130 | As StretchFile, for create_chain_for_clusts behind a file (ff.c 3516), with no more clusters lost than asked for |
| FatDisk.DeleteFile | Middleware/fatfs/ff.h:163 | The end of f_unlink (ff.c 4471-4476), given the start cluster, takes the deletion step, with or without clusters, behind which the hole is reused first (FatSuccess.HoleIsReused), or the disk failed and, under the hypothesis of the flat table, the other files are sound and only clusters of this one are lost |
| FatRuns.Perform | Middleware/fatfs/ff.h:156-164 | One operation on a disk that may fail at any access, under the hypothesis of the flat table: it takes its step, or the files are kept as they were; only a deletion drops a file, or, on FAT12, its own growth that failed and spoilt it, but not with at most 3840 entries and marks of the format; the others keep their clusters in front; no cluster is lost but to a failed operation, which loses at most what it asked for and its dropped file had |
| FatRuns.FilesAreKept | Middleware/fatfs/ff.h:156-164 | Over any history of such operations a file is where it should be with all its clusters in front, or it was dropped as that file by its deletion or, on FAT12, its own failed growth |
| FatRuns.Execute | Middleware/fatfs/ff.h:156-164 | Any run of operations on a disk that may fail at any access, under the hypothesis of the flat table, has such a history: the files kept are sound and disjoint at every moment, and are the old ones with more clusters behind, but for those dropped; what is lost is bounded operation by operation; without a failure the bytes are those of the specified run |
| FatWindow.WindowIsTransparent | Middleware/fatfs/ff.h:135-141 | Over any run of moves, changes with set_dirty, and flushes with or without an FSInfo sector (ff.c 657-701, 975-1030, 1104-1167, 1183-1225), whatever writes fail, if all reads that fail are harmless: the two buffers laid over the medium are the table as a flat memory that each successful change has reached and no failed one |
| FatWindow.RunIsDurable | Middleware/fatfs/ff.h:135-141 | Behind any such run that ends in a flush that works (sync_fs, ff.c 1183-1225) the medium alone is the table with every change that worked, and no other |
| FatWindow.FlushIsDurable | Middleware/fatfs/ff.h:135-141 | A flush that works leaves on the medium what the window stands for, and the FSInfo sector if its write, which the code does not look at, works |
| FatWindow.ServeKeeps | Middleware/fatfs/ff.h:135-141 | The same for one request, which, if it works, has the flat sector in the current buffer |
| FatWindow.SyncKeeps | Middleware/fatfs/ff.h:135-141 | Writing back, alone or both buffers at once, never changes what the window stands for, whether it works or not (ff.c 975-1030) |
| FatWindow.OlderFirst | Middleware/fatfs/ff.h:135-141 | sync_winindex (ff.c 985-1018) brings no change of the sector read in last to the medium before those of a dirty other one, unless both lie side by side and go in one transfer; it leaves its buffer clean and on the medium exactly if it works |
| FatWindow.WrittenExactly | Middleware/fatfs/ff.h:135-141 | A call that works writes its own buffer if that is dirty, then also the other one if that is dirty and was read in earlier, and nothing else |
| FatWindow.EarlierFirst | Middleware/fatfs/ff.h:135-141 | For every request: a move writes only the buffer that gives way, never the sector read in last; a flush writes the one read in earlier first |
| FatWindow.NothingFails | Middleware/fatfs/ff.h:135-141 | Without a failure every request works and every run is one of these |
| FatWindow.HarmlessIff | Middleware/fatfs/ff.h:135-141 | A read that fails keeps the table and the labels, whatever came in, exactly if no buffer is in use, or the one that gives way holds a sector outside the table (ff.c 1117-1159) |
| FatWindow.SectorIsLost | Middleware/fatfs/ff.h:135-141 | If it holds a sector of the table, that sector now reads as what came in |
| FatWindow.SectorsAreConfused | Middleware/fatfs/ff.h:135-141 | If it has never been used, the next sector read is taken for the one in the first buffer, whose changes are gone (ff.c 1119-1158) |
| FatBuffers.Window.BuffValidation | Middleware/fatfs/ff.h:135-141 | buff_validation (ff.c 657-672) makes the buffer with that label the current one |
| FatBuffers.Window.SyncWinindex | Middleware/fatfs/ff.h:135-141 | sync_winindex (ff.c 975-1030) on the array of both buffers and the bits of wflag is the specified write-back |
| FatBuffers.Window.MoveWindow | Middleware/fatfs/ff.h:135-141 | move_window (ff.c 1104-1167) as code is the specified move |
| FatBuffers.Window.GetFat16 | Middleware/fatfs/ff.h:394 | get_fat on FAT16 through the window (ff.c 1280-1283): all ones exactly if the move fails, else the word of the flat table, which stays as it was, provided that a read that fails is harmless |
| FatBuffers.Window.PutFat16 | Middleware/fatfs/ff.h:396 | put_fat on FAT16 through the window (ff.c 1340-1344, 1357): the flat table with the entry written, or as it was, if a read that fails is harmless; the buffer is marked as dirty in any case |
| FatBuffers.SectorIsDestroyed | Middleware/fatfs/ff.h:135-141 | On every volume with three sectors of table a run of the code, in which one read fails and everything else works, overwrites the first one, on the medium, with what came in |
| FatBuffers.BootSectorIsDestroyed | Middleware/fatfs/ff.h:135-141 | And one that overwrites sector 0 |
| FatDisk.SpoiltIff | Middleware/fatfs/ff.h:363 | A FAT12 file that ends in the mark of the code is spoilt by a failed stretching exactly if the last access is the only one behind the look to fail and 3840 plus the low eight bits of the new cluster (even last cluster), or 4080 plus its low four bits (odd), is the number of an entry |
| FatDisk.HalfLinkHappens | Middleware/fatfs/ff.h:363 | A FAT12 volume with two files and a disk of which one access fails: the code leaves the link of one file leading into the other, and deleting it frees the other one |

## Left out

- The handlers' calls into the HAL: clearing port and timer flags, NVIC enabling, ADC conversion, watchdog refresh. Disabling its own interrupt is what makes each handler a single activity.
- The nop delay of the debounce loop and the empty card-detect callback.
- The four shield relays and the date page of processaCGI, and the parsing of requests.
- LED6 and the main loop.
- The setter of led7: no statement in the sources sets it, so the model lets any handler do so at any time.
- The instance argument of the PHY driver and the masking of addresses and registers in the HAL; register data is an arbitrary word.
- PHY_DRV_GetLinkDuplex: the same shape as the speed query.
- Smi.WriteMeaning: says nothing about the frame being sent, because the code does not wait for that.
- RomFs.FsFile.Read: requires a non-negative count and a buffer that holds what is copied, as the copy in the source does; the buffer is not the file's own data.
- fs_close, which only calls hooks.
- Cyclic chains of ROM files, on which fs_open does not end for a missing name.
- FatVolume.Volume.CreateChain: is called exactly where it ends; it does not end from a start beyond the table, on a volume without free or invalid entries and a disk that no longer fails (SearchNeverEndsIff).
- FatClusters.CreateChainForClusts: likewise, for its fallback on create_chain.
- FatDisk.StretchFile: like WriteFile and FatRuns.Execute starts with last_clust inside the table or all ones, as every step leaves it; another value can only come from the FSInfo sector of a FAT32 volume.
- FatVolume.Volume.MoveWindow: an access that fails leaves the table as it was, which the window guarantees exactly under the hypothesis of the flat table; the statements about failing disks are not proved for runs with a harmful read, of which FatWindow and FatBuffers say what they can do. Volumes have at most 0x0FFFFFFF entries and at least one cluster.
- FatWindow.Request: the second copy of the table, which sync_winindex also writes, is not modelled, nor are transfers of file data that bypass the window, nor a move to sector 0; nor the CTRL_SYNC call that ends sync_fs; SyncFs in FatBuffers has no FSInfo sector; the entries of FatBuffers are those of FAT16, a FAT12 or FAT32 entry is one or two requests of the same kind.
- Directory entries and file data: a file is its chain of clusters, and what f_write does with the clusters it got is not part of the model. The erase notification of remove_chain is compiled out.
- The rest of FatFs, lwIP and the web server: parsing, directories and protocol tables with no part in the above.
- Generated and static processor code: constants and straight-line register set-up.
