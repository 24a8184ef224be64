# Beam position monitor firmware: verification model

A beam position monitor digitises the signals of four pickup electrodes, demodulates them in a
gate array and reports positions to a control system. Its firmware runs without an operating
system. This project models the parts of that firmware that are protocols, sequencers and
codecs, and proves what they promise.

* **Data converter tiles** (`TileTarget`, `TilePower`, `TileBank`): the sampling clock enters at
  one tile and is passed along; tiles are powered up and down without ever cutting the clock of a
  running one, and the operator's requests survive synchronisation.
* **Waveform transfer** (`RingWindow`, `RingCopy`, `WfrProtocol`, `WfrRuns`, `WfrTiming`,
  `WfrTermination`, `WfrDelivery`, `WfrProgress`, `WaveformRecorder`): recorders fill ring buffers; a
  protocol of headers, acknowledgements and data sends the most recent window in numbered blocks.
* **Overlap-safe copy** (`Memcpy2`): why copying by words is safe in device memory.
* **TFTP server** (`Tftp`, `TftpServer`, `TftpJobs`, `TftpRuns`, `TftpReplies`): RFC 1350 with
  block numbers that wrap, against a client over channels that lose and duplicate.
* **Command server** (`Epics`, `EpicsServer`): at-most-once execution with a cached reply, for
  clients of either byte order.
* **Link recovery** (`CellComm`): resets on timers that run on a wrapping clock.
* **Filter scaling** (`CicScaling`): the shift that makes up for the gain of a decimating filter.
* **Tables and parameters** (`Coefficients`, `CoefficientText`, `CoefficientTable`, `TableSum`,
  `ClockTable`, `Serdes`, `Scalars`, `ParameterNames`, `SystemParameters`, on `NumberText`,
  `Numerals` and `CNumbers`): files that are uploaded, checked, stored, committed and downloaded again.
* **AXI monitor** (`AxiMonitor`, `AxiSoundness`): the test bench's checker of the recorder's bus,
  against a definition of a legal trace that has no state.

Objects that the firmware updates in place are classes whose methods are proved against
specification functions; properties of whole runs are lemmas about those functions. `Common`
holds shared types and arithmetic. `dafny verify dfyconfig.toml` checks everything.

Where code and documentation disagree the model follows the code. Places where a promise does not
hold have lemmas that say exactly when it does, or a concrete input: the demoted source at tile 0,
the synchronisation group without tile 0, the first synchronisation, the window moved by a changed
acquisition count, the answer to a header that counts for block 0, the request hidden by an
unrecognised one, the cached reply in the wrong byte order, nonce zero, the tables with CRLF lines,
separators that are not checked, refused uploads that damage the table in use, tables of full
length that are accepted but never used, a checksum that sees only the sum of the entries,
fractions in integer fields, trims that can be printed but not read, debug flags that overwrite
the RF divisor, and parameter flags that are never cleared.

## Model

| member | source | states |
|---|---|---|
| TileTarget.TargetIsLeast | software/src/rfdc.c:1218-1289 | the computed target states are the pointwise least assignment in which requested tiles are FULL, tile 0 is at least CLK_DET and the source FULL if anything is on, and every tile between a powered tile and the source is at least CLK_DET |
| TileTarget.PoweredFeedsInward | software/src/rfdc.c:1240-1275 | the clock path of a powered tile is powered all the way to the source |
| TileTarget.TargetIsMonotone | software/src/rfdc.c:1218-1289 | asking for more tiles never lowers a tile |
| TileTarget.SourceRunsUnlessItIsTileZero | software/src/rfdc.c:1280-1288 | the source stays FULL exactly when it is not tile 0 or was itself requested: where the override for tile 0 breaks the rule |
| TileTarget.SourceAtTileZeroIsDemoted | software/src/rfdc.c:1280-1288 | a concrete demotion: tile 0 is the source, only tile 1 is requested |
| TileTarget.TileTargetState | software/src/rfdc.c:1218-1289 | the in-place loops over requests and chain compute exactly the least targets |
| TilePower.PlanReachesTarget | software/src/rfdc.c:1417-1513 | a completed pass down, promotion of tile 0 and pass up leave every tile exactly at its target, for any number of tiles and any source |
| TilePower.EveryStepKeepsClockPath | software/src/rfdc.c:1417-1513 | from any clock-closed state, after every single tile change every powered tile still has a FULL source and a live path to it (tile 0 waiting at CLK_DET excepted) |
| TilePower.WholeHistoryKeepsClockPath | software/src/rfdc.c:1417-1577 | the same over any sequence of request vectors, after every tile change of the whole history |
| TilePower.PositionsInvert | software/src/rfdc.c:1430-1505 | each sweep visits every tile exactly once |
| TilePower.DownsChangeTilesOnce | software/src/rfdc.c:1430-1465 | the way down changes no tile twice |
| TilePower.UpsChangeTilesOnce | software/src/rfdc.c:1476-1505 | the way up changes no tile twice |
| TileBank.StatesFollowLatestRequests | software/src/rfdc.c:1515-1792 | after any sequence of successful shutdown-mode calls and synchronisations the tile states are the targets of the latest request for each tile, and these are the requests in force; calls about missing tiles alone change nothing |
| TileBank.SyncIsNeutral | software/src/rfdc.c:606-747 | from power-up, a synchronisation leaves all states and requests exactly as they were if and only if an earlier call concerned an existing tile or was a synchronisation, although tile 0 is FULL on the way |
| TileBank.SyncKeepsRequests | software/src/rfdc.c:606-747 | a synchronisation keeps the requests in force, whatever the tiles' states |
| TileBank.FirstSyncMayPowerTiles | software/src/rfdc.c:606-747 | a concrete power-up state with a live clock path in which the first synchronisation powers tile 0 |
| TileBank.CallsKeepClockPath | software/src/rfdc.c:606-1792 | along any sequence of shutdown-mode calls and synchronisations, with every lift and restore, no single tile change cuts a live clock path, and the changes lead to the states of those calls |
| TileBank.SyncGroupIsTakenBeforeTheLift | software/src/rfdc.c:618-660 | the group handed to the synchroniser holds tile 0 exactly when tile 0 had been requested, although tile 0 is powered up for the synchronisation: the status is read before the lift |
| TileBank.SyncGroupLacksTileZero | software/src/rfdc.c:618-660 | a concrete group without tile 0, which is running when the group is synchronised |
| TileBank.SyncFollowsPowerUpIff | software/src/rfdc.c:1715-1792 | a call synchronises if and only if it switches on a tile that was not running; then exactly the tiles that run after it, this one among them, while tile 0 runs |
| TileBank.ReadbackFlags | software/src/rfdc.c:1163-1213 | after such calls the value read back is the state, with 0x200 added for exactly the unrequested powered tiles; "forced off" never shows |
| TileBank.ReadbackTells | software/src/rfdc.c:1195-1213 | the value tells the state and which way a request is overruled |
| TileBank.Tiles.PowerDown | software/src/rfdc.c:1430-1465 | the loops carry out the plan for going down, or a prefix of it up to a failing change |
| TileBank.Tiles.PowerUp | software/src/rfdc.c:1476-1512 | the loops carry out the plan for coming up, or a prefix of it up to a failing change |
| TileBank.Tiles.ApplyTileStates | software/src/rfdc.c:1417-1513 | on success exactly the plan has been carried out; on failure a prefix of it, and at most one tile is left elsewhere |
| TileBank.Tiles.ChangeTilePwrRaw | software/src/rfdc.c:1515-1577 | the requests are stored even if a change fails; on success the states are their targets |
| TileBank.Tiles.CopyTileRequest | software/src/rfdc.c:1643-1691 | copies the requests in force: the stored one, or whether the tile is running |
| TileBank.Tiles.ChangeTilePwr | software/src/rfdc.c:1693-1713 | one request is replaced among those in force; a tile that does not exist changes nothing |
| TileBank.Tiles.SyncType | software/src/rfdc.c:606-747 | on success the save, lift, synchronise, restore sequence; when SYSREF fails tile 0 stays requested |
| TileBank.Tiles.SetShutdownMode | software/src/rfdc.c:1715-1792 | a call that succeeds is the request change followed by a synchronisation if something was powered up and changed |
| TileBank.Tiles.GetShutdownMode | software/src/rfdc.c:1163-1213 | the value read back, or -1 before initialisation and for a tile that does not exist |
| Memcpy2.Memcpy2 | software/src/memcpy2.c:51-115 | memmove: for every overlap the destination ends equal to the old source and no other byte changes |
| Memcpy2.LoadWord | software/src/memcpy2.c:62-112 | words are only read at word-aligned addresses (a precondition proved at every call) |
| Memcpy2.StoreWord | software/src/memcpy2.c:62-112 | words are only written at word-aligned addresses (a precondition proved at every call) |
| Memcpy2.AlignedRegionsAreAWordApart | software/src/memcpy2.c:62-112 | regions that agree modulo the word size and are not the same lie at least a word apart, which is why word copies are safe |
| Memcpy2.CopyForward | software/src/memcpy2.c:62-88 | the ascending copy moves the region when it goes to lower addresses |
| Memcpy2.CopyBackward | software/src/memcpy2.c:89-112 | the descending copy moves the region when it goes to higher addresses |
| RingWindow.CollectedBlocksRebuild | software/src/waveformRecorder.c:274-337 | blocks collected by number, in any order, rebuild the window they were cut from |
| RingWindow.WindowSlices | software/src/waveformRecorder.c:281-313 | a window of the ring is one slice of memory, or two when it wraps |
| RingWindow.BlockOfWindow | software/src/waveformRecorder.c:281-313 | the bytes a data packet takes from the ring are that block of the window |
| RingWindow.BlockSize | software/src/waveformRecorder.c:274-300 | blocks are 1440 bytes, but the last one |
| RingCopy.WindowInMemory | software/src/waveformRecorder.c:281-313 | the window read from memory is the window of the ring's contents |
| RingCopy.CopyWindow | software/src/waveformRecorder.c:281-313 | the straight or split copy fills the payload with exactly the window and writes nothing else |
| WfrRuns.DataIsBlockOfWindow | software/src/waveformRecorder.c:274-337 | a data packet with number b carries bytes [1440b, min(1440(b+1), byteCount)) of the announced window |
| WfrRuns.StepKeepsInvariant | software/src/waveformRecorder.c:344-694 | every event (scan, acknowledgement, any command, acquisition) keeps registers, ring and transfer position in step |
| WfrRuns.PlacementIsKeptIff | software/src/waveformRecorder.c:344-694 | the window being sent stays the last bytes written, over any event, if and only if a header is not built with an acquisition count above the hardware's, nor, for want of a buffer, with another count than the header sent before |
| WfrRuns.RunStaysInPlaceIff | software/src/waveformRecorder.c:344-694 | over any run the window is in place at all times if and only if every header is built with such a count |
| WfrRuns.CalmRunsFit | software/src/waveformRecorder.c:383-682 | it is enough that the acquisition count is left alone from arming until the header is acknowledged |
| WfrRuns.PacketMatchesWindow | software/src/waveformRecorder.c:274-433 | every packet sent is determined by the state: a header announcing the current window, or its block by number, whatever the commands |
| WfrRuns.EveryRunIsTruthful | software/src/waveformRecorder.c:274-610 | for every run of events whose headers are built with such counts, every packet tells the truth about the last bytes written before the header, and any receiver that has all blocks rebuilds them in time order |
| WfrRuns.HeaderIsSentIff | software/src/waveformRecorder.c:534-585 | an idle recorder announces a full ring if and only if there is a buffer for the header, and forgets the acquisition if there is none |
| WfrRuns.AnswerMovesOn | software/src/waveformRecorder.c:344-377 | an accepted acknowledgement is answered with the next block if there is one and a buffer for it; otherwise the transfer is over |
| WfrTiming.EveryRunKeepsTime | software/src/waveformRecorder.c:586-605 | for every run, in terms of event times and packets sent: while a transfer is under way, a scan repeats the very last packet (or a header), or gives up, if and only if more than a second modulo 2^32 us has passed since it was sent; it gives up exactly at the tenth time |
| WfrTiming.AnswerRestartsTimer | software/src/waveformRecorder.c:300-377 | a concrete run: a block sent 0.9 s after the header is not repeated 0.1 s later |
| WfrTiming.ArmTakesSettings | software/src/waveformRecorder.c:626-694 | arming puts the latest trigger mask, counts (cut off, and rounded up to whole words), and modes into the hardware and begins a new waveform |
| WfrTiming.DisarmForgets | software/src/waveformRecorder.c:626-650 | disarming forgets an acquisition; nothing is announced after it |
| WfrTiming.ZeroCountIsIgnored | software/src/waveformRecorder.c:670-682 | an acquisition count of zero changes nothing |
| WfrTermination.MovesDecrease | software/src/waveformRecorder.c:344-377 | (items left, retries left) falls lexicographically at every timeout and accepted acknowledgement, and no other event touches it, acquisition-count commands included |
| WfrTermination.EveryTransferEnds | software/src/waveformRecorder.c:344-610 | until the recorder is armed again, the moves of a run are bounded by a budget known at its start; once they are spent the recorder is idle; everything sent is paid for by a move |
| WfrTermination.RepeatsAreBounded | software/src/waveformRecorder.c:534-610 | without an accepted acknowledgement nothing is sent more than RETRY_LIMIT times |
| WfrTermination.StaleAcksChangeNothing | software/src/waveformRecorder.c:344-377 | an acknowledgement changes nothing and sends nothing if and only if it is late, foreign, for another waveform or no acknowledgement at all |
| WfrTermination.DuplicatedHeaderAckSkipsBlockZero | software/src/waveformRecorder.c:344-377 | a second acknowledgement of the header also acknowledges block 0 |
| WfrTermination.StartMatchesCountIff | software/src/waveformRecorder.c:383-433 | the window starts where its announced length says exactly when the acquisition count was not raised above what the hardware acquired, or nothing was acquired and the count asks for the whole ring |
| WfrTermination.RaisedCountShiftsWindow | software/src/waveformRecorder.c:383-433 | a concrete state, sound and in place, in which a raised count makes the first packet start too early |
| WfrTermination.LoweredCountMovesWindow | software/src/waveformRecorder.c:383-433 | a concrete state in which a lowered count and a header without a buffer move the window past the last byte written |
| WfrDelivery.StepKeepsNetwork | software/src/waveformRecorder.c:274-694 | with a network that loses, repeats, delays and reorders, every event keeps what was sent and received blocks of the window of the current waveform number |
| WfrDelivery.LeavingMeansReceivedIff | software/src/waveformRecorder.c:344-377 | when the sender leaves a block, the receiver is sure to have it if and only if the acknowledgement does not answer a header |
| WfrDelivery.StepDeliversIff | software/src/waveformRecorder.c:344-377 | an event keeps the receiver in possession of every block left behind if and only if it is not an answer to a header that is taken for one to a missing block 0 |
| WfrDelivery.RunDeliversIff | software/src/waveformRecorder.c:274-610 | the same for whole runs, at all times |
| WfrDelivery.FinishedIsWhole | software/src/waveformRecorder.c:274-377 | a transfer that ends with its last acknowledgement is complete at the receiver, and can only be put together to the window |
| WfrDelivery.EveryRunDelivers | software/src/waveformRecorder.c:274-694 | end to end, for every run from an idle recorder: then the receiver has the last bytes written, in time order, under the two exact conditions on header counts and on answers to headers |
| WfrProgress.UndisturbedTransferDelivers | software/src/waveformRecorder.c:274-650 | a recorder that is armed, filled and scanned, with every packet and acknowledgement arriving, delivers the last bytes written, as many as the acquisition count asked for |
| WfrProgress.HeaderFollowsAcquisition | software/src/waveformRecorder.c:534-650 | arming, an acquisition and one scan send the header of a new waveform with its time stamp and window |
| WfrDelivery.RetriedHeaderIsMistaken | software/src/waveformRecorder.c:586-600 | a header sent again for a late acknowledgement, both answered as they should be, makes the sender leave block 0, or end the transfer, while the receiver has nothing |
| WfrTermination.ScanServesEachOnce | software/src/waveformRecorder.c:545-556 | counting on from the recorder last served, n consecutive numbers modulo n meet each recorder exactly once |
| WfrProtocol.Fits | software/src/waveformRecorder.c:398-401 | an acquisition count in range never makes the start offset underflow, and the window fits the ring |
| WfrProtocol.RoundedUp | software/src/waveformRecorder.c:640-690 | a clamped count rounded up to whole words still fits the ring |
| WaveformRecorder.RecorderData.CopyPayload | software/src/waveformRecorder.c:281-313 | the payload is the next block of the ring, through the split copy, and only the buffer is written |
| WaveformRecorder.RecorderData.DataPacket | software/src/waveformRecorder.c:274-337 | state and packet are those of the protocol step, including the case without a buffer |
| WaveformRecorder.RecorderData.AckPacket | software/src/waveformRecorder.c:344-377 | state and packet are those of the protocol step |
| WaveformRecorder.RecorderData.HeaderPacket | software/src/waveformRecorder.c:383-433 | state and packet are those of the protocol step |
| WaveformRecorder.RecorderData.CheckForWork | software/src/waveformRecorder.c:534-610 | full, timeout, retry and give-up are those of the protocol step |
| WaveformRecorder.RecorderData.ArmCommand | software/src/waveformRecorder.c:626-650 | arming programs the hardware and forgets the transfer; disarming forgets the acquisition |
| WaveformRecorder.RecorderData.AcquisitionCountCommand | software/src/waveformRecorder.c:670-682 | the count is clamped and rounded up; zero is ignored |
| WaveformRecorder.Scanner.Advance | software/src/waveformRecorder.c:545-556 | the pair of static indices steps through all recorders cyclically |
| WaveformRecorder.Scanner.ServeAll | software/src/waveformRecorder.c:545-556 | as many consecutive calls as there are recorders visit every pair of chain and recorder exactly once, and end where they began |
| WaveformRecorder.WfrInit | software/src/waveformRecorder.c:143-258 | the rings of a chain are pairwise disjoint |
| TftpRuns.RunStaysInStep | software/src/tftp.c:210-384 | over channels that lose and duplicate but keep order, every reachable state of client, server and channels is in step |
| TftpRuns.UploadDelivers | software/src/tftp.c:313-362 | the open file is always the first k blocks with lastBlock = k mod 65536, for files of any length; the post-receive hook runs exactly once, on the whole file, and before the client has its last acknowledgement; the file is committed, once and then, if and only if the hook gave more than 0 |
| TftpRuns.DownloadDelivers | software/src/tftp.c:147-184 | the client always holds a prefix of the file, and the whole file after floor(length / 512) + 1 blocks |
| TftpRuns.EveryBlockSentIsRight | software/src/tftp.c:363-378 | whatever acknowledgements arrive, every data packet holds the 512-byte slice its number says |
| TftpJobs.RequestRoundTrip | software/src/tftp.c:235-260 | name and mode are found in every request as RFC 1350 section 5 lays it out |
| TftpJobs.ReadsSlice | software/src/tftp.c:147-184 | reading where block k starts gives block k, empty at the very end |
| TftpJobs.WriteAppends | software/src/tftp.c:313-335 | writing at the end of the open file appends |
| TftpJobs.UploadRepeats | software/src/tftp.c:313-362 | a repeated block is acknowledged again and not written again; the last one is ignored |
| TftpJobs.DownloadMovesOn | software/src/tftp.c:363-378 | the acknowledgement of the block just sent moves on to the next, or closes the file after a short one |
| TftpJobs.DownloadOnAnyAck | software/src/tftp.c:363-378 | any other acknowledgement resends the same block |
| TftpReplies.RequestIsAnswered | software/src/tftp.c:235-312 | every well-formed request gets one answer: an error exactly if its mode, name, hook or file is refused, else the first block of the file as the hook left it, or acknowledgement 0 and an empty file |
| TftpReplies.MatchesIff | software/src/tftp.c:185-206 | a name matches a table entry if and only if it is the entry's stem, anything, and the entry's extension, in letters of any case |
| TftpReplies.SameLetterIff | software/src/tftp.c:185-206 | two bytes count as the same if and only if they are, or are a capital and a small letter of the same kind |
| TftpReplies.LastBlockIsDigested | software/src/tftp.c:330-362 | a short block ends an upload: stored, digested, committed if and only if that gave more than 0, and acknowledged even if the digest is refused, after an error |
| TftpReplies.DataNeedsAFile | software/src/tftp.c:313-335 | data without an open file draws an error and is stored nowhere |
| TftpReplies.AckInUpload | software/src/tftp.c:363-378 | an acknowledgement of the last block during an upload ends it without digesting it, or draws an error after a full block |
| TftpReplies.StrayIsIgnored | software/src/tftp.c:225-378 | packets that are too short, of another kind, out of turn, or of no transfer change nothing and get no answer |
| TftpServer.FileServer.ReceiveCallback | software/src/tftp.c:210-384 | the packet handler's state and replies are those of the specification, for every packet |
| TftpServer.FileServer.HandleRequest | software/src/tftp.c:235-312 | requests: name, mode, table lookup, pre-transmit hook, opening for reading or writing, and each error reply |
| TftpServer.FileServer.HandleData | software/src/tftp.c:313-362 | data packets: new, repeated, unexpected and last block |
| TftpServer.FileServer.SendBlock | software/src/tftp.c:147-184 | reads and caches a block, or resends the cached one |
| TftpServer.FileServer.FindEntry | software/src/tftp.c:185-206 | the first table entry whose stem and extension match, ignoring case |
| Epics.RepeatIsFree | software/src/epics.c:310-338 | a request that arrives again at once changes nothing and gets the same reply |
| Epics.RepeatedStreamActsOnce | software/src/epics.c:310-338 | a stream in which every request is repeated any number of times acts as the stream without repeats, and every repeat gets a byte-identical reply |
| Epics.DeviceSeesExecuted | software/src/epics.c:310-338 | whatever arrives, the device sees the executed requests, each once and in order, and nothing else |
| Epics.FreshIsAnswered | software/src/epics.c:310-338 | a fresh request is answered by the application's handler if it recognises it, else by the common one on the device as the first left it; there is no reply if and only if both decline |
| Epics.CommonCommandIsAnswered | software/src/epics.c:310-338 | a concrete command that the application declines and the common handler answers |
| Epics.StrayIsIgnored | software/src/epics.c:264-300 | datagrams of less than 3 or more than 353 words, broken ones, and ones without a magic number change nothing |
| Epics.RequestIsWellFormed | software/src/epics.c:264-300 | all others are taken for requests |
| Epics.AllExecutedIff | software/src/epics.c:310-338 | every request of a run is executed if and only if each has another nonce than the last one answered before it, or than the server's start value, which is 0 |
| Epics.NeighboursDiffer | software/src/epics.c:310-338 | where every request is answered this says that neighbouring requests differ in their nonces |
| Epics.DeviceShowsIff | software/src/epics.c:310-338 | on a device that counts its commands it holds if and only if the device has had them all |
| Epics.RepeatedStreamExecutesOnce | software/src/epics.c:310-338 | a client that repeats each request any number of times has each executed exactly once, under that condition on the requests without repeats |
| Epics.RepeatedStreamShowsIff | software/src/epics.c:310-338 | on a device that counts its commands, it has had every request exactly once if and only if the condition holds |
| Epics.UnknownCommandHidesNext | software/src/epics.c:310-338 | different neighbours are not enough: a concrete run in which an unrecognised command makes a later new request count as a repeat |
| Epics.FreshStreamExecutesAll | software/src/epics.c:310-338 | if each request has another nonce than the last one answered before it, the device sees every command exactly once, in order |
| Epics.SwappedRequestSwapsReply | software/src/epics.c:264-344 | a byte-swapped request has the same effect and gets exactly the byte-swapped reply |
| Epics.TransparentIff | software/src/epics.c:264-344 | for every well-formed request, the byte-swapped request gets the byte-swapped reply if and only if it is fresh or the cached reply reads the same both ways |
| Epics.TransparentAfterRunIff | software/src/epics.c:264-344 | after any run from start-up: if and only if it is fresh, or repeats nonce 0 before anything was answered |
| Epics.SwappedRepeatIsNotSwapped | software/src/epics.c:310-338 | a concrete request whose repeat in the other byte order gets the same words as before |
| Epics.NonceZeroIsNeverExecutedFirst | software/src/epics.c:268-320 | after start-up a request is taken for a repeat exactly when its nonce is zero |
| Epics.SwapTwice | software/src/epics.c:47-54 | swapping a word twice gives it back |
| Epics.SwapReversesBytes | software/src/epics.c:47-54 | it puts the four bytes in the opposite order |
| EpicsServer.BSwap32 | software/src/epics.c:47-54 | the loop swaps every word of the buffer in place and no other |
| EpicsServer.CommandServer.Callback | software/src/epics.c:264-344 | the handler's state and reply are those of the specification, for every datagram |
| CellComm.EveryRunIsOrderly | software/src/cellComm.c:67-145 | for every run: the register equals `control`; its writes are (A 0 (AG A 0)?)*, perhaps unfinished; the transceiver is reset only after an Aurora-only reset of the same outage; each value is held longer than its limit in true time |
| CellComm.DownLinkIsReset | software/src/cellComm.c:67-145 | recovery: after any run that leaves the link up, once it stays down every look after the first, if each comes later than the wait in force and before the clock wraps, makes the next write of a long attempt, and then of another one, without end |
| CellComm.WritesIff | software/src/cellComm.c:67-145 | a look at which the link is down begins an outage if and only if it was up; a waiting state writes if and only if the time since its entry, as the wrapping clock shows it, exceeds its limit and the link is still down where it is looked at; a link that is up ends the waits |
| CellComm.WaitBeginsOnEntry | software/src/cellComm.c:67-145 | that time counts from the look at which the state was entered |
| CellComm.HealthyLinkIsLeftAlone | software/src/cellComm.c:67-86 | a link that stays up is never written to |
| CellComm.ClockNeverRunsAhead | software/src/cellComm.c:67-80 | the time since a timer start as the wrapping 32-bit clock shows it is never more than the true time |
| CellComm.CrankKeepsTimed | software/src/cellComm.c:67-145 | one look keeps the timing of all writes |
| CellComm.CrankKeepsEscalates | software/src/cellComm.c:67-145 | one look keeps the order of escalation |
| CellComm.CrankKeepsShape | software/src/cellComm.c:67-145 | one look keeps the trace a sequence of whole attempts and one begun |
| CellComm.CellCommInfo.Crank | software/src/cellComm.c:67-145 | the method on fields and register makes exactly that step, seeing only the 32-bit clock |
| CicScaling.CicShift | software/src/localOscillator.c:192-204 | the shift is the least s with 2^s >= D^n |
| CicScaling.LeastShiftIsUnique | software/src/localOscillator.c:192-204 | there is only one such shift |
| CicScaling.ShiftIsRight | software/src/localOscillator.c:225-245 | with the programmed shift, Dactual^n * 2^shift stays within the power of two covering Dconfig^n unless the warning is raised, is more than half of it when unclamped, and the warning is raised, with shift 0, exactly when no shift can help |
| CicScaling.DecimationIsQuotient | software/src/localOscillator.c:210-224 | where nothing wraps around, the actual factor is how often table length times divisor goes into 4 times marker times multiplier |
| CicScaling.Accumulator.AdjustCicShift | software/src/localOscillator.c:225-245 | the control register is reprogrammed to that shift, no other field of it changes, and equal factors change nothing |
| CicScaling.Accumulator.OptimizeCicShift | software/src/localOscillator.c:210-255 | the same for the decimation factor computed from the parameters |
| CicScaling.Accumulator.SetFaSumShift | software/src/localOscillator.c:153-187 | the shift is clamped to 0..15 and only its field is written |
| Coefficients.ScaleIsNearest | software/src/localOscillator.c:139-151 | the quantiser errs by at most half a step and treats both signs alike |
| Coefficients.ScaleIsMonotone | software/src/localOscillator.c:139-151 | the quantiser keeps order |
| Coefficients.NothingLiesHalfway | software/src/localOscillator.c:341-345 | with an odd scale factor no entry lies halfway between two millionths, so six-decimal printing does not depend on how ties are rounded |
| Coefficients.MillionthsIsNearest | software/src/localOscillator.c:341-345 | printing with six decimals errs by at most half a millionth, which is scale / 2000000 steps |
| Coefficients.PrintedReads | software/src/localOscillator.c:341-345 | what is printed with six decimals is read as that many millionths, using exactly the printed characters, if neither a digit nor an exponent follows |
| Coefficients.MillionthsAreFineEnough | software/src/localOscillator.c:139-151 | rounding to millionths and scaling back restores every integer for scales below a million |
| Coefficients.EntryRoundTrip | software/src/localOscillator.c:270-345 | reading a printed entry uses exactly its characters if and only if no exponent follows; then it survives, and is refused exactly when below -1 |
| Coefficients.ExponentIsTaken | software/src/localOscillator.c:270-283 | an exponent directly behind an entry is read as a part of it |
| Coefficients.PrintedIsNineWide | software/src/localOscillator.c:68-83 | entries within -1 and 1 take nine characters |
| CoefficientText.PrintedTableParses | software/src/localOscillator.c:260-357 | a printed table parses as itself if and only if it has 29 to capacity rows and no entry below -1; otherwise it is refused |
| CoefficientText.CrlfIsRefused | software/src/localOscillator.c:276-300 | a table with CRLF lines is never accepted, although a carriage return is accepted at the end of a row |
| CoefficientText.CommaIsNotChecked | software/src/localOscillator.c:274-283 | the character between the numbers of a row is never checked, as long as it is not a digit and begins no exponent |
| CoefficientText.LetterJoinsNumbers | software/src/localOscillator.c:274-283 | a concrete letter e between two numbers that makes one number of both |
| CoefficientText.RowEnds | software/src/localOscillator.c:276-283 | a row ends at a carriage return as at a line feed, and at nothing else |
| CoefficientText.TextIsTenWide | software/src/localOscillator.c:68-83 | the text of a table of fractions takes ten characters a number, as the buffer sizes assume |
| CoefficientTable.DownloadThenUpload | software/src/localOscillator.c:260-357 | download and upload restore a whole table, under the same exact condition |
| CoefficientTable.AcceptedIsUsable | software/src/localOscillator.c:402-406 | an accepted table passes the checksum gate if and only if it has fewer rows than fit: an upload that fills the array is accepted but never used |
| CoefficientTable.CellsAreDistinct | software/src/localOscillator.c:415-434 | every entry has a memory word of its own, through banks, row and sine flag |
| CoefficientTable.CellsOfRow | software/src/localOscillator.c:415-434 | cosine and sine of a row are neighbours; those of the two pilot tones are in banks 1 and 2 |
| CoefficientTable.FieldRoundTrip | software/src/localOscillator.c:110-120 | a value is recovered from its two's-complement field if and only if it fits |
| CoefficientTable.MemoryDecodes | software/src/localOscillator.c:395-441 | the committed memory image decodes to exactly the table where entries fit their fields |
| CoefficientTable.Table.SetTable | software/src/localOscillator.c:260-305 | an upload is stored, with row count and checksum, exactly when the text parses; a refused one keeps row count and checksum but has overwritten exactly the entries before the mistake |
| CoefficientTable.RefusedKeepsTableIff | software/src/localOscillator.c:402-406 | after a refused upload the old table still passes the gate if and only if the entries that came and those that went have the same plain sum modulo 2^32 |
| CoefficientTable.Table.GetTable | software/src/localOscillator.c:322-357 | prints as many whole numbers as the row count claims, the array holds and the buffer has room for |
| CoefficientTable.Table.Write | software/src/localOscillator.c:395-441 | writes every entry to its word and changes no other word, if and only if the table passes the gate |
| CoefficientTable.Table.WriteTable | software/src/ptGen.c:83-93 | the address and control registers select bank, row and sine flag without overlap |
| CoefficientText.FormatsAreValid | software/src/ptGen.c:24-57 | the three tables (two columns, four columns, generator) are instances of the same format |
| TableSum.ComputeCheckSum | software/src/localOscillator.c:91-105 | the running sum over rows and columns is the checksum of the table modulo 2^32 |
| TableSum.CheckSumInClosedForm | software/src/localOscillator.c:91-105 | a whole table's checksum is seed, row count, plain sum and half of rows * cols * (rows + cols - 2), modulo 2^32 |
| TableSum.CheckSumsAgreeIff | software/src/ptGen.c:64-78 | the checksums of two tables of the same shape agree if and only if the plain sums of their entries agree modulo 2^32 |
| TableSum.OverwritingShowsIff | software/src/ptGen.c:64-78 | overwriting the first entries keeps the checksum if and only if their plain sum stays the same modulo 2^32 |
| TableSum.OneChangeShows | software/src/ptGen.c:64-78 | a change of one entry shows in the checksum if and only if it is no multiple of 2^32 |
| TableSum.ExchangeNeverShows | software/src/ptGen.c:64-78 | an exchange of two entries never does, although each term depends on its position |
| ClockTable.PrintedTableParses | software/src/rfclk.c:512-577 | printed values parse as themselves if and only if there are 11 to 512 of them |
| ClockTable.CrlfAddsAZero | software/src/rfclk.c:522-550 | a file with CRLF lines is read with one more value, zero, at its end |
| ClockTable.LineIsRead | software/src/rfclk.c:522-540 | a line is read as its number modulo 2^32, up to line feed or carriage return |
| ClockTable.StoredIsUsable | software/src/rfclk.c:95-107 | a stored table validates if and only if it has 10 to 511 values: the longest upload is never used |
| ClockTable.AdjustedChangesTwoBits | software/src/rfclk.c:156-168 | a synthesizer's register 0 differs from the table in bits 2 and 3 only; other registers do not differ |
| ClockTable.ClockChip.SetTable | software/src/rfclk.c:512-555 | an upload is stored with count and checksum exactly when the text parses; a refused one has overwritten exactly the values before the mistake, under the old count and checksum |
| ClockTable.RefusedKeepsTableIff | software/src/rfclk.c:95-107 | after a refused upload the old table still validates if and only if the values that came and those that went have the same plain sum modulo 2^32 |
| ClockTable.ClockChip.GetTable | software/src/rfclk.c:561-577 | the text of all values, one a line |
| ClockTable.ClockChip.FormatValuesToTable | software/src/rfclk.c:492-506 | stores a list of values with count and checksum, unless it is too long |
| ClockTable.ClockChip.Write | software/src/rfclk.c:429-454 | a chip receives exactly the table's values in order; a synthesizer a reset first, register 0 adjusted, and two start writes made from what register 0 reads back; nothing from a table that does not validate |
| ClockTable.ClockChip.Init2594 | software/src/rfclk.c:140-172 | reset, then all values in order with register 0 adjusted |
| ClockTable.ClockChip.Start2594 | software/src/rfclk.c:179-214 | two more writes of register 0, with bit 3 and with bit 2 set in what it read back |
| ClockTable.StartCalibratesFirst | software/src/rfclk.c:179-214 | the first of them sets bit 3 and the second bit 2 instead; all other bits are as read back |
| ClockTable.ClockChip.InitLmk04xx | software/src/rfclk.c:112-125 | all values in order |
| CNumbers.StrtoulReads | software/src/rfclk.c:528 | a number printed in decimal is read as decimal with base 0, zero included |
| CNumbers.StrtoulReadsHex | software/src/rfclk.c:528 | digits behind 0x are hexadecimal |
| CNumbers.StrtoulReadsOctal | software/src/rfclk.c:528 | digits behind a zero are octal |
| Numerals.NumeralReads | software/src/serdes.c:85-96 | a decimal numeral of any form, with or without sign, point and exponent, is read back as itself, using exactly its characters, unless what follows would be taken for a part of it |
| Numerals.MantissaThenExponent | software/src/localOscillator.c:270-283 | a numeral without exponent takes on the exponent that follows it |
| Numerals.ExponentForms | software/src/serdes.c:85-96 | an exponent may be capital and unsigned |
| Numerals.PlusIsIgnored | software/src/serdes.c:85-96 | a numeral may have a plus sign |
| Serdes.FieldsRoundTrip | software/src/serdes.c:11-75 | bytes printed with separators, in hexadecimal or decimal, are read back, using exactly the printed characters |
| Serdes.AddressOfFields | software/src/serdes.c:43-75 | the four printed bytes make the address again |
| Serdes.PrintedForms | software/src/serdes.c:11-51 | concrete forms: the first number of an address is its most significant byte; hexadecimal bytes are two capitals |
| Serdes.NumbersAreFieldsIff | software/src/serdes.c:53-75 | numbers with points between them are read as an address if and only if enough of them are there and these are bytes |
| Serdes.NegativeIsRefused | software/src/serdes.c:53-75 | a negative field is refused |
| Serdes.ParseMAC | software/src/serdes.c:22-41 | the loop reads six bytes or fails as specified; bytes read before a failure have been stored |
| Serdes.ParseIP | software/src/serdes.c:53-75 | the accumulating loop reads an address or fails as specified; a failure stores nothing |
| Scalars.IntRoundTrip | software/src/serdes.c:118-136 | every int survives printing and parsing, whatever the field held |
| Scalars.Int4RoundTrip | software/src/serdes.c:126-144 | so does every int printed with at least four characters |
| Scalars.Int4IsFourWide | software/src/serdes.c:138-144 | it takes four characters, or as many as it needs |
| Scalars.NumberIsTakenIff | software/src/serdes.c:85-96 | a number is only taken if a comma or the end of the line follows |
| Scalars.NoNumberIsRefused | software/src/serdes.c:85-96 | a text without a number is refused |
| Scalars.NumberIsStoredIff | software/src/serdes.c:85-136 | every decimal number, with point and exponent or without, is accepted in an int field, and stored if and only if it is an int; otherwise the field keeps its value |
| Scalars.RoundingIsHarmless | software/src/serdes.c:126-136 | what is stored does not depend on the rounding of the number to a double, where its digits make less than 2^53 |
| Scalars.FractionIsIgnored | software/src/serdes.c:126-136 | a fraction of either sign in an int field is accepted and leaves the field as it was |
| Scalars.HexRoundTrip | software/src/serdes.c:146-165 | every int survives printing and parsing in hexadecimal, negative ones included |
| Scalars.HexIsTakenIff | software/src/serdes.c:146-157 | a hexadecimal number is only taken if a comma or the end of the line follows |
| Scalars.TrimReads | software/src/systemParameters.c:123-138 | a trim printed in quarters of a decibel is read exactly |
| Scalars.AnyTrimIsRead | software/src/systemParameters.c:140-163 | any number is a trim, to the nearest quarter, if and only if it is not negative and below 1.8 |
| Scalars.TrimsRoundTrip | software/src/systemParameters.c:123-163 | four printed trims are read back if and only if all are between 0 and 1.75 dB |
| Scalars.PrintedTrimsRead | software/src/systemParameters.c:123-163 | of printed trims that are refused exactly those before the first bad one have been stored |
| Scalars.AcceptedTrimsRead | software/src/systemParameters.c:140-163 | of trims that are accepted all have been stored |
| Scalars.ParseAtrim | software/src/systemParameters.c:140-163 | the scanning loop with its changing terminator reads the trims or fails as specified; trims read before a failure have been stored |
| ParameterNames.SearchConvName | software/src/systemParameters.c:399-433 | the one matching entry, or that there is none or more than one |
| ParameterNames.LookupIsUnique | software/src/systemParameters.c:409-433 | a lookup has only one answer |
| ParameterNames.FullNameFindsItsEntry | software/src/systemParameters.c:169-433 | every full parameter name, in letters of any case, resolves to its own entry and no other under the prefix match |
| ParameterNames.LineFeedIsMissing | software/src/systemParameters.c:409-433 | what holds a line feed is the name of nothing, so lines without a comma are passed over |
| SystemParameters.ValueRoundTrip | software/src/systemParameters.c:453-464 | every value a field can hold is read back from its printed form, whatever the field held before; of trims that are refused those before the bad one are stored |
| SystemParameters.FloatIsTakenIff | software/src/serdes.c:85-116 | a floating point number is only taken if a comma or the end of the line follows; otherwise the field keeps its value |
| SystemParameters.LineIsRead | software/src/systemParameters.c:517-552 | one line, its name in letters of any case and its end one of the allowed ones, is read as its parameter and uses nothing of the next |
| SystemParameters.SerialisedBlockParses | software/src/systemParameters.c:453-569 | serialising any block and parsing the text restores every field; with a trim out of range it restores all fields before the trims and the trims before the bad one, and fails |
| SystemParameters.DressedBlockParses | software/src/systemParameters.c:500-569 | so does any text that differs in its dress only: lines that are passed over before any of its lines, names in other letters, other line ends and trailing commas |
| SystemParameters.UnknownLineIsSkipped | software/src/systemParameters.c:527-535 | a line with an unknown name, or without a comma before a line that has one, changes nothing, and nothing of the next line is used up |
| SystemParameters.UnknownNameIsSkipped | software/src/systemParameters.c:527-535 | in particular a name that matches no entry, a comma, and anything up to a line feed |
| SystemParameters.CrlfIsAccepted | software/src/systemParameters.c:551-559 | a parameter file with CRLF lines is read like one without |
| SystemParameters.NoCommaEndsTooEarly | software/src/systemParameters.c:515-519 | a text without a comma fails as ended too early |
| SystemParameters.AmbiguousNameStops | software/src/systemParameters.c:521-525 | a name that several entries begin with stops the parser |
| SystemParameters.SingleLineParses | software/src/systemParameters.c:540-566 | a file with a single parameter is accepted if and only if all others were seen in earlier files; it changes only that field, except that the debug flags overwrite the RF divisor behind them with their sign |
| SystemParameters.SavedFileIsAcceptedIff | software/src/systemParameters.c:571-597 | a saved file is taken again if and only if its rotation is 0, 45 or 90 and none of its three clock settings is below 1000; every field is as saved, a rotation of 90 becoming 0 |
| SystemParameters.ParameterFile.GetTable | software/src/systemParameters.c:453-464 | the text is the lines of all parameters in table order |
| SystemParameters.ParameterFile.ParseTable | software/src/systemParameters.c:500-569 | fields, flags and problem are those of the specification, for every text; what a failing line stored stays |
| SystemParameters.ParameterFile.SetTable | software/src/systemParameters.c:571-597 | acceptance, fields and flags are those of the specification, for every text |
| AxiMonitor.TB.CheckAxiSnapshot | gateware/modules/genericWaveformRecorder_test/genericWaveformRecorder_test.py:576-716 | the stateful monitor accepts a clock exactly when it is legal, given everything transferred before |
| AxiMonitor.TB.MonitorAxi | gateware/modules/genericWaveformRecorder_test/genericWaveformRecorder_test.py:730-750 | a whole trace is accepted exactly when every clock of it is legal, and the beats are counted |
| AxiMonitor.TB.CheckStable | gateware/modules/genericWaveformRecorder_test/genericWaveformRecorder_test.py:600-632 | a waiting offer must be repeated unchanged, on both channels |
| AxiMonitor.TB.CheckAddress | gateware/modules/genericWaveformRecorder_test/genericWaveformRecorder_test.py:637-664 | a burst may start only when all announced data has arrived, and only at the next address of the ring |
| AxiMonitor.TB.CheckData | gateware/modules/genericWaveformRecorder_test/genericWaveformRecorder_test.py:667-716 | a beat must belong to a burst, be marked last exactly at its end, and carry the next sample |
| AxiMonitor.Repeated32 | gateware/modules/genericWaveformRecorder_test/genericWaveformRecorder_test.py:208-217 | a lane value repeated over the bus width |
| AxiMonitor.SampleNumberInvertsLane | gateware/modules/genericWaveformRecorder_test/genericWaveformRecorder_test.py:687-700 | both payload patterns number samples one-to-one modulo 2^32 |
| AxiMonitor.TestPatternFlipsTwoBits | gateware/modules/genericWaveformRecorder_test/genericWaveformRecorder_test.py:687-700 | the test pattern inverts bits 29 and 31 and leaves the others |
| AxiSoundness.AddressesFollow | gateware/modules/genericWaveformRecorder_test/genericWaveformRecorder_test.py:637-664 | on every accepted trace the n-th burst starts at base + (bytes of all earlier bursts mod span) |
| AxiSoundness.BeatsAreAnnounced | gateware/modules/genericWaveformRecorder_test/genericWaveformRecorder_test.py:667-716 | on every accepted trace the beats are those of all bursts but the last, and part of the last |
| AxiSoundness.LastMarksBurstEnds | gateware/modules/genericWaveformRecorder_test/genericWaveformRecorder_test.py:667-674 | on every accepted trace a beat is marked last if and only if it is the last of its burst |
| AxiSoundness.SamplesFollow | gateware/modules/genericWaveformRecorder_test/genericWaveformRecorder_test.py:676-708 | on every accepted trace beat k carries, in every lane, sample s0 + k modulo 2^32 |
| AxiSoundness.OfferedAddressIsStable | gateware/modules/genericWaveformRecorder_test/genericWaveformRecorder_test.py:600-632 | on every accepted trace an address that is offered and not taken stays the same until it is |
| AxiSoundness.OfferedDataIsStable | gateware/modules/genericWaveformRecorder_test/genericWaveformRecorder_test.py:600-632 | and so does data |
| AxiSoundness.SizeIsBusWidth | gateware/modules/genericWaveformRecorder_test/genericWaveformRecorder_test.py:576-600 | on every accepted trace beats are as wide as the bus with all bytes valid |

## Left out

- Xilinx data converter driver, lwIP and FatFs: a tile change is one step that succeeds or fails, a packet buffer is there or not, files are a map from names to bytes, and interrupts, delays and console output are left out.
- A tile change inside the driver (from FULL to CLK_DET it passes through SHUTDOWN) is one atomic step; a failing change may leave its tile in any state.
- Tiles that are disabled in the converter's configuration, and the two converter kinds side by side: one object stands for the tiles of one kind, all enabled. Resetting all tiles (rfADCrestart) is left out.
- TileBank.Tiles.SyncType: the synchroniser itself is foreign; what is modelled is the group it is given and what is saved and restored around it. When SYSREF cannot be configured the firmware returns early and leaves tile 0 requested; the method states that.
- The recorder's hardware reports a full ring before its FIFO has drained (genericWaveformRecorder.v); that nothing is written after that is an assumption of the event Acquire. The diagnostic check of test data in waveformRecorder.c is left out; the command index decoding of waveformRecorderCommand is one event per command.
- WfrRuns.EveryRunIsTruthful: holds for runs whose headers are built with fitting counts, because otherwise the firmware sends a misplaced window; WfrRuns.PlacementIsKeptIff and WfrRuns.RunStaysInPlaceIff say that this is the exact condition.
- WfrDelivery.EveryRunDelivers: acknowledgements that are accepted come from the receiver itself, and no packet survives until its waveform number comes round again after 2^32 of them.
- WaveformRecorder.WfrInit: lays out one chain; that chains do not overlap depends on the linker script, which is not part of this model.
- TftpRuns.UploadDelivers: file calls succeed and the hooks report success (TftpReplies says packet by packet what happens when they do not); the server does not answer a last block that arrives again after the file was closed, so a client whose last acknowledgement is lost learns nothing, as the model shows.
- Epics.RepeatedStreamActsOnce: a command that fails is taken to leave the device alone when it is repeated; such a command also overwrites the header of the cached reply, so nothing is said about replies to older nonces after a failure. What commands do is a parameter.
- CicScaling.CicShift: floating point is modelled by real numbers. localOscWrite computes the decimation factor also for a refused table; with a row count of zero it divides by zero, which the precondition of OptimizeCicShift excludes, as it excludes a quotient that does not fit an int.
- Coefficients.Scale: real numbers stand for doubles; no entry is near a rounding boundary of the six printed decimals (Coefficients.NothingLiesHalfway). A value too large for an int is not cut off.
- CNumbers.Strtod: decimal numbers only, as exact reals; hexadecimal numbers, infinities and NaNs are not recognised, and numbers are not rounded to doubles. Texts are taken to end in a NUL and to hold no other.
- CoefficientTable.Table.SetTable: says nothing of texts with such numbers, nor of entries too large for an int.
- Scalars.NumberIsStoredIff: speaks of the exact number, and so does Scalars.FractionIsIgnored; where the digits make 2^53 or more, or the number is below the normal doubles, one that a double cannot tell from an int is stored as that int. A double outside int is converted as this processor does it, to the nearest int, so it differs and is not stored.
- Counting of good tables and starting the oscillators in localOscWrite, ptGenRun, the EEPROM files and their staging buffers; the clock tables' staging buffer is taken to be large enough for the text.
- rfClkGenWrite copies rowCount bytes, not words, to its destination; every caller passes none, so no copy is modelled. The lock check of a synthesizer while it is started only reads the chip, and reading back all its registers is a diagnostic; both are left out.
- SystemParameters.ValueRoundTrip: a floating point parameter is represented by a decimal numeral for it; its rounding to seven printed digits and to a float is not modelled. Trims above 10000 dB would be printed with digits missing, from a million on with an exponent.
- SystemParameters.ParameterFile.ParseTable: says nothing of floating point fields set to hexadecimal numbers, infinities or NaNs. Line numbers in error messages and the checksum over the parameter memory are left out.
- TftpServer.FileServer.HandleRequest: how the file system folds file names, and whether a file can be opened for writing, are parameters; reading an existing file never fails.
- The second entry point memmove2 and bcopy2 of memcpy2.c only reorder arguments.
- The monitor's exceptions are a result, and it stops at the first clock it does not accept; the recorder registers it also samples, reset and the other test procedures are left out.
- mgt.c, ami.c, rpb.c, sysmon.c, evr.c, positionCalc.c, autotrim.c, mmcm.c, fanCtl.c, bpmComm.c, display, console, eye scans, boot code and scripts: register packing, fixed tables and user interface that would only add easy members.
