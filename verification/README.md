# Proofs about the NAS front-panel drivers

The repository holds the kernel drivers and scripts of a NAS: a touch controller
with a firmware loader, an embedded controller behind a two-byte mailbox, buttons,
a beeper, and LEDs. This project models the parts of them that run a protocol or
keep state, each as host code against a device or an environment that may do
anything its interface allows, and proves statements about all runs.

`dafny verify dfyconfig.toml` checks everything.

## How the models are built

* Source code that changes state is a class with the source's fields, or a method
  with the source's loops. Its contract gives the new state, mostly through a
  function (`Step`, `Tick`, `Parse`, `Writes`); the statements about whole runs are
  lemmas about that function.
* What the source cannot control is an oracle over a count of transfers or polls:
  what the I2C adapter does with its k-th transfer (`I2cBus.Env`), how far the
  embedded controller gets before the k-th port access (`Mailbox.schedule`), how the
  LED microcontroller answers (`LedFrame.Env`). A lemma or contract without a
  condition on the oracle holds for every behaviour.

| files | what they model |
|---|---|
| `Bytes`, `Controller`, `I2cBus`, `Packets` | bytes, the touch controller as flash and program RAM, the I2C layer, packets |
| `FlashUpgrade`, `PramDownload`, `PramReadCheck` | the firmware loaders |
| `RegisterCommands` | the register commands of the running touch application |
| `TouchFrame`, `TouchScreen`, `TouchRuns` | the touch frame, the driver, its runs |
| `Watchdog` | the ESD watchdog |
| `EcMailbox`, `EcRuns` | the embedded-controller mailbox, runs of calls, its clients |
| `Buttons`, `ButtonTraces`, `ButtonRounds` | the button monitor, its traces and its reports |
| `Beeper`, `BeeperRuns` | the beeper timer and its runs |
| `LedFrame`, `LedBlink`, `HddLeds` | LED frames, blink timing, the disk-LED daemon |

## What holds, and what does not

**Flash loader.** If the loader reports success and no transfer of the read-back was
short, the flash holds the image, whatever became of the plain writes and of the status
polls (`FlashUpgrade.Upgrade`, `FirmwareUpgrade`). The loader takes a short count for
success, so for arbitrary counts success means that each packet equals what was
delivered of it over what the buffer held before, which is the packet before it
(`FlashReadCheck`). That verdict is sound for all images and memories if and only if no
read-back transfer is short, or one fails outright (`VerdictSoundExactly`); a bus whose
reads are whole or negative is one case (`FaithfulPassIsSound`). A plain write that is
reported less than whole ends the upgrade at once, with failure and no transfer after
it, and success means that every one was reported whole (`FlashInit`, `FlashErase`,
`FlashWrite`, `FirmwareUpgrade`). `ShortReadsFoolTheLoader` is a run of the whole loader
that reports success over a flash it never wrote: polls are whole, the read-back is
short, the image is blank and of any size that the loader takes. On a bus without errors
and a device that is ready within 1999 status reads, the flash ends as the image
followed by 0xFF, with no command that a data sheet forbids (`faults`: a program on a
cell that is not erased, outside its page, without the latch, under protection, or while
busy).

**PRAM loader.** It has the same packets but compiles no read-back in. With reads that
are whole or negative the transfers alone decide the result: an attempt succeeds exactly
if all of its transfers go through and ends with the first that does not, and one that
fails after its selection is made once more, no oftener (`DownloadApp`,
`TwoAttemptsDecide`). After a download that reports success, where sends that were
reported whole arrived unaltered or not at all, the last attempt decides (`Download`,
`DownloadApp`). If its selection arrived, or the controller was in PRAM mode anyway, a
packet's region holds the packet if and only if its write arrived or the RAM held it
already, and the image is there if and only if that is so of every packet
(`PacketExactly`, `ImageExactly`). If not, the application ignores all that follows and
the RAM is as it was. So nothing at all need arrive (`LostWritesGoUnnoticed`), and one
lost write is enough, if it is the selection (`LostSelectionGoesUnnoticed`): each for
every image of 1024 bytes or more and every RAM. The read-back that is compiled out
would decide exactly whether the RAM holds the image (`PramReadCheck.ReadCheck`); on an
I2C build it names a variable whose declaration is commented out
(packages/axs-touch/src/axs_download.c, lines 240 and 253), so it does not compile as it
stands.

**Register writes** carry at most ten bytes; longer ones are cut and reported successful
(`RegisterCommands.PayloadExactly`). A read command asks for exactly the length and the
register that it was made for (`RequestExactly`).

**Touch.** In every run a slot is active exactly when the last input that could have
changed it was an accepted frame whose last word on that id is down
(`TouchRuns.ActiveExactly`). After an accepted frame an active slot holds the position,
pressure and area that the bytes of the frame's last point on its id spell
(`HandleInterrupt`). BTN_TOUCH is set exactly when `touchs` is non-empty, and the line
is masked at most once and only while suspended or loading (`RunKeepsInv`).

* A frame that takes an id down and then up leaves its bit in `touchs`, and BTN_TOUCH
  pressed, with no finger there (`TouchsExceedsFingers`). Such a frame needs two events:
  bits, slots and button agree in every run if and only if the panel tracks one touch
  (`AgreesExactly`). The shipped panel does; a build for more touches would not.
* A firmware load that completes unmasks the interrupt of a suspended device: until the
  next resume the line is masked if and only if no load was begun or the last one has
  not completed (`SuspendedLineExactly`), and a frame is shown exactly when it is open
  (`FrameWhileSuspended`). Neither the ESD check nor the pen time-out can wake it: their
  work is cancelled before the device counts as suspended.
* Where the pen time-out is queued, two of its ticks without an interrupt lift every
  finger and release the button, whatever came before (`SilenceLiftsAll`), and one does
  not (`FrameOutlastsOneTick`). It is queued, like the ESD check, if and only if it is
  compiled in, the device is awake and the last suspend that met it awake met no load
  (`QueuedExactly`).
* A load that finds no file or no memory leaves the loading flag set, exactly until some
  load completes (`LoadingExactly`): no frame adds a finger and the device cannot
  suspend (`UnfinishedLoadDeafens`).

**ESD watchdog.** A reset comes within eight ticks from every reachable state
(`ResetWithinEightTicks`), and eight is needed (`EightIsTight`). Every run of ticks is a
sequence of two kinds of part, each of which ends where the next begins
(`CycleExactly`): the delay that is left, then either three failures of the enable
command and a reset, after which the next part has no delay, or up to two failures, a
success, and a reset for silence three ticks later, after which the delay begins anew. A
suspend during a load cancels the work before it is refused: an awake device is watched
if and only if the last suspend that met it awake met no load (`WatchedExactly`).

**Mailbox.** For every interleaving the host's view stays a plain byte map if and only
if no read timed out after its address went out (`PlainExactly`, `RunCalls`); a write
that reports an error is no write, and an earlier time-out is harmless. A read that gave
up after its address leaves its answer behind: the next read that completes returns it
and leaves its own, for ever (`StrandedByteShiftsReads`). `TimedOutReadStrandsAnswer` is
such a run. `wdt_start` reports the switch only and ignores what became of the time-out
registers (`WdtStart`); `wdt_get_counter` returns uninitialised bytes for reads that
fail, and the high byte as the low one if the first read was stranded (`WdtGetCounter`).

**Buttons.** The reported events are those of the maximal presses
(`EventsAreThoseOfTheRuns`, `PressReports`), and what a run of rounds puts on the input
device is exactly those of the mapped buttons, in order (`ButtonRounds.RunRounds`). A
reset held for exactly 260 samples and a short power press on models other than the GT
are never released, so press and release alternate exactly on the traces where each run
of active samples that reaches the reporting length, and is followed by another such
run, was long enough to be released (`AlternatesExactly`); on the GT the power key
always alternates.

**Beeper.** The status flag is 1 exactly when the timer is pending, so a pending timer
is never added (`RunKeepsInv`). In every run without commands the timer expires exactly
as often as the distance from the static count to the target (`FiresExactly`), wherever
the pulses end (`PulseEndsDoNotCount`). A `rep` that is cut short leaves both behind, so
the next `rep` is shorter and the next endless timer ends
(`InterruptedRepShortensTheNext`). From a silent state an accepted `timer` or `rep`
sounds for its on delay once in each period, from 100 ms after the command, a `rep` of N
exactly N times (`PulsesAreOnTime`); `on`, `off` and `one` end that for good
(`StopsAreFinal`). Pulses are apart if the beeper is off whenever the timer expires.
With the timer pending that is so if and only if the beeper is off with no switch-off
queued, or one is queued for no later than the timer, or the beeper is off and one is
queued for later, but either for no later than the second expiry or no second expiry
follows (`ApartExactly`; `StartIsApartExactly` says it at the command that starts the
timer). A timer started during a single pulse, or while the beeper is switched on,
breaks it whatever its delays (`StartDuringSoundOverlaps`). So does `off` before a
timer: it silences a pulse but leaves its switch-off queued, and with delays below 100
ms in all the second expiry comes before it (`OffLeavesSwitchOffQueued`).

**LEDs.** A changed byte makes the sum test fail, and the driver's own frames pass it.
The select byte is outside the sum. A breath never asks for less than a second of light
or half a second of dark (`LedBlink.BlinkSet`). The blink word tells the receiver period
and low time exactly when the period is below 65536 (`ReceiverLearnsTiming`). The
disk-LED cache is exact: a bay is right if and only if it was right at the start or was
written (`HddLeds.RightExactly`), so a stale state file hides a dark LED for as long as
the disk count stays (`StaleFileKeepsLedDark`).

## Assumptions

* A receive that fails leaves the caller's buffer as it was; a short one fills a prefix.
* The embedded controller takes one byte at a time and produces a byte only when the
  output buffer is empty. It may otherwise run at any pace between port accesses.
* A switch-off of the beeper that is due in the same millisecond as the timer comes first.
* Handlers, work items and commands are atomic steps; a firmware load from user space is
  two, its beginning and its end, between which a suspend or resume may come. Loads do
  not overlap.
* Where a flash read has to mean anything, its command arrives unaltered if it is sent
  whole, and reaches nobody if it is sent in part (`HonestReads`).
* `touchs` is a set of bit numbers. The panel's size is a parameter; the shipped build
  tracks one touch in a 15-byte buffer. Where the code and the comment beside that
  buffer differ, the code is followed: 15 is more than the comment's formula needs.
* The result of an allocation and of the firmware version comparison are parameters.
* The version register of the touch controller is a byte of its own, not tied to the image.
* The ESD check and the pen time-out are compiled out of the shipped build but complete;
  they are modelled as written.

## Model

| member | source | states |
|---|---|---|
| Controller.FrameRoundTrip | packages/axs-touch/src/axs_upgrade.c:441-506 | the loader's framing: decoding an encoded frame gives it back, and its length is 11 plus its write-length field |
| Controller.EncodeOfDecode | packages/axs-touch/src/axs_upgrade.c:441-506 | bytes that decode are the encoding of what they decode to |
| Controller.ProgramStoresExactly | packages/axs-touch/src/axs_upgrade.c:441-506 | inside its page a program, which only clears bits, stores its data if and only if every set bit of it is set in its cell |
| Controller.ProgramErased | packages/axs-touch/src/axs_upgrade.c:441-506 | on erased cells inside one page a page program stores exactly its data |
| I2cBus.Bus.WriteBytes | packages/axs-touch/src/axs_i2c.c:89-123 | the whole count or -EINVAL, whatever the adapter returns, and what reaches the controller |
| I2cBus.Bus.WriteReadBytes | packages/axs-touch/src/axs_i2c.c:22-60 | the raw count of the half that failed or of the answer, which bytes of the buffer change, and the controller's new state |
| Packets.PacketsPartition | packages/axs-touch/src/axs_upgrade.c:441-506 | the packets join to the image in order: no gap, no overlap, none crosses a page |
| FlashUpgrade.TrafficDecodes | packages/axs-touch/src/axs_upgrade.c:463-500 | each frame on the wire decodes to a write enable or to its packet at its address |
| FlashUpgrade.FlashIsReady | packages/axs-touch/src/axs_upgrade.c:274-307 | ready is true only of a controller at rest, even with short polls; when each poll works or is lost it is true exactly when those that work, of the polls allowed, outnumber the remaining busy time |
| FlashUpgrade.FlashInit | packages/axs-touch/src/axs_upgrade.c:309-407 | protection ends clear whatever it was; of its five transfers the first that returns an error is the last, and it fails |
| FlashUpgrade.FlashErase | packages/axs-touch/src/axs_upgrade.c:409-439 | every cell ends at 0xFF; a write that is not reported whole is the last transfer, and it fails |
| FlashUpgrade.ProgramStep | packages/axs-touch/src/axs_upgrade.c:463-500 | a write enable and a packet extend the burned prefix by that packet, without a fault |
| FlashUpgrade.FlashWrite | packages/axs-touch/src/axs_upgrade.c:441-506 | what is sent is a prefix of the image's traffic, all of it and all reported whole on success; a write that is not is the last transfer, and it fails; on a clean bus an erased flash ends as the image |
| FlashUpgrade.FlashReadCheck | packages/axs-touch/src/axs_upgrade.c:509-571 | for arbitrary counts, success if and only if the buffer was allocated and every packet equals what was delivered of it over what the buffer held; it ends with the first that does not |
| FlashUpgrade.WholePassIsSound | packages/axs-touch/src/axs_upgrade.c:545-560 | when no transfer is short, the comparison passes exactly when the memory holds the image |
| FlashUpgrade.VerdictSoundExactly | packages/axs-touch/src/axs_upgrade.c:545-560 | a pass is sound for all images and memories if and only if no transfer is short or one fails |
| FlashUpgrade.FaithfulPassIsSound | packages/axs-touch/src/axs_upgrade.c:509-571 | with whole or negative reads every pass is sound |
| FlashUpgrade.Upgrade | packages/axs-touch/src/axs_upgrade.c:573-628 | for arbitrary writes and short polls success means a pass of the read-back, so the flash holds the image if no transfer of it was short; a clean bus gives the image followed by 0xFF and no forbidden command |
| FlashUpgrade.SelectFlash | packages/axs-touch/src/axs_upgrade.c:157-175 | success exactly if the write is reported whole; if it arrives the controller is in flash mode |
| FlashUpgrade.FirmwareUpgrade | packages/axs-touch/src/axs_upgrade.c:177-239 | the same from the application mode on, back in it after every selection; a write that is not reported whole is the last transfer, and it fails; no transfer when no upgrade is needed; what decides the verdict when the writes are lost |
| FlashUpgrade.ShortReadsFoolTheLoader | packages/axs-touch/src/axs_upgrade.c:177-239 | a run of the whole loader, for any blank image of 1024 bytes or more and any flash, that reports success with the flash untouched |
| PramDownload.TrafficDecodes | packages/axs-touch/src/axs_download.c:173-214 | each PRAM frame decodes to its address and packet |
| PramDownload.PatchStep | packages/axs-touch/src/axs_download.c:173-214 | one packet overwrites exactly its own range if its write arrives, and nothing if it is lost |
| PramDownload.PacketExactly | packages/axs-touch/src/axs_download.c:173-214 | a packet's region holds the packet if and only if its write arrived or it was there before |
| PramDownload.ImageExactly | packages/axs-touch/src/axs_download.c:173-214 | the same for the whole image, and the rest of the RAM is as it was |
| PramDownload.WritePram | packages/axs-touch/src/axs_download.c:173-214 | success exactly when every send was reported whole, and what the RAM then holds |
| PramDownload.Finish | packages/axs-touch/src/axs_download.c:216-232 | the finish frame starts the application |
| PramDownload.SelectPram | packages/axs-touch/src/axs_download.c:74-90 | the controller is in PRAM mode with its RAM unchanged |
| PramDownload.ReadFwVersion | packages/axs-touch/src/axs_core.c:137-173 | success exactly when both reads go through and agree, and then their value; failure leaves the caller's variable |
| PramDownload.Download | packages/axs-touch/src/axs_download.c:313-372 | success in PRAM mode means the image is in RAM if and only if each packet arrived or was there; in any other mode the RAM is as it was; it ends with the first transfer that does not go through |
| PramDownload.DownloadApp | packages/axs-touch/src/axs_download.c:93-137 | what success of the last attempt means: by its packets if its selection arrived or the mode was PRAM before, otherwise the RAM is untouched; which transfers lead to a second attempt, to success and to the end |
| PramDownload.TwoAttemptsDecide | packages/axs-touch/src/axs_download.c:106-134 | success if and only if the first attempt goes through, or stops after its selection and the second goes through |
| PramDownload.LostWritesGoUnnoticed | packages/axs-touch/src/axs_download.c:93-137 | for every image of 1024 bytes or more and every RAM, a run that reports success with the RAM untouched |
| PramDownload.LostSelectionGoesUnnoticed | packages/axs-touch/src/axs_download.c:93-137 | the same with every packet and the finish frame delivered and only the selection lost |
| PramReadCheck.ReadCheck | packages/axs-touch/src/axs_download.c:234-310 | the compiled-out read-back succeeds if and only if the RAM holds the image and nothing failed |
| RegisterCommands.PayloadExactly | packages/axs-touch/src/axs_core.c:78-96 | the receiver gets the bytes that were asked to be written if and only if there are at most ten |
| RegisterCommands.RequestExactly | packages/axs-touch/src/axs_core.c:98-135 | a read command decodes to its register and length, and nothing else decodes to them |
| RegisterCommands.VersionRequest | packages/axs-touch/src/axs_core.c:137-173 | the version is read as one byte of register 0x89 |
| RegisterCommands.Commands.WriteBuf | packages/axs-touch/src/axs_core.c:78-96 | the reused buffer always sends the frame of this call's bytes alone |
| RegisterCommands.Commands.ReadBuf | packages/axs-touch/src/axs_core.c:98-113 | for arbitrary counts: a read of nothing succeeds, otherwise success means neither half returned an error, and the data is as much of the answer to exactly this length as was delivered |
| RegisterCommands.Commands.ReadSfr | packages/axs-touch/src/axs_core.c:115-135 | the same for one register, short counts counted as success; a read of nothing is an error |
| RegisterCommands.Commands.ReadRegs | packages/axs-touch/src/axs_core.c:47-76 | a failed write stops before the read; success means a whole write and no error in the read, and the data is what was delivered of the answer of the state after the write |
| TouchFrame.ScanIsLongestPrefix | packages/axs-touch/src/axs_core.c:363-417 | a scan that succeeds holds every point before the first unused id |
| TouchFrame.ScanIsSpoiled | packages/axs-touch/src/axs_core.c:363-417 | a scan that fails met an id the panel does not track |
| TouchFrame.ParseYieldsLongestPrefix | packages/axs-touch/src/axs_core.c:331-417 | a checked frame yields exactly its longest run of valid points |
| TouchFrame.RejectedExactly | packages/axs-touch/src/axs_core.c:293-417 | which frames are thrown away, exactly |
| TouchFrame.GestureExactly | packages/axs-touch/src/axs_core.c:331-362 | a frame is a gesture exactly when its sum holds and its first byte, the code, is not zero |
| TouchFrame.ParseOfEncode | packages/axs-touch/src/axs_core.c:293-417 | parsing an encoded list of in-range events returns it |
| TouchFrame.OneByteChangeIsRejected | packages/axs-touch/src/axs_core.c:293-329 | any change of one byte of a checked frame is rejected |
| TouchScreen.TouchScreen.ReadTouchData | packages/axs-touch/src/axs_core.c:293-329 | success exactly for a frame that came and passes its checksum |
| TouchScreen.TouchScreen.ReadParse | packages/axs-touch/src/axs_core.c:331-417 | the three results of parsing, and the events left in place |
| TouchScreen.TouchScreen.InputReportB | packages/axs-touch/src/axs_core.c:561-656 | after a report the slots show the frame's last word on each id, at its position and with its pressure and area or their stand-ins, and nothing else |
| TouchScreen.TouchScreen.ReleaseAllFingers | packages/axs-touch/src/axs_core.c:419-446 | no slot, no bit, no button |
| TouchScreen.TouchScreen.PenEventCheck | packages/axs-touch/src/axs_core.c:505-533 | the time-out sweep is a step of the state machine |
| TouchScreen.TouchScreen.HandleInterrupt | packages/axs-touch/src/axs_core.c:743-805 | a delivered interrupt is a step, and after an accepted frame each slot holds what the six bytes of its id's last point say |
| TouchScreen.TouchScreen.SuspendDevice | packages/axs-touch/src/axs_core.c:840-872 | suspend is a step: refused while loading, else everything released and the line masked |
| TouchScreen.TouchScreen.ResumeDevice | packages/axs-touch/src/axs_core.c:886-925 | resume is a step |
| TouchScreen.TouchScreen.BeginLoad | packages/axs-touch/src/axs_upgrade.c:667-693 | flag and mask are set, or nothing is touched when the loader cannot be set up |
| TouchScreen.TouchScreen.EndLoad | packages/axs-touch/src/axs_upgrade.c:695-747 | every way a load can end, with its mask and flag |
| TouchRuns.RunKeepsInv | packages/axs-touch/src/axs_core.c:561-656 | active slots within `touchs`, bits below the limit, BTN_TOUCH exactly when a bit is set, mask depth 0 or 1 as flagged, after every run |
| TouchRuns.ActiveExactly | packages/axs-touch/src/axs_core.c:561-656 | no stuck and no ghost finger over any run |
| TouchRuns.TouchsExceedsFingers | packages/axs-touch/src/axs_core.c:575-640 | a frame leaves a bit without a finger exactly when it has a down followed by a last up |
| TouchRuns.AgreesExactly | packages/axs-touch/src/axs_core.c:561-656 | bits, slots and BTN_TOUCH agree in every run if and only if the panel tracks one touch |
| TouchRuns.SuspendedLineExactly | packages/axs-touch/src/axs_core.c:840-872 | until the next resume a suspended line is masked if and only if no load was begun or the last has not completed |
| TouchRuns.FrameWhileSuspended | packages/axs-touch/src/axs_core.c:840-872 | a frame is shown if the last load completed and changes nothing if not |
| TouchRuns.SuspendedStaysQuiet | packages/axs-touch/src/axs_core.c:840-872 | no slot is active as long as no load has completed |
| TouchRuns.SilenceLiftsAll | packages/axs-touch/src/axs_core.c:505-533 | two ticks of a queued pen time-out without an interrupt lift every finger, clear the bits and release the button, after any run |
| TouchRuns.FrameOutlastsOneTick | packages/axs-touch/src/axs_core.c:505-533 | what an interrupt shows is still shown after the next tick, after any run |
| TouchRuns.QueuedExactly | packages/axs-touch/src/axs_core.c:840-925 | pen time-out and ESD check are queued if and only if compiled in, the device is awake and the last suspend that met it awake met no load |
| TouchRuns.LoadingExactly | packages/axs-touch/src/axs_upgrade.c:692-745 | the loading flag is set exactly while the last load has not completed |
| TouchRuns.UnfinishedLoadDeafens | packages/axs-touch/src/axs_upgrade.c:692-745 | a load without file or memory blocks touches and suspend until one completes |
| TouchRuns.CompletedLoadOpens | packages/axs-touch/src/axs_upgrade.c:692-745 | a load that completes opens the line and clears the flag, and changes nothing else |
| Watchdog.Esd.CheckFunc | packages/axs-touch/src/axs_esd.c:79-134 | the tick as a step, and the resets it gives |
| Watchdog.Esd.TouchInterrupt | packages/axs-touch/src/axs_core.c:743-790 | the interrupt's share: silence starts again, or an exception resets |
| Watchdog.Esd.TsSuspend | packages/axs-touch/src/axs_core.c:840-872 | the work is cancelled even when the suspend is refused |
| Watchdog.Esd.TsResume | packages/axs-touch/src/axs_core.c:886-925 | the work is queued again only on a suspended device |
| Watchdog.RunStaysBounded | packages/axs-touch/src/axs_esd.c:85-130 | failure and silence counts stay at most 2 between steps |
| Watchdog.RankDrops | packages/axs-touch/src/axs_esd.c:79-134 | every tick resets or lowers a measure between 1 and 8 |
| Watchdog.ResetWithinEightTicks | packages/axs-touch/src/axs_esd.c:79-134 | a reset within eight ticks from every reachable state |
| Watchdog.EightIsTight | packages/axs-touch/src/axs_esd.c:79-134 | seven ticks are not enough |
| Watchdog.CycleExactly | packages/axs-touch/src/axs_esd.c:79-134 | at which ticks a run of ticks resets, for which cause, and the state each reset leaves, whatever the enable command returns |
| Watchdog.EnabledExactly | packages/axs-touch/src/axs_esd.c:79-134 | the check counts as enabled if and only if an enable command succeeded and no reset, selection or resume came after it |
| Watchdog.OnlyTicksCount | packages/axs-touch/src/axs_esd.c:79-134 | nothing but a tick moves the delay and the failure count or enables the check |
| Watchdog.SilenceResetIsSound | packages/axs-touch/src/axs_esd.c:106-130 | a silence reset needs three enabled ticks without a touch |
| Watchdog.SilenceResetExactly | packages/axs-touch/src/axs_esd.c:106-130 | a silence reset comes exactly with the third enabled tick since the silence began |
| Watchdog.WatchedExactly | packages/axs-touch/src/axs_esd.c:162-180 | a device is watched if and only if it is awake and the last suspend that met it awake met no load |
| Watchdog.SuspendWhileLoadingStopsWatchdog | packages/axs-touch/src/axs_core.c:840-872 | otherwise it never runs again before a later suspend |
| EcMailbox.RunDrains | packages/ugreen-sio/it55_helper.c:8-49 | the pace of the controller never changes where it ends |
| EcMailbox.PutDrains | packages/ugreen-sio/it55_helper.c:52-77 | a byte put into an empty buffer acts as on a controller that had finished |
| EcMailbox.Mailbox.WaitCommandReady | packages/ugreen-sio/it55_helper.c:14-30 | it ends with the first poll that finds IBF clear, or fails after five that do not |
| EcMailbox.Mailbox.WaitDataReady | packages/ugreen-sio/it55_helper.c:33-49 | it ends with the first poll that finds OBF set, or fails after five that do not |
| EcMailbox.Mailbox.Send | packages/ugreen-sio/it55_helper.c:52-77 | success puts the byte, a time-out puts nothing |
| EcMailbox.Mailbox.ReceiveData | packages/ugreen-sio/it55_helper.c:80-91 | success takes the byte that the controller was going to give |
| EcMailbox.Mailbox.ReadMemory | packages/ugreen-sio/it55_helper.c:94-107 | for every interleaving what a read does to the host's view, a time-out stranding its answer exactly when the address went out; a prompt controller never times out, one that stalls after the command does |
| EcMailbox.Mailbox.WriteMemory | packages/ugreen-sio/it55_helper.c:110-123 | an error leaves memory as it was, success sets one byte, for every interleaving |
| EcRuns.RunCalls | packages/ugreen-sio/it55_helper.c:94-123 | any calls against a controller at any pace: until a read is stranded every read gives what the successful writes left, and a prompt controller never times out |
| EcRuns.PlainExactly | packages/ugreen-sio/it55_helper.c:94-123 | the view is a plain byte map if and only if no read timed out after its address went out |
| EcRuns.RunRefinesMap | packages/ugreen-sio/it55_helper.c:94-123 | until then any run of calls is a run of a byte map |
| EcRuns.StrandedByteShiftsReads | packages/ugreen-sio/it55_helper.c:80-107 | a read that left its answer hands it to the next that completes, which leaves its own |
| EcRuns.TimedOutReadStrandsAnswer | packages/ugreen-sio/it55_helper.c:94-107 | a run: one call times out, the next succeeds with the first one's byte |
| EcRuns.SetSysFan | packages/ugreen-sio/ug_it55pro_functions.c:62-73 | all four writes are tried, in order, whatever became of those before; each register is new or old, no other changed, duty at most 0xc6 |
| EcRuns.WdtUpdate | packages/ugreen-sio/ug_it55pro_functions.c:548-553 | both registers are tried, and it reports success whatever became of them |
| EcRuns.WdtGetCounter | packages/ugreen-sio/ug_it55pro_functions.c:541-547 | for every interleaving each half: the uninitialised byte, the register, or the byte that an earlier read left, the first of the two reads included; and what the second leaves |
| EcRuns.WdtStart | packages/ugreen-sio/ug_it55pro_functions.c:556-565 | the switch is written after the time-out registers, and success speaks of the switch only |
| EcRuns.StartThenCount | packages/ugreen-sio/ug_it55pro_functions.c:541-565 | the time-out that was started reads back modulo sixteen bits |
| Buttons.Monitor.BtnMonitor | packages/ugreen-sio/ug_gpio_btn.c:60-122 | every mapped button makes one tick, and the reports are those of the ticks in index order |
| ButtonTraces.CountsTheRun | packages/ugreen-sio/ug_gpio_btn.c:77-116 | `seen` is the length of the current run, saturated at 1200 |
| ButtonTraces.EventsAreThoseOfTheRuns | packages/ugreen-sio/ug_gpio_btn.c:77-116 | the event at each sample, from the run it ends or extends |
| ButtonTraces.PressReports | packages/ugreen-sio/ug_gpio_btn.c:77-116 | what one maximal press reports; 260 exactly, and short power presses, have no release |
| ButtonTraces.AlternatesExactly | packages/ugreen-sio/ug_gpio_btn.c:77-116 | press and release alternate if and only if, in the samples, each followed press was long enough |
| ButtonTraces.GtPowerKeyAlternates | packages/ugreen-sio/ug_gpio_btn.c:77-116 | on the GT they alternate on every trace |
| ButtonRounds.RunRounds | packages/ugreen-sio/ug_gpio_btn.c:60-122 | what any number of timer ticks report, in order: for each mapped button a press wherever its run of active samples reaches the reporting length and a release wherever a long enough one ends, for others nothing |
| ButtonRounds.OneButton | packages/ugreen-sio/ug_gpio_btn.c:60-122 | of those reports, one button's levels are the events of its own samples, in order |
| Beeper.BeeperDevice.TimerHandle | packages/ugreen-sio/ug_sataio_beeper.c:325-342 | the handler as a step |
| Beeper.BeeperDevice.DelayWork | packages/ugreen-sio/ug_sataio_beeper.c:284-292 | the delayed work as a step |
| Beeper.BeeperDevice.BeeperWrite | packages/ugreen-sio/ug_sataio_beeper.c:392-455 | each command as a step, never adding a pending timer; a command that is refused changes nothing |
| BeeperRuns.RunKeepsInv | packages/ugreen-sio/ug_sataio_beeper.c:325-455 | the status flag is 1 exactly when the timer is pending, with both delays in 20..99999, after every run |
| BeeperRuns.PulseEndsDoNotCount | packages/ugreen-sio/ug_sataio_beeper.c:284-342 | the counting does not depend on where pulses end |
| BeeperRuns.FiresExactly | packages/ugreen-sio/ug_sataio_beeper.c:325-342 | in every run without commands exactly N - k expiries, then idle with the count at 0; with 32-bit wrap-around in general |
| BeeperRuns.FiresForever | packages/ugreen-sio/ug_sataio_beeper.c:325-342 | without a reachable target no run without commands stops it |
| BeeperRuns.PulsesAreOnTime | packages/ugreen-sio/ug_sataio_beeper.c:294-455 | when each pulse of an accepted timer or rep begins and ends, that it lasts the on delay, how many a rep gives, and that nothing is due after the last |
| BeeperRuns.StopsAreFinal | packages/ugreen-sio/ug_sataio_beeper.c:284-455 | after on, off and one the timer never expires; off is silent, one sounds for 200 ms, on for ever, but no longer than to a switch-off queued before |
| BeeperRuns.CommandsKeepCount | packages/ugreen-sio/ug_sataio_beeper.c:392-455 | no command touches the static count and none but rep the target |
| BeeperRuns.InterruptedRepShortensTheNext | packages/ugreen-sio/ug_sataio_beeper.c:325-455 | a rep cut short shortens the next rep or timer by what it gave |
| BeeperRuns.ApartExactly | packages/ugreen-sio/ug_sataio_beeper.c:284-342 | the beeper is off at every expiry if and only if it is off, or to be off by the first expiry, with a switch-off queued for later due by the second if there is one |
| BeeperRuns.StartIsApartExactly | packages/ugreen-sio/ug_sataio_beeper.c:294-455 | the same at the command that starts the timer, in terms of the state before it |
| BeeperRuns.StartDuringSoundOverlaps | packages/ugreen-sio/ug_sataio_beeper.c:294-455 | two runs whose first expiry falls into a sound, whatever the delays of the timer |
| BeeperRuns.OffLeavesSwitchOffQueued | packages/ugreen-sio/ug_sataio_beeper.c:284-455 | one, off and a timer keep its pulses apart if and only if its two delays are 100 ms or more in all |
| LedFrame.AcceptedExactly | packages/ugreen-leds-mcu/leds-mcu.c:208-214 | a block passes the read test exactly when it is a body with its own sum, as every written block is |
| LedFrame.OneByteChangeIsRejected | packages/ugreen-leds-mcu/leds-mcu.c:300-305 | any one-byte change of an accepted block fails the test |
| LedFrame.ExchangeExactly | packages/ugreen-leds-mcu/leds-mcu.c:199-253 | three tries in vain, or tries up to the first success and then flag reads up to the first one, three at most; done exactly when a flag read gives one |
| LedFrame.ShowsSent | packages/ugreen-leds-mcu/leds-mcu.c:300-314 | a frame that is read back gives the status and the two times that were sent |
| LedFrame.Mcu.WriteLed | packages/ugreen-leds-mcu/leds-mcu.c:199-253 | the same sealed frame at most three times, then at most three flag polls; 1 exactly if both go through |
| LedFrame.Mcu.ReadLed | packages/ugreen-leds-mcu/leds-mcu.c:255-316 | the status fields change if and only if a whole block came, the flag reads one and the sum is right |
| LedBlink.UnpackExactly | packages/ugreen-leds-mcu/leds-mcu.c:383-401 | the packed word gives period and delay back if and only if the period fits sixteen bits |
| LedBlink.ReceiverLearnsTiming | packages/ugreen-leds-mcu/leds-mcu.c:387-411 | the same through the frame that carries it |
| LedBlink.BlinkSet | packages/ugreen-leds-mcu/leds-mcu.c:350-422 | mode, word, delays and what the bytes sent tell the receiver per trigger, a breath never below 1000 and 500; which frames go out, and when it fails |
| HddLeds.Daemon.Poll | examples/hdd-leds.sh:58-75 | one poll writes exactly the bays that changed, in order, and the state file names the bays of the disks |
| HddLeds.PaintAt | examples/hdd-leds.sh:48-75 | what those writes leave lit |
| HddLeds.RightExactly | examples/hdd-leds.sh:58-75 | over any run a bay agrees with the state file if and only if it did at the start or was written |
| HddLeds.CachedRepaintIsRight | examples/hdd-leds.sh:58-75 | from agreement, lit bays and state file are {1..min(n, 6)} after every poll |
| HddLeds.SilentExactly | examples/hdd-leds.sh:58-75 | a poll writes nothing if and only if the state file already names its bays |
| HddLeds.EmptyThenFullHeals | examples/hdd-leds.sh:58-75 | a poll of none and a poll of six repair any start |
| HddLeds.StaleFileKeepsLedDark | examples/hdd-leds.sh:58-75 | a stale state file keeps a LED dark while the count stays |

## Left out

- FlashUpgrade.FirmwareUpgrade: the version comparison and the choice of the image file are the parameter `needed`; the version read after a success, whose result is dropped, is not modelled.
- FlashUpgrade.Upgrade: a null image pointer is not modelled; the image is a sequence no longer than the flash.
- FlashUpgrade.FlashInit: the identification byte is requested and ignored, as in the source.
- PramDownload.ReadFwVersion: the version that a new image would report is not modelled.
- Watchdog.Esd.CheckFunc: the enable command is a boolean, and the half-second period is a tick.
- Buttons.Monitor.BtnMonitor: the sampled level is an input; address mapping and the hardware set-up are not modelled.
- LedFrame.Mcu.ReadLed: a failed block read is taken to give no bytes.
- LedBlink.BlinkSet: the search for the LED by its class device is not modelled; it has no check for a device that is not found.
- TouchScreen.TouchScreen.EndLoad: a load that fails to select the flash or runs it is one step, with the mask it leaves at its end.
- Pre-emption inside handlers: `disable_irq_nosync` and `del_timer` against a running handler are not modelled.
- The SPI bus and its branches, gestures beyond the code they return, touch keys and protocol A reporting.
- Parsing of the beeper's command text, procfs and sysfs files, DMI tables, probe and remove.
- Sleeps and real time, except as ticks, poll counts and the beeper's delays.
- `set_cpu_fan`, `wdt_stop` and the backlight: clients of the mailbox with nothing that `set_sys_fan` and `wdt_start` do not show.
- `superio_write_byte`, GPIO register access and the two beep oscillators: switching the beeper is one action.
- LED colours and brightness work: one write each, with the frame that is modelled.
- Scan filters, naming and the locate function of the disk-LED script: a bay is its position in the scan.
