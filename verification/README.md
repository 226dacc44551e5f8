# Verified models of the device code

The repository adds device models to QEMU: a VMware SVGA adapter with a guest-shared command FIFO, a paravirtual
graphics adapter whose frames come from render threads, three USB input devices and a system management controller.
This project models their stateful cores in Dafny and proves what holds over every input, run or interleaving.

| module | file | models |
|---|---|---|
| `Words`, `Surfaces`, `Blit` | `Words.dfy`, `Surfaces.dfy`, `Blit.dfy` | machine words; the surface laid over VRAM; block copy and fill in place |
| `Damage` | `Damage.dfy` | the redraw queue, the `invalidated` flag, the log of console updates |
| `Fifo`, `FifoStream`, `GuestCommands` | `Fifo.dfy`, `FifoStream.dfy`, `GuestCommands.dfy` | decoding, the ring, one run; the FIFO as a stream; the guest's encoding of commands |
| `Overrun` | `Overrun.dfy` | when a run reads or moves STOP past NEXT |
| `SvgaRuns`, `SurfaceSwap`, `SvgaDevice` | `SvgaRuns.dfy`, `SurfaceSwap.dfy`, `SvgaDevice.dfy` | whole histories of the adapter; a history that loses damage; the adapter with its fields and buffers |
| `FrameProtocol` | `FrameProtocol.dfy` | compare-and-swap notifications against a self-rescheduling bottom half |
| `TaskMemory` | `TaskMemory.dfy` | mapping with rollback, region references, teardown |
| `Usb`, `Rings`, `Mouse`, `Keyboard`, `Trackpad` | `Usb.dfy`, `Rings.dfy`, `Mouse.dfy`, `Keyboard.dfy`, `Trackpad.dfy` | packets, drop-oldest queues and the three input devices |
| `Smc` | `Smc.dfy` | the byte-at-a-time command machine and its key table |

Code that updates fields and buffers in place is modelled by classes and loops. Their contracts equate the new state
with a function of the old one, and the theorems are lemmas about those functions. The notification protocol is a
state machine over its atomic steps, because its subject is the interleaving.

## Where the code does not do what is said of it

- A frame can go stale. The early exit of `apple_gfx_frame_ready_bh` reads `pending_frames` twice. If a notification
  raises the counter from 0 to 1 between the two reads, the exit takes that token away and no frame is read for it.
  `FrameProtocol.StaleFrameReachable` is such a run with one render thread; `FrameProtocol.StaleExactly` says when a
  run ends so, and `FrameProtocol.FreshWithoutOverlap` gives a condition on callers that excludes it.
- The cap of two on `pending_frames` is described as allowing exactly one more bottom half. It does not bound them:
  `FrameProtocol.UnboundedBottomHalves`. There is one at a time exactly if no notification raises the counter from 0
  inside a bottom half: `FrameProtocol.OneBottomHalfExactly`.
- A FIFO run can read past NEXT. Nops, unknown commands, `RECT_ROP_FILL`, `RECT_ROP_COPY` and `SURFACE_ALPHA_BLEND` do not
  charge their own word, so the loop goes on when all words are used up. `Overrun.ZeroRingOverruns` is such a FIFO.
  `Overrun.OverrunExactly` tells from the FIFO before the run when it happens; `Overrun.WholeStreamOverruns` says the
  same for a FIFO of whole commands only, and `Overrun.CleanNeverOverruns` that all other commands never do it.
- A keyboard poll with a packet shorter than a report clears the dirty flag although the host has not seen the whole
  report: `Keyboard.ShortPollHidesKey`. `Keyboard.HostIsUpToDate` says exactly when the host is up to date.
- The size check compares only width, height and depth, so it does not notice when the VGA core has put another surface
  on the console and then one of the old size again. Damage done in between can be lost: `SurfaceSwap.DamageIsLost`.
  `SvgaRuns.UpdateShowsExactly` says, for every state, exactly when a display update shows everything.
- The SMC prepares the key name for an index, but its data port serves only READ: `Smc.IndexNameIsNotReadable`.
  Unknown keys answer with zeros only up to 32 bytes: `Smc.HistoryIndependentExactly`. A WRITE with no payload, or with
  more than 251 bytes, is never completed: `Smc.WriteCompletesExactly`.
- The trackpad's comment speaks of thirteen bits for y. The code sends eleven: `Trackpad.FingerReads`.
- The comment on the key slots speaks of seven and of roll-over codes; the code has six and drops further keys.

## Model

| member | source | states |
|---|---|---|
| `Surfaces.VerifyRectMeaning` | hw/display/vmware_vga.c:301-356 | the chain of tests accepts exactly the rectangles on the surface that respect the four geometry limits |
| `Blit.CopyRect` | hw/display/vmware_vga.c:425-459 | both row orders with a per-row move equal one simultaneous copy, for all overlaps; refused rectangles change nothing |
| `Blit.CopiedPixels` | hw/display/vmware_vga.c:425-459 | every byte of every destination pixel is the corresponding source byte from before the copy |
| `Blit.CopiedElsewhere` | hw/display/vmware_vga.c:425-459 | pixels outside the destination, and padding, are unchanged |
| `Blit.FillRect` | hw/display/vmware_vga.c:463-505 | one bytewise row and copies of it equal a pointwise fill of the rectangle |
| `Blit.FilledPixels` | hw/display/vmware_vga.c:463-505 | inside the rectangle byte b of each pixel is byte b of the little-endian colour; all bytes it does not cover keep their value |
| `Damage.CopyDraws` | hw/display/vmware_vga.c:425-459 | the command moves the pixels: each of the destination becomes what the source pixel was |
| `Damage.FillDraws` | hw/display/vmware_vga.c:463-505 | the command sets every pixel of its rectangle to the colour |
| `Damage.DrawsNothingElse` | hw/display/vmware_vga.c:425-505 | no command changes any other byte of VRAM; refused ones change none |
| `Damage.ApplyLogs` | hw/display/vmware_vga.c:407-422 | what each command records, in order, while one of the 512 slots is free |
| `Damage.FlushShowsAll` | hw/display/vmware_vga.c:358-405 | flushing a display that is not invalidated leaves no written pixel unshown iff the damage was tracked |
| `Damage.ApplyShows` | hw/display/vmware_vga.c:407-422 | a command adds to what will be shown exactly its rectangle as cut to the surface, and loses nothing when the queue overflows |
| `Damage.ApplyAccounted` | hw/display/vmware_vga.c:407-422 | no command loses track of damage, even when its request finds the 512 slots full |
| `Fifo.AcceptedCursor` | hw/display/vmware_vga.c:695-722 | an accepted cursor's argument count is its mask plus its image, within both buffers |
| `Fifo.AcceptedExactly` | hw/display/vmware_vga.c:519-520 | cursors are accepted iff within the limits, and then carry the words of their rows: w bits, and w * bpp bits, rounded up to whole words |
| `Fifo.BitmapRows` | hw/display/vmware_vga.c:519 | for any size, rows of k words with 32k - 32 < w <= 32k, up to 32-bit arithmetic |
| `Fifo.PixmapRows` | hw/display/vmware_vga.c:520 | the same for w * bpp bits per row |
| `Fifo.RewindsExactly` | hw/display/vmware_vga.c:780-794 | a command is put back iff its header is cut off or the 32-bit length left is negative |
| `Fifo.LengthExactly` | hw/display/vmware_vga.c:567-602 | the registers accepted, in plain numbers, and the length they give; all others give 0 |
| `Fifo.ExactAccounting` | hw/display/vmware_vga.c:621-796 | words taken = length used up + uncharged commands + 2^32 for each negative argument count |
| `Fifo.StopCountsWords` | hw/display/vmware_vga.c:604-614 | STOP has moved round the ring by exactly the words taken |
| `Fifo.OverrunIsBounded` | hw/display/vmware_vga.c:747-789 | without negative argument counts a run takes at most one word too many for every uncharged command, and at most 1023 in all |
| `Fifo.RunEnds` | hw/display/vmware_vga.c:621-796 | a run ends with nothing left, at its limit, or at the start of an incomplete command with only complete ones carried out |
| `Overrun.OverrunExactly` | hw/display/vmware_vga.c:621-796 | for every well-formed FIFO: a run reads a word at or past NEXT, and moves STOP past NEXT, iff the words after its whole commands, as far as the loop believes in them, make it do so |
| `Overrun.WholeStreamOverruns` | hw/display/vmware_vga.c:747-789 | with whole commands pending, NEXT is passed in reading iff one was uncharged and fewer than 1023 ran, and in STOP iff moreover the stale words look complete; otherwise STOP ends at NEXT |
| `Overrun.CleanNeverOverruns` | hw/display/vmware_vga.c:635-753 | commands that charge all their words never make a run read or take a word at or past NEXT |
| `Overrun.NeverPastNextFails` | hw/display/vmware_vga.c:764-774 | one pending zero word can make a run take 1023 words |
| `Overrun.ZeroRingOverruns` | hw/display/vmware_vga.c:764-774 | a concrete well-formed FIFO with one pending word of which a run takes 1023 |
| `FifoStream.PutAllAppends` | hw/display/vmware_vga.c:567-614 | storing words at NEXT appends them to the pending stream and disturbs none of it |
| `FifoStream.HeadStable` | hw/display/vmware_vga.c:635-753 | words that arrive later change neither the size nor the effect of the command at the front |
| `FifoStream.RunConsumes` | hw/display/vmware_vga.c:621-799 | a run executes the pending stream up to its limit and leaves exactly the rest pending |
| `FifoStream.FeedExecutesStream` | hw/display/vmware_vga.c:567-799 | at every moment of any history of stores and runs, executed plus pending is the whole stream, even when runs hit their limit |
| `FifoStream.ChunkingInvariance` | hw/display/vmware_vga.c:567-799 | two ways of cutting a stream give the same commands, VRAM, queue, log, pending words and STOP |
| `FifoStream.ShortStreamsSettle` | hw/display/vmware_vga.c:624-629 | a stream of at most 1023 commands never meets the limit, however it is cut |
| `GuestCommands.CommandRoundTrip` | hw/display/vmware_vga.c:635-722 | decoding the words a guest writes, with the codes and row sizes of the protocol, gives back the command and exactly its words |
| `GuestCommands.VerboseRoundTrip` | hw/display/vmware_vga.c:635-647 | code 25 with a rectangle is an update of it |
| `GuestCommands.SkippedRoundTrip` | hw/display/vmware_vga.c:735-794 | the words of every other command, by its code, are read over completely without effect, charged in full or all but one |
| `GuestCommands.CopyReachesVram` | hw/display/vmware_vga.c:668-686 | the words of a copy, stored in any pieces, move every pixel of its rectangle |
| `GuestCommands.FillReachesVram` | hw/display/vmware_vga.c:649-666 | the words of a fill, stored in any pieces, set every pixel of its rectangle |
| `GuestCommands.ProgramIsExecuted` | hw/display/vmware_vga.c:621-799 | a drawing program cut into any pieces is executed: each command once, in order, nothing left |
| `GuestCommands.SmallProgramIsExecuted` | hw/display/vmware_vga.c:621-799 | a program that fits in the ring, of at most 1023 commands, is executed whatever the pieces, with no further condition |
| `SvgaRuns.StepSafe` | hw/display/vmware_vga.c:1002-1200 | every register write, callback, harmless surface change and reset keeps damage queued, or a full update owed or bound to be forced, while enabled |
| `SvgaRuns.UpdateInstallsMode` | hw/display/vmware_vga.c:1135-1173 | after the update the surface has the width, height and depth asked for, the commands were carried out on it, and a full update ends the log iff one was owed |
| `SvgaRuns.ModeIsSet` | hw/display/vmware_vga.c:1019-1064 | from any state, width n and height m written, enable, configure, update: an n by m surface with everything shown |
| `SvgaRuns.BadModeIsRefused` | hw/display/vmware_vga.c:1031-1058 | sizes beyond 5120 by 2880 change nothing; a depth other than 32 leaves SVGA mode |
| `SvgaRuns.StandardModeRests` | hw/display/vmware_vga.c:1154-1200 | outside SVGA mode, where reset leads, commands wait and updates do nothing |
| `SvgaRuns.InvalidationIsPaid` | hw/display/vmware_vga.c:1191-1200 | an invalidated display is updated in full at the next update |
| `SvgaRuns.UpdateShowsExactly` | hw/display/vmware_vga.c:1135-1173 | from every state, the display update shows all damage iff a full update is owed, or the size differs, or all of it is in queued or newly requested rectangles as cut to the surface |
| `SvgaRuns.QueuedDamageExactly` | hw/display/vmware_vga.c:1135-1173 | when all damage is queued: iff a full update is owed, or the size differs, or every outstanding pixel lies on the surface |
| `SurfaceSwap.DamageIsLost` | hw/display/vmware_vga.c:1135-1173 | a concrete history from power-on after which a display update leaves a written pixel unshown |
| `SvgaRuns.NoDamageLost` | hw/display/vmware_vga.c:1135-1173 | after the display update in SVGA mode every pixel ever written has been shown after the write |
| `SvgaDevice.Svga.UpdateRectFlush` | hw/display/vmware_vga.c:389-405 | the loop issues one update per queued rectangle, or none when invalidated, and empties the queue |
| `SvgaDevice.Svga.UpdateRectDelayed` | hw/display/vmware_vga.c:407-422 | appends to the queue, after a flush if it is full |
| `SvgaDevice.Svga.CopyRectCommand` | hw/display/vmware_vga.c:425-459 | copy and redraw request together have the effect of the decoded command |
| `SvgaDevice.Svga.FillRectCommand` | hw/display/vmware_vga.c:463-505 | fill and redraw request together have the effect of the decoded command |
| `SvgaDevice.Svga.FifoLength` | hw/display/vmware_vga.c:567-602 | the length from the registers; whatever it accepts makes every later read stay inside the FIFO |
| `SvgaDevice.Svga.FifoRead` | hw/display/vmware_vga.c:604-614 | reads the word at STOP, advances STOP with wrap-around, stores it back |
| `SvgaDevice.Svga.BadCommand` | hw/display/vmware_vga.c:780-794 | charges the arguments and reads past them, also for wrapped counts, or rewinds |
| `SvgaDevice.Svga.ExecuteCommand` | hw/display/vmware_vga.c:632-796 | the switch does what the stream decoder says; an incomplete command puts STOP back and leaves VRAM, queue and log alone |
| `SvgaDevice.Svga.FifoRunNow` | hw/display/vmware_vga.c:621-799 | the loop over the ring, in place, equals the run of the specification, also in the number of words it reads |
| `SvgaDevice.Svga.CheckSizeNow` | hw/display/vmware_vga.c:1135-1152 | a changed mode gives a new surface and owes a full update |
| `SvgaDevice.Svga.UpdateDisplayNow` | hw/display/vmware_vga.c:1154-1173 | size check, run, flush and full update in that order |
| `SvgaDevice.Svga.ValueWrite` | hw/display/vmware_vga.c:1019-1075 | the register writes that touch this state |
| `SvgaDevice.Svga.ResetNow` | hw/display/vmware_vga.c:1175-1189 | reset disables the device and forgets the queue |
| `FrameProtocol.NoLostWakeup` | hw/display/apple-gfx-common-linux.c:407-526 | in every reachable state the counter is 0, 1 or 2, and while positive a bottom half is on its way |
| `FrameProtocol.NotificationsCoalesce` | hw/display/apple-gfx-common-linux.c:497-526 | n calls of any threads, interleaved, with no bottom half in between: counter min(n, 2), one bottom half |
| `FrameProtocol.BurstIsRead` | hw/display/apple-gfx-common-linux.c:407-526 | such a burst from rest leads to exactly min(n, 2) reads, in every interleaving |
| `FrameProtocol.NoDisplayNoRead` | hw/display/apple-gfx-common-linux.c:422-427 | without a display nothing is read or rescheduled, whatever the counter |
| `FrameProtocol.FreshExactly` | hw/display/apple-gfx-common-linux.c:422-467 | at rest the last read saw the last frame iff no token was dropped over an unread frame since |
| `FrameProtocol.StaleExactly` | hw/display/apple-gfx-common-linux.c:422-427 | a run at rest is stale iff a token was dropped after a publication, with no read between and no token taken since |
| `FrameProtocol.StaleFrameReachable` | hw/display/apple-gfx-common-linux.c:422-427 | a run with one render thread that comes to rest on an old frame |
| `FrameProtocol.FreshWithoutOverlap` | hw/display/apple-gfx-common-linux.c:497-526 | if the counter never rises from 0 inside a bottom half, at most one waits, nothing is dropped, and rest is fresh |
| `FrameProtocol.OneBottomHalfExactly` | hw/display/apple-gfx-common-linux.c:422-526 | over a run that does not end inside a bottom half, never more than one waits iff the counter never rises from 0 inside one |
| `FrameProtocol.UnboundedBottomHalves` | hw/display/apple-gfx-common-linux.c:464-467 | any number of bottom halves can be queued at once |
| `FrameProtocol.RunsAreBounded` | hw/display/apple-gfx-common-linux.c:407-526 | without new frames every run is bounded by a measure of its start |
| `FrameProtocol.RestIsReached` | hw/display/apple-gfx-common-linux.c:407-526 | from every reachable state the system can come to rest without new frames |
| `FrameProtocol.TeardownDrains` | hw/display/apple-gfx-pci-linux.c:217-233 | after teardown each queued bottom half drains in three steps, touches no display and schedules nothing |
| `TaskMemory.PackedContiguously` | hw/display/apple-gfx-common-linux.c:242-282 | byte j of range i is found at the packed position, backed by byte j of its translation |
| `TaskMemory.PackedElsewhere` | hw/display/apple-gfx-common-linux.c:242-282 | mappings outside the packed ranges are unchanged |
| `TaskMemory.ListedMeaning` | hw/display/apple-gfx-common-linux.c:263-269 | the regions listed are the old ones and those of the ranges, none twice |
| `TaskMemory.ListingsCountHolders` | hw/display/apple-gfx-common-linux.c:111-309 | the references on a region number the tasks that list it |
| `TaskMemory.Shell.MapMemory` | hw/display/apple-gfx-common-linux.c:202-309 | all or nothing: success iff every range maps; failure restores regions and references, and the mappings iff the ranges it had mapped were unmapped before |
| `TaskMemory.Shell.MapRanges` | hw/display/apple-gfx-common-linux.c:242-282 | the loop stops at the first range that fails, at either point of failure |
| `TaskMemory.Shell.UnmapRanges` | hw/display/apple-gfx-common-linux.c:287-293 | the first rollback loop removes exactly the packed ranges |
| `TaskMemory.Shell.UnlistRegions` | hw/display/apple-gfx-common-linux.c:294-301 | the second rollback loop unlists and unrefs exactly the regions this call added |
| `TaskMemory.Shell.CreateTask` | hw/display/apple-gfx-common-linux.c:111-142 | a new task joins the end of the list without references |
| `TaskMemory.Shell.DestroyTask` | hw/display/apple-gfx-common-linux.c:144-183 | the task leaves and each of its references is dropped once; unknown handles change nothing |
| `TaskMemory.Shell.UnmapMemory` | hw/display/apple-gfx-common-linux.c:311-327 | the range goes, references stay |
| `TaskMemory.Shell.DrainTasks` | hw/display/apple-gfx-pci-linux.c:202-215 | the drain leaves no task and no reference |
| `Rings.Ring.Enqueue` | hw/usb/dev-hid.c:1918-1942 | mask arithmetic on indices refines a bounded queue that loses its oldest entry when full |
| `Rings.Ring.Dequeue` | hw/usb/dev-hid.c:2217-2228 | takes the oldest entry |
| `Rings.PushAllKeepsOrder` | hw/usb/dev-hid.c:1933-1942 | lost entries, then queued ones, are the old queue and the additions in order |
| `Mouse.DrainBound` | hw/usb/dev-hid.c:1944-1984 | one sync sends max(1, ceil(largest / 127)) reports up to the limit, and every axis keeps what is over |
| `Mouse.SyncDrains` | hw/usb/dev-hid.c:2083-2099 | magnitudes up to 64 * 127 are drained completely; a larger one keeps its excess and sign |
| `Rings.LostExactly` | hw/usb/dev-hid.c:1918-1942 | additions lose exactly the oldest entries, as many as there are too many |
| `Mouse.DropsExactly` | hw/usb/dev-hid.c:1918-1984 | a sync drops exactly max(0, queued + sent - 63) reports, the oldest ones |
| `Mouse.MotionConserved` | hw/usb/dev-hid.c:1918-2099 | per axis input = delivered + queued + dropped + pending, exactly without overflow and modulo 2^32 always |
| `Mouse.MovementConserved` | hw/usb/dev-hid.c:1987-2099 | the same against an independent count of any history: relative steps, way along the absolute positions, wheel clicks |
| `Mouse.AbsoluteTelescopes` | hw/usb/dev-hid.c:2005-2026 | over any history, on both axes, delivered + queued + dropped + pending = relative steps + last position - first; on the wheels, the clicks |
| `Mouse.ScaledExactly` | hw/usb/dev-hid.c:2005-2026 | an absolute position becomes the pixel it lies in |
| `Mouse.ButtonsFollow` | hw/usb/dev-hid.c:2024-2038 | each button's bit in the mask is whether it was last pressed or released |
| `Mouse.SyncShowsButtons` | hw/usb/dev-hid.c:1944-1984 | all reports of a sync carry the buttons as they are |
| `Mouse.NothingGoesUnsaid` | hw/usb/dev-hid.c:1987-2071 | which events ask for a report; one that does not has changed nothing |
| `Mouse.SecondSyncIsSilent` | hw/usb/dev-hid.c:2083-2099 | without a new event a sync sends nothing |
| `Mouse.ChunksFit` | hw/usb/dev-hid.c:1944-1980 | every report fits its signed bytes |
| `Mouse.MightyMouse.InputEvent` | hw/usb/dev-hid.c:1987-2071 | each event adds its input to the accumulators and sets buttons and the pending flag |
| `Mouse.MightyMouse.InputSync` | hw/usb/dev-hid.c:2083-2099 | the do-while loop over clamped reports equals the sync of the specification |
| `Mouse.MightyMouse.HandleData` | hw/usb/dev-hid.c:2212-2228 | the oldest report or NAK on endpoint 1; everything else stalls |
| `Keyboard.SlotsExactly` | hw/usb/dev-hid.c:1365-1418 | slots equal the held keys in press order throughout a history iff six always sufficed |
| `Keyboard.ModifierBits` | hw/usb/dev-hid.c:1375-1384 | each modifier bit tells whether its key is down |
| `Keyboard.HostIsUpToDate` | hw/usb/dev-hid.c:1645-1658 | with the dirty flag clear the host's last report is the current state cut to its packet, so all of it iff the last answered poll had room for a report |
| `Keyboard.ShortPollHidesKey` | hw/usb/dev-hid.c:1645-1658 | a short poll clears the flag before the host has seen the key |
| `Keyboard.PackedIsFaithful` | hw/usb/dev-hid.c:1353-1361 | equal reports mean equal keys and modifiers |
| `Keyboard.PackedRoundTrip` | hw/usb/dev-hid.c:1353-1361 | the host reads number, modifiers and keys in press order back from the ten bytes |
| `Keyboard.ChangedExactly` | hw/usb/dev-hid.c:1437-1447 | a key event asks for a report iff the report would differ |
| `Keyboard.SecondPollIsSilent` | hw/usb/dev-hid.c:1645-1658 | a report is sent once |
| `Keyboard.MagicKeyboard.ApplyUsage` | hw/usb/dev-hid.c:1365-1418 | slot search, insertion and compaction in place equal the update of an ordered list without duplicates |
| `Keyboard.MagicKeyboard.HandleData` | hw/usb/dev-hid.c:1626-1664 | packs the slots, clears the flag, cuts to the packet; NAK without a change and on the vendor endpoint; else stalls |
| `Trackpad.NumberRoundTrip` | hw/usb/dev-hid-apple-trackpad.c:444-475 | the counter is read back from the bytes of a frame |
| `Trackpad.FingerReads` | hw/usb/dev-hid-apple-trackpad.c:419-434 | a finger record read back: x iff it fits 13 bits, y iff it fits 11, the other fields always |
| `Trackpad.MapAbsExactly` | hw/usb/dev-hid-apple-trackpad.c:436-442 | positions map linearly, rounded down, onto the sensor |
| `Trackpad.PointerReachesHost` | hw/usb/dev-hid-apple-trackpad.c:444-545 | pointer position and button arrive in the next multitouch frame |
| `Trackpad.BootFrameReads` | hw/usb/dev-hid-apple-trackpad.c:520-544 | a boot frame carries a quarter of the way since the last one, truncated and cut to 127 |
| `Trackpad.EventsAreNoticed` | hw/usb/dev-hid-apple-trackpad.c:481-509 | which events ask for a frame |
| `Trackpad.FirstFrameIsIdle` | hw/usb/dev-hid-apple-trackpad.c:444-475 | the twelve bytes of the first multitouch frame after reset |
| `Trackpad.FirstBootFrame` | hw/usb/dev-hid-apple-trackpad.c:520-544 | the first boot frame after reset counts from the origin |
| `Trackpad.HistoryNumbered` | hw/usb/dev-hid-apple-trackpad.c:356-372 | since reset, boot frames come first and multitouch frames are numbered from 0 modulo 2^32, dropped ones included |
| `Trackpad.GapsAreExact` | hw/usb/dev-hid-apple-trackpad.c:444-475 | between consecutive delivered frames the dropped ones number the counter difference less one, modulo 2^32 |
| `Trackpad.MagicTrackpad.InputSync` | hw/usb/dev-hid-apple-trackpad.c:511-545 | one frame per sync, numbered in multitouch mode |
| `Trackpad.MagicTrackpad.HandleData` | hw/usb/dev-hid-apple-trackpad.c:736-760 | the oldest frame or NAK on the endpoint of interface 1; NAK on other IN endpoints; other tokens stall |
| `Smc.StartIsAccepted` | hw/misc/applesmc.c:121-155 | from any state at most two writes get a command accepted |
| `Smc.ReadReturns` | hw/misc/applesmc.c:169-211 | a READ from any state returns the table bytes, or zeros and beyond 32 bytes the old buffer |
| `Smc.HistoryIndependentExactly` | hw/misc/applesmc.c:176-211 | the answer is the same after all histories since power-on iff the key is known or at most 32 bytes are asked for |
| `Smc.ReadsBuffer` | hw/misc/applesmc.c:367-399 | reading out a waiting answer yields it byte by byte and completes the command |
| `Smc.WriteCompletesExactly` | hw/misc/applesmc.c:212-245 | from any state a WRITE completes iff its payload has 1 to 251 bytes; the buffer then holds it, and beyond that the rest overwrites the key |
| `Smc.EnumerationIsExact` | hw/misc/applesmc.c:304-351 | "#KEY" counts the keys; smaller indices name keys that lead back to them, all others are bad indices |
| `Smc.EveryKeyIsEnumerated` | hw/misc/applesmc.c:418-429 | every registered key is named by some index |
| `Smc.RealizedTable` | hw/misc/applesmc.c:650-669 | insertion at the head reverses the keys and the count includes itself |
| `Smc.IndexNameIsNotReadable` | hw/misc/applesmc.c:367-399 | after an index command the data port repeats its last byte and reports a bad command |
| `Smc.TypeAnswer` | hw/misc/applesmc.c:246-303 | the six bytes of a type answer: "ui" and the bits of 1, 2 or 4 bytes in decimal, else "ch8*"; the length; a fixed attribute |
| `Smc.UnknownCommandIsRefused` | hw/misc/applesmc.c:147-154 | other command bytes are refused with code 0x82, and the next command is taken |
| `Smc.InterruptionIsRefused` | hw/misc/applesmc.c:138-145 | a command amid another is refused with code 0x80, and taken when written again |
| `Smc.StrayData` | hw/misc/applesmc.c:169-399 | data for no command, and reads of data that is not there, change no buffer |
| `Smc.ResetAbandons` | hw/misc/applesmc.c:431-438 | reset clears status, error and last answer; every command is taken at once |
| `Smc.AppleSmc.IoCmdWrite` | hw/misc/applesmc.c:121-155 | the command port, in place |
| `Smc.AppleSmc.IoDataWrite` | hw/misc/applesmc.c:169-358 | the data port, written, in place, for all four commands |
| `Smc.AppleSmc.IoDataRead` | hw/misc/applesmc.c:367-399 | the data port, read |
| `Smc.AppleSmc.Find` | hw/misc/applesmc.c:157-167 | the list walk finds the first entry of the name |

## Left out

- SvgaDevice.Svga.UpdateRect: the copy of rows to the surface is left out, because the surface lies over VRAM itself.
- SvgaDevice.Svga.UpdateDisplayNow: that a requested mode fits in VRAM is a precondition, as the source does not check it and drawing outside VRAM has no defined meaning.
- SvgaDevice.Svga.DefineCursor: the composition of cursor pixels happens in a helper that is not part of this model.
- SvgaRuns.NoDamageLost: modes fit in VRAM, and a surface that the VGA core puts under an enabled device owing no full update either differs in size from the mode asked for or shows all that is queued; `SvgaRuns.UpdateShowsExactly` covers all histories.
- FifoStream.ChunkingInvariance: only for commands that charge all their words; the others are covered by the accounting lemmas.
- Fifo.OverrunIsBounded: only for runs without negative argument counts; `Fifo.ExactAccounting` and `Overrun.OverrunExactly` cover those too.
- TaskMemory.Shell.MapMemory: a failed library map changes nothing and rollback unmaps succeed; offsets do not wrap, as the library maps only inside its reservation.
- TaskMemory.Shell.CreateTask: that the library returns a fresh handle is a precondition.
- FrameProtocol.NoLostWakeup: for a live display; without one the early exit keeps tokens, which only teardown meets.
- FrameProtocol.TeardownDrains: that no library callback fires after the library is freed is a precondition.
- FrameProtocol: fields are values here, so aliasing of the device state between threads is not modelled, only its atomic accesses.
- Mouse.AbsoluteTelescopes: for histories without overflow and without negative positions; `Mouse.MovementConserved` covers all histories.
- Mouse: host-side bytes of a displacement are kept as signed numbers.
- Smc: the literal keys and sensor values of the table, and access widths of the ports.
- SVGA registers other than those above, scratch registers, text mode, migration state.
- Display-mode property parsing, MMIO forwarding, DMA, interrupts, cursor callbacks, the vertical-blank timer.
- USB descriptors, HID control requests, the key code table, vendor endpoints.
- The QEMU core, the rendering library and the console are not part of this model; they appear as parameters and logs.
