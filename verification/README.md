# Maschine Mk3 driver stack: verified models

Dafny models of the stateful core of the Maschine Mk3 driver stack, with proofs. One module per component;
`dafny verify dfyconfig.toml` checks everything.

| module | models |
|---|---|
| `Proto` | the protocol crate's error type |
| `Words` | machine words as bounded integers, bitwise operators on binary digits, byte orders, division facts |
| `Tiles` | the dirty-tile bitset (eight 64-bit words, 510 tiles) and its decomposition into runs |
| `Framebuffers` | one display's pixels and the drawing calls that keep its dirty set |
| `Wire` | the display command encoders, and a device that reads and paints the documented byte stream |
| `Encoder` | dirty framebuffer to one transfer; decoding, effect on the device, and size of that transfer |
| `Scheduler` | clients, encoder task and writes interleaved, for both displays on one device |
| `DisplayRing` | the driver extension's 16-slot display ring |
| `HidOutSlots` | the lock-free allocator of the four HID OUT buffers |
| `HidIn` | HID report parsing, button and encoder differences |
| `Device` | reports to events: lossless control edges, the per-pad press machine |
| `Riff` | the NKS chunk walk over a file cursor, and the later read of the plugin state |
| `Envelope` | the plugin host's one-line JSON envelope scanner against its printer |
| `Session` | request/reply matching by id, and one session per plugin bundle |
| `Watcher` | the library watcher's debounce loop |

## What is proved

**Display pipeline.** `DirtyTracker` refines a set of tiles; `Runs` returns the only canonical decomposition of that
set. The device in `Wire` is an independent reading of the documented wire format: rows are filled left to right, top
to bottom, inside the framed rect. `EncodeFrame` copies exactly the dirty tiles to the addressed screen, and its bytes
decode unambiguously whichever of `repeat` and `blit` was chosen. `EveryRunCoherent` covers every interleaving of
closures, encodes, deliveries and failed writes of both displays. It excepts two kinds of pixels, which may but need
not be stale: those written through `pixels_mut` without a mark (`owed`), and those in tiles of failed writes (`lost`).
`OwedIsUnmarked` says of any run which pixels are owed: those with a direct write whose tile no call marks in the same
closure, later, or earlier with the mark still pending. `NoUpdateLost` is the case in which no such write is left and no
write failed. Both exclusions are needed: `UnmarkedWriteStaysInvisible` and `FailureEndsAtRest` say exactly when the
display still agrees afterwards, and by `StaleStays` and `FailedWriteStaysLost` a stale pixel stays stale on every later
run until its tile is marked again or the pixel is written.

**Driver extension.** Both transports are step machines: several threads, nondeterministic pipe answers, completions
anywhere. The display ring's two early exits that lower `inflight` without rewinding `head` break the ring from every
aligned state (`UnusableBufferMisaligns`), so they are outside its steps. That is harmless exactly if nothing was in
flight; otherwise the submissions that fill the ring again overwrite the number of the oldest transfer in flight
(`AbandonedSlotOverwrites`).

**Input.** Parsing inverts every layout. The events of any run of reports rebuild the last report bit for bit, and
between two reports they are exactly one per difference (`SentIffTells`, `OneEventEach`). Deltas
add up to the true movement. Pad events are well bracketed for every threshold setting; the thresholds work as
hysteresis exactly if the off threshold is below the on threshold. Pad 0 reported at pressure zero is taken for an empty
slot, so it alone is not released by such a report (`RestReleasesAllButPadZero`).

**Presets.** `ReadPrinted` determines the result for every list of chunks in which each `NISI`, `PLID` and `NICA` chunk
has room for its version prefix, whether the payloads decode or not.
`LandsOnBoundary` says exactly when the walk reaches the next chunk: a chunk of a kind that is read must be long
enough for its version prefix. `ShortChunkMisreads` shows what happens otherwise. A file cut short inside a chunk that is
read is always an error (`CutPresetFails`); one cut short inside its plugin state is accepted and fails only when the
state is loaded (`CutStateFailsLater`).

**Plugin host.** `ReadBack` is an equivalence over all messages: reading undoes writing exactly if kind and body hold no
line break, the kind has no unescaped quote or dangling backslash, and the value scanner can delimit the body. For an
object that means that its brace depth, counted inside strings too, first returns to zero at its last character.
`PathBack` composes it with the string reader for a path sent in a request.
`ReturnsFirstReply` and `WokenOnce` hold on every interleaving of callers and reader. The error a call is meant to return
when the host has gone is never reached, because the sending end of the call's channel stays registered: after the
host's output has ended, a call can still return exactly if its reply came before (`ReturnsIffReplied`). Any other call,
even one begun later, can only fail at its write, be given up, or wait forever (`EndLeavesCallsWaiting`);
`EndOvertakesReply` is a run that gets there.

**Watcher.** Conservation and debounce hold for every trace. A deadline is set by any change, interesting or not; one
with nothing to deliver is never cleared by a timeout (`DeadlineSince`, `EmptyDeadlineStays`).

Where code and documentation disagree the code is followed: the wire format comment shows four data bytes in a blit
command, the encoder writes four zero bytes and puts the pixels after it.

## Model

| member | source | states |
|---|---|---|
| `Tiles.RectTilesMeaning` | crates/maschine-core/src/display/dirty.rs:48-59 | a tile belongs to a marked rectangle exactly if it is on the grid and holds one of the rectangle's pixels |
| `Tiles.EmptyIffZero` | crates/maschine-core/src/display/dirty.rs:30 | the eight words are all zero exactly if no tile is dirty, given that bits 510 and 511 are clear |
| `Tiles.CanonicalUnique` | crates/maschine-core/src/display/dirty.rs:61-78 | a dirty set has only one decomposition into sorted, disjoint, maximal runs that cover it |
| `Tiles.CanonicalCovers` | crates/maschine-core/src/display/dirty.rs:61-78 | a tile is dirty exactly if one of the canonical runs covers it |
| `Tiles.DirtyTracker.constructor` | crates/maschine-core/src/display/dirty.rs:16 | a new tracker is valid and has no dirty tile |
| `Tiles.DirtyTracker.Clear` | crates/maschine-core/src/display/dirty.rs:18 | no tile is dirty afterwards |
| `Tiles.DirtyTracker.MarkFull` | crates/maschine-core/src/display/dirty.rs:20-28 | the closed-form masks make exactly the 510 tiles dirty and leave the two spare bits zero |
| `Tiles.MarkEachTile` | crates/maschine-core/src/display/dirty.rs:20-36 | marking all tiles one by one gives the same set as the closed-form masks |
| `Tiles.DirtyTracker.IsEmpty` | crates/maschine-core/src/display/dirty.rs:30 | true exactly if the set of dirty tiles is empty |
| `Tiles.DirtyTracker.MarkTile` | crates/maschine-core/src/display/dirty.rs:32-36 | adds exactly that tile, or nothing off the grid; the spare bits stay zero |
| `Tiles.DirtyTracker.IsTileDirty` | crates/maschine-core/src/display/dirty.rs:38-42 | true exactly if the tile is in the set |
| `Tiles.DirtyTracker.MarkPixel` | crates/maschine-core/src/display/dirty.rs:44-46 | adds the tile of that pixel |
| `Tiles.DirtyTracker.MarkRect` | crates/maschine-core/src/display/dirty.rs:48-59 | adds exactly the grid tiles that meet the rectangle |
| `Tiles.DirtyTracker.Runs` | crates/maschine-core/src/display/dirty.rs:61-78 | returns the canonical runs of the dirty set, and terminates |
| `Framebuffers.FillMarksWhatItChanges` | crates/maschine-core/src/display/framebuffer.rs:49-61 | every pixel a fill may change lies in a tile that the fill leaves dirty |
| `Framebuffers.FilledAt` | crates/maschine-core/src/display/framebuffer.rs:48-61 | in screen coordinates, a fill changes exactly the pixels of the rectangle |
| `Framebuffers.Framebuffer.constructor` | crates/maschine-core/src/display/framebuffer.rs:18-23 | all pixels zero, nothing dirty |
| `Framebuffers.Framebuffer.IsDirty` | crates/maschine-core/src/display/framebuffer.rs:29 | true exactly if some tile is dirty |
| `Framebuffers.Framebuffer.Clear` | crates/maschine-core/src/display/framebuffer.rs:31-35 | one colour everywhere, every tile dirty |
| `Framebuffers.Framebuffer.SetPixel` | crates/maschine-core/src/display/framebuffer.rs:37-41 | changes that pixel and marks its tile; off screen nothing changes |
| `Framebuffers.Framebuffer.Touch` | crates/maschine-core/src/display/framebuffer.rs:44-46 | marks the rectangle's tiles and changes no pixel |
| `Framebuffers.Framebuffer.WritePixel` | crates/maschine-core/src/display/framebuffer.rs:28 | a write through the mutable slice changes one pixel and marks nothing |
| `Framebuffers.Framebuffer.FillRect` | crates/maschine-core/src/display/framebuffer.rs:48-61 | fills exactly the rectangle's on-screen pixels and marks exactly its tiles |
| `Wire.EncodeHeader` | crates/maschine-proto/src/display.rs:62-79 | writes the 32 header bytes and nothing else, or reports the short buffer and writes nothing |
| `Wire.EncodeBlitCmd` | crates/maschine-proto/src/display.rs:81-101 | writes opcode 0, the low 24 bits of the count and four zero bytes and nothing else, or reports the short buffer and writes nothing |
| `Wire.EncodeRepeatCmd` | crates/maschine-proto/src/display.rs:103-114 | writes opcode 1, the low 24 bits of the count and the pixel pair and nothing else, or reports the short buffer and writes nothing |
| `Wire.EncodeFlushCmd` | crates/maschine-proto/src/display.rs:116-123 | writes the flush chunk and nothing else, or reports the short buffer and writes nothing |
| `Wire.EncodeEndCmd` | crates/maschine-proto/src/display.rs:125-132 | writes the end chunk and nothing else, or reports the short buffer and writes nothing |
| `Wire.EncodeSolidFrame` | crates/maschine-proto/src/display.rs:134-153 | writes the 56-byte start-up clear, or reports the short buffer and writes nothing |
| `Wire.PackRgb565Be` | crates/maschine-proto/src/display.rs:155-164 | writes each pixel as two bytes, high byte first, and nothing else |
| `Wire.LexHeader` | crates/maschine-proto/src/display.rs:9-31 | the device reads an encoded header back as its display and rect, whatever follows |
| `Wire.LexRepeat` | crates/maschine-proto/src/display.rs:103-114 | a repeat command with a count below 2^24 is read back as that many pixel pairs |
| `Wire.LexBlit` | crates/maschine-proto/src/display.rs:81-101 | a blit command with a count below 2^24 and its payload are read back as the native pixels |
| `Wire.UnpackPack` | crates/maschine-proto/src/display.rs:155-164 | big-endian packing is undone by the device's unpacking |
| `Wire.SolidFrameFills` | crates/maschine-proto/src/display.rs:134-153 | the start-up clear shows one colour on all of one screen and leaves the other alone |
| `Wire.Rgb565Keeps` | crates/maschine-proto/src/types.rs:111-118 | two colours pack to the same word exactly if their leading 5, 6 and 5 bits agree |
| `Wire.Rgb565Fields` | crates/maschine-proto/src/types.rs:111-118 | red is the top five bits of the word, green the six below, blue the low five |
| `Wire.Rgb565Bits` | crates/maschine-proto/src/types.rs:111-118 | bit by bit, where each of the kept component bits lands in the word |
| `Encoder.Collect` | crates/maschine-core/src/display/encoder.rs:64-69 | gathers the rect's pixels in stream order |
| `Encoder.EncodeRun` | crates/maschine-core/src/display/encoder.rs:46-98 | appends header and pixel command of the rect to the output |
| `Encoder.EstimateCapacity` | crates/maschine-core/src/display/encoder.rs:100-108 | the capacity estimate of the runs |
| `Encoder.EncodeRuns` | crates/maschine-core/src/display/encoder.rs:28-41 | one block per run in run order, then flush and end |
| `Encoder.EncodeFrame` | crates/maschine-core/src/display/encoder.rs:26-44 | received by any device, the transfer copies exactly the dirty tiles; it is at most 261,816 bytes; the framebuffer keeps its pixels and becomes clean |
| `Encoder.LexPixelCommand` | crates/maschine-core/src/display/encoder.rs:71-97 | whichever command was chosen, the device reads the same pixels |
| `Encoder.FrameLexes` | crates/maschine-core/src/display/encoder.rs:26-44 | the device reads exactly one rect and its pixels per run, in order, one flush, one end, and no byte is left |
| `Encoder.FrameEffect` | crates/maschine-core/src/display/encoder.rs:26-44 | dirty tiles are copied, clean tiles and the other screen stay as they were |
| `Encoder.FrameSynchronises` | crates/maschine-core/src/display/encoder.rs:26-44 | after the frame the screen equals the framebuffer exactly if every stale pixel lay in a dirty tile |
| `Encoder.FrameSize` | crates/maschine-core/src/display/encoder.rs:84-108 | length within the estimate and 261,816 bytes, a multiple of 8; the maximum is reached exactly with every tile dirty and no solid run |
| `Encoder.RunsAndTiles` | crates/maschine-core/src/display/dirty.rs:61-78 | runs and dirty tiles together are at most 31 per row |
| `Encoder.RunArea` | crates/maschine-core/src/display/encoder.rs:76-97 | a tile run holds an even, positive number of pixels, no more than a screen, so pair counts are exact and fit 24 bits |
| `Scheduler.DisplayHandle.ModifyWith` | crates/maschine-core/src/display/mod.rs:45-50 | a closure's calls act on the framebuffer one after another |
| `Scheduler.DisplayHandle.TakeFrame` | crates/maschine-core/src/display/mod.rs:67-74 | nothing when clean; otherwise the frame of the current framebuffer, which becomes clean |
| `Scheduler.LaneDrawsFramebuffer` | crates/maschine-core/src/display/mod.rs:45-50 | the scheduler's closures act on its framebuffer as the shared handle's do |
| `Scheduler.StepKeepsCoherent` | crates/maschine-core/src/display/mod.rs:45-81 | every step of either display's clients or task keeps both displays coherent |
| `Scheduler.EveryRunCoherent` | crates/maschine-core/src/display/mod.rs:45-81 | on every run, with the write under way applied, the screen matches the framebuffer on all clean tiles, except unmarked direct writes and tiles of failed writes |
| `Scheduler.MarkedClosureOwesNothing` | crates/maschine-core/src/display/mod.rs:42-50 | a closure leaves no unmarked pixel exactly if each tile it writes directly was dirty before or is marked by one of its calls, before or after the write |
| `Scheduler.OwedIsUnmarked` | crates/maschine-core/src/display/mod.rs:42-81 | after any run a pixel is left unmarked exactly if some direct write to it has no mark of its tile in its closure, later, or earlier with no encode in between |
| `Scheduler.NoUpdateLost` | crates/maschine-core/src/display/mod.rs:45-81 | when every directly written tile is marked in its closure, later, or earlier and still pending, and no write of the display fails, no modification is lost: the screen with the write under way applied matches all clean tiles, and at rest equals the framebuffer |
| `Scheduler.EncodeThenDeliver` | crates/maschine-core/src/display/mod.rs:67-80 | an encoded frame can be delivered, and then shows the framebuffer it was taken from |
| `Scheduler.FailureEndsAtRest` | crates/maschine-core/src/display/mod.rs:72-80 | a failed write leaves the display at rest; it then shows the framebuffer exactly if clean tiles agreed and the write got through on the dirty ones, and when nothing got through exactly if it did before |
| `Scheduler.FailedWriteStaysLost` | crates/maschine-core/src/display/mod.rs:72-80 | a pixel a failed write did not bring up to date stays stale on every later run until its tile is marked again or it is written |
| `Scheduler.LostIsFailed` | crates/maschine-core/src/display/mod.rs:72-80 | after any run a tile counts as lost exactly if a failed write held it and no later encode did |
| `Scheduler.FailedWriteLosesUpdate` | crates/maschine-core/src/display/mod.rs:72-80 | such a stale state at rest is reached from power-up |
| `Scheduler.UnmarkedWriteStaysInvisible` | crates/maschine-core/src/display/mod.rs:42-50 | one direct write keeps an up-to-date display up to date exactly if its tile is dirty or the value is unchanged, and otherwise leaves the pixel stale |
| `Scheduler.StaleStays` | crates/maschine-core/src/display/mod.rs:45-81 | a stale pixel stays stale on every later run, whatever else is drawn, until its tile is marked again or it is written |
| `DisplayRing.Transport.Reserve` | dext/MaschineMk3Dext/MaschineMk3DisplayTransport.cpp:201-211 | refuses at 16 in flight, otherwise takes the head slot and records the sequence number |
| `DisplayRing.Transport.Rollback` | dext/MaschineMk3Dext/MaschineMk3DisplayTransport.cpp:240-246 | gives the slot back |
| `DisplayRing.Transport.HandleComplete` | dext/MaschineMk3Dext/MaschineMk3DisplayTransport.cpp:159-190 | frees the completed slots and reports each with its stored sequence number and status |
| `DisplayRing.Transport.Abandon` | dext/MaschineMk3Dext/MaschineMk3DisplayTransport.cpp:213-227 | lowers the count and keeps the head |
| `DisplayRing.Transport.SubmitBulkOut` | dext/MaschineMk3Dext/MaschineMk3DisplayTransport.cpp:192-252 | which status for which outcome; success reserves one slot, a refused buffer restores head, tail and count, a missing or unmapped buffer leaves the head advanced |
| `DisplayRing.FramesFitTheirSlot` | dext/MaschineMk3Dext/MaschineMk3DisplayTransport.cpp:194-196 | no frame of the encoder is refused for its length |
| `DisplayRing.StepKeepsInv` | dext/MaschineMk3Dext/MaschineMk3DisplayTransport.cpp:169-251 | every step keeps the ring aligned, each in-flight slot's number, and the accepted numbers as those reported followed by those in flight |
| `DisplayRing.EveryRunKeepsInv` | dext/MaschineMk3Dext/MaschineMk3DisplayTransport.cpp:169-251 | so does every interleaving of submissions, pipe answers and completions |
| `DisplayRing.DoneInOrder` | dext/MaschineMk3Dext/MaschineMk3DisplayTransport.cpp:169-190 | from the start: head is tail plus in-flight modulo 16, at most 16 in flight, no slot twice, reported numbers are the accepted ones in order, each once |
| `DisplayRing.RefusalLeavesNoTrace` | dext/MaschineMk3Dext/MaschineMk3DisplayTransport.cpp:240-251 | a refused submission, with completions before and after the refusal, ends as those completions alone would, up to a slot not in flight |
| `DisplayRing.RewindNeedsLastSlot` | dext/MaschineMk3Dext/MaschineMk3DisplayTransport.cpp:243-245 | a rewind keeps the ring aligned exactly if it returns the last reserved slot |
| `DisplayRing.UnusableBufferMisaligns` | dext/MaschineMk3Dext/MaschineMk3DisplayTransport.cpp:213-227 | the exits that lower the count without rewinding the head misalign every aligned ring |
| `DisplayRing.MisalignmentHarmlessWhenIdle` | dext/MaschineMk3Dext/MaschineMk3DisplayTransport.cpp:207-227 | after such an exit the in-flight slots are still those just before the head exactly if nothing was in flight |
| `DisplayRing.AbandonedSlotOverwrites` | dext/MaschineMk3Dext/MaschineMk3DisplayTransport.cpp:203-227 | the submissions that then fill the ring overwrite the number of an in-flight slot exactly if one was in flight: that of the oldest, and no other |
| `HidOutSlots.ClaimTakesLowest` | dext/MaschineMk3Dext/MaschineMk3HidTransport.cpp:69-81 | the two's complement bit trick takes the lowest free slot and no other |
| `HidOutSlots.OutSlots.Claim` | dext/MaschineMk3Dext/MaschineMk3HidTransport.cpp:69-81 | -1 exactly if the mask is empty, otherwise the lowest free slot, however many exchanges fail spuriously |
| `HidOutSlots.OutSlots.Release` | dext/MaschineMk3Dext/MaschineMk3HidTransport.cpp:83-86 | frees exactly that slot |
| `HidOutSlots.StepKeepsInv` | dext/MaschineMk3Dext/MaschineMk3HidTransport.cpp:69-86 | every step of any thread or completion keeps the mask the complement of the held slots, one holder per slot, and claims paid back once |
| `HidOutSlots.EveryRunKeepsInv` | dext/MaschineMk3Dext/MaschineMk3HidTransport.cpp:238-287 | so does every interleaving of any number of threads and completions |
| `HidOutSlots.MaskTracksHolders` | dext/MaschineMk3Dext/MaschineMk3HidTransport.cpp:238-287 | from the start, on every interleaving: a slot is free exactly if nobody holds it, never has two holders, and every closed claim was released once |
| `HidOutSlots.SwapClaimsLowestFree` | dext/MaschineMk3Dext/MaschineMk3HidTransport.cpp:73-78 | a successful exchange claims the lowest slot nobody holds at that moment |
| `HidOutSlots.FullWasSeen` | dext/MaschineMk3Dext/MaschineMk3HidTransport.cpp:80 | -1 is returned only after a mask was read while all four slots were held |
| `HidOutSlots.QuiescentIsFull` | dext/MaschineMk3Dext/MaschineMk3HidTransport.cpp:238-287 | with no thread inside and nothing in the pipe all slots are free and every claim was released |
| `HidIn.ParseControls` | crates/maschine-proto/src/hid_in.rs:106-145 | too short a report is rejected with both lengths; otherwise the result is the report the buffer carries |
| `HidIn.ReportUnique` | crates/maschine-proto/src/hid_in.rs:106-145 | a buffer carries at most one report, so parsing inverts every layout |
| `HidIn.ControlsAtOffsets` | crates/maschine-proto/src/hid_in.rs:119-134 | at which byte offset each ten-bit field of a carried report lies, and when the strip is absent |
| `HidIn.ButtonBits` | crates/maschine-proto/src/hid_in.rs:114-117 | button k is bit k % 8 of byte 1 + k / 8 |
| `HidIn.LayoutCarries` | crates/maschine-proto/src/hid_in.rs:114-134 | every report can be laid out, with any bytes after it |
| `HidIn.ParsePads` | crates/maschine-proto/src/hid_in.rs:147-164 | the entry loop computes the entry list, and every index it returns is below 16 |
| `HidIn.Parse` | crates/maschine-proto/src/hid_in.rs:87-98 | dispatch on the report id with every error case |
| `HidIn.PadsRoundTrip` | crates/maschine-proto/src/hid_in.rs:147-164 | samples other than (0, 0), with empty entries anywhere and up to two stray bytes, parse to themselves in order |
| `HidIn.BadPadRejected` | crates/maschine-proto/src/hid_in.rs:158-160 | the first index of 16 or more fails the report with that index |
| `HidIn.ButtonsDiffMeaning` | crates/maschine-proto/src/hid_in.rs:42-55 | the difference lists exactly the changed bits with their new state |
| `HidIn.ButtonsDiffIncreasing` | crates/maschine-proto/src/hid_in.rs:42-55 | the difference is strictly in bit order, so no button is listed twice |
| `HidIn.EncoderDeltaUnique` | crates/maschine-proto/src/hid_in.rs:57-63 | the delta is the only number in -511..512 congruent to the difference modulo 1024 |
| `HidIn.UnwrapsTravel` | crates/maschine-proto/src/hid_in.rs:57-63 | over any run of steps in that range the deltas add up to the true total movement |
| `Device.ViewDeterminesReport` | crates/maschine-core/src/device.rs:150-180 | what an event client can know fixes the whole report |
| `Device.ControlsLossless` | crates/maschine-core/src/device.rs:150-180 | the events between two reports take a client's view from the first to the second |
| `Device.RunLossless` | crates/maschine-core/src/device.rs:150-180 | folding the events of any run of reports gives the last report exactly |
| `Device.RepeatIsSilent` | crates/maschine-core/src/device.rs:150-178 | a repeated report sends nothing but the position of a touched strip |
| `Device.SentIffTells` | crates/maschine-core/src/device.rs:150-178 | an event is sent exactly if it tells of a difference between the two reports, or where the strip is touched |
| `Device.OneEventEach` | crates/maschine-core/src/device.rs:150-178 | between two reports there is at most one event for each button, macro, the master, the strip and each knob, in this order |
| `Device.TravelIsTrueMovement` | crates/maschine-core/src/device.rs:155-164 | the deltas sent for a macro encoder or the master encoder over a run add up to its true movement |
| `Device.PadBracketed` | crates/maschine-core/src/device.rs:195-213 | every pad's events are a prefix of (Attack Pressure* Release)*, and the pad is on exactly if they end inside a press |
| `Device.PadEventBounds` | crates/maschine-core/src/device.rs:195-212 | attack at or above the on threshold, release at or below the off threshold, pressure at least the step from the previous sample |
| `Device.PadEventExactly` | crates/maschine-core/src/device.rs:195-213 | exactly when a sample causes an attack, a release or a pressure event, from whether the pad is on, the thresholds and the step from its previous sample |
| `Device.OnFollowsEvents` | crates/maschine-core/src/device.rs:196-203 | a pad turns on and off exactly at its attacks and releases |
| `Device.PeakSinceAttack` | crates/maschine-core/src/device.rs:196-207 | while a pad is on its recorded peak is the maximum since its attack |
| `Device.Hysteresis` | crates/maschine-core/src/device.rs:195-213 | the off threshold is below the on threshold exactly if, on every run of samples, a pad is on if and only if some sample reached the on threshold and all later ones stayed above the off threshold |
| `Device.RestReleasesAllButPadZero` | crates/maschine-proto/src/hid_in.rs:147-164 | an on pad whose only entry in a report says pressure zero is released by it exactly if it is not pad 0 |
| `Device.VelocityMonotone` | crates/maschine-core/src/device.rs:217-222 | velocity grows with pressure, is 0 up to the base and 127 exactly from the top of the range on |
| `Device.VelocityIsLinear` | crates/maschine-core/src/device.rs:217-222 | inside the pressure range the velocity is the linear scale to 0..127, rounded down |
| `Device.PressureToVelocity` | crates/maschine-core/src/device.rs:217-222 | the scaled value fits seven bits |
| `Device.SendControls` | crates/maschine-core/src/device.rs:150-178 | sends every event that tells of a difference between the reports and no other, each subject at most once |
| `Device.ControlsAppended` | crates/maschine-core/src/device.rs:150-180 | sending a report's edges brings a client up to date and moves no pad |
| `Device.DiffState.constructor` | crates/maschine-core/src/device.rs:117-124 | a new state has seen and sent nothing |
| `Device.DiffState.EmitControls` | crates/maschine-core/src/device.rs:150-180 | sends the edges, remembers the report, and all events so far still show it |
| `Device.DiffState.StepPad` | crates/maschine-core/src/device.rs:189-213 | sends an attack, release or pressure event exactly when the thresholds and the step call for it, with the velocity on an attack only; no other pad changes; the raw stream sends every sample |
| `Device.DiffState.EmitPad` | crates/maschine-core/src/device.rs:188-214 | each pad stays where its samples so far put it and has sent exactly the events they cause |
| `Device.DiffState.EmitPads` | crates/maschine-core/src/device.rs:182-215 | the same for a whole report, in order |
| `Device.DiffState.Feed` | crates/maschine-core/src/device.rs:131-147 | a frame that does not parse changes and sends nothing; any other acts as the report it carries |
| `Riff.File.ReadExact` | crates/nks-parse/src/riff.rs:25-34 | returns exactly the bytes at the cursor and advances, or fails past the end |
| `Riff.TakeChunk` | crates/nks-parse/src/riff.rs:64-101 | one loop arm through the cursor is an i/o error exactly if the chunk is cut short, and otherwise reads it and leaves the cursor where the model says |
| `Riff.Take` | crates/nks-parse/src/riff.rs:64-101 | an iteration that reaches the next one consumed at least 8 bytes; it is an i/o error exactly if the file ends inside the version prefix or data of a chunk that is read |
| `Riff.ReadMetadata` | crates/nks-parse/src/riff.rs:36-112 | the cursor reads compute the walk and the missing-chunk errors and terminate; a file is refused as foreign exactly if its magic is not RIFF or its form not NIKS |
| `Riff.ReadChunks` | crates/nks-parse/src/riff.rs:58-102 | the loop over the cursor computes the walk and terminates |
| `Riff.NksFile.ReadState` | crates/nks-parse/src/lib.rs:48-56 | the bytes at the recorded offset and length, or an i/o error past the end |
| `Riff.LandsOnBoundary` | crates/nks-parse/src/riff.rs:64-101 | the cursor reaches the next chunk exactly if the chunk decodes and, being of a kind that is read, has room for its version prefix |
| `Riff.WalkLaidOut` | crates/nks-parse/src/riff.rs:58-102 | over any layout the walk fails exactly if some chunk does not decode, and otherwise keeps the last chunk of each kind |
| `Riff.StateOfLast` | crates/nks-parse/src/riff.rs:88-92 | offset and length are those of the last state chunk's payload |
| `Riff.PrintedIsLaidOut` | crates/nks-parse/src/riff.rs:98-101 | a printed list of chunks, of any kinds and lengths, is such a layout with up to three stray bytes after it |
| `Riff.LayoutUnique` | crates/nks-parse/src/riff.rs:58-102 | bytes determine the chunks they hold |
| `Riff.ReadPrinted` | crates/nks-parse/src/riff.rs:36-112 | reading back a printed container: which error in which case, on success the last chunk of each kind, and the state read later is the last state payload |
| `Riff.NotNksExactly` | crates/nks-parse/src/riff.rs:40-46 | exactly which files are refused as foreign |
| `Riff.HeaderCutShort` | crates/nks-parse/src/riff.rs:40-46 | a file that ends inside the header is an i/o error unless its magic is wrong |
| `Riff.CutPresetFails` | crates/nks-parse/src/riff.rs:58-85 | whatever whole chunks came before, a file that ends inside a chunk that is read, or inside any chunk's header, is an i/o error |
| `Riff.CutStateFailsLater` | crates/nks-parse/src/riff.rs:86-93 | a preset that ends inside its plugin state is accepted, and loading the state is an i/o error |
| `Riff.TagsAreAscii` | crates/nks-parse/src/riff.rs:22-23 | the tags are the ASCII codes of their names |
| `Riff.ShortChunkMisreads` | crates/nks-parse/src/riff.rs:69-76 | a summary chunk without a version prefix makes the walk skip the plugin chunk after it |
| `Envelope.FindField` | pluginhost/src/ipc.cpp:15-37 | the moving index finds the first key, the first colon after it and the value's two ends |
| `Envelope.ScanValue` | pluginhost/src/ipc.cpp:24-35 | quoted string, braced object or bare word |
| `Envelope.Find` | pluginhost/src/ipc.cpp:17-19 | the first occurrence at or after the start, or none at all |
| `Envelope.StringEndAfter` | pluginhost/src/ipc.cpp:24-27 | the string scan ends at the closing quote exactly if every quote before it is escaped and no backslash dangles |
| `Envelope.BraceEndAfter` | pluginhost/src/ipc.cpp:28-31 | the brace scan ends at the body's end exactly if the depth first returns to zero there |
| `Envelope.StoullOfDigits` | pluginhost/src/ipc.cpp:51-53 | parsing the decimal digits of any 64-bit id gives the id |
| `Envelope.StoullOfNumber` | pluginhost/src/ipc.cpp:51-53 | an id after white space and a sign, before any other text: out of range it is none, a minus sign negates modulo 2^64 |
| `Envelope.MissingFields` | pluginhost/src/ipc.cpp:50-57 | a field whose key does not occur has its default |
| `Envelope.KindBack` | pluginhost/src/ipc.cpp:54-55 | the kind is read back exactly if no quote in it is unescaped and no backslash dangles |
| `Envelope.BodyBack` | pluginhost/src/ipc.cpp:56-57 | the body is read back exactly if the value scanner can tell where it ends |
| `Envelope.ReadBack` | pluginhost/src/ipc.cpp:46-66 | for every message and whatever follows it: reading undoes writing exactly if the message is readable |
| `Envelope.StreamBack` | pluginhost/src/ipc.cpp:46-66 | a stream of readable messages is read back one for one, in order, and then the reader sees the end of input |
| `Envelope.UnterminatedLine` | pluginhost/src/ipc.cpp:46-48 | a last line without a line break is read as if it had one |
| `Envelope.BraceInStringCuts` | pluginhost/src/ipc.cpp:28-31 | a closing brace inside a string already ends the body |
| `Envelope.Pipe.WriteMessage` | pluginhost/src/ipc.cpp:61-66 | appends exactly the printed line |
| `Envelope.Pipe.ReadMessage` | pluginhost/src/ipc.cpp:46-59 | consumes one line and returns its three fields, with the defaults of fields that are missing |
| `Envelope.JsonEscape` | pluginhost/src/session.cpp:9-26 | the loop computes the escaped string |
| `Envelope.DecodeEscaped` | pluginhost/src/session.cpp:9-26 | a JSON string decoder undoes the escaping on every string, control characters included |
| `Envelope.ReadString` | pluginhost/src/main.cpp:16-27 | the loop computes the unescaped value after the first occurrence of the key, or the default |
| `Envelope.StringBack` | pluginhost/src/main.cpp:16-27 | where the key first occurs at an escaped value, that value is returned exactly if it has no control character |
| `Envelope.MissingString` | pluginhost/src/main.cpp:18-19 | a key that does not occur gives the default |
| `Envelope.TrailingBackslash` | pluginhost/src/main.cpp:22-25 | a backslash with nothing after it is kept |
| `Envelope.PathBack` | pluginhost/src/main.cpp:16-27 | an escaped path in a request that is written, read and picked out again comes back exactly if it has no control character and no proper prefix of it closes more braces than it opens |
| `Session.PluginSession.Allot` | crates/maschined/src/session.rs:98-99 | hands out the next id and advances the counter, wrapping at 64 bits |
| `Session.PluginSession.Register` | crates/maschined/src/session.rs:100-101 | registers the caller under its id |
| `Session.PluginSession.Dispatch` | crates/maschined/src/session.rs:86-93 | id 0 goes to the events; a registered id removes its entry and wakes that caller; any other message is dropped |
| `Session.StepKeepsInv` | crates/maschined/src/session.rs:66-106 | every step of any caller or the reader keeps: registered ids are those inserted and not yet answered, each entry is its issuer's, a channel holds the first reply |
| `Session.EveryRunKeepsInv` | crates/maschined/src/session.rs:66-106 | so does every interleaving |
| `Session.ReturnsFirstReply` | crates/maschined/src/session.rs:98-106 | ids are distinct and not zero, and a call returns the first message with its id read after it was registered |
| `Session.PendingIsUnanswered` | crates/maschined/src/session.rs:86-101 | at every point of every run the registered ids are those inserted and not yet answered, and the events are the messages with id 0 in order |
| `Session.ReplyFindsCaller` | crates/maschined/src/session.rs:90-93 | the first reply finds its entry, wakes that caller only, and later replies with the id go nowhere |
| `Session.OthersResolveNothing` | crates/maschined/src/session.rs:86-92 | an event or a reply nobody waits for resolves no call |
| `Session.WokenOnce` | crates/maschined/src/session.rs:90-93 | over any run a call is woken once if its reply has come, and never otherwise |
| `Session.EndLeavesCallsWaiting` | crates/maschined/src/session.rs:68-106 | after the host's output has ended, no call without a reply ever returns, whether waiting, registered, allotted or begun later: it can only fail at its write, be given up, or wait forever with its entry registered |
| `Session.ReturnsIffReplied` | crates/maschined/src/session.rs:68-106 | after the end a call can still return exactly if its reply came before the end |
| `Session.EndOvertakesReply` | crates/maschined/src/session.rs:68-106 | a run from the start reaches a waiting call that can never return |
| `Session.WrapAllotsEventId` | crates/maschined/src/session.rs:98-99 | the counter reaches the event id exactly when all other ids are used up |
| `Session.SessionManager.SessionFor` | crates/maschined/src/session.rs:135-145 | a known bundle gives its session; otherwise a successful spawn becomes its session and a failed one leaves no trace |
| `Session.LoadKeepsInv` | crates/maschined/src/session.rs:135-145 | every locked section keeps each spawned host the one its bundle maps to |
| `Session.OneSessionPerBundle` | crates/maschined/src/session.rs:135-150 | on every interleaving no bundle is spawned for twice, and two callers get the same session exactly if they asked for the same bundle |
| `Watcher.InterestingIsSuffix` | crates/nks-index/src/watch.rs:68-70 | a file counts exactly if its name ends in `.nksf` and has something before it |
| `Watcher.Collect` | crates/nks-index/src/watch.rs:46-48 | appends the interesting paths of one event in order |
| `Watcher.Watch` | crates/nks-index/src/watch.rs:37-62 | the loop computes the state after the whole trace, which the rows below describe |
| `Watcher.NothingLost` | crates/nks-index/src/watch.rs:37-62 | delivered batches followed by the pending paths are exactly the interesting paths of the change events before the disconnect, in order |
| `Watcher.NoEarlyBatch` | crates/nks-index/src/watch.rs:45-59 | pending paths have a deadline, and no batch is delivered sooner than the interval after any earlier change |
| `Watcher.DeadlineExactly` | crates/nks-index/src/watch.rs:49 | a deadline is the instant of the last change plus the interval |
| `Watcher.TimeoutDelivers` | crates/nks-index/src/watch.rs:49-58 | a timeout at least the interval after the last change delivers everything pending as one batch, an earlier one changes nothing |
| `Watcher.WantedSplit` | crates/nks-index/src/watch.rs:46-48 | filtering works path by path and keeps order and repetitions |
| `Watcher.OneFileDelivered` | crates/nks-index/src/watch.rs:44-58 | one event for one file and one timeout: exactly which kinds, names and instants deliver it |
| `Watcher.DeadlineSince` | crates/nks-index/src/watch.rs:44-59 | a deadline is set exactly if some change came since the last delivery, and something is pending exactly if one of those changes had an interesting path |
| `Watcher.EmptyDeadlineStays` | crates/nks-index/src/watch.rs:38-58 | a deadline with nothing pending is cleared by no timeout until the next change |

## Left out

- DriverKit, IOKit, nusb and tokio: only accept, fail, complete and interleave steps are kept; object retain and release, Start and Stop, user-client dispatch and the wake-up signal and tick of the display task are not modelled.
- Scheduler.EveryRunCoherent: a failed write has no recovery to prove, since dirty bits are cleared at encode time; its tiles are tracked until they are next encoded, and both displays' writes reach the device whole and one at a time.
- DisplayRing.EveryRunKeepsInv: submissions are taken one at a time and completions in ring order, as the driver's callers and the bundled pipe give them; the null-buffer and address-failure exits are outside its steps (`UnusableBufferMisaligns` and `AbandonedSlotOverwrites` say why), and a completion's reports are delivered together with it to an attached client.
- Encoder.EncodeRun: the source resizes its output and writes into the new part in place; here header, command, payload and tail are written into buffers of their own and appended.
- Tiles.DirtyTracker.MarkTile: words are bounded integers with the bitwise operators defined digit by digit; only `HidOutSlots` uses machine bit-vectors.
- The HID IN completion (its requeue and `seqCounter`), the bundled pipe's buffers and lengths, and the done callback's client lookup are not modelled.
- Device.DiffState.EmitPads: with the raw stream on, pads have no press machine; what is stated then is that every sample is sent.
- Device.DiffState.Feed: the event channel is taken as open and sends as never dropped.
- HidOutSlots.OutSlots.Claim: one thread alone, with a given number of spurious failures; the interleaved allocator is the step machine.
- Riff.ReadMetadata: MessagePack decoding is an arbitrary partial function of the payload; i/o errors other than the end of the file, and memory limits on declared lengths, are not modelled.
- Riff.File.ReadExact: where a failed read leaves the cursor is unspecified in the source's library and never used afterwards.
- Envelope.Pipe.ReadMessage: characters stand for bytes; UTF-8 is not interpreted.
- Envelope.StringBack: only the string reader is modelled; integer and float fields, and the host's dispatch loop, are not.
- Envelope.DecodeEscaped: the decoder it is stated against reads no surrogate pairs, which the escaping never writes.
- Envelope.PathBack: the path is escaped as the host's own `json_escape` does; the daemon's serialiser writes backspace and form feed differently, and those are control characters the condition excludes anyway.
- Session.EveryRunKeepsInv: the event channel is taken as drained; in the source it holds 128 events, and when nobody takes them the reader, and with it every call, stalls on the next one. Fewer than 2^64 calls; message bodies, lines that are not JSON (skipped by the reader) and serialisation failures (which end a call like a failed write) are not modelled.
- Watcher.NoEarlyBatch: assumes a clock that does not run backwards; the channel wait itself is a timeout step at any time.
- Display write errors, the 20 ms pause after one, LED report encoders, browse rendering, the bitmap font, SQLite scanning and queries, OSC sockets, plugin scanning, hex plugin keys, JUCE audio, build and signing scripts: they would add only easy members or live in libraries.
