# Verified models of the PUAE libretro core

PUAE is an Amiga emulator packaged as a libretro core. Most of its front-end
code is plumbing, but some parts carry real invariants. This project models
those parts in Dafny and proves what they promise over every input, every run
of operations, or every frame:

| file | what it models |
|---|---|
| `Basics.dfy` | optional values, bytes, and facts about products, quotients and slices that several modules share |
| `MidiProtocol.dfy` | the MIDI output parser as a state machine over bytes, an encoder of MIDI 1.0 streams, and the laws that relate them |
| `MidiOutput.dfy` | the parser in place, with its two alternating system-exclusive buffers |
| `MidiInput.dfy` | the MIDI input queue and its driver callback |
| `ChdToc.dfy` | the start addresses of the tracks of a compressed CD, and the translations between physical, logical and image frames |
| `HunkRange.dfy` | how a byte range splits into hunks |
| `SectorLayout.dfy` | the fields of a CD-ROM sector, what each track type stores of it, and what each request means |
| `CdromFile.dfy` | the track table, the two lookups, and reads through a cache of one hunk |
| `HardfileGeometry.dfy` | the geometry search for a new hard-disk image |
| `PixelBlend.dfy` | word-parallel blending of packed pixels |
| `BoxDrawing.dfy` | filled boxes, and outlines that a mask keeps from blending a pixel twice |
| `DiskList.dfy` | the list of disk images as a value: operations, runs, playlists, the save disk |
| `DiskMemory.dfy` | the list in memory: twenty slots, the heap blocks they own, and every operation as a step |
| `StaleSlots.dfy` | what removals leave in the slots behind the list, and when it dangles |
| `DiskControl.dfy` | the memory in three arrays updated in place, the tray and the drives |
| `VirtualKeyboard.dfy` | press, hold, stick and release of virtual keys over frames |
| `CursorSearch.dfy` | the cursor's search for the next key on the page |
| `NameOrder.dfy` | the comparator that sorts a generated playlist |

Code that works in place is modelled in place: a class whose fields are the
program's own variables, each method proved against a function on the abstract
state. The laws are lemmas about those functions, so they hold of the methods.

Sends to the MIDI device are appends to a log. Decoding of a hunk, the
existence of a file, the type of a file name, the path of a save disk, the
resolved path of a playlist line, and the clock are parameters.

`dafny verify dfyconfig.toml` verifies everything.

## What the proofs found

Where the code does less than its documentation, a standard or a reader would
expect, it is modelled as it is and the exact condition is proved:

- A real-time byte outside an exclusive message overwrites the running status,
  which the MIDI 1.0 Detailed Specification (section "Running Status") says it
  must not. It is harmless exactly if the stream ends there or a status byte
  comes next (`RealTimeTransparentIff`, example `ClockBreaksRunningStatus`).
- An exclusive message of more than 32763 payload bytes is sent without its
  tail and without its EOX (`DeliveredWhole`).
- Data bytes that belong to no message are ignored only after an exclusive
  message. Where no data bytes are due, each is otherwise sent as a message of
  its own, at the start of a session with status 0 (`StraysDroppedIff`, example
  `StraySentAtStart`).
- Tune Request and Reset are queued with data bytes they do not have. Routed
  on, they are played more than once, or Reset adds a byte to an open exclusive
  message (`PacketLength`, `RoutedOnce`).
- A pregap that is not in the image reads as blank only for the first track
  (`MissingPregapBlankIff`, example `MissingPregapMisread`).
- A pregap that is in the image reads the wrong frames for a later track unless
  the postgap before it is as long as the padding (`StoredPregapRightIff`,
  example `StoredPregapMisread`).
- A fresh cache names hunk 0 but holds zeros. The first sector read is right
  exactly if it is in another hunk or is zero anyway (`FirstRead`,
  `OpenAndRead`, example `OnesReadAsZeros`); in general, exactly if the cache was
  coherent, named another hunk, or happened to hold the bytes
  (`ReadPartialSector`).
- Nothing checks that a hunk fits the cache of 16 frames. Reads never leave the
  cache exactly if it does (`NeverOverrunsIff`, example
  `SeventeenFramesOverrun`); a longer hunk overruns it when it is decoded, or
  when a part behind the cache is asked of the hunk it names. A range that covers
  a whole hunk which is not cached is decoded over the reader's own pointer;
  `ReadBytes` says exactly which reads end so, and no sector read covers a hunk.
- Reading a cooked Mode 2 Form 1 track as Mode 1 runs past the data that the
  track stores for a sector (`SliceIsAnswerIff`, example `FormOneOverreads`).
- The geometry stays below 65536 cylinders exactly for fewer than
  65536 * 255 * 255 blocks (`Fits` in the contract of `ChooseGeometry`).
- An opaque outline covers other pixels than a blended one unless both line
  widths are zero, or one of them is 1 and the other is not zero
  (`OpaqueIsFrameIff`, example `OpaqueMissesCorner`).
- A top byte in a 32-bit background pixel spills into red unless it is even, for
  the half blend, or a multiple of four, for the two others
  (`TopByteHarmlessIff`, example `EvenTopByteSpills`).
- Appending an entry for the frontend to fill in lets a full list ask for a slot
  behind the arrays. A run stays inside the arrays exactly if none is appended
  to a full list (`StaysInArraysIff`, example `AppendOverruns`).
- An entry appended and not yet filled in has a null name. An addition compares
  it exactly if no entry before it has the file (`AddMeetsNullIff`, example
  `AppendThenAdd`). Filling in an entry before the last one compares its own
  cleared name exactly if the file is not listed before it (`MiddleFillIff`). A
  frontend that fills in at once what it appends, and nothing but the last
  entry, meets neither (`DisciplinedSafe`).
- A toggle to the save disk compares a null label exactly if some entry still
  listed was added without a label, or appended and not filled in
  (`NoNullLabelIff`, example `UnlabelledLine`).
- Closing the tray shows the label of the selected image, and so does selecting
  a floppy or CD. The label compared is null exactly if the entry was added
  without one (`ShowsNullIff`, contracts of `SetEjectState` and `SetImageIndex`,
  example `CloseOnUnlabelled`).
- Removing an entry before the last leaves a second pointer to the last one
  behind the list, and does not change the selection. A slot behind the list
  dangles exactly if that has happened when the list was just longer than the
  slot, the list has not been as long since, and the entry then last is no longer
  listed (`DanglesIff`, example `RemovalsDangle`). A selection there makes the
  tray read a freed string (`CloseOnFreed`); one in the list never does
  (`SelectedInList`).
- A keyboard that has not yet seen its button up since the program started makes
  every press stick at once, however short (`PressAndRelease`, example
  `FirstPressSticks`).
- The playlist comparator contradicts itself when a space meets a '/'
  (`AntisymmetricIff`, example `SpaceAgainstSlash`). A name with "(Program" is
  put first consistently exactly against a name without it that the order puts
  behind, or that clashes with it (`ProgramConsistentIff`, example
  `ProgramBeforeItself`).

The cursor search ends exactly if its orbit has a key (`Search`, `NoKeyEver`).
The program's own table has a key in every place, so its search always ends;
the law is about any other table.

## Model

| member | source | states |
|---|---|---|
| MidiProtocol.RoundTrip | retrodep/midi.c:319-429 | For every well-formed stream of channel, common, real-time and exclusive messages, with running status used wherever it is allowed, the parser from its initial state delivers exactly the messages encoded, in order, each with its own status and data bytes. |
| MidiProtocol.DecodeFrom | retrodep/midi.c:350-429 | The same from any parser state that agrees with the context, whatever data bytes are left over; an open exclusive message comes out first. |
| MidiProtocol.DecodeItem | retrodep/midi.c:359-429 | One element of a stream delivers its meaning and leaves the parser in the context that the element establishes. |
| MidiProtocol.DecodeSysEx | retrodep/midi.c:378-413 | An exclusive message with real-time bytes anywhere in its body is delivered as one long message F0, payload, F7 (clipped to the buffer), by EOX or by the next status byte, and each real-time byte is delivered during the body. |
| MidiProtocol.StepStatus | retrodep/midi.c:378-408 | A non-real-time status byte other than EOX releases an open exclusive message and then starts its own message. |
| MidiProtocol.LengthOfKind | retrodep/midi.c:319-328 | The table of lengths gives every kind of message its number of data bytes. |
| MidiProtocol.DroppedAfterEox | retrodep/midi.c:391-395 | After an exclusive message has ended, data bytes are dropped until a status byte. |
| MidiProtocol.StraysDroppedIff | retrodep/midi.c:416-428 | Where no data bytes are due, data bytes are dropped if and only if the last status was the end of an exclusive message. |
| MidiProtocol.StraySentAtStart | retrodep/midi.c:416-428 | A concrete data byte that is sent with status 0. |
| MidiProtocol.CaptureBody | retrodep/midi.c:396-415 | While an exclusive message is open, payload bytes go to the buffer in order and real-time bytes are sent at once, and the message stays open. |
| MidiProtocol.DeliveredWhole | retrodep/midi.c:380-383 | A message arrives whole exactly if its payload is at most BUFFLEN - 3 bytes; a longer one arrives as F0 and the first BUFFLEN - 2 payload bytes, without EOX. |
| MidiProtocol.RealTimeTransparentIff | retrodep/midi.c:396-399 | A real-time byte among channel messages leaves the rest of the stream decoding as without it if and only if the rest is empty or starts with a status byte. |
| MidiProtocol.ClockBreaksRunningStatus | retrodep/midi.c:396-399 | A concrete stream on which a clock byte loses a note sent under running status. |
| MidiOutput.MidiOut.constructor | retrodep/midi.c:134-156 | Opening allocates two distinct buffers and starts with nothing sent and nothing handed out. |
| MidiOutput.MidiOut.Capture | retrodep/midi.c:409-414 | A captured byte is appended below the last cell of the selected buffer; the other buffer is not written. |
| MidiOutput.MidiOut.FlushLong | retrodep/midi.c:378-393 | Ending an exclusive message sends the captured bytes with EOX, hands out the selected buffer, selects the other one with its header unprepared, and does not write that other buffer. |
| MidiOutput.MidiOut.BeginStatus | retrodep/midi.c:396-408 | A status byte takes effect as the state machine says; a start byte goes only to the selected buffer. |
| MidiOutput.MidiOut.Parse | retrodep/midi.c:350-429 | One byte moves the fields and the log exactly as the state machine does and keeps the buffer discipline: index in range, selected header unprepared, the buffer last handed out unwritten until the next one is handed out. |
| MidiOutput.MidiOut.PutBytes | retrodep/midi.c:436-444 | Any run of bytes keeps the discipline and appends exactly the events of the state machine. |
| MidiInput.PacketLength | retrodep/midi.c:565-624 | A short message is queued with as many bytes as MIDI 1.0 gives its status, except exactly for Tune Request, with two more, and Reset, with one more. |
| MidiInput.PacketIsWord | retrodep/midi.c:458-493 | Every queued byte is the byte of the packed word in its place, lowest first. |
| MidiInput.PacketDroppedIff | retrodep/midi.c:565-624 | Nothing is queued exactly for data bytes, the exclusive and undefined statuses, and Active Sensing. |
| MidiInput.RoutedOnce | retrodep/midi.c:436-444 | A queued short message routed to the output parser is delivered as the status and the data bytes of the packed word, behind any exclusive message it ends; a real-time one leaves an exclusive message open. Tune Request and Reset are delivered once for each queued byte, except that the second byte of Reset is captured by an open message. |
| MidiInput.FaithfulQueue | retrodep/midi.c:455-532 | Over every interleaving of arrivals and reads, bytes read followed by bytes pending are the bytes pending at first followed by the bytes accepted, in order; the indices stay ordered and inside the buffer. |
| MidiInput.FittingLosesNothing | retrodep/midi.c:455-628 | Traffic that fits behind the pending bytes is accepted in full, however reads are interleaved. |
| MidiInput.ShortRefusedIff | retrodep/midi.c:458-493 | A short message is stored whole or dropped whole, and dropped exactly if at most ten of the 32766 cells are left. |
| MidiInput.LongRefusedIff | retrodep/midi.c:541-560 | A long message is stored whole or dropped whole, and dropped exactly on closing, from a full driver buffer, or if it would leave at most six cells. |
| MidiInput.DrainedAccepts | retrodep/midi.c:526-529 | Once reads have drained the queue, it takes every short message, and refuses a long one only for reasons that an empty queue has. |
| MidiInput.MidiIn.AddBytes | retrodep/midi.c:458-493 | A short message is stored whole or dropped whole. |
| MidiInput.MidiIn.MidiInProc | retrodep/midi.c:534-628 | The callback changes the queue exactly as the arrival law says, for short and long data, and flags overflow exactly for a refused long message while not closing. |
| MidiInput.MidiIn.GetMidiByte | retrodep/midi.c:502-532 | A read returns the oldest pending byte or -1, removes it, and resets both indices once the queue is drained. |
| ChdToc.PaddingIsLeast | libretro/libretro-glue.c:3376-3377 | The padding is the least number of frames that fills whole groups of four. |
| ChdToc.ChdAligned | libretro/libretro-glue.c:2734-2792 | Every track starts at a multiple of four image frames. |
| ChdToc.Monotone | libretro/libretro-glue.c:2734-2792 | All start addresses rise along the table, and image distances are at least physical distances. |
| ChdToc.PhysTrackUnique | libretro/libretro-glue.c:2636-2651 | The physical lookup finds a track if and only if the track contains the address, so that track is unique. |
| ChdToc.PhysicalInTrack | libretro/libretro-glue.c:2636-2651 | Every physical frame below the disc total lands inside its own track's frames at the same offset, never on padding. |
| ChdToc.PhysicalIncreasing | libretro/libretro-glue.c:2636-2651 | Physical translation is strictly increasing. |
| ChdToc.PhysicalCovers | libretro/libretro-glue.c:2636-2651 | Every image frame of a track that is not padding is the translation of a physical frame. |
| ChdToc.BeyondPhysical | libretro/libretro-glue.c:2650 | Beyond the disc a physical address stands for the frame of its own number. |
| ChdToc.LogTrackUnique | libretro/libretro-glue.c:2658-2677 | The logical lookup finds a track if and only if the address is not before the track (unless it is the first) and before the next one. |
| ChdToc.BeyondLogical | libretro/libretro-glue.c:2676 | Beyond the disc a logical address stands for the frame of its own number, corrected as if it were the first track's. |
| ChdToc.ReadsAgree | libretro/libretro-glue.c:2903-2924 | For every sector in a track's data region, the logical lookup with its pregap correction fetches the same frame as the physical lookup at the track's start plus stored pregap plus offset. |
| ChdToc.DataSectorsDistinct | libretro/libretro-glue.c:2658-2677 | Data regions of different tracks are disjoint, and distinct data sectors never share a frame. |
| ChdToc.BlankOnlyInFirstPregap | libretro/libretro-glue.c:2903-2911 | A logical read is blank if and only if it is in the first track's pregap and that pregap is not in the image. |
| ChdToc.MissingPregapBlankIff | libretro/libretro-glue.c:2903-2911 | A sector of a pregap that is not in the image reads as blank if and only if its track is the first. |
| ChdToc.MissingPregapMisread | libretro/libretro-glue.c:2903-2911 | A concrete two-track disc whose second, missing pregap reads a padding frame of the first track. |
| ChdToc.StoredPregapRightIff | libretro/libretro-glue.c:2916-2921 | A sector of a pregap that is in the image reads its own frame if and only if its track is the first or the postgap before equals the padding before. |
| ChdToc.FirstStoredPregap | libretro/libretro-glue.c:2658-2677 | Below the first track's start the 32-bit subtraction wraps and the pregap correction wraps it back. |
| ChdToc.StoredPregapMisread | libretro/libretro-glue.c:2916-2921 | A concrete two-track disc whose second pregap is read two frames early. |
| HunkRange.PiecesTile | libretro/libretro-glue.c:2842-2850 | For any offset and positive length, the pieces of the hunks are not empty, stay in the range, and each starts where the one before ended. |
| HunkRange.PiecesAreRange | libretro/libretro-glue.c:2838-2876 | Put together in hunk order the pieces are exactly the requested range. |
| HunkRange.WholeIff | libretro/libretro-glue.c:2852-2855 | The full-hunk condition holds if and only if the range covers the hunk completely. |
| HunkRange.SectorInOneHunk | libretro/libretro-glue.c:2924 | A read of part of a frame stays in one hunk and never covers a hunk, so it never takes the full-hunk branch. |
| CdromFile.SliceIsAnswerIff | libretro/libretro-glue.c:2983-3041 | Exactly the requests that a track can answer are supported, and the bytes taken are exactly the fields meant, inside what the track stores, except for Mode 1 data from a cooked Mode 2 Form 1 track. |
| SectorLayout.Places | libretro/libretro-glue.c:2985-3035 | The places of the answers in numbers, from the lengths of the fields. |
| CdromFile.FormOneOverreads | libretro/libretro-glue.c:3014-3018 | A concrete track whose request reads 24 bytes past its stored data. |
| CdromFile.FillTable | libretro/libretro-glue.c:2734-2792 | The loop fills every entry, and the closing one, with the prefix sums that the address laws are about. |
| CdromFile.PhysicalToChdLba | libretro/libretro-glue.c:2636-2651 | The scan computes the physical translation and the track number, which it keeps for addresses beyond the disc. |
| CdromFile.LogicalToChdLba | libretro/libretro-glue.c:2658-2677 | The scan computes the logical translation with 32-bit wrap-around through the physical address. |
| CdromFile.LogEntry | libretro/libretro-glue.c:2668-2670 | A table entry, by way of the physical address and wrapped or not, computes the logical translation of every address in its track. |
| CdromFile.Cdrom.constructor | libretro/libretro-glue.c:2706-2821 | An opened image, whatever its hunk size, has a table of correct sums and a cache of zeros that names hunk 0. |
| CdromFile.Cdrom.Load | libretro/libretro-glue.c:2860-2866 | A hunk that is not the cached one is loaded exactly if it can be decoded and fits; the cache is then coherent with the hunk it names. Otherwise the call fails, or overruns, and the cache is as it was. |
| CdromFile.Cdrom.ReadBytes | libretro/libretro-glue.c:2838-2876 | For every range: the read succeeds exactly if every piece is served in its turn (from the cached first hunk, or by decoding a hunk that fits and is not covered whole), and fails exactly at the first hunk reached that cannot be decoded. From a coherent cache it succeeds exactly if every hunk of the range can be decoded and no uncached one is covered whole; a read that succeeds from a coherent cache, or starts in another hunk than the cached one, is exactly that slice of the image and leaves the cache coherent. |
| CdromFile.Image.OneHunk | libretro/libretro-glue.c:2924 | A read of part of a frame is one piece of one hunk, and the full-hunk branch never decides how it ends. |
| CdromFile.NeverOverrunsIff | libretro/libretro-glue.c:2820-2866 | Reads through the cache never leave it if and only if a hunk has at most sixteen frames. |
| CdromFile.Cdrom.ReadPartialSector | libretro/libretro-glue.c:2898-2950 | Part of a sector is blank or comes from exactly the corrected frame; from a coherent cache it is read exactly if the frame's hunk can be decoded, and otherwise as hunk size and cache allow. If its hunk decodes, it is right if and only if the cache was coherent, named another hunk, or held the bytes already; coherence is kept, and bytes behind the request are untouched. |
| CdromFile.Cdrom.ReadData | libretro/libretro-glue.c:2965-3041 | A request the track cannot answer fails and touches nothing. From a coherent cache every other request succeeds exactly if the hunk of the frame that the address laws name can be decoded, and delivers exactly the fields of that frame that the request means (but for cooked Mode 2 Form 1). |
| CdromFile.Cdrom.FirstRead | libretro/libretro-glue.c:2820-2876 | Through a cache of zeros that names hunk 0: the read succeeds in hunk 0 within the cache, and elsewhere exactly if the hunk decodes and fits; a sector of hunk 0 reads as zeros; a sector whose hunk decodes is read right if and only if it is in another hunk or is zero. |
| CdromFile.OpenAndRead | libretro/libretro-glue.c:2820-2876 | The same for an image just opened. |
| CdromFile.OnesReadAsZeros | libretro/libretro-glue.c:2820-2821 | A concrete image of ones whose first sector is misread. |
| CdromFile.SeventeenFramesOverrun | libretro/libretro-glue.c:2820-2866 | Images of 17 frames a hunk whose second hunk overruns the cache. |
| HardfileGeometry.ChooseGeometry | libretro/libretro-glue.c:2525-2547 | For every number of blocks: fewer than 32 give no geometry, and otherwise cylinders stay below 65536 exactly if there are fewer than 65536 * 255 * 255 blocks, surfaces are the fewest that work, sectors rise above 32 only at 255 surfaces and then least, less than one cylinder is lost, and if either loop ran less than 1/32768. |
| HardfileGeometry.MakeHdf | libretro/libretro-glue.c:2499-2547 | Every unsigned size is rejected as invalid (zero), too small or too large exactly in those ranges, and every other size gets a fitting geometry. |
| HardfileGeometry.OverfullIff | libretro/libretro-glue.c:2536-2544 | The loop condition of the searches holds exactly from a number of blocks on that is proportional to the cylinder size. |
| HardfileGeometry.LimitOverflows | libretro/libretro-glue.c:2536-2544 | At the limit the only fitting geometry has 65536 cylinders. |
| PixelBlend.Blend565IsMix | libretro/libretro-graph.c:28-43 | For all 16-bit pixels and every alpha, blending the words is blending each channel by the weighted mean rounded up, with no carry between channels. |
| PixelBlend.Blend888IsMix | libretro/libretro-graph.c:45-60 | The same for all 32-bit pixels with a zero top byte. |
| PixelBlend.TopByteHarmlessIff | libretro/libretro-graph.c:45-60 | For each partial alpha and any background word, blending is channel-wise if and only if the top byte is even (half) or a multiple of four (quarter and three quarters). |
| PixelBlend.EvenTopByteSpills | libretro/libretro-graph.c:45-60 | A concrete background with an even top byte that the half blend tolerates and the two others do not. |
| BoxDrawing.FillBox | libretro/libretro-graph.c:72-188 | A fill changes exactly the pixels of its rectangle, each channel to the weighted mean, rounded up, of the colour and its old value; every other pixel stays. |
| BoxDrawing.InkMixes | libretro/libretro-graph.c:28-60 | The pixel drawn is, channel by channel, the weighted mean of colour and background; the top byte of a 32-bit colour does not count. |
| BoxDrawing.DrawBox | libretro/libretro-graph.c:199-380 | An outline changes exactly the unmasked pixels it covers, each channel to the weighted mean of the colour and its old value, and masks exactly those it covers; blended, it covers its outer rectangle minus its inner one. |
| BoxDrawing.BlendedOnce | libretro/libretro-graph.c:199-337 | Over any sequence of outlines every covered pixel is blended exactly once, each channel the weighted mean of its original value and the colour of the first outline that covers it; masked and uncovered pixels never change. |
| BoxDrawing.OpaqueIsFrameIff | libretro/libretro-graph.c:339-378 | An opaque outline covers the same pixels as a blended one if and only if both widths are 0 or one is 1 and the other at least 1. |
| BoxDrawing.OpaqueMissesCorner | libretro/libretro-graph.c:339-378 | A concrete outline with two-pixel lines whose opaque form misses a corner pixel. |
| BoxDrawing.ClearMask | libretro/libretro-vkbd.c:405 | Clearing unmasks every pixel. |
| DiskList.RunsKeepOrder | libretro/libretro-dc.c:61-187 | After every run of additions, removals, resets, appends and fillings that compares no null pointer and stays in the arrays: at most 20 entries, distinct files, each with its own type, in the order in which they were made. |
| DiskList.DisciplinedSafe | libretro/libretro-core.c:4965-4994 | A frontend that appends only where there is room, fills in at once what it appends, and fills in nothing but the last entry (in particular one that never appends) never compares a null pointer and stays in the arrays. |
| DiskList.StaysInArraysIff | libretro/libretro-core.c:4979-4994 | Over every run, the length stays at most 20 if and only if no append is applied at length 20. |
| DiskList.AppendOverruns | libretro/libretro-core.c:4979-4994 | A concrete run of 20 additions and one append asks for a slot behind the arrays. |
| DiskList.AddMeetsNullIff | libretro/libretro-dc.c:142-159 | After every safe run, an addition compares no null pointer if and only if the file is listed before every entry that was appended and not filled in. |
| DiskList.AppendThenAdd | libretro/libretro-dc.c:142-159 | A concrete run in which an addition compares a null pointer. |
| DiskList.MiddleFillIff | libretro/libretro-dc.c:373-393 | Filling in an entry before the last one compares no null pointer if and only if the file is listed before it. |
| DiskList.NoNullLabelIff | libretro/libretro-dc.c:558-580 | After every safe run, a toggle compares no null label if and only if every entry still listed was added with a label or filled in. |
| DiskList.UnlabelledLine | libretro/libretro-dc.c:558-580 | A concrete playlist line that leads a toggle to a null label. |
| DiskList.ShowsNullIff | libretro/libretro-core.c:4853-4854 | After every safe run, an entry with a file has a null label to show if and only if it was added without one, and selecting it compares that label if and only if its file is moreover a floppy or CD. |
| DiskList.AdditionsGiveFirst | libretro/libretro-dc.c:119-159 | Additions alone leave the first twenty different files in order of first occurrence. |
| DiskList.PlaylistGivesFirst | libretro/libretro-dc.c:732-829 | Reading a playlist is a reset followed by ordinary additions, whatever was listed before, and leaves the first twenty different files it asks for. |
| DiskList.PlaylistByLines | libretro/libretro-dc.c:732-829 | Every entry of the parsed list is the file, label and type that one line asks for, the first line to ask for that file, with save disks numbered by those found before; the entries are in the order of those lines; and every file asked for is listed unless the list is full. |
| DiskList.DecimalValue | libretro/libretro-dc.c:546-549 | The number in a save disk's label is the decimal of its number. |
| DiskList.FilterStep | libretro/libretro-core.c:5851-5857 | Removing at the scanned place leaves everything that is still to be scanned where it was. |
| DiskList.KeptIff | libretro/libretro-core.c:5851-5857 | Exactly the entries that are not to be dropped are kept. |
| DiskList.KeepAppend | libretro/libretro-core.c:5851-5857 | The filter of a concatenation is the concatenation of the filters, so order is kept. |
| DiskList.SaveIndexFinds | libretro/libretro-dc.c:577-580 | If the save disk is listed, the scan finds the last entry with its label. |
| DiskList.SaveIndexNone | libretro/libretro-dc.c:567-580 | Without a save disk the scan stays on the first entry. |
| DiskList.AvailableIff | libretro/libretro-dc.c:543-553 | Adding the save disk leaves it listed if and only if it was listed, or its file was not and there was room. |
| DiskList.ToggleTwice | libretro/libretro-dc.c:558-607 | With the save disk available and another disk selected, a toggle selects the save disk and the next one restores the earlier index without changing the list again. |
| DiskMemory.OwnedOnce | libretro/libretro-dc.c:169-174 | The two strings of an entry are live when they are freed one after the other, and exactly they are gone afterwards. |
| DiskMemory.NullOwnsNothing | libretro/libretro-dc.c:74-87 | Once every slot in use is cleared no string is live: nothing leaks. |
| DiskMemory.StepEntries | libretro/libretro-dc.c:61-187 | Every operation on the slots is the operation on the list, with three shifts and all. |
| DiskMemory.StepValid | libretro/libretro-dc.c:61-187 | Every operation keeps each block owned by exactly one pointer of the list, hands out only new blocks, and leaves behind the list only copies of entries or dead pointers. |
| DiskMemory.TitleLive | libretro/libretro-core.c:4836-4854 | The label of a selected file is live, in the list or behind it. |
| StaleSlots.MemIsRun | libretro/libretro-dc.c:61-187 | Over every safe run the memory is valid and holds the list of the run. |
| StaleSlots.DanglesIff | libretro/libretro-dc.c:176-184 | After every safe run, a slot behind the list dangles if and only if an entry before the last was taken out when the list was just longer than the slot, the list has not been as long since, and the entry then last is no longer listed. |
| StaleSlots.RemovalsDangle | libretro/libretro-dc.c:176-184 | A concrete run of three additions and two removals after which the third slot dangles. |
| DiskControl.DiskStorage.constructor | libretro/libretro-dc.c:95-117 | A new list is empty and owns nothing. |
| DiskControl.DiskStorage.Free | libretro/libretro-dc.c:169-174 | Demands that a block is live, so that no string can be freed twice in any run. |
| DiskControl.DiskStorage.Clear | libretro/libretro-dc.c:74-89 | Clearing leaves an empty list and no live string; slots behind the list are not touched. |
| DiskControl.DiskStorage.AddFileInt | libretro/libretro-dc.c:119-140 | Appends a file with its label and type if there is room, and keeps the arrays aligned and every string owned once. |
| DiskControl.DiskStorage.AddFile | libretro/libretro-dc.c:142-159 | Adds a file unless it is listed, and faults exactly if the scan compares a null name first; succeeds exactly if the name is not empty and the file was listed or there was room. |
| DiskControl.DiskStorage.RemoveFile | libretro/libretro-dc.c:161-187 | Removes exactly the entry at an index in range, frees exactly its strings, shifts all three arrays, and leaves the slots behind the list as the memory step says: the old last entry's pointers stay there unless it was the one removed. |
| DiskControl.DiskStorage.AddImageIndex | libretro/libretro-core.c:4979-4994 | Appends one blank entry, and faults exactly on a full list, which the guard admits. |
| DiskControl.DiskStorage.Replace | libretro/libretro-dc.c:189-397 | Clears any entry, then fills it in, or drops it if its file is listed already; faults exactly if the scan compares a null name, its own included. |
| DiskControl.DiskStorage.ParseLines | libretro/libretro-dc.c:753-821 | The reading loop performs exactly the additions that the lines ask for, with save disks numbered as they are found or made. |
| DiskControl.DiskStorage.RemoveHardDrives | libretro/libretro-core.c:5851-5857 | The downward loop leaves exactly the entries whose file is neither hard drive nor WHDLoad, in their order. |
| DiskControl.DiskStorage.FindSaveDisk | libretro/libretro-dc.c:577-580 | The scan computes the save disk's index, or meets a null label exactly if some entry has none. |
| DiskControl.DiskStorage.AddSave | libretro/libretro-dc.c:443-556 | Adds the save disk as the toggle law says, and faults exactly if the addition compares a null name. |
| DiskMemory.SelectedInList | libretro/libretro-core.c:4836-4841 | An index in the list selects its entry's own file, label and type, whose strings are live. |
| DiskControl.DiskTray.Reset | libretro/libretro-dc.c:61-94 | Empties the list, frees all its strings, opens the tray, and selects the first slot, which is empty. |
| DiskControl.DiskTray.ParseM3u | libretro/libretro-dc.c:732-829 | A playlist replaces the list by what its lines ask for, on an open tray. |
| DiskControl.DiskTray.ReplaceFile | libretro/libretro-dc.c:189-397 | Replacing an entry fills or drops it, or faults, as the list does, and empties all floppy drives; an index out of range changes nothing. |
| DiskControl.DiskTray.SetImageIndex | libretro/libretro-core.c:4919-4955 | Selects an entry that has a file, or the first one after the list was replaced, and faults exactly if that entry is a floppy or CD without a label; otherwise the selection stays. |
| DiskControl.DiskTray.SetEjectState | libretro/libretro-core.c:4831-4901 | For every index: closing the tray puts the selected image into its drive and takes it out of the other floppy drives; opening empties the drive; hard drives, an empty slot (so an empty list) and an unchanged tray leave the drives alone. It faults exactly outside the arrays, on a freed string, or when it closes on an image with a valid path and a null label; an index in the list selects its entry. |
| DiskControl.DiskTray.SaveDiskToggle | libretro/libretro-dc.c:558-607 | Without content nothing changes. Otherwise a toggle adds the save disk if need be, switches the indices as the toggle law says, and leaves the tray closed with the selected floppy in the first drive; it faults exactly if it compares a null name or label or selects a slot that breaks the tray, which an index in the list never does. |
| DiskControl.ToggleBack | libretro/libretro-dc.c:558-607 | On the arrays and the tray: two toggles from another disk of a labelled list restore the index, with the list changed once, the tray closed and the earlier floppy in the first drive; in between the save disk is selected. |
| DiskControl.InsertAndEject | libretro/libretro-core.c:4831-4901 | Closing the tray on a labelled image that exists puts a floppy or archive into the first drive, or a CD into its own, and opening it takes it out again; the other kind of drive is left alone. |
| DiskControl.CloseOnFreed | libretro/libretro-core.c:4831-4901 | A concrete run that closes the tray on a freed string. |
| DiskControl.CloseOnUnlabelled | libretro/libretro-core.c:4853-4854 | A concrete playlist on which closing the tray compares a null label. |
| VirtualKeyboard.NoStuckKeys | libretro/libretro-vkbd.c:750-807 | Over every run of frames the keys held down are exactly the sticky keys plus the last key pressed and not yet let go. |
| VirtualKeyboard.NoStuckKeysEver | libretro/libretro-vkbd.c:750-807 | The same for every run from the start. |
| VirtualKeyboard.BoardsKeep | libretro/libretro-vkbd.c:1071-1111 | Over every run of toggles and frames no key is stuck, and the button counts as up while the keyboard is hidden or waits. |
| VirtualKeyboard.HiddenHoldsSticky | libretro/libretro-vkbd.c:1071-1111 | One frame after any run from the start, a keyboard that is hidden or waits holds only sticky keys. |
| VirtualKeyboard.PressHolds | libretro/libretro-vkbd.c:1259-1357 | With the button up, pressing it over an ordinary key holds exactly the sticky keys and that key. |
| VirtualKeyboard.StaysDown | libretro/libretro-vkbd.c:1259-1445 | The key stays down in every further frame in which the button is down. |
| VirtualKeyboard.PressAndRelease | libretro/libretro-vkbd.c:750-807 | After the release the key is still down if and only if some frame saw it held for more than 1000 ms (or the button was never seen up before); it is then sticky, in the first slot if that is free and otherwise in the second, and otherwise up and not sticky; only sticky keys are down. |
| VirtualKeyboard.SeenUpStartsAfresh | libretro/libretro-vkbd.c:1433-1445 | A frame that sees the button up makes the next press start afresh. |
| VirtualKeyboard.FirstPressSticks | libretro/libretro-vkbd.c:50 | A concrete run in which the first press sticks at once. |
| VirtualKeyboard.ToggleShows | libretro/libretro-vkbd.c:1071-1109 | With the button up a toggle shows a hidden keyboard, and three frames later, the last of them idle, it takes the button, with its sticky keys as before. |
| VirtualKeyboard.LetGoMeansUp | libretro/libretro-vkbd.c:766-795 | One frame after the button was seen up, only sticky keys are down. |
| VirtualKeyboard.ThirdReleasesSecond | libretro/libretro-vkbd.c:752-763 | Sticking a third key releases the second sticky key and no other. |
| VirtualKeyboard.StickyPressedAgainGoesUp | libretro/libretro-vkbd.c:797-806 | Pressing either sticky key again and letting go releases it and keeps the other one. |
| VirtualKeyboard.StickyPhaseKeeps | libretro/libretro-vkbd.c:750-807 | The sticky part of a frame keeps the invariant and leaves no key waiting once the button is up. |
| VirtualKeyboard.ButtonPhaseKeeps | libretro/libretro-vkbd.c:1259-1445 | The press, hold and release part keeps the invariant. |
| VirtualKeyboard.Vkbd.InputVkbdSticky | libretro/libretro-vkbd.c:750-807 | The fields change exactly as the sticky part of a frame says. |
| VirtualKeyboard.Vkbd.InputButton | libretro/libretro-vkbd.c:1259-1445 | The fields change exactly as the button part of a frame says, key presses and releases included. |
| VirtualKeyboard.Vkbd.ToggleVkbd | libretro/libretro-vkbd.c:1071-1088 | Shows or hides the keyboard and makes it wait, unless the button is down. |
| VirtualKeyboard.Vkbd.InputVkbd | libretro/libretro-vkbd.c:1089-1111 | A frame changes keys and readiness as the law of frames says: sticky keys always, the button only while shown and ready. |
| CursorSearch.OrbitIsModular | libretro/libretro-vkbd.c:1514-1538 | Any number of wrapping steps is addition modulo 11 and 8. |
| CursorSearch.OrbitCloses | libretro/libretro-vkbd.c:1514-1538 | In every direction 88 steps lead back to the start. |
| CursorSearch.NextMoves | libretro/libretro-vkbd.c:1520-1537 | A step goes one row up or down and one column left or right around the page, up before down and left before right. |
| CursorSearch.Cursor.KeysRowByRow | libretro/libretro-vkbd.c:1539 | The keys lie row by row, eleven to a row, the second page behind the first. |
| CursorSearch.Cursor.Step | libretro/libretro-vkbd.c:1520-1537 | One step moves one place with wrap-around, up before down and left before right. |
| CursorSearch.Cursor.Search | libretro/libretro-vkbd.c:1514-1539 | If the orbit has a key, the search stops within 88 steps, inside the page, on the nearest key in the direction. |
| CursorSearch.Cursor.FromKey | libretro/libretro-vkbd.c:1514-1539 | A cursor on a key always has a key on its orbit, so the search from a key ends on every page and in every direction. |
| CursorSearch.Cursor.NoKeyEver | libretro/libretro-vkbd.c:1514-1539 | If the orbit has no key, no number of steps finds one. |
| NameOrder.SensibleStrcmp | libretro/libretro-glue.c:1702-1724 | The scan computes the comparison that the order laws are about. |
| NameOrder.ComparesByRank | libretro/libretro-glue.c:1708-1723 | On names without '/' and "(Program", the comparison is lexicographic order with space ranked as '/': zero only for equal names, and antisymmetric. |
| NameOrder.Transitive | libretro/libretro-glue.c:1708-1723 | On those names the order is transitive. |
| NameOrder.FirstLetterDecides | libretro/libretro-glue.c:1711-1723 | On those names the first letters that differ decide, a space counting as 47. |
| NameOrder.PrefixFirst | libretro/libretro-glue.c:1711-1723 | A name sorts before every longer name that starts with it. |
| NameOrder.AntisymmetricIff | libretro/libretro-glue.c:1719-1722 | Without "(Program", swapping the names negates the result if and only if they do not first differ in a space against a '/'. |
| NameOrder.SpaceAgainstSlash | libretro/libretro-glue.c:1719-1722 | Two concrete names that each sort behind the other. |
| NameOrder.ProgramConsistentIff | libretro/libretro-glue.c:1706-1709 | For a name with "(Program", swapping negates the result if and only if the other name has no "(Program" and is behind it in the order, or clashes with it. |
| NameOrder.ProgramBeforeItself | libretro/libretro-glue.c:1706-1709 | A concrete name that sorts before itself. |

## Left out

- DiskControl.DiskTray.ReplaceFile: only the single image path; ZIP files, playlists, configuration files and a missing path are not modelled.
- DiskControl.DiskTray.SaveDiskToggle: the modes that only look for the file or do not select are not modelled; neither is what the program does after a fault.
- DiskControl.DiskStorage.ParseLines: splitting a line into name and label, trimming, resolving paths and making a save disk are parameters; a command line leaves the list alone and its string is not modelled.
- DiskControl.DiskStorage.Free: a heap string is a numbered block; allocation never fails, and contents change only by allocation.
- CdromFile.Cdrom.ReadData: the promotion of Mode 1 data to a raw sector is excluded, being incomplete by the program's own message; so is the byte swap of audio on little-endian discs.
- CdromFile.Cdrom.ReadBytes: what the program does after an overrun is not modelled.
- CdromFile.FillTable: sums are assumed to fit 32 bits, with stored pregaps inside their tracks and fewer tracks than the table's 99 entries, the last of which closes it.
- MidiInput.RoutedOnce: for packed words whose data bytes are below 0x80.
- BoxDrawing.DrawBox: the outline is assumed to lie inside the rows of the buffer and at non-negative coordinates.
- BoxDrawing.FillBox: so is the box.
- VirtualKeyboard.Vkbd.InputButton: the reset key and the key that is CapsLock itself are excluded.
- VirtualKeyboard.NoStuckKeys: caps lock on, the quick mapping on the Y button, the pointer, a physical Return key and the key that resets the machine are not modelled, nor what keys for the mouse and the emulator do.
- Reopening a MIDI session in the middle of an exclusive message, failed allocation of its buffers, the calls and locks of the Windows MIDI driver, and the option that turns routing on.
- The codecs of compressed images, the text of their metadata, subcode reads, and a cache kept across a change of image.
- Parsing the text of a size, writing a hard-disk image, and the 2 GB limit of systems with 32-bit file offsets.
- Text, horizontal and vertical lines, and the layout of the virtual keyboard on the screen.
- The timing of repeated cursor moves, and the virtual keyboard's X, A and Start buttons.
- Option tables, configuration text, Kickstart and WHDLoad files, archives, display cropping and input mapping: long but shallow.
