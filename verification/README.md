# Nileswan models

Dafny models, with proofs, of six parts of the Nileswan cartridge: gateware, microcontroller
firmware, console software and the build script of its updater.

**SPI transfer engine** (`SpiEngine`, `SpiCore`, `SpiHandshake`, `SpiTransfer`, `SpiConsole`).  The gateware's
registers and block RAMs as a state, each edge of TransferClk, nWE and nOE as a step, and runs as
arbitrary interleavings of the three.  The bit-level engine refines a byte-level transfer, which is
stated last from the bytes the console writes to the bits on the line.

**EEPROM mirror** (`EepromChip`, `EepromFpga`, `EepromMcu`, `EepromMirror`, `EepromLine`,
`EepromHazard`, `EepromConsole`).  The console side, the serial link and the microcontroller's copy as one system,
against a reference chip.  The two deviations that the code has are stated exactly.  An erase-all that starts with the
write counter clear reaches only 0x12 words on the FPGA side.  And in the serial clock period in
which ready appears the counter of the two smaller chips may still stand at a multiple of the word
count: an erase or write-all started then never reaches the microcontroller, while a write or an
erase-all does, the erase-all then reaching every word on both sides.  What either copy holds is
stated for every run, lost commands included.

**Firmware update** (`NorFlash`, `UpdateManifest`, `UpdaterSpec`, `UpdateEffect`,
`WriteLock`, `UpdateCompletes`, `DowngradeGuard`, `CrashSafety`, `UpdateRerun`, `Updater` for the
console program;
`RomStore`, `RomRules`, `RomMeaning`, `RomImage`, `RomBuilder` for the build script;
`RomRoundTrip` and `RomPlacement` for both together, the latter in plain addresses).
Flash is bytes; a sector erase gives 0xFF, a page program is a bitwise AND, a read-back compares.
Either chip may stop answering at any operation, and power may fail inside one.

Four facts about this code are easily missed and are proved.  The check against
downgrades compares the update with the manifest started last and protects no other; the shipped
full update starts the factory manifest last.  The lower 256 KiB, which the boot program locks, are
opened only if the manifest started last lies there, and a list that addresses them otherwise halts
unless all of it is in place.  The command for a packed part of the microcontroller does not unpack:
stored bytes are checked and sent.  And only one part can be sent to the microcontroller, which is
restarted out of its boot loader after it.

Checksum and
decompression are functions shared by builder and updater; the codec's promise is that unpacking
a packed file gives the file, whatever follows it in memory.

**Native command link** (`NativeProtocol`, `NativeRequests`, `NativeSpi`, `NativeResponse`).  Byte interrupt, DMA
and main-loop task as handlers that may be called in any order the hardware allows while bytes
keep arriving in a bounded queue, replies that may depend on everything executed before, and the
response read back through the FPGA's wait-and-read mode.

**Clock** (`RtcTime`, `RtcDevice`).  BCD registers, 12/24-hour switching, input correction and
reading back.

**Menu loader** (`MenuLoader`).  Right-aligned loading with 16-bit bank and offset arithmetic.

Code that updates state in place is a class whose methods are proved equal to a specification
function on values (`SpiCore.Core`, `EepromFpga.Eeprom`, `EepromMcu.Firmware`, `Updater.Machine`,
`RomBuilder.Builder`, `NativeSpi.Spi`, `RtcDevice.Rtc`, `MenuLoader.Loader`); the results about
runs are lemmas about those functions.  `Words` holds machine words and bit strings.

Where the code and what it promises disagree, the code is modelled and the exact condition is
proved: `EepromMirror.EraseAllDivergesIff`, `EepromHazard.CommandIsForwardedIff`,
`DowngradeGuard.NewerManifestSurvivesIff`, `DowngradeGuard.NoDowngradeOutsideFactoryIff`,
`WriteLock.ShieldedPartIff`, `UpdateCompletes.PassCompletesIff`, `UpdaterSpec.McuPartIsSentAsStored`
(input: `UpdaterSpec.PackedMcuPartIsNotUnpacked`), `UpdateRerun.RerunInstallsIff`,
`RomStore.PlaceKeepsBlocksIff`, `RomRules.SplitIsDirectIff`, `RomMeaning.PackedEndsWhereAskedIff`,
`RomMeaning.FileSurvivesIff`, `RtcTime.TimeReadsBackCanonicalIff`,
`NativeProtocol.MessageIsSeenIff`, `NativeProtocol.PayloadFitsIff`, `NativeProtocol.ReplyFitsIff`,
`MenuLoader.BankIsRealIff`.

## Model

| member | source | states |
|---|---|---|
| SpiCore.Core.constructor | fpga/rtl/spi.sv:34-60 | Power-up values of the registers that have one; the others and both buffers are arbitrary. |
| SpiCore.Core.PosedgeTransferClk | fpga/rtl/spi.sv:91-166 | All always blocks on this edge, taken together, move the whole state to the specified next state, every register from the values before the edge. |
| SpiCore.Core.ReceiveEdge | fpga/rtl/spi.sv:88-101 | Only at bit 7 of a non-write transfer is a byte stored, at the byte position of the half not shown to the console. |
| SpiCore.Core.SynchroniserEdge | fpga/rtl/spi.sv:117-142 | Start, abort and feedback synchronisers shift by one stage. |
| SpiCore.Core.ShifterEdge | fpga/rtl/spi.sv:123-166 | Running flag, counters, filler flag, shift register and prefetched byte after the edge. |
| SpiCore.Core.PosedgeNWE | fpga/rtl/spi.sv:224-255 | A console write stores its byte in the mapped TX half at the address written, or, when not busy, configures and starts; when busy it can only request an abort (`SpiConsole.ConsoleBytesAreSent` says what comes of the bytes written). |
| SpiCore.Core.NegedgeNOE | fpga/rtl/spi.sv:221-222 | A console read advances the feedback synchroniser and latches two bytes of the mapped RX half. |
| SpiHandshake.PhaseStep | fpga/rtl/spi.sv:117-142 | In every state satisfying the invariant, every edge keeps it and moves the toggles through exactly one eight-phase cycle. |
| SpiHandshake.RunInv | fpga/rtl/spi.sv:117-142 | The handshake invariant holds after any sequence of clock edges, writes and reads. |
| SpiHandshake.PendingIsBusy | fpga/rtl/spi.sv:34-40 | From power-up, under every interleaving, a pending Start, `running` or `last_period_delay` implies Busy. |
| SpiHandshake.OutstandingIsStable | fpga/rtl/spi.sv:224-255 | As long as Busy holds, length, mode, channel, clock choice, buffer index and the TX half being sent never change. |
| SpiHandshake.StartsAreConserved | fpga/rtl/spi.sv:117-142 | Over any run the accepted starts equal the Start pulses, and those the last periods, up to the one still under way. |
| SpiHandshake.AbortProgress | fpga/rtl/spi.sv:120-142 | Once an abort is requested, every clock edge brings the end of the transfer nearer and no other event moves it away. |
| SpiHandshake.AbortRun | fpga/rtl/spi.sv:120-142 | The bound on remaining edges over any run that stays busy after an abort. |
| SpiHandshake.AbortCompletes | fpga/rtl/spi.sv:51-53 | Twelve clock edges and then two reads end an aborted transfer, whatever else happens and whatever bytes arrive, even none but 0xFF. |
| SpiTransfer.LaunchEdge | fpga/rtl/spi.sv:144-161 | The edge with Start high loads the first TX byte and resets the filler state, so the shifting invariant holds. |
| SpiTransfer.MidByteOk | fpga/rtl/spi.sv:158-166 | Between byte boundaries shift register, counters and prefetched byte keep agreeing with the bits on the wires. |
| SpiTransfer.LastBitOk | fpga/rtl/spi.sv:88-161 | At a byte boundary the byte just received is stored or skipped, the count advances accordingly, and the transfer ends exactly at the last byte or on an abort. |
| SpiTransfer.TransferStep | fpga/rtl/spi.sv:88-166 | The bit-level invariant relating registers, buffers and wires survives every edge of every kind. |
| SpiTransfer.TransferRun | fpga/rtl/spi.sv:88-166 | The same over any run. |
| SpiTransfer.EndedIsComplete | fpga/rtl/spi.sv:123-131 | A transfer that ends uncut is complete. |
| SpiTransfer.TransferRefinesBytes | fpga/rtl/spi.sv:88-166 | Main result: from power-up and under every interleaving, a transfer that ends uncut clocked 8*(k+len+1) bits, k being the leading 0xFF bytes in wait-and-read and 0 otherwise, stored exactly the bytes after them and sent the TX half most significant bit first; a cut one ends on a byte boundary with a correct prefix. |
| SpiTransfer.LateAbortIsHarmless | fpga/rtl/spi.sv:245-253 | However late an earlier abort was requested, the next transfer, if not aborted itself, is complete. |
| SpiTransfer.ReadHalfIsStable | fpga/rtl/spi.sv:91-102 | While a transfer is outstanding the RX half that the console reads does not change. |
| SpiTransfer.ReceivedStays | fpga/rtl/spi.sv:91-102 | After a transfer, received bytes stay until the next start. |
| SpiTransfer.ConsoleReadsReceived | fpga/rtl/spi.sv:91-102 | Flipping the buffer index after a transfer shows the console every received byte, two at a time and in order, the last one of an odd length included. |
| SpiConsole.BufferHolds | fpga/rtl/spi.sv:104-115 | After any run, at every buffer address of either half the TX RAM holds the byte that the console wrote there last. |
| SpiConsole.LowByteWritten | fpga/rtl/spi.sv:224-227 | The low control byte alone replaces the low eight bits of the length and nothing else. |
| SpiConsole.ProgrammedIs | fpga/rtl/spi.sv:224-255 | Two control writes at rest start a transfer whose length is bit 0 of the high byte above the low byte, mode bits 1-2, clock bit 3, device bits 4-5 and buffer half bit 6. |
| SpiConsole.ConsoleBytesAreSent | fpga/rtl/spi.sv:104-166 | Main result: a transfer started by control bytes lo and hi that is not aborted puts the 256*(hi bit 0)+lo+1 bytes written last to addresses 0, 1, 2... of the half that hi unmaps on the line, each most significant bit first, if the mode bits of hi are 0 or 2, and holds the line high otherwise. |
| SpiConsole.ConsoleBytesAreReceived | fpga/rtl/spi.sv:68-166 | Main result: and in every mode but 0 it stores the same number of bytes that the line chosen by hi bits 4-5 delivered, in mode 3 those from the first that is not 0xFF on. |
| EepromFpga.Eeprom.constructor | fpga/rtl/eeprom.sv:61-74 | Power-up: not busy, writes protected, counter clear. |
| EepromFpga.Eeprom.PosedgeSClk | fpga/rtl/eeprom.sv:86-141 | The always blocks on the serial clock move the whole state to the specified next state, from the values before the edge. |
| EepromFpga.Eeprom.StoreWord | fpga/rtl/eeprom.sv:99-118 | While an internal write is busy, one word of block RAM takes the write data; otherwise none changes. |
| EepromFpga.Eeprom.ClockSpi | fpga/rtl/eeprom.sv:125-141 | Serial clock enable and chip select as functions of the write counter and the command kind. |
| EepromFpga.Eeprom.Count | fpga/rtl/eeprom.sv:86-97 | Counter, end of the internal write and external busy flag after an edge. |
| EepromFpga.Eeprom.WriteControl | fpga/rtl/eeprom.sv:217-266 | A control write decodes to a start, a change of write protection, a read or nothing, and does nothing when not ready except latch a read. |
| EepromFpga.Eeprom.LatchRead | fpga/rtl/eeprom.sv:185-198 | A read latches the addressed word, or marks the data invalid when the start bit is missing. |
| EepromFpga.Eeprom.WriteCommand | fpga/rtl/eeprom.sv:231-245 | Write and write-all toggle the start flag unless writes are protected. |
| EepromFpga.Eeprom.EraseCommand | fpga/rtl/eeprom.sv:246-257 | Erase and erase-all likewise. |
| EepromFpga.Eeprom.ProtectCommand | fpga/rtl/eeprom.sv:258-259 | The two latch commands set and clear write protection. |
| EepromFpga.Eeprom.PosedgeNWE | fpga/rtl/eeprom.sv:217-277 | Any console write, including those to the four bytes of the command and data registers, which are not gated by busy (`EepromConsole.RegistersHold` says what the registers then hold). |
| EepromMcu.Firmware.SetType | firmware/src/eeprom.c:34-71 | Mask and shift for each of the seven chip types; the three types the FPGA knows get the FPGA's word count and opcode position. |
| EepromMcu.Firmware.FillWords | firmware/src/eeprom.c:94-97 | The fill loop writes the words up to the mask and no other. |
| EepromMcu.Firmware.ExchangeWord | firmware/src/eeprom.c:85-153 | One received word moves the two-phase command machine and the array as specified; the busy pin is released exactly when a command is finished. |
| EepromMcu.FirstWord | firmware/src/eeprom.c:107-152 | By the command's bit fields, whatever the chip type: which first words wait for a second one with the busy line held, which blank one word or all, and that no other changes anything. |
| EepromMcu.SecondWord | firmware/src/eeprom.c:88-105 | The second word goes to the address of the first, or to every word after a write-all, and releases the busy line. |
| EepromMirror.SameDecoding | firmware/src/eeprom.c:89-107 | With matched types, MCU and FPGA find the same opcode and address in a command word. |
| EepromMirror.CommandWord | firmware/src/eeprom.c:107-152 | Replaying a command word finishes an erase, or arms a write without touching the array or releasing busy. |
| EepromMirror.DataWord | firmware/src/eeprom.c:88-105 | Replaying the data word does to the array what the chip does, and returns the machine to rest. |
| EepromMirror.WordArrives | fpga/rtl/eeprom.sv:143-181 | The bits shifted out for each word are that word, most significant bit first. |
| EepromMirror.ReceiveOk | fpga/rtl/eeprom.sv:143-181 | Sampling the serial stream bit by bit, while the link is selected, fills the MCU's FIFO with whole words and leaves the partial one in its shift register. |
| EepromMirror.MemoryNext | fpga/rtl/eeprom.sv:99-118 | After each edge of the internal write the block RAM holds the partly executed command. |
| EepromMirror.StepOk | fpga/rtl/eeprom.sv:86-277 | The invariant tying FPGA, serial link, MCU and reference chip together survives every clock edge, MCU interrupt and console write that leaves the command and data registers alone until ready, whether commands are forwarded or lost. |
| EepromMirror.LostEdge | fpga/rtl/eeprom.sv:86-141 | While a command that started too late is carried out, the block RAM holds it partly executed and nothing stirs on the link or in the MCU. |
| EepromMirror.ReadyMeansMirrored | fpga/rtl/eeprom.sv:205-266 | Main result: in every run from power-up of a console that waits for ready, whatever it starts when, the MCU array at ready is that of a chip obeying exactly the forwarded commands, the block RAM that of a chip whose erase-all stops after 0x12 words if it started with the counter clear, nothing is left on the link, and the write-enable latch is the chip's. |
| EepromMirror.CopiesAgree | fpga/rtl/eeprom.sv:77-118 | In a run in which every command started is forwarded the MCU array is the faithful chip's whenever ready shows, and so is the block RAM if no erase-all starts with the counter clear. |
| EepromMirror.CommandLeaves | fpga/rtl/eeprom.sv:76-118 | A started command leaves at the next ready the MCU's copy as the command says if it is forwarded and untouched if not, and the FPGA's as the command says, an erase-all as far as its counter's start lets it reach. |
| EepromMirror.EraseAllDivergesIff | fpga/rtl/eeprom.sv:76-118 | After an erase-all on agreeing copies a word differs exactly if the write counter was clear at its start, the word lies from 0x12 up to the mask and was not 0xFFFF; started at the word count, it erases every word on both sides. |
| EepromMirror.ReadReturnsWord | fpga/rtl/eeprom.sv:185-213 | In every patient run a read issued when ready returns the word that the block RAM should hold, or 0xFFFF without a start bit; it is the reference chip's word if every command was forwarded and no erase-all started with the counter clear. |
| EepromMirror.ReleaseStep | firmware/src/spi.c:233-242 | Starting a command that is forwarded owes exactly one release of the busy line, a lost one none; the release pays it, with the array update done by then. |
| EepromMirror.OneReleasePerCommand | firmware/src/eeprom.c:85-153 | Over any patient run, releases and forwarded commands pair off. |
| EepromLine.LineCarriesCommands | fpga/rtl/eeprom.sv:125-181 | Main result: over any patient run, from any reachable state, the bits clocked out are exactly the command words, each followed by its data word if it has one, of the commands forwarded, in order; at most the end of the last is still to come. |
| EepromLine.ReadyCounter | fpga/rtl/eeprom.sv:86-97 | Whenever ready shows in a patient run the write counter is a multiple of the number of words, so on the 2 KB chip it is clear. |
| EepromLine.PatientIsPolite | fpga/rtl/eeprom.sv:213-215 | On the 2 KB chip every command of a console that waits for ready is forwarded. |
| EepromHazard.EraseLeavesCounter | fpga/rtl/eeprom.sv:76-97 | On the smaller chips an erase that the MCU answers promptly does end with the counter at the word count. |
| EepromHazard.CommandIsForwardedIff | fpga/rtl/eeprom.sv:76-141 | Main result: a command started at ready is sent to the MCU, and its array obeys it, if and only if the write counter was clear or the command is a write or an erase-all; otherwise not one bit leaves and the MCU stays as it was, whatever clock edges, interrupts and other console writes follow until ready. |
| EepromHazard.BackToBackCommandIsLost | fpga/rtl/eeprom.sv:76-141 | An erase or write-all issued while the counter is not clear completes and shows ready without a bit reaching the MCU: the FPGA's copy has it, the MCU's does not. |
| EepromConsole.RegistersHold | fpga/rtl/eeprom.sv:268-277 | Main result: over any run the command word is 256 times the last byte written to its high register plus the last written to its low one, and so is the data word, in whichever order and whatever else happens in between. |
| EepromConsole.StartedIs | fpga/rtl/eeprom.sv:217-266 | A control byte starts, at ready and with writes enabled, the write or erase that its upper half and the command word's start bit, opcode and short-command bits select, and nothing otherwise. |
| EepromConsole.LatchesHold | fpga/rtl/eeprom.sv:217-266 | The write-enable latch and the done bit after any run are what the last control write at ready that concerns them made them. |
| EepromConsole.ConsoleReads | fpga/rtl/eeprom.sv:185-277 | Main result, end to end: after any patient run that last wrote l and h to the command register, a read request at ready gives the block RAM word at (256*h+l) modulo the number of words, or 0xFFFF without a start bit; in a polite run without a short erase-all that is the reference chip's word. |
| EepromConsole.ConsoleCommandObeyed | fpga/rtl/eeprom.sv:76-277 | Main result, end to end: with writes enabled and the counter clear, the command that the last bytes written and the control byte select is carried out in both copies, word by word, by the next ready; an erase-all reaches eighteen words of the block RAM. |
| EepromConsole.NothingStarts | fpga/rtl/eeprom.sv:217-266 | With writes disabled, or nothing selected, a control write starts no command. |
| NorFlash.EraseOpsAfter | software/userland/src/updater/main.c:127-134 | The erase loop sets exactly the sectors overlapping the range to 0xFF. |
| NorFlash.ProgramOpsAfter | software/userland/src/updater/main.c:140-161 | The program loop ANDs the data into exactly its own range. |
| NorFlash.AndBit | software/userland/src/updater/main.c:144-146 | A programmed bit is set exactly if it was and the data's bit is. |
| NorFlash.PartOpsAfter | software/userland/src/updater/main.c:117-161 | Main result: for every 256-aligned start and every length the part leaves the data in its range, 0xFF in the rest of the 4 KiB sectors from its first byte's to its last one's, and every other byte as it was. |
| NorFlash.ProgramsStayInPage | software/userland/src/updater/main.c:141-149 | No program crosses a 256-byte page, and none reaches past the data. |
| NorFlash.ProgramsFindErased | software/userland/src/updater/main.c:141-149 | Whatever the chip held, every program finds the bytes it writes erased. |
| NorFlash.PartOpsStayCovered | software/userland/src/updater/main.c:127-149 | No operation of a part reaches outside the sectors that overlap it. |
| NorFlash.PartAlwaysAgrees | software/userland/src/updater/main.c:150-157 | For a part that fits the chip no read-back comparison ever fails. |
| NorFlash.PerformIsPrefix | software/userland/src/updater/main.c:147-157 | What is performed is the whole list, or a prefix ending in the comparison that failed. |
| WriteLock.ShieldTouches | software/ipl1/src/boot/main.c:262-265 | An operation on the locked chip is ignored as a whole or carried out as a whole: the border is a sector's and a page's. |
| WriteLock.ShieldAfter | software/ipl1/src/boot/main.c:262-265 | Main result: bytes below 256 KiB of a locked chip keep their value through any operations, every other byte is what the operations make of it. |
| WriteLock.ShieldedPartIff | software/userland/src/updater/main.c:125-161 | Main result: on a locked chip a part gets through if and only if its bytes below the border were in place already. |
| UpdateManifest.DecodeEncode | software/userland/src/updater/manifest.h:50-68 | Every packed command unpacks to itself, whatever bytes follow it. |
| UpdateManifest.CommandLayout | software/userland/src/updater/manifest.h:25-68 | A packed command is its number and its fields at the offsets of the header's structures, lowest byte first. |
| UpdateManifest.ParseEncode | software/userland/manifest_to_rom.py:99-161 | Round trip: a packed list with its final zero walks back to the same list, whatever follows. |
| UpdateManifest.EncodeParse | software/userland/src/updater/main.c:348-390 | The other round trip: a walk ends well exactly if the buffer begins with some packed list and a zero byte, and then that list is what it meets. |
| UpdateManifest.ParseConsumes | software/userland/src/updater/main.c:348-390 | A walk that reaches a zero byte spends at least five bytes on each command before it. |
| UpdaterSpec.VerifyPassIsDry | software/userland/src/updater/main.c:122-181 | The verify pass never erases or programs, and halts exactly when some command is refused. |
| UpdaterSpec.VerifiedBeforeFlashing | software/userland/src/updater/main.c:478-531 | Any operation, a write to the microcontroller included, implies that every part for this board has the checksum of its data, parts are aligned to 256 or 2048 bytes and manifests to 4096, the board is in every range, a microcontroller that gets a part has restarted, the list is well formed and the version block marked. |
| UpdaterSpec.BootIsGuarded | software/userland/src/updater/main.c:465-476 | Main result: from power-up a session runs exactly if the manifest at 4096 times the footer byte has at most 512 bytes and its checksum, and it runs on those bytes, filled up with zeros. |
| UpdaterSpec.LastMarker | software/userland/src/updater/main.c:167-232 | The marker byte of the version block in the buffer is what the last start or finish made it. |
| UpdaterSpec.McuPartIsSentAsStored | software/userland/src/updater/main.c:92-106 | Packed or not, a part for the microcontroller is accepted exactly if its STORED bytes have the checksum, and those are sent; only parts for the flash chip are ever decompressed. |
| UpdaterSpec.PackedMcuPartIsNotUnpacked | software/userland/src/updater/manifest.h:28-29 | A concrete packed part whose checksum is that of its unpacked bytes: it is turned down, and with the stored bytes' checksum those bytes are sent. |
| UpdateEffect.CommandStaysInReach | software/userland/src/updater/main.c:108-232 | Every operation of a command stays in its own sectors and out of a locked area. |
| UpdateEffect.PassStaysInReach | software/userland/src/updater/main.c:341-391 | However a pass ends, it touched only sectors of its commands, and nothing that is locked. |
| UpdateEffect.CommandEffect | software/userland/src/updater/main.c:108-232 | A command that completes leaves each byte outside manifest sectors as if its part were put there directly, locked bytes as they were. |
| UpdateEffect.PassInstalls | software/userland/src/updater/main.c:341-391 | A pass that completes leaves every byte outside the manifests' sectors as if the parts for this board were flashed directly, in order; locked bytes stay. |
| UpdateEffect.PassLeavesOthers | software/userland/src/updater/main.c:341-391 | Bytes that no command reaches, and locked ones, never change, not even in a pass that halts. |
| UpdateCompletes.StartLabels | software/userland/src/updater/main.c:167-203 | A start erases the sector, writes the version block marked partial and reads it back unchanged. |
| UpdateCompletes.StartedBytes | software/userland/src/updater/main.c:167-203 | Byte for byte: the version block with byte 11 all ones, and the rest of the sector blank. |
| UpdateCompletes.FinishSeals | software/userland/src/updater/main.c:205-232 | On a started block the twelve-byte finish program clears just the marker and its 64-byte comparison agrees. |
| UpdateCompletes.FinishedBytes | software/userland/src/updater/main.c:205-232 | Byte for byte: the version block with byte 11 zero. |
| UpdateCompletes.LabelKept | software/userland/src/updater/main.c:108-232 | Commands that keep clear of a version block keep it readable, and finished unless started anew. |
| UpdateCompletes.CommandRunsIff | software/userland/src/updater/main.c:108-232 | A command gets through exactly if what it compares in a locked area is there already; a start then leaves a readable block and a finish a sealed one. |
| UpdateCompletes.PassCompletesIff | software/userland/src/updater/main.c:236-391 | Main result: if nothing is refused, everything fits, data keeps clear of manifests and every finish has its start, the flash pass gets through if and only if what it compares in a locked area is there already and the microcontroller, which leaves its boot loader after a part, gets at most one; otherwise it halts. |
| UpdateCompletes.PassCompletes | software/userland/src/updater/main.c:341-391 | In particular a list that keeps out of a locked area, with at most one part for the microcontroller, never halts in the flash pass. |
| UpdateCompletes.PassNeedsLocks | software/userland/src/updater/main.c:341-391 | Whatever its layout, a flash pass that gets through found in a locked area everything it compares there. |
| UpdateCompletes.SessionNeedsLocks | software/userland/src/updater/main.c:525-531 | So a session whose last start leaves the area locked, and which addresses it, halts unless all of it is in place. |
| UpdateCompletes.FinishedManifestReads | software/userland/src/updater/main.c:205-232 | And after a pass that gets through, a manifest whose last command is a finish reads as the version with partial_install 0. |
| DowngradeGuard.SessionFlashesIff | software/userland/src/updater/main.c:489-531 | A session whose other checks pass runs the flash pass, the write protection lifted if the last start is below 0x40000, unless the manifest started last lies outside the factory area and is newer (`DowngradeGuard.DowngradeIsSmaller` says when it is); then it does nothing at all. |
| DowngradeGuard.DowngradeIsSmaller | software/userland/src/updater/main.c:497-503 | Main result: an installed block counts as newer exactly if its bytes 0 and 1 are 0x46, 0x57 and 65536*major+minor, from bytes 2-5, is larger than the update's; so two versions are never each a downgrade of the other, and an equal one is none. |
| DowngradeGuard.OlderIsRefusedIff | software/userland/src/updater/main.c:489-531 | Main result: a session whose other checks pass refuses exactly if the last start is at 0x40000 or above, the chip (0xFF past its end) has 0x46, 0x57 there, and the version number in the next four bytes is strictly larger than the update's; otherwise it runs the flash pass, unlocked exactly if the last start is below 0x40000. |
| DowngradeGuard.NewerManifestSurvivesIff | software/userland/src/updater/main.c:495-528 | Main result: a started manifest keeps its sector untouched if and only if the manifest started LAST lies at or above 0x40000 and, either, that one is newer than the update, or the started one lies in the factory area, which is then still locked. |
| DowngradeGuard.NoDowngradeOutsideFactoryIff | software/userland/src/updater/main.c:503-510 | Main result: a list can never replace a newer manifest outside the factory area, whatever the chip holds, if all its starts there name the manifest started last (or no version is newer than the update's), and, for a list of orderly layout, only if. |
| DowngradeGuard.FullUpdateErasesNewer | manifest/full_update.txt:1-3 | The shipped full update starts 0x4F000 and then 0xF000, so it erases a newer manifest at 0x4F000; only a warning is shown. |
| DowngradeGuard.SwappedStartsHalt | software/userland/src/updater/main.c:525-528 | With the two starts swapped the chip stays locked, and the update halts at the factory manifest, having changed nothing, unless that already reads as the one to be started. |
| CrashSafety.MarkerStays | software/userland/src/updater/main.c:167-203 | Starts, and parts clear of it, keep a set marker byte set, however the pass ends. |
| CrashSafety.TornIs | software/userland/src/updater/main.c:130-146 | The power-loss model: an interrupted erase may leave anything in its sector, an interrupted program anything at the bytes that it was to change, and no more. |
| CrashSafety.StartsMark | software/userland/src/updater/main.c:167-203 | Once the starts are through, every manifest they name is marked partial. |
| CrashSafety.CrashWithoutParts | software/userland/src/updater/main.c:167-232 | Power loss during starts or finishes leaves every byte outside the manifests alone. |
| CrashSafety.CrashAmongParts | software/userland/src/updater/main.c:341-391 | Power loss among the data parts leaves every started manifest marked partial. |
| CrashSafety.CrashInFinishes | software/userland/src/updater/main.c:205-232 | Power loss in the finishes finds every data part in place. |
| CrashSafety.CrashIsSafe | manifest/full_update.txt:1-22 | Main result: for lists of the shipped shape, wherever power fails, torn operations included, either the data areas are untouched, or all parts for this board are in place, or every started manifest is marked partial. |
| CrashSafety.FinishedManifestIsTrue | software/userland/src/updater/manifest.h:41 | So a started manifest whose partial_install reads 0 means untouched old data or complete new data. |
| CrashSafety.FailureIsCrashState | software/userland/src/updater/main.c:130-157 | A chip that stops answering after any number of operations, the flash or the microcontroller, leaves one of those crash states. |
| CrashSafety.SessionIsSafe | software/userland/src/updater/main.c:465-531 | The same for the whole session, checks and verify pass included. |
| UpdateRerun.InstalledForgets | software/userland/src/updater/main.c:108-161 | Once a data part covers a byte, what an interrupted run left there makes no difference. |
| UpdateRerun.RerunInstallsIff | software/userland/src/updater/main.c:465-531 | Main result: from every state that power loss can leave, running the update again installs everything if and only if not (the manifest started last lies outside the factory area and now reads as newer); in that case nothing is ever flashed again. |
| UpdateRerun.TornStartBlocksRerun | manifest/user_update.txt:1-2 | The user update can end there: torn while its only start writes the version block, the manifest can read as version 65535.65535, and every rerun refuses. |
| Updater.Machine.constructor | software/userland/src/updater/main.c:39-46 | The program's globals at power-up. |
| Updater.Machine.Exchange | software/userland/src/updater/main.c:130 | One operation changes exactly the bytes NOR flash would, a write to the microcontroller and an ignored operation none, unless the chip has stopped answering. |
| Updater.Machine.Compare | software/userland/src/updater/main.c:150-157 | Reading back and comparing halts exactly when the bytes differ or the chip fails. |
| Updater.Machine.EraseRange | software/userland/src/updater/main.c:125-134 | The erase loop performs the specified erases, as a locked chip takes them, cut short where the chip fails. |
| Updater.Machine.ProgramRange | software/userland/src/updater/main.c:140-161 | The program loop performs the specified programs, as a locked chip takes them, and comparisons, cut short where one fails. |
| Updater.Machine.RunFlash | software/userland/src/updater/main.c:108-165 | A flash command: board check, extraction, checksum, alignment, then both loops, in the verify pass none. |
| Updater.Machine.RunMcu | software/userland/src/updater/main.c:236-330 | An MCU command leaves SPI flash alone and sends the stored bytes; it halts on a failed checksum, on misalignment, if the microcontroller does not restart, and in the flash pass if it has left its boot loader or its write fails. |
| Updater.Machine.RunStart | software/userland/src/updater/main.c:167-203 | Edits the version block in the buffer, remembers its address, and erases, writes and compares. |
| Updater.Machine.RunFinish | software/userland/src/updater/main.c:205-232 | Edits the block, programs its first twelve bytes and compares all 64. |
| Updater.Machine.RunCheck | software/userland/src/updater/main.c:332-339 | Halts exactly when the board revision is outside the range. |
| Updater.Machine.Run | software/userland/src/updater/main.c:351-389 | Dispatch: buffer, flash and remembered address after any command, the command list unchanged. |
| Updater.Machine.RunUpdateManifest | software/userland/src/updater/main.c:341-391 | The interpreter loop ends and does exactly what a pass over the decoded list does, the buffer's version block included. |
| Updater.Machine.CopyManifest | software/userland/src/updater/main.c:466-471 | The buffer holds the image's bytes, then zeros. |
| Updater.Machine.Start | software/userland/src/updater/main.c:465-531 | The whole program, from locating the manifest through the checks (`DowngradeGuard.OlderIsRefusedIff`) and the write protection to the last flash operation, halted at any failure. |
| RomStore.PlaceKeepsArranged | software/userland/manifest_to_rom.py:72-81 | Whatever is placed, blocks stay between the bump pointer and the updater's base and never overlap. |
| RomStore.PlaceKeepsTidy | software/userland/manifest_to_rom.py:72-81 | Placing non-empty data keeps every block and the returned segment holds the data. |
| RomStore.PlaceAgain | software/userland/manifest_to_rom.py:75-76 | Equal contents share one block, however much is placed in between. |
| RomStore.PlaceKeepsBlocksIff | software/userland/manifest_to_rom.py:78-79 | Blocks survive a placement exactly unless it is a new empty file placed right after a block. |
| RomStore.EmptyFileLosesABlock | software/userland/manifest_to_rom.py:78-79 | A concrete empty file that replaces the block placed last. |
| RomRules.Padded | software/userland/manifest_to_rom.py:54-62 | Padding adds 0xFF on one side up to a whole number of sectors and keeps the data. |
| RomRules.FlashedPartsAt | software/userland/manifest_to_rom.py:64-70 | What each byte is after a file is flashed part by part: its data, or 0xFF where the next part's first erase reaches back. |
| RomRules.SplitIsDirectIff | software/userland/manifest_to_rom.py:64-70 | Splitting is the same as flashing whole exactly if every byte erased again was 0xFF. |
| RomRules.AlignedLosesNothing | software/userland/manifest_to_rom.py:64-70 | No byte is erased again at a sector-aligned position, or in a file of one part. |
| RomRules.PageAlignedLosesBytes | software/userland/manifest_to_rom.py:115-117 | The alignment that the builder does check is not enough: at 0x100 a byte is lost. |
| RomRules.RulesArranged | software/userland/manifest_to_rom.py:83-161 | For every rule list the blocks of a build are disjoint and inside their space. |
| RomMeaning.ReadsBack | software/userland/src/updater/main.c:92-96 | A block in memory reads back through its segment. |
| RomMeaning.PartsInstall | software/userland/manifest_to_rom.py:115-120 | The commands of a split file install it part by part, and are refused only if they are for a microcontroller that does not restart. |
| RomMeaning.RuleInstalls | software/userland/manifest_to_rom.py:95-161 | A rule's commands install its file part by part at the position that `RomPlacement.FlashRuleIsPlaced` pins; the updater turns one down exactly when the rule is misplaced or for other boards. |
| RomMeaning.RulesInstall | software/userland/manifest_to_rom.py:83-161 | Main result: with the blocks in memory a built list installs its rules one by one, and verifies exactly when no rule is turned down. |
| RomMeaning.PartCount | software/userland/manifest_to_rom.py:64-70 | A file is sent in one part exactly if it has at most 48 KiB. |
| RomMeaning.RulesMcu | software/userland/manifest_to_rom.py:139-151 | A built list sends this board's microcontroller exactly the parts that its rules' files split into. |
| RomMeaning.PackedEndsWhereAskedIff | software/userland/manifest_to_rom.py:127-129 | With a negative position a packed part ends where asked exactly if packing kept its length. |
| RomMeaning.FlashEndsWhereAsked | software/userland/manifest_to_rom.py:110-113 | With a negative position an unpacked file does end where asked, padding in front. |
| RomMeaning.PartByPartIsDirectIff | software/userland/manifest_to_rom.py:105-120 | A FLASH rule for this board is applied as written exactly if its file splits cleanly. |
| RomMeaning.CleanSplitsAreDirect | software/userland/manifest_to_rom.py:105-120 | Lists whose files split cleanly and are placed where asked are applied as written. |
| RomMeaning.AlignedSplitsCleanly | software/userland/manifest_to_rom.py:54-70 | Files at sector boundaries, or of one part, split cleanly. |
| RomMeaning.LastRuleDecides | software/userland/manifest_to_rom.py:83-161 | The last rule that affects a byte decides it, by its file's byte or by blanking; unaffected bytes keep their value. |
| RomMeaning.FileSurvivesIff | software/userland/manifest_to_rom.py:83-161 | Main result: once all rules are applied a file is whole if and only if each of its bytes agrees with the last later rule to affect it, which wants the same byte there or blanks a 0xFF. |
| RomMeaning.PackedNeighbourIsBlanked | software/userland/manifest_to_rom.py:133-135 | Packed files are not padded: one that starts in the sector where another ends blanks that end. |
| RomPlacement.FileInParts | software/userland/manifest_to_rom.py:64-70 | Part k of a file has address at+49152*k, the length and the checksum of the bytes from 49152*k on, and the rule's board, and the parts cover the file. |
| RomPlacement.FlashRuleIsPlaced | software/userland/manifest_to_rom.py:105-120 | Main result: FLASH AT a sends the file, padded with 0xFF to whole 4 KiB at its end, from a on, and with a negative a, padded in front, so that its last part ends at -a; board 0xFFFF if the rule names none. |
| RomPlacement.McuRuleIsPlaced | software/userland/manifest_to_rom.py:139-151 | MCU_FLASH AT a sends the file as it is from a on. |
| RomPlacement.OtherRulesArePlaced | software/userland/manifest_to_rom.py:99-156 | PACKED_FLASH AT a sends one part at a, or, negative, the packed length below -a, with length and checksum of the unpacked bytes; START, FINISH and the board range become their commands with their numbers. |
| RomPlacement.ListVerdict | software/userland/manifest_to_rom.py:83-161 | Main result: with room for the files, a rule list is accepted exactly if every rule is aligned (256 bytes, 2048 for the microcontroller), has its addresses, board and range in their fields and an unpacked file of at most 65535 bytes; otherwise the first rule that is not decides the exception. |
| RomPlacement.LastStartRule | software/userland/src/updater/main.c:167-172 | The address that the updater compares versions at is that of the last START rule, or 0 without one. |
| RomPlacement.UpdateEndsIff | software/userland/src/updater/main.c:465-531 | Main result, in plain numbers: with manifests clear of data, finishes started and everything on the chip, an update ends if and only if the list has at most 512 bytes, the version block is marked and not older than a marked one at a last start from 0x40000 up, every rule suits the board and the microcontroller, that gets at most one part, and what the list compares in a locked area is there. |
| RomPlacement.FlashFileIsInPlace | software/userland/manifest_to_rom.py:105-120 | Main result: after a completed update whose rules are all applied as written (`RomMeaning.CleanSplitsAreDirect`), byte k of a FLASH file for this board that survives the later rules (`RomMeaning.FileSurvivesIff`) is at a+k, or, AT negative, at -a-length+k, unless a manifest's sector or the locked area is there. |
| RomPlacement.PackedFileIsInPlace | software/userland/manifest_to_rom.py:121-138 | And so is byte k of a PACKED_FLASH file's unpacked bytes, under the same conditions. |
| RomPlacement.McuFileIsSent | software/userland/manifest_to_rom.py:139-151 | Main result: a completed update has sent the microcontroller every piece of an MCU_FLASH file for this board, byte for byte, at a+49152*k. |
| RomPlacement.FinishRuleSeals | software/userland/manifest_to_rom.py:102-104 | After a completed update the 64 bytes at a FINISH rule's address are the update's version block with byte 11 zero, if the manifest is not started again later. |
| RomPlacement.CheckRangeGuards | software/userland/manifest_to_rom.py:152-157 | An update that touches anything, or ends well, runs on a board within FROM and TO. |
| RomImage.ManifestIsBelow | software/userland/manifest_to_rom.py:168-177 | The manifest lies below all blocks and the blocks below the updater's program. |
| RomImage.BlockWritten | software/userland/manifest_to_rom.py:192-194 | Writing a block into the image disturbs neither footer, manifest, program nor another block, in whatever order blocks come. |
| RomBuilder.Builder.constructor | software/userland/manifest_to_rom.py:32-38 | The script's globals at the start. |
| RomBuilder.Builder.PlaceData | software/userland/manifest_to_rom.py:72-81 | Updates the three tables and returns the segment. |
| RomBuilder.Builder.AddFilePart | software/userland/manifest_to_rom.py:115-120 | Checks, places and encodes one part, or raises the right error. |
| RomBuilder.Builder.AddFile | software/userland/manifest_to_rom.py:64-70 | The splitting loop emits the specified parts in order. |
| RomBuilder.Builder.AddOne | software/userland/manifest_to_rom.py:91-160 | One rule: tables and bytes of the specification, or its error; which address, length and board the bytes name is said by `RomPlacement.FlashRuleIsPlaced`, `RomPlacement.McuRuleIsPlaced` and `RomPlacement.OtherRulesArePlaced`. |
| RomBuilder.Builder.AddAll | software/userland/manifest_to_rom.py:83-161 | All rules, in order, up to the first error. |
| RomBuilder.Builder.WriteAt | software/userland/manifest_to_rom.py:185-194 | Writing at an offset replaces just those bytes. |
| RomBuilder.Builder.Assemble | software/userland/manifest_to_rom.py:168-194 | The file holds footer, manifest, every block and the program, at the places the console will look. |
| RomBuilder.Builder.Build | software/userland/manifest_to_rom.py:83-194 | The whole script: which inputs it rejects and, for the others, the image. |
| RomRoundTrip.StoreIsMapped | software/userland/manifest_to_rom.py:192-194 | In the console's memory every block is found at its segment. |
| RomRoundTrip.ImageLayout | software/userland/manifest_to_rom.py:168-194 | The file in plain offsets: size, footer byte, manifest page just below the data, length and checksum before the list, every block 16 bytes a segment into the megabyte, the program at the end. |
| RomRoundTrip.FooterFindsManifest | software/userland/src/updater/main.c:466-473 | The byte at file end minus 10 leads to the manifest's length, checksum and list. |
| RomRoundTrip.BufferWalksBack | software/userland/src/updater/main.c:470-473 | The updater's buffer walks back to the commands the builder emitted. |
| RomRoundTrip.BootRunsBuiltList | software/userland/src/updater/main.c:465-531 | Main result: booting an image is running the session on the emitted commands, exactly unless the list is longer than 512 bytes. |
| RomRoundTrip.BuiltImageIsWalkable | software/userland/src/updater/main.c:341-391 | A built image meets what the running updater asks of its memory. |
| RomRoundTrip.UpdateAppliesRules | software/userland/manifest_to_rom.py:83-194 | Main result: if files split cleanly and packed ones are placed where asked, an update that ends leaves every byte outside the manifests' sectors as if each rule for this board had been applied directly, in order, every file at the position that `RomPlacement.FlashFileIsInPlace` states; bytes of a locked area stay, and all that is claimed there was in place. |
| RomRoundTrip.UpdateCompletesIff | software/userland/src/updater/main.c:465-531 | Main result: with manifests clear of data, finishes started and everything on the chip, the update ends exactly when no rule is turned down, the version checks pass, the rules send this board's microcontroller at most one part, and what the list compares in a locked area is in place already. |
| RomRoundTrip.ProtectedAreaIsNoObstacle | software/userland/src/updater/main.c:525-528 | The last condition is met by every list whose last start is below 0x40000 and by every list that keeps out of that area. |
| RomRoundTrip.UpdateSealsManifests | software/userland/src/updater/main.c:205-232 | And then every finished manifest holds the update's version with partial_install 0. |
| NativeProtocol.PayloadFitsIff | firmware/src/spi_cmd.c:41-66 | The packet buffer takes exactly the payloads of all commands but EEPROM writes of more than 255 words. |
| NativeProtocol.ReplyFitsIff | firmware/src/spi_cmd.c:68-262 | The transmit buffer takes exactly the firmware's replies to all commands but EEPROM reads of more than 256 words. |
| NativeProtocol.ScanMessage | firmware/src/spi.c:207-232 | After any idle run, a legal command with its payload is taken as just that. |
| NativeProtocol.MessageIsSeenIff | docs/content/developer/mcu_protocol.md:221-223 | A command word is seen exactly if its low byte is not 0xFF. |
| NativeProtocol.StreamMeansMessages | firmware/src/spi.c:207-232 | Main result: a stream of legal messages means exactly those commands and payloads, and each of its prefixes a prefix of them (`NativeRequests.StreamMeansRequests` says it of requests with their own fields). |
| NativeProtocol.StreamIsSafe | firmware/src/spi_cmd.c:41-66 | No prefix of a legal stream announces a payload longer than the packet buffer. |
| NativeProtocol.LegalRepliesFit | firmware/src/spi_cmd.c:68-262 | So a device that replies as the firmware does, however its replies depend on what it executed before, stays within its buffer on every legal stream without such reads. |
| NativeProtocol.FrameStartsClear | firmware/src/spi.c:143-148 | A response header never starts with 0xFF; it is twice the length, before the reply's bytes, or 1 for an error. |
| NativeRequests.LengthIsAnnounced | firmware/src/spi_cmd.c:41-66 | For each of the 29 kinds of request, with its own fields and encoded as documented, the device derives from the first word just the number of bytes that follow it. |
| NativeRequests.RequestIsLegal | docs/content/developer/mcu_protocol.md:15-223 | Every expressible request is a legal message, and its bytes on the line are that message's. |
| NativeRequests.OneMeaning | docs/content/developer/mcu_protocol.md:15-223 | No command and payload stand for two requests. |
| NativeRequests.EveryCallIsARequest | firmware/src/spi_cmd.c:41-66 | Conversely every legal command and payload are exactly one request. |
| NativeRequests.StreamMeansRequests | firmware/src/spi_cmd.c:41-66 | Main result: any sequence of requests, with idle bytes anywhere between them, is taken apart into exactly those requests, field by field. |
| NativeRequests.DeviceExecutesRequests | firmware/src/spi.c:171-232 | Main result: the device, under every schedule of its handlers, has executed the first requests sent, each exactly as sent, and all of them once the wire is drained. |
| NativeRequests.RequestIsAnswered | firmware/src/spi_cmd.c:68-257 | The firmware answers each request with the documented number of bytes, an echo with the same bytes, a USB read with at most as many as asked for, an undefined request with an error and the mode switch not at all. |
| NativeSpi.Spi.constructor | firmware/src/spi.c:400-407 | Native mode just entered: listening, nothing queued. |
| NativeSpi.Spi.Arrive | firmware/src/spi.c:207-217 | The host's byte enters the bounded receive queue, or is dropped if that is full, and then nothing that matters is lost. |
| NativeSpi.Spi.Leave | firmware/src/spi.c:150-154 | The next response byte leaves if one is loaded, else 0xFF. |
| NativeSpi.Spi.Clock | firmware/src/spi.c:401-404 | A byte each way keeps the link invariant, for a host that idles when the queue is full. |
| NativeSpi.Spi.StartCommand | firmware/src/spi.c:221-232 | A complete command word starts the transfer of as many payload bytes as its request has (`NativeRequests.LengthIsAnnounced`), or alerts the main loop when it has none, and clears the queue. |
| NativeSpi.Spi.ByteInterrupt | firmware/src/spi.c:207-232 | The byte loop keeps the link invariant whatever arrives meanwhile, and leaves no byte unread unless it met a command. |
| NativeSpi.Spi.DmaReceive | firmware/src/spi.c:193-202 | Payload bytes go to the buffer in order; the last one alerts the main loop. |
| NativeSpi.Spi.LoadFrame | firmware/src/spi.c:143-150 | The transmit buffer holds header and reply. |
| NativeSpi.Spi.SendFrame | firmware/src/spi.c:150-154 | The frame follows what the line has carried so far. |
| NativeSpi.Spi.Execute | firmware/src/spi.c:135-154 | A command is executed once and its answer, if it has one, started; the answer may depend on every command executed before. |
| NativeSpi.Spi.Task | firmware/src/spi.c:171-176 | The main loop executes exactly the command that waits, or nothing. |
| NativeSpi.Spi.TransmitInterrupt | firmware/src/spi.c:178-191 | After the answer the link listens again. |
| NativeSpi.Spi.ExecutesExactlyTheMessages | firmware/src/spi.c:171-232 | Main result: under every schedule of interrupts, transfers and main-loop calls, with a receive queue of any depth that drops what does not fit, the commands executed are the first ones the host sent, payloads included, and all of them once wire and queue are drained. |
| NativeSpi.Spi.LineCarriesAnswers | firmware/src/spi.c:135-154 | The line carries the answers to the executed commands, in order, with idle bytes in between and nothing else; each answer is any function of the commands so far. |
| NativeSpi.Spi.LastAnswerOnLine | firmware/src/spi.c:143-154 | From any point of the idle run before an answer, the line delivers the rest of that run and then the answer. |
| NativeResponse.SkipsExactlyIdle | fpga/rtl/spi.sv:123-156 | Of a prefix of idle bytes, a response and whatever follows, wait-and-read skips exactly the idle bytes. |
| NativeResponse.WaitAndReadDeliversResponse | fpga/rtl/spi.sv:123-156 | A wait-and-read of n bytes, n at most the response length, that ends uncut has received exactly the first n response bytes, for any number of idle bytes before it. |
| NativeResponse.ResponseFromPowerUp | firmware/src/spi.c:143-154 | The same from power-up and under every interleaving of the FPGA's edges. |
| NativeResponse.LastFrameAnswers | firmware/src/spi.c:135-154 | The frame sent last answers the command executed last. |
| NativeResponse.ConsoleReadsAnswer | firmware/src/spi.c:135-154 | Main result, end to end: a wait-and-read transfer that samples the microcontroller's line from anywhere in the idle run before its last answer leaves the first bytes of that answer in the receive buffer, whatever either side had done before. |
| RtcTime.ToTwentyFourKeepsTime | firmware/src/rtc.c:244-261 | The 12 to 24-hour conversion keeps the hour of the day, hour 00 read as 12, and leaves the PM bit clear. |
| RtcTime.ToTwelveKeepsTime | firmware/src/rtc.c:262-281 | So does the 24 to 12-hour conversion. |
| RtcTime.StatusKeepsTime | firmware/src/rtc.c:228-290 | One status write keeps the time of day and leaves minutes and seconds alone. |
| RtcTime.StatusesKeepTime | firmware/src/rtc.c:228-290 | Main result: any sequence of status writes keeps the time of day, and leaves 12-hour mode on exactly if bit 6 of the last one was 0. |
| RtcTime.RangeCorrects | firmware/src/rtc.c:306-315 | Correction leaves bits above the mask; a field that was BCD and in range stays, any other becomes the smallest value. |
| RtcTime.TimeReadsBackCanonicalIff | firmware/src/rtc.c:340-394 | Main result: any written time reads back canonical exactly unless, in 12-hour mode, bit 5 of the hour was set. |
| RtcTime.TwelveHourOverlooksBitFive | firmware/src/rtc.c:340-346 | A concrete written hour that 12-hour mode lets through. |
| RtcTime.CanonicalTimeIsFixed | firmware/src/rtc.c:340-394 | Canonical times read back as written. |
| RtcTime.DateReadsBackCanonical | firmware/src/rtc.c:321-338 | Any written date reads back with every field BCD and in range. |
| RtcTime.CanonicalDateIsFixed | firmware/src/rtc.c:321-338 | Canonical dates read back as written, weekday 0 to 7 and back included. |
| RtcTime.WriteBackChangesNothing | firmware/src/rtc.c:317-394 | Writing back what was read changes nothing that can be read. |
| RtcTime.HourByteSaysHour | firmware/src/rtc.c:67-83 | In either mode the hour byte says the hour that the register denotes, with the afternoon bit in 24-hour mode too. |
| RtcTime.WriteSwitchRead | firmware/src/rtc.c:228-394 | End to end: a time written in one mode and read after any status writes says the same time. |
| RtcTime.TimeReadsBackAs | firmware/src/rtc.c:340-394 | What reads back of any three bytes written: minute, second and 24-hour hour as they were if in range, else 0, 59 and 0, with the afternoon bit set from 12 on; in 12-hour mode 0 for hour 0 or 12, the written PM bit and bit 5. |
| RtcTime.DateReadsBackAs | firmware/src/rtc.c:321-391 | And of any four: year, month and day as they were if in range, else 0, 1 and 1, and weekday 7 as 0. |
| RtcTime.RegistersHold | firmware/src/rtc.c:332-365 | After canonical bytes are written the registers hold that hour of the day, minute, second, year, month, day and weekday, Sunday as 7. |
| RtcDevice.Rtc.WriteStatus | firmware/src/rtc.c:228-290 | Registers after a status write. |
| RtcDevice.Rtc.WriteDate | firmware/src/rtc.c:321-338 | The date bytes are corrected in place and loaded. |
| RtcDevice.Rtc.WriteTime | firmware/src/rtc.c:340-365 | So are the time bytes, at their offset, and no other byte changes. |
| RtcDevice.Rtc.WriteDatetime | firmware/src/rtc.c:317-370 | Buffer and registers after a write with or without a date. |
| RtcDevice.Rtc.ReadDatetime | firmware/src/rtc.c:383-394 | The bytes given for the registers. |
| RtcDevice.ReadConsistently | firmware/src/rtc.c:372-381 | The read loop ends, and returns the clock's date and time at one instant of the reading, whatever ticks fell in between. |
| MenuLoader.FirstPosition | software/ipl1/src/boot/main.c:161-165 | For a file that fits, the 16-bit expressions start it exactly its size before the end of PSRAM and count its half banks. |
| MenuLoader.BankIsRealIff | software/ipl1/src/boot/main.c:162-168 | The bank is one of the chip's exactly for files up to 16 MiB; a larger file is not loaded at all. |
| MenuLoader.BarIsMonotone | software/ipl1/src/boot/main.c:136-140 | The bar is the whole part of its share of 128; it never shrinks, never passes 128 and is 128 at the last half bank. |
| MenuLoader.Loader.UpdateProgress | software/ipl1/src/boot/main.c:136-140 | One call shows the bar of the next half bank; the cap at 128 never acts. |
| MenuLoader.Loader.Read | software/ipl1/src/boot/main.c:173-181 | A read puts the next bytes of the file at their right-aligned place and changes nothing else; a read that fails may leave anything in its own range, and nothing elsewhere. |
| MenuLoader.Loader.ReadHalfBank | software/ipl1/src/boot/main.c:169-182 | One half bank: one progress call, one read. |
| MenuLoader.Loader.ReadBanks | software/ipl1/src/boot/main.c:168-187 | The loop over banks ends with the whole file in place and one progress call per half bank, or at a failed read with a correct prefix and only that read's half bank in doubt. |
| MenuLoader.Loader.LoadMenu | software/ipl1/src/boot/main.c:142-195 | File bytes, untouched bytes and progress calls, for every file size and every failing read; a good load succeeds exactly if the file's 16th byte from the end is 0xEA and its 12th at least 0x20. |

## Left out

- Updater.Machine.RunMcu: sending a part to the microcontroller is one operation that succeeds or fails; its own flash and the boot loader calls behind the operation, which are not part of this model, are not modelled, and calls to a boot loader that has been left are taken to fail.
- Updater.Machine.RunFlash: does not model a part ending in the last sector of the 32-bit address space, where the erase address wraps and the loop never ends.
- Updater.Machine.Run: the same.
- Updater.Machine.RunUpdateManifest: the same, and no walk past the 512-byte buffer; built images are shown to do neither (the first given addresses below that).
- Updater.Machine.Start: the same; and the version block read for the downgrade check is taken to succeed, as the source ignores that call's result.
- DowngradeGuard.NewerManifestSurvivesIff: assumes conditions under which the flash pass gets as far as the start (`UpdateCompletes.PassCompletesIff`, for the commands before it); the key press that the user is asked for is not modelled.
- Updater.Machine.Exchange: addresses past the end of the chip read as erased and take no data; wrapping inside the chip is not modelled.
- WriteLock: an erase or program of the locked area is taken to be ignored without an error; the flash commands behind it are not part of this model; whether the chip is locked when the updater starts is an input, since the factory boot program does not lock it.
- UpdaterSpec: bytes of the unpack buffer past the end of a short decompressed stream count as zero; the source leaves earlier contents there.
- EepromMirror.ReadyMeansMirrored: assumes matched chip types, equal contents at power-up, and a console that leaves the command and data registers alone until ready, because the gateware does not gate them.
- EepromMirror.StepOk: the synchroniser of the microcontroller's ready line is any later clock edge, and the microcontroller takes received words one per interrupt.
- EepromFpga: the setting without a chip, and chips that the FPGA does not know.
- SpiCore.Core.constructor: `last_period_delay` has no initial value in the source and is taken as 0.
- NativeSpi.Spi.constructor: replies to the commands on the wire fit the transmit buffer; the source writes past its end for an EEPROM read of more than 256 words (`NativeProtocol.ReplyFitsIff`), and past the receive buffer for an EEPROM write of more than 255 (`NativeProtocol.PayloadFitsIff`), and what happens then is not modelled.
- NativeSpi.Spi.LoadFrame: the same.
- NativeSpi.Spi.Clock: assumes a host that, when the receive queue is full, sends nothing but idle bytes between messages: one that idles until it is answered, with interrupts served within the queue's depth.  The transmit queue's depth is not modelled.
- NativeProtocol.StreamMeansMessages: payloads up to the 512-byte packet buffer; command numbers are those of the protocol document, since the header that defines them is not part of this model.
- NativeSpi.Spi.Execute: what commands do to the device is not modelled, only that a reply is some function of the commands executed so far; after the mode switch, which is not answered, native mode is over, even if the mode asked for is native again.
- NativeResponse.ConsoleReadsAnswer: that the engine samples the bytes which the microcontroller's line carries is assumed byte by byte; the electrical timing between the two is not modelled.
- RtcDevice.Rtc.WriteStatus: alarm modes, the interrupt line and the initialisation mode of the peripheral; days that do not exist in their month.
- RtcDevice.ReadConsistently: assumes that less than a day passes between four register accesses and that the clock is still at last.
- RtcTime: the alarm comparison, whose mask looks byte-swapped, so that there is no clean property to state.
- MenuLoader.Loader.Read: file system and card access are not modelled; a failed read may leave anything in its range.
- RomBuilder.Builder.Build: parsing of rule lines, reading of files, the digest and the version header are inputs; the updater's program is not empty and at most 896 KiB.
- RomRoundTrip: images whose manifest would lie below segment 0x2000, where the console has its RAM and the unpack buffer.
- The gateware's clock multiplexer, metastability, output skew and pin drivers: physical, not logical.
- `fpga/rtl/rtc.sv` and its handshake with the clock firmware.
- User interface, fonts, input, sounds, recovery tests, USB descriptors, power and clock setup.
