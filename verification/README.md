# Verified models of the Reciva radio's flash tool and front-panel drivers

Dafny models of six parts of the repository, with proofs of what they are for. Each `.dfy` file is one module.
`dafny verify dfyconfig.toml` verifies all of them.

* **NAND ECC** (`NandEcc`, `NandEccCode`). The table-driven loop of `nand_ecc.c` on arrays, proved equal to a
  bit-by-bit definition: group (i, v) is the parity of the data bits whose 12-bit address has bit i equal to v.
  With its 24 check bits a block of 4096 bits forms a code of minimum distance 4.
* **JTAG flash programming** (`Tap`, `Jtag`, `NandBus`, `NandPage`, `NandFlash`, `NandWrite`, `GetPart`). A
  boundary-scan device with the 16-state controller of section 6.1 of IEEE Std 1149.1-2001 stands behind the
  parallel port. Layer by layer, scans become pin vectors, pin vectors become bus cycles, bus cycles become page
  operations, and page operations become an image on a flash chip with bad blocks. Up to `NandPage` the chip is any
  function from histories of bus cycles to answers; `NandFlash` is one such chip.
* **Serial slave mode** (`Ring`, `UartTx`, `UartRx`, `SerialDriver`, `SerialLink`). The bit-banged transmitter, the
  line-splitting receiver and the hex codec, composed into one delivery theorem.
* **I2C slave mode** (`I2cSlave`, `I2cLink`). The interrupt-driven slave, its application and the master.
* **Input** (`Quad`, `KeyLog`, `Keypad`, `KeypadDriver`). Two quadrature decoders, and the key matrix scanner that
  shares its pins with the LCD.
* **Display** (`Bitmap`, `PadBitmap`, `DisplayBuffer`, `Panel`, `GreyPanel`). Bitmap realignment and drawing on
  page-addressed panels and on the row-addressed SSD0323.

`Bits` holds machine words as natural numbers, C's operators on them and one lemma per operator. Unsigned widths are
explicit (`byte`, `half`, `Low`); `char` is unsigned, as on ARM.

Some promises turned out to hold only under a condition, and the condition is proved exact:

* Between two key-downs there is exactly one key-up if and only if no scan failed in between
  (`KeyLog.BetweenDowns`); `KeypadDriver.SpuriousKeyUp` is a run with two.
* A scan that is lent to the LCD goes on with all columns low, because `setup_gpio_output` undoes the `set_columns`
  before it. With the matrix at rest the key reported is the right one if and only if the scan was not lent, or the
  last column's key is pressed, or none of the row is (`KeypadDriver.ScanAtRest`);
  `KeypadDriver.LentScanReportsWrongKey` is a run with a wrong one.
* A three-column keypad can report a bouncing key as column 0 (`Keypad.BouncingScan`, `Keypad.LateContact`), because
  its scan has a fourth turn with every column driven.
* `pad_bitmap` displaces a bitmap that does not reach the end of its first page (`PadBitmap.PictureKept`,
  `PadBitmap.DisplacedPicture`), and `PadBitmap.Pad` says when it looks at the byte after its input.
* A receiver line arrives whole if and only if it has at most 1022 characters (`UartRx.DeliversLines`). `write_data`
  does not look at how much of a line was queued: a sequence of messages arrives if and only if the ring had room for
  each line and each message has 1 to 511 bytes (`SerialLink.DeliverAll`). Two messages written back to back may have
  510 bytes together (`SerialLink.BackToBack`).
* An I2C reply arrives whole if and only if it has at most 255 bytes and its data is not asked for while the length of
  the previous reply is still in force and too small (`I2cLink.Master.Write`, `I2cLink.StaleLengthLosesReply`).
* The I2C slave listens again after a reply if and only if it stops in time (`I2cLink.StopsInTime`): the reply has at
  most 255 bytes and `tx_length` is set before the last bus event of the exchange, or the slave has stopped at the
  previous length before. `I2cLink.SlaveKeepsTransmitting` is a run in which it does not.
* Timer interrupts between the last append of a write and its kick are harmless unless they drain the ring
  (`UartTx.Transmitter.AppendThenKick`); then the next start bit goes out early, before there is a byte for it
  (`UartTx.Transmitter.StrayInterrupt`).
* `K9Fxx08_write` puts chunk m into the m-th good block if and only if no block before it was erased and then failed
  to take a page (`NandWrite.ChunkNumber`); the chunk read for such a block is lost (`NandWrite.ChunkLost`). With too
  few good blocks it goes on at block 0 (`NandWrite.BootBlockOverwritten`), and it ends if and only if it does within
  one pass over the chip for each chunk (`NandWrite.EndsExactly`).
* A block that fails is marked for the next run if and only if the mark can be programmed, or its data look like one
  (`NandWrite.WeakBlockMarked`, `NandWrite.SpoiledBlockMarked`).
* A rotation threshold below 2 does not divide (`Quad.ThresholdsThatDivide`).
* The ci11 decoder reads its pins twice in one interrupt. It stays indistinguishable from the other decoder if and
  only if the two reads of every interrupt are harmless (`Quad.SplitReads`); `Quad.SplitReadLosesPulse` is a run with
  others.

Assumptions about the surroundings: port writes, register writes and `cycle` are steps of the device behind them.
Interrupt handlers run to completion; the four key-row interrupts share one line and do not nest. The I2C unit
enters slave transmit mode when its address arrives with the read bit and leaves it only by software; a zero-byte
master read is an address and nothing else, and a bus that nobody drives reads as 0xFF. The LCD controllers behave as
their command sets say; a page panel has 132 columns. Memory past the end of a buffer holds arbitrary bytes. The
serial line is a sequence of levels without times; its receiver gets the bytes that their frames hold.

## Model

| member | source | states |
|---|---|---|
| NandEcc.TableHoldsColumnCodes | devtools/sharpflash/nand_ecc.c:33-50 | every one of the 256 table entries is the column code of its index: three pairs of column parities and the overall parity |
| NandEcc.TableHoldsParities | devtools/sharpflash/nand_ecc.c:33-50 | the code of a byte holds six parities of its bits and their overall parity, and its top bit is clear |
| NandEcc.TableIsLinear | devtools/sharpflash/nand_ecc.c:33-50 | the table entry of the XOR of two bytes is the XOR of their entries |
| NandEcc.RoundKeepsGroups | devtools/sharpflash/nand_ecc.c:117-130 | one round of the loop keeps the relation between the three registers and the parity groups of the bytes seen so far |
| NandEcc.LineRegisters | devtools/sharpflash/nand_ecc.c:117-130 | registers in that relation: the XOR of the two line registers is 0x1FF if the bytes seen so far have odd parity, and 0 otherwise |
| NandEcc.WeaveNibbles | devtools/sharpflash/nand_ecc.c:60-84 | the packing loop interleaves the two line registers bit by bit, complemented |
| NandEcc.NandTransResult | devtools/sharpflash/nand_ecc.c:60-100 | the three bytes hold the complements of the register bits in their places, and nothing else of the array changes |
| NandEcc.NandCalculateEcc | devtools/sharpflash/nand_ecc.c:107-136 | for every 512-byte block the table-driven loop yields exactly the ECC of the bit-by-bit reference definition (`IsEcc`) |
| NandEcc.EccUnique | devtools/sharpflash/nand_ecc.c:60-136 | the reference definition determines the three bytes |
| NandEccCode.OddFlipsChangePairs | devtools/sharpflash/nand_ecc.c:60-136 | an odd number of data flips changes exactly one bit of each of the twelve ECC pairs, an even number none or both |
| NandEccCode.TwoFlipsChangeAPair | devtools/sharpflash/nand_ecc.c:60-136 | two data flips change both bits of some pair |
| NandEccCode.MinimumDistance | devtools/sharpflash/nand_ecc.c:60-136 | any two distinct blocks with their ECC differ in at least 4 bits |
| NandEccCode.MinimumAttained | devtools/sharpflash/nand_ecc.c:60-136 | two flips whose addresses differ in one bit lead to a code word at distance exactly 4 |
| NandEccCode.SingleFlipLocated | devtools/sharpflash/nand_ecc.c:60-136 | with at most one flip in data and ECC together, the XOR of stored and recomputed ECC tells no flip, an ECC flip and a data flip apart, and spells out the exact position of a data flip |
| NandEccCode.SingleFlipCorrected | devtools/sharpflash/nand_ecc.c:60-136 | flipping the position that the ECC spells out restores the block |
| NandEccCode.DoubleFlipDetected | devtools/sharpflash/nand_ecc.c:60-136 | any two flips, in data, in ECC or one in each, match none of the single-flip patterns |
| NandEccCode.MixedFlipsDetected | devtools/sharpflash/nand_ecc.c:60-136 | one flip in the data and one in the ECC: never taken for a single flip |
| Tap.Port.Pulse | devtools/sharpflash/jtag.c:37-55 | one pair of port writes is one clock of the controller of section 6.1 of IEEE Std 1149.1-2001 |
| Jtag.ResetApproaches | devtools/sharpflash/jtag.c:37-55 | every clock with TMS high brings any of the 16 states closer to Test-Logic-Reset |
| Jtag.Reset | devtools/sharpflash/jtag.c:37-55 | from any of the 16 states to Test-Logic-Reset with the identification instruction; from Run-Test/Idle no register is disturbed |
| Jtag.RunTestIdleState | devtools/sharpflash/jtag.c:57-71 | from any state to Run-Test/Idle |
| Jtag.ShiftIRState | devtools/sharpflash/jtag.c:73-110 | loads a four-bit instruction least significant bit first and ends in Run-Test/Idle |
| Jtag.ShiftDRState | devtools/sharpflash/jtag.c:112-139 | for every register length: the captured register comes back bit for bit, the written bits are latched, the rest of the array is untouched, and the controller ends in Run-Test/Idle |
| Jtag.ShiftDRStateNoTDO | devtools/sharpflash/jtag.c:141-165 | the same effect on the device without reading |
| Jtag.ShiftingStep | devtools/sharpflash/jtag.c:125-133 | after i shifts the register holds the rest of the captured bits followed by the first i written ones, and TDO shows captured bit i - 1 |
| Jtag.LoadIdInstruction | devtools/sharpflash/jtag.c:167-201 | the instruction "0111" is loaded from any state |
| Jtag.PackId | devtools/sharpflash/jtag.c:225-230 | bit i of the word is character i |
| Jtag.ReadId | devtools/sharpflash/jtag.c:167-231 | from any of the 16 states: exactly the 32-bit identification code, ending in Run-Test/Idle |
| NandBus.SetDataByte | devtools/sharpflash/pin2410.c:225-236 | the eight data cells hold the byte and no other cell changes |
| NandBus.GetDataByte | devtools/sharpflash/pin2410.c:268-281 | bit k of the result is data-in cell k |
| NandBus.Bus.Init | devtools/sharpflash/pin2410.c:36-196 | from any state of the device: the last vector put on the pins is the preloaded one with every pin high, it ends no bus cycle, and from Run-Test/Idle it is the only one |
| NandBus.Bus.Scan | devtools/sharpflash/jtag.c:141-165 | a scan puts the cells on the pins; the chip sees exactly the write and read edges between old and new control levels |
| NandBus.Bus.ScanAndSample | devtools/sharpflash/jtag.c:112-139 | a sampling scan returns the levels before the new ones are driven |
| NandBus.Bus.NfCmd | devtools/sharpflash/k9fxx08.c:477-499 | exactly one command cycle with this byte, back between cycles, no cell outside the NAND bus touched |
| NandBus.Bus.NfAddr | devtools/sharpflash/k9fxx08.c:502-525 | exactly one address cycle with the low byte |
| NandBus.Bus.NfWrData | devtools/sharpflash/k9fxx08.c:551-559 | exactly one data cycle with this byte |
| NandBus.Bus.NfRdData | devtools/sharpflash/k9fxx08.c:540-549 | exactly one read strobe, and the byte that the chip drives while nFRE is low |
| NandBus.Bus.NfFceLow | devtools/sharpflash/k9fxx08.c:528-531 | selects the chip without a bus cycle |
| NandBus.Bus.NfFceHigh | devtools/sharpflash/k9fxx08.c:534-537 | deselects the chip without a bus cycle |
| NandBus.Bus.NfWaitRb | devtools/sharpflash/k9fxx08.c:561-571 | terminates for every chip that is not busy for ever, without a bus cycle |
| NandBus.DataOutHeld | devtools/sharpflash/pin2410.c:225-236 | the byte on D[7:0] is the byte set in the cells |
| NandBus.WriteByCells | devtools/sharpflash/pin2410.h:31-47 | the write cycle that two pin vectors make, in cell numbers: data bit k is cell 98 - 2 k, CLE is 168, ALE is 169, nFWE is 170 |
| NandBus.ReadByCells | devtools/sharpflash/k9fxx08.c:540-549 | a read strobe is a fall of cell 171 with the data pins as inputs by cell 99 |
| NandBus.AnswerByCells | devtools/sharpflash/pin2410.h:31-47 | the answer of the chip is sampled in cells 100, 97, 95 and so on to 85, and it is ready when cells 167 and 229 are high |
| NandPage.NfWritePage | devtools/sharpflash/k9fxx08.c:375-412 | the pin trace decodes to 00, 80, three address cycles, 512 data cycles and 16 more when there is a spare buffer, 10, 70 and one status read; on a failure the block gets marked |
| NandPage.ProgramPage | devtools/sharpflash/k9fxx08.c:375-404 | the part up to the status, which is what the chip answers |
| NandPage.NfReadPage | devtools/sharpflash/k9fxx08.c:341-373 | the trace decodes to 00 and three address cycles followed by the read strobes, and the buffers hold the bytes the chip drove, in order; without a spare buffer the bad-block byte is read on its own |
| NandPage.NfMarkBadBlock | devtools/sharpflash/k9fxx08.c:313-339 | the trace decodes to the spare-area program cycles of the block (what they do to it: `NandWrite.MarkShows`) |
| NandPage.NfIsBadBlock | devtools/sharpflash/k9fxx08.c:281-311 | reads the mark of the first page, and returns that of the second when the first is 0xFF |
| NandPage.NfEraseBlock | devtools/sharpflash/k9fxx08.c:254-279 | a marked block other than 0 is refused without an erase cycle; otherwise the erase cycles are issued, and a failing block gets marked |
| NandPage.ReadBackAppend | devtools/sharpflash/k9fxx08.c:357-367 | two reads one after the other return consecutive bytes of the row |
| NandFlash.MarkReadEffect | devtools/sharpflash/k9fxx08.c:281-311 | the bad-block read cycles change no memory and yield byte 517 of the row |
| NandFlash.EraseEffect | devtools/sharpflash/k9fxx08.c:254-279 | the erase cycles set the whole block to 0xFF, or leave it and report a failure when the block is weak |
| NandFlash.ProgramEffect | devtools/sharpflash/k9fxx08.c:375-412 | the page program cycles clear bits of that row only, or leave it and report a failure when the row is a dud |
| NandFlash.PageReadEffect | devtools/sharpflash/k9fxx08.c:341-373 | the n-th read strobe of a page read yields byte n - 1 of the row, and no memory changes |
| NandFlash.MarkEffect | devtools/sharpflash/k9fxx08.c:313-339 | the mark cycles program the spare area of the first row of the block, if it can be programmed |
| NandWrite.MarkShows | devtools/sharpflash/k9fxx08.c:313-339 | the mark clears bits of byte 517 of the first row, which is then not 0xFF, and no other byte of the row |
| NandWrite.MarkAndErase | devtools/sharpflash/k9fxx08.c:254-339 | after `NF_MarkBadBlock` on a block whose first row can be programmed, `NF_IsBadBlock` returns something else than 0xFF, and `NF_EraseBlock` refuses every block but 0 and changes nothing |
| NandWrite.WeakBlockMarked | devtools/sharpflash/k9fxx08.c:254-279 | a block that fails to erase is seen as bad afterwards if and only if it was before or its first row can be programmed |
| NandWrite.SpoiledBlockMarked | devtools/sharpflash/k9fxx08.c:128-142 | a block that fails to take a page is seen as bad afterwards if and only if its first row can be programmed, or its second one can and has got a byte other than 0xFF at 517 |
| NandWrite.PageWritten | devtools/sharpflash/k9fxx08.c:128-138 | a page write to an erased row leaves exactly the data there, or leaves it erased and reports a failure when the row is a dud |
| NandWrite.WriteOnePage | devtools/sharpflash/k9fxx08.c:128-134 | one page write of the loop: the page in its row, or a block marked bad and an error |
| NandWrite.WritePages | devtools/sharpflash/k9fxx08.c:122-142 | the write error flag is set if and only if some row of the block cannot be programmed, and the memory is that of 32 page writes one after the other, each in place or marking the block |
| NandWrite.AfterPagesPlaces | devtools/sharpflash/k9fxx08.c:122-142 | without a failure the 32 pages of the chunk are in the 32 rows of the block and nothing else has changed |
| NandWrite.K9Fxx08Write | devtools/sharpflash/k9fxx08.c:88-164 | whenever the loop ends, whatever blocks are marked bad, fail to erase or fail to take a page: the memory is that of its rounds, in which block numbers from 1024 on reach the blocks from 0 on; with enough good blocks it is `Image` |
| NandWrite.GoodBlocksSuffice | devtools/sharpflash/k9fxx08.c:116-161 | with enough good blocks from the first one on, the loop ends before the end of the chip |
| NandWrite.EndsExactly | devtools/sharpflash/k9fxx08.c:116-161 | the loop ends if and only if it does so within one pass over the chip for each chunk |
| NandWrite.NoneEverCounted | devtools/sharpflash/k9fxx08.c:116-161 | once every block is marked bad or faulty no chunk is ever counted again, in any number of rounds |
| NandWrite.BootBlockOverwritten | devtools/sharpflash/k9fxx08.c:116-161 | with too few good blocks, a write from a later block on erases block 0 and puts its next chunk there, unless that block is marked bad or faulty |
| NandWrite.ChunksInOrder | devtools/sharpflash/k9fxx08.c:116-161 | page by page, the m-th good block holds chunk number `Tried`, the number of blocks that were erased and given a chunk before it |
| NandWrite.FileBytesInOrder | devtools/sharpflash/k9fxx08.c:116-161 | byte by byte: the m-th good block holds the bytes of the file from 0x4200 times its chunk number on, and zeros past its end |
| NandWrite.ChunkNumber | devtools/sharpflash/k9fxx08.c:116-161 | that is chunk m if and only if no block before it was erased and then failed to take a page |
| NandWrite.ChunkLost | devtools/sharpflash/k9fxx08.c:121-142 | the chunk read for a block that fails to take a page is in no good block |
| NandWrite.NthGoodIncreases | devtools/sharpflash/k9fxx08.c:116-161 | later chunks are in later blocks |
| NandWrite.RefusedBlocksKept | devtools/sharpflash/k9fxx08.c:143-150 | a refused block never receives chunk data: at most its first page gets the bad-block mark |
| NandWrite.ImageKeepsEarlier | devtools/sharpflash/k9fxx08.c:116-161 | blocks behind the loop are not written again |
| NandWrite.WriteAndReadPage | devtools/sharpflash/k9fxx08.c:341-412 | a page written to an erased good row by `NfWritePage` and read by `NfReadPage` comes back, all 528 bytes |
| GetPart.PageWithEcc | devtools/sharpflash/getpart.c:82-89 | one round of the loop yields the 512 bytes at its position, 0xFF past the end of the image, their ECC and thirteen bytes 0xFF |
| GetPart.GetPart | devtools/sharpflash/getpart.c:58-89 | byte i of the partition is at 528 (i / 512) + i % 512 of the output, 0xFF past the end of the image; every page is followed by its own ECC; misaligned arguments yield nothing |
| GetPart.FlashedPagesCarryEcc | devtools/sharpflash/getpart.c:82-89 | an extracted partition written by `K9Fxx08Write`: page q of the m-th good block carries page q of source chunk `Tried` and its ECC if and only if the partition has such a chunk |
| GetPart.FlashedByte | devtools/sharpflash/getpart.c:82-89 | byte k of page q of the m-th good block is byte 0x4000 t + 512 q + k of the partition, t being its chunk number |
| GetPart.PageSurvivesFlip | devtools/sharpflash/getpart.c:82-89 | a row that carries its ECC: after any single flip in the page or the stored ECC, the page is restored |
| Ring.Push | kernel/linux_bast/reciva/reciva_uart.c:177-179 | storing at the write index appends to the unread bytes |
| Ring.Masks | kernel/linux_bast/reciva/reciva_uart.c:231-240 | `& (BUF_SIZE-1)` wraps the index |
| UartTx.Transmitter.Append | kernel/linux_bast/reciva/reciva_uart.c:174-180 | the byte joins the end of the queue; the line keeps carrying a prefix of the frames of the accepted bytes, also when a start bit has gone out early |
| UartTx.Transmitter.Kick | kernel/linux_bast/reciva/reciva_uart.c:408-415 | starts the timer if it does not run |
| UartTx.Transmitter.ClockBitOut | kernel/linux_bast/reciva/reciva_uart.c:256-293 | exactly the next level of the frames of the accepted bytes goes out |
| UartTx.Transmitter.Tick | kernel/linux_bast/reciva/reciva_uart.c:320-333 | one level per interrupt; the timer stays on exactly while levels are pending |
| UartTx.Transmitter.Ticks | kernel/linux_bast/reciva/reciva_uart.c:320-333 | any number of interrupts: the line only grows, by one pending level each, and none comes after the last |
| UartTx.Transmitter.Drain | kernel/linux_bast/reciva/reciva_uart.c:320-333 | left alone, the transmitter sends exactly the frames of all accepted bytes, in 10 interrupts a byte, and stops |
| UartTx.Transmitter.WriteInternal | kernel/linux_bast/reciva/reciva_uart.c:170-189 | for every placement of timer interrupts, on a transmitter that is idle, busy or one start bit ahead: exactly how many bytes are accepted, which are the first ones in order, and how many levels are then left to send; it stops short only at a full ring, and the timer runs afterwards |
| UartTx.AmountBounds | kernel/linux_bast/reciva/reciva_uart.c:170-189 | a write accepts at least what there is room for at its start, and no more when no interrupt comes meanwhile |
| UartTx.Transmitter.AppendThenKick | kernel/linux_bast/reciva/reciva_uart.c:174-186 | timer interrupts between the last append and the kick: the timer ends up running on an empty ring if and only if it was running before and they drain the ring |
| UartTx.Transmitter.StrayInterrupt | kernel/linux_bast/reciva/reciva_uart.c:256-333 | what a timer that runs on an empty ring does: it sends one start bit ahead of its byte and stops, in a state from which the next write continues the sequence of levels with that byte's data bits |
| UartTx.FrameAt | kernel/linux_bast/reciva/reciva_uart.c:256-293 | level 10 k + j of the line is level j of the frame of byte k |
| UartTx.DeframeFrames | kernel/linux_bast/reciva/reciva_uart.c:256-293 | a receiver reads exactly the framed bytes back off the line |
| UartRx.Receiver.SendMsgToRxDriver | kernel/linux_bast/reciva/reciva_uart.c:382-402 | takes the characters before the carriage return, and the carriage return |
| UartRx.Receiver.ProcessUartRxData | kernel/linux_bast/reciva/reciva_uart.c:365-377 | stores a character and, at a carriage return, delivers a line |
| UartRx.DeliversLines | kernel/linux_bast/reciva/reciva_uart.c:365-402 | the strings delivered are the stream split at carriage returns, each once and in order, if and only if every complete line has at most 1022 characters; the unread ring is then the partial line |
| UartRx.SyncedChar | kernel/linux_bast/reciva/reciva_uart.c:365-377 | an ordinary character joins the partial line |
| UartRx.SyncedCr | kernel/linux_bast/reciva/reciva_uart.c:382-402 | a carriage return delivers the partial line and empties the ring |
| UartRx.LongLineLost | kernel/linux_bast/reciva/reciva_uart.c:382-402 | a line too long for the ring is delivered as something else |
| UartRx.DeliveriesGrow | kernel/linux_bast/reciva/reciva_uart.c:382-402 | one delivery per carriage return, and none is taken back |
| SerialDriver.EncodeLine | kernel/linux_bast/reciva/reciva_slave_mode_driver_serial.c:152-181 | two lower-case hex digits a byte, the high one first, and a final carriage return |
| SerialDriver.Digits | kernel/linux_bast/reciva/reciva_slave_mode_driver_serial.c:160-223 | the digits written are 0 to 9 and a to f; read are those and A to F, each at its value, and any other character as 0 |
| SerialDriver.HexIsRead | kernel/linux_bast/reciva/reciva_slave_mode_driver_serial.c:216-227 | hexadecimal text in any mixture of cases is read as the bytes it spells |
| SerialDriver.HexRoundTrip | kernel/linux_bast/reciva/reciva_slave_mode_driver_serial.c:160-227 | decoding the text of a message yields the message |
| SerialDriver.DecodeInPlace | kernel/linux_bast/reciva/reciva_slave_mode_driver_serial.c:216-227 | decoding in place yields the value of the text as it was before the first write |
| SerialDriver.UartRxData | kernel/linux_bast/reciva/reciva_slave_mode_driver_serial.c:203-232 | a command exactly when the string is not empty and has even length; hexadecimal text in either case yields the bytes it spells |
| SerialDriver.LineIsCommand | kernel/linux_bast/reciva/reciva_slave_mode_driver_serial.c:152-232 | the text of every non-empty message comes back as a command with exactly its bytes |
| SerialLink.Transmit | kernel/linux_bast/reciva/reciva_uart.c:170-333 | as much of a line as the ring holds, queued on an idle transmitter, goes out as its frames and leaves it idle |
| SerialLink.ReceivedLine | kernel/linux_bast/reciva/reciva_uart.c:365-402 | the receiver delivers the text of a line of up to 511 bytes, and nothing before its carriage return |
| SerialLink.Deliver | kernel/linux_bast/reciva/reciva_slave_mode_driver_serial.c:152-232 | end to end on idle drivers: a message of 1 to 511 bytes arrives as exactly one command with exactly its bytes, and any other causes none |
| SerialLink.DeliverAll | kernel/linux_bast/reciva/reciva_slave_mode_driver_serial.c:152-232 | any number of messages, each queued while earlier ones may still be going out, with timer interrupts before every byte and after every call: in the end the commands are exactly the messages, once and in order, if and only if the ring had room for every line when it was queued and every message has 1 to 511 bytes |
| SerialLink.StreamLines | kernel/linux_bast/reciva/reciva_slave_mode_driver_serial.c:177-178 | the bytes accepted from a sequence of writes have a line for each write that is accepted whole, and are exactly the lines of the messages when all are |
| SerialLink.BackToBack | kernel/linux_bast/reciva/reciva_slave_mode_driver_serial.c:177-178 | two messages written back to back both get through the ring if and only if they have at most 510 bytes together |
| I2cSlave.Buffer.Read | kernel/linux_bast/reciva/reciva_i2c_slave.c:205-210 | the oldest unread byte is removed |
| I2cSlave.Buffer.Write | kernel/linux_bast/reciva/reciva_i2c_slave.c:215-219 | the byte is appended; a full ring appears empty afterwards |
| I2cSlave.Buffer.DataInBuffer | kernel/linux_bast/reciva/reciva_i2c_slave.c:224-232 | the number of unread bytes |
| I2cSlave.KeptWhole | kernel/linux_bast/reciva/reciva_i2c_slave.c:176-232 | a ring keeps exactly the sequences that are shorter than it |
| I2cSlave.HighByteIsZero | kernel/linux_bast/reciva/reciva_i2c_slave.c:274-284 | the high byte of a length that went through a char is 0 |
| I2cSlave.Slave.SlaveTx | kernel/linux_bast/reciva/reciva_i2c_slave.c:254-334 | every branch: length bytes, end of the length read, data bytes, end of the reply, switching off, waiting for a reply |
| I2cSlave.Slave.Interrupt | kernel/linux_bast/reciva/reciva_i2c_slave.c:533-579 | a master write resets the reply state and stores the byte; a master read goes to `SlaveTx` |
| I2cSlave.Slave.Read | kernel/linux_bast/reciva/reciva_i2c_slave.c:363-383 | hands over the oldest unread bytes, at most `count` |
| I2cSlave.Slave.FillTxBuffer | kernel/linux_bast/reciva/reciva_i2c_slave.c:396-401 | the reply is in the ring whatever byte the read address arrives at |
| I2cSlave.Slave.StartIfWaiting | kernel/linux_bast/reciva/reciva_i2c_slave.c:408-414 | a read address that has waited gets its first length byte, and otherwise nothing happens |
| I2cSlave.Slave.SetExitOnTxEnd | kernel/linux_bast/reciva/reciva_i2c_slave.c:515-528 | refused exactly when a reply is in place |
| I2cSlave.Slave.Reset | kernel/linux_bast/reciva/reciva_i2c_slave.c:493-510 | empties both rings, and listens again unless a last reply is pending |
| I2cLink.WholeReply | kernel/linux_bast/reciva/reciva_i2c_slave.c:274-324 | what the master gets is the reply if and only if it has at most 255 bytes and the slave withholds none of them but bytes 0xFF; its reported length is right if and only if it has at most 255 |
| I2cLink.DataByteStage | kernel/linux_bast/reciva/reciva_i2c_slave.c:298-324 | byte i of the reply goes out and the next one waits in the data register, or the slave is back in receive mode |
| I2cLink.Master.Send | kernel/linux_bast/reciva/reciva_i2c_master.c:209-216 | the slave stores the whole command and forgets any earlier reply; a slave that does not listen does not acknowledge |
| I2cLink.Master.TakeLength | kernel/linux_bast/reciva/reciva_i2c_master.c:227-228 | the length is the two bytes, high one first |
| I2cLink.Master.Events | kernel/linux_bast/reciva/reciva_i2c_master.c:218-234 | any number of bus events of the two reads: address, length bytes, address, reply bytes, each in its turn, and none after the last |
| I2cLink.Master.Exchange | kernel/linux_bast/reciva/reciva_i2c_master.c:218-234 | `reciva_write` of the slave against the two reads, for every way in which the bus events fall before, into and after it: what the master reads, and that the slave is back in receive mode if and only if it stops in time |
| I2cLink.Master.Write | kernel/linux_bast/reciva/reciva_i2c_master.c:196-243 | a whole cycle, for every command, reply and placement of the bus events: the application sees the command; exactly when the reply arrives whole; exactly when the slave listens again; a slave that does not listen leaves everything as it was |
| I2cLink.Master.Serve | kernel/linux_bast/reciva/reciva_i2c_master.c:196-243 | a run of any cycles: every command reaches the application, whole exactly when it has at most 1023 bytes, and every reply its master, whole exactly when its own cycle lets it, up to the first cycle after which the slave keeps transmitting; from then on no command is acknowledged |
| I2cLink.SlaveKeepsTransmitting | kernel/linux_bast/reciva/reciva_i2c_slave.c:403-407 | a concrete run: the second reply is shorter than the first and is read before `tx_length` is set; it arrives whole, and the third command is never acknowledged |
| I2cLink.StaleLengthLosesReply | kernel/linux_bast/reciva/reciva_i2c_slave.c:403-407 | a concrete reply that is lost because its data is asked for before `tx_length` is set |
| Keypad.StableScan | kernel/linux_bast/reciva/reciva_keypad_generic.c:1030-1087 | with the matrix at rest and the pins not lent during the scan, it reports the highest-numbered pressed column of the row, and nothing exactly when none is pressed |
| Keypad.LentScan | kernel/linux_bast/reciva/reciva_keypad_generic.c:324-327 | a scan whose pins were lent to the LCD reports the last column for any key of the row |
| Keypad.ScanIsRight | kernel/linux_bast/reciva/reciva_keypad_generic.c:316-364 | with the matrix at rest a scan is right if and only if the pins were not lent, or the key in the last column is pressed, or no key of the row is |
| Keypad.BouncingScan | kernel/linux_bast/reciva/reciva_keypad_generic.c:1030-1087 | one key with a bouncing contact: exactly when it is reported, and exactly when a three-column keypad reports column 0 in its place |
| Keypad.LateContact | kernel/linux_bast/reciva/reciva_keypad_generic.c:1030-1087 | a concrete contact that closes for the fourth turn only: the key of column 2 is reported as that of column 0 |
| KeypadDriver.Driver.constructor | kernel/linux_bast/reciva/reciva_keypad_generic.c:584-706 | the state at the end of `reciva_keypad_init`, before it looks for an initial key: idle with all row interrupts enabled |
| KeypadDriver.Driver.CheckAtInit | kernel/linux_bast/reciva/reciva_keypad_generic.c:716-718 | a key that is down at the end of the initialisation starts a scan of its row, whatever row interrupt comes at the same time |
| KeypadDriver.Driver.DisableInterrupts | kernel/linux_bast/reciva/reciva_keypad_generic.c:377-386 | every row interrupt is disabled once more |
| KeypadDriver.Driver.StartScan | kernel/linux_bast/reciva/reciva_keypad_generic.c:1014-1028 | idle to scanning: interrupts disabled, timer set, first column low |
| KeypadDriver.Driver.IntHandler | kernel/linux_bast/reciva/reciva_keypad_generic.c:904-918 | starts a scan exactly when idle |
| KeypadDriver.Driver.RowInterrupt | kernel/linux_bast/reciva/reciva_keypad_generic.c:904-918 | an enabled row interrupt keeps the ownership invariant |
| KeypadDriver.Driver.EnableInterrupts | kernel/linux_bast/reciva/reciva_keypad_generic.c:366-375 | a row interrupt at any point of the call leaves every depth at 1 and a scan under way; none leaves every depth at 0 |
| KeypadDriver.Driver.ScanColumns | kernel/linux_bast/reciva/reciva_keypad_generic.c:1030-1087 | the loop computes `Scan`, from whatever columns the first turn finds driven |
| KeypadDriver.Driver.ScanForKey | kernel/linux_bast/reciva/reciva_keypad_generic.c:1030-1100 | key-down and waiting for the release, or a failed scan; a scan that was lent starts with all columns low |
| KeypadDriver.Driver.AwaitRelease | kernel/linux_bast/reciva/reciva_keypad_generic.c:1102-1120 | released only after three samples in a row |
| KeypadDriver.Driver.BackToIdle | kernel/linux_bast/reciva/reciva_keypad_generic.c:1122-1134 | one key-up, and the ownership invariant even when a row interrupt strikes at once |
| KeypadDriver.Driver.TimerExpires | kernel/linux_bast/reciva/reciva_keypad_generic.c:992-1145 | the state machine in every state, with the event it logs |
| KeypadDriver.Driver.AccessRequest | kernel/linux_bast/reciva/reciva_keypad_generic.c:273-309 | the LCD gets the pins with all row interrupts disabled and no timer pending |
| KeypadDriver.Driver.CheckForKeypress | kernel/linux_bast/reciva/reciva_keypad_generic.c:391-427 | from idle, a row that reads low leads to a scan of the lowest such row, or of the row whose interrupt strikes first, on its pin GPG8 to GPG11; the interrupt depths balance |
| KeypadDriver.Driver.AccessRelease | kernel/linux_bast/reciva/reciva_keypad_generic.c:316-364 | the ownership invariant is back for every race, with all columns low; a key that is down is not lost, and which row is scanned; a busy state machine goes on with its row, key and count |
| KeypadDriver.Run | kernel/linux_bast/reciva/reciva_keypad_generic.c:273-427 | over every run of interrupts, timer, requests and releases: the state and the log are those of the transition function `AfterInputs`; row interrupts are enabled exactly when idle and not lent out, the timer is pending exactly when busy and not lent out, and the log is admissible |
| KeypadDriver.ScanAtRest | kernel/linux_bast/reciva/reciva_keypad_generic.c:316-364 | in every run, a scan of a matrix at rest logs the highest pressed key of the row, or a failure, if and only if the pins were not lent during it, or the key in the last column is pressed, or no key of the row is |
| KeypadDriver.LostKeypress | kernel/linux_bast/reciva/reciva_keypad_generic.c:316-427 | a key that is down when an idle driver gets its pins back: for every placement of row interrupts the next timer logs the highest pressed key of the row that is found |
| KeypadDriver.LostKeypressOfRow2 | kernel/linux_bast/reciva/reciva_keypad_generic.c:391-427 | a concrete release with the key of row 2, column 1 held: GPG10 is scanned and that key is logged |
| KeypadDriver.LentScanReportsWrongKey | kernel/linux_bast/reciva/reciva_keypad_generic.c:316-364 | a concrete run: interrupt, request, release, timer; only the key of column 0 is pressed and column 2 is reported |
| KeyLog.BetweenDowns | kernel/linux_bast/reciva/reciva_keypad_generic.c:1014-1134 | between two key-downs there is one key-up more than there were failed scans, so exactly one if and only if no scan failed |
| KeyLog.UpsAreEarned | kernel/linux_bast/reciva/reciva_keypad_generic.c:1102-1134 | a key-up names the key that last went down; unless a scan just failed it follows three released samples and is the first |
| KeyLog.ThreeSamplesEndTheWait | kernel/linux_bast/reciva/reciva_keypad_generic.c:1102-1120 | no more than three released samples ever come in a row |
| KeyLog.HistorySnoc | kernel/linux_bast/reciva/reciva_keypad_generic.c:992-1145 | a log stays admissible event by event |
| KeypadDriver.SpuriousKeyUp | kernel/linux_bast/reciva/reciva_keypad_generic.c:1092-1134 | a concrete run in which a bounce reports the same key up twice |
| Quad.Decoder20.DoQuad | kernel/linux_bast/reciva/reciva_quad_piher_20pulse.c:241-288 | one sample of the 20-pulse decoder |
| Quad.Decoder20.IntHandler | kernel/linux_bast/reciva/reciva_quad_piher_20pulse.c:206-215 | the state is that of the run over all samples so far |
| Quad.DecoderCi11.DoQuad | kernel/linux_bast/reciva/reciva_quad_piher_ci11.c:209-250 | one sample of the ci11 decoder |
| Quad.DecoderCi11.IntHandler | kernel/linux_bast/reciva/reciva_quad_piher_ci11.c:174-183 | the state is that of the run over all reads so far, the two reads of an interrupt kept apart |
| Quad.DecodersSimulate | kernel/linux_bast/reciva/reciva_quad_piher_ci11.c:209-250 | over every run the ci11 decoder remembers what the 20-pulse decoder with threshold 2 has counted once, and reports the same |
| Quad.DecodersAgree | kernel/linux_bast/reciva/reciva_quad_piher_ci11.c:174-250 | decoders on the same shaft have reported the same if the two reads of every interrupt were harmless |
| Quad.SplitReads | kernel/linux_bast/reciva/reciva_quad_piher_ci11.c:174-250 | over every run, the reports of the two decoders cannot be told apart at any prefix if and only if at every interrupt the two reads are equal, or one is the old sample and the other has both pins changed |
| Quad.SplitReadLosesPulse | kernel/linux_bast/reciva/reciva_quad_piher_ci11.c:174-183 | a concrete pin that moves between the two reads of one interrupt and loses a pulse |
| Quad.RunLengthLaw | kernel/linux_bast/reciva/reciva_quad_piher_20pulse.c:241-288 | for every threshold and every sequence the reports are those of the maximal runs, one after the other |
| Quad.ThresholdsThatDivide | kernel/linux_bast/reciva/reciva_quad_piher_20pulse.c:259-281 | turning the shaft n steps reports n divided by the threshold times, for every n, if and only if the threshold is at least 2 |
| Quad.BounceIsSilent | kernel/linux_bast/reciva/reciva_quad_piher_20pulse.c:241-288 | bounce that never repeats a direction never reports |
| Quad.PathReversed | kernel/linux_bast/reciva/reciva_quad_piher_20pulse.c:247-256 | the same path sampled backwards yields the opposite directions in opposite order |
| Quad.ReversalSwaps | kernel/linux_bast/reciva/reciva_quad_piher_20pulse.c:241-288 | backwards directions report as often, in the opposite direction |
| Quad.TurningBack | kernel/linux_bast/reciva/reciva_quad_piher_20pulse.c:206-288 | a shaft turned back along its path reports as often, in the opposite direction |
| Bitmap.ReadByteBits | kernel/linux_bast/reciva/reciva_lcd_tm13264cbcg.c:2781-2802 | bit i is source bit offset + i for i below count, across the byte boundary, and 0 above; a count over 8 yields 0; a byte beyond the buffer that the code looks at does not matter |
| Bitmap.FlipBits | kernel/linux_bast/reciva/reciva_lcd_tm13264cbcg.c:2868-2883 | bit i of the mirror image is bit 7 - i |
| Bitmap.FlipTwice | kernel/linux_bast/reciva/reciva_lcd_tm13264cbcg.c:2868-2883 | mirroring twice changes nothing |
| PadBitmap.PadColumn | kernel/linux_bast/reciva/reciva_lcd_tm13264cbcg.c:2840-2853 | every page of the column holds its pixels moved down, blank above and below, and nothing outside the column is left changed; exactly when the byte after the buffer is looked at |
| PadBitmap.PadOneColumn | kernel/linux_bast/reciva/reciva_lcd_tm13264cbcg.c:2831-2854 | the same with the short branch, whose displacement is another |
| PadBitmap.Pad | kernel/linux_bast/reciva/reciva_lcd_tm13264cbcg.c:2804-2856 | all columns at once, none clobbered by a later one; an aligned bitmap is returned as it is; exactly when the code looks at the byte after the buffer |
| PadBitmap.PaddedPicture | kernel/linux_bast/reciva/reciva_lcd_tm13264cbcg.c:2804-2856 | every pixel of the padded bitmap: the source pixel moved down, or blank |
| PadBitmap.PictureKept | kernel/linux_bast/reciva/reciva_lcd_tm13264cbcg.c:2835-2853 | the picture is kept if and only if height + top % 8 >= 8, or top % 8 is 4, or the bitmap is blank |
| PadBitmap.DisplacedPicture | kernel/linux_bast/reciva/reciva_lcd_tm13264cbcg.c:2835-2838 | a concrete bitmap of height 4 at row 1 whose first pixel lands in row 7 |
| DisplayBuffer.SetDisplayByte | kernel/linux_bast/reciva/reciva_lcd_tm13264cbcg.c:3077-3082 | eight pixels of one column change, columns wrapping around the width, and no other pixel |
| Panel.Command | src/include/reciva-257a181/reciva_lcd_tm13264cbcg.h:37-40 | a command and its masked argument are one byte with two nibbles |
| Panel.PagePanel.Control | kernel/linux_bast/reciva/reciva_lcd_tm13264cbcg.c:2914-2918 | how a panel takes the page and column commands |
| Panel.PagePanel.Data | kernel/linux_bast/reciva/reciva_lcd_tm13264cbcg.c:2920-2926 | how a panel takes a data byte |
| Panel.DrawPage | kernel/linux_bast/reciva/reciva_lcd_tm13264cbcg.c:2902-2965 | one page of the panel gets one row of pages, mirrored where the mode says so |
| Panel.DrawPages | kernel/linux_bast/reciva/reciva_lcd_tm13264cbcg.c:2902-2965 | every row of pages reaches its own page and the rest of the memory is untouched |
| Panel.PanelRowTwice | kernel/linux_bast/reciva/reciva_lcd_tm13264cbcg.c:2899-2952 | each mode permutes the rows of its display; the permutation is its own inverse |
| Panel.PanelRowIs | kernel/linux_bast/reciva/reciva_lcd_tm13264cbcg.c:2899-2952 | in numbers: row y of CONFIG985 is panel row 31 - y in the upper half and 95 - y in the lower one, row y of CONFIG983 is 8 rowMax - 1 - y, and every other mode keeps y; that is where the table of pages and the mirrored bytes put it |
| Panel.PanelColumnIs | kernel/linux_bast/reciva/reciva_lcd_tm13264cbcg.c:2934-2935 | CONFIG985 draws from column 0, every other mode from the left of the bitmap |
| Panel.DrawBitmap | kernel/linux_bast/reciva/reciva_lcd_tm13264cbcg.c:2888-3008 | for all page-addressed modes: every pixel of the bitmap is on the panel pixel of its row and column by `PanelRow` and `PanelColumn`, the rest of these rows is blank, and all others are untouched; the picture is at its own top row if and only if `pad_bitmap` does not displace it |
| GreyPanel.Ssd0323.Control | kernel/linux_bast/reciva/reciva_lcd_tm13264cbcg.c:2974-2982 | the window commands of the SSD0323 |
| GreyPanel.Ssd0323.Data | kernel/linux_bast/reciva/reciva_lcd_tm13264cbcg.c:2999 | a data byte at the position, which advances in the window |
| GreyPanel.TwoPixels | kernel/linux_bast/reciva/reciva_lcd_tm13264cbcg.c:2989-2997 | two neighbouring pixels, the left one in the high nibble; at an odd width the right half of the last byte is arbitrary |
| GreyPanel.DrawRow | kernel/linux_bast/reciva/reciva_lcd_tm13264cbcg.c:2972-3000 | one row of pixels |
| GreyPanel.DrawRows | kernel/linux_bast/reciva/reciva_lcd_tm13264cbcg.c:2972-3001 | all rows, bottom row first |
| GreyPanel.DrawBitmap | kernel/linux_bast/reciva/reciva_lcd_tm13264cbcg.c:2966-3003 | pixel (x, y) is at row height - 1 - y with level 15 or 0, and the rest is untouched |
| GreyPanel.DrawOnBoth | kernel/linux_bast/reciva/reciva_lcd_tm13264cbcg.c:2888-3008 | one bitmap drawn on a page-addressed panel and on the grey panel: counterpart pixels are lit alike, and for a display buffer they are its pixels at the same (x, y) |

## Left out

- K9Fxx08_read: it advances the block number twice in each round, so it does not read back what was written.
- Chips of more than 1024 blocks: the third address cycle carries seven row bits, so higher blocks alias lower ones.
- Partial failures: in the flash model a block that fails to erase and a row that fails to program keep their contents.
- NF_CheckId and NF_Reset, baud changes, DMA, power and clock setup: straight-line register sequences.
- Delays, the parallel port's own registers, input pins and pull-ups, module loading and unloading.
- S2410_InitCell: the pin settings that do not concern the NAND bus.
- UartTx.Transmitter.WriteInternal: the last append and the kick are one step; `AppendThenKick` and `StrayInterrupt`
  say when interrupts between them matter and what they do.
- Factoring: private methods split some source functions (packing loops, bus-cycle halves, keypad states, columns)
  and globals are fields of one class; aliasing between drivers is excluded.
- UartTx.Transmitter.StrayInterrupt: levels carry no time, so the low level that lasts until the next write is one
  start bit here; a receiver with its own clock takes it for a break.
- UartRx.DeliversLines: no concurrent `uart_read` and a driver registered from the start.
- I2cLink.Master.Write: one reply per command, written after the application has read the command, and no new command
  before the reads of the reply.
- Panel.DrawBitmap: the bitmap lies inside the panel; the source does not clip, and what a controller does with pages
  and columns that it does not have is not in the source.
- GreyPanel.DrawBitmap: a width of at most 128 and a height of at most 64, as that display has, for the same reason.
- The column pins of KEY_CONFIG_4x4_2 with pins that are not shared: `set_columns` and the pin setup name different
  pins there.
- The standalone key of KEY_CONFIG_3x3_PLUS_1, the power-on key, the key code tables, nested `rkg_access_request`.
- KeypadDriver.Driver.ScanNow: the two reads after a short delay are numbered reads of a board that may change in
  between.
- `copy_to_user` failures, wait queues, ioctl dispatch, spin locks as blocking objects, printing.
- Fonts, icons, clock, barcode and text drawing, and the ateam, mg1203d and tianma drivers.
- patchserver, dm9601 and si4700: network, windows and the USB and I2C cores.
