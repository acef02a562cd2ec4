# Verification of the MemryX driver's self-contained algorithms

A Dafny 4.11 model of the algorithms inside the MemryX accelerator driver, its Python module and its
flash tool, and proofs about them. `dafny verify dfyconfig.toml` checks everything.

What is modelled, by file:

| files | subject |
|---|---|
| `bytes_as_numbers`, `float32`, `gbf_lane`, `gbf_packet`, `gbf_codec`, `gbf_decode`, `gbf_laws`, `gbf_error`, `slices` | the GBF80 block floating-point codec on bit vectors: in-place rounding, alignment, packing, the encoder loop, the three decoders, and the codec's laws |
| `tensor`, `dummy_channels`, `tensor_decode`, `bf16` | the tensor walkers with row padding and dummy channels, and the 16-bit conversions |
| `xflow` | register access to up to 16 chips over window registers, directly or through chip 0 |
| `crc32`, `crc32_detection`, `crc32_laws`, `firmware_check` | the table-driven CRC-32 (RFC 1952, section 8) and the check of firmware images |
| `little_endian`, `usb_receiver`, `usb_link`, `dfp`, `dfp_format`, `dfp_errors` | USB packets, the walk over a compiled model, and the device at the other end |
| `dma_device`, `dma`, `dma_controller`, `dma_engine` | linked DMA descriptors, the two-channel split, and the controller |
| `flash` | erasing and programming a NOR flash |
| `device_list`, `fw_log`, `rx_queue`, `rx_runs`, `rx_progress`, `role_scan` | minor numbers, the firmware log ring, receive notifications, chip roles |

Code that changes buffers, registers or lists is written as methods over arrays and classes, each proved
against a specification function; the properties are lemmas about those functions. State machines over
atomic steps stand for concurrency (`fw_log`, `rx_runs`).

## Assumptions about hardware and environment

- XFLOW: an access to a chip's window reaches base plus offset (modulo 2^32) in the chip's current mode,
  and addresses on chip 0's non-MPU bus from 0x60000000 on reach the registers and windows of the other
  chips. Behind the end of a window the next window of the map follows, but an access that is not wholly inside
  its BAR reaches nothing. BAR sizes are multiples of 16. Memory is a word for each chip, mode and address, and an
  unaligned word is decoded by its first byte.
- NOR flash: erasing sets a whole aligned sector or block, programming can only clear bits and wraps in its
  256-byte page, and both happen only with the write-enable latch set, which they clear.
- DMA controller: it obeys a write to its enable register that sets a channel's bit and the bit eight higher, if it is
  on and the channel has been set to linked lists on both sides and to memory-to-memory transfers; it then follows the
  descriptors in memory from the address in the channel's link register. A valid descriptor for 32-bit words and rising
  addresses moves its word count plus one words and leads to its link, unless its last bit is set. Descriptors that are
  in memory when the channel is enabled are not changed before it is done.
- USB device: it takes a header only when it is idle, collects the bytes announced, and is idle again only after the
  closing command and an empty packet.
- Firmware log: the firmware keeps its write position inside the ring and never has more than the ring size
  less one bytes outstanding.
- `copy_from_user` fails exactly when the range reaches beyond the mapped buffer. USB submissions succeed.
- Spin-locked sections and accesses to one flag are atomic; an abort holds the queue's lock while it skips bytes one by one.

## Where the code differs from its comments or from what one might expect

- `memx_fw_init.c` says that the first unconfigured chip ends the role scan; its `break` only ends the switch,
  so all 16 chips are looked at (`RoleScan.ChipInfo.Init`). The comment is right exactly for boards without a
  configured chip behind a gap (`RoleScan.EndsAtUnconfigured`, `RoleScan.GapInTheMiddle`).
- The guard of the dummy-channel loop compares with the packed channel count, not with the length of the index
  list, so the entry behind the list is read too (`DummyChannels.TerminatorDecides`,
  `DummyChannels.UnterminatedList`).
- A transfer whose last slice is one to three bytes gives a word count that wraps to 2^32
  (`DmaController.ChainCovers`, `DmaController.OneByteTooMany`).
- `qspi_writeflash` ignores a failed write-enable, so `update_qspi_firmware` goes on although a transfer is lost
  (`Flash.Nor.Update`, `Flash.LoseFirstTransfer`); it also has no return statement on success, which is modelled as success.
- `update_qspi_firmware` programs four bytes more than the image. When the image ends on a 16 KB boundary, or up to three
  bytes before one, they fall on flash that has not been erased (`Flash.ProgramsUnerased`).
- The AVX2 power table holds 384 instead of 128 for seven leading zeros; the extra bit is masked off
  (`GbfDecoder.Avx2IsPortable`).
- `memx_xflow.c` adds the window offset without a check. A chip-0 access whose target is in the relay window reaches
  another chip (`Xflow.RelayTakesOver`), an offset of 4 MB or more leaves the chip's window, differently on the two
  paths (`Xflow.OneWindowTooFar`), and in 4-BAR mode, where the window BAR has 512 KB, offsets from 0x80000 on reach
  nothing (`Xflow.BehindTheBar`).
- Probing accepts BARs that do not hold the registers of every accepted chip: 64 MB of windows with 16 MB of registers
  leave chips 4 to 15 without settable registers (`Xflow.RegistersBehindTheBar`), and the size of BAR 0 is not looked
  at in the 128 MB mode (`Xflow.ReachByMode`). Apart from these cases every access is flat (`Xflow.WriteIsFlat`,
  `Xflow.ReadIsFlat`, `Xflow.ReachIsExact`).
- A read whose copy to user space fails has taken an id that nobody gets (`RxRuns.DeliveredIsGot`,
  `RxRuns.CopyLosesAnId`). An abort sets its flag before it takes the lock, so a reader can use the abort up first
  (`RxRuns.FlushedBehindTheFlag`).
- The firmware log's print loop does not end when a print call returns -2 (`FwLog.StuckForEver`,
  `FwLog.EndsExactly`).
- The last one to three bytes of a write whose size is not a multiple of four are not moved, or the second channel runs
  away (`DmaController.SplitMovesBytes`).
- A group that holds 0.0 beside any value with an exponent of 32 or more, such as 1.0, makes the encoder shift by more
  than 31 (`GbfLaws.ZeroInGroup`, `GbfLaws.ZeroBesideOne`).
- `memx_insert_device` does not set the major number of a device that gets minor number 0.
- `memx_crc32` returns 0 when it cannot allocate its table, and an image that stores 0 then passes
  (`FirmwareCheck.Check`).

## Model

| member | source | states |
|---|---|---|
| Float32.RoundingMeaning | pymodule/convert.h:89-96 | rounding in place adds one to the 15-bit exponent-mantissa code when the dropped half is at least 0x8000, carrying into the exponent; only the largest code wraps, to 0 with the sign flipped |
| Float32.RoundedStays | pymodule/convert.h:93-94 | a rounded word is rounded, and rounding it again changes nothing |
| Float32.ComposeOfFields | pymodule/convert.h:51-56 | a rounded word is exactly its sign, exponent and mantissa |
| GbfLane.AlignedIsQuotient | pymodule/convert.h:71-83 | for shifts 1 to 7 the stored mantissa is the significand 128 + m divided by 2^shift, rounded half up, and never zero |
| GbfLane.LargeShift | pymodule/convert.h:79-82 | for shifts 8 to 31 the stored mantissa is zero |
| GbfLane.SaturatedSubtract | pymodule/convert.h:227-232 | the masked 8-bit difference is the difference cut off at zero |
| GbfLane.NormalisedMantissa | pymodule/convert.h:204-222 | shifting by the table's leading-zero count gives a significand from 128 to 255 |
| GbfLane.ExactLane | pymodule/convert.h:98-118 | a lane with the group exponent comes back bit for bit |
| GbfLane.LaneRoundTrip | pymodule/convert.h:71-118 | one lane through encode and decode: sign kept and code rounded half up to a multiple of 2^shift for shifts up to 7, the zero word for 8 to 31; the stored mantissa is zero exactly beyond 7, and the decoder's subtraction never saturates |
| GbfPacket.StoresMakePacket | pymodule/convert.h:107-193 | the bit-field stores of one group leave exactly the packed value, whatever the ten bytes held before |
| GbfPacket.FieldsOfPack | pymodule/convert.h:27-49 | the fields read from a packed value are the ones packed |
| GbfPacket.PackOfFields | pymodule/convert.h:27-49 | every 80-bit value is the packing of its own fields |
| GbfPacket.BytesRoundTrip | pymodule/convert.h:27-49 | a packet survives being stored as ten little-endian bytes |
| GbfCodec.RoundGroup | pymodule/convert.h:89-96 | the rounding loop rounds the live words of a group and leaves the rest of the buffer alone |
| GbfCodec.MaxExponent | pymodule/convert.h:98-105 | the loop returns the maximum of the live exponents |
| GbfCodec.StoreGroup | pymodule/convert.h:107-193 | the stores of one group write the packet of its live lanes, zero lanes behind them, into ten bytes and no others |
| GbfCodec.GbfEncode | pymodule/convert.h:59-199 | for every length: the source is rounded in place, the bytes are the encoding of the rounded words, nothing else changes; length 0 or less does nothing |
| GbfLaws.GroupExponentBounds | pymodule/convert.h:98-105 | the group exponent bounds every lane's exponent and is attained |
| GbfLaws.GroupRoundTrip | pymodule/convert.h:85-197 | every lane of a group comes back rounded to its unit, missing lanes as zero |
| GbfLaws.CodecRoundTrip | pymodule/convert.h:59-199 | decode(encode(src)) for buffers of every length, tails included: each word is its own lane's round trip under its group's exponent |
| GbfLaws.PaddingDecodesToZero | pymodule/convert.h:116-193 | lanes behind the end of the buffer decode to the zero word |
| GbfLaws.LaneReencodes | pymodule/convert.h:71-83 | re-encoding a decoded lane gives it back if and only if its leading zeros do not exceed the exponent (or it is an unsigned zero under an exponent of at least 8) |
| GbfLaws.EncodeUndoesDecode | pymodule/convert.h:506-592 | for every packet buffer and length: encode(decode(p)) = p if and only if every packet has a mantissa with its top bit set, canonical lanes, and zero lanes behind the end |
| GbfLaws.EncodeIsCanonical | pymodule/convert.h:85-197 | everything the encoder writes is such a buffer |
| GbfLaws.CodecFixpoint | pymodule/convert.h:59-199 | encode(decode(encode(src))) is byte for byte encode(src) whenever C defines the second encode |
| GbfLaws.SecondEncodeDefined | pymodule/convert.h:79-82 | C defines the second encode if and only if every group has an exponent of at most 31 or flushed no lane |
| GbfError.DecodedValue | pymodule/convert.h:546-574 | a decoded lane is worth its signed mantissa times 2^(E - 134) if and only if the shared exponent E exceeds the mantissa's leading zeros or the mantissa is zero |
| GbfError.LaneError | pymodule/convert.h:71-118 | the lane's error: none unshifted, at most half of 2^(E - 134) for shifts 1 to 7, and strictly below 2^(E - 134) for flushed lanes, which become zero |
| GbfError.CodecError | pymodule/convert.h:59-199 | the same bounds, strict for flushed words, for every normal word of every buffer, in its own group's unit |
| GbfLaws.ZeroInGroup | pymodule/convert.h:79-82 | C defines the encoding of a group that holds 0.0 if and only if none of its exponents exceeds 31 |
| GbfLaws.ZeroBesideOne | pymodule/convert.h:79-82 | the group of 0.0 and 1.0 has no encoding that C defines |
| GbfDecoder.PextIsScalar | pymodule/convert.h:366-431 | the two bit extractions of the AVX2 form give the mantissas and signs that the scalar shifts give |
| GbfDecoder.Avx2IsPortable | pymodule/convert.h:432-479 | a word of the AVX2 form, with its nibble tables and 16-bit multiply (factor 384 for seven leading zeros), is the portable word |
| GbfDecoder.NeonIsPortable | pymodule/convert.h:271-343 | a word of the NEON form is the portable word |
| GbfDecoder.FormsAgree | pymodule/convert.h:254-597 | all three forms store exactly the words of the specification for every ten bytes |
| GbfDecoder.DecodeFullPackets | pymodule/convert.h:506-583 | the packet loop writes the words of all full packets and nothing else |
| GbfDecoder.DecodeTail | pymodule/convert.h:585-592 | the tail writes the live words of one more packet, by a self-call that ends |
| GbfDecoder.GbfDecode | pymodule/convert.h:254-597 | every form, buffer and length (the NEON form up to the length of GbfDecoder.NeonOffsets): the words written are the decoding, nothing else changes, and the self-call terminates on length mod 8 |
| GbfDecoder.NeonOffsets | pymodule/convert.h:259-347 | the 32-bit offsets of the NEON form are the true ones if and only if the length is at most 3435973840 |
| Bf16.Bf16RoundTrip | pymodule/convert.h:781-810 | converting a word to 16 bits and back is the encoder's in-place rounding |
| Bf16.Avx2BlockIsScalar | pymodule/convert.h:741-756 | saturating pack and permutation together convert sixteen words in order |
| Bf16.NeonBlockIsScalar | pymodule/convert.h:767-780 | the narrowing moves convert eight words in order |
| Bf16.ConvertBf16 | pymodule/convert.h:734-800 | vector blocks and scalar tail together equal the scalar loop in every form |
| Bf16.UnconvertBf16 | pymodule/convert.h:802-810 | every word is its 16-bit word shifted up; on converted words that is the rounded source |
| Tensor.ConvertGbf | pymodule/convert.h:604-614 | every whole pixel is encoded into its own packets, the source is rounded, nothing else changes |
| Tensor.ConvertGbfRowPad | pymodule/convert.h:616-640 | every pixel of every row is encoded at its place, padding bytes are left as they were |
| Tensor.RowsAreAligned | pymodule/convert.h:616-620 | every row starts at a multiple of four bytes |
| Tensor.PixelRegions | pymodule/convert.h:616-640 | distinct pixels own disjoint bytes inside their row, and the last one ends within the whole size |
| Tensor.AllocatedSize | pymodule/memxmodule.c:1214-1215 | the whole size is the number the caller allocates |
| DummyChannels.KeptTotal | pymodule/convert.h:654-666 | deleting size listed channels from total leaves total - size words |
| DummyChannels.DropDummies | pymodule/convert.h:674-698 | for any index array that can be read: the words written are the decoded lanes that the scan does not skip, in order, and nothing else is written |
| DummyChannels.TerminatorDecides | pymodule/convert.h:685-698 | the words written are the decoded lanes without the listed ones if and only if the entry behind the list names no channel after the last one listed; otherwise fewer words are written |
| DummyChannels.UnterminatedList | pymodule/convert.h:685-688 | an index array on which one word less is written |
| DummyChannels.CountTerminates | pymodule/convert.h:685-686 | the packed channel count is a proper end of the list |
| TensorDecode.UnconvertGbf | pymodule/convert.h:642-652 | every whole pixel is decoded from its own packets |
| TensorDecode.UnconvertRows | pymodule/convert.h:654-732 | for every height, width, z and padding: each pixel gets its decoded lanes without the dummy channels, in order |
| TensorDecode.TensorRoundTrip | pymodule/convert.h:616-732 | unpadding a padded tensor gives, pixel by pixel, the codec's round trip of the source |
| Xflow.RegistersDecode | kdriver/linux/pcie/memx_xflow.h:6-19 | the computed register addresses name the chip's base and control registers |
| Xflow.WindowReach | kdriver/linux/pcie/memx_xflow.h:17-19 | where a window address with any offset leads: to the window as many chips further on as the offset has whole windows, and behind the last one to no window |
| Xflow.RelayedAccess | kdriver/linux/pcie/memx_xflow.c:96-98 | an access through chip 0's window, prepared as the driver does, goes where a direct access to the address would go |
| Xflow.Device.SetAccessMode | kdriver/linux/pcie/memx_xflow.c:40-69 | sets the chip's mode directly or through chip 0; nothing if the basic check fails or the register lies behind the end of its BAR |
| Xflow.Device.SetBaseAddress | kdriver/linux/pcie/memx_xflow.c:71-100 | sets the chip's base register directly or through chip 0; nothing in the same cases |
| Xflow.Device.WriteBuffer | kdriver/linux/pcie/memx_xflow.c:102-132 | stores where the window address leads, on either path and for every offset; nothing behind the end of the window BAR |
| Xflow.Device.ReadBuffer | kdriver/linux/pcie/memx_xflow.c:134-165 | loads from where the window address leads, on either path and for every offset; 0 if the check fails |
| Xflow.WriteComposes | kdriver/linux/pcie/memx_xflow.c:200-209 | the steps of a write whose address is inside the BAR and the window and outside the relay, with the chip's registers as asked for, add up to one store at the address and mode asked for, with the modes back at MPU |
| Xflow.RelayedWriteComposes | kdriver/linux/pcie/memx_xflow.c:200-209 | the steps of a chip-0 write that hits the relay store at the other chip instead |
| Xflow.StepsStray | kdriver/linux/pcie/memx_xflow.c:114-129 | an offset of 4 MB or more never reaches the address asked for, on either path |
| Xflow.UnsteeredStrays | kdriver/linux/pcie/memx_xflow.c:51-54 | a chip whose registers lie behind the end of the BAR and hold something else is accessed elsewhere |
| Xflow.ReadComposes | kdriver/linux/pcie/memx_xflow.c:242-252 | the steps of such a read load from the address and mode asked for |
| Xflow.Device.Write | kdriver/linux/pcie/memx_xflow.c:167-210 | the whole new state of registers and memory after a write with any offset and every BAR layout; a chip below 16 whose register and window words all lie inside mapped BARs gets the word at base plus offset in the mode asked for, and a call that is turned away changes nothing |
| Xflow.Device.Read | kdriver/linux/pcie/memx_xflow.c:212-253 | the value and the whole new state after a read with any offset; for such a chip the value is the word at base plus offset, and 0 for a call that is turned away |
| Xflow.Device.Perform | kdriver/linux/pcie/memx_xflow.c:167-253 | any history of calls does what the fold of the calls says |
| Xflow.RunIsFlat | kdriver/linux/pcie/memx_xflow.c:167-253 | any run of reads and writes in reach behaves like one flat memory per chip and mode, which drops only calls of absent devices, unmapped BARs, chips from 16 on and chips from 4 on with 16 MB windows; an idle device is idle after it |
| Xflow.ServedChips | kdriver/linux/pcie/memx_xflow.c:167-253 | for each BAR layout, from the sizes alone: a present device stores and loads the word at base plus offset for every chip below 16 whose words are all mapped, unless the relay takes it |
| Xflow.DroppedCalls | kdriver/linux/pcie/memx_xflow.c:6-38 | no device, an unmapped BAR, a chip from 16 on, or one from 4 on with 16 MB windows: nothing changes and 0 is read |
| Xflow.AcceptsExactly | kdriver/linux/pcie/memx_xflow.c:6-38 | every other chip is accepted |
| Xflow.ServedExactly | kdriver/linux/pcie/memx_xflow.c:167-253 | being accepted and in reach is the same as having all words mapped and no relay in the way |
| Xflow.LayoutsExactly | kdriver/linux/pcie/memx_cascade_pciemain.c:907-978 | the BAR sizes that probing accepts for the window modes, and the mode of each |
| Xflow.RelaysExactly | kdriver/linux/pcie/memx_pcie.h:65-65 | the addresses of chip 0's bus that belong to other chips, as numbers |
| Xflow.PathsAgree | kdriver/linux/pcie/memx_xflow.c:51-68 | on every run in reach of two devices, whatever their BAR modes, both return the same values and leave the same memory; so the indirect and the direct path cannot be told apart |
| Xflow.WriteIsFlat | kdriver/linux/pcie/memx_xflow.c:200-209 | in a given state of the hardware a write is a flat write for every value if and only if its word lies inside the BAR, its offset is below 4 MB, it does not hit chip 0's relay window, and the chip's registers can be set or are right already |
| Xflow.ReadIsFlat | kdriver/linux/pcie/memx_xflow.c:242-252 | a read returns the flat memory's value for every content under the same condition and no other |
| Xflow.ReachIsExact | kdriver/linux/pcie/memx_xflow.c:200-209 | a write is flat in every state of the hardware if and only if it is in reach: registers and word inside their BARs, offset below 4 MB, no relay |
| Xflow.ReachByMode | kdriver/linux/pcie/memx_cascade_pciemain.c:907-978 | what being inside the BARs means for the sizes that probing accepts: the first 512 KB of a window in 4-BAR mode, registers of chips 0 to 3 only with 64 MB of windows and 16 MB of registers |
| Xflow.BehindTheBar | kdriver/linux/pcie/memx_cascade_pciemain.c:941-951 | in 4-BAR mode every access from offset 0x7fffd on stores nothing and reads 0, for chip 0 and every other |
| Xflow.FirstWordBehindTheBar | kdriver/linux/pcie/memx_cascade_pciemain.c:941-951 | a concrete one: offset 0x80000 with base 0 in MPU mode, which the flat memory would store |
| Xflow.RegistersBehindTheBar | kdriver/linux/pcie/memx_cascade_pciemain.c:956-969 | a BAR layout that probing accepts and in which the registers of chip 4, an accepted chip, cannot be set |
| Xflow.OneWindowTooFar | kdriver/linux/pcie/memx_xflow.c:114-129 | an offset on which the paths disagree: one window further, chip 1 reaches chip 2 directly and itself indirectly |
| Xflow.RelayTakesOver | kdriver/linux/pcie/memx_xflow.c:200-209 | a chip-0 write that is stored in chip 1 |
| Crc32.StepIsBijection | kdriver/linux/pcie/memx_fs.c:432-437 | a single division step is a bijection on the 32-bit state |
| Crc32.StepsAreLinear | kdriver/linux/pcie/memx_fs.c:432-437 | steps commute with exclusive or |
| Crc32.FeedIsSteps | kdriver/linux/pcie/memx_fs.c:432-445 | feeding up to 32 message bits is adding them to the register and stepping once for each |
| Crc32.TableStepIsEightBits | kdriver/linux/pcie/memx_fs.c:442-445 | one table lookup does the work of eight single-bit division steps |
| Crc32.FillTable | kdriver/linux/pcie/memx_fs.c:429-439 | every table entry is eight steps from its index |
| Crc32.MemxCrc32 | kdriver/linux/pcie/memx_fs.c:415-449 | for every message of at most 2^32 - 1 bytes, the longest that the loop ends on, the result is the checksum that the laws below pin down; 0 when the table cannot be allocated |
| Crc32.FeedInjective | kdriver/linux/pcie/memx_fs.c:442-445 | different registers stay different under the same further message |
| Crc32Detection.BurstDetected | kdriver/linux/pcie/memx_fs.c:415-449 | two different messages of one length that agree outside at most 32 consecutive bits have different checksums |
| Crc32Detection.FourBytesDetected | kdriver/linux/pcie/memx_fs.c:415-449 | so do two that agree outside four consecutive bytes |
| Crc32Detection.LongerBurstMissed | kdriver/linux/pcie/memx_fs.c:432-437 | a 33-bit pattern made of a one and the polynomial goes unnoticed from every state |
| Crc32Detection.SameChecksum | kdriver/linux/pcie/memx_fs.c:415-449 | two five-byte messages that differ only in their first 33 bits and have the same checksum |
| Crc32Laws.ComplementedDivision | kdriver/linux/pcie/memx_fs.c:419-448 | from four bytes on the checksum is the complement of the plain division, from zero, of the message with its first 32 bits complemented |
| Crc32Laws.Residue | kdriver/linux/pcie/memx_fs.c:415-449 | dividing a message with four bytes behind it leaves the residue 0xDEBB20E3 if and only if the four bytes are its checksum, lowest byte first |
| Crc32Laws.CheckValue | kdriver/linux/pcie/memx_fs.c:415-449 | the checksum of the digits 1 to 9 is 0xCBF43926, and of one zero byte 0xD202EF8D |
| FirmwareCheck.Check | kdriver/linux/pcie/memx_fs_sys.c:194-215 | the verdict, in terms of format, stored word and checksum of the covered bytes, and of the type word; also for a failed allocation |
| FirmwareCheck.SoundExactly | kdriver/linux/pcie/memx_fs_sys.c:194-210 | the images that pass are those of a known format that putting the checksum in its place leaves alone |
| FirmwareCheck.SigningWorks | kdriver/linux/pcie/memx_fs_sys.c:194-210 | putting the checksum of the covered bytes in its place makes every image of a known format pass and keeps its format and type words |
| FirmwareCheck.CorruptionRejected | kdriver/linux/pcie/memx_fs_sys.c:194-210 | an accepted image changed only inside four consecutive covered bytes, format word untouched, fails the checksum, in both formats |
| UsbLink.ChunksAreTheData | kdriver/linux/usb/memx_cascade_usbmain.c:466-489 | packets concatenate to the data, none is empty or over the limit, only the last is shorter |
| UsbLink.Link.FlashDownload | kdriver/linux/usb/memx_cascade_usbmain.c:448-517 | a device that insists on the closing command and the empty packet receives exactly the image and is idle again |
| UsbLink.Link.Write | kdriver/linux/usb/memx_cascade_usbmain.c:1121-1183 | the buffer is sent in packets of the limit; at the first packet that is not mapped the result is 0 with the packets before it sent; a size that is negative as a 32-bit int sends nothing |
| Dfp.SendData | kdriver/linux/usb/memx_cascade_usbmain.c:597-631 | the packet loop sends the data in order and stops at the first unmapped packet |
| Dfp.SendSection | kdriver/linux/usb/memx_cascade_usbmain.c:652-703 | one section: address, size, data, closing command |
| Dfp.SendWeights | kdriver/linux/usb/memx_cascade_usbmain.c:639-705 | the section loop, its count, and both of its errors |
| Dfp.Download | kdriver/linux/usb/memx_cascade_usbmain.c:550-711 | the whole walk over any buffer, with 32-bit pointer steps and both error codes |
| DfpFormat.WalkOfSerialised | kdriver/linux/usb/memx_cascade_usbmain.c:550-711 | the walk over serialised records succeeds and sends exactly their packets |
| DfpFormat.ReceiveRecords | kdriver/linux/usb/memx_cascade_usbmain.c:265-410 | an idle device that receives the packets of any records has every chip id, address and data, and is idle again |
| DfpFormat.DownloadUndoesSerialise | kdriver/linux/usb/memx_cascade_usbmain.c:550-711 | serialise, walk, receive: a device with a state, which takes a header only when idle and is idle only after the closing command and an empty packet, gets every chip id, weight address and all data once, in order and complete, and ends idle, whatever lies behind the records |
| DfpErrors.RecordsCut | kdriver/linux/usb/memx_cascade_usbmain.c:553-711 | cutting any buffer short gives the same download, or one that fails with -ENOMEM after some of the same packets |
| DfpErrors.CutDownload | kdriver/linux/usb/memx_cascade_usbmain.c:553-711 | a serialised model cut anywhere downloads if and only if nothing that is needed is missing, and otherwise fails with -ENOMEM with the device having received only the beginning of the model |
| DfpErrors.NoSections | kdriver/linux/usb/memx_cascade_usbmain.c:639-648 | a weight record without sections behind any others fails with -ENODEV after its chip id |
| DfpFormat.PacketsFit | kdriver/linux/usb/memx_cascade_usbmain.c:597-699 | no packet exceeds 64 KB for any buffer, well formed or not |
| Dma.AddressOfSlot | kdriver/linux/pcie/memx_fw_log.h:32-43 | the link addresses name the slots of the descriptor table |
| DmaEngine.Engine.BuildChain | kdriver/linux/pcie/memx_dma.c:50-73 | the loop leaves the planned chain in the block and no other descriptor changes |
| DmaEngine.Engine.TransferMb | kdriver/linux/pcie/memx_dma.c:18-78 | the controller starts one transfer, at the first descriptor of the chain that is in memory by then; every interrupt but that of a finished block is signalled |
| DmaEngine.Engine.StartWrite | kdriver/linux/pcie/memx_cascade_pciemain.c:546-550 | a controller that obeys the register writes and follows the descriptors in memory moves exactly the header and data to the ingress buffer, and nothing else, if and only if the size is a multiple of four |
| DmaController.ChainFrom | kdriver/linux/pcie/memx_dma.c:52-73 | from any descriptor on, the chain ends at its last descriptor and moves the rest of the transfer |
| DmaController.ChainCovers | kdriver/linux/pcie/memx_dma.c:50-73 | following a chain moves exactly the whole words of its transfer, each once and in order, if and only if the last slice is not one to three bytes long |
| DmaController.OneByteTooMany | kdriver/linux/pcie/memx_dma.c:61-61 | a size on which it is: 0x4001 bytes give a last word count of 2^32 |
| DmaController.RunawayFrom | kdriver/linux/pcie/memx_dma.c:61-61 | otherwise the last descriptor counts 2^32 words |
| DmaController.LinksStayInBlock | kdriver/linux/pcie/memx_fw_log.h:32-43 | every descriptor and link of up to 512 KB lies in the 2 KB of its chip and channel |
| DmaController.BlockHolds | kdriver/linux/pcie/memx_fw_log.h:34-43 | the descriptors lie in their own block if and only if the transfer is at most 512 KB |
| DmaController.BlocksDisjoint | kdriver/linux/pcie/memx_fw_log.h:32-43 | no address is in two such blocks |
| DmaController.SplitCovers | kdriver/linux/pcie/memx_cascade_pciemain.c:546-550 | the two channels together move every word of header and data to its matching place exactly once if and only if the second part does not run away, which no multiple of four does |
| DmaController.SplitMovesBytes | kdriver/linux/pcie/memx_cascade_pciemain.c:546-550 | the two chains together move exactly the bytes of header and data, and nothing else, if and only if the size is a multiple of four |
| DmaController.TransferStarts | kdriver/linux/pcie/memx_dma.c:32-77 | the register writes of a transfer start its channel only, at its first descriptor |
| DmaController.BuffersApart | kdriver/linux/pcie/memx_cascade_pciemain.c:547-550 | a write into the first ingress buffer touches the second if and only if it is longer than 256 KB |
| Flash.NoWrap | tools/flash_update_tool/src/pcieupdateflash/pcieupdateflash_direct.c:291-302 | a 32-byte program at a multiple of 32 touches exactly its 32 cells and never wraps in its 256-byte page |
| Flash.SpanCovers | tools/flash_update_tool/src/pcieupdateflash/pcieupdateflash_direct.c:251-261 | with sectors or blocks, the erased span covers the image and stays within 256 KB |
| Flash.SpanExactly | tools/flash_update_tool/src/pcieupdateflash/pcieupdateflash_direct.c:251-261 | the erased span is the next multiple of 16 KB |
| Flash.ProgramsUnerased | tools/flash_update_tool/src/pcieupdateflash/pcieupdateflash_direct.c:339-342 | less than 16 KB behind the image is erased, and the four bytes more that are programmed reach cells that were not erased exactly when the image ends within three bytes of a 16 KB boundary or on it |
| Flash.Nor.Erase | tools/flash_update_tool/src/pcieupdateflash/pcieupdateflash_direct.c:240-272 | succeeds if and only if every write-enable is granted, and then the whole span is erased; cells outside it never change |
| Flash.Nor.Write | tools/flash_update_tool/src/pcieupdateflash/pcieupdateflash_direct.c:274-303 | each granted transfer is programmed, each one not granted is lost, nothing else changes |
| Flash.Nor.Update | tools/flash_update_tool/src/pcieupdateflash/pcieupdateflash_direct.c:337-343 | every cell after an update from any contents; after a successful erase the flash holds the image if and only if the transfers that were lost are all ones |
| Flash.LoseFirstTransfer | tools/flash_update_tool/src/pcieupdateflash/pcieupdateflash_direct.c:291-294 | an update that reports success although its first transfer is lost |
| DeviceList.GapIsSmallestFree | kdriver/linux/pcie/memx_pcie_dev_list_ctrl.c:34-48 | the first gap of an increasing list is the smallest number not in use |
| DeviceList.InsertedProperties | kdriver/linux/pcie/memx_pcie_dev_list_ctrl.c:27-53 | an insertion takes the smallest free number, at most the number of devices, and keeps the list increasing |
| DeviceList.EveryHistory | kdriver/linux/pcie/memx_pcie_dev_list_ctrl.c:27-62 | after every history of insertions and removals the list is increasing and the next number handed out is the smallest free one |
| DeviceList.Registry.GetByIndex | kdriver/linux/pcie/memx_pcie_dev_list_ctrl.c:10-24 | returns the one device with the number, or null when there is none |
| DeviceList.Registry.Insert | kdriver/linux/pcie/memx_pcie_dev_list_ctrl.c:27-53 | the device gets the smallest free number and its place in the list; its major number is set only when the number is not 0 |
| DeviceList.Registry.Remove | kdriver/linux/pcie/memx_pcie_dev_list_ctrl.c:56-62 | exactly that device leaves the list; null is ignored |
| FwLog.Log.Linearise | kdriver/linux/pcie/memx_fw_log.c:41-60 | the copy, in one piece or two, is the pending bytes of the ring in order, with a zero behind them |
| FwLog.Log.Dump | kdriver/linux/pcie/memx_fw_log.c:6-76 | copied bytes, pieces printed and new read position; nothing is read without memory |
| FwLog.Print | kdriver/linux/pcie/memx_fw_log.c:63-71 | for any print results, negative ones included, with which the loop ends: each piece starts two bytes behind what the one before printed, in 32 bits, and there are no more pieces than bytes |
| FwLog.EndsExactly | kdriver/linux/pcie/memx_fw_log.c:65-71 | the loop ends if and only if no position comes back, and if and only if it is over after as many rounds as there are bytes |
| FwLog.ForwardEnds | kdriver/linux/pcie/memx_fw_log.c:65-71 | results of -1 and more let every loop end |
| FwLog.StuckForEver | kdriver/linux/pcie/memx_fw_log.c:67-68 | a result of -2 where a piece starts makes the loop endless |
| FwLog.DumpsArePrefix | kdriver/linux/pcie/memx_fw_log.c:41-72 | over every interleaving with the writing firmware, the dumped bytes are a prefix of the bytes written |
| FwLog.DumpCatchesUp | kdriver/linux/pcie/memx_fw_log.c:41-72 | from every state reached between two dumps, one more dump leaves everything written dumped |
| RxQueue.PutWhole | kdriver/linux/pcie/memx_msix_irq.c:129-130 | an id is queued whole or not at all, and lost only when 16 are pending |
| RxQueue.TakeWhole | kdriver/linux/pcie/memx_cascade_pciemain.c:457-457 | four bytes taken are the oldest id |
| RxQueue.RxControl.EgressIsr | kdriver/linux/pcie/memx_msix_irq.c:107-137 | an egress interrupt queues the chip of its vector |
| RxQueue.RxControl.LegacyIsr | kdriver/linux/pcie/memx_msix_irq.c:50-71 | the dispatch of an event word to queue, writer or firmware indicator |
| RxQueue.RxControl.TakeId | kdriver/linux/pcie/memx_cascade_pciemain.c:457-457 | takes the oldest id, or nothing when there is none |
| RxQueue.RxControl.AbortTransfer | kdriver/linux/pcie/memx_cascade_pciemain.c:106-138 | all flags and indicators set, the queue emptied unless reads are to go on |
| RxRuns.EveryRunIsSound | kdriver/linux/pcie/memx_cascade_pciemain.c:106-501 | under every interleaving of the accesses of interrupts, reads, dummy reads, aborts and opens to the queue and the flags: the queue holds whole ids outside an abort's critical section, accepted ids are those delivered, flushed and queued in order of arrival, and what is delivered to a reader is, in order, what its calls end with |
| RxRuns.DeliveredIsGot | kdriver/linux/pcie/memx_cascade_pciemain.c:486-500 | after every run a reader has got exactly the ids delivered to it, in order, if and only if none of its copies to user space failed or is under way; every failed copy costs one id |
| RxRuns.CopyLosesAnId | kdriver/linux/pcie/memx_cascade_pciemain.c:491-495 | a run in which a read takes an id and returns -EFAULT, and nobody gets the id |
| RxRuns.FlushedBehindTheFlag | kdriver/linux/pcie/memx_cascade_pciemain.c:114-123 | a run in which a reader uses up an abort before the abort has the lock, and an id accepted in between is flushed |
| RxRuns.LostOnlyWhenFull | kdriver/linux/pcie/memx_msix_irq.c:129-130 | in every run an id is lost exactly when the queue holds 16, and queued whole otherwise |
| RxProgress.WaiterTakesOldest | kdriver/linux/pcie/memx_cascade_pciemain.c:140-164 | in every run a waiting read or dummy read that wakes up for a queued id takes the oldest one, whatever interrupts come in between |
| RxProgress.InHandIsReturned | kdriver/linux/pcie/memx_cascade_pciemain.c:486-500 | the id taken is returned, or -EFAULT when the copy fails |
| RxProgress.CallTakesOldest | kdriver/linux/pcie/memx_cascade_pciemain.c:455-457 | in every run a call that finds ids queued takes the oldest at once, and one that does not waits |
| RxProgress.NothingCame | kdriver/linux/pcie/memx_cascade_pciemain.c:458-476 | with nothing queued a read whose time is up waits again, a dummy read returns -ERESTARTSYS, and so do both on a signal |
| RxProgress.AbortEndsRead | kdriver/linux/pcie/memx_cascade_pciemain.c:460-467 | an abort ends a waiting read with -ERESTARTSYS and is used up |
| RxProgress.BeatenReader | kdriver/linux/pcie/memx_cascade_pciemain.c:478-482 | a reader whose id is gone returns -EFAULT |
| RxProgress.AbortFlushes | kdriver/linux/pcie/memx_cascade_pciemain.c:106-123 | in every run an abort flushes all queued ids and leaves an empty queue and a free lock |
| RxProgress.AbortSpares | kdriver/linux/pcie/memx_cascade_pciemain.c:114-123 | after reads have been told to go on it only raises its flag |
| RxProgress.FirstOpenStartsAfresh | kdriver/linux/pcie/memx_cascade_pciemain.c:400-409 | the first open clears both flags, later ones none |
| RoleScan.ChipInfo.Init | kdriver/linux/pcie/memx_fw_init.c:202-228 | the loop is the chip-by-chip scan; its group index never exceeds the chips scanned |
| RoleScan.CountsConfigured | kdriver/linux/pcie/memx_fw_init.c:202-228 | for every role sequence the count is the number of configured chips |
| RoleScan.FindsBlocks | kdriver/linux/pcie/memx_fw_init.c:202-228 | on a board of single chips, chains and unconfigured gaps the groups are the blocks, in order |
| RoleScan.SizesAddUp | kdriver/linux/pcie/memx_fw_init.c:202-228 | the sizes of the blocks add up to the configured chips |
| RoleScan.BoardScanned | kdriver/linux/pcie/memx_fw_init.c:202-228 | both together, for the scan of a whole board |
| RoleScan.EndsAtUnconfigured | kdriver/linux/pcie/memx_fw_init.c:224-226 | stopping at the first unconfigured chip, as the comment has it, gives the same result if and only if no chip behind it is configured |
| RoleScan.GapInTheMiddle | kdriver/linux/pcie/memx_fw_init.c:224-226 | a board on which it does not |

## Left out

- GbfCodec.GbfEncode: the precondition bounds every shift count by 31, because C leaves larger shifts of the promoted mantissa undefined (C11, section 6.5.7).
- GbfError.CodecError: subnormal and zero words (exponent 0) have no error bound of this form, because the encoder gives them a hidden bit too.
- Crc32.MemxCrc32: the loop's counter has 32 bits and the length 64, so the loop does not end on messages of 2^32 bytes and more; the model counts without a bound.
- GbfDecoder.GbfDecode: the 32-bit offsets of the NEON form wrap around for lengths above 3435973840 (GbfDecoder.NeonOffsets); the model counts without a bound.
- Xflow.Device.Write: the SRAM mailbox mode (MEMXBAR_SRAM1MB) is not modelled, because what it does depends on firmware; byte-sized overlap of unaligned words is not modelled.
- DmaEngine.Engine.BuildChain: chains that run off the whole descriptor table are excluded, as in DmaEngine.Engine.TransferMb.
- DmaEngine.Engine.TransferMb: chains that run off the whole descriptor table (sizes of 512 KB or more, depending on the chip) are excluded.
- DmaEngine.Engine.StartWrite: a part of more than 512 KB, whose chain would overwrite the next block, is excluded; the caller's buffer holds 512 KB in all; what is moved is not stated for sizes below 8, which only lengths within 64 of 2^32 give.
- FwLog.Print: print results with which the loop never ends are excluded (FwLog.EndsExactly), so are results above 0x7FFFFFFD, to which C cannot add 2.
- FwLog.Log.Dump: the argument checks before the copy (unknown chip, unmapped buffer) are not modelled.
- FirmwareCheck.Check: images too short for the words that the check reads are excluded; reading them is undefined.
- Flash.Nor.Update: sizes over 0x3FFFC, for which the tool reads behind its image buffer, are excluded.
- RxQueue.RxControl.LegacyIsr: an ingress vector above 32 is excluded, because it names no writer.
- DummyChannels.DropDummies: an index array in which the scan would read behind the end is excluded.
- TensorDecode.UnconvertRows: one model stands for the row loops of the padded and the dummy-channel form, with a flag for the padding.
- How a compiler lays out the packed bit-fields: the packet is an 80-bit little-endian value and no store goes past its tenth byte.
- Vector instructions are modelled lane by lane; prefetches are not modelled.
- Overflow of `int` in tensor size computations near 2^31.
- The eight unrolled lanes of the encoder and decoders appear as loops or sequences over the lane number.
- In the PCIe write path everything around the two DMA calls: locks, wait queues, the trigger of single chips.
- USB submission errors and timeouts, and the firmware's answer after a download.
- The flash tool's own CRC check, reading back and command line.
- Throughput counters, the `fw_ctrl` flag that a read clears together with its own abort flag, and wake-ups.
- sysfs, procfs, ioctl, mmap, probe and removal, power management, hwmon, the boot loaders, the Python wrappers and the 32-bit driver tree.
