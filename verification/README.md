# Sonata RP2040 firmware: uploads, boot, options and log

A Dafny model of the mass-storage firmware in `usb_msc/`. A host copies UF2 files to the drive; the
firmware programs them into one of two SPI NOR flashes and loads the FPGA from the selected slot. A
small FAT16 disk in RAM carries an options file and a log.

The model has two layers. Functions on values say what a component does (`UploadSpec`, `ConfigText`,
`DiskSpec`, and the value functions in `FlashMemory`, `FlashDriver`, `Bitstream`, `Castagnoli`). Classes
and methods with the source's own loops and fields (`FlashChip.Chip`, `FlashDriver.Bus`,
`Upload.Device`, `Config`, `RamDisk.FileSystem`) are proved to compute exactly those functions. Theorems
over whole runs are lemmas about the functions.

- **Flash and driver** (`FlashMemory`, `FlashChip`, `FlashDriver`). A chip takes any command at any time
  and ignores what it cannot do: commands while busy, programming without the write-enable latch. Programming
  can only clear bits and goes round inside a page. The chip counts every such misuse, so "the count does not
  change" is the protocol theorem. Memory is the whole 4-byte address space; 32-bit wrap-around is explicit.
- **Uploads** (`Uf2`, `Uf2Sectors`, `SectorKinds`, `UploadSpec`, `UploadSteps`, `Upload`, `UploadRuns`, `UploadImage`). One session record per flash, blocks
  in any order, mixed with other sectors and with the other family's blocks. A block's source is what lies
  behind its header in the buffer, the following sectors included, because the driver's last round takes the whole
  length again and can read past the sector. Statements about runs are about those the handler can take
  (`Admissible`): no write reads past the whole buffer, and no boot scans out of its window.
- **Payload sizes** (`UploadSizes`, `UploadOrder`, `UploadOrderExact`, `UploadOrderWitness`, `UploadAnySize`). Which
  sizes are written exactly, which stay in their sectors, for which the order of the sectors does not
  matter, and when the image is in flash all the same. Each is an equivalence, with a failing input.
- **Boots between uploads** (`TwoUploads`, `BootSafety`). A firmware upload that ends boots from a bitstream that may
  be half written; which images and flash contents allow that.
- **Boot and end to end** (`Bitstream`, `EndToEnd`). The header scan, the chunk loops, and the way from host blocks to the
  bytes clocked into the FPGA.
- **CRC-32C** (`Castagnoli`). Table loop, bit-serial register, and the division register of section 12.1 of
  RFC 3720.
- **Options** (`ConfigText`, `Config`, `ConfigProofs`, `ConfigKeys`). The pointer-walking parser, `strtoul` as the C
  standard defines it for a 32-bit `unsigned long`, and the printer.
- **RAM disk** (`DiskSpec`, `DiskLayout`, `RamDisk`, `DiskProofs`, `DiskWrites`, `HostOptions`). Directory search, the LOG entry guard, log append, host writes.

Where the code and its documentation differ, the code is followed. The README of the firmware says the switch
chooses the slot that is written; the code takes the slot from the top nibble of the UF2 target address
(`usb_msc/msc_disk.c:35-40`) and uses the switch only for booting. A comment says a page program writes
len + 1 bytes (`usb_msc/flash_util.c:403`); the code writes len.

## Model

| member | source | states |
|---|---|---|
| `Castagnoli.EntryCorrect` | usb_msc/crc32.c:27-92 | each of the 256 table entries is its index shifted eight times through the reversed Castagnoli polynomial |
| `Castagnoli.TableStep` | usb_msc/crc32.c:99 | one table step of the register, for every register and byte, equals eight bit-serial steps |
| `Castagnoli.Crc32c` | usb_msc/crc32.c:95-102 | the table loop computes the bit-serial CRC for every seed and data |
| `Castagnoli.CrcIsRfc3720` | usb_msc/crc32.c:18-25 | that CRC is the remainder of the RFC's most-significant-bit-first division by 0x1EDC6F41, with reflected input and output and inverted seed and result |
| `Castagnoli.CrcConcat` | usb_msc/crc32.c:95-102 | continuing from the CRC of one chunk gives the CRC of both |
| `Castagnoli.BurstDetected` | usb_msc/crc32.c:95-102 | two different messages of equal length that differ only within 32 consecutive bits never have the same CRC |
| `FlashChip.Chip.PageProgram` | usb_msc/flash_util.c:422-429 | what a chip does with a page program: bits only cleared, data past the page end goes round to its start and is a counted misuse, nothing without latch or while busy |
| `FlashChip.Chip.BlockErase` | usb_msc/flash_util.c:366-371 | the 64 KiB block that the address lies in becomes 0xFF, or the command is ignored and counted |
| `FlashMemory.ProgramConcat` | usb_msc/flash_util.c:471-477 | programming two adjacent ranges is programming their concatenation, also across the top of the address space |
| `FlashMemory.EraseConcat` | usb_msc/msc_disk.c:295-299 | erasing adjacent ranges is erasing their union |
| `FlashDriver.Bus.WriteEnable` | usb_msc/flash_util.c:315-326 | polling ends, with the latch set and the chip idle, however long the chip takes |
| `FlashDriver.Bus.AwaitIdle` | usb_msc/flash_util.c:282-285 | the busy poll ends with an idle chip |
| `FlashDriver.Bus.PageProgramBlocking` | usb_msc/flash_util.c:409-436 | succeeds exactly when the data fits the page by the driver's 32-bit check (at the top page only a full remainder does), then programs it; otherwise -1 and nothing changes; no misuse |
| `FlashDriver.Bus.Erase64kNonblocking` | usb_msc/flash_util.c:359-374 | the addressed chip's block is erased, without misuse |
| `FlashDriver.Bus.WriteBuffer` | usb_msc/flash_util.c:467-479 | the page loop programs the prefix that its rounds describe at consecutive addresses and returns 0 exactly if every round was accepted; no misuse, and the chip ends idle |
| `FlashDriver.PagedWriteResult` | usb_msc/flash_util.c:467-479 | closed form of the rounds: failure exactly when the write ends inside the top page, and how many bytes are programmed either way |
| `FlashDriver.PagedLenExact` | usb_msc/flash_util.c:472-473 | that number is below len + 256, and is len exactly when len fits the first page or the end is page aligned |
| `FlashDriver.AlignedWrite` | usb_msc/flash_util.c:467-479 | a size dividing 256 written to a multiple of itself is written exactly; in the top page it is refused unless it ends at the very top |
| `FlashDriver.NextPageDistance` | usb_msc/flash_util.c:472 | the 32-bit `next_page - addr` is the rest of the page, also where it wraps |
| `Bitstream.FindBitstreamLenOffset` | usb_msc/fpga_program.c:117-149 | the forward and backward loops find the length offset, or -1 |
| `Bitstream.GetBitstreamLength` | usb_msc/fpga_program.c:151-161 | the 32-bit sum of length, offset and 4, or 0 |
| `Bitstream.HeaderRecognised` | usb_msc/fpga_program.c:123-143 | the offset returned is o if and only if the window has a header (length, filler, first sync after an 0xFF) whose length field is at o |
| `Bitstream.ScanInBoundsExactly` | usb_msc/fpga_program.c:138-139 | the backward scan leaves its buffer if and only if the window is filler up to its first sync words |
| `Bitstream.HeaderlessLeavesBuffer` | usb_msc/fpga_program.c:138-139 | the failing input: a bitstream file without a header, filler and then the sync words |
| `Bitstream.HeaderRoundTrip` | usb_msc/fpga_program.c:117-161 | for every length L: prefix, the four bytes of L most significant first, filler, sync words give the prefix length as offset and prefix + 4 + L modulo 2^32 as total |
| `Bitstream.LengthRead` | usb_msc/fpga_program.c:156-158 | in every window with a header the total is made of the four bytes at its length field, most significant first, plus their place and 4 |
| `Bitstream.NoHeaderNoLength` | usb_msc/fpga_program.c:153-154 | in every window without one it is 0 |
| `Uf2Sectors.MadeItem` | usb_msc/uf2.c:5-13 | a sector made of magics, header words, data and end magic is taken for just that block of that chip, the rest of its buffer behind it |
| `SectorKinds.SectorDecoded` | usb_msc/msc_disk.c:245-262 | for all words of a sector: skipped unless all three magics are right, else for the bitstream, for the firmware, or of unknown id, by the two file ids alone |
| `SectorKinds.UnknownExactly` | usb_msc/msc_disk.c:259-262 | a call ends early exactly when its buffer has a sector of unknown id |
| `SectorKinds.UnknownEndsCall` | usb_msc/msc_disk.c:259-262 | the first sector of unknown id ends the call: what is left is what the sectors before it leave alone, and one report of that id |
| `UploadSteps.SwitchPositions` | usb_msc/main.c:79-109 | the slot of each position of the switch |
| `UploadSteps.SlotOfTarget` | usb_msc/msc_disk.c:35-40 | the slot of every target address, by its top nibble |
| `UploadSteps.HeaderSize` | usb_msc/uf2.c:43-46 | the size in a header is a 32-bit product |
| `UploadSteps.RecordAfter` | usb_msc/msc_disk.c:268-325 | every field of the record after a block, numBlocks 0 included; the other chip and its record stay |
| `UploadSteps.FlashAfter` | usb_msc/msc_disk.c:294-306 | every byte of the flash after a block that fits a page, whatever its own payload size: ANDed in at offset + blockNo * block size modulo 2^32, blank in the erase blocks a first block opens, else as before |
| `UploadSteps.FpgaAfter` | usb_msc/msc_disk.c:280-328 | the FPGA after a block: blanked by one that opens a session, booted by one that ends it |
| `UploadSteps.ReportsAfter` | usb_msc/msc_disk.c:306-317 | exactly when a program error and when a verify error is reported for a block, and with which address |
| `UploadSteps.BootWithHeader` | usb_msc/main.c:199-224 | a boot gives the FPGA exactly as many bytes of the slot as the header says |
| `UploadSteps.BootWithoutHeader` | usb_msc/main.c:206 | a boot from a window without a header leaves the FPGA as it was |
| `Upload.Device.ReadBitstreamSelectPins` | usb_msc/main.c:79-88 | the first pin that is low, else 0 |
| `Upload.Device.FlashGetBitstreamOffset` | usb_msc/main.c:102-109 | start of the selected 10 MiB slot |
| `Upload.Device.StreamToFpga` | usb_msc/main.c:213-221 | the 4096-byte loop sends exactly the flash range to the FPGA, and its running CRC is the CRC of the range |
| `Upload.Device.StartupProgramBitstream` | usb_msc/main.c:199-232 | the FPGA is erased and loaded from the selected slot if a header is found there, and left alone otherwise; the flash is unchanged |
| `Upload.Device.FpgaFlashCalcCrc32` | usb_msc/msc_disk.c:195-217 | the 256-byte loop computes the CRC of the bitstream, but never of less than 256 bytes |
| `Upload.CrcNeverEnds` | usb_msc/msc_disk.c:207-212 | that loop's 32-bit index stays below the length for ever if and only if the length is above 0xFFFFFF00 |
| `Upload.EndlessCrc` | usb_msc/msc_disk.c:198-213 | a failing input: a 256-byte window with a good header of length 0xFFFFFF00 |
| `EndToEnd.ChunkedCrcsAgree` | usb_msc/msc_disk.c:206-213 | that CRC and the one of the 4096-byte loop are equal from 256 bytes on and when there is no bitstream; below, it is the other continued over the rest of the first 256 bytes |
| `Upload.Device.EraseForImage` | usb_msc/msc_disk.c:294-299 | the erase loop ends; every byte of each 64 KiB block that the size reaches into is 0xFF, every other byte of the flash is as it was |
| `Upload.EraseNeverEnds` | usb_msc/msc_disk.c:295 | the loop's 32-bit index stays below the size for ever if and only if the size is above 0xFFFF0000 |
| `Upload.EndlessErase` | usb_msc/msc_disk.c:294-295 | a failing input: a block that announces 0xFFFFFF payloads of 256 bytes |
| `Upload.Device.OpenSession` | usb_msc/msc_disk.c:250-300 | chip selection and, for the first block only, session record, FPGA erase and flash erase; the other chip and record stay |
| `Upload.Device.WriteBlock` | usb_msc/msc_disk.c:305-317 | the block goes where session offset and block size put it; write and read-back errors are reported exactly when they occur |
| `Upload.Device.CountBlock` | usb_msc/msc_disk.c:318-329 | the count goes down in 32 bits; at zero the session ends and the FPGA is loaded |
| `Upload.Device.ProgramBlock` | usb_msc/msc_disk.c:245-330 | one block changes the whole device as the value-level step does, without misuse of either chip |
| `Upload.Device.FlashProgramUf2` | usb_msc/msc_disk.c:240-333 | a whole buffer of at most 4096 bytes: the device ends as the value-level run does, both chips idle and no command lost or misused; -1 exactly if a sector of unknown id is met, and then as the sectors before it leave it, with one report |
| `UploadRuns.NonInterference` | usb_msc/msc_disk.c:240-333 | in a call the handler can take, after any interleaving each chip and record are what its own blocks alone make of them, boots included, and alone the chip can take them too |
| `UploadRuns.NonInterferenceCalls` | usb_msc/msc_disk.c:240-333 | the same over any number of calls |
| `UploadRuns.CutBuffer` | usb_msc/msc_disk.c:242-244 | cutting a buffer where no write reads across makes no difference, except that an unknown file id in the first part no longer drops the second |
| `UploadRuns.BuffersAsOne` | usb_msc/msc_disk.c:240-333 | without unknown ids, any such cutting into buffers gives the same flashes, records, FPGA loads and reports as one buffer |
| `UploadSizes.SizesWrittenExactly` | usb_msc/flash_util.c:472-473 | all blocks of an image are written without running over if and only if the payload size divides the page, is a multiple of it, or the image ends in the first page |
| `UploadSizes.SectorSizesExactly` | usb_msc/flash_util.c:471-477 | all writes of an upload read only their own sectors if and only if payloads have at most 240 bytes or 256, or 241 to 255 and are few enough, with the number for each size |
| `UploadSizes.BufferSizesExactly` | usb_msc/msc_disk.c:373 | every write that fits in a 4096-byte buffer stays in its sector if and only if the upload is of those sizes, or so large that none of its writes fits |
| `UploadOrder.OpenSessionOrder` | usb_msc/msc_disk.c:305-325 | in an open session whose writes stay in their sectors, chip and record depend only on which sectors came and on how many, not on order, repeats or what lies between |
| `UploadOrder.ByteSurvives` | usb_msc/flash_util.c:471-477 | a blank byte ends as what its own block brings exactly when no other write clears a bit of that |
| `UploadOrder.AdmissibleUpload` | usb_msc/msc_disk.c:305-306 | a chip can take a run of blocks of one upload exactly when each write stays in the buffer its block came in |
| `UploadOrder.OrderNeverMatters` | usb_msc/msc_disk.c:268-325 | the same from an idle session, for blocks of one upload |
| `UploadOrderExact.OrderIndependentExactly` | usb_msc/msc_disk.c:240-333 | over all runs of buffers of at most 4096 bytes that the handler can take: what an upload leaves depends on its sectors alone if and only if its size and number of payloads are as `UploadSizes.BufferSizesExactly` says |
| `UploadOrderExact.RunsOrderNeverMatters` | usb_msc/msc_disk.c:240-333 | for those sizes, whole runs cut into buffers and mixed with other sectors differently leave the same chip |
| `UploadOrderWitness.OrderMatters` | usb_msc/msc_disk.c:306 | the failing input: two payloads of 300 bytes in one buffer, sent in two orders, leave different chips |
| `UploadImage.BlockPlacement` | usb_msc/msc_disk.c:305-306 | every block of an image (size dividing 256, or all of it within one page; at most 10 MiB) is one exact, accepted write to its own place |
| `UploadImage.PayloadArrives` | usb_msc/msc_disk.c:305-308 | programming a payload over what has arrived adds it, repeats included |
| `UploadImage.MidSession` | usb_msc/msc_disk.c:268-318 | after any blocks of one image, repeats allowed, the flash holds those payloads, 0xFF in the rest of the erased range, and its old contents elsewhere; the record counts the blocks to come |
| `UploadImage.AllArrived` | usb_msc/msc_disk.c:318-325 | as many distinct blocks as the image has are all of its blocks |
| `UploadImage.CompleteUpload` | usb_msc/msc_disk.c:268-329 | every order of the blocks, from any flash contents, ends with the same chip: the image in its slot, the session closed |
| `UploadImage.CompleteExactlyWhen` | usb_msc/msc_disk.c:318-325 | sessions close by counting: when the count is reached the image is in flash if and only if the payloads that never came are blank |
| `BootSafety.RepeatLosesImage` | usb_msc/msc_disk.c:318-325 | the failing input: the first of two payloads sent twice in one buffer closes the session without the image |
| `UploadAnySize.ImageExactlyWhen` | usb_msc/msc_disk.c:268-329 | at any payload size, in any order of blocks the handler can take and with anything behind them in their buffers, the image is in flash afterwards if and only if no write that runs over its payload clears a bit of the image |
| `UploadAnySize.PaddingLosesImage` | usb_msc/flash_util.c:473 | the failing input: three payloads of 200 bytes, padded with zeros, do not leave their image in flash in any order |
| `UploadAnySize.PaddedUploadIsLost` | usb_msc/flash_util.c:473 | the same as it comes from the host: three sectors in one buffer that the handler can take |
| `UploadAnySize.AcceptableExactlyWhen` | usb_msc/msc_disk.c:305-306 | the handler can take a block of an image exactly when its write, overrun included, stays in the buffer |
| `UploadAnySize.ExactRunsOverNothing` | usb_msc/flash_util.c:472-473 | where all payloads are written exactly, both conditions hold |
| `UploadImage.OtherSlotsKept` | usb_msc/msc_disk.c:289-299 | no block of an image changes another slot |
| `UploadImage.ErasedInSlot` | usb_msc/main.c:74 | the erased range covers the image and stays in its slot |
| `UploadImage.ErasedBlocksExactly` | usb_msc/msc_disk.c:294-299 | after any blocks of an image, of the flash behind it exactly the rest of the last 64 KiB block it reaches into is 0xFF |
| `TwoUploads.CleanRun` | usb_msc/msc_disk.c:306-317 | in two interleaved uploads of consistent images no write is refused, no read-back differs, nothing is reported but unknown ids, and the handler can take every block if no boot is misled |
| `TwoUploads.CleanRuns` | usb_msc/msc_disk.c:240-333 | the same over any number of buffers |
| `TwoUploads.HeaderSurvivesExactly` | usb_msc/fpga_program.c:123-139 | an image can be booted from with any of its payloads missing if and only if no sync words in its first 256 bytes have only filler before them in their payload |
| `BootSafety.InterleavingsExactly` | usb_msc/msc_disk.c:324-329 | every interleaving with a firmware upload, in any buffers of at most 4096 bytes, can be handled if and only if the selected slot's old contents mislead no boot and, in that slot, no half-written image does |
| `BootSafety.LateSyncMisleads` | usb_msc/msc_disk.c:324-329 | the failing input: an image with a good header and 128-byte payloads; two buffers, its second payload and a one-sector firmware upload, cannot be handled |
| `BootSafety.SingleUploadExactly` | usb_msc/msc_disk.c:240-333 | one upload of either kind to any slot can be handled if and only if the boot that ends it is not misled |
| `EndToEnd.OrderDoesNotMatter` | usb_msc/msc_disk.c:240-333 | two runs the handler can take that carry the same image in different orders, cut and mixed differently, leave the same chip |
| `EndToEnd.UploadedImageReachesFpga` | usb_msc/msc_disk.c:240-333 | over any buffers the handler can take, firmware uploads and unknown ids between: once all blocks of an image for the selected slot have come, the FPGA has been given exactly the bytes its header asks for, or is blank because a firmware upload begun since is not over |
| `EndToEnd.ProgramBuffers` | usb_msc/msc_disk.c:384 | feeding buffers to the device one after the other does what the value-level calls do, no flash command lost or misused |
| `EndToEnd.UploadAndBoot` | usb_msc/msc_disk.c:240-333 | the device itself: from buffers to image in flash and FPGA configuration, error reports and flash commands accounted for |
| `Config.GetConfigOptInt` | usb_msc/config.c:13-41 | the scan finds the first key and the equals sign behind it, or NULL |
| `ConfigKeys.FindKeyExactly` | usb_msc/config.c:18-40 | a key is found if and only if its name stands at the least index at which any of the three does, and none if and only if no name stands anywhere |
| `ConfigKeys.KeyNames` | usb_msc/config.c:6-8 | the three names, spelled out |
| `ConfigKeys.OtherNames` | usb_msc/config.c:21-145 | the other characters and words of the language |
| `ConfigKeys.FindCharExactly` | usb_msc/config.c:27 | the first equals sign, if there is one |
| `ConfigKeys.LineEndExactly` | usb_msc/config.c:158 | the first CR or LF, if there is one |
| `Config.StrIsValidInteger` | usb_msc/config.c:73-95 | the pointer loops decide the recogniser's predicate, all leading-zero branches included |
| `ConfigProofs.ValidIntegerLanguage` | usb_msc/config.c:73-95 | the exact language: spaces, digits without leading zero (or none), spaces, optional CR, LF, anything |
| `Config.ReadOption` | usb_msc/config.c:127-157 | one value sets its own option, or is refused and changes nothing |
| `Config.ParseLines` | usb_msc/config.c:123-162 | the parsing loop ends and computes the parse of the C string |
| `Config.ConfigOptions.SetDefaultConfig` | usb_msc/config.c:165-171 | the four defaults |
| `ConfigProofs.ParseMeansApply` | usb_msc/config.c:102-163 | well-formed lines in any order, with repeats, spaces and either line end, are applied one after the other; values saturate at 2^32-1, and a 0 ends the parse with an error |
| `ConfigKeys.MixedMeansApply` | usb_msc/config.c:102-163 | the same with any other text before, between and behind the lines in which no name begins |
| `ConfigKeys.CommentIsFree` | usb_msc/config.c:18-37 | whole lines that hold no name, such as comments, are such text |
| `ConfigKeys.SetMeans` | usb_msc/config.c:127-142 | what one line sets, at most 2^32 - 1, and that a speed of 0 is an error |
| `ConfigKeys.FlagRead` | usb_msc/config.c:142-152 | a flag is YES or NO behind spaces, and anything else is refused |
| `ConfigKeys.DigitlessSpeed` | usb_msc/config.c:90-133 | a speed without digits is accepted, as the number the text behind its line begins with, or 0 |
| `ConfigKeys.ValueRefused` | usb_msc/config.c:128-150 | a refused value ends the parse with an error and sets nothing |
| `ConfigKeys.NothingToSet` | usb_msc/config.c:124-125 | text without a key, or a key without an equals sign, ends the parse without an error |
| `ConfigKeys.LastFlag` | usb_msc/config.c:157-160 | a flag at the end of the text needs no line end |
| `ConfigProofs.ConfigRoundTrip` | usb_msc/config.c:56-63 | what is printed is parsed back exactly, dirty cleared, if and only if both speeds are positive |
| `ConfigKeys.PrintedText` | usb_msc/config.c:56-63 | the printed file, byte for byte |
| `ConfigKeys.PrintedNumber` | usb_msc/config.c:57-61 | its decimal digits |
| `DiskProofs.LinesParsedFromDisk` | usb_msc/config.c:102-163 | the same for lines that lie in the options file of the disk |
| `DiskProofs.DiskConfigRoundTrip` | usb_msc/config.c:43-163 | writing the options file and parsing it from the disk restores the options, if and only if both speeds are positive |
| `HostOptions.WriteConfigTouches` | usb_msc/config.c:56-67 | writing the options file changes the text, the NUL behind it and the size in the directory entry, and no other byte |
| `HostOptions.WriteConfigRefused` | usb_msc/config.c:46-51 | without a usable entry it fails and writes nothing |
| `HostOptions.ParseTouches` | usb_msc/config.c:119-120 | a parse changes on the disk only the byte behind the text |
| `HostOptions.ParseWithoutFile` | usb_msc/config.c:105-113 | without a usable entry it fails and changes nothing |
| `RamDisk.CstrToFatstr` | usb_msc/fat_util.c:80-93 | name cut to 8 bytes and padded with spaces |
| `DiskLayout.NameOnDisk` | usb_msc/fat_util.c:80-93 | each byte of the padded name |
| `DiskLayout.FileNames` | usb_msc/fat_util.c:48-62 | the three file names, spelled out |
| `RamDisk.FileSystem.GetFileIndex` | usb_msc/fat_util.c:147-168 | the first root entry of that name, or -1 |
| `DiskLayout.FindEntryExactly` | usb_msc/fat_util.c:147-168 | found is the first entry whose eight bytes are the name padded with spaces, and none exactly if there is none |
| `RamDisk.FileSystem.GetFileCluster` | usb_msc/fat_util.c:179-190 | its cluster, or -1 if there is none, it is below 2 or free |
| `DiskLayout.FileClusterExactly` | usb_msc/fat_util.c:179-190 | the cluster in terms of the bytes of entry and FAT |
| `DiskLayout.NoFileNoCluster` | usb_msc/fat_util.c:182-183 | and -1 for a name that is not there |
| `DiskLayout.InitialFiles` | usb_msc/fat_util.c:28-70 | on the disk the firmware starts with, README, OPTIONS and LOG are found at entries 1 to 3, in clusters 2 to 4 |
| `RamDisk.FileSystem.GetFileInfo` | usb_msc/fat_util.c:200-207 | copies the entry out |
| `RamDisk.FileSystem.WriteFileInfo` | usb_msc/fat_util.c:218-225 | overwrites that entry and nothing else |
| `RamDisk.FileSystem.PrintErrFile` | usb_msc/error.c:15-40 | looks the LOG entry up, remembers it, appends what fits and pads; returns the bytes written, or -1 without entry, cluster or room |
| `HostOptions.PrintWithoutLog` | usb_msc/error.c:17-21 | without a LOG entry nothing changes; without a cluster only the entry is remembered |
| `RamDisk.FileSystem.ParseConfigFile` | usb_msc/config.c:102-163 | entry checks, NUL behind the text, parse |
| `RamDisk.FileSystem.WriteConfigToFile` | usb_msc/config.c:43-70 | text, NUL and size in the directory entry |
| `RamDisk.FileSystem.IsReservedCluster` | usb_msc/msc_disk.c:338-360 | whether a sector belongs to the file system or to README, OPTIONS or LOG; only OPTIONS marks the options dirty |
| `DiskLayout.ReservedExactly` | usb_msc/msc_disk.c:338-360 | reserved are exactly the sectors of boot sector, FAT and root directory and those in the clusters of README, OPTIONS and LOG; exactly the ones of OPTIONS mark the options dirty |
| `DiskLayout.SectorInCluster` | usb_msc/fat_util.h:44-52 | the cluster a sector lies in, by its bytes |
| `DiskLayout.ClustersInOrder` | usb_msc/fat_util.h:119-146 | where the clusters lie in the disk image |
| `RamDisk.FileSystem.Write10` | usb_msc/msc_disk.c:363-423 | does what the value-level write does, for every sector, and returns the bytes taken, at most 4096 |
| `HostOptions.HostSetsOptions` | usb_msc/msc_disk.c:404-421 | a host write of the options file: its lines, among other text, are applied to the options as they were; if one is refused, 20 MHz, 20 MHz, true, not dirty |
| `HostOptions.WriteParsesText` | usb_msc/msc_disk.c:404-421 | the same for every text that a write into OPTIONS leaves there |
| `HostOptions.WriteWithoutFile` | usb_msc/msc_disk.c:405-407 | a write into OPTIONS that leaves no usable entry brings the defaults |
| `HostOptions.OtherWritesKeepOptions` | usb_msc/msc_disk.c:345-349 | writes elsewhere keep clean options |
| `HostOptions.DataLands` | usb_msc/msc_disk.c:390-399 | every byte of the disk after such a write |
| `HostOptions.BeyondDisk` | usb_msc/msc_disk.c:387-388 | a write beyond the disk image copies and parses nothing |
| `HostOptions.LogDuringWrite` | usb_msc/msc_disk.c:377-385 | an upload logs behind what the log held, and only for sectors that are not reserved |
| `RamDisk.HostWrites` | usb_msc/msc_disk.c:363-423 | any number of such host writes does what the value-level writes do, keeps the LOG entry, and never takes log or options out of the disk |
| `DiskProofs.PutEntryFound` | usb_msc/fat_util.c:218-225 | an entry put back under its own name is again the first of that name |
| `DiskProofs.FirstPrintGuards` | usb_msc/error.c:17 | the first message makes the remembered entry the disk's LOG entry |
| `DiskProofs.WriteKeepsGuard` | usb_msc/msc_disk.c:398-399 | no host write changes the remembered LOG entry, and afterwards the first entry named LOG, if any, equals it |
| `DiskProofs.LogEntryPersists` | usb_msc/msc_disk.c:363-423 | so for every sequence of host writes |
| `DiskWrites.WriteKeepsFiles` | usb_msc/msc_disk.c:390-399 | a write of whole sectors whose root directory, if it brings one, keeps README and OPTIONS in bounds keeps them there at every stage |
| `DiskProofs.PrintFrame` | usb_msc/error.c:34 | a message changes nothing outside the log's cluster except that it blanks as many bytes of the next one as the log held before |
| `DiskProofs.PrintAppends` | usb_msc/error.c:23-34 | a message is appended and earlier text is kept, up to 4095 bytes |
| `DiskProofs.LogFromBoot` | usb_msc/error.c:15-40 | after any messages the log's cluster holds the first 4095 bytes of their concatenation, padded with spaces |
| `DiskProofs.LogRunFrame` | usb_msc/error.c:15-40 | over a run nothing changes before the log's cluster or behind the log's final size in the next one |

## Left out

- GPIO, DMA, delays and the SPI registers; pins appear as the route of the bus, the switch as three levels, the FPGA as the bytes sent to it.
- The erase and program times of the chip; a chip is busy for any finite number of polls.
- The capacity of the chips; every 32-bit address has its own byte.
- Upload.Device.WriteBlock: needs a block whose write stays in the buffer (`Acceptable`); past it the C code goes on into other memory.
- Upload.Device.OpenSession: needs a size of at most 0xFFFF0000, as does `Upload.Device.EraseForImage`; above, the loop does not end (`Upload.EraseNeverEnds`).
- Upload.Device.ProgramBlock: needs both of these, and a boot that is not misled (`BootDefined`); so do `Upload.Device.FlashProgramUf2` and `EndToEnd.ProgramBuffers`, for every block.
- Bitstream.FindBitstreamLenOffset: excludes windows that are filler up to the sync words (`Bitstream.ScanInBoundsExactly`), where the 16-bit index of the C code wraps from 0 to 65535 and it reads far above its buffer; so do `Bitstream.GetBitstreamLength`, `Upload.Device.StartupProgramBitstream` and `Upload.Device.CountBlock`.
- Upload.Device.FpgaFlashCalcCrc32: needs a length of at most 0xFFFFFF00; above, the loop does not end (`Upload.CrcNeverEnds`).
- FlashDriver.PagedWriteResult: speaks about lengths up to 0xFFFFFF00; no buffer is longer, and `bytes_written` could wrap.
- RamDisk.FileSystem.GetFileCluster: needs an entry whose FAT word lies in the disk image, as does `RamDisk.FileSystem.IsReservedCluster`; beyond it the C code reads other memory.
- RamDisk.FileSystem.PrintErrFile: needs a LOG entry in a cluster before the last; the padding runs into the next one.
- RamDisk.FileSystem.ParseConfigFile: needs an OPTIONS entry in a cluster that exists, as does `RamDisk.FileSystem.WriteConfigToFile`.
- RamDisk.HostWrites: leaves out writes of part of the root directory's sector; the host writes whole sectors.
- RamDisk.FileSystem.Write10: takes the log messages that an upload prints as an input; disk and upload are not one object, and `Upload.Device` does not print.
- Blocks of one session whose headers disagree on numBlocks or payload size (the first to arrive decides), beyond `UploadOrder.OpenSessionOrder`.
- The text of log messages; a message is any byte sequence.
- Directories other than the root, clusters outside the disk image, time stamps and boot-sector fields.
- TinyUSB callbacks other than the write callback, USB descriptors, LED blinking.
- `uf2_get_sha`, `firmware_calc_crc`, `get_first_file_in_dir`, `is_cluster_in_chain`, ELF detection and the chip's sector and chip erase: nothing on the upload path calls them.
- The dead check for a pin number above 2 in `flash_get_bitstream_offset`.
- The library functions `strtoul`, `strncpy`, `memcpy`, `memset` and `snprintf` are given by what the C standard says they compute.
