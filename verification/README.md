# Verified models of ten U-Boot commands

This project models the algorithmic cores of ten command modules of the U-Boot tree
for the iTop-4412 board, and proves what they keep, undo or refine. Every module of
the project stands for one source file or a part of one:

| project files | source | what is modelled |
|---|---|---|
| `Arithmetic`, `CText`, `Octets` | `lib_generic/vsprintf.c` | quotients and remainders, 32-bit numbers, C strings, number parsing, bytes and their sums |
| `MtdParts`, `MtdRoundTrip`, `MtdParsed` | `common/cmd_mtdparts.c` | the `mtdparts` text: parser, printer, and their round trips |
| `MtdCursor`, `MtdManager`, `MtdPartition` | `common/cmd_mtdparts.c` | device and partition lists with the current-partition cursor, as a state machine and as objects; the cursor saved as text and found again |
| `KermitPacket`, `KermitCheck`, `KermitReceiver`, `KermitSession`, `KermitFile`, `KermitLine` | `common/cmd_load.c` | the Kermit receiver: packets, checks, checkpoint and rollback, the character loops, whole files, lines that damage packets |
| `SRecord`, `SRecordLoad` | `common/cmd_load.c`, `common/s_record.c` | S-record upload, decoder and download |
| `MemTest` | `common/cmd_mem.c` | the increment test of `mtest` over faulty memory |
| `Flash`, `FlashCommands` | `common/cmd_flash.c` | sector ranges over several banks, rounding, erase and protect |
| `Fdc` | `common/cmd_fdc.c` | reading blocks from a floppy disc with nested retries |
| `LogBuffer`, `LogRing` | `common/cmd_log.c` | line tags, the writer in place and the ring in both layouts |
| `Eeprom` | `common/cmd_eeprom.c` | paged reads and writes |
| `FdtText`, `FdtCells`, `FdtProp` | `common/cmd_fdt.c` | property values as text |
| `Fastboot`, `FastbootImage`, `FastbootHandler`, `FastbootEnv`, `FastbootEnvText` | `common/cmd_fastboot.c` | the download and flash machine, what its commands take from the buffer, the handler with its variables, and settings saved from a download |
| `Bedbug`, `BedbugText` | `common/bedbug.c` | branch instructions in assembler, disassembler and stepper, as words and as lines of text |

The loops and updated fields of the source are methods and classes; each is proved
against a function that says what it computes, and the theorems are about those
functions. `unsigned long` and `unsigned int` have 32 bits, as on the boards of the
tree, and wrap where they do there. A `char *` that advances is the text that is left.
Input from a line is a sequence of characters, console output and environment writes
are results or ghost fields, and hardware is a class whose behaviour is a parameter:
wiring faults of memory, errors of a disc transfer, acknowledgements of an EEPROM, the
outcome of an erase, what a flash driver takes from the transfer buffer.

Where the code does less than its commands promise, the code is modelled as it is, the
exact condition is proved and a lemma shows the case that fails: a fill-up partition
smaller than the minimum size is accepted once but not when its own text is read again
(`MtdRoundTrip.FillReadsBack`); a full log ring shows as empty (`LogRing.Log.Show`); an
empty S-record upload is reported as two bytes (`SRecordLoad.EmptyUploadReportsTwoBytes`);
a flash range that reaches the top of memory can run on at address 0
(`Flash.ChosenSectorsAreRequested`, `Flash.WrappedRangeRunsOn`); a line continued after a
log reset has no tag (`LogBuffer.TaggedAfterReset`); block numbers past the eight-bit
track field address earlier blocks (`Fdc.SamePosition`); an EEPROM range that wraps is
silently not written (`Eeprom.EepromWrite`); device-tree words come back byte-swapped
on a little-endian processor (`FdtProp.WordsRoundTrip`), and cells may mean something else when split
(`FdtProp.CellsSplitting`); a listing in octal does not assemble
(`BedbugText.BranchReassembles`); branches with non-zero z bits are taken for not
taken (`Bedbug.DecisionMatchesIsa`), and sc and rfi for instructions that go on
(`Bedbug.StepMatchesIsa`); boot images are taken from the transfer buffer by the sizes in
their header, received or not (`FastbootImage.CommandIsProper`, `FastbootImage.OneByteBoot`);
saving settings edits the downloaded text, so that the same download flashed again is
not what was received (`FastbootImage.StepAlters`, `FastbootImage.SavedThenFlashed`) and
saved again unsets a variable (`FastbootEnvText.SavedTwiceUnsets`).

## Model

| member | source | states |
|---|---|---|
| CText.SimpleStrtoul | iTop4412_uboot_scp/lib_generic/vsprintf.c:39-64 | the loop with its prefix rules computes the recursive definition of the number and of the text left behind it, wrapping in 32 bits |
| CText.DecimalReadsBack | iTop4412_uboot_scp/lib_generic/vsprintf.c:39-64 | a printed decimal number, followed by text that cannot extend it, is read back with exactly that text left |
| MtdParts.MemsizeReadsBack | iTop4412_uboot_scp/common/cmd_mtdparts.c:184-231 | parsing undoes formatting for every 32-bit size, g, m and k suffixes included, whatever text follows that is no digit or suffix |
| MtdParts.FindBlock | iTop4412_uboot_scp/common/cmd_mtdparts.c:347-374 | the search through the erase regions succeeds exactly if the address starts an erase block, and reports the start it found |
| MtdParts.PartValidate | iTop4412_uboot_scp/common/cmd_mtdparts.c:398-425 | decides as the specification: offset filled in, 32-bit wrap, device end and erase-block alignment, in this order |
| MtdParts.PartValidateEraseblock | iTop4412_uboot_scp/common/cmd_mtdparts.c:308-385 | accepts exactly the partitions whose two ends are erase-block boundaries, on a chip with one erase size or with regions of several |
| MtdParts.PartsParse | iTop4412_uboot_scp/common/cmd_mtdparts.c:868-909 | the loop over a device's partitions equals the recursive grammar, offsets continued from the partition before |
| MtdParts.DeviceParse | iTop4412_uboot_scp/common/cmd_mtdparts.c:826-951 | id lookup, separators, partition loop and sorted move into the new list give the device and the text left that the grammar gives, or fail where it fails |
| MtdParts.ParseMtdparts | iTop4412_uboot_scp/common/cmd_mtdparts.c:1370-1417 | the loop over devices accepts exactly the texts of the grammar, and gives the table that it gives; a device named twice is refused |
| MtdParts.SortAddLast | iTop4412_uboot_scp/common/cmd_mtdparts.c:499-553 | adding a partition behind all others appends it |
| MtdParts.AscendingAddsInOrder | iTop4412_uboot_scp/common/cmd_mtdparts.c:499-553 | adding partitions in ascending order keeps their order |
| MtdRoundTrip.GeneratePart | iTop4412_uboot_scp/common/cmd_mtdparts.c:1103-1163 | one partition is printed as the text definition says: offset only behind a gap, name only if given, flag and separator |
| MtdRoundTrip.GenerateParts | iTop4412_uboot_scp/common/cmd_mtdparts.c:1099-1165 | the loop prints every partition, eliding an offset that follows from the one before |
| MtdRoundTrip.GenerateMtdparts | iTop4412_uboot_scp/common/cmd_mtdparts.c:1067-1184 | the whole text, with its prefix and separators, is that of the text definition |
| MtdRoundTrip.PartReadsBack | iTop4412_uboot_scp/common/cmd_mtdparts.c:584-692 | a printed partition is parsed back, with whatever follows left over, exactly if its size is at least the minimum or it is a last fill-up part; otherwise it is refused |
| MtdRoundTrip.PartsReadBack | iTop4412_uboot_scp/common/cmd_mtdparts.c:868-909 | a device's printed partitions are parsed back with sizes, offsets (also the elided ones), flags and given names, exactly if each can be reparsed |
| MtdRoundTrip.DeviceReadsBack | iTop4412_uboot_scp/common/cmd_mtdparts.c:826-951 | a printed device is parsed back with its id and all partitions, or refused, under the same condition |
| MtdRoundTrip.TableReadsBack | iTop4412_uboot_scp/common/cmd_mtdparts.c:1370-1417 | parsing the printed text of any good table rebuilds it if every partition can be reparsed, and fails otherwise |
| MtdRoundTrip.NamedTableReadsBack | iTop4412_uboot_scp/common/cmd_mtdparts.c:1067-1184 | with names given by the user the rebuilt table is equal to the printed one |
| MtdRoundTrip.FillReadsBack | iTop4412_uboot_scp/common/cmd_mtdparts.c:598-610 | a device given as one "-(name)" part is accepted whatever its size, but its printed table is accepted exactly if the device has at least the minimum size |
| MtdParsed.ValidateSettles | iTop4412_uboot_scp/common/cmd_mtdparts.c:398-425 | what validation returns is validated unchanged, with a definite offset |
| MtdParsed.ParsedTableReadsBack | iTop4412_uboot_scp/common/cmd_mtdparts.c:1370-1417 | for any accepted text whose table has ascending offsets: the table is good, and printing and parsing it again gives it back exactly if it is reparsable |
| MtdCursor.GoodPartsFit | iTop4412_uboot_scp/common/cmd_mtdparts.c:308-425 | in a good state every partition is non-empty, aligned and inside its device in true arithmetic, and offsets are distinct, so at most one is 0 |
| MtdCursor.SortAddSplices | iTop4412_uboot_scp/common/cmd_mtdparts.c:499-553 | sorted insertion puts the partition between the smaller and the larger offsets and moves nothing else, or is refused for a second one at offset 0 |
| MtdCursor.AddPartKeeps | iTop4412_uboot_scp/common/cmd_mtdparts.c:499-553 | insertion keeps the state good and never changes which partition is current |
| MtdCursor.DelPartKeeps | iTop4412_uboot_scp/common/cmd_mtdparts.c:434-471 | deletion keeps the state good and the current partition, unless that one is deleted; then it says which comes next |
| MtdCursor.DelDeviceKeeps | iTop4412_uboot_scp/common/cmd_mtdparts.c:747-769 | deleting a device keeps the state good, and the current partition unless it was on that device |
| MtdCursor.AddDeviceKeeps | iTop4412_uboot_scp/common/cmd_mtdparts.c:799-815 | adding a device keeps the state good; the first device becomes current |
| MtdCursor.StepKeeps | iTop4412_uboot_scp/common/cmd_mtdparts.c:434-573 | every operation that the commands allow keeps the invariant and, if it neither selects nor deletes the current partition, the current partition |
| MtdCursor.RunKeeps | iTop4412_uboot_scp/common/cmd_mtdparts.c:434-573 | every run of inserts, deletes and selections keeps the invariant |
| MtdCursor.RunTracksCurrent | iTop4412_uboot_scp/common/cmd_mtdparts.c:434-573 | over every run the current partition is the same until one step selects another or deletes it |
| MtdCursor.IndexIsPosition | iTop4412_uboot_scp/common/cmd_mtdparts.c:238-271 | device count plus partition number is the position in the concatenation of all lists |
| MtdManager.Manager.IndexPartitions | iTop4412_uboot_scp/common/cmd_mtdparts.c:238-271 | mtddevnum and mtddevname become the position and name of the current partition |
| MtdManager.Manager.CountBefore | iTop4412_uboot_scp/common/cmd_mtdparts.c:238-271 | the loop counts exactly the partitions of the devices before the current one |
| MtdManager.Manager.MtdPartInfo | iTop4412_uboot_scp/common/cmd_mtdparts.c:1674-1705 | finds the partition of that number, or nothing exactly if there is none |
| MtdManager.Manager.PartSortAdd | iTop4412_uboot_scp/common/cmd_mtdparts.c:499-553 | the list of device objects and the cursor fields change as the state machine says, and nothing else does; the partition variable stays in step |
| MtdManager.Manager.PartAdd | iTop4412_uboot_scp/common/cmd_mtdparts.c:562-573 | succeeds exactly if the partition validates and no other one is at offset 0; then it inserts and puts the published index in step, otherwise it changes nothing; the partition variable stays in step |
| MtdManager.Manager.PartDel | iTop4412_uboot_scp/common/cmd_mtdparts.c:434-471 | the objects and the cursor change as the state machine's deletion, a device that lost its last partition included; index and partition variable stay in step |
| MtdManager.Manager.DeviceDel | iTop4412_uboot_scp/common/cmd_mtdparts.c:747-769 | the device objects and the cursor change as the state machine's device deletion; index and partition variable stay in step |
| MtdManager.Manager.DeviceAdd | iTop4412_uboot_scp/common/cmd_mtdparts.c:799-815 | the device objects and the cursor change as the state machine's device addition; index and partition variable stay in step |
| MtdManager.Manager.Chpart | iTop4412_uboot_scp/common/cmd_mtdparts.c:1721-1747 | selecting a partition moves the cursor there and leaves index and partition variable in step |
| MtdManager.Manager.CurrentSave | iTop4412_uboot_scp/common/cmd_mtdparts.c:276-297 | the partition variable names the current partition, and the index is in step |
| MtdManager.Manager.SavedIsFound | iTop4412_uboot_scp/common/cmd_mtdparts.c:1277-1329 | where the partition variable is in step, as every operation keeps it, it leads back to the current partition exactly if no partition listed before bears that text as its name |
| MtdPartition.FindDevAndPart | iTop4412_uboot_scp/common/cmd_mtdparts.c:1277-1329 | the nested search for a name, then the device and number form, gives the place that the definition gives, or nothing |
| MtdPartition.SavedPartitionIsFound | iTop4412_uboot_scp/common/cmd_mtdparts.c:1277-1329 | the saved text of the current partition is resolved to that partition exactly if no partition listed before it bears that very text as its name |
| MtdPartition.RestartRestores | iTop4412_uboot_scp/common/cmd_mtdparts.c:1536-1663 | parsing the printed table and then the saved text gives the whole state back, lists and cursor, for given names and sizes the parser takes, exactly if no partition listed before the current one is named like that text |
| MtdPartition.NameHidesPartition | iTop4412_uboot_scp/common/cmd_mtdparts.c:1277-1329 | a good state where it is not: the first partition is named "nand0,1", which is the saved text of the second |
| MtdPartition.IdReadsBack | iTop4412_uboot_scp/common/cmd_mtdparts.c:1029-1057 | a printed device type and number is parsed back, with the text behind it left |
| MtdPartition.SavedTextFits | iTop4412_uboot_scp/common/cmd_mtdparts.c:276-297 | the saved text fits the 16 characters it is kept in |
| KermitPacket.FrameScans | iTop4412_uboot_scp/common/cmd_load.c:848-947 | every packet framed by the Kermit Protocol Manual's "Packet Format" section, short or extended, is accepted with its sequence number, type and data, and nothing behind it is consumed |
| KermitPacket.ScanShrinks | iTop4412_uboot_scp/common/cmd_load.c:848-947 | an attempt never gives characters back to the line |
| KermitCheck.CheckIsModulo256 | iTop4412_uboot_scp/common/cmd_load.c:568-576 | the check depends on the sum of characters modulo 256 only |
| KermitCheck.SignednessIsIrrelevant | iTop4412_uboot_scp/common/cmd_load.c:568-576 | summing the characters as signed or as unsigned gives the same check |
| KermitCheck.CheckSeesBit | iTop4412_uboot_scp/common/cmd_load.c:568-576 | changing the sum by any power of two below 256 changes the check |
| KermitCheck.SingleBitErrorRejected | iTop4412_uboot_scp/common/cmd_load.c:849-937 | flipping any single bit behind the length character of an accepted packet, of any length, in its sequence, type, extended header, data, block check or end, makes the receiver reject it, and it consumes nothing behind the packet |
| KermitCheck.BuildSendReply | iTop4412_uboot_scp/common/cmd_load.c:698-782 | the switch that falls through builds the send-init reply for every number of parameters |
| KermitCheck.RepliesAreAccepted | iTop4412_uboot_scp/common/cmd_load.c:587-611 | every ACK, NACK and send-init reply passes the length and check rules of the receiver itself |
| KermitReceiver.StepWritesAbove | iTop4412_uboot_scp/common/cmd_load.c:864-947 | no attempt of any kind writes below the checkpoint in force after it |
| KermitReceiver.RunWritesAbove | iTop4412_uboot_scp/common/cmd_load.c:785-958 | over any run, what is below the checkpoint is never written again, and the checkpoint never moves back |
| KermitReceiver.RunDelivers | iTop4412_uboot_scp/common/cmd_load.c:819-958 | for any retransmissions of packets numbered differently from their neighbours, memory holds each accepted data packet's decoding once and in order |
| KermitReceiver.ReceivedIsDecodedStream | iTop4412_uboot_scp/common/cmd_load.c:675-690 | decoding packet by packet is decoding the concatenated data, also when a packet ends between a quote and its character |
| KermitReceiver.BadHeaderLosesPacket | iTop4412_uboot_scp/common/cmd_load.c:864-946 | the stated assumption is needed: a rejected length or sequence character after an accepted packet rolls back over that packet |
| KermitSession.Receiver.KRecv | iTop4412_uboot_scp/common/cmd_load.c:785-958 | the loops over characters, with their global state, leave exactly the state of the run over the packet attempts on the line |
| KermitSession.Receiver.ReceivePacket | iTop4412_uboot_scp/common/cmd_load.c:819-958 | one turn of the main loop is one step of the state machine on the scanned attempt |
| KermitSession.Receiver.HandleSendPacket | iTop4412_uboot_scp/common/cmd_load.c:698-782 | sets quote and end-of-line from the parameters and sends the reply, as the state machine does |
| KermitSession.Receiver.KDataChar | iTop4412_uboot_scp/common/cmd_load.c:675-690 | one character through the quote state and the memory writer |
| KermitFile.KtransUndoesQuoting | iTop4412_uboot_scp/common/cmd_load.c:558-566 | ktrans maps each quoted control character, DEL and quote character back |
| KermitFile.QuotingDecodes | iTop4412_uboot_scp/common/cmd_load.c:558-690 | decoding inverts control quoting for every byte string and every legal quote character |
| KermitFile.QuotedIsPrinting | iTop4412_uboot_scp/common/cmd_load.c:916-918 | the quoted form never holds a character that the receiver rejects as control |
| KermitFile.FileArrives | iTop4412_uboot_scp/common/cmd_load.c:785-958 | a quoted file, cut into packets anywhere and retransmitted in any way, arrives byte for byte |
| KermitFile.CleanTransfer | iTop4412_uboot_scp/common/cmd_load.c:785-958 | k_recv itself, on the characters of a transfer without line errors, ends with the file in memory and returns its size |
| KermitLine.DamagedHeard | iTop4412_uboot_scp/common/cmd_load.c:848-947 | a copy of a packet with one bit flipped behind its sequence character is a rejected attempt with its sequence number, and what is left of it holds no start character |
| KermitLine.LineHeard | iTop4412_uboot_scp/common/cmd_load.c:785-958 | a line of packets, each in any number of damaged and intact copies of which the last is intact, is one group of attempts for each packet, the last one accepted |
| KermitLine.NoisyTransfer | iTop4412_uboot_scp/common/cmd_load.c:785-958 | k_recv itself, on the characters of a transfer whose packets come in any number of copies damaged by a bit and of intact ones, ends with the file in memory and returns its size |
| SRecord.SrecDecode | iTop4412_uboot_scp/common/s_record.c:30-170 | the decoder with its fall-through address fields returns what the record's fields, read as a whole, say: type, count, address, data, or the error |
| SRecord.RecordSumsToFF | iTop4412_uboot_scp/common/cmd_load.c:344-382 | count, address, data and check bytes of an uploaded record sum to 0xFF modulo 256, and the record fits its 48 characters |
| SRecord.RecordReadsBack | iTop4412_uboot_scp/common/cmd_load.c:344-382 | every uploaded data record decodes to its address and its bytes |
| SRecord.TrailerReadsBack | iTop4412_uboot_scp/common/cmd_load.c:329 | the end record decodes as an end record with address 0 |
| SRecord.SaveSerial | iTop4412_uboot_scp/common/cmd_load.c:332-385 | the collecting loop emits the header, the records of the memory region 16 bytes at a time with contiguous addresses, and the end record |
| SRecordLoad.ReadRecord | iTop4412_uboot_scp/common/cmd_load.c:218-254 | a line up to its end, cut at the buffer size, with ^C and NUL ending the download |
| SRecordLoad.LoadSerial | iTop4412_uboot_scp/common/cmd_load.c:143-216 | memory, lowest and highest address and the ending are those of the recursive definition over lines; the size is computed from them |
| SRecordLoad.SavedRegionLoads | iTop4412_uboot_scp/common/cmd_load.c:143-216 | downloading what was uploaded puts the saved bytes, and nothing else, at the same addresses plus the offset, even if the region wraps |
| SRecordLoad.ReportedFigures | iTop4412_uboot_scp/common/cmd_load.c:184-199 | first address, last address and size are reported right exactly if the region is not empty and does not run over the end of memory, or is a single record |
| SRecordLoad.EmptyUploadReportsTwoBytes | iTop4412_uboot_scp/common/cmd_load.c:184-199 | an empty upload is reported as two bytes |
| MemTest.Memory.FillPass | iTop4412_uboot_scp/common/cmd_mem.c:865-874 | every selected cell holds the pattern of the last offset that selects it |
| MemTest.Memory.InvertPass | iTop4412_uboot_scp/common/cmd_mem.c:876-893 | counts exactly the offsets whose read differs, aliases already inverted, and leaves every cell inverted |
| MemTest.Memory.VerifyPass | iTop4412_uboot_scp/common/cmd_mem.c:895-914 | counts exactly the offsets whose inverted read differs, and leaves every cell zero |
| MemTest.NoErrorMeansFaultless | iTop4412_uboot_scp/common/cmd_mem.c:865-914 | no error in the two checking passes if and only if addresses are decoded injectively and no bit of a tested word is stuck |
| MemTest.Memory.IncrementTest | iTop4412_uboot_scp/common/cmd_mem.c:865-914 | the three passes add no error if and only if the memory is faultless, and end with it zeroed |
| Flash.ResolvedRangeIsTiled | iTop4412_uboot_scp/common/cmd_flash.c:165-287 | on any board of well-formed banks the chosen sectors of successive banks tile one interval that starts at addr_first and ends by addr_last, exactly if the range does not run on: it runs on when it reaches the top of the address space and behind a bank that ends there a bank at address 0 is listed |
| Flash.ChosenSectorsAreRequested | iTop4412_uboot_scp/common/cmd_flash.c:165-287 | no sector that reaches outside the request is chosen, for every board of well-formed banks and every request, if and only if the request starts at 0 or does not run on |
| Flash.NothingRunsOn | iTop4412_uboot_scp/common/cmd_flash.c:165-287 | with at most the last bank at the top, or with a request that ends lower, the chosen sectors tile and stay inside the request |
| Flash.WrappedRangeRunsOn | iTop4412_uboot_scp/common/cmd_flash.c:271-273 | the shortest case that runs on: the request for a bank at the top of memory chooses the bank at address 0 listed next, whole |
| Flash.BoundaryRangeResolves | iTop4412_uboot_scp/common/cmd_flash.c:165-287 | any range from a sector start to a sector end, over contiguous ascending banks, is accepted and chooses exactly the sectors between |
| Flash.RoundbFinds | iTop4412_uboot_scp/common/cmd_flash.c:110-146 | rounding gives the end of the sector that holds the address |
| Flash.StartPlusLength | iTop4412_uboot_scp/common/cmd_flash.c:165-204 | "start +len" from a sector boundary is always accepted and chooses exactly the sectors that meet the range |
| FlashCommands.ScanBank | iTop4412_uboot_scp/common/cmd_flash.c:237-253 | the loop over sectors finds the first and the last sector that the range covers |
| FlashCommands.FillSectRanges | iTop4412_uboot_scp/common/cmd_flash.c:206-287 | returns 0 exactly if the range resolves, with the choice in s_first and s_last and the number of chosen sectors |
| FlashCommands.FlashSectRoundb | iTop4412_uboot_scp/common/cmd_flash.c:110-146 | rounds as specified, and leaves the address alone where it fails |
| FlashCommands.AddrSpec | iTop4412_uboot_scp/common/cmd_flash.c:165-204 | the "+len" form rounds the last address, the plain form takes it as it is |
| FlashCommands.FlashSectProtect | iTop4412_uboot_scp/common/cmd_flash.c:647-698 | exactly the chosen sectors change their protection, in every bank; 0 is returned if and only if there is something to do |
| FlashCommands.FlashSectErase | iTop4412_uboot_scp/common/cmd_flash.c:422-461 | no sector but a chosen one is erased, and all chosen ones are when 0 is returned |
| FlashCommands.ToDoIsRequested | iTop4412_uboot_scp/common/cmd_flash.c:422-461 | what the commands erase or protect lies inside the request if and only if the range is refused, starts at 0 or does not run on |
| Fdc.PositionBySides | iTop4412_uboot_scp/common/cmd_fdc.c:304-321 | track, head and sector by nested division are those of dividing by sectors and then by heads |
| Fdc.PositionReadsBack | iTop4412_uboot_scp/common/cmd_fdc.c:304-321 | track, head and sector give the block number back, modulo what the eight-bit track field can tell apart |
| Fdc.SamePosition | iTop4412_uboot_scp/common/cmd_fdc.c:304-321 | two block numbers address the same place if and only if they are equal modulo that capacity |
| Fdc.TracksAreBlocks | iTop4412_uboot_scp/common/cmd_fdc.c:304-321 | the blocks from 0 on are the disc sector by sector, side by side, track by track |
| Fdc.ChunkIsTrackRead | iTop4412_uboot_scp/common/cmd_fdc.c:304-321 | blocks of one chunk lie side by side on one side of one track, so one READ command delivers them |
| Fdc.Controller.IssueCmd | iTop4412_uboot_scp/common/cmd_fdc.c:304-321 | a command addresses the position of its block |
| Fdc.AfterError | iTop4412_uboot_scp/common/cmd_fdc.c:536-589 | what follows an error: each error survived uses up one unit of the nested retry budget, which bounds them |
| Fdc.FdcReadData | iTop4412_uboot_scp/common/cmd_fdc.c:478-594 | for every pattern of transfer errors and command failures: TRUE only with exactly the addressed blocks in the buffer, which within the capacity are the requested stretch of the disc; without command failures TRUE exactly if fewer errors occur than the budget; and it terminates |
| LogBuffer.TaggedLines | iTop4412_uboot_scp/common/cmd_log.c:262-319 | one call keeps every logged line tagged, whatever lines were begun before |
| LogBuffer.EveryLineIsTagged | iTop4412_uboot_scp/common/cmd_log.c:262-319 | over any run of calls without a reset every line in the log starts with a level tag |
| LogBuffer.LaterLinesAreTagged | iTop4412_uboot_scp/common/cmd_log.c:262-319 | over any run, resets included, every line but the first does |
| LogBuffer.TaggedAfterReset | iTop4412_uboot_scp/common/cmd_log.c:119-141 | after a reset every line is tagged if and only if the reset did not come in the middle of a line, or nothing was logged since, or the text logged since brings its own tag |
| LogBuffer.TaggedTextIsKept | iTop4412_uboot_scp/common/cmd_log.c:262-319 | text whose lines already have tags is logged unchanged |
| LogRing.Log.Printk | iTop4412_uboot_scp/common/cmd_log.c:262-319 | the writer in place, stepping back three cells, appends exactly the text with its tags, and terminates |
| LogRing.Log.StartLine | iTop4412_uboot_scp/common/cmd_log.c:274-288 | a line without a tag gets the default one, written over cells already logged, and its own text is kept |
| LogRing.Log.Put | iTop4412_uboot_scp/common/cmd_log.c:290-306 | a character goes behind those written, in either layout, and only one too old to be held is lost |
| LogRing.Log.Show | iTop4412_uboot_scp/common/cmd_log.c:213-226 | prints exactly what was written while fewer than LOGBUFF_LEN characters are held; a full ring prints nothing, because its count is masked to 0 |
| LogRing.LayoutsAgree | iTop4412_uboot_scp/common/cmd_log.c:290-306 | both layouts hold the same last min(n, LOGBUFF_LEN) characters from the same start, their counters wrapped or not |
| Eeprom.WritesStayInPage | iTop4412_uboot_scp/common/cmd_eeprom.c:259-273 | no write crosses a page, for any range, if and only if pages are at most 256 bytes or bytes are written one by one |
| Eeprom.ChunksTile | iTop4412_uboot_scp/common/cmd_eeprom.c:127-190 | chunks are non-empty, within the transfer limit and in one page or block, and tile the range |
| Eeprom.EepromWrite | iTop4412_uboot_scp/common/cmd_eeprom.c:201-375 | the transfers are exactly the chunks; 0 is returned if and only if all are acknowledged; for every range none of whose chunks crosses a page nothing outside it changes, and after success the device is as after one linear write; if offset + cnt wraps nothing is done and 0 is returned |
| Eeprom.SmallPagesNeverCross | iTop4412_uboot_scp/common/cmd_eeprom.c:259-273 | no chunk of any range crosses a page if pages are at most 256 bytes or bytes are written one by one |
| Eeprom.ProgressMore | iTop4412_uboot_scp/common/cmd_eeprom.c:247-366 | a chunk written with wrap-around inside its page continues the linear write |
| Eeprom.EepromRead | iTop4412_uboot_scp/common/cmd_eeprom.c:127-190 | 0 is returned if and only if all transfers are acknowledged, and then the buffer holds the range |
| Eeprom.WrittenReadsBack | iTop4412_uboot_scp/common/cmd_eeprom.c:201-375 | after a successful write the range holds the buffer and all else is as before |
| Eeprom.CrossingWriteWraps | iTop4412_uboot_scp/common/cmd_eeprom.c:259-273 | with larger pages, two bytes for the end of any page and the start of the next are one chunk, and the second one lands at the start of the same page |
| FdtText.StringsArePrintable | iTop4412_uboot_scp/common/cmd_fdt.c:607-642 | the bytes of a string list are recognised as strings exactly if all characters print and no string but the first is empty |
| FdtText.StringsSplit | iTop4412_uboot_scp/common/cmd_fdt.c:661-673 | printing finds the strings that were given |
| FdtText.SplitJoins | iTop4412_uboot_scp/common/cmd_fdt.c:661-673 | every value ending in NUL is the image of the strings found in it |
| FdtText.SplittingIsFree | iTop4412_uboot_scp/common/cmd_fdt.c:562-583 | a byte stream is read the same however its text is split into arguments at spaces, well-formed or not |
| FdtText.DumpReadsBack | iTop4412_uboot_scp/common/cmd_fdt.c:682-689 | a hexdump of any bytes is read back |
| FdtCells.JoinedIsTrimmed | iTop4412_uboot_scp/common/cmd_fdt.c:528-561 | the joined text is read as the arguments without their leading spaces, well-formed or not, if the first has text behind its bracket |
| FdtCells.CellsReadAlike | iTop4412_uboot_scp/common/cmd_fdt.c:528-561 | accepted arguments of cells are read like the joined text if and only if the first has text behind its bracket or is the only one; refused ones too, unless one has leading spaces |
| FdtCells.WordsReadBackSwapped | iTop4412_uboot_scp/common/cmd_fdt.c:675-681 | printed words, split at their spaces in any way, are read back with the bytes of every word reversed |
| FdtProp.FdtParseProp | iTop4412_uboot_scp/common/cmd_fdt.c:518-599 | the pointer-advancing loops build what the recursive definition of the three forms says |
| FdtProp.IsPrintableString | iTop4412_uboot_scp/common/cmd_fdt.c:607-642 | the scan decides the declarative definition: ends in NUL, only printing characters and NULs, no two NULs in a row |
| FdtProp.PrintData | iTop4412_uboot_scp/common/cmd_fdt.c:650-690 | the printer writes the text of the definition in each of its forms |
| FdtProp.StringsRoundTrip | iTop4412_uboot_scp/common/cmd_fdt.c:518-690 | a string list whose first string does not start with < or [ is printed as given exactly if it is presentable |
| FdtProp.HexdumpRoundTrip | iTop4412_uboot_scp/common/cmd_fdt.c:518-690 | a hexdump split into arguments in any way is parsed back unchanged |
| FdtProp.WordsRoundTrip | iTop4412_uboot_scp/common/cmd_fdt.c:518-690 | a value printed as words and split into arguments at its spaces in any way is parsed back with every word reversed, so unchanged exactly if every word is symmetric |
| FdtProp.CellsSplitting | iTop4412_uboot_scp/common/cmd_fdt.c:518-599 | an accepted property of cells means the same joined if and only if its first argument is not a bare bracket or is the only one |
| FdtProp.CellsDependOnSplitting | iTop4412_uboot_scp/common/cmd_fdt.c:528-561 | both ways in which splitting matters: "<" "5>" is accepted, "< 5>" is not; "<5  6>" is accepted, "<5" " 6>" is not |
| Fastboot.RunFollows | iTop4412_uboot_scp/common/cmd_fastboot.c:580-1175 | over every run the history is a right one: an active download has fewer bytes than its size, which the buffer holds; completion comes once, with the first bytes received; flash and boot commands take something only when an image is complete, and take what the buffer then holds |
| Fastboot.StepFollows | iTop4412_uboot_scp/common/cmd_fastboot.c:580-1175 | one event takes the history from the phase the variables stand for to the phase they then stand for |
| Fastboot.ChunksArrive | iTop4412_uboot_scp/common/cmd_fastboot.c:589-656 | however data is cut into packets it is appended, excess dropped, with one reply when all is there |
| Fastboot.ChunkingIsFree | iTop4412_uboot_scp/common/cmd_fastboot.c:589-656 | two ways to cut the same data give the same state and replies |
| FastbootImage.CommandIsProper | iTop4412_uboot_scp/common/cmd_fastboot.c:901-1143 | while the image is as it came, a command acts on nothing but received bytes if and only if these hold all that it takes: for boot images the header and what its sizes announce, at a ramdisk offset computed in 32 bits, and otherwise what the driver takes for the size of the image |
| FastbootImage.RunIsProper | iTop4412_uboot_scp/common/cmd_fastboot.c:580-1175 | over any run that edits no image, all commands act on nothing but the received image if and only if what each takes had been received |
| FastbootImage.CommandsAfterDownload | iTop4412_uboot_scp/common/cmd_fastboot.c:580-1175 | the same after any run and a completed download: nothing that came before it matters |
| FastbootImage.StepAlters | iTop4412_uboot_scp/common/cmd_fastboot.c:1081-1099 | an event leaves the image as it came unless it saves settings from a text that is more than one name, and then always changes it |
| FastbootImage.NothingEdits | iTop4412_uboot_scp/common/cmd_fastboot.c:1081-1099 | on a board without partitions for settings no run edits an image |
| FastbootImage.EditedStays | iTop4412_uboot_scp/common/cmd_fastboot.c:226-389 | an edited image stays edited until the next download is complete |
| FastbootImage.EditedIsNotProper | iTop4412_uboot_scp/common/cmd_fastboot.c:1065-1143 | then a command that writes or saves the whole image does not act on what came |
| FastbootImage.OneByteBoot | iTop4412_uboot_scp/common/cmd_fastboot.c:979-1051 | flash:boot after a download of one byte takes bytes that were never received |
| FastbootImage.SavedThenFlashed | iTop4412_uboot_scp/common/cmd_fastboot.c:1065-1143 | "a b" with a line feed, saved as settings and then flashed elsewhere, is written with NULs for the space and the line feed |
| FastbootEnv.ParseEnv | iTop4412_uboot_scp/common/cmd_fastboot.c:226-389 | the loop over the buffer, which ends strings and joins escaped lines in place, leaves the buffer, the count and the settings of the recursive definition |
| FastbootEnv.SaveEnvToPtn | iTop4412_uboot_scp/common/cmd_fastboot.c:393-410 | the checking and the saving pass leave the buffer, the settings and the reply of the definition |
| FastbootEnvText.SavedIfNamed | iTop4412_uboot_scp/common/cmd_fastboot.c:226-410 | a text is saved, and answered OKAY, if and only if a name starts in it outside comments; otherwise nothing changes |
| FastbootEnvText.KeptIfOneName | iTop4412_uboot_scp/common/cmd_fastboot.c:226-410 | saving leaves the text as it was if and only if there is no name in it or one that runs to its end |
| FastbootEnvText.SettingsAreSaved | iTop4412_uboot_scp/common/cmd_fastboot.c:226-410 | a text of lines "name value" saves exactly these settings in order, and leaves their strings ended by NULs |
| FastbootEnvText.SavedTwiceUnsets | iTop4412_uboot_scp/common/cmd_fastboot.c:226-410 | saving the same download again, if no value has a gap, unsets its first variable and sets nothing |
| FastbootHandler.Handler.RxHandler | iTop4412_uboot_scp/common/cmd_fastboot.c:580-1175 | the variables, buffer and replies change, and the acts noted grow, as one step of the machine; the notes from the start on stay a right history in the phase of the variables |
| FastbootHandler.Handler.Receive | iTop4412_uboot_scp/common/cmd_fastboot.c:589-656 | a data packet is copied behind the bytes there are, cut at the announced size |
| FastbootHandler.Handler.StartDownload | iTop4412_uboot_scp/common/cmd_fastboot.c:843-873 | size zero and sizes over the buffer are refused and leave no download active |
| FastbootHandler.Handler.DoBoot | iTop4412_uboot_scp/common/cmd_fastboot.c:902-971 | with more than a page of bytes all that the header announces is taken, and both replies are sent |
| FastbootHandler.Handler.DoFlash | iTop4412_uboot_scp/common/cmd_fastboot.c:977-1149 | refuses without an image, without a partition and when the image does not fit, hands the image to the partition, or has settings saved, which changes the buffer; reply, act and buffer are those of the machine |
| FastbootHandler.Handler.WriteBoot | iTop4412_uboot_scp/common/cmd_fastboot.c:991-1062 | kernel and ramdisk go to their partitions with the header's sizes, unless one is too large for its partition; a kernel already written stays written |
| FastbootHandler.Handler.ResetHandler | iTop4412_uboot_scp/common/cmd_fastboot.c:214-221 | a reset forgets the download, and is noted |
| Bedbug.TargetIsShown | iTop4412_uboot_scp/common/bedbug.c:863-879 | assembled and disassembled at the same address a branch shows its target if and only if the displacement is a multiple of four in reach of the field |
| Bedbug.SameTarget | iTop4412_uboot_scp/common/bedbug.c:261-274 | disassembler and stepper extend the field's sign to the same address |
| Bedbug.FieldsReassemble | iTop4412_uboot_scp/common/bedbug.c:863-879 | the fields read out of any b or bc form word, with the printed address, assemble to that word |
| BedbugText.ReadWord | iTop4412_uboot_scp/common/bedbug.c:953-985 | the two loops give the next word and the text behind it and one comma, as the recursive definition says |
| BedbugText.AsmPpc | iTop4412_uboot_scp/common/bedbug.c:753-844 | the loop over operands with its silent ones assembles a branch line as the recursive definition says, or refuses it where that does |
| BedbugText.NumberTextReadsBack | iTop4412_uboot_scp/common/bedbug.c:990-1014 | an operand printed in any radix but octal is read back; in octal it is read as 0 |
| BedbugText.BranchReassembles | iTop4412_uboot_scp/common/bedbug.c:231-349 | the line printed for any b or bc form word, with name, BO, BI and address in the radix of the listing, assembles to that word if and only if the radix is not octal or BO and BI are 0 or not there |
| Bedbug.NumberReadsBack | iTop4412_uboot_scp/common/bedbug.c:990-1014 | the printed hexadecimal address is read back, as a 32-bit long |
| Bedbug.DecisionMatchesIsa | iTop4412_uboot_scp/common/bedbug.c:1160-1214 | taken or not taken is as the Power ISA says, for every counter and condition, if and only if the z bits of BO are zero |
| Bedbug.StepMatchesIsa | iTop4412_uboot_scp/common/bedbug.c:1053-1238 | with zero z bits stepping goes where the Power ISA goes, if and only if a register branched to holds a word address, the instruction is no sc or rfi that goes elsewhere than to the next word, and the word is among the opcodes; stepping over stops behind a linking branch |
| Bedbug.SystemIsPassed | iTop4412_uboot_scp/common/bedbug.c:1154-1157 | sc and rfi are such instructions: stepping takes them to go to the next word |
| Bedbug.TreatmentsAgree | iTop4412_uboot_scp/common/bedbug.c:1053-1238 | for a target in reach, assembling, disassembling and stepping all give that target |

## Left out

- Console output, `getc` and `putc` timing, ^C polling between packets, baud-rate switching, watchdog, LEDs and progress bars: input and output plumbing.
- Allocation failures, and sizes of output buffers: `generate_mtdparts` does not count the nine characters of its prefix in its budget, and its text is assumed to fit; `fdt_parse_prop` fills its 1024-byte scratchpad unchecked.
- Partition lists with equal non-zero offsets: the cursor update and the printer are not meant for them; the theorems ask for distinct offsets.
- Names of partitions that were generated automatically: they come back as generated, and the round trip says so only for names that were given.
- `mtdparts add` on an existing device re-uses list nodes; the model adds the partitions one by one to sequences of objects.
- `mtdids` parsing, and the environment itself: the `partition` variable is the text written to it.
- A chip with an erase size of zero, which the source would divide by.
- Kermit: padding before packets and the baud-rate handshake around a transfer; a packet cut off by silence is an attempt without effect.
- Kermit: a bad length or sequence character rolls back to the checkpoint before the last packet. That the two are intact is the code's own assumption; `KermitReceiver.BadHeaderLosesPacket` shows that it is needed.
- S-records: storing to flash instead of memory, and the hang-up check of consoles that are not the serial line; the end of the input counts as ^C.
- SRecordLoad.LoadSerial: a data record whose count byte does not cover its own address makes the source copy a negative number of bytes; the model stops there with the ending `Undefined`.
- Y-modem download.
- `mtest`: the data-line and address-line tests of the alternative variant and the plain pattern test; bridged bits that depend on each other are no part of the fault model.
- Flash: parsing of addresses, bank numbers and partition names on the command line; erase and protect operations of the chip drivers.
- Fdc.FdcReadData: waiting for interrupts and for the controller to become ready is taken to end; seek, recalibrate and motor control are commands that succeed or fail.
- Log: writes of other users of the buffer, `log append` and `log info`; lines longer than the scratch buffer.
- EEPROM: FRAM and SPI variants, block-protect handling of the X40430, write delays, and selecting one of several chips by address bits; offsets address one device.
- Device tree: reading the argument behind the last one, which the source does when a bracket is not closed, finds no text in the model.
- Fastboot: `getvar:`, `erase:` and `oem` only give replies from a table; partition-table text, storing an environment image and updates from an SD card.
- Fastboot: `boot` that starts a kernel is taken to return, the boot arguments it sets are not followed, and the fixed addresses it copies to are taken not to reach the transfer buffer.
- Fastboot: a board has partitions named kernel and ramdisk, and a transfer buffer of more than a page; the source uses both unasked. How much a driver takes for a given size (whole blocks, or a whole mmc partition) and whether it succeeds is a parameter.
- BedBug: the opcode table beyond the branches, sc and rfi, and its search (whether it lists another word is a parameter); registers, special-purpose registers, simplified mnemonics, and the other operands; words longer than the 20 characters the assembler has for one.
- Bedbug.StepMatchesIsa: instructions other than sc are taken to raise no interrupt; a trap or a fault goes to its vector.
- Bedbug.StepMatchesIsa: `bcctr` with a decremented counter is an invalid form in the Power ISA; the comparison takes the general rule for it.
- Termination of waiting loops that depend on hardware.
