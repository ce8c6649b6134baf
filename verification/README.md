# BAB-750 boot loader: verified core

Dafny models and proofs for the algorithmic core of the BAB-750 repository, a
U-Boot tree with Python drivers around it.  Each module models one component.
Code that changes state step by step is a method with loops, or a class with
fields, proved against a specification function; the laws of the component are
lemmas about those functions.

| module | component |
|---|---|
| `KermitWire`, `KermitDamage`, `KermitData` | packet format, block check, control quoting, single-bit damage |
| `KermitReceiver` | the receiver `k_recv` as a class, run on an arbitrary byte stream |
| `KermitDelivery`, `KermitSession`, `KermitReplies`, `KermitExamples` | the checkpoint ledger, a sender over a faulty line, what it reads of the receiver's answers, delivery; concrete transfers and the download command |
| `FlashPlanner`, `FlashErase`, `EraseCommand` | address range to sector ranges over many banks, erase, `start +length` from its text on |
| `MemoryTest`, `MemoryPass` | alternate memory test over a faulty address decoder |
| `Floppy` | block addressing and the reader with its nested retries |
| `Bits`, `AsmText`, `Assembler`, `AssembleWord`, `Disassembler`, `OperandText` | PowerPC assembler and disassembler, from text to text |
| `Fdt`, `FdtRoundTrip`, `FdtStrings` | device-tree property parser and printer |
| `RuntimeClosure` | the worklist that stages binaries with their libraries |
| `LogBuffer` | the log ring buffer in both layouts, level tags, `log show` |
| `Eeprom` | page-wrapping EEPROM writes and block reads |
| `SRecord`, `SRecordTypes`, `SRecordRoundTrip` | S-record upload and download, every record type, damaged records |
| `DeviceEnum` | device enumeration through the API |
| `Arithmetic`, `Numerals` | powers of two, division, sums; numerals as `simple_strtoul` reads them |

## How the Kermit proof is built

The receiver is split into a control machine (`Advance`: one byte, one action)
and the effect of the actions on memory, cursor, checkpoint and replies
(`Perform`).  `Receiver.ReceiveFile` is the code's loop nest, and its contract
equates the object's state with that machine run on the input, for every byte
stream.  The machine refines a ledger of packets, committed and pending
(`ReceiverRefinesLedger`, again for every byte stream).  On top of it stands a
line model: a run is a sequence of events, each line noise, a broken length or
sequence byte, an attempt damaged after its sequence number, or an intact
frame.  A sender may repeat packets at will and advances when an attempt has
been accepted.  `DeliveredExactlyOnceIff` gives the exact condition under which
every data packet arrives once and in order, and `PatientSenderLosesNothing`
shows that a stop-and-wait sender meets it as long as length and sequence bytes
arrive intact.  `KermitReplies` closes the circle: it says what a peer reads in
the bytes the receiver sends after each event, and that a sender which moves on
only when it has read its acknowledgement is such a sender (`ListenIsTrack`,
`HeedfulDeliveryIff`).

## Where the code does less than it promises

For these the model keeps what the code does.  The members named say exactly
when it does what it promises, most of them as an if-and-only-if, and give a
failing input.

- Kermit: an error in the length or sequence byte jumps to the rollback before
  a new checkpoint is taken, so it undoes the packet accepted just before, and
  so does a damaged repeat when a late acknowledgement lets the sender move on
  (`AcceptedPacketLost`, `DeliveredExactlyOnceIff`).  A wrong bit that turns the
  sequence number into that of the packet before does the same
  (`WrongNumberLosesPacket`).
- Flash: the planner forms `b_end + 1` in 32 bits.  With a bank that reaches
  2^32 - 1 and a known bank at address 0 later in the table, erasing the top
  sector also selects the whole bank at 0 (`HazardUnsafe`, `PlannerSafeIff`).
- Flash: a range that ends off the sector ends of a bank which the planner never
  reaches is accepted, the part before a gap is erased, and success is reported
  (`PartAccepted`); an accepted range is selected whole if and only if it ends at
  the end of a known sector (`WholeIff`).
- Flash: `erase start +length` treats a range of one byte as a usage error,
  because it requires the start to be below the rounded end (`EraseByLength`).
- Floppy: when a seek after a chunk or a recalibration ends with a bad status
  the reader returns without enabling interrupts again.  `InterruptsLeftOff` is
  a drive on which that happens; `Reader.ReadData` says that it cannot when no
  seek after the first ends so, and exactly when it does on a drive whose READs
  all go through.
- Log: `log show` masks the count, so a full buffer shows nothing (`Log.Show`).
- EEPROM: the write loop limits chunks by the low address byte only, so chunks
  stay in their page if and only if pages have at most 256 bytes
  (`ChunksStayInPageIff`, `LargePageWraps`).
- S-records: an empty upload is read back as the range from 2^32 - 1 down to 0
  of size 2 (`SaveLoadRoundTripIff`).
- Assembler: special register names are folded to lower case before they are
  compared with a table of upper-case names, so no name is ever found; register
  0 doubles as the failure value (`CapitalsNotFound`, `PrintedParsesIff`).
- Assembler: the disassembler prints offset and base register as one word, which
  the assembler does not take apart, so no load or store with an offset is
  assembled from its own listing (`LoadStoreRefused`, `ExampleRefused`,
  `Reassemble`).
- Device tree: a string value that begins with `<` or `[` is parsed as cells or
  bytes, and never comes back as itself (`StringsRoundTripIff`).
- Enumeration: asking for the first device of a group says that there are no
  more, so slots other than the first are never reached (`AllReportedIff`).
- Download: after ^C the receiver returns 0 and `load_serial_bin` still returns
  the offset, so whether the command says that the download was aborted depends
  on the offset alone (`LoadCommand`), and an interrupted download is reported
  like an empty file (`AbortLooksEmpty`, `AbortSeenIff`).

## Model

| member | source | states |
|---|---|---|
| `KermitWire.Chk1` | u-boot-lab/common/cmd_load.c:568-576 | the sender's loop gives the same check as the receiver's running sum |
| `KermitWire.CheckDetectsOneBit` | u-boot-lab/common/cmd_load.c:909-937 | covered sequences of equal length that differ in one bit never have the same 6-bit check, at any length |
| `KermitWire.FrameAccepted` | u-boot-lab/common/cmd_load.c:838-957 | every legal frame, short or long, is accepted from any idle state with exactly its actions |
| `KermitDamage.OneBitRejected` | u-boot-lab/common/cmd_load.c:883-946 | one flipped bit anywhere after the sequence byte (type, extended length, header check, data, block check, end) is refused and the rest skipped |
| `KermitData.KtransAgrees` | u-boot-lab/common/cmd_load.c:558-566 | the arithmetic form of `ktrans` is the masking form on every byte |
| `KermitData.EncodePrintable` | u-boot-lab/common/cmd_load.c:915-918 | no byte of a quoted file trips the below-space test |
| `KermitData.DecodeEncode` | u-boot-lab/common/cmd_load.c:675-690 | decoding the quoted file gives the file and leaves no pending escape, for every legal quote character |
| `KermitData.QuotingRoundTrip` | u-boot-lab/common/cmd_load.c:675-690 | the same for every cut of the quoted file into packets, even between quote and quoted byte |
| `KermitReceiver.Receiver.DataSave` | u-boot-lab/common/cmd_load.c:663-667 | the checkpoint becomes the current escape flag and address, nothing else changes |
| `KermitReceiver.Receiver.DataRestore` | u-boot-lab/common/cmd_load.c:669-673 | escape flag and address return to the checkpoint, nothing else changes |
| `KermitReceiver.Receiver.DataChar` | u-boot-lab/common/cmd_load.c:675-690 | one data byte is unquoted and stored at the cursor, or remembered as a quote |
| `KermitReceiver.Receiver.SendPacket` | u-boot-lab/common/cmd_load.c:549-584 | padding and the packet up to its terminator go out, in order |
| `KermitReceiver.Receiver.SendSimple` | u-boot-lab/common/cmd_load.c:587-611 | the acknowledgement or refusal sent is the reply packet of the specification |
| `KermitReceiver.Receiver.HandleSendPacket` | u-boot-lab/common/cmd_load.c:698-782 | the negotiated parameters, and an acknowledgement with as many parameters as were offered |
| `KermitReceiver.RepliesWellFormed` | u-boot-lab/common/cmd_load.c:773-781 | the receiver's own packets pass the checks it makes of its peer |
| `KermitReceiver.Receiver.CheckSequence` | u-boot-lab/common/cmd_load.c:871-880 | a new number checkpoints, a repeated one rolls back |
| `KermitReceiver.Receiver.GetLead` | u-boot-lab/common/cmd_load.c:850-880 | length and sequence byte, with the exact control state and effect at each way out |
| `KermitReceiver.Receiver.GetType` | u-boot-lab/common/cmd_load.c:883-913 | type and, after a zero length byte, extended length and header check |
| `KermitReceiver.Receiver.GetBody` | u-boot-lab/common/cmd_load.c:915-937 | data bytes handed on as they come, then the block check |
| `KermitReceiver.Receiver.PacketError` | u-boot-lab/common/cmd_load.c:941-946 | a refused attempt rolls back to the checkpoint and is answered by a refusal |
| `KermitReceiver.Receiver.PacketDone` | u-boot-lab/common/cmd_load.c:947-956 | a complete attempt is answered by type |
| `KermitReceiver.Receiver.WaitForStart` | u-boot-lab/common/cmd_load.c:838-847 | skips to the start character; ^C is a separate outcome |
| `KermitReceiver.Receiver.ReceiveFile` | u-boot-lab/common/cmd_load.c:785-959 | on every byte stream the object ends in the state of the specification machine; received, interrupted and waiting are told apart exactly; the size is the distance from the start address |
| `KermitDelivery.RollBack` | u-boot-lab/common/cmd_load.c:941-944 | returning to the checkpoint drops exactly the pending packet |
| `KermitDelivery.ReceiverRefinesLedger` | u-boot-lab/common/cmd_load.c:626-690 | on every byte stream the checkpoint is the decoder state after all committed packets, the cursor and memory that of committed and pending ones, and nothing below the start is touched |
| `KermitDelivery.BelowCheckpoint` | u-boot-lab/common/cmd_load.c:871-946 | whatever follows, the checkpoint never moves back and memory below it never changes |
| `KermitDelivery.CheckpointIsFinal` | u-boot-lab/common/cmd_load.c:871-946 | the same between any stream and any continuation of it |
| `KermitSession.EventEffect` | u-boot-lab/common/cmd_load.c:819-957 | each event on the line has exactly its effect on the ledger |
| `KermitSession.OneBitIsPlausible` | u-boot-lab/common/cmd_load.c:883-946 | a frame with one bit flipped after its sequence number is an event of the line model |
| `KermitSession.RunAccount` | u-boot-lab/common/cmd_load.c:819-957 | the ledger of a whole run is the composition of its events |
| `KermitSession.LedgerFollowsSender` | u-boot-lab/common/cmd_load.c:819-957 | at every event boundary of every run the ledger is determined by how far the sender has come |
| `KermitSession.DeliveredExactlyOnceIff` | u-boot-lab/common/cmd_load.c:785-959 | in a completed run every data packet arrives once and in order if and only if no accepted packet was undone before the sender moved on |
| `KermitSession.PatientSenderLosesNothing` | u-boot-lab/common/cmd_load.c:864-881 | whatever noise, lost acknowledgements, repeats and damage after the sequence byte there are, a sender that repeats each packet until its latest attempt is accepted gets every data packet delivered once and in order |
| `KermitSession.Delivery` | u-boot-lab/common/cmd_load.c:785-959 | then memory holds exactly the decoded data at the start address, nothing below it changed |
| `KermitSession.FileDecoded` | u-boot-lab/common/cmd_load.c:675-690 | the packets of a quoted file decode to the file |
| `KermitReplies.EventAnswered` | u-boot-lab/common/cmd_load.c:586-611 | what the sender reads after each event, behind the padding and before the end of line it asked for: nothing after noise, a packet of type 0x4E with the last number seen after a broken length or sequence byte, 0x4E with the packet's number after damage, 0x59 with it after an intact packet |
| `KermitReplies.RunAnswered` | u-boot-lab/common/cmd_load.c:819-957 | the same for every event of every run, whatever went before |
| `KermitReplies.OneMeaning` | u-boot-lab/common/cmd_load.c:586-611 | no answer can be read in two ways |
| `KermitReplies.RequestHonoured` | u-boot-lab/common/cmd_load.c:698-782 | padding, end of line and quote character become what a send-init packet asks for, for each number of parameters it has |
| `KermitReplies.ListenIsTrack` | u-boot-lab/common/cmd_load.c:785-959 | a sender that knows nothing but the answers knows exactly what has been accepted |
| `KermitReplies.HeedfulDeliveryIff` | u-boot-lab/common/cmd_load.c:785-959 | when the sender moves on only after reading the acknowledgement of its packet, every data packet arrives once and in order if and only if each time the latest answer was that acknowledgement |
| `KermitReplies.AwaitingSenderLosesNothing` | u-boot-lab/common/cmd_load.c:785-959 | a sender that waits for that answer loses nothing |
| `KermitReplies.LoadSerialBin` | u-boot-lab/common/cmd_load.c:520-547 | end to end: for every file, quote character, cut into packets and run of such a sender, the file arrives at the offset, nothing below changes and its length is returned |
| `KermitExamples.BytesAnswered` | u-boot-lab/common/cmd_load.c:586-611 | a data packet as bytes on the line and the bytes of its acknowledgement, and of its refusal when one bit of the block check is wrong |
| `KermitExamples.OfferBytes` | u-boot-lab/common/cmd_load.c:712-767 | the parameters offered, byte for byte, for each number asked for |
| `KermitExamples.AcceptedPacketLost` | u-boot-lab/common/cmd_load.c:852-870 | the condition is needed: two runs complete with every packet accepted and a packet missing |
| `KermitExamples.WrongNumberLosesPacket` | u-boot-lab/common/cmd_load.c:864-880 | so is the intact sequence byte: one wrong bit that leaves it printable, in a frame that is refused, loses a packet that was accepted |
| `KermitExamples.LoadCommand` | u-boot-lab/common/cmd_load.c:436-547 | what the download command leaves and reports for every byte stream: file size, load address and return code |
| `KermitExamples.AbortSeenIff` | u-boot-lab/common/cmd_load.c:842-843 | an interrupted download is told from a complete one if and only if that brought at least one byte |
| `KermitExamples.AbortLooksEmpty` | u-boot-lab/common/cmd_load.c:436-547 | ^C while waiting and an empty file that arrives give the caller the same answer |
| `FlashPlanner.ScanSectors` | u-boot-lab/common/cmd_flash.c:233-253 | the sector loop finds the sector that starts at the first address and the one that ends at the last |
| `FlashPlanner.CloseBank` | u-boot-lab/common/cmd_flash.c:254-283 | the error checks of a bank, the range kept and the address carried to the next bank |
| `FlashPlanner.FillSectRanges` | u-boot-lab/common/cmd_flash.c:206-287 | result, count and both arrays are those of the plan |
| `FlashPlanner.PlannedInterval` | u-boot-lab/common/cmd_flash.c:222-284 | the selected sectors form one interval from the requested start that never passes the requested end |
| `FlashPlanner.PlannerSafe` | u-boot-lab/common/cmd_flash.c:206-287 | the same for any layout, with the exact count: unknown banks, gaps, overlaps, any order |
| `FlashPlanner.AcceptedWhole` | u-boot-lab/common/cmd_flash.c:254-283 | for any layout without the wrap, a range that ends at the end of a known sector is selected whole or refused, whatever the order of the banks |
| `FlashPlanner.WholeIff` | u-boot-lab/common/cmd_flash.c:222-284 | a range that is accepted is selected whole if and only if it ends at the end of a known sector |
| `FlashPlanner.PartAccepted` | u-boot-lab/common/cmd_flash.c:222-284 | a range over a gap that ends inside a bank off its sector ends is accepted and selected in part |
| `FlashPlanner.GapRefused` | u-boot-lab/common/cmd_flash.c:278-283 | such a range over a gap is refused |
| `FlashPlanner.StartInsideRefused` | u-boot-lab/common/cmd_flash.c:274-277 | a range that begins inside a bank off its sector starts is refused |
| `FlashPlanner.EndInsideRefused` | u-boot-lab/common/cmd_flash.c:255-264 | of a bank in which the range ends off the sector ends nothing is ever selected |
| `FlashPlanner.HazardUnsafe` | u-boot-lab/common/cmd_flash.c:272-272 | the 32-bit wrap of the end of a bank makes one range unsafe |
| `FlashPlanner.PlannerSafeIff` | u-boot-lab/common/cmd_flash.c:206-287 | for disjoint banks every range is safe if and only if no bank at the top of memory is followed by a known bank at 0 |
| `FlashErase.PlannerExact` | u-boot-lab/common/cmd_flash.c:222-284 | on back-to-back banks a range is accepted if and only if it starts at a sector start and ends at a sector end, and then exactly it is selected |
| `FlashErase.FlashSectErase` | u-boot-lab/common/cmd_flash.c:416-455 | the driver calls are the planned ones up to the first that fails, none when the plan is refused; the return code is the first status other than zero, zero if none |
| `FlashErase.CallsMade` | u-boot-lab/common/cmd_flash.c:429-454 | the driver is called, in bank order, for exactly the selected banks before which all selected ones succeed |
| `FlashErase.FailureFirst` | u-boot-lab/common/cmd_flash.c:429-454 | the return code is zero if all selected banks succeed and otherwise the status of the first that does not |
| `FlashErase.EraseExact` | u-boot-lab/common/cmd_flash.c:429-454 | the sectors passed to erase cover exactly the range, byte for byte |
| `FlashErase.RoundToSectorEnd` | u-boot-lab/common/cmd_flash.c:110-146 | rounds to the end of the sector that holds the address, fails exactly outside flash |
| `FlashErase.NearestEnd` | u-boot-lab/common/cmd_flash.c:110-146 | that end is the nearest sector end at or after the address |
| `FlashErase.AddrSpecLength` | u-boot-lab/common/cmd_flash.c:187-201 | the last address of a length, rounded, is the first sector end that covers it; it fails exactly outside flash |
| `EraseCommand.PrintedSpec` | u-boot-lab/common/cmd_flash.c:166-185 | ranges and lengths written in hexadecimal are read as what they are |
| `EraseCommand.WholeNumberIff` | u-boot-lab/common/cmd_flash.c:171-185 | exactly nonempty hexadecimal digits, with 0x or without, are an address, with their value modulo 2^32 |
| `EraseCommand.MalformedIff` | u-boot-lab/common/cmd_flash.c:171-185 | two arguments are malformed exactly when one of them, the plus sign apart, is no such number |
| `EraseCommand.AddrSpec` | u-boot-lab/common/cmd_flash.c:166-204 | for every two texts: malformed, a range, or a length with the end of the sector that holds its last address |
| `EraseCommand.EraseRange` | u-boot-lab/common/cmd_flash.c:400-409 | for every two texts the erase command answers with an address error, a usage error, or the calls and return code of the plan |
| `EraseCommand.EraseByLength` | u-boot-lab/common/cmd_flash.c:166-204 | from a sector start the smallest run of whole sectors that covers the bytes is erased, and never refused for its end |
| `MemoryTest.AddressLineTest` | u-boot-lab/common/cmd_mem.c:778-835 | the number of errors over any decoder in front of ideal cells |
| `MemoryTest.AddressLineTestComplete` | u-boot-lab/common/cmd_mem.c:778-835 | no error if and only if the decoder keeps 0 and the powers of two apart |
| `MemoryTest.AddressLineFaultCaught` | u-boot-lab/common/cmd_mem.c:754-835 | every single stuck line and every short of two lines in a power-of-two region is caught |
| `MemoryTest.Fill` | u-boot-lab/common/cmd_mem.c:849-857 | what each cell holds after the fill, with aliasing |
| `MemoryTest.CheckAndInvert` | u-boot-lab/common/cmd_mem.c:859-878 | one error for each aliased word, and what each cell holds |
| `MemoryTest.CheckAndZero` | u-boot-lab/common/cmd_mem.c:880-898 | one error for each aliased word, and all cells zero |
| `MemoryTest.IncrementTest` | u-boot-lab/common/cmd_mem.c:837-898 | exactly two errors for each word that shares its cell |
| `MemoryTest.IncrementTestComplete` | u-boot-lab/common/cmd_mem.c:837-898 | no error if and only if the decoder is injective on the region |
| `MemoryPass.DataLineTest` | u-boot-lab/common/cmd_mem.c:713-742 | one error for every shifted value or complement that reads back wrong over any data bus |
| `MemoryPass.DataLineFaultCaught` | u-boot-lab/common/cmd_mem.c:697-742 | every stuck data line, every short of two and every floating one is caught |
| `MemoryPass.SoundBus` | u-boot-lab/common/cmd_mem.c:713-742 | on a sound bus there are two errors for each value when the parking address reaches the cell of the first word, none otherwise |
| `MemoryPass.TestRegion` | u-boot-lab/common/cmd_mem.c:694-898 | a whole pass counts no error if and only if no two words share a cell and the first one does not share the cell of the parking address |
| `Floppy.LocateParts` | u-boot-lab/common/cmd_fdc.c:273-281 | track, head and sector are in range and are the quotient and remainder of the block number |
| `Floppy.LocateInjective` | u-boot-lab/common/cmd_fdc.c:273-281 | track, head and sector determine the block |
| `Floppy.SideRun` | u-boot-lab/common/cmd_fdc.c:273-281 | blocks up to the end of a track side are consecutive sectors of it |
| `Floppy.ReadStaysOnSide` | u-boot-lab/common/cmd_fdc.c:456-472 | no READ leaves its track side |
| `Floppy.NextChunk` | u-boot-lab/common/cmd_fdc.c:516-526 | after a chunk that is not the last the next track side begins |
| `Floppy.Reader.ReadChunk` | u-boot-lab/common/cmd_fdc.c:465-512 | a complete READ puts its blocks at the buffer position and keeps what was before it |
| `Floppy.Reader.AfterError` | u-boot-lab/common/cmd_fdc.c:488-508 | each transfer error uses up one of the nested retries: READ again up to four times, then recalibrate, and give up exactly at the twenty-fifth or when a recalibration fails |
| `Floppy.Reader.Round` | u-boot-lab/common/cmd_fdc.c:464-527 | one pass keeps the blocks that have arrived, its READ on one side with the arm over its track, and the retry account; what it met decides how it ends |
| `Floppy.Reader.SeekAgain` | u-boot-lab/common/cmd_fdc.c:527-539 | the seek between READs: a timeout ends the read with the interrupts on, a bad status with the interrupts off |
| `Floppy.Reader.ReadData` | u-boot-lab/common/cmd_fdc.c:428-544 | for every pattern of errors the buffer holds a prefix of the requested blocks in order and the block number has advanced by it, all of them on success; success if and only if every seek, recalibration and READ command went through and fewer than 25 transfers broke off, and then there is one READ for each track side and each transfer that broke off, and one recalibration for every fifth of those; on a drive whose READs all go through, success and the interrupts are decided exactly by which seeks go through |
| `Floppy.InterruptsLeftOff` | u-boot-lab/common/cmd_fdc.c:533-538 | a drive that works but for its second seek leaves the interrupts off |
| `Assembler.PackShowIff` | u-boot-lab/common/bedbug.c:863-877 | a packed displacement is shown again if and only if it is 4-aligned and in reach |
| `Assembler.ShowPack` | u-boot-lab/common/bedbug.c:261-271 | what an address field shows is packed into the same field |
| `Assembler.TargetShownIff` | u-boot-lab/common/bedbug.c:261-271 | over 32-bit addresses: the target shown is the one given if and only if its distance is 4-aligned and in reach |
| `Assembler.NumberKeptIff` | u-boot-lab/common/bedbug.c:912-916 | a field keeps a plain number if and only if it is not negative and fits its bits |
| `Assembler.CapitalsNotFound` | u-boot-lab/common/bedbug.c:540-556 | no capitalised register name is ever found |
| `Assembler.SprReadsBack` | u-boot-lab/common/bedbug.c:490-560 | a special register is read back from its printed form unless it has a name |
| `Assembler.TbrReadsBack` | u-boot-lab/common/bedbug.c:577-642 | time base registers 268 and 269, and no others, are read back |
| `Assembler.PrintedParsesIff` | u-boot-lab/common/bedbug.c:854-917 | the text of an operand by itself is parsed to the same field if and only if it is legible, and otherwise refused |
| `Assembler.EncodesUnique` | u-boot-lab/common/bedbug.c:795-842 | opcode and operand values determine the word |
| `AssembleWord.FindOpcodeByName` | u-boot-lab/common/bedbug.c:458-472 | the first entry with the folded name |
| `AssembleWord.OperandFilled` | u-boot-lab/common/bedbug.c:823-828 | or-ing an operand into its place fills it and disturbs no other operand, no opcode bit and no bit outside |
| `AsmText.GetWord` | u-boot-lab/common/bedbug.c:953-978 | the next word of a line up to a blank or comma, and the position after it |
| `AssembleWord.AsmPpc` | u-boot-lab/common/bedbug.c:753-843 | from the text of a line: the word returned holds the opcode, in each operand exactly the value given, and nothing else; failures are exactly unknown mnemonic, too few words, first bad operand |
| `AssembleWord.MatchDirects` | u-boot-lab/common/bedbug.c:426-437 | a matching word compares greater with all entries before and less with all after its own |
| `AssembleWord.FindOpcode` | u-boot-lab/common/bedbug.c:417-441 | the binary search returns the one entry that matches, or none if none does |
| `AssembleWord.AssembleThenFind` | u-boot-lab/common/bedbug.c:417-441 | an assembled word is found under the entry it was assembled from |
| `AssembleWord.GetOperandValue` | u-boot-lab/common/bedbug.c:373-400 | finds an operand exactly when the opcode has it, and gives its value in the word |
| `Disassembler.PrintOperands` | u-boot-lab/common/bedbug.c:231-345 | the printed text, with its commas and with what follows an offset in parentheses |
| `Disassembler.WordsOfPrint` | u-boot-lab/common/bedbug.c:231-345 | the assembler cuts that text at the commas, so what follows an offset is in the same word |
| `Disassembler.JoinsIff` | u-boot-lab/common/bedbug.c:249-336 | operands share a word exactly when something is printed after an offset |
| `Disassembler.ReadPrintedIff` | u-boot-lab/common/bedbug.c:231-345 | the assembler reads the printed operands as the values in the word if and only if each has a word to itself and all are legible, and fails otherwise |
| `Disassembler.LoadStoreRefused` | u-boot-lab/common/bedbug.c:322-336 | no load or store is assembled from its printed text: the operands do not suffice |
| `Disassembler.Reassemble` | u-boot-lab/common/bedbug.c:79-210 | disassembling and assembling gives the same word if and only if each operand is printed as a word of its own, all are legible and no bit is set outside opcode and operands; loads and stores are refused |
| `Disassembler.LoadStoreWellFormed` | u-boot-lab/include/bedbug/tables.h:447-477 | every load and store of the table with an offset is a well-formed entry of the refused kind |
| `Disassembler.ExampleRefused` | u-boot-lab/common/bedbug.c:322-336 | word 0x80610008, printed "r3,0x8(r1)", is legible and without stray bits and is refused |
| `OperandText.WrittenRead` | u-boot-lab/common/bedbug.c:990-1017 | every number written in decimal or hexadecimal, signed or not, is read as the 32-bit number it is |
| `OperandText.NumberFilled` | u-boot-lab/common/bedbug.c:912-916 | it fills a field with its value modulo two to the number of bits |
| `OperandText.RegisterFilled` | u-boot-lab/common/bedbug.c:879-896 | a register in each of its spellings fills the field with its number; past 31 it is refused |
| `OperandText.SprFilled` | u-boot-lab/common/bedbug.c:898-904 | a special register's number has its halves exchanged in the field, and 0 is refused |
| `OperandText.TargetFilled` | u-boot-lab/common/bedbug.c:863-877 | a branch to a target in reach goes there: four times the signed field, from the instruction when relative and from 0 when not, modulo 2^32 |
| `OperandText.TargetPrinted` | u-boot-lab/common/bedbug.c:261-271 | the target printed for a branch is where it goes |
| `OperandText.AsmImmediate` | u-boot-lab/common/bedbug.c:753-843 | from the line to the number: the word of an instruction with two registers and a 16-bit number, or the refusal of a register |
| `OperandText.AddMinusSixteen` | u-boot-lab/common/bedbug.c:1000-1011 | "addi r1,r1,-16" is 0x3821FFF0 |
| `Numerals.NumeralRead` | u-boot-lab/lib/vsprintf.c:39-64 | digits of the base asked for, of either case and however many, are read modulo 2^32 |
| `Numerals.CNumeralRead` | u-boot-lab/lib/vsprintf.c:39-64 | with the base left open a number is decimal, octal behind a 0, hexadecimal behind 0x |
| `Numerals.ReadsBack` | u-boot-lab/lib/vsprintf.c:39-64 | a printed number is read back in its own base, up to the first other character |
| `Numerals.ReadsBackHex` | u-boot-lab/lib/vsprintf.c:39-64 | a hexadecimal number with its prefix is read back with the base left open |
| `Fdt.FdtParseProp` | u-boot-lab/common/cmd_fdt.c:506-587 | cells, bytes or strings over all arguments, with the error cases, as a function of the arguments |
| `Fdt.IsPrintableString` | u-boot-lab/common/cmd_fdt.c:595-630 | exactly the nonempty values that end in NUL, are otherwise NUL or printable and have no adjacent NULs |
| `Fdt.PrintData` | u-boot-lab/common/cmd_fdt.c:638-678 | the form that suits the value |
| `FdtRoundTrip.CellsParse` | u-boot-lab/common/cmd_fdt.c:517-549 | numbers in any C notation are parsed to big-endian cells, wherever the command line was cut at blanks |
| `FdtRoundTrip.CellsMalformed` | u-boot-lab/common/cmd_fdt.c:536-549 | any other character behind them is an error, and so is a missing bracket unless the character behind the last argument is one |
| `FdtRoundTrip.StreamParse` | u-boot-lab/common/cmd_fdt.c:550-571 | the same for hexadecimal bytes, taken modulo 256 |
| `FdtRoundTrip.StreamMalformed` | u-boot-lab/common/cmd_fdt.c:555-571 | the same errors |
| `FdtRoundTrip.FormChosen` | u-boot-lab/common/cmd_fdt.c:638-678 | strings in quotes, cells in angle brackets when the length is a multiple of four, bytes in square brackets otherwise |
| `FdtRoundTrip.StringsPrinted` | u-boot-lab/common/cmd_fdt.c:643-655 | a value of strings is printed as its strings in quotes with a comma and a blank between them |
| `FdtRoundTrip.PrintedRoundTrip` | u-boot-lab/common/cmd_fdt.c:506-678 | every nonempty value printed as cells or bytes is restored, however the text is cut into arguments at its blanks |
| `FdtStrings.StringsOfSplit` | u-boot-lab/common/cmd_fdt.c:572-585 | the strings of a terminated value, each with its terminator, are the value |
| `FdtStrings.CellsCost` | u-boot-lab/common/cmd_fdt.c:517-543 | four parsed bytes without adjacent zeros cost at least five characters |
| `FdtStrings.StreamCost` | u-boot-lab/common/cmd_fdt.c:550-566 | a parsed byte of 16 or more costs at least two characters |
| `FdtStrings.StringsRoundTripIff` | u-boot-lab/common/cmd_fdt.c:506-678 | re-parsing the strings of a value printed as strings rebuilds it if and only if the first does not begin with `<` or `[` |
| `RuntimeClosure.CopyPath` | scripts/bab750_prepare_linux_netboot.py:271-300 | ends on link cycles too; succeeds if and only if no path on the link chain is missing, and adds exactly the chain |
| `RuntimeClosure.ResolveReal` | scripts/bab750_prepare_linux_netboot.py:303-312 | the end of the link chain, or that there is none, which is when the loop does not end |
| `RuntimeClosure.FindProvider` | scripts/bab750_prepare_linux_netboot.py:335-340 | the first directory that has the library |
| `RuntimeClosure.ProviderIsFirst` | scripts/bab750_prepare_linux_netboot.py:335-340 | a library comes from the first directory in the order given that has a file of its name, from none exactly when none has |
| `RuntimeClosure.QueueLibraries` | scripts/bab750_prepare_linux_netboot.py:365-366 | queues exactly the providers, fails exactly when one is missing |
| `RuntimeClosure.CopyBinaryRuntime` | scripts/bab750_prepare_linux_netboot.py:343-366 | completes if and only if the seeds have a staging without endless links, and then copies the least set closed under links, interpreters and providers; reports a missing path only when there is no staging, and does not end only when every staging has an endless link |
| `LogBuffer.AppendTagged` | u-boot-lab/common/cmd_log.c:260-317 | logging any message keeps every line of the log tagged |
| `LogBuffer.TranscriptTagged` | u-boot-lab/common/cmd_log.c:260-317 | over every sequence of messages every line begins with a tag |
| `LogBuffer.SameEntries` | u-boot-lab/common/cmd_log.c:271-315 | what is logged of a message are its lines at their levels: its own tags where it has them, the default level where not, and the text unchanged |
| `LogBuffer.OpenLineGoesOn` | u-boot-lab/common/cmd_log.c:271-315 | a message that goes on with an open line is logged as it is up to the end of that line |
| `LogBuffer.Log.PutChar` | u-boot-lab/common/cmd_log.c:288-304 | either layout keeps the most recent characters in its ring |
| `LogBuffer.Log.StartLine` | u-boot-lab/common/cmd_log.c:271-286 | a tag is recognised, or the default one put in front |
| `LogBuffer.Log.LogLine` | u-boot-lab/common/cmd_log.c:270-315 | one line of the message is logged with its tag, and the level for the next one is right |
| `LogBuffer.Log.Printk` | u-boot-lab/common/cmd_log.c:260-317 | exactly the tagged message is appended, for any state of a line left open |
| `LogBuffer.Log.HoldsWindow` | u-boot-lab/common/cmd_log.c:260-317 | the ring read in order is the last min(total, LOGBUFF_LEN) characters, so both layouts hold the same |
| `LogBuffer.Log.Show` | u-boot-lab/common/cmd_log.c:214-225 | shows the whole window if and only if the buffer is not full, and nothing when it is |
| `LogBuffer.LogSession` | u-boot-lab/common/cmd_log.c:260-317 | over a whole session either layout holds the window of one and the same tagged text |
| `Eeprom.PageWriteFlat` | u-boot-lab/common/cmd_eeprom.c:217-272 | a wrapping page write inside its page is a flat update |
| `Eeprom.BlockReadFlat` | u-boot-lab/common/cmd_eeprom.c:163-182 | a wrapping block read inside its block is a flat read |
| `Eeprom.ChunksStayInPageIff` | u-boot-lab/common/cmd_eeprom.c:256-272 | no chunk leaves its page if and only if pages have at most 256 bytes |
| `Eeprom.LargePageWraps` | u-boot-lab/common/cmd_eeprom.c:256-272 | with larger pages a write corrupts the start of the page |
| `Eeprom.Device.Write` | u-boot-lab/common/cmd_eeprom.c:200-374 | for any offset and count success is one flat update of the device; failure is reported exactly when a transaction failed, does not stop the others and touches no byte outside the range |
| `Eeprom.Device.Read` | u-boot-lab/common/cmd_eeprom.c:126-189 | for any offset and count success returns the bytes of the range |
| `Eeprom.WriteThenRead` | u-boot-lab/common/cmd_eeprom.c:126-374 | a read after a write of the same range returns what was written |
| `SRecord.RecordWellFormed` | u-boot-lab/common/cmd_load.c:356-375 | the bytes of a record sum to 0xFF modulo 256, and it fits the 48-byte buffer |
| `SRecord.FormatRecord` | u-boot-lab/common/cmd_load.c:356-375 | the record built from the running checksum is the data record of the address and bytes |
| `SRecord.SaveSerial` | u-boot-lab/common/cmd_load.c:332-401 | what is sent is the header, one well-formed record for each sixteen bytes of the region and the rest, in order, and the final record; ^C ends it with -1 after the record at which it is seen |
| `SRecord.DecodeSealed` | u-boot-lab/common/s_record.c:30-170 | a record with a right count and checksum decodes to what its fields mean |
| `SRecordTypes.RecordDecodes` | u-boot-lab/common/s_record.c:57-146 | data records of two, three and four address bytes decode to their address and bytes, final records of four, three and two to their entry address |
| `SRecordTypes.BootEntry` | u-boot-lab/common/s_record.c:77-132 | "S705FFF000000B", the end of the boot loader's own image, names entry 0xFFF00000 |
| `SRecordTypes.RefusedIff` | u-boot-lab/common/s_record.c:148-168 | a record of a known type with a right count is refused if and only if its checksum is wrong |
| `SRecordTypes.OneByteSeen` | u-boot-lab/common/s_record.c:148-168 | one wrong byte behind the count is always seen |
| `SRecordTypes.CutShort` | u-boot-lab/common/s_record.c:50-160 | a record cut short anywhere behind its first letter is refused |
| `SRecord.DecodeDataLine` | u-boot-lab/common/s_record.c:30-170 | a data record decodes to its address and bytes |
| `SRecord.ReadLine` | u-boot-lab/common/cmd_load.c:218-254 | a line ends at CR, LF or a full buffer; NUL and ^C hang up |
| `SRecord.LoadSerial` | u-boot-lab/common/cmd_load.c:143-216 | memory, first and last address, size and entry as a function of the lines, with the failures, among them a flash write that is refused |
| `SRecordRoundTrip.StoreItems` | u-boot-lab/common/cmd_load.c:166-188 | storing the records of an image is storing the image, and the range kept is exactly it |
| `SRecordRoundTrip.SaveLoadRoundTripIff` | u-boot-lab/common/cmd_load.c:143-385 | loading an upload at an offset restores the image, leaves the rest alone and reports first address, last address and size exactly, if and only if the image is not empty and every write goes through |
| `SRecordRoundTrip.CarriedRoundTripIff` | u-boot-lab/common/cmd_load.c:143-216 | the same for any final record, whose entry is returned |
| `SRecordRoundTrip.LoadProgram` | u-boot-lab/common/cmd_load.c:143-216 | a text that carries an image and ends with a final record of any type is loaded with that entry |
| `SRecordRoundTrip.DamagedRecordStops` | u-boot-lab/common/cmd_load.c:155-163 | one wrong byte in a record, or a hang-up, makes the download fail with exactly the records before it in memory |
| `SRecordRoundTrip.SaveThenLoad` | u-boot-lab/common/cmd_load.c:143-399 | the same end to end, from memory to memory, after an upload that was not stopped |
| `DeviceEnum.Enumerator.StorGet` | u-boot-lab/api/api_storage.c:116-177 | the first device of a group, or the one after a cookie, and whether more follow |
| `DeviceEnum.Enumerator.StorType` | u-boot-lab/api/api_storage.c:183-193 | the first group that has the device |
| `DeviceEnum.Enumerator.EnumStor` | u-boot-lab/api/api_storage.c:205-296 | a group reports its first slot once and is then closed |
| `DeviceEnum.Enumerator.EnumStorage` | u-boot-lab/api/api_storage.c:308-321 | goes on to the next group with a reportable device |
| `DeviceEnum.Enumerator.DevEnum` | u-boot-lab/api/api.c:217-247 | the next device due after the cookie, NULL when none is |
| `DeviceEnum.Enumerator.Enumerate` | u-boot-lab/api/api.c:217-247 | feeding cookies back from NULL reports the network device and then the first reportable device of each group in order, within ENUM_MAX + 2 calls |
| `DeviceEnum.ReportedIff` | u-boot-lab/api/api.c:217-247 | reported are the network device, if there is one, and of each group the device in its first slot, if one is attached, and nothing else |
| `DeviceEnum.NetworkFirst` | u-boot-lab/api/api.c:228-234 | the network device comes first |
| `DeviceEnum.ReportedInOrder` | u-boot-lab/api/api_storage.c:308-321 | storage devices come in the order of their groups |
| `DeviceEnum.ReportedOnce` | u-boot-lab/api/api_storage.c:205-321 | no device is reported twice |
| `DeviceEnum.AllReportedIff` | u-boot-lab/api/api_storage.c:116-177 | every active device is reported if and only if none sits in a slot other than the first |

## Left out

- Kermit: console timing, the drain of trailing characters, cache flush and baud-rate switching; the write address is unbounded, so a download that wraps around 2^32 is not modelled; `os_data_state` is always 0 and is not kept.
- Kermit senders that use windows, 8th-bit or repeat prefixes: the receiver refuses them.
- KermitReplies.LoadSerialBin: promises delivery for completed runs that undo no accepted packet, because `AcceptedPacketLost` shows that others lose data; the condition is exact by `HeedfulDeliveryIff`.
- YMODEM download: its protocol engine is outside this core.
- Flash: writing and erasing the chips are driver calls with a given status; `flash_sect_protect`, which uses the same plan with another driver call, and the `all`, `bank` and `bank:sector` forms of the erase command would only add easy members.
- MemoryPass.TestRegion: one pass, and ^C is not seen during it.
- MemoryTest.AddressLineTest: needs one word beyond the probed offsets, as the source reads it; cells are ideal, only the decoder is faulty.
- Floppy: register access, drive selection and waiting are a drive that answers as it likes for each seek, recalibration and READ; a drive that never answers is not modelled.
- Assembler: `cr2`, which only `handle_bc` prints, symbolic addresses and the simplified mnemonics of `handle_bc`; numbers are printed in hexadecimal; words are not bounded by the 20-character scratch buffer. The opcode, operand and register tables are parameters that satisfy `WellFormed`, `Ordered`, `Mnemonics` and `Capitals`.
- Assembler: `find_next_address` is a table of branch conditions over the same field extraction.
- FdtParseProp: the 1024-byte scratch area is not bounded; the character behind the last argument is a parameter, because the source reads it.
- Fdt: the empty value prints nothing and cannot be set from text; tree walking and node printing belong to libfdt.
- RuntimeClosure: file contents, permissions and directory creation; links are resolved and ELF headers read into the tree beforehand.
- LogBuffer.Log.Printk: messages of up to 1020 characters, what the 1024-byte buffer holds behind its three spare bytes; the console echo, `log reset` and the shared kernel buffer setup are not modelled.
- Eeprom: one bus address width, no write protection, no FRAM, no X40430 status register, no delays; the device wraps inside a page on writes and inside a 256-byte block on reads.
- SRecord: the echo and the progress dots; a flash write that is refused is taken to change nothing.
- SRecordRoundTrip.SaveLoadRoundTripIff: addresses that do not wrap around 2^32.
- DeviceEnum: opening, closing and reading devices, and the set-up of the table.
- The serial, TFTP and container driving in the Python scripts, image decompression, libfdt, NAND, IDE, I2C and other register dumps, and the boot image pipeline: they are thin around code outside this core.
