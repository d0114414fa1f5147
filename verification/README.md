# megas2: a verified model of the emulator's cores

megas2 emulates an ATMEGA32 board: the processor, an ENC28J60 Ethernet controller, an SD card, a DS1307 clock and
the event simulation that drives them. This project models the parts of it whose behaviour is easy to get subtly
wrong and proves what each is for, for every input and over whole runs. `dafny verify dfyconfig.toml` checks it all.

Each part comes in two layers. Functions on values say what one operation does, with the source's branches, widths
and errors, and lemmas prove what runs of operations mean. Where the source updates an object in place there is also
a class whose methods, with their loops, are proved to leave exactly the state the functions say. A thrown error is a
failed outcome that ends a run.

- **ENC28J60** (`RxRing`, `RxStream`, `EncChip`, `EncRegisters`, `EncReception`, `EncRuns`, `EncDelivery`,
  `EncSetup`, `EncFilter`, `EncCommands`, `Enc28j60`): the receive ring, its free-space arithmetic, the frame filters,
  and the byte-at-a-time SPI machine. Over whole runs the ring is a FIFO of frames, and a driver that follows the
  next-packet pointers gets all of them; SPI bytes lead from reset to a chip that listens on the address they give it.
- **Ethernet frames** (`EthFrame`, `Crc32`) and the **check codes** (`Gf2`, `Crc`, `Crc32`): the shift loops are
  polynomial division, and what they detect.
- **SD card** (`SdStore`, `SdProtocol`, `SdSafety`, `SdTransactions`, `SdCommands`, `SdBlockStore`, `SdImage`,
  `SdCard`): the SPI protocol machine over a lazily grown image is a flat block store.
- **DS1307** (`Calendar`, `ClockRegisters`, `ClockDigits`, `ClockRuns`, `ClockBus`, `Ds1307`): the registers keep
  encoding calendar time, and bus reads are snapshots.
- **Simulation** (`EventQueue`, `SimulationRuns`, `Simulation`): order, conservation, prompt end and termination.
- **AVR core** (`AvrAlu`, `AvrChains`, `AvrMultiply`, `AvrStack`, `AvrRuns`, `AvrTimer`, `AvrMasks`, `AvrDecode`,
  `AvrControl`, `AvrPrograms`, `AvrMachine`, `AvrCore`): flags as true arithmetic at any width, the stack under calls
  and nested interrupts, timer 1 in closed form, decoding, where each jump, branch, call and skip leads, and programs
  run from flash: multi-byte arithmetic, and the core as a machine with a separate call stack.
- **Symbols** (`Symbols`): the per-address index agrees with a search.
- **JSON** (`JsonText`, `JsonStrings`, `JsonSpellings`, `JsonNumbers`, `JsonParser`, `JsonPrinter`, `JsonLayout`,
  `JsonRoundTrip`, `JsonOutcomes`, `JsonReader`, `JsonWriter`): the reader and the fast writer undo each other, and the
  reader takes every layout of a value with blanks and comments to that value.

`Bytes`, `BitMasks` and `Division` hold bytes, bit operators and division; `Steps` and `Wrappers` hold the outcome of a
step and optional values.

Where the code departs from what it is evidently for, the code is modelled as it is, a concrete case shows the
departure, and the exact condition under which it does what it should is proved:

- the admission test of the receive ring joins its two checks with "or", so a frame can overrun the ring or make the
  packet count wrap to zero (`EncReception.AdmittedFrameAddsIffFits`, `EncReception.OversizedFrameIsAdmitted`,
  `EncReception.FrameCanVanish`);
- the next-packet pointer of a packet near 64 KB is computed from a sum that has wrapped (`EncReception.NextPointerIff`);
- the SD range test refuses the last block and can wrap, and the block it then accepts is lost
  (`SdBlockStore.RangeTestIsRightIff`, `SdBlockStore.RangeTestCanBeWrong`, `SdBlockStore.WrittenReadsBackIff`,
  `SdBlockStore.WrappedWriteIsLost`);
- a block written at 2^32 - 512 leaves zeros behind the file that later writes bring to light (`SdImage.ShowsAllIff`,
  `SdImage.ReadsBackLastWritten`);
- after a reset the receive ring is not sane, so that frames are refused with an error until the host has placed it
  (`Enc28j60.Enc28J60.constructor`, `EncSetup.ListeningIsEmpty`);
- PKTDEC stays set, so that every later write to ECON2 acknowledges a packet (`EncRuns.PktDecCountsAgain`,
  `EncRuns.Econ2LowersIff`);
- CRC7 leaves a bit unmasked (`Crc.CommandAcceptedIff`, `Crc.TrueCrc7CanBeRefused`);
- logical instructions compute S before clearing V (`AvrAlu.LogicalSignIff`, `AvrAlu.LogicalSignCanBeWrong`);
- MULSU takes both operands as signed (`AvrMultiply.MultiplicationIff`, `AvrMultiply.MulsuIsWrong`);
- an array that holds nothing but a comment, and a comment before a colon, are refused
  (`JsonRoundTrip.ParseUndoesLayout`, `JsonRoundTrip.CommentInEmptyArray`, `JsonRoundTrip.CommentBeforeColon`);
- MAADR1 is not among the MAC registers, so that it answers one byte sooner than the rest of the station address
  (`EncCommands.ReadAnswersRegister`);
- the JSON reader takes some integers past 64 bits for others (`JsonNumbers.IntegerDecodesIff`,
  `JsonNumbers.WrongIntegerIff`, `JsonNumbers.OverflowSlipsThrough`);
- the clock's two-digit year ends in 2069 (`ClockRuns.GetTimeInvertsSetTimeIff`, `ClockRuns.YearIsTwoDigits`).

## Model

| member | source | states |
|---|---|---|
| EncRuns.ReceptionIsAFifo | src/devices/enc28j60/enc28j60.cpp:120-137 | in every run of arriving frames, slave selects and SPI bytes from an empty ring, the host sending any commands short of moving the ring: nothing fails that the host did not ask for, every sanity check passes, every byte the host has read of an unfreed cell is the byte at its place in the stream of admitted packets, following the stored next-packet pointers takes that stream apart into exactly those packets in order, across wrap-around, and EPKTCNT is packets loaded less packets acknowledged |
| EncDelivery.DriverReadsAll | src/devices/enc28j60/enc28j60.cpp:562-581 | from any state such a run can be in, a driver that takes each next address from the two bytes it has just read, with any allowed events between its rounds, arrivals, frees and acknowledgements among them, reads packet after packet in order, each as stored, as far as it asks |
| EncDelivery.DriverReadsPacket | src/devices/enc28j60/enc28j60.cpp:562-581 | one packet of that: its next-packet pointer, then its stored status and frame, wherever it wraps |
| EncSetup.SetupListens | src/devices/enc28j60/enc28j60.cpp:501-560 | from the reset registers a short string of SPI commands, each carried out, leads to a chip that listens |
| EncSetup.ListeningIsEmpty | src/devices/enc28j60/enc28j60.cpp:217-258 | and whose ring is sane and empty, as the FIFO theorem asks |
| EncFilter.ListeningLoads | src/devices/enc28j60/enc28j60.cpp:85-180 | there a frame of legal size, whatever its type and contents, is loaded exactly when it is sent to the address in the MAADR registers, each byte in its own, or to everyone, and its check sequence is right |
| EncFilter.StationIsSet | src/devices/enc28j60/enc28j60.cpp:85-97 | and eight commands put any address there, the chip listening on |
| EncFilter.ReceiveIs | src/devices/enc28j60/enc28j60.cpp:120-137 | on any chip, in register numbers and bits: the receiver enables and resets, the size test, the unsupported filters, the address and content filters, the pointer checks and the admission test, in this order, decide what becomes of a frame with a check sequence |
| EncFilter.FilterIff | src/devices/enc28j60/enc28j60.cpp:139-180 | what UCEN, MCEN, BCEN, ANDOR, CRCEN, HFRMEN and PASSALL each let in, as register bits and address bytes |
| EncFilter.ReceiverOnIff | src/devices/enc28j60/enc28j60.cpp:182-191 | which eight bits turn the receiver on |
| EncFilter.StatusIs | src/devices/enc28j60/enc28j60.cpp:193-215 | the stored status is the length, its bytes exchanged, and bit by bit what was found of the frame |
| EncCommands.ReadAnswersRegister | src/devices/enc28j60/enc28j60.cpp:583-595 | a control register read, from its command byte to its answer: one of the five common registers or one of the bank in ECON1, after one dummy byte or for MAC and MII registers two, with nothing else changed |
| EncCommands.PollAnswers | src/devices/enc28j60/enc28j60.cpp:583-595 | so a driver that asks for EPKTCNT at any point of a run is answered packets loaded less packets acknowledged |
| EncCommands.WriteStores | src/devices/enc28j60/enc28j60.cpp:597-806 | a write, bit set or bit clear command, from its two bytes: which bits of which register end how, that MAC and MII registers take no bit commands, and what ERXRDPT, ECON1, ECON2, MICMD and MIWRH do besides |
| EncCommands.CommandFailsIff | src/devices/enc28j60/enc28j60.cpp:499-527 | a byte that is no command is an error, and no other is |
| EncCommands.BufferCommands | src/devices/enc28j60/enc28j60.cpp:499-527 | the two commands that begin a write and a read of the buffer |
| EncCommands.BufferTakes | src/devices/enc28j60/enc28j60.cpp:545-560 | bytes sent to the buffer land at EWRPT and up, around its end, with EWRPT behind them and nothing else changed |
| EncCommands.FilledAt | src/devices/enc28j60/enc28j60.cpp:545-560 | cell by cell |
| EncCommands.BufferByte | src/devices/enc28j60/enc28j60.cpp:545-560 | one byte, with AUTOINC and without, and the error of a pointer outside the buffer |
| EncRuns.EventKeeps | src/devices/enc28j60/enc28j60.cpp:477-497 | each single event a host or the network may cause succeeds and keeps the invariant behind the FIFO |
| EncRuns.RunKeeps | src/devices/enc28j60/enc28j60.cpp:477-497 | so does any sequence of them |
| EncRuns.SpiKeeps | src/devices/enc28j60/enc28j60.cpp:477-610 | each byte to the command machine keeps the invariant; a data byte never fails |
| EncRuns.ReadAnswers | src/devices/enc28j60/enc28j60.cpp:562-581 | a read of an unfreed cell, wherever ERDPT was put, answers the byte at its place in the stream |
| EncRuns.PlainStoreKeeps | src/devices/enc28j60/enc28j60.cpp:763-806 | a write to any register but ECON2, ERXRDPT and those that place the ring leaves the stream alone |
| EncRuns.FreeKeepsInv | src/devices/enc28j60/enc28j60.cpp:779-806 | writing ERXRDPT high after low frees exactly the bytes up to there, read or not |
| EncRuns.PktDecCountsAgain | src/devices/enc28j60/enc28j60.cpp:786-795 | setting PKTDEC and then another bit of ECON2 acknowledges two packets |
| EncRuns.Econ2LowersIff | src/devices/enc28j60/enc28j60.cpp:786-795 | a write to ECON2 lowers EPKTCNT, by one, exactly when PKTDEC is then set and a packet is counted; PKTDEC stays set, so the next write to ECON2 may count again |
| EncRuns.LoadKeepsInv | src/devices/enc28j60/enc28j60.cpp:271-296 | loading a packet that fits appends it to the stream |
| EncReception.WrapIsAdvance | src/devices/enc28j60/enc28j60.cpp:260-269 | the subtraction loop lands where stepping cell by cell around the ring does |
| EncReception.FreeSpaceFormula | src/devices/enc28j60/enc28j60.cpp:245-258 | free space is size - 1 - ((write - read) mod size) |
| EncReception.NextPointerIff | src/devices/enc28j60/enc28j60.cpp:271-296 | the next-packet pointer, computed in one go in 16 bits, is where the byte-by-byte writes end, exactly when the sum does not wrap past 2^16, or wraps into a ring whose size divides 2^16 |
| EncReception.CellsAfterLoad | src/devices/enc28j60/enc28j60.cpp:271-296 | a load that fits changes no unread cell and stands complete behind them |
| EncReception.LoadCountsIffFits | src/devices/enc28j60/enc28j60.cpp:234-296 | the space in use grows by the packet exactly when it fits |
| EncReception.AdmittedFrameAddsIffFits | src/devices/enc28j60/enc28j60.cpp:234-296 | an admitted frame adds its size to the space in use and one to the packet count exactly when it fits the free space and fewer than 255 packets are counted; the test lets it in when either holds |
| EncReception.FrameCanVanish | src/devices/enc28j60/enc28j60.cpp:234-296 | a frame that fits an ample ring leaves the host told of no packet |
| EncReception.OversizedFrameIsAdmitted | src/devices/enc28j60/enc28j60.cpp:234-243 | a frame larger than the whole ring can be admitted |
| EncReception.OverrunReplacesOldest | src/devices/enc28j60/enc28j60.cpp:271-296 | and what an overrun then destroys |
| EncReception.StoredFrameIsRecovered | src/devices/enc28j60/enc28j60.cpp:193-215 | the stored record gives back the status and, by the length in it, the wire bytes of the frame |
| EncRegisters.AdjustBit | src/devices/enc28j60/enc28j60.cpp:763-769 | a register write, bit by bit: writable bits take the value, clearable bits are cleared by zero, others stay |
| RxRing.FollowEncoded | src/devices/enc28j60/enc28j60.cpp:271-296 | following next-packet pointers through an encoded ring recovers the packets |
| Enc28j60.Enc28J60.constructor | src/devices/enc28j60/enc28j60.cpp:217-232 | after a reset eighteen registers hold the values listed and all others zero, and the ring is not sane, its write pointer lying outside |
| Enc28j60.Enc28J60.WrapToRxBuffer | src/devices/enc28j60/enc28j60.cpp:260-269 | the loop computes the wrapped pointer |
| Enc28j60.Enc28J60.GetFreeBufferSpace | src/devices/enc28j60/enc28j60.cpp:245-258 | the method computes the free space of the registers as they are |
| Enc28j60.Enc28J60.FitsInBuffer | src/devices/enc28j60/enc28j60.cpp:234-243 | the admission test, on registers and frame |
| Enc28j60.Enc28J60.LoadReceivedFrame | src/devices/enc28j60/enc28j60.cpp:271-296 | the in-place load leaves exactly the registers and buffer of the modelled load |
| Enc28j60.Enc28J60.DoReceiveFrame | src/devices/enc28j60/enc28j60.cpp:120-137 | filter, sanity checks, admission and load in order, with each refusal |
| Enc28j60.Enc28J60.OnRegWrite | src/devices/enc28j60/enc28j60.cpp:779-806 | what a register write sets off: latching ERXRDPT, PKTDEC, resets |
| Enc28j60.Enc28J60.RespondWithBufferData | src/devices/enc28j60/enc28j60.cpp:562-581 | the read-buffer answer and the new ERDPT |
| Enc28j60.Enc28J60.HandleSpiData | src/devices/enc28j60/enc28j60.cpp:477-497 | one SPI byte moves the whole device as the modelled machine does |
| Gf2.RegisterIsRemainder | src/devices/sd_card.cpp:61-74 | a shift register fed a message holds the remainder of polynomial division |
| Gf2.RemainderIsUnique | src/devices/sd_card.cpp:61-74 | division has one remainder |
| Gf2.BurstsAreCaught | src/devices/sd_card.cpp:61-74 | no error burst within the register width goes unnoticed |
| Crc.ComputeCrc16 | src/devices/sd_card.cpp:61-74 | the nested loops compute the function the lemmas are about |
| Crc.Crc16IsRemainder | src/devices/sd_card.cpp:61-74 | the CRC16 is the remainder of message * x^16 by x^16 + x^12 + x^5 + 1, and nothing else is |
| Crc.AppendedCrc16 | src/devices/sd_card.cpp:61-74 | a block and two bytes check to zero exactly when the bytes are its CRC |
| Crc.BurstsChangeCrc16 | src/devices/sd_card.cpp:61-74 | messages differing in a burst of at most 16 bits have different CRCs |
| Crc.OneByteChangesCrc16 | src/devices/sd_card.cpp:61-74 | so do messages differing in one byte |
| Crc.ComputeCrc7 | src/devices/sd_card.cpp:45-59 | the loop with its unmasked register |
| Crc.Crc7IsRemainder | src/devices/sd_card.cpp:45-59 | the low seven bits are the remainder of message * x^7 by x^7 + x^3 + 1 |
| Crc.CommandAcceptedIff | src/devices/sd_card.cpp:190-194 | which commands pass the CRC check: those with the true CRC7 whose division leaves no x^6 term before the last bit |
| Crc.TrueCrc7CanBeRefused | src/devices/sd_card.cpp:45-59 | after any beginning some command with its true CRC7 is refused |
| Crc32.Crc32Feed | src/networking/eth_frame.cpp:124-133 | one byte of the loop is eight steps of the reflected register |
| Crc32.ResidueIff | src/networking/eth_frame.cpp:124-150 | a message and four bytes leave the constant residue exactly when the bytes are its check sequence |
| Crc32.Crc32IsRemainder | src/networking/eth_frame.cpp:124-150 | the register is the remainder of IEEE 802.3 section 3.2.9 |
| Crc32.BurstsChangeFcs | src/networking/eth_frame.cpp:135-150 | bursts of at most 32 wire bits always change the check sequence |
| Crc32.OneByteChangesFcs | src/networking/eth_frame.cpp:135-150 | so does any one byte |
| EthFrame.EthernetFrame.constructor | src/networking/eth_frame.cpp:23-48 | taking a buffer apart: too short is malformed, otherwise the fields write back to the same bytes |
| EthFrame.EthernetFrame.ToBuffer | src/networking/eth_frame.cpp:98-122 | the wire bytes land where asked, nothing else changes, and their number is returned |
| EthFrame.EthernetFrame.ComputeFcs | src/networking/eth_frame.cpp:135-150 | the check sequence of the covered bytes |
| EthFrame.EthernetFrame.CheckFcs | src/networking/eth_frame.cpp:82-88 | an error without a check sequence, else whether it is right |
| EthFrame.EthernetFrame.AddFcs | src/networking/eth_frame.cpp:152-159 | an error if there is one already, else a correct one is added and nothing else changes |
| EthFrame.EthernetFrame.PadTo | src/networking/eth_frame.cpp:161-168 | zeros up to the length, longer frames left alone |
| EthFrame.WireDeterminesFrame | src/networking/eth_frame.cpp:98-122 | frames with the same wire bytes are the same frame |
| EthFrame.FcsCorrectIffResidue | src/networking/eth_frame.cpp:82-88 | the check accepts exactly the frames whose whole wire form leaves the residue |
| EthFrame.BurstFailsTheCheck | src/networking/eth_frame.cpp:82-88 | any burst of at most 32 bits in a correct frame is noticed |
| SdImage.ReadsBackLastWritten | src/devices/sd_card.cpp:149-322 | after any complete transactions a READ_SINGLE_BLOCK at any accepted address streams R1, the token, a block and its CRC16; and in a faithful run the block is the 512 bytes last written there, or of the original image, or 0xff past its end |
| SdImage.ShowsAllIff | src/devices/sd_card.cpp:361-400 | every block of the address space shows what was last written there exactly when the run is faithful: nothing was written at 2^32 - 512 past the end of the file, or that was all 0xff and the zeros it put behind the file are all written over as far as the card believes its file to reach |
| SdImage.NoWriteAtTop | src/devices/sd_card.cpp:300-322 | a run without a write at 2^32 - 512 is faithful |
| SdImage.ShowsLastIff | src/devices/sd_card.cpp:361-400 | and byte by byte, which bytes are wrong otherwise |
| SdBlockStore.Transaction | src/devices/sd_card.cpp:149-322 | each transaction at any accepted address, byte by byte: its answers, its effect on the file and on the length the card believes it has, and readiness for the next |
| SdBlockStore.AllTransactions | src/devices/sd_card.cpp:149-322 | and any sequence of them |
| SdBlockStore.WrittenReadsBackIff | src/devices/sd_card.cpp:361-400 | a block just written reads back exactly when its end does not wrap past 2^32, or the file already reached past its start, or it is all 0xff |
| SdBlockStore.WrappedWriteIsLost | src/devices/sd_card.cpp:300-322 | any card of more than no bytes acknowledges a block written at 2^32 - 512 and then reads 0xff there |
| SdBlockStore.GoIdleFromReset | src/devices/sd_card.cpp:278-292 | from reset, GO_IDLE_STATE leads to SPI mode, ready |
| SdBlockStore.RangeTestIsRightIff | src/devices/sd_card.cpp:300-314 | for an aligned block the range test is right exactly when the block is not the last and its end does not wrap |
| SdBlockStore.RangeTestCanBeWrong | src/devices/sd_card.cpp:300-314 | a card refuses its only block and accepts the block at 2^32 - 512 |
| SdSafety.EveryRunIsSafe | src/devices/sd_card.cpp:142-165 | over every run of bytes, selects and resets the "unexpected state" error is never reached and the buffers are never indexed out of range |
| SdSafety.ByteKeeps | src/devices/sd_card.cpp:149-322 | one byte keeps the invariant: among others, an expected application command excludes a pending data phase |
| SdSafety.SdModeIsSilent | src/devices/sd_card.cpp:278-284 | before GO_IDLE_STATE only 0xff is answered, the file does not change and no data phase starts, and leaving it the card is in none |
| SdCommands.CommandOutcome | src/devices/sd_card.cpp:182-329 | six bytes to a selected card, however it was left: the error they meet, if any, by end bit, check sequence, mode, command, argument and address, and otherwise the state they lead to |
| SdCommands.FirstByte | src/devices/sd_card.cpp:167-180 | 0xff between commands is passed over, and any other byte that begins none is an error |
| SdCommands.WrongCrcStores | src/devices/sd_card.cpp:247-276 | a block is stored whatever its check bytes, and would be answered 0x0b for wrong ones if they were looked at |
| SdCommands.HostSpokeIff | src/devices/sd_card.cpp:208-256 | the error of a host that speaks out of turn comes exactly in a response or a data phase, for any byte but 0xff and the start token where it is due |
| SdTransactions.SendCommand | src/devices/sd_card.cpp:167-206 | six bytes in idle are one command |
| SdTransactions.SendBlock | src/devices/sd_card.cpp:225-245 | the data phase streams token, block and CRC |
| SdTransactions.ReceiveBlock | src/devices/sd_card.cpp:247-276 | the write phase collects exactly the bytes sent |
| SdStore.WriteBlockIsExactIff | src/devices/sd_card.cpp:375-384 | a write changes exactly its 512 bytes, exactly when its end does not wrap past 2^32 over a gap |
| SdCard.SdCard.Open | src/devices/sd_card.cpp:96-122 | a capacity that is not a whole number of blocks, or no image, makes no card; otherwise the card is as after a reset, in SD mode |
| SdCard.SdCard.ExpandBackingFile | src/devices/sd_card.cpp:386-400 | the 64 KB loop ends with the file expanded and nothing else changed |
| SdCard.SdCard.ReadBlockFromBackingFile | src/devices/sd_card.cpp:361-373 | the read fills the buffer with the modelled block |
| SdCard.SdCard.SwitchCommand | src/devices/sd_card.cpp:286-319 | each command branch, in place |
| SdCard.SdCard.HandleReceivingCommand | src/devices/sd_card.cpp:182-206 | collecting and completing a command, in place |
| SdCard.SdCard.HandleReceivingWriteData | src/devices/sd_card.cpp:247-276 | the write phase, in place |
| SdCard.SdCard.HandleData | src/devices/sd_card.cpp:149-165 | one byte moves the whole card as the modelled machine does, and some handler always takes it |
| Calendar.CountUndoesWalk | src/devices/ds1307.cpp:211-219 | counting the days up to a date undoes finding the date of a day number, over all days from 1970 |
| Calendar.DayNumberIs | src/devices/ds1307.cpp:242-295 | that count in closed form, by the rules of the Gregorian calendar |
| Calendar.WalkUndoesCount | src/devices/ds1307.cpp:284-292 | and the other way round, over all dates |
| ClockRegisters.SecondsRegister | src/devices/ds1307.cpp:34-54 | the seconds register reads back and keeps its halt bit |
| ClockRegisters.HoursRegister | src/devices/ds1307.cpp:223-229 | the hours register reads back every hour, in 12- and in 24-hour mode, and keeps its mode |
| ClockDigits.TimeIsShown | src/devices/ds1307.cpp:242-295 | registers that show seconds, minutes, an hour of 24 or of 12 with its afternoon bit, any day of the week, a date and a two-digit year, in decimal digits, hold the time of that date, from 1970 to 2069; a date past the end of a short month counts on into the next |
| ClockDigits.OnlyShownTimes | src/devices/ds1307.cpp:242-295 | and no other registers hold a time |
| ClockDigits.HaltedIff | src/devices/ds1307.cpp:203-209 | bit 7 of the seconds stops the clock; otherwise ticking fails exactly when the registers hold no time |
| ClockRuns.GetTimeInvertsSetTimeIff | src/devices/ds1307.cpp:211-295 | getTime gives back what setTime wrote exactly for times before 2070 |
| ClockRuns.YearIsTwoDigits | src/devices/ds1307.cpp:211-295 | the first second of 2070 reads as the first of 1970 |
| ClockRuns.SetTimeFrame | src/devices/ds1307.cpp:211-240 | setTime keeps the halt bit, the hour mode and every byte past the clock |
| ClockRuns.TicksCountSeconds | src/devices/ds1307.cpp:203-240 | from any registers getTime accepts, the thirtieth of February included, n ticks add n seconds, wrapping after 2069, and move the day of the week once a midnight |
| ClockRuns.DayFollowsWeekday | src/devices/ds1307.cpp:232-239 | the day register stays in 1 to 7 at a constant distance from the true weekday |
| ClockRuns.TicksFailIff | src/devices/ds1307.cpp:203-209 | ticking fails exactly when a running clock holds no time, and a halted clock does not change |
| ClockBus.BurstReadIsAtomic | src/devices/ds1307.cpp:183-195 | however often the clock ticks during a burst read, the bytes are the registers at the moment of addressing |
| ClockBus.ReadIsSnapshot | src/devices/ds1307.cpp:141-154 | the same from the address byte on |
| ClockBus.StopFailsIff | src/devices/ds1307.cpp:124-181 | a write of any length ends with an error exactly when it reached one of the seven time registers, around the end included, and they then hold no time |
| ClockBus.PointerFailsIff | src/devices/ds1307.cpp:156-181 | the first byte of a write is an error exactly from 64 up |
| ClockBus.OthersAreIgnored | src/devices/ds1307.cpp:118-195 | what passes on the bus for other devices neither changes anything nor is answered |
| ClockBus.WriteThenRead | src/devices/ds1307.cpp:156-195 | a burst of up to 64 bytes written at any register, around the end, reads back |
| Ds1307.FreshClock | src/devices/ds1307.cpp:87-101 | a clock started from scratch runs and shows the present time, exactly before 2070, its weeks beginning on Saturday |
| Ds1307.Ds1307.constructor | src/devices/ds1307.cpp:87-116 | power-on state: stored or default registers, started if asked |
| Ds1307.Ds1307.SetTime | src/devices/ds1307.cpp:211-240 | the register writes, in place |
| Ds1307.Ds1307.TickOnce | src/devices/ds1307.cpp:203-209 | a tick, in place; on failure nothing has changed |
| Ds1307.Ds1307.I2cReceiveStart | src/devices/ds1307.cpp:118-122 | a start ends listening, in place |
| Ds1307.Ds1307.I2cReceiveStop | src/devices/ds1307.cpp:124-139 | a stop, in place, with the error of a changed clock that holds no time |
| Ds1307.Ds1307.I2cReceiveAddress | src/devices/ds1307.cpp:141-154 | the address byte, in place, and at a read the copy of the clock registers |
| Ds1307.Ds1307.I2cReceiveData | src/devices/ds1307.cpp:156-181 | pointer and data bytes, in place, with the pointer error |
| Ds1307.Ds1307.I2cQueryData | src/devices/ds1307.cpp:183-195 | a byte of the burst and the moved pointer |
| EventQueue.BeforeIsStrictAndTotal | src/simulation/simulation.cpp:15-23 | the event order is strict and total |
| EventQueue.SortedIff | src/simulation/simulation.cpp:15-23 | a queue is in order exactly when it is by time, then event id, then device |
| EventQueue.InsertedSorted | src/simulation/simulation.cpp:60-82 | insertion keeps the queue sorted |
| EventQueue.InsertedCounts | src/simulation/simulation.cpp:60-82 | and adds exactly the event |
| EventQueue.WithoutCounts | src/simulation/simulation.cpp:89-96 | unscheduling splits the queue, losing nothing |
| SimulationRuns.EveryRunKeeps | src/simulation/simulation.cpp:103-150 | in every run of every set of devices that schedule no event in the past nor with a negative id: queue sorted, nothing pending in the past, scheduled = dispatched + pending + unscheduled, dispatch times in order |
| SimulationRuns.EachPopIsMinimum | src/simulation/simulation.cpp:124-127 | each dispatched event is due no later than any pending, and of those due with it has the least id, then the least device |
| SimulationRuns.EndIsPrompt | src/simulation/simulation.cpp:141-155 | with an end pending the rest of the run is at most the end event, at the same instant |
| SimulationRuns.NoDeviceActsAfterEnd | src/simulation/simulation.cpp:141-155 | so after the act that asks for the end no device acts, whatever else the act did |
| SimulationRuns.DispatchShrinks | src/simulation/simulation.cpp:120-150 | the sum of (k + 1) ^ (T - timestamp) over device events pending before T shrinks at each dispatch below T |
| SimulationRuns.EveryRunStops | src/simulation/simulation.cpp:103-150 | a run whose acts schedule at most k events at least one unit ahead stops within that many rounds |
| Simulation.Simulation.AddDevice | src/simulation/simulation.cpp:41-48 | a device is listed once |
| Simulation.Simulation.ScheduleEvent | src/simulation/simulation.cpp:60-82 | both fast paths and the slow loop give the sorted insertion |
| Simulation.Simulation.UnscheduleAll | src/simulation/simulation.cpp:89-96 | all and only the events of the device go |
| Simulation.Simulation.RunOnce | src/simulation/simulation.cpp:120-150 | one pass of the loop body, in place |
| Simulation.Simulation.RunToTime | src/simulation/simulation.cpp:103-150 | the loop terminates, in the state of some number of rounds, ended, deadlocked or past its time |
| AvrAlu.AddCarry | src/devices/atmega32/cpu_core.cpp:218-231 | C after an addition is the carry out |
| AvrAlu.AddHalfCarry | src/devices/atmega32/cpu_core.cpp:218-231 | H is the carry out of the low half |
| AvrAlu.AddSigns | src/devices/atmega32/cpu_core.cpp:218-231 | V is signed overflow, N the sign of the result, S that of the true sum |
| AvrAlu.SubBorrow | src/devices/atmega32/cpu_core.cpp:233-247 | C after a subtraction is the borrow |
| AvrAlu.SubHalfBorrow | src/devices/atmega32/cpu_core.cpp:233-247 | H is the borrow of the low half |
| AvrAlu.SubSigns | src/devices/atmega32/cpu_core.cpp:233-247 | V, N and S likewise, and Z can only be kept with carry |
| AvrChains.WideAdd | src/devices/atmega32/cpu_core.cpp:218-231 | ADD then ADCs adds numbers of any width, C the carry out, V signed overflow, S the sign of the true sum |
| AvrChains.WideSub | src/devices/atmega32/cpu_core.cpp:233-247 | SUB then SBCs gives the difference, C iff unsigned less, Z iff equal, S iff signed less, V iff the difference overflows |
| AvrChains.AddChainAdds | src/devices/atmega32/cpu_core.cpp:343-352 | the same on the register file, in place, no other byte changed |
| AvrChains.SubChainCompares | src/devices/atmega32/cpu_core.cpp:343-352 | and for subtraction and comparison, the latter changing no register |
| AvrPrograms.ProgramAdds | src/devices/atmega32/cpu_core.cpp:327-352 | ADD and ADC opcodes standing in flash, executed one after the other, do that |
| AvrPrograms.ProgramCompares | src/devices/atmega32/cpu_core.cpp:327-352 | and SUB and SBC, CP and CPC opcodes |
| AvrAlu.LogicalSignIff | src/devices/atmega32/cpu_core.cpp:249-255 | after a logical instruction S is the sign exactly when V was clear before |
| AvrAlu.LogicalSignCanBeWrong | src/devices/atmega32/cpu_core.cpp:249-255 | after an addition that overflowed, AND of 0x80 with itself leaves S clear |
| AvrMultiply.MultiplicationIff | src/devices/atmega32/cpu_core.cpp:268-325 | MUL, MULS and MULSU leave the true product in R1:R0, its top bit in C, whether it is zero in Z and nothing else changed, exactly except for MULSU of a left operand other than zero by a right one of 128 or more |
| AvrMultiply.MulsuIsWrong | src/devices/atmega32/cpu_core.cpp:313-320 | one by 255 comes out as 0xffff |
| AvrStack.ClaimsLowest | src/devices/atmega32/aspects/timers.cpp:100-112 | the interrupt chosen is the lowest pending and enabled vector, and there is one exactly when some source is pending |
| AvrStack.ClaimConsumesOne | src/devices/atmega32/aspects/timers.cpp:100-112 | serving it clears exactly its flag |
| AvrStack.IrqEntry | src/devices/atmega32/atmega32.cpp:119-133 | an interrupt is taken exactly with I set and a source pending; the return address is on the stack and I is clear |
| AvrStack.IrqFrame | src/devices/atmega32/atmega32.cpp:119-133 | nothing else below the SRAM changes |
| AvrRuns.NestedRunsRestore | src/devices/atmega32/cpu_core.cpp:162-187 | every well-nested run of PUSH/POP, calls, returns, interrupts with handlers and changes of any I/O register but SP, the status register included, so that handlers may be interrupted in turn: each POP gets back its byte, each RET and RETI lands on its return address, the stack is as before, and only a jump out of program memory can stop the run |
| AvrRuns.MaskedRunsTakeNone | src/devices/atmega32/atmega32.cpp:119-133 | from a state with I clear, a run that does not set I is the run without interrupts, whatever is pending |
| AvrRuns.NoneWhileMasked | src/devices/atmega32/atmega32.cpp:119-133 | so a handler that leaves I alone is not interrupted |
| AvrRuns.HandlerIsInterrupted | src/devices/atmega32/atmega32.cpp:119-133 | and one that sets it is, by the lowest of what is still pending |
| AvrStack.PendingAfterClaim | src/devices/atmega32/aspects/timers.cpp:100-112 | which is all that was pending but the interrupt served |
| AvrControl.BranchGoes | src/devices/atmega32/cpu_core.cpp:739-750 | BRBS and BRBC opcodes, each of the eight flags and 128 displacements: taken, to the address behind plus the displacement, exactly when the flag is set, or clear |
| AvrControl.RelativeGoes | src/devices/atmega32/cpu_core.cpp:725-737 | RJMP and RCALL opcodes, likewise with 12 bits |
| AvrControl.LongGoes | src/devices/atmega32/cpu_core.cpp:499-515 | JMP and CALL opcodes with their 22-bit targets, and the error of one at the end of the flash |
| AvrControl.IndirectGoes | src/devices/atmega32/cpu_core.cpp:579-596 | IJMP and ICALL go to R31:R30, the extended forms fail |
| AvrControl.ReturnGoes | src/devices/atmega32/cpu_core.cpp:598-612 | RET and RETI go to the two bytes above the stack pointer, RETI with I set |
| AvrControl.CompareSkips | src/devices/atmega32/cpu_core.cpp:327-376 | CPSE opcodes skip exactly when the two registers are equal, over one word or two |
| AvrControl.BitSkips | src/devices/atmega32/cpu_core.cpp:752-773 | SBRC and SBRS opcodes exactly when the bit of the register is clear, or set |
| AvrControl.PortSkips | src/devices/atmega32/cpu_core.cpp:688-704 | SBIC and SBIS opcodes exactly when the bit of the port is |
| AvrControl.FlagSets | src/devices/atmega32/cpu_core.cpp:487-497 | BSET and BCLR opcodes change that flag and no other |
| AvrControl.PushGoes | src/devices/atmega32/cpu_core.cpp:438-485 | PUSH opcodes put the register at the stack pointer |
| AvrControl.PopGoes | src/devices/atmega32/cpu_core.cpp:438-485 | POP opcodes take the byte above it |
| AvrControl.StackEdges | src/devices/atmega32/cpu_core.cpp:101-125 | neither reaches past the RAM, which fails, nor an I/O register |
| AvrControl.ImmediateGoes | src/devices/atmega32/cpu_core.cpp:378-418 | CPI, SBCI and SUBI opcodes are comparison and subtraction with the constant in them |
| AvrControl.MultiplyGoes | src/devices/atmega32/cpu_core.cpp:268-325 | MUL, MULS and MULSU opcodes leave the true product of the registers they name, but for MULSU as above |
| AvrControl.FractionalFails | src/devices/atmega32/cpu_core.cpp:268-325 | FMUL, FMULS and FMULSU opcodes fail |
| AvrControl.OtherOpcodes | src/devices/atmega32/cpu_core.cpp:779-840 | NOP does nothing, the gaps of the table fail, and every other opcode takes one word, LDS and STS two |
| AvrMachine.CoreIsStackMachine | src/devices/atmega32/cpu_core.cpp:849-857 | for every program in flash and every sequence of ticks, interrupts included: while the program does not misuse its stack, the core goes exactly the way of a machine that keeps pushed bytes and return addresses on a stack of their own |
| AvrMachine.FromResetIsStackMachine | src/devices/atmega32/atmega32.cpp:70-88 | from reset on |
| BitMasks.BitTurnsIff | src/devices/atmega32/aspects/timers.cpp:67-85 | the bit of weight p, a power of two, differs in a counter and its successor exactly when the successor is a multiple of p |
| AvrTimer.TogglesIsDivision | src/devices/atmega32/aspects/timers.cpp:67-85 | so the XOR and mask of old and new prescaler, for each prescale, is the step of their quotient |
| AvrTimer.TimerIsDivision | src/devices/atmega32/aspects/timers.cpp:160-190 | after n cycles from any count not past the top: count, number of triggers, flag register and prescaler in closed form, in normal and compare modes |
| AvrTimer.CountAfter | src/devices/atmega32/aspects/timers.cpp:17-28 | the same in numbers: clock selects 1 to 5 divide by 1, 8, 64, 256 and 1024, and the top is 0xffff in normal mode, OCR1A in mode 4 and ICR1 in mode 12; no other byte of the RAM changes |
| AvrTimer.StandsStill | src/devices/atmega32/aspects/timers.cpp:17-28 | with clock selects 0, 6 and 7 only the prescaler runs |
| AvrTimer.TickFailsIff | src/devices/atmega32/aspects/timers.cpp:160-190 | a tick fails in exactly the other modes |
| AvrTimer.FromReset | src/devices/atmega32/aspects/timers.cpp:160-190 | from reset, in the same numbers: count n/p mod (top + 1) and n/(p * (top + 1)) triggers |
| AvrTimer.PastTop | src/devices/atmega32/aspects/timers.cpp:172-184 | a count past the top first runs on to 0xffff without a trigger |
| AvrTimer.PastTopOverflows | src/devices/atmega32/aspects/timers.cpp:172-184 | then overflows once and counts to its top |
| AvrTimer.WriteRunRead | src/devices/atmega32/aspects/timers.cpp:160-223 | a count written in two bytes, run for n cycles and read in two bytes, the timer running on between them, is the count written plus the ticks of the n cycles modulo the top plus one |
| AvrDecode.InitFnTable | src/devices/atmega32/cpu_core.cpp:784-840 | for every opcode the chain of mask tests chooses the handler its fields call for |
| AvrMasks.MaskTests | src/devices/atmega32/cpu_core.cpp:16-21 | each mask test, as a test of opcode fields |
| AvrDecode.WidthAgreesWithTable | src/devices/atmega32/cpu_core.cpp:16-21 | the two masks call an opcode double-width exactly when the table sends it where an operand word is fetched |
| AvrDecode.ExecuteFetches | src/devices/atmega32/cpu_core.cpp:127-145 | executing fetches exactly those operand words, or, skipping, exactly the words of the instruction skipped |
| AvrDecode.SkipIsFetch | src/devices/atmega32/cpu_core.cpp:127-145 | skipping an instruction moves the program counter by the number of words that stepping over it fetches |
| AvrDecode.ActKeepsPc | src/devices/atmega32/cpu_core.cpp:849-857 | every successful step, interrupts included, keeps the program counter in 0 to 0x4000 |
| AvrDecode.CallReturnsPastItself | src/devices/atmega32/cpu_core.cpp:499-515 | every form of call saves the address a skip over it would reach |
| AvrCore.Atmega32.DoAdd | src/devices/atmega32/cpu_core.cpp:218-231 | addition with its six flag writes, in place |
| AvrCore.Atmega32.DoCpOrSub | src/devices/atmega32/cpu_core.cpp:233-247 | subtraction and comparison, in place |
| AvrCore.Atmega32.ExecMultiplications | src/devices/atmega32/cpu_core.cpp:268-325 | in place, the fractional forms failing |
| AvrCore.Atmega32.FetchNextOpcode | src/devices/atmega32/cpu_core.cpp:127-137 | in place, failing past the end of the flash |
| AvrCore.Atmega32.SkipInstruction | src/devices/atmega32/cpu_core.cpp:139-145 | in place |
| AvrCore.Atmega32.PushWord | src/devices/atmega32/cpu_core.cpp:178-182 | in place |
| AvrCore.Atmega32.PopWord | src/devices/atmega32/cpu_core.cpp:184-187 | in place |
| AvrCore.Atmega32.ExecReturn | src/devices/atmega32/cpu_core.cpp:598-612 | RET and RETI, in place |
| AvrCore.Atmega32.HandleTimerIrqs | src/devices/atmega32/aspects/timers.cpp:100-112 | the loop from bit 7 down finds the lowest vector and clears its flag |
| AvrCore.Atmega32.HandleIrqs | src/devices/atmega32/atmega32.cpp:119-133 | in place |
| AvrCore.Atmega32.Timer1Tick | src/devices/atmega32/aspects/timers.cpp:160-190 | in place, with the unsupported modes failing |
| AvrCore.Atmega32.RunTimers | src/devices/atmega32/aspects/timers.cpp:67-85 | prescaler and timer 1, in place: a tick when the new prescaler is a multiple of 1, 8, 64, 256 or 1024, by clock select |
| AvrCore.Atmega32.ReadTimer1 | src/devices/atmega32/aspects/timers.cpp:192-204 | the read handler, in place |
| AvrCore.Atmega32.WriteTimer1 | src/devices/atmega32/aspects/timers.cpp:206-223 | the write handler, in place: a high byte leaves the register as it was |
| Symbols.LessIsStrictAndTotal | src/devices/mcu/symbol.cpp:13-23 | the symbol order is strict and total |
| Symbols.NameLessIff | src/devices/mcu/symbol.cpp:13-23 | names are ordered by their first difference |
| Symbols.CoverIsGreatest | src/devices/mcu/progmem.cpp:147-164 | over a sorted list the index entry is the greatest symbol covering the address, and missing exactly when none does |
| Symbols.IndexIgnoresTheSort | src/devices/mcu/progmem.cpp:114-116 | whichever way the sort orders equal symbols |
| Symbols.GreatestIsInnermost | src/devices/mcu/progmem.cpp:147-164 | it is the innermost: it starts last, of those that start there it is a shortest, of these data, and of these last by name |
| Symbols.SymbolIndex.ComputeSymbolCover | src/devices/mcu/progmem.cpp:147-164 | the painting loops compute that index for flash and RAM |
| JsonRoundTrip.ParseUndoesPrint | lib/jsoncpp/jsoncpp.cpp:3590-3655 | parsing what the writer prints gives the value back without error, for every tree of null, booleans, 64-bit integers, strings, arrays and objects, up to the tag of integers above 2^31 - 1 and what follows a NUL in a string |
| JsonRoundTrip.ParseUndoesLayout | lib/jsoncpp/jsoncpp.cpp:312-352 | the same for every layout of such a value: any run of the four blanks of section 2 of RFC 8259 and of comments of both forms before it, behind it and between any two of its tokens, blanks only before a colon and in an empty array |
| JsonRoundTrip.ValueBack | lib/jsoncpp/jsoncpp.cpp:355-403 | the same for a value anywhere in a document |
| JsonRoundTrip.CommentInEmptyArray | lib/jsoncpp/jsoncpp.cpp:700-740 | an array with only a comment in it is refused |
| JsonRoundTrip.CommentBeforeColon | lib/jsoncpp/jsoncpp.cpp:641-697 | and so is a member with a comment before its colon |
| JsonLayout.BlankIsSkipped | lib/jsoncpp/jsoncpp.cpp:509-520 | the token at a space, tab, carriage return or line feed is the token behind it |
| JsonLayout.GapIsSkipped | lib/jsoncpp/jsoncpp.cpp:509-584 | a run of blanks and comments, wherever it stands, leads to the token behind it |
| JsonRoundTrip.CStringIff | lib/jsoncpp/jsoncpp.cpp:3503-3569 | the writer keeps a string whole exactly when it has no NUL |
| JsonOutcomes.ReparseGivesTheSame | lib/jsoncpp/jsoncpp.cpp:312-352 | a value parsed from any document, errors or not, without reals survives printing and parsing |
| JsonOutcomes.SecondRoundIsExact | lib/jsoncpp/jsoncpp.cpp:3590-3655 | and what the first round of printing and parsing may change it changes once: the second gives exactly the value it started from |
| JsonOutcomes.ParseReports | lib/jsoncpp/jsoncpp.cpp:312-352 | a parse succeeds exactly when it leaves no error |
| JsonOutcomes.ValueReports | lib/jsoncpp/jsoncpp.cpp:355-403 | success consumes input and adds no error, failure adds one, and errors already there stay |
| JsonOutcomes.ParsedIsKept | lib/jsoncpp/jsoncpp.cpp:641-697 | every object parsed has one member to a name, in order, even in a document with errors |
| JsonOutcomes.GetAfterPut | lib/jsoncpp/jsoncpp.cpp:667-672 | storing a member changes that member alone |
| JsonNumbers.IntegerDecodesIff | lib/jsoncpp/jsoncpp.cpp:743-792 | an integer decodes to itself exactly when it is a 64-bit one |
| JsonNumbers.GatherExact | lib/jsoncpp/jsoncpp.cpp:768-786 | on numbers in range the digit loop never overflows |
| JsonNumbers.MarkedIsReal | lib/jsoncpp/jsoncpp.cpp:743-755 | a point, an exponent or a sign past the start makes a real of a number |
| JsonNumbers.WrongIntegerIff | lib/jsoncpp/jsoncpp.cpp:743-792 | one outside the 64-bit range becomes a real, except exactly when all but its last two digits are below a tenth of the bound of its sign and its last digit is not above the last of the bound: then it becomes the integer it is modulo 2^64 |
| JsonNumbers.OverflowSlipsThrough | lib/jsoncpp/jsoncpp.cpp:768-786 | 2^64 + 4 becomes four |
| JsonNumbers.NumberReadsBack | lib/jsoncpp/jsoncpp.cpp:3418-3441 | printed 64-bit integers read back |
| JsonStrings.QuotedReadsBack | lib/jsoncpp/jsoncpp.cpp:3503-3569 | what the writer puts between quotes is scanned to its end and decoded to the string, escapes and \u00XX included |
| JsonStrings.EscapeBack | lib/jsoncpp/jsoncpp.cpp:834-876 | each escape decodes to its character |
| JsonStrings.Utf8IsUtf8 | lib/jsoncpp/jsoncpp.cpp:100-133 | every code point is written as its UTF-8 form by section 3 of RFC 3629 |
| JsonSpellings.StringReads | lib/jsoncpp/jsoncpp.cpp:834-948 | every way section 7 of RFC 8259 has to spell a string, with escapes of two characters, of four digits in either case and of surrogate pairs, is scanned to its closing quote and decoded to the bytes it means |
| JsonSpellings.HexValueIff | lib/jsoncpp/jsoncpp.cpp:909-948 | a character counts as a hexadecimal digit exactly when it is one |
| JsonSpellings.UnclosedStringFails | lib/jsoncpp/jsoncpp.cpp:624-637 | a document that ends inside a string is an error |
| JsonLayout.LoneSlashFails | lib/jsoncpp/jsoncpp.cpp:538-549 | and so is a slash that begins no comment |
| JsonText.RecoverFindsFirst | lib/jsoncpp/jsoncpp.cpp:950-964 | error recovery passes over tokens up to the first of the kind looked for |
| JsonSpellings.HexQuadIff | lib/jsoncpp/jsoncpp.cpp:909-931 | four characters are taken for a number exactly when they are its four digits |
| JsonSpellings.LoneHalfFails | lib/jsoncpp/jsoncpp.cpp:880-907 | the first half of a surrogate pair without an escape for the second is an error |
| JsonStrings.NoRawControls | lib/jsoncpp/jsoncpp.cpp:3503-3569 | the writer leaves no control character unescaped |
| JsonSpellings.OtherEscapesFail | lib/jsoncpp/jsoncpp.cpp:834-876 | a backslash before any other character is an error |
| JsonText.ReadToken | lib/jsoncpp/jsoncpp.cpp:435-507 | the cursor never goes back or past the end, and every token but the end of the document takes input |
| JsonText.Recover | lib/jsoncpp/jsoncpp.cpp:950-964 | error recovery ends, inside the document |
| JsonParser.ReadValue | lib/jsoncpp/jsoncpp.cpp:355-403 | reading a value ends, inside the document |
| JsonReader.Reader.NextToken | lib/jsoncpp/jsoncpp.cpp:435-507 | the token loops, in place |
| JsonReader.Reader.RecoverFromError | lib/jsoncpp/jsoncpp.cpp:950-964 | the recovery loop ends and leaves the errors as they were |
| JsonReader.Reader.DecodeString | lib/jsoncpp/jsoncpp.cpp:834-876 | the decoding loop, with its errors |
| JsonReader.Reader.DecodeNumber | lib/jsoncpp/jsoncpp.cpp:743-792 | the digit loops in 64 bits |
| JsonReader.Reader.ReadValueHere | lib/jsoncpp/jsoncpp.cpp:355-403 | the recursive descent terminates on every input, does what the functions say, and leaves the node stack as deep as it was, on success and failure alike |
| JsonReader.Reader.ReadArray | lib/jsoncpp/jsoncpp.cpp:700-740 | its array loop |
| JsonReader.Reader.ReadObject | lib/jsoncpp/jsoncpp.cpp:641-697 | its object loop |
| JsonReader.Reader.ParseDocument | lib/jsoncpp/jsoncpp.cpp:312-352 | a whole parse |
| JsonWriter.UIntToString | lib/jsoncpp/jsoncpp.cpp:160-171 | the digit loop prints the decimal form |
| JsonWriter.ValueToQuotedString | lib/jsoncpp/jsoncpp.cpp:3503-3569 | fast path and loop give the quoted form |
| JsonWriter.FastWriter.WriteValue | lib/jsoncpp/jsoncpp.cpp:3600-3655 | the writer appends the printed value and nothing else |
| JsonWriter.FastWriter.Write | lib/jsoncpp/jsoncpp.cpp:3590-3597 | the document is the printed value and a newline |

## Left out

- EncDelivery.DriverReadsAll: between the bytes of one packet nothing else happens.
- EncRuns.ReceptionIsAFifo: during the run the host does not write the registers that place the ring (ERXST, ERXND,
  ERXWRPT), does not free what is not stored, does not write over unfreed cells of the ring, and sends no command byte
  that the chip throws at or that starts a transmission or an MII access; arriving frames carry a check sequence and
  meet no filter the source throws at, and admitted ones fit and can be counted, since by
  `EncReception.AdmittedFrameAddsIffFits` the admission test alone does not see to that.
- EncRegisters.AdjustBit: the masks are those of the Ethernet control registers; PHY registers, reached through the
  MII registers, are not modelled, and an MII access is outside the model.
- Enc28j60.Enc28J60.OnRegWrite: a write that starts a transmission, or to MICMD or MIWRH, ends outside the model.
- Enc28j60.Enc28J60.HandleSpiData: so do the commands that make them, and with them the transmit status, which uses bit
  numbers as masks; pins, bus sharing and the timed poll for frames become inputs.
- EthFrame.EthernetFrame.constructor: the network socket, the poll thread and the length/type predicates used only for
  printing are not modelled.
- SdCard.SdCard.Open: how the image file is opened and sought, and files of 4 GB or more, are not modelled.
- SdBlockStore.Transaction: CRC checking is off in SPI mode, as `SdSafety.EveryRunIsSafe` shows, so the check bytes of a
  block are not looked at, every complete write is answered 0x05, and the answer 0x0b is never given.
- Ds1307.Ds1307.SetTime: local time is UTC, since time zone and daylight saving are not decided by the code, which leaves
  tm_isdst unset; the backing file, the log line at a stop and the second restarted by a write to the seconds are left out.
- SimulationRuns.EveryRunKeeps: devices are scripts of requests; an id below -1 or a negative delay, which would let a
  device act before a pending end or in the past, is excluded; the wait for real time and 64-bit overflow of time are
  not modelled.
- Simulation.Simulation.RunToTime: `removeDevice`, which uses an iterator after erasing it, is not modelled.
- AvrRuns.NestedRunsRestore: programs that move the stack pointer themselves, or write above it, are not covered.
- AvrMachine.CoreIsStackMachine: a program misuses its stack when it pops what a call left or returns to what it pushed,
  pushes outside the SRAM, or moves the stack pointer or writes above it while something is on the stack; after that
  nothing is promised.
- AvrPrograms.ProgramAdds: no interrupt is taken between the instructions.
- AvrDecode.ActKeepsPc: what data instructions compute, and whether they fail, is left open, except the additions,
  subtractions and comparisons of two registers or of one with a constant, multiplication, PUSH, POP and the instructions
  on single flags; access to an I/O port is outside the model, its handlers being other devices.
- AvrTimer.TimerIsDivision: the prescaler counter is unbounded where the source's int would overflow after 2^31 cycles;
  timers 0 and 2, which the source does not support, are left out.
- AvrStack.PopWordReads: the two pops of one expression are taken from left to right, which the language does not fix.
- Symbols.SymbolIndex.ComputeSymbolCover: symbols must lie within the index, since the source writes without a bound
  check; reading the ELF file and the library sort are not modelled.
- JsonRoundTrip.ParseUndoesPrint: reals are left to the C library: scanning and formatting are arbitrary functions.
- JsonParser.ReadValue: comments are skipped but not attached to values, messages and error positions inside a token
  are not kept, and the strict mode and the styled writers are left out.
- The dashboard, console, debug dumps, command line, TAP device, RS232, TWI, SPI and pin wiring, and ADC voltages.
