# Verified model of an STM32F7 firmware framework

The firmware runs a small application framework (RTOS wrappers, streams, sockets, an HTTP listener, an
SNTP client, strings, a real-time clock) on STM32F7 boards, over board drivers for Ethernet, SD cards,
QSPI flash, I2C EEPROM and an LCD. This project models the parts of it that are hardest to get right and
proves what they do over all inputs, all runs, or all behaviours of the hardware on the other side.

The files follow the program's components:

- `EthRing`, `EthTx`, `EthRx`, `EthLoop`: the descriptor rings that driver and DMA share, sending, receiving, and
  both ends joined by a wire. The DMA gets a moment before each look at an OWN bit, each copy out of a
  receive buffer and each hand-over of a frame with several segments, and after each return of a descriptor;
  a schedule over all these moments says how much it does in each.
- `SdBus`, `SdBlocks`, `SdInit`: an SD card in SPI mode as a protocol automaton that may answer anything its
  protocol allows, block transfer, and the start-up dialogue.
- `MemoryPool`: the fixed-size block pool as a step machine over all interleavings, and as a class.
- `NetStream`, `ReadExact`, `ReadLine`, `BufferedWrite`: receiving, buffered reading and writing, reading lines.
- `RequestLine`, `Chunks`, `HttpResponse`, `HttpRoundTrip`, `Text`: the HTTP listener and its text functions.
- `RefString`: reference-counted strings. `Sntp`: clock synchronisation. `Calendar`: ticks to date and time.
- `Lcd`, `LcdLine`: circles and lines. `PagedMemory`, `Qspi`, `Eeprom`: memories written page by page.
- `Arith`: division with remainder.

Objects that the source updates in place are classes, loops are methods proved against specification
functions, and the properties of these functions are lemmas. What the hardware or the network does is a
parameter: a script of answers, a plan of failures, a schedule of DMA steps, an allocator that may fail.

Several things one would expect are not true of the code. The code is modelled as it is, and the exact
condition is proved:

- `DateTime::set_ticks` is exact iff the tick count is not before 1970 and not after year 65535.
- A line is drawn exactly for all slopes iff it is at most 16384 pixels long; a circle of radius 0 does
  not stop in time because an unsigned variable wraps.
- `BufferedStream::read` is exact for every segmentation iff the request is for one byte, or no larger than what
  is buffered, or larger than an empty buffer (or for two bytes with a full one-byte buffer);
  `BufferedStream::write` loses bytes iff a flush is short.
- `Socket::recv_from` sees only the first fragment of each netbuf.
- `StringBuffer::append` guards with `m_length >- m_capacity`, which keeps appends in bounds iff the
  capacity is over two gigabytes; `read_line` relies on it, and stays in bounds iff the line fits.
- `write_response` reports success when a body write fails, and a body of several chunks ends in a link
  that was never stored unless memory comes zero-filled.
- `FixedMemoryPool::release` signals before it pushes, so a `get` in between pops an empty list.
- Assigning a `String` that is the only owner of its buffer to itself uses the buffer after freeing it.
- The SNTP offset is within 4 ms for all networks iff decoding the server's stamps drops nothing.
- `Int32::to_string` does not count the sign when it checks the room, and stores one byte too many iff the
  digits of a negative number fill the buffer exactly.
- The SD start-up takes a card that falls silent for an initialised one iff CMD8 was still to come or the
  version-1 loop was under way.

Where a comment in the source differs from the code, the model follows the code.

## Model

| member | source | states |
|---|---|---|
| `EthLoop.Loopback` | src/ethernetif.c:268-430 | for any list of pbuf chains, whatever the pbuf pool gives or refuses at each call and whatever the two DMA engines do at each moment, the chains delivered are an order-preserving selection of the chains accepted, byte for byte; with DMA engines that always do all they can every non-empty chain is accepted, and if the pool never runs out every accepted chain is delivered |
| `EthLoop.SendAll` | src/ethernetif.c:268-341 | what the wire carries, read by its first- and last-segment bits, is exactly the accepted frames in order; with an eager DMA that is every non-empty frame |
| `EthLoop.ReceiveAll` | src/ethernetif.c:352-430 | the chains delivered are frames that arrived, in order and without their CRC, each at most once; with an eager DMA and a pool that never fails, all frames longer than a CRC |
| `EthLoop.FramesCut` | Drivers/STM32F7xx_HAL_Driver/Src/stm32f7xx_hal_eth.c:712-756 | the segments of a frame, followed by anything, are received as that frame and then the rest |
| `EthTx.TxRing.Output` | src/ethernetif.c:268-341 | either nothing is handed to the DMA, and then the descriptors free on entry could not hold the frame, or exactly its segments are; the DMA may take descriptors at any moment; the ownership invariant holds before and after |
| `EthTx.TxRing.CopyPbuf` | src/ethernetif.c:284-324 | the loop over one pbuf: from any offset in any buffer, the payload lands in consecutive buffers that the DMA does not own; on a busy descriptor nothing has been handed over |
| `EthTx.TxRing.FillAndAdvance` | src/ethernetif.c:300-318 | filling a buffer and moving on keeps the frame laid out without gap or overlap; the next descriptor is free iff its OWN bit is clear after the DMA ran |
| `EthTx.TxRing.TransmitFrame` | Drivers/STM32F7xx_HAL_Driver/Src/stm32f7xx_hal_eth.c:667-772 | an empty frame is refused; otherwise exactly the segments of the frame are queued, with first bit, last bit and sizes, and the buffer count computed is the number of buffers filled |
| `EthTx.TxRing.TransmitSegments` | Drivers/STM32F7xx_HAL_Driver/Src/stm32f7xx_hal_eth.c:719-753 | the hand-over loop queues the first i segments after i turns, even when the DMA already sends the first of them |
| `EthTx.TxRing.Dma` | src/ethernetif.c:268-341 | the hardware side: sending returns descriptors in ring order, loses no segment and touches no buffer |
| `EthRing.BufCountIs` | Drivers/STM32F7xx_HAL_Driver/Src/stm32f7xx_hal_eth.c:697-709 | quotient plus one for a remainder is the number of buffers that are just enough |
| `EthRing.FreeBehind` | src/ethernetif.c:288-311 | a descriptor k places behind the queue has a clear OWN bit iff queue and k still fit in the ring |
| `EthRx.RxRing.Input` | src/ethernetif.c:352-430 | the n-th frame taken is the n-th frame that arrived; it comes in pbufs of the sizes the pool gave, without the CRC; nothing comes only when no frame is complete, the frame is empty or the pool is out of pbufs, and its descriptors go back to the DMA in each of the last two cases |
| `EthRx.RxRing.GetReceivedFrame` | Drivers/STM32F7xx_HAL_Driver/Src/stm32f7xx_hal_eth.c:860-937 | succeeds iff a complete frame is waiting; descriptor, segment count and length are those of the oldest one, also when its first segments were counted by an earlier call |
| `EthRx.RxRing.ScanStep` | Drivers/STM32F7xx_HAL_Driver/Src/stm32f7xx_hal_eth.c:870-925 | one turn of the scan keeps the cursor on the oldest frame, or takes that frame |
| `EthRx.RxRing.FillPbuf` | src/ethernetif.c:384-407 | from any offset in any buffer, the pbuf receives the next bytes of the frame, also across buffers |
| `EthRx.RxRing.CopyChain` | src/ethernetif.c:377-409 | the pbufs together hold the whole frame without its CRC |
| `EthRx.RxRing.Release` | src/ethernetif.c:411-423 | exactly the descriptors of the frame go back, in ring order, while the DMA may already be filling them again |
| `EthRx.RxRing.Dma` | src/ethernetif.c:352-430 | the hardware side: segments are only appended, and only to descriptors the DMA owns |
| `SdBlocks.WriteThenRead` | Drivers/BSP/Adafruit_Shield/stm32_adafruit_sd.c:338-486 | write and read both succeed iff there is memory, CMD16 and every block command are answered 00 within eight bytes, every data response is accepting and every start token in time; then the bytes read are the bytes written and no other block of the card has changed, for byte- and block-addressed cards |
| `SdBlocks.WriteBlocks` | Drivers/BSP/Adafruit_Shield/stm32_adafruit_sd.c:415-486 | success iff there is memory, CMD16 and every CMD24 are answered 00 and every data response is accepting; on success exactly the addressed blocks hold the data, on failure a proper first part of them; no other block changes; chip select ends high |
| `SdBlocks.ReadBlocks` | Drivers/BSP/Adafruit_Shield/stm32_adafruit_sd.c:338-405 | success iff there is memory, CMD16 and every CMD17 are answered 00 and every start token comes in time; on success the bytes of exactly the addressed blocks, in order; the card never changes |
| `SdBlocks.CallGoesIff` | Drivers/BSP/Adafruit_Shield/stm32_adafruit_sd.c:338-486 | what the driver computes from the bytes that come back is this condition on them, byte position by byte position |
| `SdBlocks.WriteBlock` | Drivers/BSP/Adafruit_Shield/stm32_adafruit_sd.c:439-475 | one block: accepted iff the card programmed it, and then only this block changed |
| `SdBlocks.ReadBlock` | Drivers/BSP/Adafruit_Shield/stm32_adafruit_sd.c:363-393 | one block: success means the data of the addressed block |
| `SdBlocks.AddressNames` | Drivers/BSP/Adafruit_Shield/stm32_adafruit_sd.c:365-371 | the address sent names block `addr / 512 + k` for both kinds of card |
| `SdBlocks.GatherReplaced` | Drivers/BSP/Adafruit_Shield/stm32_adafruit_sd.c:338-486 | reading replaced blocks gives the data, and all other blocks are as before |
| `SdBus.SpiBus.SendCmd` | Drivers/BSP/Adafruit_Shield/stm32_adafruit_sd.c:762-816 | six bytes with chip select low, then the answer: for any bytes that come back, the first of eight that is not 0xFF, and the four behind it where they are expected; an honest card then stands where its answer says |
| `SdBus.SpiBus.GetDataResponse` | Drivers/BSP/Adafruit_Shield/stm32_adafruit_sd.c:827-861 | the masked response if it is one of the three known, else 0xFF; the block is in the memory iff it is accepting, and then the driver waits for 0xFF; afterwards the card is ready |
| `SdBus.SpiBus.WaitData` | Drivers/BSP/Adafruit_Shield/stm32_adafruit_sd.c:992-1012 | success iff the token is found before the last poll |
| `SdBus.SpiBus.ReadData` | Drivers/BSP/Adafruit_Shield/stm32_adafruit_sd.c:971-985 | the first byte other than 0xFF within eight polls, else 0xFF; an honest card answers in time |
| `SdBus.FrameArg` | Drivers/BSP/Adafruit_Shield/stm32_adafruit_sd.c:771-778 | the first byte is the command with bit 6, the next four decode to the argument, the last is the CRC with its end bit |
| `SdInit.Driver.GoIdleState` | Drivers/BSP/Adafruit_Shield/stm32_adafruit_sd.c:869-964 | every run of the initialisation is a dialogue of the stage automaton; its commands are those sent, and its answers the bytes that came back; it succeeds iff the dialogue is a successful one, and the capacity flag becomes the one that dialogue tells, or stays |
| `SdInit.SuccessfulIff` | Drivers/BSP/Adafruit_Shield/stm32_adafruit_sd.c:869-964 | which dialogues succeed, exchange by exchange: CMD0 answered 01 within 99 tries, CMD8 answered 01 or with bit 2 set, then the first ACMD41 answer other than 01, the fallback if that has bit 2 set, and on the version-2 path CMD58 answered 00; the flag is 1 iff bit 6 of the byte behind that is set |
| `SdInit.HeardIs` | Drivers/BSP/Adafruit_Shield/stm32_adafruit_sd.c:762-816 | the answers of a dialogue read off the bus: R1 among the eight bytes behind the command, and behind CMD8 and CMD58 the byte that follows it |
| `SdInit.ScriptDecides` | Drivers/BSP/Adafruit_Shield/stm32_adafruit_sd.c:869-964 | the bytes that come back decide the dialogue and its outcome: there is only one |
| `SdInit.EveryDialogue` | Drivers/BSP/Adafruit_Shield/stm32_adafruit_sd.c:869-964 | over all dialogues: ACMD41 always directly follows CMD55, CMD0 comes first and at most 100 times, CMD8 at most once, high capacity is asked for only after a good CMD8 answer, and success ends on ACMD41 (version 1) or on CMD58 with its capacity bit |
| `SdInit.SuccessEnds` | Drivers/BSP/Adafruit_Shield/stm32_adafruit_sd.c:895-957 | how a successful dialogue ends, from any stage |
| `SdInit.AsksHighAlways` | Drivers/BSP/Adafruit_Shield/stm32_adafruit_sd.c:912-946 | the high-capacity bit is sent only on the path of an accepted CMD8 |
| `SdInit.SilentInitialisedIff` | Drivers/BSP/Adafruit_Shield/stm32_adafruit_sd.c:869-964 | a card that answers nothing from some stage on is reported as initialised iff CMD8 was still to come or the version-1 loop was under way |
| `SdInit.SilentCardInitialised` | Drivers/BSP/Adafruit_Shield/stm32_adafruit_sd.c:893-911 | a witness: silence after CMD0 |
| `MemoryPool.StepKeeps` | framework/src/kfw_rtos.cpp:293-375 | every step of every interleaving of get and release keeps the pool invariant, unless get pops an empty list |
| `MemoryPool.PopsEmptyIff` | framework/src/kfw_rtos.cpp:293-322 | in every such state, get pops an empty list iff the releases between signal and push account for every token and every admitted get |
| `MemoryPool.RunKeeps` | framework/src/kfw_rtos.cpp:293-375 | the invariant holds after every run without such a pop |
| `MemoryPool.QuietRunSafe` | framework/src/kfw_rtos.cpp:264-375 | runs in which no get takes its block between the signal and the push of a release are safe, also in a pool created again with a left-over list head |
| `MemoryPool.RaceExample` | framework/src/kfw_rtos.cpp:354-375 | one release and one get in the window between signal and push: get pops the empty list |
| `MemoryPool.PoolIsSet` | framework/src/kfw_rtos.cpp:293-375 | the pool is a set of blocks: get removes one that nobody holds, an unused one at the lowest offset or else the one released last, release adds the released one, nothing else changes it |
| `MemoryPool.CreateInvIff` | framework/src/kfw_rtos.cpp:264-280 | create sets the pool up properly iff the size of the buffer fits 32 bits |
| `MemoryPool.FixedMemoryPool.Get` | framework/src/kfw_rtos.cpp:293-322 | in any state the interleavings reach: a timeout iff the semaphore is at zero; otherwise an available block nobody holds, unless the pending releases account for every token and every admitted get, and then an empty list is popped |
| `MemoryPool.FixedMemoryPool.Release` | framework/src/kfw_rtos.cpp:354-375 | the block is available again and the invariant holds |
| `MemoryPool.FixedMemoryPool.Setup` | framework/src/kfw_rtos.cpp:264-280 | refused on a pool in use; otherwise all blocks are unused and the list head is whatever was left over |
| `HttpRoundTrip.Serve` | framework/src/kfw_web.cpp:155-200 | body writes of any sizes, chunks of any size, any pattern of failing writes: nothing goes out unless the body fits the memory; success is reported iff status line and headers went out; every write went through iff the output is the whole response, and it does when no write fails; then the listener's own parser reads back status line, headers and body iff the content type has no line break it would see; the walk runs wild iff the body took several chunks of memory not zero-filled |
| `HttpRoundTrip.ResponseParsesIff` | framework/src/kfw_web.cpp:155-200 | the response parses back into its parts iff the content type holds no line break that `read_line` would see |
| `HttpRoundTrip.ResponseReportIff` | framework/src/kfw_web.cpp:155-200 | success is reported iff status line and headers went out; the whole response went out iff every write succeeded |
| `HttpRoundTrip.PutAllAttempts` | framework/src/kfw_io.cpp:164-213 | status line and headers: every output is attempted whatever failed before, and those that succeed go out in order |
| `HttpRoundTrip.PutBodyStops` | framework/src/kfw_web.cpp:183-191 | body: the first write that fails is the last one made, and just the pieces before it went out |
| `HttpRoundTrip.BodyFailureUnreported` | framework/src/kfw_web.cpp:183-199 | a failing body write is reported as success: the family of counterexamples |
| `HttpRoundTrip.ContentLengthIff` | framework/src/kfw_web.cpp:169-173 | the Content-Length that is read back is the body length iff the body is under four gigabytes |
| `HttpRoundTrip.LengthHeaderParses` | framework/src/kfw_web.cpp:301-314 | `parse_http_header` and `UInt32::parse` undo the header that `write_response` prints |
| `HttpRoundTrip.HeaderSplits` | framework/src/kfw_web.cpp:301-314 | a header line is split at its first colon, both parts are trimmed, and it is refused iff it has none |
| `HttpRoundTrip.TypeHeaderParses` | framework/src/kfw_web.cpp:171-171 | the second header parses to Content-Type and its value |
| `HttpRoundTrip.ConnectionHeaderParses` | framework/src/kfw_web.cpp:172-172 | the third header parses to Connection and close |
| `HttpRoundTrip.ReasonPhrases` | framework/src/kfw_web.cpp:397-421 | the reason phrases of the nine known codes, and Unknown for just the others |
| `HttpRoundTrip.ResponseExample` | framework/src/kfw_web.cpp:155-200 | a whole response, byte for byte |
| `HttpRoundTrip.TextInLines` | framework/src/kfw_web.cpp:161-174 | the pieces written one after another are the response line by line |
| `HttpRoundTrip.Collect` | framework/src/kfw_web.cpp:55-86 | all writes are collected, as their concatenation, iff the chunks there are and can be will hold them; otherwise the memory is used up |
| `HttpResponse.WriteResponse` | framework/src/kfw_web.cpp:155-200 | result, output and release of the chunks after any pattern of failing writes, and when the walk goes on into a link that was never stored |
| `HttpResponse.WriteBody` | framework/src/kfw_web.cpp:180-192 | the chunks are sent in order up to the first write that fails; the loop goes on past them iff their last link was never stored |
| `HttpResponse.StreamWriter.Put` | framework/src/kfw_io.cpp:164-182 | a failure is remembered and later outputs are still attempted |
| `Chunks.ChunkBuffer.Write` | framework/src/kfw_web.cpp:55-86 | the contents grow by the data, or by as much of it as memory allowed, which is then used up |
| `Chunks.EnumerationIff` | framework/inc/kfw_web.hpp:142-181 | the enumerated pieces are the contents; the walk meets a link that was never stored iff the body needs more than one chunk and the allocator does not zero-fill |
| `ReadLine.ReadLine` | framework/src/kfw_web.cpp:241-276 | the result depends only on the bytes of the stream, not on how netbufs, socket and read buffer cut it; the end of the stream repeats the byte read last; the bytes stored fit the allocation iff the stream begins with a line that fits |
| `ReadLine.ReadLineOkIff` | framework/src/kfw_web.cpp:241-276 | succeeds iff the stream holds a text with CR LF behind it, inside the append guard, in which CRs come in pairs; a failure has stored one byte more than the guard value |
| `ReadLine.FailedLineText` | framework/src/kfw_web.cpp:241-276 | a line that fails has stored the first bytes seen, up to one more than the guard value |
| `ReadLine.SeenIs` | framework/src/kfw_web.cpp:241-276 | the bytes seen are those of the stream, and behind its end the last one again and again |
| `ReadLine.ReadLineInBoundsIff` | framework/src/kfw_web.cpp:241-276 | for every capacity: the bytes stored stay inside the allocation iff it is over two gigabytes or the stream begins with a line that fits it |
| `ReadLine.LongLineOverruns` | framework/src/kfw_web.cpp:241-276 | a witness for the 1024-byte buffer of the listener: a line of 1025 bytes is accepted and stored |
| `ReadLine.ReadsBackIff` | framework/src/kfw_web.cpp:241-276 | a text followed by CR LF is read back iff its CRs come in pairs; any other is misread |
| `ReadLine.AppendGuardIff` | framework/src/kfw_text.cpp:23-30 | the guard keeps appends inside the buffer iff the capacity is over two gigabytes |
| `RequestLine.ParsePrintedIff` | framework/src/kfw_web.cpp:278-299 | parsing undoes printing iff neither method nor URL has a space |
| `RequestLine.ParseRejoins` | framework/src/kfw_web.cpp:278-299 | a line is refused iff it has no space, and the parts found joined by spaces are the line again |
| `Text.PrintParsedIff` | framework/src/kfw_common.cpp:172-217 | printing what was parsed restores the text iff it has no leading zero and fits 32 bits |
| `Text.ValueOfDecimal` | framework/src/kfw_common.cpp:172-217 | the digits printed for a number have that number as value |
| `Text.DigitTable` | framework/src/kfw_common.cpp:195-217 | the ten digits are printed and parsed as 0 to 9 |
| `Text.ValuePlaces` | framework/src/kfw_common.cpp:172-193 | a digit counts ten times as much as the one behind it |
| `Text.DecimalOfValue` | framework/src/kfw_common.cpp:172-217 | a text without leading zeros is the decimal of its value |
| `Text.ParseUInt32` | framework/src/kfw_common.cpp:172-193 | the value modulo 2^32 for a text of digits; an error iff the text is empty or holds another character |
| `Text.PrintUInt32` | framework/src/kfw_common.cpp:195-217 | the decimal digits iff they fit; otherwise the buffer is left alone |
| `Text.PrintInt32` | framework/src/kfw_common.cpp:141-170 | what is reported and stored, for any room: the signed decimal when the digits alone fit, else nothing; memory behind what is stored is left alone |
| `Text.PrintOverrunIff` | framework/src/kfw_common.cpp:141-170 | what is stored stays inside the buffer iff the digits of a negative number do not fill it exactly; if they do, the overrun is one byte and reported as success |
| `Text.MinusOneOverruns` | framework/src/kfw_common.cpp:141-170 | a witness: -1 into a buffer of one byte stores two |
| `Text.TrimScan` | framework/src/kfw_common.cpp:90-115 | the two scans compute a text with no space at either end |
| `Text.TrimIs` | framework/src/kfw_common.cpp:90-115 | exactly the surrounding spaces go |
| `Text.ScanFor` | framework/src/kfw_common.cpp:49-58 | the least index from the start on, or -1 iff there is none |
| `Text.CompareIgnoreCase` | framework/src/kfw_common.cpp:22-47 | zero iff equal up to case; otherwise the difference of the lengths or of the first differing characters |
| `Text.LowerTable` | framework/src/kfw_common.cpp:33-38 | exactly the letters A to Z are folded, each to its small letter |
| `NetStream.BufferedStream.Read` | framework/src/kfw_io.cpp:60-102 | bytes are neither lost nor reordered, and the counts are those of a function of the request and the segmentation |
| `NetStream.Socket.Receive` | framework/src/kfw_net.cpp:282-335 | the next bytes of the stream, up to the end of the current netbuf; the rest is kept for the next call |
| `NetStream.VisibleIsAllIff` | framework/src/kfw_net.cpp:298-330 | reading loses nothing iff no netbuf has bytes beyond its first fragment |
| `ReadExact.ReadExactIff` | framework/src/kfw_io.cpp:74-99 | for a request and a fill level, read reports the bytes it copied and stays inside the caller's memory for every segmentation iff the request is a safe one |
| `ReadExact.ReadProgress` | framework/src/kfw_io.cpp:74-99 | at any point of the loop read fails only when nothing is left to read, and when it succeeds a request that the buffer can hold has been satisfied |
| `ReadExact.BufferedIsExact` | framework/src/kfw_io.cpp:74-84 | a request that the bytes waiting cover succeeds exactly, without the base |
| `ReadExact.UnsafeIsInexact` | framework/src/kfw_io.cpp:74-99 | for every unsafe request, a segmentation under which read misreports or overruns |
| `BufferedWrite.BufferedStream.Write` | framework/src/kfw_io.cpp:104-144 | case by case for any base stream: what fits goes into the buffer and the base is left alone; what does not fit beside the bytes waiting replaces them once they are flushed; what is larger than the buffer goes straight to the base behind them; a write fails iff a base write it needed fails |
| `BufferedWrite.BufferedStream.FlushWriteBuffer` | framework/src/kfw_io.cpp:146-160 | succeeds iff there is nothing to flush or the base write succeeds; then the buffer is empty, otherwise as it was |
| `BufferedWrite.RunConservesIff` | framework/src/kfw_io.cpp:104-160 | over any run of writes and flushes, base output plus buffered bytes are all accepted bytes in order iff no flush was short |
| `BufferedWrite.HonestBaseConserves` | framework/src/kfw_io.cpp:104-160 | over a base that takes all or fails nothing is ever lost |
| `RefString.RunExact` | framework/inc/kfw_common_string.hpp:172-228 | after any legal run every count is the number of live owners, and a buffer exists iff it has an owner |
| `RefString.StepKeeps` | framework/inc/kfw_common_string.hpp:172-228 | every operation that does not fault keeps the counts exact, gives its object the right content and changes no other String |
| `RefString.FaultIff` | framework/inc/kfw_common_string.hpp:206-218 | a freed buffer is used iff a String that is the only owner of its buffer is assigned to itself |
| `RefString.SelfAssignFaults` | framework/inc/kfw_common_string.hpp:206-218 | a run that faults: construct any String and assign it to itself |
| `RefString.Strings.AssignString` | framework/inc/kfw_common_string.hpp:206-218 | release, copy, addref: a fault iff a sole owner is assigned to itself, otherwise the model's assignment, keeping the invariant |
| `RefString.Strings.CopyString` | framework/inc/kfw_common_string.hpp:181-189 | the copy constructor shares the buffer and counts it |
| `RefString.Strings.DestroyString` | framework/inc/kfw_common_string.hpp:191-196 | the destructor gives up its share and frees the buffer with the last one |
| `RefString.Strings.ReleaseFrom` | framework/src/kfw_common_string.cpp:34-40 | the count goes down by one and the buffer goes with the last owner |
| `Sntp.DoSync` | framework/src/kfw_net_ntp.cpp:47-157 | on success the clock moves by the average of four offsets and is marked synced; on any error it is left alone and the error returned |
| `Sntp.NtpEpoch` | framework/src/kfw_net_ntp.cpp:10-10 | the constant subtracted from NTP seconds is the number of seconds from 1900-01-01 to 1970-01-01 in the calendar |
| `Sntp.OffsetOfPacket` | framework/src/kfw_net_ntp.cpp:110-138 | in a packet of 32 bytes, receive stamp and transmit stamp, most significant byte first, the offset is half the way out less half the way back |
| `Sntp.GivesUpIff` | framework/src/kfw_net_ntp.cpp:74-148 | at most six exchanges; the call fails iff at least three of the first six do |
| `Sntp.GivesUpWith` | framework/src/kfw_net_ntp.cpp:85-107 | the error returned is that of the third failing exchange, the last one made |
| `Sntp.SyncAccurate` | framework/src/kfw_net_ntp.cpp:108-155 | against a server t ahead, with delays that differ by at most m, the average misses t by at most 4 + m/2 ms above and 4 + loss + m/2 ms below, where decoding drops at most loss from each of the two server stamps |
| `Sntp.SyncToServer` | framework/src/kfw_net_ntp.cpp:47-157 | after a successful do_sync the clock shows the server's time within these bounds; it succeeds iff fewer than three of the first six exchanges fail |
| `Sntp.FourMillisIff` | framework/src/kfw_net_ntp.cpp:108-155 | the average stays within 4 + m/2 ms for all networks whose stamps lose at most l iff l is below 2^-29 ms, the least loss there is, that is, iff decoding drops nothing |
| `Sntp.StampWithinFourIff` | framework/src/kfw_net_ntp.cpp:108-155 | for the loss of any one stamp: the 4 ms bound holds iff the stamp is decoded exactly |
| `Sntp.OffsetError` | framework/src/kfw_net_ntp.cpp:108-140 | one offset misses by at most half the asymmetry and 1 ms above, 1 ms plus the decoding loss below |
| `Sntp.DecodingLoss` | framework/src/kfw_net_ntp.cpp:110-136 | decoding an NTP stamp drops less than a millisecond |
| `Sntp.LowerBoundReached` | framework/src/kfw_net_ntp.cpp:108-155 | for every stamp, replies for which the error is exactly the lower bound for the loss of that stamp |
| `Sntp.UpperBoundReached` | framework/src/kfw_net_ntp.cpp:108-155 | for every stamp, replies for which the error is 4 ms less its loss: a stamp decoded exactly reaches the upper bound |
| `Calendar.SetTicksExactIff` | framework/src/kfw_rtc.cpp:37-70 | the date-time is valid and has the given tick count iff the count is from the epoch to the end of year 65535 |
| `Calendar.SetTicksInRange` | framework/src/kfw_rtc.cpp:37-70 | in that range the date is the one reached by counting days one at a time from 1970-01-01 |
| `Calendar.SetTicksWraps` | framework/src/kfw_rtc.cpp:37-70 | as long as the day count fits 32 bits, only the year is cut, to 16 bits |
| `Calendar.SetTicksOnto` | framework/src/kfw_rtc.cpp:37-70 | every valid date-time from 1970 on is set_ticks of its own tick count |
| `Calendar.SetTicksNextDay` | framework/src/kfw_rtc.cpp:37-70 | one day later is the next calendar day at the same time of day |
| `Calendar.SetTicksBeforeEpoch` | framework/src/kfw_rtc.cpp:37-70 | before the epoch the result is never the given instant |
| `Calendar.MinusOneTick` | framework/src/kfw_rtc.cpp:37-70 | a witness before the epoch: tick -1 is read as 65535 ms past midnight of 1970-01-01 |
| `Calendar.CivilCounts` | framework/src/kfw_rtc.cpp:37-70 | the closed formula for year, month and day equals counting days |
| `Calendar.CivilStep` | framework/src/kfw_rtc.cpp:37-70 | consecutive day numbers are consecutive calendar days |
| `Lcd.FrameBuffer.DrawCircle` | Drivers/BSP/STM32746G-Discovery/stm32746g_discovery_lcd.c:893-932 | of the words of the frame buffer, row by row, exactly those of the pixels nearest to the circle are painted |
| `Lcd.FrameBuffer.DrawOctants` | Drivers/BSP/STM32746G-Discovery/stm32746g_discovery_lcd.c:905-919 | the eight calls paint exactly the eight mirror images of a point |
| `Lcd.FrameBuffer.DrawPixel` | Drivers/BSP/STM32746G-Discovery/stm32746g_discovery_lcd.c:1001-1012 | the word at y times the width plus x changes, and no other |
| `Lcd.DecisionIs` | Drivers/BSP/STM32746G-Discovery/stm32746g_discovery_lcd.c:899-930 | the decision variable is the sum of the errors of the two candidate rows |
| `Lcd.CircleStepKeeps` | Drivers/BSP/STM32746G-Discovery/stm32746g_discovery_lcd.c:921-930 | a step keeps the invariant: the row is the nearest to the circle in its column, in 32-bit arithmetic |
| `Lcd.OctantsAreOnCircle` | Drivers/BSP/STM32746G-Discovery/stm32746g_discovery_lcd.c:905-919 | the eight images are all the circle pixels with that smaller offset |
| `Lcd.CircleStopsIff` | Drivers/BSP/STM32746G-Discovery/stm32746g_discovery_lcd.c:903-931 | the loop ends within radius + 1 steps for every radius but 0, where y wraps below zero |
| `LcdLine.DrawLine` | Drivers/BSP/STM32746G-Discovery/stm32746g_discovery_lcd.c:800-865 | of the words of the frame buffer, row by row, exactly those of the points of the rounded line are painted |
| `LcdLine.LineExactIff` | Drivers/BSP/STM32746G-Discovery/stm32746g_discovery_lcd.c:806-864 | in 16-bit arithmetic every line of length n comes out exact iff n is at most 16384 |
| `LcdLine.LongLineBreaks` | Drivers/BSP/STM32746G-Discovery/stm32746g_discovery_lcd.c:852-864 | for every greater n, a line that comes out wrong |
| `LcdLine.CursorTracks` | Drivers/BSP/STM32746G-Discovery/stm32746g_discovery_lcd.c:852-864 | after k turns the loop stands at the k-th point of the line |
| `LcdLine.RoundedIsNearest` | Drivers/BSP/STM32746G-Discovery/stm32746g_discovery_lcd.c:852-864 | the points are the ones nearest to the ideal line, with their tie rule |
| `LcdLine.LineConnected` | Drivers/BSP/STM32746G-Discovery/stm32746g_discovery_lcd.c:800-865 | consecutive points touch |
| `LcdLine.LineEnds` | Drivers/BSP/STM32746G-Discovery/stm32746g_discovery_lcd.c:800-865 | the line runs from one end point to the other |
| `LcdLine.LineInBox` | Drivers/BSP/STM32746G-Discovery/stm32746g_discovery_lcd.c:800-865 | no point leaves the box of the end points |
| `LcdLine.SetupIs` | Drivers/BSP/STM32746G-Discovery/stm32746g_discovery_lcd.c:806-850 | increments and fraction chosen for each of the eight directions |
| `Qspi.Write` | Drivers/BSP/STM32746G-Discovery/stm32746g_discovery_qspi.c:228-301 | the page programs together are one flat write, or of a prefix of the data after an error; each stays in its page, and they cover the range once, in order |
| `Qspi.PageRoom` | Drivers/BSP/STM32746G-Discovery/stm32746g_discovery_qspi.c:233-242 | the stepping loop finds the room left in the page |
| `Qspi.ErasedHoldsData` | Drivers/BSP/STM32746G-Discovery/stm32746g_discovery_qspi.c:228-301 | after a write to an erased range the range holds the data and nothing else changed |
| `Eeprom.WriteBuffer` | Drivers/BSP/STM32746G-Discovery/stm32746g_discovery_eeprom.c:281-423 | the page writes together are one flat write in every branch of the split, or of a prefix after a failure |
| `Eeprom.WriteUnaligned` | Drivers/BSP/STM32746G-Discovery/stm32746g_discovery_eeprom.c:338-419 | the branch for a start inside a page |
| `Eeprom.WritePages` | Drivers/BSP/STM32746G-Discovery/stm32746g_discovery_eeprom.c:294-336 | whole pages and then the rest |
| `Eeprom.WriteReadsBack` | Drivers/BSP/STM32746G-Discovery/stm32746g_discovery_eeprom.c:281-423 | a successful write reads back, and every other byte is as before |
| `PagedMemory.FlatIffInPage` | Drivers/BSP/STM32746G-Discovery/stm32746g_discovery_eeprom.c:246-270 | one page command is a flat write, whatever its data, iff it stays in its page |
| `PagedMemory.ProgramIsFlat` | Drivers/BSP/STM32746G-Discovery/stm32746g_discovery_qspi.c:256-298 | a command that stays in its page is a flat write, on a clearing as on a replacing chip |
| `PagedMemory.ProgramStaysInPage` | Drivers/BSP/STM32746G-Discovery/stm32746g_discovery_qspi.c:256-298 | no command changes a byte outside its page |

## Left out

- Text.PrintInt32: leaves out the least 32-bit integer, whose negation is undefined in C++.
- Lcd.FrameBuffer.DrawCircle: asks for a circle inside the screen, because the source checks no bounds, and for a radius of at least 1 (`Lcd.CircleStopsIff` covers radius 0).
- LcdLine.DrawLine: asks for end points inside the screen and a length of at most 16384 (`LcdLine.LineExactIff` shows that longer ones go wrong).
- MemoryPool.FixedMemoryPool.Get: one call with a zero timeout, as two steps in a row; other interleavings of these steps are covered by the step machine.
- HttpResponse.WriteResponse: the output stream is unbuffered, as the listener sets it up; once the walk has run wild nothing is said about what follows.
- HttpRoundTrip.Serve: content types whose header line fits the 1024 bytes of `read_line`, over a base stream that takes a whole write or fails.
- ReadLine.ReadLine: for a line that does not fit the buffer, the result is the one when the memory behind the buffer is otherwise unused (`ReadLine.ReadLineInBoundsIff` says when that matters).
- RefString.Strings.AssignString: says nothing about the state after a fault, which is undefined in C++.
- EthTx.TxRing.Output: asks for frames that the whole ring can hold; `src/ethernetif.c` announces an MTU of 1500 at line 229, and a single buffer holds more than such a frame.
- EthRx.RxRing.Input: frames with at least their CRC that fit the ring, stored by the DMA with proper first- and last-segment bits; error bits of descriptors are not read by the driver and not modelled.
- Ethernet interrupts, PHY handling, cache maintenance, register setup, underflow and poll-demand registers.
- SD: block sizes other than 512, CSD and CID decoding, erase, status, and the polling limits of the SPI peripheral itself.
- QSPI and EEPROM: command and register setup, erase and busy polling; a failing command is modelled as having taken any prefix of its bytes.
- `FixedMemoryPool::get_isr`, thread pool, threads, timers, event flags, queues: thin wrappers of RTOS calls.
- Socket options, address conversion, sending, UDP; network errors are modelled only as the end of the data.
- Request bodies and the dispatch of the HTTP listener: parsing of the request line and of header lines is modelled, the rest of `get_context` only calls these.
- `Int32::parse`, `ConstStringRef::compare`, `index_of` of a substring, `StaticString`: easier relatives of what is modelled.
- Out-of-memory in String construction; reference counts do not wrap at 32 bits in the model; assigning a character pointer into the string's own buffer.
- Time zones, the kind field of DateTime, and the clock interrupt.
- LCD text, bitmaps, polygons, ellipses and filled shapes.
- Audio, camera, touch screen and the boards other than the STM32746G-Discovery.
