# Verification of the Modbus stack, its process images and its containers

A Dafny model of the parts of this repository that move process data: the embedded Modbus library (client and
server, over RTU and TCP), the code that maps its values to and from shared memory and the SPI bus, and the
containers of `estl.h` and `qpset.h`.  `dafny verify dfyconfig.toml` checks everything.

## How it is built

**Two layers.**  For the Modbus library, functions on values say what each step computes (`Protocol`,
`Receiver.Receive`, `ServerModel`, `ClientModel`, `Runs`); imperative methods over arrays, buffers and objects
follow the C code and are proved against those functions (`Receiver.ReceiveMsg`, `Server`, `Client`).  What the
protocol is for is proved about the functions, and holds of the methods through their contracts; `Session` puts
the two together for any sequence of calls.

| modules | what they model |
|---|---|
| `Bytes`, `Bits`, `BitPacking` | `uint8_t`, `uint16_t` and bit operations in integer arithmetic; bit tables packed into bytes |
| `Crc`, `CrcTables`, `CrcDetection`, `CrcDistance`, `Corruption` | the two-table CRC, the bit-by-bit register, which errors it detects, and what becomes of a corrupted frame |
| `Protocol`, `Receiver` | the two backends, message framing, and `receive_msg` on a stream that `recv` cuts at will |
| `WireFormat`, `WireAnswers`, `WireConfirmations` | requests, frames, answers and confirmations in literal bytes |
| `ServerModel`, `ServerInvariants`, `Server` | `modbus_reply` and the four tables |
| `ClientModel`, `Client` | request builders, `check_confirmation`, decoders |
| `EndToEnd`, `Runs`, `Transactions`, `Session` | client and server together, on four plain arrays as reference; late answers over TCP |
| `RtuBus`, `OutputPath`, `InputPath` | several servers on one RTU line; the KW driver between PLC bytes and the slaves 2 to 5 |
| `Consen`, `ConsenTasks`, `ConsenEffects`, `ConsenMaster` | unaligned bit splicing into shared memory, and the polling round around it, on values, in numbers and as it runs |
| `SpiLayout`, `SpiTransfer`, `SpiEffects`, `Spi` | the SPI channel manager: slot layout, scatter and gather, on values, in numbers and as it runs |
| `IntrusiveList`, `RingQueue`, `Pool`, `PrioritySet` | the containers |

**In numbers.**  Functions on values share named codes, limits and predicates with the methods.  The modules named
`Wire...` and `...Effects` say what these amount to in literal bytes, addresses and positions, without those names:
what each call sends, what each request is answered, what a task or a channel moves from where to where.

**The environment.**  `Receiver.Stream.Recv` hands over any nonempty part of what was asked for, or nothing once
the stream is empty; that is all that is known of the operating system.  `Client.Link.Turn` is what happens at the
far end between a client's `send_msg` and its `receive_msg`: the server serves one request if it is there, or, when
the link is not online, nothing happens and the client has to do with whatever bytes are on the stream.  Every
failure of `select` or `recv` is the one error `NoAnswer`.  `malloc` succeeds.  `errno` values are a datatype.

**Words used.**  A connection is *quiet* when nothing is under way, the server listens to the client's slave id,
and coils and discrete inputs are 0 or 1 (which `modbus_mapping_new` and every request keep so).  *Serves* and
*served*: the slave is on the line and its tables are large enough for the call.

## Where the code and its intention part

These are modelled as the code has them.  The lemmas and contracts named say exactly what happens and when; where that
depends on data, there is also an input at which it goes wrong.

* A read of zero values is answered by an exception whose length equals that of the computed normal response, so
  the client reports EMBBADDATA instead of the exception (`EndToEnd.CheckException`, `EndToEnd.ReadOfNothing`).
* The exception function code is stored into a byte: for requests of function 0x80 and above it wraps, and the
  response is misframed exactly when it wraps to the code of a longer confirmation
  (`ServerInvariants.ResponseFramedIff`, `ServerInvariants.WrappedFunctionIsMisframed`).
* FC 15 and FC 16 trust the quantity of the request, not its byte count, and store whatever follows the request in
  the buffer.  What they store is fixed by the request exactly if that data lies within the message
  (`ServerModel.DeterminedIff`, `ServerModel.RequestWithoutData`), and over RTU that may be its own checksum
  (`ServerModel.ChecksumIsStored`).  Every request the client builds brings its data
  (`EndToEnd.RequestDataIsPresent`).  The invariants of the server hold in either case.
* The server does not answer FC 7, and nothing else (`ServerModel.SilentIff`); it does answer broadcasts.
* `bsp_input_update` reads the discrete inputs of slave 3 into the slice of slave 4, and never fills the slice
  meant for slave 3 (`InputPath.KwInputs.BeginReadAll`, `InputPath.SecondByteWrong`).
* `eQueue::operator=` does not clear its target (`RingQueue.AssignedIff`, `RingQueue.AssignmentAppends`), and
  `pop_front` does not notice an empty queue (`RingQueue.Queue.PopFront`).
* `eList::clear` leaves the former elements linked (`IntrusiveList.EList.Clear`), and the list breaks when the first or
  the last of them is destroyed (`IntrusiveList.EList.UnchainFormer`, `IntrusiveList.DestroyedAfterClear`).  Inserting
  an element that is in a list already breaks that list (`IntrusiveList.InsertBefore`).
* `ePool::destroy` of a slot in which nothing was constructed relies on what its memory holds
  (`Pool.Pool.Destroy`), and `clear` leaves there what makes it go wrong (`Pool.DestroyAfterClear`).
* A failed read of the Consen master splices stale entries of its buffer into memory
  (`ConsenTasks.FailedReadHarmlessIff`, `ConsenTasks.FailedReadCorrupts`), but only into its own range
  (`ConsenTasks.TaskBits`).
* `init` of the SPI manager adds to the channels that are already there (`Spi.ModbusChannelManager.Init`), which for
  the same configuration does no harm (`SpiTransfer.TwiceIsOnce`).  It also marks 1023 modules as not found in an
  array of 256, and so overwrites 767 of the reserved bytes behind it (`Spi.ModbusChannelManager.MarkHealth`).

## Model

| member | source | states |
|---|---|---|
| `Session.ExecuteAll` | library/modbus/modbus.c:998-1390 | any sequence of the nine client calls, run by the client methods over a byte stream that `recv` may cut anywhere against the server methods on a mapping in memory, delivers the results and leaves the tables of the same calls made directly on four plain arrays |
| `Session.Execute` | library/modbus/modbus.c:998-1390 | one client call, whichever of the nine it is, has the effect and the result of the call on values |
| `Session.Connect` | library/modbus/modbus.c:1531-1606 | a new mapping, connection and client satisfy what the theorem about sessions asks for |
| `Runs.RunIsDirect` | library/modbus/modbus.c:643-964 | for every run of calls on a quiet connection, RTU or TCP: results and final tables equal those of direct operations, and the connection is quiet again |
| `Runs.CallIsDirect` | library/modbus/modbus.c:643-964 | one call: the result is that of the direct operation, the tables change as it says and nothing else of the connection but the transaction counter does |
| `Runs.ServerAnswers` | library/modbus/modbus.c:643-964 | a framed client request makes the server carry out the direct operation, consume exactly the request and send one framed response the client interprets as the result of that operation |
| `Runs.ClientReads` | library/modbus/modbus.c:480-595 | a framed response to the client's own request is consumed exactly and read as its PDU says |
| `Runs.ClientIsSound` | library/modbus/modbus.c:480-595 | whatever bytes arrive: a read that succeeds took a message within the maximal length with a good checksum and the right transaction id, of exactly `2 + ceil(nb / 8)` or `2 + 2 * nb` bytes, and delivers the values in those bytes |
| `Runs.DirectKeepsZeroOne` | library/modbus/modbus.c:643-964 | direct operations keep coils 0 or 1 and never change the input tables |
| `EndToEnd.ExchangeAgrees` | library/modbus/modbus.c:643-964 | request builder, server, confirmation checker and decoder together compute the direct operation, for every request, including both exceptions and the zero-length reads that end in EMBBADDATA |
| `EndToEnd.ReadBitsAgrees` | library/modbus/modbus.c:1043-1086 | reading coils or inputs through the protocol is reading the array, or its error |
| `EndToEnd.ReadRegistersAgrees` | library/modbus/modbus.c:1137-1173 | reading registers through the protocol is reading the array, or its error |
| `EndToEnd.WriteBitsAgrees` | library/modbus/modbus.c:1202-1270 | writing one or many coils is writing the 0/1 image of the values into the array, or its error |
| `EndToEnd.WriteRegistersAgrees` | library/modbus/modbus.c:1209-1316 | writing one or many registers is writing the array, or its error |
| `EndToEnd.WriteAndReadAgrees` | library/modbus/modbus.c:1320-1390 | write-and-read writes first and returns the values after the write, or an exception with nothing written |
| `EndToEnd.RequestIsComplete` | library/modbus/modbus.c:248-315 | every request a client function builds announces exactly its own length |
| `EndToEnd.RequestDataIsPresent` | library/modbus/modbus.c:835-882 | requests built by the client always bring the data that FC 15 and FC 16 store |
| `EndToEnd.ReadOfNothing` | library/modbus/modbus.c:569-592 | a read of no coils: the server answers exception 3, the client reports invalid data |
| `EndToEnd.CheckException` | library/modbus/modbus.c:569-580 | an exception response is reported as that exception, unless the computed response length equals that of an exception: then as invalid data |
| `WireFormat.CallSends` | library/modbus/modbus-tcp.c:99-134 | each call that is not refused sends one message: over TCP with the next transaction id modulo 65536, protocol 0, the number of bytes that follow and the unit id, over RTU with the slave id and a good checksum, and with the literal bytes of its request in between |
| `WireFormat.RequestBytes` | library/modbus/modbus.c:998-1390 | the bytes of all nine requests: codes 1, 2, 3, 4, 5, 6, 15, 16 and 23, address and quantity high byte first, the byte count, coils packed from the low bit up, registers high byte first |
| `WireFormat.TooManyIff` | library/modbus/modbus.h:70-82 | the limits are 2000, 1968, 125, 123 and 121 |
| `WireFormat.TcpFrameBytes` | library/modbus/modbus-tcp.c:165-174 | bytes 4 and 5 of a TCP frame are the number of bytes after them |
| `WireFormat.RtuFrameBytes` | library/modbus/modbus-rtu.c:164-171 | the register follows an RTU frame low byte first |
| `WireFormat.ReadTenRegisters` | library/modbus/modbus-rtu.c:141-171 | the frame `01 03 00 00 00 0A` ends in `C5 CD` |
| `WireFormat.GoodChecksumIff` | library/modbus/modbus-rtu.c:284-307 | the check accepts exactly the messages that end in their register, low byte first |
| `WireFormat.ShapeIff` | library/modbus/modbus.c:248-315 | how long a request or a confirmation is, function code by function code |
| `WireFormat.ReceivesIff` | library/modbus/modbus.c:331-459 | a message is received if and only if the stream begins with it, it has the length of its function, at most 256 or 260 bytes, and a good checksum |
| `WireFormat.CorruptIsTaken` | library/modbus/modbus.c:331-459 | with a bad checksum it is taken to its end all the same |
| `WireFormat.RefusedIff` | library/modbus/modbus.c:430-439 | a byte count above 247 for functions 15 and 16, 243 for function 23 and 251 in a confirmation is refused once it is read, and nothing else is |
| `WireFormat.OneByteRequest` | library/modbus/modbus.c:248-270 | requests of function 7, of function 17 and of every function there is not have one byte, and are received |
| `WireAnswers.ReplyInNumbers` | library/modbus/modbus.c:643-964 | `modbus_reply` for any request: over TCP whatever its unit id, over RTU for the own id and 0, the tables and the bytes sent are the literal ones of its function code, in a message with the header of the request; for every other id, and for function 7, nothing is stored or sent |
| `WireAnswers.ServeInNumbers` | library/modbus/modbus.c:661-964 | functions 1 to 4 read coils, inputs, registers and input registers, 5 and 15 write coils, 6, 16 and 23 registers, 17 answers the id; quantity, address and value errors give 3, 2 and 3, other functions 1 |
| `WireAnswers.TcpAnswersEveryUnit` | library/modbus/modbus-tcp.c:588-591 | over TCP no unit id is filtered |
| `WireAnswers.RtuAnswersOwnAndBroadcast` | library/modbus/modbus-rtu.c:849-862 | over RTU exactly the own id and 0 are heard |
| `WireConfirmations.ConfirmationInNumbers` | library/modbus/modbus.c:480-595 | what each call makes of any confirmation: the values in its bytes if function and length are right, exception codes below 12 if it is an exception of the function, EMBBADEXC for other codes, EMBBADDATA otherwise |
| `Receiver.ReceiveMsg` | library/modbus/modbus.c:331-459 | the receive loop ends, and its result, buffer contents and bytes consumed are a function of the byte stream alone, however `recv` cuts it |
| `Receiver.ReadPiece` | library/modbus/modbus.c:387-445 | one pass of the loop: either it gives up as the reference reader does, or the pair (steps left, bytes to read) goes down |
| `Receiver.NextStep` | library/modbus/modbus.c:419-443 | the step switch aims exactly at the length the PDU announces, and refuses what exceeds the maximal ADU |
| `Receiver.Stream.Recv` | library/modbus/modbus-tcp.c:185-187 | any part of what was asked for, at least one byte, or 0 when nothing more comes |
| `Receiver.TakenFitsAdu` | library/modbus/modbus.c:430-439 | for any bytes at all, no more is read than the maximal ADU of the backend |
| `Receiver.ReceivedIsComplete` | library/modbus/modbus.c:331-459 | a received message fits the buffers, frames a PDU of exactly the announced length and has a good checksum |
| `Receiver.FrameIsReceived` | library/modbus/modbus.c:331-459 | a frame is read back whole and what follows it on the stream is left alone |
| `Receiver.CutIsNotReceived` | library/modbus/modbus.c:331-459 | from a part of a message nothing is received, and the part is consumed |
| `Receiver.BackToBack` | library/modbus/modbus.c:331-459 | any number of well-formed messages sent back to back are split at the right boundaries |
| `Receiver.ReceiveIsLocal` | library/modbus/modbus.c:331-459 | the outcome depends on no byte past those consumed |
| `Receiver.LengthFromPrefix` | library/modbus/modbus.c:248-315 | the first bytes of a PDU determine its announced length |
| `Receiver.CheckMessage` | library/modbus/modbus-rtu.c:284-307 | the integrity check accepts exactly the messages whose last two bytes are the CRC of the rest; over TCP all |
| `Protocol.FinishIsFrame` | library/modbus/modbus-tcp.c:165-174 | filling in the MBAP length, or appending the CRC, turns the message built so far into the frame of its PDU |
| `Protocol.FrameParts` | library/modbus/modbus-tcp.c:99-174 | header, PDU, unit id, transaction id and checksum are all recovered from a frame |
| `Protocol.WordsOfWordBytes` | library/modbus/modbus.c:784-785 | registers stored high byte first are read back |
| `Crc.Crc16Loop` | library/modbus/modbus-rtu.c:141-155 | the loop over the two tables computes the bit-by-bit reflected CRC with polynomial 0xA001 and initial value 0xFFFF (sections 2.5.1.2 and 6.2.2 of MODBUS over Serial Line V1.02), low byte first |
| `Crc.TableEntry` | library/modbus/modbus-rtu.c:40-97 | all 512 table entries are the bytes of the register after eight steps |
| `Crc.TableStep` | library/modbus/modbus-rtu.c:147-152 | one pass of the loop is one byte of the reference register |
| `CrcDetection.SealedIsOk` | library/modbus/modbus-rtu.c:164-171 | what `send_msg_pre` builds passes `check_integrity` |
| `CrcDetection.IntegrityIffResidueZero` | library/modbus/modbus-rtu.c:284-307 | a frame passes the check if and only if the CRC register over the whole frame, CRC bytes included, is zero |
| `CrcDetection.FeedOfXor` | library/modbus/modbus-rtu.c:141-155 | the register is XOR-linear in its start value and in messages of any length |
| `CrcDetection.CorruptedPassesIff` | library/modbus/modbus-rtu.c:284-307 | a corrupted frame passes if and only if the error pattern alone has a zero register |
| `CrcDetection.ParityOfFeed` | library/modbus/modbus-rtu.c:141-155 | the register keeps the parity of all bits fed |
| `CrcDetection.BurstDetected` | library/modbus/modbus-rtu.c:284-307 | any corruption within sixteen consecutive bits is rejected, in frames of any length |
| `CrcDetection.AdjacentBytesDetected` | library/modbus/modbus-rtu.c:284-307 | any corruption within two adjacent bytes is rejected, the CRC bytes included |
| `CrcDistance.OddFlipsDetected` | library/modbus/modbus-rtu.c:284-307 | any odd number of flipped bits is rejected, in frames of any length |
| `CrcDistance.ThreeFlipsDetected` | library/modbus/modbus-rtu.c:284-307 | any one, two or three flipped bits are rejected in every frame of up to 256 bytes |
| `Corruption.CorruptedRequestIgnored` | library/modbus/modbus.c:331-459 | a client request with one to three flipped bits, or a burst of sixteen, whose function code and byte count arrive: the server consumes exactly the frame, changes no table and sends nothing |
| `Corruption.CorruptedAnswerFails` | library/modbus/modbus.c:331-459 | an answer corrupted in this way makes the call fail with EMBBADCRC |
| `Corruption.ReadToTheEnd` | library/modbus/modbus.c:331-459 | such a frame is consumed exactly, so the next message is read from its start |
| `Corruption.CorruptedIsExposed` | library/modbus/modbus-rtu.c:284-307 | up to three flips, or a burst of sixteen bits, do not pass the check |
| `CrcDistance.NeverReturns` | library/modbus/modbus-rtu.c:40-97 | the register started at 1 and fed zeros does not come back to 1 within the bits of a frame |
| `CrcDistance.TwoBits` | library/modbus/modbus-rtu.c:141-155 | two set bits at least a byte apart leave a register that is not zero |
| `CrcDistance.FlipsParity` | library/modbus/modbus-rtu.c:141-155 | the parity the register sees is that of the number of differing bit positions |
| `Server.ModbusReply` | library/modbus/modbus.c:643-964 | the response sent and the tables afterwards are those of the server function on values, for every complete request in a buffer that holds what the request makes the server read, filtered ones included |
| `Server.BuildReply` | library/modbus/modbus.c:659-961 | the switch: each function code updates its table in place and prepares the response of the server function |
| `Server.ServeOne` | library/modbus/modbus.c:462-465 | receive and reply: one message is taken from the stream and answered, or nothing changes |
| `Server.SendMsgPre` | library/modbus/modbus-rtu.c:164-171 | the buffer then holds the finished frame |
| `Server.ResponseException` | library/modbus/modbus.c:623-635 | an exception response is slave, function plus 0x80 (modulo 256) and code |
| `Server.ReplyReadBits` | library/modbus/modbus.c:664-723 | FC 1 and 2, with both exceptions |
| `Server.ReplyReadRegisters` | library/modbus/modbus.c:724-789 | FC 3 and 4, with both exceptions |
| `Server.ReplyWriteBit` | library/modbus/modbus.c:790-817 | FC 5: only 0xFF00 and 0 are accepted, and the request is echoed |
| `Server.ReplyWriteRegister` | library/modbus/modbus.c:818-834 | FC 6: the register is stored and the request echoed |
| `Server.ReplyWriteBits` | library/modbus/modbus.c:835-856 | FC 15: the coils are unpacked into the table from the buffer behind the byte count, and the first five PDU bytes sent back |
| `Server.ReplyWriteRegisters` | library/modbus/modbus.c:857-882 | FC 16, likewise |
| `Server.ReplyWriteAndRead` | library/modbus/modbus.c:908-953 | FC 0x17: all checks, then the write, then the read |
| `Server.ReplySlaveId` | library/modbus/modbus.c:883-899 | FC 0x11: slave id, run indicator and version text with their byte count |
| `Server.Mapping.New` | library/modbus/modbus.c:1531-1606 | four tables of the sizes asked for, all zero |
| `ServerModel.SilentIff` | library/modbus/modbus.c:900-906 | exactly FC 7 goes unanswered |
| `ServerModel.DeterminedIff` | library/modbus/modbus.c:835-882 | for any complete request, over either backend: the tables after it are the same for every buffer that begins with it if and only if it is filtered or the data that its quantity announces lies within the message, of which over RTU the checksum is a part |
| `ServerModel.StaleIsStored` | library/modbus/modbus.c:835-882 | a request whose data is not all among the bytes known to follow its PDU stores what comes behind them: zeros and ones there give different tables |
| `ServerModel.RequestWithoutData` | library/modbus/modbus.c:857-882 | `[0x10, 0, 0, 0, 2, 0]` is such a request, over either backend |
| `ServerModel.ChecksumIsStored` | library/modbus/modbus.c:857-882 | `[0x10, 0, 0, 0, 1, 0]` is one over TCP only: over RTU the register gets the checksum of the request, whatever follows |
| `ServerModel.AfterIgnored` | library/modbus/modbus.c:835-882 | when the data to store is among the bytes known to follow the PDU, what comes behind them does not matter |
| `ServerModel.ReplyIgnoresRest` | library/modbus/modbus.c:643-964 | for a request that brings its data, neither the tables nor the bytes sent depend on what follows it |
| `ServerModel.ServeAnswers` | library/modbus/modbus.c:643-964 | every answer fits the response buffer, and single writes echo the request |
| `ServerModel.ReplyIsFramed` | library/modbus/modbus.c:643-964 | every answer to a framed request goes out as a frame with the request's transaction id and unit id |
| `ServerInvariants.TablesStayValid` | library/modbus/modbus.c:643-964 | from `modbus_mapping_new`, after any sequence of requests: sizes kept, coils and discrete inputs 0 or 1, input tables unchanged |
| `ServerInvariants.ServeAllKeeps` | library/modbus/modbus.c:643-964 | the same from any tables |
| `ServerInvariants.ServeKeeps` | library/modbus/modbus.c:643-964 | one request keeps sizes, inputs and 0/1 coils |
| `ServerInvariants.ExceptionChangesNothing` | library/modbus/modbus.c:643-964 | a request answered by an exception, or by nothing, leaves all tables as they were |
| `ServerInvariants.RegistersWritten` | library/modbus/modbus.c:818-953 | a register has changed exactly if it lies in the range written, and then holds the value sent |
| `ServerInvariants.CoilsWritten` | library/modbus/modbus.c:790-856 | a coil has changed exactly if it lies in the range written, and then holds the bit sent |
| `ServerInvariants.WriteAndReadAnswersAfterWrite` | library/modbus/modbus.c:908-953 | FC 0x17 answers with the registers as they are after its own write (section 6.17 of the MODBUS Application Protocol V1.1b) |
| `ServerInvariants.ResponseFramedIff` | library/modbus/modbus.c:623-635 | for every complete request that is not filtered and not of function 7, with anything behind it in the buffer: from the bytes that `modbus_reply` sends and anything that comes behind them, the client's receiver takes exactly those sent if and only if the function code is below 0x80 or does not wrap to that of a longer confirmation |
| `ServerInvariants.ReplyParts` | library/modbus/modbus.c:643-964 | every message sent fits the wire, carries the response PDU and has a good checksum, the echoes of single writes included |
| `ServerInvariants.WrappedFunctionIsMisframed` | library/modbus/modbus.c:623-635 | a message of function 0x81 is answered with a message that the client's receiver never completes by itself, and reads past by one byte when more comes |
| `Client.Client.SendRequest` | library/modbus/modbus.c:162-203 | the frame goes out, and the server's turn follows |
| `Client.Client.TcpBuildRequestBasis` | library/modbus/modbus-tcp.c:99-134 | the transaction counter advances modulo 65536 and the MBAP header carries it |
| `Client.Client.RtuBuildRequestBasis` | library/modbus/modbus-rtu.c:115-128 | slave, function, address and quantity |
| `Client.Client.ComputeResponseLength` | library/modbus/modbus.c:128-159 | the length of the normal response to a request |
| `Client.Client.CheckReceived` | library/modbus/modbus.c:480-595 | the confirmation checker on the two buffers is the check on PDUs, transaction ids and lengths included |
| `Client.Client.CheckValues` | library/modbus/modbus.c:500-568 | function codes and numbers of values are compared as the check on PDUs says |
| `Client.Client.Transact` | library/modbus/modbus.c:1007-1020 | send, receive and check: on success the response in the buffer is a complete, accepted message |
| `Client.Client.ReadIoStatus` | library/modbus/modbus.c:998-1039 | coils or inputs: on success exactly `dest[0..nb)` is written, on failure nothing |
| `Client.Client.ModbusReadBits` | library/modbus/modbus.c:1043-1086 | the same with the limit on `nb` |
| `Client.Client.ModbusReadRegisters` | library/modbus/modbus.c:1090-1173 | registers: on success exactly `dest[0..nb)` is written, on failure nothing |
| `Client.Client.WriteSingle` | library/modbus/modbus.c:1178-1199 | one coil or register |
| `Client.Client.ModbusWriteBits` | library/modbus/modbus.c:1215-1270 | packs and writes many coils |
| `Client.Client.ModbusWriteRegisters` | library/modbus/modbus.c:1274-1316 | writes many registers |
| `Client.Client.ModbusWriteAndReadRegisters` | library/modbus/modbus.c:1320-1390 | both limits, then the exchange, then exactly `dest[0..read_nb)` is written |
| `ClientModel.AcceptedRead` | library/modbus/modbus.c:520-568 | a confirmation accepted for a read announces and has exactly the bytes of that read; one accepted for a write repeats its quantity |
| `Transactions.LateAnswers` | library/modbus/modbus-tcp.c:194-208 | in every run, with the bytes of any answers arriving before any call, cut anywhere: a call that finds nothing, or only a part of an answer, times out, and an answer that arrives later waits for later calls; call `k` reads the first message on the stream as its answer if and only if that was built for a request whose number is congruent to `k` modulo 65536, and refuses it as invalid data otherwise; all that up to the first call that had to make do with a part |
| `Transactions.NextCall` | library/modbus/modbus.c:331-459 | one such call, and the bytes it leaves on the stream |
| `Transactions.ProgressShifts` | library/modbus/modbus.c:331-459 | how many messages have been taken, and how many bytes are there, when a later call reads: what the calls before it have left, and what has arrived since |
| `Transactions.TidsAgreeIff` | library/modbus/modbus-tcp.c:99-134 | two requests carry the same id if and only if their numbers are congruent modulo 65536 |
| `Transactions.RecentTidsDiffer` | library/modbus/modbus-tcp.c:99-134 | none of the previous 65535 requests shares an id with the current one |
| `Transactions.CounterIsModular` | library/modbus/modbus-tcp.c:99-134 | the static counter counts modulo 65536 |
| `BitPacking.ResponseIoStatus` | library/modbus/modbus.c:597-620 | exactly `ceil(nb / 8)` bytes are written, nothing else in the buffer changes |
| `BitPacking.IoStatusPacks` | library/modbus/modbus.c:597-620 | on tables of zeros and ones the or-ing loop packs low bit first with zero padding |
| `BitPacking.IoStatusRoundTrip` | library/modbus/modbus.c:1024-1035 | the server's packing followed by the client's unpacking is the identity on 0/1 vectors |
| `BitPacking.UnpackOfPack` | library/modbus/modbus.c:1238-1256 | the client's packing followed by unpacking gives the 0/1 image of the values |
| `BitPacking.PackOfUnpack` | library/modbus/modbus.c:1238-1256 | packing undoes unpacking when the padding bits are zero |
| `BitPacking.PackBit` | library/modbus/modbus.c:1238-1256 | bit `j` of byte `i` is entry `8 * i + j`; padding bits are zero |
| `BitPacking.PackInto` | library/modbus/modbus.c:1238-1256 | the packing loop of the client |
| `BitPacking.UnpackInto` | library/modbus/modbus.c:1024-1035 | the unpacking loop of the client writes exactly `nb` entries |
| `BitPacking.SetBitsFromBytes` | library/modbus/modbus-data.c:41-53 | exactly the entries from `index` on are set, from the bits of the bytes |
| `BitPacking.SetBitsFromByte` | library/modbus/modbus-data.c:30-37 | the eight entries from `index` on are the bits of the byte, the others unchanged |
| `BitPacking.GetByteFromBits` | library/modbus/modbus-data.c:57-74 | at most eight entries are or-ed together, entry `i` shifted by `i` |
| `BitPacking.ByteOfItsBits` | library/modbus/modbus-data.c:30-74 | setting bits from a byte and getting the byte back is the identity |
| `OutputPath.OutputCycle` | kw/src/CONSEN_IO.cpp:264-271 | after any `WriteByte` calls and `EndWriteAll`: the first eight coils of each of the slaves 2 to 5 that serves show the last byte written for it, and no other slave changes; it succeeds exactly if all four serve |
| `OutputPath.KwIoDriver.EndWriteAll` | kw/src/CONSEN_IO.cpp:310-317 | coil `j` of slave `2 + k` becomes bit `j` of shared-memory byte `3072 + k`; every other coil, table and slave is unchanged |
| `OutputPath.KwIoDriver.BspOutputUpdate` | kw/src/driver.c:113-161 | one slice of the output buffer to each of the four slaves |
| `OutputPath.KwIoDriver.WriteByte` | kw/src/CONSEN_IO.cpp:264-271 | offsets from 512 on are ignored, negative ones reach what lies before the output area |
| `OutputPath.ModulesShow` | kw/src/driver.c:113-161 | the four writes do not disturb each other |
| `OutputPath.LastValueWins` | kw/src/CONSEN_IO.cpp:264-271 | of several writes to one offset the last one counts |
| `InputPath.KwInputs.BeginReadAll` | kw/src/CONSEN_IO.cpp:95-110 | input word `8 * k + i` is input register `i` of slave `2 + k` for each slave that serves, low byte first from byte 512 on; input bytes 0, 2 and 3 are the discrete inputs of slaves 2, 4 and 5; byte 1, meant for slave 3, is always 0 and shows its inputs if and only if all eight are zero; for slaves that do not serve, words and bytes are those of the buffers as they were; nothing else changes |
| `InputPath.KwInputs.BspInputUpdate` | kw/src/driver.c:37-111 | which slave fills which slice of the two buffers, and what a failed read leaves |
| `InputPath.SecondByteWrong` | kw/src/driver.c:63-87 | with one input of slave 3 set, and that slave alone on the line, byte 1 does not show it |
| `RtuBus.BusCallIsDirect` | library/modbus/modbus-rtu.c:849-862 | on a line with several servers a call to one of them is the direct operation on that one and changes no other; an absent server is a call without an answer |
| `RtuBus.BroadcastIsDirect` | library/modbus/modbus-rtu.c:849-862 | a call to id 0 is the direct operation on every server of the line; the result is that of the direct operation if there is one server, no answer if there is none |
| `RtuBus.OthersIgnore` | library/modbus/modbus-rtu.c:849-862 | a server that is not addressed changes nothing and keeps silent |
| `Consen.AssembleIoStatus` | system/src/Consen.cpp:29-58 | for every bit address and `nb`: bits `[address, address + nb)` become `tab != 0` and every other bit of the region is preserved, the trailing byte included |
| `ConsenMaster.ConsenCom.Poll` | system/src/Consen.cpp:280-318 | servers, shared memory and the static buffer after a round are those of the round on values, for any list of tasks with any slave ids, those that `modbus_set_slave` refuses included |
| `ConsenMaster.ConsenCom.PollTask` | system/src/Consen.cpp:282-317 | one task, whatever its command and slave id; writes to id 0 reach every server |
| `ConsenMaster.ConsenCom.ReadInputBitsTask` | system/src/Consen.cpp:285-296 | the buffer is spliced into memory whether or not the read succeeded |
| `ConsenTasks.TaskBits` | system/src/Consen.cpp:282-317 | every bit of memory after a task: bits it does not own as before, own bits the inputs of its server, or, when the read of bits failed, the stale entries of the buffer |
| `ConsenTasks.FailedReadHarmlessIff` | system/src/Consen.cpp:285-296 | a failed read leaves memory as it was if and only if each stale entry agrees with the bit it overwrites |
| `ConsenTasks.FailedReadCorrupts` | system/src/Consen.cpp:285-296 | from a buffer of zeros: an input of one server that is set, then an input of an absent server, to whose bit the first one is copied |
| `ConsenTasks.LastAcceptedId` | library/modbus/modbus-rtu.c:101-114 | a task with a slave id above 247 goes to the slave of the last task before it whose id was accepted |
| `ConsenEffects.WriteRequestInNumbers` | system/src/Consen.cpp:303-313 | commands 15 and 16 write the bytes of memory as coils, and its words, low byte first, as registers |
| `ConsenEffects.InputBitsTask` | system/src/Consen.cpp:285-296 | command 2: every bit of memory and every entry of the buffer after it |
| `ConsenEffects.InputRegistersTask` | system/src/Consen.cpp:297-302 | command 4: every byte of memory after it, the words low byte first from byte 256 on |
| `ConsenEffects.RegisterAfterTask` | system/src/Consen.cpp:309-313 | every register of every server after a task |
| `ConsenEffects.CoilAfterTask` | system/src/Consen.cpp:303-308 | every coil of every server after a task |
| `ConsenEffects.TaskLeavesAlone` | system/src/Consen.cpp:282-317 | writes leave memory alone, reads the servers, other commands both |
| `ConsenEffects.RoundHoldsRegister` | system/src/Consen.cpp:280-318 | after a round a register that a task wrote, and no later one, holds the word that memory held when the task came |
| `ConsenEffects.RoundHoldsCoil` | system/src/Consen.cpp:280-318 | a coil likewise shows whether the byte of memory was zero |
| `ConsenTasks.RoundShows` | system/src/Consen.cpp:280-318 | after a round, every bit owned by a served task and by no later one shows the input of its server |
| `ConsenTasks.RoundShowsWord` | system/src/Consen.cpp:297-302 | the same for whole words of memory and input registers |
| `ConsenTasks.RoundKeepsFreeBits` | system/src/Consen.cpp:280-318 | bits no task owns are as before the round |
| `ConsenTasks.RoundIsDirect` | system/src/Consen.cpp:303-313 | the tables of every server after a round are those of a direct run of the requests made to it, each with the values in memory at its time |
| `ConsenTasks.TaskKeeps` | system/src/Consen.cpp:282-317 | no task changes the inputs of a server |
| `Consen.BitOfSpliced` | system/src/Consen.cpp:29-58 | splicing the table of bits is splicing bit by bit |
| `SpiLayout.LayoutIsSound` | system/src/ModbusChannelManager.cpp:86-170 | for every configuration whose slots from the 33rd on are empty: SPI ranges disjoint and in the buffer, shared-memory ranges of a kind disjoint and in their area, distinct status bytes, and the transfer fits 2048 bytes |
| `SpiLayout.ChannelsTile` | system/src/ModbusChannelManager.cpp:100-170 | a byte is in a channel if and only if it lies in `[32, 32 + spi_counter)` |
| `SpiLayout.CoveredOnce` | system/src/ModbusChannelManager.cpp:100-170 | no byte is in two channels |
| `SpiLayout.AnalogueOutputsFill` | system/src/ModbusChannelManager.cpp:148-160 | thirty-two analogue output modules fill their 256 words exactly |
| `Spi.ModbusChannelManager.Init` | system/src/ModbusChannelManager.cpp:86-174 | the channels appended, the module table, the header bytes, the health flags and the transfer length are those of the configuration; channels of earlier calls stay |
| `Spi.ModbusChannelManager.Reconfig` | system/src/ModbusChannelManager.cpp:430-435 | whatever was there before, the channels and the transfer length are then those of the configuration, laid out |
| `Spi.ModbusChannelManager.WriteAll` | system/src/ModbusChannelManager.cpp:364-369 | for any channels inside the buffer and the areas, laid out or not: each output channel whose module is well is copied or byte-swapped into the TX buffer, in order |
| `SpiEffects.ConfiguredCycle` | system/src/ModbusChannelManager.cpp:86-174 | from any state, after `reconfig`, `writeAll` and `readAll`: each slot before the end mark whose module reports 3 has its three bytes, or its eight or sixteen words high byte first, moved between its place on the wire and its place in memory, both given by counting the modules before it; the transfer ends four bytes behind the last |
| `SpiEffects.SlotOnWire` | system/src/ModbusChannelManager.cpp:347-369 | slots of type 2 and 4 on the wire |
| `SpiEffects.SlotInMemory` | system/src/ModbusChannelManager.cpp:306-345 | slots of type 1 and 3 in memory |
| `SpiEffects.OutputsAreSent` | system/src/ModbusChannelManager.cpp:347-362 | laid-out channels of kind 0x34 and 0x32 with status 3 are sent, from the analogue and the digital outputs |
| `SpiEffects.OthersAreKept` | system/src/ModbusChannelManager.cpp:347-369 | no other byte of the TX buffer changes |
| `SpiEffects.InputsAreReceived` | system/src/ModbusChannelManager.cpp:306-323 | laid-out channels of kind 0x31 and 0x33 with status 3 fill their areas |
| `SpiEffects.ChannelOfSlot` | system/src/ModbusChannelManager.cpp:100-170 | each slot of type 1 to 4 has its channel, with kind, sizes and places by counting |
| `SpiEffects.CountersInNumbers` | system/src/ModbusChannelManager.cpp:100-170 | the counters of `init` count the modules of each type |
| `SpiEffects.ConfInNumbers` | system/src/ModbusChannelManager.cpp:100-168 | what `module_conf` holds for each slot |
| `SpiTransfer.AllSent` | system/src/ModbusChannelManager.cpp:347-369 | laid-out channels: each output channel whose module is well has its source in the TX buffer, analogue words byte-swapped |
| `SpiTransfer.UnownedKept` | system/src/ModbusChannelManager.cpp:347-369 | every byte of the TX buffer outside those channels is unchanged |
| `SpiTransfer.AllReceived` | system/src/ModbusChannelManager.cpp:306-345 | laid-out channels: the area of each input channel whose module is well holds its RX bytes, analogue words byte-swapped |
| `SpiTransfer.UnfedKept` | system/src/ModbusChannelManager.cpp:306-345 | every other byte of the input areas is unchanged |
| `SpiTransfer.TwiceIsOnce` | system/src/ModbusChannelManager.cpp:364-369 | channels added once more by a second `init` change nothing of what is sent |
| `SpiTransfer.SentWords` | system/src/ModbusChannelManager.cpp:54-58 | output words go out high byte first with their values kept |
| `SpiTransfer.ReceivedWords` | system/src/ModbusChannelManager.cpp:54-58 | input words come in high byte first with their values kept |
| `SpiTransfer.Loopback` | system/src/ModbusChannelManager.cpp:54-58 | swapped out and swapped in is the identity |
| `Spi.ModbusChannelManager.ReadAll` | system/src/ModbusChannelManager.cpp:338-345 | the reverse for input channels, likewise for any channels |
| `Spi.ModbusChannelManager.Write` | system/src/ModbusChannelManager.cpp:347-362 | one channel |
| `Spi.ModbusChannelManager.Read` | system/src/ModbusChannelManager.cpp:306-323 | one channel |
| `IntrusiveList.Node.Unchain` | kw/include/estl.h:388-393 | the node is alone afterwards, and the two neighbours it names are linked to each other; in a ring the others are still one ring in both directions, a node that is alone stays so, and no other node is touched |
| `IntrusiveList.InsertBefore` | kw/include/estl.h:472-481 | a node from outside enters the ring before the position; every ring of two or more that has the node already, this one or another, is broken |
| `IntrusiveList.RingIsNotBroken` | kw/include/estl.h:432-441 | in a ring every node is the predecessor of its successor, which a broken one is not |
| `IntrusiveList.EList.Unchain` | kw/include/estl.h:377-393 | an element taken out by itself, by its own destructor for instance, leaves the list in order |
| `IntrusiveList.Follow` | kw/include/estl.h:432-436 | `next` taken `n` times is node `n`, and after one round the start |
| `IntrusiveList.RingWithout` | kw/include/estl.h:388-393 | links that skip one node make a ring of the others |
| `IntrusiveList.RingWith` | kw/include/estl.h:472-481 | links that lead through a new node make a ring with it |
| `IntrusiveList.AloneIsRing` | kw/include/estl.h:382-386 | a node is self-linked if and only if it is a ring by itself |
| `IntrusiveList.EList.InsertFront` | kw/include/estl.h:518-522 | the sequence of the list gains the element at the position, unless it has it already: then `next` and `prev` are no longer inverse |
| `IntrusiveList.EList.PushFront` | kw/include/estl.h:524-527 | the element comes first, with the same exception |
| `IntrusiveList.EList.PushBack` | kw/include/estl.h:529-532 | the element comes last, with the same exception |
| `IntrusiveList.EList.Erase` | kw/include/estl.h:535-541 | the element leaves the sequence, is self-linked, and the iterator returned is the next one; erasing the end leaves an empty list, and its elements as a ring of their own |
| `IntrusiveList.EList.PopFront` | kw/include/estl.h:542-545 | the first element leaves; nothing happens to an empty list |
| `IntrusiveList.EList.PopBack` | kw/include/estl.h:546-551 | the last element leaves; nothing happens to an empty list |
| `IntrusiveList.EList.Empty` | kw/include/estl.h:552-556 | true exactly if the sequence is empty |
| `IntrusiveList.EList.Size` | kw/include/estl.h:558-563 | the walk ends and counts the sequence |
| `IntrusiveList.EList.Destroy` | kw/include/estl.h:497-501 | the destructor loop ends with every node self-linked |
| `IntrusiveList.EList.Clear` | kw/include/estl.h:503-506 | the list is empty, but its former nodes keep all their links, those to the anchor included |
| `IntrusiveList.EList.UnchainFormer` | kw/include/estl.h:382-393 | a former node that takes itself out after `clear` leaves the list in order if and only if it was neither first nor last, or the only one and the list is empty |
| `IntrusiveList.DestroyedAfterClear` | kw/include/estl.h:503-506 | two elements, `clear`, and the destructor of the first: the list is not in order |
| `RingQueue.Queue.PushBack` | kw/include/estl.h:170-179 | bounded FIFO: appended, or refused exactly if full |
| `RingQueue.Queue.PopFront` | kw/include/estl.h:182-187 | the first element leaves; an empty queue ends with a count of -1 |
| `RingQueue.Queue.Copy` | kw/include/estl.h:213-217 | the copy loop visits each element once, in order, even when wrapped, and ends also when a queue is copied onto itself |
| `RingQueue.Queue.Assign` | kw/include/estl.h:155-155 | assignment appends to what the target holds, up to its capacity; assigned to itself a queue is unchanged if and only if it is empty or full |
| `RingQueue.Queue.CopyOf` | kw/include/estl.h:154-154 | the copy constructor yields equal contents |
| `RingQueue.AssignmentAppends` | kw/include/estl.h:155-155 | a queue of two that holds 1 and is assigned a queue that holds 2 ends with both |
| `RingQueue.AssignedIff` | kw/include/estl.h:155-155 | assignment yields the contents assigned if and only if the target was empty, or a full queue that starts with and repeats the target's contents is assigned |
| `Pool.Pool.Alloc` | kw/include/estl.h:242-250 | null exactly if all slots are live; otherwise a slot no live object has, the last one pushed; no other link changes |
| `Pool.Pool.Destroy` | kw/include/estl.h:252-263 | the slot is free again; destroying a destroyed object changes nothing; the pool stays in order if and only if the slot was live, did not hold its own address, or all slots were free |
| `Pool.DestroyAfterClear` | kw/include/estl.h:235-263 | a pool of two, filled, cleared and used again: destroying the slot not handed out again leaves it twice on the stack |
| `Pool.Pool.Partition` | kw/include/estl.h:242-292 | live and free slots partition the vector, without duplicates on the stack |
| `Pool.Pool.Init` | kw/include/estl.h:284-292 | every slot is free |
| `PrioritySet.QPSet64.Insert` | library/qpcpp/include/qpset.h:210-214 | the set gains the element, and the summary byte still tells which bytes are not zero |
| `PrioritySet.QPSet64.Remove` | library/qpcpp/include/qpset.h:217-224 | the set loses the element, likewise |
| `PrioritySet.QPSet64.HasElement` | library/qpcpp/include/qpset.h:203-207 | membership |
| `PrioritySet.QPSet64.IsEmpty` | library/qpcpp/include/qpset.h:191-193 | true exactly if the set is empty |
| `PrioritySet.QPSet64.FindMax` | library/qpcpp/include/qpset.h:228-240 | the maximum of the set, or 0 exactly if it is empty |
| `PrioritySet.HighestElement` | library/qpcpp/include/qpset.h:228-240 | the highest bit of the highest byte that is not zero is the maximum |
| `PrioritySet.Log2IsHighest` | library/qpcpp/include/qpset.h:64-70 | the look-up is the number of the highest bit |
| `PrioritySet.QPSet8.FindMax` | library/qpcpp/include/qpset.h:140-142 | the maximum of the 8-element set, or 0 exactly if it is empty |
| `PrioritySet.QPSet8.Insert` | library/qpcpp/include/qpset.h:129-131 | the set gains the element |
| `PrioritySet.QPSet8.Remove` | library/qpcpp/include/qpset.h:134-136 | the set loses the element |

## Left out

- Serial ports, sockets, SPI ioctls, GPIO, timeouts, flushing, debug output, threads: replaced by the byte stream described above, or absent.
- Link and protocol error recovery: `send_msg` is one successful write, and `receive_msg` gives up at the first error; the retry loop has no termination argument.
- `modbus_report_slave_id` as a client call, raw requests, `modbus_reply_exception`, float helpers, `strlcpy`: they add no harder property.
- Negative `nb` and addresses over 16 bits: client arguments are naturals and words; C would truncate them silently.
- Server.ModbusReply: asks that what FC 15 and FC 16 read lies inside the request buffer; past its end the C code reads memory that is not part of this model.
- Server.Mapping.New: the memory-allocation failures of `modbus_mapping_new` are not modelled.
- RtuBus.BusCallIsDirect: broadcasts are `RtuBus.BroadcastIsDirect`, where the answers of several servers collide and the client may receive any bytes; the servers hear requests only, while on a real line they also receive the responses of the others, which `receive_msg` would take for requests.
- Transactions.LateAnswers: says nothing of the calls after one that a timeout left with a part of an answer, since they read its remainder as a message; the run on bytes, `Transactions.ClientRun`, goes on.
- Corruption.CorruptedRequestIgnored: the bytes that tell the length of the message must arrive, because the receiver would otherwise wait for, or stop at, another length.
- OutputPath.KwIoDriver.EndWriteAll: the servers on the line are values in a map rather than objects, so their tables are not updated in place there.
- ConsenMaster.ConsenCom.Poll: no task reads from the broadcast id 0, because what would reach the buffer is the collision of several answers; the two ports have a thread each and share one buffer, and it is an assumption that their rounds do not overlap; no ranges reach past the end of the memory.
- Consen.AssembleIoStatus: the byte after the last bit must be in memory, because the code reads and rewrites it.
- Spi.ModbusChannelManager.Init: modules sit in the first 32 slots, because `module_conf` has no room for more; the manager keeps one shared memory for its lifetime; the CRC32 of the transfer and the handshake strings are library code that is not part of this model.
- BitPacking.GetByteFromBits: assertions are compiled out, so more than eight bits are clipped to eight.
- IntrusiveList.EList.InsertFront: the anchor itself is not inserted.
- RingQueue.Queue.Copy: two queues do not share one vector.
- Pool.Pool.Destroy: the pointer must be to a slot of the pool; the objects themselves are not modelled.
- The look-up tables of `qpset.h` are declared there and defined elsewhere; `PrioritySet` takes what the header documents them to hold.
- The KW functions that read or write 32-bit and floating-point values, and the analogue outputs, add only easy members.
- D-Bus, HTTP, the shell, the eCLR headers and the rest of QP are not part of this model.
