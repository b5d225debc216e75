# Models of the Nexus trace decoder and SWT server

The repository decodes RISC-V Nexus trace. This project models its hard parts in Dafny and proves what they are
for. Code that works step by step is modelled by classes and loops, each proved against a specification function;
the results are about those functions.

| file | models |
|---|---|
| `Bits.dfy` | numbers as bit sequences |
| `NexusWire.dfy` | the byte stream, without a decoder: slices, fields, messages, and the grammar of a data acquisition message |
| `BitBuffer.dfy`, `PushDecoder.dfy` | the bit buffer, `NexusSliceUnwrapper`, `NexusMessageReassembler`, `NexusStream` |
| `MessageBuilder.dfy`, `CodecRoundTrip.dfy` | `SwtMessageStreamBuilder`, and that `NexusStream` recovers what it writes |
| `FieldReader.dfy`, `PullDecoder.dfy` | a bit-at-a-time reference reader, and `SliceFileParser`: ring buffer, resumable framer, field readers, message parsers |
| `Framing.dfy`, `WideFields.dfy`, `DecodeLoop.dfy` | what the framer and the field readers do with whole streams |
| `MessageGrammar.dfy`, `MessageRoundTrip.dfy` | which messages the pull decoder's parsers accept, said without a parser; every kind of message written field by field, and read back |
| `DecoderAgreement.dfy`, `FrameAgreement.dfy`, `StreamAgreement.dfy` | how the two decoders compare, on builder messages and on arbitrary bytes |
| `ItcPrint.dfy` | `itc_puts` on the target, and the server's printing |
| `Handshake.dfy`, `SerialRelay.dfy` | the server's three threads; the serial drain loop and the clients' queues |
| `Disassembler.dfy`, `Simulator.dfy`, `InstructionReports.dfy`, `Vcd.dfy` | the control transfer decoders, and the replays of a simulator's log and of a program counter dump |
| `ControlTransfers.dfy` | what is reported for each control transfer, by its encoding |
| `BranchCounts.dfy`, `TraceCounts.dfy` | `Count`: instruction counts and pending branch outcomes; and what the bytes of a trace message bring |
| `SanePath.dfy`, `PerfCounter.dfy` | file name clean-up; the torn-read-free counter read |

`dafny verify dfyconfig.toml` checks the whole project.

## How it is modelled

- Bytes are numbers below 256, instruction words and history words are bit sequences, and 32- and 64-bit wrap-around
  and truncation are written out.
- The decoders' specifications are functions of the bytes seen so far: `NexusWire.Delivered` (push) and
  `PullDecoder.Events` (pull). The classes carry ghost histories, and their methods are proved against those functions.
- A handshake step is one critical section, from taking the mutex to releasing it or waiting; waiting threads form an
  explicit wait set, a broadcast empties it, and spurious wakeups are steps of their own.
- The target is little-endian, and the trace hardware, which turns a stimulus register write into a message whose tag
  gives its byte lanes, is modelled by the encoder.
- Sockets, the serial device, `select()`, the disassembler and the ELF file are parameters: they return any bytes, any
  readiness, or any answer. Bytes may arrive at a socket at any time; receiving hands over what has arrived,
  or fails. An object that nothing has written is a value of its own, equal only to itself.

## Where the code differs from what it says

Each of these is a lemma or a clause in the table below.

- *Overlong messages.* The comment in `readBinaryMsg` says that the flush flag makes it read on to the end of a message
  that outgrew the 64-slice buffer (src/dqr.cpp:11681), but the flag is set to false. The tail of such a message can be
  framed as a message of its own. Framing is exact if and only if no message has more than 64 slices.
- *After a bad message.* The interface says to keep calling after `DQERR_BM` (src/dqr.cpp:11551). That works for a TCODE
  that has no parser. When a parser has rejected the message, or the framer's buffer has overflowed, the error stays in
  `status`, and `readNextTraceMsg` returns it at once: nothing more is read. So garbage that is framed as a message
  which its parser rejects, such as the two bytes 0x10 0x03, ends the decode, and the messages after garbage are
  reported if and only if it held no such message and no overflow.
- *Wide fields.* The width check of `parseVarField` is exact for fields of at most 64 bits, and of 66. A 65-bit field with
  a 64-bit value can be rejected, and from 67 bits on a too large value can be accepted and truncated.
- *Serial device.* The drain loop takes an empty read for a disconnect. In the threaded mode it closes a live device
  whenever a drain finds exactly a multiple of 4096 bytes.
- *Interrupts.* An interrupt whose handler is at address 0 is not reported, because 0 stands for an unknown next address.
- *C.EBREAK* is an exception in RV64 only; in RV32 it is treated as an instruction that falls through.
- *Compressed branches.* Of the three bits that give the register of C.BEQZ and C.BNEZ, the decoder reads two.
- *Undisassembled instructions.* `NextInstruction` ignores a failed disassembly and returns the last report that was built,
  which may be another core's. A core's reports from a log without bad lines are independent of the other cores if and
  only if it never is. If no report was built yet, the object returned is one that the simulator's constructor leaves
  uninitialised (src/dqr.cpp:13907), and one that the dump's has cleared (src/vcd.cpp:287-315). In a dump, an address
  that the program lacks also delays a pending interrupt to a later instruction.
- *Long histories.* `consumeHistory` shifts a 32-bit 1, so a history is handed out as sent only from a stop bit at 31 or
  below, or at 32 if its first outcome is taken.
- *Paths.* `sanePath` remembers one climb above the start of a relative path and none above the root. A further climb makes
  it forget all that came before: `../../x` becomes `x`, and `/../x` becomes the relative path `x`. A doubled separator
  where the path is back at its start, as in `.//x`, makes a relative path absolute; `//` after a name does not. A drive
  is part of the first segment, and is lost when the path comes back to its start: `c:/../x` and `c:a/../x` become `x`.
- *A source that covers marks.* The pull decoder ignores end-of-field marks inside the source field, so it can store a
  message with more than three marks, which the push decoder rejects.

## Model

| member | source | states |
|---|---|---|
| BitBuffer.SetBit | src/swt.cpp:114-127 | sets that one bit and leaves every other bit of the buffer alone |
| BitBuffer.PutBits | src/swt.cpp:129-141 | the written stretch holds the number's low bits, least significant first; nothing outside it changes |
| BitBuffer.GetBits | src/swt.cpp:143-152 | the value of any stretch of bits modulo 2^64; nothing is read for a count of zero or less |
| PushDecoder.NexusSliceUnwrapper.BufferSlice | src/swt.cpp:184-192 | the buffer holds exactly the payload of the field's slices up to its capacity, zeros above, and a flag if one was dropped; no write leaves the 4096 bytes and the bit count stays a multiple of 6 |
| PushDecoder.NexusSliceUnwrapper.AppendByte | src/swt.cpp:169-213 | what a slice does in each state: opens a message, extends a field, closes a field or a message, or is ignored while hunting |
| PushDecoder.NexusMessageReassembler.MessageData | src/swt.cpp:309-362 | field by field, which bits become source, tag, data and timestamp, and that an overflowed field is not stored |
| PushDecoder.NexusMessageReassembler.EndMessage | src/swt.cpp:372-400 | a message is ready if and only if it was accepted, has two or three field ends and no overflowed field |
| PushDecoder.NexusStream.AppendByteAndCheckForMessage | src/swt.cpp:422-428 | for every byte stream, what comes out with a byte is what the declarative grammar assigns to that byte: a message if and only if it opens with TCODE 7, has two or three field-end marks and no field over 5461 slices, and then with exactly its fields |
| PushDecoder.AdvanceIsGrammar | src/swt.cpp:169-213 | the decoder's incremental view and the grammar's view of the same history agree at every byte |
| PushDecoder.CollectedIsContents | src/swt.cpp:309-362 | storing fields one at a time gives the message that the grammar reads off all of them together |
| MessageBuilder.SwtMessageStreamBuilder.Append | src/swt.cpp:516-541 | the emitted slices and the carry together hold exactly the bits appended so far, six to a slice, for any width |
| MessageBuilder.SwtMessageStreamBuilder.AppendFixedField | src/swt.cpp:543-553 | the bits follow those of the field so far; at the end of a message the last slice is padded and carries the end mark |
| MessageBuilder.SwtMessageStreamBuilder.AppendVarField | src/swt.cpp:555-562 | the minimal bits of the value, padded to whole slices, the last one marked |
| MessageBuilder.SwtMessageStreamBuilder.ComputeMinBits | src/swt.cpp:572-592 | the loop from the top computes the minimal width |
| MessageBuilder.MinBitsExact | src/swt.cpp:572-592 | the minimal width loses no bit of the value, and no shorter one would do |
| MessageBuilder.SwtMessageStreamBuilder.AddDataAcquisitionMessage | src/swt.cpp:444-465 | appends exactly the encoding of the message, for every source width, source, channel and size, and changes nothing before it |
| MessageBuilder.TagCodes | src/swt.cpp:444-453 | the tag is four times the channel, plus 2 for a size of 2 and 3 for a size of 1 |
| CodecRoundTrip.FrameDelivered | src/swt.cpp:169-213 | a well-formed frame delivers its contents with its last byte, nothing before, and leaves a message boundary |
| CodecRoundTrip.RoundTrip | src/swt.cpp:444-465 | from any message boundary, the encodings of any list of messages deliver exactly that list in order, each with its last slice, with tag, data modulo its size, optional timestamp, and source modulo 2^srcbits; for any channel and sizes of 1 to 8 bytes |
| CodecRoundTrip.DeliveriesLocal | src/swt.cpp:169-213 | only the bytes since the last end-of-message slice can influence what is delivered |
| CodecRoundTrip.SelfSynchronisation | src/swt.cpp:200-212 | after any garbage, one end-of-message slice makes the decoder deliver what a fresh one would |
| CodecRoundTrip.RecoveryAfterGarbage | src/swt.cpp:200-212 | every later builder message is then recovered exactly |
| PullDecoder.SliceFileParser.BufferSWT | src/dqr.cpp:11421-11544 | whatever the socket returns, the ring followed by the network is the same byte sequence as before: nothing is lost, repeated or reordered; and unless the socket fails, everything that had arrived is in the ring, up to its 2047 bytes |
| PullDecoder.SliceFileParser.GetNumBytesInSWTQ | src/dqr.cpp:9645-9669 | the length of the ring's contents, always below 2048, with equal indices meaning empty |
| PullDecoder.RingGrowsBelow | src/dqr.cpp:11421-11544 | writing into the gap below the output index appends to the ring's contents |
| PullDecoder.RingGrowsAbove | src/dqr.cpp:11421-11544 | so does writing above it, also when the input index goes round |
| PullDecoder.SliceFileParser.ReadBinaryMsg | src/dqr.cpp:11553-11749 | whether resumed in the middle of a message or not, the frames produced are those of the bytes taken so far, and no byte of the stream is lost; it only returns empty-handed when it has taken all that had arrived |
| PullDecoder.SliceFileParser.ReadNextTraceMsg | src/dqr.cpp:11751-11948 | each call frames at most one message and reports what the reference parser reads from it: the message, or `DQERR_BM` with the parser's error stored, or `DQERR_BM` with nothing stored if its TCODE has no parser; a stored error is returned without reading |
| PullDecoder.SliceFileParser.ParseFixedField | src/dqr.cpp:11263-11342 | returns exactly the next bits of the frame, with the position, flag and errors of the reference reader, for every width and position |
| FieldReader.FixedFlag | src/dqr.cpp:11263-11342 | which slice's mark a fixed field sets the end-of-message flag by |
| PullDecoder.SliceFileParser.ParseVarField | src/dqr.cpp:11344-11414 | the same for the bits up to the next marked slice, modulo 2^64, with the overflow check as it is |
| PullDecoder.SliceFileParser.ParseDataAcquisition | src/dqr.cpp:11175-11261 | core number, tag, data and optional timestamp as the reference parser reads them, and each failure with its error |
| PullDecoder.SliceFileParser.ParseFields | src/dqr.cpp:10033-10160 | fields read one after another, each from where the one before it ended: all their values, or the first one's error, which is stored |
| PullDecoder.SliceFileParser.ParseOtherMessage | src/dqr.cpp:9701-11173 | for each of the fourteen other kinds of message, the source, the fields its layout prescribes, those that depend on earlier values, and the optional timestamp, as the reference parser reads them; and each failure with its stored error |
| MessageRoundTrip.ReadBack | src/dqr.cpp:9701-11173 | each of the fourteen kinds of message, written from its fields (the fixed ones in two or four bits, the variable ones in as few as hold them), is read back: source modulo 2^srcbits and 256, fixed fields, instruction counts modulo 2^32, addresses and histories whole, and the timestamp if there is one |
| MessageRoundTrip.RefusedExactly | src/dqr.cpp:9701-11173 | such a message is refused if and only if its resource code is not 0, 1, 8 or 9, its cdf or ckdf is above 1, or its first variable field has all 64 bits and leaves one bit of its last slice |
| MessageRoundTrip.ParsersExactly | src/dqr.cpp:11805-11931 | there is a parser for exactly the fifteen TCODEs 2, 3, 4, 7, 8, 9, 11, 12, 23, 27, 28, 29, 33, 34 and 35 |
| Framing.ChunkIndependence | src/dqr.cpp:11553-11749 | two readers of one byte stream, split by sockets in any way or read from a file, produce prefixes of the same frames, and equal ones when all is consumed |
| Framing.NeverFlushing | src/dqr.cpp:11678-11688 | the flush flag is never set and fewer than 64 slices are pending, for every input |
| Framing.FramerSynchronises | src/dqr.cpp:11619-11665 | after any garbage, one end-of-message slice returns the framer to its start state, and the frames of the rest are those of the rest alone |
| Framing.VarOnMessage | src/dqr.cpp:11344-11414 | on any message, a variable field ends at a slice boundary, and at the end of the message exactly when the end flag says so; it fails only past the end or on the overflow check |
| Framing.OverlongIsCut | src/dqr.cpp:11678-11688 | a message of more than 64 slices is reported as an overflow, and its remaining slices are read as a new stream |
| Framing.OverlongTailIsFramed | src/dqr.cpp:11678-11688 | such a tail can be framed as a message of its own |
| Framing.ExactFraming | src/dqr.cpp:11553-11749 | a stream of messages is framed exactly if and only if each has at most 64 slices |
| WideFields.ExactWidths | src/dqr.cpp:11387-11400 | the variable field reader returns the value, or an error if it needs more than 64 bits, for every field of a given width, if and only if the width is at most 64, or 66 |
| MessageGrammar.AcceptedExactly | src/dqr.cpp:9701-11261 | a message whose TCODE has a parser is accepted if and only if its bits can be cut into the prescribed fields: fixed ones by width, variable ones at the next marked slice and within the overflow check, ending with the message; what is reported are the values between the cuts |
| MessageGrammar.StopsExactly | src/dqr.cpp:11751-11948 | a framing event ends the decode if and only if it is an overflow or a message that cannot be so cut |
| MessageGrammar.RecoveryExactly | src/dqr.cpp:11751-11948 | after garbage that ends with an end-of-message slice, every later builder message is reported exactly, if and only if no message in the garbage was overlong or cannot be so cut |
| DecoderAgreement.AgreeOnFrame | src/dqr.cpp:11175-11261 | on any framed data acquisition message, the pull decoder stores what the push decoder delivers if and only if the source leaves a tag bit in its field and no field trips the overflow check; what it reports otherwise |
| FrameAgreement.DeliveredIsOfFrame | src/swt.cpp:169-213 | the push decoder delivers with each byte exactly the message of the frame that the byte completes |
| FrameAgreement.SameFrames | src/dqr.cpp:11619-11688 | on arbitrary bytes, the pull decoder frames exactly what the push decoder cuts if and only if each of those frames starts with no zero byte, ends with both framing bits set and has at most 64 slices, and the one left open has fewer |
| FrameAgreement.AgreeOnBytes | src/dqr.cpp:11175-11261 | on arbitrary bytes, a message that the push decoder delivers from such a frame is what the pull decoder stores, under exactly the condition for single frames |
| StreamAgreement.SameMessages | src/dqr.cpp:11553-11948 | on arbitrary bytes that both decoders cut alike, with sources that leave a tag bit, the data acquisition messages reported by the pull decoder are those delivered by the push decoder, in order, up to the first frame that stops it; they are all of them if and only if none is delivered after that |
| StreamAgreement.StoredNotDelivered | src/dqr.cpp:11175-11261 | in a frame that both cut, the pull decoder stores a message that the push decoder does not deliver if and only if it can be cut into its fields and has more than three marks; then the source covers a mark |
| StreamAgreement.StoredExample | src/dqr.cpp:11175-11261 | such a message, with a 12-bit source |
| DecoderAgreement.BuilderAccepted | src/dqr.cpp:11387-11400 | no field the builder writes trips that check, and no builder message exceeds 64 slices |
| DecoderAgreement.DecodersAgree | src/dqr.cpp:11553-11749 | on every concatenation of builder messages the two decoders recover the same messages in the same order, the source cut to 8 bits by the pull decoder |
| DecoderAgreement.ReportsStop | src/dqr.cpp:11755-11757 | after the first overflow, or message that its parser rejects, nothing that follows is ever reported |
| DecoderAgreement.UnsupportedPassedOver | src/dqr.cpp:11928-11943 | a message whose TCODE has no parser changes nothing about the reports of what follows |
| DecoderAgreement.TooShortStops | src/dqr.cpp:10444-10579 | a two-slice indirect branch, data acquisition or auxiliary access message is rejected at its end, and stops the decoder |
| DecoderAgreement.BranchGarbageStops | src/dqr.cpp:10444-10579 | after the garbage 0x10 0x03, no builder message is ever reported |
| DecoderAgreement.PullRecovery | src/dqr.cpp:11751-11948 | after garbage that ends with an end-of-message slice, the pull decoder reports every later builder message exactly, if and only if nothing in the garbage was framed as a message that overflows or that its parser rejects |
| DecodeLoop.DecodeAll | src/dqr.cpp:11751-11948 | calling past the messages without a parser until there is nothing to read or an error is stored reports exactly what the frames of the bytes received so far mean, however they arrived; these are all that had arrived before, unless there was an error; for a file, the whole file |
| ItcPrint.LoadStored | examples/itc_utils/itc_utils.c:121-148 | the word loaded from string bytes gives the same bytes back, low byte first |
| ItcPrint.ItcPort.ItcPuts | examples/itc_utils/itc_utils.c:203-244 | for every NUL-free string the 4, 2 and 1 byte writes carry exactly the string and a newline, on the current channel only, and the result is the length plus one |
| ItcPrint.ItcPort.ItcFputs | examples/itc_utils/itc_utils.c:152-189 | the same without the newline |
| ItcPrint.ItcPort.SetPrintChannel | examples/itc_utils/itc_utils.c:191-199 | channels 0 to 31 are accepted, others change nothing |
| ItcPrint.PrintsWrite | src/swt.cpp:1084-1110 | what the server prints for the message of a stimulus write is the written value's bytes, low byte first, if it is on the print channel, and nothing otherwise |
| ItcPrint.PrintServer.PrintSerialBytes | src/swt.cpp:1073-1120 | prints exactly the characters of the messages that the grammar delivers for the bytes |
| ItcPrint.PrintFidelity | src/swt.cpp:1084-1110 | between the messages of stimulus writes, of any channels, sources and timestamps, the stream may carry anything closed by an end-of-message slice, and anything at its end: the server prints the text of the writes on the print channel if and only if nothing in between prints by itself |
| ItcPrint.OtherTrafficPrintsNothing | src/swt.cpp:1073-1120 | no messages with other TCODEs, whole or damaged, print anything |
| ItcPrint.PutsThroughTrace | examples/itc_utils/itc_utils.c:203-244 | target, encoder, decoder and server together print the string and a newline, for every NUL-free string, channel and source width |
| Handshake.InvKept | src/swt.cpp:600-728 | every critical section of every thread, and every spurious wakeup, keeps the invariant |
| Handshake.HandshakeSafe | src/swt.cpp:683-713 | in every reachable state the result sets are only written while a request is pending and no response is visible; requests run at most one ahead of responses, responses of acknowledgements, and never both; serial bytes read equal bytes taken followed by the lookahead |
| Handshake.ResultStable | src/swt.cpp:1473-1503 | a visible response is not overwritten before main asks again, over any run |
| Handshake.ResultIsSelects | src/swt.cpp:683-713 | over every run, a visible response holds what the last select() returned, and that select() returned after main's last request: main sees the answer to its own request |
| Handshake.NoLostWakeup | src/swt.cpp:650-728 | whenever main sleeps, the select thread is in select() or about to publish, or is awake with its own wait over |
| Handshake.Waits | src/swt.cpp:661-716 | each of the three waits is left on exactly its own condition, and otherwise gone back to without a change |
| Handshake.Unconstrained | src/swt.cpp:600-728 | the runs that are spoken of leave select(), the device, spurious wakeups and main's choices free |
| Handshake.WaitEnds | src/swt.cpp:1483-1497 | while main waits, the select thread can take at most four steps before main has something to return with, and one of them is always possible |
| Handshake.MainReturns | src/swt.cpp:1483-1503 | once main's predicate holds it has been woken; its next step returns, acknowledging a visible response, and keeps the request when it leaves for serial data |
| Handshake.ExitEnds | src/swt.cpp:661-728 | once main closes, the select thread takes at most two more steps, is in no wait, and one of them is possible until it has exited; the serial thread takes none |
| Handshake.ThreadModeData.AwaitSelectRequest | src/swt.cpp:661-678 | the first critical section of the select thread is the model's step |
| Handshake.ThreadModeData.PublishSelectResult | src/swt.cpp:686-716 | so is publishing, up to the acknowledgement wait |
| Handshake.ThreadModeData.RequestSelect | src/swt.cpp:1462-1503 | so is main's entry into its wait |
| Handshake.ThreadModeData.AppendSerial | src/swt.cpp:616-640 | so is the serial thread's critical section, after any read |
| Handshake.ThreadModeData.SerialReadBytes | src/swt.cpp:1280-1319 | takes the front of the lookahead in order, a full buffer unless it runs empty, and wakes every waiter |
| Handshake.Interleave | src/swt.cpp:600-728 | every interleaving of the critical sections runs the state machine, within the invariant |
| SerialRelay.ClientFaithful | src/swt.cpp:1508-1542 | over any run of a client, bytes sent followed by bytes queued are the chunks accepted for it in order, and the queue stays within 512 KiB plus one read buffer |
| SerialRelay.ChunkExactly | src/swt.cpp:1508-1542 | a chunk is queued whole for a client with at most 524288 bytes queued, and changes nothing for another |
| SerialRelay.LosslessIffNeverStalled | src/swt.cpp:1508-1542 | a client gets every byte relayed while it is connected if and only if it was never over the threshold when a chunk came |
| SerialRelay.ClosedIffRunsDry | src/swt.cpp:1044-1125 | the device is taken for disconnected if and only if the bytes that had arrived by some read come to exactly the full buffers already read |
| SerialRelay.ClosedIffMultiple | src/swt.cpp:1044-1125 | with nothing arriving meanwhile: if and only if the lookahead held a multiple of 4096 bytes |
| SerialRelay.IoConnections.DrainSerial | src/swt.cpp:1044-1125 | the loop reads exactly those chunks, offers each to every client, and closes the device exactly when the last one is empty |
| SerialRelay.IoConnections.QueueSerialBytesToClients | src/swt.cpp:1508-1542 | each client gets the whole chunk or none of it, by its own queue length |
| SerialRelay.IoConnections.DropHungUp | src/swt.cpp:1130-1187 | exactly the clients whose sockets report an end or an error are dropped, the others keep their order and state |
| SerialRelay.HangUpsNext | src/swt.cpp:1130-1187 | client by client: gone if its socket said so, and otherwise as it was |
| SerialRelay.IoConnections.SendToClients | src/swt.cpp:1190-1220 | each queue loses exactly the prefix that its socket took; a failing client with something queued is dropped |
| SerialRelay.SendsNext | src/swt.cpp:1190-1220 | client by client: unchanged with nothing queued, gone if its socket fails, and otherwise the first n bytes of its queue, or all of it, are sent |
| SerialRelay.IoConnections.ServiceConnections | src/swt.cpp:1003-1227 | a whole pass, as the composition of these over all clients, keeps the clients' invariant |
| Disassembler.JalRoundTrip | src/dqr.cpp:12801-12833 | decoding the section 2.5 JAL encoding of any even displacement in range returns it sign-extended, with its register, in both instruction sets |
| Disassembler.JalOnto | src/dqr.cpp:12801-12833 | every word with the JAL opcode is the encoding of what it is decoded to |
| Disassembler.JalrRoundTrip | src/dqr.cpp:12834-12856 | the same round trip for JALR, with both registers |
| Disassembler.BranchRoundTrip | src/dqr.cpp:12857-12908 | the same for the six conditional branches |
| Disassembler.BranchOnto | src/dqr.cpp:12857-12908 | every conditional branch is the encoding of what it is decoded to |
| Disassembler.CJRoundTrip | src/dqr.cpp:12624-12737 | the section 16.4 encodings of C.J and of C.JAL, which only exists in RV32 |
| Disassembler.CBranchRoundTrip | src/dqr.cpp:12684-12726 | the section 16.4 encodings of C.BEQZ and C.BNEZ return every even displacement, and of the register's three bits the lower two |
| Disassembler.CRRoundTrip | src/dqr.cpp:12739-12787 | the section 16.4 encodings of C.JR and C.JALR, for every register but x0, in both instruction sets: the register, and x0 or x1 as the one that is linked |
| Disassembler.WideKinds | src/dqr.cpp:12789-12908 | each 32-bit jump and branch is recognised by exactly its opcode and funct3 |
| Disassembler.CompressedKinds | src/dqr.cpp:12624-12787 | each 16-bit jump and branch by exactly its quadrant, funct3 and register fields |
| Disassembler.TrapKinds | src/dqr.cpp:12909-12942 | ECALL, EBREAK, URET, SRET, MRET and C.EBREAK by exactly their words' fields |
| Disassembler.VectorKinds | src/dqr.cpp:12943-13016 | the vector instructions by exactly their opcodes and widths |
| Disassembler.SizeIs | src/dqr.cpp:13431-13475 | an instruction has 32 bits if its lowest two are set and 16 otherwise; longer ones are not decoded |
| Disassembler.ArchesDiffer | src/dqr.cpp:13431-13475 | the RV32 and RV64 decoders differ on an instruction if and only if it has the C.JAL encoding or is C.EBREAK |
| Simulator.CompressedEbreak | src/dqr.cpp:14782-14947 | C.EBREAK is no exception in RV32 and falls through; in RV64 it is an exception and has no known successor |
| Simulator.ExceptionsExactly | src/dqr.cpp:14782-14947 | an instruction is flagged as an exception if and only if it is ECALL, EBREAK, or C.EBREAK in RV64 |
| Simulator.ComputeBranchFlags | src/dqr.cpp:14782-14947 | the pending interrupt moves into the flags, a new one is pending exactly when the next address is known and is no successor, and the branch outcome and call hints are those of the instruction |
| Simulator.CallHints | src/dqr.cpp:14814-14922 | for every jump of either instruction set, call, return and swap are the pushes and pops of the return-address table in section 2.5 |
| ControlTransfers.WideBranch | src/dqr.cpp:14852-14874 | a conditional branch, by its section 2.5 encoding, followed by the address four bytes on was not taken; followed by the address at its displacement, taken; by any other known one, interrupted |
| ControlTransfers.CompressedBranch | src/dqr.cpp:14852-14874 | the same for C.BEQZ and C.BNEZ, two bytes on |
| ControlTransfers.BranchMnemonics | src/dqr.cpp:12857-12908 | funct3 0, 1, 4, 5, 6 and 7 are BEQ, BNE, BLT, BGE, BLTU and BGEU |
| ControlTransfers.Ranges | src/dqr.cpp:12624-12908 | the displacements that these encodings hold: 9, 12, 13 and 21 bits, signed |
| ControlTransfers.DirectJump | src/dqr.cpp:14814-14827 | JAL goes to its displacement or is interrupted, and is a call if and only if it links to x1 or x5 |
| ControlTransfers.CompressedJump | src/dqr.cpp:14875-14897 | C.J is no call; C.JAL is a call in RV32, and no jump in RV64 |
| ControlTransfers.IndirectJump | src/dqr.cpp:14828-14851 | JALR is a call, a return, a swap or none by the registers it links to and jumps through, as in the table of section 2.5 |
| ControlTransfers.CompressedIndirect | src/dqr.cpp:14898-14923 | C.JR through x1 or x5 is a return; C.JALR is a swap through x5 and a call through any other register |
| ControlTransfers.Traps | src/dqr.cpp:14924-14938 | the words of ECALL and EBREAK are exceptions, those of URET, SRET and MRET exception returns, with no known successor |
| ControlTransfers.FallsThrough | src/dqr.cpp:14939-14947 | any other instruction goes on two or four bytes further, by its size, or is interrupted |
| Simulator.Simulator.GetNextSrec | src/dqr.cpp:14957-14973 | finds the first line that is an instruction or an error for the wanted core |
| Simulator.Simulator.TakeNextSrec | src/dqr.cpp:15100-15120 | the cached record and a fresh lookup give the same record |
| Simulator.Simulator.BuildInstruction | src/dqr.cpp:14975-15037 | the report, with what the disassembler has for the address and the record's register values, and the new time of that core only; or nothing at all when the disassembly fails |
| Simulator.Simulator.NextInstruction | src/dqr.cpp:15080-15174 | result and state are those of a replay without any cache |
| InstructionReports.ReadAll | src/dqr.cpp:15080-15174 | repeated calls report exactly the specification's entries for the whole log |
| InstructionReports.PerCore | src/dqr.cpp:15080-15174 | in any state of the other cores, a core's reports are a function of its own instructions, but for those given again: another core's bad line cuts them short if and only if the core goes on after it, and those given again are the core's own if and only if, in the log, the last instruction before each for which a report is built is the core's; or there is none, and the two started out with the same |
| InstructionReports.Independence | src/dqr.cpp:15080-15174 | a core's reports from a merged log are those from the log filtered to that core if and only if no other core's bad line cuts them short and, before each of its instructions that decodes but cannot be disassembled, the last line of the log for which a report is built is the core's, or there is none; a prefix of them if and only if the second holds |
| InstructionReports.InterruptsExactly | src/dqr.cpp:14782-14947 | over a whole merged log, an instruction with a report of its own is flagged if and only if the one before it on its core has known successors and it is none of them, and its address is not 0 |
| InstructionReports.CoreReportsAt | src/dqr.cpp:14975-15006 | for every position, the branch outcome against the next instruction, the call flags, and the pipe cycles since the instruction before; or the last report before it, again |
| InstructionReports.CyclesSince | src/dqr.cpp:14996-15001 | pipe cycles are the difference of the two times modulo 2^32, and 0 without an earlier one |
| InstructionReports.StaleReport | src/dqr.cpp:15153-15159 | two lines on which independence fails: an address that cannot be disassembled after another core's instruction |
| Vcd.VCD.GetNextVRec | src/vcd.cpp:366-409 | the next record with an address other than 0 |
| Vcd.VCD.NextInstruction | src/vcd.cpp:711-814 | reports the next remaining record against the one after it, with the kept lookahead and the record's pipe |
| Vcd.VcdIsCore | src/vcd.cpp:426-591 | the reports of a dump of addresses that the program has are those of the per-core specification of the log replay, whatever the disassembler lacks |
| Vcd.DumpReportsAt | src/vcd.cpp:711-814 | at every position of any dump: an address that the program lacks fails, and an interrupt is flagged if and only if the last record before it that the program has is left for an address that is none of its successors |
| Vcd.ReplaysAgree | src/vcd.cpp:711-814 | a log and a dump of core 0's instructions give the same reports, but for pipe and register values, if and only if no bad line cuts core 0 short and, before each of its instructions that cannot be disassembled, the last line for which a report is built is core 0's |
| BranchCounts.SetDisciplined | src/dqr.cpp:9295-9414 | a message keeps at most one pool in use; it fails exactly when unsupported or when it brings a pool while one is in use, pending outcomes untouched, the instruction count added either way |
| BranchCounts.ResourceFullBrings | src/dqr.cpp:9332-9353 | with nothing pending, code 8 brings exactly that many branches not taken, 9 that many taken, 0 only instructions; codes other than 0, 1, 8 and 9 fail |
| BranchCounts.HistoryBrings | src/dqr.cpp:9295-9414 | with nothing pending, a history from a code 1, branch history or correlation message with cdf 1 brings the bits below its highest one, in order |
| BranchCounts.OthersBringNothing | src/dqr.cpp:9295-9414 | other messages add their instruction count, if any, and change nothing else |
| BranchCounts.BusyRefuses | src/dqr.cpp:9199-9293 | with outcomes pending, whatever brings more fails, its instructions counted |
| BranchCounts.AsIntIs | src/dqr.cpp:9344-9349 | a count as an int is congruent to it modulo 2^32 and between -2^31 and 2^31 |
| TraceCounts.HistoryThroughTrace | src/dqr.cpp:9295-9414 | from the bytes of any of the four kinds of message that bring a history to the branch outcomes that are handed out: exactly the bits below the stop bit |
| TraceCounts.CountsThroughTrace | src/dqr.cpp:9295-9414 | the same for resource full messages with a count of branches taken or not taken |
| TraceCounts.InstructionsThroughTrace | src/dqr.cpp:9295-9414 | all other messages, from their bytes on, add their instructions and nothing else |
| BranchCounts.TakeInOrder | src/dqr.cpp:9423-9456 | outcomes are handed out in order until none is left, for history bits up to 30 |
| BranchCounts.PoolConserved | src/dqr.cpp:9295-9456 | over any run, outcomes handed out followed by those pending are those pending at first followed by all accepted |
| BranchCounts.HistoryExact | src/dqr.cpp:9423-9434 | a history is handed out as sent if and only if its stop bit is at 31 or below, or at 32 with the first outcome taken |
| BranchCounts.HistoryLimit | src/dqr.cpp:9423-9434 | from a stop bit at 32 the first outcome always comes out as taken; from a higher one it has no defined value |
| BranchCounts.Count.ResetCounts | src/dqr.cpp:9157-9163 | empties the pools of one core only |
| BranchCounts.Count.SetHistory | src/dqr.cpp:9199-9234 | refused while a pool is in use; otherwise the loop finds the stop bit and only this core changes |
| BranchCounts.Count.SetCounts | src/dqr.cpp:9295-9414 | the specification's effect on this core's counts, none on the others |
| BranchCounts.Count.ConsumeHistory | src/dqr.cpp:9423-9434 | the next history bit where the mask is defined |
| BranchCounts.Count.ConsumeBranch | src/trace.cpp:7864-7980 | the pool with an outcome is the one consumed, by priority |
| SanePath.Sanitize | src/dqr.cpp:13480-13568 | in both converting modes the buffer holds the cleaned path, terminated, and the write index never passes the read index; a raw path is copied |
| SanePath.CleanNormalizes | src/dqr.cpp:13480-13568 | the output has one kind of separator, none doubled, no `.` or `..` segment between two, no leading `.` segment and a drive letter only at the front; a second application changes nothing, and exactly the normal paths are left alone |
| SanePath.Separators | src/dqr.cpp:13516-13517 | both slashes are separators, and nothing else |
| SanePath.DriveLetters | src/dqr.cpp:13502-13515 | a drive is a letter of either case before a colon |
| SanePath.CleanExact | src/dqr.cpp:13480-13568 | where every path leads after the clean-up: what comes before its last drive is forgotten, and the rest leads to where the part after its last forgotten climb leads, absolute if and only if that part is rooted; it is the original target if and only if the rest never climbs two levels above its start, or one when rooted |
| SanePath.DriveKept | src/dqr.cpp:13502-13540 | a drive at the front is kept if and only if the path never comes back to its start |
| SanePath.RelativePaths | src/dqr.cpp:13533-13551 | a relative path, with no drive but at its front, keeps its target under exactly that condition, and then becomes absolute if and only if somewhere it is back at its start behind a separator that is followed by another |
| SanePath.AbsolutePaths | src/dqr.cpp:13533-13540 | an absolute path keeps its target if and only if it never climbs above the root, and is then still absolute; otherwise it is absolute if and only if what is remembered of it is rooted |
| SanePath.TwoClimbs | src/dqr.cpp:13533-13540 | two climbs at the start are dropped, whatever follows |
| PerfCounter.PerfReadTsCounter | examples/itc_utils/sifive_perf.c:106-123 | whatever the counter does between register reads, the result is its value at the last low-word read, and the loop ends |
| PerfCounter.HighHeld | examples/itc_utils/sifive_perf.c:113-122 | equal high words before and after make the low word part of the same value |

## Left out

- MessageBuilder.SwtMessageStreamBuilder.ComputeMinBits: the mask is shifted as an `int` in the source (src/swt.cpp:579); the model tests the bit of the 64-bit value that it means.
- CodecRoundTrip.RoundTrip: a size of 0, for which the builder still writes one bit of data, and sizes above 8, whose bits exceed the value that is appended, are excluded.
- BitBuffer.GetBits: a shift by 64 or more has no defined result; the model drops those bits.
- PullDecoder.SliceFileParser.AddSlice: so does the model here, for slices that a variable field has beyond its 64th bit (src/dqr.cpp:11344-11414).
- PullDecoder.SliceFileParser.ParseFixedField: widths above 64 are not modelled, for the same reason.
- PushDecoder.NexusStream.AppendByteAndCheckForMessage: the field count is unbounded, and a source field wider than the 32-bit member that stores it is not modelled.
- DecoderAgreement.DecodersAgree: source numbers up to 255 are allowed, although the statistics index an array of 16 cores by them (include/dqr.hpp:733).
- BranchCounts.Count.ConsumeHistory: for a mask shifted by 32 or more any outcome is allowed, and instruction counts do not wrap.
- Disassembler.ArchesDiffer: the RV32 and RV64 decoders of 32-bit instructions are the same text twice and are one function here.
- Simulator.ComputeBranchFlags: addresses are 64 bits wide in both instruction sets, as in the code, so an RV32 jump that wraps around at 2^32 counts as a discontinuity. The copy in src/vcd.cpp is the same text and is one method here.
- Simulator.Simulator.NextInstruction: the log is given as parsed lines, core numbers as below `DQR_MAXCORES`, and the lookahead flag, which the constructor leaves alone, as false at first. Two results that are the unwritten object count as equal, and source lines are not reported.
- Vcd.VCD.NextInstruction: the reading of records in blocks.
- Vcd.ReplaysAgree: it is stated for addresses that the program has, since a log has no record without an instruction.
- PullDecoder.SliceFileParser.ReadNextTraceMsg: the statistics that every parser updates are not modelled; they fail on no message that a parser accepts, unless they already hold an error (src/dqr.cpp:5223-5545).
- PullDecoder.SliceFileParser.ParseOtherMessage: the fourteen parsers are one method with a table of layouts and of the bits each field has room for; that some of the numbers are then signed is not modelled.
- SerialRelay.IoConnections.ServiceConnections: a client to be dropped is left out of a new list instead of being erased from a linked one; debug output, the withholding flag, which only gates a log line, and waiting for activity are not modelled, and the pass is that of the threaded mode.
- Handshake.Interleave: thread creation and joining, the fd sets' contents (a number stands for them) and the connection list, which the select thread reads without the mutex, are not modelled.
- SanePath.CleanExact: a drive counts as part of the first segment, so that climbing back over it is a change of target like any other; DriveKept says when that happens.
- Simulated serial data, `queueMessageToClients` and the client commands of the SWT server.
- `itc_printf` and the other formatting functions of the target library, and its register access.
- `AddrStack`, a bounded stack whose properties would be easy; and the BTM mode of `nextAddr`.
- `ITCPrint`, `ObjDump`, `ElfReader`, `Symtab`, source lookup, and `Trace` itself.
