# Byte streams and protocols of quectel_qlog

A Dafny model of the stateful parts of the log catcher and of the FTP server it ships. The operating
system, the network and the devices appear as parameters that may answer anything; what the programs
make of the answers is proved.

- `Bytes.dfy`: bytes, little-endian fields, concatenation.
- `ReflectedCrc.dfy`: reflected 16-bit CRCs bit by bit, for any polynomial, and what damage does to them.
- `Crc16.dfy`, `DiagSend.dfy`, `DiagPkt.dfy`, `DiagRoundTrip.dfy`: the FCS, the byte-stuffing sender and
  the incremental deframer of the diag port (asynchronous framing of RFC 1662, section 4.2), and the round
  trip between them through any chunking.
- `MdmCmd.dfy`: the splitter that cuts a configuration buffer into commands.
- `Kfifo.dfy`: the write cache in front of a non-blocking socket, and its slot table.
- `FrmChk.dfy`, `Smp.dfy`: the header checksum and the resynchronising SMP parser that rewrites its input.
- `Tftp.dfy`: the stop-and-wait TFTP sender against the receiver of RFC 1350.
- `HashTable.dfy`, `FtpServer.dfy`: the chained hash table and the connection accounting built on it.
- `PrivSock.dfy`: the FTP child and its privileged parent over their socket pair.
- `Sahara.dfy`, `EigenCrc.dfy`, `Eigen.dfy`: the two memory dump transfers.

Code that updates objects or arrays in place is modelled by classes and methods, each proved against a
specification function on values; the properties are lemmas about those functions. The TFTP transfer and
the FTP process pair are state machines over the steps of their processes and channels.

Some expected properties hold only under a condition, which is proved to be exact:

- Chunk independence of the deframer with start flags fails for a 0x7D out of frame:
  `DiagPkt.SplitsAgreeExactlyWhen`, with an instance in `DiagPkt.OutOfFrameEscapeLosesBytes`.
- The deframer's stores stay inside its buffer only while runs of escape pairs are short enough for it:
  `DiagPkt.BoundedStreaksFit`, `DiagPkt.EscapesFitExactlyWhen`.
- With start flags, the deframer gets back into step only where frames follow each other directly:
  `DiagRoundTrip.InStepExactlyWhen`.
- The command splitter hangs where a command starts with a length field of 65531 behind a 0x7E:
  `MdmCmd.HangsExactlyWhen`, with an instance in `MdmCmd.HangingBuffer`.
- The header checksum differs from RFC 1071 for odd lengths in big-endian order:
  `FrmChk.CheckIsOnesComplement`, with an instance in `FrmChk.OddBigEndianDiffers`.
- The write cache tears a chunk longer than its block can grow: `Kfifo.TornExactlyWhen`.
- The SMP parser may throw pieces away behind packages longer than 20517 bytes: `Smp.SafeExactlyWhenRoomy`,
  `Smp.LongerPackageIsLost`.
- The connection accounts need fresh and recorded pids: `FtpServer.AcceptKeepsInv`,
  `FtpServer.ReapKeepsInv`.
- `get_transfer_fd` returns only when PORT and PASV are not both pending:
  `PrivSock.TransferReturnsExactlyWhen`.
- Sahara regions must be shorter than 4 GiB: `Sahara.CompletesExactlyWhen`.
- Eigen regions need at least 10240 bytes, and gaps must be below 2 GiB: `Eigen.RegionIsMemory`,
  `Eigen.GapIsPadded`, `Eigen.DumpIsImageExactlyWhen`.

## Model

| member | source | states |
|---|---|---|
| `Crc16.Calc` | qshrink4.c:277-304 | The table loop over whole bytes returns the complement of the bit-serial reflected CRC with polynomial 0x8408 and seed 0xFFFF, for every buffer and length. |
| `Crc16.TableStepIsByteStep` | qshrink4.c:263-283 | For every register and byte, one table step equals eight shifts of the bit-serial definition. |
| `Crc16.EntryIsShift8` | qshrink4.c:263-275 | Each of the 256 table entries is eight bit steps of its own index. |
| `Crc16.ReceiverCheck` | qshrink4.c:277-315 | Over a message and two further bytes the FCS is 0x0F47, the complement of the residue 0xF0B8 of RFC 1662 Appendix C.2, if and only if those bytes are the ones `diag_qsr4_append_crc16` writes. |
| `Crc16.BurstChangesFcs` | qshrink4.c:277-304 | Two messages that differ only within two adjacent bytes never have the same FCS, whatever surrounds them. |
| `Crc16.CheckValue` | qshrink4.c:277-304 | The check sequence of "123456789" is 0x906E, the catalogued value of this CRC, which also fixes its seed. |
| `DiagPkt.DiagPkt.constructor` | diag_pkt.c:27-41 | A new deframer is empty and error-free; its packet buffer is twice the sum of the sizes less the 56 bytes of the structure. |
| `DiagPkt.DiagPkt.Input` | diag_pkt.c:43-118 | The buffer, counters and delivered packets after a call are those of the chunk reading `Chunk`, whenever its stores fit the buffer. |
| `DiagPkt.DiagPkt.StoreEscaped` | diag_pkt.c:47-53 | An escaped byte is stored with bit 5 flipped, or counted as an error out of frame. |
| `DiagPkt.DiagPkt.CloseFrame` | diag_pkt.c:78-103 | After a stored 0x7E the packet is delivered, kept as a start flag or discarded, and the length is reset accordingly. |
| `DiagPkt.DiagPkt.StorePlain` | diag_pkt.c:104-116 | A plain byte is stored; out of frame or beyond the maximum it costs an error and the packet. |
| `DiagPkt.RunAppend` | diag_pkt.c:60-117 | Reading a stream byte by byte can be interrupted anywhere. |
| `DiagPkt.ChunkIsRun` | diag_pkt.c:46-117 | A chunk is read to its last byte if and only if no escape pair arrives out of frame within it. Its effect is the byte-at-a-time fold, with a trailing 0x7D carried over, when no such pair comes before the last byte. |
| `DiagPkt.LoopIsRun` | diag_pkt.c:60-117 | From any position of the loop with both indices aligned, the rest of the chunk has the effect of the fold unless an escape pair arrives out of frame before the last byte. |
| `DiagPkt.LoopReadsAll` | diag_pkt.c:60-117 | From such a position the pointer reaches the end of the chunk if and only if the rest is in frame. |
| `DiagPkt.Lag` | diag_pkt.c:61-76 | Once the source pointer is behind the index, the end of the chunk is never read. |
| `DiagPkt.ChunkIgnoresLast` | diag_pkt.c:61-77 | Behind an escape pair out of frame, the last byte of the chunk makes no difference to the outcome. |
| `DiagPkt.EscapeMisleads` | diag_pkt.c:61-77 | Every 0x7D out of frame can be followed by two bytes that a chunk with them reads differently from the stream. |
| `DiagPkt.SplitsAgreeExactlyWhen` | diag_pkt.c:43-118 | In either mode, all splits into non-empty chunks of the stream, and of the stream with up to two bytes still to come, give the packets, error count and state of the byte-at-a-time fold if and only if no 0x7D arrives out of frame. |
| `DiagPkt.AlwaysInFrame` | diag_pkt.c:70-76 | Without start flags an escape pair is never out of frame. |
| `DiagPkt.OutOfFrameEscapeLosesBytes` | diag_pkt.c:61-77 | With start flags, the chunk 7D 41 7E loses its final start flag: chunk reading and stream reading differ. |
| `DiagPkt.FeedIsRun` | diag_pkt.c:43-118 | A split into non-empty chunks gives the packets, error count and final state of the whole stream when, in each chunk, no escape pair arrives out of frame before the last byte; pairs cut by the split do no harm. |
| `DiagPkt.InFrameSplits` | diag_pkt.c:43-118 | Every split of a stream without escape pairs out of frame is of that kind. |
| `DiagPkt.FeedIsRunWithoutStartFlag` | diag_pkt.c:43-118 | Without start flags this holds for every stream and every split. |
| `DiagPkt.FlagResets` | diag_pkt.c:78-103 | Without start flags an unescaped 0x7E always leaves the deframer empty and unescaped. |
| `DiagPkt.ChunkBound` | diag_pkt.c:46-116 | In either mode the packet length is at most the maximum plus the escape pairs since the last plain byte or flag, with one more during a store. |
| `DiagPkt.BoundedStreaksFit` | diag_pkt.c:27-116 | Over whole runs, if no run of escape pairs reaches the spare capacity, every store stays inside the buffer. |
| `DiagPkt.EscapesFitExactlyWhen` | diag_pkt.c:46-77 | The bound on escape pairs is needed: a chunk of escape pairs inside a packet stays in the buffer if and only if it has a free byte for each pair, whatever the maximum length. |
| `DiagPkt.DeliveredAreGood` | diag_pkt.c:43-118 | In either mode and through any chunks, nothing shorter than the minimum is delivered; every packet ends in 0x7E and, with start flags, starts with one. |
| `DiagPkt.ErrorsExactlyWhenLoss` | diag_pkt.c:47-116 | In either mode, over fewer than 4 GiB, the error counter stays if and only if every unescaped byte of the stream is in a delivered packet or in the one under construction, in order. |
| `DiagSend.AppendCrc16` | qshrink4.c:306-315 | The payload is extended in place by its check sequence, low byte first, and 0x7E; bytes behind are untouched. |
| `DiagSend.SendData` | qshrink4.c:328-348 | The bytes sent are the stuffed message with a plain closing flag, also when the source lies in the front of the same buffer, which stays unchanged. |
| `DiagSend.StuffBehind` | qshrink4.c:330-347 | The loop builds the stuffed body behind the source without overwriting what is still to be read. |
| `DiagSend.PutStuffed` | qshrink4.c:336-346 | One byte is written plain or as an escape pair. |
| `DiagSend.UnstuffSpecial` | qshrink4.c:338-341 | Stuffing and unstuffing a byte are inverse. |
| `DiagSend.RequestBufferFits` | qshrink4.c:257-348 | Source and frame of a message of up to 33 bytes fit the 100-byte buffer together. |
| `DiagRoundTrip.RunStuffed` | diag_pkt.c:60-117 | Inside a packet a stuffed body arrives unchanged exactly when it has room, that is when no plain byte comes at or beyond the maximum; otherwise bytes are lost. |
| `DiagRoundTrip.RunFrame` | diag_pkt.c:60-117 | One frame read from a clean state delivers its message and nothing else if and only if the message has the minimum length and room. |
| `DiagRoundTrip.LengthsDeliver` | diag_pkt.c:81-115 | Every length from the minimum to one more than the maximum satisfies that condition. |
| `DiagRoundTrip.StreamRoundTrip` | diag_pkt.c:43-118 | Concatenated frames cut into any chunks deliver exactly their messages, in order and without an error. |
| `DiagRoundTrip.SelfSynchronising` | diag_pkt.c:43-118 | After arbitrary noise one unescaped 0x7E suffices: all later frames are delivered. |
| `DiagRoundTrip.PayloadRoundTrip` | qshrink4.c:306-348 | Payloads framed with their check sequence come back complete through any chunking, and each passes the FCS check. |
| `DiagRoundTrip.DelimitedRoundTrip` | diag_pkt.c:46-117 | With start flags, frames separated by bytes other than 0x7E and 0x7D deliver exactly 0x7E, body, 0x7E each, in order, through any chunking. |
| `DiagRoundTrip.RunDelimited` | unisoc.c:574-580 | One such frame read between frames delivers its packet and returns to the state between frames. |
| `DiagRoundTrip.InStepExactlyWhen` | diag_pkt.c:78-116 | With start flags and out of step, that is with a packet open between two frames, the next frame is delivered and the deframer is in step again if and only if no plain byte, or at least the maximum of them, comes before the frame; otherwise it stays out of step. |
| `DiagRoundTrip.BackInStep` | diag_pkt.c:78-103 | After any stream, when two delimited frames follow each other directly, at most the first is lost: the second and all later ones are delivered, in order. |
| `DiagRoundTrip.BackInStepInChunks` | diag_pkt.c:43-118 | The same through any chunking, after noise without 0x7D and with no escape pair in the frame that may be lost. |
| `MdmCmd.SendCmd` | mdm.c:227-290 | The commands written, or the failure to end, are those of the specification `Split`. |
| `MdmCmd.FindEnd` | mdm.c:238-251 | One pass finds the end of a length-prefixed command or the next 0x7E, with the 16-bit length arithmetic of the source. |
| `MdmCmd.SplitsIntoCommands` | mdm.c:232-287 | A buffer of HDLC commands and length-prefixed commands is written command by command, in order, and the loop ends, even when payloads contain 0x7E. |
| `MdmCmd.FlaggedIsOneWriteExactlyWhen` | mdm.c:238-251 | A buffer of one command between two flags goes out in one write, unless it starts like a length-prefixed command with length field 65532, or with 65531 behind another 0x7E. |
| `MdmCmd.PassStaysExactlyWhen` | mdm.c:240-245 | A pass makes no progress, and the next one starts where it did, if and only if its start is stuck: 7E 01, a length field of 65531, and 0x7E as the byte before. |
| `MdmCmd.WritesConserveBytes` | mdm.c:232-287 | For every buffer the writes are its bytes in order, once each, up to where the call stops: the stuck start at which it hangs, or the end, with the byte behind it if and only if the buffer does not end in a 0x7E that ends a command. |
| `MdmCmd.HangsExactlyWhen` | mdm.c:232-287 | The call does not end if and only if one of the starts that its writes reach is stuck. |
| `MdmCmd.EndsWithoutPattern` | mdm.c:232-287 | Buffers that hold the pattern nowhere are safe. |
| `MdmCmd.HangingBuffer` | mdm.c:232-287 | Eight bytes on which the call writes its first command and then hangs. |
| `MdmCmd.FrameIsHdlc` | qshrink4.c:350-355 | A frame built by `diag_send_data` is a single HDLC command for the splitter. |
| `Kfifo.Fifo.Write` | tty2tcp.c:36-139 | The memory state after a call is that of `Written` for whatever the socket and malloc answer, with the return value of the C function. |
| `Kfifo.Fifo.Insert` | tty2tcp.c:66-138 | The part behind the direct write: make room, append or drop, drain. |
| `Kfifo.Fifo.CompactData` | tty2tcp.c:66-72 | Queued bytes slide to the front unchanged, exactly when that makes strictly more room than needed. |
| `Kfifo.Fifo.GrowData` | tty2tcp.c:74-94 | Queued bytes move to a block 256 KiB larger unchanged, below the limit and when malloc succeeds. |
| `Kfifo.Fifo.CopyIn` | tty2tcp.c:110-114 | The chunk is appended behind the queued bytes. |
| `Kfifo.Fifo.DrainOut` | tty2tcp.c:116-138 | Any prefix the socket takes leaves the queue at its front; an emptied queue returns to the block's start. |
| `Kfifo.WriteKeepsInv` | tty2tcp.c:36-139 | out <= in <= size <= 2 MiB, size a multiple of 256 KiB, and an empty queue at in = out = 0, are kept by every call. |
| `Kfifo.WriteConserves` | tty2tcp.c:36-139 | Bytes sent followed by bytes queued grow by exactly the accepted bytes, through bypass, compaction and growth. |
| `Kfifo.WholeOrNothing` | tty2tcp.c:43-114 | With malloc succeeding, a chunk of at most 256 KiB is accepted whole or not at all. |
| `Kfifo.DroppedExactlyWhen` | tty2tcp.c:59-114 | It is dropped if and only if the connection was reset on the direct write, or the cache has 2 MiB, the chunk does not fit behind `in`, and queued plus chunk reach 2 MiB. |
| `Kfifo.TornExactlyWhen` | tty2tcp.c:43-114 | Any chunk is torn if and only if a proper prefix was sent directly and the rest exceeds the block, even grown once. |
| `Kfifo.WholeExactlyWhen` | tty2tcp.c:43-114 | A chunk of any size is accepted whole if and only if the first write is not reset and its rest fits behind `in`, strictly after sliding, or in a block larger by 256 KiB. |
| `Kfifo.SocketGets` | tty2tcp.c:43-129 | The socket gets the next bytes of the stream from the front, exactly those it takes directly and of the queue; all others stay queued. |
| `Kfifo.WillingSocketEmpties` | tty2tcp.c:43-129 | If no write is reset and the socket takes all it is offered, the whole stream is sent and the queue is empty. |
| `Kfifo.ReportedExactlyWhen` | tty2tcp.c:59-138 | Zero is returned if and only if a write that took no bytes ended in a reset. |
| `Kfifo.RunConserves` | tty2tcp.c:36-139 | Over every run of calls the stream is the in-order concatenation of the accepted bytes, and the invariant holds. |
| `Kfifo.RunSends` | tty2tcp.c:36-139 | Over every run the socket has got the front of the stream, as many bytes as it took in all calls together. |
| `Kfifo.RunAcceptsWholeChunks` | tty2tcp.c:36-139 | Over every run of short chunks each chunk appears whole or not at all. |
| `Kfifo.AllocKeepsDistinct` | tty2tcp.c:145-204 | Allocation keeps each descriptor in one slot if and only if the new one is not in the table; then `kfifo_idx` finds it in the first free slot. |
| `Kfifo.FreeRemoves` | tty2tcp.c:179-204 | Freeing removes a descriptor and leaves every other in its slot. |
| `Kfifo.Table.Alloc` | tty2tcp.c:145-171 | The first free slot is taken and starts with an empty queue; other slots are unchanged. |
| `Kfifo.Table.Free` | tty2tcp.c:179-185 | The addressed slot is given back; indices outside the table change nothing. |
| `Kfifo.Table.Idx` | tty2tcp.c:187-204 | The first slot with the descriptor, or -1. |
| `Kfifo.Table.Write` | tty2tcp.c:173-177 | Only the addressed slot changes, and the result is the chunk size or zero. |
| `FrmChk.Calc` | unisoc.c:402-438 | The 32-bit accumulating loop returns the folded, complemented sum, for both byte orders and odd lengths. |
| `FrmChk.CheckIsOnesComplement` | unisoc.c:402-438 | Up to 65537 words the accumulator does not overflow, and the result is the checksum of RFC 1071, section 1, over padded words if and only if the order is little-endian, the length even, or the last byte zero. |
| `FrmChk.OddBigEndianDiffers` | unisoc.c:429-432 | The single byte 1 in big-endian order gives 0xFFFE where the standard has 0xFEFF. |
| `FrmChk.FoldIsRep` | unisoc.c:434-435 | Two folding steps give the one's-complement value of every 32-bit sum. |
| `FrmChk.PassesExactlyWhen` | unisoc.c:440-445 | A header passes if and only if its field holds the checksum taken with the field zero, or 0xFFFF where that checksum is zero. |
| `FrmChk.SealedPasses` | unisoc.c:440-445 | A header whose field holds that checksum passes. |
| `FrmChk.PassesMeansOnes` | unisoc.c:440-445 | A header passes if and only if its words add up to 0xFFFF in the arithmetic of RFC 1071. |
| `FrmChk.DamagedWordFails` | unisoc.c:440-445 | A header that passes no longer does when one word is changed to a value of another one's-complement meaning. |
| `Smp.Parser.ProcLogBuf` | unisoc.c:763-868 | Leftover and saved records after a piece are those of `Piece`, a piece that does not fit is thrown away, although the headers are overwritten in place; the caller's buffer outside the piece is untouched. |
| `Smp.Parser.ParseIn` | unisoc.c:793-863 | The loop saves the records of `Parse` and stops in front of its leftover. |
| `Smp.Parser.TryPackage` | unisoc.c:798-862 | One pass skips a byte, takes a package or waits, and keeps the bytes not yet read. |
| `Smp.Parser.Take` | unisoc.c:861-862 | A complete package is saved and stepped over. |
| `Smp.Parser.SaveRecord` | unisoc.c:458-470 | The saved bytes are the payload length in four little-endian bytes and the payload; nothing behind the package changes. |
| `Smp.CheckPackage` | unisoc.c:803-851 | Exactly the packages with start flag, checksum, lcn, type and reserved word in order are accepted. |
| `Smp.AcceptedExactlyWhen` | unisoc.c:803-851 | A package is accepted if and only if it starts with four 0x7E, its header words add up to 0xFFFF in the arithmetic of RFC 1071, and lcn is 0, type 0 or 0xF8 and the reserved word 0x5A5A. |
| `Smp.DamagedIsRefused` | unisoc.c:819-827 | A sealed package with any header word changed to another one's-complement meaning is refused. |
| `Smp.Parser.KeepRest` | unisoc.c:865-866 | The leftover moves to the front of the log buffer unchanged. |
| `Smp.Parser.Save` | unisoc.c:1059-1078 | A buffer is handed over in pieces of 4056 bytes; when the stream is roomy, that yields the records and the leftover of the stream in one piece. |
| `Smp.ParseResumes` | unisoc.c:763-868 | Parsing may be interrupted anywhere and resumed with the leftover: same records, same final leftover. |
| `Smp.KeptPiecesAreOneStream` | unisoc.c:763-868 | While no piece is thrown away, pieces of any size give the records and leftover of the stream they are cut from. |
| `Smp.SafeExactlyWhenRoomy` | unisoc.c:781-788 | No way to cut a stream into pieces of at most 4056 bytes loses a piece if and only if every accepted header declares at most 20517 bytes or lies in the last 24 KiB. |
| `Smp.TightDrops` | unisoc.c:783-787 | For every other stream a cut that loses a piece is given. |
| `Smp.PiecesAreOneStream` | unisoc.c:763-868 | A roomy stream gives its own records and leftover for every way to cut it into pieces of at most 4056 bytes. |
| `Smp.ShortIsRoomy` | unisoc.c:458-474 | Streams whose accepted headers declare at most 20517 bytes are safe. |
| `Smp.LeftoverBound` | unisoc.c:781-788 | Behind the leftover of such a stream there is always room for a full piece. |
| `Smp.LongerPackageIsLost` | unisoc.c:781-788 | 20517 is the exact limit: every package that declares more is lost in some stream that starts with it, cut in some way. Its accepted header stays in the leftover and nothing is saved, where the stream in one piece saves it first. |
| `Smp.FramedIsAccepted` | unisoc.c:819-862 | A sealed header with its payload is accepted with its own length, whatever follows. |
| `Smp.NoiseIsSkipped` | unisoc.c:803-817 | Bytes other than 0x7E in front of a package are skipped. |
| `Smp.StreamIsSaved` | unisoc.c:763-868 | A stream of sealed packages of any 16-bit length with such noise between them yields length and payload of each, in order, and no leftover. |
| `Smp.StreamInPiecesIsSaved` | unisoc.c:763-868 | For packages of at most 20517 bytes it does so for every split into pieces of at most 4056 bytes. |
| `Smp.StreamThen` | unisoc.c:763-868 | Behind a stream of sealed packages the parser goes on as if the rest came alone. |
| `Smp.OnlyTheDamagedIsLost` | unisoc.c:798-862 | A damaged header costs its own package only: with no start flag inside it, all packages before and behind it are saved. |
| `Tftp.FileIsPrefixOfSource` | tftp.c:94-409 | In every run over FIFO channels that lose and duplicate, the receiver's file is a prefix of the source, all that was read when the thread ends, and only the assertion behind the retries can fail. |
| `Tftp.SuccessMeansStored` | tftp.c:345-409 | A call is counted as successful only when the receiver has stored its block; the file is then the confirmed blocks. |
| `Tftp.EveryFileArrives` | tftp.c:94-409 | For every source and block size, from every start, there is a run without loss that ends with the whole source stored and both sides finished. |
| `Tftp.LostBlockIsRepeated` | tftp.c:357-379 | When everything under way is lost, a time-out and one more attempt complete the block. |
| `Tftp.CanAlwaysFinish` | tftp.c:94-409 | From every reachable state with an attempt left, whatever is lost, the transfer can still be completed with the rest of the source. |
| `Tftp.TwelveAttempts` | tftp.c:357-408 | A call gives up after exactly twelve attempts without an answer. |
| `Tftp.FourteenTimeouts` | tftp.c:124-133 | The thread closes the file after exactly fourteen time-outs between calls. |
| `Tftp.AcksCauseNothing` | tftp.c:381-398 | Every packet sent has a cause of its own, input, the end of input, a time-out or an OACK: no acknowledgement, however often repeated, makes the sender send. |
| `Tftp.ReplyInThreadIsOld` | tftp.c:154-204 | Between two calls only the last acknowledgement can arrive again, so the assertions at lines 160, 194 and 201 are never reached. |
| `Tftp.AcceptedReplyKeepsInv` | tftp.c:381-384 | When a call accepts an acknowledgement, everything left in both channels belongs to that block. |
| `Tftp.StepKeepsInv` | tftp.c:94-409 | Every step of sender, receiver and network keeps the invariant of the two-block window. |
| `Tftp.RunReads` | tftp.c:209-239 | Every byte read from the pipe is confirmed or in the packet buffer, in order. |
| `Tftp.WireWraps` | tftp.c:220-228 | Adjacent block numbers stay distinct on the wire through both wrap-arounds. |
| `HashTable.Hash.constructor` | qftp_server/src/hash.c:23-33 | A new table holds the empty map. |
| `HashTable.Hash.Lookup` | qftp_server/src/hash.c:35-44 | Null exactly for absent keys, otherwise the table's node with the key's value. |
| `HashTable.Hash.Add` | qftp_server/src/hash.c:46-76 | The map gains the entry; a duplicate key changes nothing. |
| `HashTable.Hash.Free` | qftp_server/src/hash.c:78-102 | Exactly this key leaves the map; an absent key changes nothing. |
| `HashTable.Hash.Store` | qftp_server/src/main.c:174-201 | Writing through the pointer of a lookup changes the value of that key only. |
| `HashTable.FindIn` | qftp_server/src/hash.c:116-131 | The walk along a bucket finds the key's node or ends at null. |
| `HashTable.PushFront` | qftp_server/src/hash.c:64-75 | A node in front of a bucket keeps the links consistent in both directions. |
| `HashTable.Unlink` | qftp_server/src/hash.c:89-99 | Removing a head, middle or tail node keeps the links consistent in both directions and the other entries. |
| `HashTable.SameBucketExactlyWhen` | qftp_server/src/main.c:154-159 | Two keys share a bucket if and only if their difference is a multiple of the number of buckets. |
| `FtpServer.Server.Accept` | qftp_server/src/main.c:82-112 | One accepted connection with its recorded pid; the session sees the number of children and of live children of its address. |
| `FtpServer.Server.HandleIpCount` | qftp_server/src/main.c:161-182 | The address's count starts at one or goes up by one. |
| `FtpServer.Server.DropIpCount` | qftp_server/src/main.c:184-207 | The count goes down by one and its entry disappears at zero. |
| `FtpServer.Server.HandleSigchld` | qftp_server/src/main.c:133-152 | All dead children are taken off one after the other. |
| `FtpServer.AcceptKeepsInv` | qftp_server/src/main.c:87-112 | Accepting keeps the accounts if and only if the pid is not in the table yet. |
| `FtpServer.ReapKeepsInv` | qftp_server/src/main.c:140-150 | Reaping keeps the accounts if and only if the child was recorded. |
| `FtpServer.UnrecordedChild` | qftp_server/src/main.c:142-147 | A child that dies unrecorded changes the number of children and leaves both tables. |
| `FtpServer.TotalIsPids` | qftp_server/src/main.c:133-207 | The counts add up to the size of the pid table. |
| `FtpServer.RunKeepsInv` | qftp_server/src/main.c:80-207 | After every run of connections and exits each count is the number of live children of its address, absent exactly when zero, and `s_children` is their sum. |
| `PrivSock.LockStep` | qftp_server/src/privsock.c:53-166 | In every interleaving no message is read as the wrong kind, channels are empty between commands, one process can always go on inside a command, and the parent connects where PORT said. |
| `PrivSock.StepKeepsInv` | qftp_server/src/privparent.c:55-155 | Every step of either process keeps the joint invariant of positions and channels. |
| `PrivSock.ReadNext` | qftp_server/src/privparent.c:72-106 | The parent reads port and address of the request in the order and with the values the child sent. |
| `PrivSock.NeitherModeRemains` | qftp_server/src/ftpproto.c:1021-1061 | However `get_transfer_fd` returns, neither PORT nor PASV is active afterwards. |
| `PrivSock.TransferDelivers` | qftp_server/src/ftpproto.c:1021-1129 | In every interleaving `get_transfer_fd` returns 1 if and only if the network granted the connection, and then the descriptor is connected to the address of PORT, or comes from the listener of PASV. |
| `PrivSock.PendingModeIsServed` | qftp_server/src/privparent.c:72-155 | With one mode pending and a network that grants everything, the call succeeds with that descriptor. |
| `PrivSock.PasvListens` | qftp_server/src/privparent.c:121-139 | PASV ends with a listener, and the client is told its port. |
| `PrivSock.PasvAnnouncesListener` | qftp_server/src/ftpproto.c:298-311 | Between commands, the port that listens is the one last told to the client. |
| `PrivSock.TransferIsBounded` | qftp_server/src/ftpproto.c:1021-1129 | With at most one mode pending a run inside `get_transfer_fd` is no longer than its rank. |
| `PrivSock.BothPendingSpins` | qftp_server/src/ftpproto.c:1063-1092 | With both modes pending `port_active` and `pasv_active` call each other forever. |
| `PrivSock.TransferReturnsExactlyWhen` | qftp_server/src/ftpproto.c:1021-1092 | So `get_transfer_fd` returns, within 170 steps, if and only if not both modes are pending. |
| `PrivSock.PortThenPasvIsBothPending` | qftp_server/src/ftpproto.c:277-320 | PORT followed by PASV leads to the state in which both modes are pending. |
| `Sahara.Session.ReadRegion` | sahara.c:580-623 | The loop terminates by bytes left and chunk limit, and requests, file and limit are those of `Read`. |
| `Sahara.Session.ReadDump` | sahara.c:558-630 | All regions in table order, with the limit carried from one to the next. |
| `Sahara.RequestsStayInside` | sahara.c:332-371 | Every read request of a region that fits the address space lies inside it and fits the receive buffer, whatever the device answers. |
| `Sahara.DumpStaysInside` | sahara.c:558-623 | Every read request of a dump lies inside an announced region. |
| `Sahara.AnsweredRequestsTile` | sahara.c:580-611 | The answered requests of a finished region follow one another without gap or overlap from its base to its end. |
| `Sahara.FileIsMemory` | sahara.c:580-623 | With complete saves the file is the region's memory. |
| `Sahara.DumpIsMemory` | sahara.c:558-630 | With complete saves every file of a successful dump is its region's memory. |
| `Sahara.FailuresHalveTheLimit` | sahara.c:597-608 | Every tolerated failure halves the limit, which never falls below 16 KiB. |
| `Sahara.AtMostThreeTolerated` | sahara.c:597-608 | In every dump, over all regions, at most three failed reads are tolerated and the fourth is fatal. |
| `Sahara.SucceedsExactlyWhen` | sahara.c:580-623 | A region is read to its end if and only if no send or save fails and no more reads fail than the limit can be halved; the rest of the halvings is left for the next region. |
| `Sahara.DumpSucceedsExactlyWhen` | sahara.c:558-623 | The same for whole dumps: from 128 KiB, three failed reads over all regions. |
| `Sahara.RequestsAskFully` | sahara.c:582-604 | Every request asks for what is left of the region or for the limit, halved by each failure before it, whichever is less. |
| `Sahara.FileIsKept` | sahara.c:612-623 | The file is what was saved of each answer, whole or short, in order. |
| `Sahara.DumpHalves` | sahara.c:558-623 | The same over all regions together. |
| `Sahara.RequestsAreFew` | sahara.c:580-623 | A region needs at most one request per 16 KiB besides the failed ones. |
| `Sahara.CompletesExactlyWhen` | sahara.c:580-611 | A region of any length whose requests are all answered is read to its end if and only if it is shorter than 4 GiB; a longer one never is, whatever the replies. |
| `Sahara.ReadIsPasses` | sahara.c:580-623 | For readable regions the passes of that statement end as `Read` does, over the replies it consumes. |
| `Sahara.ChunkStops` | sahara.c:582-582 | A chunk never crosses a multiple of 4 GiB before the end, and is empty exactly there. |
| `Sahara.ZeroRequestsChangeNothing` | sahara.c:582-611 | Where a multiple of 4 GiB is left, answered requests for nothing change neither offset nor limit. |
| `Sahara.EntriesFit` | sahara.c:373-387 | A valid table is all entries; the size checks admit exactly the tables of at most 128 KiB and 2048 entries. |
| `EigenCrc.Calc` | eigen.c:133-145 | The four-bit table loop computes the bit-serial reflected CRC with polynomial 0xA001. |
| `EigenCrc.NibblesAreByte` | eigen.c:92-143 | For every register and byte two table steps are eight shifts of the definition. |
| `EigenCrc.CheckValue` | eigen.c:133-145 | Seeded with 0xFFFF, the CRC of "123456789" is 0x4B37, its catalogued value. |
| `Eigen.Dumper.GetDumpData` | eigen.c:550-648 | One region's loop over what the device sends, with the 32-bit counters of the source. |
| `Eigen.Dumper.PaddingDumpFile` | eigen.c:690-707 | Exactly as many zeros as the argument says, none when it is not positive. |
| `Eigen.Dumper.CatchDump` | eigen.c:792-816 | The regions in turn with padding between them, ended by the first failure. |
| `Eigen.BadFrameChangesNothing` | eigen.c:618-641 | Whatever is not accepted adds no bytes and does not advance the address; `Eigen.FrameDecides` says what that is. |
| `Eigen.FrameDecides` | eigen.c:618-641 | A frame built of header, length, payload, check sequence and two more bytes is taken with exactly its payload if its check bytes are the CRC of what precedes them, low byte first; with any other two bytes it only counts as a failure. |
| `Eigen.DamagedFrameIsRefused` | eigen.c:618-641 | A frame with up to two adjacent damaged bytes in header, length or payload of the same length is refused. |
| `Eigen.DamagedFramesFail` | eigen.c:550-648 | Silence and damaged frames add nothing; the region fails at the sixteenth damaged frame in a row, and not before. |
| `Eigen.RegionServed` | eigen.c:550-648 | A region whose requests are answered, with any silence and fewer than sixteen damaged frames in a row between, finishes with exactly its memory. |
| `Eigen.RegionIsMemory` | eigen.c:538-635 | With an honest device a finished region appends exactly its memory if and only if it is empty or at least 10240 bytes long. |
| `Eigen.ShortRegionReadsOver` | eigen.c:536-539 | A shorter region gets 10240 bytes, because the first request ignores its length. |
| `Eigen.GapIsPadded` | eigen.c:806-807 | A gap is filled to its full size if and only if it is below 2 GiB. |
| `Eigen.ImageAt` | eigen.c:792-808 | Offset a - base0 of the image holds memory[a] inside a region and zero in a gap, and the image ends where the last region ends. |
| `Eigen.DumpIsImage` | eigen.c:792-808 | A successful dump of ascending regions, each empty or of at least 10240 bytes, with gaps below 2 GiB, from an honest device is that image. |
| `Eigen.DumpIsImageExactlyWhen` | eigen.c:792-808 | For a table of up to 100 ascending regions the file of a successful dump is that image if and only if the regions and gaps are of that kind. |
| `Eigen.DumpLength` | eigen.c:792-808 | The length of any successful dump: the image, more by what short regions get too much, less by the gaps of 2 GiB and more. |
| `Eigen.AnsweredDumpIsImage` | eigen.c:792-816 | A dump whose regions are all answered writes the flat image, and succeeds if and only if the final command is acknowledged. |

## Left out

- DiagPkt.DiagPkt.Input: requires that the stores fit the buffer, as the C code does; `DiagPkt.BoundedStreaksFit` and `DiagPkt.EscapesFitExactlyWhen` say when they do. Empty chunks are excluded, as by its callers, and the largest-packet debug variable is not modelled.
- DiagSend.SendData: returns the bytes handed to the port instead of writing them; the frame must fit the request buffer.
- Crc16.Calc: does not model bit counts that are not a multiple of eight, which no caller uses.
- MdmCmd.SendCmd: does not model the synchronous mode that waits for responses, the exit request and the debug dump; a pass without progress ends the model with `diverges`.
- Kfifo.Fifo.Write: does not model several writers to one slot, file descriptor flags and drop statistics.
- Smp.Parser.ProcLogBuf: requires that accepted headers declare at least 8 bytes, below which the C length wraps around, and pieces of at most 24 KiB, as all callers do.
- Tftp.FileIsPrefixOfSource: is about steps on values rather than an object updated in place; it does not promise that a run ends, only that it can; it does not model a failing `sendto`, error packets (line 399), channels that reorder, and more than one packet in flight.
- HashTable.Hash.Add: does not model failing allocation, released memory and keys of other types; the check for a bad bucket cannot fail with this hash function.
- FtpServer.Server.Accept: takes accept, fork and record as one step and lets the per-address counts grow without 32-bit bound; a failing fork ends the program.
- PrivSock.LockStep: models messages rather than single bytes, and steps on values rather than session objects; a failing listen socket ends the parent and is not modelled.
- PrivSock.TransferReturnsExactlyWhen: counts steps of the two processes; time-outs of the alarm handlers are not modelled.
- Sahara.Session.ReadDump: starts with the announced table, requires lengths below 4 GiB, beyond which the loop does not end, and addresses that do not wrap; hello, reset and wake-up exchanges and bytes that arrive after a timed-out read are not modelled.
- Eigen.Dumper.GetDumpData: takes the message buffer after each exchange as given, with the frame inside it; handshake, sequence numbers, the loops that send the request and short saves are not modelled, and waiting is not bounded in the source.
- Files, sockets, USB, terminals, polling, sleeping, signals, threads, time stamps and log messages are parameters or traces.
- Device discovery, option parsing, default configurations and the region tables for crashed modules are data.
- asr.c, ymodem.c, ftp.c, mtk.c, sony.c, qserver.c and qsocket_server are thin input and output.
- list.h, cqueue.c, str.c and the database reading of qshrink4.c would add only easy members.
- FTP commands on files, rate limits, passwords and process capabilities.
