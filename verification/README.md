# Verified models of the PX4 byte-level tools

Five host-side tools of the firmware repository, and the on-board log writer one of them listens to, modelled in
Dafny and proved against what they are for. `dafny verify dfyconfig.toml` checks everything.

**ULog over MAVLink** (`UlogFormat`, `UlogReceiver`, `UlogReassembly`, `UlogRuns`, `UlogSender`, `UlogDelivery`).
The receiver compares 16-bit sequence numbers, acknowledges, and puts records together again from payloads of at
most 249 bytes that may be lost, repeated or reordered. `UlogReceiver.State` and the functions on it say what each
step does; the class `MavlinkLogStreaming` performs the steps. `UlogSender.LogWriterMavlink` is the logger's writer,
proved to publish honest payloads (right bytes, right offset of the first record that starts in each), with the start
sequence of the logger, which sends the header section reliably. `UlogDelivery` puts sender, link and the receiver's
own state together as a state machine. The main results: after every run the file is given in closed form, as the
header, the records wholly inside maximal runs of consecutive payloads, and each dropout record at its place, in front
of the record that was still buffered when the gap was noticed; what the 16-bit receiver hands on is in order, without
repetition and with exact loss counts, and nothing acknowledged is skipped; the header section arrives complete; and
the file read as ULog splits into exactly those records.

**Firmware upload** (`ShiftRegister`, `Crc32`, `Uploader`). The table-driven CRC-32 refines division bit by bit
(the generator is that of section 8 of RFC 1952, started at zero and not complemented at the end), and it detects
every burst of up to 32 bits, which is tight: a difference within 33 bits goes unnoticed exactly if it is the
generator, wherever it lies. The bootloader is an environment: what it stores, what it reads back, the checksum it
reports and every reply are arbitrary. If what is read back and the checksum reported are true, a revision-2 upload
that reports success has left the exact image, and a later one contents whose checksum is right, hence no burst error.
Without any fault uploads can be relied on exactly if the revision is 2 or the flash is a whole number of words:
otherwise the host pads beyond the end of the flash and rejects even an image that was programmed well.

**MAVLink 1.0** (`MavlinkCodec`, `MavlinkParser`, `MavlinkRuns`, `Mavlink`). The incremental parser is measured
against `Scan`, which cuts a whole byte string without any state: same reports whatever the chunks, every byte
accounted for, no over-read for a reader that asks for `bytes_needed`, and a full round trip from `send` through a
line that adds junk. The X.25 checksum and the message table are parameters; where the table has a row whose order
map is shorter than its fields (the two QUAD_SWARM rows do), a valid frame makes the parser raise `IndexError`, and
that happens for no other tables. So the results are about the input, not the table: they hold for every input none of
whose pieces is such a frame, robust mode answers exactly those, and the round trip holds for every table. On the others
bytes are lost but never invented, and behind a gap as long as the longest frame, less a byte, the parser is in step
again whatever came before.

**sdlog2** (`BlockLoop`, `Sdlog2Format`, `Sdlog2Parser`, `Sdlog2Log`, `Sdlog2Csv`, `Sdlog2`). The self-describing
log is read in blocks. The outcome does not depend on the blocks, exceptions included; a well-formed log comes out as
it went in, with junk skipped when recovery is on; and every CSV cell is the last value its column was given, whether
a row is printed for each message or rows are grouped by time (the command line's default, with message `TIME`). In
the second case each block also prints, when it ends, the row that is open; what is printed is given exactly, as a
function of the log and of the messages complete at the end of each block, also for a file that ends in the middle of a
packet. The block size makes no difference, for any filter and file, exactly if rows are not grouped by time or the
output is for debugging, and the file dumped before with the same parser makes none exactly if a filter was given or the
output is for debugging.

**uORB structures** (`UorbLayout`, `UorbAgreement`, `Uorb`). For every definition made of known types the padding
written out makes the computed size the `sizeof` a C compiler arrives at, leaves it no hole to fill, and moves no
declared field. The sort is what makes that true: for fields in any order, the computed size is the `sizeof` exactly if
every builtin lies at a multiple of its own size, and too small otherwise.

Shared vocabulary is in `Sequences`: bytes, `Option`, `Result`, concatenation, and Python's forgiving slices.

Where a method and a function have matching names, the method is the code and the function its specification; the
lemmas then say what the function is good for.

## Model

| member | source | states |
|---|---|---|
| UlogReceiver.CheckSequenceIsSerial | Firmware/Tools/mavlink_ulog_streaming.py:150-165 | a sequence number counts as newer exactly when RFC 1982, section 3.2, says so, or at distance 2^15 when it is the larger; the number of losses reported is the modular distance |
| UlogReceiver.CheckSequenceRefines | Firmware/Tools/mavlink_ulog_streaming.py:150-165 | for unbounded counters less than 2^15 apart the 16-bit comparison is the comparison of the counters, with the exact number lost, across wrap-arounds |
| UlogReceiver.CheckSequenceAtHalf | Firmware/Tools/mavlink_ulog_streaming.py:156-161 | at distance exactly 2^15 the answer depends on the wrap-around, so the window cannot be larger |
| UlogReceiver.MavlinkLogStreaming.ReadMessage | Firmware/Tools/mavlink_ulog_streaming.py:104-147 | one message changes the state and is handed on as `Read` says: acknowledged whenever acked, handed on only when newer |
| UlogReceiver.MavlinkLogStreaming.WriteUlogMessages | Firmware/Tools/mavlink_ulog_streaming.py:203-212 | writes all complete records and returns the rest, by the shrinking loop |
| UlogReceiver.MavlinkLogStreaming.ProcessStreamedUlogData | Firmware/Tools/mavlink_ulog_streaming.py:168-200 | one payload updates header flag, partial record and file as `Process` says; a first payload shorter than the header is refused with the state untouched |
| UlogReceiver.MavlinkLogStreaming.HandleMessage | Firmware/Tools/mavlink_ulog_streaming.py:68-101 | read one message and process what it carries |
| UlogFormat.SplitRecordsSound | Firmware/Tools/mavlink_ulog_streaming.py:203-212 | splitting yields whole records followed by an incomplete one, and their concatenation is the input |
| UlogFormat.SplitRecordsComplete | Firmware/Tools/mavlink_ulog_streaming.py:203-212 | a concatenation of whole records splits into exactly those records with nothing left |
| UlogFormat.SplitStream | Firmware/Tools/mavlink_ulog_streaming.py:203-212 | the stretch of a log from the start of a record to any cut splits into the records that end before the cut and the part of the next one |
| UlogRuns.TracksNext | Firmware/Tools/mavlink_ulog_streaming.py:168-200 | processing a payload that follows the last one succeeds and keeps the whole-run invariant: the file is the items so far, in closed form, and the buffer the unfinished record |
| UlogRuns.TracksLater | Firmware/Tools/mavlink_ulog_streaming.py:174-200 | so does processing a payload after a gap: the loss is reported, then the complete buffered record is written, the torn one dropped, and reading resumes at the first record that starts |
| UlogRuns.TracksRun | Firmware/Tools/mavlink_ulog_streaming.py:123-212 | the invariant holds after every sequence of arrivals inside the sequence window |
| UlogRuns.ReassemblyExact | Firmware/Tools/mavlink_ulog_streaming.py:123-212 | after every run the file is `FileItems` of the accepted payloads: the header and exactly the records wholly inside maximal runs, each dropout record at its place in front of the record then buffered; the record still buffered, numDropouts and the acknowledgements are exact |
| UlogRuns.HandedOnIsAccepted | Firmware/Tools/mavlink_ulog_streaming.py:123-165 | what the 16-bit receiver hands on along a run is what an unbounded counter would accept: each payload once, in order, with the exact number lost in front of it |
| UlogRuns.FileIsRecordAligned | Firmware/Tools/mavlink_ulog_streaming.py:203-212 | the file behind its header splits into exactly its items; no record is torn or merged |
| UlogRuns.AcceptedPrefixComplete | Firmware/Tools/mavlink_ulog_streaming.py:168-212 | if the first h payloads all arrived, every record inside them is among those expected: it is in the file, or it is the complete record still buffered |
| UlogRuns.AcceptedOfContents | Firmware/Tools/mavlink_ulog_streaming.py:123-147 | what an unbounded counter would accept is made of arrivals, and nothing newer than the last of it has arrived |
| UlogSender.LogWriterMavlink.constructor | Firmware/src/modules/logger/log_writer_mavlink.cpp:42-52 | a fresh writer is idle and has published nothing |
| UlogSender.LogWriterMavlink.StartLog | Firmware/src/modules/logger/log_writer_mavlink.cpp:70-83 | sequence, buffer and offset start again |
| UlogSender.LogWriterMavlink.StopLog | Firmware/src/modules/logger/log_writer_mavlink.cpp:85-89 | the buffer is discarded, what was published stays honest |
| UlogSender.LogWriterMavlink.WriteMessage | Firmware/src/modules/logger/log_writer_mavlink.cpp:91-119 | the message is appended to the stream: every byte of the stream is published or buffered, every payload carries the right bytes, the right offset and the current need for an acknowledgement; an empty message publishes nothing, and leaves a right offset exactly if one was noted already |
| UlogSender.LogWriterMavlink.SetNeedReliableTransfer | Firmware/src/modules/logger/log_writer_mavlink.cpp:121-131 | leaving reliable mode flushes a non-empty buffer as an acked payload, and the log goes on exactly if the acknowledgement comes in time |
| UlogSender.LogWriterMavlink.PublishMessage | Firmware/src/modules/logger/log_writer_mavlink.cpp:133-193 | the buffer is published with its number and offset; without an acknowledgement in time the log stops |
| UlogSender.StartLogMavlink | Firmware/src/modules/logger/logger.cpp:1205-1224 | the start sequence publishes the whole header section, and nothing but it, in payloads that ask for an acknowledgement |
| UlogSender.LogSession | Firmware/src/modules/logger/log_writer_mavlink.cpp:91-131 | and however many non-empty messages follow, the header stays in front: the premises of the end-to-end results hold of every session |
| UlogSender.MessageBegun | Firmware/src/modules/logger/log_writer_mavlink.cpp:91-102 | noting the first start in the buffer keeps the stream honest when a message begins |
| UlogSender.ChunkStored | Firmware/src/modules/logger/log_writer_mavlink.cpp:103-117 | so does copying a chunk of it |
| UlogSender.PayloadPublished | Firmware/src/modules/logger/log_writer_mavlink.cpp:107-115 | so does publishing a full buffer and starting the next with no record start noted |
| UlogDelivery.StepKeeps | Firmware/src/modules/mavlink/mavlink_ulog.cpp:88-182 | every step of sender, link and receiver keeps the protocol invariant |
| UlogDelivery.BehaviourKeeps | Firmware/src/modules/mavlink/mavlink_ulog.cpp:88-182 | so it holds in every reachable state |
| UlogDelivery.DeliveredInOrderOnce | Firmware/Tools/mavlink_ulog_streaming.py:26-30 | in every behaviour the pieces the receiver has handed on are payloads in order and at most once, each with the exact number lost in front of it, and none that needs an acknowledgement is missing once the sender has moved past it |
| UlogDelivery.FileAlwaysExact | Firmware/Tools/mavlink_ulog_streaming.py:123-212 | in every behaviour the receiver never fails, its file is exact, and it has acknowledged exactly the arrivals that ask for it |
| UlogDelivery.HeaderSectionComplete | Firmware/src/modules/mavlink/mavlink_ulog.cpp:109-165 | once the sender is past the acknowledged header section, all its records have been received |
| UlogDelivery.WriterToFile | Firmware/src/modules/logger/log_writer_mavlink.cpp:91-193 | end to end: for whatever the logger wrote and however the link behaved, the receiver's file is exact for the payloads accepted |
| UlogDelivery.WriterHeaderComplete | Firmware/src/modules/logger/logger.cpp:1205-1224 | and once the sender is past the header section of the start sequence, every record of it has been received |
| Crc32.DividerLawful | Firmware/Tools/px_uploader.py:127-131 | the reflected shift register of polynomial EDB88320 obeys the algebra all detection results rest on |
| Crc32.TableIsRemainders | Firmware/Tools/px_uploader.py:76-108 | each of the 256 table entries is the remainder of eight division steps |
| Crc32.TableRefinesDivision | Firmware/Tools/px_uploader.py:76-131 | for every byte string and start state the table-driven checksum equals the bit-by-bit division |
| Crc32.CrcBytesConcat | Firmware/Tools/px_uploader.py:133-137 | the checksum can be continued piece by piece |
| Crc32.BurstChangesCrc | Firmware/Tools/px_uploader.py:127-137 | equally long contents that differ, but only within 32 consecutive bits, have different checksums |
| Crc32.FourByteErrorChangesCrc | Firmware/Tools/px_uploader.py:127-137 | in particular contents that differ only within four consecutive bytes |
| Crc32.BurstOf33Undetected | Firmware/Tools/px_uploader.py:127-137 | the bound is tight everywhere: contents that differ only within 33 consecutive bits have the same checksum if and only if they are equal or their difference is the generator, at any bit position, in any contents, from any start state |
| ShiftRegister.StepsInjective | Firmware/Tools/px_uploader.py:127-131 | division steps lose no information about the state |
| ShiftRegister.FeedIsSteps | Firmware/Tools/px_uploader.py:127-131 | feeding up to a register's width of bits is adding the word they form and stepping |
| ShiftRegister.BurstDetected | Firmware/Tools/px_uploader.py:127-131 | no lawful register confuses two inputs that differ within its width |
| Uploader.Firmware.constructor | Firmware/Tools/px_uploader.py:111-122 | the image is the decoded one filled up with ff bytes to a whole number of words |
| Uploader.Firmware.Crc32Of | Firmware/Tools/px_uploader.py:127-131 | the loop computes the checksum of all bytes from the given state |
| Uploader.Firmware.Crc | Firmware/Tools/px_uploader.py:133-137 | the padding loop computes the checksum of the image followed by whole words of ff |
| Uploader.PadBlocksExact | Firmware/Tools/px_uploader.py:133-137 | that covers exactly the flash size if and only if the image fits and the gap is a whole number of words |
| Uploader.SplitLenPieces | Firmware/Tools/px_uploader.py:376-377 | the pieces concatenate to the input and none is empty or too long |
| Uploader.ProgrammedPieces | Firmware/Tools/px_uploader.py:376-393 | every piece of a padded image is a positive whole number of words of at most 252 bytes |
| Uploader.UploaderTool.Erase | Firmware/Tools/px_uploader.py:307-329 | ends at the first reply that is in sync, at a bad-silicon reply, or with a timeout |
| Uploader.UploaderTool.ProgramMulti | Firmware/Tools/px_uploader.py:332-343 | one piece goes to the bootloader, then its reply is judged |
| Uploader.UploaderTool.Program | Firmware/Tools/px_uploader.py:380-393 | all pieces in order, stopping at the first bad reply |
| Uploader.UploaderTool.VerifyMulti | Firmware/Tools/px_uploader.py:346-363 | reads back as many bytes, whatever arrives, and compares before it looks at the reply |
| Uploader.UploaderTool.VerifyRev2 | Firmware/Tools/px_uploader.py:396-410 | rewinds the pointer and compares every piece |
| Uploader.UploaderTool.VerifyRev3 | Firmware/Tools/px_uploader.py:412-424 | compares whatever checksum is reported, short reports included, with that of the padded image |
| Uploader.UploaderTool.RebootBoard | Firmware/Tools/px_uploader.py:366-373 | from revision 3 on the reply to the reboot counts |
| Uploader.UploaderTool.Upload | Firmware/Tools/px_uploader.py:448-511 | board and size checks, then erase, program, verify by revision, reboot; nothing is sent if a check fails |
| Uploader.VerifyGroupsSound | Firmware/Tools/px_uploader.py:346-363 | if what is read back is true, comparison succeeds only on a flash that holds all pieces from the pointer on |
| Uploader.Rev2UploadIsExact | Firmware/Tools/px_uploader.py:380-511 | if what is read back is true, a revision-2 upload that succeeds leaves the padded image at the start of the flash, whatever was stored while programming |
| Uploader.Rev3UploadHasNoBurst | Firmware/Tools/px_uploader.py:412-511 | if the checksum reported is true, a later upload that succeeds leaves contents with the checksum of the image and whole words of padding; where those end with the flash, any difference from the expected contents spans more than 32 bits |
| Uploader.FaultlessUploadSucceeds | Firmware/Tools/px_uploader.py:448-511 | on a board without faults every padded image that fits is uploaded and the flash is as expected: on revision 2 always, later if the flash is a whole number of words |
| Uploader.UnalignedFlashRejected | Firmware/Tools/px_uploader.py:133-137 | on every board without faults and every flash that is not a whole number of words, a later revision rejects an image of zeros although the flash is as expected |
| Uploader.EveryImageUploadsIff | Firmware/Tools/px_uploader.py:412-511 | so every padded image that fits uploads on every faultless board of n bytes if and only if the revision is 2 or n is a multiple of four |
| MavlinkCodec.ReorderInverts | Firmware/Tools/mavlink_px4.py:2367-2372 | wire order and constructor order are inverse to each other when the order map is a permutation |
| MavlinkCodec.DecodePacked | Firmware/Tools/mavlink_px4.py:101-111 | decoding a packed message gives back its arguments in constructor order, and its header |
| MavlinkCodec.PackDecoded | Firmware/Tools/mavlink_px4.py:2332-2388 | whatever decodes is byte for byte what packing the decoded values gives |
| MavlinkCodec.DecodeCrashes | Firmware/Tools/mavlink_px4.py:2367-2372 | the decoder fails with an index error exactly on intact frames whose row maps fewer arguments than it has fields |
| MavlinkCodec.DecodesOrRejectsIff | Firmware/Tools/mavlink_px4.py:2332-2388 | it keeps to its own error for all inputs if and only if the table has no such row |
| MavlinkCodec.HeartbeatWellFormed | Firmware/Tools/mavlink_px4.py:2116 | the HEARTBEAT row is a permutation that fits a frame |
| MavlinkCodec.DebugWellFormed | Firmware/Tools/mavlink_px4.py:2199 | so is the DEBUG row |
| MavlinkCodec.SwarmRowCrashes | Firmware/Tools/mavlink_px4.py:2165 | for every checksum function there is an intact swarm frame that cannot be decoded |
| MavlinkParser.ParseCharKeepsInv | Firmware/Tools/mavlink_px4.py:2274-2317 | in either mode the expected length is six or belongs to the frame at the front of the buffer |
| MavlinkParser.ParseCharConsumes | Firmware/Tools/mavlink_px4.py:2274-2317 | whatever is reported or raised shortens the buffer, so draining ends |
| MavlinkParser.ParseCharWaits | Firmware/Tools/mavlink_px4.py:2297-2317 | one call without a whole frame or bad prefix at hand reports nothing and notes the length the length byte announces |
| MavlinkParser.ParseCharReports | Firmware/Tools/mavlink_px4.py:2281-2316 | one call in robust mode reports the first piece of all bytes at hand, if it is not a frame that crashes the decoder, with the counters that go with it |
| MavlinkParser.AnswersIffClean | Firmware/Tools/mavlink_px4.py:2302-2330 | from every reachable state robust mode answers an input with messages if and only if no piece of it is a frame that crashes the decoder |
| MavlinkRuns.AnswersIffNoPoison | Firmware/Tools/mavlink_px4.py:2302-2388 | for the decoder of a table: it raises if and only if one piece is an intact frame of a row with more fields than arguments |
| MavlinkParser.ParseBufferIsScan | Firmware/Tools/mavlink_px4.py:2319-2330 | on every such clean input the draining loop reports exactly the pieces of the stateless scan and keeps exactly its rest |
| MavlinkParser.ScanConserves | Firmware/Tools/mavlink_px4.py:2274-2330 | the pieces and the rest concatenate to the input |
| MavlinkParser.ScanResumes | Firmware/Tools/mavlink_px4.py:2274-2330 | scanning may stop anywhere and go on later from the bytes left over |
| MavlinkParser.ChunkIndependence | Firmware/Tools/mavlink_px4.py:2274-2330 | on clean input, from every reachable state, two calls and one on the joined input give the same messages, buffer, expected length, counters and callbacks |
| MavlinkRuns.Conservation | Firmware/Tools/mavlink_px4.py:2274-2330 | over every run of calls on clean input, raw buffers of all messages followed by the buffer are the bytes received; packets plus errors are the messages; callbacks are the messages |
| MavlinkRuns.NothingInvented | Firmware/Tools/mavlink_px4.py:2274-2330 | on every input, clean or not, over every run of calls the bytes reported and buffered are never more than came in, and if as many, all are accounted for as above |
| MavlinkRuns.DialectConserves | Firmware/Tools/mavlink_px4.py:2274-2388 | both hold of the decoder of every message table |
| MavlinkRuns.NoOverRead | Firmware/Tools/mavlink_px4.py:2267-2317 | a read of at most `bytes_needed` bytes never leaves more than one unfinished frame, and a whole frame leaves the buffer empty, in both modes |
| MavlinkRuns.NeverOverReads | Firmware/Tools/mavlink_px4.py:2267-2317 | so it is over every run of such reads |
| MavlinkRuns.FeedIsDrain | Firmware/Tools/mavlink_px4.py:2319-2330 | any number of chunks of a clean input comes to the same as all bytes at once |
| MavlinkRuns.SenderWritesFrames | Firmware/Tools/mavlink_px4.py:2259-2265 | a sender writes the packed frames in order, numbered modulo 255, and counts packets and bytes |
| MavlinkRuns.ScanWeave | Firmware/Tools/mavlink_px4.py:2281-2301 | between marker-free junk the scanner finds back exactly the frames |
| MavlinkRuns.ScanResynchronises | Firmware/Tools/mavlink_px4.py:2281-2301 | whatever came before, stray markers included, behind 262 marker-free bytes the next frame is found and scanning goes on behind it |
| MavlinkRuns.ShorterGapSwallows | Firmware/Tools/mavlink_px4.py:2297-2301 | 261 are not enough: one marker and a length of 255 swallow the first byte of any frame |
| MavlinkRuns.RoundTrip | Firmware/Tools/mavlink_px4.py:2259-2388 | for every table, messages sent through a line that adds marker-free junk, however chunked, are reported in order with sequence k mod 255 and one BAD_DATA for each junk byte, and nothing else |
| MavlinkRuns.RobustModeIsTotalIff | Firmware/Tools/mavlink_px4.py:2302-2316 | robust mode answers every input with messages if and only if no row of the table has more fields than arguments |
| Mavlink.MAVLink.constructor | Firmware/Tools/mavlink_px4.py:2231-2252 | initial state of sender and parser |
| Mavlink.MAVLink.SendMessage | Firmware/Tools/mavlink_px4.py:2259-2265 | writes one frame and advances sequence and counters |
| Mavlink.MAVLink.NextLength | Firmware/Tools/mavlink_px4.py:2267-2272 | `bytes_needed` |
| Mavlink.MAVLink.DecodeFrame | Firmware/Tools/mavlink_px4.py:2332-2388 | the checks in order, then the in-place permutation loop, compute `Decode` |
| Mavlink.MAVLink.ParseBytes | Firmware/Tools/mavlink_px4.py:2274-2317 | `parse_char` changes the parser's fields as the step function says and leaves the sender alone |
| Mavlink.MAVLink.ParseAll | Firmware/Tools/mavlink_px4.py:2319-2330 | `parse_buffer`, whose loop ends because each report shortens the buffer |
| BlockLoop.DrainResumes | Firmware/Tools/sdlog2/sdlog2_dump.py:122-157 | the inner loop may run out of bytes and go on later, exceptions included |
| BlockLoop.FeedIsDrain | Firmware/Tools/sdlog2/sdlog2_dump.py:113-160 | block independence: for every cutting of a file the outer loop ends in the same state, place and exception as one pass over all of it, and prints the same unless blocks print when they end |
| BlockLoop.FeedKeepsOutputs | Firmware/Tools/sdlog2/sdlog2_dump.py:157-159 | printing at block ends only adds rows: nothing printed in one pass is lost, changed or reordered |
| BlockLoop.FeedIsInterleaved | Firmware/Tools/sdlog2/sdlog2_dump.py:113-160 | without an exception the outer loop prints, for each block, what one pass over the file up to there adds, and then what the block prints when it ends |
| Sdlog2Format.SplitJoin | Firmware/Tools/sdlog2/sdlog2_dump.py:213 | splitting labels at commas undoes joining them |
| Sdlog2Format.DescrInPacket | Firmware/Tools/sdlog2/sdlog2_dump.py:203-212 | reading a FORMAT packet gives back the description written into it |
| Sdlog2Format.UnpackPacked | Firmware/Tools/sdlog2/sdlog2_dump.py:241-244 | unpacking gives back the values packed |
| Sdlog2Parser.NextExtends | Firmware/Tools/sdlog2/sdlog2_dump.py:126-156 | what a turn of the loop does depends only on the bytes it needed to see |
| Sdlog2Parser.TurnsAreLocal | Firmware/Tools/sdlog2/sdlog2_dump.py:126-156 | and every turn without an exception takes at least one byte, so the inner loop ends |
| Sdlog2Parser.EndlessIff | Firmware/Tools/sdlog2/sdlog2_dump.py:138-156 | a turn makes no progress exactly at a data message whose descriptor has length zero and either no fields or a name the filter in force hides |
| Sdlog2Parser.FilterMapIsLast | Firmware/Tools/sdlog2/sdlog2_dump.py:115-118 | in the map for debug output each message has the fields of its last entry in the filter |
| Sdlog2Log.OnItemSucceeds | Firmware/Tools/sdlog2/sdlog2_dump.py:203-268 | items of a well-formed log raise nothing, and only FORMAT messages change what is known |
| Sdlog2Log.NextIsOnItem | Firmware/Tools/sdlog2/sdlog2_dump.py:126-156 | at a packet one turn takes exactly that packet |
| Sdlog2Log.DrainIsReplay | Firmware/Tools/sdlog2/sdlog2_dump.py:126-156 | junk runs without the pair A3 95 change nothing when errors are corrected, also when one ends in A3 |
| Sdlog2Log.LogRoundTrip | Firmware/Tools/sdlog2/sdlog2_dump.py:113-160 | a well-formed log, with or without junk and whatever the blocks, raises nothing, leaves only a stub of trailing junk, ends in the state the items call for and prints all they call for in order |
| Sdlog2Log.LogInBlocks | Firmware/Tools/sdlog2/sdlog2_dump.py:113-160 | what is printed, exactly, in every configuration and for every cutting, also of a file that ends within a packet: block by block what the messages complete by then add, and the row of the moment if rows are grouped by time and one is open |
| Sdlog2Log.SelectedIs | Firmware/Tools/sdlog2/sdlog2_dump.py:251-257 | the fields shown of a message are exactly those the filter asks for, in their order |
| Sdlog2Log.DebugListsLog | Firmware/Tools/sdlog2/sdlog2_dump.py:225-257 | under any filter the debug output lists every message it shows, with the labelled values it asks for, in order |
| Sdlog2Log.DebugOfLog | Firmware/Tools/sdlog2/sdlog2_dump.py:113-257 | and so does the whole tool, for every well-formed log, every cutting into blocks and every skippable junk |
| Sdlog2Csv.LastOfIsLast | Firmware/Tools/sdlog2/sdlog2_dump.py:258-267 | the reference for a cell: the value given last and by nothing after it |
| Sdlog2Csv.StoreRemembers | Firmware/Tools/sdlog2/sdlog2_dump.py:258-265 | the table of current values remembers exactly the last value of every column |
| Sdlog2Csv.AddAllColumnsIs | Firmware/Tools/sdlog2/sdlog2_dump.py:171-182 | the columns are the shown fields of the filter in force, message by message |
| Sdlog2Csv.RowsFollowHistory | Firmware/Tools/sdlog2/sdlog2_dump.py:188-201 | after the first data message every shown message prints a row with one cell for each column, each the last value in the whole history or null |
| Sdlog2Csv.TimedRowsFollowHistory | Firmware/Tools/sdlog2/sdlog2_dump.py:236-238 | grouped by time, a row with the last values is printed at exactly those time messages that follow an update of another message's column; the end of a block prints one exactly if such an update is still open |
| Sdlog2Csv.ReplayIsTable | Firmware/Tools/sdlog2/sdlog2_dump.py:171-201 | the header is printed once, at the first data message, with the columns known by then |
| Sdlog2Csv.CsvInBlocks | Firmware/Tools/sdlog2/sdlog2_dump.py:113-268 | the whole tool, in either row mode: for every well-formed log, every cutting into blocks and every skippable junk it prints block by block the rows of the table that are new, and at each block's end the row that is open |
| Sdlog2Csv.CsvOfLog | Firmware/Tools/sdlog2/sdlog2_dump.py:113-268 | so the whole table is printed in order, and unless rows are grouped by time nothing else |
| Sdlog2Csv.BlockSizeMattersIff | Firmware/Tools/sdlog2/sdlog2_dump.py:113-160 | what is printed is the same for all block sizes, for every filter and file, if and only if output is for debugging or rows are not grouped by time; otherwise a log of three messages tells two block sizes apart |
| Sdlog2Csv.LogLeavesFilter | Firmware/Tools/sdlog2/sdlog2_dump.py:171-174 | the filter a run leaves behind is the one given, or, if there was none, all messages described before the first data message, however the log is cut into blocks |
| Sdlog2Csv.FilterOutlivesRunIff | Firmware/Tools/sdlog2/sdlog2_dump.py:171-182 | dumping a second file with the same parser prints what a fresh parser prints, for all first and second files and block sizes, if and only if output is for debugging or a filter was given; otherwise two files with different message names print a header without the second file's column |
| Sdlog2.SDLog2Parser.ResetState | Firmware/Tools/sdlog2/sdlog2_dump.py:76-85 | everything but the filter starts again |
| Sdlog2.SDLog2Parser.InitFilterMap | Firmware/Tools/sdlog2/sdlog2_dump.py:115-118 | for debug output the loop fills the map with the last entry the filter has for each message |
| Sdlog2.SDLog2Parser.InitCSV | Firmware/Tools/sdlog2/sdlog2_dump.py:171-186 | the loops over names and filter compute `InitCsv` and print the header |
| Sdlog2.SDLog2Parser.PrintCSVRow | Firmware/Tools/sdlog2/sdlog2_dump.py:188-201 | prints the current cell of every column |
| Sdlog2.SDLog2Parser.ParseMsgDescr | Firmware/Tools/sdlog2/sdlog2_dump.py:203-232 | a FORMAT message is learnt, printed in debug mode, or refused for an unknown field kind |
| Sdlog2.SDLog2Parser.ParseMsg | Firmware/Tools/sdlog2/sdlog2_dump.py:234-268 | a data message is shown or stored as the step function says, with its errors |
| Sdlog2.SDLog2Parser.Turn | Firmware/Tools/sdlog2/sdlog2_dump.py:126-156 | one turn of the inner loop is `Next` |
| Sdlog2.SDLog2Parser.Process | Firmware/Tools/sdlog2/sdlog2_dump.py:113-160 | the nested loops print what `Feed` prints on the blocks of the file |
| UorbLayout.BareNameIsName | Firmware/Tools/px_generate_uorb_topic_helper.py:42-51 | the name is what is left of dir/name[x] without prefix and suffix |
| UorbLayout.SortSorts | Firmware/Tools/px_generate_uorb_topic_helper.py:67 | the size sort orders by descending size and keeps all fields |
| UorbLayout.SortIsStable | Firmware/msg/templates/uorb/msg.h.template:102-103 | and fields of one size keep their order |
| UorbAgreement.BuiltinsAgree | Firmware/Tools/px_generate_uorb_topic_helper.py:10-39 | the size map gives every type in it the size of the C type printed for it |
| UorbAgreement.WalkFits | Firmware/Tools/px_generate_uorb_topic_helper.py:80-104 | over sorted fields the padding loop leaves no holes, computes where the last field ends, and moves no field |
| UorbAgreement.SizesAgree | Firmware/Tools/px_generate_uorb_topic_helper.py:54-68 | for every known field, embedded ones of any depth included, the size computed is the compiler's |
| UorbAgreement.CLayoutAgreement | Firmware/Tools/px_generate_uorb_topic_helper.py:70-117 | for every definition of known types the printed structure has no hidden holes, its computed size is its sizeof and a multiple of eight, the size without end padding is where the last declared field ends, and padding moves no declared field |
| UorbAgreement.PaddingIsIdempotent | Firmware/Tools/px_generate_uorb_topic_helper.py:70-117 | padding a padded list again inserts nothing and returns the same size with no end padding, for all lists |
| UorbAgreement.AgreesIffOnBoundaries | Firmware/Tools/px_generate_uorb_topic_helper.py:70-117 | for known fields in any order the computed size is at most the sizeof, and equal to it, with no hidden holes, if and only if every builtin begins at a multiple of its size |
| UorbAgreement.UnsortedDisagrees | Firmware/msg/templates/uorb/msg.h.template:102-104 | so without the sort the computed size can be wrong: 16 for a structure of 24 bytes |
| Uorb.FieldList.AddPaddingBytes | Firmware/Tools/px_generate_uorb_topic_helper.py:70-117 | the loop that inserts in place, and recurs into embedded types, computes `AddPadding` and the end padding |
| Uorb.FieldList.PadField | Firmware/Tools/px_generate_uorb_topic_helper.py:80-104 | one turn: padding in front of an embedded field, the element size, the next offset |

## Left out

- Serial ports, sockets, files, consoles, progress bars, timers, heartbeats and argument parsing: a line is a sequence of bytes or messages, a file a growing sequence.
- ULog: repeated start and stop of a session, acknowledgement timing and the number of retries. `UlogDelivery` follows one session; an overflow of the on-board queue is a loss on the link.
- Uploader: identification of the board, one-time-programmable memory, serial number and chip reads, boot delay and reboot strings; Python 2 and 3 differ in how the padding byte is appended, the model appends ff.
- Uploader.UploaderTool.Upload: the reads of one-time-programmable memory, serial number and chip, which only print, and the boot delay written on request are not part of it.
- Uploader.Rev2UploadIsExact: assumes that the bytes read back are those of the flash; if the line corrupts them as well, a success says nothing.
- Uploader.Rev3UploadHasNoBurst: assumes that the checksum reported is that of the flash.
- MAVLink: the generated message classes (one generic message stands for them) and all but three rows of the table; `mavutil.x25crc` is not part of this model and appears as an arbitrary function; the NUL-terminated display of strings.
- MavlinkRuns.RoundTrip: junk that contains the marker byte 254 may swallow frames and is not covered; which frames survive is said only behind a gap, by `ScanResynchronises`. Conservation and chunk independence hold for such junk all the same, as long as no piece is a frame that crashes the decoder.
- MAVLink outside robust mode: only the step function, its invariant and the reading discipline; errors leave the parser there.
- sdlog2: float values, multipliers and the text form of values (a value is its kind and its bytes), non-ASCII text.
- Sdlog2.SDLog2Parser.Turn: at a message whose descriptor has length zero the original may loop for ever (`EndlessIff` says exactly when); the model ends with the error `Endless`.
- Sdlog2Parser.TurnsAreLocal: likewise takes that endless loop for an error.
- sdlog2: a column without a value is absent from the table instead of holding null.
- uORB: loading definitions with genmsg (a field carries the definition it embeds), arrays without a length (genmsg gives none and the original raises a TypeError), and the printed text.
- UorbAgreement.CLayoutAgreement: builtin types outside the size map, such as string and time, get size 0 from the generator and are excluded.
- The parameter and airframe scanners, generators of XML and wiki text, debugger helpers and board headers.
