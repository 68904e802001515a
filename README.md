# AndWeight: a verified model of the scale connection core

AndWeight is an Android service that receives weight measurements from an A&D
UC-351PBT-Ci Bluetooth scale. This project models, in Dafny, the part of it that
speaks the scale's wire protocol:

- **`InPackets`** (`in_packet.dfy`): the packets the scale sends (`InPacket.java`).
  It covers how one read chunk is split into packets (`parseStream`) and how a
  packet is classified (`getType`, with `isRequestPatientInfo`, `isCannotWait`,
  `isData` and `isWeight`). It also covers what is read out of a packet: the
  measure and transmission dates as raw fields, the patient number and the weight
  sub-frame. `InPacket` is a value, because its byte array is assigned only by the
  constructor. The predicates are functions. The methods that allocate arrays and
  fill them with `System.arraycopy` are methods over `array`s. Each of those is
  proved to compute a specification function.
- **`OutPacket`** (`out_packet.dfy`): the five 4-byte replies the host may send.
- **`HexUtil`** (`hex_util.dfy`): the diagnostic formatting of byte buffers.
  `dump` and `ascii` are loops over a string builder. Each is proved to produce a
  text whose shape is stated byte by byte.
- **`Session`** (`session.dfy`): `ConnectionThread.run()` as a state machine. The
  socket is abstract: the reads are a given sequence of chunks or IOExceptions, the
  output stream accepts a given number of writes before it throws IOException, and
  the listener callbacks and the socket close are recorded as events. The loop
  state (`Progress`) holds the phase, the local weight list, the bytes written,
  the events and the writes still accepted. `Dispatch` is the switch on the packet
  type with its catch clauses. `Apply` and `ApplyAll` are the for loop over the
  packets of a chunk, `HandleReads` is the while loop, and `Finalise` is what
  follows it.
- **`Service`** (`connection_thread.dfy`): the `ConnectionThread` class itself. Its
  fields are the remaining reads, the output stream and the event log. `Run()`
  keeps the source's loops, and its postcondition says that it does exactly what
  `Session.Run` describes.
- **`JavaBytes`** (`java_bytes.dfy`): Java's signed `byte`, `b & 0xff`,
  `(char) b`, `System.arraycopy`, and the result type that stands in for the
  exceptions of the core.

Java bytes are the integers -128..127. The year expression
`(hi << 8) & 0xff00 | (lo << 0) & 0x00ff` is computed on 32-bit vectors after
sign extension, as Java computes it. It is then proved to be the little-endian
unsigned value of the two bytes. Float arithmetic is not modelled. A weight is
kept as the 7 bytes of its text, and as the conversion from pounds when its unit
is `lb`. Which texts `Float.parseFloat` accepts is a parameter, `floatSyntax`.

The model follows the Java code as written:

- the patient-info request and "cannot wait" packets produce no event at all;
- the status byte of a weight packet is byte 61, that is byte 1 of the sub-frame;
- an end of stream is not drained gracefully (see "Left out");
- a weight text that `Float.parseFloat` rejects ends the session (see "Findings").

## Model

| member | source | states |
|---|---|---|
| JavaBytes.Unsigned | src/eu/fbk/trec/andweight/model/InPacket.java:208 | `b & 0xff` lies in 0..255 and is congruent to the byte modulo 256 |
| JavaBytes.JavaChar | src/eu/fbk/trec/andweight/model/InPacket.java:298 | `(char) b` keeps the low 16 bits of the sign-extended byte, so a non-negative byte is its own character code |
| JavaBytes.ByteBitsValue | src/eu/fbk/trec/andweight/model/InPacket.java:208 | the 8 bits of a byte, read as a number, are `b & 0xff` |
| JavaBytes.ArrayCopy | src/eu/fbk/trec/andweight/model/InPacket.java:56 | after `System.arraycopy` the destination holds the copied source range at `destPos` and is unchanged elsewhere |
| JavaBytes.CopyRange | src/eu/fbk/trec/andweight/model/InPacket.java:257-258 | `new byte[n]` filled by arraycopy is a fresh array holding exactly `src[pos..pos+n]` |
| OutPacket.Bytes | src/eu/fbk/trec/andweight/model/OutPacket.java:15-29 | every reply constant is 4 bytes: ASCII "PWA" followed by its code digit '0'..'4' |
| OutPacket.CodeByteIdentifiesReply | src/eu/fbk/trec/andweight/model/OutPacket.java:15-29 | the five replies are pairwise distinct, and their last byte alone tells them apart |
| HexUtil.ToHexChar | src/eu/fbk/trec/andweight/utils/HexUtil.java:22-39 | the result depends only on the low nibble: it is the nibble's digit in "0123456789ABCDEF" |
| HexUtil.ToHexString | src/eu/fbk/trec/andweight/utils/HexUtil.java:41-43 | exactly two characters: the digit of `b >> 4`, then the digit of `b` |
| HexUtil.HexCharRoundTrip | src/eu/fbk/trec/andweight/utils/HexUtil.java:22-39 | reading the digit back gives the nibble, for every nibble 0..15 |
| HexUtil.HexStringRoundTrip | src/eu/fbk/trec/andweight/utils/HexUtil.java:41-43 | for an unsigned byte the two digits read back as that byte |
| HexUtil.Dump | src/eu/fbk/trec/andweight/utils/HexUtil.java:49-62 | RuntimeException exactly when `firstN` exceeds the buffer length; otherwise the dump text of the first `firstN` bytes (none for a negative `firstN`) |
| HexUtil.DumpText | src/eu/fbk/trec/andweight/utils/HexUtil.java:54-61 | definition of the text dump builds: opening with "[ " and closing with "]"; its length and cells are in DumpLength and DumpAt |
| HexUtil.DumpAll | src/eu/fbk/trec/andweight/utils/HexUtil.java:45-47 | `dump(bb)` never fails, is the dump text of all of `bb` and has length 3n+3 |
| HexUtil.DumpLength | src/eu/fbk/trec/andweight/utils/HexUtil.java:54-61 | a dump of n bytes has length 3n+3, starts with "[ " and ends with "]" |
| HexUtil.DumpAt | src/eu/fbk/trec/andweight/utils/HexUtil.java:55-58 | byte i sits at offset 2+3i as its two hex digits and a space, and those digits read back as `bb[i] & 0xff` |
| HexUtil.AsciiDump | src/eu/fbk/trec/andweight/utils/HexUtil.java:72-97 | RuntimeException exactly when `firstN` exceeds the buffer length; otherwise the ascii text of the first `firstN` bytes |
| HexUtil.AsciiCell | src/eu/fbk/trec/andweight/utils/HexUtil.java:79-90 | the switch of ascii: always two characters, "LF" exactly for 0x0A and "CR" exactly for 0x0D |
| HexUtil.AsciiText | src/eu/fbk/trec/andweight/utils/HexUtil.java:77-96 | definition of the text ascii builds: opening with "[ " and closing with "]"; its length and cells are in AsciiCellsLength and AsciiAt |
| HexUtil.AsciiDumpAll | src/eu/fbk/trec/andweight/utils/HexUtil.java:68-70 | `ascii(bb)` never fails and is the ascii text of all of `bb` |
| HexUtil.AsciiCellsLength | src/eu/fbk/trec/andweight/utils/HexUtil.java:78-93 | every byte contributes exactly three characters to the ascii view |
| HexUtil.AsciiAt | src/eu/fbk/trec/andweight/utils/HexUtil.java:77-96 | the ascii view has length 3n+3; byte i sits at offset 2+3i as "LF ", "CR " or a space, its char and a space |
| HexUtil.IntFromAsciiHex | src/eu/fbk/trec/andweight/utils/HexUtil.java:64-66 | succeeds exactly for the bytes '0'..'9', with value `b - '0'`; any other byte, hex letters included, gives NumberFormatException |
| InPackets.MarkersAreAscii | src/eu/fbk/trec/andweight/model/InPacket.java:96-123 | the byte markers of the two control packets are the ASCII texts "PWRQPI," and "PWCAPI" |
| InPackets.UnitsAreAscii | src/eu/fbk/trec/andweight/model/InPacket.java:330-335 | the unit markers the weight switch compares against are the ASCII texts "kg" and "lb" |
| InPackets.MasksUndoSignExtension | src/eu/fbk/trec/andweight/model/InPacket.java:208 | the two masks remove the sign-extension bits, leaving the high byte shifted by 8 joined with the low byte |
| InPackets.YearOfBitsValue | src/eu/fbk/trec/andweight/model/InPacket.java:208 | the masked year expression has the value `256 * hi + lo` of its two 8-bit inputs |
| InPackets.YearIsLittleEndian | src/eu/fbk/trec/andweight/model/InPacket.java:208 | the year is `(b[10] & 0xff) * 256 + (b[9] & 0xff)`, always in 0..65535 |
| InPackets.InPacket.GetType | src/eu/fbk/trec/andweight/model/InPacket.java:178-196 | REQUEST_PATIENT_INFO iff 9 bytes starting "PWRQPI,"; CANNOT_WAIT iff exactly "PWCAPI"; WEIGHT iff `isWeight`; DATA_NOT_WEIGHT iff `isData` and not `isWeight` |
| InPackets.InPacket.MeasureDate | src/eu/fbk/trec/andweight/model/InPacket.java:203-219 | fails with a PacketExpection exactly when the packet is not data; otherwise the year is the little-endian unsigned value of bytes 9 and 10, within 0..65535, and month, day, hour, minute and second are bytes 11..15 read as signed bytes |
| InPackets.InPacket.TransmissionDate | src/eu/fbk/trec/andweight/model/InPacket.java:226-242 | fails with a PacketExpection exactly when the packet is not data; otherwise the year is the little-endian unsigned value of bytes 16 and 17, within 0..65535, and month, day, hour, minute and second are bytes 18..22 read as signed bytes |
| InPackets.InPacket.WeightOf | src/eu/fbk/trec/andweight/model/InPacket.java:280-351 | a weight or an invalid measure comes only from a WEIGHT packet; a weight needs status 'T' or 'L' and a parsable text, carries bytes 63..69, and is kept as is iff the unit is "kg" and converted iff "lb" |
| InPackets.CandidatesAreExclusive | src/eu/fbk/trec/andweight/model/InPacket.java:178-196 | no packet passes two of the candidate tests, so their order does not change the type |
| InPackets.NotDataIsNeverWeight | src/eu/fbk/trec/andweight/model/InPacket.java:128-150 | a packet shorter than 60 bytes, without 0x02 first or without 0x42 0x01 at offset 6 is neither DATA_NOT_WEIGHT nor WEIGHT |
| InPackets.WeightRefinesData | src/eu/fbk/trec/andweight/model/InPacket.java:155-173 | a weight packet is a data packet of 81 bytes with 0x00 0x15 at offset 1 and 'S' at offset 60, so its measure date always exists |
| InPackets.WeightOutcomes | src/eu/fbk/trec/andweight/model/InPacket.java:280-345 | getWeight's outcomes in the order the source checks them: not a weight, status 'E', an unknown status, then a text parseFloat rejects (NumberFormatException, before the unit is looked at), then the unit with "kg" unchanged and "lb" converted |
| InPackets.InPacket.IsRequestPatientInfo | src/eu/fbk/trec/andweight/model/InPacket.java:96-106 | definition of isRequestPatientInfo: exactly 9 bytes starting with the "PWRQPI," marker; used by GetType |
| InPackets.InPacket.IsCannotWait | src/eu/fbk/trec/andweight/model/InPacket.java:113-123 | definition of isCannotWait: exactly the "PWCAPI" marker |
| InPackets.InPacket.IsData | src/eu/fbk/trec/andweight/model/InPacket.java:128-150 | definition of isData: a data packet has a full header and the model bytes 0x42 0x01 at offset 6, so it is never one of the two control packets; further properties in NotDataIsNeverWeight |
| InPackets.InPacket.IsWeight | src/eu/fbk/trec/andweight/model/InPacket.java:155-173 | definition of isWeight: a weight packet is a data packet of 81 bytes with 0x00 0x15 at offset 1 and the 'S' sub-frame marker at 60; further properties in WeightRefinesData |
| InPackets.InPacket.DateAt | src/eu/fbk/trec/andweight/model/InPacket.java:208-213 | the year is the little-endian unsigned value of the two bytes at the offset; the other five fields are the next five bytes read as signed bytes (the same reads for the transmission date at lines 231-236) |
| InPackets.SplitChunk | src/eu/fbk/trec/andweight/model/InPacket.java:58-74 | a chunk becomes either the one packet of all its bytes, or a 6-byte packet followed by the rest; lossless by SplitChunkIsLossless |
| InPackets.SplitChunkCases | src/eu/fbk/trec/andweight/model/InPacket.java:58-74 | a chunk that starts with 'P' and is longer than 9 bytes is split into bytes 0..5 and the rest; any other chunk is one packet |
| InPackets.SplitChunkIsLossless | src/eu/fbk/trec/andweight/model/InPacket.java:55-74 | splitting yields one or two packets whose concatenation is the chunk |
| InPackets.NewInPacket | src/eu/fbk/trec/andweight/model/InPacket.java:88-91 | the packet holds a copy of the first `length` bytes of the buffer |
| InPackets.ParseStream | src/eu/fbk/trec/andweight/model/InPacket.java:51-78 | the packets made of the first `length` bytes are the split of that chunk |
| InPackets.GetPatientNumber | src/eu/fbk/trec/andweight/model/InPacket.java:249-269 | a PacketExpection unless the packet is a weight; otherwise the parse of exactly bytes 77..78, or NumberFormatException |
| InPackets.GetWeight | src/eu/fbk/trec/andweight/model/InPacket.java:280-351 | the method computes exactly `WeightOf`, so the re-check of 'S' and the ArrayIndexOutOfBounds handler are never reached |
| Session.Dispatch | src/eu/fbk/trec/andweight/service/ConnectionThread.java:83-133 | the switch of run(): only a parseFloat failure, and only as written, aborts the loop; a measurement comes only from a WEIGHT packet and carries getWeight's result; full table in DispatchByType |
| Session.DispatchByType | src/eu/fbk/trec/andweight/service/ConnectionThread.java:83-133 | control packets are ignored iff REQUEST_PATIENT_INFO or CANNOT_WAIT; invalid iff getWeight throws InvalidMeasureException; aborted iff, as written, parseFloat throws; measured iff the packet yields a measurement |
| Session.PacketEffects | src/eu/fbk/trec/andweight/service/ConnectionThread.java:83-133 | control packets leave the state unchanged; DATA_NOT_WEIGHT, UNKNOWN and a rejected weight add one onError; an invalid measure adds one onInvalidMeasure; none appends or writes |
| Session.MeasuredEffects | src/eu/fbk/trec/andweight/service/ConnectionThread.java:93-112 | an accepted weight adds onWeight, is appended and is acknowledged with ACCEPTED_NO_DISCONNECT; a failed write leaves the loop with the weight appended and nothing written |
| Session.AcceptedIsWeight | src/eu/fbk/trec/andweight/service/ConnectionThread.java:94-100 | a packet yields a measurement iff getWeight succeeds, and the measurement pairs that weight with the measure date |
| Session.MeasurementsAreAccepted | src/eu/fbk/trec/andweight/service/ConnectionThread.java:79-133 | the measurements among the outcomes of a packet list are its accepted weights, in order, under either policy |
| Session.Apply | src/eu/fbk/trec/andweight/service/ConnectionThread.java:84-138 | the effect of one case of the switch: the log, the weight list and the output only grow, and only an abort or a failed ACK write leaves the loop; the per-outcome effects are in PacketEffects and MeasuredEffects |
| Session.ApplyAll | src/eu/fbk/trec/andweight/service/ConnectionThread.java:79-134 | the for loop over the outcomes of a chunk: a state that has left the loop is returned unchanged, and the log, the weight list and the output only grow; further properties in LeftLoopStaysLeft and HandlePackets |
| Session.HandleRead | src/eu/fbk/trec/andweight/service/ConnectionThread.java:64-139 | one pass of the while loop: a state that has left the loop is unchanged, a failed read leaves the loop with nothing else changed, and the log, the weight list and the output only grow |
| Session.HandleReads | src/eu/fbk/trec/andweight/service/ConnectionThread.java:64-141 | the while loop over the reads: once the loop has been left, further reads change nothing; properties in InvHandleReads and WeightsInArrivalOrder |
| Session.Finalise | src/eu/fbk/trec/andweight/service/ConnectionThread.java:143-155 | after the loop: weights, output and writes unchanged, and unless the thread crashed, exactly onWeightList with the list, the socket close and onDisonnect are appended |
| Session.Run | src/eu/fbk/trec/andweight/service/ConnectionThread.java:56-158 | the finalisation writes nothing and keeps the weight list and the way the loop ended; properties in FinalisedOnceInOrder, RepliesAreAcks and OnlyIoExceptionsEndTheLoop |
| Session.InvHandleReads | src/eu/fbk/trec/andweight/service/ConnectionThread.java:64-141 | after any reads the log only extends the initial one with loop callbacks, the weight list is what onWeight announced, and the output is one ACK per written weight |
| Session.FinalisedOnceInOrder | src/eu/fbk/trec/andweight/service/ConnectionThread.java:143-155 | unless the thread crashed, the session ends with onWeightList, the socket close and onDisonnect, once each, after every loop callback; a crashed thread makes only loop callbacks |
| Session.RepliesAreAcks | src/eu/fbk/trec/andweight/service/ConnectionThread.java:100-107 | the output is whole ACCEPTED_NO_DISCONNECT replies, one per weight, one fewer when a write failed |
| Session.WeightListIsAnnounced | src/eu/fbk/trec/andweight/service/ConnectionThread.java:101-102 | the list handed to onWeightList is exactly the weights announced through onWeight, in order |
| Session.WeightsInArrivalOrder | src/eu/fbk/trec/andweight/service/ConnectionThread.java:64-141 | the weight list is a prefix of the accepted weights of all packets read, in arrival order, and all of them while the loop goes on |
| Session.LeftLoopStaysLeft | src/eu/fbk/trec/andweight/service/ConnectionThread.java:79-139 | once an exception has left the for loop, the remaining packets of the chunk change nothing |
| Session.LeftLoopIgnoresReads | src/eu/fbk/trec/andweight/service/ConnectionThread.java:64-139 | once the while loop has been left, later reads change nothing |
| Session.NoAbortWhenParsed | src/eu/fbk/trec/andweight/service/ConnectionThread.java:93-121 | no packet aborts the loop when every weight text parses, or when the parse failure is reported |
| Session.OnlyIoExceptionsEndTheLoop | src/eu/fbk/trec/andweight/service/ConnectionThread.java:64-139 | over reads that never fail, into a stream that takes every reply, malformed, invalid, unknown and control packets never end the loop, provided every weight text parses or parse failures are reported |
| Session.WeightFrameRead | src/eu/fbk/trec/andweight/service/ConnectionThread.java:67-107 | a read of one weight frame is one packet, handled as its measurement |
| Session.WeightAcknowledged | src/eu/fbk/trec/andweight/service/ConnectionThread.java:93-107 | a weight frame read while writes succeed appends the weight, adds onWeight and writes one ACK, and the loop goes on |
| Session.TwoWeightsThenDisconnect | src/eu/fbk/trec/andweight/service/ConnectionThread.java:56-158 | two weight frames and then an IOException give onWeight twice, onWeightList with both weights in arrival order, the close and onDisonnect, and two ACKs |
| Session.NumberFormatKillsSession | src/eu/fbk/trec/andweight/service/ConnectionThread.java:93-121 | as written, one weight frame whose text parseFloat rejects crashes the thread with no event at all: no onWeightList, no close, no onDisonnect |
| Session.NumberFormatReportedKeepsSession | src/eu/fbk/trec/andweight/service/ConnectionThread.java:113-119 | reported like a malformed packet, the same frame gives one onError and the session is finalised with an empty list |
| Service.ConnectionThread.constructor | src/eu/fbk/trec/andweight/service/ConnectionThread.java:41-54 | the new thread has announced itself through onNewThread and has written nothing |
| Service.ConnectionThread.Read | src/eu/fbk/trec/andweight/service/ConnectionThread.java:67 | a read consumes one result: an IOException, or its bytes at the front of the buffer with their count in 1..500 |
| Service.ConnectionThread.Write | src/eu/fbk/trec/andweight/service/ConnectionThread.java:106-107 | a write succeeds iff the stream still accepts one; it then appends the bytes, and otherwise changes nothing |
| Service.ConnectionThread.Close | src/eu/fbk/trec/andweight/service/ConnectionThread.java:147-152 | closing records exactly one socket close |
| Service.ConnectionThread.HandlePacket | src/eu/fbk/trec/andweight/service/ConnectionThread.java:83-133 | one pass of the switch leaves the state the packet's dispatch outcome prescribes |
| Service.ConnectionThread.HandlePackets | src/eu/fbk/trec/andweight/service/ConnectionThread.java:79-134 | the for loop leaves the state of the packets' outcomes applied in order until one leaves the loop |
| Service.ConnectionThread.Run | src/eu/fbk/trec/andweight/service/ConnectionThread.java:56-158 | run() writes, logs and consumes writes exactly as `Session.Run` over the reads it started with, and reports a crash exactly when an exception escaped |

## Left out

- Logging is not modelled. This covers every `Log.*` call, `InPacket.toString()`, and
  the `HexUtil` texts built for log lines and exception messages. `dump` and `ascii`
  themselves are modelled. In `run()` their `firstN` is at most the buffer length, so
  they never throw there.
- `Float.parseFloat`, `weight * 0.453592f` and the rounding to one decimal are not
  computed. The weight is kept as its 7 bytes, tagged as kilograms or as pounds to
  convert. Which texts `parseFloat` accepts is the parameter `floatSyntax`, which also
  covers the default-charset decoding of `new String(weightBytes)`.
- `Integer.parseInt` of the patient number, with the decoding of its two bytes, is the
  parameter `parseInt` of `GetPatientNumber`.
- `Calendar` and `Date` are not modelled: a date is the six raw integer fields.
- The Bluetooth socket, its streams and `isConnected()` are abstract. The socket is
  connected while reads remain. `flush()` is part of the write.
- A `read` that returns -1 (end of stream) is not modelled; every chunk has 1 to 500
  bytes. As written, -1 would reach `new byte[-1]` in `parseStream`. The stream of a
  Bluetooth socket reports a closed connection with an IOException, which is
  modelled.
- The constructor's null checks and the IOExceptions of `getInputStream` and
  `getOutputStream` are not modelled: the constructor receives the abstract socket.
- A failed `socket.close()` is only logged, so `Close` always records the close.
- The listener, the service, the UI files, the acceptor thread and thread
  interruption are outside the core.
- Service.ConnectionThread.Run: models the source as written, so it uses the
  `AsWritten` policy. The corrected dispatch is the `NumberFormatReported` policy
  of `Session`. Every `Session` lemma except the two `NumberFormat…` scenario lemmas
  is stated for either policy.

## Findings

| source | as written | input that shows it | evidently intended | confidence | as-written member | corrected member |
|---|---|---|---|---|---|---|
| src/eu/fbk/trec/andweight/service/ConnectionThread.java:93-121 | the NumberFormatException that `Float.parseFloat` throws in `getWeight` (InPacket.java:324) is caught by neither catch clause of the WEIGHT case nor by the IOException handler, so it ends the thread without `onWeightList`, `socket.close()` or `onDisonnect()` | an 81-byte weight frame with status 'T' and unit "kg" whose 7-byte weight text is not a number, e.g. "---.---" | a malformed weight is reported through `onError` like any other malformed packet, and only an IOException ends the session | not executed | Session.NumberFormatKillsSession | Session.NumberFormatReportedKeepsSession |
