# mbpcap capture core in Dafny

mbpcap reads a serial line and writes the bytes it sees to a libpcap capture
file. Bytes arriving in chunks are collected in a buffer until the line has
been silent for a threshold time, and then the buffer is flushed:

- In raw mode the whole buffer becomes one capture record (link type USER0, 147).
- In Modbus mode the buffer is cut into Modbus RTU frames. Each frame is written
  as its own record (link type RTAC serial, 250), behind a 12-byte RTAC serial
  prefix. The prefix carries the frame's time and its direction as the event
  type. Bytes that do not complete a frame are carried into the next flush.
  There one of three things happens to them. They are dropped if they are too
  old. They are dropped as well if the new buffer yields a frame on its own.
  Otherwise they are retried in front of the new buffer.

The model has one module per concern:

| module | file | models |
|---|---|---|
| `Wrappers` | wrappers.dfy | `Option` and `Result` |
| `Bytes` | bytes.dfy | octets; 16- and 32-bit unsigned integers in either byte order |
| `Modbus` | modbus.dfy | directions, frames, the frame-length/direction table, `FrameLen`, the CRC placeholder |
| `Splitter` | splitter.dfy | the backtracking exact split (`splitFrom`, `SplitFrames`), which split it returns when there are several, and the greedy partial split (`SplitFramesPartial`) |
| `Pcap` | pcap.dfy | the capture file writer (global header, record header), and a reader for the same layout used as its inverse |
| `Settings` | settings.dfy | parity and stop-bit parsing, bits per character, wire time, the silence threshold |
| `Capture` | capture.dfy | the RTAC prefix, chunk arrival, and the flush in both modes |
| `Vectors` | vectors.dfy | the frames of the decoder's tests, and a response split across two silence windows |

Modelling choices:

- Time is an integer count of nanoseconds since the Unix epoch. Go's zero
  `time.Time` is the constant `Capture.ZeroTime`.
- The splitter is written over an abstract candidate table, a function from
  bytes to candidates. Its correctness lemmas need every candidate length to
  be positive. The greedy and partial-split members (`Splitter.GreedyIsGreedyTiling`,
  `Splitter.GreedyUnique`, `Splitter.PartialSplit`, `Splitter.PartialPrefersExact`
  and `Splitter.PartialFallsBackToGreedy`) also need the table to give no
  candidate for empty input. `Modbus.FrameCandidates` is the instance used, and it has both
  properties. A Go `nil` accumulator is `None`.
- The wire time of a run of bytes is a parameter of the capture
  configuration. Lemmas that need it require it to be zero for no bytes and
  monotone. `Settings.ByteWireTime` is the concrete instance,
  `n * bits * 10^9 / baud` in exact arithmetic, and it is proved valid.
- Whether each write succeeds is an input: a list of write outcomes per flush.
  Writes beyond the list succeed.
- The capture file's byte order and link type are parameters of the writer.
  `Pcap.NewWriter` is the header pkg/pcap/writer.go writes: little-endian,
  link type 147. main.go:156-166 chooses the byte order and the link type and
  passes them to the writer; `Pcap.GlobalHeader` and `Pcap.WritePacket` take
  them as arguments.

Where the comments and the code disagree, the model follows the code:

- The comment at main.go:309 says the fallback record includes "any stale
  remainder". The code already dropped a stale remainder at main.go:244-250,
  so the fallback record never contains one (`Capture.StaleRemainderIgnored`).
- A remainder carried by the last flush is never written out. A final flush
  with an empty buffer does nothing (main.go:232-234), so it does not drain
  the remainder.

## Model

| member | source | states |
|---|---|---|
| Modbus.DirectionCode | pkg/decoder/modbus.go:5-11 | the direction byte is 0, 1 or 2, and each value names exactly one direction, so the byte can serve as the RTAC event type |
| Modbus.FrameCandidates | pkg/decoder/modbus.go:31-62 | no candidate exactly when the function code is unknown or the bytes are too short; at most two candidates, each 5 to 264 bytes; two candidates differ in length and put the request first |
| Modbus.FrameCandidatesTable | pkg/decoder/modbus.go:31-62 | each function-code class gives its row: reads give an 8-byte request and, when 5 + byte count differs from 8, a response of that length; single writes give 8 bytes of unknown direction; multiple writes give a 9 + byte-count request or an 8-byte response; exceptions give a 5-byte response |
| Modbus.FrameLen | pkg/decoder/modbus.go:68-74 | the result is -1 exactly when no length can be determined; otherwise it is the request length of the class (8, or 9 + byte count) or 5 for exceptions |
| Modbus.ValidCRC | pkg/decoder/modbus.go:76-80 | no contract of its own: it accepts every frame, as the source's placeholder does |
| Splitter.ModbusTableAdvances | pkg/decoder/modbus.go:31-62 | every Modbus candidate has a positive length, so the splitter always advances |
| Splitter.ConcatAppend | pkg/decoder/modbus.go:142-168 | the bytes of two runs of frames laid end to end are the bytes of each run in turn |
| Splitter.SplitFrom | pkg/decoder/modbus.go:142-168 | no contract of its own: the search is stated by `Splitter.SplitFromSound`, `Splitter.SplitFromComplete` and `Splitter.SplitFromDepthFirst` |
| Splitter.TryCandidates | pkg/decoder/modbus.go:152-167 | no contract of its own: the loop over one position's candidates is stated by `Splitter.TryCandidatesSound`, `Splitter.TryCandidatesComplete` and `Splitter.TryCandidatesDepthFirst` |
| Splitter.SplitFromSound | pkg/decoder/modbus.go:142-168 | a result of the backtracking split extends the accumulator with frames that tile the rest of the input exactly, each frame a candidate reading at its position |
| Splitter.TryCandidatesSound | pkg/decoder/modbus.go:152-167 | the same soundness, for trying the candidates at one position in order |
| Splitter.SplitFromComplete | pkg/decoder/modbus.go:142-168 | if any exact tiling of the rest of the input exists, the backtracking split finds one |
| Splitter.TryCandidatesComplete | pkg/decoder/modbus.go:152-167 | if a tiling begins with one of the candidates tried, trying those candidates succeeds |
| Splitter.SplitExactComplete | pkg/decoder/modbus.go:89-95 | the exact split succeeds exactly when the input is non-empty and has a tiling by candidate frames |
| Splitter.SplitFrames | pkg/decoder/modbus.go:89-95 | the frames' bytes are the input, and the result is either a valid tiling or the whole input as one frame of unknown direction |
| Splitter.SplitFramesExact | pkg/decoder/modbus.go:89-95 | the result is a valid tiling exactly when one exists; otherwise it is the single unknown frame |
| Splitter.FirstLive | pkg/decoder/modbus.go:152-167 | the candidate the depth-first search settles on is one of those offered, fits in the remaining bytes, and leaves bytes that can still be split exactly |
| Splitter.SplitFromLive | pkg/decoder/modbus.go:142-168 | with a non-nil accumulator the search succeeds exactly when the rest of the input can be split exactly |
| Splitter.SplitFromDepthFirst | pkg/decoder/modbus.go:142-168 | a result of the search is the accumulator followed by the depth-first split of the rest: at each position, the first candidate in table order from which the rest can still be split exactly |
| Splitter.TryCandidatesDepthFirst | pkg/decoder/modbus.go:152-167 | trying the candidates in order, skipping those that do not fit and those whose recursive split fails, lands on the first candidate from which the rest can be split |
| Splitter.DepthFirstIsValid | pkg/decoder/modbus.go:142-168 | a depth-first split is an exact split |
| Splitter.DepthFirstUnique | pkg/decoder/modbus.go:142-168 | there is at most one depth-first split from a position, so the search's result is determined by the bytes alone |
| Splitter.SplitFramesDepthFirst | pkg/decoder/modbus.go:89-95 | when a non-empty buffer can be split exactly, the result is its depth-first split, with the request reading tried before the response reading, and it is the only split with that property |
| Splitter.FirstFitNone | pkg/decoder/modbus.go:111-129 | no candidate is chosen exactly when none fits in the remaining bytes |
| Splitter.FirstFitEarliest | pkg/decoder/modbus.go:116-126 | the candidate chosen is the first that fits, in table order |
| Splitter.Greedy | pkg/decoder/modbus.go:107-130 | the greedy loop stops between its start and the end of the input; what it takes is stated by `Splitter.GreedyIsGreedyTiling` and `Splitter.GreedyUnique` |
| Splitter.GreedyIsGreedyTiling | pkg/decoder/modbus.go:108-130 | the greedy loop takes the first fitting candidate at each position, and it stops only where none fits |
| Splitter.GreedyUnique | pkg/decoder/modbus.go:108-130 | the greedy loop's result is the only first-fit tiling that stops where nothing fits |
| Splitter.GreedyTilesAreTiles | pkg/decoder/modbus.go:108-130 | frames from the greedy loop are consecutive candidate readings of the input |
| Splitter.SplitFramesPartial | pkg/decoder/modbus.go:101-138 | the frames followed by the remainder are exactly the input; there is no remainder exactly when the frames cover the input; a remainder is never empty; the frames are consecutive candidate readings from the start |
| Splitter.PartialSplit | pkg/decoder/modbus.go:101-138 | for any table with positive lengths and no candidate for empty input: the frames followed by the remainder are the input, the remainder is absent exactly when the frames cover the input and is never empty, and the frames are consecutive candidate readings |
| Splitter.PartialPrefersExact | pkg/decoder/modbus.go:102-105 | when an exact tiling exists, the partial split returns the exact split's frames and no remainder |
| Splitter.PartialFallsBackToGreedy | pkg/decoder/modbus.go:107-137 | otherwise, the partial split returns the greedy frames, followed by whatever they leave over as the remainder |
| Bytes.GetPutU32 | pkg/pcap/writer.go:46-64 | reading back a 32-bit field gives the value written, in either byte order |
| Bytes.PutGetU32 | pkg/pcap/writer.go:46-64 | every four bytes are the encoding of the value they decode to |
| Pcap.TsSec | pkg/pcap/writer.go:54 | the seconds field fits 32 bits, and within that range it is the whole seconds of the timestamp |
| Pcap.TimestampMicrosecondRoundTrip | pkg/pcap/writer.go:54-55 | seconds and microseconds together give back the timestamp, less its sub-microsecond part |
| Pcap.GlobalHeader | pkg/pcap/writer.go:23-43 | the header is 24 bytes; its fields are stated by `Pcap.GlobalHeaderFields` and, for the writer's own byte order and link type, `Pcap.NewWriter` |
| Pcap.GlobalHeaderFields | pkg/pcap/writer.go:23-43 | a reader of the same byte order finds the magic number, version 2.4, zero time zone and accuracy, snapshot length 65535 and the link type at their offsets |
| Pcap.NewWriter | pkg/pcap/writer.go:23-43 | the header is the 24 little-endian bytes d4 c3 b2 a1, 2 0, 4 0, eight zero bytes, ff ff 0 0, 147 0 0 0 |
| Pcap.WritePacket | pkg/pcap/writer.go:46-64 | a record is a 16-byte header followed by the payload, unchanged |
| Pcap.WritePacketFields | pkg/pcap/writer.go:46-64 | the record header holds the seconds, the microseconds (below 10^6) and two equal length fields, which give the payload length when it fits 32 bits |
| Pcap.RecordsLength | pkg/pcap/writer.go:46-64 | the records of a run of packets take 16 bytes per packet plus the payloads |
| Pcap.ReadRecordsRoundTrip | pkg/pcap/writer.go:46-64 | reading the records of a packet list gives back each packet's seconds, microseconds and payload, in order |
| Pcap.ReadStreamRoundTrip | pkg/pcap/writer.go:23-64 | reading a whole written file gives back its byte order, link type and packets |
| Pcap.ByteOrderDistinguishable | pkg/pcap/writer.go:39 | the magic number tells the two byte orders apart |
| Pcap.RecordAtOffset | pkg/pcap/writer.go:46-64 | in a written file, record k starts after the 24-byte header and the records before it, and holds exactly packet k's record |
| Pcap.RecordsAppend | pkg/pcap/writer.go:46-64 | writing two runs of packets one after another writes the records of each run in turn |
| Settings.ParseParity | main.go:27-42 | exactly the five lower-case names are accepted, each giving the parity of that name; any other name is rejected with the name |
| Settings.ParseParityName | main.go:27-42 | parsing the name of a parity gives the parity back |
| Settings.ParseStopBits | main.go:44-53 | only 1 and 2 are accepted, each giving the setting of that count; any other count is rejected with the count |
| Settings.CharBits | main.go:57-64 | one start bit, the data bits and the stop bits, plus a parity bit exactly when the parity is not "none" |
| Settings.CharBitsOfSettings | main.go:57-64 | for accepted settings a character is 7 to 12 bits, with an extra bit for every parity but none |
| Settings.ByteWireTimeValid | main.go:280-288 | the wire time of n bytes is zero for no bytes and never decreases as n grows |
| Settings.DefaultSilence | main.go:66-71 | the threshold is 3.5 character times truncated to whole nanoseconds |
| Settings.ModbusSilence | main.go:73-79 | the threshold is the wire time of 256 characters, truncated to whole nanoseconds, plus 25 ms |
| Settings.SilenceThreshold | main.go:181-189 | a positive override wins, and is truncated to whole nanoseconds; otherwise Modbus mode takes the frame-time threshold and raw mode the 3.5-character one |
| Settings.ModbusSilenceExceedsDefault | main.go:66-79 | for valid settings the Modbus threshold is longer than the 3.5-character one |
| Capture.RtacHeader | main.go:83-89 | the prefix is 12 bytes: the event type at byte 8, then three zero bytes |
| Capture.RtacHeaderFields | main.go:83-89 | the first eight bytes decode, big-endian, to the timestamp's seconds and microseconds |
| Capture.OnChunk | main.go:352-356 | the chunk is appended to the buffer; the first-byte time is the chunk's time when the buffer was empty and is otherwise kept; nothing else changes |
| Capture.DeliverAccumulates | main.go:352-356 | across several chunks the buffer accumulates their bytes in order, and a first-byte time already set is kept; into an empty buffer, a first chunk that carries bytes sets it to that chunk's time; nothing else in the state changes |
| Capture.ParseFlush | main.go:252-267 | the parsed bytes are partially split; they are the remainder followed by the buffer, timed from the remainder, exactly in the retry case; otherwise they are the buffer, timed from its first byte |
| Capture.ParsedInput | main.go:244-267 | a retry happens exactly when a remainder exists, is no older than the threshold, and the buffer alone yields no frame |
| Capture.StaleRemainderIgnored | main.go:244-250 | a stale remainder plays no part: the flush parses as if there were none |
| Capture.FramingBufferDropsRemainder | main.go:256-267 | a buffer that yields a frame on its own is parsed alone, from its own first byte, and any earlier remainder is discarded |
| Capture.Encapsulate | main.go:290 | the packet keeps the record's time, and its payload is the RTAC prefix for the record's direction followed by the frame bytes |
| Capture.RecordCarriesPrefix | main.go:290-291 | in a Modbus record the capture header and the RTAC prefix carry the same seconds and microseconds, the event type is the direction, and the frame bytes follow |
| Capture.FrameTime | main.go:280-289 | no contract of its own: frame times are stated by `Capture.FrameTimesOrdered` |
| Capture.ModbusRecords | main.go:269-328 | no contract of its own: the records are stated by `Capture.ModbusRecordsFollowFrames` (one per frame, with its direction, bytes and time), `Capture.ModbusFlushNoFrames` (one unknown record when nothing parses), `Capture.ModbusConservesBytes`, `Capture.ModbusRecordsOrdered` and `Capture.RecordCarriesPrefix` |
| Capture.Carried | main.go:268-279 | no contract of its own: the carried remainder is stated by `Capture.ModbusFlushNoFrames` (nothing is carried when nothing parses), `Capture.ModbusConservesBytes` and `Capture.FlushCarries` |
| Capture.ModbusRecordsFollowFrames | main.go:280-292 | when frames were found there is one record per frame, and record i has frame i's direction and bytes and frame i's time |
| Capture.RecordDirectionsAreFrameDirections | main.go:280-306 | counting the records from position k by direction gives the number of frames from k of that direction |
| Capture.ModbusFlushCounts | main.go:280-306 | a Modbus flush that found frames and meets no broken pipe counts each frame once, and each direction's counter grows by the number of frames read with that direction, whether their writes succeeded or failed |
| Capture.ModbusFlushNoFrames | main.go:308-328 | when nothing parses, the record holds the surviving remainder followed by the buffer, stamped with the remainder's time when one survives and otherwise the buffer's first-byte time; nothing is carried; a broken pipe at that one write leaves the counters and the buffer alone; otherwise the packet is counted once, as unknown, the request and response counters are unchanged and the buffer is cleared; a successful write appends exactly that record's packet, a failed one appends nothing |
| Capture.ModbusConservesBytes | main.go:269-328 | the record bodies followed by the carried remainder are exactly the parsed bytes |
| Capture.FrameTimesOrdered | main.go:280-289 | frame times start at the base time, never decrease, and never pass the end of the frames on the wire |
| Capture.ModbusRecordsOrdered | main.go:269-328 | the records of a flush are in time order, and none is later than the carried remainder's time |
| Capture.FirstBroken | main.go:280-295 | the index found is the first broken-pipe outcome among the writes, or the end when there is none |
| Capture.Emit | main.go:280-306 | no contract of its own: the write loop is stated by `Capture.EmitBounds`, `Capture.EmitOutcome` and `Capture.EmitUpToDirection` |
| Capture.EmitBounds | main.go:280-306 | writes only append; at most one packet is kept per record counted, and no more records are counted than there are; the direction counters stay balanced |
| Capture.EmitOutcome | main.go:280-306 | the write loop stops early exactly when some write breaks the pipe; every record before the first broken pipe is counted, and exactly the successfully written ones are appended, in order; each direction's counter grows by the number of those records of that direction |
| Capture.EmitUpToDirection | main.go:298-306 | the request, response and unknown counters each grow by exactly the number of records of that direction before the first broken pipe, whether their writes succeeded or failed |
| Capture.EmitWriteFailed | main.go:290-298 | a failed write that is not a broken pipe appends nothing, still counts the record, and the loop continues with the next record |
| Capture.EmitNoBrokenPipe | main.go:280-306 | without a broken-pipe outcome the loop never stops early |
| Capture.EmitAllWritten | main.go:280-306 | when every write succeeds, every record's packet is appended in order and counted once |
| Capture.EmitBrokenAtOnce | main.go:291-295 | a broken pipe at the first write writes and counts nothing |
| Capture.Flush | main.go:231-341 | an empty buffer is left alone; the buffer is cleared unless a Modbus flush met a broken pipe, and always when no write breaks the pipe, failed writes included; a broken pipe stays broken; the first-byte time is kept; raw mode keeps the remainder; the file only grows, by at most one packet per count |
| Capture.FlushConservesBytes | main.go:269-328 | whatever the writes do, a Modbus flush accounts for every parsed byte, in a record body or in the carried remainder |
| Capture.FlushKeepsBalance | main.go:298-306 | every packet counted in Modbus mode is counted in exactly one direction |
| Capture.ModbusFlushAllWritten | main.go:269-340 | with all writes succeeding, a Modbus flush appends and counts every record, clears the buffer and carries what the parse left over |
| Capture.FlushCarries | main.go:268-279 | whatever the writes do, a Modbus flush of a non-empty buffer carries what its parse left over |
| Capture.FlushBrokenPipe | main.go:280-306 | when write j is the first to break the pipe, the j records before it are counted and the successfully written ones appended; Modbus mode keeps the buffer and has already replaced the remainder; raw mode (main.go:329-335) drops the buffer and counts nothing |
| Capture.RawFlushWritten | main.go:329-340 | a successful raw flush appends one record holding the whole buffer, stamped with its first-byte time, counts it without touching the direction counters, clears the buffer and leaves the pipe state alone |
| Capture.RawFlushFailed | main.go:329-340 | a raw flush whose write fails with an error other than a broken pipe counts the packet, appends nothing, changes no other counter, clears the buffer and leaves the pipe state alone |
| Capture.FlushAppendsRecords | main.go:231-341 | the capture file after a flush is the file before it followed by the records of the new packets |
| Vectors.SplitRequestResponse | pkg/decoder/modbus_test.go:85-106 | the request and response of the test vectors split into a request frame and a response frame |
| Vectors.SplitSingleRequest | pkg/decoder/modbus_test.go:108-119 | the request alone splits into one request frame |
| Vectors.SplitRequestResponseRequest | pkg/decoder/modbus_test.go:135-164 | request, response, request split into those three frames with those directions, after backtracking out of reading the response as a request |
| Vectors.SplitPrefersRequestReading | pkg/decoder/modbus.go:142-168 | a buffer that reads both as an 8-byte request plus a 5-byte exception and as a 5-byte response plus an 8-byte single write is split the first way, the request reading being tried first |
| Vectors.TwoSplitsOtherSplit | pkg/decoder/modbus.go:31-62 | the second reading of that buffer is an exact split too |
| Vectors.FrameLenVectors | pkg/decoder/modbus_test.go:16-83 | the frame lengths of the decoder's tests: 8, 12, 13 or 5 by function code, and -1 for unknown codes and too-short input |
| Vectors.SplitGarbage | pkg/decoder/modbus_test.go:121-133 | unsplittable bytes come back as one frame of unknown direction |
| Vectors.PartialRequestAndHead | pkg/decoder/modbus.go:101-138 | a request followed by the first two bytes of a response gives the request frame and those two bytes as the remainder |
| Vectors.FirstWindow | main.go:231-341 | the flush of that buffer writes the request and carries the two bytes, timed at the request's end on the wire |
| Vectors.SecondWindow | main.go:244-307 | when the rest of the response arrives within the threshold, the response is reassembled and written as one response frame, timed at the end of the request |
| Vectors.SecondWindowStale | main.go:244-328 | when it arrives too late, the old bytes are dropped and the tail is written as an unknown record |
| Vectors.ResponseAcrossTwoWindows | main.go:231-341 | from an empty state the two windows produce exactly the request and the response, with their counters |

## Left out

- The select loop, the silence timer, signal handling, status output, logging and the `--verbose` messages are not modelled. The model treats a flush as a call made when the timer fires, and chunk arrival as a call made when a chunk is received.
- Flag parsing, opening the serial port, creating the output file or named pipe (pipe_unix.go, pipe_stub.go) and terminal handling (terminal_windows.go) are not part of this model.
- `Modbus.ValidCRC` is the source's placeholder, which accepts every frame. The real CRC-16 is not written in the source.
- The float64 arithmetic of the wire time and the thresholds is modelled as exact rational arithmetic truncated to whole nanoseconds. Rounding differences of float64 are not modelled.
- `time.Duration` saturation and overflow of `time.Time` arithmetic are not modelled; time is unbounded.
- A baud rate of zero or below is not modelled: the thresholds and the wire time require a positive baud rate.
- Capture.Flush: a failed write that is not a broken pipe is modelled as writing nothing. A partially written record is not modelled.
- Capture.Flush: write errors are outcomes given as input. The `io.Writer` behind the writer is not modelled. The global header write's error is not modelled.
- Pcap.WritePacket: the payload length is taken modulo 2^32, as `uint32(len(data))` does. Payloads of 4 GiB or more, which the serial reader cannot produce, are not given special treatment.
- Pcap.TsSec: seconds are reduced modulo 2^32, as `uint32(ts.Unix())` does. Round-trip lemmas are stated only for times whose seconds fit 32 bits.
- The reader in pcap.dfy is not part of the program. It exists only as the writer's inverse for the round-trip lemmas.
