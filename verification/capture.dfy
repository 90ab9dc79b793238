/** The capture loop: bytes arriving from the serial port are buffered until
    the line falls silent, then flushed to the capture file, either as one raw
    record or, in Modbus mode, as one RTAC-prefixed record per frame, with the
    bytes that do not complete a frame carried into the next flush. */
module Capture {
  import opened Wrappers
  import opened Bytes
  import opened Modbus
  import opened Splitter
  import opened Pcap
  import opened Settings

  const RtacHeaderLen: int := 12

  /** Go's zero time (1 January of year 1, UTC) in nanoseconds since the Unix
      epoch: the time of "no remainder". */
  const ZeroTime: Time := -62_135_596_800 * NanosPerSecond

  // ---------------------------------------------------------------------------
  // The RTAC serial prefix
  // ---------------------------------------------------------------------------

  /** The 12-byte RTAC serial prefix: big-endian 32-bit seconds, big-endian
      32-bit microseconds, the event type, three zero bytes. */
  function RtacHeader(ts: Time, eventType: byte): (h: seq<byte>)
    ensures |h| == RtacHeaderLen
    ensures h[8] == eventType && h[9..] == [0, 0, 0]
  {
    var h := PutU32(BigEndian, TsSec(ts)) + PutU32(BigEndian, TsUsec(ts)) + [eventType, 0, 0, 0];
    assert h[8..] == [eventType, 0, 0, 0];
    h
  }

  /** The prefix's time fields decode, big-endian, to the seconds and
      microseconds of the timestamp. */
  lemma RtacHeaderFields(ts: Time, eventType: byte)
    ensures var h := RtacHeader(ts, eventType);
            && GetU32(BigEndian, h[0..4]) == TsSec(ts)
            && GetU32(BigEndian, h[4..8]) == TsUsec(ts)
  {
    var h := RtacHeader(ts, eventType);
    assert h[0..4] == PutU32(BigEndian, TsSec(ts));
    assert h[4..8] == PutU32(BigEndian, TsUsec(ts));
    GetPutU32(BigEndian, TsSec(ts));
    GetPutU32(BigEndian, TsUsec(ts));
  }

  // ---------------------------------------------------------------------------
  // Configuration and capture state
  // ---------------------------------------------------------------------------

  /** What the loop needs from the command line: the mode, the silence
      threshold in nanoseconds, the wire time of a run of bytes, and the byte
      order of the capture file. */
  datatype Config = Config(modbusMode: bool, silence: int, wire: WireTime, order: ByteOrder)

  /** The link type written in the file header: RTAC serial in Modbus mode,
      the first user link type otherwise. */
  function LinkType(cfg: Config): (dlt: int)
    ensures 0 <= dlt < U32_LIMIT
  {
    if cfg.modbusMode then DltRtacSer else DltUser0
  }

  /** What the loop has written so far: the packets the writer accepted, in
      order, and the packet counters (all attempted records, and in Modbus
      mode the records by direction). */
  datatype Output = Output(
    written: seq<Packet>,
    packetCount: nat,
    txCount: nat,
    rxCount: nat,
    unknownCount: nat)

  /** The loop's variables. */
  datatype State = State(
    packetBuf: seq<byte>,
    firstByteTime: Time,
    prevExtra: Option<seq<byte>>,
    prevExtraTime: Time,
    pipeBroken: bool,
    out: Output)

  const Initial: State := State([], ZeroTime, None, ZeroTime, false, Output([], 0, 0, 0, 0))

  /** The capture file as it stands. */
  function OutputFile(cfg: Config, s: State): seq<byte>
  {
    Stream(cfg.order, LinkType(cfg), s.out.written)
  }

  // ---------------------------------------------------------------------------
  // Chunk arrival
  // ---------------------------------------------------------------------------

  /** A chunk arrives: an empty buffer first takes the chunk's time as its
      first-byte time, then the bytes are appended. Nothing else changes. */
  function OnChunk(s: State, data: seq<byte>, ts: Time): (r: State)
    ensures r.packetBuf == s.packetBuf + data
    ensures |s.packetBuf| > 0 ==> r.firstByteTime == s.firstByteTime
    ensures |s.packetBuf| == 0 ==> r.firstByteTime == ts
    ensures r == s.(packetBuf := r.packetBuf, firstByteTime := r.firstByteTime)
  {
    var s := if |s.packetBuf| == 0 then s.(firstByteTime := ts) else s;
    s.(packetBuf := s.packetBuf + data)
  }

  datatype Chunk = Chunk(data: seq<byte>, ts: Time)

  /** The bytes of a run of chunks, in arrival order. */
  function ChunkBytes(cs: seq<Chunk>): seq<byte>
  {
    if cs == [] then [] else cs[0].data + ChunkBytes(cs[1..])
  }

  /** Chunks arriving one after another, with no flush in between. */
  function Deliver(s: State, cs: seq<Chunk>): State
    decreases |cs|
  {
    if cs == [] then s else Deliver(OnChunk(s, cs[0].data, cs[0].ts), cs[1..])
  }

  /** Between two flushes the buffer accumulates the chunks' bytes in order,
      and its first-byte time is that of the chunk that made it non-empty: it
      is kept when the buffer already held bytes, and is the first chunk's
      time when that chunk carries bytes into an empty buffer. */
  lemma {:induction false} DeliverAccumulates(s: State, cs: seq<Chunk>)
    ensures Deliver(s, cs).packetBuf == s.packetBuf + ChunkBytes(cs)
    ensures |s.packetBuf| > 0 ==> Deliver(s, cs).firstByteTime == s.firstByteTime
    ensures |s.packetBuf| == 0 && cs != [] && |cs[0].data| > 0 ==> Deliver(s, cs).firstByteTime == cs[0].ts
    ensures Deliver(s, cs) == s.(packetBuf := Deliver(s, cs).packetBuf, firstByteTime := Deliver(s, cs).firstByteTime)
    decreases |cs|
  {
    if cs != [] {
      var s1 := OnChunk(s, cs[0].data, cs[0].ts);
      DeliverAccumulates(s1, cs[1..]);
      assert s.packetBuf + ChunkBytes(cs) == s1.packetBuf + ChunkBytes(cs[1..]);
    }
  }

  // ---------------------------------------------------------------------------
  // Flush, Modbus mode: what is parsed
  // ---------------------------------------------------------------------------

  /** The remainder carried from the previous flush, unless it is stale: the
      new buffer's first byte came more than the silence threshold after it. */
  function Surviving(cfg: Config, s: State): (extra: Option<seq<byte>>)
    ensures extra.Some? ==> extra == s.prevExtra
  {
    if s.prevExtra.Some? && s.firstByteTime - s.prevExtraTime > cfg.silence then None else s.prevExtra
  }

  /** The remainder is prepended only when one survives and the buffer on its
      own yields no frame. */
  predicate Retries(cfg: Config, s: State)
  {
    Surviving(cfg, s).Some? && |SplitFramesPartial(s.packetBuf).0| == 0
  }

  /** What a flush parsed: the bytes, the time of their first byte, and the
      partial split of those bytes. */
  datatype Parse = Parse(input: seq<byte>, base: Time, frames: seq<Frame>, remainder: Option<seq<byte>>)

  /** The buffer is parsed alone first; only when that yields no frame and a
      remainder survives is the parse retried on the remainder followed by the
      buffer, timed from the remainder's time. */
  function ParseFlush(cfg: Config, s: State): (p: Parse)
    ensures (p.frames, p.remainder) == SplitFramesPartial(p.input)
    ensures Retries(cfg, s) ==> p.input == s.prevExtra.value + s.packetBuf && p.base == s.prevExtraTime
    ensures !Retries(cfg, s) ==> p.input == s.packetBuf && p.base == s.firstByteTime
  {
    var extra := Surviving(cfg, s);
    var (frames, rem) := SplitFramesPartial(s.packetBuf);
    if |frames| == 0 && extra.Some? then
      var combined := extra.value + s.packetBuf;
      var (frames', rem') := SplitFramesPartial(combined);
      Parse(combined, s.prevExtraTime, frames', rem')
    else
      Parse(s.packetBuf, s.firstByteTime, frames, rem)
  }

  /** A stale remainder plays no part: the flush parses exactly as if there
      were no remainder at all, and only the new buffer. */
  lemma StaleRemainderIgnored(cfg: Config, s: State)
    requires s.prevExtra.Some? && s.firstByteTime - s.prevExtraTime > cfg.silence
    ensures ParseFlush(cfg, s) == ParseFlush(cfg, s.(prevExtra := None))
    ensures ParseFlush(cfg, s).input == s.packetBuf
  {
    assert !Retries(cfg, s);
    assert !Retries(cfg, s.(prevExtra := None));
  }

  /** A buffer that yields a frame on its own is parsed on its own, and any
      remainder from before, stale or not, is discarded. */
  lemma FramingBufferDropsRemainder(cfg: Config, s: State)
    requires |SplitFramesPartial(s.packetBuf).0| > 0
    ensures ParseFlush(cfg, s) == ParseFlush(cfg, s.(prevExtra := None))
    ensures ParseFlush(cfg, s).input == s.packetBuf && ParseFlush(cfg, s).base == s.firstByteTime
  {
    assert !Retries(cfg, s);
    assert !Retries(cfg, s.(prevExtra := None));
  }

  /** The parsed bytes are the buffer, preceded by the previous remainder
      exactly when that is retried; it is retried exactly when it exists, its
      age is within the threshold, and the buffer alone yields no frame. */
  lemma ParsedInput(cfg: Config, s: State)
    ensures ParseFlush(cfg, s).input == (if Retries(cfg, s) then s.prevExtra.value else []) + s.packetBuf
    ensures Retries(cfg, s) <==>
              && s.prevExtra.Some?
              && s.firstByteTime - s.prevExtraTime <= cfg.silence
              && |SplitFramesPartial(s.packetBuf).0| == 0
  {
    if !Retries(cfg, s) {
      assert [] + s.packetBuf == s.packetBuf;
    }
  }

  // ---------------------------------------------------------------------------
  // Flush, Modbus mode: the records written
  // ---------------------------------------------------------------------------

  /** A record written in Modbus mode: its time, its direction (which is the
      event type of its RTAC prefix) and the frame bytes. */
  datatype Record = Record(ts: Time, dir: Direction, body: seq<byte>)

  /** The packet handed to the writer: the RTAC prefix, then the frame. */
  function Encapsulate(r: Record): (p: Packet)
    ensures p.ts == r.ts
    ensures |p.data| == RtacHeaderLen + |r.body|
    ensures p.data[..RtacHeaderLen] == RtacHeader(r.ts, DirectionCode(r.dir))
    ensures p.data[RtacHeaderLen..] == r.body
  {
    var h := RtacHeader(r.ts, DirectionCode(r.dir));
    assert (h + r.body)[..RtacHeaderLen] == h;
    Packet(r.ts, h + r.body)
  }

  /** In a Modbus-mode record the capture record header and the RTAC prefix
      carry the same time, each in its own byte order; the prefix's event
      type is the frame's direction and the frame bytes follow it. */
  lemma RecordCarriesPrefix(order: ByteOrder, r: Record)
    ensures var rec := WritePacket(order, Encapsulate(r));
            && |rec| == RecordHeaderLen + RtacHeaderLen + |r.body|
            && GetU32(order, rec[0..4]) == GetU32(BigEndian, rec[16..20]) == TsSec(r.ts)
            && GetU32(order, rec[4..8]) == GetU32(BigEndian, rec[20..24]) == TsUsec(r.ts)
            && rec[24] == DirectionCode(r.dir)
            && rec[28..] == r.body
  {
    var p := Encapsulate(r);
    var rec := WritePacket(order, p);
    var h := RtacHeader(r.ts, DirectionCode(r.dir));
    WritePacketFields(order, p);
    RtacHeaderFields(r.ts, DirectionCode(r.dir));
    assert rec[16..] == p.data;
    assert rec[16..20] == h[0..4] && rec[20..24] == h[4..8];
    assert rec[24] == h[8];
    assert rec[28..] == p.data[12..];
  }

  /** Frame `i` is stamped with the base time plus the wire time of the frames
      before it; the first frame gets the base time itself. */
  function FrameTime(wire: WireTime, base: Time, fs: seq<Frame>, i: nat): Time
    requires i < |fs|
  {
    if i == 0 then base else base + wire(|Concat(fs[..i])|)
  }

  /** One record per frame, in order. */
  function FrameRecords(wire: WireTime, base: Time, fs: seq<Frame>): (recs: seq<Record>)
    ensures |recs| == |fs|
    ensures forall i :: 0 <= i < |fs| ==> recs[i] == Record(FrameTime(wire, base, fs, i), fs[i].dir, fs[i].data)
  {
    seq(|fs|, i requires 0 <= i < |fs| => Record(FrameTime(wire, base, fs, i), fs[i].dir, fs[i].data))
  }

  /** The records of a Modbus flush: one per frame, or, when nothing parsed,
      one record of unknown direction holding all the parsed bytes. */
  function ModbusRecords(cfg: Config, p: Parse): (recs: seq<Record>)
  {
    if |p.frames| > 0 then FrameRecords(cfg.wire, p.base, p.frames)
    else [Record(p.base, Unknown, p.input)]
  }

  /** The remainder carried to the next flush and its time: the bytes after
      the frames, timed at the end of the frames on the wire. Nothing is
      carried when no frame was found. */
  function Carried(cfg: Config, p: Parse): (Option<seq<byte>>, Time)
  {
    if |p.frames| == 0 then (None, ZeroTime)
    else if p.remainder.None? then (None, ZeroTime)
    else (p.remainder, p.base + cfg.wire(|Concat(p.frames)|))
  }

  /** The bodies of a run of records, laid end to end. */
  function Bodies(recs: seq<Record>): seq<byte>
  {
    if recs == [] then [] else recs[0].body + Bodies(recs[1..])
  }

  lemma {:induction false} BodiesOfFrames(recs: seq<Record>, fs: seq<Frame>)
    requires |recs| == |fs|
    requires forall i :: 0 <= i < |fs| ==> recs[i].body == fs[i].data
    ensures Bodies(recs) == Concat(fs)
    decreases |fs|
  {
    if fs != [] {
      BodiesOfFrames(recs[1..], fs[1..]);
    }
  }

  /** No byte is lost or duplicated: the record bodies followed by the carried
      remainder are exactly the parsed bytes, in order. */
  lemma ModbusConservesBytes(cfg: Config, p: Parse)
    requires Concat(p.frames) + Leftover(p.remainder) == p.input
    ensures Bodies(ModbusRecords(cfg, p)) + Leftover(Carried(cfg, p).0) == p.input
  {
    var recs := ModbusRecords(cfg, p);
    if |p.frames| > 0 {
      assert recs == FrameRecords(cfg.wire, p.base, p.frames);
      BodiesOfFrames(recs, p.frames);
      assert Leftover(Carried(cfg, p).0) == Leftover(p.remainder);
    } else {
      assert recs == [Record(p.base, Unknown, p.input)];
      assert Bodies(recs) == p.input + Bodies([]);
      assert Carried(cfg, p).0 == None;
    }
  }

  /** With a valid wire time, frame times never decrease, start at the base
      time, and never pass the carried remainder's time. */
  lemma {:induction false} FrameTimesOrdered(wire: WireTime, base: Time, fs: seq<Frame>, i: nat, j: nat)
    requires ValidWire(wire)
    requires i <= j < |fs|
    ensures base <= FrameTime(wire, base, fs, i) <= FrameTime(wire, base, fs, j)
    ensures FrameTime(wire, base, fs, j) <= base + wire(|Concat(fs)|)
  {
    assert fs[..j] == fs[..i] + fs[i..j];
    ConcatAppend(fs[..i], fs[i..j]);
    assert fs == fs[..j] + fs[j..];
    ConcatAppend(fs[..j], fs[j..]);
    assert wire(0) <= wire(|Concat(fs[..i])|) <= wire(|Concat(fs[..j])|) <= wire(|Concat(fs)|);
  }

  /** The records of a Modbus flush are in time order, none earlier than the
      base time and, when a remainder is carried, none later than its time. */
  lemma ModbusRecordsOrdered(cfg: Config, p: Parse, i: nat, j: nat)
    requires ValidWire(cfg.wire)
    requires i <= j < |ModbusRecords(cfg, p)|
    ensures var recs := ModbusRecords(cfg, p);
            p.base <= recs[i].ts <= recs[j].ts
    ensures Carried(cfg, p).0.Some? ==> ModbusRecords(cfg, p)[j].ts <= Carried(cfg, p).1
  {
    if |p.frames| > 0 {
      FrameTimesOrdered(cfg.wire, p.base, p.frames, i, j);
    }
  }

  // ---------------------------------------------------------------------------
  // Writing
  // ---------------------------------------------------------------------------

  /** The outcome of one write: accepted, failed with an error that is logged
      and ignored, or failed because the reading end of a pipe is gone. */
  datatype WriteStatus = Written | WriteFailed | BrokenPipe

  /** The outcome of write number `i` of a flush; writes past the list succeed. */
  function StatusAt(ws: seq<WriteStatus>, i: nat): WriteStatus
  {
    if i < |ws| then ws[i] else Written
  }

  /** The output after one record was attempted without a broken pipe; its
      packet, as `enc` builds it, is kept only when the write succeeded. */
  function Tally(o: Output, enc: Record -> Packet, r: Record, kept: bool): Output
  {
    Output(
      o.written + KeptPacket(enc, r, kept),
      o.packetCount + 1,
      o.txCount + (if r.dir == Request then 1 else 0),
      o.rxCount + (if r.dir == Response then 1 else 0),
      o.unknownCount + (if r.dir == Unknown then 1 else 0))
  }

  /** The packet `enc` builds for `r` when its write succeeded, nothing
      otherwise. */
  function KeptPacket(enc: Record -> Packet, r: Record, kept: bool): seq<Packet>
  {
    if kept then [enc(r)] else []
  }

  /** Every packet counted is split among the three directions. */
  predicate Balanced(o: Output)
  {
    o.packetCount == o.txCount + o.rxCount + o.unknownCount
  }

  /** Records `k..` written in order, each as the packet `enc` builds; a
      broken pipe stops the writes at once and is reported in the second
      component. */
  function Emit(o: Output, enc: Record -> Packet, recs: seq<Record>, ws: seq<WriteStatus>, k: nat): (Output, bool)
    requires k <= |recs|
    decreases |recs| - k
  {
    if k == |recs| then (o, false)
    else if StatusAt(ws, k) == BrokenPipe then (o, true)
    else Emit(Tally(o, enc, recs[k], StatusAt(ws, k) == Written), enc, recs, ws, k + 1)
  }

  /** The packets `enc` builds for a run of records. */
  function Packets(enc: Record -> Packet, recs: seq<Record>): (ps: seq<Packet>)
    ensures |ps| == |recs|
  {
    if recs == [] then [] else [enc(recs[0])] + Packets(enc, recs[1..])
  }

  /** The index of the first broken-pipe write among writes `k..n-1`, or `n`
      when there is none. */
  function FirstBroken(ws: seq<WriteStatus>, k: nat, n: nat): (j: nat)
    requires k <= n
    ensures k <= j <= n
    ensures forall i :: k <= i < j ==> StatusAt(ws, i) != BrokenPipe
    ensures j < n ==> StatusAt(ws, j) == BrokenPipe
    decreases n - k
  {
    if k == n then n
    else if StatusAt(ws, k) == BrokenPipe then k
    else FirstBroken(ws, k + 1, n)
  }

  /** Writes only append to the file; at most one packet is kept per record
      counted, and no more records are counted than were given; every record
      counted is counted in exactly one direction. */
  lemma EmitBounds(o: Output, enc: Record -> Packet, recs: seq<Record>, ws: seq<WriteStatus>, k: nat)
    requires k <= |recs|
    ensures var r := Emit(o, enc, recs, ws, k).0;
            && o.written <= r.written
            && |r.written| - |o.written| <= r.packetCount - o.packetCount <= |recs| - k
            && (Balanced(o) ==> Balanced(r))
  {
    EmitAppends(o, enc, recs, ws, k);
    EmitKeepsAtMostCounted(o, enc, recs, ws, k);
    EmitCountsAtMostRecords(o, enc, recs, ws, k);
    EmitBalanced(o, enc, recs, ws, k);
  }

  /** Writes only append to the file. */
  lemma {:induction false} EmitAppends(o: Output, enc: Record -> Packet, recs: seq<Record>, ws: seq<WriteStatus>, k: nat)
    requires k <= |recs|
    ensures o.written <= Emit(o, enc, recs, ws, k).0.written
    decreases |recs| - k
  {
    if k < |recs| && StatusAt(ws, k) != BrokenPipe {
      var o1 := EmitStep(o, enc, recs, ws, k);
      EmitAppends(o1, enc, recs, ws, k + 1);
    }
  }

  /** At most one packet is kept per record counted. */
  lemma {:induction false} EmitKeepsAtMostCounted(o: Output, enc: Record -> Packet, recs: seq<Record>, ws: seq<WriteStatus>, k: nat)
    requires k <= |recs|
    ensures var r := Emit(o, enc, recs, ws, k).0;
            |r.written| - |o.written| <= r.packetCount - o.packetCount
    decreases |recs| - k
  {
    if k < |recs| && StatusAt(ws, k) != BrokenPipe {
      var o1 := EmitStep(o, enc, recs, ws, k);
      EmitKeepsAtMostCounted(o1, enc, recs, ws, k + 1);
    }
  }

  /** No more records are counted than were given. */
  lemma {:induction false} EmitCountsAtMostRecords(o: Output, enc: Record -> Packet, recs: seq<Record>, ws: seq<WriteStatus>, k: nat)
    requires k <= |recs|
    ensures Emit(o, enc, recs, ws, k).0.packetCount - o.packetCount <= |recs| - k
    decreases |recs| - k
  {
    if k < |recs| && StatusAt(ws, k) != BrokenPipe {
      var o1 := EmitStep(o, enc, recs, ws, k);
      EmitCountsAtMostRecords(o1, enc, recs, ws, k + 1);
    }
  }

  /** Every record counted is counted in exactly one direction. */
  lemma {:induction false} EmitBalanced(o: Output, enc: Record -> Packet, recs: seq<Record>, ws: seq<WriteStatus>, k: nat)
    requires k <= |recs|
    ensures Balanced(o) ==> Balanced(Emit(o, enc, recs, ws, k).0)
    decreases |recs| - k
  {
    if k < |recs| && StatusAt(ws, k) != BrokenPipe {
      var o1 := EmitStep(o, enc, recs, ws, k);
      EmitBalanced(o1, enc, recs, ws, k + 1);
    }
  }

  /** Writes that never meet a broken pipe never report one. */
  lemma {:induction false} EmitNoBrokenPipe(o: Output, enc: Record -> Packet, recs: seq<Record>, ws: seq<WriteStatus>, k: nat)
    requires k <= |recs|
    ensures (forall i :: 0 <= i < |ws| ==> ws[i] != BrokenPipe) ==> !Emit(o, enc, recs, ws, k).1
    decreases |recs| - k
  {
    if k < |recs| && StatusAt(ws, k) != BrokenPipe {
      var o1 := EmitStep(o, enc, recs, ws, k);
      EmitNoBrokenPipe(o1, enc, recs, ws, k + 1);
    }
  }

  /** A broken-pipe write with none before it is the first one. */
  lemma FirstBrokenIs(ws: seq<WriteStatus>, k: nat, n: nat, j: nat)
    requires k <= j < n && StatusAt(ws, j) == BrokenPipe
    requires forall i :: k <= i < j ==> StatusAt(ws, i) != BrokenPipe
    ensures FirstBroken(ws, k, n) == j
  {
  }

  /** The packet record `k` leaves in the file: its own when its write
      succeeded, none otherwise. */
  function KeptOne(enc: Record -> Packet, recs: seq<Record>, ws: seq<WriteStatus>, k: nat): seq<Packet>
    requires k < |recs|
  {
    KeptPacket(enc, recs[k], StatusAt(ws, k) == Written)
  }


  /** The packets of records `k..j-1` whose write succeeded, in order. */
  function Kept(enc: Record -> Packet, recs: seq<Record>, ws: seq<WriteStatus>, k: nat, j: nat): seq<Packet>
    requires k <= j <= |recs|
    decreases j - k
  {
    if k == j then [] else KeptOne(enc, recs, ws, k) + Kept(enc, recs, ws, k + 1, j)
  }

  /** What the writes of records `k..` do, whatever their outcomes: they stop
      at the first broken pipe, and report it exactly when there is one; every
      record before it is counted, whether its write succeeded or failed; and
      the packets of exactly the successful writes are appended, in order. */
  lemma EmitOutcome(o: Output, enc: Record -> Packet, recs: seq<Record>, ws: seq<WriteStatus>, k: nat)
    requires k <= |recs|
    ensures var j := FirstBroken(ws, k, |recs|);
            var r := Emit(o, enc, recs, ws, k);
            && (r.1 <==> j < |recs|)
            && r.0.packetCount == o.packetCount + (j - k)
            && r.0.written == o.written + Kept(enc, recs, ws, k, j)
            && (forall d :: Counter(r.0, d) == Counter(o, d) + CountDir(recs, k, j, d))
  {
    var j := FirstBroken(ws, k, |recs|);
    EmitUpToStops(o, enc, recs, ws, k, j);
    EmitUpToCounts(o, enc, recs, ws, k, j);
    EmitUpToPackets(o, enc, recs, ws, k, j);
    forall d: Direction {
      EmitUpToDirection(o, enc, recs, ws, k, j, d);
    }
  }

  /** The counter `o` keeps for direction `d`. */
  function Counter(o: Output, d: Direction): nat
  {
    match d
    case Request => o.txCount
    case Response => o.rxCount
    case Unknown => o.unknownCount
  }

  /** How many of records `k..j-1` travel in direction `d`. */
  function CountDir(recs: seq<Record>, k: nat, j: nat, d: Direction): nat
    requires k <= j <= |recs|
    decreases j - k
  {
    if k == j then 0 else (if recs[k].dir == d then 1 else 0) + CountDir(recs, k + 1, j, d)
  }

  /** The writes of records `k..j-1` meet no broken pipe, and write `j`, if
      there is a record `j`, meets one. */
  ghost predicate BrokenFirstAt(ws: seq<WriteStatus>, k: nat, j: nat, n: nat)
  {
    && k <= j <= n
    && (forall i :: k <= i < j ==> StatusAt(ws, i) != BrokenPipe)
    && (j < n ==> StatusAt(ws, j) == BrokenPipe)
  }

  /** The writes of records `k..` report a broken pipe exactly when the first
      one, `j`, lies within the records. */
  lemma {:induction false} EmitUpToStops(o: Output, enc: Record -> Packet, recs: seq<Record>, ws: seq<WriteStatus>, k: nat, j: nat)
    requires BrokenFirstAt(ws, k, j, |recs|)
    ensures Emit(o, enc, recs, ws, k).1 <==> j < |recs|
    decreases |recs| - k
  {
    if k < j {
      var o1 := EmitStep(o, enc, recs, ws, k);
      EmitUpToStops(o1, enc, recs, ws, k + 1, j);
    }
  }

  /** The writes of records `k..` count exactly the records before the first
      broken pipe `j`. */
  lemma {:induction false} EmitUpToCounts(o: Output, enc: Record -> Packet, recs: seq<Record>, ws: seq<WriteStatus>, k: nat, j: nat)
    requires BrokenFirstAt(ws, k, j, |recs|)
    ensures Emit(o, enc, recs, ws, k).0.packetCount + k == o.packetCount + j
    decreases |recs| - k
  {
    if k < j {
      var o1 := EmitStep(o, enc, recs, ws, k);
      EmitUpToCounts(o1, enc, recs, ws, k + 1, j);
    }
  }

  /** The writes of records `k..` add to each direction's counter exactly the
      records of that direction before the first broken pipe `j`, whether
      their writes succeeded or failed. */
  lemma {:induction false} EmitUpToDirection(o: Output, enc: Record -> Packet, recs: seq<Record>, ws: seq<WriteStatus>, k: nat, j: nat, d: Direction)
    requires BrokenFirstAt(ws, k, j, |recs|)
    ensures Counter(Emit(o, enc, recs, ws, k).0, d) == Counter(o, d) + CountDir(recs, k, j, d)
    decreases |recs| - k
  {
    if k < j {
      var o1 := EmitStep(o, enc, recs, ws, k);
      EmitUpToDirection(o1, enc, recs, ws, k + 1, j, d);
    }
  }

  /** The writes of records `k..` append exactly the packets of the
      successful writes before the first broken pipe `j`. */
  lemma {:induction false} EmitUpToPackets(o: Output, enc: Record -> Packet, recs: seq<Record>, ws: seq<WriteStatus>, k: nat, j: nat)
    requires BrokenFirstAt(ws, k, j, |recs|)
    ensures Emit(o, enc, recs, ws, k).0.written == o.written + Kept(enc, recs, ws, k, j)
    decreases |recs| - k
  {
    if k == j {
      assert Emit(o, enc, recs, ws, k).0 == o;
      assert o.written + Kept(enc, recs, ws, k, j) == o.written + [];
    } else {
      var o1 := EmitStep(o, enc, recs, ws, k);
      EmitUpToPackets(o1, enc, recs, ws, k + 1, j);
      AppendAssoc(o.written, KeptOne(enc, recs, ws, k), Kept(enc, recs, ws, k + 1, j));
    }
  }

  /** One write that does not meet a broken pipe: it moves the output on to
      `o1`, which keeps the record's packet when the write succeeded, and the
      writes go on with the next record. */
  lemma EmitStep(o: Output, enc: Record -> Packet, recs: seq<Record>, ws: seq<WriteStatus>, k: nat) returns (o1: Output)
    requires k < |recs| && StatusAt(ws, k) != BrokenPipe
    ensures o1.written == o.written + KeptOne(enc, recs, ws, k)
    ensures o1.packetCount == o.packetCount + 1
    ensures Balanced(o) ==> Balanced(o1)
    ensures o1.txCount == o.txCount + (if recs[k].dir == Request then 1 else 0)
    ensures o1.rxCount == o.rxCount + (if recs[k].dir == Response then 1 else 0)
    ensures o1.unknownCount == o.unknownCount + (if recs[k].dir == Unknown then 1 else 0)
    ensures Emit(o, enc, recs, ws, k) == Emit(o1, enc, recs, ws, k + 1)
  {
    o1 := Tally(o, enc, recs[k], StatusAt(ws, k) == Written);
  }

  /** Concatenation of packet lists is associative. */
  lemma AppendAssoc(a: seq<Packet>, b: seq<Packet>, c: seq<Packet>)
    ensures a + (b + c) == (a + b) + c
  {
  }

  /** A write that fails with an ordinary error still counts its record, adds
      no packet, and the writes go on with the next record. */
  lemma EmitWriteFailed(o: Output, enc: Record -> Packet, recs: seq<Record>, ws: seq<WriteStatus>, k: nat)
    requires k < |recs| && StatusAt(ws, k) == WriteFailed
    ensures var o1 := Tally(o, enc, recs[k], false);
            && o1.written == o.written
            && o1.packetCount == o.packetCount + 1
            && Emit(o, enc, recs, ws, k) == Emit(o1, enc, recs, ws, k + 1)
  {
  }

  /** When every write succeeds, each record is counted once and its packet
      appended to the file, in order. */
  lemma EmitAllWritten(o: Output, enc: Record -> Packet, recs: seq<Record>, ws: seq<WriteStatus>, k: nat)
    requires k <= |recs|
    requires forall i :: 0 <= i < |ws| ==> ws[i] == Written
    ensures !Emit(o, enc, recs, ws, k).1
    ensures Emit(o, enc, recs, ws, k).0.written == o.written + Packets(enc, recs[k..])
    ensures Emit(o, enc, recs, ws, k).0.packetCount == o.packetCount + (|recs| - k)
  {
    EmitAllWrittenCounts(o, enc, recs, ws, k);
    EmitAllWrittenPackets(o, enc, recs, ws, k);
  }

  lemma {:induction false} EmitAllWrittenCounts(o: Output, enc: Record -> Packet, recs: seq<Record>, ws: seq<WriteStatus>, k: nat)
    requires k <= |recs|
    requires forall i :: 0 <= i < |ws| ==> ws[i] == Written
    ensures !Emit(o, enc, recs, ws, k).1
    ensures Emit(o, enc, recs, ws, k).0.packetCount == o.packetCount + (|recs| - k)
    decreases |recs| - k
  {
    if k < |recs| {
      assert StatusAt(ws, k) == Written;
      var o1 := EmitStep(o, enc, recs, ws, k);
      EmitAllWrittenCounts(o1, enc, recs, ws, k + 1);
    }
  }

  lemma {:induction false} EmitAllWrittenPackets(o: Output, enc: Record -> Packet, recs: seq<Record>, ws: seq<WriteStatus>, k: nat)
    requires k <= |recs|
    requires forall i :: 0 <= i < |ws| ==> ws[i] == Written
    ensures Emit(o, enc, recs, ws, k).0.written == o.written + Packets(enc, recs[k..])
    decreases |recs| - k
  {
    if k == |recs| {
      assert recs[k..] == [];
    } else {
      assert StatusAt(ws, k) == Written;
      var o1 := EmitStep(o, enc, recs, ws, k);
      EmitAllWrittenPackets(o1, enc, recs, ws, k + 1);
      var rest := recs[k..];
      assert rest[0] == recs[k] && rest[1..] == recs[k + 1..];
      assert Packets(enc, rest) == KeptOne(enc, recs, ws, k) + Packets(enc, recs[k + 1..]);
      AppendAssoc(o.written, KeptOne(enc, recs, ws, k), Packets(enc, recs[k + 1..]));
    }
  }

  /** A broken pipe on the first write of a flush writes and counts nothing. */
  lemma EmitBrokenAtOnce(o: Output, enc: Record -> Packet, recs: seq<Record>, ws: seq<WriteStatus>)
    requires |recs| > 0 && StatusAt(ws, 0) == BrokenPipe
    ensures Emit(o, enc, recs, ws, 0) == (o, true)
  {
  }

  // ---------------------------------------------------------------------------
  // Flush
  // ---------------------------------------------------------------------------

  /** Flushes the buffer. `ws` gives the outcome of each write in turn. An
      empty buffer is left alone. In Modbus mode the remainder for the next
      flush is decided before any write, and a broken pipe leaves the buffer
      in place; in raw mode the buffer is one record and is cleared even when
      the pipe is broken. */
  function Flush(cfg: Config, s: State, ws: seq<WriteStatus>): (r: State)
    ensures |s.packetBuf| == 0 ==> r == s
    ensures r.packetBuf == [] || (cfg.modbusMode && r.pipeBroken && r.packetBuf == s.packetBuf)
    ensures r.firstByteTime == s.firstByteTime
    ensures !cfg.modbusMode ==> r.prevExtra == s.prevExtra && r.prevExtraTime == s.prevExtraTime
    ensures s.out.written <= r.out.written
    ensures |r.out.written| - |s.out.written| <= r.out.packetCount - s.out.packetCount
    ensures s.pipeBroken ==> r.pipeBroken
    ensures (forall i :: 0 <= i < |ws| ==> ws[i] != BrokenPipe) ==> r.packetBuf == [] && r.pipeBroken == s.pipeBroken
  {
    if |s.packetBuf| == 0 then s
    else if cfg.modbusMode then
      var p := ParseFlush(cfg, s);
      var (extra, extraTime) := Carried(cfg, p);
      var recs := ModbusRecords(cfg, p);
      EmitBounds(s.out, Encapsulate, recs, ws, 0);
      EmitNoBrokenPipe(s.out, Encapsulate, recs, ws, 0);
      var (out, broken) := Emit(s.out, Encapsulate, recs, ws, 0);
      var s' := s.(prevExtra := extra, prevExtraTime := extraTime, out := out);
      if broken then s'.(pipeBroken := true) else s'.(packetBuf := [])
    else
      var packet := Packet(s.firstByteTime, s.packetBuf);
      var o := s.out;
      match StatusAt(ws, 0)
      case BrokenPipe => s.(pipeBroken := true, packetBuf := [])
      case Written => s.(out := o.(packetCount := o.packetCount + 1, written := o.written + [packet]), packetBuf := [])
      case WriteFailed => s.(out := o.(packetCount := o.packetCount + 1), packetBuf := [])
  }

  /** A Modbus flush accounts for every byte it parsed, whatever the writes
      do: the bodies of its records followed by the remainder it carries to
      the next flush are the buffer, preceded by the previous remainder
      exactly when that was retried (see `ParsedInput`). */
  lemma FlushConservesBytes(cfg: Config, s: State, ws: seq<WriteStatus>)
    requires cfg.modbusMode && |s.packetBuf| > 0
    ensures var p := ParseFlush(cfg, s);
            Bodies(ModbusRecords(cfg, p)) + Leftover(Flush(cfg, s, ws).prevExtra) == p.input
  {
    var p := ParseFlush(cfg, s);
    FlushCarries(cfg, s, ws);
    ModbusConservesBytes(cfg, p);
  }

  /** A Modbus flush carries to the next flush what its parse left over,
      whatever its writes do. */
  lemma FlushCarries(cfg: Config, s: State, ws: seq<WriteStatus>)
    requires cfg.modbusMode && |s.packetBuf| > 0
    ensures var r := Flush(cfg, s, ws);
            (r.prevExtra, r.prevExtraTime) == Carried(cfg, ParseFlush(cfg, s))
  {
  }

  /** A Modbus flush in which nothing parses, even with the surviving
      remainder in front: the surviving remainder and the buffer go out as one
      record of unknown direction, stamped with the time of their first byte;
      it is counted as unknown unless the pipe is broken, and nothing is
      carried to the next flush. */
  lemma ModbusFlushNoFrames(cfg: Config, s: State, ws: seq<WriteStatus>)
    requires cfg.modbusMode && |s.packetBuf| > 0
    requires ParseFlush(cfg, s).frames == []
    ensures var p := ParseFlush(cfg, s);
            && p.input == Leftover(Surviving(cfg, s)) + s.packetBuf
            && p.base == (if Surviving(cfg, s).Some? then s.prevExtraTime else s.firstByteTime)
    ensures var p := ParseFlush(cfg, s);
            var r := Flush(cfg, s, ws);
            var o := s.out;
            && r.prevExtra.None? && r.prevExtraTime == ZeroTime
            && (StatusAt(ws, 0) == BrokenPipe ==> r.out == o && r.pipeBroken && r.packetBuf == s.packetBuf)
            && (StatusAt(ws, 0) != BrokenPipe ==>
                  && r.out.packetCount == o.packetCount + 1
                  && r.out.unknownCount == o.unknownCount + 1
                  && r.out.txCount == o.txCount && r.out.rxCount == o.rxCount
                  && r.packetBuf == [] && r.pipeBroken == s.pipeBroken)
            && (StatusAt(ws, 0) == Written ==> r.out.written == o.written + [Encapsulate(Record(p.base, Unknown, p.input))])
            && (StatusAt(ws, 0) == WriteFailed ==> r.out.written == o.written)
  {
    var p := ParseFlush(cfg, s);
    if !Retries(cfg, s) {
      assert Surviving(cfg, s).None?;
    }
    var recs := ModbusRecords(cfg, p);
    assert recs == [Record(p.base, Unknown, p.input)];
    var j := FirstBroken(ws, 0, 1);
    EmitOutcome(s.out, Encapsulate, recs, ws, 0);
    EmitUpToDirection(s.out, Encapsulate, recs, ws, 0, j, Request);
    EmitUpToDirection(s.out, Encapsulate, recs, ws, 0, j, Response);
    EmitUpToDirection(s.out, Encapsulate, recs, ws, 0, j, Unknown);
    if StatusAt(ws, 0) != BrokenPipe {
      assert j == 1;
      assert Kept(Encapsulate, recs, ws, 0, 1) == KeptOne(Encapsulate, recs, ws, 0) + [];
    }
  }

  /** How many of the frames travel in direction `d`. */
  function FramesIn(fs: seq<Frame>, d: Direction): nat
  {
    if fs == [] then 0 else (if fs[0].dir == d then 1 else 0) + FramesIn(fs[1..], d)
  }

  /** The records of a flush that found frames carry, one for one and in
      order, the frames' directions and bytes, each stamped with its frame's
      time. */
  lemma ModbusRecordsFollowFrames(cfg: Config, p: Parse, i: nat)
    requires |p.frames| > 0 && i < |p.frames|
    ensures |ModbusRecords(cfg, p)| == |p.frames|
    ensures var r := ModbusRecords(cfg, p)[i];
            r.dir == p.frames[i].dir && r.body == p.frames[i].data && r.ts == FrameTime(cfg.wire, p.base, p.frames, i)
  {
  }

  /** Counting records `k..` of a flush that found frames by direction counts
      the frames `k..` of that direction. */
  lemma {:induction false} RecordDirectionsAreFrameDirections(cfg: Config, p: Parse, k: nat, d: Direction)
    requires |p.frames| > 0 && k <= |p.frames|
    ensures var recs := ModbusRecords(cfg, p);
            |recs| == |p.frames| && CountDir(recs, k, |recs|, d) == FramesIn(p.frames[k..], d)
    decreases |p.frames| - k
  {
    var recs := ModbusRecords(cfg, p);
    if k == |p.frames| {
      assert p.frames[k..] == [];
    } else {
      RecordDirectionsAreFrameDirections(cfg, p, k + 1, d);
      var rest := p.frames[k..];
      assert rest[0] == p.frames[k] && rest[1..] == p.frames[k + 1..];
      assert recs[k].dir == p.frames[k].dir;
    }
  }

  /** A Modbus flush that found frames and meets no broken pipe counts every
      frame once, under the direction the frame was read with, whether its
      write succeeded or failed. */
  lemma ModbusFlushCounts(cfg: Config, s: State, ws: seq<WriteStatus>, d: Direction)
    requires cfg.modbusMode && |s.packetBuf| > 0
    requires |ParseFlush(cfg, s).frames| > 0
    requires forall i :: 0 <= i < |ws| ==> ws[i] != BrokenPipe
    ensures var p := ParseFlush(cfg, s);
            var r := Flush(cfg, s, ws);
            && r.out.packetCount == s.out.packetCount + |p.frames|
            && Counter(r.out, d) == Counter(s.out, d) + FramesIn(p.frames, d)
  {
    var p := ParseFlush(cfg, s);
    var recs := ModbusRecords(cfg, p);
    RecordDirectionsAreFrameDirections(cfg, p, 0, d);
    assert p.frames[0..] == p.frames;
    var j := FirstBroken(ws, 0, |recs|);
    assert j == |recs|;
    EmitOutcome(s.out, Encapsulate, recs, ws, 0);
    EmitUpToDirection(s.out, Encapsulate, recs, ws, 0, j, d);
  }

  /** In Modbus mode every counted packet has exactly one direction: the
      balance of the counters is kept by every flush. */
  lemma FlushKeepsBalance(cfg: Config, s: State, ws: seq<WriteStatus>)
    requires cfg.modbusMode && Balanced(s.out)
    ensures Balanced(Flush(cfg, s, ws).out)
  {
    if |s.packetBuf| > 0 {
      var p := ParseFlush(cfg, s);
      assert Flush(cfg, s, ws).out == Emit(s.out, Encapsulate, ModbusRecords(cfg, p), ws, 0).0;
      EmitBounds(s.out, Encapsulate, ModbusRecords(cfg, p), ws, 0);
    }
  }

  /** A Modbus flush whose writes all succeed: every record of the flush is
      appended to the file and counted, the buffer is emptied, and the carried
      remainder is what the parse left over. */
  lemma ModbusFlushAllWritten(cfg: Config, s: State, ws: seq<WriteStatus>)
    requires cfg.modbusMode && |s.packetBuf| > 0
    requires forall i :: 0 <= i < |ws| ==> ws[i] == Written
    ensures var p := ParseFlush(cfg, s);
            var r := Flush(cfg, s, ws);
            && r.out.written == s.out.written + Packets(Encapsulate, ModbusRecords(cfg, p))
            && r.out.packetCount == s.out.packetCount + |ModbusRecords(cfg, p)|
            && r.packetBuf == []
            && r.pipeBroken == s.pipeBroken
            && (r.prevExtra, r.prevExtraTime) == Carried(cfg, p)
  {
    var p := ParseFlush(cfg, s);
    var recs := ModbusRecords(cfg, p);
    EmitAllWritten(s.out, Encapsulate, recs, ws, 0);
    assert recs[0..] == recs;
  }

  /** A broken pipe at write `j` of a flush, the first of its writes to
      meet one: the records before it are counted, and those whose writes
      succeeded are in the file; in Modbus mode the buffer is kept and the
      carried remainder was already replaced; in raw mode, which makes one
      write, the buffer is dropped and nothing is counted. */
  lemma FlushBrokenPipe(cfg: Config, s: State, ws: seq<WriteStatus>, j: nat)
    requires |s.packetBuf| > 0
    requires j < (if cfg.modbusMode then |ModbusRecords(cfg, ParseFlush(cfg, s))| else 1)
    requires StatusAt(ws, j) == BrokenPipe
    requires forall i :: 0 <= i < j ==> StatusAt(ws, i) != BrokenPipe
    ensures var r := Flush(cfg, s, ws);
            && r.pipeBroken
            && r.out.packetCount == s.out.packetCount + j
            && (cfg.modbusMode ==>
                  var p := ParseFlush(cfg, s);
                  && r.packetBuf == s.packetBuf
                  && r.out.written == s.out.written + Kept(Encapsulate, ModbusRecords(cfg, p), ws, 0, j)
                  && (r.prevExtra, r.prevExtraTime) == Carried(cfg, p))
            && (!cfg.modbusMode ==> r.packetBuf == [] && r.out == s.out)
  {
    if cfg.modbusMode {
      var p := ParseFlush(cfg, s);
      var recs := ModbusRecords(cfg, p);
      FirstBrokenIs(ws, 0, |recs|, j);
      EmitOutcome(s.out, Encapsulate, recs, ws, 0);
    }
  }

  /** A raw-mode flush whose write succeeds appends one record holding the
      whole buffer, stamped with its first-byte time. */
  lemma RawFlushWritten(cfg: Config, s: State, ws: seq<WriteStatus>)
    requires !cfg.modbusMode && |s.packetBuf| > 0 && StatusAt(ws, 0) == Written
    ensures var r := Flush(cfg, s, ws);
            && r.out.written == s.out.written + [Packet(s.firstByteTime, s.packetBuf)]
            && r.out.packetCount == s.out.packetCount + 1
            && r.out.txCount == s.out.txCount && r.out.rxCount == s.out.rxCount
            && r.out.unknownCount == s.out.unknownCount
            && r.packetBuf == []
            && r.pipeBroken == s.pipeBroken
  {
  }

  /** A raw-mode flush whose write fails with an ordinary error still counts
      the packet, appends nothing, and drops the buffer; the capture goes on. */
  lemma RawFlushFailed(cfg: Config, s: State, ws: seq<WriteStatus>)
    requires !cfg.modbusMode && |s.packetBuf| > 0 && StatusAt(ws, 0) == WriteFailed
    ensures var r := Flush(cfg, s, ws);
            && r.out == s.out.(packetCount := s.out.packetCount + 1)
            && r.packetBuf == []
            && r.pipeBroken == s.pipeBroken
  {
  }

  /** The file only grows, by whole records appended after what was there. */
  lemma FlushAppendsRecords(cfg: Config, s: State, ws: seq<WriteStatus>)
    ensures var r := Flush(cfg, s, ws);
            OutputFile(cfg, r) == OutputFile(cfg, s) + Records(cfg.order, r.out.written[|s.out.written|..])
  {
    var r := Flush(cfg, s, ws);
    FileGrows(cfg, s.out.written, r.out.written);
  }

  /** Appending packets to the written list appends their records to the file. */
  lemma FileGrows(cfg: Config, before: seq<Packet>, after: seq<Packet>)
    requires before <= after
    ensures Stream(cfg.order, LinkType(cfg), after)
            == Stream(cfg.order, LinkType(cfg), before) + Records(cfg.order, after[|before|..])
  {
    assert after == before + after[|before|..];
    RecordsAppend(cfg.order, before, after[|before|..]);
  }
}
