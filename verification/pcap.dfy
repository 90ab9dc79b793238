/** The libpcap capture file layout: a 24-byte global header followed by one
    record per packet, each a 16-byte record header and the packet bytes. A
    reader for the same layout is included as the writer's inverse. */
module Pcap {
  import opened Wrappers
  import opened Bytes

  const MagicNumber: int := 0xa1b2c3d4
  const VersionMajor: int := 2
  const VersionMinor: int := 4
  const SnapLen: int := 65535
  /** LINKTYPE_USER0 of the tcpdump link-type registry: untagged raw payload. */
  const DltUser0: int := 147
  /** LINKTYPE_RTAC_SERIAL of the tcpdump link-type registry: payload carrying
      the 12-byte RTAC serial prefix. */
  const DltRtacSer: int := 250

  const GlobalHeaderLen: int := 24
  const RecordHeaderLen: int := 16

  const NanosPerSecond: int := 1_000_000_000

  /** A timestamp: nanoseconds since the Unix epoch (negative before it). */
  type Time = int

  /** Whole seconds since the epoch (rounded towards the past, as the
      nanosecond part is never negative), truncated to 32 bits. */
  function TsSec(ts: Time): (s: int)
    ensures 0 <= s < U32_LIMIT
    ensures 0 <= ts < U32_LIMIT * NanosPerSecond ==> s * NanosPerSecond <= ts < (s + 1) * NanosPerSecond
  {
    (ts / NanosPerSecond) % U32_LIMIT
  }

  /** The microseconds within the second, truncated from the nanoseconds. */
  function TsUsec(ts: Time): (u: int)
    ensures 0 <= u < 1_000_000
  {
    (ts % NanosPerSecond) / 1000
  }

  /** Within the 32-bit seconds range the (seconds, microseconds) pair
      recovers the timestamp to the microsecond: only the sub-microsecond
      part is lost. */
  lemma TimestampMicrosecondRoundTrip(ts: Time)
    requires 0 <= ts < U32_LIMIT * NanosPerSecond
    ensures TsSec(ts) * NanosPerSecond + TsUsec(ts) * 1000 == ts - ts % 1000
  {
    var q, r := ts / NanosPerSecond, ts % NanosPerSecond;
    assert TsSec(ts) == q;
    var u, v := r / 1000, r % 1000;
    assert TsUsec(ts) == u;
    assert ts == (q * 1_000_000 + u) * 1000 + v;
    ModThousand(ts, q * 1_000_000 + u, v);
  }

  /** The remainder by 1000 of a number written as a multiple of 1000 plus a
      smaller part is that part. */
  lemma ModThousand(x: int, q: int, r: int)
    requires x == q * 1000 + r && 0 <= r < 1000
    ensures x % 1000 == r
  {
  }

  /** The global header: magic number, version 2.4, zero time zone and
      accuracy, the snapshot length and the link type, each in `order`. The
      byte order and the link-type field are the writer's parameters. */
  function GlobalHeader(order: ByteOrder, linkType: int): (h: seq<byte>)
    requires 0 <= linkType < U32_LIMIT
    ensures |h| == GlobalHeaderLen
  {
    PutU32(order, MagicNumber) + PutU16(order, VersionMajor) + PutU16(order, VersionMinor)
      + PutU32(order, 0) + PutU32(order, 0) + PutU32(order, SnapLen) + PutU32(order, linkType)
  }

  /** A reader of the same byte order finds each header field at its fixed
      offset. */
  lemma GlobalHeaderFields(order: ByteOrder, linkType: int)
    requires 0 <= linkType < U32_LIMIT
    ensures var h := GlobalHeader(order, linkType);
            && GetU32(order, h[0..4]) == MagicNumber
            && GetU16(order, h[4..6]) == VersionMajor
            && GetU16(order, h[6..8]) == VersionMinor
            && GetU32(order, h[8..12]) == 0
            && GetU32(order, h[12..16]) == 0
            && GetU32(order, h[16..20]) == SnapLen
            && GetU32(order, h[20..24]) == linkType
  {
    var h := GlobalHeader(order, linkType);
    assert h[0..4] == PutU32(order, MagicNumber);
    assert h[4..6] == PutU16(order, VersionMajor);
    assert h[6..8] == PutU16(order, VersionMinor);
    assert h[8..12] == PutU32(order, 0);
    assert h[12..16] == PutU32(order, 0);
    assert h[16..20] == PutU32(order, SnapLen);
    assert h[20..24] == PutU32(order, linkType);
    GetPutU32(order, MagicNumber);
    GetPutU16(order, VersionMajor);
    GetPutU16(order, VersionMinor);
    GetPutU32(order, 0);
    GetPutU32(order, SnapLen);
    GetPutU32(order, linkType);
  }

  /** The header `NewWriter` emits: little-endian, link type USER0. */
  function NewWriter(): (h: seq<byte>)
    ensures h == [0xd4, 0xc3, 0xb2, 0xa1, 2, 0, 4, 0,
                  0, 0, 0, 0, 0, 0, 0, 0,
                  0xff, 0xff, 0, 0, 147, 0, 0, 0]
  {
    assert PutU32(LittleEndian, MagicNumber) == [0xd4, 0xc3, 0xb2, 0xa1];
    assert PutU16(LittleEndian, VersionMajor) == [2, 0];
    assert PutU16(LittleEndian, VersionMinor) == [4, 0];
    assert PutU32(LittleEndian, 0) == [0, 0, 0, 0];
    assert PutU32(LittleEndian, SnapLen) == [0xff, 0xff, 0, 0];
    assert PutU32(LittleEndian, DltUser0) == [147, 0, 0, 0];
    GlobalHeader(LittleEndian, DltUser0)
  }

  /** A packet handed to the writer: its timestamp and bytes. */
  datatype Packet = Packet(ts: Time, data: seq<byte>)

  /** One record: header (seconds, microseconds, captured length, original
      length) then the packet bytes unchanged. Both lengths are the payload
      length truncated to 32 bits; nothing is cut to the snapshot length. */
  function WritePacket(order: ByteOrder, p: Packet): (rec: seq<byte>)
    ensures |rec| == RecordHeaderLen + |p.data|
    ensures rec[RecordHeaderLen..] == p.data
  {
    var length := |p.data| % U32_LIMIT;
    var rec := PutU32(order, TsSec(p.ts)) + PutU32(order, TsUsec(p.ts))
               + PutU32(order, length) + PutU32(order, length) + p.data;
    assert rec[16..] == p.data;
    rec
  }

  /** A reader of the same byte order finds the record header fields: the
      timestamp split into seconds and microseconds, and two equal length
      fields that give the payload length whenever it fits in 32 bits. */
  lemma WritePacketFields(order: ByteOrder, p: Packet)
    ensures var rec := WritePacket(order, p);
            && GetU32(order, rec[0..4]) == TsSec(p.ts)
            && GetU32(order, rec[4..8]) == TsUsec(p.ts) < 1_000_000
            && GetU32(order, rec[8..12]) == GetU32(order, rec[12..16])
            && (|p.data| < U32_LIMIT ==> GetU32(order, rec[8..12]) == |p.data|)
  {
    var rec := WritePacket(order, p);
    var length := |p.data| % U32_LIMIT;
    assert rec[0..4] == PutU32(order, TsSec(p.ts));
    assert rec[4..8] == PutU32(order, TsUsec(p.ts));
    assert rec[8..12] == PutU32(order, length);
    assert rec[12..16] == PutU32(order, length);
    GetPutU32(order, TsSec(p.ts));
    GetPutU32(order, TsUsec(p.ts));
    GetPutU32(order, length);
  }

  /** Byte strings laid end to end. */
  function Flatten(chunks: seq<seq<byte>>): seq<byte>
  {
    if chunks == [] then [] else chunks[0] + Flatten(chunks[1..])
  }

  lemma {:induction false} FlattenSplit(chunks: seq<seq<byte>>, k: nat)
    requires k <= |chunks|
    ensures Flatten(chunks) == Flatten(chunks[..k]) + Flatten(chunks[k..])
    decreases k
  {
    if k == 0 {
      assert chunks[..0] == [] && chunks[0..] == chunks;
    } else {
      FlattenSplit(chunks[1..], k - 1);
      assert chunks[..k][0] == chunks[0] && chunks[..k][1..] == chunks[1..][..k - 1];
      assert chunks[k..] == chunks[1..][k - 1..];
    }
  }

  /** In a flattened list, chunk `k` follows the chunks before it. */
  lemma FlattenAt(chunks: seq<seq<byte>>, k: nat)
    requires k < |chunks|
    ensures var off := |Flatten(chunks[..k])|;
            off + |chunks[k]| <= |Flatten(chunks)| && Flatten(chunks)[off..off + |chunks[k]|] == chunks[k]
  {
    FlattenSplit(chunks, k);
    var rest := chunks[k..];
    assert rest[0] == chunks[k];
    assert Flatten(rest) == chunks[k] + Flatten(rest[1..]);
  }

  /** The chunks a per-packet encoding `enc` gives for each packet, in order. */
  function EncodeAll(enc: Packet -> seq<byte>, ps: seq<Packet>): (rs: seq<seq<byte>>)
    ensures |rs| == |ps|
    ensures forall i :: 0 <= i < |ps| ==> rs[i] == enc(ps[i])
  {
    seq(|ps|, i requires 0 <= i < |ps| => enc(ps[i]))
  }

  lemma EncodeAllSlice(enc: Packet -> seq<byte>, ps: seq<Packet>, a: nat, b: nat)
    requires a <= b <= |ps|
    ensures EncodeAll(enc, ps)[a..b] == EncodeAll(enc, ps[a..b])
  {
  }

  /** Encoding a non-empty list: the first packet's chunk, then the rest. */
  lemma FlattenEncodeCons(enc: Packet -> seq<byte>, ps: seq<Packet>)
    requires ps != []
    ensures Flatten(EncodeAll(enc, ps)) == enc(ps[0]) + Flatten(EncodeAll(enc, ps[1..]))
  {
    var all := EncodeAll(enc, ps);
    EncodeAllSlice(enc, ps, 1, |ps|);
    assert all[1..|ps|] == all[1..] && ps[1..|ps|] == ps[1..];
  }

  /** Encoding two lists one after the other gives their chunks one after
      the other. */
  lemma FlattenEncodeAppend(enc: Packet -> seq<byte>, ps: seq<Packet>, qs: seq<Packet>)
    ensures Flatten(EncodeAll(enc, ps + qs)) == Flatten(EncodeAll(enc, ps)) + Flatten(EncodeAll(enc, qs))
  {
    var all := EncodeAll(enc, ps + qs);
    assert all[..|ps|] == EncodeAll(enc, ps);
    assert all[|ps|..] == EncodeAll(enc, qs);
    FlattenSplit(all, |ps|);
  }

  /** In the encoded list, packet `k`'s chunk follows the chunks before it. */
  lemma FlattenEncodeAt(enc: Packet -> seq<byte>, ps: seq<Packet>, k: nat)
    requires k < |ps|
    ensures var off := |Flatten(EncodeAll(enc, ps[..k]))|;
            && off + |enc(ps[k])| <= |Flatten(EncodeAll(enc, ps))|
            && Flatten(EncodeAll(enc, ps))[off..off + |enc(ps[k])|] == enc(ps[k])
  {
    var all := EncodeAll(enc, ps);
    FlattenAt(all, k);
    EncodeAllSlice(enc, ps, 0, k);
    assert ps[0..k] == ps[..k] && all[0..k] == all[..k];
  }

  /** The per-packet encoding of the writer. */
  function RecordOf(order: ByteOrder): Packet -> seq<byte>
  {
    p => WritePacket(order, p)
  }

  /** The records of a packet list, one after another. */
  function Records(order: ByteOrder, ps: seq<Packet>): seq<byte>
  {
    Flatten(EncodeAll(RecordOf(order), ps))
  }

  /** The records of a non-empty list: the first packet's, then the rest. */
  lemma RecordsCons(order: ByteOrder, ps: seq<Packet>)
    requires ps != []
    ensures Records(order, ps) == WritePacket(order, ps[0]) + Records(order, ps[1..])
  {
    FlattenEncodeCons(RecordOf(order), ps);
  }

  /** Total size of the records of `ps`: 16 header bytes plus the payload each. */
  function RecordsLen(ps: seq<Packet>): nat
  {
    if ps == [] then 0 else RecordHeaderLen + |ps[0].data| + RecordsLen(ps[1..])
  }

  lemma {:induction false} RecordsLength(order: ByteOrder, ps: seq<Packet>)
    ensures |Records(order, ps)| == RecordsLen(ps)
    decreases |ps|
  {
    if ps != [] {
      RecordsLength(order, ps[1..]);
      RecordsCons(order, ps);
    }
  }

  /** The whole file after writing the header and then each packet in turn. */
  function Stream(order: ByteOrder, linkType: int, ps: seq<Packet>): (s: seq<byte>)
    requires 0 <= linkType < U32_LIMIT
    ensures |s| == GlobalHeaderLen + RecordsLen(ps)
    ensures s[..GlobalHeaderLen] == GlobalHeader(order, linkType)
  {
    RecordsLength(order, ps);
    GlobalHeader(order, linkType) + Records(order, ps)
  }

  /** Writing a list of packets after another appends exactly their records. */
  lemma RecordsAppend(order: ByteOrder, ps: seq<Packet>, qs: seq<Packet>)
    ensures Records(order, ps + qs) == Records(order, ps) + Records(order, qs)
  {
    FlattenEncodeAppend(RecordOf(order), ps, qs);
  }

  /** Within the records, record `k` starts after the records before it. */
  lemma RecordsAt(order: ByteOrder, ps: seq<Packet>, k: nat)
    requires k < |ps|
    ensures var off := RecordsLen(ps[..k]);
            && off + RecordHeaderLen + |ps[k].data| <= |Records(order, ps)|
            && Records(order, ps)[off..off + RecordHeaderLen + |ps[k].data|] == WritePacket(order, ps[k])
  {
    FlattenEncodeAt(RecordOf(order), ps, k);
    RecordsLength(order, ps[..k]);
  }

  /** Record `k` starts at byte 24 + the sizes (16 + payload length) of the
      records before it, and holds exactly that packet's record. */
  lemma RecordAtOffset(order: ByteOrder, linkType: int, ps: seq<Packet>, k: nat)
    requires 0 <= linkType < U32_LIMIT
    requires k < |ps|
    ensures var off := GlobalHeaderLen + RecordsLen(ps[..k]);
            var s := Stream(order, linkType, ps);
            && off + RecordHeaderLen + |ps[k].data| <= |s|
            && s[off..off + RecordHeaderLen + |ps[k].data|] == WritePacket(order, ps[k])
  {
    var h, r := GlobalHeader(order, linkType), Records(order, ps);
    var off, n := RecordsLen(ps[..k]), RecordHeaderLen + |ps[k].data|;
    RecordsAt(order, ps, k);
    assert Stream(order, linkType, ps) == h + r;
    SliceAfter(h, r, off, off + n);
  }

  /** A slice of the part after a prefix, seen from the whole. */
  lemma SliceAfter(h: seq<byte>, r: seq<byte>, a: nat, b: nat)
    requires a <= b <= |r|
    ensures (h + r)[|h| + a..|h| + b] == r[a..b]
  {
    assert forall i :: 0 <= i < b - a ==> (h + r)[|h| + a..|h| + b][i] == r[a..b][i];
  }

  // ---------------------------------------------------------------------------
  // Reader: the inverse of the writer
  // ---------------------------------------------------------------------------

  /** What a reader sees of one record. */
  datatype RecordView = RecordView(tsSec: int, tsUsec: int, capLen: int, origLen: int, data: seq<byte>)

  /** What a reader sees of a packet the writer wrote. */
  function View(p: Packet): RecordView
  {
    RecordView(TsSec(p.ts), TsUsec(p.ts), |p.data|, |p.data|, p.data)
  }

  function Views(ps: seq<Packet>): (vs: seq<RecordView>)
    ensures |vs| == |ps|
    ensures forall i :: 0 <= i < |ps| ==> vs[i] == View(ps[i])
  {
    if ps == [] then [] else [View(ps[0])] + Views(ps[1..])
  }

  /** Parses a sequence of records, each read by its captured-length field. */
  function ReadRecords(order: ByteOrder, s: seq<byte>): Option<seq<RecordView>>
    decreases |s|
  {
    if |s| == 0 then Some([])
    else if |s| < RecordHeaderLen then None
    else
      var capLen := GetU32(order, s[8..12]);
      if |s| < RecordHeaderLen + capLen then None
      else
        var view := RecordView(GetU32(order, s[0..4]), GetU32(order, s[4..8]), capLen,
                               GetU32(order, s[12..16]), s[RecordHeaderLen..RecordHeaderLen + capLen]);
        match ReadRecords(order, s[RecordHeaderLen + capLen..])
        case None => None
        case Some(rest) => Some([view] + rest)
  }

  /** What a reader sees of a whole file: link type and records. */
  datatype FileView = FileView(linkType: int, snapLen: int, records: seq<RecordView>)

  /** Parses a file written in `order`; `None` when the magic number does not
      read back in that order or the records do not parse. */
  function ReadStream(order: ByteOrder, s: seq<byte>): Option<FileView>
  {
    if |s| < GlobalHeaderLen || GetU32(order, s[0..4]) != MagicNumber then None
    else
      match ReadRecords(order, s[GlobalHeaderLen..])
      case None => None
      case Some(rs) => Some(FileView(GetU32(order, s[20..24]), GetU32(order, s[16..20]), rs))
  }

  /** Reading one record the writer produced, followed by anything. */
  lemma ReadOneRecord(order: ByteOrder, p: Packet, rest: seq<byte>)
    requires |p.data| < U32_LIMIT
    ensures ReadRecords(order, WritePacket(order, p) + rest) ==
              match ReadRecords(order, rest)
              case None => None
              case Some(vs) => Some([View(p)] + vs)
  {
    var rec := WritePacket(order, p);
    WritePacketFields(order, p);
    var s := rec + rest;
    assert s[0..4] == rec[0..4] && s[4..8] == rec[4..8] && s[8..12] == rec[8..12] && s[12..16] == rec[12..16];
    var n := |p.data|;
    assert s[RecordHeaderLen..RecordHeaderLen + n] == rec[RecordHeaderLen..] == p.data;
    assert s[RecordHeaderLen + n..] == rest;
  }

  /** Reading back the records the writer produced gives each packet's
      seconds, microseconds, lengths and bytes, in order. */
  lemma {:induction false} ReadRecordsRoundTrip(order: ByteOrder, ps: seq<Packet>)
    requires forall i :: 0 <= i < |ps| ==> |ps[i].data| < U32_LIMIT
    ensures ReadRecords(order, Records(order, ps)) == Some(Views(ps))
    decreases |ps|
  {
    if ps != [] {
      var rest := Records(order, ps[1..]);
      RecordsCons(order, ps);
      ReadOneRecord(order, ps[0], rest);
      ReadRecordsRoundTrip(order, ps[1..]);
    }
  }

  /** A file written with any byte order and link type reads back, in the same
      byte order, as that link type, the declared snapshot length and exactly
      the packets written. */
  lemma ReadStreamRoundTrip(order: ByteOrder, linkType: int, ps: seq<Packet>)
    requires 0 <= linkType < U32_LIMIT
    requires forall i :: 0 <= i < |ps| ==> |ps[i].data| < U32_LIMIT
    ensures ReadStream(order, Stream(order, linkType, ps)) == Some(FileView(linkType, SnapLen, Views(ps)))
  {
    var h := GlobalHeader(order, linkType);
    GlobalHeaderFields(order, linkType);
    var s := Stream(order, linkType, ps);
    assert s[0..4] == h[0..4] && s[16..20] == h[16..20] && s[20..24] == h[20..24];
    assert s[GlobalHeaderLen..] == Records(order, ps);
    ReadRecordsRoundTrip(order, ps);
  }

  /** The magic number written in one byte order reads back byte-swapped in
      the other. */
  lemma MagicSwapped()
    ensures GetU32(BigEndian, PutU32(LittleEndian, MagicNumber)) == 0xd4c3b2a1
    ensures GetU32(LittleEndian, PutU32(BigEndian, MagicNumber)) == 0xd4c3b2a1
  {
    assert PutU32(LittleEndian, MagicNumber) == [0xd4, 0xc3, 0xb2, 0xa1];
    assert PutU32(BigEndian, MagicNumber) == [0xa1, 0xb2, 0xc3, 0xd4];
  }

  /** Read in the other byte order, the magic number comes out byte-swapped,
      so a reader can tell which order a file was written in. */
  lemma ByteOrderDistinguishable(linkType: int, ps: seq<Packet>)
    requires 0 <= linkType < U32_LIMIT
    ensures ReadStream(BigEndian, Stream(LittleEndian, linkType, ps)).None?
    ensures ReadStream(LittleEndian, Stream(BigEndian, linkType, ps)).None?
  {
    MagicSwapped();
    var le, be := Stream(LittleEndian, linkType, ps), Stream(BigEndian, linkType, ps);
    var hl, hb := GlobalHeader(LittleEndian, linkType), GlobalHeader(BigEndian, linkType);
    GlobalHeaderFields(LittleEndian, linkType);
    GlobalHeaderFields(BigEndian, linkType);
    assert le[0..4] == hl[0..4] by { assert le[..GlobalHeaderLen] == hl; }
    assert be[0..4] == hb[0..4] by { assert be[..GlobalHeaderLen] == hb; }
    PutGetU32(LittleEndian, hl[0..4]);
    PutGetU32(BigEndian, hb[0..4]);
  }
}
