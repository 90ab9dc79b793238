/** Modbus RTU frames and the frame classifier: given bytes that start at a
    frame boundary (address byte, then function code), the table of lengths
    and directions a frame starting there may have. */
module Modbus {
  import opened Bytes

  /** Direction of a frame. */
  datatype Direction = Unknown | Request | Response

  /** The numeric value of a direction, which doubles as the RTAC serial
      event-type byte (0 status change, 1 transmit start, 2 receive start). */
  function DirectionCode(d: Direction): (b: byte)
    ensures b <= 2
    ensures (b == 0) == d.Unknown? && (b == 1) == d.Request? && (b == 2) == d.Response?
  {
    match d
    case Unknown => 0x00
    case Request => 0x01
    case Response => 0x02
  }

  /** A frame cut out of a capture buffer, with its classified direction. */
  datatype Frame = Frame(data: seq<byte>, dir: Direction)

  /** One possible (length, direction) reading of the bytes at a frame start. */
  datatype Candidate = Candidate(length: nat, dir: Direction)

  /** Read coils / discrete inputs / holding registers / input registers. */
  predicate IsReadCode(fc: byte) { 0x01 <= fc <= 0x04 }

  /** Write single coil / single register. */
  predicate IsWriteSingleCode(fc: byte) { fc == 0x05 || fc == 0x06 }

  /** Write multiple coils / multiple registers. */
  predicate IsWriteMultipleCode(fc: byte) { fc == 0x0F || fc == 0x10 }

  /** Exception responses (function code with the high bit set). */
  predicate IsExceptionCode(fc: byte) { 0x81 <= fc <= 0x90 }

  /** The bytes carry a recognised function code and enough bytes to read the
      length fields that code needs. */
  predicate Classifiable(data: seq<byte>)
  {
    && |data| >= 2
    && (|| IsReadCode(data[1])
        || IsWriteSingleCode(data[1])
        || (IsWriteMultipleCode(data[1]) && |data| >= 7)
        || IsExceptionCode(data[1]))
  }

  /** The candidate table, preferred reading first. At most two readings,
      never sharing a length, and when there are two the request is preferred. */
  function FrameCandidates(data: seq<byte>): (cs: seq<Candidate>)
    ensures cs == [] <==> !Classifiable(data)
    ensures |cs| <= 2
    ensures |cs| >= 1 ==> 5 <= cs[0].length <= 264
    ensures |cs| == 2 ==> 5 <= cs[1].length <= 264
    ensures |cs| == 2 ==> cs[0].length != cs[1].length && cs[0].dir == Request && cs[1].dir == Response
  {
    if |data| < 2 then []
    else
      var fc := data[1];
      if IsReadCode(fc) then
        var request := [Candidate(8, Request)];
        if |data| >= 3 && 5 + data[2] as int != 8 then
          request + [Candidate(5 + data[2] as int, Response)]
        else
          request
      else if IsWriteSingleCode(fc) then
        [Candidate(8, Unknown)]
      else if IsWriteMultipleCode(fc) then
        if |data| < 7 then [] else [Candidate(9 + data[6] as int, Request), Candidate(8, Response)]
      else if IsExceptionCode(fc) then
        [Candidate(5, Response)]
      else
        []
  }

  /** The table row by function-code class: a read is an 8-byte request or,
      when the byte-count field gives a different length, a response of
      5 + byte count bytes; a single write is 8 bytes of either direction; a
      multiple write is a 9 + byte-count request or an 8-byte response; an
      exception response is 5 bytes. */
  lemma FrameCandidatesTable(data: seq<byte>)
    ensures var cs := FrameCandidates(data);
            Classifiable(data) && IsReadCode(data[1]) ==>
              && cs[0] == Candidate(8, Request)
              && (|cs| == 2 <==> |data| >= 3 && 5 + data[2] as int != 8)
              && (|cs| == 2 ==> cs[1] == Candidate(5 + data[2] as int, Response))
    ensures var cs := FrameCandidates(data);
            Classifiable(data) && IsWriteSingleCode(data[1]) ==> cs == [Candidate(8, Unknown)]
    ensures var cs := FrameCandidates(data);
            Classifiable(data) && IsWriteMultipleCode(data[1]) ==>
              cs == [Candidate(9 + data[6] as int, Request), Candidate(8, Response)]
    ensures var cs := FrameCandidates(data);
            Classifiable(data) && IsExceptionCode(data[1]) ==> cs == [Candidate(5, Response)]
  {
  }

  /** The preferred frame length, or -1 when it cannot be determined. */
  function FrameLen(data: seq<byte>): (n: int)
    ensures n == -1 <==> !Classifiable(data)
    ensures n != -1 ==> 5 <= n <= 264
    ensures Classifiable(data) && (IsReadCode(data[1]) || IsWriteSingleCode(data[1])) ==> n == 8
    ensures Classifiable(data) && IsWriteMultipleCode(data[1]) ==> n == 9 + data[6] as int
    ensures Classifiable(data) && IsExceptionCode(data[1]) ==> n == 5
  {
    FrameCandidatesTable(data);
    var cs := FrameCandidates(data);
    if |cs| == 0 then -1 else cs[0].length
  }

  /** CRC-16 check of a frame. This is a placeholder that accepts every frame;
      the splitter consults it at exactly one place per candidate, so a real
      check can replace it without touching any other definition. */
  predicate ValidCRC(frame: seq<byte>)
  {
    true
  }
}
