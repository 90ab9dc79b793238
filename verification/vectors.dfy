/** The frames of the decoder's own examples: a read-holding-registers request
    from unit 2 (8 bytes) and its 7-byte response carrying one register, and
    a run of bytes with no recognised function code; and a capture in which
    the response is cut in two by a silence gap. */
module Vectors {
  import opened Wrappers
  import opened Bytes
  import opened Modbus
  import opened Splitter
  import opened Pcap
  import opened Settings
  import opened Capture

  const RequestFrame: seq<byte> := [0x02, 0x03, 0x00, 0xB1, 0x00, 0x01, 0xD4, 0x1E]
  const ResponseFrame: seq<byte> := [0x02, 0x03, 0x02, 0x02, 0xBC, 0xFC, 0x95]
  const Garbage: seq<byte> := [0xFF, 0xFE, 0xFD, 0xFC, 0xFB, 0xFA]

  /** A request followed by its response splits into the two frames, the
      request first: the 8-byte request reading is taken at the start, and
      after it the 7-byte response reading is the one that fits. */
  lemma SplitRequestResponse()
    ensures SplitFrames(RequestFrame + ResponseFrame)
            == [Frame(RequestFrame, Request), Frame(ResponseFrame, Response)]
  {
    var data := RequestFrame + ResponseFrame;
    var table := FrameCandidates;
    ModbusTableAdvances();
    var req, resp := Frame(RequestFrame, Request), Frame(ResponseFrame, Response);
    assert data[0..] == data && data[0..8] == RequestFrame;
    assert data[8..] == ResponseFrame && data[8..15] == ResponseFrame;
    FrameCandidatesTable(data);
    FrameCandidatesTable(ResponseFrame);
    assert table(data[0..]) == [Candidate(8, Request), Candidate(5, Response)];
    assert table(data[8..]) == [Candidate(8, Request), Candidate(7, Response)];
    assert Items(Some([req])) + [resp] == [req, resp];
    assert Items(None) + [req] == [req];
    assert SplitFrom(table, data, 15, Some([req, resp])) == Some([req, resp]);
    assert TryCandidates(table, data, 8, Some([req]), [Candidate(7, Response)]) == Some([req, resp]);
    assert TryCandidates(table, data, 8, Some([req]), table(data[8..])) == Some([req, resp]);
    assert SplitFrom(table, data, 8, Some([req])) == Some([req, resp]);
    assert TryCandidates(table, data, 0, None, table(data[0..])) == Some([req, resp]);
    assert SplitExact(table, data) == Some([req, resp]);
  }

  /** The request alone is one request frame: the 8-byte reading consumes
      it exactly. */
  lemma SplitSingleRequest()
    ensures SplitFrames(RequestFrame) == [Frame(RequestFrame, Request)]
  {
    var table := FrameCandidates;
    ModbusTableAdvances();
    var req := Frame(RequestFrame, Request);
    assert RequestFrame[0..] == RequestFrame && RequestFrame[0..8] == RequestFrame;
    FrameCandidatesTable(RequestFrame);
    assert table(RequestFrame[0..]) == [Candidate(8, Request), Candidate(5, Response)];
    assert Items(None) + [req] == [req];
    assert SplitFrom(table, RequestFrame, 8, Some([req])) == Some([req]);
    assert TryCandidates(table, RequestFrame, 0, None, table(RequestFrame[0..])) == Some([req]);
    assert SplitExact(table, RequestFrame) == Some([req]);
  }

  /** Request, response, request: the search first reads the response and
      the next request's address byte as one 8-byte request, which leaves a
      dead end at offset 16 (function code 0x00 has no reading); it
      backtracks, reads the 7-byte response, and the second request then ends
      the buffer exactly. */
  lemma SplitRequestResponseRequest()
    ensures SplitFrames(RequestFrame + ResponseFrame + RequestFrame)
            == [Frame(RequestFrame, Request), Frame(ResponseFrame, Response), Frame(RequestFrame, Request)]
  {
    var data := RequestFrame + ResponseFrame + RequestFrame;
    var table := FrameCandidates;
    ModbusTableAdvances();
    var req, resp := Frame(RequestFrame, Request), Frame(ResponseFrame, Response);
    assert data[0..] == data && data[0..8] == RequestFrame;
    assert data[8..15] == ResponseFrame && data[15..] == RequestFrame && data[15..23] == RequestFrame;
    FrameCandidatesTable(data);
    FrameCandidatesTable(data[8..]);
    FrameCandidatesTable(data[15..]);
    assert table(data[0..]) == [Candidate(8, Request), Candidate(5, Response)];
    assert table(data[8..]) == [Candidate(8, Request), Candidate(7, Response)];
    assert table(data[15..]) == [Candidate(8, Request), Candidate(5, Response)];
    assert data[16..][1] == 0x00 && table(data[16..]) == [];
    // The dead end: the response plus one more byte read as a request.
    var wrong := Frame(data[8..16], Request);
    var dead := Some([req, wrong]);
    assert SplitFrom(table, data, 16, dead) == None;
    assert Items(Some([req])) + [wrong] == [req, wrong];
    // The way through: the 7-byte response, then the request.
    assert Items(Some([req])) + [resp] == [req, resp];
    assert Items(Some([req, resp])) + [req] == [req, resp, req];
    assert SplitFrom(table, data, 23, Some([req, resp, req])) == Some([req, resp, req]);
    assert TryCandidates(table, data, 15, Some([req, resp]), table(data[15..])) == Some([req, resp, req]);
    assert SplitFrom(table, data, 15, Some([req, resp])) == Some([req, resp, req]);
    assert TryCandidates(table, data, 8, Some([req]), [Candidate(7, Response)]) == Some([req, resp, req]);
    assert TryCandidates(table, data, 8, Some([req]), table(data[8..])) == Some([req, resp, req]);
    assert SplitFrom(table, data, 8, Some([req])) == Some([req, resp, req]);
    assert Items(None) + [req] == [req];
    assert TryCandidates(table, data, 0, None, table(data[0..])) == Some([req, resp, req]);
    assert SplitExact(table, data) == Some([req, resp, req]);
  }

  /** A buffer with two exact splits: an 8-byte read request and a 5-byte
      exception response, or a 5-byte read response and an 8-byte single
      write. */
  const TwoSplits: seq<byte> := [0x01, 0x03, 0x00, 0x00, 0x00, 0x01, 0x05, 0x00, 0x01, 0x83, 0x00, 0x00, 0x00]

  /** The search tries the request reading first, and since the rest of the
      buffer then splits exactly, it never reaches the other split. */
  lemma SplitPrefersRequestReading()
    ensures SplitFrames(TwoSplits) == [Frame(TwoSplits[..8], Request), Frame(TwoSplits[8..], Response)]
  {
    var data := TwoSplits;
    var table := FrameCandidates;
    ModbusTableAdvances();
    var req, exc := Frame(data[..8], Request), Frame(data[8..], Response);
    assert data[0..] == data && data[0..8] == data[..8] && data[8..13] == data[8..];
    FrameCandidatesTable(data);
    FrameCandidatesTable(data[8..]);
    assert table(data[0..]) == [Candidate(8, Request), Candidate(5, Response)];
    assert table(data[8..]) == [Candidate(5, Response)];
    assert Items(None) + [req] == [req];
    assert Items(Some([req])) + [exc] == [req, exc];
    assert SplitFrom(table, data, 13, Some([req, exc])) == Some([req, exc]);
    assert TryCandidates(table, data, 8, Some([req]), table(data[8..])) == Some([req, exc]);
    assert SplitFrom(table, data, 8, Some([req])) == Some([req, exc]);
    assert TryCandidates(table, data, 0, None, table(data[0..])) == Some([req, exc]);
    assert SplitExact(table, data) == Some([req, exc]);
  }

  /** The split the search passes over is an exact split too. */
  lemma TwoSplitsOtherSplit()
    ensures ValidSplit(FrameCandidates, TwoSplits, 0, [Frame(TwoSplits[..5], Response), Frame(TwoSplits[5..], Unknown)])
  {
    var data := TwoSplits;
    var table := FrameCandidates;
    var resp, single := Frame(data[..5], Response), Frame(data[5..], Unknown);
    assert data[0..] == data && data[0..5] == data[..5] && data[5..13] == data[5..];
    FrameCandidatesTable(data);
    FrameCandidatesTable(data[5..]);
    assert table(data[0..]) == [Candidate(8, Request), Candidate(5, Response)];
    assert table(data[5..]) == [Candidate(8, Unknown)];
    assert Tiles(table, data, 13, [], 13);
    assert Tiles(table, data, 5, [single], 13);
    assert Tiles(table, data, 0, [resp, single], 13);
  }

  /** The frame lengths the decoder's tests expect: 8 for reads and single
      writes, 9 plus the byte count for multiple writes, 5 for exceptions, and
      -1 for unknown function codes and for bytes too short to tell. */
  lemma FrameLenVectors()
    ensures FrameLen([0x01, 0x01, 0, 0, 0, 0, 0, 0]) == 8
    ensures FrameLen([0x01, 0x02, 0, 0, 0, 0, 0, 0]) == 8
    ensures FrameLen(RequestFrame) == 8
    ensures FrameLen([0x01, 0x04, 0, 0, 0, 0, 0, 0]) == 8
    ensures FrameLen([0x01, 0x05, 0, 0, 0, 0, 0, 0]) == 8
    ensures FrameLen([0x01, 0x06, 0, 0, 0, 0, 0, 0]) == 8
    ensures FrameLen([0x01, 0x0F, 0, 0, 0, 0, 3, 0, 0, 0, 0, 0]) == 12
    ensures FrameLen([0x01, 0x10, 0, 0, 0, 0, 4, 0, 0, 0, 0, 0, 0]) == 13
    ensures FrameLen([0x01, 0x81, 0x02, 0, 0]) == 5
    ensures FrameLen([0x01, 0x83, 0x02, 0, 0]) == 5
    ensures FrameLen([0x01, 0x90, 0x01, 0, 0]) == 5
    ensures FrameLen([0x01, 0x00, 0, 0, 0, 0]) == -1
    ensures FrameLen([0x01, 0x07, 0, 0, 0, 0]) == -1
    ensures FrameLen([0x01, 0x7F, 0, 0, 0, 0]) == -1
    ensures FrameLen([0x01, 0x91, 0, 0, 0, 0]) == -1
    ensures FrameLen([0x01, 0xFF, 0, 0, 0, 0]) == -1
    ensures FrameLen([]) == -1
    ensures FrameLen([0x01]) == -1
    ensures FrameLen([0x01, 0x0F, 0, 0, 0, 0]) == -1
    ensures FrameLen([0x01, 0x10, 0, 0, 0, 0]) == -1
  {
  }

  /** Bytes with no recognised function code cannot be split and come back
      as one frame of unknown direction. */
  lemma SplitGarbage()
    ensures SplitFrames(Garbage) == [Frame(Garbage, Unknown)]
  {
    ModbusTableAdvances();
    assert Garbage[0..] == Garbage;
    assert FrameCandidates(Garbage) == [];
    assert SplitExact(FrameCandidates, Garbage) == None;
  }

  /** The request followed by the first two bytes of the response: there is
      no exact split, so the greedy parse takes the request and leaves the
      two bytes, copied, as the remainder. */
  lemma PartialRequestAndHead()
    ensures SplitFramesPartial(RequestFrame + ResponseFrame[..2])
            == ([Frame(RequestFrame, Request)], Some(ResponseFrame[..2]))
  {
    var data := RequestFrame + ResponseFrame[..2];
    var table := FrameCandidates;
    ModbusTableAdvances();
    var req := Frame(RequestFrame, Request);
    var short := Frame(data[0..5], Response);
    assert data[0..] == data && data[0..8] == RequestFrame;
    assert data[8..] == ResponseFrame[..2] == [0x02, 0x03];
    assert data[5..] == [0x01, 0xD4, 0x1E, 0x02, 0x03];
    FrameCandidatesTable(data);
    assert table(data[0..]) == [Candidate(8, Request), Candidate(5, Response)];
    assert table(data[8..]) == [Candidate(8, Request)];
    assert table(data[5..]) == [];
    assert Items(None) + [req] == [req] && Items(None) + [short] == [short];
    assert TryCandidates(table, data, 8, Some([req]), table(data[8..])) == None;
    assert SplitFrom(table, data, 8, Some([req])) == None;
    assert SplitFrom(table, data, 5, Some([short])) == None;
    assert TryCandidates(table, data, 0, None, [Candidate(5, Response)]) == None;
    assert TryCandidates(table, data, 0, None, table(data[0..])) == None;
    assert SplitExact(table, data) == None;
    assert FitAt(table, data, 8) == None;
    assert Greedy(table, data, 8) == ([], 8);
    assert FitAt(table, data, 0) == Some(Candidate(8, Request));
    assert [req] + [] == [req];
    assert Greedy(table, data, 0) == ([req], 8);
  }

  /** The last five bytes of the response on their own: the function-code
      position holds a read code whose byte count promises 193 bytes, so no
      reading fits and everything is remainder. */
  lemma PartialResponseTail()
    ensures SplitFramesPartial(ResponseFrame[2..]) == ([], Some(ResponseFrame[2..]))
  {
    var data := ResponseFrame[2..];
    var table := FrameCandidates;
    ModbusTableAdvances();
    assert data[0..] == data == [0x02, 0x02, 0xBC, 0xFC, 0x95];
    FrameCandidatesTable(data);
    assert table(data) == [Candidate(8, Request), Candidate(193, Response)];
    assert TryCandidates(table, data, 0, None, [Candidate(193, Response)]) == None;
    assert TryCandidates(table, data, 0, None, table(data[0..])) == None;
    assert SplitExact(table, data) == None;
    assert FitAt(table, data, 0) == None;
    assert Greedy(table, data, 0) == ([], 0);
  }

  /** The whole response splits exactly into itself. */
  lemma PartialResponse()
    ensures SplitFramesPartial(ResponseFrame) == ([Frame(ResponseFrame, Response)], None)
  {
    var data := ResponseFrame;
    var table := FrameCandidates;
    ModbusTableAdvances();
    var resp := Frame(ResponseFrame, Response);
    assert data[0..] == data && data[0..7] == data;
    FrameCandidatesTable(data);
    assert table(data) == [Candidate(8, Request), Candidate(7, Response)];
    assert Items(None) + [resp] == [resp];
    assert SplitFrom(table, data, 7, Some([resp])) == Some([resp]);
    assert TryCandidates(table, data, 0, None, [Candidate(7, Response)]) == Some([resp]);
    assert TryCandidates(table, data, 0, None, table(data[0..])) == Some([resp]);
    assert SplitExact(table, data) == Some([resp]);
  }

  /** The state after the first window: the request written and counted,
      the buffer empty, the two response bytes carried, timed at the end of
      the request on the wire. */
  function AfterFirstWindow(cfg: Config, t1: Time): State
  {
    State([], t1, Some(ResponseFrame[..2]), t1 + cfg.wire(8), false,
          Output([Encapsulate(Record(t1, Request, RequestFrame))], 1, 1, 0, 0))
  }

  /** The first window: the request and two bytes of the response. */
  lemma FirstWindow(cfg: Config, t1: Time)
    requires cfg.modbusMode
    ensures Flush(cfg, OnChunk(Initial, RequestFrame + ResponseFrame[..2], t1), []) == AfterFirstWindow(cfg, t1)
  {
    var s0 := OnChunk(Initial, RequestFrame + ResponseFrame[..2], t1);
    PartialRequestAndHead();
    var req := Frame(RequestFrame, Request);
    var p := ParseFlush(cfg, s0);
    assert p == Parse(s0.packetBuf, t1, [req], Some(ResponseFrame[..2]));
    assert Concat([req]) == RequestFrame;
    var r := Record(t1, Request, RequestFrame);
    assert ModbusRecords(cfg, p) == [r];
    assert Carried(cfg, p) == (Some(ResponseFrame[..2]), t1 + cfg.wire(8));
    var o := Output([Encapsulate(r)], 1, 1, 0, 0);
    assert Tally(Initial.out, Encapsulate, r, true) == o;
    assert Emit(Initial.out, Encapsulate, [r], [], 0) == (o, false);
  }

  /** The second window: the last five response bytes, within the threshold
      of the carried bytes' time. */
  lemma SecondWindow(cfg: Config, t1: Time, t2: Time)
    requires cfg.modbusMode
    requires t2 - (t1 + cfg.wire(8)) <= cfg.silence
    ensures Flush(cfg, OnChunk(AfterFirstWindow(cfg, t1), ResponseFrame[2..], t2), [])
            == State([], t2, None, ZeroTime, false,
                     Output([Encapsulate(Record(t1, Request, RequestFrame)),
                             Encapsulate(Record(t1 + cfg.wire(8), Response, ResponseFrame))], 2, 1, 1, 0))
  {
    var s1 := AfterFirstWindow(cfg, t1);
    var s := OnChunk(s1, ResponseFrame[2..], t2);
    PartialResponseTail();
    PartialResponse();
    assert ResponseFrame[..2] + ResponseFrame[2..] == ResponseFrame;
    assert Retries(cfg, s);
    var resp := Frame(ResponseFrame, Response);
    var p := ParseFlush(cfg, s);
    assert p == Parse(ResponseFrame, t1 + cfg.wire(8), [resp], None);
    var r := Record(t1 + cfg.wire(8), Response, ResponseFrame);
    assert ModbusRecords(cfg, p) == [r];
    assert Carried(cfg, p) == (None, ZeroTime);
    var o := Output(s1.out.written + [Encapsulate(r)], 2, 1, 1, 0);
    assert Tally(s1.out, Encapsulate, r, true) == o;
    assert Emit(s1.out, Encapsulate, [r], [], 0) == (o, false);
  }

  /** The second window arriving too late: the carried bytes are stale and
      dropped, the five bytes alone give no frame, and they are written as
      one record of unknown direction at their own first-byte time. */
  lemma SecondWindowStale(cfg: Config, t1: Time, t2: Time)
    requires cfg.modbusMode
    requires t2 - (t1 + cfg.wire(8)) > cfg.silence
    ensures Flush(cfg, OnChunk(AfterFirstWindow(cfg, t1), ResponseFrame[2..], t2), [])
            == State([], t2, None, ZeroTime, false,
                     Output([Encapsulate(Record(t1, Request, RequestFrame)),
                             Encapsulate(Record(t2, Unknown, ResponseFrame[2..]))], 2, 1, 0, 1))
  {
    var s1 := AfterFirstWindow(cfg, t1);
    var s := OnChunk(s1, ResponseFrame[2..], t2);
    assert s == s1.(packetBuf := ResponseFrame[2..], firstByteTime := t2);
    assert Surviving(cfg, s) == None;
    PartialResponseTail();
    assert !Retries(cfg, s);
    var p := ParseFlush(cfg, s);
    assert p == Parse(ResponseFrame[2..], t2, [], Some(ResponseFrame[2..]));
    var r := Record(t2, Unknown, ResponseFrame[2..]);
    assert ModbusRecords(cfg, p) == [r];
    assert Carried(cfg, p) == (None, ZeroTime);
    var o := Output(s1.out.written + [Encapsulate(r)], 2, 1, 0, 1);
    assert Tally(s1.out, Encapsulate, r, true) == o;
    assert Emit(s1.out, Encapsulate, [r], [], 0) == (o, false);
  }

  /** A response cut in two by a silence gap. The first window holds the
      request and two bytes of the response: the request is written at the
      window's first-byte time and the two bytes are carried, timed at the end
      of the request on the wire. The second window holds the other five
      bytes, arriving within the threshold of that time: on their own they
      give no frame, so the carried bytes are prepended and the response is
      written, timed at the carried bytes' time, with nothing left over. */
  lemma ResponseAcrossTwoWindows(cfg: Config, t1: Time, t2: Time)
    requires cfg.modbusMode
    requires t2 - (t1 + cfg.wire(8)) <= cfg.silence
    ensures var s1 := Flush(cfg, OnChunk(Initial, RequestFrame + ResponseFrame[..2], t1), []);
            var s2 := Flush(cfg, OnChunk(s1, ResponseFrame[2..], t2), []);
            && s1.out.written == [Encapsulate(Record(t1, Request, RequestFrame))]
            && s1.prevExtra == Some(ResponseFrame[..2])
            && s2.out.written == s1.out.written + [Encapsulate(Record(t1 + cfg.wire(8), Response, ResponseFrame))]
            && s2.prevExtra == None
            && s2.packetBuf == []
            && s2.out.txCount == 1 && s2.out.rxCount == 1 && s2.out.unknownCount == 0
  {
    FirstWindow(cfg, t1);
    SecondWindow(cfg, t1, t2);
  }
}
