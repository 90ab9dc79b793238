/** Splitting a captured buffer into Modbus RTU frames: an exact depth-first
    search that must consume every byte, a greedy prefix parse for buffers that
    end mid-frame, and the two entry points built from them.

    The search and the parse are written over any candidate table whose
    readings are non-empty; the entry points use the Modbus table
    `FrameCandidates`. */
module Splitter {
  import opened Wrappers
  import opened Bytes
  import opened Modbus

  /** A candidate table: the readings a frame starting with the given bytes
      may have, preferred first. */
  type Table = seq<byte> -> seq<Candidate>

  /** Every reading the table offers is at least one byte long, so the
      search always moves forward. */
  ghost predicate Advances(table: Table)
  {
    forall d: seq<byte>, i :: 0 <= i < |table(d)| ==> table(d)[i].length > 0
  }

  /** The Modbus table offers only readings of 5 bytes or more. */
  lemma ModbusTableAdvances()
    ensures Advances(FrameCandidates)
  {
    forall d: seq<byte>, i | 0 <= i < |FrameCandidates(d)|
      ensures FrameCandidates(d)[i].length > 0
    {
      assert i == 0 || i == 1;
    }
  }

  /** The bytes of a frame list laid end to end. */
  function Concat(fs: seq<Frame>): seq<byte>
  {
    if fs == [] then [] else fs[0].data + Concat(fs[1..])
  }

  lemma {:induction false} ConcatAppend(fs: seq<Frame>, gs: seq<Frame>)
    ensures Concat(fs + gs) == Concat(fs) + Concat(gs)
    decreases |fs|
  {
    if fs == [] {
      assert fs + gs == gs;
    } else {
      assert (fs + gs)[0] == fs[0];
      assert (fs + gs)[1..] == fs[1..] + gs;
      ConcatAppend(fs[1..], gs);
    }
  }

  /** The frames held by a Go slice; the nil slice holds none. */
  function Items(acc: Option<seq<Frame>>): seq<Frame>
  {
    acc.GetOr([])
  }

  /** Candidate `c` fits in the buffer at `pos` and its bytes pass the CRC check. */
  predicate Fits(data: seq<byte>, pos: nat, c: Candidate)
  {
    pos + c.length <= |data| && ValidCRC(data[pos..pos + c.length])
  }

  /** `fs` cuts `data[pos..end]` into frames, each of which is a table candidate
      at its own start offset that fits and passes the CRC check. */
  ghost predicate Tiles(table: Table, data: seq<byte>, pos: nat, fs: seq<Frame>, end: nat)
    decreases |fs|
  {
    if fs == [] then pos == end
    else
      var c := Candidate(|fs[0].data|, fs[0].dir);
      && pos <= |data|
      && c in table(data[pos..])
      && Fits(data, pos, c)
      && fs[0].data == data[pos..pos + c.length]
      && Tiles(table, data, pos + c.length, fs[1..], end)
  }

  /** `fs` is an exact split of everything from `pos` on. */
  ghost predicate ValidSplit(table: Table, data: seq<byte>, pos: nat, fs: seq<Frame>)
  {
    pos <= |data| && Tiles(table, data, pos, fs, |data|)
  }

  /** Prepending a frame that is a fitting candidate at `pos` extends a tiling. */
  lemma TilesCons(table: Table, data: seq<byte>, pos: nat, frame: Frame, rest: seq<Frame>, end: nat)
    requires pos <= |data|
    requires Candidate(|frame.data|, frame.dir) in table(data[pos..])
    requires Fits(data, pos, Candidate(|frame.data|, frame.dir))
    requires frame.data == data[pos..pos + |frame.data|]
    requires Tiles(table, data, pos + |frame.data|, rest, end)
    ensures Tiles(table, data, pos, [frame] + rest, end)
  {
    assert ([frame] + rest)[0] == frame;
    assert ([frame] + rest)[1..] == rest;
  }

  /** A tiling covers exactly the bytes between its two ends. */
  lemma {:induction false} TilesConcat(table: Table, data: seq<byte>, pos: nat, fs: seq<Frame>, end: nat)
    requires Tiles(table, data, pos, fs, end)
    requires pos <= |data|
    ensures pos <= end <= |data|
    ensures Concat(fs) == data[pos..end]
    decreases |fs|
  {
    if fs != [] {
      var n := |fs[0].data|;
      TilesConcat(table, data, pos + n, fs[1..], end);
      assert data[pos..end] == data[pos..pos + n] + data[pos + n..end];
    }
  }

  // ---------------------------------------------------------------------------
  // Exact split: depth-first search with backtracking
  // ---------------------------------------------------------------------------

  /** Tries to cut all of `data[pos..]` into frames appended to `acc`; `None`
      when no exact split exists. When `pos` is already at the end the
      accumulator is returned as it is, so the nil accumulator of an empty
      buffer comes back as `None` too. */
  function SplitFrom(table: Table, data: seq<byte>, pos: nat, acc: Option<seq<Frame>>): Option<seq<Frame>>
    requires Advances(table)
    requires pos <= |data|
    decreases |data| - pos, 1
  {
    if pos == |data| then acc
    else TryCandidates(table, data, pos, acc, table(data[pos..]))
  }

  /** The loop over the candidates at `pos`, in table order: skip a candidate
      that does not fit or fails the CRC check, otherwise recurse past it and
      return the first success. */
  function TryCandidates(table: Table, data: seq<byte>, pos: nat, acc: Option<seq<Frame>>, cs: seq<Candidate>): Option<seq<Frame>>
    requires Advances(table)
    requires pos < |data|
    requires forall i :: 0 <= i < |cs| ==> cs[i].length > 0
    decreases |data| - pos, 0, |cs|
  {
    if cs == [] then None
    else
      var c := cs[0];
      if !Fits(data, pos, c) then TryCandidates(table, data, pos, acc, cs[1..])
      else
        var frame := Frame(data[pos..pos + c.length], c.dir);
        var result := SplitFrom(table, data, pos + c.length, Some(Items(acc) + [frame]));
        if result.Some? then result
        else TryCandidates(table, data, pos, acc, cs[1..])
  }

  /** `r`, when present, is the accumulator followed by an exact split of `data[pos..]`. */
  ghost predicate ExtendsBySplit(table: Table, data: seq<byte>, pos: nat, acc: Option<seq<Frame>>, r: Option<seq<Frame>>)
  {
    r.Some? ==>
      && |Items(acc)| <= |r.value|
      && r.value[..|Items(acc)|] == Items(acc)
      && Tiles(table, data, pos, r.value[|Items(acc)|..], |data|)
  }

  /** Soundness of the search: a result extends the accumulator with an exact
      split of `data[pos..]`. */
  lemma {:induction false} SplitFromSound(table: Table, data: seq<byte>, pos: nat, acc: Option<seq<Frame>>)
    requires Advances(table)
    requires pos <= |data|
    ensures ExtendsBySplit(table, data, pos, acc, SplitFrom(table, data, pos, acc))
    decreases |data| - pos, 1
  {
    if pos == |data| {
      var r := SplitFrom(table, data, pos, acc);
      if r.Some? {
        assert r.value[|Items(acc)|..] == [];
      }
    } else {
      var cs := table(data[pos..]);
      TryCandidatesSound(table, data, pos, acc, cs);
    }
  }

  lemma {:induction false} TryCandidatesSound(table: Table, data: seq<byte>, pos: nat, acc: Option<seq<Frame>>, cs: seq<Candidate>)
    requires Advances(table)
    requires pos < |data|
    requires forall i :: 0 <= i < |cs| ==> cs[i].length > 0
    requires forall i :: 0 <= i < |cs| ==> cs[i] in table(data[pos..])
    ensures ExtendsBySplit(table, data, pos, acc, TryCandidates(table, data, pos, acc, cs))
    decreases |data| - pos, 0, |cs|
  {
    if cs != [] {
      var c := cs[0];
      if Fits(data, pos, c) {
        var frame := Frame(data[pos..pos + c.length], c.dir);
        var acc' := Some(Items(acc) + [frame]);
        var result := SplitFrom(table, data, pos + c.length, acc');
        SplitFromSound(table, data, pos + c.length, acc');
        assert TryCandidates(table, data, pos, acc, cs) ==
               if result.Some? then result else TryCandidates(table, data, pos, acc, cs[1..]);
        if result.Some? {
          var r := result.value;
          var k := |Items(acc)|;
          assert Items(acc') == Items(acc) + [frame];
          assert r[..k + 1] == Items(acc) + [frame];
          assert r[..k] == r[..k + 1][..k];
          assert r[k] == frame;
          assert r[k..] == [frame] + r[k + 1..];
          TilesCons(table, data, pos, frame, r[k + 1..], |data|);
        } else {
          TryCandidatesSound(table, data, pos, acc, cs[1..]);
        }
      } else {
        assert TryCandidates(table, data, pos, acc, cs) == TryCandidates(table, data, pos, acc, cs[1..]);
        TryCandidatesSound(table, data, pos, acc, cs[1..]);
      }
    }
  }

  /** Completeness of the search: whenever an exact split of `data[pos..]`
      exists, the search finds one (unless both the buffer rest and the
      accumulator are empty, where the nil accumulator is returned). */
  lemma {:induction false} SplitFromComplete(table: Table, data: seq<byte>, pos: nat, acc: Option<seq<Frame>>, fs: seq<Frame>)
    requires Advances(table)
    requires ValidSplit(table, data, pos, fs)
    requires acc.Some? || pos < |data|
    ensures SplitFrom(table, data, pos, acc).Some?
    decreases |data| - pos, 1
  {
    if pos < |data| {
      assert fs != [];
      TryCandidatesComplete(table, data, pos, acc, table(data[pos..]), fs);
    }
  }

  lemma {:induction false} TryCandidatesComplete(table: Table, data: seq<byte>, pos: nat, acc: Option<seq<Frame>>, cs: seq<Candidate>, fs: seq<Frame>)
    requires Advances(table)
    requires pos < |data|
    requires forall i :: 0 <= i < |cs| ==> cs[i].length > 0
    requires ValidSplit(table, data, pos, fs) && fs != []
    requires Candidate(|fs[0].data|, fs[0].dir) in cs
    ensures TryCandidates(table, data, pos, acc, cs).Some?
    decreases |data| - pos, 0, |cs|
  {
    var c := cs[0];
    var first := Candidate(|fs[0].data|, fs[0].dir);
    if c == first {
      var frame := Frame(data[pos..pos + c.length], c.dir);
      assert frame == fs[0];
      SplitFromComplete(table, data, pos + c.length, Some(Items(acc) + [frame]), fs[1..]);
    } else {
      assert first in cs[1..];
      if Fits(data, pos, c) {
        var frame := Frame(data[pos..pos + c.length], c.dir);
        if SplitFrom(table, data, pos + c.length, Some(Items(acc) + [frame])).None? {
          TryCandidatesComplete(table, data, pos, acc, cs[1..], fs);
        }
      } else {
        TryCandidatesComplete(table, data, pos, acc, cs[1..], fs);
      }
    }
  }

  /** The exact split of a whole buffer, if any: the search from offset 0
      with the nil accumulator. */
  function SplitExact(table: Table, data: seq<byte>): (r: Option<seq<Frame>>)
    requires Advances(table)
    ensures r.Some? ==> |data| > 0 && ValidSplit(table, data, 0, r.value)
  {
    SplitFromSound(table, data, 0, None);
    assert forall fs: seq<Frame> :: fs[0..] == fs;
    SplitFrom(table, data, 0, None)
  }

  /** The search succeeds on a buffer exactly when the buffer is non-empty and
      some exact split of it exists. */
  lemma SplitExactComplete(table: Table, data: seq<byte>)
    requires Advances(table)
    ensures SplitExact(table, data).Some? <==> |data| > 0 && exists fs :: ValidSplit(table, data, 0, fs)
  {
    if |data| > 0 && exists fs :: ValidSplit(table, data, 0, fs) {
      var fs :| ValidSplit(table, data, 0, fs);
      SplitFromComplete(table, data, 0, None, fs);
    }
  }

  /** Splits a buffer into Modbus frames, or returns the whole buffer as one
      frame of unknown direction when no exact split exists. */
  function SplitFrames(data: seq<byte>): (fs: seq<Frame>)
    ensures Concat(fs) == data
    ensures fs == [Frame(data, Unknown)] || (|data| > 0 && ValidSplit(FrameCandidates, data, 0, fs))
  {
    ModbusTableAdvances();
    match SplitExact(FrameCandidates, data)
    case None => [Frame(data, Unknown)]
    case Some(r) =>
      TilesConcat(FrameCandidates, data, 0, r, |data|);
      r
  }

  /** `SplitFrames` returns an exact split exactly when one exists, and the
      single unknown-direction frame otherwise. */
  lemma SplitFramesExact(data: seq<byte>)
    ensures ValidSplit(FrameCandidates, data, 0, SplitFrames(data)) <==>
              |data| > 0 && exists fs :: ValidSplit(FrameCandidates, data, 0, fs)
    ensures !ValidSplit(FrameCandidates, data, 0, SplitFrames(data)) ==> SplitFrames(data) == [Frame(data, Unknown)]
  {
    ModbusTableAdvances();
    SplitExactComplete(FrameCandidates, data);
    if |data| == 0 {
      assert !ValidSplit(FrameCandidates, data, 0, [Frame(data, Unknown)]) by {
        assert FrameCandidates(data[0..]) == [];
      }
    }
  }

  // ---------------------------------------------------------------------------
  // Which exact split the search returns
  // ---------------------------------------------------------------------------

  /** Some exact split of `data[pos..]` exists. */
  ghost predicate Splittable(table: Table, data: seq<byte>, pos: nat)
  {
    exists gs :: ValidSplit(table, data, pos, gs)
  }

  /** Candidate `c` can start an exact split of `data[pos..]`: it fits, and
      the bytes after it can be split exactly. */
  ghost predicate Live(table: Table, data: seq<byte>, pos: nat, c: Candidate)
  {
    Fits(data, pos, c) && Splittable(table, data, pos + c.length)
  }

  /** The first candidate of `cs`, in table order, that can start an exact split. */
  ghost function FirstLive(table: Table, data: seq<byte>, pos: nat, cs: seq<Candidate>): (r: Option<Candidate>)
    ensures r.Some? ==> r.value in cs && Live(table, data, pos, r.value)
    decreases |cs|
  {
    if cs == [] then None
    else if Live(table, data, pos, cs[0]) then Some(cs[0])
    else FirstLive(table, data, pos, cs[1..])
  }

  /** `fs` is the split a depth-first search in table order finds from `pos`:
      each frame is the first candidate at its offset from which the rest of
      the buffer can still be split exactly. Among all exact splits it is the
      first one in the lexicographic order of candidate positions. */
  ghost predicate DepthFirstSplit(table: Table, data: seq<byte>, pos: nat, fs: seq<Frame>)
    decreases |fs|
  {
    if fs == [] then pos == |data|
    else
      var c := Candidate(|fs[0].data|, fs[0].dir);
      && pos < |data|
      && FirstLive(table, data, pos, table(data[pos..])) == Some(c)
      && fs[0].data == data[pos..pos + c.length]
      && DepthFirstSplit(table, data, pos + c.length, fs[1..])
  }

  /** A depth-first split is an exact split. */
  lemma {:induction false} DepthFirstIsValid(table: Table, data: seq<byte>, pos: nat, fs: seq<Frame>)
    requires DepthFirstSplit(table, data, pos, fs)
    ensures ValidSplit(table, data, pos, fs)
    decreases |fs|
  {
    if fs != [] {
      DepthFirstIsValid(table, data, pos + |fs[0].data|, fs[1..]);
    }
  }

  /** There is at most one depth-first split from a given offset. */
  lemma {:induction false} DepthFirstUnique(table: Table, data: seq<byte>, pos: nat, fs: seq<Frame>, gs: seq<Frame>)
    requires DepthFirstSplit(table, data, pos, fs) && DepthFirstSplit(table, data, pos, gs)
    ensures fs == gs
    decreases |fs|
  {
    if fs != [] && gs != [] {
      assert fs[0] == gs[0];
      DepthFirstUnique(table, data, pos + |fs[0].data|, fs[1..], gs[1..]);
      assert fs == [fs[0]] + fs[1..] && gs == [gs[0]] + gs[1..];
    }
  }

  /** With a non-nil accumulator the search succeeds exactly when an exact
      split of the rest exists. */
  lemma SplitFromLive(table: Table, data: seq<byte>, pos: nat, acc: Option<seq<Frame>>)
    requires Advances(table)
    requires pos <= |data| && acc.Some?
    ensures SplitFrom(table, data, pos, acc).Some? <==> Splittable(table, data, pos)
  {
    SplitFromSound(table, data, pos, acc);
    var r := SplitFrom(table, data, pos, acc);
    if r.Some? {
      assert ValidSplit(table, data, pos, r.value[|Items(acc)|..]);
    }
    if Splittable(table, data, pos) {
      var gs :| ValidSplit(table, data, pos, gs);
      SplitFromComplete(table, data, pos, acc, gs);
    }
  }

  /** `r`, when present, is the accumulator followed by the depth-first split
      of `data[pos..]`. */
  ghost predicate ExtendsByDepthFirst(table: Table, data: seq<byte>, pos: nat, acc: Option<seq<Frame>>, r: Option<seq<Frame>>)
  {
    r.Some? ==>
      && |Items(acc)| <= |r.value|
      && r.value[..|Items(acc)|] == Items(acc)
      && DepthFirstSplit(table, data, pos, r.value[|Items(acc)|..])
  }

  /** The search returns the depth-first split. */
  lemma {:induction false} SplitFromDepthFirst(table: Table, data: seq<byte>, pos: nat, acc: Option<seq<Frame>>)
    requires Advances(table)
    requires pos <= |data|
    ensures ExtendsByDepthFirst(table, data, pos, acc, SplitFrom(table, data, pos, acc))
    decreases |data| - pos, 1
  {
    if pos == |data| {
      var r := SplitFrom(table, data, pos, acc);
      if r.Some? {
        assert r.value[|Items(acc)|..] == [];
      }
    } else {
      TryCandidatesDepthFirst(table, data, pos, acc, table(data[pos..]));
    }
  }

  /** The loop over the candidates at `pos` keeps the first one from which the
      rest can be split, provided the candidates it has already passed could
      not start an exact split. */
  lemma {:induction false} TryCandidatesDepthFirst(table: Table, data: seq<byte>, pos: nat, acc: Option<seq<Frame>>, cs: seq<Candidate>)
    requires Advances(table)
    requires pos < |data|
    requires forall i :: 0 <= i < |cs| ==> cs[i].length > 0
    requires FirstLive(table, data, pos, table(data[pos..])) == FirstLive(table, data, pos, cs)
    ensures ExtendsByDepthFirst(table, data, pos, acc, TryCandidates(table, data, pos, acc, cs))
    decreases |data| - pos, 0, |cs|
  {
    if cs != [] {
      var c := cs[0];
      if Fits(data, pos, c) {
        var frame := Frame(data[pos..pos + c.length], c.dir);
        var acc' := Some(Items(acc) + [frame]);
        var result := SplitFrom(table, data, pos + c.length, acc');
        SplitFromLive(table, data, pos + c.length, acc');
        assert TryCandidates(table, data, pos, acc, cs) ==
               if result.Some? then result else TryCandidates(table, data, pos, acc, cs[1..]);
        if result.Some? {
          assert Live(table, data, pos, c);
          TakeLiveCandidate(table, data, pos, acc, c);
        } else {
          assert !Live(table, data, pos, c);
          TryCandidatesDepthFirst(table, data, pos, acc, cs[1..]);
        }
      } else {
        assert TryCandidates(table, data, pos, acc, cs) == TryCandidates(table, data, pos, acc, cs[1..]);
        TryCandidatesDepthFirst(table, data, pos, acc, cs[1..]);
      }
    }
  }

  /** Taking the first live candidate `c` at `pos` and splitting the rest
      depth-first extends the accumulator by a depth-first split from `pos`. */
  lemma {:induction false} TakeLiveCandidate(table: Table, data: seq<byte>, pos: nat, acc: Option<seq<Frame>>, c: Candidate)
    requires Advances(table)
    requires pos < |data| && c.length > 0 && Fits(data, pos, c)
    requires FirstLive(table, data, pos, table(data[pos..])) == Some(c)
    ensures var frame := Frame(data[pos..pos + c.length], c.dir);
            ExtendsByDepthFirst(table, data, pos, acc, SplitFrom(table, data, pos + c.length, Some(Items(acc) + [frame])))
    decreases |data| - pos, 0, 0
  {
    var frame := Frame(data[pos..pos + c.length], c.dir);
    var acc' := Some(Items(acc) + [frame]);
    SplitFromDepthFirst(table, data, pos + c.length, acc');
    var result := SplitFrom(table, data, pos + c.length, acc');
    if result.Some? {
      var r := result.value;
      PrefixThenFrame(Items(acc), frame, r);
      DepthFirstCons(table, data, pos, r[|Items(acc)|..]);
    }
  }

  /** A list that starts with `acc` and then `frame` continues after `acc`
      with `frame`. */
  lemma PrefixThenFrame(acc: seq<Frame>, frame: Frame, r: seq<Frame>)
    requires |acc| + 1 <= |r| && r[..|acc| + 1] == acc + [frame]
    ensures r[..|acc|] == acc
    ensures r[|acc|..] != [] && r[|acc|..][0] == frame && r[|acc|..][1..] == r[|acc| + 1..]
  {
    assert r[..|acc|] == r[..|acc| + 1][..|acc|];
    assert r[|acc|] == frame;
  }

  /** A first live candidate read at `pos`, followed by a depth-first split
      of what comes after it, is a depth-first split from `pos`. */
  lemma DepthFirstCons(table: Table, data: seq<byte>, pos: nat, fs: seq<Frame>)
    requires pos < |data| && fs != []
    requires FirstLive(table, data, pos, table(data[pos..])) == Some(Candidate(|fs[0].data|, fs[0].dir))
    requires pos + |fs[0].data| <= |data| && fs[0].data == data[pos..pos + |fs[0].data|]
    requires DepthFirstSplit(table, data, pos + |fs[0].data|, fs[1..])
    ensures DepthFirstSplit(table, data, pos, fs)
  {
  }

  /** `SplitFrames` returns the depth-first split whenever the buffer can be
      split exactly: at each offset the frame is the first candidate in table
      order (the request reading before the response reading) from which the
      rest can still be split. It is the only such split, so the directions
      of the frames are determined by the buffer. */
  lemma SplitFramesDepthFirst(data: seq<byte>, fs: seq<Frame>)
    ensures |data| > 0 && Splittable(FrameCandidates, data, 0) ==>
              DepthFirstSplit(FrameCandidates, data, 0, SplitFrames(data))
    ensures |data| > 0 && DepthFirstSplit(FrameCandidates, data, 0, fs) ==> fs == SplitFrames(data)
  {
    ModbusTableAdvances();
    SplitExactComplete(FrameCandidates, data);
    SplitFromDepthFirst(FrameCandidates, data, 0, None);
    var r := SplitFrom(FrameCandidates, data, 0, None);
    if r.Some? {
      assert r.value[0..] == r.value;
    }
    if |data| > 0 && DepthFirstSplit(FrameCandidates, data, 0, fs) {
      DepthFirstIsValid(FrameCandidates, data, 0, fs);
      DepthFirstUnique(FrameCandidates, data, 0, fs, SplitFrames(data));
    }
  }

  // ---------------------------------------------------------------------------
  // Greedy prefix parse
  // ---------------------------------------------------------------------------

  /** The first candidate of `cs`, in table order, that fits at `pos` and
      passes the CRC check. */
  function FirstFit(data: seq<byte>, pos: nat, cs: seq<Candidate>): (r: Option<Candidate>)
    ensures r.Some? ==> r.value in cs && Fits(data, pos, r.value)
  {
    if cs == [] then None
    else if Fits(data, pos, cs[0]) then Some(cs[0])
    else FirstFit(data, pos, cs[1..])
  }

  /** `FirstFit` finds nothing exactly when no candidate fits. */
  lemma {:induction false} FirstFitNone(data: seq<byte>, pos: nat, cs: seq<Candidate>)
    ensures FirstFit(data, pos, cs).None? <==> forall i :: 0 <= i < |cs| ==> !Fits(data, pos, cs[i])
    decreases |cs|
  {
    if cs != [] && !Fits(data, pos, cs[0]) {
      FirstFitNone(data, pos, cs[1..]);
      assert forall i :: 1 <= i < |cs| ==> cs[i] == cs[1..][i - 1];
    }
  }

  /** `FirstFit` never skips a fitting candidate: when candidate `j` fits, the
      one found comes no later than `j` in the table. */
  lemma {:induction false} FirstFitEarliest(data: seq<byte>, pos: nat, cs: seq<Candidate>, j: nat)
    requires j < |cs| && Fits(data, pos, cs[j])
    ensures FirstFit(data, pos, cs).Some?
    ensures FirstFit(data, pos, cs).value in cs[..j + 1]
    decreases j
  {
    if !Fits(data, pos, cs[0]) {
      assert j > 0 && cs[1..][j - 1] == cs[j];
      FirstFitEarliest(data, pos, cs[1..], j - 1);
      assert cs[..j + 1] == [cs[0]] + cs[1..][..j];
    }
  }

  /** The reading the greedy parse takes at `pos`. */
  function FitAt(table: Table, data: seq<byte>, pos: nat): Option<Candidate>
    requires pos <= |data|
  {
    FirstFit(data, pos, table(data[pos..]))
  }

  /** What `FitAt` promises: the reading fits and is one of the table's. */
  lemma FitAtFits(table: Table, data: seq<byte>, pos: nat)
    requires Advances(table)
    requires pos <= |data| && FitAt(table, data, pos).Some?
    ensures var c := FitAt(table, data, pos).value;
            && c in table(data[pos..])
            && 0 < c.length
            && pos + c.length <= |data|
  {
  }

  /** `fs` cuts `data[pos..end]` into frames, each being the first table
      candidate that fits at its offset. */
  ghost predicate GreedyTiles(table: Table, data: seq<byte>, pos: nat, fs: seq<Frame>, end: nat)
    decreases |fs|
  {
    if fs == [] then pos == end
    else
      var n := |fs[0].data|;
      && pos + n <= |data|
      && FitAt(table, data, pos) == Some(Candidate(n, fs[0].dir))
      && fs[0].data == data[pos..pos + n]
      && GreedyTiles(table, data, pos + n, fs[1..], end)
  }

  /** A greedy tiling is in particular a tiling by table candidates. */
  lemma {:induction false} GreedyTilesAreTiles(table: Table, data: seq<byte>, pos: nat, fs: seq<Frame>, end: nat)
    requires Advances(table)
    requires GreedyTiles(table, data, pos, fs, end)
    ensures Tiles(table, data, pos, fs, end)
    decreases |fs|
  {
    if fs != [] {
      FitAtFits(table, data, pos);
      GreedyTilesAreTiles(table, data, pos + |fs[0].data|, fs[1..], end);
    }
  }

  /** Extending a greedy tiling at the front by the reading taken there. */
  lemma GreedyTilesCons(table: Table, data: seq<byte>, pos: nat, c: Candidate, rest: seq<Frame>, end: nat)
    requires pos + c.length <= |data| && FitAt(table, data, pos) == Some(c)
    requires GreedyTiles(table, data, pos + c.length, rest, end)
    ensures GreedyTiles(table, data, pos, [Frame(data[pos..pos + c.length], c.dir)] + rest, end)
  {
    var fs := [Frame(data[pos..pos + c.length], c.dir)] + rest;
    assert fs[1..] == rest;
  }

  /** The greedy loop from `pos`: repeatedly take the first candidate that fits,
      stopping at the end of the buffer or where no candidate fits. Returns the
      frames and the position where it stopped. */
  function Greedy(table: Table, data: seq<byte>, pos: nat): (r: (seq<Frame>, nat))
    requires Advances(table)
    requires pos <= |data|
    ensures pos <= r.1 <= |data|
    decreases |data| - pos
  {
    if pos == |data| then ([], pos)
    else
      match FitAt(table, data, pos)
      case None => ([], pos)
      case Some(c) =>
        FitAtFits(table, data, pos);
        var rest := Greedy(table, data, pos + c.length);
        ([Frame(data[pos..pos + c.length], c.dir)] + rest.0, rest.1)
  }

  /** The greedy parse is a greedy tiling, and it stops only where no
      candidate fits (at the end of the buffer, the table offers nothing). */
  lemma {:induction false} GreedyIsGreedyTiling(table: Table, data: seq<byte>, pos: nat)
    requires Advances(table)
    requires pos <= |data|
    requires table([]) == []
    ensures GreedyTiles(table, data, pos, Greedy(table, data, pos).0, Greedy(table, data, pos).1)
    ensures FitAt(table, data, Greedy(table, data, pos).1).None?
    decreases |data| - pos
  {
    if pos == |data| {
      assert Greedy(table, data, pos) == ([], pos);
      assert data[pos..] == [];
    } else if FitAt(table, data, pos).None? {
      assert Greedy(table, data, pos) == ([], pos);
    } else {
      var c := FitAt(table, data, pos).value;
      FitAtFits(table, data, pos);
      GreedyIsGreedyTiling(table, data, pos + c.length);
      var rest := Greedy(table, data, pos + c.length);
      assert Greedy(table, data, pos) == ([Frame(data[pos..pos + c.length], c.dir)] + rest.0, rest.1);
      GreedyTilesCons(table, data, pos, c, rest.0, rest.1);
    }
  }

  /** The greedy parse is the only greedy tiling that stops where nothing fits. */
  lemma {:induction false} GreedyUnique(table: Table, data: seq<byte>, pos: nat, fs: seq<Frame>, end: nat)
    requires Advances(table)
    requires pos <= |data|
    requires GreedyTiles(table, data, pos, fs, end)
    requires end <= |data| && FitAt(table, data, end).None?
    ensures Greedy(table, data, pos) == (fs, end)
    decreases |fs|
  {
    if fs == [] {
      assert pos == end;
      assert Greedy(table, data, pos) == ([], pos);
    } else {
      var n := |fs[0].data|;
      var c := Candidate(n, fs[0].dir);
      assert FitAt(table, data, pos) == Some(c) && pos + n <= |data|;
      FitAtFits(table, data, pos);
      GreedyUnique(table, data, pos + n, fs[1..], end);
      var frame := Frame(data[pos..pos + n], c.dir);
      assert Greedy(table, data, pos) == ([frame] + fs[1..], end);
      assert fs == [frame] + fs[1..];
    }
  }

  /** The bytes of an optional remainder (none for the nil slice). */
  function Leftover(rem: Option<seq<byte>>): seq<byte>
  {
    rem.GetOr([])
  }

  /** Frames parsed from the front of `data`, plus the unconsumed bytes as a
      fresh sequence (`None` when everything was consumed). The exact split is
      tried first; the greedy parse is the fallback. */
  function PartialSplit(table: Table, data: seq<byte>): (r: (seq<Frame>, Option<seq<byte>>))
    requires Advances(table)
    requires table([]) == []
    ensures Concat(r.0) + Leftover(r.1) == data
    ensures r.1.None? <==> Concat(r.0) == data
    ensures r.1.Some? ==> |r.1.value| > 0
    ensures Tiles(table, data, 0, r.0, |Concat(r.0)|)
  {
    match SplitExact(table, data)
    case Some(fs) =>
      TilesConcat(table, data, 0, fs, |data|);
      (fs, None)
    case None =>
      var (fs, end) := Greedy(table, data, 0);
      GreedyIsGreedyTiling(table, data, 0);
      GreedyTilesAreTiles(table, data, 0, fs, end);
      TilesConcat(table, data, 0, fs, end);
      assert data == data[..end] + data[end..];
      (fs, if end < |data| then Some(data[end..]) else None)
  }

  /** The Modbus partial splitter: frames from the front of the buffer and
      the bytes left after them. */
  function SplitFramesPartial(data: seq<byte>): (r: (seq<Frame>, Option<seq<byte>>))
    ensures Concat(r.0) + Leftover(r.1) == data
    ensures r.1.None? <==> Concat(r.0) == data
    ensures r.1.Some? ==> |r.1.value| > 0
    ensures Tiles(FrameCandidates, data, 0, r.0, |Concat(r.0)|)
  {
    ModbusTableAdvances();
    assert FrameCandidates([]) == [];
    PartialSplit(FrameCandidates, data)
  }

  /** When an exact split exists, the partial splitter returns the same frames
      as `SplitFrames`, an exact split, and no remainder. */
  lemma PartialPrefersExact(data: seq<byte>)
    requires |data| > 0 && exists fs :: ValidSplit(FrameCandidates, data, 0, fs)
    ensures SplitFramesPartial(data).1.None?
    ensures SplitFramesPartial(data).0 == SplitFrames(data)
    ensures ValidSplit(FrameCandidates, data, 0, SplitFramesPartial(data).0)
  {
    ModbusTableAdvances();
    SplitExactComplete(FrameCandidates, data);
  }

  /** Without an exact split, the partial splitter is the greedy parse: every
      frame is the first candidate that fits at its offset, and no candidate
      fits where the remainder begins. */
  lemma PartialFallsBackToGreedy(data: seq<byte>)
    requires |data| == 0 || forall fs :: !ValidSplit(FrameCandidates, data, 0, fs)
    ensures Advances(FrameCandidates) &&
            var (fs, rem) := SplitFramesPartial(data);
            && GreedyTiles(FrameCandidates, data, 0, fs, |Concat(fs)|)
            && FitAt(FrameCandidates, data, |Concat(fs)|).None?
            && (fs, |Concat(fs)|) == Greedy(FrameCandidates, data, 0)
  {
    ModbusTableAdvances();
    assert FrameCandidates([]) == [];
    SplitExactComplete(FrameCandidates, data);
    var (fs, end) := Greedy(FrameCandidates, data, 0);
    GreedyIsGreedyTiling(FrameCandidates, data, 0);
    GreedyTilesAreTiles(FrameCandidates, data, 0, fs, end);
    TilesConcat(FrameCandidates, data, 0, fs, end);
  }
}
