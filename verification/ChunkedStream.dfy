/** How `chat` in jcc.c follows chunked data that arrives in parts, with a buffer that is emptied now and then. */
module ChunkedStream {
  import opened Text
  import opened Chunked
  import opened ChunkedResume

  // ----- Data that arrives in parts ------------------------------------------------------

  /** The line that ends first holds more than whitespace. */
  ghost predicate NotBlank(s: seq<char>) {
    LineEnd(s).Some? && exists i :: 0 <= i < LineEnd(s).value && !IsSpace(s[i])
  }

  /** No size line the scan meets is blank. */
  ghost predicate NoBlankLines(b: seq<char>, offset: nat)
    decreases |b| - offset
  {
    var skip := BytesToNextChunk(b, offset);
    && (offset < |b| && LineEnd(b[offset..]).Some? ==> NotBlank(b[offset..]))
    && (skip > 0 ==> NoBlankLines(b, offset + skip))
  }

  /** The number of a line that is not blank ends in that line. */
  lemma NotBlankIsEnded(s: seq<char>)
    requires NotBlank(s)
    ensures EndedNumber(s)
  {
    hide LineEnd, TrimLeft, EndedNumber;
    TrimLeftIsSuffix(s);
    var start, end := |s| - |TrimLeft(s)|, LineEnd(s).value;
    var i :| 0 <= i < end && !IsSpace(s[i]);
    assert TrimLeft(s)[end - start] == CR;
    if !EndedNumber(s) {
      OpenTextHasNoCr(s);
    }
  }

  lemma {:induction false} NotBlankIsStable(s: seq<char>, more: seq<char>)
    requires LineEnd(s).Some?
    ensures NotBlank(s + more) <==> NotBlank(s)
  {
    hide LineEnd;
    LineEndIsStable(s, more);
    if NotBlank(s + more) {
      var i :| 0 <= i < LineEnd(s + more).value && !IsSpace((s + more)[i]);
      assert !IsSpace(s[i]);
    }
    if NotBlank(s) {
      var i :| 0 <= i < LineEnd(s).value && !IsSpace(s[i]);
      assert !IsSpace((s + more)[i]);
    }
  }

  /** Later bytes do not turn a line of the scan into a blank one. */
  lemma PlainStep(b: seq<char>, more: seq<char>, offset: nat)
    requires NoBlankLines(b + more, offset) && BytesToNextChunk(b, offset) > 0
    ensures FixedNumber(b[offset..]) && BytesToNextChunk(b + more, offset) == BytesToNextChunk(b, offset)
    ensures NoBlankLines(b + more, offset + BytesToNextChunk(b, offset))
  {
    hide LineEnd, BytesToNextChunk, ScanHex, NotBlank, EndedNumber;
    StepIsSmall(b, offset);
    assert (b + more)[offset..] == b[offset..] + more;
    LineEndIsStable(b[offset..], more);
    NotBlankIsStable(b[offset..], more);
    NotBlankIsEnded(b[offset..]);
    StepIsStable(b, more, offset);
  }

  lemma {:induction false} PlainLinesPassed(b: seq<char>, more: seq<char>, offset: nat, end: nat)
    requires NoBlankLines(b + more, offset) && PassesTo(b, offset, end)
    ensures PassedBefore(b, offset, end, FixedNumber) && NoBlankLines(b + more, end)
    decreases |b| - offset
  {
    hide BytesToNextChunk, NoBlankLines, FixedNumber;
    if offset != end {
      PlainStep(b, more, offset);
      PlainLinesPassed(b, more, offset + BytesToNextChunk(b, offset), end);
    }
  }

  lemma GoOn(b: seq<char>, more: seq<char>, offset: nat)
    requires |b + more| < INT_LIMIT && NoBlankLines(b + more, offset) && BytesMissing(b, offset) > 0
    ensures var end := BytesMissing(b, offset);
            NoBlankLines(b + more, end) && (Complete(b + more, end) <==> Complete(b + more, offset))
  {
    hide NoBlankLines, ScanFrom, Complete, BytesToNextChunk, PassesTo, PassedBefore;
    var end := BytesMissing(b, offset);
    ScanReaches(b, offset, -1);
    PlainLinesPassed(b, more, offset, end);
    FixedNumbersResume(b, more, offset, end);
  }

  // The buffer is emptied when it has grown too large.

  lemma ShiftedStep(x: seq<char>, y: seq<char>, offset: nat)
    requires |y| >= 5
    ensures BytesToNextChunk(x + y, |x| + offset) == BytesToNextChunk(y, offset)
  {
    hide LineEnd, ScanHex;
    if offset < |y| {
      assert (x + y)[|x| + offset..] == y[offset..];
    }
  }

  lemma {:induction false} ShiftedScan(x: seq<char>, y: seq<char>, offset: nat)
    requires 5 <= |y| && |x + y| < INT_LIMIT
    ensures Complete(x + y, |x| + offset) <==> Complete(y, offset)
    ensures NoBlankLines(x + y, |x| + offset) <==> NoBlankLines(y, offset)
    decreases |y| - offset
  {
    hide BytesToNextChunk, Complete, LineEnd, NotBlank;
    ShiftedStep(x, y, offset);
    if offset < |y| {
      assert (x + y)[|x| + offset..] == y[offset..];
    }
    var skip := BytesToNextChunk(y, offset);
    if skip > 0 {
      CompleteAfterStep(x + y, |x| + offset);
      CompleteAfterStep(y, offset);
      ShiftedScan(x, y, offset + skip);
    } else {
      NoStepForward(x + y, |x| + offset);
      NoStepForward(y, offset);
    }
  }

  lemma NoStepForward(b: seq<char>, offset: nat)
    requires BytesToNextChunk(b, offset) <= 0
    ensures Complete(b, offset) <==> BytesToNextChunk(b, offset) == 0
  {
    hide LineEnd, ScanHex;
  }

  /** Dropping bytes in front of the offset does not change the verdict of the scan. */
  lemma Dropped(x: seq<char>, y: seq<char>, offset: nat)
    requires |x + y| < INT_LIMIT && NoBlankLines(x + y, |x| + offset)
    ensures NoBlankLines(y, offset) && (Complete(y, offset) <==> Complete(x + y, |x| + offset))
  {
    hide LineEnd, NotBlank, ScanHex;
    if |y| >= 5 {
      ShiftedScan(x, y, offset);
    } else {
      if offset < |y| {
        assert (x + y)[|x| + offset..] == y[offset..];
      }
      ShortIsIncomplete(x + y, |x| + offset);
    }
  }

  /** The last chunk with its line takes five bytes. */
  lemma {:induction false} ShortIsIncomplete(b: seq<char>, offset: nat)
    requires |b| < INT_LIMIT && NoBlankLines(b, offset) && |b| < offset + 5
    ensures !Complete(b, offset)
    decreases |b| - offset
  {
    hide Complete, ScanHex, LineEnd;
    StepIsSmall(b, offset);
    if BytesToNextChunk(b, offset) > 0 {
      CompleteAfterStep(b, offset);
      ShortIsIncomplete(b, offset + BytesToNextChunk(b, offset));
    } else {
      NoStepForward(b, offset);
    }
  }

  /** The number of values of a `size_t`. */
  const OFFSETS: nat := WORD * WORD

  /** What `chat` has read at once, and whether it emptied its buffer before. */
  datatype Arrival = Arrival(discard: bool, part: seq<char>)

  /** The buffer of `chat` and its chunk offset. */
  datatype Progress = Progress(kept: seq<char>, offset: nat) {
    function With(a: Arrival): Progress {
      if a.discard then Progress(a.part, (offset - |kept|) % OFFSETS) else Progress(kept + a.part, offset)
    }

    function Resumed(): Progress {
      Progress(kept, if BytesMissing(kept, offset) > 0 then BytesMissing(kept, offset) else offset)
    }

    /** The response is taken for complete. */
    predicate SeesEnd() {
      BytesMissing(kept, offset) >= 0 && Complete(kept, Resumed().offset)
    }
  }

  /** All data that has arrived. */
  function Arrived(arrivals: seq<Arrival>): seq<char> {
    if arrivals == [] then [] else Arrived(arrivals[..|arrivals| - 1]) + arrivals[|arrivals| - 1].part
  }

  function After(arrivals: seq<Arrival>): Progress {
    if arrivals == [] then Progress([], 0)
    else After(arrivals[..|arrivals| - 1]).With(arrivals[|arrivals| - 1]).Resumed()
  }

  /** Whenever the buffer is emptied, the chunk offset is not below the number of bytes in it. */
  ghost predicate DiscardsFit(arrivals: seq<Arrival>) {
    arrivals != [] ==>
      var n := |arrivals| - 1;
      var p := After(arrivals[..n]);
      DiscardsFit(arrivals[..n]) && (arrivals[n].discard ==> p.offset >= |p.kept|)
  }

  lemma {:induction false} AnswerIsSmall(b: seq<char>, offset: nat, lastValid: int)
    requires |b| < INT_LIMIT && lastValid < INT_LIMIT
    ensures ScanFrom(b, offset, lastValid) < INT_LIMIT
    decreases |b| - offset
  {
    hide BytesToNextChunk;
    var skip := BytesToNextChunk(b, offset);
    if skip > 0 && offset + skip < |b| {
      AnswerIsSmall(b, offset + skip, if offset != 0 then offset else lastValid);
    }
  }

  /** One more part, when the buffer is emptied in time. */
  lemma OneMorePart(p: Progress, a: Arrival, more: seq<char>)
    requires p.offset < INT_LIMIT && (a.discard ==> p.offset >= |p.kept|)
    requires |p.kept + (a.part + more)| < INT_LIMIT && NoBlankLines(p.kept + (a.part + more), p.offset)
    ensures var q := p.With(a);
            && |q.kept| <= |p.kept| + |a.part| && q.offset < INT_LIMIT
            && NoBlankLines(q.kept + more, q.offset)
            && (Complete(q.kept + more, q.offset) <==> Complete(p.kept + (a.part + more), p.offset))
  {
    hide NoBlankLines, Complete;
    if a.discard {
      Dropped(p.kept, a.part + more, p.offset - |p.kept|);
    } else {
      Regroup(p.kept, a.part, more);
    }
  }

  lemma ResumedPart(q: Progress, more: seq<char>)
    requires |q.kept + more| < INT_LIMIT && q.offset < INT_LIMIT && NoBlankLines(q.kept + more, q.offset)
    ensures var r := q.Resumed();
            && r.kept == q.kept && r.offset < INT_LIMIT && NoBlankLines(r.kept + more, r.offset)
            && (Complete(r.kept + more, r.offset) <==> Complete(q.kept + more, q.offset))
  {
    hide NoBlankLines, Complete, ScanFrom;
    AnswerIsSmall(q.kept, q.offset, -1);
    if BytesMissing(q.kept, q.offset) > 0 {
      GoOn(q.kept, more, q.offset);
    }
  }

  /** Where no discard came too early, the offset serves for whatever arrives. */
  lemma {:induction false} OffsetServes(arrivals: seq<Arrival>, more: seq<char>)
    requires |Arrived(arrivals) + more| < INT_LIMIT && NoBlankLines(Arrived(arrivals) + more, 0)
    requires DiscardsFit(arrivals)
    ensures var p := After(arrivals);
            && |p.kept| <= |Arrived(arrivals)| && p.offset < INT_LIMIT && NoBlankLines(p.kept + more, p.offset)
            && (Complete(p.kept + more, p.offset) <==> Complete(Arrived(arrivals) + more, 0))
    decreases |arrivals|
  {
    hide NoBlankLines, Complete;
    if arrivals != [] {
      var n := |arrivals| - 1;
      var a := arrivals[n];
      Regroup(Arrived(arrivals[..n]), a.part, more);
      OffsetServes(arrivals[..n], a.part + more);
      OneMorePart(After(arrivals[..n]), a, more);
      ResumedPart(After(arrivals[..n]).With(a), more);
    }
  }

  /** The offset is out of reach of all data that can arrive. */
  ghost predicate Lost(p: Progress, total: nat) {
    |p.kept| <= total && OFFSETS - total + |p.kept| <= p.offset < OFFSETS
  }

  lemma LostHere(p: Progress, a: Arrival, total: nat)
    requires |p.kept| <= total && total + |a.part| < INT_LIMIT
    requires Lost(p, total) || (a.discard && p.offset < |p.kept|)
    ensures Lost(p.With(a), total + |a.part|) && p.With(a).Resumed() == p.With(a)
  {}

  /** After a discard that came too early, the offset stays out of reach. */
  lemma {:induction false} OffsetIsLost(arrivals: seq<Arrival>)
    requires |Arrived(arrivals)| < INT_LIMIT && NoBlankLines(Arrived(arrivals), 0) && !DiscardsFit(arrivals)
    ensures arrivals != []
    ensures var n := |arrivals| - 1;
            Lost(After(arrivals), |Arrived(arrivals)|) && After(arrivals) == After(arrivals[..n]).With(arrivals[n])
    decreases |arrivals|
  {
    hide NoBlankLines, Complete, BytesMissing, Lost;
    var n := |arrivals| - 1;
    var before := arrivals[..n];
    NoBlankLinesFrom(Arrived(before), arrivals[n].part, 0);
    if DiscardsFit(before) {
      assert Arrived(before) + [] == Arrived(before);
      OffsetServes(before, []);
    } else {
      OffsetIsLost(before);
      LostIsBeyond(After(before), |Arrived(before)|);
    }
    LostHere(After(before), arrivals[n], |Arrived(before)|);
  }

  lemma LostIsBeyond(p: Progress, total: nat)
    requires Lost(p, total) && total < INT_LIMIT
    ensures |p.kept| <= total && BytesMissing(p.kept, p.offset) == -1
  {}

  lemma {:induction false} NoBlankLinesFrom(b: seq<char>, more: seq<char>, offset: nat)
    requires NoBlankLines(b + more, offset)
    ensures NoBlankLines(b, offset)
    decreases |b| - offset
  {
    hide LineEnd, BytesToNextChunk, NotBlank, EndedNumber;
    StepIsSmall(b, offset);
    if offset < |b| && LineEnd(b[offset..]).Some? {
      assert (b + more)[offset..] == b[offset..] + more;
      LineEndIsStable(b[offset..], more);
      NotBlankIsStable(b[offset..], more);
      if BytesToNextChunk(b, offset) > 0 {
        PlainStep(b, more, offset);
        NoBlankLinesFrom(b, more, offset + BytesToNextChunk(b, offset));
      }
    }
  }

  /** However the data is split, after each part the resumed scan sees the end exactly if a scan of all data
      from the start does and the buffer was never emptied while the next size line was arriving. */
  lemma StreamedScan(arrivals: seq<Arrival>, last: Arrival)
    requires |Arrived(arrivals + [last])| < INT_LIMIT && NoBlankLines(Arrived(arrivals + [last]), 0)
    ensures After(arrivals).With(last).SeesEnd()
       <==> DiscardsFit(arrivals + [last]) && Complete(Arrived(arrivals + [last]), 0)
  {
    hide NoBlankLines, Complete, ScanFrom;
    var all := arrivals + [last];
    assert all[..|arrivals|] == arrivals;
    var q := After(arrivals).With(last);
    if DiscardsFit(all) {
      OffsetServes(arrivals, last.part);
      assert last.part + [] == last.part && q.kept + [] == q.kept;
      OneMorePart(After(arrivals), last, []);
      ResumedPart(q, []);
      SeenIfComplete(q);
    } else {
      OffsetIsLost(all);
      LostIsBeyond(q, |Arrived(all)|);
    }
  }

  lemma SeenIfComplete(q: Progress)
    requires Complete(q.kept, q.Resumed().offset) <==> Complete(q.kept, q.offset)
    ensures q.SeesEnd() <==> Complete(q.kept, q.offset)
  {
    hide ScanFrom;
  }

  /** A discard while the last size line arrives: all data is complete, and the end is not seen. */
  lemma EarlyDiscardLosesTheEnd() returns (first: Arrival, second: Arrival)
    ensures Complete(Arrived([first, second]), 0) && !After([first]).With(second).SeesEnd()
  {
    hide Complete, ScanFrom;
    var start, end := ['1', CR, LF, 'a', CR, LF, '0'], [CR, LF, CR, LF];
    first, second := Arrival(false, start), Arrival(true, end);
    assert [first, second][..1] == [first] && [first][..0] == [];
    assert Arrived([]) + start == start && After([]).With(first) == Progress(start, 0);
    EndLost(start, start + end);
    assert After([first]) == Progress(start, 0);
  }

  lemma EndLost(start: seq<char>, all: seq<char>)
    requires start == ['1', CR, LF, 'a', CR, LF, '0'] && all == start + [CR, LF, CR, LF]
    ensures BytesMissing(start, 0) == -1 && Complete(all, 0)
  {
    hide BytesToNextChunk, Complete;
    OneByteStep(start, ['0']);
    NoLineIn(start);
    assert ScanFrom(start, 6, -1) == -1;
    OneByteStep(all, LAST);
    assert all[6..] == LAST;
    LastIsComplete(all, 6);
    CompleteAfterStep(all, 0);
  }

  lemma OneByteStep(b: seq<char>, rest: seq<char>)
    requires b == ['1', CR, LF, 'a', CR, LF] + rest && |rest| < 10
    ensures BytesToNextChunk(b, 0) == 6
  {
    hide LineEnd, ScanHex, HexValue;
    OneAndSixteen();
    assert b[0..] == ['1'] + [CR, LF] + (['a', CR, LF] + rest) == ['1'] + ([CR, LF, 'a', CR, LF] + rest);
    LineEndOf(['1'], ['a', CR, LF] + rest);
    SizeOf(['1'], [CR, LF, 'a', CR, LF] + rest);
    StepFound(b, 0, b[0..], 1, 1);
  }

  lemma NoLineIn(b: seq<char>)
    requires |b| == 7
    ensures BytesToNextChunk(b, 6) == -1
  {
    hide ScanHex;
  }
}
