/** Bounded JSON-Lines framing from src/protocol/framing.rs: what a stream's
    frames are, and the reader that finds them whatever way the bytes arrive. */
module Framing {
  import opened Integers
  import opened Wrappers

  const NEWLINE: Byte := 10

  /** Inclusive limit on a line, counting its newline. */
  const MAX_LINE_BYTES: nat := 1024 * 1024

  datatype LineResult =
    | Line(bytes: seq<Byte>)
    | CleanEnd
    | TooLong
    | EarlyEof(received: nat)

  /** The index of the first newline, or the length when there is none. */
  function FirstNewline(s: seq<Byte>): (i: nat)
    ensures i <= |s| && (i < |s| ==> s[i] == NEWLINE)
    ensures forall k :: 0 <= k < i ==> s[k] != NEWLINE
  {
    if s == [] || s[0] == NEWLINE then 0
    else
      assert forall k :: 0 < k < |s| ==> s[k] == s[1..][k - 1];
      1 + FirstNewline(s[1..])
  }

  lemma FirstNewlineAt(s: seq<Byte>, i: nat)
    requires i <= |s| && (i == |s| || s[i] == NEWLINE)
    requires forall k :: 0 <= k < i ==> s[k] != NEWLINE
    ensures FirstNewline(s) == i
  {}

  // ----- the meaning of a stream -----

  predicate FitsLine(line: seq<Byte>) {
    NEWLINE !in line && |line| + 1 <= MAX_LINE_BYTES
  }

  /** The next line of a stream, ignoring how it is delivered. */
  function NextLine(s: seq<Byte>): LineResult {
    var i := FirstNewline(s);
    if i + 1 > MAX_LINE_BYTES then TooLong
    else if i < |s| then Line(s[..i])
    else if i == 0 then CleanEnd
    else EarlyEof(i)
  }

  lemma NextLineShrinks(s: seq<Byte>)
    requires NextLine(s).Line?
    ensures |NextLine(s).bytes| < |s| && FitsLine(NextLine(s).bytes)
    ensures s == NextLine(s).bytes + [NEWLINE] + s[|NextLine(s).bytes| + 1..]
  {}

  datatype Split = Split(lines: seq<seq<Byte>>, end: LineResult)

  /** All lines up to the first failure or the clean end. */
  function Lines(s: seq<Byte>): (split: Split)
    ensures !split.end.Line?
    decreases |s|
  {
    var next := NextLine(s);
    if next.Line? then
      NextLineShrinks(s);
      var rest := Lines(s[|next.bytes| + 1..]);
      Split([next.bytes] + rest.lines, rest.end)
    else Split([], next)
  }

  /** Every line followed by its newline. */
  function Encode(lines: seq<seq<Byte>>): seq<Byte> {
    if lines == [] then [] else lines[0] + [NEWLINE] + Encode(lines[1..])
  }

  /** What may follow the last complete line for each way a stream ends. */
  predicate EndFits(end: LineResult, tail: seq<Byte>) {
    match end
    case Line(_) => false
    case CleanEnd => tail == []
    case EarlyEof(received) => 0 < received == |tail| < MAX_LINE_BYTES && NEWLINE !in tail
    case TooLong => MAX_LINE_BYTES <= |tail| && forall k :: 0 <= k < MAX_LINE_BYTES ==> tail[k] != NEWLINE
  }

  /** The lines, each followed by a newline, and a tail that explains the end,
      concatenate back to the stream. */
  lemma {:induction false} LinesReassemble(s: seq<Byte>) returns (tail: seq<Byte>)
    ensures s == Encode(Lines(s).lines) + tail
    ensures forall i :: 0 <= i < |Lines(s).lines| ==> FitsLine(Lines(s).lines[i])
    ensures EndFits(Lines(s).end, tail)
    decreases |s|
  {
    hide NextLine;
    hide Lines;
    hide FitsLine;
    hide EndFits;
    LinesStep(s);
    var next := NextLine(s);
    if next.Line? {
      NextLineShrinks(s);
      var rest := s[|next.bytes| + 1..];
      tail := LinesReassemble(rest);
      EncodeStep(next.bytes, Lines(rest).lines);
      assert s == next.bytes + [NEWLINE] + (Encode(Lines(rest).lines) + tail);
    } else {
      tail := s;
    }
  }

  lemma LinesStep(s: seq<Byte>)
    ensures
      var next := NextLine(s);
      if next.Line? then
        && |next.bytes| < |s|
        && Lines(s) == Split([next.bytes] + Lines(s[|next.bytes| + 1..]).lines, Lines(s[|next.bytes| + 1..]).end)
      else
        Lines(s) == Split([], next) && EndFits(next, s)
  {}

  lemma EncodeStep(first: seq<Byte>, rest: seq<seq<Byte>>)
    ensures Encode([first] + rest) == first + [NEWLINE] + Encode(rest)
  {
    assert ([first] + rest)[1..] == rest;
  }

  lemma EndIsNext(end: LineResult, tail: seq<Byte>)
    requires EndFits(end, tail)
    ensures NextLine(tail) == end
  {
    if end.EarlyEof? {
      FirstNewlineAt(tail, |tail|);
    }
  }

  lemma LineIsNext(line: seq<Byte>, rest: seq<Byte>, s: seq<Byte>)
    requires FitsLine(line) && s == line + [NEWLINE] + rest
    ensures NextLine(s) == Line(line) && s[|line| + 1..] == rest
  {
    FirstNewlineAt(s, |line|);
  }

  /** Conversely, any such decomposition is the one the reader finds. */
  lemma {:induction false} LinesAreUnique(lines: seq<seq<Byte>>, end: LineResult, tail: seq<Byte>)
    requires forall i :: 0 <= i < |lines| ==> FitsLine(lines[i])
    requires EndFits(end, tail)
    ensures Lines(Encode(lines) + tail) == Split(lines, end)
    decreases |lines|
  {
    hide NextLine;
    hide FitsLine;
    hide EndFits;
    var s := Encode(lines) + tail;
    EndIsNotLine(end, tail);
    if lines == [] {
      assert s == tail;
      EndIsNext(end, tail);
    } else {
      var rest := Encode(lines[1..]) + tail;
      LinesAreUnique(lines[1..], end, tail);
      assert s == lines[0] + [NEWLINE] + rest;
      LineIsNext(lines[0], rest, s);
      assert lines == [lines[0]] + lines[1..];
    }
  }

  lemma EndIsNotLine(end: LineResult, tail: seq<Byte>)
    requires EndFits(end, tail)
    ensures !end.Line?
  {}

  // ----- frames -----

  datatype FrameError<E> =
    | LineTooLong(limit: nat)
    | EndedEarly(received: nat)
    | ByteOrderMark
    | Rejected(reason: E)

  datatype Parsed<V, E> = Value(value: V) | Failure(error: FrameError<E>)

  datatype FrameResult<V, E> = Frame(value: V) | EndOfStream | Failed(error: FrameError<E>)

  /** The byte-order-mark check before UTF-8 and JSON decoding, which are given
      by the decode function. */
  function ParseFrame<V, E>(line: seq<Byte>, decode: seq<Byte> -> Result<V, E>): Parsed<V, E> {
    if |line| >= 3 && line[0] == 0xef && line[1] == 0xbb && line[2] == 0xbf then Failure(ByteOrderMark)
    else
      match decode(line)
      case Ok(value) => Value(value)
      case Err(reason) => Failure(Rejected(reason))
  }

  datatype Run<V, E> = Run(values: seq<V>, end: FrameResult<V, E>)

  function EndResult<V, E>(end: LineResult): FrameResult<V, E>
    requires !end.Line?
  {
    match end
    case CleanEnd => EndOfStream
    case TooLong => Failed(LineTooLong(MAX_LINE_BYTES))
    case EarlyEof(received) => Failed(EndedEarly(received))
  }

  /** The values of the lines up to the first one that does not parse. */
  function ParseLines<V, E>(split: Split, decode: seq<Byte> -> Result<V, E>): Run<V, E>
    requires !split.end.Line?
    decreases |split.lines|
  {
    if split.lines == [] then Run([], EndResult(split.end))
    else
      match ParseFrame(split.lines[0], decode)
      case Failure(error) => Run([], Failed(error))
      case Value(value) =>
        var rest := ParseLines(Split(split.lines[1..], split.end), decode);
        Run([value] + rest.values, rest.end)
  }

  function Frames<V, E>(s: seq<Byte>, decode: seq<Byte> -> Result<V, E>): Run<V, E> {
    ParseLines(Lines(s), decode)
  }

  // ----- the reader -----

  ghost function Flatten(chunks: seq<seq<Byte>>): seq<Byte> {
    if chunks == [] then [] else chunks[0] + Flatten(chunks[1..])
  }

  ghost predicate NoEmptyChunk(chunks: seq<seq<Byte>>) {
    forall i :: 0 <= i < |chunks| ==> chunks[i] != []
  }

  /** A byte stream that hands out its bytes in whatever nonempty chunks the
      operating system chose. */
  class FrameReader {
    var pending: seq<seq<Byte>>

    ghost predicate Valid()
      reads this
    {
      NoEmptyChunk(pending)
    }

    ghost function Remaining(): seq<Byte>
      reads this
    {
      Flatten(pending)
    }

    constructor (chunks: seq<seq<Byte>>)
      requires NoEmptyChunk(chunks)
      ensures Valid() && Remaining() == Flatten(chunks)
    {
      pending := chunks;
    }

    /** The unread part of the current chunk; empty only at the end. */
    function FillBuf(): (available: seq<Byte>)
      requires Valid()
      reads this
      ensures available <= Remaining() && (available == [] <==> pending == [])
    {
      if pending == [] then [] else pending[0]
    }

    method Consume(count: nat)
      requires Valid() && count <= |FillBuf()|
      modifies this
      ensures Valid() && old(Remaining()) == old(FillBuf())[..count] + Remaining()
      ensures 0 < count == |old(FillBuf())| ==> |pending| < |old(pending)|
    {
      if count == 0 {
        return;
      }
      ghost var before := pending;
      if count == |pending[0]| {
        pending := pending[1..];
      } else {
        pending := [pending[0][count..]] + pending[1..];
        assert pending[1..] == before[1..];
      }
    }

    /** One call returns exactly the next line of the remaining stream and
        leaves the reader behind its newline. A failure has consumed less than
        one line. */
    method ReadLine() returns (result: LineResult, ghost consumed: seq<Byte>)
      requires Valid()
      modifies this
      ensures Valid()
      ensures result == NextLine(old(Remaining()))
      ensures old(Remaining()) == consumed + Remaining()
      ensures if result.Line? then consumed == result.bytes + [NEWLINE] else FitsLine(consumed)
      ensures result.CleanEnd? || result.EarlyEof? ==> Remaining() == []
    {
      hide NextLine;
      hide FirstNewline;
      hide Flatten;
      hide FitsLine;
      ghost var stream := Remaining();
      var line: seq<Byte> := [];
      EmptyLineFits();
      while true
        invariant Valid() && FitsLine(line)
        invariant stream == line + Remaining()
        decreases |pending|
      {
        consumed := line;
        LineLength(line);
        var available := FillBuf();
        if available == [] {
          EndOfPending();
          StreamEnds(stream, line);
          result := if line == [] then CleanEnd else EarlyEof(|line|);
          return;
        }
        var newline := FirstNewline(available);
        ghost var before := Remaining();
        ghost var rest := before[|available|..];
        WholeChunk(available, before);
        NewlineInside(stream, line, available, rest, newline);
        if newline < |available| {
          var count := newline + 1;
          if |line| + count > MAX_LINE_BYTES {
            result := TooLong;
            return;
          }
          Consume(count);
          NewlineChunk(line, available, newline);
          Advance(stream, line, before, available[..count], Remaining());
          consumed := line + available[..count];
          line := line + available[..newline];
          result := Line(line);
          return;
        }
        var remaining: nat := MAX_LINE_BYTES - 1 - |line|;
        if |available| > remaining {
          result := TooLong;
          return;
        }
        ExtendLine(line, available);
        Consume(|available|);
        Advance(stream, line, before, available, Remaining());
        line := line + available;
      }
    }

    lemma EndOfPending()
      requires pending == []
      ensures Remaining() == []
    {}

    /** read_frame: clean end, a value, or the first failure. */
    method ReadFrame<V, E>(decode: seq<Byte> -> Result<V, E>)
      returns (result: FrameResult<V, E>, ghost consumed: seq<Byte>)
      requires Valid()
      modifies this
      ensures Valid()
      ensures old(Remaining()) == consumed + Remaining()
      ensures
        match NextLine(old(Remaining()))
        case Line(bytes) => consumed == bytes + [NEWLINE] && result == AsFrame(ParseFrame(bytes, decode))
        case other => result == EndResult(other)
    {
      hide NextLine;
      hide Flatten;
      hide ParseFrame;
      var line;
      line, consumed := ReadLine();
      match line
      case Line(bytes) => result := AsFrame(ParseFrame(bytes, decode));
      case CleanEnd => result := EndOfStream;
      case TooLong => result := Failed(LineTooLong(MAX_LINE_BYTES));
      case EarlyEof(received) => result := Failed(EndedEarly(received));
    }

    /** Reading frame after frame returns the frames of the stream, which do not
        mention the chunks. */
    method ReadFrames<V(!new), E>(decode: seq<Byte> -> Result<V, E>) returns (values: seq<V>, end: FrameResult<V, E>)
      requires Valid()
      modifies this
      ensures Run(values, end) == Frames(old(Remaining()), decode)
      ensures exists lines, tail :: IsRun(old(Remaining()), decode, values, end, lines, tail)
    {
      hide IsRun;
      hide NextLine;
      hide Flatten;
      hide ParseFrame;
      hide Frames;
      ghost var stream := Remaining();
      values := [];
      while true
        invariant Valid()
        invariant Frames(stream, decode) == After(values, Frames(Remaining(), decode))
        decreases |Remaining()|
      {
        ghost var before := Remaining();
        ghost var consumed;
        end, consumed := ReadFrame(decode);
        FramesStep(before, consumed, Remaining(), decode);
        if !end.Frame? {
          assert values + [] == values;
          FramesMean(stream, decode, values, end);
          return;
        }
        AfterAfter(values, end.value, Frames(Remaining(), decode));
        values := values + [end.value];
      }
    }
  }

  function AsFrame<V, E>(parsed: Parsed<V, E>): FrameResult<V, E> {
    match parsed
    case Value(value) => Frame(value)
    case Failure(error) => Failed(error)
  }

  /** A run whose first frames have already been read. */
  function After<V, E>(values: seq<V>, rest: Run<V, E>): Run<V, E> {
    Run(values + rest.values, rest.end)
  }

  lemma AfterAfter<V, E>(values: seq<V>, next: V, rest: Run<V, E>)
    ensures After(values, After([next], rest)) == After(values + [next], rest)
  {
    assert values + ([next] + rest.values) == values + [next] + rest.values;
  }

  lemma EmptyLineFits()
    ensures FitsLine([])
  {}

  lemma LineLength(line: seq<Byte>)
    requires FitsLine(line)
    ensures |line| + 1 <= MAX_LINE_BYTES
  {}

  lemma ExtendLine(line: seq<Byte>, available: seq<Byte>)
    requires FitsLine(line) && NEWLINE !in available && |line| + |available| + 1 <= MAX_LINE_BYTES
    ensures FitsLine(line + available) && available[..|available|] == available
  {}

  lemma NewlineChunk(line: seq<Byte>, available: seq<Byte>, newline: nat)
    requires newline < |available| && available[newline] == NEWLINE
    ensures line + available[..newline + 1] == line + available[..newline] + [NEWLINE]
  {}

  lemma WholeChunk(available: seq<Byte>, before: seq<Byte>)
    requires available <= before
    ensures before == available + before[|available|..]
  {}

  lemma Advance(stream: seq<Byte>, line: seq<Byte>, before: seq<Byte>, part: seq<Byte>, after: seq<Byte>)
    requires stream == line + before && before == part + after
    ensures stream == (line + part) + after
  {}

  lemma StreamEnds(stream: seq<Byte>, line: seq<Byte>)
    requires stream == line + [] && FitsLine(line)
    ensures NextLine(stream) == if line == [] then CleanEnd else EarlyEof(|line|)
  {
    FirstNewlineAt(stream, |line|);
  }

  /** A stream that begins with a whole line's worth of other bytes. */
  lemma LongPrefix(prefix: seq<Byte>, rest: seq<Byte>, stream: seq<Byte>)
    requires NEWLINE !in prefix && |prefix| + 1 > MAX_LINE_BYTES && stream == prefix + rest
    ensures NextLine(stream) == TooLong
  {
    forall k | 0 <= k < |prefix|
      ensures stream[k] != NEWLINE
    {
      assert stream[k] == prefix[k];
    }
  }

  lemma NoNewline(line: seq<Byte>, part: seq<Byte>)
    requires FitsLine(line) && NEWLINE !in part
    ensures NEWLINE !in line + part
    ensures FitsLine(line + part) <==> |line + part| + 1 <= MAX_LINE_BYTES
  {}

  /** The first newline of a chunk decides the line that was begun before it. */
  lemma NewlineInside(stream: seq<Byte>, line: seq<Byte>, available: seq<Byte>, rest: seq<Byte>, newline: nat)
    requires FitsLine(line) && stream == line + (available + rest) && newline == FirstNewline(available)
    ensures |line| + newline + 1 > MAX_LINE_BYTES ==> NextLine(stream) == TooLong
    ensures
      newline < |available| && |line| + newline + 1 <= MAX_LINE_BYTES ==>
        NextLine(stream) == Line(line + available[..newline])
    ensures newline == |available| ==> NEWLINE !in available
    ensures newline < |available| ==> available[newline] == NEWLINE
  {
    hide FirstNewline;
    hide NextLine;
    hide FitsLine;
    var part := available[..newline];
    PrefixFree(available, newline);
    NoNewline(line, part);
    Regroup(line, available, rest, newline);
    if |line| + newline + 1 > MAX_LINE_BYTES {
      LongPrefix(line + part, available[newline..] + rest, stream);
    } else if newline < |available| {
      SplitHead(line + part, available, rest, newline);
      LineIsNext(line + part, available[newline + 1..] + rest, stream);
    }
  }

  lemma PrefixFree(available: seq<Byte>, newline: nat)
    requires newline == FirstNewline(available)
    ensures newline <= |available| && NEWLINE !in available[..newline]
    ensures newline == |available| ==> NEWLINE !in available
    ensures newline < |available| ==> available[newline] == NEWLINE
  {}

  lemma Regroup(a: seq<Byte>, b: seq<Byte>, c: seq<Byte>, k: nat)
    requires k <= |b|
    ensures a + (b + c) == (a + b[..k]) + (b[k..] + c)
  {
    assert b == b[..k] + b[k..];
  }

  lemma SplitHead(a: seq<Byte>, b: seq<Byte>, c: seq<Byte>, k: nat)
    requires k < |b| && b[k] == NEWLINE
    ensures a + (b[k..] + c) == a + [NEWLINE] + (b[k + 1..] + c)
  {
    assert b[k..] == [NEWLINE] + b[k + 1..];
  }

  /** One frame read from the front of a stream. */
  lemma FramesStep<V, E>(s: seq<Byte>, consumed: seq<Byte>, rest: seq<Byte>, decode: seq<Byte> -> Result<V, E>)
    requires s == consumed + rest
    requires NextLine(s).Line? ==> consumed == NextLine(s).bytes + [NEWLINE]
    ensures
      match NextLine(s)
      case Line(bytes) => (
        match ParseFrame(bytes, decode)
        case Value(value) => |rest| < |s| && Frames(s, decode) == After([value], Frames(rest, decode))
        case Failure(error) => Frames(s, decode) == Run([], Failed(error)))
      case other => Frames(s, decode) == Run([], EndResult(other))
  {
    hide NextLine;
    hide Lines;
    hide ParseFrame;
    hide EndFits;
    LinesStep(s);
    var next := NextLine(s);
    if next.Line? {
      assert s[|next.bytes| + 1..] == rest;
      assert ([next.bytes] + Lines(rest).lines)[1..] == Lines(rest).lines;
    }
  }

  // ----- what a run means -----

  /** A line that fits, has no byte order mark and decodes to the value. */
  ghost predicate IsFrame<V, E>(line: seq<Byte>, decode: seq<Byte> -> Result<V, E>, value: V) {
    NEWLINE !in line && |line| < 1_048_576 && !([0xef, 0xbb, 0xbf] <= line) && decode(line) == Ok(value)
  }

  /** A line that fits and its newline open the tail. */
  ghost predicate OpensWith(tail: seq<Byte>, line: seq<Byte>) {
    NEWLINE !in line && |line| < 1_048_576 && line + [NEWLINE] <= tail
  }

  /** What the bytes after the last frame look like for each end of a run. */
  ghost predicate EndsWith<V(!new), E>(end: FrameResult<V, E>, tail: seq<Byte>, decode: seq<Byte> -> Result<V, E>) {
    match end
    case Frame(_) => false
    case EndOfStream => tail == []
    case Failed(EndedEarly(n)) => n == |tail| && 0 < n < 1_048_576 && NEWLINE !in tail
    case Failed(LineTooLong(limit)) => limit == 1_048_576 <= |tail| && NEWLINE !in tail[..1_048_576]
    case Failed(ByteOrderMark) => exists line :: OpensWith(tail, line) && [0xef, 0xbb, 0xbf] <= line
    case Failed(Rejected(e)) =>
      exists line :: OpensWith(tail, line) && !([0xef, 0xbb, 0xbf] <= line) && decode(line) == Err(e)
  }

  /** The stream is the frames of these values, each on a line, and then the tail
      that explains the end. */
  ghost predicate IsRun<V(!new), E>(s: seq<Byte>, decode: seq<Byte> -> Result<V, E>, values: seq<V>,
                                    end: FrameResult<V, E>, lines: seq<seq<Byte>>, tail: seq<Byte>) {
    && s == Encode(lines) + tail && |lines| == |values|
    && (forall i :: 0 <= i < |lines| ==> IsFrame(lines[i], decode, values[i]))
    && EndsWith(end, tail, decode)
  }

  lemma LimitIsOneMebibyte()
    ensures MAX_LINE_BYTES == 1_048_576
  {}

  /** The end of a run is decided by what follows the frames. */
  lemma EndMeans<V(!new), E>(tail: seq<Byte>, decode: seq<Byte> -> Result<V, E>, end: FrameResult<V, E>)
    requires EndsWith(end, tail, decode)
    ensures Frames(tail, decode) == Run([], end)
  {
    hide Lines;
    hide FirstNewline;
    LinesStep(tail);
    match end
    case EndOfStream => EndIsNext(CleanEnd, tail);
    case Failed(EndedEarly(n)) => EndIsNext(EarlyEof(n), tail);
    case Failed(LineTooLong(_)) =>
      assert forall k :: 0 <= k < 1_048_576 ==> tail[k] == tail[..1_048_576][k];
      EndIsNext(TooLong, tail);
    case Failed(ByteOrderMark) =>
      var line :| OpensWith(tail, line) && [0xef, 0xbb, 0xbf] <= line;
      Opened(tail, line, decode);
    case Failed(Rejected(e)) =>
      var line :| OpensWith(tail, line) && !([0xef, 0xbb, 0xbf] <= line) && decode(line) == Err(e);
      Opened(tail, line, decode);
  }

  /** The first line of a stream that opens with a line decides the first frame. */
  lemma Opened<V, E>(s: seq<Byte>, line: seq<Byte>, decode: seq<Byte> -> Result<V, E>)
    requires OpensWith(s, line)
    ensures
      var rest := s[|line| + 1..];
      Frames(s, decode) ==
      if [0xef, 0xbb, 0xbf] <= line then Run([], Failed(ByteOrderMark))
      else if decode(line).Err? then Run([], Failed(Rejected(decode(line).error)))
      else After([decode(line).value], Frames(rest, decode))
  {
    hide Frames;
    hide NextLine;
    var rest := s[|line| + 1..];
    assert s == line + [NEWLINE] + rest;
    LineIsNext(line, rest, s);
    FramesStep(s, line + [NEWLINE], rest, decode);
  }

  lemma {:induction false} RunIsFound<V(!new), E>(s: seq<Byte>, decode: seq<Byte> -> Result<V, E>, values: seq<V>,
                                                  end: FrameResult<V, E>, lines: seq<seq<Byte>>, tail: seq<Byte>)
    requires IsRun(s, decode, values, end, lines, tail)
    ensures Frames(s, decode) == Run(values, end)
    decreases |lines|
  {
    hide Frames;
    hide EndsWith;
    if lines == [] {
      assert s == tail;
      EndMeans(tail, decode, end);
    } else {
      var rest := Encode(lines[1..]) + tail;
      assert s == lines[0] + [NEWLINE] + rest;
      assert IsFrame(lines[0], decode, values[0]);
      assert s[|lines[0]| + 1..] == rest;
      Opened(s, lines[0], decode);
      RunIsFound(rest, decode, values[1..], end, lines[1..], tail);
      assert values == [values[0]] + values[1..];
    }
  }

  lemma {:induction false} RunExplained<V(!new), E>(s: seq<Byte>, decode: seq<Byte> -> Result<V, E>)
    returns (lines: seq<seq<Byte>>, tail: seq<Byte>)
    ensures IsRun(s, decode, Frames(s, decode).values, Frames(s, decode).end, lines, tail)
    decreases |s|
  {
    hide Frames;
    hide NextLine;
    hide IsRun;
    hide IsFrame;
    var next := NextLine(s);
    if next.Line? && !([0xef, 0xbb, 0xbf] <= next.bytes) && decode(next.bytes).Ok? {
      NextLineShrinks(s);
      var rest := s[|next.bytes| + 1..];
      var more;
      more, tail := RunExplained(rest, decode);
      lines := [next.bytes] + more;
      RunGrows(s, decode, next.bytes, more, tail);
    } else {
      lines, tail := [], s;
      RunStops(s, decode);
    }
  }

  lemma RunGrows<V(!new), E>(s: seq<Byte>, decode: seq<Byte> -> Result<V, E>, line: seq<Byte>,
                             more: seq<seq<Byte>>, tail: seq<Byte>)
    requires NextLine(s) == Line(line) && !([0xef, 0xbb, 0xbf] <= line) && decode(line).Ok? && |line| < |s|
    requires
      var rest := Frames(s[|line| + 1..], decode);
      IsRun(s[|line| + 1..], decode, rest.values, rest.end, more, tail)
    ensures IsRun(s, decode, Frames(s, decode).values, Frames(s, decode).end, [line] + more, tail)
  {
    hide Frames;
    hide NextLine;
    hide EndsWith;
    NextLineShrinks(s);
    LimitIsOneMebibyte();
    assert OpensWith(s, line);
    Opened(s, line, decode);
    EncodeStep(line, more);
  }

  /** No frame can be read. */
  lemma RunStops<V(!new), E>(s: seq<Byte>, decode: seq<Byte> -> Result<V, E>)
    requires
      var next := NextLine(s);
      next.Line? ==> [0xef, 0xbb, 0xbf] <= next.bytes || decode(next.bytes).Err?
    ensures IsRun(s, decode, Frames(s, decode).values, Frames(s, decode).end, [], s)
  {
    hide Frames;
    hide NextLine;
    LinesStep(s);
    LimitIsOneMebibyte();
    var next := NextLine(s);
    assert s == Encode([]) + s;
    if next.Line? {
      NextLineShrinks(s);
      assert OpensWith(s, next.bytes);
      Opened(s, next.bytes, decode);
    } else {
      FramesStep(s, [], s, decode);
    }
  }

  /** Reading gives these values and this end exactly when the stream consists of
      lines that decode to the values, followed by: nothing, for a clean end; a
      partial line, for an early end; a mebibyte without a newline, for a line
      too long; a line that starts with a byte order mark or does not decode. */
  lemma FramesMean<V(!new), E>(s: seq<Byte>, decode: seq<Byte> -> Result<V, E>, values: seq<V>,
                               end: FrameResult<V, E>)
    ensures
      Frames(s, decode) == Run(values, end) <==>
      exists lines, tail :: IsRun(s, decode, values, end, lines, tail)
  {
    hide Frames;
    hide IsRun;
    if Frames(s, decode) == Run(values, end) {
      var lines, tail := RunExplained(s, decode);
      assert IsRun(s, decode, values, end, lines, tail);
    }
    if lines, tail :| IsRun(s, decode, values, end, lines, tail) {
      RunIsFound(s, decode, values, end, lines, tail);
    }
  }

  /** Two ways of cutting one stream into chunks give the same frames and the
      same first failure. */
  method CompareChunkings<V(!new), E>(first: seq<seq<Byte>>, second: seq<seq<Byte>>, decode: seq<Byte> -> Result<V, E>)
    returns (a: seq<V>, aEnd: FrameResult<V, E>, b: seq<V>, bEnd: FrameResult<V, E>)
    requires NoEmptyChunk(first) && NoEmptyChunk(second) && Flatten(first) == Flatten(second)
    ensures a == b && aEnd == bEnd
  {
    var one := new FrameReader(first);
    a, aEnd := one.ReadFrames(decode);
    var two := new FrameReader(second);
    b, bEnd := two.ReadFrames(decode);
  }

  // ----- response correlation -----

  datatype Acceptance =
    | Accepted
    | InvalidRequestId
    | ExtraResponse(id: string)
    | MismatchedRequestId(expected: string, actual: string)

  /** Matches responses to the one pending request. A response is given by its
      string id, if it has one. */
  class ResponseCorrelator {
    var expected: Option<string>

    constructor (id: string)
      ensures expected == Some(id)
    {
      expected := Some(id);
    }

    method Accept(response: Option<string>) returns (result: Acceptance)
      modifies this
      ensures result == Answer(old(expected), response)
      ensures result.Accepted? <==> response.Some? && response == old(expected)
      ensures result.InvalidRequestId? <==> response.None?
      ensures result.ExtraResponse? ==> old(expected).None? && response == Some(result.id)
      ensures
        result.MismatchedRequestId? ==>
          old(expected) == Some(result.expected) && response == Some(result.actual) && result.expected != result.actual
      ensures expected == if result.Accepted? then None else old(expected)
    {
      if response.None? {
        return InvalidRequestId;
      }
      if expected.None? {
        return ExtraResponse(response.value);
      }
      if response.value != expected.value {
        return MismatchedRequestId(expected.value, response.value);
      }
      expected := None;
      return Accepted;
    }

    /** Accepting response after response gives the answers of the whole list, and
        the request stays pending unless one of them names it. */
    method AcceptAll(responses: seq<Option<string>>) returns (answers: seq<Acceptance>)
      modifies this
      ensures answers == Answers(old(expected), responses)
      ensures expected == PendingAfter(old(expected), responses)
    {
      hide Answer;
      hide Answers;
      hide PendingAfter;
      ghost var start := expected;
      answers := [];
      NothingAccepted(start, responses);
      for i := 0 to |responses|
        invariant answers + Answers(expected, responses[i..]) == Answers(start, responses)
        invariant expected == PendingAfter(start, responses[..i])
      {
        AnswersStep(expected, responses, i, answers);
        PendingStep(start, responses, i);
        var answer := Accept(responses[i]);
        answers := answers + [answer];
      }
      assert responses[..|responses|] == responses;
      NoAnswers(expected, responses[|responses|..], answers);
    }
  }

  lemma NothingAccepted(expected: Option<string>, responses: seq<Option<string>>)
    ensures [] + Answers(expected, responses[0..]) == Answers(expected, responses)
    ensures PendingAfter(expected, responses[..0]) == expected
  {
    assert responses[0..] == responses;
  }

  /** The request stays pending until a response names it. */
  function PendingAfter(expected: Option<string>, responses: seq<Option<string>>): Option<string> {
    if expected.Some? && expected in responses then None else expected
  }

  lemma PendingStep(expected: Option<string>, responses: seq<Option<string>>, i: nat)
    requires i < |responses|
    ensures
      var pending := PendingAfter(expected, responses[..i]);
      PendingAfter(expected, responses[..i + 1]) == if Answer(pending, responses[i]).Accepted? then None else pending
  {
    assert responses[..i + 1] == responses[..i] + [responses[i]];
  }

  lemma NoAnswers(expected: Option<string>, responses: seq<Option<string>>, answers: seq<Acceptance>)
    requires |responses| == 0
    ensures answers + Answers(expected, responses) == answers
  {}

  lemma AnswersStep(expected: Option<string>, responses: seq<Option<string>>, i: nat, answers: seq<Acceptance>)
    requires i < |responses|
    ensures
      var next := Answer(expected, responses[i]);
      answers + [next] + Answers(if next.Accepted? then None else expected, responses[i + 1..]) ==
      answers + Answers(expected, responses[i..])
  {
    hide Answer;
    assert responses[i..][1..] == responses[i + 1..];
  }

  function Answer(expected: Option<string>, response: Option<string>): Acceptance {
    match response
    case None => InvalidRequestId
    case Some(actual) =>
      match expected
      case None => ExtraResponse(actual)
      case Some(id) => if actual == id then Accepted else MismatchedRequestId(id, actual)
  }

  /** The answers to a whole sequence of responses. */
  function Answers(expected: Option<string>, responses: seq<Option<string>>): (answers: seq<Acceptance>)
    ensures |answers| == |responses|
    decreases |responses|
  {
    if responses == [] then []
    else
      var first := Answer(expected, responses[0]);
      [first] + Answers(if first.Accepted? then None else expected, responses[1..])
  }

  lemma {:induction false} NothingPending(responses: seq<Option<string>>, i: nat)
    requires i < |responses|
    ensures Answers(None, responses)[i] == Answer(None, responses[i])
  {
    if i > 0 {
      NothingPending(responses[1..], i - 1);
    }
  }

  /** Exactly the first response that names the pending request is accepted;
      earlier ones leave it pending and later ones are extra. */
  lemma {:induction false} FirstMatchIsAccepted(id: string, responses: seq<Option<string>>, i: nat)
    requires i < |responses|
    ensures
      var seen := exists j :: 0 <= j < i && responses[j] == Some(id);
      Answers(Some(id), responses)[i] == Answer(if seen then None else Some(id), responses[i])
    ensures
      Answers(Some(id), responses)[i].Accepted? <==>
      responses[i] == Some(id) && forall j :: 0 <= j < i ==> responses[j] != Some(id)
  {
    if i > 0 {
      var rest := responses[1..];
      assert forall j :: 0 <= j < |rest| ==> rest[j] == responses[j + 1];
      assert forall j :: 0 < j < |responses| ==> responses[j] == rest[j - 1];
      if responses[0] == Some(id) {
        NothingPending(rest, i - 1);
      } else {
        FirstMatchIsAccepted(id, rest, i - 1);
      }
    }
  }
}
