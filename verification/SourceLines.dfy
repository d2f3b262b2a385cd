/** Line and column positions from src/core/yaml.rs. */
module SourceLines {
  import opened Integers
  import opened Searching
  import opened Wrappers

  datatype Place = Place(line: nat, column: nat)

  datatype SourceSpan = SourceSpan(start: Place, end: Place)

  /** A located range in characters, as the YAML decoder reports it. */
  datatype Location = Location(offset: U64, length: U64)

  function Clamp(offset: nat, length: nat): (clamped: nat)
    ensures clamped <= offset && clamped <= length && (clamped == offset || clamped == length)
  {
    if offset < length then offset else length
  }

  /** offset.saturating_add(length). */
  function SaturatingAdd(a: U64, b: U64): (sum: U64)
    ensures sum == Clamp(a + b, U64_MAX)
  {
    if a + b <= U64_MAX then a + b else U64_MAX
  }

  /** The position of an offset found by rescanning the text from its start. */
  ghost function Rescan(text: string, offset: nat): (p: Place)
    requires offset <= |text|
    ensures p.line >= 1 && p.column >= 1
  {
    if offset == 0 then Place(1, 1)
    else
      var p := Rescan(text, offset - 1);
      if text[offset - 1] == '\n' then Place(p.line + 1, 1) else p.(column := p.column + 1)
  }

  ghost predicate Earlier(p: Place, q: Place) {
    p.line < q.line || (p.line == q.line && p.column < q.column)
  }

  /** Later offsets have later positions, so a position determines its offset. */
  lemma {:induction false} RescanIsMonotone(text: string, a: nat, b: nat)
    requires a < b <= |text|
    ensures Earlier(Rescan(text, a), Rescan(text, b))
  {
    if a < b - 1 {
      RescanIsMonotone(text, a, b - 1);
    }
  }

  /** starts lists the offsets at which the lines of a text begin. */
  ghost predicate ListsStarts(text: string, starts: seq<nat>) {
    && |starts| >= 1 && starts[0] == 0 && Increasing(starts)
    && (forall i :: 0 < i < |starts| ==> 0 < starts[i] <= |text| && text[starts[i] - 1] == '\n')
    && (forall k :: 0 <= k < |text| && text[k] == '\n' ==> k + 1 in starts)
  }

  lemma StartAfterNewline(text: string, starts: seq<nat>, i: nat)
    requires ListsStarts(text, starts) && 0 < i < |starts|
    ensures 0 < starts[i] <= |text| && text[starts[i] - 1] == '\n'
  {}

  /** No newline lies between the start of a line and an offset on it. */
  lemma NoNewlineWithin(text: string, starts: seq<nat>, i: nat, k: nat)
    requires ListsStarts(text, starts) && i < |starts| && starts[i] <= k < |text|
    requires i + 1 < |starts| ==> k + 1 < starts[i + 1]
    ensures text[k] != '\n'
  {
    if text[k] == '\n' {
      var j :| 0 <= j < |starts| && starts[j] == k + 1;
      if j < i {
        IncreasingPair(starts, j, i);
      } else if j > i + 1 {
        IncreasingPair(starts, i + 1, j);
      }
    }
  }

  /** Line i + 1 begins at starts[i], and the offsets up to the next start are
      its columns. */
  lemma {:induction false} RescanOnLine(text: string, starts: seq<nat>, i: nat, offset: nat)
    requires ListsStarts(text, starts) && i < |starts| && starts[i] <= offset <= |text|
    requires i + 1 < |starts| ==> offset < starts[i + 1]
    ensures Rescan(text, offset) == Place(i + 1, offset - starts[i] + 1)
    decreases offset
  {
    hide ListsStarts;
    if starts[i] < offset {
      NoNewlineWithin(text, starts, i, offset - 1);
      RescanOnLine(text, starts, i, offset - 1);
    } else if i > 0 {
      StartAfterNewline(text, starts, i);
      PreviousStart(text, starts, i);
      RescanOnLine(text, starts, i - 1, offset - 1);
    } else {
      FirstStart(text, starts);
    }
  }

  lemma FirstStart(text: string, starts: seq<nat>)
    requires ListsStarts(text, starts)
    ensures starts[0] == 0
  {}

  lemma PreviousStart(text: string, starts: seq<nat>, i: nat)
    requires ListsStarts(text, starts) && 0 < i < |starts|
    ensures starts[i - 1] < starts[i]
  {}

  class SourceLines {
    var starts: seq<nat>
    var length: nat
    ghost const text: string

    ghost predicate Valid()
      reads this
    {
      length == |text| && ListsStarts(text, starts)
    }

    constructor (source: string)
      ensures Valid() && text == source
    {
      hide ListsStarts;
      var begins: seq<nat> := [0];
      var count := 0;
      StartsOfNothing(source[..0]);
      for i := 0 to |source|
        invariant count == i && ListsStarts(source[..i], begins)
      {
        count := count + 1;
        StartsPush(source[..i], source[i], begins);
        if source[i] == '\n' {
          begins := begins + [count];
        }
        assert source[..i] + [source[i]] == source[..i + 1];
      }
      assert source[..|source|] == source;
      text := source;
      starts := begins;
      length := count;
    }

    /** The one-indexed position of an offset, an offset past the end counting as
        the end. */
    method Position(offset: nat) returns (p: Place)
      requires Valid()
      ensures
        var clamped := Clamp(offset, length);
        && p == Rescan(text, clamped)
        && 1 <= p.line <= |starts| && starts[p.line - 1] + p.column - 1 == clamped
    {
      var clamped := Clamp(offset, length);
      var after := PartitionPoint(starts, clamped, 0, |starts|);
      PartitionPointSplits(starts, clamped, 0, |starts|);
      assert after > 0 by {
        assert starts[0] == 0;
      }
      var line := after - 1;
      RescanOnLine(text, starts, line, clamped);
      p := Place(line + 1, clamped - starts[line] + 1);
    }

    /** The span of a location; an unknown one is the end of the text. */
    method Span(location: Option<Location>) returns (span: SourceSpan)
      requires Valid()
      ensures
        var from := if location.None? then |text| else Clamp(location.value.offset, |text|);
        var to := if location.None? then |text|
                  else Clamp(Clamp(location.value.offset + location.value.length, U64_MAX), |text|);
        span == SourceSpan(Rescan(text, from), Rescan(text, to))
      ensures span.start == span.end || Earlier(span.start, span.end)
    {
      var from, to: nat := length, length;
      if location.Some? {
        from := location.value.offset;
        to := SaturatingAdd(location.value.offset, location.value.length);
      }
      var start := Position(from);
      var end := Position(to);
      span := SourceSpan(start, end);
      if Clamp(from, length) < Clamp(to, length) {
        RescanIsMonotone(text, Clamp(from, length), Clamp(to, length));
      }
    }
  }

  lemma StartsOfNothing(text: string)
    requires text == ""
    ensures ListsStarts(text, [0])
  {}

  lemma StartsPush(text: string, c: char, starts: seq<nat>)
    requires ListsStarts(text, starts)
    ensures ListsStarts(text + [c], if c == '\n' then starts + [|text| + 1] else starts)
  {
    var longer := text + [c];
    var r := if c == '\n' then starts + [|text| + 1] else starts;
    forall i | 0 < i < |r| ensures 0 < r[i] <= |longer| && longer[r[i] - 1] == '\n' {
      if i < |starts| {
        StartAfterNewline(text, starts, i);
      }
    }
    forall k | 0 <= k < |longer| && longer[k] == '\n' ensures k + 1 in r {
      if k < |text| {
        assert k + 1 in starts;
      } else {
        assert r[|starts|] == k + 1;
      }
    }
  }
}
