/** The host program: guard, dispatch, read-back and clamp, then one record
    per retained offset. */
module Grep {
  import opened CStrings
  import opened Channel
  import opened MatchKernel
  import opened Dispatch
  import opened LineIndex
  import opened LineMapper

  /** The number of offset slots the host allocates and reads back. */
  const MaxMatches: nat := 10

  /** The slot bound the kernel checks before writing, as written. */
  const KernelCapacity: nat := 1000

  /** 2^31: offsets are stored in the kernel's `int` slots. */
  const I32: nat := 0x8000_0000

  /** As written, every match from the 11th to the 1000th draws a slot index
      the kernel accepts but the host's ten-slot buffer does not have. */
  lemma CapacityMismatch()
    ensures forall count :: MaxMatches <= count < KernelCapacity ==>
              SlotFor(KernelCapacity, count).Some? &&
              SlotFor(KernelCapacity, count).value >= MaxMatches
  {
  }

  /** One grep-style output line: the offset, its 1-based line number and the
      line's text without the trailing newline. */
  datatype MatchRecord = MatchRecord(offset: nat, lineNumber: nat, line: seq<char>)

  /** What the host reports: the header count (clamped), whether the overflow
      warning was printed, and the records. */
  datatype Report = Report(matchCount: nat, warned: bool, records: seq<MatchRecord>)

  lemma Buffers(text: seq<char>, pattern: seq<char>)
    requires NUL !in pattern && |text| < I32
    ensures Terminated(text + [NUL]) && CString(pattern + [NUL])
    ensures DispatchReady(text + [NUL], pattern + [NUL], CandidateCount(|text|, |pattern|))
  {
    assert (pattern + [NUL])[..|pattern|] == pattern;
  }

  /** The offsets the kernel grid accepts for this text and pattern. */
  ghost function Matches(text: seq<char>, pattern: seq<char>): set<int>
    requires NUL !in pattern && |text| < I32
  {
    Buffers(text, pattern);
    MatchSet(text + [NUL], pattern + [NUL], CandidateCount(|text|, |pattern|))
  }

  /** The offsets where `pattern` occurs in `text`. */
  ghost function Occurrences(text: seq<char>, pattern: seq<char>): set<int>
  {
    set o | 0 <= o <= |text| && OccursAt(text, pattern, o)
  }

  /** For a text without NUL bytes and a non-empty pattern, the kernel grid
      finds exactly the occurrences of the pattern. */
  lemma MatchesAreOccurrences(text: seq<char>, pattern: seq<char>)
    requires NUL !in text && NUL !in pattern && |text| < I32
    requires |pattern| > 0
    ensures Matches(text, pattern) == Occurrences(text, pattern)
  {
    Buffers(text, pattern);
    var grid := CandidateCount(|text|, |pattern|);
    forall o: int | 0 <= o <= |text|
      ensures o in Matches(text, pattern) <==> o in Occurrences(text, pattern)
    {
      assert IsCandidate(|text|, |pattern|, o) <==> o < grid;
      if o + |pattern| <= |text| {
        KernelAcceptsIff(text, pattern, o);
      }
    }
  }

  /** An empty text, an empty pattern, or a pattern longer than the text
      yields no match. */
  lemma NoMatches(text: seq<char>, pattern: seq<char>)
    requires NUL !in pattern && |text| < I32
    requires |text| == 0 || |pattern| == 0 || |pattern| > |text|
    ensures Matches(text, pattern) == {}
  {
    Buffers(text, pattern);
    if |pattern| == 0 {
      CStringLength(pattern + [NUL]);
    }
  }

  /** The record states the line holding its offset: the number of newlines
      before it plus one, and the text between the line's start and its
      newline (or the end of the text). */
  ghost predicate Describes(text: seq<char>, rec: MatchRecord)
  {
    rec.offset < |text| &&
    rec.lineNumber == multiset(text[..rec.offset])[NEWLINE] + 1 &&
    rec.line == text[LineStartBefore(text, rec.offset)..LineEndAfter(text, rec.offset)]
  }

  ghost function Offsets(records: seq<MatchRecord>): set<int>
  {
    set i | 0 <= i < |records| :: records[i].offset
  }

  /** The host's reporting loop: for each retained offset, find its line in
      the line index and cut out that line's text. */
  method MapRecords(text: seq<char>, positions: seq<int>) returns (records: seq<MatchRecord>)
    requires forall k :: 0 <= k < |positions| ==> 0 <= positions[k] < |text|
    ensures |records| == |positions|
    ensures forall k :: 0 <= k < |records| ==>
              records[k].offset == positions[k] && Describes(text, records[k])
  {
    var starts := BuildLineStarts(text);
    records := [];
    for i := 0 to |positions|
      invariant |records| == i
      invariant forall k :: 0 <= k < i ==>
                  records[k].offset == positions[k] && Describes(text, records[k])
    {
      var pos := positions[i];
      var lineIdx := FindLine(starts, pos);
      LineOfOffset(text, pos, lineIdx);
      ExtractLineOfOffset(text, pos, lineIdx);
      var line := ExtractLine(text, starts, lineIdx);
      records := records + [MatchRecord(pos, lineIdx + 1, line)];
    }
  }

  /** The first `count` entries of a strictly increasing enumeration of a set
      are distinct members of it. */
  lemma RetainedPrefix(accepted: seq<int>, matches: set<int>, count: nat)
    requires StrictlyIncreasing(accepted)
    requires (set x | x in accepted) == matches && |accepted| == |matches|
    requires count <= |matches|
    ensures forall k :: 0 <= k < count ==> accepted[k] in matches
    ensures forall i, j :: 0 <= i < j < count ==> accepted[i] != accepted[j]
  {
    forall k | 0 <= k < count
      ensures accepted[k] in matches
    {
      assert accepted[k] in accepted;
    }
  }

  /** The records carry exactly the offsets they were made from. */
  lemma OffsetsOfRecords(records: seq<MatchRecord>, positions: seq<int>)
    requires |records| == |positions|
    requires forall k :: 0 <= k < |records| ==> records[k].offset == positions[k]
    ensures Offsets(records) == set x | x in positions
  {
    forall x | x in positions
      ensures x in Offsets(records)
    {
      var k :| 0 <= k < |positions| && positions[k] == x;
      assert records[k].offset == x;
    }
  }

  /** The device half of the search: copy both strings into NUL-terminated
      buffers, launch one instance per candidate offset on a ten-slot channel,
      wait, and read back the clamped count, the warning and the retained
      offsets. */
  method RunGrid(text: seq<char>, pattern: seq<char>)
      returns (matchCount: nat, warned: bool, positions: seq<int>)
    requires NUL !in pattern && |text| < I32
    ensures matchCount == Min(|Matches(text, pattern)|, MaxMatches)
    ensures warned <==> |Matches(text, pattern)| > MaxMatches
    ensures |positions| == matchCount
    ensures forall k :: 0 <= k < |positions| ==>
              positions[k] in Matches(text, pattern) && 0 <= positions[k] < |text|
    ensures forall i, j :: 0 <= i < j < |positions| ==> positions[i] != positions[j]
    ensures |Matches(text, pattern)| <= MaxMatches ==>
              (set x | x in positions) == Matches(text, pattern)
  {
    Buffers(text, pattern);
    var textBuf, patBuf := text + [NUL], pattern + [NUL];
    var ch := new ResultChannel(MaxMatches, MaxMatches);
    var grid := CandidateCount(|text|, |pattern|);
    DispatchGrid(textBuf, patBuf, ch, grid);
    matchCount, warned, positions := Harvest(ch, MaxMatches);
    ghost var accepted := Accepted(textBuf, patBuf, grid);
    AcceptedIsMatchSet(textBuf, patBuf, grid);
    RetainedPrefix(accepted, Matches(text, pattern), matchCount);
    if |Matches(text, pattern)| <= MaxMatches {
      assert positions == accepted;
    }
  }

  /** The whole search. The header count is the logical count clamped to the
      number of slots, the warning fires exactly when it was clamped, every
      record is a distinct match described by its own line, and when nothing
      was dropped the records cover every match. */
  method Search(text: seq<char>, pattern: seq<char>) returns (r: Report)
    requires NUL !in pattern && |text| < I32
    ensures |text| == 0 || |pattern| == 0 ==> r == Report(0, false, [])
    ensures r.matchCount == Min(|Matches(text, pattern)|, MaxMatches)
    ensures r.warned <==> |Matches(text, pattern)| > MaxMatches
    ensures |r.records| == r.matchCount
    ensures forall i :: 0 <= i < |r.records| ==>
              r.records[i].offset in Matches(text, pattern) && Describes(text, r.records[i])
    ensures forall i, j :: 0 <= i < j < |r.records| ==> r.records[i].offset != r.records[j].offset
    ensures |Matches(text, pattern)| <= MaxMatches ==> Offsets(r.records) == Matches(text, pattern)
  {
    if |text| == 0 || |pattern| == 0 {
      NoMatches(text, pattern);
      return Report(0, false, []);
    }
    var matchCount, warned, positions := RunGrid(text, pattern);
    var records := MapRecords(text, positions);
    r := Report(matchCount, warned, records);
    OffsetsOfRecords(records, positions);
  }
}
