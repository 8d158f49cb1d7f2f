/** From a matched offset to its grep-style record: the owning line's number
    and its text without the trailing newline. */
module LineMapper {
  import opened LineIndex

  /** The end of the line holding position `pos`: the least `e >= pos` that
      is the end of the text or a newline. */
  function LineEndAfter(text: seq<char>, pos: nat): (e: nat)
    requires pos <= |text|
    ensures pos <= e <= |text|
    ensures e == |text| || text[e] == NEWLINE
    ensures NEWLINE !in text[pos..e]
    decreases |text| - pos
  {
    if pos == |text| || text[pos] == NEWLINE then pos
    else
      var e := LineEndAfter(text, pos + 1);
      assert text[pos..e] == [text[pos]] + text[pos + 1..e];
      e
  }

  /** Any end of line at or after `pos` with no newline in between is the one
      `LineEndAfter` finds. */
  lemma LineEndUnique(text: seq<char>, pos: nat, e: nat)
    requires pos <= e <= |text|
    requires e == |text| || text[e] == NEWLINE
    requires NEWLINE !in text[pos..e]
    ensures e == LineEndAfter(text, pos)
  {
  }

  /** Line `k` of the index is the range `[starts[k], starts[k + 1])`. */
  predicate InLine(starts: seq<nat>, k: nat, pos: nat)
    requires k + 1 < |starts|
  {
    starts[k] <= pos < starts[k + 1]
  }

  /** The host's linear search: stop at the first line whose range holds
      `pos`, or fall through to the last line when none does. */
  method FindLine(starts: seq<nat>, pos: nat) returns (lineIdx: nat)
    requires |starts| > 0
    ensures lineIdx < |starts|
    ensures forall k :: 0 <= k < lineIdx ==> !InLine(starts, k, pos)
    ensures lineIdx < |starts| - 1 ==> InLine(starts, lineIdx, pos)
  {
    lineIdx := 0;
    while lineIdx < |starts| - 1
      invariant lineIdx < |starts|
      invariant forall k :: 0 <= k < lineIdx ==> !InLine(starts, k, pos)
    {
      if pos >= starts[lineIdx] && pos < starts[lineIdx + 1] {
        break;
      }
      lineIdx := lineIdx + 1;
    }
  }

  /** On the index of `text`, the line the search picks for a position in the
      text is the one holding it: its number is one more than the newlines
      before `pos`, its start is at or before `pos`, and the next line (if
      any) starts after `pos`. */
  lemma LineOfOffset(text: seq<char>, pos: nat, lineIdx: nat)
    requires pos < |text|
    requires lineIdx < |LineStarts(text)|
    requires forall k :: 0 <= k < lineIdx ==> !InLine(LineStarts(text), k, pos)
    requires lineIdx < |LineStarts(text)| - 1 ==> InLine(LineStarts(text), lineIdx, pos)
    ensures lineIdx == multiset(text[..pos])[NEWLINE]
    ensures LineStarts(text)[lineIdx] == LineStartBefore(text, pos) <= pos
    ensures lineIdx == |LineStarts(text)| - 1 || pos < LineStarts(text)[lineIdx + 1]
  {
    var lines, before := LineStarts(text), LineStartsUpTo(text, pos);
    LineStartsExtend(text, pos, |text|);
    LineStartsIncreasing(text, |text|);
    LineStartsCount(text, pos);
    LineStartsLast(text, pos);
    var c := |before| - 1;
    assert lines[c] == before[c] <= pos;
    if c < |lines| - 1 {
      assert InLine(lines, c, pos);
    }
    assert lineIdx == c;
  }

  /** Where line `k` ends: one before the next line's start, or the end of
      the text for the last line. It is at or after the line's start, and it
      is the end of the text or a newline. */
  function LineEnd(text: seq<char>, starts: seq<nat>, k: nat): (e: nat)
    requires starts == LineStarts(text) && k < |starts|
    ensures starts[k] <= e <= |text|
    ensures e == |text| || text[e] == NEWLINE
  {
    LineStartsAfterNewline(text, |text|);
    LineStartsIncreasing(text, |text|);
    if k < |starts| - 1 then starts[k + 1] - 1 else |text|
  }

  /** No newline lies between the start of line `k` and its end. */
  lemma NoNewlineInLine(text: seq<char>, k: nat)
    requires k < |LineStarts(text)|
    ensures NEWLINE !in text[LineStarts(text)[k]..LineEnd(text, LineStarts(text), k)]
  {
    var lines := LineStarts(text);
    LineStartsIncreasing(text, |text|);
    LineStartsComplete(text, |text|);
    var s, e := lines[k], LineEnd(text, lines, k);
    forall i | 0 <= i < e - s
      ensures text[s..e][i] != NEWLINE
    {
      assert text[s..e][i] == text[s + i];
    }
  }

  /** The text of line `k`, without its trailing newline: it runs from the
      line's start up to a newline or the end of the text, and holds none. */
  function ExtractLine(text: seq<char>, starts: seq<nat>, k: nat): (line: seq<char>)
    requires starts == LineStarts(text) && k < |starts|
    ensures starts[k] + |line| <= |text|
    ensures line == text[starts[k]..starts[k] + |line|]
    ensures starts[k] + |line| == |text| || text[starts[k] + |line|] == NEWLINE
    ensures NEWLINE !in line
  {
    NoNewlineInLine(text, k);
    text[starts[k]..LineEnd(text, starts, k)]
  }

  /** The line the search picks for `pos` ends where the line holding `pos`
      ends, so its text is the whole of that line and holds no newline. */
  lemma LineEndOfOffset(text: seq<char>, pos: nat, lineIdx: nat)
    requires pos < |text|
    requires lineIdx < |LineStarts(text)|
    requires LineStarts(text)[lineIdx] <= pos
    requires lineIdx == |LineStarts(text)| - 1 || pos < LineStarts(text)[lineIdx + 1]
    ensures LineStarts(text)[lineIdx] <= pos <= LineEnd(text, LineStarts(text), lineIdx)
    ensures LineEnd(text, LineStarts(text), lineIdx) == LineEndAfter(text, pos)
  {
    var lines := LineStarts(text);
    LineStartsIncreasing(text, |text|);
    LineStartsAfterNewline(text, |text|);
    LineStartsComplete(text, |text|);
    var e := LineEnd(text, lines, lineIdx);
    assert e <= |text|;
    forall p | pos <= p < e
      ensures text[p] != NEWLINE
    {
      if text[p] == NEWLINE {
        var j :| 0 <= j < |lines| && lines[j] == p + 1;
      }
    }
    assert NEWLINE !in text[pos..e] by {
      forall i | 0 <= i < e - pos
        ensures text[pos..e][i] != NEWLINE
      {
        assert text[pos..e][i] == text[pos + i];
      }
    }
    LineEndUnique(text, pos, e);
  }

  /** The record's line for a match at `pos`: it is exactly the line holding
      `pos`, bounded by the reference start and end of that line. */
  lemma ExtractLineOfOffset(text: seq<char>, pos: nat, lineIdx: nat)
    requires pos < |text|
    requires lineIdx < |LineStarts(text)|
    requires forall k :: 0 <= k < lineIdx ==> !InLine(LineStarts(text), k, pos)
    requires lineIdx < |LineStarts(text)| - 1 ==> InLine(LineStarts(text), lineIdx, pos)
    ensures LineStarts(text)[lineIdx] <= LineEnd(text, LineStarts(text), lineIdx)
    ensures ExtractLine(text, LineStarts(text), lineIdx) ==
              text[LineStartBefore(text, pos)..LineEndAfter(text, pos)]
    ensures NEWLINE !in ExtractLine(text, LineStarts(text), lineIdx)
  {
    LineOfOffset(text, pos, lineIdx);
    LineEndOfOffset(text, pos, lineIdx);
    var s, e := LineStartBefore(text, pos), LineEndAfter(text, pos);
    assert text[s..e] == text[s..pos] + text[pos..e];
  }

  /** A match that does not itself contain a newline ends no later than the
      line holding its start. */
  lemma MatchBeforeLineEnd(text: seq<char>, pattern: seq<char>, pos: nat)
    requires pos + |pattern| <= |text| && text[pos..pos + |pattern|] == pattern
    requires NEWLINE !in pattern
    ensures pos + |pattern| <= LineEndAfter(text, pos)
  {
  }

  lemma SliceOfSlice(t: seq<char>, s: nat, e: nat, a: nat, b: nat)
    requires s <= e <= |t| && a <= b <= e - s
    ensures t[s..e][a..b] == t[s + a..s + b]
  {
    assert forall k :: 0 <= k < b - a ==> t[s..e][a..b][k] == t[s + a + k];
  }

  /** Such a match therefore lies wholly inside the line holding its start,
      at column `pos - start`. */
  lemma MatchInLine(text: seq<char>, pattern: seq<char>, pos: nat)
    requires pos + |pattern| <= |text| && text[pos..pos + |pattern|] == pattern
    requires NEWLINE !in pattern
    ensures var s := LineStartBefore(text, pos);
            text[s..LineEndAfter(text, pos)][pos - s..pos - s + |pattern|] == pattern
  {
    MatchBeforeLineEnd(text, pattern, pos);
    var s, e := LineStartBefore(text, pos), LineEndAfter(text, pos);
    SliceOfSlice(text, s, e, pos - s, pos - s + |pattern|);
  }
}
