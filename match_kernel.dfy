/** The per-offset match task: one instance per candidate start offset. */
module MatchKernel {
  import opened CStrings
  import opened Channel

  /** `pattern` occurs in `text` starting at offset `o`. */
  predicate OccursAt(text: seq<char>, pattern: seq<char>, o: nat)
  {
    o + |pattern| <= |text| && text[o..o + |pattern|] == pattern
  }

  /** The right-to-left comparison of one instance: `j` starts at the last
      pattern index and walks down while the bytes agree; the offset matches
      when `j` falls below zero. */
  method MatchesAt(text: seq<char>, pattern: seq<char>, tid: nat, m: nat) returns (found: bool)
    requires 0 < m <= |pattern| && tid + m <= |text|
    ensures found <==> forall k :: 0 <= k < m ==> text[tid + k] == pattern[k]
  {
    var j: int := m - 1;
    while j >= 0 && pattern[j] == text[tid + j]
      invariant -1 <= j < m
      invariant forall k :: j < k < m ==> text[tid + k] == pattern[k]
    {
      j := j - 1;
    }
    found := j < 0;
  }

  /** Whether the kernel instance with thread id `tid` reports a match, given
      the NUL-terminated text and pattern buffers: both lengths are measured by
      scanning to the first NUL, an empty pattern is rejected, and so is every
      `tid` above `text_length - pattern_length` computed on 32-bit unsigned
      integers. */
  predicate KernelAccepts(textBuf: seq<char>, patBuf: seq<char>, tid: nat)
    requires Terminated(textBuf) && CString(patBuf)
    requires |textBuf| <= U32 && tid + |patBuf| <= |textBuf|
    ensures KernelAccepts(textBuf, patBuf, tid) ==>
              |patBuf| > 1 && OccursAt(textBuf, patBuf[..|patBuf| - 1], tid)
  {
    CStringLength(patBuf);
    var n := CLength(textBuf);
    var m := CLength(patBuf);
    m != 0 && !(tid > USub32(n, m)) && textBuf[tid..tid + m] == patBuf[..m]
  }

  /** For a text without embedded NUL, the kernel reports exactly the offsets
      where a non-empty pattern occurs. */
  lemma KernelAcceptsIff(text: seq<char>, pattern: seq<char>, tid: nat)
    requires NUL !in text && NUL !in pattern
    requires |text| < U32 && tid + |pattern| <= |text|
    ensures Terminated(text + [NUL]) && CString(pattern + [NUL])
    ensures KernelAccepts(text + [NUL], pattern + [NUL], tid) <==>
              |pattern| > 0 && OccursAt(text, pattern, tid)
  {
    var textBuf, patBuf := text + [NUL], pattern + [NUL];
    assert patBuf[..|patBuf| - 1] == pattern;
    CStringLength(patBuf);
    assert textBuf[..|textBuf| - 1] == text;
    CStringLength(textBuf);
    assert patBuf[..|pattern|] == pattern;
    assert textBuf[tid..tid + |pattern|] == text[tid..tid + |pattern|];
  }

  /** With an embedded NUL the kernel's own length `n` can fall below the
      pattern length `m`; the unsigned subtraction then wraps and the range
      guard lets every dispatched `tid` through, so occurrences after the NUL
      are reported. When `m <= n` only offsets up to `n - m` are. */
  lemma KernelGuard(textBuf: seq<char>, patBuf: seq<char>, tid: nat)
    requires Terminated(textBuf) && CString(patBuf)
    requires |textBuf| <= U32 && tid + |patBuf| <= |textBuf|
    ensures KernelAccepts(textBuf, patBuf, tid) <==>
              |patBuf| > 1 &&
              (CLength(textBuf) < |patBuf| - 1 || tid + |patBuf| - 1 <= CLength(textBuf)) &&
              textBuf[tid..tid + |patBuf| - 1] == patBuf[..|patBuf| - 1]
  {
    CStringLength(patBuf);
  }

  /** One kernel instance: measure both buffers, apply the guard, compare,
      and on a match reserve a slot in the shared channel. */
  method GrepKernel(textBuf: seq<char>, patBuf: seq<char>, ch: ResultChannel, tid: nat)
    requires Terminated(textBuf) && CString(patBuf)
    requires |textBuf| <= U32 && tid + |patBuf| <= |textBuf|
    requires ch.Valid()
    modifies ch, ch.slots
    ensures ch.Valid()
    ensures ch.Found == old(ch.Found) + (if KernelAccepts(textBuf, patBuf, tid) then [tid] else [])
    ensures ch.Retained() == old(ch.Retained()) +
              (if KernelAccepts(textBuf, patBuf, tid) && old(ch.counter) < ch.capacity then [tid] else [])
    ensures ch.counter == old(ch.counter) + (if KernelAccepts(textBuf, patBuf, tid) then 1 else 0)
  {
    var textLength := StrLen(textBuf);
    var patternLength := StrLen(patBuf);
    if patternLength == 0 || tid > USub32(textLength, patternLength) {
      return;
    }
    var found := MatchesAt(textBuf, patBuf, tid, patternLength);
    assert found <==> textBuf[tid..tid + patternLength] == patBuf[..patternLength] by {
      if found {
        assert forall k :: 0 <= k < patternLength ==>
          textBuf[tid..tid + patternLength][k] == patBuf[..patternLength][k];
      } else {
        var k :| 0 <= k < patternLength && textBuf[tid + k] != patBuf[k];
        assert textBuf[tid..tid + patternLength][k] != patBuf[..patternLength][k];
      }
    }
    if found {
      var _ := ch.Reserve(tid);
    }
  }
}
