/** The host side of the search: how many kernel instances are launched, the
    launch itself (as one sequential schedule), and the read-back of the
    channel after the completion wait. */
module Dispatch {
  import opened CStrings
  import opened Channel
  import opened MatchKernel

  /** 2^64: the host's `size_t` arithmetic wraps here. */
  const U64: nat := 0x1_0000_0000_0000_0000

  /** The grid width as written: `text.size() - pattern.size() + 1` on
      `size_t`, which wraps when the pattern is longer than the text. */
  function GridWidth(n: nat, m: nat): (w: nat)
    requires n + 1 < U64 && m < U64
    ensures w < U64
    ensures m <= n + 1 ==> w + m == n + 1
    ensures m > n + 1 ==> w + m == U64 + n + 1
  {
    (n - m + 1) % U64
  }

  /** A text of 3 bytes and a pattern of 5 give a grid of 2^64 - 1 instances;
      they read past the end of the text buffer. */
  lemma GridWidthUnderflow()
    ensures GridWidth(3, 5) == U64 - 1
  {
  }

  /** A candidate start offset: one where `m` bytes still fit in `n`. */
  predicate IsCandidate(n: nat, m: nat, o: nat)
  {
    o + m <= n
  }

  /** The number of candidate start offsets, zero when the pattern is longer
      than the text. */
  function CandidateCount(n: nat, m: nat): (c: nat)
    ensures forall o: nat :: o < c <==> IsCandidate(n, m, o)
  {
    if m <= n then n - m + 1 else 0
  }

  /** Wherever the written grid width does not wrap, it is the candidate count. */
  lemma GridWidthAgrees(n: nat, m: nat)
    requires n + 1 < U64 && m < U64
    ensures m <= n + 1 <==> GridWidth(n, m) == CandidateCount(n, m)
  {
  }

  ghost predicate DispatchReady(textBuf: seq<char>, patBuf: seq<char>, grid: nat)
  {
    Terminated(textBuf) && CString(patBuf) && |textBuf| <= U32 &&
    (grid == 0 || grid + |patBuf| <= |textBuf| + 1)
  }

  predicate StrictlyIncreasing(s: seq<int>)
  {
    forall i, j :: 0 <= i < j < |s| ==> s[i] < s[j]
  }

  /** The offsets below `grid` that the kernel accepts, ascending: the record
      a sequential run of the grid leaves in the channel. */
  function Accepted(textBuf: seq<char>, patBuf: seq<char>, grid: nat): (s: seq<int>)
    requires DispatchReady(textBuf, patBuf, grid)
    ensures forall x :: x in s <==> 0 <= x < grid && KernelAccepts(textBuf, patBuf, x)
    ensures forall x :: x in s ==> 0 <= x < grid
    ensures StrictlyIncreasing(s)
  {
    if grid == 0 then []
    else
      var prev := Accepted(textBuf, patBuf, grid - 1);
      var s := prev + (if KernelAccepts(textBuf, patBuf, grid - 1) then [grid - 1] else []);
      assert forall i :: 0 <= i < |prev| ==> prev[i] in prev;
      s
  }

  /** The set of offsets below `grid` that the kernel accepts. */
  ghost function MatchSet(textBuf: seq<char>, patBuf: seq<char>, grid: nat): set<int>
    requires DispatchReady(textBuf, patBuf, grid)
  {
    set x | 0 <= x < grid && KernelAccepts(textBuf, patBuf, x)
  }

  /** A strictly increasing sequence has as many elements as its set. */
  lemma {:induction false} IncreasingCard(s: seq<int>)
    requires StrictlyIncreasing(s)
    ensures |set x | x in s| == |s|
  {
    if |s| > 0 {
      var init := s[..|s| - 1];
      IncreasingCard(init);
      assert (set x | x in s) == (set x | x in init) + {s[|s| - 1]};
      assert s[|s| - 1] !in (set x | x in init);
    }
  }

  /** Each accepted offset is recorded once: the counter after the whole grid
      equals the number of matching offsets. */
  lemma AcceptedIsMatchSet(textBuf: seq<char>, patBuf: seq<char>, grid: nat)
    requires DispatchReady(textBuf, patBuf, grid)
    ensures (set x | x in Accepted(textBuf, patBuf, grid)) == MatchSet(textBuf, patBuf, grid)
    ensures |Accepted(textBuf, patBuf, grid)| == |MatchSet(textBuf, patBuf, grid)|
  {
    IncreasingCard(Accepted(textBuf, patBuf, grid));
  }

  /** The launch of `grid` kernel instances, one per thread id, in ascending
      order; the device may run them in any order, and what is stated about
      the result is its set of offsets and its count. */
  method DispatchGrid(textBuf: seq<char>, patBuf: seq<char>, ch: ResultChannel, grid: nat)
    requires DispatchReady(textBuf, patBuf, grid)
    requires ch.Valid() && ch.Found == []
    modifies ch, ch.slots
    ensures ch.Valid() && ch.Found == Accepted(textBuf, patBuf, grid)
  {
    for tid := 0 to grid
      invariant ch.Valid() && ch.Found == Accepted(textBuf, patBuf, tid)
    {
      GrepKernel(textBuf, patBuf, ch, tid);
    }
  }

  /** The read-back after the completion wait: the counter is clamped to the
      number of host slots (with a warning exactly when it exceeds them) and
      that many slots are copied out; they are the first offsets reported. */
  method Harvest(ch: ResultChannel, maxMatches: nat)
    returns (matchCount: nat, warned: bool, positions: seq<int>)
    requires ch.Valid() && maxMatches <= ch.slots.Length
    ensures matchCount <= maxMatches && matchCount <= ch.counter
    ensures matchCount == ch.counter || matchCount == maxMatches
    ensures warned <==> ch.counter > maxMatches
    ensures !warned ==> matchCount == ch.counter
    ensures positions == ch.slots[..matchCount]
    ensures maxMatches <= ch.capacity ==> positions == ch.Found[..matchCount]
  {
    matchCount := ch.counter;
    warned := false;
    if matchCount > maxMatches {
      warned := true;
      matchCount := maxMatches;
    }
    positions := ch.slots[..matchCount];
  }
}
