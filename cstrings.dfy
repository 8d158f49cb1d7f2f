/** NUL-terminated buffers as the compute kernel sees them, and the kernel's
    32-bit unsigned arithmetic. */
module CStrings {

  const NUL: char := '\0'

  /** 2^32: the kernel's `uint` lengths and thread ids live below this. */
  const U32: nat := 0x1_0000_0000

  /** A buffer the host closed with a NUL byte; it may hold earlier NULs. */
  predicate Terminated(buf: seq<char>)
  {
    |buf| > 0 && buf[|buf| - 1] == NUL
  }

  /** A buffer whose only NUL is its terminator, as a command-line argument is. */
  predicate CString(buf: seq<char>)
  {
    Terminated(buf) && NUL !in buf[..|buf| - 1]
  }

  /** The length the kernel measures: the index of the first NUL. */
  function CLength(buf: seq<char>): (n: nat)
    requires NUL in buf
    ensures n < |buf| && buf[n] == NUL
    ensures forall k :: 0 <= k < n ==> buf[k] != NUL
  {
    if buf[0] == NUL then 0 else 1 + CLength(buf[1..])
  }

  lemma CStringLength(buf: seq<char>)
    requires CString(buf)
    ensures NUL in buf && CLength(buf) == |buf| - 1
  {
  }

  /** `a - b` computed on 32-bit unsigned integers: wraps below zero. */
  function USub32(a: nat, b: nat): (r: nat)
    requires a < U32 && b < U32
    ensures r < U32
    ensures a >= b ==> r == a - b
    ensures a < b ==> r == U32 + a - b
  {
    (a - b) % U32
  }

  /** The kernel's length loop: advance until the NUL byte. */
  method StrLen(buf: seq<char>) returns (n: nat)
    requires NUL in buf
    ensures n == CLength(buf)
  {
    n := 0;
    while buf[n] != NUL
      invariant n <= CLength(buf)
      decreases CLength(buf) - n
    {
      n := n + 1;
    }
  }
}
